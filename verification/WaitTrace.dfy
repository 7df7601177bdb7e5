/** `ptrace_waitpid` and `ptrace_attach` over a trace of what the operating system answers. */
module WaitTrace {
  import opened Wrappers

  const SIGSTOP: int := 19

  datatype AttachState = Success | Fail | ThreadDead

  datatype Errno = Eintr | Echild | Einval | OtherErrno

  /** The answer to one waitpid call; a stop also says whether continuing the process would work. */
  datatype Call = Stopped(sig: int, continues: bool) | Exited | Error(errno: Errno)

  /** The result (None while the trace has not decided it), the signals passed on, and how many
      answers were used up. */
  datatype Outcome = Outcome(state: Option<AttachState>, forwarded: seq<int>, used: nat)

  /** The answer one round acts on, retrying once with __WALL after ECHILD, and the calls it took. */
  function Round(calls: seq<Call>): Option<(Call, nat)> {
    if calls == [] then None
    else if calls[0] != Error(Echild) then Some((calls[0], 1))
    else if |calls| == 1 then None
    else Some((calls[1], 2))
  }

  /** How the loop answers one call: a final state, or the wish to wait on; and the signal passed on. */
  function React(call: Call): (Option<AttachState>, seq<int>) {
    match call
    case Exited => (Some(ThreadDead), [])
    case Error(Eintr) => (None, [])
    case Error(Echild) => (Some(ThreadDead), [])
    case Error(_) => (Some(Fail), [])
    case Stopped(sig, continues) =>
      if sig == SIGSTOP then (Some(Success), []) else (if continues then None else Some(Fail), [sig])
  }

  function Wait(calls: seq<Call>): Outcome
    decreases |calls|
  {
    if Round(calls).None? then Outcome(None, [], |calls|)
    else
      var (call, n) := Round(calls).value;
      var (state, signals) := React(call);
      if state.Some? then Outcome(state, signals, n) else Later(signals, n, Wait(calls[n..]))
  }

  function Later(signals: seq<int>, n: nat, rest: Outcome): Outcome {
    Outcome(rest.state, signals + rest.forwarded, n + rest.used)
  }

  lemma LaterTwice(a: seq<int>, m: nat, b: seq<int>, n: nat, o: Outcome)
    ensures Later(a, m, Later(b, n, o)) == Later(a + b, m + n, o)
  {
  }

  /** The loop of ptrace_waitpid. */
  method PtraceWaitpid(calls: seq<Call>) returns (o: Outcome)
    ensures o == Wait(calls)
  {
    hide Wait, Later;
    var rest, forwarded: seq<int>, used: nat := calls, [], 0;
    Begin(calls);
    while true
      invariant Later(forwarded, used, Wait(rest)) == Wait(calls)
      decreases |rest|
    {
      WaitStep(rest);
      var n := 1;
      if rest != [] && rest[0] == Error(Echild) {
        n := 2;
      }
      if |rest| < n {
        return Ended(None, forwarded, [], used, |rest|);
      }
      var state: Option<AttachState>, signals: seq<int> := None, [];
      match rest[n - 1] {
        case Exited =>
          state := Some(ThreadDead);
        case Error(errno) =>
          if errno == Echild {
            state := Some(ThreadDead);
          } else if errno != Eintr {
            state := Some(Fail);
          }
        case Stopped(sig, continues) =>
          if sig == SIGSTOP {
            state := Some(Success);
          } else {
            signals := [sig];
            if !continues {
              state := Some(Fail);
            }
          }
      }
      if state.Some? {
        return Ended(state, forwarded, signals, used, n);
      }
      LaterTwice(forwarded, used, signals, n, Wait(rest[n..]));
      rest, forwarded, used := rest[n..], forwarded + signals, used + n;
    }
  }

  function Ended(state: Option<AttachState>, forwarded: seq<int>, signals: seq<int>, used: nat, n: nat): (o: Outcome)
    ensures o == Later(forwarded, used, Outcome(state, signals, n))
  {
    Outcome(state, forwarded + signals, used + n)
  }

  lemma Begin(calls: seq<Call>)
    ensures Later([], 0, Wait(calls)) == Wait(calls)
  {
  }

  lemma WaitStep(calls: seq<Call>)
    ensures Round(calls).None? ==> Wait(calls) == Outcome(None, [], |calls|)
    ensures Round(calls).Some? ==>
              var r := Round(calls).value;
              Wait(calls) == if React(r.0).0.Some? then Outcome(React(r.0).0, React(r.0).1, r.1)
                             else Later(React(r.0).1, r.1, Wait(calls[r.1..]))
  {
  }

  // ---------------------------------------------------------------- what a successful wait has done

  /** The stop signals of a trace, in order. */
  function StopSignals(calls: seq<Call>): seq<int> {
    if calls == [] then []
    else (if calls[0].Stopped? then [calls[0].sig] else []) + StopSignals(calls[1..])
  }

  predicate IsSigstop(c: Call) {
    c.Stopped? && c.sig == SIGSTOP
  }

  /** Once a wait has succeeded, the answers used end with the first SIGSTOP stop of the trace, and
      exactly the stop signals before it were passed on, in order. */
  lemma {:induction false} SuccessForwardsAll(calls: seq<Call>)
    requires Wait(calls).state == Some(Success)
    ensures var o := Wait(calls);
            && 0 < o.used <= |calls|
            && IsSigstop(calls[o.used - 1])
            && (forall i | 0 <= i < o.used - 1 :: !IsSigstop(calls[i]))
            && o.forwarded == StopSignals(calls[..o.used - 1])
    decreases |calls|
  {
    hide Wait, StopSignals;
    WaitStep(calls);
    var (call, n) := Round(calls).value;
    var o := Wait(calls);
    if IsSigstop(call) {
      NoSignalsBefore(calls, n);
    } else {
      var rest := calls[n..];
      SuccessForwardsAll(rest);
      var m := o.used - 1;
      assert forall i | n <= i < m :: calls[i] == rest[i - n];
      StopSignalsAfter(calls, n, m);
      assert calls[n..m] == rest[..m - n];
    }
  }

  lemma NoSignalsBefore(calls: seq<Call>, n: nat)
    requires 1 <= n <= 2 && n <= |calls| && (n == 2 ==> !calls[0].Stopped?)
    ensures StopSignals(calls[..n - 1]) == []
  {
  }

  lemma StopSignalsAfter(calls: seq<Call>, n: nat, m: nat)
    requires 1 <= n <= 2 && n <= m <= |calls| && (n == 2 ==> !calls[0].Stopped?)
    ensures StopSignals(calls[..m]) ==
            (if calls[n - 1].Stopped? then [calls[n - 1].sig] else []) + StopSignals(calls[n..m])
  {
  }

  /** No SIGSTOP was used up unless the wait succeeded. */
  lemma {:induction false} StopMeansSuccess(calls: seq<Call>, i: nat)
    requires i < Wait(calls).used <= |calls| && IsSigstop(calls[i])
    ensures Wait(calls).state == Some(Success) && i == Wait(calls).used - 1
    decreases |calls|
  {
    if Round(calls).Some? {
      var (call, n) := Round(calls).value;
      if i >= n {
        StopMeansSuccess(calls[n..], i - n);
      }
    }
  }

  predicate EndsDead(calls: seq<Call>, used: nat) {
    && 0 < used <= |calls|
    && (calls[used - 1].Exited?
        || (used >= 2 && calls[used - 1] == Error(Echild) && calls[used - 2] == Error(Echild)))
  }

  predicate EndsFailed(calls: seq<Call>, used: nat) {
    && 0 < used <= |calls|
    && match calls[used - 1]
       case Stopped(sig, continues) => sig != SIGSTOP && !continues
       case Error(errno) => errno != Eintr && errno != Echild
       case Exited => false
  }

  /** Every other end of the wait: the thread is gone, the wait failed, or the trace ran out. The
      signals requested to be passed on are all the stop signals met. */
  lemma {:induction false} OtherEnds(calls: seq<Call>)
    requires Wait(calls).state != Some(Success)
    ensures var o := Wait(calls);
            && o.used <= |calls| && o.forwarded == StopSignals(calls[..o.used])
            && (o.state == Some(ThreadDead) ==> EndsDead(calls, o.used))
            && (o.state == Some(Fail) ==> EndsFailed(calls, o.used))
            && (o.state == None ==> o.used == |calls|)
    decreases |calls|
  {
    hide Wait, StopSignals;
    WaitStep(calls);
    if Round(calls).None? {
      assert calls[..|calls|] == calls;
      FewCalls(calls);
    } else {
      var (call, n) := Round(calls).value;
      var rest := calls[n..];
      if React(call).0.None? {
        OtherEnds(rest);
        assert calls[n..Wait(calls).used] == rest[..Wait(rest).used];
      } else {
        assert calls[n..n] == [];
        NoSignals();
      }
      StopSignalsAfter(calls, n, Wait(calls).used);
    }
  }

  lemma NoSignals()
    ensures StopSignals([]) == []
  {
  }

  lemma FewCalls(calls: seq<Call>)
    requires Round(calls).None?
    ensures StopSignals(calls) == []
  {
  }

  // ---------------------------------------------------------------- the result, read off the trace

  /** The answer at place `i` would end a wait that gets that far: it is neither an interruption nor
      a stop that was passed on, and an ECHILD counts only right behind another one. */
  predicate Terminal(calls: seq<Call>, i: nat)
    requires i < |calls|
  {
    match calls[i]
    case Exited => true
    case Stopped(sig, continues) => sig == SIGSTOP || !continues
    case Error(errno) => errno != Eintr && (errno == Echild ==> i > 0 && calls[i - 1] == Error(Echild))
  }

  /** Place `i` holds the first answer that ends the wait; the length stands for none. */
  predicate FirstTerminal(calls: seq<Call>, i: nat) {
    && i <= |calls|
    && (forall j | 0 <= j < i :: !Terminal(calls, j))
    && (i < |calls| ==> Terminal(calls, i))
  }

  predicate IsGone(c: Call) {
    c.Exited? || c == Error(Echild)
  }

  /** The wait ends at the first terminal answer. */
  lemma {:induction false} WaitEnds(calls: seq<Call>) returns (i: nat)
    ensures FirstTerminal(calls, i)
    ensures i == |calls| ==> Wait(calls).state == None && Wait(calls).used == |calls|
    ensures i < |calls| ==>
              && Wait(calls).used == i + 1
              && Wait(calls).state == Some(if IsSigstop(calls[i]) then Success
                                           else if IsGone(calls[i]) then ThreadDead else Fail)
    decreases |calls|
  {
    hide Wait;
    WaitStep(calls);
    if Round(calls).None? {
      i := |calls|;
    } else {
      var (call, n) := Round(calls).value;
      if React(call).0.Some? {
        i := n - 1;
      } else {
        var k := WaitEnds(calls[n..]);
        i := n + k;
        forall j | n <= j < |calls| ensures Terminal(calls, j) == Terminal(calls[n..], j - n) {
          assert calls[n..][j - n] == calls[j];
        }
      }
    }
  }

  lemma FirstTerminalUnique(calls: seq<Call>, i: nat, j: nat)
    requires FirstTerminal(calls, i) && FirstTerminal(calls, j)
    ensures i == j
  {
  }

  /** For every trace: success exactly when the first terminal answer is a SIGSTOP stop, a dead
      thread exactly when it is an exit or a repeated ECHILD, failure exactly when it is anything
      else, and no result exactly when there is none. */
  lemma WaitExactly(calls: seq<Call>, i: nat)
    requires FirstTerminal(calls, i)
    ensures Wait(calls).state == Some(Success) <==> i < |calls| && IsSigstop(calls[i])
    ensures Wait(calls).state == Some(ThreadDead) <==> i < |calls| && IsGone(calls[i])
    ensures Wait(calls).state == Some(Fail) <==> i < |calls| && !IsSigstop(calls[i]) && !IsGone(calls[i])
    ensures Wait(calls).state == None <==> i == |calls|
  {
    hide Wait;
    var k := WaitEnds(calls);
    FirstTerminalUnique(calls, i, k);
  }

  // ---------------------------------------------------------------- attaching to one thread

  /** What the system answers for one thread: the attach request, whether /proc still knows the
      thread, and the waitpid calls. */
  datatype Thread = Thread(attachError: Option<bool>, gone: bool, calls: seq<Call>)

  /** ptrace_attach; `attachError` holds whether the error was EPERM or ESRCH. */
  function Attach(t: Thread): Option<AttachState> {
    match t.attachError
    case Some(permOrSearch) => if permOrSearch && t.gone then Some(ThreadDead) else Some(Fail)
    case None => Wait(t.calls).state
  }

  method PtraceAttach(t: Thread) returns (r: Option<AttachState>)
    ensures r == Attach(t)
  {
    match t.attachError {
      case Some(permOrSearch) =>
        r := if permOrSearch && t.gone then Some(ThreadDead) else Some(Fail);
      case None =>
        var o := PtraceWaitpid(t.calls);
        r := o.state;
    }
  }

  /** What an attach means on the raw answers: it succeeds exactly when the request was accepted and
      the first terminal answer is a SIGSTOP stop. */
  lemma AttachExactly(t: Thread, i: nat)
    requires FirstTerminal(t.calls, i)
    ensures Attach(t) == Some(Success) <==> t.attachError.None? && i < |t.calls| && IsSigstop(t.calls[i])
    ensures Attach(t) == Some(ThreadDead) <==>
            if t.attachError.Some? then t.attachError.value && t.gone else i < |t.calls| && IsGone(t.calls[i])
    ensures Attach(t) == None <==> t.attachError.None? && i == |t.calls|
  {
    hide Wait, FirstTerminal;
    WaitExactly(t.calls, i);
  }
}
