/** The thread list of a process handle, a singly linked list changed in place, and `Pgrab`. */
module ThreadList {
  import opened Wrappers
  import opened WaitTrace

  class ThreadInfo {
    const lwp: int
    var next: ThreadInfo?

    constructor (id: int, rest: ThreadInfo?)
      ensures lwp == id && next == rest
    {
      lwp, next := id, rest;
    }
  }

  function At(nodes: seq<ThreadInfo>, i: nat): ThreadInfo? {
    if i < |nodes| then nodes[i] else null
  }

  /** `nodes` are linked in this order, starting from `first`. */
  ghost predicate Linked(first: ThreadInfo?, nodes: seq<ThreadInfo>)
    reads set n | n in nodes
  {
    && first == At(nodes, 0)
    && Distinct(nodes)
    && forall i | 0 <= i < |nodes| :: nodes[i].next == At(nodes, i + 1)
  }

  predicate Distinct(nodes: seq<ThreadInfo>) {
    forall i, j | 0 <= i < j < |nodes| :: nodes[i] != nodes[j]
  }

  function Without(nodes: seq<ThreadInfo>, k: nat): seq<ThreadInfo>
    requires k < |nodes|
  {
    nodes[..k] + nodes[k + 1..]
  }

  lemma WithoutDistinct(nodes: seq<ThreadInfo>, k: nat)
    requires k < |nodes| && Distinct(nodes)
    ensures Distinct(Without(nodes, k)) && |Without(nodes, k)| == |nodes| - 1
    ensures forall n | n in Without(nodes, k) :: n in nodes && n != nodes[k]
  {
  }

  lemma Places(nodes: seq<ThreadInfo>, k: nat)
    requires k < |nodes| && Distinct(nodes)
    ensures nodes[k] == nodes[0] <==> k == 0
    ensures k > 0 ==> forall i | 0 <= i < |nodes| && i != k - 1 :: nodes[i] != nodes[k - 1]
  {
  }

  /** Bypassing node `k` links the others. */
  lemma LinkedWithout(first: ThreadInfo?, nodes: seq<ThreadInfo>, k: nat)
    requires k < |nodes| && Distinct(nodes) && first == At(nodes, if k == 0 then 1 else 0)
    requires forall i | 0 <= i < |nodes| && i != k - 1 :: nodes[i].next == At(nodes, i + 1)
    requires k > 0 ==> nodes[k - 1].next == At(nodes, k + 1)
    ensures Linked(first, Without(nodes, k))
  {
  }

  ghost function Ids(nodes: seq<ThreadInfo>): (ids: seq<int>)
    ensures |ids| == |nodes| && forall i | 0 <= i < |nodes| :: ids[i] == nodes[i].lwp
  {
    seq(|nodes|, i requires 0 <= i < |nodes| => nodes[i].lwp)
  }

  class ProcHandle {
    const pid: int
    var threads: ThreadInfo?
    var numThreads: int
    ghost var nodes: seq<ThreadInfo>
    /** Every node that was ever in the list. */
    ghost var repr: set<ThreadInfo>

    ghost predicate Valid()
      reads this, repr
    {
      (forall n | n in nodes :: n in repr) && Linked(threads, nodes) && numThreads == |nodes|
    }

    constructor (id: int)
      ensures Valid() && pid == id && nodes == [] && repr == {}
    {
      pid, threads, numThreads, nodes, repr := id, null, 0, [], {};
    }

    /** `add_thread_info`: a new node in front; without memory it fails and changes nothing. */
    method AddThreadInfo(lwp: int, memory: bool) returns (ok: bool)
      requires Valid()
      modifies this
      ensures Valid() && ok == memory && fresh(repr - old(repr))
      ensures if ok then |nodes| == |old(nodes)| + 1 && nodes[1..] == old(nodes) && nodes[0].lwp == lwp
              else nodes == old(nodes)
    {
      if !memory {
        return false;
      }
      ghost var was := nodes;
      var t := new ThreadInfo(lwp, threads);
      threads := t;
      numThreads := numThreads + 1;
      nodes := [t] + was;
      repr := repr + {t};
      forall i | 0 <= i < |nodes| ensures nodes[i].next == At(nodes, i + 1) {
        if i > 0 {
          assert nodes[i] == was[i - 1];
        }
      }
      return true;
    }

    /** Walks to the node, keeping the one before it; `k` is its place, or the length where it is
        not in the list. */
    method Find(t: ThreadInfo) returns (previous: ThreadInfo?, current: ThreadInfo?, ghost k: nat)
      requires Valid()
      ensures k <= |nodes| && current == At(nodes, k) && t !in nodes[..k]
      ensures k < |nodes| ==> nodes[k] == t
      ensures k > 0 ==> previous == nodes[k - 1]
    {
      previous, current, k := null, threads, 0;
      while current != null && current != t
        invariant k <= |nodes| && current == At(nodes, k) && t !in nodes[..k]
        invariant k > 0 ==> previous == nodes[k - 1]
        decreases |nodes| - k
      {
        previous := current;
        current := current.next;
        k := k + 1;
      }
    }

    /** `delete_thread_info`; a node that is not in the list leaves it unchanged. */
    method DeleteThreadInfo(t: ThreadInfo) returns (ghost k: nat)
      requires Valid()
      modifies this, repr
      ensures Valid() && k <= |old(nodes)| && repr == old(repr)
      ensures if k < |old(nodes)| then old(nodes)[k] == t && nodes == Without(old(nodes), k)
              else t !in old(nodes) && nodes == old(nodes)
    {
      hide Linked, Without, Distinct;
      ghost var was := nodes;
      var previous, current;
      previous, current, k := Find(t);
      if current == null {
        assert was[..k] == was;
        return;
      }
      Bypass(previous, t, k);
      numThreads := numThreads - 1;
      nodes := Without(was, k);
    }

    /** Node `k` is linked around; the fields that describe the list are left to the caller. */
    method Bypass(previous: ThreadInfo?, t: ThreadInfo, ghost k: nat)
      requires Valid() && k < |nodes| && nodes[k] == t && (k > 0 ==> previous == nodes[k - 1])
      modifies this`threads, repr`next
      ensures Linked(threads, Without(nodes, k)) && |Without(nodes, k)| == |nodes| - 1
      ensures forall n | n in Without(nodes, k) :: n in repr
    {
      hide Without, Distinct;
      Places(nodes, k);
      WithoutDistinct(nodes, k);
      if t == threads {
        threads := t.next;
      } else {
        previous.next := t.next;
      }
      LinkedWithout(threads, nodes, k);
    }

    /** `detach_all_pids`: the detach requests, in list order; `ptrace_detach` skips pid 0. */
    method DetachAll() returns (requests: seq<int>)
      requires Valid()
      ensures requests == NonZero(Ids(nodes))
    {
      hide NonZero, Ids, Distinct;
      requests := [];
      var t := threads;
      ghost var i := 0;
      NonZeroFrom(nodes, 0);
      while t != null
        invariant 0 <= i <= |nodes| && t == At(nodes, i)
        invariant requests == NonZero(Ids(nodes)[..i])
        decreases |nodes| - i
      {
        if t.lwp != 0 {
          requests := requests + [t.lwp];
        }
        NonZeroFrom(nodes, i);
        t := t.next;
        i := i + 1;
      }
      assert Ids(nodes)[..i] == Ids(nodes);
    }
  }

  function NonZero(ids: seq<int>): seq<int> {
    if ids == [] then []
    else NonZero(ids[..|ids| - 1]) + if ids[|ids| - 1] != 0 then [ids[|ids| - 1]] else []
  }

  /** One node further: the next request, unless its id is 0. */
  lemma NonZeroFrom(nodes: seq<ThreadInfo>, i: nat)
    ensures NonZero(Ids(nodes)[..0]) == []
    ensures i < |nodes| ==>
              NonZero(Ids(nodes)[..i + 1]) ==
              NonZero(Ids(nodes)[..i]) + if nodes[i].lwp != 0 then [nodes[i].lwp] else []
  {
    if i < |nodes| {
      assert Ids(nodes)[..i + 1][..i] == Ids(nodes)[..i];
    }
  }

  // ---------------------------------------------------------------- the attach loop

  /** What the system answers when thread `i` of the list is attached to; the trace decides each. */
  predicate Decided(answers: seq<Thread>) {
    forall i | 0 <= i < |answers| :: Attach(answers[i]).Some?
  }

  /** Whether the loop drops thread `i`: it is dead, and not the already attached main thread. */
  predicate Drops(pid: int, lwp: int, answer: Thread) {
    lwp != pid && Attach(answer) == Some(ThreadDead)
  }

  predicate Refuses(pid: int, lwp: int, answer: Thread) {
    lwp != pid && Attach(answer) == Some(Fail)
  }

  /** The nodes that stay, in order. */
  ghost function Kept(pid: int, nodes: seq<ThreadInfo>, answers: seq<Thread>): seq<ThreadInfo>
    requires |nodes| <= |answers|
  {
    if nodes == [] then []
    else
      var i := |nodes| - 1;
      Kept(pid, nodes[..i], answers) + if Drops(pid, nodes[i].lwp, answers[i]) then [] else [nodes[i]]
  }

  /** The first thread whose attach fails, or the length. */
  ghost predicate FirstRefusal(pid: int, nodes: seq<ThreadInfo>, answers: seq<Thread>, k: nat)
    requires |nodes| <= |answers|
  {
    && k <= |nodes|
    && (forall i | 0 <= i < k :: !Refuses(pid, nodes[i].lwp, answers[i]))
    && (k < |nodes| ==> Refuses(pid, nodes[k].lwp, answers[k]))
  }

  /** The loop of Pgrab: the list is walked while dead threads are taken out of it. On success the
      list is the discovered threads less the dead ones, in the same order; on failure a detach is
      requested for every thread still listed. */
  method AttachThreads(ph: ProcHandle, answers: seq<Thread>) returns (ok: bool, requests: seq<int>, ghost k: nat)
    requires ph.Valid() && |answers| == |ph.nodes| && Decided(answers)
    modifies ph, ph.repr
    ensures ph.Valid() && FirstRefusal(ph.pid, old(ph.nodes), answers, k)
    ensures ok <==> k == |old(ph.nodes)|
    ensures ph.nodes == Kept(ph.pid, old(ph.nodes)[..k], answers) + old(ph.nodes)[k..]
    ensures !ok ==> requests == NonZero(Ids(ph.nodes))
  {
    hide Kept, Linked, Refuses, Drops, Attach, At, Distinct, Ids, NonZero;
    ghost var all := ph.nodes;
    ghost var kept: seq<ThreadInfo> := [];
    var t, i := ph.threads, 0;
    Starts(ph, answers);
    while t != null
      invariant ph.Valid() && ph.repr == old(ph.repr)
      invariant i <= |all| && t == At(all, i)
      invariant Progress(ph.pid, ph.nodes, kept, all, answers, i)
      decreases |all| - i
    {
      AtFacts(all, i);
      var current := t;
      NextNode(ph.threads, ph.nodes, kept, all, i);
      t := t.next;
      var verdict := Visit(ph, current, answers[i], kept, all, i);
      if verdict == Fail {
        requests := ph.DetachAll();
        return false, requests, i;
      }
      ProgressStep(ph.pid, ph.nodes, kept, all, answers, i);
      if verdict == Success {
        kept := kept + [current];
      }
      i := i + 1;
    }
    AtFacts(all, i);
    assert all[..i] == all && all[i..] == [];
    return true, [], i;
  }

  lemma AtFacts(nodes: seq<ThreadInfo>, i: nat)
    ensures if i < |nodes| then At(nodes, i) == nodes[i] else At(nodes, i) == null
  {
  }

  /** The first `i` threads are dealt with: `kept` of them stay, none refused. */
  ghost predicate Progress(pid: int, nodes: seq<ThreadInfo>, kept: seq<ThreadInfo>, all: seq<ThreadInfo>,
                           answers: seq<Thread>, i: nat) {
    && i <= |all| <= |answers|
    && nodes == kept + all[i..]
    && kept == Kept(pid, all[..i], answers)
    && forall j | 0 <= j < i :: !Refuses(pid, all[j].lwp, answers[j])
  }

  lemma ProgressStep(pid: int, nodes: seq<ThreadInfo>, kept: seq<ThreadInfo>, all: seq<ThreadInfo>,
                     answers: seq<Thread>, i: nat)
    requires i < |all| <= |answers| && kept == Kept(pid, all[..i], answers)
    requires forall j | 0 <= j <= i :: !Refuses(pid, all[j].lwp, answers[j])
    requires nodes == kept + if Drops(pid, all[i].lwp, answers[i]) then all[i + 1..] else all[i..]
    ensures Progress(pid, nodes, if Drops(pid, all[i].lwp, answers[i]) then kept else kept + [all[i]],
                     all, answers, i + 1)
  {
    hide Kept, Refuses, Drops;
    KeptStep(pid, all, answers, i);
    assert kept + all[i..] == kept + [all[i]] + all[i + 1..];
  }

  /** One round: the main thread is not attached to again, a dead thread is taken out. */
  method Visit(ph: ProcHandle, current: ThreadInfo, answer: Thread,
               ghost kept: seq<ThreadInfo>, ghost all: seq<ThreadInfo>, ghost i: nat) returns (v: AttachState)
    requires Attach(answer).Some?
    requires ph.Valid() && i < |all| && current == all[i] && ph.nodes == kept + all[i..]
    modifies ph, ph.repr
    ensures ph.Valid() && ph.repr == old(ph.repr)
    ensures v == ThreadDead <==> Drops(ph.pid, current.lwp, answer)
    ensures v == Fail <==> Refuses(ph.pid, current.lwp, answer)
    ensures ph.nodes == if v == ThreadDead then kept + all[i + 1..] else old(ph.nodes)
  {
    hide Linked, Attach;
    v := Success;
    if ph.pid != current.lwp {
      var state := PtraceAttach(answer);
      v := state.value;
      if v == ThreadDead {
        NextNode(ph.threads, ph.nodes, kept, all, i);
        ghost var at := ph.DeleteThreadInfo(current);
        Unlinked(kept, all, i, at);
      }
    }
  }

  lemma Starts(ph: ProcHandle, answers: seq<Thread>)
    requires ph.Valid()
    requires |ph.nodes| <= |answers|
    ensures ph.threads == At(ph.nodes, 0) && Progress(ph.pid, ph.nodes, [], ph.nodes, answers, 0)
  {
  }

  lemma KeptStep(pid: int, nodes: seq<ThreadInfo>, answers: seq<Thread>, i: nat)
    requires i < |nodes| <= |answers|
    ensures Kept(pid, nodes[..i + 1], answers) ==
            Kept(pid, nodes[..i], answers) + if Drops(pid, nodes[i].lwp, answers[i]) then [] else [nodes[i]]
  {
    assert nodes[..i + 1][..i] == nodes[..i];
  }

  lemma NextNode(first: ThreadInfo?, nodes: seq<ThreadInfo>, kept: seq<ThreadInfo>, all: seq<ThreadInfo>, i: nat)
    requires Linked(first, nodes) && i < |all| && nodes == kept + all[i..]
    ensures all[i].next == At(all, i + 1) && Distinct(nodes) && nodes[|kept|] == all[i]
  {
    assert nodes[|kept|] == all[i];
    assert At(nodes, |kept| + 1) == At(all, i + 1);
  }

  lemma Unlinked(kept: seq<ThreadInfo>, all: seq<ThreadInfo>, i: nat, at: nat)
    requires i < |all| && Distinct(kept + all[i..]) && at <= |kept + all[i..]|
    requires if at < |kept + all[i..]| then (kept + all[i..])[at] == all[i] else all[i] !in kept + all[i..]
    ensures at == |kept| && Without(kept + all[i..], at) == kept + all[i + 1..]
  {
    var nodes := kept + all[i..];
    assert nodes[|kept|] == all[i];
  }

  // ---------------------------------------------------------------- Pgrab

  /** The ids that stay, in order. */
  function KeptIds(pid: int, ids: seq<int>, answers: seq<Thread>): (r: seq<int>)
    requires |ids| <= |answers|
  {
    if ids == [] then []
    else
      var i := |ids| - 1;
      KeptIds(pid, ids[..i], answers) + if Drops(pid, ids[i], answers[i]) then [] else [ids[i]]
  }

  lemma {:induction false} IdsKept(pid: int, nodes: seq<ThreadInfo>, answers: seq<Thread>)
    requires |nodes| <= |answers|
    ensures Ids(Kept(pid, nodes, answers)) == KeptIds(pid, Ids(nodes), answers)
  {
    if nodes != [] {
      var i := |nodes| - 1;
      IdsKept(pid, nodes[..i], answers);
      assert Ids(nodes)[..i] == Ids(nodes[..i]);
    }
  }

  function Reversed(ids: seq<int>): (r: seq<int>)
    ensures |r| == |ids|
  {
    if ids == [] then [] else [ids[|ids| - 1]] + Reversed(ids[..|ids| - 1])
  }

  /** The threads still listed when the attach of thread `k` failed, or at the end. */
  function Listed(pid: int, ids: seq<int>, answers: seq<Thread>, k: nat): seq<int>
    requires k <= |ids| <= |answers|
  {
    KeptIds(pid, ids[..k], answers) + ids[k..]
  }

  predicate FirstRefused(pid: int, ids: seq<int>, answers: seq<Thread>, k: nat)
    requires |ids| <= |answers|
  {
    && k <= |ids|
    && (forall i | 0 <= i < k && ids[i] != pid :: Attach(answers[i]) != Some(Fail))
    && (k < |ids| ==> ids[k] != pid && Attach(answers[k]) == Some(Fail))
  }

  /** The threads that get a node: discovery stops at the first one no memory is left for. */
  function Added(discovered: seq<int>, memory: seq<bool>): (r: seq<int>)
    requires |memory| == |discovered|
    ensures r <= discovered
  {
    if discovered == [] || !memory[0] then [] else [discovered[0]] + Added(discovered[1..], memory[1..])
  }

  /** All discovered threads are listed if and only if there was memory for each of them. */
  lemma {:induction false} AddedAllExactly(discovered: seq<int>, memory: seq<bool>)
    requires |memory| == |discovered|
    ensures Added(discovered, memory) == discovered <==> false !in memory
  {
    if discovered != [] {
      AddedAllExactly(discovered[1..], memory[1..]);
      assert memory == [memory[0]] + memory[1..];
      assert discovered == [discovered[0]] + discovered[1..];
    }
  }

  /** Attaching to a process whose threads are discovered in the given order. `memory` says for the
      handle, and then for each thread, whether it can be allocated; `answers` follows the list, which
      is the reverse of the threads added. */
  method Pgrab(pid: int, main: Thread, discovered: seq<int>, memory: seq<bool>, answers: seq<Thread>)
    returns (ph: ProcHandle?, requests: seq<int>, ghost k: nat)
    requires Attach(main).Some? && |memory| == |discovered| + 1
    requires |answers| == |Added(discovered, memory[1..])| && Decided(answers)
    ensures !memory[0] || Attach(main) != Some(Success) ==> ph == null && requests == []
    ensures memory[0] && Attach(main) == Some(Success) ==>
              var ids := Reversed(Added(discovered, memory[1..]));
              && FirstRefused(pid, ids, answers, k)
              && (ph != null <==> k == |ids|)
              && (ph != null ==> ph.Valid() && Ids(ph.nodes) == KeptIds(pid, ids, answers))
              && (ph == null ==> requests == NonZero(Listed(pid, ids, answers, k)))
  {
    hide *;
    ph, requests, k := null, [], 0;
    if !memory[0] {
      return;
    }
    var state := PtraceAttach(main);
    if state != Some(Success) {
      return;
    }
    var handle := ReadThreadInfo(pid, discovered, memory[1..]);
    ghost var all := handle.nodes;
    var ok;
    ok, requests, k := AttachThreads(handle, answers);
    GrabbedIds(pid, all, handle.nodes, answers, k);
    if ok {
      ph := handle;
    }
  }

  /** The discovered threads, each added in front until memory runs out. */
  method ReadThreadInfo(pid: int, discovered: seq<int>, memory: seq<bool>) returns (ph: ProcHandle)
    requires |memory| == |discovered|
    ensures ph.Valid() && fresh(ph) && fresh(ph.repr) && ph.pid == pid
    ensures Ids(ph.nodes) == Reversed(Added(discovered, memory))
  {
    hide Linked, Added, Reversed, Ids;
    ph := new ProcHandle(pid);
    var i := 0;
    assert Ids(ph.nodes) == Reversed(discovered[..0]) by { NoneYet(ph.nodes, discovered[..0]); }
    while i < |discovered|
      invariant 0 <= i <= |discovered| && ph.Valid() && fresh(ph) && fresh(ph.repr) && ph.pid == pid
      invariant Ids(ph.nodes) == Reversed(discovered[..i]) && false !in memory[..i]
    {
      ghost var was := ph.nodes;
      var ok := ph.AddThreadInfo(discovered[i], memory[i]);
      if !ok {
        AddedFrom(discovered, memory, i);
        return;
      }
      InFront(was, ph.nodes, discovered, i);
      i := i + 1;
    }
    AddedFrom(discovered, memory, i);
  }

  lemma NoneYet(nodes: seq<ThreadInfo>, ids: seq<int>)
    requires nodes == [] && ids == []
    ensures Ids(nodes) == Reversed(ids)
  {
  }

  lemma {:induction false} AddedFrom(discovered: seq<int>, memory: seq<bool>, i: nat)
    requires |memory| == |discovered| && i <= |discovered| && false !in memory[..i]
    requires i < |discovered| ==> !memory[i]
    ensures Added(discovered, memory) == discovered[..i]
  {
    if i > 0 {
      assert memory[..i][0] == memory[0];
      assert memory[1..][..i - 1] == memory[..i][1..];
      AddedFrom(discovered[1..], memory[1..], i - 1);
      assert discovered[..i] == [discovered[0]] + discovered[1..][..i - 1];
    }
  }

  lemma InFront(was: seq<ThreadInfo>, nodes: seq<ThreadInfo>, discovered: seq<int>, i: nat)
    requires i < |discovered| && Ids(was) == Reversed(discovered[..i])
    requires |nodes| == |was| + 1 && nodes[1..] == was && nodes[0].lwp == discovered[i]
    ensures Ids(nodes) == Reversed(discovered[..i + 1])
  {
    assert discovered[..i + 1][..i] == discovered[..i];
    assert Ids(nodes) == [discovered[i]] + Ids(was);
  }

  lemma GrabbedIds(pid: int, all: seq<ThreadInfo>, nodes: seq<ThreadInfo>, answers: seq<Thread>, k: nat)
    requires |all| <= |answers| && FirstRefusal(pid, all, answers, k)
    requires nodes == Kept(pid, all[..k], answers) + all[k..]
    ensures FirstRefused(pid, Ids(all), answers, k) && Ids(nodes) == Listed(pid, Ids(all), answers, k)
    ensures k == |all| ==> Ids(nodes) == KeptIds(pid, Ids(all), answers)
  {
    hide Attach, Kept, KeptIds;
    IdsKept(pid, all[..k], answers);
    var ids := Ids(all);
    assert ids[..k] == Ids(all[..k]) && ids[k..] == Ids(all[k..]);
    if k == |all| {
      assert ids[..k] == ids && ids[k..] == [];
    }
  }

  // ---------------------------------------------------------------- what the list means

  /** Listing `i` is of another thread than the main one, and its attach found it dead. */
  predicate DeadAt(pid: int, ids: seq<int>, answers: seq<Thread>, i: nat)
    requires i < |ids| <= |answers|
  {
    ids[i] != pid && Attach(answers[i]) == Some(ThreadDead)
  }

  /** A thread is kept exactly when it is the main one or some listing of it was not found dead. */
  lemma {:induction false} KeptExactly(pid: int, ids: seq<int>, answers: seq<Thread>, x: int)
    requires |ids| <= |answers|
    ensures x in KeptIds(pid, ids, answers) <==>
            exists i :: 0 <= i < |ids| && ids[i] == x && !DeadAt(pid, ids, answers, i)
  {
    hide Attach;
    if ids != [] {
      var n := |ids| - 1;
      KeptExactly(pid, ids[..n], answers, x);
      if i :| 0 <= i < n && ids[..n][i] == x && !DeadAt(pid, ids[..n], answers, i) {
        assert ids[i] == x && !DeadAt(pid, ids, answers, i);
      }
      if i :| 0 <= i < |ids| && ids[i] == x && !DeadAt(pid, ids, answers, i) {
        assert i < n ==> ids[..n][i] == x && !DeadAt(pid, ids[..n], answers, i);
      }
    }
  }

  function DeadPlaces(pid: int, ids: seq<int>, answers: seq<Thread>): set<nat>
    requires |ids| <= |answers|
  {
    set i: nat | i < |ids| && DeadAt(pid, ids, answers, i)
  }

  /** Exactly the dead listings are missing from the list. */
  lemma {:induction false} KeptLength(pid: int, ids: seq<int>, answers: seq<Thread>)
    requires |ids| <= |answers|
    ensures |KeptIds(pid, ids, answers)| + |DeadPlaces(pid, ids, answers)| == |ids|
  {
    if ids == [] {
      assert DeadPlaces(pid, ids, answers) == {};
    } else {
      hide Attach, DeadPlaces, DeadAt;
      var n := |ids| - 1;
      KeptLength(pid, ids[..n], answers);
      DeadGrows(pid, ids, answers, n);
      DeadIsDropped(pid, ids, answers, n);
    }
  }

  lemma DeadGrows(pid: int, ids: seq<int>, answers: seq<Thread>, n: nat)
    requires |ids| <= |answers| && n == |ids| - 1
    ensures n !in DeadPlaces(pid, ids[..n], answers)
    ensures DeadPlaces(pid, ids, answers) ==
            DeadPlaces(pid, ids[..n], answers) + if DeadAt(pid, ids, answers, n) then {n} else {}
  {
    hide Attach;
    assert forall i: nat | i < n :: DeadAt(pid, ids[..n], answers, i) <==> DeadAt(pid, ids, answers, i);
  }

  lemma DeadIsDropped(pid: int, ids: seq<int>, answers: seq<Thread>, i: nat)
    requires i < |ids| <= |answers|
    ensures Drops(pid, ids[i], answers[i]) <==> DeadAt(pid, ids, answers, i)
  {
  }

  /** Attaching succeeds exactly when no other thread than the main one refuses. */
  lemma GrabSucceedsExactly(pid: int, ids: seq<int>, answers: seq<Thread>, k: nat)
    requires |ids| <= |answers| && FirstRefused(pid, ids, answers, k)
    ensures k == |ids| <==> forall i | 0 <= i < |ids| && ids[i] != pid :: Attach(answers[i]) != Some(Fail)
  {
  }

  /** After success every thread in the list is the main thread or was attached to. */
  lemma AllAttached(pid: int, ids: seq<int>, answers: seq<Thread>, x: int)
    requires |ids| <= |answers| && Decided(answers) && FirstRefused(pid, ids, answers, |ids|)
    requires x in KeptIds(pid, ids, answers) && x != pid
    ensures exists i :: 0 <= i < |ids| && ids[i] == x && Attach(answers[i]) == Some(Success)
  {
    hide Attach;
    KeptExactly(pid, ids, answers, x);
    var i :| 0 <= i < |ids| && ids[i] == x && !DeadAt(pid, ids, answers, i);
    var r := Attach(answers[i]);
    assert r.Some? && r.value != Fail && r.value != ThreadDead;
  }

  /** `kept` is found in `ids` at the increasing `places`. */
  predicate Picks(places: seq<nat>, kept: seq<int>, ids: seq<int>) {
    && |places| == |kept|
    && (forall i | 0 <= i < |places| :: places[i] < |ids| && ids[places[i]] == kept[i])
    && forall i, j | 0 <= i < j < |places| :: places[i] < places[j]
  }

  lemma PicksGrow(places: seq<nat>, kept: seq<int>, ids: seq<int>, x: int)
    requires Picks(places, kept, ids)
    ensures Picks(places, kept, ids + [x]) && Picks(places + [|ids|], kept + [x], ids + [x])
  {
  }

  /** Order is kept: the kept threads are found among the listed ones at increasing places. */
  lemma {:induction false} KeptIsSubsequence(pid: int, ids: seq<int>, answers: seq<Thread>) returns (places: seq<nat>)
    requires |ids| <= |answers|
    ensures Picks(places, KeptIds(pid, ids, answers), ids)
  {
    hide Drops;
    if ids == [] {
      places := [];
    } else {
      hide Picks;
      var n := |ids| - 1;
      places := KeptIsSubsequence(pid, ids[..n], answers);
      PicksGrow(places, KeptIds(pid, ids[..n], answers), ids[..n], ids[n]);
      assert ids == ids[..n] + [ids[n]];
      if Drops(pid, ids[n], answers[n]) {
        assert KeptIds(pid, ids, answers) == KeptIds(pid, ids[..n], answers);
      } else {
        places := places + [n];
      }
    }
  }

  /** Requests are made part by part, in list order. */
  lemma {:induction false} NonZeroConcat(a: seq<int>, b: seq<int>)
    ensures NonZero(a + b) == NonZero(a) + NonZero(b)
  {
    hide NonZero;
    if b == [] {
      assert a + b == a;
      NonZeroNone(b);
    } else {
      var n := |b| - 1;
      var p, last := NonZero(b[..n]), if b[n] == 0 then [] else [b[n]];
      NonZeroConcat(a, b[..n]);
      NonZeroLast(a + b, a + b[..n], b[n]);
      NonZeroLast(b, b[..n], b[n]);
      assert NonZero(a) + (p + last) == NonZero(a) + p + last;
    }
  }

  lemma NonZeroNone(ids: seq<int>)
    requires ids == []
    ensures NonZero(ids) == []
  {
  }

  /** One request for the last thread, none if its id is 0. */
  lemma NonZeroLast(ids: seq<int>, before: seq<int>, x: int)
    requires ids == before + [x]
    ensures NonZero(ids) == NonZero(before) + if x == 0 then [] else [x]
  {
    assert ids[..|ids| - 1] == before;
  }

  /** The list is the reverse of the order of discovery. */
  lemma {:induction false} ReversedAt(ids: seq<int>, i: nat)
    requires i < |ids|
    ensures Reversed(ids)[i] == ids[|ids| - 1 - i]
  {
    if i > 0 {
      ReversedAt(ids[..|ids| - 1], i - 1);
    }
  }

  lemma {:induction false} NonZeroMember(ids: seq<int>, x: int)
    ensures x in NonZero(ids) <==> x != 0 && x in ids
  {
    if ids != [] {
      var n := |ids| - 1;
      NonZeroMember(ids[..n], x);
      assert ids == ids[..n] + [ids[n]];
    }
  }

  /** When the loop fails, a detach is requested for the main process exactly when thread discovery
      listed it. */
  lemma MainDetachedExactly(pid: int, ids: seq<int>, answers: seq<Thread>, k: nat)
    requires pid != 0 && |ids| <= |answers| && FirstRefused(pid, ids, answers, k) && k < |ids|
    ensures pid in NonZero(Listed(pid, ids, answers, k)) <==> pid in ids
  {
    NonZeroMember(Listed(pid, ids, answers, k), pid);
    KeptExactly(pid, ids[..k], answers, pid);
    if pid in ids {
      var i :| 0 <= i < |ids| && ids[i] == pid;
      if i < k {
        assert ids[..k][i] == pid && !DeadAt(pid, ids[..k], answers, i);
      } else {
        assert ids[k..][i - k] == pid;
      }
    }
  }

  /** Every thread at or behind the failing one is asked to detach. */
  lemma RestDetached(pid: int, ids: seq<int>, answers: seq<Thread>, k: nat, i: nat)
    requires |ids| <= |answers| && k <= i < |ids| && ids[i] != 0
    ensures ids[i] in NonZero(Listed(pid, ids, answers, k))
  {
    NonZeroMember(Listed(pid, ids, answers, k), ids[i]);
    assert ids[k..][i - k] == ids[i];
  }
}
