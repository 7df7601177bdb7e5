/** That locking and unlocking come to an end: what a thread reaches from `lock_object` and
    `unlock_object`, whatever the other threads do meanwhile. */
module StackLockProgress {
  import opened Bits
  import opened RecursionMask
  import opened StackLock
  import opened StackLockProof
  import opened StackLockTheorems

  // ---------------------------------------------------------------- runs seen by one thread

  /** How many actions of a run are the thread's own. */
  function Mine(t: Tid, run: seq<Action>): nat {
    if run == [] then 0
    else Mine(t, run[..|run| - 1]) + if run[|run| - 1].t == t then 1 else 0
  }

  lemma {:induction false} ReachAfter(c: Config, s: State, run: seq<Action>)
    requires Reachable(c, s) && Valid(c, s, run)
    ensures Reachable(c, After(c, s, run))
  {
    if run != [] {
      hide Reachable, Enabled, Next;
      var before := run[..|run| - 1];
      ReachAfter(c, s, before);
      ReachStep(c, After(c, s, before), run[|run| - 1]);
    }
  }

  /** The other threads' actions leave a thread's registers and records alone. */
  lemma OthersLeave(c: Config, s: State, a: Action, t: Tid)
    requires Enabled(c, s, a) && a.t != t && t in s.threads
    ensures t in Next(c, s, a).threads && Next(c, s, a).threads[t] == s.threads[t]
  {
  }

  /** A thread that is neither running nor in the slow path can take its next step, and no other action. */
  lemma OnlyExec(c: Config, s: State, a: Action, t: Tid)
    requires Enabled(c, s, a) && a.t == t && s.threads[t].pc != Running
    ensures a == Exec(t) && Next(c, s, a) == Stepped(c, s, t) && t in Next(c, s, a).threads
  {
  }

  lemma ReachableThread(c: Config, s: State, t: Tid)
    requires WellFormed(c) && Guarded(c) && Reachable(c, s) && t in s.threads
    ensures ThreadOk(c, s.mem, t, s.threads[t])
  {
    hide WellFormed, Guarded, Reachable, ThreadOk, MarksOk;
    ReachableInv(c, s);
  }

  // ---------------------------------------------------------------- unlocking

  /** The last record has an earlier one for the same object. */
  predicate Recursive(held: seq<Entry>)
    requires held != []
  {
    exists j :: 0 <= j < |held| - 1 && held[j].obj == held[|held| - 1].obj
  }

  /** Memory accesses until the record is gone. */
  function UnlockSteps(held: seq<Entry>): nat
    requires held != []
  {
    if Recursive(held) then 1 else 3
  }

  /** A thread that has taken `n` steps of unlock_object. */
  predicate UnlockingAt(th: Thread, held: seq<Entry>, n: nat)
    requires held != []
  {
    if n < UnlockSteps(held) then th.held == held && th.pc == [LoadDisplaced, LoadObj, CasUnlock][n]
    else th.pc == Running && th.held == held[..|held| - 1]
  }

  /** One step further; the last step puts the header back, unless an earlier record needs the mark. */
  lemma UnlockStep(c: Config, s: State, t: Tid, held: seq<Entry>, n: nat)
    requires WellFormed(c) && Guarded(c) && Reachable(c, s) && t in s.threads
    requires held != [] && n < UnlockSteps(held) && UnlockingAt(s.threads[t], held, n)
    ensures UnlockingAt(Stepped(c, s, t).threads[t], held, n + 1)
    ensures n == 2 ==> Restored(c, Stepped(c, s, t).mem, held)
  {
    hide WellFormed, Guarded, Reachable, ThreadOk, Recursive;
    var th := s.threads[t];
    ReachableThread(c, s, t);
    if n == 0 {
      assert th.slot == held[|held| - 1].slot by { LastSlot(c, s.mem, t, th); }
      assert Read(s.mem, th.slot) == 0 <==> Recursive(held) by { EmptyIsRecursive(c, s, t); }
    } else if n == 2 {
      UnlockCasSucceeds(c, s.mem, t, th);
    }
  }

  lemma LastSlot(c: Config, mem: map<nat, nat>, t: Tid, th: Thread)
    requires ThreadOk(c, mem, t, th) && Unlocking(th.pc)
    ensures th.held != [] && th.slot == th.held[|th.held| - 1].slot
  {
  }

  lemma EmptyIsRecursive(c: Config, s: State, t: Tid)
    requires WellFormed(c) && Guarded(c) && Reachable(c, s) && t in s.threads && s.threads[t].held != []
    ensures var held := s.threads[t].held; Read(s.mem, held[|held| - 1].slot) == 0 <==> Recursive(held)
  {
    hide WellFormed, Guarded, Reachable;
    EmptyMeansRecursive(c, s, t, |s.threads[t].held| - 1);
  }

  /** The mark of the last record's object is its header. */
  ghost predicate Restored(c: Config, mem: map<nat, nat>, held: seq<Entry>)
    requires held != []
  {
    var o := held[|held| - 1].obj;
    o in c.header && Read(mem, o) == c.header[o]
  }

  lemma {:induction false} UnlockRun(c: Config, s: State, t: Tid, held: seq<Entry>, run: seq<Action>)
    requires WellFormed(c) && Guarded(c) && Reachable(c, s) && AtPc(s, t, Running) && held == s.threads[t].held != []
    requires Valid(c, s, run) && run != [] && run[0] == BeginUnlock(t) && Mine(t, run) <= 1 + UnlockSteps(held)
    ensures Mine(t, run) >= 1 && t in After(c, s, run).threads
    ensures UnlockingAt(After(c, s, run).threads[t], held, Mine(t, run) - 1)
    ensures Mine(t, run) == 4 && run[|run| - 1].t == t ==> Restored(c, After(c, s, run).mem, held)
  {
    hide WellFormed, Guarded, Reachable, Valid, After, Enabled, Next, Stepped, Mine, UnlockingAt, UnlockSteps, Restored;
    var before, a := run[..|run| - 1], run[|run| - 1];
    RunStep(c, s, t, run);
    if |run| == 1 {
      UnlockBegins(c, s, t, held);
    } else {
      UnlockRun(c, s, t, held, before);
      var mid := After(c, s, before);
      ReachAfter(c, s, before);
      if a.t == t {
        StillUnlocking(mid.threads[t], held, Mine(t, before) - 1);
        OnlyExec(c, mid, a, t);
        UnlockStep(c, mid, t, held, Mine(t, before) - 1);
      } else {
        OthersLeave(c, mid, a, t);
      }
    }
  }

  /** A run is the run before its last action, and that action. */
  lemma RunStep(c: Config, s: State, t: Tid, run: seq<Action>)
    requires Valid(c, s, run) && run != []
    ensures var before, a := run[..|run| - 1], run[|run| - 1];
            && Valid(c, s, before) && Enabled(c, After(c, s, before), a)
            && After(c, s, run) == Next(c, After(c, s, before), a)
            && Mine(t, run) == Mine(t, before) + (if a.t == t then 1 else 0)
            && (before == [] ==> After(c, s, before) == s && Mine(t, before) == 0)
  {
    hide Enabled, Next;
  }

  lemma UnlockBegins(c: Config, s: State, t: Tid, held: seq<Entry>)
    requires Enabled(c, s, BeginUnlock(t)) && held == s.threads[t].held != []
    ensures t in Next(c, s, BeginUnlock(t)).threads
    ensures UnlockingAt(Next(c, s, BeginUnlock(t)).threads[t], held, 0)
  {
    hide Recursive;
  }

  lemma StillUnlocking(th: Thread, held: seq<Entry>, n: nat)
    requires held != [] && n < UnlockSteps(held) && UnlockingAt(th, held, n)
    ensures th.pc != Running && Unlocking(th.pc)
  {
    hide Recursive;
  }

  /** Unlocking ends: once the thread has taken its one or three steps it is running again with the last
      record gone, whatever other threads did in between. Until then it can take its next step, so it
      never needs the slow path; and its last step puts the header back when no earlier record has the
      object. */
  lemma UnlockCompletes(c: Config, s: State, t: Tid, run: seq<Action>)
    requires WellFormed(c) && Guarded(c) && Reachable(c, s) && AtPc(s, t, Running) && s.threads[t].held != []
    requires Valid(c, s, run) && run != [] && run[0] == BeginUnlock(t)
    requires Mine(t, run) <= 1 + UnlockSteps(s.threads[t].held)
    ensures var held, s', n := s.threads[t].held, After(c, s, run), Mine(t, run) - 1;
            && t in s'.threads
            && (if n < UnlockSteps(held)
                then s'.threads[t].held == held && Unlocking(s'.threads[t].pc) && Enabled(c, s', Exec(t))
                else s'.threads[t].held == held[..|held| - 1] && s'.threads[t].pc == Running)
            && (n == 3 && run[|run| - 1].t == t ==> Restored(c, s'.mem, held))
  {
    hide WellFormed, Guarded, Reachable, Valid, After, Enabled, Mine, UnlockSteps, Restored;
    var held := s.threads[t].held;
    UnlockRun(c, s, t, held, run);
    if Mine(t, run) - 1 < UnlockSteps(held) {
      StillUnlocking(After(c, s, run).threads[t], held, Mine(t, run) - 1);
      ReachAfter(c, s, run);
      StepEnabled(c, After(c, s, run), t);
    }
  }

  lemma StepEnabled(c: Config, s: State, t: Tid)
    requires WellFormed(c) && Guarded(c) && Reachable(c, s) && t in s.threads
    ensures t in c.lo && t in c.hi
    ensures s.threads[t].pc != Running && s.threads[t].pc != Slow ==> Enabled(c, s, Exec(t))
  {
    hide WellFormed, Guarded, Reachable, ThreadsOk, MarksOk;
    ReachableInv(c, s);
  }

  // ---------------------------------------------------------------- locking up to the compare-and-swap

  /** A thread that has taken `n` steps of lock_object(slot, o), started with `th0`. */
  predicate LockingAt(th: Thread, th0: Thread, slot: nat, o: nat, n: nat) {
    && n < 4 && th.pc == [StoreObj, LoadMark, SaveHeader, CasLock][n]
    && th.slot == slot && th.obj == o && th.sp == th0.sp && th.held == th0.held
  }

  lemma LockStep(c: Config, s: State, t: Tid, th0: Thread, slot: nat, o: nat, n: nat)
    requires t in s.threads && n < 3 && LockingAt(s.threads[t], th0, slot, o, n)
    ensures LockingAt(Stepped(c, s, t).threads[t], th0, slot, o, n + 1)
  {
  }

  lemma LockBegins(c: Config, s: State, t: Tid, slot: nat, o: nat)
    requires Enabled(c, s, BeginLock(t, slot, o))
    ensures t in Next(c, s, BeginLock(t, slot, o)).threads
    ensures LockingAt(Next(c, s, BeginLock(t, slot, o)).threads[t], s.threads[t], slot, o, 0)
  {
  }

  /** The first four accesses of lock_object follow in order, whatever other threads do. */
  lemma {:induction false} LockRun(c: Config, s: State, t: Tid, slot: nat, o: nat, run: seq<Action>)
    requires t in s.threads && Valid(c, s, run) && run != [] && run[0] == BeginLock(t, slot, o) && Mine(t, run) <= 4
    ensures Mine(t, run) >= 1 && t in After(c, s, run).threads
    ensures LockingAt(After(c, s, run).threads[t], s.threads[t], slot, o, Mine(t, run) - 1)
  {
    hide Valid, After, Enabled, Next, Stepped, Mine, LockingAt;
    var before, a := run[..|run| - 1], run[|run| - 1];
    RunStep(c, s, t, run);
    if |run| == 1 {
      LockBegins(c, s, t, slot, o);
    } else {
      LockRun(c, s, t, slot, o, before);
      var mid := After(c, s, before);
      if a.t == t {
        StillLocking(mid.threads[t], s.threads[t], slot, o, Mine(t, before) - 1);
        OnlyExec(c, mid, a, t);
        LockStep(c, mid, t, s.threads[t], slot, o, Mine(t, before) - 1);
      } else {
        OthersLeave(c, mid, a, t);
      }
    }
  }

  lemma StillLocking(th: Thread, th0: Thread, slot: nat, o: nat, n: nat)
    requires LockingAt(th, th0, slot, o, n)
    ensures th.pc != Running && Locking(th.pc)
  {
  }

  // ---------------------------------------------------------------- a lock the thread already holds

  /** While a thread keeps its records, the mark of a held object stays where it is. */
  lemma MarkStays(c: Config, s: State, s': State, t: Tid, i: int, o: nat)
    requires WellFormed(c) && Guarded(c) && Reachable(c, s) && Reachable(c, s')
    requires Holds(s, t, i, o) && t in s'.threads && s'.threads[t].held == s.threads[t].held
    ensures Read(s'.mem, o) == Read(s.mem, o) && Read(s.mem, o) % 2 == 0
  {
    hide WellFormed, Guarded, Reachable, ThreadOk;
    ReachableThread(c, s, t);
    ReachableThread(c, s', t);
    var j := HeldMarkInStack(c, s.mem, t, s.threads[t], i);
    var k := HeldMarkInStack(c, s'.mem, t, s'.threads[t], i);
    if j < k {
      OwnerAboveNone(c, s'.mem, t, s'.threads[t], k, j);
    } else if k < j {
      OwnerAboveNone(c, s.mem, t, s.threads[t], j, k);
    }
    SlotEven(c, t, Read(s.mem, o));
  }

  /** What the recursion test sees and decides. */
  predicate TestingAt(th: Thread, th0: Thread, slot: nat, o: nat, mark: nat) {
    th.pc == SaveTest && th.hdr == mark && th.slot == slot && th.obj == o && th.sp == th0.sp && th.held == th0.held
  }

  predicate Granted(th: Thread, th0: Thread, slot: nat, o: nat) {
    th.pc == Running && th.held == th0.held + [Entry(slot, o)]
  }

  predicate Refused(th: Thread, th0: Thread) {
    th.pc == Slow && th.held == th0.held
  }

  lemma OddHeaderKept(c: Config, mem: map<nat, nat>, t: Tid, th: Thread)
    requires ThreadOk(c, mem, t, th) && th.pc == CasLock
    ensures th.hdr % 2 == 1
  {
  }

  /** A compare-and-swap on an even mark fails. */
  lemma CasFails(c: Config, s: State, t: Tid, th0: Thread, slot: nat, o: nat)
    requires WellFormed(c) && Guarded(c) && Reachable(c, s) && t in s.threads
    requires LockingAt(s.threads[t], th0, slot, o, 3) && Read(s.mem, o) % 2 == 0
    ensures TestingAt(Stepped(c, s, t).threads[t], th0, slot, o, Read(s.mem, o))
  {
    hide WellFormed, Guarded, Reachable, ThreadOk;
    ReachableThread(c, s, t);
    OddHeaderKept(c, s.mem, t, s.threads[t]);
  }

  /** The recursion test grants the lock exactly when the mark is in the window above `sp`. */
  lemma TestGrants(c: Config, s: State, t: Tid, th0: Thread, slot: nat, o: nat, mark: nat)
    requires WellFormed(c) && Guarded(c) && Reachable(c, s) && t in s.threads
    requires TestingAt(s.threads[t], th0, slot, o, mark)
    ensures var th := Stepped(c, s, t).threads[t];
            if InWindow(mark, th0.sp, c.page) then Granted(th, th0, slot, o) else Refused(th, th0)
  {
    hide WellFormed, Guarded, Reachable, ThreadOk, Masked;
    ReachableThread(c, s, t);
    TestDecides(c, s.mem, t, s.threads[t]);
  }

  /** Locking an object the thread holds ends after five steps: with the record added if the mark is in the
      window above `sp`, in the slow path otherwise, whatever other threads do. */
  lemma {:induction false} RecursiveLockCompletes(c: Config, s: State, t: Tid, i: int, slot: nat, o: nat,
                                                  run: seq<Action>)
    requires WellFormed(c) && Guarded(c) && Reachable(c, s) && Holds(s, t, i, o)
    requires Valid(c, s, run) && run != [] && run[0] == BeginLock(t, slot, o) && Mine(t, run) <= 6
    ensures Mine(t, run) >= 1 && t in After(c, s, run).threads
    ensures var th, th0, n, mark := After(c, s, run).threads[t], s.threads[t], Mine(t, run) - 1, Read(s.mem, o);
            && (n < 4 ==> LockingAt(th, th0, slot, o, n))
            && (n == 4 ==> TestingAt(th, th0, slot, o, mark))
            && (n == 5 ==> if InWindow(mark, th0.sp, c.page) then Granted(th, th0, slot, o) else Refused(th, th0))
  {
    hide WellFormed, Guarded, Reachable, Valid, After, Enabled, Next, Stepped, Mine, LockingAt, TestingAt, Granted,
         Refused;
    if Mine(t, run) <= 4 {
      LockRun(c, s, t, slot, o, run);
    } else {
      var before, a, th0 := run[..|run| - 1], run[|run| - 1], s.threads[t];
      RunStep(c, s, t, run);
      RecursiveLockCompletes(c, s, t, i, slot, o, before);
      var mid := After(c, s, before);
      ReachAfter(c, s, before);
      if a.t != t {
        OthersLeave(c, mid, a, t);
      } else {
        LockContext(mid.threads[t], th0, slot, o, Read(s.mem, o), Mine(t, before) - 1);
        OnlyExec(c, mid, a, t);
        MarkStays(c, s, mid, t, i, o);
        if Mine(t, before) == 4 {
          CasFails(c, mid, t, th0, slot, o);
        } else {
          TestGrants(c, mid, t, th0, slot, o, Read(s.mem, o));
        }
      }
    }
  }

  lemma LockContext(th: Thread, th0: Thread, slot: nat, o: nat, mark: nat, n: nat)
    requires if n < 4 then LockingAt(th, th0, slot, o, n) else TestingAt(th, th0, slot, o, mark)
    ensures th.pc != Running && th.held == th0.held
  {
  }

  // ---------------------------------------------------------------- a free object

  /** The mark is neutral before every action of the run. */
  ghost predicate NeutralBefore(c: Config, s: State, run: seq<Action>, o: nat)
    requires o in c.header && Valid(c, s, run)
    decreases |run|
  {
    run == [] ||
    (NeutralBefore(c, s, run[..|run| - 1], o) && Read(After(c, s, run[..|run| - 1]).mem, o) == c.header[o])
  }

  lemma NeutralStep(c: Config, s: State, run: seq<Action>, o: nat)
    requires o in c.header && Valid(c, s, run) && run != [] && NeutralBefore(c, s, run, o)
    ensures Valid(c, s, run[..|run| - 1]) && NeutralBefore(c, s, run[..|run| - 1], o)
    ensures Read(After(c, s, run[..|run| - 1]).mem, o) == c.header[o]
  {
    hide Enabled, Next;
  }

  lemma LoadsHeader(c: Config, s: State, t: Tid, th0: Thread, slot: nat, o: nat, n: nat)
    requires WellFormed(c) && t in s.threads && o in c.header && Read(s.mem, o) == c.header[o] && n < 3
    requires LockingAt(s.threads[t], th0, slot, o, n) && (n == 2 ==> s.threads[t].hdr == c.header[o])
    ensures n >= 1 ==> Stepped(c, s, t).threads[t].hdr == c.header[o]
  {
    hide Guarded;
    assert c.header[o] % 8 == 1;
  }

  /** The compare-and-swap takes a mark that is still the loaded header. */
  lemma CasTakes(c: Config, s: State, t: Tid, th0: Thread, slot: nat, o: nat)
    requires WellFormed(c) && Guarded(c) && Reachable(c, s) && t in s.threads
    requires LockingAt(s.threads[t], th0, slot, o, 3) && o in c.header
    requires s.threads[t].hdr == c.header[o] == Read(s.mem, o)
    ensures var s' := Stepped(c, s, t);
            Granted(s'.threads[t], th0, slot, o) && Read(s'.mem, o) == slot && Read(s'.mem, slot) == c.header[o]
  {
    hide WellFormed, Guarded, Reachable;
    ReachableThread(c, s, t);
    MarkNotInStack(c, t, o, slot);
  }

  lemma MarkNotInStack(c: Config, t: Tid, o: nat, slot: nat)
    requires WellFormed(c) && o in c.header && t in c.lo && t in c.hi && SlotOk(c, t, slot)
    ensures o != slot
  {
  }

  /** Locking an object whose mark is neutral until the compare-and-swap ends after four steps with the
      record added; its last step leaves the record's address in the mark and the header in the record. */
  lemma {:induction false} FreeLockCompletes(c: Config, s: State, t: Tid, slot: nat, o: nat, run: seq<Action>)
    requires WellFormed(c) && Guarded(c) && Reachable(c, s) && t in s.threads && o in c.header
    requires Valid(c, s, run) && run != [] && run[0] == BeginLock(t, slot, o) && Mine(t, run) <= 5
    requires NeutralBefore(c, s, run, o)
    ensures Mine(t, run) >= 1 && t in After(c, s, run).threads
    ensures var s', th0, n := After(c, s, run), s.threads[t], Mine(t, run) - 1;
            && (n < 4 ==> LockingAt(s'.threads[t], th0, slot, o, n))
            && (2 <= n < 4 ==> s'.threads[t].hdr == c.header[o])
            && (n == 4 ==> Granted(s'.threads[t], th0, slot, o))
            && (n == 4 && run[|run| - 1].t == t ==> Read(s'.mem, o) == slot && Read(s'.mem, slot) == c.header[o])
  {
    hide WellFormed, Guarded, Reachable, Valid, After, Enabled, Next, Stepped, Mine, LockingAt, Granted, NeutralBefore;
    var before, a, th0 := run[..|run| - 1], run[|run| - 1], s.threads[t];
    RunStep(c, s, t, run);
    NeutralStep(c, s, run, o);
    if |run| == 1 {
      LockBegins(c, s, t, slot, o);
    } else {
      FreeLockCompletes(c, s, t, slot, o, before);
      var mid := After(c, s, before);
      ReachAfter(c, s, before);
      if a.t != t {
        OthersLeave(c, mid, a, t);
      } else {
        StillLocking(mid.threads[t], th0, slot, o, Mine(t, before) - 1);
        OnlyExec(c, mid, a, t);
        if Mine(t, before) < 4 {
          LockStep(c, mid, t, th0, slot, o, Mine(t, before) - 1);
          LoadsHeader(c, mid, t, th0, slot, o, Mine(t, before) - 1);
        } else {
          CasTakes(c, mid, t, th0, slot, o);
        }
      }
    }
  }

  // ---------------------------------------------------------------- an object another thread holds

  ghost predicate HoldsSome(s: State, u: Tid, o: nat) {
    exists i :: Holds(s, u, i, o)
  }

  /** Thread `u` holds the object before every action of the run. */
  ghost predicate HeldBefore(c: Config, s: State, run: seq<Action>, u: Tid, o: nat)
    requires Valid(c, s, run)
    decreases |run|
  {
    run == [] ||
    (HeldBefore(c, s, run[..|run| - 1], u, o) && HoldsSome(After(c, s, run[..|run| - 1]), u, o))
  }

  lemma HeldStep(c: Config, s: State, run: seq<Action>, u: Tid, o: nat) returns (i: int)
    requires Valid(c, s, run) && run != [] && HeldBefore(c, s, run, u, o)
    ensures Valid(c, s, run[..|run| - 1]) && HeldBefore(c, s, run[..|run| - 1], u, o)
    ensures Holds(After(c, s, run[..|run| - 1]), u, i, o)
  {
    hide Enabled, Next, Holds;
    i :| Holds(After(c, s, run[..|run| - 1]), u, i, o);
  }

  /** The mark another thread's record left is even and outside the window above `sp`. */
  lemma ForeignMark(c: Config, s: State, t: Tid, u: Tid, i: int, th0: Thread, slot: nat, o: nat)
    requires WellFormed(c) && Guarded(c) && Reachable(c, s) && t in s.threads && t != u && Holds(s, u, i, o)
    requires LockingAt(s.threads[t], th0, slot, o, 3)
    ensures Read(s.mem, o) % 2 == 0 && !InWindow(Read(s.mem, o), th0.sp, c.page)
  {
    hide WellFormed, Guarded, Reachable, ThreadOk, Owns, InWindow, SlotOk;
    ReachableThread(c, s, t);
    ReachableThread(c, s, u);
    var k := HeldMarkInStack(c, s.mem, u, s.threads[u], i);
    SlotEven(c, u, Read(s.mem, o));
    RecordOutside(c, s.mem, t, s.threads[t], u, Read(s.mem, o));
  }

  lemma SlotEven(c: Config, u: Tid, slot: nat)
    requires u in c.lo && u in c.hi && SlotOk(c, u, slot)
    ensures slot % 2 == 0
  {
    ModUnique(slot, 2, 4 * (slot / 8), 0);
  }

  lemma RecordOutside(c: Config, mem: map<nat, nat>, t: Tid, th: Thread, u: Tid, slot: nat)
    requires WellFormed(c) && Guarded(c) && u in c.lo && u in c.hi && t != u
    requires ThreadOk(c, mem, t, th) && Locking(th.pc) && SlotOk(c, u, slot)
    ensures !InWindow(slot, th.sp, c.page)
  {
    hide Guarded, RecordsOk, Progress;
    ForeignRecordOutside(c, t, th, u, slot);
  }

  /** Locking an object another thread holds all the while ends in the slow path after five steps. */
  lemma {:induction false} HeldLockRefused(c: Config, s: State, t: Tid, u: Tid, slot: nat, o: nat, run: seq<Action>)
    requires WellFormed(c) && Guarded(c) && Reachable(c, s) && t in s.threads && t != u
    requires Valid(c, s, run) && run != [] && run[0] == BeginLock(t, slot, o) && Mine(t, run) <= 6
    requires HeldBefore(c, s, run, u, o)
    ensures Mine(t, run) >= 1 && t in After(c, s, run).threads
    ensures var th, th0, n := After(c, s, run).threads[t], s.threads[t], Mine(t, run) - 1;
            && (n < 4 ==> LockingAt(th, th0, slot, o, n))
            && (n == 4 ==> TestingAt(th, th0, slot, o, th.hdr) && !InWindow(th.hdr, th0.sp, c.page))
            && (n == 5 ==> Refused(th, th0))
  {
    hide WellFormed, Guarded, Reachable, Valid, After, Enabled, Next, Stepped, Mine, LockingAt, Granted, Refused,
         HeldBefore, InWindow, Holds;
    if Mine(t, run) <= 4 {
      LockRun(c, s, t, slot, o, run);
    } else {
      var before, a, th0 := run[..|run| - 1], run[|run| - 1], s.threads[t];
      RunStep(c, s, t, run);
      var i := HeldStep(c, s, run, u, o);
      HeldLockRefused(c, s, t, u, slot, o, before);
      var mid := After(c, s, before);
      ReachAfter(c, s, before);
      if a.t != t {
        OthersLeave(c, mid, a, t);
      } else {
        LockContext(mid.threads[t], th0, slot, o, mid.threads[t].hdr, Mine(t, before) - 1);
        OnlyExec(c, mid, a, t);
        if Mine(t, before) == 4 {
          ForeignMark(c, mid, t, u, i, th0, slot, o);
          CasFails(c, mid, t, th0, slot, o);
        } else {
          TestGrants(c, mid, t, th0, slot, o, mid.threads[t].hdr);
        }
      }
    }
  }
}
