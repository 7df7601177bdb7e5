/** What the stack-locking protocol guarantees over every run, and exactly when. */
module StackLockTheorems {
  import opened Bits
  import opened RecursionMask
  import opened StackLock
  import opened StackLockProof

  /** `s` occurs in some run of some start state. */
  ghost predicate Reachable(c: Config, s: State) {
    exists s0, run :: Init(c, s0) && Valid(c, s0, run) && After(c, s0, run) == s
  }

  lemma ReachableInv(c: Config, s: State)
    requires WellFormed(c) && Guarded(c) && Reachable(c, s)
    ensures Inv(c, s)
  {
    var s0, run :| Init(c, s0) && Valid(c, s0, run) && After(c, s0, run) == s;
    RunInv(c, s0, run);
  }

  // ---------------------------------------------------------------- what a holder's records say

  /** The mark of a held object points into the holder's stack. */
  lemma HeldMarkInStack(c: Config, mem: map<nat, nat>, t: Tid, th: Thread, i: int) returns (k: int)
    requires ThreadOk(c, mem, t, th) && 0 <= i < |th.held|
    ensures t in c.lo && t in c.hi && k <= i && Owns(mem, th.held, k, th.held[i].obj)
    ensures SlotOk(c, t, Read(mem, th.held[i].obj))
  {
    k := HolderOwns(c, mem, th.held, i);
    assert SlotOk(c, t, th.held[k].slot);
  }

  lemma OwnerUnique(c: Config, mem: map<nat, nat>, t: Tid, th: Thread, j: int, k: int, o: nat)
    requires ThreadOk(c, mem, t, th) && Owns(mem, th.held, j, o) && Owns(mem, th.held, k, o)
    ensures j == k
  {
  }

  /** The record a mark points to carries the header. */
  lemma OwnerCarriesHeader(c: Config, mem: map<nat, nat>, t: Tid, th: Thread, k: int, o: nat)
    requires ThreadOk(c, mem, t, th) && Owns(mem, th.held, k, o)
    ensures o in c.header && Read(mem, th.held[k].slot) == c.header[o]
  {
    assert EntryOk(c, mem, th.held, k);
    forall j | Owns(mem, th.held, j, o) ensures j == k {
      OwnerUnique(c, mem, t, th, j, k, o);
    }
  }

  // ---------------------------------------------------------------- safety of every run

  /** No two threads are ever both inside the critical section of one object. */
  lemma MutualExclusionHolds(c: Config, s: State)
    requires WellFormed(c) && Guarded(c) && Reachable(c, s)
    ensures MutualExclusion(s)
  {
    assert ThreadsOk(c, s) by { ReachableInv(c, s); }
    forall t, u, i, j, o | Holds(s, t, i, o) && Holds(s, u, j, o) ensures t == u {
      SameHolder(c, s, t, i, u, j, o);
    }
  }

  lemma SameHolder(c: Config, s: State, t: Tid, i: int, u: Tid, j: int, o: nat)
    requires Layout(c) && ThreadsOk(c, s) && Holds(s, t, i, o) && Holds(s, u, j, o)
    ensures t == u
  {
    var k := HeldMarkInStack(c, s.mem, t, s.threads[t], i);
    var l := HeldMarkInStack(c, s.mem, u, s.threads[u], j);
  }

  /** An object's header survives every interleaving, and is back in the mark when nobody
      holds the object. */
  lemma HeaderConserved(c: Config, s: State, o: nat)
    requires WellFormed(c) && Guarded(c) && Reachable(c, s) && o in c.header
    ensures LogicalHeader(s, o) == c.header[o]
    ensures (forall t, i :: !Holds(s, t, i, o)) ==> Read(s.mem, o) == c.header[o]
  {
    ReachableInv(c, s);
    assert MarkOk(c, s, o);
    if Read(s.mem, o) != c.header[o] {
      var t, k :| t in s.threads && Owns(s.mem, s.threads[t].held, k, o);
      assert Holds(s, t, k, o);
      OwnedMarkAligned(c, s, o);
      OwnerCarriesHeader(c, s.mem, t, s.threads[t], k, o);
    }
  }

  /** The owner's unlock compare-and-swap always finds the mark it expects. */
  lemma UnlockNeverFails(c: Config, s: State, t: Tid)
    requires WellFormed(c) && Guarded(c) && Reachable(c, s) && AtPc(s, t, CasUnlock)
    ensures Read(s.mem, s.threads[t].obj) == s.threads[t].slot
    ensures Stepped(c, s, t).threads[t].pc == Running
  {
    assert ThreadOk(c, s.mem, t, s.threads[t]) by { ReachableInv(c, s); }
    assert Read(s.mem, s.threads[t].obj) == s.threads[t].slot by { UnlockCasSucceeds(c, s.mem, t, s.threads[t]); }
  }

  /** The mask test passes only for the thread that already holds the object. */
  lemma OnlyOwnerRecurses(c: Config, s: State, t: Tid)
    requires WellFormed(c) && Guarded(c) && Reachable(c, s) && AtPc(s, t, SaveTest)
    requires Masked(s.threads[t].hdr, s.threads[t].sp, c.page) == 0
    ensures exists i :: Holds(s, t, i, s.threads[t].obj)
  {
    var th := s.threads[t];
    assert ThreadOk(c, s.mem, t, th) by { ReachableInv(c, s); }
    var i := RecursiveOwner(c, s.mem, t, th);
    assert Holds(s, t, i, th.obj);
  }

  lemma RecursiveOwner(c: Config, mem: map<nat, nat>, t: Tid, th: Thread) returns (i: int)
    requires WellFormed(c) && ThreadOk(c, mem, t, th) && th.pc == SaveTest
    requires Masked(th.hdr, th.sp, c.page) == 0
    ensures Owns(mem, th.held, i, th.obj)
  {
    TestDecides(c, mem, t, th);
    i :| Owns(mem, th.held, i, th.obj);
  }

  /** A held record is empty exactly when an earlier record of the thread has the same object. */
  lemma EmptyMeansRecursive(c: Config, s: State, t: Tid, i: int)
    requires WellFormed(c) && Guarded(c) && Reachable(c, s) && t in s.threads
    requires 0 <= i < |s.threads[t].held|
    ensures var held := s.threads[t].held;
            Read(s.mem, held[i].slot) == 0 <==> exists j :: 0 <= j < i && held[j].obj == held[i].obj
  {
    assert ThreadOk(c, s.mem, t, s.threads[t]) by { ReachableInv(c, s); }
    EmptyRecord(c, s.mem, t, s.threads[t], i);
  }

  lemma EmptyRecord(c: Config, mem: map<nat, nat>, t: Tid, th: Thread, i: int)
    requires Layout(c) && ThreadOk(c, mem, t, th) && 0 <= i < |th.held|
    ensures Read(mem, th.held[i].slot) == 0 <==>
            exists j :: 0 <= j < i && th.held[j].obj == th.held[i].obj
  {
    assert EntryOk(c, mem, th.held, i);
    if Read(mem, th.held[i].slot) != 0 {
      forall j | 0 <= j < i ensures th.held[j].obj != th.held[i].obj {
        OwnerAboveNone(c, mem, t, th, i, j);
      }
    }
  }

  lemma OwnerAboveNone(c: Config, mem: map<nat, nat>, t: Tid, th: Thread, i: int, j: int)
    requires ThreadOk(c, mem, t, th) && 0 <= j < i < |th.held| && Owns(mem, th.held, i, th.held[i].obj)
    ensures th.held[j].obj != th.held[i].obj
  {
    var k := HolderOwns(c, mem, th.held, j);
    if th.held[j].obj == th.held[i].obj {
      OwnerUnique(c, mem, t, th, k, i, th.held[i].obj);
      assert false;
    }
  }

  // ---------------------------------------------------------------- without the guard gap

  lemma ReachStep(c: Config, s: State, a: Action)
    requires Reachable(c, s) && Enabled(c, s, a)
    ensures Reachable(c, Next(c, s, a))
  {
    var s0, run :| Init(c, s0) && Valid(c, s0, run) && After(c, s0, run) == s;
    var run' := run + [a];
    assert run'[..|run' | - 1] == run;
    assert Valid(c, s0, run') && After(c, s0, run') == Next(c, s, a);
  }

  /** A thread with no locks makes room for a record and calls lock_object. */
  lemma ReachBegin(c: Config, s: State, t: Tid, slot: nat, o: nat)
    requires Reachable(c, s) && t in s.threads && t in c.lo && t in c.hi && o in c.header && SlotOk(c, t, slot)
    requires s.threads[t].pc == Running && s.threads[t].held == []
    ensures var th := Thread(StoreObj, slot, slot, o, s.threads[t].hdr, []);
            Reachable(c, State(s.mem, s.threads[t := th]))
  {
    hide Reachable;
    var th := s.threads[t].(sp := slot);
    var s1 := State(s.mem, s.threads[t := th]);
    assert Reachable(c, s1) by { ReachStep(c, s, MoveSp(t, slot)); }
    var th' := th.(pc := StoreObj, slot := slot, obj := o);
    assert Reachable(c, State(s.mem, s1.threads[t := th'])) by { ReachStep(c, s1, BeginLock(t, slot, o)); }
    assert s1.threads[t := th'] == s.threads[t := th'];
  }

  /** One memory access of a thread part way through lock_object. */
  lemma ReachAccess(c: Config, mem: map<nat, nat>, threads: map<Tid, Thread>, t: Tid, th: Thread,
                    mem': map<nat, nat>, th': Thread)
    requires t in c.lo && t in c.hi && Locking(th.pc) && t in threads
    requires Reachable(c, State(mem, threads[t := th])) && Access(c, mem, th) == (mem', th')
    ensures Reachable(c, State(mem', threads[t := th']))
  {
    hide Reachable;
    ReachStep(c, State(mem, threads[t := th]), Exec(t));
    assert threads[t := th][t := th'] == threads[t := th'];
  }

  /** Memory when lock_object reaches its compare-and-swap. */
  function BeforeCas(mem: map<nat, nat>, slot: nat, o: nat): map<nat, nat> {
    mem[ObjField(slot) := o][slot := Unlocked(Read(mem, o))]
  }

  lemma ReachCas(c: Config, s: State, t: Tid, slot: nat, o: nat)
    requires Reachable(c, s) && t in s.threads && t in c.lo && t in c.hi && o in c.header && SlotOk(c, t, slot)
    requires o < c.lo[t] || c.hi[t] <= o
    requires s.threads[t].pc == Running && s.threads[t].held == []
    ensures var th := Thread(CasLock, slot, slot, o, Unlocked(Read(s.mem, o)), []);
            Reachable(c, State(BeforeCas(s.mem, slot, o), s.threads[t := th]))
  {
    hide Reachable;
    var th := Thread(StoreObj, slot, slot, o, s.threads[t].hdr, []);
    var mem1, h := s.mem[ObjField(slot) := o], Unlocked(Read(s.mem, o));
    var th1, th2, th3 := th.(pc := LoadMark), th.(pc := SaveHeader, hdr := h), th.(pc := CasLock, hdr := h);
    assert Reachable(c, State(mem1, s.threads[t := th1])) by {
      ReachBegin(c, s, t, slot, o);
      ReachAccess(c, s.mem, s.threads, t, th, mem1, th1);
    }
    assert Read(mem1, o) == Read(s.mem, o);
    assert Reachable(c, State(mem1, s.threads[t := th2])) by { ReachAccess(c, mem1, s.threads, t, th1, mem1, th2); }
    assert Reachable(c, State(mem1[slot := h], s.threads[t := th3])) by {
      ReachAccess(c, mem1, s.threads, t, th2, mem1[slot := h], th3);
    }
  }

  /** lock_object on a free object: the compare-and-swap puts the record's address in the mark. */
  lemma ReachLocked(c: Config, s: State, t: Tid, slot: nat, o: nat)
    requires Reachable(c, s) && t in s.threads && t in c.lo && t in c.hi && o in c.header && SlotOk(c, t, slot)
    requires o < c.lo[t] || c.hi[t] <= o
    requires s.threads[t].pc == Running && s.threads[t].held == [] && Read(s.mem, o) % 2 == 1
    ensures var th := Thread(Running, slot, slot, o, Read(s.mem, o), [Entry(slot, o)]);
            Reachable(c, State(BeforeCas(s.mem, slot, o)[o := slot], s.threads[t := th]))
  {
    hide Reachable;
    var mem, th := BeforeCas(s.mem, slot, o), Thread(CasLock, slot, slot, o, Read(s.mem, o), []);
    ReachCas(c, s, t, slot, o);
    assert Read(mem, o) == Read(s.mem, o);
    assert th.held + [Entry(slot, o)] == [Entry(slot, o)];
    ReachAccess(c, mem, s.threads, t, th, mem[o := slot], th.(pc := Running, held := [Entry(slot, o)]));
  }

  /** The compare-and-swap of lock_object fails on a mark that is a record's address. */
  lemma ReachTest(c: Config, s: State, t: Tid, slot: nat, o: nat)
    requires Reachable(c, s) && t in s.threads && t in c.lo && t in c.hi && o in c.header && SlotOk(c, t, slot)
    requires o < c.lo[t] || c.hi[t] <= o
    requires s.threads[t].pc == Running && s.threads[t].held == [] && Read(s.mem, o) % 2 == 0
    ensures var th := Thread(SaveTest, slot, slot, o, Read(s.mem, o), []);
            Reachable(c, State(BeforeCas(s.mem, slot, o), s.threads[t := th]))
  {
    hide Reachable;
    var m, mem := Read(s.mem, o), BeforeCas(s.mem, slot, o);
    var th := Thread(CasLock, slot, slot, o, m + 1, []);
    ReachCas(c, s, t, slot, o);
    assert Read(mem, o) == m;
    ReachAccess(c, mem, s.threads, t, th, mem, th.(pc := SaveTest, hdr := m));
  }

  /** A mark in the window above `sp` is taken for a recursive lock. */
  lemma ReachFooled(c: Config, mem: map<nat, nat>, threads: map<Tid, Thread>, t: Tid, slot: nat, o: nat, m: nat)
    requires t in threads && t in c.lo && t in c.hi && Masked(m, slot, c.page) == 0
    requires Reachable(c, State(mem, threads[t := Thread(SaveTest, slot, slot, o, m, [])]))
    ensures Reachable(c, State(mem[slot := 0], threads[t := Thread(Running, slot, slot, o, m, [Entry(slot, o)])]))
  {
    hide Reachable;
    var th := Thread(SaveTest, slot, slot, o, m, []);
    assert [] + [Entry(slot, o)] == [Entry(slot, o)];
    ReachAccess(c, mem, threads, t, th, mem[slot := 0], th.(pc := Running, held := [Entry(slot, o)]));
  }

  ghost function Start(c: Config): (s: State)
    requires c.lo.Keys == c.hi.Keys
    ensures Init(c, s) && Reachable(c, s)
    ensures forall o | o in c.header :: Read(s.mem, o) == c.header[o]
  {
    var s := State(c.header, map t | t in c.lo :: Thread(Running, c.hi[t], 0, 0, 0, []));
    assert Valid(c, s, []) && After(c, s, []) == s;
    s
  }

  ghost predicate Idle(c: Config, s: State, t: Tid, o: nat) {
    && t in s.threads && t in c.lo && t in c.hi && (o < c.lo[t] || c.hi[t] <= o)
    && s.threads[t].pc == Running && s.threads[t].held == []
  }

  /** A record within the window of another thread lets both threads in. */
  lemma BothEnter(c: Config, s: State, u: Tid, a: nat, t: Tid, b: nat, o: nat)
    requires Reachable(c, s) && t != u && Idle(c, s, u, o) && Idle(c, s, t, o)
    requires o in c.header && Read(s.mem, o) % 2 == 1
    requires SlotOk(c, u, a) && SlotOk(c, t, b)
    requires a % 2 == 0 && Masked(a, b, c.page) == 0
    ensures exists s' :: Reachable(c, s') && !MutualExclusion(s')
  {
    hide Reachable;
    var s1 := State(BeforeCas(s.mem, a, o)[o := a],
                    s.threads[u := Thread(Running, a, a, o, Read(s.mem, o), [Entry(a, o)])]);
    assert Reachable(c, s1) by { ReachLocked(c, s, u, a, o); }
    assert Read(s1.mem, o) == a;
    var s2 := State(BeforeCas(s1.mem, b, o)[b := 0],
                    s1.threads[t := Thread(Running, b, b, o, a, [Entry(b, o)])]);
    assert Reachable(c, s2) by {
      ReachTest(c, s1, t, b, o);
      ReachFooled(c, BeforeCas(s1.mem, b, o), s1.threads, t, b, o, a);
    }
    assert Holds(s2, u, 0, o) && Holds(s2, t, 0, o);
  }

  /** Two stacks too close together: the second locker mistakes the first one's record for
      its own. */
  lemma TooClose(c: Config, t: Tid, u: Tid, o: nat)
    requires WellFormed(c) && t in c.lo && u in c.lo && t != u && o in c.header
    requires c.hi[t] <= c.lo[u] && c.hi[t] + c.page > c.lo[u] + 16
    ensures exists s :: Reachable(c, s) && !MutualExclusion(s)
  {
    var s, a, b := Start(c), c.lo[u], c.hi[t] - 16;
    assert Idle(c, s, u, o) && Idle(c, s, t, o) && Read(s.mem, o) % 2 == 1 by {
      StartIdle(c, u, o);
      StartIdle(c, t, o);
    }
    CloseRecords(c, t, u);
    assert a % 2 == 0 && Masked(a, b, c.page) == 0 by { CloseMask(a, b, c.page); }
    BothEnter(c, s, u, a, t, b, o);
  }

  lemma CloseRecords(c: Config, t: Tid, u: Tid)
    requires Layout(c) && t in c.lo && u in c.lo
    requires c.hi[t] <= c.lo[u] && c.hi[t] + c.page > c.lo[u] + 16
    ensures c.hi[t] >= 16 && c.hi[t] - 16 + c.page <= WORD
    ensures SlotOk(c, u, c.lo[u]) && SlotOk(c, t, c.hi[t] - 16)
  {
  }

  lemma CloseMask(a: nat, b: nat, page: nat)
    requires PageSize(page) && a % 8 == 0 && b % 8 == 0 && b <= a < b + page && b + page <= WORD
    ensures a % 2 == 0 && Masked(a, b, page) == 0
  {
    MaskTestExact(a, b, page);
  }

  lemma StartIdle(c: Config, t: Tid, o: nat)
    requires Layout(c) && t in c.lo && o in c.header
    ensures Idle(c, Start(c), t, o) && Read(Start(c).mem, o) % 2 == 1
  {
    OddHeader(c.header[o]);
  }

  lemma OddHeader(h: nat)
    requires h % 8 == 1
    ensures h % 2 == 1
  {
  }

  /** Mutual exclusion over all runs holds exactly when the stacks keep their distance. */
  lemma MutualExclusionExact(c: Config)
    requires WellFormed(c) && c.header.Keys != {}
    ensures (forall s | Reachable(c, s) :: MutualExclusion(s)) <==> Guarded(c)
  {
    if Guarded(c) {
      forall s | Reachable(c, s) ensures MutualExclusion(s) {
        MutualExclusionHolds(c, s);
      }
    } else {
      var t, u :| t in c.lo && u in c.lo && t != u && c.hi[t] <= c.lo[u] && c.hi[t] + c.page > c.lo[u] + 16;
      var o :| o in c.header.Keys;
      TooClose(c, t, u, o);
    }
  }
}
