/** Safety of the stack-locking protocol over whole runs. */
module StackLockProof {
  import opened Bits
  import opened RecursionMask
  import opened StackLock

  // ---------------------------------------------------------------- the invariant

  predicate Locking(pc: Pc) {
    pc.StoreObj? || pc.LoadMark? || pc.SaveHeader? || pc.CasLock? || pc.SaveTest?
  }

  predicate Unlocking(pc: Pc) {
    pc.LoadDisplaced? || pc.LoadObj? || pc.CasUnlock?
  }

  /** Where a thread's registers and lock records lie. */
  ghost predicate Shape(c: Config, t: Tid, th: Thread)
    requires t in c.lo && t in c.hi
  {
    && th.sp % 8 == 0 && c.lo[t] <= th.sp <= c.hi[t]
    && (forall i | 0 <= i < |th.held| ::
          SlotOk(c, t, th.held[i].slot) && th.sp <= th.held[i].slot && th.held[i].obj in c.header)
    && (forall i, j | 0 <= i < j < |th.held| :: Apart(th.held[i].slot, th.held[j].slot))
    && (Locking(th.pc) ==>
          && SlotOk(c, t, th.slot) && th.sp <= th.slot && th.obj in c.header
          && (forall i | 0 <= i < |th.held| :: Apart(th.held[i].slot, th.slot)))
    && (Unlocking(th.pc) ==> th.held != [] && th.slot == th.held[|th.held| - 1].slot)
  }

  /** Record `i` is the one the mark of its object points to. */
  ghost predicate Owns(mem: map<nat, nat>, held: seq<Entry>, i: int, o: nat) {
    0 <= i < |held| && held[i].obj == o && held[i].slot == Read(mem, o)
  }

  /** A held record is the owning one and carries the header, or is empty and above it. */
  ghost predicate EntryOk(c: Config, mem: map<nat, nat>, held: seq<Entry>, i: int)
    requires 0 <= i < |held|
  {
    var e := held[i];
    && Read(mem, ObjField(e.slot)) == e.obj
    && e.obj in c.header
    && (|| (Read(mem, e.slot) == c.header[e.obj] && Owns(mem, held, i, e.obj))
        || (Read(mem, e.slot) == 0 && exists j :: j < i && Owns(mem, held, j, e.obj)))
  }

  ghost predicate RecordsOk(c: Config, mem: map<nat, nat>, held: seq<Entry>) {
    forall i {:trigger EntryOk(c, mem, held, i)} | 0 <= i < |held| :: EntryOk(c, mem, held, i)
  }

  /** What a thread knows part way through lock_object or unlock_object. */
  ghost predicate Progress(c: Config, mem: map<nat, nat>, th: Thread) {
    match th.pc
    case LoadMark => Read(mem, ObjField(th.slot)) == th.obj
    case SaveHeader => Read(mem, ObjField(th.slot)) == th.obj && th.hdr % 2 == 1
    case CasLock => Read(mem, ObjField(th.slot)) == th.obj && th.hdr % 2 == 1 && Read(mem, th.slot) == th.hdr
    case SaveTest =>
      && Read(mem, ObjField(th.slot)) == th.obj && th.hdr < WORD
      && (InWindow(th.hdr, th.sp, c.page) ==> exists j :: Owns(mem, th.held, j, th.obj))
    case LoadObj => th.hdr == Read(mem, th.slot) != 0
    case CasUnlock =>
      th.hdr == Read(mem, th.slot) != 0 && th.held != [] && th.obj == th.held[|th.held| - 1].obj
    case _ => true
  }

  ghost predicate ThreadOk(c: Config, mem: map<nat, nat>, t: Tid, th: Thread) {
    && t in c.lo && t in c.hi
    && Shape(c, t, th) && RecordsOk(c, mem, th.held) && Progress(c, mem, th)
  }

  ghost predicate MarkOk(c: Config, s: State, o: nat)
    requires o in c.header
  {
    || Read(s.mem, o) == c.header[o]
    || exists t, i :: t in s.threads && Owns(s.mem, s.threads[t].held, i, o)
  }

  ghost predicate Inv(c: Config, s: State) {
    && s.threads.Keys == c.lo.Keys == c.hi.Keys
    && ThreadsOk(c, s)
    && MarksOk(c, s)
  }

  ghost predicate ThreadsOk(c: Config, s: State) {
    forall t | t in s.threads :: ThreadOk(c, s.mem, t, s.threads[t])
  }

  ghost predicate MarksOk(c: Config, s: State) {
    forall o {:trigger MarkOk(c, s, o)} | o in c.header :: MarkOk(c, s, o)
  }

  lemma InitInv(c: Config, s: State)
    requires WellFormed(c) && Init(c, s)
    ensures Inv(c, s)
  {
  }

  // ---------------------------------------------------------------- framing

  /** Two memories that agree where a thread's records and their marks lie. */
  ghost predicate AgreeOn(mem: map<nat, nat>, mem': map<nat, nat>, held: seq<Entry>) {
    forall i | 0 <= i < |held| ::
      && Read(mem', held[i].slot) == Read(mem, held[i].slot)
      && Read(mem', ObjField(held[i].slot)) == Read(mem, ObjField(held[i].slot))
      && Read(mem', held[i].obj) == Read(mem, held[i].obj)
  }

  lemma FrameRecords(c: Config, mem: map<nat, nat>, mem': map<nat, nat>, held: seq<Entry>)
    requires RecordsOk(c, mem, held) && AgreeOn(mem, mem', held)
    ensures RecordsOk(c, mem', held)
  {
    forall i | 0 <= i < |held| ensures EntryOk(c, mem', held, i) {
      assert EntryOk(c, mem, held, i);
      var e := held[i];
      if Read(mem, e.slot) == 0 && exists j :: j < i && Owns(mem, held, j, e.obj) {
        var j :| j < i && Owns(mem, held, j, e.obj);
        assert Owns(mem', held, j, e.obj);
      } else {
        assert Owns(mem', held, i, e.obj);
      }
    }
  }

  /** A store into one thread's stack is invisible to every other thread. */
  lemma FrameOther(c: Config, mem: map<nat, nat>, t: Tid, a: nat, v: nat, u: Tid, th: Thread)
    requires Layout(c) && t in c.lo && u in c.lo && u != t
    requires c.lo[t] <= a < c.hi[t]
    requires ThreadOk(c, mem, u, th)
    ensures ThreadOk(c, mem[a := v], u, th)
  {
    Elsewhere(c, t, a, u);
    FrameRecords(c, mem, mem[a := v], th.held);
    FrameProgress(c, mem, a, v, u, th);
  }

  /** An address in one stack is no mark and lies in no other stack. */
  lemma Elsewhere(c: Config, t: Tid, a: nat, u: Tid)
    requires Layout(c) && t in c.lo && u in c.lo && u != t && c.lo[t] <= a < c.hi[t]
    ensures a !in c.header && (a < c.lo[u] || c.hi[u] <= a)
  {
  }

  lemma FrameProgress(c: Config, mem: map<nat, nat>, a: nat, v: nat, u: Tid, th: Thread)
    requires u in c.lo && u in c.hi && Shape(c, u, th) && Progress(c, mem, th)
    requires a !in c.header && (a < c.lo[u] || c.hi[u] <= a)
    ensures Progress(c, mem[a := v], th)
  {
    if th.pc == SaveTest && InWindow(th.hdr, th.sp, c.page) {
      var j :| Owns(mem, th.held, j, th.obj);
      assert Owns(mem[a := v], th.held, j, th.obj);
    }
  }

  /** Marks untouched, no record dropped: every mark stays accounted for. */
  lemma FrameMarks(c: Config, s: State, s': State, t: Tid)
    requires s.threads.Keys == c.lo.Keys && t in s.threads && t in s'.threads
    requires MarksOk(c, s)
    requires s'.threads == s.threads[t := s'.threads[t]]
    requires s.threads[t].held <= s'.threads[t].held
    requires forall o | o in c.header :: Read(s'.mem, o) == Read(s.mem, o)
    ensures MarksOk(c, s')
  {
    forall o | o in c.header ensures MarkOk(c, s', o) {
      assert MarkOk(c, s, o);
      if Read(s.mem, o) != c.header[o] {
        var u, i :| u in s.threads && Owns(s.mem, s.threads[u].held, i, o);
        assert Owns(s'.mem, s'.threads[u].held, i, o);
      }
    }
  }

  lemma OthersKept(c: Config, s: State, t: Tid, a: nat, v: nat, th': Thread)
    requires Layout(c) && t in s.threads && t in c.lo && c.lo[t] <= a < c.hi[t]
    requires ThreadsOk(c, s) && ThreadOk(c, s.mem[a := v], t, th')
    ensures ThreadsOk(c, State(s.mem[a := v], s.threads[t := th']))
  {
    forall u | u in s.threads && u != t ensures ThreadOk(c, s.mem[a := v], u, s.threads[u]) {
      FrameOther(c, s.mem, t, a, v, u, s.threads[u]);
    }
  }

  /** A step that writes at most the thread's own lock record. */
  lemma OwnStackStep(c: Config, s: State, t: Tid, a: nat, v: nat, th': Thread)
    requires Layout(c) && Inv(c, s) && t in s.threads && t in c.lo && c.lo[t] <= a < c.hi[t]
    requires s.threads[t].held <= th'.held
    requires ThreadOk(c, s.mem[a := v], t, th')
    ensures Inv(c, State(s.mem[a := v], s.threads[t := th']))
  {
    var s' := State(s.mem[a := v], s.threads[t := th']);
    assert ThreadsOk(c, s') by { OthersKept(c, s, t, a, v, th'); }
    assert MarksOk(c, s') by { FrameMarks(c, s, s', t); }
  }

  /** A step that leaves memory alone and drops no record. */
  lemma QuietStep(c: Config, s: State, t: Tid, th': Thread)
    requires Inv(c, s) && t in s.threads
    requires s.threads[t].held <= th'.held
    requires ThreadOk(c, s.mem, t, th')
    ensures Inv(c, State(s.mem, s.threads[t := th']))
  {
    FrameMarks(c, s, State(s.mem, s.threads[t := th']), t);
  }

  // ---------------------------------------------------------------- preservation, step by step

  /** The state after thread `t` makes its next memory access. */
  ghost function Stepped(c: Config, s: State, t: Tid): State
    requires t in s.threads
  {
    var (mem', th') := Access(c, s.mem, s.threads[t]);
    State(mem', s.threads[t := th'])
  }

  ghost predicate AtPc(s: State, t: Tid, pc: Pc) {
    t in s.threads && s.threads[t].pc == pc
  }

  lemma ChoiceShape(c: Config, s: State, a: Action, th: Thread, th': Thread)
    requires Enabled(c, s, a) && !a.Exec? && th == s.threads[a.t] && th' == Next(c, s, a).threads[a.t]
    requires Shape(c, a.t, th)
    ensures Shape(c, a.t, th')
  {
  }

  lemma ChoiceThread(c: Config, s: State, a: Action, th: Thread, th': Thread)
    requires Enabled(c, s, a) && !a.Exec? && th == s.threads[a.t] && th' == Next(c, s, a).threads[a.t]
    requires ThreadOk(c, s.mem, a.t, th)
    ensures ThreadOk(c, s.mem, a.t, th') && th'.held == th.held
    ensures Next(c, s, a) == State(s.mem, s.threads[a.t := th'])
  {
    hide RecordsOk;
    ChoiceShape(c, s, a, th, th');
  }

  lemma PreservedByChoice(c: Config, s: State, a: Action)
    requires Layout(c) && Inv(c, s) && Enabled(c, s, a) && !a.Exec?
    ensures Inv(c, Next(c, s, a))
  {
    hide MarksOk, ThreadOk, Layout, Next;
    assert a.t in Next(c, s, a).threads by { ChoiceKeys(c, s, a); }
    var th' := Next(c, s, a).threads[a.t];
    ChoiceThread(c, s, a, s.threads[a.t], th');
    QuietStep(c, s, a.t, th');
  }

  lemma ChoiceKeys(c: Config, s: State, a: Action)
    requires Enabled(c, s, a) && !a.Exec?
    ensures a.t in Next(c, s, a).threads
  {
  }

  /** Writing the record being built leaves the held ones good. */
  lemma OwnRecordsKept(c: Config, mem: map<nat, nat>, t: Tid, th: Thread, a: nat, v: nat)
    requires Layout(c) && t in c.lo && Shape(c, t, th) && Locking(th.pc)
    requires RecordsOk(c, mem, th.held)
    requires a == th.slot || a == ObjField(th.slot)
    ensures RecordsOk(c, mem[a := v], th.held)
  {
    FrameRecords(c, mem, mem[a := v], th.held);
  }

  lemma StoreObjThread(c: Config, mem: map<nat, nat>, t: Tid, th: Thread)
    requires Layout(c) && ThreadOk(c, mem, t, th) && th.pc == StoreObj
    ensures t in c.lo && t in c.hi && c.lo[t] <= ObjField(th.slot) < c.hi[t]
    ensures ThreadOk(c, mem[ObjField(th.slot) := th.obj], t, th.(pc := LoadMark))
  {
    OwnRecordsKept(c, mem, t, th, ObjField(th.slot), th.obj);
  }

  lemma LoadMarkThread(c: Config, mem: map<nat, nat>, t: Tid, th: Thread)
    requires ThreadOk(c, mem, t, th) && th.pc == LoadMark
    ensures ThreadOk(c, mem, t, th.(pc := SaveHeader, hdr := Unlocked(Read(mem, th.obj))))
  {
  }

  lemma SaveHeaderThread(c: Config, mem: map<nat, nat>, t: Tid, th: Thread)
    requires Layout(c) && ThreadOk(c, mem, t, th) && th.pc == SaveHeader
    ensures ThreadOk(c, mem[th.slot := th.hdr], t, th.(pc := CasLock))
  {
    OwnRecordsKept(c, mem, t, th, th.slot, th.hdr);
  }

  lemma LoadObjThread(c: Config, mem: map<nat, nat>, t: Tid, th: Thread)
    requires ThreadOk(c, mem, t, th) && th.pc == LoadObj
    ensures ThreadOk(c, mem, t, th.(pc := CasUnlock, obj := Read(mem, ObjField(th.slot))))
  {
    assert EntryOk(c, mem, th.held, |th.held| - 1);
  }

  lemma SlotInStack(c: Config, mem: map<nat, nat>, t: Tid, th: Thread)
    requires ThreadOk(c, mem, t, th) && Locking(th.pc)
    ensures t in c.lo && t in c.hi && c.lo[t] <= th.slot && th.slot + 16 <= c.hi[t]
    ensures th.obj in c.header
  {
  }

  lemma PreservedByStoreObj(c: Config, s: State, t: Tid, th: Thread)
    requires Layout(c) && Inv(c, s) && AtPc(s, t, StoreObj) && th == s.threads[t]
    ensures Inv(c, Stepped(c, s, t))
  {
    hide MarksOk, ThreadOk, Layout;
    var th' := th.(pc := LoadMark);
    assert c.lo[t] <= ObjField(th.slot) < c.hi[t] by { SlotInStack(c, s.mem, t, th); }
    assert ThreadOk(c, s.mem[ObjField(th.slot) := th.obj], t, th') by { StoreObjThread(c, s.mem, t, th); }
    OwnStackStep(c, s, t, ObjField(th.slot), th.obj, th');
  }

  lemma PreservedByLoadMark(c: Config, s: State, t: Tid, th: Thread)
    requires Inv(c, s) && AtPc(s, t, LoadMark) && th == s.threads[t]
    ensures Inv(c, Stepped(c, s, t))
  {
    hide MarksOk, ThreadOk, Layout;
    var th' := th.(pc := SaveHeader, hdr := Unlocked(Read(s.mem, th.obj)));
    assert ThreadOk(c, s.mem, t, th') by { LoadMarkThread(c, s.mem, t, th); }
    QuietStep(c, s, t, th');
  }

  lemma PreservedBySaveHeader(c: Config, s: State, t: Tid, th: Thread)
    requires Layout(c) && Inv(c, s) && AtPc(s, t, SaveHeader) && th == s.threads[t]
    ensures Inv(c, Stepped(c, s, t))
  {
    hide MarksOk, ThreadOk, Layout;
    var th' := th.(pc := CasLock);
    assert c.lo[t] <= th.slot < c.hi[t] by { SlotInStack(c, s.mem, t, th); }
    assert ThreadOk(c, s.mem[th.slot := th.hdr], t, th') by { SaveHeaderThread(c, s.mem, t, th); }
    OwnStackStep(c, s, t, th.slot, th.hdr, th');
  }

  lemma PreservedByLoadObj(c: Config, s: State, t: Tid, th: Thread)
    requires Inv(c, s) && AtPc(s, t, LoadObj) && th == s.threads[t]
    ensures Inv(c, Stepped(c, s, t))
  {
    hide MarksOk, ThreadOk, Layout;
    var th' := th.(pc := CasUnlock, obj := Read(s.mem, ObjField(th.slot)));
    assert Stepped(c, s, t) == State(s.mem, s.threads[t := th']);
    assert ThreadOk(c, s.mem, t, th') by { LoadObjThread(c, s.mem, t, th); }
    QuietStep(c, s, t, th');
  }

  // ---------------------------------------------------------------- the compare-and-swaps

  /** Whoever holds a record for an object has its mark pointing into their own records. */
  lemma HolderOwns(c: Config, mem: map<nat, nat>, held: seq<Entry>, i: int) returns (j: int)
    requires RecordsOk(c, mem, held) && 0 <= i < |held|
    ensures j <= i && Owns(mem, held, j, held[i].obj)
  {
    assert EntryOk(c, mem, held, i);
    if Owns(mem, held, i, held[i].obj) {
      j := i;
    } else {
      j :| j < i && Owns(mem, held, j, held[i].obj);
    }
  }

  /** An object whose mark is odd is held by nobody. */
  lemma OddMarkFree(c: Config, mem: map<nat, nat>, t: Tid, th: Thread, o: nat)
    requires ThreadOk(c, mem, t, th) && Read(mem, o) % 2 == 1
    ensures forall i | 0 <= i < |th.held| :: th.held[i].obj != o
  {
    forall i | 0 <= i < |th.held| ensures th.held[i].obj != o {
      var j := HolderOwns(c, mem, th.held, i);
      assert SlotOk(c, t, th.held[j].slot);
    }
  }

  /** An object whose mark points into one stack is held by no other thread. */
  lemma ForeignMarkFree(c: Config, mem: map<nat, nat>, t: Tid, u: Tid, th: Thread, o: nat)
    requires Layout(c) && t in c.lo && u in c.lo && t != u
    requires ThreadOk(c, mem, u, th) && c.lo[t] <= Read(mem, o) && Read(mem, o) + 16 <= c.hi[t]
    ensures forall i | 0 <= i < |th.held| :: th.held[i].obj != o
  {
    forall i | 0 <= i < |th.held| ensures th.held[i].obj != o {
      var j := HolderOwns(c, mem, th.held, i);
      assert SlotOk(c, u, th.held[j].slot);
    }
  }

  /** Changing the mark of an object a thread does not hold is invisible to it. */
  lemma FrameMarkWrite(c: Config, mem: map<nat, nat>, u: Tid, th: Thread, o: nat, v: nat)
    requires Layout(c) && o in c.header && ThreadOk(c, mem, u, th)
    requires forall i | 0 <= i < |th.held| :: th.held[i].obj != o
    ensures ThreadOk(c, mem[o := v], u, th)
  {
    assert o < c.lo[u] || c.hi[u] <= o;
    assert RecordsOk(c, mem[o := v], th.held) by { FrameRecords(c, mem, mem[o := v], th.held); }
    assert Progress(c, mem[o := v], th) by { FrameProgressMark(c, mem, u, th, o, v); }
  }

  lemma FrameProgressMark(c: Config, mem: map<nat, nat>, u: Tid, th: Thread, o: nat, v: nat)
    requires u in c.lo && u in c.hi && Shape(c, u, th) && Progress(c, mem, th)
    requires o % 8 == 0 && (o < c.lo[u] || c.hi[u] <= o)
    requires forall i | 0 <= i < |th.held| :: th.held[i].obj != o
    ensures Progress(c, mem[o := v], th)
  {
    if th.pc == SaveTest && InWindow(th.hdr, th.sp, c.page) {
      var j :| Owns(mem, th.held, j, th.obj);
      assert Owns(mem[o := v], th.held, j, th.obj);
    }
  }

  /** A mark that points to a record is 8-aligned; a neutral one is not. */
  lemma OwnedMarkAligned(c: Config, s: State, o: nat)
    requires ThreadsOk(c, s)
    ensures forall u, i | u in s.threads && Owns(s.mem, s.threads[u].held, i, o) :: Read(s.mem, o) % 8 == 0
  {
  }

  /** The record pushed by a successful compare-and-swap. */
  lemma AcquireThread(c: Config, mem: map<nat, nat>, t: Tid, th: Thread)
    requires Layout(c) && ThreadOk(c, mem, t, th) && th.pc == CasLock
    requires th.obj in c.header && Read(mem, th.obj) == th.hdr == c.header[th.obj]
    requires forall i | 0 <= i < |th.held| :: th.held[i].obj != th.obj
    ensures ThreadOk(c, mem[th.obj := th.slot], t, Acquired(th))
  {
    var mem', held' := mem[th.obj := th.slot], Acquired(th).held;
    assert ThreadOk(c, mem', t, th) by { FrameMarkWrite(c, mem, t, th, th.obj, th.slot); }
    assert RecordsOk(c, mem', held') by {
      assert th.obj < c.lo[t] || c.hi[t] <= th.obj;
      assert Owns(mem', held', |th.held|, th.obj);
      PushRecord(c, mem', th.held, Entry(th.slot, th.obj));
    }
    assert Shape(c, t, Acquired(th)) by { PushShape(c, t, th); }
  }

  lemma PushShape(c: Config, t: Tid, th: Thread)
    requires t in c.lo && t in c.hi && Shape(c, t, th) && Locking(th.pc)
    ensures Shape(c, t, Acquired(th))
  {
  }

  /** Pushing a good record on good records. */
  lemma PushRecord(c: Config, mem: map<nat, nat>, held: seq<Entry>, e: Entry)
    requires RecordsOk(c, mem, held) && EntryOk(c, mem, held + [e], |held|)
    ensures RecordsOk(c, mem, held + [e])
  {
    var held' := held + [e];
    forall i | 0 <= i < |held'| ensures EntryOk(c, mem, held', i) {
      if i < |held| {
        assert EntryOk(c, mem, held, i);
        var o := held[i].obj;
        if Read(mem, held[i].slot) == 0 && exists j :: j < i && Owns(mem, held, j, o) {
          var j :| j < i && Owns(mem, held, j, o);
          assert Owns(mem, held', j, o);
        } else {
          assert Owns(mem, held', i, o);
        }
      }
    }
  }

  lemma CasValueNeutral(c: Config, s: State, t: Tid, th: Thread)
    requires ThreadsOk(c, s) && MarksOk(c, s) && AtPc(s, t, CasLock) && th == s.threads[t]
    requires Read(s.mem, th.obj) == th.hdr
    ensures th.obj in c.header && th.hdr == c.header[th.obj]
  {
    assert ThreadOk(c, s.mem, t, th);
    assert MarkOk(c, s, th.obj);
    OwnedMarkAligned(c, s, th.obj);
  }

  lemma PreservedByLockCas(c: Config, s: State, t: Tid, th: Thread)
    requires Layout(c) && Inv(c, s) && AtPc(s, t, CasLock) && th == s.threads[t]
    requires Read(s.mem, th.obj) == th.hdr
    ensures Inv(c, Stepped(c, s, t))
  {
    hide ThreadsOk, MarksOk, Layout, Acquired;
    var s' := State(s.mem[th.obj := th.slot], s.threads[t := Acquired(th)]);
    assert th.obj in c.header && th.hdr == c.header[th.obj] by { CasValueNeutral(c, s, t, th); }
    assert ThreadsOk(c, s') by { LockCasThreads(c, s, t, th); }
    assert MarksOk(c, s') by { LockCasMarks(c, s, t, th); }
  }

  lemma LockCasThreads(c: Config, s: State, t: Tid, th: Thread)
    requires Layout(c) && ThreadsOk(c, s) && AtPc(s, t, CasLock) && th == s.threads[t]
    requires th.obj in c.header && Read(s.mem, th.obj) == th.hdr == c.header[th.obj]
    ensures ThreadsOk(c, State(s.mem[th.obj := th.slot], s.threads[t := Acquired(th)]))
  {
    hide Layout, Acquired;
    assert ThreadOk(c, s.mem, t, th);
    forall u | u in s.threads
      ensures u != t ==> ThreadOk(c, s.mem[th.obj := th.slot], u, s.threads[u])
      ensures u == t ==> ThreadOk(c, s.mem[th.obj := th.slot], u, Acquired(th))
    {
      OddMarkFree(c, s.mem, u, s.threads[u], th.obj);
      if u == t {
        AcquireThread(c, s.mem, t, th);
      } else {
        FrameMarkWrite(c, s.mem, u, s.threads[u], th.obj, th.slot);
      }
    }
  }

  lemma LockCasMarks(c: Config, s: State, t: Tid, th: Thread)
    requires MarksOk(c, s) && t in s.threads && th == s.threads[t]
    ensures MarksOk(c, State(s.mem[th.obj := th.slot], s.threads[t := Acquired(th)]))
  {
    var s' := State(s.mem[th.obj := th.slot], s.threads[t := Acquired(th)]);
    forall o | o in c.header ensures MarkOk(c, s', o) {
      assert MarkOk(c, s, o);
      if o == th.obj {
        assert Owns(s'.mem, s'.threads[t].held, |th.held|, o);
      } else if Read(s.mem, o) != c.header[o] {
        var u, i :| u in s.threads && Owns(s.mem, s.threads[u].held, i, o);
        assert Owns(s'.mem, s'.threads[u].held, i, o);
      }
    }
  }

  /** With guard gaps, no other thread's lock record lies in the window above `sp`. */
  lemma ForeignRecordOutside(c: Config, t: Tid, th: Thread, u: Tid, slot: nat)
    requires Layout(c) && Guarded(c) && t in c.lo && u in c.lo && t != u
    requires Shape(c, t, th) && Locking(th.pc) && SlotOk(c, u, slot)
    ensures !InWindow(slot, th.sp, c.page)
  {
  }

  /** The value a failed compare-and-swap returns is below 2^64, and points into the window
      above `sp` only if this thread owns the object. */
  lemma FailedCasKnows(c: Config, s: State, t: Tid, th: Thread)
    requires Layout(c) && Guarded(c) && Inv(c, s) && AtPc(s, t, CasLock) && th == s.threads[t]
    ensures Read(s.mem, th.obj) < WORD
    ensures InWindow(Read(s.mem, th.obj), th.sp, c.page) ==> exists j :: Owns(s.mem, th.held, j, th.obj)
  {
    hide Guarded;
    assert ThreadOk(c, s.mem, t, th);
    assert MarkOk(c, s, th.obj);
    if Read(s.mem, th.obj) != c.header[th.obj] {
      var u, i :| u in s.threads && Owns(s.mem, s.threads[u].held, i, th.obj);
      assert ThreadOk(c, s.mem, u, s.threads[u]);
      assert SlotOk(c, u, s.threads[u].held[i].slot);
      if u != t {
        ForeignRecordOutside(c, t, th, u, s.threads[u].held[i].slot);
      }
    }
  }

  lemma FailedCasThread(c: Config, mem: map<nat, nat>, t: Tid, th: Thread)
    requires ThreadOk(c, mem, t, th) && th.pc == CasLock && Read(mem, th.obj) < WORD
    requires InWindow(Read(mem, th.obj), th.sp, c.page) ==> exists j :: Owns(mem, th.held, j, th.obj)
    ensures ThreadOk(c, mem, t, th.(pc := SaveTest, hdr := Read(mem, th.obj)))
  {
  }

  lemma PreservedByLockCasFailure(c: Config, s: State, t: Tid, th: Thread)
    requires Layout(c) && Guarded(c) && Inv(c, s) && AtPc(s, t, CasLock) && th == s.threads[t]
    requires Read(s.mem, th.obj) != th.hdr
    ensures Inv(c, Stepped(c, s, t))
  {
    hide MarksOk, ThreadOk, Layout;
    var th' := th.(pc := SaveTest, hdr := Read(s.mem, th.obj));
    assert Stepped(c, s, t) == State(s.mem, s.threads[t := th']);
    assert ThreadOk(c, s.mem, t, th') by {
      FailedCasKnows(c, s, t, th);
      FailedCasThread(c, s.mem, t, th);
    }
    QuietStep(c, s, t, th');
  }

  // ---------------------------------------------------------------- the recursive path

  /** An empty record pushed above the owning one. */
  lemma RecurseThread(c: Config, mem: map<nat, nat>, t: Tid, th: Thread)
    requires Layout(c) && ThreadOk(c, mem, t, th) && th.pc == SaveTest
    requires InWindow(th.hdr, th.sp, c.page)
    ensures ThreadOk(c, mem[th.slot := 0], t, Acquired(th))
  {
    var mem', held' := mem[th.slot := 0], Acquired(th).held;
    assert RecordsOk(c, mem', th.held) by { OwnRecordsKept(c, mem, t, th, th.slot, 0); }
    assert RecordsOk(c, mem', held') by {
      var j :| Owns(mem, th.held, j, th.obj);
      assert th.obj < c.lo[t] || c.hi[t] <= th.obj;
      assert Owns(mem', held', j, th.obj);
      PushRecord(c, mem', th.held, Entry(th.slot, th.obj));
    }
    assert Shape(c, t, Acquired(th)) by { PushShape(c, t, th); }
  }

  lemma GiveUpThread(c: Config, mem: map<nat, nat>, t: Tid, th: Thread, v: nat)
    requires Layout(c) && ThreadOk(c, mem, t, th) && th.pc == SaveTest
    ensures ThreadOk(c, mem[th.slot := v], t, th.(pc := Slow))
  {
    OwnRecordsKept(c, mem, t, th, th.slot, v);
  }

  /** In every reachable state the mask test passes exactly when the window does. */
  lemma TestDecides(c: Config, mem: map<nat, nat>, t: Tid, th: Thread)
    requires WellFormed(c) && ThreadOk(c, mem, t, th) && th.pc == SaveTest
    ensures Masked(th.hdr, th.sp, c.page) == 0 <==> InWindow(th.hdr, th.sp, c.page)
  {
    assert th.sp + c.page <= WORD by { assert th.sp <= c.hi[t]; }
    MaskTestExact(th.hdr, th.sp, c.page);
  }

  lemma PreservedBySaveTest(c: Config, s: State, t: Tid, th: Thread)
    requires WellFormed(c) && Inv(c, s) && AtPc(s, t, SaveTest) && th == s.threads[t]
    ensures Inv(c, Stepped(c, s, t))
  {
    hide MarksOk, ThreadOk, Layout, Masked;
    var m := Masked(th.hdr, th.sp, c.page);
    assert c.lo[t] <= th.slot < c.hi[t] by { SlotInStack(c, s.mem, t, th); }
    if m == 0 {
      assert ThreadOk(c, s.mem[th.slot := m], t, Acquired(th)) by {
        TestDecides(c, s.mem, t, th);
        RecurseThread(c, s.mem, t, th);
      }
      OwnStackStep(c, s, t, th.slot, m, Acquired(th));
    } else {
      assert ThreadOk(c, s.mem[th.slot := m], t, th.(pc := Slow)) by { GiveUpThread(c, s.mem, t, th, m); }
      OwnStackStep(c, s, t, th.slot, m, th.(pc := Slow));
    }
  }

  // ---------------------------------------------------------------- unlocking

  lemma PopRecord(c: Config, mem: map<nat, nat>, held: seq<Entry>)
    requires held != [] && RecordsOk(c, mem, held)
    ensures RecordsOk(c, mem, held[..|held| - 1])
  {
    var held' := held[..|held| - 1];
    forall i | 0 <= i < |held'| ensures EntryOk(c, mem, held', i) {
      assert EntryOk(c, mem, held, i);
      var o := held[i].obj;
      if Read(mem, held[i].slot) == 0 && exists j :: j < i && Owns(mem, held, j, o) {
        var j :| j < i && Owns(mem, held, j, o);
        assert Owns(mem, held', j, o);
      } else {
        assert Owns(mem, held', i, o);
      }
    }
  }

  lemma ReleaseThread(c: Config, mem: map<nat, nat>, t: Tid, th: Thread)
    requires ThreadOk(c, mem, t, th) && Unlocking(th.pc)
    ensures ThreadOk(c, mem, t, Released(th))
  {
    assert RecordsOk(c, mem, Released(th).held) by { PopRecord(c, mem, th.held); }
  }

  lemma WaitThread(c: Config, mem: map<nat, nat>, t: Tid, th: Thread)
    requires ThreadOk(c, mem, t, th) && th.pc == LoadDisplaced && Read(mem, th.slot) != 0
    ensures ThreadOk(c, mem, t, th.(pc := LoadObj, hdr := Read(mem, th.slot)))
  {
  }

  lemma PreservedByFoundHeader(c: Config, s: State, t: Tid, th: Thread)
    requires Inv(c, s) && AtPc(s, t, LoadDisplaced) && th == s.threads[t] && Read(s.mem, th.slot) != 0
    ensures Inv(c, Stepped(c, s, t))
  {
    hide MarksOk, ThreadOk, Layout;
    var th' := th.(pc := LoadObj, hdr := Read(s.mem, th.slot));
    assert ThreadOk(c, s.mem, t, th') by { WaitThread(c, s.mem, t, th); }
    QuietStep(c, s, t, th');
  }

  lemma EmptyRecordHasOwnerBelow(c: Config, mem: map<nat, nat>, t: Tid, th: Thread) returns (j: int)
    requires Layout(c) && ThreadOk(c, mem, t, th) && th.pc == LoadDisplaced && Read(mem, th.slot) == 0
    ensures th.held != [] && j < |th.held| - 1 && Owns(mem, th.held, j, th.held[|th.held| - 1].obj)
  {
    var n := |th.held| - 1;
    assert EntryOk(c, mem, th.held, n);
    j :| j < n && Owns(mem, th.held, j, th.held[n].obj);
  }

  /** Dropping an empty record leaves every mark accounted for by another. */
  lemma DropEmptyMarks(c: Config, s: State, t: Tid, th: Thread, j: int)
    requires MarksOk(c, s) && t in s.threads && th == s.threads[t] && th.held != []
    requires j < |th.held| - 1 && Owns(s.mem, th.held, j, th.held[|th.held| - 1].obj)
    ensures MarksOk(c, State(s.mem, s.threads[t := Released(th)]))
  {
    var s' := State(s.mem, s.threads[t := Released(th)]);
    forall o | o in c.header ensures MarkOk(c, s', o) {
      assert MarkOk(c, s, o);
      if Read(s.mem, o) != c.header[o] {
        var u, i :| u in s.threads && Owns(s.mem, s.threads[u].held, i, o);
        var i' := if u == t && i == |th.held| - 1 then j else i;
        assert Owns(s'.mem, s'.threads[u].held, i', o);
      }
    }
  }

  lemma PreservedByRecursiveExit(c: Config, s: State, t: Tid, th: Thread)
    requires Layout(c) && Inv(c, s) && AtPc(s, t, LoadDisplaced) && th == s.threads[t]
    requires Read(s.mem, th.slot) == 0
    ensures Inv(c, Stepped(c, s, t))
  {
    hide Layout, Released, MarksOk, ThreadOk;
    var s' := State(s.mem, s.threads[t := Released(th)]);
    assert ThreadsOk(c, s') by { ReleaseThread(c, s.mem, t, th); }
    assert MarksOk(c, s') by {
      var j := EmptyRecordHasOwnerBelow(c, s.mem, t, th);
      DropEmptyMarks(c, s, t, th, j);
    }
  }

  /** At the unlock compare-and-swap the mark still points to this record. */
  lemma UnlockCasSucceeds(c: Config, mem: map<nat, nat>, t: Tid, th: Thread)
    requires ThreadOk(c, mem, t, th) && th.pc == CasUnlock
    ensures th.obj in c.header && Read(mem, th.obj) == th.slot && th.hdr == c.header[th.obj]
    ensures th.held != [] && th.obj == th.held[|th.held| - 1].obj
    ensures t in c.lo && t in c.hi && c.lo[t] <= th.slot && th.slot + 16 <= c.hi[t]
  {
    assert EntryOk(c, mem, th.held, |th.held| - 1);
    assert SlotOk(c, t, th.held[|th.held| - 1].slot);
  }

  /** The owning record on top of the stack is the only record for its object. */
  lemma OwnerOnTopAlone(c: Config, mem: map<nat, nat>, t: Tid, th: Thread)
    requires ThreadOk(c, mem, t, th) && th.pc == CasUnlock && Read(mem, th.obj) == th.slot
    ensures forall i | 0 <= i < |th.held| - 1 :: th.held[i].obj != th.obj
  {
    forall i | 0 <= i < |th.held| - 1 ensures th.held[i].obj != th.obj {
      var j := HolderOwns(c, mem, th.held, i);
      assert Apart(th.held[j].slot, th.held[|th.held| - 1].slot);
    }
  }

  lemma UnlockThread(c: Config, mem: map<nat, nat>, t: Tid, th: Thread)
    requires Layout(c) && ThreadOk(c, mem, t, th) && th.pc == CasUnlock
    ensures ThreadOk(c, mem[th.obj := th.hdr], t, Released(th))
  {
    UnlockCasSucceeds(c, mem, t, th);
    assert ThreadOk(c, mem, t, Released(th)) by { ReleaseThread(c, mem, t, th); }
    OwnerOnTopAlone(c, mem, t, th);
    FrameMarkWrite(c, mem, t, Released(th), th.obj, th.hdr);
  }

  lemma UnlockThreads(c: Config, s: State, t: Tid, th: Thread)
    requires Layout(c) && ThreadsOk(c, s) && AtPc(s, t, CasUnlock) && th == s.threads[t]
    requires s.threads.Keys == c.lo.Keys
    ensures ThreadsOk(c, State(s.mem[th.obj := th.hdr], s.threads[t := Released(th)]))
  {
    hide Layout, Released, ThreadOk;
    UnlockCasSucceeds(c, s.mem, t, th);
    forall u | u in s.threads
      ensures u != t ==> ThreadOk(c, s.mem[th.obj := th.hdr], u, s.threads[u])
      ensures u == t ==> ThreadOk(c, s.mem[th.obj := th.hdr], u, Released(th))
    {
      if u == t {
        UnlockThread(c, s.mem, t, th);
      } else {
        ForeignMarkFree(c, s.mem, t, u, s.threads[u], th.obj);
        FrameMarkWrite(c, s.mem, u, s.threads[u], th.obj, th.hdr);
      }
    }
  }

  lemma UnlockMarks(c: Config, s: State, t: Tid, th: Thread)
    requires MarksOk(c, s) && t in s.threads && th == s.threads[t] && th.held != []
    requires th.obj == th.held[|th.held| - 1].obj && th.obj in c.header && th.hdr == c.header[th.obj]
    ensures MarksOk(c, State(s.mem[th.obj := th.hdr], s.threads[t := Released(th)]))
  {
    var s' := State(s.mem[th.obj := th.hdr], s.threads[t := Released(th)]);
    forall o | o in c.header ensures MarkOk(c, s', o) {
      assert MarkOk(c, s, o);
      if o != th.obj && Read(s.mem, o) != c.header[o] {
        var u, i :| u in s.threads && Owns(s.mem, s.threads[u].held, i, o);
        assert Owns(s'.mem, s'.threads[u].held, i, o);
      }
    }
  }

  lemma PreservedByUnlockCas(c: Config, s: State, t: Tid, th: Thread)
    requires Layout(c) && Inv(c, s) && AtPc(s, t, CasUnlock) && th == s.threads[t]
    ensures Inv(c, Stepped(c, s, t))
  {
    hide MarksOk, ThreadOk, Layout, Released;
    var s' := State(s.mem[th.obj := th.hdr], s.threads[t := Released(th)]);
    assert Stepped(c, s, t) == s' by { UnlockCasSucceeds(c, s.mem, t, th); }
    assert ThreadsOk(c, s') by { UnlockThreads(c, s, t, th); }
    assert MarksOk(c, s') by {
      UnlockCasSucceeds(c, s.mem, t, th);
      UnlockMarks(c, s, t, th);
    }
  }

  // ---------------------------------------------------------------- whole runs

  lemma PreservedByLockExec(c: Config, s: State, t: Tid, th: Thread)
    requires WellFormed(c) && Guarded(c) && Inv(c, s) && t in s.threads && th == s.threads[t] && Locking(th.pc)
    ensures Inv(c, Stepped(c, s, t))
  {
    hide Inv, Stepped, Guarded, Layout, PageSize, Read;
    match th.pc
    case StoreObj => PreservedByStoreObj(c, s, t, th);
    case LoadMark => PreservedByLoadMark(c, s, t, th);
    case SaveHeader => PreservedBySaveHeader(c, s, t, th);
    case CasLock =>
      if Read(s.mem, th.obj) == th.hdr {
        PreservedByLockCas(c, s, t, th);
      } else {
        PreservedByLockCasFailure(c, s, t, th);
      }
    case SaveTest => PreservedBySaveTest(c, s, t, th);
  }

  lemma PreservedByUnlockExec(c: Config, s: State, t: Tid, th: Thread)
    requires WellFormed(c) && Inv(c, s) && t in s.threads && th == s.threads[t] && Unlocking(th.pc)
    ensures Inv(c, Stepped(c, s, t))
  {
    hide Inv, Stepped, Guarded, Layout, PageSize, Read;
    match th.pc
    case LoadDisplaced =>
      if Read(s.mem, th.slot) == 0 {
        PreservedByRecursiveExit(c, s, t, th);
      } else {
        PreservedByFoundHeader(c, s, t, th);
      }
    case LoadObj => PreservedByLoadObj(c, s, t, th);
    case CasUnlock =>
      PreservedByUnlockCas(c, s, t, th);
  }

  lemma PreservedByStep(c: Config, s: State, a: Action)
    requires WellFormed(c) && Guarded(c) && Inv(c, s) && Enabled(c, s, a)
    ensures Inv(c, Next(c, s, a))
  {
    hide Inv, Guarded, Layout, PageSize;
    if !a.Exec? {
      PreservedByChoice(c, s, a);
    } else if Locking(s.threads[a.t].pc) {
      PreservedByLockExec(c, s, a.t, s.threads[a.t]);
    } else {
      PreservedByUnlockExec(c, s, a.t, s.threads[a.t]);
    }
  }

  /** Every state of every run satisfies the invariant. */
  lemma {:induction false} RunInv(c: Config, s: State, run: seq<Action>)
    requires WellFormed(c) && Guarded(c) && Init(c, s) && Valid(c, s, run)
    ensures Inv(c, After(c, s, run))
  {
    hide Inv, WellFormed, Guarded, Init, Next, Enabled;
    if run == [] {
      InitInv(c, s);
    } else {
      var before, a := run[..|run| - 1], run[|run| - 1];
      RunInv(c, s, before);
      PreservedByStep(c, After(c, s, before), a);
    }
  }
}
