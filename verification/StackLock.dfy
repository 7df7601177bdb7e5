/** The stack-locking protocol emitted by `lock_object` and `unlock_object`, as a step relation
    over any number of threads sharing one memory.  Every load, store and compare-and-swap is a
    step of its own; register-only instructions belong to the memory access beside them. */
module StackLock {
  import opened Bits
  import opened RecursionMask

  type Tid = nat

  /** Addresses of an object's mark word to its neutral header, and each thread's stack
      `[lo, hi)`. */
  datatype Config = Config(page: nat, lo: map<Tid, nat>, hi: map<Tid, nat>, header: map<nat, nat>)

  datatype Pc =
    | Running
    | StoreObj | LoadMark | SaveHeader | CasLock | SaveTest   // lock_object
    | LoadDisplaced | LoadObj | CasUnlock                     // unlock_object
    | Slow                                                    // runtime call, never left here

  /** A BasicObjectLock the thread believes it holds: displaced header at `slot`, object
      pointer in the word after it. */
  datatype Entry = Entry(slot: nat, obj: nat)

  datatype Thread = Thread(pc: Pc, sp: nat, slot: nat, obj: nat, hdr: nat, held: seq<Entry>)

  datatype State = State(mem: map<nat, nat>, threads: map<Tid, Thread>)

  datatype Action =
    | MoveSp(t: Tid, sp: nat)
    | BeginLock(t: Tid, slot: nat, obj: nat)
    | BeginUnlock(t: Tid)
    | Exec(t: Tid)

  // ---------------------------------------------------------------- the emitted code

  function Read(mem: map<nat, nat>, a: nat): nat {
    if a in mem then mem[a] else 0
  }

  /** `BasicObjectLock::obj_offset_in_bytes` past the displaced header */
  function ObjField(slot: nat): nat {
    slot + 8
  }

  /** The mark with its unlocked bit set. */
  function Unlocked(mark: nat): nat {
    if mark % 2 == 0 then mark + 1 else mark
  }

  predicate SlotOk(c: Config, t: Tid, a: nat)
    requires t in c.lo && t in c.hi
  {
    a % 8 == 0 && c.lo[t] <= a && a + 16 <= c.hi[t]
  }

  predicate Apart(a: nat, b: nat) {
    a + 16 <= b || b + 16 <= a
  }

  /** What the compiled method guarantees before it runs an action. */
  predicate Enabled(c: Config, s: State, a: Action) {
    && a.t in s.threads && a.t in c.lo && a.t in c.hi
    && var th := s.threads[a.t];
       match a
       case MoveSp(t, sp) =>
         // calls and returns: the frames of held locks stay live
         && th.pc == Running && sp % 8 == 0 && c.lo[t] <= sp <= c.hi[t]
         && (forall i | 0 <= i < |th.held| :: sp <= th.held[i].slot)
       case BeginLock(t, slot, obj) =>
         && th.pc == Running && SlotOk(c, t, slot) && th.sp <= slot && obj in c.header
         && (forall i | 0 <= i < |th.held| :: Apart(th.held[i].slot, slot))
       case BeginUnlock(t) => th.pc == Running && th.held != []
       case Exec(t) => th.pc != Running && th.pc != Slow
  }

  /** One step of thread `th` when it executes its next memory access. */
  function Access(c: Config, mem: map<nat, nat>, th: Thread): (map<nat, nat>, Thread) {
    match th.pc
    case StoreObj => (mem[ObjField(th.slot) := th.obj], th.(pc := LoadMark))
    case LoadMark => (mem, th.(pc := SaveHeader, hdr := Unlocked(Read(mem, th.obj))))
    case SaveHeader => (mem[th.slot := th.hdr], th.(pc := CasLock))
    case CasLock =>
      if Read(mem, th.obj) == th.hdr
      then (mem[th.obj := th.slot], Acquired(th))
      else (mem, th.(pc := SaveTest, hdr := Read(mem, th.obj)))
    case SaveTest =>
      var m := Masked(th.hdr, th.sp, c.page);
      (mem[th.slot := m], if m == 0 then Acquired(th) else th.(pc := Slow))
    case LoadDisplaced =>
      var hdr := Read(mem, th.slot);
      (mem, if hdr == 0 then Released(th) else th.(pc := LoadObj, hdr := hdr))
    case LoadObj => (mem, th.(pc := CasUnlock, obj := Read(mem, ObjField(th.slot))))
    case CasUnlock =>
      if Read(mem, th.obj) == th.slot
      then (mem[th.obj := th.hdr], Released(th))
      else (mem, th.(pc := Slow))
    case Running => (mem, th)
    case Slow => (mem, th)
  }

  function Acquired(th: Thread): Thread {
    th.(pc := Running, held := th.held + [Entry(th.slot, th.obj)])
  }

  function Released(th: Thread): Thread {
    th.(pc := Running, held := if th.held == [] then [] else th.held[..|th.held| - 1])
  }

  function Next(c: Config, s: State, a: Action): State
    requires Enabled(c, s, a)
  {
    var th := s.threads[a.t];
    match a
    case MoveSp(t, sp) => s.(threads := s.threads[t := th.(sp := sp)])
    case BeginLock(t, slot, obj) =>
      s.(threads := s.threads[t := th.(pc := StoreObj, slot := slot, obj := obj)])
    case BeginUnlock(t) =>
      s.(threads := s.threads[t := th.(pc := LoadDisplaced, slot := th.held[|th.held| - 1].slot)])
    case Exec(t) =>
      var (mem, th') := Access(c, s.mem, th);
      State(mem, s.threads[t := th'])
  }

  ghost predicate Init(c: Config, s: State) {
    && s.threads.Keys == c.lo.Keys == c.hi.Keys
    && (forall t | t in s.threads ::
          s.threads[t].pc == Running && s.threads[t].held == [] && s.threads[t].sp == c.hi[t])
    && (forall o | o in c.header :: Read(s.mem, o) == c.header[o])
  }

  /** `run` is a run from `s`: every action is enabled where it happens. */
  ghost predicate Valid(c: Config, s: State, run: seq<Action>)
    decreases |run|, 0
  {
    run == [] || (Valid(c, s, run[..|run| - 1]) &&
                  Enabled(c, After(c, s, run[..|run| - 1]), run[|run| - 1]))
  }

  ghost function After(c: Config, s: State, run: seq<Action>): State
    requires Valid(c, s, run)
    decreases |run|, 1
  {
    if run == [] then s else Next(c, After(c, s, run[..|run| - 1]), run[|run| - 1])
  }

  // ---------------------------------------------------------------- environment

  ghost predicate WellFormed(c: Config) {
    PageSize(c.page) && Layout(c)
  }

  /** Disjoint, aligned stacks; objects outside them with neutral headers. */
  ghost predicate Layout(c: Config) {
    && c.lo.Keys == c.hi.Keys
    && (forall t | t in c.lo ::
          && c.lo[t] % 8 == 0 && c.hi[t] % 8 == 0
          && c.lo[t] + 16 <= c.hi[t] && c.hi[t] + c.page <= WORD)
    && (forall t, u | t in c.lo && u in c.lo && t != u ::
          c.hi[t] <= c.lo[u] || c.hi[u] <= c.lo[t])
    && (forall o | o in c.header ::
          && 0 < o < WORD && o % 8 == 0
          && c.header[o] % 8 == 1 && c.header[o] < WORD)
    && (forall o, t | o in c.header && t in c.lo :: o < c.lo[t] || c.hi[t] <= o)
  }

  /** The stack above another one starts at least a page, less one lock record, beyond it. */
  ghost predicate Guarded(c: Config)
    requires c.lo.Keys == c.hi.Keys
  {
    forall t, u | t in c.lo && u in c.lo && t != u && c.hi[t] <= c.lo[u] ::
      c.hi[t] + c.page <= c.lo[u] + 16
  }

  // ---------------------------------------------------------------- the safety properties

  ghost predicate Holds(s: State, t: Tid, i: int, o: nat) {
    t in s.threads && 0 <= i < |s.threads[t].held| && s.threads[t].held[i].obj == o
  }

  ghost predicate MutualExclusion(s: State) {
    forall t, u, i, j, o | Holds(s, t, i, o) && Holds(s, u, j, o) :: t == u
  }

  /** An object's header: its mark when neutral, else the displaced header in the slot the
      mark points to. */
  function LogicalHeader(s: State, o: nat): nat {
    var mark := Read(s.mem, o);
    if mark % 8 == 1 then mark else Read(s.mem, mark)
  }
}
