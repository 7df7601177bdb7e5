/** The few A64 instructions the zeroing code is made of, executed one at a time. Instruction `i` of
    a program is at address `base + 4 * i`. */
module Machine {
  import opened Bits
  import opened Wrappers

  datatype Reg = Obj | Len | T1 | S1 | S2 | Size

  datatype Regs = Regs(obj: nat, len: nat, t1: nat, s1: nat, s2: nat, size: nat) {
    function Get(r: Reg): nat {
      match r
      case Obj => obj
      case Len => len
      case T1 => t1
      case S1 => s1
      case S2 => s2
      case Size => size
    }

    function Set(r: Reg, v: nat): Regs {
      match r
      case Obj => this.(obj := v)
      case Len => this.(len := v)
      case T1 => this.(t1 := v)
      case S1 => this.(s1 := v)
      case S2 => this.(s2 := v)
      case Size => this.(size := v)
    }
  }

  datatype Instr =
    | MovImm(d: Reg, imm: nat)
    | Mov(d: Reg, n: Reg)
    | Lsr(d: Reg, n: Reg, shift: nat)
    | AndImm(d: Reg, n: Reg, imm: nat)
    | AddImm(d: Reg, n: Reg, imm: nat)
    | SubImm(d: Reg, n: Reg, imm: nat)
    | SubsImm(d: Reg, n: Reg, imm: nat)
    | AddReg(d: Reg, n: Reg, m: Reg, shift: nat)
    | SubReg(d: Reg, n: Reg, m: Reg, shift: nat)
    | Adr(d: Reg, target: nat)
    | Br(n: Reg)
    | B(target: nat)
    | BEq(target: nat)
    | Cbnz(n: Reg, target: nat)
    | StrZr(n: Reg, offset: int)
    | StpZr(n: Reg, offset: int)

  /** `stores` lists the words set to zero, in order. */
  datatype State = State(pc: nat, r: Regs, zero: bool, stores: seq<nat>)

  function Wrap(x: int): (v: nat)
    ensures v < WORD
  {
    x % WORD
  }

  /** The value a data-processing instruction computes. */
  function Result(i: Instr, base: nat, r: Regs): nat {
    match i
    case MovImm(_, imm) => Wrap(imm)
    case Mov(_, n) => r.Get(n)
    case Lsr(_, n, shift) => ShiftRight(r.Get(n), shift)
    case AndImm(_, n, imm) => And(r.Get(n), imm)
    case AddImm(_, n, imm) => Wrap(r.Get(n) + imm)
    case SubImm(_, n, imm) => Wrap(r.Get(n) - imm)
    case SubsImm(_, n, imm) => Wrap(r.Get(n) - imm)
    case AddReg(_, n, m, shift) => Wrap(r.Get(n) + r.Get(m) * Pow2(shift))
    case SubReg(_, n, m, shift) => Wrap(r.Get(n) - r.Get(m) * Pow2(shift))
    case Adr(_, target) => base + 4 * target
    case _ => 0
  }

  /** One instruction; None for an indirect branch that leaves the instruction grid. */
  function Step(prog: seq<Instr>, base: nat, s: State): Option<State>
    requires s.pc < |prog|
  {
    var i, r := prog[s.pc], s.r;
    match i
    case Br(n) =>
      if r.Get(n) >= base && (r.Get(n) - base) % 4 == 0 then Some(s.(pc := (r.Get(n) - base) / 4)) else None
    case B(target) => Some(s.(pc := target))
    case BEq(target) => Some(s.(pc := if s.zero then target else s.pc + 1))
    case Cbnz(n, target) => Some(s.(pc := if r.Get(n) != 0 then target else s.pc + 1))
    case StrZr(n, offset) => Some(s.(pc := s.pc + 1, stores := s.stores + [Wrap(r.Get(n) + offset)]))
    case StpZr(n, offset) =>
      Some(s.(pc := s.pc + 1, stores := s.stores + [Wrap(r.Get(n) + offset), Wrap(r.Get(n) + offset + 8)]))
    case _ =>
      var v := Result(i, base, r);
      Some(s.(pc := s.pc + 1, r := r.Set(i.d, v), zero := if i.SubsImm? then v == 0 else s.zero))
  }

  function Exec(prog: seq<Instr>, base: nat, s: State, n: nat): Option<State>
    decreases n
  {
    if n == 0 then Some(s)
    else if s.pc >= |prog| then None
    else
      var t := Step(prog, base, s);
      if t.None? then None else Exec(prog, base, t.value, n - 1)
  }

  /** The program runs from `s` to `t` in finitely many steps. */
  ghost predicate Leads(prog: seq<Instr>, base: nat, s: State, t: State) {
    exists n :: Exec(prog, base, s, n) == Some(t)
  }

  lemma {:induction false} ExecAdd(prog: seq<Instr>, base: nat, s: State, n: nat, t: State, m: nat)
    requires Exec(prog, base, s, n) == Some(t)
    ensures Exec(prog, base, s, n + m) == Exec(prog, base, t, m)
    decreases n
  {
    if n > 0 {
      ExecAdd(prog, base, Step(prog, base, s).value, n - 1, t, m);
    }
  }

  lemma LeadsTrans(prog: seq<Instr>, base: nat, s: State, t: State, u: State)
    requires Leads(prog, base, s, t) && Leads(prog, base, t, u)
    ensures Leads(prog, base, s, u)
  {
    var n :| Exec(prog, base, s, n) == Some(t);
    var m :| Exec(prog, base, t, m) == Some(u);
    ExecAdd(prog, base, s, n, t, m);
  }

  lemma LeadsSelf(prog: seq<Instr>, base: nat, s: State)
    ensures Leads(prog, base, s, s)
  {
    assert Exec(prog, base, s, 0) == Some(s);
  }

  lemma LeadsOne(prog: seq<Instr>, base: nat, s: State, t: State)
    requires s.pc < |prog| && Step(prog, base, s) == Some(t)
    ensures Leads(prog, base, s, t)
  {
    assert Exec(prog, base, t, 0) == Some(t);
    assert Exec(prog, base, s, 1) == Some(t);
  }

  /** Straight-line execution along a list of states. */
  lemma {:induction false} LeadsAlong(prog: seq<Instr>, base: nat, ss: seq<State>)
    requires ss != []
    requires forall i | 0 <= i < |ss| - 1 :: ss[i].pc < |prog| && Step(prog, base, ss[i]) == Some(ss[i + 1])
    ensures Leads(prog, base, ss[0], ss[|ss| - 1])
  {
    hide Step, Leads;
    if |ss| == 1 {
      LeadsSelf(prog, base, ss[0]);
    } else {
      LeadsAlong(prog, base, ss[..|ss| - 1]);
      LeadsOne(prog, base, ss[|ss| - 2], ss[|ss| - 1]);
      LeadsTrans(prog, base, ss[0], ss[|ss| - 2], ss[|ss| - 1]);
    }
  }

  /** `code` sits at index `at` of the program. */
  predicate Holds(prog: seq<Instr>, at: nat, code: seq<Instr>) {
    at + |code| <= |prog| && forall i | 0 <= i < |code| :: prog[at + i] == code[i]
  }

  lemma HoldsFirst(prog: seq<Instr>, at: nat, code: seq<Instr>)
    requires Holds(prog, at, code) && code != []
    ensures at < |prog| && prog[at] == code[0]
  {
  }

  lemma HoldsPart(prog: seq<Instr>, at: nat, code: seq<Instr>, skip: nat, part: seq<Instr>)
    requires Holds(prog, at, code) && skip + |part| <= |code| && code[skip..skip + |part|] == part
    ensures Holds(prog, at + skip, part)
  {
  }

  /** `n` words from address `a` on. */
  function Words(a: nat, n: nat): (ws: seq<nat>)
    ensures |ws| == n && forall i | 0 <= i < n :: ws[i] == a + 8 * i
  {
    seq(n, i requires i >= 0 => a + 8 * i)
  }

  lemma WordsConcat(a: nat, n: nat, m: nat)
    ensures Words(a, n) + Words(a + 8 * n, m) == Words(a, n + m)
  {
  }

  lemma WordsOne(a: nat)
    ensures Words(a, 1) == [a]
  {
  }

  /** A row of stores through one register, each 8 bytes above the one before. */
  predicate StoreRow(prog: seq<Instr>, at: nat, n: Reg, first: int, count: nat) {
    at + count <= |prog| && forall i | at <= i < at + count :: prog[i] == StrZr(n, first + 8 * (i - at))
  }

  lemma {:induction false} StoresLead(prog: seq<Instr>, base: nat, s: State, n: Reg, first: int, count: nat)
    requires StoreRow(prog, s.pc, n, first, count)
    requires 0 <= s.r.Get(n) + first && s.r.Get(n) + first + 8 * count <= WORD
    ensures Leads(prog, base, s,
                  s.(pc := s.pc + count, stores := s.stores + Words(s.r.Get(n) + first, count)))
    decreases count
  {
    hide Leads, Step;
    var a := s.r.Get(n) + first;
    if count == 0 {
      LeadsSelf(prog, base, s);
      assert s.(pc := s.pc + 0, stores := s.stores + Words(a, 0)) == s;
    } else {
      var t := s.(pc := s.pc + 1, stores := s.stores + [a]);
      StoreSteps(prog, base, s, n, first);
      LeadsOne(prog, base, s, t);
      StoresLead(prog, base, t, n, first + 8, count - 1);
      var u := t.(pc := t.pc + (count - 1), stores := t.stores + Words(a + 8, count - 1));
      LeadsTrans(prog, base, s, t, u);
      WordsConcat(a, 1, count - 1);
      WordsOne(a);
      assert u.stores == s.stores + Words(a, count);
    }
  }

  lemma StoreSteps(prog: seq<Instr>, base: nat, s: State, n: Reg, offset: int)
    requires s.pc < |prog| && prog[s.pc] == StrZr(n, offset) && 0 <= s.r.Get(n) + offset < WORD
    ensures Step(prog, base, s) == Some(s.(pc := s.pc + 1, stores := s.stores + [s.r.Get(n) + offset]))
  {
  }

  lemma WrapSmall(x: int)
    requires 0 <= x < WORD
    ensures Wrap(x) == x
  {
  }
}
