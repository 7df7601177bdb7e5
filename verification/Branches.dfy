/** PC-relative instructions: the words the emitters write. */
module Branches {
  import opened Bits
  import opened BitFields
  import opened Instruction

  /** The PC-relative instructions that take a label. `LoadLiteral` with `opc` 3 is the prefetch, whose
      `rt` is the prefetch operation. */
  datatype Branch =
    | B(link: bool)
    | BCond(cond: nat)
    | CompareBranch(wide: bool, nonzero: bool, rt: nat)
    | TestBranch(nonzero: bool, bit: nat, rt: nat)
    | LoadLiteral(vector: bool, opc: nat, rt: nat)
    | Adr(page: bool, rd: nat)
  {
    predicate Ok() {
      match this
      case B(_) => true
      case BCond(c) => c < 16
      case CompareBranch(_, _, r) => r < 32
      case TestBranch(_, b, r) => b < 64 && r < 32
      case LoadLiteral(v, o, r) => o < 4 && r < 32 && (v ==> o < 2)
      case Adr(_, r) => r < 32
    }

    /** Bits in the signed offset field. */
    function Width(): (n: nat)
      ensures n > 0
    {
      match this
      case B(_) => 26
      case TestBranch(_, _, _) => 14
      case _ => 19
    }
  }

  /** What an instruction at `pc` must hold to name `dest`: pages for `adrp`, bytes otherwise. */
  function Displacement(b: Branch, pc: nat, dest: nat): int {
    if b.Adr? && b.page then dest / 4096 - pc / 4096 else dest - pc
  }

  /** The offset field for displacement `d`, `d >> 2`, passes the check of `sf`. */
  predicate InRange(b: Branch, d: int) {
    SignedFits(d / 4, b.Width())
  }

  /** The fields the emitters write for displacement `d`, in the order they write them. */
  function Fields(b: Branch, d: int): (fs: seq<Field>)
    requires b.Ok()
  {
    match b
    case B(link) => [Field(Bit(link), 31, 31), Field(5, 30, 26), SignedField(d / 4, 25, 0)]
    case BCond(c) =>
      [Field(0x2A, 31, 25), Field(0, 24, 24), SignedField(d / 4, 23, 5), Field(0, 4, 4), Field(c, 3, 0)]
    case CompareBranch(wide, nz, rt) =>
      [Field(0x34 + 0x80 * Bit(wide) + Bit(nz), 31, 24), SignedField(d / 4, 23, 5), Field(rt, 4, 0)]
    case TestBranch(nz, bit, rt) =>
      [Field(bit / 32, 31, 31), Field(0x36 + Bit(nz), 30, 24), Field(bit % 32, 23, 19),
       SignedField(d / 4, 18, 5), Field(rt, 4, 0)]
    case LoadLiteral(vector, opc, rt) =>
      [Field(opc, 31, 30), Field(3, 29, 27), Field(Bit(vector), 26, 26), Field(0, 25, 24), SignedField(d / 4, 23, 5),
       Field(rt, 4, 0)]
    case Adr(page, rd) =>
      [Field(Bit(page), 31, 31), Field(d % 4, 30, 29), Field(16, 28, 24), SignedField(d / 4, 23, 5), Field(rd, 4, 0)]
  }

  lemma FieldsOk(b: Branch, d: int)
    requires b.Ok()
    ensures AllOk(Fields(b, d)) && PairwiseDisjoint(Fields(b, d))
  {
    var fs := Fields(b, d);
    assert AllOk(fs) by {
      EachFieldOk(b, d);
    }
    assert PairwiseDisjoint(fs) by {
      hide SignedField;
      forall j, k | 0 <= j < k < |fs| ensures Disjoint(fs[j], fs[k]) {
      }
    }
  }

  lemma EachFieldOk(b: Branch, d: int)
    requires b.Ok()
    ensures AllOk(Fields(b, d))
  {
    hide SignedField;
    PowValues();
  }

  function Encode(b: Branch, d: int): (w: seq<bool>)
    requires b.Ok()
    ensures |w| == 32
  {
    FieldsOk(b, d);
    Assemble(Fields(b, d))
  }

  // ---------------------------------------------------------------- emission

  /** `b` and `bl` */
  method EmitB(link: bool, pc: nat, dest: nat) returns (w: seq<bool>)
    requires B(link).Ok() && InRange(B(link), dest - pc)
    ensures w == Encode(B(link), dest - pc)
  {
    hide Instruction.Valid, Assemble, Unsigned;
    PowValues();
    var i := new Instruction();
    i.F(Bit(link), 31, 31);
    i.F(5, 30, 26);
    i.Sf((dest - pc) / 4, 25, 0);
    assert i.fields == Fields(B(link), dest - pc);
    w := i.Emit();
  }

  /** `br` */
  method EmitBCond(cond: nat, pc: nat, dest: nat) returns (w: seq<bool>)
    requires BCond(cond).Ok() && InRange(BCond(cond), dest - pc)
    ensures w == Encode(BCond(cond), dest - pc)
  {
    hide Instruction.Valid, Assemble, Unsigned;
    PowValues();
    var i := new Instruction();
    i.F(0x2A, 31, 25);
    i.F(0, 24, 24);
    i.Sf((dest - pc) / 4, 23, 5);
    i.F(0, 4, 4);
    i.F(cond, 3, 0);
    assert i.fields == Fields(BCond(cond), dest - pc);
    w := i.Emit();
  }

  /** `cbzw`, `cbnzw`, `cbz` and `cbnz` */
  method EmitCompareBranch(wide: bool, nonzero: bool, rt: nat, pc: nat, dest: nat) returns (w: seq<bool>)
    requires CompareBranch(wide, nonzero, rt).Ok() && InRange(CompareBranch(wide, nonzero, rt), dest - pc)
    ensures w == Encode(CompareBranch(wide, nonzero, rt), dest - pc)
  {
    hide Instruction.Valid, Assemble, Unsigned;
    PowValues();
    var i := new Instruction();
    i.F(0x34 + 0x80 * Bit(wide) + Bit(nonzero), 31, 24);
    i.Sf((dest - pc) / 4, 23, 5);
    i.F(rt, 4, 0);
    assert i.fields == Fields(CompareBranch(wide, nonzero, rt), dest - pc);
    w := i.Emit();
  }

  /** `tbz` and `tbnz` */
  method EmitTestBranch(nonzero: bool, bit: nat, rt: nat, pc: nat, dest: nat) returns (w: seq<bool>)
    requires TestBranch(nonzero, bit, rt).Ok() && InRange(TestBranch(nonzero, bit, rt), dest - pc)
    ensures w == Encode(TestBranch(nonzero, bit, rt), dest - pc)
  {
    hide Instruction.Valid, Assemble, Unsigned;
    PowValues();
    var i := new Instruction();
    i.F(bit / 32, 31, 31);
    i.F(0x36 + Bit(nonzero), 30, 24);
    i.F(bit % 32, 23, 19);
    i.Sf((dest - pc) / 4, 18, 5);
    i.F(rt, 4, 0);
    assert i.fields == Fields(TestBranch(nonzero, bit, rt), dest - pc);
    w := i.Emit();
  }

  /** The literal loads, with the opcode each passes for bits 31 to 30. */
  datatype Literal = Ldrw | Ldr | Ldrsw | Prfm | Ldrs | Ldrd | Ldrq {
    predicate Vector() {
      Ldrs? || Ldrd? || Ldrq?
    }

    function Opc(): nat {
      match this
      case Ldrw => 0
      case Ldr => 1
      case Ldrsw => 2
      case Prfm => 3
      case Ldrs => 0
      case Ldrd => 1
      case Ldrq => 0x10
    }
  }

  /** Every literal load can be emitted but `ldrq`, whose opcode does not fit its two bits. */
  lemma LiteralEmittable(l: Literal, rt: nat)
    requires rt < 32
    ensures Field(l.Opc(), 31, 30).Ok() <==> l != Ldrq
    ensures LoadLiteral(l.Vector(), l.Opc(), rt).Ok() <==> l != Ldrq
  {
    PowValues();
  }

  /** The literal loads but `ldrq` */
  method EmitLoadLiteral(vector: bool, opc: nat, rt: nat, pc: nat, dest: nat) returns (w: seq<bool>)
    requires LoadLiteral(vector, opc, rt).Ok() && InRange(LoadLiteral(vector, opc, rt), dest - pc)
    ensures w == Encode(LoadLiteral(vector, opc, rt), dest - pc)
  {
    hide Instruction.Valid, Assemble, Unsigned;
    PowValues();
    var i := new Instruction();
    i.F(opc, 31, 30);
    i.F(3, 29, 27);
    i.F(Bit(vector), 26, 26);
    i.F(0, 25, 24);
    i.Sf((dest - pc) / 4, 23, 5);
    i.F(rt, 4, 0);
    assert i.fields == Fields(LoadLiteral(vector, opc, rt), dest - pc);
    w := i.Emit();
  }

  /** The literal mode of `ld_st2`: in another order of fields, the word of the literal load of that size. */
  method EmitLiteralAccess(vector: bool, size: nat, rt: nat, pc: nat, dest: nat) returns (w: seq<bool>)
    requires 2 <= size <= 3 && rt < 32 && InRange(LoadLiteral(vector, size % 2, rt), dest - pc)
    ensures w == Encode(LoadLiteral(vector, size % 2, rt), dest - pc)
  {
    hide Instruction.Valid, Assemble, Unsigned, SignedField, Fields, Encode, InRange, SignedFits;
    var i := LiteralHead(vector, size % 2, rt);
    assert SignedFits((dest - pc) / 4, 19) by { InRangeFits(LoadLiteral(vector, size % 2, rt), dest - pc); }
    i.Sf((dest - pc) / 4, 23, 5);
    LiteralReordered(vector, size % 2, rt, dest - pc, i.fields);
    w := i.Emit();
  }

  method LiteralHead(vector: bool, opc: nat, rt: nat) returns (i: Instruction)
    requires LoadLiteral(vector, opc, rt).Ok()
    ensures fresh(i) && i.Valid() && i.fields == LiteralFields(vector, opc, rt)
    ensures |i.bits| == 32 && forall k | 0 <= k < 32 :: i.bits[k] <==> !(5 <= k <= 23)
  {
    hide Instruction.Valid, Assemble;
    PowValues();
    i := new Instruction();
    i.F(Bit(vector), 26, 26);
    i.F(rt, 4, 0);
    i.F(opc, 31, 30);
    i.F(3, 29, 27);
    i.F(0, 25, 24);
  }

  function LiteralFields(vector: bool, opc: nat, rt: nat): seq<Field> {
    [Field(Bit(vector), 26, 26), Field(rt, 4, 0), Field(opc, 31, 30), Field(3, 29, 27), Field(0, 25, 24)]
  }

  lemma InRangeFits(b: Branch, d: int)
    requires InRange(b, d)
    ensures SignedFits(d / 4, b.Width())
  {
  }

  lemma LiteralReordered(vector: bool, opc: nat, rt: nat, d: int, gs: seq<Field>)
    requires LoadLiteral(vector, opc, rt).Ok()
    requires gs == LiteralFields(vector, opc, rt) + [SignedField(d / 4, 23, 5)]
    ensures AllOk(gs) && Assemble(gs) == Encode(LoadLiteral(vector, opc, rt), d)
  {
    hide Assemble, SignedField, AllOk;
    var fs := Fields(LoadLiteral(vector, opc, rt), d);
    FieldsOk(LoadLiteral(vector, opc, rt), d);
    assert gs == [fs[2], fs[5], fs[0], fs[1], fs[3], fs[4]];
    Reordered(fs);
  }

  lemma Reordered(fs: seq<Field>)
    requires |fs| == 6 && AllOk(fs)
    ensures var gs := [fs[2], fs[5], fs[0], fs[1], fs[3], fs[4]];
            AllOk(gs) && Assemble(gs) == Assemble(fs)
  {
    hide *;
    var gs := [fs[2], fs[5], fs[0], fs[1], fs[3], fs[4]];
    var p, q, r, s := fs[..2], fs[2..3], fs[3..5], fs[5..];
    assert fs == p + q + r + s;
    assert gs == q + s + p + r;
    SameElements(p, q, r, s);
    OrderIrrelevant(fs, gs);
  }

  lemma SameElements(p: seq<Field>, q: seq<Field>, r: seq<Field>, s: seq<Field>)
    ensures multiset(p + q + r + s) == multiset(q + s + p + r)
  {
  }

  /** `adr` and `_adrp` */
  method EmitAdr(page: bool, rd: nat, pc: nat, dest: nat) returns (w: seq<bool>)
    requires Adr(page, rd).Ok() && InRange(Adr(page, rd), Displacement(Adr(page, rd), pc, dest))
    ensures w == Encode(Adr(page, rd), Displacement(Adr(page, rd), pc, dest))
  {
    hide Instruction.Valid, Assemble, Unsigned;
    PowValues();
    var offset := dest - pc;
    if page {
      offset := dest / 4096 - pc / 4096;
    }
    var i := new Instruction();
    i.F(Bit(page), 31, 31);
    i.F(offset % 4, 30, 29);
    i.F(16, 28, 24);
    i.Sf(offset / 4, 23, 5);
    i.F(rd, 4, 0);
    assert i.fields == Fields(Adr(page, rd), offset);
    w := i.Emit();
  }

  method Emit(b: Branch, pc: nat, dest: nat) returns (w: seq<bool>)
    requires b.Ok() && InRange(b, Displacement(b, pc, dest))
    ensures w == Encode(b, Displacement(b, pc, dest))
  {
    match b {
      case B(link) => w := EmitB(link, pc, dest);
      case BCond(cond) => w := EmitBCond(cond, pc, dest);
      case CompareBranch(wide, nonzero, rt) => w := EmitCompareBranch(wide, nonzero, rt, pc, dest);
      case TestBranch(nonzero, bit, rt) => w := EmitTestBranch(nonzero, bit, rt, pc, dest);
      case LoadLiteral(vector, opc, rt) => w := EmitLoadLiteral(vector, opc, rt, pc, dest);
      case Adr(page, rd) => w := EmitAdr(page, rd, pc, dest);
    }
  }
}
