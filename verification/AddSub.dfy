/** Add and subtract with an immediate: the encoder's choice of form and the architecture's meaning of
    the word. */
module AddSub {
  import opened Bits
  import opened BitFields
  import opened Instruction
  import opened Wrappers

  // ---------------------------------------------------------------- the operations

  /** The three opcode bits: 64-bit, subtract, set flags. */
  datatype Op = Op(wide: bool, sub: bool, flags: bool) {
    function Code(): nat {
      4 * Bit(wide) + 2 * Bit(sub) + Bit(flags)
    }

    /** The `negated` opcode paired with this one. */
    function Negated(): Op {
      this.(sub := !sub)
    }

    function Modulus(): (m: nat)
      ensures m > 0
    {
      if wide then 0x1_0000_0000_0000_0000 else U32
    }
  }

  datatype Flags = Flags(n: bool, z: bool, c: bool, v: bool)

  datatype Outcome = Outcome(value: nat, flags: Flags)

  function ToSigned(x: int, modulus: nat): int {
    if 2 * x >= modulus then x - modulus else x
  }

  /** AddWithCarry of section J1.1 of the Arm Architecture Reference Manual (DDI 0487). */
  function AddWithCarry(x: nat, y: nat, carry: nat, modulus: nat): Outcome
    requires modulus > 0 && x < modulus && y < modulus && carry <= 1
  {
    var sum := x + y + carry;
    var value := if sum >= modulus then sum - modulus else sum;
    Outcome(value, Flags(2 * value >= modulus, value == 0, sum >= modulus,
                         ToSigned(x, modulus) + ToSigned(y, modulus) + carry != ToSigned(value, modulus)))
  }

  /** ADD(S) or SUB(S) of two register-sized operands. */
  function Execute(op: Op, x: nat, y: nat): Outcome
    requires x < op.Modulus() && y < op.Modulus()
  {
    if op.sub then AddWithCarry(x, op.Modulus() - 1 - y, 1, op.Modulus()) else AddWithCarry(x, y, 0, op.Modulus())
  }

  // ---------------------------------------------------------------- encoding

  /** operand_valid_for_add_sub_immediate */
  predicate OperandValid(imm: int) {
    var uimm := if imm < 0 then -imm else imm;
    uimm < 4096 || (uimm < 0x100_0000 && uimm / 4096 * 4096 == uimm)
  }

  /** A 32-bit unsigned read as `int`, made positive as `-imm` does: the lowest `int` stays itself,
      which `f` sees as 2^31. */
  function Magnitude(uimm: nat): nat
    requires uimm < U32
  {
    if uimm >= 0x8000_0000 then U32 - uimm else uimm
  }

  /** The choice add_sub_immediate makes: opcode, shift and 12-bit field. */
  function Choose(op: Op, uimm: nat): (Op, nat, nat)
    requires uimm < U32
  {
    var o := if uimm >= 0x8000_0000 then op.Negated() else op;
    var imm := Magnitude(uimm);
    if uimm != 0x8000_0000 && imm >= 2048 && imm / 4096 * 4096 == imm then (o, 1, imm / 4096) else (o, 0, imm)
  }

  function Fields(op: Op, uimm: nat, rd: nat, rn: nat): seq<Field>
    requires uimm < U32
  {
    var (o, shift, imm) := Choose(op, uimm);
    [Field(o.Code(), 31, 29), Field(17, 28, 24), Field(shift, 23, 22), Field(imm, 21, 10), Field(rd, 4, 0),
     Field(rn, 9, 5)]
  }

  /** The guarantee `f` makes of the 12-bit field holds exactly for the valid operands. */
  lemma FitsExact(op: Op, uimm: nat)
    requires uimm < U32
    ensures Choose(op, uimm).2 < 4096 <==> OperandValid(ToSigned(uimm, U32))
  {
  }

  lemma FieldsOk(op: Op, uimm: nat, rd: nat, rn: nat)
    requires uimm < U32 && rd < 32 && rn < 32 && OperandValid(ToSigned(uimm, U32))
    ensures AllOk(Fields(op, uimm, rd, rn)) && PairwiseDisjoint(Fields(op, uimm, rd, rn))
  {
    FitsExact(op, uimm);
    PowValues();
    assert Pow2(12) == 4096;
  }

  /** `add_sub_immediate`; the register numbers are the hardware's. */
  method AddSubImmediate(op: Op, uimm: nat, rd: nat, rn: nat) returns (w: seq<bool>)
    requires uimm < U32 && rd < 32 && rn < 32 && OperandValid(ToSigned(uimm, U32))
    ensures w == Encode(op, uimm, rd, rn)
  {
    hide Instruction.Valid, Assemble, OperandValid;
    FitsExact(op, uimm);
    PowValues();
    assert Pow2(12) == 4096;
    var o, imm, shift := op, ToSigned(uimm, U32), 0;
    if imm < 0 {
      imm, o := -imm, op.Negated();
    }
    if imm >= 2048 && imm / 4096 * 4096 == imm {
      imm, shift := imm / 4096, 1;
    }
    var i := new Instruction();
    i.F(o.Code(), 31, 29);
    i.F(17, 28, 24);
    i.F(shift, 23, 22);
    i.F(imm, 21, 10);
    i.F(rd, 4, 0);
    i.F(rn, 9, 5);
    assert i.fields == Fields(op, uimm, rd, rn);
    w := i.Emit();
  }

  function Encode(op: Op, uimm: nat, rd: nat, rn: nat): (w: seq<bool>)
    requires uimm < U32 && rd < 32 && rn < 32 && OperandValid(ToSigned(uimm, U32))
    ensures |w| == 32
  {
    FieldsOk(op, uimm, rd, rn);
    Assemble(Fields(op, uimm, rd, rn))
  }

  // ---------------------------------------------------------------- meaning

  datatype Decoded = Decoded(op: Op, operand: nat, rd: nat, rn: nat)

  /** Add/subtract (immediate), section C4.1 of the Arm Architecture Reference Manual. */
  function Decode(w: seq<bool>): Option<Decoded>
    requires |w| == 32
  {
    if Extract(w, 28, 24) == 17 && Extract(w, 23, 22) <= 1 then
      Some(Decoded(Op(w[31], w[30], w[29]), Extract(w, 21, 10) * (if Extract(w, 23, 22) == 1 then 4096 else 1),
                   Extract(w, 4, 0), Extract(w, 9, 5)))
    else None
  }

  lemma Reads(op: Op, uimm: nat, rd: nat, rn: nat, k: nat)
    requires uimm < U32 && rd < 32 && rn < 32 && OperandValid(ToSigned(uimm, U32)) && k < 6
    ensures var f := Fields(op, uimm, rd, rn)[k];
            f.lsb <= f.msb < 32 && Extract(Encode(op, uimm, rd, rn), f.msb, f.lsb) == f.val
  {
    hide Assemble, Extract, OperandValid;
    FieldsOk(op, uimm, rd, rn);
    ReadBack(Fields(op, uimm, rd, rn), k);
  }

  /** The word decodes to the operand's absolute value, the opcode negated for negative operands. */
  lemma DecodeEncode(op: Op, uimm: nat, rd: nat, rn: nat)
    requires uimm < U32 && rd < 32 && rn < 32 && OperandValid(ToSigned(uimm, U32))
    ensures Decode(Encode(op, uimm, rd, rn)) ==
            Some(Decoded(if uimm >= 0x8000_0000 then op.Negated() else op, Magnitude(uimm), rd, rn))
  {
    hide Encode, Extract;
    Reads(op, uimm, rd, rn, 0);
    Reads(op, uimm, rd, rn, 1);
    Reads(op, uimm, rd, rn, 2);
    Reads(op, uimm, rd, rn, 3);
    Reads(op, uimm, rd, rn, 4);
    Reads(op, uimm, rd, rn, 5);
    OpBits(Encode(op, uimm, rd, rn), Choose(op, uimm).0);
  }

  lemma OpBits(w: seq<bool>, op: Op)
    requires |w| == 32 && Extract(w, 31, 29) == op.Code()
    ensures Op(w[31], w[30], w[29]) == op
  {
    hide Extract;
    ExtractStep2(w, 31, 29);
    ExtractStep(w, 31, 31);
  }

  lemma CarryIn(x: nat, y: nat, modulus: nat)
    requires modulus > 0 && x < modulus && y + 1 < modulus && (2 * (y + 1) < modulus || 2 * y >= modulus)
    ensures AddWithCarry(x, y, 1, modulus) == AddWithCarry(x, y + 1, 0, modulus)
  {
  }

  /** Value and all four flags are those of the requested operation on the signed operand. */
  lemma NegationKeepsOutcome(op: Op, uimm: nat, x: nat)
    requires uimm < U32 && OperandValid(ToSigned(uimm, U32)) && x < op.Modulus()
    ensures Magnitude(uimm) < op.Modulus()
    ensures Execute(if uimm >= 0x8000_0000 then op.Negated() else op, x, Magnitude(uimm)) ==
            Execute(op, x, ToSigned(uimm, U32) % op.Modulus())
  {
    hide AddWithCarry;
    var imm, m := ToSigned(uimm, U32), op.Modulus();
    if imm < 0 {
      ModUnique(imm, m, -1, imm + m);
      CarryIn(x, -imm - 1, m);
      CarryIn(x, m + imm - 1, m);
    } else {
      ModUnique(imm, m, 0, imm);
    }
  }

  /** Running the emitted word. */
  function Run(w: seq<bool>, x: nat): Option<Outcome>
    requires |w| == 32
  {
    match Decode(w)
    case None => None
    case Some(d) =>
      if x < d.op.Modulus() && d.operand < d.op.Modulus() then Some(Execute(d.op, x, d.operand)) else None
  }

  lemma RunImmediate(op: Op, uimm: nat, rd: nat, rn: nat, x: nat)
    requires uimm < U32 && rd < 32 && rn < 32 && x < op.Modulus()
    requires OperandValid(ToSigned(uimm, U32))
    ensures Run(Encode(op, uimm, rd, rn), x) == Some(Execute(op, x, ToSigned(uimm, U32) % op.Modulus()))
  {
    hide Encode, Decode, Execute, OperandValid;
    DecodeEncode(op, uimm, rd, rn);
    NegationKeepsOutcome(op, uimm, x);
  }
}
