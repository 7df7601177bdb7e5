/** Load and store pair: `ld_st1` with Address::encode_pair or encode_nontemporal_pair. */
module Pairs {
  import opened Bits
  import opened BitFields
  import opened Instruction
  import opened Wrappers

  datatype Form = NonTemporal | Post | Offset | Pre {
    /** Bits 25 to 23. */
    function Code(): nat {
      match this
      case NonTemporal => 0
      case Post => 1
      case Offset => 2
      case Pre => 3
    }
  }

  datatype Pair = Pair(opc: nat, vector: bool, load: bool, rt1: nat, rt2: nat, form: Form, base: nat) {
    predicate Ok() {
      && opc < 4 && rt1 < 32 && rt2 < 32 && base < 32
      && (vector ==> opc < 3 && !form.NonTemporal?)
    }

    /** Bytes per register: bit 31 decides for general registers. */
    function Size(): (n: nat)
      ensures n > 0
    {
      4 * Pow2(if vector then opc else opc / 2)
    }
  }

  /** The offset is a multiple of the size and the quotient fits the signed field. */
  predicate Encodable(p: Pair, offset: int) {
    p.Ok() && offset % p.Size() == 0 && SignedFits(offset / p.Size(), 7)
  }

  function Fields(p: Pair, offset: int): seq<Field> {
    HeadFields(p) +
    [Field(p.form.Code(), 25, 23), SignedField(offset / p.Size(), 21, 15), Field(p.base, 9, 5)]
  }

  function HeadFields(p: Pair): seq<Field> {
    [Field(p.opc, 31, 30), Field(5, 29, 27), Field(Bit(p.vector), 26, 26), Field(Bit(p.load), 22, 22),
     Field(p.rt2, 14, 10), Field(p.rt1, 4, 0)]
  }

  lemma FieldsOk(p: Pair, offset: int)
    requires p.Ok()
    ensures AllOk(Fields(p, offset)) && PairwiseDisjoint(Fields(p, offset))
  {
    hide SignedField;
    PowValues();
  }

  function Encode(p: Pair, offset: int): (w: seq<bool>)
    requires p.Ok()
    ensures |w| == 32
  {
    FieldsOk(p, offset);
    Assemble(Fields(p, offset))
  }

  method LoadStorePair(p: Pair, offset: int) returns (w: seq<bool>)
    requires Encodable(p, offset)
    ensures w == Encode(p, offset)
  {
    hide Instruction.Valid, Assemble, SignedFits, SignedField;
    PowValues();
    var i := new Instruction();
    i.F(p.opc, 31, 30);
    i.F(5, 29, 27);
    i.F(Bit(p.vector), 26, 26);
    i.F(Bit(p.load), 22, 22);
    i.F(p.rt2, 14, 10);
    i.F(p.rt1, 4, 0);
    assert i.fields == HeadFields(p);
    EncodePair(i, p, offset);
    w := i.Emit();
  }

  /** encode_pair and encode_nontemporal_pair */
  method EncodePair(i: Instruction, p: Pair, offset: int)
    requires i.Valid() && i.fields == HeadFields(p) && Encodable(p, offset)
    requires |i.bits| == 32 && forall k | 0 <= k < 32 :: i.bits[k] <==> !(5 <= k <= 9 || 15 <= k <= 21 || 23 <= k <= 25)
    modifies i
    ensures i.Valid() && i.fields == Fields(p, offset)
    ensures |i.bits| == 32 && forall k | 0 <= k < 32 :: i.bits[k]
  {
    hide Instruction.Valid, Assemble, SignedFits, SignedField;
    PowValues();
    i.F(p.form.Code(), 25, 23);
    var size := ReadSize(i, p);
    i.Sf(offset / size, 21, 15);
    i.F(p.base, 9, 5);
  }

  /** The operand size, read back from the fields already written. */
  method ReadSize(i: Instruction, p: Pair) returns (size: nat)
    requires i.Valid() && p.Ok() && |i.fields| >= 6 && i.fields[..6] == HeadFields(p)
    requires |i.bits| == 32 && i.bits[31] && i.bits[30] && i.bits[26]
    ensures size == p.Size()
  {
    hide Instruction.Valid, Assemble, Extract, PairwiseDisjoint;
    var v := i.Get(26, 26);
    assert v == Bit(p.vector) by { assert i.fields[..6][2] == HeadFields(p)[2]; }
    if v != 0 {
      var opc := i.Get(31, 30);
      assert opc == p.opc by { assert i.fields[..6][0] == HeadFields(p)[0]; }
      size := 4 * Pow2(opc);
    } else {
      var top := i.Get(31, 31);
      assert i.fields[0] == HeadFields(p)[0] by { assert i.fields[..6][0] == HeadFields(p)[0]; }
      ReadBack(i.fields, 0);
      ExtractStep2(Assemble(i.fields), 31, 30);
      ExtractStep(Assemble(i.fields), 31, 31);
      size := 4 * Pow2(top);
    }
  }

  /** Load/store register pair, section C4.1 of the Arm Architecture Reference Manual (DDI 0487). */
  function Decode(w: seq<bool>): Option<(Pair, int)>
    requires |w| == 32
  {
    var form := Extract(w, 25, 23);
    if Extract(w, 29, 27) != 5 || form > 3 then None
    else
      var p := Pair(Extract(w, 31, 30), w[26], w[22], Extract(w, 4, 0), Extract(w, 14, 10),
                    if form == 0 then NonTemporal else if form == 1 then Post else if form == 2 then Offset else Pre,
                    Extract(w, 9, 5));
      // 4, 8 or 16 bytes by opc for SIMD&FP registers, 4 or 8 by its top bit otherwise
      var size := if w[26] then [4, 8, 16, 0][Extract(w, 31, 30) % 4] else if w[31] then 8 else 4;
      Some((p, SExtract(w, 21, 15) * size))
  }

  lemma Reads(p: Pair, offset: int, k: nat)
    requires p.Ok() && k < 9
    ensures var f := Fields(p, offset)[k]; f.lsb <= f.msb < 32 && Extract(Encode(p, offset), f.msb, f.lsb) == f.val
  {
    hide Assemble, Extract;
    FieldsOk(p, offset);
    ReadBack(Fields(p, offset), k);
  }

  lemma DecodeEncode(p: Pair, offset: int)
    requires Encodable(p, offset)
    ensures Decode(Encode(p, offset)) == Some((p, offset))
  {
    hide Encode, Extract, SignedFits;
    var w := Encode(p, offset);
    forall k | 0 <= k < 9
      ensures var f := Fields(p, offset)[k]; f.lsb <= f.msb < 32 && Extract(w, f.msb, f.lsb) == f.val
    {
      Reads(p, offset, k);
    }
    var fs := Fields(p, offset);
    assert fs[0].val == p.opc && fs[1].val == 5 && fs[4].val == p.rt2 && fs[5].val == p.rt1;
    assert fs[6].val == p.form.Code() && fs[8].val == p.base;
    assert fs[2].val == Bit(p.vector) && fs[3].val == Bit(p.load);
    BitReads(w, 26, p.vector);
    BitReads(w, 22, p.load);
    assert SExtract(w, 21, 15) == offset / p.Size() by {
      assert fs[7] == SignedField(offset / p.Size(), 21, 15);
      SignedRoundTrip(offset / p.Size(), 7);
    }
    assert (w[31] <==> p.opc >= 2) && Extract(w, 31, 30) == p.opc by { ExtractStep2(w, 31, 30); }
    SizeValue(p, w[31]);
  }

  lemma SizeValue(p: Pair, top: bool)
    requires p.Ok() && (top <==> p.opc >= 2)
    ensures p.Size() == if p.vector then [4, 8, 16, 0][p.opc % 4] else if top then 8 else 4
  {
    PowValues();
  }
}
