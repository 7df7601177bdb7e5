/** Loads and stores: the addressing modes and their encoding. */
module Addressing {
  import opened Bits
  import opened BitFields
  import opened Instruction

  // ---------------------------------------------------------------- addresses

  datatype Extend = Uxtw | Lsl | Sxtw | Sxtx {
    /** The option field; the same numbers as ext::operation. */
    function Option(): nat {
      match this
      case Uxtw => 2
      case Lsl => 3
      case Sxtw => 6
      case Sxtx => 7
    }
  }

  /** Registers are numbered as the hardware does; 31 is the stack pointer as a base. */
  datatype Address =
    | BaseOffset(base: nat, offset: int)
    | BaseRegister(base: nat, index: nat, ext: Extend, shift: int)
    | PreIndex(base: nat, offset: int)
    | PostIndex(base: nat, offset: int)

  /** The arguments of ld_st2 other than the address. */
  datatype Access = Access(vector: bool, size: nat, op: nat, rt: nat) {
    predicate Ok() {
      size < 4 && op < 4 && rt < 32 && (vector && op >= 2 ==> size == 0)
    }

    /** Log of the access size: 4 for a 128-bit register, else the size field. */
    function Scale(): nat {
      if vector && op >= 2 then 4 else size
    }
  }

  // ---------------------------------------------------------------- encoding

  /** The offset needs the signed 9-bit form: it is negative or not a multiple of the access size. */
  predicate Unscaled(offset: int, scale: nat) {
    offset < 0 || offset % Pow2(scale) != 0
  }

  /** The bit S: whether the index is to be shifted by the scale. */
  predicate ShiftBit(scale: nat, shift: int) {
    if scale == 0 then shift >= 0 else shift > 0
  }

  /** The guarantees and assertions met while encoding. */
  predicate Encodable(acc: Access, a: Address) {
    && acc.Ok()
    && a.base < 32
    && match a
       case BaseOffset(_, offset) =>
         if Unscaled(offset, acc.Scale()) then SignedFits(offset, 9)
         else offset / Pow2(acc.Scale()) % U32 < 4096
       case BaseRegister(_, index, _, shift) =>
         index < 32 && (acc.Scale() > 0 && shift > 0 ==> shift == acc.Scale())
       case PreIndex(_, offset) => SignedFits(offset, 9)
       case PostIndex(_, offset) => SignedFits(offset, 9)
  }

  /** What the switch of Address::encode writes; `f` takes its value as a 32-bit unsigned. */
  function ModeFields(scale: nat, a: Address): seq<Field> {
    match a
    case BaseOffset(_, offset) =>
      if Unscaled(offset, scale) then
        [Field(0, 25, 24), Field(0, 21, 21), Field(0, 11, 10), SignedField(offset, 20, 12)]
      else
        [Field(1, 25, 24), Field(offset / Pow2(scale) % U32, 21, 10)]
    case BaseRegister(_, index, ext, shift) =>
      [Field(0, 25, 24), Field(1, 21, 21), Field(index, 20, 16), Field(ext.Option(), 15, 13),
       Field(Bit(ShiftBit(scale, shift)), 12, 12), Field(2, 11, 10)]
    case PreIndex(_, offset) =>
      [Field(0, 25, 24), Field(0, 21, 21), Field(3, 11, 10), SignedField(offset, 20, 12)]
    case PostIndex(_, offset) =>
      [Field(0, 25, 24), Field(0, 21, 21), Field(1, 11, 10), SignedField(offset, 20, 12)]
  }

  function AccessFields(acc: Access, base: nat): seq<Field> {
    [Field(Bit(acc.vector), 26, 26), Field(acc.rt, 4, 0), Field(acc.size, 31, 30), Field(acc.op, 23, 22),
     Field(7, 29, 27), Field(base, 9, 5)]
  }

  function Fields(acc: Access, a: Address): seq<Field> {
    AccessFields(acc, a.base) + ModeFields(acc.Scale(), a)
  }

  lemma FieldsOk(acc: Access, a: Address)
    requires Encodable(acc, a)
    ensures AllOk(Fields(acc, a)) && PairwiseDisjoint(Fields(acc, a))
  {
    assert AllOk(AccessFields(acc, a.base)) by { PowValues(); }
    assert AllOk(ModeFields(acc.Scale(), a)) by { ModeFieldsOk(acc, a); }
    var fs := Fields(acc, a);
    assert PairwiseDisjoint(fs) by {
      FieldsApart(acc, a);
    }
  }

  lemma ModeFieldsOk(acc: Access, a: Address)
    requires Encodable(acc, a)
    ensures AllOk(ModeFields(acc.Scale(), a))
  {
    hide SignedField, Unscaled;
    PowValues();
    assert Pow2(12) == 4096;
  }

  predicate InModeBits(f: Field) {
    10 <= f.lsb <= f.msb <= 21 || (f.msb == 25 && f.lsb == 24)
  }

  lemma FieldsApart(acc: Access, a: Address)
    ensures PairwiseDisjoint(Fields(acc, a))
  {
    hide SignedField, ModeFields;
    var p, q := AccessFields(acc, a.base), ModeFields(acc.Scale(), a);
    var fs := Fields(acc, a);
    ModeFieldsApart(acc.Scale(), a);
    forall j, k | 0 <= j < k < |fs| ensures Disjoint(fs[j], fs[k]) {
      if k >= 6 {
        assert InModeBits(q[k - 6]);
      }
    }
  }

  lemma ModeFieldsApart(scale: nat, a: Address)
    ensures forall k | 0 <= k < |ModeFields(scale, a)| :: InModeBits(ModeFields(scale, a)[k])
    ensures PairwiseDisjoint(ModeFields(scale, a))
  {
    hide SignedField, Unscaled, ShiftBit;
  }

  function Encode(acc: Access, a: Address): (w: seq<bool>)
    requires Encodable(acc, a)
    ensures |w| == 32
  {
    FieldsOk(acc, a);
    Assemble(Fields(acc, a))
  }

  // ---------------------------------------------------------------- emission

  /** `ld_st2`, with Address::encode reading the access size back from the fields already written. */
  method LoadStore(acc: Access, a: Address) returns (w: seq<bool>)
    requires Encodable(acc, a)
    ensures w == Encode(acc, a)
  {
    hide Instruction.Valid, Assemble, SignedFits, SignedField;
    PowValues();
    var i := new Instruction();
    i.F(Bit(acc.vector), 26, 26);
    i.F(acc.rt, 4, 0);
    i.F(acc.size, 31, 30);
    i.F(acc.op, 23, 22);
    i.F(7, 29, 27);
    i.F(a.base, 9, 5);
    assert i.fields == AccessFields(acc, a.base);
    var scale := ReadScale(i, acc);
    EncodeMode(i, scale, acc, a);
    w := i.Emit();
  }

  /** The operand size as Address::encode finds it. */
  method ReadScale(i: Instruction, acc: Access) returns (scale: nat)
    requires i.Valid() && |i.fields| == 6 && i.fields == AccessFields(acc, i.fields[5].val) && acc.Ok()
    requires |i.bits| == 32 && i.bits[31] && i.bits[30] && i.bits[26] && i.bits[23]
    ensures scale == acc.Scale()
  {
    hide Instruction.Valid, Assemble, Extract, PairwiseDisjoint;
    scale := i.Get(31, 30);
    assert scale == acc.size by { assert i.fields[2].val == acc.size; }
    var v := i.Get(26, 26);
    assert v == Bit(acc.vector) by { assert i.fields[0].val == Bit(acc.vector); }
    var q := i.Get(23, 23);
    TopBit(i.fields, acc);
    if v != 0 && q != 0 {
      scale := 4;
    }
  }

  lemma TopBit(fs: seq<Field>, acc: Access)
    requires AllOk(fs) && PairwiseDisjoint(fs) && |fs| == 6 && fs == AccessFields(acc, fs[5].val)
    ensures Extract(Assemble(fs), 23, 23) == Bit(acc.op >= 2)
  {
    hide Assemble, Extract;
    var w := Assemble(fs);
    ReadBack(fs, 3);
    ExtractStep2(w, 23, 22);
    ExtractStep(w, 23, 23);
  }

  method EncodeMode(i: Instruction, scale: nat, acc: Access, a: Address)
    requires i.Valid() && Encodable(acc, a) && scale == acc.Scale()
    requires |i.bits| == 32 && forall k | 0 <= k < 32 :: i.bits[k] <==> !(10 <= k <= 21 || 24 <= k <= 25)
    modifies i
    ensures i.Valid() && i.fields == old(i.fields) + ModeFields(scale, a)
    ensures |i.bits| == 32 && forall k | 0 <= k < 32 :: i.bits[k]
  {
    hide Instruction.Valid, Assemble, SignedFits, SignedField, Unscaled;
    PowValues();
    assert Pow2(12) == 4096;
    match a {
      case BaseOffset(_, offset) =>
        if Unscaled(offset, scale) {
          EncodeSigned(i, 0, offset);
        } else {
          i.F(1, 25, 24);
          i.F(offset / Pow2(scale) % U32, 21, 10);
        }
      case BaseRegister(_, index, ext, shift) =>
        i.F(0, 25, 24);
        i.F(1, 21, 21);
        i.F(index, 20, 16);
        i.F(ext.Option(), 15, 13);
        i.F(Bit(ShiftBit(scale, shift)), 12, 12);
        i.F(2, 11, 10);
      case PreIndex(_, offset) =>
        EncodeSigned(i, 3, offset);
      case PostIndex(_, offset) =>
        EncodeSigned(i, 1, offset);
    }
  }

  /** The three forms with a signed 9-bit offset. */
  method EncodeSigned(i: Instruction, form: nat, offset: int)
    requires i.Valid() && form < 4 && SignedFits(offset, 9)
    requires |i.bits| == 32 && forall k | 0 <= k < 32 :: i.bits[k] <==> !(10 <= k <= 21 || 24 <= k <= 25)
    modifies i
    ensures i.Valid()
    ensures i.fields == old(i.fields)
                        + [Field(0, 25, 24), Field(0, 21, 21), Field(form, 11, 10), SignedField(offset, 20, 12)]
    ensures |i.bits| == 32 && forall k | 0 <= k < 32 :: i.bits[k]
  {
    hide Instruction.Valid, Assemble, SignedFits, SignedField;
    PowValues();
    i.F(0, 25, 24);
    i.F(0, 21, 21);
    i.F(form, 11, 10);
    i.Sf(offset, 20, 12);
  }
}
