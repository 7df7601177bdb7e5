/** The architecture's reading of a load or store, and the agreement with the address requested. */
module AddressDecode {
  import opened Bits
  import opened BitFields
  import opened Instruction
  import opened Addressing
  import opened Wrappers

  datatype Mode =
    | Offset(base: nat, imm: int)
    | Pre(base: nat, imm: int)
    | Post(base: nat, imm: int)
    | Register(base: nat, index: nat, option: nat, amount: nat)

  /** Load/store register: section C4.1 of the Arm Architecture Reference Manual (DDI 0487). */
  function Decode(w: seq<bool>): Option<(Access, Mode)>
    requires |w| == 32
  {
    var acc := Access(w[26], Extract(w, 31, 30), Extract(w, 23, 22), Extract(w, 4, 0));
    var base, form := Extract(w, 9, 5), Extract(w, 11, 10);
    // SIMD&FP accesses take a third bit of the size from opc
    var scale := Extract(w, 31, 30) + if w[26] && w[23] then 4 else 0;
    if Extract(w, 29, 27) != 7 then
      None
    else if Extract(w, 25, 24) == 1 then
      Some((acc, Offset(base, Extract(w, 21, 10) * Pow2(scale))))
    else if Extract(w, 25, 24) != 0 then
      None
    else if w[21] then
      if form != 2 then None
      else Some((acc, Register(base, Extract(w, 20, 16), Extract(w, 15, 13), if w[12] then scale else 0)))
    else if form == 0 then
      Some((acc, Offset(base, SExtract(w, 20, 12))))
    else if form == 1 then
      Some((acc, Post(base, SExtract(w, 20, 12))))
    else if form == 3 then
      Some((acc, Pre(base, SExtract(w, 20, 12))))
    else
      None
  }

  /** What the encoded word says, with the truncation to 32 bits that `f` makes. */
  function Encoded(scale: nat, a: Address): Mode {
    match a
    case BaseOffset(base, offset) =>
      Offset(base, if Unscaled(offset, scale) then offset else offset / Pow2(scale) % U32 * Pow2(scale))
    case BaseRegister(base, index, ext, shift) =>
      Register(base, index, ext.Option(), if ShiftBit(scale, shift) then scale else 0)
    case PreIndex(base, offset) => Pre(base, offset)
    case PostIndex(base, offset) => Post(base, offset)
  }

  lemma Reads(acc: Access, a: Address, k: nat)
    requires Encodable(acc, a) && k < |Fields(acc, a)|
    ensures Fields(acc, a)[k].Ok()
    ensures Extract(Encode(acc, a), Fields(acc, a)[k].msb, Fields(acc, a)[k].lsb) == Fields(acc, a)[k].val
  {
    hide Fields, Assemble, Extract;
    FieldsOk(acc, a);
    ReadBack(Fields(acc, a), k);
  }

  lemma ReadsMode(acc: Access, a: Address, k: nat)
    requires Encodable(acc, a) && k < |ModeFields(acc.Scale(), a)|
    ensures var f := ModeFields(acc.Scale(), a)[k];
            f.lsb <= f.msb < 32 && Extract(Encode(acc, a), f.msb, f.lsb) == f.val
  {
    hide Assemble, Extract, Encode, ModeFields, Encodable;
    Reads(acc, a, 6 + k);
    assert Fields(acc, a)[6 + k] == ModeFields(acc.Scale(), a)[k];
  }

  /** The fields every form shares. */
  lemma ReadsAccess(acc: Access, a: Address)
    requires Encodable(acc, a)
    ensures var w := Encode(acc, a);
            && w[26] == acc.vector && Extract(w, 31, 30) == acc.size && Extract(w, 23, 22) == acc.op
            && Extract(w, 4, 0) == acc.rt && Extract(w, 9, 5) == a.base && Extract(w, 29, 27) == 7
            && w[23] == (acc.op >= 2)
  {
    hide Encode, Extract, ModeFields, Encodable;
    forall k | 0 <= k < 6
      ensures var f := AccessFields(acc, a.base)[k];
              f.lsb <= f.msb < 32 && Extract(Encode(acc, a), f.msb, f.lsb) == f.val
    {
      Reads(acc, a, k);
      assert Fields(acc, a)[k] == AccessFields(acc, a.base)[k];
    }
    var p := AccessFields(acc, a.base);
    assert p[0] == Field(Bit(acc.vector), 26, 26) && p[1] == Field(acc.rt, 4, 0) && p[2] == Field(acc.size, 31, 30)
           && p[3] == Field(acc.op, 23, 22) && p[4] == Field(7, 29, 27) && p[5] == Field(a.base, 9, 5);
    BitReads(Encode(acc, a), 26, acc.vector);
    ExtractStep2(Encode(acc, a), 23, 22);
  }

  lemma ReadsSigned(acc: Access, a: Address, form: nat, offset: int)
    requires Encodable(acc, a) && SignedFits(offset, 9)
    requires ModeFields(acc.Scale(), a) ==
             [Field(0, 25, 24), Field(0, 21, 21), Field(form, 11, 10), SignedField(offset, 20, 12)]
    ensures var w := Encode(acc, a);
            Extract(w, 25, 24) == 0 && !w[21] && Extract(w, 11, 10) == form && SExtract(w, 20, 12) == offset
  {
    hide Encode, Extract, Encodable, SignedFits, ModeFields;
    ReadsMode(acc, a, 0);
    ReadsMode(acc, a, 1);
    ReadsMode(acc, a, 2);
    ReadsMode(acc, a, 3);
    BitReads(Encode(acc, a), 21, false);
    SignedRoundTrip(offset, 9);
  }

  lemma ReadsUnsigned(acc: Access, a: Address)
    requires Encodable(acc, a) && a.BaseOffset? && !Unscaled(a.offset, acc.Scale())
    ensures var w := Encode(acc, a);
            Extract(w, 25, 24) == 1 && Extract(w, 21, 10) == a.offset / Pow2(acc.Scale()) % U32
  {
    hide Encode, Extract, Encodable, Unscaled;
    ReadsMode(acc, a, 0);
    ReadsMode(acc, a, 1);
  }

  lemma ReadsRegister(acc: Access, a: Address)
    requires Encodable(acc, a) && a.BaseRegister?
    ensures var w := Encode(acc, a);
            && Extract(w, 25, 24) == 0 && w[21] && Extract(w, 11, 10) == 2
            && Extract(w, 20, 16) == a.index && Extract(w, 15, 13) == a.ext.Option()
            && w[12] == ShiftBit(acc.Scale(), a.shift)
  {
    hide Encode, Extract, Encodable, ShiftBit;
    ReadsMode(acc, a, 0);
    ReadsMode(acc, a, 1);
    ReadsMode(acc, a, 2);
    ReadsMode(acc, a, 3);
    ReadsMode(acc, a, 4);
    ReadsMode(acc, a, 5);
    BitReads(Encode(acc, a), 21, true);
    BitReads(Encode(acc, a), 12, ShiftBit(acc.Scale(), a.shift));
  }

  lemma DecodeEncode(acc: Access, a: Address)
    requires Encodable(acc, a)
    ensures Decode(Encode(acc, a)) == Some((acc, Encoded(acc.Scale(), a)))
  {
    hide Encode, Extract, SExtract, SignedField, SignedFits;
    ReadsAccess(acc, a);
    match a {
      case BaseOffset(_, offset) =>
        if Unscaled(offset, acc.Scale()) {
          ReadsSigned(acc, a, 0, offset);
        } else {
          ReadsUnsigned(acc, a);
        }
      case BaseRegister(_, _, _, _) => ReadsRegister(acc, a);
      case PreIndex(_, offset) => ReadsSigned(acc, a, 3, offset);
      case PostIndex(_, offset) => ReadsSigned(acc, a, 1, offset);
    }
  }
}
