/** `Address::lea` for the base-plus-offset and base-plus-register modes. */
module Lea {
  import opened Bits
  import opened Wrappers
  import opened AddSub
  import BitFields
  import Addressing
  import AddressDecode

  /** The instructions wrap_add_sub_imm_insn emits, run on `x`; None where a guarantee fails. */
  function WrapAddSub(sub: bool, x: nat, imm: nat): Option<nat>
    requires x < WORD && imm < U32
  {
    var simm := ToSigned(imm, U32);
    if OperandValid(simm) then
      Immediate(sub, x, imm)
    else if -0x100_0000 < simm < 0x100_0000 then
      var first := Immediate(sub, x, imm - imm % 4096);
      if first.None? then None else Immediate(sub, first.value, imm % 4096)
    else Some(Execute(Op(true, sub, false), x, imm).value)
  }

  /** One add or sub immediate, through its encoding. */
  function Immediate(sub: bool, x: nat, uimm: nat): (r: Option<nat>)
    requires x < WORD && uimm < U32
    ensures r == if OperandValid(ToSigned(uimm, U32))
                 then Some(Execute(Op(true, sub, false), x, ToSigned(uimm, U32) % WORD).value) else None
    ensures r.Some? ==> r.value < WORD
  {
    if OperandValid(ToSigned(uimm, U32)) then
      RunImmediate(Op(true, sub, false), uimm, 0, 1, x);
      Some(Run(Encode(Op(true, sub, false), uimm, 0, 1), x).value.value)
    else None
  }

  /** base_plus_offset, to a register other than the base unless the offset is 0. */
  function LeaOffset(x: nat, offset: int): Option<nat>
    requires x < WORD
  {
    if offset > 0 then WrapAddSub(false, x, offset % U32) else WrapAddSub(true, x, -offset % U32)
  }

  lemma SumValue(sub: bool, x: nat, y: nat)
    requires x < WORD && y < WORD
    ensures Execute(Op(true, sub, false), x, y).value == (if sub then x - y else x + y) % WORD
  {
  }

  lemma ModAddMod(x: int, y: int)
    ensures (x + y % WORD) % WORD == (x + y) % WORD
    ensures (x - y % WORD) % WORD == (x - y) % WORD
    ensures (x % WORD + y) % WORD == (x + y) % WORD
  {
    SameClass(x + y % WORD, x + y, -(y / WORD));
    SameClass(x - y % WORD, x - y, y / WORD);
    SameClass(x % WORD + y, x + y, -(x / WORD));
  }

  lemma SameClass(x: int, y: int, q: int)
    requires x == y + q * WORD
    ensures x % WORD == y % WORD
  {
  }

  lemma ImmediateValue(sub: bool, x: nat, uimm: nat)
    requires x < WORD && uimm < U32 && OperandValid(ToSigned(uimm, U32))
    ensures Immediate(sub, x, uimm) ==
            Some((if sub then x - ToSigned(uimm, U32) else x + ToSigned(uimm, U32)) % WORD)
  {
    hide Execute, OperandValid;
    SumValue(sub, x, ToSigned(uimm, U32) % WORD);
    ModAddMod(x, ToSigned(uimm, U32));
  }

  /** The wrapper adds the operand read as a signed number when it is short, as an unsigned one
      when it is long, and cannot split the operands just above -2^24. */
  lemma WrapValue(sub: bool, x: nat, imm: nat)
    requires x < WORD && imm < U32
    ensures WrapAddSub(sub, x, imm) ==
            var simm := ToSigned(imm, U32);
            if -0x100_0000 < simm < -0xFF_F000 then None
            else
              var y := if -0x100_0000 < simm < 0x100_0000 then simm else imm;
              Some((if sub then x - y else x + y) % WORD)
  {
    hide Execute, Immediate;
    var simm := ToSigned(imm, U32);
    if OperandValid(simm) {
      ImmediateValue(sub, x, imm);
    } else if -0x100_0000 < simm < 0x100_0000 {
      SplitOperand(imm);
      var hi, lo := imm - imm % 4096, imm % 4096;
      if simm >= -0xFF_F000 {
        ImmediateValue(sub, x, hi);
        var first := Immediate(sub, x, hi).value;
        ImmediateValue(sub, first, lo);
        ModAddMod(if sub then x - ToSigned(hi, U32) else x + ToSigned(hi, U32), if sub then -lo else lo);
      }
    } else {
      SumValue(sub, x, imm);
    }
  }

  lemma SplitOperand(imm: nat)
    requires imm < U32 && -0x100_0000 < ToSigned(imm, U32) < 0x100_0000
    ensures OperandValid(ToSigned(imm % 4096, U32)) && ToSigned(imm % 4096, U32) == imm % 4096
    ensures ToSigned(imm - imm % 4096, U32) == ToSigned(imm, U32) - imm % 4096
    ensures OperandValid(ToSigned(imm - imm % 4096, U32)) <==> ToSigned(imm, U32) >= -0xFF_F000
  {
  }

  lemma TruncateU32(offset: nat)
    ensures offset % U32 < U32 && (offset % U32 == offset <==> offset < U32)
    ensures offset < WORD && offset % U32 != offset ==>
              0 < offset - offset % U32 < WORD && (offset - offset % U32) % WORD != 0
  {
  }

  /** Two sums agree modulo 2^64 only when their difference is a multiple of 2^64. */
  lemma SameSum(x: int, y: int, z: int)
    requires y - z < WORD && z - y < WORD
    ensures (x + y) % WORD == (x + z) % WORD <==> y == z
  {
  }

  /** `lea` computes base plus offset exactly for the offsets up to 2^32 - 2^24 either way. */
  lemma LeaExact(x: nat, offset: int)
    requires x < WORD && -0x8000_0000_0000_0000 <= offset < 0x8000_0000_0000_0000
    ensures LeaOffset(x, offset) == Some((x + offset) % WORD) <==> -0xFF00_0000 <= offset <= 0xFF00_0000
  {
    hide WrapAddSub;
    var size := if offset > 0 then offset else -offset;
    var imm := size % U32;
    TruncateU32(size);
    WrapValue(offset <= 0, x, imm);
    var simm := ToSigned(imm, U32);
    var y := if -0x100_0000 < simm < 0x100_0000 then simm else imm;
    SameSum(x, if offset > 0 then y else -y, offset);
  }

  // ---------------------------------------------------------------- loads and stores against lea

  /** The extended index of sections C1.3.3 and C6.2.4 of the Arm Architecture Reference Manual. */
  function ExtendValue(option: nat, v: nat): int {
    if option == 2 then v % U32
    else if option == 6 then ToSigned(v % U32, U32)
    else v
  }

  /** The address a decoded load or store accesses, given the values of base and index. */
  function EffectiveAddress(m: AddressDecode.Mode, xb: nat, xi: nat): nat {
    match m
    case Offset(_, imm) => (xb + imm) % WORD
    case Pre(_, imm) => (xb + imm) % WORD
    case Post(_, _) => xb % WORD
    case Register(_, _, option, amount) => (xb + ExtendValue(option, xi) * Pow2(amount)) % WORD
  }

  /** base_plus_offset_reg: the extended-register add, with a missing shift taken as 0. */
  function LeaRegister(ext: Addressing.Extend, shift: int, xb: nat, xi: nat): nat {
    (xb + ExtendValue(ext.Option(), xi) * Pow2(if shift > 0 then shift else 0)) % WORD
  }

  /** Address::offset_ok_for_immed */
  predicate OffsetOk(offset: int, scale: nat) {
    if Addressing.Unscaled(offset, scale) then (if offset < 0 then -offset else offset) < 256
    else offset / Pow2(scale) < 4096
  }

  /** offset_ok_for_immed accepts every offset the encoding keeps, except -256. */
  lemma OffsetOkExact(acc: Addressing.Access, base: nat, offset: int)
    requires acc.Ok() && base < 32
    ensures var a := Addressing.BaseOffset(base, offset);
            Addressing.Encodable(acc, a) && AddressDecode.Encoded(acc.Scale(), a) == AddressDecode.Offset(base, offset)
            <==> OffsetOk(offset, acc.Scale()) || offset == -256
  {
    var scale := acc.Scale();
    var p := Pow2(scale);
    if Addressing.Unscaled(offset, scale) {
      BitFields.SignedFitsExact(offset, 9);
      assert Pow2(8) == 256;
    } else {
      var q := offset / p;
      ScaledKept(q, p);
      assert offset == q * p;
    }
  }

  /** The multiples of the access size that are accepted and then truncated: from 2^32 accesses on, those whose
      number of accesses is below 4096 in its low 32 bits. */
  lemma TruncatedExactly(acc: Addressing.Access, base: nat, offset: int)
    requires acc.Ok() && base < 32
    ensures var a := Addressing.BaseOffset(base, offset);
            Addressing.Encodable(acc, a) && AddressDecode.Encoded(acc.Scale(), a) != AddressDecode.Offset(base, offset)
            <==> var q := offset / Pow2(acc.Scale());
                 !Addressing.Unscaled(offset, acc.Scale()) && q >= U32 && q % U32 < 4096
  {
    hide Pow2, BitFields.SignedFits;
    var p := Pow2(acc.Scale());
    if !Addressing.Unscaled(offset, acc.Scale()) {
      var q := offset / p;
      ScaledKept(q, p);
      assert offset == q * p;
    }
  }

  /** An 8-byte load 2^35 bytes past its base is encoded as a load at its base. */
  lemma TruncatedExample()
    ensures var acc, a := Addressing.Access(false, 3, 1, 0), Addressing.BaseOffset(0, 8 * U32);
            Addressing.Encodable(acc, a) && AddressDecode.Encoded(acc.Scale(), a) == AddressDecode.Offset(0, 0)
  {
    assert Pow2(3) == 8;
  }

  lemma ScaledKept(q: nat, p: nat)
    requires p > 0
    ensures q % U32 < 4096 && q % U32 * p == q * p <==> q < 4096
  {
  }

  /** Every accepted offset is loaded from where `lea` points, which is base plus offset. */
  lemma OffsetAgrees(acc: Addressing.Access, base: nat, offset: int, xb: nat, xi: nat)
    requires acc.Ok() && base < 32 && xb < WORD && OffsetOk(offset, acc.Scale())
    ensures var a := Addressing.BaseOffset(base, offset);
            && Addressing.Encodable(acc, a)
            && AddressDecode.Decode(Addressing.Encode(acc, a)) == Some((acc, AddressDecode.Offset(base, offset)))
            && EffectiveAddress(AddressDecode.Offset(base, offset), xb, xi) == (xb + offset) % WORD
            && LeaOffset(xb, offset) == Some((xb + offset) % WORD)
  {
    hide Addressing.Encode, AddressDecode.Decode, LeaOffset;
    OffsetOkExact(acc, base, offset);
    AddressDecode.DecodeEncode(acc, Addressing.BaseOffset(base, offset));
    OffsetSmall(offset, acc.Scale());
    LeaExact(xb, offset);
  }

  lemma OffsetSmall(offset: int, scale: nat)
    requires OffsetOk(offset, scale) && scale <= 4
    ensures -256 < offset < 0x1_0000
  {
  }

  /** What an extension makes of the index: its low 32 bits, unsigned or signed, or all of it. */
  function Indexed(ext: Addressing.Extend, xi: nat): int {
    match ext
    case Uxtw => xi % U32
    case Sxtw => if xi % U32 < 0x8000_0000 then xi % U32 else xi % U32 - U32
    case Lsl => xi
    case Sxtx => xi
  }

  /** A load or store of base plus register accesses the base plus the extended index, shifted as asked but
      for byte accesses; `lea` computes the base plus the extended index, shifted as asked. */
  lemma IndexedAddress(acc: Addressing.Access, a: Addressing.Address, xb: nat, xi: nat)
    requires Addressing.Encodable(acc, a) && a.BaseRegister?
    ensures AddressDecode.Decode(Addressing.Encode(acc, a)).Some?
    ensures var m := AddressDecode.Decode(Addressing.Encode(acc, a)).value.1;
            && m.Register? && m.base == a.base && m.index == a.index
            && EffectiveAddress(m, xb, xi) ==
                 (xb + Indexed(a.ext, xi) * Pow2(if acc.Scale() > 0 && a.shift > 0 then a.shift else 0)) % WORD
    ensures LeaRegister(a.ext, a.shift, xb, xi) ==
              (xb + Indexed(a.ext, xi) * Pow2(if a.shift > 0 then a.shift else 0)) % WORD
  {
    hide Addressing.Encode, AddressDecode.Decode;
    AddressDecode.DecodeEncode(acc, a);
    assert ExtendValue(a.ext.Option(), xi) == Indexed(a.ext, xi);
  }

  /** The base-plus-register form accesses what `lea` computes unless a byte access asks for a
      shifted index: the word's shift bit then shifts by 0. */
  lemma RegisterAgreesExact(acc: Addressing.Access, a: Addressing.Address, xb: nat)
    requires Addressing.Encodable(acc, a) && a.BaseRegister? && a.shift <= 4 && xb < WORD
    ensures AddressDecode.Decode(Addressing.Encode(acc, a)).Some?
    ensures var m := AddressDecode.Decode(Addressing.Encode(acc, a)).value.1;
            (forall xi: nat :: EffectiveAddress(m, xb, xi) == LeaRegister(a.ext, a.shift, xb, xi))
            <==> (acc.Scale() == 0 ==> a.shift <= 0)
  {
    hide Addressing.Encode, AddressDecode.Decode;
    AddressDecode.DecodeEncode(acc, a);
    var m := AddressDecode.Encoded(acc.Scale(), a);
    if acc.Scale() == 0 && a.shift > 0 {
      assert EffectiveAddress(m, xb, 1) == (xb + 1) % WORD;
      assert LeaRegister(a.ext, a.shift, xb, 1) == (xb + Pow2(a.shift)) % WORD;
      Pow2Monotonic(a.shift, 4);
      Pow2Monotonic(1, a.shift);
      PowValues();
      SameSum(xb, 1, Pow2(a.shift));
    }
  }
}
