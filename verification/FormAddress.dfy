/** `form_address`: an address for any byte offset, within reach of one load or store. */
module FormAddress {
  import opened Bits
  import opened Wrappers
  import opened AddSub
  import opened Lea
  import Addressing

  /** The base as it is, the base plus a constant added with an immediate, or plus a moved constant;
      and the offset left for the access. */
  datatype Formed = Direct(offset: int) | Added(constant: int, offset: int) | Moved(constant: int, offset: int)

  function Form(offset: int, shift: nat): Formed {
    if OffsetOk(offset, shift) then Direct(offset)
    else if Addressing.Unscaled(offset, shift) then Moved(offset, 0)
    else
      var word := offset / Pow2(shift);
      var masked := word / 4096 % 4096 * 4096;
      if OffsetOk(word - masked, 0) && OperandValid(masked * Pow2(shift)) then
        Added(masked * Pow2(shift), (word - masked) * Pow2(shift))
      else Moved(offset, 0)
  }

  /** The register the access goes through, given the base; `same` says that the base register is
      also the destination, which the moved form overwrites before it adds. */
  function Register(f: Formed, same: bool, xb: nat): Option<nat>
    requires xb < WORD
  {
    match f
    case Direct(_) => Some(xb)
    case Added(constant, _) => WrapAddSub(false, xb, constant % U32)
    case Moved(constant, _) =>
      var moved := constant % WORD;
      Some((if same then moved + moved else xb + moved) % WORD)
  }

  /** A word access 300 bytes below a base that is also the destination, and holds 0: the register ends at
      -600 and not -300. */
  lemma DoubledExample()
    ensures var f := Form(-300, 3);
            f.Moved? && f.offset == 0 && Register(f, true, 0) == Some(WORD - 600) != Some((0 + -300) % WORD)
  {
  }

  /** Which form is taken: none of the registers changes for an offset the access can hold; the constant is
      moved for other negative or unaligned offsets and from 16 MB on. */
  lemma FormExactly(offset: int, shift: nat)
    requires shift <= 4
    ensures Form(offset, shift).Direct? <==> OffsetOk(offset, shift)
    ensures Form(offset, shift).Moved? <==>
            !OffsetOk(offset, shift) && (offset < 0 || offset % Pow2(shift) != 0 || offset >= 0x100_0000)
  {
    hide Pow2;
    PowValues();
    if offset >= 0 && offset % Pow2(shift) == 0 {
      AddedRange(offset, offset / Pow2(shift), Pow2(shift));
    }
  }

  /** The part above the low twelve bits of words is an immediate exactly below 16 MB. */
  lemma AddedRange(offset: nat, word: nat, p: nat)
    requires p in {1, 2, 4, 8, 16} && offset == word * p
    ensures var masked := word / 4096 % 4096 * 4096;
            word - masked >= 0 && (word - masked < 4096 && OperandValid(masked * p) <==> offset < 0x100_0000)
  {
    hide OperandValid;
    var q, r := word / 4096, word % 4096;
    var k := q % 4096;
    assert word == 4096 * q + r && word - k * 4096 == 4096 * (q - k) + r;
    PageMultiple(k * p);
    assert k * 4096 * p == 4096 * (k * p);
    if p == 1 {
      assert offset == word;
    } else if p == 2 {
      assert offset == 2 * word;
    } else if p == 4 {
      assert offset == 4 * word;
    } else if p == 8 {
      assert offset == 8 * word;
    } else {
      assert offset == 16 * word;
    }
  }

  lemma PageMultiple(k: nat)
    ensures OperandValid(4096 * k) <==> k < 4096
  {
  }

  /** What is left for the access always fits it, and the formed address is base plus offset exactly
      when the destination is another register than the base, or the constant need not be moved, or
      the base happens to hold the offset. */
  lemma FormedExactly(offset: int, shift: nat, same: bool, xb: nat)
    requires shift <= 4 && xb < WORD
    ensures var f := Form(offset, shift);
            && Register(f, same, xb).Some?
            && OffsetOk(f.offset, shift)
            && ((Register(f, same, xb).value + f.offset) % WORD == (xb + offset) % WORD
                <==> !(same && f.Moved?) || xb == offset % WORD)
  {
    hide OffsetOk, WrapAddSub, OperandValid, Addressing.Unscaled, Pow2;
    var f := Form(offset, shift);
    match f {
      case Direct(_) =>
      case Moved(_, _) =>
        ZeroOk(shift);
        MovedAddress(offset, same, xb);
      case Added(constant, left) =>
        var word, p := offset / Pow2(shift), Pow2(shift);
        var masked := word / 4096 % 4096 * 4096;
        ScaledOffset(offset, shift);
        ScaledOk(word - masked, shift);
        MaskedParts(word, p);
        ConstantAdded(xb, constant);
        ModAddMod(xb + constant, left);
        assert constant + left == offset;
    }
  }

  lemma MovedAddress(offset: int, same: bool, xb: nat)
    requires xb < WORD
    ensures var moved := offset % WORD;
            (if same then moved + moved else xb + moved) % WORD % WORD == (xb + offset) % WORD
            <==> !same || xb == moved
  {
    var moved := offset % WORD;
    ModAddMod(xb, offset);
    ModAddMod((if same then moved + moved else xb + moved), 0);
    if same {
      SameSum(moved, moved, xb);
      assert moved + xb == xb + moved;
    }
  }

  lemma ZeroOk(shift: nat)
    ensures OffsetOk(0, shift)
  {
  }

  lemma ScaledOffset(offset: int, shift: nat)
    requires !Addressing.Unscaled(offset, shift)
    ensures offset == offset / Pow2(shift) * Pow2(shift) && offset >= 0
  {
  }

  /** A small word count is a small scaled offset. */
  lemma ScaledOk(word: int, shift: nat)
    requires OffsetOk(word, 0) && word >= 0
    ensures OffsetOk(word * Pow2(shift), shift)
  {
    ModUnique(word, Pow2(0), word, 0);
    MulSign(word, Pow2(shift));
    ModUnique(word * Pow2(shift), Pow2(shift), word, 0);
  }

  lemma MaskedParts(word: int, p: nat)
    requires word >= 0
    ensures var masked := word / 4096 % 4096 * 4096;
            0 <= masked <= word && masked * p + (word - masked) * p == word * p && masked * p >= 0
  {
  }

  lemma ConstantAdded(xb: nat, constant: int)
    requires xb < WORD && OperandValid(constant) && constant >= 0
    ensures WrapAddSub(false, xb, constant % U32) == Some((xb + constant) % WORD)
  {
    ModUnique(constant, U32, 0, constant);
    WrapValue(false, xb, constant);
  }
}
