/** Instructions that hold an address together, patched to a target and read back: an `adrp` with its
    follower, and a constant in three moves. */
module AdrpPairs {
  import opened Bits
  import opened BitFields
  import opened Instruction
  import opened Wrappers
  import MovImmediate

  const PAGE: nat := 4096

  // ---------------------------------------------------------------- patched words

  lemma PatchedField(w: seq<bool>, f: Field)
    requires |w| == 32 && f.Ok()
    ensures Extract(Patch(w, f), f.msb, f.lsb) == f.val
  {
    var n := f.msb - f.lsb + 1;
    assert Patch(w, f)[f.lsb..f.msb + 1] == ToBits(f.val, n);
    FromToBits(f.val, n);
  }

  lemma PatchedElsewhere(w: seq<bool>, f: Field, msb: nat, lsb: nat)
    requires |w| == 32 && f.Ok() && lsb <= msb < 32 && (msb < f.lsb || f.msb < lsb)
    ensures Extract(Patch(w, f), msb, lsb) == Extract(w, msb, lsb)
  {
    assert Patch(w, f)[lsb..msb + 1] == w[lsb..msb + 1];
  }

  // ---------------------------------------------------------------- the four kinds

  datatype Kind = LoadStore | Add | Movk | Alone

  predicate IsAdrp(w: seq<bool>) {
    |w| == 32 && Extract(w, 28, 24) == 16 && Extract(w, 31, 31) == 1
  }

  /** What follows the adrp, if it uses the same register. */
  function KindOf(w: seq<bool>, next: seq<bool>): Kind
    requires |w| == 32 && |next| == 32
  {
    if Extract(next, 29, 24) == 0x39 && Extract(w, 4, 0) == Extract(next, 9, 5) then LoadStore
    else if Extract(next, 31, 22) == 0x244 && Extract(w, 4, 0) == Extract(next, 4, 0) then Add
    else if Extract(next, 31, 21) == 0x796 && Extract(w, 4, 0) == Extract(next, 4, 0) then Movk
    else Alone
  }

  /** The page offset as the two fields of adrp; None where the guarantee of spatch fails. */
  function PatchPage(w: seq<bool>, offset: int): Option<seq<bool>>
    requires |w| == 32
  {
    if SignedFits(offset / 4, 19) then
      Some(Patch(Patch(w, SignedField(offset / 4, 23, 5)), Field(offset % 4, 30, 29)))
    else None
  }

  function PageOffset(w: seq<bool>): int
    requires |w| == 32
  {
    4 * SExtract(w, 23, 5) + Extract(w, 30, 29)
  }

  /** The address in the code's own 4 GB that agrees with the target's low half. */
  function LocalTarget(branch: nat, target: nat): nat {
    target % U32 + branch / U32 % 0x1_0000 * U32
  }

  /** The PC-relative case of pd_patch_instruction_size for an adrp at `branch`. */
  function PatchPair(w: seq<bool>, next: seq<bool>, branch: nat, target: nat): Option<(seq<bool>, seq<bool>)>
    requires IsAdrp(w) && |next| == 32 && target < 0x1_0000_0000_0000
  {
    var kind := KindOf(w, next);
    var dest := if kind == Movk then LocalTarget(branch, target) else target;
    var first := PatchPage(w, dest / PAGE - branch / PAGE);
    if first.None? then None
    else
      match kind
      case LoadStore =>
        var size := Extract(next, 31, 30);
        if ShiftRight(target, size) * Pow2(size) != target then None
        else Some((first.value, Patch(next, Field(ShiftRight(target % PAGE, size), 21, 10))))
      case Add => Some((first.value, Patch(next, Field(target % PAGE, 21, 10))))
      case Movk => Some((first.value, Patch(next, Field(target / U32, 20, 5))))
      case Alone => Some((first.value, next))
  }

  /** The PC-relative case of target_addr_for_insn. */
  function TargetOfPair(w: seq<bool>, next: seq<bool>, branch: nat): int
    requires IsAdrp(w) && |next| == 32
  {
    var page := PAGE * (branch / PAGE + PageOffset(w));
    match KindOf(w, next)
    case LoadStore => page + Extract(next, 21, 10) * Pow2(Extract(next, 31, 30))
    case Add => page + Extract(next, 21, 10)
    case Movk => page % U32 + Extract(next, 20, 5) * U32
    case Alone => page
  }

  // ---------------------------------------------------------------- reading back

  lemma PagePatched(w: seq<bool>, offset: int)
    requires IsAdrp(w) && SignedFits(offset / 4, 19)
    ensures var p := PatchPage(w, offset).value;
            IsAdrp(p) && PageOffset(p) == offset && Extract(p, 4, 0) == Extract(w, 4, 0)
  {
    hide Extract, Patch, SignedFits;
    PowValues();
    var f, g := SignedField(offset / 4, 23, 5), Field(offset % 4, 30, 29);
    var v := Patch(w, f);
    PatchedField(w, f);
    PatchedField(v, g);
    PatchedElsewhere(v, g, 23, 5);
    SignedRoundTrip(offset / 4, 19);
    PatchedElsewhere(w, f, 4, 0);
    PatchedElsewhere(v, g, 4, 0);
    PatchedElsewhere(w, f, 28, 24);
    PatchedElsewhere(v, g, 28, 24);
    PatchedElsewhere(w, f, 31, 31);
    PatchedElsewhere(v, g, 31, 31);
  }

  /** A MOVK is not taken for a load or store, whatever registers its immediate spells. */
  lemma MovkIsNoLoad(w: seq<bool>)
    requires |w| == 32 && Extract(w, 31, 21) == 0x796
    ensures Extract(w, 29, 24) != 0x39
  {
    hide Extract;
    ExtractStep2(w, 31, 21);
    ExtractStep2(w, 31, 23);
    ExtractStep2(w, 31, 25);
    ExtractStep2(w, 31, 27);
    ExtractStep2(w, 31, 29);
    ExtractStep(w, 31, 31);
    ExtractStep2(w, 29, 24);
    ExtractStep2(w, 29, 26);
    ExtractStep2(w, 29, 28);
  }

  /** Writing the immediate of the second instruction leaves its kind. */
  lemma KindKept(w: seq<bool>, p: seq<bool>, next: seq<bool>, f: Field)
    requires |w| == |p| == |next| == 32 && Extract(p, 4, 0) == Extract(w, 4, 0) && f.Ok()
    requires KindOf(w, next) != Alone
    requires if KindOf(w, next) == Movk then f.msb == 20 && f.lsb == 5 else f.msb == 21 && f.lsb == 10
    ensures KindOf(p, Patch(next, f)) == KindOf(w, next)
    ensures Extract(Patch(next, f), 31, 30) == Extract(next, 31, 30)
  {
    hide Extract, Patch;
    PatchedElsewhere(next, f, 31, 30);
    PatchedElsewhere(next, f, 29, 24);
    PatchedElsewhere(next, f, 31, 22);
    PatchedElsewhere(next, f, 4, 0);
    if KindOf(w, next) == Movk {
      PatchedElsewhere(next, f, 31, 21);
      MovkIsNoLoad(Patch(next, f));
    } else {
      PatchedElsewhere(next, f, 9, 5);
    }
  }

  lemma LowMultiple(target: nat, size: nat)
    requires size <= 3 && ShiftRight(target, size) * Pow2(size) == target
    ensures ShiftRight(target % PAGE, size) * Pow2(size) == target % PAGE && ShiftRight(target % PAGE, size) < 4096
  {
    hide ShiftRight, Pow2;
    PowValues();
    ShiftValues(target % PAGE);
    LowPart(ShiftRight(target, size), Pow2(size), [4096, 2048, 1024, 512][size]);
  }

  /** A multiple of `d` is one within its page as well. */
  lemma LowPart(q: nat, d: nat, e: nat)
    requires d > 0 && e * d == PAGE
    ensures q * d % PAGE / d * d == q * d % PAGE && 0 <= q * d % PAGE / d < 4096
  {
    var r := q % e;
    MulSign(e - r, d);
    assert (e - r) * d == PAGE - r * d;
    assert q * d == (q / e * e + r) * d == q / e * (e * d) + r * d;
    ModUnique(q * d, PAGE, q / e, r * d);
    ModUnique(r * d, d, r, 0);
  }

  lemma ShiftValues(x: nat)
    ensures ShiftRight(x, 0) == x && ShiftRight(x, 1) == x / 2 && ShiftRight(x, 2) == x / 4 && ShiftRight(x, 3) == x / 8
  {
  }

  lemma SizeField(w: seq<bool>)
    requires |w| == 32
    ensures Extract(w, 31, 30) <= 3
  {
    hide Extract;
    ExtractStep2(w, 31, 30);
  }

  /** After patching, the pair is read back as its target: exactly where the second instruction holds
      the offset in the page, and as the target's page otherwise. */
  lemma PatchedPairReadsBack(w: seq<bool>, next: seq<bool>, branch: nat, target: nat)
    requires IsAdrp(w) && |next| == 32 && target < 0x1_0000_0000_0000 && branch < 0x1_0000_0000_0000
    requires PatchPair(w, next, branch, target).Some?
    ensures var (p, q) := PatchPair(w, next, branch, target).value;
            && IsAdrp(p) && |q| == 32 && KindOf(p, q) == KindOf(w, next)
            && TargetOfPair(p, q, branch) ==
                 if KindOf(w, next).LoadStore? || KindOf(w, next).Add? then target else target - target % PAGE
  {
    hide Extract, Patch, PageOffset, SignedFits, ShiftRight;
    var kind := KindOf(w, next);
    var dest := if kind == Movk then LocalTarget(branch, target) else target;
    var p, q := PatchPair(w, next, branch, target).value.0, PatchPair(w, next, branch, target).value.1;
    PagePatched(w, dest / PAGE - branch / PAGE);
    assert PAGE * (branch / PAGE + PageOffset(p)) == dest - dest % PAGE;
    PowValues();
    assert Pow2(12) == 4096;
    assert Pow2(16) == 0x1_0000 by { Pow2At8Steps(8); }
    match kind {
      case LoadStore =>
        SizeField(next);
        LowMultiple(target, Extract(next, 31, 30));
        var f := Field(ShiftRight(target % PAGE, Extract(next, 31, 30)), 21, 10);
        KindKept(w, p, next, f);
        PatchedField(next, f);
      case Add =>
        KindKept(w, p, next, Field(target % PAGE, 21, 10));
        PatchedField(next, Field(target % PAGE, 21, 10));
      case Movk =>
        KindKept(w, p, next, Field(target / U32, 20, 5));
        PatchedField(next, Field(target / U32, 20, 5));
        LocalPage(branch, target);
      case Alone =>
    }
  }

  // ---------------------------------------------------------------- when patching succeeds

  /** The page displacements adrp can hold. */
  predicate InReach(branch: nat, target: nat) {
    -0x10_0000 <= target / PAGE - branch / PAGE < 0x10_0000
  }

  /** Patching succeeds exactly when the target's page is within 4 GB either way and, for a load or
      store, the target is a multiple of the access size; with a MOVK it always succeeds. */
  lemma PatchableExactly(w: seq<bool>, next: seq<bool>, branch: nat, target: nat)
    requires IsAdrp(w) && |next| == 32 && target < 0x1_0000_0000_0000 && branch < 0x1_0000_0000_0000
    ensures var kind := KindOf(w, next);
            PatchPair(w, next, branch, target).Some?
            <==> || kind == Movk
                 || (InReach(branch, target) && (kind == LoadStore ==> target % Pow2(Extract(next, 31, 30)) == 0))
  {
    hide Extract, Patch, SignedFits, ShiftRight, KindOf;
    var kind := KindOf(w, next);
    var dest := if kind == Movk then LocalTarget(branch, target) else target;
    PageFits(dest / PAGE - branch / PAGE);
    if kind == Movk {
      LocalReach(branch, target);
    } else if kind == LoadStore {
      SizeField(next);
      ShiftBack(target, Extract(next, 31, 30));
    }
  }

  lemma PageFits(offset: int)
    ensures SignedFits(offset / 4, 19) <==> -0x10_0000 <= offset < 0x10_0000
  {
    hide SignedFits;
    SignedFitsExact(offset / 4, 19);
    PowValues();
    assert Pow2(18) == 0x4_0000 by { Pow2At8Steps(10); }
  }

  lemma ShiftBack(target: nat, size: nat)
    requires size <= 3
    ensures ShiftRight(target, size) * Pow2(size) == target <==> target % Pow2(size) == 0
  {
    hide ShiftRight, Pow2;
    PowValues();
    ShiftValues(target);
  }

  /** The target moved into the code's own 4 GB is always in reach. */
  lemma LocalReach(branch: nat, target: nat)
    requires branch < 0x1_0000_0000_0000
    ensures InReach(branch, LocalTarget(branch, target))
  {
    var k := branch / U32;
    assert k % 0x1_0000 == k;
    InPages(target % U32, k);
    InPages(branch % U32, k);
  }

  lemma InPages(x: nat, k: nat)
    ensures (x + k * U32) / PAGE == x / PAGE + k * 0x10_0000
  {
  }

  // ---------------------------------------------------------------- movz, movk, movk

  /** The three 16-bit parts of an address as pd_patch_instruction_size writes them. */
  function PatchConstant(w: seq<seq<bool>>, target: nat): seq<seq<bool>>
    requires |w| == 3 && forall i | 0 <= i < 3 :: |w[i]| == 32
  {
    seq(3, i requires 0 <= i < 3 => Patch(w[i], Field([target, target / 0x1_0000, target / U32][i] % 0x1_0000, 20, 5)))
  }

  /** The move-wide case of target_addr_for_insn. */
  function TargetOfConstant(w: seq<seq<bool>>): nat
    requires |w| == 3 && forall i | 0 <= i < 3 :: |w[i]| == 32
  {
    Extract(w[0], 20, 5) + Extract(w[1], 20, 5) * 0x1_0000 + Extract(w[2], 20, 5) * U32
  }

  /** Opcode, half-word position and register agree. */
  predicate SameMove(v: seq<bool>, w: seq<bool>)
    requires |v| == |w| == 32
  {
    Extract(v, 31, 21) == Extract(w, 31, 21) && Extract(v, 4, 0) == Extract(w, 4, 0)
  }

  /** A constant patched to any 48-bit target is read back as that target, and stays the same moves. */
  lemma PatchedConstantReadsBack(w: seq<seq<bool>>, target: nat)
    requires |w| == 3 && forall i | 0 <= i < 3 :: |w[i]| == 32
    requires target < 0x1_0000_0000_0000
    ensures var p := PatchConstant(w, target);
            && TargetOfConstant(p) == target
            && forall i | 0 <= i < 3 :: |p[i]| == 32 && SameMove(p[i], w[i])
  {
    hide Extract, Patch;
    var p := PatchConstant(w, target);
    assert Pow2(16) == 0x1_0000 by { PowValues(); Pow2At8Steps(8); }
    forall i | 0 <= i < 3
      ensures |p[i]| == 32 && SameMove(p[i], w[i])
      ensures Extract(p[i], 20, 5) == [target, target / 0x1_0000, target / U32][i] % 0x1_0000
    {
      var f := Field([target, target / 0x1_0000, target / U32][i] % 0x1_0000, 20, 5);
      PatchedField(w[i], f);
      PatchedElsewhere(w[i], f, 31, 21);
      PatchedElsewhere(w[i], f, 4, 0);
    }
    assert Extract(p[0], 20, 5) == target % 0x1_0000;
    assert Extract(p[1], 20, 5) == target / 0x1_0000 % 0x1_0000;
    assert Extract(p[2], 20, 5) == target / U32 % 0x1_0000;
  }

  /** Move wide (immediate) on a 64-bit register, section C4.1 of the Arm Architecture Reference Manual (DDI 0487). */
  function DecodeMove(w: seq<bool>): Option<MovImmediate.Mov>
    requires |w| == 32
  {
    var imm, half := Extract(w, 20, 5), Extract(w, 22, 21);
    match Extract(w, 31, 23)
    case 0x125 => Some(MovImmediate.Movn(imm, half))
    case 0x1A5 => Some(MovImmediate.Movz(imm, half))
    case 0x1E5 => Some(MovImmediate.Movk(imm, half))
    case _ => None
  }

  /** The three moves `movptr` emits: the low part into a cleared register, then the two above it. */
  predicate IsConstant(w: seq<seq<bool>>) {
    && |w| == 3 && (forall i | 0 <= i < 3 :: |w[i]| == 32)
    && Extract(w[0], 31, 23) == 0x1A5 && Extract(w[0], 22, 21) == 0
    && Extract(w[1], 31, 23) == 0x1E5 && Extract(w[1], 22, 21) == 1
    && Extract(w[2], 31, 23) == 0x1E5 && Extract(w[2], 22, 21) == 2
  }

  function ConstantMoves(target: nat): seq<MovImmediate.Mov> {
    [MovImmediate.Movz(target % 0x1_0000, 0), MovImmediate.Movk(target / 0x1_0000 % 0x1_0000, 1),
     MovImmediate.Movk(target / U32 % 0x1_0000, 2)]
  }

  /** Executing the patched moves leaves the target in the register, whatever it held. */
  lemma PatchedConstantBuilds(w: seq<seq<bool>>, target: nat, r: MovImmediate.Halves)
    requires IsConstant(w) && target < 0x1_0000_0000_0000 && |r| == 4
    ensures var p, code := PatchConstant(w, target), ConstantMoves(target);
            && (forall i | 0 <= i < 3 :: |p[i]| == 32 && DecodeMove(p[i]) == Some(code[i]))
            && MovImmediate.AllOk(code) && MovImmediate.Value(MovImmediate.RunMoves(code, r)) == target
  {
    hide Extract, Patch, Pow2;
    var p, code := PatchConstant(w, target), ConstantMoves(target);
    var parts := [target, target / 0x1_0000, target / U32];
    forall i | 0 <= i < 3 ensures |p[i]| == 32 && DecodeMove(p[i]) == Some(code[i]) {
      PatchedMove(w[i], parts[i] % 0x1_0000);
    }
    MovesLeave(code, target, r);
  }

  lemma PatchedMove(w: seq<bool>, imm: nat)
    requires |w| == 32 && imm < 0x1_0000
    ensures var p := Patch(w, Field(imm, 20, 5));
            && |p| == 32 && Extract(p, 20, 5) == imm
            && Extract(p, 22, 21) == Extract(w, 22, 21) && Extract(p, 31, 23) == Extract(w, 31, 23)
  {
    hide Extract, Patch;
    assert Pow2(16) == 0x1_0000 by { PowValues(); Pow2At8Steps(8); }
    var f := Field(imm, 20, 5);
    PatchedField(w, f);
    PatchedElsewhere(w, f, 22, 21);
    PatchedElsewhere(w, f, 31, 23);
  }

  lemma MovesLeave(code: seq<MovImmediate.Mov>, target: nat, r: MovImmediate.Halves)
    requires code == ConstantMoves(target) && target < 0x1_0000_0000_0000 && |r| == 4
    ensures MovImmediate.AllOk(code) && MovImmediate.Value(MovImmediate.RunMoves(code, r)) == target
  {
    hide MovImmediate.Builds, MovImmediate.RunMoves, ConstantMoves, MovImmediate.Value;
    var a, b, c := target % 0x1_0000, target / 0x1_0000 % 0x1_0000, target / U32 % 0x1_0000;
    ConstantValue(target);
    MovImmediate.BuildsFirst(code[0], [a, 0, 0, 0]);
    MovImmediate.BuildsMore([code[0]], [a, 0, 0, 0], b, 1);
    assert [a, 0, 0, 0][1 := b] == [a, b, 0, 0];
    MovImmediate.BuildsMore([code[0]] + [code[1]], [a, b, 0, 0], c, 2);
    assert [a, b, 0, 0][2 := c] == [a, b, c, 0];
    Leaves(code, [a, b, c, 0], r);
  }

  lemma ConstantValue(target: nat)
    requires target < 0x1_0000_0000_0000
    ensures var a, b, c := target % 0x1_0000, target / 0x1_0000 % 0x1_0000, target / U32 % 0x1_0000;
            && MovImmediate.Value([a, b, c, 0]) == target
            && ConstantMoves(target) ==
                 [MovImmediate.Movz(a, 0)] + [MovImmediate.Movk(b, 1)] + [MovImmediate.Movk(c, 2)]
  {
  }

  lemma Leaves(code: seq<MovImmediate.Mov>, h: MovImmediate.Halves, r: MovImmediate.Halves)
    requires MovImmediate.Builds(code, h) && |r| == 4
    ensures MovImmediate.AllOk(code) && |h| == 4 && MovImmediate.RunMoves(code, r) == h
  {
  }

  lemma LocalPage(branch: nat, target: nat)
    ensures var dest := LocalTarget(branch, target);
            (dest - dest % PAGE) % U32 + target / U32 * U32 == target - target % PAGE
  {
    var low, k, dest := target % U32, branch / U32 % 0x1_0000, LocalTarget(branch, target);
    SamePage(low, k);
    SamePage(low, target / U32);
    assert target == low + target / U32 * U32;
    ModUnique(dest - dest % PAGE, U32, k, low - low % PAGE);
  }

  lemma SamePage(x: nat, k: nat)
    ensures (x + k * U32) % PAGE == x % PAGE
  {
    ModUnique(x + k * U32, PAGE, x / PAGE + k * 0x10_0000, x % PAGE);
  }
}
