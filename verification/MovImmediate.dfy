/** `mov_immediate64`: a constant built with one MOVZ or MOVN and as few MOVKs as it needs. */
module MovImmediate {
  import opened Bits

  const HALF: nat := 0x1_0000
  const ONES: nat := 0xFFFF

  /** The four 16-bit parts of a register, lowest first. */
  type Halves = seq<nat>

  predicate HalvesOk(h: Halves) {
    |h| == 4 && forall i | 0 <= i < 4 :: h[i] < HALF
  }

  function Value(h: Halves): nat
    requires |h| == 4
  {
    h[0] + HALF * (h[1] + HALF * (h[2] + HALF * h[3]))
  }

  function Split(imm: nat): (h: Halves)
    requires imm < WORD
    ensures HalvesOk(h) && Value(h) == imm
  {
    var a, b := imm / HALF, imm / HALF / HALF;
    assert a / HALF == b && b < HALF * HALF;
    [imm % HALF, a % HALF, b % HALF, b / HALF]
  }

  datatype Mov = Movz(imm: nat, half: nat) | Movn(imm: nat, half: nat) | Movk(imm: nat, half: nat) {
    predicate Ok() {
      imm < HALF && half < 4
    }
  }

  /** Move wide (immediate), section C6.2 of the Arm Architecture Reference Manual (DDI 0487). */
  function Apply(m: Mov, r: Halves): (h: Halves)
    requires m.Ok() && |r| == 4
    ensures |h| == 4
  {
    match m
    case Movz(imm, half) => seq(4, i => if i == half then imm else 0)
    case Movn(imm, half) => seq(4, i => if i == half then ONES - imm else ONES)
    case Movk(imm, half) => r[half := imm]
  }

  predicate AllOk(code: seq<Mov>) {
    forall i | 0 <= i < |code| :: code[i].Ok()
  }

  function RunMoves(code: seq<Mov>, r: Halves): (h: Halves)
    requires AllOk(code) && |r| == 4
    ensures |h| == 4
  {
    if code == [] then r else Apply(code[|code| - 1], RunMoves(code[..|code| - 1], r))
  }

  /** Whatever the register held, running the code leaves `h` in it. */
  ghost predicate Builds(code: seq<Mov>, h: Halves) {
    AllOk(code) && |h| == 4 && forall r: Halves | |r| == 4 :: RunMoves(code, r) == h
  }

  lemma BuildsFirst(m: Mov, h: Halves)
    requires m.Ok() && !m.Movk? && |h| == 4 && forall i | 0 <= i < 4 :: h[i] == Apply(m, [0, 0, 0, 0])[i]
    ensures Builds([m], h)
  {
  }

  lemma BuildsMore(code: seq<Mov>, h: Halves, imm: nat, half: nat)
    requires Builds(code, h) && imm < HALF && half < 4
    ensures Builds(code + [Movk(imm, half)], h[half := imm])
  {
  }

  /** `h` up to place `i`, and `fill` from there on. */
  function Filled(h: Halves, i: nat, fill: nat): (r: Halves)
    requires |h| == 4 && i <= 4
    ensures |r| == 4 && forall j | 0 <= j < 4 :: r[j] == if j < i then h[j] else fill
  {
    seq(4, j requires 0 <= j < 4 => if j < i then h[j] else fill)
  }

  /** The two loops shared by the cases with zero or all-ones parts: a MOVZ or MOVN for the first
      part that is not `fill`, a MOVK for each further one. */
  method BuildFrom(h: Halves, fill: nat) returns (code: seq<Mov>)
    requires HalvesOk(h) && (fill == 0 || fill == ONES) && exists i :: 0 <= i < 4 && h[i] != fill
    ensures Builds(code, h)
    ensures |code| == |Others(h, fill)|
  {
    hide Builds, Others, Filled;
    var i := FirstOther(h, fill);
    var first := if fill == 0 then Movz(h[i], i) else Movn(ONES - h[i], i);
    code := [first];
    BuildsStart(h, i, fill);
    OthersStep(h, fill, i);
    i := i + 1;
    while i < 4
      invariant 1 <= i <= 4 && Builds(code, Filled(h, i, fill))
      invariant |code| == |Others(h[..i], fill)|
    {
      OthersStep(h, fill, i);
      FilledStep(h, i, fill);
      if h[i] != fill {
        BuildsMore(code, Filled(h, i, fill), h[i], i);
        code := code + [Movk(h[i], i)];
      }
      i := i + 1;
    }
    FilledAll(h, fill);
    assert h[..4] == h;
  }

  method FirstOther(h: Halves, fill: nat) returns (i: nat)
    requires HalvesOk(h) && exists j :: 0 <= j < 4 && h[j] != fill
    ensures i < 4 && h[i] != fill && forall j | 0 <= j < i :: h[j] == fill
  {
    i := 0;
    while h[i] == fill
      invariant i < 4 && forall j | 0 <= j < i :: h[j] == fill
      invariant exists j :: i <= j < 4 && h[j] != fill
      decreases 4 - i
    {
      i := i + 1;
    }
  }

  lemma BuildsStart(h: Halves, i: nat, fill: nat)
    requires HalvesOk(h) && i < 4 && (fill == 0 || fill == ONES) && forall j | 0 <= j < i :: h[j] == fill
    ensures Builds([if fill == 0 then Movz(h[i], i) else Movn(ONES - h[i], i)], Filled(h, i + 1, fill))
  {
  }

  lemma FilledStep(h: Halves, i: nat, fill: nat)
    requires |h| == 4 && i < 4
    ensures Filled(h, i + 1, fill) == Filled(h, i, fill)[i := h[i]]
    ensures h[i] == fill ==> Filled(h, i + 1, fill) == Filled(h, i, fill)
  {
  }

  lemma FilledAll(h: Halves, fill: nat)
    requires |h| == 4
    ensures Filled(h, 4, fill) == h
  {
  }

  /** The parts that differ from `fill`. */
  function Others(h: seq<nat>, fill: nat): seq<nat> {
    if h == [] then [] else Others(h[..|h| - 1], fill) + if h[|h| - 1] == fill then [] else [h[|h| - 1]]
  }

  lemma OthersStep(h: seq<nat>, fill: nat, i: nat)
    requires i < |h|
    ensures Others(h[..i + 1], fill) == Others(h[..i], fill) + if h[i] == fill then [] else [h[i]]
    ensures (forall j | 0 <= j < i :: h[j] == fill) ==> Others(h[..i], fill) == []
    decreases i
  {
    assert h[..i + 1][..i] == h[..i];
    if i > 0 {
      OthersStep(h, fill, i - 1);
    }
  }

  /** The MOVZ/MOVN path of mov_immediate64. */
  method MovImmediate64(imm: nat) returns (code: seq<Mov>)
    requires imm < WORD
    ensures Builds(code, Split(imm))
    ensures var h := Split(imm); |code| == Max(1, 4 - Max(Count(h, 0), Count(h, ONES)))
    ensures forall r: Halves | |r| == 4 :: Value(RunMoves(code, r)) == imm
  {
    hide Builds, Others, Count, Split, Value, RunMoves;
    var h := Split(imm);
    var zeros, negs := Count(h, 0), Count(h, ONES);
    if zeros == 4 {
      code := [Movz(0, 0)];
      AllFill(h, 0);
    } else if negs == 4 {
      code := [Movn(0, 0)];
      AllFill(h, ONES);
    } else if zeros == 3 {
      code := BuildFrom(h, 0);
    } else if negs == 3 {
      code := BuildFrom(h, ONES);
    } else if zeros == 2 {
      code := BuildFrom(h, 0);
    } else if negs == 2 {
      code := BuildFrom(h, ONES);
    } else if zeros == 1 {
      code := BuildFrom(h, 0);
    } else if negs == 1 {
      code := BuildFrom(h, ONES);
    } else {
      code := [Movz(h[0], 0), Movk(h[1], 1), Movk(h[2], 2), Movk(h[3], 3)];
      NoFill(h);
    }
    BuildsValue(code, h);
  }

  function Max(x: int, y: int): int {
    if x < y then y else x
  }

  /** How many parts equal `fill`. */
  function Count(h: Halves, fill: nat): (n: nat)
    requires |h| == 4
    ensures n <= 4 && n == 4 - |Others(h, fill)|
    ensures n < 4 <==> exists i :: 0 <= i < 4 && h[i] != fill
  {
    CountOthers(h, fill);
    (if h[0] == fill then 1 else 0) + (if h[1] == fill then 1 else 0)
    + (if h[2] == fill then 1 else 0) + (if h[3] == fill then 1 else 0)
  }

  lemma CountOthers(h: Halves, fill: nat)
    requires |h| == 4
    ensures |Others(h, fill)| == 4 - ((if h[0] == fill then 1 else 0) + (if h[1] == fill then 1 else 0)
                                      + (if h[2] == fill then 1 else 0) + (if h[3] == fill then 1 else 0))
  {
    hide Others;
    OthersStep(h, fill, 0);
    OthersStep(h, fill, 1);
    OthersStep(h, fill, 2);
    OthersStep(h, fill, 3);
    assert h[..4] == h;
  }

  lemma AllFill(h: Halves, fill: nat)
    requires HalvesOk(h) && (fill == 0 || fill == ONES) && forall i | 0 <= i < 4 :: h[i] == fill
    ensures Builds([if fill == 0 then Movz(0, 0) else Movn(0, 0)], h)
  {
  }

  lemma NoFill(h: Halves)
    requires HalvesOk(h)
    ensures Builds([Movz(h[0], 0), Movk(h[1], 1), Movk(h[2], 2), Movk(h[3], 3)], h)
  {
    hide Builds, Filled;
    var c1, f1: Halves := [Movz(h[0], 0)], [h[0], 0, 0, 0];
    BuildsFirst(c1[0], f1);
    BuildsMore(c1, f1, h[1], 1);
    BuildsMore(c1 + [Movk(h[1], 1)], f1[1 := h[1]], h[2], 2);
    BuildsMore(c1 + [Movk(h[1], 1)] + [Movk(h[2], 2)], f1[1 := h[1]][2 := h[2]], h[3], 3);
    assert f1[1 := h[1]][2 := h[2]][3 := h[3]] == h;
    assert c1 + [Movk(h[1], 1)] + [Movk(h[2], 2)] + [Movk(h[3], 3)]
           == [Movz(h[0], 0), Movk(h[1], 1), Movk(h[2], 2), Movk(h[3], 3)];
  }

  lemma BuildsValue(code: seq<Mov>, h: Halves)
    requires Builds(code, h)
    ensures AllOk(code) && forall r: Halves | |r| == 4 :: Value(RunMoves(code, r)) == Value(h)
  {
  }
}
