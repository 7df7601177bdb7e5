/** Instruction words as 32 bits, written field by field. */
module BitFields {
  import opened Bits

  // ---------------------------------------------------------------- numbers and bit strings

  /** The `n` low bits of `v`, least significant first. */
  function ToBits(v: nat, n: nat): (b: seq<bool>)
    ensures |b| == n
    decreases n
  {
    if n == 0 then [] else [v % 2 == 1] + ToBits(v / 2, n - 1)
  }

  function FromBits(b: seq<bool>): nat {
    if b == [] then 0 else (if b[0] then 1 else 0) + 2 * FromBits(b[1..])
  }

  lemma {:induction false} FromToBits(v: nat, n: nat)
    requires v < Pow2(n)
    ensures FromBits(ToBits(v, n)) == v
    decreases n
  {
    if n > 0 {
      FromToBits(v / 2, n - 1);
      assert ToBits(v, n)[1..] == ToBits(v / 2, n - 1);
    }
  }

  // ---------------------------------------------------------------- fields

  /** `val` in bits `msb` down to `lsb`. */
  datatype Field = Field(val: nat, msb: nat, lsb: nat) {
    /** What `f` guarantees or asserts about its arguments. */
    predicate Ok() {
      lsb <= msb < 32 && val < Pow2(msb - lsb + 1)
    }

    predicate Sets(i: nat)
      requires lsb <= msb
    {
      lsb <= i <= msb && ToBits(val, msb - lsb + 1)[i - lsb]
    }
  }

  predicate Disjoint(f: Field, g: Field) {
    f.msb < g.lsb || g.msb < f.lsb
  }

  predicate AllOk(fs: seq<Field>) {
    forall k | 0 <= k < |fs| :: fs[k].Ok()
  }

  predicate PairwiseDisjoint(fs: seq<Field>) {
    forall j, k | 0 <= j < k < |fs| :: Disjoint(fs[j], fs[k])
  }

  /** The word with one more field set in it. */
  function OrField(w: seq<bool>, f: Field): (r: seq<bool>)
    requires f.lsb <= f.msb
    ensures |r| == |w| && forall i | 0 <= i < |w| :: r[i] == (w[i] || f.Sets(i))
  {
    seq(|w|, i requires 0 <= i < |w| => w[i] || f.Sets(i))
  }

  /** The word after writing `fs` into a zero word. */
  function Assemble(fs: seq<Field>): (w: seq<bool>)
    requires AllOk(fs)
    ensures |w| == 32
  {
    if fs == [] then seq(32, i => false) else OrField(Assemble(fs[..|fs| - 1]), fs[|fs| - 1])
  }

  /** Instruction_aarch64::extract */
  function Extract(w: seq<bool>, msb: nat, lsb: nat): nat
    requires lsb <= msb < |w|
  {
    FromBits(w[lsb..msb + 1])
  }

  // ---------------------------------------------------------------- order does not matter

  lemma {:induction false} AssembledBit(fs: seq<Field>, i: nat)
    requires AllOk(fs) && i < 32
    ensures Assemble(fs)[i] <==> exists k :: 0 <= k < |fs| && fs[k].Sets(i)
  {
    if fs != [] {
      var rest := fs[..|fs| - 1];
      AssembledBit(rest, i);
      if k :| 0 <= k < |rest| && rest[k].Sets(i) {
        assert fs[k].Sets(i);
      }
      if fs[|fs| - 1].Sets(i) {
        assert Assemble(fs)[i];
      }
    }
  }

  /** Writing the same fields in any order gives the same word. */
  lemma OrderIrrelevant(fs: seq<Field>, gs: seq<Field>)
    requires AllOk(fs) && multiset(fs) == multiset(gs)
    ensures AllOk(gs) && Assemble(fs) == Assemble(gs)
  {
    assert forall g | g in gs :: g in fs by {
      assert forall g | g in gs :: g in multiset(gs);
    }
    assert AllOk(gs) by {
      forall k | 0 <= k < |gs| ensures gs[k].Ok() {
        assert gs[k] in fs;
      }
    }
    assert forall f | f in fs :: f in gs by {
      assert forall f | f in fs :: f in multiset(fs);
    }
    forall i | 0 <= i < 32 ensures Assemble(fs)[i] == Assemble(gs)[i] {
      AssembledBit(fs, i);
      AssembledBit(gs, i);
      SameMembersSameBit(fs, gs, i);
      SameMembersSameBit(gs, fs, i);
    }
  }

  lemma SameMembersSameBit(fs: seq<Field>, gs: seq<Field>, i: nat)
    requires AllOk(fs) && AllOk(gs) && forall f | f in fs :: f in gs
    ensures (exists k :: 0 <= k < |fs| && fs[k].Sets(i)) ==> exists k :: 0 <= k < |gs| && gs[k].Sets(i)
  {
    if k :| 0 <= k < |fs| && fs[k].Sets(i) {
      assert fs[k] in gs;
      var j :| 0 <= j < |gs| && gs[j] == fs[k];
      assert gs[j].Sets(i);
    }
  }

  // ---------------------------------------------------------------- every field reads back

  lemma OneWriter(fs: seq<Field>, j: nat, k: nat, i: nat)
    requires AllOk(fs) && PairwiseDisjoint(fs) && j < |fs| && k < |fs|
    requires fs[j].Sets(i) && fs[k].lsb <= i <= fs[k].msb
    ensures j == k
  {
  }

  lemma ReadBackBit(fs: seq<Field>, k: nat, i: nat)
    requires AllOk(fs) && PairwiseDisjoint(fs) && k < |fs| && fs[k].lsb <= i <= fs[k].msb
    ensures Assemble(fs)[i] == ToBits(fs[k].val, fs[k].msb - fs[k].lsb + 1)[i - fs[k].lsb]
  {
    hide Assemble, PairwiseDisjoint;
    AssembledBit(fs, i);
    forall j | 0 <= j < |fs| && fs[j].Sets(i) ensures j == k {
      OneWriter(fs, j, k, i);
    }
    assert fs[k].Ok();
  }

  lemma ReadBackBits(fs: seq<Field>, k: nat)
    requires AllOk(fs) && PairwiseDisjoint(fs) && k < |fs|
    ensures Assemble(fs)[fs[k].lsb..fs[k].msb + 1] == ToBits(fs[k].val, fs[k].msb - fs[k].lsb + 1)
  {
    hide Assemble, ToBits;
    var f := fs[k];
    var a, b := Assemble(fs)[f.lsb..f.msb + 1], ToBits(f.val, f.msb - f.lsb + 1);
    forall i | 0 <= i < |a| ensures a[i] == b[i] {
      ReadBackBit(fs, k, f.lsb + i);
    }
  }

  lemma ReadBack(fs: seq<Field>, k: nat)
    requires AllOk(fs) && PairwiseDisjoint(fs) && k < |fs|
    ensures Extract(Assemble(fs), fs[k].msb, fs[k].lsb) == fs[k].val
  {
    hide Assemble, PairwiseDisjoint, ToBits, FromBits;
    ReadBackBits(fs, k);
    FromToBits(fs[k].val, fs[k].msb - fs[k].lsb + 1);
  }

  // ---------------------------------------------------------------- one bit at a time

  function Bit(b: bool): nat {
    if b then 1 else 0
  }

  lemma ExtractStep(w: seq<bool>, msb: nat, lsb: nat)
    requires lsb <= msb < |w|
    ensures Extract(w, msb, lsb) == Bit(w[lsb]) + if lsb == msb then 0 else 2 * Extract(w, msb, lsb + 1)
  {
    var s := w[lsb..msb + 1];
    assert s[1..] == w[lsb + 1..msb + 1];
    assert FromBits(s) == Bit(s[0]) + 2 * FromBits(s[1..]);
  }

  lemma ExtractStep2(w: seq<bool>, msb: nat, lsb: nat)
    requires lsb < msb < |w|
    ensures Extract(w, msb, lsb) ==
            Bit(w[lsb]) + 2 * Bit(w[lsb + 1]) + if lsb + 1 == msb then 0 else 4 * Extract(w, msb, lsb + 2)
  {
    ExtractStep(w, msb, lsb);
    ExtractStep(w, msb, lsb + 1);
  }

  lemma BitReads(w: seq<bool>, i: nat, v: bool)
    requires i < |w| && Extract(w, i, i) == Bit(v)
    ensures w[i] == v
  {
  }

  // ---------------------------------------------------------------- signed fields

  /** The range check of `sf`: everything from the field's sign bit up is all ones or all zeros. */
  predicate SignedFits(v: int, n: nat)
    requires n > 0
  {
    var chk := v / Pow2(n - 1);
    chk == -1 || chk == 0
  }

  /** The low `n` bits of a two's complement number. */
  function Unsigned(v: int, n: nat): (u: nat)
    ensures u < Pow2(n)
  {
    v % Pow2(n)
  }

  /** Instruction_aarch64::extend on an `n`-bit value */
  function Signed(u: nat, n: nat): int
    requires n > 0
  {
    if u >= Pow2(n - 1) then u - Pow2(n) else u
  }

  /** Instruction_aarch64::sextract */
  function SExtract(w: seq<bool>, msb: nat, lsb: nat): int
    requires lsb <= msb < |w|
  {
    Signed(Extract(w, msb, lsb), msb - lsb + 1)
  }

  /** The check passes exactly for the two's complement range. */
  lemma SignedFitsExact(v: int, n: nat)
    requires n > 0
    ensures SignedFits(v, n) <==> -v <= Pow2(n - 1) && v < Pow2(n - 1)
  {
    var p: int := Pow2(n - 1);
    if 0 <= v < p {
      ModUnique(v, p, 0, v);
    } else if -p <= v < 0 {
      ModUnique(v, p, -1, v + p);
    } else {
      MulSign(v / p, p);
    }
  }

  lemma SignedRoundTrip(v: int, n: nat)
    requires n > 0 && SignedFits(v, n)
    ensures Signed(Unsigned(v, n), n) == v
  {
    SignedFitsExact(v, n);
    if v >= 0 {
      ModUnique(v, Pow2(n), 0, v);
    } else {
      ModUnique(v, Pow2(n), -1, v + Pow2(n));
    }
  }

  // ---------------------------------------------------------------- patching

  /** Instruction_aarch64::patch: replaces bits `msb` down to `lsb`. */
  function Patch(w: seq<bool>, f: Field): (r: seq<bool>)
    requires f.lsb <= f.msb < |w|
    ensures |r| == |w|
    ensures forall i | 0 <= i < |w| :: r[i] == if f.lsb <= i <= f.msb then f.Sets(i) else w[i]
  {
    seq(|w|, i requires 0 <= i < |w| => if f.lsb <= i <= f.msb then f.Sets(i) else w[i])
  }

  /** Patching a field of an assembled word is assembling it with the new value. */
  lemma PatchIsRewrite(fs: seq<Field>, k: nat, v: nat)
    requires AllOk(fs) && PairwiseDisjoint(fs) && k < |fs| && v < Pow2(fs[k].msb - fs[k].lsb + 1)
    ensures AllOk(fs[k := fs[k].(val := v)]) && PairwiseDisjoint(fs[k := fs[k].(val := v)])
    ensures Patch(Assemble(fs), fs[k].(val := v)) == Assemble(fs[k := fs[k].(val := v)])
  {
    var f := fs[k].(val := v);
    var gs := fs[k := f];
    forall i | 0 <= i < 32 ensures Patch(Assemble(fs), f)[i] == Assemble(gs)[i] {
      PatchedBit(fs, gs, k, i);
    }
  }

  lemma PatchedBit(fs: seq<Field>, gs: seq<Field>, k: nat, i: nat)
    requires AllOk(fs) && AllOk(gs) && PairwiseDisjoint(gs) && k < |fs| == |gs| && i < 32
    requires forall j | 0 <= j < |fs| && j != k :: gs[j] == fs[j]
    requires gs[k].msb == fs[k].msb && gs[k].lsb == fs[k].lsb
    ensures Patch(Assemble(fs), gs[k])[i] == Assemble(gs)[i]
  {
    AssembledBit(gs, i);
    if fs[k].lsb <= i <= fs[k].msb {
      ReadBackBit(gs, k, i);
    } else {
      AssembledBit(fs, i);
      SameElsewhere(fs, gs, k, i);
      SameElsewhere(gs, fs, k, i);
    }
  }

  lemma SameElsewhere(fs: seq<Field>, gs: seq<Field>, k: nat, i: nat)
    requires AllOk(fs) && AllOk(gs) && k < |fs| == |gs|
    requires forall j | 0 <= j < |fs| && j != k :: gs[j] == fs[j]
    requires !(fs[k].lsb <= i <= fs[k].msb)
    ensures (exists j :: 0 <= j < |fs| && fs[j].Sets(i)) ==> exists j :: 0 <= j < |gs| && gs[j].Sets(i)
  {
  }
}
