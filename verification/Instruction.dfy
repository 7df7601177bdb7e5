/** The instruction under construction: `insn` with the mask `bits` of positions already written. */
module Instruction {
  import opened Bits
  import opened BitFields

  predicate Covers(f: Field, i: nat) {
    f.lsb <= i <= f.msb
  }

  class Instruction {
    var insn: seq<bool>
    var bits: seq<bool>
    /** The fields written so far, in order. */
    ghost var fields: seq<Field>

    ghost predicate Valid()
      reads this
    {
      && AllOk(fields)
      && PairwiseDisjoint(fields)
      && insn == Assemble(fields)
      && |bits| == 32
      && forall i | 0 <= i < 32 :: bits[i] <==> exists f :: f in fields && Covers(f, i)
    }

    constructor ()
      ensures Valid() && fields == []
      ensures |bits| == 32 && forall i | 0 <= i < 32 :: !bits[i]
    {
      insn := seq(32, i => false);
      bits := seq(32, i => false);
      fields := [];
    }

    /** `f`: the value must fit and no bit of the field may have been written before. */
    method F(val: nat, msb: nat, lsb: nat)
      requires Valid() && |bits| == 32 && Field(val, msb, lsb).Ok()
      requires forall i | lsb <= i <= msb :: !bits[i]
      modifies this
      ensures Valid() && fields == old(fields) + [Field(val, msb, lsb)]
      ensures |bits| == |old(bits)| == 32
      ensures forall i | 0 <= i < 32 :: bits[i] == (old(bits)[i] || lsb <= i <= msb)
    {
      var field := Field(val, msb, lsb);
      NoClash(field);
      insn := OrField(insn, field);
      var was := bits;
      bits := seq(32, i requires 0 <= i < 32 => was[i] || lsb <= i <= msb);
      fields := fields + [field];
      assert fields[..|fields| - 1] == old(fields);
      forall i | 0 <= i < 32 ensures bits[i] <==> exists f :: f in fields && Covers(f, i) {
        if lsb <= i <= msb {
          assert field in fields && Covers(field, i);
        }
      }
    }

    lemma NoClash(f: Field)
      requires Valid() && f.Ok()
      requires forall i | f.lsb <= i <= f.msb :: !bits[i]
      ensures forall k | 0 <= k < |fields| :: Disjoint(fields[k], f)
    {
      forall k | 0 <= k < |fields| ensures Disjoint(fields[k], f) {
        var g := fields[k];
        assert g.Ok();
        assert !Covers(g, f.lsb) by {
          assert !bits[f.lsb];
        }
        assert bits[g.lsb] by {
          assert g in fields && Covers(g, g.lsb);
        }
      }
    }

    /** `sf`: a signed value that fits, truncated to the field. */
    method Sf(val: int, msb: nat, lsb: nat)
      requires Valid() && |bits| == 32 && lsb <= msb < 32 && SignedFits(val, msb - lsb + 1)
      requires forall i | lsb <= i <= msb :: !bits[i]
      modifies this
      ensures Valid() && fields == old(fields) + [SignedField(val, msb, lsb)]
      ensures |bits| == |old(bits)| == 32
      ensures forall i | 0 <= i < 32 :: bits[i] == (old(bits)[i] || lsb <= i <= msb)
    {
      F(Unsigned(val, msb - lsb + 1), msb, lsb);
    }

    /** `emit`: every bit must have been written. */
    method Emit() returns (w: seq<bool>)
      requires Valid() && |bits| == 32 && forall i | 0 <= i < 32 :: bits[i]
      ensures AllOk(fields) && w == Assemble(fields)
    {
      w := insn;
    }

    /** `get`: every bit asked for must have been written. */
    method Get(msb: nat, lsb: nat) returns (v: nat)
      requires Valid() && |bits| == 32 && lsb <= msb < 32
      requires forall i | lsb <= i <= msb :: bits[i]
      ensures AllOk(fields) && PairwiseDisjoint(fields) && v == Extract(Assemble(fields), msb, lsb)
      ensures forall k | 0 <= k < |fields| && fields[k].msb == msb && fields[k].lsb == lsb :: fields[k].val == v
    {
      v := Extract(insn, msb, lsb);
      forall k | 0 <= k < |fields| && fields[k].msb == msb && fields[k].lsb == lsb
        ensures fields[k].val == v
      {
        ReadBack(fields, k);
      }
    }
  }

  function SignedField(val: int, msb: nat, lsb: nat): (f: Field)
    requires lsb <= msb < 32
    ensures f.Ok() && f.msb == msb && f.lsb == lsb
  {
    Field(Unsigned(val, msb - lsb + 1), msb, lsb)
  }

  /** A signed field written into a word with disjoint fields is what sextract reads. */
  lemma SignedReadBack(fs: seq<Field>, k: nat, val: int)
    requires AllOk(fs) && PairwiseDisjoint(fs) && k < |fs|
    requires SignedFits(val, fs[k].msb - fs[k].lsb + 1) && fs[k] == SignedField(val, fs[k].msb, fs[k].lsb)
    ensures SExtract(Assemble(fs), fs[k].msb, fs[k].lsb) == val
  {
    ReadBack(fs, k);
    SignedRoundTrip(val, fs[k].msb - fs[k].lsb + 1);
  }
}
