/** The run-time checks of the inlined arraycopy, and resuming after a partial copy. */
module ArrayCopy {
  import opened Bits
  import opened AddSub
  import opened Compare

  /** A 32-bit register. */
  predicate IsWord(x: nat) {
    x < U32
  }

  function Addw(x: nat, y: nat): (r: nat)
    requires IsWord(x) && IsWord(y)
    ensures IsWord(r)
  {
    Execute(Op(false, false, false), x, y).value
  }

  function Subw(x: nat, y: nat): (r: nat)
    requires IsWord(x) && IsWord(y)
    ensures IsWord(r)
  {
    Execute(Op(false, true, false), x, y).value
  }

  /** `cmpw` and `br`: whether the branch on condition `code` is taken. */
  predicate CompareBranches(x: nat, y: nat, code: nat)
    requires IsWord(x) && IsWord(y)
  {
    ConditionHolds(code, Execute(Subs(false), x, y).flags)
  }

  const LT: nat := 11
  const HI: nat := 8

  /** The checks with all flags set: whether none of them branches to the slow path. */
  predicate Passes(srcPos: nat, dstPos: nat, length: nat, srcLength: nat, dstLength: nat)
    requires IsWord(srcPos) && IsWord(dstPos) && IsWord(length) && IsWord(srcLength) && IsWord(dstLength)
  {
    && !CompareBranches(srcPos, 0, LT)
    && !CompareBranches(dstPos, 0, LT)
    && !CompareBranches(length, 0, LT)
    && !CompareBranches(Addw(srcPos, length), srcLength, HI)
    && !CompareBranches(Addw(dstPos, length), dstLength, HI)
  }

  /** The range starting at `pos` lies inside an array, as mathematics has it. */
  predicate Inside(pos: int, length: int, arrayLength: int) {
    0 <= pos && 0 <= length && pos + length <= arrayLength
  }

  lemma NegativeTest(x: nat)
    requires IsWord(x)
    ensures CompareBranches(x, 0, LT) <==> ToSigned(x, U32) < 0
  {
  }

  lemma RangeTest(pos: nat, length: nat, arrayLength: nat)
    requires pos < 0x8000_0000 && length < 0x8000_0000 && arrayLength < 0x8000_0000
    ensures CompareBranches(Addw(pos, length), arrayLength, HI) <==> pos + length > arrayLength
  {
  }

  /** Control passes exactly when both ranges lie inside their arrays; the 32-bit sums cannot hide
      an overflow. */
  lemma ChecksExact(srcPos: nat, dstPos: nat, length: nat, srcLength: nat, dstLength: nat)
    requires IsWord(srcPos) && IsWord(dstPos) && IsWord(length)
    requires srcLength < 0x8000_0000 && dstLength < 0x8000_0000
    ensures Passes(srcPos, dstPos, length, srcLength, dstLength)
            <==> && Inside(ToSigned(srcPos, U32), ToSigned(length, U32), srcLength)
                 && Inside(ToSigned(dstPos, U32), ToSigned(length, U32), dstLength)
  {
    hide CompareBranches, Addw;
    NegativeTest(srcPos);
    NegativeTest(dstPos);
    NegativeTest(length);
    if srcPos < 0x8000_0000 && length < 0x8000_0000 {
      RangeTest(srcPos, length, srcLength);
      if dstPos < 0x8000_0000 {
        RangeTest(dstPos, length, dstLength);
      }
    }
  }

  // ---------------------------------------------------------------- partial copies

  /** Elements `[sp, sp + n)` of `src` over `[dp, dp + n)` of `dst`. */
  function Copy<T>(src: seq<T>, dst: seq<T>, sp: nat, dp: nat, n: nat): (r: seq<T>)
    requires sp + n <= |src| && dp + n <= |dst|
    ensures |r| == |dst|
  {
    dst[..dp] + src[sp..sp + n] + dst[dp + n..]
  }

  datatype Args = Args(srcPos: nat, dstPos: nat, length: nat)

  /** The stub returns `~K` after copying K elements; `eonw` recovers K. */
  function CopiedCount(result: nat): (k: nat)
    requires IsWord(result)
    ensures IsWord(k)
  {
    U32 - 1 - result
  }

  /** The arguments handed to the slow path. */
  function Resume(a: Args, result: nat): Args
    requires IsWord(a.srcPos) && IsWord(a.dstPos) && IsWord(a.length) && IsWord(result)
  {
    var k := CopiedCount(result);
    Args(Addw(a.srcPos, k), Addw(a.dstPos, k), Subw(a.length, k))
  }

  /** After checks that passed, the adjusted arguments are the uncopied suffix, inside both arrays. */
  lemma ResumeIsSuffix(a: Args, k: nat, srcLength: nat, dstLength: nat)
    requires IsWord(a.srcPos) && IsWord(a.dstPos) && IsWord(a.length)
    requires srcLength < 0x8000_0000 && dstLength < 0x8000_0000
    requires Passes(a.srcPos, a.dstPos, a.length, srcLength, dstLength) && k <= a.length
    ensures Resume(a, U32 - 1 - k) == Args(a.srcPos + k, a.dstPos + k, a.length - k)
    ensures Inside(a.srcPos + k, a.length - k, srcLength) && Inside(a.dstPos + k, a.length - k, dstLength)
  {
    hide Passes;
    ChecksExact(a.srcPos, a.dstPos, a.length, srcLength, dstLength);
  }

  /** Between different arrays, prefix then resumed suffix is the whole copy. */
  lemma PrefixThenSuffix<T>(src: seq<T>, dst: seq<T>, a: Args, k: nat)
    requires IsWord(a.srcPos) && IsWord(a.dstPos) && IsWord(a.length)
    requires |src| < 0x8000_0000 && |dst| < 0x8000_0000 && Passes(a.srcPos, a.dstPos, a.length, |src|, |dst|)
    requires k <= a.length
    ensures a.srcPos + a.length <= |src| && a.dstPos + a.length <= |dst|
    ensures var b := Resume(a, U32 - 1 - k);
            && b.srcPos + b.length <= |src| && b.dstPos + b.length <= |dst|
            && Copy(src, Copy(src, dst, a.srcPos, a.dstPos, k), b.srcPos, b.dstPos, b.length)
               == Copy(src, dst, a.srcPos, a.dstPos, a.length)
  {
    hide Passes, Resume;
    ResumeIsSuffix(a, 0, |src|, |dst|);
    ResumeIsSuffix(a, k, |src|, |dst|);
    SplitCopy(src, dst, a.srcPos, a.dstPos, a.length, k);
  }

  lemma SplitCopy<T>(src: seq<T>, dst: seq<T>, sp: nat, dp: nat, n: nat, k: nat)
    requires sp + n <= |src| && dp + n <= |dst| && k <= n
    ensures Copy(src, Copy(src, dst, sp, dp, k), sp + k, dp + k, n - k) == Copy(src, dst, sp, dp, n)
  {
  }

  // ---------------------------------------------------------------- the checked copy

  /** How many leading elements may be stored: null always may, the others if their class fits. */
  function StorablePrefix(s: seq<nat>, fits: nat -> bool): (k: nat)
    ensures k <= |s| && (forall i | 0 <= i < k :: s[i] == 0 || fits(s[i]))
    ensures k < |s| ==> s[k] != 0 && !fits(s[k])
  {
    if s == [] || (s[0] != 0 && !fits(s[0])) then 0 else 1 + StorablePrefix(s[1..], fits)
  }

  lemma StorableExactly(s: seq<nat>, fits: nat -> bool, k: nat)
    requires k <= |s| && (forall i | 0 <= i < k :: s[i] == 0 || fits(s[i]))
    requires k < |s| ==> s[k] != 0 && !fits(s[k])
    ensures StorablePrefix(s, fits) == k
  {
  }

  /** What System.arraycopy asks for: elements are stored up to the first that does not fit. */
  function JavaCopy(src: seq<nat>, dst: seq<nat>, sp: nat, dp: nat, n: nat, fits: nat -> bool): (seq<nat>, bool)
    requires sp + n <= |src| && dp + n <= |dst|
  {
    var k := StorablePrefix(src[sp..sp + n], fits);
    (Copy(src, dst, sp, dp, k), k == n)
  }

  /** Zero for a complete copy, else the complement of the number copied. */
  function StubResult(k: nat, n: nat): nat
    requires k <= n < WORD
  {
    if k == n then 0 else WORD - 1 - k
  }

  /** The low half of a 64-bit register, which `eonw` reads. */
  function LowWord(r: nat): (w: nat)
    ensures IsWord(w)
  {
    r % U32
  }

  lemma LowWordOfResult(k: nat, n: nat)
    requires k < n < U32
    ensures LowWord(StubResult(k, n)) == U32 - 1 - k
  {
    ModUnique(WORD - 1 - k, U32, U32 - 1, U32 - 1 - k);
  }

  /** The checked copy stub between different arrays, low to high, with its 64-bit result. */
  method CheckcastCopy(src: array<nat>, dst: array<nat>, sp: nat, dp: nat, n: nat, fits: nat -> bool)
    returns (r0: nat)
    requires src != dst && sp + n <= src.Length && dp + n <= dst.Length && n < WORD
    modifies dst
    ensures var k := StorablePrefix(src[sp..sp + n], fits);
            dst[..] == Copy(src[..], old(dst[..]), sp, dp, k) && r0 == StubResult(k, n)
    ensures r0 == 0 <==> forall i | sp <= i < sp + n :: src[i] == 0 || fits(src[i])
  {
    hide Copy, StorablePrefix;
    var count := n;
    CopyNothing(src[..], dst[..], sp, dp);
    while count != 0
      invariant 0 <= count <= n
      invariant dst[..] == Copy(src[..], old(dst[..]), sp, dp, n - count)
      invariant forall i | sp <= i < sp + (n - count) :: src[i] == 0 || fits(src[i])
    {
      var k := n - count;
      var copied := src[sp + k];
      if copied != 0 && !fits(copied) {
        StorableExactly(src[sp..sp + n], fits, k);
        return WORD - 1 - k;
      }
      CopyOneMore(src[..], old(dst[..]), sp, dp, k);
      ghost var before := dst[..];
      dst[dp + k] := copied;
      assert dst[..] == before[dp + k := copied];
      count := count - 1;
    }
    StorableExactly(src[sp..sp + n], fits, n);
    return 0;
  }

  lemma CopyNothing(src: seq<nat>, dst: seq<nat>, sp: nat, dp: nat)
    requires sp <= |src| && dp <= |dst|
    ensures Copy(src, dst, sp, dp, 0) == dst
  {
  }

  lemma CopyOneMore(src: seq<nat>, dst: seq<nat>, sp: nat, dp: nat, k: nat)
    requires sp + k < |src| && dp + k < |dst|
    ensures Copy(src, dst, sp, dp, k)[dp + k := src[sp + k]] == Copy(src, dst, sp, dp, k + 1)
  {
  }

  /** Between different arrays the checked copy, and on a partial result the slow path with the
      adjusted arguments, store and fail exactly as one whole arraycopy would. */
  lemma ResumedCopyIsWhole(src: seq<nat>, dst: seq<nat>, a: Args, fits: nat -> bool, k: nat)
    requires IsWord(a.srcPos) && IsWord(a.dstPos) && IsWord(a.length)
    requires |src| < 0x8000_0000 && |dst| < 0x8000_0000 && Passes(a.srcPos, a.dstPos, a.length, |src|, |dst|)
    requires a.srcPos + a.length <= |src| && k == StorablePrefix(src[a.srcPos..a.srcPos + a.length], fits)
    ensures a.dstPos + a.length <= |dst|
    ensures var first := Copy(src, dst, a.srcPos, a.dstPos, k);
            var whole := JavaCopy(src, dst, a.srcPos, a.dstPos, a.length, fits);
            if StubResult(k, a.length) == 0 then whole == (first, true)
            else
              var b := Resume(a, LowWord(StubResult(k, a.length)));
              && b.srcPos + b.length <= |src| && b.dstPos + b.length <= |dst|
              && JavaCopy(src, first, b.srcPos, b.dstPos, b.length, fits) == whole
  {
    hide Passes, Resume, LowWord, Copy, StorablePrefix;
    ResumeIsSuffix(a, k, |src|, |dst|);
    if k < a.length {
      LowWordOfResult(k, a.length);
      var rest := src[a.srcPos + k..a.srcPos + a.length];
      assert rest[0] == src[a.srcPos..a.srcPos + a.length][k];
      StorableExactly(rest, fits, 0);
      CopyNothing(src, Copy(src, dst, a.srcPos, a.dstPos, k), a.srcPos + k, a.dstPos + k);
    }
  }

  /** Why the checked copy asks its caller for different arrays: resuming a partial copy inside one
      array would be right for all contents only where the prefix overwrites nothing still to be
      read. Equal classes never take the checked path, so the other case does not arise. */
  lemma SameArrayExact(size: nat, sp: nat, dp: nat, n: nat, k: nat)
    requires sp + n <= size && dp + n <= size && k <= n
    ensures (forall a: seq<nat> | |a| == size :: Split(a, sp, dp, n, k) == Copy(a, a, sp, dp, n))
            <==> k == 0 || k == n || dp <= sp || dp >= sp + n
  {
    if k == 0 || k == n || dp <= sp || dp >= sp + n {
      forall a: seq<nat> | |a| == size ensures Split(a, sp, dp, n, k) == Copy(a, a, sp, dp, n) {
        SplitSame(a, sp, dp, n, k);
      }
    } else {
      SplitDiffers(size, sp, dp, n, k);
    }
  }

  function Split(a: seq<nat>, sp: nat, dp: nat, n: nat, k: nat): seq<nat>
    requires sp + n <= |a| && dp + n <= |a| && k <= n
  {
    var first := Copy(a, a, sp, dp, k);
    Copy(first, first, sp + k, dp + k, n - k)
  }

  lemma SplitSame(a: seq<nat>, sp: nat, dp: nat, n: nat, k: nat)
    requires sp + n <= |a| && dp + n <= |a| && k <= n
    requires k == 0 || k == n || dp <= sp || dp >= sp + n
    ensures Split(a, sp, dp, n, k) == Copy(a, a, sp, dp, n)
  {
    hide Copy;
    var first, whole := Copy(a, a, sp, dp, k), Copy(a, a, sp, dp, n);
    var both := Copy(first, first, sp + k, dp + k, n - k);
    CopyLength(a, a, sp, dp, k);
    CopyLength(a, a, sp, dp, n);
    CopyLength(first, first, sp + k, dp + k, n - k);
    forall i | 0 <= i < |a| ensures both[i] == whole[i] {
      CopyAt(a, a, sp, dp, n, i);
      CopyAt(a, a, sp, dp, k, i);
      CopyAt(first, first, sp + k, dp + k, n - k, i);
      if dp + k <= i < dp + n {
        CopyAt(a, a, sp, dp, k, sp + (i - dp));
      }
    }
  }

  lemma CopyLength(src: seq<nat>, dst: seq<nat>, sp: nat, dp: nat, n: nat)
    requires sp + n <= |src| && dp + n <= |dst|
    ensures |Copy(src, dst, sp, dp, n)| == |dst|
  {
  }

  lemma CopyAt(src: seq<nat>, dst: seq<nat>, sp: nat, dp: nat, n: nat, i: nat)
    requires sp + n <= |src| && dp + n <= |dst| == |Copy(src, dst, sp, dp, n)| && i < |dst|
    ensures Copy(src, dst, sp, dp, n)[i] == if dp <= i < dp + n then src[sp + (i - dp)] else dst[i]
  {
  }

  lemma SplitDiffers(size: nat, sp: nat, dp: nat, n: nat, k: nat)
    requires sp + n <= size && dp + n <= size && 0 < k < n && sp < dp < sp + n
    ensures exists a: seq<nat> :: |a| == size && Split(a, sp, dp, n, k) != Copy(a, a, sp, dp, n)
  {
    var a := seq(size, i requires i >= 0 => i);
    var first := Copy(a, a, sp, dp, k);
    var i := if dp < sp + k then k else dp - sp;
    assert first[sp + i] != a[sp + i];
    assert Split(a, sp, dp, n, k)[dp + i] == first[sp + i];
    assert Copy(a, a, sp, dp, n)[dp + i] == a[sp + i];
  }
}
