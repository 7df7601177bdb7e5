/** The one-instruction test for "this mark points into my own stack". */
module RecursionMask {
  import opened Bits

  /** The mark less the stack pointer, masked, on 64-bit registers. */
  function Masked(hdr: nat, sp: nat, page: nat): nat {
    And((hdr - sp) % WORD, (7 - page) % WORD)
  }

  /** What the three tests in the comment on the mask are meant to check. */
  predicate InWindow(hdr: nat, sp: nat, page: nat) {
    hdr % 8 == 0 && sp <= hdr < sp + page
  }

  ghost predicate PageSize(page: nat) {
    exists k: nat :: 3 <= k <= 63 && page == Pow2(k)
  }

  lemma {:induction false} MaskShape(k: nat)
    requires 3 <= k <= 63
    ensures 8 <= Pow2(k) == 8 * Pow2(k - 3) < WORD
    ensures (7 - Pow2(k)) % WORD == 8 * (Pow2(61) - Pow2(k - 3)) + 7
  {
    Pow2At64(); Pow2At3();
    Pow2Monotonic(3, k); Pow2Monotonic(k, 63);
    assert Pow2(k) == 2 * Pow2(k - 1) == 4 * Pow2(k - 2);
    assert Pow2(64) == 2 * Pow2(63) == 4 * Pow2(62);
  }

  lemma {:induction false} MaskValue(x: nat, k: nat)
    requires 3 <= k <= 63 && x < WORD
    ensures And(x, (7 - Pow2(k)) % WORD) == 8 * (x / 8 - x / 8 % Pow2(k - 3)) + x % 8
  {
    hide And, Pow2;
    MaskShape(k);
    Top61(x);
    AndClearLow(x / 8, k - 3, 61);
    AndLow3(x, Pow2(61) - Pow2(k - 3));
  }

  lemma Top61(x: nat)
    requires x < WORD
    ensures x / 8 < Pow2(61)
  {
    Pow2At64();
    assert Pow2(64) == 2 * Pow2(63) == 4 * Pow2(62);
  }

  lemma BelowPage(x: nat, p: nat)
    requires p > 0
    ensures 8 * (x / 8 - x / 8 % p) + x % 8 == 0 <==> x % 8 == 0 && x < 8 * p
  {
  }

  lemma {:induction false} MaskedWord(x: nat, k: nat)
    requires 3 <= k <= 63 && x < WORD
    ensures And(x, (7 - Pow2(k)) % WORD) == 0 <==> x % 8 == 0 && x < Pow2(k)
  {
    MaskValue(x, k);
    BelowPage(x, Pow2(k - 3));
    MaskShape(k);
  }

  lemma {:induction false} AndLow3(x: nat, h: nat)
    ensures And(x, 8 * h + 7) == 8 * And(x / 8, h) + x % 8
  {
    AndOdd(x, 4 * h + 3); AndOdd(x / 2, 2 * h + 1); AndOdd(x / 4, h);
    assert x / 2 / 2 == x / 4 && x / 4 / 2 == x / 8;
  }

  lemma {:induction false} AndOdd(x: nat, h: nat)
    ensures And(x, 2 * h + 1) == 2 * And(x / 2, h) + x % 2
  {
  }

  lemma WindowWord(hdr: nat, sp: nat, page: nat)
    requires page > 0 && hdr < WORD && sp % 8 == 0 && sp + page <= WORD
    ensures var x := (hdr - sp) % WORD;
            x % 8 == 0 && x < page <==> InWindow(hdr, sp, page)
  {
    var q := if hdr < sp then -1 else 0;
    ModUnique(hdr - sp, WORD, q, hdr - sp - q * WORD);
  }

  /** The single mask test decides exactly the three comparisons, with a strict upper bound. */
  lemma {:induction false} MaskTestExact(hdr: nat, sp: nat, page: nat)
    requires PageSize(page) && hdr < WORD && sp % 8 == 0 && sp + page <= WORD
    ensures Masked(hdr, sp, page) == 0 <==> InWindow(hdr, sp, page)
  {
    var k: nat :| 3 <= k <= 63 && page == Pow2(k);
    MaskedWord((hdr - sp) % WORD, k);
    WindowWord(hdr, sp, page);
  }
}
