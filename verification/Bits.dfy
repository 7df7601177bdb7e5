/** Bitwise AND on natural numbers, defined bit by bit, and the mask identities the emitted
    code relies on. */
module Bits {

  const U32: nat := 0x1_0000_0000
  const WORD: nat := 0x1_0000_0000_0000_0000

  function Pow2(k: nat): (p: nat)
    ensures p > 0
  {
    if k == 0 then 1 else 2 * Pow2(k - 1)
  }

  function And(x: nat, y: nat): nat
  {
    if x == 0 || y == 0 then 0
    else 2 * And(x / 2, y / 2) + (x % 2) * (y % 2)
  }

  lemma ModUnique(x: int, d: int, q: int, r: int)
    requires 0 <= r < d && x == q * d + r
    ensures x % d == r && x / d == q
  {
    var q', r' := x / d, x % d;
    assert x == q' * d + r';
    assert (q - q') * d == r' - r;
    MulSign(q - q', d);
  }

  lemma MulSign(a: int, d: int)
    requires d > 0
    ensures a >= 1 ==> a * d >= d
    ensures a <= -1 ==> a * d <= -d
  {
  }

  lemma ModHalf(x: nat, p: nat)
    requires p > 0
    ensures x % (2 * p) == 2 * (x / 2 % p) + x % 2
  {
    var q, r := x / 2 / p, x / 2 % p;
    assert x / 2 == q * p + r;
    assert x == q * (2 * p) + (2 * r + x % 2);
    ModUnique(x, 2 * p, q, 2 * r + x % 2);
  }

  lemma Pow2Monotonic(k: nat, n: nat)
    requires k <= n
    ensures Pow2(k) <= Pow2(n)
  {
  }

  lemma {:induction false} AndOnes(x: nat, n: nat)
    requires x < Pow2(n)
    ensures And(x, Pow2(n) - 1) == x
  {
    if n > 0 && x > 0 {
      AndOnes(x / 2, n - 1);
      assert (Pow2(n) - 1) / 2 == Pow2(n - 1) - 1;
    }
  }

  /** Clearing the low `k` bits of an `n`-bit number. */
  lemma {:induction false} AndClearLow(x: nat, k: nat, n: nat)
    requires k <= n && x < Pow2(n)
    ensures Pow2(k) <= Pow2(n)
    ensures And(x, Pow2(n) - Pow2(k)) == x - x % Pow2(k)
  {
    hide And;
    Pow2Monotonic(k, n);
    if k == 0 {
      AndOnes(x, n);
      ModUnique(x, Pow2(k), x, 0);
    } else {
      var p, q := Pow2(n - 1), Pow2(k - 1);
      AndClearLow(x / 2, k - 1, n - 1);
      ModHalf(x, q);
      AndEven(x, p - q);
    }
  }

  lemma AndEven(x: nat, h: nat)
    ensures And(x, 2 * h) == 2 * And(x / 2, h)
  {
    assert 2 * h / 2 == h && 2 * h % 2 == 0;
  }

  /** Keeping the low `k` bits. */
  lemma {:induction false} AndKeepLow(x: nat, k: nat)
    ensures And(x, Pow2(k) - 1) == x % Pow2(k)
  {
    if k == 0 || x == 0 {
      ModZero(x, k);
    } else {
      var p := Pow2(k - 1);
      AndKeepLow(x / 2, k - 1);
      ModHalf(x, p);
      assert (2 * p - 1) / 2 == p - 1 && (2 * p - 1) % 2 == 1;
    }
  }

  lemma {:induction false} ModZero(x: nat, k: nat)
    requires k == 0 || x == 0
    ensures x % Pow2(k) == 0
  {
    ModUnique(x, Pow2(k), x, 0);
  }

  lemma Pow2At3()
    ensures Pow2(3) == 8
  {
  }

  lemma Pow2At64()
    ensures Pow2(64) == WORD
  {
    Pow2At8Steps(0); Pow2At8Steps(8); Pow2At8Steps(16); Pow2At8Steps(24);
    Pow2At8Steps(32); Pow2At8Steps(40); Pow2At8Steps(48); Pow2At8Steps(56);
  }

  lemma Pow2At8Steps(k: nat)
    ensures Pow2(k + 8) == 256 * Pow2(k)
  {
    assert Pow2(k + 2) == 4 * Pow2(k);
    assert Pow2(k + 4) == 16 * Pow2(k);
    assert Pow2(k + 6) == 64 * Pow2(k);
  }

  lemma PowValues()
    ensures Pow2(0) == 1 && Pow2(1) == 2 && Pow2(2) == 4 && Pow2(3) == 8 && Pow2(4) == 16 && Pow2(5) == 32
    ensures Pow2(6) == 64 && Pow2(7) == 128 && Pow2(8) == 256
  {
  }

  // ---------------------------------------------------------------- or and exclusive or

  function Or(x: nat, y: nat): nat
  {
    if x == 0 then y
    else if y == 0 then x
    else 2 * Or(x / 2, y / 2) + (if x % 2 + y % 2 > 0 then 1 else 0)
  }

  function Xor(x: nat, y: nat): nat
  {
    if x == 0 then y
    else if y == 0 then x
    else 2 * Xor(x / 2, y / 2) + (x % 2 + y % 2) % 2
  }

  lemma XorStep(x: nat, y: nat)
    ensures Xor(x, y) == 2 * Xor(x / 2, y / 2) + (x % 2 + y % 2) % 2
  {
  }

  lemma {:induction false} XorZero(x: nat, y: nat)
    ensures Xor(x, y) == 0 <==> x == y
    decreases x + y
  {
    if x > 0 && y > 0 {
      XorZero(x / 2, y / 2);
    }
  }

  lemma XorHalf(x: nat, y: nat)
    ensures Xor(x, y) / 2 == Xor(x / 2, y / 2) && Xor(x, y) % 2 == (x + y) % 2
  {
    hide Xor;
    XorStep(x, y);
  }

  lemma {:induction false} XorCancel(x: nat, y: nat)
    ensures Xor(Xor(x, y), y) == x
    decreases x + y
  {
    hide Xor;
    if x + y > 0 {
      XorHalf(x, y);
      XorHalf(Xor(x, y), y);
      XorCancel(x / 2, y / 2);
    } else {
      XorZero(0, 0);
    }
  }

  lemma {:induction false} XorBound(x: nat, y: nat, n: nat)
    requires x < Pow2(n) && y < Pow2(n)
    ensures Xor(x, y) < Pow2(n)
  {
    hide Xor;
    if n > 0 {
      XorHalf(x, y);
      XorBound(x / 2, y / 2, n - 1);
    } else {
      XorZero(0, 0);
    }
  }

  /** Setting and testing the two lowest bits, and clearing them. */
  lemma LowBits(x: nat)
    ensures And(x, 1) == x % 2 && And(x, 2) == x / 2 % 2 * 2
    ensures Or(x, 1) == x - x % 2 + 1 && Or(x, 2) == x + 2 - x / 2 % 2 * 2
  {
  }

  /** Exclusive or with a multiple of 4 leaves the two lowest bits. */
  lemma XorAbove(k: nat, x: nat)
    requires k % 4 == 0
    ensures Xor(k, x) == 4 * Xor(k / 4, x / 4) + x % 4
  {
    hide Xor;
    var a, b, c := k / 4, x / 4, x % 4;
    XorEven(2 * a, 2 * b + c / 2, c % 2);
    XorEven(a, b, c / 2);
  }

  lemma XorEven(a: nat, b: nat, bit: nat)
    requires bit < 2
    ensures Xor(2 * a, 2 * b + bit) == 2 * Xor(a, b) + bit
  {
    hide Xor;
    XorStep(2 * a, 2 * b + bit);
    assert 2 * a / 2 == a && (2 * b + bit) / 2 == b;
  }

  lemma XorNothing(x: nat)
    ensures Xor(x, 0) == x
  {
  }

  // ---------------------------------------------------------------- shifts

  function ShiftRight(x: nat, k: nat): nat {
    if k == 0 then x else ShiftRight(x / 2, k - 1)
  }
}
