/** The checksum of `.gnu_debuglink` files: the table-driven loop against the bit-serial CRC-32 of
    section 8 of RFC 1952. */
module Crc {
  import opened CrcTable

  type Byte = bv8

  // ---------------------------------------------------------------- bit-serial definition

  function Xor(x: bv32, y: bv32): bv32 {
    x ^ y
  }

  function Not(x: bv32): bv32 {
    !x
  }

  function Bit(b: bool): bv32 {
    if b then 1 else 0
  }

  /** Clocks message bits into the shift register, one at a time. */
  function FeedBits(c: bv32, bits: seq<bool>): bv32
    decreases |bits|
  {
    if bits == [] then c else FeedBits(Shift(Xor(c, Bit(bits[0]))), bits[1..])
  }

  function Half(w: bv32): bv32 {
    w >> 1
  }

  predicate LowBit(w: bv32) {
    w & 1 == 1
  }

  /** The `n` low bits of a word, least significant first. */
  function LowBits(w: bv32, n: nat): (bits: seq<bool>)
    ensures |bits| == n
    decreases n
  {
    if n == 0 then [] else [LowBit(w)] + LowBits(Half(w), n - 1)
  }

  function MessageBits(buf: seq<Byte>): (bits: seq<bool>)
    ensures |bits| == 8 * |buf|
  {
    if buf == [] then [] else LowBits(buf[0] as bv32, 8) + MessageBits(buf[1..])
  }

  /** Preset to the complement of the seed, all message bits, final complement. */
  function Crc32(seed: bv32, buf: seq<Byte>): bv32 {
    Not(FeedBits(Not(seed), MessageBits(buf)))
  }

  // ---------------------------------------------------------------- the shift register is linear

  lemma XorBits(x: bv32, y: bv32)
    ensures (x ^ y) >> 1 == (x >> 1) ^ (y >> 1)
    ensures (x ^ y) & 1 == (x & 1) ^ (y & 1)
    ensures x & 1 == 0 || x & 1 == 1
    ensures y & 1 == 0 || y & 1 == 1
  {
  }

  lemma XorPoly(a: bv32, b: bv32, p: bv32)
    ensures (a ^ b) ^ p == a ^ (b ^ p) == (a ^ p) ^ b
    ensures (a ^ p) ^ (b ^ p) == a ^ b
  {
  }

  lemma ShiftXor(x: bv32, y: bv32)
    ensures Shift(Xor(x, y)) == Xor(Shift(x), Shift(y))
  {
    XorBits(x, y);
    XorPoly(x >> 1, y >> 1, 0xEDB88320);
  }

  function ShiftN(x: bv32, n: nat): bv32
    decreases n
  {
    if n == 0 then x else ShiftN(Shift(x), n - 1)
  }

  lemma {:induction false} ShiftNXor(x: bv32, y: bv32, n: nat)
    ensures ShiftN(Xor(x, y), n) == Xor(ShiftN(x, n), ShiftN(y, n))
    decreases n
  {
    hide Shift, Xor;
    if n > 0 {
      ShiftXor(x, y);
      ShiftNXor(Shift(x), Shift(y), n - 1);
    }
  }

  lemma ShiftN8(x: bv32)
    ensures ShiftN(x, 8) == Shift8(x)
  {
  }

  // ---------------------------------------------------------------- bits fed one by one, or all at once

  /** `w` has no bits from position `n` up. */
  predicate Fits(w: bv32, n: nat)
    decreases n
  {
    if n == 0 then w == 0 else Fits(Half(w), n - 1)
  }

  lemma SplitLowBit(c: bv32, w: bv32)
    ensures c ^ w == (c ^ (w & 1)) ^ (w & 0xFFFF_FFFE)
    ensures (w & 0xFFFF_FFFE) & 1 == 0 && (w & 0xFFFF_FFFE) >> 1 == w >> 1
    ensures w & 1 == 0 || w & 1 == 1
  {
  }

  lemma ShiftEven(x: bv32)
    requires x & 1 == 0
    ensures Shift(x) == x >> 1
  {
  }

  lemma SplitXor(c: bv32, w: bv32)
    ensures Xor(c, w) == Xor(Xor(c, Bit(w & 1 == 1)), w & 0xFFFF_FFFE)
    ensures (w & 0xFFFF_FFFE) & 1 == 0
  {
    SplitLowBit(c, w);
  }

  lemma ShiftSplit(c: bv32, w: bv32)
    ensures Shift(Xor(c, w)) == Xor(Shift(Xor(c, Bit(LowBit(w)))), Half(w))
  {
    hide Shift, Xor, Bit;
    SplitXor(c, w);
    SplitLowBit(c, w);
    ShiftEven(w & 0xFFFF_FFFE);
    ShiftXor(Xor(c, Bit(w & 1 == 1)), w & 0xFFFF_FFFE);
  }

  /** Clocking in the bits of `w` is the same as adding `w` to the register first. */
  lemma {:induction false} FeedLowBits(c: bv32, w: bv32, n: nat)
    requires Fits(w, n)
    ensures FeedBits(c, LowBits(w, n)) == ShiftN(Xor(c, w), n)
    decreases n
  {
    if n == 0 {
      XorZero(c);
    } else {
      hide Shift, Xor, Half, LowBit;
      var bits := LowBits(w, n);
      assert bits[0] == LowBit(w) && bits[1..] == LowBits(Half(w), n - 1);
      ShiftSplit(c, w);
      FeedLowBits(Shift(Xor(c, Bit(bits[0]))), Half(w), n - 1);
    }
  }

  lemma XorZero(c: bv32)
    ensures Xor(c, 0) == c
  {
  }

  lemma ByteFits(b: Byte)
    ensures Fits(b as bv32, 8)
  {
  }

  // ---------------------------------------------------------------- one table look-up is eight steps

  lemma SplitByte(c: bv32, b: Byte)
    ensures var x := c ^ (b as bv32);
            && x == (x & 0xFF) ^ (x & 0xFFFF_FF00)
            && (x & 0xFFFF_FF00) >> 8 == c >> 8
            && (x & 0xFFFF_FF00) & 0xFF == 0
            && ((x & 0xFF) as bv8) as bv32 == x & 0xFF
  {
  }

  lemma Shift8High(x: bv32)
    requires x & 0xFF == 0
    ensures Shift8(x) == x >> 8
  {
  }

  /** The body of the loop: one look-up, one shift, one exclusive or. */
  function Update(c: bv32, b: Byte): bv32 {
    Xor(Entry((Xor(c, b as bv32) & 0xFF) as bv8), c >> 8)
  }

  lemma UpdateIsShift8(c: bv32, b: Byte)
    ensures Update(c, b) == Shift8(Xor(c, b as bv32))
  {
    hide Shift, Shift8, Entry;
    var x := c ^ (b as bv32);
    var low, high := x & 0xFF, x & 0xFFFF_FF00;
    SplitByte(c, b);
    EntryExact(low as bv8);
    Shift8High(high);
    assert Update(c, b) == Xor(Shift8(low), Shift8(high));
    assert x == Xor(low, high);
    hide Xor;
    Shift8Xor(low, high);
  }

  lemma Shift8Xor(x: bv32, y: bv32)
    ensures Shift8(Xor(x, y)) == Xor(Shift8(x), Shift8(y))
  {
    hide Shift, Shift8, Xor;
    ShiftN8(x); ShiftN8(y); ShiftN8(Xor(x, y));
    ShiftNXor(x, y, 8);
  }

  lemma UpdateFeedsByte(c: bv32, b: Byte)
    ensures Update(c, b) == FeedBits(c, LowBits(b as bv32, 8))
  {
    hide Shift, Shift8, Xor, Update;
    UpdateIsShift8(c, b);
    ShiftN8(Xor(c, b as bv32));
    ByteFits(b);
    FeedLowBits(c, b as bv32, 8);
  }

  // ---------------------------------------------------------------- gnu_debuglink_crc32

  lemma {:induction false} FeedBitsConcat(c: bv32, a: seq<bool>, b: seq<bool>)
    ensures FeedBits(c, a + b) == FeedBits(FeedBits(c, a), b)
    decreases |a|
  {
    hide Shift, Xor, Bit;
    if a == [] {
      assert a + b == b;
    } else {
      assert (a + b)[1..] == a[1..] + b;
      FeedBitsConcat(Shift(Xor(c, Bit(a[0]))), a[1..], b);
    }
  }

  lemma {:induction false} MessageBitsConcat(a: seq<Byte>, b: seq<Byte>)
    ensures MessageBits(a + b) == MessageBits(a) + MessageBits(b)
  {
    hide LowBits;
    if a == [] {
      assert a + b == b;
    } else {
      assert (a + b)[1..] == a[1..] + b;
      MessageBitsConcat(a[1..], b);
    }
  }

  lemma MessageBitsSnoc(a: seq<Byte>, b: Byte)
    ensures MessageBits(a + [b]) == MessageBits(a) + LowBits(b as bv32, 8)
  {
    hide LowBits;
    MessageBitsConcat(a, [b]);
    assert MessageBits([b]) == LowBits(b as bv32, 8) + MessageBits([]);
  }

  lemma FeedSnoc(c: bv32, buf: seq<Byte>, i: nat)
    requires i < |buf|
    ensures FeedBits(c, MessageBits(buf[..i + 1])) == Update(FeedBits(c, MessageBits(buf[..i])), buf[i])
  {
    hide FeedBits, MessageBits, LowBits, Update;
    assert buf[..i + 1] == buf[..i] + [buf[i]];
    MessageBitsSnoc(buf[..i], buf[i]);
    FeedBitsConcat(c, MessageBits(buf[..i]), LowBits(buf[i] as bv32, 8));
    UpdateFeedsByte(FeedBits(c, MessageBits(buf[..i])), buf[i]);
  }

  method GnuDebuglinkCrc32(seed: bv32, buf: seq<Byte>) returns (r: bv32)
    ensures r == Crc32(seed, buf)
  {
    hide Not, Update;
    var crc := Not(seed);
    var i := 0;
    assert MessageBits(buf[..0]) == [];
    while i < |buf|
      invariant 0 <= i <= |buf|
      invariant crc == FeedBits(Not(seed), MessageBits(buf[..i]))
    {
      hide FeedBits, MessageBits;
      FeedSnoc(Not(seed), buf, i);
      crc := Update(crc, buf[i]);
      i := i + 1;
    }
    assert buf[..i] == buf;
    r := Not(crc);
  }

  // ---------------------------------------------------------------- any chunking gives the file's CRC

  function Flatten(chunks: seq<seq<Byte>>): seq<Byte> {
    if chunks == [] then [] else Flatten(chunks[..|chunks| - 1]) + chunks[|chunks| - 1]
  }

  /** Continuing from the CRC of `a` over `b` gives the CRC of `a + b`. */
  lemma CrcConcat(seed: bv32, a: seq<Byte>, b: seq<Byte>)
    ensures Crc32(Crc32(seed, a), b) == Crc32(seed, a + b)
  {
    hide FeedBits, MessageBits, Not;
    MessageBitsConcat(a, b);
    FeedBitsConcat(Not(seed), MessageBits(a), MessageBits(b));
    NotNot(FeedBits(Not(seed), MessageBits(a)));
  }

  lemma NotNot(x: bv32)
    ensures Not(Not(x)) == x
  {
  }

  lemma CrcEmpty(seed: bv32)
    ensures Crc32(seed, []) == seed
  {
  }

  // ---------------------------------------------------------------- the residue

  function LowByte(w: bv32): Byte {
    (w & 0xFF) as bv8
  }

  function Down8(w: bv32): bv32 {
    w >> 8
  }

  /** A word as four bytes, least significant first. */
  function LittleEndian(w: bv32): seq<Byte> {
    [LowByte(w), LowByte(Down8(w)), LowByte(Down8(Down8(w))), LowByte(Down8(Down8(Down8(w))))]
  }

  function High24(w: bv32): bv32 {
    w & 0xFFFF_FF00
  }

  lemma SplitLowByte(x: bv32, w: bv32)
    ensures x ^ w == (x ^ (((w & 0xFF) as bv8) as bv32)) ^ (w & 0xFFFF_FF00)
    ensures (w & 0xFFFF_FF00) & 0xFF == 0 && (w & 0xFFFF_FF00) >> 8 == w >> 8
  {
  }

  lemma ShiftHigh(w: bv32)
    ensures Shift8(High24(w)) == Down8(w)
  {
    hide Shift8;
    SplitLowByte(0, w);
    Shift8High(High24(w));
  }

  lemma SplitWord(x: bv32, w: bv32)
    ensures Xor(x, w) == Xor(Xor(x, LowByte(w) as bv32), High24(w))
  {
    SplitLowByte(x, w);
  }

  /** Feeding the low byte of a word leaves the rest of it to be fed. */
  lemma FeedLowByte(x: bv32, w: bv32)
    ensures Shift8(Xor(x, w)) == Xor(Update(x, LowByte(w)), Down8(w))
  {
    hide Shift8, Update, Xor, LowByte, Down8, High24;
    SplitWord(x, w);
    UpdateIsShift8(x, LowByte(w));
    ShiftHigh(w);
    Shift8Xor(Xor(x, LowByte(w) as bv32), High24(w));
  }

  lemma NothingLeft(w: bv32)
    ensures Down8(Down8(Down8(Down8(w)))) == 0
  {
  }

  /** Feeding the four bytes of a word is adding it to the register and clocking it 32 times. */
  lemma FeedWord(x: bv32, w: bv32)
    ensures FeedBits(x, MessageBits(LittleEndian(w))) == Shift8(Shift8(Shift8(Shift8(Xor(x, w)))))
  {
    hide Shift8, Xor, Update, FeedBits, MessageBits, LowByte, Down8;
    var buf := LittleEndian(w);
    var u1 := Update(x, buf[0]);
    var u2 := Update(u1, buf[1]);
    var u3 := Update(u2, buf[2]);
    var w1, w2 := Down8(w), Down8(Down8(w));
    FeedLowByte(x, w);
    FeedLowByte(u1, w1);
    FeedLowByte(u2, w2);
    FeedLowByte(u3, Down8(w2));
    NothingLeft(w);
    XorZero(Update(u3, buf[3]));
    FeedFour(x, buf);
  }

  lemma FeedNothing(x: bv32, buf: seq<Byte>)
    requires buf == []
    ensures FeedBits(x, MessageBits(buf)) == x
  {
  }

  lemma FeedFour(x: bv32, buf: seq<Byte>)
    requires |buf| == 4
    ensures FeedBits(x, MessageBits(buf)) == Update(Update(Update(Update(x, buf[0]), buf[1]), buf[2]), buf[3])
  {
    hide Update, FeedBits, MessageBits;
    assert buf[..4] == buf;
    FeedNothing(x, buf[..0]);
    FeedSnoc(x, buf, 0);
    FeedSnoc(x, buf, 1);
    FeedSnoc(x, buf, 2);
    FeedSnoc(x, buf, 3);
  }

  lemma XorNot(x: bv32)
    ensures Xor(x, Not(x)) == 0xFFFF_FFFF
  {
  }

  lemma ResidueValue()
    ensures Shift8(Shift8(Shift8(Shift8(0xFFFF_FFFF)))) == Not(0x2144_DF1C)
  {
    assert Shift8(0xFFFF_FFFF) == 0x2DFD_1072;
    assert Shift8(0x2DFD_1072) == 0xBE26_ED00;
    assert Shift8(0xBE26_ED00) == 0x00BE_26ED;
    assert Shift8(0x00BE_26ED) == 0xDEBB_20E3;
  }

  /** The residue law: the CRC of any file followed by its own CRC is one constant, for any seed. */
  lemma Residue(seed: bv32, buf: seq<Byte>)
    ensures Crc32(seed, buf + LittleEndian(Crc32(seed, buf))) == 0x2144_DF1C
  {
    hide FeedBits, MessageBits, Not, Xor, Shift8, LittleEndian;
    var x := FeedBits(Not(seed), MessageBits(buf));
    MessageBitsConcat(buf, LittleEndian(Not(x)));
    FeedBitsConcat(Not(seed), MessageBits(buf), MessageBits(LittleEndian(Not(x))));
    FeedWord(x, Not(x));
    XorNot(x);
    ResidueValue();
    NotNot(0x2144_DF1C);
  }

  /** The chunks `read` delivers before it first returns nothing. */
  function Delivered(chunks: seq<seq<Byte>>): seq<seq<Byte>> {
    if chunks == [] || chunks[0] == [] then [] else [chunks[0]] + Delivered(chunks[1..])
  }

  lemma {:induction false} DeliveredPrefix(chunks: seq<seq<Byte>>, n: nat)
    requires n <= |chunks| && (forall i | 0 <= i < n :: chunks[i] != []) && (n == |chunks| || chunks[n] == [])
    ensures Delivered(chunks) == chunks[..n]
  {
    if n > 0 {
      DeliveredPrefix(chunks[1..], n - 1);
    }
  }

  /** The loop of `open_debug_file`: `chunks` are the results of successive `read` calls, an empty
      one standing for end of file or an error.  The file is accepted exactly when the CRC of
      everything delivered is the one the debug link names. */
  method OpenDebugFile(chunks: seq<seq<Byte>>, crc: bv32) returns (accepted: bool)
    ensures accepted == (crc == Crc32(0, Flatten(Delivered(chunks))))
  {
    hide Crc32;
    var fileCrc: bv32 := 0;
    var n := 0;
    CrcEmpty(0);
    while n < |chunks| && chunks[n] != []
      invariant 0 <= n <= |chunks| && forall i | 0 <= i < n :: chunks[i] != []
      invariant fileCrc == Crc32(0, Flatten(chunks[..n]))
    {
      assert chunks[..n + 1][..n] == chunks[..n];
      CrcConcat(0, Flatten(chunks[..n]), chunks[n]);
      fileCrc := GnuDebuglinkCrc32(fileCrc, chunks[n]);
      n := n + 1;
    }
    DeliveredPrefix(chunks, n);
    accepted := crc == fileCrc;
  }

  // ---------------------------------------------------------------- what the check detects

  lemma ShiftInjective(x: bv32, y: bv32)
    requires Shift(x) == Shift(y)
    ensures x == y
  {
  }

  lemma {:induction false} ShiftNInjective(x: bv32, y: bv32, n: nat)
    requires ShiftN(x, n) == ShiftN(y, n)
    ensures x == y
    decreases n
  {
    hide Shift;
    if n > 0 {
      ShiftNInjective(Shift(x), Shift(y), n - 1);
      ShiftInjective(x, y);
    }
  }

  lemma XorCancel(c: bv32, x: bv32, y: bv32)
    requires Xor(c, x) == Xor(c, y)
    ensures x == y
  {
  }

  lemma {:induction false} FeedInjective(c: bv32, d: bv32, bits: seq<bool>)
    requires FeedBits(c, bits) == FeedBits(d, bits)
    ensures c == d
    decreases |bits|
  {
    hide Shift, Xor, Bit;
    if bits != [] {
      var b := Bit(bits[0]);
      FeedInjective(Shift(Xor(c, b)), Shift(Xor(d, b)), bits[1..]);
      ShiftInjective(Xor(c, b), Xor(d, b));
      XorCancelRight(c, d, b);
    }
  }

  lemma XorCancelRight(c: bv32, d: bv32, b: bv32)
    requires Xor(c, b) == Xor(d, b)
    ensures c == d
  {
  }

  /** Two bit strings of one length that differ only inside one window of at most 32 bits leave
      the register in different states: the check cannot confuse such files. */
  lemma BurstDetected(c: bv32, before: seq<bool>, x: bv32, y: bv32, n: nat, after: seq<bool>)
    requires n <= 32 && Fits(x, n) && Fits(y, n) && x != y
    ensures FeedBits(c, before + LowBits(x, n) + after) != FeedBits(c, before + LowBits(y, n) + after)
  {
    hide FeedBits, LowBits, Fits, ShiftN, Xor;
    var d := FeedBits(c, before);
    FeedThree(c, before, LowBits(x, n), after);
    FeedThree(c, before, LowBits(y, n), after);
    FeedLowBits(d, x, n); FeedLowBits(d, y, n);
    if FeedBits(ShiftN(Xor(d, x), n), after) == FeedBits(ShiftN(Xor(d, y), n), after) {
      FeedInjective(ShiftN(Xor(d, x), n), ShiftN(Xor(d, y), n), after);
      ShiftNInjective(Xor(d, x), Xor(d, y), n);
      XorCancel(d, x, y);
      assert false;
    }
  }

  lemma FeedThree(c: bv32, before: seq<bool>, mid: seq<bool>, after: seq<bool>)
    ensures FeedBits(c, before + mid + after) == FeedBits(FeedBits(FeedBits(c, before), mid), after)
  {
    hide FeedBits;
    FeedBitsConcat(c, before + mid, after);
    FeedBitsConcat(c, before, mid);
  }

  // ---------------------------------------------------------------- bit strings as words

  function Push(r: bv32, b: bool): bv32 {
    (r << 1) | Bit(b)
  }

  predicate Within(w: bv32, m: bv32) {
    w & m == w
  }

  function Mask(n: nat): bv32 {
    if n == 0 then 0 else Push(Mask(n - 1), true)
  }

  lemma WithinStep(w: bv32, m: bv32)
    requires Within(Half(w), m)
    ensures Within(w, Push(m, true))
  {
  }

  lemma ZeroWithin(w: bv32, m: bv32)
    requires w == 0
    ensures Within(w, m) && Half(w) == 0
  {
  }

  lemma {:induction false} FitsWithin(w: bv32, n: nat, m: nat)
    requires Fits(w, n) && n <= m
    ensures Within(w, Mask(m))
    decreases m
  {
    hide Half, Push, Within;
    if n == 0 {
      ZeroWithin(w, Mask(m));
    } else {
      FitsWithin(Half(w), n - 1, m - 1);
      WithinStep(w, Mask(m - 1));
    }
  }

  function Push8(m: bv32): bv32 {
    (m << 8) | 0xFF
  }

  lemma PushEight(m: bv32)
    ensures Push8(m) ==
            Push(Push(Push(Push(Push(Push(Push(Push(m, true), true), true), true), true), true), true), true)
  {
  }

  lemma MaskEight(n: nat)
    ensures Mask(n + 8) == Push8(Mask(n))
  {
    hide Push, Push8;
    assert Mask(n + 2) == Push(Push(Mask(n), true), true);
    assert Mask(n + 4) == Push(Push(Mask(n + 2), true), true);
    assert Mask(n + 6) == Push(Push(Mask(n + 4), true), true);
    assert Mask(n + 8) == Push(Push(Mask(n + 6), true), true);
    PushEight(Mask(n));
  }

  lemma PushValues()
    ensures Push(Push(Push(Push(Push(Push(Push(0, true), true), true), true), true), true), true) == 0x7F
    ensures Push8(Push8(Push8(0x7F))) == 0x7FFF_FFFF
  {
  }

  lemma Mask31()
    ensures Mask(31) == 0x7FFF_FFFF
  {
    hide Push, Push8;
    assert Mask(2) == Push(Push(Mask(0), true), true);
    assert Mask(4) == Push(Push(Mask(2), true), true);
    assert Mask(6) == Push(Push(Mask(4), true), true);
    assert Mask(7) == Push(Mask(6), true);
    MaskEight(7);
    MaskEight(15);
    MaskEight(23);
    PushValues();
  }

  lemma ShortWord(w: bv32, n: nat)
    requires Fits(w, n) && n <= 31
    ensures w & 0x7FFF_FFFF == w
  {
    hide Fits, Mask;
    FitsWithin(w, n, 31);
    Mask31();
  }

  lemma PushBit(r: bv32, b: bool)
    requires r & 0x7FFF_FFFF == r
    ensures Half(Push(r, b)) == r && LowBit(Push(r, b)) == b
  {
  }

  /** The word with the given low bits. */
  function Word(bits: seq<bool>): bv32 {
    if bits == [] then 0 else Push(Word(bits[1..]), bits[0])
  }

  lemma {:induction false} WordBits(bits: seq<bool>)
    requires |bits| <= 32
    ensures Fits(Word(bits), |bits|) && LowBits(Word(bits), |bits|) == bits
  {
    hide Half, Push, LowBit;
    if bits != [] {
      WordBits(bits[1..]);
      ShortWord(Word(bits[1..]), |bits| - 1);
      PushBit(Word(bits[1..]), bits[0]);
    }
  }

  lemma SameBitsSameWord(x: bv32, y: bv32)
    requires Half(x) == Half(y) && LowBit(x) == LowBit(y)
    ensures x == y
  {
  }

  lemma {:induction false} LowBitsInjective(x: bv32, y: bv32, n: nat)
    requires Fits(x, n) && Fits(y, n) && LowBits(x, n) == LowBits(y, n)
    ensures x == y
    decreases n
  {
    hide Half, LowBit;
    if n > 0 {
      assert LowBits(x, n)[1..] == LowBits(Half(x), n - 1) && LowBits(y, n)[1..] == LowBits(Half(y), n - 1);
      LowBitsInjective(Half(x), Half(y), n - 1);
      assert LowBits(x, n)[0] == LowBits(y, n)[0];
      SameBitsSameWord(x, y);
    }
  }

  lemma SameByte(x: Byte, y: Byte)
    requires x as bv32 == y as bv32
    ensures x == y
  {
  }

  lemma {:induction false} MessageBitsInjective(a: seq<Byte>, b: seq<Byte>)
    requires |a| == |b| && MessageBits(a) == MessageBits(b)
    ensures a == b
  {
    hide LowBits, Fits;
    if a != [] {
      var u, v := LowBits(a[0] as bv32, 8), LowBits(b[0] as bv32, 8);
      assert u == MessageBits(a)[..8] && v == MessageBits(b)[..8];
      assert MessageBits(a[1..]) == MessageBits(a)[8..] && MessageBits(b[1..]) == MessageBits(b)[8..];
      ByteFits(a[0]);
      ByteFits(b[0]);
      LowBitsInjective(a[0] as bv32, b[0] as bv32, 8);
      SameByte(a[0], b[0]);
      MessageBitsInjective(a[1..], b[1..]);
    }
  }

  /** Two different files of one length whose bits differ only inside one window of at most 32 bits
      never have the same CRC, whatever the seed. */
  lemma BurstInFileDetected(seed: bv32, a: seq<Byte>, b: seq<Byte>, i: nat, n: nat)
    requires |a| == |b| && a != b && n <= 32 && i + n <= 8 * |a|
    requires forall j | 0 <= j < 8 * |a| && !(i <= j < i + n) :: MessageBits(a)[j] == MessageBits(b)[j]
    ensures Crc32(seed, a) != Crc32(seed, b)
  {
    hide FeedBits, LowBits, Fits, MessageBits, Word, Not;
    var u, v := MessageBits(a), MessageBits(b);
    var x, y := Word(u[i..i + n]), Word(v[i..i + n]);
    WordBits(u[i..i + n]);
    WordBits(v[i..i + n]);
    SplitWindow(u, v, i, n);
    assert x != y by {
      if u[i..i + n] == v[i..i + n] {
        MessageBitsInjective(a, b);
      }
    }
    BurstDetected(Not(seed), u[..i], x, y, n, u[i + n..]);
    NotNot(FeedBits(Not(seed), u));
    NotNot(FeedBits(Not(seed), v));
  }

  lemma SplitWindow(u: seq<bool>, v: seq<bool>, i: nat, n: nat)
    requires |u| == |v| && i + n <= |u| && forall j | 0 <= j < |u| && !(i <= j < i + n) :: u[j] == v[j]
    ensures u == u[..i] + u[i..i + n] + u[i + n..] && v == u[..i] + v[i..i + n] + u[i + n..]
  {
  }
}
