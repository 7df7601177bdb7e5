/** `process_read_data`: copying from a live process one word at a time. */
module ProcRead {

  type Byte = bv8

  /** The readable words of the process: eight bytes each, at addresses that are multiples of 8. */
  type Memory = map<nat, seq<Byte>>

  predicate MemoryOk(mem: Memory) {
    forall a | a in mem :: |mem[a]| == 8
  }

  function Align(addr: nat): nat {
    addr - addr % 8
  }

  /** The byte at an address whose word is readable. */
  function ByteAt(mem: Memory, addr: nat): Byte
    requires MemoryOk(mem) && Align(addr) in mem
  {
    mem[Align(addr)][addr % 8]
  }

  // ---------------------------------------------------------------- the words peeked at

  function PeekCount(addr: nat, size: nat): nat {
    if addr % 8 == 0 then (size + 7) / 8
    else if size == 0 then 1
    else (addr % 8 + size + 7) / 8
  }

  /** `n` words from the one holding `addr`. */
  function WordsFrom(addr: nat, n: nat): (ws: seq<nat>)
    ensures |ws| == n && forall i | 0 <= i < n :: ws[i] == Align(addr) + 8 * i
  {
    seq(n, (i: nat) => Align(addr) + 8 * i)
  }

  function Peeked(addr: nat, size: nat): seq<nat> {
    WordsFrom(addr, PeekCount(addr, size))
  }

  predicate Overlaps(word: nat, addr: nat, size: nat) {
    word < addr + size && addr < word + 8 && size > 0
  }

  /** Every aligned word that overlaps the range is peeked at, and no other, except that an empty
      range at an unaligned address still costs one peek. */
  lemma PeekedExact(addr: nat, size: nat, word: nat)
    requires word % 8 == 0
    ensures word in Peeked(addr, size)
            <==> Overlaps(word, addr, size) || (size == 0 && addr % 8 != 0 && word == Align(addr))
  {
    var ws := Peeked(addr, size);
    if Overlaps(word, addr, size) {
      var i := (word - Align(addr)) / 8;
      assert ws[i] == word;
    }
    if size == 0 && addr % 8 != 0 && word == Align(addr) {
      assert ws[0] == word;
    }
  }

  /** All peeks overlap the range exactly when it is not an empty unaligned one. */
  lemma PeeksOverlapExactly(addr: nat, size: nat)
    ensures (forall w | w in Peeked(addr, size) :: Overlaps(w, addr, size)) <==> size > 0 || addr % 8 == 0
  {
    forall w | w in Peeked(addr, size)
      ensures w % 8 == 0 && (Overlaps(w, addr, size) || (size == 0 && addr % 8 != 0))
    {
      PeekedExact(addr, size, w);
    }
    if size == 0 && addr % 8 != 0 {
      PeekedExact(addr, size, Align(addr));
      assert Align(addr) in Peeked(addr, size) && !Overlaps(Align(addr), addr, size);
    }
  }

  // ---------------------------------------------------------------- the three phases

  /** `bytes` is what the process has from `addr` on. */
  predicate Filled(mem: Memory, addr: nat, bytes: seq<Byte>)
    requires MemoryOk(mem)
  {
    forall x | addr <= x < addr + |bytes| :: Align(x) in mem && bytes[x - addr] == ByteAt(mem, x)
  }

  /** The peeks so far: the first `n` words, all readable but perhaps the last. */
  predicate Peeking(mem: Memory, addr: nat, peeks: seq<nat>, allRead: bool) {
    && peeks == WordsFrom(addr, |peeks|)
    && (forall i | 0 <= i < |peeks| - 1 :: peeks[i] in mem)
    && (|peeks| > 0 ==> (peeks[|peeks| - 1] in mem <==> allRead))
    && (|peeks| == 0 ==> allRead)
  }

  lemma PeekNext(mem: Memory, addr: nat, peeks: seq<nat>, word: nat)
    requires Peeking(mem, addr, peeks, true) && word == Align(addr) + 8 * |peeks|
    ensures Peeking(mem, addr, peeks + [word], word in mem)
  {
  }

  /** One word, from byte `from` on, up to `n` bytes, into the buffer. */
  method CopyBytes(word: seq<Byte>, from: nat, n: nat, buf: array<Byte>, at: nat)
    requires from + n <= |word| && at + n <= buf.Length
    modifies buf
    ensures buf[..at] == old(buf[..at]) && buf[at..at + n] == word[from..from + n]
  {
    var i := 0;
    while i < n
      invariant 0 <= i <= n
      invariant buf[..at] == old(buf[..at]) && buf[at..at + i] == word[from..from + i]
    {
      buf[at + i] := word[from + i];
      assert buf[at..at + i + 1] == buf[at..at + i] + [word[from + i]];
      i := i + 1;
    }
  }

  /** A copied piece of one word extends what is filled. */
  lemma FillMore(mem: Memory, addr: nat, bytes: seq<Byte>, more: seq<Byte>)
    requires MemoryOk(mem) && Filled(mem, addr, bytes)
    requires var x := addr + |bytes|;
             Align(x) in mem && x % 8 + |more| <= 8 && more == mem[Align(x)][x % 8..x % 8 + |more|]
    ensures Filled(mem, addr, bytes + more)
  {
  }

  /** Where the copy stands: `p` bytes filled, every word peeked at so far readable. */
  ghost predicate At(mem: Memory, addr: nat, buf: array<Byte>, p: nat, peeks: seq<nat>)
    requires MemoryOk(mem)
    reads buf
  {
    p <= buf.Length && Filled(mem, addr, buf[..p]) && Peeking(mem, addr, peeks, true)
  }

  /** Peek at the word holding the next byte and copy `n` bytes of it. */
  method PeekWord(mem: Memory, addr: nat, buf: array<Byte>, p: nat, n: nat, peeks: seq<nat>)
    returns (ok: bool, after: seq<nat>)
    requires MemoryOk(mem) && At(mem, addr, buf, p, peeks) && p + n <= buf.Length
    requires Align(addr + p) == Align(addr) + 8 * |peeks| && (addr + p) % 8 + n <= 8
    modifies buf
    ensures Peeking(mem, addr, after, ok) && |after| == |peeks| + 1
    ensures ok ==> At(mem, addr, buf, p + n, after)
  {
    hide Peeking;
    var x := addr + p;
    PeekNext(mem, addr, peeks, Align(x));
    after := peeks + [Align(x)];
    if Align(x) !in mem {
      return false, after;
    }
    ghost var before := buf[..p];
    CopyBytes(mem[Align(x)], x % 8, n, buf, p);
    assert buf[..p + n] == before + buf[p..p + n];
    FillMore(mem, addr, before, buf[p..p + n]);
    return true, after;
  }

  /** Fills the buffer with the bytes at `addr`; fails exactly when one of the words it needs cannot
      be read, having stopped at the first such word. */
  method ProcessReadData(mem: Memory, addr: nat, buf: array<Byte>) returns (ok: bool, peeks: seq<nat>)
    requires MemoryOk(mem)
    modifies buf
    ensures Peeking(mem, addr, peeks, ok) && |peeks| <= PeekCount(addr, buf.Length)
    ensures ok ==> peeks == Peeked(addr, buf.Length) && Filled(mem, addr, buf[..])
    ensures ok <==> forall w | w in Peeked(addr, buf.Length) :: w in mem
  {
    hide Filled, Peeking, At, Peeked, Align;
    var size, p: nat := buf.Length, 0;
    peeks := [];
    Start(mem, addr, buf);
    if addr % 8 != 0 {
      p := if 8 - addr % 8 < size then 8 - addr % 8 else size;
      ok, peeks := PeekWord(mem, addr, buf, 0, p, peeks);
      if !ok {
        FailedPeek(mem, addr, size, peeks);
        return;
      }
    }
    var words := (size - p) / 8;
    var i := 0;
    while i < words
      invariant 0 <= i <= words && words == (size - p) / 8 + i && p <= size
      invariant At(mem, addr, buf, p, peeks)
      invariant 8 * |peeks| == addr % 8 + p || (p == size && |peeks| == PeekCount(addr, size))
    {
      NextWord(addr, p, |peeks|);
      ok, peeks := PeekWord(mem, addr, buf, p, 8, peeks);
      if !ok {
        FailedPeek(mem, addr, size, peeks);
        return;
      }
      p := p + 8;
      i := i + 1;
    }
    if p != size {
      NextWord(addr, p, |peeks|);
      ok, peeks := PeekWord(mem, addr, buf, p, size - p, peeks);
      if !ok {
        FailedPeek(mem, addr, size, peeks);
        return;
      }
    }
    Finished(mem, addr, buf, peeks);
    ok := true;
  }

  lemma Start(mem: Memory, addr: nat, buf: array<Byte>)
    requires MemoryOk(mem)
    ensures At(mem, addr, buf, 0, []) && Align(addr + 0) == Align(addr) + 8 * 0
  {
  }

  lemma NextWord(addr: nat, p: nat, n: nat)
    requires 8 * n == addr % 8 + p
    ensures (addr + p) % 8 == 0 && Align(addr + p) == Align(addr) + 8 * n
  {
  }

  lemma Finished(mem: Memory, addr: nat, buf: array<Byte>, peeks: seq<nat>)
    requires MemoryOk(mem) && At(mem, addr, buf, buf.Length, peeks) && |peeks| == PeekCount(addr, buf.Length)
    ensures peeks == Peeked(addr, buf.Length) && Filled(mem, addr, buf[..])
    ensures Peeking(mem, addr, peeks, true) && forall w | w in peeks :: w in mem
  {
  }

  lemma FailedPeek(mem: Memory, addr: nat, size: nat, peeks: seq<nat>)
    requires Peeking(mem, addr, peeks, false) && |peeks| <= PeekCount(addr, size)
    ensures exists w :: w in Peeked(addr, size) && w !in mem
  {
    var w := peeks[|peeks| - 1];
    assert Peeked(addr, size)[|peeks| - 1] == w;
  }
}
