/** Reading memory of the dead process: `core_read_data` against the memory image of the core file. */
module CoreRead {
  import Bits
  import opened Wrappers
  import opened CoreMaps

  type Byte = bv8

  /** A page size. */
  type Page = p: nat | p > 0 witness 4096

  // ---------------------------------------------------------------- the memory image

  /** The files behind the mappings, by descriptor. */
  type Files = map<int, seq<Byte>>

  /** How many bytes of a mapping its file really holds. */
  function Backed(files: Files, m: Map): (n: nat)
    ensures n <= m.memsz
  {
    if m.fd !in files || |files[m.fd]| <= m.offset then 0
    else if |files[m.fd]| - m.offset < m.memsz then |files[m.fd]| - m.offset
    else m.memsz
  }

  function FileByte(files: Files, m: Map, addr: nat): Byte
    requires m.vaddr <= addr < m.vaddr + Backed(files, m)
  {
    files[m.fd][m.offset + (addr - m.vaddr)]
  }

  /** Bytes from the end of the mapping to the end of its last page. */
  function TailLength(m: Map, page: Page): nat
  {
    if m.memsz % page == 0 then 0 else page - m.memsz % page
  }

  predicate InTail(m: Map, page: Page, addr: nat)
  {
    m.End() <= addr < m.End() + TailLength(m, page)
  }

  /** The byte at an address: from the file, zero in a fractional page, else unknown. */
  function Image(files: Files, maps: seq<Map>, share: seq<Map>, page: Page, addr: nat): Option<Byte>
  {
    match Lookup(maps, share, addr)
    case Some(m) => if addr < m.vaddr + Backed(files, m) then Some(FileByte(files, m, addr)) else None
    case None => if exists m :: m in maps + share && InTail(m, page, addr) then Some(0) else None
  }

  /** Mappings start at page boundaries and stay apart when rounded up to whole pages. */
  predicate Paged(all: seq<Map>, page: Page) {
    && (forall m | m in all :: m.vaddr % page == 0)
    && forall i, j | 0 <= i < j < |all| ::
         || all[i].End() + TailLength(all[i], page) <= all[j].vaddr
         || all[j].End() + TailLength(all[j], page) <= all[i].vaddr
  }

  lemma PagedApart(all: seq<Map>, page: Page, a: Map, b: Map)
    requires Paged(all, page) && a in all && b in all && a != b
    ensures || a.End() + TailLength(a, page) <= b.vaddr
            || b.End() + TailLength(b, page) <= a.vaddr
  {
  }

  // ---------------------------------------------------------------- running on past a mapping's bytes

  /** Both mappings put the same byte of the same file at `x`. */
  predicate SamePlace(a: Map, b: Map, x: nat) {
    a.fd == b.fd && a.offset + (x - a.vaddr) == b.offset + (x - b.vaddr)
  }

  /** A read running on from `m` as far as `x` takes the byte a lookup of `x` would lead to. */
  predicate RunsOn(maps: seq<Map>, share: seq<Map>, page: Page, m: Map, x: nat) {
    var r := Lookup(maps, share, x);
    && (m.Contains(x) ==> r.Some? && SamePlace(r.value, m, x))
    && (InTail(m, page, x) ==> r.None?)
  }

  /** Wherever a lookup finds a mapping, reading on from there stays consistent with lookups. */
  ghost predicate Consistent(maps: seq<Map>, share: seq<Map>, page: Page) {
    forall addr: nat, x: nat | addr <= x && Lookup(maps, share, addr).Some? ::
      RunsOn(maps, share, page, Lookup(maps, share, addr).value, x)
  }

  /** Where mappings start and end. */
  function Bounds(all: seq<Map>): (b: seq<nat>)
    ensures forall m | m in all :: m.vaddr in b && m.End() in b
  {
    if all == [] then [] else [all[0].vaddr, all[0].End()] + Bounds(all[1..])
  }

  /** The same, asked only where mappings start and end. */
  predicate ConsistentAtBounds(maps: seq<Map>, share: seq<Map>, page: Page) {
    var b := Bounds(maps + share);
    forall addr, x | addr in b && x in b && addr <= x && Lookup(maps, share, addr).Some? ::
      RunsOn(maps, share, page, Lookup(maps, share, addr).value, x)
  }

  /** `p` is the last of the bounds at or below `x`. */
  predicate LastBound(b: seq<nat>, p: nat, x: nat) {
    p in b && p <= x && forall q | q in b && q <= x :: q <= p
  }

  lemma {:induction false} FindLastBound(b: seq<nat>, q: nat, x: nat) returns (p: nat)
    requires q in b && q <= x
    ensures LastBound(b, p, x)
  {
    var n := |b| - 1;
    assert b == b[..n] + [b[n]];
    if q' :| q' in b[..n] && q' <= x {
      p := FindLastBound(b[..n], q', x);
      p := if b[n] <= x && p < b[n] then b[n] else p;
    } else {
      p := b[n];
    }
  }

  lemma {:induction false} SameScan(maps: seq<Map>, p: nat, x: nat)
    requires forall m | m in maps :: m.Contains(p) <==> m.Contains(x)
    ensures Scan(maps, p) == Scan(maps, x)
  {
    if maps != [] {
      assert maps[0].Contains(p) <==> maps[0].Contains(x);
      SameScan(maps[1..], p, x);
    }
  }

  /** Between two bounds a lookup finds the same everywhere. */
  lemma SameLookup(maps: seq<Map>, share: seq<Map>, p: nat, x: nat)
    requires LastBound(Bounds(maps + share), p, x)
    ensures forall m | m in maps + share :: m.Contains(p) <==> m.Contains(x)
    ensures Lookup(maps, share, p) == Lookup(maps, share, x)
  {
    hide Bounds;
    forall m | m in maps + share ensures m.Contains(p) <==> m.Contains(x) {
      assert m.vaddr in Bounds(maps + share) && m.End() in Bounds(maps + share);
    }
    forall m | m in maps ensures m.Contains(p) <==> m.Contains(x) {
      assert m in maps + share;
    }
    SameScan(maps, p, x);
    forall m | m in share ensures m.Contains(p) <==> m.Contains(x) {
      assert m in maps + share;
    }
    SameScan(share, p, x);
  }

  lemma RunsOnBetween(maps: seq<Map>, share: seq<Map>, page: Page, m: Map, p: nat, x: nat)
    requires LastBound(Bounds(maps + share), p, x) && m in maps + share
    requires RunsOn(maps, share, page, m, p)
    ensures RunsOn(maps, share, page, m, x)
  {
    hide Bounds, Lookup, TailLength;
    SameLookup(maps, share, p, x);
    assert m.End() in Bounds(maps + share);
  }

  /** Being consistent everywhere is being consistent where mappings start and end. */
  lemma ConsistentExactly(maps: seq<Map>, share: seq<Map>, page: Page)
    ensures Consistent(maps, share, page) <==> ConsistentAtBounds(maps, share, page)
  {
    hide Bounds, Lookup, RunsOn, LastBound;
    if ConsistentAtBounds(maps, share, page) {
      forall addr: nat, x: nat | addr <= x && Lookup(maps, share, addr).Some?
        ensures RunsOn(maps, share, page, Lookup(maps, share, addr).value, x)
      {
        var p := BoundBelow(maps, share, addr);
        var q := BoundAfter(maps, share, p, addr, x);
        RunsOnBetween(maps, share, page, Lookup(maps, share, addr).value, q, x);
      }
    }
  }

  lemma BoundBelow(maps: seq<Map>, share: seq<Map>, addr: nat) returns (p: nat)
    requires Lookup(maps, share, addr).Some?
    ensures p in Bounds(maps + share) && p <= addr && Lookup(maps, share, p) == Lookup(maps, share, addr)
    ensures Lookup(maps, share, addr).value in maps + share && Lookup(maps, share, addr).value.Contains(p)
  {
    hide Bounds, Lookup;
    LookupFinds(maps, share, addr);
    p := FindLastBound(Bounds(maps + share), Lookup(maps, share, addr).value.vaddr, addr);
    SameLookup(maps, share, p, addr);
  }

  lemma BoundAfter(maps: seq<Map>, share: seq<Map>, p: nat, addr: nat, x: nat) returns (q: nat)
    requires p in Bounds(maps + share) && p <= addr <= x
    ensures LastBound(Bounds(maps + share), q, x) && q in Bounds(maps + share) && p <= q
  {
    q := FindLastBound(Bounds(maps + share), p, x);
  }

  /** Mappings that stay apart when rounded up to pages are consistent. */
  lemma PagedConsistent(maps: seq<Map>, share: seq<Map>, page: Page)
    requires Paged(maps + share, page)
    ensures Consistent(maps, share, page)
  {
    hide Paged, RunsOn, Lookup;
    forall addr: nat, x: nat | addr <= x && Lookup(maps, share, addr).Some?
      ensures RunsOn(maps, share, page, Lookup(maps, share, addr).value, x)
    {
      LookupFinds(maps, share, addr);
      PagedRunsOn(maps, share, page, Lookup(maps, share, addr).value, x);
    }
  }

  lemma PagedRunsOn(maps: seq<Map>, share: seq<Map>, page: Page, m: Map, x: nat)
    requires Paged(maps + share, page) && m in maps + share
    ensures RunsOn(maps, share, page, m, x)
  {
    hide Paged, Lookup, TailLength;
    var r := Lookup(maps, share, x);
    LookupFinds(maps, share, x);
    if r.Some? && r.value != m {
      PagedApart(maps + share, page, r.value, m);
    }
  }

  /** A lookup finds a mapping that contains the address, whenever there is one. */
  lemma LookupFinds(maps: seq<Map>, share: seq<Map>, addr: nat)
    ensures var r := Lookup(maps, share, addr);
            && (r.None? <==> forall m | m in maps + share :: !m.Contains(addr))
            && (r.Some? ==> r.value in maps + share && r.value.Contains(addr))
  {
  }

  /** Past its end, up to the page boundary, a mapping reads as zero. */
  lemma TailImage(files: Files, maps: seq<Map>, share: seq<Map>, page: Page, m: Map, x: nat)
    requires RunsOn(maps, share, page, m, x) && m in maps + share && InTail(m, page, x)
    ensures Image(files, maps, share, page, x) == Some(0)
  {
  }

  lemma BodyImage(files: Files, maps: seq<Map>, share: seq<Map>, page: Page, m: Map, x: nat)
    requires RunsOn(maps, share, page, m, x) && m.vaddr <= x < m.vaddr + Backed(files, m)
    ensures Image(files, maps, share, page, x) == Some(FileByte(files, m, x))
  {
    LookupFinds(maps, share, x);
  }

  /** A page boundary is in no fractional page tail. */
  lemma AlignedNotInTail(m: Map, page: Page, addr: nat)
    requires m.vaddr % page == 0 && addr % page == 0
    ensures !InTail(m, page, addr)
  {
    if InTail(m, page, addr) {
      var a, b, q, r := m.vaddr / page, addr / page, m.memsz / page, m.memsz % page;
      assert m.vaddr == a * page && addr == b * page && m.memsz == q * page + r;
      assert (b - a - q) * page == addr - m.vaddr - q * page;
      assert 0 < r <= (b - a - q) * page < page;
      Bits.MulSign(b - a - q, page);
      assert false;
    }
  }

  lemma RoundedEndAligned(m: Map, page: Page)
    requires m.vaddr % page == 0
    ensures (m.End() + TailLength(m, page)) % page == 0
  {
    var a, q, r := m.vaddr / page, m.memsz / page, m.memsz % page;
    assert m.vaddr == a * page && m.memsz == q * page + r;
    if r == 0 {
      assert m.End() == (a + q) * page;
      Bits.ModUnique(m.End(), page, a + q, 0);
    } else {
      assert m.End() + TailLength(m, page) == (a + q + 1) * page;
      Bits.ModUnique(m.End() + TailLength(m, page), page, a + q + 1, 0);
    }
  }

  // ---------------------------------------------------------------- the read, as a function

  function Min(x: nat, y: nat): nat {
    if x < y then x else y
  }

  /** `pread`: as many bytes as the file has at that offset, up to `len`. */
  function Pread(files: Files, fd: int, len: nat, off: nat): seq<Byte> {
    if fd !in files || |files[fd]| <= off then [] else files[fd][off..Min(off + len, |files[fd]|)]
  }

  function Zeros(n: nat): (z: seq<Byte>)
    ensures |z| == n && forall i | 0 <= i < n :: z[i] == 0
  {
    seq(n, _ => 0)
  }

  /** What one round reads from the mapping at `addr`. */
  function Segment(files: Files, m: Map, addr: nat, size: nat): (got: seq<Byte>)
    requires m.Contains(addr)
    ensures |got| <= size
  {
    Pread(files, m.fd, Min(size, m.End() - addr), m.offset + (addr - m.vaddr))
  }

  /** The bytes core_read_data delivers, or None where it fails. */
  function Read(files: Files, maps: seq<Map>, share: seq<Map>, page: Page, addr: nat, size: nat): Option<seq<Byte>>
    decreases size
  {
    if size == 0 then Some([])
    else
      match Lookup(maps, share, addr)
      case None => None
      case Some(m) =>
        var got := Segment(files, m, addr, size);
        if |got| == 0 then None
        else
          var fill := Min(size - |got|, TailLength(m, page));
          var rest := Read(files, maps, share, page, addr + |got| + fill, size - |got| - fill);
          if rest.None? then None else Some(got + Zeros(fill) + rest.value)
  }

  lemma SegmentBytes(files: Files, m: Map, addr: nat, size: nat)
    requires m.Contains(addr)
    ensures var got, off := Segment(files, m, addr, size), addr - m.vaddr;
            && |got| == Min(size, if off < Backed(files, m) then Backed(files, m) - off else 0)
            && off + |got| <= Backed(files, m) + (if |got| == 0 then off else 0)
            && forall i | 0 <= i < |got| :: got[i] == FileByte(files, m, addr + i)
  {
  }

  // ---------------------------------------------------------------- soundness

  predicate FullyBacked(files: Files, all: seq<Map>) {
    forall m | m in all :: Backed(files, m) == m.memsz
  }

  /** No mapping that ends inside a page and is read from is cut short by its file. */
  ghost predicate TailsBacked(files: Files, maps: seq<Map>, share: seq<Map>, page: Page)
  {
    forall addr: nat | Lookup(maps, share, addr).Some? ::
      var m := Lookup(maps, share, addr).value;
      addr < m.vaddr + Backed(files, m) ==> m.memsz % page == 0 || Backed(files, m) == m.memsz
  }

  predicate Agrees(files: Files, maps: seq<Map>, share: seq<Map>, page: Page, addr: nat, bytes: seq<Byte>)
  {
    forall x | addr <= x < addr + |bytes| :: Image(files, maps, share, page, x) == Some(bytes[x - addr])
  }

  lemma AgreesConcat(files: Files, maps: seq<Map>, share: seq<Map>, page: Page, addr: nat, a: seq<Byte>, b: seq<Byte>)
    requires Agrees(files, maps, share, page, addr, a)
    requires Agrees(files, maps, share, page, addr + |a|, b)
    ensures Agrees(files, maps, share, page, addr, a + b)
  {
  }

  lemma SegmentAgrees(files: Files, maps: seq<Map>, share: seq<Map>, page: Page, m: Map, addr: nat, size: nat)
    requires m.Contains(addr) && forall x: nat | addr <= x :: RunsOn(maps, share, page, m, x)
    ensures Agrees(files, maps, share, page, addr, Segment(files, m, addr, size))
  {
    hide Image, Segment, RunsOn;
    SegmentBytes(files, m, addr, size);
    var got := Segment(files, m, addr, size);
    forall x | addr <= x < addr + |got| ensures Image(files, maps, share, page, x) == Some(got[x - addr]) {
      assert got[x - addr] == FileByte(files, m, addr + (x - addr));
      BodyImage(files, maps, share, page, m, x);
    }
  }

  lemma FillAgrees(files: Files, maps: seq<Map>, share: seq<Map>, page: Page, m: Map, addr: nat, n: nat)
    requires m in maps + share && forall x: nat | addr <= x :: RunsOn(maps, share, page, m, x)
    requires n == 0 || (addr == m.End() && n <= TailLength(m, page))
    ensures Agrees(files, maps, share, page, addr, Zeros(n))
  {
    hide Image, RunsOn;
    forall x | addr <= x < addr + n ensures Image(files, maps, share, page, x) == Some(0) {
      TailImage(files, maps, share, page, m, x);
    }
  }

  /** One round of the loop delivers the memory image. */
  lemma RoundAgrees(files: Files, maps: seq<Map>, share: seq<Map>, page: Page, addr: nat, size: nat)
    requires Consistent(maps, share, page) && TailsBacked(files, maps, share, page)
    requires Lookup(maps, share, addr).Some? && Lookup(maps, share, addr).value.Contains(addr)
    requires Segment(files, Lookup(maps, share, addr).value, addr, size) != []
    ensures var m := Lookup(maps, share, addr).value;
            var got := Segment(files, m, addr, size);
            var fill := Min(size - |got|, TailLength(m, page));
            Agrees(files, maps, share, page, addr, got + Zeros(fill))
  {
    hide Agrees, RunsOn, Segment, Lookup;
    var m := Lookup(maps, share, addr).value;
    LookupFinds(maps, share, addr);
    assert forall x: nat | addr <= x :: RunsOn(maps, share, page, m, x);
    var got := Segment(files, m, addr, size);
    SegmentBytes(files, m, addr, size);
    var fill := Min(size - |got|, TailLength(m, page));
    SegmentAgrees(files, maps, share, page, m, addr, size);
    FillAgrees(files, maps, share, page, m, addr + |got|, fill);
    AgreesConcat(files, maps, share, page, addr, got, Zeros(fill));
  }

  /** Every successful read delivers the memory image, provided reading on is consistent with lookups
      and no fractional mapping is cut short. */
  lemma {:induction false} ReadSound(files: Files, maps: seq<Map>, share: seq<Map>, page: Page, addr: nat, size: nat)
    requires Consistent(maps, share, page) && TailsBacked(files, maps, share, page)
    requires Read(files, maps, share, page, addr, size).Some?
    ensures var r := Read(files, maps, share, page, addr, size).value;
            |r| == size && Agrees(files, maps, share, page, addr, r)
    decreases size
  {
    hide Agrees, Consistent, TailsBacked, Segment, TailLength, Lookup;
    if size == 0 {
      AgreesNothing(files, maps, share, page, addr);
    } else {
      LookupContains(maps, share, addr);
      var m := Lookup(maps, share, addr).value;
      var got := Segment(files, m, addr, size);
      var fill := Min(size - |got|, TailLength(m, page));
      var next, left := addr + |got| + fill, size - |got| - fill;
      RoundAgrees(files, maps, share, page, addr, size);
      ReadSound(files, maps, share, page, next, left);
      AgreesConcat(files, maps, share, page, addr, got + Zeros(fill), Read(files, maps, share, page, next, left).value);
    }
  }

  lemma AgreesNothing(files: Files, maps: seq<Map>, share: seq<Map>, page: Page, addr: nat)
    ensures Agrees(files, maps, share, page, addr, [])
  {
  }

  /** Every successful read delivers the memory image. */
  ghost predicate AllSound(files: Files, maps: seq<Map>, share: seq<Map>, page: Page) {
    forall addr: nat, size: nat | Read(files, maps, share, page, addr, size).Some? ::
      Agrees(files, maps, share, page, addr, Read(files, maps, share, page, addr, size).value)
  }

  lemma AlwaysSound(files: Files, maps: seq<Map>, share: seq<Map>, page: Page)
    requires Consistent(maps, share, page) && TailsBacked(files, maps, share, page)
    ensures AllSound(files, maps, share, page)
  {
    hide Agrees, Consistent, TailsBacked, Read;
    forall addr: nat, size: nat | Read(files, maps, share, page, addr, size).Some?
      ensures Agrees(files, maps, share, page, addr, Read(files, maps, share, page, addr, size).value)
    {
      ReadSound(files, maps, share, page, addr, size);
    }
  }

  /** Reads are sound for every address and size exactly when no mapping with a fractional page is
      cut short by its file: otherwise the zero fill lands in front of the missing bytes. */
  lemma SoundExactly(files: Files, maps: seq<Map>, share: seq<Map>, page: Page)
    requires Consistent(maps, share, page)
    ensures AllSound(files, maps, share, page) <==> TailsBackedAtBounds(files, maps, share, page)
  {
    hide Agrees, Consistent, Read, Lookup, TailsBackedAtBounds;
    TailsBackedExactly(files, maps, share, page);
    if TailsBacked(files, maps, share, page) {
      AlwaysSound(files, maps, share, page);
    } else {
      var addr: nat :| Lookup(maps, share, addr).Some? &&
                       var m := Lookup(maps, share, addr).value;
                       addr < m.vaddr + Backed(files, m) && m.memsz % page != 0 && Backed(files, m) != m.memsz;
      CutShort(files, maps, share, page, addr);
    }
  }

  /** The condition, asked only where mappings start and end. */
  predicate TailsBackedAtBounds(files: Files, maps: seq<Map>, share: seq<Map>, page: Page) {
    forall addr | addr in Bounds(maps + share) && Lookup(maps, share, addr).Some? ::
      var m := Lookup(maps, share, addr).value;
      addr < m.vaddr + Backed(files, m) ==> m.memsz % page == 0 || Backed(files, m) == m.memsz
  }

  lemma TailsBackedExactly(files: Files, maps: seq<Map>, share: seq<Map>, page: Page)
    ensures TailsBacked(files, maps, share, page) <==> TailsBackedAtBounds(files, maps, share, page)
  {
    hide Bounds, Lookup, Backed;
    if TailsBackedAtBounds(files, maps, share, page) {
      forall addr: nat | Lookup(maps, share, addr).Some?
        ensures var m := Lookup(maps, share, addr).value;
                addr < m.vaddr + Backed(files, m) ==> m.memsz % page == 0 || Backed(files, m) == m.memsz
      {
        var p := BoundBelow(maps, share, addr);
      }
    }
  }

  /** A read that runs to where the file ends, and one byte further, takes a zero for the missing byte. */
  lemma CutShort(files: Files, maps: seq<Map>, share: seq<Map>, page: Page, addr: nat)
    requires Consistent(maps, share, page) && Lookup(maps, share, addr).Some?
    requires var m := Lookup(maps, share, addr).value;
             addr < m.vaddr + Backed(files, m) && m.memsz % page != 0 && Backed(files, m) != m.memsz
    ensures !AllSound(files, maps, share, page)
  {
    hide Segment, Image, Lookup;
    LookupFinds(maps, share, addr);
    var m := Lookup(maps, share, addr).value;
    var cut := m.vaddr + Backed(files, m);
    var size := cut - addr + 1;
    SegmentBytes(files, m, addr, size);
    var got := Segment(files, m, addr, size);
    assert |got| == size - 1 && TailLength(m, page) >= 1;
    ReadStep(files, maps, share, page, addr, size);
    ReadNothing(files, maps, share, page, cut + 1);
    var r := Read(files, maps, share, page, addr, size);
    assert r == Some(got + Zeros(1) + []);
    assert RunsOn(maps, share, page, m, cut);
    UnbackedImage(files, maps, share, page, m, cut);
    assert !Agrees(files, maps, share, page, addr, r.value);
  }

  /** One mapping of two bytes whose file has one: a read of both succeeds, with a zero for the second. */
  lemma CutShortExample(b: Byte)
    ensures var m, files, page := Map(3, 0, 0, 2), map[3 := [b]], 4096;
            && Consistent([m], [], page) && !TailsBackedAtBounds(files, [m], [], page)
            && Read(files, [m], [], page, 0, 2) == Some([b, 0])
            && Image(files, [m], [], page, 1) == None
  {
    hide Read, Consistent;
    var m, files: Files, page := Map(3, 0, 0, 2), map[3 := [b]], 4096;
    PagedConsistent([m], [], page);
    assert Lookup([m], [], 0) == Some(m) && Lookup([m], [], 1) == Some(m);
    assert Segment(files, m, 0, 2) == [b];
    ReadStep(files, [m], [], page, 0, 2);
    ReadNothing(files, [m], [], page, 2);
    assert [b] + Zeros(1) + [] == [b, 0];
    assert 0 in Bounds([m] + []);
  }

  lemma UnbackedImage(files: Files, maps: seq<Map>, share: seq<Map>, page: Page, m: Map, x: nat)
    requires RunsOn(maps, share, page, m, x) && m.vaddr + Backed(files, m) <= x < m.End()
    ensures Image(files, maps, share, page, x) == None
  {
    LookupFinds(maps, share, x);
  }

  // ---------------------------------------------------------------- overlapping mappings

  /** Whatever complete files are behind the mappings, all reads are sound: exactly when reading on from
      a mapping is consistent with looking up each address, which shows where mappings start and end. */
  lemma OverlapExactly(maps: seq<Map>, share: seq<Map>, page: Page)
    ensures (forall files: Files | FullyBacked(files, maps + share) :: AllSound(files, maps, share, page))
            <==> ConsistentAtBounds(maps, share, page)
  {
    hide AllSound, Lookup, RunsOn, FullyBacked, ConsistentAtBounds;
    ConsistentExactly(maps, share, page);
    if Consistent(maps, share, page) {
      forall files: Files | FullyBacked(files, maps + share) ensures AllSound(files, maps, share, page) {
        CompleteTails(files, maps, share, page);
        AlwaysSound(files, maps, share, page);
      }
    } else {
      var addr: nat, x: nat :| addr <= x && Lookup(maps, share, addr).Some? &&
                               !RunsOn(maps, share, page, Lookup(maps, share, addr).value, x);
      var files := Telling(maps, share, page, addr, x);
      assert FullyBacked(files, maps + share) && !AllSound(files, maps, share, page);
    }
  }

  lemma CompleteTails(files: Files, maps: seq<Map>, share: seq<Map>, page: Page)
    requires FullyBacked(files, maps + share)
    ensures TailsBacked(files, maps, share, page)
  {
    hide Lookup;
    forall addr: nat {
      LookupFinds(maps, share, addr);
    }
  }

  /** A length that covers every mapping. */
  function Extent(all: seq<Map>): (n: nat)
    ensures forall m | m in all :: m.offset + m.memsz <= n
  {
    if all == [] then 0
    else
      var rest := Extent(all[1..]);
      if all[0].offset + all[0].memsz < rest then rest else all[0].offset + all[0].memsz
  }

  function Descriptors(all: seq<Map>): (fds: set<int>)
    ensures forall m | m in all :: m.fd in fds
  {
    set m | m in all :: m.fd
  }

  /** Files that are zero but for one byte. */
  function Marked(all: seq<Map>, fd: int, pos: nat): (files: Files)
    ensures FullyBacked(files, all)
  {
    var n := Extent(all);
    var zeros: seq<Byte> := Zeros(n);
    map f | f in Descriptors(all) :: if f == fd && pos < n then zeros[pos := 1] else zeros
  }

  lemma MarkedByte(all: seq<Map>, fd: int, pos: nat, m: Map, x: nat)
    requires m in all && m.Contains(x)
    ensures Backed(Marked(all, fd, pos), m) == m.memsz
    ensures FileByte(Marked(all, fd, pos), m, x) == if m.fd == fd && m.offset + (x - m.vaddr) == pos then 1 else 0
  {
  }

  /** With complete files, the last byte of a read that runs on from a mapping to `x`. */
  lemma RunningOn(files: Files, maps: seq<Map>, share: seq<Map>, page: Page, m: Map, addr: nat, x: nat)
    requires Lookup(maps, share, addr) == Some(m) && m.Contains(addr) && Backed(files, m) == m.memsz && addr <= x
    requires m.Contains(x) || InTail(m, page, x)
    ensures var r := Read(files, maps, share, page, addr, x - addr + 1);
            && r.Some? && |r.value| == x - addr + 1
            && r.value[x - addr] == if m.Contains(x) then FileByte(files, m, x) else 0
  {
    hide Segment, Lookup, Read, TailLength;
    var size := x - addr + 1;
    SegmentBytes(files, m, addr, size);
    var got := Segment(files, m, addr, size);
    ReadStep(files, maps, share, page, addr, size);
    ReadNothing(files, maps, share, page, x + 1);
    if m.Contains(x) {
      assert got[x - addr] == FileByte(files, m, addr + (x - addr));
    }
  }

  /** Where reading on departs from looking up, some files tell the difference. */
  lemma Telling(maps: seq<Map>, share: seq<Map>, page: Page, addr: nat, x: nat) returns (files: Files)
    requires addr <= x && Lookup(maps, share, addr).Some?
    requires !RunsOn(maps, share, page, Lookup(maps, share, addr).value, x)
    ensures FullyBacked(files, maps + share) && !AllSound(files, maps, share, page)
  {
    hide Lookup, Read, TailLength, Extent, Zeros, Marked, Backed;
    LookupFinds(maps, share, addr);
    LookupFinds(maps, share, x);
    var m, r := Lookup(maps, share, addr).value, Lookup(maps, share, x).value;
    var marked := if m.Contains(x) then m else r;
    var pos := marked.offset + (x - marked.vaddr);
    files := Marked(maps + share, marked.fd, pos);
    MarkedByte(maps + share, marked.fd, pos, m, addr);
    MarkedByte(maps + share, marked.fd, pos, r, x);
    if m.Contains(x) {
      MarkedByte(maps + share, marked.fd, pos, m, x);
    }
    RunningOn(files, maps, share, page, m, addr, x);
    assert Image(files, maps, share, page, x) == Some(FileByte(files, r, x));
    assert !Agrees(files, maps, share, page, addr, Read(files, maps, share, page, addr, x - addr + 1).value);
  }

  /** An ordinary mapping over the middle of a class-sharing one makes reads that run on from the latter
      return bytes of the sharing archive for addresses the core file describes. */
  lemma OverlaidShare(page: Page, share: Map, m: Map)
    requires share.vaddr < m.vaddr < share.End() && m.memsz > 0 && m.fd != share.fd
    ensures !Consistent([m], [share], page)
  {
    assert Lookup([m], [share], share.vaddr) == Some(share);
    assert Lookup([m], [share], m.vaddr) == Some(m);
    assert !RunsOn([m], [share], page, share, m.vaddr);
  }

  // ---------------------------------------------------------------- completeness

  /** Every byte of the range has a known value. */
  predicate Known(files: Files, maps: seq<Map>, share: seq<Map>, page: Page, addr: nat, size: nat) {
    forall x | addr <= x < addr + size :: Image(files, maps, share, page, x).Some?
  }

  predicate Aligned(all: seq<Map>, page: Page) {
    forall m | m in all :: m.vaddr % page == 0
  }

  lemma {:induction false} ReadComplete(files: Files, maps: seq<Map>, share: seq<Map>, page: Page, addr: nat, size: nat)
    requires Aligned(maps + share, page) && FullyBacked(files, maps + share)
    requires size > 0 ==> Lookup(maps, share, addr).Some?
    requires Known(files, maps, share, page, addr, size)
    ensures Read(files, maps, share, page, addr, size).Some?
    decreases size
  {
    hide Image, Segment;
    if size > 0 {
      var m := Lookup(maps, share, addr).value;
      assert m in maps + share && m.Contains(addr);
      var got := Segment(files, m, addr, size);
      SegmentBytes(files, m, addr, size);
      var fill := Min(size - |got|, TailLength(m, page));
      var next, left := addr + |got| + fill, size - |got| - fill;
      if left > 0 {
        assert next == m.End() + TailLength(m, page);
        assert Image(files, maps, share, page, next).Some?;
        NextIsMapped(files, maps, share, page, m, next);
      }
      ReadComplete(files, maps, share, page, next, left);
    }
  }

  lemma NextIsMapped(files: Files, maps: seq<Map>, share: seq<Map>, page: Page, m: Map, next: nat)
    requires Aligned(maps + share, page) && m in maps + share && next == m.End() + TailLength(m, page)
    requires Image(files, maps, share, page, next).Some?
    ensures Lookup(maps, share, next).Some?
  {
    RoundedEndAligned(m, page);
    forall k | k in maps + share ensures !InTail(k, page, next) {
      AlignedNotInTail(k, page, next);
    }
  }

  /** With complete files every mapped address and every page tail has a known value. */
  lemma RoundKnown(files: Files, maps: seq<Map>, share: seq<Map>, page: Page, m: Map, x: nat)
    requires FullyBacked(files, maps + share) && m in maps + share
    requires m.Contains(x) || InTail(m, page, x)
    ensures Image(files, maps, share, page, x).Some?
  {
    LookupFinds(maps, share, x);
  }

  lemma {:induction false} ReadKnown(files: Files, maps: seq<Map>, share: seq<Map>, page: Page, addr: nat, size: nat)
    requires FullyBacked(files, maps + share) && Read(files, maps, share, page, addr, size).Some?
    ensures Known(files, maps, share, page, addr, size)
    decreases size
  {
    hide Image, Segment, Lookup, FullyBacked;
    if size > 0 {
      LookupFinds(maps, share, addr);
      var m := Lookup(maps, share, addr).value;
      var got := Segment(files, m, addr, size);
      SegmentBytes(files, m, addr, size);
      var fill := Min(size - |got|, TailLength(m, page));
      var next := addr + |got| + fill;
      Complete(files, maps + share, m);
      forall x | addr <= x < next ensures Image(files, maps, share, page, x).Some? {
        RoundKnown(files, maps, share, page, m, x);
      }
      ReadKnown(files, maps, share, page, next, size - |got| - fill);
    }
  }

  lemma Complete(files: Files, all: seq<Map>, m: Map)
    requires FullyBacked(files, all) && m in all
    ensures Backed(files, m) == m.memsz
  {
  }

  /** With complete files a read succeeds exactly when it starts inside a mapping and every byte of
      the range has a known value, across any number of mappings, overlapping or not. */
  lemma SucceedsExactly(files: Files, maps: seq<Map>, share: seq<Map>, page: Page, addr: nat, size: nat)
    requires Aligned(maps + share, page) && FullyBacked(files, maps + share)
    ensures Read(files, maps, share, page, addr, size).Some?
            <==> size == 0 || (Lookup(maps, share, addr).Some? && Known(files, maps, share, page, addr, size))
  {
    hide Aligned, FullyBacked, Image, Known;
    if Read(files, maps, share, page, addr, size).Some? {
      ReadKnown(files, maps, share, page, addr, size);
    } else if Lookup(maps, share, addr).Some? && Known(files, maps, share, page, addr, size) {
      ReadComplete(files, maps, share, page, addr, size);
    }
  }

  // ---------------------------------------------------------------- the loop

  method CopyInto(buf: array<Byte>, at: nat, bytes: seq<Byte>)
    requires at + |bytes| <= buf.Length
    modifies buf
    ensures buf[..] == old(buf[..at]) + bytes + old(buf[at + |bytes|..])
  {
    var i := 0;
    while i < |bytes|
      invariant 0 <= i <= |bytes|
      invariant buf[..at + i] == old(buf[..at]) + bytes[..i]
      invariant buf[at + i..] == old(buf[at + i..])
    {
      assert buf[at + i + 1..] == buf[at + i..][1..];
      buf[at + i] := bytes[i];
      assert buf[..at + i + 1] == buf[..at + i] + [bytes[i]];
      assert bytes[..i + 1] == bytes[..i] + [bytes[i]];
      i := i + 1;
    }
    assert buf[..] == buf[..at + i] + buf[at + i..];
  }

  /** The bytes of one round, and the zeros of the page tail after them. */
  method Deliver(buf: array<Byte>, pos: nat, got: seq<Byte>, fill: nat)
    requires pos + |got| + fill <= buf.Length
    modifies buf
    ensures buf[..pos + |got| + fill] == old(buf[..pos]) + (got + Zeros(fill))
  {
    CopyInto(buf, pos, got);
    assert buf[..pos + |got|] == old(buf[..pos]) + got;
    CopyInto(buf, pos + |got|, Zeros(fill));
    assert buf[..pos + |got| + fill] == buf[..pos + |got|] + Zeros(fill);
  }

  /** `core_read_data`: fills the buffer in place. */
  method CoreReadData(core: CoreData, files: Files, page: Page, addr: nat, buf: array<Byte>) returns (ok: bool)
    requires core.Ready() && (buf.Length > 0 ==> core.numMaps > 0)
    requires Disjoint(core.maps) && NoneInside(core.mapArray)
    modifies buf
    ensures var r := Read(files, core.maps, core.classShareMaps, page, addr, buf.Length);
            ok == r.Some? && (ok ==> buf[..] == r.value)
  {
    hide Read, Lookup, Segment, TailLength, Sorted, Disjoint, NoneInside;
    var pos: nat, at: nat := 0, addr;
    ghost var maps, share := core.maps, core.classShareMaps;
    ghost var total := Read(files, maps, share, page, addr, buf.Length);
    PrependNothing(total, buf[..0]);
    while pos < buf.Length
      invariant pos <= buf.Length
      invariant total == Prepend(buf[..pos], Read(files, maps, share, page, at, buf.Length - pos))
      decreases buf.Length - pos
    {
      var mp := core.CoreLookup(at);
      if mp.None? {
        ReadFails(files, maps, share, page, at, buf.Length - pos);
        return false;
      }
      LookupContains(maps, share, at);
      var got := Segment(files, mp.value, at, buf.Length - pos);
      if |got| == 0 {
        ReadFails(files, maps, share, page, at, buf.Length - pos);
        return false;
      }
      var fill := Min(buf.Length - pos - |got|, TailLength(mp.value, page));
      ReadStep(files, maps, share, page, at, buf.Length - pos);
      ghost var before := buf[..pos];
      Deliver(buf, pos, got, fill);
      PrependTwice(before, got + Zeros(fill),
                   Read(files, maps, share, page, at + |got| + fill, buf.Length - pos - |got| - fill));
      pos, at := pos + |got| + fill, at + |got| + fill;
    }
    ReadNothing(files, maps, share, page, at);
    assert buf[..pos] + [] == buf[..];
    return true;
  }

  function Prepend(p: seq<Byte>, r: Option<seq<Byte>>): Option<seq<Byte>> {
    if r.None? then None else Some(p + r.value)
  }

  lemma PrependNothing(r: Option<seq<Byte>>, p: seq<Byte>)
    requires p == []
    ensures Prepend(p, r) == r
  {
    if r.Some? {
      assert p + r.value == r.value;
    }
  }

  lemma PrependTwice(p: seq<Byte>, q: seq<Byte>, r: Option<seq<Byte>>)
    ensures Prepend(p, Prepend(q, r)) == Prepend(p + q, r)
  {
    if r.Some? {
      assert p + (q + r.value) == (p + q) + r.value;
    }
  }

  lemma LookupContains(maps: seq<Map>, share: seq<Map>, addr: nat)
    requires Lookup(maps, share, addr).Some?
    ensures Lookup(maps, share, addr).value.Contains(addr)
  {
  }

  lemma ReadStep(files: Files, maps: seq<Map>, share: seq<Map>, page: Page, addr: nat, size: nat)
    requires size > 0 && Lookup(maps, share, addr).Some? && Lookup(maps, share, addr).value.Contains(addr)
    requires Segment(files, Lookup(maps, share, addr).value, addr, size) != []
    ensures var m := Lookup(maps, share, addr).value;
            var got := Segment(files, m, addr, size);
            var fill := Min(size - |got|, TailLength(m, page));
            Read(files, maps, share, page, addr, size) ==
            Prepend(got + Zeros(fill), Read(files, maps, share, page, addr + |got| + fill, size - |got| - fill))
  {
  }

  lemma ReadFails(files: Files, maps: seq<Map>, share: seq<Map>, page: Page, addr: nat, size: nat)
    requires size > 0
    requires var r := Lookup(maps, share, addr);
             r.None? || (r.value.Contains(addr) && Segment(files, r.value, addr, size) == [])
    ensures Read(files, maps, share, page, addr, size) == None
  {
  }

  lemma ReadNothing(files: Files, maps: seq<Map>, share: seq<Map>, page: Page, addr: nat)
    ensures Read(files, maps, share, page, addr, 0) == Some([])
  {
  }
}
