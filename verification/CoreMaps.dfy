/** The address map of a core file: the list of mappings, its sorted array, and the lookup. */
module CoreMaps {
  import opened Wrappers

  datatype Map = Map(fd: int, offset: nat, vaddr: nat, memsz: nat) {
    function End(): nat {
      vaddr + memsz
    }

    predicate Contains(addr: nat) {
      vaddr <= addr < End()
    }
  }

  // ---------------------------------------------------------------- what a lookup should find

  /** First mapping of the list that contains the address. */
  function Scan(maps: seq<Map>, addr: nat): (r: Option<Map>)
    ensures r.None? <==> forall m | m in maps :: !m.Contains(addr)
    ensures r.Some? ==> r.value in maps && r.value.Contains(addr)
  {
    if maps == [] then None
    else if maps[0].Contains(addr) then Some(maps[0])
    else Scan(maps[1..], addr)
  }

  /** An ordinary mapping if there is one, else the first class-sharing mapping. */
  function Lookup(maps: seq<Map>, share: seq<Map>, addr: nat): Option<Map> {
    var r := Scan(maps, addr);
    if r.Some? then r else Scan(share, addr)
  }

  /** An ordinary mapping is found whenever one contains the address; otherwise the first class-sharing
      mapping that does, and none exactly when no mapping does. */
  lemma LookupExactly(maps: seq<Map>, share: seq<Map>, addr: nat, i: nat)
    requires i <= |share| && (forall j | 0 <= j < i :: !share[j].Contains(addr))
    requires i < |share| ==> share[i].Contains(addr)
    ensures var r := Lookup(maps, share, addr);
            if exists m :: m in maps && m.Contains(addr) then r.Some? && r.value in maps && r.value.Contains(addr)
            else if i < |share| then r == Some(share[i])
            else r == None
  {
    ScanFirst(share, addr, i);
  }

  lemma {:induction false} ScanFirst(maps: seq<Map>, addr: nat, i: nat)
    requires i <= |maps| && (forall j | 0 <= j < i :: !maps[j].Contains(addr))
    requires i < |maps| ==> maps[i].Contains(addr)
    ensures Scan(maps, addr) == if i < |maps| then Some(maps[i]) else None
  {
    if i > 0 {
      ScanFirst(maps[1..], addr, i - 1);
    }
  }

  /** No address is in both. */
  predicate Apart(a: Map, b: Map) {
    a.memsz == 0 || b.memsz == 0 || a.End() <= b.vaddr || b.End() <= a.vaddr
  }

  predicate Disjoint(maps: seq<Map>) {
    forall i, j | 0 <= i < j < |maps| :: Apart(maps[i], maps[j])
  }

  predicate NonEmpty(maps: seq<Map>) {
    forall m | m in maps :: m.memsz > 0
  }

  predicate Sorted(a: seq<Map>) {
    forall i, j | 0 <= i < j < |a| :: a[i].vaddr <= a[j].vaddr
  }

  lemma ScanUnique(maps: seq<Map>, addr: nat, k: nat)
    requires Disjoint(maps) && k < |maps| && maps[k].Contains(addr)
    ensures Scan(maps, addr) == Some(maps[k])
  {
  }

  // ---------------------------------------------------------------- the binary search

  /** The mapping the search settles on: the last one starting at or below the address, or the first. */
  predicate IsCandidate(a: seq<Map>, addr: nat, k: nat) {
    && k < |a|
    && (k == 0 || a[k].vaddr <= addr)
    && (forall j | k < j < |a| :: addr < a[j].vaddr)
  }

  method Search(a: seq<Map>, addr: nat) returns (k: nat)
    requires |a| > 0 && Sorted(a)
    ensures IsCandidate(a, addr, k)
  {
    var lo, hi := 0, |a| - 1;
    while hi - lo > 1
      invariant 0 <= lo <= hi < |a|
      invariant lo == 0 || a[lo].vaddr <= addr
      invariant hi == |a| - 1 || addr < a[hi].vaddr
    {
      var mid := (lo + hi) / 2;
      if addr >= a[mid].vaddr {
        lo := mid;
      } else {
        hi := mid;
      }
    }
    k := if addr < a[hi].vaddr then lo else hi;
  }

  function Found(a: seq<Map>, addr: nat, k: nat): Option<Map>
    requires k < |a|
  {
    if a[k].Contains(addr) then Some(a[k]) else None
  }

  /** No mapping reaches past the start of a later one: for disjoint mappings, that no empty mapping
      starts inside another. */
  predicate NoneInside(a: seq<Map>) {
    forall i, j | 0 <= i < j < |a| :: a[i].memsz == 0 || a[i].End() <= a[j].vaddr
  }

  lemma CandidateFinds(a: seq<Map>, addr: nat, k: nat)
    requires Disjoint(a) && NoneInside(a) && IsCandidate(a, addr, k)
    ensures Found(a, addr, k) == Scan(a, addr)
  {
    if a[k].Contains(addr) {
      ScanUnique(a, addr, k);
    } else {
      forall m | m in a ensures !m.Contains(addr) {
        var i :| 0 <= i < |a| && a[i] == m;
      }
    }
  }

  /** For disjoint mappings in sorted order, the search agrees with the linear scan for every address
      exactly when no empty mapping starts inside another one. */
  lemma SearchExact(a: seq<Map>)
    requires |a| > 0 && Sorted(a) && Disjoint(a)
    ensures (forall addr: nat, k: nat | IsCandidate(a, addr, k) :: Found(a, addr, k) == Scan(a, addr))
            <==> NoneInside(a)
  {
    if NoneInside(a) {
      forall addr: nat, k: nat | IsCandidate(a, addr, k) ensures Found(a, addr, k) == Scan(a, addr) {
        CandidateFinds(a, addr, k);
      }
    } else {
      var i, j :| 0 <= i < j < |a| && a[i].memsz > 0 && a[j].vaddr < a[i].End();
      var addr := a[j].vaddr;
      var k := LastAtOrBelow(a, addr, j);
      assert a[i].Contains(addr);
      assert Apart(a[i], a[k]);
      assert Found(a, addr, k) == None && Scan(a, addr).Some?;
    }
  }

  /** An empty mapping in the middle of another one: the search settles on it and misses the other. */
  lemma HiddenExample(m: Map, empty: Map)
    requires empty.memsz == 0 && m.vaddr < empty.vaddr < m.End()
    ensures var a := [m, empty];
            && Sorted(a) && Disjoint(a) && !NoneInside(a)
            && IsCandidate(a, empty.vaddr, 1) && Found(a, empty.vaddr, 1) == None
            && Scan(a, empty.vaddr) == Some(m)
  {
    var a := [m, empty];
    assert a[0].memsz > 0 && a[0].End() > a[1].vaddr;
  }

  lemma LastAtOrBelow(a: seq<Map>, addr: nat, j: nat) returns (k: nat)
    requires j < |a| && a[j].vaddr <= addr && Sorted(a)
    ensures j <= k && IsCandidate(a, addr, k)
    decreases |a| - j
  {
    if j + 1 < |a| && a[j + 1].vaddr <= addr {
      k := LastAtOrBelow(a, addr, j + 1);
    } else {
      k := j;
    }
  }

  lemma NonEmptyNoneInside(a: seq<Map>)
    requires Sorted(a) && Disjoint(a) && NonEmpty(a)
    ensures NoneInside(a)
  {
  }

  // ---------------------------------------------------------------- sorting

  lemma DisjointSame(a: seq<Map>, b: seq<Map>, addr: nat)
    requires multiset(a) == multiset(b) && Disjoint(a) && Disjoint(b)
    ensures Scan(a, addr) == Scan(b, addr)
  {
    SameMembers(a, b);
    if Scan(a, addr).Some? {
      var m := Scan(a, addr).value;
      var k :| 0 <= k < |b| && b[k] == m;
      ScanUnique(b, addr, k);
    }
  }

  lemma SameMembers(a: seq<Map>, b: seq<Map>)
    requires multiset(a) == multiset(b)
    ensures forall m :: m in a <==> m in b
  {
    assert forall m :: m in a <==> m in multiset(a);
    assert forall m :: m in b <==> m in multiset(b);
  }

  /** A list with a repeated member repeats it at two places. */
  lemma Repeated(a: seq<Map>, m: Map) returns (i: nat, j: nat)
    requires multiset(a)[m] >= 2
    ensures i < j < |a| && a[i] == a[j] == m
  {
    assert a == [a[0]] + a[1..];
    if a[0] == m {
      assert m in multiset(a[1..]);
      i := 0;
      j :| 0 < j < |a| && a[j] == m;
    } else {
      i, j := Repeated(a[1..], m);
      i, j := i + 1, j + 1;
    }
  }

  lemma TwoPlaces(b: seq<Map>, i: nat, j: nat)
    requires i < j < |b| && b[i] == b[j]
    ensures multiset(b)[b[i]] >= 2
  {
    assert b == b[..j] + b[j..];
    assert b[..j][i] == b[i] && b[j..][0] == b[i];
    assert b[i] in multiset(b[..j]) && b[i] in multiset(b[j..]);
  }

  /** Being disjoint does not depend on the order. */
  lemma DisjointPermuted(a: seq<Map>, b: seq<Map>)
    requires multiset(a) == multiset(b) && Disjoint(a)
    ensures Disjoint(b)
  {
    SameMembers(a, b);
    forall i, j | 0 <= i < j < |b| ensures Apart(b[i], b[j]) {
      if b[i] == b[j] {
        TwoPlaces(b, i, j);
        var p, q := Repeated(a, b[i]);
        assert Apart(a[p], a[q]);
      } else {
        assert b[i] in a && b[j] in a;
        var p :| 0 <= p < |a| && a[p] == b[i];
        var q :| 0 <= q < |a| && a[q] == b[j];
        assert p < q ==> Apart(a[p], a[q]);
        assert q < p ==> Apart(a[q], a[p]);
      }
    }
  }

  /** Stands for qsort, of which only the order and the contents of the result matter. */
  function Insert(a: seq<Map>, m: Map): seq<Map> {
    if a == [] || m.vaddr <= a[0].vaddr then [m] + a else [a[0]] + Insert(a[1..], m)
  }

  function Sort(a: seq<Map>): seq<Map> {
    if a == [] then [] else Insert(Sort(a[1..]), a[0])
  }

  lemma {:induction false} InsertPermutes(a: seq<Map>, m: Map)
    ensures multiset(Insert(a, m)) == multiset(a) + multiset{m}
  {
    if a == [] || m.vaddr <= a[0].vaddr {
    } else {
      InsertPermutes(a[1..], m);
      assert a == [a[0]] + a[1..];
    }
  }

  lemma PrependSorted(h: Map, rest: seq<Map>)
    requires Sorted(rest) && forall m | m in rest :: h.vaddr <= m.vaddr
    ensures Sorted([h] + rest)
  {
  }

  lemma {:induction false} InsertMembers(a: seq<Map>, m: Map, x: Map)
    requires x in Insert(a, m)
    ensures x == m || x in a
  {
    if a != [] && m.vaddr > a[0].vaddr && x != a[0] {
      InsertMembers(a[1..], m, x);
    }
  }

  lemma {:induction false} InsertSorted(a: seq<Map>, m: Map)
    requires Sorted(a)
    ensures Sorted(Insert(a, m))
  {
    if a == [] || m.vaddr <= a[0].vaddr {
      PrependSorted(m, a);
    } else {
      var rest := Insert(a[1..], m);
      InsertSorted(a[1..], m);
      forall x | x in rest ensures a[0].vaddr <= x.vaddr {
        InsertMembers(a[1..], m, x);
      }
      PrependSorted(a[0], rest);
    }
  }

  lemma {:induction false} SortContract(a: seq<Map>)
    ensures Sorted(Sort(a)) && multiset(Sort(a)) == multiset(a)
  {
    if a != [] {
      SortContract(a[1..]);
      InsertSorted(Sort(a[1..]), a[0]);
      InsertPermutes(Sort(a[1..]), a[0]);
      assert a == [a[0]] + a[1..];
    }
  }

  // ---------------------------------------------------------------- the core data

  class CoreData {
    var maps: seq<Map>
    var numMaps: nat
    var mapArray: seq<Map>
    var classShareMaps: seq<Map>

    ghost predicate Valid()
      reads this
    {
      numMaps == |maps|
    }

    /** The array was sorted after the last addition. */
    ghost predicate Ready()
      reads this
    {
      Valid() && Sorted(mapArray) && multiset(mapArray) == multiset(maps)
    }

    constructor ()
      ensures Valid() && Ready() && maps == [] && classShareMaps == []
    {
      maps, numMaps, mapArray, classShareMaps := [], 0, [], [];
    }

    /** Fails, and changes nothing, when no memory could be allocated. */
    method AddMapInfo(m: Map, memory: bool) returns (ok: bool)
      requires Valid()
      modifies this`maps, this`numMaps
      ensures ok == memory && Valid() && maps == (if ok then [m] else []) + old(maps)
      ensures !ok && old(Ready()) ==> Ready()
    {
      if !memory {
        return false;
      }
      maps := [m] + maps;
      numMaps := numMaps + 1;
      return true;
    }

    method AddClassShareMapInfo(m: Map, memory: bool) returns (ok: bool)
      requires Valid()
      modifies this`classShareMaps
      ensures ok == memory && classShareMaps == (if ok then [m] else []) + old(classShareMaps)
      ensures Valid() && (old(Ready()) ==> Ready())
    {
      if !memory {
        return false;
      }
      classShareMaps := [m] + classShareMaps;
      return true;
    }

    /** Without memory for the new array it fails and keeps the old one. */
    method SortMapArray(memory: bool) returns (ok: bool)
      requires Valid()
      modifies this`mapArray
      ensures ok == memory && if ok then Ready() else mapArray == old(mapArray)
    {
      if !memory {
        return false;
      }
      var copied: seq<Map> := [];
      var rest := maps;
      while rest != []
        invariant copied + rest == maps
        decreases |rest|
      {
        copied := copied + [rest[0]];
        rest := rest[1..];
      }
      SortContract(copied);
      mapArray := Sort(copied);
      return true;
    }

    /** The lookup: for a non-empty set of disjoint mappings with no empty one inside another it is
        the linear search, falling back to the class-sharing list exactly when no ordinary mapping
        matches. */
    method CoreLookup(addr: nat) returns (r: Option<Map>)
      requires Ready() && numMaps > 0 && Disjoint(maps) && NoneInside(mapArray)
      ensures r == Lookup(maps, classShareMaps, addr)
    {
      SameMembers(mapArray, maps);
      assert |mapArray| == |maps| by {
        assert |multiset(mapArray)| == |multiset(maps)|;
      }
      var k := Search(mapArray, addr);
      ArrayFinds(mapArray, maps, addr, k);
      if mapArray[k].Contains(addr) {
        return Some(mapArray[k]);
      }
      var mp := classShareMaps;
      while mp != []
        invariant Scan(mp, addr) == Scan(classShareMaps, addr)
        decreases |mp|
      {
        if mp[0].Contains(addr) {
          return Some(mp[0]);
        }
        mp := mp[1..];
      }
      return None;
    }
  }

  lemma ArrayFinds(a: seq<Map>, maps: seq<Map>, addr: nat, k: nat)
    requires Sorted(a) && multiset(a) == multiset(maps) && Disjoint(maps) && NoneInside(a) && IsCandidate(a, addr, k)
    ensures Found(a, addr, k) == Scan(maps, addr)
  {
    DisjointPermuted(maps, a);
    CandidateFinds(a, addr, k);
    DisjointSame(a, maps, addr);
  }
}
