/** A collection of guest memory regions as an index: sorted, disjoint, searched by halving. */
module RegionCollection {
  import opened Wrappers

  datatype Error = NoMemoryRegion | UnsortedMemoryRegions | MemoryRegionOverlap

  /** A region is not empty and ends below 2^64. */
  datatype RawRegion = Region(start: nat, len: nat) {
    function Last(): int { start + len - 1 }
    predicate Holds(a: int) { start <= a <= Last() }
  }

  type Region = r: RawRegion | 0 < r.len && r.start + r.len < TWO64 witness Region(0, 1)

  /** Every region lies wholly below every later one. */
  predicate SortedDisjoint(rs: seq<Region>) {
    forall i, j :: 0 <= i < j < |rs| ==> rs[i].Last() < rs[j].start
  }

  predicate Sorted(rs: seq<Region>) {
    forall i, j :: 0 <= i < j < |rs| ==> rs[i].start <= rs[j].start
  }

  predicate Apart(a: Region, b: Region) { a.Last() < b.start || b.Last() < a.start }

  predicate StepsUp(rs: seq<Region>, i: nat)
    requires i + 1 < |rs|
  {
    rs[i].Last() < rs[i + 1].start
  }

  predicate StepsBack(rs: seq<Region>, i: nat)
    requires i + 1 < |rs|
  {
    rs[i].start > rs[i + 1].start
  }

  /** The first window that is not in order decides the error. */
  predicate FirstBad(rs: seq<Region>, i: nat) {
    i + 1 < |rs| && !StepsUp(rs, i) && forall j :: 0 <= j < i ==> StepsUp(rs, j)
  }

  /** Looking at neighbours is enough. */
  lemma AdjacentMeansAllPairs(rs: seq<Region>)
    ensures SortedDisjoint(rs) <==> forall i :: 0 <= i < |rs| - 1 ==> StepsUp(rs, i)
  {
    if forall i :: 0 <= i < |rs| - 1 ==> StepsUp(rs, i) {
      forall i, j | 0 <= i < j < |rs| ensures rs[i].Last() < rs[j].start {
        Climb(rs, i, j);
      }
    }
  }

  lemma {:induction false} Climb(rs: seq<Region>, i: nat, j: nat)
    requires forall i :: 0 <= i < |rs| - 1 ==> StepsUp(rs, i)
    requires i < j < |rs|
    ensures rs[i].Last() < rs[j].start
    decreases j
  {
    assert StepsUp(rs, j - 1);
    if i < j - 1 {
      Climb(rs, i, j - 1);
    }
  }

  /** The window check accepts exactly the non-empty sorted disjoint lists, unchanged. */
  method FromRegions(rs: seq<Region>) returns (r: Result<seq<Region>, Error>)
    ensures r.Ok? <==> rs != [] && SortedDisjoint(rs)
    ensures r.Ok? ==> r.value == rs
    ensures r == Err(NoMemoryRegion) <==> rs == []
    ensures r == Err(UnsortedMemoryRegions) ==> exists i :: FirstBad(rs, i) && StepsBack(rs, i)
    ensures r == Err(MemoryRegionOverlap) ==> exists i :: FirstBad(rs, i) && !StepsBack(rs, i)
  {
    if rs == [] {
      return Err(NoMemoryRegion);
    }
    AdjacentMeansAllPairs(rs);
    for k := 0 to |rs| - 1
      invariant forall i :: 0 <= i < k ==> StepsUp(rs, i)
    {
      var prev, next := rs[k], rs[k + 1];
      if prev.start > next.start {
        assert FirstBad(rs, k) && StepsBack(rs, k);
        return Err(UnsortedMemoryRegions);
      }
      if prev.Last() >= next.start {
        assert FirstBad(rs, k) && !StepsBack(rs, k);
        return Err(MemoryRegionOverlap);
      }
    }
    return Ok(rs);
  }

  // Searching

  /** The default search: the first region that holds the address. */
  function LinearFind(rs: seq<Region>, a: nat): (r: Option<Region>)
    ensures r.Some? ==> r.value in rs && r.value.Holds(a)
    ensures r.None? <==> forall i :: 0 <= i < |rs| ==> !rs[i].Holds(a)
  {
    if rs == [] then None
    else if rs[0].Holds(a) then Some(rs[0])
    else LinearFind(rs[1..], a)
  }

  lemma LinearFindUnique(rs: seq<Region>, i: nat, a: nat)
    requires SortedDisjoint(rs) && i < |rs| && rs[i].Holds(a)
    ensures LinearFind(rs, a) == Some(rs[i])
  {
    var found := LinearFind(rs, a).value;
    var j :| 0 <= j < |rs| && rs[j] == found;
  }

  /** Where a key is, or where it would go. */
  datatype Place = Found(at: nat) | Missing(at: nat)

  method BinarySearch(rs: seq<Region>, key: nat) returns (p: Place)
    requires SortedDisjoint(rs)
    ensures p.Found? ==> p.at < |rs| && rs[p.at].start == key
    ensures p.Missing? ==> p.at <= |rs|
    ensures p.Missing? ==> forall i :: 0 <= i < |rs| ==> (rs[i].start < key <==> i < p.at) && rs[i].start != key
  {
    var lo, hi := 0, |rs|;
    while lo < hi
      invariant 0 <= lo <= hi <= |rs|
      invariant forall i :: 0 <= i < lo ==> rs[i].start < key
      invariant forall i :: hi <= i < |rs| ==> rs[i].start > key
    {
      var mid := (lo + hi) / 2;
      if rs[mid].start == key {
        return Found(mid);
      } else if rs[mid].start < key {
        lo := mid + 1;
      } else {
        hi := mid;
      }
    }
    return Missing(lo);
  }

  /** The fast search agrees with the default one, for every address. */
  method FindRegion(rs: seq<Region>, a: nat) returns (r: Option<Region>)
    requires SortedDisjoint(rs)
    ensures r == LinearFind(rs, a)
  {
    var p := BinarySearch(rs, a);
    if p.Found? {
      LinearFindUnique(rs, p.at, a);
      return Some(rs[p.at]);
    } else if p.at > 0 && a <= rs[p.at - 1].Last() {
      LinearFindUnique(rs, p.at - 1, a);
      return Some(rs[p.at - 1]);
    }
    return None;
  }

  // Inserting and removing

  /** Stable: a region goes behind those with the same start. */
  function InsertSorted(rs: seq<Region>, x: Region): seq<Region> {
    if rs == [] || rs[|rs| - 1].start <= x.start then rs + [x]
    else InsertSorted(rs[..|rs| - 1], x) + [rs[|rs| - 1]]
  }

  function SortByStart(rs: seq<Region>): seq<Region> {
    if rs == [] then [] else InsertSorted(SortByStart(rs[..|rs| - 1]), rs[|rs| - 1])
  }

  lemma {:induction false} InsertSortedSorts(rs: seq<Region>, x: Region)
    requires Sorted(rs)
    ensures Sorted(InsertSorted(rs, x))
    ensures multiset(InsertSorted(rs, x)) == multiset(rs) + multiset{x}
  {
    if rs != [] && rs[|rs| - 1].start > x.start {
      var front, last := rs[..|rs| - 1], rs[|rs| - 1];
      InsertSortedSorts(front, x);
      assert rs == front + [last];
      var s := InsertSorted(front, x);
      hide InsertSorted;
      forall i | 0 <= i < |s| ensures s[i].start <= last.start {
        assert s[i] in multiset(s);
        assert s[i] == x || s[i] in front;
      }
      assert multiset(s + [last]) == multiset(s) + multiset{last};
    }
  }

  lemma {:induction false} SortSorts(rs: seq<Region>)
    ensures Sorted(SortByStart(rs)) && multiset(SortByStart(rs)) == multiset(rs)
  {
    if rs != [] {
      var front, last := rs[..|rs| - 1], rs[|rs| - 1];
      SortSorts(front);
      hide InsertSorted, Sorted;
      InsertSortedSorts(SortByStart(front), last);
      assert rs == front + [last];
    }
  }

  lemma {:induction false} SortOfSorted(rs: seq<Region>)
    requires Sorted(rs)
    ensures SortByStart(rs) == rs
  {
    if rs != [] {
      SortOfSorted(rs[..|rs| - 1]);
    }
  }

  /** The place of `x` in a sorted list: behind everything that does not start later. */
  predicate GoesAt(rs: seq<Region>, x: Region, p: nat) {
    && p <= |rs|
    && (forall i :: 0 <= i < p ==> rs[i].start <= x.start)
    && (forall i :: p <= i < |rs| ==> x.start < rs[i].start)
  }

  lemma {:induction false} InsertPlace(rs: seq<Region>, x: Region) returns (p: nat)
    requires Sorted(rs)
    ensures GoesAt(rs, x, p) && InsertSorted(rs, x) == rs[..p] + [x] + rs[p..]
  {
    var n := |rs| - 1;
    if rs == [] || rs[n].start <= x.start {
      p := |rs|;
    } else {
      p := InsertPlace(rs[..n], x);
      assert rs[..n][..p] == rs[..p] && rs[..n][p..] + [rs[n]] == rs[p..];
    }
  }

  /** What pushing a region and sorting does to a collection. */
  lemma SortPushed(rs: seq<Region>, x: Region) returns (p: nat)
    requires SortedDisjoint(rs)
    ensures GoesAt(rs, x, p) && SortByStart(rs + [x]) == rs[..p] + [x] + rs[p..]
  {
    assert (rs + [x])[..|rs|] == rs;
    SortOfSorted(rs);
    p := InsertPlace(rs, x);
  }

  /** The sorted list is disjoint if and only if the new region is apart from all others. */
  lemma PlacedDisjoint(rs: seq<Region>, x: Region, p: nat)
    requires SortedDisjoint(rs) && GoesAt(rs, x, p)
    ensures var all := rs[..p] + [x] + rs[p..];
            && Sorted(all)
            && (SortedDisjoint(all) <==> forall i :: 0 <= i < |rs| ==> Apart(rs[i], x))
  {
    var all := rs[..p] + [x] + rs[p..];
    assert all[p] == x;
    assert forall i :: 0 <= i < p ==> all[i] == rs[i];
    assert forall i :: p < i < |all| ==> all[i] == rs[i - 1];
    assert forall i :: p <= i < |rs| ==> rs[i] == all[i + 1];
    PlacedAt(rs, x, p, all);
  }

  lemma PlacedAt(rs: seq<Region>, x: Region, p: nat, all: seq<Region>)
    requires SortedDisjoint(rs) && GoesAt(rs, x, p) && |all| == |rs| + 1 && all[p] == x
    requires forall i :: 0 <= i < p ==> all[i] == rs[i]
    requires forall i :: p < i < |all| ==> all[i] == rs[i - 1]
    requires forall i :: p <= i < |rs| ==> rs[i] == all[i + 1]
    ensures Sorted(all)
    ensures SortedDisjoint(all) <==> forall i :: 0 <= i < |rs| ==> Apart(rs[i], x)
  {
  }

  /** Succeeds if and only if the new region is apart from every region of the collection. */
  method InsertRegion(rs: seq<Region>, x: Region) returns (r: Result<seq<Region>, Error>, ghost p: nat)
    requires SortedDisjoint(rs)
    ensures r.Ok? <==> forall i :: 0 <= i < |rs| ==> Apart(rs[i], x)
    ensures r.Err? ==> r.error == MemoryRegionOverlap
    ensures r.Ok? ==> SortedDisjoint(r.value) && p <= |rs| && r.value == rs[..p] + [x] + rs[p..]
  {
    var regions := rs + [x];
    p := SortPushed(rs, x);
    PlacedDisjoint(rs, x, p);
    r := FromRegions(SortByStart(regions));
  }

  /** Removes the region with this base and size, if there is one; the others keep their places. */
  method RemoveRegion(rs: seq<Region>, base: nat, size: nat)
    returns (r: Result<(seq<Region>, Region), Error>, ghost k: nat)
    requires SortedDisjoint(rs)
    ensures r.Ok? <==> exists i :: 0 <= i < |rs| && rs[i].start == base && rs[i].len == size
    ensures r.Err? ==> r.error == NoMemoryRegion
    ensures r.Ok? ==> k < |rs| && r.value.1 == rs[k] && rs[k].start == base && rs[k].len == size
    ensures r.Ok? ==> r.value.0 == rs[..k] + rs[k + 1..] && SortedDisjoint(r.value.0)
  {
    var p := BinarySearch(rs, base);
    k := p.at;
    if p.Found? && rs[p.at].len == size {
      return Ok((rs[..p.at] + rs[p.at + 1..], rs[p.at])), k;
    }
    return Err(NoMemoryRegion), k;
  }

  /** Removing what was just inserted gives back the original collection. */
  method InsertThenRemove(rs: seq<Region>, x: Region) returns (r: Result<seq<Region>, Error>)
    requires SortedDisjoint(rs)
    ensures r.Ok? <==> forall i :: 0 <= i < |rs| ==> Apart(rs[i], x)
    ensures r.Ok? ==> r.value == rs
  {
    var inserted, p := InsertRegion(rs, x);
    if inserted.Err? {
      return Err(inserted.error);
    }
    ghost var all := inserted.value;
    assert all[p] == x;
    var removed, k := RemoveRegion(inserted.value, x.start, x.len);
    assert k == p;
    assert all[..p] == rs[..p] && all[p + 1..] == rs[p..];
    return Ok(removed.value.0);
  }
}
