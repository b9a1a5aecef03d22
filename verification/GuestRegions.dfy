/**
The guest memory of the device models: a list of regions searched in order, each backed by host
memory.  Object accesses compare their end with the inclusive last address of the region; atomic
accesses are not checked against the region's end at all.
 */
module GuestRegions {
  import opened Wrappers

  /** `hpa` is the host address that backs the first byte, if there is one. */
  datatype Region = Region(gpa: nat, size: nat, readable: bool, writable: bool, hpa: Option<nat>) {
    /** A region is not empty and ends below the top of the address space. */
    predicate Proper() { 0 < size && gpa + size < TWO64 }

    function Last(): int { gpa + size - 1 }

    predicate Holds(a: int) { gpa <= a <= Last() }
  }

  predicate Proper(rs: seq<Region>) {
    forall i :: 0 <= i < |rs| ==> rs[i].Proper()
  }

  predicate Apart(rs: seq<Region>) {
    forall i, j :: 0 <= i < j < |rs| ==> rs[i].Last() < rs[j].gpa || rs[j].Last() < rs[i].gpa
  }

  function FindRegion(rs: seq<Region>, a: nat): (r: Option<Region>)
    ensures r.Some? ==> r.value in rs && r.value.Holds(a)
    ensures r.None? <==> forall i :: 0 <= i < |rs| ==> !rs[i].Holds(a)
  {
    if rs == [] then None
    else if rs[0].Holds(a) then Some(rs[0])
    else FindRegion(rs[1..], a)
  }

  /** In disjoint regions the first match is the only one. */
  lemma FindUnique(rs: seq<Region>, r: Region, a: nat)
    requires Apart(rs) && r in rs && r.Holds(a)
    ensures FindRegion(rs, a) == Some(r)
  {
    var i :| 0 <= i < |rs| && rs[i] == r;
    var found := FindRegion(rs, a).value;
    var j :| 0 <= j < |rs| && rs[j] == found;
  }

  datatype Access = Object(addr: nat, len: nat, write: bool)
                  | Atomic(addr: nat, len: nat, write: bool)

  predicate Permitted(r: Region, write: bool) {
    r.hpa.Some? && if write then r.writable else r.readable
  }

  /** The region has host memory, and allows a write if the access is one and a read if it is not. */
  predicate Backs(r: Region, a: Access) {
    r.hpa.Some? && (a.write ==> r.writable) && (!a.write ==> r.readable)
  }

  /** The host address an access goes to; None is the error that the caller sees. */
  function Translate(rs: seq<Region>, a: Access): Option<nat>
    requires a.addr < TWO64
  {
    match FindRegion(rs, a.addr)
    case None => None
    case Some(r) =>
      if a.Object? && (a.addr + a.len) % TWO64 > r.Last() then None
      else if !Permitted(r, a.write) then None
      else Some(r.hpa.value + (a.addr - r.gpa))
  }

  /** All bytes of the access lie in the region that its first byte is in. */
  predicate Inside(rs: seq<Region>, a: Access) {
    && FindRegion(rs, a.addr).Some?
    && a.addr + a.len <= FindRegion(rs, a.addr).value.Last() + 1
  }

  /** The access succeeds and stays in the memory behind its region. */
  predicate Safe(rs: seq<Region>, a: Access)
    requires a.addr < TWO64
  {
    Translate(rs, a).Some? && Inside(rs, a)
  }

  /**
  What the bounds check decides, for every access that does not run past the end of the address
  space: all accesses that lie inside and leave the region's last byte alone, and no others.
   */
  lemma ObjectCheckExact(rs: seq<Region>, a: Access)
    requires Proper(rs) && a.Object? && a.addr + a.len < TWO64
    ensures Translate(rs, a).Some? <==>
            && Inside(rs, a)
            && a.addr + a.len != FindRegion(rs, a.addr).value.Last() + 1
            && Backs(FindRegion(rs, a.addr).value, a)
  {
  }

  /** Past the end of the address space the sum wraps and the check lets overlong accesses through. */
  lemma ObjectCheckWraps(rs: seq<Region>, a: Access)
    requires Proper(rs) && a.Object? && a.addr < TWO64 <= a.addr + a.len && a.len < TWO64
    ensures !Inside(rs, a)
    ensures Translate(rs, a).Some? <==>
            && FindRegion(rs, a.addr).Some?
            && a.addr + a.len - TWO64 <= FindRegion(rs, a.addr).value.Last()
            && Backs(FindRegion(rs, a.addr).value, a)
  {
    assert (a.addr + a.len) % TWO64 == a.addr + a.len - TWO64;
  }

  /** A slice of a region for scatter/gather; this check does admit the last byte. */
  function GetSlice(r: Region, offset: nat, count: nat): (s: Option<nat>)
    requires r.Proper()
    ensures s.Some? <==> offset + count <= r.size && r.hpa.Some?
    ensures s.Some? ==> s.value == r.hpa.value + offset
  {
    if offset + count >= TWO64 then None
    else if offset + count > r.size then None
    else if r.hpa.None? then None
    else Some(r.hpa.value + offset)
  }
}
