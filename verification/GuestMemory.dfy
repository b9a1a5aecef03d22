/**
Guest memory made of several regions: accesses are cut into one slice per region, and agree with
one flat map from addresses to bytes.
 */
module GuestMemory {
  import opened Wrappers
  import opened RegionCollection

  predicate Mapped(rs: seq<Region>, a: nat) { LinearFind(rs, a).Some? }

  /** How many of `count` bytes from `a` are mapped before the first hole. */
  function Prefix(rs: seq<Region>, a: nat, count: nat): (n: nat)
    ensures n <= count
    ensures forall b :: a <= b < a + n ==> Mapped(rs, b)
    ensures n < count ==> !Mapped(rs, a + n)
    decreases count
  {
    if count == 0 || !Mapped(rs, a) then 0 else 1 + Prefix(rs, a + 1, count - 1)
  }

  lemma {:induction false} PrefixSkip(rs: seq<Region>, a: nat, count: nat, len: nat)
    requires len <= count && forall b :: a <= b < a + len ==> Mapped(rs, b)
    ensures Prefix(rs, a, count) == len + Prefix(rs, a + len, count - len)
    decreases len
  {
    if len > 0 {
      PrefixSkip(rs, a + 1, count - 1, len - 1);
    }
  }

  /** From an address to the end of its region, every address has that region. */
  lemma SameRegion(rs: seq<Region>, r: Region, a: nat)
    requires SortedDisjoint(rs) && LinearFind(rs, a) == Some(r)
    ensures forall b :: a <= b <= r.Last() ==> LinearFind(rs, b) == Some(r)
  {
    var i :| 0 <= i < |rs| && rs[i] == r;
    forall b | a <= b <= r.Last() ensures LinearFind(rs, b) == Some(r) {
      LinearFindUnique(rs, i, b);
    }
  }

  datatype Piece = Piece(addr: nat, len: nat)

  datatype Item = Slice(piece: Piece) | Invalid(addr: nat)

  /** A non-empty part of one region. */
  predicate WholeIn(rs: seq<Region>, p: Piece) {
    && p.len > 0
    && Mapped(rs, p.addr)
    && forall b :: p.addr <= b < p.addr + p.len ==> LinearFind(rs, b) == LinearFind(rs, p.addr)
  }

  /** The iterator over the slices of a range. */
  class SliceIterator {
    const rs: seq<Region>
    var addr: nat
    var count: nat

    constructor (rs: seq<Region>, addr: nat, count: nat)
      ensures this.rs == rs && this.addr == addr && this.count == count
    {
      this.rs, this.addr, this.count := rs, addr, count;
    }

    /**
    The next slice starts where the last one ended, and is as long as its region and the range
    allow; a hole is reported once, and ends the iteration.  The address never overflows.
     */
    method Next() returns (r: Option<Item>)
      requires SortedDisjoint(rs)
      modifies this
      ensures r.None? <==> old(count) == 0
      ensures r.Some? && r.value.Invalid? ==> r.value.addr == old(addr) && !Mapped(rs, old(addr))
      ensures !(r.Some? && r.value.Slice?) ==> count == 0 && addr == old(addr)
      ensures r.Some? && r.value.Slice? ==>
        && var p := r.value.piece;
        && p.addr == old(addr) && p.len > 0 && WholeIn(rs, p)
        && addr == old(addr) + p.len && old(count) == p.len + count
        && (count > 0 ==> LinearFind(rs, addr) != LinearFind(rs, p.addr))
    {
      if count == 0 {
        return None;
      }
      var found := FindRegion(rs, addr);
      if found.None? {
        count := 0;
        return Some(Invalid(addr));
      }
      var region := found.value;
      var start := addr - region.start;
      var cap := region.len - start;
      var len := Min(cap, count);
      SameRegion(rs, region, addr);
      r := Some(Slice(Piece(addr, len)));
      count := count - len;
      assert addr + len < TWO64;
      addr := addr + len;
    }
  }

  /** The pieces follow one another without gap from `a` on, `n` bytes in all. */
  predicate Tiles(rs: seq<Region>, pieces: seq<Piece>, a: nat, n: nat) {
    if pieces == [] then n == 0
    else
      var last := pieces[|pieces| - 1];
      && WholeIn(rs, last)
      && last.len <= n
      && last.addr + last.len == a + n
      && Tiles(rs, pieces[..|pieces| - 1], a, n - last.len)
  }

  /** The first `n` bytes of a range are covered, and the mapped prefix reaches at least there. */
  predicate Covered(rs: seq<Region>, pieces: seq<Piece>, a: nat, count: nat, n: nat) {
    && n <= count
    && Tiles(rs, pieces, a, n)
    && Prefix(rs, a, count) == n + Prefix(rs, a + n, count - n)
  }

  /** The mapped prefix beyond a slice. */
  lemma PrefixPast(rs: seq<Region>, p: Piece, count: nat)
    requires WholeIn(rs, p) && p.len <= count
    ensures Prefix(rs, p.addr, count) == p.len + Prefix(rs, p.addr + p.len, count - p.len)
  {
    PrefixSkip(rs, p.addr, count, p.len);
  }

  lemma CoverNext(rs: seq<Region>, pieces: seq<Piece>, a: nat, count: nat, n: nat, p: Piece)
    requires Covered(rs, pieces, a, count, n) && WholeIn(rs, p) && p.addr == a + n && n + p.len <= count
    ensures Covered(rs, pieces + [p], a, count, n + p.len)
  {
    assert (pieces + [p])[..|pieces|] == pieces;
    PrefixPast(rs, p, count - n);
  }

  lemma CoverStart(rs: seq<Region>, a: nat, count: nat)
    ensures Covered(rs, [], a, count, 0)
  {
  }

  lemma CoverEnd(rs: seq<Region>, pieces: seq<Piece>, a: nat, count: nat, n: nat)
    requires Covered(rs, pieces, a, count, n) && (n == count || !Mapped(rs, a + n))
    ensures Prefix(rs, a, count) == n <= count && Tiles(rs, pieces, a, n)
  {
  }

  /** The slices cover exactly the mapped prefix of the range. */
  method GetSlices(rs: seq<Region>, a: nat, count: nat) returns (pieces: seq<Piece>, failed: bool)
    requires SortedDisjoint(rs)
    ensures Tiles(rs, pieces, a, Prefix(rs, a, count))
    ensures failed <==> Prefix(rs, a, count) < count
  {
    hide *;
    var it := new SliceIterator(rs, a, count);
    pieces := [];
    ghost var n := 0;
    CoverStart(rs, a, count);
    while true
      invariant it.rs == rs && it.addr == a + n && it.count == count - n
      invariant Covered(rs, pieces, a, count, n)
      decreases it.count
    {
      var item := it.Next();
      if item.None? || item.value.Invalid? {
        CoverEnd(rs, pieces, a, count, n);
        failed := item.Some?;
        break;
      }
      var p := item.value.piece;
      CoverNext(rs, pieces, a, count, n, p);
      pieces := pieces + [p];
      n := n + p.len;
    }
  }

  /** A range is valid if and only if every address in it is mapped; the empty range always is. */
  method CheckRange(rs: seq<Region>, base: nat, len: nat) returns (ok: bool)
    requires SortedDisjoint(rs)
    ensures ok <==> forall b :: base <= b < base + len ==> Mapped(rs, b)
  {
    var it := new SliceIterator(rs, base, len);
    var more := true;
    ok := true;
    while more && ok
      invariant it.rs == rs && base <= it.addr && it.count <= len
      invariant ok ==> forall b :: base <= b < it.addr ==> Mapped(rs, b)
      invariant ok && more ==> it.addr + it.count == base + len
      invariant ok && !more ==> it.addr == base + len
      invariant !ok ==> exists b :: base <= b < base + len && !Mapped(rs, b)
      decreases if more && ok then 1 + it.count else 0
    {
      var item := it.Next();
      if item.None? {
        more := false;
      } else if item.value.Invalid? {
        ok := false;
      }
    }
  }

  datatype Outcome = Done(count: nat) | InvalidGuestAddress | CallbackOutOfRange | GuestAddressOverflow | Failed

  /** What `write` and `read` return. */
  function RangeOutcome(rs: seq<Region>, a: nat, count: nat): Outcome {
    if count > 0 && !Mapped(rs, a) then InvalidGuestAddress else Done(Prefix(rs, a, count))
  }

  /** What `try_access` returns when its callback keeps making progress. */
  function AccessOutcome(rs: seq<Region>, a: nat, count: nat): Outcome {
    if !Mapped(rs, a) then InvalidGuestAddress else Done(Prefix(rs, a, count))
  }

  /** They differ on one family of inputs only: nothing to access at an unmapped address. */
  lemma AccessAgrees(rs: seq<Region>, a: nat, count: nat)
    ensures AccessOutcome(rs, a, count) == RangeOutcome(rs, a, count) <==> count > 0 || Mapped(rs, a)
  {
  }

  /** A callback gets its own state, and returns it changed, together with its answer. */
  type Callback<!S> = (S, nat, nat, nat, Region) -> (S, Outcome)

  /** The callback handles at least one byte, and at most all, of what it is offered. */
  ghost predicate Progresses<S(!new)>(f: Callback<S>) {
    forall s: S, total: nat, len: nat, start: nat, r: Region ::
      && f(s, total, len, start, r).1.Done?
      && f(s, total, len, start, r).1.count <= len
      && (len > 0 ==> f(s, total, len, start, r).1.count > 0)
  }

  /** Where an access whose callback keeps making progress stands. */
  predicate Reached(rs: seq<Region>, a: nat, count: nat, cur: nat, total: nat) {
    && total <= count && cur == a + total
    && Prefix(rs, a, count) == total + Prefix(rs, cur, count - total)
    && (total > 0 ==> Mapped(rs, a) && total < count)
  }

  lemma ReachNext(rs: seq<Region>, a: nat, count: nat, cur: nat, total: nat, r: Region, got: nat)
    requires SortedDisjoint(rs) && Reached(rs, a, count, cur, total) && LinearFind(rs, cur) == Some(r)
    requires r.start <= cur < r.start + r.len
    requires var len := Min(r.len - (cur - r.start), count - total);
             got <= len && (len > 0 ==> got > 0)
    ensures cur + got < TWO64 && total + got <= count
    ensures got == 0 ==> AccessOutcome(rs, a, count) == Done(total)
    ensures got > 0 && total + got == count ==> AccessOutcome(rs, a, count) == Done(count)
    ensures got > 0 && total + got < count ==> Reached(rs, a, count, cur + got, total + got)
  {
    hide SortedDisjoint, LinearFind, Prefix;
    RegionRun(rs, r, cur, got);
    PrefixSkip(rs, cur, count - total, got);
    if total + got == count {
      PrefixStops(rs, cur + got, 0);
    }
  }

  /** The rest of a region is mapped. */
  lemma RegionRun(rs: seq<Region>, r: Region, a: nat, n: nat)
    requires SortedDisjoint(rs) && LinearFind(rs, a) == Some(r) && a + n <= r.start + r.len
    ensures r.start <= a < r.start + r.len && Mapped(rs, a)
    ensures forall b :: a <= b < a + n ==> Mapped(rs, b)
  {
    SameRegion(rs, r, a);
  }

  lemma ReachEnd(rs: seq<Region>, a: nat, count: nat, cur: nat, total: nat)
    requires Reached(rs, a, count, cur, total) && !Mapped(rs, cur)
    ensures AccessOutcome(rs, a, count) == if total == 0 then InvalidGuestAddress else Done(total)
  {
  }

  /** Never handles more than asked for; if the callback makes progress, exactly the mapped prefix. */
  method TryAccess<S(!new)>(rs: seq<Region>, count: nat, addr: nat, f: Callback<S>, start: S)
    returns (r: Outcome, state: S)
    requires SortedDisjoint(rs) && addr < TWO64 && count < TWO64
    ensures r.Done? ==> r.count <= count
    ensures Progresses(f) && Mapped(rs, addr) ==> r == Done(Prefix(rs, addr, count))
    ensures Progresses(f) && !Mapped(rs, addr) ==> r == InvalidGuestAddress
  {
    hide LinearFind, SortedDisjoint, Prefix, Reached, Progresses, Min;
    var cur, total := addr, 0;
    state := start;
    ReachStart(rs, addr, count);
    while true
      invariant 0 <= total <= count
      invariant 0 <= cur < TWO64
      invariant Progresses(f) ==> Reached(rs, addr, count, cur, total)
      decreases count - total
    {
      var found := FindRegion(rs, cur);
      if found.None? {
        if Progresses(f) {
          ReachEnd(rs, addr, count, cur, total);
        }
        break;
      }
      var region := found.value;
      HoldsMeans(rs, cur, region);
      var offset := cur - region.start;
      var len := Min(region.len - offset, count - total);
      var (next, got) := f(state, total, len, offset, region);
      if Progresses(f) {
        ProgressMeans(f, state, total, len, offset, region);
        ReachNext(rs, addr, count, cur, total, region, got.count);
      }
      state := next;
      if !got.Done? {
        return got, state;
      }
      if got.count == 0 {
        return Done(total), state;
      }
      if total + got.count == count {
        return Done(count), state;
      }
      if total + got.count > count {
        return CallbackOutOfRange, state;
      }
      total := total + got.count;
      if cur + got.count > TWO64 {
        return GuestAddressOverflow, state;
      }
      cur := if cur + got.count == TWO64 then 0 else cur + got.count;
    }
    r := if total == 0 then InvalidGuestAddress else Done(total);
  }

  lemma ReachStart(rs: seq<Region>, a: nat, count: nat)
    ensures Reached(rs, a, count, a, 0)
  {
  }

  lemma HoldsMeans(rs: seq<Region>, a: nat, r: Region)
    requires LinearFind(rs, a) == Some(r)
    ensures r.start <= a < r.start + r.len
  {
  }

  lemma ProgressMeans<S(!new)>(f: Callback<S>, s: S, total: nat, len: nat, start: nat, r: Region)
    requires Progresses(f)
    ensures var got := f(s, total, len, start, r).1;
            got.Done? && got.count <= len && (len > 0 ==> got.count > 0)
  {
  }

  type Mappings = map<Region, seq<byte>>

  /** Each region has a mapping of its length. */
  predicate Backed(rs: seq<Region>, data: Mappings) {
    SortedDisjoint(rs) && forall r :: r in rs ==> r in data && |data[r]| == r.len
  }

  /** The flat byte map that the mappings stand for. */
  function ByteAt(rs: seq<Region>, data: Mappings, a: nat): byte
    requires Backed(rs, data) && Mapped(rs, a)
  {
    var r := LinearFind(rs, a).value;
    data[r][a - r.start]
  }

  /** `bytes` written at `a` and on. */
  ghost predicate Wrote(rs: seq<Region>, was: Mappings, now: Mappings, a: nat, bytes: seq<byte>)
    requires Backed(rs, was) && Backed(rs, now)
  {
    forall b: nat :: Mapped(rs, b) ==>
      ByteAt(rs, now, b) == if a <= b < a + |bytes| then bytes[b - a] else ByteAt(rs, was, b)
  }

  lemma PieceFits(rs: seq<Region>, p: Piece)
    requires WholeIn(rs, p)
    ensures var r := LinearFind(rs, p.addr).value;
            r in rs && r.start <= p.addr && p.addr + p.len <= r.start + r.len
  {
    assert LinearFind(rs, p.addr + p.len - 1) == LinearFind(rs, p.addr);
  }

  /** Writing one slice in its region's mapping writes those bytes of the flat map. */
  lemma SpliceWrites(rs: seq<Region>, data: Mappings, r: Region, p: Piece, bytes: seq<byte>)
    requires Backed(rs, data) && WholeIn(rs, p) && |bytes| == p.len && LinearFind(rs, p.addr) == Some(r)
    ensures r in data && r.start <= p.addr && p.addr - r.start + |bytes| <= |data[r]|
    ensures var now := data[r := Splice(data[r], p.addr - r.start, bytes)];
            Backed(rs, now) && Wrote(rs, data, now, p.addr, bytes)
  {
    hide Splice, LinearFind, SortedDisjoint, WholeIn, ByteAt, Mapped;
    PieceFits(rs, p);
    var now := data[r := Splice(data[r], p.addr - r.start, bytes)];
    assert Backed(rs, now);
    forall b: nat | Mapped(rs, b)
      ensures ByteAt(rs, now, b) == if p.addr <= b < p.addr + |bytes| then bytes[b - p.addr] else ByteAt(rs, data, b)
    {
      SpliceByte(rs, data, now, r, p, bytes, b);
    }
  }

  lemma SpliceByte(rs: seq<Region>, data: Mappings, now: Mappings, r: Region, p: Piece, bytes: seq<byte>, b: nat)
    requires Backed(rs, data) && Backed(rs, now)
    requires WholeIn(rs, p) && |bytes| == p.len && LinearFind(rs, p.addr) == Some(r)
    requires r in data && r.start <= p.addr && p.addr - r.start + |bytes| <= |data[r]|
    requires now == data[r := Splice(data[r], p.addr - r.start, bytes)]
    requires Mapped(rs, b)
    ensures ByteAt(rs, now, b) == if p.addr <= b < p.addr + |bytes| then bytes[b - p.addr] else ByteAt(rs, data, b)
  {
    hide SortedDisjoint, LinearFind, Splice;
    var at := LinearFind(rs, b).value;
    if at == r {
      assert now[r][b - r.start] == if p.addr <= b < p.addr + |bytes| then bytes[b - p.addr] else data[r][b - r.start];
    }
  }

  /** Two writes in a row are one. */
  lemma WroteOn(rs: seq<Region>, was: Mappings, mid: Mappings, now: Mappings, a: nat, buf: seq<byte>, n: nat, len: nat)
    requires Backed(rs, was) && Backed(rs, mid) && Backed(rs, now) && n + len <= |buf|
    requires Wrote(rs, was, mid, a, buf[..n]) && Wrote(rs, mid, now, a + n, buf[n..n + len])
    ensures Wrote(rs, was, now, a, buf[..n + len])
  {
    hide ByteAt, Mapped, Backed;
  }

  lemma InMapping(rs: seq<Region>, data: Mappings, found: Option<Region>, p: Piece)
    requires Backed(rs, data) && WholeIn(rs, p) && found == LinearFind(rs, p.addr)
    ensures found.Some?
    ensures var r := found.value;
            r in data && r.start <= p.addr && p.addr - r.start + p.len <= |data[r]|
  {
    PieceFits(rs, p);
  }

  method CopyOut(buf: array<byte>, n: nat, bytes: seq<byte>, at: nat, len: nat)
    requires n + len <= buf.Length && at + len <= |bytes|
    modifies buf
    ensures buf[..] == Splice(old(buf[..]), n, bytes[at..at + len])
  {
    for j := 0 to len
      invariant buf[..] == Splice(old(buf[..]), n, bytes[at..at + j])
    {
      buf[n + j] := bytes[at + j];
    }
  }

  /** The memory itself. */
  class Memory {
    const regions: seq<Region>
    var data: Mappings

    constructor (regions: seq<Region>)
      requires SortedDisjoint(regions)
      ensures this.regions == regions && Backed(regions, data)
      ensures forall a: nat :: Mapped(regions, a) ==> ByteAt(regions, data, a) == 0
    {
      this.regions := regions;
      data := map r | r in regions :: seq(r.len, _ => 0);
    }

    /**
    Writes the mapped prefix of the range, and nothing else; it is an error only if there is
    something to write and its first address is not mapped.
     */
    method Write(buf: seq<byte>, addr: nat) returns (r: Outcome)
      requires Backed(regions, data)
      modifies this
      ensures Backed(regions, data)
      ensures |buf| > 0 && !Mapped(regions, addr) ==> r == InvalidGuestAddress
      ensures |buf| == 0 || Mapped(regions, addr) ==> r == Done(Prefix(regions, addr, |buf|))
      ensures Wrote(regions, old(data), data, addr, buf[..Prefix(regions, addr, |buf|)])
    {
      hide LinearFind, SortedDisjoint, WholeIn, Prefix, Wrote, Written, Mapped;
      ghost var rs, was := regions, data;
      var it := new SliceIterator(regions, addr, |buf|);
      var acc := 0;
      WriteStart(rs, data, addr, buf);
      while true
        invariant it.rs == rs && it.addr == addr + acc && it.count == |buf| - acc
        invariant Written(rs, was, data, addr, buf, acc)
        decreases it.count
      {
        var item := it.Next();
        if item.None? || item.value.Invalid? {
          WriteEnd(rs, was, data, addr, buf, acc);
          // An error in the first slice is returned; after that it just ends the access.
          return if item.Some? && acc == 0 then InvalidGuestAddress else Done(acc);
        }
        var p := item.value.piece;
        ghost var mid := data;
        WriteParts(rs, was, mid, addr, buf, acc, p);
        WriteSlice(p, buf[acc..acc + p.len]);
        WriteNext(rs, was, mid, data, addr, buf, acc, p);
        acc := acc + p.len;
      }
    }

    /** Reads the mapped prefix of the range into `buf`; the errors are those of a write. */
    method Read(buf: array<byte>, addr: nat) returns (r: Outcome)
      requires Backed(regions, data)
      modifies buf
      ensures buf.Length > 0 && !Mapped(regions, addr) ==> r == InvalidGuestAddress
      ensures buf.Length == 0 || Mapped(regions, addr) ==> r == Done(Prefix(regions, addr, buf.Length))
      ensures Fetched(regions, data, addr, old(buf[..]), buf[..], Prefix(regions, addr, buf.Length))
    {
      hide LinearFind, SortedDisjoint, WholeIn, Prefix, Fetched, Mapped, Splice;
      ghost var rs, was := regions, buf[..];
      var it := new SliceIterator(regions, addr, buf.Length);
      var acc := 0;
      FetchStart(rs, data, addr, was);
      while true
        invariant it.rs == rs && it.addr == addr + acc && it.count == buf.Length - acc
        invariant Fetched(rs, data, addr, was, buf[..], acc)
        decreases it.count
      {
        var item := it.Next();
        if item.None? || item.value.Invalid? {
          FetchEnd(rs, data, addr, was, buf[..], acc);
          return if item.Some? && acc == 0 then InvalidGuestAddress else Done(acc);
        }
        var p := item.value.piece;
        ghost var mid := buf[..];
        var found := FindRegion(regions, p.addr);
        InMapping(rs, data, found, p);
        CopyOut(buf, acc, data[found.value], p.addr - found.value.start, p.len);
        FetchNext(rs, data, found.value, p, addr, was, mid, buf[..], acc);
        acc := acc + p.len;
      }
    }

    /** One slice of a write, into the mapping of its region. */
    method WriteSlice(p: Piece, bytes: seq<byte>)
      requires Backed(regions, data) && WholeIn(regions, p) && |bytes| == p.len
      modifies this
      ensures Backed(regions, data) && Wrote(regions, old(data), data, p.addr, bytes)
    {
      var found := FindRegion(regions, p.addr);
      SpliceWrites(regions, data, found.value, p, bytes);
      data := data[found.value := Splice(data[found.value], p.addr - found.value.start, bytes)];
    }
  }

  /** The first `n` bytes of `buf` are those of the range; the others are as they were. */
  ghost predicate Fetched(rs: seq<Region>, data: Mappings, a: nat, was: seq<byte>, buf: seq<byte>, n: nat)
    requires Backed(rs, data)
  {
    && |was| == |buf| && n <= |buf|
    && (forall b: nat :: a <= b < a + n ==> Mapped(rs, b) && ByteAt(rs, data, b) == buf[b - a])
    && (forall i :: n <= i < |buf| ==> buf[i] == was[i])
    && Prefix(rs, a, |buf|) == n + Prefix(rs, a + n, |buf| - n)
  }

  lemma FetchStart(rs: seq<Region>, data: Mappings, a: nat, buf: seq<byte>)
    requires Backed(rs, data)
    ensures Fetched(rs, data, a, buf, buf, 0)
  {
  }

  lemma FetchEnd(rs: seq<Region>, data: Mappings, a: nat, was: seq<byte>, buf: seq<byte>, n: nat)
    requires Backed(rs, data) && Fetched(rs, data, a, was, buf, n) && (n == |buf| || !Mapped(rs, a + n))
    ensures n == Prefix(rs, a, |buf|)
    ensures n == 0 <==> buf == [] || !Mapped(rs, a)
  {
    PrefixStops(rs, a + n, |buf| - n);
    hide ByteAt, Backed, Mapped, LinearFind;
  }

  lemma PrefixStops(rs: seq<Region>, a: nat, count: nat)
    requires count == 0 || !Mapped(rs, a)
    ensures Prefix(rs, a, count) == 0
  {
  }

  lemma FetchNext(rs: seq<Region>, data: Mappings, r: Region, p: Piece, a: nat,
                  was: seq<byte>, mid: seq<byte>, buf: seq<byte>, n: nat)
    requires Backed(rs, data) && Fetched(rs, data, a, was, mid, n) && |buf| == |mid|
    requires WholeIn(rs, p) && LinearFind(rs, p.addr) == Some(r) && p.addr == a + n && n + p.len <= |buf|
    requires r in data && r.start <= p.addr && p.addr - r.start + p.len <= |data[r]|
    requires buf == Splice(mid, n, data[r][p.addr - r.start..p.addr - r.start + p.len])
    ensures Fetched(rs, data, a, was, buf, n + p.len)
  {
    hide WholeIn, ByteAt, Prefix, Backed, Mapped, LinearFind, Splice;
    PrefixPast(rs, p, |buf| - n);
    forall b: nat | a <= b < a + n + p.len ensures Mapped(rs, b) && ByteAt(rs, data, b) == buf[b - a] {
      if b < a + n {
        assert buf[b - a] == mid[b - a];
      } else {
        PieceByte(rs, data, r, p, b);
      }
    }
  }

  lemma PieceByte(rs: seq<Region>, data: Mappings, r: Region, p: Piece, b: nat)
    requires Backed(rs, data) && WholeIn(rs, p) && LinearFind(rs, p.addr) == Some(r) && p.addr <= b < p.addr + p.len
    requires r in data && r.start <= p.addr && p.addr - r.start + p.len <= |data[r]|
    ensures Mapped(rs, b) && ByteAt(rs, data, b) == data[r][b - r.start]
  {
    hide LinearFind, SortedDisjoint, Backed;
  }

  /** Reading a range that was just written gives back what was written to its mapped prefix. */
  lemma ReadBack(rs: seq<Region>, was: Mappings, now: Mappings, a: nat, buf: seq<byte>,
                 before: seq<byte>, out: seq<byte>)
    requires Backed(rs, was) && Backed(rs, now) && |out| == |buf|
    requires Wrote(rs, was, now, a, buf[..Prefix(rs, a, |buf|)])
    requires Fetched(rs, now, a, before, out, Prefix(rs, a, |buf|))
    ensures out[..Prefix(rs, a, |buf|)] == buf[..Prefix(rs, a, |buf|)]
  {
    hide *;
    var n := Prefix(rs, a, |buf|);
    assert |out| == |buf|;
    forall i | 0 <= i < n ensures out[i] == buf[i] {
      FetchedAt(rs, now, a, before, out, n, i);
      WroteAt(rs, was, now, a, buf[..n], i);
    }
  }

  lemma FetchedAt(rs: seq<Region>, data: Mappings, a: nat, was: seq<byte>, buf: seq<byte>, n: nat, i: nat)
    requires Backed(rs, data) && Fetched(rs, data, a, was, buf, n) && i < n
    ensures n <= |buf| && Mapped(rs, a + i) && ByteAt(rs, data, a + i) == buf[i]
  {
    hide Backed, ByteAt, Mapped, Prefix;
    var b: nat := a + i;
    assert Mapped(rs, b) && ByteAt(rs, data, b) == buf[b - a];
  }

  lemma WroteAt(rs: seq<Region>, was: Mappings, now: Mappings, a: nat, bytes: seq<byte>, i: nat)
    requires Backed(rs, was) && Backed(rs, now) && Wrote(rs, was, now, a, bytes) && i < |bytes| && Mapped(rs, a + i)
    ensures ByteAt(rs, now, a + i) == bytes[i]
  {
    hide Backed, ByteAt, Mapped;
    var b: nat := a + i;
    assert Mapped(rs, b);
  }

  /** A write that has placed its first `acc` bytes. */
  ghost predicate Written(rs: seq<Region>, was: Mappings, now: Mappings, a: nat, buf: seq<byte>, acc: nat) {
    && acc <= |buf|
    && Backed(rs, was) && Backed(rs, now)
    && Wrote(rs, was, now, a, buf[..acc])
    && Prefix(rs, a, |buf|) == acc + Prefix(rs, a + acc, |buf| - acc)
  }

  lemma WriteStart(rs: seq<Region>, data: Mappings, a: nat, buf: seq<byte>)
    requires Backed(rs, data)
    ensures Written(rs, data, data, a, buf, 0)
  {
  }

  lemma WriteParts(rs: seq<Region>, was: Mappings, now: Mappings, a: nat, buf: seq<byte>, acc: nat, p: Piece)
    requires Written(rs, was, now, a, buf, acc)
    ensures Backed(rs, now) && acc <= |buf|
  {
  }

  lemma WriteNext(rs: seq<Region>, was: Mappings, mid: Mappings, now: Mappings, a: nat, buf: seq<byte>,
                  acc: nat, p: Piece)
    requires Written(rs, was, mid, a, buf, acc) && WholeIn(rs, p) && p.addr == a + acc && acc + p.len <= |buf|
    requires Backed(rs, mid) && Backed(rs, now) && Wrote(rs, mid, now, p.addr, buf[acc..acc + p.len])
    ensures Written(rs, was, now, a, buf, acc + p.len)
  {
    hide Wrote, Backed, Prefix, WholeIn;
    PrefixPast(rs, p, |buf| - acc);
    WroteOn(rs, was, mid, now, a, buf, acc, p.len);
  }

  lemma WriteEnd(rs: seq<Region>, was: Mappings, now: Mappings, a: nat, buf: seq<byte>, acc: nat)
    requires Written(rs, was, now, a, buf, acc) && (acc == |buf| || !Mapped(rs, a + acc))
    ensures acc == Prefix(rs, a, |buf|)
    ensures Backed(rs, was) && Backed(rs, now) && Wrote(rs, was, now, a, buf[..acc])
    ensures acc == 0 <==> buf == [] || !Mapped(rs, a)
  {
  }
}
