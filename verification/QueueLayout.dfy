/**
Where a split virtqueue lies in guest memory, and which accesses the queue operations make there.
(VIRTIO 1.1, sections 2.6.5, 2.6.6 and 2.6.8.)
 */
module QueueLayout {
  import opened Wrappers
  import opened GuestRegions
  import opened Wrapping

  datatype Layout = Layout(maxSize: u16, size: u16, ready: bool, descTable: nat, availRing: nat, usedRing: nat) {
    predicate Proper() { descTable < TWO64 && availRing < TWO64 && usedRing < TWO64 }

    function ActualSize(): u16 { if size < maxSize then size else maxSize }

    function DescEnd(): nat { descTable + 16 * ActualSize() }
    function AvailEnd(): nat { availRing + (6 + 2 * ActualSize()) }
    function UsedEnd(): nat { usedRing + (6 + 8 * ActualSize()) }
  }

  predicate InRange(rs: seq<Region>, a: nat) {
    a < TWO64 && FindRegion(rs, a).Some?
  }

  /** The bit test for powers of two. */
  predicate SingleBit(size: u16) {
    var b := size as bv16;
    b & (b - 1) == 0
  }

  predicate IsValid(q: Layout, rs: seq<Region>) {
    && q.ready
    && !(q.size > q.maxSize || q.size == 0 || !SingleBit(q.size))
    && InRange(rs, q.DescEnd())
    && InRange(rs, q.AvailEnd())
    && InRange(rs, q.UsedEnd())
    && q.descTable % 16 == 0 && q.availRing % 2 == 0 && q.usedRing % 4 == 0
  }

  // The accesses of each operation

  /** The byte offset of a slot of the available ring, in sixteen bits. */
  function SlotOffset(slot: u16): u16 { Wrap(4 + Wrap(2 * slot)) }

  lemma SlotOffsetFits(slot: u16)
    requires slot < 0x8000
    ensures SlotOffset(slot) == (if slot <= 32765 then 4 + 2 * slot else 4 + 2 * slot - M)
  {
  }

  lemma SlotBounds(counter: nat, size: nat)
    requires size > 0
    ensures counter % size < size
    ensures counter < size ==> counter % size == counter
  {
    if counter < size {
      ModUnique(counter, 0, counter, size);
    }
  }

  function SlotOf(counter: u16, size: u16): (slot: u16)
    requires size > 0
    ensures slot < size
    ensures counter < size ==> slot == counter
  {
    SlotBounds(counter, size);
    counter % size
  }

  function PopOffset(q: Layout, nextAvail: u16): u16
    requires q.ActualSize() > 0
  {
    SlotOffset(SlotOf(nextAvail, q.ActualSize()))
  }

  function AvailIdx(q: Layout): Access { Atomic(q.availRing + 2, 2, false) }

  function PopSlot(q: Layout, nextAvail: u16): Access
    requires q.ActualSize() > 0
  {
    Object(q.availRing + PopOffset(q, nextAvail), 2, false)
  }

  function ReadDescriptor(q: Layout, index: u16): Access { Object(q.descTable + 16 * index, 16, false) }

  function UsedElement(q: Layout, nextUsed: u16): Access
    requires q.size > 0
  {
    Object(q.usedRing + (4 + 8 * SlotOf(nextUsed, q.size)), 8, true)
  }

  function UsedIdx(q: Layout): Access { Atomic(q.usedRing + 2, 2, true) }

  function UsedEvent(q: Layout): Access { Atomic(q.availRing + (4 + 2 * q.size), 2, false) }

  function AvailEvent(q: Layout): Access { Atomic(q.usedRing + (4 + 8 * q.size), 2, true) }

  function UsedFlags(q: Layout): Access { Atomic(q.usedRing, 2, true) }

  /** Everything the queue operations may touch. */
  ghost predicate Accesses(q: Layout, a: Access)
    requires q.size > 0 && q.ActualSize() > 0
  {
    || a == AvailIdx(q) || a == UsedEvent(q)
    || a == UsedIdx(q) || a == AvailEvent(q) || a == UsedFlags(q)
    || (exists k: u16 :: a == PopSlot(q, k))
    || (exists k: u16 :: a == UsedElement(q, k))
    || (exists i: u16 :: i < q.ActualSize() && a == ReadDescriptor(q, i))
  }

  /** The available ring is flags, idx, ring and used_event, one after the other. */
  lemma AvailLayout(q: Layout, k: u16)
    requires 0 < q.ActualSize() <= 32766
    ensures var idx := AvailIdx(q);
            && idx.addr == q.availRing + 2 && idx.len == 2 && !idx.write
            && PopSlot(q, k) == Object(idx.addr + 2 + 2 * (k % q.ActualSize()), 2, false)
            && UsedEvent(q) == Atomic(idx.addr + 2 + 2 * q.size, 2, false)
  {
    SlotOffsetFits(SlotOf(k, q.ActualSize()));
    hide SlotOffset;
  }

  /** The used ring is flags, idx, ring and avail_event, one after the other. */
  lemma UsedLayout(q: Layout, k: u16)
    requires q.size > 0
    ensures var idx := UsedIdx(q);
            && UsedFlags(q) == Atomic(q.usedRing, 2, true)
            && idx == Atomic(q.usedRing + 2, 2, true)
            && UsedElement(q, k) == Object(idx.addr + 2 + 8 * (k % q.size), 8, true)
            && AvailEvent(q) == Atomic(idx.addr + 2 + 8 * q.size, 2, true)
  {
  }

  /** The region that holds the end of an area also holds its start, and may be read and written. */
  predicate StartsWithEnd(rs: seq<Region>, start: nat, end: nat)
    requires InRange(rs, end)
  {
    var r := FindRegion(rs, end).value;
    r.Holds(start) && Permitted(r, false) && Permitted(r, true)
  }

  /** An access between the start and the end of such an area. */
  lemma WithinArea(rs: seq<Region>, start: nat, end: nat, a: Access)
    requires Proper(rs) && Apart(rs) && InRange(rs, end) && StartsWithEnd(rs, start, end)
    requires start <= a.addr && a.addr + a.len <= end
    ensures Safe(rs, a)
  {
    var r := FindRegion(rs, end).value;
    FindUnique(rs, r, a.addr);
  }

  lemma AvailSafe(q: Layout, rs: seq<Region>, a: Access, k: u16)
    requires Proper(rs) && Apart(rs) && 0 < q.size == q.ActualSize() <= 0x8000
    requires InRange(rs, q.AvailEnd()) && StartsWithEnd(rs, q.availRing, q.AvailEnd())
    requires a == AvailIdx(q) || a == UsedEvent(q) || a == PopSlot(q, k)
    ensures a.addr < TWO64 && Safe(rs, a)
  {
    hide SlotOf, SlotOffset;
    SlotOffsetFits(SlotOf(k, q.size));
    WithinArea(rs, q.availRing, q.AvailEnd(), a);
  }

  lemma UsedSafe(q: Layout, rs: seq<Region>, a: Access, k: u16)
    requires Proper(rs) && Apart(rs) && 0 < q.size == q.ActualSize()
    requires InRange(rs, q.UsedEnd()) && StartsWithEnd(rs, q.usedRing, q.UsedEnd())
    requires a == UsedIdx(q) || a == AvailEvent(q) || a == UsedFlags(q) || a == UsedElement(q, k)
    ensures a.addr < TWO64 && Safe(rs, a)
  {
    WithinArea(rs, q.usedRing, q.UsedEnd(), a);
  }

  /**
  Validity, with each area starting in the region where it ends, makes every access of the queue
  operations succeed and stay in bounds, for every counter value.
   */
  lemma ValidMeansSafe(q: Layout, rs: seq<Region>, a: Access)
    requires Proper(rs) && Apart(rs) && q.Proper() && IsValid(q, rs)
    requires StartsWithEnd(rs, q.descTable, q.DescEnd())
    requires StartsWithEnd(rs, q.availRing, q.AvailEnd())
    requires StartsWithEnd(rs, q.usedRing, q.UsedEnd())
    requires Accesses(q, a)
    ensures a.addr < TWO64 && Safe(rs, a)
  {
    SizeOfSingleBit(q.size);
    hide StartsWithEnd, Safe, SingleBit, PopSlot, UsedElement;
    if k: u16 :| a == PopSlot(q, k) {
      AvailSafe(q, rs, a, k);
    } else if k: u16 :| a == UsedElement(q, k) {
      UsedSafe(q, rs, a, k);
    } else if i: u16 :| i < q.ActualSize() && a == ReadDescriptor(q, i) {
      WithinArea(rs, q.descTable, q.DescEnd(), a);
    } else if a == AvailIdx(q) || a == UsedEvent(q) {
      AvailSafe(q, rs, a, 0);
    } else {
      UsedSafe(q, rs, a, 0);
    }
  }

  lemma SizeOfSingleBit(size: u16)
    requires size > 0 && SingleBit(size)
    ensures M % size == 0 && (size <= 16384 || size == 32768)
  {
    var b := size as bv16;
    assert b as nat == size;
    PowerOfTwo(b);
  }

  /** The sixteen powers of two that fit. */
  predicate IsPower(size: nat) {
    size in {1, 2, 4, 8, 16, 32, 64, 128, 256, 512, 1024, 2048, 4096, 8192, 16384, 32768}
  }

  lemma SingleBitExact(size: u16)
    requires size > 0
    ensures SingleBit(size) <==> IsPower(size)
  {
    hide SingleBit, IsPower;
    if SingleBit(size) {
      SingleBitIsPower(size);
    }
    if IsPower(size) {
      PowerIsSingleBit(size);
    }
  }

  lemma SingleBitIsPower(size: u16)
    requires size > 0 && SingleBit(size)
    ensures IsPower(size)
  {
    var b := size as bv16;
    assert b as nat == size;
    OneBit(b);
  }

  lemma PowerIsSingleBit(size: u16)
    requires IsPower(size)
    ensures SingleBit(size)
  {
    assert SingleBit(1) && SingleBit(2) && SingleBit(4) && SingleBit(8);
    assert SingleBit(16) && SingleBit(32) && SingleBit(64) && SingleBit(128);
    assert SingleBit(256) && SingleBit(512) && SingleBit(1024) && SingleBit(2048);
    assert SingleBit(4096) && SingleBit(8192) && SingleBit(16384) && SingleBit(32768);
    hide SingleBit;
  }

  /**
  What validity means: a ready queue of a power-of-two size that the device offers, each of whose
  areas is aligned and is followed by a byte that some region holds.
   */
  lemma ValidExact(q: Layout, rs: seq<Region>)
    requires Proper(rs)
    ensures IsValid(q, rs) <==>
            && q.ready && IsPower(q.size) && q.size <= q.maxSize
            && q.descTable % 16 == 0 && q.availRing % 2 == 0 && q.usedRing % 4 == 0
            && (exists r :: r in rs && r.gpa <= q.descTable + 16 * q.size < r.gpa + r.size)
            && (exists r :: r in rs && r.gpa <= q.availRing + 6 + 2 * q.size < r.gpa + r.size)
            && (exists r :: r in rs && r.gpa <= q.usedRing + 6 + 8 * q.size < r.gpa + r.size)
  {
    hide SingleBit, IsPower, FindRegion;
    if q.size > 0 {
      SingleBitExact(q.size);
    } else {
      assert !IsPower(0) by { NoPower(); }
    }
    if 0 < q.size <= q.maxSize {
      RangeExact(rs, q.DescEnd());
      RangeExact(rs, q.AvailEnd());
      RangeExact(rs, q.UsedEnd());
    }
  }

  lemma NoPower()
    ensures !IsPower(0)
  {
  }

  lemma RangeExact(rs: seq<Region>, a: nat)
    requires Proper(rs)
    ensures InRange(rs, a) <==> exists r :: r in rs && r.gpa <= a < r.gpa + r.size
  {
    if r :| r in rs && r.gpa <= a < r.gpa + r.size {
      assert r.Holds(a) && r.Proper();
    }
  }

  /** `pop` computes the offset of its slot, for every counter, exactly up to size 32766. */
  lemma PopOffsetExact(q: Layout)
    requires q.ActualSize() > 0
    ensures (forall k: u16 :: PopOffset(q, k) == 4 + 2 * SlotOf(k, q.ActualSize())) <==> q.ActualSize() <= 32766
  {
    var n := q.ActualSize();
    hide SlotOf, SlotOffset;
    forall k: u16 | n <= 32766 ensures PopOffset(q, k) == 4 + 2 * SlotOf(k, n) {
      SlotOffsetFits(SlotOf(k, n));
    }
    if n > 32766 {
      var k: u16 := n - 1;
      assert SlotOf(k, n) == k;
      assert PopOffset(q, k) < M <= 4 + 2 * k;
    }
  }

  /** Of the valid sizes only 32768 is too large for it. */
  lemma ValidOffsets(q: Layout, rs: seq<Region>)
    requires IsValid(q, rs)
    ensures M % q.size == 0
    ensures (forall k: u16 :: PopOffset(q, k) == 4 + 2 * SlotOf(k, q.ActualSize())) <==> q.size != 32768
  {
    SizeOfSingleBit(q.size);
    PopOffsetExact(q);
  }

  /** Every entry of the descriptor table can be read. */
  ghost predicate TableReadable(q: Layout, rs: seq<Region>) {
    forall i: u16 :: i < q.ActualSize() ==> ReadDescriptor(q, i).addr < TWO64 && Safe(rs, ReadDescriptor(q, i))
  }

  /**
  For the descriptor table the two conditions are exact: all entries can be read if and only if
  the end of the table passes the range check of `is_valid` and lies in the region of its start.
   */
  lemma TableExact(q: Layout, rs: seq<Region>)
    requires Proper(rs) && Apart(rs) && q.ActualSize() > 0
    requires forall r :: r in rs ==> Permitted(r, false) && Permitted(r, true)
    ensures TableReadable(q, rs) <==>
            InRange(rs, q.DescEnd()) && StartsWithEnd(rs, q.descTable, q.DescEnd())
  {
    if InRange(rs, q.DescEnd()) && StartsWithEnd(rs, q.descTable, q.DescEnd()) {
      forall i: u16 | i < q.ActualSize() ensures ReadDescriptor(q, i).addr < TWO64 && Safe(rs, ReadDescriptor(q, i)) {
        WithinArea(rs, q.descTable, q.DescEnd(), ReadDescriptor(q, i));
      }
    }
    if TableReadable(q, rs) {
      TableInOneRegion(q, rs, q.ActualSize());
    }
  }

  /** An object access that succeeds is followed by another byte of the same region. */
  lemma StaysInside(rs: seq<Region>, at: nat, len: nat, write: bool)
    requires Proper(rs) && Apart(rs) && at < TWO64 && Safe(rs, Object(at, len, write))
    ensures FindRegion(rs, at).Some? && at + len <= FindRegion(rs, at).value.Last()
    ensures FindRegion(rs, at + len) == FindRegion(rs, at)
  {
    var r := FindRegion(rs, at).value;
    assert r.Proper();
    ObjectCheckExact(rs, Object(at, len, write));
    FindUnique(rs, r, at + len);
  }

  /** Where the `i`th of a row of objects of `width` bytes begins. */
  function TileAt(start: nat, width: nat, i: nat): nat { start + width * i }

  lemma TileNext(start: nat, width: nat, i: nat)
    ensures TileAt(start, width, i) + width == TileAt(start, width, i + 1)
    ensures TileAt(start, width, 0) == start
  {
  }

  predicate TileSafe(rs: seq<Region>, start: nat, width: nat, write: bool, i: nat) {
    var at := TileAt(start, width, i);
    at < TWO64 && Safe(rs, Object(at, width, write))
  }

  lemma TileStays(rs: seq<Region>, start: nat, width: nat, write: bool, i: nat)
    requires Proper(rs) && Apart(rs) && TileSafe(rs, start, width, write, i)
    ensures var at := TileAt(start, width, i);
            && at < TWO64 && FindRegion(rs, at).Some?
            && at + width <= FindRegion(rs, at).value.Last()
            && FindRegion(rs, at + width) == FindRegion(rs, at)
  {
    hide TileAt, Proper, Apart, Safe, FindRegion;
    StaysInside(rs, TileAt(start, width, i), width, write);
  }

  /** A row of objects that are all accessible lies in one region, with a byte to spare. */
  lemma {:induction false} TilesInOneRegion(rs: seq<Region>, start: nat, width: nat, write: bool, n: nat)
    requires Proper(rs) && Apart(rs) && 0 < n
    requires forall i :: 0 <= i < n ==> TileSafe(rs, start, width, write, i)
    ensures start < TWO64 && FindRegion(rs, start).Some?
    ensures TileAt(start, width, n) <= FindRegion(rs, start).value.Last()
    ensures FindRegion(rs, TileAt(start, width, n)) == FindRegion(rs, start)
    decreases n
  {
    hide *;
    TileStays(rs, start, width, write, n - 1);
    TileNext(start, width, n - 1);
    if n > 1 {
      TilesInOneRegion(rs, start, width, write, n - 1);
    }
  }

  lemma TableInOneRegion(q: Layout, rs: seq<Region>, n: u16)
    requires Proper(rs) && Apart(rs) && TableReadable(q, rs) && 0 < n <= q.ActualSize()
    ensures q.descTable < TWO64 && FindRegion(rs, q.descTable).Some?
    ensures q.descTable + 16 * n <= FindRegion(rs, q.descTable).value.Last()
    ensures FindRegion(rs, q.descTable + 16 * n) == FindRegion(rs, q.descTable)
  {
    hide Proper, Apart, Safe, FindRegion;
    forall i | 0 <= i < n ensures TileSafe(rs, q.descTable, 16, false, i) {
      assert ReadDescriptor(q, i) == Object(q.descTable + 16 * i, 16, false);
    }
    TilesInOneRegion(rs, q.descTable, 16, false, n);
  }

  // The two rings

  /** The bytes from `start` to `end` lie in one region. */
  predicate OneRegion(rs: seq<Region>, start: nat, end: nat) {
    FindRegion(rs, start).Some? && end <= FindRegion(rs, start).value.Last() + 1
  }

  /** Inside an area that lies in one region; objects need a byte to spare. */
  lemma WithinOne(rs: seq<Region>, start: nat, end: nat, a: Access)
    requires Proper(rs) && Apart(rs) && OneRegion(rs, start, end)
    requires forall r :: r in rs ==> Permitted(r, false) && Permitted(r, true)
    requires start <= a.addr && a.len > 0 && a.addr + a.len + (if a.Object? then 1 else 0) <= end
    ensures a.addr < TWO64 && Safe(rs, a)
  {
    var r := FindRegion(rs, start).value;
    assert r.Proper();
    FindUnique(rs, r, a.addr);
    hide FindRegion, Apart, Proper;
  }

  lemma AtomicSafe(rs: seq<Region>, a: Access)
    requires Proper(rs) && a.Atomic?
    requires forall r :: r in rs ==> Permitted(r, false) && Permitted(r, true)
    ensures a.addr < TWO64 && Safe(rs, a) <==> Inside(rs, a)
  {
    if Inside(rs, a) {
      assert FindRegion(rs, a.addr).value.Proper();
    }
  }

  ghost predicate AvailAccess(q: Layout, a: Access)
    requires q.ActualSize() > 0
  {
    a == AvailIdx(q) || a == UsedEvent(q) || exists k: u16 :: a == PopSlot(q, k)
  }

  ghost predicate UsedAccess(q: Layout, a: Access)
    requires q.size > 0
  {
    a == UsedFlags(q) || a == UsedIdx(q) || a == AvailEvent(q) || exists k: u16 :: a == UsedElement(q, k)
  }

  ghost predicate AvailReadable(q: Layout, rs: seq<Region>)
    requires q.ActualSize() > 0
  {
    forall a :: AvailAccess(q, a) ==> a.addr < TWO64 && Safe(rs, a)
  }

  ghost predicate UsedWritable(q: Layout, rs: seq<Region>)
    requires q.size > 0
  {
    forall a :: UsedAccess(q, a) ==> a.addr < TWO64 && Safe(rs, a)
  }

  /**
  Every access to the available ring works if and only if its index lies in one region, and so
  does everything from the first slot to the end.
   */
  lemma AvailExact(q: Layout, rs: seq<Region>)
    requires Proper(rs) && Apart(rs) && 0 < q.size == q.ActualSize() <= 32766
    requires forall r :: r in rs ==> Permitted(r, false) && Permitted(r, true)
    ensures AvailReadable(q, rs) <==>
            Inside(rs, AvailIdx(q)) && OneRegion(rs, q.availRing + 4, q.AvailEnd())
  {
    hide Proper, Apart, Safe, FindRegion, Inside, Permitted, SlotOf, SlotOffset, OneRegion, PopSlot;
    if AvailReadable(q, rs) {
      AvailNeeds(q, rs);
    }
    if Inside(rs, AvailIdx(q)) && OneRegion(rs, q.availRing + 4, q.AvailEnd()) {
      forall a | AvailAccess(q, a) ensures a.addr < TWO64 && Safe(rs, a) {
        if a == AvailIdx(q) {
          AtomicSafe(rs, a);
        } else if k: u16 :| a == PopSlot(q, k) {
          SlotAccess(q, k);
          WithinOne(rs, q.availRing + 4, q.AvailEnd(), a);
        } else {
          WithinOne(rs, q.availRing + 4, q.AvailEnd(), a);
        }
      }
    }
  }

  lemma SlotAccess(q: Layout, k: u16)
    requires 0 < q.size == q.ActualSize() <= 32766
    ensures var slot := SlotOf(k, q.size);
            slot < q.size && PopSlot(q, k) == Object(q.availRing + 4 + 2 * slot, 2, false)
  {
    hide SlotOf, SlotOffset;
    SlotOffsetFits(SlotOf(k, q.size));
  }

  lemma AvailNeeds(q: Layout, rs: seq<Region>)
    requires Proper(rs) && Apart(rs) && 0 < q.size == q.ActualSize() <= 32766 && AvailReadable(q, rs)
    requires forall r :: r in rs ==> Permitted(r, false) && Permitted(r, true)
    ensures Inside(rs, AvailIdx(q)) && OneRegion(rs, q.availRing + 4, q.AvailEnd())
  {
    hide Proper, Apart, Safe, FindRegion, Permitted, SlotOf, SlotOffset, PopSlot;
    assert AvailAccess(q, AvailIdx(q)) && AvailAccess(q, UsedEvent(q));
    AtomicSafe(rs, AvailIdx(q));
    AtomicSafe(rs, UsedEvent(q));
    var first := q.availRing + 4;
    forall i | 0 <= i < q.size ensures TileSafe(rs, first, 2, false, i) {
      SlotAccess(q, i);
      assert AvailAccess(q, PopSlot(q, i));
    }
    TilesInOneRegion(rs, first, 2, false, q.size);
  }

  /** At size 32768 the slots are read from the ring's start on: two of them at flags and index. */
  lemma WrappedSlot(q: Layout, k: u16)
    requires q.size == q.ActualSize() == 0x8000
    ensures var slot := SlotOf(k, q.size);
            && slot < 0x8000
            && (slot <= 32765 ==> PopSlot(q, k) == Object(q.availRing + (4 + 2 * slot), 2, false))
            && (slot > 32765 ==> PopSlot(q, k) == Object(q.availRing + (2 * slot - 65532), 2, false))
  {
    hide SlotOf, SlotOffset;
    SlotOffsetFits(SlotOf(k, q.size));
  }

  /**
  At size 32768, the one valid size for which offsets wrap, every access to the available ring
  works if and only if its first 65537 bytes lie in one region, and so does `used_event`.
   */
  lemma AvailExactAtMost(q: Layout, rs: seq<Region>)
    requires Proper(rs) && Apart(rs) && q.size == q.ActualSize() == 0x8000
    requires forall r :: r in rs ==> Permitted(r, false) && Permitted(r, true)
    ensures AvailReadable(q, rs) <==>
            OneRegion(rs, q.availRing, q.availRing + 65537) && Inside(rs, UsedEvent(q))
  {
    hide Proper, Apart, Safe, FindRegion, Inside, Permitted, SlotOf, SlotOffset, OneRegion, PopSlot;
    if AvailReadable(q, rs) {
      WrappedNeeds(q, rs);
    }
    if OneRegion(rs, q.availRing, q.availRing + 65537) && Inside(rs, UsedEvent(q)) {
      forall a | AvailAccess(q, a) ensures a.addr < TWO64 && Safe(rs, a) {
        if a == UsedEvent(q) {
          AtomicSafe(rs, a);
        } else if k: u16 :| a == PopSlot(q, k) {
          WrappedSlot(q, k);
          WithinOne(rs, q.availRing, q.availRing + 65537, a);
        } else {
          WithinOne(rs, q.availRing, q.availRing + 65537, a);
        }
      }
    }
  }

  lemma WrappedNeeds(q: Layout, rs: seq<Region>)
    requires Proper(rs) && Apart(rs) && q.size == q.ActualSize() == 0x8000 && AvailReadable(q, rs)
    requires forall r :: r in rs ==> Permitted(r, false) && Permitted(r, true)
    ensures OneRegion(rs, q.availRing, q.availRing + 65537) && Inside(rs, UsedEvent(q))
  {
    hide Proper, Apart, Safe, FindRegion, Permitted, SlotOf, SlotOffset, PopSlot;
    assert AvailAccess(q, UsedEvent(q));
    AtomicSafe(rs, UsedEvent(q));
    var first := q.availRing;
    forall i | 0 <= i < 0x8000 ensures TileSafe(rs, first, 2, false, i) {
      var k: u16 := if i < 2 then 32766 + i else i - 2;
      WrappedSlot(q, k);
      assert AvailAccess(q, PopSlot(q, k));
    }
    TilesInOneRegion(rs, first, 2, false, 0x8000);
  }

  /**
  Every access to the used ring works if and only if its flags and its index lie in one region
  each, and so does everything from the first element to the end.
   */
  lemma UsedExact(q: Layout, rs: seq<Region>)
    requires Proper(rs) && Apart(rs) && 0 < q.size == q.ActualSize()
    requires forall r :: r in rs ==> Permitted(r, false) && Permitted(r, true)
    ensures UsedWritable(q, rs) <==>
            Inside(rs, UsedFlags(q)) && Inside(rs, UsedIdx(q)) && OneRegion(rs, q.usedRing + 4, q.UsedEnd())
  {
    hide Proper, Apart, Safe, FindRegion, Inside, Permitted, SlotOf, OneRegion;
    if UsedWritable(q, rs) {
      UsedNeeds(q, rs);
    }
    if Inside(rs, UsedFlags(q)) && Inside(rs, UsedIdx(q)) && OneRegion(rs, q.usedRing + 4, q.UsedEnd()) {
      forall a | UsedAccess(q, a) ensures a.addr < TWO64 && Safe(rs, a) {
        if a == UsedFlags(q) || a == UsedIdx(q) {
          AtomicSafe(rs, a);
        } else {
          WithinOne(rs, q.usedRing + 4, q.UsedEnd(), a);
        }
      }
    }
  }

  lemma UsedNeeds(q: Layout, rs: seq<Region>)
    requires Proper(rs) && Apart(rs) && 0 < q.size == q.ActualSize() && UsedWritable(q, rs)
    requires forall r :: r in rs ==> Permitted(r, false) && Permitted(r, true)
    ensures Inside(rs, UsedFlags(q)) && Inside(rs, UsedIdx(q)) && OneRegion(rs, q.usedRing + 4, q.UsedEnd())
  {
    hide Proper, Apart, Safe, FindRegion, Permitted, SlotOf;
    assert UsedAccess(q, UsedFlags(q)) && UsedAccess(q, UsedIdx(q)) && UsedAccess(q, AvailEvent(q));
    AtomicSafe(rs, UsedFlags(q));
    AtomicSafe(rs, UsedIdx(q));
    AtomicSafe(rs, AvailEvent(q));
    var first := q.usedRing + 4;
    forall i | 0 <= i < q.size ensures TileSafe(rs, first, 8, true, i) {
      assert UsedElement(q, i) == Object(q.usedRing + 4 + 8 * i, 8, true);
      assert UsedAccess(q, UsedElement(q, i));
    }
    TilesInOneRegion(rs, first, 8, true, q.size);
  }

  /** Range checks on the ends alone do not suffice: a table that starts below the memory passes. */
  lemma EndsDoNotSuffice()
    ensures exists q: Layout, rs: seq<Region> ::
      && q.Proper() && Proper(rs) && Apart(rs) && IsValid(q, rs)
      && (forall r :: r in rs ==> Permitted(r, false) && Permitted(r, true))
      && !TableReadable(q, rs)
  {
    var rs := [Region(0x1000, 0x1000, true, true, Some(0))];
    var q := Layout(1, 1, true, 0xff0, 0x1100, 0x1200);
    assert FindRegion(rs[1..], 0xff0).None?;
    assert (1 as bv16) & (0 as bv16) == 0;
    assert SingleBit(q.size);
    var a := ReadDescriptor(q, 0);
    assert a.addr == 0xff0;
    assert !Safe(rs, a);
    assert IsValid(q, rs);
  }
}
