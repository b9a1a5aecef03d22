/**
The redirection table of the software IOAPIC.

An entry is a 64-bit word whose bits the code tests and sets through masks.  `Entry` is
the same word read field by field; the lemmas here say that every mask operation of the
code is exactly one change of fields, so that the state machine can be reasoned about
without bit vectors.
 */
module RedirectionTable {

  const NUM_PINS: nat := 24

  const REMOTE_IRR: bv64 := 0x4000
  const TRIGGER_MODE: bv64 := 0x8000
  const MASKED: bv64 := 0x1_0000
  const RO_BITS: bv64 := 0x5000

  /** All 64 bits of a redirection table entry, from the least significant up. */
  datatype Entry = Entry(
    vector: bv8,
    deliveryMode: bv3,
    logical: bool,
    deliveryStatus: bool,
    polarity: bool,
    remoteIrr: bool,
    level: bool,
    masked: bool,
    reservedLow: bv15,
    reservedHigh: bv24,
    dest: bv8)

  function Low(w: bv64): bv32 { (w & 0xffff_ffff) as bv32 }

  function High(w: bv64): bv32 { (w >> 32) as bv32 }

  function DecodeHalves(low: bv32, high: bv32): Entry {
    Entry(
      (low & 0xff) as bv8,
      ((low >> 8) & 0x7) as bv3,
      low & 0x800 != 0,
      low & 0x1000 != 0,
      low & 0x2000 != 0,
      low & 0x4000 != 0,
      low & 0x8000 != 0,
      low & 0x1_0000 != 0,
      (low >> 17) as bv15,
      (high & 0xff_ffff) as bv24,
      (high >> 24) as bv8)
  }

  function Decode(w: bv64): Entry {
    DecodeHalves(Low(w), High(w))
  }

  lemma LowInjective(v: bv32, w: bv32)
    requires (v & 0xff) as bv8 == (w & 0xff) as bv8
    requires ((v >> 8) & 0x7) as bv3 == ((w >> 8) & 0x7) as bv3
    requires v & 0x1_f800 == w & 0x1_f800
    requires (v >> 17) as bv15 == (w >> 17) as bv15
    ensures v == w
  {
  }

  lemma FlagsInjective(v: bv32, w: bv32)
    requires v & 0x800 != 0 <==> w & 0x800 != 0
    requires v & 0x1000 != 0 <==> w & 0x1000 != 0
    requires v & 0x2000 != 0 <==> w & 0x2000 != 0
    requires v & 0x4000 != 0 <==> w & 0x4000 != 0
    requires v & 0x8000 != 0 <==> w & 0x8000 != 0
    requires v & 0x1_0000 != 0 <==> w & 0x1_0000 != 0
    ensures v & 0x1_f800 == w & 0x1_f800
  {
  }

  lemma HighInjective(v: bv32, w: bv32)
    requires (v & 0xff_ffff) as bv24 == (w & 0xff_ffff) as bv24
    requires (v >> 24) as bv8 == (w >> 24) as bv8
    ensures v == w
  {
  }

  lemma HalvesInjective(v: bv64, w: bv64)
    requires Low(v) == Low(w) && High(v) == High(w)
    ensures v == w
  {
  }

  lemma HalfFieldsInjective(low1: bv32, high1: bv32, low2: bv32, high2: bv32)
    requires DecodeHalves(low1, high1) == DecodeHalves(low2, high2)
    ensures low1 == low2 && high1 == high2
  {
    FlagsInjective(low1, low2);
    LowInjective(low1, low2);
    HighInjective(high1, high2);
  }

  /** The fields describe the whole word: no bit of an entry is lost in `Decode`. */
  lemma DecodeInjective(v: bv64, w: bv64)
    requires Decode(v) == Decode(w)
    ensures v == w
  {
    HalfFieldsInjective(Low(v), High(v), Low(w), High(w));
    HalvesInjective(v, w);
  }

  lemma LowFlags(low: bv32)
    ensures DecodeHalves(low | 0x4000, 0) == DecodeHalves(low, 0).(remoteIrr := true)
    ensures DecodeHalves(low & !0x4000, 0) == DecodeHalves(low, 0).(remoteIrr := false)
  {
  }

  lemma SetRemoteIrrHalves(w: bv64)
    ensures Low(w | REMOTE_IRR) == Low(w) | 0x4000 && High(w | REMOTE_IRR) == High(w)
  {
  }

  lemma ClearRemoteIrrHalves(w: bv64)
    ensures Low(w & !REMOTE_IRR) == Low(w) & !0x4000 && High(w & !REMOTE_IRR) == High(w)
  {
  }

  lemma TestHalves(w: bv64)
    ensures w & REMOTE_IRR != 0 <==> Low(w) & 0x4000 != 0
    ensures w & TRIGGER_MODE != 0 <==> Low(w) & 0x8000 != 0
  {
  }

  predicate RemoteIrrSet(w: bv64) { w & REMOTE_IRR != 0 }

  predicate LevelTriggered(w: bv64) { w & TRIGGER_MODE != 0 }

  function WithRemoteIrr(w: bv64): bv64 { w | REMOTE_IRR }

  function WithoutRemoteIrr(w: bv64): bv64 { w & !REMOTE_IRR }

  /** The mask operations of the code on Remote IRR and trigger mode are field operations. */
  lemma RemoteIrrMasks(w: bv64)
    ensures RemoteIrrSet(w) <==> Decode(w).remoteIrr
    ensures LevelTriggered(w) <==> Decode(w).level
    ensures Decode(WithRemoteIrr(w)) == Decode(w).(remoteIrr := true)
    ensures Decode(WithoutRemoteIrr(w)) == Decode(w).(remoteIrr := false)
  {
    SetRemoteIrrHalves(w);
    ClearRemoteIrrHalves(w);
    TestHalves(w);
    LowFlags(Low(w));
  }

  lemma ParseNumbers(w: bv64)
    ensures (w & 0xff) as bv8 == (Low(w) & 0xff) as bv8
    ensures ((w >> 8) & 0x7) as bv3 == ((Low(w) >> 8) & 0x7) as bv3
    ensures ((w >> 56) & 0xff) as bv8 == (High(w) >> 24) as bv8
  {
  }

  lemma ParseFlags(w: bv64)
    ensures (w >> 11) & 1 != 0 <==> Low(w) & 0x800 != 0
    ensures (w >> 15) & 1 != 0 <==> Low(w) & 0x8000 != 0
    ensures (w >> 16) & 1 != 0 <==> Low(w) & 0x1_0000 != 0
  {
  }

  /** What software writing the low half may change: everything but the two status bits. */
  function WriteLow(e: Entry, val: bv32): Entry {
    DecodeHalves(val, 0).(
      deliveryStatus := e.deliveryStatus, remoteIrr := e.remoteIrr,
      reservedHigh := e.reservedHigh, dest := e.dest)
  }

  /** What software writing the high half may change: the destination and reserved bits. */
  function WriteHigh(e: Entry, val: bv32): Entry {
    e.(reservedHigh := (val & 0xff_ffff) as bv24, dest := (val >> 24) as bv8)
  }

  lemma WriteKeepsRemoteIrr(e: Entry, val: bv32)
    ensures WriteLow(e, val).remoteIrr == e.remoteIrr
    ensures WriteHigh(e, val).remoteIrr == e.remoteIrr
  {
  }

  /** The word the code stores when one half is written and the read-only bits restored. */
  function MergeLow(w: bv64, val: bv32): bv64 {
    ((((w & !0xffff_ffff) | (val as bv64)) & !RO_BITS) | (w & RO_BITS))
  }

  function MergeHigh(w: bv64, val: bv32): bv64 {
    ((((w & 0xffff_ffff) | ((val as bv64) << 32)) & !RO_BITS) | (w & RO_BITS))
  }

  lemma MergeHalves(w: bv64, val: bv32)
    ensures Low(MergeLow(w, val)) == (val & !0x5000) | (Low(w) & 0x5000)
    ensures High(MergeLow(w, val)) == High(w)
    ensures Low(MergeHigh(w, val)) == Low(w)
    ensures High(MergeHigh(w, val)) == val
  {
  }

  lemma KeepReadOnlyNumbers(low: bv32, val: bv32)
    ensures var m := (val & !0x5000) | (low & 0x5000);
            && (m & 0xff) as bv8 == (val & 0xff) as bv8
            && ((m >> 8) & 0x7) as bv3 == ((val >> 8) & 0x7) as bv3
            && (m >> 17) as bv15 == (val >> 17) as bv15
  {
  }

  lemma KeepReadOnlyFlags(low: bv32, val: bv32)
    ensures var m := (val & !0x5000) | (low & 0x5000);
            && m & 0x800 == val & 0x800
            && m & 0x1000 == low & 0x1000
            && m & 0x2000 == val & 0x2000
            && m & 0x4000 == low & 0x4000
            && m & 0x8000 == val & 0x8000
            && m & 0x1_0000 == val & 0x1_0000
  {
  }

  lemma KeepReadOnly(low: bv32, val: bv32)
    ensures DecodeHalves((val & !0x5000) | (low & 0x5000), 0)
         == WriteLow(DecodeHalves(low, 0), val)
  {
    KeepReadOnlyNumbers(low, val);
    KeepReadOnlyFlags(low, val);
  }

  /** A register write changes exactly the writable fields of the half it addresses. */
  lemma MergeIsFieldWrite(w: bv64, val: bv32)
    ensures Decode(MergeLow(w, val)) == WriteLow(Decode(w), val)
    ensures Decode(MergeHigh(w, val)) == WriteHigh(Decode(w), val)
  {
    MergeHalves(w, val);
    KeepReadOnly(Low(w), val);
  }

  /** The fields of an entry that decide an injection, as the code parses them. */
  datatype EntryInfo = EntryInfo(
    masked: bool,
    level: bool,
    dest: bv8,
    logical: bool,
    deliveryMode: bv3,
    vector: bv8)

  /** Shifting the word gives the same six fields as reading it half by half. */
  function ParseEntry(w: bv64): (info: EntryInfo)
    ensures var e := Decode(w);
            info == EntryInfo(e.masked, e.level, e.dest, e.logical, e.deliveryMode, e.vector)
  {
    ParseNumbers(w);
    ParseFlags(w);
    EntryInfo(
      (w >> 16) & 1 != 0,
      (w >> 15) & 1 != 0,
      ((w >> 56) & 0xff) as bv8,
      (w >> 11) & 1 != 0,
      ((w >> 8) & 0x7) as bv3,
      (w & 0xff) as bv8)
  }

  /** Edge entries never keep Remote IRR. */
  function FixEdge(e: Entry): (r: Entry)
    ensures !r.level ==> !r.remoteIrr
    ensures r == e || (!e.level && r == e.(remoteIrr := false))
  {
    if e.level then e else e.(remoteIrr := false)
  }

  /** Interrupt request register: bit `i` of a 32-bit word. */
  predicate IrrBit(irr: bv32, i: nat)
    requires i < NUM_PINS
  {
    irr & ((1 as bv32) << i) != 0
  }

  function SetPending(irr: bv32, i: nat): bv32
    requires i < NUM_PINS
  {
    irr | ((1 as bv32) << i)
  }

  function ClearPending(irr: bv32, i: nat): bv32
    requires i < NUM_PINS
  {
    irr & !((1 as bv32) << i)
  }

  lemma DistinctMasks(irr: bv32, m: bv32, n: bv32)
    ensures m & n == 0 ==> (irr & !m) & n == irr & n && (irr | m) & n == irr & n
  {
  }

  lemma SetIrrOther(irr: bv32, i: nat, j: nat)
    requires i < NUM_PINS && j < NUM_PINS && i != j
    ensures IrrBit(SetPending(irr, i), j) == IrrBit(irr, j)
  {
    DistinctMasks(irr, (1 as bv32) << i, (1 as bv32) << j);
  }

  lemma SetIrrSame(irr: bv32, i: nat)
    requires i < NUM_PINS
    ensures IrrBit(SetPending(irr, i), i)
  {
  }

  lemma SetIrrBit(irr: bv32, i: nat, j: nat)
    requires i < NUM_PINS && j < NUM_PINS
    ensures IrrBit(SetPending(irr, i), j) == (i == j || IrrBit(irr, j))
  {
    hide IrrBit, SetPending;
    if i != j {
      SetIrrOther(irr, i, j);
    } else {
      SetIrrSame(irr, i);
    }
  }

  lemma ClearIrrOther(irr: bv32, i: nat, j: nat)
    requires i < NUM_PINS && j < NUM_PINS && i != j
    ensures IrrBit(ClearPending(irr, i), j) == IrrBit(irr, j)
  {
    DistinctMasks(irr, (1 as bv32) << i, (1 as bv32) << j);
  }

  lemma ClearIrrSame(irr: bv32, i: nat)
    requires i < NUM_PINS
    ensures !IrrBit(ClearPending(irr, i), i)
  {
  }

  lemma ClearIrrBit(irr: bv32, i: nat, j: nat)
    requires i < NUM_PINS && j < NUM_PINS
    ensures IrrBit(ClearPending(irr, i), j) == (i != j && IrrBit(irr, j))
  {
    hide IrrBit, ClearPending;
    if i != j {
      ClearIrrOther(irr, i, j);
    } else {
      ClearIrrSame(irr, i);
    }
  }
}
