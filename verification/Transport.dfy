/**
The virtio-mmio transport: device status machine, feature negotiation, queue set-up and the
hand-over of the queues to the device on activation.

`Step` is the specification of one 32-bit register write; the class `MmioTransport` is the
code that updates its fields in place.  A word that the code uses bitwise (device status,
features, interrupt status) is a bit vector there and the set of its one bits in the
specification; a ring address is one 64-bit word there and its two halves here.  The device
behind the transport is a block device: its worker thread is started by `activate` and joined
by `reset`.
 */
module TransportSpec {
  import opened Wrappers
  import opened BitWords

  function Number(v: bv32): nat { v as nat }

  // Device status bits, by position
  const ACKNOWLEDGE: nat := 0
  const DRIVER: nat := 1
  const DRIVER_OK: nat := 2
  const FEATURES_OK: nat := 3
  const FAILED: nat := 7

  const EVENT_IDX: nat := 29

  /** A ring address, by the halves that the driver writes. */
  datatype Address = Address(high: bv32, low: bv32)

  datatype Queue = Queue(
    maxSize: nat, size: bv16, ready: bool, descTable: Address, availRing: Address, usedRing: Address,
    eventIdx: bool)

  datatype Area = DescTable | AvailRing | UsedRing

  datatype QueueField = Size | Ready | Low(area: Area) | High(area: Area)

  function SetHalf(a: Address, high: bool, v: bv32): Address {
    if high then a.(high := v) else a.(low := v)
  }

  function SetArea(q: Queue, area: Area, high: bool, v: bv32): Queue {
    match area
    case DescTable => q.(descTable := SetHalf(q.descTable, high, v))
    case AvailRing => q.(availRing := SetHalf(q.availRing, high, v))
    case UsedRing => q.(usedRing := SetHalf(q.usedRing, high, v))
  }

  function Low16(v: bv32): bv16 { (v & 0xffff) as bv16 }

  function SetField(q: Queue, f: QueueField, v: bv32): Queue {
    match f
    case Size => q.(size := Low16(v))
    case Ready => q.(ready := v == 1)
    case Low(area) => SetArea(q, area, false, v)
    case High(area) => SetArea(q, area, true, v)
  }

  function FieldAt(offset: nat): Option<QueueField> {
    if offset == 0x38 then Some(Size)
    else if offset == 0x44 then Some(Ready)
    else if offset == 0x80 then Some(Low(DescTable))
    else if offset == 0x84 then Some(High(DescTable))
    else if offset == 0x90 then Some(Low(AvailRing))
    else if offset == 0x94 then Some(High(AvailRing))
    else if offset == 0xa0 then Some(Low(UsedRing))
    else if offset == 0xa4 then Some(High(UsedRing))
    else None
  }

  function NewQueue(maxSize: nat): Queue {
    Queue(maxSize, 0, false, Address(0, 0), Address(0, 0), Address(0, 0), false)
  }

  function NewQueues(config: seq<nat>): seq<Queue> {
    seq(|config|, i requires 0 <= i < |config| => NewQueue(config[i]))
  }

  /** The device side: features, worker thread, and whether `reset` is supported. */
  datatype Device = Device(
    available: set<nat>, acked: set<nat>, activated: bool, worker: bool, queues: seq<Queue>,
    resets: bool)

  datatype State = State(
    status: set<nat>,
    featuresSelect: nat,
    ackedSelect: nat,
    queueSelect: nat,
    shmSelect: nat,
    queues: Option<seq<Queue>>,
    config: seq<nat>,
    notified: seq<bool>,
    interruptStatus: set<nat>,
    lineReleased: nat,
    device: Device,
    activations: nat,
    panicked: bool)

  function NewState(config: seq<nat>, device: Device): State {
    State({}, 0, 0, 0, 0, Some(NewQueues(config)), config, seq(|config|, _ => false), {}, 0,
          device, 0, false)
  }

  /** A page of features: bits 0 to 31 or 32 to 63; any other page is empty. */
  function PageBits(page: nat, bits: set<nat>): set<nat> {
    if page == 0 then bits else if page == 1 then Up(bits) else {}
  }

  predicate MayAck(status: set<nat>) {
    DRIVER in status && FEATURES_OK !in status && FAILED !in status
  }

  predicate MayConfigure(status: set<nat>) {
    FEATURES_OK in status && FAILED !in status
  }

  function WithEventIdx(queues: seq<Queue>, on: bool): seq<Queue> {
    seq(|queues|, i requires 0 <= i < |queues| => queues[i].(eventIdx := on))
  }

  /** Queues leave the transport for the device, whose worker thread starts. */
  function Activated(s: State): State {
    match s.queues
    case None => s
    case Some(qs) =>
      if s.device.worker then s.(queues := None, panicked := true)
      else s.(queues := None, activations := s.activations + 1,
              device := s.device.(activated := true, worker := true,
                                  queues := WithEventIdx(qs, EVENT_IDX in s.device.acked)))
  }

  function DeviceReset(d: Device): Device {
    if d.resets then d.(activated := false, worker := false) else d
  }

  function TransportReset(s: State): State {
    s.(featuresSelect := 0, ackedSelect := 0, queueSelect := 0, interruptStatus := {},
       status := {}, queues := Some(NewQueues(s.config)), activations := 0)
  }

  /** The first three steps of initialization, each adding exactly one bit. */
  predicate Advances(status: set<nat>, v: set<nat>) {
    || (v - status == {ACKNOWLEDGE} && status == {})
    || (v - status == {DRIVER} && status == {ACKNOWLEDGE})
    || (v - status == {FEATURES_OK} && status == {ACKNOWLEDGE, DRIVER})
  }

  /** The last step, DRIVER_OK. */
  predicate Launches(status: set<nat>, v: set<nat>) {
    v - status == {DRIVER_OK} && status == {ACKNOWLEDGE, DRIVER, FEATURES_OK}
  }

  function SetStatus(s: State, v: set<nat>): State {
    if Advances(s.status, v) then s.(status := v)
    else if Launches(s.status, v) then
      var t := s.(status := v);
      if t.device.activated then t else Activated(t)
    else if FAILED in v then s.(status := s.status + {FAILED})
    else if v == {} then Restarted(s)
    else s
  }

  /** A write of zero: the device is reset if it can be, and then the transport, unless FAILED. */
  function Restarted(s: State): State {
    var t := if s.device.activated
             then s.(device := DeviceReset(s.device),
                     status := if s.device.resets then s.status else s.status + {FAILED})
             else s;
    if FAILED in t.status then t else TransportReset(t)
  }

  /** InterruptACK: bits are dropped, and the line is released when none is left. */
  function Acknowledge(s: State, v: set<nat>): State {
    if DRIVER_OK !in s.status then s
    else
      var left := s.interruptStatus - v;
      s.(interruptStatus := left,
         lineReleased := s.lineReleased + (if left == {} then 1 else 0))
  }

  function UpdateQueue(s: State, f: QueueField, v: bv32): State {
    if MayConfigure(s.status) && s.queues.Some? && s.queueSelect < |s.queues.value| then
      var qs := s.queues.value;
      s.(queues := Some(qs[s.queueSelect := SetField(qs[s.queueSelect], f, v)]))
    else s
  }

  function Notify(s: State, i: nat): State {
    if i < |s.notified| then s.(notified := s.notified[i := true]) else s
  }

  function AckFeatures(d: Device, page: nat, bits: set<nat>): Device {
    d.(acked := d.acked + PageBits(page, bits) * d.available)
  }

  /** One aligned 32-bit write into the register page. */
  function Step(s: State, offset: nat, v: bv32): State {
    if offset == 0x14 then s.(featuresSelect := Number(v))
    else if offset == 0x20 then
      if MayAck(s.status) then s.(device := AckFeatures(s.device, s.ackedSelect, Bits32(v))) else s
    else if offset == 0x24 then s.(ackedSelect := Number(v))
    else if offset == 0x30 then s.(queueSelect := Number(v))
    else if offset == 0x50 then Notify(s, Number(v))
    else if offset == 0x64 then Acknowledge(s, Bits32(v))
    else if offset == 0x70 then SetStatus(s, Bits32(v))
    else if offset == 0xac then s.(shmSelect := Number(v))
    else match FieldAt(offset)
      case Some(f) => UpdateQueue(s, f, v)
      case None => s
  }
}

module TransportCode {
  import opened Wrappers
  import opened TransportSpec
  import opened BitWords

  // Device status words
  const S_ACKNOWLEDGE: bv32 := 1
  const S_DRIVER: bv32 := 2
  const S_DRIVER_OK: bv32 := 4
  const S_FEATURES_OK: bv32 := 8
  const S_FAILED: bv32 := 0x80

  const EVENT_IDX_MASK: bv64 := 1 << 29

  // Words of the code and what they stand for

  const BEFORE_FEATURES_OK: bv32 := S_ACKNOWLEDGE | S_DRIVER
  const BEFORE_LAUNCH: bv32 := S_ACKNOWLEDGE | S_DRIVER | S_FEATURES_OK
  const NEGOTIATED: bv32 := S_FEATURES_OK | S_FAILED

  lemma StatusBits()
    ensures Bits32(0) == {}
    ensures Bits32(S_ACKNOWLEDGE) == {ACKNOWLEDGE} && Bits32(S_DRIVER) == {DRIVER}
    ensures Bits32(S_DRIVER_OK) == {DRIVER_OK} && Bits32(S_FEATURES_OK) == {FEATURES_OK}
    ensures Bits32(S_FAILED) == {FAILED}
    ensures Bits32(BEFORE_FEATURES_OK) == {ACKNOWLEDGE, DRIVER}
    ensures Bits32(BEFORE_LAUNCH) == {ACKNOWLEDGE, DRIVER, FEATURES_OK}
    ensures Bits32(NEGOTIATED) == {FEATURES_OK, FAILED}
  {
    assert Wide(0) == 0 && Wide(1) == Mask(0) && Wide(2) == Mask(1) && Wide(4) == Mask(2);
    assert Wide(8) == Mask(3) && Wide(0x80) == Mask(7);
    assert BEFORE_FEATURES_OK == Or32(1, 2) && BEFORE_LAUNCH == Or32(BEFORE_FEATURES_OK, 8);
    assert NEGOTIATED == Or32(8, 0x80);
    hide Wide, Mask, Bits, Or32;
    BitsOfZero();
    BitsOfMask(0);
    BitsOfMask(1);
    BitsOfMask(2);
    BitsOfMask(3);
    BitsOfMask(7);
    Bits32Ops(1, 2);
    Bits32Ops(BEFORE_FEATURES_OK, 8);
    Bits32Ops(8, 0x80);
  }

  /** The mask test of the code. */
  predicate CheckStatus(status: bv32, required: bv32, excluded: bv32) {
    And32(status, Or32(required, excluded)) == required
  }

  /** The mask test, for disjoint masks, is a test of bits. */
  lemma CheckMeans(status: bv32, required: bv32, excluded: bv32)
    requires Bits32(required) * Bits32(excluded) == {}
    ensures CheckStatus(status, required, excluded)
       <==> Bits32(required) <= Bits32(status) && Bits32(status) * Bits32(excluded) == {}
  {
    hide Bits32, And32, Or32;
    Bits32Ops(required, excluded);
    Bits32Ops(status, Or32(required, excluded));
    Same(And32(status, Or32(required, excluded)), required);
    CheckSets(Bits32(status), Bits32(required), Bits32(excluded));
  }

  lemma CheckSets(s: set<nat>, r: set<nat>, e: set<nat>)
    requires r * e == {}
    ensures s * (r + e) == r <==> r <= s && s * e == {}
  {
    if s * (r + e) == r {
      assert s * e <= s * (r + e);
      assert s * e <= r * e;
    }
    if r <= s && s * e == {} {
      forall x | x in s * (r + e) ensures x in r {
        if x in e {
          assert x in s * e;
        }
      }
      assert forall x :: x in r ==> x in s * (r + e);
    }
  }

  lemma CheckTests(status: bv32)
    ensures CheckStatus(status, S_DRIVER, NEGOTIATED) == MayAck(Bits32(status))
    ensures CheckStatus(status, S_FEATURES_OK, S_FAILED) == MayConfigure(Bits32(status))
    ensures CheckStatus(status, S_DRIVER_OK, 0) == (DRIVER_OK in Bits32(status))
  {
    hide Bits32, CheckStatus;
    StatusBits();
    CheckMeans(status, S_DRIVER, NEGOTIATED);
    CheckMeans(status, S_FEATURES_OK, S_FAILED);
    CheckMeans(status, S_DRIVER_OK, 0);
    var s := Bits32(status);
    assert s * {FEATURES_OK, FAILED} == {} <==> FEATURES_OK !in s && FAILED !in s by {
      assert forall x :: x in s * {FEATURES_OK, FAILED} ==> x == FEATURES_OK || x == FAILED;
      assert FEATURES_OK in s ==> FEATURES_OK in s * {FEATURES_OK, FAILED};
      assert FAILED in s ==> FAILED in s * {FEATURES_OK, FAILED};
    }
    assert s * {FAILED} == {} <==> FAILED !in s by {
      assert FAILED in s ==> FAILED in s * {FAILED};
    }
  }

  predicate FirstArms(added: bv32, status: bv32) {
    || (added == S_ACKNOWLEDGE && status == 0)
    || (added == S_DRIVER && status == S_ACKNOWLEDGE)
    || (added == S_FEATURES_OK && status == BEFORE_FEATURES_OK)
  }

  predicate LaunchArm(added: bv32, status: bv32) {
    added == S_DRIVER_OK && status == BEFORE_LAUNCH
  }

  /** The arms of the status match, as conditions on sets of bits. */
  lemma StatusArms(status: bv32, v: bv32)
    ensures FirstArms(AndNot32(v, status), status) <==> Advances(Bits32(status), Bits32(v))
    ensures LaunchArm(AndNot32(v, status), status) <==> Launches(Bits32(status), Bits32(v))
    ensures v == 0 <==> Bits32(v) == {}
  {
    hide Bits32, AndNot32;
    StatusBits();
    Bits32Ops(v, status);
    var added := AndNot32(v, status);
    Same(added, S_ACKNOWLEDGE);
    Same(added, S_DRIVER);
    Same(added, S_FEATURES_OK);
    Same(added, S_DRIVER_OK);
    Same(status, 0);
    Same(status, S_ACKNOWLEDGE);
    Same(status, BEFORE_FEATURES_OK);
    Same(status, BEFORE_LAUNCH);
    Same(v, 0);
  }

  lemma Same(a: bv32, b: bv32)
    ensures a == b <==> Bits32(a) == Bits32(b)
  {
    Bits32Injective(a, b);
  }

  // Ring addresses

  function SetLo(w: bv64, v: bv32): bv64 { (w & !0xffff_ffff) | (v as bv64) }

  function SetHi(w: bv64, v: bv32): bv64 { (w & 0xffff_ffff) | ((v as bv64) << 32) }

  function Halves(w: bv64): Address { Address((w >> 32) as bv32, (w & 0xffff_ffff) as bv32) }

  /** The mask writes of one half replace that half and keep the other. */
  lemma HalfWrites(w: bv64, v: bv32)
    ensures Halves(SetLo(w, v)) == SetHalf(Halves(w), false, v)
    ensures Halves(SetHi(w, v)) == SetHalf(Halves(w), true, v)
    ensures Halves(0) == Address(0, 0)
  {
  }

  /** The two halves, written in either order, are exactly the 64-bit address. */
  lemma AddressFromHalves(w: bv64, low: bv32, high: bv32)
    ensures SetHi(SetLo(w, low), high) == SetLo(SetHi(w, high), low) == Whole(low, high)
  {
    hide SetLo, SetHi, Whole, Halves;
    HalfWrites(w, low);
    HalfWrites(w, high);
    HalfWrites(SetLo(w, low), high);
    HalfWrites(SetHi(w, high), low);
    WholeHalves(low, high);
    HalvesInjective(SetHi(SetLo(w, low), high), Whole(low, high));
    HalvesInjective(SetLo(SetHi(w, high), low), Whole(low, high));
  }

  function Whole(low: bv32, high: bv32): bv64 { ((high as bv64) << 32) | (low as bv64) }

  lemma WholeHalves(low: bv32, high: bv32)
    ensures Halves(Whole(low, high)) == Address(high, low)
  {
  }

  lemma HalvesInjective(v: bv64, w: bv64)
    ensures Halves(v) == Halves(w) ==> v == w
  {
  }

  // The code

  datatype QueueRegs = QueueRegs(
    maxSize: nat, size: bv16, ready: bool, descTable: bv64, availRing: bv64, usedRing: bv64,
    eventIdx: bool)

  function QueueOf(q: QueueRegs): Queue {
    Queue(q.maxSize, q.size, q.ready, Halves(q.descTable), Halves(q.availRing), Halves(q.usedRing), q.eventIdx)
  }

  function QueuesOf(qs: seq<QueueRegs>): seq<Queue> {
    seq(|qs|, i requires 0 <= i < |qs| => QueueOf(qs[i]))
  }

  function CreateQueues(config: seq<nat>): seq<QueueRegs> {
    seq(|config|, i requires 0 <= i < |config| => QueueRegs(config[i], 0, false, 0, 0, 0, false))
  }

  lemma CreatedQueues(config: seq<nat>)
    ensures QueuesOf(CreateQueues(config)) == NewQueues(config)
  {
    hide Halves;
    HalfWrites(0, 0);
  }

  /** The closures that the register writes apply to the selected queue. */
  function UpdateRegs(q: QueueRegs, f: QueueField, v: bv32): QueueRegs {
    match f
    case Size => q.(size := Low16(v))
    case Ready => q.(ready := v == 1)
    case Low(DescTable) => q.(descTable := SetLo(q.descTable, v))
    case High(DescTable) => q.(descTable := SetHi(q.descTable, v))
    case Low(AvailRing) => q.(availRing := SetLo(q.availRing, v))
    case High(AvailRing) => q.(availRing := SetHi(q.availRing, v))
    case Low(UsedRing) => q.(usedRing := SetLo(q.usedRing, v))
    case High(UsedRing) => q.(usedRing := SetHi(q.usedRing, v))
  }

  lemma UpdatedRegs(q: QueueRegs, f: QueueField, v: bv32)
    ensures QueueOf(UpdateRegs(q, f, v)) == SetField(QueueOf(q), f, v)
  {
    hide Halves, SetLo, SetHi, Low16;
    match f
    case Size =>
    case Ready =>
    case Low(DescTable) => HalfWrites(q.descTable, v);
    case High(DescTable) => HalfWrites(q.descTable, v);
    case Low(AvailRing) => HalfWrites(q.availRing, v);
    case High(AvailRing) => HalfWrites(q.availRing, v);
    case Low(UsedRing) => HalfWrites(q.usedRing, v);
    case High(UsedRing) => HalfWrites(q.usedRing, v);
  }

  /** Features that were not offered are taken out of an acknowledge, the others are added. */
  function AckWord(acked: bv64, available: bv64, v: bv64): bv64 {
    var unrequested := AndNot(v, available);
    Or(acked, if unrequested != 0 then AndNot(v, unrequested) else v)
  }

  lemma AckMeans(acked: bv64, available: bv64, v: bv64)
    ensures Bits(AckWord(acked, available, v)) == Bits(acked) + Bits(v) * Bits(available)
  {
    hide Bits, AndNot, Or;
    var unrequested := AndNot(v, available);
    BitsOfAndNot(v, available);
    BitsOfAndNot(v, unrequested);
    ZeroExact(unrequested);
    BitsOfOr(acked, if unrequested != 0 then AndNot(v, unrequested) else v);
    assert Bits(v) - (Bits(v) - Bits(available)) == Bits(v) * Bits(available);
    if unrequested == 0 {
      assert Bits(v) - Bits(available) == {};
      assert Bits(v) * Bits(available) == Bits(v);
    }
  }

  function PageWord(page: nat, value: bv32): bv64 {
    if page == 0 then Wide(value) else if page == 1 then Raised(Wide(value)) else 0
  }

  lemma PageMeans(page: nat, value: bv32)
    ensures Bits(PageWord(page, value)) == PageBits(page, Bits32(value))
  {
    hide Bits, Wide, Raised, Up;
    BitsOfRaised(value);
    BitsOfZero();
  }

  datatype DeviceRegs = DeviceRegs(
    available: bv64, acked: bv64, activated: bool, worker: bool, queues: seq<QueueRegs>, resets: bool)

  function DeviceOf(d: DeviceRegs): Device {
    Device(Bits(d.available), Bits(d.acked), d.activated, d.worker, QueuesOf(d.queues), d.resets)
  }

  class MmioTransport {
    var status: bv32
    var featuresSelect: nat
    var ackedSelect: nat
    var queueSelect: nat
    var shmSelect: nat
    var queues: Option<seq<QueueRegs>>
    const config: seq<nat>
    var notified: seq<bool>
    var interruptStatus: bv64
    var lineReleased: nat
    var device: DeviceRegs
    ghost var activations: nat
    var panicked: bool

    ghost function View(): State
      reads this
    {
      State(Bits32(status), featuresSelect, ackedSelect, queueSelect, shmSelect,
            if queues.Some? then Some(QueuesOf(queues.value)) else None, config, notified,
            Bits(interruptStatus), lineReleased, DeviceOf(device), activations, panicked)
    }

    constructor (config: seq<nat>, available: bv64, resets: bool)
      ensures View() == NewState(config, Device(Bits(available), {}, false, false, [], resets))
    {
      hide Bits, QueuesOf;
      StatusBits();
      BitsOfZero();
      CreatedQueues(config);
      NoQueues();
      status, featuresSelect, ackedSelect, queueSelect, shmSelect := 0, 0, 0, 0, 0;
      this.config := config;
      device := DeviceRegs(available, 0, false, false, [], resets);
      queues := Some(CreateQueues(config));
      notified := seq(|config|, _ => false);
      interruptStatus, lineReleased, activations, panicked := 0, 0, 0, false;
    }

    method Activate()
      modifies this
      ensures View() == Activated(old(View()))
    {
      hide Bits, Bits32, QueuesOf, WithEventIdx, And;
      match queues
      case None => return;
      case Some(qs) =>
        queues := None;
        EventIdxBit(device.acked);
        var eventIdx := And(device.acked, EVENT_IDX_MASK) != 0;
        var handed: seq<QueueRegs> := [];
        for i := 0 to |qs|
          invariant |handed| == i && forall j :: 0 <= j < i ==> handed[j] == qs[j].(eventIdx := eventIdx)
        {
          handed := handed + [qs[i].(eventIdx := eventIdx)];
        }
        HandedOver(qs, handed, eventIdx);
        if device.worker {
          panicked := true;
          return;
        }
        device := device.(activated := true, worker := true, queues := handed);
        activations := activations + 1;
    }

    method Reset()
      modifies this
      ensures View() == TransportReset(old(View()))
    {
      hide Bits, Bits32, QueuesOf, DeviceOf;
      StatusBits();
      BitsOfZero();
      CreatedQueues(config);
      featuresSelect, ackedSelect, queueSelect := 0, 0, 0;
      interruptStatus := 0;
      status := 0;
      queues := Some(CreateQueues(config));
      activations := 0;
    }

    method SetDeviceStatus(v: bv32)
      modifies this
      ensures View() == SetStatus(old(View()), Bits32(v))
    {
      hide Bits, Bits32, QueuesOf, DeviceOf, Activated, Restarted;
      hide Advances, Launches, FirstArms, LaunchArm, And32, Or32, AndNot32;
      StatusArms(status, v);
      FailedBit(v);
      FailedBit(status);
      ActivatedFlag(device);
      var added := AndNot32(v, status);
      if FirstArms(added, status) {
        status := v;
      } else if LaunchArm(added, status) {
        status := v;
        if !device.activated {
          Activate();
        }
      } else if And32(v, S_FAILED) != 0 {
        status := Or32(status, S_FAILED);
      } else if v == 0 {
        Restart();
      }
    }

    /** The arm of the status match for a write of zero. */
    method Restart()
      modifies this
      ensures View() == Restarted(old(View()))
    {
      hide Bits, Bits32, QueuesOf, TransportReset, And32, Or32;
      FailedBit(status);
      FailedBit(Or32(status, S_FAILED));
      if device.activated {
        if device.resets {
          device := device.(activated := false, worker := false);
        } else {
          status := Or32(status, S_FAILED);
        }
      }
      if And32(status, S_FAILED) == 0 {
        Reset();
      }
    }

    method UpdateQueueField(f: QueueField, v: bv32)
      modifies this`queues
      ensures View() == UpdateQueue(old(View()), f, v)
    {
      hide Bits, Bits32, CheckStatus, MayConfigure, SetField, UpdateRegs;
      CheckTests(status);
      if CheckStatus(status, S_FEATURES_OK, S_FAILED) {
        match queues
        case Some(qs) =>
          if queueSelect < |qs| {
            QueueUpdated(qs, queueSelect, f, v);
            queues := Some(qs[queueSelect := UpdateRegs(qs[queueSelect], f, v)]);
          }
        case None =>
      }
    }

    method AckFeaturesByPage(value: bv32)
      modifies this`device
      ensures DeviceOf(device) == AckFeatures(old(DeviceOf(device)), ackedSelect, Bits32(value))
    {
      hide Bits, Bits32, AckWord, PageWord;
      var v := PageWord(ackedSelect, value);
      PageMeans(ackedSelect, value);
      AckMeans(device.acked, device.available, v);
      device := device.(acked := AckWord(device.acked, device.available, v));
    }

    /** The register write of the MMIO bus, for aligned 32-bit accesses below 0x100. */
    method Write(offset: nat, v: bv32)
      modifies this
      ensures View() == Step(old(View()), offset, v)
    {
      hide Bits, Bits32, Number, AndNot, Wide, QueuesOf, DeviceOf;
      hide SetStatus, UpdateQueue, AckFeatures, CheckStatus, MayAck;
      CheckTests(status);
      match offset
      case 0x14 => featuresSelect := Number(v);
      case 0x20 =>
        if CheckStatus(status, S_DRIVER, NEGOTIATED) {
          AckFeaturesByPage(v);
        }
      case 0x24 => ackedSelect := Number(v);
      case 0x30 => queueSelect := Number(v);
      case 0x38 => UpdateQueueField(Size, v);
      case 0x44 => UpdateQueueField(Ready, v);
      case 0x50 =>
        var i := Number(v);
        if i < |notified| {
          notified := notified[i := true];
        }
      case 0x64 =>
        if CheckStatus(status, S_DRIVER_OK, 0) {
          var prev := interruptStatus;
          AckedBits(prev, v);
          interruptStatus := AndNot(interruptStatus, Wide(v));
          if AndNot(prev, Wide(v)) == 0 {
            lineReleased := lineReleased + 1;
          }
        }
      case 0x70 => SetDeviceStatus(v);
      case 0x80 => UpdateQueueField(Low(DescTable), v);
      case 0x84 => UpdateQueueField(High(DescTable), v);
      case 0x90 => UpdateQueueField(Low(AvailRing), v);
      case 0x94 => UpdateQueueField(High(AvailRing), v);
      case 0xa0 => UpdateQueueField(Low(UsedRing), v);
      case 0xa4 => UpdateQueueField(High(UsedRing), v);
      case 0xac => shmSelect := Number(v);
      case _ =>
    }
  }

  lemma ActivatedFlag(d: DeviceRegs)
    ensures DeviceOf(d).activated == d.activated
  {
  }

  lemma NoQueues()
    ensures QueuesOf([]) == []
  {
  }

  lemma EventIdxBit(acked: bv64)
    ensures And(acked, EVENT_IDX_MASK) != 0 <==> EVENT_IDX in Bits(acked)
  {
    assert HasBit(acked, 29) <==> 29 in Bits(acked);
    hide Bits;
    assert Mask(29) == EVENT_IDX_MASK;
  }

  lemma FailedBit(v: bv32)
    ensures And32(v, S_FAILED) != 0 <==> FAILED in Bits32(v)
    ensures Bits32(Or32(v, S_FAILED)) == Bits32(v) + {FAILED}
  {
    hide Bits32, And32, Or32;
    StatusBits();
    Bits32Ops(v, S_FAILED);
    Same(And32(v, S_FAILED), 0);
    if FAILED in Bits32(v) {
      assert FAILED in Bits32(v) * {FAILED};
    } else {
      assert Bits32(v) * {FAILED} == {};
    }
  }

  lemma HandedOver(qs: seq<QueueRegs>, handed: seq<QueueRegs>, on: bool)
    requires |handed| == |qs| && forall j :: 0 <= j < |qs| ==> handed[j] == qs[j].(eventIdx := on)
    ensures QueuesOf(handed) == WithEventIdx(QueuesOf(qs), on)
  {
    hide Halves;
  }

  lemma QueueUpdated(qs: seq<QueueRegs>, i: nat, f: QueueField, v: bv32)
    requires i < |qs|
    ensures QueuesOf(qs[i := UpdateRegs(qs[i], f, v)]) == QueuesOf(qs)[i := SetField(QueuesOf(qs)[i], f, v)]
  {
    UpdatedRegs(qs[i], f, v);
    hide QueueOf, UpdateRegs, SetField;
  }

  lemma AckedBits(prev: bv64, v: bv32)
    ensures Bits(AndNot(prev, Wide(v))) == Bits(prev) - Bits32(v)
    ensures AndNot(prev, Wide(v)) == 0 <==> Bits(prev) - Bits32(v) == {}
  {
    hide Bits, AndNot, Wide;
    BitsOfAndNot(prev, Wide(v));
    ZeroExact(AndNot(prev, Wide(v)));
  }
}

module TransportRuns {
  import opened Wrappers
  import opened TransportSpec
  import opened BitWords

  datatype Access = Access(offset: nat, value: bv32)

  function Run(s: State, accesses: seq<Access>): State {
    if accesses == [] then s
    else
      var n := |accesses| - 1;
      Step(Run(s, accesses[..n]), accesses[n].offset, accesses[n].value)
  }

  /** A transport fresh from its constructor, over a device that nobody has used yet. */
  predicate Initial(s: State) {
    && s == NewState(s.config, s.device)
    && !s.device.activated && !s.device.worker && s.device.acked == {}
  }

  const BEFORE_DRIVER_OK: set<nat> := {ACKNOWLEDGE, DRIVER, FEATURES_OK}

  /** What every register write keeps. */
  ghost predicate Lifecycle(s: State) {
    && !s.panicked
    && s.device.worker == s.device.activated
    && s.device.acked <= s.device.available
    && s.activations <= 1
    && (FAILED !in s.status ==>
      && (s.queues.Some? <==> !s.device.activated)
      && (s.device.activated <==> DRIVER_OK in s.status)
      && s.activations == (if s.device.activated then 1 else 0)
      && s.status <= BEFORE_DRIVER_OK + {DRIVER_OK})
  }

  lemma SetStatusKeeps(s: State, v: set<nat>)
    requires Lifecycle(s)
    ensures Lifecycle(SetStatus(s, v))
  {
    assert v <= (v - s.status) + s.status;
  }

  lemma StepKeeps(s: State, offset: nat, v: bv32)
    requires Lifecycle(s)
    ensures Lifecycle(Step(s, offset, v))
  {
    hide Bits32, Number, SetStatus, SetField;
    if offset == 0x70 {
      SetStatusKeeps(s, Bits32(v));
    }
  }

  /**
  Over every sequence of register writes: the queues are with the transport exactly while the
  device is not activated (unless FAILED), a device is activated at most once between resets,
  the worker thread never exists when `activate` runs, and only offered features are acked.
   */
  lemma {:induction false} LifecycleRun(s: State, accesses: seq<Access>)
    requires Initial(s) || Lifecycle(s)
    ensures Lifecycle(Run(s, accesses))
  {
    if accesses != [] {
      var n := |accesses| - 1;
      LifecycleRun(s, accesses[..n]);
      StepKeeps(Run(s, accesses[..n]), accesses[n].offset, accesses[n].value);
    }
  }

  /** FAILED is never left again, not even by a reset. */
  lemma {:induction false} FailedAbsorbs(s: State, accesses: seq<Access>)
    requires FAILED in s.status
    ensures FAILED in Run(s, accesses).status
  {
    hide Bits32, Number, SetField, WithEventIdx, NewQueues;
    if accesses != [] {
      FailedAbsorbs(s, accesses[..|accesses| - 1]);
    }
  }

  /** Activation happens exactly when DRIVER_OK is added to ACKNOWLEDGE|DRIVER|FEATURES_OK. */
  lemma ActivationExact(s: State, offset: nat, v: bv32)
    requires Lifecycle(s)
    ensures Step(s, offset, v).activations > s.activations
       <==> offset == 0x70 && s.status == BEFORE_DRIVER_OK && Bits32(v) - s.status == {DRIVER_OK}
  {
    hide Bits32, Number, SetField, WithEventIdx, NewQueues;
  }

  // What each register changes

  predicate QueueRegister(offset: nat) {
    offset in {0x38, 0x44, 0x80, 0x84, 0x90, 0x94, 0xa0, 0xa4}
  }

  function SizeIn(v: bv32): bv16 { (v & 0xffff) as bv16 }

  /** The queue after a write to one of its registers. */
  function QueueWritten(q: Queue, offset: nat, v: bv32): Queue
    requires QueueRegister(offset)
  {
    if offset == 0x38 then q.(size := SizeIn(v))
    else if offset == 0x44 then q.(ready := v == 1)
    else if offset == 0x80 then q.(descTable := Address(q.descTable.high, v))
    else if offset == 0x84 then q.(descTable := Address(v, q.descTable.low))
    else if offset == 0x90 then q.(availRing := Address(q.availRing.high, v))
    else if offset == 0x94 then q.(availRing := Address(v, q.availRing.low))
    else if offset == 0xa0 then q.(usedRing := Address(q.usedRing.high, v))
    else q.(usedRing := Address(v, q.usedRing.low))
  }

  /** The queue that register writes go to. */
  predicate Configurable(s: State) {
    MayConfigure(s.status) && s.queues.Some? && s.queueSelect < |s.queues.value|
  }

  /** A queue register changes its field of the selected queue, and nothing else in the transport. */
  lemma QueueRegisters(s: State, offset: nat, v: bv32)
    requires Configurable(s) && QueueRegister(offset)
    ensures var qs := s.queues.value;
            Step(s, offset, v) == s.(queues := Some(qs[s.queueSelect := QueueWritten(qs[s.queueSelect], offset, v)]))
  {
    hide Bits32, Number;
  }

  /** Outside of set-up queue registers do nothing. */
  lemma QueueRegistersClosed(s: State, offset: nat, v: bv32)
    requires !Configurable(s) && QueueRegister(offset)
    ensures Step(s, offset, v) == s
  {
    hide Bits32, Number;
  }

  /** The value last written to a register, if any. */
  function LastWritten(accesses: seq<Access>, offset: nat): Option<bv32> {
    if accesses == [] then None
    else
      var last := accesses[|accesses| - 1];
      if last.offset == offset then Some(last.value) else LastWritten(accesses[..|accesses| - 1], offset)
  }

  function Latest(accesses: seq<Access>, offset: nat, was: bv32): bv32 {
    var v := LastWritten(accesses, offset);
    if v.Some? then v.value else was
  }

  function AddressSet(accesses: seq<Access>, low: nat, high: nat, was: Address): Address {
    Address(Latest(accesses, high, was.high), Latest(accesses, low, was.low))
  }

  /** What a set-up leaves in a queue: the values last written, in whatever order. */
  predicate SetUp(q: Queue, accesses: seq<Access>, r: Queue) {
    && r.descTable == AddressSet(accesses, 0x80, 0x84, q.descTable)
    && r.availRing == AddressSet(accesses, 0x90, 0x94, q.availRing)
    && r.usedRing == AddressSet(accesses, 0xa0, 0xa4, q.usedRing)
    && (var v := LastWritten(accesses, 0x38); r.size == if v.Some? then SizeIn(v.value) else q.size)
    && (var v := LastWritten(accesses, 0x44); r.ready == if v.Some? then v.value == 1 else q.ready)
    && r.maxSize == q.maxSize && r.eventIdx == q.eventIdx
  }

  lemma LastOfMore(accesses: seq<Access>, a: Access, offset: nat)
    ensures LastWritten(accesses + [a], offset)
         == if a.offset == offset then Some(a.value) else LastWritten(accesses, offset)
  {
    assert (accesses + [a])[..|accesses|] == accesses;
  }

  lemma SetUpNext(q: Queue, accesses: seq<Access>, r: Queue, a: Access)
    requires SetUp(q, accesses, r) && QueueRegister(a.offset)
    ensures SetUp(q, accesses + [a], QueueWritten(r, a.offset, a.value))
  {
    hide LastWritten, SizeIn;
    LastOfMore(accesses, a, 0x38);
    LastOfMore(accesses, a, 0x44);
    LastOfMore(accesses, a, 0x80);
    LastOfMore(accesses, a, 0x84);
    LastOfMore(accesses, a, 0x90);
    LastOfMore(accesses, a, 0x94);
    LastOfMore(accesses, a, 0xa0);
    LastOfMore(accesses, a, 0xa4);
  }

  /** The transport with another value of its selected queue. */
  function WithQueue(s: State, q: Queue): State
    requires Configurable(s)
  {
    s.(queues := Some(s.queues.value[s.queueSelect := q]))
  }

  lemma WithQueueTwice(s: State, q: Queue, r: Queue)
    requires Configurable(s)
    ensures Configurable(WithQueue(s, q)) && WithQueue(WithQueue(s, q), r) == WithQueue(s, r)
    ensures WithQueue(s, q).queues.value[s.queueSelect] == q
    ensures WithQueue(s, s.queues.value[s.queueSelect]) == s
  {
    var qs := s.queues.value;
    assert qs[s.queueSelect := q][s.queueSelect := r] == qs[s.queueSelect := r];
    assert qs[s.queueSelect := qs[s.queueSelect]] == qs;
  }

  /** A queue after writes to its registers. */
  function AllWritten(q: Queue, accesses: seq<Access>): Queue
    requires forall i :: 0 <= i < |accesses| ==> QueueRegister(accesses[i].offset)
  {
    if accesses == [] then q
    else
      var n := |accesses| - 1;
      QueueWritten(AllWritten(q, accesses[..n]), accesses[n].offset, accesses[n].value)
  }

  lemma {:induction false} AllWrittenSetsUp(q: Queue, accesses: seq<Access>)
    requires forall i :: 0 <= i < |accesses| ==> QueueRegister(accesses[i].offset)
    ensures SetUp(q, accesses, AllWritten(q, accesses))
  {
    if accesses != [] {
      var n := |accesses| - 1;
      AllWrittenSetsUp(q, accesses[..n]);
      hide SetUp, QueueWritten;
      SetUpNext(q, accesses[..n], AllWritten(q, accesses[..n]), accesses[n]);
      assert accesses[..n] + [accesses[n]] == accesses;
    }
  }

  lemma {:induction false} RunWrites(s: State, accesses: seq<Access>)
    requires Configurable(s) && forall i :: 0 <= i < |accesses| ==> QueueRegister(accesses[i].offset)
    ensures Run(s, accesses) == WithQueue(s, AllWritten(s.queues.value[s.queueSelect], accesses))
  {
    hide Step, QueueWritten, WithQueue, QueueRegister;
    var q := s.queues.value[s.queueSelect];
    WithQueueTwice(s, q, q);
    if accesses != [] {
      var n := |accesses| - 1;
      RunWrites(s, accesses[..n]);
      var before := AllWritten(q, accesses[..n]);
      var after := AllWritten(q, accesses);
      WithQueueTwice(s, before, after);
      RegisterWrites(WithQueue(s, before), accesses[n].offset, accesses[n].value);
      SameSelect(s, before);
    }
  }

  lemma SameSelect(s: State, q: Queue)
    requires Configurable(s)
    ensures WithQueue(s, q).queueSelect == s.queueSelect && WithQueue(s, q).queues.Some?
    ensures |WithQueue(s, q).queues.value| == |s.queues.value|
  {
  }

  lemma RegisterWrites(s: State, offset: nat, v: bv32)
    requires Configurable(s) && QueueRegister(offset)
    ensures s.queues.Some? && s.queueSelect < |s.queues.value|
    ensures Step(s, offset, v) == WithQueue(s, QueueWritten(s.queues.value[s.queueSelect], offset, v))
  {
    hide Step, QueueWritten;
    QueueRegisters(s, offset, v);
  }

  /**
  Setting up a queue: any sequence of writes to its registers, in any order and with any values,
  leaves in each field the value last written to its register, and changes nothing else.
   */
  lemma QueueSetUp(s: State, accesses: seq<Access>)
    requires Configurable(s) && forall i :: 0 <= i < |accesses| ==> QueueRegister(accesses[i].offset)
    ensures var qs, t := s.queues.value, Run(s, accesses);
            && t.queues.Some? && |t.queues.value| == |qs|
            && SetUp(qs[s.queueSelect], accesses, t.queues.value[s.queueSelect])
            && t == s.(queues := Some(qs[s.queueSelect := t.queues.value[s.queueSelect]]))
  {
    hide Run, SetUp, AllWritten;
    RunWrites(s, accesses);
    AllWrittenSetsUp(s.queues.value[s.queueSelect], accesses);
  }

  /** InterruptACK: a bit stays iff it was set and is not acknowledged; the line is released iff none stays. */
  lemma AckRegister(s: State, v: bv32)
    ensures var t := Step(s, 0x64, v);
            && (DRIVER_OK !in s.status ==> t == s)
            && (DRIVER_OK in s.status ==>
                 && (forall i :: i in t.interruptStatus <==> i in s.interruptStatus && i !in Bits32(v))
                 && t.lineReleased == (if t.interruptStatus == {} then s.lineReleased + 1 else s.lineReleased)
                 && t == s.(interruptStatus := t.interruptStatus, lineReleased := t.lineReleased))
  {
    hide Bits32, Number;
  }

  /** The selector registers and the notification register, one each. */
  lemma SelectRegisters(s: State, v: bv32)
    ensures Step(s, 0x14, v) == s.(featuresSelect := v as nat)
    ensures Step(s, 0x24, v) == s.(ackedSelect := v as nat)
    ensures Step(s, 0x30, v) == s.(queueSelect := v as nat)
    ensures Step(s, 0xac, v) == s.(shmSelect := v as nat)
    ensures var t := Step(s, 0x50, v);
            && |t.notified| == |s.notified| && t == s.(notified := t.notified)
            && forall i :: 0 <= i < |s.notified| ==> (t.notified[i] <==> s.notified[i] || i == v as nat)
  {
    hide Bits32;
  }

  /** Acknowledging features adds those that were offered, of the selected half. */
  lemma FeatureRegister(s: State, v: bv32)
    requires MayAck(s.status)
    ensures var t := Step(s, 0x20, v);
            && t == s.(device := s.device.(acked := t.device.acked))
            && forall i: nat :: i in t.device.acked <==>
                 || i in s.device.acked
                 || (i in s.device.available && s.ackedSelect == 0 && i in Bits32(v))
                 || (i in s.device.available && s.ackedSelect == 1 && 32 <= i < 64 && i - 32 in Bits32(v))
  {
    hide Bits32, Number;
  }

  /** Activation hands over the queues as they are, with EVENT_IDX on exactly if it was acked. */
  lemma ActivationHandsOver(s: State, v: bv32)
    requires Lifecycle(s) && s.status == BEFORE_DRIVER_OK && Bits32(v) - s.status == {DRIVER_OK}
    ensures var t := Step(s, 0x70, v);
            && s.queues.Some? && t.queues.None? && t.device.activated && t.device.worker
            && |t.device.queues| == |s.queues.value|
            && forall i :: 0 <= i < |s.queues.value| ==>
                 t.device.queues[i] == s.queues.value[i].(eventIdx := 29 in s.device.acked)
  {
    hide Bits32, Number, NewQueues;
    assert FAILED !in s.status;
  }

  /** A write with FAILED in it sets FAILED and does nothing else. */
  lemma FailedRegister(s: State, v: bv32)
    requires Lifecycle(s) && 7 in Bits32(v)
    ensures Step(s, 0x70, v) == s.(status := s.status + {7})
  {
    hide Bits32, Number, WithEventIdx, NewQueues;
    if FAILED !in s.status {
      assert FAILED in Bits32(v) - s.status;
    }
  }

  /** A write that is no step of initialization, no failure and no reset is ignored. */
  lemma OtherStatusIgnored(s: State, v: bv32)
    requires FAILED !in Bits32(v) && Bits32(v) != {}
    requires var added := Bits32(v) - s.status;
             && (added == {ACKNOWLEDGE} ==> s.status != {})
             && (added == {DRIVER} ==> s.status != {ACKNOWLEDGE})
             && (added == {FEATURES_OK} ==> s.status != {ACKNOWLEDGE, DRIVER})
             && (added == {DRIVER_OK} ==> s.status != BEFORE_DRIVER_OK)
    ensures Step(s, 0x70, v) == s
  {
    hide Bits32, Number;
  }

  /** A running device that cannot be reset fails on a reset, and keeps running. */
  lemma ResetRefused(s: State, v: bv32)
    requires s.device.activated && !s.device.resets && Bits32(v) == {} && FAILED !in s.status
    ensures Step(s, 0x70, v) == s.(status := s.status + {FAILED})
  {
    hide Bits32, Number, WithEventIdx, NewQueues;
  }

  /** A reset leaves fresh queues and clears the selectors, the status and the interrupt status. */
  lemma ResetClears(s: State, v: bv32)
    requires Lifecycle(s) && FAILED !in s.status && Bits32(v) == {} && (s.device.activated ==> s.device.resets)
    ensures var t := Step(s, 0x70, v);
            && t.status == {} && t.interruptStatus == {} && !t.device.activated && !t.device.worker
            && t.featuresSelect == 0 && t.ackedSelect == 0 && t.queueSelect == 0
            && t.queues.Some? && |t.queues.value| == |s.config|
            && forall i :: 0 <= i < |s.config| ==>
                 t.queues.value[i]
                 == Queue(s.config[i], 0, false, Address(0, 0), Address(0, 0), Address(0, 0), false)
  {
    hide Bits32, Number;
  }

  // Feature negotiation

  predicate KeepsFeaturesOk(a: Access) {
    a.offset == 0x70 ==> FEATURES_OK in Bits32(a.value)
  }

  lemma FrozenStep(s: State, a: Access)
    requires Lifecycle(s) && FEATURES_OK in s.status && KeepsFeaturesOk(a)
    ensures Step(s, a.offset, a.value).device.acked == s.device.acked
    ensures FEATURES_OK in Step(s, a.offset, a.value).status
  {
    hide Bits32, Number, SetField, WithEventIdx, NewQueues;
  }

  /** From FEATURES_OK on, the acked features cannot change while no status write drops the bit. */
  lemma {:induction false} FeaturesFrozen(s: State, accesses: seq<Access>)
    requires Lifecycle(s) && FEATURES_OK in s.status
    requires forall i :: 0 <= i < |accesses| ==> KeepsFeaturesOk(accesses[i])
    ensures Run(s, accesses).device.acked == s.device.acked
    ensures FEATURES_OK in Run(s, accesses).status
  {
    if accesses != [] {
      var n := |accesses| - 1;
      FeaturesFrozen(s, accesses[..n]);
      LifecycleRun(s, accesses[..n]);
      FrozenStep(Run(s, accesses[..n]), accesses[n]);
    }
  }

  /**
  Which status write re-opens negotiation without a reset: exactly the DRIVER_OK write that
  keeps DRIVER and drops FEATURES_OK.
   */
  lemma ThawExact(s: State, v: bv32)
    requires Lifecycle(s) && MayConfigure(s.status) && Bits32(v) != {}
    ensures MayAck(Step(s, 0x70, v).status)
       <==> s.status == BEFORE_DRIVER_OK && (Bits32(v) == {DRIVER, DRIVER_OK}
                                            || Bits32(v) == {ACKNOWLEDGE, DRIVER, DRIVER_OK})
  {
    hide Bits32, Number, SetField, WithEventIdx, NewQueues;
    var b := Bits32(v);
    if s.status == BEFORE_DRIVER_OK && b - s.status == {DRIVER_OK} && DRIVER in b
       && FEATURES_OK !in b {
      forall x | x in b ensures x in {ACKNOWLEDGE, DRIVER, DRIVER_OK} {
        if x !in s.status {
          assert x in b - s.status;
        }
      }
      assert DRIVER_OK in b - s.status;
    }
  }

  /** A status write of 6 or 7 where 15 is due. */
  predicate Thaws(s: State, a: Access) {
    && a.offset == 0x70 && s.status == BEFORE_DRIVER_OK
    && (Bits32(a.value) == {DRIVER, DRIVER_OK} || Bits32(a.value) == {ACKNOWLEDGE, DRIVER, DRIVER_OK})
  }

  /** Negotiation is over: the states that no write but a reset or a thaw leaves. */
  predicate Closed(status: set<nat>) {
    FEATURES_OK in status || FAILED in status || (DRIVER_OK in status && DRIVER !in status)
  }

  predicate Restarts(a: Access) { a.offset == 0x70 && Bits32(a.value) == {} }

  lemma ClosedStep(s: State, a: Access)
    requires Lifecycle(s) && Closed(s.status) && !Restarts(a)
    ensures var t := Step(s, a.offset, a.value);
            && (Thaws(s, a) ==> MayAck(t.status))
            && (!Thaws(s, a) ==> Closed(t.status))
            && t.device.acked == s.device.acked
  {
    hide Bits32, Number, SetField, WithEventIdx, NewQueues;
    if a.offset == 0x70 && s.status == BEFORE_DRIVER_OK {
      var b := Bits32(a.value);
      if b - s.status == {DRIVER_OK} && FEATURES_OK !in b && DRIVER in b {
        SixOrSeven(b);
      }
    }
  }

  lemma SixOrSeven(b: set<nat>)
    requires b - BEFORE_DRIVER_OK == {DRIVER_OK} && FEATURES_OK !in b && DRIVER in b
    ensures b == {DRIVER, DRIVER_OK} || b == {ACKNOWLEDGE, DRIVER, DRIVER_OK}
  {
    assert DRIVER_OK in b - BEFORE_DRIVER_OK;
    forall x | x in b ensures x in {ACKNOWLEDGE, DRIVER, DRIVER_OK} {
      if x !in BEFORE_DRIVER_OK {
        assert x in b - BEFORE_DRIVER_OK;
      }
    }
  }

  lemma NotBothOpenAndClosed(status: set<nat>)
    ensures !(MayAck(status) && Closed(status))
  {
  }

  predicate OpenAt(s: State, accesses: seq<Access>, n: nat)
    requires n <= |accesses|
  {
    MayAck(Run(s, accesses[..n]).status)
  }

  predicate ThawsAt(s: State, accesses: seq<Access>, n: nat)
    requires n < |accesses|
  {
    Thaws(Run(s, accesses[..n]), accesses[n])
  }

  lemma {:induction false} ClosedUpTo(s: State, accesses: seq<Access>, n: nat)
    requires Lifecycle(s) && Closed(s.status) && n <= |accesses|
    requires forall i :: 0 <= i < |accesses| ==> !Restarts(accesses[i])
    requires forall i :: 0 <= i < n ==> !ThawsAt(s, accesses, i)
    ensures var t := Run(s, accesses[..n]);
            Closed(t.status) && t.device.acked == s.device.acked
    decreases n
  {
    if n > 0 {
      ClosedUpTo(s, accesses, n - 1);
      assert !ThawsAt(s, accesses, n - 1);
      LifecycleRun(s, accesses[..n - 1]);
      assert accesses[..n][..n - 1] == accesses[..n - 1];
      hide Step, Lifecycle, Closed, Thaws, Restarts;
      ClosedStep(Run(s, accesses[..n - 1]), accesses[n - 1]);
    }
  }

  /**
  The freeze over whole runs: once FEATURES_OK is set, and as long as the driver does not reset,
  negotiation stays closed if and only if no status write is one of the two that thaw; and then
  the acked features do not change.
   */
  lemma FreezeExact(s: State, accesses: seq<Access>)
    requires Lifecycle(s) && MayConfigure(s.status)
    requires forall i :: 0 <= i < |accesses| ==> !Restarts(accesses[i])
    ensures (forall n :: 0 <= n <= |accesses| ==> !OpenAt(s, accesses, n))
       <==> (forall n :: 0 <= n < |accesses| ==> !ThawsAt(s, accesses, n))
    ensures (forall n :: 0 <= n < |accesses| ==> !ThawsAt(s, accesses, n)) ==>
      Run(s, accesses).device.acked == s.device.acked
  {
    hide Step, Run, Lifecycle, Thaws, Restarts;
    if forall n :: 0 <= n < |accesses| ==> !ThawsAt(s, accesses, n) {
      forall n | 0 <= n <= |accesses| ensures !OpenAt(s, accesses, n) {
        ClosedUpTo(s, accesses, n);
        NotBothOpenAndClosed(Run(s, accesses[..n]).status);
      }
      ClosedUpTo(s, accesses, |accesses|);
      assert accesses[..|accesses|] == accesses;
    } else {
      var n := FirstThaw(s, accesses);
      ClosedUpTo(s, accesses, n);
      LifecycleRun(s, accesses[..n]);
      RunNext(s, accesses, n);
      assert !Restarts(accesses[n]);
      ClosedStep(Run(s, accesses[..n]), accesses[n]);
      assert OpenAt(s, accesses, n + 1);
    }
  }

  lemma RunNext(s: State, accesses: seq<Access>, n: nat)
    requires n < |accesses|
    ensures Run(s, accesses[..n + 1]) == Step(Run(s, accesses[..n]), accesses[n].offset, accesses[n].value)
  {
    assert accesses[..n + 1][..n] == accesses[..n];
  }

  lemma FirstThaw(s: State, accesses: seq<Access>) returns (n: nat)
    requires exists n :: 0 <= n < |accesses| && ThawsAt(s, accesses, n)
    ensures n < |accesses| && ThawsAt(s, accesses, n)
    ensures forall i :: 0 <= i < n ==> !ThawsAt(s, accesses, i)
  {
    hide ThawsAt;
    n := 0;
    while !ThawsAt(s, accesses, n)
      invariant n < |accesses| && forall i :: 0 <= i < n ==> !ThawsAt(s, accesses, i)
      invariant exists i :: n <= i < |accesses| && ThawsAt(s, accesses, i)
      decreases |accesses| - n
    {
      n := n + 1;
    }
  }

  lemma ThawValues()
    ensures Bits32(6) == {DRIVER, DRIVER_OK} && Bits32(0x20) == {5}
  {
    assert Wide(6) == Or(Mask(1), Mask(2)) && Wide(0x20) == Mask(5);
    hide Wide, Or, Mask, Bits;
    BitsOfOr(Mask(1), Mask(2));
    BitsOfMask(1);
    BitsOfMask(2);
    BitsOfMask(5);
  }

  /**
  The documented freeze is not unconditional: a driver that writes 6 (DRIVER and DRIVER_OK) where
  it should write 15 can ack another feature on a running device.
   */
  lemma FeaturesThawed(s: State)
    requires Lifecycle(s) && s.status == BEFORE_DRIVER_OK && s.ackedSelect == 0
    requires s.device.acked == {} && 5 in s.device.available
    ensures var before := Step(s, 0x70, 6);
            && before.device.activated && before.device.acked == {}
            && Step(before, 0x20, 0x20).device.acked == {5} && Step(before, 0x20, 0x20).device.activated
  {
    hide Bits32, Number, SetField, WithEventIdx, NewQueues;
    ThawValues();
    assert Bits32(6) - s.status == {DRIVER_OK};
    assert DRIVER_OK !in s.status;
  }

  lemma StatusValues()
    ensures Bits32(1) == {ACKNOWLEDGE} && Bits32(3) == {ACKNOWLEDGE, DRIVER} && Bits32(0xb) == BEFORE_DRIVER_OK
  {
    assert Wide(1) == Mask(0) && Wide(3) == Or(Mask(0), Mask(1)) && Wide(0xb) == Or(Wide(3), Mask(3));
    hide Wide, Or, Mask, Bits;
    BitsOfOr(Mask(0), Mask(1));
    BitsOfOr(Wide(3), Mask(3));
    BitsOfMask(0);
    BitsOfMask(1);
    BitsOfMask(3);
  }

  /** A fresh transport gets there: its driver acknowledges, loads, and fixes no feature. */
  lemma ThawReachable(s: State)
    requires Initial(s) && 5 in s.device.available
    ensures var accesses := [Access(0x70, 1), Access(0x70, 3), Access(0x70, 0xb), Access(0x70, 6), Access(0x20, 0x20)];
            var t := Run(s, accesses);
            t.device.activated && t.device.acked == {5} && Run(s, accesses[..4]).device.acked == {}
  {
    var a, b, c, d, e := Access(0x70, 1), Access(0x70, 3), Access(0x70, 0xb), Access(0x70, 6), Access(0x20, 0x20);
    LifecycleRun(s, [a, b, c]);
    RunThree(s, a, b, c);
    Negotiated(s);
    hide Step, Lifecycle;
    FeaturesThawed(Run(s, [a, b, c]));
    assert [a, b, c, d, e][..4] == [a, b, c, d] && [a, b, c, d][..3] == [a, b, c];
  }

  /** The first three status writes of a driver. */
  lemma Negotiated(s: State)
    requires Initial(s)
    ensures var t := Step(Step(Step(s, 0x70, 1), 0x70, 3), 0x70, 0xb);
            && t.status == BEFORE_DRIVER_OK && t.ackedSelect == 0 && t.interruptStatus == {}
            && t.device == s.device && t.queues == s.queues
  {
    StatusValues();
    hide Bits32, Number, SetField, WithEventIdx, NewQueues;
    assert {ACKNOWLEDGE, DRIVER} - {ACKNOWLEDGE} == {DRIVER};
    assert BEFORE_DRIVER_OK - {ACKNOWLEDGE, DRIVER} == {FEATURES_OK};
    var one := Step(s, 0x70, 1);
    assert one == s.(status := {ACKNOWLEDGE});
    var two := Step(one, 0x70, 3);
    assert two == s.(status := {ACKNOWLEDGE, DRIVER});
  }

  lemma RunThree(s: State, a: Access, b: Access, c: Access)
    ensures Run(s, [a, b, c]) == Step(Step(Step(s, a.offset, a.value), b.offset, b.value), c.offset, c.value)
  {
    hide Step;
    assert [a, b, c][..2] == [a, b] && [a, b][..1] == [a] && [a][..0] == [];
    assert Run(s, [a]) == Step(s, a.offset, a.value);
    assert Run(s, [a, b]) == Step(Run(s, [a]), b.offset, b.value);
  }

  /** Features are acked by adding to them: no register write, not even a reset, drops one. */
  lemma {:induction false} AckedOnlyGrow(s: State, accesses: seq<Access>)
    ensures s.device.acked <= Run(s, accesses).device.acked
  {
    hide Bits32, Number, SetField, WithEventIdx, NewQueues;
    if accesses != [] {
      AckedOnlyGrow(s, accesses[..|accesses| - 1]);
    }
  }
}
