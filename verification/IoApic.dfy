/**
The software IOAPIC: interrupt request register, redirection table, service scan and EOI.

`Next` is the specification, one step per public operation, pin by pin.  The class `IoApic`
is the code: it works in place on one 32-bit word and an array of 64-bit words, and rescans
all pins inside its EOI loop.  An injection into the guest is an entry of `events`, and so is
every clearing of a Remote IRR bit, in the order in which they happen.
 */
module IoApicSpec {
  import opened Wrappers
  import opened RedirectionTable

  datatype InterruptType = Fixed | LowestPriority | Nmi | Init

  datatype InterruptControl = InterruptControl(
    kind: InterruptType, logical: bool, level: bool, destination: bv8, vector: bv8)

  datatype Event = Inject(pin: nat, control: InterruptControl) | RemoteClear(pin: nat)

  function InterruptTypeOf(deliveryMode: bv3): InterruptType {
    if deliveryMode == 1 then LowestPriority
    else if deliveryMode == 4 then Nmi
    else if deliveryMode == 5 then Init
    else Fixed
  }

  function ControlOf(info: EntryInfo): InterruptControl {
    InterruptControl(
      InterruptTypeOf(info.deliveryMode), info.logical, info.level, info.dest, info.vector)
  }

  function Control(e: Entry): InterruptControl {
    ControlOf(EntryInfo(e.masked, e.level, e.dest, e.logical, e.deliveryMode, e.vector))
  }

  datatype Pin = Pin(irr: bool, entry: Entry) {
    /** Nothing left to deliver: a pending unmasked pin is waiting for its EOI. */
    predicate Quiet() {
      && (irr && !entry.masked ==> entry.level && entry.remoteIrr)
      && (entry.remoteIrr ==> entry.level)
    }

    predicate Deliverable() {
      irr && !entry.masked && !(entry.level && entry.remoteIrr)
    }

    function Serviced(): Pin {
      if !irr || entry.masked then this
      else if entry.level then this.(entry := entry.(remoteIrr := true))
      else this.(irr := false)
    }

    predicate Acknowledged(vector: bv8) {
      entry.vector == vector && entry.remoteIrr
    }

    /** EOI of `vector`: a pin still asserted is delivered again and keeps Remote IRR. */
    function AfterEoi(vector: bv8): Pin {
      if Acknowledged(vector) && !(irr && !entry.masked)
      then this.(entry := entry.(remoteIrr := false))
      else this
    }
  }

  type Pins = ps: seq<Pin> | |ps| == NUM_PINS
    witness seq(NUM_PINS, _ => Pin(false, Decode(MASKED)))

  predicate Quiescent(pins: Pins) {
    forall i :: 0 <= i < NUM_PINS ==> pins[i].Quiet()
  }

  function ServiceAll(pins: Pins): Pins {
    seq(NUM_PINS, i requires 0 <= i < NUM_PINS => pins[i].Serviced())
  }

  function ServiceEvents(pins: Pins, n: nat): seq<Event>
    requires n <= NUM_PINS
  {
    if n == 0 then []
    else
      var last := pins[n - 1];
      ServiceEvents(pins, n - 1)
      + (if last.Deliverable() then [Inject(n - 1, Control(last.entry))] else [])
  }

  function EoiAll(pins: Pins, vector: bv8): Pins {
    seq(NUM_PINS, i requires 0 <= i < NUM_PINS => pins[i].AfterEoi(vector))
  }

  function EoiPinEvents(pin: Pin, i: nat, vector: bv8): seq<Event> {
    if !pin.Acknowledged(vector) then []
    else if pin.irr && !pin.entry.masked then [RemoteClear(i), Inject(i, Control(pin.entry))]
    else [RemoteClear(i)]
  }

  function EoiEvents(pins: Pins, vector: bv8, n: nat): seq<Event>
    requires n <= NUM_PINS
  {
    if n == 0 then []
    else EoiEvents(pins, vector, n - 1) + EoiPinEvents(pins[n - 1], n - 1, vector)
  }

  datatype State = State(pins: Pins, selector: nat, id: bv32)

  datatype Op =
    | SetIrq(line: Option<nat>)
    | ClearIrq(line: Option<nat>)
    | Write(offset: nat, size: nat, val: bv32)

  datatype Outcome = Outcome(state: State, events: seq<Event>)

  const IO_REG_SEL: nat := 0x00
  const IO_WIN: nat := 0x10
  const IO_EOI: nat := 0x40

  function LowByte(val: bv32): bv8 { (val & 0xff) as bv8 }

  predicate SelectsEntry(selector: nat) {
    0x10 <= selector < 0x10 + 2 * NUM_PINS
  }

  /** The pins once one half of the selected entry is written, before they are serviced. */
  function Rewritten(pins: Pins, selector: nat, val: bv32): Pins
    requires SelectsEntry(selector)
  {
    var i := (selector - 0x10) / 2;
    var e := pins[i].entry;
    var w := if selector % 2 == 1 then WriteHigh(e, val) else WriteLow(e, val);
    pins[i := pins[i].(entry := FixEdge(w))]
  }

  /** Writing an entry as edge-triggered clears a Remote IRR that was set. */
  function RewriteEvents(pins: Pins, selector: nat, val: bv32): seq<Event>
    requires SelectsEntry(selector)
  {
    var i := (selector - 0x10) / 2;
    if pins[i].entry.remoteIrr && !Rewritten(pins, selector, val)[i].entry.remoteIrr
    then [RemoteClear(i)] else []
  }

  function Service(s: State, before: seq<Event>): Outcome {
    Outcome(s.(pins := ServiceAll(s.pins)), before + ServiceEvents(s.pins, NUM_PINS))
  }

  function Next(s: State, op: Op): Outcome {
    match op
    case SetIrq(Some(irq)) =>
      if irq < NUM_PINS
      then Service(s.(pins := s.pins[irq := s.pins[irq].(irr := true)]), [])
      else Outcome(s, [])
    case ClearIrq(Some(irq)) =>
      if irq < NUM_PINS
      then Outcome(s.(pins := s.pins[irq := s.pins[irq].(irr := false)]), [])
      else Outcome(s, [])
    case Write(offset, size, val) =>
      if size != 4 then Outcome(s, [])
      else if offset == IO_REG_SEL then Outcome(s.(selector := LowByte(val) as nat), [])
      else if offset == IO_WIN then
        if s.selector == 0 then Outcome(s.(id := (val >> 24) & 0xf), [])
        else if SelectsEntry(s.selector)
        then Service(s.(pins := Rewritten(s.pins, s.selector, val)),
                     RewriteEvents(s.pins, s.selector, val))
        else Outcome(s, [])
      else if offset == IO_EOI then
        var v := LowByte(val);
        Outcome(s.(pins := EoiAll(s.pins, v)), EoiEvents(s.pins, v, NUM_PINS))
      else Outcome(s, [])
    case _ => Outcome(s, [])
  }
}

module IoApicCode {
  import opened Wrappers
  import opened RedirectionTable
  import opened IoApicSpec

  function PinsOf(irr: bv32, table: seq<bv64>): (pins: Pins)
    requires |table| == NUM_PINS
  {
    seq(NUM_PINS, i requires 0 <= i < NUM_PINS => Pin(IrrBit(irr, i), Decode(table[i])))
  }

  /** A new table word is a new entry of its pin. */
  lemma EntryUpdated(irr: bv32, table: seq<bv64>, i: nat, w: bv64)
    requires |table| == NUM_PINS && i < NUM_PINS
    ensures var pins := PinsOf(irr, table);
            PinsOf(irr, table[i := w]) == pins[i := Pin(pins[i].irr, Decode(w))]
    ensures PinsOf(irr, table)[i] == Pin(IrrBit(irr, i), Decode(table[i]))
  {
    hide Decode, IrrBit;
  }

  function EntryIndex(selector: nat): nat
    requires SelectsEntry(selector)
  {
    (selector - 0x10) / 2
  }

  /** The word once the selected half is written and the read-only bits are restored. */
  function Merged(w: bv64, selector: nat, val: bv32): bv64 {
    if selector % 2 == 1 then MergeHigh(w, val) else MergeLow(w, val)
  }

  /** What storing the merged word, with Remote IRR cleared if it is edge-triggered, means. */
  lemma RewriteMeans(irr: bv32, table: seq<bv64>, selector: nat, val: bv32)
    requires |table| == NUM_PINS && SelectsEntry(selector)
    ensures EntryIndex(selector) < NUM_PINS
    ensures var i := EntryIndex(selector);
            var entry := Merged(table[i], selector, val);
            var pins := PinsOf(irr, table);
            && (LevelTriggered(entry) ==>
                 && PinsOf(irr, table[i := entry]) == Rewritten(pins, selector, val)
                 && RewriteEvents(pins, selector, val) == [])
            && (!LevelTriggered(entry) ==>
                 && PinsOf(irr, table[i := WithoutRemoteIrr(entry)]) == Rewritten(pins, selector, val)
                 && RewriteEvents(pins, selector, val) == if RemoteIrrSet(entry) then [RemoteClear(i)] else [])
  {
    hide Decode, IrrBit, RemoteIrrSet, WithoutRemoteIrr, LevelTriggered;
    hide MergeLow, MergeHigh, WriteLow, WriteHigh, PinsOf;
    var i := EntryIndex(selector);
    var entry := Merged(table[i], selector, val);
    WriteKeepsRemoteIrr(Decode(table[i]), val);
    MergeIsFieldWrite(table[i], val);
    RemoteIrrMasks(entry);
    EntryUpdated(irr, table, i, entry);
    EntryUpdated(irr, table, i, WithoutRemoteIrr(entry));
  }

  /** Setting or clearing a bit of the pending word changes its pin only. */
  lemma PendingUpdated(irr: bv32, table: seq<bv64>, i: nat)
    requires |table| == NUM_PINS && i < NUM_PINS
    ensures var pins := PinsOf(irr, table);
            && PinsOf(SetPending(irr, i), table) == pins[i := pins[i].(irr := true)]
            && PinsOf(ClearPending(irr, i), table) == pins[i := pins[i].(irr := false)]
  {
    hide Decode, IrrBit, SetPending, ClearPending;
    forall j | 0 <= j < NUM_PINS
      ensures IrrBit(SetPending(irr, i), j) == (i == j || IrrBit(irr, j))
      ensures IrrBit(ClearPending(irr, i), j) == (i != j && IrrBit(irr, j))
    {
      SetIrrBit(irr, i, j);
      ClearIrrBit(irr, i, j);
    }
  }

  /** What the scan does at one pin, on the words, is what servicing does to the pin. */
  lemma ServedPin(irr: bv32, table: seq<bv64>, i: nat)
    requires |table| == NUM_PINS && i < NUM_PINS
    ensures var pins, info := PinsOf(irr, table), ParseEntry(table[i]);
            && (!IrrBit(irr, i) || info.masked ==> pins[i].Serviced() == pins[i] && !pins[i].Deliverable())
            && (IrrBit(irr, i) && !info.masked && !info.level ==>
                 && PinsOf(ClearPending(irr, i), table) == pins[i := pins[i].Serviced()]
                 && pins[i].Deliverable())
            && (IrrBit(irr, i) && !info.masked && info.level ==>
                 && PinsOf(irr, table[i := WithRemoteIrr(table[i])]) == pins[i := pins[i].Serviced()]
                 && (pins[i].Deliverable() <==> !RemoteIrrSet(table[i])))
            && ControlOf(info) == Control(pins[i].entry)
  {
    hide Decode, IrrBit, SetPending, ClearPending, PinsOf, RemoteIrrSet, WithRemoteIrr;
    EntryUpdated(irr, table, i, WithRemoteIrr(table[i]));
    PendingUpdated(irr, table, i);
    RemoteIrrMasks(table[i]);
  }

  /** Servicing a table in which only pin `i` has anything to deliver touches only pin `i`. */
  lemma ServiceOne(pins: Pins, i: nat, n: nat)
    requires i < NUM_PINS && n <= NUM_PINS
    requires forall j :: 0 <= j < NUM_PINS && j != i ==> pins[j].Quiet()
    ensures forall j :: 0 <= j < NUM_PINS && j != i ==> pins[j].Serviced() == pins[j]
    ensures ServiceEvents(pins, n)
         == if i < n && pins[i].Deliverable() then [Inject(i, Control(pins[i].entry))] else []
  {
    if n > 0 {
      ServiceOne(pins, i, n - 1);
    }
  }

  lemma ServiceQuiets(pins: Pins)
    requires forall i :: 0 <= i < NUM_PINS && pins[i].entry.remoteIrr ==> pins[i].entry.level
    ensures Quiescent(ServiceAll(pins))
  {
  }

  class IoApic {
    var id: bv32
    var ioregsel: nat
    var irr: bv32
    const ioredtbl: array<bv64>
    var events: seq<Event>

    ghost predicate WellFormed()
      reads this
    {
      ioredtbl.Length == NUM_PINS && ioregsel < 256
    }

    ghost function View(): State
      requires WellFormed()
      reads this, ioredtbl
    {
      State(PinsOf(irr, ioredtbl[..]), ioregsel, id)
    }

    /** What every public operation finds and leaves. */
    ghost predicate Valid()
      reads this, ioredtbl
    {
      WellFormed() && Quiescent(View().pins)
    }

    constructor ()
      ensures Valid() && events == [] && fresh(ioredtbl)
      ensures forall i :: 0 <= i < NUM_PINS ==> View().pins[i] == Pin(false, Decode(MASKED))
    {
      id, ioregsel, irr, events := 0, 0, 0, [];
      ioredtbl := new bv64[NUM_PINS](_ => MASKED);
    }

    method Service()
      requires WellFormed()
      modifies this`irr, this`events, ioredtbl
      ensures View() == old(View()).(pins := ServiceAll(old(View().pins)))
      ensures events == old(events) + ServiceEvents(old(View().pins), NUM_PINS)
    {
      hide Decode, IrrBit, SetPending, ClearPending, PinsOf;
      hide RemoteIrrSet, WithRemoteIrr, WithoutRemoteIrr, LevelTriggered, MergeLow, MergeHigh;
      hide ParseEntry, ControlOf, Control, Pin.Serviced, Pin.Deliverable;
      ghost var pins := View().pins;
      for i := 0 to NUM_PINS
        invariant forall j :: 0 <= j < NUM_PINS ==>
          View().pins[j] == if j < i then pins[j].Serviced() else pins[j]
        invariant events == old(events) + ServiceEvents(pins, i)
      {
        ghost var table := ioredtbl[..];
        assert View().pins[i] == pins[i];
        ServedPin(irr, table, i);
        if IrrBit(irr, i) {
          var info := ParseEntry(ioredtbl[i]);
          if !info.masked {
            var coalesce := false;
            if !info.level {
              irr := ClearPending(irr, i);
            } else {
              coalesce := RemoteIrrSet(ioredtbl[i]);
              ioredtbl[i] := WithRemoteIrr(ioredtbl[i]);
              assert ioredtbl[..] == table[i := WithRemoteIrr(table[i])];
            }
            if !coalesce {
              events := events + [Inject(i, ControlOf(info))];
            }
          }
        }
      }
    }

    method SetIrq(line: Option<nat>)
      requires Valid()
      modifies this`irr, this`events, ioredtbl
      ensures Valid()
      ensures Outcome(View(), events)
           == var o := Next(old(View()), IoApicSpec.SetIrq(line)); o.(events := old(events) + o.events)
    {
      hide Decode, IrrBit, SetPending, ClearPending, PinsOf;
      hide RemoteIrrSet, WithRemoteIrr, WithoutRemoteIrr, LevelTriggered, MergeLow, MergeHigh;
      if line.Some? && line.value < NUM_PINS {
        PendingUpdated(irr, ioredtbl[..], line.value);
        irr := SetPending(irr, line.value);
        ServiceQuiets(View().pins);
        Service();
      }
    }

    method ClearIrq(line: Option<nat>)
      requires Valid()
      modifies this`irr
      ensures Valid()
      ensures Outcome(View(), []) == Next(old(View()), IoApicSpec.ClearIrq(line))
    {
      hide Decode, IrrBit, SetPending, ClearPending, PinsOf;
      hide RemoteIrrSet, WithRemoteIrr, WithoutRemoteIrr, LevelTriggered, MergeLow, MergeHigh;
      if line.Some? && line.value < NUM_PINS {
        PendingUpdated(irr, ioredtbl[..], line.value);
        irr := ClearPending(irr, line.value);
      }
    }

    method UpdateEntry(val: bv32)
      requires WellFormed() && SelectsEntry(ioregsel)
      modifies this`events, ioredtbl
      ensures View() == old(View()).(pins := Rewritten(old(View().pins), ioregsel, val))
      ensures events == old(events) + RewriteEvents(old(View().pins), ioregsel, val)
    {
      hide Decode, IrrBit, RemoteIrrSet, WithoutRemoteIrr, LevelTriggered, PinsOf;
      hide EntryIndex, Merged, Rewritten, RewriteEvents, SelectsEntry;
      ghost var table := ioredtbl[..];
      RewriteMeans(irr, table, ioregsel, val);
      var index := EntryIndex(ioregsel);
      var entry := Merged(ioredtbl[index], ioregsel, val);
      if !LevelTriggered(entry) {
        if RemoteIrrSet(entry) {
          events := events + [RemoteClear(index)];
        }
        entry := WithoutRemoteIrr(entry);
      }
      ioredtbl[index] := entry;
      assert ioredtbl[..] == table[index := entry];
    }

    method WriteEntry(val: bv32)
      requires Valid() && SelectsEntry(ioregsel)
      modifies this`irr, this`events, ioredtbl
      ensures Valid()
      ensures Outcome(View(), events)
           == var o := Next(old(View()), Op.Write(IO_WIN, 4, val)); o.(events := old(events) + o.events)
    {
      hide PinsOf;
      UpdateEntry(val);
      ServiceQuiets(View().pins);
      Service();
    }

    method EoiPin(i: nat, vector: bv8)
      requires WellFormed() && i < NUM_PINS
      requires Quiescent(View().pins)
      modifies this`irr, this`events, ioredtbl
      ensures WellFormed() && Quiescent(View().pins)
      ensures var pins := old(View().pins);
              View() == old(View()).(pins := pins[i := pins[i].AfterEoi(vector)])
      ensures events == old(events) + EoiPinEvents(old(View().pins[i]), i, vector)
    {
      hide Decode, IrrBit, RemoteIrrSet, WithoutRemoteIrr, PinsOf;
      ghost var pins, table := View().pins, ioredtbl[..];
      var entry := ioredtbl[i];
      RemoteIrrMasks(entry);
      EntryUpdated(irr, table, i, WithoutRemoteIrr(entry));
      if ParseEntry(entry).vector == vector && RemoteIrrSet(entry) {
        ioredtbl[i] := WithoutRemoteIrr(entry);
        events := events + [RemoteClear(i)];
        ghost var mid := pins[i := Pin(pins[i].irr, pins[i].entry.(remoteIrr := false))];
        assert ioredtbl[..] == table[i := WithoutRemoteIrr(entry)];
        if IrrBit(irr, i) {
          ServiceOne(mid, i, NUM_PINS);
          Service();
          assert View().pins == pins[i := pins[i].AfterEoi(vector)];
        }
      }
    }

    method Eoi(vector: bv8)
      requires Valid()
      modifies this`irr, this`events, ioredtbl
      ensures Valid()
      ensures View() == old(View()).(pins := EoiAll(old(View().pins), vector))
      ensures events == old(events) + EoiEvents(old(View().pins), vector, NUM_PINS)
    {
      hide PinsOf;
      ghost var pins := View().pins;
      for i := 0 to NUM_PINS
        invariant Quiescent(View().pins)
        invariant View().selector == old(ioregsel) && View().id == old(id)
        invariant forall j :: 0 <= j < NUM_PINS ==>
          View().pins[j] == if j < i then pins[j].AfterEoi(vector) else pins[j]
        invariant events == old(events) + EoiEvents(pins, vector, i)
      {
        EoiPin(i, vector);
      }
    }

    /** The register write of the MMIO bus, all offsets and sizes. */
    method Write(offset: nat, size: nat, val: bv32)
      requires Valid()
      modifies this, ioredtbl
      ensures Valid()
      ensures Outcome(View(), events) ==
        var o := Next(old(View()), Op.Write(offset, size, val)); o.(events := old(events) + o.events)
    {
      hide PinsOf, Rewritten, RewriteEvents, ServiceAll, ServiceEvents, EoiAll, EoiEvents;
      if size != 4 {
        return;
      }
      if offset == IO_REG_SEL {
        ioregsel := LowByte(val) as nat;
      } else if offset == IO_WIN {
        if ioregsel == 0 {
          id := (val >> 24) & 0xf;
        } else if ioregsel == 1 || ioregsel == 2 {
          // the version and arbitration registers are read-only
        } else if ioregsel >= 0x10 && (ioregsel - 0x10) / 2 < NUM_PINS {
          WriteEntry(val);
        }
      } else if offset == IO_EOI {
        Eoi(LowByte(val));
      }
    }

    /**
    The register read.  Selectors 3 to 15 lie below the table base: the index wraps, so that
    they read as zero like every selector past the table.
     */
    method Read(offset: nat, size: nat) returns (r: Option<bv32>)
      requires Valid()
      ensures r.None? <==> offset == IO_WIN && size != 4
      ensures offset == IO_REG_SEL ==> r == Some(ioregsel as bv32)
      ensures offset == IO_WIN && size == 4 ==>
        if SelectsEntry(ioregsel) then
          var w := ioredtbl[(ioregsel - 0x10) / 2];
          var e := View().pins[(ioregsel - 0x10) / 2].entry;
          if ioregsel % 2 == 1 then DecodeHalves(Low(w), r.value) == e
          else DecodeHalves(r.value, High(w)) == e
        else r.value == if ioregsel == 0 || ioregsel == 2 then id << 24
                        else if ioregsel == 1 then 0x17_0020 else 0
      ensures offset != IO_REG_SEL && offset != IO_WIN ==> r == Some(0)
    {
      hide IrrBit, DecodeHalves;
      if offset == IO_REG_SEL {
        r := Some(ioregsel as bv32);
      } else if offset == IO_WIN {
        if size != 4 {
          return None;
        }
        if ioregsel == 0 || ioregsel == 2 {
          r := Some(id << 24);
        } else if ioregsel == 1 {
          r := Some(0x20 | (23 << 16));
        } else {
          var index := ((ioregsel - 0x10) % TWO64) / 2;
          if index < NUM_PINS {
            r := Some(if ioregsel % 2 == 1 then High(ioredtbl[index]) else Low(ioredtbl[index]));
          } else {
            r := Some(0);
          }
        }
      } else {
        r := Some(0);
      }
    }
  }
}
