/**
The IOAPIC over whole runs: quiescence after every operation, exactness of EOI, and the
accounting of injections against Remote IRR clears and line assertions.
 */
module IoApicRuns {
  import opened Wrappers
  import opened RedirectionTable
  import opened IoApicSpec

  function Reset(): (s: State)
    ensures Quiescent(s.pins)
    ensures forall i :: 0 <= i < NUM_PINS ==> !s.pins[i].entry.remoteIrr && !s.pins[i].irr
  {
    RemoteIrrMasks(MASKED);
    ParseFlags(MASKED);
    State(seq(NUM_PINS, _ => Pin(false, Decode(MASKED))), 0, 0)
  }

  function Run(s: State, ops: seq<Op>): Outcome {
    if ops == [] then Outcome(s, [])
    else
      var before := Run(s, ops[..|ops| - 1]);
      var last := Next(before.state, ops[|ops| - 1]);
      Outcome(last.state, before.events + last.events)
  }

  // Quiescence

  lemma NextQuiet(s: State, op: Op)
    requires Quiescent(s.pins)
    ensures Quiescent(Next(s, op).state.pins)
  {
    hide Decode, WriteLow, WriteHigh;
  }

  /** After any run no pin is left with something to deliver, and edge pins are clean. */
  lemma {:induction false} RunQuiet(s: State, ops: seq<Op>)
    requires Quiescent(s.pins)
    ensures Quiescent(Run(s, ops).state.pins)
  {
    if ops != [] {
      var n := |ops| - 1;
      RunQuiet(s, ops[..n]);
      NextQuiet(Run(s, ops[..n]).state, ops[n]);
    }
  }

  // EOI

  datatype Kind = Injection | LevelInjection | EdgeInjection | Clear

  predicate Is(e: Event, kind: Kind, pin: nat) {
    && e.pin == pin
    && match kind
       case Injection => e.Inject?
       case LevelInjection => e.Inject? && e.control.level
       case EdgeInjection => e.Inject? && !e.control.level
       case Clear => e.RemoteClear?
  }

  function Count(events: seq<Event>, kind: Kind, pin: nat): nat {
    if events == [] then 0
    else
      var n := |events| - 1;
      Count(events[..n], kind, pin) + (if Is(events[n], kind, pin) then 1 else 0)
  }

  lemma {:induction false} CountConcat(a: seq<Event>, b: seq<Event>, kind: Kind, pin: nat)
    ensures Count(a + b, kind, pin) == Count(a, kind, pin) + Count(b, kind, pin)
  {
    if b == [] {
      assert a + b == a;
    } else {
      var n := |b| - 1;
      assert (a + b)[..|a + b| - 1] == a + b[..n];
      CountConcat(a, b[..n], kind, pin);
    }
  }

  lemma CountPair(a: Event, b: Event, kind: Kind, pin: nat)
    ensures Count([a], kind, pin) == if Is(a, kind, pin) then 1 else 0
    ensures Count([a, b], kind, pin)
         == (if Is(a, kind, pin) then 1 else 0) + (if Is(b, kind, pin) then 1 else 0)
  {
    assert [a][..0] == [];
    assert [a, b][..1] == [a];
  }

  /**
  An EOI injects once every unmasked pin that carries the vector, awaits this EOI and is
  still asserted; it injects no other pin.
   */
  lemma {:induction false} EoiInjections(pins: Pins, vector: bv8, n: nat, pin: nat)
    requires n <= NUM_PINS
    ensures Count(EoiEvents(pins, vector, n), Injection, pin)
         == if pin < n && pins[pin].Acknowledged(vector) && pins[pin].irr && !pins[pin].entry.masked
            then 1 else 0
  {
    hide *;
    EoiFold(pins, vector, n, pin, true);
    if n > 0 {
      EoiInjections(pins, vector, n - 1, pin);
      CountConcat(EoiEvents(pins, vector, n - 1), EoiPinEvents(pins[n - 1], n - 1, vector), Injection, pin);
      EoiPinInjections(pins[n - 1], n - 1, vector, pin);
    }
  }

  /** The events of an EOI pin by pin: none at first, and then those of one pin after another. */
  lemma EoiFold(pins: Pins, vector: bv8, n: nat, pin: nat, remote: bool)
    requires n <= NUM_PINS
    ensures Count(EoiEvents(pins, vector, 0), Injection, pin) == 0
    ensures Count(EoiEvents(pins, vector, 0), EdgeInjection, pin) == 0
    ensures Alternating(EoiEvents(pins, vector, 0), pin, remote) == Some(remote)
    ensures n > 0 ==>
      EoiEvents(pins, vector, n) == EoiEvents(pins, vector, n - 1) + EoiPinEvents(pins[n - 1], n - 1, vector)
  {
    hide EoiPinEvents;
  }

  lemma EoiPinInjections(p: Pin, i: nat, vector: bv8, pin: nat)
    ensures Count(EoiPinEvents(p, i, vector), Injection, pin)
         == if pin == i && p.Acknowledged(vector) && p.irr && !p.entry.masked then 1 else 0
  {
    var inject := Inject(i, Control(p.entry));
    CountPair(RemoteClear(i), inject, Injection, pin);
  }

  /** A scan injects once every unmasked pending pin that does not await an EOI, and no other. */
  lemma {:induction false} ServiceInjections(pins: Pins, n: nat, pin: nat)
    requires n <= NUM_PINS
    ensures Count(ServiceEvents(pins, n), Injection, pin)
         == if pin < n && pins[pin].irr && !pins[pin].entry.masked
               && !(pins[pin].entry.level && pins[pin].entry.remoteIrr)
            then 1 else 0
  {
    if n > 0 {
      ServiceInjections(pins, n - 1, pin);
      var e := Inject(n - 1, Control(pins[n - 1].entry));
      CountConcat(ServiceEvents(pins, n - 1), [e], Injection, pin);
      CountPair(e, e, Injection, pin);
      assert ServiceEvents(pins, n - 1) + [] == ServiceEvents(pins, n - 1);
    }
  }

  /** Asserting a line injects its pin, once, unless it is masked or awaits an EOI; and no other pin. */
  lemma AssertionInjects(s: State, irq: nat, pin: nat)
    requires Quiescent(s.pins) && irq < NUM_PINS && pin < NUM_PINS
    ensures Count(Next(s, SetIrq(Some(irq))).events, Injection, pin)
         == if pin == irq && !s.pins[pin].entry.masked && !(s.pins[pin].entry.level && s.pins[pin].entry.remoteIrr)
            then 1 else 0
  {
    hide Count, ServiceEvents;
    var mid := s.pins[irq := s.pins[irq].(irr := true)];
    ServiceInjections(mid, NUM_PINS, pin);
    assert [] + ServiceEvents(mid, NUM_PINS) == ServiceEvents(mid, NUM_PINS);
  }

  /** The selector register takes the low byte, the ID register four bits; other sizes are ignored. */
  lemma PlainRegisters(s: State, size: nat, val: bv32)
    ensures Next(s, Write(0x00, 4, val)) == Outcome(s.(selector := LowByte(val) as nat), [])
    ensures LowByte(val) == (val & 0xff) as bv8
    ensures s.selector == 0 ==> Next(s, Write(0x10, 4, val)) == Outcome(s.(id := (val >> 24) & 0xf), [])
    ensures size != 4 ==> forall offset :: Next(s, Write(offset, size, val)) == Outcome(s, [])
    ensures 0 < s.selector < 0x10 || s.selector >= 0x40 ==> Next(s, Write(0x10, 4, val)) == Outcome(s, [])
  {
    hide Rewritten, RewriteEvents, ServiceAll, ServiceEvents;
  }

  // What is injected

  /** The message carries the entry's vector, destination, mode and kind (82093AA, section 3.2.4). */
  predicate Carries(c: InterruptControl, e: Entry) {
    && c.vector == e.vector && c.destination == e.dest && c.logical == e.logical && c.level == e.level
    && (c.kind == LowestPriority <==> e.deliveryMode == 1)
    && (c.kind == Nmi <==> e.deliveryMode == 4)
    && (c.kind == Init <==> e.deliveryMode == 5)
  }

  predicate AllCarry(events: seq<Event>, pins: Pins) {
    forall k :: 0 <= k < |events| && events[k].Inject? ==>
      events[k].pin < NUM_PINS && Carries(events[k].control, pins[events[k].pin].entry)
  }

  /** Entries that send the same message. */
  predicate SameMessage(a: Entry, b: Entry) {
    && a.vector == b.vector && a.dest == b.dest && a.logical == b.logical
    && a.level == b.level && a.deliveryMode == b.deliveryMode
  }

  lemma {:induction false} ServiceCarries(pins: Pins, n: nat)
    requires n <= NUM_PINS
    ensures AllCarry(ServiceEvents(pins, n), pins)
  {
    if n > 0 {
      ServiceCarries(pins, n - 1);
    }
  }

  /** An EOI injects the messages of its pins, all with the vector acknowledged. */
  lemma {:induction false} EoiCarries(pins: Pins, vector: bv8, n: nat)
    requires n <= NUM_PINS
    ensures AllCarry(EoiEvents(pins, vector, n), pins)
    ensures forall k :: 0 <= k < |EoiEvents(pins, vector, n)| && EoiEvents(pins, vector, n)[k].Inject? ==>
      EoiEvents(pins, vector, n)[k].control.vector == vector
  {
    if n > 0 {
      EoiCarries(pins, vector, n - 1);
    }
  }

  lemma CarryOver(events: seq<Event>, a: Pins, b: Pins)
    requires AllCarry(events, a) && forall i :: 0 <= i < NUM_PINS ==> SameMessage(a[i].entry, b[i].entry)
    ensures AllCarry(events, b)
  {
  }

  /** Every injection of an operation carries what its pin's entry says when the operation is done. */
  lemma NextCarries(s: State, op: Op)
    ensures AllCarry(Next(s, op).events, Next(s, op).state.pins)
  {
    hide Decode, WriteLow, WriteHigh, Rewritten, ServiceEvents, EoiEvents, Carries;
    match op
    case SetIrq(Some(irq)) =>
      if irq < NUM_PINS {
        var mid := s.pins[irq := s.pins[irq].(irr := true)];
        ServiceCarries(mid, NUM_PINS);
        CarryOver(ServiceEvents(mid, NUM_PINS), mid, ServiceAll(mid));
        assert [] + ServiceEvents(mid, NUM_PINS) == ServiceEvents(mid, NUM_PINS);
      }
    case Write(offset, size, val) =>
      if size == 4 && offset == IO_EOI {
        EoiCarries(s.pins, LowByte(val), NUM_PINS);
        CarryOver(EoiEvents(s.pins, LowByte(val), NUM_PINS), s.pins, EoiAll(s.pins, LowByte(val)));
      } else if size == 4 && offset == IO_WIN && SelectsEntry(s.selector) {
        var mid := Rewritten(s.pins, s.selector, val);
        ServiceCarries(mid, NUM_PINS);
        CarryOver(ServiceEvents(mid, NUM_PINS), mid, ServiceAll(mid));
      }
    case _ =>
  }

  // What the registers change

  /** An entry without Remote IRR, which is not software's to write. */
  function Plain(e: Entry): Entry { e.(remoteIrr := false) }

  /** The entry after a write of its low half: bit by bit from the value, status bits kept. */
  predicate LowWritten(e: Entry, val: bv32, r: Entry) {
    && r.vector == (val & 0xff) as bv8 && r.deliveryMode == ((val >> 8) & 7) as bv3
    && (r.logical <==> val & 0x800 != 0) && (r.polarity <==> val & 0x2000 != 0)
    && (r.level <==> val & 0x8000 != 0) && (r.masked <==> val & 0x1_0000 != 0)
    && r.dest == e.dest && r.reservedHigh == e.reservedHigh && r.deliveryStatus == e.deliveryStatus
  }

  /** The entry after a write of its high half: the destination is the top byte. */
  predicate HighWritten(e: Entry, val: bv32, r: Entry) {
    r == e.(dest := (val >> 24) as bv8, reservedHigh := (val & 0xff_ffff) as bv24)
  }

  /** Selector 0x10 + 2i writes the low half of entry i and 0x11 + 2i its high half; no other entry. */
  lemma EntryRegisters(s: State, i: nat, high: bool, val: bv32)
    requires i < NUM_PINS && s.selector == 0x10 + 2 * i + (if high then 1 else 0)
    ensures var t := Next(s, Write(IO_WIN, 4, val)).state;
            && (high ==> HighWritten(Plain(s.pins[i].entry), val, Plain(t.pins[i].entry)))
            && (!high ==> LowWritten(Plain(s.pins[i].entry), val, Plain(t.pins[i].entry)))
            && (forall j :: 0 <= j < NUM_PINS && j != i ==> Plain(t.pins[j].entry) == Plain(s.pins[j].entry))
            && t.selector == s.selector && t.id == s.id
  {
    hide *;
    WindowWrite(s, i, high, val);
    RewrittenAt(s.pins, i, high, val);
    LowWriteMeans(s.pins[i].entry, val);
    HighWriteMeans(s.pins[i].entry, val);
    ServicePlain(Rewritten(s.pins, s.selector, val));
  }

  lemma WindowWrite(s: State, i: nat, high: bool, val: bv32)
    requires i < NUM_PINS && s.selector == 0x10 + 2 * i + (if high then 1 else 0)
    ensures SelectsEntry(s.selector)
    ensures Next(s, Write(IO_WIN, 4, val)).state == s.(pins := ServiceAll(Rewritten(s.pins, s.selector, val)))
  {
    hide Rewritten, RewriteEvents, ServiceAll, ServiceEvents;
  }

  lemma ServicePlain(pins: Pins)
    ensures forall j :: 0 <= j < NUM_PINS ==> Plain(ServiceAll(pins)[j].entry) == Plain(pins[j].entry)
  {
  }

  lemma RewrittenAt(pins: Pins, i: nat, high: bool, val: bv32)
    requires i < NUM_PINS
    ensures SelectsEntry(0x10 + 2 * i + (if high then 1 else 0))
    ensures var e := pins[i].entry;
            Rewritten(pins, 0x10 + 2 * i + (if high then 1 else 0), val)
            == pins[i := pins[i].(entry := FixEdge(if high then WriteHigh(e, val) else WriteLow(e, val)))]
  {
    hide WriteLow, WriteHigh, FixEdge;
  }

  lemma LowWriteMeans(e: Entry, val: bv32)
    ensures LowWritten(Plain(e), val, Plain(FixEdge(WriteLow(e, val))))
  {
  }

  lemma HighWriteMeans(e: Entry, val: bv32)
    ensures HighWritten(Plain(e), val, Plain(FixEdge(WriteHigh(e, val))))
  {
  }

  // Accounting of level-triggered injections

  /** The Remote IRR bit of `pin` that an event leads to, None if the event is out of turn. */
  function Applied(e: Event, pin: nat, remote: bool): Option<bool> {
    if e.pin != pin then Some(remote)
    else match e
      case Inject(_, control) =>
        if !control.level then Some(remote) else if remote then None else Some(true)
      case RemoteClear(_) => if remote then Some(false) else None
  }

  /** Folds `Applied`: Some iff level injections and clears of `pin` strictly alternate. */
  function Alternating(events: seq<Event>, pin: nat, remote: bool): Option<bool> {
    if events == [] then Some(remote)
    else
      var n := |events| - 1;
      match Alternating(events[..n], pin, remote)
      case None => None
      case Some(r) => Applied(events[n], pin, r)
  }

  lemma {:induction false} AlternatingConcat(a: seq<Event>, b: seq<Event>, pin: nat, remote: bool)
    requires Alternating(a, pin, remote).Some?
    ensures Alternating(a + b, pin, remote) == Alternating(b, pin, Alternating(a, pin, remote).value)
  {
    if b == [] {
      assert a + b == a;
    } else {
      var n := |b| - 1;
      assert (a + b)[..|a + b| - 1] == a + b[..n];
      AlternatingConcat(a, b[..n], pin, remote);
    }
  }

  lemma AlternatingPair(a: Event, b: Event, pin: nat, remote: bool)
    ensures Alternating([a], pin, remote) == Applied(a, pin, remote)
    ensures Applied(a, pin, remote).Some? ==>
      Alternating([a, b], pin, remote) == Applied(b, pin, Applied(a, pin, remote).value)
  {
    assert [a][..0] == [];
    assert [a, b][..1] == [a];
  }

  lemma {:induction false} ServiceAlternates(pins: Pins, n: nat, pin: nat)
    requires n <= NUM_PINS && pin < NUM_PINS
    ensures Alternating(ServiceEvents(pins, n), pin, pins[pin].entry.remoteIrr)
         == Some(if pin < n then pins[pin].Serviced().entry.remoteIrr else pins[pin].entry.remoteIrr)
  {
    if n > 0 {
      ServiceAlternates(pins, n - 1, pin);
      var before := ServiceEvents(pins, n - 1);
      if pins[n - 1].Deliverable() {
        var e := Inject(n - 1, Control(pins[n - 1].entry));
        assert ServiceEvents(pins, n) == before + [e];
        assert (before + [e])[..|before|] == before;
      } else {
        assert ServiceEvents(pins, n) == before;
      }
    }
  }

  lemma EoiPinAlternates(p: Pin, i: nat, vector: bv8, pin: nat, remote: bool)
    requires p.Quiet()
    requires pin == i ==> remote == p.entry.remoteIrr
    ensures Alternating(EoiPinEvents(p, i, vector), pin, remote)
         == Some(if pin == i then p.AfterEoi(vector).entry.remoteIrr else remote)
  {
    AlternatingPair(RemoteClear(i), Inject(i, Control(p.entry)), pin, remote);
  }

  lemma {:induction false} EoiAlternates(pins: Pins, vector: bv8, n: nat, pin: nat)
    requires n <= NUM_PINS && pin < NUM_PINS && Quiescent(pins)
    ensures Alternating(EoiEvents(pins, vector, n), pin, pins[pin].entry.remoteIrr)
         == Some((if pin < n then pins[pin].AfterEoi(vector) else pins[pin]).entry.remoteIrr)
  {
    hide *;
    EoiFold(pins, vector, n, pin, pins[pin].entry.remoteIrr);
    if n > 0 {
      EoiAlternates(pins, vector, n - 1, pin);
      QuietPin(pins, n - 1);
      var before := EoiEvents(pins, vector, n - 1);
      AlternatingConcat(before, EoiPinEvents(pins[n - 1], n - 1, vector), pin, pins[pin].entry.remoteIrr);
      EoiPinAlternates(pins[n - 1], n - 1, vector, pin,
        Alternating(before, pin, pins[pin].entry.remoteIrr).value);
    }
  }

  lemma QuietPin(pins: Pins, i: nat)
    requires i < NUM_PINS && Quiescent(pins)
    ensures pins[i].Quiet()
  {
  }

  lemma RewriteAlternates(s: State, val: bv32, pin: nat)
    requires pin < NUM_PINS && Quiescent(s.pins) && SelectsEntry(s.selector)
    ensures Alternating(RewriteEvents(s.pins, s.selector, val), pin, s.pins[pin].entry.remoteIrr)
         == Some(Rewritten(s.pins, s.selector, val)[pin].entry.remoteIrr)
  {
    hide Decode, DecodeHalves;
    var es := RewriteEvents(s.pins, s.selector, val);
    if |es| == 1 {
      assert es[..0] == [];
    }
  }

  lemma NextAlternates(s: State, op: Op, pin: nat)
    requires pin < NUM_PINS && Quiescent(s.pins)
    ensures Alternating(Next(s, op).events, pin, s.pins[pin].entry.remoteIrr)
         == Some(Next(s, op).state.pins[pin].entry.remoteIrr)
  {
    hide Decode, WriteLow, WriteHigh, Rewritten, RewriteEvents;
    match op
    case SetIrq(Some(irq)) =>
      if irq < NUM_PINS {
        var mid := s.pins[irq := s.pins[irq].(irr := true)];
        ServiceAlternates(mid, NUM_PINS, pin);
        assert [] + ServiceEvents(mid, NUM_PINS) == ServiceEvents(mid, NUM_PINS);
      }
    case Write(offset, size, val) =>
      if size == 4 && offset == IO_EOI {
        EoiAlternates(s.pins, LowByte(val), NUM_PINS, pin);
      } else if size == 4 && offset == IO_WIN && SelectsEntry(s.selector) {
        RewriteAlternates(s, val, pin);
        var before := RewriteEvents(s.pins, s.selector, val);
        var mid := Rewritten(s.pins, s.selector, val);
        ServiceAlternates(mid, NUM_PINS, pin);
        AlternatingConcat(before, ServiceEvents(mid, NUM_PINS), pin, s.pins[pin].entry.remoteIrr);
      }
    case _ =>
  }

  /** Over any run, level injections and Remote IRR clears of a pin take turns. */
  lemma {:induction false} RunAlternates(s: State, ops: seq<Op>, pin: nat)
    requires pin < NUM_PINS && Quiescent(s.pins)
    ensures Alternating(Run(s, ops).events, pin, s.pins[pin].entry.remoteIrr)
         == Some(Run(s, ops).state.pins[pin].entry.remoteIrr)
  {
    if ops != [] {
      var n := |ops| - 1;
      var mid := Run(s, ops[..n]);
      RunAlternates(s, ops[..n], pin);
      RunQuiet(s, ops[..n]);
      NextAlternates(mid.state, ops[n], pin);
      AlternatingConcat(mid.events, Next(mid.state, ops[n]).events, pin,
        s.pins[pin].entry.remoteIrr);
    }
  }

  lemma {:induction false} AlternatingCounts(events: seq<Event>, pin: nat, remote: bool)
    requires Alternating(events, pin, remote).Some?
    ensures Count(events, LevelInjection, pin) + (if remote then 1 else 0)
         == Count(events, Clear, pin) + (if Alternating(events, pin, remote).value then 1 else 0)
  {
    if events != [] {
      AlternatingCounts(events[..|events| - 1], pin, remote);
    }
  }

  /** From reset, level injections minus clears is the pin's Remote IRR bit. */
  lemma LevelAccounting(ops: seq<Op>, pin: nat)
    requires pin < NUM_PINS
    ensures var r := Run(Reset(), ops);
            Count(r.events, LevelInjection, pin)
            == Count(r.events, Clear, pin) + (if r.state.pins[pin].entry.remoteIrr then 1 else 0)
  {
    RunAlternates(Reset(), ops, pin);
    AlternatingCounts(Run(Reset(), ops).events, pin, false);
  }

  lemma {:induction false} AlternatingPrefix(events: seq<Event>, n: nat, pin: nat, remote: bool)
    requires n <= |events| && Alternating(events, pin, remote).Some?
    ensures Alternating(events[..n], pin, remote).Some?
    decreases |events|
  {
    if n < |events| {
      var m := |events| - 1;
      AlternatingPrefix(events[..m], n, pin, remote);
      assert events[..m][..n] == events[..n];
    } else {
      assert events[..n] == events;
    }
  }

  lemma {:induction false} RemoteStays(events: seq<Event>, a: nat, b: nat, pin: nat, remote: bool)
    requires a < b <= |events| && Alternating(events[..b], pin, remote).Some?
    requires Is(events[a], LevelInjection, pin)
    requires forall c :: a < c < b ==> events[c] != RemoteClear(pin)
    ensures Alternating(events[..b], pin, remote) == Some(true)
    decreases b
  {
    assert events[..b][..b - 1] == events[..b - 1];
    AlternatingPrefix(events[..b], b - 1, pin, remote);
    if b > a + 1 {
      RemoteStays(events, a, b - 1, pin, remote);
    }
  }

  /** Two level injections of one pin always have a Remote IRR clear of it between them. */
  lemma ClearBetweenInjections(ops: seq<Op>, pin: nat, a: nat, b: nat)
    requires pin < NUM_PINS
    requires a < b < |Run(Reset(), ops).events|
    requires Is(Run(Reset(), ops).events[a], LevelInjection, pin)
    requires Is(Run(Reset(), ops).events[b], LevelInjection, pin)
    ensures exists c :: a < c < b && Run(Reset(), ops).events[c] == RemoteClear(pin)
  {
    var events := Run(Reset(), ops).events;
    RunAlternates(Reset(), ops, pin);
    AlternatingPrefix(events, b + 1, pin, false);
    AlternatingPrefix(events, b, pin, false);
    assert events[..b + 1][..b] == events[..b];
    if forall c :: a < c < b ==> events[c] != RemoteClear(pin) {
      RemoteStays(events, a, b, pin, false);
    }
  }

  // Accounting of edge-triggered injections

  function Assertions(ops: seq<Op>, pin: nat): nat {
    if ops == [] then 0
    else Assertions(ops[..|ops| - 1], pin) + (if ops[|ops| - 1] == SetIrq(Some(pin)) then 1 else 0)
  }

  lemma {:induction false} ServiceEdges(pins: Pins, n: nat, pin: nat)
    requires n <= NUM_PINS && pin < NUM_PINS
    ensures Count(ServiceEvents(pins, n), EdgeInjection, pin)
          + (if (if pin < n then pins[pin].Serviced() else pins[pin]).irr then 1 else 0)
         == if pins[pin].irr then 1 else 0
  {
    if n > 0 {
      ServiceEdges(pins, n - 1, pin);
      var before := ServiceEvents(pins, n - 1);
      if pins[n - 1].Deliverable() {
        var e := Inject(n - 1, Control(pins[n - 1].entry));
        assert ServiceEvents(pins, n) == before + [e];
        assert (before + [e])[..|before|] == before;
      } else {
        assert ServiceEvents(pins, n) == before;
      }
    }
  }

  lemma {:induction false} EoiEdges(pins: Pins, vector: bv8, n: nat, pin: nat)
    requires n <= NUM_PINS && pin < NUM_PINS && Quiescent(pins)
    ensures Count(EoiEvents(pins, vector, n), EdgeInjection, pin) == 0
  {
    hide *;
    EoiFold(pins, vector, n, pin, true);
    if n > 0 {
      EoiEdges(pins, vector, n - 1, pin);
      QuietPin(pins, n - 1);
      EoiPinEdges(pins[n - 1], n - 1, vector, pin);
      CountConcat(EoiEvents(pins, vector, n - 1), EoiPinEvents(pins[n - 1], n - 1, vector), EdgeInjection, pin);
    }
  }

  lemma EoiPinEdges(p: Pin, i: nat, vector: bv8, pin: nat)
    requires p.Quiet()
    ensures Count(EoiPinEvents(p, i, vector), EdgeInjection, pin) == 0
  {
    CountPair(RemoteClear(i), Inject(i, Control(p.entry)), EdgeInjection, pin);
  }

  lemma RewriteEdges(s: State, val: bv32, pin: nat)
    requires pin < NUM_PINS && SelectsEntry(s.selector)
    ensures Count(RewriteEvents(s.pins, s.selector, val), EdgeInjection, pin) == 0
    ensures Rewritten(s.pins, s.selector, val)[pin].irr == s.pins[pin].irr
  {
    hide Decode, WriteLow, WriteHigh;
    var clear := RemoteClear((s.selector - 0x10) / 2);
    CountPair(clear, clear, EdgeInjection, pin);
  }

  lemma NextEdges(s: State, op: Op, pin: nat)
    requires pin < NUM_PINS && Quiescent(s.pins)
    ensures Count(Next(s, op).events, EdgeInjection, pin)
          + (if Next(s, op).state.pins[pin].irr then 1 else 0)
         <= (if s.pins[pin].irr then 1 else 0) + (if op == SetIrq(Some(pin)) then 1 else 0)
  {
    hide Decode, WriteLow, WriteHigh, Rewritten, RewriteEvents, ServiceEvents, EoiEvents, Quiescent;
    match op
    case SetIrq(Some(irq)) =>
      if irq < NUM_PINS {
        var mid := s.pins[irq := s.pins[irq].(irr := true)];
        ServiceEdges(mid, NUM_PINS, pin);
        assert [] + ServiceEvents(mid, NUM_PINS) == ServiceEvents(mid, NUM_PINS);
      }
    case Write(offset, size, val) =>
      if size == 4 && offset == IO_EOI {
        EoiEdges(s.pins, LowByte(val), NUM_PINS, pin);
      } else if size == 4 && offset == IO_WIN && SelectsEntry(s.selector) {
        RewriteEdges(s, val, pin);
        var mid := Rewritten(s.pins, s.selector, val);
        ServiceEdges(mid, NUM_PINS, pin);
        CountConcat(RewriteEvents(s.pins, s.selector, val), ServiceEvents(mid, NUM_PINS),
          EdgeInjection, pin);
      }
    case _ =>
  }

  /** Edge injections of a pin never exceed the times its line was asserted. */
  lemma {:induction false} EdgeAccounting(ops: seq<Op>, pin: nat)
    requires pin < NUM_PINS
    ensures var r := Run(Reset(), ops);
            Count(r.events, EdgeInjection, pin) + (if r.state.pins[pin].irr then 1 else 0)
            <= Assertions(ops, pin)
  {
    if ops != [] {
      var n := |ops| - 1;
      var mid := Run(Reset(), ops[..n]);
      EdgeAccounting(ops[..n], pin);
      RunQuiet(Reset(), ops[..n]);
      NextEdges(mid.state, ops[n], pin);
      CountConcat(mid.events, Next(mid.state, ops[n]).events, EdgeInjection, pin);
    }
  }
}
