/**
The interrupt path end to end: InterruptStatus of one virtio-mmio device and the IOAPIC pin
its line drives.  First with signal and acknowledge each taken as one step, then with the two
halves of each as separate steps, as two threads can interleave them.
 */
module InterruptPath {
  import opened Wrappers
  import opened RedirectionTable
  import opened IoApicSpec
  import IoApicRuns
  import opened BitWords
  import T = TransportSpec
  import TransportRuns

  /** The transport of the device, whose `interruptStatus` is InterruptStatus, and the IOAPIC. */
  datatype Path = Path(device: T.State, apic: State) {
    function Pending(): set<nat> { device.interruptStatus }
  }

  datatype Step =
    | Signal(bits: set<nat>)            // the worker signals
    | Register(offset: nat, v: bv32)    // the driver writes a register of the transport
    | Chip(op: Op)                      // anything else that happens to the IOAPIC

  /** Only this device drives `line`; everything else may do what it likes to the IOAPIC. */
  predicate Foreign(op: Op, line: nat) {
    op != SetIrq(Some(line)) && op != ClearIrq(Some(line))
  }

  predicate Allowed(step: Step, line: nat) {
    && (step.Signal? ==> step.bits != {})
    && (step.Chip? ==> Foreign(step.op, line))
  }

  function Raise(s: Path, bits: set<nat>): Path {
    s.(device := s.device.(interruptStatus := s.device.interruptStatus + bits))
  }

  function Next(s: Path, step: Step, line: nat): Path {
    match step
    case Signal(bits) =>
      Raise(s, bits).(apic := IoApicSpec.Next(s.apic, SetIrq(Some(line))).state)
    case Register(offset, v) =>
      var d := T.Step(s.device, offset, v);
      Path(d, if d.lineReleased > s.device.lineReleased
              then IoApicSpec.Next(s.apic, ClearIrq(Some(line))).state else s.apic)
    case Chip(op) => s.(apic := IoApicSpec.Next(s.apic, op).state)
  }

  /**
  No register write raises an interrupt, and the line is released only by one that leaves none.
   */
  lemma RegisterEffect(d: T.State, offset: nat, v: bv32)
    ensures var e := T.Step(d, offset, v);
            && e.interruptStatus <= d.interruptStatus
            && d.lineReleased <= e.lineReleased
            && (e.lineReleased > d.lineReleased ==> e.interruptStatus == {} && offset == 0x64)
  {
    hide T.Number, T.SetField, T.WithEventIdx, T.NewQueues, Bits32;
  }

  /** The line is up while the device has something to report. */
  predicate Asserted(s: Path, line: nat)
    requires line < NUM_PINS
  {
    s.Pending() != {} ==> s.apic.pins[line].irr
  }

  /** Masked or level-triggered: an edge pin forgets its request as soon as it is delivered. */
  predicate Routed(s: Path, line: nat)
    requires line < NUM_PINS
  {
    s.apic.pins[line].entry.masked || s.apic.pins[line].entry.level
  }

  lemma ChipKeepsRequest(s: State, op: Op, line: nat)
    requires line < NUM_PINS && Quiescent(s.pins) && Foreign(op, line)
    ensures var p := IoApicSpec.Next(s, op).state.pins[line];
            && (p.irr ==> s.pins[line].irr)
            && (s.pins[line].irr ==> (p.irr <==> p.entry.masked || p.entry.level))
  {
    hide Decode, WriteLow, WriteHigh, Rewritten, RewriteEvents, ServiceEvents, EoiEvents;
    if op.Write? && op.size == 4 && op.offset == IO_WIN && SelectsEntry(s.selector) {
      IoApicRuns.RewriteEdges(s, op.val, line);
    }
  }

  /**
  Exactly when a step keeps the line asserted: nothing is pending any more, or the guest has
  not left the pin unmasked and edge-triggered.
   */
  lemma AssertedExact(s: Path, step: Step, line: nat)
    requires line < NUM_PINS && Quiescent(s.apic.pins) && Asserted(s, line) && Allowed(step, line)
    ensures var t := Next(s, step, line);
            Asserted(t, line) <==> t.Pending() == {} || Routed(t, line)
  {
    hide IoApicSpec.Next, T.Step;
    match step
    case Signal(_) => SetRaises(s.apic, line);
    case Register(offset, v) =>
      RegisterEffect(s.device, offset, v);
      ClearLowers(s.apic, line);
    case Chip(op) => ChipKeepsRequest(s.apic, op, line);
  }

  lemma SetRaises(s: State, line: nat)
    requires line < NUM_PINS
    ensures var p := IoApicSpec.Next(s, SetIrq(Some(line))).state.pins[line];
            && (p.irr <==> p.entry.masked || p.entry.level)
            && p.entry.masked == s.pins[line].entry.masked
            && p.entry.level == s.pins[line].entry.level
  {
  }

  lemma ClearLowers(s: State, line: nat)
    requires line < NUM_PINS
    ensures var p := IoApicSpec.Next(s, ClearIrq(Some(line))).state.pins[line];
            !p.irr && p.entry == s.pins[line].entry
  {
  }

  function Run(s: Path, steps: seq<Step>, line: nat): Path {
    if steps == [] then s
    else Next(Run(s, steps[..|steps| - 1], line), steps[|steps| - 1], line)
  }

  lemma NextQuiet(s: Path, step: Step, line: nat)
    requires Quiescent(s.apic.pins)
    ensures Quiescent(Next(s, step, line).apic.pins)
  {
    hide IoApicSpec.Next, T.Step;
    IoApicRuns.NextQuiet(s.apic, SetIrq(Some(line)));
    IoApicRuns.NextQuiet(s.apic, ClearIrq(Some(line)));
    if step.Chip? {
      IoApicRuns.NextQuiet(s.apic, step.op);
    }
  }

  /** What holds at every point of a run on which the pin stays masked or level-triggered. */
  ghost predicate Sound(s: Path, line: nat)
    requires line < NUM_PINS
  {
    && Quiescent(s.apic.pins)
    && Asserted(s, line)
    && (s.Pending() != {} && !s.apic.pins[line].entry.masked ==>
        s.apic.pins[line].entry.level && s.apic.pins[line].entry.remoteIrr)
  }

  /** A pending device always has its request latched and, unmasked, an injection under way. */
  lemma {:induction false} PendingIsUnderWay(s: Path, steps: seq<Step>, line: nat)
    requires line < NUM_PINS && Quiescent(s.apic.pins) && Asserted(s, line)
    requires forall i :: 0 <= i < |steps| ==> Allowed(steps[i], line)
    requires forall i :: 0 <= i <= |steps| ==> Routed(Run(s, steps[..i], line), line)
    ensures Sound(Run(s, steps, line), line)
  {
    if steps != [] {
      var n := |steps| - 1;
      var before := steps[..n];
      forall i | 0 <= i <= |before| ensures Routed(Run(s, before[..i], line), line) {
        assert before[..i] == steps[..i];
      }
      PendingIsUnderWay(s, before, line);
      AssertedExact(Run(s, before, line), steps[n], line);
      NextQuiet(Run(s, before, line), steps[n], line);
      assert steps[..|steps|] == steps;
    }
  }

  /** An EOI of the pin's vector that finds the device still pending injects it again, once. */
  lemma EoiReinjects(s: Path, line: nat)
    requires line < NUM_PINS && Sound(s, line) && s.Pending() != {}
    requires !s.apic.pins[line].entry.masked
    ensures var v := s.apic.pins[line].entry.vector;
            IoApicRuns.Count(EoiEvents(s.apic.pins, v, NUM_PINS), IoApicRuns.Injection, line) == 1
  {
    IoApicRuns.EoiInjections(s.apic.pins, s.apic.pins[line].entry.vector, NUM_PINS, line);
  }

  // Signal and acknowledge in two halves each

  /**
  `raising`: the worker has set its status bits but not yet asserted the line.
  `lowering`: an acknowledge has emptied the status but not yet released the line; the driver's
  register write is still under way, so that no other can begin.
   */
  datatype Fine = Fine(path: Path, raising: bool, lowering: bool)

  datatype FineStep =
    | SignalStatus(bits: set<nat>)
    | SignalLine
    | AckStatus(v: bv32)
    | AckLine
    | Write(offset: nat, v: bv32)  // any other register
    | Other(op: Op)

  predicate Enabled(s: Fine, step: FineStep, line: nat) {
    match step
    case SignalStatus(bits) => !s.raising && bits != {}
    case SignalLine => s.raising
    case AckStatus(_) => !s.lowering
    case AckLine => s.lowering
    case Write(offset, _) => !s.lowering && offset != 0x64
    case Other(op) => Foreign(op, line)
  }

  function FineNext(s: Fine, step: FineStep, line: nat): Fine {
    match step
    case SignalStatus(bits) => s.(path := Raise(s.path, bits), raising := true)
    case SignalLine =>
      s.(path := s.path.(apic := IoApicSpec.Next(s.path.apic, SetIrq(Some(line))).state),
         raising := false)
    case AckStatus(v) =>
      var d := T.Acknowledge(s.path.device, Bits32(v));
      s.(path := s.path.(device := d), lowering := d.lineReleased > s.path.device.lineReleased)
    case AckLine =>
      s.(path := s.path.(apic := IoApicSpec.Next(s.path.apic, ClearIrq(Some(line))).state),
         lowering := false)
    case Write(offset, v) => s.(path := s.path.(device := T.Step(s.path.device, offset, v)))
    case Other(op) => s.(path := s.path.(apic := IoApicSpec.Next(s.path.apic, op).state))
  }

  /** With nothing in between, the two halves of an acknowledge are the one step above. */
  lemma AckInOneStep(s: Fine, v: bv32, line: nat)
    requires line < NUM_PINS && !s.lowering
    ensures var t := FineNext(s, AckStatus(v), line);
            (if t.lowering then FineNext(t, AckLine, line) else t)
            == s.(path := Next(s.path, Register(0x64, v), line))
  {
    hide IoApicSpec.Next, Bits32;
  }

  /** The line is up, or the worker is about to raise it. */
  predicate FineAsserted(s: Fine, line: nat)
    requires line < NUM_PINS
  {
    s.path.Pending() != {} && !s.raising ==> s.path.apic.pins[line].irr
  }

  /**
  A step that loses the request: it ends with something pending that no worker is about to
  raise, and either it released the line or it left the pin unmasked and edge-triggered.
   */
  predicate Loses(s: Fine, step: FineStep, line: nat)
    requires line < NUM_PINS
  {
    var t := FineNext(s, step, line);
    t.path.Pending() != {} && !t.raising && (step.AckLine? || !Routed(t.path, line))
  }

  /** From a state in which nothing is lost, a step loses the request exactly as said. */
  lemma FineAssertedExact(s: Fine, step: FineStep, line: nat)
    requires line < NUM_PINS && Quiescent(s.path.apic.pins)
    requires FineAsserted(s, line) && Enabled(s, step, line)
    ensures FineAsserted(FineNext(s, step, line), line) <==> !Loses(s, step, line)
  {
    hide IoApicSpec.Next, T.Step, Bits32;
    match step
    case SignalStatus(_) =>
    case SignalLine => SetRaises(s.path.apic, line);
    case AckStatus(_) =>
    case AckLine => ClearLowers(s.path.apic, line);
    case Write(offset, v) => RegisterEffect(s.path.device, offset, v);
    case Other(op) => ChipKeepsRequest(s.path.apic, op, line);
  }

  function FineRun(s: Fine, steps: seq<FineStep>, line: nat): Fine {
    if steps == [] then s
    else FineNext(FineRun(s, steps[..|steps| - 1], line), steps[|steps| - 1], line)
  }

  lemma FineNextQuiet(s: Fine, step: FineStep, line: nat)
    requires Quiescent(s.path.apic.pins)
    ensures Quiescent(FineNext(s, step, line).path.apic.pins)
  {
    hide IoApicSpec.Next, T.Step, Bits32;
    IoApicRuns.NextQuiet(s.path.apic, SetIrq(Some(line)));
    IoApicRuns.NextQuiet(s.path.apic, ClearIrq(Some(line)));
    if step.Other? {
      IoApicRuns.NextQuiet(s.path.apic, step.op);
    }
  }

  lemma {:induction false} FineRunQuiet(s: Fine, steps: seq<FineStep>, line: nat)
    requires Quiescent(s.path.apic.pins)
    ensures Quiescent(FineRun(s, steps, line).path.apic.pins)
  {
    hide FineNext;
    if steps != [] {
      var n := |steps| - 1;
      FineRunQuiet(s, steps[..n], line);
      FineNextQuiet(FineRun(s, steps[..n], line), steps[n], line);
    }
  }

  predicate AssertedAt(s: Fine, steps: seq<FineStep>, n: nat, line: nat)
    requires line < NUM_PINS && n <= |steps|
  {
    FineAsserted(FineRun(s, steps[..n], line), line)
  }

  predicate EnabledAt(s: Fine, steps: seq<FineStep>, n: nat, line: nat)
    requires n < |steps|
  {
    Enabled(FineRun(s, steps[..n], line), steps[n], line)
  }

  predicate LosesAt(s: Fine, steps: seq<FineStep>, n: nat, line: nat)
    requires line < NUM_PINS && n < |steps|
  {
    Loses(FineRun(s, steps[..n], line), steps[n], line)
  }

  lemma StepOfRun(s: Fine, steps: seq<FineStep>, n: nat, line: nat)
    requires n < |steps|
    ensures FineRun(s, steps[..n + 1], line) == FineNext(FineRun(s, steps[..n], line), steps[n], line)
  {
    assert steps[..n + 1][..n] == steps[..n];
  }

  lemma {:induction false} AssertedUpTo(s: Fine, steps: seq<FineStep>, n: nat, line: nat)
    requires line < NUM_PINS && Quiescent(s.path.apic.pins) && FineAsserted(s, line) && n <= |steps|
    requires forall i :: 0 <= i < |steps| ==> EnabledAt(s, steps, i, line)
    requires forall i :: 0 <= i < n ==> !LosesAt(s, steps, i, line)
    ensures AssertedAt(s, steps, n, line)
    decreases n
  {
    if n > 0 {
      AssertedUpTo(s, steps, n - 1, line);
      FineRunQuiet(s, steps[..n - 1], line);
      StepOfRun(s, steps, n - 1, line);
      assert EnabledAt(s, steps, n - 1, line) && !LosesAt(s, steps, n - 1, line);
      hide FineNext, FineRun, Loses, Enabled, FineAsserted;
      FineAssertedExact(FineRun(s, steps[..n - 1], line), steps[n - 1], line);
    }
  }

  /**
  Over whole interleavings: a pending device has its request latched, or about to be, at every
  point of a run, if and only if no step of the run loses it.
   */
  lemma FineRunExact(s: Fine, steps: seq<FineStep>, line: nat)
    requires line < NUM_PINS && Quiescent(s.path.apic.pins) && FineAsserted(s, line)
    requires forall i :: 0 <= i < |steps| ==> EnabledAt(s, steps, i, line)
    ensures (forall n :: 0 <= n <= |steps| ==> AssertedAt(s, steps, n, line))
       <==> (forall n :: 0 <= n < |steps| ==> !LosesAt(s, steps, n, line))
  {
    hide FineNext, FineRun, Loses, Enabled, FineAsserted;
    if forall n :: 0 <= n < |steps| ==> !LosesAt(s, steps, n, line) {
      forall n | 0 <= n <= |steps| ensures AssertedAt(s, steps, n, line) {
        AssertedUpTo(s, steps, n, line);
      }
    }
    if forall n :: 0 <= n <= |steps| ==> AssertedAt(s, steps, n, line) {
      forall n | 0 <= n < |steps| ensures !LosesAt(s, steps, n, line) {
        assert AssertedAt(s, steps, n, line) && AssertedAt(s, steps, n + 1, line) && EnabledAt(s, steps, n, line);
        FineRunQuiet(s, steps[..n], line);
        StepOfRun(s, steps, n, line);
        FineAssertedExact(FineRun(s, steps[..n], line), steps[n], line);
      }
    }
  }

  /**
  The losing interleaving: a whole signal lands between the two halves of an acknowledge.  The
  device ends up pending with its request gone, both threads idle, and the EOI of the vector
  injects nothing.
   */
  lemma AckRace(s: Fine, line: nat)
    requires line < NUM_PINS && Quiescent(s.path.apic.pins)
    requires s.path.Pending() == {0} && T.DRIVER_OK in s.path.device.status && !s.raising && !s.lowering
    requires s.path.apic.pins[line].irr
    requires s.path.apic.pins[line].entry.level && !s.path.apic.pins[line].entry.masked
    ensures var t := FineRun(s, [AckStatus(1), SignalStatus({0}), SignalLine, AckLine], line);
            && t.path.Pending() == {0} && !t.raising && !t.lowering
            && !t.path.apic.pins[line].irr
            && IoApicRuns.Count(
                 EoiEvents(t.path.apic.pins, t.path.apic.pins[line].entry.vector, NUM_PINS),
                 IoApicRuns.Injection, line) == 0
  {
    hide IoApicSpec.Next, T.Step;
    BitZero();
    hide Bits32;
    var steps := [AckStatus(1), SignalStatus({0}), SignalLine, AckLine];
    assert steps[..3][..2] == steps[..2] && steps[..2][..1] == steps[..1] && steps[..1][..0] == [];
    var t1 := FineNext(s, AckStatus(1), line);
    assert FineRun(s, steps[..1], line) == t1;
    var t2 := FineNext(t1, SignalStatus({0}), line);
    assert FineRun(s, steps[..2], line) == t2;
    var t3 := FineNext(t2, SignalLine, line);
    assert FineRun(s, steps[..3], line) == t3;
    var t := FineNext(t3, AckLine, line);
    assert FineRun(s, steps, line) == t;
    ClearLowers(t3.path.apic, line);
    IoApicRuns.EoiInjections(t.path.apic.pins, t.path.apic.pins[line].entry.vector, NUM_PINS, line);
  }

  lemma BitZero()
    ensures Bits32(1) == {0}
  {
    assert Wide(1) == Mask(0);
    hide Wide, Mask, Bits;
    BitsOfMask(0);
  }

  // The race can be reached

  ghost predicate AllEnabled(s: Fine, steps: seq<FineStep>, line: nat) {
    forall i :: 0 <= i < |steps| ==> EnabledAt(s, steps, i, line)
  }

  lemma Extend(s: Fine, steps: seq<FineStep>, step: FineStep, line: nat)
    requires AllEnabled(s, steps, line) && Enabled(FineRun(s, steps, line), step, line)
    ensures AllEnabled(s, steps + [step], line)
    ensures FineRun(s, steps + [step], line) == FineNext(FineRun(s, steps, line), step, line)
  {
    hide FineNext, Enabled;
    var all := steps + [step];
    assert all[..|steps|] == steps;
    forall i | 0 <= i < |all| ensures EnabledAt(s, all, i, line) {
      if i < |steps| {
        assert EnabledAt(s, steps, i, line) && all[..i] == steps[..i];
      }
    }
  }

  /** The guest routes pin 0: level-triggered, unmasked, vector 0x30. */
  lemma RoutedPin(apic: State) returns (routed: State)
    requires apic == IoApicRuns.Reset()
    ensures routed == IoApicSpec.Next(IoApicSpec.Next(apic, IoApicSpec.Write(IO_REG_SEL, 4, 0x10)).state,
                                      IoApicSpec.Write(IO_WIN, 4, 0x8030)).state
    ensures routed.pins[0].entry.level && !routed.pins[0].entry.masked
  {
    assert LowByte(0x10) as nat == 0x10;
    var selected := IoApicSpec.Next(apic, IoApicSpec.Write(IO_REG_SEL, 4, 0x10)).state;
    assert selected == apic.(selector := 0x10);
    routed := IoApicSpec.Next(selected, IoApicSpec.Write(IO_WIN, 4, 0x8030)).state;
    LevelEntry(apic.pins[0].entry);
    hide WriteLow;
    assert Rewritten(selected.pins, 0x10, 0x8030)[0].entry == FixEdge(WriteLow(apic.pins[0].entry, 0x8030));
  }

  lemma LevelEntry(e: Entry)
    ensures WriteLow(e, 0x8030).level && !WriteLow(e, 0x8030).masked
  {
  }

  /** The driver brings up a fresh device. */
  lemma Launched(device: T.State) returns (up: T.State)
    requires TransportRuns.Initial(device)
    ensures up == T.Step(T.Step(T.Step(T.Step(device, 0x70, 1), 0x70, 3), 0x70, 0xb), 0x70, 0xf)
    ensures T.DRIVER_OK in up.status && up.interruptStatus == {}
  {
    LaunchValue();
    TransportRuns.Negotiated(device);
    hide Bits32, T.Number, T.SetField, T.WithEventIdx, T.NewQueues;
    assert {0, 1, 2, 3} - {0, 1, 3} == {2};
    var three := T.Step(T.Step(T.Step(device, 0x70, 1), 0x70, 3), 0x70, 0xb);
    up := T.Step(three, 0x70, 0xf);
  }

  lemma LaunchValue()
    ensures Bits32(0xf) == {0, 1, 2, 3}
  {
    assert Wide(0xf) == Or(Wide(0xb), Mask(2)) && Wide(0xb) == Wide(0xb);
    TransportRuns.StatusValues();
    hide Wide, Or, Mask, Bits;
    BitsOfOr(Wide(0xb), Mask(2));
    BitsOfMask(2);
  }

  lemma {:induction false} FineRunConcat(s: Fine, a: seq<FineStep>, b: seq<FineStep>, line: nat)
    ensures FineRun(s, a + b, line) == FineRun(FineRun(s, a, line), b, line)
    decreases |b|
  {
    hide FineNext;
    if b == [] {
      assert a + b == a;
    } else {
      assert (a + b)[..|a + b| - 1] == a + b[..|b| - 1];
      FineRunConcat(s, a, b[..|b| - 1], line);
    }
  }

  /** From reset to the race: driver and guest set up device and pin 0, and the worker signals. */
  lemma RaceSetup(s: Fine) returns (steps: seq<FineStep>)
    requires TransportRuns.Initial(s.path.device) && s.path.apic == IoApicRuns.Reset()
    requires !s.raising && !s.lowering
    ensures AllEnabled(s, steps, 0)
    ensures var t := FineRun(s, steps, 0);
            && t.path.Pending() == {0} && T.DRIVER_OK in t.path.device.status && !t.raising && !t.lowering
            && Quiescent(t.path.apic.pins) && t.path.apic.pins[0].irr
            && t.path.apic.pins[0].entry.level && !t.path.apic.pins[0].entry.masked
  {
    hide T.Step, IoApicSpec.Next, Bits32, FineRun, AllEnabled, IoApicRuns.Reset, TransportRuns.Initial, Quiescent;
    var up := Launched(s.path.device);
    var routed := RoutedPin(s.path.apic);
    NoSteps(s);
    steps := [];
    Extend(s, steps, FineStep.Write(0x70, 1), 0);
    steps := steps + [FineStep.Write(0x70, 1)];
    Extend(s, steps, FineStep.Write(0x70, 3), 0);
    steps := steps + [FineStep.Write(0x70, 3)];
    Extend(s, steps, FineStep.Write(0x70, 0xb), 0);
    steps := steps + [FineStep.Write(0x70, 0xb)];
    Extend(s, steps, FineStep.Write(0x70, 0xf), 0);
    steps := steps + [FineStep.Write(0x70, 0xf)];
    assert FineRun(s, steps, 0) == s.(path := Path(up, s.path.apic));
    var select, route := IoApicSpec.Write(IO_REG_SEL, 4, 0x10), IoApicSpec.Write(IO_WIN, 4, 0x8030);
    Extend(s, steps, Other(select), 0);
    steps := steps + [Other(select)];
    Extend(s, steps, Other(route), 0);
    steps := steps + [Other(route)];
    assert FineRun(s, steps, 0) == s.(path := Path(up, routed));
    Extend(s, steps, SignalStatus({0}), 0);
    steps := steps + [SignalStatus({0})];
    Extend(s, steps, SignalLine, 0);
    steps := steps + [SignalLine];
    SetRaises(routed, 0);
    ResetQuiet();
    FineRunQuiet(s, steps, 0);
  }

  lemma ResetQuiet()
    ensures Quiescent(IoApicRuns.Reset().pins)
  {
  }

  lemma NoSteps(s: Fine)
    ensures AllEnabled(s, [], 0) && FineRun(s, [], 0) == s
  {
  }

  /** So a machine fresh from reset can lose an interrupt. */
  lemma RaceReachable(s: Fine) returns (steps: seq<FineStep>)
    requires TransportRuns.Initial(s.path.device) && s.path.apic == IoApicRuns.Reset()
    requires !s.raising && !s.lowering
    ensures AllEnabled(s, steps, 0)
    ensures var t := FineRun(s, steps, 0);
            t.path.Pending() == {0} && !t.raising && !t.lowering && !t.path.apic.pins[0].irr
  {
    hide T.Step, IoApicSpec.Next, Bits32, FineRun, AllEnabled, IoApicRuns.Reset, TransportRuns.Initial, Quiescent;
    steps := RaceSetup(s);
    var u := FineRun(s, steps, 0);
    AckRace(u, 0);
    FineRunConcat(s, steps, [AckStatus(1), SignalStatus({0}), SignalLine, AckLine], 0);
    var first := steps;
    BitZero();
    Extend(s, steps, AckStatus(1), 0);
    steps := steps + [AckStatus(1)];
    Extend(s, steps, SignalStatus({0}), 0);
    steps := steps + [SignalStatus({0})];
    Extend(s, steps, SignalLine, 0);
    steps := steps + [SignalLine];
    Extend(s, steps, AckLine, 0);
    steps := steps + [AckLine];
    assert steps == first + [AckStatus(1), SignalStatus({0}), SignalLine, AckLine];
  }
}
