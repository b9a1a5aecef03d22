/**
From completion to injection: the used ring protocol, the transport and the IOAPIC as one machine.
The device's signal sets InterruptStatus and raises the line; the driver takes the interrupt by
acknowledging all of InterruptStatus.
 */
module EndToEnd {
  import opened RedirectionTable
  import opened IoApicSpec
  import opened BitWords
  import T = TransportSpec
  import P = InterruptPath
  import U = UsedInterrupts

  datatype Whole = Whole(ring: U.State, path: P.Path)

  datatype Step =
    | Ring(step: U.Step)      // completions, decisions, and the driver's reading and arming
    | Signal                  // the worker signals the driver
    | Take(v: bv32)           // the driver takes the interrupt and acknowledges it
    | Chip(op: Op)            // anything else that happens to the IOAPIC

  predicate Enabled(s: Whole, step: Step, line: nat) {
    match step
    case Ring(u) => u != U.Signal && u != U.Interrupted && U.Enabled(s.ring, u)
    case Signal => U.Enabled(s.ring, U.Signal)
    case Take(v) =>
      && U.Enabled(s.ring, U.Interrupted)
      && T.DRIVER_OK in s.path.device.status && s.path.Pending() - Bits32(v) == {}
    case Chip(op) => P.Foreign(op, line)
  }

  function Next(s: Whole, step: Step, line: nat): Whole
    requires Enabled(s, step, line)
  {
    match step
    case Ring(u) => s.(ring := U.Next(s.ring, u))
    case Signal => Whole(U.Next(s.ring, U.Signal), P.Next(s.path, P.Signal({0}), line))
    case Take(v) => Whole(U.Next(s.ring, U.Interrupted), P.Next(s.path, P.Register(0x64, v), line))
    case Chip(op) => s.(path := P.Next(s.path, P.Chip(op), line))
  }

  /** What holds throughout, while the pin stays masked or level-triggered and no decision misses. */
  ghost predicate Inv(s: Whole, line: nat)
    requires line < NUM_PINS
  {
    && U.Coherent(s.ring) && U.WillBeInterrupted(s.ring)
    && P.Sound(s.path, line)
    && (s.ring.interrupt <==> s.path.Pending() != {})
  }

  /** The step neither loses the driver's event index nor leaves the pin unmasked and edge-triggered. */
  predicate Harmless(s: Whole, step: Step, line: nat)
    requires line < NUM_PINS && Enabled(s, step, line)
  {
    && (step.Ring? ==> !U.Misses(s.ring, step.step))
    && P.Routed(Next(s, step, line).path, line)
  }

  lemma PathStep(s: P.Path, step: P.Step, line: nat)
    requires line < NUM_PINS && P.Sound(s, line) && P.Allowed(step, line)
    requires P.Routed(P.Next(s, step, line), line)
    ensures P.Sound(P.Next(s, step, line), line)
  {
    hide P.Next;
    P.AssertedExact(s, step, line);
    P.NextQuiet(s, step, line);
  }

  lemma TakenEmpties(s: P.Path, v: bv32, line: nat)
    requires T.DRIVER_OK in s.device.status && s.Pending() - Bits32(v) == {}
    ensures P.Next(s, P.Register(0x64, v), line).Pending() == {}
  {
    hide Bits32, IoApicSpec.Next;
  }

  lemma SignalPends(s: P.Path, line: nat)
    ensures P.Next(s, P.Signal({0}), line).Pending() != {}
  {
    hide IoApicSpec.Next;
    assert 0 in P.Next(s, P.Signal({0}), line).Pending();
  }

  lemma ChipKeepsPending(s: P.Path, op: Op, line: nat)
    ensures P.Next(s, P.Chip(op), line).Pending() == s.Pending()
  {
    hide IoApicSpec.Next;
  }

  lemma NextInv(s: Whole, step: Step, line: nat)
    requires line < NUM_PINS && Inv(s, line) && Enabled(s, step, line) && Harmless(s, step, line)
    ensures Inv(Next(s, step, line), line)
  {
    hide P.Next, P.Sound, P.Routed, U.Coherent, U.WillBeInterrupted, U.Misses, Bits32;
    match step
    case Ring(u) =>
      U.NextCoherent(s.ring, u);
      U.InterruptExact(s.ring, u);
    case Signal =>
      NoMiss(s.ring, U.Signal);
      U.NextCoherent(s.ring, U.Signal);
      U.InterruptExact(s.ring, U.Signal);
      PathStep(s.path, P.Signal({0}), line);
      SignalPends(s.path, line);
    case Take(v) =>
      NoMiss(s.ring, U.Interrupted);
      U.NextCoherent(s.ring, U.Interrupted);
      U.InterruptExact(s.ring, U.Interrupted);
      PathStep(s.path, P.Register(0x64, v), line);
      TakenEmpties(s.path, v, line);
    case Chip(op) =>
      PathStep(s.path, P.Chip(op), line);
      ChipKeepsPending(s.path, op, line);
  }

  lemma NoMiss(s: U.State, step: U.Step)
    requires step != U.Decide
    ensures !U.Misses(s, step)
  {
  }

  // Runs

  ghost predicate IsRun(states: seq<Whole>, steps: seq<Step>, line: nat)
    requires line < NUM_PINS
  {
    && |states| == |steps| + 1
    && forall i :: 0 <= i < |steps| ==> Moves(states, steps, i, line)
  }

  ghost predicate Moves(states: seq<Whole>, steps: seq<Step>, i: nat, line: nat)
    requires line < NUM_PINS && i < |steps| && i + 1 < |states|
  {
    && Enabled(states[i], steps[i], line)
    && Harmless(states[i], steps[i], line)
    && states[i + 1] == Next(states[i], steps[i], line)
  }

  lemma {:induction false} RunInv(states: seq<Whole>, steps: seq<Step>, line: nat, n: nat)
    requires line < NUM_PINS && IsRun(states, steps, line) && Inv(states[0], line) && n < |states|
    ensures Inv(states[n], line)
    decreases n
  {
    if n > 0 {
      RunInv(states, steps, line, n - 1);
      assert Moves(states, steps, n - 1, line);
      hide Inv, Enabled, Harmless, Next;
      NextInv(states[n - 1], steps[n - 1], line);
    }
  }

  /**
  Whenever the driver sleeps with completions to take and the device has decided about all of them
  and is not about to signal, the device's interrupt is pending, its request is latched and, if
  the pin is unmasked, it is under way: Remote IRR is set.
   */
  lemma CompletionIsInjected(states: seq<Whole>, steps: seq<Step>, line: nat, n: nat)
    requires line < NUM_PINS && IsRun(states, steps, line) && Inv(states[0], line) && n < |states|
    ensures var s := states[n];
            && s.ring.driver == U.Sleeping && !s.ring.signalling
            && s.ring.consumed < s.ring.completed == s.ring.decided ==>
              && s.path.Pending() != {}
              && s.path.apic.pins[line].irr
              && (!s.path.apic.pins[line].entry.masked ==> s.path.apic.pins[line].entry.remoteIrr)
  {
    RunInv(states, steps, line, n);
  }

  /** The invariant holds at the start of a driver's life: nothing completed, nothing pending. */
  lemma StartInv(s: Whole, line: nat)
    requires line < NUM_PINS && U.Initial(s.ring) && s.path.Pending() == {} && Quiescent(s.path.apic.pins)
    ensures Inv(s, line)
  {
  }
}
