/**
The wakeup protocol between the driver and a device worker, step by step.

Driver and worker share the available index, the suppression field of the used ring (the flag,
or `avail_event` with EVENT_IDX) and an auto-reset event.  Each step below is one access to that
shared state, so a run is any sequentially consistent interleaving.  Counters are unbounded;
everything the code compares is their 16-bit image.  Published heads are well-formed.
(VIRTIO 1.1, section 2.6.10.)
 */
module Wakeup {
  import opened Wrapping

  datatype Mode = Flags | EventIdx

  datatype Driver =
    | Idle
    | Filled(batch: nat)  // slots written, index not yet
    | Bumped(from: nat)   // index written, suppression field not yet read
    | Kicking             // notification decided, register not yet written

  datatype Worker =
    | Waiting    // blocked on the event
    | Disabling  // about to suppress notifications
    | Draining   // popping and completing
    | Enabling   // about to re-enable notifications
    | Checking   // about to look at the available index again

  datatype State = State(
    mode: Mode,
    size: nat,
    published: nat,
    popped: nat,
    completed: nat,
    noNotify: bool,
    availEvent: u16,
    event: bool,
    driver: Driver,
    worker: Worker)

  datatype Step =
    | Fill(batch: nat)
    | Bump
    | Decide
    | Kick
    | SpuriousKick
    | Wake
    | Disable
    | Pop
    | Complete
    | Drained
    | Enable
    | Check

  predicate Initial(s: State) {
    && 0 < s.size < 0x8000
    && s == State(s.mode, s.size, 0, 0, 0, false, 0, false, Idle, Waiting)
  }

  /** The driver's side of suppression: does the batch just published need a notification? */
  predicate NeedsKick(s: State, from: nat)
    requires from <= s.published
  {
    match s.mode
    case Flags => !s.noNotify
    case EventIdx => Crossed(s.published, s.availEvent, Wrap(s.published - from))
  }

  /** The worker's test of the ring, on 16-bit images. */
  predicate LooksEmpty(s: State) {
    Wrap(s.published) == Wrap(s.popped)
  }

  predicate Enabled(s: State, step: Step) {
    match step
    case Fill(batch) =>
      s.driver == Idle && 1 <= batch && s.published + batch <= s.completed + s.size
    case Bump => s.driver.Filled?
    case Decide => s.driver.Bumped? && s.driver.from <= s.published
    case Kick => s.driver == Kicking
    case SpuriousKick => true
    case Wake => s.worker == Waiting && s.event
    case Disable => s.worker == Disabling
    case Pop => s.worker == Draining && !LooksEmpty(s)
    case Complete => s.worker == Draining && s.completed < s.popped
    case Drained => s.worker == Draining && LooksEmpty(s)
    case Enable => s.worker == Enabling
    case Check => s.worker == Checking
  }

  function Next(s: State, step: Step): State
    requires Enabled(s, step)
  {
    match step
    case Fill(batch) => s.(driver := Filled(batch))
    case Bump => s.(published := s.published + s.driver.batch, driver := Bumped(s.published))
    case Decide => s.(driver := if NeedsKick(s, s.driver.from) then Kicking else Idle)
    case Kick => s.(event := true, driver := Idle)
    case SpuriousKick => s.(event := true)
    case Wake => s.(event := false, worker := Disabling)
    case Disable => s.(noNotify := s.noNotify || s.mode == Flags, worker := Draining)
    case Pop => s.(popped := s.popped + 1)
    case Complete => s.(completed := s.completed + 1)
    case Drained => s.(worker := Enabling)
    case Enable =>
      if s.mode == EventIdx then s.(availEvent := Wrap(s.popped), worker := Checking)
      else s.(noNotify := false, worker := Checking)
    case Check => s.(worker := if LooksEmpty(s) then Waiting else Disabling)
  }

  /** Ring occupancy, and what the worker has promised while it waits or is about to. */
  predicate Coherent(s: State) {
    && 0 < s.size < 0x8000
    && s.completed <= s.popped <= s.published <= s.completed + s.size
    && (s.driver.Filled? ==>
         1 <= s.driver.batch && s.published + s.driver.batch <= s.completed + s.size)
    && (s.driver.Bumped? ==> s.driver.from < s.published <= s.driver.from + s.size)
    && (s.worker in {Waiting, Checking} ==>
         if s.mode == EventIdx then s.availEvent == Wrap(s.popped) else !s.noNotify)
  }

  /** A sleeping worker with work to do is about to be woken. */
  predicate WillBeWoken(s: State) {
    s.worker == Waiting && s.popped < s.published ==>
      || s.event
      || s.driver == Kicking
      || (s.driver.Bumped? && s.driver.from <= s.popped)
  }

  predicate Inv(s: State) { Coherent(s) && WillBeWoken(s) }

  lemma EmptyExact(s: State)
    requires Coherent(s)
    ensures LooksEmpty(s) <==> s.popped == s.published
  {
    if LooksEmpty(s) {
      WrapInjective(s.published, s.popped);
    }
  }

  /** The decisive step: a batch that covers the worker's position is always notified. */
  lemma DecideKicks(s: State)
    requires Coherent(s) && s.driver.Bumped? && s.worker == Waiting
    requires s.driver.from <= s.popped < s.published
    ensures NeedsKick(s, s.driver.from)
  {
    if s.mode == EventIdx {
      CrossedExact(s.published, s.availEvent, s.published - s.driver.from);
    }
  }

  lemma NextKeepsInv(s: State, step: Step)
    requires Inv(s) && Enabled(s, step)
    ensures Inv(Next(s, step))
  {
    EmptyExact(s);
    if step == Decide && s.worker == Waiting && s.driver.from <= s.popped < s.published {
      DecideKicks(s);
    }
    hide Wrap;
  }

  /** Runs: sequences of states that start initial and move by enabled steps. */
  ghost predicate Behavior(states: seq<State>) {
    && states != []
    && Initial(states[0])
    && forall i :: 0 <= i < |states| - 1 ==> Moves(states, i)
  }

  ghost predicate Moves(states: seq<State>, i: nat)
    requires i < |states| - 1
  {
    exists step :: Enabled(states[i], step) && states[i + 1] == Next(states[i], step)
  }

  lemma {:induction false} BehaviorKeepsInv(states: seq<State>, i: nat)
    requires Behavior(states) && i < |states|
    ensures Inv(states[i])
  {
    if i > 0 {
      BehaviorKeepsInv(states, i - 1);
      assert Moves(states, i - 1);
      var step :| Enabled(states[i - 1], step) && states[i] == Next(states[i - 1], step);
      NextKeepsInv(states[i - 1], step);
    }
  }

  /**
  No lost wakeup: in every reachable state in which the worker sleeps, no event is pending and
  the driver is not between writing the index and notifying, every published chain has been
  popped.  Holds in both suppression modes, for any number of wraps.
   */
  lemma NoLostWakeup(states: seq<State>, i: nat)
    requires Behavior(states) && i < |states|
    ensures var s := states[i];
            s.worker == Waiting && !s.event && (s.driver == Idle || s.driver.Filled?) ==>
              s.popped == s.published && Wrap(s.popped) == Wrap(s.published)
  {
    BehaviorKeepsInv(states, i);
  }

  // Progress of the worker

  predicate WorkerStep(step: Step) {
    step in {Wake, Disable, Pop, Complete, Drained, Enable, Check}
  }

  function Rank(s: State): int {
    8 * (s.published - s.popped) + (s.popped - s.completed) + (if s.event then 10 else 0)
    + (var pending := s.popped < s.published;
       match s.worker
       case Waiting => 0
       case Disabling => 4
       case Draining => 3
       case Enabling => if pending then 6 else 2
       case Checking => if pending then 5 else 1)
  }

  /** Every step of the worker brings it closer to sleep. */
  lemma WorkerProgress(s: State, step: Step)
    requires Inv(s) && Enabled(s, step) && WorkerStep(step)
    ensures 0 <= Rank(Next(s, step)) < Rank(s)
  {
    EmptyExact(s);
    hide Wrap;
  }

  /** The worker is stuck only asleep without an event, so left alone it empties the ring. */
  lemma StuckMeansAsleep(s: State)
    requires Inv(s) && forall step :: WorkerStep(step) ==> !Enabled(s, step)
    ensures s.worker == Waiting && !s.event
    ensures s.driver == Idle || s.driver.Filled? ==> s.popped == s.published
  {
    assert WorkerStep(Wake) && WorkerStep(Disable) && WorkerStep(Pop) && WorkerStep(Drained)
        && WorkerStep(Enable) && WorkerStep(Check);
  }
}

/** The worker's calls on its queue are the worker steps of the machine above. */
module WorkerRefines {
  import opened Wrappers
  import opened Wrapping
  import opened DescriptorChain
  import opened Virtqueue
  import Wakeup

  /** The machine's view of a queue and its rings. */
  ghost function View(q: Queue, mem: Rings, event: bool, driver: Wakeup.Driver, worker: Wakeup.Worker): Wakeup.State
    reads q, mem
  {
    Wakeup.State(if q.eventIdx then Wakeup.EventIdx else Wakeup.Flags, mem.size, |mem.published|, q.popped,
                 |mem.completed|, mem.usedFlags != 0, mem.availEvent, event, driver, worker)
  }

  /** `disable_notification` is the step Disable. */
  method DisableStep(q: Queue, mem: Rings, ghost event: bool, ghost driver: Wakeup.Driver)
    requires q.Valid(mem)
    modifies mem`usedFlags, mem`availEvent
    ensures q.Valid(mem)
    ensures View(q, mem, event, driver, Wakeup.Draining)
         == Wakeup.Next(old(View(q, mem, event, driver, Wakeup.Disabling)), Wakeup.Disable)
  {
    q.SetNotification(mem, false);
  }

  /**
  A pop of a good head is the step Pop, and a pop that finds the ring empty is the step Drained.
  A rejected head, which the machine leaves out, changes nothing.
   */
  method PopStep(q: Queue, mem: Rings, ghost event: bool, ghost driver: Wakeup.Driver) returns (r: Option<Chain>)
    requires q.Valid(mem)
    modifies q`nextAvail, q`popped
    ensures q.Valid(mem)
    ensures var before := old(View(q, mem, event, driver, Wakeup.Draining));
            && (r.Some? ==>
                 && Wakeup.Enabled(before, Wakeup.Pop)
                 && View(q, mem, event, driver, Wakeup.Draining) == Wakeup.Next(before, Wakeup.Pop))
            && (r.None? && q.popped == |mem.published| ==>
                 && Wakeup.Enabled(before, Wakeup.Drained)
                 && View(q, mem, event, driver, Wakeup.Enabling) == Wakeup.Next(before, Wakeup.Drained))
            && (r.None? && q.popped < |mem.published| ==>
                 && !GoodHead(mem.table, q.size, mem.Heads()[q.popped])
                 && View(q, mem, event, driver, Wakeup.Draining) == before)
  {
    EmptyImage(q, mem);
    r := q.Pop(mem);
  }

  lemma EmptyImage(q: Queue, mem: Rings)
    requires q.Valid(mem)
    ensures Wrap(|mem.published|) == Wrap(q.popped) <==> |mem.published| == q.popped
  {
    if Wrap(|mem.published|) == Wrap(q.popped) {
      WrapInjective(|mem.published|, q.popped);
    }
  }

  /** `add_used` of a popped chain is the step Complete. */
  method CompleteStep(q: Queue, mem: Rings, head: nat, len: nat, lands: bool,
                      ghost event: bool, ghost driver: Wakeup.Driver)
    requires q.Valid(mem) && |mem.completed| < q.popped && head < q.size
    modifies q`nextUsed, q`numAdded, mem`usedRing, mem`usedIdx, mem`completed
    ensures q.Valid(mem)
    ensures var before := old(View(q, mem, event, driver, Wakeup.Draining));
            && Wakeup.Enabled(before, Wakeup.Complete)
            && View(q, mem, event, driver, Wakeup.Draining) == Wakeup.Next(before, Wakeup.Complete)
  {
    var ok := q.AddUsed(mem, head, len, lands);
  }

  /** The first half of `enable_notification` is the step Enable. */
  method EnableStep(q: Queue, mem: Rings, ghost event: bool, ghost driver: Wakeup.Driver)
    requires q.Valid(mem)
    modifies mem`usedFlags, mem`availEvent
    ensures q.Valid(mem)
    ensures View(q, mem, event, driver, Wakeup.Checking)
         == Wakeup.Next(old(View(q, mem, event, driver, Wakeup.Enabling)), Wakeup.Enable)
  {
    q.SetNotification(mem, true);
  }

  /** Its second half, after any step of the driver, is the step Check. */
  method CheckStep(q: Queue, mem: Rings, ghost event: bool, ghost driver: Wakeup.Driver) returns (more: bool)
    requires q.Valid(mem)
    ensures View(q, mem, event, driver, if more then Wakeup.Disabling else Wakeup.Waiting)
         == Wakeup.Next(View(q, mem, event, driver, Wakeup.Checking), Wakeup.Check)
  {
    EmptyImage(q, mem);
    more := q.LooksAgain(mem);
  }

  /** The driver's ring write is the step Fill followed by the step Bump. */
  method PublishStep(q: Queue, mem: Rings, head: nat, ghost event: bool, ghost worker: Wakeup.Worker)
    requires q.Valid(mem) && |mem.published| < |mem.completed| + mem.size
    modifies mem`availRing, mem`availIdx, mem`published
    ensures q.Valid(mem)
    ensures var before := old(View(q, mem, event, Wakeup.Idle, worker));
            && Wakeup.Enabled(before, Wakeup.Fill(1))
            && View(q, mem, event, Wakeup.Bumped(old(|mem.published|)), worker)
               == Wakeup.Next(Wakeup.Next(before, Wakeup.Fill(1)), Wakeup.Bump)
  {
    mem.Publish(head);
  }
}

/**
The other direction: completions, the device's decision to interrupt, and a driver that sleeps
until it is interrupted.  The driver follows section 2.6.7 of VIRTIO 1.1: it writes the index it
has read up to into `used_event` and looks at the used index once more before it sleeps.
 */
module UsedInterrupts {
  import opened Wrapping

  datatype Driver =
    | Sleeping    // until the next interrupt, or until it looks by itself
    | Reading     // taking completions
    | Arming      // about to write used_event
    | Rechecking  // about to look at the used index again

  /** `decided` is the used index at the device's last decision. */
  datatype State = State(
    eventIdx: bool, size: nat, completed: nat, consumed: nat, decided: nat, usedEvent: u16,
    signalling: bool, interrupt: bool, driver: Driver)

  datatype Step =
    | Complete | Decide | Signal                      // device
    | Interrupted | Look | Consume | Drained | Arm | Recheck  // driver

  predicate Initial(s: State) {
    && 0 < s.size < 0x8000
    && s == State(s.eventIdx, s.size, 0, 0, 0, 0, false, false, Reading)
  }

  /** `needs_notification`. */
  predicate Notifies(s: State)
    requires s.decided <= s.completed
  {
    !s.eventIdx || Crossed(s.completed, s.usedEvent, Wrap(s.completed - s.decided))
  }

  predicate LooksEmpty(s: State) { Wrap(s.completed) == Wrap(s.consumed) }

  predicate Enabled(s: State, step: Step) {
    match step
    case Complete => !s.signalling && s.completed < s.consumed + s.size
    case Decide => !s.signalling && s.decided < s.completed
    case Signal => s.signalling
    case Interrupted => s.driver == Sleeping && s.interrupt
    case Look => s.driver == Sleeping
    case Consume => s.driver == Reading && !LooksEmpty(s)
    case Drained => s.driver == Reading && LooksEmpty(s)
    case Arm => s.driver == Arming
    case Recheck => s.driver == Rechecking
  }

  function Next(s: State, step: Step): State
    requires Enabled(s, step)
  {
    match step
    case Complete => s.(completed := s.completed + 1)
    case Decide => s.(decided := s.completed, signalling := Notifies(s))
    case Signal => s.(signalling := false, interrupt := true)
    case Interrupted => s.(interrupt := false, driver := Reading)
    case Look => s.(driver := Reading)
    case Consume => s.(consumed := s.consumed + 1)
    case Drained => s.(driver := Arming)
    case Arm => s.(usedEvent := Wrap(s.consumed), driver := Rechecking)
    case Recheck => s.(driver := if LooksEmpty(s) then Sleeping else Reading)
  }

  predicate Coherent(s: State) {
    && 0 < s.size < 0x8000
    && s.consumed <= s.completed <= s.consumed + s.size
    && s.decided <= s.completed
    && (s.driver in {Sleeping, Rechecking} ==> s.usedEvent == Wrap(s.consumed))
  }

  /** A sleeping driver with completions to take is about to be interrupted. */
  predicate WillBeInterrupted(s: State) {
    s.driver == Sleeping && s.consumed < s.completed ==>
      s.interrupt || s.signalling || s.decided <= s.consumed
  }

  lemma EmptyExact(s: State)
    requires Coherent(s)
    ensures LooksEmpty(s) <==> s.consumed == s.completed
  {
    if LooksEmpty(s) {
      WrapInjective(s.completed, s.consumed);
    }
  }

  /**
  The decision that loses an interrupt: it would cover the position the driver sleeps at, but the
  16-bit count of the batch has wrapped to less than what is needed to reach it.
   */
  predicate Misses(s: State, step: Step) {
    && step == Decide && s.eventIdx && s.driver == Sleeping && !s.interrupt
    && s.decided <= s.consumed < s.completed
    && s.completed - s.consumed > Wrap(s.completed - s.decided)
  }

  lemma ReachesBack(s: State)
    requires Coherent(s) && s.driver == Sleeping && s.decided <= s.consumed < s.completed
    ensures Notifies(s) <==> !s.eventIdx || s.completed - s.consumed <= Wrap(s.completed - s.decided)
  {
    var added := Wrap(s.completed - s.decided);
    CrossedExact(s.completed, s.usedEvent, added);
    if k :| s.completed - added <= k < s.completed && Wrap(k) == s.usedEvent {
      if added <= s.size {
        WrapInjective(k, s.consumed);
      }
    }
    if s.completed - s.consumed <= added {
      assert s.completed - added <= s.consumed < s.completed;
    }
  }

  lemma NextCoherent(s: State, step: Step)
    requires Coherent(s) && Enabled(s, step)
    ensures Coherent(Next(s, step))
  {
    EmptyExact(s);
    hide Wrap;
  }

  /** From a state in which nothing is lost, a step loses an interrupt exactly as said. */
  lemma InterruptExact(s: State, step: Step)
    requires Coherent(s) && WillBeInterrupted(s) && Enabled(s, step)
    ensures WillBeInterrupted(Next(s, step)) <==> !Misses(s, step)
  {
    EmptyExact(s);
    if step == Decide && s.driver == Sleeping && s.decided <= s.consumed < s.completed {
      ReachesBack(s);
    }
    hide Wrap;
  }

  /** A batch shorter than 2^16 never misses. */
  lemma ShortBatches(s: State, step: Step)
    requires s.completed - s.decided < M
    ensures !Misses(s, step)
  {
  }

  // Runs

  function Run(s: State, steps: seq<Step>): (t: State)
    requires Feasible(s, steps)
    decreases |steps|, 1
  {
    if steps == [] then s else Next(Run(s, steps[..|steps| - 1]), steps[|steps| - 1])
  }

  predicate Feasible(s: State, steps: seq<Step>)
    decreases |steps|, 0
  {
    steps != [] ==>
      var n := |steps| - 1;
      Feasible(s, steps[..n]) && Enabled(Run(s, steps[..n]), steps[n])
  }

  lemma {:induction false} FeasiblePrefix(s: State, steps: seq<Step>, n: nat)
    requires Feasible(s, steps) && n <= |steps|
    ensures Feasible(s, steps[..n])
    decreases |steps|
  {
    if n < |steps| {
      FeasiblePrefix(s, steps[..|steps| - 1], n);
      assert steps[..|steps| - 1][..n] == steps[..n];
    } else {
      assert steps[..n] == steps;
    }
  }

  ghost predicate MissesAt(s: State, steps: seq<Step>, n: nat)
    requires n < |steps|
  {
    Feasible(s, steps[..n]) && Misses(Run(s, steps[..n]), steps[n])
  }

  ghost predicate SafeAt(s: State, steps: seq<Step>, n: nat)
    requires n <= |steps|
  {
    Feasible(s, steps[..n]) && WillBeInterrupted(Run(s, steps[..n]))
  }

  lemma {:induction false} RunCoherent(s: State, steps: seq<Step>)
    requires Initial(s) && Feasible(s, steps)
    ensures Coherent(Run(s, steps))
    decreases |steps|
  {
    if steps != [] {
      var n := |steps| - 1;
      RunCoherent(s, steps[..n]);
      hide Next, Enabled, Coherent;
      NextCoherent(Run(s, steps[..n]), steps[n]);
    }
  }

  lemma RunStep(s: State, steps: seq<Step>, n: nat)
    requires Initial(s) && Feasible(s, steps) && n < |steps|
    ensures Feasible(s, steps[..n]) && Feasible(s, steps[..n + 1])
    ensures var u := Run(s, steps[..n]);
            Coherent(u) && Enabled(u, steps[n]) && Run(s, steps[..n + 1]) == Next(u, steps[n])
  {
    FeasiblePrefix(s, steps, n);
    FeasiblePrefix(s, steps, n + 1);
    assert steps[..n + 1][..n] == steps[..n];
    RunCoherent(s, steps[..n]);
  }

  lemma {:induction false} SafeUpTo(s: State, steps: seq<Step>, n: nat)
    requires Initial(s) && Feasible(s, steps) && n <= |steps|
    requires forall i :: 0 <= i < n ==> !MissesAt(s, steps, i)
    ensures SafeAt(s, steps, n)
    decreases n
  {
    if n > 0 {
      SafeUpTo(s, steps, n - 1);
      RunStep(s, steps, n - 1);
      assert !MissesAt(s, steps, n - 1);
      hide Run, Next, Enabled, Feasible, Coherent, WillBeInterrupted, Misses;
      InterruptExact(Run(s, steps[..n - 1]), steps[n - 1]);
    }
  }

  /** Over whole runs: interrupts are never lost if and only if no decision misses. */
  lemma LostExact(s: State, steps: seq<Step>)
    requires Initial(s) && Feasible(s, steps)
    ensures (forall n :: 0 <= n <= |steps| ==> SafeAt(s, steps, n))
       <==> (forall n :: 0 <= n < |steps| ==> !MissesAt(s, steps, n))
  {
    hide Run, Next, Enabled, Feasible, Coherent, WillBeInterrupted, Misses;
    if forall n :: 0 <= n < |steps| ==> !MissesAt(s, steps, n) {
      forall n | 0 <= n <= |steps| ensures SafeAt(s, steps, n) {
        SafeUpTo(s, steps, n);
      }
    }
    if forall n :: 0 <= n <= |steps| ==> SafeAt(s, steps, n) {
      forall n | 0 <= n < |steps| ensures !MissesAt(s, steps, n) {
        assert SafeAt(s, steps, n) && SafeAt(s, steps, n + 1);
        RunStep(s, steps, n);
        InterruptExact(Run(s, steps[..n]), steps[n]);
      }
    }
  }

  /** Every decision of the run is about fewer than 2^16 completions. */
  ghost predicate ShortAt(s: State, steps: seq<Step>, n: nat)
    requires n < |steps|
  {
    Feasible(s, steps[..n]) && Run(s, steps[..n]).completed - Run(s, steps[..n]).decided < M
  }

  /**
  No lost interrupt: with batches below 2^16, whenever the driver sleeps, no interrupt is pending
  or on its way and the device has decided about everything it completed, the driver has taken
  every completion.
   */
  lemma NoLostInterrupt(s: State, steps: seq<Step>)
    requires Initial(s) && Feasible(s, steps)
    requires forall n :: 0 <= n < |steps| && steps[n] == Decide ==> ShortAt(s, steps, n)
    ensures var t := Run(s, steps);
            t.driver == Sleeping && !t.interrupt && !t.signalling && t.decided == t.completed ==>
              t.consumed == t.completed
  {
    forall n | 0 <= n < |steps| ensures !MissesAt(s, steps, n) {
      if steps[n] == Decide {
        assert ShortAt(s, steps, n);
        ShortBatches(Run(s, steps[..n]), steps[n]);
      }
    }
    SafeUpTo(s, steps, |steps|);
    assert steps[..|steps|] == steps;
    RunCoherent(s, steps);
  }

  // A batch that is too long

  lemma Extend(s: State, steps: seq<Step>, step: Step)
    requires Feasible(s, steps) && Enabled(Run(s, steps), step)
    ensures Feasible(s, steps + [step]) && Run(s, steps + [step]) == Next(Run(s, steps), step)
  {
    assert (steps + [step])[..|steps|] == steps;
  }

  /** The driver can take `k` completions by looking while the device decides nothing. */
  lemma {:induction false} LongBatch(s: State, k: nat) returns (steps: seq<Step>)
    requires Initial(s)
    ensures Feasible(s, steps) && Run(s, steps) == s.(completed := k, consumed := k)
  {
    if k == 0 {
      steps := [];
    } else {
      var before := LongBatch(s, k - 1);
      Extend(s, before, Complete);
      var t := Run(s, before + [Complete]);
      WrapInjectiveStep(k);
      Extend(s, before + [Complete], Consume);
      steps := before + [Complete] + [Consume];
    }
  }

  lemma WrapInjectiveStep(k: nat)
    requires k > 0
    ensures Wrap(k) != Wrap(k - 1)
  {
    if Wrap(k) == Wrap(k - 1) {
      WrapInjective(k, k - 1);
    }
  }

  /**
  A run that loses an interrupt: 2^16 + 1 completions in one batch, of which the driver sleeps
  before the last two.  The device has decided, nothing is on its way, and two are left.
   */
  lemma LongBatchLoses(s: State) returns (steps: seq<Step>)
    requires Initial(s) && s.eventIdx && s.size >= 2
    ensures Feasible(s, steps)
    ensures var t := Run(s, steps);
            && t.driver == Sleeping && !t.interrupt && !t.signalling && t.decided == t.completed
            && t.consumed + 2 == t.completed
  {
    var first := LongBatch(s, M - 1);
    Extend(s, first, Drained);
    Extend(s, first + [Drained], Arm);
    var armed := first + [Drained] + [Arm];
    Extend(s, armed, Recheck);
    var asleep := armed + [Recheck];
    Extend(s, asleep, Complete);
    Extend(s, asleep + [Complete], Complete);
    steps := asleep + [Complete] + [Complete];
    var u := Run(s, steps);
    assert u.completed == M + 1 && u.consumed == M - 1 && u.decided == 0 && u.driver == Sleeping;
    ReachesBack(u);
    Extend(s, steps, Decide);
    steps := steps + [Decide];
  }
}

/** The device's calls on its queue are the device steps of the machine above. */
module DeviceRefines {
  import opened Wrapping
  import opened Virtqueue
  import U = UsedInterrupts

  /** The machine's view of a queue with EVENT_IDX, and of a driver that took `consumed` completions. */
  ghost function View(q: Queue, mem: Rings, consumed: nat, signalling: bool, interrupt: bool, driver: U.Driver): U.State
    reads q, mem
  {
    U.State(true, mem.size, |mem.completed|, consumed, q.notified, mem.usedEvent, signalling, interrupt, driver)
  }

  /** `add_used` is the step Complete, as long as the driver has not more than a ring to take. */
  method CompleteStep(q: Queue, mem: Rings, head: nat, len: nat, lands: bool,
                      ghost consumed: nat, ghost interrupt: bool, ghost driver: U.Driver)
    requires q.Counts(mem) && head < q.size && |mem.completed| < consumed + mem.size
    modifies q`nextUsed, q`numAdded, mem`usedRing, mem`usedIdx, mem`completed
    ensures q.Counts(mem)
    ensures var before := old(View(q, mem, consumed, false, interrupt, driver));
            && U.Enabled(before, U.Complete)
            && View(q, mem, consumed, false, interrupt, driver) == U.Next(before, U.Complete)
  {
    var ok := q.AddUsed(mem, head, len, lands);
  }

  /** `needs_notification` is the step Decide, for batches of every length. */
  method DecideStep(q: Queue, mem: Rings, ghost consumed: nat, ghost interrupt: bool, ghost driver: U.Driver)
    returns (signal: bool)
    requires q.Valid(mem) && q.eventIdx && q.notified < |mem.completed|
    modifies q`numAdded, q`notified
    ensures q.Valid(mem)
    ensures var before := old(View(q, mem, consumed, false, interrupt, driver));
            && U.Enabled(before, U.Decide)
            && View(q, mem, consumed, signal, interrupt, driver) == U.Next(before, U.Decide)
  {
    signal := q.NeedsNotification(mem);
  }
}
