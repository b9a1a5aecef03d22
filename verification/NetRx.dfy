/** Frames on their way to the guest: every interleaving of the reader thread and the worker. */
module RxRuns {

  /**
  Frames are known by their place in `read`, the list of all frames read so far.  `pending` is
  shared with the reader thread; `hand` is what the worker drained and has not dealt with yet;
  `served` lists the frames it delivered or dropped, in the order it did so.
   */
  datatype State<F> = State(read: seq<F>, pending: seq<nat>, working: bool, hand: seq<nat>,
                            served: seq<nat>, delivered: seq<nat>, dropped: seq<nat>)
  {
    function Log(): seq<nat> { served + hand + pending }

    /** Frames leave, and wait, in the order they were read. */
    predicate InOrder() {
      |Log()| == |read| && forall i :: 0 <= i < |read| ==> Log()[i] == i
    }

    predicate Inv() {
      && Below(Log(), |read|)
      && (forall i, j :: 0 <= i < |hand| && 0 <= j < |pending| ==> hand[i] < pending[j])
      && (!working ==> hand == [])
    }

    /** Every frame read was delivered, was dropped, is in hand or is pending. */
    ghost predicate Conserved() {
      && Below(delivered, |read|) && Below(dropped, |read|) && Below(hand, |read|) && Below(pending, |read|)
      && multiset(read) == Bag(read, delivered) + Bag(read, dropped) + Bag(read, hand) + Bag(read, pending)
    }
  }

  predicate Below(at: seq<nat>, n: nat) {
    forall i :: 0 <= i < |at| ==> at[i] < n
  }

  lemma BelowParts(a: seq<nat>, b: seq<nat>, c: seq<nat>, n: nat)
    ensures Below(a + b + c, n) <==> Below(a, n) && Below(b, n) && Below(c, n)
  {
    var all := a + b + c;
    assert forall i :: 0 <= i < |a| ==> all[i] == a[i];
    assert forall i :: 0 <= i < |b| ==> all[|a| + i] == b[i];
    assert forall i :: 0 <= i < |c| ==> all[|a| + |b| + i] == c[i];
  }

  function Frames<F>(read: seq<F>, at: seq<nat>): seq<F>
    requires Below(at, |read|)
  {
    seq(|at|, i requires 0 <= i < |at| => read[at[i]])
  }

  ghost function Bag<F>(read: seq<F>, at: seq<nat>): multiset<F>
    requires Below(at, |read|)
  {
    multiset(Frames(read, at))
  }

  function Start<F>(): State<F> { State([], [], false, [], [], [], []) }

  datatype Step<F> = Push(frame: F)           // the reader thread queues a frame
                   | Drain                    // the worker takes all that is pending
                   | Serve(delivered: bool)   // the worker deals with the first frame in hand
                   | Requeue                  // no buffer: the rest goes back behind `pending`
                   | Finish                   // nothing left in hand

  predicate Enabled<F>(s: State<F>, step: Step<F>) {
    match step
    case Push(_) => true
    case Drain => !s.working && s.pending != []
    case Serve(_) => s.working && s.hand != []
    case Requeue => s.working && s.hand != []
    case Finish => s.working && s.hand == []
  }

  /** A step that is not enabled does nothing. */
  function Next<F>(s: State<F>, step: Step<F>): State<F> {
    if !Enabled(s, step) then s
    else
      match step
      case Push(f) => s.(read := s.read + [f], pending := s.pending + [|s.read|])
      case Drain => s.(working := true, hand := s.pending, pending := [])
      case Serve(ok) =>
        var t := s.(served := s.served + [s.hand[0]], hand := s.hand[1..]);
        if ok then t.(delivered := s.delivered + [s.hand[0]]) else t.(dropped := s.dropped + [s.hand[0]])
      case Requeue => s.(working := false, pending := s.pending + s.hand, hand := [])
      case Finish => s.(working := false)
  }

  function RunFrom<F>(s: State<F>, steps: seq<Step<F>>): State<F> {
    if steps == [] then s else Next(RunFrom(s, steps[..|steps| - 1]), steps[|steps| - 1])
  }

  /** The state after any interleaving of reader and worker steps. */
  function Run<F>(steps: seq<Step<F>>): State<F> { RunFrom(Start(), steps) }

  lemma InvStep<F>(s: State<F>, step: Step<F>)
    requires s.Inv()
    ensures Next(s, step).Inv()
  {
    var t := Next(s, step);
    BelowParts(s.served, s.hand, s.pending, |s.read|);
    BelowParts(t.served, t.hand, t.pending, |t.read|);
  }

  lemma BagAppend<F>(read: seq<F>, a: seq<nat>, b: seq<nat>)
    requires Below(a, |read|) && Below(b, |read|)
    ensures Below(a + b, |read|) && Bag(read, a + b) == Bag(read, a) + Bag(read, b)
  {
    assert Frames(read, a + b) == Frames(read, a) + Frames(read, b);
  }

  lemma BagGrow<F>(read: seq<F>, f: F, a: seq<nat>)
    requires Below(a, |read|)
    ensures Below(a, |read + [f]|) && Bag(read + [f], a) == Bag(read, a)
  {
    assert Frames(read + [f], a) == Frames(read, a);
  }

  lemma ConservedStep<F>(s: State<F>, step: Step<F>)
    requires s.Conserved()
    requires !s.working ==> s.hand == []
    ensures Next(s, step).Conserved()
  {
    hide Bag;
    if !Enabled(s, step) {
      return;
    }
    match step
    case Push(f) =>
      var read, last := s.read + [f], [|s.read|];
      BagGrow(s.read, f, s.delivered);
      BagGrow(s.read, f, s.dropped);
      BagGrow(s.read, f, s.hand);
      BagGrow(s.read, f, s.pending);
      BagAppend(read, s.pending, last);
      BagOne(read, |s.read|);
    case Drain => BagNone(s.read);
    case Serve(ok) =>
      var first, rest := [s.hand[0]], s.hand[1..];
      assert s.hand == first + rest && Below(first, |s.read|) && Below(rest, |s.read|);
      BagAppend(s.read, first, rest);
      BagAppend(s.read, s.delivered, first);
      BagAppend(s.read, s.dropped, first);
    case Requeue =>
      BagAppend(s.read, s.pending, s.hand);
      BagNone(s.read);
    case Finish =>
  }

  lemma BagNone<F>(read: seq<F>)
    ensures Bag(read, []) == multiset{}
  {
  }

  lemma BagOne<F>(read: seq<F>, i: nat)
    requires i < |read|
    ensures Bag(read, [i]) == multiset{read[i]}
  {
    assert Frames(read, [i]) == [read[i]];
  }

  /** Two frames that change places stay that way. */
  predicate Inverted<F>(s: State<F>) {
    exists i, j :: 0 <= i < j < |s.Log()| && s.Log()[i] > s.Log()[j]
  }

  /** The one step that disorders frames: a re-queue behind frames read in the meantime. */
  predicate Overtakes<F>(s: State<F>, step: Step<F>) {
    step.Requeue? && s.pending != []
  }

  /** The re-queue keeps the order exactly when nothing was read since the drain. */
  lemma OrderStep<F>(s: State<F>, step: Step<F>)
    requires s.Inv()
    ensures Enabled(s, step) && Overtakes(s, step) ==> Inverted(Next(s, step))
    ensures s.InOrder() && !(Enabled(s, step) && Overtakes(s, step)) ==> Next(s, step).InOrder()
    ensures Inverted(s) ==> Inverted(Next(s, step))
  {
    var t := Next(s, step);
    if Enabled(s, step) && step.Requeue? {
      if s.pending != [] {
        RequeueInverts(s);
      } else {
        assert t.Log() == s.Log();
      }
    } else if Enabled(s, step) && step.Push? {
      assert t.Log() == s.Log() + [|s.read|];
      if i, j :| 0 <= i < j < |s.Log()| && s.Log()[i] > s.Log()[j] {
        assert t.Log()[i] > t.Log()[j];
      }
    } else {
      assert Enabled(s, step) && step.Serve? ==> s.hand == [s.hand[0]] + s.hand[1..];
      assert t.Log() == s.Log();
    }
  }

  lemma RequeueInverts<F>(s: State<F>)
    requires s.Inv() && Enabled(s, Requeue) && s.pending != []
    ensures Inverted(Next(s, Requeue))
  {
    var t := Next(s, Requeue);
    var i, j := |s.served|, |s.served| + |s.pending|;
    assert t.Log()[i] == s.pending[0] && t.Log()[j] == s.hand[0];
    assert s.hand[0] in s.hand && s.pending[0] in s.pending;
  }

  lemma {:induction false} RunInv<F>(steps: seq<Step<F>>)
    ensures Run(steps).Inv()
  {
    if steps != [] {
      RunInv(steps[..|steps| - 1]);
      InvStep(Run(steps[..|steps| - 1]), steps[|steps| - 1]);
    }
  }

  /** No interleaving loses or duplicates a frame. */
  lemma {:induction false} FramesConserved<F>(steps: seq<Step<F>>)
    ensures Run(steps).Conserved()
  {
    if steps != [] {
      var n := |steps| - 1;
      FramesConserved(steps[..n]);
      RunInv(steps[..n]);
      ConservedStep(Run(steps[..n]), steps[n]);
    }
  }

  predicate OvertakesAt<F>(steps: seq<Step<F>>, k: nat)
    requires k < |steps|
  {
    Enabled(Run(steps[..k]), steps[k]) && Overtakes(Run(steps[..k]), steps[k])
  }

  /**
  Order over whole runs: frames are in the order they were read if and only if no re-queue
  found a frame that had been read since the drain before it.
   */
  lemma {:induction false} OrderExact<F>(steps: seq<Step<F>>)
    ensures Run(steps).InOrder() <==> forall k :: 0 <= k < |steps| ==> !OvertakesAt(steps, k)
    ensures Run(steps).InOrder() || Inverted(Run(steps))
  {
    if steps != [] {
      var n := |steps| - 1;
      var front := steps[..n];
      OrderExact(front);
      RunInv(front);
      OrderStep(Run(front), steps[n]);
      forall k {:trigger OvertakesAt(front, k)} {:trigger OvertakesAt(steps, k)} | 0 <= k < n
        ensures OvertakesAt(steps, k) == OvertakesAt(front, k)
      {
        assert steps[..k] == front[..k];
      }
      assert OvertakesAt(steps, n) == (Enabled(Run(front), steps[n]) && Overtakes(Run(front), steps[n]));
      NotBoth(Run(steps));
    }
  }

  /** A run that disorders two frames: the second is read between the drain and the re-queue. */
  lemma OvertakingRun<F>(a: F, b: F)
    ensures Run([Push(a), Drain, Push(b), Requeue]).pending == [1, 0]
    ensures !Run([Push(a), Drain, Push(b), Requeue]).InOrder()
  {
    hide RunFrom;
    var steps := [Push(a), Drain, Push(b), Requeue];
    assert steps[..3][..2] == steps[..2] && steps[..2][..1] == steps[..1] && steps[..1] == [Push(a)];
    RunOne(Start(), Push(a));
    RunLast(steps[..2]);
    RunLast(steps[..3]);
    RunLast(steps);
    var t := Run(steps);
    assert t.served == [] && t.hand == [] && t.pending == [1] + [0];
    assert t.Log() == [1, 0] && |t.read| == 2;
    assert t.Log()[0] == 1;
  }

  lemma RunLast<F>(steps: seq<Step<F>>)
    requires steps != []
    ensures Run(steps) == Next(Run(steps[..|steps| - 1]), steps[|steps| - 1])
  {
  }

  lemma NotBoth<F>(s: State<F>)
    ensures !(s.InOrder() && Inverted(s))
  {
  }

  // One round of the worker as a run

  function Pushes<F>(frames: seq<F>): seq<Step<F>> {
    seq(|frames|, i requires 0 <= i < |frames| => Push(frames[i]))
  }

  function Serves<F>(oks: seq<bool>): seq<Step<F>> {
    seq(|oks|, i requires 0 <= i < |oks| => Serve(oks[i]))
  }

  lemma {:induction false} RunConcat<F>(s: State<F>, a: seq<Step<F>>, b: seq<Step<F>>)
    ensures RunFrom(s, a + b) == RunFrom(RunFrom(s, a), b)
    decreases |b|
  {
    if b == [] {
      assert a + b == a;
    } else {
      var n := |b| - 1;
      assert (a + b)[..|a + b| - 1] == a + b[..n];
      RunConcat(s, a, b[..n]);
    }
  }

  lemma {:induction false} PushAll<F>(s: State<F>, frames: seq<F>)
    requires Below(s.pending, |s.read|)
    ensures var t := RunFrom(s, Pushes(frames));
            && t == s.(read := s.read + frames, pending := t.pending)
            && |t.pending| == |s.pending| + |frames|
            && Below(t.pending, |t.read|)
            && Frames(t.read, t.pending) == Frames(s.read, s.pending) + frames
    decreases |frames|
  {
    if frames == [] {
      assert s.read + frames == s.read;
      assert Frames(s.read, s.pending) + frames == Frames(s.read, s.pending);
    } else {
      var n := |frames| - 1;
      PushAll(s, frames[..n]);
      assert Pushes(frames)[..n] == Pushes(frames[..n]);
      assert s.read + frames == (s.read + frames[..n]) + [frames[n]];
      var u := RunFrom(s, Pushes(frames[..n]));
      assert Frames(u.read + [frames[n]], u.pending + [|u.read|]) == Frames(u.read, u.pending) + [frames[n]];
      assert Frames(s.read, s.pending) + frames == (Frames(s.read, s.pending) + frames[..n]) + [frames[n]];
    }
  }

  /** The frames taken whose outcome is `ok`, in order. */
  function Picked(taken: seq<nat>, oks: seq<bool>, ok: bool): seq<nat>
    requires |oks| <= |taken|
  {
    if oks == [] then []
    else
      var n := |oks| - 1;
      Picked(taken, oks[..n], ok) + if oks[n] == ok then [taken[n]] else []
  }

  lemma {:induction false} ServeAll<F>(s: State<F>, oks: seq<bool>)
    requires s.working && |oks| <= |s.hand|
    ensures var t := RunFrom(s, Serves(oks));
            && t.working && t.read == s.read && t.pending == s.pending
            && t.hand == s.hand[|oks|..] && t.served == s.served + s.hand[..|oks|]
            && t.delivered == s.delivered + Picked(s.hand, oks, true)
            && t.dropped == s.dropped + Picked(s.hand, oks, false)
    decreases |oks|
  {
    if oks == [] {
      assert s.hand[0..] == s.hand && s.served + s.hand[..0] == s.served;
      assert s.delivered + [] == s.delivered && s.dropped + [] == s.dropped;
    } else {
      var n := |oks| - 1;
      ServeAll(s, oks[..n]);
      assert s.delivered + Picked(s.hand, oks[..n], true) + [s.hand[n]]
          == s.delivered + (Picked(s.hand, oks[..n], true) + [s.hand[n]]);
      assert s.dropped + Picked(s.hand, oks[..n], false) + [s.hand[n]]
          == s.dropped + (Picked(s.hand, oks[..n], false) + [s.hand[n]]);
      assert Serves<F>(oks)[..n] == Serves<F>(oks[..n]);
      assert s.served + s.hand[..n + 1] == (s.served + s.hand[..n]) + [s.hand[n]];
      assert s.hand[n..][0] == s.hand[n] && s.hand[n..][1..] == s.hand[n + 1..];
    }
  }

  /** A drain, what the reader thread queues meanwhile, the frames served, and the end of the round. */
  function Round<F>(arrivals: seq<F>, oks: seq<bool>, last: Step<F>): seq<Step<F>> {
    [Drain] + Pushes(arrivals) + Serves(oks) + [last]
  }

  /**
  A round of the worker is a run: the frames not served end up behind the arrivals, and those
  served are the oldest ones taken.
   */
  lemma RoundIsRun<F>(s: State<F>, arrivals: seq<F>, oks: seq<bool>)
    requires s.Inv() && !s.working && s.pending != [] && |oks| <= |s.pending|
    ensures var last := if |oks| == |s.pending| then Finish else Requeue;
            var t := RunFrom(s, Round(arrivals, oks, last));
            && !t.working && t.read == s.read + arrivals
            && t.served == s.served + s.pending[..|oks|]
            && t.delivered == s.delivered + Picked(s.pending, oks, true)
            && t.dropped == s.dropped + Picked(s.pending, oks, false)
            && Below(s.pending, |s.read|) && Below(t.pending, |t.read|)
            && Frames(t.read, t.pending) == arrivals + Frames(s.read, s.pending)[|oks|..]
  {
    hide RunFrom, Pushes, Serves, Frames, Below, Round, Picked;
    BelowParts(s.served, s.hand, s.pending, |s.read|);
    var last := if |oks| == |s.pending| then Finish else Requeue;
    var a := Next(s, Drain);
    assert a == s.(working := true, hand := s.pending, pending := []);
    NothingBelow(s.read);
    PushAll(a, arrivals);
    var b := RunFrom(a, Pushes(arrivals));
    assert [] + arrivals == arrivals;
    ServeAll(b, oks);
    var c := RunFrom(b, Serves(oks));
    RoundLeaves(s.read, arrivals, b.pending, s.pending, |oks|);
    RoundSplit(s, arrivals, oks, last);
    RoundEnds(c, last);
    assert last.Finish? ==> b.pending + s.pending[|oks|..] == b.pending;
  }

  lemma NothingBelow<F>(read: seq<F>)
    ensures Below([], |read|) && Frames(read, []) == []
  {
  }

  lemma RoundEnds<F>(c: State<F>, last: Step<F>)
    requires c.working && last == if c.hand == [] then Finish else Requeue
    ensures var t := Next(c, last);
            && !t.working && t.read == c.read && t.served == c.served
            && t.delivered == c.delivered && t.dropped == c.dropped
            && t.pending == if c.hand == [] then c.pending else c.pending + c.hand
  {
  }

  lemma RoundSplit<F>(s: State<F>, arrivals: seq<F>, oks: seq<bool>, last: Step<F>)
    ensures RunFrom(s, Round(arrivals, oks, last))
         == Next(RunFrom(RunFrom(Next(s, Drain), Pushes(arrivals)), Serves(oks)), last)
  {
    hide Pushes, Serves, Next;
    RunOne(s, Drain);
    RunOne(RunFrom(RunFrom(Next(s, Drain), Pushes(arrivals)), Serves(oks)), last);
    hide RunFrom;
    RunConcat(s, [Drain], Pushes(arrivals));
    RunConcat(s, [Drain] + Pushes(arrivals), Serves(oks));
    RunConcat(s, [Drain] + Pushes(arrivals) + Serves(oks), [last]);
  }

  lemma RunOne<F>(s: State<F>, step: Step<F>)
    ensures RunFrom(s, [step]) == Next(s, step)
  {
    assert [step][..0] == [];
  }

  lemma RoundLeaves<F>(read: seq<F>, arrivals: seq<F>, queued: seq<nat>, taken: seq<nat>, n: nat)
    requires Below(taken, |read|) && n <= |taken| && Below(queued, |read + arrivals|)
    requires Frames(read + arrivals, queued) == arrivals
    ensures Below(queued + taken[n..], |read + arrivals|)
    ensures Frames(read + arrivals, queued + taken[n..]) == arrivals + Frames(read, taken)[n..]
  {
    var all := read + arrivals;
    assert Frames(all, queued + taken[n..]) == Frames(all, queued) + Frames(all, taken[n..]);
  }
}

/**
When the worker runs at all: the reader signals `rx_ready` after it has queued frames, and the
worker serves the receive queue only when it is woken by that event.  The driver posts receive
buffers at any time; nothing wakes the worker for them.
 */
module RxWakeup {
  import opened RxRuns

  datatype Phase = Asleep | Woken | Serving

  /**
  `unsignalled`: frames were queued since the reader last signalled.  `requeued`: the last round
  of the worker ended by putting frames back.
   */
  datatype Line<F> = Line(core: State<F>, phase: Phase, ready: bool, unsignalled: bool, posted: nat, requeued: bool)

  datatype Move<F> =
    | Read(frame: F)                         // the reader queues a frame
    | Announce                               // the reader signals rx_ready
    | Post                                   // the driver posts a receive buffer
    | Wake                                   // the worker's wait returns, which resets the event
    | Take                                   // the worker drains what is pending
    | Settle(delivered: bool, uses: bool)    // the worker deals with a frame; an oversized one uses no buffer
    | PutBack                                // no buffer left
    | Rest                                   // nothing left in hand

  predicate Can<F>(s: Line<F>, move: Move<F>) {
    match move
    case Read(_) => true
    case Announce => s.unsignalled
    case Post => true
    case Wake => s.phase == Asleep && s.ready
    case Take => s.phase == Woken
    case Settle(delivered, uses) =>
      s.phase == Serving && s.core.hand != [] && (delivered ==> uses) && (uses ==> s.posted > 0)
    case PutBack => s.phase == Serving && s.core.hand != [] && s.posted == 0
    case Rest => s.phase == Serving && s.core.hand == []
  }

  function Step<F>(s: Line<F>, move: Move<F>): Line<F>
    requires Can(s, move)
  {
    match move
    case Read(f) => s.(core := Next(s.core, Push(f)), unsignalled := true)
    case Announce => s.(ready := true, unsignalled := false)
    case Post => s.(posted := s.posted + 1)
    case Wake => s.(ready := false, phase := Woken)
    case Take =>
      if s.core.pending == [] then s.(phase := Asleep, requeued := false)
      else s.(core := Next(s.core, Drain), phase := Serving)
    case Settle(delivered, uses) =>
      s.(core := Next(s.core, Serve(delivered)), posted := if uses then s.posted - 1 else s.posted)
    case PutBack => s.(core := Next(s.core, Requeue), phase := Asleep, requeued := true)
    case Rest => s.(core := Next(s.core, Finish), phase := Asleep, requeued := false)
  }

  function Begin<F>(): Line<F> { Line(Start(), Asleep, false, false, 0, false) }

  /** The worker is not in a round, and no event or reader is about to start one. */
  predicate Idle<F>(s: Line<F>) { s.phase == Asleep && !s.ready && !s.unsignalled }

  predicate Inv<F>(s: Line<F>) {
    && (s.core.working <==> s.phase == Serving)
    && (!s.core.working ==> s.core.hand == [])
    && (s.phase != Woken && s.core.pending != [] ==>
         s.ready || s.unsignalled || (s.phase == Asleep && s.requeued))
    && (s.phase == Asleep && s.requeued ==> s.core.pending != [])
  }

  lemma StepInv<F>(s: Line<F>, move: Move<F>)
    requires Inv(s) && Can(s, move)
    ensures Inv(Step(s, move))
  {
  }

  predicate Feasible<F>(moves: seq<Move<F>>)
    decreases |moves|, 0
  {
    moves != [] ==>
      var n := |moves| - 1;
      Feasible(moves[..n]) && Can(After(moves[..n]), moves[n])
  }

  function After<F>(moves: seq<Move<F>>): Line<F>
    requires Feasible(moves)
    decreases |moves|, 1
  {
    if moves == [] then Begin() else Step(After(moves[..|moves| - 1]), moves[|moves| - 1])
  }

  lemma {:induction false} AfterInv<F>(moves: seq<Move<F>>)
    requires Feasible(moves)
    ensures Inv(After(moves))
    decreases |moves|
  {
    if moves != [] {
      AfterInv(moves[..|moves| - 1]);
      hide Inv, Step, Can;
      InvMove(moves);
    }
  }

  lemma InvMove<F>(moves: seq<Move<F>>)
    requires moves != [] && Feasible(moves) && Inv(After(moves[..|moves| - 1]))
    ensures Inv(After(moves))
  {
    hide Inv, Step, Can;
    StepInv(After(moves[..|moves| - 1]), moves[|moves| - 1]);
  }

  /**
  Stalled frames, exactly: when worker and reader are idle and no event is pending, frames are
  left over if and only if the worker's last round ended by putting frames back.
   */
  lemma StallExact<F>(moves: seq<Move<F>>)
    requires Feasible(moves) && Idle(After(moves))
    ensures After(moves).core.pending != [] <==> After(moves).requeued
  {
    AfterInv(moves);
  }

  /** However many buffers the driver posts, a stall lasts until another frame is read. */
  lemma StallLasts<F>(s: Line<F>, move: Move<F>)
    requires Idle(s) && Can(s, move) && !move.Read?
    ensures move == Post && Step(s, move) == s.(posted := s.posted + 1)
  {
  }

  lemma More<F>(moves: seq<Move<F>>, move: Move<F>)
    requires Feasible(moves) && Can(After(moves), move)
    ensures Feasible(moves + [move]) && After(moves + [move]) == Step(After(moves), move)
  {
    assert (moves + [move])[..|moves|] == moves;
  }

  lemma NoMoves<F>()
    ensures Feasible<F>([]) && After<F>([]) == Begin()
  {
  }

  /** One frame is read and announced, and the worker finds no buffer for it. */
  lemma FirstStall<F>(f: F) returns (moves: seq<Move<F>>)
    ensures Feasible(moves)
    ensures var s := After(moves);
            Idle(s) && s.posted == 0 && s.core.pending == [0] && s.core.read == [f]
  {
    hide Feasible, After;
    NoMoves<F>();
    moves := [];
    More(moves, Read(f));
    moves := moves + [Read(f)];
    assert After(moves).core.pending == [] + [0] == [0] && After(moves).core.read == [] + [f] == [f];
    More(moves, Announce);
    moves := moves + [Announce];
    More(moves, Wake);
    moves := moves + [Wake];
    More(moves, Take);
    moves := moves + [Take];
    assert After(moves).core.hand == [0] && After(moves).core.pending == [];
    More(moves, PutBack);
    moves := moves + [PutBack];
    assert After(moves).core.pending == [] + [0] == [0];
  }

  /** A stalled run: one frame, no buffer; then any number of buffers, and the frame stays. */
  lemma {:induction false} StalledRun<F>(f: F, posts: nat) returns (moves: seq<Move<F>>)
    ensures Feasible(moves)
    ensures var s := After(moves);
            Idle(s) && s.posted == posts && s.core.pending == [0] && s.core.read == [f]
  {
    hide Feasible, After;
    if posts == 0 {
      moves := FirstStall(f);
    } else {
      var before := StalledRun(f, posts - 1);
      More(before, Post);
      moves := before + [Post];
    }
  }
}

/** The worker that puts received frames into the guest's receive buffers. */
module NetWorker {
  import opened Wrappers
  import opened ScatterGather
  import ChainBuffers
  import RxRuns

  type Frame = seq<byte>

  const HEADER: nat := 12
  const MAX_FRAME: nat := 1514

  /** A receive chain as `pop` hands it out: its head, and its slices if they can be mapped. */
  datatype Posted = Posted(head: nat, buffers: Result<seq<Slice>, Error>)

  datatype Used = Used(head: nat, len: nat)

  /** What becomes of a frame that is not put back. */
  datatype Fate = Oversized | BadChain | TooSmall(head: nat) | Delivered(head: nat, addrs: seq<nat>)

  /** All offload fields zero; num_buffers, the last two bytes, is 1. */
  function Header(): (h: seq<byte>)
    ensures |h| == HEADER
    ensures (forall i :: 0 <= i < 10 ==> h[i] == 0) && h[10] as int + 256 * (h[11] as int) == 1
  {
    seq(HEADER, i => if i == 10 then 1 else 0)
  }

  function FateOf(frame: Frame, chain: Posted): Fate {
    match chain.buffers
    case Err(_) => BadChain
    case Ok(bs) => if Total(bs) < HEADER + |frame| then TooSmall(chain.head) else Delivered(chain.head, Flatten(bs))
  }

  /**
  The fates of a list of frames, given the chains that `pop` yields before it finds the queue
  empty.  Oversized frames take no chain; the first other frame without a chain ends the list.
   */
  function Fates(frames: seq<Frame>, chains: seq<Posted>): (r: seq<Fate>)
    ensures |r| <= |frames|
  {
    if frames == [] then []
    else if |frames[0]| > MAX_FRAME then [Oversized] + Fates(frames[1..], chains)
    else if chains == [] then []
    else [FateOf(frames[0], chains[0])] + Fates(frames[1..], chains[1..])
  }

  /** The chains that are left over. */
  function Unused(frames: seq<Frame>, chains: seq<Posted>): seq<Posted> {
    if frames == [] || chains == [] then chains
    else Unused(frames[1..], if |frames[0]| > MAX_FRAME then chains else chains[1..])
  }

  lemma NoneUnused(chains: seq<Posted>)
    ensures Unused([], chains) == chains
  {
  }

  /** The number of chains that the first `k` frames take: one for each frame of at most 1514 bytes. */
  function Needed(frames: seq<Frame>, k: nat): nat
    requires k <= |frames|
  {
    if k == 0 then 0 else Needed(frames, k - 1) + if |frames[k - 1]| <= 1514 then 1 else 0
  }

  lemma {:induction false} NeededTail(frames: seq<Frame>, k: nat)
    requires k < |frames|
    ensures Needed(frames, k + 1) == Needed(frames[1..], k) + if |frames[0]| <= 1514 then 1 else 0
    decreases k
  {
    if k > 0 {
      NeededTail(frames, k - 1);
    }
  }

  /** Whether a chain holds a 12-byte header and the frame. */
  predicate Roomy(frame: Frame, chain: Posted) {
    chain.buffers.Ok? && 12 + |frame| <= Total(chain.buffers.value)
  }

  /** What happens to frame `k`, which gets the chain after those taken by the frames before it. */
  predicate SettledRight(frames: seq<Frame>, chains: seq<Posted>, k: nat, fate: Fate)
    requires k < |frames|
  {
    if |frames[k]| > 1514 then fate == Oversized
    else
      var c := Needed(frames, k);
      && c < |chains|
      && (fate == BadChain <==> chains[c].buffers.Err?)
      && (fate == TooSmall(chains[c].head) <==> chains[c].buffers.Ok? && !Roomy(frames[k], chains[c]))
      && (Roomy(frames[k], chains[c]) ==> fate == Delivered(chains[c].head, Flatten(chains[c].buffers.value)))
  }

  /**
  The fates of frames, frame by frame: settling stops only at the end or at a frame that needs a
  chain when all are taken, and what is left over are the chains not taken.
   */
  lemma {:induction false} FatesExact(frames: seq<Frame>, chains: seq<Posted>)
    ensures var n := |Fates(frames, chains)|;
            && (forall k :: 0 <= k < n ==> SettledRight(frames, chains, k, Fates(frames, chains)[k]))
            && (n < |frames| ==> |frames[n]| <= 1514 && Needed(frames, n) == |chains|)
            && Needed(frames, n) <= |chains|
            && Unused(frames, chains) == chains[Needed(frames, n)..]
  {
    if frames == [] {
    } else if |frames[0]| > MAX_FRAME {
      FatesExact(frames[1..], chains);
      FatesTail(frames, chains, chains);
    } else if chains != [] {
      FatesExact(frames[1..], chains[1..]);
      FatesTail(frames, chains, chains[1..]);
    }
  }

  lemma SettledTail(frames: seq<Frame>, chains: seq<Posted>, rest: seq<Posted>, k: nat, fate: Fate)
    requires 0 < k < |frames| && (|frames[0]| <= 1514 ==> chains != [])
    requires rest == if |frames[0]| > 1514 then chains else chains[1..]
    requires SettledRight(frames[1..], rest, k - 1, fate)
    ensures SettledRight(frames, chains, k, fate)
  {
    NeededTail(frames, k - 1);
    hide Needed, Roomy, Flatten;
    assert frames[1..][k - 1] == frames[k];
  }

  lemma SettledFirst(frames: seq<Frame>, chains: seq<Posted>)
    requires frames != [] && (|frames[0]| <= 1514 ==> chains != [])
    ensures SettledRight(frames, chains, 0, if |frames[0]| > 1514 then Oversized else FateOf(frames[0], chains[0]))
  {
    hide Flatten, Total;
  }

  /** What holds of the tail holds of the whole. */
  lemma FatesTail(frames: seq<Frame>, chains: seq<Posted>, rest: seq<Posted>)
    requires frames != [] && (|frames[0]| <= 1514 ==> chains != [])
    requires rest == if |frames[0]| > 1514 then chains else chains[1..]
    requires var n := |Fates(frames[1..], rest)|;
             forall k :: 0 <= k < n ==> SettledRight(frames[1..], rest, k, Fates(frames[1..], rest)[k])
    ensures var fates, n := Fates(frames, chains), |Fates(frames[1..], rest)|;
            && |fates| == n + 1
            && (forall k :: 0 <= k <= n ==> SettledRight(frames, chains, k, fates[k]))
            && Needed(frames, n + 1) == Needed(frames[1..], n) + if |frames[0]| <= 1514 then 1 else 0
  {
    var tail, fates := Fates(frames[1..], rest), Fates(frames, chains);
    var first := if |frames[0]| > 1514 then Oversized else FateOf(frames[0], chains[0]);
    assert fates == [first] + tail;
    hide Fates, FateOf, SettledRight, Needed;
    NeededTail(frames, |tail|);
    SettledFirst(frames, chains);
    forall k | 0 <= k <= |tail| ensures SettledRight(frames, chains, k, fates[k]) {
      if k > 0 {
        assert SettledRight(frames[1..], rest, k - 1, tail[k - 1]);
        SettledTail(frames, chains, rest, k, fates[k]);
      }
    }
  }

  /** Whether a fate ends in an entry of the used ring. */
  predicate Returns(fate: Fate) { fate.TooSmall? || fate.Delivered? }

  function Returned(fates: seq<Fate>, k: nat): nat
    requires k <= |fates|
  {
    if k == 0 then 0 else Returned(fates, k - 1) + if Returns(fates[k - 1]) then 1 else 0
  }

  lemma {:induction false} ReturnedFront(fates: seq<Fate>, n: nat, k: nat)
    requires k <= n <= |fates|
    ensures Returned(fates[..n], k) == Returned(fates, k) <= Returned(fates, n)
    decreases n, k
  {
    if k > 0 {
      ReturnedFront(fates, n, k - 1);
    }
    if k < n {
      ReturnedFront(fates, n - 1, k);
    }
  }

  /** Whether a delivered frame fits the addresses it was given, inside memory. */
  predicate Fits(mem: seq<byte>, frame: Frame, fate: Fate) {
    fate.Delivered? ==> InBounds(mem, fate.addrs) && HEADER + |frame| <= |fate.addrs|
  }

  function Placed(mem: seq<byte>, frame: Frame, fate: Fate): (r: seq<byte>)
    requires Fits(mem, frame, fate)
    ensures |r| == |mem|
  {
    if fate.Delivered? then Store(mem, fate.addrs, 0, Header() + frame, HEADER + |frame|) else mem
  }

  predicate AllFit(mem: seq<byte>, frames: seq<Frame>, fates: seq<Fate>) {
    |fates| <= |frames| && forall i :: 0 <= i < |fates| ==> Fits(mem, frames[i], fates[i])
  }

  /** Memory after the frames are placed, in order. */
  function AllPlaced(mem: seq<byte>, frames: seq<Frame>, fates: seq<Fate>): (r: seq<byte>)
    requires AllFit(mem, frames, fates)
    ensures |r| == |mem|
  {
    if fates == [] then mem
    else
      var n := |fates| - 1;
      Placed(AllPlaced(mem, frames, fates[..n]), frames[n], fates[n])
  }

  /** A frame's entry in the used ring: header and frame, or nothing written. */
  function Completion(frame: Frame, fate: Fate): seq<Used> {
    match fate
    case Oversized => []
    case BadChain => []
    case TooSmall(head) => [Used(head, 0)]
    case Delivered(head, _) => [Used(head, HEADER + |frame|)]
  }

  function Completions(frames: seq<Frame>, fates: seq<Fate>): seq<Used>
    requires |fates| <= |frames|
  {
    if fates == [] then []
    else
      var n := |fates| - 1;
      Completions(frames, fates[..n]) + Completion(frames[n], fates[n])
  }

  /** The entry of frame `k`, if it has one, follows the entries of the frames before it. */
  predicate EntryAt(r: seq<Used>, frames: seq<Frame>, fates: seq<Fate>, k: nat)
    requires k < |fates| <= |frames|
  {
    Returns(fates[k]) ==>
      && Returned(fates, k) < |r|
      && r[Returned(fates, k)] == Used(fates[k].head, if fates[k].Delivered? then 12 + |frames[k]| else 0)
  }

  /**
  The used ring, frame by frame: header and frame for a delivered one, nothing written for one
  that did not fit, no entry for the others, in the order of the frames.
   */
  lemma {:induction false} CompletionsExact(frames: seq<Frame>, fates: seq<Fate>)
    requires |fates| <= |frames|
    ensures var r := Completions(frames, fates);
            && |r| == Returned(fates, |fates|)
            && forall k :: 0 <= k < |fates| ==> EntryAt(r, frames, fates, k)
    decreases |fates|
  {
    if fates != [] {
      var n := |fates| - 1;
      var front := fates[..n];
      CompletionsExact(frames, front);
      var prev, r := Completions(frames, front), Completions(frames, fates);
      assert r == prev + Completion(frames[n], fates[n]);
      hide Completions;
      ReturnedFront(fates, n, n);
      forall k | 0 <= k < |fates| ensures EntryAt(r, frames, fates, k) {
        if k < n {
          ReturnedFront(fates, n, k);
          assert EntryAt(prev, frames, front, k);
        }
      }
    }
  }

  lemma {:induction false} StoreSame(mem: seq<byte>, addrs: seq<nat>, a: seq<byte>, b: seq<byte>, n: nat)
    requires InBounds(mem, addrs) && n <= |addrs| && n <= |a| && n <= |b| && a[..n] == b[..n]
    ensures Store(mem, addrs, 0, a, n) == Store(mem, addrs, 0, b, n)
    decreases n
  {
    if n != 0 {
      assert a[..n - 1] == a[..n][..n - 1] && b[..n - 1] == b[..n][..n - 1];
      assert a[n - 1] == a[..n][n - 1] && b[n - 1] == b[..n][n - 1];
      StoreSame(mem, addrs, a, b, n - 1);
    }
  }

  /** Header and frame written one after the other are one message. */
  lemma HeaderThenFrame(mem: seq<byte>, addrs: seq<nat>, frame: Frame)
    requires InBounds(mem, addrs) && HEADER + |frame| <= |addrs|
    ensures Store(Store(mem, addrs, 0, Header(), HEADER), addrs, HEADER, frame, |frame|)
         == Store(mem, addrs, 0, Header() + frame, HEADER + |frame|)
  {
    var all := Header() + frame;
    assert all[HEADER..] == frame && all[..HEADER] == Header() == Header()[..HEADER];
    StoreSame(mem, addrs, Header(), all, HEADER);
    StoreMore(mem, addrs, 0, all, HEADER, |frame|);
  }

  /** Writes one frame into the chain it was given; the error paths of the two writes are dead. */
  method PlaceFrame(mem: array<byte>, buffers: seq<Slice>, frame: Frame) returns (written: nat)
    requires Total(buffers) < TWO64 && InBounds(mem[..], Flatten(buffers))
    requires HEADER + |frame| <= Total(buffers)
    modifies mem
    ensures written == HEADER + |frame|
    ensures mem[..] == Store(old(mem[..]), Flatten(buffers), 0, Header() + frame, written)
  {
    hide Flatten, Total, Store, InBounds, Header, Consumer.Valid;
    var writer := new Consumer(buffers);
    ghost var addrs, was := Flatten(buffers), mem[..];
    var headerOk := ChainBuffers.WriteAll(writer, mem, Header());
    ghost var between := mem[..];
    ChainBuffers.SameBounds(was, between, addrs);
    var frameOk := ChainBuffers.WriteAll(writer, mem, frame);
    assert headerOk && frameOk;
    HeaderThenFrame(was, addrs, frame);
    written := HEADER + |frame|;
  }

  predicate Usable(mem: seq<byte>, chain: Posted) {
    chain.buffers.Ok? ==> Total(chain.buffers.value) < TWO64 && InBounds(mem, Flatten(chain.buffers.value))
  }

  predicate AllUsable(mem: seq<byte>, chains: seq<Posted>) {
    forall i :: 0 <= i < |chains| ==> Usable(mem, chains[i])
  }

  /** Taking the next frame from the front moves its fate to the back of those settled. */
  lemma NextFate(settled: seq<Fate>, frames: seq<Frame>, k: nat, chains: seq<Posted>)
    requires k < |frames|
    ensures |frames[k]| > MAX_FRAME ==>
      settled + Fates(frames[k..], chains) == (settled + [Oversized]) + Fates(frames[k + 1..], chains)
    ensures chains == [] ==> Unused(frames[k..], chains) == []
    ensures chains != [] ==>
      Unused(frames[k..], chains) == Unused(frames[k + 1..], if |frames[k]| > MAX_FRAME then chains else chains[1..])
    ensures Unused(frames[k + 1..], []) == []
    ensures |frames[k]| <= MAX_FRAME && chains == [] ==> settled + Fates(frames[k..], chains) == settled
    ensures |frames[k]| <= MAX_FRAME && chains != [] ==>
      settled + Fates(frames[k..], chains)
      == (settled + [FateOf(frames[k], chains[0])]) + Fates(frames[k + 1..], chains[1..])
  {
    assert frames[k..][0] == frames[k] && frames[k..][1..] == frames[k + 1..];
    hide FateOf;
  }

  predicate SomeDelivered(fates: seq<Fate>) {
    exists i :: 0 <= i < |fates| && fates[i].Delivered?
  }

  /** What settling the first frames did to memory and to the used ring. */
  predicate Tally(was: seq<byte>, frames: seq<Frame>, fates: seq<Fate>, mem: seq<byte>, used: seq<Used>, any: bool) {
    && AllFit(was, frames, fates)
    && mem == AllPlaced(was, frames, fates)
    && used == Completions(frames, fates)
    && (any <==> SomeDelivered(fates))
  }

  /** Settling one more frame. */
  lemma TallyNext(was: seq<byte>, frames: seq<Frame>, fates: seq<Fate>, fate: Fate,
                  mem: seq<byte>, used: seq<Used>, any: bool)
    requires Tally(was, frames, fates, mem, used, any) && |fates| < |frames|
    requires Fits(mem, frames[|fates|], fate)
    ensures Tally(was, frames, fates + [fate], Placed(mem, frames[|fates|], fate),
                  used + Completion(frames[|fates|], fate), any || fate.Delivered?)
  {
    hide Placed, Completion;
    assert (fates + [fate])[..|fates|] == fates;
    if any {
      var i :| 0 <= i < |fates| && fates[i].Delivered?;
      assert (fates + [fate])[i].Delivered?;
    } else if fate.Delivered? {
      assert (fates + [fate])[|fates|].Delivered?;
    }
  }

  lemma OversizedNext(was: seq<byte>, frames: seq<Frame>, fates: seq<Fate>, mem: seq<byte>, used: seq<Used>, any: bool)
    requires Tally(was, frames, fates, mem, used, any) && |fates| < |frames|
    ensures Tally(was, frames, fates + [Oversized], mem, used, any)
  {
    TallyNext(was, frames, fates, Oversized, mem, used, any);
    assert used + Completion(frames[|fates|], Oversized) == used;
  }

  lemma TallyStart(mem: seq<byte>, frames: seq<Frame>)
    ensures Tally(mem, frames, [], mem, [], false)
  {
  }

  lemma UsableParts(mem: seq<byte>, chains: seq<Posted>)
    requires AllUsable(mem, chains) && chains != []
    ensures Usable(mem, chains[0]) && AllUsable(mem, chains[1..])
  {
  }

  lemma UsableSame(was: seq<byte>, mem: seq<byte>, chain: Posted)
    requires |was| == |mem| && Usable(was, chain)
    ensures Usable(mem, chain)
  {
  }

  class Worker {
    /** Shared with the reader thread. */
    var pending: seq<Frame>
    /** The chains the driver has made available, in ring order. */
    var posted: seq<Posted>
    var used: seq<Used>
    const mem: array<byte>

    constructor (mem: array<byte>, posted: seq<Posted>)
      ensures this.mem == mem && this.posted == posted && pending == [] && used == []
    {
      this.mem, this.posted, pending, used := mem, posted, [], [];
    }

    /** One frame with the chain popped for it. */
    method Deliver(frame: Frame, chain: Posted) returns (placed: bool)
      requires Usable(mem[..], chain)
      modifies this`used, mem
      ensures placed == FateOf(frame, chain).Delivered?
      ensures used == old(used) + Completion(frame, FateOf(frame, chain))
      ensures Fits(old(mem[..]), frame, FateOf(frame, chain))
      ensures mem[..] == Placed(old(mem[..]), frame, FateOf(frame, chain))
    {
      match chain.buffers
      case Err(_) => return false;
      case Ok(bs) =>
        if Total(bs) < HEADER + |frame| {
          used := used + [Used(chain.head, 0)];
          return false;
        }
        var written := PlaceFrame(mem, bs, frame);
        used := used + [Used(chain.head, written)];
        return true;
    }

    /** Serves frames from the front until they, or the chains for them, run out. */
    method ServeAll(frames: seq<Frame>) returns (packets: seq<Frame>, usedAny: bool, ghost added: seq<Used>)
      requires AllUsable(mem[..], posted)
      modifies this`posted, this`used, mem
      ensures packets == frames[|Fates(frames, old(posted))|..]
      ensures posted == Unused(frames, old(posted))
      ensures used == old(used) + added
      ensures Tally(old(mem[..]), frames, Fates(frames, old(posted)), mem[..], added, usedAny)
    {
      hide *;
      packets, usedAny, added := frames, false, [];
      ghost var was, chains := mem[..], posted;
      ghost var settled: seq<Fate> := [];
      TallyStart(was, frames);
      while packets != []
        invariant |settled| <= |frames| && packets == frames[|settled|..]
        invariant mem.Length == |was|
        invariant AllUsable(was, posted)
        invariant Unused(packets, posted) == Unused(frames, chains)
        invariant settled + Fates(packets, posted) == Fates(frames, chains)
        invariant used == old(used) + added
        invariant Tally(was, frames, settled, mem[..], added, usedAny)
        decreases |packets|
      {
        var frame := packets[0];
        NextFate(settled, frames, |settled|, posted);
        packets := packets[1..];
        if |frame| > MAX_FRAME {
          OversizedNext(was, frames, settled, mem[..], added, usedAny);
          settled := settled + [Oversized];
          continue;
        }
        if posted == [] {
          packets := [frame] + packets;
          break;
        }
        UsableParts(was, posted);
        var chain := posted[0];
        posted := posted[1..];
        UsableSame(was, mem[..], chain);
        ghost var before, fate := mem[..], FateOf(frame, chain);
        var placed := Deliver(frame, chain);
        TallyNext(was, frames, settled, fate, before, added, usedAny);
        added := added + Completion(frame, fate);
        settled := settled + [fate];
        usedAny := usedAny || placed;
      }
      assert settled == Fates(frames, chains);
      NoneUnused(posted);
    }

    /**
    Delivers what is pending.  `arrivals` are the frames that the reader thread queues while the
    worker is busy: frames put back go behind them.  `needed` is the answer of the queue's
    `needs_notification`, which is asked for only if a frame was delivered.
     */
    method ProcessRx(arrivals: seq<Frame>, needed: bool) returns (signal: bool)
      requires AllUsable(mem[..], posted)
      modifies this, mem
      ensures AllFit(old(mem[..]), old(pending), Fates(old(pending), old(posted)))
      ensures pending == arrivals + old(pending)[|Fates(old(pending), old(posted))|..]
      ensures posted == Unused(old(pending), old(posted))
      ensures used == old(used) + Completions(old(pending), Fates(old(pending), old(posted)))
      ensures mem[..] == AllPlaced(old(mem[..]), old(pending), Fates(old(pending), old(posted)))
      ensures signal <==> needed && SomeDelivered(Fates(old(pending), old(posted)))
    {
      var packets := pending;
      pending := arrivals;
      var usedAny;
      ghost var added;
      packets, usedAny, added := ServeAll(packets);
      pending := pending + packets;
      signal := usedAny && needed;
    }
  }

  predicate Disjoint(a: seq<nat>, b: seq<nat>) {
    forall i, j :: 0 <= i < |a| && 0 <= j < |b| ==> a[i] != b[j]
  }

  /**
  A delivered frame is in the guest's buffer, header first, byte for byte, at the end of the
  round: nothing that comes later touches it as long as later chains use other memory.
   */
  lemma {:induction false} DeliveredIntact(mem: seq<byte>, frames: seq<Frame>, fates: seq<Fate>, k: nat)
    requires AllFit(mem, frames, fates) && k < |fates| && fates[k].Delivered? && Distinct(fates[k].addrs)
    requires forall j :: k < j < |fates| && fates[j].Delivered? ==> Disjoint(fates[k].addrs, fates[j].addrs)
    ensures InBounds(mem, fates[k].addrs)
    ensures Load(AllPlaced(mem, frames, fates), fates[k].addrs)[..HEADER + |frames[k]|] == Header() + frames[k]
    decreases |fates|
  {
    hide Store, Header, Disjoint, Distinct, Load;
    var n := |fates| - 1;
    assert Fits(mem, frames[n], fates[n]) && Fits(mem, frames[k], fates[k]);
    var addrs, before := fates[k].addrs, AllPlaced(mem, frames, fates[..n]);
    if k == n {
      var all := Header() + frames[k];
      LoadStore(before, addrs, 0, all, HEADER + |frames[k]|);
      assert all[..|all|] == all;
    } else {
      DeliveredIntact(mem, frames, fates[..n], k);
      PlacedElsewhere(before, frames[n], fates[n], addrs);
    }
  }

  /** Byte `a` is not one of those that a delivered frame and its header are written to. */
  predicate Spared(frame: Frame, fate: Fate, a: nat) {
    fate.Delivered? ==> forall i :: 0 <= i < 12 + |frame| && i < |fate.addrs| ==> fate.addrs[i] != a
  }

  /** A round changes no byte but those of headers and frames. */
  lemma {:induction false} OthersIntact(mem: seq<byte>, frames: seq<Frame>, fates: seq<Fate>, a: nat)
    requires AllFit(mem, frames, fates) && a < |mem|
    requires forall k :: 0 <= k < |fates| ==> Spared(frames[k], fates[k], a)
    ensures AllPlaced(mem, frames, fates)[a] == mem[a]
    decreases |fates|
  {
    if fates != [] {
      var n := |fates| - 1;
      OthersIntact(mem, frames, fates[..n], a);
      assert Spared(frames[n], fates[n], a) && Fits(mem, frames[n], fates[n]);
      if fates[n].Delivered? {
        StoreFrame(AllPlaced(mem, frames, fates[..n]), fates[n].addrs, 0, Header() + frames[n], 12 + |frames[n]|, a);
      }
    }
  }

  lemma PlacedElsewhere(mem: seq<byte>, frame: Frame, fate: Fate, addrs: seq<nat>)
    requires InBounds(mem, addrs) && Fits(mem, frame, fate)
    requires fate.Delivered? ==> Disjoint(addrs, fate.addrs)
    ensures Load(Placed(mem, frame, fate), addrs) == Load(mem, addrs)
  {
    if fate.Delivered? {
      forall i | 0 <= i < |addrs| ensures Placed(mem, frame, fate)[addrs[i]] == mem[addrs[i]] {
        StoreFrame(mem, fate.addrs, 0, Header() + frame, HEADER + |frame|, addrs[i]);
      }
    }
  }

  function Outcomes(fates: seq<Fate>): seq<bool> {
    seq(|fates|, i requires 0 <= i < |fates| => fates[i].Delivered?)
  }

  /** What `ProcessRx` leaves pending is what the corresponding run leaves pending. */
  lemma ProcessIsRun(s: RxRuns.State<Frame>, arrivals: seq<Frame>, chains: seq<Posted>)
    requires s.Inv() && !s.working && s.pending != [] && RxRuns.Below(s.pending, |s.read|)
    ensures var frames := RxRuns.Frames(s.read, s.pending);
            var fates := Fates(frames, chains);
            var last := if |fates| == |frames| then RxRuns.Finish else RxRuns.Requeue;
            var t := RxRuns.RunFrom(s, RxRuns.Round(arrivals, Outcomes(fates), last));
            && RxRuns.Below(t.pending, |t.read|)
            && RxRuns.Frames(t.read, t.pending) == arrivals + frames[|fates|..]
            && t.served == s.served + s.pending[..|fates|]
            && t.delivered == s.delivered + RxRuns.Picked(s.pending, Outcomes(fates), true)
            && t.dropped == s.dropped + RxRuns.Picked(s.pending, Outcomes(fates), false)
  {
    var fates := Fates(RxRuns.Frames(s.read, s.pending), chains);
    hide Fates, RxRuns.RunFrom, RxRuns.Round, RxRuns.Below;
    RxRuns.RoundIsRun(s, arrivals, Outcomes(fates));
  }
}
