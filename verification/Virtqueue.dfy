/**
The split virtqueue: available ring, used ring and the device's `Queue` over them.

The rings and counters are the 16-bit state of the code; the ghost histories say what that
state means.  `published` holds every head the driver ever made available, `completed` every
element the device ever returned, and the rings are windows on them that wrap around.
(VIRTIO 1.1, sections 2.6.6, 2.6.7, 2.6.8 and 2.6.10.)
 */
module Virtqueue {
  import opened Wrappers
  import opened Wrapping
  import opened DescriptorChain
  import QueueLayout

  datatype UsedElem = UsedElem(id: nat, len: nat)

  const NO_NOTIFY: u16 := 1

  /** The words of an available ring, by byte offset: flags, idx, ring, used_event. */
  function WordAt(flags: u16, idx: u16, ring: seq<nat>, usedEvent: u16, offset: nat): nat
    requires offset % 2 == 0 && offset < 6 + 2 * |ring|
  {
    if offset == 0 then flags
    else if offset == 2 then idx
    else if offset == 4 + 2 * |ring| then usedEvent
    else ring[(offset - 4) / 2]
  }

  function HeadRead(flags: u16, idx: u16, ring: seq<nat>, usedEvent: u16, k: nat): nat
    requires 0 < |ring| <= 0x8000
  {
    QueueLayout.SlotOffsetFits(k % |ring|);
    WordAt(flags, idx, ring, usedEvent, QueueLayout.SlotOffset(k % |ring|))
  }

  function HeadsRead(flags: u16, idx: u16, ring: seq<nat>, usedEvent: u16, n: nat): seq<nat>
    requires 0 < |ring| <= 0x8000
  {
    seq(n, k requires 0 <= k => HeadRead(flags, idx, ring, usedEvent, k))
  }

  /** The guest memory a queue works on, and the driver that fills the available ring. */
  class Rings {
    const size: nat
    var table: Table
    var availFlags: u16
    var availIdx: u16
    var availRing: seq<nat>
    var usedEvent: u16
    var usedFlags: u16
    var usedIdx: u16
    var usedRing: seq<UsedElem>
    var availEvent: u16
    ghost var published: seq<nat>
    ghost var completed: seq<UsedElem>

    ghost predicate Valid()
      reads this
    {
      && 0 < size <= 0x8000 && M % size == 0
      && |availRing| == size && |usedRing| == size
      && availIdx == Wrap(|published|)
      && |published| <= |completed| + size
      && (forall k :: |completed| <= k < |published| ==> availRing[k % size] == published[k])
      && (forall k :: 0 <= k < |completed| && |completed| <= k + size ==>
           usedRing[k % size] == completed[k])
    }

    constructor (size: nat, table: Table)
      requires 0 < size <= 0x8000 && M % size == 0
      ensures Valid() && published == [] && completed == []
      ensures this.size == size && usedIdx == 0 && usedFlags == 0 && availEvent == 0
    {
      this.size, this.table := size, table;
      availFlags, availIdx, usedEvent, usedFlags, usedIdx, availEvent := 0, 0, 0, 0, 0, 0;
      availRing := seq(size, _ => 0);
      usedRing := seq(size, _ => UsedElem(0, 0));
      published, completed := [], [];
    }

    /** The 16-bit word at a byte offset of the available ring. */
    function AvailWord(offset: nat): nat
      requires offset % 2 == 0 && offset < 6 + 2 * size && |availRing| == size
      reads this
    {
      WordAt(availFlags, availIdx, availRing, usedEvent, offset)
    }

    /** The heads that pops read, position by position; there are none to read in a ring of no size. */
    ghost function Heads(): (heads: seq<nat>)
      reads this
      ensures |heads| == |published|
    {
      if 0 < |availRing| <= 0x8000 then HeadsRead(availFlags, availIdx, availRing, usedEvent, |published|)
      else seq(|published|, _ => 0)
    }

    /**
    A position finds its own head unless its slot is one of the last two of a ring of 2^15: the
    16-bit offset then wraps around to the flags or to the index.
     */
    lemma HeadExact(k: nat)
      requires Valid() && |completed| <= k < |published|
      ensures k % size <= 32765 ==> Heads()[k] == published[k]
      ensures k % size == 32766 ==> Heads()[k] == availFlags
      ensures k % size == 32767 ==> Heads()[k] == availIdx
    {
      QueueLayout.SlotOffsetFits(k % size);
      hide QueueLayout.SlotOffset;
    }

    lemma ReadsHead(k: nat)
      requires Valid() && k < |published|
      ensures var offset := QueueLayout.SlotOffset(k % size);
              offset % 2 == 0 && offset < 6 + 2 * size && AvailWord(offset) == Heads()[k]
    {
      QueueLayout.SlotOffsetFits(k % size);
      hide QueueLayout.SlotOffset;
    }

    /** The driver: it never has more than `size` chains outstanding. */
    method Publish(head: nat)
      requires Valid() && |published| < |completed| + size
      modifies this`availRing, this`availIdx, this`published
      ensures Valid() && published == old(published) + [head]
    {
      Slot(|published|, size);
      WrapAdd(|published|, 1);
      forall k | |completed| <= k < |published| ensures k % size != |published| % size {
        DistinctSlots(k, |published|, size);
      }
      availRing := availRing[availIdx % size := head];
      availIdx := Wrap(availIdx + 1);
      published := published + [head];
    }
  }

  class Queue {
    var maxSize: nat
    var size: nat
    var nextAvail: u16
    var nextUsed: u16
    var numAdded: u16
    var eventIdx: bool
    ghost var popped: nat    // chains taken from the available ring
    ghost var notified: nat  // completions seen by the last event-idx `NeedsNotification`

    /** The counters are the 16-bit images of the histories. */
    ghost predicate Counts(mem: Rings)
      reads this, mem
    {
      && mem.Valid()
      && size == mem.size && size <= maxSize
      && popped <= |mem.published|
      && nextAvail == Wrap(popped)
      && nextUsed == mem.usedIdx == Wrap(|mem.completed|)
      && notified <= |mem.completed|
      && numAdded == Wrap(|mem.completed| - notified)
    }

    /** And no chain was completed before it was popped. */
    ghost predicate Valid(mem: Rings)
      reads this, mem
    {
      Counts(mem) && |mem.completed| <= popped
    }

    constructor (maxSize: nat, mem: Rings, eventIdx: bool)
      requires mem.Valid() && mem.size <= maxSize
      requires mem.published == [] && mem.completed == [] && mem.usedIdx == 0
      ensures Valid(mem) && popped == 0 && notified == 0 && this.eventIdx == eventIdx
    {
      this.maxSize, size, this.eventIdx := maxSize, mem.size, eventIdx;
      nextAvail, nextUsed, numAdded, popped, notified := 0, 0, 0, 0, 0;
    }

    function ActualSize(): nat
      reads this
    {
      if size < maxSize then size else maxSize
    }

    /** The 16-bit difference counts the chains not yet popped, also across a wrap. */
    method Len(mem: Rings) returns (n: u16)
      requires Valid(mem)
      ensures n == |mem.published| - popped
    {
      hide Wrap;
      n := Wrap(mem.availIdx - nextAvail);
      WrapDiff(|mem.published|, popped);
      WrapSmall(|mem.published| - popped);
    }

    /**
    Pops the oldest chain not yet popped, at the 16-bit offset of its slot.  Up to size 32766 the
    head read there is the one published.  A head the table rejects is not popped: it stays at
    the front, and popping again meets it again.
     */
    method Pop(mem: Rings) returns (r: Option<Chain>)
      requires Valid(mem)
      modifies this`nextAvail, this`popped
      ensures Valid(mem)
      ensures r == if old(popped) < |mem.published|
                   then CheckedNew(mem.table, size, mem.Heads()[old(popped)]) else None
      ensures old(popped) < |mem.published| && size <= 32766 ==>
        mem.Heads()[old(popped)] == mem.published[old(popped)]
      ensures popped == if r.Some? then old(popped) + 1 else old(popped)
    {
      hide Wrap, QueueLayout.SlotOffset, CheckedNew, WordAt, HeadsRead, Rings.Heads, Rings.AvailWord;
      var n := Len(mem);
      if n == 0 || ActualSize() == 0 {
        return None;
      }
      Slot(popped, size);
      mem.HeadExact(popped);
      mem.ReadsHead(popped);
      var index := mem.AvailWord(QueueLayout.SlotOffset(nextAvail % ActualSize()));
      r := CheckedNew(mem.table, ActualSize(), index);
      if r.Some? {
        WrapAdd(popped, 1);
        nextAvail := Wrap(nextAvail + 1);
        popped := popped + 1;
      }
    }

    /**
    Steps back one position.  As long as the chain popped last has not been completed, this
    gives it back.
     */
    method UndoPop(mem: Rings)
      requires Valid(mem)
      modifies this`nextAvail, this`popped
      ensures nextAvail == Wrap(old(popped) - 1)
      ensures |mem.completed| < old(popped) ==> Valid(mem) && popped == old(popped) - 1
      ensures |mem.completed| == old(popped) ==> popped == old(popped)
    {
      WrapAdd(popped, -1);
      nextAvail := Wrap(nextAvail - 1);
      if |mem.completed| < popped {
        popped := popped - 1;
      }
    }

    /**
    Returns one chain to the driver; an index outside the table is refused.  The code does not
    ask whether the chain was popped: if one was, the queue stays valid.  Nor does it look at the
    outcome of the element's write: if that fails (`lands` is false) the index moves on all the
    same, and what the driver finds is the element that was in the slot before.
     */
    method AddUsed(mem: Rings, head: nat, len: nat, lands: bool) returns (ok: bool)
      requires Counts(mem)
      modifies this`nextUsed, this`numAdded, mem`usedRing, mem`usedIdx, mem`completed
      ensures Counts(mem)
      ensures ok <==> head < size
      ensures ok && lands ==> mem.completed == old(mem.completed) + [UsedElem(head, len)]
      ensures ok && !lands ==> mem.completed == old(mem.completed) + [old(mem.usedRing[|mem.completed| % size])]
      ensures ok && !lands && old(|mem.completed|) >= size ==>
        mem.completed[|mem.completed| - 1] == mem.completed[|mem.completed| - 1 - size]
      ensures !ok ==> mem.completed == old(mem.completed)
      ensures old(|mem.completed|) < popped ==> Valid(mem)
    {
      hide Wrap;
      if head >= size {
        return false;
      }
      ghost var done := |mem.completed|;
      Slot(done, size);
      WrapAdd(done, 1);
      WrapAdd(done - notified, 1);
      forall k | 0 <= k < done && done < k + size ensures k % size != done % size {
        DistinctSlots(k, done, size);
      }
      ghost var stale := mem.usedRing[nextUsed % size];
      if lands {
        mem.usedRing := mem.usedRing[nextUsed % size := UsedElem(head, len)];
      } else if done >= size {
        ModStep(done - size, size);
      }
      nextUsed := Wrap(nextUsed + 1);
      numAdded := Wrap(numAdded + 1);
      mem.usedIdx := nextUsed;
      mem.completed := mem.completed + [if lands then UsedElem(head, len) else stale];
      ok := true;
    }

    method SetNotification(mem: Rings, enable: bool)
      requires Valid(mem)
      modifies mem`usedFlags, mem`availEvent
      ensures Valid(mem)
      ensures mem.usedFlags == if eventIdx then old(mem.usedFlags) else if enable then 0 else 1
      ensures mem.availEvent == if eventIdx && enable then Wrap(popped) else old(mem.availEvent)
    {
      if enable {
        if eventIdx {
          mem.availEvent := nextAvail;
        } else {
          mem.usedFlags := 0;
        }
      } else if !eventIdx {
        mem.usedFlags := NO_NOTIFY;
      }
    }

    /** Re-enables notifications and says whether chains arrived in the meantime. */
    method EnableNotification(mem: Rings) returns (more: bool)
      requires Valid(mem)
      modifies mem`usedFlags, mem`availEvent
      ensures Valid(mem)
      ensures mem.usedFlags == if eventIdx then old(mem.usedFlags) else 0
      ensures mem.availEvent == if eventIdx then Wrap(popped) else old(mem.availEvent)
      ensures more <==> popped < |mem.published|
    {
      SetNotification(mem, true);
      more := LooksAgain(mem);
    }

    /** The second look at the available index. */
    method LooksAgain(mem: Rings) returns (more: bool)
      requires Valid(mem)
      ensures more <==> popped < |mem.published|
    {
      more := mem.availIdx != nextAvail;
      if !more {
        WrapInjective(popped, |mem.published|);
      }
    }

    /**
    With EVENT_IDX: whether the driver's `used_event` is one of the indices completed since the
    last call, counted modulo 2^16.  Without it every batch is notified and nothing is reset.
     */
    method NeedsNotification(mem: Rings) returns (r: bool)
      requires Valid(mem)
      modifies this`numAdded, this`notified
      ensures Valid(mem)
      ensures !eventIdx ==> r && notified == old(notified)
      ensures eventIdx ==> notified == |mem.completed|
      ensures eventIdx ==> (r <==> Crossed(|mem.completed|, mem.usedEvent, Wrap(|mem.completed| - old(notified))))
      ensures eventIdx && |mem.completed| - old(notified) < M ==>
        (r <==> exists k :: old(notified) <= k < |mem.completed| && Wrap(k) == mem.usedEvent)
    {
      hide Wrap, Rings.Valid;
      if eventIdx {
        var used := nextUsed;
        var old' := Wrap(used - numAdded);
        ghost var done := |mem.completed|;
        WrapDiff(done, done - notified);
        WrapDiff(done, notified);
        assert old' == Wrap(notified) && Wrap(used - old') == numAdded;
        numAdded := 0;
        r := Wrap(used - mem.usedEvent - 1) < Wrap(used - old');
        if done - notified < M {
          WrapSmall(done - notified);
          CrossedExact(done, mem.usedEvent, done - notified);
        }
        notified := done;
        WrapSmall(0);
      } else {
        r := true;
      }
    }
  }

  // The drain loops of the block worker

  predicate GoodHead(table: Table, size: nat, head: nat) {
    CheckedNew(table, size, head).Some?
  }

  predicate AllGood(table: Table, size: nat, heads: seq<nat>, from: nat, to: nat)
    requires from <= to <= |heads|
  {
    forall k :: from <= k < to ==> GoodHead(table, size, heads[k])
  }

  lemma AllGoodNext(table: Table, size: nat, heads: seq<nat>, from: nat, to: nat)
    requires from <= to < |heads| && AllGood(table, size, heads, from, to)
    requires GoodHead(table, size, heads[to])
    ensures AllGood(table, size, heads, from, to + 1)
  {
  }

  /** The used history once heads `from` up to `until` are served, given the outcome of each. */
  function Served(before: seq<UsedElem>, heads: seq<nat>, from: nat, until: nat,
                  serve: nat -> Option<nat>): (r: seq<UsedElem>)
    requires from <= until <= |heads|
    ensures before <= r
    decreases until
  {
    if from == until then before
    else
      var k := until - 1;
      Served(before, heads, from, k, serve) + Completion(heads[k], serve(k - from))
  }

  function Completion(head: nat, outcome: Option<nat>): seq<UsedElem> {
    match outcome
    case None => []
    case Some(len) => [UsedElem(head, len)]
  }

  lemma ServedNext(before: seq<UsedElem>, heads: seq<nat>, from: nat, n: nat,
                   serve: nat -> Option<nat>)
    requires from + n < |heads|
    ensures Served(before, heads, from, from + n + 1, serve)
         == Served(before, heads, from, from + n, serve) + Completion(heads[from + n], serve(n))
  {
  }

  /** The number of requests, of the first `n`, that are completed. */
  function Answered(serve: nat -> Option<nat>, n: nat): nat {
    if n == 0 then 0 else Answered(serve, n - 1) + if serve(n - 1).Some? then 1 else 0
  }

  /** The answer to request `j`, if there is one, follows the answers to those before it. */
  predicate AnswerAt(r: seq<UsedElem>, base: nat, heads: seq<nat>, from: nat, serve: nat -> Option<nat>, j: nat)
    requires from + j < |heads|
  {
    serve(j).Some? ==>
      && base + Answered(serve, j) < |r|
      && r[base + Answered(serve, j)] == UsedElem(heads[from + j], serve(j).value)
  }

  /**
  What a pass adds to the used history: one element for each request that is answered, in order,
  with the head of its chain and the length of its answer, and nothing else.
   */
  lemma {:induction false} ServedExact(before: seq<UsedElem>, heads: seq<nat>, from: nat, until: nat,
                                       serve: nat -> Option<nat>)
    requires from <= until <= |heads|
    ensures var r := Served(before, heads, from, until, serve);
            && |r| == |before| + Answered(serve, until - from)
            && before <= r
            && forall j :: 0 <= j < until - from ==> AnswerAt(r, |before|, heads, from, serve, j)
    decreases until
  {
    if from < until {
      ServedExact(before, heads, from, until - 1, serve);
      var prev, r := Served(before, heads, from, until - 1, serve), Served(before, heads, from, until, serve);
      hide Served;
      assert prev <= r;
      forall j | 0 <= j < until - from ensures AnswerAt(r, |before|, heads, from, serve, j) {
        if j < until - 1 - from {
          assert AnswerAt(prev, |before|, heads, from, serve, j);
        }
      }
    }
  }

  /** A pop that is undone comes back with the next pop. */
  method PopAgain(q: Queue, mem: Rings) returns (first: Option<Chain>, again: Option<Chain>)
    requires q.Valid(mem)
    modifies q`nextAvail, q`popped
    ensures q.Valid(mem) && first == again
    ensures first.Some? <==> q.popped == old(q.popped) + 1
  {
    first := q.Pop(mem);
    if first.Some? {
      q.UndoPop(mem);
    }
    again := q.Pop(mem);
  }

  lemma {:induction false} SameServed(before: seq<UsedElem>, a: seq<nat>, b: seq<nat>, from: nat, until: nat,
                                      serve: nat -> Option<nat>)
    requires from <= until <= |a| && |a| == |b| && forall k :: from <= k < until ==> a[k] == b[k]
    ensures Served(before, a, from, until, serve) == Served(before, b, from, until, serve)
    decreases until
  {
    if from < until {
      SameServed(before, a, b, from, until - 1, serve);
    }
  }

  /** Up to size 32766 serving the heads read is serving the heads published. */
  lemma PublishedServed(q: Queue, mem: Rings, serve: nat -> Option<nat>)
    requires q.Valid(mem)
    ensures mem.size <= 32766 ==>
      Served(mem.completed, mem.Heads(), q.popped, |mem.published|, serve)
      == Served(mem.completed, mem.published, q.popped, |mem.published|, serve)
  {
    if mem.size <= 32766 {
      forall k | q.popped <= k < |mem.published| ensures mem.Heads()[k] == mem.published[k] {
        mem.HeadExact(k);
      }
      SameServed(mem.completed, mem.Heads(), mem.published, q.popped, |mem.published|, serve);
    }
  }

  lemma NothingServed(q: Queue, mem: Rings, serve: nat -> Option<nat>)
    requires q.Valid(mem)
    ensures q.popped <= |mem.published|
    ensures Served(mem.completed, mem.Heads(), q.popped, q.popped, serve) == mem.completed
    ensures AllGood(mem.table, q.size, mem.Heads(), q.popped, q.popped)
  {
  }

  /** One request: its chain is popped and goes back to the driver unless it cannot be mapped. */
  method ServeNext(q: Queue, mem: Rings, outcome: Option<nat>) returns (more: bool, used: bool)
    requires q.Valid(mem)
    modifies q`nextAvail, q`popped, q`nextUsed, q`numAdded
    modifies mem`usedRing, mem`usedIdx, mem`completed
    ensures q.Valid(mem)
    ensures more <==>
      && old(q.popped) < |mem.published|
      && GoodHead(mem.table, q.size, mem.Heads()[old(q.popped)])
    ensures q.popped == if more then old(q.popped) + 1 else old(q.popped)
    ensures mem.completed == old(mem.completed)
      + if more then Completion(mem.Heads()[old(q.popped)], outcome) else []
    ensures used <==> more && outcome.Some?
  {
    var head := q.Pop(mem);
    more, used := head.Some?, false;
    if head.Some? && outcome.Some? {
      var ok := q.AddUsed(mem, head.value.index, outcome.value, true);
      used := true;
    }
  }

  /** The loop of a pass: it stops at the end of the ring or at the first rejected head. */
  method DrainRing(q: Queue, mem: Rings, serve: nat -> Option<nat>) returns (usedAny: bool)
    requires q.Valid(mem)
    modifies q`nextAvail, q`popped, q`nextUsed, q`numAdded
    modifies mem`usedRing, mem`usedIdx, mem`completed
    ensures q.Valid(mem) && old(q.popped) <= q.popped <= |mem.published|
    ensures AllGood(mem.table, q.size, mem.Heads(), old(q.popped), q.popped)
    ensures q.popped < |mem.published| ==> !GoodHead(mem.table, q.size, mem.Heads()[q.popped])
    ensures mem.completed
         == Served(old(mem.completed), mem.Heads(), old(q.popped), q.popped, serve)
    ensures usedAny <==> |old(mem.completed)| < |mem.completed|
  {
    hide Queue.Valid, Rings.Valid, GoodHead, Served, AllGood;
    NothingServed(q, mem, serve);
    usedAny := false;
    var more, n := true, 0;
    ghost var start, heads, before := q.popped, mem.Heads(), mem.completed;
    ghost var table, size := mem.table, q.size;
    while more
      invariant q.Valid(mem) && mem.Heads() == heads && mem.table == table && q.size == size
      invariant q.popped == start + n <= |heads|
      invariant !more ==> start + n < |heads| ==> !GoodHead(table, size, heads[start + n])
      invariant AllGood(table, size, heads, start, start + n)
      invariant mem.completed == Served(before, heads, start, start + n, serve)
      invariant |before| <= |mem.completed| && (usedAny <==> |before| < |mem.completed|)
      decreases if more then |heads| - n + 1 else 0
    {
      var used;
      more, used := ServeNext(q, mem, serve(n));
      if more {
        ServedNext(before, heads, start, n, serve);
        AllGoodNext(table, size, heads, start, start + n);
        n := n + 1;
      }
      usedAny := usedAny || used;
    }
  }

  /**
  One pass over the queue.  `serve(k)` is the outcome of its request `k`: None if the chain cannot
  be mapped, in which case it is skipped and not completed, else the length to report.  One
  interrupt at most is raised for the whole batch: without EVENT_IDX exactly if something was
  completed, with it exactly if that includes the driver's event index.
   */
  method ProcessQueue(q: Queue, mem: Rings, serve: nat -> Option<nat>) returns (interrupt: bool)
    requires q.Valid(mem)
    modifies q`nextAvail, q`popped, q`nextUsed, q`numAdded, q`notified
    modifies mem`usedRing, mem`usedIdx, mem`completed
    ensures q.Valid(mem) && old(q.popped) <= q.popped <= |mem.published|
    ensures AllGood(mem.table, q.size, mem.Heads(), old(q.popped), q.popped)
    ensures q.popped < |mem.published| ==> !GoodHead(mem.table, q.size, mem.Heads()[q.popped])
    ensures mem.completed
         == Served(old(mem.completed), mem.Heads(), old(q.popped), q.popped, serve)
    ensures !q.eventIdx ==> (interrupt <==> |old(mem.completed)| < |mem.completed|)
    ensures q.eventIdx && |mem.completed| - old(q.notified) < M ==>
      (interrupt <==>
        && |old(mem.completed)| < |mem.completed|
        && exists k :: old(q.notified) <= k < |mem.completed| && Wrap(k) == mem.usedEvent)
    ensures interrupt ==> |old(mem.completed)| < |mem.completed|
  {
    hide Queue.Valid, GoodHead, Served, AllGood;
    var usedAny := DrainRing(q, mem, serve);
    interrupt := false;
    if usedAny {
      interrupt := q.NeedsNotification(mem);
    }
  }

  /** Where a pass over the queue stops: at the first rejected head, or at the end. */
  ghost predicate StopsAt(table: Table, size: nat, heads: seq<nat>, from: nat, stop: nat) {
    && from <= stop <= |heads|
    && AllGood(table, size, heads, from, stop)
    && (stop < |heads| ==> !GoodHead(table, size, heads[stop]))
  }

  lemma StopsExactly(table: Table, size: nat, heads: seq<nat>, from: nat, stop: nat)
    requires StopsAt(table, size, heads, from, stop)
    ensures stop == |heads| <==> AllGood(table, size, heads, from, |heads|)
    ensures StopsAt(table, size, heads, stop, stop)
  {
  }

  /** What the passes leave behind. */
  ghost predicate Settled(q: Queue, mem: Rings, before: seq<UsedElem>, from: nat, serve: nat -> Option<nat>)
    reads q, mem
  {
    && q.Valid(mem)
    && StopsAt(mem.table, q.size, mem.Heads(), from, q.popped)
    && mem.completed == Served(before, mem.Heads(), from, q.popped, serve)
  }

  /**
  One round of the outer loop, the driver being quiet.  It asks for another if and only if one of
  the waiting heads is rejected.
   */
  method Pass(q: Queue, mem: Rings, serve: nat -> Option<nat>) returns (again: bool)
    requires q.Valid(mem)
    modifies q`nextAvail, q`popped, q`nextUsed, q`numAdded, q`notified
    modifies mem`usedRing, mem`usedIdx, mem`completed, mem`usedFlags, mem`availEvent
    ensures Settled(q, mem, old(mem.completed), old(q.popped), serve)
    ensures old(q.popped) <= |mem.published|
    ensures again <==> !AllGood(mem.table, q.size, mem.Heads(), old(q.popped), |mem.published|)
    ensures again <==> q.popped < |mem.published|
    ensures if q.eventIdx then mem.availEvent == Wrap(q.popped) else mem.usedFlags == 0
  {
    hide Rings.Valid, GoodHead, Served, AllGood;
    q.SetNotification(mem, false);
    var interrupt := ProcessQueue(q, mem, serve);
    again := q.EnableNotification(mem);
    StopsExactly(mem.table, q.size, mem.Heads(), old(q.popped), q.popped);
  }

  /**
  Any number of rounds of the outer loop.  It ends if and only if every waiting head is good, and
  then after the first round; otherwise it asks for another after every round, for ever, and
  nothing is popped or completed after the first.
   */
  method Passes(q: Queue, mem: Rings, serve: nat -> Option<nat>, rounds: nat) returns (ended: bool)
    requires q.Valid(mem) && rounds > 0
    modifies q`nextAvail, q`popped, q`nextUsed, q`numAdded, q`notified
    modifies mem`usedRing, mem`usedIdx, mem`completed, mem`usedFlags, mem`availEvent
    ensures old(q.popped) <= |mem.published|
    ensures ended <==> AllGood(mem.table, q.size, mem.Heads(), old(q.popped), |mem.published|)
    ensures Settled(q, mem, old(mem.completed), old(q.popped), serve)
    ensures if q.eventIdx then mem.availEvent == Wrap(q.popped) else mem.usedFlags == 0
  {
    hide Rings.Valid, Queue.Valid, GoodHead, Served, AllGood, Settled;
    ghost var from, before := q.popped, mem.completed;
    var again := Pass(q, mem, serve);
    for n := 1 to rounds
      invariant q.size == old(q.size) && mem.Heads() == old(mem.Heads()) && mem.table == old(mem.table)
      invariant Settled(q, mem, before, from, serve)
      invariant again <==> !AllGood(mem.table, q.size, mem.Heads(), from, |mem.published|)
      invariant again <==> q.popped < |mem.published|
      invariant if q.eventIdx then mem.availEvent == Wrap(q.popped) else mem.usedFlags == 0
    {
      if !again {
        break;
      }
      ghost var popped, completed := q.popped, mem.completed;
      SettledStays(q, mem, before, from, serve);
      again := Pass(q, mem, serve);
      SettledAgain(q, mem, before, from, popped, completed, serve);
    }
    ended := !again;
  }

  lemma SettledStays(q: Queue, mem: Rings, before: seq<UsedElem>, from: nat, serve: nat -> Option<nat>)
    requires Settled(q, mem, before, from, serve)
    ensures q.Valid(mem) && from <= q.popped <= |mem.published|
    ensures mem.completed == Served(before, mem.Heads(), from, q.popped, serve)
    ensures StopsAt(mem.table, q.size, mem.Heads(), from, q.popped)
  {
  }

  /** A further pass stops where it starts. */
  lemma SettledAgain(q: Queue, mem: Rings, before: seq<UsedElem>, from: nat,
                     popped: nat, completed: seq<UsedElem>, serve: nat -> Option<nat>)
    requires StopsAt(mem.table, q.size, mem.Heads(), from, popped)
    requires completed == Served(before, mem.Heads(), from, popped, serve)
    requires Settled(q, mem, completed, popped, serve)
    ensures q.popped == popped && mem.completed == completed
    ensures Settled(q, mem, before, from, serve)
  {
  }

  /**
  The whole service of a queue event while the driver is quiet and every waiting head is good:
  every published chain is popped in order and reported, and notifications are left enabled.  Up
  to size 32766 the chains reported are the ones published.
   */
  method ProcessVirtioQueues(q: Queue, mem: Rings, serve: nat -> Option<nat>)
    requires q.Valid(mem)
    requires AllGood(mem.table, q.size, mem.Heads(), q.popped, |mem.published|)
    modifies q`nextAvail, q`popped, q`nextUsed, q`numAdded, q`notified
    modifies mem`usedRing, mem`usedIdx, mem`completed, mem`usedFlags, mem`availEvent
    ensures q.Valid(mem) && q.popped == |mem.published|
    ensures mem.completed
         == Served(old(mem.completed), mem.Heads(), old(q.popped), |mem.published|, serve)
    ensures mem.size <= 32766 ==>
      mem.completed == Served(old(mem.completed), mem.published, old(q.popped), |mem.published|, serve)
    ensures if q.eventIdx then mem.availEvent == Wrap(|mem.published|) else mem.usedFlags == 0
  {
    PublishedServed(q, mem, serve);
    hide Rings.Valid, GoodHead, Served, AllGood;
    var again := true;
    while again
      invariant again ==> q.Valid(mem) && q.popped == old(q.popped) && mem.completed == old(mem.completed)
      invariant q.size == old(q.size) && mem.Heads() == old(mem.Heads()) && mem.table == old(mem.table)
      invariant !again ==> Settled(q, mem, old(mem.completed), old(q.popped), serve) && q.popped == |mem.published|
      invariant !again ==> if q.eventIdx then mem.availEvent == Wrap(q.popped) else mem.usedFlags == 0
      decreases again
    {
      again := Pass(q, mem, serve);
    }
  }
}

/** Interrupt suppression over batches of completions, and over successive batches. */
module EventSuppression {
  import opened Wrapping

  /** The decision for the batch of positions `from` to `to`, as the wrapped counters take it. */
  predicate Notifies(from: nat, to: nat, event: u16)
    requires from <= to
  {
    Crossed(to, event, Wrap(to - from))
  }

  predicate Covers(from: nat, to: nat, event: u16) {
    exists k :: from <= k < to && Wrap(k) == event
  }

  /** The decision is exact for every event index exactly when a batch is shorter than 2^16. */
  lemma BatchExact(from: nat, to: nat)
    requires from <= to
    ensures (forall event: u16 :: Notifies(from, to, event) <==> Covers(from, to, event))
       <==> to - from < M
  {
    if to - from < M {
      forall event: u16 ensures Notifies(from, to, event) <==> Covers(from, to, event) {
        CrossedExact(to, event, to - from);
      }
    } else {
      var added := Wrap(to - from);
      var missed := Wrap(to - 1 - added);
      CrossedExact(to, missed, added);
      var k := to - 1 - added;
      assert from <= k < to && Wrap(k) == missed;
      forall k' | to - added <= k' < to ensures Wrap(k') != missed {
        if Wrap(k') == missed {
          WrapInjective(k', k);
        }
      }
      assert !Notifies(from, to, missed) && Covers(from, to, missed);
    }
  }

  predicate Cuts(cuts: seq<nat>) {
    && |cuts| >= 1
    && (forall i, j :: 0 <= i <= j < |cuts| ==> cuts[i] <= cuts[j])
    && cuts[|cuts| - 1] - cuts[0] <= M
    && (forall i :: 0 <= i < |cuts| - 1 ==> BatchBelow(cuts, i))
  }

  predicate BatchBelow(cuts: seq<nat>, i: nat)
    requires i < |cuts| - 1
  {
    cuts[i + 1] - cuts[i] < M
  }

  predicate BatchNotifies(cuts: seq<nat>, i: nat, event: u16)
    requires i < |cuts| - 1
  {
    cuts[i] <= cuts[i + 1] && Notifies(cuts[i], cuts[i + 1], event)
  }

  lemma BatchHolds(cuts: seq<nat>, i: nat, event: u16, k: nat)
    requires Cuts(cuts) && i < |cuts| - 1
    requires cuts[0] <= k < cuts[|cuts| - 1] && Wrap(k) == event
    ensures BatchNotifies(cuts, i, event) <==> cuts[i] <= k < cuts[i + 1]
  {
    assert BatchBelow(cuts, i);
    CrossedExact(cuts[i + 1], event, cuts[i + 1] - cuts[i]);
    if k' :| cuts[i] <= k' < cuts[i + 1] && Wrap(k') == event {
      assert cuts[0] <= k' < cuts[|cuts| - 1];
      WrapInjective(k, k');
    }
  }

  lemma {:induction false} BatchOf(cuts: seq<nat>, k: nat, n: nat) returns (i: nat)
    requires n < |cuts| && cuts[0] <= k < cuts[n]
    ensures i < n && cuts[i] <= k < cuts[i + 1]
    decreases n
  {
    if cuts[n - 1] <= k {
      i := n - 1;
    } else {
      i := BatchOf(cuts, k, n - 1);
    }
  }

  /**
  Successive batches that tile at most 2^16 positions: if they cover the event index, exactly
  one of them notifies; if they do not, none does.
   */
  lemma ExactlyOneBatch(cuts: seq<nat>, event: u16)
    requires Cuts(cuts)
    ensures Covers(cuts[0], cuts[|cuts| - 1], event) ==>
      exists i :: 0 <= i < |cuts| - 1 && BatchNotifies(cuts, i, event)
        && forall j :: 0 <= j < |cuts| - 1 && BatchNotifies(cuts, j, event) ==> j == i
    ensures !Covers(cuts[0], cuts[|cuts| - 1], event) ==>
      forall i :: 0 <= i < |cuts| - 1 ==> !BatchNotifies(cuts, i, event)
  {
    if k :| cuts[0] <= k < cuts[|cuts| - 1] && Wrap(k) == event {
      var i := BatchOf(cuts, k, |cuts| - 1);
      BatchHolds(cuts, i, event, k);
      forall j | 0 <= j < |cuts| - 1 && BatchNotifies(cuts, j, event) ensures j == i {
        assert j < i ==> cuts[j + 1] <= cuts[i];
        assert i < j ==> cuts[i + 1] <= cuts[j];
        BatchHolds(cuts, j, event, k);
      }
    } else {
      forall i | 0 <= i < |cuts| - 1 ensures !BatchNotifies(cuts, i, event) {
        assert BatchBelow(cuts, i);
        CrossedExact(cuts[i + 1], event, cuts[i + 1] - cuts[i]);
        assert cuts[0] <= cuts[i] && cuts[i + 1] <= cuts[|cuts| - 1];
      }
    }
  }
}
