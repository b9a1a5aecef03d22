# Device protocols of the VMM, verified

A Dafny model of the parts of the virtual machine monitor in which a mistake is hardest to see: the
virtqueue and its wakeups, the interrupt path from a device to the guest, scatter/gather over guest
memory, the memory library underneath, and the clock page.  Code that updates state in place is a
class or a method over an array, proved against a function on values; what the system promises over
whole runs is proved about those functions.

| file | what it holds |
|---|---|
| `Wrappers.dfy`, `BitWords.dfy` | shared types; words as sets of bits |
| `Wrapping.dfy` | 16-bit wrapping counters against unbounded ones |
| `DescriptorChain.dfy` | the bounded walk over a descriptor table the guest controls |
| `Virtqueue.dfy` | available and used ring, `Queue`, the drain loop, interrupt suppression over batches |
| `Wakeup.dfy` | driver and worker as a state machine: no lost wakeup, progress of the worker, the queue's calls as its steps; no lost interrupt in the other direction |
| `GuestRegions.dfy`, `QueueLayout.dfy` | the regions behind the devices, and the accesses a queue makes there |
| `RedirectionTable.dfy`, `IoApic.dfy`, `IoApicRuns.dfy` | the software IOAPIC: words, code, whole runs |
| `Transport.dfy` | the virtio-mmio register machine and its lifecycle |
| `InterruptPath.dfy` | transport and IOAPIC together, with signal and acknowledge in one step and in two |
| `EndToEnd.dfy` | used ring, transport and IOAPIC as one machine: from completion to injection |
| `ScatterGather.dfy`, `ChainBuffers.dfy` | consumer, Reader and Writer; chains to host slices; whole transfers |
| `NetRx.dfy` | delivery of received frames, all interleavings with the reader thread, and when frames stall |
| `RegionCollection.dfy`, `GuestMemory.dfy` | region index and multi-region access against a flat byte map |
| `VolatileCopy.dfy`, `DirtyBitmap.dfy` | word-wise copy against byte copy; page bitmap against a set of pages |
| `TscPage.dfy` | reference TSC page: fixed-point arithmetic and its error bound |

`dafny verify dfyconfig.toml` checks the whole project.

Integers are unbounded in Dafny: every place where the code wraps, saturates or truncates is written
out (`Wrap`, `% TWO64`, `LastByte`, `(… / freq) % TWO64`).  Where a build with overflow checks would
panic instead, the model takes the wrapping build: `!addr + 1` in `alignment` for a null address, the
window read of the IOAPIC for selectors below the table, the negated offset of the clock page at 2^63,
and the sums of unchecked address additions.

## Where the code differs from what is written about it

- `consume` documents that the slices it offers hold at most `count` bytes.  The last slice is handed
  over whole; `OfferWithinCount` says exactly when the limit holds, `OfferTooMuch` gives a case.  The loops `read_exact_to` and
  `write_all_from` subtract the amount taken from `count` and rely on it.
- Features are documented as frozen after FEATURES_OK.  `FreezeExact` says over whole runs that they
  are, until a reset, if and only if the driver never writes 6 or 7 where 15 is due; `ThawReachable`
  gives such a run from a fresh transport.
- A device in FAILED is to be reset before it is used again, but the code never leaves FAILED
  (`FailedAbsorbs`), and acked features survive every reset (`AckedOnlyGrow`).
- InterruptACK empties the status and releases the line in two steps.  `FineRunExact` says which
  interleavings lose the interrupt, `AckRace` gives one and `RaceReachable` a run from reset to it.
- A head that the table rejects stays at the front of the ring.  The drain loop ends if and only if
  every waiting head is good; otherwise it asks again after every round, for ever (`Passes`).
- `needs_notification` counts a batch modulo 2^16.  `LostExact` says which decisions lose an interrupt,
  `NoLostInterrupt` that none does below 2^16, and `LongBatchLoses` gives a run that does.
- `is_valid` looks at the ends of the three areas only (`EndsDoNotSuffice`); with the start in the same
  region its conditions suffice (`ValidMeansSafe`).  What each area needs exactly is `TableExact`,
  `AvailExact` and `UsedExact`.  Object accesses that touch the last byte of a region are rejected
  (`ObjectCheckExact`).
- The 16-bit slot offset in `pop` is right up to size 32766 (`PopOffsetExact`), that is for every valid
  size but 32768 (`ValidOffsets`), where the last two slots read the flags and the index (`HeadExact`).
- Frames put back for lack of buffers go behind those read in the meantime: `OrderExact` says that this
  is the only way frames change places, `OvertakingRun` gives a run.
- Frames put back are meant to be delivered once the guest posts buffers, but nothing wakes the worker
  for that: `StallExact` says exactly when frames are left waiting, `StallLasts` that posted buffers do
  not help, and `StalledRun` gives a run.
- `add_used` ignores a failed write of its element and moves the index on: the driver then finds the
  element that was in the slot before, `size` completions old (`AddUsed`).
- The volatile copy copies nothing from or to a null address and still reports the full count
  (`CopySliceVolatile`).
- The clock page bound needs a TSC above 10 MHz (`NoDriftExact`), and no bound on the start.
- `try_access` and `read`/`write` differ on an empty access at an unmapped address (`AccessAgrees`).

## Model

| member | source | states |
|---|---|---|
| Wrapping.SlotExact | src/devices/virtio/queue.rs:457-459 | a wrapped counter taken modulo the ring size gives the slot of the unwrapped one, for every counter, iff the size divides 2^16 |
| Wrapping.CrossedExact | src/devices/virtio/queue.rs:658-663 | the wrapped comparison is true iff one of the positions added has the 16-bit image of the event index |
| Wrapping.PowerOfTwo | src/devices/virtio/queue.rs:371-372 | every size that passes the bit test divides 2^16 |
| BitWords.BitLaws | src/devices/virtio/mmio.rs:267-269 | and, or and and-not act on each bit of a word |
| BitWords.BitsInjective | src/devices/virtio/mmio.rs:360-371 | words with the same one bits are equal |
| BitWords.BitsOfRaised | src/devices/virtio/device.rs:126-126 | shifting a 32-bit word up by 32 moves its one bits up by 32 |
| DescriptorChain.CheckedNew | src/devices/virtio/queue.rs:210-245 | a head is accepted iff it lies in the table, can be read and names no next outside it; it carries the descriptor read there and a fresh ttl |
| DescriptorChain.DescIter.Next | src/devices/virtio/queue.rs:159-170 | each call takes the first element of what is left of the walk, and None at its end for good |
| DescriptorChain.Collect | src/devices/virtio/queue.rs:159-170 | draining the iterator terminates on every table, cycles included, and yields the walk |
| DescriptorChain.WalkBounded | src/devices/virtio/queue.rs:247-283 | at most ttl descriptors, each inside the table, each named by the one before it |
| DescriptorChain.WalkFromHead | src/devices/virtio/queue.rs:210-283 | from a head: at most queue_size descriptors with indices below queue_size |
| DescriptorChain.WalkOverBounded | src/devices/virtio/queue.rs:247-283 | the same bound when the guest rewrites the table between any two reads |
| DescriptorChain.WalkOverConstant | src/devices/virtio/queue.rs:247-283 | with a table that stays the same this is the walk |
| DescriptorChain.Pigeonhole | src/devices/virtio/queue.rs:228-228 | a path of distinct indices below the size is no longer than the size, so the ttl suffices |
| DescriptorChain.WalkComplete | src/devices/virtio/queue.rs:247-283 | an acyclic in-range chain is walked from head to end |
| DescriptorChain.EndsExactly | src/devices/virtio/queue.rs:247-283 | the walk reaches a descriptor without NEXT iff the head starts an acyclic in-range chain |
| DescriptorChain.WhyStopped | src/devices/virtio/queue.rs:272-283 | a walk that does not end was cut by the ttl or by a link that is rejected |
| DescriptorChain.ReadableThenWritable | src/devices/virtio/queue.rs:147-157 | readable prefix followed by writable suffix is the chain |
| Virtqueue.Queue.Len | src/devices/virtio/queue.rs:421-423 | the 16-bit difference is the number of published chains not yet popped |
| Virtqueue.Rings.HeadExact | src/devices/virtio/queue.rs:459-469 | the 16-bit offset finds the published head at every slot up to 32765; slots 32766 and 32767 read the flags and the index |
| Virtqueue.Queue.Pop | src/devices/virtio/queue.rs:431-473 | returns the chain whose head is read at the slot of the oldest position not yet popped, each once; up to size 32766 that is the head published there; a rejected head is not popped |
| Virtqueue.Queue.UndoPop | src/devices/virtio/queue.rs:477-479 | steps back one position, also across a wrap; if the chain popped last is not completed, it is given back |
| Virtqueue.PopAgain | src/devices/virtio/queue.rs:475-479 | pop, undo, pop returns the same chain |
| Virtqueue.Queue.AddUsed | src/devices/virtio/queue.rs:481-514 | appends to the completed history, whether or not a chain is outstanding: the used index is its length mod 2^16 and the ring holds its last `size` elements at slot k mod size; if the element's write fails, the driver finds the element of `size` completions before; an out-of-range head is refused and changes nothing |
| Virtqueue.Queue.SetNotification | src/devices/virtio/queue.rs:577-595 | both suppression modes: the flag, or avail_event set to the position to pop next |
| Virtqueue.Queue.EnableNotification | src/devices/virtio/queue.rs:616-629 | true iff published chains are left |
| Virtqueue.Queue.NeedsNotification | src/devices/virtio/queue.rs:635-666 | with EVENT_IDX, the wrapped comparison for batches of every length; below 2^16, true iff used_event is the image of a completion since the last call; the count restarts |
| Virtqueue.ServeNext | src/devices/virtio/block/worker.rs:163-205 | one request: popped iff the head read is good, completed unless it was skipped |
| Virtqueue.ServedExact | src/devices/virtio/block/worker.rs:199-205 | the used history of a pass, element by element: one for each request answered, in order, with the head of its chain and the length answered |
| Virtqueue.DrainRing | src/devices/virtio/block/worker.rs:160-208 | pops a run of good heads, as read from the ring, in order and completes them in order, up to the end or the first rejected head; the flag says exactly whether something was completed |
| Virtqueue.ProcessQueue | src/devices/virtio/block/worker.rs:160-217 | as DrainRing, and exactly when the batch raises an interrupt, in both modes |
| Virtqueue.ProcessVirtioQueues | src/devices/virtio/block/worker.rs:146-158 | with good heads it ends with every published chain popped and notifications enabled; up to size 32766 the chains served are those published |
| Virtqueue.Pass | src/devices/virtio/block/worker.rs:149-157 | one round asks for another iff some waiting head is rejected, and stops at the first such head |
| Virtqueue.Passes | src/devices/virtio/block/worker.rs:147-158 | for any number of rounds: the loop ends iff every waiting head is good; otherwise nothing is popped or completed after the first round and every round asks again |
| EventSuppression.BatchExact | src/devices/virtio/queue.rs:651-663 | the decision is exact for every event index iff the batch is shorter than 2^16 |
| EventSuppression.ExactlyOneBatch | src/devices/virtio/queue.rs:635-666 | of successive batches that tile at most 2^16 positions exactly one notifies if they cover the event index, and none if they do not |
| Wakeup.NextKeepsInv | src/devices/virtio/queue.rs:577-629 | every single access by driver or worker keeps: a sleeping worker with work to do is about to be woken |
| Wakeup.BehaviorKeepsInv | src/devices/virtio/block/worker.rs:98-158 | the invariant in every state of every interleaving |
| Wakeup.NoLostWakeup | src/devices/virtio/block/worker.rs:98-158 | worker asleep, no event pending, driver not between index and notification: everything published is popped, in both modes and across wraps |
| Wakeup.WorkerProgress | src/devices/virtio/block/worker.rs:146-158 | every worker step lowers a rank: left alone it reaches sleep |
| Wakeup.StuckMeansAsleep | src/devices/virtio/block/worker.rs:105-119 | the worker can only be stuck asleep without an event, with an empty ring |
| WorkerRefines.DisableStep | src/devices/virtio/queue.rs:631-633 | disable_notification on the queue is the machine's step Disable |
| WorkerRefines.PopStep | src/devices/virtio/queue.rs:431-473 | pop on the queue is the step Pop, or Drained when the ring is empty; a rejected head changes nothing |
| WorkerRefines.CompleteStep | src/devices/virtio/queue.rs:481-514 | add_used on the queue is the step Complete |
| WorkerRefines.EnableStep | src/devices/virtio/queue.rs:616-619 | the first half of enable_notification is the step Enable |
| WorkerRefines.CheckStep | src/devices/virtio/queue.rs:627-629 | its second half, after whatever the driver did in between, is the step Check |
| DeviceRefines.CompleteStep | src/devices/virtio/queue.rs:481-514 | add_used on the queue is the step Complete of the interrupt machine |
| DeviceRefines.DecideStep | src/devices/virtio/queue.rs:635-666 | needs_notification on the queue is its step Decide, for batches of every length |
| UsedInterrupts.ReachesBack | src/devices/virtio/queue.rs:658-663 | the decision reaches the driver's position iff the 16-bit batch count is large enough |
| UsedInterrupts.InterruptExact | src/devices/virtio/queue.rs:635-666 | from a state in which nothing is lost, exactly which step loses an interrupt |
| UsedInterrupts.LostExact | src/devices/virtio/queue.rs:635-666 | over every run: interrupts are never lost iff no decision misses the driver's position |
| UsedInterrupts.NoLostInterrupt | src/devices/virtio/queue.rs:635-666 | with batches below 2^16: driver asleep, nothing on its way, device decided: every completion is taken |
| UsedInterrupts.LongBatchLoses | src/devices/virtio/queue.rs:658-663 | a run with a batch of 2^16 + 1 completions that loses one |
| GuestRegions.FindRegion | src/memory/memory.rs:275-278 | a region that holds the address, None iff no region does |
| GuestRegions.FindUnique | src/memory/memory.rs:275-278 | in disjoint regions the first match is the only one |
| GuestRegions.ObjectCheckExact | src/memory/memory.rs:369-403 | an object access succeeds iff it lies inside the region of its first byte, leaves that region's last byte alone, and the region has host memory and allows the read or the write |
| GuestRegions.ObjectCheckWraps | src/memory/memory.rs:371-371 | past the end of the address space the sum wraps: which of these accesses, none of them inside, are let through |
| GuestRegions.GetSlice | src/memory/memory.rs:147-176 | a slice exists iff it lies in the region, last byte included, and the region has host memory; it starts at the offset in it |
| QueueLayout.WithinArea | src/memory/memory.rs:369-403 | an access between start and end of an area whose start shares the end's region succeeds in bounds |
| QueueLayout.ValidExact | src/devices/virtio/queue.rs:360-417 | valid iff ready, of a power-of-two size that is offered, with aligned areas each followed by a byte that some region holds |
| QueueLayout.AvailLayout | src/devices/virtio/queue.rs:443-469 | flags, idx, ring and used_event one after the other |
| QueueLayout.UsedLayout | src/devices/virtio/queue.rs:493-510 | flags, idx, ring and avail_event one after the other |
| QueueLayout.ValidMeansSafe | src/devices/virtio/queue.rs:360-417 | with is_valid, and each area starting in the region of its end, every access of pop, add_used, used_event, set_avail_event, set_used_flags, avail_idx and descriptor reads succeeds in bounds for every counter |
| QueueLayout.PopOffsetExact | src/devices/virtio/queue.rs:459-459 | the 16-bit offset is the slot's offset for every counter iff the size is at most 32766 |
| QueueLayout.ValidOffsets | src/devices/virtio/queue.rs:371-372 | among valid sizes only 32768 breaks it; valid sizes divide 2^16 |
| QueueLayout.TableExact | src/devices/virtio/queue.rs:375-386 | all descriptor table entries can be read iff the end passes the range check and lies in the region of the start |
| QueueLayout.AvailExact | src/devices/virtio/queue.rs:387-397 | every available ring access works iff the index lies in one region and so does everything from the first slot to the end |
| QueueLayout.AvailExactAtMost | src/devices/virtio/queue.rs:459-459 | at size 32768, where offsets wrap: every available ring access works iff the first 65537 bytes lie in one region and used_event does too |
| QueueLayout.UsedExact | src/devices/virtio/queue.rs:398-408 | every used ring access works iff flags and index lie in one region each and so does everything from the first element to the end |
| QueueLayout.EndsDoNotSuffice | src/devices/virtio/queue.rs:375-386 | a valid queue whose table cannot be read |
| RedirectionTable.DecodeInjective | src/devices/legacy/ioapic.rs:83-93 | the fields determine all 64 bits of an entry |
| RedirectionTable.RemoteIrrMasks | src/devices/legacy/ioapic.rs:201-205 | testing, setting and clearing Remote IRR by mask changes that field and no other |
| RedirectionTable.ParseEntry | src/devices/legacy/ioapic.rs:136-145 | the shifted-out fields are the fields of the entry |
| RedirectionTable.MergeIsFieldWrite | src/devices/legacy/ioapic.rs:386-402 | writing one half changes its writable fields, keeps the two read-only bits and the other half |
| RedirectionTable.FixEdge | src/devices/legacy/ioapic.rs:201-205 | an edge entry has no Remote IRR afterwards; nothing else changes |
| RedirectionTable.SetIrrBit | src/devices/legacy/ioapic.rs:257-257 | setting a pin's bit of the request word changes that pin only |
| RedirectionTable.ClearIrrBit | src/devices/legacy/ioapic.rs:270-270 | clearing a pin's bit of the request word changes that pin only |
| IoApicCode.IoApic.constructor | src/devices/legacy/ioapic.rs:120-133 | all pins start masked and idle, quiescent |
| IoApicCode.IoApic.Service | src/devices/legacy/ioapic.rs:208-237 | the scan serves every pin independently and injects exactly the deliverable ones, in pin order |
| IoApicCode.IoApic.SetIrq | src/devices/legacy/ioapic.rs:249-264 | quiescence is kept; state and injections are those of the specification |
| IoApicCode.IoApic.ClearIrq | src/devices/legacy/ioapic.rs:266-274 | the request of that pin is dropped, nothing else; quiescence is kept |
| IoApicCode.IoApic.UpdateEntry | src/devices/legacy/ioapic.rs:386-406 | one half of the selected entry is rewritten; a Remote IRR lost by switching to edge is recorded |
| IoApicCode.IoApic.WriteEntry | src/devices/legacy/ioapic.rs:386-410 | rewriting an entry and servicing leaves the table quiescent again |
| IoApicCode.IoApic.EoiPin | src/devices/legacy/ioapic.rs:419-431 | the rescan inside the EOI loop changes and injects no pin but the one at hand |
| IoApicCode.IoApic.Eoi | src/devices/legacy/ioapic.rs:413-432 | despite the rescans an EOI acts on each pin independently |
| IoApicCode.IoApic.Write | src/devices/legacy/ioapic.rs:340-437 | every register write, all offsets, sizes and selectors, refines the specification and keeps quiescence |
| IoApicCode.IoApic.Read | src/devices/legacy/ioapic.rs:278-338 | what each register reads as, selectors below and above the table included |
| IoApicCode.ServiceOne | src/devices/legacy/ioapic.rs:208-237 | if all other pins are quiet, servicing touches and injects one pin |
| IoApicRuns.NextQuiet | src/devices/legacy/ioapic.rs:208-274 | every public operation keeps quiescence |
| IoApicRuns.RunQuiet | src/devices/legacy/ioapic.rs:208-274 | after any run an unmasked pending pin is level with Remote IRR set, and edge entries have none |
| IoApicRuns.ServiceInjections | src/devices/legacy/ioapic.rs:208-237 | a scan injects once each unmasked pending pin that does not await an EOI, and no other |
| IoApicRuns.AssertionInjects | src/devices/legacy/ioapic.rs:249-264 | set_irq injects its pin once unless it is masked or awaits an EOI, and no other pin |
| IoApicRuns.NextCarries | src/devices/legacy/ioapic.rs:148-178 | every injection carries vector, destination, destination mode, trigger mode and interrupt type of its pin's entry |
| IoApicRuns.EoiCarries | src/devices/legacy/ioapic.rs:413-432 | what an EOI injects carries the vector acknowledged |
| IoApicRuns.EntryRegisters | src/devices/legacy/ioapic.rs:367-410 | selector 0x10 + 2i writes the low half of entry i, 0x11 + 2i its high half, bit by bit, and no other entry |
| IoApicRuns.PlainRegisters | src/devices/legacy/ioapic.rs:340-377 | what the selector and ID registers take, and which writes are ignored |
| IoApicRuns.EoiInjections | src/devices/legacy/ioapic.rs:413-432 | an EOI injects exactly once each unmasked pin with that vector, Remote IRR and request set, and no other |
| IoApicRuns.RunAlternates | src/devices/legacy/ioapic.rs:208-264 | over any run level injections and Remote IRR clears of a pin take turns, ending at its Remote IRR bit |
| IoApicRuns.LevelAccounting | src/devices/legacy/ioapic.rs:208-264 | level injections minus clears equals the Remote IRR bit |
| IoApicRuns.ClearBetweenInjections | src/devices/legacy/ioapic.rs:413-432 | two level injections of a pin have a clear of it between them |
| IoApicRuns.EdgeAccounting | src/devices/legacy/ioapic.rs:219-264 | edge injections plus a pending request never exceed the set_irq calls of the pin |
| TransportCode.MmioTransport.Activate | src/devices/virtio/mmio.rs:327-347 | the queues leave the transport and the worker starts, with EVENT_IDX as negotiated |
| TransportCode.CheckMeans | src/devices/virtio/mmio.rs:267-269 | the mask test is true iff all required bits are set and no excluded one is |
| TransportCode.StatusArms | src/devices/virtio/mmio.rs:360-371 | the arms of the status match, on words, are the steps of initialization, on sets of bits |
| TransportCode.AckMeans | src/devices/virtio/device.rs:133-141 | taking out the unrequested bits adds exactly the offered ones |
| TransportCode.HalfWrites | src/devices/virtio/mmio.rs:465-471 | the mask writes of one half of an address replace that half and keep the other |
| TransportCode.MmioTransport.Reset | src/devices/virtio/mmio.rs:310-325 | the words after a reset stand for cleared selectors, status and interrupt status, and fresh queues |
| TransportCode.MmioTransport.SetDeviceStatus | src/devices/virtio/mmio.rs:357-399 | the match on `!device_status & status` refines the status machine on sets of bits, all transitions |
| TransportCode.MmioTransport.Restart | src/devices/virtio/mmio.rs:381-391 | a write of zero resets device and transport, or leaves FAILED |
| TransportCode.MmioTransport.UpdateQueueField | src/devices/virtio/mmio.rs:298-308 | the mask test and word write change a queue field iff FEATURES_OK is set, FAILED is not, and the selected queue is with the transport |
| TransportCode.MmioTransport.AckFeaturesByPage | src/devices/virtio/device.rs:123-142 | on 64-bit feature words: only offered features of that page are added |
| TransportCode.MmioTransport.Write | src/devices/virtio/mmio.rs:464-530 | every 32-bit register write on the words refines the specification on sets and halves |
| TransportRuns.LifecycleRun | src/devices/virtio/mmio.rs:357-399 | over every write sequence: queues held iff not activated while FAILED is clear, one activation between resets, no worker thread when activate runs, acked within offered |
| TransportRuns.FailedAbsorbs | src/devices/virtio/mmio.rs:377-391 | FAILED stays set |
| TransportRuns.ActivationExact | src/devices/virtio/mmio.rs:370-376 | a write activates iff it is a status write that adds DRIVER_OK, alone, to ACKNOWLEDGE, DRIVER and FEATURES_OK |
| TransportRuns.ActivationHandsOver | src/devices/virtio/mmio.rs:327-347 | the queues are handed over as they are, with EVENT_IDX on iff it was acked |
| TransportRuns.QueueRegisters | src/devices/virtio/mmio.rs:494-524 | each queue register changes its own field of the selected queue and nothing else |
| TransportRuns.QueueSetUp | src/devices/virtio/mmio.rs:494-524 | over any sequence of queue register writes, in any order: each field ends with the value last written to its register, all else is unchanged |
| TransportRuns.AckRegister | src/devices/virtio/mmio.rs:504-517 | a bit of InterruptStatus stays iff it was set and is not acknowledged; the line is released iff none stays |
| TransportRuns.SelectRegisters | src/devices/virtio/mmio.rs:477-503 | the selector and notification registers change what they name and nothing else |
| TransportRuns.FeatureRegister | src/devices/virtio/device.rs:123-142 | which features are acked after a write, bit by bit, for both halves |
| TransportRuns.FailedRegister | src/devices/virtio/mmio.rs:377-380 | a status write with FAILED sets it and does nothing else |
| TransportRuns.OtherStatusIgnored | src/devices/virtio/mmio.rs:392-397 | status writes that are no step, failure or reset are ignored |
| TransportRuns.ResetClears | src/devices/virtio/mmio.rs:310-325 | what a reset leaves: fresh queues, cleared selectors, status and interrupt status, no worker |
| TransportRuns.ResetRefused | src/devices/virtio/mmio.rs:381-387 | a running device that cannot be reset fails |
| TransportRuns.FeaturesFrozen | src/devices/virtio/mmio.rs:478-491 | acked features are constant from FEATURES_OK on while no status write drops the bit |
| TransportRuns.ThawExact | src/devices/virtio/mmio.rs:370-376 | the two status writes, 6 and 7, that re-open feature negotiation from a state with FEATURES_OK |
| TransportRuns.FreezeExact | src/devices/virtio/mmio.rs:357-399 | over every run without a reset: negotiation stays closed iff no status write is 6 or 7 where 15 is due, and then the acked features do not change |
| TransportRuns.FeaturesThawed | src/devices/virtio/mmio.rs:478-491 | a feature acked on a running device after a status write of 6 |
| TransportRuns.ThawReachable | src/devices/virtio/mmio.rs:357-399 | a run from a fresh transport to a feature acked on a running device |
| TransportRuns.AckedOnlyGrow | src/devices/virtio/device.rs:123-142 | no register write drops an acked feature |
| TransportCode.AddressFromHalves | src/devices/virtio/mmio.rs:465-471 | the two half writes, in either order, give the 64-bit address |
| InterruptPath.RegisterEffect | src/devices/virtio/mmio.rs:464-530 | no register write raises an interrupt, and only an acknowledge that leaves none releases the line |
| InterruptPath.AssertedExact | src/devices/virtio/mmio.rs:146-176 | with signal and every register write one step each, a step keeps the line up for a pending device iff nothing is pending or the pin is not left unmasked and edge-triggered |
| InterruptPath.PendingIsUnderWay | src/devices/virtio/mmio.rs:504-517 | over any run of signals, register writes (activation and reset included) and IOAPIC operations on such a pin: non-zero InterruptStatus means the request bit is set and, unmasked, Remote IRR |
| InterruptPath.EoiReinjects | src/devices/legacy/ioapic.rs:413-432 | an EOI that finds the device pending injects its pin again, once |
| InterruptPath.AckInOneStep | src/devices/virtio/mmio.rs:504-517 | the two halves of an acknowledge with nothing in between are the one step |
| InterruptPath.FineAssertedExact | src/devices/virtio/mmio.rs:504-517 | with signal and ack split in two, exactly which step loses the request |
| InterruptPath.FineRunExact | src/devices/virtio/mmio.rs:504-517 | over every interleaving: the request is never lost iff no step of the run is one of these |
| InterruptPath.AckRace | src/devices/virtio/mmio.rs:506-515 | the interleaving that loses it |
| InterruptPath.RaceReachable | src/devices/virtio/mmio.rs:504-517 | a run from reset, every step enabled, that ends with the interrupt lost |
| EndToEnd.NextInv | src/devices/virtio/mmio.rs:146-158 | every harmless step of device, driver and guest keeps ring, transport and pin in step |
| EndToEnd.CompletionIsInjected | src/devices/virtio/queue.rs:635-666 | over every such run: driver asleep with completions left and decided about means the interrupt is pending, the request latched and, unmasked, Remote IRR set |
| ScatterGather.FlattenConcat | src/devices/virtio/descriptor_utils.rs:66-73 | slices side by side cover their addresses side by side |
| ScatterGather.OfferedEnough | src/devices/virtio/descriptor_utils.rs:92-113 | what is offered is a prefix that holds count bytes or everything |
| ScatterGather.OfferWithinCount | src/devices/virtio/descriptor_utils.rs:79-107 | the offer stays within count iff count ends on a slice boundary or beyond the end |
| ScatterGather.OfferTooMuch | src/devices/virtio/descriptor_utils.rs:94-107 | one 512-byte slice and a count of 100: 512 bytes are offered |
| ScatterGather.DroppedFlat | src/devices/virtio/descriptor_utils.rs:123-136 | popping and cutting slices drops that many addresses from the front, nothing else |
| ScatterGather.Consumer.AvailableBytes | src/devices/virtio/descriptor_utils.rs:66-73 | the number of addresses not yet consumed |
| ScatterGather.Consumer.Select | src/devices/virtio/descriptor_utils.rs:92-107 | the shortest prefix of slices that holds count bytes, or all |
| ScatterGather.Consumer.Advance | src/devices/virtio/descriptor_utils.rs:123-138 | the remaining addresses are the original ones without the bytes consumed |
| ScatterGather.Consumer.Consume | src/devices/virtio/descriptor_utils.rs:88-141 | conservation for any callback that takes at most what is offered; an error consumes nothing; the overflow error cannot happen |
| ScatterGather.Read | src/devices/virtio/descriptor_utils.rs:312-330 | exactly min(buffer, available) bytes, in chain order; the rest of the buffer is untouched |
| ScatterGather.Write | src/devices/virtio/descriptor_utils.rs:453-470 | exactly min(data, available) bytes go to the next addresses of the chain |
| ScatterGather.LoadStore | src/devices/virtio/descriptor_utils.rs:453-470 | through distinct addresses, reading after writing gives the data |
| ScatterGather.StoreFrame | src/devices/virtio/descriptor_utils.rs:453-470 | nothing outside the addresses changes |
| ChainBuffers.AccessSeesSameByte | src/memory/memory.rs:369-403 | object accesses go to the host byte that a slice shows for the address |
| ChainBuffers.Buffers | src/devices/virtio/descriptor_utils.rs:346-370 | succeeds iff every descriptor lies in one mapped region; each slice is its descriptor's part of the first region that holds it; in disjoint regions the slices are the descriptors' guest bytes, translated one by one, in order |
| ChainBuffers.NewReader | src/devices/virtio/descriptor_utils.rs:195-224 | a Reader covers exactly the readable descriptors of the chain |
| ChainBuffers.NewWriter | src/devices/virtio/descriptor_utils.rs:346-377 | a Writer covers exactly the descriptors from the first writable one on |
| ChainBuffers.ReaderThenWriter | src/devices/virtio/descriptor_utils.rs:195-377 | together they cover the chain's bytes, in order, none twice |
| ChainBuffers.WriteAll | src/devices/virtio/descriptor_utils.rs:380-382 | succeeds iff the data fits; either way the fitting prefix is written, once, in order |
| ChainBuffers.WriteThenRead | src/devices/virtio/descriptor_utils.rs:312-330 | write_all then read over disjoint buffers gives the data back |
| RxRuns.FramesConserved | src/devices/virtio/net/worker.rs:327-358 | in every interleaving the frames read are those delivered, dropped, in hand and pending, as multisets |
| RxRuns.OrderExact | src/devices/virtio/net/worker.rs:346-357 | frames are in the order they were read iff no re-queue found a frame pushed since its drain |
| RxRuns.OvertakingRun | src/devices/virtio/net/worker.rs:346-357 | four steps after which two frames have changed places |
| RxRuns.RoundIsRun | src/devices/virtio/net/worker.rs:327-358 | a round of the worker, with arrivals in between, is a run of the state machine |
| RxWakeup.StallExact | src/devices/virtio/net/worker.rs:196-238 | over every run: with worker and reader idle and no event pending, frames are left over iff the last round ended by putting frames back |
| RxWakeup.StallLasts | src/devices/virtio/net/worker.rs:196-223 | until another frame is read, posting buffers is all that can happen, and it changes nothing else |
| RxWakeup.StalledRun | src/devices/virtio/net/worker.rs:346-357 | a run that stalls one frame however many buffers are posted |
| NetWorker.Header | src/devices/virtio/net/worker.rs:36-41 | twelve bytes, all zero but num_buffers, which is 1 |
| NetWorker.HeaderThenFrame | src/devices/virtio/net/worker.rs:382-404 | header and frame written one after the other are one message |
| NetWorker.PlaceFrame | src/devices/virtio/net/worker.rs:382-404 | the chain's first 12 + len addresses get header and frame; both writes succeed |
| NetWorker.Worker.Deliver | src/devices/virtio/net/worker.rs:361-408 | delivered with used length 12 + len, completed with length 0 if too small, dropped uncompleted if the chain cannot be mapped |
| NetWorker.Worker.ServeAll | src/devices/virtio/net/worker.rs:339-409 | frames are served in order until chains run out; oversized ones take no chain |
| NetWorker.Worker.ProcessRx | src/devices/virtio/net/worker.rs:327-415 | memory, used ring, chains left, what is put back behind the arrivals, and that the guest is signalled iff a frame was delivered and the queue asks for it |
| NetWorker.FatesExact | src/devices/virtio/net/worker.rs:339-380 | frame by frame: over 1514 bytes dropped; else the next chain, and delivered iff it is mapped and holds 12 + len bytes, too small iff mapped and shorter, bad iff not mapped; settling stops only without chains |
| NetWorker.CompletionsExact | src/devices/virtio/net/worker.rs:371-407 | entry by entry: (head, 12 + len) for each frame delivered, (head, 0) for each too small, nothing for the others, in frame order |
| NetWorker.DeliveredIntact | src/devices/virtio/net/worker.rs:382-404 | a delivered frame is in its buffer at the end of the round, header first, byte for byte |
| NetWorker.OthersIntact | src/devices/virtio/net/worker.rs:382-404 | a round changes no byte but those of headers and frames |
| NetWorker.ProcessIsRun | src/devices/virtio/net/worker.rs:327-358 | what ProcessRx leaves pending, delivers and drops is what the run leaves pending, delivers and drops |
| RegionCollection.AdjacentMeansAllPairs | vm-memory/src/region.rs:249-260 | the window check is equivalent to all-pairs sorted disjointness |
| RegionCollection.FromRegions | vm-memory/src/region.rs:242-263 | accepts exactly the non-empty sorted disjoint lists; the first bad window decides the error |
| RegionCollection.FindRegion | vm-memory/src/region.rs:310-318 | binary search agrees with the linear default for every address |
| RegionCollection.LinearFind | vm-memory/src/guest_memory.rs:283-286 | a region that holds the address, None iff none does |
| RegionCollection.SortSorts | vm-memory/src/region.rs:275-275 | sorting gives a sorted permutation |
| RegionCollection.InsertRegion | vm-memory/src/region.rs:269-278 | succeeds iff the region is apart from all others, else reports an overlap; all others keep their order |
| RegionCollection.RemoveRegion | vm-memory/src/region.rs:286-301 | removes the region with that base and size iff there is one |
| RegionCollection.InsertThenRemove | vm-memory/src/region.rs:269-301 | removing what was inserted restores the collection |
| GuestMemory.SliceIterator.Next | vm-memory/src/guest_memory.rs:513-567 | contiguous non-empty slices, each in one region and as long as possible; a hole is reported once; no overflow |
| GuestMemory.GetSlices | vm-memory/src/guest_memory.rs:473-483 | the slices tile exactly the longest mapped prefix, and fail iff it is short |
| GuestMemory.CheckRange | vm-memory/src/guest_memory.rs:357-361 | true iff every address is mapped |
| GuestMemory.Memory.Write | vm-memory/src/guest_memory.rs:578-582 | writes the mapped prefix of the flat byte map and nothing else, and returns its length |
| GuestMemory.Memory.Read | vm-memory/src/guest_memory.rs:584-588 | reads the mapped prefix of the flat byte map; the rest of the buffer is untouched |
| GuestMemory.ReadBack | vm-memory/src/guest_memory.rs:578-588 | reading what was written gives it back |
| GuestMemory.TryAccess | vm-memory/src/guest_memory.rs:382-416 | never handles more than asked for; with any stateful callback that makes progress, full or partial, it handles exactly the mapped prefix |
| GuestMemory.AccessAgrees | vm-memory/src/guest_memory.rs:382-416 | it agrees with read and write iff there is something to access or the address is mapped |
| VolatileCopy.AlignmentExact | vm-memory/src/volatile_memory.rs:1309-1312 | a power of two divides an address iff it is at most `addr & (!addr + 1)`; null has alignment 0 |
| VolatileCopy.Moved | vm-memory/src/volatile_memory.rs:1322-1330 | a copy, byte by byte: byte i of the target is byte i of the source, every other byte is unchanged |
| VolatileCopy.CopySingle | vm-memory/src/volatile_memory.rs:1322-1330 | one aligned word is copied |
| VolatileCopy.CopyAligned | vm-memory/src/volatile_memory.rs:1341-1373 | words of one width are copied while they fit, each aligned at both ends |
| VolatileCopy.CopySliceVolatile | vm-memory/src/volatile_memory.rs:1336-1382 | for non-null addresses a byte copy whose accesses tile the range, all naturally aligned; for null nothing |
| VolatileCopy.CopySlice | vm-memory/src/volatile_memory.rs:1388-1406 | a byte copy, unless it is short and an address is null |
| DirtyBitmap.AtomicBitmap.constructor | vm-memory/src/bitmap/backend/atomic_bitmap.rs:26-37 | one clean bit per page |
| DirtyBitmap.AtomicBitmap.Enlarge | vm-memory/src/bitmap/backend/atomic_bitmap.rs:41-46 | new pages are clean, the others unchanged |
| DirtyBitmap.AtomicBitmap.IsBitSet | vm-memory/src/bitmap/backend/atomic_bitmap.rs:49-56 | true iff the page is in the set |
| DirtyBitmap.AtomicBitmap.IsAddrSet | vm-memory/src/bitmap/backend/atomic_bitmap.rs:59-61 | true iff the page of the address is in the set |
| DirtyBitmap.AtomicBitmap.SetResetAddrRange | vm-memory/src/bitmap/backend/atomic_bitmap.rs:74-97 | bit n below the size takes the new value iff [n * page_size, (n + 1) * page_size) meets the range; padding bits stay zero |
| DirtyBitmap.AtomicBitmap.GetAndReset | vm-memory/src/bitmap/backend/atomic_bitmap.rs:134-139 | the words handed out are the set of dirty pages, and none is dirty afterwards |
| DirtyBitmap.PageOf | vm-memory/src/bitmap/backend/atomic_bitmap.rs:59-61 | the page p of a byte: p * page_size is not above it and (p + 1) * page_size is |
| DirtyBitmap.WordLayout | vm-memory/src/bitmap/backend/atomic_bitmap.rs:49-56 | the bit of page n is bit n mod 64 of word n / 64 |
| DirtyBitmap.TouchedIsARange | vm-memory/src/bitmap/backend/atomic_bitmap.rs:81-84 | the pages whose interval of bytes meets a range are those from the first to the (saturated) last |
| DirtyBitmap.DerivedWithin | vm-memory/src/volatile_memory.rs:480-535 | after any composition of offset, subslice and split_at the bitmap offset is the distance from the root |
| DirtyBitmap.DeriveExact | vm-memory/src/volatile_memory.rs:480-535 | slicing succeeds iff the part asked for lies in the slice, and then shows exactly those bytes |
| DirtyBitmap.SplitTiles | vm-memory/src/volatile_memory.rs:480-487 | the two parts lie side by side and make up the slice |
| DirtyBitmap.CopyToVolatileSlice | vm-memory/src/volatile_memory.rs:1427-1438 | a write through a derived slice copies the bytes and marks exactly the root pages that hold one of them; every page on which a byte changed is dirty |
| TscPage.ZeroAtStart | src/vm.rs:434-435 | time is 0 at the start, for every start |
| TscPage.Monotone | src/vm.rs:428-435 | time never runs backwards |
| TscPage.ScaleExact | src/vm.rs:432-432 | above 10 MHz the scale fits 64 bits and misses the ratio by less than one unit |
| TscPage.NoDrift | src/vm.rs:428-435 | less than one unit above and less than two below the exact count, for every later TSC value |
| TscPage.NoDriftExact | src/vm.rs:432-432 | for all starts and values iff the frequency is above 10 MHz |
| TscPage.LeRoundTrip | src/vm.rs:437-440 | little-endian bytes decode to the number |
| TscPage.TscReferencePage | src/vm.rs:437-440 | the page's bytes carry sequence 1, scale and offset, the rest is zero, and the guest reads the time from them |

## Left out

- Hypervisor calls, handles and threads: an injection is an entry of a trace, an event is a boolean that a wait resets, a worker thread is a flag.
- The driver: `Rings.Publish`, `WorkerRefines.PublishStep` and the driver steps of `Wakeup` are what sections 2.6.6 and 2.6.10 of VIRTIO 1.1 ask of it; its code is not part of the repository.
- CPU memory ordering and fences: steps are sequentially consistent.
- `irq_eoi` of the IOAPIC: it is written and never read.
- A failing `activate` of a device: the code panics on it; the device modelled here starts its worker.
- Config space, shared memory registers and accesses that are not 32 bits wide in the transport.
- Placement of rings in bytes: `Virtqueue` works on ring slots; `QueueLayout` shows separately that their accesses are in bounds.
- Virtqueue.ProcessVirtioQueues: stated for good heads, the case in which the loop of the code ends; `Passes` covers every other case for any number of rounds.
- ChainBuffers.Buffers: regions are not empty and end below 2^64, as every region that is allocated does.
- The request formats of block, network transmit and console workers: what a request writes is a parameter.
- File transfers with `read_to` and `write_from`: they are `Consume` with a callback.
- `DescriptorChainConsumer::split_at`: no worker calls it.
- NetWorker.Worker.ProcessRx: the answer of `NeedsNotification` is a parameter and receive chains are a list, as `Pop` yields them; the rings are not modelled a second time.
- `read_frame` and the batching of the reader thread: pushes may come at any time.
- Boot, ACPI, CPU set-up, configuration, disk formats, the MMIO bus and the console: glue, or easier instances of what is here.
