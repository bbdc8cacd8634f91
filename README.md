# D3D12 GPU timestamp bookkeeping, modelled in Dafny

This project models the core of Tracy's Direct3D 12 GPU instrumentation
(`public/tracy/TracyD3D12.hpp`): the per-queue context `D3D12QueueCtx` that owns
a ring of timestamp query slots, and the scoped `D3D12ZoneScope` that opens and
closes GPU zones on a command list.

- **Ring arithmetic** (`ring.dfy`, module `Ring`). A 64-bit query counter is mapped
  onto the ring with `RingIndex` (`index % m_queryLimit`). The distance between
  two counters is `RingCount`: the unsigned 64-bit difference narrowed to 32 bits.
  Fixed-width integers are subset types, and every wrap-around and narrowing of
  the ring counters and query ids is written out.
- **Ring size** (`capacity.dfy`, module `Capacity`). The constructor asks for
  64 × 1024 query slots and halves the request until the device accepts it.
  Which sizes the device accepts is a total predicate `accepts` passed in.
- **Harvest** (`harvest.dfy`, module `Harvest`). This is the pure specification of
  `Collect`'s loop, stated on the contents of the readback buffer. From the
  checkpoint's slot, the run of non-zero slots is taken, cut at the fence value.
  Those slots are reset to 0, and one `GpuTime` event per slot is emitted in
  counter order.
- **Calibration** (`calibration.dfy`, module `Calibration`). The signed CPU tick
  delta decides whether the stored tick count is updated and a calibration event
  is emitted.
- **Context** (`queue_ctx.dfy`, class `QueueContext.D3D12QueueCtx`). The D3D12
  objects are abstract state:
  - the readback buffer is an `array<uint64>` that `Collect` updates in place;
  - the fence's completed value, the success of `Map`, the clock samples, the
    profiler clock and the new context id are parameters;
  - `Signal` calls on the queue are the log `fenceSignals`;
  - the profiler's serial queue is the event log of a `Trace.ProfilerQueue`.
- **Zone scope** (`zone_scope.dfy`, class `ZoneScopes.D3D12ZoneScope`). The
  constructor and the destructor (`End`) append commands to a `Trace.CommandList`
  and events to the profiler queue.

Atomics are modelled sequentially. The source argues that `Collect` stays
correct when allocation runs concurrently (lines 264-271). The model captures
the mechanism behind that argument: harvesting stops at the first unresolved
slot.

Behaviour of the code worth knowing, all of it modelled as written:
- Once `Collect` passes its guards it recalibrates the clocks, even when the very
  first slot is unresolved and nothing is harvested.
- A pending count at or above the ring size only trips a debug assertion. The
  modelled behaviour is the release-build return, with nothing changed.
- The allocation-time overflow test has an empty body. Nothing is reported, and
  the slot is reused (`Ring.OverflowedSlotAliases`).
- The guards of `Collect` test the 32-bit `RingCount`, while the loop walks the
  full 64-bit distance to the fence value. The model keeps both.
  `Ring.RingCountIsDistance` shows they agree whenever the distance fits in
  32 bits. The walk never harvests more than one lap of the ring.
- The halving loop has no lower bound (see Findings).

## Model

| member | source | states |
|---|---|---|
| `Ring.RingIndex` | public/tracy/TracyD3D12.hpp:68-72 | the slot of any counter value lies on the ring: below `m_queryLimit` |
| `Ring.RingIndexPeriodic` | public/tracy/TracyD3D12.hpp:68-72 | counters a whole number of laps apart share a slot, even when the 64-bit counter wraps in between |
| `Ring.RingIndexStep` | public/tracy/TracyD3D12.hpp:310-312 | advancing the counter by j (with 64-bit wrap) advances the slot by j around the ring |
| `Ring.RingCount` | public/tracy/TracyD3D12.hpp:74-79 | the count is the exact difference `end - begin` reduced modulo 2^32 |
| `Ring.RingCountOffset` | public/tracy/TracyD3D12.hpp:74-79 | `RingCount(b, b + k) == k` for every k below 2^32, however `b + k` wraps |
| `Ring.RingCountIsDistance` | public/tracy/TracyD3D12.hpp:258-260 | the 32-bit count equals the 64-bit distance the loop walks whenever that distance fits in 32 bits |
| `Ring.WalkReaches` | public/tracy/TracyD3D12.hpp:310 | the walk `++i` from the checkpoint meets the fence value after exactly the 64-bit distance and never before |
| `Ring.SlotPairInRange` | public/tracy/TracyD3D12.hpp:134 | an even counter on an even ring gives an even begin slot; the end slot `id + 1` is still on the ring; both fit the 16-bit event field unchanged |
| `Ring.CounterStaysEven` | public/tracy/TracyD3D12.hpp:345 | adding 2 with 64-bit wrap keeps the query counter even |
| `Ring.OverflowedSlotAliases` | public/tracy/TracyD3D12.hpp:346-349 | whenever the overflow test fires, the new begin slot is also the slot of the counter value one lap earlier, which lies after the harvest checkpoint by both the 32-bit count and the 64-bit distance, so it is still awaiting harvest |
| `Capacity.ProbeCapacity` | public/tracy/TracyD3D12.hpp:134-146 | corrected probe: a chosen size is an accepted power of two between 2 and 64 × 1024 |
| `Capacity.ProbeCapacityIsLargestAccepted` | public/tracy/TracyD3D12.hpp:142-146 | the probe picks the largest accepted size; when it fails, no valid size was accepted |
| `Capacity.ProbeCapacityAsWritten` | public/tracy/TracyD3D12.hpp:142-146 | the halving loop as written: a size it stops at was accepted and is no larger than the first request |
| `Capacity.AsWrittenProbeCanSettleOnOddSize` | public/tracy/TracyD3D12.hpp:134-146 | a device that accepts only one slot makes the loop as written settle on the odd size 1; the corrected probe refuses it |
| `Capacity.AsWrittenProbeNeverStopsWhenAllRefused` | public/tracy/TracyD3D12.hpp:142-146 | a device that refuses every size keeps the loop as written running for any number of attempts; the corrected probe refuses construction |
| `Harvest.NonZeroRunIsMaximalPrefix` | public/tracy/TracyD3D12.hpp:310-326 | r is the run length iff the r slots from the checkpoint's slot are non-zero and the next one is zero, or a full lap is covered |
| `Harvest.HarvestStopsAtFirstUnresolved` | public/tracy/TracyD3D12.hpp:310-327 | h is the harvest count iff: h does not pass the fence value; all h slots are non-zero; and the walk stopped at the fence, after one lap, or at a zero slot |
| `Harvest.HarvestAdvance` | public/tracy/TracyD3D12.hpp:310-334 | one loop iteration: the slot read is j steps on from the checkpoint's slot; a 0 there means j slots were harvested; otherwise that slot still holds its original timestamp, and taking it resets exactly that slot and appends its event |
| `Harvest.ClearedZeroesHarvested` | public/tracy/TracyD3D12.hpp:334 | after a harvest, every harvested slot reads 0 and every later slot of the lap keeps its value |
| `Harvest.HarvestEventsAt` | public/tracy/TracyD3D12.hpp:328-333 | the j-th GpuTime event carries the j-th slot's timestamp, that slot's index as query id, and the context id |
| `Harvest.CollectAgainHarvestsNothing` | public/tracy/TracyD3D12.hpp:258-335 | a second harvest against the same fence value, with no new timestamps, harvests nothing |
| `Calibration.CpuDeltaSign` | public/tracy/TracyD3D12.hpp:99-100 | the signed delta is positive iff the CPU tick count moved forward by less than 2^63; a forward move is measured exactly; standing still or moving back gives a non-positive delta |
| `Calibration.CalibrationIffForward` | public/tracy/TracyD3D12.hpp:91-116 | the stored ticks become the sample and exactly one calibration event is emitted iff the delta is positive; otherwise nothing changes; a failed sample posts one diagnostic message |
| `QueueContext.D3D12QueueCtx.constructor` | public/tracy/TracyD3D12.hpp:120-221 | see below |
| `QueueContext.D3D12QueueCtx.Name` | public/tracy/TracyD3D12.hpp:230-241 | emits one context-name event carrying the context id and a copy of the first `len` bytes |
| `QueueContext.D3D12QueueCtx.NextQueryId` | public/tracy/TracyD3D12.hpp:343-351 | the counter grows by exactly 2 (with wrap); the result is the ring slot of the old value; it is even and its end slot is on the ring |
| `QueueContext.D3D12QueueCtx.RecalibrateClocks` | public/tracy/TracyD3D12.hpp:89-117 | new stored ticks and emitted events are those of the calibration specification, so `CalibrationIffForward` applies |
| `QueueContext.D3D12QueueCtx.HarvestPass` | public/tracy/TracyD3D12.hpp:310-335 | see below |
| `QueueContext.D3D12QueueCtx.Collect` | public/tracy/TracyD3D12.hpp:243-340 | see below |
| `ZoneScopes.D3D12ZoneScope.constructor` | public/tracy/TracyD3D12.hpp:378-433 | see below |
| `ZoneScopes.D3D12ZoneScope.End` | public/tracy/TracyD3D12.hpp:435-453 | active: the list gets the end query at `queryId + 1`, then a resolve of 2 queries from `queryId` at byte offset `queryId * 8`; one zone-end event carries `queryId + 1`. Inactive: no event |
| `ZoneScopes.ScopedZone` | public/tracy/TracyD3D12.hpp:378-453 | an opened-and-closed zone records begin query, end query, resolve, in that order; it emits zone-begin then zone-end with ids `id` and `id + 1` on the same context; the counter advances by exactly 2 (with wrap), so a following zone gets the next slot pair |

`QueueContext.D3D12QueueCtx.constructor` establishes the following:
- the ring size is the corrected probe's choice, and the readback buffer has that
  size and is all zero;
- the counter and the checkpoint are 0;
- the stored ticks are the sampled CPU ticks;
- exactly one new-context event is emitted, with thread 0 and the calibration
  flag.

`QueueContext.D3D12QueueCtx.HarvestPass` ensures:
- the checkpoint advances by the harvest count;
- the buffer becomes the input with the harvested slots zeroed;
- one GpuTime event per harvested slot is appended.

`QueueContext.D3D12QueueCtx.Collect` ensures:
- When disconnected, when the count is zero, odd or at least the ring size, or
  when mapping fails, the buffer, the checkpoint, the stored ticks and the events
  stay unchanged.
- The fence is re-signalled with the counter only when the count is zero and the
  counter differs from the fence value.
- Otherwise the harvest specification holds, followed by recalibration.

`ZoneScopes.D3D12ZoneScope.constructor` ensures:
- When inactive, nothing changes: the counter, the commands and the events.
- When active:
  - `queryId` is the ring slot of the old counter, and the counter grows by 2;
  - one begin query is recorded at `queryId`;
  - one zone-begin event is emitted with `queryId` and the context id.

## Findings

| source | as written | input that shows it | evidently intended | confidence | as-written member | corrected member |
|---|---|---|---|---|---|---|
| public/tracy/TracyD3D12.hpp:142-146 | the heap-size loop halves with no lower bound, so it can settle on 1 slot, or reach 0 and repeat forever | a device that accepts only a 1-slot heap gives `m_queryLimit == 1`, and the first zone's end query lands at slot 1, outside the heap; a device that refuses all sizes never lets the loop end | keep the ring even, as the comment at line 134 demands, by stopping at one begin/end pair (2 slots) and failing construction loudly below that | low (not executed; needs a device that refuses every even heap size) | `Capacity.AsWrittenProbeCanSettleOnOddSize` | `Capacity.ProbeCapacity` |

The context constructor uses the corrected probe and requires it to succeed.

## Left out

- The D3D12 COM calls are abstract state or parameters: `CreateQueryHeap`
  (the `accepts` predicate), `CreateCommittedResource`, `CreateFence`,
  `GetCompletedValue` (the `latestCheckpoint` parameter), `Map`/`Unmap` (the
  `mapped` parameter), `GetClockCalibration`, `CheckFeatureSupport`, and the
  choice of heap type for copy queues. `EndQuery`, `ResolveQueryData` and
  `Signal` appear only as recorded commands and values.
- `QueueContext.D3D12QueueCtx.constructor` does not model failures to create the
  readback buffer or the fence, to read the timestamp frequency, or to read the
  clock calibration (lines 173, 178, 193, 200). Debug builds abort on them.
  Release builds go on constructing with a null buffer or fence (which crashes
  later), a zero period, or unset calibration values. The model covers the
  calibration pair through the free `gpuTimestamp`/`cpuTimestamp` parameters,
  which may take any value; a null buffer or fence and the period are outside
  it. The copy-queue feature check is a precondition.
- The destructor `~D3D12QueueCtx` only releases COM objects.
  `CreateD3D12Context` and `DestroyD3D12Context` only place and free memory.
  Neither is modelled.
- The floating-point timestamp period (lines 181-194) is float math. It is left
  out, and the new-context event carries no period field.
- The nanoseconds-per-tick factor from `GetFrequencyQpc` depends on a process
  global. It is the parameter `nsPerTick`.
- `QueueContext.D3D12QueueCtx.RecalibrateClocks` computes `cpuDeltaNS` as an
  exact product. It does not model signed 64-bit overflow of that product.
- Atomics and cross-thread interleavings on the query counter and the
  checkpoint are not modelled. Every operation runs sequentially.
- The profiler plumbing becomes appending an abstract event. This covers
  `QueueSerial`, `MemWrite`, `QueueSerialFinish`, `DeferItem`, `GetTime`,
  `GetThreadHandle`, `GetGpuCtxCounter`, `AllocSourceLocation`, `Callstack`
  (only its depth is kept in the zone-begin kind), and `tracy_malloc`/`memcpy`
  in `Name`.
- The profiler's own CPU zone around `Collect` (`ZoneScopedC`, line 245) is
  profiler plumbing and is not modelled.
- The leftover lines in `Collect` (255-256, 283, 306) name members that do not
  exist in this class and are ignored.
- The `TRACY_ENABLE`-off stubs and all macros are call-site plumbing.
  `ZoneScopes.ScopedZone` stands for what a scoped zone macro does.
- The on-demand gate is a boolean: the `connected` parameter of `Collect`, and
  the `active` flag of a zone already combined with it.
- The debug-build `assert(false)` at line 289 and the one inside the panic
  helper at line 42 are not modelled. For these two, the release-build
  behaviour is modelled.
- The field `m_nextCheckpoint` is never used by the source and is not modelled.
