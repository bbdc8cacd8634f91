/** The per-queue timestamp context: the ring of query slots, its readback
    buffer, the slot allocator and the harvest checkpoint. The D3D12 objects
    are abstract state: the readback buffer is an array of 64-bit timestamps,
    Signal calls on the queue for the checkpoint fence are a log of values, and
    the profiler queue is an event log. Everything the device or the host
    decides (heap-size acceptance, fence progress, clock samples, times) is a
    parameter. */
module QueueContext {
  import opened Ring
  import opened Trace
  import opened Capacity
  import opened Harvest
  import opened Calibration

  /** True when a Collect call takes the harvesting path: the pending count is
      a non-zero, even number of slots below the ring size and the readback
      buffer could be mapped. */
  predicate Harvests(connected: bool, count: uint32, limit: uint32, mapped: bool)
  {
    connected && count != 0 && count % 2 == 0 && count < limit && mapped
  }

  class D3D12QueueCtx {
    const contextId: uint8
    const queryLimit: uint32
    const readback: array<uint64>
    var queryCounter: uint64
    var previousCheckpoint: uint64
    var prevCalibrationTicksCpu: uint64
    /** Values passed to Signal on the queue for the checkpoint fence, oldest first. */
    var fenceSignals: seq<uint64>

    ghost predicate Valid()
      reads this
    {
      ValidCapacity(queryLimit) && readback.Length == queryLimit && queryCounter % 2 == 0
    }

    /** Builds a context for a queue. `accepts` says which query-heap sizes the
        device can create; the calibration pair and the new context id are the
        values the queue and the global counter hand out; `now` is the
        profiler's clock. */
    constructor (copyQueue: bool, copyQueueTimestamps: bool, accepts: uint32 -> bool,
                 gpuTimestamp: uint64, cpuTimestamp: uint64, now: int, id: uint8,
                 queue: ProfilerQueue)
      requires copyQueue ==> copyQueueTimestamps
      requires ProbeCapacity(accepts, MaxQueries).Some?
      modifies queue
      ensures Valid() && fresh(readback)
      ensures queryLimit == ProbeCapacity(accepts, MaxQueries).value
      ensures forall k :: 0 <= k < readback.Length ==> readback[k] == 0
      ensures queryCounter == 0 && previousCheckpoint == 0 && fenceSignals == []
      ensures prevCalibrationTicksCpu == cpuTimestamp && contextId == id
      ensures queue.events ==
        old(queue.events) + [GpuNewContext(now, gpuTimestamp, 0, id, GpuContextCalibration, Direct3D12)]
    {
      var limit := MaxQueries;
      while !accepts(limit)
        invariant ValidCapacity(limit)
        invariant ProbeCapacity(accepts, limit) == ProbeCapacity(accepts, MaxQueries)
        decreases limit
      {
        limit := limit / 2;
      }
      queryLimit := limit;
      readback := new uint64[limit](_ => 0);
      queryCounter, previousCheckpoint := 0, 0;
      prevCalibrationTicksCpu := cpuTimestamp;
      fenceSignals := [];
      contextId := id;
      new;
      queue.events := queue.events + [GpuNewContext(now, gpuTimestamp, 0, id, GpuContextCalibration, Direct3D12)];
    }

    /** Posts the context's name: the first `len` bytes of `name` are copied into a blob owned by the event. */
    method Name(name: seq<uint8>, len: uint16, queue: ProfilerQueue)
      requires len <= |name|
      modifies queue
      ensures queue.events == old(queue.events) + [GpuContextName(contextId, name[..len], len)]
    {
      var copy := name[..len];
      queue.events := queue.events + [GpuContextName(contextId, copy, len)];
    }

    /** Allocates a begin/end slot pair: the counter advances by 2 and the begin
        slot is the ring slot of its previous value. The overflow test of the
        source has an empty body, so an overflowing allocation reuses the slot
        silently (see OverflowedSlotAliases). */
    method NextQueryId() returns (id: uint32)
      requires Valid()
      modifies this`queryCounter
      ensures Valid()
      ensures queryCounter == Wrap64(old(queryCounter) + 2)
      ensures id == RingIndex(old(queryCounter), queryLimit)
      ensures id % 2 == 0 && id + 1 < queryLimit
    {
      var counter := queryCounter;
      queryCounter := Wrap64(counter as int + 2);
      CounterStaysEven(counter);
      if RingOverflow(previousCheckpoint, counter, queryLimit) {
        // the source leaves the overflow unhandled here
      }
      id := RingIndex(counter, queryLimit);
      SlotPairInRange(counter, queryLimit);
    }

    /** Samples the clock calibration pair and, when the CPU tick count moved
        forward, records it and emits a calibration event. */
    method RecalibrateClocks(sample: ClockSample, now: int, nsPerTick: int, queue: ProfilerQueue)
      modifies this`prevCalibrationTicksCpu, queue
      ensures prevCalibrationTicksCpu == CalibratedTicks(old(prevCalibrationTicksCpu), sample)
      ensures queue.events ==
        old(queue.events) + CalibrationEvents(old(prevCalibrationTicksCpu), sample, now, nsPerTick, contextId)
    {
      match sample
      case SampleFailed =>
        queue.events := queue.events + [Message(CalibrationFailure)];
      case Sample(gpuTimestamp, cpuTimestamp) =>
        var cpuDeltaTicks := CpuDeltaTicks(cpuTimestamp, prevCalibrationTicksCpu);
        if cpuDeltaTicks > 0 {
          var cpuDeltaNS := cpuDeltaTicks * nsPerTick;
          prevCalibrationTicksCpu := cpuTimestamp;
          queue.events := queue.events + [GpuCalibration(gpuTimestamp, now, cpuDeltaNS, contextId)];
        }
    }

    /** Harvests resolved timestamps. `connected` is the on-demand gate,
        `latestCheckpoint` the fence's completed value, `mapped` whether mapping
        the readback buffer succeeded; `sample`, `now` and `nsPerTick` feed the
        recalibration that ends a harvesting call. */
    method Collect(connected: bool, latestCheckpoint: uint64, mapped: bool,
                   sample: ClockSample, now: int, nsPerTick: int, queue: ProfilerQueue)
      requires Valid()
      modifies this`previousCheckpoint, this`prevCalibrationTicksCpu, this`fenceSignals, readback, queue
      ensures Valid()
      // on every path but the harvesting one, nothing but the fence-signal log changes
      ensures !Harvests(connected, RingCount(old(previousCheckpoint), latestCheckpoint), queryLimit, mapped) ==>
        readback[..] == old(readback[..]) && previousCheckpoint == old(previousCheckpoint) &&
        prevCalibrationTicksCpu == old(prevCalibrationTicksCpu) && queue.events == old(queue.events)
      // the fence is re-signalled with the allocation counter only when nothing is pending and the counter moved on
      ensures fenceSignals == old(fenceSignals) +
        if connected && RingCount(old(previousCheckpoint), latestCheckpoint) == 0 && queryCounter != latestCheckpoint
        then [queryCounter] else []
      // harvesting: the checkpoint advances over the maximal run of resolved slots (cut at the fence),
      // those slots are reset, one GpuTime event per slot is emitted in counter order, then the clocks are recalibrated
      ensures Harvests(connected, RingCount(old(previousCheckpoint), latestCheckpoint), queryLimit, mapped) ==>
        var start := RingIndex(old(previousCheckpoint), queryLimit);
        var h := HarvestCount(old(readback[..]), start, Wrap64(latestCheckpoint - old(previousCheckpoint)));
        previousCheckpoint == Wrap64(old(previousCheckpoint) + h) &&
        readback[..] == Cleared(old(readback[..]), start, h) &&
        prevCalibrationTicksCpu == CalibratedTicks(old(prevCalibrationTicksCpu), sample) &&
        queue.events == old(queue.events)
          + HarvestEvents(old(readback[..]), old(previousCheckpoint), h, contextId)
          + CalibrationEvents(old(prevCalibrationTicksCpu), sample, now, nsPerTick, contextId)
    {
      if !connected {
        return;
      }
      var begin := previousCheckpoint;
      var count := RingCount(begin, latestCheckpoint);
      if count == 0 {
        var nextCheckpoint := queryCounter;
        if nextCheckpoint != latestCheckpoint {
          fenceSignals := fenceSignals + [nextCheckpoint];
        }
        return;
      }
      if count % 2 != 0 {
        return;
      }
      if count >= queryLimit {
        return;
      }
      if !mapped {
        return;
      }

      ghost var harvested := HarvestPass(latestCheckpoint, queue);
      // one pass never takes more than a whole lap of the ring
      assert harvested <= queryLimit;
      RecalibrateClocks(sample, now, nsPerTick, queue);
    }

    /** The loop of Collect: walks the ring from the checkpoint towards the fence
        value, stopping at the first slot that still reads 0; each resolved slot
        advances the checkpoint, is emitted as a GpuTime event and is reset. */
    method HarvestPass(latestCheckpoint: uint64, queue: ProfilerQueue) returns (ghost h: nat)
      requires Valid()
      modifies this`previousCheckpoint, readback, queue
      ensures var start := RingIndex(old(previousCheckpoint), queryLimit);
        h == HarvestCount(old(readback[..]), start, Wrap64(latestCheckpoint - old(previousCheckpoint))) &&
        previousCheckpoint == Wrap64(old(previousCheckpoint) + h) &&
        readback[..] == Cleared(old(readback[..]), start, h) &&
        queue.events == old(queue.events) + HarvestEvents(old(readback[..]), old(previousCheckpoint), h, contextId)
    {
      var begin := previousCheckpoint;
      ghost var a := readback[..];
      ghost var start := RingIndex(begin, queryLimit);
      ghost var n := Wrap64(latestCheckpoint - begin);
      ghost var j: nat := 0;
      ClearedStep(a, start, 0);
      var i := begin;
      while i != latestCheckpoint
        invariant j <= n && j <= queryLimit
        invariant i == Wrap64(begin + j) && previousCheckpoint == i
        invariant AllResolved(a, start, j)
        invariant readback[..] == Cleared(a, start, j)
        invariant queue.events == old(queue.events) + HarvestEvents(a, begin, j, contextId)
        decreases n - j
      {
        var k := RingIndex(i, queryLimit);
        HarvestAdvance(a, begin, latestCheckpoint, j, contextId);
        if readback[k] == 0 {
          break;
        }
        previousCheckpoint := Wrap64(previousCheckpoint as int + 1);
        queue.events := queue.events + [GpuTime(readback[k], Trunc16(k), contextId)];
        readback[k] := 0;
        i := Wrap64(i as int + 1);
        j := j + 1;
      }
      if i == latestCheckpoint {
        HarvestReachesFence(a, begin, latestCheckpoint, j);
      }
      h := j;
    }
  }
}
