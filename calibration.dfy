/** Clock calibration: the queue reports a (GPU timestamp, CPU tick) pair; a
    new calibration event is emitted only when the CPU tick count moved forward
    since the previous calibration, and only then is the stored tick updated. */
module Calibration {
  import opened Ring
  import opened Trace

  /** Result of asking the queue for its clock calibration pair. */
  datatype ClockSample = Sample(gpu: uint64, cpu: uint64) | SampleFailed

  /** Text of the diagnostic message posted when the calibration pair cannot be read. */
  const CalibrationFailure: string := "TracyD3D12: failed to obtain queue clock calibration counters."

  /** CPU ticks since the previous calibration: the unsigned difference read as a signed 64-bit value. */
  function CpuDeltaTicks(cpu: uint64, prev: uint64): int64
  {
    ToInt64(Wrap64(cpu - prev))
  }

  /** The delta is positive exactly when the tick count moved forward by less than
      2^63 ticks; a clock that stood still or went back (by at most 2^63) gives a
      non-positive delta, and a forward move is measured exactly. */
  lemma CpuDeltaSign(cpu: uint64, prev: uint64)
    ensures CpuDeltaTicks(cpu, prev) > 0 <==> 0 < Wrap64(cpu - prev) < TWO_TO_THE_63
    ensures prev < cpu < prev + TWO_TO_THE_63 ==> CpuDeltaTicks(cpu, prev) == cpu - prev
    ensures cpu <= prev <= cpu + TWO_TO_THE_63 ==> CpuDeltaTicks(cpu, prev) <= 0
  {
    if prev <= cpu {
      ModUnique(cpu - prev, 0, cpu - prev, TWO_TO_THE_64);
    } else {
      ModUnique(cpu - prev, -1, cpu - prev + TWO_TO_THE_64, TWO_TO_THE_64);
    }
  }

  /** Stored CPU tick count after a calibration attempt. */
  function CalibratedTicks(prev: uint64, sample: ClockSample): uint64
  {
    match sample
    case SampleFailed => prev
    case Sample(_, cpu) => if CpuDeltaTicks(cpu, prev) > 0 then cpu else prev
  }

  /** Events a calibration attempt emits; `now` is the profiler's own clock and
      `nsPerTick` the host's nanoseconds per CPU tick. */
  function CalibrationEvents(prev: uint64, sample: ClockSample, now: int, nsPerTick: int, context: uint8): seq<Event>
  {
    match sample
    case SampleFailed => [Message(CalibrationFailure)]
    case Sample(gpu, cpu) =>
      var delta := CpuDeltaTicks(cpu, prev);
      if delta > 0 then [GpuCalibration(gpu, now, delta * nsPerTick, context)] else []
  }

  /** A successful sample updates the stored tick count and emits exactly one
      calibration event iff the CPU delta is positive; otherwise it changes
      nothing and emits nothing. A failed sample changes nothing and posts one
      diagnostic message. */
  lemma CalibrationIffForward(prev: uint64, sample: ClockSample, now: int, nsPerTick: int, context: uint8)
    ensures sample.Sample? ==>
      (CpuDeltaTicks(sample.cpu, prev) > 0 <==>
        CalibratedTicks(prev, sample) == sample.cpu &&
        CalibrationEvents(prev, sample, now, nsPerTick, context) ==
          [GpuCalibration(sample.gpu, now, CpuDeltaTicks(sample.cpu, prev) * nsPerTick, context)])
    ensures sample.Sample? ==>
      (CpuDeltaTicks(sample.cpu, prev) <= 0 <==>
        CalibratedTicks(prev, sample) == prev && CalibrationEvents(prev, sample, now, nsPerTick, context) == [])
    ensures sample.SampleFailed? ==>
      CalibratedTicks(prev, sample) == prev &&
      CalibrationEvents(prev, sample, now, nsPerTick, context) == [Message(CalibrationFailure)]
  {
  }
}
