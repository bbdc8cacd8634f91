/** What the timestamp core produces: profiler events (appended to the profiler's
    serial queue) and commands recorded into a graphics command list. The real
    queue items and COM calls are replaced by these abstract records. */
module Trace {
  import opened Ring

  /** How a zone-begin event names its source location: a static location
      record, or one allocated at run time from text, each with or without a
      captured call stack of the given depth. */
  datatype BeginKind =
    | Serial
    | CallstackSerial(depth: int)
    | AllocSrcLocSerial
    | AllocSrcLocCallstackSerial(depth: int)

  /** Capability flags carried by a new-context event. */
  datatype ContextFlags = GpuContextCalibration

  /** Graphics backend tag carried by a new-context event. */
  datatype ContextType = Direct3D12

  datatype Event =
    | GpuNewContext(cpuTime: int, gpuTime: uint64, thread: uint32, context: uint8,
                    flags: ContextFlags, backend: ContextType)
    | GpuContextName(context: uint8, name: seq<uint8>, size: uint16)
    | GpuCalibration(gpuTime: uint64, cpuTime: int, cpuDelta: int, context: uint8)
    | GpuZoneBegin(kind: BeginKind, cpuTime: int, srcloc: uint64, thread: uint32,
                   queryId: uint16, context: uint8)
    | GpuZoneEnd(cpuTime: int, thread: uint32, queryId: uint16, context: uint8)
    | GpuTime(gpuTime: uint64, queryId: uint16, context: uint8)
    | Message(text: string)

  /** Commands a zone records into its command list. `EndQuery` writes a
      timestamp into the context's query heap at `index`; `ResolveQueryData`
      copies `count` query results starting at `start` into the readback
      buffer at byte `offset`. */
  datatype Command =
    | EndQuery(index: uint32)
    | ResolveQueryData(start: uint32, count: nat, offset: uint64)

  /** The profiler's serial event queue, seen as the log of events submitted to it. */
  class ProfilerQueue {
    var events: seq<Event>

    constructor ()
      ensures events == []
    {
      events := [];
    }
  }

  /** A graphics command list, seen as the log of commands recorded into it. */
  class CommandList {
    var commands: seq<Command>

    constructor ()
      ensures commands == []
    {
      commands := [];
    }
  }
}
