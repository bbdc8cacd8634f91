/** A zone scope: one instrumented span of GPU work. Construction allocates a
    begin/end slot pair, records the begin timestamp query and emits the
    zone-begin event; ending the scope (the destructor) records the end query,
    emits the zone-end event and resolves both queries into the readback
    buffer. An inactive scope does nothing at all. */
module ZoneScopes {
  import opened Ring
  import opened Trace
  import opened QueueContext

  class D3D12ZoneScope {
    const active: bool
    const ctx: D3D12QueueCtx?
    const cmdList: CommandList?
    /** Begin slot of the zone; its end slot is queryId + 1. */
    const queryId: uint32

    ghost predicate Valid()
    {
      if active then
        ctx != null && cmdList != null &&
        ValidCapacity(ctx.queryLimit) && queryId % 2 == 0 && queryId + 1 < ctx.queryLimit
      else
        ctx == null && cmdList == null && queryId == 0
    }

    /** Opens a zone on `ctx`, recording into `cmdList`. `active` is the caller's
        flag already combined with the on-demand gate. The four source-level
        constructors differ only in `kind` and in where `srcloc` comes from (a
        static location record or one allocated from text). `now` and `thread`
        are the profiler clock and the calling thread's handle. */
    constructor (ctx: D3D12QueueCtx, cmdList: CommandList, kind: BeginKind, srcloc: uint64,
                 now: int, thread: uint32, active: bool, queue: ProfilerQueue)
      requires ctx.Valid()
      modifies ctx`queryCounter, cmdList, queue
      ensures Valid() && this.active == active && ctx.Valid()
      ensures !active ==>
        ctx.queryCounter == old(ctx.queryCounter) &&
        cmdList.commands == old(cmdList.commands) && queue.events == old(queue.events)
      ensures active ==>
        this.ctx == ctx && this.cmdList == cmdList &&
        queryId == RingIndex(old(ctx.queryCounter), ctx.queryLimit) &&
        ctx.queryCounter == Wrap64(old(ctx.queryCounter) + 2) &&
        cmdList.commands == old(cmdList.commands) + [EndQuery(queryId)] &&
        queue.events == old(queue.events) +
          [GpuZoneBegin(kind, now, srcloc, thread, queryId, ctx.contextId)]
    {
      this.active := active;
      if active {
        var id := ctx.NextQueryId();
        cmdList.commands := cmdList.commands + [EndQuery(id)];
        queue.events := queue.events + [GpuZoneBegin(kind, now, srcloc, thread, Trunc16(id), ctx.contextId)];
        this.ctx, this.cmdList, this.queryId := ctx, cmdList, id;
      } else {
        this.ctx, this.cmdList, this.queryId := null, null, 0;
      }
    }

    /** Closes the zone (the destructor): end query at the end slot, zone-end
        event with the end slot, then a resolve of the two queries into the
        readback buffer at the begin slot's byte offset. */
    method End(now: int, thread: uint32, queue: ProfilerQueue)
      requires Valid()
      modifies cmdList, queue
      ensures !active ==> queue.events == old(queue.events)
      ensures active ==>
        cmdList.commands == old(cmdList.commands) +
          [EndQuery(queryId + 1), ResolveQueryData(queryId, 2, queryId * 8)] &&
        queue.events == old(queue.events) + [GpuZoneEnd(now, thread, queryId + 1, ctx.contextId)]
    {
      if !active {
        return;
      }
      var endId := queryId + 1;
      cmdList.commands := cmdList.commands + [EndQuery(endId)];
      queue.events := queue.events + [GpuZoneEnd(now, thread, Trunc16(endId), ctx.contextId)];
      cmdList.commands := cmdList.commands + [ResolveQueryData(queryId, 2, queryId * 8)];
    }
  }

  /** A zone opened and closed on one command list, as the scoped macros do:
      the list receives begin query, end query and resolve, the profiler
      receives zone-begin then zone-end, with slot ids id and id + 1 on the
      same context, and the ring still has room for both slots. */
  method ScopedZone(ctx: D3D12QueueCtx, cmdList: CommandList, kind: BeginKind, srcloc: uint64,
                    beginTime: int, endTime: int, thread: uint32, queue: ProfilerQueue)
    returns (id: uint32)
    requires ctx.Valid()
    modifies ctx`queryCounter, cmdList, queue
    ensures ctx.Valid() && id % 2 == 0 && id + 1 < ctx.queryLimit
    ensures id == RingIndex(old(ctx.queryCounter), ctx.queryLimit)
    ensures ctx.queryCounter == Wrap64(old(ctx.queryCounter) + 2)
    ensures cmdList.commands == old(cmdList.commands) +
      [EndQuery(id), EndQuery(id + 1), ResolveQueryData(id, 2, id * 8)]
    ensures queue.events == old(queue.events) +
      [GpuZoneBegin(kind, beginTime, srcloc, thread, id, ctx.contextId),
       GpuZoneEnd(endTime, thread, id + 1, ctx.contextId)]
  {
    var zone := new D3D12ZoneScope(ctx, cmdList, kind, srcloc, beginTime, thread, true, queue);
    zone.End(endTime, thread, queue);
    id := zone.queryId;
  }
}
