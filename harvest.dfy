/** What one harvest pass of Collect does to the readback buffer, specified on
    the buffer's contents `a` (one 64-bit timestamp per ring slot, 0 meaning
    "not resolved yet"). The pass walks the ring from the slot of the harvest
    checkpoint, stops at the first unresolved slot, and for each resolved slot
    emits a GpuTime event and resets the slot to 0. */
module Harvest {
  import opened Ring
  import opened Trace

  /** Position of slot `x` in ring order counted from slot `start`. */
  function Offset(x: int, start: int, limit: nat): nat
    requires limit > 0
  {
    (x - start) % limit
  }

  /** The slot reached after j steps from `start` sits at position j, for j under one lap. */
  lemma OffsetOfStep(start: nat, j: nat, limit: nat)
    requires start < limit && j < limit
    ensures Offset((start + j) % limit, start, limit) == j
  {
    if start + j < limit {
      ModUnique(start + j, 0, start + j, limit);
      ModUnique(j, 0, j, limit);
    } else {
      ModUnique(start + j, 1, start + j - limit, limit);
      ModUnique(j - limit, -1, j, limit);
    }
  }

  /** Index of the slot j steps after `start` around a ring of `limit` slots. */
  function RingStep(start: nat, j: nat, limit: nat): nat
    requires limit > 0
  {
    (start + j) % limit
  }

  /** Value of the slot j steps after `start` in ring order. */
  function SlotAfter(a: seq<uint64>, start: nat, j: nat): uint64
    requires |a| > 0
  {
    a[RingStep(start, j, |a|)]
  }

  /** The r slots from `start` in ring order all hold resolved (non-zero) timestamps. */
  ghost predicate AllResolved(a: seq<uint64>, start: nat, r: nat)
    requires |a| > 0
  {
    forall t :: 0 <= t < r ==> SlotAfter(a, start, t) != 0
  }

  /** Position of the slot j steps from `start`: j itself within a lap, and 0 again after a whole lap. */
  lemma StepPosition(start: nat, j: nat, limit: nat)
    requires start < limit && j <= limit
    ensures Offset(RingStep(start, j, limit), start, limit) == if j < limit then j else 0
  {
    if j < limit {
      OffsetOfStep(start, j, limit);
    } else {
      ModAddMultiple(start, 1, limit);
      ModUnique(start, 0, start, limit);
      OffsetOfStep(start, 0, limit);
    }
  }

  /** Stepping from `start` by the position of slot x lands on x: positions name slots uniquely. */
  lemma StepOfOffset(x: nat, start: nat, limit: nat)
    requires x < limit && start < limit
    ensures RingStep(start, Offset(x, start, limit), limit) == x
  {
    if x >= start {
      ModUnique(x - start, 0, x - start, limit);
      ModUnique(x, 0, x, limit);
    } else {
      ModUnique(x - start, -1, x - start + limit, limit);
      ModUnique(x + limit, 1, x, limit);
    }
  }

  /** Within one lap, the slot j steps from `start` is the only slot at position j. */
  lemma StepIsOnlySlotAt(start: nat, j: nat, limit: nat)
    requires start < limit && j < limit
    ensures Offset(RingStep(start, j, limit), start, limit) == j
    ensures forall x :: 0 <= x < limit && x != RingStep(start, j, limit) ==> Offset(x, start, limit) != j
  {
    OffsetOfStep(start, j, limit);
    forall x | 0 <= x < limit && x != RingStep(start, j, limit)
      ensures Offset(x, start, limit) != j
    {
      StepOfOffset(x, start, limit);
    }
  }

  function RunFrom(a: seq<uint64>, start: nat, j: nat): (r: nat)
    requires start < |a| && j <= |a|
    ensures j <= r <= |a|
    decreases |a| - j
  {
    if j == |a| || SlotAfter(a, start, j) == 0 then j else RunFrom(a, start, j + 1)
  }

  /** Length of the run of resolved (non-zero) slots in ring order from `start`, at most one lap. */
  function NonZeroRun(a: seq<uint64>, start: nat): nat
    requires start < |a|
  {
    RunFrom(a, start, 0)
  }

  lemma {:induction false} RunFromFacts(a: seq<uint64>, start: nat, j: nat)
    requires start < |a| && j <= |a|
    requires AllResolved(a, start, j)
    ensures var r := RunFrom(a, start, j);
      AllResolved(a, start, r) &&
      (r == |a| || SlotAfter(a, start, r) == 0)
    decreases |a| - j
  {
    if j < |a| && SlotAfter(a, start, j) != 0 {
      RunFromFacts(a, start, j + 1);
    }
  }

  /** NonZeroRun is exactly the length of the maximal prefix of resolved slots:
      r is the run length iff the r slots from `start` are all resolved and the
      next one is not (or a whole lap has been covered). */
  lemma NonZeroRunIsMaximalPrefix(a: seq<uint64>, start: nat, r: nat)
    requires start < |a| && r <= |a|
    ensures NonZeroRun(a, start) == r <==>
      AllResolved(a, start, r) &&
      (r == |a| || SlotAfter(a, start, r) == 0)
  {
    RunFromFacts(a, start, 0);
  }

  /** Number of slots one pass harvests when it may walk `walk` counter values
      (the distance from the checkpoint to the fence value) from slot `start`. */
  function HarvestCount(a: seq<uint64>, start: nat, walk: nat): nat
    requires start < |a|
  {
    if walk < NonZeroRun(a, start) then walk else NonZeroRun(a, start)
  }

  /** The pass advances by exactly the maximal prefix of resolved slots, cut at
      the fence: h is the harvest count iff h does not pass the fence, every slot
      it covers is resolved, and it stopped at the fence, after a whole lap, or
      at an unresolved slot. */
  lemma HarvestStopsAtFirstUnresolved(a: seq<uint64>, start: nat, walk: nat, h: nat)
    requires start < |a|
    ensures HarvestCount(a, start, walk) == h <==>
      h <= walk && h <= |a| &&
      AllResolved(a, start, h) &&
      (h == walk || h == |a| || SlotAfter(a, start, h) == 0)
  {
    NonZeroRunIsMaximalPrefix(a, start, NonZeroRun(a, start));
  }

  /** The buffer after harvesting h slots from `start`: those h slots read 0, all others keep their value. */
  function Cleared(a: seq<uint64>, start: nat, h: nat): (r: seq<uint64>)
    requires start < |a|
    ensures |r| == |a|
  {
    seq(|a|, x requires 0 <= x < |a| => if Offset(x, start, |a|) < h then 0 else a[x])
  }

  /** Before any slot is harvested the buffer is untouched; the slot j steps from
      `start` still holds its original value within the first lap (and is already
      reset after a whole lap), and harvesting it resets exactly that slot. */
  lemma ClearedStep(a: seq<uint64>, start: nat, j: nat)
    requires start < |a| && j <= |a|
    ensures Cleared(a, start, 0) == a
    ensures var k := RingStep(start, j, |a|);
      Cleared(a, start, j)[k] == (if j < |a| then a[k] else 0) &&
      (j < |a| ==> Cleared(a, start, j + 1) == Cleared(a, start, j)[k := 0])
  {
    StepPosition(start, j, |a|);
    if j < |a| {
      StepIsOnlySlotAt(start, j, |a|);
    }
  }

  lemma ClearedZeroesHarvested(a: seq<uint64>, start: nat, h: nat)
    requires start < |a| && h <= |a|
    ensures forall j :: 0 <= j < h ==> SlotAfter(Cleared(a, start, h), start, j) == 0
    ensures forall j :: h <= j < |a| ==> SlotAfter(Cleared(a, start, h), start, j) == SlotAfter(a, start, j)
  {
    forall j | 0 <= j < |a| ensures Offset(RingStep(start, j, |a|), start, |a|) == j {
      OffsetOfStep(start, j, |a|);
    }
  }

  /** GpuTime events of a pass that harvested h slots from counter value `begin`, in counter order. */
  function HarvestEvents(a: seq<uint64>, begin: uint64, h: nat, context: uint8): (evs: seq<Event>)
    requires ValidCapacity(|a|)
    ensures |evs| == h
  {
    if h == 0 then []
    else
      var k := RingIndex(Wrap64(begin + (h - 1)), |a|);
      HarvestEvents(a, begin, h - 1, context) + [GpuTime(a[k], Trunc16(k), context)]
  }

  /** The j-th harvest event carries the timestamp of the j-th slot after the
      checkpoint's slot, that slot's index as query id, and the context id. */
  lemma {:induction false} HarvestEventsAt(a: seq<uint64>, begin: uint64, h: nat, context: uint8, j: nat)
    requires ValidCapacity(|a|) && j < h
    ensures var k := (RingIndex(begin, |a|) + j) % |a|;
      HarvestEvents(a, begin, h, context)[j] == GpuTime(a[k], k, context)
  {
    if j == h - 1 {
      RingIndexStep(begin, j, |a|);
      CapacityDividesWrap(|a|);
    } else {
      HarvestEventsAt(a, begin, h - 1, context, j);
    }
  }

  /** When a pass stops short of the fence, the slot it stopped at reads 0 afterwards:
      it was unresolved, or it is the first slot of a full lap and was just reset. */
  lemma ClearedStopSlotIsZero(a: seq<uint64>, start: nat, walk: nat)
    requires start < |a|
    requires HarvestCount(a, start, walk) < walk
    ensures SlotAfter(Cleared(a, start, HarvestCount(a, start, walk)), start, HarvestCount(a, start, walk)) == 0
  {
    var L, h := |a|, HarvestCount(a, start, walk);
    HarvestStopsAtFirstUnresolved(a, start, walk, h);
    if h == L {
      ModAddMultiple(start, 1, L);
      ModUnique(start, 0, start, L);
      ModUnique(0, 0, 0, L);
      assert Offset(RingStep(start, h, L), start, L) == 0;
    } else {
      OffsetOfStep(start, h, L);
    }
  }

  /** One iteration of the harvest loop after j slots were taken from counter
      value `begin`, the fence value `latest` not yet reached. The loop reads the
      slot j steps from the checkpoint's slot. If the buffer reads 0 there, j is
      the harvest count; otherwise that slot still holds its original timestamp,
      and taking it extends the cleared buffer, the events and the resolved run
      by one slot. */
  lemma HarvestAdvance(a: seq<uint64>, begin: uint64, latest: uint64, j: nat, context: uint8)
    requires ValidCapacity(|a|)
    requires j <= Wrap64(latest - begin) && j <= |a| && Wrap64(begin + j) != latest
    requires AllResolved(a, RingIndex(begin, |a|), j)
    ensures var start := RingIndex(begin, |a|);
      var k := RingIndex(Wrap64(begin + j), |a|);
      var b := Cleared(a, start, j);
      (b[k] == 0 ==> HarvestCount(a, start, Wrap64(latest - begin)) == j) &&
      (b[k] != 0 ==>
        j < Wrap64(latest - begin) && j < |a| &&
        AllResolved(a, start, j + 1) &&
        Cleared(a, start, j + 1) == b[k := 0] &&
        HarvestEvents(a, begin, j + 1, context) ==
          HarvestEvents(a, begin, j, context) + [GpuTime(b[k], Trunc16(k), context)] &&
        Wrap64(Wrap64(begin + j) as int + 1) == Wrap64(begin + (j + 1)))
  {
    var start := RingIndex(begin, |a|);
    WalkStep(begin, latest, j, |a|);
    ClearedStep(a, start, j);
    if Cleared(a, start, j)[RingStep(start, j, |a|)] == 0 {
      HarvestStopsAtFirstUnresolved(a, start, Wrap64(latest - begin), j);
    }
  }

  /** The harvest loop reached the fence value after j resolved slots: j is the harvest count. */
  lemma HarvestReachesFence(a: seq<uint64>, begin: uint64, latest: uint64, j: nat)
    requires ValidCapacity(|a|)
    requires j <= Wrap64(latest - begin) && j <= |a| && Wrap64(begin + j) == latest
    requires AllResolved(a, RingIndex(begin, |a|), j)
    ensures HarvestCount(a, RingIndex(begin, |a|), Wrap64(latest - begin)) == j
  {
    WalkReaches(begin, latest, j);
    HarvestStopsAtFirstUnresolved(a, RingIndex(begin, |a|), Wrap64(latest - begin), j);
  }

  /** A second pass against the same fence value, run before any new timestamp
      lands, harvests nothing: the first pass either reached the fence or left
      the ring at a slot that now reads 0, and it reset every slot it took. */
  lemma CollectAgainHarvestsNothing(a: seq<uint64>, begin: uint64, latest: uint64)
    requires ValidCapacity(|a|)
    ensures var start := RingIndex(begin, |a|);
      var h := HarvestCount(a, start, Wrap64(latest - begin));
      var next := Wrap64(begin + h);
      HarvestCount(Cleared(a, start, h), RingIndex(next, |a|), Wrap64(latest - next)) == 0
  {
    var start := RingIndex(begin, |a|);
    var n := Wrap64(latest - begin);
    var h := HarvestCount(a, start, n);
    var next := Wrap64(begin + h);
    var b := Cleared(a, start, h);
    if h == n {
      WalkReaches(begin, latest, h);
      assert Wrap64(latest - next) == 0;
    } else {
      RingIndexStep(begin, h, |a|);
      assert RingIndex(next, |a|) == RingStep(start, h, |a|);
      ClearedStopSlotIsZero(a, start, n);
      var s2 := RingIndex(next, |a|);
      ModUnique(s2, 0, s2, |a|);
      assert SlotAfter(b, s2, 0) == 0;
      NonZeroRunIsMaximalPrefix(b, s2, 0);
    }
  }
}
