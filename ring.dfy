/** Fixed-width integers and the ring arithmetic of the timestamp query ring.
    A query counter is an unsigned 64-bit value that only ever grows (and wraps);
    it is mapped onto a ring of `limit` slots by RingIndex, and the distance
    between two counters is measured by RingCount. */
module Ring {

  const TWO_TO_THE_16: int := 0x1_0000
  const TWO_TO_THE_32: int := 0x1_0000_0000
  const TWO_TO_THE_63: int := 0x8000_0000_0000_0000
  const TWO_TO_THE_64: int := 0x1_0000_0000_0000_0000

  type uint8 = x: int | 0 <= x < 0x100
  type uint16 = x: int | 0 <= x < 0x1_0000
  type uint32 = x: int | 0 <= x < 0x1_0000_0000
  type uint64 = x: int | 0 <= x < 0x1_0000_0000_0000_0000
  type int64 = x: int | -0x8000_0000_0000_0000 <= x < 0x8000_0000_0000_0000

  /** Unsigned 64-bit wrap-around of an exact result. */
  function Wrap64(x: int): uint64 { x % TWO_TO_THE_64 }

  /** The `static_cast<uint32_t>` of a 64-bit value. */
  function Trunc32(x: uint64): uint32 { x % TWO_TO_THE_32 }

  /** The `static_cast<uint16_t>` of a 32-bit value (query ids in events). */
  function Trunc16(x: uint32): uint16 { x % TWO_TO_THE_16 }

  /** Reinterpretation of an unsigned 64-bit value as a signed one (two's complement). */
  function ToInt64(x: uint64): int64 { if x < TWO_TO_THE_63 then x else x - TWO_TO_THE_64 }

  /** Largest number of query slots a context asks for; even, because queries come in (begin, end) pairs. */
  const MaxQueries: uint32 := 64 * 1024

  /** The ring sizes a context may end up with: MaxQueries halved any number of times, down to one pair. */
  predicate ValidCapacity(limit: int)
  {
    limit in {2, 4, 8, 16, 32, 64, 128, 256, 512, 1024, 2048, 4096, 8192, 16384, 32768, 65536}
  }

  lemma CapacityDividesWrap(limit: int)
    requires ValidCapacity(limit)
    ensures limit > 0 && limit % 2 == 0 && limit <= MaxQueries && TWO_TO_THE_64 % limit == 0
  {
  }

  /** Slot of the ring that counter value `index` maps to. */
  function RingIndex(index: uint64, limit: uint32): (r: uint32)
    requires limit > 0
    ensures r < limit
  {
    index % limit
  }

  /** Number of counter values from `begin` up to `end`, computed in unsigned
      64-bit arithmetic and then narrowed to 32 bits. */
  function RingCount(begin: uint64, end: uint64): (r: uint32)
    ensures r == (end - begin) % TWO_TO_THE_32
  {
    ModOfMultiple(end - begin, TWO_TO_THE_64, TWO_TO_THE_32);
    Trunc32(Wrap64(end - begin))
  }

  // ----- arithmetic helpers -----

  lemma MulAtLeast(a: int, d: int)
    requires a >= 1 && d > 0
    ensures a * d >= d
  {
    if a > 1 {
      MulAtLeast(a - 1, d);
      assert a * d == (a - 1) * d + d;
    }
  }

  lemma ModUnique(x: int, q: int, r: int, d: int)
    requires d > 0 && 0 <= r < d && x == q * d + r
    ensures x % d == r && x / d == q
  {
    var q0, r0 := x / d, x % d;
    assert x == q0 * d + r0;
    assert (q - q0) * d == q * d - q0 * d;
    if q > q0 {
      MulAtLeast(q - q0, d);
    } else if q < q0 {
      MulAtLeast(q0 - q, d);
    }
  }

  lemma ModAddMultiple(r: int, k: int, d: int)
    requires d > 0
    ensures (r + k * d) % d == r % d
  {
    var q := r / d;
    assert r == q * d + r % d;
    assert r + k * d == (q + k) * d + r % d;
    ModUnique(r + k * d, q + k, r % d, d);
  }

  /** Reducing modulo a multiple of d first does not change the residue modulo d. */
  lemma ModOfMultiple(x: int, m: int, d: int)
    requires d > 0 && m > 0 && m % d == 0
    ensures (x % m) % d == x % d
  {
    var q, c := x / m, m / d;
    assert m == c * d;
    assert x == q * m + x % m;
    assert x == x % m + (q * c) * d;
    ModAddMultiple(x % m, q * c, d);
  }

  lemma ModAddLeft(x: int, j: int, d: int)
    requires d > 0
    ensures (x % d + j) % d == (x + j) % d
  {
    var q := x / d;
    assert x == q * d + x % d;
    assert x + j == (x % d + j) + q * d;
    ModAddMultiple(x % d + j, q, d);
  }

  /** Walking j counter values from `index` (with 64-bit wrap) walks j slots around the ring. */
  lemma RingIndexStep(index: uint64, j: nat, limit: uint32)
    requires ValidCapacity(limit)
    ensures RingIndex(Wrap64(index + j), limit) == (RingIndex(index, limit) + j) % limit
  {
    CapacityDividesWrap(limit);
    ModOfMultiple(index + j, TWO_TO_THE_64, limit);
    ModAddLeft(index, j, limit);
  }

  lemma Wrap64Step(x: int, j: int)
    ensures Wrap64(Wrap64(x) + j) == Wrap64(x + j)
  {
    ModAddLeft(x, j, TWO_TO_THE_64);
  }

  // ----- properties of the ring arithmetic -----

  /** RingIndex is periodic with period `limit`, even across 64-bit wrap-around
      of the counter: counters a whole number of laps apart share a slot. */
  lemma RingIndexPeriodic(index: uint64, k: nat, limit: uint32)
    requires ValidCapacity(limit)
    ensures RingIndex(Wrap64(index + k * limit), limit) == RingIndex(index, limit)
  {
    CapacityDividesWrap(limit);
    ModOfMultiple(index + k * limit, TWO_TO_THE_64, limit);
    ModAddMultiple(index, k, limit);
  }

  /** RingCount measures distance correctly under wrap-around: k values after
      `begin` (wherever the 64-bit counter wraps) are counted as k. */
  lemma RingCountOffset(begin: uint64, k: nat)
    requires k < TWO_TO_THE_32
    ensures RingCount(begin, Wrap64(begin + k)) == k
  {
    var e := Wrap64(begin + k);
    assert begin + k == (begin + k) / TWO_TO_THE_64 * TWO_TO_THE_64 + e;
    ModAddMultiple(k, (begin + k) / TWO_TO_THE_64 * (TWO_TO_THE_64 / TWO_TO_THE_32), TWO_TO_THE_32);
    ModUnique(k, 0, k, TWO_TO_THE_32);
  }

  /** The 32-bit count equals the full 64-bit distance whenever the latter fits in 32 bits. */
  lemma RingCountIsDistance(begin: uint64, end: uint64)
    requires Wrap64(end - begin) < TWO_TO_THE_32
    ensures RingCount(begin, end) == Wrap64(end - begin)
  {
    ModOfMultiple(end - begin, TWO_TO_THE_64, TWO_TO_THE_32);
  }

  /** Walking from `begin` reaches `end` after exactly Wrap64(end - begin) steps and not before. */
  lemma WalkReaches(begin: uint64, end: uint64, j: nat)
    requires j <= Wrap64(end - begin)
    ensures Wrap64(begin + j) == end <==> j == Wrap64(end - begin)
  {
    var n, M := Wrap64(end - begin), TWO_TO_THE_64;
    var Q := (end - begin) / M;
    assert end - begin == Q * M + n;
    if j == n {
      assert begin + j == (-Q) * M + end;
      ModUnique(begin + j, -Q, end, M);
    }
  }
  /** One step of the walk from `begin` towards `end`: while `end` is not reached,
      j is below the distance, the counter's slot is j slots on from the slot of
      `begin`, and incrementing the counter gives the (j + 1)-th value. */
  lemma WalkStep(begin: uint64, end: uint64, j: nat, limit: uint32)
    requires ValidCapacity(limit) && j <= Wrap64(end - begin) && Wrap64(begin + j) != end
    ensures j < Wrap64(end - begin)
    ensures RingIndex(Wrap64(begin + j), limit) == (RingIndex(begin, limit) + j) % limit
    ensures Wrap64(Wrap64(begin + j) as int + 1) == Wrap64(begin + (j + 1))
  {
    WalkReaches(begin, end, j);
    RingIndexStep(begin, j, limit);
    Wrap64Step(begin + j, 1);
  }

  /** A begin slot drawn from an even counter on an even-sized ring is even, so
      its end slot id + 1 is still on the ring, and both fit the 16-bit query id
      of an event unchanged. */
  lemma SlotPairInRange(counter: uint64, limit: uint32)
    requires ValidCapacity(limit) && counter % 2 == 0
    ensures var id := RingIndex(counter, limit);
      id % 2 == 0 && id + 1 < limit && Trunc16(id) == id && Trunc16(id + 1) == id + 1
  {
    CapacityDividesWrap(limit);
    ModOfMultiple(counter, limit, 2);
  }

  /** Adding 2 with 64-bit wrap-around keeps the query counter even. */
  lemma CounterStaysEven(counter: uint64)
    requires counter % 2 == 0
    ensures Wrap64(counter + 2) % 2 == 0
  {
    ModOfMultiple(counter + 2, TWO_TO_THE_64, 2);
  }

  /** The allocation-time overflow test: `id` is a full ring or more ahead of the harvest checkpoint. */
  predicate RingOverflow(previousCheckpoint: uint64, id: uint64, limit: uint32)
  {
    RingCount(previousCheckpoint, id) >= limit
  }

  /** Stepping `limit` counter values back from `id` shortens the distance from
      `previous` by exactly `limit`, when that distance is at least `limit`. */
  lemma StepBackDistance(previous: uint64, id: uint64, limit: uint32)
    requires limit <= Wrap64(id - previous)
    ensures Wrap64(Wrap64(id - limit) - previous) == Wrap64(id - previous) - limit
  {
    var d := Wrap64(id - previous);
    Wrap64Step(id - limit, 0 - previous as int);
    Wrap64Step(id - previous, 0 - limit as int);
    assert Wrap64(Wrap64(id - limit) - previous) == Wrap64(d - limit);
    ModUnique(d - limit, 0, d - limit, TWO_TO_THE_64);
  }

  /** The 32-bit count never exceeds the 64-bit distance it is narrowed from. */
  lemma CountAtMostDistance(previous: uint64, id: uint64)
    ensures RingCount(previous, id) <= Wrap64(id - previous)
  {
    var d := Wrap64(id - previous);
    ModOfMultiple(id - previous, TWO_TO_THE_64, TWO_TO_THE_32);
    assert d == (d / TWO_TO_THE_32) * TWO_TO_THE_32 + d % TWO_TO_THE_32;
  }

  /** Stepping `limit` counter values back from `id` shortens the 32-bit count from
      `previous` by exactly `limit`, when that count is at least `limit`. */
  lemma StepBackCount(previous: uint64, id: uint64, limit: uint32)
    requires RingCount(previous, id) >= limit
    ensures RingCount(previous, Wrap64(id - limit)) == RingCount(previous, id) - limit
  {
    var c := RingCount(previous, id);
    var e := Wrap64(id - limit);
    ModOfMultiple(id - limit, TWO_TO_THE_64, TWO_TO_THE_32);
    ModAddLeft(e, 0 - previous as int, TWO_TO_THE_32);
    ModAddLeft(id - limit, 0 - previous as int, TWO_TO_THE_32);
    ModAddLeft(id - previous, 0 - limit as int, TWO_TO_THE_32);
    ModUnique(c - limit, 0, c - limit, TWO_TO_THE_32);
  }

  /** When the overflow test fires, the slot handed out for `id` is also the slot of
      the counter value one lap earlier, which lies between the harvest checkpoint
      and `id` (by the 32-bit count and by the 64-bit distance alike) and so has
      not been harvested yet: its timestamp will be overwritten. */
  lemma OverflowedSlotAliases(previous: uint64, id: uint64, limit: uint32)
    requires ValidCapacity(limit) && RingOverflow(previous, id, limit)
    ensures var earlier := Wrap64(id - limit);
      RingCount(previous, earlier) < RingCount(previous, id) &&
      Wrap64(earlier - previous) < Wrap64(id - previous) &&
      RingIndex(earlier, limit) == RingIndex(id, limit)
  {
    var earlier := Wrap64(id - limit);
    StepBackCount(previous, id, limit);
    CountAtMostDistance(previous, id);
    StepBackDistance(previous, id, limit);
    Wrap64Step(id - limit, limit);
    assert Wrap64(earlier + 1 * limit) == id;
    RingIndexPeriodic(earlier, 1, limit);
  }
}
