/** Choosing the ring size: the context asks the device for a query heap of
    MaxQueries slots and halves the request until the device accepts it.
    Whether the device accepts a given size is outside the model and is
    represented by the total predicate `accepts`. */
module Capacity {
  import opened Ring

  datatype Option<T> = None | Some(value: T)

  /** The probe as the constructor runs it, with the halving loop stopped at one
      begin/end pair: the first size on the chain MaxQueries, MaxQueries/2, ..., 2
      that the device accepts, or None when it accepts none of them (a fatal
      failure of construction). */
  function ProbeCapacity(accepts: uint32 -> bool, limit: uint32): (r: Option<uint32>)
    requires ValidCapacity(limit)
    ensures r.Some? ==> ValidCapacity(r.value) && r.value <= limit && accepts(r.value)
    decreases limit
  {
    if accepts(limit) then Some(limit)
    else if limit == 2 then None
    else ProbeCapacity(accepts, limit / 2)
  }

  /** The probe settles on the largest ring size the device accepts: every valid
      size above the chosen one (and at most the first request) was refused, and
      when the probe fails, every valid size up to the first request was refused. */
  lemma {:induction false} ProbeCapacityIsLargestAccepted(accepts: uint32 -> bool, limit: uint32, c: uint32)
    requires ValidCapacity(limit) && ValidCapacity(c) && c <= limit
    ensures ProbeCapacity(accepts, limit).Some? ==> c > ProbeCapacity(accepts, limit).value ==> !accepts(c)
    ensures ProbeCapacity(accepts, limit).None? ==> !accepts(c)
    decreases limit
  {
    if !accepts(limit) && limit != 2 && c != limit {
      ProbeCapacityIsLargestAccepted(accepts, limit / 2, c);
    }
  }

  /** The halving loop exactly as written: it keeps halving (integer division,
      so 1 becomes 0 and 0 stays 0) until the device accepts the size. The loop
      has no exit other than acceptance, so `attempts` bounds the number of
      refusals looked at, and None stands for "still looping". */
  function ProbeCapacityAsWritten(accepts: uint32 -> bool, limit: uint32, attempts: nat): (r: Option<uint32>)
    ensures r.Some? ==> accepts(r.value) && r.value <= limit
    decreases attempts
  {
    if accepts(limit) then Some(limit)
    else if attempts == 0 then None
    else ProbeCapacityAsWritten(accepts, limit / 2, attempts - 1)
  }

  /** A device that accepts only a one-slot heap: the loop as written settles on an
      odd ring size of 1, so the end query of the first zone (slot 1) lies outside
      the heap; the corrected probe refuses construction instead. */
  lemma AsWrittenProbeCanSettleOnOddSize()
    ensures ProbeCapacityAsWritten(c => c == 1, MaxQueries, 16) == Some(1)
    ensures ProbeCapacity(c => c == 1, MaxQueries) == None
  {
    var one: uint32 -> bool := c => c == 1;
    // each step is one refusal of the halving loop
    calc {
      ProbeCapacityAsWritten(one, 65536, 16);
      ProbeCapacityAsWritten(one, 32768, 15);
      ProbeCapacityAsWritten(one, 16384, 14);
      ProbeCapacityAsWritten(one, 8192, 13);
      ProbeCapacityAsWritten(one, 4096, 12);
      ProbeCapacityAsWritten(one, 2048, 11);
      ProbeCapacityAsWritten(one, 1024, 10);
      ProbeCapacityAsWritten(one, 512, 9);
      ProbeCapacityAsWritten(one, 256, 8);
      ProbeCapacityAsWritten(one, 128, 7);
      ProbeCapacityAsWritten(one, 64, 6);
      ProbeCapacityAsWritten(one, 32, 5);
      ProbeCapacityAsWritten(one, 16, 4);
      ProbeCapacityAsWritten(one, 8, 3);
      ProbeCapacityAsWritten(one, 4, 2);
      ProbeCapacityAsWritten(one, 2, 1);
      ProbeCapacityAsWritten(one, 1, 0);
      Some(1);
    }
    forall c | ValidCapacity(c) ensures !one(c) { }
    ProbeCapacityRefusesWhenNothingAccepted(one, MaxQueries);
  }

  /** A device that refuses every size: the loop as written halves down to 0 and
      then keeps asking for a zero-slot heap forever; the corrected probe refuses
      construction. */
  lemma AsWrittenProbeNeverStopsWhenAllRefused(attempts: nat)
    ensures ProbeCapacityAsWritten(c => false, MaxQueries, attempts) == None
    ensures ProbeCapacity(c => false, MaxQueries) == None
  {
    var none: uint32 -> bool := c => false;
    ProbeNeverAccepts(none, MaxQueries, attempts);
    ProbeCapacityRefusesWhenNothingAccepted(none, MaxQueries);
  }

  lemma {:induction false} ProbeNeverAccepts(accepts: uint32 -> bool, limit: uint32, attempts: nat)
    requires forall c: uint32 :: !accepts(c)
    ensures ProbeCapacityAsWritten(accepts, limit, attempts) == None
    decreases attempts
  {
    if attempts > 0 {
      ProbeNeverAccepts(accepts, limit / 2, attempts - 1);
    }
  }

  lemma {:induction false} ProbeCapacityRefusesWhenNothingAccepted(accepts: uint32 -> bool, limit: uint32)
    requires ValidCapacity(limit)
    requires forall c :: ValidCapacity(c) ==> !accepts(c)
    ensures ProbeCapacity(accepts, limit) == None
    decreases limit
  {
    if limit != 2 {
      ProbeCapacityRefusesWhenNothingAccepted(accepts, limit / 2);
    }
  }
}
