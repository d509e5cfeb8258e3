/**
 * The limiter against a reference that keeps one bucket for each principal for
 * ever: when the capped, evicting store agrees with it, and that a caller can
 * tell when it does not.
 */
module RateLimitReference {
  import opened Wrappers
  import opened Numbers
  import opened RateLimit
  import opened RateLimitProofs

  // ---------------------------------------------------------- the reference

  /** One bucket kept for ever, in unbounded integers. */
  function ServeAlone(held: Option<Bucket>, q: Quota, now: Instant): Served {
    var b := ExactRefill(if held.Some? then held.value else Bucket(1_000 * q.capacity, now, q), q, now);
    if b.units < 1_000 then Served(Refused(1), b) else Served(Admitted, b.(units := b.units - 1_000))
  }

  /** The limiter charges a refilled bucket as the reference does. */
  lemma ChargedAlike(held: Option<Bucket>, q: Quota, now: Instant)
    ensures ServeAlone(held, q, now) == Charge(ExactRefill(if held.Some? then held.value else Fresh(q, now), q, now))
  {
    CapacityIsExact(q);
  }

  /** The bucket left by serving these calls of one principal, alone. */
  function Alone(p: RateLimitPolicy, served: seq<Call>): Option<Bucket> {
    if served == [] then None
    else
      var c := served[|served| - 1];
      Some(ServeAlone(Alone(p, served[..|served| - 1]), QuotaFor(p, c.tier), c.now).bucket)
  }

  /** The calls of a principal that the store had room for. */
  function ServedCalls(p: RateLimitPolicy, calls: seq<Call>, id: int): seq<Call> {
    if calls == [] then []
    else
      var earlier := ServedCalls(p, calls[..|calls| - 1], id);
      var c := calls[|calls| - 1];
      if c.principal == id && !LastAnswer(p, calls).Saturated? then earlier + [c] else earlier
  }

  /** The bucket the reference has kept for a principal after these calls. */
  function KeptBucket(p: RateLimitPolicy, calls: seq<Call>, id: int): Option<Bucket> {
    Alone(p, ServedCalls(p, calls, id))
  }

  // ------------------------------------------------------- what agreement is

  /** The last call was served, and was one of this principal. */
  predicate ServedLast(p: RateLimitPolicy, calls: seq<Call>, id: int)
    requires calls != []
  {
    calls[|calls| - 1].principal == id && !LastAnswer(p, calls).Saturated?
  }

  /** The answer of the last call is the reference's, unless it is `Saturated`. */
  predicate AnsweredAlike(p: RateLimitPolicy, calls: seq<Call>, id: int)
    requires calls != []
  {
    var n := |calls| - 1;
    ServedLast(p, calls, id) ==>
      LastAnswer(p, calls) == ServeAlone(KeptBucket(p, calls[..n], id), QuotaFor(p, calls[n].tier), calls[n].now).answer
  }

  /** A bucket in the store is the one the reference kept. */
  predicate HeldAlike(p: RateLimitPolicy, calls: seq<Call>, id: int) {
    id in StoreAfter(p, calls) ==> KeptBucket(p, calls, id) == Some(StoreAfter(p, calls)[id])
  }

  predicate KeepsBuckets(p: RateLimitPolicy, calls: seq<Call>, id: int) {
    calls == [] || (KeepsBuckets(p, calls[..|calls| - 1], id) && HeldAlike(p, calls, id))
  }

  /** After every call, the bucket and the answer are the reference's. */
  predicate Tracks(p: RateLimitPolicy, calls: seq<Call>, id: int) {
    calls == [] ||
    (Tracks(p, calls[..|calls| - 1], id) && HeldAlike(p, calls, id) && AnsweredAlike(p, calls, id))
  }

  // ------------------------------------------------------- when it holds

  /** A whole number of milliseconds after the date of the kept bucket. */
  predicate OnTheMillisecond(kept: Bucket, now: Instant) { (now - kept.last) % 1_000_000 == 0 }

  /** The kept bucket has refilled, at the rate and to the capacity of `q`. */
  predicate FullFor(kept: Bucket, q: Quota, now: Instant) {
    kept.units + Worth(q, MsBetween(kept.last, now)) >= 1_000 * q.capacity
  }

  /** A principal the store has forgotten comes back as if it had not been. */
  predicate InStep(store: Store, id: int, kept: Option<Bucket>, q: Quota, now: Instant) {
    id !in store && kept.Some? ==> OnTheMillisecond(kept.value, now) && FullFor(kept.value, q, now)
  }

  /** Whenever the principal was served without a bucket, it was in step. */
  predicate ReturnsInStep(p: RateLimitPolicy, calls: seq<Call>, id: int) {
    calls == [] ||
    var n := |calls| - 1;
    && ReturnsInStep(p, calls[..n], id)
    && (ServedLast(p, calls, id) ==>
          InStep(StoreAfter(p, calls[..n]), id, KeptBucket(p, calls[..n], id), QuotaFor(p, calls[n].tier), calls[n].now))
  }

  /** The half of it that is about time. */
  predicate ReturnsOnTheMillisecond(p: RateLimitPolicy, calls: seq<Call>, id: int) {
    calls == [] ||
    var n := |calls| - 1;
    var kept := KeptBucket(p, calls[..n], id);
    && ReturnsOnTheMillisecond(p, calls[..n], id)
    && (ServedLast(p, calls, id) && id !in StoreAfter(p, calls[..n]) && kept.Some? ==> OnTheMillisecond(kept.value, calls[n].now))
  }

  // ------------------------------------------------------------- one turn

  /** What the store knows of a principal, against the bucket kept for it: one
      it has forgotten was full for the quota it had. */
  predicate Agree(store: Store, id: int, kept: Option<Bucket>, first: Instant, now: Instant) {
    && (id in store ==> kept == Some(store[id]))
    && (kept.Some? ==>
          && first <= kept.value.last <= now
          && kept.value.units <= CapacityUnits(kept.value.quota)
          && (id !in store ==> FullFor(kept.value, kept.value.quota, now)))
  }

  /** Where a bucket stands once it has been served at `now`. */
  lemma ServedBucketIsDated(b: Bucket, q: Quota, now: Instant)
    requires b.last <= now
    ensures var after := Charge(ExactRefill(b, q, now)).bucket;
      && b.last <= after.last <= now && after.quota == q && after.units <= CapacityUnits(q)
      && (after.last == now <==> OnTheMillisecond(b, now))
  {}

  lemma OthersTurnAgrees(max: nat, store: Store, id: int, kept: Option<Bucket>, first: Instant, t: Instant, c: int, cq: Quota, now: Instant)
    requires Agree(store, id, kept, first, t) && first <= t <= now
    requires c == id ==> Spend(max, store, c, cq, now).answer.Saturated?
    ensures Agree(Spend(max, store, c, cq, now).store, id, kept, first, now)
  {
    var after := Spend(max, store, c, cq, now).store;
    if kept.Some? {
      var q := kept.value.quota;
      if id !in store {
        FullnessLasts(kept.value, q, t, now);
      } else if id !in after {
        RefillIsExact(kept.value, q, now);
      }
    }
  }

  /** A forgotten bucket made afresh is the kept one, and is answered like it,
      exactly in step. */
  lemma ReturnIsExact(kept: Bucket, q: Quota, now: Instant)
    requires kept.last <= now
    ensures var made := Charge(ExactRefill(Fresh(q, now), q, now));
      var alone := Charge(ExactRefill(kept, q, now));
      && (OnTheMillisecond(kept, now) && FullFor(kept, q, now) <==> made == alone)
      && (made.bucket.last == alone.bucket.last <==> OnTheMillisecond(kept, now))
  {
    CapacityIsExact(q);
  }

  lemma OwnTurnAgrees(max: nat, store: Store, id: int, kept: Option<Bucket>, q: Quota, first: Instant, t: Instant, now: Instant)
    requires Agree(store, id, kept, first, t) && first <= t <= now
    requires now - first < (U64_MAX + 1) * NANOS_PER_MS
    requires !Spend(max, store, id, q, now).answer.Saturated?
    ensures var turn := Spend(max, store, id, q, now);
      var alone := ServeAlone(kept, q, now);
      && id in turn.store
      && (InStep(store, id, kept, q, now) <==> turn.store[id] == alone.bucket && turn.answer == alone.answer)
      && (InStep(store, id, kept, q, now) ==> Agree(turn.store, id, Some(alone.bucket), first, now))
      && (id !in store && kept.Some? && turn.store[id] == alone.bucket ==> OnTheMillisecond(kept.value, now))
  {
    hide Charge, FullFor, OnTheMillisecond, ServeAlone;
    ChargedAlike(kept, q, now);
    var held := if id in store then store[id] else Fresh(q, now);
    RefillIsExact(held, q, now);
    ServedBucketIsDated(held, q, now);
    if kept.Some? && id !in store { ReturnIsExact(kept.value, q, now); }
  }

  // -------------------------------------------------------- the refinement

  lemma NothingServedYet(p: RateLimitPolicy, id: int)
    ensures KeptBucket(p, [], id) == None && StoreAfter(p, []) == map[]
  {}

  lemma KeptBucketMoves(p: RateLimitPolicy, calls: seq<Call>, id: int)
    requires calls != []
    ensures var n := |calls| - 1;
      KeptBucket(p, calls, id) ==
        if ServedLast(p, calls, id)
        then Some(ServeAlone(KeptBucket(p, calls[..n], id), QuotaFor(p, calls[n].tier), calls[n].now).bucket)
        else KeptBucket(p, calls[..n], id)
  {
    hide LastAnswer, ServeAlone;
    var n := |calls| - 1;
    var served := ServedCalls(p, calls[..n], id);
    assert (served + [calls[n]])[..|served|] == served;
  }

  /** What the last call of a run does, if the calls before it were tracked. */
  lemma LastTurn(p: RateLimitPolicy, calls: seq<Call>, id: int)
    requires calls != [] && NonDecreasing(calls) && InSpan(calls)
    requires var n := |calls| - 1;
      var before, kept := StoreAfter(p, calls[..n]), KeptBucket(p, calls[..n], id);
      if n == 0 then kept.None? && before == map[] else Agree(before, id, kept, calls[0].now, calls[n - 1].now)
    ensures var n := |calls| - 1;
      var before, kept := StoreAfter(p, calls[..n]), KeptBucket(p, calls[..n], id);
      var inStep := InStep(before, id, kept, QuotaFor(p, calls[n].tier), calls[n].now);
      if ServedLast(p, calls, id) then
        && (inStep <==> HeldAlike(p, calls, id) && AnsweredAlike(p, calls, id))
        && (inStep ==> Agree(StoreAfter(p, calls), id, KeptBucket(p, calls, id), calls[0].now, calls[n].now))
        && (id !in before && kept.Some? && HeldAlike(p, calls, id) ==> OnTheMillisecond(kept.value, calls[n].now))
      else
        && HeldAlike(p, calls, id)
        && Agree(StoreAfter(p, calls), id, KeptBucket(p, calls, id), calls[0].now, calls[n].now)
  {
    hide Spend, InStep, KeptBucket, ServeAlone, OnTheMillisecond, FullFor;
    var n := |calls| - 1;
    var c := calls[n];
    var before, kept, q := StoreAfter(p, calls[..n]), KeptBucket(p, calls[..n], id), QuotaFor(p, c.tier);
    var t := if n == 0 then c.now else calls[n - 1].now;
    KeptBucketMoves(p, calls, id);
    if ServedLast(p, calls, id) {
      OwnTurnAgrees(p.maxBuckets, before, id, kept, q, calls[0].now, t, c.now);
    } else {
      OthersTurnAgrees(p.maxBuckets, before, id, kept, calls[0].now, t, c.principal, q, c.now);
    }
  }

  /** The capped, evicting store has the reference's buckets and gives its
      answers, `Saturated` apart, exactly when its principal always comes back
      in step: on the millisecond, and full for the quota it comes back with. */
  lemma {:induction false} StoreTracksReferenceExactly(p: RateLimitPolicy, calls: seq<Call>, id: int)
    requires NonDecreasing(calls) && InSpan(calls)
    ensures Tracks(p, calls, id) <==> ReturnsInStep(p, calls, id)
    ensures calls != [] && ReturnsInStep(p, calls, id) ==>
      Agree(StoreAfter(p, calls), id, KeptBucket(p, calls, id), calls[0].now, calls[|calls| - 1].now)
  {
    hide StoreAfter, InStep, KeptBucket, HeldAlike, AnsweredAlike, ServedLast, Agree;
    NothingServedYet(p, id);
    if calls != [] {
      StoreTracksReferenceExactly(p, calls[..|calls| - 1], id);
      if ReturnsInStep(p, calls[..|calls| - 1], id) {
        assert |calls| == 1 ==> calls[..|calls| - 1] == [];
        LastTurn(p, calls, id);
        assert !ServedLast(p, calls, id) ==> AnsweredAlike(p, calls, id) by { UnservedIsAlike(p, calls, id); }
      }
    }
  }

  lemma UnservedIsAlike(p: RateLimitPolicy, calls: seq<Call>, id: int)
    requires calls != []
    ensures !ServedLast(p, calls, id) ==> AnsweredAlike(p, calls, id)
  {}

  // ------------------------------------------------------------- one tier

  lemma {:induction false} KeptBucketHasItsQuota(p: RateLimitPolicy, calls: seq<Call>, id: int, q: Quota)
    requires OneQuota(p, calls, id, q)
    ensures KeptBucket(p, calls, id).Some? ==> KeptBucket(p, calls, id).value.quota == q
  {
    hide KeptBucket, LastAnswer, ServeAlone;
    NothingServedYet(p, id);
    if calls != [] {
      var n := |calls| - 1;
      KeptBucketHasItsQuota(p, calls[..n], id, q);
      KeptBucketMoves(p, calls, id);
      ServedForItsQuota(KeptBucket(p, calls[..n], id), QuotaFor(p, calls[n].tier), calls[n].now);
    }
  }

  lemma ServedForItsQuota(held: Option<Bucket>, q: Quota, now: Instant)
    ensures ServeAlone(held, q, now).bucket.quota == q
  {}

  /** With one quota a forgotten bucket is full whenever its principal is back. */
  lemma OneTierIsFullOnReturn(p: RateLimitPolicy, calls: seq<Call>, id: int, q: Quota)
    requires calls != [] && NonDecreasing(calls) && InSpan(calls) && OneQuota(p, calls, id, q)
    requires ReturnsInStep(p, calls[..|calls| - 1], id)
    ensures var n := |calls| - 1;
      var kept := KeptBucket(p, calls[..n], id);
      calls[n].principal == id && id !in StoreAfter(p, calls[..n]) && kept.Some? ==> FullFor(kept.value, q, calls[n].now)
  {
    hide StoreAfter, KeptBucket, ReturnsInStep;
    var n := |calls| - 1;
    NothingServedYet(p, id);
    if n == 0 {
      assert calls[..n] == [];
    } else {
      StoreTracksReferenceExactly(p, calls[..n], id);
      KeptBucketHasItsQuota(p, calls[..n], id, q);
      var kept := KeptBucket(p, calls[..n], id);
      if kept.Some? && id !in StoreAfter(p, calls[..n]) { FullnessLasts(kept.value, q, calls[n - 1].now, calls[n].now); }
    }
  }

  /** With one quota for the principal only the millisecond is left, and it is
      enough to look at the buckets. */
  lemma {:induction false} OneTierTracksExactly(p: RateLimitPolicy, calls: seq<Call>, id: int, q: Quota)
    requires NonDecreasing(calls) && InSpan(calls) && OneQuota(p, calls, id, q)
    ensures Tracks(p, calls, id) <==> ReturnsOnTheMillisecond(p, calls, id)
    ensures Tracks(p, calls, id) <==> KeepsBuckets(p, calls, id)
  {
    hide StoreAfter, KeptBucket, HeldAlike, AnsweredAlike, ServedLast, Agree, OnTheMillisecond, FullFor;
    StoreTracksReferenceExactly(p, calls, id);
    if calls != [] {
      var n := |calls| - 1;
      OneTierTracksExactly(p, calls[..n], id, q);
      StoreTracksReferenceExactly(p, calls[..n], id);
      if ReturnsInStep(p, calls[..n], id) {
        NothingServedYet(p, id);
        assert n == 0 ==> calls[..n] == [];
        LastTurn(p, calls, id);
        OneTierIsFullOnReturn(p, calls, id, q);
        ServedLastIsOwn(p, calls, id, q);
      }
    }
  }

  lemma ServedLastIsOwn(p: RateLimitPolicy, calls: seq<Call>, id: int, q: Quota)
    requires calls != [] && OneQuota(p, calls, id, q)
    ensures ServedLast(p, calls, id) ==> calls[|calls| - 1].principal == id && QuotaFor(p, calls[|calls| - 1].tier) == q
  {}

  /** Calls that are whole milliseconds apart are always on the millisecond. */
  lemma {:induction false} KeptBucketIsOnTheMillisecond(p: RateLimitPolicy, calls: seq<Call>, id: int)
    requires WholeMilliseconds(calls)
    ensures ReturnsOnTheMillisecond(p, calls, id)
    ensures KeptBucket(p, calls, id).Some? ==>
      calls != [] && KeptBucket(p, calls, id).value.last % NANOS_PER_MS == calls[0].now % NANOS_PER_MS
  {
    hide LastAnswer, KeptBucket;
    NothingServedYet(p, id);
    if calls != [] {
      var n := |calls| - 1;
      KeptBucketIsOnTheMillisecond(p, calls[..n], id);
      KeptBucketMoves(p, calls, id);
      RefillKeepsOffset(KeptBucket(p, calls[..n], id), QuotaFor(p, calls[n].tier), calls[n].now);
    }
  }

  lemma RefillKeepsOffset(held: Option<Bucket>, q: Quota, now: Instant)
    requires held.Some? ==> held.value.last % NANOS_PER_MS == now % NANOS_PER_MS
    ensures ServeAlone(held, q, now).bucket.last % NANOS_PER_MS == now % NANOS_PER_MS
  {}

  /** Hence the refinement: with one quota for this principal, and calls whole
      milliseconds apart, every answer but `Saturated` is that of a limiter that
      has only ever seen this principal's served calls. */
  lemma StoreRefinesReference(p: RateLimitPolicy, calls: seq<Call>, id: int, q: Quota)
    requires calls != []
    requires NonDecreasing(calls) && InSpan(calls) && WholeMilliseconds(calls) && OneQuota(p, calls, id, q)
    ensures AnsweredAlike(p, calls, id) && Tracks(p, calls, id)
  {
    KeptBucketIsOnTheMillisecond(p, calls, id);
    OneTierTracksExactly(p, calls, id, q);
  }

  // ------------------------------------------------- what the caller can tell

  /** On an ordered clock the kept bucket is dated within the run. */
  lemma {:induction false} KeptBucketIsDated(p: RateLimitPolicy, calls: seq<Call>, id: int)
    requires NonDecreasing(calls)
    ensures KeptBucket(p, calls, id).Some? ==>
      calls != [] && calls[0].now <= KeptBucket(p, calls, id).value.last <= calls[|calls| - 1].now
  {
    hide KeptBucket, LastAnswer, Charge;
    NothingServedYet(p, id);
    if calls != [] {
      var n := |calls| - 1;
      KeptBucketIsDated(p, calls[..n], id);
      KeptBucketMoves(p, calls, id);
      var kept := KeptBucket(p, calls[..n], id);
      ChargedAlike(kept, QuotaFor(p, calls[n].tier), calls[n].now);
      ServedBucketIsDated(if kept.Some? then kept.value else Fresh(QuotaFor(p, calls[n].tier), calls[n].now),
        QuotaFor(p, calls[n].tier), calls[n].now);
    }
  }

  /** One more call of a principal that both sides know. */
  lemma OneMoreOfItsOwn(p: RateLimitPolicy, calls: seq<Call>, c: Call, b: Bucket, kept: Bucket)
    requires c.principal in StoreAfter(p, calls) && StoreAfter(p, calls)[c.principal] == b
    requires KeptBucket(p, calls, c.principal) == Some(kept)
    requires b.last <= c.now && c.now - b.last < (U64_MAX + 1) * NANOS_PER_MS
    ensures var more := calls + [c];
      var own, alone := Charge(ExactRefill(b, QuotaFor(p, c.tier), c.now)), Charge(ExactRefill(kept, QuotaFor(p, c.tier), c.now));
      && c.principal in StoreAfter(p, more) && StoreAfter(p, more)[c.principal] == own.bucket
      && KeptBucket(p, more, c.principal) == Some(alone.bucket)
      && (AnsweredAlike(p, more, c.principal) <==> own.answer == alone.answer)
  {
    var more := calls + [c];
    var q := QuotaFor(p, c.tier);
    assert more[..|calls|] == calls;
    RefillIsExact(b, q, c.now);
    hide Charge, Refilled, ExactRefill, KeptBucket;
    KeptBucketMoves(p, more, c.principal);
    NeverSaturated(Refilled(b, q, c.now));
    ChargedAlike(Some(kept), q, c.now);
  }

  lemma NeverSaturated(b: Bucket)
    ensures !Charge(b).answer.Saturated?
  {}

  /** Milliseconds until a bucket with less than a token has one. */
  function Wait(b: Bucket, q: Quota): (ms: nat)
    requires b.units < TOKENS_PER_UNIT
    ensures 1 <= ms <= TOKENS_PER_UNIT
    ensures forall k: nat :: b.units + Worth(q, k) >= TOKENS_PER_UNIT <==> k >= ms
  {
    var ms := (TOKENS_PER_UNIT - b.units + q.refillPerSecond - 1) / q.refillPerSecond;
    WaitIsExact(b.units, q, ms);
    ms
  }

  lemma WaitIsExact(units: nat, q: Quota, ms: nat)
    requires units < TOKENS_PER_UNIT && ms == (TOKENS_PER_UNIT - units + q.refillPerSecond - 1) / q.refillPerSecond
    ensures 1 <= ms <= TOKENS_PER_UNIT
    ensures forall k: nat :: units + Worth(q, k) >= TOKENS_PER_UNIT <==> k >= ms
  {
    var r, need := q.refillPerSecond, TOKENS_PER_UNIT - units;
    assert ms * r >= need && (ms - 1) * r < need;
    assert ms >= 1;
    WorthAtLeast(q, ms - 1);
    forall k: nat ensures units + Worth(q, k) >= TOKENS_PER_UNIT <==> k >= ms {
      if k >= ms { ScaleKeepsOrder(r, ms, k); } else { ScaleKeepsOrder(r, k, ms - 1); }
    }
  }

  /** An exhausted bucket is answered by the clock alone. */
  lemma ExhaustedAnswers(b: Bucket, q: Quota, now: Instant)
    requires b.units < TOKENS_PER_UNIT && b.last <= now
    ensures Charge(ExactRefill(b, q, now)).answer.Admitted? <==> now >= b.last + Wait(b, q) * NANOS_PER_MS
  {
    CapacityIsExact(q);
  }

  /** Two buckets dated at different offsets within a millisecond, both known
      and both charged at every call, are told apart by calls of their principal
      alone: exhaust them at one instant, and they earn their next token at two. */
  lemma {:induction false} OutOfStepReachesTheCaller(p: RateLimitPolicy, calls: seq<Call>, id: int, tier: string) returns (more: seq<Call>)
    requires calls != [] && NonDecreasing(calls) && InSpan(calls)
    requires id in StoreAfter(p, calls) && KeptBucket(p, calls, id).Some?
    requires StoreAfter(p, calls)[id].last % 1_000_000 != KeptBucket(p, calls, id).value.last % 1_000_000
    ensures more != [] && NonDecreasing(calls + more)
    ensures forall i :: 0 <= i < |more| ==> more[i].principal == id && more[i].tier == tier
    ensures more[|more| - 1].now <= calls[|calls| - 1].now + 1_000_000_000
    ensures !AnsweredAlike(p, calls + more, id)
    decreases ExactRefill(StoreAfter(p, calls)[id], QuotaFor(p, tier), calls[|calls| - 1].now).units
  {
    hide StoreAfter, KeptBucket, AnsweredAlike, Charge, ExactRefill, NonDecreasing;
    var q, t := QuotaFor(p, tier), calls[|calls| - 1].now;
    var b, kept := StoreAfter(p, calls)[id], KeptBucket(p, calls, id).value;
    BucketsAreDated(p, calls);
    KeptBucketIsDated(p, calls, id);
    var c := Call(id, tier, t);
    var next := calls + [c];
    OneMoreOfItsOwn(p, calls, c, b, kept);
    OrderedPush(calls, c);
    var own, alone := Charge(ExactRefill(b, q, t)), Charge(ExactRefill(kept, q, t));
    if own.answer != alone.answer {
      more := [c];
    } else {
      ChargedOnce(b, q, t);
      ChargedOnce(kept, q, t);
      if own.answer.Admitted? {
        var rest := OutOfStepReachesTheCaller(p, next, id, tier);
        more := [c] + rest;
        assert calls + more == next + rest;
      } else {
        var early := TokensComeApart(own.bucket, alone.bucket, q, t);
        more := [c, Call(id, tier, early)];
        assert calls + more == next + [more[1]];
        OneMoreOfItsOwn(p, next, more[1], own.bucket, alone.bucket);
        OrderedPush(next, more[1]);
      }
    }
  }

  lemma ServedWithoutBucket(p: RateLimitPolicy, calls: seq<Call>, id: int)
    requires calls != [] && ServedLast(p, calls, id) && id !in StoreAfter(p, calls[..|calls| - 1])
    ensures var c := calls[|calls| - 1];
      var q := QuotaFor(p, c.tier);
      id in StoreAfter(p, calls) && StoreAfter(p, calls)[id] == Charge(ExactRefill(Fresh(q, c.now), q, c.now)).bucket
  {
    hide Charge;
    var c := calls[|calls| - 1];
    RefillIsExact(Fresh(QuotaFor(p, c.tier), c.now), QuotaFor(p, c.tier), c.now);
  }

  lemma ReturnComesApart(kept: Bucket, q: Quota, now: Instant)
    requires kept.last <= now && !OnTheMillisecond(kept, now)
    ensures Charge(ExactRefill(Fresh(q, now), q, now)).bucket.last % NANOS_PER_MS
      != Charge(ExactRefill(kept, q, now)).bucket.last % NANOS_PER_MS
  {
    ChargedOnce(Fresh(q, now), q, now);
    ChargedOnce(kept, q, now);
  }

  /** A return off the millisecond is such a case: whatever its tier, some calls
      of its own then show the principal that it had been forgotten. */
  lemma OffTheMillisecondReachesTheCaller(p: RateLimitPolicy, calls: seq<Call>, id: int, tier: string) returns (more: seq<Call>)
    requires calls != [] && NonDecreasing(calls) && InSpan(calls) && ServedLast(p, calls, id)
    requires var n := |calls| - 1;
      var kept := KeptBucket(p, calls[..n], id);
      id !in StoreAfter(p, calls[..n]) && kept.Some? && !OnTheMillisecond(kept.value, calls[n].now)
    ensures more != [] && NonDecreasing(calls + more)
    ensures forall i :: 0 <= i < |more| ==> more[i].principal == id && more[i].tier == tier
    ensures more[|more| - 1].now <= calls[|calls| - 1].now + 1_000_000_000
    ensures !AnsweredAlike(p, calls + more, id)
  {
    hide StoreAfter, KeptBucket, AnsweredAlike, Charge, ExactRefill, OnTheMillisecond;
    var n := |calls| - 1;
    var q, now := QuotaFor(p, calls[n].tier), calls[n].now;
    KeptBucketMoves(p, calls, id);
    KeptBucketIsDated(p, calls[..n], id);
    ServedWithoutBucket(p, calls, id);
    ChargedAlike(KeptBucket(p, calls[..n], id), q, now);
    ReturnComesApart(KeptBucket(p, calls[..n], id).value, q, now);
    more := OutOfStepReachesTheCaller(p, calls, id, tier);
  }

  /** The instant at which the first of two exhausted buckets earns a token. */
  lemma TokensComeApart(a: Bucket, b: Bucket, q: Quota, t: Instant) returns (early: Instant)
    requires t - NANOS_PER_MS < a.last <= t && t - NANOS_PER_MS < b.last <= t && a.last != b.last
    requires a.units < TOKENS_PER_UNIT && b.units < TOKENS_PER_UNIT
    ensures t <= early <= t + NANOS_PER_SECOND
    ensures Charge(ExactRefill(a, q, early)).answer != Charge(ExactRefill(b, q, early)).answer
  {
    hide Wait, Charge, ExactRefill;
    var ta, tb := a.last + Wait(a, q) * NANOS_PER_MS, b.last + Wait(b, q) * NANOS_PER_MS;
    early := Min(ta, tb);
    ExhaustedAnswers(a, q, early);
    ExhaustedAnswers(b, q, early);
  }

  lemma OrderedPush(calls: seq<Call>, c: Call)
    requires calls != [] && NonDecreasing(calls) && calls[|calls| - 1].now <= c.now
    ensures NonDecreasing(calls + [c])
  {}

  /** What serving a bucket at `t` leaves for another call at `t`. */
  lemma ChargedOnce(b: Bucket, q: Quota, t: Instant)
    requires b.last <= t
    ensures var s := Charge(ExactRefill(b, q, t));
      && t - NANOS_PER_MS < s.bucket.last <= t && s.bucket.last % NANOS_PER_MS == b.last % NANOS_PER_MS
      && ExactRefill(s.bucket, q, t) == s.bucket
      && (if s.answer.Admitted? then s.bucket.units < ExactRefill(b, q, t).units else s.bucket.units < TOKENS_PER_UNIT)
      && (s.answer.Admitted? || s.answer == Refused(1))
  {}
}
