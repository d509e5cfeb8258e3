/**
 * A principal whose tier changes: when its debt is still paid, and a run in
 * which it is not.
 */
module RateLimitTiers {
  import opened Wrappers
  import opened Numbers
  import opened RateLimit
  import opened RateLimitProofs
  import opened RateLimitReference

  // --------------------------------------------------- the bucket left behind

  /** What the last served call of a principal left in the store, even if it
      has been swept since. */
  function LeftBucket(p: RateLimitPolicy, calls: seq<Call>, id: int): Option<Bucket> {
    if calls == [] then None
    else if ServedLast(p, calls, id) && id in StoreAfter(p, calls) then Some(StoreAfter(p, calls)[id])
    else LeftBucket(p, calls[..|calls| - 1], id)
  }

  /** Whenever the principal was served without a bucket, the one it had left
      was full for the quota it came back with. */
  predicate ReturnsFull(p: RateLimitPolicy, calls: seq<Call>, id: int) {
    calls == [] ||
    var n := |calls| - 1;
    var left := LeftBucket(p, calls[..n], id);
    && ReturnsFull(p, calls[..n], id)
    && (ServedLast(p, calls, id) && id !in StoreAfter(p, calls[..n]) && left.Some? ==>
          FullFor(left.value, QuotaFor(p, calls[n].tier), calls[n].now))
  }

  /** The bucket a served principal is charged from. */
  function Charged(store: Store, id: int, q: Quota, now: Instant): Bucket {
    if id in store then ExactRefill(store[id], q, now) else Fresh(q, now)
  }

  lemma ServedTurn(max: nat, store: Store, id: int, q: Quota, now: Instant)
    requires id in store ==> store[id].last <= now < store[id].last + (U64_MAX + 1) * NANOS_PER_MS
    requires !Spend(max, store, id, q, now).answer.Saturated?
    ensures var turn := Spend(max, store, id, q, now);
      && id in turn.store
      && Charge(Charged(store, id, q, now)) == Served(turn.answer, turn.store[id])
  {
    hide Charge;
    RefillIsExact(if id in store then store[id] else Fresh(q, now), q, now);
  }

  lemma LastServed(p: RateLimitPolicy, calls: seq<Call>, id: int)
    requires calls != [] && NonDecreasing(calls) && InSpan(calls) && ServedLast(p, calls, id)
    ensures var n := |calls| - 1;
      var charged := Charged(StoreAfter(p, calls[..n]), id, QuotaFor(p, calls[n].tier), calls[n].now);
      && id in StoreAfter(p, calls)
      && LeftBucket(p, calls, id) == Some(StoreAfter(p, calls)[id])
      && Charge(charged) == Served(LastAnswer(p, calls), StoreAfter(p, calls)[id])
  {
    hide Spend, Charge;
    var n := |calls| - 1;
    BucketsAreDated(p, calls[..n]);
    ServedTurn(p.maxBuckets, StoreAfter(p, calls[..n]), id, QuotaFor(p, calls[n].tier), calls[n].now);
  }

  /** The store has the bucket that was left, or it was full for its own quota. */
  lemma {:induction false} LeftBucketAgrees(p: RateLimitPolicy, calls: seq<Call>, id: int)
    requires NonDecreasing(calls) && InSpan(calls)
    ensures calls == [] ==> LeftBucket(p, calls, id).None?
    ensures calls != [] ==> Agree(StoreAfter(p, calls), id, LeftBucket(p, calls, id), calls[0].now, calls[|calls| - 1].now)
  {
    if calls != [] {
      var n := |calls| - 1;
      var c := calls[n];
      LeftBucketAgrees(p, calls[..n], id);
      assert n == 0 ==> StoreAfter(p, calls[..n]) == map[] && calls[..n] == [];
      hide Spend, Charge, FullFor;
      if ServedLast(p, calls, id) {
        LastServed(p, calls, id);
        BucketsAreDated(p, calls);
        StoreIsBounded(p, calls);
      } else {
        var t := if n == 0 then c.now else calls[n - 1].now;
        OthersTurnAgrees(p.maxBuckets, StoreAfter(p, calls[..n]), id, LeftBucket(p, calls[..n], id), calls[0].now, t,
          c.principal, QuotaFor(p, c.tier), c.now);
      }
    }
  }

  lemma {:induction false} LeftBucketHasItsQuota(p: RateLimitPolicy, calls: seq<Call>, id: int, q: Quota)
    requires NonDecreasing(calls) && InSpan(calls) && OneQuota(p, calls, id, q)
    ensures LeftBucket(p, calls, id).Some? ==> LeftBucket(p, calls, id).value.quota == q
  {
    if calls != [] {
      LeftBucketHasItsQuota(p, calls[..|calls| - 1], id, q);
      hide LastAnswer, StoreAfter;
      if ServedLast(p, calls, id) { LastServed(p, calls, id); }
    }
  }

  /** A tier that never changes is the plainest case. */
  lemma {:induction false} OneTierReturnsFull(p: RateLimitPolicy, calls: seq<Call>, id: int, q: Quota)
    requires NonDecreasing(calls) && InSpan(calls) && OneQuota(p, calls, id, q)
    ensures ReturnsFull(p, calls, id)
  {
    hide StoreAfter, LastAnswer, LeftBucket;
    if calls != [] {
      var n := |calls| - 1;
      OneTierReturnsFull(p, calls[..n], id, q);
      LeftBucketAgrees(p, calls[..n], id);
      LeftBucketHasItsQuota(p, calls[..n], id, q);
      var left := LeftBucket(p, calls[..n], id);
      if ServedLast(p, calls, id) && id !in StoreAfter(p, calls[..n]) && left.Some? {
        FullnessLasts(left.value, q, calls[n - 1].now, calls[n].now);
      }
    }
  }

  // ------------------------------------------------------------ the bound

  /** No quota of this principal exceeds `top`, in capacity or in rate. */
  predicate QuotasWithin(p: RateLimitPolicy, calls: seq<Call>, id: int, top: Quota) {
    forall i :: 0 <= i < |calls| && calls[i].principal == id ==>
      var q := QuotaFor(p, calls[i].tier);
      q.capacity <= top.capacity && q.refillPerSecond <= top.refillPerSecond
  }

  function Potential(b: Bucket, top: Quota): int { NANOS_PER_MS * b.units - top.refillPerSecond * b.last }

  /** The most a bucket charged at `now` can be worth. */
  function Ceiling(top: Quota, now: Instant): int {
    NANOS_PER_MS * (TOKENS_PER_UNIT * top.capacity) - top.refillPerSecond * (now - (NANOS_PER_MS - 1))
  }

  lemma ChargedPotential(b: Bucket, q: Quota, top: Quota, now: Instant)
    requires b.last <= now && q.capacity <= top.capacity && q.refillPerSecond <= top.refillPerSecond
    ensures Potential(ExactRefill(b, q, now), top) <= Potential(b, top)
    ensures Potential(ExactRefill(b, q, now), top) <= Ceiling(top, now)
    ensures FullFor(b, q, now) ==> Potential(Fresh(q, now), top) <= Potential(b, top)
  {
    var ms, r := MsBetween(b.last, now), top.refillPerSecond;
    var last := b.last + ms * NANOS_PER_MS;
    CapacityIsExact(q);
    RateIsEnough(q, top, ms);
    ScaleKeepsOrder(r, now - (NANOS_PER_MS - 1), last);
    ScaleKeepsOrder(r, last, now);
    assert r * last == r * b.last + NANOS_PER_MS * (ms * r);
  }

  lemma RateIsEnough(q: Quota, top: Quota, ms: nat)
    requires q.refillPerSecond <= top.refillPerSecond
    ensures Worth(q, ms) <= ms * top.refillPerSecond
  {
    ScaleKeepsOrder(ms, q.refillPerSecond, top.refillPerSecond);
  }

  lemma FreshPotential(q: Quota, top: Quota, now: Instant)
    requires q.capacity <= top.capacity
    ensures Potential(Fresh(q, now), top) <= Ceiling(top, now)
  {
    CapacityIsExact(q);
    ScaleKeepsOrder(top.refillPerSecond, now - (NANOS_PER_MS - 1), now);
  }

  /** What serving a call leaves of the potential. */
  lemma ServedPotential(p: RateLimitPolicy, calls: seq<Call>, id: int, top: Quota)
    requires calls != [] && NonDecreasing(calls) && InSpan(calls) && ServedLast(p, calls, id)
    requires ReturnsFull(p, calls, id) && QuotasWithin(p, calls, id, top)
    ensures LeftBucket(p, calls, id).Some?
    ensures var n := |calls| - 1;
      var after := Potential(LeftBucket(p, calls, id).value, top) + NANOS_PER_MS * TOKENS_PER_UNIT * Spent(calls[n], LastAnswer(p, calls), id);
      var left := LeftBucket(p, calls[..n], id);
      after <= Ceiling(top, calls[n].now) && (left.Some? ==> after <= Potential(left.value, top))
  {
    hide StoreAfter, LastAnswer, LeftBucket, FullFor, ExactRefill, Ceiling;
    var n := |calls| - 1;
    var q, now, store, left := QuotaFor(p, calls[n].tier), calls[n].now, StoreAfter(p, calls[..n]), LeftBucket(p, calls[..n], id);
    assert q.capacity <= top.capacity && q.refillPerSecond <= top.refillPerSecond;
    LastServed(p, calls, id);
    LeftBucketAgrees(p, calls[..n], id);
    FreshPotential(q, top, now);
    if left.Some? { ChargedPotential(left.value, q, top, now); }
    NothingHeldYet(p, calls[..n], id);
  }

  lemma NothingHeldYet(p: RateLimitPolicy, calls: seq<Call>, id: int)
    ensures calls == [] ==> id !in StoreAfter(p, calls)
  {}

  lemma {:induction false} PotentialPaysForAdmissions(p: RateLimitPolicy, calls: seq<Call>, id: int, top: Quota, i: nat)
    requires i < |calls| && NonDecreasing(calls) && InSpan(calls)
    requires ReturnsFull(p, calls, id) && QuotasWithin(p, calls, id, top)
    ensures Admissions(p, calls, id, i) > 0 ==>
      && LeftBucket(p, calls, id).Some?
      && Potential(LeftBucket(p, calls, id).value, top) + NANOS_PER_MS * TOKENS_PER_UNIT * Admissions(p, calls, id, i) <= Ceiling(top, calls[i].now)
  {
    var n := |calls| - 1;
    if i < n { PotentialPaysForAdmissions(p, calls[..n], id, top, i); }
    hide StoreAfter, LastAnswer, Potential, Ceiling, ReturnsFull;
    assert Admissions(p, calls, id, i) == (if i < n then Admissions(p, calls[..n], id, i) else 0) + Spent(calls[n], LastAnswer(p, calls), id);
    if !ServedLast(p, calls, id) {
      assert Spent(calls[n], LastAnswer(p, calls), id) == 0;
      assert LeftBucket(p, calls, id) == LeftBucket(p, calls[..n], id);
    } else {
      ServedPotential(p, calls, id, top);
      CeilingFalls(top, calls[i].now, calls[n].now);
    }
  }

  lemma CeilingFalls(top: Quota, t: Instant, now: Instant)
    requires t <= now
    ensures Ceiling(top, now) <= Ceiling(top, t)
  {
    ScaleKeepsOrder(top.refillPerSecond, t - (NANOS_PER_MS - 1), now - (NANOS_PER_MS - 1));
  }

  /** Changing tiers under `top`, a principal that always returns full is
      admitted in a window no more than `top` alone would allow. */
  lemma TieredWindowBound(p: RateLimitPolicy, calls: seq<Call>, id: int, top: Quota, i: nat, d: nat)
    requires i < |calls| && calls[|calls| - 1].now - calls[i].now <= d * 1_000_000
    requires NonDecreasing(calls) && InSpan(calls)
    requires ReturnsFull(p, calls, id) && QuotasWithin(p, calls, id, top)
    ensures 1_000 * Admissions(p, calls, id, i) <= 1_000 * top.capacity + top.refillPerSecond * (d + 1)
  {
    hide StoreAfter, LastAnswer, ReturnsFull, Admissions;
    var admissions := Admissions(p, calls, id, i);
    if admissions > 0 {
      PotentialPaysForAdmissions(p, calls, id, top, i);
      LeftBucketAgrees(p, calls, id);
      var left, end := LeftBucket(p, calls, id).value, calls[|calls| - 1].now;
      ScaleKeepsOrder(top.refillPerSecond, left.last, end);
      WindowArithmetic(top, admissions, calls[i].now, end, d, NANOS_PER_MS - 1, Ceiling(top, calls[i].now), Potential(left, top));
    }
  }
}
