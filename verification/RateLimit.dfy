/**
 * The per-principal token bucket of `rate_limit.rs`, its bounded store, and
 * the reference limiter it is compared with.
 *
 * Instants are integer nanoseconds. The 64-bit saturating operations are kept
 * where the source has them; `RefillIsExact` says when they are harmless.
 */
module RateLimit {
  import opened Numbers

  const TOKENS_PER_UNIT := 1_000
  const RETRY_AFTER_SECONDS := 1
  const NANOS_PER_MS := 1_000_000
  const NANOS_PER_SECOND := 1_000_000_000

  type Instant = int

  function SaturatingAdd(a: nat, b: nat): nat { Min(a + b, U64_MAX) }

  function SaturatingMul(a: nat, b: nat): nat { Min(a * b, U64_MAX) }

  // ---------------------------------------------------------------- quotas

  datatype QuotaValues = Quota(capacity: int, refillPerSecond: int)

  predicate NonZeroU32(n: int) { 1 <= n <= U32_MAX }

  type Quota = q: QuotaValues | NonZeroU32(q.capacity) && NonZeroU32(q.refillPerSecond)
    witness Quota(1, 1)

  function CapacityUnits(q: Quota): (units: nat)
  {
    SaturatingMul(q.capacity, TOKENS_PER_UNIT)
  }

  datatype RateLimitPolicy = RateLimitPolicy(default: Quota, tiers: map<string, Quota>, maxBuckets: nat)

  function QuotaFor(p: RateLimitPolicy, tier: string): Quota {
    if tier in p.tiers then p.tiers[tier] else p.default
  }

  // --------------------------------------------------------------- buckets

  datatype Bucket = Bucket(units: nat, last: Instant, quota: Quota)

  /** The bucket made for a principal on its first call. */
  function Fresh(quota: Quota, now: Instant): Bucket {
    Bucket(CapacityUnits(quota), now, quota)
  }

  /** Whole milliseconds since `last`; nothing for an instant that is not later. */
  function ElapsedMs(b: Bucket, now: Instant): nat {
    if now <= b.last then 0 else Min((now - b.last) / NANOS_PER_MS, U64_MAX)
  }

  function Earned(b: Bucket, elapsedMs: nat): nat {
    SaturatingMul(elapsedMs, b.quota.refillPerSecond)
  }

  function Refilled(b: Bucket, quota: Quota, now: Instant): Bucket {
    var c := b.(quota := quota);
    var ms := ElapsedMs(c, now);
    Bucket(Min(SaturatingAdd(c.units, Earned(c, ms)), CapacityUnits(quota)), c.last + ms * NANOS_PER_MS, quota)
  }

  predicate IsFullAt(b: Bucket, now: Instant) {
    SaturatingAdd(b.units, Earned(b, ElapsedMs(b, now))) >= CapacityUnits(b.quota)
  }

  datatype Admission = Admitted | Refused(retryAfterSeconds: nat) | Saturated

  datatype Served = Served(answer: Admission, bucket: Bucket)

  /** What a tracked principal is answered once its bucket has been refilled. */
  function Charge(b: Bucket): Served {
    if b.units < TOKENS_PER_UNIT then Served(Refused(RETRY_AFTER_SECONDS), b)
    else Served(Admitted, b.(units := b.units - TOKENS_PER_UNIT))
  }

  // ----------------------------------------------------------------- store

  type Store = map<int, Bucket>

  /** The eviction sweep: what `retain` leaves behind. */
  function Swept(store: Store, now: Instant): Store {
    map id | id in store && !IsFullAt(store[id], now) :: store[id]
  }

  datatype Turn = Turn(answer: Admission, store: Store)

  /** One call as a function of the store: the specification of `RateLimiter.Spend`. */
  function Spend(maxBuckets: nat, store: Store, id: int, quota: Quota, now: Instant): Turn {
    var crowded := |store| >= maxBuckets && id !in store;
    var kept := if crowded then Swept(store, now) else store;
    if crowded && |kept| >= maxBuckets then Turn(Saturated, kept)
    else
      var held := if id in kept then kept[id] else Fresh(quota, now);
      var served := Charge(Refilled(held, quota, now));
      Turn(served.answer, kept[id := served.bucket])
  }

  // ------------------------------------------------------------------ runs

  datatype Call = Call(principal: int, tier: string, now: Instant)

  function Answer(p: RateLimitPolicy, store: Store, c: Call): Turn {
    Spend(p.maxBuckets, store, c.principal, QuotaFor(p, c.tier), c.now)
  }

  /** The store a run from an empty one ends with. */
  function StoreAfter(p: RateLimitPolicy, calls: seq<Call>): Store {
    if calls == [] then map[]
    else Answer(p, StoreAfter(p, calls[..|calls| - 1]), calls[|calls| - 1]).store
  }

  /** What the last call of a run is answered; every call is the last of a run. */
  function LastAnswer(p: RateLimitPolicy, calls: seq<Call>): Admission
    requires calls != []
  {
    Answer(p, StoreAfter(p, calls[..|calls| - 1]), calls[|calls| - 1]).answer
  }

  /** The limiter behind its lock: the map of buckets is the state calls change. */
  class RateLimiter {
    const policy: RateLimitPolicy
    var buckets: Store
    ghost var history: seq<Call>

    /** The store is exactly what the calls so far lead to. */
    ghost predicate Valid()
      reads this
    {
      buckets == StoreAfter(policy, history)
    }

    constructor (policy: RateLimitPolicy)
      ensures this.policy == policy && history == [] && Valid()
    {
      this.policy := policy;
      buckets := map[];
      history := [];
    }

    method Admit(principal: int, tier: string, now: Instant) returns (answer: Admission)
      requires Valid()
      modifies this
      ensures Valid()
      ensures history == old(history) + [Call(principal, tier, now)]
      ensures answer == LastAnswer(policy, history)
    {
      answer := SpendToken(principal, QuotaFor(policy, tier), now);
      history := history + [Call(principal, tier, now)];
      assert history[..|history| - 1] == old(history);
    }

    method SpendToken(principal: int, quota: Quota, now: Instant) returns (answer: Admission)
      modifies this`buckets
      ensures Turn(answer, buckets) == Spend(policy.maxBuckets, old(buckets), principal, quota, now)
    {
      if |buckets| >= policy.maxBuckets && principal !in buckets {
        buckets := map id | id in buckets && !IsFullAt(buckets[id], now) :: buckets[id];
        if |buckets| >= policy.maxBuckets {
          return Saturated;
        }
      }
      var bucket := if principal in buckets then buckets[principal] else Fresh(quota, now);
      bucket := Refill(bucket, quota, now);
      if bucket.units < TOKENS_PER_UNIT {
        buckets := buckets[principal := bucket];
        return Refused(RETRY_AFTER_SECONDS);
      }
      bucket := bucket.(units := bucket.units - TOKENS_PER_UNIT);
      buckets := buckets[principal := bucket];
      return Admitted;
    }

    /** Buckets are held by value, so an update returns the bucket it leaves. */
    static method Refill(bucket: Bucket, quota: Quota, now: Instant) returns (b: Bucket)
      ensures b == Refilled(bucket, quota, now)
    {
      b := bucket.(quota := quota);
      var elapsedMs := ElapsedMs(b, now);
      b := b.(units := Min(SaturatingAdd(b.units, Earned(b, elapsedMs)), CapacityUnits(quota)));
      b := b.(last := b.last + elapsedMs * NANOS_PER_MS);
    }
  }
}
