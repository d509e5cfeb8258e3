/**
 * What the limiter promises over whole runs: the bounded store, exact refills,
 * the bound on admissions in a window, and an honest `Retry-After`.
 */
module RateLimitProofs {
  import opened Numbers
  import opened RateLimit

  // ------------------------------------------------------------ hypotheses

  /** The clock is read before the lock is taken, so order is a hypothesis. */
  predicate NonDecreasing(calls: seq<Call>) {
    forall i, j :: 0 <= i <= j < |calls| ==> calls[i].now <= calls[j].now
  }

  /** No gap between two calls overflows a 64-bit count of milliseconds. */
  predicate InSpan(calls: seq<Call>) {
    forall i, j :: 0 <= i <= j < |calls| ==> calls[j].now - calls[i].now < 0x1_0000_0000_0000_0000 * 1_000_000
  }

  /** Any two calls are a whole number of milliseconds apart. */
  predicate WholeMilliseconds(calls: seq<Call>) {
    forall i, j :: 0 <= i < |calls| && 0 <= j < |calls| ==> calls[i].now % 1_000_000 == calls[j].now % 1_000_000
  }

  /** Only this principal's tier is fixed: the others may change theirs. */
  predicate OneQuota(p: RateLimitPolicy, calls: seq<Call>, id: int, q: Quota) {
    forall i :: 0 <= i < |calls| && calls[i].principal == id ==> QuotaFor(p, calls[i].tier) == q
  }

  // ------------------------------------------------------- bounded store

  ghost predicate Bounded(store: Store, maxBuckets: nat) {
    && |store| <= maxBuckets
    && forall id <- store :: store[id].units <= 1_000 * store[id].quota.capacity
  }

  /** The ceiling holds and no bucket exceeds its capacity, on any clock. */
  lemma {:induction false} StoreIsBounded(p: RateLimitPolicy, calls: seq<Call>)
    ensures Bounded(StoreAfter(p, calls), p.maxBuckets)
  {
    if calls != [] {
      var n := |calls| - 1;
      StoreIsBounded(p, calls[..n]);
      TurnStaysBounded(p.maxBuckets, StoreAfter(p, calls[..n]), calls[n].principal, QuotaFor(p, calls[n].tier), calls[n].now);
    }
  }

  lemma TurnStaysBounded(max: nat, store: Store, id: int, q: Quota, now: Instant)
    requires Bounded(store, max)
    ensures Bounded(Spend(max, store, id, q, now).store, max)
  {
    SweptIsNoLarger(store, now);
  }

  lemma SweptIsNoLarger(store: Store, now: Instant)
    ensures |Swept(store, now)| <= |store|
    ensures |Swept(store, now)| == |store| ==> Swept(store, now) == store
  {
    var kept := Swept(store, now);
    assert kept.Keys <= store.Keys;
    SubsetSize(kept.Keys, store.Keys);
  }

  lemma SubsetSize<T>(a: set<T>, b: set<T>)
    requires a <= b
    ensures |a| <= |b|
    ensures |a| == |b| ==> a == b
  {
    assert b == a + (b - a);
    assert |b| == |a| + |b - a|;
  }

  /** A principal is turned away for want of room exactly when it is untracked,
      the store is full and no bucket in it has refilled; nothing is evicted. */
  lemma SaturatedExactly(p: RateLimitPolicy, calls: seq<Call>, c: Call)
    ensures var store := StoreAfter(p, calls);
      var turn := Spend(p.maxBuckets, store, c.principal, QuotaFor(p, c.tier), c.now);
      && (turn.answer.Saturated? <==>
            c.principal !in store && |store| == p.maxBuckets && forall id <- store :: !IsFullAt(store[id], c.now))
      && (turn.answer.Saturated? ==> turn.store == store)
  {
    var store := StoreAfter(p, calls);
    StoreIsBounded(p, calls);
    SweptIsNoLarger(store, c.now);
    var kept := Swept(store, c.now);
    if kept == store {
      forall id | id in store ensures !IsFullAt(store[id], c.now) { assert id in kept; }
    }
    if forall id <- store :: !IsFullAt(store[id], c.now) {
      assert kept == store;
    }
  }

  ghost predicate Dated(store: Store, from: Instant, to: Instant) {
    forall id <- store :: from <= store[id].last <= to
  }

  /** Nobody's bucket is touched but the caller's, and none is dropped, unless a
      newcomer finds the store full: then exactly those that have refilled are. */
  lemma EvictionIsExact(max: nat, store: Store, id: int, q: Quota, now: Instant, other: int)
    requires other != id && |store| <= max
    ensures var after := Spend(max, store, id, q, now).store;
      && (other in after <==> other in store && !(id !in store && |store| == max && IsFullAt(store[other], now)))
      && (other in after ==> after[other] == store[other])
  {
    hide IsFullAt, Charge, Refilled;
  }

  /** An instant that is not later than the bucket's date earns nothing. */
  lemma EarlierInstantsEarnNothing(b: Bucket, q: Quota, now: Instant)
    requires now <= b.last
    ensures var after := Refilled(b, q, now);
      after.last == b.last && after.quota == q && after.units == if b.units <= 1_000 * q.capacity then b.units else 1_000 * q.capacity
  {
    CapacityIsExact(q);
  }

  /** On an ordered clock no bucket is dated outside the run. */
  lemma {:induction false} BucketsAreDated(p: RateLimitPolicy, calls: seq<Call>)
    requires NonDecreasing(calls)
    ensures calls == [] ==> StoreAfter(p, calls) == map[]
    ensures calls != [] ==> Dated(StoreAfter(p, calls), calls[0].now, calls[|calls| - 1].now)
  {
    if calls != [] {
      var n := |calls| - 1;
      BucketsAreDated(p, calls[..n]);
      assert Dated(StoreAfter(p, calls[..n]), calls[0].now, calls[n].now);
      TurnStaysDated(p.maxBuckets, StoreAfter(p, calls[..n]), calls[n].principal, QuotaFor(p, calls[n].tier), calls[n].now, calls[0].now);
    }
  }

  lemma TurnStaysDated(max: nat, store: Store, id: int, q: Quota, now: Instant, from: Instant)
    requires Dated(store, from, now) && from <= now
    ensures Dated(Spend(max, store, id, q, now).store, from, now)
  {
    RefillIsDated(if id in store then store[id] else Fresh(q, now), q, now);
  }

  lemma RefillIsDated(b: Bucket, q: Quota, now: Instant)
    requires b.last <= now
    ensures b.last <= Refilled(b, q, now).last <= now
  {}

  // ---------------------------------------------------- integer arithmetic

  /** Units that `ms` milliseconds are worth, in unbounded integers. */
  function Worth(q: Quota, ms: nat): nat { ms * q.refillPerSecond }

  lemma WorthAdds(q: Quota, a: nat, b: nat)
    ensures Worth(q, a + b) == Worth(q, a) + Worth(q, b)
    ensures Worth(q, a) <= Worth(q, a + b)
  {}

  function MsBetween(from: Instant, to: Instant): nat {
    if to <= from then 0 else (to - from) / 1_000_000
  }

  /** Refilling in unbounded integers: the reference for `Refilled`. */
  function ExactRefill(b: Bucket, q: Quota, now: Instant): Bucket {
    var ms := MsBetween(b.last, now);
    Bucket(Min(b.units + Worth(q, ms), 1_000 * q.capacity), b.last + ms * 1_000_000, q)
  }

  lemma CapacityIsExact(q: Quota)
    ensures CapacityUnits(q) == q.capacity * TOKENS_PER_UNIT < U64_MAX
    ensures CapacityUnits(q) >= TOKENS_PER_UNIT
  {}

  lemma ElapsedIsExact(b: Bucket, now: Instant)
    requires b.last <= now
    ensures ElapsedMs(b, now) == Min(MsBetween(b.last, now), U64_MAX)
    ensures MsBetween(b.last, now) <= U64_MAX <==> now - b.last < (U64_MAX + 1) * NANOS_PER_MS
  {}

  /** A sum already past the capacity stays past it when it saturates. */
  lemma SaturationIsHidden(units: nat, q: Quota, ms: nat)
    ensures var sat := SaturatingAdd(units, SaturatingMul(Min(ms, U64_MAX), q.refillPerSecond));
      && Min(sat, CapacityUnits(q)) == Min(units + Worth(q, ms), CapacityUnits(q))
      && (sat >= CapacityUnits(q) <==> units + Worth(q, ms) >= CapacityUnits(q))
  {
    CapacityIsExact(q);
    if ms > U64_MAX {
      assert Worth(q, U64_MAX) >= U64_MAX by { WorthAtLeast(q, U64_MAX); }
      WorthAdds(q, U64_MAX, ms - U64_MAX);
    }
  }

  lemma WorthAtLeast(q: Quota, ms: nat)
    ensures Worth(q, ms) >= ms
  {}

  /** The saturating refill is the unbounded one exactly when the gap fits a
      64-bit count of milliseconds; beyond it `last` lags the clock. */
  lemma RefillIsExact(b: Bucket, q: Quota, now: Instant)
    requires b.last <= now
    ensures Refilled(b, q, now) == ExactRefill(b, q, now) <==> now - b.last < 0x1_0000_0000_0000_0000 * 1_000_000
    ensures IsFullAt(b, now) <==> b.units + Worth(b.quota, MsBetween(b.last, now)) >= CapacityUnits(b.quota)
  {
    var ms := MsBetween(b.last, now);
    ElapsedIsExact(b, now);
    ElapsedIsExact(b.(quota := q), now);
    SaturationIsHidden(b.units, q, ms);
    SaturationIsHidden(b.units, b.quota, ms);
  }

  lemma ExactRefillComposes(b: Bucket, q: Quota, t: Instant, now: Instant)
    requires b.last <= t <= now
    ensures ExactRefill(ExactRefill(b, q, t), q, now) == ExactRefill(b, q, now)
    ensures t - NANOS_PER_MS < ExactRefill(b, q, t).last <= t
  {
    var e := MsBetween(b.last, t);
    var mid := b.last + e * NANOS_PER_MS;
    assert mid <= t < mid + NANOS_PER_MS;
    assert MsBetween(b.last, now) == e + MsBetween(mid, now);
    WorthAdds(q, e, MsBetween(mid, now));
  }

  // ------------------------------------------- absence is a full bucket

  /** Forgetting a bucket is invisible exactly when it is full and a whole
      number of milliseconds old. */
  lemma AbsenceIsFullness(b: Bucket, q: Quota, now: Instant)
    requires b.last <= now && now - b.last < 0x1_0000_0000_0000_0000 * 1_000_000
    ensures Refilled(b, q, now) == Fresh(q, now) <==>
      IsFullAt(b.(quota := q), now) && (now - b.last) % 1_000_000 == 0
  {
    RefillIsExact(b, q, now);
    RefillIsExact(b.(quota := q), q, now);
  }

  /** Past the span a bucket's clock lags, and one instant refills it twice. */
  lemma BeyondTheSpanAnInstantRefillsTwice()
    ensures var q := Quota(1, 1);
      var spent := Bucket(0, 0, q);
      var t := 2 * 0x1_0000_0000_0000_0000 * 1_000_000;
      var once := Charge(Refilled(spent, q, t));
      && once.answer == Admitted
      && Charge(Refilled(once.bucket, q, t)).answer == Admitted
      && Charge(ExactRefill(Charge(ExactRefill(spent, q, t)).bucket, q, t)).answer == Refused(1)
  {}

  /** Fullness only grows with time. */
  lemma FullnessLasts(b: Bucket, q: Quota, t: Instant, now: Instant)
    requires b.last <= t <= now
    requires b.units + Worth(q, MsBetween(b.last, t)) >= CapacityUnits(q)
    ensures b.units + Worth(q, MsBetween(b.last, now)) >= CapacityUnits(q)
  {
    WorthAdds(q, MsBetween(b.last, t), MsBetween(b.last, now) - MsBetween(b.last, t));
  }

  // -------------------------------------------------------- window bound

  /** What a principal could still spend, less what time has paid it so far:
      scaled so that a nanosecond is worth `refillPerSecond`. */
  function Credit(store: Store, id: int, q: Quota, now: Instant): int {
    if id in store then BucketCredit(ExactRefill(store[id], q, now))
    else BucketCredit(Fresh(q, now))
  }

  function BucketCredit(b: Bucket): int {
    NANOS_PER_MS * b.units - b.quota.refillPerSecond * b.last
  }

  /** Refilling never raises the credit, and a full bucket forgotten at `now`
      and created again has no more of it. */
  lemma RefillKeepsCredit(b: Bucket, q: Quota, now: Instant)
    requires b.last <= now && b.quota == q
    ensures BucketCredit(ExactRefill(b, q, now)) <= BucketCredit(b)
    ensures b.units + Worth(q, MsBetween(b.last, now)) >= CapacityUnits(q) ==> BucketCredit(Fresh(q, now)) <= BucketCredit(b)
  {
    var ms := MsBetween(b.last, now);
    var r := q.refillPerSecond;
    assert r * (b.last + ms * NANOS_PER_MS) == r * b.last + NANOS_PER_MS * Worth(q, ms);
    assert r * now >= r * (b.last + ms * NANOS_PER_MS);
  }

  lemma CreditIsBounded(b: Bucket, q: Quota, now: Instant)
    requires b.last <= now && b.units >= 0
    ensures BucketCredit(ExactRefill(b, q, now)) <= NANOS_PER_MS * CapacityUnits(q) - q.refillPerSecond * (now - NANOS_PER_MS + 1)
    ensures b.last % NANOS_PER_MS == now % NANOS_PER_MS ==>
      BucketCredit(ExactRefill(b, q, now)) <= NANOS_PER_MS * CapacityUnits(q) - q.refillPerSecond * now
    ensures BucketCredit(ExactRefill(b, q, now)) >= -(q.refillPerSecond * now)
  {
    var last := ExactRefill(b, q, now).last;
    assert now - NANOS_PER_MS + 1 <= last <= now;
    ScaleKeepsOrder(q.refillPerSecond, now - NANOS_PER_MS + 1, last);
    ScaleKeepsOrder(q.refillPerSecond, last, now);
  }

  lemma ScaleKeepsOrder(r: nat, a: int, b: int)
    requires a <= b
    ensures r * a <= r * b
  {}

  function Spent(c: Call, answer: Admission, id: int): nat {
    if c.principal == id && answer.Admitted? then 1 else 0
  }

  /** How often the principal was admitted by the calls from `i` on. */
  function Admissions(p: RateLimitPolicy, calls: seq<Call>, id: int, i: nat): nat {
    if |calls| <= i then 0
    else Admissions(p, calls[..|calls| - 1], id, i) + Spent(calls[|calls| - 1], LastAnswer(p, calls), id)
  }

  /** The hypotheses on one principal's bucket that a step preserves. */
  ghost predicate Kept(store: Store, id: int, q: Quota, t: Instant) {
    id in store ==> store[id].quota == q && store[id].last <= t
  }

  lemma CreditFalls(max: nat, store: Store, id: int, q: Quota, t: Instant, c: int, cq: Quota, now: Instant)
    requires Kept(store, id, q, t) && t <= now && (c == id ==> cq == q)
    requires id in store ==> now - store[id].last < (U64_MAX + 1) * NANOS_PER_MS
    ensures var turn := Spend(max, store, c, cq, now);
      && Kept(turn.store, id, q, now)
      && Credit(turn.store, id, q, now) + (if c == id && turn.answer.Admitted? then NANOS_PER_MS * TOKENS_PER_UNIT else 0)
           <= Credit(store, id, q, t)
  {
    var turn := Spend(max, store, c, cq, now);
    var newborn := Fresh(q, now);
    RefillIsExact(newborn, q, now);
    assert ExactRefill(newborn, q, now) == newborn;
    if id in store {
      var b := store[id];
      var mid := ExactRefill(b, q, t);
      ExactRefillComposes(b, q, t, now);
      RefillIsExact(b, q, now);
      RefillKeepsCredit(mid, q, now);
      if id !in turn.store { ForgottenKeepsCredit(b, q, t, now); }
    } else {
      ScaleKeepsOrder(q.refillPerSecond, t, now);
    }
    if id in turn.store { ServedRefillsNoFurther(if id in store then store[id] else newborn, q, now); }
  }

  lemma ForgottenKeepsCredit(b: Bucket, q: Quota, t: Instant, now: Instant)
    requires b.last <= t <= now && b.quota == q
    requires b.units + Worth(q, MsBetween(b.last, now)) >= CapacityUnits(q)
    ensures BucketCredit(Fresh(q, now)) <= BucketCredit(ExactRefill(b, q, t))
  {
    var mid := ExactRefill(b, q, t);
    ExactRefillComposes(b, q, t, now);
    assert ExactRefill(mid, q, now).units == CapacityUnits(q);
    RefillKeepsCredit(mid, q, now);
  }

  /** A second refill at the same instant changes nothing, even after a spend. */
  lemma ServedRefillsNoFurther(b: Bucket, q: Quota, now: Instant)
    requires b.last <= now
    ensures var after := Charge(ExactRefill(b, q, now)).bucket; ExactRefill(after, q, now) == after
  {
    ExactRefillComposes(b, q, now, now);
  }

  lemma {:induction false} CreditPaysForAdmissions(p: RateLimitPolicy, calls: seq<Call>, id: int, q: Quota, i: nat)
    requires i < |calls|
    requires NonDecreasing(calls) && InSpan(calls) && OneQuota(p, calls, id, q)
    ensures Kept(StoreAfter(p, calls), id, q, calls[|calls| - 1].now)
    ensures Credit(StoreAfter(p, calls), id, q, calls[|calls| - 1].now) + 1_000_000 * 1_000 * Admissions(p, calls, id, i)
      <= Credit(StoreAfter(p, calls[..i]), id, q, calls[i].now)
  {
    hide Credit, Spend;
    var n := |calls| - 1;
    var before := StoreAfter(p, calls[..n]);
    var c := calls[n];
    BucketsAreDated(p, calls[..n]);
    KeptOverRun(p, calls[..n], id, q);
    if n == i {
      CreditFalls(p.maxBuckets, before, id, q, c.now, c.principal, QuotaFor(p, c.tier), c.now);
    } else {
      CreditPaysForAdmissions(p, calls[..n], id, q, i);
      assert calls[..n][..i] == calls[..i];
      CreditFalls(p.maxBuckets, before, id, q, calls[n - 1].now, c.principal, QuotaFor(p, c.tier), c.now);
    }
  }

  lemma {:induction false} KeptOverRun(p: RateLimitPolicy, calls: seq<Call>, id: int, q: Quota)
    requires NonDecreasing(calls) && OneQuota(p, calls, id, q)
    ensures id in StoreAfter(p, calls) ==> StoreAfter(p, calls)[id].quota == q
  {
    if calls != [] { KeptOverRun(p, calls[..|calls| - 1], id, q); }
  }

  /** Every bucket is dated at this offset within a millisecond. */
  ghost predicate OnGrid(store: Store, offset: int) {
    forall id <- store :: store[id].last % NANOS_PER_MS == offset
  }

  lemma {:induction false} BucketsStayOnTheGrid(p: RateLimitPolicy, calls: seq<Call>, offset: int)
    requires forall i :: 0 <= i < |calls| ==> calls[i].now % NANOS_PER_MS == offset
    ensures OnGrid(StoreAfter(p, calls), offset)
  {
    if calls != [] {
      var n := |calls| - 1;
      BucketsStayOnTheGrid(p, calls[..n], offset);
      TurnStaysOnTheGrid(p.maxBuckets, StoreAfter(p, calls[..n]), calls[n].principal, QuotaFor(p, calls[n].tier), calls[n].now, offset);
    }
  }

  lemma TurnStaysOnTheGrid(max: nat, store: Store, id: int, q: Quota, now: Instant, offset: int)
    requires OnGrid(store, offset) && now % NANOS_PER_MS == offset
    ensures OnGrid(Spend(max, store, id, q, now).store, offset)
  {
    RefillStaysOnTheGrid(if id in store then store[id] else Fresh(q, now), q, now);
  }

  lemma RefillStaysOnTheGrid(b: Bucket, q: Quota, now: Instant)
    ensures Refilled(b, q, now).last % NANOS_PER_MS == b.last % NANOS_PER_MS
  {}

  /** Whatever else happens in between, evictions and re-creations included, the
      calls from `i` on admit a principal at most its capacity plus what the
      elapsed time refills and one millisecond more. */
  lemma WindowBound(p: RateLimitPolicy, calls: seq<Call>, id: int, q: Quota, i: nat, d: nat)
    requires i < |calls| && calls[|calls| - 1].now - calls[i].now <= d * 1_000_000
    requires NonDecreasing(calls) && InSpan(calls) && OneQuota(p, calls, id, q)
    ensures 1_000 * Admissions(p, calls, id, i) <= 1_000 * q.capacity + q.refillPerSecond * (d + 1)
  {
    BucketsAreDated(p, calls[..i]);
    CreditIsInRange(StoreAfter(p, calls[..i]), id, q, calls[i].now);
    WindowIsPaidFor(p, calls, id, q, i, d, NANOS_PER_MS - 1);
  }

  /** Between calls whole milliseconds apart nothing is added. */
  lemma WindowBoundOnMilliseconds(p: RateLimitPolicy, calls: seq<Call>, id: int, q: Quota, i: nat, d: nat)
    requires i < |calls| && calls[|calls| - 1].now - calls[i].now <= d * 1_000_000
    requires NonDecreasing(calls) && InSpan(calls) && OneQuota(p, calls, id, q) && WholeMilliseconds(calls)
    ensures 1_000 * Admissions(p, calls, id, i) <= 1_000 * q.capacity + q.refillPerSecond * d
  {
    BucketsAreDated(p, calls[..i]);
    BucketsStayOnTheGrid(p, calls[..i], calls[i].now % NANOS_PER_MS);
    CreditIsInRange(StoreAfter(p, calls[..i]), id, q, calls[i].now);
    WindowIsPaidFor(p, calls, id, q, i, d, 0);
  }

  lemma WindowIsPaidFor(p: RateLimitPolicy, calls: seq<Call>, id: int, q: Quota, i: nat, d: nat, slack: nat)
    requires i < |calls| && calls[|calls| - 1].now - calls[i].now <= d * 1_000_000 && slack < 1_000_000
    requires NonDecreasing(calls) && InSpan(calls) && OneQuota(p, calls, id, q)
    requires Credit(StoreAfter(p, calls[..i]), id, q, calls[i].now)
      <= 1_000_000 * (1_000 * q.capacity) - q.refillPerSecond * (calls[i].now - slack)
    ensures 1_000 * Admissions(p, calls, id, i)
      <= 1_000 * q.capacity + q.refillPerSecond * (if slack == 0 then d else d + 1)
  {
    hide Credit, Spend;
    var start, end := calls[i].now, calls[|calls| - 1].now;
    CreditPaysForAdmissions(p, calls, id, q, i);
    BucketsAreDated(p, calls);
    CreditIsInRange(StoreAfter(p, calls), id, q, end);
    WindowArithmetic(q, Admissions(p, calls, id, i), start, end, d, slack,
      Credit(StoreAfter(p, calls[..i]), id, q, start), Credit(StoreAfter(p, calls), id, q, end));
  }

  lemma CreditIsInRange(store: Store, id: int, q: Quota, now: Instant)
    requires id in store ==> store[id].last <= now
    ensures var cap := NANOS_PER_MS * (TOKENS_PER_UNIT * q.capacity);
      && -(q.refillPerSecond * now) <= Credit(store, id, q, now) <= cap - q.refillPerSecond * (now - (NANOS_PER_MS - 1))
      && ((id in store ==> store[id].last % NANOS_PER_MS == now % NANOS_PER_MS) ==>
            Credit(store, id, q, now) <= cap - q.refillPerSecond * (now - 0))
  {
    CapacityIsExact(q);
    FreshIsRefilled(q, now);
    CreditIsBounded(if id in store then store[id] else Fresh(q, now), q, now);
    ScaleKeepsOrder(q.refillPerSecond, now - (NANOS_PER_MS - 1), now);
  }

  lemma FreshIsRefilled(q: Quota, now: Instant)
    ensures ExactRefill(Fresh(q, now), q, now) == Fresh(q, now)
  {}

  /** The credit spent in a window, turned into admissions. */
  lemma WindowArithmetic(q: Quota, admissions: nat, start: Instant, end: Instant, d: nat, slack: nat, before: int, after: int)
    requires end - start <= d * 1_000_000 && slack < 1_000_000
    requires before <= 1_000_000 * (1_000 * q.capacity) - q.refillPerSecond * (start - slack)
    requires after >= -(q.refillPerSecond * end)
    requires after + 1_000_000 * 1_000 * admissions <= before
    ensures 1_000 * admissions <= 1_000 * q.capacity + q.refillPerSecond * (if slack == 0 then d else d + 1)
  {
    var r := q.refillPerSecond;
    var span := if slack == 0 then d else d + 1;
    assert r * end - r * (start - slack) == r * (end - start + slack);
    ScaleKeepsOrder(r, end - start + slack, span * NANOS_PER_MS);
    assert r * (span * NANOS_PER_MS) == NANOS_PER_MS * (r * span);
  }

  // ------------------------------------------------- honest Retry-After

  /** Nobody else can disturb a bucket that has not refilled: it is in the store,
      unchanged, until it is full. */
  lemma {:induction false} DebtSurvivesOthers(p: RateLimitPolicy, calls: seq<Call>, id: int, i: nat)
    requires 0 < i <= |calls| && NonDecreasing(calls)
    requires forall k :: i <= k < |calls| ==> calls[k].principal != id
    requires id in StoreAfter(p, calls[..i])
    ensures var b := StoreAfter(p, calls[..i])[id];
      && (id in StoreAfter(p, calls) ==> StoreAfter(p, calls)[id] == b)
      && (!IsFullAt(b, calls[|calls| - 1].now) ==> id in StoreAfter(p, calls))
  {
    hide IsFullAt, Spend;
    var b := StoreAfter(p, calls[..i])[id];
    if i == |calls| {
      assert calls[..i] == calls;
    } else {
      var n := |calls| - 1;
      assert calls[..n][..i] == calls[..i];
      DebtSurvivesOthers(p, calls[..n], id, i);
      BucketsAreDated(p, calls[..i]);
      var c := calls[n];
      OthersKeepBucket(p.maxBuckets, StoreAfter(p, calls[..n]), id, b, calls[n - 1].now, c.principal, QuotaFor(p, c.tier), c.now);
    }
  }

  lemma FullAtIsForGood(b: Bucket, t: Instant, now: Instant)
    requires b.last <= t <= now && IsFullAt(b, t)
    ensures IsFullAt(b, now)
  {
    RefillIsExact(b, b.quota, t);
    RefillIsExact(b, b.quota, now);
    FullnessLasts(b, b.quota, t, now);
  }

  lemma OthersKeepBucket(max: nat, store: Store, id: int, b: Bucket, t: Instant, c: int, cq: Quota, now: Instant)
    requires c != id && b.last <= t <= now
    requires (id in store ==> store[id] == b) && (!IsFullAt(b, t) ==> id in store)
    ensures var after := Spend(max, store, c, cq, now).store;
      (id in after ==> after[id] == b) && (!IsFullAt(b, now) ==> id in after)
  {
    if IsFullAt(b, t) { FullAtIsForGood(b, t, now); }
  }

  /** A principal refused at one call is not refused at its next one a second or
      more later, whatever its tier is by then and whatever others did; it is
      turned away only when its bucket is gone and the store is full again. */
  lemma RetryAfterIsHonest(p: RateLimitPolicy, calls: seq<Call>, i: nat)
    requires i + 1 < |calls| && NonDecreasing(calls)
    requires LastAnswer(p, calls[..i + 1]).Refused?
    requires var n := |calls| - 1;
      && calls[n].principal == calls[i].principal
      && (forall k :: i < k < n ==> calls[k].principal != calls[i].principal)
      && calls[n].now >= calls[i].now + LastAnswer(p, calls[..i + 1]).retryAfterSeconds * 1_000_000_000
    ensures var n := |calls| - 1;
      var before := StoreAfter(p, calls[..n]);
      && (LastAnswer(p, calls) == Admitted || LastAnswer(p, calls) == Saturated)
      && (LastAnswer(p, calls) == Saturated ==>
            calls[n].principal !in before && |before| == p.maxBuckets && forall id <- before :: !IsFullAt(before[id], calls[n].now))
  {
    hide IsFullAt, Refilled;
    var n := |calls| - 1;
    var id, q, now := calls[n].principal, QuotaFor(p, calls[n].tier), calls[n].now;
    var before := StoreAfter(p, calls[..n]);
    assert calls[..i + 1][..i] == calls[..i];
    assert calls[..n][..i + 1] == calls[..i + 1];
    DebtSurvivesOthers(p, calls[..n], id, i + 1);
    BucketsAreDated(p, calls[..i + 1]);
    SaturatedExactly(p, calls[..n], calls[n]);
    PaidByNow(p.maxBuckets, before, id, q, now);
  }

  lemma PaidByNow(max: nat, store: Store, id: int, q: Quota, now: Instant)
    requires id in store ==> store[id].last + NANOS_PER_SECOND <= now
    ensures !Spend(max, store, id, q, now).answer.Refused?
  {
    CapacityIsExact(q);
    ASecondIsAToken(if id in store then store[id] else Fresh(q, now), q, now);
  }

  /** The smallest quota refills one token in a second. */
  lemma ASecondIsAToken(b: Bucket, q: Quota, now: Instant)
    requires b.last + NANOS_PER_SECOND <= now || (b.last <= now && b.units >= TOKENS_PER_UNIT)
    ensures Refilled(b, q, now).units >= TOKENS_PER_UNIT
  {
    var c := b.(quota := q);
    ElapsedIsExact(c, now);
    SaturationIsHidden(b.units, q, MsBetween(b.last, now));
    WorthAtLeast(q, MsBetween(b.last, now));
    CapacityIsExact(q);
  }
}
