/**
 * Two runs in which forgetting a full bucket reaches the caller: one off the
 * millisecond, and one on it with a change of tier.
 */
module RateLimitRuns {
  import opened Wrappers
  import opened Numbers
  import opened RateLimit
  import opened RateLimitProofs
  import opened RateLimitReference

  /** Where a run of one policy stands after its first `k` calls, for principal 1. */
  predicate Stands(p: RateLimitPolicy, calls: seq<Call>, k: nat, store: Store, kept: Option<Bucket>, admitted: nat)
    requires k <= |calls|
  {
    && StoreAfter(p, calls[..k]) == store
    && KeptBucket(p, calls[..k], 1) == kept
    && Admissions(p, calls[..k], 1, 0) == admitted
  }

  lemma StandsAtFirst(p: RateLimitPolicy, calls: seq<Call>)
    ensures Stands(p, calls, 0, map[], None, 0)
  {
    assert calls[..0] == [];
  }

  lemma OneMoreCall(p: RateLimitPolicy, calls: seq<Call>, k: nat, store: Store, kept: Option<Bucket>, admitted: nat)
    requires k < |calls| && Stands(p, calls, k, store, kept, admitted)
    ensures var c := calls[k];
      var q := QuotaFor(p, c.tier);
      var turn := Spend(p.maxBuckets, store, c.principal, q, c.now);
      && LastAnswer(p, calls[..k + 1]) == turn.answer
      && Stands(p, calls, k + 1, turn.store,
           if c.principal == 1 && !turn.answer.Saturated? then Some(ServeAlone(kept, q, c.now).bucket) else kept,
           admitted + if c.principal == 1 && turn.answer.Admitted? then 1 else 0)
      && (AnsweredAlike(p, calls[..k + 1], 1) <==>
            (c.principal == 1 && !turn.answer.Saturated? ==> turn.answer == ServeAlone(kept, q, c.now).answer))
  {
    hide KeptBucket, ServeAlone, Spend;
    var more := calls[..k + 1];
    assert more[..k] == calls[..k];
    KeptBucketMoves(p, more, 1);
  }

  // ----------------------------------------------------- off the millisecond

  const ONE_A_MS: Quota := Quota(1, 1_000)

  const TWO_BUCKETS := RateLimitPolicy(ONE_A_MS, map[], 2)

  /** The first principal is swept while full, and returns half a millisecond
      out of step. */
  const HALF_A_MS_LATE := [Call(1, "", 0), Call(2, "", 0), Call(3, "", 1_500_000), Call(1, "", 1_500_000), Call(1, "", 2_000_000)]

  /** A bucket of one token, spent at `last`. */
  function SpentAt(last: Instant): Bucket { Bucket(0, last, ONE_A_MS) }

  lemma NewcomersTurn(store: Store, id: int, now: Instant)
    requires |store| < 2 && id !in store
    ensures Spend(2, store, id, ONE_A_MS, now) == Turn(Admitted, store[id := SpentAt(now)])
  {}

  lemma SweepingTurn(max: nat, store: Store, id: int, q: Quota, now: Instant)
    requires |store| == max > 0 && id !in store && forall other <- store :: IsFullAt(store[other], now)
    ensures Spend(max, store, id, q, now) == Turn(Admitted, map[id := Charge(Refilled(Fresh(q, now), q, now)).bucket])
  {
    assert forall other :: other !in Swept(store, now);
    CapacityIsExact(q);
  }

  lemma HalfAMsTurns()
    ensures Spend(2, map[1 := SpentAt(0), 2 := SpentAt(0)], 3, ONE_A_MS, 1_500_000) == Turn(Admitted, map[3 := SpentAt(1_500_000)])
    ensures Spend(2, map[3 := SpentAt(1_500_000), 1 := SpentAt(1_500_000)], 1, ONE_A_MS, 2_000_000).answer == Refused(1)
  {
    assert IsFullAt(SpentAt(0), 1_500_000);
    SweepingTurn(2, map[1 := SpentAt(0), 2 := SpentAt(0)], 3, ONE_A_MS, 1_500_000);
  }

  /** What the reference does with a bucket of known age. */
  lemma KeptTurn(b: Bucket, q: Quota, now: Instant, ms: nat, units: nat)
    requires b.last + ms * 1_000_000 <= now < b.last + (ms + 1) * 1_000_000
    requires units == Min(b.units + ms * q.refillPerSecond, 1_000 * q.capacity)
    ensures ServeAlone(Some(b), q, now) ==
      if units < 1_000 then Served(Refused(1), Bucket(units, b.last + ms * 1_000_000, q))
      else Served(Admitted, Bucket(units - 1_000, b.last + ms * 1_000_000, q))
  {
    assert MsBetween(b.last, now) == ms;
  }

  lemma KeptFirst(q: Quota, now: Instant)
    ensures ServeAlone(None, q, now) == Served(Admitted, Bucket(1_000 * q.capacity - 1_000, now, q))
  {}

  lemma HalfAMsKept()
    ensures ServeAlone(None, ONE_A_MS, 0).bucket == SpentAt(0)
    ensures ServeAlone(Some(SpentAt(0)), ONE_A_MS, 1_500_000).bucket == SpentAt(1_000_000)
    ensures ServeAlone(Some(SpentAt(1_000_000)), ONE_A_MS, 2_000_000).answer == Admitted
  {
    hide ServeAlone;
    KeptFirst(ONE_A_MS, 0);
    KeptTurn(SpentAt(0), ONE_A_MS, 1_500_000, 1, 1_000);
    KeptTurn(SpentAt(1_000_000), ONE_A_MS, 2_000_000, 1, 1_000);
  }

  /** Off the millisecond: this run refuses a call that the reference, keeping
      the bucket it swept, would have admitted. */
  lemma SubMillisecondEvictionIsObservable()
    ensures NonDecreasing(HALF_A_MS_LATE) && InSpan(HALF_A_MS_LATE) && OneQuota(TWO_BUCKETS, HALF_A_MS_LATE, 1, ONE_A_MS)
    ensures LastAnswer(TWO_BUCKETS, HALF_A_MS_LATE) == Refused(1)
    ensures ServeAlone(KeptBucket(TWO_BUCKETS, HALF_A_MS_LATE[..4], 1), ONE_A_MS, HALF_A_MS_LATE[4].now).answer == Admitted
  {
    hide StoreAfter, KeptBucket, Admissions, Spend, ServeAlone, SpentAt;
    var p, calls := TWO_BUCKETS, HALF_A_MS_LATE;
    var full := map[1 := SpentAt(0), 2 := SpentAt(0)];
    var late := map[3 := SpentAt(1_500_000)];
    HalfAMsTurns();
    HalfAMsKept();
    NewcomersTurn(map[], 1, 0);
    NewcomersTurn(map[1 := SpentAt(0)], 2, 0);
    NewcomersTurn(late, 1, 1_500_000);
    StandsAtFirst(p, calls);
    OneMoreCall(p, calls, 0, map[], None, 0);
    OneMoreCall(p, calls, 1, map[1 := SpentAt(0)], Some(SpentAt(0)), 1);
    OneMoreCall(p, calls, 2, full, Some(SpentAt(0)), 1);
    OneMoreCall(p, calls, 3, late, Some(SpentAt(0)), 1);
    OneMoreCall(p, calls, 4, late[1 := SpentAt(1_500_000)], Some(SpentAt(1_000_000)), 2);
    assert calls[..5] == calls;
  }

  // --------------------------------------------------------- a change of tier

  const FOUR_SLOWLY: Quota := Quota(4, 1)

  const ONE_BUCKET := RateLimitPolicy(ONE_A_MS, map["slow" := FOUR_SLOWLY], 1)

  /** The principal spends its four tokens, has its bucket put on the fast tier
      by one more call, is swept as full for that tier, and returns to the slow
      one with four tokens more. */
  const TIER_CHANGE := seq(10, i requires 0 <= i < 10 => TierChangeCall(i))

  function TierChangeCall(i: nat): Call {
    if i < 4 then Call(1, "slow", 0)
    else if i == 4 then Call(1, "", 0)
    else if i == 5 then Call(2, "", 1_000_000)
    else Call(1, "slow", 2_000_000)
  }

  function SlowStore(units: nat, now: Instant): Store { map[1 := Bucket(units, now, FOUR_SLOWLY)] }

  lemma SlowTurn(units: nat, now: Instant)
    requires 1_000 <= units <= 4_000
    ensures Spend(1, SlowStore(units, now), 1, FOUR_SLOWLY, now) == Turn(Admitted, SlowStore(units - 1_000, now))
  {
    assert SlowStore(units, now)[1 := Bucket(units - 1_000, now, FOUR_SLOWLY)] == SlowStore(units - 1_000, now);
  }

  lemma FirstTurn()
    ensures Spend(1, map[], 1, FOUR_SLOWLY, 0) == Turn(Admitted, SlowStore(3_000, 0))
  {}

  lemma FastTurn()
    ensures Spend(1, SlowStore(0, 0), 1, ONE_A_MS, 0) == Turn(Refused(1), map[1 := SpentAt(0)])
  {
    assert SlowStore(0, 0)[1 := SpentAt(0)] == map[1 := SpentAt(0)];
  }

  lemma IntrudersTurn()
    ensures Spend(1, map[1 := SpentAt(0)], 2, ONE_A_MS, 1_000_000) == Turn(Admitted, map[2 := SpentAt(1_000_000)])
  {
    hide Spend;
    SweepingTurn(1, map[1 := SpentAt(0)], 2, ONE_A_MS, 1_000_000);
  }

  lemma ReturningTurn()
    ensures Spend(1, map[2 := SpentAt(1_000_000)], 1, FOUR_SLOWLY, 2_000_000) == Turn(Admitted, SlowStore(3_000, 2_000_000))
  {
    hide Spend;
    SweepingTurn(1, map[2 := SpentAt(1_000_000)], 1, FOUR_SLOWLY, 2_000_000);
  }

  lemma TierChangeKept()
    ensures ServeAlone(None, FOUR_SLOWLY, 0).bucket == Bucket(3_000, 0, FOUR_SLOWLY)
    ensures ServeAlone(Some(Bucket(0, 0, FOUR_SLOWLY)), ONE_A_MS, 0).bucket == SpentAt(0)
    ensures ServeAlone(Some(SpentAt(0)), FOUR_SLOWLY, 2_000_000) == Served(Refused(1), Bucket(2, 2_000_000, FOUR_SLOWLY))
  {
    hide ServeAlone;
    KeptFirst(FOUR_SLOWLY, 0);
    KeptTurn(Bucket(0, 0, FOUR_SLOWLY), ONE_A_MS, 0, 0, 0);
    KeptTurn(SpentAt(0), FOUR_SLOWLY, 2_000_000, 2, 2);
  }

  lemma SlowKept(u: nat)
    requires 1_000 <= u <= 4_000
    ensures ServeAlone(Some(Bucket(u, 0, FOUR_SLOWLY)), FOUR_SLOWLY, 0).bucket == Bucket(u - 1_000, 0, FOUR_SLOWLY)
  {
    hide ServeAlone;
    KeptTurn(Bucket(u, 0, FOUR_SLOWLY), FOUR_SLOWLY, 0, 0, u);
  }

  lemma TierChangeIsOrdered()
    ensures NonDecreasing(TIER_CHANGE) && InSpan(TIER_CHANGE) && WholeMilliseconds(TIER_CHANGE)
  {}

  lemma FirstBurst()
    ensures Stands(ONE_BUCKET, TIER_CHANGE, 5, map[1 := SpentAt(0)], Some(SpentAt(0)), 4)
  {
    hide StoreAfter, KeptBucket, Admissions, Spend, ServeAlone, SpentAt, SlowStore, Stands, AnsweredAlike;
    var p, calls := ONE_BUCKET, TIER_CHANGE;
    TierChangeKept();
    StandsAtFirst(p, calls);
    FirstTurn();
    OneMoreCall(p, calls, 0, map[], None, 0);
    SlowTurn(3_000, 0);
    SlowKept(3_000);
    OneMoreCall(p, calls, 1, SlowStore(3_000, 0), Some(Bucket(3_000, 0, FOUR_SLOWLY)), 1);
    SlowTurn(2_000, 0);
    SlowKept(2_000);
    OneMoreCall(p, calls, 2, SlowStore(2_000, 0), Some(Bucket(2_000, 0, FOUR_SLOWLY)), 2);
    SlowTurn(1_000, 0);
    SlowKept(1_000);
    OneMoreCall(p, calls, 3, SlowStore(1_000, 0), Some(Bucket(1_000, 0, FOUR_SLOWLY)), 3);
    FastTurn();
    OneMoreCall(p, calls, 4, SlowStore(0, 0), Some(Bucket(0, 0, FOUR_SLOWLY)), 4);
  }

  lemma Return()
    ensures Stands(ONE_BUCKET, TIER_CHANGE, 7, SlowStore(3_000, 2_000_000), Some(Bucket(2, 2_000_000, FOUR_SLOWLY)), 5)
    ensures LastAnswer(ONE_BUCKET, TIER_CHANGE[..7]) == Admitted && !AnsweredAlike(ONE_BUCKET, TIER_CHANGE[..7], 1)
  {
    hide StoreAfter, KeptBucket, Admissions, Spend, ServeAlone, SpentAt, SlowStore, Stands, LastAnswer, AnsweredAlike;
    var p, calls := ONE_BUCKET, TIER_CHANGE;
    TierChangeKept();
    FirstBurst();
    IntrudersTurn();
    OneMoreCall(p, calls, 5, map[1 := SpentAt(0)], Some(SpentAt(0)), 4);
    ReturningTurn();
    OneMoreCall(p, calls, 6, map[2 := SpentAt(1_000_000)], Some(SpentAt(0)), 4);
  }

  lemma SecondBurst()
    ensures Admissions(ONE_BUCKET, TIER_CHANGE, 1, 0) == 8
  {
    hide StoreAfter, KeptBucket, Admissions, Spend, ServeAlone, SlowStore, LastAnswer, AnsweredAlike;
    var p, calls := ONE_BUCKET, TIER_CHANGE;
    var t := 2_000_000;
    Return();
    SlowTurn(3_000, t);
    OneMoreCall(p, calls, 7, SlowStore(3_000, t), KeptBucket(p, calls[..7], 1), 5);
    SlowTurn(2_000, t);
    OneMoreCall(p, calls, 8, SlowStore(2_000, t), KeptBucket(p, calls[..8], 1), 6);
    SlowTurn(1_000, t);
    OneMoreCall(p, calls, 9, SlowStore(1_000, t), KeptBucket(p, calls[..9], 1), 7);
    assert calls[..10] == calls;
  }

  /** With a change of tier, on the millisecond: the first call of the second
      burst is admitted where the reference refuses it, and the eight admissions
      in two milliseconds exceed what the largest capacity and the largest rate
      together would allow. */
  lemma TierChangeClearsDebt()
    ensures NonDecreasing(TIER_CHANGE) && InSpan(TIER_CHANGE) && WholeMilliseconds(TIER_CHANGE)
    ensures LastAnswer(ONE_BUCKET, TIER_CHANGE[..7]) == Admitted && !AnsweredAlike(ONE_BUCKET, TIER_CHANGE[..7], 1)
    ensures 1_000 * Admissions(ONE_BUCKET, TIER_CHANGE, 1, 0)
      > 1_000 * FOUR_SLOWLY.capacity + ONE_A_MS.refillPerSecond * (2 + 1)
  {
    hide LastAnswer, AnsweredAlike, Admissions, NonDecreasing, InSpan, WholeMilliseconds;
    TierChangeIsOrdered();
    Return();
    SecondBurst();
  }

  // --------------------------------------------------- the least honest wait

  const ONE_A_SECOND: Quota := Quota(1, 1)

  /** Two calls at once, and a third after a wait of `w`. */
  function AfterWaiting(w: nat): seq<Call> { [Call(1, "", 0), Call(1, "", 0), Call(1, "", w)] }

  lemma WaitingTurns(max: nat, w: nat)
    requires max > 0 && w < 1_000_000_000
    ensures Spend(max, map[], 1, ONE_A_SECOND, 0) == Turn(Admitted, map[1 := Bucket(0, 0, ONE_A_SECOND)])
    ensures Spend(max, map[1 := Bucket(0, 0, ONE_A_SECOND)], 1, ONE_A_SECOND, 0) == Turn(Refused(1), map[1 := Bucket(0, 0, ONE_A_SECOND)])
    ensures Spend(max, map[1 := Bucket(0, 0, ONE_A_SECOND)], 1, ONE_A_SECOND, w).answer == Refused(1)
  {}

  /** The advertised second cannot be shortened: with the slowest quota a call
      any earlier is refused again. */
  lemma RetryAfterIsLeast(max: nat, w: nat)
    requires max > 0
    ensures var p, calls := RateLimitPolicy(ONE_A_SECOND, map[], max), AfterWaiting(w);
      && LastAnswer(p, calls[..2]) == Refused(1)
      && (w < LastAnswer(p, calls[..2]).retryAfterSeconds * 1_000_000_000 ==> LastAnswer(p, calls) == Refused(1))
  {
    hide StoreAfter, KeptBucket, Admissions, Spend, ServeAlone, Stands, AnsweredAlike;
    var p, calls := RateLimitPolicy(ONE_A_SECOND, map[], max), AfterWaiting(w);
    var spent := map[1 := Bucket(0, 0, ONE_A_SECOND)];
    StandsAtFirst(p, calls);
    WaitingTurns(max, if w < 1_000_000_000 then w else 0);
    OneMoreCall(p, calls, 0, map[], None, 0);
    OneMoreCall(p, calls, 1, spent, Some(ServeAlone(None, ONE_A_SECOND, 0).bucket), 1);
    var kept := Some(ServeAlone(Some(ServeAlone(None, ONE_A_SECOND, 0).bucket), ONE_A_SECOND, 0).bucket);
    OneMoreCall(p, calls, 2, spent, kept, 1);
    assert calls[..3] == calls;
  }
}
