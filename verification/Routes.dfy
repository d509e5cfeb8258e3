/**
 * What a registered handler sits behind: authentication, one token of the
 * principal's allowance, and the scope of the route, in that order.
 */
module Routes {
  import opened Wrappers
  import opened Numbers
  import opened RateLimit
  import opened RateLimitProofs

  datatype Scope = CatalogRead | MilitaryRead | CurationRead | CurationWrite | Admin

  datatype RoutePolicy = Public | Scoped(scope: Scope)

  datatype Principal = Principal(id: int, tier: string, scopes: set<Scope>)

  datatype Refusal = AuthenticationRequired | DatabaseUnavailable | Internal

  /** `identity` is what authenticating this request would answer. */
  datatype Request = Request(policy: RoutePolicy, identity: Result<Principal, Refusal>, now: Instant)

  datatype Response =
    | Handled
    | NotAuthenticated(refusal: Refusal)
    | RateLimited(retryAfterSeconds: nat)
    | Overloaded
    | InsufficientScope(required: Scope)

  /** The token a request spends: none for a public route or an unknown caller. */
  function TokenCall(r: Request): Option<Call> {
    if r.policy.Public? || r.identity.Err? then None
    else Some(Call(r.identity.value.id, r.identity.value.tier, r.now))
  }

  /** What the limiter has been asked, once these requests have been served. */
  function Calls(requests: seq<Request>): seq<Call> {
    if requests == [] then []
    else
      var n := |requests| - 1;
      Calls(requests[..n]) + (match TokenCall(requests[n]) case None => [] case Some(c) => [c])
  }

  function ResponseTo(p: RateLimitPolicy, history: seq<Call>, r: Request): Response {
    match r.policy
    case Public => Handled
    case Scoped(required) =>
      match r.identity
      case Err(refusal) => NotAuthenticated(refusal)
      case Ok(principal) =>
        match LastAnswer(p, history + [Call(principal.id, principal.tier, r.now)])
        case Refused(seconds) => RateLimited(seconds)
        case Saturated => Overloaded
        case Admitted => if required in principal.scopes then Handled else InsufficientScope(required)
  }

  /** `Policed::call`; the handler is reached where `Handled` is returned. */
  method Serve(limiter: RateLimiter, r: Request) returns (response: Response)
    requires limiter.Valid()
    modifies limiter
    ensures limiter.Valid()
    ensures limiter.history == old(limiter.history)
      + (if r.policy.Public? || r.identity.Err? then [] else [Call(r.identity.value.id, r.identity.value.tier, r.now)])
    ensures response == ResponseTo(limiter.policy, old(limiter.history), r)
  {
    if r.policy.Public? { return Handled; }
    if r.identity.Err? { return NotAuthenticated(r.identity.error); }
    var principal := r.identity.value;
    var answer := limiter.Admit(principal.id, principal.tier, r.now);
    match answer
    case Refused(seconds) => return RateLimited(seconds);
    case Saturated => return Overloaded;
    case Admitted =>
      if r.policy.scope !in principal.scopes { return InsufficientScope(r.policy.scope); }
      return Handled;
  }

  /** Who is let through to a handler, and what everyone else is told. */
  lemma ResponsesAreExact(p: RateLimitPolicy, history: seq<Call>, r: Request)
    ensures r.policy.Public? ==> ResponseTo(p, history, r) == Handled
    ensures r.policy.Scoped? && r.identity.Err? ==> ResponseTo(p, history, r) == NotAuthenticated(r.identity.error)
    ensures r.policy.Scoped? && r.identity.Ok? ==>
      var caller := r.identity.value;
      var answer := LastAnswer(p, history + [Call(caller.id, caller.tier, r.now)]);
      var response := ResponseTo(p, history, r);
      && (response == Handled <==> answer == Admitted && r.policy.scope in caller.scopes)
      && (response == InsufficientScope(r.policy.scope) <==> answer == Admitted && r.policy.scope !in caller.scopes)
      && (response == Overloaded <==> answer == Saturated)
      && (forall seconds :: response == RateLimited(seconds) <==> answer == Refused(seconds))
  {}

  /** The token that request `k` of a run asked for was granted. */
  predicate Granted(p: RateLimitPolicy, requests: seq<Request>, id: int, k: int)
    requires 0 <= k < |requests|
  {
    var r := requests[k];
    && r.policy.Scoped? && r.identity.Ok? && r.identity.value.id == id
    && LastAnswer(p, Calls(requests[..k]) + [Call(id, r.identity.value.tier, r.now)]) == Admitted
  }

  predicate Reaches(r: Request) { r.policy.Scoped? && r.identity.Ok? && r.policy.scope in r.identity.value.scopes }

  /** Request `k`, of this principal on a scoped route, got this kind of answer. */
  predicate Answered(p: RateLimitPolicy, requests: seq<Request>, id: int, k: int, handled: bool)
    requires 0 <= k < |requests|
  {
    var r := requests[k];
    var response := ResponseTo(p, Calls(requests[..k]), r);
    && r.policy.Scoped? && r.identity.Ok? && r.identity.value.id == id
    && (if handled then response == Handled else response.InsufficientScope?)
  }

  /** Which requests of the principal, from `i` on, reached their handler. */
  function HandledAt(p: RateLimitPolicy, requests: seq<Request>, id: int, i: nat): set<int> {
    set k | i <= k < |requests| && Answered(p, requests, id, k, true)
  }

  /** And which were told that their scopes do not reach. */
  function ForbiddenAt(p: RateLimitPolicy, requests: seq<Request>, id: int, i: nat): set<int> {
    set k | i <= k < |requests| && Answered(p, requests, id, k, false)
  }

  /** Over a run: handled are exactly the requests whose token was granted and
      whose scopes reach, forbidden those whose scopes do not. */
  lemma HandledAndForbiddenExactly(p: RateLimitPolicy, requests: seq<Request>, id: int, i: nat, k: int)
    requires i <= k < |requests|
    ensures k in HandledAt(p, requests, id, i) <==> Granted(p, requests, id, k) && Reaches(requests[k])
    ensures k in ForbiddenAt(p, requests, id, i) <==> Granted(p, requests, id, k) && !Reaches(requests[k])
  {
    ResponsesAreExact(p, Calls(requests[..k]), requests[k]);
  }

  /** How many of them there are of both kinds. */
  function Through(p: RateLimitPolicy, requests: seq<Request>, id: int, i: nat): nat {
    |HandledAt(p, requests, id, i)| + |ForbiddenAt(p, requests, id, i)|
  }

  lemma AnsweredAsBefore(p: RateLimitPolicy, requests: seq<Request>, id: int, k: int, handled: bool)
    requires 0 <= k < |requests| - 1
    ensures Answered(p, requests[..|requests| - 1], id, k, handled) <==> Answered(p, requests, id, k, handled)
  {
    assert requests[..|requests| - 1][..k] == requests[..k];
  }

  lemma ThroughOneMore(p: RateLimitPolicy, requests: seq<Request>, id: int, i: nat)
    requires i < |requests|
    ensures var n := |requests| - 1;
      Through(p, requests, id, i) == Through(p, requests[..n], id, i) + (if Granted(p, requests, id, n) then 1 else 0)
  {
    hide Answered, Granted;
    var n := |requests| - 1;
    HandledAndForbiddenExactly(p, requests, id, i, n);
    forall k, handled | 0 <= k < n ensures Answered(p, requests[..n], id, k, handled) <==> Answered(p, requests, id, k, handled) {
      AnsweredAsBefore(p, requests, id, k, handled);
    }
    var handled, forbidden := HandledAt(p, requests, id, i), ForbiddenAt(p, requests, id, i);
    assert handled == HandledAt(p, requests[..n], id, i) + (if n in handled then {n} else {});
    assert forbidden == ForbiddenAt(p, requests[..n], id, i) + (if n in forbidden then {n} else {});
  }

  lemma {:induction false} CallsExtend(requests: seq<Request>, i: nat)
    requires i <= |requests|
    ensures |Calls(requests[..i])| <= |Calls(requests)|
  {
    if i == |requests| {
      assert requests[..i] == requests;
    } else {
      var n := |requests| - 1;
      CallsExtend(requests[..n], i);
      assert requests[..n][..i] == requests[..i];
    }
  }

  /** A refusal for want of scope is paid for like a handled request: the two
      together are exactly the admissions. */
  lemma {:induction false} EveryTokenIsAccountedFor(p: RateLimitPolicy, requests: seq<Request>, id: int, i: nat)
    requires i <= |requests|
    ensures |HandledAt(p, requests, id, i)| + |ForbiddenAt(p, requests, id, i)|
      == Admissions(p, Calls(requests), id, |Calls(requests[..i])|)
  {
    hide LastAnswer;
    if i == |requests| {
      assert requests[..i] == requests;
      assert HandledAt(p, requests, id, i) == {} && ForbiddenAt(p, requests, id, i) == {};
    } else {
      hide HandledAt, ForbiddenAt;
      var n := |requests| - 1;
      EveryTokenIsAccountedFor(p, requests[..n], id, i);
      ThroughOneMore(p, requests, id, i);
      CallsExtend(requests[..n], i);
      assert requests[..n][..i] == requests[..i];
      var before := Calls(requests[..n]);
      if TokenCall(requests[n]).Some? {
        assert Calls(requests)[..|before|] == before;
      } else {
        assert Calls(requests) == before;
      }
    }
  }

  predicate InOrder(requests: seq<Request>) {
    forall i, j :: 0 <= i <= j < |requests| ==> requests[i].now <= requests[j].now
  }

  ghost predicate Between(calls: seq<Call>, k: nat, from: Instant, to: Instant) {
    forall m :: k <= m < |calls| ==> from <= calls[m].now <= to
  }

  lemma {:induction false} CallsAreInOrder(requests: seq<Request>, i: nat)
    requires InOrder(requests) && i < |requests|
    ensures NonDecreasing(Calls(requests))
    ensures Between(Calls(requests), |Calls(requests[..i])|, requests[i].now, requests[|requests| - 1].now)
  {
    hide TokenCall, NonDecreasing, Between;
    var n := |requests| - 1;
    assert requests[..n][..i] == requests[..i] && requests[..n][..0] == requests[..0] == [];
    NoCallsYet(requests[i].now, requests[n].now);
    if n > 0 { CallsAreInOrder(requests[..n], 0); }
    if i < n { CallsAreInOrder(requests[..n], i); }
    TokenIsDated(requests[n]);
    CallsExtend(requests[..n], i);
    var calls := Calls(requests[..n]);
    var from := if n == 0 then requests[n].now else requests[0].now;
    BetweenWidens(calls, |Calls(requests[..i])|, requests[i].now, requests[if i < n then n - 1 else n].now, requests[n].now);
    if n > 0 { BetweenWidens(calls, 0, from, requests[n - 1].now, requests[n].now); }
    if TokenCall(requests[n]).Some? {
      PushKeepsOrder(calls, TokenCall(requests[n]).value, |Calls(requests[..i])|, from, requests[i].now);
    } else {
      assert Calls(requests) == calls + [] == calls;
    }
  }

  lemma NoCallsYet(from: Instant, to: Instant)
    ensures NonDecreasing([]) && Between([], 0, from, to)
  {}

  lemma BetweenWidens(calls: seq<Call>, k: nat, from: Instant, to: Instant, later: Instant)
    requires to <= later && (k >= |calls| || Between(calls, k, from, to))
    ensures Between(calls, k, from, later)
  {}

  lemma PushKeepsOrder(calls: seq<Call>, c: Call, k: nat, first: Instant, from: Instant)
    requires NonDecreasing(calls) && Between(calls, 0, first, c.now) && Between(calls, k, from, c.now) && from <= c.now
    ensures NonDecreasing(calls + [c]) && Between(calls + [c], k, from, c.now)
  {}

  lemma TokenIsDated(r: Request)
    ensures TokenCall(r).Some? ==> TokenCall(r).value.now == r.now
  {}

  predicate FixedTier(p: RateLimitPolicy, requests: seq<Request>, id: int, q: Quota) {
    forall i :: 0 <= i < |requests| && requests[i].identity.Ok? && requests[i].identity.value.id == id ==>
      QuotaFor(p, requests[i].identity.value.tier) == q
  }

  lemma {:induction false} TierCarriesOver(p: RateLimitPolicy, requests: seq<Request>, id: int, q: Quota)
    requires FixedTier(p, requests, id, q)
    ensures OneQuota(p, Calls(requests), id, q)
  {
    if requests != [] { TierCarriesOver(p, requests[..|requests| - 1], id, q); }
  }

  /** In any window of `d` milliseconds a principal gets past the limiter at
      most its capacity plus what the window refills, handled and forbidden
      requests together, whatever mixture of public, unauthenticated and other
      principals' requests surrounds them. */
  lemma HandlersStayWithinTheAllowance(p: RateLimitPolicy, requests: seq<Request>, id: int, q: Quota, i: nat, d: nat)
    requires i < |requests| && InOrder(requests) && FixedTier(p, requests, id, q)
    requires requests[|requests| - 1].now - requests[0].now < 0x1_0000_0000_0000_0000 * 1_000_000
    requires requests[|requests| - 1].now - requests[i].now <= d * 1_000_000
    ensures 1_000 * (|HandledAt(p, requests, id, i)| + |ForbiddenAt(p, requests, id, i)|) <= 1_000 * q.capacity + q.refillPerSecond * (d + 1)
  {
    hide Admissions, HandledAt, ForbiddenAt, Calls, QuotaFor;
    var calls := Calls(requests);
    var k := |Calls(requests[..i])|;
    EveryTokenIsAccountedFor(p, requests, id, i);
    CallsExtend(requests, i);
    CallsAreInOrder(requests, i);
    CallsAreInOrder(requests, 0);
    assert requests[..0] == [] && |Calls(requests[..0])| == 0 by { NoRequestsNoCalls(); }
    TierCarriesOver(p, requests, id, q);
    if k < |calls| {
      WindowBound(p, calls, id, q, k, d);
    } else {
      NothingAfterTheEnd(p, calls, id, k);
    }
  }

  lemma NoRequestsNoCalls()
    ensures Calls([]) == []
  {}

  lemma NothingAfterTheEnd(p: RateLimitPolicy, calls: seq<Call>, id: int, k: nat)
    requires |calls| <= k
    ensures Admissions(p, calls, id, k) == 0
  {}
}
