/** What every interleaving of the perimeter keeps, and how a shutdown ends. */
module PerimeterProofs {
  import opened Perimeter

  // ------------------------------------------------------------- counting

  /** The four things summed over all requests. */
  datatype Resource = Permits | Guards | BodyBytes | DrainWork

  function Held(r: Resource, x: Stage): nat {
    match r
    case Permits => if x.Arrived? || x.Ended? then 0 else 1
    case Guards => if Cancellable(x) || x.Guarded? then 1 else 0
    case BodyBytes => if x.Reading? then x.buffered else if x.Handling? then x.body else 0
    case DrainWork => if Cancellable(x) then 2 else if x.Guarded? then 1 else 0
  }

  function Sum(r: Resource, xs: seq<Stage>): nat {
    if xs == [] then 0 else Sum(r, xs[..|xs| - 1]) + Held(r, xs[|xs| - 1])
  }

  lemma {:induction false} SumOfUpdate(r: Resource, xs: seq<Stage>, id: nat, x: Stage)
    requires id < |xs|
    ensures Sum(r, xs[id := x]) == Sum(r, xs) - Held(r, xs[id]) + Held(r, x)
  {
    var n := |xs| - 1;
    if id < n {
      SumOfUpdate(r, xs[..n], id, x);
      assert xs[id := x][..n] == xs[..n][id := x];
    } else {
      assert xs[id := x][..n] == xs[..n];
    }
  }

  lemma SumOfAppend(r: Resource, xs: seq<Stage>, x: Stage)
    ensures Sum(r, xs + [x]) == Sum(r, xs) + Held(r, x)
  {
    assert (xs + [x])[..|xs|] == xs;
  }

  lemma {:induction false} SumIsAtLeast(r: Resource, xs: seq<Stage>, id: nat)
    requires id < |xs|
    ensures Held(r, xs[id]) <= Sum(r, xs)
  {
    if id < |xs| - 1 { SumIsAtLeast(r, xs[..|xs| - 1], id); }
  }

  // ------------------------------------------------------------ invariant

  ghost predicate Invariant(l: Limits, s: State) {
    && s.free + Sum(Permits, s.requests) == l.maxConcurrent
    && s.inFlight == Sum(Guards, s.requests)
    && s.free >= 0
    && (forall i :: 0 <= i < |s.requests| ==> Held(BodyBytes, s.requests[i]) <= l.bodyBytes)
    && (s.phase == Cancelled <==> s.serve == Flushing || s.serve == Stopped(true))
    && (s.serve.DrainWindow? ==> s.phase == Draining)
    && (forall i :: 0 <= i < |s.requests| ==> (WasCancelled(s.requests[i]) ==> s.phase == Cancelled))
  }

  predicate WasCancelled(x: Stage) {
    (x.Guarded? || x.Releasing? || x.Ended?) && x.end == Answered(ShutdownCancelled)
  }

  /** What an event does to its own request and to the counters. */
  lemma MoveIsBalanced(l: Limits, x: Stage, free: int, inFlight: int, phase: Phase, event: Event)
    requires free >= 0 && Held(BodyBytes, x) <= l.bodyBytes
    ensures var m := Move(l, x, free, inFlight, phase, event);
      && 0 <= m.free && m.free + Held(Permits, m.stage) == free + Held(Permits, x)
      && m.inFlight - Held(Guards, m.stage) == inFlight - Held(Guards, x)
      && Held(BodyBytes, m.stage) <= l.bodyBytes
      && (WasCancelled(m.stage) ==> WasCancelled(x) || phase == Cancelled)
      && (!event.Enter? ==> Held(DrainWork, m.stage) <= Held(DrainWork, x))
  {}

  lemma MoveKeepsInvariant(l: Limits, s: State, id: nat, event: Event)
    requires Invariant(l, s) && id < |s.requests|
    ensures Invariant(l, Next(l, s, Request(id, event)))
  {
    hide Move, Held, Sum, WasCancelled;
    MoveIsBalanced(l, s.requests[id], s.free, s.inFlight, s.phase, event);
    var m := Move(l, s.requests[id], s.free, s.inFlight, s.phase, event);
    SumOfUpdate(Permits, s.requests, id, m.stage);
    SumOfUpdate(Guards, s.requests, id, m.stage);
  }

  lemma StepKeepsInvariant(l: Limits, s: State, step: Step)
    requires Invariant(l, s)
    ensures Invariant(l, Next(l, s, step))
  {
    hide Move, Sum;
    match step
    case Arrive(options, declared) =>
      SumOfAppend(Permits, s.requests, Arrived(options, declared));
      SumOfAppend(Guards, s.requests, Arrived(options, declared));
    case Request(id, event) =>
      if id < |s.requests| { MoveKeepsInvariant(l, s, id, event); }
    case Signal =>
    case DrainObserved =>
    case GraceExpires =>
    case ServerStops =>
  }

  lemma {:induction false} InvariantHolds(l: Limits, steps: seq<Step>)
    ensures Invariant(l, After(l, steps))
  {
    if steps != [] {
      var n := |steps| - 1;
      InvariantHolds(l, steps[..n]);
      StepKeepsInvariant(l, After(l, steps[..n]), steps[n]);
    }
  }

  /** A guard is only held under a permit, and a body only under a guard. */
  lemma GuardNeedsPermit(x: Stage, bytes: nat)
    requires Held(BodyBytes, x) <= bytes
    ensures 0 <= Held(Guards, x) <= Held(Permits, x) && Held(BodyBytes, x) <= bytes * Held(Guards, x)
  {}

  lemma ScaledSum(k: nat, a: nat, b: nat)
    ensures k * (a + b) == k * a + k * b
  {}

  lemma {:induction false} GuardsNeedPermits(xs: seq<Stage>, bytes: nat)
    requires forall i :: 0 <= i < |xs| ==> Held(BodyBytes, xs[i]) <= bytes
    ensures Sum(Guards, xs) <= Sum(Permits, xs)
    ensures Sum(BodyBytes, xs) <= bytes * Sum(Guards, xs)
  {
    hide Held;
    if xs != [] {
      var n := |xs| - 1;
      GuardsNeedPermits(xs[..n], bytes);
      GuardNeedsPermit(xs[n], bytes);
      ScaledSum(bytes, Sum(Guards, xs[..n]), Held(Guards, xs[n]));
    }
  }

  /** Over every interleaving: permits are conserved, the counter is exact and
      never underflows, and the bodies held never exceed the configured memory. */
  lemma PerimeterIsBounded(l: Limits, steps: seq<Step>)
    ensures var s := After(l, steps);
      && 0 <= s.free && s.free + Sum(Permits, s.requests) == l.maxConcurrent
      && 0 <= s.inFlight == Sum(Guards, s.requests) <= l.maxConcurrent
      && Sum(BodyBytes, s.requests) <= l.maxConcurrent * l.bodyBytes
  {
    InvariantHolds(l, steps);
    var s := After(l, steps);
    GuardsNeedPermits(s.requests, l.bodyBytes);
    MulKeepsOrder(l.bodyBytes, Sum(Guards, s.requests), l.maxConcurrent);
  }

  /** So for every server, whatever calls its layers have made. */
  lemma ServerIsBounded(server: Server)
    requires server.Valid()
    ensures 0 <= server.permits.free && server.permits.free + Sum(Permits, server.requests) == server.limits.maxConcurrent
    ensures 0 <= server.shutdown.inFlight == Sum(Guards, server.requests) <= server.limits.maxConcurrent
    ensures Sum(BodyBytes, server.requests) <= server.limits.maxConcurrent * server.limits.bodyBytes
  {
    PerimeterIsBounded(server.limits, server.history);
  }

  lemma MulKeepsOrder(k: nat, a: nat, b: nat)
    requires a <= b
    ensures k * a <= b * k
  {}

  /** A request is shed exactly when every permit is held by another request. */
  lemma ShedExactlyWhenSaturated(l: Limits, steps: seq<Step>, id: nat)
    requires id < |After(l, steps).requests| && After(l, steps).requests[id].Arrived?
    requires !After(l, steps).requests[id].options
    ensures var s := After(l, steps);
      Next(l, s, Request(id, Gate)).requests[id] == Ended(Answered(Overloaded)) <==> Sum(Permits, s.requests) == l.maxConcurrent
  {
    InvariantHolds(l, steps);
  }

  /** A request fed these chunks, one step each. */
  function Fed(l: Limits, chunks: seq<BodyChunk>): Stage {
    if chunks == [] then Reading(0)
    else
      var last := chunks[|chunks| - 1];
      var event := if last.Data? then Chunk(last.length) else BrokenChunk;
      Move(l, Fed(l, chunks[..|chunks| - 1]), 0, 0, Serving, event).stage
  }

  /** The steps of the transition system accept the bodies the loop accepts. */
  lemma {:induction false} StepsReadWhatTheLoopReads(l: Limits, chunks: seq<BodyChunk>)
    ensures Fed(l, chunks).Reading? <==> AllData(chunks) && Total(chunks) <= l.bodyBytes
    ensures Fed(l, chunks).Reading? ==> Fed(l, chunks).buffered == Total(chunks)
    ensures Fed(l, chunks).Reading? || Fed(l, chunks).Guarded?
  {
    if chunks != [] {
      var n := |chunks| - 1;
      StepsReadWhatTheLoopReads(l, chunks[..n]);
      assert chunks == chunks[..n] + [chunks[n]];
    }
  }

  // ------------------------------------------------------------- shutdown

  /** The phase never moves back, so a waiter that subscribes late still sees it. */
  lemma {:induction false} PhaseIsLatched(l: Limits, steps: seq<Step>, i: nat)
    requires i <= |steps|
    ensures Rank(After(l, steps[..i]).phase) <= Rank(After(l, steps).phase)
  {
    if i == |steps| {
      assert steps[..i] == steps;
    } else {
      var n := |steps| - 1;
      PhaseIsLatched(l, steps[..n], i);
      assert steps[..n][..i] == steps[..i];
      StepKeepsPhase(l, After(l, steps[..n]), steps[n]);
    }
  }

  lemma StepKeepsPhase(l: Limits, s: State, step: Step)
    ensures Rank(s.phase) <= Rank(Next(l, s, step).phase)
  {}

  /** `serve` cancels only after the signal, its own observation of it and the
      end of the grace window, in that order. */
  lemma {:induction false} CancelFollowsSignalAndGrace(l: Limits, steps: seq<Step>) returns (i: nat, j: nat, k: nat)
    requires After(l, steps).phase == Cancelled
    ensures i < j < k < |steps| && steps[i] == Signal && steps[j] == DrainObserved && steps[k] == GraceExpires
  {
    hide Next;
    var n := |steps| - 1;
    var before := After(l, steps[..n]);
    if before.phase == Cancelled {
      i, j, k := CancelFollowsSignalAndGrace(l, steps[..n]);
    } else {
      OnlyGraceCancels(l, before, steps[n]);
      i, j := DrainWindowFollowsSignal(l, steps[..n]);
      k := n;
    }
  }

  lemma OnlyGraceCancels(l: Limits, s: State, step: Step)
    requires s.phase != Cancelled && Next(l, s, step).phase == Cancelled
    ensures step == GraceExpires && s.serve.DrainWindow?
  {}

  lemma {:induction false} DrainWindowFollowsSignal(l: Limits, steps: seq<Step>) returns (i: nat, j: nat)
    requires After(l, steps).serve.DrainWindow?
    ensures i < j < |steps| && steps[i] == Signal && steps[j] == DrainObserved
  {
    var n := |steps| - 1;
    var before := After(l, steps[..n]);
    if before.serve.DrainWindow? {
      i, j := DrainWindowFollowsSignal(l, steps[..n]);
    } else {
      OnlyObservationOpensWindow(l, before, steps[n]);
      j := n;
      i := DrainingFollowsSignal(l, steps[..n]);
    }
  }

  lemma OnlyObservationOpensWindow(l: Limits, s: State, step: Step)
    requires !s.serve.DrainWindow? && Next(l, s, step).serve.DrainWindow?
    ensures step == DrainObserved && s.serve.AwaitingSignal? && s.phase != Serving
  {}

  lemma {:induction false} DrainingFollowsSignal(l: Limits, steps: seq<Step>) returns (i: nat)
    requires After(l, steps).phase != Serving && After(l, steps).serve.AwaitingSignal?
    ensures i < |steps| && steps[i] == Signal
  {
    var n := |steps| - 1;
    var before := After(l, steps[..n]);
    OnlySignalLeavesServing(l, before, steps[n]);
    if before.phase == Serving { i := n; } else { i := DrainingFollowsSignal(l, steps[..n]); }
  }

  lemma OnlySignalLeavesServing(l: Limits, s: State, step: Step)
    requires Next(l, s, step).serve.AwaitingSignal?
    ensures s.serve.AwaitingSignal?
    ensures s.phase == Serving && Next(l, s, step).phase != Serving ==> step == Signal
  {}

  predicate IsEntry(step: Step) { step.Request? && step.event.Enter? }

  /** Nothing but a new entry adds to the work a drain has left. */
  lemma DrainWorkNeverRises(l: Limits, steps: seq<Step>, step: Step)
    requires !IsEntry(step)
    ensures var s := After(l, steps);
      Sum(DrainWork, Next(l, s, step).requests) <= Sum(DrainWork, s.requests)
  {
    hide Move;
    var s := After(l, steps);
    InvariantHolds(l, steps);
    match step
    case Arrive(options, declared) => SumOfAppend(DrainWork, s.requests, Arrived(options, declared));
    case Request(id, event) =>
      if id < |s.requests| {
        MoveIsBalanced(l, s.requests[id], s.free, s.inFlight, s.phase, event);
        SumOfUpdate(DrainWork, s.requests, id, Move(l, s.requests[id], s.free, s.inFlight, s.phase, event).stage);
      }
    case Signal =>
    case DrainObserved =>
    case GraceExpires =>
    case ServerStops =>
  }

  function Continue(l: Limits, s: State, steps: seq<Step>): State
    decreases |steps|
  {
    if steps == [] then s else Continue(l, Next(l, s, steps[0]), steps[1..])
  }

  predicate IsUnwinding(step: Step) { step.Request? && (step.event.CancelObserved? || step.event.DropGuard?) }

  /** Once cancelled, while anything is tracked some request can take a step
      that lowers the measure by one. */
  lemma CancelledRequestsCanMove(l: Limits, s: State) returns (step: Step)
    requires Invariant(l, s) && s.phase == Cancelled && s.inFlight > 0
    ensures IsUnwinding(step)
    ensures Next(l, s, step).phase == Cancelled
    ensures Sum(DrainWork, Next(l, s, step).requests) == Sum(DrainWork, s.requests) - 1
  {
    var id := SomeHolder(s.requests);
    step := Request(id, if Cancellable(s.requests[id]) then CancelObserved else DropGuard);
    SumOfUpdate(DrainWork, s.requests, id, Next(l, s, step).requests[id]);
  }

  lemma {:induction false} SomeHolder(xs: seq<Stage>) returns (id: nat)
    requires Sum(Guards, xs) > 0
    ensures id < |xs| && Held(Guards, xs[id]) == 1
  {
    var n := |xs| - 1;
    if Held(Guards, xs[n]) == 1 { id := n; } else { id := SomeHolder(xs[..n]); }
  }

  lemma {:induction false} WorkMeansGuards(xs: seq<Stage>)
    ensures Sum(Guards, xs) <= Sum(DrainWork, xs) <= 2 * Sum(Guards, xs)
  {
    if xs != [] { WorkMeansGuards(xs[..|xs| - 1]); }
  }

  /** What is left of one request, tracked or still to come. */
  function WorkAt(s: State, id: nat): nat {
    if id < |s.requests| then Held(DrainWork, s.requests[id]) else 0
  }

  lemma StepAtOneRequest(l: Limits, s: State, step: Step, id: nat)
    requires s.phase == Cancelled && !IsEntry(step)
    ensures var after := Next(l, s, step);
      && after.phase == Cancelled
      && WorkAt(after, id) <= WorkAt(s, id)
      && (step == Request(id, CancelObserved) ==> WorkAt(after, id) <= 1)
      && (step == Request(id, DropGuard) && WorkAt(s, id) <= 1 ==> WorkAt(after, id) == 0)
  {}

  predicate NoEntries(steps: seq<Step>) { forall i :: 0 <= i < |steps| ==> !IsEntry(steps[i]) }

  /** The runtime has let this request see the cancellation, and later unwind. */
  predicate Polled(steps: seq<Step>, id: nat) {
    exists i, j :: 0 <= i < j < |steps| && steps[i] == Request(id, CancelObserved) && steps[j] == Request(id, DropGuard)
  }

  lemma {:induction false} NothingComesBack(l: Limits, s: State, steps: seq<Step>, id: nat)
    requires s.phase == Cancelled && NoEntries(steps) && WorkAt(s, id) == 0
    ensures WorkAt(Continue(l, s, steps), id) == 0
    decreases |steps|
  {
    hide Next, WorkAt;
    if steps != [] {
      StepAtOneRequest(l, s, steps[0], id);
      NothingComesBack(l, Next(l, s, steps[0]), steps[1..], id);
    }
  }

  lemma {:induction false} GuardIsDropped(l: Limits, s: State, steps: seq<Step>, id: nat, j: nat)
    requires s.phase == Cancelled && NoEntries(steps) && WorkAt(s, id) <= 1
    requires j < |steps| && steps[j] == Request(id, DropGuard)
    ensures WorkAt(Continue(l, s, steps), id) == 0
    decreases |steps|
  {
    hide Next, WorkAt;
    StepAtOneRequest(l, s, steps[0], id);
    if j == 0 {
      NothingComesBack(l, Next(l, s, steps[0]), steps[1..], id);
    } else {
      GuardIsDropped(l, Next(l, s, steps[0]), steps[1..], id, j - 1);
    }
  }

  lemma {:induction false} PolledMeansDone(l: Limits, s: State, steps: seq<Step>, id: nat, i: nat, j: nat)
    requires s.phase == Cancelled && NoEntries(steps)
    requires i < j < |steps| && steps[i] == Request(id, CancelObserved) && steps[j] == Request(id, DropGuard)
    ensures WorkAt(Continue(l, s, steps), id) == 0
    decreases |steps|
  {
    hide Next, WorkAt;
    StepAtOneRequest(l, s, steps[0], id);
    if i == 0 {
      GuardIsDropped(l, Next(l, s, steps[0]), steps[1..], id, j - 1);
    } else {
      PolledMeansDone(l, Next(l, s, steps[0]), steps[1..], id, i - 1, j - 1);
    }
  }

  lemma {:induction false} ContinueKeepsInvariant(l: Limits, s: State, steps: seq<Step>)
    requires Invariant(l, s)
    ensures Invariant(l, Continue(l, s, steps))
    decreases |steps|
  {
    if steps != [] {
      StepKeepsInvariant(l, s, steps[0]);
      ContinueKeepsInvariant(l, Next(l, s, steps[0]), steps[1..]);
    }
  }

  lemma {:induction false} NoWorkNoGuards(xs: seq<Stage>)
    requires forall i :: 0 <= i < |xs| ==> Held(DrainWork, xs[i]) == 0
    ensures Sum(Guards, xs) == 0
  {
    if xs != [] { NoWorkNoGuards(xs[..|xs| - 1]); }
  }

  /** After cancellation every interleaving in which no request enters and each
      tracked one is polled ends with nothing in flight: whatever arrivals,
      chunks, answers, deadlines and departures are mixed in, in any order. */
  lemma EveryPolledScheduleDrains(l: Limits, s: State, steps: seq<Step>)
    requires Invariant(l, s) && s.phase == Cancelled && NoEntries(steps)
    requires forall id: nat :: id < |s.requests| && Held(Guards, s.requests[id]) > 0 ==> Polled(steps, id)
    ensures Continue(l, s, steps).inFlight == 0
  {
    hide Next, Continue, IsEntry;
    var end := Continue(l, s, steps);
    ContinueKeepsInvariant(l, s, steps);
    forall id: nat | id < |end.requests| ensures Held(DrainWork, end.requests[id]) == 0 {
      if id < |s.requests| && Held(Guards, s.requests[id]) > 0 {
        var i, j :| 0 <= i < j < |steps| && steps[i] == Request(id, CancelObserved) && steps[j] == Request(id, DropGuard);
        PolledMeansDone(l, s, steps, id, i, j);
      } else {
        NothingComesBack(l, s, steps, id);
      }
      assert WorkAt(end, id) == 0;
    }
    NoWorkNoGuards(end.requests);
  }

  /** Such a schedule always exists, and need be no longer than two steps for
      each request in flight. */
  lemma {:induction false} CancellationDrains(l: Limits, s: State) returns (steps: seq<Step>)
    requires Invariant(l, s) && s.phase == Cancelled
    ensures forall i :: 0 <= i < |steps| ==> IsUnwinding(steps[i])
    ensures |steps| <= 2 * s.inFlight
    ensures |steps| <= Sum(DrainWork, s.requests)
    ensures Continue(l, s, steps).inFlight == 0
    decreases Sum(DrainWork, s.requests)
  {
    WorkMeansGuards(s.requests);
    if s.inFlight == 0 {
      steps := [];
    } else {
      var step := CancelledRequestsCanMove(l, s);
      StepKeepsInvariant(l, s, step);
      var rest := CancellationDrains(l, Next(l, s, step));
      steps := [step] + rest;
      assert steps[1..] == rest;
    }
  }
}
