/**
 * How requests end, said of whole interleavings: every end names its cause, and
 * a request that nothing interferes with is handled.
 */
module PerimeterOutcomes {
  import opened Wrappers
  import opened Perimeter
  import opened PerimeterProofs

  // -------------------------------------------------- a request in a run

  /** The arrivals of a run; request `id` is the one of arrival `id`. */
  function Arrivals(steps: seq<Step>): (arrivals: seq<Step>)
    ensures forall i :: 0 <= i < |arrivals| ==> arrivals[i].Arrive?
  {
    if steps == [] then []
    else
      var n := |steps| - 1;
      Arrivals(steps[..n]) + (if steps[n].Arrive? then [steps[n]] else [])
  }

  /** Where a request stands after a run, once it has arrived. */
  function StageAt(l: Limits, steps: seq<Step>, id: nat): Option<Stage> {
    var requests := After(l, steps).requests;
    if id < |requests| then Some(requests[id]) else None
  }

  predicate HasEnd(x: Stage) { x.Guarded? || x.Releasing? || x.Ended? }

  predicate IsOpen(x: Option<Stage>) { x.Some? && !HasEnd(x.value) }

  /** The bytes of body sent to a request while it was reading. */
  function Received(l: Limits, steps: seq<Step>, id: nat): nat {
    if steps == [] then 0
    else
      var n := |steps| - 1;
      var before := StageAt(l, steps[..n], id);
      Received(l, steps[..n], id)
        + (if before.Some? && before.value.Reading? && steps[n].Request? && steps[n].id == id && steps[n].event.Chunk?
           then steps[n].event.length else 0)
  }

  lemma {:induction false} RequestsAreArrivals(l: Limits, steps: seq<Step>)
    ensures |After(l, steps).requests| == |Arrivals(steps)|
  {
    if steps != [] { RequestsAreArrivals(l, steps[..|steps| - 1]); }
  }

  predicate TooLong(length: Option<nat>, limit: nat) { length.Some? && length.value > limit }

  /** What a stage says of its request: its arrival, and what it was sent. */
  predicate Matches(l: Limits, x: Stage, arrival: Step, received: nat)
    requires arrival.Arrive?
  {
    match x
    case Arrived(options, declared) => options == arrival.options && declared == arrival.declared && received == 0
    case Permitted(declared) => !arrival.options && declared == arrival.declared && received == 0
    case Tracked(declared) => !arrival.options && declared == arrival.declared && received == 0
    case Reading(buffered) => !arrival.options && !TooLong(arrival.declared, l.bodyBytes) && buffered == received <= l.bodyBytes
    case Handling(body) => !arrival.options && !TooLong(arrival.declared, l.bodyBytes) && body == received <= l.bodyBytes
    case _ => true
  }

  lemma MoveMatches(l: Limits, x: Stage, free: int, inFlight: int, phase: Phase, event: Event, arrival: Step, received: nat)
    requires arrival.Arrive? && Matches(l, x, arrival, received)
    ensures Matches(l, Move(l, x, free, inFlight, phase, event).stage, arrival,
      received + (if x.Reading? && event.Chunk? then event.length else 0))
  {}

  /** The buffer of a request is exactly what it was sent, and within the limit. */
  lemma {:induction false} StagesMatch(l: Limits, steps: seq<Step>, id: nat)
    requires id < |After(l, steps).requests|
    ensures |After(l, steps).requests| == |Arrivals(steps)|
    ensures Matches(l, After(l, steps).requests[id], Arrivals(steps)[id], Received(l, steps, id))
  {
    hide Move, Matches;
    RequestsAreArrivals(l, steps);
    var n := |steps| - 1;
    var before := After(l, steps[..n]);
    RequestsAreArrivals(l, steps[..n]);
    if id < |before.requests| {
      StagesMatch(l, steps[..n], id);
      if steps[n].Request? && steps[n].id == id {
        MoveMatches(l, before.requests[id], before.free, before.inFlight, before.phase, steps[n].event, Arrivals(steps)[id],
          Received(l, steps[..n], id));
      }
    } else {
      NothingSentYet(l, steps[..n], id);
      JustArrived(l, steps[n]);
    }
  }

  lemma JustArrived(l: Limits, arrival: Step)
    ensures arrival.Arrive? ==> Matches(l, Arrived(arrival.options, arrival.declared), arrival, 0)
  {}

  lemma {:induction false} NothingSentYet(l: Limits, steps: seq<Step>, id: nat)
    requires id >= |After(l, steps).requests|
    ensures Received(l, steps, id) == 0
  {
    if steps != [] {
      RequestsAreArrivals(l, steps);
      RequestsAreArrivals(l, steps[..|steps| - 1]);
      NothingSentYet(l, steps[..|steps| - 1], id);
    }
  }

  // ------------------------------------------------------- ends and causes

  /** The last step of this run is the one that ended request `id`. */
  predicate EndsWith(l: Limits, steps: seq<Step>, id: nat) {
    && steps != []
    && IsOpen(StageAt(l, steps[..|steps| - 1], id))
    && StageAt(l, steps, id).Some? && HasEnd(StageAt(l, steps, id).value)
  }

  function EndOf(x: Stage): End
    requires HasEnd(x)
  {
    x.end
  }

  /** Which event gives which end: `saturated` is when no permit is free. */
  predicate IsCauseOf(l: Limits, event: Event, end: End, arrival: Step, received: nat, phase: Phase, saturated: bool)
    requires arrival.Arrive?
  {
    && (end == Answered(Handled) <==> event == HandlerAnswers)
    && (end == Answered(Handled) ==> received <= l.bodyBytes && !TooLong(arrival.declared, l.bodyBytes) && !arrival.options)
    && (end == Answered(DeadlineExceeded) <==> event == DeadlinePasses)
    && (end == Answered(MalformedInput) <==> event == BrokenChunk)
    && (end == Answered(ShutdownCancelled) <==> event == CancelObserved)
    && (end == Answered(ShutdownCancelled) ==> phase == Cancelled)
    && (end == Dropped <==> event == ClientLeaves)
    && (end == Answered(PreflightAnswered) <==> event == Gate && arrival.options && !TooLong(arrival.declared, l.bodyBytes))
    && (end == Answered(Overloaded) <==> event == Gate && !arrival.options)
    && (end == Answered(Overloaded) ==> saturated)
    && (end == Answered(PayloadTooLarge) <==>
          || (((event == Gate && arrival.options) || event == Event.BeginBody) && TooLong(arrival.declared, l.bodyBytes))
          || (event.Chunk? && received + event.length > l.bodyBytes))
  }

  lemma MoveNamesItsCause(l: Limits, x: Stage, free: int, inFlight: int, phase: Phase, event: Event, arrival: Step, received: nat)
    requires arrival.Arrive? && Matches(l, x, arrival, received) && !HasEnd(x)
    requires HasEnd(Move(l, x, free, inFlight, phase, event).stage)
    ensures IsCauseOf(l, event, EndOf(Move(l, x, free, inFlight, phase, event).stage), arrival, received, phase, free <= 0)
  {}

  /** Each end has its own cause, and each cause its own end. */
  lemma EndNamesItsCause(l: Limits, steps: seq<Step>, id: nat)
    requires EndsWith(l, steps, id)
    ensures steps[|steps| - 1].Request? && steps[|steps| - 1].id == id && id < |Arrivals(steps)|
    ensures var before := After(l, steps[..|steps| - 1]);
      IsCauseOf(l, steps[|steps| - 1].event, EndOf(StageAt(l, steps, id).value), Arrivals(steps)[id],
        Received(l, steps[..|steps| - 1], id), before.phase, Sum(Permits, before.requests) == l.maxConcurrent)
  {
    hide Move, Matches, Sum, Received, IsCauseOf, HasEnd;
    var n := |steps| - 1;
    var before := After(l, steps[..n]);
    InvariantHolds(l, steps[..n]);
    RequestsAreArrivals(l, steps);
    RequestsAreArrivals(l, steps[..n]);
    StagesMatch(l, steps[..n], id);
    AfterLast(l, steps);
    hide After;
    var step := steps[n];
    assert step.Request? && step.id == id by { OnlyItsOwnStepMoves(l, before, step, id); }
    assert Arrivals(steps)[id] == Arrivals(steps[..n])[id];
    MoveNamesItsCause(l, before.requests[id], before.free, before.inFlight, before.phase, step.event, Arrivals(steps)[id],
      Received(l, steps[..n], id));
    assert before.free <= 0 <==> Sum(Permits, before.requests) == l.maxConcurrent;
  }

  lemma OnlyItsOwnStepMoves(l: Limits, s: State, step: Step, id: nat)
    requires id < |s.requests|
    ensures id < |Next(l, s, step).requests|
    ensures Next(l, s, step).requests[id] != s.requests[id] ==> step.Request? && step.id == id
  {}

  lemma AfterLast(l: Limits, steps: seq<Step>)
    requires steps != []
    ensures After(l, steps) == Next(l, After(l, steps[..|steps| - 1]), steps[|steps| - 1])
  {}

  /** Once ended, a request keeps its end. */
  lemma {:induction false} EndsAreForGood(l: Limits, steps: seq<Step>, i: nat, id: nat)
    requires i <= |steps|
    requires StageAt(l, steps[..i], id).Some? && HasEnd(StageAt(l, steps[..i], id).value)
    ensures StageAt(l, steps, id).Some? && HasEnd(StageAt(l, steps, id).value)
    ensures EndOf(StageAt(l, steps, id).value) == EndOf(StageAt(l, steps[..i], id).value)
  {
    if i == |steps| {
      assert steps[..i] == steps;
    } else {
      assert steps[..|steps| - 1][..i] == steps[..i];
      EndsAreForGood(l, steps[..|steps| - 1], i, id);
    }
  }

  /** Nothing that should end a request fails to. */
  lemma CausesTakeEffect(l: Limits, steps: seq<Step>, id: nat, event: Event)
    requires IsOpen(StageAt(l, steps, id))
    ensures id < |After(l, steps).requests| == |Arrivals(steps)|
    ensures var s, more := After(l, steps), steps + [Request(id, event)];
      var x, arrival, received := s.requests[id], Arrivals(steps)[id], Received(l, steps, id);
      var inside := x.Tracked? || x.Reading? || x.Handling?;
      (EndsWith(l, more, id) <==>
            || event == ClientLeaves
            || (inside && event == DeadlinePasses)
            || (inside && event == CancelObserved && s.phase == Cancelled)
            || (x.Handling? && event == HandlerAnswers)
            || (x.Reading? && event == BrokenChunk)
            || (x.Reading? && event.Chunk? && received + event.length > l.bodyBytes)
            || (x.Tracked? && event == Event.BeginBody && TooLong(arrival.declared, l.bodyBytes))
            || (x.Arrived? && event == Gate && (arrival.options || Sum(Permits, s.requests) == l.maxConcurrent)))
  {
    InvariantHolds(l, steps);
    StagesMatch(l, steps, id);
    AfterOneMore(l, steps, Request(id, event));
    hide After;
    assert (steps + [Request(id, event)])[..|steps|] == steps;
  }

  // --------------------------------------------------- an undisturbed request

  function ChunkSteps(id: nat, lengths: seq<nat>): seq<Step> {
    seq(|lengths|, i requires 0 <= i < |lengths| => Request(id, Chunk(lengths[i])))
  }

  function SumOf(lengths: seq<nat>): nat {
    if lengths == [] then 0 else SumOf(lengths[..|lengths| - 1]) + lengths[|lengths| - 1]
  }

  /** A request let through: its body in chunks, and the handler's answer. */
  function Undisturbed(id: nat, lengths: seq<nat>): seq<Step> {
    [Request(id, Gate), Request(id, Enter), Request(id, Event.BeginBody)]
    + ChunkSteps(id, lengths)
    + [Request(id, EndOfBody), Request(id, HandlerAnswers), Request(id, DropGuard), Request(id, DropPermit)]
  }

  lemma {:induction false} ReadsEveryChunk(l: Limits, s: State, id: nat, lengths: seq<nat>)
    requires id < |s.requests| && s.requests[id] == Reading(0) && SumOf(lengths) <= l.bodyBytes
    ensures Continue(l, s, ChunkSteps(id, lengths)) == s.(requests := s.requests[id := Reading(SumOf(lengths))])
  {
    if lengths == [] {
      assert ChunkSteps(id, lengths) == [];
      assert s.requests[id := Reading(0)] == s.requests;
    } else {
      var n := |lengths| - 1;
      ReadsEveryChunk(l, s, id, lengths[..n]);
      assert ChunkSteps(id, lengths) == ChunkSteps(id, lengths[..n]) + [Request(id, Chunk(lengths[n]))];
      ContinueAppend(l, s, ChunkSteps(id, lengths[..n]), [Request(id, Chunk(lengths[n]))]);
      ContinueOne(l, Continue(l, s, ChunkSteps(id, lengths[..n])), Request(id, Chunk(lengths[n])));
    }
  }

  lemma {:induction false} ContinueAppend(l: Limits, s: State, a: seq<Step>, b: seq<Step>)
    ensures Continue(l, s, a + b) == Continue(l, Continue(l, s, a), b)
    decreases |a|
  {
    if a == [] {
      assert a + b == b;
    } else {
      assert (a + b)[0] == a[0] && (a + b)[1..] == a[1..] + b;
      ContinueAppend(l, Next(l, s, a[0]), a[1..], b);
    }
  }

  lemma ContinueOne(l: Limits, s: State, step: Step)
    ensures Continue(l, s, [step]) == Next(l, s, step)
  {}

  /** With a permit free and a body within the limit, declared or not, a request
      that nothing else happens to is handled, and gives back all it took. */
  lemma UndisturbedRequestsAreHandled(l: Limits, steps: seq<Step>, id: nat, lengths: seq<nat>)
    requires id < |After(l, steps).requests| && After(l, steps).requests[id].Arrived?
    requires id < |Arrivals(steps)| && !Arrivals(steps)[id].options && !TooLong(Arrivals(steps)[id].declared, l.bodyBytes)
    requires Sum(Permits, After(l, steps).requests) < l.maxConcurrent && SumOf(lengths) <= l.bodyBytes
    ensures var s := After(l, steps);
      Continue(l, s, Undisturbed(id, lengths)) == s.(requests := s.requests[id := Ended(Answered(Handled))])
  {
    var s := After(l, steps);
    InvariantHolds(l, steps);
    StagesMatch(l, steps, id);
    var opening := [Request(id, Gate), Request(id, Enter), Request(id, Event.BeginBody)];
    var closing := [Request(id, EndOfBody), Request(id, HandlerAnswers), Request(id, DropGuard), Request(id, DropPermit)];
    var chunks := ChunkSteps(id, lengths);
    ContinueAppend(l, s, opening + chunks, closing);
    ContinueAppend(l, s, opening, chunks);
    var inside := s.(free := s.free - 1, inFlight := s.inFlight + 1, requests := s.requests[id := Reading(0)]);
    OpeningSteps(l, s, id);
    ReadsEveryChunk(l, inside, id, lengths);
    ClosingSteps(l, Continue(l, inside, chunks), id, SumOf(lengths));
  }

  lemma OpeningSteps(l: Limits, s: State, id: nat)
    requires id < |s.requests| && s.requests[id].Arrived? && !s.requests[id].options
    requires !TooLong(s.requests[id].declared, l.bodyBytes) && s.free > 0
    ensures Continue(l, s, [Request(id, Gate), Request(id, Enter), Request(id, Event.BeginBody)])
      == s.(free := s.free - 1, inFlight := s.inFlight + 1, requests := s.requests[id := Reading(0)])
  {
    var a := Next(l, s, Request(id, Gate));
    var b := Next(l, a, Request(id, Enter));
    ContinueAppend(l, s, [Request(id, Gate)], [Request(id, Enter), Request(id, Event.BeginBody)]);
    ContinueAppend(l, a, [Request(id, Enter)], [Request(id, Event.BeginBody)]);
    ContinueOne(l, s, Request(id, Gate));
    ContinueOne(l, a, Request(id, Enter));
    ContinueOne(l, b, Request(id, Event.BeginBody));
  }

  lemma ClosingSteps(l: Limits, s: State, id: nat, body: nat)
    requires id < |s.requests| && s.requests[id] == Reading(body)
    ensures Continue(l, s, [Request(id, EndOfBody), Request(id, HandlerAnswers), Request(id, DropGuard), Request(id, DropPermit)])
      == s.(free := s.free + 1, inFlight := s.inFlight - 1, requests := s.requests[id := Ended(Answered(Handled))])
  {
    var a := Next(l, s, Request(id, EndOfBody));
    var b := Next(l, a, Request(id, HandlerAnswers));
    var c := Next(l, b, Request(id, DropGuard));
    ContinueAppend(l, s, [Request(id, EndOfBody)], [Request(id, HandlerAnswers), Request(id, DropGuard), Request(id, DropPermit)]);
    ContinueAppend(l, a, [Request(id, HandlerAnswers)], [Request(id, DropGuard), Request(id, DropPermit)]);
    ContinueAppend(l, b, [Request(id, DropGuard)], [Request(id, DropPermit)]);
    ContinueOne(l, s, Request(id, EndOfBody));
    ContinueOne(l, a, Request(id, HandlerAnswers));
    ContinueOne(l, b, Request(id, DropGuard));
    ContinueOne(l, c, Request(id, DropPermit));
  }

  // ------------------------------------------------------------- shutdown

  /** The signal starts the drain; observing it opens the window; the window
      ends in cancellation, and only after it does the server stop as cancelled. */
  lemma ShutdownTakesEffect(l: Limits, s: State)
    ensures Next(l, s, Signal).phase == if s.phase == Serving then Draining else s.phase
    ensures s.serve == AwaitingSignal ==>
      Next(l, s, DrainObserved).serve == if s.phase == Serving then AwaitingSignal else DrainWindow
    ensures s.serve == DrainWindow ==> Next(l, s, GraceExpires).serve == Flushing && Next(l, s, GraceExpires).phase == Cancelled
    ensures s.serve != DrainWindow ==> Next(l, s, GraceExpires) == s
    ensures s.serve == AwaitingSignal || s.serve == DrainWindow ==> Next(l, s, ServerStops).serve == Stopped(false)
    ensures s.serve == Flushing ==> Next(l, s, ServerStops).serve == Stopped(true)
  {}
}
