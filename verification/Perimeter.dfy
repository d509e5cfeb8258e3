/**
 * The HTTP perimeter and its shutdown as one transition system: many requests,
 * each at a layer of the stack, one semaphore, one in-flight counter and one
 * latched phase. `Next` is a single step of any of them, so a sequence of steps
 * is an interleaving.
 */
module Perimeter {
  import opened Wrappers

  datatype Limits = Limits(bodyBytes: nat, maxConcurrent: nat)

  datatype Phase = Serving | Draining | Cancelled

  function Rank(p: Phase): nat {
    match p case Serving => 0 case Draining => 1 case Cancelled => 2
  }

  /** The latch: a phase is only ever replaced by a later one. */
  function Advance(current: Phase, to: Phase): Phase {
    if Rank(to) > Rank(current) then to else current
  }

  datatype Response =
    | Handled
    | PreflightAnswered
    | PayloadTooLarge
    | MalformedInput
    | Overloaded
    | DeadlineExceeded
    | ShutdownCancelled

  /** How a request ends: answered, or its future dropped by the client leaving. */
  datatype End = Answered(response: Response) | Dropped

  /** Where a request stands, outermost layer first. The last three unwind it:
      the body is freed with the inner future, then the guard, then the permit. */
  datatype Stage =
    | Arrived(options: bool, declared: Option<nat>)
    | Permitted(declared: Option<nat>)
    | Tracked(declared: Option<nat>)
    | Reading(buffered: nat)
    | Handling(body: nat)
    | Guarded(end: End)
    | Releasing(end: End)
    | Ended(end: End)

  /** What `serve` is waiting for. */
  datatype Serve = AwaitingSignal | DrainWindow | Flushing | Stopped(cancelled: bool)

  datatype State = State(free: int, inFlight: int, phase: Phase, serve: Serve, requests: seq<Stage>)

  /** What may happen to one request. */
  datatype Event =
    | Gate
    | Enter
    | BeginBody
    | Chunk(length: nat)
    | BrokenChunk
    | EndOfBody
    | HandlerAnswers
    | DeadlinePasses
    | CancelObserved
    | ClientLeaves
    | DropGuard
    | DropPermit

  datatype Step =
    | Arrive(options: bool, declared: Option<nat>)
    | Request(id: nat, event: Event)
    | Signal
    | DrainObserved
    | GraceExpires
    | ServerStops

  function Initial(l: Limits): State {
    State(l.maxConcurrent, 0, Serving, AwaitingSignal, [])
  }

  predicate DeclaresMoreThan(declared: Option<nat>, limit: nat) {
    declared.Some? && declared.value > limit
  }

  /** Inside the deadline and inside `track_in_flight`'s race with cancellation. */
  predicate Cancellable(x: Stage) { x.Tracked? || x.Reading? || x.Handling? }

  /** A request's next stage, and the two shared counters after it moved. */
  datatype Moved = Moved(stage: Stage, free: int, inFlight: int)

  /** One event at one request; an event that is not enabled changes nothing. */
  function Move(l: Limits, x: Stage, free: int, inFlight: int, phase: Phase, event: Event): Moved {
    var stay := Moved(x, free, inFlight);
    match event
    case Gate =>
      if !x.Arrived? then stay
      else if x.options then
        stay.(stage := Ended(Answered(if DeclaresMoreThan(x.declared, l.bodyBytes) then PayloadTooLarge else PreflightAnswered)))
      else if free > 0 then Moved(Permitted(x.declared), free - 1, inFlight)
      else stay.(stage := Ended(Answered(Overloaded)))
    case Enter =>
      if x.Permitted? then Moved(Tracked(x.declared), free, inFlight + 1) else stay
    case BeginBody =>
      if !x.Tracked? then stay
      else if DeclaresMoreThan(x.declared, l.bodyBytes) then stay.(stage := Guarded(Answered(PayloadTooLarge)))
      else stay.(stage := Reading(0))
    case Chunk(length) =>
      if !x.Reading? then stay
      else if x.buffered + length > l.bodyBytes then stay.(stage := Guarded(Answered(PayloadTooLarge)))
      else stay.(stage := Reading(x.buffered + length))
    case BrokenChunk =>
      if x.Reading? then stay.(stage := Guarded(Answered(MalformedInput))) else stay
    case EndOfBody =>
      if x.Reading? then stay.(stage := Handling(x.buffered)) else stay
    case HandlerAnswers =>
      if x.Handling? then stay.(stage := Guarded(Answered(Handled))) else stay
    case DeadlinePasses =>
      if Cancellable(x) then stay.(stage := Guarded(Answered(DeadlineExceeded))) else stay
    case CancelObserved =>
      if Cancellable(x) && phase == Cancelled then stay.(stage := Guarded(Answered(ShutdownCancelled))) else stay
    case ClientLeaves =>
      if x.Arrived? then stay.(stage := Ended(Dropped))
      else if x.Permitted? then stay.(stage := Releasing(Dropped))
      else if Cancellable(x) then stay.(stage := Guarded(Dropped))
      else stay
    case DropGuard =>
      if x.Guarded? then Moved(Releasing(x.end), free, inFlight - 1) else stay
    case DropPermit =>
      if x.Releasing? then Moved(Ended(x.end), free + 1, inFlight) else stay
  }

  /** One step of the whole server. */
  function Next(l: Limits, s: State, step: Step): State {
    match step
    case Arrive(options, declared) => s.(requests := s.requests + [Arrived(options, declared)])
    case Request(id, event) =>
      if id >= |s.requests| then s
      else
        var m := Move(l, s.requests[id], s.free, s.inFlight, s.phase, event);
        s.(free := m.free, inFlight := m.inFlight, requests := s.requests[id := m.stage])
    case Signal => s.(phase := Advance(s.phase, Draining))
    case DrainObserved =>
      if s.serve.AwaitingSignal? && Rank(s.phase) >= Rank(Draining) then s.(serve := DrainWindow) else s
    case GraceExpires =>
      if s.serve.DrainWindow? then s.(serve := Flushing, phase := Advance(s.phase, Cancelled)) else s
    case ServerStops =>
      if s.serve.Stopped? then s else s.(serve := Stopped(s.serve.Flushing?))
  }

  /** The state an interleaving leads to. */
  function After(l: Limits, steps: seq<Step>): State {
    if steps == [] then Initial(l)
    else Next(l, After(l, steps[..|steps| - 1]), steps[|steps| - 1])
  }

  // ---------------------------------------------------- shared objects

  class Semaphore {
    var free: int

    constructor (permits: nat)
      ensures free == permits
    {
      free := permits;
    }

    method TryAcquire() returns (ok: bool)
      modifies this
      ensures ok <==> old(free) > 0
      ensures free == if ok then old(free) - 1 else old(free)
    {
      ok := free > 0;
      if ok { free := free - 1; }
    }

    method Release()
      modifies this
      ensures free == old(free) + 1
    {
      free := free + 1;
    }
  }

  class ShutdownState {
    var inFlight: int
    var phase: Phase

    constructor ()
      ensures inFlight == 0 && phase == Serving
    {
      inFlight, phase := 0, Serving;
    }

    method AdvanceTo(to: Phase)
      modifies this`phase
      ensures phase == Advance(old(phase), to)
    {
      if Rank(to) > Rank(phase) { phase := to; }
    }

    method EnterRequest()
      modifies this`inFlight
      ensures inFlight == old(inFlight) + 1
    {
      inFlight := inFlight + 1;
    }

    method LeaveRequest()
      modifies this`inFlight
      ensures inFlight == old(inFlight) - 1
    {
      inFlight := inFlight - 1;
    }
  }

  lemma AfterOneMore(l: Limits, steps: seq<Step>, step: Step)
    ensures After(l, steps + [step]) == Next(l, After(l, steps), step)
  {
    assert (steps + [step])[..|steps|] == steps;
  }

  /** The running server: every request shares the semaphore and the shutdown
      state. Each method is what one layer does at one moment, so a sequence of
      calls is an interleaving, and `history` is that interleaving. */
  class Server {
    const limits: Limits
    const permits: Semaphore
    const shutdown: ShutdownState
    var serve: Serve
    var requests: seq<Stage>
    ghost var history: seq<Step>

    ghost function Current(): State
      reads this, permits, shutdown
    {
      State(permits.free, shutdown.inFlight, shutdown.phase, serve, requests)
    }

    /** The fields are exactly what the steps so far lead to. */
    ghost predicate Valid()
      reads this, permits, shutdown
    {
      Current() == After(limits, history)
    }

    constructor (limits: Limits)
      ensures this.limits == limits && history == [] && Valid()
      ensures fresh(permits) && fresh(shutdown)
    {
      this.limits := limits;
      this.permits := new Semaphore(limits.maxConcurrent);
      this.shutdown := new ShutdownState();
      this.serve := AwaitingSignal;
      this.requests := [];
      this.history := [];
    }

    /** A request reaches the outermost layer. */
    method Arrive(options: bool, declared: Option<nat>)
      requires Valid()
      modifies this`history, this`requests
      ensures Valid() && history == old(history) + [Step.Arrive(options, declared)]
    {
      AfterOneMore(limits, history, Step.Arrive(options, declared));
      history := history + [Step.Arrive(options, declared)];
      requests := requests + [Arrived(options, declared)];
    }

    /** `shed_when_saturated`, under the preflight check and the CORS answer. */
    method PassGate(id: nat)
      requires Valid()
      modifies this`history, this`requests, permits
      ensures Valid() && history == old(history) + [Request(id, Gate)]
    {
      AfterOneMore(limits, history, Request(id, Gate));
      history := history + [Request(id, Gate)];
      if id < |requests| && requests[id].Arrived? {
        var x := requests[id];
        if x.options {
          var refused := DeclaresMoreThan(x.declared, limits.bodyBytes);
          requests := requests[id := Ended(Answered(if refused then PayloadTooLarge else PreflightAnswered))];
        } else {
          var ok := permits.TryAcquire();
          requests := requests[id := if ok then Permitted(x.declared) else Ended(Answered(Overloaded))];
        }
      }
    }

    /** `track_in_flight`, up to its race with cancellation. */
    method EnterTracking(id: nat)
      requires Valid()
      modifies this`history, this`requests, shutdown`inFlight
      ensures Valid() && history == old(history) + [Request(id, Enter)]
    {
      AfterOneMore(limits, history, Request(id, Enter));
      history := history + [Request(id, Enter)];
      if id < |requests| && requests[id].Permitted? {
        shutdown.EnterRequest();
        requests := requests[id := Tracked(requests[id].declared)];
      }
    }

    /** `refuse_oversized_body`, before the first chunk. */
    method BeginBody(id: nat)
      requires Valid()
      modifies this`history, this`requests
      ensures Valid() && history == old(history) + [Request(id, Event.BeginBody)]
    {
      AfterOneMore(limits, history, Request(id, Event.BeginBody));
      history := history + [Request(id, Event.BeginBody)];
      if id < |requests| && requests[id].Tracked? {
        if DeclaresMoreThan(requests[id].declared, limits.bodyBytes) {
          requests := requests[id := Guarded(Answered(PayloadTooLarge))];
        } else {
          requests := requests[id := Reading(0)];
        }
      }
    }

    /** One turn of its loop; a refused body is dropped whole. */
    method ReceiveChunk(id: nat, length: nat)
      requires Valid()
      modifies this`history, this`requests
      ensures Valid() && history == old(history) + [Request(id, Chunk(length))]
    {
      AfterOneMore(limits, history, Request(id, Chunk(length)));
      history := history + [Request(id, Chunk(length))];
      if id < |requests| && requests[id].Reading? {
        var total := requests[id].buffered + length;
        if total > limits.bodyBytes {
          requests := requests[id := Guarded(Answered(PayloadTooLarge))];
        } else {
          requests := requests[id := Reading(total)];
        }
      }
    }

    method FailChunk(id: nat)
      requires Valid()
      modifies this`history, this`requests
      ensures Valid() && history == old(history) + [Request(id, BrokenChunk)]
    {
      AfterOneMore(limits, history, Request(id, BrokenChunk));
      history := history + [Request(id, BrokenChunk)];
      if id < |requests| && requests[id].Reading? {
        requests := requests[id := Guarded(Answered(MalformedInput))];
      }
    }

    /** The stream ends and the handler gets the rebuilt request. */
    method FinishBody(id: nat)
      requires Valid()
      modifies this`history, this`requests
      ensures Valid() && history == old(history) + [Request(id, EndOfBody)]
    {
      AfterOneMore(limits, history, Request(id, EndOfBody));
      history := history + [Request(id, EndOfBody)];
      if id < |requests| && requests[id].Reading? {
        requests := requests[id := Handling(requests[id].buffered)];
      }
    }

    method AnswerRequest(id: nat)
      requires Valid()
      modifies this`history, this`requests
      ensures Valid() && history == old(history) + [Request(id, HandlerAnswers)]
    {
      AfterOneMore(limits, history, Request(id, HandlerAnswers));
      history := history + [Request(id, HandlerAnswers)];
      if id < |requests| && requests[id].Handling? {
        requests := requests[id := Guarded(Answered(Handled))];
      }
    }

    /** `enforce_deadline` drops whatever is inside it. */
    method PassDeadline(id: nat)
      requires Valid()
      modifies this`history, this`requests
      ensures Valid() && history == old(history) + [Request(id, DeadlinePasses)]
    {
      AfterOneMore(limits, history, Request(id, DeadlinePasses));
      history := history + [Request(id, DeadlinePasses)];
      if id < |requests| && (requests[id].Tracked? || requests[id].Reading? || requests[id].Handling?) {
        requests := requests[id := Guarded(Answered(DeadlineExceeded))];
      }
    }

    /** The other arm of the race in `track_in_flight`. */
    method ObserveCancel(id: nat)
      requires Valid()
      modifies this`history, this`requests
      ensures Valid() && history == old(history) + [Request(id, CancelObserved)]
    {
      AfterOneMore(limits, history, Request(id, CancelObserved));
      history := history + [Request(id, CancelObserved)];
      if id < |requests| && (requests[id].Tracked? || requests[id].Reading? || requests[id].Handling?) {
        if shutdown.phase == Cancelled {
          requests := requests[id := Guarded(Answered(ShutdownCancelled))];
        }
      }
    }

    /** The whole future is dropped, from the layer it had reached. */
    method LeaveClient(id: nat)
      requires Valid()
      modifies this`history, this`requests
      ensures Valid() && history == old(history) + [Request(id, ClientLeaves)]
    {
      AfterOneMore(limits, history, Request(id, ClientLeaves));
      history := history + [Request(id, ClientLeaves)];
      if id < |requests| {
        var x := requests[id];
        if x.Tracked? || x.Reading? || x.Handling? {
          requests := requests[id := Guarded(Dropped)];
        } else if x.Permitted? {
          requests := requests[id := Releasing(Dropped)];
        } else if x.Arrived? {
          requests := requests[id := Ended(Dropped)];
        }
      }
    }

    method ReleaseGuard(id: nat)
      requires Valid()
      modifies this`history, this`requests, shutdown`inFlight
      ensures Valid() && history == old(history) + [Request(id, DropGuard)]
    {
      AfterOneMore(limits, history, Request(id, DropGuard));
      history := history + [Request(id, DropGuard)];
      if id < |requests| && requests[id].Guarded? {
        shutdown.LeaveRequest();
        requests := requests[id := Releasing(requests[id].end)];
      }
    }

    method ReleasePermit(id: nat)
      requires Valid()
      modifies this`history, this`requests, permits
      ensures Valid() && history == old(history) + [Request(id, DropPermit)]
    {
      AfterOneMore(limits, history, Request(id, DropPermit));
      history := history + [Request(id, DropPermit)];
      if id < |requests| && requests[id].Releasing? {
        permits.Release();
        requests := requests[id := Ended(requests[id].end)];
      }
    }

    /** `serve`: the signal, its observation, the end of the grace window, the end. */
    method ReceiveSignal()
      requires Valid()
      modifies this`history, shutdown`phase
      ensures Valid() && history == old(history) + [Signal]
    {
      AfterOneMore(limits, history, Signal);
      history := history + [Signal];
      shutdown.AdvanceTo(Draining);
    }

    method ObserveDrain()
      requires Valid()
      modifies this`history, this`serve
      ensures Valid() && history == old(history) + [DrainObserved]
    {
      AfterOneMore(limits, history, DrainObserved);
      history := history + [DrainObserved];
      if serve.AwaitingSignal? && Rank(shutdown.phase) >= Rank(Draining) { serve := DrainWindow; }
    }

    method ExpireGrace()
      requires Valid()
      modifies this`history, this`serve, shutdown`phase
      ensures Valid() && history == old(history) + [GraceExpires]
    {
      AfterOneMore(limits, history, GraceExpires);
      history := history + [GraceExpires];
      if serve.DrainWindow? {
        shutdown.AdvanceTo(Cancelled);
        serve := Flushing;
      }
    }

    method Stop()
      requires Valid()
      modifies this`history, this`serve
      ensures Valid() && history == old(history) + [ServerStops]
    {
      hide After, Move;
      AfterOneMore(limits, history, ServerStops);
      history := history + [ServerStops];
      if !serve.Stopped? { serve := Stopped(serve.Flushing?); }
    }
  }

  // ------------------------------------------------------- body reading

  datatype BodyChunk = Data(length: nat) | Broken

  datatype Verdict = Forward(body: nat) | Refuse(response: Response)

  function Total(chunks: seq<BodyChunk>): nat {
    if chunks == [] then 0
    else Total(chunks[..|chunks| - 1]) + (if chunks[|chunks| - 1].Data? then chunks[|chunks| - 1].length else 0)
  }

  predicate AllData(chunks: seq<BodyChunk>) {
    forall i :: 0 <= i < |chunks| ==> chunks[i].Data?
  }

  /** `refuse_oversized_body`: reads the stream until it ends or must be refused.
      `retained` is what it held when it stopped. */
  method RefuseOversizedBody(limit: nat, declared: Option<nat>, chunks: seq<BodyChunk>)
    returns (verdict: Verdict, read: nat, retained: nat)
    ensures retained <= limit && read <= |chunks|
    ensures DeclaresMoreThan(declared, limit) ==> verdict == Refuse(PayloadTooLarge) && read == 0
    ensures verdict.Forward? <==> !DeclaresMoreThan(declared, limit) && AllData(chunks) && Total(chunks) <= limit
    ensures verdict.Forward? ==> verdict.body == Total(chunks) == retained && read == |chunks|
    ensures verdict == Refuse(MalformedInput) <==>
      !DeclaresMoreThan(declared, limit) && read < |chunks| && AllData(chunks[..read]) && Total(chunks[..read]) <= limit && chunks[read].Broken?
    ensures verdict == Refuse(PayloadTooLarge) && !DeclaresMoreThan(declared, limit) ==>
      read < |chunks| && AllData(chunks[..read + 1]) && Total(chunks[..read]) <= limit < Total(chunks[..read + 1])
    ensures verdict.Refuse? ==> verdict.response.PayloadTooLarge? || verdict.response.MalformedInput?
  {
    read, retained := 0, 0;
    if DeclaresMoreThan(declared, limit) {
      return Refuse(PayloadTooLarge), read, retained;
    }
    while read < |chunks|
      invariant read <= |chunks|
      invariant AllData(chunks[..read])
      invariant retained == Total(chunks[..read]) <= limit
    {
      assert chunks[..read + 1][..read] == chunks[..read];
      if chunks[read].Broken? {
        return Refuse(MalformedInput), read, retained;
      }
      if retained + chunks[read].length > limit {
        TotalGrows(chunks, read + 1);
        return Refuse(PayloadTooLarge), read, retained;
      }
      retained := retained + chunks[read].length;
      read := read + 1;
    }
    assert chunks[..read] == chunks;
    verdict := Forward(retained);
  }

  lemma {:induction false} TotalGrows(chunks: seq<BodyChunk>, k: nat)
    requires k <= |chunks|
    ensures Total(chunks[..k]) <= Total(chunks)
  {
    if k == |chunks| {
      assert chunks[..k] == chunks;
    } else {
      var n := |chunks| - 1;
      TotalGrows(chunks[..n], k);
      assert chunks[..n][..k] == chunks[..k];
    }
  }
}
