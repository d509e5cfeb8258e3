# Aircraft service: verified models

Dafny models of the parts of the aircraft service whose correctness is a
statement about whole runs or about all inputs, with proofs. `dafny verify
dfyconfig.toml` checks everything.

| modules | what they model |
|---|---|
| `RateLimit`, `RateLimitProofs`, `RateLimitReference`, `RateLimitTiers`, `RateLimitRuns`, `QuotaPolicy`, `Routes` | the per-principal token bucket and its bounded store, the configured quotas, and the gate in front of every scoped handler |
| `Perimeter`, `PerimeterProofs`, `PerimeterOutcomes` | the HTTP layers and the shutdown as one transition system: a sequence of steps is an interleaving of any number of requests |
| `Artifact`, `Ingestion`, `IngestionProofs`, `ImportOutcomes`, `Framing`, `Hex` | capture of an input, the validating pass, and the import that must agree with it or roll back |
| `Pagination`, `ModelWalks`, `Ordering` | the ordered over-fetching query, the page, and the walk along `next` over a resting or a changing table |
| `DenyPins`, `DenyFix`, `DenyFormat` | the `deny.toml` reader and writer, the lockfile scan, and `--fix` |
| `Installer`, `InstallerFormat`, `SqlComments`, `SqlCommentLaws`, `SqlLedger` | the migration installer check, the removal of SQL comments, and the ledger assertion |
| `Credentials`, `Redaction` | the `ak1` token from minting to authentication, and scrubbing of digests |
| `Normalization`, `NumericFormats`, `Measurements`, `MeasurementTables` | numbers and units read from source text, and the measurement loop |
| `Text`, `Numbers`, `Wrappers` | Rust string operations; integer widths; `Option` and `Result` |

Code that updates state in place is a class or a method with loops, proved
against a specification function; the results are lemmas about that function.
`RateLimiter` and `Server` carry the history of their calls and are tied to the
run specification by `Valid()`, so what is proved of runs holds of the objects;
`ServerIsBounded` says it of the fields. `IngestionService` logs its calls.

Conventions and hypotheses:

- An `Instant` is an integer of nanoseconds. `Routes` and the call site read the
  clock before the lock is taken, so that calls are in clock order is a stated
  hypothesis of every result about time. Saturating 64-bit arithmetic is kept,
  and is proved harmless exactly below a gap of 2^64 milliseconds.
- The comment at `rate_limit.rs:306-308` says that the absence of a bucket and a
  full bucket are the same state. The code makes that true under two conditions:
  the principal returns a whole number of milliseconds after the bucket's date,
  and the bucket is full for the quota it returns with. The sweep tests fullness
  for the quota the bucket was left with, so the second can fail when a tier
  changes. `ReturnIsExact` says so of one return and
  `StoreTracksReferenceExactly` of whole runs. `SubMillisecondEvictionIsObservable`
  is a run in which the first fails, `TierChangeClearsDebt` one in which the second
  does: there a change of tier clears a debt. The window bound holds for a fixed
  tier on both clocks, and for changing tiers under the second condition.
- Taking comments out of SQL is not idempotent, and nothing in the repository
  says it should be: `StrippingTwiceExactly` has the condition on the source.
- SHA-256 is a function parameter. Where a digest must identify a text, the
  hypothesis is only that it does not confuse the two texts at hand.
- The collation of the database is an arbitrary strict total order.
- What the store, the unit of work, the lookup and the reader answer are
  parameters that range over every possible answer, failures included.
- A bucket is held by value in the map, so the limiter's in-place update of a
  bucket is an update of the map.
- `FilesOf(migrations)` are the files of one directory, hence distinct.

## Model

| member | source | states |
|---|---|---|
| RateLimitReference.StoreTracksReferenceExactly | crates/aircraft_api/src/rate_limit.rs:280-321 | On ordered calls within the 64-bit span, whatever tiers the principal moves through: the store has, after every call, the bucket and the answer (`Saturated` apart) of a limiter that never forgets a bucket, if and only if the principal, whenever it is served without a bucket, is a whole number of milliseconds past its kept one and that one is full for the quota it comes back with |
| RateLimitReference.OneTierTracksExactly | crates/aircraft_api/src/rate_limit.rs:280-321 | With one quota for this principal the condition is the millisecond alone, and equal buckets already mean equal answers |
| RateLimitReference.StoreRefinesReference | crates/aircraft_api/src/rate_limit.rs:280-321 | Hence with one quota for this principal and calls whole milliseconds apart, at whatever offset, every answer but `Saturated` is the reference's: other principals can only ever cause `Saturated` |
| RateLimitReference.KeptBucketIsOnTheMillisecond | crates/aircraft_api/src/rate_limit.rs:194-210 | Calls whole milliseconds apart, of any tiers, meet the condition on time |
| RateLimitReference.ReturnIsExact | crates/aircraft_api/src/rate_limit.rs:306-320 | One return: a bucket made afresh is left and answered like the kept one exactly when that one is full for the quota and a whole number of milliseconds old |
| RateLimitReference.OutOfStepReachesTheCaller | crates/aircraft_api/src/rate_limit.rs:280-321 | Whenever a principal's bucket and its kept bucket are dated at different offsets within a millisecond, some calls of its own within one second, on any one tier, end in an answer that is not the reference's |
| RateLimitReference.OffTheMillisecondReachesTheCaller | crates/aircraft_api/src/rate_limit.rs:280-321 | In particular after every return off the millisecond |
| RateLimitProofs.WindowBound | crates/aircraft_api/src/rate_limit.rs:194-223 | Over any run, in any window of d ms: 1000 x admissions <= 1000 x capacity + refill x (d + 1), evictions and re-creations included |
| RateLimitProofs.WindowBoundOnMilliseconds | crates/aircraft_api/src/rate_limit.rs:194-223 | The same bound with d instead of d + 1 when calls are whole milliseconds apart |
| RateLimitTiers.TieredWindowBound | crates/aircraft_api/src/rate_limit.rs:194-223 | The bound for a principal that changes tiers, by the largest capacity and the largest rate it has, if whenever it is served without a bucket the last one it left was full for the quota it comes back with |
| RateLimitTiers.OneTierReturnsFull | crates/aircraft_api/src/rate_limit.rs:293-304 | A principal that never changes tier always does |
| RateLimitTiers.LeftBucketAgrees | crates/aircraft_api/src/rate_limit.rs:293-304 | Over any run the store has the bucket a principal left, or that bucket has refilled to the quota it was left with |
| RateLimitProofs.CreditPaysForAdmissions | crates/aircraft_api/src/rate_limit.rs:280-321 | The potential units - refill x last never rises over a run, and every admission lowers it by one token, also when the bucket is swept and created again in between |
| RateLimitProofs.RefillKeepsCredit | crates/aircraft_api/src/rate_limit.rs:205-223 | Neither a refill nor evict-then-recreate raises the potential of a bucket |
| RateLimitProofs.RetryAfterIsHonest | crates/aircraft_api/src/rate_limit.rs:40-46 | After `Refused` at time t the principal's next call at t + 1 s or later is never `Refused`, whatever its tier is by then and whatever others did; it is `Saturated` only if its bucket is gone and the store is full of buckets none of which has refilled |
| RateLimitRuns.RetryAfterIsLeast | crates/aircraft_api/src/rate_limit.rs:40-46 | The advertised wait is one second and cannot be shortened: with the slowest quota, a call any number of nanoseconds earlier is refused again |
| RateLimitProofs.StoreIsBounded | crates/aircraft_api/src/rate_limit.rs:290-304 | In every reachable state, on any clock, the store holds at most `max_buckets` buckets and none above its quota's capacity |
| RateLimitProofs.SaturatedExactly | crates/aircraft_api/src/rate_limit.rs:293-304 | `Saturated` is answered exactly for an untracked principal at a full store in which no bucket has refilled, and then the store is unchanged |
| RateLimitProofs.DebtSurvivesOthers | crates/aircraft_api/src/rate_limit.rs:293-304 | Over any stretch of other principals' calls a bucket is still in the store, unchanged, unless it has refilled by then |
| RateLimitProofs.EvictionIsExact | crates/aircraft_api/src/rate_limit.rs:287-305 | A call leaves every other bucket as it is, and drops exactly those that have refilled, exactly when a newcomer finds the store full |
| RateLimitProofs.EarlierInstantsEarnNothing | crates/aircraft_api/src/rate_limit.rs:184-193 | An instant not later than the bucket's date grants nothing, on any clock |
| RateLimitProofs.RefillIsExact | crates/aircraft_api/src/rate_limit.rs:190-223 | The saturating u64 refill equals the unbounded one if and only if the gap is below 2^64 ms; the fullness test is exact always |
| RateLimitProofs.AbsenceIsFullness | crates/aircraft_api/src/rate_limit.rs:306-313 | A forgotten bucket and a kept one are refilled to the same bucket if and only if the kept one is full and a whole number of milliseconds old |
| RateLimitRuns.SubMillisecondEvictionIsObservable | crates/aircraft_api/src/rate_limit.rs:293-313 | Counterexample to "absence and capacity are the same state", off the millisecond: a run of five calls on a store of two buckets whose last answer is `Refused` where the reference admits |
| RateLimitRuns.TierChangeClearsDebt | crates/aircraft_api/src/rate_limit.rs:205-210 | Counterexample to it on the millisecond, with a change of tier: the sweep asks whether the bucket is full for the quota it was left with, the refill uses the quota the principal returns with. A run of ten calls whose seventh is admitted where the reference refuses, and which admits eight in two milliseconds where the largest capacity and rate together allow seven |
| RateLimitProofs.BeyondTheSpanAnInstantRefillsTwice | crates/aircraft_api/src/rate_limit.rs:190-210 | Counterexample to exactness without the span: past 2^64 ms `last` lags the clock and one instant is credited twice |
| RateLimit.RateLimiter.Admit | crates/aircraft_api/src/rate_limit.rs:272-278 | Each call on the mutable store gets the answer of the run specification for the history so far, and leaves the store of that history |
| RateLimit.RateLimiter.SpendToken | crates/aircraft_api/src/rate_limit.rs:280-321 | The in-place sweep, lookup, refill and spend, with early returns, have the answer and store of `Spend` |
| RateLimit.RateLimiter.Refill | crates/aircraft_api/src/rate_limit.rs:205-210 | The three field updates in sequence give `Refilled`, the function the refinement and the bounds are about |
| QuotaPolicy.NewPolicy | crates/aircraft_api/src/rate_limit.rs:133-159 | An error names exactly the first entry that is unreadable or repeats an earlier code; a policy is built exactly when there is none, and its tiers are exactly what the entries declare |
| QuotaPolicy.PrintedOverrideIsRead | crates/aircraft_api/src/rate_limit.rs:141-157 | Round trip: every quota printed as `CODE:capacity:refill` under a colon-free code is read back as that code and quota |
| QuotaPolicy.DeclaredExactly | crates/aircraft_api/src/rate_limit.rs:143-157 | An entry declares a quota if and only if it is a non-empty code, a capacity and a rate with exactly two colons between them |
| QuotaPolicy.ParseU32Exactly | crates/aircraft_api/src/rate_limit.rs:150-152 | A number is read from exactly its decimal text, leading zeros and one plus sign allowed, within 32 bits |
| QuotaPolicy.ConfiguredQuotas | crates/aircraft_api/src/rate_limit.rs:161-169 | A tier gets the quota an entry declares for it, and the default if none does |
| QuotaPolicy.DecimalRoundTrip | crates/aircraft_api/src/rate_limit.rs:150-152 | Every natural number printed in decimal is read back |
| Routes.Serve | crates/aircraft_api/src/routes/mod.rs:274-340 | A request asks the limiter once if its route is scoped and its caller known, otherwise never; the response is the one of the ordered gates |
| Routes.ResponsesAreExact | crates/aircraft_api/src/routes/mod.rs:276-338 | After any history: handled if and only if the route is public, or the caller is known, admitted and holds the scope; refused for scope, rate-limited and overloaded exactly for the other three cases, with the limiter's own wait |
| Routes.HandledAndForbiddenExactly | crates/aircraft_api/src/routes/mod.rs:296-335 | Over any run: the handled requests of a principal are exactly those whose token was granted and whose scopes reach, the forbidden ones exactly those whose scopes do not |
| Routes.EveryTokenIsAccountedFor | crates/aircraft_api/src/routes/mod.rs:285-335 | Over any run, handled plus forbidden requests of a principal are its admissions: a 403 is paid for |
| Routes.HandlersStayWithinTheAllowance | crates/aircraft_api/src/routes/mod.rs:274-340 | In any window a principal gets past the limiter at most capacity plus refill, whatever public, unauthenticated and foreign requests are interleaved |
| PerimeterProofs.PerimeterIsBounded | crates/aircraft_api/src/lib.rs:234-261 | In every interleaving: free permits + holders = `max_concurrent`; `in_flight` = tracked requests, between 0 and `max_concurrent`; retained body bytes <= `max_concurrent` x `body_bytes` |
| PerimeterProofs.StepKeepsInvariant | crates/aircraft_api/src/lib.rs:234-261 | The inductive invariant behind it is kept by every step of every request and of the server |
| PerimeterProofs.MoveIsBalanced | crates/aircraft_api/src/limits.rs:204-235 | Each event moves a permit, a guard or buffered bytes between one request and the shared counters without creating or losing any; only entering adds drain work |
| PerimeterProofs.ShedExactlyWhenSaturated | crates/aircraft_api/src/limits.rs:204-214 | In every reachable state a non-preflight request is answered overloaded exactly when all permits are held by other requests |
| PerimeterProofs.StepsReadWhatTheLoopReads | crates/aircraft_api/src/limits.rs:147-173 | The chunk-by-chunk steps of the transition system accept exactly the bodies the reading loop forwards |
| PerimeterProofs.PhaseIsLatched | crates/aircraft_api/src/shutdown.rs:58-66 | Over any run the phase never moves back, so a late subscriber still observes every phase reached |
| PerimeterProofs.CancelFollowsSignalAndGrace | apps/server/src/lib.rs:64-110 | Whenever the phase is `Cancelled` the run contains, in order, the signal, the observation of draining and the expiry of the grace window |
| PerimeterProofs.DrainWorkNeverRises | crates/aircraft_api/src/shutdown.rs:98-138 | No step but a new entry raises the drain measure |
| PerimeterProofs.CancelledRequestsCanMove | crates/aircraft_api/src/shutdown.rs:124-138 | After cancellation, while anything is tracked, some request can take an unwinding step that lowers the measure by one |
| PerimeterProofs.EveryPolledScheduleDrains | crates/aircraft_api/src/shutdown.rs:98-138 | After cancellation, every interleaving in which no request enters and each tracked one observes the cancellation and later drops its guard ends with nothing in flight, whatever other steps are mixed in |
| PerimeterProofs.CancellationDrains | crates/aircraft_api/src/shutdown.rs:98-138 | Such a schedule exists from every cancelled state of the invariant, within two steps for each request in flight |
| PerimeterProofs.ServerIsBounded | crates/aircraft_api/src/lib.rs:234-261 | The permit, counter and memory bounds for the fields of every server, after any calls of its layers |
| PerimeterOutcomes.EndNamesItsCause | crates/aircraft_api/src/lib.rs:234-261 | Over every interleaving each end of a request has its own cause and each cause its own end: handled exactly by the handler's answer, after a body within the limit; deadline, malformed, cancelled and dropped exactly by their events; overloaded exactly at a gate with no permit free; too large exactly by the declared or received length; preflight answered exactly for options within it |
| PerimeterOutcomes.CausesTakeEffect | crates/aircraft_api/src/lib.rs:234-261 | In every reachable state, exactly these events end an open request: no deadline, cancellation, departure, answer, fault or excess is lost |
| PerimeterOutcomes.UndisturbedRequestsAreHandled | crates/aircraft_api/src/lib.rs:234-261 | From every reachable state with a permit free, a request within the limit in any number of chunks, left alone, is handled and gives back all it took |
| PerimeterOutcomes.StagesMatch | crates/aircraft_api/src/limits.rs:147-173 | Over every interleaving the buffer of a request is exactly the bytes it was sent, and within the limit |
| PerimeterOutcomes.EndsAreForGood | crates/aircraft_api/src/lib.rs:234-261 | Once ended, a request keeps its end |
| PerimeterOutcomes.ShutdownTakesEffect | apps/server/src/lib.rs:64-110 | The signal starts the drain, its observation the window, the window's end cancellation, and a stop is reported as cancelled only after that |
| Perimeter.RefuseOversizedBody | crates/aircraft_api/src/limits.rs:147-173 | At most the limit is ever retained; forwarded exactly when neither the declared nor the actual length exceeds the limit and no chunk fails; otherwise which refusal and after how many chunks |
| Perimeter.Server.Arrive | crates/aircraft_api/src/lib.rs:234-261 | A request at the outermost layer is the `Arrive` step of the history |
| Perimeter.Server.PassGate | crates/aircraft_api/src/limits.rs:204-214 | Taking a shared permit or shedding, behind the preflight answer, is the `Gate` step |
| Perimeter.Server.EnterTracking | crates/aircraft_api/src/shutdown.rs:98-101 | Incrementing the shared counter is the `Enter` step |
| Perimeter.Server.ReleaseGuard | crates/aircraft_api/src/shutdown.rs:107-111 | Dropping the guard is the `DropGuard` step |
| Perimeter.Server.ReleasePermit | crates/aircraft_api/src/limits.rs:204-214 | Dropping the permit is the `DropPermit` step |
| Perimeter.Server.BeginBody | crates/aircraft_api/src/limits.rs:147-154 | Refusing the declared length or starting an empty buffer is the `BeginBody` step |
| Perimeter.Server.ReceiveChunk | crates/aircraft_api/src/limits.rs:162-170 | Growing the buffer or dropping it whole is the `Chunk` step |
| Perimeter.Server.FailChunk | crates/aircraft_api/src/limits.rs:162-165 | A broken chunk ends the request as malformed, with its buffer freed |
| Perimeter.Server.FinishBody | crates/aircraft_api/src/limits.rs:172-173 | The end of the stream hands the buffer to the handler |
| Perimeter.Server.AnswerRequest | crates/aircraft_api/src/shutdown.rs:133-137 | The handler's answer ends the race with cancellation |
| Perimeter.Server.PassDeadline | crates/aircraft_api/src/limits.rs:223-235 | The deadline ends a request at whichever inner layer it stands |
| Perimeter.Server.ObserveCancel | crates/aircraft_api/src/shutdown.rs:124-138 | Cancellation ends a tracked request once the phase is `Cancelled`, and not before |
| Perimeter.Server.LeaveClient | crates/aircraft_api/src/shutdown.rs:104-111 | A dropped future gives back exactly what its layer holds |
| Perimeter.Server.ReceiveSignal | apps/server/src/lib.rs:66-80 | The signal is the `Signal` step |
| Perimeter.Server.ObserveDrain | apps/server/src/lib.rs:83-86 | The first await ends only once draining has begun |
| Perimeter.Server.ExpireGrace | apps/server/src/lib.rs:93-107 | The expired grace window is the step that cancels |
| Perimeter.Server.Stop | apps/server/src/lib.rs:83-110 | The server future ends, before or after cancellation |
| Perimeter.ShutdownState.AdvanceTo | crates/aircraft_api/src/shutdown.rs:58-66 | The shared phase becomes the later of the two |
| Hex.HexByTable | crates/aircraft_ingest/src/artifact.rs:94-102 | The table encoder of the ingest crate produces `HexOf` |
| Hex.HexByFormat | crates/aircraft_app/src/services/ingestion.rs:542-550 | The formatting encoder of the app crate produces the same `HexOf`, so both digests may be compared as text |
| Hex.HexIsInjective | crates/aircraft_ingest/src/artifact.rs:94-102 | Different bytes have different text |
| Hex.HexIsTheNumeral | crates/aircraft_ingest/src/artifact.rs:94-102 | Read in base sixteen, the text is the number the bytes spell, highest byte first |
| Hex.HexShape | crates/aircraft_ingest/src/artifact.rs:94-102 | The text is two lowercase hexadecimal digits for each byte, so it holds no NUL and no underscore |
| Artifact.Capture | crates/aircraft_ingest/src/artifact.rs:39-82 | Apart from the disk, the outcome depends on the bytes of the input and not on how reads split them, with the order in which read, size, write and flush failures win; the temporary file holds a prefix of the input never longer than the ceiling, and all of it on success |
| Artifact.CaptureIsExact | crates/aircraft_ingest/src/artifact.rs:39-82 | For every way of cutting the bytes into pieces and of ending them: exactly when each failure wins, and otherwise the digest and length of all the bytes |
| Ingestion.Preflight | crates/aircraft_ingest/src/planephd.rs:50-97 | The loop over records, with its capped error list, key set and running hash, returns the summary or error of `PreflightResult` |
| IngestionProofs.PreflightAcceptsExactly | crates/aircraft_ingest/src/planephd.rs:58-96 | It accepts exactly the readable, well-formed, non-empty documents in which no issue of any record has severity error and no key repeats |
| IngestionProofs.RefusalIsExact | crates/aircraft_ingest/src/planephd.rs:63-90 | Otherwise it says which fault; every issue it reports is an error issue of some record or the report of a repeated key, at most 100 are reported, and below that none is left out |
| IngestionProofs.SummaryIsExact | crates/aircraft_ingest/src/planephd.rs:58-96 | The summary has the number of records, the number of places in the document where a warning stands, and the hash of the framed keys |
| IngestionProofs.OfSeveritySelects | crates/aircraft_ingest/src/planephd.rs:60-70 | Selecting by severity keeps exactly the issues that have it, in order |
| Framing.FramingIsInjective | crates/aircraft_ingest/src/planephd.rs:80-84 | Without a NUL in any key, the text both passes hash determines the sequence of keys |
| Framing.EqualLengthFraming | crates/aircraft_app/src/services/ingestion.rs:483-492 | After the count check it is enough that one of the two lists of keys is free of NULs |
| Framing.FramingDeterminesExactly | crates/aircraft_ingest/src/planephd.rs:80-84 | A list of keys is told from every other of its length if and only if it has at most one key or no key with a NUL |
| Framing.FramingNeedsNulFreeKeys | crates/aircraft_ingest/src/planephd.rs:80-84 | Counterexample with NULs: two different key lists of equal length are framed alike |
| Framing.SourceRecordKeyIsNulFree | crates/aircraft_ingest/src/normalization.rs:1028-1035 | The keys the adapter makes contain no NUL |
| Framing.SourceRecordKeysAreTheAircrafts | crates/aircraft_ingest/src/normalization.rs:1028-1035 | Two aircraft of manufacturers without a NUL get the same key only if the digest confuses them |
| IngestionProofs.TwoPassSoundness | crates/aircraft_app/src/services/ingestion.rs:437-503 | A successful import against a summary of a preflighted document, whatever it read, promoted the same keys in the same order, all distinct, none with an error issue; promoted = record count, flagged <= promoted, warning totals agree |
| IngestionProofs.TwoPassCompleteness | crates/aircraft_app/src/services/ingestion.rs:437-503 | Re-reading an accepted document, with warnings counted per record, can fail only through persistence, and succeeds exactly when no persistence call fails |
| IngestionProofs.SuccessMadeEveryCall | crates/aircraft_app/src/services/ingestion.rs:379-414 | A fresh success staged every record, refreshed, marked and committed, in that order, with none failing, and passed all three cross-checks |
| IngestionProofs.ImportClosesOnce | crates/aircraft_app/src/services/ingestion.rs:379-435 | Every import that got a unit of work calls exactly one of commit and rollback; an error leaves exactly one audit, last, for that run and attempt, with that error's code; a success leaves none |
| ImportOutcomes.ChecksInOrder | crates/aircraft_app/src/services/ingestion.rs:483-503 | Once every record is staged: reader failure, count, keys, warnings, refresh, mark and commit, in this order, each with its own result, calls and audit code; the report has the numbers the database answered |
| ImportOutcomes.StoppedByTheFirstBadRecord | crates/aircraft_app/src/services/ingestion.rs:460-480 | The first record with an error issue stops the import with the code of its first error, unstaged; the first that the database refuses stops it with that error |
| ImportOutcomes.NoUnitOfWorkNoCalls | crates/aircraft_app/src/services/ingestion.rs:384-388 | Without a unit of work nothing is called and nothing audited |
| ImportOutcomes.TalliesAreExact | crates/aircraft_app/src/services/ingestion.rs:468-482 | Staged, promoted, flagged and warnings are the numbers of outcomes that say so |
| ImportOutcomes.CodesAre | crates/aircraft_app/src/services/ingestion.rs:526-540 | The code each failure is known by |
| IngestionProofs.StagingStopsAtTheFirstError | crates/aircraft_app/src/services/ingestion.rs:460-480 | Nothing is staged after the first record that carries an error or fails to stage |
| Ingestion.HaltIsFinal | crates/aircraft_app/src/services/ingestion.rs:460-480 | Once a record has been given up, neither the outcome nor the staged calls change |
| Ingestion.IngestionService.Import | crates/aircraft_app/src/services/ingestion.rs:379-414 | The result and the log of calls are those of `ImportRun` |
| Ingestion.IngestionService.ConsumeRecords | crates/aircraft_app/src/services/ingestion.rs:437-503 | The loop and the three checks have the result and calls of `Checked` and `StageCalls` |
| Ingestion.IngestionService.RollbackAndAudit | crates/aircraft_app/src/services/ingestion.rs:416-427 | One rollback, then one audit, whether or not the rollback works |
| Pagination.WalkReturnsEveryRow | crates/aircraft_app/src/pagination.rs:72-80 | With any, even changing, requested limits, capped as `from_requested` caps them, following `next` from any key terminates and returns exactly the filtered rows after it, in order, each once |
| Pagination.FinishedWalkIsExact | crates/aircraft_db/src/repositories/model_repository.rs:43-51 | While rows are inserted and deleted between pages, a finished walk returns no slug twice and every row that matched at each of its requests |
| Pagination.CollectedRowsWereThere | crates/aircraft_db/src/repositories/model_repository.rs:43-51 | and no row that did not match, as returned, at one of its requests |
| ModelWalks.FamilyListingIsExact | crates/aircraft_db/src/repositories/model_repository.rs:43-51 | With a family, a walk returns rows of that family only, as the table has them, and every one of them |
| ModelWalks.FullListingIsExact | crates/aircraft_db/src/repositories/model_repository.rs:43-51 | Without one it returns every row of the table |
| ModelWalks.FamilyListingIsTheRestriction | crates/aircraft_db/src/repositories/model_repository.rs:36-51 | A walk of a family is the unfiltered walk without the other families, whatever the page sizes of either |
| ModelWalks.PagesAreAsRequested | crates/aircraft_app/src/pagination.rs:34-51 | A page that is not the last has exactly the rows asked for, at most 200 and 50 if nothing was said |
| Pagination.OneRowOfLookahead | crates/aircraft_app/src/pagination.rs:43-51 | A query asks for exactly one row more than the page; the 16-bit sum never saturates |
| Pagination.WalkSoFar | crates/aircraft_db/src/repositories/model_repository.rs:43-51 | The invariant of an unfinished walk over a changing table: in order, nothing past its key, every lasting row up to it |
| Pagination.PageIsTheNextInterval | crates/aircraft_db/src/repositories/model_repository.rs:126-146 | A page holds exactly the matching rows between the key it resumed from and the key it hands on, and hands one on only when rows remain |
| Pagination.NextIsFurtherOn | crates/aircraft_app/src/pagination.rs:72-80 | The key handed on leaves strictly fewer matching rows: the termination measure |
| Pagination.FromOverfetched | crates/aircraft_app/src/pagination.rs:72-80 | The truncating constructor is `PageOf`, which the page and walk results are about |
| Ordering.SortedListsTheSet | crates/aircraft_db/src/repositories/model_repository.rs:43-51 | The meaning of `ORDER BY`: an increasing listing of exactly the set, under any strict total order |
| Ordering.IncreasingIsUnique | crates/aircraft_db/src/repositories/model_repository.rs:43-51 | and there is only one |
| DenyPins.RoundTripExactly | xtask/src/deny_pins.rs:240-275 | For every manifest with a closed list, `parse_pins` of `rewrite` gives back the set written if and only if no pin holds a line feed or has a quote at either end |
| DenyPins.RewriteReplacesOnlyTheList | xtask/src/deny_pins.rs:259-275 | The text before the list and after its close is unchanged, and the new list is found between them |
| DenyPins.RewriteIsIdempotent | xtask/src/deny_pins.rs:259-275 | Writing the same set again changes no byte, for the empty set too |
| DenyPins.PinsAreWellFormed | xtask/src/deny_pins.rs:240-256 | Whatever is read can be written back |
| DenyPins.WriterAndReaderFailTogether | xtask/src/deny_pins.rs:240-264 | Both fail on the same manifests with the same error |
| DenyFormat.ListIsFoundExactly | xtask/src/deny_pins.rs:240-246 | The list is found exactly from the first opening to the first closing line after it |
| DenyFormat.PinsAreReadExactly | xtask/src/deny_pins.rs:248-256 | A pin is read exactly from a line that, trimmed, is no comment and is quotes, the pin, quotes and commas |
| DenyFormat.RewrittenTextIs | xtask/src/deny_pins.rs:259-275 | The text written, character by character: the old head and tail around one indented, quoted line for each pin in increasing order |
| DenyFix.ResolvedVersions | xtask/src/deny_pins.rs:205-221 | The scan returns exactly the `name@version` of every version line whose nearest name or version line above is a name |
| DenyFormat.ResolvedExactly | xtask/src/deny_pins.rs:205-221 | A pin resolves exactly when a name line and a version line, with neither between them, give its two parts in quotes |
| DenyFix.FixLeavesNoOffenderExactly | xtask/src/deny_pins.rs:182-234 | One application leaves no offender if and only if the scan missed no pinned build crate sharing its name with an offender |
| DenyFix.FixKeepsLivePins | xtask/src/deny_pins.rs:225-234 | No pin that still resolves and no unrelated pin is dropped; only build crates are added |
| DenyFormat.FixedExactly | xtask/src/deny_pins.rs:182-234 | Pin by pin: a pin goes exactly when its crate is an unpinned build crate and it no longer resolves; exactly the unpinned build crates get one |
| DenyFix.FixConverges | xtask/src/deny_pins.rs:93-124 | With a scan that returns every build crate, one run leaves a manifest that reads back as the fixed set, has no offender, keeps every live pin and is left alone by a second run |
| DenyFix.LockfileFixConverges | xtask/src/deny_pins.rs:93-124 | The same from the two files: whenever the lockfile text has a block for every build crate, and for any manifest with a closed list |
| DenyFix.ResolvedPinsAreWellFormed | xtask/src/deny_pins.rs:205-221 | Every pin the scan can return survives being written and read |
| Installer.Policy.CheckInstaller | xtask/src/migrations.rs:211-276 | Adds no violation exactly when the uncommented `\ir` files are the migrations on disk, in order, and the recorded ledger versions are the shipped ones |
| Installer.InstallerMatchesExactly | xtask/src/migrations.rs:228-255 | Each exactly once, increasing positions and no unknown file together are sequence equality |
| Installer.LastDirectiveIsLastFile | xtask/src/migrations.rs:228-255 | When the three hold, the last directive names the last file |
| Installer.DirectivesAreOrdered | xtask/src/migrations.rs:218-228 | Directives come with strictly increasing line numbers |
| Installer.Policy.CheckOrder | xtask/src/migrations.rs:228-249 | Silent exactly when each file is included once and the positions increase |
| Installer.Policy.CheckKnown | xtask/src/migrations.rs:251-255 | Silent exactly when every included file is a migration |
| InstallerFormat.DirectivesExactly | xtask/src/migrations.rs:218-228 | A line includes a file exactly when, trimmed, it is the directive and the file |
| InstallerFormat.RecordedExactly | xtask/src/migrations.rs:261-267 | The recorded versions are those of the lines that, trimmed, insert one, in their order |
| InstallerFormat.ShippedVersionsExactly | xtask/src/migrations.rs:340-342 | A shipped version is its number in decimal, in three digits or as many as it needs |
| InstallerFormat.FileFindingExactly | xtask/src/migrations.rs:232-249 | A file is reported as not included once exactly when it is not, with the number found, and as out of order exactly when it comes no later than the last file before it that is included once |
| InstallerFormat.OrderFindingsExactly | xtask/src/migrations.rs:232-249 | The violations of the order are exactly those of the files |
| InstallerFormat.LedgerFindingsExactly | xtask/src/migrations.rs:268-274 | Ledger versions that disagree are reported with what is recorded and what ships |
| InstallerFormat.UnknownFindingsExactly | xtask/src/migrations.rs:251-255 | An included file is reported exactly when it is no migration |
| SqlLedger.DeclarationIsReadExactly | xtask/src/migrations.rs:345-366 | Versions are read from trimmed lines if and only if the lines lay them out: first line that opens the literal, `]` first met on its last line, one quoted three-digit entry for each version, then `;` |
| SqlLedger.OpeningIsSpelled | xtask/src/migrations.rs:345-352 | The characters a declaration opens with |
| SqlLedger.ClosingIsSpelled | xtask/src/migrations.rs:353-357 | A declaration closes with a semicolon, perhaps after space |
| SqlLedger.LedgerVersions | xtask/src/migrations.rs:345-366 | The line-gathering loop reads the versions `Declared` specifies |
| SqlLedger.CheckHistoryLedger | xtask/src/migrations.rs:315-337 | Adds no violation exactly when the declared versions are the shipped ones, in order |
| SqlComments.WithoutSqlComments | xtask/src/migrations.rs:368-402 | The character scanner with its two inner loops computes `Active` |
| SqlComments.LineNumbersAreKept | xtask/src/migrations.rs:368-402 | Removing comments keeps the number of line feeds |
| SqlComments.UnchangedExactly | xtask/src/migrations.rs:368-402 | A text is returned unchanged if and only if no comment opens in it |
| SqlComments.ClosingUpCanOpenAComment | xtask/src/migrations.rs:368-402 | Counterexample to idempotence: what is left of `-/**/-1` opens a new comment |
| SqlComments.StrippingTwiceExactly | xtask/src/migrations.rs:368-402 | Stripping twice is stripping once if and only if no two characters of the source outside comments, with nothing but one-line block comments between them, spell the start of a comment |
| SqlComments.OpenedExactly | xtask/src/migrations.rs:368-402 | The result opens a comment exactly when the source brings two such characters together |
| SqlComments.BlockInsideIsIgnored | xtask/src/migrations.rs:381-395 | Replacing the inside of a block comment by any text with the same line feeds leaves the active text unchanged |
| SqlComments.LineInsideIsIgnored | xtask/src/migrations.rs:373-380 | Replacing the text of a line comment by any other leaves it unchanged |
| SqlCommentLaws.CodeIsKept | xtask/src/migrations.rs:397-399 | Code in which no comment opens is kept as it is, and the rest is stripped by itself |
| SqlCommentLaws.LineCommentIsDropped | xtask/src/migrations.rs:373-380 | A line comment leaves its line feed and nothing else |
| SqlCommentLaws.BlockCommentIsDropped | xtask/src/migrations.rs:381-392 | A block comment leaves the line feeds inside it and nothing else |
| SqlCommentLaws.OpenBlockIsRefused | xtask/src/migrations.rs:393-395 | A block comment that never closes is refused |
| Credentials.IssuedTokenParses | crates/aircraft_app/src/services/credential_issuance.rs:333-347 | For all key and secret bytes the built token has the fixed length and parses to exactly the built key identifier and the verifier of that token |
| Credentials.LiveTokensAuthenticateExactly | crates/aircraft_app/src/services/authentication.rs:255-281 | Against a lookup over any set of issued credentials, the texts accepted are exactly the issued tokens that are neither revoked nor disabled, each for its own principal; every other text, an unknown key included, is rejected |
| Credentials.FailedLookupIsUnavailable | crates/aircraft_app/src/services/authentication.rs:255-281 | A failing lookup is answered `Unavailable`, for exactly the texts that parse; a text that does not parse is rejected without one |
| Credentials.ParseAcceptsExactly | crates/aircraft_app/src/services/authentication.rs:114-132 | A token parses exactly when it is `ak1`, a hyphenated UUID and 64 underscore-free bytes, joined by underscores |
| Credentials.ParseErrorsExactly | crates/aircraft_app/src/services/authentication.rs:114-132 | Which of the three errors a text that is no token gets |
| Credentials.UuidRoundTrip | crates/aircraft_app/src/services/credential_issuance.rs:333-347 | The hyphenated text of every identifier (RFC 9562, section 4) parses to it |
| Credentials.HyphenatedExactly | crates/aircraft_app/src/services/credential_issuance.rs:333-347 | The text of an identifier is eight, four, four, four and twelve digits of its bytes (RFC 9562, section 4) |
| Credentials.ParseUuidExactly | crates/aircraft_app/src/services/authentication.rs:114-132 | A text of 36 bytes parses to an identifier exactly when, in lower case, it is that text |
| Credentials.KeyIdentifiersCollideExactly | crates/aircraft_app/src/services/credential_issuance.rs:333-336 | Version 4 and its variant are set (RFC 9562, sections 4.1 and 5.4), and two keys give one identifier exactly when they agree on the other 122 bits |
| Credentials.Build | crates/aircraft_app/src/services/credential_issuance.rs:333-347 | The pushes into one buffer build `TokenOf`, and the verifier is its digest |
| Redaction.RedactDigestRuns | crates/aircraft_app/src/services/credential_issuance.rs:386-408 | The one-pass run buffer equals the split into maximal runs |
| Redaction.RedactionIsExact | crates/aircraft_app/src/services/credential_issuance.rs:386-408 | No run of 32 hexadecimal digits is left, the marker joining no neighbours; the text is unchanged exactly if it had none; redacting twice is redacting once |
| Redaction.EachRunIsJudgedAlone | crates/aircraft_app/src/services/credential_issuance.rs:386-408 | In any surroundings a whole run of 32 digits or more becomes `[REDACTED]`, none of it kept, and a shorter one is kept; the text before and after is scrubbed by itself |
| Redaction.OtherCharactersAreKept | crates/aircraft_app/src/services/credential_issuance.rs:386-408 | Every character that is no hexadecimal digit is kept in its place |
| Normalization.NumericIsTheMaximalDecimal | crates/aircraft_ingest/src/normalization.rs:755-774 | What is returned is the longest `-?[0-9.]*` prefix of the cleaned text, and it is returned exactly when it has a digit and at most one point |
| Normalization.ParseNumeric | crates/aircraft_ingest/src/normalization.rs:755-774 | The scanning loop meets that specification |
| Normalization.WellFormedIsDecimal | crates/aircraft_ingest/src/normalization.rs:765-773 | The checks on the pieces between points are the decimal test |
| Normalization.NumericIsIdempotent | crates/aircraft_ingest/src/normalization.rs:747-774 | A parsed number parses to itself |
| NumericFormats.PrintedNumbersAreRead | crates/aircraft_ingest/src/normalization.rs:755-774 | However a number is printed (currency sign, groups of digits, fraction, a word after a space) what is read is its plain digits |
| NumericFormats.SpellingsOfNothing | crates/aircraft_ingest/src/normalization.rs:747-752 | The values that say nothing are these spellings, in any letter case |
| Normalization.UnitIsTheLastWord | crates/aircraft_ingest/src/normalization.rs:794-800 | There is a unit exactly when the last word has a letter, and it reaches from its first letter to its last |
| Measurements.NormalizeAll | crates/aircraft_ingest/src/normalization.rs:218-316 | The loop emits the candidates and pushes the warnings of its specification, in order, onto the issues it was given |
| Measurements.Normalize | crates/aircraft_ingest/src/normalization.rs:226-313 | One field: pushes and late demotions give the candidate and the owed warnings |
| Measurements.ReadScalar | crates/aircraft_ingest/src/normalization.rs:469-486 | Text of a scalar, or a pushed issue exactly for an array or object |
| Measurements.CandidatesAreSafe | crates/aircraft_ingest/src/normalization.rs:218-316 | For every object: each emitted number is absent or a non-negative decimal, a mapped unit fits the mapped metric, and the source text is kept |
| Measurements.MappedUnitMeasuresItsMetric | crates/aircraft_ingest/src/normalization.rs:847-931 | With the two real tables the unit of a mapped pair has a dimension and the metric accepts it: the check is never vacuous |
| MeasurementTables.CandidateIsTheReading | crates/aircraft_ingest/src/normalization.rs:226-313 | A field becomes exactly its reading: the mapped metric, the text, the number unless negative, the unit as written, and the unit it names unless that cannot measure the metric |
| MeasurementTables.CandidatesComeInOrder | crates/aircraft_ingest/src/normalization.rs:224-316 | The candidates are one for each field that yields, in the order of the fields |
| MeasurementTables.WarningsAreGivenExactly | crates/aircraft_ingest/src/normalization.rs:238-303 | When each warning is given |
| MeasurementTables.WarningsComeInOrder | crates/aircraft_ingest/src/normalization.rs:238-303 | The warnings of a field come in this order, each once |
| MeasurementTables.IssuesAreOfTheirField | crates/aircraft_ingest/src/normalization.rs:238-303 | Every issue is a warning at the path of a field and carries its value |
| MeasurementTables.ScalarsAreReadExactly | crates/aircraft_ingest/src/normalization.rs:469-486 | The text of a value of each kind |
| MeasurementTables.UnitCodesAre | crates/aircraft_ingest/src/normalization.rs:802-831 | The units known, and what each is called |
| MeasurementTables.UnitDimensionsAre | crates/aircraft_ingest/src/normalization.rs:847-860 | What each unit measures |
| MeasurementTables.PerformanceMetricsAre | crates/aircraft_ingest/src/normalization.rs:896-914 | The metric of each performance field |
| MeasurementTables.WeightMetricsAre | crates/aircraft_ingest/src/normalization.rs:916-931 | The metric of each weight field |
| MeasurementTables.SpeedAndLengthMetricsAre | crates/aircraft_ingest/src/normalization.rs:864-877 | What these metrics are measured in |
| MeasurementTables.WeightAndVolumeMetricsAre | crates/aircraft_ingest/src/normalization.rs:878-887 | What these metrics are measured in |
| Measurements.DemotionsAreWarned | crates/aircraft_ingest/src/normalization.rs:238-303 | For every emitted measurement each absence has exactly its warning at that field, and the field is free of warnings if and only if metric, number and unit are all present |
| Measurements.DroppedFieldsExactly | crates/aircraft_ingest/src/normalization.rs:226-232 | A field yields no measurement exactly when it is reserved, null, composite or says nothing, and only a composite one is reported |
| Measurements.WarningsFollowTheField | crates/aircraft_ingest/src/normalization.rs:218-316 | A run warns about a field exactly what that field alone is owed |

## Left out

- RateLimitProofs.WindowBound: fixes the principal's tier; for changing tiers see `TieredWindowBound`, whose condition `TierChangeClearsDebt` shows to be needed.
- RateLimitReference.OutOfStepReachesTheCaller: speaks of buckets dated at different offsets; of buckets that differ in units alone, after a change of tier, nothing is claimed.
- PerimeterProofs.EveryPolledScheduleDrains: that the runtime polls each tracked request is its hypothesis, the runtime is not modelled.
- Ingestion.Preflight: why the captured file cannot be opened again, and the text of a JSON error, are not modelled.
- IngestionProofs.TwoPassSoundness: the record and warning counters are unbounded integers, the 64-bit counters of the source are not modelled.
- Pagination.FinishedWalkIsExact: a walk over a table that keeps growing past its key need not finish; nothing is claimed of one that does not.
- Credentials.ParseAcceptsExactly: `Uuid::try_parse` is modelled for texts of 36 bytes only, the one length the other checks leave for the key segment.
- DenyFix.FixConverges: `cargo deny` is taken to report exactly the resolved build-script crates without a pin, from the `Deny` model; parsing its diagnostics and rendering the report are left out.
- DenyFix.ResolvedVersions: the lockfile is read line by line as the code does, not as TOML.
- Artifact.Capture: the bytes that a failing write leaves behind in the temporary file, which is dropped with the error, and the locator and time of the descriptor are not modelled.
- Installer.Policy.CheckInstaller: the installer text is a parameter, and block comments are not recognised, as in the code; violation messages are data and not sentences.
- Measurements.NormalizeAll: issue messages and the cut of raw values to 256 characters are left out, an issue carries the value itself.
- Routes.Serve: header parsing is left out, what authentication answers is a parameter.
- Perimeter.RefuseOversizedBody: a body is the lengths of its chunks; header parsing and the 32 or 64 bits of a length are left out.
- CORS headers, correlation, readiness and tracing: content of responses and logs, not of the protocol.
- SQL execution, row conversion errors and connection pools: a query is its meaning, a database failure one answer among others.
- Constant-time comparison, zeroising and log scrubbing beyond the digest scanner: not functional properties.
- The remaining fields of a normalised record (costs, images, dates, URLs): tables and readers settled branch by branch.
- Cursor encoding, OpenAPI generation, settings, catalog tables, curation and `archive/`: library behaviour, lookup tables or code outside the services above.
- Checks of names, checksums, transactions and lint exclusions in the migration policy: set differences and single comparisons.
