# CrptApi rate-limited gateway, modelled in Dafny

`CrptApi` is a small HTTP gateway that lets at most `requestLimit` requests per
time unit reach its handlers. It keeps a deque of the timestamps of the requests
it admitted. On every request it evicts, from the front, the stamps older than
one window and counts the rest. The request is admitted (its stamp is put at the
back and the handler runs) when the count is below the limit. Otherwise it is
answered with 502. The one endpoint, `RestController`'s `/api/create/{signature}`,
answers 200 with a confirmation text, 404 to anything but POST, 400 to an
unreadable body or a bad path variable, and 500 to any other failure.

The Dafny project has six modules:

- `Constrains` (`constrains.dfy`): the configuration constants and the fixed
  responses.
- `Window` (`window.dfy`): the admission rule as values.
  - `Evict` is the front-popping loop.
  - `Step` is one admission attempt.
  - `Recent` is an independent reference definition: the stamps still inside
    the window, in order.
- `Api` (`crpt_api.dfy`): the gateway itself.
  - The class `CrptApi` holds its deque as a `seq<int>` field.
  - `IsNotLimitMax` is the eviction loop, proved against `Evict`.
  - `Dispatch` is the admit/reject wrapper that `create` registers, proved
    against `Step`.
  - `GetPathVariable` is the path-variable extraction.
- `JavaStrings` (`java_strings.dfy`): `String.indexOf` and `String.split` for a
  literal separator, with Java's removal of trailing empty strings.
- `Trace` (`trace.dfy`): a whole run of requests from the empty deque.
  - It proves that, as long as the clock never steps back, the deque holds
    exactly the admitted stamps inside the window.
  - It proves that, as long as the clock never steps back, no interval of
    length `window` contains more than `limit` admissions.
- `Controller` (`rest_controller.dfy`): the create handler's status mapping and
  message, and the handler served through the gateway.

The source reads the clock twice for one request: once in `isNotLimitMax` and
once for the stamp it records. The model keeps the two readings apart as `now`
and `stamp`, and both are parameters. The window is one unit of the configured
`TimeUnit` in milliseconds, which is 1000 for SECONDS. Integers are unbounded.

Points where the code behaves in a way one might not expect, which the model
follows:

- Eviction runs on every request, a rejected one included, so a rejected
  request still drops the expired stamps. `Step` returns the evicted deque in both branches.
  `RejectIsStable` shows that this cannot change a later decision taken at the
  same instant.
- The constructor does not validate the window or the limit. The only check is
  the thread pool that `serverStart` creates with `requestLimit * 2` threads.
  That product is computed in wrapping 32-bit `int` arithmetic, and the pool
  throws unless it is positive. `PoolSizePositive` shows this holds for the
  limits 1 .. 2^30 - 1 and also, after wrap-around, for -2^31 + 1 .. -2^30 - 1.
  The constructor accepts exactly those limits. A gateway with a negative
  limit answers every request with 502 (`NonPositiveLimitRejects`).
- The handler binds the body before it reads the path variable, so a POST with
  both a bad body and a bad path answers 400 because of the body.

## Model

| member | source | states |
|---|---|---|
| Window.Evict | src/main/java/org/example/CrptApi.java:96-99 | eviction keeps a suffix of the deque (only a prefix is removed, the rest unchanged and in order), every removed stamp is older than the window, and the new front is inside the window |
| Window.Step | src/main/java/org/example/CrptApi.java:86-101 | one admission attempt: admitted iff fewer than `limit` stamps survive eviction; on admission exactly the stamp is appended at the back; on rejection nothing is appended; the size stays within `limit` |
| Window.StepSorted | src/main/java/org/example/CrptApi.java:89-99 | a sorted deque whose stamps are not later than the recorded one stays sorted through a step |
| Window.EvictSortedBounded | src/main/java/org/example/CrptApi.java:98-99 | eviction keeps a deque sorted and keeps an upper bound on its stamps |
| Window.NonPositiveLimitRejects | src/main/java/org/example/CrptApi.java:100 | with a limit that is not positive no request is admitted, and the step only evicts |
| Window.EvictIdempotent | src/main/java/org/example/CrptApi.java:98-99 | evicting twice at the same instant is the same as evicting once |
| Window.EvictedSortedInWindow | src/main/java/org/example/CrptApi.java:98-99 | on a sorted deque every stamp left after eviction is at most `window` old at `now` |
| Window.EvictSortedIsRecent | src/main/java/org/example/CrptApi.java:98-99 | on a sorted deque, popping from the front removes exactly the stamps that have left the window (Evict equals the reference filter Recent) |
| Window.RecentOfInWindow | src/main/java/org/example/CrptApi.java:98 | filtering a deque whose stamps are all inside the window keeps it whole |
| Window.RecentOfRecent | src/main/java/org/example/CrptApi.java:97-99 | filtering at an earlier and then at a later instant is filtering at the later one |
| Window.RecentAppend | src/main/java/org/example/CrptApi.java:89 | a stamp recorded at the back is among the window's contents exactly when it is inside the window |
| Window.RecentBounded | src/main/java/org/example/CrptApi.java:98 | filtering keeps a lower bound on the stamps |
| Window.RecentSorted | src/main/java/org/example/CrptApi.java:98 | filtering keeps a deque sorted |
| Window.RejectIsStable | src/main/java/org/example/CrptApi.java:88-92 | after a rejection, a second attempt at the same instant is rejected too and leaves the same deque |
| Window.BoundaryExample | src/main/java/org/example/CrptApi.java:98 | window 1000, limit 1: an attempt at 0 is admitted, one at 1000 (the earlier stamp aged exactly 1000 is kept) is rejected, one at 1001 (aged 1001, evicted) is admitted |
| Api.Wrap32 | src/main/java/org/example/CrptApi.java:133 | the result is a 32-bit `int` congruent to the argument modulo 2^32 |
| Api.PoolSizePositive | src/main/java/org/example/CrptApi.java:133 | the wrapped pool size `requestLimit * 2` is positive exactly for the limits 1 .. 2^30 - 1 and -2^31 + 1 .. -2^30 - 1 |
| Api.CrptApi.constructor | src/main/java/org/example/CrptApi.java:77-84 | a new gateway has an empty deque and the given window and limit; the constructor accepts every `int` limit for which the thread pool of `serverStart` gets a positive size |
| Api.CrptApi.IsNotLimitMax | src/main/java/org/example/CrptApi.java:96-101 | the loop leaves the deque equal to `Evict` of the old deque, and answers true iff fewer than `limit` stamps remain |
| Api.CrptApi.Dispatch | src/main/java/org/example/CrptApi.java:86-94 | the deque ends as `Step` says; if admitted, the handler's answer is returned whatever it is, otherwise the fixed 502 response, and the handler's answer is not used |
| Api.GetPathVariable | src/main/java/org/example/CrptApi.java:123-129 | a returned variable never holds '/' or '?', and it is the second piece of the path split around the route, without its first character; the non-argument failure occurs exactly when the split has no second piece or that piece is empty; the bad-request error occurs exactly when the piece without its first character holds '/' or '?' |
| Api.PathVariableOfRoute | src/main/java/org/example/CrptApi.java:123-128 | for route + "/" + s, where "/" + s holds no further occurrence of the route, the result is s, or the bad-request error when s holds '/' or '?' |
| Api.PathVariableWithoutRoute | src/main/java/org/example/CrptApi.java:125 | a path in which the route does not occur splits into itself alone, so there is no second piece and the non-argument failure results |
| Api.PathVariableOfBareRoute | src/main/java/org/example/CrptApi.java:125 | the route alone splits into no pieces, so indexing fails |
| JavaStrings.IndexOf | src/main/java/org/example/CrptApi.java:125 | the first occurrence of the separator, or -1 exactly when there is none |
| JavaStrings.Pieces | src/main/java/org/example/CrptApi.java:125 | the pieces between the leftmost non-overlapping occurrences, each free of the separator |
| JavaStrings.PiecesAtOccurrence | src/main/java/org/example/CrptApi.java:125 | at the first occurrence of the separator, the pieces are the text before it followed by the pieces of the text after it |
| JavaStrings.JoinPieces | src/main/java/org/example/CrptApi.java:125 | joining the pieces with the separator gives back the original string |
| JavaStrings.TrimTrailingEmpty | src/main/java/org/example/CrptApi.java:125 | the result is a prefix of the pieces that does not end in an empty string, and everything dropped is empty |
| JavaStrings.Split | src/main/java/org/example/CrptApi.java:125 | with no occurrence the result is the whole string alone; otherwise it is the pieces up to the last non-empty one |
| JavaStrings.SplitAfterLeadingSeparator | src/main/java/org/example/CrptApi.java:125 | a string made of the separator and a non-empty rest free of it splits into "" and the rest |
| Trace.QueueIsRecent | src/main/java/org/example/CrptApi.java:86-101 | along a run with a monotone clock, the deque is exactly the admitted stamps inside the window at the last eviction instant, and the admitted stamps are sorted |
| Trace.DecisionIff | src/main/java/org/example/CrptApi.java:88 | along a run with a monotone clock, a request is admitted iff fewer than `limit` earlier admitted stamps lie inside the window at its eviction instant |
| Trace.AtMostLimitPerWindow | src/main/java/org/example/CrptApi.java:86-101 | along a run with a monotone clock, no closed interval of length at most `window` contains more than `limit` admitted stamps, and none at all when the limit is not positive |
| Trace.NoAdmissions | src/main/java/org/example/CrptApi.java:100 | with a limit that is not positive, no request of any run is admitted |
| Trace.CountInAppend | src/main/java/org/example/CrptApi.java:89 | recording one more stamp adds one to the count of an interval exactly when the stamp lies in it |
| Trace.StepFromRecent | src/main/java/org/example/CrptApi.java:88-89 | one step from a deque holding the window's contents of a sorted history decides on the window's contents at the new instant and holds those of the new history |
| Controller.CreateDocs | src/main/java/org/example/CrptApi.java:150-159 | status 200; the text starts with the confirmation, then carries the signature, then ", id=", and ends with the id, so the whole text is fixed |
| Controller.CreateDocsInjective | src/main/java/org/example/CrptApi.java:156 | for ids of one length, the confirmation text determines the signature and the id |
| Controller.HandleCreateDocs | src/main/java/org/example/CrptApi.java:162-183 | 404 iff not POST; 400 iff POST and the body is unreadable or the path variable is a bad request; 500 iff POST, a readable body and the path variable's other failure; 200 iff POST, a readable body and a path variable, and then the confirmation for that variable; every other answer is one of the fixed responses |
| Controller.HandlerNever502 | src/main/java/org/example/CrptApi.java:103-107 | the handler never answers 502 |
| Controller.CreatesWithSegment | src/main/java/org/example/CrptApi.java:163-173 | a POST with a readable body to "/api/create/" + s, where s holds neither '/' nor '?', creates the document with signature s |
| Controller.QueryInSegmentIsBadRequest | src/main/java/org/example/CrptApi.java:126-127 | a final segment holding '?' answers 400 |
| Controller.BareRouteFails | src/main/java/org/example/CrptApi.java:177-180 | a POST to "/api/create" with nothing after it answers 500, or 400 when the body is already unreadable |
| Controller.ServeCreateDocs | src/main/java/org/example/CrptApi.java:86-94 | the create endpoint through the gateway: the deque ends as `Step` says, so an admitted request is counted even when the handler answers 404, 400 or 500; the answer is 502 exactly when the request is turned away |
| Controller.BoundaryScenario | src/main/java/org/example/CrptApi.java:66 | the configured gateway (1000 ms, limit 1) answers POSTs at 0, 1000 and 1001 ms with created, 502 and created |

## Left out

- HttpServer creation, context registration (including its prefix matching of
  paths), the response headers and the writes to the output stream are I/O.
  The model returns the response as a value. The Content-Length, which the
  source computes from the character length, is not modelled.
- Concurrency: the server's thread pool may run handlers in parallel on the
  unsynchronised `ArrayDeque`. The model treats each request as one atomic
  step and claims nothing about thread safety.
- Jackson binding of the body (`createBody`) is abstracted to a readable
  Document or an unreadable body. The latter is the IllegalArgumentException
  that `createBody` throws.
- `UUID.randomUUID()` is the `id` parameter, and the `Thread.sleep(1)` in
  `createDocs` is left out.
- `System.currentTimeMillis()` is the `now` and `stamp` parameters. It is a
  wall clock and may step back. The Trace theorems (`QueueIsRecent`,
  `DecisionIff`, `AtMostLimitPerWindow`) assume a clock that never steps back,
  both between requests and between the two readings of one request. For a
  clock that steps back, the bound on admissions per window is not claimed.
  For example, with window 1000 and limit 1: one request is admitted at 0, and
  the next evicts at 1001 but reads its stamp at 500. Both stamps then lie in
  [0, 1000]. `Step` itself models such runs as the source behaves.
- `TimeUnit.convert`: the window is a non-negative parameter, and its
  configured value is 1000 for SECONDS.
- The `HttpResponse` builder is a plain datatype of status and text.
- `getRequestURI().getPath()` (percent-decoding) is not modelled. The model
  takes the decoded path as given.
- Window.Step: the deque holds unbounded integers, so the source's 64-bit
  `long` overflow of `current - peek` is not modelled.
- Api.GetPathVariable: strings are sequences of Unicode characters. Java's
  `substring(1)` drops one UTF-16 code unit, so for a variable that starts
  with a character outside the Basic Multilingual Plane, Java leaves a lone
  low surrogate where the model drops the whole character.
- JavaStrings.Split: this is the regular-expression split only for a
  separator without metacharacters. That holds for the only route,
  "/api/create". The model's handler requires a non-empty route, as
  `createContext` itself demands a path that begins with '/'.
- The unused constants (host names, port, `successResponse`) are declared or
  omitted without any claim.
