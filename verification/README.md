# Sessions, sanitizers, limits and jobs: a model with proofs

This project models the parts of the platform whose correctness is spread over several functions or over many
interleaved requests, and proves what they keep. Each module follows one component of the program.

| module | component |
|---|---|
| `RefreshTokens` | instants cut to the second, `issue`, `verify` and `hash` of the refresh-token service |
| `AuthenticationRepository` | the table checks and the three atomic writes `recordSuccessfulLogin`, `create`, `rotate` |
| `AuthenticationProtocol` | logins and refreshes as a transition system: account rows, session rows, signed tokens, requests in flight, history of committed writes, audit counters |
| `AuthenticationInvariants` | what every step keeps |
| `AuthenticationTheorems` | what holds in every run |
| `AuthenticationRefreshes` | what each step of a refresh answers and leaves behind, written out |
| `AuthenticationLogins` | what decides a login: the account at the lookup, at the recording step and at the insert, written out |
| `AuthenticationUseCases` | the use cases as programs, each proved to be a run of the protocol |
| `LogSanitizer` | the log sanitizer over possibly cyclic object graphs with failing reads |
| `LogRendering` | what the log sanitizer puts out, as rules independent of its functions |
| `JobPayload`, `JobEnvelope` | the job-payload validator over the same kind of graphs, and the envelope around it |
| `JobIdentity`, `JobPublication` | job ids, and publishing and removing of records as a transition system |
| `JobRun` | the registry of use cases, the processor, the worker and the retries of one job |
| `RateLimiter` | the fixed-window limiter over the atomic INCR / EXPIRE NX / TTL triple |
| `Cnpj`, `Ewkb`, `LocaleNegotiation`, `TextNormalization` | check digits, the point decoder, Accept-Language, text canonicalisation |

How it is built:

- A request is a chain of atomic steps; between two of its steps any steps of other requests, and any edits of the
  accounts (status, password hash, deletion, MFA), may happen. A step that is not enabled changes nothing, so every
  sequence of events is a run and a theorem about all sequences is a theorem about all runs.
- Clock readings of logins and refreshes are arguments of the steps, and nothing assumes that they grow. The limiter's
  instants are the server's own and do not step back. The rotation is the one of section 4.14.2
  of RFC 9700, with the claims of sections 4.1.4, 4.1.6 and 4.1.7 of RFC 7519; the negotiation follows sections 12.4.2
  and 12.5.4 of RFC 9110.
- The hash and digest functions are injective, a fresh token id or session id is never repeated, and a token verifies only
  if it was signed. These are the only assumptions about cryptography and generated ids.
- Code that updates state is imperative here too: repositories, use cases, limiter, registry, processor, worker and
  producer are classes, and the two graph walks change a shared set in loops. Each method is proved equal to a function
  of its inputs and the old state, and the properties are proved about that function. What the operations
  answer is stated in the end without these functions: over the events of a run, over the graph of a value, or over written-out conditions.

## Where the code differs from what is promised of it

- **Reuse across seconds.** `docs/authentication/README.md:138-145` and `docs/decisions/ADR-011-refresh-token-rotation-and-reuse.md:46-48`
  promise that the second of two concurrent uses of a refresh token revokes the session. For an active session of an
  eligible account the code revokes it if and only if the request's own second is not before the session's last use
  (`AuthenticationTheorems.RotationDecision`). Otherwise `auth_sessions_lifecycle_check` refuses the write, the transaction rolls back, the request fails without an
  audit entry and the session lives on; `AuthenticationTheorems.ReplayAcrossSecondsDoesNotRevoke` is such a run, with
  clocks that only move forward.
- **Device texts the table refuses.** `docs/authentication/README.md:126-129` describes device name and User-Agent as
  sanitized and limited before they are stored. They are cut after they are trimmed, so a cut right after a space leaves a
  trailing space that the table's `btrim` check refuses; and C1 controls (U+0080 to U+009F) pass the sanitizer but not the
  table's `[[:cntrl:]]` check, whose class PostgreSQL fixes to U+0000-U+001F and U+007F-U+009F. These are the only two ways
  in which sanitized text is refused (`TextNormalization.SanitizedTextPassesExactly`, with the instances `CutAfterSpaceExists`
  and `KeptC1Exists`), and the only reason for which an eligible login fails at its insert
  (`AuthenticationLogins.InsertDecision`).
- **Keys with lone surrogates.** `docs/WORKER_QUEUES.md:70-78` promises one job per name and idempotency key. Digests are
  taken of UTF-8, where every lone UTF-16 surrogate becomes U+FFFD, so different accepted keys can share an id. A key has an
  id of its own if and only if it has no lone surrogate and no U+FFFD (`JobIdentity.KeyOwnsItsIdExactlyWithoutReplacement`).
- **Overlapping removals.** `removeSettled` reads the state and removes in separate steps. Two overlapping calls can
  delete a job that was published in between and never ran (`JobPublication.OverlappingRemovalsDeleteANewJob`). A removal
  deletes another record than the one it saw exactly when another call had removed that one
  (`JobPublication.WhatARemovalDeletes`), which cannot happen when removals of one job do not overlap
  (`JobPublication.ExclusiveRemovalsAreSafe`).

## Model

| member | source | states |
|---|---|---|
| RefreshTokens.TruncationIsFloor | packages/useCases/authentication/time.ts:1-3 | cutting an instant gives the greatest whole second not after it, keeps its Unix second, is idempotent, and keeps valid dates valid, before 1970 as well |
| RefreshTokens.VerifiedExactlyWhileLive | packages/services/authentication/refresh-token.ts:118-180 | a well issued token verifies at a valid instant if and only if its second is at least `iat` and before `exp` |
| RefreshTokens.SuccessorIssue | packages/services/authentication/refresh-token.ts:66-116 | after `verify` succeeds at a cut instant, `issue` of the successor never raises its lifetime error, keeps account, session and expiry, and gives a life in 1..2592000 no longer than the presented token's |
| RefreshTokens.LoginIssue | packages/services/authentication/refresh-token.ts:66-116 | a login token is always issued and lives exactly thirty days from the cut instant |
| AuthenticationRepository.RotateTouchesOneRow | packages/repositories/authentication/index.ts:112-187 | `rotate` answers `invalid` exactly when its locked select finds nothing; it changes a row exactly when it answers `reused` or `rotated`, only that row, and the row is active after the one and never active after the other |
| AuthenticationRepository.AuthenticationRepositories.RecordSuccessfulLogin | packages/repositories/authentication/index.ts:42-69 | the conditional update: hit exactly for the expected hash, an active status and no deletion; then last login and update time become maxima and the version grows by one |
| AuthenticationRepository.AuthenticationRepositories.Create | packages/repositories/authentication/index.ts:75-110 | false for an account that is not active and undeleted, an abort for a duplicate id, a refused device column or a refused row, otherwise the new row with version 1 |
| AuthenticationRepository.AuthenticationRepositories.Rotate | packages/repositories/authentication/index.ts:112-187 | the whole transaction: answer and table are those of the specification the protocol theorems are about, including rollback when the table refuses the row |
| AuthenticationRepository.AuthenticationRepositories.UpdateWhere | packages/repositories/authentication/index.ts:141-183 | a guarded update hits exactly an active row with the expected hash; it aborts exactly when the new row is refused |
| AuthenticationRepository.AuthenticationRepositories.Store | packages/models/auth-sessions.ts:107-126 | a row is stored exactly when it meets the lifecycle check and no other row has its hash |
| AuthenticationInvariants.SigningKeepsInv | packages/services/authentication/refresh-token.ts:94-109 | signing one more well issued token with a fresh id keeps every invariant of rows, chains and requests in flight |
| AuthenticationInvariants.RecordLoginInv | packages/useCases/authentication/index.ts:43-63 | the recording step of a login keeps all invariants |
| AuthenticationInvariants.MintLoginInv | packages/useCases/authentication/login.ts:42-59 | minting a login token keeps all invariants; the new session id belongs to this request alone |
| AuthenticationInvariants.InsertSessionInv | packages/repositories/authentication/index.ts:75-110 | inserting the session keeps all invariants, whatever happened since the token was minted; the lifecycle check and the unique indexes never refuse it, so it aborts exactly for an eligible account with a refused device column |
| AuthenticationInvariants.MintRefreshInv | packages/useCases/authentication/refresh-session.ts:28-48 | minting a successor keeps all invariants; it is not yet in any chain and belongs to this request alone |
| AuthenticationInvariants.ExtendedChain | packages/repositories/authentication/index.ts:164-185 | writing the successor's hash over the current one extends the session's chain by it and keeps row and chain in step: `iat` of the current token is `lastUsedAt`, else `createdAt` |
| AuthenticationInvariants.RotatedInv | packages/repositories/authentication/index.ts:164-185 | in every world that satisfies the invariants the rotation of a current token is never refused by the table and never misses its row |
| AuthenticationInvariants.ReusedInv | packages/repositories/authentication/index.ts:140-162 | the reuse write is accepted if and only if the session has no last use after the request's instant; otherwise the transaction aborts |
| AuthenticationInvariants.StepInv | packages/useCases/authentication/refresh-session.ts:25-77 | every step of every login and refresh, and every account edit, keeps the invariants |
| AuthenticationInvariants.RunInv | packages/useCases/authentication/refresh-session.ts:25-77 | the invariants hold along every run, without any assumption on clocks |
| AuthenticationTheorems.EachTokenRotatesOnce | packages/repositories/authentication/index.ts:112-187 | in every run a token is the presented token of at most one successful rotation |
| AuthenticationTheorems.RotationsLeadToCurrentHash | packages/repositories/authentication/index.ts:112-187 | the rotations of a session form one chain without repetition from the token minted at login to the token whose hash the row holds, whose `iat` is `lastUsedAt`, else `createdAt` |
| AuthenticationTheorems.RowsAndAuditCountWrites | packages/repositories/authentication/index.ts:140-183 | every reachable row meets the lifecycle check, written out, with update times no earlier than its uses; version = 1 + rotations + revocations with at most one revocation; the audit counts equal the committed rotations, revocations and logins |
| AuthenticationTheorems.RotationDecision | packages/repositories/authentication/index.ts:112-187 | in every run the outcome of a verified refresh depends only on whether the session is active, its account eligible, the token current, and the last use not after the request's instant: the signed account and expiry never disagree with the row, guarded updates never miss, and the table refuses exactly the late replay |
| AuthenticationTheorems.RowsOnlyMoveForward | packages/repositories/authentication/index.ts:123-185 | along every run the expiry never changes, instants and version never decrease, and a revoked row is never changed again |
| AuthenticationTheorems.RunGrants | packages/useCases/authentication/refresh-session.ts:63-70 | every refresh token handed out is in its session's chain and is announced with its true life |
| AuthenticationTheorems.AnnouncedLifeNeverGrows | packages/services/authentication/refresh-token.ts:80-92 | every token of a chain carries the session's expiry; announced lives lie in 1..2592000, start at thirty days and never grow along the chain |
| AuthenticationLogins.LookupReached | packages/useCases/authentication/index.ts:37-41 | a login that has only been looked up remembers its password and the account's hash, status and MFA flag as they were at its lookup |
| AuthenticationLogins.CredentialsDecision | packages/useCases/authentication/index.ts:43-69 | the recording step, with its whole effect: recorded if and only if the account was active with a hash of the password at the lookup and still has that hash, is active and undeleted now; otherwise rejected and audited as a failure |
| AuthenticationLogins.AuthenticatedWasProved | packages/useCases/authentication/index.ts:37-63 | a login in flight past the credential check looked up its account at some event and was recorded at a later one, with the same hash of the given password, active and undeleted at both; it carries the MFA flag the account had at the lookup |
| AuthenticationLogins.LoginGrantsOnlyToEligible | packages/useCases/authentication/login.ts:33-80 | a login is granted a token of an account only if the account, at the lookup, had MFA off, was active and had a hash of the password; at the recording step still had that hash, was active and undeleted; and at the insert was active and undeleted |
| AuthenticationLogins.MfaIsDecidedByTheLookup | packages/useCases/authentication/login.ts:40-68 | past the credential check a login is refused if and only if its account had MFA on at the lookup; otherwise a token for that account and thirty days is signed and the insert is asked for with the sanitized device |
| AuthenticationLogins.MfaSwitchedOnAfterLookup | packages/useCases/authentication/index.ts:37-63 | a run in which MFA is switched on after the lookup and the login is still granted |
| AuthenticationLogins.InsertDecision | packages/useCases/authentication/login.ts:60-80 | the insert of a login in every run, with its whole effect: rejected if the account is no longer active and undeleted, failed if a device text was cut right after a space or kept a C1 control, and otherwise a new row of the token's account, hash and expiry and the token granted |
| AuthenticationTheorems.LastLoginIsMaximum | packages/repositories/authentication/index.ts:47-50 | in every run `lastLoginAt` is the maximum of its initial value and all committed login times, in whatever order they committed |
| AuthenticationTheorems.ReplayAcrossSecondsDoesNotRevoke | packages/repositories/authentication/index.ts:140-162 | a run in which the second concurrent use of a token does not revoke the session, against the documents |
| AuthenticationRefreshes.RefreshMintDecision | packages/useCases/authentication/refresh-session.ts:28-58 | a presented token passes if and only if it was signed here and the second of the clock lies in its life; then a successor of the same account, session and expiry, issued at that second, is signed and the rotation asked for with both; otherwise the refresh is rejected and audited as a failure |
| AuthenticationRefreshes.RefreshOutcome | packages/useCases/authentication/refresh-session.ts:49-77 | the rotation step in every run, with its whole effect on answer, row, history and audit: rejected, granted the successor, revoked, or failed without a trace |
| AuthenticationRefreshes.GrantedTokenIsCurrent | packages/useCases/authentication/refresh-session.ts:63-70 | whoever is granted a token, by login or refresh, is granted one that was in no chain before and is the session's current token after the step: the row holds its hash, is not revoked, and the announced life is the token's |
| AuthenticationUseCases.OthersKeepRequest | packages/useCases/authentication/refresh-session.ts:28-58 | whatever other requests do between two awaits leaves a request in flight and its answer alone |
| AuthenticationUseCases.RefreshAuthenticationSession.Execute | packages/useCases/authentication/refresh-session.ts:25-71 | the use case, with any steps of others at its awaits, is the mint step followed by the rotation step of the protocol |
| AuthenticationUseCases.RefreshAuthenticationSession.Finish | packages/useCases/authentication/refresh-session.ts:49-77 | from the call of `rotate` to the answer: one protocol step, with exactly one audit event or an error without one |
| AuthenticationUseCases.LoginWithEmailAndPassword.Authenticate | packages/useCases/authentication/index.ts:30-64 | lookup, verification and conditional write are the lookup and recording steps of the protocol |
| AuthenticationUseCases.LoginWithEmailAndPassword.Execute | packages/useCases/authentication/login.ts:33-80 | a malformed device identifier ends the login with nothing changed; any other login, with any steps of others at its awaits, is a run of at most four protocol steps that ends with its answer |
| LogSanitizer.SensitiveValuesDoNotInterfere | packages/plugins/logging/sanitization.ts:199-284 | two graphs that differ only under sensitive or forbidden keys, and in whatever is reachable only through them, give the same output, with the same circular and truncation markers |
| LogSanitizer.ValueInterference | packages/plugins/logging/sanitization.ts:254-276 | the same for every value, depth and set of objects already seen, including the set left behind |
| LogSanitizer.ValueGrowth | packages/plugins/logging/sanitization.ts:199-276 | a walk adds to the set of seen objects at least as many objects as it puts containers into the output, all of them reachable through public slots, and never nests deeper than the levels left |
| LogSanitizer.SizeByContainers | packages/plugins/logging/sanitization.ts:219-251 | an output is at most a constant times larger than its number of containers, because none is wider than 101 |
| LogSanitizer.OutputIsBounded | packages/plugins/logging/sanitization.ts:278-284 | for every cyclic graph with failing reads the output has at most as many containers as the public view has objects, is linear in that number, at most 101 wide and 8 containers deep |
| LogSanitizer.RunSanitizeObject | packages/plugins/logging/sanitization.ts:199-252 | the loop program over the shared set computes the specification and leaves the specified set, also when an exception escapes |
| LogSanitizer.RunSanitizeArray | packages/plugins/logging/sanitization.ts:218-224 | the map over the sliced array stops at the first item that throws and otherwise equals the specification, in order |
| LogSanitizer.RunSanitizeRecord | packages/plugins/logging/sanitization.ts:226-251 | the loop over the keys skips, redacts, sanitizes or marks each of the first hundred entries as specified; failures are caught per key |
| LogSanitizer.RunSanitizeLogValue | packages/plugins/logging/sanitization.ts:278-284 | the entry point always returns, and returns the specified output |
| LogRendering.WalkIsOutput | packages/plugins/logging/sanitization.ts:199-276 | any tree of renderings that follows the local rules has the result and the set of seen objects of the program, at every depth and for every set seen before |
| LogRendering.SanitizedIsRendered | packages/plugins/logging/sanitization.ts:199-284 | the sanitizer returns an output if and only if the rules give it: texts scrubbed, digits, dates, numbers, null, functions, symbols and buffers each in their own way; errors as their scrubbed type; circular exactly for an object expanded before, truncated exactly at depth 8 and after a hundred entries; a sensitive key redacted, a forbidden one dropped, a failing read or value marked, an array given up when an item fails |
| LogRendering.TextsAreScrubbed | packages/plugins/logging/sanitization.ts:152-168 | every text put out is a scrubbed text, the digits of a bigint or a date from the public view of the value, and every error type comes from an error in it |
| JobPayload.UnfoldingIsUnique | packages/plugins/queues/index.ts:155-204 | a value has at most one complete unfolding |
| JobPayload.FiniteVerdict | packages/plugins/queues/index.ts:155-204 | a value with a finite unfolding is accepted or refused as too deep by its height alone, whatever legitimate ancestors it is visited under |
| JobPayload.AcceptedUnfolds | packages/plugins/queues/index.ts:155-204 | whatever is accepted has a finite unfolding |
| JobPayload.AcceptsExactlyFiniteTrees | packages/plugins/queues/index.ts:155-204 | the validator accepts exactly the values whose unfolding is finite, at most twelve deep and made of finite scalars, arrays and plain records without a forbidden key; it reports a cycle only where no finite unfolding exists; without the ancestor test the same values are accepted |
| JobPayload.SharedNodesAreAccepted | packages/plugins/queues/index.ts:181-203 | one object any number of times in an array, or under any number of allowed keys of a record, is accepted when it is accepted alone one level higher up |
| JobPayload.ForbiddenKeysAreSpellings | packages/plugins/queues/index.ts:38-59 | a key is forbidden if and only if it spells one of twenty words, letters in either case and anything but letters and digits in between |
| JobPayload.AssertPayloadValue | packages/plugins/queues/index.ts:155-204 | the program gives the specified verdict, and the ancestor set is restored on every exit, throws included |
| JobPayload.AssertItems | packages/plugins/queues/index.ts:184-188 | the loop over an array ends at the first refused item, with the set restored |
| JobPayload.AssertEntries | packages/plugins/queues/index.ts:193-200 | all values are read before the first key is looked at; the loop ends at the first forbidden key or refused value, with the set restored |
| JobEnvelope.ParsedExactlyWhenAcceptable | packages/plugins/queues/index.ts:235-256 | an envelope is parsed if and only if its version is 1, its correlation id has the identifier's shape, its payload is a plain record with a finite unfolding at most twelve deep without a forbidden key, and it is serialized in at most 16384 bytes |
| JobEnvelope.AcceptedEnvelopesSurviveTransport | packages/plugins/queues/index.ts:235-256 | an envelope the publisher accepted is accepted again by the worker from its serialized copy, however its objects were shared |
| JobIdentity.EncodedScalars | packages/plugins/queues/index.ts:290-294 | decoding and re-encoding a UTF-16 text keeps its length and changes exactly its lone surrogates, to U+FFFD |
| JobIdentity.ValidNamesMatchThePattern | packages/plugins/queues/index.ts:206-210 | a job name is valid if and only if it has at most 128 characters and the automaton of the pattern accepts it |
| JobIdentity.PreimageDecodes | packages/plugins/queues/index.ts:287-296 | the digested `name NUL key` is uniquely decodable for all accepted names and keys |
| JobIdentity.SameIdExactlyForSameParts | packages/plugins/queues/index.ts:206-221 | two accepted identities share an id if and only if the names agree and the keys have the same UTF-8 form; for keys without lone surrogates, if and only if both parts agree |
| JobIdentity.LoneSurrogatesCollide | packages/plugins/queues/index.ts:212-221 | two different accepted keys with one id |
| JobIdentity.KeyOwnsItsIdExactlyWithoutReplacement | packages/plugins/queues/index.ts:212-221 | an accepted key shares its id with no other accepted key if and only if it has no lone surrogate and no U+FFFD |
| JobPublication.RunInv | packages/plugins/queues/index.ts:405-447 | in every run of publishes, worker transitions and removals, every creation is either still there or removed once, and every removal in flight has seen a settled record that is unchanged or gone |
| JobPublication.PublishCreatesExactlyAfterRemoval | packages/plugins/queues/index.ts:405-420 | at the end of any run a publish is without effect exactly while an earlier record of the identity has not been removed; otherwise it creates one waiting record |
| JobPublication.OneRecordUntilRemoved | packages/plugins/queues/index.ts:405-447 | between two creations of one identity the first record was removed by a `removeSettled` that returned true |
| JobPublication.WhatARemovalDeletes | packages/plugins/queues/index.ts:438-447 | every removal saw a settled record; it deletes another record than that one exactly when another call had already removed it, and only then can it delete an unsettled one |
| JobPublication.OverlappingRemovalsDeleteANewJob | packages/plugins/queues/index.ts:438-447 | a run in which two overlapping removals delete a job published in between that is still waiting |
| JobPublication.ExclusiveRemovalsAreSafe | packages/plugins/queues/index.ts:438-447 | in every run where no removal starts while another of the same identity is in flight, each true deletes exactly the settled record it saw and none fails on a lock |
| JobPublication.UndisturbedRemoval | packages/plugins/queues/index.ts:438-447 | a removal whose record nobody touches between its steps answers true and deletes it if and only if its state is completed or failed; for a waiting, active, delayed or absent record it answers false and deletes nothing |
| JobPublication.LastStepOfARemoval | packages/plugins/queues/index.ts:445-446 | the last step alone: a record that is gone counts as removed, an active one is locked, any other is deleted |
| JobPublication.PublishAcceptsExactly | packages/plugins/queues/index.ts:405-413 | exactly what can be published and how the rest is refused: a name of the pattern, an acceptable envelope, a trimmed key of 1 to 512 units without C0 controls or DEL; the id is the digest of name, NUL and key |
| JobPublication.QueueProducer.Publish | packages/plugins/queues/index.ts:405-420 | name, envelope and key are checked in this order; on success one publish step is taken for the id, otherwise nothing changes |
| JobPublication.QueueProducer.RemoveSettled | packages/plugins/queues/index.ts:438-447 | the method, with any steps of others at its awaits, is the look, read and remove steps of the system |
| JobRun.RegistryIsTheDefinitions | packages/useCases/jobs/index.ts:46-69 | the registry can be built exactly when the names are not empty and distinct, and then it resolves exactly those names, each to its own use case |
| JobRun.JobUseCaseRegistry.Register | packages/useCases/jobs/index.ts:55-64 | an empty or known name is refused and changes nothing; another name is added |
| JobRun.JobUseCaseRegistry.RegisterAll | packages/useCases/jobs/index.ts:49-53 | the constructor's loop equals the fold and ends at the first error |
| JobRun.JobProcessor.Process | apps/worker/src/job-processor.ts:31-112 | log entries and execution, in order, and the error thrown, are those of the specification the theorems are about |
| JobRun.QueueWorkerPool.Process | packages/plugins/queues/index.ts:528-557 | a bad id or envelope is unrecoverable without calling the handler; otherwise the handler's outcome decides between done, retry and unrecoverable |
| JobRun.QueueWorkerPool.RunToSettlement | packages/plugins/queues/index.ts:528-557 | the queue's retry loop produces exactly the rounds, the log and the settled state of the specification |
| JobRun.AdmittedRound | apps/worker/src/job-processor.ts:47-111 | an attempt that reaches its use case logs the start, executes once and logs one closing event; it is retried exactly after a retryable error |
| JobRun.LifeOfAJob | apps/worker/src/job-processor.ts:31-112 | a job of n attempts runs k times, k being the first attempt that does not fail in a retryable way, else n; the first k-1 runs log `retry.scheduled`, the last logs exactly one of completed and failed, and `exhausted` appears exactly when attempt n fails in a retryable way; all runs carry the envelope's payload and correlation id and are numbered from 1; the record ends completed exactly when attempt k resolves |
| JobRun.RefusedJobsFailAtOnce | packages/plugins/queues/index.ts:533-541 | a job with a bad id or envelope fails at once without log or execution; one without a use case fails at once with a terminal log entry and no execution |
| JobRun.PublishedJobsAreExecuted | packages/plugins/queues/index.ts:405-420 | what the producer accepted is never refused by the worker, and its registered use case is executed once for each attempt up to the deciding one, under the published correlation id |
| JobRun.ExecutedExactlyWhenRunnable | packages/plugins/queues/index.ts:528-557 | a use case is executed for a job if and only if its id has the generated form, its envelope is acceptable and its name is registered; then once for each attempt up to the deciding one, otherwise never and the job is failed |
| RateLimiter.CounterShape | packages/plugins/redis/index.ts:145-167 | a touched counter is positive and expires one window after its creation |
| RateLimiter.WindowInvariant | packages/middlewares/authentication/index.ts:96-137 | accepted calls in a window against the current counter: the invariant behind the bound |
| RateLimiter.AcceptedPerWindow | packages/middlewares/authentication/index.ts:96-137 | over every schedule of concurrent calls and every half-open interval of window length at most 2·max − 1 calls are accepted, one fewer than the obvious bound |
| RateLimiter.AcceptedPerWindowIsTight | packages/middlewares/authentication/index.ts:96-137 | for all limits, a schedule that reaches 2·max − 1 within one window |
| RateLimiter.AcceptedPerLifetime | packages/middlewares/authentication/index.ts:115-136 | one counter lifetime accepts at most max calls, and exactly its first max when every reported TTL is at least a second |
| RateLimiter.AnswersCountPlaces | packages/middlewares/authentication/index.ts:129-136 | what a client is told: while the current counter has places left, accepted with the number of places left after it, then refused; always with the reported TTL |
| RateLimiter.ReportedTtl | packages/plugins/redis/index.ts:145-167 | no expiry stored by the limiter is more than one window ahead, so the reported TTL is within the window |
| RateLimiter.NoKeyStaysBlocked | packages/plugins/redis/index.ts:148-153 | whatever counter was found, and however many calls were blocked, every schedule that goes on past the expiry the counter then has contains a call accepted with a full window |
| RateLimiter.RetryAfterIsEnough | packages/middlewares/authentication/index.ts:129-131 | a refused client that waits its announced time plus one second and calls next is accepted |
| RateLimiter.RedisCounters.IncrementWithExpiration | packages/plugins/redis/index.ts:145-167 | the triple on one key: the counter grows by one, gets an expiry only if it has none, and an impossible reply is an error |
| RateLimiter.FixedWindowLoginRateLimiter.Consume | packages/middlewares/authentication/index.ts:96-137 | a call extends the schedule of its key by one, answers as that schedule says and touches no other key |
| Cnpj.ValidatorIsTable | packages/models/organizations.ts:135-155 | on every string the fold with the computed first digit and the unrolled sums with the stored first digit accept the same |
| Cnpj.TableAcceptsCanonicalForms | packages/common/organizations/index.ts:77-103 | the table accepts exactly the valid inputs that are written canonically, and an input is valid exactly when the table accepts its normal form |
| Cnpj.NormalizedIsWritten | packages/common/organizations/index.ts:77-82 | a value is normalised to a code if and only if it writes that code, letters in either case and dots, slashes, hyphens and spaces anywhere; so it is valid exactly when it writes a code the table accepts |
| Cnpj.ExactlyOneDigitPair | packages/common/organizations/index.ts:84-103 | every body except twelve zeros has exactly one valid pair of digits; twelve zeros have none |
| Cnpj.SumsAfterReplacement | packages/models/organizations.ts:35-63 | replacing one character moves each sum by its weight times the difference of the codes |
| Cnpj.WeightsCannotBothMiss | packages/common/organizations/index.ts:42-43 | both weighted differences are 0 or ±1 modulo 11 for a difference that is not 0 only at positions 0, 4 and 8, whose two weights sum to 11 |
| Cnpj.ReplacementPassesExactly | packages/common/organizations/index.ts:49-103 | for every valid code and every replacement of one body character: the result is valid if and only if the new character is alphanumeric, not all characters are zeros, and either the codes agree modulo 11, or the position is 0, 4 or 8 and one sum goes from remainder 0 to 1 while the other goes from 1 to 0 |
| Cnpj.SingleReplacementIsCaught | packages/common/organizations/index.ts:49-103 | hence a replacement whose code differs modulo 11 is caught, except possibly at positions 0, 4 and 8 when weight times difference is ±1 modulo 11 |
| Cnpj.CongruentReplacementPasses | packages/common/organizations/index.ts:49-103 | hence an alphanumeric replacement whose code agrees modulo 11 is never caught, unless nothing but zeros is left |
| Cnpj.UnnoticedReplacements | packages/common/organizations/index.ts:84-103 | both exceptions occur, with concrete codes |
| Ewkb.ReadUndoesWrite | packages/models/organization-units.test.ts:19-31 | reading undoes writing of every integer that fits, in both byte orders |
| Ewkb.WriteUndoesRead | packages/models/organization-units.ts:71-95 | writing undoes reading of every byte sequence, in both byte orders |
| Ewkb.ParseUndoesEncode | packages/models/organization-units.ts:52-96 | for every point, both byte orders, with or without SRID 4326, any further type flags, any letter case and any trailing bytes, the parser returns the encoded 64-bit coordinates |
| Ewkb.AcceptedIsEncoding | packages/models/organization-units.ts:52-96 | every accepted string spells an encoding of the returned point, possibly with trailing bytes; everything else is refused, and no read is out of range |
| LocaleNegotiation.SortSorts | packages/plugins/i18next/index.ts:102-104 | the sort gives a permutation ordered by quality, then position |
| LocaleNegotiation.SortAndScanIsBest | packages/plugins/i18next/index.ts:95-116 | map, filter, sort and scan choose the supported or wildcard preference of highest quality above 0, the earliest of several, else the default |
| LocaleNegotiation.SplitOfJoin | packages/plugins/i18next/index.ts:90-96 | splitting the comma join of several headers gives their elements in order |
| LocaleNegotiation.SplitUndoesJoin | packages/plugins/i18next/index.ts:68-96 | splitting undoes joining of pieces without the separator |
| LocaleNegotiation.TagDecides | packages/plugins/i18next/index.ts:29-46 | a tag names a locale exactly when, trimmed, it begins with pt, en or es in either case and ends there or goes on with a hyphen or underscore |
| LocaleNegotiation.QualityDecides | packages/plugins/i18next/index.ts:48-62 | the first parameter named q, in either case and with spaces around its name, decides: its trimmed value if it is a number from 0 to 1, else 0 |
| LocaleNegotiation.NoQualityIsOne | packages/plugins/i18next/index.ts:54-56 | without such a parameter the quality is 1 |
| LocaleNegotiation.ElementDecides | packages/plugins/i18next/index.ts:64-81 | an element is its range and its parameters between semicolons; an empty range says nothing and an asterisk is the wildcard |
| LocaleNegotiation.ResolveIsBest | packages/plugins/i18next/index.ts:83-117 | an absent header, one header and a list of headers all resolve to the best of their elements |
| LocaleNegotiation.IrrelevantIsIgnored | packages/plugins/i18next/index.ts:64-81 | an empty, unwanted or unsupported element anywhere in the list never changes the best one |
| LocaleNegotiation.InsertingIrrelevantElement | packages/plugins/i18next/index.ts:83-117 | inserting such an element between two parts of a header leaves the resolved locale unchanged |
| TextNormalization.NormalizeFixpoints | packages/common/organizations/index.ts:45-47 | whitespace normalisation is idempotent, and its fixpoints, which are also its results, are exactly the trimmed single-spaced strings |
| TextNormalization.NormalizeKeepsWords | packages/common/organizations/index.ts:45-47 | whitespace normalisation keeps the words of a text, in order |
| TextNormalization.ValidTextIsCanonical | packages/common/organization-members/index.ts:6-17 | a member text is valid exactly when it is not empty, short enough, free of controls, trimmed and single-spaced with plain spaces |
| TextNormalization.CleanedShape | packages/common/auth-sessions/index.ts:26-29 | before the cut, session text has no control and no leading, trailing or double space, and clean text is left alone |
| TextNormalization.SanitizedTextPassesExactly | packages/common/auth-sessions/index.ts:20-33 | stored session text has at most the allowed code points, no C0 control or DEL, no double and no leading space; the table accepts it exactly when the cut did not fall right after a space and no C1 control was kept; it is a fixpoint exactly when the cut did not fall right after a space |
| TextNormalization.SanitizedTextKeepsWords | packages/common/auth-sessions/index.ts:20-33 | what is stored is the beginning, up to the maximum, of a text with the same words as the given one, controls counting as spaces; nothing is stored exactly when there are none |
| TextNormalization.CutAfterSpaceExists | packages/models/auth-sessions.ts:99-106 | a user agent cut right after a space, whose sanitized form the table refuses |
| TextNormalization.KeptC1Exists | packages/models/auth-sessions.ts:99-106 | a user agent with a C1 control, neither changed nor cut, which the table refuses |

## Left out

- Cryptography: JWT signing, Argon2id, SHA-256 and HMAC are the injective constructors described above; a token is its
  claims, so other spellings of one signature, header and issuer checks and the token's maximum length are not modelled.
- Access tokens and UUID checks. The device columns are checked when the row is inserted but not kept in the model's rows,
  because no later write touches them; `ip_hash` is always null.
- TextNormalization.SanitizeText: texts are sequences of code points, so device texts with lone surrogates are not modelled; the column lengths equal the sanitizer's maxima and never refuse its result.
- Account creation and e-mail normalisation: an e-mail finds an account by equality of the normalised form.
- PostgreSQL, Redis and BullMQ themselves: only the atomic steps above, without pools, reconnects or stalled jobs. Removing
  an absent record is taken to succeed without effect, and removing an active one is refused.
- AuthenticationProtocol.Enabled: clock readings of logins and refreshes are limited to instants whose thirty-day horizon is a representable Date; beyond it `issue` raises its range error.
- LogRendering.SanitizedIsRendered: the contents of the redacting regular expressions and of the sensitive-key test are parameters of the policy, all of them at once; holes of sparse arrays and the order of integer keys are not modelled.
- LogSanitizer.SanitizeObject: the graph does not change during a walk, so a getter may fail or return anything but not edit other objects; the same holds for the job-payload validator.
- JobEnvelope.ParseJobEnvelope: the size of the serialized envelope is a parameter, absent where serializing throws.
- JobRun.JobProcessor.Process: the request id generated for each attempt, the message texts and the log transport are not modelled.
- JobPublication: `inspect` and closing only read or release; the retry policy's validation and the backoff delays do not influence the number of attempts.
- RateLimiter.FixedWindowLoginRateLimiter.Consume: keys are opaque, so the HMAC key and the normalisation of addresses are not modelled.
- Cnpj.TableAcceptsCanonicalForms: letter case is ASCII, so characters whose upper case has another length are not modelled; the same holds for the lower case in `LocaleNegotiation`.
- LocaleNegotiation.ResolveIsBest: the reading of a q-value as a number is a parameter, for all readings at once.
- Ewkb.ParseUndoesEncode: coordinates are 64-bit patterns; NaN payloads and signed zeros are patterns like any other.
- HTTP routes, controllers, OpenAPI schemas, the error mapper, dependency injection, environment validation, RBAC,
  enums, migrations, lifecycle shells and the web and mobile applications: declarative or branch-local code that would only
  add easy members.
