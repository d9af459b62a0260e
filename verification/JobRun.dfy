/** One job from its first attempt to its settled state: the registry of use cases, the processor, the worker's
    classification of errors and the queue's retries. No attempt is lost to a stalled worker. */
module JobRun {
  import opened Wrappers
  import opened JobPayload
  import opened JobEnvelope
  import opened JobIdentity
  import JobPublication

  type UseCaseRef = nat

  /* ---- The registry ---- */

  datatype Definition = Definition(name: Text, useCase: UseCaseRef)

  datatype RegistryFault = EmptyName | AlreadyRegistered

  function RegisterSpec(useCases: map<Text, UseCaseRef>, definition: Definition): Result<map<Text, UseCaseRef>, RegistryFault> {
    if definition.name == [] then Err(EmptyName)
    else if definition.name in useCases then Err(AlreadyRegistered)
    else Ok(useCases[definition.name := definition.useCase])
  }

  /** The constructor's loop, which ends at the first error. */
  function RegisterAllSpec(definitions: seq<Definition>): Result<map<Text, UseCaseRef>, RegistryFault> {
    if definitions == [] then Ok(map[])
    else
      var earlier := RegisterAllSpec(definitions[..|definitions| - 1]);
      if earlier.Err? then earlier else RegisterSpec(earlier.value, definitions[|definitions| - 1])
  }

  /** Every name is there and none is there twice. */
  predicate NamesAreDistinct(definitions: seq<Definition>) {
    && (forall i | 0 <= i < |definitions| :: definitions[i].name != [])
    && (forall i, j | 0 <= i < j < |definitions| :: definitions[i].name != definitions[j].name)
  }

  /** The registry can be built exactly when the names are not empty and distinct, and then it maps each name to its own
      use case and knows no other name. */
  lemma {:induction false} RegistryIsTheDefinitions(definitions: seq<Definition>)
    ensures RegisterAllSpec(definitions).Ok? <==> NamesAreDistinct(definitions)
    ensures RegisterAllSpec(definitions).Ok? ==>
            var useCases := RegisterAllSpec(definitions).value;
            && (forall i | 0 <= i < |definitions| ::
                  definitions[i].name in useCases && useCases[definitions[i].name] == definitions[i].useCase)
            && (forall name | name in useCases :: exists i | 0 <= i < |definitions| :: definitions[i].name == name)
  {
    if definitions != [] {
      var n := |definitions| - 1;
      RegistryIsTheDefinitions(definitions[..n]);
      assert forall i | 0 <= i < n :: definitions[..n][i] == definitions[i];
    }
  }

  class JobUseCaseRegistry {
    var useCases: map<Text, UseCaseRef>

    constructor ()
      ensures useCases == map[]
    {
      useCases := map[];
    }

    method Register(definition: Definition) returns (registered: Result<map<Text, UseCaseRef>, RegistryFault>)
      modifies this
      ensures registered == RegisterSpec(old(useCases), definition)
      ensures useCases == if registered.Ok? then registered.value else old(useCases)
    {
      if |definition.name| == 0 {
        return Err(EmptyName);
      }
      if definition.name in useCases {
        return Err(AlreadyRegistered);
      }
      useCases := useCases[definition.name := definition.useCase];
      registered := Ok(useCases);
    }

    /** What the constructor does with the definitions it is given. */
    method RegisterAll(definitions: seq<Definition>) returns (registered: Result<map<Text, UseCaseRef>, RegistryFault>)
      requires useCases == map[]
      modifies this
      ensures registered == RegisterAllSpec(definitions)
      ensures registered.Ok? ==> useCases == registered.value
    {
      for i := 0 to |definitions|
        invariant RegisterAllSpec(definitions[..i]) == Ok(useCases)
      {
        assert definitions[..i + 1][..i] == definitions[..i];
        registered := Register(definitions[i]);
        if registered.Err? {
          FailedRegistration(definitions, i + 1);
          return;
        }
      }
      assert definitions[..|definitions|] == definitions;
      registered := Ok(useCases);
    }

    method Resolve(name: Text) returns (useCase: Option<UseCaseRef>)
      ensures useCase == if name in useCases then Some(useCases[name]) else None
    {
      if name in useCases {
        return Some(useCases[name]);
      }
      useCase := None;
    }
  }

  lemma {:induction false} FailedRegistration(definitions: seq<Definition>, i: nat)
    requires i <= |definitions| && RegisterAllSpec(definitions[..i]).Err?
    ensures RegisterAllSpec(definitions) == RegisterAllSpec(definitions[..i])
    decreases |definitions|
  {
    if i == |definitions| {
      assert definitions[..i] == definitions;
    } else {
      var n := |definitions| - 1;
      assert definitions[..n][..i] == definitions[..i];
      FailedRegistration(definitions[..n], i);
    }
  }

  /* ---- One attempt ---- */

  /** How a use case ends, and how long it took by a clock that may step back. */
  datatype Attempt = Attempt(outcome: Outcome, elapsed: int)

  datatype Outcome = Resolved | RetryableJobError | TerminalJobError | OtherError

  datatype Context = Context(
    correlationId: string, jobId: JobId, queue: JobPublication.QueueName, jobName: Text, attempt: nat, maxAttempts: nat)

  datatype ErrorCode = RETRYABLE_JOB_ERROR | TERMINAL_JOB_ERROR | UNCLASSIFIED_JOB_ERROR | JOB_USE_CASE_NOT_FOUND

  datatype Event =
    | Started
    | RetryScheduled(code: ErrorCode)
    | FailedTerminally(code: ErrorCode)
    | FailedExhausted(code: ErrorCode)
    | Completed(durationMs: nat)

  /** What the outside sees, in order: log entries and executions of use cases. */
  datatype Effect = Logged(event: Event, about: Context) | Executed(useCase: UseCaseRef, payload: Ref, context: Context)

  datatype QueueJob = QueueJob(context: Context, payload: Ref)

  /** How the handler ends: it returns, or throws one of the two errors of the queue layer. */
  datatype Handled = Returned | QueueRetryable | QueueTerminal

  datatype Step = Step(effects: seq<Effect>, handled: Handled)

  /** JobProcessor.process */
  function ProcessSpec(useCases: map<Text, UseCaseRef>, job: QueueJob, result: Attempt): Step {
    var c := job.context;
    if c.jobName !in useCases then
      Step([Logged(Started, c), Logged(FailedTerminally(JOB_USE_CASE_NOT_FOUND), c)], QueueTerminal)
    else
      var begun := [Logged(Started, c), Executed(useCases[c.jobName], job.payload, c)];
      match result.outcome
      case Resolved => Step(begun + [Logged(Completed(if result.elapsed > 0 then result.elapsed else 0), c)], Returned)
      case RetryableJobError =>
        var event := if c.attempt < c.maxAttempts then RetryScheduled(RETRYABLE_JOB_ERROR) else FailedExhausted(RETRYABLE_JOB_ERROR);
        Step(begun + [Logged(event, c)], QueueRetryable)
      case TerminalJobError => Step(begun + [Logged(FailedTerminally(TERMINAL_JOB_ERROR), c)], QueueTerminal)
      case OtherError => Step(begun + [Logged(FailedTerminally(UNCLASSIFIED_JOB_ERROR), c)], QueueTerminal)
  }

  class JobProcessor {
    const registry: JobUseCaseRegistry
    var trace: seq<Effect>

    constructor (registry: JobUseCaseRegistry)
      ensures this.registry == registry && trace == []
    {
      this.registry := registry;
      trace := [];
    }

    method Process(job: QueueJob, result: Attempt) returns (handled: Handled)
      modifies this
      ensures
        var step := ProcessSpec(registry.useCases, job, result);
        trace == old(trace) + step.effects && handled == step.handled
    {
      var c := job.context;
      var useCase := registry.Resolve(c.jobName);
      trace := trace + [Logged(Started, c)];
      if useCase.None? {
        trace := trace + [Logged(FailedTerminally(JOB_USE_CASE_NOT_FOUND), c)];
        return QueueTerminal;
      }
      trace := trace + [Executed(useCase.value, job.payload, c)];
      if result.outcome == RetryableJobError {
        if c.attempt < c.maxAttempts {
          trace := trace + [Logged(RetryScheduled(RETRYABLE_JOB_ERROR), c)];
        } else {
          trace := trace + [Logged(FailedExhausted(RETRYABLE_JOB_ERROR), c)];
        }
        return QueueRetryable;
      }
      if result.outcome != Resolved {
        var code := if result.outcome == TerminalJobError then TERMINAL_JOB_ERROR else UNCLASSIFIED_JOB_ERROR;
        trace := trace + [Logged(FailedTerminally(code), c)];
        return QueueTerminal;
      }
      trace := trace + [Logged(Completed(if result.elapsed > 0 then result.elapsed else 0), c)];
      handled := Returned;
    }
  }

  /* ---- The worker ---- */

  /** A record of the queue as the worker gets it. The number of attempts may be missing or senseless. */
  datatype Job = Job(
    heap: Heap, queue: JobPublication.QueueName, id: Option<JobId>, name: Text, data: Data, bytes: Option<nat>, attempts: Option<int>)

  datatype Reason = INVALID_JOB_ID | INVALID_JOB_ENVELOPE | TERMINAL_JOB_FAILURE

  /** What the queue is told: done, try again, or an error that must not be retried. */
  datatype Verdict = Done | Retry | Unrecoverable(reason: Reason)

  predicate HexDigit(c: char) {
    'a' <= c <= 'f' || '0' <= c <= '9'
  }

  /** The pattern of generated ids; the ids this system generates match it. */
  predicate GeneratedJobId(id: JobId) {
    match id
    case Generated(_) => true
    case Foreign(text) => |text| == 68 && text[..4] == "job-" && forall i | 4 <= i < 68 :: HexDigit(text[i])
  }

  function MaxAttempts(job: Job): nat {
    var attempts := job.attempts.GetOr(1);
    if attempts > 1 then attempts else 1
  }

  predicate Admissible(job: Job) {
    && job.id.Some? && GeneratedJobId(job.id.value)
    && ParseJobEnvelope(job.heap, job.data, job.bytes).Some?
  }

  /** What the handler is called with. */
  function Handed(job: Job, attemptsMade: nat): QueueJob
    requires Admissible(job)
  {
    var envelope := ParseJobEnvelope(job.heap, job.data, job.bytes).value;
    QueueJob(Context(envelope.correlationId, job.id.value, job.queue, job.name, attemptsMade + 1, MaxAttempts(job)), envelope.payload)
  }

  datatype Round = Round(effects: seq<Effect>, verdict: Verdict)

  /** QueueWorkerPool.#process */
  function WorkerSpec(useCases: map<Text, UseCaseRef>, job: Job, attemptsMade: nat, result: Attempt): Round {
    if job.id.None? || !GeneratedJobId(job.id.value) then Round([], Unrecoverable(INVALID_JOB_ID))
    else if ParseJobEnvelope(job.heap, job.data, job.bytes).None? then Round([], Unrecoverable(INVALID_JOB_ENVELOPE))
    else
      var step := ProcessSpec(useCases, Handed(job, attemptsMade), result);
      Round(step.effects, match step.handled
                          case Returned => Done
                          case QueueRetryable => Retry
                          case QueueTerminal => Unrecoverable(TERMINAL_JOB_FAILURE))
  }

  class QueueWorkerPool {
    const processor: JobProcessor

    constructor (processor: JobProcessor)
      ensures this.processor == processor
    {
      this.processor := processor;
    }

    method Process(job: Job, attemptsMade: nat, result: Attempt) returns (verdict: Verdict)
      modifies processor
      ensures
        var round := WorkerSpec(processor.registry.useCases, job, attemptsMade, result);
        processor.trace == old(processor.trace) + round.effects && verdict == round.verdict
    {
      if job.id.None? || !GeneratedJobId(job.id.value) {
        return Unrecoverable(INVALID_JOB_ID);
      }
      var envelope := ParseJobEnvelope(job.heap, job.data, job.bytes);
      if envelope.None? {
        return Unrecoverable(INVALID_JOB_ENVELOPE);
      }
      var maxAttempts := if job.attempts.GetOr(1) > 1 then job.attempts.GetOr(1) else 1;
      var context := Context(envelope.value.correlationId, job.id.value, job.queue, job.name, attemptsMade + 1, maxAttempts);
      var handled := processor.Process(QueueJob(context, envelope.value.payload), result);
      if handled == QueueRetryable {
        return Retry;
      }
      verdict := if handled == QueueTerminal then Unrecoverable(TERMINAL_JOB_FAILURE) else Done;
    }

    /** One attempt, and what it adds to the trace. */
    method RunOnce(job: Job, attemptsMade: nat, result: Attempt) returns (round: Round)
      modifies processor
      ensures round == WorkerSpec(processor.registry.useCases, job, attemptsMade, result)
      ensures processor.trace == old(processor.trace) + round.effects
    {
      hide WorkerSpec, ProcessSpec;
      var before := |processor.trace|;
      var verdict := Process(job, attemptsMade, result);
      round := Round(processor.trace[before..], verdict);
    }

    /** The queue runs a job until it is settled: a retryable error puts it back while attempts are left, an
        unrecoverable one never does. `script` is what the use case does at each attempt. */
    method RunToSettlement(job: Job, script: nat -> Attempt) returns (state: JobPublication.JobState, rounds: seq<Round>)
      modifies processor
      ensures rounds == Rounds(processor.registry.useCases, job, script, 0)
      ensures processor.trace == old(processor.trace) + Trace(rounds)
      ensures state == Settlement(rounds)
    {
      hide WorkerSpec, ProcessSpec, Trace, Rounds;
      EmptyTrace();
      rounds := [];
      var attemptsMade := 0;
      while true
        invariant 0 <= attemptsMade < MaxAttempts(job)
        invariant Continues(processor.registry.useCases, job, script, rounds, attemptsMade)
        invariant processor.trace == old(processor.trace) + Trace(rounds)
        decreases MaxAttempts(job) - attemptsMade
      {
        var round := RunOnce(job, attemptsMade, script(attemptsMade + 1));
        OneRoundMore(processor.registry.useCases, job, script, rounds, attemptsMade, round);
        TraceGrows(rounds, round);
        rounds := rounds + [round];
        if round.verdict != Retry {
          return if round.verdict == Done then JobPublication.Completed else JobPublication.Failed, rounds;
        }
        attemptsMade := attemptsMade + 1;
        if attemptsMade >= job.attempts.GetOr(1) {
          return JobPublication.Failed, rounds;
        }
      }
    }
  }

  /** The rounds so far are the first ones of the job's life; the rest is what the attempts left will do. */
  predicate Continues(useCases: map<Text, UseCaseRef>, job: Job, script: nat -> Attempt, rounds: seq<Round>, attemptsMade: nat) {
    Rounds(useCases, job, script, 0) == rounds + Rounds(useCases, job, script, attemptsMade)
  }

  /** One iteration: the job goes on exactly after a retry with attempts left, and otherwise its life is complete. */
  lemma OneRoundMore(useCases: map<Text, UseCaseRef>, job: Job, script: nat -> Attempt, rounds: seq<Round>, attemptsMade: nat, round: Round)
    requires Continues(useCases, job, script, rounds, attemptsMade)
    requires round == WorkerSpec(useCases, job, attemptsMade, script(attemptsMade + 1))
    ensures
      if round.verdict == Retry && attemptsMade + 1 < job.attempts.GetOr(1)
      then Continues(useCases, job, script, rounds + [round], attemptsMade + 1)
      else Rounds(useCases, job, script, 0) == rounds + [round]
  {
    hide WorkerSpec, Rounds;
    RoundsUnfold(useCases, job, script, attemptsMade);
  }

  /* ---- The whole life of a job ---- */

  function Rounds(useCases: map<Text, UseCaseRef>, job: Job, script: nat -> Attempt, attemptsMade: nat): seq<Round>
    decreases MaxAttempts(job) - attemptsMade
  {
    var round := WorkerSpec(useCases, job, attemptsMade, script(attemptsMade + 1));
    [round] + if round.verdict == Retry && attemptsMade + 1 < job.attempts.GetOr(1)
              then Rounds(useCases, job, script, attemptsMade + 1) else []
  }

  /** One round more. */
  lemma RoundsUnfold(useCases: map<Text, UseCaseRef>, job: Job, script: nat -> Attempt, attemptsMade: nat)
    ensures
      var round := WorkerSpec(useCases, job, attemptsMade, script(attemptsMade + 1));
      Rounds(useCases, job, script, attemptsMade) ==
        if round.verdict == Retry && attemptsMade + 1 < job.attempts.GetOr(1)
        then [round] + Rounds(useCases, job, script, attemptsMade + 1) else [round]
  {
    hide WorkerSpec;
  }

  function Settlement(rounds: seq<Round>): JobPublication.JobState
    requires rounds != []
  {
    if rounds[|rounds| - 1].verdict == Done then JobPublication.Completed else JobPublication.Failed
  }

  function Trace(rounds: seq<Round>): seq<Effect> {
    if rounds == [] then [] else Trace(rounds[..|rounds| - 1]) + rounds[|rounds| - 1].effects
  }

  lemma EmptyTrace()
    ensures Trace([]) == []
  {
  }

  lemma TraceGrows(rounds: seq<Round>, round: Round)
    ensures Trace(rounds + [round]) == Trace(rounds) + round.effects
  {
    assert (rounds + [round])[..|rounds|] == rounds;
  }

  /** The attempt ends the job: it does not fail in a way that may be retried, or it is the last one. */
  predicate Final(script: nat -> Attempt, attempt: nat, maxAttempts: nat) {
    script(attempt).outcome != RetryableJobError || attempt >= maxAttempts
  }

  /** The number of the attempt that ends a job which has used up some attempts. */
  function LastAttempt(script: nat -> Attempt, attempt: nat, maxAttempts: nat): (last: nat)
    requires attempt <= maxAttempts
    ensures attempt <= last <= maxAttempts && Final(script, last, maxAttempts)
    ensures forall a | attempt <= a < last :: !Final(script, a, maxAttempts)
    decreases maxAttempts - attempt
  {
    if Final(script, attempt, maxAttempts) then attempt else LastAttempt(script, attempt + 1, maxAttempts)
  }

  /** The last of three effects of an attempt that reached its use case. */
  function ClosingEvent(result: Attempt, last: bool): Event {
    match result.outcome
    case Resolved => Completed(if result.elapsed > 0 then result.elapsed else 0)
    case RetryableJobError => if last then FailedExhausted(RETRYABLE_JOB_ERROR) else RetryScheduled(RETRYABLE_JOB_ERROR)
    case TerminalJobError => FailedTerminally(TERMINAL_JOB_ERROR)
    case OtherError => FailedTerminally(UNCLASSIFIED_JOB_ERROR)
  }

  predicate Refused(useCases: map<Text, UseCaseRef>, job: Job) {
    !Admissible(job) || job.name !in useCases
  }

  /** One attempt that reaches the use case. */
  lemma AdmittedRound(useCases: map<Text, UseCaseRef>, job: Job, attemptsMade: nat, result: Attempt)
    requires !Refused(useCases, job) && attemptsMade < MaxAttempts(job)
    ensures
      var round := WorkerSpec(useCases, job, attemptsMade, result);
      var handed := Handed(job, attemptsMade);
      && round.effects == [
           Logged(Started, handed.context),
           Executed(useCases[job.name], handed.payload, handed.context),
           Logged(ClosingEvent(result, attemptsMade + 1 == MaxAttempts(job)), handed.context)]
      && (round.verdict == Retry <==> result.outcome == RetryableJobError)
      && (round.verdict == Done <==> result.outcome == Resolved)
  {
    hide ParseJobEnvelope, GeneratedJobId;
  }

  /** A round is the last one when it is not retried or the attempts are used up. */
  lemma {:induction false} RoundsOfAdmissible(useCases: map<Text, UseCaseRef>, job: Job, script: nat -> Attempt, attemptsMade: nat)
    requires !Refused(useCases, job) && attemptsMade < MaxAttempts(job)
    ensures
      var rounds := Rounds(useCases, job, script, attemptsMade);
      && |rounds| == LastAttempt(script, attemptsMade + 1, MaxAttempts(job)) - attemptsMade
      && forall i | 0 <= i < |rounds| :: rounds[i] == WorkerSpec(useCases, job, attemptsMade + i, script(attemptsMade + i + 1))
    decreases MaxAttempts(job) - attemptsMade
  {
    hide WorkerSpec, Refused, ClosingEvent, Handed, Rounds;
    AdmittedRound(useCases, job, attemptsMade, script(attemptsMade + 1));
    RoundsUnfold(useCases, job, script, attemptsMade);
    if !Final(script, attemptsMade + 1, MaxAttempts(job)) {
      RoundsOfAdmissible(useCases, job, script, attemptsMade + 1);
      var rounds := Rounds(useCases, job, script, attemptsMade);
      var rest := Rounds(useCases, job, script, attemptsMade + 1);
      assert rounds == [rounds[0]] + rest;
      assert forall i | 1 <= i < |rounds| :: rounds[i] == rest[i - 1];
    }
  }

  /** What the closing events of the attempts 1 to k are. */
  lemma ClosingEvents(script: nat -> Attempt, n: nat)
    requires n >= 1
    ensures
      var k := LastAttempt(script, 1, n);
      && 1 <= k <= n
      && (forall a | 1 <= a < k :: script(a).outcome == RetryableJobError)
      && (k < n ==> script(k).outcome != RetryableJobError)
      && (forall a | 1 <= a <= k :: ClosingEvent(script(a), a == n).RetryScheduled? <==> a < k)
      && (forall a | 1 <= a <= k :: ClosingEvent(script(a), a == n).FailedExhausted? <==>
                                    a == n && script(a).outcome == RetryableJobError)
  {
    var k := LastAttempt(script, 1, n);
    forall a | 1 <= a < k
      ensures script(a).outcome == RetryableJobError
    {
      assert !Final(script, a, n);
    }
  }

  /** All that is seen of one attempt of n: the start, one execution, and the event that closes it. */
  function WrittenOut(useCases: map<Text, UseCaseRef>, job: Job, attempt: nat, n: nat, result: Attempt): seq<Effect>
    requires job.data.Fields? && job.data.correlationId.Text? && job.data.payload.Object? && job.id.Some? && job.name in useCases
  {
    var context := Context(job.data.correlationId.s, job.id.value, job.queue, job.name, attempt, n);
    var closing := ClosingEvent(result, attempt == n);
    [Logged(Started, context), Executed(useCases[job.name], job.data.payload.ref, context), Logged(closing, context)]
  }

  /** A job that reaches its use case runs it k times, k being the first attempt that does not fail in a retryable way or
      else the last one allowed. The attempts are numbered 1 to k under one correlation id; each one is started,
      executed once with the envelope's payload and closed by one event: a retry for all but the last, and then
      completion or failure, which is `exhausted` exactly when the last attempt allowed fails in a retryable way. */
  lemma LifeOfAJob(useCases: map<Text, UseCaseRef>, job: Job, script: nat -> Attempt)
    requires !Refused(useCases, job)
    ensures
      && job.data.Fields? && job.data.correlationId.Text? && job.data.payload.Object? && job.id.Some?
      && MaxAttempts(job) == (if job.attempts.Some? && job.attempts.value > 1 then job.attempts.value else 1)
    ensures
      var n := MaxAttempts(job);
      var k := LastAttempt(script, 1, n);
      var rounds := Rounds(useCases, job, script, 0);
      && 1 <= k <= n && |rounds| == k
      && (forall a | 1 <= a < k :: script(a).outcome == RetryableJobError)
      && (k < n ==> script(k).outcome != RetryableJobError)
      && (forall a | 1 <= a <= k :: ClosingEvent(script(a), a == n).RetryScheduled? <==> a < k)
      && (forall a | 1 <= a <= k :: ClosingEvent(script(a), a == n).FailedExhausted? <==>
                                    a == n && script(a).outcome == RetryableJobError)
      && (forall i | 0 <= i < k ::
            rounds[i].effects == WrittenOut(useCases, job, i + 1, n, script(i + 1)))
      && (Settlement(rounds) == JobPublication.Completed <==> script(k).outcome == Resolved)
  {
    hide WorkerSpec, Handed, Rounds, ClosingEvent, LastAttempt, Refused, MaxAttempts;
    var n := MaxAttempts(job);
    AttemptsWrittenOut(useCases, job);
    ClosingEvents(script, n);
    RoundsOfAdmissible(useCases, job, script, 0);
    hide WrittenOut, Settlement;
    var rounds := Rounds(useCases, job, script, 0);
    forall i | 0 <= i < |rounds|
      ensures rounds[i].effects == WrittenOut(useCases, job, i + 1, n, script(i + 1))
      ensures rounds[i].verdict == Done <==> script(i + 1).outcome == Resolved
    {
      RoundWrittenOut(useCases, job, i, script(i + 1));
    }
    SettledByTheLast(rounds);
  }

  lemma SettledByTheLast(rounds: seq<Round>)
    requires rounds != []
    ensures Settlement(rounds) == JobPublication.Completed <==> rounds[|rounds| - 1].verdict == Done
  {
  }

  lemma RoundWrittenOut(useCases: map<Text, UseCaseRef>, job: Job, attemptsMade: nat, result: Attempt)
    requires !Refused(useCases, job) && attemptsMade < MaxAttempts(job)
    requires job.data.Fields? && job.data.correlationId.Text? && job.data.payload.Object? && job.id.Some?
    ensures
      var round := WorkerSpec(useCases, job, attemptsMade, result);
      && round.effects == WrittenOut(useCases, job, attemptsMade + 1, MaxAttempts(job), result)
      && (round.verdict == Done <==> result.outcome == Resolved)
  {
    hide WorkerSpec, Handed, ClosingEvent, Admissible;
    AttemptsWrittenOut(useCases, job);
    AdmittedRound(useCases, job, attemptsMade, result);
    HandedAttempt(job, attemptsMade);
  }

  lemma AttemptsWrittenOut(useCases: map<Text, UseCaseRef>, job: Job)
    requires !Refused(useCases, job)
    ensures Admissible(job) && job.name in useCases && MaxAttempts(job) >= 1
    ensures job.data.Fields? && job.data.correlationId.Text? && job.data.payload.Object? && job.id.Some?
    ensures MaxAttempts(job) == if job.attempts.Some? && job.attempts.value > 1 then job.attempts.value else 1
  {
  }

  /** Every attempt is handed the envelope's own payload and correlation id; only its number changes. */
  lemma HandedAttempt(job: Job, attemptsMade: nat)
    requires Admissible(job)
    ensures job.data.Fields? && job.data.correlationId.Text? && job.data.payload.Object?
    ensures Handed(job, attemptsMade) == QueueJob(
              Context(job.data.correlationId.s, job.id.value, job.queue, job.name, attemptsMade + 1, MaxAttempts(job)),
              job.data.payload.ref)
  {
  }

  /** A job with a bad id or envelope is settled as failed at once and nothing is logged or executed; one without a use
      case is also failed at once, with a log that says so, and nothing is executed. */
  lemma RefusedJobsFailAtOnce(useCases: map<Text, UseCaseRef>, job: Job, script: nat -> Attempt)
    requires Refused(useCases, job)
    ensures
      var rounds := Rounds(useCases, job, script, 0);
      && |rounds| == 1 && Settlement(rounds) == JobPublication.Failed
      && Trace(rounds) ==
           if !Admissible(job) then []
           else [Logged(Started, Handed(job, 0).context),
                 Logged(FailedTerminally(JOB_USE_CASE_NOT_FOUND), Handed(job, 0).context)]
  {
    var rounds := Rounds(useCases, job, script, 0);
    assert rounds[..0] == [];
    assert Trace(rounds[..0]) == [];
  }

  function ExecutionsIn(effects: seq<Effect>): nat {
    if effects == [] then 0
    else ExecutionsIn(effects[..|effects| - 1]) + if effects[|effects| - 1].Executed? then 1 else 0
  }

  lemma {:induction false} ExecutionsAppend(effects: seq<Effect>, more: seq<Effect>)
    ensures ExecutionsIn(effects + more) == ExecutionsIn(effects) + ExecutionsIn(more)
  {
    if more == [] {
      assert effects + more == effects;
    } else {
      var n := |more| - 1;
      assert (effects + more)[..|effects| + n] == effects + more[..n];
      ExecutionsAppend(effects, more[..n]);
    }
  }

  lemma {:induction false} ExecutionsOfRounds(rounds: seq<Round>)
    requires forall i | 0 <= i < |rounds| :: ExecutionsIn(rounds[i].effects) == 1
    ensures ExecutionsIn(Trace(rounds)) == |rounds|
  {
    if rounds != [] {
      var n := |rounds| - 1;
      ExecutionsOfRounds(rounds[..n]);
      ExecutionsAppend(Trace(rounds[..n]), rounds[n].effects);
    }
  }

  lemma OneExecution(started: Effect, executed: Effect, closing: Effect)
    requires started.Logged? && executed.Executed? && closing.Logged?
    ensures ExecutionsIn([started, executed, closing]) == 1
  {
    assert [started, executed, closing] == [started] + [executed] + [closing];
    ExecutionsAppend([started] + [executed], [closing]);
    ExecutionsAppend([started], [executed]);
    assert forall e: Effect :: [e][..0] == [];
  }

  /** What the producer accepted is never refused by the worker for its id or envelope, and over the whole life of the
      job its registered use case is executed at least once and at most as often as the policy allows. */
  lemma PublishedJobsAreExecuted(
      useCases: map<Text, UseCaseRef>, h: Heap, data: Data, bytes: nat, name: Text, key: Text, job: Job, script: nat -> Attempt)
    requires JobPublication.Prepare(h, data, Some(bytes), name, key).Ok? && name in useCases
    requires job.id == Some(JobPublication.Prepare(h, data, Some(bytes), name, key).value) && job.name == name
    requires job.data.Fields? && job.data.version == Some(JOB_CONTRACT_VERSION) && job.data.correlationId == data.correlationId
    requires job.data.payload.Object? && CopyOf(h, data.payload.ref, job.heap, job.data.payload.ref) && job.bytes == Some(bytes)
    ensures !Refused(useCases, job)
    ensures ExecutionsIn(Trace(Rounds(useCases, job, script, 0))) == LastAttempt(script, 1, MaxAttempts(job))
    ensures Handed(job, 0).context.correlationId == data.correlationId.s
  {
    hide Rounds, WorkerSpec, Trace, ExecutionsIn, LastAttempt, Settlement;
    AcceptedEnvelopesSurviveTransport(h, data, job.heap, job.data.payload.ref, bytes);
    AdmittedExactlyWhenRunnable(job);
    ExecutedExactlyWhenRunnable(useCases, job, script);
  }

  /** The jobs that are run: an id as this system generates them, and an acceptable envelope. */
  ghost predicate Runnable(job: Job) {
    && job.id.Some?
    && (match job.id.value
        case Generated(_) => true
        case Foreign(text) =>
          |text| == 68 && text[..4] == "job-" && forall i | 4 <= i < 68 :: '0' <= text[i] <= '9' || 'a' <= text[i] <= 'f')
    && Acceptable(job.heap, job.data, job.bytes)
  }

  lemma AdmittedExactlyWhenRunnable(job: Job)
    ensures Admissible(job) <==> Runnable(job)
  {
    hide ParseJobEnvelope, Acceptable;
    ParsedExactlyWhenAcceptable(job.heap, job.data, job.bytes);
  }

  /** A use case is executed for a job if and only if the job is runnable and its name is registered; then it is executed up to
      the attempt that decides, and never otherwise. */
  lemma ExecutedExactlyWhenRunnable(useCases: map<Text, UseCaseRef>, job: Job, script: nat -> Attempt)
    ensures ExecutionsIn(Trace(Rounds(useCases, job, script, 0))) ==
      if Runnable(job) && job.name in useCases then LastAttempt(script, 1, MaxAttempts(job)) else 0
    ensures !(Runnable(job) && job.name in useCases) ==> Settlement(Rounds(useCases, job, script, 0)) == JobPublication.Failed
  {
    hide Runnable, Admissible, Trace, Rounds, LastAttempt, Settlement, Handed, ExecutionsIn;
    AdmittedExactlyWhenRunnable(job);
    var rounds := Rounds(useCases, job, script, 0);
    if Refused(useCases, job) {
      RefusedJobsFailAtOnce(useCases, job, script);
      NoExecutions(Trace(rounds));
    } else {
      LifeOfAJob(useCases, job, script);
      forall i | 0 <= i < |rounds|
        ensures ExecutionsIn(rounds[i].effects) == 1
      {
        OneExecution(rounds[i].effects[0], rounds[i].effects[1], rounds[i].effects[2]);
      }
      ExecutionsOfRounds(rounds);
    }
  }

  lemma {:induction false} NoExecutions(effects: seq<Effect>)
    requires forall i | 0 <= i < |effects| :: effects[i].Logged?
    ensures ExecutionsIn(effects) == 0
  {
    if effects != [] {
      NoExecutions(effects[..|effects| - 1]);
    }
  }
}
