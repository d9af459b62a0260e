/** The fixed-window login limiter over one atomic INCR / EXPIRE NX / TTL. Instants are server milliseconds. */
module RateLimiter {
  import opened Integers
  import opened Wrappers

  /** A stored counter. Only a counter left behind by something else can lack an expiry. */
  datatype Counter = Counter(value: int, expiresAt: Option<int>)

  /** One call as the server sees it: its instant, whether the stored counter had expired, the TTL it reports. */
  datatype Call = Call(now: int, gone: bool, ttl: int)

  datatype Limits = Limits(maximumAttempts: int, windowSeconds: int)

  datatype Outcome = Accepted(remainingAttempts: int, retryAfterSeconds: int) | Exceeded(retryAfterSeconds: int) | Unavailable

  predicate ValidLimits(limits: Limits) {
    0 < limits.maximumAttempts <= MAXIMUM_SAFE_INTEGER && 0 < limits.windowSeconds <= MAXIMUM_SAFE_INTEGER
  }

  /** The counter the command finds. */
  function Live(stored: Option<Counter>, call: Call): Option<Counter> {
    if call.gone then None else stored
  }

  /** INCR, then EXPIRE NX: a counter keeps the expiry it has, and gets one window if it has none. */
  function Incremented(stored: Option<Counter>, call: Call, windowSeconds: int): Counter {
    var live := Live(stored, call);
    if live.None? then Counter(1, Some(call.now + 1000 * windowSeconds))
    else Counter(live.value.value + 1, Some(live.value.expiresAt.GetOr(call.now + 1000 * windowSeconds)))
  }

  /** What the server may do: a counter is gone strictly after its expiry, alive strictly before, either at it; the
      reported TTL is the remaining time rounded to a neighbouring second in some way. */
  predicate Possible(stored: Option<Counter>, call: Call, windowSeconds: int) {
    && (call.gone ==> stored.Some? && stored.value.expiresAt.Some? && call.now >= stored.value.expiresAt.value)
    && (stored.Some? && stored.value.expiresAt.Some? && call.now > stored.value.expiresAt.value ==> call.gone)
    && var after := Incremented(stored, call, windowSeconds);
       after.expiresAt.value - call.now - 1000 < 1000 * call.ttl < after.expiresAt.value - call.now + 1000
  }

  /** consume, given the reply of the atomic command. */
  function Decide(value: int, ttl: int, limits: Limits): Outcome {
    if !SafeInteger(value) || value < 1 || !SafeInteger(ttl) || ttl < 1 then Unavailable
    else if ttl > limits.windowSeconds then Unavailable
    else if value > limits.maximumAttempts then Exceeded(ttl)
    else Accepted(limits.maximumAttempts - value, ttl)
  }

  /** The counter after a schedule of calls. */
  function After(initial: Option<Counter>, calls: seq<Call>, limits: Limits): Option<Counter> {
    if calls == [] then initial
    else Some(Incremented(After(initial, calls[..|calls| - 1], limits), calls[|calls| - 1], limits.windowSeconds))
  }

  /** A schedule on one key: any number of clients, ordered by the server. */
  predicate Schedule(initial: Option<Counter>, calls: seq<Call>, limits: Limits) {
    calls != [] ==>
      var n := |calls| - 1;
      && Schedule(initial, calls[..n], limits)
      && (n > 0 ==> calls[n - 1].now <= calls[n].now)
      && Possible(After(initial, calls[..n], limits), calls[n], limits.windowSeconds)
  }

  function OutcomeOf(stored: Option<Counter>, call: Call, limits: Limits): Outcome {
    Decide(Incremented(stored, call, limits.windowSeconds).value, call.ttl, limits)
  }

  /** How many calls made in [lo, hi) were accepted. */
  function AcceptedWithin(initial: Option<Counter>, calls: seq<Call>, limits: Limits, lo: int, hi: int): nat {
    if calls == [] then 0
    else
      var n := |calls| - 1;
      AcceptedWithin(initial, calls[..n], limits, lo, hi)
      + (if lo <= calls[n].now < hi && OutcomeOf(After(initial, calls[..n], limits), calls[n], limits).Accepted? then 1 else 0)
  }

  /** The instant at which the current counter was created, if this schedule created it. */
  function CreatedAt(initial: Option<Counter>, calls: seq<Call>, limits: Limits): Option<int> {
    if calls == [] then None
    else
      var n := |calls| - 1;
      if Live(After(initial, calls[..n], limits), calls[n]).None? then Some(calls[n].now)
      else CreatedAt(initial, calls[..n], limits)
  }

  function Least(a: int, b: int): int {
    if a <= b then a else b
  }

  /** Counters are positive and, once touched, expire; one created here expires one window after its creation, and
      never later than one window after the last call. */
  lemma {:induction false} CounterShape(initial: Option<Counter>, calls: seq<Call>, limits: Limits)
    requires ValidLimits(limits) && Schedule(initial, calls, limits) && calls != []
    requires initial.Some? ==> initial.value.value >= 1
    ensures
      var after := After(initial, calls, limits);
      var created := CreatedAt(initial, calls, limits);
      && after.Some? && after.value.value >= 1 && after.value.expiresAt.Some?
      && (created.Some? ==>
            && created.value <= calls[|calls| - 1].now
            && after.value.expiresAt == Some(created.value + 1000 * limits.windowSeconds))
  {
    var n := |calls| - 1;
    if n > 0 {
      CounterShape(initial, calls[..n], limits);
    } else {
      assert calls[..n] == [];
    }
  }

  /** The accepted calls of the window, against the counter that is current: before a counter created in the window
      its own creation took one place, afterwards at most one counter's worth came before. */
  lemma {:induction false} WindowInvariant(initial: Option<Counter>, calls: seq<Call>, limits: Limits, lo: int)
    requires ValidLimits(limits) && Schedule(initial, calls, limits) && calls != []
    requires initial.Some? ==> initial.value.value >= 1
    ensures
      var count := AcceptedWithin(initial, calls, limits, lo, lo + 1000 * limits.windowSeconds);
      var value := Least(After(initial, calls, limits).value.value, limits.maximumAttempts);
      var created := CreatedAt(initial, calls, limits);
      if created.None? || created.value < lo then count <= value - 1
      else if created.value < lo + 1000 * limits.windowSeconds then count <= limits.maximumAttempts - 1 + value
      else count <= 2 * limits.maximumAttempts - 1
    ensures calls[|calls| - 1].now < lo ==> AcceptedWithin(initial, calls, limits, lo, lo + 1000 * limits.windowSeconds) == 0
  {
    var n := |calls| - 1;
    CounterShape(initial, calls, limits);
    if n > 0 {
      CounterShape(initial, calls[..n], limits);
      WindowInvariant(initial, calls[..n], limits, lo);
    } else {
      assert calls[..n] == [];
    }
  }

  /** Over every schedule of concurrent calls and every half-open interval as long as the window, at most
      2 * maximum - 1 calls are accepted. */
  lemma AcceptedPerWindow(initial: Option<Counter>, calls: seq<Call>, limits: Limits, lo: int)
    requires ValidLimits(limits) && Schedule(initial, calls, limits)
    requires initial.Some? ==> initial.value.value >= 1
    ensures AcceptedWithin(initial, calls, limits, lo, lo + 1000 * limits.windowSeconds) <= 2 * limits.maximumAttempts - 1
  {
    if calls != [] {
      WindowInvariant(initial, calls, limits, lo);
    }
  }

  /** Accepted calls since the current counter was created (or since the start, if it was there already). */
  function AcceptedInLifetime(initial: Option<Counter>, calls: seq<Call>, limits: Limits): nat {
    if calls == [] then 0
    else
      var n := |calls| - 1;
      var stored := After(initial, calls[..n], limits);
      (if Live(stored, calls[n]).None? then 0 else AcceptedInLifetime(initial, calls[..n], limits))
      + (if OutcomeOf(stored, calls[n], limits).Accepted? then 1 else 0)
  }

  /** One call: the accepted calls of the current lifetime stay within the counter and the maximum, and equal the lesser of
      them if they did before and the reported TTL is acceptable. */
  lemma LifetimeStep(stored: Option<Counter>, call: Call, limits: Limits, accepted: nat)
    requires ValidLimits(limits) && (stored.Some? ==> stored.value.value >= 1 && accepted <= Least(stored.value.value, limits.maximumAttempts))
    ensures
      var value := Incremented(stored, call, limits.windowSeconds).value;
      var count := (if Live(stored, call).None? then 0 else accepted) + (if OutcomeOf(stored, call, limits).Accepted? then 1 else 0);
      && count <= Least(value, limits.maximumAttempts)
      && (SafeInteger(value) && 1 <= call.ttl <= limits.windowSeconds
          && (stored.Some? ==> accepted == Least(stored.value.value, limits.maximumAttempts)) ==>
            count == Least(value, limits.maximumAttempts))
      && (stored.None? ==> value == 1) && (stored.Some? ==> 1 <= value <= stored.value.value + 1)
  {
  }

  /** One counter lifetime accepts at most the maximum; and as long as every TTL it reported was at least a second and the
      counter started in this schedule, it accepted exactly its first calls up to the maximum. */
  lemma {:induction false} AcceptedPerLifetime(initial: Option<Counter>, calls: seq<Call>, limits: Limits)
    requires ValidLimits(limits) && Schedule(initial, calls, limits) && calls != []
    requires initial.Some? ==> initial.value.value >= 1
    ensures
      var count := AcceptedInLifetime(initial, calls, limits);
      var value := After(initial, calls, limits).value.value;
      && count <= Least(value, limits.maximumAttempts)
      && (initial.None? && |calls| <= MAXIMUM_SAFE_INTEGER && (forall i | 0 <= i < |calls| :: calls[i].ttl >= 1) ==>
            value <= |calls| && count == Least(value, limits.maximumAttempts))
  {
    hide Possible, Incremented, OutcomeOf, Live, Least, CreatedAt;
    var n := |calls| - 1;
    CounterShape(initial, calls, limits);
    if initial.None? {
      ReportedTtl(initial, calls, limits);
    }
    if n > 0 {
      CounterShape(initial, calls[..n], limits);
      AcceptedPerLifetime(initial, calls[..n], limits);
      assert forall i | 0 <= i < n :: calls[..n][i] == calls[i];
      LifetimeStep(After(initial, calls[..n], limits), calls[n], limits, AcceptedInLifetime(initial, calls[..n], limits));
    } else {
      assert calls[..n] == [];
      LeastIsPositive(initial, limits);
      LifetimeStep(initial, calls[n], limits, 0);
    }
  }

  lemma LeastIsPositive(stored: Option<Counter>, limits: Limits)
    requires ValidLimits(limits) && (stored.Some? ==> stored.value.value >= 1)
    ensures stored.Some? ==> Least(stored.value.value, limits.maximumAttempts) >= 1
  {
  }

  /** If the key was free or its counter was made by this limiter, no stored expiry lies more than one window ahead,
      so the reported TTL never exceeds the window. */
  lemma {:induction false} ReportedTtl(initial: Option<Counter>, calls: seq<Call>, limits: Limits)
    requires ValidLimits(limits) && Schedule(initial, calls, limits) && calls != []
    requires initial.None?
    ensures
      var last := calls[|calls| - 1];
      var after := After(initial, calls, limits);
      && after.value.expiresAt.Some?
      && last.now <= after.value.expiresAt.value <= last.now + 1000 * limits.windowSeconds
      && 0 <= last.ttl <= limits.windowSeconds
  {
    var n := |calls| - 1;
    if n > 0 {
      ReportedTtl(initial, calls[..n], limits);
    } else {
      assert calls[..n] == [];
    }
  }

  /** What a client is told, as long as every reported TTL is at least a second: while the current counter has places left, the
      call is accepted and told how many are left after it; after that it is refused. Either way it is told the TTL. */
  lemma AnswersCountPlaces(calls: seq<Call>, limits: Limits)
    requires ValidLimits(limits) && Schedule(None, calls, limits) && calls != []
    requires |calls| <= MAXIMUM_SAFE_INTEGER && forall i | 0 <= i < |calls| :: calls[i].ttl >= 1
    ensures
      var n := |calls| - 1;
      var last := calls[n];
      var taken := if last.gone then 0 else AcceptedInLifetime(None, calls[..n], limits);
      OutcomeOf(After(None, calls[..n], limits), last, limits) ==
        if taken == limits.maximumAttempts then Exceeded(last.ttl)
        else Accepted(limits.maximumAttempts - taken - 1, last.ttl)
  {
    hide Possible, CreatedAt, Schedule;
    var n := |calls| - 1;
    SchedulePrefix(None, calls, n, limits);
    assert calls[..n + 1] == calls;
    ReportedTtl(None, calls, limits);
    AcceptedPerLifetime(None, calls, limits);
    if n > 0 {
      CounterShape(None, calls[..n], limits);
      AcceptedPerLifetime(None, calls[..n], limits);
    } else {
      assert calls[..n] == [];
      GoneNeedsACounter(calls, limits);
    }
  }

  lemma GoneNeedsACounter(calls: seq<Call>, limits: Limits)
    requires |calls| == 1 && Schedule(None, calls, limits)
    ensures !calls[0].gone
  {
    assert calls[..0] == [];
  }

  /* ---- One call more ---- */

  lemma OneMore(initial: Option<Counter>, calls: seq<Call>, call: Call, limits: Limits)
    ensures After(initial, calls + [call], limits) == Some(Incremented(After(initial, calls, limits), call, limits.windowSeconds))
    ensures Schedule(initial, calls + [call], limits) <==>
            && Schedule(initial, calls, limits)
            && (calls != [] ==> calls[|calls| - 1].now <= call.now)
            && Possible(After(initial, calls, limits), call, limits.windowSeconds)
    ensures forall lo, hi :: AcceptedWithin(initial, calls + [call], limits, lo, hi) ==
              AcceptedWithin(initial, calls, limits, lo, hi)
              + (if lo <= call.now < hi && OutcomeOf(After(initial, calls, limits), call, limits).Accepted? then 1 else 0)
  {
    hide Possible, Incremented, OutcomeOf;
    assert (calls + [call])[..|calls|] == calls;
  }

  /* ---- Blocked clients ---- */

  /** A touched counter keeps its expiry until that has come; the call that finds it gone is accepted with a full window. */
  lemma ExpiryStands(stored: Counter, call: Call, limits: Limits)
    requires ValidLimits(limits) && stored.expiresAt.Some? && Possible(Some(stored), call, limits.windowSeconds)
    ensures call.now > stored.expiresAt.value ==> call.gone
    ensures !call.gone ==> Incremented(Some(stored), call, limits.windowSeconds) == Counter(stored.value + 1, stored.expiresAt)
    ensures call.gone ==> OutcomeOf(Some(stored), call, limits) == Accepted(limits.maximumAttempts - 1, limits.windowSeconds)
  {
  }

  /** Nobody is locked out for good: whatever counter was found, even one without an expiry, and however many calls were
      blocked, every schedule that goes on past the expiry it then has contains a call accepted with a full window. */
  lemma {:induction false} NoKeyStaysBlocked(initial: Option<Counter>, calls: seq<Call>, more: seq<Call>, limits: Limits) returns (k: nat)
    requires ValidLimits(limits) && calls != [] && more != [] && Schedule(initial, calls + more, limits)
    requires more[|more| - 1].now > After(initial, calls, limits).value.expiresAt.value
    ensures k < |more|
    ensures OutcomeOf(After(initial, calls + more[..k], limits), more[k], limits) == Accepted(limits.maximumAttempts - 1, limits.windowSeconds)
    decreases |more|
  {
    hide Possible, Incremented, OutcomeOf, Schedule, After;
    SchedulePrefix(initial, calls + more, |calls| + 1, limits);
    assert (calls + more)[..|calls| + 1] == calls + [more[0]];
    OneMore(initial, calls, more[0], limits);
    Touched(initial, calls, limits);
    ExpiryStands(After(initial, calls, limits).value, more[0], limits);
    if more[0].gone {
      k := 0;
      assert calls + more[..0] == calls;
    } else {
      assert calls + more == (calls + [more[0]]) + more[1..];
      var later := NoKeyStaysBlocked(initial, calls + [more[0]], more[1..], limits);
      k := later + 1;
      assert calls + more[..k] == (calls + [more[0]]) + more[1..][..later];
    }
  }

  lemma Touched(initial: Option<Counter>, calls: seq<Call>, limits: Limits)
    requires calls != []
    ensures After(initial, calls, limits).Some? && After(initial, calls, limits).value.expiresAt.Some?
  {
  }

  lemma {:induction false} SchedulePrefix(initial: Option<Counter>, calls: seq<Call>, n: nat, limits: Limits)
    requires n <= |calls| && Schedule(initial, calls, limits)
    ensures Schedule(initial, calls[..n], limits)
    decreases |calls|
  {
    if n < |calls| {
      SchedulePrefix(initial, calls[..|calls| - 1], n, limits);
      assert calls[..|calls| - 1][..n] == calls[..n];
    } else {
      assert calls[..n] == calls;
    }
  }

  /** A refused client that waits its announced time plus one second, and is then the next to call, is accepted. */
  lemma RetryAfterIsEnough(stored: Option<Counter>, call: Call, next: Call, limits: Limits)
    requires ValidLimits(limits) && Possible(stored, call, limits.windowSeconds)
    requires OutcomeOf(stored, call, limits).Exceeded?
    requires Possible(Some(Incremented(stored, call, limits.windowSeconds)), next, limits.windowSeconds)
    requires next.now >= call.now + 1000 * (OutcomeOf(stored, call, limits).retryAfterSeconds + 1)
    ensures OutcomeOf(Some(Incremented(stored, call, limits.windowSeconds)), next, limits).Accepted?
  {
    ExpiryStands(Incremented(stored, call, limits.windowSeconds), next, limits);
  }

  /* ---- The bound is reached ---- */

  function Repeated(call: Call, times: nat): seq<Call> {
    if times == 0 then [] else Repeated(call, times - 1) + [call]
  }

  /** The same call several times on a living counter with enough places left: all of them are accepted. */
  lemma {:induction false} RepeatedAreAccepted(calls: seq<Call>, call: Call, times: nat, limits: Limits, counter: Counter, lo: int)
    requires ValidLimits(limits) && Schedule(None, calls, limits) && calls != [] && After(None, calls, limits) == Some(counter)
    requires calls[|calls| - 1].now <= call.now && !call.gone && 1 <= call.ttl <= limits.windowSeconds
    requires counter.expiresAt.Some? && call.now <= counter.expiresAt.value
    requires counter.expiresAt.value - call.now - 1000 < 1000 * call.ttl < counter.expiresAt.value - call.now + 1000
    requires 0 <= counter.value && counter.value + times <= limits.maximumAttempts
    requires lo <= call.now < lo + 1000 * limits.windowSeconds
    ensures
      var all := calls + Repeated(call, times);
      var hi := lo + 1000 * limits.windowSeconds;
      && Schedule(None, all, limits)
      && After(None, all, limits) == Some(counter.(value := counter.value + times))
      && all[|all| - 1].now <= call.now
      && AcceptedWithin(None, all, limits, lo, hi) == AcceptedWithin(None, calls, limits, lo, hi) + times
  {
    hide Schedule, After, AcceptedWithin;
    if times == 0 {
      assert calls + Repeated(call, 0) == calls;
    } else {
      RepeatedAreAccepted(calls, call, times - 1, limits, counter, lo);
      var all := calls + Repeated(call, times - 1);
      OneMore(None, all, call, limits);
      assert all + [call] == calls + Repeated(call, times);
    }
  }

  /** A first call opens a counter with a full window. */
  lemma OpeningCall(call: Call, limits: Limits, lo: int)
    requires ValidLimits(limits) && !call.gone && call.ttl == limits.windowSeconds && call.now < lo
    ensures Schedule(None, [call], limits)
    ensures After(None, [call], limits) == Some(Counter(1, Some(call.now + 1000 * limits.windowSeconds)))
    ensures AcceptedWithin(None, [call], limits, lo, lo + 1000 * limits.windowSeconds) == 0
  {
    OneMore(None, [], call, limits);
    assert [] + [call] == [call];
  }

  /** A call at the expiry that finds the counter gone opens the next one. */
  lemma ReopeningCall(calls: seq<Call>, counter: Counter, call: Call, limits: Limits, lo: int)
    requires ValidLimits(limits) && Schedule(None, calls, limits) && calls != [] && After(None, calls, limits) == Some(counter)
    requires counter.expiresAt == Some(call.now) && call.gone && call.ttl == limits.windowSeconds
    requires calls[|calls| - 1].now <= call.now && lo <= call.now < lo + 1000 * limits.windowSeconds
    ensures
      var hi := lo + 1000 * limits.windowSeconds;
      && Schedule(None, calls + [call], limits)
      && After(None, calls + [call], limits) == Some(Counter(1, Some(call.now + 1000 * limits.windowSeconds)))
      && AcceptedWithin(None, calls + [call], limits, lo, hi) == AcceptedWithin(None, calls, limits, lo, hi) + 1
  {
    hide Schedule, After, AcceptedWithin;
    OneMore(None, calls, call, limits);
  }

  /** The bound is reached for all limits: one call at the start of a window, all other places of that counter half a
      second before its end, and a whole counter's worth at its end. */
  lemma AcceptedPerWindowIsTight(limits: Limits) returns (calls: seq<Call>)
    requires ValidLimits(limits)
    ensures Schedule(None, calls, limits)
    ensures AcceptedWithin(None, calls, limits, 1, 1 + 1000 * limits.windowSeconds) == 2 * limits.maximumAttempts - 1
  {
    hide Schedule, After, AcceptedWithin, Repeated;
    var end := 1000 * limits.windowSeconds;
    var others := limits.maximumAttempts - 1;
    var opening := Call(0, false, limits.windowSeconds);
    var late := Call(end - 500, false, 1);
    var reopening := Call(end, true, limits.windowSeconds);
    var again := Call(end, false, limits.windowSeconds);
    OpeningCall(opening, limits, 1);
    RepeatedAreAccepted([opening], late, others, limits, Counter(1, Some(end)), 1);
    var first := [opening] + Repeated(late, others);
    ReopeningCall(first, Counter(limits.maximumAttempts, Some(end)), reopening, limits, 1);
    RepeatedAreAccepted(first + [reopening], again, others, limits, Counter(1, Some(2 * end)), 1);
    calls := first + [reopening] + Repeated(again, others);
  }

  /* ---- The program ---- */

  datatype Increment = Increment(value: int, ttlSeconds: int)

  /** The Redis commands the limiter uses, over the counters of the server. */
  class RedisCounters {
    var counters: map<string, Counter>

    constructor ()
      ensures counters == map[]
    {
      counters := map[];
    }

    function Stored(key: string): Option<Counter>
      reads this
    {
      if key in counters then Some(counters[key]) else None
    }

    /** MULTI INCR, EXPIRE NX, TTL EXEC: one atomic step; no reply when the state it reports is not acceptable. */
    method IncrementWithExpiration(key: string, ttlSeconds: int, server: Call) returns (reply: Option<Increment>)
      requires 0 < ttlSeconds <= MAXIMUM_SAFE_INTEGER && Possible(Stored(key), server, ttlSeconds)
      modifies this
      ensures
        var after := Incremented(old(Stored(key)), server, ttlSeconds);
        && counters == old(counters)[key := after]
        && (reply.Some? <==> SafeInteger(after.value) && after.value >= 1 && SafeInteger(server.ttl) && server.ttl >= 1)
        && (reply.Some? ==> reply.value == Increment(after.value, server.ttl))
    {
      if server.gone {
        counters := counters - {key};
      }
      var counter := if key in counters then counters[key] else Counter(0, None);
      counter := counter.(value := counter.value + 1);
      if counter.expiresAt.None? {
        counter := counter.(expiresAt := Some(server.now + 1000 * ttlSeconds));
      }
      counters := counters[key := counter];
      if !SafeInteger(counter.value) || counter.value < 1 || !SafeInteger(server.ttl) || server.ttl < 1 {
        return None;
      }
      reply := Some(Increment(counter.value, server.ttl));
    }
  }

  /** FixedWindowLoginRateLimiter: one counter per client key. */
  class FixedWindowLoginRateLimiter {
    const counter: RedisCounters
    const limits: Limits

    constructor (counter: RedisCounters, limits: Limits)
      requires ValidLimits(limits)
      ensures this.counter == counter && this.limits == limits
    {
      this.counter, this.limits := counter, limits;
    }

    /** Extends the schedule of the key by one call and answers as that schedule says; other keys are untouched. */
    method Consume(key: string, server: Call, ghost initial: Option<Counter>, ghost calls: seq<Call>) returns (outcome: Outcome)
      requires ValidLimits(limits)
      requires Schedule(initial, calls + [server], limits) && counter.Stored(key) == After(initial, calls, limits)
      modifies counter
      ensures outcome == OutcomeOf(old(counter.Stored(key)), server, limits)
      ensures counter.Stored(key) == After(initial, calls + [server], limits)
      ensures counter.counters - {key} == old(counter.counters) - {key}
    {
      assert (calls + [server])[..|calls|] == calls;
      var increment := counter.IncrementWithExpiration(key, limits.windowSeconds, server);
      if increment.None? {
        return Unavailable;
      }
      var Increment(value, ttlSeconds) := increment.value;
      if !SafeInteger(value) || value < 1 || !SafeInteger(ttlSeconds) || ttlSeconds < 1 || ttlSeconds > limits.windowSeconds {
        return Unavailable;
      }
      if value > limits.maximumAttempts {
        return Exceeded(ttlSeconds);
      }
      outcome := Accepted(limits.maximumAttempts - value, ttlSeconds);
    }
  }
}
