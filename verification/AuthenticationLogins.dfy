/** What decides a login, over every run: the account as it was at the lookup, at the recording step and at the insert. */
module AuthenticationLogins {
  import opened Wrappers
  import opened RefreshTokens
  import opened AuthenticationRepository
  import opened AuthenticationProtocol
  import opened TextNormalization
  import opened AuthenticationInvariants
  import opened AuthenticationTheorems
  import opened AuthenticationUseCases

  /* ---- The lookup ---- */

  /** The event before n that looked up the account of the request. */
  ghost predicate LookedUpAt(accounts: Accounts, events: seq<Event>, n: nat, j: nat, request: RequestId)
    requires n <= |events|
  {
    && j < n
    && events[j].LoginLookup? && events[j].request == request
    && Enabled(Reached(accounts, events[..j]), events[j])
  }

  /** A login that has only been looked up remembers the password it came with and the account as it was then. */
  lemma {:induction false} LookupReached(accounts: Accounts, events: seq<Event>, n: nat, request: RequestId) returns (j: nat)
    requires n <= |events|
    requires request in Reached(accounts, events[..n]).pending && Reached(accounts, events[..n]).pending[request].LookedUp?
    ensures LookedUpAt(accounts, events, n, j, request)
    ensures
      var p := Reached(accounts, events[..n]).pending[request];
      var seen := Reached(accounts, events[..j]).accounts;
      && p.password == events[j].password
      && (events[j].found.None? ==> p.found.None?)
      && (events[j].found.Some? ==>
            var id := events[j].found.value;
            id in seen && p.found == Some(AccountRecord(id, seen[id].passwordHash, seen[id].status, seen[id].mfaEnabled)))
    decreases n
  {
    hide Step, Run, SameRequest, Enabled;
    assert events[..0] == [];
    NothingPending(accounts);
    var e := events[n - 1];
    var before := Reached(accounts, events[..n - 1]);
    ReachedStep(accounts, events, n - 1);
    if LooksUp(before, e, request) {
      j := n - 1;
      LookupRemembers(before, e, request);
    } else {
      OnlyLookupLooksUp(before, e, request);
      j := LookupReached(accounts, events, n - 1, request);
    }
  }

  lemma NothingPending(accounts: Accounts)
    ensures Reached(accounts, []).pending == map[]
  {
  }

  lemma ReachedStep(accounts: Accounts, events: seq<Event>, n: nat)
    requires n < |events|
    ensures Reached(accounts, events[..n + 1]) == Step(Reached(accounts, events[..n]), events[n])
  {
    hide Step;
    assert events[..n + 1][..n] == events[..n];
  }

  predicate LooksUp(w: World, e: Event, request: RequestId) {
    e.LoginLookup? && e.request == request && Enabled(w, e)
  }

  lemma LookupRemembers(w: World, e: Event, request: RequestId)
    requires LooksUp(w, e, request)
    ensures request in Step(w, e).pending
    ensures
      var p := Step(w, e).pending[request];
      && p.LookedUp? && p.password == e.password
      && (e.found.None? ==> p.found.None?)
      && (e.found.Some? ==>
            var id := e.found.value;
            && Matches(w.accounts, id, e.email)
            && p.found == Some(AccountRecord(id, w.accounts[id].passwordHash, w.accounts[id].status, w.accounts[id].mfaEnabled)))
  {
  }

  /** No other step leaves a request looked up that was not so before. */
  lemma OnlyLookupLooksUp(w: World, e: Event, request: RequestId)
    requires !LooksUp(w, e, request)
    requires request in Step(w, e).pending && Step(w, e).pending[request].LookedUp?
    ensures request in w.pending && w.pending[request] == Step(w, e).pending[request]
  {
    hide RecordLogin, MintLogin, InsertSession, MintRefresh, RotateSession;
    if !Concerns(e, request) {
      StepKeepsRequest(w, e, request);
    } else if Enabled(w, e) {
      OwnStepsMoveOn(w, e, request);
    }
  }

  lemma OwnStepsMoveOn(w: World, e: Event, request: RequestId)
    requires Concerns(e, request) && Enabled(w, e) && !e.LoginLookup?
    ensures request in Step(w, e).pending ==> !Step(w, e).pending[request].LookedUp?
  {
    hide Verify, Issue, RecordSpec, CreateSpec, RotateSpec, Candidate, Sanitized, FreshSessionId, FreshTokenId, ClockReading, ValidIdentifier;
    match e
    case AccountEdited(_, _, _, _, _, _) =>
    case LoginLookup(_, _, _, _) =>
    case LoginRecord(_, clock) => assert Step(w, e) == RecordLogin(w, request, clock);
    case LoginMint(_, clock, sessionId, jti, device) => assert Step(w, e) == MintLogin(w, request, clock, sessionId, jti, device);
    case LoginInsert(_) => assert Step(w, e) == InsertSession(w, request);
    case RefreshMint(_, token, clock, jti) => assert Step(w, e) == MintRefresh(w, request, token, clock, jti);
    case RefreshRotate(_) => assert Step(w, e) == RotateSession(w, request);
  }

  /* ---- The recording step ---- */

  /** The event before n at which the login of the request was recorded for the account, whose record, as it had been
      looked up, said this of MFA. */
  ghost predicate RecordedAt(accounts: Accounts, events: seq<Event>, n: nat, k: nat, request: RequestId, who: (AccountId, bool))
    requires n <= |events|
  {
    && k < n
    && events[k].LoginRecord? && events[k].request == request
    && var w := Reached(accounts, events[..k]);
       && Enabled(w, events[k])
       && var candidate := Candidate(w.pending[request]);
          && candidate.Some? && (candidate.value.id, candidate.value.mfaEnabled) == who
          && PasswordMatches(w.pending[request].password, candidate.value.passwordHash)
          && LoginRecordable(w.accounts, who.0, candidate.value.passwordHash.value)
  }

  /** The account a login in flight has been authenticated for, and whether its record asked for MFA. */
  function AuthenticatedAs(p: Pending): Option<(AccountId, bool)> {
    match p
    case Authenticated(id, mfaEnabled) => Some((id, mfaEnabled))
    case LoginMinted(input, _, _) => Some((input.accountId, false))
    case _ => None
  }

  /** A login in flight past the credential check was recorded by a conditional write. */
  lemma {:induction false} AuthenticatedWasRecorded(accounts: Accounts, events: seq<Event>, n: nat, request: RequestId)
    requires n <= |events|
    requires request in Reached(accounts, events[..n]).pending
    requires AuthenticatedAs(Reached(accounts, events[..n]).pending[request]).Some?
    ensures
      var who := AuthenticatedAs(Reached(accounts, events[..n]).pending[request]).value;
      exists k :: RecordedAt(accounts, events, n, k, request, who)
    decreases n
  {
    hide Step, Candidate, LoginRecordable, Enabled;
    if n > 0 {
      var e := events[n - 1];
      assert events[..n][..n - 1] == events[..n - 1];
      var before := Reached(accounts, events[..n - 1]);
      assert Reached(accounts, events[..n]) == Step(before, e);
      var who := AuthenticatedAs(Step(before, e).pending[request]).value;
      if request in before.pending && AuthenticatedAs(before.pending[request]) == Some(who) {
        AuthenticatedWasRecorded(accounts, events, n - 1, request);
        var k :| RecordedAt(accounts, events, n - 1, k, request, who);
        assert RecordedAt(accounts, events, n, k, request, who);
      } else {
        RecordedByStep(before, e, request, who);
        assert RecordedAt(accounts, events, n, n - 1, request, who);
      }
    }
  }

  /** Only the recording step authenticates a request, and only for the account whose password it proved. */
  lemma RecordedByStep(w: World, e: Event, request: RequestId, who: (AccountId, bool))
    requires request in Step(w, e).pending && AuthenticatedAs(Step(w, e).pending[request]) == Some(who)
    requires !(request in w.pending && AuthenticatedAs(w.pending[request]) == Some(who))
    ensures e.LoginRecord? && e.request == request && Enabled(w, e)
    ensures
      var candidate := Candidate(w.pending[request]);
      && candidate.Some? && (candidate.value.id, candidate.value.mfaEnabled) == who
      && PasswordMatches(w.pending[request].password, candidate.value.passwordHash)
      && LoginRecordable(w.accounts, who.0, candidate.value.passwordHash.value)
  {
    hide RotateSpec, CreateSpec, Verify, Issue, InsertSession, MintLogin, MintRefresh, RotateSession;
    if !e.LoginRecord? {
      OthersAuthenticateNobody(w, e, request, who);
    }
  }

  lemma OthersAuthenticateNobody(w: World, e: Event, request: RequestId, who: (AccountId, bool))
    requires request in Step(w, e).pending && AuthenticatedAs(Step(w, e).pending[request]) == Some(who)
    requires !e.LoginRecord?
    ensures request in w.pending && AuthenticatedAs(w.pending[request]) == Some(who)
  {
    hide RecordLogin, MintLogin, MintRefresh, InsertSession, RotateSession, AuthenticatedAs;
    if Enabled(w, e) {
      match e
      case LoginMint(actor, clock, sessionId, jti, device) => MintingAuthenticatesNobody(w, e, request, who);
      case RefreshMint(actor, token, clock, jti) => MintingAuthenticatesNobody(w, e, request, who);
      case AccountEdited(_, _, _, _, _, _) =>
      case LoginLookup(actor, _, password, found) =>
        if actor == request {
          LookedUpIsNobody(password, Lookup(w.accounts, found));
        }
      case LoginInsert(actor) => InsertingAuthenticatesNobody(w, actor, request);
      case RefreshRotate(actor) => RotatingAuthenticatesNobody(w, actor, request);
    }
  }

  lemma LookedUpIsNobody(password: string, found: Option<AccountRecord>)
    ensures AuthenticatedAs(LookedUp(password, found)) == None
  {
  }

  lemma MintingAuthenticatesNobody(w: World, e: Event, request: RequestId, who: (AccountId, bool))
    requires Enabled(w, e) && (e.LoginMint? || e.RefreshMint?)
    requires request in Step(w, e).pending && AuthenticatedAs(Step(w, e).pending[request]) == Some(who)
    ensures request in w.pending && AuthenticatedAs(w.pending[request]) == Some(who)
  {
    hide Verify, Issue, RecordLogin, InsertSession, RotateSession;
  }

  lemma InsertingAuthenticatesNobody(w: World, actor: RequestId, request: RequestId)
    requires Enabled(w, LoginInsert(actor)) && request in InsertSession(w, actor).pending
    ensures request in w.pending && InsertSession(w, actor).pending[request] == w.pending[request]
  {
    hide CreateSpec;
  }

  lemma RotatingAuthenticatesNobody(w: World, actor: RequestId, request: RequestId)
    requires Enabled(w, RefreshRotate(actor)) && request in RotateSession(w, actor).pending
    ensures request in w.pending && RotateSession(w, actor).pending[request] == w.pending[request]
  {
    hide RotateSpec;
  }

  /** The request looked up the account at event j, when it was undeleted and active, had this e-mail address and a hash of
      the given password; and at event k, when it was recorded, the account still had that hash, was active and undeleted. */
  ghost predicate ProvedAt(accounts: Accounts, events: seq<Event>, n: nat, j: nat, k: nat, request: RequestId, id: AccountId)
    requires n <= |events|
  {
    && j < k < n
    && LookedUpAt(accounts, events, n, j, request) && events[j].found == Some(id)
    && events[k].LoginRecord? && events[k].request == request
    && var seen := Reached(accounts, events[..j]).accounts;
       var now := Reached(accounts, events[..k]).accounts;
       && id in seen && id in now
       && seen[id].deletedAt.None? && seen[id].emailNormalized == Some(events[j].email) && seen[id].status == Active
       && seen[id].passwordHash.Some? && seen[id].passwordHash.value.password == events[j].password
       && now[id].passwordHash == seen[id].passwordHash && now[id].status == Active && now[id].deletedAt.None?
  }

  /** A login in flight past the credential check proved its account, and carries the MFA flag the account had when it was
      looked up. */
  lemma AuthenticatedWasProved(accounts: Accounts, events: seq<Event>, n: nat, request: RequestId) returns (j: nat, k: nat)
    requires n <= |events|
    requires request in Reached(accounts, events[..n]).pending
    requires AuthenticatedAs(Reached(accounts, events[..n]).pending[request]).Some?
    ensures
      var (id, mfaEnabled) := AuthenticatedAs(Reached(accounts, events[..n]).pending[request]).value;
      && ProvedAt(accounts, events, n, j, k, request, id)
      && Reached(accounts, events[..j]).accounts[id].mfaEnabled == mfaEnabled
  {
    hide Run, Step, AuthenticatedAs;
    AuthenticatedWasRecorded(accounts, events, n, request);
    var who := AuthenticatedAs(Reached(accounts, events[..n]).pending[request]).value;
    k :| RecordedAt(accounts, events, n, k, request, who);
    j := LookupReached(accounts, events, k, request);
    LookupRemembers(Reached(accounts, events[..j]), events[j], request);
  }

  /** The recording step decides by the account at the lookup and the account now: with an active record of the given
      password, and that hash, an active status and no deletion still in place, the login is recorded; otherwise it is
      rejected. */
  lemma CredentialsDecision(accounts: Accounts, events: seq<Event>, n: nat) returns (j: nat)
    requires n < |events| && events[n].LoginRecord? && Enabled(Reached(accounts, events[..n]), events[n])
    ensures LookedUpAt(accounts, events, n, j, events[n].request)
    ensures
      var LoginRecord(request, clock) := events[n];
      var w := Reached(accounts, events[..n]);
      var seen := Reached(accounts, events[..j]).accounts;
      var after := Step(w, events[n]);
      if
        && events[j].found.Some?
        && var id := events[j].found.value;
           && id in seen && seen[id].status == Active
           && seen[id].passwordHash.Some? && seen[id].passwordHash.value.password == events[j].password
           && id in w.accounts && w.accounts[id].passwordHash == seen[id].passwordHash
           && w.accounts[id].status == Active && w.accounts[id].deletedAt.None?
      then
        var id := events[j].found.value;
        var now := w.accounts[id];
        after == w.(
          accounts := w.accounts[id := now.(
            lastLoginAt := if now.lastLoginAt.None? || now.lastLoginAt.value < clock then Some(clock) else now.lastLoginAt,
            updatedAt := if now.updatedAt < clock then clock else now.updatedAt,
            version := now.version + 1)],
          pending := w.pending[request := Authenticated(id, seen[id].mfaEnabled)],
          history := w.history + [LoginRecorded(request, id, clock)],
          audit := w.audit.(loginSuccesses := w.audit.loginSuccesses + 1))
      else
        after == w.(
          pending := w.pending - {request},
          responses := w.responses[request := InvalidCredentials],
          audit := w.audit.(loginFailures := w.audit.loginFailures + 1))
  {
    hide Run;
    j := LookupReached(accounts, events, n, events[n].request);
    var w := Reached(accounts, events[..n]);
    assert Step(w, events[n]) == RecordLogin(w, events[n].request, events[n].clock);
    hide Step;
  }

  /* ---- The mint and the insert ---- */

  /** A login hands out a token of an account only if the password matched the account's hash at the lookup, that hash, an
      active status and no deletion held when the login was recorded, the account had MFA off at the lookup, and it was
      still active and undeleted when the session was inserted. */
  lemma LoginGrantsOnlyToEligible(accounts: Accounts, events: seq<Event>, n: nat, request: RequestId) returns (j: nat, k: nat)
    requires n < |events| && events[n] == LoginInsert(request)
    requires
      var before := Reached(accounts, events[..n]);
      && Enabled(before, events[n])
      && Step(before, events[n]).responses[request].Granted?
    ensures
      var before := Reached(accounts, events[..n]);
      var id := Step(before, events[n]).responses[request].refreshToken.accountId;
      && id in before.accounts && before.accounts[id].status == Active && before.accounts[id].deletedAt.None?
      && ProvedAt(accounts, events, n, j, k, request, id)
      && !Reached(accounts, events[..j]).accounts[id].mfaEnabled
  {
    hide Run, Inv, DeviceAccepted, RowAccepted;
    j, k := AuthenticatedWasProved(accounts, events, n, request);
    ReachedInv(accounts, events[..n]);
    OpenedRowFits(Reached(accounts, events[..n]), request);
  }

  /** Past the credential check a login is refused if and only if its account had MFA on at the lookup; the flag at any later
      time has no say. Otherwise a token is signed for that account and exactly thirty days from the second. */
  lemma MfaIsDecidedByTheLookup(accounts: Accounts, events: seq<Event>, n: nat) returns (id: AccountId, j: nat, k: nat)
    requires n < |events| && events[n].LoginMint? && Enabled(Reached(accounts, events[..n]), events[n])
    ensures ProvedAt(accounts, events, n, j, k, events[n].request, id)
    ensures
      var LoginMint(request, clock, sessionId, jti, device) := events[n];
      var w := Reached(accounts, events[..n]);
      var after := Step(w, events[n]);
      var t := Token(jti, id, sessionId, clock / 1000, clock / 1000 + 2_592_000);
      var stored := Device(device.identifier, SanitizeText(device.name, 120), SanitizeText(device.userAgent, 512));
      if Reached(accounts, events[..j]).accounts[id].mfaEnabled
      then after == w.(pending := w.pending - {request}, responses := w.responses[request := InvalidCredentials])
      else after == w.(
        genuine := w.genuine + {t},
        pending := w.pending[request := LoginMinted(CreateInput(sessionId, id, Hash(t), stored, t.exp * 1000, t.iat * 1000), t, 2_592_000)])
  {
    hide Run, SanitizeText, ValidIdentifier, RotateSpec, CreateSpec, FreshSessionId, FreshTokenId;
    var w := Reached(accounts, events[..n]);
    var LoginMint(request, clock, sessionId, jti, device) := events[n];
    id := w.pending[request].accountId;
    j, k := AuthenticatedWasProved(accounts, events, n, request);
    LoginIssue(clock, jti, id, sessionId);
    TruncationIsFloor(clock);
    assert Step(w, events[n]) == MintLogin(w, request, clock, sessionId, jti, device);
    hide Step;
  }

  /* ---- What the device columns decide ---- */

  /** In every run a login about to insert its session is rejected if its account is no longer eligible, fails if a
      device text was cut right after a space or kept a C1 control, and is granted otherwise. */
  lemma InsertDecision(accounts: Accounts, events: seq<Event>, request: RequestId)
    requires Enabled(Reached(accounts, events), LoginInsert(request))
    ensures
      var w := Reached(accounts, events);
      var p := w.pending[request];
      var id := p.token.accountId;
      exists device :: p.insert.device == Sanitized(device) && ValidIdentifier(device.identifier) &&
        Step(w, LoginInsert(request)) ==
          if !(id in w.accounts && w.accounts[id].status == Active && w.accounts[id].deletedAt.None?) then
            w.(pending := w.pending - {request}, responses := w.responses[request := InvalidCredentials])
          else if !Storable(device) then
            w.(pending := w.pending - {request}, responses := w.responses[request := Failed])
          else w.(
            sessions := w.sessions[p.token.sessionId :=
              Session(id, Hash(p.token), p.token.exp * 1000, None, None, p.token.iat * 1000, p.token.iat * 1000, 1)],
            pending := w.pending - {request},
            responses := w.responses[request := Granted(p.token, p.token.exp - p.token.iat)],
            history := w.history + [SessionOpened(p.token.sessionId, p.token)])
  {
    hide Inv, RowAccepted, Storable, ValidIdentifier, Sanitized, DeviceAccepted;
    var w := Reached(accounts, events);
    ReachedInv(accounts, events);
    InsertSessionInv(w, request);
    OpenedRowFits(w, request);
    DevicesReached(accounts, events);
    var device :| w.pending[request].insert.device == Sanitized(device) && ValidIdentifier(device.identifier);
    SanitizedIsAccepted(device);
  }

  /** Neither text of the device is spoilt by its sanitizer. */
  predicate Storable(device: Device) {
    && !CutAfterSpace(device.name, DEVICE_NAME_MAXIMUM_LENGTH) && !KeepsC1(device.name, DEVICE_NAME_MAXIMUM_LENGTH)
    && !CutAfterSpace(device.userAgent, USER_AGENT_MAXIMUM_LENGTH) && !KeepsC1(device.userAgent, USER_AGENT_MAXIMUM_LENGTH)
  }

  lemma SanitizedIsAccepted(device: Device)
    requires ValidIdentifier(device.identifier)
    ensures DeviceAccepted(Sanitized(device)) <==> Storable(device)
  {
    hide ValidIdentifier, SanitizeText, TableTextCheck, CutAfterSpace, KeepsC1;
    SanitizedTextPassesExactly(device.name, DEVICE_NAME_MAXIMUM_LENGTH);
    SanitizedTextPassesExactly(device.userAgent, USER_AGENT_MAXIMUM_LENGTH);
  }

  /** Every device about to be stored came out of the sanitizer. */
  ghost predicate DevicesInv(w: World) {
    forall r | r in w.pending && w.pending[r].LoginMinted? :: IsSanitized(w.pending[r].insert.device)
  }

  ghost predicate IsSanitized(stored: Device) {
    exists device :: stored == Sanitized(device) && ValidIdentifier(device.identifier)
  }

  lemma {:induction false} DevicesReached(accounts: Accounts, events: seq<Event>)
    ensures DevicesInv(Reached(accounts, events))
  {
    hide Step, IsSanitized;
    if events != [] {
      var n := |events| - 1;
      DevicesReached(accounts, events[..n]);
      DevicesAfterStep(Reached(accounts, events[..n]), events[n]);
    }
  }

  lemma DevicesAfterStep(w: World, e: Event)
    requires DevicesInv(w)
    ensures DevicesInv(Step(w, e))
  {
    hide IsSanitized, Sanitized, ValidIdentifier, CreateSpec, RotateSpec, RecordSpec, Verify, Issue;
    if e.LoginMint? && Enabled(w, e) {
      SanitizedIsSanitized(e.device);
    }
  }

  lemma SanitizedIsSanitized(device: Device)
    requires ValidIdentifier(device.identifier)
    ensures IsSanitized(Sanitized(device))
  {
  }

  /* ---- MFA switched on too late ---- */

  const MFA_ACCOUNT := RACE_ACCOUNT.(mfaEnabled := true, version := 2)

  const MFA_RACE: seq<Event> := [
    LoginLookup(1, "ana@example.test", "secret", Some(0)),
    AccountEdited(0, RACE_ACCOUNT.emailNormalized, RACE_ACCOUNT.passwordHash, Active, true, None),
    LoginRecord(1, 5_000),
    LoginMint(1, 5_000, 7, 0, RACE_DEVICE),
    LoginInsert(1)
  ]

  const MFA_LOOKED_UP := RACE_STARTED.(
    accounts := map[0 := MFA_ACCOUNT],
    pending := map[1 := LookedUp("secret", Some(AccountRecord(0, RACE_ACCOUNT.passwordHash, Active, false)))])

  const MFA_MINTED := MFA_LOOKED_UP.(
    accounts := map[0 := LoggedIn(MFA_ACCOUNT, 5_000)],
    genuine := {RACE_TOKEN},
    pending := map[1 := LoginMinted(CreateInput(7, 0, Hash(RACE_TOKEN), RACE_DEVICE, RACE_TOKEN.exp * 1000, 5_000),
                                    RACE_TOKEN, REFRESH_TOKEN_LIFETIME_SECONDS)],
    history := [LoginRecorded(1, 0, 5_000)],
    audit := Audit(1, 0, 0, 0, 0))

  lemma MfaSwitched()
    ensures Step(Step(RACE_STARTED, MFA_RACE[0]), MFA_RACE[1]) == MFA_LOOKED_UP
  {
  }

  lemma MfaMints()
    ensures Step(Step(MFA_LOOKED_UP, MFA_RACE[2]), MFA_RACE[3]) == MFA_MINTED
  {
    var recorded := Step(MFA_LOOKED_UP, MFA_RACE[2]);
    assert recorded.pending == map[1 := Authenticated(0, false)];
  }

  lemma MfaGrants()
    ensures
      var w := Step(MFA_MINTED, MFA_RACE[4]);
      w.accounts == MFA_MINTED.accounts && w.responses.Keys == {1} && w.responses[1].Granted?
  {
  }

  /** A run in which MFA is switched on between the lookup and the recording step, and the login is still granted. */
  lemma MfaSwitchedOnAfterLookup()
    ensures
      var w := Reached(map[0 := RACE_ACCOUNT], MFA_RACE);
      && w.accounts.Keys == {0} && w.accounts[0].mfaEnabled
      && w.responses.Keys == {1} && w.responses[1].Granted?
  {
    hide Step;
    RunTwo(RACE_STARTED, MFA_RACE, 0);
    MfaSwitched();
    RunTwo(RACE_STARTED, MFA_RACE, 2);
    MfaMints();
    MfaGrants();
    assert MFA_RACE[..5][..4] == MFA_RACE[..4] && MFA_RACE[..5] == MFA_RACE;
  }
}
