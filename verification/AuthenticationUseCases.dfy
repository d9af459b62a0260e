/** The use cases as programs. At every await the other requests run: `others` is what they do meanwhile.
    Each use case is proved to be a run of the protocol, so all its theorems apply. */
module AuthenticationUseCases {
  import opened Wrappers
  import opened RefreshTokens
  import opened AuthenticationRepository
  import opened AuthenticationProtocol
  import opened TextNormalization

  /** The event is a step of the request. */
  predicate Concerns(e: Event, request: RequestId) {
    !e.AccountEdited? && e.request == request
  }

  predicate Foreign(events: seq<Event>, request: RequestId) {
    forall e | e in events :: !Concerns(e, request)
  }

  /** The two worlds remember the same of the request. */
  predicate SameRequest(before: World, after: World, request: RequestId) {
    && (request in after.pending <==> request in before.pending)
    && (request in before.pending ==> after.pending[request] == before.pending[request])
    && (request in after.responses <==> request in before.responses)
    && (request in before.responses ==> after.responses[request] == before.responses[request])
  }

  /** What the other requests do leaves a request in flight, and its answer, alone. */
  lemma {:induction false} OthersKeepRequest(w: World, others: seq<Event>, request: RequestId)
    requires Foreign(others, request)
    ensures SameRequest(w, Run(w, others), request)
  {
    hide Step;
    if others != [] {
      var n := |others| - 1;
      OthersKeepRequest(w, others[..n], request);
      StepKeepsRequest(Run(w, others[..n]), others[n], request);
    }
  }

  lemma StepKeepsRequest(w: World, e: Event, request: RequestId)
    requires !Concerns(e, request)
    ensures SameRequest(w, Step(w, e), request)
  {
    hide RecordLogin, MintLogin, InsertSession, MintRefresh, RotateSession;
    if Enabled(w, e) {
      match e
      case AccountEdited(_, _, _, _, _, _) =>
      case LoginLookup(_, _, _, _) =>
      case LoginRecord(_, _) => LoginStepsKeepRequest(w, e, request);
      case LoginMint(_, _, _, _, _) => LoginStepsKeepRequest(w, e, request);
      case LoginInsert(_) => LoginStepsKeepRequest(w, e, request);
      case RefreshMint(_, _, _, _) => RefreshStepsKeepRequest(w, e, request);
      case RefreshRotate(_) => RefreshStepsKeepRequest(w, e, request);
    }
  }

  lemma LoginStepsKeepRequest(w: World, e: Event, request: RequestId)
    requires !Concerns(e, request) && Enabled(w, e)
    requires e.LoginRecord? || e.LoginMint? || e.LoginInsert?
    ensures SameRequest(w, Step(w, e), request)
  {
    hide Issue, RecordSpec, CreateSpec, Candidate, MintRefresh, RotateSession;
  }

  lemma RefreshStepsKeepRequest(w: World, e: Event, request: RequestId)
    requires !Concerns(e, request) && Enabled(w, e)
    requires e.RefreshMint? || e.RefreshRotate?
    ensures SameRequest(w, Step(w, e), request)
  {
    hide Verify, Issue, RotateSpec, RecordLogin, MintLogin, InsertSession;
  }

  /** The database, the signing key's history, the requests in flight and the audit. */
  class Runtime {
    const repositories: AuthenticationRepositories
    var genuine: set<Token>
    var pending: map<RequestId, Pending>
    var responses: map<RequestId, Response>
    var history: seq<Commit>
    var audit: Audit

    constructor (accounts: Accounts)
      ensures World() == Initial(accounts) && fresh(repositories)
    {
      repositories := new AuthenticationRepositories(accounts);
      genuine, pending, responses, history, audit := {}, map[], map[], [], Audit(0, 0, 0, 0, 0);
    }

    function World(): World
      reads this, repositories
    {
      AuthenticationProtocol.World.World(
        repositories.accounts, repositories.sessions, genuine, pending, responses, history, audit)
    }

    /** The other requests take their steps. */
    method Interleave(others: seq<Event>)
      modifies this, repositories
      ensures World() == Run(old(World()), others)
    {
      for i := 0 to |others|
        invariant World() == Run(old(World()), others[..i])
      {
        var next := Step(World(), others[i]);
        assert others[..i + 1][..i] == others[..i];
        repositories.accounts, repositories.sessions := next.accounts, next.sessions;
        genuine, pending, responses := next.genuine, next.pending, next.responses;
        history, audit := next.history, next.audit;
      }
      assert others[..|others|] == others;
    }

    method End(request: RequestId, response: Response)
      modifies this
      ensures World() == Answer(old(World()), request, response)
    {
      pending := pending - {request};
      responses := responses[request := response];
    }
  }

  /** RefreshAuthenticationSession */
  class RefreshAuthenticationSession {
    const runtime: Runtime

    constructor (runtime: Runtime)
      ensures this.runtime == runtime
    {
      this.runtime := runtime;
    }

    method Execute(request: RequestId, refreshToken: Token, clock: int, jti: TokenId, others: seq<Event>)
      returns (response: Response)
      requires Enabled(runtime.World(), RefreshMint(request, refreshToken, clock, jti)) && Foreign(others, request)
      modifies runtime, runtime.repositories
      ensures request in runtime.responses && runtime.responses[request] == response
      ensures
        var minted := Step(old(runtime.World()), RefreshMint(request, refreshToken, clock, jti));
        runtime.World() ==
          if request in minted.responses then minted
          else Step(Run(minted, others), RefreshRotate(request))
    {
      var usedAt := AuthenticationTokenIssuedAt(clock);
      var verified := Verify(runtime.genuine, refreshToken, usedAt);
      if verified.None? {
        response := RejectRefresh(request, false);
        return;
      }
      var issued := Issue(jti, verified.value.accountId, verified.value.sessionId, usedAt, Some(verified.value.expiresAt));
      if issued.Err? {
        runtime.End(request, Failed);
        return Failed;
      }
      var successor := issued.value.token;
      var input := RotateInput(verified.value.sessionId, verified.value.accountId, Hash(refreshToken), Hash(successor),
                               verified.value.expiresAt, usedAt);
      runtime.genuine := runtime.genuine + {successor};
      runtime.pending := runtime.pending[request := RefreshMinted(input, refreshToken, successor, issued.value.expiresInSeconds)];
      ghost var minted := runtime.World();
      runtime.Interleave(others);
      OthersKeepRequest(minted, others, request);
      response := Finish(request, input, refreshToken, successor, issued.value.expiresInSeconds);
    }

    /** From the call of rotate to the answer. */
    method Finish(request: RequestId, input: RotateInput, presented: Token, successor: Token, expiresIn: int)
      returns (response: Response)
      requires request in runtime.pending && runtime.pending[request] == RefreshMinted(input, presented, successor, expiresIn)
      modifies runtime, runtime.repositories
      ensures request in runtime.responses && runtime.responses[request] == response
      ensures runtime.World() == Step(old(runtime.World()), RefreshRotate(request))
    {
      var result := runtime.repositories.Rotate(input);
      if result.Aborted? {
        runtime.End(request, Failed);
        return Failed;
      }
      if result.value == Reused {
        runtime.history := runtime.history + [SessionRevoked(input.sessionId, presented, input.usedAt)];
        response := RejectRefresh(request, true);
        return;
      }
      if result.value != Rotated {
        response := RejectRefresh(request, false);
        return;
      }
      runtime.history := runtime.history + [SessionRotated(input.sessionId, presented, successor, input.usedAt)];
      runtime.audit := runtime.audit.(refreshSuccesses := runtime.audit.refreshSuccesses + 1);
      response := Granted(successor, expiresIn);
      runtime.End(request, response);
    }

    method RejectRefresh(request: RequestId, reused: bool) returns (response: Response)
      modifies runtime
      ensures response == InvalidRefreshToken
      ensures runtime.World() == Answer(old(runtime.World()), request, response).(audit :=
        if reused then old(runtime.audit).(refreshReuses := old(runtime.audit).refreshReuses + 1)
        else old(runtime.audit).(refreshFailures := old(runtime.audit).refreshFailures + 1))
    {
      if reused {
        runtime.audit := runtime.audit.(refreshReuses := runtime.audit.refreshReuses + 1);
      } else {
        runtime.audit := runtime.audit.(refreshFailures := runtime.audit.refreshFailures + 1);
      }
      response := InvalidRefreshToken;
      runtime.End(request, response);
    }
  }

  /** LoginWithEmailAndPassword, with the credential check of AuthenticateWithEmailAndPassword inside. */
  class LoginWithEmailAndPassword {
    const runtime: Runtime

    constructor (runtime: Runtime)
      ensures this.runtime == runtime
    {
      this.runtime := runtime;
    }

    /** Lookup, verification and the conditional write; the request stays in flight when it succeeds. */
    method Authenticate(request: RequestId, email: string, password: string, found: Option<AccountId>, clock: int, others: seq<Event>)
      returns (account: Option<AccountRecord>)
      requires Enabled(runtime.World(), LoginLookup(request, email, password, found)) && Foreign(others, request)
      requires ClockReading(clock)
      modifies runtime, runtime.repositories
      ensures
        var looked := Step(old(runtime.World()), LoginLookup(request, email, password, found));
        runtime.World() == Step(Run(looked, others), LoginRecord(request, clock))
      ensures account.Some? ==>
        request in runtime.pending && runtime.pending[request] == Authenticated(account.value.id, account.value.mfaEnabled)
      ensures account.None? ==>
        request in runtime.responses && runtime.responses[request] == InvalidCredentials && request !in runtime.pending
    {
      var record := Lookup(runtime.repositories.accounts, found);
      runtime.pending := runtime.pending[request := LookedUp(password, record)];
      ghost var looked := runtime.World();
      runtime.Interleave(others);
      OthersKeepRequest(looked, others, request);
      account := Record(request, password, record, clock);
    }

    /** From the verified password to the outcome of the conditional write. */
    method Record(request: RequestId, password: string, record: Option<AccountRecord>, clock: int)
      returns (account: Option<AccountRecord>)
      requires Enabled(runtime.World(), LoginRecord(request, clock))
      requires runtime.pending[request] == LookedUp(password, record)
      modifies runtime, runtime.repositories
      ensures runtime.World() == Step(old(runtime.World()), LoginRecord(request, clock))
      ensures account.Some? ==>
        request in runtime.pending && runtime.pending[request] == Authenticated(account.value.id, account.value.mfaEnabled)
      ensures account.None? ==>
        request in runtime.responses && runtime.responses[request] == InvalidCredentials && request !in runtime.pending
    {
      var passwordMatches := record.Some? && PasswordMatches(password, record.value.passwordHash);
      if !passwordMatches || record.value.status != Active || record.value.passwordHash.None? {
        RejectCredentials(request);
        return None;
      }
      var loginRecorded := runtime.repositories.RecordSuccessfulLogin(record.value.id, record.value.passwordHash.value, clock);
      if !loginRecorded {
        RejectCredentials(request);
        return None;
      }
      runtime.audit := runtime.audit.(loginSuccesses := runtime.audit.loginSuccesses + 1);
      runtime.history := runtime.history + [LoginRecorded(request, record.value.id, clock)];
      runtime.pending := runtime.pending[request := Authenticated(record.value.id, record.value.mfaEnabled)];
      account := record;
    }

    method RejectCredentials(request: RequestId)
      modifies runtime
      ensures runtime.World() == AuthenticationProtocol.RejectCredentials(old(runtime.World()), request)
    {
      runtime.audit := runtime.audit.(loginFailures := runtime.audit.loginFailures + 1);
      runtime.End(request, InvalidCredentials);
    }

    /** From the authenticated account to the tokens: the second clock reading, the mint and the insert. */
    method Open(request: RequestId, account: AccountRecord, clock: int, sessionId: SessionId, jti: TokenId, device: Device,
                others: seq<Event>)
      returns (response: Response)
      requires request in runtime.pending && runtime.pending[request] == Authenticated(account.id, account.mfaEnabled)
      requires Enabled(runtime.World(), LoginMint(request, clock, sessionId, jti, device)) && Foreign(others, request)
      requires request !in runtime.responses
      modifies runtime, runtime.repositories
      ensures request in runtime.responses && runtime.responses[request] == response && response != InvalidInput
      ensures
        var minted := Step(old(runtime.World()), LoginMint(request, clock, sessionId, jti, device));
        runtime.World() ==
          if request in minted.responses then minted
          else Step(Run(minted, others), LoginInsert(request))
    {
      hide SanitizeText, ValidIdentifier;
      if account.mfaEnabled {
        runtime.End(request, InvalidCredentials);
        return InvalidCredentials;
      }
      var issuedAt := AuthenticationTokenIssuedAt(clock);
      var issued := Issue(jti, account.id, sessionId, issuedAt, None);
      if issued.Err? {
        runtime.End(request, Failed);
        return Failed;
      }
      var token := issued.value.token;
      var deviceName := SanitizeText(device.name, DEVICE_NAME_MAXIMUM_LENGTH);
      var userAgent := SanitizeText(device.userAgent, USER_AGENT_MAXIMUM_LENGTH);
      var input := CreateInput(sessionId, account.id, Hash(token), device.(name := deviceName, userAgent := userAgent),
                               issued.value.expiresAt, issuedAt);
      runtime.genuine := runtime.genuine + {token};
      runtime.pending := runtime.pending[request := LoginMinted(input, token, issued.value.expiresInSeconds)];
      ghost var minted := runtime.World();
      runtime.Interleave(others);
      OthersKeepRequest(minted, others, request);
      response := Insert(request, input, token, issued.value.expiresInSeconds);
    }

    /** From the call of create to the answer. */
    method Insert(request: RequestId, input: CreateInput, token: Token, expiresIn: int) returns (response: Response)
      requires request in runtime.pending && runtime.pending[request] == LoginMinted(input, token, expiresIn)
      modifies runtime, runtime.repositories
      ensures request in runtime.responses && runtime.responses[request] == response && response != InvalidInput
      ensures runtime.World() == Step(old(runtime.World()), LoginInsert(request))
    {
      var sessionCreated := runtime.repositories.Create(input);
      if sessionCreated.Aborted? {
        response := Failed;
      } else if !sessionCreated.value {
        response := InvalidCredentials;
      } else {
        runtime.history := runtime.history + [SessionOpened(input.id, token)];
        response := Granted(token, expiresIn);
      }
      runtime.End(request, response);
    }

    /** A malformed device identifier ends the login before anything else happens. */
    method Execute(request: RequestId, email: string, password: string, device: Device, found: Option<AccountId>,
                   recordClock: int, mintClock: int, sessionId: SessionId, jti: TokenId, during: seq<Event>, before: seq<Event>)
      returns (response: Response)
      requires Enabled(runtime.World(), LoginLookup(request, email, password, found))
      requires ClockReading(recordClock) && ClockReading(mintClock) && Foreign(during, request) && Foreign(before, request)
      requires
        var met := Run(Step(runtime.World(), LoginLookup(request, email, password, found)), during);
        FreshSessionId(met, sessionId) && FreshTokenId(met.genuine, jti)
      modifies runtime, runtime.repositories
      ensures response == InvalidInput <==> !ValidIdentifier(device.identifier)
      ensures response == InvalidInput ==> runtime.World() == old(runtime.World())
      ensures response != InvalidInput ==>
        && request in runtime.responses && runtime.responses[request] == response
        && var looked := Step(old(runtime.World()), LoginLookup(request, email, password, found));
           var recorded := Step(Run(looked, during), LoginRecord(request, recordClock));
           var minted := Step(recorded, LoginMint(request, mintClock, sessionId, jti, device));
           runtime.World() ==
             if request in recorded.responses then recorded
             else if request in minted.responses then minted
             else Step(Run(minted, before), LoginInsert(request))
    {
      hide ValidIdentifier;
      if !ValidIdentifier(device.identifier) {
        return InvalidInput;
      }
      ghost var looked := Step(runtime.World(), LoginLookup(request, email, password, found));
      OthersKeepRequest(looked, during, request);
      var account := Authenticate(request, email, password, found, recordClock, during);
      if account.None? {
        return InvalidCredentials;
      }
      response := Open(request, account.value, mintClock, sessionId, jti, device, before);
    }
  }
}
