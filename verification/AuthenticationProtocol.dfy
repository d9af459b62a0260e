/** Logins and refreshes as a transition system. A request is a chain of steps; between two of its steps any
    other step may happen, including edits of the account. Clock readings are arguments of the steps and need
    not be monotone. A step that is not enabled changes nothing, so every sequence of events is a run. */
module AuthenticationProtocol {
  import opened Wrappers
  import opened RefreshTokens
  import opened AuthenticationRepository
  import opened TextNormalization

  type RequestId = nat

  /** The projection findByNormalizedEmail returns. */
  datatype AccountRecord =
    AccountRecord(id: AccountId, passwordHash: Option<PasswordHash>, status: AccountStatus, mfaEnabled: bool)

  /** What a request in flight remembers. */
  datatype Pending =
    | LookedUp(password: string, found: Option<AccountRecord>)
    | Authenticated(accountId: AccountId, mfaEnabled: bool)
    | LoginMinted(insert: CreateInput, token: Token, expiresIn: int)
    | RefreshMinted(rotation: RotateInput, presented: Token, successor: Token, expiresIn: int)

  /** How a request ended: tokens, one of the two uniform rejections, an error thrown by a dependency, or a
      refused device identifier, which ends a login before its first step. */
  datatype Response =
    Granted(refreshToken: Token, refreshExpiresIn: int) | InvalidCredentials | InvalidRefreshToken | Failed | InvalidInput

  /** The committed writes, oldest first. */
  datatype Commit =
    | LoginRecorded(request: RequestId, accountId: AccountId, occurredAt: int)
    | SessionOpened(sessionId: SessionId, token: Token)
    | SessionRotated(sessionId: SessionId, presented: Token, successor: Token, usedAt: int)
    | SessionRevoked(sessionId: SessionId, presented: Token, usedAt: int)

  datatype Audit = Audit(
    loginSuccesses: nat, loginFailures: nat, refreshSuccesses: nat, refreshFailures: nat, refreshReuses: nat)

  datatype World = World(
    accounts: Accounts,
    sessions: Sessions,
    genuine: set<Token>,
    pending: map<RequestId, Pending>,
    responses: map<RequestId, Response>,
    history: seq<Commit>,
    audit: Audit)

  datatype Event =
    | AccountEdited(id: AccountId, emailNormalized: Option<string>, passwordHash: Option<PasswordHash>,
                    status: AccountStatus, mfaEnabled: bool, deletedAt: Option<int>)
    | LoginLookup(request: RequestId, email: string, password: string, found: Option<AccountId>)
    | LoginRecord(request: RequestId, clock: int)
    | LoginMint(request: RequestId, clock: int, sessionId: SessionId, jti: TokenId, device: Device)
    | LoginInsert(request: RequestId)
    | RefreshMint(request: RequestId, token: Token, clock: int, jti: TokenId)
    | RefreshRotate(request: RequestId)

  /** A clock reading whose thirty-day horizon is still a representable Date. */
  predicate ClockReading(at: int) {
    -MAXIMUM_DATE <= at <= MAXIMUM_DATE - 1000 * REFRESH_TOKEN_LIFETIME_SECONDS
  }

  predicate NewRequest(w: World, request: RequestId) {
    request !in w.pending && request !in w.responses
  }

  predicate FreshTokenId(genuine: set<Token>, jti: TokenId) {
    forall t | t in genuine :: t.jti != jti
  }

  predicate FreshSessionId(w: World, id: SessionId) {
    id !in w.sessions && forall t | t in w.genuine :: t.sessionId != id
  }

  predicate Matches(accounts: Accounts, id: AccountId, emailNormalized: string) {
    id in accounts && accounts[id].emailNormalized == Some(emailNormalized) && accounts[id].deletedAt.None?
  }

  predicate Enabled(w: World, e: Event) {
    match e
    case AccountEdited(id, _, _, _, _, _) => id in w.accounts
    case LoginLookup(request, email, _, found) =>
      && NewRequest(w, request)
      && (found.Some? ==> Matches(w.accounts, found.value, email))
      && (found.None? ==> forall id | id in w.accounts :: !Matches(w.accounts, id, email))
    case LoginRecord(request, clock) =>
      request in w.pending && w.pending[request].LookedUp? && ClockReading(clock)
    case LoginMint(request, clock, sessionId, jti, device) =>
      && request in w.pending && w.pending[request].Authenticated? && ValidIdentifier(device.identifier)
      && ClockReading(clock) && FreshSessionId(w, sessionId) && FreshTokenId(w.genuine, jti)
    case LoginInsert(request) => request in w.pending && w.pending[request].LoginMinted?
    case RefreshMint(request, _, clock, jti) =>
      NewRequest(w, request) && ClockReading(clock) && FreshTokenId(w.genuine, jti)
    case RefreshRotate(request) => request in w.pending && w.pending[request].RefreshMinted?
  }

  function Answer(w: World, request: RequestId, response: Response): World {
    w.(pending := w.pending - {request}, responses := w.responses[request := response])
  }

  function Edit(account: Account, e: Event): Account
    requires e.AccountEdited?
  {
    account.(emailNormalized := e.emailNormalized, passwordHash := e.passwordHash, status := e.status,
             mfaEnabled := e.mfaEnabled, deletedAt := e.deletedAt, version := account.version + 1)
  }

  function Lookup(accounts: Accounts, found: Option<AccountId>): Option<AccountRecord>
    requires found.Some? ==> found.value in accounts
  {
    if found.None? then None
    else
      var account := accounts[found.value];
      Some(AccountRecord(found.value, account.passwordHash, account.status, account.mfaEnabled))
  }

  predicate PasswordMatches(password: string, hash: Option<PasswordHash>) {
    hash.Some? && hash.value.password == password
  }

  /** The account record whose password the request proved, if the use case goes on to the write. */
  function Candidate(p: Pending): Option<AccountRecord>
    requires p.LookedUp?
  {
    if p.found.Some? && PasswordMatches(p.password, p.found.value.passwordHash) && p.found.value.status == Active
    then p.found
    else None
  }

  function RejectCredentials(w: World, request: RequestId): World {
    Answer(w, request, InvalidCredentials).(audit := w.audit.(loginFailures := w.audit.loginFailures + 1))
  }

  function RejectRefresh(w: World, request: RequestId): World {
    Answer(w, request, InvalidRefreshToken).(audit := w.audit.(refreshFailures := w.audit.refreshFailures + 1))
  }

  function RecordLogin(w: World, request: RequestId, clock: int): World
    requires request in w.pending && w.pending[request].LookedUp?
  {
    var candidate := Candidate(w.pending[request]);
    if candidate.None? then RejectCredentials(w, request)
    else
      var record := candidate.value;
      var (recorded, accounts) := RecordSpec(w.accounts, record.id, record.passwordHash.value, clock);
      if !recorded then RejectCredentials(w, request)
      else
        w.(accounts := accounts,
           pending := w.pending[request := Authenticated(record.id, record.mfaEnabled)],
           history := w.history + [LoginRecorded(request, record.id, clock)],
           audit := w.audit.(loginSuccesses := w.audit.loginSuccesses + 1))
  }

  /** The device as it goes into the row. */
  function Sanitized(device: Device): Device {
    Device(device.identifier, SanitizeText(device.name, DEVICE_NAME_MAXIMUM_LENGTH),
           SanitizeText(device.userAgent, USER_AGENT_MAXIMUM_LENGTH))
  }

  function MintLogin(w: World, request: RequestId, clock: int, sessionId: SessionId, jti: TokenId, device: Device): World
    requires request in w.pending && w.pending[request].Authenticated?
  {
    var account := w.pending[request];
    if account.mfaEnabled then Answer(w, request, InvalidCredentials)
    else
      var issuedAt := AuthenticationTokenIssuedAt(clock);
      var issued := Issue(jti, account.accountId, sessionId, issuedAt, None);
      if issued.Err? then Answer(w, request, Failed)
      else
        var token := issued.value.token;
        var input := CreateInput(sessionId, account.accountId, Hash(token), Sanitized(device), issued.value.expiresAt, issuedAt);
        w.(genuine := w.genuine + {token},
           pending := w.pending[request := LoginMinted(input, token, issued.value.expiresInSeconds)])
  }

  function InsertSession(w: World, request: RequestId): World
    requires request in w.pending && w.pending[request].LoginMinted?
  {
    var p := w.pending[request];
    var (created, sessions) := CreateSpec(w.accounts, w.sessions, p.insert);
    match created
    case Aborted => Answer(w, request, Failed)
    case Committed(false) => Answer(w, request, InvalidCredentials)
    case Committed(true) =>
      Answer(w, request, Granted(p.token, p.expiresIn))
      .(sessions := sessions, history := w.history + [SessionOpened(p.insert.id, p.token)])
  }

  function MintRefresh(w: World, request: RequestId, token: Token, clock: int, jti: TokenId): World {
    var usedAt := AuthenticationTokenIssuedAt(clock);
    var verified := Verify(w.genuine, token, usedAt);
    if verified.None? then RejectRefresh(w, request)
    else
      var v := verified.value;
      var issued := Issue(jti, v.accountId, v.sessionId, usedAt, Some(v.expiresAt));
      if issued.Err? then Answer(w, request, Failed)
      else
        var successor := issued.value.token;
        var input := RotateInput(v.sessionId, v.accountId, Hash(token), Hash(successor), v.expiresAt, usedAt);
        w.(genuine := w.genuine + {successor},
           pending := w.pending[request := RefreshMinted(input, token, successor, issued.value.expiresInSeconds)])
  }

  function RotateSession(w: World, request: RequestId): World
    requires request in w.pending && w.pending[request].RefreshMinted?
  {
    var p := w.pending[request];
    var (result, sessions) := RotateSpec(w.accounts, w.sessions, p.rotation);
    match result
    case Aborted => Answer(w, request, Failed)
    case Committed(Invalid) => RejectRefresh(w, request)
    case Committed(Reused) =>
      Answer(w, request, InvalidRefreshToken)
      .(sessions := sessions,
        history := w.history + [SessionRevoked(p.rotation.sessionId, p.presented, p.rotation.usedAt)],
        audit := w.audit.(refreshReuses := w.audit.refreshReuses + 1))
    case Committed(Rotated) =>
      Answer(w, request, Granted(p.successor, p.expiresIn))
      .(sessions := sessions,
        history := w.history + [SessionRotated(p.rotation.sessionId, p.presented, p.successor, p.rotation.usedAt)],
        audit := w.audit.(refreshSuccesses := w.audit.refreshSuccesses + 1))
  }

  function Effect(w: World, e: Event): World
    requires Enabled(w, e)
  {
    match e
    case AccountEdited(id, _, _, _, _, _) => w.(accounts := w.accounts[id := Edit(w.accounts[id], e)])
    case LoginLookup(request, _, password, found) =>
      w.(pending := w.pending[request := LookedUp(password, Lookup(w.accounts, found))])
    case LoginRecord(request, clock) => RecordLogin(w, request, clock)
    case LoginMint(request, clock, sessionId, jti, device) => MintLogin(w, request, clock, sessionId, jti, device)
    case LoginInsert(request) => InsertSession(w, request)
    case RefreshMint(request, token, clock, jti) => MintRefresh(w, request, token, clock, jti)
    case RefreshRotate(request) => RotateSession(w, request)
  }

  function Step(w: World, e: Event): World {
    if Enabled(w, e) then Effect(w, e) else w
  }

  function Run(w: World, events: seq<Event>): World {
    if events == [] then w else Step(Run(w, events[..|events| - 1]), events[|events| - 1])
  }

  function Initial(accounts: Accounts): World {
    World(accounts, map[], {}, map[], map[], [], Audit(0, 0, 0, 0, 0))
  }

  lemma {:induction false} RunAppend(w: World, before: seq<Event>, after: seq<Event>)
    ensures Run(w, before + after) == Run(Run(w, before), after)
  {
    if after == [] {
      assert before + after == before;
    } else {
      var n := |after| - 1;
      assert (before + after)[..|before + after| - 1] == before + after[..n];
      RunAppend(w, before, after[..n]);
    }
  }

  /** The token a committed write makes current in a session, if it does. */
  function Added(c: Commit, id: SessionId): seq<Token> {
    match c
    case SessionOpened(sessionId, token) => if sessionId == id then [token] else []
    case SessionRotated(sessionId, _, successor, _) => if sessionId == id then [successor] else []
    case _ => []
  }

  /** The tokens that have been the current token of a session, oldest first. */
  function Chain(history: seq<Commit>, id: SessionId): seq<Token> {
    if history == [] then []
    else Chain(history[..|history| - 1], id) + Added(history[|history| - 1], id)
  }

  /** How many committed writes of a session are revocations. */
  function Revocations(history: seq<Commit>, id: SessionId): nat {
    if history == [] then 0
    else
      var c := history[|history| - 1];
      Revocations(history[..|history| - 1], id) + (if c.SessionRevoked? && c.sessionId == id then 1 else 0)
  }

  lemma HistoryGrows(history: seq<Commit>, c: Commit, id: SessionId)
    ensures Chain(history + [c], id) == Chain(history, id) + Added(c, id)
    ensures Revocations(history + [c], id)
         == Revocations(history, id) + (if c.SessionRevoked? && c.sessionId == id then 1 else 0)
  {
    assert (history + [c])[..|history|] == history;
  }
}
