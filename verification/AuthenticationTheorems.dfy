/** What holds of every run of the protocol, from any set of accounts and under any interleaving. */
module AuthenticationTheorems {
  import opened Wrappers
  import opened RefreshTokens
  import opened AuthenticationRepository
  import opened AuthenticationProtocol
  import opened AuthenticationInvariants

  /** The world after a run from a database without sessions. */
  function Reached(accounts: Accounts, events: seq<Event>): World {
    Run(Initial(accounts), events)
  }

  lemma ReachedInv(accounts: Accounts, events: seq<Event>)
    ensures Inv(Reached(accounts, events))
  {
    hide Inv;
    InitialInv(accounts);
    RunInv(Initial(accounts), events);
  }

  /* ---- Rotations form one chain per session ---- */

  /** The token is the one the session's history has made current. */
  predicate IsCurrent(history: seq<Commit>, id: SessionId, token: Token) {
    Chain(history, id) != [] && Last(Chain(history, id)) == token
  }

  /** The (presented, successor) pairs of a session's rotations, oldest first. */
  function Edges(history: seq<Commit>, id: SessionId): seq<(Token, Token)> {
    if history == [] then []
    else
      var c := history[|history| - 1];
      Edges(history[..|history| - 1], id)
      + (if c.SessionRotated? && c.sessionId == id then [(c.presented, c.successor)] else [])
  }

  lemma {:induction false} EdgesFollowChain(history: seq<Commit>, id: SessionId)
    requires Linear(history)
    ensures
      var chain := Chain(history, id);
      var edges := Edges(history, id);
      && |chain| == (if chain == [] then 0 else |edges| + 1)
      && (chain == [] ==> edges == [])
      && forall k | 0 <= k < |edges| :: edges[k] == (chain[k], chain[k + 1])
  {
    hide Linear;
    if history != [] {
      var n := |history| - 1;
      LinearAt(history, n);
      EdgesFollowChain(history[..n], id);
    }
  }

  /** One entry of a linear history: the entries before it are linear, and it continues its session's chain. */
  lemma LinearAt(history: seq<Commit>, i: nat)
    requires Linear(history) && i < |history|
    ensures Linear(history[..i])
    ensures history[i].SessionOpened? ==> Chain(history[..i], history[i].sessionId) == []
    ensures history[i].SessionRotated? ==> IsCurrent(history[..i], history[i].sessionId, history[i].presented)
  {
    hide Chain;
    var earlier := history[..i];
    forall k | 0 <= k < i
      ensures earlier[..k] == history[..k] && earlier[k] == history[k]
    {
    }
  }

  lemma {:induction false} ChainOfPrefix(history: seq<Commit>, i: nat, id: SessionId)
    requires i <= |history|
    ensures Chain(history[..i], id) <= Chain(history, id)
    decreases |history|
  {
    if i == |history| {
      assert history[..i] == history;
    } else {
      var n := |history| - 1;
      ChainOfPrefix(history[..n], i, id);
      assert history[..n][..i] == history[..i];
    }
  }

  /** The presented token of a rotation, found in the session's chain just before the end of the chain then. */
  lemma PresentedInChain(history: seq<Commit>, i: nat, id: SessionId)
    requires Linear(history) && i < |history| && history[i].SessionRotated? && history[i].sessionId == id
    ensures
      var k := |Chain(history[..i], id)|;
      && 0 < k < |Chain(history, id)|
      && Chain(history, id)[k - 1] == history[i].presented
      && Chain(history, id)[k] == history[i].successor
      && |Chain(history[..i + 1], id)| == k + 1
  {
    hide Linear, Chain;
    LinearAt(history, i);
    ChainOfPrefix(history, i + 1, id);
    assert history[..i + 1] == history[..i] + [history[i]];
    HistoryGrows(history[..i], history[i], id);
  }

  /** In every run a token is the presented token of at most one successful rotation. */
  lemma EachTokenRotatesOnce(accounts: Accounts, events: seq<Event>, i: nat, j: nat)
    requires
      var history := Reached(accounts, events).history;
      i < j < |history| && history[i].SessionRotated? && history[j].SessionRotated?
    ensures
      var history := Reached(accounts, events).history;
      history[i].presented != history[j].presented
  {
    hide Run, Chain, RowFitsChain, TokensFitRow, PendingsInv, GenuineInv, Count;
    var w := Reached(accounts, events);
    var history := w.history;
    ReachedInv(accounts, events);
    PresentedInChain(history, i, history[i].sessionId);
    PresentedInChain(history, j, history[j].sessionId);
    assert RowInv(w.genuine, history, history[i].sessionId, w.sessions[history[i].sessionId]);
    assert RowInv(w.genuine, history, history[j].sessionId, w.sessions[history[j].sessionId]);
    if history[i].sessionId == history[j].sessionId {
      ChainOfPrefix(history[..j], i + 1, history[i].sessionId);
      assert history[..j][..i + 1] == history[..i + 1];
    }
  }

  /** The rotations of a session lead, each from the successor of the one before, from the token minted at login
      to the token whose hash the row holds. */
  lemma RotationsLeadToCurrentHash(accounts: Accounts, events: seq<Event>, id: SessionId)
    requires id in Reached(accounts, events).sessions
    ensures
      var w := Reached(accounts, events);
      var s := w.sessions[id];
      var chain := Chain(w.history, id);
      var edges := Edges(w.history, id);
      && |chain| == |edges| + 1
      && (forall k | 0 <= k < |edges| :: edges[k] == (chain[k], chain[k + 1]))
      && s.refreshTokenHash == Hash(Last(chain))
      && chain[0].iat * 1000 == s.createdAt
      && Last(chain).iat * 1000 == s.lastUsedAt.GetOr(s.createdAt)
      && (forall i, j | 0 <= i < j < |chain| :: chain[i] != chain[j] && chain[i].iat <= chain[j].iat)
  {
    hide Run, Chain, Edges, PendingsInv, GenuineInv, Count, Linear;
    var w := Reached(accounts, events);
    ReachedInv(accounts, events);
    assert RowInv(w.genuine, w.history, id, w.sessions[id]);
    EdgesFollowChain(w.history, id);
  }

  /** Every row satisfies the table's checks, written out; its version counts its rotations and its at most one revocation; the
      audit counted exactly the committed rotations, revocations and logins. */
  lemma RowsAndAuditCountWrites(accounts: Accounts, events: seq<Event>, id: SessionId)
    requires id in Reached(accounts, events).sessions
    ensures
      var w := Reached(accounts, events);
      var s := w.sessions[id];
      && s.createdAt < s.expiresAt
      && (s.lastUsedAt.Some? ==> s.createdAt <= s.lastUsedAt.value < s.expiresAt && s.lastUsedAt.value <= s.updatedAt)
      && (s.revokedAt.Some? ==> s.lastUsedAt.GetOr(s.createdAt) <= s.revokedAt.value <= s.updatedAt)
      && s.version == 1 + |Edges(w.history, id)| + Revocations(w.history, id)
      && Revocations(w.history, id) <= 1
      && (s.revokedAt.Some? <==> Revocations(w.history, id) == 1)
      && w.audit.refreshSuccesses == Count(w.history, IS_ROTATION)
      && w.audit.refreshReuses == Count(w.history, IS_REVOCATION)
      && w.audit.loginSuccesses == Count(w.history, IS_LOGIN)
  {
    hide Run, Chain, Edges, PendingsInv, GenuineInv, Count, Linear;
    var w := Reached(accounts, events);
    ReachedInv(accounts, events);
    assert RowInv(w.genuine, w.history, id, w.sessions[id]);
    EdgesFollowChain(w.history, id);
  }

  /* ---- The decision a rotation takes ---- */

  /** In every reachable world a verified refresh is decided by four facts only. The signed account and expiry never
      disagree with the row, a guarded update never misses, and the table refuses exactly one case: the reuse of an
      old token at an instant before the session's last use. That transaction is rolled back. */
  lemma RotationDecision(accounts: Accounts, events: seq<Event>, request: RequestId)
    requires Enabled(Reached(accounts, events), RefreshRotate(request))
    ensures
      var w := Reached(accounts, events);
      var p := w.pending[request];
      var id := p.presented.sessionId;
      var (answer, sessions) := RotateSpec(w.accounts, w.sessions, p.rotation);
      if id !in w.sessions || !IsAuthSessionActive(w.sessions[id], p.rotation.usedAt)
         || !Eligible(w.accounts, w.sessions[id].accountId)
      then answer == Committed(Invalid) && sessions == w.sessions
      else if IsCurrent(w.history, id, p.presented)
      then answer == Committed(Rotated) && sessions == w.sessions[id := RotatedRow(w.sessions[id], p.rotation)]
      else if w.sessions[id].lastUsedAt.None? || w.sessions[id].lastUsedAt.value <= p.rotation.usedAt
      then answer == Committed(Reused) && sessions == w.sessions[id := RevokedRow(w.sessions[id], p.rotation)]
      else answer == Aborted && sessions == w.sessions
  {
    hide Run, Chain, PendingsInv, GenuineInv, HistoryInv, LifecycleCheck, RowAccepted, ChainInv;
    var w := Reached(accounts, events);
    var input := w.pending[request].rotation;
    ReachedInv(accounts, events);
    RequestFits(w, request);
    if Rotatable(w.accounts, w.sessions, input) {
      if w.sessions[input.sessionId].refreshTokenHash == input.presentedRefreshTokenHash {
        RotatedInv(w, request);
      } else {
        ReusedInv(w, request);
      }
    }
  }

  /* ---- What later steps can change ---- */

  /** A later version of a row: same account, creation and expiry, nothing decreases, and a revoked row is frozen. */
  ghost predicate LaterRow(before: Session, after: Session) {
    && after.accountId == before.accountId
    && after.createdAt == before.createdAt
    && after.expiresAt == before.expiresAt
    && after.updatedAt >= before.updatedAt
    && after.version >= before.version
    && (before.lastUsedAt.Some? ==> after.lastUsedAt.Some? && after.lastUsedAt.value >= before.lastUsedAt.value)
    && (before.revokedAt.Some? ==> after == before)
  }

  lemma RowAfterStep(w: World, e: Event, id: SessionId)
    requires Inv(w) && id in w.sessions
    ensures id in Step(w, e).sessions && LaterRow(w.sessions[id], Step(w, e).sessions[id])
  {
    hide Inv, Verify, Issue, RecordSpec;
    if Enabled(w, e) && e.RefreshRotate? && w.pending[e.request].rotation.sessionId == id {
      RowAfterRotate(w, e.request);
    }
  }

  lemma RowAfterRotate(w: World, request: RequestId)
    requires Inv(w) && Enabled(w, RefreshRotate(request))
    requires w.pending[request].rotation.sessionId in w.sessions
    ensures
      var id := w.pending[request].rotation.sessionId;
      var sessions := RotateSpec(w.accounts, w.sessions, w.pending[request].rotation).1;
      id in sessions && LaterRow(w.sessions[id], sessions[id])
  {
    hide PendingsInv, GenuineInv, HistoryInv, SessionsInv, Chain;
    RequestFits(w, request);
  }

  /** Along every run: the expiry of a session never moves, its instants and version never decrease, and once it is
      revoked no step changes it again. */
  lemma {:induction false} RowsOnlyMoveForward(w: World, events: seq<Event>, id: SessionId)
    requires Inv(w) && id in w.sessions
    ensures id in Run(w, events).sessions && LaterRow(w.sessions[id], Run(w, events).sessions[id])
  {
    hide Inv, Step;
    if events != [] {
      var n := |events| - 1;
      RowsOnlyMoveForward(w, events[..n], id);
      RunInv(w, events[..n]);
      RowAfterStep(Run(w, events[..n]), events[n], id);
    }
  }

  /* ---- What a client is given ---- */

  /** Every token handed out is a token of its session's chain, announced with its true remaining life. */
  ghost predicate GrantsInv(w: World) {
    forall r | r in w.responses && w.responses[r].Granted? ::
      var t := w.responses[r].refreshToken;
      t in Chain(w.history, t.sessionId) && w.responses[r].refreshExpiresIn == t.exp - t.iat
  }

  lemma GrantsAfterStep(w: World, e: Event)
    requires Inv(w) && GrantsInv(w)
    ensures GrantsInv(Step(w, e))
  {
    hide Inv, GrantsInv, RecordLogin, MintLogin, InsertSession, MintRefresh, RotateSession;
    if Enabled(w, e) {
      match e
      case AccountEdited(_, _, _, _, _, _) => GrantsAfterAnswer(w, Step(w, e), 0);
      case LoginLookup(request, _, _, _) => GrantsAfterAnswer(w, Step(w, e), request);
      case LoginRecord(request, clock) => GrantsAfterRecord(w, request, clock);
      case LoginMint(request, clock, sessionId, jti, device) =>
        GrantsAfterMint(w, MintLogin(w, request, clock, sessionId, jti, device), e);
      case LoginInsert(request) => GrantsAfterInsert(w, request);
      case RefreshMint(request, token, clock, jti) => GrantsAfterMint(w, MintRefresh(w, request, token, clock, jti), e);
      case RefreshRotate(request) => GrantsAfterRotate(w, request);
    }
  }

  lemma GrantsAfterRecord(w: World, request: RequestId, clock: int)
    requires GrantsInv(w) && Enabled(w, LoginRecord(request, clock))
    ensures GrantsInv(RecordLogin(w, request, clock))
  {
    hide GrantsInv;
    GrantsAfterAnswer(w, RecordLogin(w, request, clock), request);
  }

  lemma GrantsAfterMint(w: World, after: World, e: Event)
    requires GrantsInv(w) && Enabled(w, e) && (e.LoginMint? || e.RefreshMint?)
    requires e.LoginMint? ==> after == MintLogin(w, e.request, e.clock, e.sessionId, e.jti, e.device)
    requires e.RefreshMint? ==> after == MintRefresh(w, e.request, e.token, e.clock, e.jti)
    ensures GrantsInv(after)
  {
    hide GrantsInv, Verify, Issue, ClockReading, FreshSessionId, FreshTokenId;
    GrantsAfterAnswer(w, after, e.request);
  }

  lemma GrantsAfterInsert(w: World, request: RequestId)
    requires Inv(w) && GrantsInv(w) && Enabled(w, LoginInsert(request))
    ensures GrantsInv(InsertSession(w, request))
  {
    hide Inv, GrantsInv, TokensFitRow, ChainInv, RowFitsChain, RowAccepted;
    OpenedRowFits(w, request);
    GrantsAfterAnswer(w, InsertSession(w, request), request);
  }

  lemma GrantsAfterRotate(w: World, request: RequestId)
    requires Inv(w) && GrantsInv(w) && Enabled(w, RefreshRotate(request))
    ensures GrantsInv(RotateSession(w, request))
  {
    hide Inv, GrantsInv, RowInv;
    RequestFits(w, request);
    GrantsAfterAnswer(w, RotateSession(w, request), request);
  }

  /** The other responses stand; the new one, if it grants a token, grants the one just made current. */
  lemma GrantsAfterAnswer(w: World, after: World, request: RequestId)
    requires GrantsInv(w)
    requires w.history <= after.history && |after.history| <= |w.history| + 1
    requires after.responses - {request} == w.responses - {request}
    requires request in after.responses && after.responses[request].Granted? && after.responses != w.responses ==>
      var Granted(t, life) := after.responses[request];
      && life == t.exp - t.iat
      && |after.history| > |w.history|
      && t in Added(after.history[|w.history|], t.sessionId)
    ensures GrantsInv(after)
  {
    hide Chain;
    forall r | r in after.responses && after.responses[r].Granted?
      ensures
        var t := after.responses[r].refreshToken;
        t in Chain(after.history, t.sessionId) && after.responses[r].refreshExpiresIn == t.exp - t.iat
    {
      var t := after.responses[r].refreshToken;
      if |after.history| > |w.history| {
        assert after.history == w.history + [after.history[|w.history|]];
        HistoryGrows(w.history, after.history[|w.history|], t.sessionId);
      } else {
        assert after.history == w.history;
      }
      if r != request {
        assert r in after.responses - {request};
        assert w.responses[r] == (w.responses - {request})[r] == after.responses[r];
      }
    }
  }

  lemma {:induction false} RunGrants(accounts: Accounts, events: seq<Event>)
    ensures GrantsInv(Reached(accounts, events))
  {
    hide Inv, Step;
    if events == [] {
    } else {
      var n := |events| - 1;
      RunGrants(accounts, events[..n]);
      ReachedInv(accounts, events[..n]);
      GrantsAfterStep(Reached(accounts, events[..n]), events[n]);
    }
  }

  /** Every refresh token handed out expires with its session; the announced lives lie in 1..2592000 seconds,
      start at thirty days and never grow along the chain. */
  lemma AnnouncedLifeNeverGrows(accounts: Accounts, events: seq<Event>, request: RequestId)
    requires
      var w := Reached(accounts, events);
      request in w.responses && w.responses[request].Granted?
    ensures
      var w := Reached(accounts, events);
      var Granted(t, life) := w.responses[request];
      var chain := Chain(w.history, t.sessionId);
      && t.sessionId in w.sessions && t in chain
      && t.exp * 1000 == w.sessions[t.sessionId].expiresAt
      && 1 <= life == t.exp - t.iat <= REFRESH_TOKEN_LIFETIME_SECONDS
      && chain[0].exp - chain[0].iat == REFRESH_TOKEN_LIFETIME_SECONDS
      && (forall i, j | 0 <= i < j < |chain| :: chain[i].exp == chain[j].exp && chain[j].exp - chain[j].iat <= chain[i].exp - chain[i].iat)
  {
    hide Run, Chain, PendingsInv, HistoryInv;
    var w := Reached(accounts, events);
    ReachedInv(accounts, events);
    RunGrants(accounts, events);
    var t := w.responses[request].refreshToken;
    var id := t.sessionId;
    assert RowInv(w.genuine, w.history, id, w.sessions[id]);
  }

  /* ---- The last login ---- */

  /** An account's last login is the latest of its initial value and all recorded logins: it is one of them
      and none is later, whatever the order in which they committed. */
  ghost predicate LastLoginIsLatest(initial: Option<int>, history: seq<Commit>, id: AccountId, last: Option<int>) {
    && (last.None? <==> initial.None? && forall i | 0 <= i < |history| :: !(history[i].LoginRecorded? && history[i].accountId == id))
    && (last.Some? ==>
          && (initial == last
              || exists i :: 0 <= i < |history| && history[i].LoginRecorded? && history[i].accountId == id && history[i].occurredAt == last.value)
          && (initial.Some? ==> initial.value <= last.value)
          && (forall i | 0 <= i < |history| && history[i].LoginRecorded? && history[i].accountId == id :: history[i].occurredAt <= last.value))
  }

  lemma LatestAfterCommit(initial: Option<int>, history: seq<Commit>, id: AccountId, account: Account, c: Commit)
    requires LastLoginIsLatest(initial, history, id, account.lastLoginAt)
    ensures
      LastLoginIsLatest(initial, history + [c], id,
        if c.LoginRecorded? && c.accountId == id then LoggedIn(account, c.occurredAt).lastLoginAt else account.lastLoginAt)
  {
    var grown := history + [c];
    assert grown[|history|] == c;
    assert forall i | 0 <= i < |history| :: grown[i] == history[i];
  }

  lemma {:induction false} LastLoginIsMaximum(accounts: Accounts, events: seq<Event>, id: AccountId)
    requires id in accounts
    ensures
      var w := Reached(accounts, events);
      id in w.accounts && LastLoginIsLatest(accounts[id].lastLoginAt, w.history, id, w.accounts[id].lastLoginAt)
  {
    if events != [] {
      var n := |events| - 1;
      LastLoginIsMaximum(accounts, events[..n], id);
      LatestAfterStep(accounts[id].lastLoginAt, Reached(accounts, events[..n]), events[n], id);
    }
  }

  lemma LatestAfterStep(initial: Option<int>, w: World, e: Event, id: AccountId)
    requires id in w.accounts && LastLoginIsLatest(initial, w.history, id, w.accounts[id].lastLoginAt)
    ensures
      var after := Step(w, e);
      id in after.accounts && LastLoginIsLatest(initial, after.history, id, after.accounts[id].lastLoginAt)
  {
    hide LastLoginIsLatest, Verify, Issue, RotateSpec, CreateSpec;
    var after := Step(w, e);
    if |after.history| > |w.history| {
      var c := after.history[|w.history|];
      assert after.history == w.history + [c];
      LatestAfterCommit(initial, w.history, id, w.accounts[id], c);
    }
  }

  /* ---- A genuine predecessor that does not revoke ---- */

  const RACE_ACCOUNT := Account(Some("ana@example.test"), Some(Argon2id("secret", 0)), Active, false, None, 0, 1, None)
  const RACE_TOKEN := Token(0, 0, 7, 5, 5 + REFRESH_TOKEN_LIFETIME_SECONDS)

  const RACE_DEVICE := Device("phone", None, None)

  /** A login, then two refreshes of its token. The second reads its clock a tenth of a second after the first, on the
      other side of a second boundary, and commits before it. */
  const RACE: seq<Event> := [
    LoginLookup(1, "ana@example.test", "secret", Some(0)),
    LoginRecord(1, 5_000),
    LoginMint(1, 5_000, 7, 0, RACE_DEVICE),
    LoginInsert(1),
    RefreshMint(2, RACE_TOKEN, 10_950, 1),
    RefreshMint(3, RACE_TOKEN, 11_050, 2),
    RefreshRotate(3),
    RefreshRotate(2)
  ]

  lemma RunTwo(w: World, events: seq<Event>, n: nat)
    requires n + 2 <= |events|
    ensures Run(w, events[..n + 2]) == Step(Step(Run(w, events[..n]), events[n]), events[n + 1])
  {
    assert events[..n + 2][..n + 1] == events[..n + 1];
    assert events[..n + 1][..n] == events[..n];
  }

  const RACE_STARTED := Initial(map[0 := RACE_ACCOUNT])

  const RACE_AUTHENTICATED := RACE_STARTED.(
    accounts := map[0 := LoggedIn(RACE_ACCOUNT, 5_000)],
    pending := map[1 := Authenticated(0, false)],
    history := [LoginRecorded(1, 0, 5_000)],
    audit := Audit(1, 0, 0, 0, 0))

  const RACE_LOGGED_IN := RACE_AUTHENTICATED.(
    sessions := map[7 := Session(0, Hash(RACE_TOKEN), RACE_TOKEN.exp * 1000, None, None, 5_000, 5_000, 1)],
    genuine := {RACE_TOKEN},
    pending := map[],
    responses := map[1 := Granted(RACE_TOKEN, REFRESH_TOKEN_LIFETIME_SECONDS)],
    history := [LoginRecorded(1, 0, 5_000), SessionOpened(7, RACE_TOKEN)])

  function RaceSuccessor(jti: TokenId, iat: int): Token {
    Token(jti, 0, 7, iat, RACE_TOKEN.exp)
  }

  function RaceMinted(jti: TokenId, iat: int): Pending {
    var successor := RaceSuccessor(jti, iat);
    RefreshMinted(RotateInput(7, 0, Hash(RACE_TOKEN), Hash(successor), RACE_TOKEN.exp * 1000, iat * 1000),
                  RACE_TOKEN, successor, RACE_TOKEN.exp - iat)
  }

  const RACE_MINTED := RACE_LOGGED_IN.(
    genuine := {RACE_TOKEN, RaceSuccessor(1, 10), RaceSuccessor(2, 11)},
    pending := map[2 := RaceMinted(1, 10), 3 := RaceMinted(2, 11)])

  lemma RaceAuthenticates()
    ensures Step(Step(RACE_STARTED, RACE[0]), RACE[1]) == RACE_AUTHENTICATED
  {
    var looked := Step(RACE_STARTED, RACE[0]);
    assert looked == RACE_STARTED.(pending := map[1 := LookedUp("secret", Some(AccountRecord(0, RACE_ACCOUNT.passwordHash, Active, false)))]);
  }

  lemma RaceLogsIn()
    ensures Step(Step(RACE_AUTHENTICATED, RACE[2]), RACE[3]) == RACE_LOGGED_IN
  {
    var minted := Step(RACE_AUTHENTICATED, RACE[2]);
    assert minted == RACE_AUTHENTICATED.(
      genuine := {RACE_TOKEN},
      pending := map[1 := LoginMinted(CreateInput(7, 0, Hash(RACE_TOKEN), RACE_DEVICE, RACE_TOKEN.exp * 1000, 5_000), RACE_TOKEN,
                                      REFRESH_TOKEN_LIFETIME_SECONDS)]);
  }

  lemma RaceMints()
    ensures Step(Step(RACE_LOGGED_IN, RACE[4]), RACE[5]) == RACE_MINTED
  {
    hide RotateSpec, CreateSpec, RecordSpec;
    var minted := Step(RACE_LOGGED_IN, RACE[4]);
    assert minted == RACE_LOGGED_IN.(genuine := {RACE_TOKEN, RaceSuccessor(1, 10)}, pending := map[2 := RaceMinted(1, 10)]);
  }

  lemma RaceDecides()
    ensures
      var w := Step(Step(RACE_MINTED, RACE[6]), RACE[7]);
      && w.responses.Keys == {1, 2, 3}
      && w.responses[1].Granted? && w.responses[3].Granted? && w.responses[2] == Failed
      && w.sessions.Keys == {7} && w.sessions[7].revokedAt.None? && w.sessions[7].version == 2
      && w.audit == Audit(1, 0, 1, 0, 0)
  {
    var rotated := Step(RACE_MINTED, RACE[6]);
    var row := Session(0, Hash(RaceSuccessor(2, 11)), RACE_TOKEN.exp * 1000, Some(11_000), None, 5_000, 11_000, 2);
    assert RowAccepted(RACE_MINTED.sessions, 7, row);
    assert rotated.sessions == map[7 := row];
    assert Step(rotated, RACE[7]) == Answer(rotated, 2, Failed);
  }

  /** The documents promise that the second of two concurrent uses of a token revokes the session. It need not, even
      with clocks that only move forward: here the replay is rolled back by the lifecycle check, the request fails
      without an audit entry, and the session lives on. */
  lemma ReplayAcrossSecondsDoesNotRevoke()
    ensures
      var w := Reached(map[0 := RACE_ACCOUNT], RACE);
      && w.responses.Keys == {1, 2, 3}
      && w.responses[1].Granted? && w.responses[3].Granted? && w.responses[2] == Failed
      && w.sessions.Keys == {7} && w.sessions[7].revokedAt.None? && w.sessions[7].version == 2
      && w.audit == Audit(1, 0, 1, 0, 0)
  {
    hide Step;
    RunTwo(RACE_STARTED, RACE, 0);
    RaceAuthenticates();
    RunTwo(RACE_STARTED, RACE, 2);
    RaceLogsIn();
    RunTwo(RACE_STARTED, RACE, 4);
    RaceMints();
    RunTwo(RACE_STARTED, RACE, 6);
    RaceDecides();
    assert RACE[..8] == RACE;
  }
}
