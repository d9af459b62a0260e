/** What every step of the protocol keeps. */
module AuthenticationInvariants {
  import opened Wrappers
  import opened RefreshTokens
  import opened AuthenticationRepository
  import opened AuthenticationProtocol

  function Last(chain: seq<Token>): Token
    requires chain != []
  {
    chain[|chain| - 1]
  }

  /** Signed tokens: well issued, told apart by their jti, and alike in account and expiry within a session. */
  ghost predicate GenuineInv(genuine: set<Token>) {
    && (forall t | t in genuine :: WellIssued(t) && ValidDate(t.exp * 1000))
    && (forall t, u | t in genuine && u in genuine && t.jti == u.jti :: t == u)
    && (forall t, u | t in genuine && u in genuine && t.sessionId == u.sessionId ::
          t.accountId == u.accountId && t.exp == u.exp)
  }

  /** The tokens signed for a session agree with its row, and none is older than the session. */
  ghost predicate TokensFitRow(genuine: set<Token>, id: SessionId, s: Session) {
    forall t | t in genuine && t.sessionId == id ::
      t.accountId == s.accountId && t.exp * 1000 == s.expiresAt && t.iat * 1000 >= s.createdAt
  }

  /** A chain of tokens of one session: signed, distinct, and issued in order. */
  ghost predicate ChainInv(genuine: set<Token>, id: SessionId, chain: seq<Token>) {
    && (forall t | t in chain :: t in genuine && t.sessionId == id)
    && (forall i, j | 0 <= i < j < |chain| :: chain[i] != chain[j] && chain[i].iat <= chain[j].iat)
  }

  /** A row against the chain and the revocations its history records. */
  ghost predicate RowFitsChain(s: Session, chain: seq<Token>, revocations: nat) {
    && LifecycleCheck(s)
    && chain != []
    && s.refreshTokenHash == Hash(Last(chain))
    && Last(chain).iat * 1000 == s.lastUsedAt.GetOr(s.createdAt)
    && chain[0].iat * 1000 == s.createdAt
    && chain[0].exp - chain[0].iat == REFRESH_TOKEN_LIFETIME_SECONDS
    && (s.lastUsedAt.None? <==> |chain| == 1)
    && revocations == (if s.revokedAt.Some? then 1 else 0)
    && s.version == |chain| + revocations
    && s.createdAt <= s.updatedAt
    && (s.lastUsedAt.Some? ==> s.lastUsedAt.value <= s.updatedAt)
    && (s.revokedAt.Some? ==> s.revokedAt.value <= s.updatedAt)
  }

  ghost predicate RowInv(genuine: set<Token>, history: seq<Commit>, id: SessionId, s: Session) {
    && TokensFitRow(genuine, id, s)
    && ChainInv(genuine, id, Chain(history, id))
    && RowFitsChain(s, Chain(history, id), Revocations(history, id))
  }

  ghost predicate SessionsInv(genuine: set<Token>, history: seq<Commit>, sessions: Sessions) {
    && (forall id | id in sessions :: RowInv(genuine, history, id, sessions[id]))
    && (forall id | id !in sessions :: Chain(history, id) == [] && Revocations(history, id) == 0)
  }

  /** A token minted for a login: it will open a session nobody else can open. */
  ghost predicate LoginMintedInv(genuine: set<Token>, sessions: Sessions, p: Pending)
    requires p.LoginMinted?
  {
    && p.token in genuine
    && p.insert == CreateInput(p.token.sessionId, p.token.accountId, Hash(p.token), p.insert.device,
                               p.token.exp * 1000, p.token.iat * 1000)
    && p.expiresIn == p.token.exp - p.token.iat == REFRESH_TOKEN_LIFETIME_SECONDS
    && p.token.sessionId !in sessions
    && (forall t | t in genuine && t.sessionId == p.token.sessionId :: t.iat >= p.token.iat)
  }

  /** A verified token and its successor: same session and expiry, successor not yet current anywhere. */
  ghost predicate RefreshMintedInv(genuine: set<Token>, history: seq<Commit>, p: Pending)
    requires p.RefreshMinted?
  {
    && p.presented in genuine && p.successor in genuine
    && p.presented.sessionId == p.successor.sessionId
    && p.presented.iat <= p.successor.iat < p.successor.exp
    && p.expiresIn == p.successor.exp - p.successor.iat
    && p.rotation == RotateInput(p.presented.sessionId, p.presented.accountId, Hash(p.presented), Hash(p.successor),
                                 p.presented.exp * 1000, p.successor.iat * 1000)
    && p.successor !in Chain(history, p.successor.sessionId)
    && p.successor != p.presented
  }

  ghost predicate PendingInv(genuine: set<Token>, sessions: Sessions, history: seq<Commit>, p: Pending) {
    match p
    case LoginMinted(_, _, _) => LoginMintedInv(genuine, sessions, p)
    case RefreshMinted(_, _, _, _) => RefreshMintedInv(genuine, history, p)
    case _ => true
  }

  /** Two requests in flight never hold the same new session or the same new token. */
  ghost predicate Apart(p: Pending, q: Pending) {
    && (p.LoginMinted? && q.LoginMinted? ==> p.token.sessionId != q.token.sessionId)
    && (p.RefreshMinted? && q.RefreshMinted? ==> p.successor != q.successor)
    && (p.LoginMinted? && q.RefreshMinted? ==> p.token != q.successor)
    && (p.RefreshMinted? && q.LoginMinted? ==> p.successor != q.token)
  }

  ghost predicate PendingsInv(genuine: set<Token>, sessions: Sessions, history: seq<Commit>, pending: map<RequestId, Pending>) {
    && (forall r | r in pending :: PendingInv(genuine, sessions, history, pending[r]))
    && (forall q, r | q in pending && r in pending && q != r :: Apart(pending[q], pending[r]))
  }

  /** How many entries of the history satisfy a test. */
  function Count(history: seq<Commit>, test: Commit -> bool): nat {
    if history == [] then 0
    else Count(history[..|history| - 1], test) + (if test(history[|history| - 1]) then 1 else 0)
  }

  const IS_ROTATION: Commit -> bool := (c: Commit) => c.SessionRotated?
  const IS_REVOCATION: Commit -> bool := (c: Commit) => c.SessionRevoked?
  const IS_LOGIN: Commit -> bool := (c: Commit) => c.LoginRecorded?

  /** Every rotation consumed the token that was current just before it, and every session was opened once. */
  ghost predicate Linear(history: seq<Commit>) {
    forall i | 0 <= i < |history| ::
      && (history[i].SessionOpened? ==> Chain(history[..i], history[i].sessionId) == [])
      && (history[i].SessionRotated? ==>
            var chain := Chain(history[..i], history[i].sessionId);
            chain != [] && Last(chain) == history[i].presented)
  }

  ghost predicate HistoryInv(history: seq<Commit>, audit: Audit) {
    && Linear(history)
    && Count(history, IS_ROTATION) == audit.refreshSuccesses
    && Count(history, IS_REVOCATION) == audit.refreshReuses
    && Count(history, IS_LOGIN) == audit.loginSuccesses
  }

  ghost predicate Inv(w: World) {
    && GenuineInv(w.genuine)
    && SessionsInv(w.genuine, w.history, w.sessions)
    && PendingsInv(w.genuine, w.sessions, w.history, w.pending)
    && HistoryInv(w.history, w.audit)
  }

  lemma CountGrows(history: seq<Commit>, c: Commit)
    ensures forall test :: Count(history + [c], test) == Count(history, test) + (if test(c) then 1 else 0)
  {
    assert (history + [c])[..|history|] == history;
  }

  lemma LinearGrows(history: seq<Commit>, c: Commit)
    requires Linear(history)
    requires c.SessionOpened? ==> Chain(history, c.sessionId) == []
    requires c.SessionRotated? ==> Chain(history, c.sessionId) != [] && Last(Chain(history, c.sessionId)) == c.presented
    ensures Linear(history + [c])
  {
    var grown := history + [c];
    forall i | 0 <= i < |grown|
      ensures grown[i].SessionOpened? ==> Chain(grown[..i], grown[i].sessionId) == []
      ensures grown[i].SessionRotated? ==>
                var chain := Chain(grown[..i], grown[i].sessionId);
                chain != [] && Last(chain) == grown[i].presented
    {
      assert grown[..i] == history[..i];
      if i == |history| {
        assert history[..i] == history;
      }
    }
  }

  lemma InitialInv(accounts: Accounts)
    ensures Inv(Initial(accounts))
  {
  }

  /** Ending a request without a write keeps everything, whatever failure is audited. */
  lemma AnswerInv(w: World, request: RequestId, response: Response)
    requires Inv(w)
    ensures forall failures, refreshFailures ::
      Inv(Answer(w, request, response).(audit := w.audit.(loginFailures := failures, refreshFailures := refreshFailures)))
    ensures Inv(Answer(w, request, response))
  {
  }

  lemma RecordLoginInv(w: World, request: RequestId, clock: int)
    requires Inv(w) && Enabled(w, LoginRecord(request, clock))
    ensures Inv(RecordLogin(w, request, clock))
  {
    hide GenuineInv, SessionsInv, PendingsInv, HistoryInv, Chain, Revocations, Count;
    var after := RecordLogin(w, request, clock);
    if after.history == w.history {
      AnswerInv(w, request, InvalidCredentials);
    } else {
      var c := LoginRecorded(request, Candidate(w.pending[request]).value.id, clock);
      var p := after.pending[request];
      assert after.history == w.history + [c] && after.pending == w.pending[request := p] && p.Authenticated?;
      LoginCommitKeepsInv(w, c);
      HistoryStep(w, c);
      PendingSet(w.genuine, w.sessions, after.history, w.pending, request, p);
    }
  }

  /** A recorded login touches no session chain. */
  lemma LoginCommitKeepsInv(w: World, c: Commit)
    requires SessionsInv(w.genuine, w.history, w.sessions) && PendingsInv(w.genuine, w.sessions, w.history, w.pending)
    requires c.LoginRecorded?
    ensures SessionsInv(w.genuine, w.history + [c], w.sessions)
    ensures PendingsInv(w.genuine, w.sessions, w.history + [c], w.pending)
  {
    hide GenuineInv, TokensFitRow, ChainInv, RowFitsChain, Apart, Chain, Revocations;
    forall id
      ensures Chain(w.history + [c], id) == Chain(w.history, id)
      ensures Revocations(w.history + [c], id) == Revocations(w.history, id)
    {
      OtherChain(w.history, c, id);
    }
    assert forall id | id in w.sessions :: RowInv(w.genuine, w.history, id, w.sessions[id]);
    assert forall r | r in w.pending :: PendingInv(w.genuine, w.sessions, w.history, w.pending[r]);
  }

  /** Recording what one request remembers, apart from all others. */
  lemma PendingSet(genuine: set<Token>, sessions: Sessions, history: seq<Commit>, pending: map<RequestId, Pending>,
                   request: RequestId, p: Pending)
    requires PendingsInv(genuine, sessions, history, pending)
    requires PendingInv(genuine, sessions, history, p)
    requires forall r | r in pending && r != request :: Apart(pending[r], p) && Apart(p, pending[r])
    ensures PendingsInv(genuine, sessions, history, pending[request := p])
  {
  }

  /** The audit after the commit is counted. */
  function Counted(audit: Audit, c: Commit): Audit {
    match c
    case LoginRecorded(_, _, _) => audit.(loginSuccesses := audit.loginSuccesses + 1)
    case SessionOpened(_, _) => audit
    case SessionRotated(_, _, _, _) => audit.(refreshSuccesses := audit.refreshSuccesses + 1)
    case SessionRevoked(_, _, _) => audit.(refreshReuses := audit.refreshReuses + 1)
  }

  /** Appending a commit and counting it in the audit keeps the history invariant. */
  lemma HistoryStep(w: World, c: Commit)
    requires HistoryInv(w.history, w.audit)
    requires c.SessionOpened? ==> Chain(w.history, c.sessionId) == []
    requires c.SessionRotated? ==> Chain(w.history, c.sessionId) != [] && Last(Chain(w.history, c.sessionId)) == c.presented
    ensures HistoryInv(w.history + [c], Counted(w.audit, c))
  {
    CountGrows(w.history, c);
    LinearGrows(w.history, c);
  }

  /** Signing a fresh token that fits its session keeps the sessions and the requests in flight. */
  lemma SigningKeepsInv(w: World, token: Token)
    requires Inv(w)
    requires WellIssued(token) && ValidDate(token.exp * 1000) && FreshTokenId(w.genuine, token.jti)
    requires forall t | t in w.genuine && t.sessionId == token.sessionId ::
               t.accountId == token.accountId && t.exp == token.exp
    requires FreshSessionId(w, token.sessionId)
             || exists t :: t in w.genuine && t.sessionId == token.sessionId && t.iat <= token.iat
    ensures Inv(w.(genuine := w.genuine + {token}))
    ensures forall id :: token !in Chain(w.history, id)
    ensures token !in w.genuine
  {
    hide HistoryInv, Chain, Revocations, Apart, RowFitsChain;
    var genuine := w.genuine + {token};
    assert token !in w.genuine;
    assert GenuineInv(genuine);
    forall id | id in w.sessions
      ensures RowInv(genuine, w.history, id, w.sessions[id])
    {
      assert RowInv(w.genuine, w.history, id, w.sessions[id]);
    }
    forall id
      ensures token !in Chain(w.history, id)
    {
      if id in w.sessions {
        assert RowInv(w.genuine, w.history, id, w.sessions[id]);
      }
    }
    forall r | r in w.pending
      ensures PendingInv(genuine, w.sessions, w.history, w.pending[r])
    {
      assert PendingInv(w.genuine, w.sessions, w.history, w.pending[r]);
    }
  }

  lemma MintLoginInv(w: World, request: RequestId, clock: int, sessionId: SessionId, jti: TokenId, device: Device)
    requires Inv(w) && Enabled(w, LoginMint(request, clock, sessionId, jti, device))
    ensures Inv(MintLogin(w, request, clock, sessionId, jti, device))
  {
    hide Sanitized, SessionsInv, PendingsInv, HistoryInv, Chain, Revocations, Apart;
    var account := w.pending[request];
    if account.mfaEnabled {
      AnswerInv(w, request, InvalidCredentials);
    } else {
      assert ValidDate(clock);
      LoginIssue(clock, jti, account.accountId, sessionId);
      TruncationIsFloor(clock);
      var token := Token(jti, account.accountId, sessionId, UnixTime(clock), UnixTime(clock) + REFRESH_TOKEN_LIFETIME_SECONDS);
      SigningKeepsInv(w, token);
      var after := MintLogin(w, request, clock, sessionId, jti, device);
      var p := after.pending[request];
      assert after == w.(genuine := w.genuine + {token}, pending := w.pending[request := p]);
      assert p == LoginMinted(CreateInput(sessionId, account.accountId, Hash(token), Sanitized(device),
                                          token.exp * 1000, token.iat * 1000),
                              token, REFRESH_TOKEN_LIFETIME_SECONDS);
      assert LoginMintedInv(after.genuine, after.sessions, p);
      NewTokenApart(w, request, token, p);
      PendingSet(after.genuine, after.sessions, after.history, w.pending, request, p);
    }
  }

  /** A request holding a token nobody held before is apart from every other request. */
  lemma NewTokenApart(w: World, request: RequestId, token: Token, p: Pending)
    requires PendingsInv(w.genuine, w.sessions, w.history, w.pending) && token !in w.genuine
    requires p.LoginMinted? ==> p.token == token && FreshSessionId(w, token.sessionId)
    requires p.RefreshMinted? ==> p.successor == token
    ensures forall r | r in w.pending && r != request :: Apart(w.pending[r], p) && Apart(p, w.pending[r])
  {
    assert forall r | r in w.pending :: PendingInv(w.genuine, w.sessions, w.history, w.pending[r]);
  }

  lemma MintRefreshInv(w: World, request: RequestId, token: Token, clock: int, jti: TokenId)
    requires Inv(w) && Enabled(w, RefreshMint(request, token, clock, jti))
    ensures Inv(MintRefresh(w, request, token, clock, jti))
    ensures request in MintRefresh(w, request, token, clock, jti).responses ==>
              MintRefresh(w, request, token, clock, jti).responses[request] == InvalidRefreshToken
  {
    hide SessionsInv, PendingsInv, HistoryInv, Chain, Revocations, Apart;
    var usedAt := AuthenticationTokenIssuedAt(clock);
    var verified := Verify(w.genuine, token, usedAt);
    if verified.None? {
      AnswerInv(w, request, InvalidRefreshToken);
    } else {
      assert ValidDate(clock);
      SuccessorIssue(w.genuine, token, clock, jti);
      TruncationIsFloor(clock);
      var successor := Token(jti, token.accountId, token.sessionId, UnixTime(clock), token.exp);
      SigningKeepsInv(w, successor);
      var after := MintRefresh(w, request, token, clock, jti);
      var p := after.pending[request];
      assert after == w.(genuine := w.genuine + {successor}, pending := w.pending[request := p]);
      assert p == RefreshMinted(RotateInput(token.sessionId, token.accountId, Hash(token), Hash(successor), token.exp * 1000, usedAt),
                                token, successor, token.exp - successor.iat);
      assert RefreshMintedInv(after.genuine, after.history, p);
      NewTokenApart(w, request, successor, p);
      PendingSet(after.genuine, after.sessions, after.history, w.pending, request, p);
    }
  }

  /** The row a login is about to insert: free under its key and its hash, and fitting the chain it starts. */
  lemma OpenedRowFits(w: World, request: RequestId)
    requires Inv(w) && Enabled(w, LoginInsert(request))
    ensures
      var p := w.pending[request];
      var id := p.insert.id;
      && LoginMintedInv(w.genuine, w.sessions, p)
      && RowAccepted(w.sessions, id, NewRow(p.insert))
      && Chain(w.history, id) == [] && Revocations(w.history, id) == 0
      && TokensFitRow(w.genuine, id, NewRow(p.insert))
      && ChainInv(w.genuine, id, [p.token])
      && RowFitsChain(NewRow(p.insert), [p.token], 0)
  {
    hide Chain, Revocations, HistoryInv;
    assert PendingInv(w.genuine, w.sessions, w.history, w.pending[request]);
    HashesAreFree(w, w.pending[request].insert.id);
  }

  /** Opening a session: neither the lifecycle check nor a unique index ever refuses the insert, so it is aborted exactly
      when the account is eligible and a device column is refused. */
  lemma InsertSessionInv(w: World, request: RequestId)
    requires Inv(w) && Enabled(w, LoginInsert(request))
    ensures Inv(InsertSession(w, request))
    ensures
      var input := w.pending[request].insert;
      CreateSpec(w.accounts, w.sessions, input) ==
        if !Eligible(w.accounts, input.accountId) then (Committed(false), w.sessions)
        else if !DeviceAccepted(input.device) then (Aborted, w.sessions)
        else (Committed(true), w.sessions[input.id := NewRow(input)])
  {
    hide GenuineInv, SessionsInv, PendingsInv, HistoryInv, Chain, Revocations, TokensFitRow, ChainInv, RowFitsChain, RowAccepted;
    hide DeviceAccepted;
    var p := w.pending[request];
    var c := SessionOpened(p.insert.id, p.token);
    OpenedRowFits(w, request);
    if !Eligible(w.accounts, p.insert.accountId) {
      AnswerInv(w, request, InvalidCredentials);
    } else if !DeviceAccepted(p.insert.device) {
      AnswerInv(w, request, Failed);
    } else {
      assert Chain(w.history, p.insert.id) + Added(c, p.insert.id) == [p.token];
      WriteInv(w, request, NewRow(p.insert), c, Granted(p.token, p.expiresIn));
    }
  }

  /** The world after the write that ends a request. */
  function AfterWrite(w: World, request: RequestId, row: Session, c: Commit, response: Response): World
    requires c.SessionOpened? || c.SessionRotated? || c.SessionRevoked?
  {
    Answer(w, request, response)
    .(sessions := w.sessions[c.sessionId := row],
      history := w.history + [c],
      audit := Counted(w.audit, c))
  }

  /** The commit is the one its request in flight stands for. */
  ghost predicate CommitOf(w: World, p: Pending, c: Commit) {
    || (p.LoginMinted? && c == SessionOpened(p.token.sessionId, p.token) && Chain(w.history, p.token.sessionId) == [])
    || (p.RefreshMinted? && p.successor.sessionId in w.sessions
        && c == SessionRotated(p.successor.sessionId, p.presented, p.successor, p.rotation.usedAt)
        && Chain(w.history, p.successor.sessionId) != []
        && Last(Chain(w.history, p.successor.sessionId)) == p.presented)
    || (p.RefreshMinted? && p.successor.sessionId in w.sessions
        && c == SessionRevoked(p.successor.sessionId, p.presented, p.rotation.usedAt))
  }

  /** A write keeps the whole invariant as soon as the written row fits its grown chain. */
  lemma WriteInv(w: World, request: RequestId, row: Session, c: Commit, response: Response)
    requires Inv(w) && request in w.pending && CommitOf(w, w.pending[request], c)
    requires TokensFitRow(w.genuine, c.sessionId, row)
    requires ChainInv(w.genuine, c.sessionId, Chain(w.history, c.sessionId) + Added(c, c.sessionId))
    requires RowFitsChain(row, Chain(w.history, c.sessionId) + Added(c, c.sessionId),
                          Revocations(w.history, c.sessionId) + (if c.SessionRevoked? then 1 else 0))
    ensures Inv(AfterWrite(w, request, row, c, response))
  {
    hide GenuineInv, SessionsInv, PendingsInv, TokensFitRow, ChainInv, RowFitsChain, Linear, Chain, Count, Revocations;
    WrittenRowInv(w, c.sessionId, row, c);
    PendingsAfterWrite(w, request, c, row);
    HistoryStep(w, c);
  }

  /** A committed session write keeps every row, if the written row fits its grown chain. */
  lemma WrittenRowInv(w: World, id: SessionId, row: Session, c: Commit)
    requires SessionsInv(w.genuine, w.history, w.sessions)
    requires c.SessionOpened? || c.SessionRotated? || c.SessionRevoked?
    requires c.sessionId == id
    requires TokensFitRow(w.genuine, id, row)
    requires ChainInv(w.genuine, id, Chain(w.history, id) + Added(c, id))
    requires RowFitsChain(row, Chain(w.history, id) + Added(c, id),
                          Revocations(w.history, id) + (if c.SessionRevoked? then 1 else 0))
    ensures SessionsInv(w.genuine, w.history + [c], w.sessions[id := row])
  {
    hide GenuineInv, TokensFitRow, ChainInv, RowFitsChain, Chain, Revocations;
    var sessions := w.sessions[id := row];
    forall other | other in sessions
      ensures RowInv(w.genuine, w.history + [c], other, sessions[other])
    {
      HistoryGrows(w.history, c, other);
      if other != id {
        OtherChain(w.history, c, other);
        assert RowInv(w.genuine, w.history, other, w.sessions[other]);
      }
    }
    forall other | other !in sessions
      ensures Chain(w.history + [c], other) == [] && Revocations(w.history + [c], other) == 0
    {
      OtherChain(w.history, c, other);
    }
  }

  lemma OtherChain(history: seq<Commit>, c: Commit, other: SessionId)
    requires c.SessionOpened? || c.SessionRotated? || c.SessionRevoked? ==> c.sessionId != other
    ensures Chain(history + [c], other) == Chain(history, other)
    ensures Revocations(history + [c], other) == Revocations(history, other)
  {
    HistoryGrows(history, c, other);
    assert Chain(history, other) + [] == Chain(history, other);
  }

  /** After the write that ends a request, the other requests are still what they were. */
  lemma PendingsAfterWrite(w: World, request: RequestId, c: Commit, row: Session)
    requires PendingsInv(w.genuine, w.sessions, w.history, w.pending)
    requires request in w.pending && CommitOf(w, w.pending[request], c)
    ensures PendingsInv(w.genuine, w.sessions[c.sessionId := row], w.history + [c], w.pending - {request})
  {
    hide GenuineInv, Chain, Revocations;
    forall r | r in w.pending - {request}
      ensures PendingInv(w.genuine, w.sessions[c.sessionId := row], w.history + [c], w.pending[r])
    {
      var p := w.pending[r];
      assert PendingInv(w.genuine, w.sessions, w.history, p) && Apart(p, w.pending[request]);
      if p.RefreshMinted? {
        HistoryGrows(w.history, c, p.successor.sessionId);
      }
    }
  }

  /** What the invariant says of one refresh about to rotate and of the row it found. */
  lemma RequestFits(w: World, request: RequestId)
    requires Inv(w) && Enabled(w, RefreshRotate(request))
    ensures RefreshMintedInv(w.genuine, w.history, w.pending[request])
    ensures
      var id := w.pending[request].rotation.sessionId;
      id in w.sessions ==> RowInv(w.genuine, w.history, id, w.sessions[id])
  {
    assert PendingInv(w.genuine, w.sessions, w.history, w.pending[request]);
  }

  /** The current token: the row is accepted and the successor extends the chain. */
  lemma RotatedInv(w: World, request: RequestId)
    requires Inv(w) && Enabled(w, RefreshRotate(request))
    requires var input := w.pending[request].rotation;
      && Rotatable(w.accounts, w.sessions, input)
      && w.sessions[input.sessionId].refreshTokenHash == input.presentedRefreshTokenHash
    ensures RotateSpec(w.accounts, w.sessions, w.pending[request].rotation).0 == Committed(Rotated)
    ensures Inv(RotateSession(w, request))
  {
    hide GenuineInv, SessionsInv, PendingsInv, HistoryInv, Revocations;
    var p := w.pending[request];
    var input := p.rotation;
    var id := input.sessionId;
    var s := w.sessions[id];
    var row := RotatedRow(s, input);
    var c := SessionRotated(id, p.presented, p.successor, input.usedAt);
    RequestFits(w, request);
    ExtendedChain(w.genuine, id, s, Chain(w.history, id), Revocations(w.history, id), p, row);
    assert RotateSpec(w.accounts, w.sessions, input) == (Committed(Rotated), w.sessions[id := row]) by {
      HashesAreFree(w, id);
    }
    WriteInv(w, request, row, c, Granted(p.successor, p.expiresIn));
  }

  lemma ExtendedChain(genuine: set<Token>, id: SessionId, s: Session, chain: seq<Token>, revocations: nat, p: Pending, row: Session)
    requires TokensFitRow(genuine, id, s) && ChainInv(genuine, id, chain) && RowFitsChain(s, chain, revocations)
    requires p.RefreshMinted? && p.presented in genuine && p.successor in genuine
    requires p.presented.sessionId == id == p.successor.sessionId
    requires s.revokedAt.None? && p.presented == Last(chain) && p.successor !in chain
    requires p.rotation.usedAt == p.successor.iat * 1000 && p.presented.iat <= p.successor.iat
    requires p.rotation.usedAt < s.expiresAt && p.rotation.successorRefreshTokenHash == Hash(p.successor)
    requires row == RotatedRow(s, p.rotation)
    ensures TokensFitRow(genuine, id, row) && ChainInv(genuine, id, chain + [p.successor])
    ensures RowFitsChain(row, chain + [p.successor], revocations)
  {
  }

  /** A genuine token that is not current: the session is revoked unless the table refuses, which it does exactly
      when the request's instant lies before the last use. */
  lemma ReusedInv(w: World, request: RequestId)
    requires Inv(w) && Enabled(w, RefreshRotate(request))
    requires var input := w.pending[request].rotation;
      && Rotatable(w.accounts, w.sessions, input)
      && w.sessions[input.sessionId].refreshTokenHash != input.presentedRefreshTokenHash
    ensures
      var input := w.pending[request].rotation;
      var s := w.sessions[input.sessionId];
      RotateSpec(w.accounts, w.sessions, input).0
        == if s.lastUsedAt.None? || s.lastUsedAt.value <= input.usedAt then Committed(Reused) else Aborted
    ensures Inv(RotateSession(w, request))
  {
    hide GenuineInv, SessionsInv, PendingsInv, HistoryInv, Revocations;
    var p := w.pending[request];
    var input := p.rotation;
    var id := input.sessionId;
    var s := w.sessions[id];
    var row := RevokedRow(s, input);
    RequestFits(w, request);
    assert RowAccepted(w.sessions, id, row) <==> s.lastUsedAt.None? || s.lastUsedAt.value <= input.usedAt by {
      HashesAreFree(w, id);
    }
    if RowAccepted(w.sessions, id, row) {
      var c := SessionRevoked(id, p.presented, input.usedAt);
      assert Chain(w.history, id) + Added(c, id) == Chain(w.history, id);
      assert RowFitsChain(row, Chain(w.history, id), Revocations(w.history, id) + 1);
      WriteInv(w, request, row, c, InvalidRefreshToken);
    } else {
      AnswerInv(w, request, Failed);
    }
  }

  lemma RotateSessionInv(w: World, request: RequestId)
    requires Inv(w) && Enabled(w, RefreshRotate(request))
    ensures Inv(RotateSession(w, request))
  {
    hide GenuineInv, SessionsInv, PendingsInv, HistoryInv;
    var input := w.pending[request].rotation;
    if !Rotatable(w.accounts, w.sessions, input) {
      AnswerInv(w, request, InvalidRefreshToken);
    } else if w.sessions[input.sessionId].refreshTokenHash == input.presentedRefreshTokenHash {
      RotatedInv(w, request);
    } else {
      ReusedInv(w, request);
    }
  }

  /** Rows of other sessions hold hashes of their own sessions' tokens only. */
  lemma HashesAreFree(w: World, id: SessionId)
    requires SessionsInv(w.genuine, w.history, w.sessions)
    ensures forall t: Token | t.sessionId == id :: HashIsFree(w.sessions, id, Hash(t))
    ensures id in w.sessions ==> HashIsFree(w.sessions, id, w.sessions[id].refreshTokenHash)
  {
    forall other | other in w.sessions
      ensures w.sessions[other].refreshTokenHash.token.sessionId == other
    {
      assert RowInv(w.genuine, w.history, other, w.sessions[other]);
    }
  }

  lemma StepInv(w: World, e: Event)
    requires Inv(w)
    ensures Inv(Step(w, e))
  {
    hide GenuineInv, SessionsInv, PendingsInv, HistoryInv, RecordLogin, MintLogin, InsertSession, MintRefresh, RotateSession;
    if Enabled(w, e) {
      match e
      case AccountEdited(_, _, _, _, _, _) =>
      case LoginLookup(request, _, _, _) =>
        PendingSet(w.genuine, w.sessions, w.history, w.pending, request, Step(w, e).pending[request]);
      case LoginRecord(request, clock) => RecordLoginInv(w, request, clock);
      case LoginMint(request, clock, sessionId, jti, device) => MintLoginInv(w, request, clock, sessionId, jti, device);
      case LoginInsert(request) => InsertSessionInv(w, request);
      case RefreshMint(request, token, clock, jti) => MintRefreshInv(w, request, token, clock, jti);
      case RefreshRotate(request) => RotateSessionInv(w, request);
    }
  }

  lemma {:induction false} RunInv(w: World, events: seq<Event>)
    requires Inv(w)
    ensures Inv(Run(w, events))
  {
    hide Inv, Step;
    if events != [] {
      RunInv(w, events[..|events| - 1]);
      StepInv(Run(w, events[..|events| - 1]), events[|events| - 1]);
    }
  }
}
