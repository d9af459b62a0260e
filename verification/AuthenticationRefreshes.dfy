/** What a refresh answers and leaves behind, over every run, and that whoever is granted a token holds the current one. */
module AuthenticationRefreshes {
  import opened Wrappers
  import opened RefreshTokens
  import opened AuthenticationRepository
  import opened AuthenticationProtocol
  import opened AuthenticationInvariants
  import opened AuthenticationTheorems

  /** A presented token passes if and only if it was signed here and the second of the clock lies from its issue up to, and
      not including, its expiry. Then a successor is signed for the same account, session and expiry and the given second,
      and the rotation is asked for with these two tokens; otherwise the refresh is rejected. */
  lemma RefreshMintDecision(accounts: Accounts, events: seq<Event>, n: nat)
    requires n < |events| && events[n].RefreshMint? && Enabled(Reached(accounts, events[..n]), events[n])
    ensures
      var RefreshMint(request, token, clock, jti) := events[n];
      var w := Reached(accounts, events[..n]);
      var second := clock / 1000;
      var successor := Token(jti, token.accountId, token.sessionId, second, token.exp);
      Step(w, events[n]) ==
        if token in w.genuine && token.iat <= second < token.exp then w.(
          genuine := w.genuine + {successor},
          pending := w.pending[request := RefreshMinted(
            RotateInput(token.sessionId, token.accountId, Hash(token), Hash(successor), token.exp * 1000, second * 1000),
            token, successor, token.exp - second)])
        else w.(
          pending := w.pending - {request},
          responses := w.responses[request := InvalidRefreshToken],
          audit := w.audit.(refreshFailures := w.audit.refreshFailures + 1))
  {
    hide Run, SessionsInv, PendingsInv, HistoryInv;
    var w := Reached(accounts, events[..n]);
    var RefreshMint(request, token, clock, jti) := events[n];
    ReachedInv(accounts, events[..n]);
    PassesWhileLive(w, token, clock);
    if token in w.genuine && token.iat <= clock / 1000 < token.exp {
      SuccessorIssue(w.genuine, token, clock, jti);
    }
    assert Step(w, events[n]) == MintRefresh(w, request, token, clock, jti);
    hide Step, Verify, Issue, GenuineInv;
  }

  lemma PassesWhileLive(w: World, token: Token, clock: int)
    requires GenuineInv(w.genuine) && ClockReading(clock)
    ensures AuthenticationTokenIssuedAt(clock) == clock / 1000 * 1000
    ensures
      var verified := Verify(w.genuine, token, AuthenticationTokenIssuedAt(clock));
      && (verified.Some? <==> token in w.genuine && token.iat <= clock / 1000 < token.exp)
      && (verified.Some? ==>
            && verified.value == VerifiedRefreshToken(token.accountId, token.sessionId, token.jti, token.iat * 1000, token.exp * 1000)
            && ValidDate(token.exp * 1000))
  {
    TruncationIsFloor(clock);
    if token in w.genuine {
      VerifiedExactlyWhileLive(w.genuine, token, AuthenticationTokenIssuedAt(clock));
    }
  }

  /** The whole effect of the rotation step in every run: what the client is told, the row, the history and the audit. */
  lemma RefreshOutcome(accounts: Accounts, events: seq<Event>, n: nat)
    requires n < |events| && events[n].RefreshRotate? && Enabled(Reached(accounts, events[..n]), events[n])
    ensures
      var request := events[n].request;
      var w := Reached(accounts, events[..n]);
      var RefreshMinted(_, presented, successor, _) := w.pending[request];
      var id := presented.sessionId;
      var usedAt := successor.iat * 1000;
      var ended := w.(pending := w.pending - {request});
      Step(w, events[n]) ==
        if id !in w.sessions || w.sessions[id].revokedAt.Some? || w.sessions[id].expiresAt <= usedAt
           || presented.accountId !in w.accounts || w.accounts[presented.accountId].status != Active
           || w.accounts[presented.accountId].deletedAt.Some?
        then ended.(
          responses := w.responses[request := InvalidRefreshToken],
          audit := w.audit.(refreshFailures := w.audit.refreshFailures + 1))
        else
          var s := w.sessions[id];
          var updatedAt := if s.updatedAt < usedAt then usedAt else s.updatedAt;
          if IsCurrent(w.history, id, presented) then ended.(
            responses := w.responses[request := Granted(successor, successor.exp - successor.iat)],
            sessions := w.sessions[id := s.(
              refreshTokenHash := Hash(successor), lastUsedAt := Some(usedAt), updatedAt := updatedAt, version := s.version + 1)],
            history := w.history + [SessionRotated(id, presented, successor, usedAt)],
            audit := w.audit.(refreshSuccesses := w.audit.refreshSuccesses + 1))
          else if s.lastUsedAt.None? || s.lastUsedAt.value <= usedAt then ended.(
            responses := w.responses[request := InvalidRefreshToken],
            sessions := w.sessions[id := s.(revokedAt := Some(usedAt), updatedAt := updatedAt, version := s.version + 1)],
            history := w.history + [SessionRevoked(id, presented, usedAt)],
            audit := w.audit.(refreshReuses := w.audit.refreshReuses + 1))
          else ended.(responses := w.responses[request := Failed])
  {
    hide Run, Inv, Chain, IsCurrent, RotateSpec, RowInv;
    var w := Reached(accounts, events[..n]);
    var request := events[n].request;
    ReachedInv(accounts, events[..n]);
    RequestFits(w, request);
    RotationDecision(accounts, events[..n], request);
    RowIsOfTheTokensAccount(w, request);
    assert Step(w, events[n]) == RotateSession(w, request);
    hide Step;
  }

  lemma RowIsOfTheTokensAccount(w: World, request: RequestId)
    requires Inv(w) && Enabled(w, RefreshRotate(request))
    ensures
      var presented := w.pending[request].presented;
      presented.sessionId in w.sessions ==> w.sessions[presented.sessionId].accountId == presented.accountId
  {
    hide GenuineInv, PendingsInv, HistoryInv, Chain;
    RequestFits(w, request);
  }

  /** Whoever is granted a token, by a login or by a refresh, is the first to hold it, and it is the session's current token:
      it was in no chain before the step, it ends its chain after it, the row holds its hash, and the announced life is
      its own. */
  lemma GrantedTokenIsCurrent(accounts: Accounts, events: seq<Event>, n: nat, request: RequestId)
    requires n < |events|
    requires
      var w, after := Reached(accounts, events[..n]), Step(Reached(accounts, events[..n]), events[n]);
      && request in after.responses && after.responses[request].Granted?
      && (request in w.responses ==> w.responses[request] != after.responses[request])
    ensures
      var w, after := Reached(accounts, events[..n]), Step(Reached(accounts, events[..n]), events[n]);
      var Granted(t, life) := after.responses[request];
      var id := t.sessionId;
      && t !in Chain(w.history, id)
      && IsCurrent(after.history, id, t)
      && id in after.sessions && after.sessions[id].refreshTokenHash == Hash(t)
      && after.sessions[id].revokedAt.None?
      && life == t.exp - t.iat
  {
    hide Run, Inv, Step, Chain, IsCurrent;
    var w := Reached(accounts, events[..n]);
    ReachedInv(accounts, events[..n]);
    StepInv(w, events[n]);
    OnlyTwoStepsGrant(w, events[n], request);
    if events[n].LoginInsert? {
      InsertedIsCurrent(w, request);
    } else {
      RotatedIsCurrent(accounts, events, n);
    }
  }

  lemma OnlyTwoStepsGrant(w: World, e: Event, request: RequestId)
    requires request in Step(w, e).responses && Step(w, e).responses[request].Granted?
    requires request in w.responses ==> w.responses[request] != Step(w, e).responses[request]
    ensures Enabled(w, e) && (e == LoginInsert(request) || e == RefreshRotate(request))
  {
    hide RecordLogin, MintLogin, MintRefresh, Verify, Issue, RecordSpec, CreateSpec, RotateSpec, FreshSessionId, FreshTokenId, ClockReading;
    if Enabled(w, e) && (e.LoginRecord? || e.LoginMint? || e.RefreshMint?) {
      OtherStepsGrantNothing(w, e, request);
    }
  }

  lemma OtherStepsGrantNothing(w: World, e: Event, request: RequestId)
    requires Enabled(w, e) && (e.LoginRecord? || e.LoginMint? || e.RefreshMint?)
    ensures request in Step(w, e).responses && Step(w, e).responses[request].Granted? ==>
            request in w.responses && w.responses[request] == Step(w, e).responses[request]
  {
    hide InsertSession, RotateSession, Verify, Issue, RecordSpec, Candidate, Sanitized, FreshSessionId, FreshTokenId, ClockReading;
  }

  ghost predicate NowCurrent(before: World, after: World, response: Response)
    requires response.Granted?
  {
    var Granted(t, life) := response;
    var id := t.sessionId;
    && t !in Chain(before.history, id) && IsCurrent(after.history, id, t)
    && id in after.sessions && after.sessions[id].refreshTokenHash == Hash(t) && after.sessions[id].revokedAt.None?
    && life == t.exp - t.iat
  }

  lemma InsertedIsCurrent(w: World, request: RequestId)
    requires Inv(w) && Enabled(w, LoginInsert(request))
    requires Step(w, LoginInsert(request)).responses[request].Granted?
    ensures NowCurrent(w, Step(w, LoginInsert(request)), Step(w, LoginInsert(request)).responses[request])
  {
    hide Inv, Chain, Revocations, TokensFitRow, ChainInv, RowFitsChain, RowAccepted, DeviceAccepted, Eligible;
    OpenedRowFits(w, request);
    var p := w.pending[request];
    HistoryGrows(w.history, SessionOpened(p.insert.id, p.token), p.insert.id);
    assert [] + [p.token] == [p.token];
  }

  lemma RotatedIsCurrent(accounts: Accounts, events: seq<Event>, n: nat)
    requires n < |events| && events[n].RefreshRotate? && Enabled(Reached(accounts, events[..n]), events[n])
    requires Step(Reached(accounts, events[..n]), events[n]).responses[events[n].request].Granted?
    ensures
      var w, after := Reached(accounts, events[..n]), Step(Reached(accounts, events[..n]), events[n]);
      NowCurrent(w, after, after.responses[events[n].request])
  {
    hide Run, Inv, Step, Chain, RowInv;
    var w := Reached(accounts, events[..n]);
    ReachedInv(accounts, events[..n]);
    RequestFits(w, events[n].request);
    RefreshOutcome(accounts, events, n);
    var p := w.pending[events[n].request];
    var id := p.presented.sessionId;
    HistoryGrows(w.history, SessionRotated(id, p.presented, p.successor, p.successor.iat * 1000), id);
  }
}
