/** The refresh-token service: issuing, verifying and hashing.
    A token is identified with the claims it was signed over, so the hash is injective and
    "genuine" means "signed by this service". Instants are milliseconds since the epoch. */
module RefreshTokens {
  import opened Integers
  import opened Wrappers

  type AccountId = nat
  type SessionId = nat
  type TokenId = nat

  datatype Token = Token(jti: TokenId, accountId: AccountId, sessionId: SessionId, iat: int, exp: int)

  datatype TokenHash = Sha256(token: Token)

  datatype IssuedRefreshToken = IssuedRefreshToken(token: Token, expiresAt: int, expiresInSeconds: int)

  datatype VerifiedRefreshToken =
    VerifiedRefreshToken(accountId: AccountId, sessionId: SessionId, tokenId: TokenId, issuedAt: int, expiresAt: int)

  datatype IssueError = InvalidIssueData | InvalidLifetime

  const REFRESH_TOKEN_LIFETIME_SECONDS := 30 * 24 * 60 * 60
  const MAXIMUM_DATE := 8_640_000_000_000_000
  /** A JavaScript Date holds an instant at most this far from the epoch; anything else is an Invalid Date. */
  predicate ValidDate(at: int) {
    -MAXIMUM_DATE <= at <= MAXIMUM_DATE
  }

  /** The divisor is positive, so Dafny's division is the floor the program takes. */
  function UnixTime(at: int): int {
    at / 1000
  }

  function AuthenticationTokenIssuedAt(at: int): int {
    at / 1000 * 1000
  }

  function Issue(jti: TokenId, accountId: AccountId, sessionId: SessionId, issuedAt: int, expiresAt: Option<int>)
    : Result<IssuedRefreshToken, IssueError>
  {
    if !ValidDate(issuedAt) || (expiresAt.Some? && !ValidDate(expiresAt.value)) then
      Err(InvalidIssueData)
    else
      var iat := UnixTime(issuedAt);
      var exp := if expiresAt.Some? then UnixTime(expiresAt.value) else iat + REFRESH_TOKEN_LIFETIME_SECONDS;
      var expiresIn := exp - iat;
      if expiresIn <= 0 || expiresIn > REFRESH_TOKEN_LIFETIME_SECONDS then
        Err(InvalidLifetime)
      else
        Ok(IssuedRefreshToken(Token(jti, accountId, sessionId, iat, exp), exp * 1000, expiresIn))
  }

  /** The first guard is the library's signature and expiry check, the second the service's own claim checks. */
  function Verify(genuine: set<Token>, token: Token, currentDate: int): Option<VerifiedRefreshToken> {
    var now := UnixTime(currentDate);
    if !ValidDate(currentDate) then None
    else if token !in genuine || token.exp <= now then None
    else if
      || !SafeInteger(token.iat) || !SafeInteger(token.exp)
      || token.iat > now
      || token.exp <= token.iat
      || token.exp - token.iat > REFRESH_TOKEN_LIFETIME_SECONDS
    then None
    else Some(VerifiedRefreshToken(token.accountId, token.sessionId, token.jti, token.iat * 1000, token.exp * 1000))
  }

  function Hash(token: Token): TokenHash {
    Sha256(token)
  }

  /** What the service guarantees about every token it has signed. */
  predicate WellIssued(token: Token) {
    && ValidDate(token.iat * 1000)
    && 0 < token.exp - token.iat <= REFRESH_TOKEN_LIFETIME_SECONDS
  }

  /** Truncating to the second is the greatest whole second not after the instant, and is idempotent. */
  lemma TruncationIsFloor(at: int)
    ensures
      var cut := AuthenticationTokenIssuedAt(at);
      && cut <= at < cut + 1000
      && UnixTime(cut) * 1000 == cut
      && AuthenticationTokenIssuedAt(cut) == cut
      && UnixTime(cut) == UnixTime(at)
      && (ValidDate(at) ==> ValidDate(cut))
  {
    assert MAXIMUM_DATE == 8_640_000_000_000 * 1000;
  }

  /** A well issued token is accepted from its issue second up to, and not including, its expiry second,
      and rejected at every other valid instant. */
  lemma VerifiedExactlyWhileLive(genuine: set<Token>, token: Token, at: int)
    requires token in genuine && WellIssued(token) && ValidDate(at)
    ensures Verify(genuine, token, at).Some? <==> token.iat <= UnixTime(at) < token.exp
  {
    assert -MAXIMUM_SAFE_INTEGER <= token.iat <= MAXIMUM_SAFE_INTEGER;
  }

  /** After a successful verification at a truncated instant, issuing the successor can only fail because the
      signed expiry is not a representable Date; otherwise the successor keeps account, session and expiry, its
      remaining life is in range, and it is not longer than the life of the presented token. */
  lemma SuccessorIssue(genuine: set<Token>, token: Token, clock: int, jti: TokenId)
    requires ValidDate(clock)
    requires Verify(genuine, token, AuthenticationTokenIssuedAt(clock)).Some?
    ensures
      var usedAt := AuthenticationTokenIssuedAt(clock);
      var verified := Verify(genuine, token, usedAt).value;
      var issued := Issue(jti, verified.accountId, verified.sessionId, usedAt, Some(verified.expiresAt));
      && (issued.Ok? <==> ValidDate(token.exp * 1000))
      && (issued.Ok? ==>
        && issued.value.token == Token(jti, token.accountId, token.sessionId, UnixTime(clock), token.exp)
        && issued.value.expiresAt == verified.expiresAt
        && 1 <= issued.value.expiresInSeconds <= token.exp - token.iat <= REFRESH_TOKEN_LIFETIME_SECONDS
        && WellIssued(issued.value.token))
  {
    TruncationIsFloor(clock);
    assert token.exp * 1000 / 1000 == token.exp;
  }

  /** A login token lives exactly thirty days. */
  lemma LoginIssue(clock: int, jti: TokenId, accountId: AccountId, sessionId: SessionId)
    requires ValidDate(clock)
    ensures
      var issuedAt := AuthenticationTokenIssuedAt(clock);
      var issued := Issue(jti, accountId, sessionId, issuedAt, None);
      && issued.Ok?
      && issued.value.token == Token(jti, accountId, sessionId, UnixTime(clock), UnixTime(clock) + REFRESH_TOKEN_LIFETIME_SECONDS)
      && issued.value.expiresAt == issuedAt + 1000 * REFRESH_TOKEN_LIFETIME_SECONDS
      && issued.value.expiresInSeconds == REFRESH_TOKEN_LIFETIME_SECONDS
      && WellIssued(issued.value.token)
  {
    TruncationIsFloor(clock);
  }
}
