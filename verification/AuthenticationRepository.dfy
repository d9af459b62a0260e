/** The two tables and the three conditional writes of the authentication repositories.
    Each write is one locked transaction, so it is one atomic step here. */
module AuthenticationRepository {
  import opened Wrappers
  import opened RefreshTokens
  import opened TextNormalization

  datatype AccountStatus = Active | Blocked | Disabled

  /** An argon2id hash: it verifies exactly the password it was computed from. */
  datatype PasswordHash = Argon2id(password: string, salt: nat)

  datatype Account = Account(
    emailNormalized: Option<string>,
    passwordHash: Option<PasswordHash>,
    status: AccountStatus,
    mfaEnabled: bool,
    lastLoginAt: Option<int>,
    updatedAt: int,
    version: int,
    deletedAt: Option<int>)

  datatype Session = Session(
    accountId: AccountId,
    refreshTokenHash: TokenHash,
    expiresAt: int,
    lastUsedAt: Option<int>,
    revokedAt: Option<int>,
    createdAt: int,
    updatedAt: int,
    version: int)

  type Accounts = map<AccountId, Account>
  type Sessions = map<SessionId, Session>

  /** A transaction either commits with a value or is aborted by a constraint and changes nothing. */
  datatype Transaction<+T> = Committed(value: T) | Aborted

  datatype RotateResult = Invalid | Reused | Rotated

  /** What a client says about its device. */
  datatype Device = Device(identifier: string, name: Option<string>, userAgent: Option<string>)

  datatype CreateInput = CreateInput(
    id: SessionId,
    accountId: AccountId,
    refreshTokenHash: TokenHash,
    device: Device,
    expiresAt: int,
    createdAt: int)

  datatype RotateInput = RotateInput(
    sessionId: SessionId,
    accountId: AccountId,
    presentedRefreshTokenHash: TokenHash,
    successorRefreshTokenHash: TokenHash,
    expectedExpiresAt: int,
    usedAt: int)

  function Greatest(a: int, b: int): int {
    if a >= b then a else b
  }

  predicate Eligible(accounts: Accounts, id: AccountId) {
    id in accounts && accounts[id].status == Active && accounts[id].deletedAt.None?
  }

  /** The lifecycle check and the version check of the session table. */
  predicate LifecycleCheck(s: Session) {
    && s.expiresAt > s.createdAt
    && (s.lastUsedAt.None? || s.createdAt <= s.lastUsedAt.value < s.expiresAt)
    && (s.revokedAt.None? || s.revokedAt.value >= s.createdAt)
    && (s.revokedAt.None? || s.lastUsedAt.None? || s.lastUsedAt.value <= s.revokedAt.value)
    && s.version > 0
  }

  /** The unique index on refresh_token_hash, seen from the row about to be stored under id. */
  predicate HashIsFree(sessions: Sessions, id: SessionId, hash: TokenHash) {
    forall other | other in sessions && other != id :: sessions[other].refreshTokenHash != hash
  }

  /** The table accepts the row under id. */
  predicate RowAccepted(sessions: Sessions, id: SessionId, row: Session) {
    LifecycleCheck(row) && HashIsFree(sessions, id, row.refreshTokenHash)
  }

  /** The checks on the three device columns. No later write touches these columns. */
  predicate DeviceAccepted(device: Device) {
    ValidIdentifier(device.identifier) && TableTextCheck(device.name) && TableTextCheck(device.userAgent)
  }

  function NewRow(input: CreateInput): Session {
    Session(input.accountId, input.refreshTokenHash, input.expiresAt, None, None, input.createdAt, input.createdAt, 1)
  }

  function RotatedRow(s: Session, input: RotateInput): Session {
    s.(refreshTokenHash := input.successorRefreshTokenHash, lastUsedAt := Some(input.usedAt),
       updatedAt := Greatest(s.updatedAt, input.usedAt), version := s.version + 1)
  }

  function RevokedRow(s: Session, input: RotateInput): Session {
    s.(revokedAt := Some(input.usedAt), updatedAt := Greatest(s.updatedAt, input.usedAt), version := s.version + 1)
  }

  /** The locked select of the rotation finds the session. */
  predicate Rotatable(accounts: Accounts, sessions: Sessions, input: RotateInput) {
    && input.sessionId in sessions
    && var s := sessions[input.sessionId];
       && s.accountId == input.accountId
       && s.expiresAt == input.expectedExpiresAt
       && s.revokedAt.None?
       && s.expiresAt > input.usedAt
       && Eligible(accounts, s.accountId)
  }

  /** isAuthSessionActive */
  predicate IsAuthSessionActive(s: Session, at: int) {
    s.revokedAt.None? && s.expiresAt > at
  }

  /** What a rotation answers and leaves behind. The guards the updates repeat are absent:
      the row is locked, so the update hits exactly the selected row. */
  function RotateSpec(accounts: Accounts, sessions: Sessions, input: RotateInput): (Transaction<RotateResult>, Sessions) {
    if !Rotatable(accounts, sessions, input) then (Committed(Invalid), sessions)
    else
      var s := sessions[input.sessionId];
      var reused := s.refreshTokenHash != input.presentedRefreshTokenHash;
      var row := if reused then RevokedRow(s, input) else RotatedRow(s, input);
      if RowAccepted(sessions, input.sessionId, row)
      then (Committed(if reused then Reused else Rotated), sessions[input.sessionId := row])
      else (Aborted, sessions)
  }

  function CreateSpec(accounts: Accounts, sessions: Sessions, input: CreateInput): (Transaction<bool>, Sessions) {
    if !Eligible(accounts, input.accountId) then (Committed(false), sessions)
    else if input.id in sessions || !DeviceAccepted(input.device) || !RowAccepted(sessions, input.id, NewRow(input))
    then (Aborted, sessions)
    else (Committed(true), sessions[input.id := NewRow(input)])
  }

  predicate LoginRecordable(accounts: Accounts, id: AccountId, expected: PasswordHash) {
    Eligible(accounts, id) && accounts[id].passwordHash == Some(expected)
  }

  function LoggedIn(account: Account, occurredAt: int): Account {
    account.(
      lastLoginAt := Some(Greatest(account.lastLoginAt.GetOr(occurredAt), occurredAt)),
      updatedAt := Greatest(account.updatedAt, occurredAt),
      version := account.version + 1)
  }

  function RecordSpec(accounts: Accounts, id: AccountId, expected: PasswordHash, occurredAt: int): (bool, Accounts) {
    if LoginRecordable(accounts, id, expected)
    then (true, accounts[id := LoggedIn(accounts[id], occurredAt)])
    else (false, accounts)
  }

  /** A rotation whose select succeeds is never answered with "invalid", at most one row changes, and that row
      changes exactly when the answer says so. */
  lemma RotateTouchesOneRow(accounts: Accounts, sessions: Sessions, input: RotateInput)
    ensures
      var (answer, after) := RotateSpec(accounts, sessions, input);
      && (Rotatable(accounts, sessions, input) <==> answer != Committed(Invalid))
      && after.Keys == sessions.Keys
      && (forall id | id in sessions && id != input.sessionId :: after[id] == sessions[id])
      && (after != sessions <==> answer == Committed(Reused) || answer == Committed(Rotated))
      && (answer == Committed(Rotated) ==> IsAuthSessionActive(after[input.sessionId], input.usedAt))
      && (answer == Committed(Reused) ==> forall at :: !IsAuthSessionActive(after[input.sessionId], at))
  {
    if Rotatable(accounts, sessions, input) {
      var s := sessions[input.sessionId];
      assert RevokedRow(s, input).version != s.version && RotatedRow(s, input).version != s.version;
    }
  }

  /** The session row and its account, locked and updated by the statements of the repositories. */
  class AuthenticationRepositories {
    var accounts: Accounts
    var sessions: Sessions

    constructor (accounts: Accounts)
      ensures this.accounts == accounts && sessions == map[]
    {
      this.accounts, this.sessions := accounts, map[];
    }

    method RecordSuccessfulLogin(accountId: AccountId, expectedPasswordHash: PasswordHash, occurredAt: int)
      returns (recorded: bool)
      modifies this`accounts
      ensures (recorded, accounts) == RecordSpec(old(accounts), accountId, expectedPasswordHash, occurredAt)
    {
      if accountId !in accounts {
        return false;
      }
      var account := accounts[accountId];
      if account.passwordHash != Some(expectedPasswordHash) || account.status != Active || account.deletedAt.Some? {
        return false;
      }
      var lastLoginAt := if account.lastLoginAt.Some? then account.lastLoginAt.value else occurredAt;
      account := account.(lastLoginAt := Some(Greatest(lastLoginAt, occurredAt)));
      account := account.(updatedAt := Greatest(account.updatedAt, occurredAt));
      account := account.(version := account.version + 1);
      accounts := accounts[accountId := account];
      recorded := true;
    }

    method Create(input: CreateInput) returns (created: Transaction<bool>)
      modifies this`sessions
      ensures (created, sessions) == CreateSpec(accounts, old(sessions), input)
    {
      if !Eligible(accounts, input.accountId) {
        return Committed(false);
      }
      if input.id in sessions || !DeviceAccepted(input.device) {
        return Aborted;
      }
      var stored := Store(input.id, NewRow(input));
      created := if stored then Committed(true) else Aborted;
    }

    method Rotate(input: RotateInput) returns (result: Transaction<RotateResult>)
      modifies this`sessions
      ensures (result, sessions) == RotateSpec(accounts, old(sessions), input)
    {
      if !Rotatable(accounts, sessions, input) {
        return Committed(Invalid);
      }
      var session := sessions[input.sessionId];
      if session.refreshTokenHash != input.presentedRefreshTokenHash {
        var revoked := UpdateWhere(input.sessionId, session.refreshTokenHash, input.usedAt, RevokedRow(session, input));
        return match revoked case Aborted => Aborted case Committed(hits) => Committed(if hits == 1 then Reused else Invalid);
      }
      var rotated := UpdateWhere(input.sessionId, input.presentedRefreshTokenHash, input.usedAt, RotatedRow(session, input));
      result := match rotated case Aborted => Aborted case Committed(hits) => Committed(if hits == 1 then Rotated else Invalid);
    }

    /** UPDATE auth_sessions SET ... WHERE id and hash match and the session is active at usedAt: the number of rows hit. */
    method UpdateWhere(id: SessionId, hash: TokenHash, usedAt: int, row: Session) returns (hits: Transaction<nat>)
      modifies this`sessions
      ensures
        var hit := id in old(sessions) && old(sessions)[id].refreshTokenHash == hash && IsAuthSessionActive(old(sessions)[id], usedAt);
        var accepted := RowAccepted(old(sessions), id, row);
        && hits == (if !hit then Committed(0) else if accepted then Committed(1) else Aborted)
        && sessions == (if hit && accepted then old(sessions)[id := row] else old(sessions))
    {
      if id !in sessions || sessions[id].refreshTokenHash != hash || !IsAuthSessionActive(sessions[id], usedAt) {
        return Committed(0);
      }
      var stored := Store(id, row);
      hits := if stored then Committed(1) else Aborted;
    }

    /** Writes the row if the table's checks and its unique index accept it. */
    method Store(id: SessionId, row: Session) returns (stored: bool)
      modifies this`sessions
      ensures stored == RowAccepted(old(sessions), id, row)
      ensures sessions == if stored then old(sessions)[id := row] else old(sessions)
    {
      stored := LifecycleCheck(row);
      var others := sessions.Keys - {id};
      while others != {} && stored
        invariant others <= sessions.Keys - {id}
        invariant stored ==> LifecycleCheck(row)
        invariant stored ==> forall other | other in sessions.Keys - {id} - others :: sessions[other].refreshTokenHash != row.refreshTokenHash
        invariant !stored ==> !RowAccepted(sessions, id, row)
        decreases others
      {
        var other :| other in others;
        others := others - {other};
        stored := sessions[other].refreshTokenHash != row.refreshTokenHash;
      }
      if stored {
        sessions := sessions[id := row];
      }
    }
  }
}
