/** Login, registration and the refresh-token lifecycle. Every operation
    reads the clock once (`now`); BCrypt's random salt is the parameter `salt`. */
module AuthService {
  import opened Wrappers
  import opened Models
  import opened Tokens
  import opened Data
  import opened Jwt
  import AuditService

  /** Refresh tokens live for 7 days. */
  const RefreshTokenLifetime: Time := 7 * Day
  /** The access-token expiry reported to the client: 60 minutes. */
  const AccessTokenLifetime: Time := 60 * Minute

  datatype LoginRequest = LoginRequest(emailOrUsername: string, password: string, projectId: Option<string>)

  /** `LoginResponse`; the embedded user is identified by its id. */
  datatype LoginResponse = LoginResponse(
    accessToken: AccessToken, refreshToken: string, expiresAt: Time, userId: Guid)

  datatype RegisterRequest = RegisterRequest(
    username: string, email: string, password: string,
    firstName: Option<string>, lastName: Option<string>,
    phoneNumber: Option<string>, projectId: Option<string>)

  datatype RefreshTokenResponse = RefreshTokenResponse(
    accessToken: AccessToken, refreshToken: string, expiresAt: Time)

  datatype ChangePasswordRequest = ChangePasswordRequest(currentPassword: string, newPassword: string)

  /** The login lookup: the email or the username is exactly the identifier. */
  predicate IdentifiedBy(u: User, emailOrUsername: string) {
    u.email == emailOrUsername || u.username == emailOrUsername
  }

  /** Every refresh value stored in the table (as a token or as a
      replacement) came from the generator. */
  ghost predicate Issued(db: ApplicationDbContext, jwt: JwtService)
    reads db`refreshTokens, jwt`issued
  {
    forall k :: k in db.refreshTokens ==>
      db.refreshTokens[k].token in jwt.issued
      && (db.refreshTokens[k].replacedByToken.Some? ==> db.refreshTokens[k].replacedByToken.value in jwt.issued)
  }

  /** The row a fresh refresh value is stored in. */
  function NewRefreshToken(userId: Guid, value: string, ipAddress: Option<string>, now: Time): RefreshToken {
    RefreshToken(userId, value, now + RefreshTokenLifetime, None, None, ipAddress, now)
  }

  /** Generates a refresh value and saves it in a new row for `userId`. The
      save is refused when the client address is longer than its column;
      the value has been generated by then. */
  method AddRefreshToken(db: ApplicationDbContext, jwt: JwtService, userId: Guid, ipAddress: Option<string>, now: Time)
    returns (value: string, saved: bool)
    requires db.Valid() && Issued(db, jwt) && userId in db.users
    modifies db`refreshTokens, db`nextId, jwt`issued
    ensures db.Valid() && Issued(db, jwt)
    ensures value !in old(jwt.issued) && jwt.issued == old(jwt.issued) + {value}
    ensures saved <==> AtMost(ipAddress, 45)
    ensures saved ==>
      db.refreshTokens == old(db.refreshTokens)[old(db.nextId) := NewRefreshToken(userId, value, ipAddress, now)]
    ensures !saved ==> db.refreshTokens == old(db.refreshTokens)
  {
    value := jwt.GenerateRefreshToken();
    saved := AtMost(ipAddress, 45);
    if saved {
      var id := db.NewId();
      db.refreshTokens := db.refreshTokens[id := NewRefreshToken(userId, value, ipAddress, now)];
    }
  }

  /** `FirstOrDefaultAsync(u => u.Email == id || u.Username == id)`: some
      matching user, or none when no user matches. With one user matching
      by email and another by username the database picks either. */
  method FindUser(db: ApplicationDbContext, emailOrUsername: string) returns (found: Option<Guid>)
    ensures found.None? <==> forall k :: k in db.users ==> !IdentifiedBy(db.users[k], emailOrUsername)
    ensures found.Some? ==> found.value in db.users && IdentifiedBy(db.users[found.value], emailOrUsername)
  {
    if k :| k in db.users && IdentifiedBy(db.users[k], emailOrUsername) {
      found := Some(k);
    } else {
      found := None;
    }
  }

  /** `FirstOrDefaultAsync(rt => rt.Token == value)`: the row holding the value. */
  method FindToken(db: ApplicationDbContext, value: string) returns (found: Option<Guid>)
    requires db.Valid()
    ensures found.None? <==> forall k :: k in db.refreshTokens ==> db.refreshTokens[k].token != value
    ensures found.Some? ==> forall k :: k in db.refreshTokens ==> (db.refreshTokens[k].token == value <==> k == found.value)
  {
    if k :| k in db.refreshTokens && db.refreshTokens[k].token == value {
      found := Some(k);
    } else {
      found := None;
    }
  }

  /** `LoginAsync`. `picked` is the user the lookup returned, if any. */
  method Login(
    db: ApplicationDbContext, jwt: JwtService, request: LoginRequest,
    ipAddress: Option<string>, userAgent: Option<string>, now: Time)
    returns (r: Result<LoginResponse>, ghost picked: Option<Guid>)
    requires db.Valid() && Issued(db, jwt)
    modifies db`users, db`refreshTokens, db`auditLogs, db`nextId, jwt`issued
    ensures db.Valid() && Issued(db, jwt)
    ensures picked.None? <==> forall k :: k in old(db.users) ==> !IdentifiedBy(old(db.users)[k], request.emailOrUsername)
    ensures picked.Some? ==> picked.value in old(db.users) && IdentifiedBy(old(db.users)[picked.value], request.emailOrUsername)
    // An unknown identifier and a wrong password fail alike, leaving only a
    // `LoginFailed` entry, unless that entry is too long for its columns.
    ensures picked.None? || !Verify(request.password, old(db.users)[picked.value].passwordHash) ==>
      var entry := AuditService.Entry(LoginFailed, None, None, Some("User"),
        Some("Failed login attempt: " + request.emailOrUsername), ipAddress, userAgent, now);
      && db.users == old(db.users) && db.refreshTokens == old(db.refreshTokens)
      && (AuditLogFits(entry) ==>
            r == Err(Unauthorized("Invalid credentials")) && db.auditLogs == old(db.auditLogs) + [entry])
      && (!AuditLogFits(entry) ==> r == Err(DbUpdate(SaveFailed)) && db.auditLogs == old(db.auditLogs))
    // A verified password of an account that is not active fails without a trace.
    ensures picked.Some? && Verify(request.password, old(db.users)[picked.value].passwordHash)
            && old(db.users)[picked.value].status != Active ==>
      && r == Err(Unauthorized("Account is not active"))
      && db.users == old(db.users) && db.refreshTokens == old(db.refreshTokens)
      && db.auditLogs == old(db.auditLogs)
    // Success: last login stamped, one new token for the user, one `LoginSuccess`
    // entry. Each is its own save: a client address too long for the token
    // row, or a user agent too long for the entry, fails the call after the
    // earlier saves.
    ensures picked.Some? && Verify(request.password, old(db.users)[picked.value].passwordHash)
            && old(db.users)[picked.value].status == Active ==>
      var u := picked.value;
      && db.users == old(db.users)[u := old(db.users)[u].(lastLoginAt := Some(now))]
      && (!AtMost(ipAddress, 45) ==>
            && r == Err(DbUpdate(SaveFailed))
            && db.refreshTokens == old(db.refreshTokens) && db.auditLogs == old(db.auditLogs))
      && (AtMost(ipAddress, 45) ==>
            && old(db.nextId) in db.refreshTokens
            && var value := db.refreshTokens[old(db.nextId)].token;
            && value !in old(jwt.issued)
            && db.refreshTokens == old(db.refreshTokens)[old(db.nextId) := NewRefreshToken(u, value, ipAddress, now)]
            && (AtMost(userAgent, 500) ==>
                  && r == Ok(LoginResponse(AccessToken(u), value, now + AccessTokenLifetime, u))
                  && db.auditLogs == old(db.auditLogs) + [AuditService.Entry(LoginSuccess, Some(u), Some(u),
                       Some("User"), Some("Successful login"), ipAddress, userAgent, now)])
            && (!AtMost(userAgent, 500) ==> r == Err(DbUpdate(SaveFailed)) && db.auditLogs == old(db.auditLogs)))
  {
    var found := FindUser(db, request.emailOrUsername);
    picked := found;
    if found.None? || !Verify(request.password, db.users[found.value].passwordHash) {
      var saved := AuditService.LogActivity(db, LoginFailed, None, None, Some("User"),
        Some("Failed login attempt: " + request.emailOrUsername), ipAddress, userAgent, now);
      if !saved {
        return Err(DbUpdate(SaveFailed)), picked;
      }
      return Err(Unauthorized("Invalid credentials")), picked;
    }
    var u := found.value;
    if db.users[u].status != Active {
      return Err(Unauthorized("Account is not active")), picked;
    }
    r := SignIn(db, jwt, u, ipAddress, userAgent, now);
  }

  /** The successful end of `LoginAsync` for the active user `u`: last login
      stamped, one new token for the user, one `LoginSuccess` entry. Each is
      its own save: a client address too long for the token row, or a user
      agent too long for the entry, fails the call after the earlier saves. */
  method SignIn(db: ApplicationDbContext, jwt: JwtService, u: Guid,
    ipAddress: Option<string>, userAgent: Option<string>, now: Time)
    returns (r: Result<LoginResponse>)
    requires db.Valid() && Issued(db, jwt) && u in db.users
    modifies db`users, db`refreshTokens, db`auditLogs, db`nextId, jwt`issued
    ensures db.Valid() && Issued(db, jwt)
    ensures db.users == old(db.users)[u := old(db.users)[u].(lastLoginAt := Some(now))]
    ensures !AtMost(ipAddress, 45) ==>
      && r == Err(DbUpdate(SaveFailed))
      && db.refreshTokens == old(db.refreshTokens) && db.auditLogs == old(db.auditLogs)
    ensures AtMost(ipAddress, 45) ==>
      && old(db.nextId) in db.refreshTokens
      && var value := db.refreshTokens[old(db.nextId)].token;
      && value !in old(jwt.issued)
      && db.refreshTokens == old(db.refreshTokens)[old(db.nextId) := NewRefreshToken(u, value, ipAddress, now)]
      && (AtMost(userAgent, 500) ==>
            && r == Ok(LoginResponse(AccessToken(u), value, now + AccessTokenLifetime, u))
            && db.auditLogs == old(db.auditLogs) + [AuditService.Entry(LoginSuccess, Some(u), Some(u),
                 Some("User"), Some("Successful login"), ipAddress, userAgent, now)])
      && (!AtMost(userAgent, 500) ==> r == Err(DbUpdate(SaveFailed)) && db.auditLogs == old(db.auditLogs))
  {
    assert UserFits(db.users[u]);
    db.users := db.users[u := db.users[u].(lastLoginAt := Some(now))];
    var accessToken := GenerateAccessToken(u);
    var refreshToken, stored := AddRefreshToken(db, jwt, u, ipAddress, now);
    if !stored {
      return Err(DbUpdate(SaveFailed));
    }
    var saved := AuditService.LogActivity(db, LoginSuccess, Some(u), Some(u), Some("User"),
      Some("Successful login"), ipAddress, userAgent, now);
    if !saved {
      return Err(DbUpdate(SaveFailed));
    }
    r := Ok(LoginResponse(accessToken, refreshToken, now + AccessTokenLifetime, u));
  }

  /** The user `RegisterAsync` creates. */
  function RegisteredUser(request: RegisterRequest, salt: nat, now: Time): User {
    User(request.username, request.email, HashPassword(request.password, salt),
      request.firstName, request.lastName, request.phoneNumber, None, Active, None,
      now, now, None, None, request.projectId)
  }

  /** `RegisterAsync`: the new user's id. The user and the `UserCreated`
      entry are two saves: a field too long for its column refuses the
      first, a client address too long for its column the second, after the
      user is stored. */
  method Register(db: ApplicationDbContext, request: RegisterRequest, ipAddress: Option<string>, salt: nat, now: Time)
    returns (r: Result<Guid>)
    requires db.Valid()
    modifies db`users, db`auditLogs, db`nextId
    ensures db.Valid()
    ensures UserExists(old(db.users), request.email, request.username) ==>
      && r == Err(InvalidOperation("User already exists"))
      && db.users == old(db.users) && db.auditLogs == old(db.auditLogs)
    ensures !UserExists(old(db.users), request.email, request.username) && !UserFits(RegisteredUser(request, salt, now)) ==>
      && r == Err(DbUpdate(SaveFailed))
      && db.users == old(db.users) && db.auditLogs == old(db.auditLogs)
    ensures !UserExists(old(db.users), request.email, request.username) && UserFits(RegisteredUser(request, salt, now)) ==>
      var id := old(db.nextId);
      && id !in old(db.users)
      && db.users == old(db.users)[id := RegisteredUser(request, salt, now)]
      && db.users[id].status == Active
      && Verify(request.password, db.users[id].passwordHash)
      && (AtMost(ipAddress, 45) ==>
            && r == Ok(id)
            && db.auditLogs == old(db.auditLogs) + [AuditService.Entry(UserCreated, Some(id), Some(id),
                 Some("User"), Some("User registered: " + request.email), ipAddress, None, now)])
      && (!AtMost(ipAddress, 45) ==> r == Err(DbUpdate(SaveFailed)) && db.auditLogs == old(db.auditLogs))
  {
    if UserExists(db.users, request.email, request.username) {
      return Err(InvalidOperation("User already exists"));
    }
    var user := RegisteredUser(request, salt, now);
    if !UserFits(user) {
      return Err(DbUpdate(SaveFailed));
    }
    var id := db.NewId();
    db.users := db.users[id := user];
    var saved := AuditService.LogActivity(db, UserCreated, Some(id), Some(id), Some("User"),
      Some("User registered: " + request.email), ipAddress, None, now);
    if !saved {
      return Err(DbUpdate(SaveFailed));
    }
    r := Ok(id);
  }

  /** The presented row after a successful refresh: revoked now, and pointing
      at the separately generated value `replacement`. */
  function Rotated(t: RefreshToken, now: Time, replacement: string): (r: RefreshToken)
    ensures !IsActive(r, now) && r.revokedAt == Some(now)
    ensures r.(revokedAt := t.revokedAt, replacedByToken := t.replacedByToken) == t
  {
    t.(revokedAt := Some(now), replacedByToken := Some(replacement))
  }

  /** Revokes row `k` now and stores a newly generated value as its
      `ReplacedByToken`. */
  method Rotate(db: ApplicationDbContext, jwt: JwtService, k: Guid, now: Time) returns (replacement: string)
    requires db.Valid() && Issued(db, jwt) && k in db.refreshTokens
    modifies db`refreshTokens, jwt`issued
    ensures db.Valid() && Issued(db, jwt)
    ensures replacement !in old(jwt.issued) && jwt.issued == old(jwt.issued) + {replacement}
    ensures db.refreshTokens == old(db.refreshTokens)[k := Rotated(old(db.refreshTokens)[k], now, replacement)]
  {
    replacement := jwt.GenerateRefreshToken();
    assert TokenFits(db.refreshTokens[k]);
    db.refreshTokens := db.refreshTokens[k := Rotated(db.refreshTokens[k], now, replacement)];
  }

  /** `RefreshTokenAsync`. The user's status is not consulted. */
  method Refresh(db: ApplicationDbContext, jwt: JwtService, value: string, ipAddress: Option<string>, now: Time)
    returns (r: Result<RefreshTokenResponse>)
    requires db.Valid() && Issued(db, jwt)
    modifies db`refreshTokens, db`nextId, jwt`issued
    ensures db.Valid() && Issued(db, jwt)
    // An unknown, revoked or expired value fails and changes nothing.
    ensures (forall k :: k in old(db.refreshTokens) && old(db.refreshTokens)[k].token == value ==>
               !IsActive(old(db.refreshTokens)[k], now)) ==>
      r == Err(Unauthorized("Invalid refresh token")) && db.refreshTokens == old(db.refreshTokens)
    // The rotation and the new row are one save: a client address too long
    // for its column refuses both.
    ensures (exists k :: k in old(db.refreshTokens) && old(db.refreshTokens)[k].token == value
                         && IsActive(old(db.refreshTokens)[k], now)) && !AtMost(ipAddress, 45) ==>
      r == Err(DbUpdate(SaveFailed)) && db.refreshTokens == old(db.refreshTokens)
    ensures forall k :: k in old(db.refreshTokens) && old(db.refreshTokens)[k].token == value
                        && IsActive(old(db.refreshTokens)[k], now) && AtMost(ipAddress, 45) ==>
      var t := old(db.refreshTokens)[k];
      && r.Ok?
      && r.value == RefreshTokenResponse(AccessToken(t.userId), r.value.refreshToken, now + AccessTokenLifetime)
      && k in db.refreshTokens && db.refreshTokens[k].replacedByToken.Some?
      && var replacement := db.refreshTokens[k].replacedByToken.value;
      && replacement !in old(jwt.issued) && r.value.refreshToken !in old(jwt.issued)
      && replacement != r.value.refreshToken
      && db.refreshTokens == old(db.refreshTokens)[k := Rotated(t, now, replacement)]
                               [old(db.nextId) := NewRefreshToken(t.userId, r.value.refreshToken, ipAddress, now)]
  {
    var found := FindToken(db, value);
    if found.None? || !IsActive(db.refreshTokens[found.value], now) {
      return Err(Unauthorized("Invalid refresh token"));
    }
    if !AtMost(ipAddress, 45) {
      return Err(DbUpdate(SaveFailed));
    }
    var k := found.value;
    var t := db.refreshTokens[k];
    var replacement := Rotate(db, jwt, k, now);
    var accessToken := GenerateAccessToken(t.userId);
    var refreshToken, _ := AddRefreshToken(db, jwt, t.userId, ipAddress, now);
    r := Ok(RefreshTokenResponse(accessToken, refreshToken, now + AccessTokenLifetime));
  }

  /** `ChangePasswordAsync`. No refresh token is touched. */
  method ChangePassword(db: ApplicationDbContext, userId: Guid, request: ChangePasswordRequest, salt: nat, now: Time)
    returns (r: Result<bool>)
    requires db.Valid()
    modifies db`users, db`auditLogs
    ensures db.Valid()
    ensures db.refreshTokens == old(db.refreshTokens)
    ensures userId !in old(db.users) ==>
      r == Err(KeyNotFound("User not found")) && db.users == old(db.users) && db.auditLogs == old(db.auditLogs)
    ensures userId in old(db.users) && !Verify(request.currentPassword, old(db.users)[userId].passwordHash) ==>
      && r == Err(Unauthorized("Current password is incorrect"))
      && db.users == old(db.users) && db.auditLogs == old(db.auditLogs)
    ensures userId in old(db.users) && Verify(request.currentPassword, old(db.users)[userId].passwordHash) ==>
      && r == Ok(true)
      && db.users == old(db.users)[userId := old(db.users)[userId].(
           passwordHash := HashPassword(request.newPassword, salt), updatedAt := now)]
      && Verify(request.newPassword, db.users[userId].passwordHash)
      && db.auditLogs == old(db.auditLogs) + [AuditService.Entry(PasswordChanged, Some(userId), Some(userId),
           Some("User"), Some("Password changed"), None, None, now)]
  {
    if userId !in db.users {
      return Err(KeyNotFound("User not found"));
    }
    if !Verify(request.currentPassword, db.users[userId].passwordHash) {
      return Err(Unauthorized("Current password is incorrect"));
    }
    assert UserFits(db.users[userId]);
    db.users := db.users[userId := db.users[userId].(
      passwordHash := HashPassword(request.newPassword, salt), updatedAt := now)];
    var _ := AuditService.LogActivity(db, PasswordChanged, Some(userId), Some(userId), Some("User"),
      Some("Password changed"), None, None, now);
    r := Ok(true);
  }

  /** Sets `RevokedAt = now` on row `k`, whatever it held before. */
  method Revoke(db: ApplicationDbContext, k: Guid, now: Time)
    requires db.Valid() && k in db.refreshTokens
    modifies db`refreshTokens
    ensures db.Valid()
    ensures db.refreshTokens == old(db.refreshTokens)[k := old(db.refreshTokens)[k].(revokedAt := Some(now))]
  {
    assert TokenFits(db.refreshTokens[k]);
    db.refreshTokens := db.refreshTokens[k := db.refreshTokens[k].(revokedAt := Some(now))];
  }

  /** `RevokeTokenAsync`: stamps `RevokedAt` on the row holding the value,
      overwriting an earlier revocation. */
  method RevokeToken(db: ApplicationDbContext, value: string, now: Time) returns (revoked: bool)
    requires db.Valid()
    modifies db`refreshTokens
    ensures db.Valid()
    ensures revoked <==> exists k :: k in old(db.refreshTokens) && old(db.refreshTokens)[k].token == value
    ensures !revoked ==> db.refreshTokens == old(db.refreshTokens)
    ensures forall k :: k in old(db.refreshTokens) && old(db.refreshTokens)[k].token == value ==>
      db.refreshTokens == old(db.refreshTokens)[k := old(db.refreshTokens)[k].(revokedAt := Some(now))]
  {
    var found := FindToken(db, value);
    if found.None? {
      return false;
    }
    Revoke(db, found.value, now);
    revoked := true;
  }

  /** The table after `RevokeAllUserTokensAsync(userId)` at `now`: the user's
      unrevoked rows, expired or not, are revoked now; nothing else changes. */
  ghost function RevokedAll(tokens: map<Guid, RefreshToken>, userId: Guid, now: Time): map<Guid, RefreshToken> {
    map k | k in tokens ::
      if tokens[k].userId == userId && tokens[k].revokedAt.None? then tokens[k].(revokedAt := Some(now))
      else tokens[k]
  }

  /** A table whose rows in `done` (the user's unrevoked ones) are revoked
      now and whose other rows are unchanged is `RevokedAll`. */
  lemma RevokedAllByRows(
    before: map<Guid, RefreshToken>, after: map<Guid, RefreshToken>, userId: Guid, now: Time, done: set<Guid>)
    requires done == set k | k in before && before[k].userId == userId && before[k].revokedAt.None?
    requires after.Keys == before.Keys
    requires forall k :: k in after ==>
      after[k] == if k in done then before[k].(revokedAt := Some(now)) else before[k]
    ensures after == RevokedAll(before, userId, now)
  {
  }

  /** Revoking all keeps every row's key, owner and value. */
  lemma RevokedAllKeepsRows(tokens: map<Guid, RefreshToken>, userId: Guid, now: Time)
    ensures var after := RevokedAll(tokens, userId, now);
      after.Keys == tokens.Keys
      && forall k :: k in after ==>
           after[k].userId == tokens[k].userId && after[k].token == tokens[k].token
           && after[k].ipAddress == tokens[k].ipAddress
  {
  }

  /** The `foreach` of `RevokeAllUserTokensAsync` over the rows the query
      selected (the user's rows with no `RevokedAt`), one row at a time. */
  method RevokeEach(tokens: map<Guid, RefreshToken>, userId: Guid, now: Time)
    returns (result: map<Guid, RefreshToken>)
    ensures result == RevokedAll(tokens, userId, now)
  {
    result := tokens;
    var pending := set k | k in tokens && tokens[k].userId == userId && tokens[k].revokedAt.None?;
    ghost var done: set<Guid> := {};
    while pending != {}
      invariant pending !! done
      invariant pending + done == set k | k in tokens && tokens[k].userId == userId && tokens[k].revokedAt.None?
      invariant result.Keys == tokens.Keys
      invariant forall k :: k in result ==>
        result[k] == if k in done then tokens[k].(revokedAt := Some(now)) else tokens[k]
      decreases pending
    {
      var k :| k in pending;
      result := result[k := result[k].(revokedAt := Some(now))];
      pending := pending - {k};
      done := done + {k};
    }
    RevokedAllByRows(tokens, result, userId, now, done);
  }

  /** `RevokeAllUserTokensAsync`. */
  method RevokeAll(db: ApplicationDbContext, userId: Guid, now: Time) returns (ok: bool)
    requires db.Valid()
    modifies db`refreshTokens
    ensures db.Valid()
    ensures db.refreshTokens == RevokedAll(old(db.refreshTokens), userId, now)
    ensures ok
  {
    var revoked := RevokeEach(db.refreshTokens, userId, now);
    RevokedAllKeepsRows(db.refreshTokens, userId, now);
    assert forall k :: k in revoked ==> TokenFits(revoked[k]) by {
      forall k | k in revoked ensures TokenFits(revoked[k]) {
        assert TokenFits(db.refreshTokens[k]);
      }
    }
    db.refreshTokens := revoked;
    ok := true;
  }

  /** After revoking all of a user's tokens, none of them is active at any
      time, and every other user's rows are as they were. */
  lemma RevokeAllDeactivates(tokens: map<Guid, RefreshToken>, userId: Guid, now: Time, later: Time)
    ensures RevokedAll(tokens, userId, now).Keys == tokens.Keys
    ensures forall k :: k in tokens && tokens[k].userId == userId ==>
      !IsActive(RevokedAll(tokens, userId, now)[k], later)
    ensures forall k :: k in tokens && tokens[k].userId != userId ==>
      RevokedAll(tokens, userId, now)[k] == tokens[k]
  {
  }

  /** Revoking all again, at any later time, changes nothing: the first
      revocation stamps stay. */
  lemma RevokeAllIdempotent(tokens: map<Guid, RefreshToken>, userId: Guid, now: Time, later: Time)
    ensures RevokedAll(RevokedAll(tokens, userId, now), userId, later) == RevokedAll(tokens, userId, now)
  {
    var once := RevokedAll(tokens, userId, now);
    assert forall k :: k in once ==> RevokedAll(once, userId, later)[k] == once[k];
  }
}
