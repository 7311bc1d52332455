/** Users and the roles assigned to them: creating, updating, deleting and
    listing users, and assigning and revoking roles. */
module UserService {
  import opened Wrappers
  import opened Models
  import opened Text
  import opened Queries
  import opened Tokens
  import opened Data
  import AuditService

  datatype CreateUserRequest = CreateUserRequest(
    username: string, email: string, password: string,
    firstName: Option<string>, lastName: Option<string>, phoneNumber: Option<string>,
    roleIds: Option<seq<Guid>>, projectId: Option<string>)

  datatype UpdateUserRequest = UpdateUserRequest(
    firstName: Option<string>, lastName: Option<string>, phoneNumber: Option<string>,
    avatar: Option<string>, status: Option<UserStatus>)

  // ---- Assigning roles ----

  /** How far the loop of `AssignRolesToUserAsync` gets: the role ids it
      stores, in order, and whether a save was refused on the way. */
  datatype Assignment = Assignment(added: seq<Guid>, failed: bool)

  /** The loop of `AssignRolesToUserAsync` over `ids`. `existing` is the
      user's roles read before the loop and never re-read. An id in it is
      skipped; any other id is stored and saved at once (by the audit write).
      The save is refused, and the loop stops, when the id names no role
      (`known`) or was stored earlier in the same list (the unique index on
      user and role). */
  function Assigned(existing: set<Guid>, known: set<Guid>, ids: seq<Guid>): (r: Assignment)
    ensures |r.added| <= |ids|
    ensures forall p {:trigger p in r.added} :: p in r.added ==> p in ids && p in known && p !in existing
  {
    if ids == [] then Assignment([], false)
    else
      var prev := Assigned(existing, known, ids[..|ids| - 1]);
      var p := ids[|ids| - 1];
      assert ids == ids[..|ids| - 1] + [p];
      if prev.failed || p in existing then prev
      else if p in known && p !in prev.added then Assignment(prev.added + [p], false)
      else Assignment(prev.added, true)
  }

  /** How the outcome of a list grows by its next id. */
  lemma AssignedStep(existing: set<Guid>, known: set<Guid>, ids: seq<Guid>, i: nat)
    requires i < |ids|
    ensures Assigned(existing, known, ids[..i + 1])
      == if Assigned(existing, known, ids[..i]).failed || ids[i] in existing then Assigned(existing, known, ids[..i])
         else if ids[i] in known && ids[i] !in Assigned(existing, known, ids[..i]).added
         then Assignment(Assigned(existing, known, ids[..i]).added + [ids[i]], false)
         else Assignment(Assigned(existing, known, ids[..i]).added, true)
  {
    assert ids[..i + 1][..i] == ids[..i];
  }

  /** Once a save is refused, the rest of the list is never looked at. */
  lemma {:induction false} AssignedStops(existing: set<Guid>, known: set<Guid>, ids: seq<Guid>, i: nat)
    requires i <= |ids| && Assigned(existing, known, ids[..i]).failed
    ensures Assigned(existing, known, ids) == Assigned(existing, known, ids[..i])
    decreases |ids| - i
  {
    if i == |ids| {
      assert ids[..i] == ids;
    } else {
      var prefix := ids[..|ids| - 1];
      assert prefix[..i] == ids[..i];
      AssignedStops(existing, known, prefix, i);
    }
  }

  /** No role is stored twice for the user by one call. */
  lemma {:induction false} AssignedDistinct(existing: set<Guid>, known: set<Guid>, ids: seq<Guid>)
    ensures forall i, j :: 0 <= i < j < |Assigned(existing, known, ids).added| ==>
      Assigned(existing, known, ids).added[i] != Assigned(existing, known, ids).added[j]
  {
    if ids != [] {
      var prefix, x := ids[..|ids| - 1], ids[|ids| - 1];
      AssignedDistinct(existing, known, prefix);
      var prev := Assigned(existing, known, prefix);
      if !prev.failed && x !in existing && x in known && x !in prev.added {
        var r := Assigned(existing, known, ids).added;
        assert r == prev.added + [x];
        forall i, j | 0 <= i < j < |r| ensures r[i] != r[j] {
          assert r[i] == prev.added[i];
          if j < |prev.added| {
            assert r[j] == prev.added[j];
          } else {
            assert prev.added[i] in prev.added;
          }
        }
      }
    }
  }

  /** The save of the `i`-th id is refused: the id is not one of the user's
      roles, and it names no role or came earlier in the list. */
  predicate Refused(existing: set<Guid>, known: set<Guid>, ids: seq<Guid>, i: nat)
    requires i < |ids|
  {
    ids[i] !in existing && (ids[i] !in known || ids[i] in ids[..i])
  }

  /** The call fails exactly when some listed id is refused; when it does
      not fail, every listed id the user did not hold is stored. */
  lemma {:induction false} AssignedOutcome(existing: set<Guid>, known: set<Guid>, ids: seq<Guid>)
    ensures Assigned(existing, known, ids).failed <==> exists i :: 0 <= i < |ids| && Refused(existing, known, ids, i)
    ensures !Assigned(existing, known, ids).failed ==>
      forall p :: p in ids && p !in existing ==> p in Assigned(existing, known, ids).added
  {
    if ids != [] {
      var prefix, x := ids[..|ids| - 1], ids[|ids| - 1];
      AssignedOutcome(existing, known, prefix);
      assert ids == prefix + [x];
      forall i | 0 <= i < |prefix| ensures Refused(existing, known, ids, i) == Refused(existing, known, prefix, i) {
        assert ids[..i] == prefix[..i];
      }
      assert ids[..|prefix|] == prefix;
      if Assigned(existing, known, prefix).failed {
        var i :| 0 <= i < |prefix| && Refused(existing, known, prefix, i);
        assert Refused(existing, known, ids, i);
      } else {
        forall i | 0 <= i < |ids| && Refused(existing, known, ids, i) ensures i == |prefix| {
          if i < |prefix| {
            assert false;
          }
        }
        if x !in existing && x in known && x in prefix {
          assert x in Assigned(existing, known, prefix).added;
        }
        if Assigned(existing, known, ids).failed {
          assert x in Assigned(existing, known, prefix).added ==> x in prefix;
          assert Refused(existing, known, ids, |prefix|);
        }
      }
    }
  }

  /** `userRoles` with an edge from `userId` to each of `added`, stored under
      consecutive ids from `start`. */
  function WithAssigned(
    userRoles: map<Guid, UserRole>, userId: Guid, added: seq<Guid>, start: Guid,
    assignedBy: Option<string>, now: Time): map<Guid, UserRole>
  {
    if added == [] then userRoles
    else
      WithAssigned(userRoles, userId, added[..|added| - 1], start, assignedBy, now)
        [start + |added| - 1 := UserRole(userId, added[|added| - 1], now, assignedBy)]
  }

  /** The rows of `WithAssigned`: the old rows unchanged, and one new row
      per stored role from `start` on. */
  lemma {:induction false} AssignedRows(
    userRoles: map<Guid, UserRole>, userId: Guid, added: seq<Guid>, start: Guid,
    assignedBy: Option<string>, now: Time)
    requires forall k :: k in userRoles ==> k < start
    ensures forall k :: (k in WithAssigned(userRoles, userId, added, start, assignedBy, now)
      <==> k in userRoles || start <= k < start + |added|)
    ensures forall k :: k in userRoles ==>
      WithAssigned(userRoles, userId, added, start, assignedBy, now)[k] == userRoles[k]
    ensures forall i :: 0 <= i < |added| ==>
      WithAssigned(userRoles, userId, added, start, assignedBy, now)[start + i]
        == UserRole(userId, added[i], now, assignedBy)
  {
    if added != [] {
      var prefix := added[..|added| - 1];
      AssignedRows(userRoles, userId, prefix, start, assignedBy, now);
      forall i | 0 <= i < |prefix| ensures added[i] == prefix[i] { }
    }
  }

  /** Storing adds exactly `added` to the user's roles and leaves every other
      user's roles as they were. */
  lemma AssignedRoles(
    userRoles: map<Guid, UserRole>, userId: Guid, added: seq<Guid>, start: Guid,
    assignedBy: Option<string>, now: Time)
    requires forall k :: k in userRoles ==> k < start
    ensures RolesOf(WithAssigned(userRoles, userId, added, start, assignedBy, now), userId)
            == RolesOf(userRoles, userId) + set p | p in added
    ensures forall other :: other != userId ==>
      RolesOf(WithAssigned(userRoles, userId, added, start, assignedBy, now), other)
        == RolesOf(userRoles, other)
  {
    var after := WithAssigned(userRoles, userId, added, start, assignedBy, now);
    AssignedRows(userRoles, userId, added, start, assignedBy, now);
    forall p | p in set p | p in added
      ensures p in RolesOf(after, userId)
    {
      var i :| 0 <= i < |added| && added[i] == p;
      assert after[start + i].roleId == p;
    }
    forall p | p in RolesOf(after, userId)
      ensures p in RolesOf(userRoles, userId) || p in added
    {
      var k :| k in after && after[k].userId == userId && after[k].roleId == p;
      if k !in userRoles {
        assert after[start + (k - start)].roleId == added[k - start];
      }
    }
    forall k | start <= k < start + |added| ensures after[k].userId == userId {
      var i := k - start;
      assert after[start + i] == UserRole(userId, added[i], now, assignedBy);
    }
    forall other, p | other != userId && p in RolesOf(after, other)
      ensures p in RolesOf(userRoles, other)
    {
      var k :| k in after && after[k].userId == other && after[k].roleId == p;
      assert k in userRoles;
    }
  }

  /** One more stored role is one more edge, under the next id. */
  lemma AssignedSnoc(
    userRoles: map<Guid, UserRole>, userId: Guid, added: seq<Guid>, p: Guid, start: Guid,
    assignedBy: Option<string>, now: Time)
    ensures WithAssigned(userRoles, userId, added + [p], start, assignedBy, now)
      == WithAssigned(userRoles, userId, added, start, assignedBy, now)
           [start + |added| := UserRole(userId, p, now, assignedBy)]
  {
    assert (added + [p])[..|added|] == added;
  }

  /** The `RoleAssigned` entry written for each stored role. */
  function RoleAssignedEntry(userId: Guid, now: Time): AuditLog {
    AuditService.Entry(RoleAssigned, Some(userId), Some(userId), Some("User"), Some("Role assigned to user"),
      None, None, now)
  }

  /** The loop of `AssignRolesToUserAsync` on the tables' contents: the new
      edges and how far it got. The test for a refused save is the unique
      index and the role foreign key: the user's stored roles are the ones
      read before the loop plus the ones stored so far (`AssignedRoles`). */
  method AssignEach(
    userRoles: map<Guid, UserRole>, roles: map<Guid, Role>, userId: Guid, roleIds: seq<Guid>,
    start: Guid, assignedBy: Option<string>, now: Time)
    returns (edges: map<Guid, UserRole>, outcome: Assignment, next: Guid)
    requires forall k :: k in userRoles ==> k < start
    ensures outcome == Assigned(RolesOf(userRoles, userId), roles.Keys, roleIds)
    ensures next == start + |outcome.added|
    ensures edges == WithAssigned(userRoles, userId, outcome.added, start, assignedBy, now)
  {
    var existing := RolesOf(userRoles, userId);
    var added: seq<Guid> := [];
    var failed := false;
    edges, next := userRoles, start;
    var i := 0;
    while i < |roleIds| && !failed
      invariant 0 <= i <= |roleIds|
      invariant Assignment(added, failed) == Assigned(existing, roles.Keys, roleIds[..i])
      invariant next == start + |added|
      invariant edges == WithAssigned(userRoles, userId, added, start, assignedBy, now)
    {
      var roleId := roleIds[i];
      AssignedStep(existing, roles.Keys, roleIds, i);
      if roleId !in existing {
        if roleId in roles && roleId !in added {
          AssignedSnoc(userRoles, userId, added, roleId, start, assignedBy, now);
          edges := edges[next := UserRole(userId, roleId, now, assignedBy)];
          next := next + 1;
          added := added + [roleId];
        } else {
          failed := true;
        }
      }
      i := i + 1;
    }
    if failed {
      AssignedStops(existing, roles.Keys, roleIds, i);
    } else {
      assert roleIds[..i] == roleIds;
    }
    outcome := Assignment(added, failed);
  }

  /** Storing edges from a user to distinct roles it does not hold keeps
      every constraint of the store. */
  lemma AssignedKeepValid(db: ApplicationDbContext, userId: Guid, added: seq<Guid>, assignedBy: Option<string>, now: Time)
    requires db.Valid() && userId in db.users
    requires forall p :: p in added ==> p in db.roles && p !in RolesOf(db.userRoles, userId)
    requires forall i, j :: 0 <= i < j < |added| ==> added[i] != added[j]
    ensures Consistent(db.users, db.roles, db.modules, db.features, db.permissions,
      WithAssigned(db.userRoles, userId, added, db.nextId, assignedBy, now), db.rolePermissions,
      db.refreshTokens, db.nextId + |added|)
  {
    var before := db.userRoles;
    var start := db.nextId;
    var after := WithAssigned(before, userId, added, start, assignedBy, now);
    AssignedRows(before, userId, added, start, assignedBy, now);
    forall a, b | a in after && b in after && a != b
      ensures (after[a].userId, after[a].roleId) != (after[b].userId, after[b].roleId)
    {
      if a !in before && b !in before {
        assert after[start + (a - start)].roleId == added[a - start];
        assert after[start + (b - start)].roleId == added[b - start];
      } else if a !in before {
        assert after[start + (a - start)].roleId == added[a - start];
        assert added[a - start] in added;
        if before[b].userId == userId {
          assert before[b].roleId in RolesOf(before, userId);
        }
      } else if b !in before {
        assert after[start + (b - start)].roleId == added[b - start];
        assert added[b - start] in added;
        if before[a].userId == userId {
          assert before[a].roleId in RolesOf(before, userId);
        }
      }
    }
    forall k | k in after ensures after[k].userId in db.users && after[k].roleId in db.roles {
      if k !in before {
        assert after[start + (k - start)] == UserRole(userId, added[k - start], now, assignedBy);
        assert added[k - start] in added;
      }
    }
  }

  /** `AssignRolesToUserAsync`. A refused save ends the call with the
      database's error; what earlier ids stored stays stored. */
  method AssignRoles(db: ApplicationDbContext, userId: Guid, roleIds: seq<Guid>, assignedBy: Option<string>, now: Time)
    returns (r: Result<bool>)
    requires db.Valid()
    modifies db`userRoles, db`nextId, db`auditLogs
    ensures db.Valid()
    ensures userId !in old(db.users) ==>
      && r == Err(KeyNotFound("User not found"))
      && db.userRoles == old(db.userRoles) && db.auditLogs == old(db.auditLogs)
    ensures userId in old(db.users) ==>
      var outcome := Assigned(RolesOf(old(db.userRoles), userId), old(db.roles).Keys, roleIds);
      && r == (if outcome.failed then Err(DbUpdate(SaveFailed)) else Ok(true))
      && db.userRoles == WithAssigned(old(db.userRoles), userId, outcome.added, old(db.nextId), assignedBy, now)
      && db.auditLogs == old(db.auditLogs) + seq(|outcome.added|, _ => RoleAssignedEntry(userId, now))
  {
    if userId !in db.users {
      return Err(KeyNotFound("User not found"));
    }
    var userRoles, outcome, nextId := AssignEach(db.userRoles, db.roles, userId, roleIds, db.nextId, assignedBy, now);
    AssignedDistinct(RolesOf(db.userRoles, userId), db.roles.Keys, roleIds);
    AssignedKeepValid(db, userId, outcome.added, assignedBy, now);
    db.userRoles, db.nextId := userRoles, nextId;
    db.auditLogs := db.auditLogs + seq(|outcome.added|, _ => RoleAssignedEntry(userId, now));
    r := if outcome.failed then Err(DbUpdate(SaveFailed)) else Ok(true);
  }

  /** A call that succeeds leaves the user holding the roles it held plus
      every listed id, and changes no other user's roles. */
  lemma AssignRolesGrants(
    userRoles: map<Guid, UserRole>, known: set<Guid>, userId: Guid, roleIds: seq<Guid>,
    start: Guid, assignedBy: Option<string>, now: Time)
    requires forall k :: k in userRoles ==> k < start
    requires !Assigned(RolesOf(userRoles, userId), known, roleIds).failed
    ensures RolesOf(WithAssigned(userRoles, userId, Assigned(RolesOf(userRoles, userId), known, roleIds).added,
              start, assignedBy, now), userId)
            == RolesOf(userRoles, userId) + set p | p in roleIds
    ensures forall other :: other != userId ==>
      RolesOf(WithAssigned(userRoles, userId, Assigned(RolesOf(userRoles, userId), known, roleIds).added,
        start, assignedBy, now), other)
      == RolesOf(userRoles, other)
  {
    var existing := RolesOf(userRoles, userId);
    var added := Assigned(existing, known, roleIds).added;
    AssignedOutcome(existing, known, roleIds);
    AssignedRoles(userRoles, userId, added, start, assignedBy, now);
  }

  // ---- Revoking roles ----

  /** `userRoles` without the edges from `userId` to any of `ids`. */
  function Unassigned(userRoles: map<Guid, UserRole>, userId: Guid, ids: seq<Guid>): (r: map<Guid, UserRole>)
    ensures forall k :: k in r <==> k in userRoles && !(userRoles[k].userId == userId && userRoles[k].roleId in ids)
  {
    map k | k in userRoles && !(userRoles[k].userId == userId && userRoles[k].roleId in ids) :: userRoles[k]
  }

  /** Revoking takes exactly `ids` away from the user and leaves every other
      user's roles as they were. */
  lemma UnassignedRoles(userRoles: map<Guid, UserRole>, userId: Guid, ids: seq<Guid>)
    ensures RolesOf(Unassigned(userRoles, userId, ids), userId) == RolesOf(userRoles, userId) - set p | p in ids
    ensures forall other :: other != userId ==>
      RolesOf(Unassigned(userRoles, userId, ids), other) == RolesOf(userRoles, other)
  {
    var after := Unassigned(userRoles, userId, ids);
    forall p | p in RolesOf(userRoles, userId) && p !in ids
      ensures p in RolesOf(after, userId)
    {
      var k :| k in userRoles && userRoles[k].userId == userId && userRoles[k].roleId == p;
      assert k in after;
    }
    forall other, p | other != userId && p in RolesOf(userRoles, other)
      ensures p in RolesOf(after, other)
    {
      var k :| k in userRoles && userRoles[k].userId == other && userRoles[k].roleId == p;
      assert k in after;
    }
  }

  /** Revoking the ids a successful assignment stored gives back what the
      user held before, less those ids. */
  lemma RevokeUndoesAssignRoles(
    userRoles: map<Guid, UserRole>, known: set<Guid>, userId: Guid, roleIds: seq<Guid>,
    start: Guid, assignedBy: Option<string>, now: Time)
    requires forall k :: k in userRoles ==> k < start
    requires !Assigned(RolesOf(userRoles, userId), known, roleIds).failed
    ensures RolesOf(Unassigned(WithAssigned(userRoles, userId, Assigned(RolesOf(userRoles, userId), known, roleIds).added,
              start, assignedBy, now), userId, roleIds), userId)
            == RolesOf(userRoles, userId) - set p | p in roleIds
  {
    var added := Assigned(RolesOf(userRoles, userId), known, roleIds).added;
    AssignRolesGrants(userRoles, known, userId, roleIds, start, assignedBy, now);
    UnassignedRoles(WithAssigned(userRoles, userId, added, start, assignedBy, now), userId, roleIds);
  }

  /** The `RoleRevoked` entry written for each listed id. */
  function RoleRevokedEntry(userId: Guid, now: Time): AuditLog {
    AuditService.Entry(RoleRevoked, Some(userId), Some(userId), Some("User"), Some("Role revoked from user"),
      None, None, now)
  }

  /** `RevokeRolesFromUserAsync`: removes the user's edges to the listed
      roles and writes one entry per listed id, whether or not the user held
      it. The user is never looked up: for an unknown user nothing is
      removed and the first entry, which names it, is refused by its
      foreign key. */
  method RevokeRoles(db: ApplicationDbContext, userId: Guid, roleIds: seq<Guid>, now: Time) returns (r: Result<bool>)
    requires db.Valid()
    modifies db`userRoles, db`auditLogs
    ensures db.Valid()
    ensures db.userRoles == Unassigned(old(db.userRoles), userId, roleIds)
    ensures userId in db.users || roleIds == [] ==>
      r == Ok(true) && db.auditLogs == old(db.auditLogs) + seq(|roleIds|, _ => RoleRevokedEntry(userId, now))
    ensures userId !in db.users && roleIds != [] ==>
      r == Err(DbUpdate(SaveFailed)) && db.auditLogs == old(db.auditLogs)
  {
    db.userRoles := Unassigned(db.userRoles, userId, roleIds);
    if userId !in db.users && roleIds != [] {
      return Err(DbUpdate(SaveFailed));
    }
    db.auditLogs := db.auditLogs + seq(|roleIds|, _ => RoleRevokedEntry(userId, now));
    r := Ok(true);
  }

  // ---- Creating, updating and deleting users ----

  /** The user `CreateUserAsync` stores. The request's password is not used:
      the stored hash keeps its empty default. */
  function NewUser(request: CreateUserRequest, createdBy: Option<string>, now: Time): (u: User)
    ensures u.username == request.username && u.email == request.email && u.projectId == request.projectId
    ensures u.status == Active && u.passwordHash == Unset
  {
    User(request.username, request.email, Unset, request.firstName, request.lastName, request.phoneNumber,
      None, Active, None, now, now, createdBy, None, request.projectId)
  }

  /** No password verifies against the stored hash of a user made by
      `CreateUserAsync`. */
  lemma CreatedUserCannotSignIn(request: CreateUserRequest, createdBy: Option<string>, now: Time, password: string)
    ensures !Verify(password, NewUser(request, createdBy, now).passwordHash)
  {
  }

  /** The user as the request evidently means it: with the request's
      password hashed under `salt`. */
  function NewUserHashed(request: CreateUserRequest, createdBy: Option<string>, salt: nat, now: Time): (u: User)
    ensures u == NewUser(request, createdBy, now).(passwordHash := u.passwordHash)
    ensures Verify(request.password, u.passwordHash)
  {
    VerifyHashed(request.password, salt);
    NewUser(request, createdBy, now).(passwordHash := HashPassword(request.password, salt))
  }

  /** The `UserCreated` entry. */
  function UserCreatedEntry(userId: Guid, email: string, now: Time): AuditLog {
    AuditService.Entry(UserCreated, Some(userId), Some(userId), Some("User"), Some("User created: " + email),
      None, None, now)
  }

  /** Stores a new user, one that fits its columns, under a fresh id. */
  method InsertUser(db: ApplicationDbContext, user: User) returns (id: Guid)
    requires db.Valid() && !UserExists(db.users, user.email, user.username) && UserFits(user)
    modifies db`users, db`nextId
    ensures db.Valid()
    ensures id == old(db.nextId) && db.nextId == id + 1
    ensures db.users == old(db.users)[id := user]
    ensures RolesOf(db.userRoles, id) == {}
  {
    id := db.NewId();
    db.users := db.users[id := user];
  }

  /** `CreateUserAsync` storing `user` for the request: the existence check,
      the insert (refused when a field is longer than its column), the role
      assignment and the audit entry. */
  method CreateUserAs(db: ApplicationDbContext, request: CreateUserRequest, user: User, createdBy: Option<string>, now: Time)
    returns (r: Result<Guid>)
    requires db.Valid()
    requires user.email == request.email && user.username == request.username
    modifies db`users, db`userRoles, db`nextId, db`auditLogs
    ensures db.Valid()
    ensures UserExists(old(db.users), request.email, request.username) ==>
      && r == Err(InvalidOperation("User already exists"))
      && db.users == old(db.users) && db.userRoles == old(db.userRoles) && db.auditLogs == old(db.auditLogs)
    ensures !UserExists(old(db.users), request.email, request.username) && !UserFits(user) ==>
      && r == Err(DbUpdate(SaveFailed))
      && db.users == old(db.users) && db.userRoles == old(db.userRoles) && db.auditLogs == old(db.auditLogs)
    ensures !UserExists(old(db.users), request.email, request.username) && UserFits(user) ==>
      var id := old(db.nextId);
      var ids := if request.roleIds.Some? then request.roleIds.value else [];
      var outcome := Assigned({}, old(db.roles).Keys, ids);
      var entries := seq(|outcome.added|, _ => RoleAssignedEntry(id, now));
      && db.users == old(db.users)[id := user]
      && db.userRoles == WithAssigned(old(db.userRoles), id, outcome.added, id + 1, createdBy, now)
      && (outcome.failed ==> r == Err(DbUpdate(SaveFailed)) && db.auditLogs == old(db.auditLogs) + entries)
      && (!outcome.failed ==>
            r == Ok(id) && db.auditLogs == old(db.auditLogs) + entries + [UserCreatedEntry(id, request.email, now)])
  {
    if UserExists(db.users, request.email, request.username) {
      return Err(InvalidOperation("User already exists"));
    }
    if !UserFits(user) {
      return Err(DbUpdate(SaveFailed));
    }
    r := StoreUser(db, request, user, createdBy, now);
  }

  /** The saves of `CreateUserAsync` once the checks have passed: the
      insert, the role assignment (whose failure ends the call) and the
      `UserCreated` entry. */
  method StoreUser(db: ApplicationDbContext, request: CreateUserRequest, user: User, createdBy: Option<string>, now: Time)
    returns (r: Result<Guid>)
    requires db.Valid() && !UserExists(db.users, user.email, user.username) && UserFits(user)
    requires user.email == request.email
    modifies db`users, db`userRoles, db`nextId, db`auditLogs
    ensures db.Valid()
    ensures
      var id := old(db.nextId);
      var ids := if request.roleIds.Some? then request.roleIds.value else [];
      var outcome := Assigned({}, old(db.roles).Keys, ids);
      var entries := seq(|outcome.added|, _ => RoleAssignedEntry(id, now));
      && db.users == old(db.users)[id := user]
      && db.userRoles == WithAssigned(old(db.userRoles), id, outcome.added, id + 1, createdBy, now)
      && (outcome.failed ==> r == Err(DbUpdate(SaveFailed)) && db.auditLogs == old(db.auditLogs) + entries)
      && (!outcome.failed ==>
            r == Ok(id) && db.auditLogs == old(db.auditLogs) + entries + [UserCreatedEntry(id, request.email, now)])
  {
    var id := InsertUser(db, user);
    if request.roleIds.Some? && |request.roleIds.value| > 0 {
      var assignResult := AssignRoles(db, id, request.roleIds.value, createdBy, now);
      if assignResult.Err? {
        return Err(assignResult.error);
      }
    }
    var _ := AuditService.LogActivity(db, UserCreated, Some(id), Some(id), Some("User"), Some("User created: " + request.email),
      None, None, now);
    r := Ok(id);
  }

  /** `CreateUserAsync` as written: the new user has no password hash. */
  method CreateUser(db: ApplicationDbContext, request: CreateUserRequest, createdBy: Option<string>, now: Time)
    returns (r: Result<Guid>)
    requires db.Valid()
    modifies db`users, db`userRoles, db`nextId, db`auditLogs
    ensures db.Valid()
    ensures UserExists(old(db.users), request.email, request.username) ==>
      && r == Err(InvalidOperation("User already exists"))
      && db.users == old(db.users) && db.userRoles == old(db.userRoles) && db.auditLogs == old(db.auditLogs)
    ensures !UserExists(old(db.users), request.email, request.username) && !UserFits(NewUser(request, createdBy, now)) ==>
      && r == Err(DbUpdate(SaveFailed))
      && db.users == old(db.users) && db.userRoles == old(db.userRoles) && db.auditLogs == old(db.auditLogs)
    ensures !UserExists(old(db.users), request.email, request.username) && UserFits(NewUser(request, createdBy, now)) ==>
      var id := old(db.nextId);
      var ids := if request.roleIds.Some? then request.roleIds.value else [];
      var outcome := Assigned({}, old(db.roles).Keys, ids);
      var entries := seq(|outcome.added|, _ => RoleAssignedEntry(id, now));
      && db.users == old(db.users)[id := NewUser(request, createdBy, now)]
      && db.userRoles == WithAssigned(old(db.userRoles), id, outcome.added, id + 1, createdBy, now)
      && (outcome.failed ==> r == Err(DbUpdate(SaveFailed)) && db.auditLogs == old(db.auditLogs) + entries)
      && (!outcome.failed ==>
            r == Ok(id) && db.auditLogs == old(db.auditLogs) + entries + [UserCreatedEntry(id, request.email, now)])
  {
    r := CreateUserAs(db, request, NewUser(request, createdBy, now), createdBy, now);
  }

  /** `CreateUserAsync` with the request's password hashed: the new user can
      sign in with it. */
  method CreateUserHashed(db: ApplicationDbContext, request: CreateUserRequest, createdBy: Option<string>, salt: nat, now: Time)
    returns (r: Result<Guid>)
    requires db.Valid()
    modifies db`users, db`userRoles, db`nextId, db`auditLogs
    ensures db.Valid()
    ensures UserExists(old(db.users), request.email, request.username) ==>
      && r == Err(InvalidOperation("User already exists"))
      && db.users == old(db.users) && db.userRoles == old(db.userRoles) && db.auditLogs == old(db.auditLogs)
    ensures !UserExists(old(db.users), request.email, request.username) && !UserFits(NewUserHashed(request, createdBy, salt, now)) ==>
      && r == Err(DbUpdate(SaveFailed))
      && db.users == old(db.users) && db.userRoles == old(db.userRoles) && db.auditLogs == old(db.auditLogs)
    ensures !UserExists(old(db.users), request.email, request.username) && UserFits(NewUserHashed(request, createdBy, salt, now)) ==>
      var id := old(db.nextId);
      var ids := if request.roleIds.Some? then request.roleIds.value else [];
      var outcome := Assigned({}, old(db.roles).Keys, ids);
      var entries := seq(|outcome.added|, _ => RoleAssignedEntry(id, now));
      && db.users == old(db.users)[id := NewUserHashed(request, createdBy, salt, now)]
      && db.userRoles == WithAssigned(old(db.userRoles), id, outcome.added, id + 1, createdBy, now)
      && (outcome.failed ==> r == Err(DbUpdate(SaveFailed)) && db.auditLogs == old(db.auditLogs) + entries)
      && (!outcome.failed ==>
            r == Ok(id) && db.auditLogs == old(db.auditLogs) + entries + [UserCreatedEntry(id, request.email, now)])
    ensures !UserExists(old(db.users), request.email, request.username) && UserFits(NewUserHashed(request, createdBy, salt, now)) ==>
      Verify(request.password, db.users[old(db.nextId)].passwordHash)
  {
    r := CreateUserAs(db, request, NewUserHashed(request, createdBy, salt, now), createdBy, now);
  }

  /** The fields `UpdateUserAsync` changes: each name, phone number and
      avatar only when given and not empty, the status when given, and the
      audit fields. Username, email, password and project never change. */
  function ApplyUserUpdate(user: User, request: UpdateUserRequest, updatedBy: Option<string>, now: Time): (r: User)
    ensures r.username == user.username && r.email == user.email
    ensures r.passwordHash == user.passwordHash && r.projectId == user.projectId
    ensures r.createdAt == user.createdAt && r.createdBy == user.createdBy && r.lastLoginAt == user.lastLoginAt
    ensures r.updatedBy == updatedBy && r.updatedAt == now
    ensures r.status == (if request.status.Some? then request.status.value else user.status)
    ensures r.firstName == (if IsNullOrEmpty(request.firstName) then user.firstName else request.firstName)
    ensures r.lastName == (if IsNullOrEmpty(request.lastName) then user.lastName else request.lastName)
    ensures r.phoneNumber == (if IsNullOrEmpty(request.phoneNumber) then user.phoneNumber else request.phoneNumber)
    ensures r.avatar == (if IsNullOrEmpty(request.avatar) then user.avatar else request.avatar)
  {
    user.(
      firstName := if IsNullOrEmpty(request.firstName) then user.firstName else request.firstName,
      lastName := if IsNullOrEmpty(request.lastName) then user.lastName else request.lastName,
      phoneNumber := if IsNullOrEmpty(request.phoneNumber) then user.phoneNumber else request.phoneNumber,
      avatar := if IsNullOrEmpty(request.avatar) then user.avatar else request.avatar,
      status := if request.status.Some? then request.status.value else user.status,
      updatedBy := updatedBy,
      updatedAt := now)
  }

  /** A request whose every field is missing or empty only touches the
      audit fields. */
  lemma EmptyUserUpdate(user: User, request: UpdateUserRequest, updatedBy: Option<string>, now: Time)
    requires IsNullOrEmpty(request.firstName) && IsNullOrEmpty(request.lastName)
    requires IsNullOrEmpty(request.phoneNumber) && IsNullOrEmpty(request.avatar) && request.status.None?
    ensures ApplyUserUpdate(user, request, updatedBy, now) == user.(updatedBy := updatedBy, updatedAt := now)
  {
  }

  /** A stored user's update fits its columns exactly when each given name
      has at most 100 characters and a given phone number at most 20; the
      avatar column has no limit. */
  lemma UpdateFits(user: User, request: UpdateUserRequest, updatedBy: Option<string>, now: Time)
    requires UserFits(user)
    ensures UserFits(ApplyUserUpdate(user, request, updatedBy, now)) <==>
      && (IsNullOrEmpty(request.firstName) || |request.firstName.value| <= 100)
      && (IsNullOrEmpty(request.lastName) || |request.lastName.value| <= 100)
      && (IsNullOrEmpty(request.phoneNumber) || |request.phoneNumber.value| <= 20)
  {
  }

  /** `UpdateUserAsync`. A field longer than its column makes the save fail
      (`UpdateFits` says which). */
  method UpdateUser(db: ApplicationDbContext, userId: Guid, request: UpdateUserRequest, updatedBy: Option<string>, now: Time)
    returns (r: Result<User>)
    requires db.Valid()
    modifies db`users, db`auditLogs
    ensures db.Valid()
    ensures userId !in old(db.users) ==>
      r == Err(KeyNotFound("User not found")) && db.users == old(db.users) && db.auditLogs == old(db.auditLogs)
    ensures userId in old(db.users) ==>
      var updated := ApplyUserUpdate(old(db.users)[userId], request, updatedBy, now);
      && (!UserFits(updated) ==>
            r == Err(DbUpdate(SaveFailed)) && db.users == old(db.users) && db.auditLogs == old(db.auditLogs))
      && (UserFits(updated) ==>
            && r == Ok(updated)
            && db.users == old(db.users)[userId := updated]
            && db.auditLogs == old(db.auditLogs) + [AuditService.Entry(UserUpdated, Some(userId), Some(userId),
                 Some("User"), Some("User updated: " + updated.email), None, None, now)])
  {
    if userId !in db.users {
      return Err(KeyNotFound("User not found"));
    }
    var updated := ApplyUserUpdate(db.users[userId], request, updatedBy, now);
    if !UserFits(updated) {
      return Err(DbUpdate(SaveFailed));
    }
    db.users := db.users[userId := updated];
    var _ := AuditService.LogActivity(db, UserUpdated, Some(userId), Some(userId), Some("User"),
      Some("User updated: " + updated.email), None, None, now);
    r := Ok(updated);
  }

  /** `userRoles` without the edges from `userId`: the cascade of deleting it. */
  function WithoutUserRoles(userRoles: map<Guid, UserRole>, userId: Guid): (r: map<Guid, UserRole>)
    ensures forall k :: k in r <==> k in userRoles && userRoles[k].userId != userId
  {
    map k | k in userRoles && userRoles[k].userId != userId :: userRoles[k]
  }

  /** The refresh tokens without those of `userId`: the cascade of deleting it. */
  function WithoutUserTokens(tokens: map<Guid, RefreshToken>, userId: Guid): (r: map<Guid, RefreshToken>)
    ensures forall k :: k in r <==> k in tokens && tokens[k].userId != userId
  {
    map k | k in tokens && tokens[k].userId != userId :: tokens[k]
  }

  /** `DeleteUserAsync` as written. The user's role edges and refresh
      tokens go with it (cascade), but its audit entries keep pointing at it
      and their foreign key has no delete action: the database refuses the
      delete when an entry names the user, and otherwise refuses the
      `UserDeleted` entry that names the user just removed. Either way the
      call fails. */
  method DeleteUser(db: ApplicationDbContext, userId: Guid, now: Time) returns (r: Result<bool>)
    requires db.Valid()
    modifies db`users, db`userRoles, db`refreshTokens, db`auditLogs
    ensures db.Valid()
    ensures userId !in old(db.users) ==>
      && r == Err(KeyNotFound("User not found"))
      && db.users == old(db.users) && db.userRoles == old(db.userRoles)
      && db.refreshTokens == old(db.refreshTokens) && db.auditLogs == old(db.auditLogs)
    ensures userId in old(db.users) ==> r == Err(DbUpdate(SaveFailed)) && db.auditLogs == old(db.auditLogs)
    ensures userId in old(db.users) && AuditService.Referenced(old(db.auditLogs), userId) ==>
      db.users == old(db.users) && db.userRoles == old(db.userRoles) && db.refreshTokens == old(db.refreshTokens)
    ensures userId in old(db.users) && !AuditService.Referenced(old(db.auditLogs), userId) ==>
      && db.users == old(db.users) - {userId}
      && db.userRoles == WithoutUserRoles(old(db.userRoles), userId)
      && db.refreshTokens == WithoutUserTokens(old(db.refreshTokens), userId)
  {
    if userId !in db.users {
      return Err(KeyNotFound("User not found"));
    }
    if AuditService.Referenced(db.auditLogs, userId) {
      return Err(DbUpdate(SaveFailed));
    }
    var email := db.users[userId].email;
    db.userRoles := WithoutUserRoles(db.userRoles, userId);
    db.refreshTokens := WithoutUserTokens(db.refreshTokens, userId);
    db.users := db.users - {userId};
    var saved := AuditService.LogActivity(db, UserDeleted, Some(userId), Some(userId), Some("User"),
      Some("User deleted: " + email), None, None, now);
    assert !saved;
    r := Err(DbUpdate(SaveFailed));
  }

  /** The log with every entry that names `userId` as its user cleared to
      no user: a `SetNull` delete action on the foreign key. */
  function Detached(logs: seq<AuditLog>, userId: Guid): (r: seq<AuditLog>)
    ensures |r| == |logs|
    ensures forall i :: 0 <= i < |logs| ==>
      r[i].userId == (if logs[i].userId == Some(userId) then None else logs[i].userId)
      && r[i] == logs[i].(userId := r[i].userId)
    ensures !AuditService.Referenced(r, userId)
  {
    seq(|logs|, i requires 0 <= i < |logs| =>
      if logs[i].userId == Some(userId) then logs[i].(userId := None) else logs[i])
  }

  /** Clearing the deleted user from the log keeps the foreign key. */
  lemma {:induction false} DetachedUsersExist(users: map<Guid, User>, logs: seq<AuditLog>, userId: Guid)
    requires AuditService.UsersExist(users, logs)
    ensures AuditService.UsersExist(users - {userId}, Detached(logs, userId))
  {
    var r := Detached(logs, userId);
    forall i | 0 <= i < |r| && r[i].userId.Some? ensures r[i].userId.value in users - {userId} {
      assert logs[i].userId == r[i].userId;
    }
  }

  /** `DeleteUserAsync` as evidently intended: the user and its cascades are
      removed, the entries that named it keep their history with no user,
      and the deletion is logged with the user as its entity only. The call
      succeeds, and an audit log whose users all exist stays that way. */
  method DeleteUserDetaching(db: ApplicationDbContext, userId: Guid, now: Time) returns (r: Result<bool>)
    requires db.Valid()
    modifies db`users, db`userRoles, db`refreshTokens, db`auditLogs
    ensures db.Valid()
    ensures userId !in old(db.users) ==>
      && r == Err(KeyNotFound("User not found"))
      && db.users == old(db.users) && db.userRoles == old(db.userRoles)
      && db.refreshTokens == old(db.refreshTokens) && db.auditLogs == old(db.auditLogs)
    ensures userId in old(db.users) ==>
      && r == Ok(true)
      && db.users == old(db.users) - {userId}
      && db.userRoles == WithoutUserRoles(old(db.userRoles), userId)
      && db.refreshTokens == WithoutUserTokens(old(db.refreshTokens), userId)
      && db.auditLogs == Detached(old(db.auditLogs), userId) + [AuditService.Entry(UserDeleted, None, Some(userId),
           Some("User"), Some("User deleted: " + old(db.users)[userId].email), None, None, now)]
    ensures AuditService.UsersExist(old(db.users), old(db.auditLogs)) ==> AuditService.UsersExist(db.users, db.auditLogs)
  {
    if userId !in db.users {
      return Err(KeyNotFound("User not found"));
    }
    var email := db.users[userId].email;
    assert UserFits(db.users[userId]);
    if AuditService.UsersExist(db.users, db.auditLogs) {
      DetachedUsersExist(db.users, db.auditLogs, userId);
    }
    db.auditLogs := Detached(db.auditLogs, userId);
    db.userRoles := WithoutUserRoles(db.userRoles, userId);
    db.refreshTokens := WithoutUserTokens(db.refreshTokens, userId);
    db.users := db.users - {userId};
    var saved := AuditService.LogActivity(db, UserDeleted, None, Some(userId), Some("User"),
      Some("User deleted: " + email), None, None, now);
    r := Ok(true);
  }

  /** After the cascade the deleted user holds no role and every other
      user's roles are kept. */
  lemma DeleteUserUnassigns(userRoles: map<Guid, UserRole>, userId: Guid)
    ensures RolesOf(WithoutUserRoles(userRoles, userId), userId) == {}
    ensures forall other :: other != userId ==>
      RolesOf(WithoutUserRoles(userRoles, userId), other) == RolesOf(userRoles, other)
  {
    var after := WithoutUserRoles(userRoles, userId);
    forall other, q | other != userId && q in RolesOf(userRoles, other) ensures q in RolesOf(after, other) {
      var k :| k in userRoles && userRoles[k].userId == other && userRoles[k].roleId == q;
      assert k in after;
    }
  }

  // ---- Listing users ----

  /** A user row with its key, as the query reads it. */
  datatype UserRow = UserRow(id: Guid, user: User)

  datatype PaginationRequest = PaginationRequest(
    pageNumber: int, pageSize: int, searchTerm: Option<string>, projectId: Option<string>)

  /** The request's defaults: the first page of 50. */
  const DefaultPagination := PaginationRequest(1, 50, None, None)

  datatype UserListResponse = UserListResponse(users: seq<UserRow>, totalCount: nat, pageNumber: int, pageSize: int)

  /** The search of `GetUsersAsync`: the term occurs in the username, the
      email, or a first or last name that is present. */
  predicate MatchesSearch(u: User, term: string) {
    || Contains(u.username, term) || Contains(u.email, term)
    || (u.firstName.Some? && Contains(u.firstName.value, term))
    || (u.lastName.Some? && Contains(u.lastName.value, term))
  }

  /** The filters of the request: the project, when given and not empty,
      and the search, when given and not empty. */
  predicate Selected(request: PaginationRequest, row: UserRow) {
    && (!IsNullOrEmpty(request.projectId) ==> row.user.projectId == request.projectId)
    && (!IsNullOrEmpty(request.searchTerm) ==> MatchesSearch(row.user, request.searchTerm.value))
  }

  /** The `OrderBy(u => u.Username)` order, modelled as an ordinal
      comparison of the usernames. */
  predicate UsernameLe(a: UserRow, b: UserRow) {
    LexLe(a.user.username, b.user.username)
  }

  lemma UsernameLeIsTotal()
    ensures Total(UsernameLe)
  {
    forall a: UserRow, b: UserRow ensures UsernameLe(a, b) || UsernameLe(b, a) {
      LexLeTotal(a.user.username, b.user.username);
    }
  }

  /** The selected rows, in table order. */
  function Selection(rows: seq<UserRow>, request: PaginationRequest): (r: seq<UserRow>)
    ensures forall x :: multiset(r)[x] == if Selected(request, x) then multiset(rows)[x] else 0
  {
    Where(rows, x => Selected(request, x))
  }

  /** The selected rows by username: a sorted permutation of `Selection`. */
  function ByUsername(rows: seq<UserRow>, request: PaginationRequest): (r: seq<UserRow>)
    ensures SortedBy(r, UsernameLe)
    ensures multiset(r) == multiset(Selection(rows, request))
    ensures |r| == |Selection(rows, request)|
  {
    UsernameLeIsTotal();
    SortBy(Selection(rows, request), UsernameLe)
  }

  /** `GetUsersAsync` over the table's rows: the count of selected users and
      one page of them by username. A page the database refuses makes the
      call fail. */
  function GetUsers(rows: seq<UserRow>, request: PaginationRequest): (r: Result<UserListResponse>)
    ensures !PageAccepted(request.pageNumber, request.pageSize) ==>
      r == Err(PageRefusal(request.pageNumber, request.pageSize))
    ensures PageAccepted(request.pageNumber, request.pageSize) ==>
      && r.Ok?
      && r.value.totalCount == |Selection(rows, request)|
      && |r.value.users| <= request.pageSize
      && r.value.pageNumber == request.pageNumber && r.value.pageSize == request.pageSize
    ensures PageAccepted(request.pageNumber, request.pageSize) && r.Ok? ==>
      var start := PageStart(r.value.totalCount, request.pageNumber, request.pageSize);
      && (start + request.pageSize <= r.value.totalCount ==> |r.value.users| == request.pageSize)
      && (start + request.pageSize > r.value.totalCount ==> |r.value.users| == r.value.totalCount - start)
      && |ByUsername(rows, request)| == r.value.totalCount && SliceAt(r.value.users, ByUsername(rows, request), start)
  {
    if !PageAccepted(request.pageNumber, request.pageSize) then
      Err(PageRefusal(request.pageNumber, request.pageSize))
    else
      var ordered := ByUsername(rows, request);
      var count := |Selection(rows, request)|;
      assert |ordered| == count;
      Ok(UserListResponse(Page(ordered, request.pageNumber, request.pageSize), count, request.pageNumber, request.pageSize))
  }

  /** Every user in the username order is a row of the table that passes
      the filters. */
  lemma ByUsernameSelected(rows: seq<UserRow>, request: PaginationRequest)
    ensures forall x :: x in ByUsername(rows, request) ==> x in rows && Selected(request, x)
  {
    forall x | x in ByUsername(rows, request) ensures x in rows && Selected(request, x) {
      assert multiset(Selection(rows, request))[x] > 0;
    }
  }

  /** Every listed user is a row of the table that passes the filters, and
      the page is in username order. */
  lemma ListedUsers(rows: seq<UserRow>, request: PaginationRequest)
    ensures GetUsers(rows, request).Ok? ==>
      forall x :: x in GetUsers(rows, request).value.users ==> x in rows && Selected(request, x)
    ensures GetUsers(rows, request).Ok? ==> SortedBy(GetUsers(rows, request).value.users, UsernameLe)
  {
    if PageAccepted(request.pageNumber, request.pageSize) {
      var ordered := ByUsername(rows, request);
      PageOfSorted(ordered, UsernameLe, request.pageNumber, request.pageSize);
      PageWithin(ordered, request.pageNumber, request.pageSize);
      ByUsernameSelected(rows, request);
      assert GetUsers(rows, request).value.users == Page(ordered, request.pageNumber, request.pageSize);
    }
  }
}
