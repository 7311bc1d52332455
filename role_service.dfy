/** Roles and the permissions granted to them: creating, renaming and
    deleting a role, and granting and revoking permissions. */
module RoleService {
  import opened Wrappers
  import opened Models
  import opened Text
  import opened Data
  import AuditService

  datatype CreateRoleRequest = CreateRoleRequest(
    name: string, description: Option<string>, priority: int,
    permissionIds: Option<seq<Guid>>, projectId: Option<string>)

  datatype UpdateRoleRequest = UpdateRoleRequest(
    name: Option<string>, description: Option<string>, priority: Option<int>)

  /** Some role already has this name in this project. */
  predicate RoleExists(roles: map<Guid, Role>, name: string, projectId: Option<string>) {
    exists k :: k in roles && roles[k].name == name && roles[k].projectId == projectId
  }

  // ---- Granting permissions ----

  /** The permission ids `AssignPermissionsToRoleAsync` adds, in the order it
      adds them: each listed id that names a permission (`known`), is not
      already granted (`held`) and was not added earlier in the same list. */
  function NewGrants(held: set<Guid>, known: set<Guid>, ids: seq<Guid>): (r: seq<Guid>)
    ensures |r| <= |ids|
    ensures forall p {:trigger p in r} :: p in r <==> p in ids && p in known && p !in held
  {
    if ids == [] then []
    else
      var prev := NewGrants(held, known, ids[..|ids| - 1]);
      var p := ids[|ids| - 1];
      assert ids == ids[..|ids| - 1] + [p];
      if p in known && p !in held && p !in prev then prev + [p] else prev
  }

  /** How the grants of a list grow by its next id. */
  lemma NewGrantsStep(held: set<Guid>, known: set<Guid>, ids: seq<Guid>, i: nat)
    requires i < |ids|
    ensures NewGrants(held, known, ids[..i + 1])
      == if ids[i] in known && ids[i] !in held && ids[i] !in NewGrants(held, known, ids[..i])
         then NewGrants(held, known, ids[..i]) + [ids[i]]
         else NewGrants(held, known, ids[..i])
  {
    assert ids[..i + 1][..i] == ids[..i];
  }

  /** No permission is granted twice by one call. */
  lemma {:induction false} NewGrantsDistinct(held: set<Guid>, known: set<Guid>, ids: seq<Guid>)
    ensures forall i, j :: 0 <= i < j < |NewGrants(held, known, ids)| ==>
      NewGrants(held, known, ids)[i] != NewGrants(held, known, ids)[j]
  {
    if ids != [] {
      var prefix, x := ids[..|ids| - 1], ids[|ids| - 1];
      NewGrantsDistinct(held, known, prefix);
      var prev := NewGrants(held, known, prefix);
      if x in known && x !in held && x !in prev {
        var r := NewGrants(held, known, ids);
        assert r == prev + [x];
        forall i, j | 0 <= i < j < |r| ensures r[i] != r[j] {
          assert r[i] == prev[i];
          if j < |prev| {
            assert r[j] == prev[j];
            assert prev[i] != prev[j];
          } else {
            assert r[j] == x;
            assert prev[i] in prev;
          }
        }
      }
    }
  }

  /** A list whose known ids are all held grants nothing. */
  lemma {:induction false} NothingNewToGrant(held: set<Guid>, known: set<Guid>, ids: seq<Guid>)
    requires forall p :: p in ids && p in known ==> p in held
    ensures NewGrants(held, known, ids) == []
  {
    if ids != [] {
      NothingNewToGrant(held, known, ids[..|ids| - 1]);
    }
  }

  /** Granting the same list again adds nothing. */
  lemma GrantsIdempotent(held: set<Guid>, known: set<Guid>, ids: seq<Guid>)
    ensures NewGrants(held + (set p | p in NewGrants(held, known, ids)), known, ids) == []
  {
    NothingNewToGrant(held + (set p | p in NewGrants(held, known, ids)), known, ids);
  }

  /** The audit entry for one granted permission. */
  function GrantEntry(p: Guid, roleName: string, now: Time): AuditLog {
    AuditService.Entry(PermissionGranted, None, Some(p), Some("Permission"),
      Some("Permission granted to role: " + roleName), None, None, now)
  }

  /** One `PermissionGranted` entry per grant, in grant order. */
  function GrantEntries(grants: seq<Guid>, roleName: string, now: Time): (r: seq<AuditLog>)
    ensures |r| == |grants|
  {
    if grants == [] then []
    else GrantEntries(grants[..|grants| - 1], roleName, now) + [GrantEntry(grants[|grants| - 1], roleName, now)]
  }

  /** The i-th entry records the i-th grant. */
  lemma {:induction false} GrantEntriesAt(grants: seq<Guid>, roleName: string, now: Time, i: nat)
    requires i < |grants|
    ensures GrantEntries(grants, roleName, now)[i] == GrantEntry(grants[i], roleName, now)
  {
    if i < |grants| - 1 {
      GrantEntriesAt(grants[..|grants| - 1], roleName, now, i);
    }
  }

  /** `rolePermissions` with an edge from `roleId` to each of `grants`,
      stored under consecutive ids from `start`. */
  function Granted(
    rolePermissions: map<Guid, RolePermission>, roleId: Guid, grants: seq<Guid>, start: Guid,
    grantedBy: Option<string>, now: Time): map<Guid, RolePermission>
  {
    if grants == [] then rolePermissions
    else
      Granted(rolePermissions, roleId, grants[..|grants| - 1], start, grantedBy, now)
        [start + |grants| - 1 := RolePermission(roleId, grants[|grants| - 1], now, grantedBy)]
  }

  /** The rows of `Granted`: the old rows unchanged, and one new row per
      grant from `start` on. */
  lemma {:induction false} GrantedRows(
    rolePermissions: map<Guid, RolePermission>, roleId: Guid, grants: seq<Guid>, start: Guid,
    grantedBy: Option<string>, now: Time)
    requires forall k :: k in rolePermissions ==> k < start
    ensures forall k :: (k in Granted(rolePermissions, roleId, grants, start, grantedBy, now)
      <==> k in rolePermissions || start <= k < start + |grants|)
    ensures forall k :: k in rolePermissions ==>
      Granted(rolePermissions, roleId, grants, start, grantedBy, now)[k] == rolePermissions[k]
    ensures forall i :: 0 <= i < |grants| ==>
      Granted(rolePermissions, roleId, grants, start, grantedBy, now)[start + i]
        == RolePermission(roleId, grants[i], now, grantedBy)
  {
    if grants != [] {
      var prefix := grants[..|grants| - 1];
      GrantedRows(rolePermissions, roleId, prefix, start, grantedBy, now);
      forall i | 0 <= i < |prefix| ensures grants[i] == prefix[i] { }
    }
  }

  /** Granting adds exactly `grants` to the role's permissions and leaves
      every other role's permissions as they were. */
  lemma GrantedPermissions(
    rolePermissions: map<Guid, RolePermission>, roleId: Guid, grants: seq<Guid>, start: Guid,
    grantedBy: Option<string>, now: Time)
    requires forall k :: k in rolePermissions ==> k < start
    ensures PermissionsOf(Granted(rolePermissions, roleId, grants, start, grantedBy, now), roleId)
            == PermissionsOf(rolePermissions, roleId) + set p | p in grants
    ensures forall other :: other != roleId ==>
      PermissionsOf(Granted(rolePermissions, roleId, grants, start, grantedBy, now), other)
        == PermissionsOf(rolePermissions, other)
  {
    var after := Granted(rolePermissions, roleId, grants, start, grantedBy, now);
    GrantedRows(rolePermissions, roleId, grants, start, grantedBy, now);
    forall p | p in set p | p in grants
      ensures p in PermissionsOf(after, roleId)
    {
      var i :| 0 <= i < |grants| && grants[i] == p;
      assert after[start + i].permissionId == p;
    }
    forall p | p in PermissionsOf(after, roleId)
      ensures p in PermissionsOf(rolePermissions, roleId) || p in grants
    {
      var k :| k in after && after[k].roleId == roleId && after[k].permissionId == p;
      if k !in rolePermissions {
        assert after[start + (k - start)].permissionId == grants[k - start];
      }
    }
    forall k | start <= k < start + |grants| ensures after[k].roleId == roleId {
      var i := k - start;
      assert after[start + i] == RolePermission(roleId, grants[i], now, grantedBy);
    }
    forall other, p | other != roleId && p in PermissionsOf(after, other)
      ensures p in PermissionsOf(rolePermissions, other)
    {
      var k :| k in after && after[k].roleId == other && after[k].permissionId == p;
      assert k in rolePermissions;
    }
  }

  /** One step of the grant loop: the next id is granted exactly when it
      names a permission the edges so far do not give the role. */
  lemma GrantStep(
    rolePermissions: map<Guid, RolePermission>, known: set<Guid>, roleId: Guid,
    ids: seq<Guid>, i: nat, start: Guid, grantedBy: Option<string>, now: Time)
    requires forall k :: k in rolePermissions ==> k < start
    requires i < |ids|
    ensures NewGrants(PermissionsOf(rolePermissions, roleId), known, ids[..i + 1])
      == if ids[i] in known && ids[i] !in PermissionsOf(Granted(rolePermissions, roleId,
              NewGrants(PermissionsOf(rolePermissions, roleId), known, ids[..i]), start, grantedBy, now), roleId)
         then NewGrants(PermissionsOf(rolePermissions, roleId), known, ids[..i]) + [ids[i]]
         else NewGrants(PermissionsOf(rolePermissions, roleId), known, ids[..i])
  {
    var held := PermissionsOf(rolePermissions, roleId);
    var grants := NewGrants(held, known, ids[..i]);
    NewGrantsStep(held, known, ids, i);
    GrantedPermissions(rolePermissions, roleId, grants, start, grantedBy, now);
  }

  /** One more grant is one more edge, under the next id. */
  lemma GrantedSnoc(
    rolePermissions: map<Guid, RolePermission>, roleId: Guid, grants: seq<Guid>, p: Guid, start: Guid,
    grantedBy: Option<string>, now: Time)
    ensures Granted(rolePermissions, roleId, grants + [p], start, grantedBy, now)
         == Granted(rolePermissions, roleId, grants, start, grantedBy, now)
              [start + |grants| := RolePermission(roleId, p, now, grantedBy)]
  {
    assert (grants + [p])[..|grants|] == grants;
  }

  /** The loop of `AssignPermissionsToRoleAsync` over the requested ids: each
      known permission the role does not hold yet gets an edge under the next
      id, and a `PermissionGranted` entry in the same order. The audit write
      saves each edge before the next id is looked at, so an id listed twice
      is granted once. The stored edges of the role are the ones it held
      plus the ones granted so far (`GrantedPermissions`), so the test
      below is the existence query on the stored edges (`GrantStep`). */
  method GrantEach(
    rolePermissions: map<Guid, RolePermission>, permissions: map<Guid, Permission>, roleId: Guid, roleName: string,
    permissionIds: seq<Guid>, start: Guid, grantedBy: Option<string>, now: Time)
    returns (edges: map<Guid, RolePermission>, entries: seq<AuditLog>, next: Guid)
    requires forall k :: k in rolePermissions ==> k < start
    ensures next == start + |NewGrants(PermissionsOf(rolePermissions, roleId), permissions.Keys, permissionIds)|
    ensures edges == Granted(rolePermissions, roleId,
      NewGrants(PermissionsOf(rolePermissions, roleId), permissions.Keys, permissionIds), start, grantedBy, now)
    ensures entries == GrantEntries(NewGrants(PermissionsOf(rolePermissions, roleId), permissions.Keys, permissionIds), roleName, now)
  {
    var held := PermissionsOf(rolePermissions, roleId);
    var grants: seq<Guid> := [];
    edges, next := rolePermissions, start;
    var i := 0;
    while i < |permissionIds|
      invariant 0 <= i <= |permissionIds|
      invariant grants == NewGrants(held, permissions.Keys, permissionIds[..i])
      invariant next == start + |grants|
      invariant edges == Granted(rolePermissions, roleId, grants, start, grantedBy, now)
    {
      var p := permissionIds[i];
      NewGrantsStep(held, permissions.Keys, permissionIds, i);
      if p in permissions && p !in held && p !in grants {
        GrantedSnoc(rolePermissions, roleId, grants, p, start, grantedBy, now);
        edges := edges[next := RolePermission(roleId, p, now, grantedBy)];
        next := next + 1;
        grants := grants + [p];
      }
      i := i + 1;
    }
    assert permissionIds[..i] == permissionIds;
    entries := GrantEntries(grants, roleName, now);
  }

  /** Storing the edges of distinct permissions a role does not hold keeps
      every constraint of the store. */
  lemma GrantsKeepValid(db: ApplicationDbContext, roleId: Guid, grants: seq<Guid>, grantedBy: Option<string>, now: Time)
    requires db.Valid() && roleId in db.roles
    requires forall p :: p in grants ==> p in db.permissions && p !in PermissionsOf(db.rolePermissions, roleId)
    requires forall i, j :: 0 <= i < j < |grants| ==> grants[i] != grants[j]
    ensures Consistent(db.users, db.roles, db.modules, db.features, db.permissions, db.userRoles,
      Granted(db.rolePermissions, roleId, grants, db.nextId, grantedBy, now), db.refreshTokens, db.nextId + |grants|)
  {
    var before := db.rolePermissions;
    var start := db.nextId;
    var after := Granted(before, roleId, grants, start, grantedBy, now);
    GrantedRows(before, roleId, grants, start, grantedBy, now);
    forall a, b | a in after && b in after && a != b
      ensures (after[a].roleId, after[a].permissionId) != (after[b].roleId, after[b].permissionId)
    {
      if a !in before && b !in before {
        assert after[start + (a - start)].permissionId == grants[a - start];
        assert after[start + (b - start)].permissionId == grants[b - start];
      } else if a !in before {
        assert after[start + (a - start)].permissionId == grants[a - start];
        assert grants[a - start] in grants;
        if before[b].roleId == roleId {
          assert before[b].permissionId in PermissionsOf(before, roleId);
        }
      } else if b !in before {
        assert after[start + (b - start)].permissionId == grants[b - start];
        assert grants[b - start] in grants;
        if before[a].roleId == roleId {
          assert before[a].permissionId in PermissionsOf(before, roleId);
        }
      }
    }
    forall k | k in after ensures after[k].roleId in db.roles && after[k].permissionId in db.permissions {
      if k !in before {
        assert after[start + (k - start)].permissionId == grants[k - start];
        assert grants[k - start] in grants;
      }
    }
  }

  /** `AssignPermissionsToRoleAsync`: grants the role each listed permission
      that exists and that it does not hold yet, logging each grant. */
  method AssignPermissions(
    db: ApplicationDbContext, roleId: Guid, permissionIds: seq<Guid>, grantedBy: Option<string>, now: Time)
    returns (r: Result<bool>)
    requires db.Valid()
    modifies db`rolePermissions, db`nextId, db`auditLogs
    ensures db.Valid()
    ensures roleId !in old(db.roles) ==>
      && r == Err(KeyNotFound("Role not found"))
      && db.rolePermissions == old(db.rolePermissions) && db.auditLogs == old(db.auditLogs)
    ensures roleId in old(db.roles) ==>
      var grants := NewGrants(PermissionsOf(old(db.rolePermissions), roleId), old(db.permissions).Keys, permissionIds);
      && r == Ok(true)
      && db.rolePermissions == Granted(old(db.rolePermissions), roleId, grants, old(db.nextId), grantedBy, now)
      && db.auditLogs == old(db.auditLogs) + GrantEntries(grants, old(db.roles)[roleId].name, now)
  {
    if roleId !in db.roles {
      return Err(KeyNotFound("Role not found"));
    }
    var roleName := db.roles[roleId].name;
    var rolePermissions, entries, nextId :=
      GrantEach(db.rolePermissions, db.permissions, roleId, roleName, permissionIds, db.nextId, grantedBy, now);
    ghost var grants := NewGrants(PermissionsOf(db.rolePermissions, roleId), db.permissions.Keys, permissionIds);
    NewGrantsDistinct(PermissionsOf(db.rolePermissions, roleId), db.permissions.Keys, permissionIds);
    GrantsKeepValid(db, roleId, grants, grantedBy, now);
    db.rolePermissions, db.auditLogs, db.nextId := rolePermissions, db.auditLogs + entries, nextId;
    r := Ok(true);
  }

  /** What one call grants: the role then holds what it held plus every listed
      id that names a permission, and no other role's grants change. */
  lemma AssignPermissionsGrants(
    rolePermissions: map<Guid, RolePermission>, known: set<Guid>, roleId: Guid, permissionIds: seq<Guid>,
    start: Guid, grantedBy: Option<string>, now: Time)
    requires forall k :: k in rolePermissions ==> k < start
    ensures PermissionsOf(Granted(rolePermissions, roleId,
              NewGrants(PermissionsOf(rolePermissions, roleId), known, permissionIds), start, grantedBy, now), roleId)
            == PermissionsOf(rolePermissions, roleId) + (set p | p in permissionIds && p in known)
    ensures forall other :: other != roleId ==>
      PermissionsOf(Granted(rolePermissions, roleId,
        NewGrants(PermissionsOf(rolePermissions, roleId), known, permissionIds), start, grantedBy, now), other)
      == PermissionsOf(rolePermissions, other)
  {
    var held := PermissionsOf(rolePermissions, roleId);
    GrantedPermissions(rolePermissions, roleId, NewGrants(held, known, permissionIds), start, grantedBy, now);
  }

  // ---- Revoking permissions ----

  /** `rolePermissions` without the edges from `roleId` to any of `ids`. */
  function Revoked(rolePermissions: map<Guid, RolePermission>, roleId: Guid, ids: seq<Guid>): (r: map<Guid, RolePermission>)
    ensures forall k :: k in r ==> k in rolePermissions && r[k] == rolePermissions[k]
  {
    map k | k in rolePermissions && !(rolePermissions[k].roleId == roleId && rolePermissions[k].permissionId in ids)
      :: rolePermissions[k]
  }

  /** Revoking takes exactly `ids` away from the role and leaves every other
      role's permissions as they were. */
  lemma RevokedPermissions(rolePermissions: map<Guid, RolePermission>, roleId: Guid, ids: seq<Guid>)
    ensures PermissionsOf(Revoked(rolePermissions, roleId, ids), roleId)
            == PermissionsOf(rolePermissions, roleId) - set p | p in ids
    ensures forall other :: other != roleId ==>
      PermissionsOf(Revoked(rolePermissions, roleId, ids), other) == PermissionsOf(rolePermissions, other)
  {
    var after := Revoked(rolePermissions, roleId, ids);
    forall p | p in PermissionsOf(rolePermissions, roleId) && p !in ids
      ensures p in PermissionsOf(after, roleId)
    {
      var k :| k in rolePermissions && rolePermissions[k].roleId == roleId && rolePermissions[k].permissionId == p;
      assert k in after;
    }
    forall other, p | other != roleId && p in PermissionsOf(rolePermissions, other)
      ensures p in PermissionsOf(after, other)
    {
      var k :| k in rolePermissions && rolePermissions[k].roleId == other && rolePermissions[k].permissionId == p;
      assert k in after;
    }
  }

  /** Revoking the ids just granted gives back what the role held before,
      less those ids. */
  lemma RevokeUndoesAssign(
    rolePermissions: map<Guid, RolePermission>, known: set<Guid>, roleId: Guid, permissionIds: seq<Guid>,
    start: Guid, grantedBy: Option<string>, now: Time)
    requires forall k :: k in rolePermissions ==> k < start
    ensures var held := PermissionsOf(rolePermissions, roleId);
      var granted := Granted(rolePermissions, roleId, NewGrants(held, known, permissionIds), start, grantedBy, now);
      PermissionsOf(Revoked(granted, roleId, permissionIds), roleId) == held - set p | p in permissionIds
  {
    var held := PermissionsOf(rolePermissions, roleId);
    var granted := Granted(rolePermissions, roleId, NewGrants(held, known, permissionIds), start, grantedBy, now);
    AssignPermissionsGrants(rolePermissions, known, roleId, permissionIds, start, grantedBy, now);
    RevokedPermissions(granted, roleId, permissionIds);
  }

  /** `RevokePermissionsFromRoleAsync`: removes the role's edges to the listed
      permissions. An unknown role or permission is not an error. */
  method RevokePermissions(db: ApplicationDbContext, roleId: Guid, permissionIds: seq<Guid>) returns (r: Result<bool>)
    requires db.Valid()
    modifies db`rolePermissions
    ensures db.Valid()
    ensures r == Ok(true)
    ensures db.rolePermissions == Revoked(old(db.rolePermissions), roleId, permissionIds)
  {
    db.rolePermissions := Revoked(db.rolePermissions, roleId, permissionIds);
    r := Ok(true);
  }

  // ---- Creating, updating and deleting roles ----

  /** The role `CreateRoleAsync` stores. */
  function NewRole(request: CreateRoleRequest, createdBy: Option<string>, now: Time): (r: Role)
    ensures r.name == request.name && r.projectId == request.projectId && !r.isSystemRole
  {
    Role(request.name, request.description, false, request.priority, now, now, createdBy, None, request.projectId)
  }

  /** The `RoleAssigned` entry `CreateRoleAsync` writes for a new role. */
  function RoleCreatedEntry(roleId: Guid, name: string, now: Time): AuditLog {
    AuditService.Entry(RoleAssigned, None, Some(roleId), Some("Role"), Some("Role created: " + name), None, None, now)
  }

  /** Stores a new role, one that fits its columns, under a fresh id. */
  method InsertRole(db: ApplicationDbContext, role: Role) returns (id: Guid)
    requires db.Valid() && !RoleExists(db.roles, role.name, role.projectId) && RoleFits(role)
    modifies db`roles, db`nextId
    ensures db.Valid()
    ensures id == old(db.nextId) && db.nextId == id + 1
    ensures db.roles == old(db.roles)[id := role]
    ensures PermissionsOf(db.rolePermissions, id) == {}
  {
    id := db.NewId();
    db.roles := db.roles[id := role];
  }

  /** `CreateRoleAsync`. A field longer than its column makes the first
      save fail. The permission ids of the request are granted as
      `AssignPermissionsToRoleAsync` grants them. */
  method CreateRole(db: ApplicationDbContext, request: CreateRoleRequest, createdBy: Option<string>, now: Time)
    returns (r: Result<Guid>)
    requires db.Valid()
    modifies db`roles, db`rolePermissions, db`nextId, db`auditLogs
    ensures db.Valid()
    ensures RoleExists(old(db.roles), request.name, request.projectId) ==>
      && r == Err(InvalidOperation("Role already exists"))
      && db.roles == old(db.roles) && db.rolePermissions == old(db.rolePermissions) && db.auditLogs == old(db.auditLogs)
    ensures !RoleExists(old(db.roles), request.name, request.projectId) && !RoleFits(NewRole(request, createdBy, now)) ==>
      && r == Err(DbUpdate(SaveFailed))
      && db.roles == old(db.roles) && db.rolePermissions == old(db.rolePermissions) && db.auditLogs == old(db.auditLogs)
    ensures !RoleExists(old(db.roles), request.name, request.projectId) && RoleFits(NewRole(request, createdBy, now)) ==>
      var id := old(db.nextId);
      var ids := if request.permissionIds.Some? then request.permissionIds.value else [];
      var grants := NewGrants({}, old(db.permissions).Keys, ids);
      && r == Ok(id)
      && db.roles == old(db.roles)[id := NewRole(request, createdBy, now)]
      && db.rolePermissions == Granted(old(db.rolePermissions), id, grants, id + 1, createdBy, now)
      && db.auditLogs == old(db.auditLogs) + GrantEntries(grants, request.name, now)
                         + [RoleCreatedEntry(id, request.name, now)]
  {
    if RoleExists(db.roles, request.name, request.projectId) {
      return Err(InvalidOperation("Role already exists"));
    }
    if !RoleFits(NewRole(request, createdBy, now)) {
      return Err(DbUpdate(SaveFailed));
    }
    r := StoreRole(db, request, createdBy, now);
  }

  /** The saves of `CreateRoleAsync` once the checks have passed: the
      insert, the grants and the role's creation entry. */
  method StoreRole(db: ApplicationDbContext, request: CreateRoleRequest, createdBy: Option<string>, now: Time)
    returns (r: Result<Guid>)
    requires db.Valid() && !RoleExists(db.roles, request.name, request.projectId)
    requires RoleFits(NewRole(request, createdBy, now))
    modifies db`roles, db`rolePermissions, db`nextId, db`auditLogs
    ensures db.Valid()
    ensures
      var id := old(db.nextId);
      var ids := if request.permissionIds.Some? then request.permissionIds.value else [];
      var grants := NewGrants({}, old(db.permissions).Keys, ids);
      && r == Ok(id)
      && db.roles == old(db.roles)[id := NewRole(request, createdBy, now)]
      && db.rolePermissions == Granted(old(db.rolePermissions), id, grants, id + 1, createdBy, now)
      && db.auditLogs == old(db.auditLogs) + GrantEntries(grants, request.name, now)
                         + [RoleCreatedEntry(id, request.name, now)]
  {
    var id := InsertRole(db, NewRole(request, createdBy, now));
    GrantRequested(db, id, request.permissionIds, createdBy, now);
    assert AuditLogFits(AuditService.Entry(RoleAssigned, None, Some(id), Some("Role"), Some("Role created: " + request.name),
      None, None, now));
    var _ := AuditService.LogActivity(db, RoleAssigned, None, Some(id), Some("Role"), Some("Role created: " + request.name),
      None, None, now);
    r := Ok(id);
  }

  /** The grants `CreateRoleAsync` makes for the new role `id`: none when the
      request lists no ids, otherwise as `AssignPermissionsToRoleAsync`. */
  method GrantRequested(
    db: ApplicationDbContext, id: Guid, permissionIds: Option<seq<Guid>>, createdBy: Option<string>, now: Time)
    requires db.Valid() && id in db.roles && PermissionsOf(db.rolePermissions, id) == {}
    modifies db`rolePermissions, db`nextId, db`auditLogs
    ensures db.Valid()
    ensures
      var ids := if permissionIds.Some? then permissionIds.value else [];
      var grants := NewGrants({}, old(db.permissions).Keys, ids);
      && db.rolePermissions == Granted(old(db.rolePermissions), id, grants, old(db.nextId), createdBy, now)
      && db.auditLogs == old(db.auditLogs) + GrantEntries(grants, old(db.roles)[id].name, now)
  {
    if permissionIds.Some? && |permissionIds.value| > 0 {
      var _ := AssignPermissions(db, id, permissionIds.value, createdBy, now);
    }
  }

  /** A new role holds exactly the requested ids that name permissions. */
  lemma CreateRoleGrants(
    rolePermissions: map<Guid, RolePermission>, known: set<Guid>, id: Guid, ids: seq<Guid>,
    createdBy: Option<string>, now: Time)
    requires forall k :: k in rolePermissions ==> k < id + 1
    requires PermissionsOf(rolePermissions, id) == {}
    ensures PermissionsOf(Granted(rolePermissions, id, NewGrants({}, known, ids), id + 1, createdBy, now), id)
            == set p | p in ids && p in known
  {
    AssignPermissionsGrants(rolePermissions, known, id, ids, id + 1, createdBy, now);
  }

  /** The fields `UpdateRoleAsync` changes: a name or description only when
      given and not empty, the priority when given, and the audit fields. */
  function ApplyRoleUpdate(role: Role, request: UpdateRoleRequest, updatedBy: Option<string>, now: Time): (r: Role)
    ensures r.isSystemRole == role.isSystemRole && r.projectId == role.projectId
    ensures r.createdAt == role.createdAt && r.createdBy == role.createdBy
    ensures r.updatedBy == updatedBy && r.updatedAt == now
    ensures r.name == (if IsNullOrEmpty(request.name) then role.name else request.name.value)
    ensures r.description == (if IsNullOrEmpty(request.description) then role.description else request.description)
    ensures r.priority == (if request.priority.Some? then request.priority.value else role.priority)
  {
    role.(
      name := if IsNullOrEmpty(request.name) then role.name else request.name.value,
      description := if IsNullOrEmpty(request.description) then role.description else request.description,
      priority := if request.priority.Some? then request.priority.value else role.priority,
      updatedBy := updatedBy,
      updatedAt := now)
  }

  /** A request whose every field is missing or empty only touches the
      audit fields. */
  lemma EmptyRoleUpdate(role: Role, request: UpdateRoleRequest, updatedBy: Option<string>, now: Time)
    requires IsNullOrEmpty(request.name) && IsNullOrEmpty(request.description) && request.priority.None?
    ensures ApplyRoleUpdate(role, request, updatedBy, now) == role.(updatedBy := updatedBy, updatedAt := now)
  {
  }

  /** Another role of the same project already has `name`: the unique index
      refuses the rename. */
  predicate NameTaken(roles: map<Guid, Role>, roleId: Guid, name: string, projectId: Option<string>) {
    projectId.Some? && exists k :: k in roles && k != roleId && roles[k].name == name && roles[k].projectId == projectId
  }

  /** A stored role's update fits its columns exactly when a given name has
      at most 100 characters and a given description at most 500. */
  lemma UpdateFits(role: Role, request: UpdateRoleRequest, updatedBy: Option<string>, now: Time)
    requires RoleFits(role)
    ensures RoleFits(ApplyRoleUpdate(role, request, updatedBy, now)) <==>
      && (IsNullOrEmpty(request.name) || |request.name.value| <= 100)
      && (IsNullOrEmpty(request.description) || |request.description.value| <= 500)
  {
  }

  /** `UpdateRoleAsync`: the save is refused by the unique index or by a
      field longer than its column. Writes no audit entry. */
  method UpdateRole(db: ApplicationDbContext, roleId: Guid, request: UpdateRoleRequest, updatedBy: Option<string>, now: Time)
    returns (r: Result<Role>)
    requires db.Valid()
    modifies db`roles
    ensures db.Valid()
    ensures roleId !in old(db.roles) ==> r == Err(KeyNotFound("Role not found")) && db.roles == old(db.roles)
    ensures roleId in old(db.roles) ==>
      var updated := ApplyRoleUpdate(old(db.roles)[roleId], request, updatedBy, now);
      if NameTaken(old(db.roles), roleId, updated.name, updated.projectId) || !RoleFits(updated) then
        r == Err(DbUpdate(SaveFailed)) && db.roles == old(db.roles)
      else
        r == Ok(updated) && db.roles == old(db.roles)[roleId := updated]
  {
    if roleId !in db.roles {
      return Err(KeyNotFound("Role not found"));
    }
    var updated := ApplyRoleUpdate(db.roles[roleId], request, updatedBy, now);
    if NameTaken(db.roles, roleId, updated.name, updated.projectId) || !RoleFits(updated) {
      return Err(DbUpdate(SaveFailed));
    }
    db.roles := db.roles[roleId := updated];
    r := Ok(updated);
  }

  /** A rename the database refuses is one onto a name another role of the
      same project holds; keeping the name is never refused. */
  lemma KeepingNameNeverClashes(db: ApplicationDbContext, roleId: Guid)
    requires db.Valid() && roleId in db.roles
    ensures !NameTaken(db.roles, roleId, db.roles[roleId].name, db.roles[roleId].projectId)
  {
  }

  /** `userRoles` without the edges to `roleId`: the cascade of deleting it. */
  function WithoutRoleUsers(userRoles: map<Guid, UserRole>, roleId: Guid): (r: map<Guid, UserRole>)
    ensures forall k :: k in r <==> k in userRoles && userRoles[k].roleId != roleId
  {
    map k | k in userRoles && userRoles[k].roleId != roleId :: userRoles[k]
  }

  /** `rolePermissions` without the edges from `roleId`. */
  function WithoutRoleGrants(rolePermissions: map<Guid, RolePermission>, roleId: Guid): (r: map<Guid, RolePermission>)
    ensures forall k :: k in r <==> k in rolePermissions && rolePermissions[k].roleId != roleId
  {
    map k | k in rolePermissions && rolePermissions[k].roleId != roleId :: rolePermissions[k]
  }

  /** `DeleteRoleAsync`. The role's user and permission edges go with it
      (cascade); no audit entry is written. */
  method DeleteRole(db: ApplicationDbContext, roleId: Guid) returns (r: Result<bool>)
    requires db.Valid()
    modifies db`roles, db`userRoles, db`rolePermissions
    ensures db.Valid()
    ensures roleId !in old(db.roles) ==>
      && r == Err(KeyNotFound("Role not found"))
      && db.roles == old(db.roles) && db.userRoles == old(db.userRoles) && db.rolePermissions == old(db.rolePermissions)
    ensures roleId in old(db.roles) ==>
      && r == Ok(true)
      && db.roles == old(db.roles) - {roleId}
      && db.userRoles == WithoutRoleUsers(old(db.userRoles), roleId)
      && db.rolePermissions == WithoutRoleGrants(old(db.rolePermissions), roleId)
  {
    if roleId !in db.roles {
      return Err(KeyNotFound("Role not found"));
    }
    db.userRoles := WithoutRoleUsers(db.userRoles, roleId);
    db.rolePermissions := WithoutRoleGrants(db.rolePermissions, roleId);
    db.roles := db.roles - {roleId};
    r := Ok(true);
  }

  /** After the cascade no user holds the deleted role and every other
      assignment is kept. */
  lemma DeleteRoleUnassigns(userRoles: map<Guid, UserRole>, roleId: Guid, userId: Guid)
    ensures RolesOf(WithoutRoleUsers(userRoles, roleId), userId) == RolesOf(userRoles, userId) - {roleId}
  {
    var after := WithoutRoleUsers(userRoles, roleId);
    forall q | q in RolesOf(userRoles, userId) && q != roleId ensures q in RolesOf(after, userId) {
      var k :| k in userRoles && userRoles[k].userId == userId && userRoles[k].roleId == q;
      assert k in after;
    }
  }
}
