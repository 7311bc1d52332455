/** The database behind the services: every table as a map from row id to
    row, the audit log as an append-only sequence, and the constraints of
    `OnModelCreating` (unique indexes, the module parent link) together with
    the foreign keys and the column widths of the entity classes as the
    invariant `Valid()`. */
module Data {
  import opened Wrappers
  import opened Models
  import opened Tokens

  // ---- Unique indexes ----

  /** `HasIndex(e => e.Username).IsUnique()` and `HasIndex(e => e.Email).IsUnique()`. */
  ghost predicate UniqueUsers(users: map<Guid, User>) {
    (forall a, b {:trigger users[a].username, users[b].username} :: a in users && b in users && a != b ==>
      users[a].username != users[b].username)
    && (forall a, b {:trigger users[a].email, users[b].email} :: a in users && b in users && a != b ==>
      users[a].email != users[b].email)
  }

  /** `HasIndex(e => new { e.Name, e.ProjectId }).IsUnique()` on roles. On
      SQL Server a unique index over a nullable column only covers the rows
      where it is not null, so roles without a project are not constrained. */
  ghost predicate UniqueRoles(roles: map<Guid, Role>) {
    forall a, b {:trigger roles[a].name, roles[b].name} ::
      a in roles && b in roles && a != b && roles[a].projectId.Some? ==>
      (roles[a].name, roles[a].projectId) != (roles[b].name, roles[b].projectId)
  }

  /** `HasIndex(e => new { e.Code, e.ProjectId }).IsUnique()` on modules,
      filtered to the rows with a project as for roles. */
  ghost predicate UniqueModules(modules: map<Guid, Module>) {
    forall a, b {:trigger modules[a].code, modules[b].code} ::
      a in modules && b in modules && a != b && modules[a].projectId.Some? ==>
      (modules[a].code, modules[a].projectId) != (modules[b].code, modules[b].projectId)
  }

  /** `HasIndex(e => new { e.Code, e.ModuleId }).IsUnique()` on features. */
  ghost predicate UniqueFeatures(features: map<Guid, Feature>) {
    forall a, b {:trigger features[a].code, features[b].code} :: a in features && b in features && a != b ==>
      (features[a].code, features[a].moduleId) != (features[b].code, features[b].moduleId)
  }

  /** `HasIndex(e => new { e.UserId, e.RoleId }).IsUnique()`. */
  ghost predicate UniqueUserRoles(userRoles: map<Guid, UserRole>) {
    forall a, b {:trigger userRoles[a].userId, userRoles[b].userId} :: a in userRoles && b in userRoles && a != b ==>
      (userRoles[a].userId, userRoles[a].roleId) != (userRoles[b].userId, userRoles[b].roleId)
  }

  /** `HasIndex(e => new { e.RoleId, e.PermissionId }).IsUnique()`. */
  ghost predicate UniqueRolePermissions(rolePermissions: map<Guid, RolePermission>) {
    forall a, b {:trigger rolePermissions[a].roleId, rolePermissions[b].roleId} :: a in rolePermissions && b in rolePermissions && a != b ==>
      (rolePermissions[a].roleId, rolePermissions[a].permissionId)
        != (rolePermissions[b].roleId, rolePermissions[b].permissionId)
  }

  /** `HasIndex(e => e.Token).IsUnique()` on refresh tokens. */
  ghost predicate UniqueTokens(tokens: map<Guid, RefreshToken>) {
    forall a, b {:trigger tokens[a].token, tokens[b].token} :: a in tokens && b in tokens && a != b ==> tokens[a].token != tokens[b].token
  }

  // ---- Foreign keys ----

  /** The `ParentModuleId` link: a parent exists and was created before its
      child (ids are handed out in increasing order). */
  ghost predicate ParentsExist(modules: map<Guid, Module>) {
    forall k :: k in modules && modules[k].parentModuleId.Some? ==>
      modules[k].parentModuleId.value in modules && modules[k].parentModuleId.value < k
  }

  ghost predicate FeaturesReferenceModules(features: map<Guid, Feature>, modules: map<Guid, Module>) {
    forall k :: k in features ==> features[k].moduleId in modules
  }

  ghost predicate PermissionsReferenceFeatures(permissions: map<Guid, Permission>, features: map<Guid, Feature>) {
    forall k :: k in permissions ==> permissions[k].featureId in features
  }

  ghost predicate UserRolesReference(userRoles: map<Guid, UserRole>, users: map<Guid, User>, roles: map<Guid, Role>) {
    forall k :: k in userRoles ==> userRoles[k].userId in users && userRoles[k].roleId in roles
  }

  ghost predicate RolePermissionsReference(
    rolePermissions: map<Guid, RolePermission>, roles: map<Guid, Role>, permissions: map<Guid, Permission>)
  {
    forall k :: k in rolePermissions ==>
      rolePermissions[k].roleId in roles && rolePermissions[k].permissionId in permissions
  }

  ghost predicate TokensReferenceUsers(tokens: map<Guid, RefreshToken>, users: map<Guid, User>) {
    forall k :: k in tokens ==> tokens[k].userId in users
  }

  // ---- Column widths ----

  ghost predicate UsersFit(users: map<Guid, User>) {
    forall k {:trigger UserFits(users[k])} :: k in users ==> UserFits(users[k])
  }

  ghost predicate RolesFit(roles: map<Guid, Role>) {
    forall k {:trigger RoleFits(roles[k])} :: k in roles ==> RoleFits(roles[k])
  }

  ghost predicate ModulesFit(modules: map<Guid, Module>) {
    forall k {:trigger ModuleFits(modules[k])} :: k in modules ==> ModuleFits(modules[k])
  }

  ghost predicate FeaturesFit(features: map<Guid, Feature>) {
    forall k {:trigger FeatureFits(features[k])} :: k in features ==> FeatureFits(features[k])
  }

  ghost predicate PermissionsFit(permissions: map<Guid, Permission>) {
    forall k {:trigger PermissionFits(permissions[k])} :: k in permissions ==> PermissionFits(permissions[k])
  }

  ghost predicate TokensFit(tokens: map<Guid, RefreshToken>) {
    forall k {:trigger TokenFits(tokens[k])} :: k in tokens ==> TokenFits(tokens[k])
  }

  /** Every key of the table was handed out by the id source. */
  ghost predicate KeysBelow<T>(table: map<Guid, T>, bound: Guid) {
    forall k :: k in table ==> 0 < k < bound
  }

  // ---- Queries the services share ----

  /** The message of the `DbUpdateException` that `SaveChanges` throws when
      the database refuses a change. */
  const SaveFailed := "An error occurred while saving the entity changes. See the inner exception for details."

  /** The role ids assigned to `userId`. */
  function RolesOf(userRoles: map<Guid, UserRole>, userId: Guid): set<Guid> {
    set k | k in userRoles && userRoles[k].userId == userId :: userRoles[k].roleId
  }

  /** The permission ids granted to `roleId`. */
  function PermissionsOf(rolePermissions: map<Guid, RolePermission>, roleId: Guid): set<Guid> {
    set k | k in rolePermissions && rolePermissions[k].roleId == roleId :: rolePermissions[k].permissionId
  }

  /** Some user already has this email or this username. */
  predicate UserExists(users: map<Guid, User>, email: string, username: string) {
    exists k :: k in users && (users[k].email == email || users[k].username == username)
  }

  /** `table` keeps every row of `before` unchanged (it may have more). */
  ghost predicate Extends<T>(table: map<Guid, T>, before: map<Guid, T>) {
    forall k :: k in before ==> k in table && table[k] == before[k]
  }

  /** The constraints of the schema over the tables' contents (unique
      indexes, foreign keys, column widths), and the freshness of the id
      source `nextId`. */
  ghost predicate Consistent(
    users: map<Guid, User>, roles: map<Guid, Role>, modules: map<Guid, Module>,
    features: map<Guid, Feature>, permissions: map<Guid, Permission>,
    userRoles: map<Guid, UserRole>, rolePermissions: map<Guid, RolePermission>,
    refreshTokens: map<Guid, RefreshToken>, nextId: Guid)
  {
    && 0 < nextId
    && KeysBelow(users, nextId) && KeysBelow(roles, nextId) && KeysBelow(modules, nextId)
    && KeysBelow(features, nextId) && KeysBelow(permissions, nextId)
    && KeysBelow(userRoles, nextId) && KeysBelow(rolePermissions, nextId)
    && KeysBelow(refreshTokens, nextId)
    && UniqueUsers(users) && UniqueRoles(roles) && UniqueModules(modules)
    && UniqueFeatures(features) && UniqueUserRoles(userRoles)
    && UniqueRolePermissions(rolePermissions) && UniqueTokens(refreshTokens)
    && ParentsExist(modules)
    && FeaturesReferenceModules(features, modules)
    && PermissionsReferenceFeatures(permissions, features)
    && UserRolesReference(userRoles, users, roles)
    && RolePermissionsReference(rolePermissions, roles, permissions)
    && TokensReferenceUsers(refreshTokens, users)
    && UsersFit(users) && RolesFit(roles) && ModulesFit(modules)
    && FeaturesFit(features) && PermissionsFit(permissions) && TokensFit(refreshTokens)
  }

  /** The store. `Guid.NewGuid()` is modelled by `nextId`, a counter that
      never hands out `Guid.Empty` (0) or the same id twice. */
  class ApplicationDbContext {
    var users: map<Guid, User>
    var roles: map<Guid, Role>
    var modules: map<Guid, Module>
    var features: map<Guid, Feature>
    var permissions: map<Guid, Permission>
    var userRoles: map<Guid, UserRole>
    var rolePermissions: map<Guid, RolePermission>
    var refreshTokens: map<Guid, RefreshToken>
    var auditLogs: seq<AuditLog>
    var nextId: Guid

    /** The unique indexes, foreign keys and column widths of the schema, and
        the freshness of the id source. */
    ghost predicate Valid()
      reads this
    {
      Consistent(users, roles, modules, features, permissions, userRoles, rolePermissions, refreshTokens, nextId)
    }

    /** An empty database. */
    constructor ()
      ensures Valid()
      ensures users == map[] && roles == map[] && modules == map[] && features == map[]
      ensures permissions == map[] && userRoles == map[] && rolePermissions == map[]
      ensures refreshTokens == map[] && auditLogs == []
    {
      users, roles, modules, features := map[], map[], map[], map[];
      permissions, userRoles, rolePermissions := map[], map[], map[];
      refreshTokens, auditLogs := map[], [];
      nextId := 1;
    }

    /** `Guid.NewGuid()`: an id no row of any table has. */
    method NewId() returns (id: Guid)
      requires Valid()
      modifies this`nextId
      ensures id == old(nextId) && nextId == id + 1
      ensures Valid()
      ensures id != EmptyGuid
      ensures id !in users && id !in roles && id !in modules && id !in features
      ensures id !in permissions && id !in userRoles && id !in rolePermissions && id !in refreshTokens
    {
      id := nextId;
      nextId := nextId + 1;
    }
  }
}
