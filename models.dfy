/** The entities of the store and the enumerations they use (one row
    datatype per table; the row's Guid key lives in the table map). */
module Models {
  import opened Wrappers

  /** A `Guid`. Fresh values come from the store's id source;
      `EmptyGuid` is `Guid.Empty`, which that source never hands out. */
  type Guid = nat
  const EmptyGuid: Guid := 0

  /** A `DateTime`, in seconds. */
  type Time = int
  const Minute: Time := 60
  const Day: Time := 24 * 60 * Minute

  /** `UserStatus`, a C# enum over `int`: it names 1, 2 and 3, but a
      variable of the type holds any `int`, named or not. */
  newtype UserStatus = int
  const Active: UserStatus := 1
  const Inactive: UserStatus := 2
  const Suspended: UserStatus := 3

  /** `Enum.IsDefined`: the status is one the enum names. */
  predicate IsDefinedStatus(s: UserStatus) {
    s == Active || s == Inactive || s == Suspended
  }

  datatype AuditAction =
    | UserCreated | UserUpdated | UserDeleted
    | LoginSuccess | LoginFailed | PasswordChanged
    | RoleAssigned | RoleRevoked
    | PermissionGranted | PermissionRevoked
    | ModuleCreated | ModuleUpdated | ModuleDeleted

  datatype PermissionType = Read | Write | Delete | Execute

  /** `Enum.GetValues<PermissionType>()`, in declaration order. */
  const AllPermissionTypes: seq<PermissionType> := [Read, Write, Delete, Execute]

  /** The name `ToString()` gives a permission type. */
  function PermissionTypeName(t: PermissionType): string {
    match t
    case Read => "Read"
    case Write => "Write"
    case Delete => "Delete"
    case Execute => "Execute"
  }

  /** A stored BCrypt hash. `Unset` is the empty default a user row starts
      with; `BCrypt(salt, secret)` is an ideal salted one-way hash of `secret`. */
  datatype PasswordHash = Unset | BCrypt(salt: nat, secret: string)

  /** `BCrypt.HashPassword`, with the random salt as a parameter. */
  function HashPassword(password: string, salt: nat): PasswordHash {
    BCrypt(salt, password)
  }

  /** `BCrypt.Verify`: true exactly when the hash was made from this password. */
  predicate Verify(password: string, hash: PasswordHash) {
    hash.BCrypt? && hash.secret == password
  }

  lemma VerifyHashed(password: string, salt: nat)
    ensures Verify(password, HashPassword(password, salt))
  {
  }

  datatype User = User(
    username: string,
    email: string,
    passwordHash: PasswordHash,
    firstName: Option<string>,
    lastName: Option<string>,
    phoneNumber: Option<string>,
    avatar: Option<string>,
    status: UserStatus,
    lastLoginAt: Option<Time>,
    createdAt: Time,
    updatedAt: Time,
    createdBy: Option<string>,
    updatedBy: Option<string>,
    projectId: Option<string>)

  datatype Role = Role(
    name: string,
    description: Option<string>,
    isSystemRole: bool,
    priority: int,
    createdAt: Time,
    updatedAt: Time,
    createdBy: Option<string>,
    updatedBy: Option<string>,
    projectId: Option<string>)

  datatype Module = Module(
    name: string,
    description: Option<string>,
    code: string,
    parentModuleId: Option<Guid>,
    order: int,
    isActive: bool,
    createdAt: Time,
    updatedAt: Time,
    createdBy: Option<string>,
    updatedBy: Option<string>,
    projectId: Option<string>)

  datatype Feature = Feature(
    name: string,
    description: Option<string>,
    code: string,
    moduleId: Guid,
    isActive: bool,
    createdAt: Time,
    updatedAt: Time,
    createdBy: Option<string>,
    updatedBy: Option<string>,
    projectId: Option<string>)

  datatype Permission = Permission(
    featureId: Guid,
    kind: PermissionType,
    description: Option<string>,
    createdAt: Time)

  /** A user-to-role edge. */
  datatype UserRole = UserRole(userId: Guid, roleId: Guid, assignedAt: Time, assignedBy: Option<string>)

  /** A role-to-permission edge. */
  datatype RolePermission = RolePermission(roleId: Guid, permissionId: Guid, grantedAt: Time, grantedBy: Option<string>)

  datatype AuditLog = AuditLog(
    action: AuditAction,
    userId: Option<Guid>,
    entityId: Option<Guid>,
    entityType: Option<string>,
    details: Option<string>,
    ipAddress: Option<string>,
    userAgent: Option<string>,
    timestamp: Time,
    projectId: Option<string>)

  // ---- Column widths ----

  /** A nullable string of at most `n` characters: what a `[MaxLength(n)]`
      column holds, and what `MaximumLength(n)` accepts. */
  predicate AtMost(s: Option<string>, n: nat) {
    s.None? || |s.value| <= n
  }

  /** The widths User.cs gives the user's columns. SQL Server refuses to
      save a longer value. */
  predicate UserFits(u: User) {
    && |u.username| <= 100 && |u.email| <= 255
    && AtMost(u.firstName, 100) && AtMost(u.lastName, 100)
    && AtMost(u.phoneNumber, 20) && AtMost(u.projectId, 100)
  }

  /** The widths of Role.cs. */
  predicate RoleFits(r: Role) {
    |r.name| <= 100 && AtMost(r.description, 500) && AtMost(r.projectId, 100)
  }

  /** The widths of Module.cs. */
  predicate ModuleFits(m: Module) {
    |m.name| <= 100 && AtMost(m.description, 500) && |m.code| <= 50 && AtMost(m.projectId, 100)
  }

  /** The widths of Feature.cs. */
  predicate FeatureFits(f: Feature) {
    |f.name| <= 100 && AtMost(f.description, 500) && |f.code| <= 50 && AtMost(f.projectId, 100)
  }

  /** The width of Permission.cs. */
  predicate PermissionFits(p: Permission) {
    AtMost(p.description, 500)
  }

  /** The widths of AuditLog.cs. */
  predicate AuditLogFits(a: AuditLog) {
    && AtMost(a.entityType, 100) && AtMost(a.details, 1000) && AtMost(a.ipAddress, 45)
    && AtMost(a.userAgent, 500) && AtMost(a.projectId, 100)
  }
}
