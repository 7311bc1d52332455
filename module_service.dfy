/** Modules, their features and the permissions each feature comes with:
    creating, updating, deleting and listing them. */
module ModuleService {
  import opened Wrappers
  import opened Models
  import opened Text
  import opened Queries
  import opened Data
  import AuditService

  datatype CreateModuleRequest = CreateModuleRequest(
    name: string, description: Option<string>, code: string,
    parentModuleId: Option<Guid>, order: int, projectId: Option<string>)

  datatype UpdateModuleRequest = UpdateModuleRequest(
    name: Option<string>, description: Option<string>, order: Option<int>, isActive: Option<bool>)

  datatype CreateFeatureRequest = CreateFeatureRequest(
    name: string, description: Option<string>, code: string, moduleId: Guid, projectId: Option<string>)

  datatype UpdateFeatureRequest = UpdateFeatureRequest(
    name: Option<string>, description: Option<string>, isActive: Option<bool>)

  // ---- The module tree ----

  /** The modules above `k`, following parent links. Ids grow along every
      link, so the walk ends and never comes back to `k`. */
  function Ancestors(modules: map<Guid, Module>, k: Guid): (r: set<Guid>)
    requires ParentsExist(modules) && k in modules
    ensures forall a :: a in r ==> a in modules && a < k
    decreases k
  {
    match modules[k].parentModuleId
    case None => {}
    case Some(parent) => {parent} + Ancestors(modules, parent)
  }

  /** No module is its own ancestor, nor an ancestor of its parent. */
  lemma ModuleTreeIsAcyclic(modules: map<Guid, Module>, k: Guid)
    requires ParentsExist(modules) && k in modules
    ensures k !in Ancestors(modules, k)
    ensures modules[k].parentModuleId.Some? ==> k !in Ancestors(modules, modules[k].parentModuleId.value)
  {
  }

  // ---- Modules ----

  /** Some module already has this code in this project (no project matching
      no project). */
  predicate ModuleExists(modules: map<Guid, Module>, code: string, projectId: Option<string>) {
    exists k :: k in modules && modules[k].code == code && modules[k].projectId == projectId
  }

  /** The module `CreateModuleAsync` stores: active, in the requested place
      of the tree. */
  function NewModule(request: CreateModuleRequest, createdBy: Option<string>, now: Time): (m: Module)
    ensures m.code == request.code && m.projectId == request.projectId
    ensures m.parentModuleId == request.parentModuleId && m.isActive
  {
    Module(request.name, request.description, request.code, request.parentModuleId, request.order, true,
      now, now, createdBy, None, request.projectId)
  }

  /** Stores a new module, one that fits its columns, under a fresh id. */
  method InsertModule(db: ApplicationDbContext, m: Module) returns (id: Guid)
    requires db.Valid() && !ModuleExists(db.modules, m.code, m.projectId) && ModuleFits(m)
    requires m.parentModuleId.Some? ==> m.parentModuleId.value in db.modules
    modifies db`modules, db`nextId
    ensures db.Valid()
    ensures id == old(db.nextId) && db.modules == old(db.modules)[id := m]
  {
    id := db.NewId();
    db.modules := db.modules[id := m];
  }

  /** `CreateModuleAsync`. A parent id that names no module, or a field
      longer than its column, is refused by the database. */
  method CreateModule(db: ApplicationDbContext, request: CreateModuleRequest, createdBy: Option<string>, now: Time)
    returns (r: Result<Guid>)
    requires db.Valid()
    modifies db`modules, db`nextId, db`auditLogs
    ensures db.Valid()
    ensures ModuleExists(old(db.modules), request.code, request.projectId) ==>
      && r == Err(InvalidOperation("Module with this code already exists"))
      && db.modules == old(db.modules) && db.auditLogs == old(db.auditLogs)
    ensures (!ModuleExists(old(db.modules), request.code, request.projectId)
      && ((request.parentModuleId.Some? && request.parentModuleId.value !in old(db.modules))
          || !ModuleFits(NewModule(request, createdBy, now)))) ==>
      && r == Err(DbUpdate(SaveFailed))
      && db.modules == old(db.modules) && db.auditLogs == old(db.auditLogs)
    ensures (!ModuleExists(old(db.modules), request.code, request.projectId)
      && (request.parentModuleId.Some? ==> request.parentModuleId.value in old(db.modules))
      && ModuleFits(NewModule(request, createdBy, now))) ==>
      && r == Ok(old(db.nextId))
      && db.modules == old(db.modules)[old(db.nextId) := NewModule(request, createdBy, now)]
      && db.auditLogs == old(db.auditLogs) + [AuditService.Entry(ModuleCreated, None, Some(old(db.nextId)),
           Some("Module"), Some("Module created: " + request.name), None, None, now)]
  {
    if ModuleExists(db.modules, request.code, request.projectId) {
      return Err(InvalidOperation("Module with this code already exists"));
    }
    var m := NewModule(request, createdBy, now);
    if (request.parentModuleId.Some? && request.parentModuleId.value !in db.modules) || !ModuleFits(m) {
      return Err(DbUpdate(SaveFailed));
    }
    var id := InsertModule(db, m);
    var _ := AuditService.LogActivity(db, ModuleCreated, None, Some(id), Some("Module"), Some("Module created: " + request.name),
      None, None, now);
    r := Ok(id);
  }

  /** The fields `UpdateModuleAsync` changes: the name and description only
      when given and not empty, the order and the active flag when given,
      and the audit fields. Code, parent and project never change. */
  function ApplyModuleUpdate(m: Module, request: UpdateModuleRequest, updatedBy: Option<string>, now: Time): (r: Module)
    ensures r.code == m.code && r.parentModuleId == m.parentModuleId && r.projectId == m.projectId
    ensures r.createdAt == m.createdAt && r.createdBy == m.createdBy
    ensures r.updatedBy == updatedBy && r.updatedAt == now
    ensures r.name == (if IsNullOrEmpty(request.name) then m.name else request.name.value)
    ensures r.description == (if IsNullOrEmpty(request.description) then m.description else request.description)
    ensures r.order == (if request.order.Some? then request.order.value else m.order)
    ensures r.isActive == (if request.isActive.Some? then request.isActive.value else m.isActive)
  {
    m.(
      name := if IsNullOrEmpty(request.name) then m.name else request.name.value,
      description := if IsNullOrEmpty(request.description) then m.description else request.description,
      order := if request.order.Some? then request.order.value else m.order,
      isActive := if request.isActive.Some? then request.isActive.value else m.isActive,
      updatedBy := updatedBy,
      updatedAt := now)
  }

  /** A stored module's update fits its columns exactly when a given name
      has at most 100 characters and a given description at most 500. */
  lemma ModuleUpdateFits(m: Module, request: UpdateModuleRequest, updatedBy: Option<string>, now: Time)
    requires ModuleFits(m)
    ensures ModuleFits(ApplyModuleUpdate(m, request, updatedBy, now)) <==>
      && (IsNullOrEmpty(request.name) || |request.name.value| <= 100)
      && (IsNullOrEmpty(request.description) || |request.description.value| <= 500)
  {
  }

  /** `UpdateModuleAsync`. A field longer than its column makes the save
      fail. The entry names the module by its new name. */
  method UpdateModule(db: ApplicationDbContext, moduleId: Guid, request: UpdateModuleRequest, updatedBy: Option<string>, now: Time)
    returns (r: Result<Module>)
    requires db.Valid()
    modifies db`modules, db`auditLogs
    ensures db.Valid()
    ensures moduleId !in old(db.modules) ==>
      r == Err(KeyNotFound("Module not found")) && db.modules == old(db.modules) && db.auditLogs == old(db.auditLogs)
    ensures moduleId in old(db.modules) ==>
      var updated := ApplyModuleUpdate(old(db.modules)[moduleId], request, updatedBy, now);
      && (!ModuleFits(updated) ==>
            r == Err(DbUpdate(SaveFailed)) && db.modules == old(db.modules) && db.auditLogs == old(db.auditLogs))
      && (ModuleFits(updated) ==>
            && r == Ok(updated)
            && db.modules == old(db.modules)[moduleId := updated]
            && db.auditLogs == old(db.auditLogs) + [AuditService.Entry(ModuleUpdated, None, Some(moduleId),
                 Some("Module"), Some("Module updated: " + updated.name), None, None, now)])
  {
    if moduleId !in db.modules {
      return Err(KeyNotFound("Module not found"));
    }
    var updated := ApplyModuleUpdate(db.modules[moduleId], request, updatedBy, now);
    if !ModuleFits(updated) {
      return Err(DbUpdate(SaveFailed));
    }
    db.modules := db.modules[moduleId := updated];
    var _ := AuditService.LogActivity(db, ModuleUpdated, None, Some(moduleId), Some("Module"),
      Some("Module updated: " + updated.name), None, None, now);
    r := Ok(updated);
  }

  /** Some module has `moduleId` as its parent: the `Restrict` link refuses
      the delete. */
  predicate HasSubModules(modules: map<Guid, Module>, moduleId: Guid) {
    exists k :: k in modules && modules[k].parentModuleId == Some(moduleId)
  }

  /** The features whose module is still stored: the cascade of a module delete. */
  function FeaturesOf(features: map<Guid, Feature>, modules: map<Guid, Module>): (r: map<Guid, Feature>)
    ensures forall k :: k in r <==> k in features && features[k].moduleId in modules
    ensures forall k :: k in r ==> r[k] == features[k]
  {
    map k | k in features && features[k].moduleId in modules :: features[k]
  }

  /** The permissions whose feature is still stored: the cascade of a
      feature delete. */
  function PermissionsOfFeatures(permissions: map<Guid, Permission>, features: map<Guid, Feature>): (r: map<Guid, Permission>)
    ensures forall k :: k in r <==> k in permissions && permissions[k].featureId in features
    ensures forall k :: k in r ==> r[k] == permissions[k]
  {
    map k | k in permissions && permissions[k].featureId in features :: permissions[k]
  }

  /** The grants whose permission is still stored: the cascade of a
      permission delete. */
  function GrantsOfPermissions(rolePermissions: map<Guid, RolePermission>, permissions: map<Guid, Permission>)
    : (r: map<Guid, RolePermission>)
    ensures forall k :: k in r <==> k in rolePermissions && rolePermissions[k].permissionId in permissions
    ensures forall k :: k in r ==> r[k] == rolePermissions[k]
  {
    map k | k in rolePermissions && rolePermissions[k].permissionId in permissions :: rolePermissions[k]
  }

  /** The module's features, their permissions and the grants of those go;
      everything else stays. */
  lemma DeleteModuleCascade(
    modules: map<Guid, Module>, features: map<Guid, Feature>, permissions: map<Guid, Permission>, moduleId: Guid)
    requires FeaturesReferenceModules(features, modules) && PermissionsReferenceFeatures(permissions, features)
    ensures forall k :: k in features ==>
      (k !in FeaturesOf(features, modules - {moduleId}) <==> features[k].moduleId == moduleId)
    ensures forall k :: k in permissions ==>
      (k !in PermissionsOfFeatures(permissions, FeaturesOf(features, modules - {moduleId}))
       <==> features[permissions[k].featureId].moduleId == moduleId)
  {
  }

  /** Removes a module no other module has as parent, with everything that
      cascades from it. */
  method RemoveModule(db: ApplicationDbContext, moduleId: Guid)
    requires db.Valid() && moduleId in db.modules && !HasSubModules(db.modules, moduleId)
    modifies db`modules, db`features, db`permissions, db`rolePermissions
    ensures db.Valid()
    ensures db.modules == old(db.modules) - {moduleId}
    ensures db.features == FeaturesOf(old(db.features), db.modules)
    ensures db.permissions == PermissionsOfFeatures(old(db.permissions), db.features)
    ensures db.rolePermissions == GrantsOfPermissions(old(db.rolePermissions), db.permissions)
  {
    var modules := db.modules - {moduleId};
    var features := FeaturesOf(db.features, modules);
    var permissions := PermissionsOfFeatures(db.permissions, features);
    db.modules, db.features, db.permissions := modules, features, permissions;
    db.rolePermissions := GrantsOfPermissions(db.rolePermissions, permissions);
  }

  /** `DeleteModuleAsync`. A module with sub-modules is refused by the
      database; otherwise its features, their permissions and the grants of
      those go with it (cascade). */
  method DeleteModule(db: ApplicationDbContext, moduleId: Guid, now: Time) returns (r: Result<bool>)
    requires db.Valid()
    modifies db`modules, db`features, db`permissions, db`rolePermissions, db`auditLogs
    ensures db.Valid()
    ensures moduleId !in old(db.modules) ==>
      && r == Err(KeyNotFound("Module not found"))
      && db.modules == old(db.modules) && db.features == old(db.features) && db.auditLogs == old(db.auditLogs)
    ensures moduleId in old(db.modules) && HasSubModules(old(db.modules), moduleId) ==>
      && r == Err(DbUpdate(SaveFailed))
      && db.modules == old(db.modules) && db.features == old(db.features) && db.auditLogs == old(db.auditLogs)
    ensures moduleId in old(db.modules) && !HasSubModules(old(db.modules), moduleId) ==>
      && r == Ok(true)
      && db.modules == old(db.modules) - {moduleId}
      && db.features == FeaturesOf(old(db.features), db.modules)
      && db.permissions == PermissionsOfFeatures(old(db.permissions), db.features)
      && db.rolePermissions == GrantsOfPermissions(old(db.rolePermissions), db.permissions)
      && db.auditLogs == old(db.auditLogs) + [AuditService.Entry(ModuleDeleted, None, Some(moduleId),
           Some("Module"), Some("Module deleted: " + old(db.modules)[moduleId].name), None, None, now)]
  {
    if moduleId !in db.modules {
      return Err(KeyNotFound("Module not found"));
    }
    if HasSubModules(db.modules, moduleId) {
      return Err(DbUpdate(SaveFailed));
    }
    var name := db.modules[moduleId].name;
    assert ModuleFits(db.modules[moduleId]);
    RemoveModule(db, moduleId);
    var _ := AuditService.LogActivity(db, ModuleDeleted, None, Some(moduleId), Some("Module"), Some("Module deleted: " + name),
      None, None, now);
    r := Ok(true);
  }

  /** A module with its key, as the query reads it. */
  datatype ModuleRow = ModuleRow(id: Guid, row: Module)

  /** The `OrderBy(m => m.Order)` order. */
  predicate OrderLe(a: ModuleRow, b: ModuleRow) {
    a.row.order <= b.row.order
  }

  /** `GetModulesAsync` over the table's rows: the project's modules, or all
      of them when no project is given, by `Order`. The database leaves the
      order of modules with equal `Order` open; the model fixes one. */
  function GetModules(rows: seq<ModuleRow>, projectId: Option<string>): (r: seq<ModuleRow>)
    ensures SortedBy(r, OrderLe)
    ensures forall x :: (multiset(r)[x]
      == if IsNullOrEmpty(projectId) || x.row.projectId == projectId then multiset(rows)[x] else 0)
  {
    assert Total(OrderLe);
    SortBy(Where(rows, (x: ModuleRow) => IsNullOrEmpty(projectId) || x.row.projectId == projectId), OrderLe)
  }

  // ---- Features ----

  /** Some feature of the module already has this code. */
  predicate FeatureExists(features: map<Guid, Feature>, code: string, moduleId: Guid) {
    exists k :: k in features && features[k].code == code && features[k].moduleId == moduleId
  }

  /** The feature `CreateFeatureAsync` stores: active. */
  function NewFeature(request: CreateFeatureRequest, createdBy: Option<string>, now: Time): (f: Feature)
    ensures f.code == request.code && f.moduleId == request.moduleId && f.isActive
  {
    Feature(request.name, request.description, request.code, request.moduleId, true, now, now, createdBy, None,
      request.projectId)
  }

  /** The permission of type `t` a new feature comes with. */
  function DefaultPermission(featureId: Guid, featureName: string, t: PermissionType, now: Time): Permission {
    Permission(featureId, t, Some(PermissionTypeName(t) + " permission for " + featureName), now)
  }

  /** `permissions` with one permission of `featureId` for each of `kinds`,
      under consecutive ids from `start`. */
  function WithDefaults(
    permissions: map<Guid, Permission>, featureId: Guid, featureName: string, kinds: seq<PermissionType>,
    start: Guid, now: Time): map<Guid, Permission>
  {
    if kinds == [] then permissions
    else
      WithDefaults(permissions, featureId, featureName, kinds[..|kinds| - 1], start, now)
        [start + |kinds| - 1 := DefaultPermission(featureId, featureName, kinds[|kinds| - 1], now)]
  }

  /** The rows of `WithDefaults`: the old rows unchanged, and one new row per
      type from `start` on. */
  lemma {:induction false} DefaultsRows(
    permissions: map<Guid, Permission>, featureId: Guid, featureName: string, kinds: seq<PermissionType>,
    start: Guid, now: Time)
    requires forall k :: k in permissions ==> k < start
    ensures forall k :: (k in WithDefaults(permissions, featureId, featureName, kinds, start, now)
      <==> k in permissions || start <= k < start + |kinds|)
    ensures forall k :: k in permissions ==>
      WithDefaults(permissions, featureId, featureName, kinds, start, now)[k] == permissions[k]
    ensures forall i :: 0 <= i < |kinds| ==>
      WithDefaults(permissions, featureId, featureName, kinds, start, now)[start + i]
        == DefaultPermission(featureId, featureName, kinds[i], now)
  {
    if kinds != [] {
      var prefix := kinds[..|kinds| - 1];
      DefaultsRows(permissions, featureId, featureName, prefix, start, now);
      forall i | 0 <= i < |prefix| ensures kinds[i] == prefix[i] { }
    }
  }

  /** The types of the permissions of `featureId`. */
  function KindsOf(permissions: map<Guid, Permission>, featureId: Guid): set<PermissionType> {
    set k | k in permissions && permissions[k].featureId == featureId :: permissions[k].kind
  }

  /** A feature with no permissions gets exactly one of each type, four in all. */
  lemma DefaultsCoverEveryType(
    permissions: map<Guid, Permission>, featureId: Guid, featureName: string, start: Guid, now: Time)
    requires forall k :: k in permissions ==> k < start && permissions[k].featureId != featureId
    ensures KindsOf(WithDefaults(permissions, featureId, featureName, AllPermissionTypes, start, now), featureId)
            == {Read, Write, Delete, Execute}
    ensures var after := WithDefaults(permissions, featureId, featureName, AllPermissionTypes, start, now);
      forall a, b :: (a in after && b in after && after[a].featureId == featureId && after[b].featureId == featureId
        && after[a].kind == after[b].kind) ==> a == b
  {
    var kinds := AllPermissionTypes;
    var after := WithDefaults(permissions, featureId, featureName, kinds, start, now);
    DefaultsRows(permissions, featureId, featureName, kinds, start, now);
    forall i | 0 <= i < 4 ensures after[start + i].featureId == featureId && after[start + i].kind == kinds[i] {
      assert after[start + i] == DefaultPermission(featureId, featureName, kinds[i], now);
    }
    assert kinds[0] == Read && kinds[1] == Write && kinds[2] == Delete && kinds[3] == Execute;
    assert after[start + 0].kind == Read && after[start + 1].kind == Write;
    assert after[start + 2].kind == Delete && after[start + 3].kind == Execute;
  }

  /** One more type is one more permission, under the next id. */
  lemma DefaultsSnoc(
    permissions: map<Guid, Permission>, featureId: Guid, featureName: string, kinds: seq<PermissionType>,
    t: PermissionType, start: Guid, now: Time)
    ensures WithDefaults(permissions, featureId, featureName, kinds + [t], start, now)
      == WithDefaults(permissions, featureId, featureName, kinds, start, now)
           [start + |kinds| := DefaultPermission(featureId, featureName, t, now)]
  {
    assert (kinds + [t])[..|kinds|] == kinds;
  }

  /** The `foreach` of `CreateFeatureAsync` over the permission types: one
      new permission per type, in declaration order. */
  method AddDefaults(
    permissions: map<Guid, Permission>, featureId: Guid, featureName: string, kinds: seq<PermissionType>,
    start: Guid, now: Time)
    returns (result: map<Guid, Permission>, next: Guid)
    ensures next == start + |kinds|
    ensures result == WithDefaults(permissions, featureId, featureName, kinds, start, now)
  {
    result, next := permissions, start;
    for i := 0 to |kinds|
      invariant next == start + i
      invariant result == WithDefaults(permissions, featureId, featureName, kinds[..i], start, now)
    {
      DefaultsSnoc(permissions, featureId, featureName, kinds[..i], kinds[i], start, now);
      assert kinds[..i + 1] == kinds[..i] + [kinds[i]];
      result := result[next := DefaultPermission(featureId, featureName, kinds[i], now)];
      next := next + 1;
    }
    assert kinds[..|kinds|] == kinds;
  }

  /** Storing a new feature, one that fits its columns, and its default
      permissions keeps every constraint of the store. */
  lemma DefaultsKeepValid(db: ApplicationDbContext, feature: Feature, featureName: string, now: Time)
    requires db.Valid() && feature.moduleId in db.modules && !FeatureExists(db.features, feature.code, feature.moduleId)
    requires FeatureFits(feature) && featureName == feature.name
    ensures Consistent(db.users, db.roles, db.modules, db.features[db.nextId := feature],
      WithDefaults(db.permissions, db.nextId, featureName, AllPermissionTypes, db.nextId + 1, now),
      db.userRoles, db.rolePermissions, db.refreshTokens, db.nextId + 1 + |AllPermissionTypes|)
  {
    var id := db.nextId;
    DefaultsRows(db.permissions, id, featureName, AllPermissionTypes, id + 1, now);
    var after := WithDefaults(db.permissions, id, featureName, AllPermissionTypes, id + 1, now);
    forall k | k in after ensures after[k].featureId in db.features[id := feature] && PermissionFits(after[k]) {
      if k !in db.permissions {
        var i := k - (id + 1);
        assert after[(id + 1) + i] == DefaultPermission(id, featureName, AllPermissionTypes[i], now);
        assert |PermissionTypeName(AllPermissionTypes[i])| <= 7;
      }
    }
  }

  /** Stores a new feature, one that fits its columns, and its default
      permissions under fresh ids. */
  method InsertFeature(db: ApplicationDbContext, feature: Feature, featureName: string, now: Time) returns (id: Guid)
    requires db.Valid() && feature.moduleId in db.modules && !FeatureExists(db.features, feature.code, feature.moduleId)
    requires FeatureFits(feature) && featureName == feature.name
    modifies db`features, db`permissions, db`nextId
    ensures db.Valid()
    ensures id == old(db.nextId)
    ensures db.features == old(db.features)[id := feature]
    ensures db.permissions == WithDefaults(old(db.permissions), id, featureName, AllPermissionTypes, id + 1, now)
  {
    DefaultsKeepValid(db, feature, featureName, now);
    id := db.nextId;
    var permissions, next := AddDefaults(db.permissions, id, featureName, AllPermissionTypes, id + 1, now);
    db.features, db.permissions, db.nextId := db.features[id := feature], permissions, next;
  }

  /** `CreateFeatureAsync`: the feature and one permission per type. A
      module id that names no module, or a field longer than its column, is
      refused by the database. Writes no audit entry. */
  method CreateFeature(db: ApplicationDbContext, request: CreateFeatureRequest, createdBy: Option<string>, now: Time)
    returns (r: Result<Guid>)
    requires db.Valid()
    modifies db`features, db`permissions, db`nextId
    ensures db.Valid()
    ensures FeatureExists(old(db.features), request.code, request.moduleId) ==>
      && r == Err(InvalidOperation("Feature with this code already exists"))
      && db.features == old(db.features) && db.permissions == old(db.permissions)
    ensures (!FeatureExists(old(db.features), request.code, request.moduleId)
      && (request.moduleId !in db.modules || !FeatureFits(NewFeature(request, createdBy, now)))) ==>
      && r == Err(DbUpdate(SaveFailed))
      && db.features == old(db.features) && db.permissions == old(db.permissions)
    ensures (!FeatureExists(old(db.features), request.code, request.moduleId)
      && request.moduleId in db.modules && FeatureFits(NewFeature(request, createdBy, now))) ==>
      var id := old(db.nextId);
      && r == Ok(id)
      && db.features == old(db.features)[id := NewFeature(request, createdBy, now)]
      && db.permissions == WithDefaults(old(db.permissions), id, request.name, AllPermissionTypes, id + 1, now)
  {
    if FeatureExists(db.features, request.code, request.moduleId) {
      return Err(InvalidOperation("Feature with this code already exists"));
    }
    var feature := NewFeature(request, createdBy, now);
    if request.moduleId !in db.modules || !FeatureFits(feature) {
      return Err(DbUpdate(SaveFailed));
    }
    var id := InsertFeature(db, feature, request.name, now);
    r := Ok(id);
  }

  /** The fields `UpdateFeatureAsync` changes: the name and description only
      when given and not empty, the active flag when given, and the audit
      fields. Code, module and project never change. */
  function ApplyFeatureUpdate(f: Feature, request: UpdateFeatureRequest, updatedBy: Option<string>, now: Time): (r: Feature)
    ensures r.code == f.code && r.moduleId == f.moduleId && r.projectId == f.projectId
    ensures r.createdAt == f.createdAt && r.createdBy == f.createdBy
    ensures r.updatedBy == updatedBy && r.updatedAt == now
    ensures r.name == (if IsNullOrEmpty(request.name) then f.name else request.name.value)
    ensures r.description == (if IsNullOrEmpty(request.description) then f.description else request.description)
    ensures r.isActive == (if request.isActive.Some? then request.isActive.value else f.isActive)
  {
    f.(
      name := if IsNullOrEmpty(request.name) then f.name else request.name.value,
      description := if IsNullOrEmpty(request.description) then f.description else request.description,
      isActive := if request.isActive.Some? then request.isActive.value else f.isActive,
      updatedBy := updatedBy,
      updatedAt := now)
  }

  /** A stored feature's update fits its columns exactly when a given name
      has at most 100 characters and a given description at most 500. */
  lemma FeatureUpdateFits(f: Feature, request: UpdateFeatureRequest, updatedBy: Option<string>, now: Time)
    requires FeatureFits(f)
    ensures FeatureFits(ApplyFeatureUpdate(f, request, updatedBy, now)) <==>
      && (IsNullOrEmpty(request.name) || |request.name.value| <= 100)
      && (IsNullOrEmpty(request.description) || |request.description.value| <= 500)
  {
  }

  /** `UpdateFeatureAsync`. A field longer than its column makes the save
      fail. Writes no audit entry. */
  method UpdateFeature(db: ApplicationDbContext, featureId: Guid, request: UpdateFeatureRequest, updatedBy: Option<string>, now: Time)
    returns (r: Result<Feature>)
    requires db.Valid()
    modifies db`features
    ensures db.Valid()
    ensures featureId !in old(db.features) ==>
      r == Err(KeyNotFound("Feature not found")) && db.features == old(db.features)
    ensures featureId in old(db.features) ==>
      var updated := ApplyFeatureUpdate(old(db.features)[featureId], request, updatedBy, now);
      && (!FeatureFits(updated) ==> r == Err(DbUpdate(SaveFailed)) && db.features == old(db.features))
      && (FeatureFits(updated) ==> r == Ok(updated) && db.features == old(db.features)[featureId := updated])
  {
    if featureId !in db.features {
      return Err(KeyNotFound("Feature not found"));
    }
    var updated := ApplyFeatureUpdate(db.features[featureId], request, updatedBy, now);
    if !FeatureFits(updated) {
      return Err(DbUpdate(SaveFailed));
    }
    db.features := db.features[featureId := updated];
    r := Ok(updated);
  }

  /** `DeleteFeatureAsync`. Its permissions and their grants go with it
      (cascade). Writes no audit entry. */
  method DeleteFeature(db: ApplicationDbContext, featureId: Guid) returns (r: Result<bool>)
    requires db.Valid()
    modifies db`features, db`permissions, db`rolePermissions
    ensures db.Valid()
    ensures featureId !in old(db.features) ==>
      && r == Err(KeyNotFound("Feature not found"))
      && db.features == old(db.features) && db.permissions == old(db.permissions)
      && db.rolePermissions == old(db.rolePermissions)
    ensures featureId in old(db.features) ==>
      && r == Ok(true)
      && db.features == old(db.features) - {featureId}
      && db.permissions == PermissionsOfFeatures(old(db.permissions), db.features)
      && db.rolePermissions == GrantsOfPermissions(old(db.rolePermissions), db.permissions)
  {
    if featureId !in db.features {
      return Err(KeyNotFound("Feature not found"));
    }
    var features := db.features - {featureId};
    var permissions := PermissionsOfFeatures(db.permissions, features);
    db.features, db.permissions := features, permissions;
    db.rolePermissions := GrantsOfPermissions(db.rolePermissions, permissions);
    r := Ok(true);
  }

  /** After a feature is deleted no role holds any of its permissions, and
      every other grant is kept. */
  lemma DeleteFeatureRevokes(
    features: map<Guid, Feature>, permissions: map<Guid, Permission>, rolePermissions: map<Guid, RolePermission>,
    featureId: Guid, roleId: Guid)
    requires PermissionsReferenceFeatures(permissions, features)
    requires forall k :: k in rolePermissions ==> rolePermissions[k].permissionId in permissions
    ensures PermissionsOf(GrantsOfPermissions(rolePermissions, PermissionsOfFeatures(permissions, features - {featureId})), roleId)
      == set p | p in PermissionsOf(rolePermissions, roleId) && permissions[p].featureId != featureId
  {
    var after := GrantsOfPermissions(rolePermissions, PermissionsOfFeatures(permissions, features - {featureId}));
    forall p | p in PermissionsOf(rolePermissions, roleId) && permissions[p].featureId != featureId
      ensures p in PermissionsOf(after, roleId)
    {
      var k :| k in rolePermissions && rolePermissions[k].roleId == roleId && rolePermissions[k].permissionId == p;
      assert k in after;
    }
  }

  /** A feature with its key, as the query reads it. */
  datatype FeatureRow = FeatureRow(id: Guid, feature: Feature)

  /** `GetFeaturesAsync` over the table's rows: the module's features, in
      table order. */
  function GetFeatures(rows: seq<FeatureRow>, moduleId: Guid): (r: seq<FeatureRow>)
    ensures forall x :: x in r <==> x in rows && x.feature.moduleId == moduleId
    ensures |r| <= |rows|
  {
    Where(rows, (x: FeatureRow) => x.feature.moduleId == moduleId)
  }
}
