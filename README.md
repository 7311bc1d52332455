# OSS User Management, modelled in Dafny

This project models the core of OSS-User-Management, an ASP.NET Core service for users, roles, permissions, modules and features. It proves properties of that model. The model covers:

- the services that change the database: authentication and the refresh-token lifecycle, role and permission grants, users and their roles, modules and features, and the audit log;
- the store's schema constraints;
- the rate-limiting, bearer-token and error-handling middlewares;
- the request validators.

Layout, one Dafny module per file:

| file | module | models |
|---|---|---|
| `wrappers.dfy` | `Wrappers` | `Option`, and `Result` with the service failures (`Unauthorized`, `KeyNotFound`, `InvalidOperation`, `DbUpdate`, `Query`) |
| `models.dfy` | `Models` | the entity records, the enumerations, and BCrypt as an ideal salted hash |
| `text.dfy` | `Text` | the .NET string operations used: ordinal ignore-case, `StartsWithSegments`, `Trim`, `Contains`, ordinal order |
| `queries.dfy` | `Queries` | the LINQ operators used: `Where`, `OrderBy`, `Skip`, `Take`, and one page with the paging SQL Server accepts |
| `refresh_token.dfy` | `Tokens` | the refresh-token row and its `IsActive`/`IsExpired` |
| `jwt.dfy` | `Jwt` | the token service: an access token names its user; each refresh value is new |
| `store.dfy` | `Data` | `ApplicationDbContext` as a class of tables (`map<Guid, row>`) with the schema invariant `Valid()` |
| `audit_service.dfy` | `AuditService` | `LogActivityAsync`, `GetAuditLogsAsync` |
| `auth_service.dfy` | `AuthService` | login, registration, refresh, change of password, revoking one or all tokens |
| `role_service.dfy` | `RoleService` | create, update and delete a role; grant and revoke permissions |
| `user_service.dfy` | `UserService` | create, update, delete and list users; assign and revoke roles |
| `module_service.dfy` | `ModuleService` | modules and features, and a new feature's default permissions |
| `rate_limiting.dfy` | `RateLimiting` | the per-client sliding-window limiter, as a class over a `map<string, seq<Time>>` |
| `authentication.dfy` | `Authentication` | public paths, the bearer header, and the `context.User` decision |
| `error_handling.dfy` | `ErrorHandling` | status code and messages per exception class |
| `validators.dfy` | `Validators` | the FluentValidation rule chains, as lists of failure messages |

Conventions of the model:

- Time is an integer number of seconds, passed in as `now`. Each operation reads the clock once.
- `Guid.NewGuid()` is the store's counter `nextId`. It never hands out `Guid.Empty` (0) or an id already in use.
- BCrypt's random salt is a parameter.
- The two token-service calls the bearer middleware makes are function parameters, `validate` and `userIdOf`.
- The database is SQL Server, which enforces unique indexes and foreign keys. A change it refuses is the failure `DbUpdate(SaveFailed)`, and a query it refuses is `Query(message)`. Where a service would throw, the model returns `Err(...)`.
- Deletes follow the cascades of the entity model. A module that is some module's parent cannot be deleted, because that link is `Restrict`.
- A `[MaxLength(n)]` column holds at most `n` characters. A save carrying a longer value is refused as `DbUpdate(SaveFailed)`, and every stored row fits its columns (part of `Valid()`).
- The audit service saves on every write. So within one call, a row added before an audit write is already stored when the next row is checked.

## Model

| member | source | states |
|---|---|---|
| Models.VerifyHashed | src/Services/AuthService.cs:186-191 | A hash made from a password verifies that password. |
| Models.HashPassword | src/Services/AuthService.cs:113 | `BCrypt.HashPassword`: an ideal salted hash that records the password it was made from. |
| Models.Verify | src/Services/AuthService.cs:40 | `BCrypt.Verify`: true exactly for a hash made from this password; the empty default hash verifies nothing. |
| Models.IsDefinedStatus | src/Models/Enums.cs:3-8 | `Enum.IsDefined`: the status is 1 (Active), 2 (Inactive) or 3 (Suspended), the three numbers the enum names. |
| Models.AtMost | src/Models/User.cs:23-30 | A nullable string of at most `n` characters: what a `[MaxLength(n)]` column stores. |
| Models.UserFits | src/Models/User.cs:13-54 | The user fits its columns: username and names at most 100, email at most 255, phone number at most 20, project at most 100. Hash and avatar are unbounded. |
| Models.RoleFits | src/Models/Role.cs:13-33 | The role fits its columns: name 100, description 500, project 100. |
| Models.ModuleFits | src/Models/Module.cs:13-38 | The module fits its columns: name 100, description 500, code 50, project 100. |
| Models.FeatureFits | src/Models/Feature.cs:13-37 | The feature fits its columns: name 100, description 500, code 50, project 100. |
| Models.PermissionFits | src/Models/Permission.cs:18-19 | The permission description is at most 500 characters. |
| Models.AuditLogFits | src/Models/AuditLog.cs:19-34 | The entry fits its columns: entity type 100, details 1000, client address 45, user agent 500, project 100. |
| Text.ToUpper | src/Middleware/AuthenticationMiddleware.cs:82 | Ordinal ignore-case folding maps every ASCII letter to an upper-case letter and leaves every character that is not a lower-case letter unchanged. |
| Text.StartsWithSegments | src/Middleware/AuthenticationMiddleware.cs:72 | `PathString.StartsWithSegments` with `OrdinalIgnoreCase`: the path begins with the segment, ignoring case, and ends there or continues with `/`. |
| Text.ContainsAt | src/Services/UserService.cs:170-173 | A string contains every infix that occurs at some position in it. |
| Text.Contains | src/Services/UserService.cs:170-173 | `string.Contains`: the text occurs at some position, compared ordinally. |
| Text.LexLeTotal | src/Services/UserService.cs:182 | Ordinal string order relates any two strings one way or the other. |
| Text.LexLeAntisymmetric | src/Services/UserService.cs:182 | Two strings ordered both ways are equal. |
| Text.TrimStart | src/Middleware/AuthenticationMiddleware.cs:84 | The result is a suffix. Everything cut off is white space, and the result does not start with white space. |
| Text.TrimEnd | src/Middleware/AuthenticationMiddleware.cs:84 | The result is a prefix. Everything cut off is white space, and the result does not end with white space. |
| Text.Trim | src/Middleware/AuthenticationMiddleware.cs:84 | The result is an infix with only white space cut off on either side, and it neither starts nor ends with white space. |
| Text.TrimStartSkipsWhiteSpace | src/Middleware/AuthenticationMiddleware.cs:84 | Leading white space does not change what `TrimStart` returns. |
| Text.TrimEndSkipsWhiteSpace | src/Middleware/AuthenticationMiddleware.cs:84 | Trailing white space does not change what `TrimEnd` returns. |
| Text.TrimPadded | src/Middleware/AuthenticationMiddleware.cs:84 | Trimming a trimmed string padded with white space on either side gives the string back. |
| Queries.Where | src/Services/AuditService.cs:47-75 | Keeps exactly the elements that pass the filter, each as many times as it occurred. |
| Queries.Insert | src/Services/AuditService.cs:80 | Inserting into a sorted sequence keeps it sorted and adds exactly that element. |
| Queries.SortBy | src/Services/AuditService.cs:80 | The result is sorted by the given order and is a permutation of the input. |
| Queries.Skip | src/Services/AuditService.cs:81 | For a count the database accepts: as many elements as remain after the count, each the element that many places further on. |
| Queries.Take | src/Services/AuditService.cs:82 | For a count the database accepts: the count, or all when fewer remain, each the element at the same position. |
| Queries.PageAcceptedBounds | src/Services/AuditService.cs:81-82 | SQL Server runs the page (`OFFSET` not negative, `FETCH` positive) iff the page number and the page size are both at least 1. |
| Queries.PageRefusal | src/Services/AuditService.cs:81-82 | A refused page raises a query failure with SQL Server's `FETCH` message when the size is not positive, and its `OFFSET` message otherwise, which happens only for a page number below 1. |
| Queries.Page | src/Services/AuditService.cs:81-82 | For an accepted page: one contiguous slice from the page offset. It holds at most `pageSize` elements, exactly that many when enough follow the offset, and the rest of the sequence otherwise. |
| Queries.PageOfSorted | src/Services/AuditService.cs:79-83 | An accepted page of a sorted sequence is sorted. |
| Queries.PageWithin | src/Services/AuditService.cs:81-82 | An accepted page holds only elements of the sequence it is cut from. |
| Tokens.ActiveIff | src/Models/RefreshToken.cs:28-30 | A token is active iff it is unrevoked and `now < ExpiresAt`. |
| Tokens.IsActive | src/Models/RefreshToken.cs:28 | `IsActive`: not revoked and not expired. |
| Tokens.IsExpired | src/Models/RefreshToken.cs:30 | `IsExpired`: the clock is at or past `ExpiresAt`. |
| Tokens.TokenFits | src/Models/RefreshToken.cs:25-26 | The client address is at most 45 characters. |
| Tokens.ExpiredAtExpiry | src/Models/RefreshToken.cs:30 | At the instant `now == ExpiresAt` a token is already expired and not active. |
| Tokens.RevokedNeverActive | src/Models/RefreshToken.cs:28 | A token with `RevokedAt` set is not active at any time. |
| Tokens.ExpiryIsPermanent | src/Models/RefreshToken.cs:30 | A token expired at some time is expired, and not active, at every later time. |
| Jwt.GenerateAccessToken | src/Services/IJwtService.cs:7 | The access token is issued for the given user. |
| Jwt.LongerThanAll | src/Services/IJwtService.cs:8 | Some string is longer than each of finitely many strings, so a new refresh value always exists. |
| Jwt.JwtService.constructor | src/Services/IJwtService.cs:8 | The generator starts with no values produced. |
| Jwt.JwtService.GenerateRefreshToken | src/Services/IJwtService.cs:8 | The value differs from every value produced before, and it is added to the history. |
| Data.ApplicationDbContext.constructor | src/Data/ApplicationDbContext.cs:24-89 | The empty database satisfies every unique index and foreign key. |
| Data.ApplicationDbContext.NewId | src/Models/RefreshToken.cs:10 | A new id is not `Guid.Empty` and is the key of no row in any table. The schema invariant is kept. |
| AuditService.LogActivity | src/Services/AuditService.cs:17-39 | The save checks the entry's foreign key to `Users` and its column widths. An entry with no user, or naming a stored user, that fits its columns is appended exactly as given, stamped `now`. Any other entry is refused and the log is unchanged. The foreign key, when it held, still holds, and no other table changes. |
| AuditService.Referenced | src/Models/AuditLog.cs:15 | Some entry names the user as its `UserId`. |
| AuditService.UsersExist | src/Models/AuditLog.cs:37-38 | The foreign key from `AuditLog.UserId`: every entry that names a user names a stored one. |
| AuditService.NewerOrSameIsTotal | src/Services/AuditService.cs:80 | Newest-first order relates any two entries. |
| AuditService.Matches | src/Services/AuditService.cs:47-75 | An entry passes each filter the request supplies: action, user, entity type (when not empty), on or after the start date, on or before the end date, and project (when not empty). |
| AuditService.Filtered | src/Services/AuditService.cs:47-75 | Exactly the entries that pass every supplied filter (action, user, entity type, start date, end date, project), with their multiplicities. |
| AuditService.Ordered | src/Services/AuditService.cs:80 | The filtered entries in non-increasing timestamp order, as a permutation of them. |
| AuditService.OrderedEntries | src/Services/AuditService.cs:47-80 | The ordered entries are as many as the filtered ones. Each is an entry of the log that passes every filter. |
| AuditService.GetAuditLogs | src/Services/AuditService.cs:41-107 | A page number below 1 or a page size below 1 makes SQL Server refuse the page query, and the call fails with that error. Otherwise `TotalCount` is the number of filtered entries, counted before paging. The page is the run of the ordered entries at offset `(PageNumber-1)*PageSize`: exactly `PageSize` entries when enough follow, and otherwise every entry from the offset to the end. The request's page number and size are echoed. |
| AuditService.ReturnedEntries | src/Services/AuditService.cs:47-83 | Every entry of a returned page is in the log and satisfies every supplied filter, and the page is newest first. |
| AuthService.AddRefreshToken | src/Services/AuthService.cs:65-77 | Always generates a never-issued value. A client address that fits its column stores one new row for the user under a fresh id, holding that value, expiring in 7 days and unrevoked. A longer address is refused and the table is unchanged. |
| AuthService.FindUser | src/Services/AuthService.cs:35-38 | Finds a user whose email or username is exactly the identifier, or none iff no user matches. |
| AuthService.FindToken | src/Services/AuthService.cs:140-142 | Finds the unique row holding the value, or none iff no row holds it. |
| AuthService.Login | src/Services/AuthService.cs:33-98 | An unknown identifier and a wrong password both fail with "Invalid credentials" and add no token. Each appends one `LoginFailed` entry with no user, or fails with a refused save when that entry does not fit its columns. A verified password on a non-active account fails with "Account is not active" and changes nothing. Otherwise the call is as `SignIn` states. |
| AuthService.SignIn | src/Services/AuthService.cs:59-97 | Sets `LastLoginAt = now`. A client address too long for the token row then fails the call with no token and no entry. Otherwise it adds exactly one fresh token expiring at `now + 7 days`. A user agent too long for the entry then fails the call with that token kept. Otherwise it appends one `LoginSuccess` entry and reports expiry `now + 60 min`. |
| AuthService.Register | src/Services/AuthService.cs:100-136 | A taken email or username fails with "User already exists" and changes nothing. A field too long for its column is refused and changes nothing. Otherwise it adds one Active user whose hash verifies the password. It then appends one `UserCreated` entry, or, when the client address is too long for the entry, fails with a refused save and the user kept. |
| AuthService.Rotated | src/Services/AuthService.cs:151-153 | The presented token is revoked now and no longer active. Only `RevokedAt` and `ReplacedByToken` change. |
| AuthService.Rotate | src/Services/AuthService.cs:151-153 | Revokes the row now and stores a newly generated value, not the successor, as its replacement. |
| AuthService.Refresh | src/Services/AuthService.cs:138-176 | An unknown, revoked or expired value fails with "Invalid refresh token" and changes nothing. So a rotated token presented again fails, and nothing else is revoked. For an active value, a client address too long for the new row refuses the one save of the rotation and the new row, and nothing changes. Success revokes the old row now and gives it a fresh `ReplacedByToken` that differs from the new token. It adds exactly one token for the same user expiring at `now + 7 days` and leaves every other row unchanged. |
| AuthService.ChangePassword | src/Services/AuthService.cs:178-207 | A missing user fails with `KeyNotFound`. A wrong current password fails with `Unauthorized` and leaves the hash unchanged. Otherwise the new hash verifies the new password and one `PasswordChanged` entry is appended. No refresh token changes in any case. |
| AuthService.Revoke | src/Services/AuthService.cs:219 | Sets `RevokedAt = now` on one row, overwriting any earlier value. |
| AuthService.RevokeToken | src/Services/AuthService.cs:209-223 | Returns false and changes nothing for an unknown value. Otherwise it sets that row's `RevokedAt = now`, even if it was already revoked, and returns true. |
| AuthService.RevokedAllByRows | src/Services/AuthService.cs:227-234 | A table whose selected rows are revoked now and whose other rows are unchanged is the revoke-all table. |
| AuthService.RevokedAllKeepsRows | src/Services/AuthService.cs:231-234 | Revoking all keeps every row's key, owner and value. |
| AuthService.RevokeEach | src/Services/AuthService.cs:227-234 | The loop revokes now exactly the user's rows with no `RevokedAt`, expired or not. |
| AuthService.RevokeAll | src/Services/AuthService.cs:225-238 | The token table becomes the revoke-all table, and the call returns true. |
| AuthService.RevokeAllDeactivates | src/Services/AuthService.cs:225-238 | Afterwards none of the user's tokens is active at any time, and every other user's rows are unchanged. |
| AuthService.RevokeAllIdempotent | src/Services/AuthService.cs:227-228 | Revoking all again later changes nothing, and the first revocation times stay. |
| RoleService.NewGrants | src/Services/RoleService.cs:157-184 | The grants are exactly the listed ids that name a permission and are not held already. |
| RoleService.NewGrantsStep | src/Services/RoleService.cs:157-165 | The next id is granted iff it names a permission that is neither held nor granted earlier in the call. |
| RoleService.NewGrantsDistinct | src/Services/RoleService.cs:165 | One call grants no permission twice. |
| RoleService.NothingNewToGrant | src/Services/RoleService.cs:165 | A list whose known ids are all held grants nothing. |
| RoleService.GrantsIdempotent | src/Services/RoleService.cs:157-186 | Repeating an assignment grants nothing new. |
| RoleService.GrantEntries | src/Services/RoleService.cs:174-182 | One `PermissionGranted` entry per grant. |
| RoleService.GrantEntriesAt | src/Services/RoleService.cs:174-182 | The i-th entry records the i-th grant. |
| RoleService.GrantedRows | src/Services/RoleService.cs:167-172 | Old edges are unchanged, and there is one new edge per grant under consecutive fresh ids. |
| RoleService.GrantedPermissions | src/Services/RoleService.cs:167-172 | The role's permissions grow by exactly the grants, and other roles' permissions are unchanged. |
| RoleService.GrantStep | src/Services/RoleService.cs:165 | The existence check on the stored edges agrees with the value-level grant rule. |
| RoleService.GrantedSnoc | src/Services/RoleService.cs:167-172 | One more grant is one more edge under the next id. |
| RoleService.GrantEach | src/Services/RoleService.cs:157-184 | The loop stores exactly the new grants as edges and writes their entries in the same order. |
| RoleService.GrantsKeepValid | src/Data/ApplicationDbContext.cs:67 | Storing distinct new grants of existing permissions keeps the unique `(RoleId, PermissionId)` index and every other constraint. |
| RoleService.AssignPermissions | src/Services/RoleService.cs:149-188 | A missing role fails with `KeyNotFound` and adds no edge. Unknown ids are skipped silently. An edge held before is not added again. Each new edge logs one `PermissionGranted`. |
| RoleService.AssignPermissionsGrants | src/Services/RoleService.cs:157-186 | Afterwards the role holds what it held plus every listed id that names a permission. No other role changes. |
| RoleService.Revoked | src/Services/RoleService.cs:192-196 | Removing edges only removes rows and keeps the rest unchanged. |
| RoleService.RevokedPermissions | src/Services/RoleService.cs:192-196 | The role loses exactly the listed permissions, and other roles keep theirs. |
| RoleService.RevokeUndoesAssign | src/Services/RoleService.cs:190-200 | Revoking the ids just assigned leaves what the role held before, minus those ids. |
| RoleService.RevokePermissions | src/Services/RoleService.cs:190-200 | Removes exactly the role's edges to the listed permissions and returns true, even for an unknown role. |
| RoleService.NewRole | src/Services/RoleService.cs:30-37 | The new role carries the request's name and project and is not a system role. |
| RoleService.InsertRole | src/Services/RoleService.cs:39-40 | Stores a role that fits its columns under a fresh id, with no permissions yet. |
| RoleService.CreateRole | src/Services/RoleService.cs:22-59 | A role with the same name and project fails with "Role already exists" and adds nothing. A role too long for its columns is refused and adds nothing. Otherwise the call is as `StoreRole` states. |
| RoleService.StoreRole | src/Services/RoleService.cs:39-58 | Adds the role under a fresh id, grants the listed permissions as `AssignPermissions` does, then logs the role's creation and returns its id. |
| RoleService.GrantRequested | src/Services/RoleService.cs:42-46 | No listed ids grants nothing. Otherwise the new role gets exactly the grants of `AssignPermissions`, with one `PermissionGranted` entry each. |
| RoleService.CreateRoleGrants | src/Services/RoleService.cs:42-46 | A new role holds exactly the requested ids that name permissions. |
| RoleService.ApplyRoleUpdate | src/Services/RoleService.cs:69-79 | The name and the description each change only to a non-empty requested value, and the priority only to a present one. Project, system flag and creation fields stay, and the update stamp is set. |
| RoleService.EmptyRoleUpdate | src/Services/RoleService.cs:69-79 | A request whose every field is missing or empty changes only the audit fields. |
| RoleService.NameTaken | src/Data/ApplicationDbContext.cs:39 | The unique `(Name, ProjectId)` index refuses the name: another role of the same, non-null project already has it. |
| RoleService.UpdateRole | src/Services/RoleService.cs:61-84 | A missing id fails with `KeyNotFound`. A rename onto another role's name in the same project is refused by the unique index. A name or description too long for its column is refused too. Otherwise the updated role is stored. |
| RoleService.UpdateFits | src/Services/RoleService.cs:69-79 | A stored role still fits its columns after the update iff a given non-empty name is at most 100 characters and a given non-empty description at most 500. |
| RoleService.KeepingNameNeverClashes | src/Data/ApplicationDbContext.cs:39 | Keeping a role's own name is never refused by the unique index. |
| RoleService.WithoutRoleUsers | src/Services/RoleService.cs:94 | The cascade removes exactly the user edges to the role. |
| RoleService.WithoutRoleGrants | src/Services/RoleService.cs:94 | The cascade removes exactly the role's permission edges. |
| RoleService.DeleteRole | src/Services/RoleService.cs:86-98 | A missing id fails with `KeyNotFound` and removes nothing. Otherwise the role and its edges go. |
| RoleService.DeleteRoleUnassigns | src/Services/RoleService.cs:94-95 | After deletion every user holds what they held, minus the deleted role. |
| UserService.Assigned | src/Services/UserService.cs:236-259 | Stores only listed ids that name roles and that the user did not hold before the call. |
| UserService.AssignedStep | src/Services/UserService.cs:238-240 | The next id is skipped if held before the call. Otherwise it is stored, or its save is refused. |
| UserService.AssignedStops | src/Services/UserService.cs:240-257 | Once a save is refused, the rest of the list is never looked at. |
| UserService.AssignedDistinct | src/Services/UserService.cs:240-247 | One call stores no role twice. |
| UserService.AssignedOutcome | src/Services/UserService.cs:238-261 | The call fails iff some listed id not held before names no role or repeats an earlier id. Without failure, every listed id not held before is stored. |
| UserService.AssignedRows | src/Services/UserService.cs:242-247 | Old edges are unchanged, and there is one new edge per stored role under consecutive fresh ids. |
| UserService.AssignedRoles | src/Services/UserService.cs:242-247 | The user's roles grow by exactly the stored ones, and other users are unchanged. |
| UserService.AssignedSnoc | src/Services/UserService.cs:242-247 | One more stored role is one more edge under the next id. |
| UserService.AssignEach | src/Services/UserService.cs:238-259 | The loop stores exactly the roles `Assigned` gives and reports whether a save was refused. |
| UserService.AssignedKeepValid | src/Data/ApplicationDbContext.cs:61 | Storing distinct new roles of an existing user keeps the unique `(UserId, RoleId)` index and every other constraint. |
| UserService.AssignRoles | src/Services/UserService.cs:227-263 | A missing user fails with `KeyNotFound`. Roles held before are skipped, and each stored role logs one `RoleAssigned`. Existing assignments are never removed. A refused save ends the call with a failure after the earlier ones persisted. |
| UserService.AssignRolesGrants | src/Services/UserService.cs:235-259 | A successful call leaves the user with what they held plus every listed id, and no other user changes. |
| UserService.Unassigned | src/Services/UserService.cs:267-271 | Removes exactly the user's edges to the listed roles. |
| UserService.UnassignedRoles | src/Services/UserService.cs:267-271 | The user loses exactly the listed roles, and other users keep theirs. |
| UserService.RevokeUndoesAssignRoles | src/Services/UserService.cs:265-288 | Revoking the ids a successful assignment stored leaves what the user held before, minus those ids. |
| UserService.RevokeRoles | src/Services/UserService.cs:265-288 | Removes exactly the user's edges to the listed roles. For a stored user, or an empty list, it logs one `RoleRevoked` per listed id, whether or not the user held it, and returns true. For an unknown user and a non-empty list the first entry's foreign key is refused and the call fails with nothing logged. |
| UserService.NewUser | src/Services/UserService.cs:30-40 | The stored user is Active, with the request's username, email and project, and its password hash is the empty default. |
| UserService.CreatedUserCannotSignIn | src/Services/UserService.cs:30-40 | No password verifies against a user made by `CreateUserAsync`. |
| UserService.NewUserHashed | src/Services/UserService.cs:30-40 | The same user with the request's password hashed, which verifies that password. |
| UserService.InsertUser | src/Services/UserService.cs:42-43 | Stores a user that fits its columns under a fresh id, with no roles yet. |
| UserService.CreateUserAs | src/Services/UserService.cs:22-62 | A taken email or username fails with "User already exists" and changes nothing. A user too long for its columns is refused and changes nothing. Otherwise the call is as `StoreUser` states. |
| UserService.StoreUser | src/Services/UserService.cs:42-61 | Adds the user under a fresh id and assigns the listed roles as `AssignRoles` does. A refused assignment ends the call with a failure. Otherwise it logs `UserCreated` and returns the id. |
| UserService.CreateUser | src/Services/UserService.cs:22-62 | `CreateUserAsync` as written: everything `CreateUserAs` states, column widths included, with the stored user being `NewUser`. |
| UserService.CreateUserHashed | src/Services/UserService.cs:22-62 | The corrected creation: everything `CreateUserAs` states, column widths included, with the stored user being `NewUserHashed`, whose hash verifies the request's password. |
| UserService.ApplyUserUpdate | src/Services/UserService.cs:72-88 | The first name, last name, phone number and avatar each change only to a non-empty requested value, and the status only to a present one. Username, email, hash, project, creation fields and last login never change, and the update stamp is set. |
| UserService.EmptyUserUpdate | src/Services/UserService.cs:72-88 | A request whose every field is missing or empty changes only the audit fields. |
| UserService.UpdateUser | src/Services/UserService.cs:64-103 | A missing id fails with `KeyNotFound`. An updated user too long for its columns is refused and nothing changes. Otherwise it stores the updated user and logs `UserUpdated`. |
| UserService.UpdateFits | src/Services/UserService.cs:72-88 | A stored user still fits its columns after the update iff each given non-empty first or last name is at most 100 characters and a given non-empty phone number at most 20. |
| UserService.WithoutUserRoles | src/Services/UserService.cs:113 | The cascade removes exactly the user's role edges. |
| UserService.WithoutUserTokens | src/Services/UserService.cs:113 | The cascade removes exactly the user's refresh tokens. |
| UserService.DeleteUser | src/Services/UserService.cs:105-127 | A missing id fails with `KeyNotFound` and changes nothing. For a stored user the call always fails with a refused save and logs nothing: if an audit entry names the user, the delete is refused and nothing changes; otherwise the user, their role edges and their tokens go, and the `UserDeleted` entry naming the removed user is refused. |
| UserService.Detached | src/Models/AuditLog.cs:37-38 | A `SetNull` delete action: every entry that named the user now names none, all else is kept, and no entry names the user. |
| UserService.DetachedUsersExist | src/Models/AuditLog.cs:37-38 | Detaching a deleted user's entries keeps the audit foreign key. |
| UserService.DeleteUserDetaching | src/Services/UserService.cs:105-127 | The corrected deletion: a missing id fails with `KeyNotFound`. Otherwise it returns true, the user, their role edges and tokens go, their entries keep their history with no user, and one `UserDeleted` entry with the user as entity only is logged. The audit foreign key, when it held, still holds. |
| UserService.DeleteUserUnassigns | src/Services/UserService.cs:113-114 | After deletion the user holds no role, and every other user's roles stay. |
| UserService.UsernameLeIsTotal | src/Services/UserService.cs:182 | Username order relates any two users. |
| UserService.MatchesSearch | src/Services/UserService.cs:167-174 | The search term occurs in the username, the email, or a first or last name that is present. |
| UserService.UsernameLe | src/Services/UserService.cs:182 | The `OrderBy(u => u.Username)` order, as an ordinal comparison of usernames. |
| UserService.Selection | src/Services/UserService.cs:158-175 | Exactly the users of the project, when one is given, whose username, email, first or last name contains the search term, when one is given. |
| UserService.ByUsername | src/Services/UserService.cs:179-182 | The selected users sorted by username, as a permutation of them. |
| UserService.ByUsernameSelected | src/Services/UserService.cs:158-182 | Every user in the username order is a table row that passes the filters. |
| UserService.GetUsers | src/Services/UserService.cs:156-210 | A page number below 1 or a page size below 1 makes SQL Server refuse the page query, and the call fails with that error. Otherwise `TotalCount` is the number of selected users, counted before paging. The page is the run of them by username at offset `(PageNumber-1)*PageSize`: exactly `PageSize` users when enough follow, and otherwise every user from the offset to the end. The page number and size are echoed. |
| UserService.ListedUsers | src/Services/UserService.cs:177-185 | Every user of a returned page is in the table and passes the filters, and the page is in username order. |
| ModuleService.Ancestors | src/Services/ModuleService.cs:29-38 | Every ancestor of a module is a stored module created before it. |
| ModuleService.ModuleTreeIsAcyclic | src/Services/ModuleService.cs:29-38 | No module is its own ancestor or an ancestor of its parent. |
| ModuleService.NewModule | src/Services/ModuleService.cs:29-38 | The new module is active and takes the request's code, project and parent. |
| ModuleService.InsertModule | src/Services/ModuleService.cs:40-41 | Stores a module that fits its columns under a fresh id. |
| ModuleService.CreateModule | src/Services/ModuleService.cs:22-54 | The same code in the same project fails with `InvalidOperation` and adds nothing. A parent id naming no module, or a module too long for its columns, is refused by the database. Otherwise the module is added and `ModuleCreated` is logged. |
| ModuleService.ApplyModuleUpdate | src/Services/ModuleService.cs:64-77 | The name and the description each change only to a non-empty requested value, and the order and the active flag only to a present one. The parent link, code, project and creation fields never change, and the update stamp is set. |
| ModuleService.UpdateModule | src/Services/ModuleService.cs:56-92 | A missing id fails with `KeyNotFound`. An updated module too long for its columns is refused and nothing changes. Otherwise it stores the updated module and logs `ModuleUpdated`. |
| ModuleService.ModuleUpdateFits | src/Services/ModuleService.cs:64-77 | A stored module still fits its columns after the update iff a given non-empty name is at most 100 characters and a given non-empty description at most 500. |
| ModuleService.FeaturesOf | src/Services/ModuleService.cs:102-103 | The cascade keeps exactly the features whose module remains. |
| ModuleService.PermissionsOfFeatures | src/Services/ModuleService.cs:102-103 | The cascade keeps exactly the permissions whose feature remains. |
| ModuleService.GrantsOfPermissions | src/Services/ModuleService.cs:102-103 | The cascade keeps exactly the grants whose permission remains. |
| ModuleService.DeleteModuleCascade | src/Services/ModuleService.cs:102-103 | Exactly the module's features, and their permissions, go. |
| ModuleService.RemoveModule | src/Services/ModuleService.cs:102-103 | Removing a module with no sub-modules, with its cascade, keeps every constraint. |
| ModuleService.DeleteModule | src/Services/ModuleService.cs:94-116 | A missing id fails with `KeyNotFound` and removes nothing. A module that is a parent is refused by the `Restrict` link. Otherwise it removes the module with its cascade and logs `ModuleDeleted`. |
| ModuleService.GetModules | src/Services/ModuleService.cs:133-147 | The project's modules, or all when no project is given, in ascending `Order`, as a permutation of the matching rows. |
| ModuleService.NewFeature | src/Services/ModuleService.cs:156-164 | The new feature is active, with the request's code and module. |
| ModuleService.DefaultsRows | src/Services/ModuleService.cs:170-179 | Old permissions are unchanged, and there is one new permission per type under consecutive fresh ids. |
| ModuleService.WithDefaults | src/Services/ModuleService.cs:170-179 | The permission table with one new `Permission` per listed type for the feature, described as `{type} permission for {feature name}`, under consecutive ids. |
| ModuleService.DefaultsCoverEveryType | src/Services/ModuleService.cs:170-179 | A new feature gets exactly one permission of each type: Read, Write, Delete and Execute. |
| ModuleService.DefaultsSnoc | src/Services/ModuleService.cs:171-179 | One more type is one more permission under the next id. |
| ModuleService.AddDefaults | src/Services/ModuleService.cs:170-181 | The loop adds one permission per type, in declaration order. |
| ModuleService.DefaultsKeepValid | src/Data/ApplicationDbContext.cs:55 | Storing a feature that fits its columns, with a new `(Code, ModuleId)`, and its permissions keeps every constraint, the permissions' description width included. |
| ModuleService.InsertFeature | src/Services/ModuleService.cs:166-181 | Stores a feature that fits its columns, and its four default permissions, under fresh ids. |
| ModuleService.CreateFeature | src/Services/ModuleService.cs:149-184 | The same code in the same module fails and adds nothing. A module id naming no module, or a feature too long for its columns, is refused by the database. Otherwise it adds the feature and one permission per type. |
| ModuleService.ApplyFeatureUpdate | src/Services/ModuleService.cs:194-204 | The name and the description each change only to a non-empty requested value, and the active flag only to a present one. Code, module, project and creation fields never change, and the update stamp is set. |
| ModuleService.UpdateFeature | src/Services/ModuleService.cs:186-209 | A missing id fails with `KeyNotFound`. An updated feature too long for its columns is refused and nothing changes. Otherwise it stores the updated feature. |
| ModuleService.FeatureUpdateFits | src/Services/ModuleService.cs:194-204 | A stored feature still fits its columns after the update iff a given non-empty name is at most 100 characters and a given non-empty description at most 500. |
| ModuleService.DeleteFeature | src/Services/ModuleService.cs:211-223 | A missing id fails with `KeyNotFound` and removes nothing. Otherwise the feature, its permissions and their grants go. |
| ModuleService.DeleteFeatureRevokes | src/Services/ModuleService.cs:219-220 | After deletion no role holds the feature's permissions, and every other grant stays. |
| ModuleService.GetFeatures | src/Services/ModuleService.cs:225-232 | Exactly the features whose module is the argument. |
| RateLimiting.ClientKey | src/Middleware/RateLimitingMiddleware.cs:31-32 | The key is the client IP, or "unknown" when there is none. |
| RateLimiting.IsSkipEndpoint | src/Middleware/RateLimitingMiddleware.cs:91-100 | The path is `/swagger` or `/health` or below either, by segment and ignoring case. |
| RateLimiting.Recent | src/Middleware/RateLimitingMiddleware.cs:81-82 | Keeps exactly the timestamps at or after the cutoff. One exactly at the cutoff stays. |
| RateLimiting.RecentSnoc | src/Middleware/RateLimitingMiddleware.cs:82 | Pruning distributes over appending a timestamp. |
| RateLimiting.RecentOfRecent | src/Middleware/RateLimitingMiddleware.cs:74-89 | Pruning at an earlier cutoff and then a later one is pruning at the later one. |
| RateLimiting.Cleaned | src/Middleware/RateLimitingMiddleware.cs:74-89 | The entry keeps exactly the recent timestamps, and it is removed once none remain. |
| RateLimiting.Admit | src/Middleware/RateLimitingMiddleware.cs:35-48 | A request is admitted iff the cleaned entry is absent or holds fewer than `maxRequests` timestamps. Only an admitted request is recorded. Afterwards an admitted key holds at most the limit, and a refused one holds at least `maxRequests`. |
| RateLimiting.Get | src/Middleware/RateLimitingMiddleware.cs:55 | `TryGetValue`: present iff the key is in the dictionary, with its list. |
| RateLimiting.Put | src/Middleware/RateLimitingMiddleware.cs:65-71 | Sets or removes one key, and every other key is unchanged. |
| RateLimiting.RateLimitingMiddleware.HasExceededRateLimit | src/Middleware/RateLimitingMiddleware.cs:53-61 | False for a key with no list; otherwise the list holds at least `maxRequests` timestamps. |
| RateLimiting.RateLimitingMiddleware.constructor | src/Middleware/RateLimitingMiddleware.cs:13-20 | Starts with no entries, and the window is the given number of minutes. |
| RateLimiting.RateLimitingMiddleware.RemoveAll | src/Middleware/RateLimitingMiddleware.cs:82 | The loop keeps exactly the recent timestamps. |
| RateLimiting.RateLimitingMiddleware.CleanupOldRequests | src/Middleware/RateLimitingMiddleware.cs:74-89 | Prunes the key's list to the window and removes the key once its list is empty. Other keys are unchanged. |
| RateLimiting.RateLimitingMiddleware.RecordRequest | src/Middleware/RateLimitingMiddleware.cs:63-72 | Appends `now` under the key, creating its list when absent. |
| RateLimiting.RateLimitingMiddleware.InvokeAsync | src/Middleware/RateLimitingMiddleware.cs:22-51 | A path under `/swagger` or `/health` passes with no cleanup and no recording. Otherwise the key is cleaned, and an over-limit request gets 429 with the JSON body and is not recorded. An admitted request appends one timestamp under its own key, and no other key changes. |
| RateLimiting.Replay | src/Middleware/RateLimitingMiddleware.cs:22-51 | Over any sequence of requests from one client, the stored list never exceeds the limit. |
| RateLimiting.ReplayLast | src/Middleware/RateLimitingMiddleware.cs:22-51 | Replaying one more request is one more `Admit`. |
| RateLimiting.AdmitKeepsRecentAdmitted | src/Middleware/RateLimitingMiddleware.cs:35-48 | If the stored list is the recent admitted requests before a request, it still is after it. |
| RateLimiting.NonDecreasingInit | src/Middleware/RateLimitingMiddleware.cs:22-51 | A prefix of a time-ordered sequence of requests is time-ordered. |
| RateLimiting.ReplayFirst | src/Middleware/RateLimitingMiddleware.cs:35-48 | After the first request the stored list is the recent admitted requests. |
| RateLimiting.ReplayStep | src/Middleware/RateLimitingMiddleware.cs:35-48 | Each later request keeps the stored list equal to the recent admitted requests. |
| RateLimiting.ReplayHoldsRecentAdmitted | src/Middleware/RateLimitingMiddleware.cs:22-51 | For time-ordered requests, the stored list is always exactly the admitted requests within the window. |
| RateLimiting.NeverMoreThanLimitInWindow | src/Middleware/RateLimitingMiddleware.cs:13-48 | No window ending at the latest request holds more admitted requests than the limit. A limit below 1 still admits one request per window. |
| Authentication.BearerPrincipal | src/Middleware/AuthenticationMiddleware.cs:44-50 | The principal is authenticated and carries exactly one `NameIdentifier` claim, for the user id. |
| Authentication.IsPublicEndpoint | src/Middleware/AuthenticationMiddleware.cs:62-73 | The path is `/swagger`, `/api/auth/login`, `/api/auth/register` or `/api/auth/refresh-token`, or below one of them, by segment and ignoring case. |
| Authentication.SegmentIgnoresCase | src/Middleware/AuthenticationMiddleware.cs:73 | Segment matching does not depend on letter case. |
| Authentication.PublicIgnoresCase | src/Middleware/AuthenticationMiddleware.cs:62-73 | Whether a path is public does not depend on letter case. |
| Authentication.SegmentBelow | src/Middleware/AuthenticationMiddleware.cs:73 | A path below a matching path matches too. |
| Authentication.PublicBelowPublic | src/Middleware/AuthenticationMiddleware.cs:62-73 | Every path below a public path is public. |
| Authentication.PublicAccountRoutes | src/Middleware/AuthenticationMiddleware.cs:64-72 | Login, register and refresh-token, as the controller spells them, are public. |
| Authentication.ApartFromSegment | src/Middleware/AuthenticationMiddleware.cs:73 | A path that differs from a segment within the segment's length does not start with it. |
| Authentication.ChangePasswordIsProtected | src/Middleware/AuthenticationMiddleware.cs:62-73 | Changing the password is not a public path. |
| Authentication.RevokingIsProtected | src/Middleware/AuthenticationMiddleware.cs:62-73 | Revoking one token or all tokens is not a public path. |
| Authentication.LookalikeIsNotPublic | src/Middleware/AuthenticationMiddleware.cs:62-73 | A path that only begins with the letters of a public path, such as `/api/auth/loginx`, is not public. |
| Authentication.ExtractTokenFromHeader | src/Middleware/AuthenticationMiddleware.cs:75-88 | A token is returned iff the header is present and starts with "Bearer " in any letter case. The token is trimmed and shorter than the rest of the header. A missing, empty or other header gives none. |
| Authentication.ExtractReadsBearerHeader | src/Middleware/AuthenticationMiddleware.cs:82-84 | Reading back a header built from any casing of "Bearer ", white space and a trimmed token gives that token. |
| Authentication.SignedInUser | src/Middleware/AuthenticationMiddleware.cs:17-59 | A user is signed in iff the path is not public, the request is not authenticated, and the token is present, non-empty, valid and names a user. That user is the one signed in. |
| Authentication.HttpContext.constructor | src/Middleware/AuthenticationMiddleware.cs:17 | The request's path, header and principal. |
| Authentication.InvokeAsync | src/Middleware/AuthenticationMiddleware.cs:17-60 | `context.User` becomes the bearer principal exactly when a user is signed in. Otherwise it is untouched, including on public paths and for authenticated requests. |
| ErrorHandling.StatusCode | src/Middleware/ErrorHandlingMiddleware.cs:32-39 | 404, 401, 409 and 400 for the four named classes, and 500 iff the exception is of no named class. |
| ErrorHandling.GetErrorMessage | src/Middleware/ErrorHandlingMiddleware.cs:87-97 | One fixed, non-empty summary per class. |
| ErrorHandling.SummaryFollowsStatus | src/Middleware/ErrorHandlingMiddleware.cs:87-97 | Two exceptions get the same summary iff they get the same status code. |
| ErrorHandling.GetUserFriendlyMessage | src/Middleware/ErrorHandlingMiddleware.cs:99-110 | The exception's message is passed through unchanged for a missing resource, a refused operation and a bad argument. |
| ErrorHandling.NothingInternalLeaks | src/Middleware/ErrorHandlingMiddleware.cs:101-109 | For a denied access or an unclassified exception, the client text does not depend on the message. |
| ErrorHandling.HandleException | src/Middleware/ErrorHandlingMiddleware.cs:69-82 | The body has `Success = false`, the class's summary, no `Data` and exactly one error string, as JSON with the class's status code. |
| ErrorHandling.Thrown | src/Middleware/ErrorHandlingMiddleware.cs:32-39 | The exception class each service failure is thrown as: the three named classes for their kinds, and an unnamed class for a refused save or query. |
| ErrorHandling.ServiceFailures | src/Middleware/ErrorHandlingMiddleware.cs:32-39 | A missing row is 404 and a refused operation 409, each with the service's message. A refused save or query is a 500 whose response does not depend on its message. |
| Validators.PasswordErrors | src/Validators/RegisterRequestValidator.cs:21-27 | No message iff the password is non-blank, at least 8 long, and has a lower-case letter, an upper-case letter, a digit and one of `@$!%*?&#`. |
| Validators.EmptyPasswordFailsEveryRule | src/Validators/RegisterRequestValidator.cs:21-27 | Every rule of the chain runs: an empty password gets all six messages. |
| Validators.NameErrors | src/Validators/CreateModuleRequestValidator.cs:10-13 | No message iff the name is non-blank and has at most 100 characters, all ASCII letters, digits, white space, `-` or `_`. |
| Validators.CodeErrors | src/Validators/CreateModuleRequestValidator.cs:18-21 | No message iff the code has 1 to 50 characters, all upper-case ASCII letters, digits or `_`. |
| Validators.PhoneErrors | src/Validators/RegisterRequestValidator.cs:35-37 | A missing or empty number passes. Any other number passes iff every character is a digit, white space, `-`, `+`, `(` or `)`. |
| Validators.UsernameErrors | src/Validators/RegisterRequestValidator.cs:10-14 | No message iff the username has 3 to 100 characters, all ASCII letters, digits or `_`. |
| Validators.EmailErrors | src/Validators/RegisterRequestValidator.cs:16-19 | No message iff the email is non-blank, is an email address, and has at most 255 characters. |
| Validators.RegisterErrors | src/Validators/RegisterRequestValidator.cs:10-40 | No message iff the username, email, password and phone rules hold, and the first name, last name and project id each have at most 100 characters. |
| Validators.LoginErrors | src/Validators/LoginRequestValidator.cs:10-17 | No message iff the identifier and password are non-blank and the project id has at most 100 characters. No length or complexity rule applies to the password. |
| Validators.RegisteredCanSubmitLogin | src/Validators/LoginRequestValidator.cs:10-17 | Whoever could register can submit a login with the same username, password and project. |
| Validators.ChangePasswordErrors | src/Validators/ChangePasswordRequestValidator.cs:10-22 | No message iff the current password is non-blank, the new one meets the password rules, and the two differ. |
| Validators.NewPasswordMeetsRegistrationRules | src/Validators/ChangePasswordRequestValidator.cs:13-19 | An accepted new password passes the registration password rules. |
| Validators.CreateModuleErrors | src/Validators/CreateModuleRequestValidator.cs:10-27 | No message iff the name and code rules hold, the description has at most 500 characters, `Order >= 0`, and the project id has at most 100 characters. |
| Validators.CreateFeatureErrors | src/Validators/CreateFeatureRequestValidator.cs:10-27 | No message iff the name and code rules hold, the description has at most 500 characters, the module id is not the empty Guid, and the project id has at most 100 characters. |
| Validators.CreateRoleErrors | src/Validators/CreateRoleRequestValidator.cs:10-22 | No message iff the name rule holds, the description has at most 500 characters, `Priority >= 0`, and the project id has at most 100 characters. |
| Validators.NameUpdateErrors | src/Validators/UpdateModuleRequestValidator.cs:10-13 | The length and charset rules apply only to a non-empty name. |
| Validators.UpdateModuleErrors | src/Validators/UpdateModuleRequestValidator.cs:10-19 | No message iff the name update is accepted, the description has at most 500 characters, and any given order is at least 0. |
| Validators.EmptyUpdatesAreValid | src/Validators/UpdateModuleRequestValidator.cs:10-19 | An update of a module or a role with every field absent passes every rule. |
| Validators.UpdateRoleErrors | src/Validators/UpdateRoleRequestValidator.cs:10-19 | No message iff the name update is accepted, the description has at most 500 characters, and any given priority is at least 0. |
| Validators.UpdateUserErrors | src/Validators/UpdateUserRequestValidator.cs:11-25 | No message iff the first and last names have at most 100 characters, the phone rule holds, the avatar has at most 500 characters, and any given status is 1, 2 or 3. |
| Validators.ToUpdateUserRequest | src/DTOs/UserDTOs.cs:17-24 | Model binding keeps every field of the body, and the status number as it is, named by `UserStatus` or not. |
| Validators.UndefinedStatusStored | src/Extensions/ServiceExtensions.cs:148-152 | With no validator run, a body with status 9, which the validator rejects with "Invalid user status", binds, and the update stores status 9, which `UserStatus` does not name. |
| Validators.BindUpdateUser | src/Validators/UpdateUserRequestValidator.cs:11-25 | The corrected binding, with the validator run first: a body is refused exactly when it has errors, with those errors. An accepted body binds as `ToUpdateUserRequest` does, and updating a user whose status is named keeps a named status. |

## Left out

- Controllers, startup, dependency injection, request logging and every `ILogger` call. These are HTTP plumbing and I/O. The response bodies the middlewares write are modelled as values.
- AutoMapper projections and response building: `GetRoleByIdAsync`, `GetRolesAsync`, `GetUserByIdAsync`, `GetUserByEmailAsync` and `GetModuleByIdAsync`, and the user embedded in `LoginResponse`, which the model gives as the user id. They only read and reshape rows.
- The `Session` table and its unique token index. No service writes it.
- BCrypt and the JWT library are foreign code. A hash is an ideal salted value that verifies exactly its own password, and token validation enters as parameters.
- `Models.Verify`: checking a password against the empty default hash is modelled as a failed check. The BCrypt library may throw on that hash instead, and the login would then end without a `LoginFailed` entry.
- Models.Verify: BCrypt reads only the first 72 bytes of a password in UTF-8. Two passwords that share those bytes verify against each other's hash, but the model's hash verifies only its own password.
- Column widths are counted in characters. SQL Server counts UTF-16 code units, so a string with characters outside the Basic Multilingual Plane may be refused where the model stores it.
- AuthService.Rotate: the 500-character width of `ReplacedByToken` is not checked. The generated values are 88-character Base64 strings, and the model's generator promises only that each value is new.
- FluentValidation's `EmailAddress()` rule enters as the parameter `isEmailAddress`.
- Regular expressions and `char.IsWhiteSpace` are read over ASCII. Unicode digits and white space, and `$` matching before a trailing newline, are not modelled.
- `StringComparison.OrdinalIgnoreCase` folds ASCII letters only.
- Database collation: SQL Server's default comparison of names, emails and codes ignores case and trailing spaces. The model compares strings exactly, in the uniqueness checks and in the unique indexes alike.
- AuthService.FindUser: the login lookup compares the identifier with emails and usernames exactly. Under the database collation another casing of either, or trailing spaces, would also find the user.
- UserService.MatchesSearch: the search compares ordinally and is case-sensitive. The database's `LIKE` under its collation ignores case.
- UserService.Selection: the project filter and the search are exact, as `MatchesSearch` and the project comparison are. The database selects more rows where only letter case or trailing spaces differ.
- UserService.UsernameLe: usernames are ordered ordinally by character code. The database orders them by its collation, which ignores case and orders letters by the language's rules.
- UserService.ByUsername: the order is `UsernameLe`, not the collation's, so the page of users may differ from the database's page.
- AuditService.Matches: the entity-type and project filters compare exactly. The database ignores case there.
- ModuleService.GetModules: the project filter compares exactly. The database ignores case there.
- Unique indexes over a nullable `ProjectId` are filtered to rows that have a project. Rows without one are not constrained.
- The order the database returns rows in: table enumeration, and ties in `OrderBy`. The queries take the table as a sequence, and sorting fixes one order among equal keys.
- The schema is read from the entity model: the migrations that `Database.Migrate()` applies are taken to create its indexes and foreign keys, with the conventional delete actions. The audit entry's foreign key to its user has no delete action.
- The audit foreign key is checked where the services touch it: when an entry is saved and when a user is deleted. It is not part of `Valid()`, so the model does not rule out a stored log that already names a missing user.
- The validators are registered (src/Extensions/ServiceExtensions.cs:148-152) but never run: no automatic validation is switched on, and no controller asks for an `IValidator`. The services therefore take any request, and the model's services do too. The validators are modelled as the messages they would report.
- Queries.PageRefusal: when both the offset and the fetch are out of range, the message is the `FETCH` one. Which check SQL Server reports first is not modelled.
- The controllers of `GetUsersAsync` and `GetAuditLogsAsync` catch every exception and answer 400 with its message. The model ends at the service's failure.
- Audit entry ids, and free-text details as exact strings beyond what the services build.
- Concurrency: the rate limiter's `ConcurrentDictionary`, and races between concurrent requests. Every operation is sequential.
- Integers are unbounded. 32-bit overflow of `(PageNumber - 1) * PageSize`, of `Order` and of `Priority` is not modelled, nor is `DateTime` range.
- The claim value of the bearer principal is the user id itself, not its string form.
- An exception of a class derived from one of the four named classes is classified by that class. Exception classes are modelled by kind only.
- Several `DateTime.UtcNow` reads in one operation are collapsed into one `now`.
- `JwtSettings` lifetimes are not read by the services, which hard-code 7 days and 60 minutes. So are the model's constants.

## Findings

| source | as written | input that shows it | evidently intended | confidence | as-written member | corrected member |
|---|---|---|---|---|---|---|
| src/Services/UserService.cs:30-40 | `CreateUserAsync` never hashes `request.Password`, so the new user's `PasswordHash` stays empty | any `CreateUserRequest` with a password, followed by a login with that password | the stored hash verifies the request's password, as `RegisterAsync` does at src/Services/AuthService.cs:113 | not executed | UserService.CreatedUserCannotSignIn | UserService.CreateUserHashed |
| src/Services/UserService.cs:113-124 | `DeleteUserAsync` removes the user, then logs `UserDeleted` with `UserId` set to that user; the foreign key of src/Models/AuditLog.cs:37-38 has no delete action | any stored user: with an audit entry naming it the delete is refused, and without one the `UserDeleted` entry is refused | the user is deleted, its earlier entries keep their history, and the deletion is logged | not executed | UserService.DeleteUser | UserService.DeleteUserDetaching |
| src/Extensions/ServiceExtensions.cs:148-152 | the validators are registered but nothing runs them, so `PUT /api/users/{id}` with `"status": 9` stores status 9 | an `UpdateUserRequest` body with status 9 | the validator rejects the body with "Invalid user status" before the service runs | not executed | Validators.UndefinedStatusStored | Validators.BindUpdateUser |
