/** The request validators. Each validator is the list of messages its
    failing rules produce, in declaration order; FluentValidation runs every
    rule of a chain, so one field can fail several rules at once. A request is
    valid when the list is empty, and each validator's contract states that
    condition in plain terms.

    Rule components, as FluentValidation defines them:
    - `NotEmpty()` on a string: not null, not "", not only white space;
      on a Guid: not the all-zero id;
    - `MaximumLength`, `MinimumLength`, `Matches`, comparisons and `IsInEnum`
      pass a null value;
    - `When(c)` guards every rule before it in its chain.
    The regular expressions are read with ASCII character classes (`\d` is
    0-9, `\s` the ASCII white space), and `$` as the end of the text. The
    `EmailAddress()` check is the library's; it enters as `isEmailAddress`. */
module Validators {
  import opened Wrappers
  import opened Models
  import opened Text
  import AuthService
  import RoleService
  import ModuleService
  import UserService

  // ---- Rule components ----

  /** `NotEmpty()` on a string. */
  predicate NotBlank(s: Option<string>) {
    !IsNullOrWhiteSpace(s)
  }

  /** `Matches("^[class]+$")`: one or more characters, all in the class. */
  predicate MatchesAll(s: Option<string>, inClass: char -> bool) {
    s.None? || (|s.value| > 0 && forall i :: 0 <= i < |s.value| ==> inClass(s.value[i]))
  }

  /** `Matches("(?=.*[class])")`: some character in the class. */
  predicate MatchesSome(s: Option<string>, inClass: char -> bool) {
    s.None? || exists i :: 0 <= i < |s.value| && inClass(s.value[i])
  }

  /** The message of a rule, when the rule fails. */
  function Check(ok: bool, message: string): (errs: seq<string>)
    ensures errs == [] <==> ok
    ensures |errs| <= 1
  {
    if ok then [] else [message]
  }

  predicate IsUsernameChar(c: char) { IsAsciiLetter(c) || IsDigit(c) || c == '_' }

  predicate IsNameChar(c: char) { IsAsciiLetter(c) || IsDigit(c) || IsWhiteSpace(c) || c == '-' || c == '_' }

  predicate IsCodeChar(c: char) { IsAsciiUpper(c) || IsDigit(c) || c == '_' }

  predicate IsPhoneChar(c: char) {
    IsDigit(c) || IsWhiteSpace(c) || c == '-' || c == '+' || c == '(' || c == ')'
  }

  predicate IsSpecial(c: char) {
    c == '@' || c == '$' || c == '!' || c == '%' || c == '*' || c == '?' || c == '&' || c == '#'
  }

  /** A string whose characters are all outside the white-space class is not blank. */
  lemma NonWhiteIsNotBlank(s: string, inClass: char -> bool)
    requires forall c :: inClass(c) ==> !IsWhiteSpace(c)
    ensures (|s| > 0 && forall i :: 0 <= i < |s| ==> inClass(s[i])) ==> NotBlank(Some(s))
  {
    if |s| > 0 && forall i :: 0 <= i < |s| ==> inClass(s[i]) {
      assert inClass(s[0]);
    }
  }

  // ---- Shared rule chains ----

  /** A password the registration and change-password rules accept. */
  predicate IsStrongPassword(p: string) {
    |p| >= 8
    && (exists i :: 0 <= i < |p| && IsAsciiLower(p[i]))
    && (exists i :: 0 <= i < |p| && IsAsciiUpper(p[i]))
    && (exists i :: 0 <= i < |p| && IsDigit(p[i]))
    && (exists i :: 0 <= i < |p| && IsSpecial(p[i]))
  }

  lemma StrongIsNotBlank(p: string)
    ensures IsStrongPassword(p) ==> NotBlank(Some(p))
  {
    if IsStrongPassword(p) {
      var k :| 0 <= k < |p| && IsAsciiLower(p[k]);
      assert !IsWhiteSpace(p[k]);
    }
  }

  /** The password chain; `field` is "Password" or "New password". */
  function PasswordErrors(field: string, p: string): (errs: seq<string>)
    ensures errs == [] <==> IsStrongPassword(p)
    ensures |errs| <= 6
  {
    StrongIsNotBlank(p);
    Check(NotBlank(Some(p)), field + " is required")
    + Check(|p| >= 8, field + " must be at least 8 characters")
    + Check(MatchesSome(Some(p), IsAsciiLower), field + " must contain at least one lowercase letter")
    + Check(MatchesSome(Some(p), IsAsciiUpper), field + " must contain at least one uppercase letter")
    + Check(MatchesSome(Some(p), IsDigit), field + " must contain at least one number")
    + Check(MatchesSome(Some(p), IsSpecial), field + " must contain at least one special character")
  }

  /** Every rule of the chain runs: an empty password fails all six. */
  lemma EmptyPasswordFailsEveryRule(field: string)
    ensures |PasswordErrors(field, "")| == 6
  {
  }

  /** A name: non-blank, at most 100 characters of letters, digits, white
      space, hyphens and underscores. */
  predicate IsName(n: string) {
    NotBlank(Some(n)) && |n| <= 100 && forall i :: 0 <= i < |n| ==> IsNameChar(n[i])
  }

  /** The name chain of modules, features and roles; `field` is
      "Module name", "Feature name" or "Role name". */
  function NameErrors(field: string, n: string): (errs: seq<string>)
    ensures errs == [] <==> IsName(n)
    ensures |errs| <= 3
  {
    Check(NotBlank(Some(n)), field + " is required")
    + Check(|n| <= 100, field + " cannot exceed 100 characters")
    + Check(MatchesAll(Some(n), IsNameChar), field + " can only contain letters, numbers, spaces, hyphens, and underscores")
  }

  /** A code: 1 to 50 upper-case letters, digits and underscores. */
  predicate IsCode(c: string) {
    1 <= |c| <= 50 && forall i :: 0 <= i < |c| ==> IsCodeChar(c[i])
  }

  /** The code chain of modules and features; `field` is "Module code" or
      "Feature code". */
  function CodeErrors(field: string, c: string): (errs: seq<string>)
    ensures errs == [] <==> IsCode(c)
    ensures |errs| <= 3
  {
    NonWhiteIsNotBlank(c, IsCodeChar);
    Check(NotBlank(Some(c)), field + " is required")
    + Check(|c| <= 50, field + " cannot exceed 50 characters")
    + Check(MatchesAll(Some(c), IsCodeChar), field + " can only contain uppercase letters, numbers, and underscores")
  }

  /** The phone chain, which runs only for a non-empty number. */
  predicate PhoneAccepted(phone: Option<string>) {
    IsNullOrEmpty(phone) || forall i :: 0 <= i < |phone.value| ==> IsPhoneChar(phone.value[i])
  }

  function PhoneErrors(phone: Option<string>): (errs: seq<string>)
    ensures errs == [] <==> PhoneAccepted(phone)
  {
    if IsNullOrEmpty(phone) then []
    else Check(MatchesAll(phone, IsPhoneChar), "Invalid phone number format")
  }

  // ---- RegisterRequestValidator ----

  /** A user name: 3 to 100 letters, digits and underscores. */
  predicate IsUsername(u: string) {
    3 <= |u| <= 100 && forall i :: 0 <= i < |u| ==> IsUsernameChar(u[i])
  }

  function UsernameErrors(u: string): (errs: seq<string>)
    ensures errs == [] <==> IsUsername(u)
  {
    NonWhiteIsNotBlank(u, IsUsernameChar);
    Check(NotBlank(Some(u)), "Username is required")
    + Check(|u| >= 3, "Username must be at least 3 characters")
    + Check(|u| <= 100, "Username cannot exceed 100 characters")
    + Check(MatchesAll(Some(u), IsUsernameChar), "Username can only contain letters, numbers, and underscores")
  }

  predicate EmailAccepted(email: string, isEmailAddress: string -> bool) {
    NotBlank(Some(email)) && isEmailAddress(email) && |email| <= 255
  }

  function EmailErrors(email: string, isEmailAddress: string -> bool): (errs: seq<string>)
    ensures errs == [] <==> EmailAccepted(email, isEmailAddress)
  {
    Check(NotBlank(Some(email)), "Email is required")
    + Check(isEmailAddress(email), "Invalid email format")
    + Check(|email| <= 255, "Email cannot exceed 255 characters")
  }

  /** What the registration validator accepts. */
  predicate RegisterAccepted(r: AuthService.RegisterRequest, isEmailAddress: string -> bool) {
    IsUsername(r.username)
    && EmailAccepted(r.email, isEmailAddress)
    && IsStrongPassword(r.password)
    && AtMost(r.firstName, 100) && AtMost(r.lastName, 100)
    && PhoneAccepted(r.phoneNumber)
    && AtMost(r.projectId, 100)
  }

  function RegisterErrors(r: AuthService.RegisterRequest, isEmailAddress: string -> bool): (errs: seq<string>)
    ensures errs == [] <==> RegisterAccepted(r, isEmailAddress)
  {
    UsernameErrors(r.username)
    + EmailErrors(r.email, isEmailAddress)
    + PasswordErrors("Password", r.password)
    + Check(AtMost(r.firstName, 100), "First name cannot exceed 100 characters")
    + Check(AtMost(r.lastName, 100), "Last name cannot exceed 100 characters")
    + PhoneErrors(r.phoneNumber)
    + Check(AtMost(r.projectId, 100), "Project ID cannot exceed 100 characters")
  }

  // ---- LoginRequestValidator ----

  function LoginErrors(r: AuthService.LoginRequest): (errs: seq<string>)
    ensures errs == [] <==> NotBlank(Some(r.emailOrUsername)) && NotBlank(Some(r.password)) && AtMost(r.projectId, 100)
    ensures |errs| <= 3
  {
    Check(NotBlank(Some(r.emailOrUsername)), "Email or username is required")
    + Check(NotBlank(Some(r.password)), "Password is required")
    + Check(AtMost(r.projectId, 100), "Project ID cannot exceed 100 characters")
  }

  /** Signing in asks less than registering: whoever could register can
      submit the sign-in form with the same user name and password. */
  lemma RegisteredCanSubmitLogin(r: AuthService.RegisterRequest, isEmailAddress: string -> bool)
    requires RegisterAccepted(r, isEmailAddress)
    ensures LoginErrors(AuthService.LoginRequest(r.username, r.password, r.projectId)) == []
  {
    NonWhiteIsNotBlank(r.username, IsUsernameChar);
    StrongIsNotBlank(r.password);
  }

  // ---- ChangePasswordRequestValidator ----

  function ChangePasswordErrors(r: AuthService.ChangePasswordRequest): (errs: seq<string>)
    ensures errs == [] <==>
      NotBlank(Some(r.currentPassword)) && IsStrongPassword(r.newPassword) && r.currentPassword != r.newPassword
  {
    Check(NotBlank(Some(r.currentPassword)), "Current password is required")
    + PasswordErrors("New password", r.newPassword)
    + Check(r.currentPassword != r.newPassword, "New password must be different from current password")
  }

  /** The new password is held to the registration rules. */
  lemma NewPasswordMeetsRegistrationRules(r: AuthService.ChangePasswordRequest)
    requires ChangePasswordErrors(r) == []
    ensures PasswordErrors("Password", r.newPassword) == []
  {
  }

  // ---- CreateModuleRequestValidator ----

  function CreateModuleErrors(r: ModuleService.CreateModuleRequest): (errs: seq<string>)
    ensures errs == [] <==>
      IsName(r.name) && AtMost(r.description, 500) && IsCode(r.code) && r.order >= 0 && AtMost(r.projectId, 100)
  {
    NameErrors("Module name", r.name)
    + Check(AtMost(r.description, 500), "Description cannot exceed 500 characters")
    + CodeErrors("Module code", r.code)
    + Check(r.order >= 0, "Order must be non-negative")
    + Check(AtMost(r.projectId, 100), "Project ID cannot exceed 100 characters")
  }

  // ---- CreateFeatureRequestValidator ----

  function CreateFeatureErrors(r: ModuleService.CreateFeatureRequest): (errs: seq<string>)
    ensures errs == [] <==>
      IsName(r.name) && AtMost(r.description, 500) && IsCode(r.code) && r.moduleId != EmptyGuid
      && AtMost(r.projectId, 100)
  {
    NameErrors("Feature name", r.name)
    + Check(AtMost(r.description, 500), "Description cannot exceed 500 characters")
    + CodeErrors("Feature code", r.code)
    + Check(r.moduleId != EmptyGuid, "Module ID is required")
    + Check(AtMost(r.projectId, 100), "Project ID cannot exceed 100 characters")
  }

  // ---- CreateRoleRequestValidator ----

  function CreateRoleErrors(r: RoleService.CreateRoleRequest): (errs: seq<string>)
    ensures errs == [] <==> IsName(r.name) && AtMost(r.description, 500) && r.priority >= 0 && AtMost(r.projectId, 100)
  {
    NameErrors("Role name", r.name)
    + Check(AtMost(r.description, 500), "Description cannot exceed 500 characters")
    + Check(r.priority >= 0, "Priority must be non-negative")
    + Check(AtMost(r.projectId, 100), "Project ID cannot exceed 100 characters")
  }

  // ---- UpdateModuleRequestValidator and UpdateRoleRequestValidator ----

  /** An update's new name: only a non-empty one is checked, for length and
      characters (a blank name of spaces passes). */
  predicate NameUpdateAccepted(n: Option<string>) {
    IsNullOrEmpty(n) || (|n.value| <= 100 && forall i :: 0 <= i < |n.value| ==> IsNameChar(n.value[i]))
  }

  function NameUpdateErrors(field: string, n: Option<string>): (errs: seq<string>)
    ensures errs == [] <==> NameUpdateAccepted(n)
  {
    if IsNullOrEmpty(n) then []
    else
      Check(|n.value| <= 100, field + " cannot exceed 100 characters")
      + Check(MatchesAll(n, IsNameChar), field + " can only contain letters, numbers, spaces, hyphens, and underscores")
  }

  function UpdateModuleErrors(r: ModuleService.UpdateModuleRequest): (errs: seq<string>)
    ensures errs == [] <==>
      NameUpdateAccepted(r.name) && AtMost(r.description, 500) && (r.order.None? || r.order.value >= 0)
  {
    NameUpdateErrors("Module name", r.name)
    + Check(AtMost(r.description, 500), "Description cannot exceed 500 characters")
    + Check(r.order.None? || r.order.value >= 0, "Order must be non-negative")
  }

  /** An update that changes nothing is valid. */
  lemma EmptyUpdatesAreValid()
    ensures UpdateModuleErrors(ModuleService.UpdateModuleRequest(None, None, None, None)) == []
    ensures UpdateRoleErrors(RoleService.UpdateRoleRequest(None, None, None)) == []
  {
  }

  function UpdateRoleErrors(r: RoleService.UpdateRoleRequest): (errs: seq<string>)
    ensures errs == [] <==>
      NameUpdateAccepted(r.name) && AtMost(r.description, 500) && (r.priority.None? || r.priority.value >= 0)
  {
    NameUpdateErrors("Role name", r.name)
    + Check(AtMost(r.description, 500), "Description cannot exceed 500 characters")
    + Check(r.priority.None? || r.priority.value >= 0, "Priority must be non-negative")
  }

  // ---- UpdateUserRequestValidator ----

  /** `UpdateUserRequest` as bound from the request body, where the status is
      the enum's number and may name no member. */
  datatype UpdateUserBody = UpdateUserBody(
    firstName: Option<string>, lastName: Option<string>, phoneNumber: Option<string>,
    avatar: Option<string>, status: Option<int>)

  /** `IsInEnum()`: the number is one `UserStatus` names. */
  predicate IsUserStatusValue(v: int) {
    IsDefinedStatus(v as UserStatus)
  }

  function UpdateUserErrors(b: UpdateUserBody): (errs: seq<string>)
    ensures errs == [] <==>
      AtMost(b.firstName, 100) && AtMost(b.lastName, 100) && PhoneAccepted(b.phoneNumber)
      && AtMost(b.avatar, 500) && (b.status.None? || b.status.value in {1, 2, 3})
  {
    var statusOk := b.status.None? || IsUserStatusValue(b.status.value);
    Check(AtMost(b.firstName, 100), "First name cannot exceed 100 characters")
    + Check(AtMost(b.lastName, 100), "Last name cannot exceed 100 characters")
    + PhoneErrors(b.phoneNumber)
    + Check(AtMost(b.avatar, 500), "Avatar URL cannot exceed 500 characters")
    + Check(statusOk, "Invalid user status")
  }

  /** Model binding of the body to the service's request. The status
      number is kept as it is: an enum variable holds any number, named by
      `UserStatus` or not. */
  function ToUpdateUserRequest(b: UpdateUserBody): (r: UserService.UpdateUserRequest)
    ensures r.firstName == b.firstName && r.lastName == b.lastName
    ensures r.phoneNumber == b.phoneNumber && r.avatar == b.avatar
    ensures r.status.Some? <==> b.status.Some?
    ensures r.status.Some? ==> r.status.value as int == b.status.value
  {
    var status := if b.status.None? then None else Some(b.status.value as UserStatus);
    UserService.UpdateUserRequest(b.firstName, b.lastName, b.phoneNumber, b.avatar, status)
  }

  /** The outcome of binding a body when its validator runs first. */
  datatype Binding<T> = Bound(request: T) | Rejected(errors: seq<string>)

  /** Nothing runs `UpdateUserRequestValidator` before the action: a status
      no `UserStatus` member has is bound, and `UpdateUserAsync` stores it. */
  lemma UndefinedStatusStored(user: User, updatedBy: Option<string>, now: Time)
    ensures var b := UpdateUserBody(None, None, None, None, Some(9));
            && UpdateUserErrors(b) == ["Invalid user status"]
            && UserService.ApplyUserUpdate(user, ToUpdateUserRequest(b), updatedBy, now).status == 9 as UserStatus
            && !IsDefinedStatus(UserService.ApplyUserUpdate(user, ToUpdateUserRequest(b), updatedBy, now).status)
  {
    var b := UpdateUserBody(None, None, None, None, Some(9));
    assert PhoneErrors(b.phoneNumber) == [];
  }

  /** Binding with the validator run first, as automatic validation does: a
      body with errors is refused with them, an accepted one binds, and the
      user it updates keeps a status `UserStatus` names. */
  function BindUpdateUser(b: UpdateUserBody): (r: Binding<UserService.UpdateUserRequest>)
    ensures r.Rejected? <==> UpdateUserErrors(b) != []
    ensures r.Rejected? ==> r.errors == UpdateUserErrors(b)
    ensures r.Bound? ==> r.request == ToUpdateUserRequest(b)
    ensures r.Bound? ==> forall user: User, updatedBy: Option<string>, now: Time ::
      IsDefinedStatus(user.status) ==>
        IsDefinedStatus(UserService.ApplyUserUpdate(user, r.request, updatedBy, now).status)
  {
    var errs := UpdateUserErrors(b);
    if errs == [] then Bound(ToUpdateUserRequest(b)) else Rejected(errs)
  }
}
