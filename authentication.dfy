/** The bearer-token middleware. On a path that is not public, and for a
    request not yet authenticated, it reads the `Authorization` header, and
    when the token in it validates and names a user, it replaces the request's
    principal by one carrying that user id. It never refuses a request: every
    path leads on to the next handler. Token validation belongs to the token
    service, whose implementation is not part of this model; it enters as the
    two functions `validate` and `userIdOf`. */
module Authentication {
  import opened Wrappers
  import opened Models
  import opened Text

  const BearerPrefix := "Bearer "

  /** `ClaimTypes.NameIdentifier`. */
  const NameIdentifier := "http://schemas.xmlsoap.org/ws/2005/05/identity/claims/nameidentifier"

  /** A claim; the value of a name-identifier claim is the text of a user id,
      kept here as the id itself. */
  datatype Claim = Claim(claimType: string, userId: Guid)

  datatype Identity = Identity(authenticationType: Option<string>, claims: seq<Claim>)

  /** `context.User`; its primary identity, if any. */
  datatype Principal = Principal(identity: Option<Identity>)

  /** `context.User?.Identity?.IsAuthenticated == true`: an identity with an
      authentication type. */
  predicate IsAuthenticated(p: Principal) {
    p.identity.Some? && !IsNullOrEmpty(p.identity.value.authenticationType)
  }

  /** The principal the middleware builds for a user id. */
  function BearerPrincipal(userId: Guid): (p: Principal)
    ensures IsAuthenticated(p)
    ensures p.identity.value.claims == [Claim(NameIdentifier, userId)]
  {
    Principal(Some(Identity(Some("Bearer"), [Claim(NameIdentifier, userId)])))
  }

  // ---- Paths ----

  /** The sign-in, registration, token refresh and API description paths need
      no token. */
  predicate IsPublicEndpoint(path: string) {
    StartsWithSegments(path, "/swagger")
    || StartsWithSegments(path, "/api/auth/login")
    || StartsWithSegments(path, "/api/auth/register")
    || StartsWithSegments(path, "/api/auth/refresh-token")
  }

  lemma SegmentIgnoresCase(a: string, b: string, segment: string)
    requires EqualsIgnoreCase(a, b)
    ensures StartsWithSegments(a, segment) <==> StartsWithSegments(b, segment)
  {
    if |segment| <= |a| {
      assert forall i :: 0 <= i < |segment| ==> a[..|segment|][i] == a[i] && b[..|segment|][i] == b[i];
      if |segment| < |a| {
        var k := |segment|;
        assert ToUpper(a[k]) == ToUpper(b[k]);
        assert a[k] == '/' <==> b[k] == '/';
      }
    }
  }

  /** Whether a path is public does not depend on letter case. */
  lemma PublicIgnoresCase(a: string, b: string)
    requires EqualsIgnoreCase(a, b)
    ensures IsPublicEndpoint(a) <==> IsPublicEndpoint(b)
  {
    SegmentIgnoresCase(a, b, "/swagger");
    SegmentIgnoresCase(a, b, "/api/auth/login");
    SegmentIgnoresCase(a, b, "/api/auth/register");
    SegmentIgnoresCase(a, b, "/api/auth/refresh-token");
  }

  lemma SegmentBelow(path: string, segment: string, rest: string)
    requires StartsWithSegments(path, segment)
    ensures StartsWithSegments(path + "/" + rest, segment)
  {
    var longer := path + "/" + rest;
    assert longer[..|segment|] == path[..|segment|];
    assert longer[|segment|] == '/' by {
      if |path| == |segment| {
        assert longer[|path|] == '/';
      } else {
        assert longer[|segment|] == path[|segment|];
      }
    }
  }

  /** Every path below a public path is public. */
  lemma PublicBelowPublic(path: string, rest: string)
    requires IsPublicEndpoint(path)
    ensures IsPublicEndpoint(path + "/" + rest)
  {
    if StartsWithSegments(path, "/swagger") {
      SegmentBelow(path, "/swagger", rest);
    } else if StartsWithSegments(path, "/api/auth/login") {
      SegmentBelow(path, "/api/auth/login", rest);
    } else if StartsWithSegments(path, "/api/auth/register") {
      SegmentBelow(path, "/api/auth/register", rest);
    } else {
      SegmentBelow(path, "/api/auth/refresh-token", rest);
    }
  }

  /** Sign-in, registration and token refresh need no token, in the letter
      case the account controller's routes are written in. */
  lemma PublicAccountRoutes()
    ensures IsPublicEndpoint("/api/Auth/login") && IsPublicEndpoint("/api/Auth/register")
    ensures IsPublicEndpoint("/api/Auth/refresh-token")
  {
    assert StartsWithSegments("/api/Auth/login", "/api/auth/login");
    assert StartsWithSegments("/api/Auth/register", "/api/auth/register");
    assert StartsWithSegments("/api/Auth/refresh-token", "/api/auth/refresh-token");
  }

  /** A path does not start with a segment it differs from within the
      segment's length. */
  lemma ApartFromSegment(path: string, segment: string, i: nat)
    requires i < |segment| && i < |path| && ToUpper(path[i]) != ToUpper(segment[i])
    ensures !StartsWithSegments(path, segment)
  {
    if |segment| <= |path| {
      assert path[..|segment|][i] == path[i];
    }
  }

  /** Changing the password needs a token. */
  lemma ChangePasswordIsProtected()
    ensures !IsPublicEndpoint("/api/Auth/change-password")
  {
    var path := "/api/Auth/change-password";
    ApartFromSegment(path, "/swagger", 1);
    ApartFromSegment(path, "/api/auth/login", 10);
    ApartFromSegment(path, "/api/auth/register", 10);
    ApartFromSegment(path, "/api/auth/refresh-token", 10);
  }

  /** Revoking one token or all of them needs a token. */
  lemma RevokingIsProtected(path: string)
    requires path == "/api/Auth/revoke-token" || path == "/api/Auth/revoke-all-tokens"
    ensures !IsPublicEndpoint(path)
  {
    ApartFromSegment(path, "/swagger", 1);
    ApartFromSegment(path, "/api/auth/login", 10);
    ApartFromSegment(path, "/api/auth/register", 12);
    ApartFromSegment(path, "/api/auth/refresh-token", 12);
  }

  /** A path that merely begins with the letters of a public path is not public. */
  lemma LookalikeIsNotPublic()
    ensures !IsPublicEndpoint("/api/auth/loginx")
  {
    var path := "/api/auth/loginx";
    assert path[15] != '/';
    ApartFromSegment(path, "/swagger", 1);
    ApartFromSegment(path, "/api/auth/register", 10);
    ApartFromSegment(path, "/api/auth/refresh-token", 10);
  }

  // ---- The header ----

  /** `ExtractTokenFromHeader`: the text after a case-insensitive "Bearer ",
      trimmed; nothing for a missing, empty or other header. */
  function ExtractTokenFromHeader(header: Option<string>): (token: Option<string>)
    ensures token.Some? <==> header.Some? && StartsWithIgnoreCase(header.value, BearerPrefix)
    ensures token.Some? ==> IsTrimmed(token.value) && |token.value| <= |header.value| - |BearerPrefix|
  {
    if IsNullOrEmpty(header) then None
    else if StartsWithIgnoreCase(header.value, BearerPrefix) then
      var t := Trim(header.value[|BearerPrefix|..]);
      Some(t)
    else None
  }

  /** Building a header from a token and reading it back gives the token,
      whatever the case of the scheme and the white space around the token. */
  lemma ExtractReadsBearerHeader(scheme: string, pre: string, token: string, post: string)
    requires EqualsIgnoreCase(scheme, BearerPrefix)
    requires AllWhiteSpace(pre) && AllWhiteSpace(post) && IsTrimmed(token)
    ensures ExtractTokenFromHeader(Some(scheme + pre + token + post)) == Some(token)
  {
    var header := scheme + pre + token + post;
    assert header[..|BearerPrefix|] == scheme;
    assert header[|BearerPrefix|..] == pre + token + post;
    TrimPadded(pre, token, post);
  }

  // ---- The request ----

  /** The user the middleware signs in for a request, if any. */
  function SignedInUser(path: string, user: Principal, header: Option<string>,
                        validate: string -> bool, userIdOf: string -> Option<Guid>): (r: Option<Guid>)
    ensures r.Some? <==>
      !IsPublicEndpoint(path) && !IsAuthenticated(user)
      && ExtractTokenFromHeader(header).Some? && ExtractTokenFromHeader(header).value != ""
      && validate(ExtractTokenFromHeader(header).value)
      && userIdOf(ExtractTokenFromHeader(header).value).Some?
    ensures r.Some? ==> r == userIdOf(ExtractTokenFromHeader(header).value)
  {
    if IsPublicEndpoint(path) || IsAuthenticated(user) then None
    else
      var token := ExtractTokenFromHeader(header);
      if IsNullOrEmpty(token) then None
      else if validate(token.value) then userIdOf(token.value)
      else None
  }

  /** The parts of `HttpContext` the middleware reads and writes. */
  class HttpContext {
    const path: string
    const authorization: Option<string>
    var user: Principal

    constructor (path: string, authorization: Option<string>, user: Principal)
      ensures this.path == path && this.authorization == authorization && this.user == user
    {
      this.path := path;
      this.authorization := authorization;
      this.user := user;
    }
  }

  /** `InvokeAsync`: the principal is replaced exactly when a user is signed
      in, and the request always continues. */
  method InvokeAsync(context: HttpContext, validate: string -> bool, userIdOf: string -> Option<Guid>)
    modifies context
    ensures var signedIn := SignedInUser(context.path, old(context.user), context.authorization, validate, userIdOf);
            context.user == if signedIn.Some? then BearerPrincipal(signedIn.value) else old(context.user)
  {
    if IsPublicEndpoint(context.path) {
      return;
    }
    if IsAuthenticated(context.user) {
      return;
    }
    var token := ExtractTokenFromHeader(context.authorization);
    if !IsNullOrEmpty(token) {
      if validate(token.value) {
        var userId := userIdOf(token.value);
        if userId.Some? {
          context.user := BearerPrincipal(userId.value);
        }
      }
    }
  }
}
