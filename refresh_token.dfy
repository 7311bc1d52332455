/** A refresh-token row and its two computed properties. The clock read by
    `IsActive` and `IsExpired` is the parameter `now`. */
module Tokens {
  import opened Wrappers
  import opened Models

  datatype RefreshToken = RefreshToken(
    userId: Guid,
    token: string,
    expiresAt: Time,
    revokedAt: Option<Time>,
    replacedByToken: Option<string>,
    ipAddress: Option<string>,
    createdAt: Time)

  /** The width RefreshToken.cs gives the client address column. (The
      `ReplacedByToken` column holds the generator's values; see
      `Jwt.JwtService.GenerateRefreshToken`.) */
  predicate TokenFits(t: RefreshToken) {
    AtMost(t.ipAddress, 45)
  }

  /** `IsExpired => DateTime.UtcNow >= ExpiresAt`. */
  predicate IsExpired(t: RefreshToken, now: Time) {
    now >= t.expiresAt
  }

  /** `IsActive => RevokedAt == null && !IsExpired`. */
  predicate IsActive(t: RefreshToken, now: Time) {
    t.revokedAt.None? && !IsExpired(t, now)
  }

  /** A token is active exactly while it is unrevoked and strictly before its expiry. */
  lemma ActiveIff(t: RefreshToken, now: Time)
    ensures IsActive(t, now) <==> t.revokedAt.None? && now < t.expiresAt
  {
  }

  /** The expiry instant itself already counts as expired. */
  lemma ExpiredAtExpiry(t: RefreshToken)
    ensures IsExpired(t, t.expiresAt) && !IsActive(t, t.expiresAt)
  {
  }

  /** A revoked token is never active again, whatever the time. */
  lemma RevokedNeverActive(t: RefreshToken, now: Time)
    requires t.revokedAt.Some?
    ensures !IsActive(t, now)
  {
  }

  /** Expiry is permanent: once expired, expired at every later instant. */
  lemma ExpiryIsPermanent(t: RefreshToken, now: Time, later: Time)
    requires IsExpired(t, now) && now <= later
    ensures IsExpired(t, later) && !IsActive(t, later)
  {
  }
}
