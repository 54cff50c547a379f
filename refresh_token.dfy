/** A refresh token issued to a user, and its expiry. */
module RefreshTokens {
  import opened Wrappers

  datatype RefreshToken = RefreshToken(
    id: string,
    userId: string,
    token: string,
    expiresAt: int,
    ipAddress: Option<string>,
    userAgent: Option<string>,
    createdAt: int)
  {
    /** Expired strictly after `expiresAt`. */
    predicate IsExpired(now: int) {
      now > expiresAt
    }

    predicate IsValid(now: int) {
      !IsExpired(now)
    }
  }

  /** The fields `RefreshToken.create` accepts; `None` is an absent property and `Some(None)` an explicit null. */
  datatype RefreshTokenInit = RefreshTokenInit(
    id: string,
    userId: string,
    token: string,
    expiresAt: int,
    ipAddress: Option<Option<string>>,
    userAgent: Option<Option<string>>,
    createdAt: int)

  /** `RefreshToken.create`: client address and user agent default to null. */
  function Create(data: RefreshTokenInit): RefreshToken {
    RefreshToken(data.id, data.userId, data.token, data.expiresAt,
                 data.ipAddress.GetOr(None), data.userAgent.GetOr(None), data.createdAt)
  }

  function InitOf(t: RefreshToken): RefreshTokenInit {
    RefreshTokenInit(t.id, t.userId, t.token, t.expiresAt, Some(t.ipAddress), Some(t.userAgent), t.createdAt)
  }

  lemma CreateDefaults(data: RefreshTokenInit)
    ensures var t := Create(data);
      && (data.ipAddress.None? ==> t.ipAddress.None?)
      && (data.ipAddress.Some? ==> t.ipAddress == data.ipAddress.value)
      && (data.userAgent.None? ==> t.userAgent.None?)
      && (data.userAgent.Some? ==> t.userAgent == data.userAgent.value)
      && t.id == data.id && t.userId == data.userId && t.token == data.token
      && t.expiresAt == data.expiresAt && t.createdAt == data.createdAt
  {
  }

  lemma CreateOfInitOf(t: RefreshToken)
    ensures Create(InitOf(t)) == t
  {
  }

  /** A token is valid up to and including its expiry instant, and invalid at every later one. */
  lemma ValidIffNotPastExpiry(t: RefreshToken, now: int)
    ensures t.IsValid(now) <==> now <= t.expiresAt
    ensures t.IsValid(t.expiresAt) && !t.IsValid(t.expiresAt + 1)
  {
  }

  /** Validity only ever ends: a token valid later was valid at every earlier instant. */
  lemma ValidityIsMonotone(t: RefreshToken, now: int, later: int)
    requires now <= later
    ensures t.IsValid(later) ==> t.IsValid(now)
    ensures t.IsExpired(now) ==> t.IsExpired(later)
  {
  }
}
