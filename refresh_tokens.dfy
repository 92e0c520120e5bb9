/** The refresh-token record (RefreshToken.java): an opaque string bound to
    one user, valid for 24 hours from creation. */
module RefreshTokens {
  import opened Users

  /** Refresh-token lifetime in milliseconds (24 hours). */
  const LIFETIME_MS := 86_400_000

  /** One ledger row; `token` is its primary key and `user` the row it joins. */
  datatype RefreshToken = RefreshToken(token: string, user: LearnUser, expiresAt: int)

  /** new RefreshToken(user, token) at clock reading `now`. */
  function NewRefreshToken(user: LearnUser, token: string, now: int): (t: RefreshToken)
    ensures t.token == token && t.user == user
    ensures t.expiresAt == now + 86_400_000
  {
    RefreshToken(token, user, now + LIFETIME_MS)
  }

  /** expiresAt.before(now): strictly earlier than the clock reading. */
  predicate IsExpired(t: RefreshToken, now: int)
  {
    t.expiresAt < now
  }

  /** A token made at `issued` is expired at `now` exactly when more than
      24 hours have passed; in particular it is live when it is made. */
  lemma NewTokenExpiry(user: LearnUser, token: string, issued: int, now: int)
    ensures IsExpired(NewRefreshToken(user, token, issued), now) <==> now > issued + LIFETIME_MS
    ensures !IsExpired(NewRefreshToken(user, token, issued), issued)
  {
  }
}
