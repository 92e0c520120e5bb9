/** The refresh-token table (RefreshTokenRepository.java): rows keyed by the
    token string, saved and deleted in place, and the bulk deleteExpired
    sweep. */
module TokenRepository {
  import opened Outcomes
  import opened RefreshTokens

  type Ledger = map<string, RefreshToken>

  /** The primary key is the token string, so each key holds the row with
      that token and there is at most one row per token. */
  ghost predicate KeyedByToken(rows: Ledger)
  {
    forall k :: k in rows ==> rows[k].token == k
  }

  /** The table after DELETE ... WHERE rt.expiresAt < CURRENT_TIMESTAMP. */
  function Swept(rows: Ledger, now: int): Ledger
  {
    map k | k in rows && !IsExpired(rows[k], now) :: rows[k]
  }

  /** The sweep removes a row exactly when it is strictly past its expiry. */
  lemma SweptRemovesExactlyExpired(rows: Ledger, now: int)
    ensures forall k :: k in rows ==> (k !in Swept(rows, now) <==> rows[k].expiresAt < now)
  {
  }

  /** Rows with expiresAt >= now, the boundary included, survive unchanged;
      nothing is added. */
  lemma SweptKeepsLive(rows: Ledger, now: int)
    ensures Swept(rows, now).Keys <= rows.Keys
    ensures forall k :: k in Swept(rows, now) ==> Swept(rows, now)[k] == rows[k]
    ensures forall k :: k in rows && rows[k].expiresAt >= now ==> k in Swept(rows, now)
  {
  }

  /** Sweeping twice at the same instant is sweeping once. */
  lemma SweptIdempotent(rows: Ledger, now: int)
    ensures Swept(Swept(rows, now), now) == Swept(rows, now)
  {
  }

  /** The sweep keeps the table keyed by token. */
  lemma SweptKeyedByToken(rows: Ledger, now: int)
    requires KeyedByToken(rows)
    ensures KeyedByToken(Swept(rows, now))
  {
  }

  class RefreshTokenRepository {
    var rows: Ledger

    ghost predicate Valid()
      reads this
    {
      KeyedByToken(rows)
    }

    constructor ()
      ensures Valid() && rows == map[]
    {
      rows := map[];
    }

    /** findById(token). */
    function FindById(token: string): (r: Option<RefreshToken>)
      reads this
      requires Valid()
      ensures r.Some? <==> token in rows
      ensures r.Some? ==> r.value == rows[token] && r.value.token == token
    {
      if token in rows then Some(rows[token]) else None
    }

    /** save(t): insert, or overwrite the row with the same token. */
    method Save(t: RefreshToken)
      requires Valid()
      modifies this
      ensures Valid()
      ensures rows == old(rows)[t.token := t]
    {
      rows := rows[t.token := t];
    }

    /** delete(t) and deleteById(token): remove the row with that key; a
        missing key leaves the table as it was. */
    method DeleteById(token: string)
      requires Valid()
      modifies this
      ensures Valid()
      ensures rows == old(rows) - {token}
    {
      rows := rows - {token};
    }

    /** deleteExpired(): the bulk sweep at clock reading `now`. */
    method DeleteExpired(now: int)
      requires Valid()
      modifies this
      ensures Valid()
      ensures rows == Swept(old(rows), now)
    {
      SweptKeyedByToken(rows, now);
      rows := Swept(rows, now);
    }
  }
}
