/** The session service (UserService.java): registration, login, refresh-token
    rotation and logout over the user table and the refresh-token table. The
    clock, the random token string and BCrypt are passed in. */
module Sessions {
  import opened Outcomes
  import opened Users
  import opened UserRepository
  import opened RefreshTokens
  import opened TokenRepository
  import JwtUtils
  import JavaLong

  /** Spring's PasswordEncoder (BCrypt here): one-way encode and a check. */
  datatype PasswordEncoder = PasswordEncoder(encode: string -> string, matches: (string, string) -> bool)

  /** What BCrypt guarantees: a password matches its own digest. */
  ghost predicate Consistent(encoder: PasswordEncoder)
  {
    forall p :: encoder.matches(p, encoder.encode(p))
  }

  /** The pair handed back by login and refresh. */
  datatype AuthorizationResponse = AuthorizationResponse(token: string, refreshToken: string)

  /** No two users share a login or an email, ignoring case. */
  ghost predicate CredentialsDistinct(users: UserTable)
  {
    forall a, b :: a in users && b in users && a != b ==>
      !EqualsIgnoreCase(users[a].login, users[b].login) && !EqualsIgnoreCase(users[a].email, users[b].email)
  }

  /** Adding a user whose login and email clash with nobody keeps the table free of clashes. */
  lemma InsertKeepsCredentialsDistinct(users: UserTable, u: LearnUser)
    requires CredentialsDistinct(users) && u.id !in users
    requires forall id :: id in users ==> !MatchesLoginOrEmail(users[id], u.login, u.email)
    ensures CredentialsDistinct(users[u.id := u])
  {
    var next := users[u.id := u];
    forall a, b | a in next && b in next && a != b
      ensures !EqualsIgnoreCase(next[a].login, next[b].login) && !EqualsIgnoreCase(next[a].email, next[b].email)
    {
      if a == u.id {
        assert !MatchesLoginOrEmail(users[b], u.login, u.email);
      } else if b == u.id {
        assert !MatchesLoginOrEmail(users[a], u.login, u.email);
      }
    }
  }

  /** A clash-free table still lets register's lookup find two rows: one
      by the login and another by the email. The lookup then fails with the
      non-unique-result fault, which register passes on as a 500 where the
      "Login or email are used" 400 was evidently meant. */
  lemma CrossClashIsAFault()
    ensures var users := map[1 := NewLearnUser(1, "alice", "a@x.com", "d1", USER),
                             2 := NewLearnUser(2, "bob", "b@x.com", "d2", USER)];
      && CredentialsDistinct(users)
      && FindByLoginOrEmail(users, "alice", "b@x.com").Err?
      && FindByLoginOrEmail(users, "alice", "b@x.com").failure.Fault?
  {
    var users := map[1 := NewLearnUser(1, "alice", "a@x.com", "d1", USER),
                     2 := NewLearnUser(2, "bob", "b@x.com", "d2", USER)];
    assert Lower("a@x.com")[0] != Lower("b@x.com")[0];
    assert MatchesLoginOrEmail(users[1], "alice", "b@x.com");
    assert MatchesLoginOrEmail(users[2], "alice", "b@x.com");
    assert SelectByLoginOrEmail(users, "alice", "b@x.com") == {1, 2};
  }

  /** getAuthorizedUser(): the principal the gate attached; with none
      attached the anonymous principal fails the cast (a 500). */
  function AuthorizedUser(principal: Option<LearnUser>): (r: Result<LearnUser>)
    ensures r.Ok? <==> principal.Some?
    ensures r.Ok? ==> r.value == principal.value
    ensures r.Err? ==> r.failure.Fault?
  {
    match principal
    case Some(u) => Ok(u)
    case None => Err(Fault("principal is not a LearnUser"))
  }

  /** doReset's expiry test and the sweep's WHERE clause draw the same line:
      a present token is refused as expired exactly when the sweep would
      remove it. */
  lemma SweepAgreesWithReset(rows: Ledger, token: string, now: int)
    requires token in rows
    ensures IsExpired(rows[token], now) <==> token !in Swept(rows, now)
  {
  }

  class UserService {
    var users: UserTable
    /** The learn_users_id_seq sequence: the id the next saved user gets. */
    var nextUserId: int
    const refreshTokens: RefreshTokenRepository
    const encoder: PasswordEncoder
    const algo: JwtUtils.Algorithm

    ghost predicate Valid()
      reads this, refreshTokens
    {
      && WellKeyed(users)
      && (forall id :: id in users ==> id < nextUserId)
      && CredentialsDistinct(users)
      && refreshTokens.Valid()
      && forall k :: k in refreshTokens.rows ==>
           var owner := refreshTokens.rows[k].user;
           owner.id in users && users[owner.id] == owner
    }

    constructor (encoder: PasswordEncoder, algo: JwtUtils.Algorithm)
      ensures Valid() && fresh(refreshTokens)
      ensures users == map[] && refreshTokens.rows == map[]
      ensures this.encoder == encoder && this.algo == algo
    {
      users := map[];
      nextUserId := 1;
      refreshTokens := new RefreshTokenRepository();
      this.encoder := encoder;
      this.algo := algo;
    }

    /** getMe(): the signed-in user, or a 500 for an anonymous caller. */
    function GetMe(principal: Option<LearnUser>): (r: Result<LearnUser>)
      ensures r.Ok? <==> principal.Some?
      ensures r.Ok? ==> r.value == principal.value
      ensures r.Err? ==> r.failure.Fault?
    {
      AuthorizedUser(principal)
    }

    /** register(request), for a request that passed bean validation. */
    method Register(login: string, email: string, password: string, passwordConfirmation: string, role: UserRole)
      returns (r: Result<LearnUser>)
      requires Valid()
      modifies this
      ensures Valid() && unchanged(refreshTokens)
      ensures password != passwordConfirmation ==> r == Err(ResponseStatus(400, "Passwords not matches"))
      ensures var found := FindByLoginOrEmail(old(users), login, email);
        password == passwordConfirmation ==>
          && (found.Err? ==> r == Err(found.failure))
          && (found.Ok? && found.value.Some? ==> r == Err(ResponseStatus(400, "Login or email are used")))
      ensures r.Ok? <==> password == passwordConfirmation
                         && forall id :: id in old(users) ==> !MatchesLoginOrEmail(old(users)[id], login, email)
      ensures r.Err? ==> users == old(users) && nextUserId == old(nextUserId)
      ensures r.Ok? ==>
        && r.value == NewLearnUser(old(nextUserId), login, email, encoder.encode(password), role)
        && r.value.id !in old(users)
        && users == old(users)[r.value.id := r.value]
    {
      if password != passwordConfirmation {
        return Err(ResponseStatus(BAD_REQUEST, "Passwords not matches"));
      }
      var found := FindByLoginOrEmail(users, login, email);
      if found.Err? {
        return Err(found.failure);
      }
      if found.value.Some? {
        return Err(ResponseStatus(BAD_REQUEST, "Login or email are used"));
      }
      var user := NewLearnUser(nextUserId, login, email, encoder.encode(password), role);
      InsertKeepsCredentialsDistinct(users, user);
      users := users[user.id := user];
      nextUserId := nextUserId + 1;
      r := Ok(user);
    }

    /** auth(request): look the user up by login or email, check the
        password, store a new refresh token and encode the user id. */
    method Auth(login: string, password: string, freshToken: string, now: int)
      returns (r: Result<AuthorizationResponse>)
      requires Valid()
      modifies refreshTokens
      ensures Valid()
      ensures var found := FindByCredentials(users, login);
        && (found.Err? ==> r == Err(found.failure))
        && (found == Ok(None) ==> r == Err(ResponseStatus(404, "User not found")))
        && (found.Ok? && found.value.Some? ==>
              var user := found.value.value;
              if !encoder.matches(password, user.passwordDigest) then
                r == Err(ResponseStatus(401, "Password is invalid"))
              else
                && r == Ok(AuthorizationResponse(JwtUtils.Encode(algo, user.id, now), freshToken))
                && refreshTokens.rows == old(refreshTokens.rows)[freshToken := NewRefreshToken(user, freshToken, now)])
      ensures r.Err? ==> refreshTokens.rows == old(refreshTokens.rows)
    {
      var found := FindByCredentials(users, login);
      if found.Err? {
        return Err(found.failure);
      }
      if found.value.None? {
        return Err(ResponseStatus(NOT_FOUND, "User not found"));
      }
      var user := found.value.value;
      if !encoder.matches(password, user.passwordDigest) {
        return Err(ResponseStatus(UNAUTHORIZED, "Password is invalid"));
      }
      refreshTokens.Save(NewRefreshToken(user, freshToken, now));
      r := Ok(AuthorizationResponse(JwtUtils.Encode(algo, user.id, now), freshToken));
    }

    /** doReset(refreshToken): consume the token and mint a new pair for its
        user. The method is transactional, so a refusal undoes the delete. */
    method DoReset(refreshToken: string, freshToken: string, now: int)
      returns (r: Result<AuthorizationResponse>)
      requires Valid()
      modifies refreshTokens
      ensures Valid()
      ensures refreshToken !in old(refreshTokens.rows) ==> r == Err(ResponseStatus(401, "Bad refresh token"))
      ensures refreshToken in old(refreshTokens.rows) && IsExpired(old(refreshTokens.rows)[refreshToken], now) ==>
        r == Err(ResponseStatus(401, "Token is expired"))
      ensures r.Err? ==> refreshTokens.rows == old(refreshTokens.rows)
      ensures refreshToken in old(refreshTokens.rows) && !IsExpired(old(refreshTokens.rows)[refreshToken], now) ==>
        var user := old(refreshTokens.rows)[refreshToken].user;
        && r == Ok(AuthorizationResponse(JwtUtils.Encode(algo, user.id, now), freshToken))
        && refreshTokens.rows == (old(refreshTokens.rows) - {refreshToken})[freshToken := NewRefreshToken(user, freshToken, now)]
      ensures r.Ok? && freshToken != refreshToken ==> refreshToken !in refreshTokens.rows
    {
      var found := refreshTokens.FindById(refreshToken);
      if found.None? {
        return Err(ResponseStatus(UNAUTHORIZED, "Bad refresh token"));
      }
      var token := found.value;
      refreshTokens.DeleteById(token.token);
      if IsExpired(token, now) {
        // The ResponseStatusException rolls the transaction back, delete included.
        refreshTokens.Save(token);
        assert refreshTokens.rows == old(refreshTokens.rows);
        return Err(ResponseStatus(UNAUTHORIZED, "Token is expired"));
      }
      var user := token.user;
      refreshTokens.Save(NewRefreshToken(user, freshToken, now));
      r := Ok(AuthorizationResponse(JwtUtils.Encode(algo, user.id, now), freshToken));
    }

    /** doLogout(refreshToken): delete that token and no other. */
    method DoLogout(refreshToken: string)
      requires Valid()
      modifies refreshTokens
      ensures Valid()
      ensures refreshTokens.rows == old(refreshTokens.rows) - {refreshToken}
    {
      refreshTokens.DeleteById(refreshToken);
    }
  }

  /** A refresh token is single use: after a successful refresh the same
      string is refused with 401, and the new token is the one that works. */
  method RefreshTwice(service: UserService, token: string, first: string, second: string, now: int)
    returns (r1: Result<AuthorizationResponse>, r2: Result<AuthorizationResponse>)
    requires service.Valid() && token != first
    modifies service.refreshTokens
    ensures service.Valid()
    ensures r1.Ok? ==> r2 == Err(ResponseStatus(401, "Bad refresh token"))
    ensures r1.Ok? ==> first in service.refreshTokens.rows
  {
    r1 := service.DoReset(token, first, now);
    r2 := service.DoReset(token, second, now);
  }

  /** With a BCrypt that accepts a password against its own digest, the
      right password for the one user the login names always signs in. */
  method LogInWithRightPassword(service: UserService, login: string, password: string, id: int, freshToken: string, now: int)
    returns (r: Result<AuthorizationResponse>)
    requires service.Valid() && Consistent(service.encoder)
    requires id in service.users && MatchesCredential(service.users[id], login)
    requires forall other :: other in service.users && MatchesCredential(service.users[other], login) ==> other == id
    requires service.users[id].passwordDigest == service.encoder.encode(password)
    modifies service.refreshTokens
    ensures service.Valid()
    ensures r == Ok(AuthorizationResponse(JwtUtils.Encode(service.algo, id, now), freshToken))
    ensures freshToken in service.refreshTokens.rows && service.refreshTokens.rows[freshToken].user == service.users[id]
  {
    FindsUniqueMatch(service.users, login, id);
    r := service.Auth(login, password, freshToken, now);
  }

  /** Registering and then signing in with the same login and password
      succeeds, unless some stored email equals the new login: that row would
      match the login too and the lookup would fail. When registration is
      refused, its failure is passed on and no login is attempted. */
  method RegisterThenLogIn(service: UserService, login: string, email: string, password: string, role: UserRole,
                           freshToken: string, now: int)
    returns (registered: Result<LearnUser>, authorized: Result<AuthorizationResponse>)
    requires service.Valid() && Consistent(service.encoder)
    requires forall id :: id in service.users ==> !EqualsIgnoreCase(service.users[id].email, login)
    modifies service, service.refreshTokens
    ensures service.Valid()
    ensures registered.Ok? <==> forall id :: id in old(service.users) ==> !MatchesLoginOrEmail(old(service.users)[id], login, email)
    ensures registered.Ok? ==>
      && authorized == Ok(AuthorizationResponse(JwtUtils.Encode(service.algo, registered.value.id, now), freshToken))
      && freshToken in service.refreshTokens.rows
      && service.refreshTokens.rows[freshToken].user == registered.value
    ensures registered.Err? ==> authorized == Err(registered.failure)
  {
    registered := service.Register(login, email, password, password, role);
    if registered.Err? {
      return registered, Err(registered.failure);
    }
    authorized := LogInWithRightPassword(service, login, password, registered.value.id, freshToken, now);
  }

  /** Login hands out an access token that decodes to the user's id within
      its five minutes, and a refresh token that the ledger now holds. */
  method LoginThenDecode(service: UserService, login: string, password: string, freshToken: string, now: int, later: int)
    returns (r: Result<AuthorizationResponse>, decoded: Result<int>)
    requires service.Valid() && JwtUtils.Sound(service.algo)
    requires now <= later <= now + JwtUtils.LIFETIME_MS
    requires forall id :: id in service.users ==> JavaLong.InRange(id)
    modifies service.refreshTokens
    ensures r.Ok? ==> r.value.refreshToken == freshToken && freshToken in service.refreshTokens.rows
    ensures r.Ok? ==> decoded.Ok? && decoded.value in service.users
                      && service.refreshTokens.rows[freshToken].user.id == decoded.value
  {
    r := service.Auth(login, password, freshToken, now);
    decoded := Err(JwtUtils.INVALID);
    if r.Ok? {
      var user := FindByCredentials(service.users, login).value.value;
      JwtUtils.DecodeEncode(service.algo, user.id, now, later);
      decoded := JwtUtils.Decode(service.algo, r.value.token, later);
    }
  }
}
