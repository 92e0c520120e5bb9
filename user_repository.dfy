/** The two read-only queries of LearnUserRepository.java over the user
    table, with the Optional that Spring Data builds from their rows. */
module UserRepository {
  import opened Outcomes
  import opened Users

  /** The user table, keyed by id. */
  type UserTable = map<int, LearnUser>

  /** Every row is stored under its own id. */
  ghost predicate WellKeyed(users: UserTable)
  {
    forall id :: id in users ==> users[id].id == id
  }

  /** The database's lower() on one character (ASCII letters only). */
  function LowerChar(c: char): char
  {
    if 'A' <= c <= 'Z' then (c as int + 32) as char else c
  }

  function Lower(s: string): (r: string)
    ensures |r| == |s|
    ensures forall i :: 0 <= i < |s| ==> r[i] == LowerChar(s[i])
  {
    seq(|s|, i requires 0 <= i < |s| => LowerChar(s[i]))
  }

  predicate EqualsIgnoreCase(a: string, b: string)
  {
    Lower(a) == Lower(b)
  }

  /** Lower-casing twice is lower-casing once. */
  lemma LowerIdempotent(s: string)
    ensures Lower(Lower(s)) == Lower(s)
  {
  }

  /** WHERE lower(u.login) = lower(?1) OR lower(u.email) = lower(?1) */
  predicate MatchesCredential(u: LearnUser, credential: string)
  {
    EqualsIgnoreCase(u.login, credential) || EqualsIgnoreCase(u.email, credential)
  }

  /** WHERE lower(u.login) = lower(?1) OR lower(u.email) = lower(?2) */
  predicate MatchesLoginOrEmail(u: LearnUser, login: string, email: string)
  {
    EqualsIgnoreCase(u.login, login) || EqualsIgnoreCase(u.email, email)
  }

  /** The ids of the rows the one-argument query selects. */
  function SelectByCredential(users: UserTable, credential: string): set<int>
  {
    set id | id in users && MatchesCredential(users[id], credential)
  }

  /** The ids of the rows the two-argument query selects. */
  function SelectByLoginOrEmail(users: UserTable, login: string, email: string): set<int>
  {
    set id | id in users && MatchesLoginOrEmail(users[id], login, email)
  }

  /** A non-empty set has a member. */
  lemma HasMember(ids: set<int>)
    requires ids != {}
    ensures exists x :: x in ids
  {
    if forall x :: x !in ids {
      assert false;
    }
  }

  /** A finite non-empty set of ids has a least element. */
  lemma LeastExists(ids: set<int>)
    requires ids != {}
    ensures exists x :: x in ids && forall y :: y in ids ==> x <= y
    decreases |ids|
  {
    HasMember(ids);
    var x :| x in ids;
    if ids == {x} {
      assert forall y :: y in ids ==> x <= y;
    } else {
      var rest := ids - {x};
      OthersBesides(ids, x);
      LeastExists(rest);
      var m :| m in rest && forall y :: y in rest ==> m <= y;
      var least := if x < m then x else m;
      forall y | y in ids
        ensures least <= y
      {
        if y != x { assert y in rest; }
      }
      assert least in ids;
    }
  }

  /** A set holding x that is not {x} holds something else too. */
  lemma OthersBesides(ids: set<int>, x: int)
    requires x in ids && ids != {x}
    ensures ids - {x} != {} && |ids - {x}| < |ids| && |ids| > 1
  {
    assert ids == (ids - {x}) + {x};
  }

  /** Optional<LearnUser> from a single-result query: empty for no row, the
      row for one row, and IncorrectResultSizeDataAccessException (a 500) for
      more than one. */
  function SingleResult(users: UserTable, ids: set<int>): (r: Result<Option<LearnUser>>)
    requires WellKeyed(users) && ids <= users.Keys
    ensures r == Ok(None) <==> ids == {}
    ensures r.Err? <==> |ids| > 1
    ensures r.Err? ==> r.failure.Fault?
    ensures r.Ok? && r.value.Some? ==> ids == {r.value.value.id} && users[r.value.value.id] == r.value.value
  {
    if ids == {} then Ok(None)
    else
      LeastExists(ids);
      var x :| x in ids && forall y :: y in ids ==> x <= y;
      if ids == {x} then
        assert |ids| == 1;
        Ok(Some(users[x]))
      else
        OthersBesides(ids, x);
        Err(Fault("query did not return a unique result"))
  }

  /** The one-argument WHERE clause selects nothing exactly when no row matches. */
  lemma SelectByCredentialEmpty(users: UserTable, credential: string)
    ensures SelectByCredential(users, credential) == {} <==>
      forall id :: id in users ==> !MatchesCredential(users[id], credential)
  {
    if exists id :: id in users && MatchesCredential(users[id], credential) {
      var id :| id in users && MatchesCredential(users[id], credential);
      assert id in SelectByCredential(users, credential);
    }
  }

  /** The two-argument WHERE clause selects nothing exactly when no row matches. */
  lemma SelectByLoginOrEmailEmpty(users: UserTable, login: string, email: string)
    ensures SelectByLoginOrEmail(users, login, email) == {} <==>
      forall id :: id in users ==> !MatchesLoginOrEmail(users[id], login, email)
  {
    if exists id :: id in users && MatchesLoginOrEmail(users[id], login, email) {
      var id :| id in users && MatchesLoginOrEmail(users[id], login, email);
      assert id in SelectByLoginOrEmail(users, login, email);
    }
  }

  /** findByCredentials(login): login-or-email lookup, ignoring case. */
  function FindByCredentials(users: UserTable, credential: string): (r: Result<Option<LearnUser>>)
    requires WellKeyed(users)
    ensures r == Ok(None) <==> forall id :: id in users ==> !MatchesCredential(users[id], credential)
    ensures r.Err? <==> |SelectByCredential(users, credential)| > 1
    ensures r.Err? ==> r.failure.Fault?
    ensures r.Ok? && r.value.Some? ==>
      && r.value.value.id in users && users[r.value.value.id] == r.value.value
      && MatchesCredential(r.value.value, credential)
      && forall id :: id in users && MatchesCredential(users[id], credential) ==> id == r.value.value.id
  {
    var ids := SelectByCredential(users, credential);
    var r := SingleResult(users, ids);
    assert r.Ok? && r.value.Some? ==> r.value.value.id in ids;
    SelectByCredentialEmpty(users, credential);
    assert forall id :: id in users && MatchesCredential(users[id], credential) ==> id in ids;
    r
  }

  /** findByCredentials(login, email): login match or email match, ignoring case. */
  function FindByLoginOrEmail(users: UserTable, login: string, email: string): (r: Result<Option<LearnUser>>)
    requires WellKeyed(users)
    ensures r == Ok(None) <==> forall id :: id in users ==> !MatchesLoginOrEmail(users[id], login, email)
    ensures r.Err? <==> |SelectByLoginOrEmail(users, login, email)| > 1
    ensures r.Err? ==> r.failure.Fault?
    ensures r.Ok? && r.value.Some? ==>
      && r.value.value.id in users && users[r.value.value.id] == r.value.value
      && MatchesLoginOrEmail(r.value.value, login, email)
      && forall id :: id in users && MatchesLoginOrEmail(users[id], login, email) ==> id == r.value.value.id
  {
    var ids := SelectByLoginOrEmail(users, login, email);
    var r := SingleResult(users, ids);
    assert r.Ok? && r.value.Some? ==> r.value.value.id in ids;
    SelectByLoginOrEmailEmpty(users, login, email);
    assert forall id :: id in users && MatchesLoginOrEmail(users[id], login, email) ==> id in ids;
    r
  }

  /** A row that alone matches the credential is the one found. */
  lemma FindsUniqueMatch(users: UserTable, credential: string, id: int)
    requires WellKeyed(users) && id in users && MatchesCredential(users[id], credential)
    requires forall other :: other in users && MatchesCredential(users[other], credential) ==> other == id
    ensures FindByCredentials(users, credential) == Ok(Some(users[id]))
  {
    var ids := SelectByCredential(users, credential);
    assert id in ids;
    forall other | other in ids
      ensures other == id
    {
      assert other in users && MatchesCredential(users[other], credential);
    }
    assert ids == {id};
  }

  /** A row that alone matches the login or the email is the one found. */
  lemma FindsUniqueLoginOrEmail(users: UserTable, login: string, email: string, id: int)
    requires WellKeyed(users) && id in users && MatchesLoginOrEmail(users[id], login, email)
    requires forall other :: other in users && MatchesLoginOrEmail(users[other], login, email) ==> other == id
    ensures FindByLoginOrEmail(users, login, email) == Ok(Some(users[id]))
  {
    var ids := SelectByLoginOrEmail(users, login, email);
    assert id in ids;
    forall other | other in ids
      ensures other == id
    {
      assert other in users && MatchesLoginOrEmail(users[other], login, email);
    }
    assert ids == {id};
  }

  /** The one-argument query is the two-argument one with both arguments equal. */
  lemma CredentialIsLoginOrEmailTwice(users: UserTable, credential: string)
    requires WellKeyed(users)
    ensures FindByCredentials(users, credential) == FindByLoginOrEmail(users, credential, credential)
  {
    var one, two := SelectByCredential(users, credential), SelectByLoginOrEmail(users, credential, credential);
    forall id ensures id in one <==> id in two {
    }
    assert one == two;
  }

  /** Changing the letter case of the argument does not change the answer. */
  lemma FindIgnoresCase(users: UserTable, a: string, b: string)
    requires WellKeyed(users) && Lower(a) == Lower(b)
    ensures FindByCredentials(users, a) == FindByCredentials(users, b)
  {
    var ofA, ofB := SelectByCredential(users, a), SelectByCredential(users, b);
    forall id ensures id in ofA <==> id in ofB {
    }
    assert ofA == ofB;
  }

  /** Querying with the lower-cased argument gives the same answer. */
  lemma FindByLowered(users: UserTable, credential: string)
    requires WellKeyed(users)
    ensures FindByCredentials(users, Lower(credential)) == FindByCredentials(users, credential)
  {
    LowerIdempotent(credential);
    FindIgnoresCase(users, Lower(credential), credential);
  }
}
