/** The user entity (LearnUser.java): its role enum, the authorities Spring
    Security sees, and the UserDetails accessors. */
module Users {

  /** LearnUser.UserRole: exactly three roles. */
  datatype UserRole = USER | MODERATOR | ADMIN

  /** Enum.name() of a role. */
  function RoleName(role: UserRole): string
  {
    match role
    case USER => "USER"
    case MODERATOR => "MODERATOR"
    case ADMIN => "ADMIN"
  }

  /** A persisted user row. The id is the one the sequence assigned on save. */
  datatype LearnUser = LearnUser(id: int, login: string, email: string, passwordDigest: string, role: UserRole)

  /** The public constructor followed by the id assignment that save performs. */
  function NewLearnUser(id: int, login: string, email: string, passwordDigest: string, role: UserRole): (u: LearnUser)
    ensures u.id == id && u.login == login && u.email == email
    ensures u.passwordDigest == passwordDigest && u.role == role
  {
    LearnUser(id, login, email, passwordDigest, role)
  }

  const ROLE_PREFIX := "ROLE_"

  /** The authority string Spring's hasRole / hasAnyRole look for. */
  function Authority(role: UserRole): string
  {
    ROLE_PREFIX + RoleName(role)
  }

  /** getAuthorities: a singleton list holding "ROLE_" + role.name(). */
  function Authorities(u: LearnUser): (auths: seq<string>)
    ensures |auths| == 1 && auths[0] == ROLE_PREFIX + RoleName(u.role)
    ensures forall r: UserRole :: Authority(r) in auths <==> r == u.role
  {
    AuthorityInjective();
    [Authority(u.role)]
  }

  /** Distinct roles give distinct authority strings. */
  lemma AuthorityInjective()
    ensures forall r1: UserRole, r2: UserRole :: Authority(r1) == Authority(r2) ==> r1 == r2
  {
    forall r1: UserRole, r2: UserRole | Authority(r1) == Authority(r2)
      ensures r1 == r2
    {
      assert Authority(r1)[5..] == RoleName(r1);
      assert Authority(r2)[5..] == RoleName(r2);
    }
  }

  /** getUsername: the login. */
  function Username(u: LearnUser): (name: string)
    ensures name == u.login
  {
    u.login
  }

  /** getPassword: the stored digest, never a clear-text password. */
  function Password(u: LearnUser): (digest: string)
    ensures digest == u.passwordDigest
  {
    u.passwordDigest
  }

  predicate IsAccountNonExpired(u: LearnUser) { true }
  predicate IsAccountNonLocked(u: LearnUser) { true }
  predicate IsCredentialsNonExpired(u: LearnUser) { true }
  predicate IsEnabled(u: LearnUser) { true }

  /** Spring Security never finds an account disabled, locked or expired. */
  lemma AccountAlwaysUsable(u: LearnUser)
    ensures IsAccountNonExpired(u) && IsAccountNonLocked(u)
    ensures IsCredentialsNonExpired(u) && IsEnabled(u)
  {
  }
}
