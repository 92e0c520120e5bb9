/** The route-authorisation rules of SecurityConfig.filterChain: an ordered
    list of (path patterns, requirement) pairs, where the first rule with a
    matching pattern decides, and the JWT filter placed in front of them. */
module SecurityConfig {
  import opened Outcomes
  import opened Users
  import JwtUtils
  import JwtFilter

  /** A request path as its non-empty '/'-separated segments. */
  type Path = seq<string>

  // One pattern segment: a literal segment, or the double star (any number of segments).
  datatype PatternSegment = Lit(text: string) | AnyDeep

  type Pattern = seq<PatternSegment>

  // Ant-style matching restricted to literal segments and whole-segment double stars.
  predicate Match(pattern: Pattern, path: Path)
    decreases |pattern| + |path|
  {
    if pattern == [] then path == []
    else match pattern[0]
      case Lit(text) => path != [] && path[0] == text && Match(pattern[1..], path[1..])
      case AnyDeep => Match(pattern[1..], path) || (path != [] && Match(pattern, path[1..]))
  }

  /** What a rule demands of the caller. */
  datatype Requirement =
    | PermitAll
    | HasAnyAuthority(authorities: seq<string>)
    | Authenticated

  datatype Rule = Rule(patterns: seq<Pattern>, requirement: Requirement)

  datatype Access = Granted | Denied

  /** The authorities of the current identity; None for an anonymous request. */
  type Identity = Option<seq<string>>

  predicate Satisfies(identity: Identity, requirement: Requirement)
  {
    match requirement
    case PermitAll => true
    case HasAnyAuthority(wanted) => identity.Some? && exists a :: a in wanted && a in identity.value
    case Authenticated => identity.Some?
  }

  predicate RuleMatches(rule: Rule, path: Path)
  {
    exists p :: p in rule.patterns && Match(p, path)
  }

  /** The first rule whose patterns match decides; with no match, no rule objects. */
  function Decide(rules: seq<Rule>, path: Path, identity: Identity): Access
  {
    if rules == [] then Granted
    else if RuleMatches(rules[0], path) then
      if Satisfies(identity, rules[0].requirement) then Granted else Denied
    else Decide(rules[1..], path, identity)
  }

  function Literal(segments: seq<string>): (p: Pattern)
    ensures |p| == |segments| && forall i :: 0 <= i < |p| ==> p[i] == Lit(segments[i])
  {
    seq(|segments|, i requires 0 <= i < |segments| => Lit(segments[i]))
  }

  const PERMITTED: seq<Pattern> := [
    Literal(["v1", "user", "refresh-token"]),
    Literal(["v1", "user", "login"]),
    Literal(["v1", "user", "logout"]),
    Literal(["v1", "user", "register"]),
    [Lit("api-docs-op"), AnyDeep],
    [Lit("api-docs"), AnyDeep],
    [Lit("swagger-ui"), AnyDeep]
  ]
  const MODERATOR_ROUTES: Pattern := [Lit("v1"), AnyDeep, Lit("moderator"), AnyDeep]
  const ADMIN_ROUTES: Pattern := [Lit("v1"), AnyDeep, Lit("admin"), AnyDeep]
  const ANY_REQUEST: Pattern := [AnyDeep]

  /** hasAnyRole / hasRole prefix each role with ROLE_. */
  function RoleAuthorities(roles: seq<UserRole>): (auths: seq<string>)
    ensures |auths| == |roles| && forall i :: 0 <= i < |roles| ==> auths[i] == Authority(roles[i])
  {
    seq(|roles|, i requires 0 <= i < |roles| => Authority(roles[i]))
  }

  /** filterChain's rules, in declaration order. */
  const RULES: seq<Rule> := [
    Rule(PERMITTED, PermitAll),
    Rule([MODERATOR_ROUTES], HasAnyAuthority(RoleAuthorities([MODERATOR, ADMIN]))),
    Rule([ADMIN_ROUTES], HasAnyAuthority(RoleAuthorities([ADMIN]))),
    Rule([ANY_REQUEST], Authenticated)
  ]

  function Authorize(path: Path, identity: Identity): Access
  {
    Decide(RULES, path, identity)
  }

  /** The identity a user carries once the filter has attached them. */
  function IdentityOf(u: LearnUser): (identity: Identity)
    ensures identity.Some? && forall r: UserRole :: Authority(r) in identity.value <==> r == u.role
  {
    Some(Authorities(u))
  }

  // ---- Facts about the matcher ----

  // Any segments matches every path.
  lemma {:induction false} AnyDeepMatchesAll(path: Path)
    ensures Match([AnyDeep], path)
    decreases |path|
  {
    if path != [] {
      AnyDeepMatchesAll(path[1..]);
    }
  }

  /** A pattern of literal segments matches only the path it spells. */
  lemma {:induction false} LiteralMatchesOnlyItself(segments: seq<string>, path: Path)
    ensures Match(Literal(segments), path) <==> path == segments
    decreases |segments|
  {
    var p := Literal(segments);
    if segments != [] {
      assert p[1..] == Literal(segments[1..]);
      LiteralMatchesOnlyItself(segments[1..], if path == [] then [] else path[1..]);
      if path != [] && path[0] == segments[0] && path[1..] == segments[1..] {
        assert path == [path[0]] + path[1..];
        assert segments == [segments[0]] + segments[1..];
      }
    }
  }

  // Any segments, a literal, any segments matches exactly the paths holding that literal.
  lemma {:induction false} ContainsMatch(word: string, path: Path)
    ensures Match([AnyDeep, Lit(word), AnyDeep], path) <==> word in path
    decreases |path|
  {
    var p: Pattern := [AnyDeep, Lit(word), AnyDeep];
    assert p[1..] == [Lit(word), AnyDeep] && p[1..][1..] == [AnyDeep];
    if path != [] {
      AnyDeepMatchesAll(path[1..]);
      ContainsMatch(word, path[1..]);
      assert word in path <==> path[0] == word || word in path[1..];
    }
  }

  // The pattern v1, any segments, the word, any segments matches exactly the paths
  // starting with v1 that hold the word later on.
  lemma UnderV1Match(word: string, path: Path)
    ensures Match([Lit("v1"), AnyDeep, Lit(word), AnyDeep], path) <==>
      path != [] && path[0] == "v1" && word in path[1..]
  {
    var p: Pattern := [Lit("v1"), AnyDeep, Lit(word), AnyDeep];
    assert p[1..] == [AnyDeep, Lit(word), AnyDeep];
    if path != [] {
      ContainsMatch(word, path[1..]);
    }
  }

  // A literal followed by any segments matches exactly the paths starting with that literal.
  lemma PrefixMatch(word: string, path: Path)
    ensures Match([Lit(word), AnyDeep], path) <==> path != [] && path[0] == word
  {
    var p: Pattern := [Lit(word), AnyDeep];
    assert p[1..] == [AnyDeep];
    if path != [] {
      AnyDeepMatchesAll(path[1..]);
    }
  }

  /** The permit list, spelled out. */
  lemma PermittedPaths(path: Path)
    ensures RuleMatches(RULES[0], path) <==>
      || path == ["v1", "user", "refresh-token"] || path == ["v1", "user", "login"]
      || path == ["v1", "user", "logout"] || path == ["v1", "user", "register"]
      || (path != [] && path[0] in {"api-docs-op", "api-docs", "swagger-ui"})
  {
    LiteralMatchesOnlyItself(["v1", "user", "refresh-token"], path);
    LiteralMatchesOnlyItself(["v1", "user", "login"], path);
    LiteralMatchesOnlyItself(["v1", "user", "logout"], path);
    LiteralMatchesOnlyItself(["v1", "user", "register"], path);
    PrefixMatch("api-docs-op", path);
    PrefixMatch("api-docs", path);
    PrefixMatch("swagger-ui", path);
    assert PERMITTED[4] == [Lit("api-docs-op"), AnyDeep];
    assert PERMITTED[5] == [Lit("api-docs"), AnyDeep];
    assert PERMITTED[6] == [Lit("swagger-ui"), AnyDeep];
    if RuleMatches(RULES[0], path) {
      var p :| p in PERMITTED && Match(p, path);
    } else {
      assert !Match(PERMITTED[0], path) && !Match(PERMITTED[1], path) && !Match(PERMITTED[2], path);
      assert !Match(PERMITTED[3], path) && !Match(PERMITTED[4], path);
      assert !Match(PERMITTED[5], path) && !Match(PERMITTED[6], path);
    }
  }

  /** A moderator path or an admin path is never on the permit list. */
  lemma RolePathsNotPermitted(path: Path)
    requires path != [] && path[0] == "v1" && ("moderator" in path[1..] || "admin" in path[1..])
    ensures !RuleMatches(RULES[0], path)
  {
    PermittedPaths(path);
  }

  // ---- The rules, one by one ----

  /** Every permit-list route is open to everyone, identity or not. */
  lemma PermitListOpen(path: Path, identity: Identity)
    requires RuleMatches(RULES[0], path)
    ensures Authorize(path, identity) == Granted
  {
  }

  // The moderator routes (also when they are admin routes too) need MODERATOR or ADMIN.
  lemma ModeratorRoutes(path: Path, identity: Identity)
    requires Match(MODERATOR_ROUTES, path)
    ensures Authorize(path, identity) == Granted <==>
      identity.Some? && (Authority(MODERATOR) in identity.value || Authority(ADMIN) in identity.value)
  {
    UnderV1Match("moderator", path);
    RolePathsNotPermitted(path);
    assert RuleMatches(RULES[1], path) by { assert MODERATOR_ROUTES in RULES[1].patterns; }
    var wanted := RoleAuthorities([MODERATOR, ADMIN]);
    assert wanted == [Authority(MODERATOR), Authority(ADMIN)];
    assert RULES[1..][0] == RULES[1];
    assert Authorize(path, identity) == Decide(RULES[1..], path, identity);
  }

  // The admin routes without a moderator segment need ADMIN.
  lemma AdminRoutes(path: Path, identity: Identity)
    requires Match(ADMIN_ROUTES, path) && !Match(MODERATOR_ROUTES, path)
    ensures Authorize(path, identity) == Granted <==> identity.Some? && Authority(ADMIN) in identity.value
  {
    UnderV1Match("admin", path);
    RolePathsNotPermitted(path);
    assert !RuleMatches(RULES[1], path);
    assert RuleMatches(RULES[2], path) by { assert ADMIN_ROUTES in RULES[2].patterns; }
    assert RULES[1..][0] == RULES[1] && RULES[1..][1..][0] == RULES[2];
    var wanted := RoleAuthorities([ADMIN]);
    assert wanted == [Authority(ADMIN)];
    assert Authorize(path, identity) == Decide(RULES[1..], path, identity);
    assert Authorize(path, identity) == Decide(RULES[1..][1..], path, identity);
  }

  /** Every other route needs some identity, whatever its role. */
  lemma OtherRoutes(path: Path, identity: Identity)
    requires !RuleMatches(RULES[0], path) && !Match(MODERATOR_ROUTES, path) && !Match(ADMIN_ROUTES, path)
    ensures Authorize(path, identity) == Granted <==> identity.Some?
  {
    assert !RuleMatches(RULES[1], path);
    assert !RuleMatches(RULES[2], path);
    AnyDeepMatchesAll(path);
    assert RuleMatches(RULES[3], path) by { assert ANY_REQUEST in RULES[3].patterns; }
    assert RULES[1..][0] == RULES[1] && RULES[1..][1..][0] == RULES[2];
    assert RULES[1..][1..][1..][0] == RULES[3];
    assert Authorize(path, identity) == Decide(RULES[1..], path, identity);
    assert Authorize(path, identity) == Decide(RULES[1..][1..], path, identity);
    assert Authorize(path, identity) == Decide(RULES[1..][1..][1..], path, identity);
  }

  /** For a signed-in user: moderator routes are closed to USER only, admin-only routes to all but ADMIN. */
  lemma RoleAccess(path: Path, u: LearnUser)
    ensures Match(MODERATOR_ROUTES, path) ==> (Authorize(path, IdentityOf(u)) == Granted <==> u.role != USER)
    ensures Match(ADMIN_ROUTES, path) && !Match(MODERATOR_ROUTES, path) ==>
      (Authorize(path, IdentityOf(u)) == Granted <==> u.role == ADMIN)
  {
    if Match(MODERATOR_ROUTES, path) {
      ModeratorRoutes(path, IdentityOf(u));
    } else if Match(ADMIN_ROUTES, path) {
      AdminRoutes(path, IdentityOf(u));
    }
  }

  /** /v1/user/me: signed-in users of every role, no anonymous caller. */
  lemma MeRoute(identity: Identity)
    ensures Authorize(["v1", "user", "me"], identity) == Granted <==> identity.Some?
  {
    var path := ["v1", "user", "me"];
    PermittedPaths(path);
    UnderV1Match("moderator", path);
    UnderV1Match("admin", path);
    OtherRoutes(path, identity);
  }

  /** First match wins: a path with both a moderator and an admin segment is open to MODERATOR. */
  lemma FirstMatchWins(u: LearnUser)
    requires u.role == MODERATOR
    ensures var path := ["v1", "admin", "moderator"];
      Match(ADMIN_ROUTES, path) && Authorize(path, IdentityOf(u)) == Granted
  {
    var path := ["v1", "admin", "moderator"];
    UnderV1Match("admin", path);
    UnderV1Match("moderator", path);
    RoleAccess(path, u);
  }

  /** The message controller's routes: delete (admin) and edit (moderator). */
  function DeleteMessagePath(id: string): Path { ["v1", "messages", "admin", "delete", id] }
  function EditMessagePath(id: string): Path { ["v1", "messages", "moderator", "edit", id] }

  /** USER may neither edit nor delete; MODERATOR may edit only; ADMIN may do both. */
  lemma MessageRoutes(u: LearnUser, id: string)
    requires id != "moderator"
    ensures Authorize(EditMessagePath(id), IdentityOf(u)) == Granted <==> u.role in {MODERATOR, ADMIN}
    ensures Authorize(DeleteMessagePath(id), IdentityOf(u)) == Granted <==> u.role == ADMIN
  {
    var edit, delete := EditMessagePath(id), DeleteMessagePath(id);
    UnderV1Match("moderator", edit);
    assert edit[1..][1] == "moderator";
    UnderV1Match("admin", delete);
    assert delete[1..][1] == "admin";
    UnderV1Match("moderator", delete);
    assert "moderator" !in delete[1..];
    RoleAccess(edit, u);
    RoleAccess(delete, u);
  }

  // ---- The filter in front of the rules ----

  /** How one request ends: rejected by the JWT filter, refused by the rules,
      or handed to the controller with the attached identity (if any). */
  datatype Verdict = Rejected(failure: Failure) | Refused | Admitted(user: Option<LearnUser>)

  /** addFilterBefore: the JWT filter decides first, the rules second. */
  function Handle(path: Path, request: JwtFilter.Request, users: map<int, LearnUser>,
                  algo: JwtUtils.Algorithm, now: int): Verdict
  {
    match JwtFilter.Gate(request, users, algo, now)
    case Reject(f) => Rejected(f)
    case PassThrough => if Authorize(path, None) == Granted then Admitted(None) else Refused
    case Attach(u) => if Authorize(path, IdentityOf(u)) == Granted then Admitted(Some(u)) else Refused
  }

  /** The filter runs before the rules: a bad token is a 401 even on the permit list,
      and a request without a token reaches the controller exactly on the permit list
      or is refused. */
  lemma FilterBeforeRules(path: Path, request: JwtFilter.Request, users: map<int, LearnUser>,
                          algo: JwtUtils.Algorithm, now: int)
    ensures JwtFilter.Gate(request, users, algo, now).Reject? ==>
      Handle(path, request, users, algo, now) == Rejected(JwtFilter.Gate(request, users, algo, now).failure)
    ensures JwtFilter.Gate(request, users, algo, now).Reject? ==>
      Handle(path, request, users, algo, now).failure.ResponseStatus? &&
      Handle(path, request, users, algo, now).failure.status == UNAUTHORIZED
    ensures JwtFilter.Gate(request, users, algo, now) == JwtFilter.PassThrough ==>
      (Handle(path, request, users, algo, now) == Admitted(None) <==> RuleMatches(RULES[0], path))
  {
    var gate := JwtFilter.Gate(request, users, algo, now);
    if gate == JwtFilter.PassThrough && !RuleMatches(RULES[0], path) {
      if Match(MODERATOR_ROUTES, path) {
        ModeratorRoutes(path, None);
      } else if Match(ADMIN_ROUTES, path) {
        AdminRoutes(path, None);
      } else {
        OtherRoutes(path, None);
      }
    }
  }
}
