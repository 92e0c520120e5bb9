/** The bean-validation constraints on the registration body
    (RegisterRequest.java). A JSON field that is absent or null is None. */
module RegisterRequest {
  import opened Outcomes
  import opened Users

  datatype RegisterRequest = RegisterRequest(
    login: Option<string>,
    email: Option<string>,
    password: Option<string>,
    passwordConfirmation: Option<string>,
    role: Option<UserRole>)

  /** The constraint annotations that occur on the record. */
  datatype Constraint = NotBlank | Size(min: nat, max: nat) | WordPattern | Email | NotEmpty | NotNull

  /** One failed constraint on one field, named as in the JSON body. */
  datatype Violation = Violation(field: string, constraint: Constraint)

  /** @NotBlank: present, and something is left after trimming (trim drops every char up to ' '). */
  predicate IsNotBlank(s: Option<string>)
  {
    s.Some? && exists i :: 0 <= i < |s.value| && s.value[i] > ' '
  }

  /** @Size: null is valid; otherwise the length lies in [min, max]. */
  predicate HasSize(s: Option<string>, min: nat, max: nat)
  {
    s.None? || min <= |s.value| <= max
  }

  /** \w without UNICODE_CHARACTER_CLASS. */
  predicate IsWordChar(c: char)
  {
    ('a' <= c <= 'z') || ('A' <= c <= 'Z') || ('0' <= c <= '9') || c == '_'
  }

  /** @Pattern("^\\w+$") matched against the whole value; null is valid. */
  predicate MatchesWordPattern(s: Option<string>)
  {
    s.None? || (|s.value| > 0 && forall i :: 0 <= i < |s.value| ==> IsWordChar(s.value[i]))
  }

  /** @Email: null is valid; the address grammar is the `wellFormed` parameter. */
  predicate IsEmail(s: Option<string>, wellFormed: string -> bool)
  {
    s.None? || wellFormed(s.value)
  }

  /** @NotEmpty: present and of positive length. */
  predicate IsNotEmpty(s: Option<string>)
  {
    s.Some? && |s.value| > 0
  }

  function Check(ok: bool, field: string, constraint: Constraint): set<Violation>
  {
    if ok then {} else {Violation(field, constraint)}
  }

  /** Every violated constraint of the request. */
  function Violations(r: RegisterRequest, wellFormed: string -> bool): set<Violation>
  {
    Check(IsNotBlank(r.login), "login", NotBlank)
    + Check(HasSize(r.login, 3, 16), "login", Size(3, 16))
    + Check(MatchesWordPattern(r.login), "login", WordPattern)
    + Check(IsEmail(r.email, wellFormed), "email", Email)
    + Check(IsNotEmpty(r.email), "email", NotEmpty)
    + Check(IsNotBlank(r.password), "password", NotBlank)
    + Check(HasSize(r.password, 8, 16), "password", Size(8, 16))
    + Check(IsNotBlank(r.passwordConfirmation), "password_confirmation", NotBlank)
    + Check(r.role.Some?, "role", NotNull)
  }

  /** @Valid lets the request reach the controller exactly when nothing is violated. */
  predicate Valid(r: RegisterRequest, wellFormed: string -> bool)
  {
    Violations(r, wellFormed) == {}
  }

  /** A word is never blank: on login, @NotBlank adds nothing to @Size(min = 3) and @Pattern. */
  lemma WordIsNotBlank(s: Option<string>)
    requires s.Some? && MatchesWordPattern(s)
    ensures IsNotBlank(s)
  {
    assert IsWordChar(s.value[0]);
    assert s.value[0] > ' ';
  }

  /** What a valid request looks like, field by field, in both directions. */
  lemma ValidShape(r: RegisterRequest, wellFormed: string -> bool)
    ensures Valid(r, wellFormed) <==>
      && r.login.Some? && 3 <= |r.login.value| <= 16
      && (forall i :: 0 <= i < |r.login.value| ==> IsWordChar(r.login.value[i]))
      && r.email.Some? && |r.email.value| > 0 && wellFormed(r.email.value)
      && r.password.Some? && 8 <= |r.password.value| <= 16 && IsNotBlank(r.password)
      && IsNotBlank(r.passwordConfirmation)
      && r.role.Some?
  {
    if r.login.Some? && MatchesWordPattern(r.login) {
      WordIsNotBlank(r.login);
    }
    if Valid(r, wellFormed) {
      assert Violation("login", NotBlank) !in Violations(r, wellFormed);
      assert Violation("login", Size(3, 16)) !in Violations(r, wellFormed);
      assert Violation("login", WordPattern) !in Violations(r, wellFormed);
      assert Violation("email", Email) !in Violations(r, wellFormed);
      assert Violation("email", NotEmpty) !in Violations(r, wellFormed);
      assert Violation("password", NotBlank) !in Violations(r, wellFormed);
      assert Violation("password", Size(8, 16)) !in Violations(r, wellFormed);
      assert Violation("password_confirmation", NotBlank) !in Violations(r, wellFormed);
      assert Violation("role", NotNull) !in Violations(r, wellFormed);
    }
  }

  /** Each violation names a field of the record. */
  lemma ViolationFields(r: RegisterRequest, wellFormed: string -> bool, v: Violation)
    requires v in Violations(r, wellFormed)
    ensures v.field in {"login", "email", "password", "password_confirmation", "role"}
  {
  }

  /** The confirmation has no length bound and need not equal the password:
      equality is the service's job. */
  lemma ConfirmationOnlyNotBlank(wellFormed: string -> bool)
    requires wellFormed("a@x.com")
    ensures var r := RegisterRequest(Some("alice"), Some("a@x.com"), Some("password1"),
                                     Some("a confirmation longer than sixteen"), Some(USER));
      Valid(r, wellFormed) && r.password != r.passwordConfirmation && |r.passwordConfirmation.value| > 16
  {
    var r := RegisterRequest(Some("alice"), Some("a@x.com"), Some("password1"),
                             Some("a confirmation longer than sixteen"), Some(USER));
    assert r.password.value[0] > ' ';
    assert r.passwordConfirmation.value[0] > ' ';
    ValidShape(r, wellFormed);
  }

  /** A space-only password is rejected even at a permitted length. */
  lemma BlankPasswordRejected(r: RegisterRequest, wellFormed: string -> bool)
    requires r.password == Some("        ")
    ensures Violation("password", NotBlank) in Violations(r, wellFormed)
    ensures Violation("password", Size(8, 16)) !in Violations(r, wellFormed)
  {
  }

  /** A login with a character outside \w, or of fewer than 3 characters, is rejected. */
  lemma BadLoginsRejected(wellFormed: string -> bool, r: RegisterRequest)
    ensures r.login == Some("al") ==> Violation("login", Size(3, 16)) in Violations(r, wellFormed)
    ensures r.login == Some("al-ice") ==> Violation("login", WordPattern) in Violations(r, wellFormed)
  {
    if r.login == Some("al-ice") {
      assert !IsWordChar(r.login.value[2]);
    }
  }
}
