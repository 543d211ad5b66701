/**
  The login form's validation: a required user name that must match the
  anchored pattern `^[A-Za-z0-9_-]{5,40}$`, a required password, and a
  "remember me" flag without constraints.

  The two data-annotation attributes are modelled as the framework evaluates
  them: `Required` rejects a missing value and a string made only of white
  space; `RegularExpression` accepts a missing or empty value and otherwise
  asks the regular-expression engine for a match that starts at index 0 and
  covers the whole string. The engine itself is modelled as it runs the
  pattern: a greedy repetition of at most 40 name characters, then
  backtracking one character at a time until `$` holds.
 */
module Login {
  import opened Results

  const MinUserNameLength: nat := 5
  const MaxUserNameLength: nat := 40

  /** The bound form; a field the request did not carry is `None`. */
  datatype LoginForm = LoginForm(userName: Option<string>, password: Option<string>, rememberMe: bool)

  /** One validation message per failing attribute. */
  datatype LoginError =
    | UserNameRequired   // "You must enter a valid username."
    | UserNameInvalid    // "Invalid username"
    | PasswordRequired   // "You must enter a valid password."

  // ---------------------------------------------------------------------
  // Required
  // ---------------------------------------------------------------------

  /** The characters `Char.IsWhiteSpace` accepts: the Unicode separators and the controls U+0009..U+000D, U+0085. */
  predicate IsWhiteSpace(c: char)
  {
    var n := c as int;
    (0x09 <= n <= 0x0D) || n == 0x20 || n == 0x85 || n == 0xA0 || n == 0x1680
    || (0x2000 <= n <= 0x200A) || n == 0x2028 || n == 0x2029
    || n == 0x202F || n == 0x205F || n == 0x3000
  }

  predicate AllWhiteSpace(s: string)
  {
    forall i :: 0 <= i < |s| ==> IsWhiteSpace(s[i])
  }

  /** `RequiredAttribute` with empty strings disallowed. */
  predicate RequiredOk(value: Option<string>)
  {
    value.Some? && !AllWhiteSpace(value.value)
  }

  /** `String.IsNullOrWhiteSpace`, scanning for the first character that is not white space. */
  method IsNullOrWhiteSpace(value: Option<string>) returns (blank: bool)
    ensures blank <==> !RequiredOk(value)
    ensures value == Some([]) ==> blank
  {
    if value.None? {
      return true;
    }
    var s := value.value;
    var i := 0;
    while i < |s|
      invariant 0 <= i <= |s|
      invariant forall j :: 0 <= j < i ==> IsWhiteSpace(s[j])
    {
      if !IsWhiteSpace(s[i]) {
        return false;
      }
      i := i + 1;
    }
    return true;
  }

  // ---------------------------------------------------------------------
  // The user-name pattern
  // ---------------------------------------------------------------------

  /** The class `[A-Za-z0-9_-]`. */
  predicate NameChar(c: char)
  {
    ('A' <= c <= 'Z') || ('a' <= c <= 'z') || ('0' <= c <= '9') || c == '_' || c == '-'
  }

  /** The greedy repetition: how many name characters it takes from position `i`, at most `cap`. */
  function GreedyRun(s: string, i: nat, cap: nat): (k: nat)
    requires i <= |s|
    ensures k <= cap && i + k <= |s|
    ensures forall j :: i <= j < i + k ==> NameChar(s[j])
    ensures k < cap && i + k < |s| ==> !NameChar(s[i + k])
    decreases cap
  {
    if cap == 0 || i == |s| || !NameChar(s[i]) then 0
    else 1 + GreedyRun(s, i + 1, cap - 1)
  }

  /** `$` without the multi-line option: at the end, or just before a final line feed. */
  predicate EndAnchor(s: string, k: nat)
  {
    k == |s| || (k + 1 == |s| && s[k] == '\n')
  }

  /** Giving back one character at a time, down to the minimum count, until `$` holds. */
  function Backtrack(s: string, k: nat): (r: Option<nat>)
    requires MinUserNameLength <= k
    ensures r.Some? ==> MinUserNameLength <= r.value <= k && EndAnchor(s, r.value)
    ensures r.Some? ==> forall j :: r.value < j <= k ==> !EndAnchor(s, j)
    ensures r.None? ==> forall j :: MinUserNameLength <= j <= k ==> !EndAnchor(s, j)
    decreases k
  {
    if EndAnchor(s, k) then Some(k)
    else if k > MinUserNameLength then Backtrack(s, k - 1)
    else None
  }

  /**
    `Regex.Match` for the pattern: `^` pins the only possible start to index 0;
    the result is the length of the match.
   */
  function Match(s: string): Option<nat>
  {
    var k := GreedyRun(s, 0, MaxUserNameLength);
    if k < MinUserNameLength then None else Backtrack(s, k)
  }

  /** `RegularExpressionAttribute`: a missing or empty value passes; otherwise the match must cover the whole value. */
  predicate RegexOk(value: Option<string>)
  {
    value.None? || value.value == [] ||
    (var m := Match(value.value); m.Some? && m.value == |value.value|)
  }

  /** The reference definition: 5 to 40 characters, every one of them a name character. */
  predicate WellFormedUserName(u: string)
  {
    MinUserNameLength <= |u| <= MaxUserNameLength && forall i :: 0 <= i < |u| ==> NameChar(u[i])
  }

  /** A match of length `n` is exactly a run of 5 to 40 name characters after which `$` holds. */
  lemma MatchIff(s: string, n: nat)
    ensures Match(s) == Some(n) <==>
      (MinUserNameLength <= n <= MaxUserNameLength && n <= |s| && EndAnchor(s, n)
       && forall i :: 0 <= i < n ==> NameChar(s[i]))
  {
    var k := GreedyRun(s, 0, MaxUserNameLength);
    if MinUserNameLength <= n <= MaxUserNameLength && n <= |s| && EndAnchor(s, n)
       && forall i :: 0 <= i < n ==> NameChar(s[i])
    {
      // the greedy run stops exactly at n: the string ends there, or a line feed follows
      assert k == n;
    }
  }

  /** The attribute accepts a present, non-empty user name exactly when it is well formed. */
  lemma RegexOkIff(u: string)
    requires u != []
    ensures RegexOk(Some(u)) <==> WellFormedUserName(u)
  {
    MatchIff(u, |u|);
  }

  /** The final line feed that `$` skips is caught by the whole-length comparison. */
  lemma TrailingLineFeedRejected()
    ensures Match("alice\n") == Some(5)
    ensures !RegexOk(Some("alice\n"))
    ensures RegexOk(Some("alice"))
  {
    MatchIff("alice\n", 5);
    MatchIff("alice", 5);
  }

  // ---------------------------------------------------------------------
  // The form
  // ---------------------------------------------------------------------

  /** Every attribute is evaluated; each failing one contributes its message. */
  function LoginErrors(form: LoginForm): set<LoginError>
  {
    (if RequiredOk(form.userName) then {} else {UserNameRequired})
    + (if RegexOk(form.userName) then {} else {UserNameInvalid})
    + (if RequiredOk(form.password) then {} else {PasswordRequired})
  }

  /** The model state is valid when no attribute failed. */
  predicate ValidLogin(form: LoginForm)
  {
    LoginErrors(form) == {}
  }

  /** A well-formed user name is never blank: name characters are not white space. */
  lemma WellFormedIsNotBlank(u: string)
    requires WellFormedUserName(u)
    ensures !AllWhiteSpace(u)
  {
    assert NameChar(u[0]);
  }

  /**
    The form is accepted exactly when a user name of 5 to 40 name characters
    and a password with at least one character that is not white space are
    present; the password has no other constraint.
   */
  lemma ValidLoginIff(form: LoginForm)
    ensures ValidLogin(form) <==>
      (form.userName.Some? && WellFormedUserName(form.userName.value)
       && form.password.Some? && !AllWhiteSpace(form.password.value))
  {
    if form.userName.Some? {
      var u := form.userName.value;
      if u != [] {
        RegexOkIff(u);
      }
      if WellFormedUserName(u) {
        WellFormedIsNotBlank(u);
      }
      if ValidLogin(form) {
        assert UserNameRequired !in LoginErrors(form);
        assert UserNameInvalid !in LoginErrors(form);
      }
    } else {
      assert UserNameRequired in LoginErrors(form);
    }
    if !RequiredOk(form.password) {
      assert PasswordRequired in LoginErrors(form);
    }
  }

  /** A missing user name is reported as required and not as invalid. */
  lemma MissingUserName(password: Option<string>, rememberMe: bool)
    ensures UserNameRequired in LoginErrors(LoginForm(None, password, rememberMe))
    ensures UserNameInvalid !in LoginErrors(LoginForm(None, password, rememberMe))
  {
  }

  /** The "remember me" flag plays no part in validation. */
  lemma RememberMeUnconstrained(form: LoginForm, rememberMe: bool)
    ensures LoginErrors(form.(rememberMe := rememberMe)) == LoginErrors(form)
  {
  }
}
