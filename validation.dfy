/**
 * The credential validators of lib/utils/validation.ts: the password and
 * e-mail regular expressions, and the validateCredentials check sequence
 * the route handlers call.
 *
 * Each regular expression is given twice: once as the literal meaning of
 * the pattern (a ghost predicate that quantifies over the positions the
 * pattern's parts match), and once as the character-class test a
 * program can run. A lemma shows the two agree on every string.
 */
module Validation {
  import opened Optional

  // ---------------------------------------------------------------------
  // Character classes
  // ---------------------------------------------------------------------

  predicate IsLower(c: char) { 'a' <= c <= 'z' }
  predicate IsUpper(c: char) { 'A' <= c <= 'Z' }
  /** JavaScript's `\d`: ASCII digits only. */
  predicate IsDigit(c: char) { '0' <= c <= '9' }
  /** The class `[a-zA-Z\d_]`. */
  predicate IsWordChar(c: char) { IsLower(c) || IsUpper(c) || IsDigit(c) || c == '_' }

  /** The characters JavaScript's `.` does not match. */
  predicate IsLineTerminator(c: char) {
    c == '\n' || c == '\r' || c == '\U{2028}' || c == '\U{2029}'
  }

  /** JavaScript's `\s`: the WhiteSpace and LineTerminator code points. */
  predicate IsWhitespace(c: char) {
    || IsLineTerminator(c)
    || c == '\t' || c == '\U{000B}' || c == '\U{000C}' || c == ' '
    || c == '\U{00A0}' || c == '\U{1680}' || ('\U{2000}' <= c <= '\U{200A}')
    || c == '\U{202F}' || c == '\U{205F}' || c == '\U{3000}' || c == '\U{FEFF}'
  }

  // ---------------------------------------------------------------------
  // Password: /^(?=.*[a-z])(?=.*[A-Z])(?=.*\d)(?=.*_)[a-zA-Z\d_]{6,}$/
  // ---------------------------------------------------------------------

  /** The classes the four look-aheads ask for. */
  datatype CharClass = Lowercase | Uppercase | Digit | Underscore

  predicate InClass(c: char, k: CharClass) {
    match k
    case Lowercase => IsLower(c)
    case Uppercase => IsUpper(c)
    case Digit => IsDigit(c)
    case Underscore => c == '_'
  }

  /** `(?=.*X)` at the start of `s`: an X occurs, preceded only by characters `.` matches. */
  ghost predicate LookaheadFinds(s: string, k: CharClass) {
    exists i :: 0 <= i < |s| && InClass(s[i], k) && forall j :: 0 <= j < i ==> !IsLineTerminator(s[j])
  }

  /** What the password pattern accepts, part by part. */
  ghost predicate PasswordRegex(s: string) {
    && LookaheadFinds(s, Lowercase)
    && LookaheadFinds(s, Uppercase)
    && LookaheadFinds(s, Digit)
    && LookaheadFinds(s, Underscore)
    && |s| >= 6
    && forall i :: 0 <= i < |s| ==> IsWordChar(s[i])
  }

  /** The classes met in one pass over a string. */
  datatype Seen = Seen(lower: bool, upper: bool, digit: bool, underscore: bool, onlyWord: bool)

  function Scan(s: string): (seen: Seen)
    ensures seen.lower <==> exists i :: 0 <= i < |s| && IsLower(s[i])
    ensures seen.upper <==> exists i :: 0 <= i < |s| && IsUpper(s[i])
    ensures seen.digit <==> exists i :: 0 <= i < |s| && IsDigit(s[i])
    ensures seen.underscore <==> exists i :: 0 <= i < |s| && s[i] == '_'
    ensures seen.onlyWord <==> forall i :: 0 <= i < |s| ==> IsWordChar(s[i])
  {
    if s == [] then Seen(false, false, false, false, true)
    else
      var rest := Scan(s[1..]);
      var c := s[0];
      assert forall i :: 1 <= i < |s| ==> s[i] == s[1..][i - 1];
      Seen(rest.lower || IsLower(c), rest.upper || IsUpper(c), rest.digit || IsDigit(c),
           rest.underscore || c == '_', rest.onlyWord && IsWordChar(c))
  }

  /** isValidPassword (lib/utils/validation.ts:1-5). */
  predicate IsValidPassword(password: string): (ok: bool)
    ensures ok <==>
      && |password| >= 6
      && (forall i :: 0 <= i < |password| ==> IsWordChar(password[i]))
      && (exists i :: 0 <= i < |password| && IsLower(password[i]))
      && (exists i :: 0 <= i < |password| && IsUpper(password[i]))
      && (exists i :: 0 <= i < |password| && IsDigit(password[i]))
      && (exists i :: 0 <= i < |password| && password[i] == '_')
  {
    var seen := Scan(password);
    |password| >= 6 && seen.onlyWord && seen.lower && seen.upper && seen.digit && seen.underscore
  }

  /** The character-class test accepts exactly the strings the pattern accepts. */
  lemma PasswordMatchesRegex(s: string)
    ensures IsValidPassword(s) <==> PasswordRegex(s)
  {
    if forall i :: 0 <= i < |s| ==> IsWordChar(s[i]) {
      forall k: CharClass
        ensures LookaheadFinds(s, k) <==> exists i :: 0 <= i < |s| && InClass(s[i], k)
      {
        if i :| 0 <= i < |s| && InClass(s[i], k) {
          assert forall j :: 0 <= j < i ==> !IsLineTerminator(s[j]);
        }
      }
    }
  }

  /** A character outside `[a-zA-Z\d_]` anywhere rejects the password, whatever else it holds. */
  lemma PasswordRejectsForeignChar(s: string, i: int)
    requires 0 <= i < |s| && !IsWordChar(s[i])
    ensures !PasswordRegex(s) && !IsValidPassword(s)
  {
    PasswordMatchesRegex(s);
  }

  /** A word of six or more characters with an upper-case letter, a lower-case letter, a digit and `_` at the given positions. */
  lemma PasswordAccepts(s: string, u: nat, l: nat, d: nat, n: nat)
    requires |s| >= 6 && forall i :: 0 <= i < |s| ==> IsWordChar(s[i])
    requires u < |s| && l < |s| && d < |s| && n < |s|
    requires IsUpper(s[u]) && IsLower(s[l]) && IsDigit(s[d]) && s[n] == '_'
    ensures PasswordRegex(s)
  {
    assert InClass(s[u], Uppercase) && InClass(s[l], Lowercase) && InClass(s[d], Digit) && InClass(s[n], Underscore);
  }

  lemma PasswordAcceptsExamples()
    ensures PasswordRegex("Abc123_")
    ensures PasswordRegex("Xyz789_")
  {
    PasswordAccepts("Abc123_", 0, 1, 3, 6);
    PasswordAccepts("Xyz789_", 0, 1, 3, 6);
  }

  /** No character of `s` is in class `k`, so the look-ahead for `k` fails. */
  lemma LookaheadFails(s: string, k: CharClass)
    requires forall c :: c in s ==> !InClass(c, k)
    ensures !LookaheadFinds(s, k)
  {
    forall i | 0 <= i < |s| ensures !InClass(s[i], k) {
      assert s[i] in s;
    }
  }

  lemma PasswordRejectsExamples()
    ensures !PasswordRegex("abc123_")  // no upper-case letter
    ensures !PasswordRegex("ABC123_")  // no lower-case letter
    ensures !PasswordRegex("Abcdef_")  // no digit
    ensures !PasswordRegex("Abc123")   // no underscore
    ensures !PasswordRegex("Ab1_")     // too short
  {
    LookaheadFails("abc123_", Uppercase);
    LookaheadFails("ABC123_", Lowercase);
    LookaheadFails("Abcdef_", Digit);
    LookaheadFails("Abc123", Underscore);
  }

  // ---------------------------------------------------------------------
  // E-mail: /^[^\s@]+@[^\s@]+\.[^\s@]+$/
  // ---------------------------------------------------------------------

  /** `[^\s@]*`: no white space and no `@`. */
  ghost predicate NonSpaceNonAt(t: string) {
    forall k :: 0 <= k < |t| ==> !IsWhitespace(t[k]) && t[k] != '@'
  }

  /** What the e-mail pattern accepts: `s[..i]`, `s[i+1..j]` and `s[j+1..]` are the three `[^\s@]+` runs. */
  ghost predicate EmailRegex(s: string) {
    exists i, j ::
      && 0 < i && i + 1 < j && j + 1 < |s|
      && s[i] == '@' && s[j] == '.'
      && NonSpaceNonAt(s[..i]) && NonSpaceNonAt(s[i + 1..j]) && NonSpaceNonAt(s[j + 1..])
  }

  function NoWhitespace(s: string): (ok: bool)
    ensures ok <==> forall k :: 0 <= k < |s| ==> !IsWhitespace(s[k])
  {
    if s == [] then true
    else
      assert forall k :: 1 <= k < |s| ==> s[k] == s[1..][k - 1];
      !IsWhitespace(s[0]) && NoWhitespace(s[1..])
  }

  /** The first position of `c` in `s`. */
  function IndexOf(s: string, c: char): (r: Option<nat>)
    ensures r.None? ==> c !in s
    ensures r.Some? ==> r.value < |s| && s[r.value] == c && c !in s[..r.value]
  {
    if s == [] then None
    else if s[0] == c then Some(0)
    else
      match IndexOf(s[1..], c)
      case None => None
      case Some(i) =>
        assert s[..i + 1] == [s[0]] + s[1..][..i];
        Some(i + 1)
  }

  /** A `.` that is neither the first nor the last character. */
  predicate HasInteriorDot(domain: string) {
    |domain| >= 3 && '.' in domain[1..|domain| - 1]
  }

  /**
   * isValidEmail (lib/utils/validation.ts:7-10): no white space, exactly one
   * `@`, something before it, and a `.` inside the part after it.
   */
  predicate IsValidEmail(email: string): (ok: bool)
    ensures ok ==> forall k :: 0 <= k < |email| ==> !IsWhitespace(email[k])
    ensures ok ==> exists i :: 0 < i < |email| && email[i] == '@'
    ensures ok ==> forall i, j :: 0 <= i < j < |email| && email[i] == '@' ==> email[j] != '@'
  {
    var at := IndexOf(email, '@');
    && NoWhitespace(email)
    && at.Some? && 0 < at.value
    && '@' !in email[at.value + 1..]
    && HasInteriorDot(email[at.value + 1..])
  }

  /** A run `s[a..b]` of characters none of which is white space or `@`. */
  lemma RunOf(s: string, a: int, b: int)
    requires 0 <= a <= b <= |s|
    requires forall k :: a <= k < b ==> !IsWhitespace(s[k]) && s[k] != '@'
    ensures NonSpaceNonAt(s[a..b])
  {
    assert forall k :: 0 <= k < b - a ==> s[a..b][k] == s[a + k];
  }

  lemma EmailShapeIsRegex(s: string)
    requires IsValidEmail(s)
    ensures EmailRegex(s)
  {
    var i := IndexOf(s, '@').value;
    var d := s[i + 1..];
    var m :| 1 <= m < |d| - 1 && d[1..|d| - 1][m - 1] == '.';
    var j := i + 1 + m;
    assert s[j] == d[m] == '.';
    forall k | i < k < |s| ensures s[k] != '@' {
      assert s[k] == d[k - i - 1];
    }
    forall k | 0 <= k < i ensures s[k] != '@' {
      assert s[k] == s[..i][k];
    }
    RunOf(s, 0, i);
    RunOf(s, i + 1, j);
    RunOf(s, j + 1, |s|);
  }

  /** Read a run back: its characters are neither white space nor `@`. */
  lemma InRun(s: string, a: int, b: int, k: int)
    requires 0 <= a <= k < b <= |s| && NonSpaceNonAt(s[a..b])
    ensures !IsWhitespace(s[k]) && s[k] != '@'
  {
    assert s[k] == s[a..b][k - a];
  }

  /** The three runs, the `@` at `i` and the `.` at `j` make up a valid address. */
  lemma EmailRunsAreShape(s: string, i: int, j: int)
    requires 0 < i && i + 1 < j && j + 1 < |s| && s[i] == '@' && s[j] == '.'
    requires NonSpaceNonAt(s[..i]) && NonSpaceNonAt(s[i + 1..j]) && NonSpaceNonAt(s[j + 1..])
    ensures IsValidEmail(s)
  {
    assert s[..i] == s[0..i] && s[j + 1..] == s[j + 1..|s|];
    // Every position lies in one of the three runs, or holds the `@` or the `.`.
    forall k | 0 <= k < |s| && k != i && k != j ensures !IsWhitespace(s[k]) && s[k] != '@' {
      if k < i { InRun(s, 0, i, k); }
      else if k < j { InRun(s, i + 1, j, k); }
      else { InRun(s, j + 1, |s|, k); }
    }
    assert NoWhitespace(s);
    assert s[i] in s;
    assert IndexOf(s, '@') == Some(i);
    var d := s[i + 1..];
    assert '@' !in d by {
      forall k | 0 <= k < |d| ensures d[k] != '@' { assert d[k] == s[i + 1 + k]; }
    }
    assert d[1..|d| - 1][j - i - 2] == '.';
  }

  lemma EmailRegexIsShape(s: string)
    requires EmailRegex(s)
    ensures IsValidEmail(s)
  {
    var i, j :| && 0 < i && i + 1 < j && j + 1 < |s|
                && s[i] == '@' && s[j] == '.'
                && NonSpaceNonAt(s[..i]) && NonSpaceNonAt(s[i + 1..j]) && NonSpaceNonAt(s[j + 1..]);
    EmailRunsAreShape(s, i, j);
  }

  /** The character-class test accepts exactly the strings the e-mail pattern accepts. */
  lemma EmailMatchesRegex(s: string)
    ensures IsValidEmail(s) <==> EmailRegex(s)
  {
    if IsValidEmail(s) { EmailShapeIsRegex(s); }
    if EmailRegex(s) { EmailRegexIsShape(s); }
  }

  /** A second `@` anywhere rejects the address. */
  lemma EmailRejectsSecondAt(s: string, i: int, j: int)
    requires 0 <= i < j < |s| && s[i] == '@' && s[j] == '@'
    ensures !IsValidEmail(s) && !EmailRegex(s)
  {
    EmailMatchesRegex(s);
    var at := IndexOf(s, '@');
    assert s[i] in s;
    assert s[at.value + 1..][j - at.value - 1] == '@';
  }

  /** White space anywhere rejects the address. */
  lemma EmailRejectsWhitespace(s: string, k: int)
    requires 0 <= k < |s| && IsWhitespace(s[k])
    ensures !IsValidEmail(s) && !EmailRegex(s)
  {
    EmailMatchesRegex(s);
  }

  lemma EmailExamples()
    ensures EmailRegex("a@b.co")
    ensures !EmailRegex("a@b")        // no `.` after the `@`
    ensures !EmailRegex("a b@c.com")  // white space
    ensures !EmailRegex("")
  {
    EmailAcceptsExample();
    EmailRejectsWhitespace("a b@c.com", 1);
    EmailMatchesRegex("a@b");
    var t := "a@b";
    assert IndexOf(t, '@') == Some(1) by { assert t[..1] == "a"; }
  }

  lemma EmailAcceptsExample()
    ensures EmailRegex("a@b.co")
  {
    var s := "a@b.co";
    RunOf(s, 0, 1);
    RunOf(s, 2, 3);
    RunOf(s, 4, 6);
    assert s[1] == '@' && s[3] == '.';
  }

  // ---------------------------------------------------------------------
  // validateCredentials
  // ---------------------------------------------------------------------

  const CredentialsRequired := "Email and password are required"
  const InvalidEmail := "Please provide a valid email address"
  const WeakPassword := "Password must be at least 6 characters long and contain at least one uppercase letter, one lowercase letter, one number, and one underscore"

  /** The `{ error, status }` object validateCredentials returns on failure. */
  datatype Failure = Failure(error: string, status: int)

  /** JavaScript's `!field` for a string field of a request body: absent or empty. */
  predicate Missing(field: Option<string>) {
    field.None? || field.value == ""
  }

  /**
   * validateCredentials: presence of both fields, then the e-mail format,
   * then the password strength; the first check that fails decides the
   * failure, and every failure has status 400.
   */
  function ValidateCredentials(email: Option<string>, password: Option<string>): (failure: Option<Failure>)
    ensures failure.None? <==>
      !Missing(email) && !Missing(password) && EmailRegex(email.value) && PasswordRegex(password.value)
    ensures failure.Some? ==> failure.value.status == 400
    ensures Missing(email) || Missing(password) ==> failure == Some(Failure(CredentialsRequired, 400))
    ensures !Missing(email) && !Missing(password) && !EmailRegex(email.value) ==>
      failure == Some(Failure(InvalidEmail, 400))
    ensures !Missing(email) && !Missing(password) && EmailRegex(email.value) && !PasswordRegex(password.value) ==>
      failure == Some(Failure(WeakPassword, 400))
  {
    if Missing(email) || Missing(password) then Some(Failure(CredentialsRequired, 400))
    else if !IsValidEmail(email.value) then
      EmailMatchesRegex(email.value);
      Some(Failure(InvalidEmail, 400))
    else if !IsValidPassword(password.value) then
      EmailMatchesRegex(email.value);
      PasswordMatchesRegex(password.value);
      Some(Failure(WeakPassword, 400))
    else
      EmailMatchesRegex(email.value);
      PasswordMatchesRegex(password.value);
      None
  }

  /** Credentials that pass validateCredentials. */
  predicate Accepted(email: Option<string>, password: Option<string>) {
    ValidateCredentials(email, password).None?
  }

  /**
   * The text `regex.test(field)` examines: an absent field is converted to
   * "undefined", which the password pattern refuses.
   */
  function RegexInput(field: Option<string>): (text: string)
    ensures field.Some? ==> text == field.value
    ensures field.None? ==> !PasswordRegex(text) && !IsValidPassword(text)
  {
    if field.None? then AbsentPasswordRejected(); "undefined" else field.value
  }

  /** The text "undefined" has no upper-case letter, digit or underscore. */
  lemma AbsentPasswordRejected()
    ensures !PasswordRegex("undefined") && !IsValidPassword("undefined")
  {
    LookaheadFails("undefined", Uppercase);
    PasswordMatchesRegex("undefined");
  }
}
