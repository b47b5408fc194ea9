/**
 * The registration page (`Register`): the password rules and the order of the checks
 * before the register request is sent.
 */
module RegisterPage {
  import opened Wrappers
  import opened Text
  import opened Messages

  const MinLength := 8

  predicate IsLower(c: char) { 'a' <= c <= 'z' }
  predicate IsUpper(c: char) { 'A' <= c <= 'Z' }
  predicate IsDigit(c: char) { '0' <= c <= '9' }

  /** The characters a regular-expression `.` does not match. */
  predicate IsLineTerminator(c: char)
  {
    c == '\n' || c == '\r' || c == '\U{2028}' || c == '\U{2029}'
  }

  /**
   * A left-to-right scan deciding `^(?=.*[a-z])(?=.*[A-Z])(?=.*\d).+$` from position `i`,
   * with the letters and digits seen so far in the flags.
   */
  function Scan(p: string, i: nat, lower: bool, upper: bool, digit: bool): bool
    requires i <= |p|
    decreases |p| - i
  {
    if i == |p| then |p| >= 1 && lower && upper && digit
    else if IsLineTerminator(p[i]) then false
    else Scan(p, i + 1, lower || IsLower(p[i]), upper || IsUpper(p[i]), digit || IsDigit(p[i]))
  }

  /** `PASSWORD_REGEX.test(p)`. */
  predicate MatchesPattern(p: string)
  {
    Scan(p, 0, false, false, false)
  }

  /** What the pattern asks for: one line, and a lower-case letter, an upper-case letter and a digit somewhere. */
  ghost predicate HasAllClasses(p: string)
  {
    && |p| >= 1
    && (forall k :: 0 <= k < |p| ==> !IsLineTerminator(p[k]))
    && (exists k :: 0 <= k < |p| && IsLower(p[k]))
    && (exists k :: 0 <= k < |p| && IsUpper(p[k]))
    && (exists k :: 0 <= k < |p| && IsDigit(p[k]))
  }

  lemma {:induction false} ScanMeaning(p: string, i: nat, lower: bool, upper: bool, digit: bool)
    requires i <= |p|
    decreases |p| - i
    ensures Scan(p, i, lower, upper, digit) <==>
      && |p| >= 1
      && (forall k :: i <= k < |p| ==> !IsLineTerminator(p[k]))
      && (lower || exists k :: i <= k < |p| && IsLower(p[k]))
      && (upper || exists k :: i <= k < |p| && IsUpper(p[k]))
      && (digit || exists k :: i <= k < |p| && IsDigit(p[k]))
  {
    if i < |p| {
      ScanMeaning(p, i + 1, lower || IsLower(p[i]), upper || IsUpper(p[i]), digit || IsDigit(p[i]));
      if IsLineTerminator(p[i]) {
        assert !(forall k :: i <= k < |p| ==> !IsLineTerminator(p[k]));
      } else {
        if exists k :: i <= k < |p| && IsLower(p[k]) {
          var k :| i <= k < |p| && IsLower(p[k]);
          assert IsLower(p[i]) || (i + 1 <= k < |p| && IsLower(p[k]));
        }
        if exists k :: i <= k < |p| && IsUpper(p[k]) {
          var k :| i <= k < |p| && IsUpper(p[k]);
          assert IsUpper(p[i]) || (i + 1 <= k < |p| && IsUpper(p[k]));
        }
        if exists k :: i <= k < |p| && IsDigit(p[k]) {
          var k :| i <= k < |p| && IsDigit(p[k]);
          assert IsDigit(p[i]) || (i + 1 <= k < |p| && IsDigit(p[k]));
        }
      }
    }
  }

  /** The scan decides exactly the pattern's requirements. */
  lemma PatternMeaning(p: string)
    ensures MatchesPattern(p) <==> HasAllClasses(p)
  {
    ScanMeaning(p, 0, false, false, false);
  }

  const TooShort := "Password must be at least " + Show(MinLength) + " characters long."
  const TooWeak := "Password must include at least one uppercase letter, one lowercase letter, and one number."

  /** `validatePassword`: the length rule first, then the pattern; `None` for a valid password. */
  function ValidatePassword(p: string): (r: Option<string>)
    ensures |p| < MinLength ==> r == Some(TooShort)
    ensures |p| >= MinLength && !HasAllClasses(p) ==> r == Some(TooWeak)
    ensures r.None? <==> |p| >= MinLength && HasAllClasses(p)
  {
    PatternMeaning(p);
    if |p| < MinLength then Some(TooShort)
    else if !MatchesPattern(p) then Some(TooWeak)
    else None
  }

  /** The form's inputs. */
  datatype RegisterForm = RegisterForm(name: string, email: string, mobile: string, password: string, confirmPassword: string)

  /** The body sent to the server: the confirmation is not part of it. */
  datatype RegisterRequest = RegisterRequest(name: string, email: string, mobile: string, password: string)

  /** What the client's `register` helper reports back. */
  datatype Outcome = Outcome(ok: bool, message: string)

  const Mismatch := "Passwords do not match."
  const RegisterFailed := "Registration failed. Please try again."

  class RegisterPageState {
    var errorMsg: string

    constructor ()
      ensures errorMsg == ""
    {
      errorMsg := "";
    }

    /**
     * `handle`: a mismatched confirmation is reported first and stops everything; then
     * the password rules; only then is the request sent, with name, email, mobile and
     * password. A failure shows the helper's message or the default; a success welcomes
     * the user and moves to `/dashboard`.
     */
    method Handle(form: RegisterForm, register: RegisterRequest -> Outcome)
      returns (sent: Option<RegisterRequest>, notice: Option<Notice>, nav: Option<string>)
      modifies this
      ensures form.password != form.confirmPassword ==>
        sent.None? && errorMsg == Mismatch && notice.None? && nav.None?
      ensures form.password == form.confirmPassword && ValidatePassword(form.password).Some? ==>
        sent.None? && errorMsg == ValidatePassword(form.password).value && notice.None? && nav.None?
      ensures sent.Some? <==> form.password == form.confirmPassword && ValidatePassword(form.password).None?
      ensures sent.Some? ==> sent.value == RegisterRequest(form.name, form.email, form.mobile, form.password)
      ensures sent.Some? && register(sent.value).ok ==>
        && errorMsg == "" && nav == Some("/dashboard")
        && notice == Some(Notice("Registration successful! Welcome to the Sweet Shop.", Success))
      ensures sent.Some? && !register(sent.value).ok ==>
        && errorMsg != "" && notice.None? && nav.None?
        && (register(sent.value).message != "" ==> errorMsg == register(sent.value).message)
        && (register(sent.value).message == "" ==> errorMsg == RegisterFailed)
    {
      errorMsg := "";
      if form.password != form.confirmPassword {
        errorMsg := Mismatch;
        return None, None, None;
      }
      var passwordError := ValidatePassword(form.password);
      if passwordError.Some? {
        errorMsg := passwordError.value;
        return None, None, None;
      }
      var request := RegisterRequest(form.name, form.email, form.mobile, form.password);
      var res := register(request);
      sent := Some(request);
      if res.ok {
        notice, nav := Some(Notice("Registration successful! Welcome to the Sweet Shop.", Success)), Some("/dashboard");
      } else {
        errorMsg := if res.message != "" then res.message else RegisterFailed;
        notice, nav := None, None;
      }
    }
  }
}
