/** The registration page: its field rules and its submit handler. */
module Register {
  import opened Wrappers
  import opened Text
  import opened AuthApi

  datatype RegisterForm = RegisterForm(name: string, email: string, password: string, confirmPassword: string)

  const MinPasswordLength: nat := 6

  const NameRequired := "Name is required"
  const EmailRequired := "Email is required"
  const EmailInvalid := "Invalid email format"
  const PasswordRequired := "Password is required"
  const PasswordTooShort := "Password must be at least 6 characters"
  const PasswordMismatch := "Passwords do not match"
  const RegistrationFailed := "Registration failed"
  const RegistrationRetry := "Registration failed. Please try again."
  const LoginRoute := "/login"

  /**
   * The strings `/^\S+@\S+\.\S+$/` accepts: no white space at all, an `@` with at least one
   * character before it, and after it a `.` with at least one character on each side.
   */
  ghost predicate EmailShape(s: string) {
    NoSpace(s) && exists i, j :: SplitsAt(s, i, j)
  }

  /** `s[i]` is an `@` and `s[j]` a `.`, with non-empty text before, between and after them. */
  predicate SplitsAt(s: string, i: int, j: int) {
    1 <= i && i + 1 < j < |s| - 1 && s[i] == '@' && s[j] == '.'
  }

  /** The regular-expression test, decided from the leftmost `@` after the first character. */
  function MatchesEmailPattern(s: string): bool {
    |s| > 0 && NoSpace(s) && AtIndex(s).Some? && AtIndex(s).value + 2 < |s| - 1
    && '.' in s[AtIndex(s).value + 2..|s| - 1]
  }

  /** The index of the leftmost `@` after the first character. */
  function AtIndex(s: string): (r: Option<nat>)
    requires |s| > 0
    ensures r.Some? ==> 1 <= r.value < |s| && s[r.value] == '@'
    ensures r.Some? ==> forall i :: 1 <= i < r.value ==> s[i] != '@'
    ensures r.None? ==> forall i :: 1 <= i < |s| ==> s[i] != '@'
  {
    var at := IndexOf(s[1..], "@");
    if at.None? then
      assert forall i :: 1 <= i < |s| ==> s[i] != '@' by {
        forall i | 1 <= i < |s| ensures s[i] != '@' {
          CharOccursAt(s[1..], '@', i - 1);
        }
      }
      None
    else
      assert s[1..][at.value..at.value + 1] == "@";
      assert forall i :: 1 <= i < at.value + 1 ==> s[i] != '@' by {
        forall i | 1 <= i < at.value + 1 ensures s[i] != '@' {
          CharOccursAt(s[1..], '@', i - 1);
        }
      }
      Some(at.value + 1)
  }

  /** The decision procedure accepts exactly the strings of the pattern's shape. */
  lemma MatchesEmailPatternCorrect(s: string)
    ensures MatchesEmailPattern(s) <==> EmailShape(s)
  {
    if MatchesEmailPattern(s) {
      var i := AtIndex(s).value;
      var t := s[i + 2..|s| - 1];
      var k :| 0 <= k < |t| && t[k] == '.';
      assert SplitsAt(s, i, i + 2 + k);
    }
    if EmailShape(s) {
      var i, j :| SplitsAt(s, i, j);
      var a := AtIndex(s).value;
      assert a <= i;
      assert s[a + 2..|s| - 1][j - (a + 2)] == '.';
    }
  }

  /** An empty or all-white-space address cannot have the shape. */
  lemma BlankIsNotEmail(s: string)
    requires Blank(s)
    ensures !EmailShape(s)
  {
    if |s| > 0 { assert IsSpace(s[0]); }
  }

  /** The form the page accepts: every rule holds. */
  ghost predicate Acceptable(f: RegisterForm) {
    !Blank(f.name) && EmailShape(f.email) && Utf16Length(f.password) >= MinPasswordLength
    && f.password == f.confirmPassword
  }

  /** The `name` rule: required, white space alone does not count. */
  function NameError(name: string): (e: Option<string>)
    ensures e.Some? <==> Blank(name)
    ensures e.Some? ==> e.value == NameRequired
  {
    if Trim(name) == "" then Some(NameRequired) else None
  }

  /** The `email` rule: required first, then the pattern, tested on the untrimmed text. */
  function EmailError(email: string): (e: Option<string>)
    ensures e.Some? <==> !EmailShape(email)
    ensures e.Some? ==> e.value == if Blank(email) then EmailRequired else EmailInvalid
  {
    MatchesEmailPatternCorrect(email);
    if Trim(email) == "" then BlankIsNotEmail(email); Some(EmailRequired)
    else if !MatchesEmailPattern(email) then Some(EmailInvalid)
    else None
  }

  /** The `password` rule: required first, then at least six UTF-16 code units. */
  function PasswordError(password: string): (e: Option<string>)
    ensures e.Some? <==> Utf16Length(password) < MinPasswordLength
    ensures e.Some? ==> e.value == if password == "" then PasswordRequired else PasswordTooShort
  {
    if password == "" then Some(PasswordRequired)
    else if Utf16Length(password) < MinPasswordLength then Some(PasswordTooShort)
    else None
  }

  /** The `confirmPassword` rule: the two password fields are the same text (both empty included). */
  function ConfirmError(password: string, confirmPassword: string): (e: Option<string>)
    ensures e.Some? <==> password != confirmPassword
    ensures e.Some? ==> e.value == PasswordMismatch
  {
    if password != confirmPassword then Some(PasswordMismatch) else None
  }

  /** The rule `validateForm` applies to the field behind `slot`; None for the slots it does not fill. */
  function Rule(f: RegisterForm, slot: Slot): Option<string> {
    match slot
    case NameSlot => NameError(f.name)
    case EmailSlot => EmailError(f.email)
    case PasswordSlot => PasswordError(f.password)
    case ConfirmPasswordSlot => ConfirmError(f.password, f.confirmPassword)
    case _ => None
  }

  /** `validateForm`'s `newErrors`: the four rules are independent, each adding its own field's entry when it fails. */
  function FieldErrors(f: RegisterForm): (errs: Errors)
    ensures errs.Keys <= {NameSlot, EmailSlot, PasswordSlot, ConfirmPasswordSlot}
  {
    map slot | slot in {NameSlot, EmailSlot, PasswordSlot, ConfirmPasswordSlot} && Rule(f, slot).Some? :: Rule(f, slot).value
  }

  /** The error map holds exactly one entry per failed rule, with that rule's message. */
  lemma FieldErrorsEntries(f: RegisterForm)
    ensures var errs := FieldErrors(f);
            && (NameSlot in errs <==> Blank(f.name))
            && (NameSlot in errs ==> errs[NameSlot] == NameRequired)
            && (EmailSlot in errs <==> !EmailShape(f.email))
            && (EmailSlot in errs ==> errs[EmailSlot] == if Blank(f.email) then EmailRequired else EmailInvalid)
            && (PasswordSlot in errs <==> Utf16Length(f.password) < MinPasswordLength)
            && (PasswordSlot in errs ==> errs[PasswordSlot] == if f.password == "" then PasswordRequired else PasswordTooShort)
            && (ConfirmPasswordSlot in errs <==> f.password != f.confirmPassword)
            && (ConfirmPasswordSlot in errs ==> errs[ConfirmPasswordSlot] == PasswordMismatch)
  {
    RuleEntry(f, NameSlot);
    RuleEntry(f, EmailSlot);
    RuleEntry(f, PasswordSlot);
    RuleEntry(f, ConfirmPasswordSlot);
  }

  lemma RuleEntry(f: RegisterForm, slot: Slot)
    requires slot in {NameSlot, EmailSlot, PasswordSlot, ConfirmPasswordSlot}
    ensures slot in FieldErrors(f) <==> Rule(f, slot).Some?
    ensures slot in FieldErrors(f) ==> FieldErrors(f)[slot] == Rule(f, slot).value
  {
  }

  /** `validateForm` returns true exactly for the forms that satisfy every rule. */
  lemma NoErrorsIffAcceptable(f: RegisterForm)
    ensures FieldErrors(f) == map[] <==> Acceptable(f)
  {
    var errs := FieldErrors(f);
    FieldErrorsEntries(f);
    if errs == map[] {
      assert NameSlot !in errs && EmailSlot !in errs && PasswordSlot !in errs && ConfirmPasswordSlot !in errs;
    } else {
      var k :| k in errs;
      assert k == NameSlot || k == EmailSlot || k == PasswordSlot || k == ConfirmPasswordSlot;
    }
  }

  class RegisterPage {
    var form: RegisterForm
    var errors: Errors
    var isLoading: bool
    /** The requests issued so far, oldest first. */
    var requests: seq<Request>
    /** The last `router.push` target. */
    var navigation: Option<string>

    constructor ()
      ensures form == RegisterForm("", "", "", "") && errors == map[] && !isLoading
      ensures requests == [] && navigation == None
    {
      form := RegisterForm("", "", "", "");
      errors := map[];
      isLoading := false;
      requests := [];
      navigation := None;
    }

    /** `validateForm`: installs a fresh error map (dropping any earlier `submit` entry) and reports whether it is empty. */
    method ValidateForm() returns (valid: bool)
      modifies this`errors
      ensures errors == FieldErrors(form)
      ensures valid <==> Acceptable(form)
      ensures valid <==> errors == map[]
    {
      var newErrors := FieldErrors(form);
      errors := newErrors;
      valid := |newErrors.Keys| == 0;
      NoErrorsIffAcceptable(form);
    }

    /** `handleSubmit` up to its `await`: validate, then raise the busy flag and send the request. */
    method Submit() returns (sent: bool)
      modifies this`errors, this`isLoading, this`requests
      ensures errors == FieldErrors(form)
      ensures sent <==> Acceptable(form)
      ensures sent ==> errors == map[]
      ensures sent ==> isLoading && requests == old(requests) + [RegisterRequest(form.name, form.email, form.password)]
      ensures sent ==> Endpoint(requests[|requests| - 1]) == "/api/auth/register"
      ensures !sent ==> isLoading == old(isLoading) && requests == old(requests)
    {
      sent := ValidateForm();
      if !sent {
        return;
      }
      isLoading := true;
      requests := requests + [RegisterRequest(form.name, form.email, form.password)];
    }

    /**
     * `handleSubmit` after its `await`: navigate to the login page on success, otherwise merge a
     * `submit` entry into whatever errors are shown now; the busy flag is cleared either way.
     */
    method Settle(response: Response)
      modifies this`errors, this`isLoading, this`navigation
      ensures !isLoading
      ensures var failure := SubmitFailure(response, RegistrationFailed, RegistrationRetry);
              if failure.None? then navigation == Some(LoginRoute) && errors == old(errors)
              else navigation == old(navigation) && errors == old(errors)[SubmitSlot := failure.value]
    {
      var failure := SubmitFailure(response, RegistrationFailed, RegistrationRetry);
      if failure.None? {
        navigation := Some(LoginRoute);
      } else {
        errors := errors[SubmitSlot := failure.value];
      }
      isLoading := false;
    }

    /** The whole `handleSubmit` when nothing else happens while the request is outstanding. */
    method HandleSubmit(response: Response) returns (sent: bool)
      modifies this`errors, this`isLoading, this`requests, this`navigation
      ensures sent <==> Acceptable(form)
      ensures !sent ==> errors == FieldErrors(form) && isLoading == old(isLoading)
                        && requests == old(requests) && navigation == old(navigation)
      ensures sent ==> !isLoading && requests == old(requests) + [RegisterRequest(form.name, form.email, form.password)]
      ensures sent ==> var failure := SubmitFailure(response, RegistrationFailed, RegistrationRetry);
                       if failure.None? then navigation == Some(LoginRoute) && errors == map[]
                       else navigation == old(navigation) && errors == map[SubmitSlot := failure.value]
    {
      sent := Submit();
      if sent {
        Settle(response);
      }
    }
  }
}
