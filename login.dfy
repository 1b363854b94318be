/** The sign-in page: the e-mail/password form and the Google sign-in callback. */
module Login {
  import opened Wrappers
  import opened Text
  import opened AuthApi
  import opened SessionJson
  import opened CredentialStore

  datatype LoginForm = LoginForm(email: string, password: string)

  const EmailRequired := "Email is required"
  const PasswordRequired := "Password is required"
  const LoginFailed := "Login failed"
  const LoginRetry := "Login failed. Please try again."
  const GoogleFailed := "Failed to sign in with Google"
  const MainRoute := "/main"

  /** The e-mail rule: required, white space alone does not count; there is no format check here. */
  function EmailError(email: string): (e: Option<string>)
    ensures e.Some? <==> Blank(email)
    ensures e.Some? ==> e.value == EmailRequired
  {
    if Trim(email) == "" then Some(EmailRequired) else None
  }

  /** The password rule: only the empty string fails; there is no length check here. */
  function PasswordError(password: string): (e: Option<string>)
    ensures e.Some? <==> password == ""
    ensures e.Some? ==> e.value == PasswordRequired
  {
    if password == "" then Some(PasswordRequired) else None
  }

  function Rule(f: LoginForm, slot: Slot): Option<string> {
    match slot
    case EmailSlot => EmailError(f.email)
    case PasswordSlot => PasswordError(f.password)
    case _ => None
  }

  /** `validateForm`'s `newErrors`: an entry for each of the two rules that fails. */
  function FieldErrors(f: LoginForm): (errs: Errors)
    ensures errs.Keys <= {EmailSlot, PasswordSlot}
  {
    map slot | slot in {EmailSlot, PasswordSlot} && Rule(f, slot).Some? :: Rule(f, slot).value
  }

  lemma RuleEntry(f: LoginForm, slot: Slot)
    requires slot in {EmailSlot, PasswordSlot}
    ensures slot in FieldErrors(f) <==> Rule(f, slot).Some?
    ensures slot in FieldErrors(f) ==> FieldErrors(f)[slot] == Rule(f, slot).value
  {
  }

  /** One entry per failed rule, with its message; the map is empty exactly when both rules hold. */
  lemma FieldErrorsEntries(f: LoginForm)
    ensures var errs := FieldErrors(f);
            && (EmailSlot in errs <==> Blank(f.email))
            && (EmailSlot in errs ==> errs[EmailSlot] == EmailRequired)
            && (PasswordSlot in errs <==> f.password == "")
            && (PasswordSlot in errs ==> errs[PasswordSlot] == PasswordRequired)
            && (errs == map[] <==> !Blank(f.email) && f.password != "")
  {
    RuleEntry(f, EmailSlot);
    RuleEntry(f, PasswordSlot);
    var errs := FieldErrors(f);
    assert errs == map[] <==> EmailSlot !in errs && PasswordSlot !in errs;
  }

  /** The claims of the Google ID token's payload that the page reads. */
  datatype Claims = Claims(email: Option<string>, name: Option<string>, picture: Option<string>)

  /** The text of `s` before its first `c` (all of `s` when there is none). */
  function UpTo(s: string, c: char): (r: string)
    ensures |r| <= |s| && r == s[..|r|] && c !in r
    ensures |r| < |s| ==> s[|r|] == c
  {
    if s == [] || s[0] == c then [] else [s[0]] + UpTo(s[1..], c)
  }

  /**
   * `credential.split('.')[1]`: the text between the token's first and second dot, or after its
   * only dot; None (`undefined`) when the token has no dot.
   */
  function PayloadSegment(token: string): (r: Option<string>)
    ensures r.None? <==> '.' !in token
    ensures r.Some? ==> '.' !in r.value
    ensures r.Some? ==> exists i :: 0 <= i < |token| && token[i] == '.' && '.' !in token[..i]
                                    && Segment(token[i + 1..], r.value)
  {
    var head := UpTo(token, '.');
    if |head| == |token| then
      assert head == token;
      None
    else
      var seg := UpTo(token[|head| + 1..], '.');
      assert Segment(token[|head| + 1..], seg);
      Some(seg)
  }

  /** `seg` is the text of `s` before the first dot, as `split('.')` cuts it. */
  ghost predicate Segment(s: string, seg: string) {
    |seg| <= |s| && s[..|seg|] == seg && '.' !in seg && (|seg| == |s| || s[|seg|] == '.')
  }

  /**
   * `JSON.parse(atob(credential.split('.')[1]))`: the base64 and JSON decoders are the parameter
   * `decodePayload`, None where they throw. There is no signature check; the page does none.
   * A token without a dot throws too: `atob(undefined)` decodes the nine letters "undefined",
   * which is not valid base64.
   */
  function DecodeClaims(token: string, decodePayload: string -> Option<Claims>): (r: Option<Claims>)
    ensures '.' !in token ==> r.None?
    ensures '.' in token ==> r == decodePayload(PayloadSegment(token).value)
  {
    var segment := PayloadSegment(token);
    if segment.None? then None else decodePayload(segment.value)
  }

  /** `payload.picture?.replace('=s96-c', '=s100-c')`. */
  function StoredPicture(picture: Option<string>): (r: Option<string>)
    ensures r.Some? <==> picture.Some?
    ensures picture.Some? && !Contains(picture.value, "=s96-c") ==> r == picture
    ensures picture.Some? ==> forall i :: FirstOccurrence(picture.value, "=s96-c", i) ==>
              r.value == picture.value[..i] + "=s100-c" + picture.value[i + 6..]
  {
    if picture.None? then None else Some(ReplaceFirst(picture.value, "=s96-c", "=s100-c"))
  }

  /** The record the Google callback stores: exactly the three claims, the picture resized. */
  function StoredRecord(c: Claims): (r: SessionRecord)
    ensures r.email == c.email && r.name == c.name && r.picture == StoredPicture(c.picture)
  {
    SessionRecord(c.email, c.name, StoredPicture(c.picture))
  }

  class LoginPage {
    var form: LoginForm
    var errors: Errors
    var isLoading: bool
    var isGoogleLoading: bool
    /** The requests issued so far, oldest first. */
    var requests: seq<Request>
    /** The last `router.push` target. */
    var navigation: Option<string>
    const store: Storage

    constructor (store: Storage)
      ensures this.store == store
      ensures form == LoginForm("", "") && errors == map[] && !isLoading && isGoogleLoading
      ensures requests == [] && navigation == None
    {
      this.store := store;
      form := LoginForm("", "");
      errors := map[];
      isLoading := false;
      isGoogleLoading := true;
      requests := [];
      navigation := None;
    }

    /** The script's `onload` handler: the button is ready only when `window.google` exists. */
    method InitializeGoogleSignIn(googleAvailable: bool)
      modifies this`isGoogleLoading
      ensures isGoogleLoading == (old(isGoogleLoading) && !googleAvailable)
    {
      if googleAvailable {
        isGoogleLoading := false;
      }
    }

    /** `validateForm`: installs a fresh error map (dropping earlier `submit` and `google` entries) and reports whether it is empty. */
    method ValidateForm() returns (valid: bool)
      modifies this`errors
      ensures errors == FieldErrors(form)
      ensures valid <==> !Blank(form.email) && form.password != ""
      ensures valid <==> errors == map[]
    {
      var newErrors := FieldErrors(form);
      errors := newErrors;
      valid := |newErrors.Keys| == 0;
      FieldErrorsEntries(form);
    }

    /** `handleSubmit` up to its `await`: validate, then raise the busy flag and send the request. */
    method Submit() returns (sent: bool)
      modifies this`errors, this`isLoading, this`requests
      ensures errors == FieldErrors(form)
      ensures sent <==> !Blank(form.email) && form.password != ""
      ensures sent ==> errors == map[]
      ensures sent ==> isLoading && requests == old(requests) + [LoginRequest(form.email, form.password)]
      ensures sent ==> Endpoint(requests[|requests| - 1]) == "/api/auth/login"
      ensures !sent ==> isLoading == old(isLoading) && requests == old(requests)
    {
      sent := ValidateForm();
      if !sent {
        return;
      }
      isLoading := true;
      requests := requests + [LoginRequest(form.email, form.password)];
    }

    /**
     * `handleSubmit` after its `await`: go to the main page on success, otherwise merge a `submit`
     * entry into whatever errors are shown now; the busy flag is cleared either way. The stored
     * credential is not touched.
     */
    method Settle(response: Response)
      modifies this`errors, this`isLoading, this`navigation
      ensures !isLoading
      ensures var failure := SubmitFailure(response, LoginFailed, LoginRetry);
              if failure.None? then navigation == Some(MainRoute) && errors == old(errors)
              else navigation == old(navigation) && errors == old(errors)[SubmitSlot := failure.value]
    {
      var failure := SubmitFailure(response, LoginFailed, LoginRetry);
      if failure.None? {
        navigation := Some(MainRoute);
      } else {
        errors := errors[SubmitSlot := failure.value];
      }
      isLoading := false;
    }

    /** The whole `handleSubmit` when nothing else happens while the request is outstanding. */
    method HandleSubmit(response: Response) returns (sent: bool)
      modifies this`errors, this`isLoading, this`requests, this`navigation
      ensures sent <==> !Blank(form.email) && form.password != ""
      ensures !sent ==> errors == FieldErrors(form) && isLoading == old(isLoading)
                        && requests == old(requests) && navigation == old(navigation)
      ensures sent ==> !isLoading && requests == old(requests) + [LoginRequest(form.email, form.password)]
      ensures sent ==> var failure := SubmitFailure(response, LoginFailed, LoginRetry);
                       if failure.None? then navigation == Some(MainRoute) && errors == map[]
                       else navigation == old(navigation) && errors == map[SubmitSlot := failure.value]
    {
      sent := Submit();
      if sent {
        Settle(response);
      }
    }

    /**
     * The Google callback up to its `await`: decode the token's claims, store the record, then send
     * the token to the exchange endpoint. A decoding failure goes straight to the `catch` block,
     * which replaces the errors and removes the key, without any request.
     */
    method BeginGoogleSignIn(credential: string, decodePayload: string -> Option<Claims>) returns (sent: bool)
      modifies this`errors, this`requests, store
      ensures var claims := DecodeClaims(credential, decodePayload);
              sent <==> claims.Some?
      ensures var claims := DecodeClaims(credential, decodePayload);
              sent ==> store.items == old(store.items)[GoogleCredentialKey := Serialize(StoredRecord(claims.value))]
                       && requests == old(requests) + [GoogleExchange(credential)] && errors == old(errors)
      ensures !sent ==> store.items == old(store.items) - {GoogleCredentialKey}
                        && requests == old(requests) && errors == map[GoogleSlot := GoogleFailed]
      ensures sent ==> Endpoint(requests[|requests| - 1]) == "/api/auth/google"
    {
      var claims := DecodeClaims(credential, decodePayload);
      if claims.None? {
        errors := map[GoogleSlot := GoogleFailed];
        store.RemoveItem(GoogleCredentialKey);
        return false;
      }
      store.SetItem(GoogleCredentialKey, Serialize(StoredRecord(claims.value)));
      requests := requests + [GoogleExchange(credential)];
      sent := true;
    }

    /**
     * The Google callback after its `await`: an ok reply goes to the main page and keeps the
     * record; a non-ok reply or a failed fetch replaces the errors and removes the key.
     */
    method FinishGoogleSignIn(exchange: Exchange)
      modifies this`errors, this`navigation, store
      ensures exchange == ExchangeReplied(true) ==>
                navigation == Some(MainRoute) && errors == old(errors) && store.items == old(store.items)
      ensures exchange != ExchangeReplied(true) ==>
                navigation == old(navigation) && errors == map[GoogleSlot := GoogleFailed]
                && store.items == old(store.items) - {GoogleCredentialKey}
    {
      if exchange == ExchangeReplied(true) {
        navigation := Some(MainRoute);
      } else {
        errors := map[GoogleSlot := GoogleFailed];
        store.RemoveItem(GoogleCredentialKey);
      }
    }

    /**
     * The whole Google callback when nothing else happens while the exchange is outstanding. On
     * every failure the key ends up absent, whatever it held before the sign-in started.
     */
    method HandleGoogleSignIn(credential: string, decodePayload: string -> Option<Claims>, exchange: Exchange)
      modifies this`errors, this`requests, this`navigation, store
      ensures var claims := DecodeClaims(credential, decodePayload);
              if claims.Some? && exchange == ExchangeReplied(true) then
                store.items == old(store.items)[GoogleCredentialKey := Serialize(StoredRecord(claims.value))]
                && navigation == Some(MainRoute) && errors == old(errors)
              else
                store.items == old(store.items) - {GoogleCredentialKey}
                && navigation == old(navigation) && errors == map[GoogleSlot := GoogleFailed]
      ensures requests == old(requests) + if DecodeClaims(credential, decodePayload).Some? then [GoogleExchange(credential)] else []
    {
      var sent := BeginGoogleSignIn(credential, decodePayload);
      if sent {
        SetThenRemove(old(store.items), GoogleCredentialKey, Serialize(StoredRecord(DecodeClaims(credential, decodePayload).value)));
        FinishGoogleSignIn(exchange);
      }
    }
  }
}
