/**
 * Whole sessions across the three components, on a fresh browser store: what the navbar shows
 * after the sign-in page has run, after a logout, and after the record changes underneath it.
 */
module Session {
  import opened Wrappers
  import opened AuthApi
  import opened SessionJson
  import opened CredentialStore
  import Register
  import Login
  import opened Navbar

  /** A record the navbar mounts from reads back exactly as it was written. */
  method MountWith(store: Storage, rec: SessionRecord) returns (nav: Navigation)
    modifies store
    ensures fresh(nav) && nav.store == store
    ensures store.items == old(store.items)[GoogleCredentialKey := Serialize(rec)]
    ensures nav.user == Some(DisplayUserOf(rec)) && !nav.imageError && !nav.showDropdown
  {
    store.SetItem(GoogleCredentialKey, Serialize(rec));
    nav := new Navigation(store);
    ParseSerialize(rec);
    nav.CheckUserAuth();
  }

  /**
   * A Google sign-in whose exchange succeeds leaves the record in the store, and a navbar mounted
   * afterwards shows the token's email and name with the picture resized twice: to `=s100-c` by
   * the sign-in page, then by the navbar's own rewrite.
   */
  method SignInThenShow(credential: string, decodePayload: string -> Option<Login.Claims>, claims: Login.Claims)
      returns (shown: Option<DisplayUser>, target: Option<string>)
    requires Login.DecodeClaims(credential, decodePayload) == Some(claims)
    ensures shown == Some(DisplayUser(claims.email, claims.name, ProfileImage(Login.StoredPicture(claims.picture))))
    ensures target == Some(Login.MainRoute)
  {
    var store := new Storage();
    var page := new Login.LoginPage(store);
    page.HandleGoogleSignIn(credential, decodePayload, ExchangeReplied(true));
    target := page.navigation;
    var nav := new Navigation(store);
    ParseSerialize(Login.StoredRecord(claims));
    nav.CheckUserAuth();
    shown := nav.user;
  }

  /** A Google sign-in that fails at any step, on a store that held a previous session's record. */
  method FailedSignIn(previous: SessionRecord, credential: string,
                      decodePayload: string -> Option<Login.Claims>, exchange: Exchange) returns (store: Storage)
    requires Login.DecodeClaims(credential, decodePayload).None? || exchange != ExchangeReplied(true)
    ensures fresh(store) && GoogleCredentialKey !in store.items
  {
    store := new Storage();
    store.SetItem(GoogleCredentialKey, Serialize(previous));
    var page := new Login.LoginPage(store);
    page.HandleGoogleSignIn(credential, decodePayload, exchange);
  }

  /**
   * A Google sign-in that fails at any step removes the key, even one a previous session left,
   * so a navbar mounted afterwards shows nobody.
   */
  method FailedSignInShowsNobody(previous: SessionRecord, credential: string,
                                 decodePayload: string -> Option<Login.Claims>, exchange: Exchange)
      returns (shown: Option<DisplayUser>, stored: Option<string>)
    requires Login.DecodeClaims(credential, decodePayload).None? || exchange != ExchangeReplied(true)
    ensures shown == None && stored == None
  {
    var store := FailedSignIn(previous, credential, decodePayload, exchange);
    stored := store.GetItem(GoogleCredentialKey);
    var nav := new Navigation(store);
    nav.CheckUserAuth();
    shown := nav.user;
  }

  /** Logging out ends the session: the user is gone, and a later storage event does not bring it back. */
  method LogoutEndsSession(rec: SessionRecord)
      returns (before: Option<DisplayUser>, after: Option<DisplayUser>, stored: Option<string>, target: Option<string>)
    ensures before == Some(DisplayUserOf(rec))
    ensures after == None && stored == None && target == Some(HomeRoute)
  {
    var store := new Storage();
    var nav := MountWith(store, rec);
    before := nav.user;
    nav.HandleLogout();
    nav.CheckUserAuth();
    after := nav.user;
    stored := store.GetItem(GoogleCredentialKey);
    target := nav.location;
  }

  /**
   * The record removed by another tab: the storage event runs `checkUserAuth`, which never clears
   * the user, so the navbar keeps showing a user whose session has ended.
   */
  method RemovedElsewhereStillShown(rec: SessionRecord) returns (shown: Option<DisplayUser>, stored: Option<string>)
    ensures shown == Some(DisplayUserOf(rec)) && stored == None
  {
    var store := new Storage();
    var nav := MountWith(store, rec);
    store.RemoveItem(GoogleCredentialKey);
    nav.CheckUserAuth();
    shown := nav.user;
    stored := store.GetItem(GoogleCredentialKey);
  }

  /**
   * A picture that fails to load falls back to the initial, and the next successful
   * `checkUserAuth` tries the photo again.
   */
  method ImageFallbackAndRetry(rec: SessionRecord) returns (first: Avatar, failed: Avatar, again: Avatar)
    requires rec.picture.Some? && rec.picture.value != ""
    ensures first == Photo(ProfileImage(rec.picture).value)
    ensures failed == Initial(AvatarInitial(rec.name))
    ensures again == first
  {
    var store := new Storage();
    var nav := MountWith(store, rec);
    first := AvatarFor(nav.user, nav.imageError);
    var shown := nav.user.value;
    nav.ImageLoadFailed();
    failed := AvatarFor(nav.user, nav.imageError);
    assert store.GetItem(GoogleCredentialKey) == Some(Serialize(rec));
    ParseSerialize(rec);
    nav.CheckUserAuth();
    assert nav.user == Some(shown) && !nav.imageError;
    again := AvatarFor(nav.user, nav.imageError);
  }

  /**
   * A rejected registration shows only the submit error; submitting the same form again starts
   * from a fresh error map, so after a successful retry no error is left and the page goes to login.
   */
  method RegisterRetry(form: Register.RegisterForm, rejected: Response, accepted: Response)
      returns (afterReject: Errors, afterRetry: Errors, target: Option<string>, busy: bool)
    requires Register.Acceptable(form)
    requires SubmitFailure(rejected, Register.RegistrationFailed, Register.RegistrationRetry).Some?
    requires SubmitFailure(accepted, Register.RegistrationFailed, Register.RegistrationRetry).None?
    ensures afterReject == map[SubmitSlot := SubmitFailure(rejected, Register.RegistrationFailed, Register.RegistrationRetry).value]
    ensures afterRetry == map[] && target == Some(Register.LoginRoute) && !busy
  {
    var page := new Register.RegisterPage();
    page.form := form;
    var sent := page.HandleSubmit(rejected);
    afterReject := page.errors;
    sent := page.HandleSubmit(accepted);
    afterRetry := page.errors;
    target := page.navigation;
    busy := page.isLoading;
  }

  /** A sign-in form rejected by validation sends nothing and leaves the busy flag alone. */
  method LoginBlankEmail(password: string, response: Response) returns (sent: bool, requests: seq<Request>, busy: bool)
    ensures !sent && requests == [] && !busy
  {
    var store := new Storage();
    var page := new Login.LoginPage(store);
    page.form := Login.LoginForm("  ", password);
    sent := page.HandleSubmit(response);
    requests := page.requests;
    busy := page.isLoading;
  }
}
