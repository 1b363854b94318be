# Nebula sign-in front end: a Dafny model

This project models the client-side logic of the Nebula web front end's authentication. That logic lives in three React components:

- **Registration page** (`components/register.jsx`). `validateForm` checks four fields:
  - the name must not be blank;
  - the e-mail must match `/^\S+@\S+\.\S+$/`;
  - the password must have at least 6 UTF-16 code units;
  - the confirmation must equal the password.

  `handleSubmit` then keeps the busy flag across the request, merges a `submit` error into the error map on failure, and navigates to `/login` on success.
- **Sign-in page** (`components/login.jsx`).
  - Its own `validateForm` accepts any e-mail that is not blank and any password that is not empty.
  - Its `handleSubmit` behaves like the registration page's and navigates to `/main`.
  - The Google callback reads the ID token's payload and writes `{email, name, picture}` under the `googleCredential` key of `localStorage`, with the picture's `=s96-c` rewritten to `=s100-c`. The write happens before the token exchange. On any failure the callback replaces the errors with `{google: …}` and removes the key.
  - The `isGoogleLoading` flag tracks whether the Google button is ready.
- **Navigation bar** (`components/Navbar.jsx`).
  - `checkUserAuth` reads the record back into `user`. Before doing so, `getProfileImage` rewrites the picture URL:
    - a Google-hosted picture gets its leftmost `=s<digits>-c` set to `=s200-c`;
    - then the leftmost `http://` becomes `https://`.
  - `handleLogout` removes the key and resets the state.
  - `toggleDropdown` and the click-outside handler open and close the dropdown.
  - `UserAvatar` shows the photo, or the upper-cased first letter of the name, or `?`.

Module layout:

- `Wrappers`: `Option`, which stands for a value that may be `null` or `undefined`.
- `Text`: the JavaScript string operations the components use:
  - the `\s` white-space class and `trim`;
  - the UTF-16 `length`;
  - `includes`, `indexOf`, and `replace` with a string pattern, which rewrites only the first occurrence;
  - `toUpperCase` of one character.
- `SessionJson`: the stored record, a `JSON.stringify` encoder and a `JSON.parse` reader for it, and the round trip between them.
- `CredentialStore`: `localStorage` as a class over a `map<string, string>`.
- `AuthApi`: the requests, the settled `fetch` outcomes, and the message a failed submission stores.
- `Register`, `Login`, `Navbar`: one module per component. Each page or bar is a class, and its fields are the component's state hooks.
- `Session`: whole sessions that run the components one after another on a fresh store. Examples: sign in and then show the navbar; log out; have the record removed by another tab.

Each asynchronous handler is split at its `await`. The part before it validates, sets the busy flag, writes the store and records the request. The part after it takes the settled outcome as a parameter and runs the `catch`/`finally` logic. A third method composes the two, for the case where nothing else happens while the request is outstanding. The inputs are:

- `fetch` and `response.json()` outcomes are values of `AuthApi.Response` and `AuthApi.Exchange`;
- `atob` followed by `JSON.parse` of the token payload is the function parameter `decodePayload`;
- whether `window.google` exists when the script loads is a boolean;
- a mouse press is described by whether it landed inside the dropdown;
- `router.push` and `window.location.href` are recorded in `navigation` and `location` fields.

Normalising a Google image URL is not idempotent: `replace('http://', 'https://')` rewrites one occurrence per call. `Navbar.ProfileImageNotIdempotent` proves this for `http://http://lh3.googleusercontent.com/a`. `Navbar.ProfileImageIdempotent` proves idempotence for every URL with at most one `http://`. The size-token rewrite alone is always idempotent (`Navbar.ReplaceSizeTokenIdempotent`).

## Model

| member | source | states |
|---|---|---|
| Text.Trim | components/register.jsx:55 | the trimmed text is empty exactly when every character is JavaScript white space |
| Text.IsSpace | components/register.jsx:55 | defines the white space `trim` strips: tab to carriage return, space, no-break space, the Unicode space separators, the line and paragraph separators and the byte-order mark |
| Text.Blank | components/register.jsx:55 | defines a text made only of that white space |
| Text.TrimStart | components/register.jsx:55 | the result is the suffix left after a blank prefix, and starts with a character that is not white space; it is blank exactly when the input is |
| Text.TrimEnd | components/register.jsx:55 | the result is the prefix left before a blank suffix, and ends with a character that is not white space; it is empty exactly when the input is blank |
| Text.Utf16Length | components/register.jsx:67 | `length` counts UTF-16 code units: between one and two per character, and exactly one per character when all lie in the Basic Multilingual Plane |
| Text.Utf16Char | components/register.jsx:67 | one character counts two code units when it lies above U+FFFF and one otherwise |
| Text.Utf16Append | components/register.jsx:67 | the code-unit length of a concatenation is the sum of the lengths |
| Text.Contains | components/Navbar.jsx:19 | defines `includes`: the pattern occurs at some position of the text |
| Text.IndexOf | components/Navbar.jsx:19 | returns the leftmost occurrence, or None exactly when the pattern does not occur |
| Text.FirstOccurrenceUnique | components/Navbar.jsx:25 | the leftmost occurrence is unique |
| Text.ReplaceFirst | components/Navbar.jsx:25 | string `replace` splices the replacement over the leftmost occurrence only and leaves a text without the pattern unchanged |
| Text.UpperCase | components/Navbar.jsx:103 | `toUpperCase` of one character: ASCII and Latin-1 lower-case letters map to their capitals (`ÿ` to `Ÿ`, `µ` to `Μ`, `ß` to `SS`), every other character is kept, and the result has one or two characters |
| SessionJson.HexDigit | components/login.jsx:88-92 | the hexadecimal digit written for a control character reads back as its value |
| SessionJson.EscapeCharThenParse | components/login.jsx:88-92 | one escaped character reads back as itself |
| SessionJson.ParseEscaped | components/login.jsx:88-92 | an escaped string body followed by a closing quote reads back as the same string, leaving the rest |
| SessionJson.EscapeChar | components/login.jsx:88-92 | defines how `JSON.stringify` writes one character: a two-character escape for quote, backslash and the five named controls, `\u00XY` in lower-case hexadecimal for the other controls, the character itself otherwise |
| SessionJson.Escape | components/login.jsx:88-92 | defines the body of a string literal: each character escaped in turn |
| SessionJson.Quote | components/login.jsx:88-92 | defines a string literal: the escaped body between two double quotes |
| SessionJson.ParseChars | components/Navbar.jsx:33 | reads a string body up to its closing quote, decoding escapes; the text left over is strictly shorter than the input |
| SessionJson.SkipSpace | components/Navbar.jsx:33 | skipping JSON white space leaves a text that starts with a character that is not white space |
| SessionJson.SkipSpaceDrops | components/Navbar.jsx:33 | what is skipped is exactly a leading run of JSON white space: the rest is a suffix of the input |
| SessionJson.Parse | components/Navbar.jsx:33 | is the definition of `JSON.parse` with the destructuring, made total with None for a throw; its contract states only that a text whose first character after white space is not `{` does not parse, and `SessionJson.ParseSerialize` is its round-trip partner |
| SessionJson.Serialize | components/login.jsx:88-92 | the stored text is a JSON object, delimited by braces |
| SessionJson.UnescapeControl | components/login.jsx:88-92 | the `\u00XY` escape written for a control character reads back as that character |
| SessionJson.QuoteThenParse | components/Navbar.jsx:33 | a string literal written by the encoder reads back as its value, leaving what follows |
| SessionJson.MemberStep | components/Navbar.jsx:33 | one serialised member reads back as its key and string value |
| SessionJson.MembersNext | components/Navbar.jsx:33 | a member followed by a comma is recorded and reading goes on with the next member |
| SessionJson.ParseJoin | components/Navbar.jsx:33 | a serialised member list reads back as the same members, applied in order |
| SessionJson.ParseObject | components/Navbar.jsx:33 | a serialised object reads back as the record of its members |
| SessionJson.FieldsUpdate | components/login.jsx:88-92 | the members written for a record rebuild that record |
| SessionJson.UpdateAppend | components/Navbar.jsx:33 | applying two member lists in turn is applying their concatenation |
| SessionJson.ParseSerialize | components/login.jsx:88-92 | what the sign-in page writes, the navbar parses back into the same `{email, name, picture}` |
| CredentialStore.Storage.constructor | components/Navbar.jsx:30 | part of the browser model, not of the components: a `localStorage` no page has written to yet is empty |
| CredentialStore.Storage.GetItem | components/Navbar.jsx:30 | `getItem` is null exactly for an absent key, otherwise the stored text |
| CredentialStore.Storage.SetItem | components/login.jsx:88-92 | `setItem` sets that key and changes no other |
| CredentialStore.Storage.RemoveItem | components/login.jsx:110 | `removeItem` removes that key, whether or not it was present, and changes no other |
| AuthApi.SubmitFailure | components/register.jsx:98-109 | no message exactly for an ok reply with a readable body. A non-ok reply yields the server's non-empty `error`, else the rejection text. A throw yields its own message, else the fallback. The message is never empty |
| Register.MatchesEmailPattern | components/register.jsx:61 | defines the test `/^\S+@\S+\.\S+$/` makes, decided from the leftmost `@` after the first character |
| Register.AtIndex | components/register.jsx:61 | finds the leftmost `@` after the first character, or reports that there is none |
| Register.MatchesEmailPatternCorrect | components/register.jsx:61 | the decision procedure accepts exactly the texts with no white space, an `@` at i ≥ 1 and a `.` at j with i+1 < j < \|s\|-1 |
| Register.BlankIsNotEmail | components/register.jsx:59-63 | a blank address never has the e-mail shape |
| Register.NameError | components/register.jsx:55-57 | "Name is required" exactly when the trimmed name is empty |
| Register.EmailError | components/register.jsx:59-63 | an error exactly when the untrimmed address lacks the shape: "Email is required" when blank, otherwise "Invalid email format" |
| Register.PasswordError | components/register.jsx:65-69 | an error exactly when the password has fewer than 6 code units: "Password is required" when empty, otherwise the minimum-length message |
| Register.ConfirmError | components/register.jsx:71-73 | "Passwords do not match" exactly when the two fields differ, whatever the other password checks say |
| Register.FieldErrors | components/register.jsx:52-74 | the new error map only has entries for the four field slots: never a `submit` or `google` entry |
| Register.FieldErrorsEntries | components/register.jsx:52-74 | the new error map has an entry for each failed rule and no other, with that rule's message |
| Register.NoErrorsIffAcceptable | components/register.jsx:75-76 | the map is empty exactly when every rule holds |
| Register.RegisterPage.constructor | components/register.jsx:43-50 | the page starts with empty fields, no errors and not busy |
| Register.RegisterPage.ValidateForm | components/register.jsx:52-77 | the errors are replaced, not merged, by the rule map, and the result is true exactly when every rule holds, which is exactly when the map is empty |
| Register.RegisterPage.Submit | components/register.jsx:79-96 | an invalid form sends nothing and leaves the busy flag. A valid one raises the flag and sends name, email and password to `/api/auth/register` |
| Register.RegisterPage.Settle | components/register.jsx:98-112 | the busy flag is cleared on every outcome. Success navigates to `/login`. Failure adds the `submit` message and keeps the other entries |
| Register.RegisterPage.HandleSubmit | components/register.jsx:79-113 | the whole handler: no request for an invalid form. Otherwise the flag ends cleared, and the errors end empty with navigation to `/login`, or hold only the `submit` message |
| Login.EmailError | components/login.jsx:117-119 | "Email is required" exactly when the trimmed address is empty; there is no format check |
| Login.PasswordError | components/login.jsx:121-123 | "Password is required" exactly when the password is the empty string; there is no length check |
| Login.FieldErrors | components/login.jsx:114-124 | the new error map only has entries for the `email` and `password` slots |
| Login.FieldErrorsEntries | components/login.jsx:114-124 | one entry per failed rule, with its message; the map is empty exactly when both rules hold |
| Login.UpTo | components/login.jsx:83 | the text before the first occurrence of the separator |
| Login.PayloadSegment | components/login.jsx:83 | `split('.')[1]` is the dot-free text after the first dot, up to the next one; it is undefined exactly when there is no dot |
| Login.DecodeClaims | components/login.jsx:83 | a token with no dot fails to decode; otherwise the payload decoder is applied to the second segment |
| Login.StoredPicture | components/login.jsx:86 | `picture?.replace` keeps an absent picture absent and rewrites only the first `=s96-c` to `=s100-c` |
| Login.StoredRecord | components/login.jsx:88-92 | the stored record is exactly the payload's email and name and the rewritten picture |
| Login.LoginPage.constructor | components/login.jsx:45-51 | the page starts with no errors, not busy, and with `isGoogleLoading` true |
| Login.LoginPage.InitializeGoogleSignIn | components/login.jsx:66-78 | `isGoogleLoading` becomes false only when the script loads with `window.google` present, and is never set back to true |
| Login.LoginPage.ValidateForm | components/login.jsx:114-127 | the errors are replaced by the rule map, and the result is true exactly when both rules hold, which is exactly when the map is empty |
| Login.LoginPage.Submit | components/login.jsx:129-145 | an invalid form sends nothing and leaves the busy flag. A valid one raises it and sends the credentials to `/api/auth/login` |
| Login.LoginPage.Settle | components/login.jsx:147-161 | the busy flag is cleared on every outcome. Success navigates to `/main`. Failure merges the `submit` message into the prior errors. The store is untouched |
| Login.LoginPage.HandleSubmit | components/login.jsx:129-162 | the whole handler: no request for an invalid form. Otherwise the flag ends cleared, and the errors end empty with navigation to `/main`, or hold only the `submit` message |
| Login.LoginPage.BeginGoogleSignIn | components/login.jsx:80-101 | a decodable token stores the serialised record before sending the exchange request to `/api/auth/google`. An undecodable one sends nothing, replaces the errors with the Google message and removes the key |
| Login.LoginPage.FinishGoogleSignIn | components/login.jsx:103-111 | an ok exchange keeps the record and navigates to `/main`. A non-ok reply or a failed fetch replaces the errors with the Google message and removes the key |
| Login.LoginPage.HandleGoogleSignIn | components/login.jsx:80-112 | the two outcomes. Decode and exchange succeed: the key holds the record, with navigation to `/main`. Any failure: the key is absent whatever it held before, and the errors are exactly `{google}` |
| Navbar.MatchesAt | components/Navbar.jsx:21 | defines a match of `/=s\d+-c/`: `=s`, one or more ASCII digits, then `-c` |
| Navbar.Leftmost | components/Navbar.jsx:21 | defines the match a non-global `replace` rewrites: a match with no other match starting further left |
| Navbar.DigitsEnd | components/Navbar.jsx:21 | finds the end of the run of digits: every character before it is a digit, the one at it is not |
| Navbar.MatchEnd | components/Navbar.jsx:21 | a match of `/=s\d+-c/` starting at a given index can end only just after its digit run |
| Navbar.TokenEndAt | components/Navbar.jsx:21 | decides whether a match starts at an index, and where it ends |
| Navbar.LeftmostUnique | components/Navbar.jsx:21 | there is at most one leftmost match |
| Navbar.FirstToken | components/Navbar.jsx:21 | finds the leftmost match at or after an index, or reports that there is none |
| Navbar.NoMatchAll | components/Navbar.jsx:21 | no match up to the text's length means no match at all |
| Navbar.ReplaceSizeToken | components/Navbar.jsx:21 | the non-global regular-expression `replace` rewrites exactly the leftmost match to `=s200-c`, and nothing when there is no match |
| Navbar.MatchInterior | components/Navbar.jsx:21 | inside a match, after its `=`, there are only `s`, digits, `-` and `c` |
| Navbar.MatchBefore | components/Navbar.jsx:21 | a match that starts before a rewritten token is a match of the original text too |
| Navbar.ReplaceSizeTokenIdempotent | components/Navbar.jsx:21 | rewriting the size token twice equals rewriting it once |
| Navbar.ProfileImage | components/Navbar.jsx:15-26 | null exactly for a null, absent or empty URL. A Google-hosted URL has its size token rewritten, then its first `http://`. Any other URL has only its first `http://` rewritten, and stays unchanged when it has none |
| Navbar.SpliceAvoids | components/Navbar.jsx:21 | putting text that shares no character with a pattern in place of a part cannot create an occurrence of the pattern |
| Navbar.SizeTokenSplice | components/Navbar.jsx:21 | the rewrite splices `=s200-c` over the leftmost match, which starts with `=` |
| Navbar.SizeTokenAddsNoHttp | components/Navbar.jsx:21 | the size rewrite never creates an `http://` |
| Navbar.HostOutsideToken | components/Navbar.jsx:19-21 | an occurrence of the Google host lies wholly before or wholly after the size token |
| Navbar.SpliceKeeps | components/Navbar.jsx:21 | an occurrence outside the replaced part survives the splice |
| Navbar.SizeTokenKeepsHost | components/Navbar.jsx:19-21 | a Google-hosted URL is still Google-hosted after the size rewrite |
| Navbar.SizeTokenKeepsScheme | components/Navbar.jsx:21 | a URL that starts with `http://` still does after the size rewrite |
| Navbar.UpgradeLeading | components/Navbar.jsx:25 | in a text that starts with `http://`, the scheme rewrite changes exactly that leading occurrence |
| Navbar.ProfileImageUpgradesScheme | components/Navbar.jsx:21-25 | a URL that starts with `http://` always comes out starting with `https://` |
| Navbar.SizeTokenKeepsOnce | components/Navbar.jsx:21 | a URL with at most one `http://` still has at most one after the size rewrite |
| Navbar.UpgradeLeavesNoHttp | components/Navbar.jsx:25 | upgrading the only `http://` of a text leaves no `http://` in it |
| Navbar.UpgradeKeepsHost | components/Navbar.jsx:19-25 | the scheme upgrade neither adds nor removes `googleusercontent.com` |
| Navbar.UpgradeKeepsTokenFixed | components/Navbar.jsx:21-25 | a text the size rewrite leaves unchanged is still left unchanged once its `http://` is upgraded |
| Navbar.ProfileImageIdempotent | components/Navbar.jsx:15-26 | for URLs with at most one `http://`, normalising twice equals normalising once |
| Navbar.NoEqualsNoToken | components/Navbar.jsx:21 | a text without `=` is left alone by the size rewrite |
| Navbar.HostedWithoutToken | components/Navbar.jsx:19-21 | a Google-hosted URL without a size token only has its scheme rewritten |
| Navbar.UpgradeGrows | components/Navbar.jsx:21 | each scheme upgrade lengthens the text by one |
| Navbar.ContainsAfterPrefix | components/Navbar.jsx:19 | an occurrence survives putting text in front |
| Navbar.LeadingSchemeUpgraded | components/Navbar.jsx:15-26 | a Google-hosted URL without `=` behind a leading `http://` comes out with just that scheme upgraded |
| Navbar.DoubleSchemeNotIdempotent | components/Navbar.jsx:19-21 | a Google-hosted URL that starts with two `http://` changes again when normalised a second time |
| Navbar.ProfileImageNotIdempotent | components/Navbar.jsx:19-21 | `http://http://lh3.googleusercontent.com/a` is such a URL: normalisation is not idempotent |
| Navbar.DisplayUserOf | components/Navbar.jsx:33-40 | the user gets the record's email and name, and its picture through `getProfileImage` as `imageUrl` |
| Navbar.AvatarInitial | components/Navbar.jsx:103 | `?` for a missing or empty name, otherwise the upper-cased first character; never empty |
| Navbar.AvatarFor | components/Navbar.jsx:96-120 | nothing without a user. The photo exactly when there is no image error and the image URL is non-empty. Otherwise the initial of the name |
| Navbar.Navigation.constructor | components/Navbar.jsx:7-10 | the bar starts with no user, menu and dropdown closed, and no image error |
| Navbar.Navigation.CheckUserAuth | components/Navbar.jsx:29-46 | a non-empty stored text that parses becomes the user and clears the image error. An absent key, an empty text or malformed JSON changes nothing, so it never clears a user |
| Navbar.Navigation.ToggleDropdown | components/Navbar.jsx:65-68 | the dropdown flips |
| Navbar.Navigation.MouseDown | components/Navbar.jsx:53-63 | a press outside the dropdown closes it while a user is shown. A press inside, or any press with no user, leaves it as it is |
| Navbar.Navigation.HandleLogout | components/Navbar.jsx:70-93 | the key is removed, the user is null, the dropdown is closed, the image error is cleared and the location becomes `/` |
| Navbar.Navigation.ImageLoadFailed | components/Navbar.jsx:112-115 | the image error is set, so the avatar falls back to the initial |
| Navbar.Navigation.ToggleMenu | components/Navbar.jsx:180-181 | the mobile menu flips |
| Session.MountWith | components/Navbar.jsx:29-48 | a navbar mounted over a stored record shows that record's user |
| Session.SignInThenShow | components/login.jsx:80-104 | after a successful Google sign-in, a navbar shows the token's email and name and the twice-rewritten picture. The page goes to `/main` |
| Session.FailedSignInShowsNobody | components/login.jsx:106-111 | after a failed Google sign-in, even over a previous session's record, the key is absent and a navbar shows nobody |
| Session.LogoutEndsSession | components/Navbar.jsx:70-86 | after logout the user is gone and stays gone on a later check; the key is absent and the location is `/` |
| Session.RemovedElsewhereStillShown | components/Navbar.jsx:30-45 | removing the key elsewhere and re-running the check keeps showing the user |
| Session.ImageFallbackAndRetry | components/Navbar.jsx:41 | a failed photo falls back to the initial, and the next successful check shows the photo again |
| Session.RegisterRetry | components/register.jsx:75-109 | a rejected submit leaves only the `submit` error. A successful retry of the same form clears it and goes to `/login` |
| Session.LoginBlankEmail | components/login.jsx:132 | a blank e-mail stops submission before any request, with the busy flag still false |

## Left out

- JSX layout, styling and the `Input`/`Button` presentational components. The header, pricing, collaboration and generating components are static markup and are not part of this model. The same goes for the dependency-scanning script, which is all file-system and subprocess I/O.
- Google script injection, `window.google.accounts.id.initialize` and `renderButton`. The script's `onload` is modelled as one call with a boolean that says whether `window.google` exists.
- `fetch`, `response.json()`, `router.push` and `window.location`. Their outcomes are parameters, and navigation targets are recorded in fields.
- `atob` and `JSON.parse` of the token payload. They are the parameter `decodePayload`. No signature check is modelled, and the page performs none.
- Session record reading:
  - JSON member values other than strings and `null` (numbers, booleans, arrays, objects) are treated as malformed;
  - so are top-level JSON values that are not objects, although destructuring a number or a string would give a user with all fields `undefined`;
  - `\u` escapes of surrogate halves are rejected.
- `null` versus `undefined` claims are both `None`. `JSON.stringify` writes a `null` member but omits an `undefined` one. The navbar treats both alike, so nothing it shows depends on the difference.
- `Text.UpperCase`: maps only ASCII and Latin-1 letters as JavaScript does. Other characters are kept unchanged, where `toUpperCase` would map further scripts.
- `Navbar.AvatarInitial`: takes the first character, where `charAt(0)` takes the first UTF-16 code unit. The two differ for names that start outside the Basic Multilingual Plane.
- The cross-tab `storage` event and the `mousedown` listener wiring, including their removal on unmount. `checkUserAuth` and the click-outside handler are methods that are invoked directly.
- Async interleaving: double submits, responses that arrive after unmount, and a storage event during a sign-in. Each handler's halves are run back to back.
- Console logging, and the `catch` in `handleLogout`, which nothing in its `try` block can reach in this model.
