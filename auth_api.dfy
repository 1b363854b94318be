/**
 * What the forms send to and receive from the authentication endpoints. The endpoints themselves
 * are outside the model: each outcome is an input to the handler that awaits it.
 */
module AuthApi {
  import opened Wrappers

  /** The keys of a form's `errors` object. */
  datatype Slot = NameSlot | EmailSlot | PasswordSlot | ConfirmPasswordSlot | SubmitSlot | GoogleSlot

  /** A form's `errors` state. */
  type Errors = map<Slot, string>

  /** A request the page issues with `fetch`. */
  datatype Request =
    | LoginRequest(email: string, password: string)
    | RegisterRequest(name: string, email: string, password: string)
    | GoogleExchange(token: string)

  /** The URL each request is posted to. */
  function Endpoint(r: Request): string {
    match r
    case LoginRequest(_, _) => "/api/auth/login"
    case RegisterRequest(_, _, _) => "/api/auth/register"
    case GoogleExchange(_) => "/api/auth/google"
  }

  /** What `await response.json()` yields: an object with an optional `error` text, or a throw. */
  datatype Body = Json(error: Option<string>) | Unreadable(message: string)

  /** The settled `fetch` of a form submission: it threw, or a reply arrived. */
  datatype Response = FetchFailed(message: string) | Replied(ok: bool, body: Body)

  /** The settled `fetch` of the Google token exchange: only `result.ok` is read. */
  datatype Exchange = ExchangeFailed | ExchangeReplied(ok: bool)

  /** JavaScript's `s || fallback` on strings: the empty string is falsy. */
  function OrElse(s: string, fallback: string): string {
    if s != "" then s else fallback
  }

  /**
   * What a form's `catch` block stores under `errors.submit`, or None when the request succeeded.
   * A non-ok reply throws `new Error(data.error || rejected)`; a throw by `fetch` or by
   * `response.json()` carries its own message; an empty message is replaced by `fallback`.
   */
  function SubmitFailure(response: Response, rejected: string, fallback: string): (m: Option<string>)
    requires rejected != "" && fallback != ""
    ensures m.None? <==> response.Replied? && response.ok && response.body.Json?
    ensures m.Some? ==> m.value != ""
    ensures response.Replied? && !response.ok && response.body.Json? ==>
              m == Some(if response.body.error.Some? && response.body.error.value != ""
                        then response.body.error.value else rejected)
    ensures response.FetchFailed? ==> m == Some(if response.message != "" then response.message else fallback)
    ensures response.Replied? && response.body.Unreadable? ==>
              m == Some(if response.body.message != "" then response.body.message else fallback)
  {
    match response
    case FetchFailed(message) => Some(OrElse(message, fallback))
    case Replied(ok, Unreadable(message)) => Some(OrElse(message, fallback))
    case Replied(ok, Json(error)) =>
      if ok then None else Some(OrElse(OrElse(error.GetOr(""), rejected), fallback))
  }
}
