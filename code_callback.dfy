/**
 * The authorization-code callback (`GET` in src/app/auth/callback/route.ts).
 * With a `code` parameter it exchanges the code for a session once; a
 * successful exchange always leads to the reset page, an error to the error
 * page, and without a code no exchange is attempted. The handler has no
 * `try`, so an exception from the exchange escapes it.
 */
module CodeCallback {
  import opened Wrappers
  import opened FormUrlEncoded
  import opened Url
  import opened Provider
  import Routes
  import Middleware

  /** A redirect, or an exception that escapes the handler and is answered by the framework. */
  datatype Response = Redirected(location: Target) | Unhandled

  /** The `exchangeCodeForSession` call made, if any, and the response. */
  datatype Outcome = Outcome(exchangeCall: Option<string>, response: Response)

  /**
   * The handler, given the request's query and what creating the client
   * and then the exchange returned. A client that cannot be created throws
   * before the exchange, and with no `try` that exception escapes too.
   */
  function HandleCode(query: string, exchange: ServerCall): (r: Outcome)
    ensures r.exchangeCall.Some? <==> Truthy(Get(Parse(query), "code")) && exchange.Called?
    ensures r.exchangeCall.Some? ==> r.exchangeCall.value == Get(Parse(query), "code").value
    ensures r.response.Redirected? ==> r.response.location.Local?
    ensures r.response == Redirected(Local(Routes.ResetPassword)) <==>
      r.exchangeCall.Some? && exchange == Called(Succeeded)
    ensures r.response == Unhandled <==>
      Truthy(Get(Parse(query), "code")) && (exchange == NoClient || exchange == Called(Threw))
    ensures r.response == Redirected(Local(Routes.AuthCodeError)) <==>
      !Truthy(Get(Parse(query), "code")) || (exchange.Called? && exchange.outcome.Failed?)
  {
    var code := Get(Parse(query), "code");
    if Truthy(code) then
      match exchange
      case NoClient => Outcome(None, Unhandled)
      case Called(Succeeded) => Outcome(Some(code.value), Redirected(Local(Routes.ResetPassword)))
      case Called(Failed(_)) => Outcome(Some(code.value), Redirected(Local(Routes.AuthCodeError)))
      case Called(Threw) => Outcome(Some(code.value), Unhandled)
    else Outcome(None, Redirected(Local(Routes.AuthCodeError)))
  }

  /**
   * As the project stands, `createClient` is not among the exports of the
   * module this handler imports it from, so every request with a code ends
   * in an exception and no code is exchanged.
   */
  lemma WithoutClientCodeIsUnhandled(query: string)
    requires Truthy(Get(Parse(query), "code"))
    ensures HandleCode(query, NoClient) == Outcome(None, Unhandled)
  {
  }

  /** Only `code` matters: two requests with the same `code` are handled alike, whatever their `type` and `next`. */
  lemma OnlyCodeMatters(query1: string, query2: string, exchange: ServerCall)
    requires Get(Parse(query1), "code") == Get(Parse(query2), "code")
    ensures HandleCode(query1, exchange) == HandleCode(query2, exchange)
  {
  }

  /** A request whose only parameters are `type` and `next` gets no exchange and lands on the error page. */
  lemma {:induction false} NoCodeNoExchange(otpType: string, next: string, exchange: ServerCall)
    requires Serializable([("type", otpType), ("next", next)])
    ensures HandleCode(Serialize([("type", otpType), ("next", next)]), exchange) ==
      Outcome(None, Redirected(Local(Routes.AuthCodeError)))
  {
    var pairs := [("type", otpType), ("next", next)];
    ParseSerialize(pairs);
    GetFirstOccurrence(pairs, "code");
  }

  /** Every redirect of this handler lands on a public page, which the route guard passes whatever the session. */
  lemma RedirectsPassGuard(query: string, exchange: ServerCall, hasSession: bool)
    requires HandleCode(query, exchange).response.Redirected?
    ensures Middleware.Decide(HandleCode(query, exchange).response.location.reference, hasSession) == Middleware.Continue
  {
  }
}
