/**
 * The authentication error page (src/app/auth/auth-code-error/page.tsx):
 * the `type` query value, or `'unknown'` when it is missing or empty,
 * selects one of four messages.
 */
module AuthCodeError {
  import opened Wrappers
  import opened FormUrlEncoded
  import opened Url
  import opened Provider
  import Routes
  import OtpCallback
  import CodeCallback

  const ExpiredMessage: string := "Your authentication link has expired. Please request a new one."
  const InvalidMessage: string := "The authentication link is invalid. Please check the link and try again."
  const UsedMessage: string := "This authentication link has already been used."
  const GenericMessage: string := "There was a problem with your authentication request. Please try again."

  /** `searchParams.get('type') || 'unknown'`. */
  function ErrorType(typeParam: Option<string>): (errorType: string)
    ensures errorType != ""
    ensures typeParam.Some? && typeParam.value != "" ==> errorType == typeParam.value
    ensures !(typeParam.Some? && typeParam.value != "") ==> errorType == "unknown"
  {
    if typeParam.Some? && typeParam.value != "" then typeParam.value else "unknown"
  }

  /** The four messages are pairwise distinct. */
  lemma MessagesDistinct()
    ensures ExpiredMessage != InvalidMessage && ExpiredMessage != UsedMessage && ExpiredMessage != GenericMessage
    ensures InvalidMessage != UsedMessage && InvalidMessage != GenericMessage
    ensures UsedMessage != GenericMessage
  {
  }

  /** `getErrorMessage`: each of the three known types has its own message; every other type gets the generic one. */
  function ErrorMessage(errorType: string): (message: string)
    ensures message == ExpiredMessage <==> errorType == "expired"
    ensures message == InvalidMessage <==> errorType == "invalid"
    ensures message == UsedMessage <==> errorType == "used"
    ensures message == GenericMessage <==> errorType != "expired" && errorType != "invalid" && errorType != "used"
  {
    MessagesDistinct();
    match errorType
    case "expired" => ExpiredMessage
    case "invalid" => InvalidMessage
    case "used" => UsedMessage
    case _ => GenericMessage
  }

  /**
   * The message the page shows for a request with the given query: the
   * first `type` value picks one of the three specific messages, and a
   * missing, empty or unknown one gets the generic message.
   */
  function PageMessage(query: string): (message: string)
    ensures message == ExpiredMessage <==> Get(Parse(query), "type") == Some("expired")
    ensures message == InvalidMessage <==> Get(Parse(query), "type") == Some("invalid")
    ensures message == UsedMessage <==> Get(Parse(query), "type") == Some("used")
    ensures message == GenericMessage <==>
      Get(Parse(query), "type") !in {Some("expired"), Some("invalid"), Some("used")}
  {
    ErrorMessage(ErrorType(Get(Parse(query), "type")))
  }

  /** A missing or empty `type` reads as `'unknown'` and gets the generic message. */
  lemma MissingTypeIsGeneric(query: string)
    requires Get(Parse(query), "type") == None || Get(Parse(query), "type") == Some("")
    ensures PageMessage(query) == GenericMessage
  {
  }

  /**
   * Whenever a callback sends the browser to the error page on its own
   * account (a missing parameter, a failed or rejected call, no client),
   * the redirect is the bare error page with no query, so the page shows
   * the generic message.
   */
  lemma CallbackErrorsShowGenericMessage(query: string, verify: ServerCall, exchange: ServerCall)
    ensures var r := OtpCallback.HandleOtp(query, verify);
      !(r.verifyOtpCall.Some? && verify == Called(Succeeded)) ==>
        r.redirect == Local(Routes.AuthCodeError) && PageMessage(QueryOf(r.redirect.reference)) == GenericMessage
    ensures var r := CodeCallback.HandleCode(query, exchange);
      r.response.Redirected? && !(r.exchangeCall.Some? && exchange == Called(Succeeded)) ==>
        r.response.location == Local(Routes.AuthCodeError) &&
        PageMessage(QueryOf(r.response.location.reference)) == GenericMessage
  {
    BareErrorPageIsGeneric();
  }

  /** The bare error page has no query, and an empty query has no `type`. */
  lemma BareErrorPageIsGeneric()
    ensures PageMessage(QueryOf(Routes.AuthCodeError)) == GenericMessage
  {
    assert '?' !in Routes.AuthCodeError;
    assert QueryOf(Routes.AuthCodeError) == "";
    assert Split("", '&') == [[]];
    assert Parse("") == [];
    MissingTypeIsGeneric("");
  }
}
