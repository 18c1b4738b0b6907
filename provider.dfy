/**
 * The identity provider, seen from the application: its calls
 * (`verifyOtp`, `exchangeCodeForSession`, `setSession`, `updateUser`,
 * `getSession`) are not implemented here; each handler receives the
 * outcome of its one call as an input.
 */
module Provider {

  /** An opaque session; the application only asks whether one is present. */
  datatype Session = Session(accessToken: string, refreshToken: string)

  /**
   * What a provider call came back with: no error, an `{ error }` result
   * carrying the provider's message, or a rejected promise (an exception
   * thrown while making the call).
   */
  datatype CallOutcome = Succeeded | Failed(message: string) | Threw

  /**
   * What a server-side handler got from `await createClient()` and then
   * from its one provider call: either the client could not be created,
   * so the call was never made, or the call was made and came back with
   * the given outcome.
   */
  datatype ServerCall = NoClient | Called(outcome: CallOutcome)

  /**
   * What `getSession()` came back with on a page: a session, no session
   * (`null`, also when an `{ error }` is returned), or a rejected promise.
   */
  datatype SessionCheck = SessionFound | NoSession | GetSessionThrew
}
