/**
 * The session context component (src/components/supabase-provider.tsx).
 * Its auth-state listener navigates on sign-in and sign-out and then always
 * replaces the stored session; `useSupabase` refuses to run outside the
 * component.
 */
module SessionProvider {
  import opened Wrappers
  import opened Provider
  import Routes
  import Middleware

  /** The events the identity provider's client reports to the listener. */
  datatype AuthChangeEvent =
    | InitialSession | SignedIn | SignedOut | TokenRefreshed | UserUpdated | PasswordRecovery | MfaChallengeVerified

  /** The value the component puts in its context. */
  datatype Context = Context(session: Option<Session>)

  const OutsideProviderMessage: string := "useSupabase must be used within a SupabaseProvider"

  /**
   * The navigations the listener makes for one event on the current page:
   * a sign-in leaves every page but exactly `/reset-password` and
   * `/forgot-password` for `/`, a sign-out goes to `/login`, and other
   * events do not navigate.
   */
  function Navigations(event: AuthChangeEvent, pathname: string): (pushes: seq<string>)
    ensures |pushes| <= 1
    ensures pushes == [Routes.Root] <==>
      event == SignedIn && pathname != Routes.ResetPassword && pathname != Routes.ForgotPassword
    ensures pushes == [Routes.Login] <==> event == SignedOut
    ensures pushes == [] <==>
      (event == SignedIn && (pathname == Routes.ResetPassword || pathname == Routes.ForgotPassword)) ||
      (event != SignedIn && event != SignedOut)
  {
    assert [Routes.Root] != [Routes.Login] by { assert |Routes.Root| != |Routes.Login|; }
    if event == SignedIn then
      if pathname != Routes.ResetPassword && pathname != Routes.ForgotPassword then [Routes.Root] else []
    else if event == SignedOut then [Routes.Login]
    else []
  }

  /** The component: its `session` state and the router pushes it has made. */
  class SupabaseProvider {
    var session: Option<Session>
    var pushes: seq<string>

    constructor (initialSession: Option<Session>)
      ensures session == initialSession && pushes == []
    {
      session := initialSession;
      pushes := [];
    }

    /** The value given to the context's consumers. */
    function ContextValue(): (context: Context)
      reads this
      ensures context.session == session
    {
      Context(session)
    }

    /** The `onAuthStateChange` listener: navigate as the event requires, then store the new session. */
    method OnAuthStateChange(event: AuthChangeEvent, newSession: Option<Session>, pathname: string)
      modifies this
      ensures session == newSession
      ensures pushes == old(pushes) + Navigations(event, pathname)
    {
      if event == SignedIn {
        if pathname != Routes.ResetPassword && pathname != Routes.ForgotPassword {
          pushes := pushes + [Routes.Root];
        }
      }
      if event == SignedOut {
        pushes := pushes + [Routes.Login];
      }
      session := newSession;
    }
  }

  /** `useSupabase`: the context inside the component; outside it, the error it throws. */
  function UseSupabase(context: Option<Context>): (r: Result<Context, string>)
    ensures r.Ok? <==> context.Some?
    ensures r.Ok? ==> r.value == context.value
    ensures r.Err? ==> r.error == OutsideProviderMessage
  {
    match context
    case None => Err(OutsideProviderMessage)
    case Some(c) => Ok(c)
  }

  /**
   * The listener compares pathnames exactly where the route guard matches
   * prefixes: a sign-in on a sub-path of the reset page navigates away,
   * although the guard treats that path as public.
   */
  lemma ExactMatchUnlikeGuard()
    ensures Middleware.IsPublicPath("/reset-password/confirm")
    ensures Navigations(SignedIn, "/reset-password/confirm") == [Routes.Root]
  {
  }
}
