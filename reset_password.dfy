/**
 * The password-reset page (src/app/reset-password/page.tsx): on load it
 * checks for a session; on submit it clears the error, checks that the two
 * passwords match and then that the password is at least six characters
 * long, and calls `updateUser` only when both checks pass.
 */
module ResetPassword {
  import opened Wrappers
  import opened Provider
  import Routes

  const MismatchMessage: string := "Passwords do not match"
  const TooShortMessage: string := "Password must be at least 6 characters long"
  const NoSessionMessage: string := "No active session. Please use the password reset link from your email."
  const MinLength: nat := 6

  /** The validation error for a submitted pair, checked in the page's order: match first, then length. */
  function Validate(password: string, confirmPassword: string): (error: Option<string>)
    ensures error.None? <==> password == confirmPassword && |password| >= MinLength
    ensures error == Some(MismatchMessage) <==> password != confirmPassword
    ensures error == Some(TooShortMessage) <==> password == confirmPassword && |password| < MinLength
  {
    if password != confirmPassword then Some(MismatchMessage)
    else if |password| < MinLength then Some(TooShortMessage)
    else None
  }

  /** The component's state fields, the navigation it has scheduled, and the passwords sent to `updateUser`. */
  class ResetPasswordPage {
    var error: Option<string>
    var success: bool
    var loading: bool
    var navigation: Option<string>
    var updateCalls: seq<string>

    constructor ()
      ensures error == None && !success && loading
      ensures navigation == None && updateCalls == []
    {
      error := None;
      success := false;
      loading := true;
      navigation := None;
      updateCalls := [];
    }

    /**
     * `checkSession`: without a session, show the error and go to the
     * login page; either way stop loading. It has no `try`, so a rejected
     * `getSession` leaves the page as it was, still loading.
     */
    method CheckSession(lookup: SessionCheck)
      modifies this
      ensures lookup == GetSessionThrew ==>
        loading == old(loading) && error == old(error) && navigation == old(navigation)
      ensures lookup != GetSessionThrew ==> !loading
      ensures lookup == NoSession ==> error == Some(NoSessionMessage) && navigation == Some(Routes.Login)
      ensures lookup == SessionFound ==> error == old(error) && navigation == old(navigation)
      ensures success == old(success) && updateCalls == old(updateCalls)
    {
      if lookup == GetSessionThrew {
        return;
      }
      if lookup == NoSession {
        error := Some(NoSessionMessage);
        navigation := Some(Routes.Login);
      }
      loading := false;
    }

    /**
     * `handleResetPassword`, given what `updateUser` would answer. A
     * rejected `updateUser` (`Threw`) leaves the error cleared and nothing
     * else changed.
     */
    method HandleResetPassword(password: string, confirmPassword: string, update: CallOutcome)
      modifies this
      ensures updateCalls == old(updateCalls) + (if Validate(password, confirmPassword).None? then [password] else [])
      ensures loading == old(loading)
      ensures Validate(password, confirmPassword).Some? ==>
        error == Validate(password, confirmPassword) && success == old(success) && navigation == old(navigation)
      ensures Validate(password, confirmPassword).None? && update.Succeeded? ==>
        error == None && success && navigation == Some(Routes.Dashboard)
      ensures Validate(password, confirmPassword).None? && update.Failed? ==>
        error == Some(update.message) && success == old(success) && navigation == old(navigation)
      ensures Validate(password, confirmPassword).None? && update.Threw? ==>
        error == None && success == old(success) && navigation == old(navigation)
    {
      error := None;
      if password != confirmPassword {
        error := Some(MismatchMessage);
        return;
      }
      if |password| < MinLength {
        error := Some(TooShortMessage);
        return;
      }
      updateCalls := updateCalls + [password];
      match update {
        case Failed(message) => error := Some(message);
        case Succeeded =>
          success := true;
          navigation := Some(Routes.Dashboard);
        case Threw =>
      }
    }
  }

  /** A mismatched pair is reported as a mismatch even when it is also too short, and no update is made. */
  lemma MismatchReportedFirst(password: string, confirmPassword: string)
    requires password != confirmPassword && |password| < MinLength && |confirmPassword| < MinLength
    ensures Validate(password, confirmPassword) == Some(MismatchMessage)
    ensures Validate(password, confirmPassword) != Some(TooShortMessage)
  {
  }
}
