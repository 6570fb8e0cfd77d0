/**
 * The reset-password page: one form with a password and its confirmation.
 * The checks run before `loading` is raised, so a refused form never
 * touches `loading`; after the update exactly one of the error and the
 * success flag is set. The backend's answer is a parameter.
 */
module ResetPassword {
  import opened Wrappers
  import opened Validation

  class ResetPasswordPage {
    var password: string
    var confirmPassword: string
    var error: Option<string>
    var success: bool
    var loading: bool

    constructor ()
      ensures password == "" && confirmPassword == "" && error.None? && !success && !loading
    {
      password, confirmPassword := "", "";
      error, success, loading := None, false, false;
    }

    /** `handleSubmit`. Returns the password sent, if any. The fields are
        kept as they are, also on success. */
    method HandleSubmit(updateError: Option<string>) returns (request: Option<string>)
      modifies this`error, this`success, this`loading
      ensures request.Some? <==> PasswordCheck(password, confirmPassword).None?
      ensures request.None? ==>
        error == PasswordCheck(password, confirmPassword) && !success && loading == old(loading)
      ensures request.Some? ==>
        && request.value == password && !loading
        && error == updateError && success == updateError.None?
    {
      error := None;
      success := false;
      if password == "" || confirmPassword == "" {
        error := Some(FillBothFields);
        return None;
      }
      if password != confirmPassword {
        error := Some(PasswordsDiffer);
        return None;
      }
      loading := true;
      request := Some(password);
      loading := false;
      if updateError.Some? {
        error := updateError;
      } else {
        success := true;
      }
    }
  }
}
