/**
 * The settings page: three forms (username, email, password) sharing one
 * `loading` flag. Each handler clears its own error and success flags,
 * runs its checks with an early return on each failure, calls the backend
 * and records the answer; `loading` is false on every way out. Backend
 * answers are parameters.
 */
module Settings {
  import opened Wrappers
  import Text
  import opened Validation

  class SettingsPage {
    var username: string
    var newUsername: string
    var usernameError: Option<string>
    var usernameSuccess: bool
    var email: string
    var newEmail: string
    var emailError: Option<string>
    var emailSuccess: bool
    var password: string
    var confirmPassword: string
    var passwordError: Option<string>
    var passwordSuccess: bool
    var loading: bool

    constructor ()
      ensures username == "" && newUsername == "" && email == "" && newEmail == ""
      ensures password == "" && confirmPassword == ""
      ensures usernameError.None? && emailError.None? && passwordError.None?
      ensures !usernameSuccess && !emailSuccess && !passwordSuccess && !loading
    {
      username, newUsername, email, newEmail := "", "", "", "";
      password, confirmPassword := "", "";
      usernameError, emailError, passwordError := None, None, None;
      usernameSuccess, emailSuccess, passwordSuccess := false, false, false;
      loading := false;
    }

    /** The effect that loads the signed-in user: with no signed-in user nothing changes; otherwise the
        user's email (or '') and the profile's username (or '') fill both
        the current and the new fields. */
    method ReceiveUser(signedIn: bool, userEmail: Option<string>, profileUsername: Option<string>)
      modifies this`email, this`newEmail, this`username, this`newUsername
      ensures !signedIn ==>
        email == old(email) && newEmail == old(newEmail) && username == old(username) && newUsername == old(newUsername)
      ensures signedIn ==> email == newEmail == userEmail.GetOr("")
      ensures signedIn ==> username == newUsername == profileUsername.GetOr("")
    {
      if signedIn {
        email := userEmail.GetOr("");
        newEmail := userEmail.GetOr("");
        username := profileUsername.GetOr("");
        newUsername := profileUsername.GetOr("");
      }
    }

    /** `handleEmailChange`. Returns the email sent to the backend, if
        any; `updateError` is the backend's answer, read only then. */
    method HandleEmailChange(updateError: Option<string>) returns (request: Option<string>)
      modifies this`emailError, this`emailSuccess, this`email, this`loading
      ensures request.Some? <==> EmailCheck(newEmail, old(email)).None?
      ensures request.None? ==>
        emailError == EmailCheck(newEmail, old(email)) && !emailSuccess && email == old(email)
      ensures request.Some? ==> request.value == newEmail
      ensures request.Some? && updateError.Some? ==>
        emailError == updateError && !emailSuccess && email == old(email)
      ensures request.Some? && updateError.None? ==>
        emailError.None? && emailSuccess && email == newEmail
      ensures !loading
    {
      emailError := None;
      emailSuccess := false;
      loading := true;
      if Text.IsBlank(newEmail) {
        emailError := Some(EmptyEmail);
        loading := false;
        return None;
      }
      if newEmail == email {
        emailError := Some(UnchangedEmail);
        loading := false;
        return None;
      }
      request := Some(newEmail);
      if updateError.Some? {
        emailError := updateError;
      } else {
        emailSuccess := true;
        email := newEmail;
      }
      loading := false;
    }

    /** `handleUsernameChange`. `nameFound` is the answer of the lookup by
        name (a single profile with a non-empty username), `userId` the
        signed-in user's id, `updateError` the answer of the update; each is
        read only when its call is made. Returns the (user id, name) update
        sent, if any. */
    method HandleUsernameChange(nameFound: bool, userId: Option<string>, updateError: Option<string>)
      returns (update: Option<(string, string)>)
      modifies this`usernameError, this`usernameSuccess, this`username, this`loading
      ensures var check := UsernameCheck(newUsername, old(username), nameFound, userId);
        && (update.Some? <==> check.None?)
        && (check.Some? ==> usernameError == check && !usernameSuccess && username == old(username))
      ensures update.Some? ==> update.value == (userId.value, newUsername)
      ensures update.Some? && updateError.Some? ==>
        usernameError == updateError && !usernameSuccess && username == old(username)
      ensures update.Some? && updateError.None? ==>
        usernameError.None? && usernameSuccess && username == newUsername
      ensures !loading
    {
      usernameError := None;
      usernameSuccess := false;
      loading := true;
      if Text.IsBlank(newUsername) {
        usernameError := Some(EmptyUsername);
        loading := false;
        return None;
      }
      if nameFound && newUsername != username {
        usernameError := Some(TakenUsername);
        loading := false;
        return None;
      }
      if userId.None? || userId.value == "" {
        usernameError := Some(UserNotFound);
        loading := false;
        return None;
      }
      update := Some((userId.value, newUsername));
      if updateError.Some? {
        usernameError := updateError;
      } else {
        usernameSuccess := true;
        username := newUsername;
      }
      loading := false;
    }

    /** `handlePasswordChange`. Returns the password sent, if any. Success
        clears both fields; a backend error only sets the message. */
    method HandlePasswordChange(updateError: Option<string>) returns (request: Option<string>)
      modifies this`passwordError, this`passwordSuccess, this`password, this`confirmPassword, this`loading
      ensures request.Some? <==> PasswordCheck(old(password), old(confirmPassword)).None?
      ensures request.None? ==>
        && passwordError == PasswordCheck(old(password), old(confirmPassword)) && !passwordSuccess
        && password == old(password) && confirmPassword == old(confirmPassword)
      ensures request.Some? ==> request.value == old(password)
      ensures request.Some? && updateError.Some? ==>
        && passwordError == updateError && !passwordSuccess
        && password == old(password) && confirmPassword == old(confirmPassword)
      ensures request.Some? && updateError.None? ==>
        passwordError.None? && passwordSuccess && password == "" && confirmPassword == ""
      ensures !loading
    {
      passwordError := None;
      passwordSuccess := false;
      loading := true;
      if password == "" || confirmPassword == "" {
        passwordError := Some(FillBothFields);
        loading := false;
        return None;
      }
      if password != confirmPassword {
        passwordError := Some(PasswordsDiffer);
        loading := false;
        return None;
      }
      request := Some(password);
      if updateError.Some? {
        passwordError := updateError;
      } else {
        passwordSuccess := true;
        password := "";
        confirmPassword := "";
      }
      loading := false;
    }
  }
}
