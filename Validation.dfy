/**
 * The checks the settings and reset-password forms run before any backend
 * call, in the order in which they run, with the messages they show.
 */
module Validation {
  import opened Wrappers
  import Text

  const EmptyEmail := "Email cannot be empty."
  const UnchangedEmail := "Email is unchanged."
  const EmptyUsername := "Username cannot be empty."
  const TakenUsername := "Username is already taken."
  const UserNotFound := "User not found."
  const FillBothFields := "Please fill out both fields."
  const PasswordsDiffer := "Passwords do not match."

  /** The checks of an email change: a blank new email, then one equal to
      the current email (compared untrimmed). In terms of the characters:
      only-whitespace input is 'empty' (even when it equals the current
      email); otherwise an unchanged email is refused; anything else
      passes. */
  function EmailCheck(newEmail: string, email: string): (r: Option<string>)
    ensures r == Some(EmptyEmail) <==> Text.AllWhitespace(newEmail)
    ensures r == Some(UnchangedEmail) <==> newEmail == email && !Text.AllWhitespace(newEmail)
    ensures r == None <==> newEmail != email && !Text.AllWhitespace(newEmail)
  {
    if Text.IsBlank(newEmail) then Some(EmptyEmail)
    else if newEmail == email then Some(UnchangedEmail)
    else None
  }

  /** The checks of a username change before the update: a blank name;
      then a name the lookup found on a profile, unless it is the user's
      own current name; then a missing (or empty, hence falsy) signed-in
      user id. So 'Username is
      already taken.' is shown exactly for a non-blank name the lookup
      found that differs from the current name, and resubmitting one's
      own name never hits it. */
  function UsernameCheck(newUsername: string, username: string, nameFound: bool, userId: Option<string>): (r: Option<string>)
    ensures r == Some(EmptyUsername) <==> Text.AllWhitespace(newUsername)
    ensures r == Some(TakenUsername) <==>
      !Text.AllWhitespace(newUsername) && nameFound && newUsername != username
    ensures r == Some(UserNotFound) <==>
      !Text.AllWhitespace(newUsername)
      && (!nameFound || newUsername == username) && (userId.None? || userId.value == "")
    ensures r == None <==>
      !Text.AllWhitespace(newUsername)
      && (!nameFound || newUsername == username) && userId.Some? && userId.value != ""
  {
    if Text.IsBlank(newUsername) then Some(EmptyUsername)
    else if nameFound && newUsername != username then Some(TakenUsername)
    else if userId.None? || userId.value == "" then Some(UserNotFound)
    else None
  }

  /** Resubmitting the current, non-blank name passes the checks whenever
      a user is signed in. */
  lemma OwnUsernamePasses(username: string, nameFound: bool, userId: string)
    requires !Text.AllWhitespace(username) && userId != ""
    ensures UsernameCheck(username, username, nameFound, Some(userId)) == None
  {
  }

  /** The password checks shared by both forms: an empty field (no
      trimming here), then two different entries. */
  function PasswordCheck(password: string, confirm: string): (r: Option<string>)
    ensures r == Some(FillBothFields) <==> password == "" || confirm == ""
    ensures r == Some(PasswordsDiffer) <==> password != "" && confirm != "" && password != confirm
    ensures r == None <==> password != "" && password == confirm
  {
    if password == "" || confirm == "" then Some(FillBothFields)
    else if password != confirm then Some(PasswordsDiffer)
    else None
  }
}
