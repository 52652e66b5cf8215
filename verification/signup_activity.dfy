/**
  `SignupActivity`: the registration form. All four fields are trimmed and
  checked in a fixed order; a valid form first asks whether the username is
  taken (and stops there if so), then creates the account, whose refusal for
  a taken email surfaces only as a generic failure.
*/
module SignupActivity {
  import opened Wrappers
  import Text
  import PasswordHash
  import Validation
  import LocalDatabaseHelper

  type Store = LocalDatabaseHelper.Store

  datatype SignupError =
    | UsernameRequired | UsernameTooShort
    | EmailRequired | EmailInvalid
    | PasswordRequired | PasswordTooShort
    | ConfirmationRequired | PasswordMismatch

  const MinUsernameLength: nat := 3
  const MinPasswordLength: nat := 6

  /** The checks of `validateInput` in the order it tries them, each paired with "this check fails". */
  function Checks(isEmail: string -> bool, username: string, email: string, password: string, confirmation: string)
    : seq<(SignupError, bool)>
  {
    [ (UsernameRequired, |username| == 0),
      (UsernameTooShort, Text.Utf16Length(username) < MinUsernameLength),
      (EmailRequired, |email| == 0),
      (EmailInvalid, !isEmail(email)),
      (PasswordRequired, |password| == 0),
      (PasswordTooShort, Text.Utf16Length(password) < MinPasswordLength),
      (ConfirmationRequired, |confirmation| == 0),
      (PasswordMismatch, password != confirmation) ]
  }

  /**
    `validateInput`: the error shown for the first failing check, none when
    the form is accepted; `isEmail` is the platform's e-mail pattern.
  */
  function ValidateInput(isEmail: string -> bool, username: string, email: string, password: string, confirmation: string)
    : (r: Option<SignupError>)
    ensures r == Validation.FirstFailure(Checks(isEmail, username, email, password, confirmation))
    ensures r.None? <==>
      && Text.Utf16Length(username) >= MinUsernameLength
      && |email| > 0 && isEmail(email)
      && Text.Utf16Length(password) >= MinPasswordLength
      && confirmation == password
  {
    var checks := Checks(isEmail, username, email, password, confirmation);
    if |username| == 0 then
      Validation.FirstFailureIs(checks, 0); Some(UsernameRequired)
    else if Text.Utf16Length(username) < MinUsernameLength then
      Validation.FirstFailureIs(checks, 1); Some(UsernameTooShort)
    else if |email| == 0 then
      Validation.FirstFailureIs(checks, 2); Some(EmailRequired)
    else if !isEmail(email) then
      Validation.FirstFailureIs(checks, 3); Some(EmailInvalid)
    else if |password| == 0 then
      Validation.FirstFailureIs(checks, 4); Some(PasswordRequired)
    else if Text.Utf16Length(password) < MinPasswordLength then
      Validation.FirstFailureIs(checks, 5); Some(PasswordTooShort)
    else if |confirmation| == 0 then
      Validation.FirstFailureIs(checks, 6); Some(ConfirmationRequired)
    else if password != confirmation then
      Validation.FirstFailureIs(checks, 7); Some(PasswordMismatch)
    else None
  }

  /** What pressing the sign-up button ends on; only `Created` leads back to the login screen. */
  datatype SignupOutcome = Invalid(error: SignupError) | UsernameInUse | Created | CreationFailed

  /**
    `registerUser`: a taken username stops before `createUser` is called;
    otherwise the account is created unless the email is taken, which the
    user sees only as a failure.
  */
  function RegisterUser(s: Store, sha: PasswordHash.Sha256, username: string, email: string, password: string)
    : (r: (Store, SignupOutcome))
    ensures r.1 == UsernameInUse <==> LocalDatabaseHelper.UsernameTaken(s, username)
    ensures r.1 == CreationFailed <==>
      !LocalDatabaseHelper.UsernameTaken(s, username) && LocalDatabaseHelper.EmailTaken(s, email)
    ensures r.1 == Created <==>
      !LocalDatabaseHelper.UsernameTaken(s, username) && !LocalDatabaseHelper.EmailTaken(s, email)
    ensures r.1 != Created ==> r.0 == s
    ensures r.1 == Created ==>
      && |r.0.users.rows| == |s.users.rows| + 1
      && r.0.users.rows[|s.users.rows|].data
         == LocalDatabaseHelper.UserData(username, email, PasswordHash.HashPassword(sha, password))
    ensures LocalDatabaseHelper.Valid(s) ==> LocalDatabaseHelper.Valid(r.0)
  {
    if LocalDatabaseHelper.UserExists(s, username) then (s, UsernameInUse)
    else
      var (s', success) := LocalDatabaseHelper.CreateUser(s, sha, username, email, password);
      if success then (s', Created) else (s', CreationFailed)
  }

  /** The sign-up button: trim all four fields, validate, then register. */
  function OnSignupClick(s: Store, sha: PasswordHash.Sha256, isEmail: string -> bool,
                         usernameField: string, emailField: string, passwordField: string, confirmationField: string)
    : (r: (Store, SignupOutcome))
    ensures var username := Text.Trim(usernameField);
      var email := Text.Trim(emailField);
      var password := Text.Trim(passwordField);
      var invalid := ValidateInput(isEmail, username, email, password, Text.Trim(confirmationField));
      && (r.1.Invalid? <==> invalid.Some?)
      && (r.1.Invalid? ==> r.1.error == invalid.value && r.0 == s)
      && (invalid.None? ==> r == RegisterUser(s, sha, username, email, password))
  {
    var username := Text.Trim(usernameField);
    var email := Text.Trim(emailField);
    var password := Text.Trim(passwordField);
    var confirmation := Text.Trim(confirmationField);
    match ValidateInput(isEmail, username, email, password, confirmation)
    case Some(e) => (s, Invalid(e))
    case None => RegisterUser(s, sha, username, email, password)
  }

  /** In a well-formed store a successful sign-up leaves no other row with the same username or email. */
  lemma CreatedAccountIsUnique(s: Store, sha: PasswordHash.Sha256, username: string, email: string, password: string)
    requires LocalDatabaseHelper.Valid(s)
    requires RegisterUser(s, sha, username, email, password).1 == Created
    ensures var s' := RegisterUser(s, sha, username, email, password).0;
      forall i :: 0 <= i < |s'.users.rows| && (s'.users.rows[i].data.username == username || s'.users.rows[i].data.email == email)
        ==> i == |s.users.rows|
  {
    LocalDatabaseHelper.CreatedUserIsLast(s, sha, username, email, password);
  }
}
