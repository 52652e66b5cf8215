/**
  `LoginActivity`: the login form. Both fields are trimmed, checked in a
  fixed order, and the account is then looked up by EMAIL (the field the
  layout calls "username" holds the email). Success writes the whole session
  and opens the main screen; failure leaves the session as it was.
*/
module LoginActivity {
  import opened Wrappers
  import opened Models
  import opened UserSession
  import Text
  import PasswordHash
  import Validation
  import LocalDatabaseHelper

  type Store = LocalDatabaseHelper.Store

  datatype LoginError = EmailRequired | EmailInvalid | PasswordRequired | PasswordTooShort

  const MinPasswordLength: nat := 6

  /** The checks of `validateInput` in the order it tries them, each paired with "this check fails". */
  function Checks(isEmail: string -> bool, email: string, password: string): seq<(LoginError, bool)> {
    [ (EmailRequired, |email| == 0),
      (EmailInvalid, !isEmail(email)),
      (PasswordRequired, |password| == 0),
      (PasswordTooShort, Text.Utf16Length(password) < MinPasswordLength) ]
  }

  /**
    `validateInput`: the error shown for the first failing check, none when
    the input is accepted; `isEmail` is the platform's e-mail pattern.
  */
  function ValidateInput(isEmail: string -> bool, email: string, password: string): (r: Option<LoginError>)
    ensures r == Validation.FirstFailure(Checks(isEmail, email, password))
    ensures r.None? <==> |email| > 0 && isEmail(email) && Text.Utf16Length(password) >= MinPasswordLength
  {
    var checks := Checks(isEmail, email, password);
    if |email| == 0 then
      Validation.FirstFailureIs(checks, 0); Some(EmailRequired)
    else if !isEmail(email) then
      Validation.FirstFailureIs(checks, 1); Some(EmailInvalid)
    else if |password| == 0 then
      Validation.FirstFailureIs(checks, 2); Some(PasswordRequired)
    else if Text.Utf16Length(password) < MinPasswordLength then
      Validation.FirstFailureIs(checks, 3); Some(PasswordTooShort)
    else None
  }

  /** What pressing the login button ends on. */
  datatype LoginOutcome = Invalid(error: LoginError) | Refused | Welcomed(user: User)

  /** `saveUserSession`: the four keys, written together. */
  function SaveUserSession(userId: int, username: string, email: string): Session {
    Session(Some(userId), Some(username), Some(email), Some(true))
  }

  /**
    `loginUser`: a user comes back exactly when a row has this email and the
    digest of this password; the session then names that user. A username is
    never accepted in place of the email.
  */
  function LoginUser(s: Store, sha: PasswordHash.Sha256, p: Session, email: string, password: string): (r: (Session, LoginOutcome))
    ensures r.1.Welcomed? <==> LocalDatabaseHelper.Registered(s, sha, LocalDatabaseHelper.ByEmail(email), password)
    ensures r.1.Welcomed? ==> && r.1.user.email == email
                              && r.0 == Session(Some(r.1.user.id), Some(r.1.user.username), Some(email), Some(true))
                              && exists i :: (0 <= i < |s.users.rows| && s.users.rows[i].id == r.1.user.id
                                   && s.users.rows[i].data.username == r.1.user.username)
    ensures !r.1.Welcomed? ==> r == (p, Refused)
  {
    match LocalDatabaseHelper.AuthenticateUserByEmail(s, sha, email, password)
    case None => (p, Refused)
    case Some(user) => (SaveUserSession(user.id, user.username, user.email), Welcomed(user))
  }

  /** The login button: trim both fields, validate, then log in; the store is only read. */
  function OnLoginClick(s: Store, sha: PasswordHash.Sha256, isEmail: string -> bool, p: Session,
                        emailField: string, passwordField: string): (r: (Session, LoginOutcome))
    ensures var email := Text.Trim(emailField);
      var password := Text.Trim(passwordField);
      && (r.1.Invalid? <==> ValidateInput(isEmail, email, password).Some?)
      && (r.1.Invalid? ==> r.1.error == ValidateInput(isEmail, email, password).value)
      && (r.1.Welcomed? <==>
            && ValidateInput(isEmail, email, password).None?
            && LocalDatabaseHelper.Registered(s, sha, LocalDatabaseHelper.ByEmail(email), password))
      && (r.1.Welcomed? ==> r.1.user.email == email && r.0.isLoggedIn == Some(true) && r.0.userId == Some(r.1.user.id))
      && (!r.1.Welcomed? ==> r.0 == p)
  {
    var email := Text.Trim(emailField);
    var password := Text.Trim(passwordField);
    match ValidateInput(isEmail, email, password)
    case Some(e) => (p, Invalid(e))
    case None => LoginUser(s, sha, p, email, password)
  }

  /** Blanks around what was typed never matter: the trimmed fields log in exactly as the raw ones. */
  lemma SurroundingBlanksIgnored(s: Store, sha: PasswordHash.Sha256, isEmail: string -> bool, p: Session,
                                 emailField: string, passwordField: string)
    ensures OnLoginClick(s, sha, isEmail, p, Text.Trim(emailField), Text.Trim(passwordField))
         == OnLoginClick(s, sha, isEmail, p, emailField, passwordField)
  {
    Text.TrimIdempotent(emailField);
    Text.TrimIdempotent(passwordField);
  }
}
