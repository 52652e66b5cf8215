/**
  Properties that span screens: what a sign-up makes possible on the login
  screen, and what the login leaves for the main screen and the feed.
*/
module AppFlow {
  import opened Wrappers
  import opened Models
  import opened UserSession
  import Text
  import PasswordHash
  import LocalDatabaseHelper
  import SignupActivity
  import LoginActivity
  import MainActivity
  import HomeFragment

  type Store = LocalDatabaseHelper.Store

  /**
    In a well-formed store, an account just created through the sign-up form logs in with the same
    email and password fields: the login screen welcomes the new user, the
    main screen then opens its navigation, and the feed acts for that user.
  */
  lemma SignupThenLogin(s: Store, sha: PasswordHash.Sha256, isEmail: string -> bool, p: Session,
                        usernameField: string, emailField: string, passwordField: string, confirmationField: string)
    requires LocalDatabaseHelper.Valid(s)
    requires SignupActivity.OnSignupClick(s, sha, isEmail, usernameField, emailField, passwordField, confirmationField).1
      == SignupActivity.Created
    ensures var s' := SignupActivity.OnSignupClick(s, sha, isEmail, usernameField, emailField, passwordField, confirmationField).0;
      var (session, outcome) := LoginActivity.OnLoginClick(s', sha, isEmail, p, emailField, passwordField);
      && outcome.Welcomed?
      && outcome.user == User(s'.users.rows[|s.users.rows|].id, Text.Trim(usernameField), Text.Trim(emailField))
      && MainActivity.OnCreate(session).Navigation?
      && HomeFragment.GetCurrentUserId(s', session) == outcome.user.id
  {
    var username := Text.Trim(usernameField);
    var email := Text.Trim(emailField);
    var password := Text.Trim(passwordField);
    var s' := SignupActivity.OnSignupClick(s, sha, isEmail, usernameField, emailField, passwordField, confirmationField).0;
    SignupCreates(s, sha, isEmail, usernameField, emailField, passwordField, confirmationField);
    LoginAfterCreate(s, sha, p, username, email, password);
    LoginClickLogsIn(s', sha, isEmail, p, emailField, passwordField);
    assert s'.users.rows[|s.users.rows|].id >= 1;
  }

  /** Fields that pass the login checks go straight to `loginUser`, trimmed. */
  lemma LoginClickLogsIn(s: Store, sha: PasswordHash.Sha256, isEmail: string -> bool, p: Session,
                         emailField: string, passwordField: string)
    requires LoginActivity.ValidateInput(isEmail, Text.Trim(emailField), Text.Trim(passwordField)).None?
    ensures LoginActivity.OnLoginClick(s, sha, isEmail, p, emailField, passwordField)
         == LoginActivity.LoginUser(s, sha, p, Text.Trim(emailField), Text.Trim(passwordField))
  {
  }

  /** A sign-up that ends in `Created` went through `createUser` with the trimmed fields, which also pass the login checks. */
  lemma SignupCreates(s: Store, sha: PasswordHash.Sha256, isEmail: string -> bool,
                      usernameField: string, emailField: string, passwordField: string, confirmationField: string)
    requires SignupActivity.OnSignupClick(s, sha, isEmail, usernameField, emailField, passwordField, confirmationField).1
      == SignupActivity.Created
    ensures var username := Text.Trim(usernameField);
      var email := Text.Trim(emailField);
      var password := Text.Trim(passwordField);
      && LocalDatabaseHelper.CreateUser(s, sha, username, email, password).1
      && SignupActivity.OnSignupClick(s, sha, isEmail, usernameField, emailField, passwordField, confirmationField).0
         == LocalDatabaseHelper.CreateUser(s, sha, username, email, password).0
      && LoginActivity.ValidateInput(isEmail, email, password).None?
  {
    var username := Text.Trim(usernameField);
    var email := Text.Trim(emailField);
    var password := Text.Trim(passwordField);
    assert SignupActivity.ValidateInput(isEmail, username, email, password, Text.Trim(confirmationField)).None?;
  }

  /** Right after `createUser` succeeds, logging in with its email and password welcomes that new row's user. */
  lemma LoginAfterCreate(s: Store, sha: PasswordHash.Sha256, p: Session, username: string, email: string, password: string)
    requires LocalDatabaseHelper.CreateUser(s, sha, username, email, password).1
    ensures var s' := LocalDatabaseHelper.CreateUser(s, sha, username, email, password).0;
      var id := s'.users.rows[|s.users.rows|].id;
      LoginActivity.LoginUser(s', sha, p, email, password)
        == (Session(Some(id), Some(username), Some(email), Some(true)), LoginActivity.Welcomed(User(id, username, email)))
  {
    LocalDatabaseHelper.AuthenticateAfterCreate(s, sha, username, email, password);
  }

  /**
    Logging in and then out leaves a session the main screen turns away,
    whoever had logged in.
  */
  lemma LoginThenLogout(s: Store, sha: PasswordHash.Sha256, isEmail: string -> bool, p: Session,
                        emailField: string, passwordField: string)
    ensures var (session, outcome) := LoginActivity.OnLoginClick(s, sha, isEmail, p, emailField, passwordField);
      && (outcome.Welcomed? ==> MainActivity.OnCreate(session).Navigation?)
      && MainActivity.OnCreate(MainActivity.Logout(session).0).RedirectedToLogin?
  {
  }
}
