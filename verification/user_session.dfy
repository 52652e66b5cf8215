/**
  The "UserSession" shared-preferences file: four keys, each present or
  absent. `LoginActivity` writes all four, `MainActivity` reads the flag and
  clears the file on logout, `HomeFragment` reads the user id.
*/
module UserSession {
  import opened Wrappers

  datatype Session = Session(
    userId: Option<int>,
    username: Option<string>,
    email: Option<string>,
    isLoggedIn: Option<bool>)

  /** The file after `edit().clear().apply()`, or before anyone logged in. */
  const Cleared: Session := Session(None, None, None, None)

  /** `getBoolean("isLoggedIn", false)` */
  function LoggedInFlag(p: Session): bool {
    p.isLoggedIn.GetOr(false)
  }

  /** `getInt("userId", -1)` */
  function StoredUserId(p: Session): int {
    p.userId.GetOr(-1)
  }
}
