/**
  `MainActivity`: the gate in front of the bottom-navigation screens. A
  session without the logged-in flag is sent to the login screen before any
  navigation is set up; logging out clears the session and does the same.
*/
module MainActivity {
  import opened Wrappers
  import opened UserSession

  datatype Destination = Home | Map | Notifications | Profile

  /** The action-bar title every destination shows. */
  const Title: string := "Check'N'Share"

  /** The four bottom-navigation entries, all top-level destinations. */
  const TopLevel: set<Destination> := {Home, Map, Notifications, Profile}

  /** What `onCreate` ends on: the login screen, or the navigation with its destinations and title. */
  datatype Launch = RedirectedToLogin | Navigation(topLevel: set<Destination>, title: string)

  datatype MenuItem = LogoutAction | OtherItem

  /** `isUserLoggedIn`: true only when the flag is stored and true; a missing key reads as false. */
  function IsUserLoggedIn(p: Session): (b: bool)
    ensures b <==> p.isLoggedIn == Some(true)
  {
    LoggedInFlag(p)
  }

  /** `onCreate`: no navigation at all unless the user is logged in. */
  function OnCreate(p: Session): (r: Launch)
    ensures r.RedirectedToLogin? <==> p.isLoggedIn != Some(true)
    ensures r.Navigation? ==> r.topLevel == TopLevel && r.title == Title && |r.topLevel| == 4
  {
    if !IsUserLoggedIn(p) then RedirectedToLogin else Navigation(TopLevel, Title)
  }

  /** `logout`: every key removed, then the login screen. */
  function Logout(p: Session): (r: (Session, Launch))
    ensures r.0.userId.None? && r.0.username.None? && r.0.email.None? && r.0.isLoggedIn.None?
    ensures r.1.RedirectedToLogin?
    ensures OnCreate(r.0).RedirectedToLogin?
  {
    (Cleared, RedirectedToLogin)
  }

  /**
    `onOptionsItemSelected`: the logout entry logs out and reports the
    event handled; any other entry leaves the session alone and its result
    is the superclass's, given here as `superHandled`.
  */
  function OnOptionsItemSelected(p: Session, item: MenuItem, superHandled: bool): (r: (Session, Option<Launch>, bool))
    ensures item == LogoutAction ==> r.1 == Some(RedirectedToLogin) && r.2 && !IsUserLoggedIn(r.0)
    ensures item != LogoutAction ==> r.0 == p && r.1.None? && r.2 == superHandled
  {
    match item
    case LogoutAction =>
      var (cleared, launch) := Logout(p);
      (cleared, Some(launch), true)
    case OtherItem => (p, None, superHandled)
  }

  /** Logging out is final until the next login: logging out again changes nothing. */
  lemma LogoutIdempotent(p: Session)
    ensures Logout(Logout(p).0) == Logout(p)
  {
  }
}
