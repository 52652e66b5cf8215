/**
  `HomeFragment`: the feed screen's two writes. Both act for the "current
  user", read from the session with a fallback to any user of the store; a
  like toggles and reports the post's new count, a publish creates one post
  whose location is the dialog's location text unless it is blank or still the
  placeholder. Location lookup, camera and photo storage are outside.
*/
module HomeFragment {
  import opened Wrappers
  import opened Tables
  import opened Models
  import opened UserSession
  import Text
  import Timestamps
  import PostOrder
  import LocalDatabaseHelper
  import PasswordHash
  import Schema

  type Store = LocalDatabaseHelper.Store

  /**
    `getCurrentUserId`: the session's user id when one is stored (whether
    or not that user still exists), else the smallest user id, else -1.
  */
  function GetCurrentUserId(s: Store, p: Session): (id: int)
    ensures StoredUserId(p) != -1 ==> id == StoredUserId(p)
    ensures StoredUserId(p) == -1 && id != -1 ==>
      HasId(s.users.rows, id) && forall i :: 0 <= i < |s.users.rows| ==> id <= s.users.rows[i].id
    ensures LocalDatabaseHelper.Valid(s) ==> (id == -1 <==> StoredUserId(p) == -1 && |s.users.rows| == 0)
  {
    var id := StoredUserId(p);
    if id != -1 then id else LocalDatabaseHelper.GetAnyUserId(s)
  }

  /** The like handler's second fallback to `getAnyUserId` never changes the user it acts for. */
  lemma SecondFallbackRedundant(s: Store, p: Session)
    ensures var uid := GetCurrentUserId(s, p);
      (if uid != -1 then uid else LocalDatabaseHelper.GetAnyUserId(s)) == uid
  {
  }

  /**
    The adapter's `onLikeToggle`: toggles the current user's like and
    returns the post's count afterwards; with no user to act for, nothing is
    written and the count shown is 0.
  */
  function OnLikeToggle(s: Store, p: Session, postId: int): (r: (Store, int))
    ensures var uid := GetCurrentUserId(s, p);
      && (uid == -1 ==> r == (s, 0))
      && (uid != -1 ==>
            && r.1 == LocalDatabaseHelper.GetLikeCount(r.0, postId)
            && LocalDatabaseHelper.HasUserLiked(r.0, postId, uid) == !LocalDatabaseHelper.HasUserLiked(s, postId, uid)
            && r.0.users == s.users && r.0.posts == s.posts)
  {
    var uid := GetCurrentUserId(s, p);
    var userId := if uid != -1 then uid else LocalDatabaseHelper.GetAnyUserId(s);
    if userId == -1 then (s, 0)
    else
      var s' := LocalDatabaseHelper.ToggleLike(s, postId, userId).0;
      (s', LocalDatabaseHelper.GetLikeCount(s', postId))
  }

  /** What pressing "publish" ends on. */
  datatype PublishOutcome = NoUser | Published(rowId: int) | PublishFailed

  /**
    The location a post is published with: the text shown in the dialog's
    location field, unless it is blank or still reads `placeholder` (the `add_location` string resource).
  */
  function LocationText(shown: string, placeholder: string): (r: Option<string>)
    ensures r.Some? <==> !Text.IsBlank(shown) && shown != placeholder
    ensures r.Some? ==> r.value == shown
  {
    if !Text.IsBlank(shown) && shown != placeholder then Some(shown) else None
  }

  /**
    The publish button: with no user to act for, nothing is written;
    otherwise exactly one post is appended for that user, its `created_at`
    the reading `now` formatted "dd-MM-yyy HH:mm" as `createPost` does.
  */
  function Publish(s: Store, p: Session, imageName: Option<string>, shown: string, placeholder: string,
                   now: Timestamps.Clock): (r: (Store, PublishOutcome))
    ensures r.1 == NoUser <==> GetCurrentUserId(s, p) == -1
    ensures r.1 == NoUser ==> r.0 == s
    ensures r.1 != NoUser ==>
      && |r.0.posts.rows| == |s.posts.rows| + 1
      && r.0.posts.rows[..|s.posts.rows|] == s.posts.rows
      && r.0.posts.rows[|s.posts.rows|].data == LocalDatabaseHelper.PostData(GetCurrentUserId(s, p), imageName,
           LocationText(shown, placeholder), LocationText(shown, placeholder), Timestamps.AsWritten(now))
      && (r.1.Published? ==> r.0.posts.rows[|s.posts.rows|].id == r.1.rowId)
      && r.0.users == s.users && r.0.likes == s.likes
    ensures LocalDatabaseHelper.Valid(s) ==> LocalDatabaseHelper.Valid(r.0) && !r.1.PublishFailed?
  {
    var uid := GetCurrentUserId(s, p);
    if uid == -1 then (s, NoUser)
    else
      var (s', rowId) := LocalDatabaseHelper.CreatePost(s, uid, imageName, LocationText(shown, placeholder), now);
      assert s'.posts.rows[..|s.posts.rows|] == s.posts.rows;
      (s', if rowId != -1 then Published(rowId) else PublishFailed)
  }

  /** The publish button over the corrected `createPost`, which stores the "yyyy-MM-dd HH:mm:ss" text. */
  function PublishCorrected(s: Store, p: Session, imageName: Option<string>, shown: string, placeholder: string,
                            now: Timestamps.Clock): (r: (Store, PublishOutcome))
    ensures r.1 == NoUser <==> GetCurrentUserId(s, p) == -1
    ensures r.1 == NoUser ==> r.0 == s
    ensures r.1 != NoUser ==>
      && |r.0.posts.rows| == |s.posts.rows| + 1
      && r.0.posts.rows[..|s.posts.rows|] == s.posts.rows
      && r.0.posts.rows[|s.posts.rows|].data == LocalDatabaseHelper.PostData(GetCurrentUserId(s, p), imageName,
           LocationText(shown, placeholder), LocationText(shown, placeholder), Timestamps.Timestamp(now))
      && (r.1.Published? ==> r.0.posts.rows[|s.posts.rows|].id == r.1.rowId)
      && r.0.users == s.users && r.0.likes == s.likes
    ensures LocalDatabaseHelper.Valid(s) ==> LocalDatabaseHelper.Valid(r.0) && !r.1.PublishFailed?
  {
    var uid := GetCurrentUserId(s, p);
    if uid == -1 then (s, NoUser)
    else
      var (s', rowId) := LocalDatabaseHelper.CreatePostCorrected(s, uid, imageName, LocationText(shown, placeholder), now);
      assert s'.posts.rows[..|s.posts.rows|] == s.posts.rows;
      (s', if rowId != -1 then Published(rowId) else PublishFailed)
  }

  /**
    With the corrected `createPost`, the refreshed feed (scrolled to its top)
    starts with the new post, provided its author exists and every stored
    timestamp sorts below the new one (as it does when every stored text is
    a `Timestamp` of an earlier reading).
  */
  lemma PublishedPostOnTop(s: Store, p: Session, imageName: Option<string>, shown: string, placeholder: string,
                           now: Timestamps.Clock)
    requires LocalDatabaseHelper.Valid(s)
    requires HasId(s.users.rows, GetCurrentUserId(s, p))
    requires forall i :: 0 <= i < |s.posts.rows| ==> Text.LexLess(s.posts.rows[i].data.createdAt, Timestamps.Timestamp(now))
    ensures var (s', outcome) := PublishCorrected(s, p, imageName, shown, placeholder, now);
      && outcome.Published?
      && |LocalDatabaseHelper.GetAllPosts(s')| > 0
      && LocalDatabaseHelper.GetAllPosts(s')[0].id == outcome.rowId
  {
    var (s', outcome) := PublishCorrected(s, p, imageName, shown, placeholder, now);
    var n := |s.posts.rows|;
    TopIsNewest(s', n, Timestamps.Timestamp(now));
  }

  /**
    As written, on a database `onCreate` (or `onUpgrade`) seeded in the years
    2000 to 2099, a post the seed user publishes on days 1 to 20 of any month
    is not the post the refreshed feed starts with, however much later it is
    made: its "dd-MM-yyy HH:mm" text sorts below the seed posts'
    `CURRENT_TIMESTAMP` text.
  */
  lemma SeededPublishNotOnTop(s: Store, sha: PasswordHash.Sha256, seedTime: Timestamps.Clock, p: Session,
                              imageName: Option<string>, shown: string, placeholder: string, now: Timestamps.Clock)
    requires Schema.Seeded(s, sha, seedTime)
    requires 2000 <= seedTime.year <= 2099 && now.day <= 20
    requires StoredUserId(p) == -1 || StoredUserId(p) == 1
    ensures var (s', outcome) := Publish(s, p, imageName, shown, placeholder, now);
      && outcome.Published?
      && |LocalDatabaseHelper.GetAllPosts(s')| > 0
      && LocalDatabaseHelper.GetAllPosts(s')[0].id != outcome.rowId
  {
    Schema.SeededFirstPost(s, sha, seedTime);
    assert HasId(s.users.rows, 1) && GetCurrentUserId(s, p) == 1;
    Timestamps.AsWrittenBelowTimestamp(now, seedTime);
    PublishBelowNotOnTop(s, p, imageName, shown, placeholder, now, 0);
  }

  /**
    As written, when a stored post with an existing author has a text above
    the new post's "dd-MM-yyy HH:mm" text, the refreshed feed does not start
    with the new post.
  */
  lemma PublishBelowNotOnTop(s: Store, p: Session, imageName: Option<string>, shown: string, placeholder: string,
                             now: Timestamps.Clock, i: int)
    requires LocalDatabaseHelper.Valid(s)
    requires HasId(s.users.rows, GetCurrentUserId(s, p))
    requires 0 <= i < |s.posts.rows| && HasId(s.users.rows, s.posts.rows[i].data.userId)
    requires Text.LexLess(Timestamps.AsWritten(now), s.posts.rows[i].data.createdAt)
    ensures var (s', outcome) := Publish(s, p, imageName, shown, placeholder, now);
      && outcome.Published?
      && |LocalDatabaseHelper.GetAllPosts(s')| > 0
      && LocalDatabaseHelper.GetAllPosts(s')[0].id != outcome.rowId
  {
    var r := Publish(s, p, imageName, shown, placeholder, now);
    var s' := r.0;
    var n := |s.posts.rows|;
    assert r.1.Published? && s'.posts.rows[n].id == r.1.rowId;
    assert s'.posts.rows[i] == s.posts.rows[i];
    assert s'.posts.rows[n].data.createdAt == Timestamps.AsWritten(now);
    assert s'.posts.rows[n].data.userId == GetCurrentUserId(s, p);
    LocalDatabaseHelper.BelowNotFirst(s', i, n);
  }

  /**
    In a store whose last post row's text sorts above every other row's, a
    last row with an existing author heads the feed.
  */
  lemma TopIsNewest(s: Store, n: int, top: string)
    requires Tables.Valid(s.posts) && 0 <= n && |s.posts.rows| == n + 1
    requires s.posts.rows[n].data.createdAt == top
    requires HasId(s.users.rows, s.posts.rows[n].data.userId)
    requires forall i :: 0 <= i < n ==> Text.LexLess(s.posts.rows[i].data.createdAt, top)
    ensures |LocalDatabaseHelper.GetAllPosts(s)| > 0 && LocalDatabaseHelper.GetAllPosts(s)[0].id == s.posts.rows[n].id
  {
    var feed := LocalDatabaseHelper.GetAllPosts(s);
    var k := LocalDatabaseHelper.FeedIndexOf(s, s.posts.rows[n]);
    var first, shown := feed[0], feed[k].createdAt;
    var i := EntrySource(s, first);
    assert i != n ==> Text.LexLess(first.createdAt, top);
    assert k != 0 ==> !Text.LexLess(first.createdAt, shown);
  }

  /** The stored row a feed entry comes from: same id, same timestamp. */
  lemma EntrySource(s: Store, x: Post) returns (i: int)
    requires LocalDatabaseHelper.Joined(s, x)
    ensures 0 <= i < |s.posts.rows| && s.posts.rows[i].id == x.id
    ensures x.createdAt == s.posts.rows[i].data.createdAt
  {
    var q :| q in s.posts.rows && LocalDatabaseHelper.Owner(s, q).Some?
      && x == LocalDatabaseHelper.AsPost(q, LocalDatabaseHelper.Owner(s, q).value);
    i :| 0 <= i < |s.posts.rows| && s.posts.rows[i] == q;
  }
}
