/**
  `PostRepository`: the post operations the screens call, each a thin layer
  over the local store. Lookups and per-user lists are read off the feed
  (`getAllPosts`), boolean results are derived from row counts, and `addLike`
  adds the "already liked" guard the raw store lacks.
*/
module PostRepository {
  import opened Wrappers
  import opened Tables
  import opened Models
  import LocalDatabaseHelper
  import PostOrder
  import Text
  import Timestamps

  type Store = LocalDatabaseHelper.Store

  /**
    `createPost`: the store's insert (stamping "dd-MM-yyy HH:mm"), its new id
    passed through unchanged; never -1 on a well-formed store.
  */
  function CreatePost(s: Store, userId: int, imageName: Option<string>, location: Option<string>, now: Timestamps.Clock): (r: (Store, int))
    ensures r.0.posts.rows == s.posts.rows
      + [Row(r.1, LocalDatabaseHelper.PostData(userId, imageName, location, location, Timestamps.AsWritten(now)))]
    ensures r.0.users == s.users && r.0.likes == s.likes && r.0.notifications == s.notifications
    ensures LocalDatabaseHelper.Valid(s) ==> LocalDatabaseHelper.Valid(r.0) && r.1 != -1
  {
    LocalDatabaseHelper.CreatePost(s, userId, imageName, location, now)
  }

  // ------------------------------------------------------------- lookups

  /** Kotlin `find { it.id == postId }`: the first entry with that id, or none. */
  function Find(posts: seq<Post>, postId: int): (r: Option<Post>)
    ensures r.None? <==> forall k :: 0 <= k < |posts| ==> posts[k].id != postId
    ensures r.Some? ==> exists k :: (0 <= k < |posts| && posts[k] == r.value && r.value.id == postId
      && forall j :: 0 <= j < k ==> posts[j].id != postId)
  {
    if |posts| == 0 then None
    else if posts[0].id == postId then Some(posts[0])
    else
      var r := Find(posts[1..], postId);
      assert forall k :: 1 <= k < |posts| ==> posts[1..][k - 1] == posts[k];
      if r.Some? then
        var k :| (0 <= k < |posts[1..]| && posts[1..][k] == r.value && r.value.id == postId
          && forall j :: 0 <= j < k ==> posts[1..][j].id != postId);
        assert posts[k + 1] == r.value;
        r
      else r
  }

  /** `getPostById`: the feed entry with that id, if the feed has one. */
  function GetPostById(s: Store, postId: int): (r: Option<Post>)
    ensures r.Some? ==> r.value.id == postId && LocalDatabaseHelper.Joined(s, r.value)
    ensures r.None? <==> forall k :: 0 <= k < |LocalDatabaseHelper.GetAllPosts(s)| ==>
      LocalDatabaseHelper.GetAllPosts(s)[k].id != postId
  {
    Find(LocalDatabaseHelper.GetAllPosts(s), postId)
  }

  /**
    A post is found by id exactly when it is stored and its author exists:
    the feed is an inner join, so a post whose author is missing is not found.
  */
  lemma GetPostByIdIffStored(s: Store, postId: int)
    ensures GetPostById(s, postId).Some? <==>
      exists i :: 0 <= i < |s.posts.rows| && s.posts.rows[i].id == postId
        && HasId(s.users.rows, s.posts.rows[i].data.userId)
  {
    var feed := LocalDatabaseHelper.GetAllPosts(s);
    var r := GetPostById(s, postId);
    if r.Some? {
      var x := r.value;
      var p :| p in s.posts.rows && LocalDatabaseHelper.Owner(s, p).Some?
        && x == LocalDatabaseHelper.AsPost(p, LocalDatabaseHelper.Owner(s, p).value);
      var i :| 0 <= i < |s.posts.rows| && s.posts.rows[i] == p;
      assert s.posts.rows[i].id == postId;
    } else {
      forall i | 0 <= i < |s.posts.rows| && s.posts.rows[i].id == postId
        ensures !HasId(s.users.rows, s.posts.rows[i].data.userId)
      {
      }
    }
  }

  /** The entries of the feed made by one user, in feed order (Kotlin `filter { it.userId == userId }`). */
  function PostsBy(posts: seq<Post>, userId: int): (r: seq<Post>)
    ensures |r| <= |posts|
    ensures forall k :: 0 <= k < |r| ==> r[k].userId == userId && r[k] in posts
  {
    if |posts| == 0 then []
    else (if posts[0].userId == userId then [posts[0]] else []) + PostsBy(posts[1..], userId)
  }

  /** `a` is `b` with some entries left out and the others in their original order. */
  predicate IsSubsequence(a: seq<Post>, b: seq<Post>)
    decreases |b|
  {
    if |a| == 0 then true
    else if |b| == 0 then false
    else if a[0] == b[0] then IsSubsequence(a[1..], b[1..])
    else IsSubsequence(a, b[1..])
  }

  /** The user's list leaves out only other users' entries and keeps the feed order. */
  lemma {:induction false} PostsByIsSubsequence(posts: seq<Post>, userId: int)
    ensures IsSubsequence(PostsBy(posts, userId), posts)
  {
    if |posts| > 0 {
      PostsByIsSubsequence(posts[1..], userId);
      var rest := PostsBy(posts[1..], userId);
      if posts[0].userId == userId {
        assert PostsBy(posts, userId) == [posts[0]] + rest;
        assert ([posts[0]] + rest)[1..] == rest;
      } else {
        assert PostsBy(posts, userId) == rest;
        if |rest| > 0 {
          assert rest[0].userId == userId;
        }
      }
    }
  }

  /** None of the user's entries is left out. */
  lemma {:induction false} PostsByKeeps(posts: seq<Post>, userId: int)
    ensures forall k :: 0 <= k < |posts| && posts[k].userId == userId ==> posts[k] in PostsBy(posts, userId)
  {
    if |posts| > 0 {
      PostsByKeeps(posts[1..], userId);
      forall k | 1 <= k < |posts| && posts[k].userId == userId ensures posts[k] in PostsBy(posts, userId) {
        assert posts[1..][k - 1] == posts[k];
      }
    }
  }

  /** A sub-list of a newest-first list is newest first. */
  lemma {:induction false} SubsequenceNewestFirst(a: seq<Post>, b: seq<Post>)
    requires IsSubsequence(a, b) && PostOrder.NewestFirst(b)
    ensures PostOrder.NewestFirst(a)
    decreases |b|
  {
    if |a| > 0 && |b| > 0 {
      if a[0] == b[0] {
        SubsequenceNewestFirst(a[1..], b[1..]);
        SubsequenceInside(a[1..], b[1..]);
        forall j | 0 < j < |a| ensures !Text.LexLess(a[0].createdAt, a[j].createdAt) {
          assert a[1..][j - 1] == a[j];
          var m :| 0 <= m < |b[1..]| && b[1..][m] == a[j];
          assert b[m + 1] == a[j];
        }
        forall i, j | 0 <= i < j < |a| ensures !Text.LexLess(a[i].createdAt, a[j].createdAt) {
          if i > 0 {
            assert a[1..][i - 1] == a[i] && a[1..][j - 1] == a[j];
          }
        }
      } else {
        SubsequenceNewestFirst(a, b[1..]);
      }
    }
  }

  /** Every entry of a sub-list is an entry of the list. */
  lemma {:induction false} SubsequenceInside(a: seq<Post>, b: seq<Post>)
    requires IsSubsequence(a, b)
    ensures forall j :: 0 <= j < |a| ==> exists m :: 0 <= m < |b| && b[m] == a[j]
    decreases |b|
  {
    if |a| > 0 {
      if a[0] == b[0] {
        SubsequenceInside(a[1..], b[1..]);
        forall j | 0 <= j < |a| ensures exists m :: 0 <= m < |b| && b[m] == a[j] {
          if j == 0 {
            assert b[0] == a[0];
          } else {
            assert a[1..][j - 1] == a[j];
            var m :| 0 <= m < |b[1..]| && b[1..][m] == a[j];
            assert b[m + 1] == a[j];
          }
        }
      } else {
        SubsequenceInside(a, b[1..]);
        forall j | 0 <= j < |a| ensures exists m :: 0 <= m < |b| && b[m] == a[j] {
          var m :| 0 <= m < |b[1..]| && b[1..][m] == a[j];
          assert b[m + 1] == a[j];
        }
      }
    }
  }

  /** `getPostsByUserId`: the user's entries of the feed, still newest first. */
  function GetPostsByUserId(s: Store, userId: int): (r: seq<Post>)
    ensures forall k :: 0 <= k < |r| ==> r[k].userId == userId && LocalDatabaseHelper.Joined(s, r[k])
    ensures PostOrder.NewestFirst(r)
    ensures IsSubsequence(r, LocalDatabaseHelper.GetAllPosts(s))
    ensures forall k :: 0 <= k < |LocalDatabaseHelper.GetAllPosts(s)| && LocalDatabaseHelper.GetAllPosts(s)[k].userId == userId ==>
      LocalDatabaseHelper.GetAllPosts(s)[k] in r
  {
    UserListFacts(s, userId);
    PostsByKeeps(LocalDatabaseHelper.GetAllPosts(s), userId);
    PostsBy(LocalDatabaseHelper.GetAllPosts(s), userId)
  }

  lemma UserListFacts(s: Store, userId: int)
    ensures var r := PostsBy(LocalDatabaseHelper.GetAllPosts(s), userId);
      && (forall k :: 0 <= k < |r| ==> LocalDatabaseHelper.Joined(s, r[k]))
      && PostOrder.NewestFirst(r)
      && IsSubsequence(r, LocalDatabaseHelper.GetAllPosts(s))
  {
    var feed := LocalDatabaseHelper.GetAllPosts(s);
    var r := PostsBy(feed, userId);
    PostsByIsSubsequence(feed, userId);
    SubsequenceNewestFirst(r, feed);
    forall k | 0 <= k < |r| ensures LocalDatabaseHelper.Joined(s, r[k]) {
      assert r[k] in feed;
      var j :| 0 <= j < |feed| && feed[j] == r[k];
    }
  }

  // ------------------------------------------------------------- deletes

  /** `deletePost`: true iff the store reports a deleted post; the post and its likes are gone either way. */
  function DeletePost(s: Store, postId: int): (r: (Store, bool))
    ensures r.1 <==> HasId(s.posts.rows, postId)
    ensures GetPostById(r.0, postId).None?
    ensures LocalDatabaseHelper.GetLikeCount(r.0, postId) == 0
    ensures r.0.users == s.users && r.0.notifications == s.notifications
    ensures LocalDatabaseHelper.Valid(s) ==> LocalDatabaseHelper.Valid(r.0)
  {
    var (s', deleted) := LocalDatabaseHelper.DeletePost(s, postId);
    GetPostByIdIffStored(s', postId);
    (s', deleted > 0)
  }

  // --------------------------------------------------------------- likes

  /** `hasUserLiked`: the user has at least one like row on the post. */
  function HasUserLiked(s: Store, postId: int, userId: int): (b: bool)
    ensures b <==> |LocalDatabaseHelper.LikesBy(s, postId, userId)| > 0
  {
    LocalDatabaseHelper.HasUserLiked(s, postId, userId)
  }

  /**
    `addLike`: refuses (false, nothing written) when the user already likes
    the post; otherwise adds one row and reports whether the store returned
    a row id other than -1, which on a well-formed store it always does.
  */
  function AddLike(s: Store, postId: int, userId: int): (r: (Store, bool))
    ensures HasUserLiked(s, postId, userId) ==> r == (s, false)
    ensures !HasUserLiked(s, postId, userId) ==>
      && |LocalDatabaseHelper.LikesBy(r.0, postId, userId)| == 1
      && LocalDatabaseHelper.GetLikeCount(r.0, postId) == LocalDatabaseHelper.GetLikeCount(s, postId) + 1
    ensures r.1 ==> !HasUserLiked(s, postId, userId)
    ensures LocalDatabaseHelper.Valid(s) ==> (r.1 <==> !HasUserLiked(s, postId, userId))
    ensures HasUserLiked(r.0, postId, userId)
    ensures r.0.users == s.users && r.0.posts == s.posts && r.0.notifications == s.notifications
    ensures LocalDatabaseHelper.Valid(s) ==> LocalDatabaseHelper.Valid(r.0)
  {
    if HasUserLiked(s, postId, userId) then (s, false)
    else
      var (s', result) := LocalDatabaseHelper.AddLike(s, postId, userId);
      assert LocalDatabaseHelper.Valid(s) ==> result != -1 by {
        if LocalDatabaseHelper.Valid(s) {
          assert s'.likes.rows[|s.likes.rows|].id == result;
        }
      }
      (s', result != -1)
  }

  /** `n` taps on "like" through the repository. */
  function AddLikeRepeatedly(s: Store, postId: int, userId: int, n: nat): (r: Store)
    ensures |LocalDatabaseHelper.LikesBy(s, postId, userId)| <= 1 ==> |LocalDatabaseHelper.LikesBy(r, postId, userId)| <= 1
    ensures n > 0 ==> HasUserLiked(r, postId, userId)
    ensures n == 0 ==> r == s
    decreases n
  {
    if n == 0 then s else AddLikeRepeatedly(AddLike(s, postId, userId).0, postId, userId, n - 1)
  }

  /** `removeLike`: true iff at least one like row of the pair was deleted; afterwards the user does not like the post. */
  function RemoveLike(s: Store, postId: int, userId: int): (r: (Store, bool))
    ensures r.1 <==> HasUserLiked(s, postId, userId)
    ensures !HasUserLiked(r.0, postId, userId)
    ensures LocalDatabaseHelper.Valid(s) ==> LocalDatabaseHelper.Valid(r.0)
    ensures r.0.users == s.users && r.0.posts == s.posts && r.0.notifications == s.notifications
  {
    var (s', removed) := LocalDatabaseHelper.RemoveLike(s, postId, userId);
    (s', removed > 0)
  }

  /** `toggleLike`: the store's result unchanged, which is the new liked state. */
  function ToggleLike(s: Store, postId: int, userId: int): (r: (Store, bool))
    ensures r.1 == !HasUserLiked(s, postId, userId)
    ensures HasUserLiked(r.0, postId, userId) == r.1
    ensures LocalDatabaseHelper.Valid(s) ==> LocalDatabaseHelper.Valid(r.0)
    ensures r.0.users == s.users && r.0.posts == s.posts && r.0.notifications == s.notifications
  {
    LocalDatabaseHelper.ToggleLike(s, postId, userId)
  }

  // ------------------------------------------------------- cross-call facts

  /**
    A post created for an existing author is then found by its new id, with
    what was given to `createPost` and the "dd-MM-yyy HH:mm" text of `now`.
  */
  lemma CreatedPostIsFound(s: Store, userId: int, imageName: Option<string>, location: Option<string>, now: Timestamps.Clock)
    requires LocalDatabaseHelper.Valid(s) && HasId(s.users.rows, userId)
    ensures var (s', id) := CreatePost(s, userId, imageName, location, now);
      && GetPostById(s', id).Some?
      && GetPostById(s', id).value == Post(id, userId, GetPostById(s', id).value.username,
           imageName, location, location, Timestamps.AsWritten(now))
  {
    var (s', id) := CreatePost(s, userId, imageName, location, now);
    var last := |s.posts.rows|;
    var row := s'.posts.rows[last];
    assert row.id == id && row.data.userId == userId;
    var k := LocalDatabaseHelper.FeedIndexOf(s', row);
    var x := GetPostById(s', id).value;
    SameRowFound(s', x, row);
  }

  /** A feed entry with the id of a stored post is that post's joined row. */
  lemma SameRowFound(s: Store, x: Post, a: Row<LocalDatabaseHelper.PostData>)
    requires Tables.Valid(s.posts) && a in s.posts.rows
    requires LocalDatabaseHelper.Joined(s, x) && x.id == a.id
    ensures x == Post(a.id, a.data.userId, x.username, a.data.imageName, a.data.location, a.data.location, a.data.createdAt)
  {
    var p :| p in s.posts.rows && LocalDatabaseHelper.Owner(s, p).Some?
      && x == LocalDatabaseHelper.AsPost(p, LocalDatabaseHelper.Owner(s, p).value);
    var ip :| 0 <= ip < |s.posts.rows| && s.posts.rows[ip] == p;
    var ia :| 0 <= ia < |s.posts.rows| && s.posts.rows[ia] == a;
    UniqueIds(s.posts, ip, ia);
  }

  /** Foreign keys are not enforced: a post for a missing author is stored but never found. */
  lemma OrphanPostIsHidden(s: Store, userId: int, imageName: Option<string>, location: Option<string>, now: Timestamps.Clock)
    requires LocalDatabaseHelper.Valid(s) && !HasId(s.users.rows, userId)
    ensures var (s', id) := CreatePost(s, userId, imageName, location, now);
      HasId(s'.posts.rows, id) && GetPostById(s', id).None?
  {
    var (s', id) := CreatePost(s, userId, imageName, location, now);
    var last := |s.posts.rows|;
    assert s'.posts.rows[last].id == id;
    GetPostByIdIffStored(s', id);
    forall i | 0 <= i < |s'.posts.rows| && s'.posts.rows[i].id == id
      ensures !HasId(s'.users.rows, s'.posts.rows[i].data.userId)
    {
      UniqueIds(s'.posts, i, last);
    }
  }
}
