/**
  `PostAdapter`: how one feed entry becomes a card, how the heart reacts to
  a click, and how the list diff tells entries apart. The resource lookup,
  the photo loader and the two callbacks are parameters; `HomeFragment`
  supplies the callbacks.
*/
module PostAdapter {
  import opened Wrappers
  import opened Tables
  import opened Models
  import opened UserSession
  import LocalDatabaseHelper
  import HomeFragment

  type Store = LocalDatabaseHelper.Store

  /** Where the card's main photo comes from; `Placeholder` is the `photo_placeholder_1` drawable. */
  datatype Photo = Drawable(resId: int) | StoredPhoto(name: string) | Placeholder

  datatype Heart = Filled | Outline

  /** A bound card: title, subtitle, corner text, main photo, like count and heart. */
  datatype Card = Card(title: string, subtitle: string, stamp: string, photo: Photo, likeCount: int, heart: Heart)

  /**
    The main photo. A name the resources know as a drawable shows that
    drawable; otherwise the stored photo of that name, if it loads; in every
    other case, a post without an image included, the placeholder.
    `drawableId` is the resource lookup (0: no such drawable) and `loads`
    says whether the stored photo loads.
  */
  function PhotoFor(imageName: Option<string>, drawableId: string -> int, loads: string -> bool): (r: Photo)
    ensures r.Drawable? <==> imageName.Some? && drawableId(imageName.value) != 0
    ensures r.Drawable? ==> r.resId == drawableId(imageName.value) && r.resId != 0
    ensures r.StoredPhoto? <==> imageName.Some? && drawableId(imageName.value) == 0 && loads(imageName.value)
    ensures r.StoredPhoto? ==> r.name == imageName.value
    ensures r.Placeholder? <==> imageName.None? || (drawableId(imageName.value) == 0 && !loads(imageName.value))
  {
    match imageName
    case None => Placeholder
    case Some(name) =>
      var resId := drawableId(name);
      if resId != 0 then Drawable(resId)
      else if loads(name) then StoredPhoto(name)
      else Placeholder
  }

  /** A name the resources know is shown as that drawable, whatever the stored photos are: the loader is consulted only as the fallback. */
  lemma DrawableBeatsStoredPhoto(name: string, drawableId: string -> int, loads: string -> bool, loads': string -> bool)
    requires drawableId(name) != 0
    ensures PhotoFor(Some(name), drawableId, loads) == PhotoFor(Some(name), drawableId, loads') == Drawable(drawableId(name))
  {
  }

  /** Filled for a positive count, outlined otherwise. */
  function HeartFor(count: int): Heart {
    if count > 0 then Filled else Outline
  }

  /**
    `bind`: the author as title, the location or "" as subtitle, the stored
    timestamp text in the corner, and the count `getLikeCount` gives, with a
    filled heart exactly when that count is positive.
  */
  function Bind(post: Post, getLikeCount: int -> int, drawableId: string -> int, loads: string -> bool): (c: Card)
    ensures c.title == post.username && c.stamp == post.createdAt
    ensures post.location.Some? ==> c.subtitle == post.location.value
    ensures post.location.None? ==> c.subtitle == ""
    ensures c.photo == PhotoFor(post.imageName, drawableId, loads)
    ensures c.likeCount == getLikeCount(post.id)
    ensures c.heart == Filled <==> c.likeCount > 0
  {
    var count := getLikeCount(post.id);
    Card(post.username, post.location.GetOr(""), post.createdAt, PhotoFor(post.imageName, drawableId, loads),
         count, HeartFor(count))
  }

  /** The heart's click listener: the count `onLikeToggle` returned, the heart by the same rule; nothing else moves. */
  function OnHeartClick(c: Card, newCount: int): (r: Card)
    ensures r.likeCount == newCount
    ensures r.heart == Filled <==> newCount > 0
    ensures r.title == c.title && r.subtitle == c.subtitle && r.stamp == c.stamp && r.photo == c.photo
  {
    c.(likeCount := newCount, heart := HeartFor(newCount))
  }

  /** `PostDiffCallback.areItemsTheSame`: the same post id. */
  predicate AreItemsTheSame(a: Post, b: Post) {
    a.id == b.id
  }

  /** `PostDiffCallback.areContentsTheSame`: equal records. */
  predicate AreContentsTheSame(a: Post, b: Post) {
    a == b
  }

  /**
    Within the entries one store's feed can hold, the two diff tests agree:
    an id picks out exactly one entry, so "same item" already means "same
    contents".
  */
  lemma DiffTestsAgreeOnOneFeed(s: Store, x: Post, y: Post)
    requires Tables.Valid(s.posts)
    requires LocalDatabaseHelper.Joined(s, x) && LocalDatabaseHelper.Joined(s, y)
    ensures AreItemsTheSame(x, y) <==> AreContentsTheSame(x, y)
  {
    var p :| p in s.posts.rows && LocalDatabaseHelper.Owner(s, p).Some?
      && x == LocalDatabaseHelper.AsPost(p, LocalDatabaseHelper.Owner(s, p).value);
    var q :| q in s.posts.rows && LocalDatabaseHelper.Owner(s, q).Some?
      && y == LocalDatabaseHelper.AsPost(q, LocalDatabaseHelper.Owner(s, q).value);
    var i :| 0 <= i < |s.posts.rows| && s.posts.rows[i] == p;
    var j :| 0 <= j < |s.posts.rows| && s.posts.rows[j] == q;
    if x.id == y.id {
      UniqueIds(s.posts, i, j);
    }
  }

  /**
    A click on a card wired to the home screen: the card shows the post's
    count in the store after the toggle, and its heart is filled exactly
    when some like row of the post remains.
  */
  lemma ClickShowsStoredCount(s: Store, p: Session, c: Card, postId: int)
    requires HomeFragment.GetCurrentUserId(s, p) != -1
    ensures var (s', n) := HomeFragment.OnLikeToggle(s, p, postId);
      var shown := OnHeartClick(c, n);
      && shown.likeCount == LocalDatabaseHelper.GetLikeCount(s', postId)
      && (shown.heart == Filled <==> exists i :: 0 <= i < |s'.likes.rows| && s'.likes.rows[i].data.postId == postId)
  {
  }

  /**
    The heart does not show whether this user likes the post: when someone
    else likes it too, un-liking it leaves the heart filled.
  */
  lemma HeartIgnoresWhoLikes(s: Store, p: Session, c: Card, postId: int, other: int)
    requires HomeFragment.GetCurrentUserId(s, p) != -1
    requires LocalDatabaseHelper.HasUserLiked(s, postId, HomeFragment.GetCurrentUserId(s, p))
    requires other != HomeFragment.GetCurrentUserId(s, p) && LocalDatabaseHelper.HasUserLiked(s, postId, other)
    ensures var (s', n) := HomeFragment.OnLikeToggle(s, p, postId);
      && !LocalDatabaseHelper.HasUserLiked(s', postId, HomeFragment.GetCurrentUserId(s, p))
      && OnHeartClick(c, n).heart == Filled
  {
    var uid := HomeFragment.GetCurrentUserId(s, p);
    var s' := HomeFragment.OnLikeToggle(s, p, postId).0;
    LocalDatabaseHelper.ToggleLikeFrame(s, postId, uid, postId, other);
    assert LocalDatabaseHelper.HasUserLiked(s', postId, other);
  }
}
