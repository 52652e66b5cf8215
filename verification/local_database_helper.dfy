/**
  The local SQLite store (`LocalDatabaseHelper`): four tables and the
  operations the app calls on them. Each operation is a pure transition from
  one `Store` to the next together with the value the Kotlin method returns.

  Behaviours of the engine that matter here:
  - `users.username` and `users.email` are UNIQUE: an insert that repeats
    either is refused and `db.insert` reports -1;
  - foreign keys are declared but SQLite on Android does not enforce them
    unless asked to, and this store never asks: a post may name a missing
    user and a like a missing post;
  - `likes` has no uniqueness constraint, so the same (post, user) pair may
    occur many times.
*/
module LocalDatabaseHelper {
  import opened Wrappers
  import opened Tables
  import opened Models
  import PasswordHash
  import PostOrder
  import Timestamps
  import Text

  /** `DATABASE_VERSION`: a stored database with a lower version is dropped and recreated. */
  const DatabaseVersion: int := 3

  /** `time_ago` of a freshly created notification. */
  const JustNow: string := "\U{E0} l'instant"

  /** Columns of `users` besides the id (`created_at` is never read and is left out). */
  datatype UserData = UserData(username: string, email: string, password: string)

  /** Columns of `posts` besides the id. */
  datatype PostData = PostData(
    userId: int,
    imageName: Option<string>,
    location: Option<string>,
    locationAddress: Option<string>,
    createdAt: string)

  /** Columns of `likes` besides the id. */
  datatype LikeData = LikeData(postId: int, userId: int)

  /** Columns of `notifications` besides the id; `isRead` is the INTEGER flag 0/1. */
  datatype NotificationData = NotificationData(
    recipient: int,
    actor: Option<string>,
    action: Option<string>,
    location: Option<string>,
    timeAgo: Option<string>,
    profileImage: Option<string>,
    isRead: int)

  datatype Store = Store(
    users: Table<UserData>,
    posts: Table<PostData>,
    likes: Table<LikeData>,
    notifications: Table<NotificationData>)

  /** The four tables just after `CREATE TABLE`, before any seed row. */
  function EmptyStore(): (s: Store)
    ensures Valid(s)
  {
    Store(Tables.Empty(), Tables.Empty(), Tables.Empty(), Tables.Empty())
  }

  /**
    What every operation preserves: well-formed id columns, the UNIQUE
    constraints on username and email, and passwords stored only as
    64-character hex digests.
  */
  ghost predicate Valid(s: Store) {
    && Tables.Valid(s.users) && Tables.Valid(s.posts)
    && Tables.Valid(s.likes) && Tables.Valid(s.notifications)
    && (forall i, j :: 0 <= i < j < |s.users.rows| ==>
          && s.users.rows[i].data.username != s.users.rows[j].data.username
          && s.users.rows[i].data.email != s.users.rows[j].data.email)
    && (forall i :: 0 <= i < |s.users.rows| ==> PasswordHash.IsDigestHex(s.users.rows[i].data.password))
  }

  // ---------------------------------------------------------------- users

  /** How a login names its account: `authenticateUser` takes a username, `authenticateUserByEmail` an email. */
  datatype Credential = ByUsername(name: string) | ByEmail(address: string)

  predicate Names(row: Row<UserData>, who: Credential) {
    match who
    case ByUsername(n) => row.data.username == n
    case ByEmail(e) => row.data.email == e
  }

  /** Some user row is named by `who` and stores the digest of `password`. */
  ghost predicate Registered(s: Store, sha: PasswordHash.Sha256, who: Credential, password: string) {
    exists i :: 0 <= i < |s.users.rows| && Names(s.users.rows[i], who)
      && s.users.rows[i].data.password == PasswordHash.HashPassword(sha, password)
  }

  /**
    The shared body of both authentication methods: a first query for the
    name alone (no row: null), then a second for name and digest together
    (no row: null, otherwise the first row found).
  */
  function Authenticate(s: Store, sha: PasswordHash.Sha256, who: Credential, password: string): (r: Option<User>)
    ensures r.Some? <==> Registered(s, sha, who, password)
    ensures r.Some? ==> exists i :: (0 <= i < |s.users.rows| && Names(s.users.rows[i], who)
      && s.users.rows[i].data.password == PasswordHash.HashPassword(sha, password)
      && r.value == User(s.users.rows[i].id, s.users.rows[i].data.username, s.users.rows[i].data.email))
  {
    var hashed := PasswordHash.HashPassword(sha, password);
    if First(s.users.rows, (u: Row<UserData>) => Names(u, who)).None? then None
    else
      match First(s.users.rows, (u: Row<UserData>) => Names(u, who) && u.data.password == hashed)
      case None => None
      case Some(u) => Some(User(u.id, u.data.username, u.data.email))
  }

  /** `authenticateUser`: a user comes back iff a row has this username and the digest of this password. */
  function AuthenticateUser(s: Store, sha: PasswordHash.Sha256, username: string, password: string): (r: Option<User>)
    ensures r.Some? <==> exists i :: (0 <= i < |s.users.rows| && s.users.rows[i].data.username == username
      && s.users.rows[i].data.password == PasswordHash.HashPassword(sha, password))
    ensures r.Some? ==> r.value.username == username
  {
    Authenticate(s, sha, ByUsername(username), password)
  }

  /** `authenticateUserByEmail`: the same rule, matching on email. */
  function AuthenticateUserByEmail(s: Store, sha: PasswordHash.Sha256, email: string, password: string): (r: Option<User>)
    ensures r.Some? <==> exists i :: (0 <= i < |s.users.rows| && s.users.rows[i].data.email == email
      && s.users.rows[i].data.password == PasswordHash.HashPassword(sha, password))
    ensures r.Some? ==> r.value.email == email
  {
    Authenticate(s, sha, ByEmail(email), password)
  }

  predicate UsernameTaken(s: Store, username: string) {
    exists i :: 0 <= i < |s.users.rows| && s.users.rows[i].data.username == username
  }

  predicate EmailTaken(s: Store, email: string) {
    exists i :: 0 <= i < |s.users.rows| && s.users.rows[i].data.email == email
  }

  /**
    `db.insert` into `users`, which the UNIQUE constraints refuse when the
    username or the email is already present (nothing written); otherwise
    exactly one new row holding the digest, never the password itself.
  */
  function InsertUser(s: Store, sha: PasswordHash.Sha256, username: string, email: string, password: string): (r: (Store, Option<int>))
    ensures r.1.None? <==> UsernameTaken(s, username) || EmailTaken(s, email)
    ensures r.1.None? ==> r.0 == s
    ensures r.1.Some? ==>
      && r.0.users.rows == s.users.rows + [Row(r.1.value, UserData(username, email, PasswordHash.HashPassword(sha, password)))]
      && r.0.posts == s.posts && r.0.likes == s.likes && r.0.notifications == s.notifications
    ensures Valid(s) ==> Valid(r.0)
    ensures Valid(s) && r.1.Some? ==> r.1.value >= 1 && !HasId(s.users.rows, r.1.value)
  {
    if UsernameTaken(s, username) || EmailTaken(s, email) then (s, None)
    else
      var (users, id) := Insert(s.users, UserData(username, email, PasswordHash.HashPassword(sha, password)));
      (s.(users := users), Some(id))
  }

  /** `createUserReturnId`: the new user's id, or -1 when the username or the email is taken. */
  function CreateUserReturnId(s: Store, sha: PasswordHash.Sha256, username: string, email: string, password: string): (r: (Store, int))
    ensures UsernameTaken(s, username) || EmailTaken(s, email) ==> r == (s, -1)
    ensures !UsernameTaken(s, username) && !EmailTaken(s, email) ==>
      && r.0.users.rows == s.users.rows + [Row(r.1, UserData(username, email, PasswordHash.HashPassword(sha, password)))]
      && r.0.posts == s.posts && r.0.likes == s.likes && r.0.notifications == s.notifications
    ensures Valid(s) ==> Valid(r.0)
    ensures Valid(s) && !UsernameTaken(s, username) && !EmailTaken(s, email) ==> r.1 >= 1 && !HasId(s.users.rows, r.1)
  {
    var (s', id) := InsertUser(s, sha, username, email, password);
    (s', id.GetOr(-1))
  }

  /** `createUser`: true iff the insert went through, i.e. neither the username nor the email was taken. */
  function CreateUser(s: Store, sha: PasswordHash.Sha256, username: string, email: string, password: string): (r: (Store, bool))
    ensures r.1 <==> !UsernameTaken(s, username) && !EmailTaken(s, email)
    ensures !r.1 ==> r.0 == s
    ensures r.1 ==> (|r.0.users.rows| == |s.users.rows| + 1
      && r.0.users.rows[..|s.users.rows|] == s.users.rows
      && r.0.users.rows[|s.users.rows|].data == UserData(username, email, PasswordHash.HashPassword(sha, password))
      && r.0.posts == s.posts && r.0.likes == s.likes && r.0.notifications == s.notifications)
    ensures Valid(s) ==> Valid(r.0)
  {
    var (s', id) := InsertUser(s, sha, username, email, password);
    (s', id.Some?)
  }

  /** `userExists`: some row has this username. */
  function UserExists(s: Store, username: string): (b: bool)
    ensures b <==> UsernameTaken(s, username)
  {
    FilterNonEmpty(s.users.rows, (u: Row<UserData>) => u.data.username == username);
    |Filter(s.users.rows, (u: Row<UserData>) => u.data.username == username)| > 0
  }

  /** The smallest id in a non-empty table (`ORDER BY id ASC LIMIT 1`). */
  function MinId<P>(rows: seq<Row<P>>): (m: int)
    requires |rows| > 0
    ensures exists i :: 0 <= i < |rows| && rows[i].id == m
    ensures forall i :: 0 <= i < |rows| ==> m <= rows[i].id
  {
    if |rows| == 1 then rows[0].id
    else
      var m := MinId(rows[1..]);
      assert forall i :: 1 <= i < |rows| ==> rows[1..][i - 1] == rows[i];
      if rows[0].id <= m then rows[0].id else m
  }

  /** `getAnyUserId`: the smallest user id, or -1 when there is no user. */
  function GetAnyUserId(s: Store): (id: int)
    ensures |s.users.rows| == 0 ==> id == -1
    ensures |s.users.rows| > 0 ==> HasId(s.users.rows, id) && forall i :: 0 <= i < |s.users.rows| ==> id <= s.users.rows[i].id
    ensures Valid(s) ==> (id == -1 <==> |s.users.rows| == 0)
  {
    if |s.users.rows| == 0 then -1 else MinId(s.users.rows)
  }

  // ---------------------------------------------------------------- posts

  /**
    The insert behind `createPost`: one new row that stores the location in
    both the `location` and `location_address` columns, and `createdAt` as
    its `created_at` text. Foreign keys are not enforced, so the insert
    never fails.
  */
  function InsertPost(s: Store, userId: int, imageName: Option<string>, location: Option<string>, createdAt: string): (r: (Store, int))
    ensures r.0.posts.rows == s.posts.rows + [Row(r.1, PostData(userId, imageName, location, location, createdAt))]
    ensures r.0.users == s.users && r.0.likes == s.likes && r.0.notifications == s.notifications
    ensures Valid(s) ==> Valid(r.0) && r.1 >= 1 && !HasId(s.posts.rows, r.1)
  {
    var (posts, id) := Insert(s.posts, PostData(userId, imageName, location, location, createdAt));
    (s.(posts := posts), id)
  }

  /**
    `createPost` as written: the clock reading `now` (which the Kotlin code
    takes itself) is stored formatted "dd-MM-yyy HH:mm".
  */
  function CreatePost(s: Store, userId: int, imageName: Option<string>, location: Option<string>, now: Timestamps.Clock): (r: (Store, int))
    ensures r.0.posts.rows == s.posts.rows
      + [Row(r.1, PostData(userId, imageName, location, location, Timestamps.AsWritten(now)))]
    ensures r.0.users == s.users && r.0.likes == s.likes && r.0.notifications == s.notifications
    ensures Valid(s) ==> Valid(r.0) && r.1 >= 1 && !HasId(s.posts.rows, r.1)
  {
    InsertPost(s, userId, imageName, location, Timestamps.AsWritten(now))
  }

  /**
    `createPost` corrected: the same insert storing the "yyyy-MM-dd HH:mm:ss"
    text that the column default and the `Post` record use, so that the
    feed's text order is the time order.
  */
  function CreatePostCorrected(s: Store, userId: int, imageName: Option<string>, location: Option<string>, now: Timestamps.Clock): (r: (Store, int))
    ensures r.0.posts.rows == s.posts.rows
      + [Row(r.1, PostData(userId, imageName, location, location, Timestamps.Timestamp(now)))]
    ensures r.0.users == s.users && r.0.likes == s.likes && r.0.notifications == s.notifications
    ensures Valid(s) ==> Valid(r.0) && r.1 >= 1 && !HasId(s.posts.rows, r.1)
  {
    InsertPost(s, userId, imageName, location, Timestamps.Timestamp(now))
  }

  /** The author row the JOIN pairs a post with. */
  function Owner(s: Store, p: Row<PostData>): (r: Option<Row<UserData>>)
    ensures r.None? <==> !HasId(s.users.rows, p.data.userId)
    ensures r.Some? ==> r.value in s.users.rows && r.value.id == p.data.userId
  {
    First(s.users.rows, (u: Row<UserData>) => u.id == p.data.userId)
  }

  /**
    One joined row. The SELECT reads `p.location AS location_address`, so the
    feed's `locationAddress` is always the location, whatever the
    `location_address` column holds.
  */
  function AsPost(p: Row<PostData>, owner: Row<UserData>): Post {
    Post(p.id, p.data.userId, owner.data.username, p.data.imageName, p.data.location, p.data.location, p.data.createdAt)
  }

  /** `x` is the joined row of some post in `posts` whose author exists. */
  ghost predicate JoinedFrom(s: Store, posts: seq<Row<PostData>>, x: Post) {
    exists p :: p in posts && Owner(s, p).Some? && x == AsPost(p, Owner(s, p).value)
  }

  /** The entry is in the feed: its post is stored, its author exists, and it is their joined row. */
  ghost predicate Joined(s: Store, x: Post) {
    JoinedFrom(s, s.posts.rows, x)
  }

  /** `posts JOIN users ON posts.userId = users.id`, before ordering. */
  function Join(s: Store, posts: seq<Row<PostData>>): (r: seq<Post>)
    ensures |r| <= |posts|
  {
    if |posts| == 0 then []
    else
      var rest := Join(s, posts[1..]);
      match Owner(s, posts[0])
      case None => rest
      case Some(u) => [AsPost(posts[0], u)] + rest
  }

  /** Every joined entry is the joined row of one of the posts. */
  lemma {:induction false} JoinSound(s: Store, posts: seq<Row<PostData>>)
    ensures forall k :: 0 <= k < |Join(s, posts)| ==> JoinedFrom(s, posts, Join(s, posts)[k])
  {
    if |posts| > 0 {
      JoinSound(s, posts[1..]);
      var rest := Join(s, posts[1..]);
      forall k | 0 <= k < |rest| ensures JoinedFrom(s, posts, rest[k]) {
        var p :| p in posts[1..] && Owner(s, p).Some? && rest[k] == AsPost(p, Owner(s, p).value);
        assert p in posts;
      }
    }
  }

  /** No post with an existing author is left out of the join. */
  lemma {:induction false} JoinComplete(s: Store, posts: seq<Row<PostData>>)
    ensures forall i :: 0 <= i < |posts| && Owner(s, posts[i]).Some? ==>
      AsPost(posts[i], Owner(s, posts[i]).value) in Join(s, posts)
  {
    if |posts| > 0 {
      JoinComplete(s, posts[1..]);
      forall i | 1 <= i < |posts| && Owner(s, posts[i]).Some?
        ensures AsPost(posts[i], Owner(s, posts[i]).value) in Join(s, posts)
      {
        assert posts[1..][i - 1] == posts[i];
      }
    }
  }

  /**
    `getAllPosts`: exactly the posts whose author exists (inner join), with
    `locationAddress` equal to `location`, newest `created_at` first as
    strings.
  */
  function GetAllPosts(s: Store): (r: seq<Post>)
    ensures PostOrder.NewestFirst(r)
    ensures forall k :: 0 <= k < |r| ==> r[k].locationAddress == r[k].location
    ensures forall k :: 0 <= k < |r| ==> Joined(s, r[k])
    ensures forall i :: 0 <= i < |s.posts.rows| && HasId(s.users.rows, s.posts.rows[i].data.userId) ==>
      exists k :: 0 <= k < |r| && r[k].id == s.posts.rows[i].id
    ensures multiset(r) == multiset(Join(s, s.posts.rows))
  {
    var joined := Join(s, s.posts.rows);
    var r := PostOrder.SortNewestFirst(joined);
    PostOrder.SortKeepsEntries(joined);
    FeedEntries(s, joined, r);
    r
  }

  lemma FeedEntries(s: Store, joined: seq<Post>, r: seq<Post>)
    requires joined == Join(s, s.posts.rows)
    requires forall x :: x in r <==> x in joined
    ensures forall k :: 0 <= k < |r| ==> r[k].locationAddress == r[k].location
    ensures forall k :: 0 <= k < |r| ==> Joined(s, r[k])
    ensures forall i :: 0 <= i < |s.posts.rows| && HasId(s.users.rows, s.posts.rows[i].data.userId) ==>
      exists k :: 0 <= k < |r| && r[k].id == s.posts.rows[i].id
  {
    JoinSound(s, s.posts.rows);
    JoinComplete(s, s.posts.rows);
    forall k | 0 <= k < |r| ensures Joined(s, r[k]) && r[k].locationAddress == r[k].location {
      assert r[k] in joined;
      var j :| 0 <= j < |joined| && joined[j] == r[k];
      assert JoinedFrom(s, s.posts.rows, joined[j]);
    }
    forall i | 0 <= i < |s.posts.rows| && HasId(s.users.rows, s.posts.rows[i].data.userId)
      ensures exists k :: 0 <= k < |r| && r[k].id == s.posts.rows[i].id
    {
      var p := s.posts.rows[i];
      var x := AsPost(p, Owner(s, p).value);
      assert x in joined;
      assert x in r;
      var k :| 0 <= k < |r| && r[k] == x;
    }
  }

  /** `deletePost`: first every like of the post, then the post; returns the number of posts deleted. */
  function DeletePost(s: Store, postId: int): (r: (Store, int))
    ensures GetLikeCount(r.0, postId) == 0
    ensures !HasId(r.0.posts.rows, postId)
    ensures r.1 == |Filter(s.posts.rows, (p: Row<PostData>) => p.id == postId)|
    ensures r.1 > 0 <==> HasId(s.posts.rows, postId)
    ensures Valid(s) ==> Valid(r.0) && r.1 <= 1
    ensures r.0.users == s.users && r.0.notifications == s.notifications
  {
    var notThisPost := (l: Row<LikeData>) => l.data.postId != postId;
    var likes := Filter(s.likes.rows, notThisPost);
    var isPost := (p: Row<PostData>) => p.id == postId;
    var keep := (p: Row<PostData>) => p.id != postId;
    var posts := Filter(s.posts.rows, keep);
    var s' := s.(likes := s.likes.(rows := likes), posts := s.posts.(rows := posts));
    FilterDisjoint(s.likes.rows, notThisPost, (l: Row<LikeData>) => l.data.postId == postId);
    FilterSplit(s.posts.rows, keep, isPost);
    FilterNonEmpty(s.posts.rows, isPost);
    assert Valid(s) ==> Valid(s') && |Filter(s.posts.rows, isPost)| <= 1 by {
      if Valid(s) {
        FilterValid(s.likes, notThisPost);
        FilterValid(s.posts, keep);
        AtMostOneWithId(s.posts, postId);
        assert Filter(s.posts.rows, isPost) == Filter(s.posts.rows, (p: Row<PostData>) => p.id == postId);
      }
    }
    (s', |s.posts.rows| - |posts|)
  }

  // ---------------------------------------------------------------- likes

  /** The like rows of one post. */
  function LikesOf(s: Store, postId: int): seq<Row<LikeData>> {
    Filter(s.likes.rows, (l: Row<LikeData>) => l.data.postId == postId)
  }

  /** The like rows of one (post, user) pair: several when the pair was liked more than once. */
  function LikesBy(s: Store, postId: int, userId: int): seq<Row<LikeData>> {
    Filter(s.likes.rows, (l: Row<LikeData>) => l.data == LikeData(postId, userId))
  }

  /** `getLikeCount`: `COUNT(*)` of the post's like rows; 0 exactly when it has none. */
  function GetLikeCount(s: Store, postId: int): (n: nat)
    ensures n <= |s.likes.rows|
    ensures n == 0 <==> forall i :: 0 <= i < |s.likes.rows| ==> s.likes.rows[i].data.postId != postId
  {
    FilterNonEmpty(s.likes.rows, (l: Row<LikeData>) => l.data.postId == postId);
    |LikesOf(s, postId)|
  }

  /** `hasUserLiked`: at least one like row for the pair. */
  function HasUserLiked(s: Store, postId: int, userId: int): (b: bool)
    ensures b <==> exists i :: 0 <= i < |s.likes.rows| && s.likes.rows[i].data == LikeData(postId, userId)
  {
    FilterNonEmpty(s.likes.rows, (l: Row<LikeData>) => l.data == LikeData(postId, userId));
    |LikesBy(s, postId, userId)| > 0
  }

  /**
    `addLike`: appends one row, with no check for an existing like of the
    same pair, so the post's count and the pair's count both rise by one.
  */
  function AddLike(s: Store, postId: int, userId: int): (r: (Store, int))
    ensures r.0.likes.rows == s.likes.rows + [Row(r.1, LikeData(postId, userId))]
    ensures GetLikeCount(r.0, postId) == GetLikeCount(s, postId) + 1
    ensures |LikesBy(r.0, postId, userId)| == |LikesBy(s, postId, userId)| + 1
    ensures HasUserLiked(r.0, postId, userId)
    ensures r.0.users == s.users && r.0.posts == s.posts && r.0.notifications == s.notifications
    ensures Valid(s) ==> Valid(r.0)
  {
    var (likes, id) := Insert(s.likes, LikeData(postId, userId));
    var s' := s.(likes := likes);
    var added := [Row(id, LikeData(postId, userId))];
    FilterAppend(s.likes.rows, added, (l: Row<LikeData>) => l.data.postId == postId);
    FilterAppend(s.likes.rows, added, (l: Row<LikeData>) => l.data == LikeData(postId, userId));
    assert s'.likes.rows[|s.likes.rows|] == added[0];
    (s', id)
  }

  /**
    `removeLike`: deletes every row of the pair and returns how many there
    were; afterwards the user no longer likes the post.
  */
  function RemoveLike(s: Store, postId: int, userId: int): (r: (Store, int))
    ensures !HasUserLiked(r.0, postId, userId)
    ensures r.1 == |LikesBy(s, postId, userId)|
    ensures r.1 > 0 <==> HasUserLiked(s, postId, userId)
    ensures GetLikeCount(r.0, postId) == GetLikeCount(s, postId) - r.1
    ensures r.0.users == s.users && r.0.posts == s.posts && r.0.notifications == s.notifications
    ensures Valid(s) ==> Valid(r.0)
  {
    var pair := (l: Row<LikeData>) => l.data == LikeData(postId, userId);
    var other := (l: Row<LikeData>) => l.data != LikeData(postId, userId);
    var ofPost := (l: Row<LikeData>) => l.data.postId == postId;
    var likes := Filter(s.likes.rows, other);
    var s' := s.(likes := s.likes.(rows := likes));
    FilterDisjoint(s.likes.rows, other, pair);
    assert Filter(likes, pair) == LikesBy(s', postId, userId);
    FilterSplit(s.likes.rows, other, pair);
    // The post's rows split into the pair's rows and the rest.
    FilterFilter(s.likes.rows, ofPost, pair);
    FilterFilter(s.likes.rows, other, (l: Row<LikeData>) => ofPost(l) && other(l));
    FilterSplit(Filter(s.likes.rows, ofPost), other, pair);
    FilterFilter(s.likes.rows, ofPost, (l: Row<LikeData>) => ofPost(l) && other(l));
    SwapFilters(s.likes.rows, ofPost, other);
    assert Valid(s) ==> Valid(s') by {
      if Valid(s) { FilterValid(s.likes, other); }
    }
    (s', |s.likes.rows| - |likes|)
  }

  /** Filtering by two conditions in either order gives the same rows. */
  lemma {:induction false} SwapFilters<P>(rows: seq<Row<P>>, f: Row<P> -> bool, g: Row<P> -> bool)
    ensures Filter(Filter(rows, f), g) == Filter(Filter(rows, g), f)
  {
    if |rows| > 0 {
      SwapFilters(rows[1..], f, g);
      var x := rows[0];
      FilterAppend(if f(x) then [x] else [], Filter(rows[1..], f), g);
      FilterAppend(if g(x) then [x] else [], Filter(rows[1..], g), f);
    }
  }

  /**
    `toggleLike`: check, then act. Returns the new liked state, the negation
    of the old one: a liked pair loses all its rows, an unliked pair gains one.
  */
  function ToggleLike(s: Store, postId: int, userId: int): (r: (Store, bool))
    ensures r.1 == !HasUserLiked(s, postId, userId)
    ensures HasUserLiked(r.0, postId, userId) == r.1
    ensures r.1 ==> GetLikeCount(r.0, postId) == GetLikeCount(s, postId) + 1
    ensures !r.1 ==> GetLikeCount(r.0, postId) == GetLikeCount(s, postId) - |LikesBy(s, postId, userId)|
    ensures r.0.users == s.users && r.0.posts == s.posts && r.0.notifications == s.notifications
    ensures Valid(s) ==> Valid(r.0)
  {
    if HasUserLiked(s, postId, userId) then
      (RemoveLike(s, postId, userId).0, false)
    else
      (AddLike(s, postId, userId).0, true)
  }

  // -------------------------------------------------------- notifications

  predicate AddressedTo(n: Row<NotificationData>, recipient: Option<int>) {
    recipient.None? || n.data.recipient == recipient.value
  }

  /** The `WHERE` condition of the notification query, as one value shared by the query and its lemmas. */
  function ForRecipient(recipient: Option<int>): Row<NotificationData> -> bool {
    (n: Row<NotificationData>) => AddressedTo(n, recipient)
  }

  /** One row as the list shows it: a NULL text column becomes "", the profile image stays nullable. */
  function AsNotification(n: Row<NotificationData>): (u: Notification)
    ensures u.id == n.id && u.profileImageUrl == n.data.profileImage
    ensures n.data.actor.None? ==> u.userName == ""
    ensures n.data.action.None? ==> u.action == ""
    ensures n.data.location.None? ==> u.location == ""
    ensures n.data.timeAgo.None? ==> u.timeAgo == ""
    ensures n.data.actor.Some? ==> u.userName == n.data.actor.value
    ensures n.data.action.Some? ==> u.action == n.data.action.value
    ensures n.data.location.Some? ==> u.location == n.data.location.value
    ensures n.data.timeAgo.Some? ==> u.timeAgo == n.data.timeAgo.value
  {
    Notification(n.id, n.data.actor.GetOr(""), n.data.action.GetOr(""), n.data.location.GetOr(""),
                 n.data.timeAgo.GetOr(""), n.data.profileImage)
  }

  /** The rows, converted, last row first. */
  function LastFirst(rows: seq<Row<NotificationData>>): (r: seq<Notification>)
    ensures |r| == |rows|
    ensures forall k :: 0 <= k < |r| ==> r[k] == AsNotification(rows[|rows| - 1 - k])
  {
    seq(|rows|, k requires 0 <= k < |rows| => AsNotification(rows[|rows| - 1 - k]))
  }

  /** `n` is the rendering of some notification row addressed to `recipient`. */
  ghost predicate RendersRowFor(s: Store, recipient: Option<int>, n: Notification) {
    exists i :: 0 <= i < |s.notifications.rows| && AddressedTo(s.notifications.rows[i], recipient)
      && n == AsNotification(s.notifications.rows[i])
  }

  /**
    `getAllNotifications`: the notifications of `recipient` (all of them
    when it is null), one entry per row, highest id first.
  */
  function GetAllNotifications(s: Store, recipient: Option<int>): (r: seq<Notification>)
    ensures |r| == |Filter(s.notifications.rows, ForRecipient(recipient))|
    ensures forall k :: 0 <= k < |r| ==> RendersRowFor(s, recipient, r[k])
    ensures forall i :: 0 <= i < |s.notifications.rows| && AddressedTo(s.notifications.rows[i], recipient) ==>
      AsNotification(s.notifications.rows[i]) in r
    ensures Valid(s) ==> forall k, l :: 0 <= k < l < |r| ==> r[k].id > r[l].id
  {
    var mine := Filter(s.notifications.rows, ForRecipient(recipient));
    NotificationEntries(s, recipient, mine);
    LastFirst(mine)
  }

  lemma NotificationEntries(s: Store, recipient: Option<int>, mine: seq<Row<NotificationData>>)
    requires mine == Filter(s.notifications.rows, ForRecipient(recipient))
    ensures forall k :: 0 <= k < |mine| ==> RendersRowFor(s, recipient, LastFirst(mine)[k])
    ensures forall i :: 0 <= i < |s.notifications.rows| && AddressedTo(s.notifications.rows[i], recipient) ==>
      AsNotification(s.notifications.rows[i]) in LastFirst(mine)
    ensures Valid(s) ==> forall k, l :: 0 <= k < l < |mine| ==> LastFirst(mine)[k].id > LastFirst(mine)[l].id
  {
    forall k | 0 <= k < |mine| ensures RendersRowFor(s, recipient, LastFirst(mine)[k]) {
      var i := NotificationSource(s, recipient, mine, k);
    }
    NotificationsComplete(s, recipient, mine);
    NotificationsDescending(s, recipient, mine);
  }

  /** In a well-formed notifications table the listed ids strictly descend. */
  lemma NotificationsDescending(s: Store, recipient: Option<int>, mine: seq<Row<NotificationData>>)
    requires mine == Filter(s.notifications.rows, ForRecipient(recipient))
    ensures Tables.Valid(s.notifications) ==> forall k, l :: 0 <= k < l < |mine| ==> LastFirst(mine)[k].id > LastFirst(mine)[l].id
  {
    if Tables.Valid(s.notifications) {
      FilterValid(s.notifications, ForRecipient(recipient));
      LastFirstDescending(mine, s.notifications.nextId);
    }
  }

  /** The row the `k`-th listed notification comes from. */
  lemma NotificationSource(s: Store, recipient: Option<int>, mine: seq<Row<NotificationData>>, k: int) returns (i: int)
    requires mine == Filter(s.notifications.rows, ForRecipient(recipient))
    requires 0 <= k < |mine|
    ensures 0 <= i < |s.notifications.rows| && AddressedTo(s.notifications.rows[i], recipient)
    ensures LastFirst(mine)[k] == AsNotification(s.notifications.rows[i])
  {
    i := FilterSource(s.notifications.rows, ForRecipient(recipient), |mine| - 1 - k);
  }

  lemma NotificationsComplete(s: Store, recipient: Option<int>, mine: seq<Row<NotificationData>>)
    requires mine == Filter(s.notifications.rows, ForRecipient(recipient))
    ensures forall i :: 0 <= i < |s.notifications.rows| && AddressedTo(s.notifications.rows[i], recipient) ==>
      AsNotification(s.notifications.rows[i]) in LastFirst(mine)
  {
    var r := LastFirst(mine);
    FilterKeeps(s.notifications.rows, ForRecipient(recipient));
    forall i | 0 <= i < |s.notifications.rows| && AddressedTo(s.notifications.rows[i], recipient)
      ensures AsNotification(s.notifications.rows[i]) in r
    {
      var row := s.notifications.rows[i];
      assert row in mine;
      var j :| 0 <= j < |mine| && mine[j] == row;
      assert r[|mine| - 1 - j] == AsNotification(row);
    }
  }

  lemma LastFirstDescending(rows: seq<Row<NotificationData>>, nextId: int)
    requires Tables.Valid(Table(rows, nextId))
    ensures forall k, l :: 0 <= k < l < |rows| ==> LastFirst(rows)[k].id > LastFirst(rows)[l].id
  {
    var r := LastFirst(rows);
    forall k, l | 0 <= k < l < |rows| ensures r[k].id > r[l].id {
      assert r[k].id == rows[|rows| - 1 - k].id;
      assert r[l].id == rows[|rows| - 1 - l].id;
    }
  }

  /** `createNotification`: one new unread row marked "à l'instant". */
  function CreateNotification(s: Store, recipient: int, actor: string, action: string,
                              location: Option<string>, profileImage: Option<string>): (r: (Store, int))
    ensures r.0.notifications.rows == s.notifications.rows
      + [Row(r.1, NotificationData(recipient, Some(actor), Some(action), location, Some(JustNow), profileImage, 0))]
    ensures r.0.users == s.users && r.0.posts == s.posts && r.0.likes == s.likes
    ensures Valid(s) ==> Valid(r.0) && r.1 >= 1 && !HasId(s.notifications.rows, r.1)
  {
    var (notifications, id) := Insert(s.notifications,
      NotificationData(recipient, Some(actor), Some(action), location, Some(JustNow), profileImage, 0));
    (s.(notifications := notifications), id)
  }

  /** `UPDATE notifications SET is_read = 1 WHERE id = ?` on a list of rows. */
  function SetRead(rows: seq<Row<NotificationData>>, id: int): (r: seq<Row<NotificationData>>)
    ensures |r| == |rows|
    ensures forall i :: 0 <= i < |r| ==> r[i].id == rows[i].id
    ensures forall i :: 0 <= i < |r| ==>
      r[i].data == (if rows[i].id == id then rows[i].data.(isRead := 1) else rows[i].data)
  {
    if |rows| == 0 then []
    else
      var x := rows[0];
      var rest := SetRead(rows[1..], id);
      assert forall i :: 1 <= i < |rows| ==> rest[i - 1].id == rows[i].id && rows[1..][i - 1] == rows[i];
      [if x.id == id then x.(data := x.data.(isRead := 1)) else x] + rest
  }

  /** Flagging rows read keeps their ids, so the table stays valid. */
  lemma SetReadValid(t: Table<NotificationData>, id: int)
    requires Tables.Valid(t)
    ensures Tables.Valid(t.(rows := SetRead(t.rows, id)))
  {
  }

  /**
    `markNotificationAsRead`: flags the row with this id as read, touches no
    other row and no other column, and returns the number of rows matched.
  */
  function MarkNotificationAsRead(s: Store, id: int): (r: (Store, int))
    ensures |r.0.notifications.rows| == |s.notifications.rows|
    ensures forall i :: 0 <= i < |s.notifications.rows| ==>
      && r.0.notifications.rows[i].id == s.notifications.rows[i].id
      && r.0.notifications.rows[i].data == (if s.notifications.rows[i].id == id
           then s.notifications.rows[i].data.(isRead := 1) else s.notifications.rows[i].data)
    ensures r.1 > 0 <==> HasId(s.notifications.rows, id)
    ensures r.0.users == s.users && r.0.posts == s.posts && r.0.likes == s.likes
    ensures Valid(s) ==> Valid(r.0) && r.1 <= 1
  {
    var matched := Filter(s.notifications.rows, (n: Row<NotificationData>) => n.id == id);
    FilterNonEmpty(s.notifications.rows, (n: Row<NotificationData>) => n.id == id);
    assert Valid(s) ==> |matched| <= 1 by {
      if Valid(s) { AtMostOneWithId(s.notifications, id); }
    }
    assert Valid(s) ==> Tables.Valid(s.notifications.(rows := SetRead(s.notifications.rows, id))) by {
      if Valid(s) { SetReadValid(s.notifications, id); }
    }
    (s.(notifications := s.notifications.(rows := SetRead(s.notifications.rows, id))), |matched|)
  }

  // --------------------------------------------------- properties across calls

  /** The rows before a successful `createUser` carry neither its username nor its email. */
  lemma CreatedUserIsLast(s: Store, sha: PasswordHash.Sha256, username: string, email: string, password: string)
    requires CreateUser(s, sha, username, email, password).1
    ensures var s' := CreateUser(s, sha, username, email, password).0;
      forall i :: 0 <= i < |s.users.rows| ==> s'.users.rows[i].data.username != username && s'.users.rows[i].data.email != email
  {
    var s' := CreateUser(s, sha, username, email, password).0;
    assert forall i :: 0 <= i < |s.users.rows| ==> s'.users.rows[i] == s.users.rows[i] by {
      assert s'.users.rows[..|s.users.rows|] == s.users.rows;
    }
  }

  /** After `createUser` succeeds, logging in with the same email or username and password finds exactly that user. */
  lemma AuthenticateAfterCreate(s: Store, sha: PasswordHash.Sha256, username: string, email: string, password: string)
    requires CreateUser(s, sha, username, email, password).1
    ensures var s' := CreateUser(s, sha, username, email, password).0;
      var u := AuthenticateUserByEmail(s', sha, email, password);
      && u.Some? && u.value.id == s'.users.rows[|s.users.rows|].id
      && u.value.username == username && u.value.email == email
    ensures var s' := CreateUser(s, sha, username, email, password).0;
      AuthenticateUser(s', sha, username, password) == AuthenticateUserByEmail(s', sha, email, password)
  {
    var s' := CreateUser(s, sha, username, email, password).0;
    var n := |s.users.rows|;
    CreatedUserIsLast(s, sha, username, email, password);
    var hashed := PasswordHash.HashPassword(sha, password);
    assert s'.users.rows[n].data == UserData(username, email, hashed);
    var byEmail := AuthenticateUserByEmail(s', sha, email, password);
    var byName := AuthenticateUser(s', sha, username, password);
    assert byEmail.Some?;
    assert byName.Some?;
    var i :| 0 <= i < |s'.users.rows| && s'.users.rows[i].data.email == email
      && byEmail.value == User(s'.users.rows[i].id, s'.users.rows[i].data.username, s'.users.rows[i].data.email);
    assert i == n;
    var j :| 0 <= j < |s'.users.rows| && s'.users.rows[j].data.username == username
      && byName.value == User(s'.users.rows[j].id, s'.users.rows[j].data.username, s'.users.rows[j].data.email);
    assert j == n;
  }

  /** After `createUser` succeeds, a password with a different digest does not log in. */
  lemma WrongPasswordRejected(s: Store, sha: PasswordHash.Sha256, username: string, email: string, password: string, other: string)
    requires CreateUser(s, sha, username, email, password).1
    requires sha(other) != sha(password)
    ensures AuthenticateUserByEmail(CreateUser(s, sha, username, email, password).0, sha, email, other).None?
    ensures AuthenticateUser(CreateUser(s, sha, username, email, password).0, sha, username, other).None?
  {
    PasswordHash.HashEqualIffDigestEqual(sha, other, password);
    NewRowOnlyMatch(s, CreateUser(s, sha, username, email, password).0, sha, username, email, password);
  }

  /** After a successful `createUser`, the new row is the only one with its username or its email. */
  lemma NewRowOnlyMatch(s: Store, s': Store, sha: PasswordHash.Sha256, username: string, email: string, password: string)
    requires CreateUser(s, sha, username, email, password).1
    requires s' == CreateUser(s, sha, username, email, password).0
    ensures forall i ::
      (0 <= i < |s'.users.rows| && (s'.users.rows[i].data.username == username || s'.users.rows[i].data.email == email))
      ==> s'.users.rows[i].data.password == PasswordHash.HashPassword(sha, password)
  {
    var n := |s.users.rows|;
    assert forall i :: 0 <= i < n ==> s'.users.rows[i] == s.users.rows[i] by {
      assert s'.users.rows[..n] == s.users.rows;
    }
  }

  /** Adding a like touches no other (post, user) pair and no other post's count. */
  lemma AddLikeFrame(s: Store, postId: int, userId: int, q: int, u: int)
    ensures (q, u) != (postId, userId) ==> |LikesBy(AddLike(s, postId, userId).0, q, u)| == |LikesBy(s, q, u)|
    ensures q != postId ==> GetLikeCount(AddLike(s, postId, userId).0, q) == GetLikeCount(s, q)
  {
    var s' := AddLike(s, postId, userId).0;
    var added := [s'.likes.rows[|s.likes.rows|]];
    assert s'.likes.rows == s.likes.rows + added;
    FilterAppend(s.likes.rows, added, (l: Row<LikeData>) => l.data == LikeData(q, u));
    FilterAppend(s.likes.rows, added, (l: Row<LikeData>) => l.data.postId == q);
  }

  /** Removing a pair's likes touches no other pair and no other post's count. */
  lemma RemoveLikeFrame(s: Store, postId: int, userId: int, q: int, u: int)
    ensures (q, u) != (postId, userId) ==> |LikesBy(RemoveLike(s, postId, userId).0, q, u)| == |LikesBy(s, q, u)|
    ensures q != postId ==> GetLikeCount(RemoveLike(s, postId, userId).0, q) == GetLikeCount(s, q)
  {
    var other := (l: Row<LikeData>) => l.data != LikeData(postId, userId);
    if (q, u) != (postId, userId) {
      FilterFilter(s.likes.rows, other, (l: Row<LikeData>) => l.data == LikeData(q, u));
    }
    if q != postId {
      FilterFilter(s.likes.rows, other, (l: Row<LikeData>) => l.data.postId == q);
    }
  }

  /** `toggleLike` on one pair leaves every other pair and every other post's count as it was. */
  lemma ToggleLikeFrame(s: Store, postId: int, userId: int, q: int, u: int)
    ensures (q, u) != (postId, userId) ==> |LikesBy(ToggleLike(s, postId, userId).0, q, u)| == |LikesBy(s, q, u)|
    ensures q != postId ==> GetLikeCount(ToggleLike(s, postId, userId).0, q) == GetLikeCount(s, q)
  {
    if HasUserLiked(s, postId, userId) {
      RemoveLikeFrame(s, postId, userId, q, u);
    } else {
      AddLikeFrame(s, postId, userId, q, u);
    }
  }

  /** From "not liked", toggling twice restores the likes rows exactly. */
  lemma ToggleTwiceRestores(s: Store, postId: int, userId: int)
    requires !HasUserLiked(s, postId, userId)
    ensures var (s1, first) := ToggleLike(s, postId, userId);
      var (s2, second) := ToggleLike(s1, postId, userId);
      first && !second && s2.likes.rows == s.likes.rows
  {
    var s1 := AddLike(s, postId, userId).0;
    var other := (l: Row<LikeData>) => l.data != LikeData(postId, userId);
    var added := [s1.likes.rows[|s.likes.rows|]];
    assert s1.likes.rows == s.likes.rows + added;
    FilterAppend(s.likes.rows, added, other);
    FilterAll(s.likes.rows, other);
  }

  /** From "liked" (possibly many times over), toggling twice leaves exactly one like row for the pair. */
  lemma ToggleTwiceCollapses(s: Store, postId: int, userId: int)
    requires HasUserLiked(s, postId, userId)
    ensures var (s1, first) := ToggleLike(s, postId, userId);
      var (s2, second) := ToggleLike(s1, postId, userId);
      !first && second && |LikesBy(s2, postId, userId)| == 1
  {
  }

  /**
    When every post was stored with the `Timestamp` text, the feed is newest
    first in time: an entry never precedes one with a later clock reading.
  */
  lemma FeedNewestFirstInTime(s: Store, k: int, l: int, a: Timestamps.Clock, b: Timestamps.Clock)
    requires 0 <= k < l < |GetAllPosts(s)|
    requires GetAllPosts(s)[k].createdAt == Timestamps.Timestamp(a)
    requires GetAllPosts(s)[l].createdAt == Timestamps.Timestamp(b)
    ensures !Timestamps.Before(a, b)
  {
    Timestamps.TimestampOrder(a, b);
  }

  /**
    The feed follows the text of `created_at`: of two posts with existing
    authors, the one with the larger text is listed above the other.
  */
  lemma FeedFollowsText(s: Store, a: Row<PostData>, b: Row<PostData>)
    requires Tables.Valid(s.posts) && a in s.posts.rows && b in s.posts.rows
    requires HasId(s.users.rows, a.data.userId) && HasId(s.users.rows, b.data.userId)
    requires Text.LexLess(b.data.createdAt, a.data.createdAt)
    ensures var r := GetAllPosts(s);
      exists k, l :: 0 <= k < l < |r| && r[k].id == a.id && r[l].id == b.id
  {
    var k := FeedIndexOf(s, a);
    var l := FeedIndexOf(s, b);
    assert k < l by {
      if l == k {
        Text.LexLessIrreflexive(a.data.createdAt);
      }
    }
  }

  /** Where a stored post with an existing author sits in the feed, showing its own `created_at`. */
  lemma FeedIndexOf(s: Store, a: Row<PostData>) returns (k: int)
    requires Tables.Valid(s.posts) && a in s.posts.rows && HasId(s.users.rows, a.data.userId)
    ensures 0 <= k < |GetAllPosts(s)| && GetAllPosts(s)[k].id == a.id
    ensures GetAllPosts(s)[k].createdAt == a.data.createdAt
  {
    var r := GetAllPosts(s);
    var ia :| 0 <= ia < |s.posts.rows| && s.posts.rows[ia] == a;
    assert exists k :: 0 <= k < |r| && r[k].id == s.posts.rows[ia].id;
    k :| 0 <= k < |r| && r[k].id == a.id;
    EntryShowsItsRow(s, r[k], a);
  }

  /** A feed entry with a stored post's id shows that post's `created_at`. */
  lemma EntryShowsItsRow(s: Store, x: Post, a: Row<PostData>)
    requires Tables.Valid(s.posts) && a in s.posts.rows && Joined(s, x)
    ensures x.id == a.id ==> x.createdAt == a.data.createdAt
  {
    var p :| p in s.posts.rows && Owner(s, p).Some? && x == AsPost(p, Owner(s, p).value);
    var ip :| 0 <= ip < |s.posts.rows| && s.posts.rows[ip] == p;
    var ia :| 0 <= ia < |s.posts.rows| && s.posts.rows[ia] == a;
    if x.id == a.id {
      Tables.UniqueIds(s.posts, ip, ia);
    }
  }

  /**
    A shown post whose `created_at` text sorts below another shown post's is
    never the first entry of the feed, whichever was made later.
  */
  lemma BelowNotFirst(s: Store, i: int, j: int)
    requires Tables.Valid(s.posts) && 0 <= i < |s.posts.rows| && 0 <= j < |s.posts.rows|
    requires HasId(s.users.rows, s.posts.rows[i].data.userId) && HasId(s.users.rows, s.posts.rows[j].data.userId)
    requires Text.LexLess(s.posts.rows[j].data.createdAt, s.posts.rows[i].data.createdAt)
    ensures |GetAllPosts(s)| > 0 && GetAllPosts(s)[0].id != s.posts.rows[j].id
  {
    var a, b := s.posts.rows[i], s.posts.rows[j];
    var r := GetAllPosts(s);
    var k := FeedIndexOf(s, a);
    EntryShowsItsRow(s, r[0], b);
    Text.LexLessIrreflexive(a.data.createdAt);
    assert !Text.LexLess(r[0].createdAt, r[k].createdAt);
  }

  /**
    As written, `createPost` formats the clock with "dd-MM-yyy HH:mm". Then a
    post made at the last minute of 2025 is listed above one made at the
    first minute of 2026: older first, despite `DESC`.
  */
  lemma AsWrittenFeedListsOlderFirst(s: Store, older: Row<PostData>, newer: Row<PostData>)
    requires Tables.Valid(s.posts) && older in s.posts.rows && newer in s.posts.rows
    requires HasId(s.users.rows, older.data.userId) && HasId(s.users.rows, newer.data.userId)
    requires older.data.createdAt == Timestamps.AsWritten(Timestamps.NewYearsEve)
    requires newer.data.createdAt == Timestamps.AsWritten(Timestamps.NewYearsDay)
    ensures var r := GetAllPosts(s);
      exists k, l :: 0 <= k < l < |r| && r[k].id == older.id && r[l].id == newer.id
  {
    Timestamps.AsWrittenMisorders();
    FeedFollowsText(s, older, newer);
  }

  /** Marking a notification read twice is the same as marking it once. */
  lemma MarkReadIdempotent(s: Store, id: int)
    ensures var s1 := MarkNotificationAsRead(s, id).0;
      MarkNotificationAsRead(s1, id).0 == s1
  {
    var s1 := MarkNotificationAsRead(s, id).0;
    var s2 := MarkNotificationAsRead(s1, id).0;
    assert s2.notifications.rows == s1.notifications.rows;
  }

  /** A notification just created for `recipient` heads that recipient's list, as created. */
  lemma NewNotificationListedFirst(s: Store, recipient: int, actor: string, action: string,
                                   location: Option<string>, profileImage: Option<string>)
    requires Valid(s)
    ensures var (s', id) := CreateNotification(s, recipient, actor, action, location, profileImage);
      var list := GetAllNotifications(s', Some(recipient));
      |list| > 0 && list[0] == Notification(id, actor, action, location.GetOr(""), JustNow, profileImage)
  {
    var (s', id) := CreateNotification(s, recipient, actor, action, location, profileImage);
    var list := GetAllNotifications(s', Some(recipient));
    var n := |s.notifications.rows|;
    var row := s'.notifications.rows[n];
    assert AddressedTo(row, Some(recipient));
    var k :| 0 <= k < |list| && list[k] == AsNotification(row);
  }
}
