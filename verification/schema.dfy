/**
  Creating and upgrading the local database (`onCreate`, `onUpgrade`): the
  four empty tables, then the seed rows — one test user, three sample posts
  carrying 5, 10 and 15 likes by that same user, and four sample
  notifications addressed to that user. The seed posts and notifications
  take their `created_at` and `is_read` from the column defaults; the default
  timestamp is a clock reading passed in as `seedTime`.
*/
module Schema {
  import opened Wrappers
  import opened Tables
  import opened Models
  import opened LocalDatabaseHelper
  import PasswordHash
  import Timestamps

  const SeedUsername: string := "test"
  const SeedEmail: string := "test@example.com"
  const SeedPassword: string := "test123"
  const SeedLocation: string := "Paris, France"

  const SampleImages: seq<string> := ["photo_placeholder_1", "photo_placeholder_2", "photo_placeholder_3"]

  /** The `location_address` of seed post `i`: "Adresse Exemple " followed by the digit `i`. */
  function SampleAddress(i: nat): (a: string)
    requires i < 10
    ensures |a| == 17 && a[..16] == "Adresse Exemple "
  {
    "Adresse Exemple " + [('0' as int + i) as char]
  }

  /** The text columns of one sample notification. */
  datatype SampleNotification = SampleNotification(actor: string, action: string, location: string, timeAgo: string)

  const SampleNotifications: seq<SampleNotification> := [
    SampleNotification("Marie Dubois", "a publi\U{E9} une photo", "Tour Eiffel, Paris", "5 min"),
    SampleNotification("Alex Martin", "a publi\U{E9} une photo", "Le Comptoir du Relais, Paris", "1h"),
    SampleNotification("Sophie Bernard", "a comment\U{E9} votre photo", "Mus\U{E9}e du Louvre, Paris", "2h"),
    SampleNotification("Thomas Laurent", "a aim\U{E9} votre photo", "Arc de Triomphe, Paris", "3h")
  ]

  /** Every like row in the store was made by `userId`. */
  predicate AllLikesBy(s: Store, userId: int) {
    forall i :: 0 <= i < |s.likes.rows| ==> s.likes.rows[i].data.userId == userId
  }

  /** `for (j in 0 until n) db.insert(likes, postId, userId)`: `n` more like rows for the pair. */
  function AddLikes(s: Store, postId: int, userId: int, n: nat): (r: Store)
    ensures GetLikeCount(r, postId) == GetLikeCount(s, postId) + n
    ensures forall q :: q != postId ==> GetLikeCount(r, q) == GetLikeCount(s, q)
    ensures AllLikesBy(s, userId) ==> AllLikesBy(r, userId)
    ensures r.users == s.users && r.posts == s.posts && r.notifications == s.notifications
    ensures LocalDatabaseHelper.Valid(s) ==> LocalDatabaseHelper.Valid(r)
    decreases n
  {
    if n == 0 then s
    else
      var s1 := AddLike(s, postId, userId).0;
      assert forall q :: q != postId ==> GetLikeCount(s1, q) == GetLikeCount(s, q) by {
        forall q | q != postId ensures GetLikeCount(s1, q) == GetLikeCount(s, q) {
          AddLikeFrame(s, postId, userId, q, userId);
        }
      }
      assert AllLikesBy(s, userId) ==> AllLikesBy(s1, userId) by {
        assert s1.likes.rows[..|s.likes.rows|] == s.likes.rows;
        assert forall i :: 0 <= i < |s.likes.rows| ==> s1.likes.rows[i] == s.likes.rows[i];
      }
      AddLikes(s1, postId, userId, n - 1)
  }

  /**
    One pass of the seed loop over `i`: a post by `userId` with sample image
    `i`, location "Paris, France", address "Adresse Exemple i" and the default
    timestamp, then `(i + 1) * 5` likes on it by the same user.
  */
  function SeedPost(s: Store, userId: int, i: nat, createdAt: string): (r: (Store, int))
    requires i < 3
    ensures r.1 == s.posts.nextId
    ensures r.0.posts.rows == s.posts.rows
      + [Row(r.1, PostData(userId, Some(SampleImages[i]), Some(SeedLocation), Some(SampleAddress(i)), createdAt))]
    ensures r.0.posts.nextId == s.posts.nextId + 1
    ensures GetLikeCount(r.0, r.1) == GetLikeCount(s, r.1) + (i + 1) * 5
    ensures forall q :: q != r.1 ==> GetLikeCount(r.0, q) == GetLikeCount(s, q)
    ensures AllLikesBy(s, userId) ==> AllLikesBy(r.0, userId)
    ensures r.0.users == s.users && r.0.notifications == s.notifications
    ensures LocalDatabaseHelper.Valid(s) ==> LocalDatabaseHelper.Valid(r.0)
  {
    assert i % |SampleImages| == i;
    var data := PostData(userId, Some(SampleImages[i % |SampleImages|]), Some(SeedLocation), Some(SampleAddress(i)), createdAt);
    var (posts, postId) := Insert(s.posts, data);
    var s1 := s.(posts := posts);
    var s2 := AddLikes(s1, postId, userId, (i + 1) * 5);
    assert s2.posts == posts;
    (s2, postId)
  }

  /** One notification insert: the sample's texts, no profile image, `is_read` left at its default 0. */
  function SeedNotificationRow(recipient: int, n: SampleNotification): NotificationData {
    NotificationData(recipient, Some(n.actor), Some(n.action), Some(n.location), Some(n.timeAgo), None, 0)
  }

  /** `for (n in sampleNotifications) db.insert(notifications, ...)`, in list order. */
  function SeedNotifications(s: Store, recipient: int, ns: seq<SampleNotification>): (r: Store)
    decreases |ns|
    ensures |r.notifications.rows| == |s.notifications.rows| + |ns|
    ensures r.notifications.rows[..|s.notifications.rows|] == s.notifications.rows
    ensures forall k :: 0 <= k < |ns| ==>
      r.notifications.rows[|s.notifications.rows| + k] == Row(s.notifications.nextId + k, SeedNotificationRow(recipient, ns[k]))
    ensures r.notifications.nextId == s.notifications.nextId + |ns|
    ensures r.users == s.users && r.posts == s.posts && r.likes == s.likes
    ensures LocalDatabaseHelper.Valid(s) ==> LocalDatabaseHelper.Valid(r)
  {
    if |ns| == 0 then s
    else
      var (notifications, _) := Insert(s.notifications, SeedNotificationRow(recipient, ns[0]));
      var s1 := s.(notifications := notifications);
      var r := SeedNotifications(s1, recipient, ns[1..]);
      assert forall k :: 1 <= k < |ns| ==> ns[1..][k - 1] == ns[k];
      assert r.notifications.rows[..|s.notifications.rows|] == s.notifications.rows by {
        assert r.notifications.rows[..|s1.notifications.rows|][..|s.notifications.rows|] == s.notifications.rows;
      }
      r
  }

  /** After `n` passes of the post loop: posts 1..n by `userId` in place, post `q` with `q * 5` likes, no other likes, all by `userId`. */
  ghost predicate PostsSeeded(s: Store, userId: int, n: nat, createdAt: string)
    requires n <= 3
  {
    && |s.posts.rows| == n && s.posts.nextId == n + 1
    && (forall j :: 0 <= j < n ==> s.posts.rows[j] == Row(j + 1,
          PostData(userId, Some(SampleImages[j]), Some(SeedLocation), Some(SampleAddress(j)), createdAt)))
    && (forall q :: 1 <= q <= n ==> GetLikeCount(s, q) == q * 5)
    && (forall q :: !(1 <= q <= n) ==> GetLikeCount(s, q) == 0)
    && AllLikesBy(s, userId)
  }

  /** One pass of the post loop moves from `n` seeded posts to `n + 1`. */
  lemma SeedPostStep(s: Store, userId: int, n: nat, createdAt: string)
    requires n < 3 && PostsSeeded(s, userId, n, createdAt)
    ensures PostsSeeded(SeedPost(s, userId, n, createdAt).0, userId, n + 1, createdAt)
  {
    var r := SeedPost(s, userId, n, createdAt);
    assert r.1 == n + 1;
    assert r.0.posts.rows[..n] == s.posts.rows;
    assert forall j :: 0 <= j < n ==> r.0.posts.rows[j] == s.posts.rows[j];
  }

  /** `for (i in n until 3)`: the remaining passes of the post loop. */
  function SeedPosts(s: Store, userId: int, n: nat, createdAt: string): (r: Store)
    requires n <= 3
    ensures PostsSeeded(s, userId, n, createdAt) ==> PostsSeeded(r, userId, 3, createdAt)
    ensures r.users == s.users && r.notifications == s.notifications
    ensures LocalDatabaseHelper.Valid(s) ==> LocalDatabaseHelper.Valid(r)
    decreases 3 - n
  {
    if n == 3 then s
    else
      var s1 := SeedPost(s, userId, n, createdAt).0;
      assert PostsSeeded(s, userId, n, createdAt) ==> PostsSeeded(s1, userId, n + 1, createdAt) by {
        if PostsSeeded(s, userId, n, createdAt) {
          SeedPostStep(s, userId, n, createdAt);
        }
      }
      SeedPosts(s1, userId, n + 1, createdAt)
  }

  /** Post-loop facts read only the posts and likes tables. */
  lemma PostsSeededFrame(a: Store, b: Store, userId: int, n: nat, createdAt: string)
    requires n <= 3 && a.posts == b.posts && a.likes == b.likes
    ensures PostsSeeded(a, userId, n, createdAt) == PostsSeeded(b, userId, n, createdAt)
  {
    forall q ensures GetLikeCount(a, q) == GetLikeCount(b, q) {
      assert LikesOf(a, q) == LikesOf(b, q);
    }
  }

  /** The four sample notifications, for user 1, in list order under ids 1..4. */
  ghost predicate NotificationsSeeded(s: Store) {
    && |s.notifications.rows| == 4
    && forall k :: 0 <= k < 4 ==> s.notifications.rows[k] == Row(k + 1, SeedNotificationRow(1, SampleNotifications[k]))
  }

  /** The notification loop, starting from an empty notifications table. */
  lemma SeedNotificationsFacts(s3: Store, s4: Store)
    requires s3.notifications == Tables.Empty()
    requires s4 == SeedNotifications(s3, 1, SampleNotifications)
    ensures NotificationsSeeded(s4)
    ensures s4.users == s3.users && s4.posts == s3.posts && s4.likes == s3.likes
    ensures LocalDatabaseHelper.Valid(s3) ==> LocalDatabaseHelper.Valid(s4)
  {
    assert |SampleNotifications| == 4;
  }

  /** The test user, with the hex digest of "test123" as password. */
  function SeedUserRow(sha: PasswordHash.Sha256): Row<UserData> {
    Row(1, UserData(SeedUsername, SeedEmail, PasswordHash.HashPassword(sha, SeedPassword)))
  }

  /** The test user's insert into the empty database succeeds and gets id 1; the other tables stay empty. */
  lemma SeedUserCreated(sha: PasswordHash.Sha256)
    ensures CreateUserReturnId(EmptyStore(), sha, SeedUsername, SeedEmail, SeedPassword).1 == 1
    ensures var s := CreateUserReturnId(EmptyStore(), sha, SeedUsername, SeedEmail, SeedPassword).0;
      && LocalDatabaseHelper.Valid(s) && s.users.rows == [SeedUserRow(sha)]
      && s.posts == Tables.Empty() && s.likes == Tables.Empty() && s.notifications == Tables.Empty()
  {
    assert !UsernameTaken(EmptyStore(), SeedUsername) && !EmailTaken(EmptyStore(), SeedEmail);
  }

  /**
    The database `onCreate` leaves: the test user as user 1; the three sample
    posts as posts 1..3, each by user 1 with location "Paris, France", and
    with 5, 10 and 15 likes, all by user 1; the four sample notifications for
    user 1, in list order.
  */
  ghost predicate Seeded(s: Store, sha: PasswordHash.Sha256, seedTime: Timestamps.Clock) {
    && LocalDatabaseHelper.Valid(s)
    && s.users.rows == [SeedUserRow(sha)]
    && PostsSeeded(s, 1, 3, Timestamps.Timestamp(seedTime))
    && NotificationsSeeded(s)
  }

  /** The inserts of `onCreate`, in order: the test user, the post loop, the notification loop. */
  function SeedDatabase(sha: PasswordHash.Sha256, seedTime: Timestamps.Clock): Store {
    var created := CreateUserReturnId(EmptyStore(), sha, SeedUsername, SeedEmail, SeedPassword);
    var s3 := SeedPosts(created.0, created.1, 0, Timestamps.Timestamp(seedTime));
    SeedNotifications(s3, created.1, SampleNotifications)
  }

  /** The test user alone, before the post loop. */
  ghost predicate UserStage(s: Store, sha: PasswordHash.Sha256) {
    && LocalDatabaseHelper.Valid(s) && s.users.rows == [SeedUserRow(sha)]
    && s.posts == Tables.Empty() && s.likes == Tables.Empty() && s.notifications == Tables.Empty()
  }

  /** After the post loop, before the notification loop. */
  ghost predicate PostStage(s: Store, sha: PasswordHash.Sha256, createdAt: string) {
    && LocalDatabaseHelper.Valid(s) && s.users.rows == [SeedUserRow(sha)]
    && PostsSeeded(s, 1, 3, createdAt) && s.notifications == Tables.Empty()
  }

  lemma PostLoopSeeds(s0: Store, sha: PasswordHash.Sha256, createdAt: string)
    requires UserStage(s0, sha)
    ensures PostStage(SeedPosts(s0, 1, 0, createdAt), sha, createdAt)
  {
    assert PostsSeeded(s0, 1, 0, createdAt);
  }

  lemma NotificationLoopSeeds(s3: Store, sha: PasswordHash.Sha256, seedTime: Timestamps.Clock)
    requires PostStage(s3, sha, Timestamps.Timestamp(seedTime))
    ensures Seeded(SeedNotifications(s3, 1, SampleNotifications), sha, seedTime)
  {
    var s4 := SeedNotifications(s3, 1, SampleNotifications);
    SeedNotificationsFacts(s3, s4);
    PostsSeededFrame(s3, s4, 1, 3, Timestamps.Timestamp(seedTime));
  }

  lemma SeedDatabaseSeeded(sha: PasswordHash.Sha256, seedTime: Timestamps.Clock)
    ensures Seeded(SeedDatabase(sha, seedTime), sha, seedTime)
  {
    var created := CreateUserReturnId(EmptyStore(), sha, SeedUsername, SeedEmail, SeedPassword);
    assert created.1 == 1 && UserStage(created.0, sha) by {
      SeedUserCreated(sha);
    }
    var s3 := SeedPosts(created.0, 1, 0, Timestamps.Timestamp(seedTime));
    PostLoopSeeds(created.0, sha, Timestamps.Timestamp(seedTime));
    NotificationLoopSeeds(s3, sha, seedTime);
    assert SeedDatabase(sha, seedTime) == SeedNotifications(s3, 1, SampleNotifications);
  }

  /** `onCreate` on an empty database: the test user, the sample posts with their likes, the notifications. */
  function OnCreate(sha: PasswordHash.Sha256, seedTime: Timestamps.Clock): (s: Store)
    ensures Seeded(s, sha, seedTime)
  {
    SeedDatabaseSeeded(sha, seedTime);
    SeedDatabase(sha, seedTime)
  }

  /** The first sample post of a seeded database: by the test user, who is user 1, stamped `CURRENT_TIMESTAMP`. */
  lemma SeededFirstPost(s: Store, sha: PasswordHash.Sha256, seedTime: Timestamps.Clock)
    requires Seeded(s, sha, seedTime)
    ensures |s.users.rows| == 1 && s.users.rows[0].id == 1
    ensures |s.posts.rows| == 3 && s.posts.rows[0].data.userId == 1
    ensures s.posts.rows[0].data.createdAt == Timestamps.Timestamp(seedTime)
  {
  }

  /**
    `onUpgrade`: drops the four tables, which also resets their AUTOINCREMENT
    counters, and runs `onCreate` again; whatever the old store and versions,
    the result is the freshly seeded database.
  */
  function OnUpgrade(previous: Store, oldVersion: int, newVersion: int, sha: PasswordHash.Sha256, seedTime: Timestamps.Clock): (s: Store)
    ensures Seeded(s, sha, seedTime)
  {
    OnCreate(sha, seedTime)
  }

  /** Upgrading forgets the old store and the versions: any two stores upgrade to the same one. */
  lemma UpgradeForgetsOldStore(a: Store, b: Store, va: int, vb: int, na: int, nb: int,
                               sha: PasswordHash.Sha256, seedTime: Timestamps.Clock)
    ensures OnUpgrade(a, va, na, sha, seedTime) == OnUpgrade(b, vb, nb, sha, seedTime)
  {
  }

  /** In a store whose only user is `id`, that user logs in with their own email or username and password. */
  lemma SoleUserLogsIn(s: Store, sha: PasswordHash.Sha256, id: int, username: string, email: string, password: string)
    requires s.users.rows == [Row(id, UserData(username, email, PasswordHash.HashPassword(sha, password)))]
    ensures AuthenticateUserByEmail(s, sha, email, password) == Some(User(id, username, email))
    ensures AuthenticateUser(s, sha, username, password) == Some(User(id, username, email))
  {
    assert Names(s.users.rows[0], ByEmail(email));
    assert Names(s.users.rows[0], ByUsername(username));
  }

  /** The seed user can log in with "test@example.com" / "test123", and is user 1. */
  lemma SeedUserLogsIn(sha: PasswordHash.Sha256, seedTime: Timestamps.Clock)
    ensures AuthenticateUserByEmail(OnCreate(sha, seedTime), sha, SeedEmail, SeedPassword)
      == Some(User(1, SeedUsername, SeedEmail))
    ensures AuthenticateUser(OnCreate(sha, seedTime), sha, SeedUsername, SeedPassword)
      == Some(User(1, SeedUsername, SeedEmail))
  {
    SoleUserLogsIn(OnCreate(sha, seedTime), sha, 1, SeedUsername, SeedEmail, SeedPassword);
  }

  /**
    When every like in the store is by `userId`, one toggle by `userId` on a
    post that has likes reports "not liked" and leaves the post with none.
  */
  lemma ToggleBySoleLikerClears(s: Store, postId: int, userId: int)
    requires AllLikesBy(s, userId) && GetLikeCount(s, postId) > 0
    ensures !ToggleLike(s, postId, userId).1
    ensures GetLikeCount(ToggleLike(s, postId, userId).0, postId) == 0
  {
    FilterSame(s.likes.rows, (l: Row<LikeData>) => l.data == LikeData(postId, userId),
                             (l: Row<LikeData>) => l.data.postId == postId);
    assert |LikesBy(s, postId, userId)| == GetLikeCount(s, postId);
  }

  /** With the sample posts and likes stored, one toggle by user 1 takes post `postId` from `postId * 5` likes to none. */
  lemma SampleToggleClearsLikes(s: Store, createdAt: string, postId: int)
    requires PostsSeeded(s, 1, 3, createdAt) && 1 <= postId <= 3
    ensures GetLikeCount(s, postId) == postId * 5
    ensures !ToggleLike(s, postId, 1).1
    ensures GetLikeCount(ToggleLike(s, postId, 1).0, postId) == 0
  {
    ToggleBySoleLikerClears(s, postId, 1);
  }

  /**
    On the seed data one toggle by user 1 reports "not liked" and takes a
    sample post's count from 5, 10 or 15 straight to 0.
  */
  lemma SeedToggleClearsLikes(sha: PasswordHash.Sha256, seedTime: Timestamps.Clock, postId: int)
    requires 1 <= postId <= 3
    ensures GetLikeCount(OnCreate(sha, seedTime), postId) == postId * 5
    ensures !ToggleLike(OnCreate(sha, seedTime), postId, 1).1
    ensures GetLikeCount(ToggleLike(OnCreate(sha, seedTime), postId, 1).0, postId) == 0
  {
    SampleToggleClearsLikes(OnCreate(sha, seedTime), Timestamps.Timestamp(seedTime), postId);
  }

  /** When every post has location `l`, every feed entry shows `l` as its address, whatever the address column holds. */
  lemma FeedAddressIsLocation(s: Store, l: Option<string>)
    requires forall i :: 0 <= i < |s.posts.rows| ==> s.posts.rows[i].data.location == l
    ensures forall k :: 0 <= k < |GetAllPosts(s)| ==> GetAllPosts(s)[k].locationAddress == l
  {
    var feed := GetAllPosts(s);
    forall k | 0 <= k < |feed| ensures feed[k].locationAddress == l {
      assert Joined(s, feed[k]);
      var p :| p in s.posts.rows && Owner(s, p).Some? && feed[k] == AsPost(p, Owner(s, p).value);
    }
  }

  /**
    With the sample posts stored and their author present, the feed lists all
    three and shows "Paris, France" as the address of each, although the
    stored address column says "Adresse Exemple i": the query reads
    `location` under the `location_address` alias.
  */
  lemma SampleFeedShowsLocation(s: Store, createdAt: string)
    requires PostsSeeded(s, 1, 3, createdAt) && HasId(s.users.rows, 1)
    ensures forall k :: 0 <= k < |GetAllPosts(s)| ==> GetAllPosts(s)[k].locationAddress == Some(SeedLocation)
    ensures |s.posts.rows| == 3
    ensures forall i :: 0 <= i < 3 ==> s.posts.rows[i].data.locationAddress != Some(SeedLocation)
    ensures forall i :: 0 <= i < 3 ==> exists k :: 0 <= k < |GetAllPosts(s)| && GetAllPosts(s)[k].id == s.posts.rows[i].id
  {
    FeedAddressIsLocation(s, Some(SeedLocation));
    forall i | 0 <= i < 3 ensures s.posts.rows[i].data.locationAddress != Some(SeedLocation) {
      assert SampleAddress(i)[0] == 'A';
    }
    var feed := GetAllPosts(s);
    forall i | 0 <= i < 3 ensures exists k :: 0 <= k < |feed| && feed[k].id == s.posts.rows[i].id {
      assert s.posts.rows[i].data.userId == 1;
      assert HasId(s.users.rows, s.posts.rows[i].data.userId);
    }
  }

  /** When every notification is addressed to `recipient`, their list is every row, last inserted first. */
  lemma SoleRecipientList(s: Store, recipient: int)
    requires forall i :: 0 <= i < |s.notifications.rows| ==> s.notifications.rows[i].data.recipient == recipient
    ensures GetAllNotifications(s, Some(recipient)) == LastFirst(s.notifications.rows)
  {
    FilterAll(s.notifications.rows, LocalDatabaseHelper.ForRecipient(Some(recipient)));
  }

  /** With the four sample notifications stored, user 1's list is those four, the last inserted first. */
  lemma SampleNotificationsListed(s: Store)
    requires NotificationsSeeded(s)
    ensures |GetAllNotifications(s, Some(1))| == 4
    ensures forall k :: 0 <= k < 4 ==>
      GetAllNotifications(s, Some(1))[k]
        == Notification(4 - k, SampleNotifications[3 - k].actor, SampleNotifications[3 - k].action,
                        SampleNotifications[3 - k].location, SampleNotifications[3 - k].timeAgo, None)
  {
    SoleRecipientList(s, 1);
    var list := GetAllNotifications(s, Some(1));
    forall k | 0 <= k < 4
      ensures list[k] == Notification(4 - k, SampleNotifications[3 - k].actor, SampleNotifications[3 - k].action,
                                      SampleNotifications[3 - k].location, SampleNotifications[3 - k].timeAgo, None)
    {
      assert list[k] == AsNotification(s.notifications.rows[3 - k]);
    }
  }

  /** The seed user's notification list: all four samples, the last inserted first. */
  lemma SeedNotificationsNewestFirst(sha: PasswordHash.Sha256, seedTime: Timestamps.Clock)
    ensures |GetAllNotifications(OnCreate(sha, seedTime), Some(1))| == 4
    ensures forall k :: 0 <= k < 4 ==>
      GetAllNotifications(OnCreate(sha, seedTime), Some(1))[k]
        == Notification(4 - k, SampleNotifications[3 - k].actor, SampleNotifications[3 - k].action,
                        SampleNotifications[3 - k].location, SampleNotifications[3 - k].timeAgo, None)
  {
    SampleNotificationsListed(OnCreate(sha, seedTime));
  }
}
