# Check'N'Share in Dafny

Check'N'Share is an Android photo-sharing app. This project models its local
persistence and authentication core, and the screens that drive that core:

- **`LocalDatabaseHelper`**, the app's SQLite store. It has four tables (`users`,
  `posts`, `likes`, `notifications`) with AUTOINCREMENT ids and UNIQUE usernames
  and emails. Passwords are stored as SHA-256 digests rendered in lowercase hex.
  The module covers authentication by username or by email, user creation, the
  post feed (`posts JOIN users ORDER BY created_at DESC`), like counting, the
  like/unlike toggle, and the notification list. `Schema` holds `onCreate`,
  which creates the tables and seeds them (a test user, three posts with 5, 10
  and 15 likes, four notifications), and `onUpgrade`, which drops everything and
  seeds again.
- **`PostRepository`**, the layer over the store that the screens use.
- The screens:
  - `LoginActivity` and `SignupActivity`: trim the fields, validate them in
    order, then log in or register.
  - `MainActivity`: redirects to login unless the session is logged in; logout.
  - `HomeFragment`: which user acts, the like handler, publishing a post.
  - `PostAdapter`: what a feed card shows and how its heart reacts.
- **`AppFlow`** ties the screens together. A sign-up that succeeds is followed
  by a login that welcomes the new user, and by a main screen that opens.

The store is a value. Every write is a function from a `Store` to the new
`Store` and the result the Kotlin method returns. Code the model cannot see
becomes a parameter:

- `sha` is SHA-256 applied to the password's bytes;
- `isEmail` is the platform's e-mail pattern;
- `drawableId` is the resource lookup;
- `loads` says whether a stored photo can be read;
- `now` is the clock reading;
- `placeholder` is the `add_location` string resource.

The session (`SharedPreferences "UserSession"`) is the `UserSession.Session`
record: each key is either missing or holds a value.

The model follows the code as written, including where it departs from what its
declarations and comments suggest:

- Foreign keys are declared but not enforced (SQLite's default). A post may name
  a missing author: it is stored but never appears in the feed
  (`PostRepository.OrphanPostIsHidden`). `deletePost` deletes the likes itself,
  before deleting the post.
- `getCurrentUserId` falls back to the smallest user id only when no `userId`
  is stored. It never consults `isLoggedIn`.
- The feed query selects `location` under both `location` and
  `location_address`. The stored address column is never shown
  (`Schema.FeedAddressIsLocation`).
- `createPost` stores `created_at` formatted "dd-MM-yyy HH:mm", although the
  seed rows get SQLite's "yyyy-MM-dd HH:mm:ss" default and the `Post` record
  documents that format. `LocalDatabaseHelper.CreatePost`,
  `PostRepository.CreatePost` and `HomeFragment.Publish` store the text as
  written, and the lemmas show the feed misordering it (see "## Findings").
  `LocalDatabaseHelper.CreatePostCorrected` and `HomeFragment.PublishCorrected`
  store the documented format instead; the newest-first lemmas are about them.
- Nothing prevents duplicate likes. `addLike` at the store level appends a row
  every time; only the repository's `addLike` checks first. The count is the
  number of rows, and unliking removes every row of the pair.

## Model

| member | source | states |
|---|---|---|
| Tables.Insert | app/src/main/java/com/example/checknshare/database/LocalDatabaseHelper.kt:61-62 | an insert appends exactly one row whose id is fresh (at least 1, not already in the table) and keeps ids ascending |
| Tables.Filter | app/src/main/java/com/example/checknshare/database/LocalDatabaseHelper.kt:401-407 | a WHERE query returns only rows of the table that satisfy the condition, never more rows than the table has |
| Tables.FilterKeeps | app/src/main/java/com/example/checknshare/database/LocalDatabaseHelper.kt:401-407 | a WHERE query loses no matching row |
| Tables.FilterSource | app/src/main/java/com/example/checknshare/database/LocalDatabaseHelper.kt:401-407 | every row a WHERE query selects is a row of the table that satisfies the condition |
| Tables.First | app/src/main/java/com/example/checknshare/database/LocalDatabaseHelper.kt:216-225 | `moveToFirst` finds nothing exactly when no row matches; otherwise it gives the earliest matching row |
| Tables.FilterValid | app/src/main/java/com/example/checknshare/database/LocalDatabaseHelper.kt:436-438 | deleting rows keeps the remaining ids ascending and below the AUTOINCREMENT counter |
| Tables.AtMostOneWithId | app/src/main/java/com/example/checknshare/database/LocalDatabaseHelper.kt:62 | the primary key is a key: at most one row carries a given id |
| Text.Utf16Length | app/src/main/java/com/example/checknshare/LoginActivity.kt:59 | Kotlin's `length` counts UTF-16 units: between the number of code points and twice that, and zero only for the empty string |
| Text.Trim | app/src/main/java/com/example/checknshare/LoginActivity.kt:29-30 | `trim()` returns a contiguous slice of the input, with only whitespace cut away on either side, that neither starts nor ends with whitespace |
| Text.TrimIdempotent | app/src/main/java/com/example/checknshare/SignupActivity.kt:30-33 | trimming an already trimmed field changes nothing |
| Text.TrimEmptyIffBlank | app/src/main/java/com/example/checknshare/ui/home/HomeFragment.kt:325 | a text trims to nothing exactly when `isBlank()` holds for it |
| Text.LexLessTotal | app/src/main/java/com/example/checknshare/database/LocalDatabaseHelper.kt:377 | SQLite's BINARY text order is total: two different texts are always ordered |
| Text.LexLessTransitive | app/src/main/java/com/example/checknshare/database/LocalDatabaseHelper.kt:377 | the BINARY text order `ORDER BY created_at` uses is transitive |
| Text.LexLessConcat | app/src/main/java/com/example/checknshare/database/LocalDatabaseHelper.kt:377 | texts with a same-length prefix are ordered by the prefix first, then by the rest |
| Text.LexLessAt | app/src/main/java/com/example/checknshare/database/LocalDatabaseHelper.kt:377 | the first position where two texts differ decides their BINARY order |
| PasswordHash.Unsigned | app/src/main/java/com/example/checknshare/database/LocalDatabaseHelper.kt:196 | a signed Kotlin byte is read as the unsigned value congruent to it mod 256 |
| PasswordHash.HexByte | app/src/main/java/com/example/checknshare/database/LocalDatabaseHelper.kt:196 | `"%02x"` gives exactly two lowercase hex digits whose value is the unsigned byte |
| PasswordHash.HexEncode | app/src/main/java/com/example/checknshare/database/LocalDatabaseHelper.kt:196 | the joined hex string is twice as long as the digest and made of hex digits only |
| PasswordHash.HexRoundTrip | app/src/main/java/com/example/checknshare/database/LocalDatabaseHelper.kt:194-197 | the hex rendering loses nothing: decoding it gives the digest bytes back |
| PasswordHash.HashPassword | app/src/main/java/com/example/checknshare/database/LocalDatabaseHelper.kt:194-197 | a stored password is always 64 lowercase hex characters |
| PasswordHash.HashEqualIffDigestEqual | app/src/main/java/com/example/checknshare/database/LocalDatabaseHelper.kt:194-197 | two passwords are stored alike exactly when their SHA-256 digests are equal |
| Timestamps.Timestamp | app/src/main/java/com/example/checknshare/models/Post.kt:10 | the "YYYY-MM-DD HH:MM:SS" text is always 19 characters |
| Timestamps.PadOrder | app/src/main/java/com/example/checknshare/models/Post.kt:10 | zero-padded fixed-width numbers compare as text exactly as they compare as numbers |
| Timestamps.TimestampOrder | app/src/main/java/com/example/checknshare/database/LocalDatabaseHelper.kt:377 | for "YYYY-MM-DD HH:MM:SS" text, text order is exactly time order, and equal texts mean the same reading |
| Timestamps.AsWrittenMisorders | app/src/main/java/com/example/checknshare/database/LocalDatabaseHelper.kt:419-420 | with the "dd-MM-yyy HH:mm" pattern the later of two readings (New Year's Day 2026) has the smaller text |
| Timestamps.AsWritten | app/src/main/java/com/example/checknshare/database/LocalDatabaseHelper.kt:419-420 | the "dd-MM-yyy HH:mm" text: 16 characters from year 1000 on (15 before), two-digit day, dash, two-digit month, dash, the year, a space, then "HH:mm" |
| Timestamps.AsWrittenIgnoresSeconds | app/src/main/java/com/example/checknshare/database/LocalDatabaseHelper.kt:419-420 | the seconds are dropped: two readings of the same minute get the same text |
| Timestamps.AsWrittenBelowTimestamp | app/src/main/java/com/example/checknshare/database/LocalDatabaseHelper.kt:419-420 | a reading on days 1 to 20 of a month gets a text below the `CURRENT_TIMESTAMP` text of any reading in 2000 to 2099, even an earlier one |
| Timestamps.TimestampKeepsNewYearInOrder | app/src/main/java/com/example/checknshare/models/Post.kt:10 | with the documented format the same two readings sort in time order |
| Validation.FirstFailure | app/src/main/java/com/example/checknshare/LoginActivity.kt:46-64 | a `when` chain of checks reports nothing exactly when every check passes, and otherwise the error of the earliest failing check |
| Validation.FirstFailureIs | app/src/main/java/com/example/checknshare/SignupActivity.kt:58-100 | when all checks before check k pass and check k fails, check k's error is the one reported |
| LocalDatabaseHelper.EmptyStore | app/src/main/java/com/example/checknshare/database/LocalDatabaseHelper.kt:94-96 | the freshly created tables form a well-formed store |
| LocalDatabaseHelper.Authenticate | app/src/main/java/com/example/checknshare/database/LocalDatabaseHelper.kt:200-303 | a user comes back exactly when some row has that name and the digest of that password, and the user returned is such a row's id, username and email |
| LocalDatabaseHelper.AuthenticateUser | app/src/main/java/com/example/checknshare/database/LocalDatabaseHelper.kt:200-251 | login by username succeeds iff some row has that username and password digest; the user returned has that username |
| LocalDatabaseHelper.AuthenticateUserByEmail | app/src/main/java/com/example/checknshare/database/LocalDatabaseHelper.kt:253-303 | login by email succeeds iff some row has that email and password digest; the user returned has that email |
| LocalDatabaseHelper.InsertUser | app/src/main/java/com/example/checknshare/database/LocalDatabaseHelper.kt:60-68 | the UNIQUE constraints reject an insert exactly when the username or the email is taken, leaving the store as it was; otherwise one new row holds the digest, never the password, and the store stays well formed |
| LocalDatabaseHelper.CreateUserReturnId | app/src/main/java/com/example/checknshare/database/LocalDatabaseHelper.kt:335-355 | gives -1 and changes nothing when the username or the email is taken; otherwise gives a fresh id for a new row holding the digest |
| LocalDatabaseHelper.CreateUser | app/src/main/java/com/example/checknshare/database/LocalDatabaseHelper.kt:306-332 | true exactly when neither the username nor the email was taken; false leaves the store unchanged; true appends one user with the digest and touches no other table |
| LocalDatabaseHelper.UserExists | app/src/main/java/com/example/checknshare/database/LocalDatabaseHelper.kt:358-371 | true exactly when some row has that username |
| LocalDatabaseHelper.MinId | app/src/main/java/com/example/checknshare/database/LocalDatabaseHelper.kt:489-494 | `ORDER BY id ASC LIMIT 1` gives an id present in the table and no larger than any other |
| LocalDatabaseHelper.GetAnyUserId | app/src/main/java/com/example/checknshare/database/LocalDatabaseHelper.kt:487-501 | -1 on an empty users table, otherwise the smallest user id; in a well-formed store -1 means exactly "no user" |
| LocalDatabaseHelper.InsertPost | app/src/main/java/com/example/checknshare/database/LocalDatabaseHelper.kt:422-429 | one new post under a fresh id, with the location also as its address and the given `created_at` text; the other tables are untouched |
| LocalDatabaseHelper.CreatePost | app/src/main/java/com/example/checknshare/database/LocalDatabaseHelper.kt:417-430 | as written: one new post under a fresh id, with the location also as its address and the clock reading formatted "dd-MM-yyy HH:mm"; the other tables are untouched |
| LocalDatabaseHelper.CreatePostCorrected | app/src/main/java/com/example/checknshare/models/Post.kt:10 | corrected: the same insert storing the documented "yyyy-MM-dd HH:mm:ss" text |
| LocalDatabaseHelper.Owner | app/src/main/java/com/example/checknshare/database/LocalDatabaseHelper.kt:377 | the JOIN pairs a post with its author row exactly when a user with that id exists |
| LocalDatabaseHelper.JoinSound | app/src/main/java/com/example/checknshare/database/LocalDatabaseHelper.kt:377 | every joined entry is the joined row of one of the posts |
| LocalDatabaseHelper.JoinComplete | app/src/main/java/com/example/checknshare/database/LocalDatabaseHelper.kt:377 | no post whose author exists is left out of the join |
| LocalDatabaseHelper.GetAllPosts | app/src/main/java/com/example/checknshare/database/LocalDatabaseHelper.kt:374-396 | the feed is ordered newest first by `created_at` text, is a permutation of the join (each joined post exactly once), shows only stored posts joined with their existing authors, shows every such post, and shows the location as the address |
| LocalDatabaseHelper.DeletePost | app/src/main/java/com/example/checknshare/database/LocalDatabaseHelper.kt:433-439 | afterwards neither the post nor any of its likes remains; the count returned is the number of posts deleted, positive exactly when the post existed and at most 1 in a well-formed store |
| LocalDatabaseHelper.GetLikeCount | app/src/main/java/com/example/checknshare/database/LocalDatabaseHelper.kt:399-414 | the count is zero exactly when no like row names the post |
| LocalDatabaseHelper.HasUserLiked | app/src/main/java/com/example/checknshare/database/LocalDatabaseHelper.kt:442-454 | true exactly when some like row names both the post and the user |
| LocalDatabaseHelper.AddLike | app/src/main/java/com/example/checknshare/database/LocalDatabaseHelper.kt:457-464 | appends one like row, so the post's count and the pair's rows both grow by one and the user now likes the post |
| LocalDatabaseHelper.RemoveLike | app/src/main/java/com/example/checknshare/database/LocalDatabaseHelper.kt:467-474 | deletes every row of the pair and returns how many there were; afterwards the user does not like the post and the count has dropped by that number |
| LocalDatabaseHelper.ToggleLike | app/src/main/java/com/example/checknshare/database/LocalDatabaseHelper.kt:477-484 | returns the new liked state, the opposite of the old one; liking adds one to the count, unliking removes all the pair's rows |
| LocalDatabaseHelper.AddLikeFrame | app/src/main/java/com/example/checknshare/database/LocalDatabaseHelper.kt:457-464 | adding a like changes no other (post, user) pair and no other post's count |
| LocalDatabaseHelper.RemoveLikeFrame | app/src/main/java/com/example/checknshare/database/LocalDatabaseHelper.kt:467-474 | removing a pair's likes changes no other pair and no other post's count |
| LocalDatabaseHelper.ToggleLikeFrame | app/src/main/java/com/example/checknshare/database/LocalDatabaseHelper.kt:477-484 | a toggle changes no other pair and no other post's count |
| LocalDatabaseHelper.ToggleTwiceRestores | app/src/main/java/com/example/checknshare/database/LocalDatabaseHelper.kt:477-484 | from "not liked", two toggles return true then false and restore the likes table exactly |
| LocalDatabaseHelper.ToggleTwiceCollapses | app/src/main/java/com/example/checknshare/database/LocalDatabaseHelper.kt:477-484 | from "liked" (perhaps several times over), two toggles return false then true and leave exactly one like row for the pair |
| LocalDatabaseHelper.AsNotification | app/src/main/java/com/example/checknshare/database/LocalDatabaseHelper.kt:537-551 | a row keeps its id and profile image; each text column is shown as stored, and as "" when NULL |
| LocalDatabaseHelper.LastFirstDescending | app/src/main/java/com/example/checknshare/database/LocalDatabaseHelper.kt:532 | listing the last row first gives strictly descending ids |
| LocalDatabaseHelper.GetAllNotifications | app/src/main/java/com/example/checknshare/database/LocalDatabaseHelper.kt:504-558 | the list holds exactly the notifications addressed to the recipient (or all of them when none is given), each once, with ids strictly descending |
| LocalDatabaseHelper.NotificationSource | app/src/main/java/com/example/checknshare/database/LocalDatabaseHelper.kt:509-532 | each listed notification is the rendering of a row addressed to the recipient |
| LocalDatabaseHelper.NotificationsComplete | app/src/main/java/com/example/checknshare/database/LocalDatabaseHelper.kt:509-532 | no row addressed to the recipient is missing from the list |
| LocalDatabaseHelper.CreateNotification | app/src/main/java/com/example/checknshare/database/LocalDatabaseHelper.kt:561-573 | one new unread row under a fresh id, marked "à l'instant"; the other tables are untouched |
| LocalDatabaseHelper.SetRead | app/src/main/java/com/example/checknshare/database/LocalDatabaseHelper.kt:576-582 | the UPDATE sets the read flag of the rows with that id, and every other row and every id stays as it was |
| LocalDatabaseHelper.SetReadValid | app/src/main/java/com/example/checknshare/database/LocalDatabaseHelper.kt:576-582 | marking rows read keeps the table well formed |
| LocalDatabaseHelper.MarkNotificationAsRead | app/src/main/java/com/example/checknshare/database/LocalDatabaseHelper.kt:576-582 | only the named notification becomes read; the count returned is positive exactly when it exists and at most 1 in a well-formed store |
| LocalDatabaseHelper.MarkReadIdempotent | app/src/main/java/com/example/checknshare/database/LocalDatabaseHelper.kt:576-582 | marking the same notification read twice is the same as once |
| LocalDatabaseHelper.NewNotificationListedFirst | app/src/main/java/com/example/checknshare/database/LocalDatabaseHelper.kt:561-573 | in a well-formed store a notification just created heads its recipient's list, shown as created |
| LocalDatabaseHelper.CreatedUserIsLast | app/src/main/java/com/example/checknshare/database/LocalDatabaseHelper.kt:306-332 | after a successful `createUser`, no earlier row has its username or its email |
| LocalDatabaseHelper.AuthenticateAfterCreate | app/src/main/java/com/example/checknshare/database/LocalDatabaseHelper.kt:253-303 | after a successful `createUser`, logging in with the same email and password finds exactly the new row's user, and so does logging in with the username |
| LocalDatabaseHelper.WrongPasswordRejected | app/src/main/java/com/example/checknshare/database/LocalDatabaseHelper.kt:200-303 | after a successful `createUser`, a password with a different digest logs in neither by email nor by username |
| LocalDatabaseHelper.NewRowOnlyMatch | app/src/main/java/com/example/checknshare/database/LocalDatabaseHelper.kt:306-332 | after a successful `createUser`, every row with its username or email holds its password's digest |
| LocalDatabaseHelper.FeedNewestFirstInTime | app/src/main/java/com/example/checknshare/database/LocalDatabaseHelper.kt:377 | with "YYYY-MM-DD HH:MM:SS" timestamps the feed never lists an older reading above a newer one |
| LocalDatabaseHelper.FeedFollowsText | app/src/main/java/com/example/checknshare/database/LocalDatabaseHelper.kt:377 | of two shown posts, the one with the larger `created_at` text is listed first |
| LocalDatabaseHelper.FeedIndexOf | app/src/main/java/com/example/checknshare/database/LocalDatabaseHelper.kt:374-396 | a stored post with an existing author appears in the feed, with its own `created_at` |
| LocalDatabaseHelper.EntryShowsItsRow | app/src/main/java/com/example/checknshare/database/LocalDatabaseHelper.kt:377 | a feed entry with a stored post's id shows that post's `created_at` |
| LocalDatabaseHelper.BelowNotFirst | app/src/main/java/com/example/checknshare/database/LocalDatabaseHelper.kt:377 | a shown post whose `created_at` text sorts below another shown post's is never the first entry of the feed |
| LocalDatabaseHelper.AsWrittenFeedListsOlderFirst | app/src/main/java/com/example/checknshare/database/LocalDatabaseHelper.kt:419-420 | with the "dd-MM-yyy HH:mm" text, a post from New Year's Eve is listed above one from New Year's Day |
| PostOrder.InsertByDate | app/src/main/java/com/example/checknshare/database/LocalDatabaseHelper.kt:377 | placing one entry by date adds exactly that entry |
| PostOrder.InsertByDateKeepsOrder | app/src/main/java/com/example/checknshare/database/LocalDatabaseHelper.kt:377 | placing an entry by date keeps a newest-first list newest first |
| PostOrder.SortNewestFirst | app/src/main/java/com/example/checknshare/database/LocalDatabaseHelper.kt:377 | `ORDER BY created_at DESC` gives a permutation of its input with no timestamp below a later one's |
| PostOrder.SortKeepsEntries | app/src/main/java/com/example/checknshare/database/LocalDatabaseHelper.kt:377 | sorting neither adds nor drops an entry |
| Schema.SampleAddress | app/src/main/java/com/example/checknshare/database/LocalDatabaseHelper.kt:114 | seed post i's address is "Adresse Exemple " followed by one digit |
| Schema.AddLikes | app/src/main/java/com/example/checknshare/database/LocalDatabaseHelper.kt:119-126 | the inner seed loop adds exactly n likes to the post, by the seed user, and changes no other post's count |
| Schema.SeedPost | app/src/main/java/com/example/checknshare/database/LocalDatabaseHelper.kt:109-126 | one pass of the post loop stores sample post i (image i, "Paris, France", address i) and gives it (i + 1) * 5 likes |
| Schema.SeedPosts | app/src/main/java/com/example/checknshare/database/LocalDatabaseHelper.kt:109-127 | the post loop ends with three sample posts carrying 5, 10 and 15 likes, all by the seed user |
| Schema.SeedNotifications | app/src/main/java/com/example/checknshare/database/LocalDatabaseHelper.kt:154-164 | the notification loop appends one unread row per sample, in list order, under consecutive ids |
| Schema.SeedUserCreated | app/src/main/java/com/example/checknshare/database/LocalDatabaseHelper.kt:98-105 | the test user's insert into the empty database succeeds with id 1 |
| Schema.PostLoopSeeds | app/src/main/java/com/example/checknshare/database/LocalDatabaseHelper.kt:107-127 | starting from the test user alone, the post loop leaves the three sample posts and their likes |
| Schema.NotificationLoopSeeds | app/src/main/java/com/example/checknshare/database/LocalDatabaseHelper.kt:146-164 | after the post loop, the notification loop completes the seeded database |
| Schema.SeedDatabaseSeeded | app/src/main/java/com/example/checknshare/database/LocalDatabaseHelper.kt:98-164 | the inserts of `onCreate`, in order, give the test user, the sample posts and likes, and the four notifications |
| Schema.OnCreate | app/src/main/java/com/example/checknshare/database/LocalDatabaseHelper.kt:57-165 | a created database is well formed and holds exactly the seed data |
| Schema.SeededFirstPost | app/src/main/java/com/example/checknshare/database/LocalDatabaseHelper.kt:106-116 | the first seed post is by user 1, the test user, and carries the `CURRENT_TIMESTAMP` text |
| Schema.OnUpgrade | app/src/main/java/com/example/checknshare/database/LocalDatabaseHelper.kt:167-174 | an upgraded database holds exactly the seed data, whatever it held before |
| Schema.UpgradeForgetsOldStore | app/src/main/java/com/example/checknshare/database/LocalDatabaseHelper.kt:167-174 | any two stores, at any versions, upgrade to the same database |
| Schema.SoleUserLogsIn | app/src/main/java/com/example/checknshare/database/LocalDatabaseHelper.kt:200-303 | the only user of a store logs in with their email or their username and password |
| Schema.SeedUserLogsIn | app/src/main/java/com/example/checknshare/database/LocalDatabaseHelper.kt:98-105 | the seed user logs in as user 1 with "test@example.com" or "test", and "test123" |
| Schema.ToggleBySoleLikerClears | app/src/main/java/com/example/checknshare/database/LocalDatabaseHelper.kt:477-484 | when one user made every like, their toggle on a liked post unlikes it and takes its count to zero |
| Schema.SampleToggleClearsLikes | app/src/main/java/com/example/checknshare/database/LocalDatabaseHelper.kt:119-125 | sample post q has q * 5 likes, and one toggle by user 1 takes it to none |
| Schema.SeedToggleClearsLikes | app/src/main/java/com/example/checknshare/database/LocalDatabaseHelper.kt:119-125 | in the created database, sample post q has q * 5 likes, and one toggle by the seed user takes it to none |
| Schema.FeedAddressIsLocation | app/src/main/java/com/example/checknshare/database/LocalDatabaseHelper.kt:377 | when every post has the same location, every feed entry shows it as the address, whatever the address column holds |
| Schema.SampleFeedShowsLocation | app/src/main/java/com/example/checknshare/database/LocalDatabaseHelper.kt:113-114 | the sample posts show "Paris, France" as their address in the feed, though none stores it as its address, and all three are shown |
| Schema.SoleRecipientList | app/src/main/java/com/example/checknshare/database/LocalDatabaseHelper.kt:509-532 | when every notification has the same recipient, their list is every row, the last inserted first |
| Schema.SampleNotificationsListed | app/src/main/java/com/example/checknshare/database/LocalDatabaseHelper.kt:147-163 | with the four sample notifications stored, user 1's list is those four, the last inserted first |
| Schema.SeedNotificationsNewestFirst | app/src/main/java/com/example/checknshare/database/LocalDatabaseHelper.kt:147-163 | in the created database, the seed user's list is the four samples, the last inserted first |
| PostRepository.CreatePost | app/src/main/java/com/example/checknshare/database/PostRepository.kt:26-39 | the store's new post (stamped "dd-MM-yyy HH:mm") and id are passed through; a well-formed store never gives -1 |
| PostRepository.Find | app/src/main/java/com/example/checknshare/database/PostRepository.kt:64 | `find` gives nothing exactly when no entry has the id, and otherwise the first entry that has it |
| PostRepository.GetPostById | app/src/main/java/com/example/checknshare/database/PostRepository.kt:61-75 | the post found has the requested id and is a feed entry; nothing is found exactly when the feed has no entry with the id |
| PostRepository.GetPostByIdIffStored | app/src/main/java/com/example/checknshare/database/PostRepository.kt:61-75 | a post is found exactly when a stored post has the id and its author exists |
| PostRepository.PostsBy | app/src/main/java/com/example/checknshare/database/PostRepository.kt:85 | `filter` keeps only entries of the feed by that user |
| PostRepository.PostsByIsSubsequence | app/src/main/java/com/example/checknshare/database/PostRepository.kt:85 | `filter` only leaves entries out and keeps the others in feed order |
| PostRepository.PostsByKeeps | app/src/main/java/com/example/checknshare/database/PostRepository.kt:85 | `filter` leaves out none of the user's entries |
| PostRepository.SubsequenceNewestFirst | app/src/main/java/com/example/checknshare/database/PostRepository.kt:82-92 | a sub-list of a newest-first list is newest first |
| PostRepository.GetPostsByUserId | app/src/main/java/com/example/checknshare/database/PostRepository.kt:82-92 | exactly the user's feed entries: only entries by that user, every such entry, kept in feed order and so newest first |
| PostRepository.DeletePost | app/src/main/java/com/example/checknshare/database/PostRepository.kt:99-113 | true exactly when the post existed; afterwards it is not found and has no likes |
| PostRepository.HasUserLiked | app/src/main/java/com/example/checknshare/database/PostRepository.kt:202-209 | true exactly when the pair has at least one like row |
| PostRepository.AddLike | app/src/main/java/com/example/checknshare/database/PostRepository.kt:137-155 | an already liked post is left alone and false is returned; otherwise the pair gets exactly one like row and the count grows by one; in a well-formed store the result is true exactly when the like was new; the user likes the post afterwards either way |
| PostRepository.AddLikeRepeatedly | app/src/main/java/com/example/checknshare/database/PostRepository.kt:137-155 | repeated taps through the repository never give a pair more than one like row |
| PostRepository.RemoveLike | app/src/main/java/com/example/checknshare/database/PostRepository.kt:163-177 | true exactly when the user liked the post; afterwards they do not; only the likes table changes, and a well-formed store stays well formed |
| PostRepository.ToggleLike | app/src/main/java/com/example/checknshare/database/PostRepository.kt:185-194 | returns the new liked state, the opposite of the old one; only the likes table changes, and a well-formed store stays well formed |
| PostRepository.CreatedPostIsFound | app/src/main/java/com/example/checknshare/database/PostRepository.kt:26-75 | in a well-formed store a post created for an existing user is found by its new id with the data it was created with and the "dd-MM-yyy HH:mm" text of the clock reading |
| PostRepository.SameRowFound | app/src/main/java/com/example/checknshare/database/LocalDatabaseHelper.kt:374-396 | a feed entry with a stored post's id carries that post's columns |
| PostRepository.OrphanPostIsHidden | app/src/main/java/com/example/checknshare/database/PostRepository.kt:26-75 | a post created for a missing user is stored but never found |
| MainActivity.IsUserLoggedIn | app/src/main/java/com/example/checknshare/MainActivity.kt:65-68 | logged in exactly when the flag is stored and true; a missing key reads as false |
| MainActivity.OnCreate | app/src/main/java/com/example/checknshare/MainActivity.kt:19-48 | redirects to login exactly when not logged in; otherwise the four destinations are top level and the title is "Check'N'Share" |
| MainActivity.Logout | app/src/main/java/com/example/checknshare/MainActivity.kt:76-85 | every session key is removed and the login screen follows, so the next start redirects to login |
| MainActivity.OnOptionsItemSelected | app/src/main/java/com/example/checknshare/MainActivity.kt:55-63 | the logout item logs out, redirects and reports the item handled; any other item leaves the session alone and defers to the superclass |
| MainActivity.LogoutIdempotent | app/src/main/java/com/example/checknshare/MainActivity.kt:76-85 | logging out twice is the same as once |
| LoginActivity.ValidateInput | app/src/main/java/com/example/checknshare/LoginActivity.kt:45-65 | the first failing check in order (email empty, email malformed, password empty, password shorter than 6) is reported; none exactly when the email is non-empty and well formed and the password has at least 6 UTF-16 units |
| LoginActivity.LoginUser | app/src/main/java/com/example/checknshare/LoginActivity.kt:67-119 | welcomed exactly when some row has that email and the password's digest; the session then holds that user and is logged in; otherwise the session is untouched |
| LoginActivity.OnLoginClick | app/src/main/java/com/example/checknshare/LoginActivity.kt:28-35 | invalid trimmed fields report the validation error; valid ones log in exactly when registered; only a welcome changes the session |
| LoginActivity.SurroundingBlanksIgnored | app/src/main/java/com/example/checknshare/LoginActivity.kt:29-30 | typing blanks around the fields never changes the outcome |
| SignupActivity.ValidateInput | app/src/main/java/com/example/checknshare/SignupActivity.kt:46-101 | the first failing check in the `when` order is reported; none exactly when the username has 3 or more units, the email is well formed, the password has 6 or more, and the confirmation matches |
| SignupActivity.RegisterUser | app/src/main/java/com/example/checknshare/SignupActivity.kt:103-157 | "username in use" exactly when it is taken; a failure exactly when only the email is taken; created otherwise, with one new user holding the digest; only a creation changes the store |
| SignupActivity.OnSignupClick | app/src/main/java/com/example/checknshare/SignupActivity.kt:29-38 | invalid trimmed fields report the validation error and change nothing; valid ones register with the trimmed fields |
| SignupActivity.CreatedAccountIsUnique | app/src/main/java/com/example/checknshare/SignupActivity.kt:103-157 | in a well-formed store the new account is the only row with its username or its email |
| HomeFragment.GetCurrentUserId | app/src/main/java/com/example/checknshare/ui/home/HomeFragment.kt:227-231 | the stored user id when there is one; otherwise the smallest existing user id; -1 exactly when neither exists (in a well-formed store) |
| HomeFragment.SecondFallbackRedundant | app/src/main/java/com/example/checknshare/ui/home/HomeFragment.kt:203-204 | the like handler's second fallback never changes the user it acts for |
| HomeFragment.OnLikeToggle | app/src/main/java/com/example/checknshare/ui/home/HomeFragment.kt:202-211 | with no user it returns 0 and changes nothing; otherwise the user's liked state flips and the count returned is the post's count afterwards |
| HomeFragment.LocationText | app/src/main/java/com/example/checknshare/ui/home/HomeFragment.kt:325 | the shown location is kept exactly when it is not blank and not the placeholder |
| HomeFragment.Publish | app/src/main/java/com/example/checknshare/ui/home/HomeFragment.kt:318-338 | as written: nothing is published exactly when no user resolves; otherwise one post is appended for that user with the image, the location and the "dd-MM-yyy HH:mm" text of the clock reading; a well-formed store never fails |
| HomeFragment.PublishCorrected | app/src/main/java/com/example/checknshare/ui/home/HomeFragment.kt:318-338 | the same handler over the corrected `createPost`, appending the "yyyy-MM-dd HH:mm:ss" text |
| HomeFragment.PublishedPostOnTop | app/src/main/java/com/example/checknshare/ui/home/HomeFragment.kt:241-245 | with the corrected `createPost`, a post whose timestamp is above every stored one heads the refreshed feed |
| HomeFragment.PublishBelowNotOnTop | app/src/main/java/com/example/checknshare/ui/home/HomeFragment.kt:241-245 | as written, when some shown post's text sorts above the new "dd-MM-yyy HH:mm" text, the refreshed feed does not start with the new post |
| HomeFragment.SeededPublishNotOnTop | app/src/main/java/com/example/checknshare/ui/home/HomeFragment.kt:241-245 | as written, on a database seeded in 2000 to 2099, a post published on days 1 to 20 of any month never heads the refreshed feed |
| HomeFragment.TopIsNewest | app/src/main/java/com/example/checknshare/ui/home/HomeFragment.kt:243-247 | the last stored post, with a timestamp above every other, heads the feed |
| PostAdapter.PhotoFor | app/src/main/java/com/example/checknshare/ui/home/PostAdapter.kt:46-67 | a drawable name shows that drawable; else a stored photo that loads is shown; in every other case, a missing name included, the placeholder |
| PostAdapter.DrawableBeatsStoredPhoto | app/src/main/java/com/example/checknshare/ui/home/PostAdapter.kt:46-67 | a name the resources know shows that drawable whatever the photo loader would give |
| PostAdapter.Bind | app/src/main/java/com/example/checknshare/ui/home/PostAdapter.kt:41-76 | the card shows the author, the location or "", the timestamp, the photo above and the post's count, with a filled heart exactly when the count is positive |
| PostAdapter.OnHeartClick | app/src/main/java/com/example/checknshare/ui/home/PostAdapter.kt:78-87 | a click shows the returned count, fills the heart exactly when it is positive, and changes nothing else |
| PostAdapter.DiffTestsAgreeOnOneFeed | app/src/main/java/com/example/checknshare/ui/home/PostAdapter.kt:92-95 | for two entries of one store's feed, "same item" holds exactly when "same contents" does |
| PostAdapter.ClickShowsStoredCount | app/src/main/java/com/example/checknshare/ui/home/PostAdapter.kt:78-87 | after a click the card shows the stored count, with a filled heart exactly when the post has a like |
| PostAdapter.HeartIgnoresWhoLikes | app/src/main/java/com/example/checknshare/ui/home/PostAdapter.kt:69-87 | unliking a post that someone else also likes leaves the heart filled |
| AppFlow.SignupThenLogin | app/src/main/java/com/example/checknshare/LoginActivity.kt:67-119 | in a well-formed store, after a sign-up that creates an account, the same email and password fields log in as that account; the main screen then opens and the feed acts for it |
| AppFlow.LoginClickLogsIn | app/src/main/java/com/example/checknshare/LoginActivity.kt:28-35 | fields that pass validation go straight to `loginUser`, trimmed |
| AppFlow.SignupCreates | app/src/main/java/com/example/checknshare/SignupActivity.kt:29-38 | a sign-up that ends in "created" went through `createUser` with the trimmed fields, and those fields also pass the login checks |
| AppFlow.LoginAfterCreate | app/src/main/java/com/example/checknshare/LoginActivity.kt:67-119 | right after `createUser` succeeds, logging in with its email and password welcomes the new row's user and saves them in the session |
| AppFlow.LoginThenLogout | app/src/main/java/com/example/checknshare/MainActivity.kt:76-85 | a welcomed login opens the main screen, and logging out afterwards always sends the next start to login |

## Left out

- `SupabaseDatabaseHelper`, `UserRepository` and `DatabaseConfig`: the hosted back end is not part of this model. `DatabaseHelper` only delegates to `LocalDatabaseHelper` and is not modelled separately. The repository's `getAllPosts` and `getLikeCount` pass their store call through and are covered by the store's members.
- SHA-256 itself and the UTF-8 encoding of the password: these are the parameter `sha`. Only the hex rendering is modelled.
- `Patterns.EMAIL_ADDRESS`: the parameter `isEmail`.
- The clock, the time zone, the geocoder and location permission, the camera and `PhotoManager`: the clock reading is the parameter `now`, the location is the text the dialog shows, and whether a photo loads is the parameter `loads`.
- Exceptions and the `try`/`catch` blocks around store calls: an engine fault is not modelled. Each call ends the way SQLite ends it on a healthy database.
- Coroutines, `withContext` and any concurrency: every operation is one atomic step, run one at a time.
- `onOpen`'s `CREATE TABLE IF NOT EXISTS posts`: it changes nothing once `onCreate` has run.
- `users.created_at`: it is never read.
- Toasts, logging, button enabling and labels, focus, dialogs, intents and activity finishing: they are not modelled, except that the launch outcome says which screen follows.
- `NotificationsFragment`, `NotificationsAdapter`, `ProfileFragment`, `PhotoGridAdapter` and the map screen: these are screens outside the core.
- `loadPosts`/`refreshPosts` are not separate members: refreshing shows `GetAllPosts` (`HomeFragment.TopIsNewest`).
- Kotlin's 32-bit `Int` and 64-bit `Long`: ids, counts and the `toInt()` conversions are unbounded integers. No table grows near 2^31 rows.
- LocalDatabaseHelper.GetAllPosts: SQLite does not fix the order of posts with equal `created_at`. The model keeps table order among them, which is one of the orders SQLite may return.
- Timestamps.Timestamp: clock readings are limited to years 1 to 9999 and to days 1 to 31 without a per-month check.
- Schema.OnCreate: the three seed posts share one clock reading, `seedTime`. In SQLite each insert takes its own `CURRENT_TIMESTAMP`; if the inserts straddle a second, the later posts get larger texts and the feed lists them in the opposite order to the one the model gives equal texts.
- PostAdapter.Bind: the count is kept as a number rather than as the text `toString()` makes of it.
- PostAdapter.PhotoFor: the drawable ids and the photo loader are parameters, so the contract speaks only of which source is chosen.
- MainActivity.OnCreate: the navigation controller and the action bar are reduced to the set of top-level destinations and the title.

## Findings

| source | as written | input that shows it | evidently intended | confidence | as-written member | corrected member |
|---|---|---|---|---|---|---|
| app/src/main/java/com/example/checknshare/database/LocalDatabaseHelper.kt:419-420 | `createPost` stores `created_at` formatted "dd-MM-yyy HH:mm", while `getAllPosts` sorts by that text `DESC`, the seed rows carry SQLite's "yyyy-MM-dd HH:mm:ss" default and the `Post` record documents "YYYY-MM-DD HH:MM:SS" | on a database seeded at 2026-10-10 10:00:00, a post published at 2026-10-10 12:00 is stored as "10-10-2026 12:00", which sorts below the seed posts' "2026-10-10 10:00:00", so the refreshed feed does not start with it; the same holds on days 1 to 20 of every month, and a post from 2025-12-31 23:59 is listed above one from 2026-01-01 00:00 | store "yyyy-MM-dd HH:mm:ss", whose text order is the time order, so the feed is newest first and a new post heads it | not executed | LocalDatabaseHelper.CreatePost, HomeFragment.Publish, HomeFragment.SeededPublishNotOnTop, Timestamps.AsWrittenBelowTimestamp, Timestamps.AsWrittenMisorders, LocalDatabaseHelper.AsWrittenFeedListsOlderFirst | LocalDatabaseHelper.CreatePostCorrected, HomeFragment.PublishCorrected, HomeFragment.PublishedPostOnTop, Timestamps.TimestampOrder, LocalDatabaseHelper.FeedNewestFirstInTime |
