/** The record shapes the store hands to the app (Kotlin data classes). */
module Models {
  import opened Wrappers

  /** `database/User.kt`: what a successful authentication returns. */
  datatype User = User(id: int, username: string, email: string)

  /**
    `models/Post.kt`: one feed entry, a post joined with its author's name.
    `createdAt` is nullable in Kotlin but every row the store writes has one.
  */
  datatype Post = Post(
    id: int,
    userId: int,
    username: string,
    imageName: Option<string>,
    location: Option<string>,
    locationAddress: Option<string>,
    createdAt: string)

  /** `ui/notifications/Notification.kt`: a notification as the list shows it. */
  datatype Notification = Notification(
    id: int,
    userName: string,
    action: string,
    location: string,
    timeAgo: string,
    profileImageUrl: Option<string>)
}
