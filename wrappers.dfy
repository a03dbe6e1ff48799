/** Optional values, results and the typed failures the services raise. */
module Wrappers {

  datatype Option<+T> = None | Some(value: T) {
    function GetOr(default: T): T {
      match this
      case Some(v) => v
      case None => default
    }
  }

  datatype Result<+R, +E> = Success(value: R) | Failure(error: E)

  /** One constructor per distinct `Error` the services and controllers throw. */
  datatype Error =
    | PostNotFound        // 'Post not found'
    | ContentTooShort     // 'Post content must be at least 60 characters'
    | MissingBookOrUser   // 'Book name and user ID are required'
    | ValidationFailed    // a schema validator rejects the document on save
    | Unauthorized        // 'Unauthorized: You can only delete your own posts'
    | UserNotFound        // 'User not found'
    | UsernameTaken       // 'Username already taken'
    | FollowerNotFound    // 'Follower user not found'
    | TargetNotFound      // 'Target user not found'
    | InvalidPassword     // 'Invalid password'
    | CannotFollowSelf    // 'You cannot follow yourself'
    | CurrentUserMissing  // the session user no longer exists (a TypeError in the profile page)
}
