# book-review: a verified model of the feed and follow core

book-review is a small social network for book reviews. Users write reviews (posts) of at least 60
characters, like them, repost them and follow one another. The global feed shows everyone's posts and the
following feed shows one's own and followed users' posts. A profile page shows a user's posts and the
follow relationship with the viewer.

This Dafny project models the core of that system:

- **The post service.** This covers creating posts and resolving a repost to its original. That resolution
  walks a chain of `originalPostId` references and repairs a dangling one. It also covers toggling a repost
  or a like, which always happens on the resolved original, and deleting a post, which unlinks its reposts
  first. It includes the three paged feed queries as well.
- **The user service.** Accounts with unique usernames, field-selective profile updates, and the follow
  graph: `following` lists, followers found by reverse scan, and profiles with both lists resolved.
- **The two schemas.** The `Post` and `User` fields, their trimming setters and validators, and the post
  virtuals `likesCount`, `repostsCount` and `isRepost`.
- **The feed controller.** It chooses the page and collects the originals behind the reposts on it. It
  builds the author map, which falls back to the "Deleted User" placeholder.
- **The profile controller.** It computes the relationship flags `isFollowing`, `isOwnProfile`, `followsYou`
  and `mutualFollows`, and refuses a self-follow.

Layout:

| file | module | contents |
|---|---|---|
| `wrappers.dfy` | `Wrappers` | `Option`, `Result`, and the service errors |
| `text.dfy` | `Text` | JavaScript `trim` and `length` |
| `collections.dfy` | `Collections` | the array methods: `filter`, `indexOf` and `new Set`. Also the collection scans: natural order and `findOne` |
| `post_model.dfy`, `user_model.dfy` | `PostModel`, `UserModel` | the records, defaults, setters, validators and virtuals |
| `resolution.dfy` | `Resolution` | `findOriginalPost` as a function on the collection, and the reference-chain facts |
| `post_service.dfy` | `PostService` | a step function per operation, plus the class `PostStore` whose methods update the collection in place and are proved to perform those steps |
| `post_properties.dfy` | `PostProperties` | outcomes, preserved invariants, toggling twice, acting through a repost |
| `post_queries.dfy` | `PostQueries` | sorting newest first, `skip`/`limit` paging, and the three feed queries |
| `user_service.dfy`, `user_properties.dfy` | `UserService`, `UserProperties` | the same two layers for users: the class `UserStore`, then the lemmas |
| `feed_controller.dfy` | `FeedController` | the feed page, built by loops proved against specification functions |
| `profile_controller.dfy` | `ProfileController` | the profile page and the follow and unfollow actions |

### How some of the system is represented

- **Ids.** Post and user ids are natural numbers taken from a counter. Each collection is a map from id to
  record. Natural (insertion) order is ascending id. `findOne` returns the first match in that order.
- **References.** A reference always names an older post, which is what makes resolution terminate.
  Reference chains are still allowed, and resolution handles them. `findOriginalPost` recurses on the
  reference it finds (services/postService.js:70), so a cycle of references would make it recurse forever.
  Ids from a counter that only grows, with every reference naming an older post, rule such a cycle out.
- **Invariants.** The operations keep five invariants, which are proved preserved step by step. Nothing in
  the collection enforces them; they hold only because every operation keeps them.
  - Every reference has depth one.
  - No reference dangles.
  - Repost records carry no likes or reposts.
  - `likes` and `reposts` stay duplicate-free.
  - Every record passes the schema's validators (`AllSchemaValid` for posts, `AllUsersSchemaValid` for
    users).
- **Step functions and methods.** A state-changing operation is first a function from the old collection
  to the new one and the outcome. It is then a method of the store class, whose `ensures` ties it to that
  function.

## Model

| member | source | states |
|---|---|---|
| PostModel.Post.LikesCount | models/Post.js:52-55 | `likesCount` is the length of `likes`, and the number of distinct likers while the list has no duplicates |
| PostModel.Post.RepostsCount | models/Post.js:57-60 | `repostsCount` is the length of `reposts`, and the number of distinct reposters while the list has no duplicates |
| PostModel.NewPost | models/Post.js:3-50 | a new document has the given ids and reference and trimmed texts. `likes`/`reposts` start empty and `createdAt` is the current time. `isRepost` holds exactly when a reference is given |
| PostModel.NewPostValidity | models/Post.js:20-31 | a new post passes validation exactly when the trimmed book name has at least 1 character and the trimmed content at least 60. Texts copied from a valid post stay valid |
| Text.Trim | models/Post.js:20-31 | the `trim` setter: the result is a contiguous part of the input with no whitespace at either end, and everything cut off on either side is whitespace. Already-trimmed text is unchanged |
| Text.TrimUnique | models/Post.js:20-31 | only one part of a string is both trimmed and surrounded by whitespace alone, so `Trim` is exactly "the input minus its leading and trailing whitespace" |
| Text.LeadingSpace | models/Post.js:20-31 | the count of leading whitespace characters: everything before it is whitespace, and the start trim drops exactly that prefix |
| Text.TrailingCut | models/Post.js:20-31 | where trailing whitespace begins: everything from it on is whitespace, and the end trim keeps exactly the part before it |
| UserModel.TrimEach | models/User.js:36-39 | each interest is the trimmed original at the same position, and none is dropped |
| UserModel.NewUser | models/User.js:4-54 | a new user has an empty `following` list, a trimmed username and full name, and each interest trimmed. It is valid exactly when the username has 3 to 30 characters, the full name 2 to 50, the age is 13 to 120 and a credential is given |
| Collections.Without | services/postService.js:116 | `filter(id => id !== x)` keeps exactly the entries other than `x`, and leaves a list without `x` as it was |
| Collections.WithoutMultiset | services/postService.js:116 | the filter removes every occurrence of `x` and keeps every other entry as often as before |
| Collections.WithoutNoDup | services/postService.js:116 | on a list without duplicates, the filter adds none and removes exactly one entry when `x` was there |
| Collections.WithoutAppended | services/postService.js:139-141 | pushing `x` and then filtering it out gives the same list as filtering alone |
| Collections.WithoutConcat | services/postService.js:116 | filtering distributes over concatenation |
| Collections.IndexOf | services/userService.js:189 | `indexOf` returns the first position of `x`, or -1 exactly when `x` is absent |
| Collections.Dedup | controllers/feedController.js:41 | `[...new Set(s)]` has no duplicates and exactly the elements of `s` |
| Collections.Filter | services/userService.js:219-220 | a query filter keeps exactly the entries that pass, each as often as before |
| Collections.Listing | services/postService.js:255 | a scan in natural order returns every stored record below the counter, once each, in ascending id |
| Collections.ListingSize | services/postService.js:255 | the scan holds exactly one record per stored id |
| Collections.FirstKey | services/userService.js:82 | `findOne` returns the smallest matching id, and none exactly when nothing matches |
| Collections.DistinctCount | models/Post.js:52-60 | a list without duplicates has as many distinct members as entries |
| Resolution.Resolve | services/postService.js:44-85 | `findOriginalPost` fails with not-found exactly for an unknown id. Otherwise it returns an older or equal stored post, with `existingRepost` set unless the id is its own original. An original resolves to itself |
| Resolution.Detach | services/postService.js:59-64 | the repair clears only the returned original's own reference, and is a no-op when that reference was already null |
| Resolution.ResolveFindsChainEnd | services/postService.js:66-81 | the returned original is reached from the id and ends its chain: its reference is null or dangling |
| Resolution.ChainEndUnique | services/postService.js:66-81 | a chain has exactly one end, so the original behind a post is well defined |
| Resolution.ReachesDown | services/postService.js:70 | following references only ever reaches older posts, which is why the recursion terminates |
| Resolution.ResolveReturnsChainEnd | services/postService.js:53-81 | any chain end reached from an id is exactly what resolution returns |
| Resolution.ResolveThroughRepost | services/postService.js:66-71 | resolving a repost of a stored post gives the same original as resolving that post |
| Resolution.FlatResolvesInOneStep | services/postService.js:53-64 | in a collection of depth one, a repost resolves to the post it names in one step |
| Resolution.ReachesAfterDetach | services/postService.js:72-76 | the repair keeps the chain from the id to its original intact |
| Resolution.ResolveAfterRepair | services/postService.js:72-76 | after the repair, the id resolves to the same original |
| Resolution.ResolveIdempotent | services/postService.js:44-85 | resolving again after the repair gives the same answer and repairs nothing more |
| Resolution.ResolveSameRefs | services/postService.js:44-85 | resolution reads only ids and references of posts no newer than the start, never likes, reposts, texts or later posts |
| Resolution.DetachPreservesFlat | services/postService.js:61-62 | clearing a reference keeps the references-to-older-posts guarantee and keeps a depth-one collection at depth one |
| PostService.DirectReposts | services/postService.js:229 | the query for the reposts of `id` returns exactly the stored posts that reference `id` |
| PostService.UnlinkKeepsValid | services/postService.js:229-239 | unlinking the reposts and removing the post keeps the collection's id guarantees |
| PostService.PostStore.constructor | models/Post.js:3-50 | an empty, valid collection |
| PostService.PostStore.CreatePost | services/postService.js:13-37 | `createPost` updates the collection and reports exactly as `CreatePostStep` says, and keeps it valid |
| PostService.PostStore.FindOriginalPost | services/postService.js:44-85 | `findOriginalPost` leaves the collection unchanged and reports not-found for an unknown id. Otherwise it returns the records `Resolve` names and applies exactly the `Detach` repair |
| PostService.PostStore.GetPostById | services/postService.js:161-171 | `getPostById` returns the stored post, and fails with not-found exactly when there is none |
| PostService.PostStore.ToggleRepost | services/postService.js:93-154 | `toggleRepost` performs exactly `ToggleRepostStep` and keeps the collection valid |
| PostService.PostStore.RemoveRepost | services/postService.js:104-126 | the removing branch performs exactly `RemoveRepostStep` |
| PostService.PostStore.AddRepost | services/postService.js:128-150 | the creating branch performs exactly `AddRepostStep` |
| PostService.PostStore.LikePost | services/postService.js:179-208 | `likePost` performs exactly `LikeStep` and keeps the collection valid |
| PostService.PostStore.DeletePost | services/postService.js:216-244 | `deletePost` performs exactly `DeleteStep` and keeps the collection valid |
| PostProperties.CreatePostContract | services/postService.js:16-33 | too-short content fails first, then a missing book name or user. On success exactly one original is added under the fresh id, with no likes or reposts, and nothing else changes |
| PostProperties.CreatePostKeepsConsistent | services/postService.js:13-37 | `createPost` keeps every invariant |
| PostProperties.DetachKeepsConsistent | services/postService.js:59-76 | the repair keeps every invariant |
| PostProperties.ReplaceKeepsValid | services/postService.js:117 | saving a post with an unchanged reference keeps the collection's id guarantees |
| PostProperties.ReplaceKeepsConsistent | services/postService.js:117 | saving a post that keeps its reference and obeys the invariants keeps every invariant |
| PostProperties.InsertKeepsValid | services/postService.js:136 | inserting under the fresh id a post that references an older one keeps the id guarantees |
| PostProperties.InsertKeepsConsistent | services/postService.js:136 | inserting a bare post that is an original, or that references a stored original, keeps every invariant |
| PostProperties.RemoveKeepsConsistent | services/postService.js:112 | deleting a repost record keeps every invariant; nothing references a repost |
| PostProperties.AddRepostContract | services/postService.js:128-150 | the creating branch inserts one record and sets the original's `reposts` |
| PostProperties.RemoveRepostContract | services/postService.js:110-126 | the removing branch deletes the record and filters the user out of the original's `reposts` |
| PostProperties.ToggleRepostBranches | services/postService.js:95-111 | `toggleRepost` fails with not-found exactly for an unknown id. Otherwise it picks its branch on the repaired collection |
| PostProperties.RepostCopiesTexts | services/postService.js:129-134 | a repost of a valid original carries the original's texts unchanged and is valid |
| PostProperties.AddRepostAfterRepair | services/postService.js:128-150 | the creating branch after resolution has the effect `RepostCreated` describes, stated against the collection before the repair |
| PostProperties.ToggleRepostCreates | services/postService.js:128-150 | with no repost record yet, it inserts exactly one record: by the user, referencing the original, with the original's texts and no interactions. The user joins the original's `reposts` only if absent. Nothing else changes. The outcome is `reposted = true` with the new count |
| PostProperties.ToggleRepostRemoves | services/postService.js:104-126 | with a repost record, that record is deleted and the user leaves the original's `reposts`. The outcome is `reposted = false` with the new count |
| PostProperties.AddRepostKeepsConsistent | services/postService.js:128-150 | the creating branch keeps every invariant |
| PostProperties.RemoveRepostKeepsConsistent | services/postService.js:104-126 | the removing branch keeps every invariant |
| PostProperties.ToggleRepostKeepsConsistent | services/postService.js:93-154 | `toggleRepost` keeps every invariant: a created reference has depth one, repost records stay bare, and `reposts` stays duplicate-free |
| PostProperties.FindCreatedRepost | services/postService.js:105-108 | after the creating branch, the user's repost of the original that `findOne` finds is the new record |
| PostProperties.AfterCreate | services/postService.js:128-150 | after the creating branch the collection is valid and the original is still an original |
| PostProperties.ToggleOnOriginal | services/postService.js:102-111 | on an original, no repair happens and the branch is chosen on the collection as it is |
| PostProperties.AddThenRemove | services/postService.js:104-150 | creating and then removing the record restores the collection, except that the user is filtered out of `reposts` |
| PostProperties.ToggleRepostTwice | services/postService.js:93-154 | toggling twice from no repost record restores every repost record. The user ends filtered out of `reposts`, and when the user was absent there, both the collection and the count are restored |
| PostProperties.ToggleTwiceSteps | services/postService.js:104-150 | from no repost record, the first toggle takes the creating branch and the second removes exactly the record just created |
| PostProperties.FirstToggleCreates | services/postService.js:128-150 | from no repost record, a toggle on an original creates one, and the user's next `findOne` finds it |
| PostProperties.ToggleRepostThroughRepost | services/postService.js:101-102 | toggling through a repost's id is the same call as toggling through the id it references |
| PostProperties.ToggledLikesTwice | services/postService.js:190-195 | flipping a like twice restores the list when the user had not liked. On a list without duplicates it keeps the members and the count and adds no duplicate |
| PostProperties.ToggledLikesTwiceRestores | services/postService.js:190-195 | on a list without duplicates, flipping twice restores the list exactly when the user had not liked or was the last liker: the filter drops the user and the push re-adds the user at the end |
| PostProperties.ToggleLikeContract | services/postService.js:190-204 | the flip changes only the original's `likes`, and only in the user's membership |
| PostProperties.LikeContract | services/postService.js:179-208 | `likePost` fails with not-found for an unknown id. Otherwise only the resolved original's `likes` flips, and `liked` and `likesCount` report the new membership and length |
| PostProperties.LikeThroughRepost | services/postService.js:187-188 | liking through a repost's id is the same call as liking through its original's id |
| PostProperties.LikeTwice | services/postService.js:179-208 | liking an original twice changes nothing else and restores the collection when the user had not liked. The second outcome reports the original membership, and on a `likes` list without duplicates (which `DistinctInteractions` guarantees) the original count |
| PostProperties.ToggleLikeKeepsConsistent | services/postService.js:190-197 | the flip keeps every invariant: likes stay duplicate-free and repost records never gain any |
| PostProperties.LikeKeepsConsistent | services/postService.js:179-208 | `likePost` keeps every invariant |
| PostProperties.DeleteContract | services/postService.js:216-244 | `deletePost` fails with not-found, then with unauthorized for anyone but the author. Otherwise the post is removed, exactly its direct reposts become originals, and every other post is unchanged |
| PostProperties.DeleteKeepsConsistent | services/postService.js:216-244 | `deletePost` keeps every invariant |
| PostProperties.UnlinkKeepsNoDangling | services/postService.js:229-239 | deleting a post after unlinking its reposts leaves no dangling reference |
| PostProperties.DeleteRepostKeepsMembership | services/postService.js:216-244 | deleting a repost record leaves its author in the original's `reposts` |
| PostQueries.InsertByDate | services/postService.js:256 | insertion into a newest-first list puts the post first or keeps the old head |
| PostQueries.ConsNewestFirst | services/postService.js:256 | a post no older than the head of a newest-first list can go in front and the list stays newest first |
| PostQueries.SortNewest | services/postService.js:256 | `.sort({createdAt: -1})` gives the same posts (a permutation), newest first |
| PostQueries.Page | services/postService.js:255-258 | a page is the run of the input sorted newest first that starts `skip` posts in (at the end when fewer are left), with size `PageSize`, so never more than a non-zero `limit`. It holds posts of the input only, and is the whole sorted input when skip and limit are 0 |
| PostQueries.WindowOfArrangement | services/postService.js:256-258 | the window of a newest-first arrangement of the posts is the run at `PageStart` of it, newest first, with posts of the input only, and all of them when unpaged |
| PostQueries.WindowOfSorted | services/postService.js:257-258 | a window is the run of `PageSize` entries starting at `PageStart`, so a window of a sorted list stays sorted |
| PostQueries.SliceOfSorted | services/postService.js:257-258 | a contiguous slice of a newest-first list stays newest first and repeats no post more often than the list |
| PostQueries.ConsecutiveWindows | services/postService.js:257-258 | two consecutive windows of `limit` entries make up the window of twice the size |
| PostQueries.ConsecutivePages | services/postService.js:252-264 | paging is consistent: the next page starts where the previous one ended |
| PostQueries.Collection | services/postService.js:255 | `Post.find()` lists exactly the stored posts, in ascending id |
| PostQueries.CollectionSize | services/postService.js:255 | the listing has one entry per stored post |
| PostQueries.GetAllPosts | services/postService.js:252-264 | returns the page (`skip` window, at most a non-zero `limit`) of all stored posts: stored posts only, newest first, and all of them when unpaged |
| PostQueries.StoredPostsOf | services/postService.js:305 | `{ userId }` matches exactly the stored posts by the target, in ascending id |
| PostQueries.StoredPostsOfAny | services/postService.js:285 | `{ userId: { $in } }` matches exactly the stored posts by a listed author, in ascending id |
| PostQueries.FilterKeepsAscending | services/postService.js:285 | a query filter keeps the ascending-id order of the scan |
| PostQueries.ConsAscending | services/postService.js:285 | a post with a smaller id than every other can go in front of an ascending list |
| PostQueries.GetUserPosts | services/postService.js:303-314 | returns the page (`skip` window, at most a non-zero `limit`) of the target's stored posts: only those, newest first, and all of them when unpaged |
| PostQueries.FeedAuthors | services/postService.js:282 | the feed's authors are exactly the user and everyone the user follows |
| PostQueries.PostsByAny | services/postService.js:285-288 | the `$in` query returns the page (`skip` window, at most a non-zero `limit`) of the posts by the listed authors: only those, newest first, and all of them when unpaged |
| PostQueries.GetFeed | services/postService.js:273-294 | `getFeed` fails with not-found exactly for an unknown user. Otherwise it returns the page (`skip` window, at most a non-zero `limit`) of the posts by the user or by followed users: only those, newest first, and all of them when unpaged |
| PostQueries.OwnPostsInFeed | services/postService.js:282-285 | a user's own posts are all in the user's unpaged following feed |
| UserService.FindByUsername | services/userService.js:82 | `findOne({username})` finds a record exactly when one has the trimmed name |
| UserService.GetUserById | services/userService.js:67-74 | returns the record, or nothing exactly for an unknown id; it never fails |
| UserService.GetUserByUsername | services/userService.js:81-91 | fails with not-found exactly when no record has the trimmed name, and otherwise returns a stored record with that name |
| UserService.AuthenticateUser | services/userService.js:44-60 | not-found for an unknown username, invalid-password when the credential differs, otherwise the user |
| UserService.ApplyUpdate | services/userService.js:104-114 | only a non-empty full name (trimmed), a non-zero age, a given interests list (trimmed) and a non-empty password change. Id, username and `following` never change |
| UserService.Followed | services/userService.js:160-165 | following adds the target and nothing else |
| UserService.UserListing | services/userService.js:218 | `User.find` lists exactly the stored users, in ascending id, so each once |
| UserService.FilterKeepsAscendingUsers | services/userService.js:218 | a query filter keeps the ascending-id order of the scan |
| UserService.ConsAscendingUsers | services/userService.js:218 | a user with a smaller id than every other can go in front of an ascending list |
| UserService.GetFollowing | services/userService.js:210-223 | fails with not-found exactly for an unknown user. Otherwise it returns exactly the stored users in that user's `following`, in ascending id, each once |
| UserService.GetFollowers | services/userService.js:230-238 | returns exactly the stored users whose `following` contains the id, in ascending id, each once |
| UserService.Summaries | services/userService.js:256-261 | `.select('userId username fullName')` keeps those three fields of each record |
| UserService.SummariesOfAscending | services/userService.js:254-261 | the summaries of users in ascending id carry ascending ids, so none appears twice |
| UserService.GetUserWithFollowData | services/userService.js:245-269 | fails exactly as the username lookup fails. Its `followingUsers` are exactly the summaries of stored followed users, and its `followerUsers` exactly those of stored followers, each list without duplicates |
| UserService.FollowSummariesComplete | services/userService.js:254-267 | both summary lists are complete, contain nothing else, and have no duplicates |
| UserService.FollowingSummariesComplete | services/userService.js:254-257 | every stored followed user has a summary, there is nothing else, and no summary appears twice: exactly one per stored followed user |
| UserService.FollowerSummariesComplete | services/userService.js:258-261 | every stored follower has a summary, there is nothing else, and no summary appears twice: exactly one per stored follower |
| UserService.UserStore.constructor | models/User.js:4-54 | an empty, valid collection |
| UserService.UserStore.CreateUser | services/userService.js:13-36 | `createUser` performs exactly `CreateUserStep` and keeps usernames unique |
| UserService.UserStore.UpdateUser | services/userService.js:99-121 | `updateUser` performs exactly `UpdateUserStep` |
| UserService.UserStore.DeleteUser | services/userService.js:128-135 | `deleteUser` performs exactly `DeleteUserStep` |
| UserService.UserStore.FollowUser | services/userService.js:143-173 | `followUser` performs exactly `FollowStep` |
| UserService.UserStore.UnfollowUser | services/userService.js:181-203 | `unfollowUser` performs exactly `UnfollowStep` |
| UserProperties.CreateUserContract | services/userService.js:13-36 | a taken (trimmed) username fails first, then an invalid record. Otherwise one record is added under the fresh id, following nobody, with the trimmed full name, the given age, each interest trimmed (none when the list is absent) and the current time, and usernames stay unique |
| UserProperties.CreateUserValidation | services/userService.js:26-31 | once the name is free, creation succeeds exactly when the trimmed values are within the schema's bounds |
| UserProperties.AuthenticateAfterCreate | services/userService.js:44-60 | a user just created signs in with the password it was created with |
| UserProperties.CreateUserKeepsSchema | services/userService.js:13-36 | creating a user keeps every stored record valid |
| UserProperties.UpdateUserContract | services/userService.js:99-121 | fails with not-found for an unknown id. Only that record may change, and only when the updated record is valid. Its id, username and follow list never change |
| UserProperties.EmptyUpdateKeepsRecord | services/userService.js:104-114 | an update with nothing truthy in it leaves a valid stored record as it was, and succeeds |
| UserProperties.UpdateUserKeepsSchema | services/userService.js:99-121 | updating a user keeps every stored record valid |
| UserProperties.DeleteUserKeepsSchema | services/userService.js:128-135 | deleting a user keeps every stored record valid |
| UserProperties.FollowKeepsSchema | services/userService.js:143-173 | following keeps every stored record valid, so the `save` at line 167 cannot fail validation |
| UserProperties.UnfollowKeepsSchema | services/userService.js:181-203 | unfollowing keeps every stored record valid, so the `save` at line 197 cannot fail validation |
| UserProperties.AuthenticateAfterPasswordChange | services/userService.js:113 | after a password change the new password signs in, and a different old one no longer does |
| UserProperties.DeleteUserContract | services/userService.js:128-135 | `deleteUser` reports whether a record existed, removes only it, and keeps the collection valid |
| UserProperties.FollowedSpec | services/userService.js:160-165 | a followed id is appended once when absent, the list is unchanged when present, and no duplicate arises |
| UserProperties.UnfollowedSpec | services/userService.js:188-196 | an absent target leaves the list as it was. Otherwise unfollowing splices out the first occurrence of the target and keeps the rest in order, one entry and one copy of the target fewer. On a list without duplicates that removes the target entirely |
| UserProperties.UnfollowedRemovesFirst | services/userService.js:188-196 | for a followed target, the splice removes exactly its first occurrence, one entry and one copy of the target |
| UserProperties.UnfollowedIsWithout | services/userService.js:188-196 | on a list without duplicates, the splice equals the filter that drops the target |
| UserProperties.FollowThenUnfollow | services/userService.js:160-196 | following someone not yet followed, then unfollowing them, restores the list exactly |
| UserProperties.FollowContract | services/userService.js:143-173 | the follower, then the target, must exist. On success the target is followed, nothing else changes, and a repeat call changes nothing |
| UserProperties.UnfollowContract | services/userService.js:181-203 | an unknown follower fails. Otherwise the first occurrence is removed (a no-op if absent) and nothing else changes |
| UserProperties.FollowThenUnfollowRestores | services/userService.js:143-203 | following and then unfollowing a user not yet followed restores the collection |
| UserProperties.FollowingFollowersDual | services/userService.js:210-238 | `b` follows `a` exactly when `a` is among `b`'s followers |
| UserProperties.FollowMakesFollower | services/userService.js:143-173 | after a successful follow the follower is among the target's followers |
| FeedController.OriginalIds | controllers/feedController.js:30-35 | the collected ids are exactly the references of the reposts on the page |
| FeedController.RepostMapOf | controllers/feedController.js:30-35 | `repostMap` has a key for exactly each referenced id |
| FeedController.RepostMapKeepsLast | controllers/feedController.js:33 | `repostMap` maps each original to the last repost of it on the page |
| FeedController.FetchAll | controllers/feedController.js:40-42 | `Promise.all` of `getPostById` fails with not-found exactly when some id is not stored. Otherwise it returns each post in order |
| FeedController.AuthorIds | controllers/feedController.js:53-54 | the author of each post, in order |
| FeedController.CollectReferences | controllers/feedController.js:27-35 | the scan loop builds exactly `OriginalIds` and `RepostMapOf` of the page |
| FeedController.FetchOriginals | controllers/feedController.js:37-49 | fails with not-found exactly when a referenced original is gone. Otherwise the map holds exactly the referenced ids, each with its stored post |
| FeedController.OriginalsListed | controllers/feedController.js:44-48 | the fetched list and the map hold the same posts |
| FeedController.BuildUserMap | controllers/feedController.js:57-77 | every looked-up id gets exactly one entry: the stored username and full name, or the deleted-user placeholder |
| FeedController.GetFeedPage | controllers/feedController.js:13-96 | `following` selects the following feed and any other filter the global feed. The page fails as that query fails, or with not-found when a referenced original is gone. Otherwise the originals and authors are exactly those on the page, and every lookup the view makes succeeds |
| FeedController.LookupsSucceed | controllers/feedController.js:79-87 | every post on the page has an author entry, and every repost has its original and that original's author |
| FeedController.AuthorsOnPage | controllers/feedController.js:52-55 | the deduplicated author ids are exactly the authors of the page's posts and of the fetched originals |
| FeedController.AuthorIdsMembership | controllers/feedController.js:53 | an id is among the authors exactly when some post has that author |
| FeedController.ConsistentFeedHasOriginals | controllers/feedController.js:38-49 | on a collection the post operations keep consistent, every referenced original exists and is an original, so the page never fails for a missing original |
| ProfileController.SummaryIds | controllers/profileController.js:62-64 | the ids of the follower summaries, in order |
| ProfileController.FollowerIdsExact | controllers/profileController.js:62-64 | the follower summaries carry exactly the ids of the stored users following the profile |
| ProfileController.MutualFollows | controllers/profileController.js:55-65 | the loop gives each follower id an entry that is true exactly when the session user follows that follower |
| ProfileController.GetUserProfile | controllers/profileController.js:12-96 | an unknown username fails with not-found, and a missing session user fails. `isFollowing` is whether the viewer follows the profile, `isOwnProfile` whether the ids match, and `followsYou` whether the profile follows the viewer on another's profile. `mutualFollows` is empty on one's own profile |
| ProfileController.FollowAction | controllers/profileController.js:101-150 | the follow action performs exactly `FollowActionStep` |
| ProfileController.UnfollowAction | controllers/profileController.js:155-195 | the unfollow action performs exactly `UnfollowActionStep`, with no self check |
| ProfileController.FollowActionContract | controllers/profileController.js:107-121 | an unknown target fails and a self-follow is refused, both without a change. Otherwise the target is followed. No one ever comes to follow themselves |
| ProfileController.UnfollowActionKeepsNoSelfFollow | controllers/profileController.js:161-166 | unfollowing never makes anyone follow themselves |
| ProfileController.UnfollowedSubset | services/userService.js:195 | the splice removes entries and adds none |
| ProfileController.ServiceAllowsSelfFollow | services/userService.js:143-173 | without the controller's check, the service alone lets a user follow themselves |

## Left out

- Password hashing. bcrypt's hash and compare (the pre-save hook and `verifyPassword`) are a foreign library.
  The credential is stored as given, and verification is equality.
- `updatedAt` and the `timestamps` option are not modelled. Time is a `nat` passed in as `now`.
- Mongo ObjectIds are natural numbers from a counter. Natural order is ascending id.
- Concurrency. The `Promise.all` calls in `deletePost` and in the feed page run sequentially here. Races
  between requests, and between the separate queries of one request, are not modelled; each request sees
  one state.
- PostQueries.SortNewest: posts created at the same instant keep natural order. The database leaves their
  order unspecified.
- Negative `limit` or `skip`: the parameters are `nat`. `limit(0)` means no limit, as in the database.
- HTTP. Status codes, JSON versus redirect, rendering, session handling, logging and the
  `express-validator` route checks are left out. A controller returns the data the view receives, or the
  error.
- A missing `contentText` in `createPost` (a TypeError in the source) is not modelled; the text is a
  string.
- ProfileController.GetUserProfile: `following` always exists on a record, because the schema defaults it
  to `[]`. So the replacement of a missing list by `[]` never applies, and the model has no missing list.
- ProfileController.GetUserProfile: the page's own 404 branch for a missing profile is unreachable, because
  `getUserWithFollowData` throws first. The model returns the not-found error that leads to the generic
  error page.
- FeedController.GetFeedPage: `req.query.filter` is a string or absent. Repeated query parameters, which
  give an array, are not modelled.
- PostProperties.ToggleRepostTwice: stated for calls on an original. Through a repost's id,
  ToggleRepostThroughRepost reduces a call to one on the original. When the id names a repost whose
  reference dangles, both calls act on that same record, but the first clears its reference (the `Detach`
  repair) and the second does not restore it, so the collection is not restored in that case.
- PostProperties.LikeTwice: stated for calls on an original. LikeThroughRepost carries it to the ids of
  reposts whose original is stored, which `NoDangling` guarantees on every collection the operations
  produce. When the id names a repost whose reference dangles, both calls act on that same record, but the
  first clears its reference (the `Detach` repair) and the second does not restore it.
- `deleteUser` leaves other users' `following` entries naming the deleted user. The model keeps them, as
  the source does.
- Mongo query semantics beyond filter, sort, skip and limit are not modelled.
- Collections.Dedup: the first-occurrence order that `new Set` keeps is not stated. The feed uses the
  result only as the keys of a lookup map, so only its elements and the absence of duplicates matter.
- `age` is an `int`. The schema's `Number` also admits a fractional age such as 13.5, which the model does
  not represent.
- Validation failures at save time are not modelled as separate outcomes. Three saves build new
  content: `repost.save()` (services/postService.js:136) and the `user.save()` calls in `followUser` and
  `unfollowUser` (services/userService.js:167 and 197). Each saves a record built from records that already
  pass validation. RepostCopiesTexts, FollowKeepsSchema and UnfollowKeepsSchema show those records stay
  valid, so the failures cannot occur on a collection whose records are valid. The other saves of posts
  (services/postService.js:62, 75, 117, 141, 197 and 234) change only a reference, `likes` or `reposts`, and
  `AllSchemaValid` keeps the texts valid, so they cannot fail validation either.
