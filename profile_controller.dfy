/**
 * The profile page and the follow actions behind it. The page reads both collections: the profile with its
 * follow lists, the profile's posts, and the session user, from whom the relationship flags are computed.
 * The follow action adds the guard the user service lacks: nobody can follow themselves through it.
 */
module ProfileController {
  import opened Wrappers
  import opened Collections
  import opened UserModel
  import opened UserService
  import PostModel
  import Resolution
  import PostService
  import PostQueries

  /** What the profile view is rendered with. */
  datatype ProfilePage = ProfilePage(
    title: string,
    profileUser: FollowData,
    posts: seq<PostModel.Post>,
    isFollowing: bool,
    isOwnProfile: bool,
    followsYou: bool,
    mutualFollows: map<UserId, bool>,
    currentUser: User)

  /** The ids of a list of summaries, in order. */
  function SummaryIds(xs: seq<UserSummary>): (r: seq<UserId>)
    ensures |r| == |xs| && forall i :: 0 <= i < |xs| ==> r[i] == xs[i].userId
  {
    seq(|xs|, i requires 0 <= i < |xs| => xs[i].userId)
  }

  /** `k` is a stored user who follows `u`. */
  predicate FollowerOf(users: Users, k: UserId, u: UserId) {
    k in users && u in users[k].following
  }

  /** The follower summaries of a profile carry exactly the ids of the stored users following it. */
  lemma FollowerIdsExact(users: Users, nextId: nat, name: string, k: UserId)
    requires UsersValid(users, nextId) && GetUserWithFollowData(users, nextId, name).Success?
    ensures var data := GetUserWithFollowData(users, nextId, name).value;
      k in SummaryIds(data.followerUsers) <==> FollowerOf(users, k, data.user.userId)
  {
    var data := GetUserWithFollowData(users, nextId, name).value;
    var ids := SummaryIds(data.followerUsers);
    if k in ids {
      var i :| 0 <= i < |ids| && ids[i] == k;
      assert data.followerUsers[i] in data.followerUsers;
    }
    if FollowerOf(users, k, data.user.userId) {
      var i :| 0 <= i < |data.followerUsers| && data.followerUsers[i] == Summary(users[k]);
      assert ids[i] == k;
    }
  }

  /**
   * `mutualFollows`: for each follower of the profile, whether the session user follows that follower back
   * (a later entry for the same id overwrites an earlier one, with the same value).
   */
  method MutualFollows(followers: seq<UserSummary>, following: seq<UserId>) returns (m: map<UserId, bool>)
    ensures forall k :: k in m <==> k in SummaryIds(followers)
    ensures forall k :: k in m ==> (m[k] <==> k in following)
  {
    var ids := SummaryIds(followers);
    m := map[];
    var i := 0;
    while i < |followers|
      invariant 0 <= i <= |followers|
      invariant forall k :: k in m <==> k in ids[..i]
      invariant forall k :: k in m ==> (m[k] <==> k in following)
    {
      assert ids[..i + 1] == ids[..i] + [ids[i]];
      m := m[followers[i].userId := followers[i].userId in following];
      i := i + 1;
    }
    assert ids[..|followers|] == ids;
  }

  /**
   * `getUserProfile(req, res)`. An unknown username fails with not-found (the lookup throws, so the page's
   * own null check is never reached); a session user that no longer exists fails (reading its `following`
   * throws). Otherwise the flags describe the follow relation between the two users in both directions, and
   * `mutualFollows`, empty on one's own profile, lists every follower of the profile with whether the session
   * user follows them too.
   */
  method GetUserProfile(s: Resolution.Store, postNextId: nat, users: Users, nextId: nat, username: string,
                        sessionUser: UserId) returns (r: Result<ProfilePage, Error>)
    requires PostService.StoreValid(s, postNextId) && UsersValid(users, nextId)
    ensures GetUserWithFollowData(users, nextId, username).Failure? ==> r == Failure(UserNotFound)
    ensures GetUserWithFollowData(users, nextId, username).Success? ==>
      (r.Failure? <==> sessionUser !in users) && (r.Failure? ==> r.error == CurrentUserMissing)
    ensures r.Success? ==>
      var page := r.value;
      var p := page.profileUser.user;
      && sessionUser in users && page.currentUser == users[sessionUser]
      && page.profileUser == GetUserWithFollowData(users, nextId, username).value
      && page.posts == PostQueries.GetUserPosts(s, postNextId, p.userId, PostQueries.DefaultLimit, PostQueries.DefaultSkip)
      && page.title == p.fullName + " (@" + p.username + ") | XReader"
    ensures r.Success? ==>
      var page := r.value;
      var p := page.profileUser.user;
      && (page.isFollowing <==> p.userId in users[sessionUser].following)
      && (page.isOwnProfile <==> p.userId == sessionUser)
      && (page.followsYou <==> p.userId != sessionUser && sessionUser in p.following)
    ensures r.Success? ==>
      var page := r.value;
      var p := page.profileUser.user;
      && (forall k :: k in page.mutualFollows <==> p.userId != sessionUser && FollowerOf(users, k, p.userId))
      && (forall k :: k in page.mutualFollows ==> (page.mutualFollows[k] <==> k in users[sessionUser].following))
  {
    var data := GetUserWithFollowData(users, nextId, username);
    if data.Failure? {
      return Failure(data.error);
    }
    var profile := data.value;
    var posts := PostQueries.GetUserPosts(s, postNextId, profile.user.userId, PostQueries.DefaultLimit,
                                          PostQueries.DefaultSkip);
    var currentUser := GetUserById(users, sessionUser);
    if currentUser.None? {
      return Failure(CurrentUserMissing);
    }
    var me := currentUser.value;
    var isFollowing := profile.user.userId in me.following;
    var isOwnProfile := profile.user.userId == sessionUser;
    var mutualFollows := map[];
    if !isOwnProfile {
      mutualFollows := MutualFollows(profile.followerUsers, me.following);
      forall k
        ensures k in SummaryIds(profile.followerUsers) <==> FollowerOf(users, k, profile.user.userId)
      {
        FollowerIdsExact(users, nextId, username, k);
      }
    }
    var followsYou := !isOwnProfile && sessionUser in profile.user.following;
    var title := profile.user.fullName + " (@" + profile.user.username + ") | XReader";
    r := Success(ProfilePage(title, profile, posts, isFollowing, isOwnProfile, followsYou, mutualFollows, me));
  }

  /**
   * The controller's `followUser` on the collection: the target is looked up by username (not-found fails);
   * a request to follow oneself is refused before the service is called; otherwise the service's step.
   */
  function FollowActionStep(users: Users, nextId: nat, username: string, sessionUser: UserId): UserStep<User>
    requires UsersValid(users, nextId)
  {
    match GetUserByUsername(users, nextId, username)
    case Failure(e) => UserStep(users, nextId, Failure(e))
    case Success(target) =>
      if target.userId == sessionUser then UserStep(users, nextId, Failure(CannotFollowSelf))
      else FollowStep(users, nextId, sessionUser, target.userId)
  }

  /** The controller's `unfollowUser`: the target is looked up by username, then the service's step, with no self check. */
  function UnfollowActionStep(users: Users, nextId: nat, username: string, sessionUser: UserId): UserStep<User>
    requires UsersValid(users, nextId)
  {
    match GetUserByUsername(users, nextId, username)
    case Failure(e) => UserStep(users, nextId, Failure(e))
    case Success(target) => UnfollowStep(users, nextId, sessionUser, target.userId)
  }

  /** The controller's `followUser` on the mutable collection. */
  method FollowAction(store: UserStore, username: string, sessionUser: UserId) returns (r: Result<User, Error>)
    requires store.Valid()
    modifies store
    ensures store.Valid()
    ensures UserStep(store.users, store.nextId, r) == FollowActionStep(old(store.users), old(store.nextId), username, sessionUser)
  {
    var target := GetUserByUsername(store.users, store.nextId, username);
    if target.Failure? {
      return Failure(target.error);
    }
    if target.value.userId == sessionUser {
      return Failure(CannotFollowSelf);
    }
    r := store.FollowUser(sessionUser, target.value.userId);
  }

  /** The controller's `unfollowUser` on the mutable collection. */
  method UnfollowAction(store: UserStore, username: string, sessionUser: UserId) returns (r: Result<User, Error>)
    requires store.Valid()
    modifies store
    ensures store.Valid()
    ensures UserStep(store.users, store.nextId, r) == UnfollowActionStep(old(store.users), old(store.nextId), username, sessionUser)
  {
    var target := GetUserByUsername(store.users, store.nextId, username);
    if target.Failure? {
      return Failure(target.error);
    }
    r := store.UnfollowUser(sessionUser, target.value.userId);
  }

  /** Nobody follows themselves. */
  predicate NoSelfFollow(users: Users) {
    forall k :: k in users ==> k !in users[k].following
  }

  /**
   * The follow action: an unknown target fails and a self-follow is refused, both without a change; otherwise
   * the session user follows the target. Either way nobody comes to follow themselves.
   */
  lemma FollowActionContract(users: Users, nextId: nat, username: string, sessionUser: UserId)
    requires UsersValid(users, nextId)
    ensures var st := FollowActionStep(users, nextId, username, sessionUser);
      var target := GetUserByUsername(users, nextId, username);
      && (target.Failure? ==> st == UserStep(users, nextId, Failure(UserNotFound)))
      && (target.Success? && target.value.userId == sessionUser ==> st == UserStep(users, nextId, Failure(CannotFollowSelf)))
      && (target.Success? && target.value.userId != sessionUser && sessionUser in users ==>
            st.result.Success? && target.value.userId in st.users[sessionUser].following)
      && (NoSelfFollow(users) ==> NoSelfFollow(st.users))
  {
    var target := GetUserByUsername(users, nextId, username);
    if target.Success? && target.value.userId != sessionUser {
      assert target.value.userId in users;
    }
  }

  /** The unfollow action never makes anybody follow themselves. */
  lemma UnfollowActionKeepsNoSelfFollow(users: Users, nextId: nat, username: string, sessionUser: UserId)
    requires UsersValid(users, nextId) && NoSelfFollow(users)
    ensures NoSelfFollow(UnfollowActionStep(users, nextId, username, sessionUser).users)
  {
    var target := GetUserByUsername(users, nextId, username);
    if target.Success? && sessionUser in users {
      var f := users[sessionUser].following;
      UnfollowedSubset(f, target.value.userId);
    }
  }

  /** Removing an entry adds none. */
  lemma UnfollowedSubset(following: seq<UserId>, t: UserId)
    ensures forall v :: v in Unfollowed(following, t) ==> v in following
  {
    var i := IndexOf(following, t);
    if i != -1 {
      assert following == following[..i] + [following[i]] + following[i + 1..];
    }
  }

  /** Without the controller's check the service alone lets a user follow themselves. */
  lemma ServiceAllowsSelfFollow(users: Users, nextId: nat, u: UserId)
    requires UsersValid(users, nextId) && u in users && NoSelfFollow(users)
    ensures !NoSelfFollow(FollowStep(users, nextId, u, u).users)
  {
    var st := FollowStep(users, nextId, u, u);
    assert u in st.users && u in st.users[u].following;
  }
}
