/**
 * The user service: accounts, profile updates and the follow graph. The user collection is a map from
 * `userId` to the stored record; each state-changing operation is a step function on that map (used by the
 * lemmas) and a method of `UserStore`, the mutable collection, proved to perform that step.
 */
module UserService {
  import opened Wrappers
  import opened Text
  import opened Collections
  import opened UserModel

  type Users = map<UserId, User>

  /** What the collection guarantees: ids from the counter, each record under its own id, usernames unique. */
  predicate UsersValid(users: Users, nextId: nat) {
    && (forall k :: k in users ==> k < nextId && users[k].userId == k)
    && (forall a, b :: a in users && b in users && users[a].username == users[b].username ==> a == b)
  }

  /** Every stored record passes the schema's validators. */
  predicate AllUsersSchemaValid(users: Users) {
    forall k :: k in users ==> SchemaValid(users[k])
  }

  /** A user collection after an operation, with the operation's outcome. */
  datatype UserStep<T> = UserStep(users: Users, nextId: nat, result: Result<T, Error>)

  /**
   * `User.findOne({ username })`: the first record in natural order whose username equals the query after the
   * schema's `trim` setter has been applied to it.
   */
  function FindByUsername(users: Users, nextId: nat, name: string): (r: Option<UserId>)
    requires UsersValid(users, nextId)
    ensures r.Some? <==> exists k :: k in users && users[k].username == Trim(name)
    ensures r.Some? ==> r.value in users && users[r.value].username == Trim(name)
  {
    FirstKey(users, 0, nextId, (v: User) => v.username == Trim(name))
  }

  /** `getUserById`: the record, or nothing (this query does not fail). */
  function GetUserById(users: Users, userId: UserId): (r: Option<User>)
    ensures r.Some? <==> userId in users
    ensures r.Some? ==> r.value == users[userId]
  {
    if userId in users then Some(users[userId]) else None
  }

  /** `getUserByUsername`: the record with that username, or not-found. */
  function GetUserByUsername(users: Users, nextId: nat, name: string): (r: Result<User, Error>)
    requires UsersValid(users, nextId)
    ensures r.Failure? <==> forall k :: k in users ==> users[k].username != Trim(name)
    ensures r.Failure? ==> r.error == UserNotFound
    ensures r.Success? ==> r.value in users.Values && r.value.username == Trim(name)
  {
    match FindByUsername(users, nextId, name)
    case None => Failure(UserNotFound)
    case Some(k) => Success(users[k])
  }

  /**
   * `authenticateUser`: not-found for an unknown username, invalid-password when the credential does not
   * match the stored one, otherwise the user.
   */
  function AuthenticateUser(users: Users, nextId: nat, name: string, password: string): (r: Result<User, Error>)
    requires UsersValid(users, nextId)
    ensures r.Success? <==> exists k :: k in users && users[k].username == Trim(name) && users[k].passwordHash == password
    ensures r.Success? ==> r.value in users.Values && r.value.username == Trim(name) && r.value.passwordHash == password
    ensures r.Failure? ==> r.error == (if GetUserByUsername(users, nextId, name).Failure? then UserNotFound else InvalidPassword)
  {
    match GetUserByUsername(users, nextId, name)
    case Failure(e) => Failure(e)
    case Success(user) => if user.passwordHash == password then Success(user) else Failure(InvalidPassword)
  }

  /** `createUser`: the username must be free; then the new record is built, validated and inserted under the fresh id. */
  function CreateUserStep(users: Users, nextId: nat, username: string, fullName: string, password: string,
                          age: int, interests: Option<seq<string>>, now: nat): UserStep<User>
    requires UsersValid(users, nextId)
  {
    if FindByUsername(users, nextId, username).Some? then UserStep(users, nextId, Failure(UsernameTaken))
    else
      var user := NewUser(nextId, username, fullName, password, age, interests.GetOr([]), now);
      if !SchemaValid(user) then UserStep(users, nextId, Failure(ValidationFailed))
      else UserStep(users[nextId := user], nextId + 1, Success(user))
  }

  /** The fields `updateUser` may change; absent ones, and present ones JavaScript finds falsy, are ignored. */
  datatype UserUpdate = UserUpdate(
    fullName: Option<string>, age: Option<int>, interests: Option<seq<string>>, password: Option<string>)

  /**
   * The record with the update applied: a non-empty full name (trimmed by its setter), a non-zero age, any
   * interests list (an empty one included, trimmed by the setters), a non-empty password.
   */
  function ApplyUpdate(user: User, upd: UserUpdate): (r: User)
    ensures r.userId == user.userId && r.username == user.username && r.following == user.following
    ensures r.createdAt == user.createdAt
    ensures r.fullName == (if upd.fullName.Some? && upd.fullName.value != [] then Trim(upd.fullName.value) else user.fullName)
    ensures r.age == (if upd.age.Some? && upd.age.value != 0 then upd.age.value else user.age)
    ensures r.interests == (if upd.interests.Some? then TrimEach(upd.interests.value) else user.interests)
    ensures r.passwordHash == (if upd.password.Some? && upd.password.value != [] then upd.password.value else user.passwordHash)
  {
    var u1 := if upd.fullName.Some? && upd.fullName.value != [] then user.(fullName := Trim(upd.fullName.value)) else user;
    var u2 := if upd.age.Some? && upd.age.value != 0 then u1.(age := upd.age.value) else u1;
    var u3 := if upd.interests.Some? then u2.(interests := TrimEach(upd.interests.value)) else u2;
    if upd.password.Some? && upd.password.value != [] then u3.(passwordHash := upd.password.value) else u3
  }

  /** `updateUser`: not-found, or the updated record if it passes validation on save (the collection is unchanged otherwise). */
  function UpdateUserStep(users: Users, nextId: nat, userId: UserId, upd: UserUpdate): UserStep<User> {
    if userId !in users then UserStep(users, nextId, Failure(UserNotFound))
    else
      var user := ApplyUpdate(users[userId], upd);
      if !SchemaValid(user) then UserStep(users, nextId, Failure(ValidationFailed))
      else UserStep(users[userId := user], nextId, Success(user))
  }

  /** `deleteUser`: removes the record; reports whether there was one. Follow lists naming the user are left alone. */
  function DeleteUserStep(users: Users, nextId: nat, userId: UserId): UserStep<bool> {
    UserStep(users - {userId}, nextId, Success(userId in users))
  }

  /** `following.includes(t)` then `push(t)`: `t` is appended unless already listed. */
  function Followed(following: seq<UserId>, t: UserId): (r: seq<UserId>)
    ensures t in r && (forall v :: v in r <==> v in following || v == t)
  {
    if t in following then following else following + [t]
  }

  /** `following.splice(following.indexOf(t), 1)`: the first occurrence of `t` is removed, if any. */
  function Unfollowed(following: seq<UserId>, t: UserId): (r: seq<UserId>) {
    var i := IndexOf(following, t);
    if i == -1 then following else following[..i] + following[i + 1..]
  }

  /** `followUser`: the follower must exist, then the target; the target is added to the follower's list unless already there. */
  function FollowStep(users: Users, nextId: nat, userId: UserId, targetUserId: UserId): UserStep<User> {
    if userId !in users then UserStep(users, nextId, Failure(FollowerNotFound))
    else if targetUserId !in users then UserStep(users, nextId, Failure(TargetNotFound))
    else
      var user := users[userId];
      if targetUserId in user.following then UserStep(users, nextId, Success(user))
      else
        var user' := user.(following := Followed(user.following, targetUserId));
        UserStep(users[userId := user'], nextId, Success(user'))
  }

  /** `unfollowUser`: the follower must exist (the target need not); the first occurrence of the target is removed. */
  function UnfollowStep(users: Users, nextId: nat, userId: UserId, targetUserId: UserId): UserStep<User> {
    if userId !in users then UserStep(users, nextId, Failure(UserNotFound))
    else
      var user := users[userId];
      if IndexOf(user.following, targetUserId) == -1 then UserStep(users, nextId, Success(user))
      else
        var user' := user.(following := Unfollowed(user.following, targetUserId));
        UserStep(users[userId := user'], nextId, Success(user'))
  }

  /** `User.find()` in natural order. */
  function UserListing(users: Users, nextId: nat): (r: seq<User>)
    requires UsersValid(users, nextId)
    ensures forall v :: v in r <==> v.userId in users && users[v.userId] == v
    ensures AscendingUserIds(r)
  {
    Listing(users, nextId, (v: User) => v.userId)
  }

  /** Ascending `userId`: natural order, each user at most once. */
  predicate AscendingUserIds(vs: seq<User>) {
    forall i, j :: 0 <= i < j < |vs| ==> vs[i].userId < vs[j].userId
  }

  /** A query filter keeps the relative order of the users that pass, so natural order survives it. */
  lemma {:induction false} FilterKeepsAscendingUsers(vs: seq<User>, keep: User -> bool)
    requires AscendingUserIds(vs)
    ensures AscendingUserIds(Filter(vs, keep))
  {
    if vs != [] {
      var tail := vs[1..];
      assert AscendingUserIds(tail) by {
        forall i, j | 0 <= i < j < |tail|
          ensures tail[i].userId < tail[j].userId
        {
          assert tail[i] == vs[i + 1] && tail[j] == vs[j + 1];
        }
      }
      FilterKeepsAscendingUsers(tail, keep);
      var rest := Filter(tail, keep);
      assert forall x :: x in rest ==> vs[0].userId < x.userId by {
        forall x | x in rest
          ensures vs[0].userId < x.userId
        {
          var j :| 0 <= j < |tail| && tail[j] == x;
          assert vs[1 + j] == x;
        }
      }
      if keep(vs[0]) {
        ConsAscendingUsers(vs[0], rest);
        assert Filter(vs, keep) == [vs[0]] + rest;
      } else {
        assert Filter(vs, keep) == rest;
      }
    }
  }

  /** A user with a smaller id than every user of an ascending sequence can go in front of it. */
  lemma ConsAscendingUsers(v: User, vs: seq<User>)
    requires AscendingUserIds(vs) && forall x :: x in vs ==> v.userId < x.userId
    ensures AscendingUserIds([v] + vs)
  {
    var r := [v] + vs;
    forall i, j | 0 <= i < j < |r|
      ensures r[i].userId < r[j].userId
    {
      assert r[j] == vs[j - 1];
      if i > 0 {
        assert r[i] == vs[i - 1];
      }
    }
  }

  /** `getFollowing`: not-found for an unknown user; otherwise the stored users it follows, in natural order. */
  function GetFollowing(users: Users, nextId: nat, userId: UserId): (r: Result<seq<User>, Error>)
    requires UsersValid(users, nextId)
    ensures r.Failure? <==> userId !in users
    ensures r.Failure? ==> r.error == UserNotFound
    ensures r.Success? ==> forall v :: v in r.value <==> v.userId in users && users[v.userId] == v && v.userId in users[userId].following
    ensures r.Success? ==> AscendingUserIds(r.value)
  {
    if userId !in users then Failure(UserNotFound)
    else
      var following := users[userId].following;
      var keep := (v: User) => v.userId in following;
      FilterKeepsAscendingUsers(UserListing(users, nextId), keep);
      Success(Filter(UserListing(users, nextId), keep))
  }

  /** `getFollowers`: the stored users whose `following` lists `userId`, in natural order (never fails). */
  function GetFollowers(users: Users, nextId: nat, userId: UserId): (r: seq<User>)
    requires UsersValid(users, nextId)
    ensures forall v :: v in r <==> v.userId in users && users[v.userId] == v && userId in v.following
    ensures AscendingUserIds(r)
  {
    var keep := (v: User) => userId in v.following;
    FilterKeepsAscendingUsers(UserListing(users, nextId), keep);
    Filter(UserListing(users, nextId), keep)
  }

  /** The fields `.select('userId username fullName')` keeps. */
  datatype UserSummary = UserSummary(userId: UserId, username: string, fullName: string)

  function Summary(v: User): UserSummary {
    UserSummary(v.userId, v.username, v.fullName)
  }

  function Summaries(vs: seq<User>): (r: seq<UserSummary>)
    ensures |r| == |vs| && forall i :: 0 <= i < |vs| ==> r[i] == Summary(vs[i])
  {
    seq(|vs|, i requires 0 <= i < |vs| => Summary(vs[i]))
  }

  /** Summaries of users in ascending id order carry ascending ids, so no summary appears twice. */
  lemma SummariesOfAscending(vs: seq<User>)
    requires AscendingUserIds(vs)
    ensures forall i, j :: 0 <= i < j < |Summaries(vs)| ==> Summaries(vs)[i].userId < Summaries(vs)[j].userId
    ensures NoDup(Summaries(vs))
  {
    var ss := Summaries(vs);
    forall i, j | 0 <= i < j < |ss|
      ensures ss[i].userId < ss[j].userId
    {
      assert ss[i] == Summary(vs[i]) && ss[j] == Summary(vs[j]);
    }
  }

  /** A profile with its follow lists resolved to summaries. */
  datatype FollowData = FollowData(user: User, followingUsers: seq<UserSummary>, followerUsers: seq<UserSummary>)

  /** `getUserWithFollowData`: the user found by username with the summaries of whom it follows and who follows it. */
  function GetUserWithFollowData(users: Users, nextId: nat, name: string): (r: Result<FollowData, Error>)
    requires UsersValid(users, nextId)
    ensures r.Failure? <==> GetUserByUsername(users, nextId, name).Failure?
    ensures r.Failure? ==> r.error == UserNotFound
    ensures r.Success? ==>
      var user := r.value.user;
      && user == GetUserByUsername(users, nextId, name).value
      && (forall k :: k in users && k in user.following ==> Summary(users[k]) in r.value.followingUsers)
      && (forall x :: x in r.value.followingUsers ==>
            exists k :: k in users && k in user.following && x == Summary(users[k]))
      && (forall k :: k in users && user.userId in users[k].following ==> Summary(users[k]) in r.value.followerUsers)
      && (forall x :: x in r.value.followerUsers ==>
            exists k :: k in users && user.userId in users[k].following && x == Summary(users[k]))
      && NoDup(r.value.followingUsers) && NoDup(r.value.followerUsers)
  {
    match GetUserByUsername(users, nextId, name)
    case Failure(e) => Failure(e)
    case Success(user) =>
      var following := GetFollowing(users, nextId, user.userId);
      var followers := GetFollowers(users, nextId, user.userId);
      FollowSummariesComplete(users, nextId, following.value, followers, user.userId);
      Success(FollowData(user, Summaries(following.value), Summaries(followers)))
  }

  /** Both summary lists of a profile are complete, hold nothing else, and hold each user once. */
  lemma FollowSummariesComplete(users: Users, nextId: nat, following: seq<User>, followers: seq<User>, u: UserId)
    requires UsersValid(users, nextId) && u in users
    requires following == GetFollowing(users, nextId, u).value && followers == GetFollowers(users, nextId, u)
    ensures forall k :: k in users && k in users[u].following ==> Summary(users[k]) in Summaries(following)
    ensures forall k :: k in users && u in users[k].following ==> Summary(users[k]) in Summaries(followers)
    ensures forall x :: x in Summaries(following) ==> exists k :: k in users && k in users[u].following && x == Summary(users[k])
    ensures forall x :: x in Summaries(followers) ==> exists k :: k in users && u in users[k].following && x == Summary(users[k])
    ensures NoDup(Summaries(following)) && NoDup(Summaries(followers))
  {
    FollowingSummariesComplete(users, nextId, following, u);
    FollowerSummariesComplete(users, nextId, followers, u);
  }

  /** The summaries of the users `u` follows: exactly one for each stored followed user, and no other. */
  lemma FollowingSummariesComplete(users: Users, nextId: nat, following: seq<User>, u: UserId)
    requires UsersValid(users, nextId) && u in users
    requires following == GetFollowing(users, nextId, u).value
    ensures forall k :: k in users && k in users[u].following ==> Summary(users[k]) in Summaries(following)
    ensures forall x :: x in Summaries(following) ==> exists k :: k in users && k in users[u].following && x == Summary(users[k])
    ensures NoDup(Summaries(following))
  {
    SummariesOfAscending(following);
    var ss := Summaries(following);
    forall x | x in ss
      ensures exists k :: k in users && k in users[u].following && x == Summary(users[k])
    {
      var i :| 0 <= i < |following| && ss[i] == x;
      assert following[i] in following;
      var k := following[i].userId;
      assert x == Summary(users[k]);
    }
    forall k | k in users && k in users[u].following
      ensures Summary(users[k]) in ss
    {
      assert users[k] in following;
      var i :| 0 <= i < |following| && following[i] == users[k];
      assert ss[i] == Summary(users[k]);
    }
  }

  /** The summaries of the users following `u`: exactly one for each stored follower, and no other. */
  lemma FollowerSummariesComplete(users: Users, nextId: nat, followers: seq<User>, u: UserId)
    requires UsersValid(users, nextId) && u in users
    requires followers == GetFollowers(users, nextId, u)
    ensures forall k :: k in users && u in users[k].following ==> Summary(users[k]) in Summaries(followers)
    ensures forall x :: x in Summaries(followers) ==> exists k :: k in users && u in users[k].following && x == Summary(users[k])
    ensures NoDup(Summaries(followers))
  {
    SummariesOfAscending(followers);
    var ss := Summaries(followers);
    forall x | x in ss
      ensures exists k :: k in users && u in users[k].following && x == Summary(users[k])
    {
      var i :| 0 <= i < |followers| && ss[i] == x;
      assert followers[i] in followers;
      var k := followers[i].userId;
      assert x == Summary(users[k]);
    }
    forall k | k in users && u in users[k].following
      ensures Summary(users[k]) in ss
    {
      assert users[k] in followers;
      var i :| 0 <= i < |followers| && followers[i] == users[k];
      assert ss[i] == Summary(users[k]);
    }
  }

  /** The user collection, updated in place by the service operations. */
  class UserStore {
    var users: Users
    var nextId: nat

    ghost predicate Valid()
      reads this
    {
      UsersValid(users, nextId)
    }

    constructor ()
      ensures Valid() && users == map[] && nextId == 0
    {
      users := map[];
      nextId := 0;
    }

    method CreateUser(username: string, fullName: string, password: string, age: int,
                      interests: Option<seq<string>>, now: nat) returns (r: Result<User, Error>)
      requires Valid()
      modifies this
      ensures Valid()
      ensures UserStep(users, nextId, r) == CreateUserStep(old(users), old(nextId), username, fullName, password, age, interests, now)
    {
      var existingUser := FindByUsername(users, nextId, username);
      if existingUser.Some? {
        return Failure(UsernameTaken);
      }
      var user := NewUser(nextId, username, fullName, password, age, interests.GetOr([]), now);
      if !SchemaValid(user) {
        return Failure(ValidationFailed);
      }
      users := users[nextId := user];
      nextId := nextId + 1;
      r := Success(user);
    }

    method UpdateUser(userId: UserId, upd: UserUpdate) returns (r: Result<User, Error>)
      requires Valid()
      modifies this
      ensures Valid()
      ensures UserStep(users, nextId, r) == UpdateUserStep(old(users), old(nextId), userId, upd)
    {
      if userId !in users {
        return Failure(UserNotFound);
      }
      var user := users[userId];
      if upd.fullName.Some? && upd.fullName.value != [] {
        user := user.(fullName := Trim(upd.fullName.value));
      }
      if upd.age.Some? && upd.age.value != 0 {
        user := user.(age := upd.age.value);
      }
      if upd.interests.Some? {
        user := user.(interests := TrimEach(upd.interests.value));
      }
      if upd.password.Some? && upd.password.value != [] {
        user := user.(passwordHash := upd.password.value);
      }
      if !SchemaValid(user) {
        return Failure(ValidationFailed);
      }
      users := users[userId := user];
      r := Success(user);
    }

    method DeleteUser(userId: UserId) returns (r: Result<bool, Error>)
      requires Valid()
      modifies this
      ensures Valid()
      ensures UserStep(users, nextId, r) == DeleteUserStep(old(users), old(nextId), userId)
    {
      var deleted := userId in users;
      users := users - {userId};
      r := Success(deleted);
    }

    method FollowUser(userId: UserId, targetUserId: UserId) returns (r: Result<User, Error>)
      requires Valid()
      modifies this
      ensures Valid()
      ensures UserStep(users, nextId, r) == FollowStep(old(users), old(nextId), userId, targetUserId)
    {
      if userId !in users {
        return Failure(FollowerNotFound);
      }
      if targetUserId !in users {
        return Failure(TargetNotFound);
      }
      var user := users[userId];
      if targetUserId in user.following {
        return Success(user);
      }
      user := user.(following := user.following + [targetUserId]);
      users := users[userId := user];
      r := Success(user);
    }

    method UnfollowUser(userId: UserId, targetUserId: UserId) returns (r: Result<User, Error>)
      requires Valid()
      modifies this
      ensures Valid()
      ensures UserStep(users, nextId, r) == UnfollowStep(old(users), old(nextId), userId, targetUserId)
    {
      if userId !in users {
        return Failure(UserNotFound);
      }
      var user := users[userId];
      var followingIndex := IndexOf(user.following, targetUserId);
      if followingIndex == -1 {
        return Success(user);
      }
      user := user.(following := user.following[..followingIndex] + user.following[followingIndex + 1..]);
      users := users[userId := user];
      r := Success(user);
    }
  }
}
