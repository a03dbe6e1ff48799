/** What the user operations promise, proved about their step functions. */
module UserProperties {
  import opened Wrappers
  import opened Text
  import opened Collections
  import opened UserModel
  import opened UserService

  /**
   * `createUser`: a taken username (after trimming) fails first, then an invalid record; otherwise exactly one
   * record is added under the fresh id, with the trimmed username and full name, the given age, the trimmed
   * interests (none when not given), nobody followed, and the collection stays valid (usernames stay unique).
   */
  lemma CreateUserContract(users: Users, nextId: nat, username: string, fullName: string, password: string,
                           age: int, interests: Option<seq<string>>, now: nat)
    requires UsersValid(users, nextId)
    ensures var st := CreateUserStep(users, nextId, username, fullName, password, age, interests, now);
      && ((exists k :: k in users && users[k].username == Trim(username)) ==> st.result == Failure(UsernameTaken))
      && (st.result.Failure? ==> st.users == users && st.nextId == nextId)
      && (st.result.Success? ==>
            var user := st.result.value;
            && nextId !in users && st.users == users[nextId := user] && st.nextId == nextId + 1
            && user.userId == nextId && user.username == Trim(username) && user.following == []
            && user.fullName == Trim(fullName) && user.age == age
            && user.interests == TrimEach(interests.GetOr([])) && user.createdAt == now
            && user.passwordHash == password && SchemaValid(user))
      && UsersValid(st.users, st.nextId)
  {
  }

  /** Validation decides exactly as the schema's bounds on the trimmed values say, once the username is free. */
  lemma CreateUserValidation(users: Users, nextId: nat, username: string, fullName: string, password: string,
                             age: int, interests: Option<seq<string>>, now: nat)
    requires UsersValid(users, nextId)
    requires forall k :: k in users ==> users[k].username != Trim(username)
    ensures var st := CreateUserStep(users, nextId, username, fullName, password, age, interests, now);
      st.result.Success? <==>
        && MinUsernameLength <= JsLength(Trim(username)) <= MaxUsernameLength
        && MinFullNameLength <= JsLength(Trim(fullName)) <= MaxFullNameLength
        && password != [] && AgeValid(age)
  {
  }

  /** A user just created can sign in with the username and password it was created with. */
  lemma AuthenticateAfterCreate(users: Users, nextId: nat, username: string, fullName: string, password: string,
                                age: int, interests: Option<seq<string>>, now: nat)
    requires UsersValid(users, nextId)
    requires CreateUserStep(users, nextId, username, fullName, password, age, interests, now).result.Success?
    ensures var st := CreateUserStep(users, nextId, username, fullName, password, age, interests, now);
      AuthenticateUser(st.users, st.nextId, username, password) == Success(st.result.value)
  {
    var st := CreateUserStep(users, nextId, username, fullName, password, age, interests, now);
    var found := FindByUsername(st.users, st.nextId, username);
    assert st.users[nextId].username == Trim(username);
    assert found == Some(nextId);
  }

  /** `createUser` keeps every stored record valid. */
  lemma CreateUserKeepsSchema(users: Users, nextId: nat, username: string, fullName: string, password: string,
                              age: int, interests: Option<seq<string>>, now: nat)
    requires UsersValid(users, nextId) && AllUsersSchemaValid(users)
    ensures AllUsersSchemaValid(CreateUserStep(users, nextId, username, fullName, password, age, interests, now).users)
  {
  }

  /**
   * `updateUser`: not-found for an unknown id; otherwise only that record may change, never its id, username or
   * follow list, and only when the updated record passes validation.
   */
  lemma UpdateUserContract(users: Users, nextId: nat, userId: UserId, upd: UserUpdate)
    requires UsersValid(users, nextId)
    ensures var st := UpdateUserStep(users, nextId, userId, upd);
      && (userId !in users ==> st.result == Failure(UserNotFound) && st.users == users)
      && (st.result.Failure? ==> st.users == users)
      && st.nextId == nextId && st.users.Keys == users.Keys
      && (forall k :: k in users && k != userId ==> st.users[k] == users[k])
      && (userId in users ==>
            && st.users[userId].userId == userId
            && st.users[userId].username == users[userId].username
            && st.users[userId].following == users[userId].following)
      && (st.result.Success? ==> SchemaValid(st.result.value) && st.users[userId] == st.result.value)
      && UsersValid(st.users, st.nextId)
  {
  }

  /** An update with nothing truthy in it leaves a valid stored record as it was, and succeeds. */
  lemma EmptyUpdateKeepsRecord(users: Users, nextId: nat, userId: UserId)
    requires UsersValid(users, nextId) && AllUsersSchemaValid(users) && userId in users
    ensures UpdateUserStep(users, nextId, userId, UserUpdate(Some([]), Some(0), None, Some([]))) ==
      UserStep(users, nextId, Success(users[userId]))
  {
    assert ApplyUpdate(users[userId], UserUpdate(Some([]), Some(0), None, Some([]))) == users[userId];
  }

  /** After a password change the new password signs in and, when different, the old one no longer does. */
  lemma AuthenticateAfterPasswordChange(users: Users, nextId: nat, userId: UserId, oldPassword: string, newPassword: string)
    requires UsersValid(users, nextId) && userId in users && newPassword != []
    requires UpdateUserStep(users, nextId, userId, UserUpdate(None, None, None, Some(newPassword))).result.Success?
    ensures var st := UpdateUserStep(users, nextId, userId, UserUpdate(None, None, None, Some(newPassword)));
      var name := users[userId].username;
      && AuthenticateUser(st.users, st.nextId, name, newPassword).Success?
      && (oldPassword != newPassword ==> AuthenticateUser(st.users, st.nextId, name, oldPassword) == Failure(InvalidPassword))
  {
    var st := UpdateUserStep(users, nextId, userId, UserUpdate(None, None, None, Some(newPassword)));
    var name := users[userId].username;
    UpdateUserContract(users, nextId, userId, UserUpdate(None, None, None, Some(newPassword)));
    assert SchemaValid(st.users[userId]);
    assert Trim(name) == name;
    assert FindByUsername(st.users, st.nextId, name) == Some(userId);
  }

  /** `deleteUser` reports whether a record was removed, removes only it, and keeps the collection valid. */
  lemma DeleteUserContract(users: Users, nextId: nat, userId: UserId)
    requires UsersValid(users, nextId)
    ensures var st := DeleteUserStep(users, nextId, userId);
      && st.result == Success(userId in users)
      && st.users.Keys == users.Keys - {userId}
      && (forall k :: k in st.users ==> st.users[k] == users[k])
      && UsersValid(st.users, st.nextId)
  {
  }

  /** `updateUser` saves only a record that passes validation, so every stored record stays valid. */
  lemma UpdateUserKeepsSchema(users: Users, nextId: nat, userId: UserId, upd: UserUpdate)
    requires AllUsersSchemaValid(users)
    ensures AllUsersSchemaValid(UpdateUserStep(users, nextId, userId, upd).users)
  {
  }

  /** `deleteUser` only removes a record, so every stored record stays valid. */
  lemma DeleteUserKeepsSchema(users: Users, nextId: nat, userId: UserId)
    requires AllUsersSchemaValid(users)
    ensures AllUsersSchemaValid(DeleteUserStep(users, nextId, userId).users)
  {
  }

  /**
   * `followUser` changes only the follower's `following`, which no validator constrains, so its `save` always
   * passes validation and every stored record stays valid.
   */
  lemma FollowKeepsSchema(users: Users, nextId: nat, userId: UserId, targetUserId: UserId)
    requires AllUsersSchemaValid(users)
    ensures AllUsersSchemaValid(FollowStep(users, nextId, userId, targetUserId).users)
  {
  }

  /** `unfollowUser` likewise changes only the follower's `following`, so every stored record stays valid. */
  lemma UnfollowKeepsSchema(users: Users, nextId: nat, userId: UserId, targetUserId: UserId)
    requires AllUsersSchemaValid(users)
    ensures AllUsersSchemaValid(UnfollowStep(users, nextId, userId, targetUserId).users)
  {
  }

  /** Following: adding an absent id appends it; adding a present one changes nothing; no duplicate is ever created. */
  lemma {:induction false} FollowedSpec(following: seq<UserId>, t: UserId)
    ensures t in following ==> Followed(following, t) == following
    ensures t !in following ==> Followed(following, t) == following + [t]
    ensures NoDup(following) ==> NoDup(Followed(following, t))
    ensures Followed(Followed(following, t), t) == Followed(following, t)
  {
  }

  /**
   * Unfollowing removes the first occurrence of the target, one entry, and keeps the others in order. On a
   * duplicate-free list that is every occurrence, so the result is the filter that drops the target.
   */
  lemma UnfollowedSpec(following: seq<UserId>, t: UserId)
    ensures t !in following ==> Unfollowed(following, t) == following
    ensures t in following ==> |Unfollowed(following, t)| == |following| - 1
    ensures t in following ==> multiset(Unfollowed(following, t)) == multiset(following) - multiset{t}
    ensures t in following ==> exists i :: && 0 <= i < |following| && following[i] == t && t !in following[..i]
                                          && Unfollowed(following, t) == following[..i] + following[i + 1..]
    ensures NoDup(following) ==> Unfollowed(following, t) == Without(following, t) && NoDup(Unfollowed(following, t))
  {
    if t in following {
      UnfollowedRemovesFirst(following, t);
    }
    if NoDup(following) {
      UnfollowedIsWithout(following, t);
      WithoutNoDup(following, t);
    }
  }

  /** When the target is followed, unfollowing splices out its first occurrence: one entry, one copy of the target. */
  lemma UnfollowedRemovesFirst(following: seq<UserId>, t: UserId)
    requires t in following
    ensures |Unfollowed(following, t)| == |following| - 1
    ensures multiset(Unfollowed(following, t)) == multiset(following) - multiset{t}
    ensures exists i :: && 0 <= i < |following| && following[i] == t && t !in following[..i]
                        && Unfollowed(following, t) == following[..i] + following[i + 1..]
  {
    var i := IndexOf(following, t);
    assert following == following[..i] + [t] + following[i + 1..];
    assert multiset(following) == multiset(following[..i]) + multiset{t} + multiset(following[i + 1..]);
  }

  /** On a duplicate-free list the splice of the first occurrence and the filter agree. */
  lemma UnfollowedIsWithout(following: seq<UserId>, t: UserId)
    requires NoDup(following)
    ensures Unfollowed(following, t) == Without(following, t)
  {
    var i := IndexOf(following, t);
    if i != -1 {
      var before, after := following[..i], following[i + 1..];
      assert following == before + [t] + after;
      assert t !in after by {
        forall j | 0 <= j < |after| ensures after[j] != t {
          assert after[j] == following[i + 1 + j];
        }
      }
      assert t !in before;
      assert Without(before, t) == before && Without(after, t) == after;
      assert Without([t], t) == [];
      WithoutConcat(before, [t], t);
      assert Without(before + [t], t) == before;
      WithoutConcat(before + [t], after, t);
      assert Unfollowed(following, t) == before + after;
    }
  }

  /** Following someone not yet followed and then unfollowing them restores the list exactly. */
  lemma FollowThenUnfollow(following: seq<UserId>, t: UserId)
    requires t !in following
    ensures Unfollowed(Followed(following, t), t) == following
  {
    var f := following + [t];
    assert f[..|following|] == following;
    assert f[|following|] == t;
  }

  /**
   * `followUser`: the follower, then the target, must exist; on success the target is followed, the follower's
   * other fields and every other record are unchanged, and a second identical call changes nothing.
   */
  lemma FollowContract(users: Users, nextId: nat, userId: UserId, targetUserId: UserId)
    requires UsersValid(users, nextId)
    ensures var st := FollowStep(users, nextId, userId, targetUserId);
      && (userId !in users ==> st.result == Failure(FollowerNotFound) && st.users == users)
      && (userId in users && targetUserId !in users ==> st.result == Failure(TargetNotFound) && st.users == users)
      && (userId in users && targetUserId in users ==>
            && st.result == Success(st.users[userId])
            && st.users == users[userId := users[userId].(following := Followed(users[userId].following, targetUserId))]
            && targetUserId in st.users[userId].following
            && FollowStep(st.users, nextId, userId, targetUserId) == st)
      && UsersValid(st.users, st.nextId)
  {
    if userId in users && targetUserId in users && targetUserId in users[userId].following {
      assert users[userId].(following := users[userId].following) == users[userId];
    }
  }

  /**
   * `unfollowUser`: an unknown follower fails; otherwise the target's first occurrence is removed from the
   * follower's list (nothing changes if absent), and nothing else changes. On a duplicate-free list the target
   * is no longer followed afterwards.
   */
  lemma UnfollowContract(users: Users, nextId: nat, userId: UserId, targetUserId: UserId)
    requires UsersValid(users, nextId)
    ensures var st := UnfollowStep(users, nextId, userId, targetUserId);
      && (userId !in users ==> st.result == Failure(UserNotFound) && st.users == users)
      && (userId in users ==>
            && st.result == Success(st.users[userId])
            && st.users == users[userId := users[userId].(following := Unfollowed(users[userId].following, targetUserId))]
            && (NoDup(users[userId].following) ==> targetUserId !in st.users[userId].following))
      && UsersValid(st.users, st.nextId)
  {
    if userId in users {
      var f := users[userId].following;
      UnfollowedSpec(f, targetUserId);
      if IndexOf(f, targetUserId) == -1 {
        assert users[userId].(following := f) == users[userId];
      }
    }
  }

  /** Following and then unfollowing a user not yet followed restores the collection. */
  lemma FollowThenUnfollowRestores(users: Users, nextId: nat, userId: UserId, targetUserId: UserId)
    requires UsersValid(users, nextId) && userId in users && targetUserId in users
    requires targetUserId !in users[userId].following
    ensures var st := FollowStep(users, nextId, userId, targetUserId);
      UnfollowStep(st.users, st.nextId, userId, targetUserId).users == users
  {
    var f := users[userId].following;
    FollowThenUnfollow(f, targetUserId);
    var st := FollowStep(users, nextId, userId, targetUserId);
    assert st.users[userId].following == f + [targetUserId];
    assert IndexOf(f + [targetUserId], targetUserId) != -1;
    assert users[userId].(following := f) == users[userId];
  }

  /** The follow relation read from both ends agrees: `a` is in `b`'s following list exactly when `b` is among `a`'s followers. */
  lemma FollowingFollowersDual(users: Users, nextId: nat, a: UserId, b: UserId)
    requires UsersValid(users, nextId) && a in users && b in users
    ensures users[a] in GetFollowing(users, nextId, b).value <==> users[b] in GetFollowers(users, nextId, a)
  {
  }

  /** After `followUser` succeeds, the follower is among the target's followers. */
  lemma FollowMakesFollower(users: Users, nextId: nat, userId: UserId, targetUserId: UserId)
    requires UsersValid(users, nextId) && userId in users && targetUserId in users
    ensures var st := FollowStep(users, nextId, userId, targetUserId);
      st.users[userId] in GetFollowers(st.users, st.nextId, targetUserId)
  {
    FollowContract(users, nextId, userId, targetUserId);
  }
}
