/**
 * The feed page: choosing the page of posts by filter, then assembling everything the view looks up beside
 * it (the originals behind reposts, and each author's display name, with a placeholder for deleted
 * accounts). The controller reads both collections and changes neither.
 */
module FeedController {
  import opened Wrappers
  import opened Collections
  import opened PostModel
  import opened Resolution
  import opened PostService
  import opened PostQueries
  import UserModel
  import UserService

  /** What the view shows for an author. */
  datatype Author = Author(username: string, fullName: string)

  /** The entry shown for an author whose account no longer exists. */
  const DeletedAuthor := Author("Deleted User", "User no longer exists")

  /**
   * What the feed view is rendered with. `repostMap` (original id to the last repost of it on the page) is
   * computed by the controller but not passed to the view.
   */
  datatype FeedPage = FeedPage(
    title: string,
    activeFilter: string,
    posts: seq<Post>,
    originalPostMap: map<PostId, Post>,
    userMap: map<UserModel.UserId, Author>,
    repostMap: map<PostId, PostId>)

  /** `req.query.filter || 'all'`: an absent or empty filter means the global feed. */
  function ActiveFilter(filter: Option<string>): string {
    if filter.Some? && filter.value != [] then filter.value else "all"
  }

  function Title(filter: string): string {
    if filter == "following" then "Following Feed | XReader" else "Live Feed | XReader"
  }

  /**
   * The page of posts for a filter: the following feed for `following`, the global feed for any other value,
   * both with the default page size.
   */
  function SelectedPosts(s: Store, nextId: nat, users: UserService.Users, filter: string,
                         sessionUser: UserModel.UserId): Result<seq<Post>, Error>
    requires StoreValid(s, nextId)
  {
    if filter == "following" then GetFeed(s, nextId, users, sessionUser, DefaultLimit, DefaultSkip)
    else Success(GetAllPosts(s, nextId, DefaultLimit, DefaultSkip))
  }

  /** The ids the reposts on a page refer to, in page order, repeats included. */
  function OriginalIds(ps: seq<Post>): (r: seq<PostId>)
    ensures forall o :: o in r <==> exists p :: p in ps && p.originalPostId == Some(o)
    ensures |r| <= |ps|
  {
    if ps == [] then []
    else
      var last := ps[|ps| - 1];
      assert forall p :: p in ps <==> p in ps[..|ps| - 1] || p == last;
      if last.originalPostId.Some? then OriginalIds(ps[..|ps| - 1]) + [last.originalPostId.value]
      else OriginalIds(ps[..|ps| - 1])
  }

  /** `repostMap` after a scan of `ps`: each referenced id mapped to the referring post, later entries overwriting earlier ones. */
  function RepostMapOf(ps: seq<Post>): (m: map<PostId, PostId>)
    ensures forall o :: o in m <==> o in OriginalIds(ps)
  {
    if ps == [] then map[]
    else
      var last := ps[|ps| - 1];
      if last.originalPostId.Some? then RepostMapOf(ps[..|ps| - 1])[last.originalPostId.value := last.postId]
      else RepostMapOf(ps[..|ps| - 1])
  }

  /** Position `i` holds the last post on the page that refers to `o`. */
  predicate LastReferenceAt(ps: seq<Post>, o: PostId, i: int) {
    && 0 <= i < |ps| && ps[i].originalPostId == Some(o)
    && forall j :: i < j < |ps| ==> ps[j].originalPostId != Some(o)
  }

  /** The repost map keeps, for each original, the last repost of it on the page. */
  lemma {:induction false} RepostMapKeepsLast(ps: seq<Post>, o: PostId, i: int)
    requires LastReferenceAt(ps, o, i)
    ensures o in RepostMapOf(ps) && RepostMapOf(ps)[o] == ps[i].postId
  {
    var n := |ps| - 1;
    var init := ps[..n];
    var last := ps[n];
    if i == n {
      assert RepostMapOf(ps) == RepostMapOf(init)[o := last.postId];
    } else {
      assert last.originalPostId != Some(o);
      assert LastReferenceAt(init, o, i);
      RepostMapKeepsLast(init, o, i);
      if last.originalPostId.Some? {
        assert RepostMapOf(ps) == RepostMapOf(init)[last.originalPostId.value := last.postId];
      } else {
        assert RepostMapOf(ps) == RepostMapOf(init);
      }
    }
  }

  /**
   * `Promise.all(ids.map(getPostById))`: every post, in order, or not-found as soon as one id is not stored,
   * in which case nothing is returned.
   */
  function FetchAll(s: Store, ids: seq<PostId>): (r: Result<seq<Post>, Error>)
    ensures r.Failure? <==> exists k :: k in ids && k !in s
    ensures r.Failure? ==> r.error == PostNotFound
    ensures r.Success? ==> |r.value| == |ids| && forall i :: 0 <= i < |ids| ==> r.value[i] == s[ids[i]]
  {
    if forall k :: k in ids ==> k in s then Success(seq(|ids|, i requires 0 <= i < |ids| => s[ids[i]]))
    else Failure(PostNotFound)
  }

  /** The authors of a list of posts, in order. */
  function AuthorIds(ps: seq<Post>): (r: seq<UserModel.UserId>)
    ensures |r| == |ps| && forall i :: 0 <= i < |ps| ==> r[i] == ps[i].userId
  {
    seq(|ps|, i requires 0 <= i < |ps| => ps[i].userId)
  }

  /** The entry the view shows for author `a`. */
  function AuthorOf(users: UserService.Users, a: UserModel.UserId): Author {
    if a in users then Author(users[a].username, users[a].fullName) else DeletedAuthor
  }

  /** `a` wrote a post on the page or an original one of them reposts. */
  predicate OnPage(posts: seq<Post>, originals: map<PostId, Post>, a: UserModel.UserId) {
    (exists p :: p in posts && p.userId == a) || (exists o :: o in originals && originals[o].userId == a)
  }

  /** The scan of the page (`posts.forEach`): the referenced ids in page order, and the last repost of each. */
  method CollectReferences(posts: seq<Post>) returns (originalPostIds: seq<PostId>, repostMap: map<PostId, PostId>)
    ensures originalPostIds == OriginalIds(posts)
    ensures repostMap == RepostMapOf(posts)
  {
    originalPostIds := [];
    repostMap := map[];
    var i := 0;
    while i < |posts|
      invariant 0 <= i <= |posts|
      invariant originalPostIds == OriginalIds(posts[..i])
      invariant repostMap == RepostMapOf(posts[..i])
    {
      assert posts[..i + 1][..i] == posts[..i];
      var post := posts[i];
      if post.originalPostId.Some? {
        originalPostIds := originalPostIds + [post.originalPostId.value];
        repostMap := repostMap[post.originalPostId.value := post.postId];
      }
      i := i + 1;
    }
    assert posts[..|posts|] == posts;
  }

  /**
   * The originals behind the page: each referenced id fetched once, in order of first reference; not-found
   * when one is gone. On success `originalPostMap` files each fetched original under its id.
   */
  method FetchOriginals(s: Store, nextId: nat, originalPostIds: seq<PostId>)
    returns (r: Result<(seq<Post>, map<PostId, Post>), Error>)
    requires StoreValid(s, nextId)
    ensures r.Failure? <==> exists o :: o in originalPostIds && o !in s
    ensures r.Failure? ==> r.error == PostNotFound
    ensures r.Success? ==> forall o :: o in r.value.1 <==> o in originalPostIds
    ensures r.Success? ==> forall o :: o in r.value.1 ==> o in s && r.value.1[o] == s[o]
    ensures r.Success? ==> forall p :: p in r.value.0 <==> exists o :: o in r.value.1 && r.value.1[o] == p
  {
    var originalPostMap: map<PostId, Post> := map[];
    if |originalPostIds| == 0 {
      return Success(([], originalPostMap));
    }
    var unique := Dedup(originalPostIds);
    var fetched := FetchAll(s, unique);
    if fetched.Failure? {
      return Failure(fetched.error);
    }
    var originalPosts := fetched.value;
    var j := 0;
    while j < |originalPosts|
      invariant 0 <= j <= |originalPosts|
      invariant forall o :: o in originalPostMap <==> o in unique[..j]
      invariant forall o :: o in originalPostMap ==> o in s && originalPostMap[o] == s[o]
    {
      assert unique[..j + 1] == unique[..j] + [unique[j]];
      originalPostMap := originalPostMap[originalPosts[j].postId := originalPosts[j]];
      j := j + 1;
    }
    assert unique[..|originalPosts|] == unique;
    OriginalsListed(s, unique, originalPosts, originalPostMap);
    r := Success((originalPosts, originalPostMap));
  }

  /** The fetched list and the map hold the same posts. */
  lemma OriginalsListed(s: Store, unique: seq<PostId>, originalPosts: seq<Post>, originalPostMap: map<PostId, Post>)
    requires forall k :: k in s ==> s[k].postId == k
    requires |originalPosts| == |unique| && forall i :: 0 <= i < |unique| ==> unique[i] in s && originalPosts[i] == s[unique[i]]
    requires forall o :: o in originalPostMap <==> o in unique
    requires forall o :: o in originalPostMap ==> originalPostMap[o] == s[o]
    ensures forall p :: p in originalPosts <==> exists o :: o in originalPostMap && originalPostMap[o] == p
  {
    forall p | p in originalPosts
      ensures exists o :: o in originalPostMap && originalPostMap[o] == p
    {
      var i :| 0 <= i < |unique| && originalPosts[i] == p;
      assert originalPostMap[unique[i]] == p;
    }
    forall o | o in originalPostMap
      ensures originalPostMap[o] in originalPosts
    {
      var i :| 0 <= i < |unique| && unique[i] == o;
      assert originalPosts[i] == originalPostMap[o];
    }
  }

  /** `userIds.forEach`: an entry for every id, the stored name or the placeholder. */
  method BuildUserMap(users: UserService.Users, userNextId: nat, userIds: seq<UserModel.UserId>)
    returns (userMap: map<UserModel.UserId, Author>)
    requires UserService.UsersValid(users, userNextId)
    ensures forall a :: a in userMap <==> a in userIds
    ensures forall a :: a in userMap ==> userMap[a] == AuthorOf(users, a)
  {
    var fetchedUsers := seq(|userIds|, k requires 0 <= k < |userIds| => UserService.GetUserById(users, userIds[k]));
    userMap := map[];
    var k := 0;
    while k < |userIds|
      invariant 0 <= k <= |userIds|
      invariant forall a :: a in userMap <==> a in userIds[..k]
      invariant forall a :: a in userMap ==> userMap[a] == AuthorOf(users, a)
    {
      assert userIds[..k + 1] == userIds[..k] + [userIds[k]];
      var user := fetchedUsers[k];
      assert user == UserService.GetUserById(users, userIds[k]);
      if user.Some? {
        assert user.value.userId == userIds[k];
        userMap := userMap[user.value.userId := Author(user.value.username, user.value.fullName)];
      } else {
        userMap := userMap[userIds[k] := DeletedAuthor];
      }
      k := k + 1;
    }
    assert userIds[..|userIds|] == userIds;
  }

  /**
   * `getFeed(req, res)`. Fails as the query it chose fails (not-found for a deleted session user), and with
   * not-found when any post a repost on the page refers to is gone. Otherwise the page has its posts as
   * chosen, every referenced original under its id, and an entry for each author on the page: the stored
   * name, or the deleted-user placeholder. Every lookup the view makes on it succeeds.
   */
  method GetFeedPage(s: Store, nextId: nat, users: UserService.Users, userNextId: nat, filter: Option<string>,
                     sessionUser: UserModel.UserId) returns (r: Result<FeedPage, Error>)
    requires StoreValid(s, nextId) && UserService.UsersValid(users, userNextId)
    ensures var sel := SelectedPosts(s, nextId, users, ActiveFilter(filter), sessionUser);
      sel.Failure? ==> r == Failure(sel.error)
    ensures var sel := SelectedPosts(s, nextId, users, ActiveFilter(filter), sessionUser);
      sel.Success? ==> (r.Failure? <==> exists o :: o in OriginalIds(sel.value) && o !in s)
    ensures var sel := SelectedPosts(s, nextId, users, ActiveFilter(filter), sessionUser);
      sel.Success? && r.Failure? ==> r.error == PostNotFound
    ensures r.Success? ==>
      var f := ActiveFilter(filter);
      && SelectedPosts(s, nextId, users, f, sessionUser) == Success(r.value.posts)
      && r.value.activeFilter == f && r.value.title == Title(f)
      && r.value.repostMap == RepostMapOf(r.value.posts)
    ensures r.Success? ==> forall o :: o in r.value.originalPostMap <==> o in OriginalIds(r.value.posts)
    ensures r.Success? ==> forall o :: o in r.value.originalPostMap ==> o in s && r.value.originalPostMap[o] == s[o]
    ensures r.Success? ==> forall a :: a in r.value.userMap <==> OnPage(r.value.posts, r.value.originalPostMap, a)
    ensures r.Success? ==> forall a :: a in r.value.userMap ==> r.value.userMap[a] == AuthorOf(users, a)
    ensures r.Success? ==> ViewLookupsSucceed(r.value)
  {
    var f := ActiveFilter(filter);
    var selected := SelectedPosts(s, nextId, users, f, sessionUser);
    if selected.Failure? {
      return Failure(selected.error);
    }
    var posts := selected.value;
    var originalPostIds, repostMap := CollectReferences(posts);
    var originals := FetchOriginals(s, nextId, originalPostIds);
    if originals.Failure? {
      return Failure(originals.error);
    }
    var (originalPosts, originalPostMap) := originals.value;
    // Every author on the page once, in order of first appearance (the originals in the order they were
    // inserted, which is `Object.values` order for non-numeric keys).
    var userIds := Dedup(AuthorIds(posts) + AuthorIds(originalPosts));
    var userMap := BuildUserMap(users, userNextId, userIds);
    AuthorsOnPage(posts, originalPosts, originalPostMap);
    r := Success(FeedPage(Title(f), f, posts, originalPostMap, userMap, repostMap));
    LookupsSucceed(r.value);
  }

  /** Every post on the page has an author entry, and every repost its original and the original's author. */
  predicate ViewLookupsSucceed(page: FeedPage) {
    forall p :: p in page.posts ==>
      && p.userId in page.userMap
      && (p.originalPostId.Some? ==>
            && p.originalPostId.value in page.originalPostMap
            && page.originalPostMap[p.originalPostId.value].userId in page.userMap)
  }

  lemma LookupsSucceed(page: FeedPage)
    requires forall o :: o in page.originalPostMap <==> o in OriginalIds(page.posts)
    requires forall a :: a in page.userMap <==> OnPage(page.posts, page.originalPostMap, a)
    ensures ViewLookupsSucceed(page)
  {
  }

  /** The authors of the page and of the fetched originals are exactly the authors the page shows. */
  lemma AuthorsOnPage(posts: seq<Post>, originalPosts: seq<Post>, originalPostMap: map<PostId, Post>)
    requires forall p :: p in originalPosts <==> exists o :: o in originalPostMap && originalPostMap[o] == p
    ensures forall a :: a in AuthorIds(posts) + AuthorIds(originalPosts) <==> OnPage(posts, originalPostMap, a)
  {
    forall a
      ensures a in AuthorIds(posts) + AuthorIds(originalPosts) <==> OnPage(posts, originalPostMap, a)
    {
      AuthorIdsMembership(posts, a);
      AuthorIdsMembership(originalPosts, a);
    }
  }

  lemma AuthorIdsMembership(ps: seq<Post>, a: UserModel.UserId)
    ensures a in AuthorIds(ps) <==> exists p :: p in ps && p.userId == a
  {
    if a in AuthorIds(ps) {
      var i :| 0 <= i < |ps| && AuthorIds(ps)[i] == a;
      assert ps[i] in ps;
    }
    if exists p :: p in ps && p.userId == a {
      var p :| p in ps && p.userId == a;
      var i :| 0 <= i < |ps| && ps[i] == p;
      assert AuthorIds(ps)[i] == a;
    }
  }

  /**
   * In a collection the post operations keep consistent no reference dangles, so the page never fails for a
   * missing original; and every original it fetches is an original, not another repost.
   */
  lemma ConsistentFeedHasOriginals(s: Store, nextId: nat, users: UserService.Users, filter: string,
                                   sessionUser: UserModel.UserId)
    requires StoreValid(s, nextId) && NoDangling(s) && Flat(s)
    requires SelectedPosts(s, nextId, users, filter, sessionUser).Success?
    ensures forall o :: o in OriginalIds(SelectedPosts(s, nextId, users, filter, sessionUser).value) ==>
      o in s && s[o].originalPostId.None?
  {
  }
}
