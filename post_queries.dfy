/**
 * The post service's read queries: the global feed, a user's own posts and a user's following feed, each
 * sorted newest first and then paged with `skip` and `limit` as the database applies them.
 */
module PostQueries {
  import opened Wrappers
  import opened Collections
  import opened PostModel
  import opened Resolution
  import opened UserModel
  import opened PostService

  /** The page size and offset the queries use when the caller gives none. */
  const DefaultLimit: nat := 20
  const DefaultSkip: nat := 0

  /** Newest first: `createdAt` never increases along the sequence. */
  predicate NewestFirst(ps: seq<Post>) {
    forall i, j :: 0 <= i < j < |ps| ==> ps[i].createdAt >= ps[j].createdAt
  }

  /** Places `p` in a newest-first sequence, ahead of every post no newer than it. */
  function InsertByDate(p: Post, ps: seq<Post>): (r: seq<Post>)
    requires NewestFirst(ps)
    ensures NewestFirst(r)
    ensures multiset(r) == multiset(ps) + multiset{p}
    ensures |r| == |ps| + 1 && (r[0] == p || (ps != [] && r[0] == ps[0]))
  {
    if ps == [] || p.createdAt >= ps[0].createdAt then
      ConsNewestFirst(p, ps);
      [p] + ps
    else
      assert ps == [ps[0]] + ps[1..];
      var rest := InsertByDate(p, ps[1..]);
      ConsNewestFirst(ps[0], rest);
      assert multiset([ps[0]] + rest) == multiset{ps[0]} + multiset(rest);
      [ps[0]] + rest
  }

  /** A post no older than the head of a newest-first sequence can go in front of it. */
  lemma ConsNewestFirst(p: Post, ps: seq<Post>)
    requires NewestFirst(ps) && (ps == [] || p.createdAt >= ps[0].createdAt)
    ensures NewestFirst([p] + ps)
  {
    var r := [p] + ps;
    forall i, j | 0 <= i < j < |r|
      ensures r[i].createdAt >= r[j].createdAt
    {
      assert r[j] == ps[j - 1];
      if i > 0 {
        assert r[i] == ps[i - 1];
      } else if j > 1 {
        assert ps[0].createdAt >= ps[j - 1].createdAt;
      }
    }
  }

  /**
   * `.sort({ createdAt: -1 })`: the same posts, newest first. Posts created at the same instant keep the order
   * they had, natural order for the collection.
   */
  function SortNewest(ps: seq<Post>): (r: seq<Post>)
    ensures NewestFirst(r)
    ensures multiset(r) == multiset(ps)
    ensures |r| == |ps|
  {
    if ps == [] then []
    else
      assert ps == [ps[0]] + ps[1..];
      InsertByDate(ps[0], SortNewest(ps[1..]))
  }

  /** `.skip(skip).limit(limit)` on a sorted result; a limit of 0 means no limit. */
  function Window<T>(ps: seq<T>, limit: nat, skip: nat): (r: seq<T>) {
    var rest := if skip <= |ps| then ps[skip..] else [];
    if limit == 0 || limit >= |rest| then rest else rest[..limit]
  }

  /** Where a page starts: `skip` posts in, or at the end when fewer posts are left. */
  function PageStart(n: nat, skip: nat): nat {
    if skip <= n then skip else n
  }

  /** The number of posts a page holds: what is left after `skip`, capped by a non-zero `limit`. */
  function PageSize(n: nat, limit: nat, skip: nat): nat {
    var left := if skip <= n then n - skip else 0;
    if limit == 0 || limit >= left then left else limit
  }

  /** A query's result: the matching posts sorted newest first, then the requested window of them. */
  function Page(ps: seq<Post>, limit: nat, skip: nat): (r: seq<Post>)
    ensures |r| == PageSize(|ps|, limit, skip)
    ensures limit > 0 ==> |r| <= limit
    ensures PageStart(|ps|, skip) + |r| <= |ps|
    ensures r == SortNewest(ps)[PageStart(|ps|, skip)..PageStart(|ps|, skip) + |r|]
    ensures NewestFirst(r)
    ensures multiset(r) <= multiset(ps)
    ensures forall p :: p in r ==> p in ps
    ensures skip == 0 && limit == 0 ==> multiset(r) == multiset(ps) && forall p :: p in ps ==> p in r
  {
    var sorted := SortNewest(ps);
    WindowOfArrangement(ps, sorted, limit, skip);
    Window(sorted, limit, skip)
  }

  /** The window of any newest-first arrangement `sorted` of the posts is a newest-first run of it, drawn from the posts, and all of them when unpaged. */
  lemma WindowOfArrangement(ps: seq<Post>, sorted: seq<Post>, limit: nat, skip: nat)
    requires NewestFirst(sorted) && multiset(sorted) == multiset(ps) && |sorted| == |ps|
    ensures |Window(sorted, limit, skip)| == PageSize(|ps|, limit, skip)
    ensures PageStart(|ps|, skip) + |Window(sorted, limit, skip)| <= |ps|
    ensures Window(sorted, limit, skip)
      == sorted[PageStart(|ps|, skip)..PageStart(|ps|, skip) + |Window(sorted, limit, skip)|]
    ensures NewestFirst(Window(sorted, limit, skip))
    ensures multiset(Window(sorted, limit, skip)) <= multiset(ps)
    ensures forall p :: p in Window(sorted, limit, skip) ==> p in ps
    ensures skip == 0 && limit == 0 ==>
      multiset(Window(sorted, limit, skip)) == multiset(ps) && forall p :: p in ps ==> p in Window(sorted, limit, skip)
  {
    var r := Window(sorted, limit, skip);
    WindowOfSorted(sorted, limit, skip);
    forall p | p in r
      ensures p in ps
    {
      assert multiset(r)[p] > 0;
    }
    if skip == 0 && limit == 0 {
      forall p | p in ps
        ensures p in r
      {
        assert multiset(ps)[p] > 0;
      }
    }
  }

  /** A window is a contiguous run of the sequence, so it keeps the order and takes no post twice. */
  lemma WindowOfSorted(ps: seq<Post>, limit: nat, skip: nat)
    ensures var r := Window(ps, limit, skip);
      && |r| == PageSize(|ps|, limit, skip)
      && PageStart(|ps|, skip) + |r| <= |ps|
      && r == ps[PageStart(|ps|, skip)..PageStart(|ps|, skip) + |r|]
      && (NewestFirst(ps) ==> NewestFirst(r))
      && multiset(r) <= multiset(ps)
      && (skip == 0 && limit == 0 ==> r == ps)
  {
    var lo := PageStart(|ps|, skip);
    var hi := lo + PageSize(|ps|, limit, skip);
    assert Window(ps, limit, skip) == ps[lo..hi];
    SliceOfSorted(ps, lo, hi);
  }

  /** A slice takes no post more often than the whole sequence and keeps its order. */
  lemma SliceOfSorted(ps: seq<Post>, lo: nat, hi: nat)
    requires lo <= hi <= |ps|
    ensures multiset(ps[lo..hi]) <= multiset(ps)
    ensures NewestFirst(ps) ==> NewestFirst(ps[lo..hi])
  {
    assert ps == ps[..lo] + ps[lo..hi] + ps[hi..];
    assert multiset(ps) == multiset(ps[..lo]) + multiset(ps[lo..hi]) + multiset(ps[hi..]);
    if NewestFirst(ps) {
      var r := ps[lo..hi];
      forall i, j | 0 <= i < j < |r|
        ensures r[i].createdAt >= r[j].createdAt
      {
        assert r[i] == ps[lo + i] && r[j] == ps[lo + j];
      }
    }
  }

  /** Two consecutive windows of `limit` entries make up the window of twice the size. */
  lemma ConsecutiveWindows<T>(ps: seq<T>, limit: nat, skip: nat)
    requires limit > 0
    ensures Window(ps, limit, skip) + Window(ps, limit, skip + limit) == Window(ps, 2 * limit, skip)
  {
    var n := |ps|;
    if skip + 2 * limit <= n {
      assert ps[skip..][..limit] == ps[skip..skip + limit];
      assert ps[skip + limit..][..limit] == ps[skip + limit..skip + 2 * limit];
      assert ps[skip..][..2 * limit] == ps[skip..skip + 2 * limit];
      assert ps[skip..skip + limit] + ps[skip + limit..skip + 2 * limit] == ps[skip..skip + 2 * limit];
    } else if skip + limit <= n {
      assert ps[skip..][..limit] == ps[skip..skip + limit];
      assert ps[skip..skip + limit] + ps[skip + limit..] == ps[skip..];
    }
  }

  /**
   * Paging is consistent: the page after a page of `limit` posts starts exactly where it ended, so two
   * consecutive pages make up the page of twice the size.
   */
  lemma ConsecutivePages(ps: seq<Post>, limit: nat, skip: nat)
    requires limit > 0
    ensures Page(ps, limit, skip) + Page(ps, limit, skip + limit) == Page(ps, 2 * limit, skip)
  {
    ConsecutiveWindows(SortNewest(ps), limit, skip);
  }

  /** `Post.find()` in natural order: every stored post once, by ascending id. */
  function Collection(s: Store, nextId: nat): (r: seq<Post>)
    requires StoreValid(s, nextId)
    ensures forall p :: p in r <==> p.postId in s && s[p.postId] == p
    ensures AscendingIds(r)
  {
    Listing(s, nextId, (p: Post) => p.postId)
  }

  /** `getAllPosts(limit, skip)`: the global feed page. */
  function GetAllPosts(s: Store, nextId: nat, limit: nat, skip: nat): (r: seq<Post>)
    requires StoreValid(s, nextId)
    ensures r == Page(Collection(s, nextId), limit, skip)
    ensures forall p :: p in r ==> p.postId in s && s[p.postId] == p
    ensures |r| == PageSize(|s|, limit, skip) && NewestFirst(r)
    ensures skip == 0 && limit == 0 ==> forall k :: k in s ==> s[k] in r
  {
    var all := Collection(s, nextId);
    CollectionSize(s, nextId);
    Page(all, limit, skip)
  }

  /** The collection lists each stored post exactly once. */
  lemma CollectionSize(s: Store, nextId: nat)
    requires StoreValid(s, nextId)
    ensures |Collection(s, nextId)| == |s|
  {
    ListingSize(s, nextId, (p: Post) => p.postId);
    assert KeysBelow(s, nextId) == s.Keys;
  }

  /** Ascending `postId`: natural order, each post at most once. */
  predicate AscendingIds(ps: seq<Post>) {
    forall i, j :: 0 <= i < j < |ps| ==> ps[i].postId < ps[j].postId
  }

  /** A query filter keeps the relative order of the posts that pass, so natural order survives it. */
  lemma {:induction false} FilterKeepsAscending(ps: seq<Post>, keep: Post -> bool)
    requires AscendingIds(ps)
    ensures AscendingIds(Filter(ps, keep))
  {
    if ps != [] {
      var tail := ps[1..];
      assert AscendingIds(tail) by {
        forall i, j | 0 <= i < j < |tail|
          ensures tail[i].postId < tail[j].postId
        {
          assert tail[i] == ps[i + 1] && tail[j] == ps[j + 1];
        }
      }
      FilterKeepsAscending(tail, keep);
      var rest := Filter(tail, keep);
      assert forall x :: x in rest ==> ps[0].postId < x.postId by {
        forall x | x in rest
          ensures ps[0].postId < x.postId
        {
          var j :| 0 <= j < |tail| && tail[j] == x;
          assert ps[1 + j] == x;
        }
      }
      if keep(ps[0]) {
        ConsAscending(ps[0], rest);
        assert Filter(ps, keep) == [ps[0]] + rest;
      } else {
        assert Filter(ps, keep) == rest;
      }
    }
  }

  /** A post with a smaller id than every post of an ascending sequence can go in front of it. */
  lemma ConsAscending(p: Post, ps: seq<Post>)
    requires AscendingIds(ps) && forall x :: x in ps ==> p.postId < x.postId
    ensures AscendingIds([p] + ps)
  {
    var r := [p] + ps;
    forall i, j | 0 <= i < j < |r|
      ensures r[i].postId < r[j].postId
    {
      assert r[j] == ps[j - 1];
      if i > 0 {
        assert r[i] == ps[i - 1];
      }
    }
  }

  /** `Post.find({ userId: target })` in natural order: each stored post of the target once, by ascending id. */
  function StoredPostsOf(s: Store, nextId: nat, target: UserModel.UserId): (r: seq<Post>)
    requires StoreValid(s, nextId)
    ensures forall p :: p in r <==> p.postId in s && s[p.postId] == p && p.userId == target
    ensures AscendingIds(r)
  {
    var keep := (p: Post) => p.userId == target;
    FilterKeepsAscending(Collection(s, nextId), keep);
    Filter(Collection(s, nextId), keep)
  }

  /**
   * `getUserPosts(targetUserId, limit, skip)`: a page of the target's posts (reposts included), taken newest
   * first from the target's stored posts.
   */
  function GetUserPosts(s: Store, nextId: nat, target: UserModel.UserId, limit: nat, skip: nat): (r: seq<Post>)
    requires StoreValid(s, nextId)
    ensures r == Page(StoredPostsOf(s, nextId, target), limit, skip)
    ensures forall p :: p in r ==> p.postId in s && s[p.postId] == p && p.userId == target
    ensures NewestFirst(r) && (limit > 0 ==> |r| <= limit)
    ensures skip == 0 && limit == 0 ==> forall k :: k in s && s[k].userId == target ==> s[k] in r
  {
    Page(StoredPostsOf(s, nextId, target), limit, skip)
  }

  /** The authors a user's following feed draws on: everyone followed, and the user. */
  function FeedAuthors(users: map<UserModel.UserId, User>, u: UserModel.UserId): (r: seq<UserModel.UserId>)
    requires u in users
    ensures forall a :: a in r <==> a == u || a in users[u].following
  {
    users[u].following + [u]
  }

  /** `Post.find({ userId: { $in: authors } })` in natural order: each stored post by a listed author once, by ascending id. */
  function StoredPostsOfAny(s: Store, nextId: nat, authors: seq<UserModel.UserId>): (r: seq<Post>)
    requires StoreValid(s, nextId)
    ensures forall p :: p in r <==> p.postId in s && s[p.postId] == p && p.userId in authors
    ensures AscendingIds(r)
  {
    var keep := (p: Post) => p.userId in authors;
    FilterKeepsAscending(Collection(s, nextId), keep);
    Filter(Collection(s, nextId), keep)
  }

  /** The `$in` query sorted and paged. */
  function PostsByAny(s: Store, nextId: nat, authors: seq<UserModel.UserId>, limit: nat, skip: nat): (r: seq<Post>)
    requires StoreValid(s, nextId)
    ensures r == Page(StoredPostsOfAny(s, nextId, authors), limit, skip)
    ensures forall p :: p in r ==> p.postId in s && s[p.postId] == p && p.userId in authors
    ensures NewestFirst(r) && (limit > 0 ==> |r| <= limit)
    ensures skip == 0 && limit == 0 ==> forall k :: k in s && s[k].userId in authors ==> s[k] in r
  {
    Page(StoredPostsOfAny(s, nextId, authors), limit, skip)
  }

  /**
   * `getFeed(userId, limit, skip)`: not-found for an unknown user; otherwise a page of the posts written by
   * the user or by anyone the user follows.
   */
  function GetFeed(s: Store, nextId: nat, users: map<UserModel.UserId, User>, u: UserModel.UserId, limit: nat, skip: nat)
    : (r: Result<seq<Post>, Error>)
    requires StoreValid(s, nextId)
    ensures r.Failure? <==> u !in users
    ensures r.Failure? ==> r.error == UserNotFound
    ensures r.Success? ==> forall p :: p in r.value ==>
      p.postId in s && s[p.postId] == p && (p.userId == u || p.userId in users[u].following)
    ensures r.Success? ==> r.value == Page(StoredPostsOfAny(s, nextId, FeedAuthors(users, u)), limit, skip)
    ensures r.Success? ==> NewestFirst(r.value) && (limit > 0 ==> |r.value| <= limit)
    ensures r.Success? && skip == 0 && limit == 0 ==>
      forall k :: k in s && (s[k].userId == u || s[k].userId in users[u].following) ==> s[k] in r.value
  {
    if u !in users then Failure(UserNotFound)
    else Success(PostsByAny(s, nextId, FeedAuthors(users, u), limit, skip))
  }

  /** A user's own posts are always part of the user's unpaged following feed. */
  lemma OwnPostsInFeed(s: Store, nextId: nat, users: map<UserModel.UserId, User>, u: UserModel.UserId)
    requires StoreValid(s, nextId) && u in users
    ensures forall p :: p in GetUserPosts(s, nextId, u, 0, 0) ==> p in GetFeed(s, nextId, users, u, 0, 0).value
  {
  }
}
