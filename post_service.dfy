/**
 * The post service: creating posts, resolving reposts, toggling reposts and likes on the resolved original,
 * and deleting posts. Each operation is a step function on the collection (used by the lemmas) and a
 * method of `PostStore`, the mutable collection, proved to perform that step.
 */
module PostService {
  import opened Wrappers
  import opened Text
  import opened Collections
  import opened PostModel
  import opened Resolution

  /** What the collection guarantees on its own: ids from the counter, references to older posts. */
  predicate StoreValid(s: Store, nextId: nat) {
    && WellFormed(s)
    && (forall k :: k in s ==> k < nextId)
  }

  /** Every stored document passes the schema's validators. */
  predicate AllSchemaValid(s: Store) {
    forall k :: k in s ==> SchemaValid(s[k])
  }

  /** Repost records never carry interactions of their own: all toggles go to the original. */
  predicate RepostsBare(s: Store) {
    forall k :: k in s && s[k].originalPostId.Some? ==> s[k].likes == [] && s[k].reposts == []
  }

  /** `likes` and `reposts` hold each user at most once. */
  predicate DistinctInteractions(s: Store) {
    forall k :: k in s ==> NoDup(s[k].likes) && NoDup(s[k].reposts)
  }

  /** Every reference names a stored post. */
  predicate NoDangling(s: Store) {
    forall k :: k in s && s[k].originalPostId.Some? ==> s[k].originalPostId.value in s
  }

  /** The invariants the post operations keep although nothing in the collection checks them as a whole. */
  predicate Consistent(s: Store) {
    Flat(s) && NoDangling(s) && RepostsBare(s) && DistinctInteractions(s) && AllSchemaValid(s)
  }

  /** A collection after an operation, with the operation's outcome. */
  datatype Step<T> = Step(posts: Store, nextId: nat, result: Result<T, Error>)

  datatype Found = Found(originalPost: Post, existingRepost: Option<Post>)

  datatype RepostOutcome = RepostOutcome(
    post: Post, repost: Option<Post>, reposted: bool, repostsCount: nat, originalPostId: PostId)

  datatype LikeOutcome = LikeOutcome(post: Post, liked: bool, likesCount: nat, originalPostId: PostId)

  /** `Post.findOne({ userId, originalPostId })`: the user's first repost record of `o` in natural order. */
  function FindRepost(s: Store, nextId: nat, u: UserId, o: PostId): Option<PostId> {
    FirstKey(s, 0, nextId, (p: Post) => p.userId == u && p.originalPostId == Some(o))
  }

  /** `Post.find({ originalPostId: id })`: the ids below `n` of the direct reposts of `id`, in natural order. */
  function DirectReposts(s: Store, n: nat, id: PostId): (ids: seq<PostId>)
    ensures forall k :: k in ids <==> k in s && k < n && s[k].originalPostId == Some(id)
  {
    if n == 0 then []
    else
      var before := DirectReposts(s, n - 1, id);
      if n - 1 in s && s[n - 1].originalPostId == Some(id) then before + [n - 1] else before
  }

  /** The collection with every reference to `id` set to null. */
  function Unlink(s: Store, id: PostId): Store {
    map k | k in s :: if s[k].originalPostId == Some(id) then s[k].(originalPostId := None) else s[k]
  }

  lemma UnlinkKeepsValid(s: Store, nextId: nat, id: PostId)
    requires StoreValid(s, nextId)
    ensures StoreValid(Unlink(s, id) - {id}, nextId)
  {
  }

  function CreatePostStep(s: Store, nextId: nat, author: Option<UserId>, bookName: string,
                          contentText: string, now: nat): Step<Post>
  {
    if JsLength(contentText) < MinContentLength then Step(s, nextId, Failure(ContentTooShort))
    else if bookName == [] || author.None? then Step(s, nextId, Failure(MissingBookOrUser))
    else
      var post := NewPost(nextId, author.value, bookName, contentText, None, now);
      if !SchemaValid(post) then Step(s, nextId, Failure(ValidationFailed))
      else Step(s[nextId := post], nextId + 1, Success(post))
  }

  function ToggleRepostStep(s: Store, nextId: nat, u: UserId, id: PostId, now: nat): Step<RepostOutcome>
    requires StoreValid(s, nextId)
  {
    if id !in s then Step(s, nextId, Failure(PostNotFound))
    else
      var o := Resolve(s, id).value.original;
      var s1 := Detach(s, o);
      match FindRepost(s1, nextId, u, o)
      case Some(e) => RemoveRepostStep(s1, nextId, u, o, e)
      case None => AddRepostStep(s1, nextId, u, o, now)
  }

  /** The user's repost record `e` of original `o` is deleted and the user leaves `o`'s `reposts`. */
  function RemoveRepostStep(s: Store, nextId: nat, u: UserId, o: PostId, e: PostId): Step<RepostOutcome>
    requires o in s && e != o
  {
    var original := s[o];
    var s2 := s - {e};
    if u in original.reposts then
      var original' := original.(reposts := Without(original.reposts, u));
      Step(s2[o := original'], nextId, Success(RepostOutcome(original', None, false, |original'.reposts|, o)))
    else
      Step(s2, nextId, Success(RepostOutcome(original, None, false, |original.reposts|, o)))
  }

  /** A repost record of `o` by the user is created with a fresh id, and the user joins `o`'s `reposts` if absent. */
  function AddRepostStep(s: Store, nextId: nat, u: UserId, o: PostId, now: nat): Step<RepostOutcome>
    requires o in s && o != nextId
  {
    var original := s[o];
    var repost := NewPost(nextId, u, original.bookName, original.contentText, Some(o), now);
    var s2 := s[nextId := repost];
    if u in original.reposts then
      Step(s2, nextId + 1, Success(RepostOutcome(original, Some(repost), true, |original.reposts|, o)))
    else
      var original' := original.(reposts := original.reposts + [u]);
      Step(s2[o := original'], nextId + 1, Success(RepostOutcome(original', Some(repost), true, |original'.reposts|, o)))
  }

  /** The like toggle: remove `u` if present, otherwise append it. */
  function ToggledLikes(likes: seq<UserId>, u: UserId): seq<UserId> {
    if u in likes then Without(likes, u) else likes + [u]
  }

  function LikeStep(s: Store, nextId: nat, id: PostId, u: UserId): Step<LikeOutcome>
    requires WellFormed(s)
  {
    if id !in s then Step(s, nextId, Failure(PostNotFound))
    else
      var o := Resolve(s, id).value.original;
      ToggleLikeStep(Detach(s, o), nextId, o, u)
  }

  /** The user's like on original `o` flips. */
  function ToggleLikeStep(s: Store, nextId: nat, o: PostId, u: UserId): Step<LikeOutcome>
    requires o in s
  {
    var original' := s[o].(likes := ToggledLikes(s[o].likes, u));
    Step(s[o := original'], nextId, Success(LikeOutcome(original', u in original'.likes, |original'.likes|, o)))
  }

  function DeleteStep(s: Store, nextId: nat, id: PostId, requester: UserId): Step<bool> {
    if id !in s then Step(s, nextId, Failure(PostNotFound))
    else if s[id].userId != requester then Step(s, nextId, Failure(Unauthorized))
    else Step(Unlink(s, id) - {id}, nextId, Success(true))
  }

  /** The post collection, updated in place by the service operations. */
  class PostStore {
    var posts: Store
    var nextId: nat

    ghost predicate Valid()
      reads this
    {
      StoreValid(posts, nextId)
    }

    constructor ()
      ensures Valid() && posts == map[] && nextId == 0
    {
      posts := map[];
      nextId := 0;
    }

    /** `createPost`: the service's own length and presence checks, then the schema's validators on save. */
    method CreatePost(author: Option<UserId>, bookName: string, contentText: string, now: nat)
      returns (r: Result<Post, Error>)
      requires Valid()
      modifies this
      ensures Valid()
      ensures Step(posts, nextId, r) == CreatePostStep(old(posts), old(nextId), author, bookName, contentText, now)
    {
      if JsLength(contentText) < MinContentLength {
        return Failure(ContentTooShort);
      }
      if bookName == [] || author.None? {
        return Failure(MissingBookOrUser);
      }
      var post := NewPost(nextId, author.value, bookName, contentText, None, now);
      if !SchemaValid(post) {
        return Failure(ValidationFailed);
      }
      assert StoreValid(posts[nextId := post], nextId + 1);
      posts := posts[nextId := post];
      nextId := nextId + 1;
      r := Success(post);
    }

    /**
     * `findOriginalPost`: walks the reference chain, clearing the reference of a post whose target is gone;
     * it performs exactly the resolution `Resolve` describes and the repair `Detach` describes.
     */
    method FindOriginalPost(postId: PostId) returns (r: Result<Found, Error>)
      requires Valid()
      modifies this
      ensures Valid() && nextId == old(nextId)
      ensures Resolve(old(posts), postId).Failure? ==> r == Failure(PostNotFound) && posts == old(posts)
      ensures Resolve(old(posts), postId).Success? ==>
        var res := Resolve(old(posts), postId).value;
        && posts == Detach(old(posts), res.original)
        && r.Success? && r.value.originalPost == posts[res.original]
        && r.value.existingRepost == if res.existingRepost.None? then None else Some(old(posts)[postId])
      decreases postId
    {
      if postId !in posts {
        return Failure(PostNotFound);
      }
      var post := posts[postId];
      if post.originalPostId.None? {
        return Success(Found(post, None));
      }
      if post.originalPostId.value !in posts {
        post := post.(originalPostId := None);
        posts := posts[postId := post];
        return Success(Found(post, None));
      }
      var originalPost := posts[post.originalPostId.value];
      if originalPost.originalPostId.Some? {
        var result := FindOriginalPost(originalPost.originalPostId.value);
        if result.Success? {
          return Success(Found(result.value.originalPost, Some(post)));
        }
        originalPost := originalPost.(originalPostId := None);
        posts := posts[originalPost.postId := originalPost];
        return Success(Found(originalPost, Some(post)));
      }
      return Success(Found(originalPost, Some(post)));
    }

    /** `getPostById`: the stored post, or not-found. */
    function GetPostById(postId: PostId): (r: Result<Post, Error>)
      reads this
      ensures r.Failure? <==> postId !in posts
      ensures r.Success? ==> r.value == posts[postId]
    {
      if postId in posts then Success(posts[postId]) else Failure(PostNotFound)
    }

    /** `toggleRepost`: removes the user's repost of the resolved original if there is one, and creates one otherwise. */
    method ToggleRepost(userId: UserId, postId: PostId, now: nat) returns (r: Result<RepostOutcome, Error>)
      requires Valid()
      modifies this
      ensures Valid()
      ensures Step(posts, nextId, r) == ToggleRepostStep(old(posts), old(nextId), userId, postId, now)
    {
      if postId !in posts {
        return Failure(PostNotFound);
      }
      var found := FindOriginalPost(postId);
      var o := found.value.originalPost.postId;
      assert o == Resolve(old(posts), postId).value.original;
      var existingRepost := FindRepost(posts, nextId, userId, o);
      if existingRepost.Some? {
        r := RemoveRepost(userId, o, existingRepost.value);
      } else {
        r := AddRepost(userId, o, now);
      }
    }

    /** The branch of `toggleRepost` that finds the user's repost record `e` of `o`. */
    method RemoveRepost(userId: UserId, o: PostId, e: PostId) returns (r: Result<RepostOutcome, Error>)
      requires Valid() && o in posts && e != o
      modifies this
      ensures Valid()
      ensures Step(posts, nextId, r) == RemoveRepostStep(old(posts), old(nextId), userId, o, e)
    {
      var originalPost := posts[o];
      posts := posts - {e};
      if userId in originalPost.reposts {
        originalPost := originalPost.(reposts := Without(originalPost.reposts, userId));
        posts := posts[o := originalPost];
      }
      r := Success(RepostOutcome(originalPost, None, false, |originalPost.reposts|, o));
    }

    /** The branch of `toggleRepost` that creates a repost record of `o`, always referencing the original itself. */
    method AddRepost(userId: UserId, o: PostId, now: nat) returns (r: Result<RepostOutcome, Error>)
      requires Valid() && o in posts && posts[o].originalPostId.None?
      modifies this
      ensures Valid()
      ensures Step(posts, nextId, r) == AddRepostStep(old(posts), old(nextId), userId, o, now)
    {
      var originalPost := posts[o];
      var repost := NewPost(nextId, userId, originalPost.bookName, originalPost.contentText, Some(o), now);
      posts := posts[nextId := repost];
      nextId := nextId + 1;
      if userId !in originalPost.reposts {
        originalPost := originalPost.(reposts := originalPost.reposts + [userId]);
        posts := posts[o := originalPost];
      }
      r := Success(RepostOutcome(originalPost, Some(repost), true, |originalPost.reposts|, o));
    }

    /** `likePost`: flips the user's like on the resolved original. */
    method LikePost(postId: PostId, userId: UserId) returns (r: Result<LikeOutcome, Error>)
      requires Valid()
      modifies this
      ensures Valid()
      ensures Step(posts, nextId, r) == LikeStep(old(posts), old(nextId), postId, userId)
    {
      if postId !in posts {
        return Failure(PostNotFound);
      }
      var found := FindOriginalPost(postId);
      var originalPost := found.value.originalPost;
      if userId in originalPost.likes {
        originalPost := originalPost.(likes := Without(originalPost.likes, userId));
      } else {
        originalPost := originalPost.(likes := originalPost.likes + [userId]);
      }
      posts := posts[originalPost.postId := originalPost];
      r := Success(LikeOutcome(originalPost, userId in originalPost.likes, |originalPost.likes|, originalPost.postId));
    }

    /** `deletePost`: ownership check, then every direct repost is unlinked, then the record is removed. */
    method DeletePost(postId: PostId, userId: UserId) returns (r: Result<bool, Error>)
      requires Valid()
      modifies this
      ensures Valid()
      ensures Step(posts, nextId, r) == DeleteStep(old(posts), old(nextId), postId, userId)
    {
      if postId !in posts {
        return Failure(PostNotFound);
      }
      if posts[postId].userId != userId {
        return Failure(Unauthorized);
      }
      var repostsToUpdate := DirectReposts(posts, nextId, postId);
      ghost var s0 := posts;
      var i := 0;
      while i < |repostsToUpdate|
        invariant 0 <= i <= |repostsToUpdate|
        invariant nextId == old(nextId) && posts.Keys == s0.Keys
        invariant forall k :: k in posts ==>
          posts[k] == if k in repostsToUpdate[..i] then s0[k].(originalPostId := None) else s0[k]
      {
        var k := repostsToUpdate[i];
        posts := posts[k := posts[k].(originalPostId := None)];
        assert repostsToUpdate[..i + 1] == repostsToUpdate[..i] + [k];
        i := i + 1;
      }
      assert repostsToUpdate[..i] == repostsToUpdate;
      assert posts == Unlink(s0, postId);
      UnlinkKeepsValid(s0, nextId, postId);
      var removed := postId in posts;
      posts := posts - {postId};
      r := Success(removed);
    }
  }
}
