/** The Post record: the schema's fields, defaults, setters and validators, and its virtual getters. */
module PostModel {
  import opened Wrappers
  import opened Text
  import Collections

  type PostId = nat
  type UserId = nat

  /** The product rule on review text, shared by the schema, the service and the route validator. */
  const MinContentLength: nat := 60
  const MinBookNameLength: nat := 1

  /**
   * A stored post. `originalPostId == None` marks an original; `Some(id)` a repost of `id`.
   * `likes` and `reposts` hold user ids; only an original's lists are authoritative.
   */
  datatype Post = Post(
    postId: PostId,
    userId: UserId,
    originalPostId: Option<PostId>,
    bookName: string,
    contentText: string,
    likes: seq<UserId>,
    reposts: seq<UserId>,
    createdAt: nat)
  {
    /** Virtual `likesCount`: the number of entries in `likes`, which is the number of distinct likers while the list has no duplicates. */
    function LikesCount(): (n: nat)
      ensures n == |likes|
      ensures Collections.NoDup(likes) ==> n == |Collections.Elems(likes)|
    {
      if Collections.NoDup(likes) then Collections.DistinctCount(likes); |likes| else |likes|
    }

    /** Virtual `repostsCount`, in the same way over `reposts`. */
    function RepostsCount(): (n: nat)
      ensures n == |reposts|
      ensures Collections.NoDup(reposts) ==> n == |Collections.Elems(reposts)|
    {
      if Collections.NoDup(reposts) then Collections.DistinctCount(reposts); |reposts| else |reposts|
    }

    /** Virtual `isRepost`: `!!originalPostId`. */
    predicate IsRepost() {
      originalPostId.Some?
    }
  }

  /** The validators a post must pass to be saved: both texts are stored trimmed and meet their minimum lengths. */
  predicate SchemaValid(p: Post) {
    TextsValid(p.bookName, p.contentText)
  }

  /** The `trim`/`minlength` validators of `bookName` and `contentText`. */
  predicate TextsValid(bookName: string, contentText: string) {
    && Trimmed(bookName) && JsLength(bookName) >= MinBookNameLength
    && Trimmed(contentText) && JsLength(contentText) >= MinContentLength
  }

  /**
   * `new Post({...})`: the `trim` setters applied, `likes`/`reposts` default to empty lists and `createdAt`
   * to the current time. The document passes validation exactly when the trimmed texts are long enough.
   */
  function NewPost(postId: PostId, userId: UserId, bookName: string, contentText: string,
                   originalPostId: Option<PostId>, now: nat): (p: Post)
    ensures p.postId == postId && p.userId == userId && p.originalPostId == originalPostId
    ensures p.likes == [] && p.reposts == [] && p.createdAt == now
    ensures p.IsRepost() <==> originalPostId.Some?
    ensures p.bookName == Trim(bookName) && p.contentText == Trim(contentText)
  {
    Post(postId, userId, originalPostId, Trim(bookName), Trim(contentText), [], [], now)
  }

  /**
   * A new post passes validation exactly when the trimmed texts are long enough; texts copied from a valid
   * post are left as they are, so the copy is valid too.
   */
  lemma NewPostValidity(postId: PostId, userId: UserId, bookName: string, contentText: string,
                        originalPostId: Option<PostId>, now: nat)
    ensures var p := NewPost(postId, userId, bookName, contentText, originalPostId, now);
      SchemaValid(p) <==> JsLength(Trim(bookName)) >= MinBookNameLength && JsLength(Trim(contentText)) >= MinContentLength
    ensures Trimmed(bookName) && Trimmed(contentText) ==>
      var p := NewPost(postId, userId, bookName, contentText, originalPostId, now);
      p.bookName == bookName && p.contentText == contentText
  {
  }
}
