/**
 * What the post operations promise, proved about their step functions: the outcome of each call, the
 * invariants every step keeps, and how calls combine (toggling twice, liking through a repost).
 */
module PostProperties {
  import opened Wrappers
  import opened Text
  import opened Collections
  import opened PostModel
  import opened Resolution
  import opened PostService

  /** Replacing a stored post by one with the same id and reference keeps the collection's own guarantees. */
  lemma ReplaceKeepsValid(s: Store, nextId: nat, k: PostId, p: Post)
    requires StoreValid(s, nextId) && k in s && p.postId == k && p.originalPostId == s[k].originalPostId
    ensures StoreValid(s[k := p], nextId)
  {
  }

  /** Replacing a stored post keeps every invariant when the new version keeps the reference and obeys the invariants itself. */
  lemma ReplaceKeepsConsistent(s: Store, k: PostId, p: Post)
    requires Consistent(s) && k in s && p.originalPostId == s[k].originalPostId
    requires SchemaValid(p) && NoDup(p.likes) && NoDup(p.reposts)
    requires p.originalPostId.Some? ==> p.likes == [] && p.reposts == []
    ensures Consistent(s[k := p])
  {
    var t := s[k := p];
    assert Flat(t) by {
      forall j | j in t && t[j].originalPostId.Some? && t[j].originalPostId.value in t
        ensures t[t[j].originalPostId.value].originalPostId.None?
      {
        assert t[j].originalPostId == s[j].originalPostId;
      }
    }
    assert RepostsBare(t);
    assert DistinctInteractions(t);
    assert AllSchemaValid(t);
  }

  /** Inserting a post under the fresh id keeps the collection's own guarantees when its reference names an older post. */
  lemma InsertKeepsValid(s: Store, nextId: nat, p: Post)
    requires StoreValid(s, nextId) && p.postId == nextId
    requires p.originalPostId.Some? ==> p.originalPostId.value < nextId
    ensures StoreValid(s[nextId := p], nextId + 1)
  {
  }

  /**
   * Inserting a valid post with no interactions under the fresh id keeps every invariant when it is an
   * original or references a stored original.
   */
  lemma InsertKeepsConsistent(s: Store, nextId: nat, p: Post)
    requires StoreValid(s, nextId) && Consistent(s) && p.likes == [] && p.reposts == [] && SchemaValid(p)
    requires p.originalPostId.Some? ==> p.originalPostId.value in s && s[p.originalPostId.value].originalPostId.None?
    ensures Consistent(s[nextId := p])
  {
    var t := s[nextId := p];
    assert nextId !in s;
    assert Flat(t) by {
      forall j | j in t && t[j].originalPostId.Some? && t[j].originalPostId.value in t
        ensures t[t[j].originalPostId.value].originalPostId.None?
      {
        if j != nextId {
          assert t[j] == s[j];
          assert t[j].originalPostId.value != nextId;
        }
      }
    }
    assert RepostsBare(t);
    assert DistinctInteractions(t);
    assert AllSchemaValid(t);
  }

  /** Removing a repost record keeps every invariant: nothing references a repost in a flat collection. */
  lemma RemoveKeepsConsistent(s: Store, nextId: nat, e: PostId)
    requires StoreValid(s, nextId) && Consistent(s)
    requires e in s ==> s[e].originalPostId.Some?
    ensures StoreValid(s - {e}, nextId) && Consistent(s - {e})
  {
    var t := s - {e};
    assert NoDangling(t) by {
      forall k | k in t && t[k].originalPostId.Some?
        ensures t[k].originalPostId.value in t
      {
        assert s[s[k].originalPostId.value].originalPostId.None?;
      }
    }
  }

  /**
   * `createPost`: too-short text fails first, then a missing book name or user; otherwise exactly one post is
   * added under the fresh id, an original with no likes or reposts, and nothing else changes.
   */
  lemma CreatePostContract(s: Store, nextId: nat, author: Option<UserId>, bookName: string, contentText: string, now: nat)
    requires StoreValid(s, nextId)
    ensures var st := CreatePostStep(s, nextId, author, bookName, contentText, now);
      && (JsLength(contentText) < MinContentLength ==> st.result == Failure(ContentTooShort))
      && (JsLength(contentText) >= MinContentLength && (bookName == [] || author.None?) ==> st.result == Failure(MissingBookOrUser))
      && (st.result.Failure? ==> st.posts == s && st.nextId == nextId)
      && (st.result.Success? ==>
            var p := st.result.value;
            && nextId !in s && st.posts == s[nextId := p] && st.nextId == nextId + 1
            && p.postId == nextId && Some(p.userId) == author && !p.IsRepost()
            && p.likes == [] && p.reposts == [] && SchemaValid(p))
      && StoreValid(st.posts, st.nextId)
  {
    if JsLength(contentText) >= MinContentLength && bookName != [] && author.Some? {
      var post := NewPost(nextId, author.value, bookName, contentText, None, now);
      if SchemaValid(post) {
        InsertKeepsValid(s, nextId, post);
      }
    }
  }

  /** `createPost` keeps every invariant. */
  lemma CreatePostKeepsConsistent(s: Store, nextId: nat, author: Option<UserId>, bookName: string, contentText: string, now: nat)
    requires StoreValid(s, nextId) && Consistent(s)
    ensures Consistent(CreatePostStep(s, nextId, author, bookName, contentText, now).posts)
  {
    if JsLength(contentText) >= MinContentLength && bookName != [] && author.Some? {
      var post := NewPost(nextId, author.value, bookName, contentText, None, now);
      if SchemaValid(post) {
        InsertKeepsConsistent(s, nextId, post);
      }
    }
  }

  /** The repair `findOriginalPost` makes keeps every invariant. */
  lemma DetachKeepsConsistent(s: Store, o: PostId)
    requires WellFormed(s) && o in s && Consistent(s)
    ensures Consistent(Detach(s, o))
  {
    DetachPreservesFlat(s, o);
  }

  /** The creating branch on a collection where `o` is stored: the record and the original's new `reposts`. */
  lemma AddRepostContract(s: Store, nextId: nat, u: UserId, o: PostId, now: nat)
    requires StoreValid(s, nextId) && o in s
    ensures var st := AddRepostStep(s, nextId, u, o, now);
      var reposts' := if u in s[o].reposts then s[o].reposts else s[o].reposts + [u];
      && nextId !in s && st.nextId == nextId + 1 && st.posts.Keys == s.Keys + {nextId}
      && st.posts[nextId] == NewPost(nextId, u, s[o].bookName, s[o].contentText, Some(o), now)
      && st.posts[o] == s[o].(reposts := reposts')
      && (forall k :: k in s && k != o ==> st.posts[k] == s[k])
      && st.result == Success(RepostOutcome(st.posts[o], Some(st.posts[nextId]), true, |reposts'|, o))
  {
  }

  /** The removing branch on a collection where `o` is stored: the record is gone and the user left the original's `reposts`. */
  lemma RemoveRepostContract(s: Store, nextId: nat, u: UserId, o: PostId, e: PostId)
    requires o in s && e != o
    ensures var st := RemoveRepostStep(s, nextId, u, o, e);
      && st.nextId == nextId && st.posts.Keys == s.Keys - {e}
      && st.posts[o] == s[o].(reposts := Without(s[o].reposts, u))
      && u !in st.posts[o].reposts
      && (forall k :: k in s && k != o && k != e ==> st.posts[k] == s[k])
      && st.result == Success(RepostOutcome(st.posts[o], None, false, |st.posts[o].reposts|, o))
  {
  }

  /** The two branches of `toggleRepost`, taken on the collection as resolution repaired it. */
  lemma ToggleRepostBranches(s: Store, nextId: nat, u: UserId, id: PostId, now: nat)
    requires StoreValid(s, nextId) && id in s
    ensures var o := Resolve(s, id).value.original;
      var s1 := Detach(s, o);
      var found := FindRepost(s1, nextId, u, o);
      && (found.None? ==> o != nextId && ToggleRepostStep(s, nextId, u, id, now) == AddRepostStep(s1, nextId, u, o, now))
      && (found.Some? ==> found.value != o && ToggleRepostStep(s, nextId, u, id, now) == RemoveRepostStep(s1, nextId, u, o, found.value))
  {
    var o := Resolve(s, id).value.original;
    var s1 := Detach(s, o);
    var found := FindRepost(s1, nextId, u, o);
    if found.Some? {
      assert s1[found.value].originalPostId == Some(o);
    }
  }

  /** A repost record of a valid original carries the original's texts unchanged. */
  lemma RepostCopiesTexts(postId: PostId, u: UserId, original: Post, now: nat)
    requires SchemaValid(original)
    ensures var r := NewPost(postId, u, original.bookName, original.contentText, Some(original.postId), now);
      r.bookName == original.bookName && r.contentText == original.contentText && SchemaValid(r)
  {
    NewPostValidity(postId, u, original.bookName, original.contentText, Some(original.postId), now);
  }

  /**
   * What the creating branch of `toggleRepost` leaves, against the collection `s` before resolution repaired
   * original `o`: one record inserted under the fresh id, by the user, referencing `o` and copying its texts,
   * with no interactions; `o` itself (now certainly an original) gains the user in `reposts` only if absent;
   * nothing else changes; the outcome reports the record and the new membership count.
   */
  predicate RepostCreated(s: Store, nextId: nat, u: UserId, o: PostId, st: Step<RepostOutcome>)
    requires o in s
  {
    var reposts' := if u in s[o].reposts then s[o].reposts else s[o].reposts + [u];
    && st.nextId == nextId + 1 && nextId !in s
    && st.posts.Keys == s.Keys + {nextId}
    && var repost := st.posts[nextId];
    && repost.userId == u && repost.originalPostId == Some(o) && st.posts[o].originalPostId.None?
    && repost.bookName == s[o].bookName && repost.contentText == s[o].contentText
    && repost.likes == [] && repost.reposts == []
    && st.posts[o] == s[o].(originalPostId := None, reposts := reposts')
    && (forall k :: k in s && k != o ==> st.posts[k] == s[k])
    && st.result == Success(RepostOutcome(st.posts[o], Some(repost), true, |reposts'|, o))
  }

  /** The creating branch after resolution to `o`, stated against the collection before the repair. */
  lemma AddRepostAfterRepair(s: Store, nextId: nat, u: UserId, o: PostId, now: nat)
    requires StoreValid(s, nextId) && o in s && SchemaValid(s[o])
    ensures RepostCreated(s, nextId, u, o, AddRepostStep(Detach(s, o), nextId, u, o, now))
  {
    var s1 := Detach(s, o);
    DetachPreservesFlat(s, o);
    AddRepostContract(s1, nextId, u, o, now);
    RepostCopiesTexts(nextId, u, s1[o], now);
  }

  /** `toggleRepost` when the user has no repost record of the resolved original creates one (see RepostCreated). */
  lemma ToggleRepostCreates(s: Store, nextId: nat, u: UserId, id: PostId, now: nat)
    requires StoreValid(s, nextId) && id in s
    requires var o := Resolve(s, id).value.original; SchemaValid(s[o]) && FindRepost(Detach(s, o), nextId, u, o).None?
    ensures var o := Resolve(s, id).value.original; RepostCreated(s, nextId, u, o, ToggleRepostStep(s, nextId, u, id, now))
  {
    var o := Resolve(s, id).value.original;
    ToggleRepostBranches(s, nextId, u, id, now);
    AddRepostAfterRepair(s, nextId, u, o, now);
  }

  /**
   * `toggleRepost` when the user has a repost record `e` of the resolved original: that record is deleted, the
   * user leaves the original's `reposts`, and the outcome reports `reposted = false`.
   */
  lemma ToggleRepostRemoves(s: Store, nextId: nat, u: UserId, id: PostId, now: nat)
    requires StoreValid(s, nextId) && id in s
    requires var o := Resolve(s, id).value.original; FindRepost(Detach(s, o), nextId, u, o).Some?
    ensures var o := Resolve(s, id).value.original;
      var e := FindRepost(Detach(s, o), nextId, u, o).value;
      var st := ToggleRepostStep(s, nextId, u, id, now);
      && e in s && e != o && s[e].userId == u && s[e].originalPostId == Some(o)
      && st.nextId == nextId && st.posts.Keys == s.Keys - {e}
      && st.posts[o] == s[o].(originalPostId := None, reposts := Without(s[o].reposts, u))
      && u !in st.posts[o].reposts
      && (forall k :: k in s && k != o && k != e ==> st.posts[k] == s[k])
      && st.result == Success(RepostOutcome(st.posts[o], None, false, |st.posts[o].reposts|, o))
  {
    var o := Resolve(s, id).value.original;
    var s1 := Detach(s, o);
    var e := FindRepost(s1, nextId, u, o).value;
    assert s1[e].originalPostId == Some(o);
    ToggleRepostBranches(s, nextId, u, id, now);
    RemoveRepostContract(s1, nextId, u, o, e);
  }

  /** The creating branch keeps every invariant when `o` is an original. */
  lemma AddRepostKeepsConsistent(s: Store, nextId: nat, u: UserId, o: PostId, now: nat)
    requires StoreValid(s, nextId) && Consistent(s) && o in s && s[o].originalPostId.None?
    ensures var st := AddRepostStep(s, nextId, u, o, now); StoreValid(st.posts, st.nextId) && Consistent(st.posts)
  {
    var repost := NewPost(nextId, u, s[o].bookName, s[o].contentText, Some(o), now);
    NewPostValidity(nextId, u, s[o].bookName, s[o].contentText, Some(o), now);
    assert SchemaValid(s[o]);
    InsertKeepsValid(s, nextId, repost);
    InsertKeepsConsistent(s, nextId, repost);
    var s2 := s[nextId := repost];
    if u !in s[o].reposts {
      var original' := s[o].(reposts := s[o].reposts + [u]);
      assert NoDup(original'.reposts);
      ReplaceKeepsValid(s2, nextId + 1, o, original');
      ReplaceKeepsConsistent(s2, o, original');
    }
  }

  /** The removing branch keeps every invariant. */
  lemma RemoveRepostKeepsConsistent(s: Store, nextId: nat, u: UserId, o: PostId, e: PostId)
    requires StoreValid(s, nextId) && Consistent(s) && o in s && e != o
    requires e in s ==> s[e].originalPostId.Some?
    ensures var st := RemoveRepostStep(s, nextId, u, o, e); StoreValid(st.posts, st.nextId) && Consistent(st.posts)
  {
    RemoveKeepsConsistent(s, nextId, e);
    var s2 := s - {e};
    if u in s[o].reposts {
      var original' := s[o].(reposts := Without(s[o].reposts, u));
      WithoutNoDup(s[o].reposts, u);
      ReplaceKeepsValid(s2, nextId, o, original');
      ReplaceKeepsConsistent(s2, o, original');
    }
  }

  /**
   * `toggleRepost` keeps every invariant: in particular every reference it creates has depth one, and the
   * original, never the repost, gains the user.
   */
  lemma ToggleRepostKeepsConsistent(s: Store, nextId: nat, u: UserId, id: PostId, now: nat)
    requires StoreValid(s, nextId) && Consistent(s)
    ensures var st := ToggleRepostStep(s, nextId, u, id, now);
      StoreValid(st.posts, st.nextId) && Consistent(st.posts)
  {
    if id in s {
      var o := Resolve(s, id).value.original;
      var s1 := Detach(s, o);
      DetachKeepsConsistent(s, o);
      match FindRepost(s1, nextId, u, o)
      case Some(e) =>
        assert s1[e].originalPostId == Some(o);
        RemoveRepostKeepsConsistent(s1, nextId, u, o, e);
      case None =>
        AddRepostKeepsConsistent(s1, nextId, u, o, now);
    }
  }

  /** After the creating branch, the user's first repost record of `o` is the one just created. */
  lemma FindCreatedRepost(s: Store, nextId: nat, u: UserId, o: PostId, now: nat)
    requires StoreValid(s, nextId) && o in s && FindRepost(s, nextId, u, o).None?
    ensures var st := AddRepostStep(s, nextId, u, o, now); FindRepost(st.posts, st.nextId, u, o) == Some(nextId)
  {
    var t := AddRepostStep(s, nextId, u, o, now).posts;
    AddRepostContract(s, nextId, u, o, now);
    var f := (p: Post) => p.userId == u && p.originalPostId == Some(o);
    assert FindRepost(s, nextId, u, o) == FirstKey(s, 0, nextId, f);
    assert FindRepost(t, nextId + 1, u, o) == FirstKey(t, 0, nextId + 1, f);
    assert f(t[nextId]);
    forall k | 0 <= k < nextId && k in t
      ensures !f(t[k])
    {
      assert k in s && (k != o ==> t[k] == s[k]);
    }
  }

  /** After the creating branch on original `o`, the collection is still valid, `o` still an original, and the user's first repost record of `o` the new one. */
  lemma AfterCreate(s: Store, nextId: nat, u: UserId, o: PostId, now: nat)
    requires StoreValid(s, nextId) && o in s && s[o].originalPostId.None? && FindRepost(s, nextId, u, o).None?
    ensures var t := AddRepostStep(s, nextId, u, o, now).posts;
      && StoreValid(t, nextId + 1) && o in t && t[o].originalPostId.None?
      && FindRepost(t, nextId + 1, u, o) == Some(nextId)
  {
    AddRepostContract(s, nextId, u, o, now);
    FindCreatedRepost(s, nextId, u, o, now);
  }

  /** Toggling from an original: no repair, so the branch is chosen on the collection as it is. */
  lemma ToggleOnOriginal(s: Store, nextId: nat, u: UserId, o: PostId, now: nat)
    requires StoreValid(s, nextId) && o in s && s[o].originalPostId.None?
    ensures var found := FindRepost(s, nextId, u, o);
      && (found.None? ==> ToggleRepostStep(s, nextId, u, o, now) == AddRepostStep(s, nextId, u, o, now))
      && (found.Some? ==> ToggleRepostStep(s, nextId, u, o, now) == RemoveRepostStep(s, nextId, u, o, found.value))
  {
    ToggleRepostBranches(s, nextId, u, o, now);
  }

  /** Creating a repost record of `o` and then removing it restores the collection, but for the user filtered out of `o`'s `reposts`. */
  lemma AddThenRemove(s: Store, nextId: nat, u: UserId, o: PostId, now: nat)
    requires StoreValid(s, nextId) && o in s
    ensures var t := AddRepostStep(s, nextId, u, o, now).posts;
      var st := RemoveRepostStep(t, nextId + 1, u, o, nextId);
      var reposts' := Without(s[o].reposts, u);
      && st.posts == s[o := s[o].(reposts := reposts')]
      && st.result == Success(RepostOutcome(s[o].(reposts := reposts'), None, false, |reposts'|, o))
      && (u !in s[o].reposts ==> st.posts == s)
  {
    var repost := NewPost(nextId, u, s[o].bookName, s[o].contentText, Some(o), now);
    var reposts' := Without(s[o].reposts, u);
    assert nextId !in s;
    WithoutAppended(s[o].reposts, u);
    if u in s[o].reposts {
      var t := s[nextId := repost];
      assert AddRepostStep(s, nextId, u, o, now).posts == t;
      assert t - {nextId} == s;
    } else {
      var t := s[nextId := repost][o := s[o].(reposts := s[o].reposts + [u])];
      assert AddRepostStep(s, nextId, u, o, now).posts == t;
      assert t - {nextId} == s[o := s[o].(reposts := s[o].reposts + [u])];
      assert s[o].(reposts := reposts') == s[o];
    }
  }

  /**
   * Toggling a repost of an original twice, starting from no repost record: the second call deletes exactly
   * the record the first created, so the collection is back where it started, except that the user is filtered
   * out of the original's `reposts`. When the user was not listed there to begin with, both the collection and
   * the reported count are restored. (ToggleRepostThroughRepost carries this over to the ids of its reposts.)
   */
  lemma ToggleRepostTwice(s: Store, nextId: nat, u: UserId, o: PostId, now: nat, later: nat)
    requires StoreValid(s, nextId) && o in s && s[o].originalPostId.None? && FindRepost(s, nextId, u, o).None?
    ensures var st1 := ToggleRepostStep(s, nextId, u, o, now);
      && StoreValid(st1.posts, st1.nextId)
      && var st2 := ToggleRepostStep(st1.posts, st1.nextId, u, o, later);
      && var reposts' := Without(s[o].reposts, u);
      && st2.posts == s[o := s[o].(reposts := reposts')]
      && st2.result == Success(RepostOutcome(s[o].(reposts := reposts'), None, false, |reposts'|, o))
      && (u !in s[o].reposts ==> st2.posts == s && st2.result.value.repostsCount == |s[o].reposts|)
  {
    ToggleTwiceSteps(s, nextId, u, o, now, later);
    AddThenRemove(s, nextId, u, o, now);
  }

  /** From no repost record, the first toggle takes the creating branch and the second the removing one, on the record just created. */
  lemma ToggleTwiceSteps(s: Store, nextId: nat, u: UserId, o: PostId, now: nat, later: nat)
    requires StoreValid(s, nextId) && o in s && s[o].originalPostId.None? && FindRepost(s, nextId, u, o).None?
    ensures var st1 := ToggleRepostStep(s, nextId, u, o, now);
      && st1 == AddRepostStep(s, nextId, u, o, now) && st1.nextId == nextId + 1
      && StoreValid(st1.posts, st1.nextId)
      && ToggleRepostStep(st1.posts, st1.nextId, u, o, later) == RemoveRepostStep(st1.posts, nextId + 1, u, o, nextId)
  {
    FirstToggleCreates(s, nextId, u, o, now);
    var st1 := ToggleRepostStep(s, nextId, u, o, now);
    ToggleOnOriginal(st1.posts, st1.nextId, u, o, later);
  }

  /** From no repost record, a toggle on an original creates one, which the user's next lookup finds. */
  lemma FirstToggleCreates(s: Store, nextId: nat, u: UserId, o: PostId, now: nat)
    requires StoreValid(s, nextId) && o in s && s[o].originalPostId.None? && FindRepost(s, nextId, u, o).None?
    ensures var st1 := ToggleRepostStep(s, nextId, u, o, now);
      && st1 == AddRepostStep(s, nextId, u, o, now) && st1.nextId == nextId + 1
      && StoreValid(st1.posts, st1.nextId) && o in st1.posts && st1.posts[o].originalPostId.None?
      && FindRepost(st1.posts, st1.nextId, u, o) == Some(nextId)
  {
    ToggleOnOriginal(s, nextId, u, o, now);
    AfterCreate(s, nextId, u, o, now);
  }

  /** Toggling through a repost's id and through the id it references is the same call. */
  lemma ToggleRepostThroughRepost(s: Store, nextId: nat, u: UserId, r: PostId, o: PostId, now: nat)
    requires StoreValid(s, nextId)
    requires r in s && s[r].originalPostId == Some(o) && o in s
    ensures ToggleRepostStep(s, nextId, u, r, now) == ToggleRepostStep(s, nextId, u, o, now)
  {
    ResolveThroughRepost(s, r, o);
  }

  /**
   * The like toggle twice: exactly the same list when the user had not liked; on a list without duplicates,
   * the same members, the same count, and no duplicates.
   */
  lemma {:induction false} ToggledLikesTwice(likes: seq<UserId>, u: UserId)
    ensures var twice := ToggledLikes(ToggledLikes(likes, u), u);
      && (u !in likes ==> twice == likes)
      && (NoDup(likes) ==> Elems(twice) == Elems(likes) && |twice| == |likes| && NoDup(twice))
  {
    if u !in likes {
      WithoutAppended(likes, u);
    } else {
      var w := Without(likes, u);
      if NoDup(likes) {
        WithoutNoDup(likes, u);
      }
      assert ToggledLikes(likes, u) == w;
      assert ToggledLikes(w, u) == w + [u];
      assert Elems(w + [u]) == Elems(likes);
    }
  }

  /** The like toggle on a stored original: only its `likes` change, and only in the user's membership. */
  lemma ToggleLikeContract(s: Store, nextId: nat, o: PostId, u: UserId)
    requires o in s
    ensures var st := ToggleLikeStep(s, nextId, o, u);
      && st.posts.Keys == s.Keys && st.nextId == nextId
      && (u in st.posts[o].likes <==> u !in s[o].likes)
      && (forall v :: v != u ==> (v in st.posts[o].likes <==> v in s[o].likes))
      && st.posts[o] == s[o].(likes := st.posts[o].likes)
      && (forall k :: k in s && k != o ==> st.posts[k] == s[k])
      && st.result == Success(LikeOutcome(st.posts[o], u in st.posts[o].likes, |st.posts[o].likes|, o))
  {
  }

  /** `likePost` on a missing post fails; otherwise only the resolved original's `likes` flips membership of the user, and the outcome reports the new membership and count. */
  lemma LikeContract(s: Store, nextId: nat, id: PostId, u: UserId)
    requires StoreValid(s, nextId)
    ensures var st := LikeStep(s, nextId, id, u);
      && (id !in s ==> st == Step(s, nextId, Failure(PostNotFound)))
      && (id in s ==>
            var o := Resolve(s, id).value.original;
            && st.posts.Keys == s.Keys && st.nextId == nextId
            && (u in st.posts[o].likes <==> u !in s[o].likes)
            && (forall v :: v != u ==> (v in st.posts[o].likes <==> v in s[o].likes))
            && st.posts[o] == s[o].(originalPostId := None, likes := st.posts[o].likes)
            && (forall k :: k in s && k != o ==> st.posts[k] == s[k])
            && st.result == Success(LikeOutcome(st.posts[o], u in st.posts[o].likes, |st.posts[o].likes|, o)))
  {
    if id in s {
      var o := Resolve(s, id).value.original;
      ToggleLikeContract(Detach(s, o), nextId, o, u);
    }
  }

  /** Liking through a repost's id and through its original's id is the same call. */
  lemma LikeThroughRepost(s: Store, nextId: nat, r: PostId, o: PostId, u: UserId)
    requires StoreValid(s, nextId)
    requires r in s && s[r].originalPostId == Some(o) && o in s
    ensures LikeStep(s, nextId, r, u) == LikeStep(s, nextId, o, u)
  {
    ResolveThroughRepost(s, r, o);
  }

  /**
   * When toggling twice gives back the very same list: on a list without duplicates, exactly when the user had
   * not liked, or was the last to like (the filter drops the user and the push puts the user back at the end).
   */
  lemma ToggledLikesTwiceRestores(likes: seq<UserId>, u: UserId)
    ensures NoDup(likes) ==>
      (ToggledLikes(ToggledLikes(likes, u), u) == likes <==> u !in likes || likes[|likes| - 1] == u)
  {
    if u !in likes {
      WithoutAppended(likes, u);
    } else if NoDup(likes) {
      var w := Without(likes, u);
      assert ToggledLikes(likes, u) == w && u !in w;
      var twice := w + [u];
      assert ToggledLikes(w, u) == twice;
      assert twice[|twice| - 1] == u;
      if likes[|likes| - 1] == u {
        var pre := likes[..|likes| - 1];
        assert likes == pre + [u];
        assert u !in pre by {
          forall i | 0 <= i < |pre|
            ensures pre[i] != u
          {
            assert pre[i] == likes[i];
          }
        }
        WithoutAppended(pre, u);
      }
    }
  }

  /**
   * Liking an original twice with the same arguments: its `likes` is toggled twice, nothing else changes, and
   * the second outcome reports the original membership, and the original count when `likes` has no duplicates
   * (which `DistinctInteractions` guarantees). LikeThroughRepost carries this over to the ids of reposts whose
   * original is stored.
   */
  lemma LikeTwice(s: Store, nextId: nat, o: PostId, u: UserId)
    requires StoreValid(s, nextId) && o in s && s[o].originalPostId.None?
    ensures var st2 := LikeStep(LikeStep(s, nextId, o, u).posts, nextId, o, u);
      var likes := s[o].likes;
      && st2.posts == s[o := s[o].(likes := ToggledLikes(ToggledLikes(likes, u), u))]
      && (u !in likes ==> st2.posts == s)
      && st2.result.Success? && (st2.result.value.liked <==> u in likes)
      && (NoDup(likes) ==> st2.result.value.likesCount == |likes|)
  {
    assert LikeStep(s, nextId, o, u) == ToggleLikeStep(s, nextId, o, u);
    var t := ToggleLikeStep(s, nextId, o, u).posts;
    ToggleLikeContract(s, nextId, o, u);
    assert LikeStep(t, nextId, o, u) == ToggleLikeStep(t, nextId, o, u);
    ToggleLikeContract(t, nextId, o, u);
    ToggledLikesTwice(s[o].likes, u);
    if u !in s[o].likes {
      assert s[o] == s[o].(likes := s[o].likes);
    }
  }

  /** The like toggle keeps every invariant when `o` is an original: likes stay duplicate-free and repost records never gain any. */
  lemma ToggleLikeKeepsConsistent(s: Store, nextId: nat, o: PostId, u: UserId)
    requires StoreValid(s, nextId) && Consistent(s) && o in s && s[o].originalPostId.None?
    ensures var st := ToggleLikeStep(s, nextId, o, u); StoreValid(st.posts, st.nextId) && Consistent(st.posts)
  {
    var original' := s[o].(likes := ToggledLikes(s[o].likes, u));
    if u in s[o].likes {
      WithoutNoDup(s[o].likes, u);
    }
    assert NoDup(original'.likes);
    ReplaceKeepsValid(s, nextId, o, original');
    ReplaceKeepsConsistent(s, o, original');
  }

  /** `likePost` keeps every invariant. */
  lemma LikeKeepsConsistent(s: Store, nextId: nat, id: PostId, u: UserId)
    requires StoreValid(s, nextId) && Consistent(s)
    ensures var st := LikeStep(s, nextId, id, u); StoreValid(st.posts, st.nextId) && Consistent(st.posts)
  {
    if id in s {
      var o := Resolve(s, id).value.original;
      DetachKeepsConsistent(s, o);
      ToggleLikeKeepsConsistent(Detach(s, o), nextId, o, u);
    }
  }

  /**
   * `deletePost`: not-found, then unauthorized for anyone but the author; otherwise the post is removed, each
   * of its direct reposts becomes an original (with no likes or reposts, since repost records carry none), and
   * every other post is unchanged.
   */
  lemma DeleteContract(s: Store, nextId: nat, id: PostId, requester: UserId)
    requires StoreValid(s, nextId) && RepostsBare(s)
    ensures var st := DeleteStep(s, nextId, id, requester);
      && (id !in s ==> st.result == Failure(PostNotFound) && st.posts == s)
      && (id in s && s[id].userId != requester ==> st.result == Failure(Unauthorized) && st.posts == s)
      && (id in s && s[id].userId == requester ==>
            && st.result == Success(true)
            && st.posts.Keys == s.Keys - {id} && |st.posts| == |s| - 1
            && (forall k :: k in st.posts && s[k].originalPostId == Some(id) ==>
                  st.posts[k] == s[k].(originalPostId := None) && st.posts[k].likes == [] && st.posts[k].reposts == [])
            && (forall k :: k in st.posts && s[k].originalPostId != Some(id) ==> st.posts[k] == s[k]))
  {
    if id in s && s[id].userId == requester {
      assert (Unlink(s, id) - {id}).Keys == s.Keys - {id};
    }
  }

  /** `deletePost` keeps every invariant. */
  lemma DeleteKeepsConsistent(s: Store, nextId: nat, id: PostId, requester: UserId)
    requires StoreValid(s, nextId) && Consistent(s)
    ensures var st := DeleteStep(s, nextId, id, requester); StoreValid(st.posts, st.nextId) && Consistent(st.posts)
  {
    UnlinkKeepsValid(s, nextId, id);
    UnlinkKeepsNoDangling(s, id);
  }

  /** Deleting a post clears every reference to it, so no reference is left dangling. */
  lemma UnlinkKeepsNoDangling(s: Store, id: PostId)
    requires NoDangling(s)
    ensures NoDangling(Unlink(s, id) - {id})
  {
  }

  /**
   * Deleting a repost record leaves its author in the original's `reposts`: membership there and the existence
   * of a repost record agree across `toggleRepost`, but not across `deletePost`.
   */
  lemma DeleteRepostKeepsMembership(s: Store, nextId: nat, r: PostId, o: PostId)
    requires StoreValid(s, nextId)
    requires r in s && s[r].originalPostId == Some(o) && o in s
    ensures var st := DeleteStep(s, nextId, r, s[r].userId);
      st.result == Success(true) && r !in st.posts && o in st.posts && st.posts[o].reposts == s[o].reposts
  {
  }
}
