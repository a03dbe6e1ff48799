/**
 * Repost resolution over the post collection: following `originalPostId` references from any post to the
 * canonical original, as `findOriginalPost` does, and the facts about references the post operations keep.
 */
module Resolution {
  import opened Wrappers
  import opened PostModel

  /** The post collection, keyed by `postId`. */
  type Store = map<PostId, Post>

  /**
   * What the fresh-id supply guarantees: each record is filed under its own id, and a reference names an
   * older post (a repost is always created after the post it refers to). Chains may still occur.
   */
  predicate WellFormed(s: Store) {
    forall k :: k in s ==> s[k].postId == k && (s[k].originalPostId.Some? ==> s[k].originalPostId.value < k)
  }

  /** `o` is reached from `id` by following zero or more references between stored posts. */
  predicate Reaches(s: Store, id: PostId, o: PostId)
    requires WellFormed(s)
    decreases id
  {
    || id == o
    || (&& id in s && s[id].originalPostId.Some? && s[id].originalPostId.value in s
        && Reaches(s, s[id].originalPostId.value, o))
  }

  /** `o` ends a reference chain: a stored post whose reference is null or dangling. */
  predicate ChainEnd(s: Store, o: PostId) {
    o in s && (s[o].originalPostId.None? || s[o].originalPostId.value !in s)
  }

  /** Depth at most one: a reference to a stored post always leads to an original. */
  predicate Flat(s: Store) {
    forall k :: k in s && s[k].originalPostId.Some? && s[k].originalPostId.value in s ==>
      s[s[k].originalPostId.value].originalPostId.None?
  }

  /** Two collections that agree, up to id `bound`, on which ids are stored and on every stored post's reference. */
  ghost predicate SameRefsUpTo(s: Store, t: Store, bound: PostId) {
    forall k: PostId :: k <= bound ==> (k in s <==> k in t) && (k in s ==> s[k].originalPostId == t[k].originalPostId)
  }

  /** `{ originalPost, existingRepost }`, by id: the repost the caller named, when it was not the original itself. */
  datatype Resolution = Resolution(original: PostId, existingRepost: Option<PostId>)

  /**
   * `findOriginalPost(id)`. Fails with not-found exactly for an unknown id. Otherwise the original is the end of
   * the reference chain that starts at `id` (the unique one, see ChainEndUnique), and `existingRepost` is `id`
   * unless `id` is that end.
   */
  function Resolve(s: Store, id: PostId): (r: Result<Resolution, Error>)
    requires WellFormed(s)
    ensures r.Failure? <==> id !in s
    ensures r.Failure? ==> r.error == PostNotFound
    ensures r.Success? ==> r.value.original <= id && r.value.original in s
    ensures r.Success? ==> r.value.existingRepost == if r.value.original == id then None else Some(id)
    ensures id in s && s[id].originalPostId.None? ==> r == Success(Resolution(id, None))
    decreases id
  {
    if id !in s then Failure(PostNotFound)
    else
      match s[id].originalPostId
      case None => Success(Resolution(id, None))
      case Some(oid) =>
        if oid !in s then Success(Resolution(id, None))
        else
          match s[oid].originalPostId
          case None => Success(Resolution(oid, Some(id)))
          case Some(next) =>
            match Resolve(s, next)
            case Success(inner) => Success(Resolution(inner.original, Some(id)))
            case Failure(_) => Success(Resolution(oid, Some(id)))
  }

  /**
   * The collection after resolution: the original's own reference is cleared. This is a no-op unless that
   * reference dangled, so resolution repairs exactly the chain end it returns and changes nothing else.
   */
  function Detach(s: Store, o: PostId): (t: Store)
    requires o in s
    ensures t.Keys == s.Keys && t[o].originalPostId.None?
    ensures forall k :: k in s && k != o ==> t[k] == s[k]
    ensures s[o].originalPostId.None? ==> t == s
  {
    s[o := s[o].(originalPostId := None)]
  }

  /** References only ever lead to smaller ids. */
  lemma {:induction false} ReachesDown(s: Store, id: PostId, o: PostId)
    requires WellFormed(s) && Reaches(s, id, o)
    ensures o <= id
    decreases id
  {
    if id != o {
      ReachesDown(s, s[id].originalPostId.value, o);
    }
  }

  /** A chain has exactly one end: the original behind a post is well defined. */
  lemma {:induction false} ChainEndUnique(s: Store, id: PostId, o1: PostId, o2: PostId)
    requires WellFormed(s)
    requires Reaches(s, id, o1) && ChainEnd(s, o1)
    requires Reaches(s, id, o2) && ChainEnd(s, o2)
    ensures o1 == o2
    decreases id
  {
    if id != o1 && id != o2 {
      ChainEndUnique(s, s[id].originalPostId.value, o1, o2);
    }
  }

  /** Resolving a repost of a stored post gives the same original as resolving that post. */
  lemma {:induction false} ResolveThroughRepost(s: Store, r: PostId, o: PostId)
    requires WellFormed(s)
    requires r in s && s[r].originalPostId == Some(o) && o in s
    ensures Resolve(s, r).Success? && Resolve(s, o).Success?
    ensures Resolve(s, r).value.original == Resolve(s, o).value.original
  {
    var a := Resolve(s, r).value.original;
    var b := Resolve(s, o).value.original;
    ResolveFindsChainEnd(s, r);
    ResolveFindsChainEnd(s, o);
    assert Reaches(s, r, b);
    ChainEndUnique(s, r, a, b);
  }

  /** On a flat collection no recursion happens: a repost resolves to the post it names, anything else to itself. */
  lemma FlatResolvesInOneStep(s: Store, id: PostId)
    requires WellFormed(s) && Flat(s) && id in s
    ensures var p := s[id];
      Resolve(s, id) == if p.originalPostId.Some? && p.originalPostId.value in s
                        then Success(Resolution(p.originalPostId.value, Some(id)))
                        else Success(Resolution(id, None))
  {
  }

  /** A chain from `id` to `o` survives clearing `o`'s own reference. */
  lemma {:induction false} ReachesAfterDetach(s: Store, id: PostId, o: PostId)
    requires WellFormed(s) && o in s && Reaches(s, id, o)
    ensures WellFormed(Detach(s, o)) && Reaches(Detach(s, o), id, o)
    decreases id
  {
    if id != o {
      ReachesAfterDetach(s, s[id].originalPostId.value, o);
    }
  }

  /** Any chain end reached from `id` is the original `Resolve` returns. */
  lemma ResolveReturnsChainEnd(s: Store, id: PostId, o: PostId)
    requires WellFormed(s) && id in s && Reaches(s, id, o) && ChainEnd(s, o)
    ensures Resolve(s, id) == Success(Resolution(o, if o == id then None else Some(id)))
  {
    ResolveFindsChainEnd(s, id);
    ChainEndUnique(s, id, o, Resolve(s, id).value.original);
  }

  /** After the repair, `id` still resolves to the same original, through a chain that is still well formed. */
  lemma ResolveAfterRepair(s: Store, id: PostId)
    requires WellFormed(s) && id in s
    ensures var o := Resolve(s, id).value.original;
      WellFormed(Detach(s, o)) && Resolve(Detach(s, o), id) == Resolve(s, id)
  {
    var o := Resolve(s, id).value.original;
    ResolveFindsChainEnd(s, id);
    ReachesAfterDetach(s, id, o);
    ResolveReturnsChainEnd(Detach(s, o), id, o);
  }

  /** Resolution is idempotent: resolving again after its repair returns the same answer and repairs nothing more. */
  lemma ResolveIdempotent(s: Store, id: PostId)
    requires WellFormed(s) && id in s
    ensures var o := Resolve(s, id).value.original;
      && WellFormed(Detach(s, o))
      && Resolve(Detach(s, o), id) == Resolve(s, id)
      && Detach(Detach(s, o), o) == Detach(s, o)
  {
    ResolveAfterRepair(s, id);
  }

  /**
   * Resolution reads only the ids and references of posts no newer than the one it starts from: never
   * `likes`, `reposts` or the texts, and never a post created later.
   */
  lemma {:induction false} ResolveSameRefs(s: Store, t: Store, id: PostId)
    requires WellFormed(s) && WellFormed(t) && SameRefsUpTo(s, t, id)
    ensures Resolve(s, id) == Resolve(t, id)
    decreases id
  {
    if id in s && s[id].originalPostId.Some? {
      var oid := s[id].originalPostId.value;
      if oid in s && s[oid].originalPostId.Some? {
        ResolveSameRefs(s, t, s[oid].originalPostId.value);
      }
    }
  }

  /** The original `Resolve` returns is reached from `id` and ends its reference chain. */
  lemma {:induction false} ResolveFindsChainEnd(s: Store, id: PostId)
    requires WellFormed(s) && id in s
    ensures Reaches(s, id, Resolve(s, id).value.original) && ChainEnd(s, Resolve(s, id).value.original)
    decreases id
  {
    var oid := s[id].originalPostId;
    if oid.Some? && oid.value in s && s[oid.value].originalPostId.Some? {
      var next := s[oid.value].originalPostId.value;
      if next in s {
        ResolveFindsChainEnd(s, next);
      }
    }
  }

  /** Clearing a reference never lengthens a chain: the repair keeps a flat collection flat and well formed. */
  lemma DetachPreservesFlat(s: Store, o: PostId)
    requires WellFormed(s) && o in s
    ensures WellFormed(Detach(s, o))
    ensures Flat(s) ==> Flat(Detach(s, o))
  {
  }
}
