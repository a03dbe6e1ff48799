/** The list and collection primitives the services use: JavaScript array methods and store scans. */
module Collections {
  import opened Wrappers

  /** No element occurs twice. */
  predicate NoDup<T(==)>(s: seq<T>) {
    forall i, j :: 0 <= i < j < |s| ==> s[i] != s[j]
  }

  /** The elements of `s` as a set. */
  function Elems<T(==)>(s: seq<T>): set<T> {
    set x | x in s
  }

  /** A duplicate-free list has as many distinct elements as entries. */
  lemma {:induction false} DistinctCount<T>(s: seq<T>)
    requires NoDup(s)
    ensures |Elems(s)| == |s|
  {
    if s != [] {
      DistinctCount(s[1..]);
      assert Elems(s) == {s[0]} + Elems(s[1..]);
      assert s[0] !in Elems(s[1..]);
    }
  }

  /** `s.filter(y => y !== x)`: every occurrence of `x` dropped, the others kept in order. */
  function Without<T(==,!new)>(s: seq<T>, x: T): (r: seq<T>)
    ensures forall y :: y in r <==> y in s && y != x
    ensures |r| <= |s|
    ensures x !in s ==> r == s
  {
    if s == [] then []
    else
      var rest := Without(s[1..], x);
      assert s == [s[0]] + s[1..];
      if s[0] == x then rest else [s[0]] + rest
  }

  /** The filter removes every occurrence of `x` and keeps every other element as often as before. */
  lemma {:induction false} WithoutMultiset<T(!new)>(s: seq<T>, x: T)
    ensures forall y :: multiset(Without(s, x))[y] == if y == x then 0 else multiset(s)[y]
  {
    if s != [] {
      WithoutMultiset(s[1..], x);
      var rest := Without(s[1..], x);
      var r := Without(s, x);
      assert s == [s[0]] + s[1..];
      assert r == if s[0] == x then rest else [s[0]] + rest;
      forall y
        ensures multiset(r)[y] == if y == x then 0 else multiset(s)[y]
      {
        assert multiset(s)[y] == multiset([s[0]])[y] + multiset(s[1..])[y];
        if s[0] != x {
          assert multiset(r)[y] == multiset([s[0]])[y] + multiset(rest)[y];
        }
      }
    }
  }

  /** A duplicate-free list stays duplicate-free under the filter, and loses exactly one entry when it held `x`. */
  lemma {:induction false} WithoutNoDup<T(!new)>(s: seq<T>, x: T)
    requires NoDup(s)
    ensures NoDup(Without(s, x))
    ensures x in s ==> |Without(s, x)| == |s| - 1
  {
    if s != [] {
      assert s == [s[0]] + s[1..];
      assert NoDup(s[1..]) && s[0] !in s[1..];
      WithoutNoDup(s[1..], x);
      var rest := Without(s[1..], x);
      if s[0] != x {
        var r := [s[0]] + rest;
        assert s[0] !in rest;
        forall i, j | 0 <= i < j < |r|
          ensures r[i] != r[j]
        {
          assert r[j] == rest[j - 1];
          if i > 0 {
            assert r[i] == rest[i - 1];
          }
        }
      }
    }
  }

  /** Appending `x` and then filtering it out is the same as filtering it out. */
  lemma {:induction false} WithoutAppended<T(!new)>(s: seq<T>, x: T)
    ensures Without(s + [x], x) == Without(s, x)
  {
    if s == [] {
      assert [x][1..] == [];
    } else {
      assert (s + [x])[1..] == s[1..] + [x];
      WithoutAppended(s[1..], x);
    }
  }

  /** Filtering distributes over concatenation. */
  lemma {:induction false} WithoutConcat<T(!new)>(a: seq<T>, b: seq<T>, x: T)
    ensures Without(a + b, x) == Without(a, x) + Without(b, x)
  {
    if a == [] {
      assert a + b == b;
    } else {
      assert (a + b)[0] == a[0] && (a + b)[1..] == a[1..] + b;
      WithoutConcat(a[1..], b, x);
      if a[0] == x {
        assert Without(a + b, x) == Without(a[1..] + b, x);
      } else {
        assert Without(a + b, x) == [a[0]] + Without(a[1..] + b, x);
      }
    }
  }

  /** `s.indexOf(x)`: the first position holding `x`, or -1. */
  function IndexOf<T(==)>(s: seq<T>, x: T): (i: int)
    ensures -1 <= i < |s|
    ensures i == -1 <==> x !in s
    ensures 0 <= i ==> s[i] == x && x !in s[..i]
  {
    if s == [] then -1
    else if s[0] == x then 0
    else
      var j := IndexOf(s[1..], x);
      assert s[1..][..if j < 0 then 0 else j] == s[1..if j < 0 then 1 else j + 1];
      if j == -1 then -1 else j + 1
  }

  /** `[...new Set(s)]`: each element of `s` exactly once (the order is not stated). */
  function Dedup<T(==,!new)>(s: seq<T>): (r: seq<T>)
    ensures NoDup(r)
    ensures forall x :: x in r <==> x in s
    ensures |r| <= |s|
  {
    if s == [] then []
    else
      var d := Dedup(s[..|s| - 1]);
      var last := s[|s| - 1];
      assert forall x :: x in s <==> x in s[..|s| - 1] || x == last;
      if last in d then d else d + [last]
  }

  /** `s.filter(keep)`: the entries that pass, in order, each as often as in `s`. */
  function Filter<T(!new)>(s: seq<T>, keep: T -> bool): (r: seq<T>)
    ensures forall x :: x in r <==> x in s && keep(x)
    ensures forall x :: multiset(r)[x] == if keep(x) then multiset(s)[x] else 0
    ensures |r| <= |s|
  {
    if s == [] then []
    else
      var rest := Filter(s[1..], keep);
      assert s == [s[0]] + s[1..];
      if keep(s[0]) then [s[0]] + rest else rest
  }

  /** A collection scanned in natural (insertion, that is ascending id) order: the records filed under ids below `n`. */
  function Listing<T>(m: map<nat, T>, n: nat, key: T -> nat): (r: seq<T>)
    requires forall k :: k in m ==> key(m[k]) == k
    ensures forall x :: x in r ==> key(x) in m && key(x) < n && m[key(x)] == x
    ensures forall k :: k in m && k < n ==> m[k] in r
    ensures forall i, j :: 0 <= i < j < |r| ==> key(r[i]) < key(r[j])
  {
    if n == 0 then []
    else
      var before := Listing(m, n - 1, key);
      if n - 1 in m then before + [m[n - 1]] else before
  }

  /** The keys of `m` below `n`. */
  function KeysBelow<T>(m: map<nat, T>, n: nat): set<nat> {
    set k | k in m && k < n
  }

  /** The listing holds one record per key below `n`. */
  lemma {:induction false} ListingSize<T>(m: map<nat, T>, n: nat, key: T -> nat)
    requires forall k :: k in m ==> key(m[k]) == k
    ensures |Listing(m, n, key)| == |KeysBelow(m, n)|
  {
    if n == 0 {
      assert KeysBelow(m, n) == {};
    } else {
      ListingSize(m, n - 1, key);
      var before := Listing(m, n - 1, key);
      if n - 1 in m {
        assert Listing(m, n, key) == before + [m[n - 1]];
        assert n - 1 !in KeysBelow(m, n - 1);
        assert KeysBelow(m, n) == KeysBelow(m, n - 1) + {n - 1};
      } else {
        assert Listing(m, n, key) == before;
        assert KeysBelow(m, n) == KeysBelow(m, n - 1);
      }
    }
  }

  /** `findOne` on a collection in natural order: the smallest id in [lo, hi) whose record passes `f`. */
  function FirstKey<T>(m: map<nat, T>, lo: nat, hi: nat, f: T -> bool): (r: Option<nat>)
    ensures r.Some? ==> lo <= r.value < hi && r.value in m && f(m[r.value])
    ensures r.Some? ==> forall k :: lo <= k < r.value && k in m ==> !f(m[k])
    ensures r.None? ==> forall k :: lo <= k < hi && k in m ==> !f(m[k])
    decreases hi - lo
  {
    if lo >= hi then None
    else if lo in m && f(m[lo]) then Some(lo)
    else FirstKey(m, lo + 1, hi, f)
  }
}
