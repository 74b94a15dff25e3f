/** The sorting that the tree relies on (Go's sort.Slice), as a sorted
    permutation under a caller-chosen strict order, plus the facts about sorted
    permutations that the tree's properties need. */
module Sorting {

  /** `less` is asymmetric and "not less" is transitive: what sort.Slice needs
      of its comparison for its result to be sorted. */
  ghost predicate StrictWeakOrder<T(!new)>(less: (T, T) -> bool) {
    && (forall a, b :: less(a, b) ==> !less(b, a))
    && (forall a, b, c :: !less(a, b) && !less(b, c) ==> !less(a, c))
  }

  /** No element is smaller than one that comes before it. */
  predicate SortedBy<T>(s: seq<T>, less: (T, T) -> bool) {
    forall i, j :: 0 <= i < j < |s| ==> !less(s[j], s[i])
  }

  /** Inserts `x` into a sorted sequence after every element smaller than it. */
  function Insert<T(!new)>(x: T, s: seq<T>, less: (T, T) -> bool): (r: seq<T>)
    requires StrictWeakOrder(less) && SortedBy(s, less)
    ensures SortedBy(r, less)
    ensures multiset(r) == multiset(s) + multiset{x}
  {
    if s == [] then [x]
    else if less(s[0], x) then
      var rest := Insert(x, s[1..], less);
      InsertAfterHead(x, s, rest, less);
      [s[0]] + rest
    else
      assert forall j :: 0 <= j < |s| ==> !less(s[j], s[0]);
      [x] + s
  }

  /** Putting the head of a sorted `s` in front of a sorted permutation of
      its tail and a larger `x` keeps the result sorted. */
  lemma InsertAfterHead<T(!new)>(x: T, s: seq<T>, rest: seq<T>, less: (T, T) -> bool)
    requires StrictWeakOrder(less) && SortedBy(s, less) && s != [] && less(s[0], x)
    requires SortedBy(rest, less) && multiset(rest) == multiset(s[1..]) + multiset{x}
    ensures SortedBy([s[0]] + rest, less)
    ensures multiset([s[0]] + rest) == multiset(s) + multiset{x}
  {
    assert s == [s[0]] + s[1..];
    forall j | 0 <= j < |rest| ensures !less(rest[j], s[0]) {
      assert rest[j] in multiset(rest);
      if rest[j] != x {
        assert rest[j] in multiset(s[1..]);
        var k :| 0 <= k < |s[1..]| && s[1..][k] == rest[j];
        assert s[k + 1] == rest[j];
      }
    }
  }

  /** The model of sort.Slice: a sorted permutation of `s`. Where `less`
      leaves two elements unordered, this sort keeps their input order. */
  function SortBy<T(!new)>(s: seq<T>, less: (T, T) -> bool): (r: seq<T>)
    requires StrictWeakOrder(less)
    ensures SortedBy(r, less)
    ensures multiset(r) == multiset(s) && |r| == |s|
  {
    if s == [] then []
    else
      assert s == [s[0]] + s[1..];
      Insert(s[0], SortBy(s[1..], less), less)
  }

  /** `less` orders any two different elements of `s` one way or the other. */
  ghost predicate Separates<T>(s: seq<T>, less: (T, T) -> bool) {
    forall a, b :: a in s && b in s && a != b ==> less(a, b) || less(b, a)
  }

  /** Removing the element at `k` removes one copy of it from the multiset. */
  lemma MultisetRemove<T>(t: seq<T>, k: int)
    requires 0 <= k < |t|
    ensures multiset(t[..k] + t[k + 1..]) == multiset(t) - multiset{t[k]}
  {
    assert t == t[..k] + [t[k]] + t[k + 1..];
    assert multiset(t) == multiset(t[..k]) + multiset{t[k]} + multiset(t[k + 1..]);
  }

  /** Two sorted permutations of each other start with the same element, as
      long as the order separates any two different elements of them. */
  lemma SortedSameHead<T>(s: seq<T>, t: seq<T>, less: (T, T) -> bool)
    requires s != [] && SortedBy(s, less) && SortedBy(t, less)
    requires multiset(s) == multiset(t)
    requires Separates(s, less)
    ensures t != [] && s[0] == t[0]
  {
    assert s[0] in multiset(t);
    var k :| 0 <= k < |t| && t[k] == s[0];
    assert t[0] in multiset(s);
    var m :| 0 <= m < |s| && s[m] == t[0];
  }

  /** Dropping a common first element keeps two sorted permutations sorted
      permutations of each other. */
  lemma SortedTails<T>(s: seq<T>, t: seq<T>, less: (T, T) -> bool)
    requires s != [] && t != [] && s[0] == t[0]
    requires SortedBy(s, less) && SortedBy(t, less)
    requires multiset(s) == multiset(t)
    requires Separates(s, less)
    ensures SortedBy(s[1..], less) && SortedBy(t[1..], less)
    ensures multiset(s[1..]) == multiset(t[1..])
    ensures Separates(s[1..], less)
  {
    assert multiset(s[1..]) == multiset(t[1..]) by {
      MultisetRemove(s, 0);
      MultisetRemove(t, 0);
      assert s[..0] + s[1..] == s[1..] && t[..0] + t[1..] == t[1..];
    }
    forall a, b | a in s[1..] && b in s[1..] && a != b ensures less(a, b) || less(b, a) {
      assert s == [s[0]] + s[1..];
      assert a in s && b in s;
    }
  }

  /** Two sequences sorted by the same order and holding the same elements are
      equal, as long as the order separates any two different elements of them. */
  lemma {:induction false} SortedUnique<T>(s: seq<T>, t: seq<T>, less: (T, T) -> bool)
    requires SortedBy(s, less) && SortedBy(t, less)
    requires multiset(s) == multiset(t)
    requires Separates(s, less)
    ensures s == t
  {
    if s == [] {
      assert |t| == |multiset(t)| == 0;
    } else {
      SortedSameHead(s, t, less);
      SortedTails(s, t, less);
      SortedUnique(s[1..], t[1..], less);
      assert s == [s[0]] + s[1..] && t == [t[0]] + t[1..];
    }
  }

  /** No element occurs twice. */
  ghost predicate Distinct<T>(s: seq<T>) {
    forall i, j :: 0 <= i < j < |s| ==> s[i] != s[j]
  }

  /** In a sequence without repetitions every element occurs at most once. */
  lemma {:induction false} DistinctCount<T>(s: seq<T>, x: T)
    requires Distinct(s)
    ensures multiset(s)[x] <= 1
    ensures x in s ==> multiset(s)[x] == 1
  {
    if s != [] {
      assert s == [s[0]] + s[1..];
      assert Distinct(s[1..]);
      DistinctCount(s[1..], x);
      if s[0] == x {
        assert x !in s[1..];
      }
    }
  }

  /** `f` applied to every element, in order. */
  function Map<A, B>(f: A -> B, s: seq<A>): (r: seq<B>)
    ensures |r| == |s|
    ensures forall i :: 0 <= i < |s| ==> r[i] == f(s[i])
  {
    seq(|s|, i requires 0 <= i < |s| => f(s[i]))
  }

  /** Taking the element at `k` out of a sequence takes its image out of the
      multiset of images. */
  lemma MapRemove<A, B>(f: A -> B, t: seq<A>, k: int)
    requires 0 <= k < |t|
    ensures multiset(Map(f, t)) == multiset(Map(f, t[..k] + t[k + 1..])) + multiset{f(t[k])}
  {
    assert Map(f, t) == Map(f, t[..k]) + [f(t[k])] + Map(f, t[k + 1..]);
    assert Map(f, t[..k] + t[k + 1..]) == Map(f, t[..k]) + Map(f, t[k + 1..]);
  }

  /** Matching the first element of `s` with element `k` of `t` reduces the
      claim to the rest of both. */
  lemma MapPermutationStep<A, B>(f: A -> B, s: seq<A>, t: seq<A>, k: int)
    requires s != [] && 0 <= k < |t| && t[k] == s[0]
    requires multiset(Map(f, s[1..])) == multiset(Map(f, t[..k] + t[k + 1..]))
    ensures multiset(Map(f, s)) == multiset(Map(f, t))
  {
    MapRemove(f, t, k);
    assert Map(f, s) == [f(s[0])] + Map(f, s[1..]);
  }

  /** Permuting a sequence permutes the sequence of its images. */
  lemma {:induction false} MapPermutation<A, B>(f: A -> B, s: seq<A>, t: seq<A>)
    requires multiset(s) == multiset(t)
    ensures multiset(Map(f, s)) == multiset(Map(f, t))
  {
    if s == [] {
      assert |t| == |multiset(t)| == 0;
      assert Map(f, t) == [];
    } else {
      assert s[0] in multiset(t);
      var k :| 0 <= k < |t| && t[k] == s[0];
      assert multiset(s[1..]) == multiset(t[..k] + t[k + 1..]) by {
        MultisetRemove(t, k);
        assert s == [s[0]] + s[1..];
      }
      MapPermutation(f, s[1..], t[..k] + t[k + 1..]);
      MapPermutationStep(f, s, t, k);
    }
  }
}
