/** Byte strings and the lexicographic order that Go's bytes.Compare defines on them. */
module Bytes {

  /** An unsigned 8-bit value, as Go's `byte`. */
  newtype byte = x: int | 0 <= x < 256

  type Bytes = seq<byte>

  /** The hash primitive of the tree: a deterministic map from byte strings to
      digests. Writing `a` then `b` into a reset hasher and taking the sum is
      `H(a + b)`. */
  type Hash = Bytes -> Bytes

  /** bytes.Compare: -1 when `a` sorts first, +1 when `b` does, 0 when they are
      equal; bytes are compared unsigned, and a proper prefix sorts first. */
  function Compare(a: Bytes, b: Bytes): (c: int)
    ensures -1 <= c <= 1
    ensures c == 0 <==> a == b
    ensures a != [] && b != [] && a[0] < b[0] ==> c == -1
    ensures a == [] && b != [] ==> c == -1
  {
    if a == [] then (if b == [] then 0 else -1)
    else if b == [] then 1
    else if a[0] < b[0] then -1
    else if b[0] < a[0] then 1
    else Compare(a[1..], b[1..])
  }

  /** After a common prefix, the first differing byte decides the order. */
  lemma {:induction false} FirstDifferenceDecides(a: Bytes, b: Bytes, k: nat)
    requires k < |a| && k < |b| && a[..k] == b[..k] && a[k] < b[k]
    ensures Compare(a, b) == -1
  {
    if k > 0 {
      assert a[0] == a[..k][0] == b[..k][0] == b[0];
      assert a[1..][..k - 1] == a[..k][1..] == b[..k][1..] == b[1..][..k - 1];
      FirstDifferenceDecides(a[1..], b[1..], k - 1);
    }
  }

  /** A proper prefix sorts before the longer string. */
  lemma {:induction false} ProperPrefixFirst(a: Bytes, b: Bytes)
    requires |a| < |b| && a == b[..|a|]
    ensures Compare(a, b) == -1
  {
    if a != [] {
      assert a[0] == b[0];
      assert a[1..] == b[1..][..|a| - 1];
      ProperPrefixFirst(a[1..], b[1..]);
    }
  }

  /** The strict order `bytes.Compare(a, b) == -1` used to sort the leaves. */
  predicate Less(a: Bytes, b: Bytes) {
    Compare(a, b) == -1
  }

  /** Swapping the arguments of Compare negates the answer. */
  lemma {:induction false} CompareFlip(a: Bytes, b: Bytes)
    ensures Compare(b, a) == -Compare(a, b)
  {
    if a != [] && b != [] && a[0] == b[0] {
      CompareFlip(a[1..], b[1..]);
    }
  }

  /** The lexicographic order is transitive. */
  lemma {:induction false} LessTransitive(a: Bytes, b: Bytes, c: Bytes)
    requires Less(a, b) && Less(b, c)
    ensures Less(a, c)
  {
    if a != [] && b != [] && c != [] && a[0] == b[0] && b[0] == c[0] {
      LessTransitive(a[1..], b[1..], c[1..]);
    }
  }

  /** Any two different byte strings are ordered one way or the other. */
  lemma LessTotal(a: Bytes, b: Bytes)
    ensures a == b || Less(a, b) || Less(b, a)
    ensures !(Less(a, b) && Less(b, a))
  {
    CompareFlip(a, b);
  }

  /** "Not smaller" is transitive too, so Less is a strict weak order. */
  lemma NotLessTransitive(a: Bytes, b: Bytes, c: Bytes)
    requires !Less(a, b) && !Less(b, c)
    ensures !Less(a, c)
  {
    LessTotal(a, b);
    LessTotal(b, c);
    LessTotal(a, c);
    if Less(a, c) {
      if a == b {
      } else if b == c {
      } else {
        LessTransitive(c, b, a);
      }
    }
  }
}
