/** The row-size planner (calculateMerkleNumbers): how many merkle nodes each
    row above the leaves holds, from the row next to the leaves up to the root. */
module Planner {

  /** One halving step. An odd count is rounded up: the leftover child gets a
      parent of its own instead of being paired with a copy of itself. */
  function NextRowSize(n: int): (m: int)
    requires n > 1
    ensures n <= 2 * m <= n + 1
    ensures 1 <= m < n
  {
    if n % 2 == 1 then n / 2 + 1 else n / 2
  }

  /** The row sizes for `n` leaves, leaf-adjacent row first: halve until one
      node is left; no rows at all for fewer than two leaves. */
  function RowSizes(n: int): seq<int>
    decreases n
  {
    if n <= 1 then [] else [NextRowSize(n)] + RowSizes(NextRowSize(n))
  }

  function Sum(s: seq<int>): int {
    if s == [] then 0 else s[0] + Sum(s[1..])
  }

  lemma {:induction false} SumAppend(s: seq<int>, x: int)
    ensures Sum(s + [x]) == Sum(s) + x
  {
    if s != [] {
      assert (s + [x])[1..] == s[1..] + [x];
      SumAppend(s[1..], x);
    }
  }

  function Pow2(k: nat): (p: nat)
    ensures p >= 1
  {
    if k == 0 then 1 else 2 * Pow2(k - 1)
  }

  /** calculateMerkleNumbers: halves the count in a loop, collecting each new
      row size and their total. */
  method CalculateMerkleNumbers(numLeaves: int) returns (numMerkleNodes: int, rowSizes: seq<int>)
    ensures rowSizes == RowSizes(numLeaves)
    ensures numMerkleNodes == Sum(rowSizes)
  {
    var n := numLeaves;
    numMerkleNodes, rowSizes := 0, [];
    while n > 1
      invariant rowSizes + RowSizes(n) == RowSizes(numLeaves)
      invariant numMerkleNodes == Sum(rowSizes)
      decreases n
    {
      if n % 2 == 1 {
        n := n / 2 + 1;
      } else {
        n := n / 2;
      }
      SumAppend(rowSizes, n);
      rowSizes := rowSizes + [n];
      numMerkleNodes := numMerkleNodes + n;
    }
  }

  /** The plan has no rows below two leaves; from two leaves on, the first row
      pairs up the leaves, every further row pairs up the row before it, only
      the last row has a single node, and each row is strictly smaller. */
  lemma {:induction false} RowSizesShape(n: int)
    ensures n <= 1 <==> RowSizes(n) == []
    ensures n > 1 ==> n <= 2 * RowSizes(n)[0] <= n + 1
    ensures n > 1 ==> RowSizes(n)[|RowSizes(n)| - 1] == 1
    ensures forall k :: 0 < k < |RowSizes(n)| ==>
      RowSizes(n)[k - 1] <= 2 * RowSizes(n)[k] <= RowSizes(n)[k - 1] + 1
    ensures forall k :: 0 <= k < |RowSizes(n)| - 1 ==> RowSizes(n)[k] > 1
    ensures forall k :: 0 <= k < |RowSizes(n)| ==> RowSizes(n)[k] >= 1
  {
    if n > 1 {
      var m := NextRowSize(n);
      RowSizesShape(m);
      assert RowSizes(n) == [m] + RowSizes(m);
      if m == 1 {
        assert RowSizes(n) == [1];
      }
    }
  }

  /** The number of rows is the number of halvings that bring `n` down to one:
      the least `h` with 2^h >= n. */
  lemma {:induction false} RowCount(n: int)
    requires n >= 1
    ensures Pow2(|RowSizes(n)|) >= n
    ensures |RowSizes(n)| > 0 ==> Pow2(|RowSizes(n)| - 1) < n
  {
    if n > 1 {
      var m := NextRowSize(n);
      RowCount(m);
      assert |RowSizes(n)| == |RowSizes(m)| + 1;
    }
  }

  /** The case the repository's own test logs: 24 leaves need rows of 12, 6,
      3, 2 and 1 nodes, 24 merkle nodes in all. */
  lemma TwentyFourLeaves()
    ensures RowSizes(24) == [12, 6, 3, 2, 1]
    ensures Sum(RowSizes(24)) == 24
  {
  }
}
