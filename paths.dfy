/** What verify checks along the path from one leaf to the root, as a
    specification over the leaves and the stored merkle rows. */
module Paths {
  import opened Bytes
  import opened TreeLeaves
  import opened Builder

  /** The hash verify recomputes for the node at `idx` in `row` when that node
      holds `cur`: an even node is written first, followed by its right
      neighbour or by nothing when it is the last of the row; an odd node is
      written after its left neighbour. Only the neighbours are read from
      `row`. */
  function Combine(H: Hash, row: seq<Bytes>, idx: nat, cur: Bytes): Bytes
    requires idx < |row|
  {
    if idx % 2 == 0 then H(cur + (if idx < |row| - 1 then row[idx + 1] else []))
    else H(row[idx - 1] + cur)
  }

  /** Climbing from node `idx` of row `level` to the root, every stored parent
      equals the hash recomputed from the stored node and its neighbour. */
  ghost predicate PathOk(H: Hash, mns: seq<seq<Bytes>>, level: nat, idx: nat)
    requires level < |mns| && idx < |mns[level]| && Nested(mns)
    decreases level
  {
    level == 0 ||
    assert RowFits(mns, level);
    (mns[level - 1][idx / 2] == Combine(H, mns[level], idx, mns[level][idx])
     && PathOk(H, mns, level - 1, idx / 2))
  }

  /** One step of the climb: the path from node `idx` of row `level` checks
      out when its stored parent equals the recomputed hash and the path from
      that parent checks out. */
  lemma PathOkStep(H: Hash, mns: seq<seq<Bytes>>, level: nat, idx: nat)
    requires 0 < level < |mns| && idx < |mns[level]| && Nested(mns)
    ensures idx / 2 < |mns[level - 1]|
    ensures PathOk(H, mns, level, idx) <==>
      mns[level - 1][idx / 2] == Combine(H, mns[level], idx, mns[level][idx]) && PathOk(H, mns, level - 1, idx / 2)
  {
    assert RowFits(mns, level);
  }

  /** verify(i) holds exactly when its leaf check and its climb both do. */
  lemma VerifiesUnfold(H: Hash, tls: seq<Leaf>, mns: seq<seq<Bytes>>, i: nat)
    requires i < |tls| && Covers(|tls|, mns)
    ensures i / 2 < |mns[|mns| - 1]|
    ensures Verifies(H, tls, mns, i) <==>
      mns[|mns| - 1][i / 2] == Combine(H, Digests(tls), i, H(tls[i].datum))
      && PathOk(H, mns, |mns| - 1, i / 2)
  {
  }

  /** verify(i): the parent of leaf i in the last row equals the hash of the
      leaf's datum combined with its neighbour's stored digest, and the path
      from that parent up to the root checks out. */
  ghost predicate Verifies(H: Hash, tls: seq<Leaf>, mns: seq<seq<Bytes>>, i: nat)
    requires i < |tls| && Covers(|tls|, mns)
  {
    var last := |mns| - 1;
    && mns[last][i / 2] == Combine(H, Digests(tls), i, H(tls[i].datum))
    && PathOk(H, mns, last, i / 2)
  }

  /** Recombining a node with its own stored value gives its parent in the row
      above, as the builder computes it; the empty sibling of a last even node
      gives the same hash as hashing that node alone. */
  lemma CombineParent(H: Hash, row: seq<Bytes>, idx: nat)
    requires 1 < |row| && idx < |row|
    ensures idx / 2 < |ParentRow(H, row)|
    ensures Combine(H, row, idx, row[idx]) == ParentRow(H, row)[idx / 2]
  {
    if idx % 2 == 0 && idx == |row| - 1 {
      assert row[idx] + [] == row[idx];
    }
  }

  /** In rows that pair up, the parent of every node is the hash verify
      recomputes from that node and its neighbour. */
  lemma ParentAt(H: Hash, mns: seq<seq<Bytes>>, level: nat, idx: nat)
    requires 0 < level < |mns| && idx < |mns[level]|
    requires PairsUp(H, mns)
    ensures idx / 2 < |mns[level - 1]|
    ensures mns[level - 1][idx / 2] == Combine(H, mns[level], idx, mns[level][idx])
  {
    assert PairedAt(H, mns, level);
    CombineParent(H, mns[level], idx);
  }

  /** Rows that pair up have every path consistent. */
  lemma {:induction false} PathOkBuilt(H: Hash, mns: seq<seq<Bytes>>, level: nat, idx: nat)
    requires level < |mns| && idx < |mns[level]| && Nested(mns)
    requires PairsUp(H, mns)
    ensures PathOk(H, mns, level, idx)
    decreases level
  {
    if level > 0 {
      PathOkStep(H, mns, level, idx);
      ParentAt(H, mns, level, idx);
      PathOkBuilt(H, mns, level - 1, idx / 2);
    }
  }

  /** With every digest the hash of its datum, the hash verify computes at
      leaf i is the stored parent of leaf i in the built rows. */
  lemma LeafParent(H: Hash, tls: seq<Leaf>, i: nat)
    requires 2 <= |tls| && i < |tls|
    requires DigestsMatch(H, tls)
    ensures var mns := BuildNodes(H, tls);
      && |mns| >= 1 && i / 2 < |mns[|mns| - 1]|
      && Combine(H, Digests(tls), i, H(tls[i].datum)) == mns[|mns| - 1][i / 2]
  {
    BuildNodesPairs(H, tls);
    var D := Digests(tls);
    assert tls[i] in tls;
    assert D[i] == H(tls[i].datum);
    CombineParent(H, D, i);
  }

  /** Soundness: when every leaf's digest is the hash of its datum and the
      rows are the ones constructMerkleNodes builds, verify succeeds at every
      leaf index. */
  lemma BuiltTreeVerifies(H: Hash, tls: seq<Leaf>, i: nat)
    requires 2 <= |tls| && i < |tls|
    requires DigestsMatch(H, tls)
    ensures Covers(|tls|, BuildNodes(H, tls))
    ensures Verifies(H, tls, BuildNodes(H, tls), i)
  {
    var mns := BuildNodes(H, tls);
    VerifiesUnfold(H, tls, mns, i);
    assert mns[|mns| - 1][i / 2] == Combine(H, Digests(tls), i, H(tls[i].datum)) by {
      LeafParent(H, tls, i);
    }
    assert PathOk(H, mns, |mns| - 1, i / 2) by {
      BuildNodesPairs(H, tls);
      PathOkBuilt(H, mns, |mns| - 1, i / 2);
    }
  }

  /** verify never reads the checked leaf's own stored digest: replacing it
      changes nothing. */
  lemma VerifyIgnoresOwnDigest(H: Hash, tls: seq<Leaf>, mns: seq<seq<Bytes>>, i: nat, d: Bytes)
    requires i < |tls| && Covers(|tls|, mns)
    ensures Verifies(H, tls[i := tls[i].(digest := d)], mns, i) == Verifies(H, tls, mns, i)
  {
    var tls' := tls[i := tls[i].(digest := d)];
    assert forall k :: 0 <= k < |tls| && k != i ==> Digests(tls')[k] == Digests(tls)[k];
  }

  /** The index `n` rows above node `idx`. */
  function Ancestor(idx: nat, n: nat): nat
    decreases n
  {
    if n == 0 then idx else Ancestor(idx / 2, n - 1)
  }

  /** The index of the node on leaf i's path in row `level` of a tree with
      `numRows` merkle rows: leaf i's parent is node i/2 of the last row. */
  function PathIndex(numRows: nat, i: nat, level: nat): nat
    requires level < numRows
  {
    Ancestor(i / 2, numRows - 1 - level)
  }

  /** In nested rows the ancestor of a node is a node of the higher row. */
  lemma {:induction false} AncestorInRange(mns: seq<seq<Bytes>>, L: nat, idx: nat, level: nat)
    requires Nested(mns) && level <= L < |mns| && idx < |mns[L]|
    ensures Ancestor(idx, L - level) < |mns[level]|
    decreases L
  {
    if level < L {
      assert RowFits(mns, L);
      AncestorInRange(mns, L - 1, idx / 2, level);
    }
  }

  /** A changed node in a row above `L` on the path from `idx` is caught on
      the way up, where it is compared against the hash of its unchanged
      children. */
  lemma {:induction false} TamperedAbove(H: Hash, mns: seq<seq<Bytes>>, T: seq<seq<Bytes>>, L: nat, idx: nat, level: nat)
    requires PairsUp(H, mns) && Nested(T)
    requires level < L < |mns| == |T| && idx < |mns[L]|
    requires forall k :: 0 <= k < |mns| && k != level ==> T[k] == mns[k]
    requires |T[level]| == |mns[level]| && Ancestor(idx, L - level) < |mns[level]|
    requires T[level][Ancestor(idx, L - level)] != mns[level][Ancestor(idx, L - level)]
    ensures !PathOk(H, T, L, idx)
    decreases L
  {
    assert T[L] == mns[L];
    PathOkStep(H, T, L, idx);
    ParentAt(H, mns, L, idx);
    if L - 1 == level {
      assert Ancestor(idx, L - level) == idx / 2;
    } else {
      assert T[L - 1] == mns[L - 1];
      assert Ancestor(idx, L - level) == Ancestor(idx / 2, L - 1 - level);
      TamperedAbove(H, mns, T, L - 1, idx / 2, level);
    }
  }

  /** Changing one node leaves every row length, hence the coverage of the
      leaves, as it was. */
  lemma TamperedCovers(numLeaves: nat, mns: seq<seq<Bytes>>, level: nat, p: nat, v: Bytes)
    requires Covers(numLeaves, mns) && level < |mns| && p < |mns[level]|
    ensures Covers(numLeaves, mns[level := mns[level][p := v]])
  {
    var T := mns[level := mns[level][p := v]];
    forall l | 0 < l < |T| ensures RowFits(T, l) {
      assert RowFits(mns, l);
    }
  }

  /** Changing node `p` of row `level`, where `p` is on leaf i's path, to a
      different value makes verify(i) fail on rows that pair up and whose
      last row holds the parents verify recomputes from the leaves. */
  lemma TamperedPathFails(H: Hash, tls: seq<Leaf>, mns: seq<seq<Bytes>>, i: nat, level: nat, p: nat, v: Bytes)
    requires i < |tls| && Covers(|tls|, mns) && PairsUp(H, mns)
    requires mns[|mns| - 1][i / 2] == Combine(H, Digests(tls), i, H(tls[i].datum))
    requires level < |mns| && p == PathIndex(|mns|, i, level) && p < |mns[level]| && v != mns[level][p]
    ensures Covers(|tls|, mns[level := mns[level][p := v]])
    ensures !Verifies(H, tls, mns[level := mns[level][p := v]], i)
  {
    var last := |mns| - 1;
    var T := mns[level := mns[level][p := v]];
    TamperedCovers(|tls|, mns, level, p, v);
    VerifiesUnfold(H, tls, T, i);
    if level < last {
      TamperedAbove(H, mns, T, last, i / 2, level);
    } else {
      assert p == i / 2 && T[last][i / 2] == v;
    }
  }

  /** Changing any node on leaf i's path of a built tree, the root included,
      makes verify(i) fail: the changed node no longer equals the hash of its
      children. No property of the hash is needed. */
  lemma TamperedNodeFails(H: Hash, tls: seq<Leaf>, i: nat, level: nat, v: Bytes)
    requires 2 <= |tls| && i < |tls| && DigestsMatch(H, tls)
    requires level < |BuildNodes(H, tls)|
    ensures var mns := BuildNodes(H, tls);
      var p := PathIndex(|mns|, i, level);
      && p < |mns[level]|
      && (v != mns[level][p] ==>
            var T := mns[level := mns[level][p := v]];
            Covers(|tls|, T) && !Verifies(H, tls, T, i))
  {
    var mns := BuildNodes(H, tls);
    var p := PathIndex(|mns|, i, level);
    AncestorInRange(mns, |mns| - 1, i / 2, level);
    if v != mns[level][p] {
      BuildNodesPairs(H, tls);
      LeafParent(H, tls, i);
      TamperedPathFails(H, tls, mns, i, level, p, v);
    }
  }
}
