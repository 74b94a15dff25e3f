/** The merkle tree (Tree): its hash, its merkle rows and its leaves, with the
    accessors, the lookups, the verifier and the two mutators that rebuild it. */
module Merkle {
  import opened Bytes
  import opened Sorting
  import opened Planner
  import opened TreeLeaves
  import opened Builder
  import opened Paths

  datatype Option<T> = None | Some(value: T)

  /** The package's two errors. */
  datatype MerkleError = ErrHashUnavailable | ErrNoData

  class Tree {
    const hash: Hash
    /** The merkle rows, row 0 holding the root. */
    var mns: seq<seq<Bytes>>
    /** The leaves, in datum order. */
    var tls: seq<Leaf>

    /** What every constructor and mutator keeps: digests are the hashes of
        their data, the leaves are sorted by datum and numbered 0 .. n - 1,
        and the rows are the ones constructMerkleNodes builds on them. */
    ghost predicate Valid()
      reads this
    {
      && DigestsMatch(hash, tls)
      && SortedBy(tls, DatumLess)
      && IdsArePositions(tls)
      && mns == BuildNodes(hash, tls)
    }

    /** The composite literal NewTree returns. */
    constructor (hash: Hash, mns: seq<seq<Bytes>>, tls: seq<Leaf>)
      ensures this.hash == hash && this.mns == mns && this.tls == tls
    {
      this.hash := hash;
      this.mns := mns;
      this.tls := tls;
    }

    /** Height: the merkle rows plus the leaf row; one more than the number of
        halvings the planner makes. */
    function Height(): (h: int)
      reads this
      ensures h >= 1
      ensures Valid() ==> h == |RowSizes(|tls|)| + 1
    {
      |mns| + 1
    }

    /** The height is logarithmic: the least h with 2^(h-1) >= number of leaves. */
    lemma HeightIsLogarithmic()
      requires Valid() && |tls| >= 1
      ensures Pow2(Height() - 1) >= NumLeaves()
      ensures Height() > 1 ==> Pow2(Height() - 2) < NumLeaves()
    {
      RowCount(|tls|);
    }

    /** NumLeaves: one leaf per stored datum, duplicates included. */
    function NumLeaves(): (n: int)
      reads this
      ensures n == |multiset(Data(tls))|
    {
      |tls|
    }

    /** MerkleSize: sums the row lengths in a loop; on a valid tree this is
        the planner's node count. */
    method MerkleSize() returns (merkleSize: int)
      ensures merkleSize == TotalNodes(mns)
      ensures Valid() ==> merkleSize == Sum(RowSizes(|tls|))
    {
      merkleSize := 0;
      var i := 0;
      while i < |mns|
        invariant 0 <= i <= |mns|
        invariant merkleSize == TotalNodes(mns[..i])
      {
        assert mns[..i + 1][..i] == mns[..i];
        merkleSize := merkleSize + |mns[i]|;
        i := i + 1;
      }
      assert mns[..i] == mns;
      LayersTotal(hash, Digests(tls));
    }

    /** Size: merkle nodes plus leaves. */
    method Size() returns (size: int)
      ensures size == TotalNodes(mns) + |tls|
      ensures Valid() ==> size == Sum(RowSizes(|tls|)) + NumLeaves()
    {
      var merkleSize := MerkleSize();
      size := merkleSize + NumLeaves();
    }

    /** MerkleRoot: the single node of row 0, which on a valid tree is the
        root reached by pairing up the leaf digests. It panics on a tree of
        fewer than two leaves, which has no rows. */
    function MerkleRoot(): (root: Bytes)
      reads this
      requires |mns| >= 1 && |mns[0]| >= 1
      ensures Valid() ==> |tls| >= 2 && root == Root(hash, Digests(tls))
    {
      RowSizesShape(|tls|);
      BuildNodesRoot(hash, tls);
      mns[0][0]
    }

    /** verify: rehashes the leaf's datum, checks it with its neighbour's
        stored digest against its parent, then climbs the rows checking each
        stored node with its neighbour against its stored parent. Stops with
        (false, nil) at the first mismatch; never returns an error. */
    method Verify(currentIndex: nat) returns (ok: bool, err: Option<MerkleError>)
      requires currentIndex < |tls| && Covers(|tls|, mns)
      ensures err == None
      ensures ok == Verifies(hash, tls, mns, currentIndex)
    {
      var currentDigest := hash(tls[currentIndex].datum);
      var last := |mns| - 1;
      var siblingDigest, parentDigest, first, second;
      var parentIndex: nat;
      if currentIndex % 2 == 0 {
        if currentIndex < |tls| - 1 {
          siblingDigest := tls[currentIndex + 1].digest;
        } else {
          siblingDigest := [];
        }
        parentIndex := currentIndex / 2;
        parentDigest := mns[last][parentIndex];
        first, second := currentDigest, siblingDigest;
      } else {
        siblingDigest := tls[currentIndex - 1].digest;
        parentIndex := (currentIndex - 1) / 2;
        parentDigest := mns[last][parentIndex];
        first, second := siblingDigest, currentDigest;
      }
      assert hash(first + second) == Combine(hash, Digests(tls), currentIndex, currentDigest);
      VerifiesUnfold(hash, tls, mns, currentIndex);
      if Compare(parentDigest, hash(first + second)) != 0 {
        return false, None;
      }
      ok := ClimbRows(hash, mns, last, parentIndex);
      return ok, None;
    }

    /** A valid tree with a found leaf has rows above its leaves, and verify
        succeeds there. */
    lemma FoundVerifies(i: nat)
      requires Valid() && i < |tls| && |tls| != 1
      ensures Covers(|tls|, mns) && Verifies(hash, tls, mns, i)
    {
      BuiltTreeVerifies(hash, tls, i);
    }

    /** VerifyDigest: scans the leaves for the first one whose datum (not
        digest) equals the argument and verifies it; with no such leaf it
        reports ErrNoData. On a valid tree it is therefore a membership test
        on the data. Verifying the only leaf of a one-leaf tree panics. */
    method VerifyDigest(digest: Bytes) returns (ok: bool, err: Option<MerkleError>)
      requires Valid()
      requires |tls| == 1 ==> IndexOfDatum(tls, digest) == |tls|
      ensures IndexOfDatum(tls, digest) < |tls| ==>
        Covers(|tls|, mns) && err == None && ok == Verifies(hash, tls, mns, IndexOfDatum(tls, digest))
      ensures digest in Data(tls) ==> ok && err == None
      ensures digest !in Data(tls) ==> !ok && err == Some(ErrNoData)
    {
      PresentIff(tls, digest);
      var leafIndex := 0;
      while leafIndex < |tls|
        invariant 0 <= leafIndex <= |tls|
        invariant forall m :: 0 <= m < leafIndex ==> tls[m].datum != digest
      {
        if Compare(digest, tls[leafIndex].datum) == 0 {
          FoundVerifies(leafIndex);
          ok, err := Verify(leafIndex);
          return;
        }
        leafIndex := leafIndex + 1;
      }
      return false, Some(ErrNoData);
    }

    /** VerifyOrderedID: the same scan by orderedID. On a valid tree the IDs
        are 0 .. n - 1, so it succeeds exactly for the IDs below NumLeaves. */
    method VerifyOrderedID(orderedID: nat) returns (ok: bool, err: Option<MerkleError>)
      requires Valid()
      requires |tls| == 1 ==> IndexOfId(tls, orderedID) == |tls|
      ensures IndexOfId(tls, orderedID) < |tls| ==>
        Covers(|tls|, mns) && err == None && ok == Verifies(hash, tls, mns, IndexOfId(tls, orderedID))
      ensures orderedID < NumLeaves() ==> ok && err == None
      ensures orderedID >= NumLeaves() ==> !ok && err == Some(ErrNoData)
    {
      IdPresentIff(tls, orderedID);
      var leafIndex := 0;
      while leafIndex < |tls|
        invariant 0 <= leafIndex <= |tls|
        invariant forall m :: 0 <= m < leafIndex ==> tls[m].orderedID != orderedID
      {
        if tls[leafIndex].orderedID == orderedID {
          FoundVerifies(leafIndex);
          ok, err := Verify(leafIndex);
          return;
        }
        leafIndex := leafIndex + 1;
      }
      return false, Some(ErrNoData);
    }

    /** VerifySerializedDatum: binary-searches the datum-sorted leaves, and
        verifies the first leaf holding the datum; with none it reports
        ErrNoData. */
    method VerifySerializedDatum(serializedDatum: Bytes) returns (ok: bool, err: Option<MerkleError>)
      requires Valid()
      requires |tls| == 1 ==> IndexOfDatum(tls, serializedDatum) == |tls|
      ensures IndexOfDatum(tls, serializedDatum) < |tls| ==>
        Covers(|tls|, mns) && err == None && ok == Verifies(hash, tls, mns, IndexOfDatum(tls, serializedDatum))
      ensures serializedDatum in Data(tls) ==> ok && err == None
      ensures serializedDatum !in Data(tls) ==> !ok && err == Some(ErrNoData)
    {
      PresentIff(tls, serializedDatum);
      var leafIndex := SearchDatum(tls, serializedDatum);
      SearchFindsFirst(tls, serializedDatum, leafIndex);
      if leafIndex < |tls| && Compare(tls[leafIndex].datum, serializedDatum) == 0 {
        FoundVerifies(leafIndex);
        ok, err := Verify(leafIndex);
        return;
      }
      return false, Some(ErrNoData);
    }

    /** VerifyDatum: a nil datum is ErrNoData; otherwise the serialized
        datum is looked up as by VerifySerializedDatum. */
    method VerifyDatum(datum: Option<Bytes>) returns (ok: bool, err: Option<MerkleError>)
      requires Valid()
      requires datum.Some? && |tls| == 1 ==> IndexOfDatum(tls, datum.value) == |tls|
      ensures datum.None? ==> !ok && err == Some(ErrNoData)
      ensures datum.Some? && datum.value in Data(tls) ==> ok && err == None
      ensures datum.Some? && datum.value !in Data(tls) ==> !ok && err == Some(ErrNoData)
    {
      if datum.None? {
        return false, Some(ErrNoData);
      }
      ok, err := VerifySerializedDatum(datum.value);
    }

    /** Leaves: the data listed by orderedID, i.e. in the order they were
        supplied; the datum of the leaf numbered k is at position k. */
    method Leaves() returns (ret: seq<Bytes>)
      ensures ret == InsertionOrder(tls)
      ensures |ret| == NumLeaves()
      ensures Valid() ==> forall l :: l in tls ==> l.orderedID < |ret| && ret[l.orderedID] == l.datum
    {
      var tls2 := SortById(tls);
      ret := [];
      var i := 0;
      while i < |tls2|
        invariant 0 <= i <= |tls2|
        invariant |ret| == i
        invariant forall k :: 0 <= k < i ==> ret[k] == tls2[k].datum
      {
        ret := ret + [tls2[i].datum];
        i := i + 1;
      }
      assert ret == Data(tls2);
      if Valid() {
        InsertionOrderById(tls);
      }
    }

    /** AppendAndReconstruct: with no data it does nothing; otherwise it
        appends one leaf per datum and rebuilds the rows. The new data are
        listed after the old ones, and the tree stays valid. */
    method AppendAndReconstruct(data: seq<Bytes>)
      requires Valid()
      modifies this
      ensures Valid()
      ensures data == [] ==> tls == old(tls) && mns == old(mns)
      ensures multiset(tls) == multiset(old(tls) + NewLeaves(hash, |old(tls)|, data))
      ensures multiset(Data(tls)) == multiset(Data(old(tls))) + multiset(data)
      ensures InsertionOrder(tls) == InsertionOrder(old(tls)) + data
    {
      ghost var oldTls := tls;
      AppendKeepsLeavesWellFormed(hash, oldTls, data, oldTls + NewLeaves(hash, |oldTls|, data));
      AppendInsertionOrder(hash, oldTls, data, oldTls + NewLeaves(hash, |oldTls|, data));
      if |data| == 0 {
        assert oldTls + NewLeaves(hash, |oldTls|, data) == oldTls;
        return;
      }
      tls := AppendTreeLeaves(hash, tls, data);
      mns := ConstructMerkleNodes(hash, tls);
      AppendKeepsLeavesWellFormed(hash, oldTls, data, tls);
      AppendInsertionOrder(hash, oldTls, data, tls);
    }

    /** DeleteAndReconstruct: with no data it does nothing; otherwise it
        deletes as deleteTreeLeaves does and rebuilds the rows. It panics when
        asked to delete more items than there are leaves. */
    method DeleteAndReconstruct(data: seq<Bytes>)
      requires Valid()
      requires |data| <= |tls|
      modifies this
      ensures Valid()
      ensures data == [] ==> tls == old(tls) && mns == old(mns)
      ensures data != [] ==> tls == DeleteLeaves(old(tls), data)
      ensures |tls| == |old(tls)| - |data|
      ensures InsertionOrder(tls) == InsertionOrder(Survivors(old(tls), data))[..|old(tls)| - |data|]
      ensures Distinct(Data(old(tls))) && Distinct(data) && (forall x :: x in data ==> x in Data(old(tls))) ==>
        multiset(Data(tls)) == multiset(Data(old(tls))) - multiset(data) && forall l :: l in tls ==> l.datum !in data
    {
      if |data| == 0 {
        assert Survivors(tls, data) == tls;
        assert InsertionOrder(tls)[..|tls|] == InsertionOrder(tls);
        return;
      }
      var oldTls := tls;
      var newTls := DeleteTreeLeaves(oldTls, data);
      var newMns := ConstructMerkleNodes(hash, newTls);
      DeleteOutcome(hash, oldTls, data);
      tls, mns := newTls, newMns;
    }
  }

  /** The climb of verify: from node `start` of row `level`, checks each
      stored node with its neighbour against its stored parent, row by row up
      to the root; false at the first mismatch. */
  method ClimbRows(hash: Hash, rows: seq<seq<Bytes>>, level: nat, start: nat) returns (ok: bool)
    requires level < |rows| && start < |rows[level]| && Nested(rows)
    ensures ok == PathOk(hash, rows, level, start)
  {
    ghost var expected := PathOk(hash, rows, level, start);
    var parentIndex: nat := start;
    var parentDigest := rows[level][start];
    var currentLevel := level;
    while currentLevel > 0
      invariant 0 <= currentLevel <= level
      invariant parentIndex < |rows[currentLevel]|
      invariant parentDigest == rows[currentLevel][parentIndex]
      invariant expected == PathOk(hash, rows, currentLevel, parentIndex)
    {
      PathOkStep(hash, rows, currentLevel, parentIndex);
      var index := parentIndex;
      var currentDigest := parentDigest;
      var siblingDigest, first, second;
      if index % 2 == 0 {
        if index < |rows[currentLevel]| - 1 {
          siblingDigest := rows[currentLevel][index + 1];
        } else {
          siblingDigest := [];
        }
        parentIndex := index / 2;
        parentDigest := rows[currentLevel - 1][parentIndex];
        first, second := currentDigest, siblingDigest;
      } else {
        siblingDigest := rows[currentLevel][index - 1];
        parentIndex := (index - 1) / 2;
        parentDigest := rows[currentLevel - 1][parentIndex];
        first, second := siblingDigest, currentDigest;
      }
      assert parentIndex == index / 2 && parentDigest == rows[currentLevel - 1][index / 2];
      assert hash(first + second) == Combine(hash, rows[currentLevel], index, currentDigest);
      if Compare(parentDigest, hash(first + second)) != 0 {
        assert !expected;
        return false;
      }
      currentLevel := currentLevel - 1;
    }
    return true;
  }

  /** NewTree: reports ErrHashUnavailable when the hash is not linked in,
      before looking at the data; then ErrNoData when no data are given;
      otherwise builds a valid tree over one leaf per datum, whose Leaves()
      lists the data in the order given. */
  method NewTree(hash: Hash, available: bool, data: seq<Bytes>) returns (t: Tree?, err: Option<MerkleError>)
    ensures !available ==> t == null && err == Some(ErrHashUnavailable)
    ensures available && data == [] ==> t == null && err == Some(ErrNoData)
    ensures available && data != [] ==>
      && err == None && t != null && fresh(t)
      && t.hash == hash && t.Valid()
      && multiset(t.tls) == multiset(NewLeaves(hash, 0, data))
      && InsertionOrder(t.tls) == data
  {
    if !available {
      return null, Some(ErrHashUnavailable);
    }
    if |data| == 0 {
      return null, Some(ErrNoData);
    }
    var tls := AppendTreeLeaves(hash, [], data);
    var mns := ConstructMerkleNodes(hash, tls);
    AppendKeepsLeavesWellFormed(hash, [], data, tls);
    AppendInsertionOrder(hash, [], data, tls);
    assert InsertionOrder([]) == [];
    t := new Tree(hash, mns, tls);
    err := None;
  }

  /** Appending a batch of data and then deleting the same batch gives back
      the merkle rows, hence the root, of the tree before the append, whatever
      the data (duplicates included). */
  lemma AppendThenDeleteRestoresNodes(H: Hash, s: seq<Leaf>, data: seq<Bytes>, r: seq<Leaf>)
    requires DigestsMatch(H, s) && SortedBy(s, DatumLess) && IdsArePositions(s)
    requires SortedBy(r, DatumLess)
    requires multiset(r) == multiset(s + NewLeaves(H, |s|, data))
    ensures |data| <= |r|
    ensures BuildNodes(H, DeleteLeaves(r, data)) == BuildNodes(H, s)
  {
    AppendKeepsLeavesWellFormed(H, s, data, r);
    DeletePresent(r, data);
    DeleteKeepsDigests(H, r, data);
    NodesDetermined(H, DeleteLeaves(r, data), s);
  }
}
