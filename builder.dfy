/** The merkle node rows above the leaves (constructMerkleNodes): row 0 is the
    root, the last row sits on the leaves. */
module Builder {
  import opened Bytes
  import opened Sorting
  import opened Planner
  import opened TreeLeaves

  /** Node j of the row above `children`: the hash of children 2j and 2j+1,
      or of child 2j alone when it has no right neighbour. */
  function ParentRow(H: Hash, children: seq<Bytes>): (p: seq<Bytes>)
    requires |children| > 1
    ensures |p| == NextRowSize(|children|)
  {
    seq(NextRowSize(|children|), j requires 0 <= j < NextRowSize(|children|) =>
      if 2 * j + 1 < |children| then H(children[2 * j] + children[2 * j + 1])
      else H(children[2 * j]))
  }

  /** All rows above `row`, root row first, row `row` itself excluded. */
  function Layers(H: Hash, row: seq<Bytes>): seq<seq<Bytes>>
    decreases |row|
  {
    if |row| <= 1 then [] else Layers(H, ParentRow(H, row)) + [ParentRow(H, row)]
  }

  /** Row `k - 1` of `rows` is the row above row `k`. */
  predicate PairedAt(H: Hash, rows: seq<seq<Bytes>>, k: nat)
    requires 0 < k < |rows|
  {
    |rows[k]| > 1 && rows[k - 1] == ParentRow(H, rows[k])
  }

  /** Each row of `rows` but the last is the row above the next one. */
  ghost predicate PairsUp(H: Hash, rows: seq<seq<Bytes>>) {
    forall k :: 0 < k < |rows| ==> PairedAt(H, rows, k)
  }

  /** Row `l` of `mns` is at most twice as long as row `l - 1`: the parent
      index of each of its nodes is in range. */
  predicate RowFits(mns: seq<seq<Bytes>>, l: nat)
    requires 0 < l < |mns|
  {
    |mns[l]| <= 2 * |mns[l - 1]|
  }

  /** Every row but the first fits under the row above it. */
  ghost predicate Nested(mns: seq<seq<Bytes>>) {
    forall l :: 0 < l < |mns| ==> RowFits(mns, l)
  }

  /** There is a row above the leaves, at least half as long as the leaf
      count, and the rows nest: every index verify computes from a leaf index
      is then in range. */
  ghost predicate Covers(numLeaves: nat, mns: seq<seq<Bytes>>) {
    && |mns| >= 1
    && numLeaves <= 2 * |mns[|mns| - 1]|
    && Nested(mns)
  }

  /** The rows constructMerkleNodes builds above `tls`. */
  function BuildNodes(H: Hash, tls: seq<Leaf>): (mns: seq<seq<Bytes>>)
    ensures |mns| == |RowSizes(|tls|)|
    ensures |tls| >= 2 ==> Covers(|tls|, mns)
  {
    LayersShape(H, Digests(tls));
    PairsUpNested(H, Layers(H, Digests(tls)));
    Layers(H, Digests(tls))
  }

  /** Rows that pair up also nest. */
  lemma PairsUpNested(H: Hash, rows: seq<seq<Bytes>>)
    requires PairsUp(H, rows)
    ensures Nested(rows)
  {
    forall l | 0 < l < |rows| ensures RowFits(rows, l) {
      assert PairedAt(H, rows, l);
    }
  }

  /** The rows above `row` follow the plan for |row| leaves (in reverse, root
      first), the root row has one node, the last row pairs up `row`, and
      every other row pairs up the row below it. */
  lemma {:induction false} LayersShape(H: Hash, row: seq<Bytes>)
    ensures var R := Layers(H, row);
      && |R| == |RowSizes(|row|)|
      && (forall k :: 0 <= k < |R| ==> |R[k]| == RowSizes(|row|)[|R| - 1 - k])
      && (|R| > 0 ==> |row| > 1 && R[|R| - 1] == ParentRow(H, row))
      && (|R| > 0 ==> |R[0]| == 1)
      && PairsUp(H, R)
    decreases |row|
  {
    if |row| > 1 {
      var P := ParentRow(H, row);
      LayersShape(H, P);
      var R, RP := Layers(H, row), Layers(H, P);
      assert R == RP + [P];
      assert RowSizes(|row|) == [|P|] + RowSizes(|P|);
      forall k | 0 <= k < |R| ensures |R[k]| == RowSizes(|row|)[|R| - 1 - k] {
        if k < |RP| {
          assert R[k] == RP[k];
        }
      }
      if |RP| == 0 {
        RowSizesShape(|P|);
      }
      forall k | 0 < k < |R| ensures PairedAt(H, R, k) {
        if k < |RP| {
          assert PairedAt(H, RP, k);
          assert R[k - 1] == RP[k - 1] && R[k] == RP[k];
        }
      }
    }
  }

  /** The sizes of the built rows for two or more leaves: as many rows as
      the plan (leaf-adjacent row sized first), row 0 a single root, the last
      row ceil(L/2) nodes. */
  lemma BuildNodesShape(H: Hash, tls: seq<Leaf>)
    requires |tls| >= 2
    ensures var mns := BuildNodes(H, tls);
      && |mns| == |RowSizes(|tls|)| >= 1
      && |mns[0]| == 1
      && |tls| <= 2 * |mns[|mns| - 1]| <= |tls| + 1
      && (forall k :: 0 <= k < |mns| ==> |mns[k]| == RowSizes(|tls|)[|mns| - 1 - k])
  {
    LayersShape(H, Digests(tls));
    RowSizesShape(|tls|);
  }

  /** The hashes of the built rows for two or more leaves: the last row
      pairs up the leaf digests and each other row pairs up the row below. */
  lemma BuildNodesPairs(H: Hash, tls: seq<Leaf>)
    requires |tls| >= 2
    ensures var mns := BuildNodes(H, tls);
      && |mns| >= 1
      && mns[|mns| - 1] == ParentRow(H, Digests(tls))
      && PairsUp(H, mns)
  {
    LayersShape(H, Digests(tls));
  }

  /** The root reached by pairing up `row` until one node is left. */
  function Root(H: Hash, row: seq<Bytes>): Bytes
    requires |row| >= 1
    decreases |row|
  {
    if |row| == 1 then row[0] else Root(H, ParentRow(H, row))
  }

  /** The single node of the first layer above `row` is its root. */
  lemma {:induction false} LayersRoot(H: Hash, row: seq<Bytes>)
    requires |row| >= 2
    ensures |Layers(H, row)| >= 1 && |Layers(H, row)[0]| >= 1
    ensures Layers(H, row)[0][0] == Root(H, row)
    decreases |row|
  {
    var P := ParentRow(H, row);
    LayersShape(H, row);
    if |P| >= 2 {
      LayersRoot(H, P);
      assert Layers(H, row)[0] == Layers(H, P)[0];
    }
  }

  /** Row 0 of the built tree holds the root of the leaf digests. */
  lemma BuildNodesRoot(H: Hash, tls: seq<Leaf>)
    ensures |tls| >= 2 ==> |BuildNodes(H, tls)| >= 1 && |BuildNodes(H, tls)[0]| >= 1
    ensures |tls| >= 2 ==> BuildNodes(H, tls)[0][0] == Root(H, Digests(tls))
  {
    if |tls| >= 2 {
      LayersRoot(H, Digests(tls));
    }
  }

  /** Three leaves: the first two are paired, the third is hashed alone one
      row up, and the root pairs those two nodes; no node is duplicated. */
  lemma ThreeLeafRoot(H: Hash, a: Bytes, b: Bytes, c: Bytes)
    ensures Root(H, [a, b, c]) == H(H(a + b) + H(c))
  {
    var P := ParentRow(H, [a, b, c]);
    assert P == [H(a + b), H(c)];
    assert ParentRow(H, P) == [H(H(a + b) + H(c))];
    assert Root(H, [a, b, c]) == Root(H, P) == Root(H, ParentRow(H, P));
  }

  /** The built rows depend only on the multiset of data: leaves sorted by
      datum whose digests are the hashes of their data give the same rows
      whatever order the data were supplied in. */
  lemma NodesDetermined(H: Hash, s: seq<Leaf>, t: seq<Leaf>)
    requires SortedBy(s, DatumLess) && SortedBy(t, DatumLess)
    requires DigestsMatch(H, s) && DigestsMatch(H, t)
    requires multiset(Data(s)) == multiset(Data(t))
    ensures BuildNodes(H, s) == BuildNodes(H, t)
  {
    assert SortedBy(Data(s), Less) by {
      forall i, j | 0 <= i < j < |s| ensures !Less(Data(s)[j], Data(s)[i]) {
        assert !DatumLess(s[j], s[i]);
      }
    }
    assert SortedBy(Data(t), Less) by {
      forall i, j | 0 <= i < j < |t| ensures !Less(Data(t)[j], Data(t)[i]) {
        assert !DatumLess(t[j], t[i]);
      }
    }
    forall a, b | a in Data(s) && b in Data(s) && a != b ensures Less(a, b) || Less(b, a) {
      LessTotal(a, b);
    }
    SortedUnique(Data(s), Data(t), Less);
    assert |s| == |t|;
    forall i | 0 <= i < |s| ensures Digests(s)[i] == Digests(t)[i] {
      assert s[i] in s && t[i] in t;
      assert Data(s)[i] == Data(t)[i];
    }
    assert Digests(s) == Digests(t);
  }

  /** The total size of a list of rows, summed from the first row on. */
  function TotalNodes(rows: seq<seq<Bytes>>): nat {
    if rows == [] then 0 else TotalNodes(rows[..|rows| - 1]) + |rows[|rows| - 1]|
  }

  /** The built rows hold as many nodes as the planner counts. */
  lemma {:induction false} LayersTotal(H: Hash, row: seq<Bytes>)
    ensures TotalNodes(Layers(H, row)) == Sum(RowSizes(|row|))
    decreases |row|
  {
    if |row| > 1 {
      var P := ParentRow(H, row);
      LayersTotal(H, P);
      assert (Layers(H, P) + [P])[..|Layers(H, P)|] == Layers(H, P);
    }
  }

  /** The leaf-adjacent row of constructMerkleNodes: node j hashes the
      digests of leaves 2j and 2j+1, or of leaf 2j alone when it is the last. */
  method HashLeafRow(H: Hash, tls: seq<Leaf>, size: int) returns (row: seq<Bytes>)
    requires |tls| > 1 && size == NextRowSize(|tls|)
    ensures row == ParentRow(H, Digests(tls))
  {
    row := [];
    var j := 0;
    while j < size
      invariant 0 <= j <= size
      invariant |row| == j
      invariant forall m :: 0 <= m < j ==> row[m] == ParentRow(H, Digests(tls))[m]
    {
      var digest := if 2 * j + 1 < |tls| then H(tls[2 * j].digest + tls[2 * j + 1].digest)
                    else H(tls[2 * j].digest);
      row := row + [digest];
      j := j + 1;
    }
  }

  /** One pass of the upper loop of constructMerkleNodes: overwrites every
      node of an allocated row with the hash of its children in `below`. */
  method FillRow(H: Hash, row: seq<Bytes>, below: seq<Bytes>) returns (r: seq<Bytes>)
    requires |below| > 1 && |row| == NextRowSize(|below|)
    ensures r == ParentRow(H, below)
  {
    r := row;
    var j := 0;
    while j < |row|
      invariant 0 <= j <= |row| == |r|
      invariant forall m :: 0 <= m < j ==> r[m] == ParentRow(H, below)[m]
    {
      var digest := if 2 * j + 1 < |below| then H(below[2 * j] + below[2 * j + 1])
                    else H(below[2 * j]);
      r := r[j := digest];
      j := j + 1;
    }
  }

  /** constructMerkleNodes: asks the planner for the row sizes, allocates the
      rows root first while hashing the leaf digests pairwise into the last
      row, then fills every higher row from the row below it. */
  method ConstructMerkleNodes(H: Hash, tls: seq<Leaf>) returns (mns: seq<seq<Bytes>>)
    ensures mns == BuildNodes(H, tls)
  {
    var numMerkleNodes, rowSizes := CalculateMerkleNumbers(|tls|);
    ghost var B := BuildNodes(H, tls);
    LayersShape(H, Digests(tls));
    var R := |rowSizes|;
    var rows := new seq<Bytes>[R];
    var i := 0;
    while i < R
      invariant 0 <= i <= R
      invariant forall k :: 0 <= k < i ==> |rows[k]| == |B[k]|
      invariant i == R && R > 0 ==> rows[R - 1] == B[R - 1]
    {
      var size := rowSizes[R - 1 - i];
      assert |B[i]| == size;
      if i == R - 1 {
        rows[i] := HashLeafRow(H, tls, size);
      } else {
        rows[i] := seq(size, _ => []);
      }
      i := i + 1;
    }
    FillRows(H, rows, B);
    mns := rows[..];
  }

  /** The upper loop of constructMerkleNodes: from the row above the last
      one up to the root, fills each allocated row from the row below it. */
  method FillRows(H: Hash, rows: array<seq<Bytes>>, ghost B: seq<seq<Bytes>>)
    requires rows.Length == |B| && PairsUp(H, B)
    requires forall k :: 0 <= k < rows.Length ==> |rows[k]| == |B[k]|
    requires rows.Length > 0 ==> rows[rows.Length - 1] == B[|B| - 1]
    modifies rows
    ensures rows[..] == B
  {
    var R := rows.Length;
    var i := R - 2;
    while i >= 0
      invariant i <= R - 2 && (-1 <= i || R == 0)
      invariant forall k :: 0 <= k < R ==> |rows[k]| == |B[k]|
      invariant forall k :: 0 <= k < R && i < k ==> rows[k] == B[k]
    {
      assert PairedAt(H, B, i + 1);
      rows[i] := FillRow(H, rows[i], rows[i + 1]);
      i := i - 1;
    }
  }
}
