/** The tree's leaves (treeLeaf) and the two operations that produce a new leaf
    array: appendTreeLeaves and deleteTreeLeaves. */
module TreeLeaves {
  import opened Bytes
  import opened Sorting

  /** A leaf: the digest of its datum, the serialized datum, and the position
      at which the datum was supplied. */
  datatype Leaf = Leaf(digest: Bytes, datum: Bytes, orderedID: nat)

  function DigestOf(l: Leaf): Bytes { l.digest }
  function DatumOf(l: Leaf): Bytes { l.datum }
  function IdOf(l: Leaf): nat { l.orderedID }

  function Digests(s: seq<Leaf>): seq<Bytes> { Map(DigestOf, s) }
  function Data(s: seq<Leaf>): seq<Bytes> { Map(DatumOf, s) }
  function Ids(s: seq<Leaf>): seq<nat> { Map(IdOf, s) }

  /** Leaf order in storage: by datum, as bytes.Compare orders them. */
  predicate DatumLess(a: Leaf, b: Leaf) { Less(a.datum, b.datum) }

  /** Leaf order for listing and renumbering: by orderedID. */
  predicate IdLess(a: Leaf, b: Leaf) { a.orderedID < b.orderedID }

  predicate NatLess(a: nat, b: nat) { a < b }

  lemma DatumOrder()
    ensures StrictWeakOrder(DatumLess)
  {
    forall a: Leaf, b: Leaf | DatumLess(a, b) ensures !DatumLess(b, a) {
      LessTotal(a.datum, b.datum);
    }
    forall a: Leaf, b: Leaf, c: Leaf | !DatumLess(a, b) && !DatumLess(b, c) ensures !DatumLess(a, c) {
      NotLessTransitive(a.datum, b.datum, c.datum);
    }
  }

  lemma IdOrder()
    ensures StrictWeakOrder(IdLess)
  {
  }

  /** sort.Slice with the datum comparison: a datum-sorted permutation. */
  function SortByDatum(s: seq<Leaf>): (r: seq<Leaf>)
    ensures SortedBy(r, DatumLess)
    ensures multiset(r) == multiset(s) && |r| == |s|
  {
    DatumOrder();
    SortBy(s, DatumLess)
  }

  /** sort.Slice with the orderedID comparison: an orderedID-sorted permutation. */
  function SortById(s: seq<Leaf>): (r: seq<Leaf>)
    ensures SortedBy(r, IdLess)
    ensures multiset(r) == multiset(s) && |r| == |s|
  {
    IdOrder();
    SortBy(s, IdLess)
  }

  /** Every leaf's digest is the hash of its datum. */
  ghost predicate DigestsMatch(H: Hash, s: seq<Leaf>) {
    forall l :: l in s ==> l.digest == H(l.datum)
  }

  /** 0, 1, ..., n - 1. */
  function Positions(n: nat): (r: seq<nat>)
    ensures |r| == n && forall i :: 0 <= i < n ==> r[i] == i
  {
    seq(n, i requires 0 <= i < n => i)
  }

  /** The orderedIDs are 0 .. |s| - 1, each used once. */
  ghost predicate IdsArePositions(s: seq<Leaf>) {
    multiset(Ids(s)) == multiset(Positions(|s|))
  }

  // ---------------------------------------------------------------------
  // appendTreeLeaves

  /** The leaves appendTreeLeaves makes for new data: item k is hashed and
      numbered `base + k`. */
  function NewLeaves(H: Hash, base: nat, data: seq<Bytes>): (r: seq<Leaf>)
    ensures |r| == |data|
  {
    seq(|data|, k requires 0 <= k < |data| => Leaf(H(data[k]), data[k], base + k))
  }

  /** appendTreeLeaves: copies the old leaves, appends one hashed and numbered
      leaf per new datum, then sorts everything by datum. */
  method AppendTreeLeaves(H: Hash, oldLeaves: seq<Leaf>, newData: seq<Bytes>) returns (r: seq<Leaf>)
    ensures SortedBy(r, DatumLess)
    ensures multiset(r) == multiset(oldLeaves + NewLeaves(H, |oldLeaves|, newData))
    ensures |r| == |oldLeaves| + |newData|
  {
    var tls := oldLeaves;
    var i := 0;
    while i < |newData|
      invariant 0 <= i <= |newData|
      invariant tls == oldLeaves + NewLeaves(H, |oldLeaves|, newData[..i])
    {
      var serializedDatum := newData[i];
      tls := tls + [Leaf(H(serializedDatum), serializedDatum, |oldLeaves| + i)];
      i := i + 1;
    }
    assert newData[..i] == newData;
    r := SortByDatum(tls);
  }

  /** Appending keeps every digest the hash of its datum, keeps the orderedIDs
      a numbering 0 .. n - 1, and adds exactly the new data. */
  lemma AppendKeepsLeavesWellFormed(H: Hash, oldLeaves: seq<Leaf>, newData: seq<Bytes>, r: seq<Leaf>)
    requires DigestsMatch(H, oldLeaves) && IdsArePositions(oldLeaves)
    requires multiset(r) == multiset(oldLeaves + NewLeaves(H, |oldLeaves|, newData))
    ensures DigestsMatch(H, r)
    ensures IdsArePositions(r)
    ensures multiset(Data(r)) == multiset(Data(oldLeaves)) + multiset(newData)
  {
    AppendKeepsDigests(H, oldLeaves, newData, r);
    AppendKeepsIds(H, oldLeaves, newData, r);
    MapPermutation(DatumOf, r, oldLeaves + NewLeaves(H, |oldLeaves|, newData));
    assert Data(oldLeaves + NewLeaves(H, |oldLeaves|, newData)) == Data(oldLeaves) + newData;
  }

  /** Appended leaves carry the hash of their datum, like the old ones. */
  lemma AppendKeepsDigests(H: Hash, oldLeaves: seq<Leaf>, newData: seq<Bytes>, r: seq<Leaf>)
    requires DigestsMatch(H, oldLeaves)
    requires multiset(r) == multiset(oldLeaves + NewLeaves(H, |oldLeaves|, newData))
    ensures DigestsMatch(H, r)
  {
    forall l | l in r ensures l.digest == H(l.datum) {
      assert l in multiset(oldLeaves + NewLeaves(H, |oldLeaves|, newData));
    }
  }

  /** The new leaves are numbered after the old ones, so the orderedIDs stay
      0 .. n - 1. */
  lemma AppendKeepsIds(H: Hash, oldLeaves: seq<Leaf>, newData: seq<Bytes>, r: seq<Leaf>)
    requires IdsArePositions(oldLeaves)
    requires multiset(r) == multiset(oldLeaves + NewLeaves(H, |oldLeaves|, newData))
    ensures IdsArePositions(r)
  {
    var all := oldLeaves + NewLeaves(H, |oldLeaves|, newData);
    var n, m := |oldLeaves|, |newData|;
    assert |r| == n + m by {
      assert |r| == |multiset(r)| == |all|;
    }
    MapPermutation(IdOf, r, all);
    assert Ids(all) == Ids(oldLeaves) + seq(m, k requires 0 <= k < m => n + k);
    assert Positions(n + m) == Positions(n) + seq(m, k requires 0 <= k < m => n + k);
  }

  // ---------------------------------------------------------------------
  // Finding a datum

  /** The first index whose leaf holds datum `x`, or |s| when none does. */
  function IndexOfDatum(s: seq<Leaf>, x: Bytes): (k: nat)
    ensures k <= |s|
    ensures k < |s| ==> s[k].datum == x
    ensures forall m :: 0 <= m < k ==> s[m].datum != x
  {
    if s == [] then 0
    else if s[0].datum == x then 0
    else 1 + IndexOfDatum(s[1..], x)
  }

  /** The first index whose leaf has orderedID `id`, or |s| when none does. */
  function IndexOfId(s: seq<Leaf>, id: nat): (k: nat)
    ensures k <= |s|
    ensures k < |s| ==> s[k].orderedID == id
    ensures forall m :: 0 <= m < k ==> s[m].orderedID != id
  {
    if s == [] then 0
    else if s[0].orderedID == id then 0
    else 1 + IndexOfId(s[1..], id)
  }

  /** sort.Search with the predicate "datum at k is not smaller than x": the
      bisection loop, which keeps everything left of `lo` smaller than `x` and
      nothing from `hi` on smaller. */
  method SearchDatum(s: seq<Leaf>, x: Bytes) returns (i: int)
    ensures 0 <= i <= |s|
    ensures i < |s| ==> !Less(s[i].datum, x)
    ensures 0 < i ==> Less(s[i - 1].datum, x)
  {
    var lo, hi := 0, |s|;
    while lo < hi
      invariant 0 <= lo <= hi <= |s|
      invariant hi < |s| ==> !Less(s[hi].datum, x)
      invariant 0 < lo ==> Less(s[lo - 1].datum, x)
    {
      var h := (lo + hi) / 2;
      if Less(s[h].datum, x) {
        lo := h + 1;
      } else {
        hi := h;
      }
    }
    i := lo;
  }

  /** On datum-sorted leaves, the index sort.Search stops at holds `x` exactly
      when some leaf does, and it is then the first such leaf. */
  lemma SearchFindsFirst(s: seq<Leaf>, x: Bytes, i: int)
    requires SortedBy(s, DatumLess)
    requires 0 <= i <= |s|
    requires i < |s| ==> !Less(s[i].datum, x)
    requires 0 < i ==> Less(s[i - 1].datum, x)
    ensures (i < |s| && s[i].datum == x) <==> IndexOfDatum(s, x) < |s|
    ensures i < |s| && s[i].datum == x ==> i == IndexOfDatum(s, x)
  {
    var k := IndexOfDatum(s, x);
    if k < |s| {
      forall m | 0 <= m < i ensures s[m].datum != x {
        if m < i - 1 {
          assert !DatumLess(s[i - 1], s[m]);
          LessTotal(s[m].datum, s[i - 1].datum);
          if Less(s[m].datum, s[i - 1].datum) {
            LessTransitive(s[m].datum, s[i - 1].datum, x);
          }
        }
        LessTotal(s[m].datum, x);
      }
      assert i <= k;
      if i < k {
        assert !DatumLess(s[k], s[i]);
      }
      LessTotal(s[i].datum, x);
    }
  }

  // ---------------------------------------------------------------------
  // deleteTreeLeaves

  /** Removes the first leaf holding datum `x`, if there is one. */
  function RemoveFirstDatum(s: seq<Leaf>, x: Bytes): (r: seq<Leaf>)
    ensures IndexOfDatum(s, x) == |s| ==> r == s
    ensures IndexOfDatum(s, x) < |s| ==>
      |r| == |s| - 1 && multiset(r) == multiset(s) - multiset{s[IndexOfDatum(s, x)]}
    ensures forall l :: l in r ==> l in s
    ensures SortedBy(s, DatumLess) ==> SortedBy(r, DatumLess)
  {
    var k := IndexOfDatum(s, x);
    if k < |s| then
      MultisetRemove(s, k);
      s[..k] + s[k + 1..]
    else s
  }

  /** The leaves left after removing, for each item to delete in turn, the
      first leaf holding it; items that match no leaf remove nothing. */
  function Survivors(s: seq<Leaf>, del: seq<Bytes>): (r: seq<Leaf>)
    ensures |s| - |del| <= |r| <= |s|
    ensures forall l :: l in r ==> l in s
    ensures SortedBy(s, DatumLess) ==> SortedBy(r, DatumLess)
  {
    if del == [] then s
    else RemoveFirstDatum(Survivors(s, del[..|del| - 1]), del[|del| - 1])
  }

  /** Removing at the index sort.Search finds, when it holds the datum, is
      removing the first leaf that holds it. */
  lemma RemoveAtSearch(s: seq<Leaf>, x: Bytes, j: int)
    requires SortedBy(s, DatumLess)
    requires 0 <= j <= |s|
    requires j < |s| ==> !Less(s[j].datum, x)
    requires 0 < j ==> Less(s[j - 1].datum, x)
    ensures RemoveFirstDatum(s, x) ==
      if j < |s| && s[j].datum == x then s[..j] + s[j + 1..] else s
  {
    SearchFindsFirst(s, x, j);
  }

  lemma SurvivorsStep(s: seq<Leaf>, del: seq<Bytes>, i: int)
    requires 0 <= i < |del|
    ensures Survivors(s, del[..i + 1]) == RemoveFirstDatum(Survivors(s, del[..i]), del[i])
  {
    assert del[..i + 1][..i] == del[..i];
  }

  /** Gives leaf i the orderedID i. */
  function Renumber(s: seq<Leaf>): (r: seq<Leaf>)
    ensures |r| == |s|
    ensures Ids(r) == Positions(|s|)
  {
    seq(|s|, i requires 0 <= i < |s| => s[i].(orderedID := i))
  }

  /** What deleteTreeLeaves returns: the survivors, put in orderedID order and
      renumbered 0, 1, ..., cut to |s| - |del| leaves (the result is sized as
      if every item had removed one leaf), then sorted by datum again. */
  function DeleteLeaves(s: seq<Leaf>, del: seq<Bytes>): (r: seq<Leaf>)
    requires |del| <= |s|
    ensures |r| == |s| - |del|
    ensures SortedBy(r, DatumLess)
    ensures IdsArePositions(r)
  {
    SortKeepsPositions(KeptLeaves(s, del));
    SortByDatum(KeptLeaves(s, del))
  }

  /** The survivors in orderedID order, renumbered and cut to |s| - |del|. */
  function KeptLeaves(s: seq<Leaf>, del: seq<Bytes>): (kept: seq<Leaf>)
    requires |del| <= |s|
    ensures |kept| == |s| - |del| && Ids(kept) == Positions(|kept|)
  {
    RenumberedPrefix(SortById(Survivors(s, del)), |s| - |del|);
    Renumber(SortById(Survivors(s, del)))[..|s| - |del|]
  }

  /** Sorting by datum keeps the orderedIDs 0 .. n - 1. */
  lemma SortKeepsPositions(kept: seq<Leaf>)
    requires Ids(kept) == Positions(|kept|)
    ensures IdsArePositions(SortByDatum(kept))
  {
    MapPermutation(IdOf, SortByDatum(kept), kept);
  }

  /** A leaf among the first n renumbered ones is the leaf at its new
      orderedID with that orderedID. */
  lemma RenumberedMember(b: seq<Leaf>, n: nat, l: Leaf)
    requires n <= |b| && l in multiset(Renumber(b)[..n])
    ensures l.orderedID < n && b[l.orderedID] == l.(orderedID := b[l.orderedID].orderedID)
  {
    var kept := Renumber(b)[..n];
    var k :| 0 <= k < |kept| && kept[k] == l;
    assert kept[k] == b[k].(orderedID := k);
  }

  /** The first n renumbered leaves carry the orderedIDs 0 .. n - 1. */
  lemma RenumberedPrefix(s: seq<Leaf>, n: nat)
    requires n <= |s|
    ensures Ids(Renumber(s)[..n]) == Positions(n)
  {
    var kept := Renumber(s)[..n];
    forall i | 0 <= i < n ensures Ids(kept)[i] == Positions(n)[i] {
      assert kept[i] == Renumber(s)[i];
      assert Ids(Renumber(s))[i] == i;
    }
  }

  /** The first loop of deleteTreeLeaves: for each item to delete, binary-
      searches the leaves and removes the leaf found if it holds the item. */
  method RemoveEach(oldLeaves: seq<Leaf>, delData: seq<Bytes>) returns (oldTls: seq<Leaf>)
    requires SortedBy(oldLeaves, DatumLess)
    ensures oldTls == Survivors(oldLeaves, delData)
  {
    oldTls := oldLeaves;
    var i := 0;
    while i < |delData|
      invariant 0 <= i <= |delData|
      invariant oldTls == Survivors(oldLeaves, delData[..i])
      invariant SortedBy(oldTls, DatumLess)
    {
      oldTls := RemoveFound(oldTls, delData[i]);
      SurvivorsStep(oldLeaves, delData, i);
      i := i + 1;
    }
    assert delData[..i] == delData;
  }

  /** One pass of that loop: removes the leaf sort.Search finds for `x` when
      it holds `x`. */
  method RemoveFound(s: seq<Leaf>, x: Bytes) returns (r: seq<Leaf>)
    requires SortedBy(s, DatumLess)
    ensures r == RemoveFirstDatum(s, x)
  {
    var j := SearchDatum(s, x);
    RemoveAtSearch(s, x, j);
    r := s;
    if j < |s| && Compare(s[j].datum, x) == 0 {
      r := s[..j] + s[j + 1..];
    }
  }

  /** The second loop of deleteTreeLeaves: sets each leaf's orderedID to its
      position. */
  method RenumberLeaves(s: seq<Leaf>) returns (r: seq<Leaf>)
    ensures r == Renumber(s)
  {
    r := s;
    var i := 0;
    while i < |r|
      invariant 0 <= i <= |r| == |s|
      invariant forall k :: 0 <= k < i ==> r[k] == s[k].(orderedID := k)
      invariant forall k :: i <= k < |r| ==> r[k] == s[k]
    {
      r := r[i := r[i].(orderedID := i)];
      i := i + 1;
    }
  }

  /** deleteTreeLeaves: binary-searches and removes each item to delete, sorts
      the rest by orderedID and renumbers them, copies them into a slice of
      |oldLeaves| - |delData| leaves and sorts that by datum. */
  method DeleteTreeLeaves(oldLeaves: seq<Leaf>, delData: seq<Bytes>) returns (r: seq<Leaf>)
    requires SortedBy(oldLeaves, DatumLess)
    requires |delData| <= |oldLeaves|
    ensures r == DeleteLeaves(oldLeaves, delData)
  {
    var oldTls := RemoveEach(oldLeaves, delData);
    oldTls := SortById(oldTls);
    oldTls := RenumberLeaves(oldTls);
    var newTreeLeaves := oldTls[..|oldLeaves| - |delData|];
    r := SortByDatum(newTreeLeaves);
  }

  /** A datum is present exactly when IndexOfDatum finds it. */
  lemma PresentIff(s: seq<Leaf>, x: Bytes)
    ensures x in Data(s) <==> IndexOfDatum(s, x) < |s|
  {
    if x in Data(s) {
      var k :| 0 <= k < |s| && Data(s)[k] == x;
      assert s[k].datum == x;
    }
  }

  /** Removing the first leaf that holds `x` removes one copy of `x` from the data. */
  lemma RemoveFirstData(s: seq<Leaf>, x: Bytes)
    requires x in Data(s)
    ensures |RemoveFirstDatum(s, x)| == |s| - 1
    ensures multiset(Data(RemoveFirstDatum(s, x))) == multiset(Data(s)) - multiset{x}
  {
    PresentIff(s, x);
    var k := IndexOfDatum(s, x);
    var r := RemoveFirstDatum(s, x);
    assert multiset(r + [s[k]]) == multiset(s) by {
      assert multiset(r + [s[k]]) == multiset(r) + multiset{s[k]};
      assert s[k] in multiset(s);
    }
    MapPermutation(DatumOf, r + [s[k]], s);
    assert Data(r + [s[k]]) == Data(r) + [x];
    assert multiset(Data(r) + [x]) == multiset(Data(r)) + multiset{x};
  }

  /** When every item to delete is present (as often as it is listed), each
      removes one leaf: the survivors hold the old data minus the deleted. */
  lemma {:induction false} SurvivorsData(s: seq<Leaf>, del: seq<Bytes>)
    requires multiset(del) <= multiset(Data(s))
    ensures |Survivors(s, del)| == |s| - |del|
    ensures multiset(Data(Survivors(s, del))) == multiset(Data(s)) - multiset(del)
  {
    if del != [] {
      var init, x := del[..|del| - 1], del[|del| - 1];
      assert del == init + [x];
      assert multiset(del) == multiset(init) + multiset{x};
      SurvivorsData(s, init);
      var before := Survivors(s, init);
      assert multiset(Data(before))[x] >= 1;
      RemoveFirstData(before, x);
      assert multiset(Data(s)) - multiset(init) - multiset{x} == multiset(Data(s)) - multiset(del);
    }
  }

  /** When no item to delete is present, nothing is removed. */
  lemma {:induction false} SurvivorsNone(s: seq<Leaf>, del: seq<Bytes>)
    requires forall x :: x in del ==> x !in Data(s)
    ensures Survivors(s, del) == s
  {
    if del != [] {
      SurvivorsNone(s, del[..|del| - 1]);
      PresentIff(s, del[|del| - 1]);
    }
  }

  /** What survives deleteTreeLeaves, in any case: every kept leaf is a
      survivor renumbered by its rank in the survivors' old orderedID order,
      with its digest and datum untouched; the kept data are those of the
      |s| - |del| survivors that came first in that order. */
  lemma DeleteKeepsSurvivors(s: seq<Leaf>, del: seq<Bytes>)
    requires |del| <= |s|
    ensures PointsBack(DeleteLeaves(s, del), SortById(Survivors(s, del)))
    ensures multiset(Data(DeleteLeaves(s, del))) == multiset(Data(SortById(Survivors(s, del))[..|s| - |del|]))
  {
    var r, kept := DeleteLeaves(s, del), KeptLeaves(s, del);
    var b, n := SortById(Survivors(s, del)), |s| - |del|;
    assert kept == Renumber(b)[..n];
    assert multiset(r) == multiset(kept) by {
      assert r == SortByDatum(kept);
    }
    assert PointsBack(r, b) by {
      KeptPointBack(r, b, n);
    }
    assert multiset(Data(r)) == multiset(Data(b[..n])) by {
      MapPermutation(DatumOf, r, kept);
      RenumberedData(b, n);
    }
  }

  /** Every leaf of `r` is the leaf of `b` at its orderedID, with only the
      orderedID changed, and that orderedID is below |r|. */
  ghost predicate PointsBack(r: seq<Leaf>, b: seq<Leaf>) {
    forall l :: l in r ==>
      l.orderedID < |r| && l.orderedID < |b| && b[l.orderedID] == l.(orderedID := b[l.orderedID].orderedID)
  }

  /** A permutation of the first n renumbered leaves of `b` points back into `b`. */
  lemma KeptPointBack(r: seq<Leaf>, b: seq<Leaf>, n: nat)
    requires n <= |b| && multiset(r) == multiset(Renumber(b)[..n])
    ensures PointsBack(r, b)
  {
    assert |r| == n by {
      assert |r| == |multiset(r)|;
    }
    forall l | l in r
      ensures l.orderedID < |r| && l.orderedID < |b| && b[l.orderedID] == l.(orderedID := b[l.orderedID].orderedID)
    {
      assert l in multiset(r);
      RenumberedMember(b, n, l);
    }
  }

  /** Renumbering changes no datum. */
  lemma RenumberedData(b: seq<Leaf>, n: nat)
    requires n <= |b|
    ensures Data(Renumber(b)[..n]) == Data(b[..n])
  {
    var kept := Renumber(b)[..n];
    forall i | 0 <= i < n ensures Data(kept)[i] == Data(b[..n])[i] {
      assert kept[i] == b[i].(orderedID := i);
    }
  }

  /** deleteTreeLeaves keeps every digest the hash of its datum. */
  lemma DeleteKeepsDigests(H: Hash, s: seq<Leaf>, del: seq<Bytes>)
    requires |del| <= |s| && DigestsMatch(H, s)
    ensures DigestsMatch(H, DeleteLeaves(s, del))
  {
    DeleteKeepsSurvivors(s, del);
    var byId := SortById(Survivors(s, del));
    forall l | l in DeleteLeaves(s, del) ensures l.digest == H(l.datum) {
      assert byId[l.orderedID] in multiset(Survivors(s, del));
    }
  }

  /** Items listed once and all present are included in the data as a multiset. */
  lemma DistinctIncluded(s: seq<Leaf>, del: seq<Bytes>)
    requires Distinct(del)
    requires forall x :: x in del ==> x in Data(s)
    ensures multiset(del) <= multiset(Data(s))
  {
    forall x ensures multiset(del)[x] <= multiset(Data(s))[x] {
      DistinctCount(del, x);
      if x in del {
        assert x in multiset(Data(s));
      } else {
        assert x !in multiset(del);
      }
    }
  }

  /** With distinct data, removing one copy of each deleted item leaves none. */
  lemma NoneLeft(data: seq<Bytes>, del: seq<Bytes>, rest: seq<Bytes>)
    requires Distinct(data) && Distinct(del)
    requires multiset(rest) == multiset(data) - multiset(del)
    requires forall x :: x in del ==> x in data
    ensures forall x :: x in rest ==> x !in del
  {
    forall x | x in rest ensures x !in del {
      DistinctCount(del, x);
      DistinctCount(data, x);
      assert multiset(rest)[x] >= 1;
    }
  }

  /** Whenever every item to delete is present (as often as it is listed),
      deleteTreeLeaves removes exactly one copy of each from the data. */
  lemma DeletePresent(s: seq<Leaf>, del: seq<Bytes>)
    requires multiset(del) <= multiset(Data(s))
    ensures |del| <= |s|
    ensures multiset(Data(DeleteLeaves(s, del))) == multiset(Data(s)) - multiset(del)
  {
    SurvivorsData(s, del);
    var sv := Survivors(s, del);
    var byId := SortById(sv);
    assert multiset(Data(DeleteLeaves(s, del))) == multiset(Data(byId)) by {
      DeleteKeepsSurvivors(s, del);
      assert byId[..|s| - |del|] == byId;
    }
    assert multiset(Data(byId)) == multiset(Data(sv)) by {
      MapPermutation(DatumOf, byId, sv);
    }
  }

  /** The clean case: the old data are distinct and every item to delete is
      present and listed once. Then exactly those leaves go, nothing else is
      lost, and the survivors are renumbered 0 .. n - 1 in their old order. */
  lemma DeleteClean(s: seq<Leaf>, del: seq<Bytes>)
    requires Distinct(Data(s)) && Distinct(del)
    requires forall x :: x in del ==> x in Data(s)
    ensures |del| <= |s|
    ensures |DeleteLeaves(s, del)| == |s| - |del|
    ensures forall l :: l in DeleteLeaves(s, del) ==> l.datum !in del
    ensures multiset(Data(DeleteLeaves(s, del))) == multiset(Data(s)) - multiset(del)
    ensures multiset(DeleteLeaves(s, del)) == multiset(Renumber(SortById(Survivors(s, del))))
  {
    DistinctIncluded(s, del);
    DeletePresent(s, del);
    var r := DeleteLeaves(s, del);
    assert forall l :: l in r ==> l.datum !in del by {
      NoneLeft(Data(s), del, Data(r));
      DataHolds(r);
    }
    DeleteAllFound(s, del);
  }

  /** Every leaf's datum is among the data. */
  lemma DataHolds(s: seq<Leaf>)
    ensures forall l :: l in s ==> l.datum in Data(s)
  {
    forall l | l in s ensures l.datum in Data(s) {
      var k :| 0 <= k < |s| && s[k] == l;
      assert Data(s)[k] == l.datum;
    }
  }

  /** When every item to delete removes a leaf, nothing is cut: the result
      holds every survivor, renumbered in its old order. */
  lemma DeleteAllFound(s: seq<Leaf>, del: seq<Bytes>)
    requires multiset(del) <= multiset(Data(s))
    ensures |del| <= |s|
    ensures multiset(DeleteLeaves(s, del)) == multiset(Renumber(SortById(Survivors(s, del))))
  {
    SurvivorsData(s, del);
    var byId := SortById(Survivors(s, del));
    assert Renumber(byId)[..|s| - |del|] == Renumber(byId);
    assert DeleteLeaves(s, del) == SortByDatum(Renumber(byId)[..|s| - |del|]);
  }

  /** What deleteTreeLeaves promises in every case: digests still match,
      the result lists the first |s| - |del| survivors in their old order, and
      in the clean case exactly the deleted data are gone. */
  lemma DeleteOutcome(H: Hash, s: seq<Leaf>, del: seq<Bytes>)
    requires DigestsMatch(H, s) && |del| <= |s|
    ensures DigestsMatch(H, DeleteLeaves(s, del))
    ensures InsertionOrder(DeleteLeaves(s, del)) == InsertionOrder(Survivors(s, del))[..|s| - |del|]
    ensures Distinct(Data(s)) && Distinct(del) && (forall x :: x in del ==> x in Data(s)) ==>
      multiset(Data(DeleteLeaves(s, del))) == multiset(Data(s)) - multiset(del)
      && forall l :: l in DeleteLeaves(s, del) ==> l.datum !in del
  {
    DeleteKeepsDigests(H, s, del);
    DeleteInsertionOrder(s, del);
    if Distinct(Data(s)) && Distinct(del) && (forall x :: x in del ==> x in Data(s)) {
      DeleteClean(s, del);
    }
  }

  /** The quirk of the result's size: when the items to delete match no leaf,
      the result is still |s| - |del| leaves long, so the |del| data supplied
      last are dropped although none of them was asked for. */
  lemma DeleteAbsentTruncates(s: seq<Leaf>, del: seq<Bytes>)
    requires |del| <= |s|
    requires forall x :: x in del ==> x !in Data(s)
    ensures |DeleteLeaves(s, del)| == |s| - |del|
    ensures InsertionOrder(DeleteLeaves(s, del)) == InsertionOrder(s)[..|s| - |del|]
  {
    SurvivorsNone(s, del);
    DeleteInsertionOrder(s, del);
  }

  // ---------------------------------------------------------------------
  // Insertion order

  /** The data in the order they were supplied: listed by orderedID. */
  function InsertionOrder(s: seq<Leaf>): seq<Bytes> {
    Data(SortById(s))
  }

  /** Leaves numbered 0, 1, ... in sequence order are sorted by orderedID,
      and the orderedID order tells any two different ones apart. */
  lemma NumberedInOrder(t: seq<Leaf>)
    requires Ids(t) == Positions(|t|)
    ensures SortedBy(t, IdLess) && Separates(t, IdLess)
  {
    forall i | 0 <= i < |t| ensures t[i].orderedID == i {
      assert Ids(t)[i] == i;
    }
    forall a, b | a in t && b in t && a != b ensures IdLess(a, b) || IdLess(b, a) {
      var i :| 0 <= i < |t| && t[i] == a;
      var j :| 0 <= j < |t| && t[j] == b;
    }
  }

  /** Sorting by orderedID recovers a numbered-in-order sequence from any
      permutation of it. */
  lemma SortByIdRecovers(s: seq<Leaf>, t: seq<Leaf>)
    requires Ids(t) == Positions(|t|)
    requires multiset(s) == multiset(t)
    ensures SortById(s) == t
  {
    NumberedInOrder(t);
    SortedUnique(t, SortById(s), IdLess);
  }

  /** Leaves whose orderedIDs are 0 .. n - 1 are numbered in order once sorted
      by orderedID. */
  lemma SortedIdsArePositions(s: seq<Leaf>)
    requires IdsArePositions(s)
    ensures Ids(SortById(s)) == Positions(|s|)
  {
    var r := SortById(s);
    MapPermutation(IdOf, r, s);
    assert SortedBy(Ids(r), NatLess) by {
      forall i, j | 0 <= i < j < |r| ensures !NatLess(Ids(r)[j], Ids(r)[i]) {
        assert !IdLess(r[j], r[i]);
      }
    }
    SortedUnique(Positions(|s|), Ids(r), NatLess);
  }

  /** In insertion order, the datum of the leaf numbered k is at position k. */
  lemma InsertionOrderById(s: seq<Leaf>)
    requires IdsArePositions(s)
    ensures forall l :: l in s ==> l.orderedID < |s| && InsertionOrder(s)[l.orderedID] == l.datum
  {
    var r := SortById(s);
    SortedIdsArePositions(s);
    forall l | l in s ensures l.orderedID < |s| && InsertionOrder(s)[l.orderedID] == l.datum {
      assert l in multiset(r);
      var k :| 0 <= k < |r| && r[k] == l;
      assert Ids(r)[k] == k;
      assert Data(r)[k] == l.datum;
    }
  }

  /** The orderedIDs of well-numbered leaves are exactly the indices below
      their count. */
  lemma IdPresentIff(s: seq<Leaf>, id: nat)
    requires IdsArePositions(s)
    ensures IndexOfId(s, id) < |s| <==> id < |s|
  {
    if id < |s| {
      assert Positions(|s|)[id] == id;
      assert id in multiset(Ids(s));
      var k :| 0 <= k < |s| && Ids(s)[k] == id;
      assert s[k].orderedID == id;
    }
  }

  /** Appending lists the new data after the old ones, in the order given. */
  lemma AppendInsertionOrder(H: Hash, oldLeaves: seq<Leaf>, newData: seq<Bytes>, r: seq<Leaf>)
    requires IdsArePositions(oldLeaves)
    requires multiset(r) == multiset(oldLeaves + NewLeaves(H, |oldLeaves|, newData))
    ensures InsertionOrder(r) == InsertionOrder(oldLeaves) + newData
  {
    var n := |oldLeaves|;
    var t := SortById(oldLeaves) + NewLeaves(H, n, newData);
    SortedIdsArePositions(oldLeaves);
    assert Ids(t) == Positions(|t|) by {
      forall i | 0 <= i < |t| ensures Ids(t)[i] == i {
        if i < n {
          assert Ids(SortById(oldLeaves))[i] == i;
        }
      }
    }
    assert multiset(t) == multiset(oldLeaves + NewLeaves(H, n, newData));
    SortByIdRecovers(r, t);
    assert Data(t) == Data(SortById(oldLeaves)) + newData;
  }

  /** deleteTreeLeaves lists the survivors in their old insertion order, cut
      to |s| - |del| entries. */
  lemma DeleteInsertionOrder(s: seq<Leaf>, del: seq<Bytes>)
    requires |del| <= |s|
    ensures InsertionOrder(DeleteLeaves(s, del)) == InsertionOrder(Survivors(s, del))[..|s| - |del|]
  {
    var kept, b, n := KeptLeaves(s, del), SortById(Survivors(s, del)), |s| - |del|;
    assert SortById(DeleteLeaves(s, del)) == kept by {
      assert DeleteLeaves(s, del) == SortByDatum(kept);
      SortByIdRecovers(DeleteLeaves(s, del), kept);
    }
    assert Data(kept) == Data(b)[..n] by {
      assert kept == Renumber(b)[..n];
      RenumberedData(b, n);
      assert Data(b[..n]) == Data(b)[..n];
    }
  }
}
