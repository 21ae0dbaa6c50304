/**
 The sparse Merkle tree of the map (kt/lib/smt.js) by its definition: a tree of fixed
 depth D whose leaves are all the labels of D bits. `Canon` is that tree's hash below a
 path; `Sub` lists the labels below it. The compact tree that the log keeps is in
 CompactMap.dfy, the verifiers in MapVerify.dfy. D is 256 in the log; nothing here
 depends on it.
 */
module SparseMap {
  import opened Digests

  datatype Slot = Slot(index: int, version: int)

  /** A label with its latest entry, as proofs and buckets carry it. */
  datatype Leaf = Leaf(lbl: Label, slot: Slot)

  type LabelMap = map<Label, Slot>

  predicate Sized(D: nat, m: LabelMap) {
    forall l :: l in m ==> |l| == D
  }

  function LeafDigest(l: Label, s: Slot): Digest {
    MapLeaf(l, s.index, s.version)
  }

  /** The hash of an empty subtree at depth d. */
  function Empty(D: nat, d: nat): Digest
    requires d <= D
    decreases D - d
  {
    if d == D then MapEmpty else MapNode(Empty(D, d + 1), Empty(D, d + 1))
  }

  /** The hash of the subtree below the path p: every label has its place, taken or not. */
  ghost function Canon(D: nat, p: Label, m: LabelMap): Digest
    requires |p| <= D
    decreases D - |p|
  {
    if |p| == D then (if p in m then LeafDigest(p, m[p]) else MapEmpty)
    else MapNode(Canon(D, p + [false], m), Canon(D, p + [true], m))
  }

  /** The labels of the map below p, in label order. */
  ghost function Sub(D: nat, p: Label, m: LabelMap): seq<Leaf>
    requires |p| <= D
    decreases D - |p|
  {
    if |p| == D then (if p in m then [Leaf(p, m[p])] else [])
    else Sub(D, p + [false], m) + Sub(D, p + [true], m)
  }

  /** Two maps hold the same below p. */
  ghost predicate Agree(D: nat, p: Label, m: LabelMap, m': LabelMap) {
    forall l: Label :: |l| == D && p <= l ==> (l in m <==> l in m') && (l in m ==> m[l] == m'[l])
  }

  ghost predicate NoneBelow(p: Label, m: LabelMap) {
    forall l :: l in m ==> !(p <= l)
  }

  ghost predicate OnlyBelow(l: Label, p: Label, m: LabelMap) {
    l in m && p <= l && forall k :: k in m && p <= k ==> k == l
  }

  // --- Paths --------------------------------------------------------------------

  /** The path that leaves l's own at depth d. */
  function Aside(l: Label, d: nat): Label
    requires d < |l|
  {
    l[..d] + [!l[d]]
  }

  lemma Longer(p: Label, b: bool, l: Label)
    requires |p| < |l|
    ensures p + [b] <= l <==> p <= l && l[|p|] == b
  {
    if p + [b] <= l {
      assert l[..|p|] == (p + [b])[..|p|] == p;
      assert l[|p|] == (p + [b])[|p|];
    }
    if p <= l && l[|p|] == b {
      assert l[..|p| + 1] == p + [b];
    }
  }

  lemma Prefixes(p: Label, q: Label, x: Label)
    requires p <= q <= x
    ensures p <= x
  {
    assert x[..|p|] == q[..|p|];
  }

  /** A label below p is on one side of p's two, and not on the other. */
  lemma Sides(p: Label, l: Label)
    requires |p| < |l|
    ensures p <= l <==> p + [false] <= l || p + [true] <= l
    ensures !(p + [false] <= l && p + [true] <= l)
  {
    Longer(p, false, l);
    Longer(p, true, l);
  }

  // --- The definition's first properties ---------------------------------------------

  lemma {:induction false} CanonAgree(D: nat, p: Label, m: LabelMap, m': LabelMap)
    requires |p| <= D && Agree(D, p, m, m')
    ensures Canon(D, p, m) == Canon(D, p, m') && Sub(D, p, m) == Sub(D, p, m')
    decreases D - |p|
  {
    if |p| < D {
      AgreeSides(D, p, m, m');
      CanonAgree(D, p + [false], m, m');
      CanonAgree(D, p + [true], m, m');
    } else {
      assert p <= p;
    }
  }

  lemma AgreeSides(D: nat, p: Label, m: LabelMap, m': LabelMap)
    requires |p| < D
    ensures Agree(D, p, m, m') <==> Agree(D, p + [false], m, m') && Agree(D, p + [true], m, m')
  {
    forall l: Label | |l| == D
      ensures p <= l <==> p + [false] <= l || p + [true] <= l
    {
      Sides(p, l);
    }
  }

  /** The hash pins the labels below p and their slots. */
  lemma {:induction false} CanonInjective(D: nat, p: Label, m: LabelMap, m': LabelMap)
    requires |p| <= D && Canon(D, p, m) == Canon(D, p, m')
    ensures Agree(D, p, m, m')
    decreases D - |p|
  {
    if |p| < D {
      CanonInjective(D, p + [false], m, m');
      CanonInjective(D, p + [true], m, m');
      AgreeSides(D, p, m, m');
    } else {
      assert forall l: Label :: |l| == D && p <= l ==> l == p;
    }
  }

  lemma {:induction false} EmptyCanon(D: nat, p: Label)
    requires |p| <= D
    ensures Canon(D, p, map[]) == Empty(D, |p|) && Sub(D, p, map[]) == []
    decreases D - |p|
  {
    if |p| < D {
      EmptyCanon(D, p + [false]);
      EmptyCanon(D, p + [true]);
    }
  }

  /** A subtree is the empty one exactly when it holds no label. */
  lemma NoneIsEmpty(D: nat, p: Label, m: LabelMap)
    requires |p| <= D && Sized(D, m)
    ensures NoneBelow(p, m) <==> Canon(D, p, m) == Empty(D, |p|)
    ensures NoneBelow(p, m) ==> Sub(D, p, m) == []
  {
    EmptyCanon(D, p);
    if NoneBelow(p, m) {
      assert Agree(D, p, m, map[]);
      CanonAgree(D, p, m, map[]);
    }
    if Canon(D, p, m) == Empty(D, |p|) {
      CanonInjective(D, p, m, map[]);
    }
  }

  /** `Sub` lists exactly the labels of the map below p, each with its slot. */
  lemma {:induction false} SubExact(D: nat, p: Label, m: LabelMap, x: Leaf)
    requires |p| <= D
    ensures x in Sub(D, p, m) <==> |x.lbl| == D && p <= x.lbl && x.lbl in m && m[x.lbl] == x.slot
    decreases D - |p|
  {
    if |p| < D {
      SubExact(D, p + [false], m, x);
      SubExact(D, p + [true], m, x);
      if |x.lbl| == D {
        Sides(p, x.lbl);
      }
    } else if |x.lbl| == D && p <= x.lbl {
      assert x.lbl == p;
    }
  }

  // --- Order ----------------------------------------------------------------------------

  /** Byte order on labels of one length: they part at a bit that is 0 in a and 1 in b. */
  predicate Less(a: Label, b: Label) {
    exists k :: 0 <= k < |a| && k < |b| && a[..k] == b[..k] && !a[k] && b[k]
  }

  lemma LessWitness(a: Label, b: Label, k: nat)
    requires k < |a| && k < |b| && a[..k] == b[..k] && !a[k] && b[k]
    ensures Less(a, b)
  {
  }

  lemma LessTransitive(a: Label, b: Label, c: Label)
    requires Less(a, b) && Less(b, c)
    ensures Less(a, c)
  {
    var i :| 0 <= i < |a| && i < |b| && a[..i] == b[..i] && !a[i] && b[i];
    var j :| 0 <= j < |b| && j < |c| && b[..j] == c[..j] && !b[j] && c[j];
    var k := if i < j then i else j;
    assert a[..k] == a[..i][..k] == b[..i][..k] == b[..j][..k] == c[..j][..k] == c[..k];
    assert i < j ==> b[i] == b[..j][i] == c[..j][i] == c[i];
    assert j < i ==> a[j] == a[..i][j] == b[..i][j] == b[j];
    LessWitness(a, c, k);
  }

  lemma LessAsymmetric(a: Label, b: Label)
    ensures !(Less(a, b) && Less(b, a))
  {
    if Less(a, b) && Less(b, a) {
      LessTransitive(a, b, a);
      LessIrreflexive(a, a);
      assert false;
    }
  }

  lemma LessIrreflexive(a: Label, b: Label)
    requires Less(a, b)
    ensures a != b
  {
  }

  ghost predicate Ascending(s: seq<Leaf>) {
    forall i, j :: 0 <= i < j < |s| ==> Less(s[i].lbl, s[j].lbl)
  }

  /** Neighbours in order are all in order. */
  lemma {:induction false} NeighboursAscend(s: seq<Leaf>)
    requires forall i :: 0 < i < |s| ==> Less(s[i - 1].lbl, s[i].lbl)
    ensures Ascending(s)
  {
    forall i, j | 0 <= i < j < |s|
      ensures Less(s[i].lbl, s[j].lbl)
    {
      NeighbourChain(s, i, j);
    }
  }

  lemma {:induction false} NeighbourChain(s: seq<Leaf>, i: nat, j: nat)
    requires forall i :: 0 < i < |s| ==> Less(s[i - 1].lbl, s[i].lbl)
    requires i < j < |s|
    ensures Less(s[i].lbl, s[j].lbl)
    decreases j
  {
    if i + 1 < j {
      NeighbourChain(s, i, j - 1);
      LessTransitive(s[i].lbl, s[j - 1].lbl, s[j].lbl);
    }
  }

  /** `Sub` lists them in label order, each once. */
  lemma {:induction false} SubAscending(D: nat, p: Label, m: LabelMap)
    requires |p| <= D
    ensures Ascending(Sub(D, p, m))
    decreases D - |p|
  {
    if |p| < D {
      var a, b := Sub(D, p + [false], m), Sub(D, p + [true], m);
      SubAscending(D, p + [false], m);
      SubAscending(D, p + [true], m);
      forall x, y | x in a && y in b
        ensures Less(x.lbl, y.lbl)
      {
        SubExact(D, p + [false], m, x);
        SubExact(D, p + [true], m, y);
        Longer(p, false, x.lbl);
        Longer(p, true, y.lbl);
        LessWitness(x.lbl, y.lbl, |p|);
      }
      AscendingConcat(a, b);
    }
  }

  lemma AscendingConcat(a: seq<Leaf>, b: seq<Leaf>)
    requires Ascending(a) && Ascending(b)
    requires forall x, y :: x in a && y in b ==> Less(x.lbl, y.lbl)
    ensures Ascending(a + b)
  {
    forall i, j | 0 <= i < j < |a + b|
      ensures Less((a + b)[i].lbl, (a + b)[j].lbl)
    {
      if i < |a| <= j {
        assert (a + b)[i] in a && (a + b)[j] in b;
      }
    }
  }

  // --- One label alone ---------------------------------------------------------------------

  /** The hash at depth d of a subtree that holds l alone. */
  function Chain(D: nat, l: Label, s: Slot, d: nat): Digest
    requires |l| == D && d <= D
    decreases D - d
  {
    if d == D then LeafDigest(l, s)
    else if l[d] then MapNode(Empty(D, d + 1), Chain(D, l, s, d + 1))
    else MapNode(Chain(D, l, s, d + 1), Empty(D, d + 1))
  }

  lemma OnlyHolds(l: Label, p: Label, m: LabelMap)
    requires OnlyBelow(l, p, m)
    ensures l in m && p <= l
  {
  }

  lemma {:induction false} ChainIsCanon(D: nat, l: Label, d: nat, m: LabelMap)
    requires |l| == D && d <= D && Sized(D, m) && OnlyBelow(l, l[..d], m)
    ensures Canon(D, l[..d], m) == Chain(D, l, m[l], d)
    ensures Sub(D, l[..d], m) == [Leaf(l, m[l])]
    decreases D - d
  {
    hide NoneBelow, OnlyBelow, Sized;
    OnlyHolds(l, l[..d], m);
    if d == D {
      assert l[..d] == l;
    } else {
      OnlyBelowNext(D, l, d, m);
      ChainIsCanon(D, l, d + 1, m);
      NoneIsEmpty(D, Aside(l, d), m);
      assert l[..d + 1] == l[..d] + [l[d]];
    }
  }

  /** A label alone below its path is alone further down it, and there is nothing beside it. */
  lemma OnlyBelowNext(D: nat, l: Label, d: nat, m: LabelMap)
    requires |l| == D && d < D && Sized(D, m) && OnlyBelow(l, l[..d], m)
    ensures OnlyBelow(l, l[..d + 1], m) && NoneBelow(Aside(l, d), m)
  {
    forall k | k in m
      ensures Aside(l, d) <= k ==> false
      ensures l[..d + 1] <= k ==> k == l
    {
      Longer(l[..d], !l[d], k);
      Longer(l[..d], l[d], k);
      assert l[..d + 1] == l[..d] + [l[d]];
    }
  }

  // --- The reference --------------------------------------------------------------------------

  /** The items whose bit d is b. */
  ghost function Side(items: LabelMap, d: nat, b: bool): LabelMap
    requires forall l :: l in items ==> d < |l|
  {
    map l | l in items && l[d] == b :: items[l]
  }

  /** map_root of kt/tools/verify_vectors.py: split the items by their bit at every depth. */
  ghost function MapRoot(D: nat, d: nat, items: LabelMap): Digest
    requires d <= D && Sized(D, items)
    decreases D - d
  {
    if items == map[] then Empty(D, d)
    else if d == D then
      var l :| l in items;
      LeafDigest(l, items[l])
    else MapNode(MapRoot(D, d + 1, Side(items, d, false)), MapRoot(D, d + 1, Side(items, d, true)))
  }

  lemma SideAgrees(D: nat, p: Label, items: LabelMap, b: bool)
    requires |p| < D && Sized(D, items)
    requires forall l :: l in items ==> p <= l
    ensures Sized(D, Side(items, |p|, b))
    ensures forall l :: l in Side(items, |p|, b) ==> p + [b] <= l
    ensures Agree(D, p + [b], Side(items, |p|, b), items)
  {
    var side := Side(items, |p|, b);
    forall l | l in side
      ensures p + [b] <= l
    {
      Longer(p, b, l);
    }
    forall l: Label | |l| == D && p + [b] <= l
      ensures l[|p|] == b
    {
      Longer(p, b, l);
    }
  }

  /** The definition by paths is the definition by splitting. */
  lemma {:induction false} MapRootIsCanon(D: nat, p: Label, items: LabelMap)
    requires |p| <= D && Sized(D, items)
    requires forall l :: l in items ==> p <= l
    ensures MapRoot(D, |p|, items) == Canon(D, p, items)
    decreases D - |p|
  {
    if items == map[] {
      EmptyCanon(D, p);
    } else if |p| == D {
      assert forall l :: l in items ==> l == p;
    } else {
      hide Side, Agree;
      SideAgrees(D, p, items, false);
      SideAgrees(D, p, items, true);
      MapRootIsCanon(D, p + [false], Side(items, |p|, false));
      MapRootIsCanon(D, p + [true], Side(items, |p|, true));
      CanonAgree(D, p + [false], Side(items, |p|, false), items);
      CanonAgree(D, p + [true], Side(items, |p|, true), items);
    }
  }

  // --- The definition written out ------------------------------------------------------

  /** A leaf binds the label, the index and the version; a place not taken is the empty leaf; above them each hash is of the two below. */
  lemma AsDefined(D: nat, p: Label, m: LabelMap)
    requires |p| <= D
    ensures |p| == D && p in m ==> Canon(D, p, m) == MapLeaf(p, m[p].index, m[p].version)
    ensures |p| == D && p !in m ==> Canon(D, p, m) == MapEmpty
    ensures |p| < D ==> Canon(D, p, m) == MapNode(Canon(D, p + [false], m), Canon(D, p + [true], m))
    ensures Empty(D, |p|) == if |p| == D then MapEmpty else MapNode(Empty(D, |p| + 1), Empty(D, |p| + 1))
  {
  }

  /** A map of two bits that holds one label. */
  lemma TwoBits(i: int, v: int)
    ensures Canon(2, [], map[[false, true] := Slot(i, v)]) ==
      MapNode(MapNode(MapEmpty, MapLeaf([false, true], i, v)), MapNode(MapEmpty, MapEmpty))
    ensures Empty(2, 0) == MapNode(MapNode(MapEmpty, MapEmpty), MapNode(MapEmpty, MapEmpty))
  {
    hide Canon, Empty;
    var m := map[[false, true] := Slot(i, v)];
    assert [] + [false] == [false] && [] + [true] == [true];
    assert [false] + [false] == [false, false] && [false] + [true] == [false, true];
    assert [true] + [false] == [true, false] && [true] + [true] == [true, true];
    AsDefined(2, [], m);
    AsDefined(2, [false], m);
    AsDefined(2, [true], m);
    AsDefined(2, [false, false], m);
    AsDefined(2, [false, true], m);
    AsDefined(2, [true, false], m);
    AsDefined(2, [true, true], m);
  }
}
