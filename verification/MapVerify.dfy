/**
 The readers' side of kt/lib/smt.js: the verifiers of map proofs and of buckets, which
 see a root and what they were sent, and what their acceptance means.
 */
module MapVerify {
  import opened Digests
  import opened SparseMap
  import opened CompactMap

  // --- Map proofs -----------------------------------------------------------------

  /** How many bits are set. */
  function Ones(bitmap: seq<bool>): nat {
    if bitmap == [] then 0
    else Ones(bitmap[..|bitmap| - 1]) + (if bitmap[|bitmap| - 1] then 1 else 0)
  }

  lemma {:induction false} OnesPrefix(bitmap: seq<bool>, d: nat, e: nat)
    requires d <= e <= |bitmap|
    ensures Ones(bitmap[..d]) <= Ones(bitmap[..e])
    ensures d < e && bitmap[d] ==> Ones(bitmap[..d]) < Ones(bitmap[..e])
    decreases e
  {
    if d < e {
      assert bitmap[..e][..e - 1] == bitmap[..e - 1];
      OnesPrefix(bitmap, d, e - 1);
    }
  }

  /** The sibling that a compressed proof gives at depth d. */
  function Sibling(D: nat, bitmap: seq<bool>, siblings: seq<Digest>, d: nat): Digest
    requires d < D == |bitmap| && |siblings| == Ones(bitmap)
  {
    if bitmap[d] then
      OnesPrefix(bitmap, d, D);
      assert bitmap[..D] == bitmap;
      siblings[Ones(bitmap[..d])]
    else Empty(D, d + 1)
  }

  /** The hash that the proof gives at depth d of the label's path. */
  function Rise(D: nat, l: Label, h: Digest, bitmap: seq<bool>, siblings: seq<Digest>, d: nat): Digest
    requires |l| == D == |bitmap| && |siblings| == Ones(bitmap) && d <= D
    decreases D - d
  {
    if d == D then h
    else
      var below, beside := Rise(D, l, h, bitmap, siblings, d + 1), Sibling(D, bitmap, siblings, d);
      if l[d] then MapNode(beside, below) else MapNode(below, beside)
  }

  function LeafOf(l: Label, leaf: MaybeSlot): Digest {
    if leaf.Present? then LeafDigest(l, leaf.slot) else MapEmpty
  }

  predicate MapProofVerifies(D: nat, root: Digest, l: Label, proof: MapProof) {
    |l| == D == |proof.bitmap| && |proof.siblings| == Ones(proof.bitmap) &&
    Rise(D, l, LeafOf(l, proof.leaf), proof.bitmap, proof.siblings, 0) == root
  }

  /** verifyMapProof: folds the leaf up from depth D, taking the siblings from the last. */
  method VerifyMapProof(D: nat, root: Digest, l: Label, proof: MapProof) returns (ok: bool)
    ensures ok <==> MapProofVerifies(D, root, l, proof)
  {
    var bitmap, siblings := proof.bitmap, proof.siblings;
    if |l| != D || |bitmap| != D {
      return false;
    }
    var expected := 0;
    for d := 0 to D
      invariant expected == Ones(bitmap[..d])
    {
      assert bitmap[..d + 1][..d] == bitmap[..d];
      if bitmap[d] {
        expected := expected + 1;
      }
    }
    assert bitmap[..D] == bitmap;
    if |siblings| != expected {
      return false;
    }
    var h := if proof.leaf.Present? then LeafDigest(l, proof.leaf.slot) else Empty(D, D);
    var s, d := |siblings| - 1, D;
    while d > 0
      invariant 0 <= d <= D && s == Ones(bitmap[..d]) - 1
      invariant h == Rise(D, l, LeafOf(l, proof.leaf), bitmap, siblings, d)
    {
      d := d - 1;
      OnesPrefix(bitmap, d, D);
      assert bitmap[..d + 1][..d] == bitmap[..d];
      var sib := Empty(D, d + 1);
      if bitmap[d] {
        sib := siblings[s];
        s := s - 1;
      }
      h := if !l[d] then MapNode(h, sib) else MapNode(sib, h);
    }
    return h == root;
  }

  /** Below depth d, a proof gives the true hash exactly when its leaf and siblings are the true ones. */
  lemma {:induction false} RiseExact(D: nat, l: Label, m: LabelMap, leaf: MaybeSlot,
      bitmap: seq<bool>, siblings: seq<Digest>, d: nat)
    requires |l| == D == |bitmap| && |siblings| == Ones(bitmap) && d <= D
    ensures Rise(D, l, LeafOf(l, leaf), bitmap, siblings, d) == Canon(D, l[..d], m) <==>
      leaf == Get(m, l) &&
      forall k :: d <= k < D ==> Sibling(D, bitmap, siblings, k) == Canon(D, Aside(l, k), m)
    decreases D - d
  {
    if d == D {
      assert l[..D] == l;
    } else {
      hide Sibling;
      assert l[..d + 1] == l[..d] + [l[d]];
      RiseExact(D, l, m, leaf, bitmap, siblings, d + 1);
    }
  }

  /** Soundness: a proof that verifies against a map's root states what the map holds for the label. */
  lemma MapProofSound(D: nat, m: LabelMap, l: Label, proof: MapProof)
    requires MapProofVerifies(D, Canon(D, [], m), l, proof)
    ensures proof.leaf == Get(m, l)
  {
    assert l[..0] == [];
    RiseExact(D, l, m, proof.leaf, proof.bitmap, proof.siblings, 0);
  }

  /** Completeness: the proof the map gives for any label, present or absent, verifies. */
  lemma MapProofComplete(D: nat, m: LabelMap, l: Label, proof: MapProof)
    requires |l| == D && Sized(D, m) && IsProof(D, l, m, proof)
    ensures MapProofVerifies(D, Canon(D, [], m), l, proof)
  {
    var bitmap := proof.bitmap;
    assert bitmap[..D] == bitmap && l[..0] == [];
    SibsCounted(D, l, m, bitmap, D);
    forall k | 0 <= k < D
      ensures Sibling(D, bitmap, proof.siblings, k) == Canon(D, Aside(l, k), m)
    {
      if bitmap[k] {
        SibsPlaced(D, l, m, bitmap, k, D);
      } else {
        NoneIsEmpty(D, Aside(l, k), m);
      }
    }
    RiseExact(D, l, m, proof.leaf, bitmap, proof.siblings, 0);
  }

  lemma {:induction false} SibsCounted(D: nat, l: Label, m: LabelMap, bitmap: seq<bool>, d: nat)
    requires |l| == D && d <= D && Marked(D, l, m, bitmap, D)
    ensures |SibsTo(D, l, m, d)| == Ones(bitmap[..d])
  {
    if d > 0 {
      SibsCounted(D, l, m, bitmap, d - 1);
      assert bitmap[..d][..d - 1] == bitmap[..d - 1];
    }
  }

  lemma {:induction false} SibsPlaced(D: nat, l: Label, m: LabelMap, bitmap: seq<bool>, k: nat, d: nat)
    requires |l| == D && k < d <= D && Marked(D, l, m, bitmap, D) && bitmap[k]
    ensures Ones(bitmap[..k]) < |SibsTo(D, l, m, d)|
    ensures SibsTo(D, l, m, d)[Ones(bitmap[..k])] == Canon(D, Aside(l, k), m)
  {
    hide Canon, NoneBelow, Aside;
    SibsCounted(D, l, m, bitmap, d - 1);
    if k < d - 1 {
      SibsPlaced(D, l, m, bitmap, k, d - 1);
    }
  }

  // --- Buckets ----------------------------------------------------------------------

  /** The map that a list of leaves with different labels is. */
  ghost function MapOf(leaves: seq<Leaf>): LabelMap {
    if leaves == [] then map[]
    else
      var last := leaves[|leaves| - 1];
      MapOf(leaves[..|leaves| - 1])[last.lbl := last.slot]
  }

  ghost predicate Holds(m: LabelMap, x: Leaf) {
    x.lbl in m && m[x.lbl] == x.slot
  }

  lemma {:induction false} MapOfExact(leaves: seq<Leaf>, x: Leaf)
    requires Ascending(leaves)
    ensures Holds(MapOf(leaves), x) <==> x in leaves
  {
    if leaves != [] {
      var n := |leaves| - 1;
      var init, last := leaves[..n], leaves[n];
      assert leaves == init + [last];
      MapOfExact(init, x);
      if x in init {
        var i :| 0 <= i < n && init[i] == x;
        assert Less(leaves[i].lbl, leaves[n].lbl);
        LessIrreflexive(x.lbl, last.lbl);
      }
    }
  }

  /** Two ascending lists of the same leaves are one list. */
  lemma {:induction false} AscendingUnique(s: seq<Leaf>, t: seq<Leaf>)
    requires Ascending(s) && Ascending(t)
    requires forall x :: x in s <==> x in t
    ensures s == t
  {
    if s == [] {
      if t != [] {
        HeadIsIn(t);
        assert false;
      }
    } else {
      assert s[0] in t;
      FirstIsFirst(s, t);
      var s', t' := s[1..], t[1..];
      forall x
        ensures x in s' <==> x in t'
      {
        RestOf(s, x);
        RestOf(t, x);
      }
      AscendingUnique(s', t');
    }
  }

  lemma HeadIsIn(t: seq<Leaf>)
    requires t != []
    ensures t[0] in t
  {
  }

  lemma FirstIsFirst(s: seq<Leaf>, t: seq<Leaf>)
    requires Ascending(s) && Ascending(t) && s != [] && t != []
    requires s[0] in t && t[0] in s
    ensures s[0] == t[0]
  {
    var i :| 0 <= i < |s| && s[i] == t[0];
    var j :| 0 <= j < |t| && t[j] == s[0];
    LessAsymmetric(s[0].lbl, t[0].lbl);
  }

  lemma RestOf(s: seq<Leaf>, x: Leaf)
    requires Ascending(s) && s != []
    ensures x in s[1..] <==> x in s && x != s[0]
  {
    if x in s[1..] {
      var i :| 0 <= i < |s[1..]| && s[1..][i] == x;
      assert Less(s[0].lbl, s[i + 1].lbl);
      LessIrreflexive(s[0].lbl, x.lbl);
    }
  }

  /** Every leaf is a label of D bits below p. */
  ghost predicate AllBelow(D: nat, p: Label, leaves: seq<Leaf>) {
    forall i :: 0 <= i < |leaves| ==> |leaves[i].lbl| == D && p <= leaves[i].lbl
  }

  /** What a list of ascending leaves below p holds there is the list. */
  lemma SubOfMapOf(D: nat, p: Label, leaves: seq<Leaf>)
    requires |p| <= D && Ascending(leaves) && AllBelow(D, p, leaves)
    ensures Sub(D, p, MapOf(leaves)) == leaves
  {
    var sub := Sub(D, p, MapOf(leaves));
    SubAscending(D, p, MapOf(leaves));
    forall x
      ensures x in sub <==> x in leaves
    {
      SubExact(D, p, MapOf(leaves), x);
      MapOfExact(leaves, x);
      if x in leaves {
        var i :| 0 <= i < |leaves| && leaves[i] == x;
      }
    }
    AscendingUnique(sub, leaves);
  }

  /** Splitting ascending leaves at their first 1 in bit |p| splits them between the two sides of p. */
  lemma SplitSides(D: nat, p: Label, leaves: seq<Leaf>, split: nat, i: nat)
    requires |p| < D && Ascending(leaves) && AllBelow(D, p, leaves) && split <= |leaves| && i < |leaves|
    requires i < split ==> !leaves[i].lbl[|p|]
    requires split < |leaves| ==> |leaves[split].lbl| == D && leaves[split].lbl[|p|]
    ensures p + [false] <= leaves[i].lbl <==> i < split
    ensures p + [true] <= leaves[i].lbl <==> i >= split
  {
    if i > split {
      OneStaysOne(p, leaves[split].lbl, leaves[i].lbl);
    }
    Longer(p, true, leaves[i].lbl);
    Longer(p, false, leaves[i].lbl);
  }

  lemma SplitAgrees(D: nat, p: Label, leaves: seq<Leaf>, split: nat)
    requires |p| < D && Ascending(leaves) && AllBelow(D, p, leaves) && split <= |leaves|
    requires forall i :: 0 <= i < split ==> |leaves[i].lbl| == D && !leaves[i].lbl[|p|]
    requires split < |leaves| ==> |leaves[split].lbl| == D && leaves[split].lbl[|p|]
    ensures Ascending(leaves[..split]) && AllBelow(D, p + [false], leaves[..split])
    ensures Ascending(leaves[split..]) && AllBelow(D, p + [true], leaves[split..])
    ensures Agree(D, p + [false], MapOf(leaves[..split]), MapOf(leaves))
    ensures Agree(D, p + [true], MapOf(leaves[split..]), MapOf(leaves))
  {
    hide Less, Agree, MapOf;
    forall i | 0 <= i < |leaves|
      ensures p + [false] <= leaves[i].lbl <==> i < split
      ensures p + [true] <= leaves[i].lbl <==> i >= split
    {
      SplitSides(D, p, leaves, split, i);
    }
    assert leaves[0..split] == leaves[..split] && leaves[split..|leaves|] == leaves[split..];
    SideOfMapOf(D, p + [false], leaves, 0, split);
    SideOfMapOf(D, p + [true], leaves, split, |leaves|);
  }

  /** A part of the leaves that is all of those below q holds there what the whole does. */
  lemma SideOfMapOf(D: nat, q: Label, leaves: seq<Leaf>, lo: nat, hi: nat)
    requires lo <= hi <= |leaves| && Ascending(leaves) && |q| > 0
    requires forall i :: 0 <= i < |leaves| ==> |leaves[i].lbl| == D
    requires forall i :: 0 <= i < |leaves| ==> (q <= leaves[i].lbl <==> lo <= i < hi)
    ensures Ascending(leaves[lo..hi]) && Agree(D, q, MapOf(leaves[lo..hi]), MapOf(leaves))
  {
    hide MapOf, Holds, Less, Agree;
    var part := leaves[lo..hi];
    forall l: Label, s | |l| == D && q <= l
      ensures Holds(MapOf(part), Leaf(l, s)) <==> Holds(MapOf(leaves), Leaf(l, s))
    {
      MapOfExact(part, Leaf(l, s));
      MapOfExact(leaves, Leaf(l, s));
      PartHas(q, leaves, lo, hi, Leaf(l, s));
    }
    AgreeByHolds(D, q, MapOf(part), MapOf(leaves));
  }

  lemma PartHas(q: Label, leaves: seq<Leaf>, lo: nat, hi: nat, x: Leaf)
    requires lo <= hi <= |leaves| && q <= x.lbl
    requires forall i :: 0 <= i < |leaves| ==> (q <= leaves[i].lbl <==> lo <= i < hi)
    ensures x in leaves[lo..hi] <==> x in leaves
  {
    if x in leaves {
      var i :| 0 <= i < |leaves| && leaves[i] == x;
      assert leaves[lo..hi][i - lo] == x;
    }
  }

  lemma AgreeByHolds(D: nat, q: Label, m: LabelMap, m': LabelMap)
    requires forall l: Label, s :: |l| == D && q <= l ==> (Holds(m, Leaf(l, s)) <==> Holds(m', Leaf(l, s)))
    ensures Agree(D, q, m, m')
  {
    forall l: Label | |l| == D && q <= l
      ensures (l in m <==> l in m') && (l in m ==> m[l] == m'[l])
    {
      if l in m {
        assert Holds(m, Leaf(l, m[l]));
      }
      if l in m' {
        assert Holds(m', Leaf(l, m'[l]));
      }
    }
  }

  lemma OneStaysOne(p: Label, a: Label, b: Label)
    requires |p| < |a| && |p| < |b| && p <= a && p <= b && Less(a, b) && a[|p|]
    ensures b[|p|]
  {
    assert forall k :: 0 <= k < |p| ==> a[k] == b[k];
    var k :| 0 <= k < |a| && k < |b| && a[..k] == b[..k] && !a[k] && b[k];
    assert k > |p|;
    assert a[..k][|p|] == b[..k][|p|];
  }

  /** bucketRoot: the hash, at p, of the subtree that holds exactly the leaves. */
  method BucketRoot(D: nat, leaves: seq<Leaf>, ghost p: Label, depth: nat) returns (h: Digest)
    requires |p| == depth <= D && Ascending(leaves) && AllBelow(D, p, leaves)
    ensures h == Canon(D, p, MapOf(leaves))
    decreases D - depth
  {
    BucketBase(D, p, leaves);
    if |leaves| == 0 {
      return Empty(D, depth);
    }
    if |leaves| == 1 {
      h := ChainHash(D, leaves[0].lbl, leaves[0].slot, depth);
      return h;
    }
    var split := 0;
    while split < |leaves| && !leaves[split].lbl[depth]
      invariant 0 <= split <= |leaves|
      invariant forall i :: 0 <= i < split ==> !leaves[i].lbl[depth]
    {
      split := split + 1;
    }
    SplitAgrees(D, p, leaves, split);
    var left := BucketRoot(D, leaves[..split], p + [false], depth + 1);
    var right := BucketRoot(D, leaves[split..], p + [true], depth + 1);
    CanonAgree(D, p + [false], MapOf(leaves[..split]), MapOf(leaves));
    CanonAgree(D, p + [true], MapOf(leaves[split..]), MapOf(leaves));
    return MapNode(left, right);
  }

  lemma WholeLabel(p: Label, l: Label)
    requires p <= l && |p| == |l|
    ensures p == l
  {
  }

  /** No leaves, one, or too many for the last depth: two labels of D bits below one of D bits are equal. */
  lemma BucketBase(D: nat, p: Label, leaves: seq<Leaf>)
    requires |p| <= D && Ascending(leaves) && AllBelow(D, p, leaves)
    ensures |leaves| == 0 ==> Canon(D, p, MapOf(leaves)) == Empty(D, |p|)
    ensures |leaves| == 1 ==> Canon(D, p, MapOf(leaves)) == Chain(D, leaves[0].lbl, leaves[0].slot, |p|)
    ensures |leaves| > 1 ==> |p| < D
  {
    if |leaves| == 0 {
      EmptyCanon(D, p);
    } else if |leaves| == 1 {
      var x := leaves[0];
      assert leaves[..0] == [];
      assert MapOf(leaves) == map[x.lbl := x.slot];
      assert x.lbl[..|p|] == p;
      ChainIsCanon(D, x.lbl, |p|, MapOf(leaves));
    } else {
      LessIrreflexive(leaves[0].lbl, leaves[1].lbl);
      if |p| == D {
        WholeLabel(p, leaves[0].lbl);
        WholeLabel(p, leaves[1].lbl);
        assert false;
      }
    }
  }

  /** The sibling for depth k, in a list that starts at depth bits - 1. */
  function At(siblings: seq<Digest>, bits: nat, k: nat): Digest
    requires k < bits == |siblings|
  {
    siblings[bits - 1 - k]
  }

  /** The hash at depth d of the prefix's path, from a hash at depth `bits` and the siblings above it. */
  function Climb(prefix: Label, bits: nat, h: Digest, siblings: seq<Digest>, d: nat): Digest
    requires d <= bits <= |prefix| && |siblings| == bits
    decreases bits - d
  {
    if d == bits then h
    else
      var below, beside := Climb(prefix, bits, h, siblings, d + 1), At(siblings, bits, d);
      if prefix[d] then MapNode(beside, below) else MapNode(below, beside)
  }

  /** hasPrefix. */
  method HasPrefix(l: Label, prefix: Label, bits: nat) returns (ok: bool)
    requires bits <= |l| && bits <= |prefix|
    ensures ok <==> prefix[..bits] <= l
  {
    for d := 0 to bits
      invariant l[..d] == prefix[..d]
    {
      if l[d] != prefix[d] {
        assert prefix[..bits][d] != l[d];
        return false;
      }
    }
    return true;
  }

  /** The checks a reader makes before hashing anything. */
  ghost predicate BucketShaped(D: nat, prefix: Label, bits: int, leaves: seq<Leaf>, siblings: seq<Digest>) {
    |prefix| == D && 0 <= bits <= D && |siblings| == bits &&
    Ascending(leaves) && AllBelow(D, prefix[..bits], leaves) &&
    forall i :: 0 <= i < |leaves| ==> leaves[i].slot.index >= 0 && leaves[i].slot.version >= 0
  }

  ghost predicate BucketVerifies(D: nat, root: Digest, prefix: Label, bits: int, leaves: seq<Leaf>, siblings: seq<Digest>) {
    BucketShaped(D, prefix, bits, leaves, siblings) &&
    Climb(prefix, bits, Canon(D, prefix[..bits], MapOf(leaves)), siblings, 0) == root
  }

  /** verifyBucket. */
  method VerifyBucket(D: nat, root: Digest, prefix: Label, bits: int, leaves: seq<Leaf>, siblings: seq<Digest>)
    returns (ok: bool)
    ensures ok <==> BucketVerifies(D, root, prefix, bits, leaves, siblings)
  {
    hide Less, Canon, MapOf, Climb;
    if |prefix| != D || !(0 <= bits <= D) || |siblings| != bits {
      return false;
    }
    for i := 0 to |leaves|
      invariant forall k :: 0 <= k < i ==> |leaves[k].lbl| == D && prefix[..bits] <= leaves[k].lbl
      invariant forall k :: 0 <= k < i ==> leaves[k].slot.index >= 0 && leaves[k].slot.version >= 0
      invariant forall k :: 0 < k < i ==> Less(leaves[k - 1].lbl, leaves[k].lbl)
    {
      var x := leaves[i];
      if |x.lbl| != D {
        return false;
      }
      if x.slot.index < 0 || x.slot.version < 0 {
        return false;
      }
      var below := HasPrefix(x.lbl, prefix, bits);
      if !below {
        return false;
      }
      if i > 0 && !Less(leaves[i - 1].lbl, x.lbl) {
        return false;
      }
    }
    NeighboursAscend(leaves);
    ClimbStart(prefix, bits, Canon(D, prefix[..bits], MapOf(leaves)), siblings);
    var h := BucketRoot(D, leaves, prefix[..bits], bits);
    for i := 0 to bits
      invariant h == Climb(prefix, bits, Canon(D, prefix[..bits], MapOf(leaves)), siblings, bits - i)
    {
      var d := bits - 1 - i;
      ClimbStep(prefix, bits, Canon(D, prefix[..bits], MapOf(leaves)), siblings, d);
      h := if !prefix[d] then MapNode(h, siblings[i]) else MapNode(siblings[i], h);
    }
    return h == root;
  }

  lemma ClimbStart(prefix: Label, bits: nat, h: Digest, siblings: seq<Digest>)
    requires bits <= |prefix| && |siblings| == bits
    ensures Climb(prefix, bits, h, siblings, bits) == h
  {
  }

  lemma ClimbStep(prefix: Label, bits: nat, h: Digest, siblings: seq<Digest>, d: nat)
    requires d < bits <= |prefix| && |siblings| == bits
    ensures Climb(prefix, bits, h, siblings, d) ==
      if prefix[d] then MapNode(siblings[bits - 1 - d], Climb(prefix, bits, h, siblings, d + 1))
      else MapNode(Climb(prefix, bits, h, siblings, d + 1), siblings[bits - 1 - d])
  {
  }

  lemma {:induction false} ClimbExact(D: nat, prefix: Label, bits: nat, m: LabelMap, h: Digest, siblings: seq<Digest>, d: nat)
    requires |prefix| == D && d <= bits <= D && |siblings| == bits
    ensures Climb(prefix, bits, h, siblings, d) == Canon(D, prefix[..d], m) <==>
      h == Canon(D, prefix[..bits], m) &&
      forall k :: d <= k < bits ==> At(siblings, bits, k) == Canon(D, Aside(prefix, k), m)
    decreases bits - d
  {
    if d < bits {
      assert prefix[..d + 1] == prefix[..d] + [prefix[d]];
      ClimbExact(D, prefix, bits, m, h, siblings, d + 1);
    }
  }

  /** The slots of a map the log built: an index and a version. */
  ghost predicate Counting(m: LabelMap) {
    forall l :: l in m ==> m[l].index >= 0 && m[l].version >= 0
  }

  /**
   Buckets are exact: against the root of any map, the answer that verifies is the list
   of every label with the prefix, with nothing missing, added or altered, and the
   siblings of its path; and that answer does verify.
   */
  lemma BucketExact(D: nat, m: LabelMap, prefix: Label, bits: nat, leaves: seq<Leaf>, siblings: seq<Digest>)
    requires Sized(D, m) && Counting(m) && |prefix| == D && bits <= D
    ensures BucketVerifies(D, Canon(D, [], m), prefix, bits, leaves, siblings) <==>
      leaves == Sub(D, prefix[..bits], m) && siblings == CanonSiblings(D, prefix, bits, m)
  {
    var p := prefix[..bits];
    assert prefix[..0] == [];
    if BucketShaped(D, prefix, bits, leaves, siblings) {
      ClimbExact(D, prefix, bits, m, Canon(D, p, MapOf(leaves)), siblings, 0);
      SubOfMapOf(D, p, leaves);
    }
    if BucketVerifies(D, Canon(D, [], m), prefix, bits, leaves, siblings) {
      CanonInjective(D, p, MapOf(leaves), m);
      CanonAgree(D, p, MapOf(leaves), m);
      SiblingsByDepth(D, prefix, bits, m, siblings);
    }
    if leaves == Sub(D, p, m) && siblings == CanonSiblings(D, prefix, bits, m) {
      SubShaped(D, prefix, bits, m);
      SubIsMap(D, p, m);
      CanonAgree(D, p, MapOf(leaves), m);
      SiblingsByDepth(D, prefix, bits, m, siblings);
    }
  }

  lemma SiblingsByDepth(D: nat, prefix: Label, bits: nat, m: LabelMap, siblings: seq<Digest>)
    requires |prefix| == D && bits <= D && |siblings| == bits
    ensures siblings == CanonSiblings(D, prefix, bits, m) <==>
      forall k :: 0 <= k < bits ==> At(siblings, bits, k) == Canon(D, Aside(prefix, k), m)
  {
    if forall k :: 0 <= k < bits ==> At(siblings, bits, k) == Canon(D, Aside(prefix, k), m) {
      forall i | 0 <= i < bits
        ensures siblings[i] == CanonSiblings(D, prefix, bits, m)[i]
      {
        var k := bits - 1 - i;
        assert At(siblings, bits, k) == Canon(D, Aside(prefix, k), m);
      }
    }
  }

  lemma SubShaped(D: nat, prefix: Label, bits: nat, m: LabelMap)
    requires Sized(D, m) && Counting(m) && |prefix| == D && bits <= D
    ensures BucketShaped(D, prefix, bits, Sub(D, prefix[..bits], m), CanonSiblings(D, prefix, bits, m))
  {
    var sub := Sub(D, prefix[..bits], m);
    SubAscending(D, prefix[..bits], m);
    forall i | 0 <= i < |sub|
      ensures |sub[i].lbl| == D && prefix[..bits] <= sub[i].lbl
      ensures sub[i].slot.index >= 0 && sub[i].slot.version >= 0
    {
      SubExact(D, prefix[..bits], m, sub[i]);
    }
  }

  lemma SubIsMap(D: nat, p: Label, m: LabelMap)
    requires |p| <= D
    ensures Agree(D, p, MapOf(Sub(D, p, m)), m)
  {
    var sub := Sub(D, p, m);
    SubAscending(D, p, m);
    forall l: Label, s | |l| == D && p <= l
      ensures Holds(MapOf(sub), Leaf(l, s)) <==> Holds(m, Leaf(l, s))
    {
      MapOfExact(sub, Leaf(l, s));
      SubExact(D, p, m, Leaf(l, s));
    }
    AgreeByHolds(D, p, MapOf(sub), m);
  }
}
