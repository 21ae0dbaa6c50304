/**
 The map as the log keeps it (kt/lib/smt.js): a node exists only where two labels or
 more share the path, and a label alone is one record. Every operation is proved
 against the definition in SparseMap.dfy.
 */
module CompactMap {
  import opened Digests
  import opened SparseMap

  /** A subtree: none, one label (hashed up to where it sits), or a node above two labels or more. */
  datatype Tree =
    | Nil
    | Single(lbl: Label, slot: Slot, hash: Digest)
    | Internal(left: Tree, right: Tree, hash: Digest)

  function HashAt(D: nat, t: Tree, d: nat): Digest
    requires d <= D
  {
    if t.Nil? then Empty(D, d) else t.hash
  }

  ghost predicate Crowd(p: Label, m: LabelMap) {
    exists a, b :: a in m && b in m && a != b && p <= a && p <= b
  }

  /** `t` is the compact tree of what m holds below p. */
  ghost predicate Wf(D: nat, t: Tree, p: Label, m: LabelMap)
    requires |p| <= D
    decreases t
  {
    match t
    case Nil => NoneBelow(p, m)
    case Single(l, s, h) => |l| == D && OnlyBelow(l, p, m) && s == m[l] && h == Chain(D, l, s, |p|)
    case Internal(a, b, h) =>
      |p| < D && Crowd(p, m) && Wf(D, a, p + [false], m) && Wf(D, b, p + [true], m) &&
      h == MapNode(HashAt(D, a, |p| + 1), HashAt(D, b, |p| + 1))
  }

  /** The leaves of a tree, left to right. */
  function LeavesOf(t: Tree): seq<Leaf> {
    match t
    case Nil => []
    case Single(l, s, _) => [Leaf(l, s)]
    case Internal(a, b, _) => LeavesOf(a) + LeavesOf(b)
  }

  /** The compact tree has the canonical hash and the canonical leaves. */
  lemma {:induction false} WfIsCanon(D: nat, t: Tree, p: Label, m: LabelMap)
    requires |p| <= D && Sized(D, m) && Wf(D, t, p, m)
    ensures HashAt(D, t, |p|) == Canon(D, p, m)
    ensures LeavesOf(t) == Sub(D, p, m)
    decreases t
  {
    match t
    case Nil => NoneIsEmpty(D, p, m);
    case Single(l, s, h) =>
      assert l[..|p|] == p;
      ChainIsCanon(D, l, |p|, m);
    case Internal(a, b, h) =>
      WfIsCanon(D, a, p + [false], m);
      WfIsCanon(D, b, p + [true], m);
  }

  /** There is one compact tree of a map, whatever order it was filled in. */
  lemma {:induction false} WfUnique(D: nat, t: Tree, t': Tree, p: Label, m: LabelMap)
    requires |p| <= D && Sized(D, m) && Wf(D, t, p, m) && Wf(D, t', p, m)
    ensures t == t'
    decreases t
  {
    if t.Internal? && t'.Internal? {
      WfUnique(D, t.left, t'.left, p + [false], m);
      WfUnique(D, t.right, t'.right, p + [true], m);
    }
  }

  /** A subtree is untouched by what happens elsewhere. */
  lemma {:induction false} WfAgree(D: nat, t: Tree, p: Label, m: LabelMap, m': LabelMap)
    requires |p| <= D && Sized(D, m) && Sized(D, m') && Agree(D, p, m, m') && Wf(D, t, p, m)
    ensures Wf(D, t, p, m')
    decreases t
  {
    if t.Internal? {
      AgreeSides(D, p, m, m');
      WfAgree(D, t.left, p + [false], m, m');
      WfAgree(D, t.right, p + [true], m, m');
    }
  }

  /** Setting a label leaves the other side of its path alone. */
  lemma AsideAgrees(D: nat, l: Label, d: nat, m: LabelMap, s: Slot)
    requires |l| == D && d < D && Sized(D, m)
    ensures Sized(D, m[l := s]) && Agree(D, Aside(l, d), m, m[l := s])
  {
    Longer(l[..d], !l[d], l);
  }

  lemma CrowdGrows(p: Label, m: LabelMap, l: Label, s: Slot)
    requires Crowd(p, m)
    ensures Crowd(p, m[l := s])
  {
    var a, b :| a in m && b in m && a != b && p <= a && p <= b;
    assert a in m[l := s] && b in m[l := s];
  }

  // --- Building nodes ------------------------------------------------------------

  /** chainHash: the loop hashes the leaf up through empty siblings. */
  method ChainHash(D: nat, l: Label, s: Slot, depth: nat) returns (h: Digest)
    requires |l| == D && depth <= D
    ensures h == Chain(D, l, s, depth)
  {
    h := LeafDigest(l, s);
    var d := D;
    while d > depth
      invariant depth <= d <= D && h == Chain(D, l, s, d)
    {
      d := d - 1;
      h := if !l[d] then MapNode(h, Empty(D, d + 1)) else MapNode(Empty(D, d + 1), h);
    }
  }

  method NewSingle(D: nat, l: Label, s: Slot, depth: nat) returns (t: Tree)
    requires |l| == D && depth <= D
    ensures t == Single(l, s, Chain(D, l, s, depth))
  {
    var h := ChainHash(D, l, s, depth);
    t := Single(l, s, h);
  }

  function NewInternal(D: nat, left: Tree, right: Tree, depth: nat): Tree
    requires depth < D
  {
    Internal(left, right, MapNode(HashAt(D, left, depth + 1), HashAt(D, right, depth + 1)))
  }

  /** A node with `sub` on l's side of its path at depth d and `other` on the other. */
  function Join(D: nat, l: Label, d: nat, sub: Tree, other: Tree): Tree
    requires |l| == D && d < D
  {
    if !l[d] then NewInternal(D, sub, other, d) else NewInternal(D, other, sub, d)
  }

  lemma JoinWf(D: nat, l: Label, d: nat, sub: Tree, other: Tree, m: LabelMap)
    requires |l| == D && d < D && Crowd(l[..d], m)
    requires Wf(D, sub, l[..d + 1], m) && Wf(D, other, Aside(l, d), m)
    ensures Wf(D, Join(D, l, d, sub, other), l[..d], m)
    ensures Join(D, l, d, sub, other) == if l[d] then NewInternal(D, other, sub, d) else NewInternal(D, sub, other, d)
  {
    assert l[..d + 1] == l[..d] + [l[d]];
  }

  // --- insert ------------------------------------------------------------------------

  /** Below l's path at depth d there are l and k, and nothing else. */
  ghost predicate PairBelow(l: Label, k: Label, d: nat, m: LabelMap)
    requires d <= |l|
  {
    l in m && k in m && l != k && l[..d] <= k &&
    forall x :: x in m && l[..d] <= x ==> x == l || x == k
  }

  /** While the two run together there is nothing beside them. */
  lemma PairTogether(D: nat, l: Label, k: Label, d: nat, e: nat, m: LabelMap)
    requires |l| == D == |k| && d <= e < D && PairBelow(l, k, d, m) && l[..e + 1] == k[..e + 1]
    ensures Crowd(l[..e], m) && NoneBelow(Aside(l, e), m) && |Aside(l, e)| == e + 1
  {
    assert k[..e] == k[..e + 1][..e] && l[..e] == l[..e + 1][..e];
    assert k[e] == k[..e + 1][e] == l[..e + 1][e] == l[e];
    forall x | x in m
      ensures !(Aside(l, e) <= x)
    {
      if Aside(l, e) <= x {
        Longer(l[..e], !l[e], x);
        AsideBelow(l, d, e);
        Prefixes(l[..d], Aside(l, e), x);
      }
    }
  }

  /** Where they part each is alone. */
  lemma PairApart(D: nat, l: Label, k: Label, d: nat, e: nat, m: LabelMap)
    requires |l| == D == |k| && d <= e < D && PairBelow(l, k, d, m) && l[..e] == k[..e] && l[e] != k[e]
    ensures OnlyBelow(l, l[..e + 1], m) && OnlyBelow(k, k[..e + 1], m)
    ensures k[..e + 1] == Aside(l, e) && Crowd(l[..e], m)
  {
    forall x | x in m && (l[..e + 1] <= x || k[..e + 1] <= x)
      ensures x == l || x == k
    {
      assert x[..e] == l[..e];
      assert x[..d] == l[..e][..d];
    }
  }

  lemma PairRuns(l: Label, k: Label, d: nat, m: LabelMap)
    requires d <= |l| && PairBelow(l, k, d, m)
    ensures l[..d] == k[..d] && l != k && l in m && k in m
  {
  }

  lemma SingleWf(D: nat, l: Label, d: nat, m: LabelMap)
    requires |l| == D && d <= D && OnlyBelow(l, l[..d], m)
    ensures Wf(D, Single(l, m[l], Chain(D, l, m[l], d)), l[..d], m)
  {
  }

  lemma TogetherOneMore(l: Label, k: Label, e: nat)
    requires e < |l| && e < |k| && l[..e] == k[..e] && l[e] == k[e]
    ensures l[..e + 1] == k[..e + 1]
  {
  }

  lemma TogetherBefore(l: Label, k: Label, d: nat, e: nat)
    requires d <= e <= |l| && e <= |k| && l[..e] == k[..e]
    ensures l[..d] == k[..d]
  {
    assert l[..d] == l[..e][..d] && k[..d] == k[..e][..d];
  }

  /** Different labels part somewhere. */
  lemma PartSomewhere(l: Label, k: Label, e: nat)
    requires |l| == |k| && l != k && e <= |l| && l[..e] == k[..e]
    ensures e < |l|
  {
    assert l[..|l|] == l && k[..|k|] == k;
  }

  /** Two labels under one subtree: nodes down to where they part. */
  method SplitSingle(D: nat, other: Label, otherSlot: Slot, depth: nat, l: Label, s: Slot, ghost m: LabelMap)
    returns (sub: Tree)
    requires |l| == D == |other| && depth <= D && Sized(D, m)
    requires PairBelow(l, other, depth, m) && m[l] == s && m[other] == otherSlot
    ensures Wf(D, sub, l[..depth], m)
  {
    hide *;
    PairRuns(l, other, depth, m);
    var d := depth;
    PartSomewhere(l, other, d);
    while l[d] == other[d]
      invariant depth <= d < D && l[..d] == other[..d]
      decreases D - d
    {
      TogetherOneMore(l, other, d);
      d := d + 1;
      PartSomewhere(l, other, d);
    }
    PairApart(D, l, other, depth, d, m);
    var mine := NewSingle(D, l, s, d + 1);
    var theirs := NewSingle(D, other, otherSlot, d + 1);
    SingleWf(D, l, d + 1, m);
    SingleWf(D, other, d + 1, m);
    sub := Join(D, l, d, mine, theirs);
    JoinWf(D, l, d, mine, theirs, m);
    var k := d;
    while k > depth
      invariant depth <= k <= d && Wf(D, sub, l[..k], m)
    {
      k := k - 1;
      TogetherBefore(l, other, k + 1, d);
      PairTogether(D, l, other, depth, k, m);
      NilWf(D, Aside(l, k), m);
      JoinWf(D, l, k, sub, Nil, m);
      sub := Join(D, l, k, sub, Nil);
    }
  }

  /** The new subtree at l's path with l set to s. */
  method Insert(D: nat, node: Tree, depth: nat, l: Label, s: Slot, ghost m: LabelMap) returns (r: Tree)
    requires |l| == D && depth <= D && Sized(D, m) && Wf(D, node, l[..depth], m)
    ensures Wf(D, r, l[..depth], m[l := s])
    decreases node
  {
    hide *;
    InsertFacts(D, node, depth, l, s, m);
    ghost var m' := m[l := s];
    match node
    case Nil =>
      SingleWf(D, l, depth, m');
      r := NewSingle(D, l, s, depth);
    case Single(other, otherSlot, _) =>
      if other == l {
        SingleWf(D, l, depth, m');
        r := NewSingle(D, l, s, depth);
      } else {
        r := SplitSingle(D, other, otherSlot, depth, l, s, m');
      }
    case Internal(left, right, _) =>
      if !l[depth] {
        var sub := Insert(D, left, depth + 1, l, s, m);
        JoinWf(D, l, depth, sub, right, m');
        r := NewInternal(D, sub, right, depth);
      } else {
        var sub := Insert(D, right, depth + 1, l, s, m);
        JoinWf(D, l, depth, sub, left, m');
        r := NewInternal(D, left, sub, depth);
      }
  }

  /** What the three kinds of node say about the map with l set to s. */
  lemma InsertFacts(D: nat, node: Tree, depth: nat, l: Label, s: Slot, m: LabelMap)
    requires |l| == D && depth <= D && Sized(D, m) && Wf(D, node, l[..depth], m)
    ensures Sized(D, m[l := s])
    ensures node.Nil? || (node.Single? && node.lbl == l) ==> OnlyBelow(l, l[..depth], m[l := s])
    ensures node.Single? && node.lbl != l ==>
      |node.lbl| == D && PairBelow(l, node.lbl, depth, m[l := s]) && m[l := s][node.lbl] == node.slot
    ensures node.Internal? ==>
      depth < D && Crowd(l[..depth], m[l := s]) &&
      (l[depth] ==> Wf(D, node.right, l[..depth + 1], m) && Wf(D, node.left, Aside(l, depth), m[l := s])) &&
      (!l[depth] ==> Wf(D, node.left, l[..depth + 1], m) && Wf(D, node.right, Aside(l, depth), m[l := s]))
  {
    if node.Internal? {
      assert l[..depth + 1] == l[..depth] + [l[depth]];
      CrowdGrows(l[..depth], m, l, s);
      AsideAgrees(D, l, depth, m, s);
      WfAgree(D, if l[depth] then node.left else node.right, Aside(l, depth), m, m[l := s]);
    }
  }

  // --- Answers ---------------------------------------------------------------------------

  datatype MaybeSlot = Absent | Present(slot: Slot)

  function Get(m: LabelMap, l: Label): MaybeSlot {
    if l in m then Present(m[l]) else Absent
  }

  /** A compressed proof: a bit for every sibling that is not the empty subtree, and those siblings. */
  datatype MapProof = MapProof(leaf: MaybeSlot, bitmap: seq<bool>, siblings: seq<Digest>)

  /** The non-empty siblings of l's path above depth d, from the root down. */
  ghost function SibsTo(D: nat, l: Label, m: LabelMap, d: nat): seq<Digest>
    requires |l| == D && d <= D
  {
    if d == 0 then []
    else if NoneBelow(Aside(l, d - 1), m) then SibsTo(D, l, m, d - 1)
    else SibsTo(D, l, m, d - 1) + [Canon(D, Aside(l, d - 1), m)]
  }

  ghost predicate Marked(D: nat, l: Label, m: LabelMap, bitmap: seq<bool>, d: nat)
    requires |l| == D
  {
    |bitmap| == D && forall k :: 0 <= k < D ==> bitmap[k] == (k < d && !NoneBelow(Aside(l, k), m))
  }

  /** The proof of l: what the map holds for it, and the siblings of its path. */
  ghost predicate IsProof(D: nat, l: Label, m: LabelMap, proof: MapProof)
    requires |l| == D
  {
    proof.leaf == Get(m, l) && Marked(D, l, m, proof.bitmap, D) && proof.siblings == SibsTo(D, l, m, D)
  }

  /** Nothing but l, if that, is below its path at depth d. */
  ghost predicate Quiet(l: Label, d: nat, m: LabelMap)
    requires d <= |l|
  {
    forall k :: k in m && l[..d] <= k ==> k == l
  }

  /** Then every further sibling is empty. */
  lemma QuietAside(l: Label, d: nat, k: nat, m: LabelMap)
    requires d <= k < |l| && Quiet(l, d, m)
    ensures NoneBelow(Aside(l, k), m)
  {
    forall x | x in m
      ensures !(Aside(l, k) <= x)
    {
      if Aside(l, k) <= x {
        AsideBelow(l, d, k);
        Prefixes(l[..d], Aside(l, k), x);
      }
    }
  }

  /** A bound on how many labels a bucket may hold. */
  datatype Limit = Infinity | AtMost(n: nat)

  predicate Fits(n: nat, max: Limit) {
    max.Infinity? || n <= max.n
  }

  /** collect: every leaf of `node` onto `out`, or false as soon as there are more than max. */
  method Collect(node: Tree, out: seq<Leaf>, max: Limit) returns (ok: bool, all: seq<Leaf>)
    requires Fits(|out|, max)
    ensures ok <==> Fits(|out| + |LeavesOf(node)|, max)
    ensures ok ==> all == out + LeavesOf(node)
    decreases node
  {
    match node
    case Nil => return true, out;
    case Single(l, s, _) =>
      if max.AtMost? && |out| >= max.n {
        return false, out;
      }
      return true, out + [Leaf(l, s)];
    case Internal(left, right, _) =>
      ok, all := Collect(left, out, max);
      if ok {
        ok, all := Collect(right, all, max);
      }
  }

  datatype BucketResult = BadBits | TooMany | Found(leaves: seq<Leaf>, hash: Digest, siblings: seq<Digest>)

  /** The siblings of a prefix's path, from depth bits - 1 up to the root. */
  ghost function CanonSiblings(D: nat, prefix: Label, bits: nat, m: LabelMap): seq<Digest>
    requires |prefix| == D && bits <= D
  {
    seq(bits, i requires 0 <= i < bits => Canon(D, Aside(prefix, bits - 1 - i), m))
  }

  /** What a bucket is: nothing past max leaves, or all of it. */
  ghost function BucketOf(D: nat, prefix: Label, bits: int, max: Limit, m: LabelMap): BucketResult
    requires |prefix| == D
  {
    if !(0 <= bits <= D) then BadBits
    else if !Fits(|Sub(D, prefix[..bits], m)|, max) then TooMany
    else Found(Sub(D, prefix[..bits], m), Canon(D, prefix[..bits], m), CanonSiblings(D, prefix, bits, m))
  }

  /** The siblings of the prefix's path down to depth d. */
  ghost predicate SibsAre(D: nat, prefix: Label, m: LabelMap, sibs: seq<Digest>, d: nat)
    requires |prefix| == D && d <= D
  {
    |sibs| == d && forall k :: 0 <= k < d ==> sibs[k] == Canon(D, Aside(prefix, k), m)
  }

  lemma AsideBelow(l: Label, d: nat, k: nat)
    requires d <= k < |l|
    ensures l[..d] <= Aside(l, k) && |Aside(l, k)| == k + 1
  {
    assert l[..d] == Aside(l, k)[..d];
  }

  lemma NilWf(D: nat, p: Label, m: LabelMap)
    requires |p| <= D && NoneBelow(p, m)
    ensures Wf(D, Nil, p, m)
  {
  }

  lemma WfNil(D: nat, t: Tree, p: Label, m: LabelMap)
    requires |p| <= D && Wf(D, t, p, m)
    ensures t.Nil? ==> NoneBelow(p, m)
  {
  }

  lemma WfSingle(D: nat, t: Tree, p: Label, m: LabelMap)
    requires |p| <= D && Wf(D, t, p, m) && t.Single?
    ensures |t.lbl| == D && OnlyBelow(t.lbl, p, m) && t.lbl in m && t.slot == m[t.lbl] && t.lbl[..|p|] == p
  {
  }

  /** One step down a node: the side of l's path, and the sibling. */
  lemma WfInternal(D: nat, t: Tree, l: Label, d: nat, m: LabelMap)
    requires |l| == D && d < D && Sized(D, m) && Wf(D, t, l[..d], m) && t.Internal?
    ensures var mine, sib := if l[d] then t.right else t.left, if l[d] then t.left else t.right;
      Wf(D, mine, l[..d + 1], m) && HashAt(D, sib, d + 1) == Canon(D, Aside(l, d), m) &&
      (sib.Nil? <==> NoneBelow(Aside(l, d), m)) && (!sib.Nil? ==> sib.hash == Canon(D, Aside(l, d), m))
  {
    var sib := if l[d] then t.left else t.right;
    assert l[..d + 1] == l[..d] + [l[d]];
    WfIsCanon(D, sib, Aside(l, d), m);
    if !sib.Nil? {
      WfHolds(D, sib, Aside(l, d), m);
    }
  }

  lemma WfHolds(D: nat, t: Tree, p: Label, m: LabelMap)
    requires |p| <= D && Wf(D, t, p, m) && !t.Nil?
    ensures !NoneBelow(p, m)
  {
    if t.Internal? {
      var a, b :| a in m && b in m && a != b && p <= a && p <= b;
    }
  }

  lemma NoneFurther(D: nat, p: Label, q: Label, m: LabelMap)
    requires |q| <= D && Sized(D, m) && p <= q && NoneBelow(p, m)
    ensures NoneBelow(q, m) && Canon(D, q, m) == Empty(D, |q|)
  {
    forall x | x in m && q <= x
      ensures p <= x
    {
      Prefixes(p, q, x);
    }
    NoneIsEmpty(D, q, m);
  }

  lemma OnlyFurther(l: Label, d: nat, e: nat, m: LabelMap)
    requires d <= e <= |l| && OnlyBelow(l, l[..d], m)
    ensures OnlyBelow(l, l[..e], m)
  {
    forall x | x in m && l[..e] <= x
      ensures l[..d] <= x
    {
      assert x[..d] == l[..e][..d];
    }
  }

  /**
   One label below depth d that leaves the path at e: beside the path there is its own
   subtree at e, and nothing elsewhere.
   */
  lemma SingleSibling(D: nat, one: Label, path: Label, d: nat, k: nat, e: nat, m: LabelMap)
    requires |one| == D == |path| && Sized(D, m) && d <= k < D && d <= e <= D
    requires OnlyBelow(one, path[..d], m) && one[..e] == path[..e] && (k >= e ==> e < D && one[e] != path[e])
    ensures k == e ==> Canon(D, Aside(path, k), m) == Chain(D, one, m[one], e + 1) && !NoneBelow(Aside(path, k), m)
    ensures k != e ==> NoneBelow(Aside(path, k), m) && Canon(D, Aside(path, k), m) == Empty(D, k + 1)
    ensures k >= e ==> NoneBelow(path[..e + 1], m)
  {
    assert one[..d] == one[..e][..d] == path[..d];
    if k >= e {
      assert Aside(path, e) == one[..e + 1] && path[..e + 1] == Aside(one, e);
      OnlyFurther(one, d, e, m);
      OnlyBelowNext(D, one, e, m);
    }
    if k == e {
      ChainIsCanon(D, one, e + 1, m);
    } else if k > e {
      NoneFurther(D, path[..e + 1], Aside(path, k), m);
    } else {
      OnlyFurther(one, d, k, m);
      OnlyBelowNext(D, one, k, m);
      assert one[..k] == one[..e][..k] == path[..k] && one[k] == one[..e][k] == path[k];
      assert Aside(path, k) == Aside(one, k);
      NoneIsEmpty(D, Aside(path, k), m);
    }
  }

  /** The bucket of a prefix with one label above it. */
  lemma SingleBucket(D: nat, one: Label, prefix: Label, d: nat, e: nat, bits: nat, m: LabelMap)
    requires |one| == D == |prefix| && Sized(D, m) && d <= e <= bits <= D
    requires OnlyBelow(one, prefix[..d], m) && one[..e] == prefix[..e] && (e < bits ==> one[e] != prefix[e])
    ensures e == bits ==> Wf(D, Single(one, m[one], Chain(D, one, m[one], bits)), prefix[..bits], m)
    ensures e < bits ==> Wf(D, Nil, prefix[..bits], m)
  {
    assert one[..d] == one[..e][..d] == prefix[..d];
    if e < bits {
      SingleSibling(D, one, prefix, d, e, e, m);
      NoneFurther(D, prefix[..e + 1], prefix[..bits], m);
    } else {
      OnlyFurther(one, d, e, m);
    }
  }

  /** At depth d the paths of `one` and l run on together, or part with the one's subtree beside l's path. */
  ghost predicate Parting(D: nat, one: Label, l: Label, d: nat, m: LabelMap)
    requires |one| == D == |l| && d < D && one in m
  {
    if one[d] == l[d] then NoneBelow(Aside(l, d), m) && one[..d + 1] == l[..d + 1]
    else !NoneBelow(Aside(l, d), m) && NoneBelow(l[..d + 1], m) &&
         Canon(D, Aside(l, d), m) == Chain(D, one, m[one], d + 1)
  }

  /** The same for a proof's walk, one depth at a time. */
  lemma SingleAside(D: nat, one: Label, l: Label, from: nat, d: nat, m: LabelMap)
    requires |one| == D == |l| && one != l && Sized(D, m) && from <= d <= D
    requires OnlyBelow(one, l[..from], m) && one[..d] == l[..d]
    ensures d < D
    ensures Parting(D, one, l, d, m)
  {
    assert one[..D] == one && l[..D] == l;
    if one[d] == l[d] {
      assert one[..d + 1] == l[..d + 1];
      SingleSibling(D, one, l, from, d, d + 1, m);
    } else {
      SingleSibling(D, one, l, from, d, d, m);
    }
  }

  // --- How far a walk has come ------------------------------------------------------------

  /** The part of l's proof down to depth d. */
  ghost predicate Walked(D: nat, l: Label, m: LabelMap, bitmap: seq<bool>, siblings: seq<Digest>, d: nat)
    requires |l| == D && d <= D
  {
    Marked(D, l, m, bitmap, d) && siblings == SibsTo(D, l, m, d)
  }

  lemma WalkStart(D: nat, l: Label, m: LabelMap)
    requires |l| == D
    ensures Walked(D, l, m, seq(D, _ => false), [], 0)
  {
  }

  lemma WalkNothing(D: nat, l: Label, m: LabelMap, bitmap: seq<bool>, siblings: seq<Digest>, d: nat)
    requires |l| == D && d < D && Walked(D, l, m, bitmap, siblings, d) && NoneBelow(Aside(l, d), m)
    ensures Walked(D, l, m, bitmap, siblings, d + 1)
  {
  }

  lemma WalkTake(D: nat, l: Label, m: LabelMap, bitmap: seq<bool>, siblings: seq<Digest>, d: nat)
    requires |l| == D && d < D && Walked(D, l, m, bitmap, siblings, d) && !NoneBelow(Aside(l, d), m)
    ensures |bitmap| == D
    ensures Walked(D, l, m, bitmap[d := true], siblings + [Canon(D, Aside(l, d), m)], d + 1)
  {
  }

  lemma {:induction false} WalkQuiet(D: nat, l: Label, m: LabelMap, bitmap: seq<bool>, siblings: seq<Digest>, d: nat)
    requires |l| == D && d <= D && Walked(D, l, m, bitmap, siblings, d) && Quiet(l, d, m)
    ensures Walked(D, l, m, bitmap, siblings, D)
    decreases D - d
  {
    if d < D {
      QuietAside(l, d, d, m);
      WalkNothing(D, l, m, bitmap, siblings, d);
      assert l[..d] <= l[..d + 1];
      forall k | k in m && l[..d + 1] <= k
        ensures k == l
      {
        Prefixes(l[..d], l[..d + 1], k);
      }
      WalkQuiet(D, l, m, bitmap, siblings, d + 1);
    }
  }

  /** Where the walk ends nothing is left below l's path but l itself. */
  lemma WalkEnd(D: nat, t: Tree, l: Label, d: nat, m: LabelMap)
    requires |l| == D && d <= D && Sized(D, m) && Wf(D, t, l[..d], m)
    requires t.Nil? || (t.Single? && t.lbl == l) || d == D
    ensures Quiet(l, d, m)
  {
    assert l[..D] == l;
  }

  lemma WalkedIsProof(D: nat, l: Label, m: LabelMap, proof: MapProof)
    requires |l| == D && Walked(D, l, m, proof.bitmap, proof.siblings, D)
    requires proof.leaf == if l in m then Present(m[l]) else Absent
    ensures IsProof(D, l, m, proof)
  {
  }

  lemma SibsStart(D: nat, prefix: Label, m: LabelMap)
    requires |prefix| == D
    ensures SibsAre(D, prefix, m, [], 0)
  {
  }

  lemma BucketCases(D: nat, prefix: Label, bits: int, max: Limit, m: LabelMap)
    requires |prefix| == D
    ensures !(0 <= bits <= D) ==> BucketOf(D, prefix, bits, max, m) == BadBits
    ensures Fits(0, max)
    ensures 0 <= bits <= D ==>
      BucketOf(D, prefix, bits, max, m) == if !Fits(0 + |Sub(D, prefix[..bits], m)|, max) then TooMany
      else Found([] + Sub(D, prefix[..bits], m), Canon(D, prefix[..bits], m), CanonSiblings(D, prefix, bits, m))
  {
    if 0 <= bits <= D {
      assert [] + Sub(D, prefix[..bits], m) == Sub(D, prefix[..bits], m);
    }
  }

  lemma SibsStep(D: nat, prefix: Label, m: LabelMap, sibs: seq<Digest>, d: nat, h: Digest)
    requires |prefix| == D && d < D && SibsAre(D, prefix, m, sibs, d) && h == Canon(D, Aside(prefix, d), m)
    ensures SibsAre(D, prefix, m, sibs + [h], d + 1)
  {
  }

  lemma SibsLength(D: nat, prefix: Label, m: LabelMap, sibs: seq<Digest>, d: nat)
    requires |prefix| == D && d <= D && SibsAre(D, prefix, m, sibs, d)
    ensures |sibs| == d
  {
  }

  lemma ReversedSibs(D: nat, prefix: Label, m: LabelMap, sibs: seq<Digest>, bits: nat, siblings: seq<Digest>)
    requires |prefix| == D && bits <= D && SibsAre(D, prefix, m, sibs, bits)
    requires |siblings| == bits && forall i :: 0 <= i < bits ==> siblings[i] == sibs[bits - 1 - i]
    ensures siblings == CanonSiblings(D, prefix, bits, m)
  {
  }

  method Reversed(sibs: seq<Digest>, bits: nat) returns (siblings: seq<Digest>)
    requires |sibs| == bits
    ensures |siblings| == bits && forall i :: 0 <= i < bits ==> siblings[i] == sibs[bits - 1 - i]
  {
    siblings := [];
    var k := bits;
    while k > 0
      invariant 0 <= k <= bits && |siblings| == bits - k
      invariant forall i :: 0 <= i < bits - k ==> siblings[i] == sibs[bits - 1 - i]
    {
      k := k - 1;
      siblings := siblings + [sibs[k]];
    }
  }

  // --- The map -------------------------------------------------------------------------

  class SparseMerkleMap {
    const D: nat
    var values: LabelMap
    var root: Tree

    ghost predicate Valid()
      reads this
    {
      Sized(D, values) && Wf(D, root, [], values)
    }

    constructor (D: nat)
      ensures this.D == D && Valid() && values == map[]
    {
      this.D := D;
      values := map[];
      root := Nil;
    }

    /** The root is the definition's, whatever order the labels were set in. */
    method Root() returns (h: Digest)
      requires Valid()
      ensures h == Canon(D, [], values)
    {
      WfIsCanon(D, root, [], values);
      h := HashAt(D, root, 0);
    }

    /** Sets a label's latest entry; refuses a label of the wrong length. */
    method Set(l: Label, s: Slot) returns (ok: bool)
      requires Valid()
      modifies this
      ensures Valid()
      ensures ok <==> |l| == D
      ensures values == if ok then old(values)[l := s] else old(values)
    {
      if |l| != D {
        return false;
      }
      assert l[..0] == [];
      var r := Insert(D, root, 0, l, s, values);
      values := values[l := s];
      root := r;
      return true;
    }

    lemma Opened()
      requires Valid()
      ensures Sized(D, values) && Wf(D, root, [], values)
    {
    }

    /** The compressed proof of a label, present or absent. */
    method Proof(l: Label) returns (proof: MapProof)
      requires Valid() && |l| == D
      ensures IsProof(D, l, values, proof)
    {
      hide *;
      Opened();
      var bitmap, siblings := seq(D, _ => false), [];
      var node, d := root, 0;
      assert l[..0] == [];
      WalkStart(D, l, values);
      while node != Nil && d < D
        invariant 0 <= d <= D && Wf(D, node, l[..d], values)
        invariant Walked(D, l, values, bitmap, siblings, d)
        decreases D - d
      {
        if node.Single? {
          if node.lbl != l {
            bitmap, siblings, d := ProofBesides(l, node, bitmap, siblings, d);
            node := Nil;
          }
          break;
        }
        WfInternal(D, node, l, d, values);
        var sib := if !l[d] then node.right else node.left;
        if !sib.Nil? {
          WalkTake(D, l, values, bitmap, siblings, d);
          bitmap, siblings := bitmap[d := true], siblings + [sib.hash];
        } else {
          WalkNothing(D, l, values, bitmap, siblings, d);
        }
        node := if !l[d] then node.left else node.right;
        d := d + 1;
      }
      WalkEnd(D, node, l, d, values);
      WalkQuiet(D, l, values, bitmap, siblings, d);
      var leaf := if l in values then Present(values[l]) else Absent;
      proof := MapProof(leaf, bitmap, siblings);
      WalkedIsProof(D, l, values, proof);
    }

    /**
     The end of a walk that meets another label alone: the paths run together while
     the bits agree, then part, and from there on l's side is empty.
     */
    method ProofBesides(l: Label, node: Tree, bitmap0: seq<bool>, siblings0: seq<Digest>, d0: nat)
      returns (bitmap: seq<bool>, siblings: seq<Digest>, d: nat)
      requires Valid() && |l| == D && d0 < D && node.Single? && node.lbl != l && Wf(D, node, l[..d0], values)
      requires Walked(D, l, values, bitmap0, siblings0, d0)
      ensures d <= D && NoneBelow(l[..d], values) && Walked(D, l, values, bitmap, siblings, d)
    {
      hide Wf, Canon, Chain, Empty, Walked, NoneBelow, OnlyBelow, Aside, Sized;
      Opened();
      WfSingle(D, node, l[..d0], values);
      bitmap, siblings, d := bitmap0, siblings0, d0;
      var other := node.lbl;
      SingleAside(D, other, l, d0, d, values);
      while d < D && l[d] == other[d]
        invariant d0 <= d < D && other[..d] == l[..d]
        invariant Walked(D, l, values, bitmap, siblings, d)
        invariant Parting(D, other, l, d, values)
      {
        WalkNothing(D, l, values, bitmap, siblings, d);
        d := d + 1;
        SingleAside(D, other, l, d0, d, values);
      }
      WalkTake(D, l, values, bitmap, siblings, d);
      var h := ChainHash(D, other, node.slot, d + 1);
      bitmap, siblings := bitmap[d := true], siblings + [h];
      d := d + 1;
    }

    /** The bucket of a prefix: null when it holds more than max labels, else all of it. */
    method Bucket(prefix: Label, bits: int, max: Limit) returns (r: BucketResult)
      requires Valid() && |prefix| == D
      ensures r == BucketOf(D, prefix, bits, max, values)
    {
      hide *;
      Opened();
      BucketCases(D, prefix, bits, max, values);
      if !(0 <= bits <= D) {
        return BadBits;
      }
      var sibs: seq<Digest> := [];
      var node, d := root, 0;
      assert prefix[..0] == [];
      SibsStart(D, prefix, values);
      while d < bits
        invariant 0 <= d <= bits && Wf(D, node, prefix[..d], values)
        invariant SibsAre(D, prefix, values, sibs, d)
      {
        if node.Nil? {
          WfNil(D, node, prefix[..d], values);
          ghost var from := d;
          while d < bits
            invariant from <= d <= bits && SibsAre(D, prefix, values, sibs, d)
          {
            AsideBelow(prefix, from, d);
            NoneFurther(D, prefix[..from], Aside(prefix, d), values);
            SibsStep(D, prefix, values, sibs, d, Empty(D, d + 1));
            sibs := sibs + [Empty(D, d + 1)];
            d := d + 1;
          }
          NoneFurther(D, prefix[..from], prefix[..bits], values);
          NilWf(D, prefix[..bits], values);
          break;
        }
        if node.Single? {
          sibs, node := BucketSingle(prefix, bits, node, sibs, d);
          d := bits;
          break;
        }
        WfInternal(D, node, prefix, d, values);
        var sib := if !prefix[d] then node.right else node.left;
        SibsStep(D, prefix, values, sibs, d, HashAt(D, sib, d + 1));
        sibs := sibs + [HashAt(D, sib, d + 1)];
        node := if !prefix[d] then node.left else node.right;
        d := d + 1;
      }
      WfIsCanon(D, node, prefix[..bits], values);
      var ok, leaves := Collect(node, [], max);
      if !ok {
        return TooMany;
      }
      SibsLength(D, prefix, values, sibs, bits);
      var siblings := Reversed(sibs, bits);
      ReversedSibs(D, prefix, values, sibs, bits, siblings);
      return Found(leaves, HashAt(D, node, bits), siblings);
    }

    /**
     One label below depth d0: in the bucket, hashed up to depth bits, if it agrees with
     the prefix so far; beside it, at the depth where they part, if not.
     */
    method BucketSingle(prefix: Label, bits: nat, one: Tree, sibs0: seq<Digest>, d0: nat)
      returns (sibs: seq<Digest>, node: Tree)
      requires Valid() && |prefix| == D && d0 < bits <= D && one.Single? && Wf(D, one, prefix[..d0], values)
      requires SibsAre(D, prefix, values, sibs0, d0)
      ensures SibsAre(D, prefix, values, sibs, bits) && Wf(D, node, prefix[..bits], values)
    {
      hide *;
      Opened();
      WfSingle(D, one, prefix[..d0], values);
      var d, e := d0, d0;
      sibs := sibs0;
      while e < bits && one.lbl[e] == prefix[e]
        invariant d0 <= e <= bits && one.lbl[..e] == prefix[..e]
      {
        e := e + 1;
      }
      while d < bits
        invariant d0 <= d <= bits && SibsAre(D, prefix, values, sibs, d)
      {
        SingleSibling(D, one.lbl, prefix, d0, d, e, values);
        var h := Empty(D, d + 1);
        if d == e {
          h := ChainHash(D, one.lbl, one.slot, e + 1);
        }
        SibsStep(D, prefix, values, sibs, d, h);
        sibs := sibs + [h];
        d := d + 1;
      }
      SingleBucket(D, one.lbl, prefix, d0, e, bits, values);
      if e == bits {
        node := NewSingle(D, one.lbl, one.slot, bits);
      } else {
        node := Nil;
      }
    }
  }
}
