/**
 The RFC 9162 log tree (kt/lib/merkle.js): what the tree of a sequence of leaf
 digests is, what an audit path and a consistency proof are, and what each of
 them computes when it is folded from the top. The loops of the verifiers are in
 LogVerify.dfy; the memoising prover is in MerkleLog.dfy.
 */
module LogTree {
  import opened Options
  import opened Digests

  /** The first of k, 2k, 4k, ... whose double is not below `n`. */
  function SplitFrom(k: nat, n: nat): (r: nat)
    requires 1 <= k < n
    ensures k <= r < n <= 2 * r
    decreases n - k
  {
    if 2 * k < n then SplitFrom(2 * k, n) else k
  }

  /** The RFC's `k`: the largest power of two strictly below `n`. */
  function Split(n: nat): (k: nat)
    requires n >= 2
    ensures 1 <= k < n <= 2 * k
  {
    SplitFrom(1, n)
  }

  /** A smaller size past the middle of `n` has the same middle. */
  lemma {:induction false} SplitStable(k: nat, m: nat, n: nat)
    requires 1 <= k < n && SplitFrom(k, n) < m <= n
    ensures SplitFrom(k, m) == SplitFrom(k, n)
    decreases n - k
  {
    if 2 * k < n {
      SplitStable(2 * k, m, n);
    }
  }

  lemma {:induction false} SplitFromDouble(k: nat, h: nat)
    requires 1 <= k < h
    ensures SplitFrom(2 * k, 2 * h) == 2 * SplitFrom(k, h)
    ensures SplitFrom(2 * k, 2 * h - 1) == 2 * SplitFrom(k, h)
    decreases h - k
  {
    if 2 * k < h {
      SplitFromDouble(2 * k, h);
    }
  }

  /** MTH(D), section 2.1.1 of RFC 9162. */
  function Mth(d: seq<Digest>): Digest {
    if |d| == 0 then LogEmpty
    else if |d| == 1 then d[0]
    else
      var k := Split(|d|);
      LogNode(Mth(d[..k]), Mth(d[k..]))
  }

  /** PATH(m, D), section 2.1.3.1. */
  function Path(m: nat, d: seq<Digest>): seq<Digest>
    requires m < |d|
    decreases |d|
  {
    if |d| == 1 then []
    else
      var k := Split(|d|);
      if m < k then Path(m, d[..k]) + [Mth(d[k..])]
      else Path(m - k, d[k..]) + [Mth(d[..k])]
  }

  /** SUBPROOF(m, D, b), section 2.1.4.1. */
  function SubProof(m: nat, d: seq<Digest>, b: bool): seq<Digest>
    requires 1 <= m <= |d|
    decreases |d|
  {
    if m == |d| then (if b then [] else [Mth(d)])
    else
      var k := Split(|d|);
      if m <= k then SubProof(m, d[..k], b) + [Mth(d[k..])]
      else SubProof(m - k, d[k..], false) + [Mth(d[..k])]
  }

  /** PROOF(m, D), section 2.1.4.1; for m = 0 there is nothing to prove. */
  function Proof(m: nat, d: seq<Digest>): seq<Digest>
    requires m <= |d|
  {
    if m == 0 then [] else SubProof(m, d, true)
  }

  // --- What a path proves -----------------------------------------------------

  /**
   The root that `path` gives a leaf digest `r` at position m of n, folding along
   PATH's own recursion; None when the path has the wrong length.
   */
  function RootFrom(m: nat, n: nat, r: Digest, path: seq<Digest>): Option<Digest>
    requires m < n
    decreases n
  {
    if n == 1 then (if path == [] then Some(r) else None)
    else if path == [] then None
    else
      var k, last := Split(n), path[|path| - 1];
      if m < k then
        match RootFrom(m, k, r, path[..|path| - 1])
        case Some(h) => Some(LogNode(h, last))
        case None => None
      else
        match RootFrom(m - k, n - k, r, path[..|path| - 1])
        case Some(h) => Some(LogNode(last, h))
        case None => None
  }

  /** The path of a leaf folds to the root. */
  lemma {:induction false} PathComplete(m: nat, d: seq<Digest>)
    requires m < |d|
    ensures RootFrom(m, |d|, d[m], Path(m, d)) == Some(Mth(d))
    decreases |d|
  {
    hide Split;
    if |d| > 1 {
      var k, path := Split(|d|), Path(m, d);
      if m < k {
        PathComplete(m, d[..k]);
        assert path[..|path| - 1] == Path(m, d[..k]);
      } else {
        PathComplete(m - k, d[k..]);
        assert path[..|path| - 1] == Path(m - k, d[k..]);
      }
    }
  }

  /** Nothing else folds to it. */
  lemma {:induction false} PathSound(m: nat, d: seq<Digest>, r: Digest, path: seq<Digest>)
    requires m < |d|
    requires RootFrom(m, |d|, r, path) == Some(Mth(d))
    ensures r == d[m] && path == Path(m, d)
    decreases |d|
  {
    hide Split;
    if |d| > 1 {
      var k, last, init := Split(|d|), path[|path| - 1], path[..|path| - 1];
      assert path == init + [last];
      if m < k {
        PathSound(m, d[..k], r, init);
      } else {
        PathSound(m - k, d[k..], r, init);
      }
    }
  }

  /** An audit path at size n has at most ceil(log2 n) digests. */
  lemma {:induction false} PathLength(m: nat, d: seq<Digest>, bits: nat)
    requires m < |d| <= Pow2(bits)
    ensures |Path(m, d)| <= bits
    decreases |d|
  {
    if |d| > 1 {
      var k := Split(|d|);
      SplitBelowPow2(1, |d|, 0, bits);
      if m < k {
        PathLength(m, d[..k], bits - 1);
      } else {
        PathLength(m - k, d[k..], bits - 1);
      }
    }
  }

  function Pow2(e: nat): (r: nat)
    ensures r >= 1
  {
    if e == 0 then 1 else 2 * Pow2(e - 1)
  }

  lemma {:induction false} SplitBelowPow2(k: nat, n: nat, e: nat, bits: nat)
    requires k == Pow2(e) && k < n <= Pow2(bits)
    ensures bits > e && SplitFrom(k, n) <= Pow2(bits - 1)
    decreases n - k
  {
    Pow2Monotone(bits, e);
    if 2 * k < n {
      SplitBelowPow2(2 * k, n, e + 1, bits);
    } else {
      Pow2Monotone(e, bits - 1);
    }
  }

  lemma {:induction false} Pow2Monotone(a: nat, b: nat)
    ensures a <= b ==> Pow2(a) <= Pow2(b)
    decreases b
  {
    if a < b {
      Pow2Monotone(a, b - 1);
    }
  }

  // --- What a consistency proof proves ------------------------------------------

  /** The roots of the first and of the second tree, or none for a proof of the wrong length. */
  datatype Roots = NoRoots | Roots(first: Digest, second: Digest)

  /** A subtree on the right is in the second tree only. */
  function WithRight(q: Roots, right: Digest): Roots {
    if q.NoRoots? then NoRoots else Roots(q.first, LogNode(q.second, right))
  }

  /** A subtree on the left is in both. */
  function WithLeft(left: Digest, q: Roots): Roots {
    if q.NoRoots? then NoRoots else Roots(LogNode(left, q.first), LogNode(left, q.second))
  }

  /**
   The two roots a consistency proof gives, folding along SUBPROOF's recursion:
   `whole` is the first root, used where the first tree is a whole subtree of the
   second (b).
   */
  function SubRoots(m: nat, n: nat, b: bool, whole: Digest, proof: seq<Digest>): Roots
    requires 1 <= m <= n
    decreases n
  {
    if m == n then
      if b then (if proof == [] then Roots(whole, whole) else NoRoots)
      else (if |proof| == 1 then Roots(proof[0], proof[0]) else NoRoots)
    else if proof == [] then NoRoots
    else
      var k, last, init := Split(n), proof[|proof| - 1], proof[..|proof| - 1];
      if m <= k then WithRight(SubRoots(m, k, b, whole, init), last)
      else WithLeft(last, SubRoots(m - k, n - k, false, whole, init))
  }

  /** Splitting a prefix that reaches past the middle splits it where the whole is split. */
  lemma {:induction false} MthPrefix(d: seq<Digest>, m: nat)
    requires 2 <= |d| && Split(|d|) < m <= |d|
    ensures Mth(d[..m]) == LogNode(Mth(d[..Split(|d|)]), Mth(d[Split(|d|)..][..m - Split(|d|)]))
  {
    var k := Split(|d|);
    SplitStable(1, m, |d|);
    assert d[..m][..k] == d[..k];
    assert d[..m][k..] == d[k..][..m - k];
  }

  /** The proof of a prefix folds to both roots. */
  lemma {:induction false} SubProofComplete(m: nat, d: seq<Digest>, b: bool, whole: Digest)
    requires 1 <= m <= |d|
    requires b ==> whole == Mth(d[..m])
    ensures SubRoots(m, |d|, b, whole, SubProof(m, d, b)) == Roots(Mth(d[..m]), Mth(d))
    decreases |d|
  {
    hide Split;
    if m == |d| {
      assert d[..m] == d;
    } else {
      var k := Split(|d|);
      var proof := SubProof(m, d, b);
      if m <= k {
        assert d[..k][..m] == d[..m];
        SubProofComplete(m, d[..k], b, whole);
        assert proof[..|proof| - 1] == SubProof(m, d[..k], b);
      } else {
        SubProofComplete(m - k, d[k..], false, whole);
        assert proof[..|proof| - 1] == SubProof(m - k, d[k..], false);
        MthPrefix(d, m);
      }
    }
  }

  /** Whatever folds to the true second root is the proof, and gives the true first root. */
  lemma {:induction false} SubProofSound(m: nat, d: seq<Digest>, b: bool, whole: Digest, proof: seq<Digest>)
    requires 1 <= m <= |d|
    requires SubRoots(m, |d|, b, whole, proof).Roots?
    requires SubRoots(m, |d|, b, whole, proof).second == Mth(d)
    ensures SubRoots(m, |d|, b, whole, proof).first == Mth(d[..m])
    ensures proof == SubProof(m, d, b)
    decreases |d|
  {
    hide Split;
    if m == |d| {
      assert d[..m] == d;
    } else {
      var k, last, init := Split(|d|), proof[|proof| - 1], proof[..|proof| - 1];
      assert proof == init + [last];
      if m <= k {
        var p := SubRoots(m, k, b, whole, init);
        assert Mth(d) == LogNode(p.second, last);
        SubProofSound(m, d[..k], b, whole, init);
        assert d[..k][..m] == d[..m];
      } else {
        var p := SubRoots(m - k, |d| - k, false, whole, init);
        assert Mth(d) == LogNode(last, p.second);
        SubProofSound(m - k, d[k..], false, whole, init);
        MthPrefix(d, m);
      }
    }
  }

  /** Two trees of one size with one root have the same leaves. */
  lemma {:induction false} MthInjective(d: seq<Digest>, e: seq<Digest>)
    requires |d| == |e| && Mth(d) == Mth(e)
    ensures d == e
    decreases |d|
  {
    if |d| > 1 {
      var k := Split(|d|);
      MthInjective(d[..k], e[..k]);
      MthInjective(d[k..], e[k..]);
      assert d == d[..k] + d[k..] && e == e[..k] + e[k..];
    }
  }

  // --- The standard's equations -----------------------------------------------------

  lemma {:induction false} SplitFromPow2(j: nat, e: nat, n: nat)
    requires j <= e && Pow2(e) < n <= 2 * Pow2(e)
    ensures Pow2(j) < n && SplitFrom(Pow2(j), n) == Pow2(e)
    decreases e - j
  {
    Pow2Monotone(j, e);
    if j < e {
      Pow2Monotone(j + 1, e);
      SplitFromPow2(j + 1, e, n);
    }
  }

  /** Sections 2.1.1, 2.1.3.1 and 2.1.4.1 of RFC 9162, k being the largest power of two smaller than the number of leaves. */
  lemma AsDefined(d: seq<Digest>, e: nat, k: nat, m: nat, b: bool)
    requires k == Pow2(e) < |d| <= 2 * k && m <= |d|
    ensures Mth(d) == LogNode(Mth(d[..k]), Mth(d[k..]))
    ensures m < |d| ==> Path(m, d) == if m < k then Path(m, d[..k]) + [Mth(d[k..])] else Path(m - k, d[k..]) + [Mth(d[..k])]
    ensures 1 <= m < |d| ==>
      SubProof(m, d, b) == if m <= k then SubProof(m, d[..k], b) + [Mth(d[k..])] else SubProof(m - k, d[k..], false) + [Mth(d[..k])]
    ensures SubProof(|d|, d, true) == [] && SubProof(|d|, d, false) == [Mth(d)]
    ensures Proof(m, d) == if m == 0 then [] else SubProof(m, d, true)
  {
    hide Mth, Path, SubProof, Proof;
    SplitFromPow2(0, e, |d|);
    Unfolded(d, m, b);
  }

  lemma Unfolded(d: seq<Digest>, m: nat, b: bool)
    requires |d| >= 2 && m <= |d|
    ensures var k := Split(|d|);
      && Mth(d) == LogNode(Mth(d[..k]), Mth(d[k..]))
      && (m < |d| ==> Path(m, d) == if m < k then Path(m, d[..k]) + [Mth(d[k..])] else Path(m - k, d[k..]) + [Mth(d[..k])])
      && (1 <= m < |d| ==>
            SubProof(m, d, b) == if m <= k then SubProof(m, d[..k], b) + [Mth(d[k..])] else SubProof(m - k, d[k..], false) + [Mth(d[..k])])
    ensures SubProof(|d|, d, true) == [] && SubProof(|d|, d, false) == [Mth(d)]
    ensures Proof(m, d) == if m == 0 then [] else SubProof(m, d, true)
  {
    hide Split;
  }

  lemma Pair(a: Digest, b: Digest)
    ensures Mth([a, b]) == LogNode(a, b) && Path(0, [a, b]) == [b] && Path(1, [a, b]) == [a]
    ensures SubProof(1, [a, b], true) == [b] && SubProof(1, [a, b], false) == [a, b]
  {
    assert [a, b][..1] == [a] && [a, b][1..] == [b];
    assert Path(0, [a]) == [] && Path(0, [b]) == [];
    assert SubProof(1, [a], true) == [] && SubProof(1, [a], false) == [a];
  }

  lemma Lone(d: Digest)
    ensures Mth([d]) == d && Path(0, [d]) == []
  {
  }

  lemma Quad(a: Digest, b: Digest, c: Digest, d: Digest)
    ensures var s, g, h := [a, b, c, d], LogNode(a, b), LogNode(c, d);
      Mth(s) == LogNode(g, h) && Path(0, s) == [b, h] && Path(3, s) == [c, g] && SubProof(3, s, true) == [c, d, g]
  {
    hide Mth, Path, SubProof, Split;
    var s := [a, b, c, d];
    Pair(a, b);
    Pair(c, d);
    AsDefined(s, 1, 2, 0, true);
    AsDefined(s, 1, 2, 3, true);
    assert s[..2] == [a, b] && s[2..] == [c, d];
  }

  lemma Three(e: Digest, f: Digest, j: Digest)
    ensures var s, i := [e, f, j], LogNode(e, f);
      Mth(s) == LogNode(i, j) && Path(0, s) == [f, j] && Path(2, s) == [i] && SubProof(2, s, false) == [i, j]
  {
    hide Mth, Path, SubProof, Split;
    var s := [e, f, j];
    Pair(e, f);
    AsDefined(s, 1, 2, 0, false);
    AsDefined(s, 1, 2, 2, false);
    AsDefined([e, f], 0, 1, 2, false);
    assert s[..2] == [e, f] && s[2..] == [j];
    Lone(j);
  }

  /** The tree of seven leaves of section 2.1.5 of RFC 9162, its paths and its proofs. */
  lemma SevenLeaves(a: Digest, b: Digest, c: Digest, d: Digest, e: Digest, f: Digest, j: Digest)
    ensures var s := [a, b, c, d, e, f, j];
      var g, h, i := LogNode(a, b), LogNode(c, d), LogNode(e, f);
      var k, l := LogNode(g, h), LogNode(i, j);
      && Mth(s) == LogNode(k, l)
      && Path(0, s) == [b, h, l] && Path(3, s) == [c, g, l] && Path(4, s) == [f, j, k] && Path(6, s) == [i, k]
      && Proof(3, s) == [c, d, g, l] && Proof(4, s) == [l] && Proof(6, s) == [i, j, k]
  {
    hide Mth, Path, SubProof, Split, Proof;
    var s := [a, b, c, d, e, f, j];
    Quad(a, b, c, d);
    Three(e, f, j);
    assert s[..4] == [a, b, c, d] && s[4..] == [e, f, j];
    assert Pow2(2) == 4;
    AsDefined(s[..4], 1, 2, 4, true);
    AsDefined(s, 2, 4, 0, true);
    AsDefined(s, 2, 4, 3, true);
    AsDefined(s, 2, 4, 4, true);
    AsDefined(s, 2, 4, 6, true);
  }
}
