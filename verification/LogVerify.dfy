/**
 The two verifiers of kt/lib/merkle.js. They never see the tree: they walk the bits
 of fn and sn, the numbers of the proved node and of the last node on one level of
 the tree. The step lemmas say that going up one level of a tree of n leaves leaves
 a tree of ceil(n / 2) leaves, which is what makes the two loops the top-down folds
 of LogTree.
 */
module LogVerify {
  import opened Options
  import opened Digests
  import opened LogTree
  import opened PowerTest

  // --- One level up -----------------------------------------------------------

  /**
   Folds the roots above node i of n: a sibling on the left is in both trees, a
   sibling on the right in the second only.
   */
  function Fold(i: nat, n: nat, p: Roots, path: seq<Digest>): Roots
    requires i < n
    decreases n
  {
    if n == 1 then (if path == [] then p else NoRoots)
    else if path == [] then NoRoots
    else
      var k, last, init := Split(n), path[|path| - 1], path[..|path| - 1];
      if i < k then WithRight(Fold(i, k, p, init), last)
      else WithLeft(last, Fold(i - k, n - k, p, init))
  }

  /** The roots after the sibling `c` of a node on the left (even) or right (odd) of its pair. */
  function Join(odd: bool, p: Roots, c: Digest): Roots {
    if odd then WithLeft(c, p) else WithRight(p, c)
  }

  lemma SplitDouble(h: nat)
    requires h >= 2
    ensures Split(2 * h) == 2 * Split(h) && Split(2 * h - 1) == 2 * Split(h)
  {
    SplitFromDouble(1, h);
  }

  /** One level up: a last node without a sibling is carried. */
  lemma {:induction false} FoldCarry(h: nat, p: Roots, path: seq<Digest>)
    requires h >= 2
    ensures Fold(2 * h - 2, 2 * h - 1, p, path) == Fold(h - 1, h, p, path)
    decreases h
  {
    hide Split;
    SplitDouble(h);
    if path != [] {
      var k, init := Split(h), path[..|path| - 1];
      if h - k >= 2 {
        FoldCarry(h - k, p, init);
      }
    }
  }

  /** One level up: node 2j or 2j + 1 joins its sibling; the level above has h nodes. */
  lemma {:induction false} FoldJoin(j: nat, odd: bool, n: nat, h: nat, p: Roots, path: seq<Digest>)
    requires j < h && (n == 2 * h || n == 2 * h - 1) && 2 * j + 1 < n && path != []
    ensures Fold(2 * j + (if odd then 1 else 0), n, p, path) == Fold(j, h, Join(odd, p, path[0]), path[1..])
    decreases h
  {
    hide Split;
    var init := path[..|path| - 1];
    if h == 1 {
      assert |path| > 1 || init == path[1..];
    } else {
      var k := Split(h);
      SplitDouble(h);
      if |path| > 1 {
        assert path[1..][..|path| - 2] == init[1..];
        if j < k {
          FoldJoin(j, odd, 2 * k, k, p, init);
        } else {
          FoldJoin(j - k, odd, n - 2 * k, h - k, p, init);
        }
      }
    }
  }

  /** One turn of a verifier's loop: the node fn of 0..sn takes its sibling, and fn and sn are halved. */
  lemma Turn(fn: nat, sn: nat, p: Roots, path: seq<Digest>)
    requires fn <= sn && (fn % 2 == 1 || fn < sn) && path != []
    ensures Fold(fn, sn + 1, p, path) == Fold(fn / 2, sn / 2 + 1, Join(fn % 2 == 1, p, path[0]), path[1..])
  {
    FoldJoin(fn / 2, fn % 2 == 1, sn + 1, sn / 2 + 1, p, path);
  }

  /** One turn of the inner loop: a last node on an even place is the last node of the level above. */
  lemma Shift(fn: nat, p: Roots, path: seq<Digest>)
    requires fn > 0 && fn % 2 == 0
    ensures Fold(fn, fn + 1, p, path) == Fold(fn / 2, fn / 2 + 1, p, path)
  {
    FoldCarry(fn / 2 + 1, p, path);
  }

  /** The fold is done exactly when level and path run out together. */
  lemma FoldDone(i: nat, n: nat, p: Roots, path: seq<Digest>)
    requires i < n && (n == 1 || path == [])
    ensures Fold(i, n, p, path) == if n == 1 && path == [] then p else NoRoots
  {
  }

  /** An audit path is the second root alone. */
  lemma {:induction false} FoldIsRootFrom(i: nat, n: nat, p: Roots, path: seq<Digest>)
    requires i < n && p.Roots?
    ensures RootFrom(i, n, p.second, path) ==
      var q := Fold(i, n, p, path); if q.NoRoots? then None else Some(q.second)
    decreases n
  {
    if n > 1 && path != [] {
      var k, init := Split(n), path[..|path| - 1];
      if i < k {
        FoldIsRootFrom(i, k, p, init);
      } else {
        FoldIsRootFrom(i - k, n - k, p, init);
      }
    }
  }

  /** A first root that starts right of node 0 ends as a larger term than it began. */
  lemma {:induction false} FoldGrows(i: nat, n: nat, p: Roots, path: seq<Digest>)
    requires i < n && p.Roots? && Fold(i, n, p, path).Roots?
    ensures Weight(Fold(i, n, p, path).first) >= Weight(p.first) + (if i > 0 then 1 else 0)
    decreases n
  {
    if n > 1 {
      var k, init := Split(n), path[..|path| - 1];
      if i < k {
        FoldGrows(i, k, p, init);
      } else {
        FoldGrows(i - k, n - k, p, init);
      }
    }
  }

  /** While the first tree ends on a complete pair, SUBPROOF is that of the level above. */
  lemma {:induction false} SubRootsEven(g: nat, n: nat, h: nat, b: bool, first: Digest, proof: seq<Digest>)
    requires 1 <= g && 2 * g <= n && (n == 2 * h || n == 2 * h - 1)
    ensures SubRoots(2 * g, n, b, first, proof) == SubRoots(g, h, b, first, proof)
    decreases h
  {
    hide Split;
    if 2 * g < n && proof != [] {
      var k, init := Split(h), proof[..|proof| - 1];
      SplitDouble(h);
      if g <= k {
        SubRootsEven(g, 2 * k, k, b, first, init);
      } else {
        SubRootsEven(g - k, n - 2 * k, h - k, false, first, init);
      }
    }
  }

  lemma SplitOdd(n: nat)
    requires n >= 2 && Split(n) % 2 == 1
    ensures Split(n) == 1
  {
    if n > 2 {
      SplitDouble((n + 1) / 2);
    }
  }

  /** A first tree of one node is its own root, and the proof is its path. */
  lemma {:induction false} SubRootsOne(n: nat, first: Digest, proof: seq<Digest>)
    requires 1 <= n
    ensures SubRoots(1, n, true, first, proof) == (Fold(0, n, Roots(first, first), proof))
    decreases n
  {
    if n > 1 && proof != [] {
      SubRootsOne(Split(n), first, proof[..|proof| - 1]);
    }
  }

  /** Otherwise, once the first tree ends on a single node, SUBPROOF is that node and its path. */
  lemma {:induction false} SubRootsOdd(m: nat, n: nat, b: bool, first: Digest, proof: seq<Digest>)
    requires 1 <= m <= n && m % 2 == 1 && (m < n || m == 1) && !(b && m == 1)
    ensures SubRoots(m, n, b, first, proof) ==
      if proof == [] then NoRoots else (Fold(m - 1, n, Roots(proof[0], proof[0]), proof[1..]))
    decreases n
  {
    if m < n && proof != [] {
      var k, init := Split(n), proof[..|proof| - 1];
      if k % 2 == 1 {
        SplitOdd(n);
      }
      if |proof| > 1 {
        assert proof[1..][..|proof| - 2] == init[1..];
        if m <= k {
          SubRootsOdd(m, k, b, first, init);
        } else {
          SubRootsOdd(m - k, n - k, false, first, init);
        }
      }
    }
  }

  // --- The verifiers ----------------------------------------------------------------

  /** `(n & 1) === 1`. */
  predicate Odd(n: nat) {
    n % 2 == 1
  }

  /** verifyInclusion: exactly the paths whose fold is `root`. */
  method VerifyInclusion(leaf: Digest, index: int, size: int, root: Digest, path: seq<Digest>) returns (ok: bool)
    ensures ok <==> 0 <= index < size && RootFrom(index, size, leaf, path) == Some(root)
  {
    hide Fold, RootFrom;
    if !(index >= 0 && index < size) {
      return false;
    }
    var fn, sn, r := index, size - 1, leaf;
    ghost var want := Fold(index, size, Roots(leaf, leaf), path);
    FoldIsRootFrom(index, size, Roots(leaf, leaf), path);
    ghost var f := leaf;
    var j := 0;
    while j < |path|
      invariant 0 <= j <= |path| && 0 <= fn <= sn
      invariant Fold(fn, sn + 1, Roots(f, r), path[j..]) == want
    {
      if sn == 0 {
        FoldDone(fn, sn + 1, Roots(f, r), path[j..]);
        return false;
      }
      var p := path[j];
      ghost var was := Roots(f, r);
      if Odd(fn) || fn == sn {
        r := LogNode(p, r);
        if !Odd(fn) {
          while !(Odd(fn) || fn == 0)
            invariant 0 < fn == sn
            invariant Fold(fn, sn + 1, was, path[j..]) == want
          {
            Shift(fn, was, path[j..]);
            fn, sn := fn / 2, sn / 2;
          }
        }
        f := LogNode(p, f);
      } else {
        r := LogNode(r, p);
      }
      Turn(fn, sn, was, path[j..]);
      fn, sn := fn / 2, sn / 2;
      assert path[j..][1..] == path[j + 1..];
      j := j + 1;
    }
    assert path[j..] == [];
    FoldDone(fn, sn + 1, Roots(f, r), []);
    return sn == 0 && r == root;
  }

  /** Where the loop over `cs` starts, once fn is even: at what SUBPROOF gives from there. */
  lemma ConsistencyStart(first: nat, fn: nat, sn: nat, firstRoot: Digest, proof: seq<Digest>, p: seq<Digest>)
    requires first >= 1 && fn < sn && fn % 2 == 0 && IsPow2(fn + 1) == IsPow2(first)
    requires proof != [] && p == if Passes(first) then [firstRoot] + proof else proof
    ensures var fold := Fold(fn, sn + 1, Roots(p[0], p[0]), p[1..]);
      if Misread(first) then fold.NoRoots? || fold.first != firstRoot
      else fold == SubRoots(fn + 1, sn + 1, true, firstRoot, proof)
  {
    var fold := Fold(fn, sn + 1, Roots(p[0], p[0]), p[1..]);
    if IsPow2(first) {
      Pow2Passes(first);
      assert p[1..] == proof;
      SubRootsOne(sn + 1, firstRoot, proof);
    } else if Passes(first) {
      if fold.Roots? {
        FoldGrows(fn, sn + 1, Roots(p[0], p[0]), p[1..]);
      }
    } else {
      SubRootsOdd(fn + 1, sn + 1, true, firstRoot, proof);
    }
  }

  lemma NoEmptyProof(first: nat, second: nat, firstRoot: Digest)
    requires 1 <= first < second
    ensures SubRoots(first, second, true, firstRoot, []) == NoRoots
  {
  }

  /** What the consistency verifier accepts, by the RFC's recursion. */
  ghost predicate Consistent(first: nat, second: nat, firstRoot: Digest, secondRoot: Digest, proof: seq<Digest>) {
    if first > second then false
    else if first == second then proof == [] && firstRoot == secondRoot
    else if first == 0 then proof == []
    else SubRoots(first, second, true, firstRoot, proof) == Roots(firstRoot, secondRoot)
  }

  /** verifyConsistency: exactly the consistent proofs, where the power-of-two test reads `first` right. */
  method VerifyConsistency(first: nat, second: nat, firstRoot: Digest, secondRoot: Digest, proof: seq<Digest>)
    returns (ok: bool)
    ensures ok <==>
      Consistent(first, second, firstRoot, secondRoot, proof) && !(0 < first < second && Misread(first))
  {
    hide Fold, SubRoots, Passes, IsPow2;
    if first > second {
      return false;
    }
    if first == second {
      return |proof| == 0 && firstRoot == secondRoot;
    }
    if first == 0 {
      return |proof| == 0;
    }
    if |proof| == 0 {
      NoEmptyProof(first, second, firstRoot);
      return false;
    }
    var p := proof;
    if Passes(first) {
      p := [firstRoot] + proof;
    }
    var fn, sn := first - 1, second - 1;
    while Odd(fn)
      invariant 0 <= fn < sn
      invariant IsPow2(fn + 1) == IsPow2(first)
      invariant SubRoots(fn + 1, sn + 1, true, firstRoot, proof) == SubRoots(first, second, true, firstRoot, proof)
      decreases fn
    {
      assert IsPow2(fn + 1) == IsPow2(fn / 2 + 1) by {
        HalfIsPow2(fn + 1);
      }
      SubRootsEven(fn / 2 + 1, sn + 1, sn / 2 + 1, true, firstRoot, proof);
      fn, sn := fn / 2, sn / 2;
    }
    ConsistencyStart(first, fn, sn, firstRoot, proof, p);
    var fr, sr, cs := p[0], p[0], p[1..];
    ghost var want := Fold(fn, sn + 1, Roots(fr, sr), cs);
    var j := 0;
    while j < |cs|
      invariant 0 <= j <= |cs| && 0 <= fn <= sn
      invariant Fold(fn, sn + 1, Roots(fr, sr), cs[j..]) == want
    {
      if sn == 0 {
        FoldDone(fn, sn + 1, Roots(fr, sr), cs[j..]);
        return false;
      }
      var c := cs[j];
      ghost var was := Roots(fr, sr);
      if Odd(fn) || fn == sn {
        fr := LogNode(c, fr);
        sr := LogNode(c, sr);
        if !Odd(fn) {
          while !(Odd(fn) || fn == 0)
            invariant 0 < fn == sn
            invariant Fold(fn, sn + 1, was, cs[j..]) == want
          {
            Shift(fn, was, cs[j..]);
            fn, sn := fn / 2, sn / 2;
          }
        }
      } else {
        sr := LogNode(sr, c);
      }
      Turn(fn, sn, was, cs[j..]);
      fn, sn := fn / 2, sn / 2;
      assert cs[j..][1..] == cs[j + 1..];
      j := j + 1;
    }
    assert cs[j..] == [];
    FoldDone(fn, sn + 1, Roots(fr, sr), []);
    return fr == firstRoot && sr == secondRoot && sn == 0;
  }

  // --- What acceptance means --------------------------------------------------------

  /** Inclusion is complete and sound: against the root of `d`, only its leaf with its path. */
  lemma InclusionExact(d: seq<Digest>, index: nat, leaf: Digest, path: seq<Digest>)
    requires index < |d|
    ensures RootFrom(index, |d|, leaf, path) == Some(Mth(d)) <==> leaf == d[index] && path == Path(index, d)
  {
    PathComplete(index, d);
    if RootFrom(index, |d|, leaf, path) == Some(Mth(d)) {
      PathSound(index, d, leaf, path);
    }
  }

  /**
   Consistency is complete and sound: against the true root of `d`, a first size
   0 < m <= n is accepted with the true root of the prefix and its proof, and with
   nothing else.
   */
  lemma ConsistencyExact(d: seq<Digest>, m: nat, firstRoot: Digest, proof: seq<Digest>)
    requires 0 < m <= |d|
    ensures Consistent(m, |d|, firstRoot, Mth(d), proof) <==> firstRoot == Mth(d[..m]) && proof == Proof(m, d)
  {
    if m == |d| {
      assert d[..m] == d;
    } else {
      if Consistent(m, |d|, firstRoot, Mth(d), proof) {
        SubProofSound(m, d, true, firstRoot, proof);
      }
      SubProofComplete(m, d, true, Mth(d[..m]));
    }
  }

  /** From size 0 the empty proof, and only it, is accepted, whatever the roots. */
  lemma ConsistencyFromEmpty(n: nat, firstRoot: Digest, secondRoot: Digest, proof: seq<Digest>)
    ensures Consistent(0, n, firstRoot, secondRoot, proof) <==> proof == [] && (n == 0 ==> firstRoot == secondRoot)
  {
  }
}
