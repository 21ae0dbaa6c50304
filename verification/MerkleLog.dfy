/**
 The prover of kt/lib/merkle.js: the leaves, the memo of perfect subtrees that every
 later root and proof is built from, and the proofs themselves.
 */
module MerkleLogs {
  import opened Options
  import opened Digests
  import opened LogTree
  import opened PowerTest

  /** A JavaScript map from ranges lo:hi to digests, shared by reference. */
  class RangeMemo {
    var m: map<(nat, nat), Digest>

    constructor ()
      ensures m == map[]
    {
      m := map[];
    }
  }

  /** PATH(m, D[n]) of the log, for a leaf and a size it has. */
  function ProofAt(m: int, n: int, leaves: seq<Digest>): Option<seq<Digest>> {
    if 0 <= m < n <= |leaves| then Some(Path(m, leaves[..n])) else None
  }

  /** Every remembered range has two leaves or more, and its hash is the range's own. */
  ghost predicate Remembers(m: map<(nat, nat), Digest>, leaves: seq<Digest>) {
    forall k :: k in m ==> k.0 + 2 <= k.1 <= |leaves| && m[k] == Mth(leaves[k.0..k.1])
  }

  /** A power-of-two length at an aligned offset. */
  predicate Perfect(lo: nat, hi: nat) {
    lo < hi && IsPow2(hi - lo) && lo % (hi - lo) == 0
  }

  ghost predicate AllPerfect(m: map<(nat, nat), Digest>) {
    forall k :: k in m ==> Perfect(k.0, k.1)
  }

  /** Nothing remembered is lost when leaves are appended. */
  lemma RemembersAfterAppend(m: map<(nat, nat), Digest>, leaves: seq<Digest>, leaf: Digest)
    requires Remembers(m, leaves)
    ensures Remembers(m, leaves + [leaf])
  {
    hide Mth;
    forall k | k in m
      ensures m[k] == Mth((leaves + [leaf])[k.0..k.1])
    {
      assert (leaves + [leaf])[k.0..k.1] == leaves[k.0..k.1];
    }
  }

  // --- The memo's size ----------------------------------------------------------

  function Mid(k: (nat, nat)): nat
    requires k.0 <= k.1
  {
    k.0 + (k.1 - k.0) / 2
  }

  /** Perfect ranges of two or more leaves have different midpoints. */
  lemma MidpointsDiffer(lo: nat, n: nat, lo': nat, n': nat)
    requires n >= 2 && n' >= 2 && Perfect(lo, lo + n) && Perfect(lo', lo' + n')
    requires lo + n / 2 == lo' + n' / 2
    ensures lo == lo' && n == n'
  {
    if n < n' {
      MidpointOfSmaller(lo, n, lo', n');
    } else if n' < n {
      MidpointOfSmaller(lo', n', lo, n);
    }
  }

  lemma MidpointOfSmaller(lo: nat, n: nat, lo': nat, n': nat)
    requires 2 <= n < n' && Perfect(lo, lo + n) && Perfect(lo', lo' + n')
    ensures lo + n / 2 != lo' + n' / 2
  {
    hide IsPow2;
    Pow2Even(n);
    Pow2Even(n');
    var q := Pow2Ratio(n / 2, n' / 2);
    OddAndEvenMultiples(lo / n, lo' / n', n / 2, q / 2);
    assert lo == lo / n * n && lo' == lo' / n' * n';
    assert n == 2 * (n / 2) && n' == 2 * (2 * (q / 2) * (n / 2));
  }

  lemma Pow2Even(n: nat)
    requires IsPow2(n) && n >= 2
    ensures n % 2 == 0 && IsPow2(n / 2)
  {
  }

  /** An odd multiple of h is no even one. */
  lemma OddAndEvenMultiples(a: nat, b: nat, h: nat, r: nat)
    requires h > 0
    ensures a * (2 * h) + h != b * (2 * (2 * r * h)) + 2 * r * h
  {
    var u := r * (2 * b + 1);
    var v := a * h;
    calc {
      b * (2 * (2 * r * h)) + 2 * r * h;
      2 * (2 * b * (r * h) + r * h);
      2 * ((2 * b + 1) * (r * h));
      2 * (u * h);
    }
    assert a * (2 * h) == 2 * v;
    if 2 * v + h == 2 * (u * h) {
      Cancel(a, u, h);
    }
  }

  lemma Cancel(a: nat, u: nat, h: nat)
    requires h > 0
    ensures 2 * (a * h) + h != 2 * (u * h)
  {
    if a < u {
      MulMonotone(a + 1, u, h);
      assert (a + 1) * h == a * h + h;
    } else {
      MulMonotone(u, a, h);
    }
  }

  lemma {:induction false} MulMonotone(x: nat, y: nat, h: nat)
    requires x <= y
    ensures x * h <= y * h
  {
    if x < y {
      MulMonotone(x, y - 1, h);
      assert y * h == (y - 1) * h + h;
    }
  }

  lemma {:induction false} Pow2Ratio(a: nat, b: nat) returns (q: nat)
    requires IsPow2(a) && IsPow2(b) && a < b
    ensures b == q * a && q % 2 == 0
  {
    if a == 1 {
      q := b;
    } else {
      q := Pow2Ratio(a / 2, b / 2);
      assert b == 2 * (q * (a / 2)) == q * a;
    }
  }

  /** A memo of perfect subtrees holds fewer entries than the log has leaves. */
  lemma MemoBound(m: map<(nat, nat), Digest>, leaves: seq<Digest>)
    requires Remembers(m, leaves) && AllPerfect(m)
    ensures m == map[] || |m| < |leaves|
  {
    var mids := set k | k in m :: Mid(k);
    var all := Below(|leaves|);
    MidpointCount(m.Keys, mids);
    assert mids <= all;
    SubsetSize(mids, all);
    if m != map[] {
      var k :| k in m;
      assert |leaves| >= 2;
    }
  }

  lemma {:induction false} MidpointCount(keys: set<(nat, nat)>, mids: set<nat>)
    requires forall k :: k in keys ==> k.0 + 2 <= k.1 && Perfect(k.0, k.1)
    requires mids == set k | k in keys :: Mid(k)
    ensures |mids| == |keys|
    decreases keys
  {
    if keys != {} {
      var k :| k in keys;
      var rest := keys - {k};
      var mid := Mid(k);
      forall j | j in rest
        ensures Mid(j) != mid
      {
        hide Perfect;
        if Mid(j) == mid {
          MidpointsDiffer(k.0, k.1 - k.0, j.0, j.1 - j.0);
        }
      }
      var restMids := set j | j in rest :: Mid(j);
      MidpointCount(rest, restMids);
      assert mids == restMids + {mid};
    }
  }

  lemma {:induction false} SubsetSize(a: set<nat>, b: set<nat>)
    requires a <= b
    ensures |a| <= |b|
  {
    assert b == a + (b - a);
  }

  /** The numbers 1, ..., n - 1. */
  ghost function Below(n: nat): (r: set<nat>)
    ensures forall i :: i in r <==> 1 <= i < n
    ensures |r| == if n == 0 then 0 else n - 1
  {
    if n <= 1 then {} else Below(n - 1) + {n - 1}
  }

  // --- One node of the tree ---------------------------------------------------------

  lemma NoLeaves(d: seq<Digest>)
    requires |d| == 0
    ensures Mth(d) == LogEmpty
  {
  }

  lemma OneLeaf(d: seq<Digest>)
    requires |d| == 1
    ensures Mth(d) == d[0]
  {
  }

  /** Two or more leaves hash as their two halves do. */
  lemma Halves(leaves: seq<Digest>, lo: nat, hi: nat, k: nat)
    requires lo + 2 <= hi <= |leaves| && k == Split(hi - lo)
    ensures Mth(leaves[lo..hi]) == LogNode(Mth(leaves[lo..lo + k]), Mth(leaves[lo + k..hi]))
  {
    assert leaves[lo..hi][..k] == leaves[lo..lo + k];
    assert leaves[lo..hi][k..] == leaves[lo + k..hi];
  }

  lemma PathHalves(leaves: seq<Digest>, lo: nat, hi: nat, k: nat, m: nat)
    requires lo + 2 <= hi <= |leaves| && k == Split(hi - lo) && lo + m < hi
    ensures Path(m, leaves[lo..hi]) ==
      if m < k then Path(m, leaves[lo..lo + k]) + [Mth(leaves[lo + k..hi])]
      else Path(m - k, leaves[lo + k..hi]) + [Mth(leaves[lo..lo + k])]
  {
    hide Split, Mth;
    assert leaves[lo..hi][..k] == leaves[lo..lo + k];
    assert leaves[lo..hi][k..] == leaves[lo + k..hi];
  }

  lemma SubProofHalves(leaves: seq<Digest>, lo: nat, hi: nat, k: nat, m: nat, b: bool)
    requires lo + 2 <= hi <= |leaves| && k == Split(hi - lo) && 1 <= m && lo + m < hi
    ensures SubProof(m, leaves[lo..hi], b) ==
      if m <= k then SubProof(m, leaves[lo..lo + k], b) + [Mth(leaves[lo + k..hi])]
      else SubProof(m - k, leaves[lo + k..hi], false) + [Mth(leaves[lo..lo + k])]
  {
    hide Split, Mth;
    assert leaves[lo..hi][..k] == leaves[lo..lo + k];
    assert leaves[lo..hi][k..] == leaves[lo + k..hi];
  }

  lemma Recall(m: map<(nat, nat), Digest>, leaves: seq<Digest>, lo: nat, hi: nat)
    requires Remembers(m, leaves) && (lo, hi) in m
    ensures lo <= hi <= |leaves| && m[(lo, hi)] == Mth(leaves[lo..hi])
  {
  }

  lemma Learn(m: map<(nat, nat), Digest>, leaves: seq<Digest>, lo: nat, hi: nat)
    requires Remembers(m, leaves) && lo + 2 <= hi <= |leaves|
    ensures Remembers(m[(lo, hi) := Mth(leaves[lo..hi])], leaves)
    ensures AllPerfect(m) && Perfect(lo, hi) ==> AllPerfect(m[(lo, hi) := Mth(leaves[lo..hi])])
  {
  }

  // --- The log --------------------------------------------------------------------

  class MerkleLog {
    var leaves: seq<Digest>
    const memo: RangeMemo

    /** A JavaScript array has fewer than 2^32 elements, so no size the tree sees is misread. */
    ghost predicate Valid()
      reads this, memo
    {
      |leaves| < WORD && Remembers(memo.m, leaves) && AllPerfect(memo.m)
    }

    constructor ()
      ensures Valid() && leaves == [] && fresh(memo)
    {
      leaves := [];
      memo := new RangeMemo();
    }

    /** Appends a leaf hash and gives its index; None when the array is full. */
    method Append(leafHash: Digest) returns (r: Option<nat>)
      requires Valid()
      modifies this
      ensures Valid()
      ensures r == if old(|leaves|) + 1 < WORD then Some(old(|leaves|)) else None
      ensures leaves == old(leaves) + (if r.Some? then [leafHash] else [])
    {
      if |leaves| + 1 >= WORD {
        return None;
      }
      RemembersAfterAppend(memo.m, leaves, leafHash);
      leaves := leaves + [leafHash];
      return Some(|leaves| - 1);
    }

    /** largestPowerOfTwoBelow. */
    static method LargestPowerOfTwoBelow(n: nat) returns (k: nat)
      requires n >= 2
      ensures k == Split(n)
    {
      k := 1;
      while k * 2 < n
        invariant 1 <= k < n && SplitFrom(k, n) == Split(n)
        decreases n - k
      {
        k := k * 2;
      }
    }

    /** MTH(D[lo:hi]), from the memo where it is there. */
    method HashRange(lo: nat, hi: nat, local: RangeMemo?) returns (h: Digest)
      requires Valid() && lo <= hi <= |leaves|
      requires local != null ==> local != memo && Remembers(local.m, leaves)
      modifies memo, local
      ensures Valid()
      ensures local != null ==> Remembers(local.m, leaves)
      ensures h == Mth(leaves[lo..hi])
      decreases hi - lo
    {
      hide Split, IsPow2, Passes, Remembers, AllPerfect, Mth;
      var n := hi - lo;
      if n == 0 {
        NoLeaves(leaves[lo..hi]);
        return LogEmpty;
      }
      if n == 1 {
        OneLeaf(leaves[lo..hi]);
        return leaves[lo];
      }
      var perfect := Passes(n) && lo % n == 0;
      ExactInWord(n);
      var m := if perfect then memo else local;
      if m != null && (lo, hi) in m.m {
        Recall(m.m, leaves, lo, hi);
        return m.m[(lo, hi)];
      }
      var k := LargestPowerOfTwoBelow(n);
      var left := HashRange(lo, lo + k, local);
      var right := HashRange(lo + k, hi, local);
      h := LogNode(left, right);
      Halves(leaves, lo, hi, k);
      if m != null {
        Learn(m.m, leaves, lo, hi);
        m.m := m.m[(lo, hi) := h];
      }
    }

    /** MTH(D[n]); None for a size the log never had. */
    method RootAt(n: int) returns (r: Option<Digest>)
      requires Valid()
      modifies memo
      ensures Valid()
      ensures r == if 0 <= n <= |leaves| then Some(Mth(leaves[..n])) else None
    {
      if n < 0 || n > |leaves| {
        return None;
      }
      var h := HashRange(0, n, null);
      assert leaves[0..n] == leaves[..n];
      return Some(h);
    }

    method PathIn(lo: nat, hi: nat, idx: nat, local: RangeMemo?) returns (path: seq<Digest>)
      requires Valid() && lo + idx < hi <= |leaves|
      requires local != null ==> local != memo && Remembers(local.m, leaves)
      modifies memo, local
      ensures Valid()
      ensures local != null ==> Remembers(local.m, leaves)
      ensures path == Path(idx, leaves[lo..hi])
      decreases hi - lo
    {
      hide Split, Remembers, AllPerfect, Mth;
      var len := hi - lo;
      if len == 1 {
        return [];
      }
      var k := LargestPowerOfTwoBelow(len);
      PathHalves(leaves, lo, hi, k, idx);
      if idx < k {
        path := PathIn(lo, lo + k, idx, local);
        var h := HashRange(lo + k, hi, local);
        path := path + [h];
      } else {
        path := PathIn(lo + k, hi, idx - k, local);
        var h := HashRange(lo, lo + k, local);
        path := path + [h];
      }
    }

    /** PATH(m, D[n]); None out of range. */
    method InclusionProof(m: int, n: int, local: RangeMemo?) returns (r: Option<seq<Digest>>)
      requires Valid()
      requires local != null ==> local != memo && Remembers(local.m, leaves)
      modifies memo, local
      ensures Valid()
      ensures local != null ==> Remembers(local.m, leaves)
      ensures r == ProofAt(m, n, leaves)
    {
      if !(m >= 0 && m < n && n <= |leaves|) {
        return None;
      }
      var path := PathIn(0, n, m, local);
      assert leaves[0..n] == leaves[..n];
      return Some(path);
    }

    /** The paths of many leaves at one size, sharing the ragged ranges: each is the path asked for alone. */
    method InclusionProofs(indices: seq<int>, n: int) returns (r: Option<seq<seq<Digest>>>)
      requires Valid()
      modifies memo
      ensures Valid()
      ensures r.None? ==> exists i :: i in indices && ProofAt(i, n, leaves).None?
      ensures r.Some? ==> |r.value| == |indices|
      ensures r.Some? ==> forall j :: 0 <= j < |indices| ==> ProofAt(indices[j], n, leaves) == Some(r.value[j])
    {
      hide ProofAt;
      var local := new RangeMemo();
      var out: seq<seq<Digest>> := [];
      for i := 0 to |indices|
        invariant Valid() && Remembers(local.m, leaves) && local != memo && |out| == i
        invariant forall j :: 0 <= j < i ==> ProofAt(indices[j], n, leaves) == Some(out[j])
      {
        var p := InclusionProof(indices[i], n, local);
        if p.None? {
          return None;
        }
        out := out + [p.value];
      }
      return Some(out);
    }

    method SubProofIn(lo: nat, hi: nat, mm: nat, b: bool) returns (proof: seq<Digest>)
      requires Valid() && 1 <= mm && lo + mm <= hi <= |leaves|
      modifies memo
      ensures Valid()
      ensures proof == SubProof(mm, leaves[lo..hi], b)
      decreases hi - lo
    {
      hide Split, Remembers, AllPerfect, Mth;
      var len := hi - lo;
      if mm == len {
        if b {
          return [];
        }
        var h := HashRange(lo, hi, null);
        return [h];
      }
      var k := LargestPowerOfTwoBelow(len);
      SubProofHalves(leaves, lo, hi, k, mm, b);
      if mm <= k {
        proof := SubProofIn(lo, lo + k, mm, b);
        var h := HashRange(lo + k, hi, null);
        proof := proof + [h];
      } else {
        proof := SubProofIn(lo + k, hi, mm - k, false);
        var h := HashRange(lo, lo + k, null);
        proof := proof + [h];
      }
    }

    /** PROOF(m, D[n]); None out of range. */
    method ConsistencyProof(m: int, n: int) returns (r: Option<seq<Digest>>)
      requires Valid()
      modifies memo
      ensures Valid()
      ensures r == if 0 <= m <= n <= |leaves| then Some(Proof(m, leaves[..n])) else None
    {
      if !(m >= 0 && m <= n && n <= |leaves|) {
        return None;
      }
      if m == 0 || m == n {
        return Some([]);
      }
      var proof := SubProofIn(0, n, m, true);
      assert leaves[0..n] == leaves[..n];
      return Some(proof);
    }
  }
}
