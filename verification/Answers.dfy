/**
 What the log answers and what a reader checks (kt/lib/log.js): an entry under a head, a
 label's latest entry under a head, whole buckets under a head. What passes the checks is what
 the entries below the head are.
 */
module Answers {
  import opened Options
  import opened Digests
  import opened SparseMap
  import opened CompactMap
  import opened MapVerify
  import opened LogTree
  import opened LogVerify
  import opened RecordCodec
  import opened LogState

  /** An entry with its audit path, as a reader checks it. */
  ghost predicate Included(mode: Mode, h: HeadMsg, e: LogEntry, path: seq<Digest>) {
    0 <= e.index < h.size && RootFrom(e.index, h.size, LeafHash(mode, e), path) == Some(h.logRoot)
  }

  /** Under a true head, an entry is included exactly as the entry at its index, with its audit path. */
  lemma IncludedExact(mode: Mode, h: HeadMsg, es: seq<LogEntry>, e: LogEntry, path: seq<Digest>)
    requires Describes(mode, h, es)
    ensures Included(mode, h, e, path) <==>
      0 <= e.index < h.size && SameLeaf(mode, e, es[e.index]) && path == Path(e.index, Leaves(mode, es[..h.size]))
  {
    hide RootFrom, Path, Mth, Latest, Canon;
    if 0 <= e.index < h.size {
      var d := Leaves(mode, es[..h.size]);
      InclusionExact(d, e.index, LeafHash(mode, e), path);
      assert d[e.index] == LeafHash(mode, es[e.index]);
      LeafSame(mode, e, es[e.index]);
    }
  }

  lemma LeafSame(mode: Mode, a: LogEntry, b: LogEntry)
    ensures LeafHash(mode, a) == LeafHash(mode, b) <==> SameLeaf(mode, a, b)
  {
  }

  // --- A label ---------------------------------------------------------------------------

  /** A lookup as it passes a reader's checks: the map's word on the label, and the entry it names, or none. */
  ghost predicate LookupPasses(mode: Mode, h: HeadMsg, l: Label, proof: MapProof, e: Option<LogEntry>, path: seq<Digest>) {
    && MapProofVerifies(DEPTH, h.mapRoot, l, proof)
    && (proof.leaf.Absent? <==> e.None?)
    && (e.Some? ==>
      e.value.lbl == l && proof.leaf.slot == Slot(e.value.index, e.value.version) && Included(mode, h, e.value, path))
  }

  /** Under a true head a lookup that passes is the label's latest entry, or its absence. */
  lemma LookupSound(mode: Mode, h: HeadMsg, es: seq<LogEntry>, l: Label, proof: MapProof, e: Option<LogEntry>, path: seq<Digest>)
    requires Describes(mode, h, es) && Indexed(es)
    requires LookupPasses(mode, h, l, proof, e, path)
    ensures e.Some? <==> LatestEntry(es[..h.size], l).Some?
    ensures e.Some? ==> e.value.index == LatestEntry(es[..h.size], l).value.index
    ensures e.Some? ==> SameLeaf(mode, e.value, LatestEntry(es[..h.size], l).value)
  {
    hide RootFrom, Path, Mth, Canon, Latest, MapProofVerifies, Positions;
    var below := es[..h.size];
    MapProofSound(DEPTH, Latest(below), l, proof);
    LatestIs(below, l);
    if e.Some? {
      IncludedExact(mode, h, es, e.value, path);
    }
  }

  // --- Buckets ------------------------------------------------------------------------------

  datatype Query = Query(prefix: Label, bits: nat)

  /** A leaf as it is served; the value, time and audit path are the handle log's. */
  datatype ServedLeaf = ServedLeaf(leaf: Leaf, value: Bytes, ts: int, sig: Bytes, audit: seq<Digest>)

  datatype ServedBucket = ServedBucket(query: Query, leaves: seq<ServedLeaf>, siblings: seq<Digest>)

  const MAX_BUCKET_LEAVES := 4096
  const MAX_BUCKET_BITS := 24

  function LeavesIn(b: seq<ServedLeaf>): (r: seq<Leaf>)
    ensures |r| == |b| && forall i :: 0 <= i < |b| ==> r[i] == b[i].leaf
  {
    seq(|b|, i requires 0 <= i < |b| => b[i].leaf)
  }

  /** The entry a handle leaf stands for. */
  function EntryServed(x: ServedLeaf): LogEntry {
    LogEntry(x.leaf.slot.index, x.leaf.lbl, x.leaf.slot.version, "", ValueDigest(x.value), x.value, "", x.ts, Some(x.sig))
  }

  /** A handle leaf's own checks: a whole hour, a value within the cap, and the record in the log tree. */
  ghost predicate RecordPasses(h: HeadMsg, x: ServedLeaf) {
    && x.ts >= 0 && x.ts % HOUR == 0
    && |x.value| <= MAX_RECORD_BYTES
    && Included(Handles, h, EntryServed(x), x.audit)
  }

  ghost predicate BucketPasses(mode: Mode, h: HeadMsg, asked: Query, b: ServedBucket) {
    && b.query == asked && |b.leaves| <= MAX_BUCKET_LEAVES
    && BucketVerifies(DEPTH, h.mapRoot, asked.prefix, asked.bits, LeavesIn(b.leaves), b.siblings)
    && (mode.Handles? ==> forall i :: 0 <= i < |b.leaves| ==> RecordPasses(h, b.leaves[i]))
  }

  ghost predicate AnswerPasses(mode: Mode, h: HeadMsg, asked: seq<Query>, served: seq<ServedBucket>) {
    |served| == |asked| && forall i :: 0 <= i < |asked| ==> BucketPasses(mode, h, asked[i], served[i])
  }

  /** verifyBucketAnswer, its head having verified. */
  method VerifyBucketAnswer(mode: Mode, h: HeadMsg, asked: seq<Query>, served: seq<ServedBucket>) returns (ok: bool)
    ensures ok <==> AnswerPasses(mode, h, asked, served)
  {
    hide BucketVerifies, RootFrom, LeafHash;
    if |served| != |asked| {
      return false;
    }
    for n := 0 to |asked|
      invariant forall i :: 0 <= i < n ==> BucketPasses(mode, h, asked[i], served[i])
    {
      var b := served[n];
      if b.query != asked[n] || |b.leaves| > MAX_BUCKET_LEAVES {
        return false;
      }
      var folds := VerifyBucket(DEPTH, h.mapRoot, b.query.prefix, b.query.bits, LeavesIn(b.leaves), b.siblings);
      if !folds {
        return false;
      }
      if mode.Handles? {
        for k := 0 to |b.leaves|
          invariant forall i :: 0 <= i < k ==> RecordPasses(h, b.leaves[i])
        {
          var x := b.leaves[k];
          if x.ts < 0 || x.ts % HOUR != 0 || |x.value| > MAX_RECORD_BYTES {
            assert !RecordPasses(h, b.leaves[k]);
            return false;
          }
          var e := EntryServed(x);
          var in_ := VerifyInclusion(LeafHash(Handles, e), e.index, h.size, h.logRoot, x.audit);
          if !in_ {
            assert !RecordPasses(h, b.leaves[k]);
            return false;
          }
        }
      }
    }
    return true;
  }

  /** What the checks of a bucket answer are, written out. */
  lemma PassesExact(mode: Mode, h: HeadMsg, asked: seq<Query>, served: seq<ServedBucket>)
    ensures AnswerPasses(mode, h, asked, served) <==>
      |served| == |asked| && forall i :: 0 <= i < |asked| ==>
        && served[i].query == asked[i] && |served[i].leaves| <= 4096
        && BucketVerifies(256, h.mapRoot, asked[i].prefix, asked[i].bits, LeavesIn(served[i].leaves), served[i].siblings)
        && (mode == Handles ==> forall k :: 0 <= k < |served[i].leaves| ==>
          var x := served[i].leaves[k];
          && x.ts >= 0 && x.ts % 3_600_000 == 0 && |x.value| <= 1024 && 0 <= x.leaf.slot.index < h.size
          && RootFrom(x.leaf.slot.index, h.size, LogLeaf(HandleLeaf(x.leaf.lbl, x.leaf.slot.version, ValueDigest(x.value), x.ts)), x.audit)
            == Some(h.logRoot))
  {
    hide RootFrom, BucketVerifies;
  }

  /** The slots of a replayed history: indices and versions, none negative. */
  lemma {:induction false} LatestCounting(w: World, es: seq<LogEntry>)
    requires Replays(w, es) && Hashes(w)
    ensures SparseMap.Sized(DEPTH, Latest(es)) && Counting(Latest(es))
  {
    hide Replays;
    if es != [] {
      var n := |es| - 1;
      ReplaysPrefix(w, es, n);
      LatestCounting(w, es[..n]);
      ReplayedEntry(w, es, n);
    }
  }

  /**
   An accepted bucket is exact: under a true head it lists every label with the prefix that
   the entries below the head have, each once, in order, with the index and version of its
   latest entry; and in the handle log the record it carries is the one at that index.
   */
  lemma BucketMeans(w: World, h: HeadMsg, es: seq<LogEntry>, asked: Query, b: ServedBucket)
    requires Replays(w, es) && Hashes(w) && Describes(w.mode, h, es)
    requires BucketPasses(w.mode, h, asked, b)
    ensures asked.bits <= DEPTH && LeavesIn(b.leaves) == Sub(DEPTH, asked.prefix[..asked.bits], Latest(es[..h.size]))
    ensures forall l :: (exists i :: 0 <= i < |b.leaves| && b.leaves[i].leaf.lbl == l) <==>
      |l| == DEPTH && asked.prefix[..asked.bits] <= l && LatestEntry(es[..h.size], l).Some?
    ensures forall i :: 0 <= i < |b.leaves| ==> LeafIsLatest(w.mode, es[..h.size], b.leaves[i])
  {
    hide BucketVerifies, Sub, Describes, Latest, LatestEntry, LeafIsLatest, CanonSiblings, RecordPasses;
    HeadSays(w.mode, h, es);
    var below := es[..h.size];
    ReplayedHashed(w, es);
    ReplaysPrefix(w, es, h.size);
    LatestCounting(w, below);
    BucketWellFormed(h.mapRoot, asked, LeavesIn(b.leaves), b.siblings);
    BucketExact(DEPTH, Latest(below), asked.prefix, asked.bits, LeavesIn(b.leaves), b.siblings);
    ReplayedIndexed(w, below);
    ReplayedIndexed(w, es);
    forall i | 0 <= i < |b.leaves|
      ensures LeafIsLatest(w.mode, below, b.leaves[i]) && |b.leaves[i].leaf.lbl| == DEPTH
      ensures asked.prefix[..asked.bits] <= b.leaves[i].leaf.lbl && LatestEntry(below, b.leaves[i].leaf.lbl).Some?
    {
      assert LeavesIn(b.leaves)[i] == b.leaves[i].leaf;
      SubExact(DEPTH, asked.prefix[..asked.bits], Latest(below), b.leaves[i].leaf);
      LeafMeans(w.mode, h, es, b.leaves[i]);
    }
    forall l | |l| == DEPTH && asked.prefix[..asked.bits] <= l && LatestEntry(below, l).Some?
      ensures exists i :: 0 <= i < |b.leaves| && b.leaves[i].leaf.lbl == l
    {
      LabelListed(below, asked, b, l);
    }
  }

  /** Each leaf of it names the last entry below the head of its label, and in the handle log carries that entry's record. */
  lemma BucketNames(w: World, h: HeadMsg, es: seq<LogEntry>, asked: Query, b: ServedBucket, i: nat)
    requires Replays(w, es) && Hashes(w) && Describes(w.mode, h, es)
    requires BucketPasses(w.mode, h, asked, b) && i < |b.leaves|
    ensures var x := b.leaves[i];
      var p := x.leaf.slot.index;
      && 0 <= p < h.size <= |es| && es[p].lbl == x.leaf.lbl && es[p].version == x.leaf.slot.version
      && (forall q :: p < q < h.size ==> es[q].lbl != x.leaf.lbl)
      && (w.mode == Handles ==> x.value == es[p].value && x.ts == es[p].ts)
  {
    hide BucketPasses, Describes, LatestEntry, Replays;
    HeadSays(w.mode, h, es);
    BucketMeans(w, h, es, asked, b);
    LatestEntryIs(es[..h.size], b.leaves[i].leaf.lbl);
    ReplayedIndexed(w, es);
  }

  lemma HeadSays(mode: Mode, h: HeadMsg, es: seq<LogEntry>)
    requires Describes(mode, h, es)
    ensures 0 <= h.size <= |es| && h.mapRoot == Canon(DEPTH, [], Latest(es[..h.size]))
  {
  }

  lemma BucketWellFormed(root: Digest, asked: Query, leaves: seq<Leaf>, siblings: seq<Digest>)
    requires BucketVerifies(DEPTH, root, asked.prefix, asked.bits, leaves, siblings)
    ensures |asked.prefix| == DEPTH && asked.bits <= DEPTH
  {
  }

  /** A served leaf is its label's latest entry, record and all. */
  ghost predicate LeafIsLatest(mode: Mode, below: seq<LogEntry>, x: ServedLeaf) {
    var e := LatestEntry(below, x.leaf.lbl);
    && e.Some? && x.leaf.slot == Slot(e.value.index, e.value.version)
    && (mode.Handles? ==> x.value == e.value.value && x.ts == e.value.ts)
  }

  lemma ReplayedHashed(w: World, es: seq<LogEntry>)
    requires Replays(w, es) && Hashes(w)
    ensures Hashed(es)
  {
    hide Replays;
    forall i | 0 <= i < |es|
      ensures es[i].valueHash == ValueDigest(es[i].value)
    {
      ReplayedEntry(w, es, i);
    }
  }

  lemma LeafMeans(mode: Mode, h: HeadMsg, es: seq<LogEntry>, x: ServedLeaf)
    requires Describes(mode, h, es) && 0 <= h.size <= |es| && Indexed(es) && Hashed(es)
    requires x.leaf.lbl in Latest(es[..h.size]) && Latest(es[..h.size])[x.leaf.lbl] == x.leaf.slot
    requires mode.Handles? ==> RecordPasses(h, x)
    ensures 0 <= h.size <= |es| && LeafIsLatest(mode, es[..h.size], x) && LatestEntry(es[..h.size], x.leaf.lbl).Some?
  {
    hide Describes, Latest, Positions, RootFrom, LeafHash, Path;
    assert 0 <= h.size <= |es| by {
      HeadSays(mode, h, es);
    }
    LatestIs(es[..h.size], x.leaf.lbl);
    if mode.Handles? {
      IncludedExact(mode, h, es, EntryServed(x), x.audit);
    }
  }

  /** Each entry's hash is its value's. */
  predicate Hashed(es: seq<LogEntry>) {
    forall i :: 0 <= i < |es| ==> es[i].valueHash == ValueDigest(es[i].value)
  }

  lemma LabelListed(below: seq<LogEntry>, asked: Query, b: ServedBucket, l: Label)
    requires Indexed(below) && |asked.prefix| == DEPTH && asked.bits <= DEPTH
    requires LeavesIn(b.leaves) == Sub(DEPTH, asked.prefix[..asked.bits], Latest(below))
    requires |l| == DEPTH && asked.prefix[..asked.bits] <= l && LatestEntry(below, l).Some?
    ensures exists i :: 0 <= i < |b.leaves| && b.leaves[i].leaf.lbl == l
  {
    hide Sub, Latest, Positions;
    LatestIs(below, l);
    var x := Leaf(l, Latest(below)[l]);
    SubExact(DEPTH, asked.prefix[..asked.bits], Latest(below), x);
    assert x in LeavesIn(b.leaves);
    var i :| 0 <= i < |b.leaves| && LeavesIn(b.leaves)[i] == x;
    assert b.leaves[i].leaf.lbl == l;
  }

  // --- What the log builds them from ---------------------------------------------------------

  /** An entry as it is served: with its audit path. */
  datatype Proven = Proven(entry: LogEntry, path: seq<Digest>)

  datatype LookupAnswer = LookupAnswer(sth: HeadMsg, proof: MapProof, entry: Option<LogEntry>, path: seq<Digest>)

  /** A page: where it starts, how many there are in all, and the entries of it. */
  datatype Page = Page(sth: HeadMsg, start: int, total: nat, entries: seq<Proven>)

  /** Array.slice from start, to start + count when there is a count. */
  function Clip(all: seq<nat>, start: nat, count: Option<nat>): seq<nat> {
    if start >= |all| then []
    else if count.None? || start + count.value >= |all| then all[start..]
    else all[start..start + count.value]
  }

  /** What the entries at these indices cost to serve. */
  function Cost(es: seq<LogEntry>, indices: seq<int>, cost: LogEntry -> nat): nat
    requires forall i :: 0 <= i < |indices| ==> 0 <= indices[i] < |es|
  {
    if indices == [] then 0
    else Cost(es, indices[..|indices| - 1], cost) + cost(es[indices[|indices| - 1]])
  }

  /** A slice's elements are those from start on, as many as the count and the list let be. */
  lemma ClipIs(all: seq<nat>, start: nat, count: Option<nat>)
    ensures forall k :: 0 <= k < |Clip(all, start, count)| ==> start + k < |all| && Clip(all, start, count)[k] == all[start + k]
    ensures start >= |all| ==> Clip(all, start, count) == []
    ensures start < |all| ==> |Clip(all, start, count)| == if count.Some? && count.value < |all| - start then count.value else |all| - start
    ensures forall n :: 0 <= n <= |Clip(all, start, count)| && start + n <= |all| ==> Clip(all, start, count)[..n] == all[start..start + n]
  {
    var c := Clip(all, start, count);
    forall k | 0 <= k < |c|
      ensures start + k < |all| && c[k] == all[start + k]
    {
    }
  }

  ghost predicate StandsAt(es: seq<LogEntry>, all: seq<nat>, at: int, e: LogEntry) {
    0 <= at < |all| && all[at] < |es| && e == es[all[at]]
  }

  /** A page shows the entries at these positions from start on, and none only where there is none. */
  ghost predicate Shows(es: seq<LogEntry>, all: seq<nat>, start: int, count: Option<int>, page: seq<Proven>) {
    && (forall k {:trigger page[k]} :: 0 <= k < |page| ==> StandsAt(es, all, start + k, page[k].entry))
    && (page == [] <==> start >= |all|) && (count.Some? ==> |page| <= count.value)
  }

  /** A page of the entries asked for, in the order they were asked for, and none only where none was. */
  ghost predicate Listed(es: seq<LogEntry>, indexes: seq<int>, page: seq<Proven>) {
    && |page| <= |indexes| && (page == [] <==> indexes == [])
    && forall k :: 0 <= k < |page| ==> 0 <= indexes[k] < |es| && page[k].entry == es[indexes[k]]
  }

  lemma ListedIs(mode: Mode, h: HeadMsg, es: seq<LogEntry>, wanted: seq<nat>, page: seq<Proven>)
    requires PageOf(mode, h, es, wanted, page)
    ensures Listed(es, wanted, page)
  {
    hide Included;
  }

  /** And it ends where they do, at the count, or where the next one is past the bytes. */
  ghost predicate Filled(es: seq<LogEntry>, all: seq<nat>, start: int, count: Option<int>, cost: LogEntry -> nat, maxBytes: Option<nat>, n: nat) {
    (0 <= start && start + n < |all| && (count.None? || n < count.value) && (forall i :: 0 <= i < |all| ==> all[i] < |es|) ==>
      maxBytes.Some? && Cost(es, all[start..start + n + 1], cost) > maxBytes.value) &&
    (n > 1 && maxBytes.Some? && 0 <= start && start + n <= |all| && (forall i :: 0 <= i < |all| ==> all[i] < |es|) ==>
      Cost(es, all[start..start + n], cost) <= maxBytes.value)
  }

  lemma ShowsIt(es: seq<LogEntry>, all: seq<nat>, start: nat, count: Option<int>, cost: LogEntry -> nat, maxBytes: Option<nat>, page: seq<Proven>)
    requires forall i :: 0 <= i < |all| ==> all[i] < |es|
    requires forall k :: 0 <= k < |page| ==> start + k < |all| && page[k].entry == es[all[start + k]]
    requires (page == [] <==> start >= |all|) && (count.Some? ==> |page| <= count.value)
    requires start + |page| < |all| && (count.None? || |page| < count.value) ==>
      maxBytes.Some? && Cost(es, all[start..start + |page| + 1], cost) > maxBytes.value
    requires |page| > 1 && maxBytes.Some? ==> start + |page| <= |all| && Cost(es, all[start..start + |page|], cost) <= maxBytes.value
    ensures Shows(es, all, start, count, page) && Filled(es, all, start, count, cost, maxBytes, |page|)
  {
    hide Cost;
  }

  lemma ShowsOne(es: seq<LogEntry>, all: seq<nat>, start: int, count: Option<int>, page: seq<Proven>, k: nat)
    requires Shows(es, all, start, count, page) && k < |page|
    ensures 0 <= start + k < |all| && all[start + k] < |es| && page[k].entry == es[all[start + k]]
  {
    assert StandsAt(es, all, start + k, page[k].entry);
  }

  /** What a walk has and the page it fetched from there are the first entries of the list; the page is empty only at its end. */
  lemma WalkedOn(es: seq<LogEntry>, all: seq<nat>, count: Option<int>, got: seq<LogEntry>, page: seq<Proven>, more: seq<LogEntry>)
    requires Shows(es, all, |got|, count, page) && |got| <= |all|
    requires forall k :: 0 <= k < |got| ==> StandsAt(es, all, k, got[k])
    requires |more| == |page| && forall i :: 0 <= i < |more| ==> more[i] == page[i].entry
    ensures page == [] <==> |got| == |all|
    ensures |got + more| <= |all| && forall k :: 0 <= k < |got + more| ==> StandsAt(es, all, k, (got + more)[k])
  {
    hide Shows, StandsAt;
    forall k | 0 <= k < |got + more|
      ensures StandsAt(es, all, k, (got + more)[k])
    {
      if k >= |got| {
        ShowsOne(es, all, |got|, count, page, k - |got|);
        StandsIs(es, all, k, page[k - |got|].entry);
        assert (got + more)[k] == more[k - |got|];
      }
    }
    ShowsEnds(es, all, |got|, count, page);
    if page != [] {
      ShowsOne(es, all, |got|, count, page, |page| - 1);
    }
  }

  lemma StandsIs(es: seq<LogEntry>, all: seq<nat>, at: int, e: LogEntry)
    ensures StandsAt(es, all, at, e) <==> 0 <= at < |all| && all[at] < |es| && e == es[all[at]]
  {
  }

  lemma ShowsEnds(es: seq<LogEntry>, all: seq<nat>, start: int, count: Option<int>, page: seq<Proven>)
    requires Shows(es, all, start, count, page)
    ensures page == [] <==> start >= |all|
  {
  }

  /** A page of a label's entries is a slice of them, which ends where they do, at the count, or where the next one is past the bytes. */
  lemma PageIsSlice(mode: Mode, h: HeadMsg, es: seq<LogEntry>, all: seq<nat>, start: nat, count: Option<nat>, cost: LogEntry -> nat,
                    maxBytes: Option<nat>, page: seq<Proven>)
    requires forall i :: 0 <= i < |all| ==> all[i] < |es|
    requires forall i :: 0 <= i < |Clip(all, start, count)| ==> Clip(all, start, count)[i] < |es|
    requires PageOf(mode, h, es, Clip(all, start, count), page) && Fitted(es, Clip(all, start, count), cost, maxBytes, |page|)
    requires count.Some? ==> count.value >= 1
    ensures forall k :: 0 <= k < |page| ==> start + k < |all| && page[k].entry == es[all[start + k]]
    ensures (page == [] <==> start >= |all|) && (count.Some? ==> |page| <= count.value)
    ensures start + |page| < |all| && (count.None? || |page| < count.value) ==>
      maxBytes.Some? && Cost(es, all[start..start + |page| + 1], cost) > maxBytes.value
    ensures |page| > 1 && maxBytes.Some? ==> start + |page| <= |all| && Cost(es, all[start..start + |page|], cost) <= maxBytes.value
    ensures var asked: Option<int> := if count.Some? then Some(count.value) else None;
      Shows(es, all, start, asked, page) && Filled(es, all, start, asked, cost, maxBytes, |page|)
  {
    hide Cost, Included, Clip, Shows, Filled;
    ClipIs(all, start, count);
    var c := Clip(all, start, count);
    assert |page| <= |c|;
    forall k | 0 <= k < |page|
      ensures start + k < |all| && page[k].entry == es[all[start + k]]
    {
    }
    ShowsIt(es, all, start, if count.Some? then Some(count.value) else None, cost, maxBytes, page);
  }

  /** The cost of entries is the sum of each one's. */
  lemma {:induction false} CostIs(es: seq<LogEntry>, a: seq<int>, b: seq<int>, cost: LogEntry -> nat)
    requires forall i :: 0 <= i < |a| ==> 0 <= a[i] < |es|
    requires forall i :: 0 <= i < |b| ==> 0 <= b[i] < |es|
    ensures Cost(es, [], cost) == 0 && forall i :: 0 <= i < |es| ==> Cost(es, [i], cost) == cost(es[i])
    ensures Cost(es, a + b, cost) == Cost(es, a, cost) + Cost(es, b, cost)
    decreases |b|
  {
    assert forall i: int :: [i][..0] == [];
    if b == [] {
      assert a + b == a;
    } else {
      var n := |b| - 1;
      assert (a + b)[..|a| + n] == a + b[..n];
      CostIs(es, a, b[..n], cost);
    }
  }

  /** As many of these as fit in maxBytes, taken in order, and at least one. */
  ghost predicate Fitted(es: seq<LogEntry>, indices: seq<int>, cost: LogEntry -> nat, maxBytes: Option<nat>, n: nat)
    requires forall i :: 0 <= i < |indices| ==> 0 <= indices[i] < |es|
  {
    && n <= |indices| && (indices != [] ==> n >= 1)
    && (maxBytes.Some? && n > 1 ==> Cost(es, indices[..n], cost) <= maxBytes.value)
    && (n < |indices| ==> maxBytes.Some? && Cost(es, indices[..n + 1], cost) > maxBytes.value)
  }

  /** The page of these entries, under a head: those asked for, in order, each with a path that verifies. */
  ghost predicate PageOf(mode: Mode, h: HeadMsg, es: seq<LogEntry>, wanted: seq<nat>, page: seq<Proven>) {
    && |page| <= |wanted| && (wanted != [] ==> page != [])
    && forall k :: 0 <= k < |page| ==>
      wanted[k] < |es| && page[k].entry == es[wanted[k]] && Included(mode, h, page[k].entry, page[k].path)
  }

  /** The log's own head includes each entry by its audit path. */
  lemma HeadIncludes(mode: Mode, es: seq<LogEntry>, h: HeadMsg, i: nat, path: seq<Digest>)
    requires h == HeadOf(mode, es, h.ts) && Indexed(es) && i < |es|
    requires path == Path(i, Leaves(mode, es))
    ensures Included(mode, h, es[i], path)
  {
    hide RootFrom, Path, HeadOf, Leaves;
    HeadDescribes(mode, es, h.ts);
    HeadCovers(mode, es, h.ts);
    assert es[..|es|] == es;
    SameAsItself(mode, es[i]);
    IncludedExact(mode, h, es, es[i], path);
  }

  lemma HeadCovers(mode: Mode, es: seq<LogEntry>, ts: int)
    ensures HeadOf(mode, es, ts).size == |es| && HeadOf(mode, es, ts).mapRoot == Canon(DEPTH, [], Latest(es))
    ensures HeadOf(mode, es, ts).logRoot == Mth(Leaves(mode, es))
  {
  }

  lemma SameAsItself(mode: Mode, e: LogEntry)
    ensures SameLeaf(mode, e, e)
  {
  }

  /** The log's own answer to a lookup passes. */
  lemma LookupBuilt(w: World, es: seq<LogEntry>, h: HeadMsg, l: Label, proof: MapProof, path: seq<Digest>)
    requires Replays(w, es) && Hashes(w) && |l| == DEPTH && h == HeadOf(w.mode, es, h.ts)
    requires IsProof(DEPTH, l, Latest(es), proof)
    requires LatestEntry(es, l).Some? ==> Included(w.mode, h, LatestEntry(es, l).value, path)
    ensures LookupPasses(w.mode, h, l, proof, LatestEntry(es, l), path)
  {
    hide RootFrom, HeadOf, Replays, Latest, Leaves, MapProofVerifies;
    HeadCovers(w.mode, es, h.ts);
    LatestCounting(w, es);
    ReplayedIndexed(w, es);
    MapProofComplete(DEPTH, Latest(es), l, proof);
    LatestIs(es, l);
    if LatestEntry(es, l).Some? {
      var p := Positions(es, l);
      PositionsExact(es, l, p[|p| - 1]);
    }
  }

  // --- What the log's buckets are --------------------------------------------------------------

  /** A leaf before its record is added to it. */
  function Bare(x: Leaf): ServedLeaf {
    ServedLeaf(x, "", 0, "", [])
  }

  /** A handle leaf with the record at its index. */
  function Dressed(x: Leaf, e: LogEntry, audit: seq<Digest>): ServedLeaf {
    ServedLeaf(x, e.value, e.ts, if e.sig.Some? then e.sig.value else "", audit)
  }

  /** A bucket as the map gives it. */
  ghost predicate BucketBuilt(es: seq<LogEntry>, q: Query, b: ServedBucket) {
    && |q.prefix| == DEPTH && q.bits <= DEPTH
    && b.query == q && LeavesIn(b.leaves) == Sub(DEPTH, q.prefix[..q.bits], Latest(es))
    && b.siblings == CanonSiblings(DEPTH, q.prefix, q.bits, Latest(es))
  }

  /** Its leaves with the entries at their indices. */
  ghost predicate RecordsBuilt(es: seq<LogEntry>, h: HeadMsg, b: ServedBucket) {
    forall i :: 0 <= i < |b.leaves| ==> RecordBuilt(es, h, b.leaves[i])
  }

  ghost predicate RecordBuilt(es: seq<LogEntry>, h: HeadMsg, x: ServedLeaf) {
    && 0 <= x.leaf.slot.index < |es|
    && x == Dressed(x.leaf, es[x.leaf.slot.index], x.audit)
    && Included(Handles, h, es[x.leaf.slot.index], x.audit)
  }

  /** The log's own buckets pass. */
  lemma BucketBuiltPasses(w: World, es: seq<LogEntry>, h: HeadMsg, q: Query, b: ServedBucket)
    requires Replays(w, es) && Hashes(w) && h == HeadOf(w.mode, es, h.ts)
    requires BucketBuilt(es, q, b) && |b.leaves| <= MAX_BUCKET_LEAVES
    requires w.mode.Handles? ==> RecordsBuilt(es, h, b)
    ensures BucketPasses(w.mode, h, q, b)
  {
    hide BucketVerifies, HeadOf, Replays, Latest, Sub, CanonSiblings, RecordPasses, RecordBuilt;
    HeadCovers(w.mode, es, h.ts);
    LatestCounting(w, es);
    BucketExact(DEPTH, Latest(es), q.prefix, q.bits, LeavesIn(b.leaves), b.siblings);
    if w.mode.Handles? {
      forall i | 0 <= i < |b.leaves|
        ensures RecordPasses(h, b.leaves[i])
      {
        assert LeavesIn(b.leaves)[i] == b.leaves[i].leaf;
        SubExact(DEPTH, q.prefix[..q.bits], Latest(es), b.leaves[i].leaf);
        RecordBuiltPasses(w, es, h, b.leaves[i]);
      }
    }
  }

  lemma RecordBuiltPasses(w: World, es: seq<LogEntry>, h: HeadMsg, x: ServedLeaf)
    requires Replays(w, es) && Hashes(w) && w.mode.Handles? && RecordBuilt(es, h, x)
    requires x.leaf.lbl in Latest(es) && Latest(es)[x.leaf.lbl] == x.leaf.slot
    ensures RecordPasses(h, x)
  {
    hide RootFrom, Replays, Latest, Positions;
    ReplayedIndexed(w, es);
    LatestIs(es, x.leaf.lbl);
    var p := Positions(es, x.leaf.lbl);
    PositionsExact(es, x.leaf.lbl, p[|p| - 1]);
    ReplayedEntry(w, es, x.leaf.slot.index);
  }

  /** The leaves of all the buckets, in order. */
  function AllLeaves(bs: seq<ServedBucket>): seq<Leaf> {
    if bs == [] then [] else AllLeaves(bs[..|bs| - 1]) + LeavesIn(bs[|bs| - 1].leaves)
  }

  lemma AllLeavesNext(bs: seq<ServedBucket>, k: nat)
    requires k < |bs|
    ensures AllLeaves(bs[..k + 1]) == AllLeaves(bs[..k]) + LeavesIn(bs[k].leaves)
  {
    assert bs[..k + 1][..k] == bs[..k];
  }

  lemma {:induction false} AllLeavesPrefix(bs: seq<ServedBucket>, k: nat)
    requires k <= |bs|
    ensures |AllLeaves(bs[..k])| <= |AllLeaves(bs)| && AllLeaves(bs)[..|AllLeaves(bs[..k])|] == AllLeaves(bs[..k])
  {
    hide LeavesIn;
    var n := |bs| - 1;
    if k == |bs| {
      assert bs[..k] == bs;
    } else {
      AllLeavesPrefix(bs[..n], k);
      assert bs[..n][..k] == bs[..k];
      assert AllLeaves(bs)[..|AllLeaves(bs[..n])|] == AllLeaves(bs[..n]);
    }
  }

  /** Where a bucket's leaves are among them. */
  lemma AllLeavesAt(bs: seq<ServedBucket>, k: nat, i: nat)
    requires k < |bs| && i < |bs[k].leaves|
    ensures |AllLeaves(bs[..k])| + i < |AllLeaves(bs)|
    ensures AllLeaves(bs)[|AllLeaves(bs[..k])| + i] == bs[k].leaves[i].leaf
  {
    hide AllLeaves;
    AllLeavesNext(bs, k);
    AllLeavesPrefix(bs, k + 1);
    var at, part := |AllLeaves(bs[..k])| + i, AllLeaves(bs[..k + 1]);
    assert part[at] == LeavesIn(bs[k].leaves)[i];
    assert AllLeaves(bs)[..|part|][at] == part[at];
  }

  /** Every leaf these queries ask for, in order. */
  ghost function LeafList(es: seq<LogEntry>, queries: seq<Query>): seq<Leaf> {
    if queries == [] then []
    else LeafList(es, queries[..|queries| - 1]) + Bucketful(es, queries[|queries| - 1])
  }

  ghost function Bucketful(es: seq<LogEntry>, q: Query): seq<Leaf> {
    if |q.prefix| == DEPTH && q.bits <= DEPTH then Sub(DEPTH, q.prefix[..q.bits], Latest(es)) else []
  }

  ghost predicate AllBuilt(es: seq<LogEntry>, queries: seq<Query>, bs: seq<ServedBucket>) {
    |bs| == |queries| && forall i :: 0 <= i < |bs| ==> BucketBuilt(es, queries[i], bs[i])
  }

  lemma LeafListNext(es: seq<LogEntry>, queries: seq<Query>, n: nat)
    requires n < |queries|
    ensures LeafList(es, queries[..n + 1]) == LeafList(es, queries[..n]) + Bucketful(es, queries[n])
  {
    hide Bucketful;
    assert queries[..n + 1][..n] == queries[..n];
  }

  lemma {:induction false} LeafListGrows(es: seq<LogEntry>, queries: seq<Query>, n: nat)
    requires n <= |queries|
    ensures |LeafList(es, queries[..n])| <= |LeafList(es, queries)|
  {
    hide Bucketful;
    if n == |queries| {
      assert queries[..n] == queries;
    } else {
      LeafListGrows(es, queries[..|queries| - 1], n);
      assert queries[..|queries| - 1][..n] == queries[..n];
    }
  }

  /** The leaves of the buckets built are the leaves asked for. */
  lemma {:induction false} BuiltLeaves(es: seq<LogEntry>, queries: seq<Query>, bs: seq<ServedBucket>)
    requires AllBuilt(es, queries, bs)
    ensures AllLeaves(bs) == LeafList(es, queries)
  {
    hide LeavesIn, Sub, CanonSiblings, Latest;
    if bs != [] {
      BuiltLeaves(es, queries[..|bs| - 1], bs[..|bs| - 1]);
    }
  }

  /** Each names an entry. */
  lemma {:induction false} LeafListHeld(w: World, es: seq<LogEntry>, queries: seq<Query>)
    requires Replays(w, es)
    ensures forall i :: 0 <= i < |LeafList(es, queries)| ==> 0 <= LeafList(es, queries)[i].slot.index < |es|
  {
    hide Replays, Latest, Sub;
    if queries != [] {
      LeafListHeld(w, es, queries[..|queries| - 1]);
      var q := queries[|queries| - 1];
      if |q.prefix| == DEPTH && q.bits <= DEPTH {
        var sub := Sub(DEPTH, q.prefix[..q.bits], Latest(es));
        forall i | 0 <= i < |sub|
          ensures 0 <= sub[i].slot.index < |es|
        {
          SubExact(DEPTH, q.prefix[..q.bits], Latest(es), sub[i]);
          ReplayedIndexed(w, es);
          LatestIs(es, sub[i].lbl);
        }
      }
    }
  }

  function IndicesOf(leaves: seq<Leaf>): (r: seq<int>)
    ensures |r| == |leaves| && forall i :: 0 <= i < |leaves| ==> r[i] == leaves[i].slot.index
  {
    seq(|leaves|, i requires 0 <= i < |leaves| => leaves[i].slot.index)
  }

  /** What these leaves cost to serve: their entries, and an audit path each. */
  function LeafCost(es: seq<LogEntry>, leaves: seq<Leaf>, cost: LogEntry -> nat, auditBytes: nat): nat {
    if leaves == [] then 0
    else
      var i := leaves[|leaves| - 1].slot.index;
      LeafCost(es, leaves[..|leaves| - 1], cost, auditBytes) + (if 0 <= i < |es| then cost(es[i]) else 0) + auditBytes
  }

  /** What a handle bucket costs: its records, and so much for each audit path. */
  lemma {:induction false} LeafCostIs(es: seq<LogEntry>, leaves: seq<Leaf>, cost: LogEntry -> nat, auditBytes: nat)
    requires forall i :: 0 <= i < |leaves| ==> 0 <= leaves[i].slot.index < |es|
    ensures LeafCost(es, leaves, cost, auditBytes) == Cost(es, IndicesOf(leaves), cost) + |leaves| * auditBytes
  {
    if leaves != [] {
      var n := |leaves| - 1;
      LeafCostIs(es, leaves[..n], cost, auditBytes);
      assert IndicesOf(leaves)[..n] == IndicesOf(leaves[..n]);
      assert |leaves| * auditBytes == n * auditBytes + auditBytes;
    }
  }

  function BareAll(leaves: seq<Leaf>): (r: seq<ServedLeaf>)
    ensures LeavesIn(r) == leaves
  {
    var r := seq(|leaves|, i requires 0 <= i < |leaves| => Bare(leaves[i]));
    assert |LeavesIn(r)| == |leaves| && forall i :: 0 <= i < |leaves| ==> LeavesIn(r)[i] == leaves[i];
    r
  }

  function DressAll(es: seq<LogEntry>, leaves: seq<ServedLeaf>, audits: seq<seq<Digest>>): (r: seq<ServedLeaf>)
    requires |audits| == |leaves| && forall i :: 0 <= i < |leaves| ==> 0 <= leaves[i].leaf.slot.index < |es|
    ensures |r| == |leaves|
    ensures forall i :: 0 <= i < |r| ==> r[i] == Dressed(leaves[i].leaf, es[leaves[i].leaf.slot.index], audits[i])
  {
    seq(|leaves|, i requires 0 <= i < |leaves| => Dressed(leaves[i].leaf, es[leaves[i].leaf.slot.index], audits[i]))
  }

  lemma DressedBuilt(es: seq<LogEntry>, h: HeadMsg, q: Query, b: ServedBucket, audits: seq<seq<Digest>>)
    requires BucketBuilt(es, q, b) && |audits| == |b.leaves|
    requires forall i :: 0 <= i < |b.leaves| ==> 0 <= b.leaves[i].leaf.slot.index < |es|
    requires forall i :: 0 <= i < |b.leaves| ==> Included(Handles, h, es[b.leaves[i].leaf.slot.index], audits[i])
    ensures var d := ServedBucket(b.query, DressAll(es, b.leaves, audits), b.siblings);
      BucketBuilt(es, q, d) && RecordsBuilt(es, h, d)
  {
    hide Sub, CanonSiblings, Latest, Included;
    var d := DressAll(es, b.leaves, audits);
    assert forall i :: 0 <= i < |d| ==> LeavesIn(d)[i] == LeavesIn(b.leaves)[i];
    assert LeavesIn(d) == LeavesIn(b.leaves);
  }

  /** An answer built whole passes. */
  lemma AnswerBuilt(w: World, es: seq<LogEntry>, h: HeadMsg, queries: seq<Query>, bs: seq<ServedBucket>)
    requires Replays(w, es) && Hashes(w) && h == HeadOf(w.mode, es, h.ts)
    requires AllBuilt(es, queries, bs) && |AllLeaves(bs)| <= MAX_BUCKET_LEAVES
    requires w.mode.Handles? ==> forall i :: 0 <= i < |bs| ==> RecordsBuilt(es, h, bs[i])
    ensures AnswerPasses(w.mode, h, queries, bs)
  {
    hide HeadOf, Replays, BucketPasses, BucketBuilt, RecordsBuilt, AllLeaves;
    forall i | 0 <= i < |bs|
      ensures BucketPasses(w.mode, h, queries[i], bs[i])
    {
      AllLeavesNext(bs, i);
      AllLeavesPrefix(bs, i + 1);
      BucketBuiltPasses(w, es, h, queries[i], bs[i]);
    }
  }
}
