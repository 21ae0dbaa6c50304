/**
 What a log of entries is (kt/lib/log.js), as functions of its entries: the leaves of the
 tree, the latest entry of each label, where a label's entries are, who owns it, and which
 entry the log accepts next.
 */
module LogState {
  import opened Options
  import opened Digests
  import opened SparseMap
  import opened LogTree
  import opened RecordCodec
  import Rule = OwnerRule

  datatype Mode = Kt | Handles

  /** An entry. `fp` and `acct` are the key-transparency log's; `sig` is None on a line from before signatures were kept. */
  datatype LogEntry = LogEntry(index: int, lbl: Label, version: int, fp: Bytes, valueHash: Digest, value: Bytes, acct: Bytes,
                               ts: int, sig: Option<Bytes>)

  /** What an account signs to publish. */
  datatype KtPublish = KtPublish(lbl: Label, version: int, fp: Bytes, valueHash: Digest)

  /** Which log it is, and what it calls: the owner rule's world, the label of an account, an account's signature on a publish. */
  datatype World = World(mode: Mode, rule: Rule.Env, labelFor: Bytes -> Label, accountSigned: (Bytes, KtPublish, Bytes) -> bool)

  const DEPTH: nat := Rule.LABEL_BITS
  const HOUR := 3_600_000
  const U64 := 0x1_0000_0000_0000_0000

  /** labelFor is a hash of 32 bytes. */
  ghost predicate Hashes(w: World) {
    forall a :: |w.labelFor(a)| == DEPTH
  }

  // --- The state, from the entries -----------------------------------------------------------

  function LeafHash(mode: Mode, e: LogEntry): Digest {
    if mode.Kt? then LogLeaf(KtLeaf(e.lbl, e.version, e.fp, e.valueHash, e.ts))
    else LogLeaf(HandleLeaf(e.lbl, e.version, e.valueHash, e.ts))
  }

  function Leaves(mode: Mode, es: seq<LogEntry>): (d: seq<Digest>)
    ensures |d| == |es| && forall i :: 0 <= i < |es| ==> d[i] == LeafHash(mode, es[i])
  {
    seq(|es|, i requires 0 <= i < |es| => LeafHash(mode, es[i]))
  }

  /** The map: each label's latest index and version. */
  function Latest(es: seq<LogEntry>): LabelMap {
    if es == [] then map[]
    else
      var last := es[|es| - 1];
      Latest(es[..|es| - 1])[last.lbl := Slot(last.index, last.version)]
  }

  /** byLabel: the indices of a label's entries, ascending. */
  function Positions(es: seq<LogEntry>, l: Label): (p: seq<nat>)
    ensures forall i :: 0 <= i < |p| ==> p[i] < |es|
  {
    if es == [] then []
    else
      var init := Positions(es[..|es| - 1], l);
      if es[|es| - 1].lbl == l then init + [|es| - 1] else init
  }

  predicate Indexed(es: seq<LogEntry>) {
    forall i :: 0 <= i < |es| ==> es[i].index == i
  }

  /** The positions of a label are exactly where its entries are, in order. */
  lemma {:induction false} PositionsExact(es: seq<LogEntry>, l: Label, i: nat)
    requires i < |es|
    ensures i in Positions(es, l) <==> es[i].lbl == l
    ensures forall a, b :: 0 <= a < b < |Positions(es, l)| ==> Positions(es, l)[a] < Positions(es, l)[b]
  {
    if i < |es| - 1 {
      PositionsExact(es[..|es| - 1], l, i);
    } else if |es| > 1 {
      PositionsExact(es[..|es| - 1], l, 0);
    }
  }

  /** The map names each label's last position and the version there. */
  lemma {:induction false} LatestIs(es: seq<LogEntry>, l: Label)
    requires Indexed(es)
    ensures var p := Positions(es, l);
      (l in Latest(es) <==> p != []) &&
      (p != [] ==> Latest(es)[l] == Slot(p[|p| - 1], es[p[|p| - 1]].version))
  {
    if es != [] {
      LatestIs(es[..|es| - 1], l);
    }
  }

  /** latest: a label's last entry. */
  function LatestEntry(es: seq<LogEntry>, l: Label): Option<LogEntry> {
    var p := Positions(es, l);
    if p == [] then None else Some(es[p[|p| - 1]])
  }

  // --- The owner rule on log entries -----------------------------------------------------------

  function RuleEntry(e: LogEntry): Rule.Entry {
    Rule.Entry(e.lbl, e.version, e.value, if e.sig.Some? then e.sig.value else "")
  }

  function RuleEntries(es: seq<LogEntry>): (r: seq<Rule.Entry>)
    ensures |r| == |es| && forall i :: 0 <= i < |es| ==> r[i] == RuleEntry(es[i])
  {
    seq(|es|, i requires 0 <= i < |es| => RuleEntry(es[i]))
  }

  /** Every label's state under the rule. */
  function RuleRun(w: World, es: seq<LogEntry>): Result<Rule.Owners> {
    Rule.HoldAll(w.rule, map[], RuleEntries(es))
  }

  /** A label's state under the rule; None also where the run was refused. */
  function RuleState(w: World, es: seq<LogEntry>, l: Label): Option<Rule.Owner> {
    var m := RuleRun(w, es);
    if m.Ok? then Rule.Lookup(m.value, l) else None
  }

  lemma RuleRunOne(w: World, es: seq<LogEntry>, e: LogEntry)
    requires RuleRun(w, es).Ok?
    ensures RuleRun(w, es + [e]) == Rule.Hold(w.rule, RuleRun(w, es).value, RuleEntry(e))
  {
    hide Rule.Hold;
    var r := RuleEntries(es + [e]);
    assert r[..|r| - 1] == RuleEntries(es);
  }

  // --- What is accepted -----------------------------------------------------------------------

  /** The first entry that carries a signature. */
  function FirstSigned(es: seq<LogEntry>): Option<nat> {
    if es == [] then None
    else
      var f := FirstSigned(es[..|es| - 1]);
      if f.Some? then f else if es[|es| - 1].sig.Some? then Some(|es| - 1) else None
  }

  /** _checkSignature: unsigned below the boundary and before any signed entry, or signed by the account. */
  predicate SignatureOk(w: World, es: seq<LogEntry>, boundary: Option<int>, e: LogEntry) {
    if e.sig.None? then !(boundary.Some? && e.index >= boundary.value) && FirstSigned(es).None?
    else w.accountSigned(e.acct, KtPublish(e.lbl, e.version, e.fp, e.valueHash), e.sig.value)
  }

  predicate KtAccepts(w: World, es: seq<LogEntry>, boundary: Option<int>, e: LogEntry) {
    && w.labelFor(e.acct) == e.lbl
    && SignatureOk(w, es, boundary, e)
    && (LatestEntry(es, e.lbl).Some? ==> e.version > LatestEntry(es, e.lbl).value.version)
    && 0 <= e.version < U64 && 0 <= e.ts < U64
  }

  predicate HandleAccepts(w: World, es: seq<LogEntry>, e: LogEntry) {
    && e.ts >= 0 && e.ts % HOUR == 0
    && e.sig.Some? && |e.sig.value| == 64
    && Rule.Step(w.rule, RuleState(w, es, e.lbl), RuleEntry(e)).Ok?
  }

  /** What _apply demands of an entry after `es`; u64be refuses a number outside 64 bits. */
  predicate Accepts(w: World, es: seq<LogEntry>, boundary: Option<int>, e: LogEntry) {
    && e.index == |es| && e.valueHash == ValueDigest(e.value)
    && if w.mode.Kt? then KtAccepts(w, es, boundary, e) else HandleAccepts(w, es, e)
  }

  /** A history the log replays. */
  ghost predicate Replays(w: World, es: seq<LogEntry>) {
    forall i :: 0 <= i < |es| ==> Accepts(w, es[..i], None, es[i])
  }

  lemma ReplaysOne(w: World, es: seq<LogEntry>, e: LogEntry)
    ensures Replays(w, es + [e]) <==> Replays(w, es) && Accepts(w, es, None, e)
  {
    hide Accepts;
    var all := es + [e];
    assert all[..|es|] == es && all[|es|] == e;
    forall i | 0 <= i < |es|
      ensures all[..i] == es[..i] && all[i] == es[i]
    {
    }
    if Replays(w, es) && Accepts(w, es, None, e) {
      forall i | 0 <= i < |all|
        ensures Accepts(w, all[..i], None, all[i])
      {
      }
    }
    if Replays(w, all) {
      assert Accepts(w, all[..|es|], None, all[|es|]);
      forall i | 0 <= i < |es|
        ensures Accepts(w, es[..i], None, es[i])
      {
        assert Accepts(w, all[..i], None, all[i]);
      }
    }
  }

  lemma ReplaysPrefix(w: World, es: seq<LogEntry>, n: nat)
    requires Replays(w, es) && n <= |es|
    ensures Replays(w, es[..n])
  {
    hide Accepts;
    forall i | 0 <= i < n
      ensures Accepts(w, es[..n][..i], None, es[..n][i])
    {
      assert es[..n][..i] == es[..i];
      assert Accepts(w, es[..i], None, es[i]);
    }
  }

  /** An entry the log accepts with a boundary it would replay. */
  lemma BoundaryOnlyRefuses(w: World, es: seq<LogEntry>, boundary: Option<int>, e: LogEntry)
    requires Accepts(w, es, boundary, e)
    ensures Accepts(w, es, None, e)
  {
    hide HandleAccepts;
  }

  /** A history that replays is indexed, with hashed values, labels of 256 bits, and versions and times that fit. */
  lemma ReplayedEntry(w: World, es: seq<LogEntry>, i: nat)
    requires Replays(w, es) && Hashes(w) && i < |es|
    ensures es[i].index == i && es[i].valueHash == ValueDigest(es[i].value) && |es[i].lbl| == DEPTH
    ensures es[i].version >= 0 && es[i].ts >= 0
    ensures w.mode.Handles? ==> es[i].ts % HOUR == 0 && |es[i].value| <= MAX_RECORD_BYTES
  {
    hide Rule.Step, RuleState, SignatureOk, LatestEntry;
    assert Accepts(w, es[..i], None, es[i]);
    if w.mode.Handles? {
      HeldShape(w, RuleState(w, es[..i], es[i].lbl), RuleEntry(es[i]));
    } else {
      assert |w.labelFor(es[i].acct)| == DEPTH;
    }
  }

  lemma HeldShape(w: World, prev: Option<Rule.Owner>, e: Rule.Entry)
    requires Rule.Step(w.rule, prev, e).Ok?
    ensures |e.lbl| == DEPTH && e.version >= 1 && |e.value| <= MAX_RECORD_BYTES
  {
    hide Rule.VerifyStrict, Rule.Transition, FromMembers, Stringify;
  }

  lemma ReplayedIndexed(w: World, es: seq<LogEntry>)
    requires Replays(w, es)
    ensures Indexed(es)
  {
    hide KtAccepts, HandleAccepts;
    forall i | 0 <= i < |es|
      ensures es[i].index == i
    {
      assert Accepts(w, es[..i], None, es[i]);
    }
  }

  /** Each entry of a replayed handle history fits those before it, the owner rule being said of the entries alone. */
  lemma ReplayedFits(w: World, es: seq<LogEntry>)
    requires Replays(w, es) && w.mode.Handles?
    ensures forall i :: 0 <= i < |es| ==> Rule.Fits(w.rule, RuleEntries(es)[..i], RuleEntries(es)[i])
  {
    hide Replays, Rule.Fits, Rule.HoldAll;
    ReplayedRule(w, es);
    Rule.HistoryExact(w.rule, RuleEntries(es));
  }

  /** In a handle log that replays, the rule has accepted every entry. */
  lemma {:induction false} ReplayedRule(w: World, es: seq<LogEntry>)
    requires Replays(w, es) && w.mode.Handles?
    ensures RuleRun(w, es).Ok?
  {
    hide *;
    if es == [] {
      RuleRunNone(w);
    } else {
      var n := |es| - 1;
      assert es == es[..n] + [es[n]];
      ReplaysOne(w, es[..n], es[n]);
      ReplayedRule(w, es[..n]);
      RuleHolds(w, es[..n], es[n]);
    }
  }

  lemma RuleRunNone(w: World)
    ensures RuleRun(w, []) == Ok(map[])
  {
    assert RuleEntries([]) == [];
  }

  /** Where the rule has run, accepting an entry runs it once more. */
  lemma RuleHolds(w: World, es: seq<LogEntry>, e: LogEntry)
    requires RuleRun(w, es).Ok? && Accepts(w, es, None, e) && w.mode.Handles?
    ensures RuleRun(w, es + [e]).Ok?
    ensures RuleRun(w, es + [e]).value ==
      RuleRun(w, es).value[e.lbl := Rule.Step(w.rule, RuleState(w, es, e.lbl), RuleEntry(e)).value]
  {
    hide Rule.Step, RuleRun;
    RuleRunOne(w, es, e);
  }

  /** The version the rule knows for a label is its latest entry's. */
  lemma {:induction false} RuleVersion(w: World, es: seq<LogEntry>, l: Label)
    requires RuleRun(w, es).Ok?
    ensures RuleState(w, es, l).None? <==> LatestEntry(es, l).None?
    ensures RuleState(w, es, l).Some? ==> RuleState(w, es, l).value.version == LatestEntry(es, l).value.version
  {
    hide Rule.Step;
    if es == [] {
      assert RuleEntries(es) == [];
    } else {
      var n := |es| - 1;
      var r := RuleEntries(es);
      assert r[..n] == RuleEntries(es[..n]);
      RuleVersion(w, es[..n], l);
      if es[n].lbl == l {
        StepVersion(w, RuleState(w, es[..n], l), r[n]);
      }
    }
  }

  lemma StepVersion(w: World, prev: Option<Rule.Owner>, e: Rule.Entry)
    requires Rule.Step(w.rule, prev, e).Ok?
    ensures Rule.Step(w.rule, prev, e).value.version == e.version
  {
    hide Rule.CheckEntry;
  }

  /** A signed entry is only ever followed by signed ones: the unsigned form a prefix. */
  lemma {:induction false} UnsignedPrefix(w: World, es: seq<LogEntry>, i: nat)
    requires Replays(w, es) && i < |es| && es[i].sig.None?
    ensures FirstSigned(es).None? || i < FirstSigned(es).value
    ensures w.mode.Kt?
  {
    hide KtAccepts, HandleAccepts;
    var n := |es| - 1;
    assert Accepts(w, es[..n], None, es[n]);
    if i < n {
      ReplaysPrefix(w, es, n);
      UnsignedPrefix(w, es[..n], i);
    } else {
      UnsignedAccepted(w, es[..n], es[n]);
    }
  }

  lemma UnsignedAccepted(w: World, es: seq<LogEntry>, e: LogEntry)
    requires Accepts(w, es, None, e) && e.sig.None?
    ensures w.mode.Kt? && FirstSigned(es).None?
  {
  }

  // --- What it comes to ---------------------------------------------------------------------

  /** A label's last entry: none exactly if no entry has the label, else the one after which none has. */
  lemma LatestEntryIs(es: seq<LogEntry>, l: Label)
    ensures LatestEntry(es, l).None? <==> forall i :: 0 <= i < |es| ==> es[i].lbl != l
    ensures LatestEntry(es, l).Some? ==>
      exists i :: 0 <= i < |es| && es[i] == LatestEntry(es, l).value && es[i].lbl == l && forall j :: i < j < |es| ==> es[j].lbl != l
  {
    var p := Positions(es, l);
    forall i | 0 <= i < |es|
      ensures i in p <==> es[i].lbl == l
      ensures p != [] && p[|p| - 1] < i ==> es[i].lbl != l
    {
      PositionsExact(es, l, i);
      if i in p {
        var k :| 0 <= k < |p| && p[k] == i;
      }
    }
    if p != [] {
      assert p[|p| - 1] in p;
    }
  }

  /** Each label's versions rise. */
  predicate Rising(es: seq<LogEntry>) {
    forall i, j :: 0 <= i < j < |es| && es[i].lbl == es[j].lbl ==> es[i].version < es[j].version
  }

  /** Where they do, a version that is above the label's last one is above them all. */
  lemma AboveLatest(es: seq<LogEntry>, l: Label, version: int)
    requires Rising(es)
    ensures (LatestEntry(es, l).Some? ==> version > LatestEntry(es, l).value.version) <==>
      forall i :: 0 <= i < |es| && es[i].lbl == l ==> es[i].version < version
  {
    hide LatestEntry;
    LatestEntryIs(es, l);
  }

  lemma RisingOne(es: seq<LogEntry>, e: LogEntry)
    ensures Rising(es + [e]) <==> Rising(es) && forall i :: 0 <= i < |es| && es[i].lbl == e.lbl ==> es[i].version < e.version
  {
    var all := es + [e];
    assert all[|es|] == e && forall i :: 0 <= i < |es| ==> all[i] == es[i];
    if Rising(all) {
      assert forall i, j :: 0 <= i < j < |es| && es[i].lbl == es[j].lbl ==> all[i].lbl == all[j].lbl;
    }
  }

  lemma {:induction false} ReplaysRising(w: World, es: seq<LogEntry>)
    requires Replays(w, es) && w.mode.Kt?
    ensures Rising(es)
  {
    hide Accepts, Rising;
    if es == [] {
      NothingRises();
    } else {
      var n := |es| - 1;
      ReplaysPrefix(w, es, n);
      ReplaysRising(w, es[..n]);
      assert es == es[..n] + [es[n]];
      ReplaysOne(w, es[..n], es[n]);
      RisingOne(es[..n], es[n]);
      AboveLatest(es[..n], es[n].lbl, es[n].version);
      KtAccepted(w, es[..n], es[n]);
    }
  }

  lemma NothingRises()
    ensures Rising([])
  {
  }

  lemma KtAccepted(w: World, es: seq<LogEntry>, e: LogEntry)
    requires Accepts(w, es, None, e) && w.mode.Kt?
    ensures LatestEntry(es, e.lbl).Some? ==> e.version > LatestEntry(es, e.lbl).value.version
  {
    hide SignatureOk, LatestEntry;
  }

  lemma FirstSignedIs(es: seq<LogEntry>)
    ensures FirstSigned(es).None? <==> forall i :: 0 <= i < |es| ==> es[i].sig.None?
    ensures FirstSigned(es).Some? ==>
      var f := FirstSigned(es).value;
      f < |es| && es[f].sig.Some? && forall i :: 0 <= i < f ==> es[i].sig.None?
  {
  }

  /**
   What the key-transparency log accepts next, written out: its index and its value's hash; the account whose label it is
   has signed it, or nothing was signed yet and it is below the boundary; its version is above every one of the label's.
   */
  lemma KtAcceptsExact(w: World, es: seq<LogEntry>, boundary: Option<int>, e: LogEntry)
    requires w.mode.Kt? && Replays(w, es)
    ensures Accepts(w, es, boundary, e) <==>
      && e.index == |es| && e.valueHash == ValueDigest(e.value) && w.labelFor(e.acct) == e.lbl
      && (if e.sig.Some? then w.accountSigned(e.acct, KtPublish(e.lbl, e.version, e.fp, e.valueHash), e.sig.value)
          else (boundary.Some? ==> e.index < boundary.value) && forall i :: 0 <= i < |es| ==> es[i].sig.None?)
      && (forall i :: 0 <= i < |es| && es[i].lbl == e.lbl ==> es[i].version < e.version)
      && 0 <= e.version < 0x1_0000_0000_0000_0000 && 0 <= e.ts < 0x1_0000_0000_0000_0000
  {
    hide LatestEntry, Rising, Replays, FirstSigned;
    ReplaysRising(w, es);
    AboveLatest(es, e.lbl, e.version);
    FirstSignedIs(es);
  }

  /** And what the handle log does: besides what it is given, the owner rule decides. */
  lemma HandleAcceptsExact(w: World, es: seq<LogEntry>, boundary: Option<int>, e: LogEntry)
    requires w.mode.Handles? && Replays(w, es)
    ensures Accepts(w, es, boundary, e) <==>
      && e.index == |es| && e.valueHash == ValueDigest(e.value) && e.ts >= 0 && e.ts % 3_600_000 == 0
      && e.sig.Some? && |e.sig.value| == 64
      && Rule.Fits(w.rule, RuleEntries(es), RuleEntry(e))
  {
    hide Rule.Step, Rule.Fits, Rule.After, Rule.Of, Replays;
    RuleNext(w, es, e);
    RuleFits(w, es, RuleEntry(e));
  }

  /** The table's rule on an entry is the rule said of the entries before it. */
  lemma RuleFits(w: World, es: seq<LogEntry>, e: Rule.Entry)
    requires Replays(w, es) && w.mode.Handles?
    ensures Rule.Step(w.rule, RuleState(w, es, e.lbl), e).Ok? <==> Rule.Fits(w.rule, RuleEntries(es), e)
  {
    hide Rule.Step, Rule.Fits, Rule.HoldAll, Replays;
    ReplayedRule(w, es);
    Rule.HoldFits(w.rule, RuleEntries(es), e);
  }

  /** The table's rule on an entry is the rule on its label's own history. */
  lemma RuleNext(w: World, es: seq<LogEntry>, e: LogEntry)
    requires Replays(w, es) && w.mode.Handles?
    ensures Rule.After(w.rule, Rule.Of(RuleEntries(es), e.lbl)) == Ok(RuleState(w, es, e.lbl))
    ensures Rule.Step(w.rule, RuleState(w, es, e.lbl), RuleEntry(e)).Ok? <==>
      Rule.After(w.rule, Rule.Of(RuleEntries(es + [e]), e.lbl)).Ok?
  {
    hide Rule.Step, Rule.HoldAll, Replays;
    ReplayedRule(w, es);
    Rule.HoldProjects(w.rule, RuleEntries(es), e.lbl);
    var r := RuleEntries(es + [e]);
    assert r[..|es|] == RuleEntries(es) && r[|es|] == RuleEntry(e);
    Rule.AfterOneMore(w.rule, Rule.Of(RuleEntries(es), e.lbl), RuleEntry(e));
  }

  /** Each signed entry of a log that replays was signed by the account whose label it has, over its own members. */
  lemma SignedByAccount(w: World, es: seq<LogEntry>, i: nat)
    requires w.mode.Kt? && Replays(w, es) && i < |es|
    ensures w.labelFor(es[i].acct) == es[i].lbl
    ensures es[i].sig.Some? ==>
      w.accountSigned(es[i].acct, KtPublish(es[i].lbl, es[i].version, es[i].fp, es[i].valueHash), es[i].sig.value)
  {
    hide LatestEntry, FirstSigned;
    assert Accepts(w, es[..i], None, es[i]);
  }

  /** A leaf commits to every member of its entry that it is a leaf of. */
  lemma LeafBinds(mode: Mode, e: LogEntry, f: LogEntry)
    ensures LeafHash(mode, e) == LeafHash(mode, f) <==>
      e.lbl == f.lbl && e.version == f.version && e.valueHash == f.valueHash && e.ts == f.ts && (mode.Kt? ==> e.fp == f.fp)
  {
  }

  // --- Publishing ---------------------------------------------------------------------------

  datatype Request = Request(acct: Bytes, lbl: Label, version: int, fp: Bytes, value: Bytes, sig: Bytes)

  datatype Verdict = Allowed | BadRequest | ValueTooLarge | NotSigned | NotHigher | RuleRefuses(reason: Reason)

  const FP_BYTES := 16
  const MIN_VALUE_BYTES := 28
  const MAX_VALUE_BYTES := 262144

  /** checkPublish and the version, in the key-transparency log; the label is the account's. */
  function KtVerdict(w: World, es: seq<LogEntry>, q: Request): Verdict {
    var lbl := w.labelFor(q.acct);
    if |q.acct| != 32 || q.version < 1 || q.version > Rule.MAX_VERSION || |q.fp| != FP_BYTES || |q.value| < MIN_VALUE_BYTES then BadRequest
    else if |q.value| > MAX_VALUE_BYTES then ValueTooLarge
    else if |q.sig| != 64 then BadRequest
    else if !w.accountSigned(q.acct, KtPublish(lbl, q.version, q.fp, ValueDigest(q.value)), q.sig) then NotSigned
    else
      var prev := LatestEntry(es, lbl);
      if prev.Some? && !(q.version > prev.value.version) then NotHigher else Allowed
  }

  function RuleRequest(q: Request): Rule.Entry {
    Rule.Entry(q.lbl, q.version, q.value, q.sig)
  }

  /** checkEntry and ownerRuleTransition, in the handle log. */
  function HandleVerdict(w: World, es: seq<LogEntry>, q: Request): Verdict {
    var rec := Rule.CheckEntry(w.rule, RuleRequest(q));
    if rec.Refused? then RuleRefuses(rec.reason)
    else
      var s := Rule.Transition(w.rule, RuleState(w, es, q.lbl), rec.value, q.version);
      if s.Refused? then RuleRefuses(s.reason) else Allowed
  }

  function PublishVerdict(w: World, es: seq<LogEntry>, q: Request): Verdict {
    if w.mode.Kt? then KtVerdict(w, es, q) else HandleVerdict(w, es, q)
  }

  /** The entry a request becomes: the handle log keeps the hour and no finer, and no account. */
  function EntryFor(w: World, es: seq<LogEntry>, q: Request, now: int): LogEntry {
    if w.mode.Kt? then LogEntry(|es|, w.labelFor(q.acct), q.version, q.fp, ValueDigest(q.value), q.value, q.acct, now, Some(q.sig))
    else LogEntry(|es|, q.lbl, q.version, "", ValueDigest(q.value), q.value, "", now / HOUR * HOUR, Some(q.sig))
  }

  /** A published entry: the request's own members under the next index, its value's hash, and the time, in the handle log the hour. */
  lemma EntryIs(w: World, es: seq<LogEntry>, q: Request, now: int)
    ensures var e := EntryFor(w, es, q, now);
      && e.index == |es| && e.version == q.version && e.value == q.value && e.valueHash == ValueDigest(q.value) && e.sig == Some(q.sig)
      && (w.mode.Kt? ==> e.lbl == w.labelFor(q.acct) && e.acct == q.acct && e.fp == q.fp && e.ts == now)
      && (w.mode.Handles? ==> e.lbl == q.lbl && e.acct == "" && e.fp == "" && e.ts <= now < e.ts + 3_600_000 && e.ts % 3_600_000 == 0)
  {
    WholeHour(now);
  }

  /** What the key-transparency log allows on the wire, written out, and why it refuses the rest. */
  lemma KtVerdictExact(w: World, es: seq<LogEntry>, q: Request)
    requires w.mode.Kt? && Replays(w, es)
    ensures var lbl := w.labelFor(q.acct);
      var shaped := |q.acct| == 32 && 1 <= q.version <= 9_007_199_254_740_991 && |q.fp| == 16 && |q.value| >= 28;
      var signed := w.accountSigned(q.acct, KtPublish(lbl, q.version, q.fp, ValueDigest(q.value)), q.sig);
      var above := forall i :: 0 <= i < |es| && es[i].lbl == lbl ==> es[i].version < q.version;
      && (PublishVerdict(w, es, q) == ValueTooLarge <==> shaped && |q.value| > 262_144)
      && (PublishVerdict(w, es, q) == BadRequest <==> !shaped || (|q.value| <= 262_144 && |q.sig| != 64))
      && (PublishVerdict(w, es, q) == NotSigned <==> shaped && |q.value| <= 262_144 && |q.sig| == 64 && !signed)
      && (PublishVerdict(w, es, q) == NotHigher <==> shaped && |q.value| <= 262_144 && |q.sig| == 64 && signed && !above)
      && (PublishVerdict(w, es, q) == Allowed <==> shaped && |q.value| <= 262_144 && |q.sig| == 64 && signed && above)
  {
    hide LatestEntry, Rising, Replays;
    ReplaysRising(w, es);
    AboveLatest(es, w.labelFor(q.acct), q.version);
  }

  /** In the handle log it is the owner rule's verdict on the label's own history, and for its reason. */
  lemma HandleVerdictExact(w: World, es: seq<LogEntry>, q: Request)
    requires w.mode.Handles? && Replays(w, es)
    ensures var e := Rule.Entry(q.lbl, q.version, q.value, q.sig);
      var s := Rule.After(w.rule, Rule.Of(RuleEntries(es), q.lbl));
      s.Ok? && match Rule.Step(w.rule, s.value, e)
        case Ok(_) => PublishVerdict(w, es, q) == Allowed
        case Refused(why) => PublishVerdict(w, es, q) == RuleRefuses(why)
    ensures PublishVerdict(w, es, q) == Allowed <==> Rule.Fits(w.rule, RuleEntries(es), Rule.Entry(q.lbl, q.version, q.value, q.sig))
  {
    hide Rule.CheckEntry, Rule.Transition, Rule.HoldAll, Rule.After, Rule.Of, Rule.Fits, Replays;
    ReplayedRule(w, es);
    RuleFits(w, es, Rule.Entry(q.lbl, q.version, q.value, q.sig));
    Rule.HoldProjects(w.rule, RuleEntries(es), q.lbl);
  }

  /** What the wire allows, applying it accepts: nothing is refused after it was allowed. */
  lemma AllowedAccepted(w: World, es: seq<LogEntry>, q: Request, now: int, boundary: Option<int>)
    requires PublishVerdict(w, es, q).Allowed? && 0 <= now < U64
    ensures Accepts(w, es, boundary, EntryFor(w, es, q, now))
  {
    hide Rule.Transition, RuleState, LatestEntry;
    if w.mode.Handles? {
      AllowedShape(w, es, q);
      WholeHour(now);
    }
  }

  /** In the handle log the two ask the same of a request: publish and replay run one rule. */
  lemma AllowedExact(w: World, es: seq<LogEntry>, q: Request, now: int, boundary: Option<int>)
    requires w.mode.Handles? && 0 <= now < U64
    ensures PublishVerdict(w, es, q).Allowed? <==> Accepts(w, es, boundary, EntryFor(w, es, q, now))
  {
    hide Rule.CheckEntry, Rule.Transition, RuleState;
    if PublishVerdict(w, es, q).Allowed? {
      AllowedAccepted(w, es, q, now, boundary);
    }
  }

  lemma AllowedShape(w: World, es: seq<LogEntry>, q: Request)
    requires HandleVerdict(w, es, q).Allowed?
    ensures |q.sig| == 64
  {
    hide Rule.VerifyStrict, Rule.Transition, ParseRecord, RuleState;
  }

  lemma WholeHour(now: int)
    ensures now / HOUR * HOUR % HOUR == 0 && (now >= 0 ==> now / HOUR * HOUR >= 0)
  {
  }

  // --- Heads ------------------------------------------------------------------------------

  /** What a head says, and what its signature is over. */
  datatype HeadMsg = HeadMsg(size: int, logRoot: Digest, mapRoot: Digest, ts: int)

  /** The head of these entries. */
  ghost function HeadOf(mode: Mode, es: seq<LogEntry>, ts: int): HeadMsg {
    HeadMsg(|es|, Mth(Leaves(mode, es)), Canon(DEPTH, [], Latest(es)), ts)
  }

  /** What a head says: how many entries there are, the root over their leaves, the root over each label's latest, and the time. */
  lemma HeadWritten(mode: Mode, es: seq<LogEntry>, ts: int)
    ensures var h := HeadOf(mode, es, ts);
      h.size == |es| && h.logRoot == Mth(Leaves(mode, es)) && h.mapRoot == Canon(DEPTH, [], Latest(es)) && h.ts == ts
  {
  }

  /** A head of a prefix of the history. */
  ghost predicate Describes(mode: Mode, h: HeadMsg, es: seq<LogEntry>) {
    0 <= h.size <= |es| && h == HeadOf(mode, es[..h.size], h.ts)
  }

  lemma DescribesMore(mode: Mode, h: HeadMsg, es: seq<LogEntry>, more: seq<LogEntry>)
    requires Describes(mode, h, es)
    ensures Describes(mode, h, es + more)
  {
    hide HeadOf;
    assert (es + more)[..h.size] == es[..h.size];
  }

  lemma HeadDescribes(mode: Mode, es: seq<LogEntry>, ts: int)
    ensures Describes(mode, HeadOf(mode, es, ts), es)
  {
    assert es[..|es|] == es;
  }

  /** What an entry's leaf commits to. */
  predicate SameLeaf(mode: Mode, a: LogEntry, b: LogEntry) {
    a.lbl == b.lbl && a.version == b.version && a.valueHash == b.valueHash && a.ts == b.ts && (mode.Kt? ==> a.fp == b.fp)
  }

  /** Entries that reproduce the log root of a head, at its size, are the entries it is the head of. */
  lemma HeadReproduces(mode: Mode, h: HeadMsg, hist: seq<LogEntry>, es: seq<LogEntry>)
    requires Describes(mode, h, hist) && h.size <= |es|
    requires Mth(Leaves(mode, es[..h.size])) == h.logRoot
    ensures forall i :: 0 <= i < h.size ==> SameLeaf(mode, es[i], hist[i])
  {
    hide Mth, Latest;
    var a, b := Leaves(mode, es[..h.size]), Leaves(mode, hist[..h.size]);
    MthInjective(a, b);
    forall i | 0 <= i < h.size
      ensures SameLeaf(mode, es[i], hist[i])
    {
      assert a[i] == LeafHash(mode, es[i]) && b[i] == LeafHash(mode, hist[i]);
    }
  }
}
