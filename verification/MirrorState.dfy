/**
 What a mirror accepts and what its directory holds (kt/lib/mirror.js): entries as the log
 serves them, the reader that stops at the stored head, and what the reader makes of a
 directory that a crash left.
 */
module MirrorState {
  import opened Options
  import opened Digests
  import opened SparseMap
  import opened LogTree
  import opened RecordCodec
  import opened LogState
  import opened FileStore
  import Rule = OwnerRule

  // --- Entries as they are served ------------------------------------------------------

  /** The shape and content entryFromJson and handleEntryFromJson let through. */
  predicate Shaped(mode: Mode, e: LogEntry) {
    && |e.lbl| == DEPTH && e.valueHash == ValueDigest(e.value) && e.acct == ""
    && (if mode.Kt? then |e.fp| == FP_BYTES && e.sig.None? else e.fp == "" && e.sig.Some? && |e.sig.value| == 64)
  }

  /** The public form of an entry: never the account, and the signature in the handle log only. */
  function Served(mode: Mode, e: LogEntry): LogEntry {
    if mode.Kt? then e.(acct := "", sig := None) else e.(fp := "", acct := "")
  }

  function AllServed(mode: Mode, es: seq<LogEntry>): (r: seq<LogEntry>)
    ensures |r| == |es| && forall i :: 0 <= i < |es| ==> r[i] == Served(mode, es[i])
  {
    seq(|es|, i requires 0 <= i < |es| => Served(mode, es[i]))
  }

  /** What _append refuses as the log's doing. */
  predicate Appends(mode: Mode, es: seq<LogEntry>, e: LogEntry) {
    && e.index == |es|
    && (mode.Kt? ==> var prev := LatestEntry(es, e.lbl); prev.Some? ==> e.version > prev.value.version)
    && (mode.Handles? ==> e.ts >= 0 && e.ts % HOUR == 0)
  }

  /** What u64be can write. */
  predicate Encodes(e: LogEntry) {
    0 <= e.version < U64 && 0 <= e.ts < U64
  }

  /** A sequence the mirror appends, entry by entry. */
  ghost predicate Follows(mode: Mode, es: seq<LogEntry>) {
    forall i :: 0 <= i < |es| ==> Appends(mode, es[..i], es[i]) && Encodes(es[i]) && Shaped(mode, es[i])
  }

  /** And, in the handle log, the owner rule accepts. */
  ghost predicate Holds(w: World, es: seq<LogEntry>) {
    Follows(w.mode, es) && (w.mode.Handles? ==> RuleRun(w, es).Ok?)
  }

  lemma FollowsOne(mode: Mode, es: seq<LogEntry>, e: LogEntry)
    ensures Follows(mode, es + [e]) <==> Follows(mode, es) && Appends(mode, es, e) && Encodes(e) && Shaped(mode, e)
  {
    hide Appends, Encodes, Shaped;
    var all := es + [e];
    assert all[..|es|] == es && all[|es|] == e;
    forall i | 0 <= i < |es|
      ensures all[..i] == es[..i] && all[i] == es[i]
    {
    }
    if Follows(mode, all) {
      assert Appends(mode, all[..|es|], all[|es|]);
      forall i | 0 <= i < |es|
        ensures Appends(mode, es[..i], es[i]) && Encodes(es[i]) && Shaped(mode, es[i])
      {
        assert Appends(mode, all[..i], all[i]);
      }
    }
  }

  lemma FollowsPrefix(mode: Mode, es: seq<LogEntry>, n: nat)
    requires Follows(mode, es) && n <= |es|
    ensures Follows(mode, es[..n])
  {
    hide Appends, Encodes, Shaped;
    forall i | 0 <= i < n
      ensures Appends(mode, es[..n][..i], es[..n][i]) && Encodes(es[..n][i]) && Shaped(mode, es[..n][i])
    {
      assert es[..n][..i] == es[..i];
      assert Appends(mode, es[..i], es[i]);
    }
  }

  // --- What it comes to ---------------------------------------------------------------------

  lemma {:induction false} FollowsRising(es: seq<LogEntry>)
    requires Follows(Kt, es)
    ensures Rising(es)
  {
    hide Appends, Encodes, Shaped, Rising;
    if es == [] {
      NothingRises();
    } else {
      var n := |es| - 1;
      FollowsPrefix(Kt, es, n);
      FollowsRising(es[..n]);
      assert es == es[..n] + [es[n]];
      FollowsOne(Kt, es[..n], es[n]);
      RisingOne(es[..n], es[n]);
      AboveLatest(es[..n], es[n].lbl, es[n].version);
      AppendsAbove(es[..n], es[n]);
    }
  }

  lemma AppendsAbove(es: seq<LogEntry>, e: LogEntry)
    ensures Appends(Kt, es, e) <==>
      e.index == |es| && (LatestEntry(es, e.lbl).Some? ==> e.version > LatestEntry(es, e.lbl).value.version)
  {
    hide LatestEntry;
  }

  /** What a mirror appends to the entries it holds: the next index; a version above all of the label's; in the handle log, a whole hour. */
  lemma AppendsExact(mode: Mode, es: seq<LogEntry>, e: LogEntry)
    requires Follows(mode, es)
    ensures Appends(mode, es, e) <==>
      && e.index == |es|
      && (mode == Kt ==> forall i :: 0 <= i < |es| && es[i].lbl == e.lbl ==> es[i].version < e.version)
      && (mode == Handles ==> e.ts >= 0 && e.ts % 3_600_000 == 0)
  {
    hide LatestEntry, Rising, Follows;
    if mode == Kt {
      FollowsRising(es);
      AboveLatest(es, e.lbl, e.version);
    }
  }

  /** A sequence it appends whole, entry by entry and two by two. */
  lemma {:induction false} FollowsExact(mode: Mode, es: seq<LogEntry>)
    ensures Follows(mode, es) <==>
      && (forall i :: 0 <= i < |es| ==>
        && es[i].index == i && es[i].valueHash == ValueDigest(es[i].value) && |es[i].lbl| == 256 && es[i].acct == ""
        && 0 <= es[i].version < 0x1_0000_0000_0000_0000 && 0 <= es[i].ts < 0x1_0000_0000_0000_0000
        && (if mode == Kt then |es[i].fp| == 16 && es[i].sig.None?
            else es[i].fp == "" && es[i].sig.Some? && |es[i].sig.value| == 64 && es[i].ts % 3_600_000 == 0))
      && (mode == Kt ==> forall i, j :: 0 <= i < j < |es| && es[i].lbl == es[j].lbl ==> es[i].version < es[j].version)
  {
    hide Follows, Appends;
    if es == [] {
      NothingFollows(mode);
    } else {
      var n := |es| - 1;
      assert es == es[..n] + [es[n]];
      FollowsOne(mode, es[..n], es[n]);
      FollowsExact(mode, es[..n]);
      if Follows(mode, es[..n]) {
        AppendsExact(mode, es[..n], es[n]);
      }
    }
  }

  lemma NothingFollows(mode: Mode)
    ensures Follows(mode, [])
  {
  }

  /** What a mirror holds: a sequence it appends, in which, in the handle log, each label's own history keeps the owner rule. */
  lemma HoldsExact(w: World, es: seq<LogEntry>)
    ensures Holds(w, es) <==>
      Follows(w.mode, es) && (w.mode.Handles? ==> forall l :: Rule.After(w.rule, Rule.Of(RuleEntries(es), l)).Ok?)
  {
    hide Follows, Rule.HoldAll, Rule.After, Rule.Of;
    Rule.HoldExact(w.rule, RuleEntries(es));
  }

  /** The public form keeps every member but the account and, by log, the signature or the fingerprint. */
  lemma ServedIs(mode: Mode, e: LogEntry)
    ensures var s := Served(mode, e);
      && s.index == e.index && s.lbl == e.lbl && s.version == e.version && s.valueHash == e.valueHash && s.value == e.value
      && s.ts == e.ts && s.acct == ""
      && (if mode == Kt then s.fp == e.fp && s.sig == None else s.fp == "" && s.sig == e.sig)
  {
  }

  // --- The owner rule over a split history -----------------------------------------------

  /** Running the rule on a history is running it on its start, and then on the rest. */
  lemma {:induction false} HoldSplit(env: Rule.Env, a: seq<Rule.Entry>, b: seq<Rule.Entry>)
    requires Rule.HoldAll(env, map[], a).Ok?
    ensures Rule.HoldAll(env, map[], a + b) == Rule.HoldAll(env, Rule.HoldAll(env, map[], a).value, b)
  {
    hide Rule.Hold;
    if b == [] {
      assert a + b == a;
    } else {
      var all := a + b;
      assert all[..|all| - 1] == a + b[..|b| - 1];
      HoldSplit(env, a, b[..|b| - 1]);
    }
  }

  lemma RuleSplit(w: World, a: seq<LogEntry>, b: seq<LogEntry>)
    requires RuleRun(w, a).Ok?
    ensures RuleRun(w, a + b) == Rule.HoldAll(w.rule, RuleRun(w, a).value, RuleEntries(b))
  {
    hide Rule.HoldAll;
    RuleEntriesSplit(a, b);
    HoldSplit(w.rule, RuleEntries(a), RuleEntries(b));
  }

  lemma RuleEntriesSplit(a: seq<LogEntry>, b: seq<LogEntry>)
    ensures RuleEntries(a + b) == RuleEntries(a) + RuleEntries(b)
  {
    hide RuleEntry;
  }

  lemma {:induction false} RulePrefix(w: World, es: seq<LogEntry>, n: nat)
    requires RuleRun(w, es).Ok? && n <= |es|
    ensures RuleRun(w, es[..n]).Ok?
  {
    hide Rule.Hold;
    if n == |es| {
      assert es[..n] == es;
    } else {
      var r := RuleEntries(es);
      assert r[..|r| - 1] == RuleEntries(es[..|es| - 1]);
      RulePrefix(w, es[..|es| - 1], n);
      assert es[..|es| - 1][..n] == es[..n];
    }
  }

  /** The overlay over the mirror's own table, after the entries a sync has read. */
  function Overlaid(w: World, own: Rule.Owners, es: seq<LogEntry>): Result<Rule.Owners> {
    Rule.OverlayAll(w.rule, own, RuleEntries(es))
  }

  lemma OverlaidOne(w: World, own: Rule.Owners, es: seq<LogEntry>, e: LogEntry)
    requires Overlaid(w, own, es).Ok?
    ensures Overlaid(w, own, es + [e]) == Rule.Overlay(w.rule, own, Overlaid(w, own, es).value, RuleEntry(e))
  {
    hide Rule.Overlay;
    var r := RuleEntries(es + [e]);
    assert r[..|r| - 1] == RuleEntries(es);
  }

  lemma OverlaidPrefix(w: World, own: Rule.Owners, es: seq<LogEntry>, e: LogEntry)
    requires Overlaid(w, own, es).Refused?
    ensures Overlaid(w, own, es + [e]).Refused?
  {
    hide Rule.Overlay;
    var r := RuleEntries(es + [e]);
    assert r[..|r| - 1] == RuleEntries(es);
  }

  lemma NothingOverlaid(w: World, own: Rule.Owners)
    ensures Overlaid(w, own, []) == Ok(map[])
  {
    assert RuleEntries([]) == [];
  }

  /** The overlay accepts what the log would: it is the rule run on. */
  lemma OverlaidAgrees(w: World, held: seq<LogEntry>, es: seq<LogEntry>)
    requires RuleRun(w, held).Ok?
    ensures Overlaid(w, RuleRun(w, held).value, es).Ok? <==> RuleRun(w, held + es).Ok?
    ensures RuleRun(w, held + es).Ok? ==>
      RuleRun(w, held + es).value == RuleRun(w, held).value + Overlaid(w, RuleRun(w, held).value, es).value
  {
    hide Rule.HoldAll, Rule.OverlayAll;
    RuleSplit(w, held, es);
    Rule.OverlayAgrees(w.rule, RuleRun(w, held).value, RuleEntries(es));
  }

  // --- An honest log ---------------------------------------------------------------------

  /** What an honest log serves, a mirror holds: its leaves, its heads, its rule are the log's own. */
  lemma ServedHolds(w: World, es: seq<LogEntry>)
    requires Replays(w, es) && Hashes(w)
    requires forall i :: 0 <= i < |es| && w.mode.Kt? ==> |es[i].fp| == FP_BYTES
    requires forall i :: 0 <= i < |es| ==> es[i].ts < U64
    ensures Holds(w, AllServed(w.mode, es))
    ensures Leaves(w.mode, AllServed(w.mode, es)) == Leaves(w.mode, es)
  {
    hide Replays, Leaves, RuleRun, Accepts, Appends, Shaped, Encodes, Served;
    var s := AllServed(w.mode, es);
    forall i | 0 <= i < |s|
      ensures Appends(w.mode, s[..i], s[i]) && Encodes(s[i]) && Shaped(w.mode, s[i])
    {
      ServedEntry(w, es, i);
    }
    ServedLeaves(w.mode, es);
    if w.mode.Handles? {
      ReplayedRule(w, es);
      ServedRule(w, es);
    }
  }

  lemma ServedLeaves(mode: Mode, es: seq<LogEntry>)
    ensures Leaves(mode, AllServed(mode, es)) == Leaves(mode, es)
  {
  }

  lemma {:induction false} ServedLatest(mode: Mode, es: seq<LogEntry>)
    ensures Latest(AllServed(mode, es)) == Latest(es)
  {
    if es != [] {
      var s := AllServed(mode, es);
      assert s[..|s| - 1] == AllServed(mode, es[..|es| - 1]);
      ServedLatest(mode, es[..|es| - 1]);
    }
  }

  /** A head of the log's history is a head of that history as it is served. */
  lemma ServedDescribes(mode: Mode, h: HeadMsg, es: seq<LogEntry>)
    requires Describes(mode, h, es)
    ensures Describes(mode, h, AllServed(mode, es))
  {
    hide Mth, Leaves, Latest, Canon, Served;
    assert AllServed(mode, es)[..h.size] == AllServed(mode, es[..h.size]);
    ServedLeaves(mode, es[..h.size]);
    ServedLatest(mode, es[..h.size]);
  }

  lemma ServedRule(w: World, es: seq<LogEntry>)
    requires w.mode.Handles?
    ensures RuleRun(w, AllServed(w.mode, es)) == RuleRun(w, es)
  {
    hide Rule.HoldAll;
    assert RuleEntries(AllServed(w.mode, es)) == RuleEntries(es);
  }

  lemma {:induction false} ServedPositions(mode: Mode, es: seq<LogEntry>, l: Label)
    ensures Positions(AllServed(mode, es), l) == Positions(es, l)
  {
    if es != [] {
      var s := AllServed(mode, es);
      assert s[..|s| - 1] == AllServed(mode, es[..|es| - 1]);
      ServedPositions(mode, es[..|es| - 1], l);
    }
  }

  lemma ServedEntry(w: World, es: seq<LogEntry>, i: nat)
    requires Replays(w, es) && Hashes(w) && i < |es| && (w.mode.Kt? ==> |es[i].fp| == FP_BYTES) && es[i].ts < U64
    ensures var s := AllServed(w.mode, es);
      Appends(w.mode, s[..i], s[i]) && Encodes(s[i]) && Shaped(w.mode, s[i])
  {
    hide Replays, Positions, RuleState, SignatureOk, Rule.Step;
    var s := AllServed(w.mode, es);
    assert s[..i] == AllServed(w.mode, es[..i]);
    ServedPositions(w.mode, es[..i], es[i].lbl);
    ReplayedEntry(w, es, i);
    ReplayedAt(w, es, i);
  }

  lemma ReplayedAt(w: World, es: seq<LogEntry>, i: nat)
    requires Replays(w, es) && i < |es|
    ensures es[i].version < U64
    ensures w.mode.Kt? ==> var prev := LatestEntry(es[..i], es[i].lbl); prev.Some? ==> es[i].version > prev.value.version
    ensures w.mode.Handles? ==> es[i].sig.Some? && |es[i].sig.value| == 64
  {
    hide RuleState, SignatureOk, LatestEntry, Rule.Step;
    assert Accepts(w, es[..i], None, es[i]);
    if w.mode.Handles? {
      HeldVersion(w, RuleState(w, es[..i], es[i].lbl), RuleEntry(es[i]));
    }
  }

  lemma HeldVersion(w: World, prev: Option<Rule.Owner>, e: Rule.Entry)
    requires Rule.Step(w.rule, prev, e).Ok?
    ensures e.version <= Rule.MAX_VERSION
  {
    hide Rule.VerifyStrict, Rule.Transition, ParseRecord;
  }

  // --- The reader ----------------------------------------------------------------------------

  /** What load reads: as many entries as the head covers, and how many bytes their lines took. */
  datatype Loading = Loading(got: seq<LogEntry>, at: nat) | BadLine

  /** The lines from `off` on, blank ones skipped, until `want` entries are read or the newlines end. */
  function Upto(file: Bytes, off: nat, want: nat, parse: Bytes -> Option<LogEntry>): (r: Loading)
    requires off <= |file|
    ensures r.Loading? ==> off <= r.at <= |file| && |r.got| <= want
    decreases |file| - off
  {
    var nl := Newline(file, off);
    if want == 0 || nl == |file| then Loading([], off)
    else if nl == off then Upto(file, off + 1, want, parse)
    else
      var e := parse(file[off..nl]);
      if e.None? then BadLine else Prepend(e.value, Upto(file, nl + 1, want - 1, parse))
  }

  function Prepend(e: LogEntry, r: Loading): Loading {
    if r.BadLine? then BadLine else Loading([e] + r.got, r.at)
  }

  function AfterGot(got: seq<LogEntry>, r: Loading): Loading {
    if r.BadLine? then BadLine else Loading(got + r.got, r.at)
  }

  lemma AfterPrepend(got: seq<LogEntry>, e: LogEntry, r: Loading)
    ensures AfterGot(got, Prepend(e, r)) == AfterGot(got + [e], r)
  {
    if r.Loading? {
      assert got + ([e] + r.got) == got + [e] + r.got;
    }
  }

  /** A directory's clean part read under its head: exactly its entries, whatever follows them. */
  lemma {:induction false} UptoClean(clean: Bytes, surplus: Bytes, off: nat, line: nat, parse: Bytes -> Option<LogEntry>)
    requires off <= |clean| && Plain(clean, off, line, parse).end == Done
    ensures var got := Plain(clean, off, line, parse).got;
      Upto(clean + surplus, off, |got|, parse) == Loading(EntriesOf(got), |clean|)
    decreases |clean| - off
  {
    hide Plain, Newline;
    WholeSteps(clean, off, line, parse);
    var got := Plain(clean, off, line, parse).got;
    if off < |clean| {
      var nl := Newline(clean, off);
      NewlineIs(clean + surplus, off, nl);
      assert (clean + surplus)[off..nl] == clean[off..nl];
      UptoClean(clean, surplus, nl + 1, line + 1, parse);
      var rest := Plain(clean, nl + 1, line + 1, parse).got;
      assert EntriesOf(got) == [got[0].entry] + EntriesOf(rest);
    }
  }
}
