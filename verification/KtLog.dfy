/**
 The log (kt/lib/log.js): its entries, the two trees, the index of labels, the owner table and
 the head it signs, kept in step; the entries file and the head file it survives on.
 A signature is a term: it names what it is over.
 */
module KtLogs {
  import opened Options
  import opened Digests
  import opened SparseMap
  import opened CompactMap
  import opened LogTree
  import opened LogVerify
  import opened PowerTest
  import opened MerkleLogs
  import opened RecordCodec
  import opened LogState
  import opened Answers
  import opened FileStore
  import Rule = OwnerRule

  /** JSON.stringify and JSON.parse of an entry's line. */
  datatype Codec = Codec(line: LogEntry -> Bytes, parse: Bytes -> Option<LogEntry>)

  /** A handle log's line has no fingerprint and no account. */
  predicate Storable(mode: Mode, e: LogEntry) {
    mode.Handles? ==> e.fp == "" && e.acct == ""
  }

  ghost predicate Faithful(mode: Mode, c: Codec) {
    forall e :: Storable(mode, e) ==> GoodLine(c.line(e)) && c.parse(c.line(e)) == Some(e)
  }

  // --- The files ------------------------------------------------------------------------

  /** The file reads to its end. */
  ghost predicate Whole(c: Codec, data: Bytes) {
    Plain(data, 0, 0, c.parse).end == Done
  }

  /** The entries its lines are. */
  ghost function Lines(c: Codec, data: Bytes): seq<LogEntry> {
    EntriesOf(Plain(data, 0, 0, c.parse).got)
  }

  lemma LineAdded(mode: Mode, c: Codec, data: Bytes, e: LogEntry)
    requires Faithful(mode, c) && Storable(mode, e) && Whole(c, data)
    ensures Whole(c, data + Line(c.line(e))) && Lines(c, data + Line(c.line(e))) == Lines(c, data) + [e]
  {
    hide Plain, Line, GoodLine;
    AppendAddsOne(data, c.line(e), c.parse);
  }

  lemma LineAt(c: Codec, data: Bytes, i: nat)
    requires var got := Plain(data, 0, 0, c.parse).got; i < |got| && Indexes(data, got[i], c.parse)
    ensures var s := Plain(data, 0, 0, c.parse).got[i];
      s.off + s.len <= |data| && i < |Lines(c, data)| && c.parse(Slice(data, s.off, s.len)) == Some(Lines(c, data)[i])
  {
  }

  /** The range stays the entry's whatever is written after it. */
  lemma LineStays(mode: Mode, c: Codec, data: Bytes, e: LogEntry, i: nat)
    requires Faithful(mode, c) && Storable(mode, e) && Whole(c, data) && i < |Plain(data, 0, 0, c.parse).got|
    ensures var got := Plain(data + Line(c.line(e)), 0, 0, c.parse).got;
      i < |got| && got[i] == Plain(data, 0, 0, c.parse).got[i] &&
      got[|got| - 1] == Stored(e, |data|, |c.line(e)|)
  {
    hide Plain, Line, GoodLine;
    AppendAddsOne(data, c.line(e), c.parse);
  }

  datatype Signature = OnHead(head: HeadMsg) | OnBoundary(from: int) | Other

  datatype Boundary = Boundary(from: int, sig: Signature)

  /** The head file: a head, its signature, and the boundary below which an entry may be unsigned. */
  datatype Recorded = Recorded(msg: HeadMsg, sig: Signature, boundary: Option<Boundary>)

  /** What stands beside the entries file: the head file, and every head the log's key has signed so far. */
  datatype Outside = Outside(head: Option<Recorded>, signed: set<HeadMsg>)

  type LogDir = Directory<Outside>

  /** No signature of the key but on what it signed. */
  ghost predicate Genuine(o: Outside) {
    o.head.Some? && o.head.value.sig == OnHead(o.head.value.msg) ==> o.head.value.msg in o.signed
  }

  /** Every head ever signed is the head of a prefix of this one history. */
  ghost predicate NoFork(mode: Mode, signed: set<HeadMsg>, hist: seq<LogEntry>) {
    forall h :: h in signed ==> Describes(mode, h, hist)
  }

  /**
   Where the log takes its signed entries to start: at the first one, or, where there is none yet
   and a signed one could not be written, at the next.
   */
  ghost predicate MarkOk(es: seq<LogEntry>, from: Option<nat>) {
    from == FirstSigned(es) || (FirstSigned(es).None? && from == Some(|es|))
  }

  lemma MarkIs(es: seq<LogEntry>, from: Option<nat>)
    ensures MarkOk(es, from) <==> from == FirstSigned(es) || (FirstSigned(es).None? && from == Some(|es|))
  {
  }

  /** An entry without a signature is below the boundary. */
  ghost predicate UnsignedBelow(es: seq<LogEntry>, boundary: int) {
    forall i :: 0 <= i < |es| && es[i].sig.None? ==> i < boundary
  }

  /** What the head file holds, the log having written it. */
  ghost predicate OwnHead(head: Option<Recorded>, signed: set<HeadMsg>, hist: seq<LogEntry>) {
    head.Some? ==>
      && head.value.sig == OnHead(head.value.msg) && head.value.msg in signed
      && (head.value.boundary.Some? ==>
        head.value.boundary.value.sig == OnBoundary(head.value.boundary.value.from) &&
        UnsignedBelow(hist, head.value.boundary.value.from))
  }

  /** The log's own disk, whatever stopped it: the whole history, and a head and signatures that are of it. */
  ghost predicate Own(w: World, c: Codec, data: Bytes, head: Option<Recorded>, signed: set<HeadMsg>, hist: seq<LogEntry>) {
    && Whole(c, data) && Lines(c, data) == hist && Replays(w, hist)
    && NoFork(w.mode, signed, hist) && OwnHead(head, signed, hist)
  }

  ghost predicate OwnAt(w: World, c: Codec, s: Snapshot<Outside>, hist: seq<LogEntry>) {
    Own(w, c, s.data, s.head.head, s.head.signed, hist)
  }

  /** The disk of this history, or one that a repair makes so: a torn last line is not read, and is all that is cut off. */
  ghost predicate Survives(w: World, c: Codec, s: Snapshot<Outside>, hist: seq<LogEntry>) {
    OwnAt(w, c, s, hist) || (!Whole(c, s.data) && OwnAt(w, c, Snapshot(s.data[..Complete(s.data)], s.head), hist))
  }

  /** Of two heads that are of one history the one of fewer entries has the root of the other's first; of as many, they have the same roots. */
  lemma NoForkMeans(mode: Mode, signed: set<HeadMsg>, hist: seq<LogEntry>, a: HeadMsg, b: HeadMsg)
    requires NoFork(mode, signed, hist) && a in signed && b in signed && a.size <= b.size
    ensures 0 <= a.size <= b.size <= |hist|
    ensures a.logRoot == Mth(Leaves(mode, hist)[..a.size]) && b.logRoot == Mth(Leaves(mode, hist)[..b.size])
    ensures a.mapRoot == Canon(DEPTH, [], Latest(hist[..a.size]))
    ensures a.size == b.size ==> a.logRoot == b.logRoot && a.mapRoot == b.mapRoot
  {
    hide Mth, Canon, Latest, Leaves;
    assert Describes(mode, a, hist) && Describes(mode, b, hist);
    LeavesPrefix(mode, hist, a.size);
    LeavesPrefix(mode, hist, b.size);
  }

  /** Every state since the first ones is the disk of this history. */
  ghost predicate AllOwn(w: World, c: Codec, before: seq<Snapshot<Outside>>, after: seq<Snapshot<Outside>>, hist: seq<LogEntry>) {
    before <= after && forall i :: |before| <= i < |after| ==> OwnAt(w, c, after[i], hist)
  }

  /** Every state since the first ones survives, with the one history or the other. */
  ghost predicate AllSurvive(w: World, c: Codec, before: seq<Snapshot<Outside>>, after: seq<Snapshot<Outside>>,
                             hist: seq<LogEntry>, hist': seq<LogEntry>) {
    before <= after && forall i :: |before| <= i < |after| ==> Survives(w, c, after[i], hist) || Survives(w, c, after[i], hist')
  }

  /** In every state since the first ones, these heads are among the signed. */
  ghost predicate KeepsSigned(before: seq<Snapshot<Outside>>, after: seq<Snapshot<Outside>>, signed: set<HeadMsg>) {
    before <= after && forall i :: |before| <= i < |after| ==> signed <= after[i].head.signed
  }

  lemma KeepsNone(states: seq<Snapshot<Outside>>, signed: set<HeadMsg>)
    ensures KeepsSigned(states, states, signed)
  {
  }

  lemma KeepsMore(before: seq<Snapshot<Outside>>, after: seq<Snapshot<Outside>>, s: Snapshot<Outside>, signed: set<HeadMsg>)
    requires KeepsSigned(before, after, signed) && signed <= s.head.signed
    ensures KeepsSigned(before, after + [s], signed)
  {
  }

  lemma KeepsAppend(before: seq<Snapshot<Outside>>, after: seq<Snapshot<Outside>>, was: Snapshot<Outside>, bytes: Bytes)
    requires AllSpooling(before, after, was, bytes)
    ensures KeepsSigned(before, after, was.head.signed)
  {
    forall i | |before| <= i < |after|
      ensures was.head.signed <= after[i].head.signed
    {
      assert Spooling(was, bytes, after[i]);
    }
  }

  lemma KeepsThen(before: seq<Snapshot<Outside>>, middle: seq<Snapshot<Outside>>, after: seq<Snapshot<Outside>>, signed: set<HeadMsg>)
    requires KeepsSigned(before, middle, signed) && KeepsSigned(middle, after, signed)
    ensures KeepsSigned(before, after, signed)
  {
    forall i | |before| <= i < |after|
      ensures signed <= after[i].head.signed
    {
      assert i < |middle| ==> after[i] == middle[i];
    }
  }

  lemma AllOwnNone(w: World, c: Codec, states: seq<Snapshot<Outside>>, hist: seq<LogEntry>)
    ensures AllOwn(w, c, states, states, hist)
  {
  }

  lemma AllOwnMore(w: World, c: Codec, before: seq<Snapshot<Outside>>, after: seq<Snapshot<Outside>>, s: Snapshot<Outside>,
                   hist: seq<LogEntry>)
    requires AllOwn(w, c, before, after, hist) && OwnAt(w, c, s, hist)
    ensures AllOwn(w, c, before, after + [s], hist)
  {
    hide OwnAt;
  }

  lemma SurviveNone(w: World, c: Codec, states: seq<Snapshot<Outside>>, hist: seq<LogEntry>, hist': seq<LogEntry>)
    ensures AllSurvive(w, c, states, states, hist, hist')
  {
  }

  /** What an append passes through survives, whatever is written of the line. */
  lemma AppendSurvives(w: World, c: Codec, before: seq<Snapshot<Outside>>, after: seq<Snapshot<Outside>>, was: Snapshot<Outside>,
                       hist: seq<LogEntry>, e: LogEntry)
    requires OwnAt(w, c, was, hist) && Faithful(w.mode, c) && Storable(w.mode, e) && Accepts(w, hist, None, e) && e.sig.Some?
    requires AllSpooling(before, after, was, Line(c.line(e)))
    ensures AllSurvive(w, c, before, after, hist, hist + [e])
  {
    hide Own, Faithful, Accepts, Storable, Line, Whole;
    forall i | |before| <= i < |after|
      ensures Survives(w, c, after[i], hist) || Survives(w, c, after[i], hist + [e])
    {
      assert Spooling(was, Line(c.line(e)), after[i]);
      TornHere(was.data, c.line(e), after[i].data);
      CrashInWrite(w, c, was.data, was.head.head, was.head.signed, hist, e, after[i].data);
    }
  }

  /** Then the states of a head written for the new history. */
  lemma SurviveThenOwn(w: World, c: Codec, before: seq<Snapshot<Outside>>, middle: seq<Snapshot<Outside>>,
                       after: seq<Snapshot<Outside>>, hist: seq<LogEntry>, hist': seq<LogEntry>)
    requires AllSurvive(w, c, before, middle, hist, hist') && AllOwn(w, c, middle, after, hist')
    ensures AllSurvive(w, c, before, after, hist, hist')
  {
    hide OwnAt;
    forall i | |before| <= i < |after|
      ensures Survives(w, c, after[i], hist) || Survives(w, c, after[i], hist')
    {
      if i < |middle| {
        assert after[i] == middle[i];
      } else {
        assert OwnAt(w, c, after[i], hist');
      }
    }
  }

  /** All that was signed is of these entries, and so is the head file, with the boundary in hand. */
  ghost predicate HeadsFine(mode: Mode, o: Outside, es: seq<LogEntry>, boundary: Option<int>) {
    && NoFork(mode, o.signed, es) && OwnHead(o.head, o.signed, es)
    && (boundary.Some? ==> UnsignedBelow(es, boundary.value))
    && (o.head.Some? && o.head.value.boundary.Some? ==> boundary == Some(o.head.value.boundary.value.from))
  }

  lemma FineSigned(mode: Mode, o: Outside, es: seq<LogEntry>, boundary: Option<int>, h: HeadMsg)
    requires h == HeadOf(mode, es, h.ts)
    ensures HeadsFine(mode, o, es, boundary) ==> HeadsFine(mode, Outside(o.head, o.signed + {h}), es, boundary)
  {
    hide HeadOf, Describes, UnsignedBelow;
    if HeadsFine(mode, o, es, boundary) {
      NoForkSigned(mode, o.signed, es, h.ts);
    }
  }

  lemma FineBoundary(w: World, o: Outside, es: seq<LogEntry>)
    requires Replays(w, es)
    ensures HeadsFine(w.mode, o, es, None) ==> HeadsFine(w.mode, o, es, Some(BoundaryOf(es)))
  {
    hide Describes, Replays, BoundaryOf;
    BoundaryHolds(w, es);
  }

  lemma FineWritten(mode: Mode, o: Outside, es: seq<LogEntry>, boundary: int, h: HeadMsg)
    requires h in o.signed
    ensures HeadsFine(mode, o, es, Some(boundary)) ==> HeadsFine(mode, Outside(Some(RecordedOf(h, boundary)), o.signed), es, Some(boundary))
  {
    hide Describes, UnsignedBelow;
  }

  lemma FineMore(mode: Mode, o: Outside, es: seq<LogEntry>, boundary: Option<int>, e: LogEntry)
    requires HeadsFine(mode, o, es, boundary) && e.sig.Some?
    ensures HeadsFine(mode, o, es + [e], boundary)
  {
    hide Describes;
    NoForkMore(mode, o.signed, es, [e]);
  }

  /** Nothing was done to the directory but that a head may have been signed. */
  ghost predicate OnlySigned(before: seq<Snapshot<Outside>>, after: seq<Snapshot<Outside>>, was: Snapshot<Outside>, now: Snapshot<Outside>) {
    && now.data == was.data && now.head.head == was.head.head && was.head.signed <= now.head.signed
    && (after == before || after == before + [now])
  }

  lemma SignedOnly(after: seq<Snapshot<Outside>>, was: Snapshot<Outside>, now: Snapshot<Outside>, h: HeadMsg)
    requires now == Snapshot(was.data, Outside(was.head.head, was.head.signed + {h}))
    ensures OnlySigned(after, after, was, now)
    ensures after != [] && after[|after| - 1] == now ==> OnlySigned(after[..|after| - 1], after, was, now)
  {
    assert after != [] ==> after == after[..|after| - 1] + [after[|after| - 1]];
  }

  /** Another entry forks nothing. */
  lemma NoForkMore(mode: Mode, signed: set<HeadMsg>, hist: seq<LogEntry>, more: seq<LogEntry>)
    requires NoFork(mode, signed, hist)
    ensures NoFork(mode, signed, hist + more)
  {
    hide Describes;
    forall h | h in signed
      ensures Describes(mode, h, hist + more)
    {
      DescribesMore(mode, h, hist, more);
    }
  }

  /** Signing the head of the whole history forks nothing. */
  lemma NoForkSigned(mode: Mode, signed: set<HeadMsg>, hist: seq<LogEntry>, ts: int)
    requires NoFork(mode, signed, hist)
    ensures NoFork(mode, signed + {HeadOf(mode, hist, ts)}, hist)
  {
    hide Describes, HeadOf;
    HeadDescribes(mode, hist, ts);
  }

  // --- What a new entry changes -----------------------------------------------------------

  lemma OneMoreLeaf(mode: Mode, es: seq<LogEntry>, e: LogEntry)
    ensures Leaves(mode, es + [e]) == Leaves(mode, es) + [LeafHash(mode, e)]
  {
    hide LeafHash;
  }

  lemma OneMoreLatest(es: seq<LogEntry>, e: LogEntry)
    ensures Latest(es + [e]) == Latest(es)[e.lbl := Slot(e.index, e.version)]
    ensures FirstSigned(es + [e]) ==
      if FirstSigned(es).Some? then FirstSigned(es) else if e.sig.Some? then Some(|es|) else None
  {
    assert (es + [e])[..|es|] == es;
  }

  lemma OneMorePosition(es: seq<LogEntry>, e: LogEntry, l: Label)
    ensures Positions(es + [e], l) == if e.lbl == l then Positions(es, l) + [|es|] else Positions(es, l)
  {
    assert (es + [e])[..|es|] == es;
  }

  /** A label's owner and commitment, as the table keeps them; the version is the latest entry's. */
  datatype OwnerRc = OwnerRc(key: Bytes, rc: Bytes)

  ghost predicate InTable(owners: map<Label, OwnerRc>, w: World, es: seq<LogEntry>, l: Label) {
    && (l in owners <==> RuleState(w, es, l).Some?)
    && (l in owners ==> owners[l] == OwnerRc(RuleState(w, es, l).value.key, RuleState(w, es, l).value.rc))
  }

  lemma TableMore(owners: map<Label, OwnerRc>, w: World, es: seq<LogEntry>, e: LogEntry, s: Rule.Owner, l: Label)
    requires w.mode.Handles? && RuleRun(w, es).Ok? && Accepts(w, es, None, e)
    requires Rule.Step(w.rule, RuleState(w, es, e.lbl), RuleEntry(e)) == Ok(s)
    requires InTable(owners, w, es, l)
    ensures InTable(owners[e.lbl := OwnerRc(s.key, s.rc)], w, es + [e], l)
  {
    hide Rule.Step, RuleRun, Accepts;
    RuleHolds(w, es, e);
  }

  /** A request that is allowed, and whose line gets to the disk. */
  predicate Stores(w: World, c: Codec, es: seq<LogEntry>, q: Request, now: int, disk: Disk) {
    PublishVerdict(w, es, q).Allowed? && Puts(disk.writes, |c.line(EntryFor(w, es, q, now))| + 1) && !disk.fsyncFails
  }

  lemma StoredIs(w: World, c: Codec, es: seq<LogEntry>, q: Request, now: int, disk: Disk)
    ensures Stores(w, c, es, q, now, disk) <==>
      PublishVerdict(w, es, q).Allowed? && Puts(disk.writes, |c.line(EntryFor(w, es, q, now))| + 1) && !disk.fsyncFails
  {
  }

  /** NotAcknowledged: the entry is in, its head is not written down, and the sender is told of an error. */
  datatype PublishResult = Published(entry: LogEntry) | Refused(why: Verdict) | NotStored | NotAcknowledged(entry: LogEntry) | Halted

  datatype OpenResult =
    | Ready | NotReplayed | TooFew | NotAPrefix | NotOurHead | NotOurBoundary | UnsignedPastBoundary | HeadNotWritten

  datatype ApplyResult = Applied | Refusal | NotWritten | Stopped

  class KtLog {
    const w: World
    const codec: Codec
    const dir: LogDir
    const tree: MerkleLog
    const map_: SparseMerkleMap

    var entries: seq<LogEntry>
    /** Where each label's entries are. */
    var byLabel: map<Label, seq<nat>>
    /** The handle log's owner table; empty in the key-transparency log. */
    var owners: map<Label, OwnerRc>
    /** The last head signed, until an entry is added. */
    var sth: Option<HeadMsg>
    var signedFrom: Option<nat>
    var boundary: Option<int>
    var recordedTs: Option<int>

    ghost predicate TreeOk()
      reads `entries, tree, tree.memo
    {
      tree.Valid() && tree.leaves == Leaves(w.mode, entries)
    }

    ghost predicate MapOk()
      reads `entries, map_
    {
      map_.Valid() && map_.D == DEPTH && map_.values == Latest(entries)
    }

    ghost predicate ListsOk()
      reads `entries, `byLabel
    {
      forall l :: (l in byLabel <==> Positions(entries, l) != []) && (l in byLabel ==> byLabel[l] == Positions(entries, l))
    }

    ghost predicate OwnersOk()
      reads `entries, `owners
    {
      w.mode.Handles? ==> forall l :: InTable(owners, w, entries, l)
    }

    /** Entries, trees, index and table are in step, and the entries would replay. */
    ghost predicate InStep()
      reads `entries, `byLabel, `owners, `signedFrom, tree, tree.memo, map_
    {
      Replays(w, entries) && TreeOk() && MapOk() && ListsOk() && OwnersOk() && MarkOk(entries, signedFrom)
    }

    /** The file is these entries. */
    ghost predicate OnDisk()
      reads `entries, dir
    {
      Whole(codec, dir.Data()) && Lines(codec, dir.Data()) == entries
    }

    /** The cached head is of the entries there are. */
    ghost predicate CacheOk()
      reads `entries, `sth, dir
    {
      sth.Some? ==> sth.value in dir.Head().signed && sth.value == HeadOf(w.mode, entries, sth.value.ts)
    }

    /** What the log has signed, and what it has recorded, is of these entries. */
    ghost predicate HeadsOk()
      reads `entries, `boundary, dir
    {
      HeadsFine(w.mode, dir.Head(), entries, boundary)
    }

    ghost predicate Valid()
      reads this, tree, tree.memo, map_, dir
    {
      InStep() && OnDisk() && CacheOk() && HeadsOk() && Hashes(w) && Faithful(w.mode, codec)
    }

    constructor (w: World, codec: Codec, dir: LogDir)
      ensures this.w == w && this.codec == codec && this.dir == dir
      ensures fresh(tree) && fresh(tree.memo) && fresh(map_)
      ensures Empty() && recordedTs == None
    {
      this.w, this.codec, this.dir := w, codec, dir;
      tree := new MerkleLog();
      map_ := new SparseMerkleMap(DEPTH);
      entries, byLabel, owners := [], map[], map[];
      sth, signedFrom, boundary, recordedTs := None, None, None, None;
      new;
      RuleRunNone(w);
    }

    // --- Applying an entry ------------------------------------------------------------------

    /** latest. */
    method LatestOf(l: Label) returns (r: Option<LogEntry>)
      requires ListsOk()
      ensures r == LatestEntry(entries, l)
    {
      if l in byLabel {
        var p := byLabel[l];
        return Some(entries[p[|p| - 1]]);
      }
      r := None;
    }

    /** _ruleState: the owner and commitment from the table, the version from the latest entry. */
    method StateOf(l: Label) returns (r: Option<Rule.Owner>)
      requires w.mode.Handles? && Replays(w, entries) && ListsOk() && OwnersOk()
      ensures r == RuleState(w, entries, l)
    {
      hide Replays, Accepts, RuleState, RuleRun, Positions;
      ReplayedRule(w, entries);
      RuleVersion(w, entries, l);
      assert InTable(owners, w, entries, l);
      var latest := LatestOf(l);
      if latest.None? {
        return None;
      }
      var s := owners[l];
      r := Some(Rule.Owner(s.key, s.rc, latest.value.version));
    }

    /**
     The checks of _apply and _applyHandle; in a handle log, the label's next state too. The
     first signature that holds is marked here, before anything is written; from then on an
     entry without one is refused.
     */
    method Check(e: LogEntry) returns (ok: bool, state: Option<OwnerRc>)
      requires InStep()
      modifies this`signedFrom
      ensures InStep()
      ensures signedFrom == old(signedFrom) || (old(signedFrom).None? && e.sig.Some? && signedFrom == Some(|entries|))
      ensures ok <==> Accepts(w, entries, boundary, e) && (e.sig.Some? || old(signedFrom).None?)
      ensures ok ==> signedFrom == FirstSigned(entries + [e])
      ensures ok && w.mode.Handles? ==>
        Rule.Step(w.rule, RuleState(w, entries, e.lbl), RuleEntry(e)).Ok? &&
        var s := Rule.Step(w.rule, RuleState(w, entries, e.lbl), RuleEntry(e)).value;
        state == Some(OwnerRc(s.key, s.rc))
    {
      hide Rule.Step, RuleState, Positions, Latest, Leaves, Replays, FirstSigned, TreeOk, MapOk, ListsOk, OwnersOk;
      MarkNext(entries, signedFrom, e);
      if e.index != |entries| || e.valueHash != ValueDigest(e.value) {
        return false, None;
      }
      if w.mode.Handles? {
        if e.ts < 0 || e.ts % HOUR != 0 {
          return false, None;
        }
        if e.sig.None? || |e.sig.value| != 64 {
          return false, None;
        }
        var prev := StateOf(e.lbl);
        var s := Rule.Step(w.rule, prev, RuleEntry(e));
        if s.Refused? {
          return false, None;
        }
        if signedFrom.None? {
          signedFrom := Some(e.index);
        }
        return true, Some(OwnerRc(s.value.key, s.value.rc));
      }
      if w.labelFor(e.acct) != e.lbl {
        return false, None;
      }
      if e.sig.None? {
        if (boundary.Some? && e.index >= boundary.value) || signedFrom.Some? {
          return false, None;
        }
      } else if !w.accountSigned(e.acct, KtPublish(e.lbl, e.version, e.fp, e.valueHash), e.sig.value) {
        return false, None;
      } else if signedFrom.None? {
        signedFrom := Some(e.index);
      }
      var prev := LatestOf(e.lbl);
      if prev.Some? && !(e.version > prev.value.version) {
        return false, None;
      }
      return 0 <= e.version < U64 && 0 <= e.ts < U64, None;
    }

    lemma Opened()
      requires InStep()
      ensures Replays(w, entries) && TreeOk() && MapOk() && ListsOk() && OwnersOk() && MarkOk(entries, signedFrom)
    {
    }

    /** The lists, an entry having been added to its label's. */
    lemma ListsMore(es: seq<LogEntry>, lists: map<Label, seq<nat>>, e: LogEntry)
      requires entries == es + [e]
      requires forall l :: (l in lists <==> Positions(es, l) != []) && (l in lists ==> lists[l] == Positions(es, l))
      requires byLabel == lists[e.lbl := (if e.lbl in lists then lists[e.lbl] else []) + [|es|]]
      ensures ListsOk()
    {
      hide Positions;
      forall l
        ensures (l in byLabel <==> Positions(entries, l) != []) && (l in byLabel ==> byLabel[l] == Positions(entries, l))
      {
        OneMorePosition(es, e, l);
      }
    }

    lemma OwnersMore(es: seq<LogEntry>, table: map<Label, OwnerRc>, e: LogEntry, state: Option<OwnerRc>)
      requires entries == es + [e] && Replays(w, es) && Accepts(w, es, None, e)
      requires w.mode.Handles? ==> forall l :: InTable(table, w, es, l)
      requires w.mode.Handles? ==>
        Rule.Step(w.rule, RuleState(w, es, e.lbl), RuleEntry(e)).Ok? &&
        var s := Rule.Step(w.rule, RuleState(w, es, e.lbl), RuleEntry(e)).value;
        state == Some(OwnerRc(s.key, s.rc))
      requires owners == if state.Some? then table[e.lbl := state.value] else table
      ensures OwnersOk()
    {
      hide Rule.Step, RuleState, Accepts, Replays, InTable;
      if w.mode.Handles? {
        ReplayedRule(w, es);
        var s := Rule.Step(w.rule, RuleState(w, es, e.lbl), RuleEntry(e)).value;
        forall l
          ensures InTable(owners, w, entries, l)
        {
          TableMore(table, w, es, e, s, l);
        }
      }
    }

    /** The entry in memory: the trees, the lists, the table. */
    method Remember(e: LogEntry, state: Option<OwnerRc>)
      requires signedFrom == FirstSigned(entries + [e])
      requires InStep() && Hashes(w) && Accepts(w, entries, None, e) && |entries| + 1 < WORD
      requires w.mode.Handles? ==>
        Rule.Step(w.rule, RuleState(w, entries, e.lbl), RuleEntry(e)).Ok? &&
        var s := Rule.Step(w.rule, RuleState(w, entries, e.lbl), RuleEntry(e)).value;
        state == Some(OwnerRc(s.key, s.rc))
      modifies this`entries, this`byLabel, this`owners, this`sth, tree, map_
      ensures InStep() && entries == old(entries) + [e] && sth == None
    {
      hide *;
      Opened();
      OneMoreLeaf(w.mode, entries, e);
      OneMoreLatest(entries, e);
      ReplaysOne(w, entries, e);
      ghost var es, lists, table := entries, byLabel, owners;
      TreeMeans();
      MapMeans();
      ListsMean();
      OwnersMean();
      assert |e.lbl| == DEPTH by {
        LastReplayed(w, entries, e);
      }
      AcceptedIndex(w, es, e);
      var i: nat := e.index;
      MarkIs(entries + [e], signedFrom);
      var leaf := tree.Append(LeafHash(w.mode, e));
      var set_ := map_.Set(e.lbl, Slot(e.index, e.version));
      entries := entries + [e];
      var list := if e.lbl in byLabel then byLabel[e.lbl] else [];
      byLabel := byLabel[e.lbl := list + [i]];
      if state.Some? {
        owners := owners[e.lbl := state.value];
      }
      sth := None;
      ListsMore(es, lists, e);
      OwnersMore(es, table, e, state);
      Closed();
    }

    /**
     _apply: the checks, then the file, then memory. NotWritten leaves all as it was but the mark
     on the first signed entry, which no entry that is published can tell; Stopped is a write cut short that could not be taken back, and the end of the process.
     */
    method Apply(e: LogEntry, replaying: bool, disk: Disk) returns (r: ApplyResult)
      requires InStep() && Hashes(w) && |entries| + 1 < WORD
      requires !replaying ==> OnDisk() && Faithful(w.mode, codec) && Storable(w.mode, e)
      modifies this`entries, this`byLabel, this`owners, this`sth, this`signedFrom, tree, map_
      modifies if replaying then {} else {dir}
      ensures InStep()
      ensures r.Refusal? <==> !Accepts(w, old(entries), boundary, e) || (e.sig.None? && old(signedFrom).Some?)
      ensures r.Applied? ==> signedFrom == FirstSigned(entries)
      ensures entries == old(entries) + (if r.Applied? then [e] else [])
      ensures sth == if r.Applied? then None else old(sth)
      ensures replaying ==> r.Applied? || r.Refusal?
      ensures r.Refusal? ==> replaying || dir.later == old(dir.later)
      ensures !replaying ==> dir.Head() == old(dir.Head()) && AllSpooling(old(dir.later), dir.later, old(dir.Now()), Line(codec.line(e)))
      ensures !replaying && r.Applied? ==> OnDisk()
      ensures !replaying && !r.Refusal? ==> (r.Applied? <==> Puts(disk.writes, |codec.line(e)| + 1) && !disk.fsyncFails)
      ensures r.Stopped? ==> disk.truncateFails
      ensures r.Refusal? || r.NotWritten? ==> dir.Data() == old(dir.Data())
      ensures r.Stopped? ==> TornAt(old(dir.Data()), codec.line(e), dir.Data())
    {
      hide *;
      SpoolingStart(dir.later, dir.Now(), Line(codec.line(e)));
      var ok, state := Check(e);
      if !ok {
        return Refusal;
      }
      BoundaryOnlyRefuses(w, entries, boundary, e);
      if !replaying {
        DiskMeans();
        LineAdded(w.mode, codec, dir.Data(), e);
        var put := dir.Append(codec.line(e), disk);
        if put.Restored? {
          return NotWritten;
        }
        if put.Torn? {
          TornHere(old(dir.Data()), codec.line(e), dir.Data());
          return Stopped;
        }
      }
      Remember(e, state);
      if !replaying {
        DiskIs();
      }
      r := Applied;
    }

    lemma DiskMeans()
      requires OnDisk()
      ensures Whole(codec, dir.Data()) && Lines(codec, dir.Data()) == entries
    {
    }

    /** withValue: an entry's value, read again from the range its line stands at. */
    method WithValue(off: nat, len: nat, ghost i: nat) returns (v: Option<Bytes>)
      requires OnDisk() && i < |entries|
      requires var got := Plain(dir.Data(), 0, 0, codec.parse).got; i < |got| && got[i].off == off && got[i].len == len
      ensures v == Some(entries[i].value)
    {
      hide *;
      DiskMeans();
      LinesExact(dir.Data(), 0, 0, codec.parse, i);
      LineAt(codec, dir.Data(), i);
      var text := dir.ReadValue(off, len);
      var e := codec.parse(text.value);
      v := Some(e.value.value);
    }

    lemma DiskIs()
      requires Whole(codec, dir.Data()) && Lines(codec, dir.Data()) == entries
      ensures OnDisk()
    {
    }

    // --- Heads ----------------------------------------------------------------------------

    /** The key signs a head. */
    method Sign(h: HeadMsg)
      modifies dir
      ensures dir.Data() == old(dir.Data()) && dir.Head() == Outside(old(dir.Head()).head, old(dir.Head()).signed + {h})
      ensures dir.later == old(dir.later) + [dir.Now()]
    {
      dir.Replace(Outside(dir.Head().head, dir.Head().signed + {h}));
    }

    /** The roots of both trees, and a signature on them: the cached head when nothing was added and it is fresh. */
    method Sth(now: int, resignMs: int) returns (h: HeadMsg)
      requires InStep() && CacheOk()
      modifies this`sth, tree.memo, dir
      ensures InStep() && CacheOk()
      ensures sth == Some(h) && h == HeadOf(w.mode, entries, h.ts)
      ensures h.ts == now || (old(sth) == Some(h) && now - h.ts < resignMs)
      ensures old(sth).Some? && now - old(sth).value.ts < resignMs ==> h == old(sth).value && dir.later == old(dir.later)
      ensures dir.Data() == old(dir.Data()) && dir.Head() == Outside(old(dir.Head()).head, old(dir.Head()).signed + {h})
      ensures dir.later == old(dir.later) || dir.later == old(dir.later) + [dir.Now()]
      ensures old(HeadsOk()) ==> HeadsOk()
      ensures old(OnDisk()) ==> OnDisk()
    {
      hide *;
      Opened();
      DiskIsThis();
      CachedSize();
      if sth.Some? && sth.value.size == |entries| && now - sth.value.ts < resignMs {
        CachedHead();
        h := sth.value;
        assert dir.Head().signed == dir.Head().signed + {h};
        return;
      }
      TreeMeans();
      MapMeans();
      var logRoot := tree.RootAt(|tree.leaves|);
      var mapRoot := map_.Root();
      h := HeadMsg(|entries|, logRoot.value, mapRoot, now);
      HeadIs(h);
      HeadsAre();
      FineSigned(w.mode, dir.Head(), entries, boundary, h);
      Sign(h);
      sth := Some(h);
      CacheIs(h);
      HeadsAre();
      DiskIsThis();
      Closed();
    }

    lemma HeadsAre()
      ensures HeadsOk() <==> HeadsFine(w.mode, dir.Head(), entries, boundary)
    {
    }

    lemma DiskIsThis()
      ensures OnDisk() <==> Whole(codec, dir.Data()) && Lines(codec, dir.Data()) == entries
    {
    }

    lemma CachedSize()
      requires CacheOk()
      ensures sth.Some? ==> sth.value.size == |entries|
    {
      hide Mth, Canon, Latest, Leaves;
    }

    lemma CachedHead()
      requires CacheOk() && sth.Some?
      ensures sth.value in dir.Head().signed && sth.value == HeadOf(w.mode, entries, sth.value.ts)
    {
    }

    lemma CacheIs(h: HeadMsg)
      requires sth == Some(h) && h in dir.Head().signed && h == HeadOf(w.mode, entries, h.ts)
      ensures CacheOk()
    {
    }

    lemma HeadIs(h: HeadMsg)
      requires h == HeadMsg(|entries|, Mth(tree.leaves[..|tree.leaves|]), Canon(DEPTH, [], map_.values), h.ts)
      requires tree.leaves == Leaves(w.mode, entries) && map_.values == Latest(entries)
      ensures h == HeadOf(w.mode, entries, h.ts)
    {
      hide Leaves, Latest, Mth, Canon;
      assert tree.leaves[..|tree.leaves|] == tree.leaves;
    }

    /** The boundary, where none is set: the first signed entry, else the size. Never moved once set. */
    method SetBoundary()
      requires InStep()
      modifies `boundary
      ensures boundary == if old(boundary).Some? then old(boundary) else Some(BoundaryOf(entries))
      ensures old(HeadsOk()) ==> HeadsOk()
    {
      hide *;
      Opened();
      if boundary.None? {
        HeadsAre();
        FineBoundary(w, dir.Head(), entries);
        boundary := Some(if signedFrom.Some? then signedFrom.value else |entries|);
        BoundaryIs();
        HeadsAre();
      }
    }

    lemma BoundaryIs()
      requires MarkOk(entries, signedFrom)
      ensures BoundaryOf(entries) == if signedFrom.Some? then signedFrom.value else |entries|
    {
    }

    /** Sth, seen from the disk: every state on the way is the log's own disk. */
    method SthOnDisk(now: int, resignMs: int) returns (h: HeadMsg)
      requires InStep() && CacheOk()
      modifies this`sth, tree.memo, dir
      ensures InStep() && CacheOk()
      ensures sth == Some(h) && h == HeadOf(w.mode, entries, h.ts) && h in dir.Head().signed
      ensures h.ts == now || old(sth).Some?
      ensures dir.Data() == old(dir.Data()) && dir.Head() == Outside(old(dir.Head()).head, old(dir.Head()).signed + {h})
      ensures old(HeadsOk()) ==> HeadsOk()
      ensures old(OnDisk()) ==> OnDisk()
      ensures KeepsSigned(old(dir.later), dir.later, old(dir.Head().signed))
      ensures old(HeadsOk()) && old(OnDisk()) ==> AllOwn(w, codec, old(dir.later), dir.later, entries)
    {
      hide *;
      ghost var before, fine, signed := dir.later, HeadsOk() && OnDisk(), dir.Head().signed;
      AllOwnNone(w, codec, before, entries);
      KeepsNone(before, signed);
      h := Sth(now, resignMs);
      dir.NowIs();
      KeepsMore(before, before, dir.Now(), signed);
      if fine {
        OwnNow();
        AllOwnMore(w, codec, before, before, dir.Now(), entries);
      }
    }

    /** _recordHead: a head signed and written down, with the boundary; every state on the way is the log's own disk. */
    method RecordHead(now: int, resignMs: int, headFails: bool) returns (ok: bool)
      requires InStep() && CacheOk()
      modifies this`sth, this`boundary, this`recordedTs, tree.memo, dir
      ensures ok == !headFails
      ensures InStep() && CacheOk() && sth.Some? && (old(sth).None? ==> sth.value.ts == now)
      ensures sth.value == HeadOf(w.mode, entries, sth.value.ts)
      ensures boundary == if old(boundary).Some? then old(boundary) else Some(BoundaryOf(entries))
      ensures dir.Data() == old(dir.Data()) && dir.Head().signed == old(dir.Head().signed) + {sth.value}
      ensures dir.Head().head == if ok then Some(RecordedOf(sth.value, boundary.value)) else old(dir.Head().head)
      ensures ok ==> recordedTs == Some(sth.value.ts)
      ensures !ok ==> recordedTs == old(recordedTs)
      ensures old(HeadsOk()) ==> HeadsOk()
      ensures old(OnDisk()) ==> OnDisk()
      ensures KeepsSigned(old(dir.later), dir.later, old(dir.Head().signed))
      ensures old(HeadsOk()) && old(OnDisk()) ==> AllOwn(w, codec, old(dir.later), dir.later, entries)
    {
      hide *;
      ghost var before, fine, signed := dir.later, HeadsOk() && OnDisk(), dir.Head().signed;
      var h := SthOnDisk(now, resignMs);
      SetBoundary();
      HeadsAre();
      DiskIsThis();
      FineWritten(w.mode, dir.Head(), entries, boundary.value, h);
      RecordedIs(h, boundary.value);
      ghost var middle := dir.later;
      ok := WriteHead(Recorded(h, OnHead(h), Some(Boundary(boundary.value, OnBoundary(boundary.value)))), headFails);
      HeadsAre();
      DiskIsThis();
      dir.NowIs();
      if ok {
        KeepsMore(before, middle, dir.Now(), signed);
        recordedTs := Some(h.ts);
      }
      if fine && ok {
        OwnNow();
        AllOwnMore(w, codec, before, middle, dir.Now(), entries);
      }
      CacheIs(h);
    }

    /** writeHead: the new head or the old one, never half of either. */
    method WriteHead(r: Recorded, fails: bool) returns (ok: bool)
      modifies dir
      ensures ok == !fails
      ensures dir.Data() == old(dir.Data()) && dir.Head() == if ok then Outside(Some(r), old(dir.Head()).signed) else old(dir.Head())
      ensures dir.later == if ok then old(dir.later) + [dir.Now()] else old(dir.later)
    {
      if !fails {
        dir.Replace(Outside(Some(r), dir.Head().signed));
      }
      ok := !fails;
    }

    /** What is on the disk now is the disk of these entries. */
    lemma OwnNow()
      requires InStep() && OnDisk() && HeadsOk()
      ensures OwnAt(w, codec, dir.Now(), entries)
    {
      hide Replays, Whole, Lines, NoFork, OwnHead, TreeOk, MapOk, ListsOk, OwnersOk, UnsignedBelow, MarkOk;
    }

    /** keepAlive: a new head in time, so that the one on disk says when the log last ran. */
    method KeepAlive(force: bool, now: int, resignMs: int, headFails: bool) returns (wrote: bool, ok: bool)
      requires Valid() && boundary.Some?
      modifies this`sth, this`boundary, this`recordedTs, tree.memo, dir
      ensures Valid() && boundary == old(boundary)
      ensures wrote ==> ok == !headFails
      ensures wrote <==> force || old(recordedTs) == None || now - old(recordedTs).value >= resignMs
      ensures wrote && ok ==> dir.Head().head == Some(RecordedOf(HeadOf(w.mode, entries, now), boundary.value)) && recordedTs == Some(now)
      ensures !(wrote && ok) ==> dir.Head().head == old(dir.Head().head)
      ensures dir.Data() == old(dir.Data()) && AllOwn(w, codec, old(dir.later), dir.later, entries)
      ensures KeepsSigned(old(dir.later), dir.later, old(dir.Head().signed))
      ensures wrote ==> sth == Some(HeadOf(w.mode, entries, now)) && dir.Head().signed == old(dir.Head().signed) + {sth.value}
      ensures !wrote ==> dir.later == old(dir.later)
    {
      hide *;
      ValidMeans();
      AllOwnNone(w, codec, dir.later, entries);
      KeepsNone(dir.later, dir.Head().signed);
      if !force && recordedTs.Some? && now - recordedTs.value < resignMs {
        return false, false;
      }
      sth := None;
      NoCache();
      ok := RecordHead(now, resignMs, headFails);
      wrote := true;
      CachedHead();
      ValidIs();
    }

    // --- Publishing ------------------------------------------------------------------------

    /** The verdict on a request, before anything is written. */
    method Judge(q: Request) returns (v: Verdict)
      requires InStep()
      ensures v == PublishVerdict(w, entries, q)
    {
      hide Rule.CheckEntry, Rule.Transition, RuleState, Positions, Latest, Leaves, Replays;
      if w.mode.Handles? {
        var rec := Rule.CheckEntry(w.rule, RuleRequest(q));
        if rec.Refused? {
          return RuleRefuses(rec.reason);
        }
        var prev := StateOf(q.lbl);
        var s := Rule.Transition(w.rule, prev, rec.value, q.version);
        return if s.Refused? then RuleRefuses(s.reason) else Allowed;
      }
      if |q.acct| != 32 || q.version < 1 || q.version > Rule.MAX_VERSION || |q.fp| != FP_BYTES || |q.value| < MIN_VALUE_BYTES {
        return BadRequest;
      }
      if |q.value| > MAX_VALUE_BYTES {
        return ValueTooLarge;
      }
      if |q.sig| != 64 {
        return BadRequest;
      }
      var lbl := w.labelFor(q.acct);
      if !w.accountSigned(q.acct, KtPublish(lbl, q.version, q.fp, ValueDigest(q.value)), q.sig) {
        return NotSigned;
      }
      var prev := LatestOf(lbl);
      return if prev.Some? && !(q.version > prev.value.version) then NotHigher else Allowed;
    }

    /**
     publish: the entry in the file, then in memory, then a head of it written down, then the answer.
     Wherever it stops, the disk is the log's own, of the old history or of the new one, unless
     the write itself was cut short (TornAt).
     */
    method Publish(q: Request, now: int, resignMs: int, disk: Disk) returns (r: PublishResult)
      requires Valid() && boundary.Some? && |entries| + 1 < WORD && 0 <= now < U64
      modifies this`entries, this`byLabel, this`owners, this`sth, this`signedFrom, this`boundary, this`recordedTs
      modifies tree, tree.memo, map_, dir
      ensures boundary == old(boundary)
      ensures !r.Halted? ==> Valid()
      ensures var v := PublishVerdict(w, old(entries), q);
        (!v.Allowed? <==> r.Refused?) && (r.Refused? ==> r.why == v)
      ensures r.Published? <==> Stores(w, codec, old(entries), q, now, disk) && !disk.headFails
      ensures r.NotAcknowledged? <==> Stores(w, codec, old(entries), q, now, disk) && disk.headFails
      ensures r.Halted? ==> disk.truncateFails
      ensures r.Published? || r.NotAcknowledged? ==>
        r.entry == EntryFor(w, old(entries), q, now) && entries == old(entries) + [r.entry]
      ensures r.Published? || r.NotAcknowledged? ==>
        r.entry.index == |old(entries)| && r.entry.version == q.version && r.entry.value == q.value && r.entry.sig == Some(q.sig) &&
        r.entry.valueHash == ValueDigest(q.value)
      ensures w.mode.Kt? && (r.Published? || r.NotAcknowledged?) ==>
        r.entry.lbl == w.labelFor(q.acct) && r.entry.acct == q.acct && r.entry.fp == q.fp && r.entry.ts == now
      ensures w.mode.Handles? && (r.Published? || r.NotAcknowledged?) ==>
        r.entry.lbl == q.lbl && r.entry.ts <= now < r.entry.ts + 3_600_000 && r.entry.ts % 3_600_000 == 0
      ensures r.Refused? || r.NotStored? ==> entries == old(entries) && dir.Data() == old(dir.Data()) && dir.Head().head == old(dir.Head().head)
      ensures r.Published? ==> dir.Head().head == Some(RecordedOf(HeadOf(w.mode, entries, now), boundary.value))
      ensures r.NotAcknowledged? || r.Halted? ==> dir.Head().head == old(dir.Head().head)
      ensures AllSurvive(w, codec, old(dir.later), dir.later, old(entries), old(entries) + [EntryFor(w, old(entries), q, now)])
      ensures KeepsSigned(old(dir.later), dir.later, old(dir.Head().signed))
      ensures r.Refused? ==> dir.later == old(dir.later)
      ensures r.Published? || r.NotAcknowledged? ==>
        sth == Some(HeadOf(w.mode, entries, now)) && dir.Head().signed == old(dir.Head().signed) + {sth.value}
      ensures r.Refused? || r.NotStored? || r.Halted? ==> dir.Head().signed == old(dir.Head().signed)
      ensures r.Halted? ==>
        entries == old(entries) &&
        TornAt(old(dir.Data()), codec.line(EntryFor(w, old(entries), q, now)), dir.Data())
    {
      hide *;
      ValidMeans();
      ghost var hist, before, was := entries, dir.later, dir.Now();
      StoredIs(w, codec, hist, q, now, disk);
      SurviveNone(w, codec, before, hist, hist + [EntryFor(w, hist, q, now)]);
      KeepsNone(before, dir.Head().signed);
      dir.NowIs();
      var v := Judge(q);
      if v != Allowed {
        return PublishResult.Refused(v);
      }
      var e := EntryFor(w, entries, q, now);
      EntryIs(w, entries, q, now);
      AllowedIs(w, entries, q, now);
      AllowedAccepted(w, entries, q, now, boundary);
      BoundaryOnlyRefuses(w, entries, boundary, e);
      OwnNow();
      DiskIsThis();
      HeadsAre();
      CacheIsThis();
      var a := Apply(e, false, disk);
      AppendSurvives(w, codec, before, dir.later, was, hist, e);
      KeepsAppend(before, dir.later, was, Line(codec.line(e)));
      if a.Stopped? {
        return Halted;
      }
      if !a.Applied? {
        DiskIsThis();
        HeadsAre();
        CacheIsThis();
        ValidIs();
        return NotStored;
      }
      FineMore(w.mode, dir.Head(), hist, boundary, e);
      HeadsAre();
      NoCache();
      ghost var middle := dir.later;
      var ok := RecordHead(now, resignMs, disk.headFails);
      SurviveThenOwn(w, codec, before, middle, dir.later, hist, entries);
      KeepsThen(before, middle, dir.later, was.head.signed);
      ValidIs();
      r := if ok then Published(e) else NotAcknowledged(e);
    }

    lemma CacheIsThis()
      ensures CacheOk() <==> (sth.Some? ==> sth.value in dir.Head().signed && sth.value == HeadOf(w.mode, entries, sth.value.ts))
    {
    }

    // --- Opening ------------------------------------------------------------------------------

    /** A log with nothing in it yet. */
    ghost predicate Empty()
      reads `entries, `byLabel, `owners, `signedFrom, `sth, `boundary, tree, tree.memo, map_
    {
      InStep() && entries == [] && sth == None && boundary == None && signedFrom == None
    }

    /**
     The start: every line replayed, then the head file, if there is one, held against them.
     On any disk, a start that succeeds against a head reproduces the entries that head is of.
     On the log's own disk it succeeds, with the whole history, and forks nothing; the boundary
     of the head file stands. A start that is refused leaves the disk as it was.
     */
    method Open(minSize: nat, now: int, resignMs: int, chunkBytes: nat, headFails: bool, ghost hist: seq<LogEntry>) returns (r: OpenResult)
      requires Empty() && Hashes(w) && Faithful(w.mode, codec) && chunkBytes >= 1
      requires |Lines(codec, dir.Data())| < WORD
      requires Genuine(dir.Head()) && NoFork(w.mode, dir.Head().signed, hist)
      modifies this`entries, this`byLabel, this`owners, this`sth, this`signedFrom, this`boundary, this`recordedTs
      modifies tree, tree.memo, map_, dir
      ensures r.Ready? ==> InStep() && OnDisk() && |entries| >= minSize && boundary.Some? && UnsignedBelow(entries, boundary.value)
      ensures r.Ready? && old(dir.Head().head).Some? ==> Reproduces(w.mode, old(dir.Head().head).value, hist, entries)
      ensures r.Ready? ==> BoundaryKept(old(dir.Head().head), boundary, entries)
      ensures old(Own(w, codec, dir.Data(), dir.Head().head, dir.Head().signed, hist)) ==>
        (r.Ready? || r.HeadNotWritten? || r.TooFew?) && (r.TooFew? <==> |hist| < minSize) && (r.HeadNotWritten? ==> headFails)
      ensures old(Own(w, codec, dir.Data(), dir.Head().head, dir.Head().signed, hist)) ==>
        Own(w, codec, dir.Data(), dir.Head().head, dir.Head().signed, hist) && (r.Ready? ==> Valid() && entries == hist)
      ensures old(Own(w, codec, dir.Data(), dir.Head().head, dir.Head().signed, hist)) ==> AllOwn(w, codec, old(dir.later), dir.later, hist)
      ensures !r.Ready? && !r.HeadNotWritten? ==> dir.later == old(dir.later)
      ensures dir.Data() == old(dir.Data()) && KeepsSigned(old(dir.later), dir.later, old(dir.Head().signed))
      ensures old(dir.Head().signed) <= dir.Head().signed
      ensures r.HeadNotWritten? ==> dir.Head().head == old(dir.Head().head)
      ensures r.Ready? && (old(dir.Head().head).None? || old(dir.Head().head).value.boundary.None?) ==>
        sth.Some? && sth.value == HeadOf(w.mode, entries, sth.value.ts) && dir.Head().head == Some(RecordedOf(sth.value, boundary.value))
      ensures r.Ready? && old(dir.Head().head).Some? && old(dir.Head().head).value.boundary.Some? ==> dir.later == old(dir.later)
    {
      hide *;
      ghost var own := Own(w, codec, dir.Data(), dir.Head().head, dir.Head().signed, hist);
      if own {
        OwnMeans(w, codec, dir.Data(), dir.Head().head, dir.Head().signed, hist);
      }
      EmptyMeans();
      AllOwnNone(w, codec, dir.later, hist);
      KeepsNone(dir.later, dir.Head().signed);
      var read := ReadAll(dir.Data(), chunkBytes, codec.parse);
      ReadIs(read);
      ghost var all := EntriesOf(read.got);
      for i := 0 to |read.got|
        invariant InStep() && entries == all[..i] && sth == None && boundary == None && signedFrom == FirstSigned(entries)
        modifies this`entries, this`byLabel, this`owners, this`sth, this`signedFrom, tree, map_
      {
        if own {
          ReplaysAt(w, hist, i);
          AcceptsUnsigned(w, entries, read.got[i].entry);
        }
        var a := Apply(read.got[i].entry, true, Disk([], false, false, false));
        if !a.Applied? {
          return NotReplayed;
        }
        assert all[..i + 1] == all[..i] + [all[i]];
      }
      assert all[..|read.got|] == all;
      if own {
        WholeMeans(read);
      }
      if read.end != Done {
        return NotReplayed;
      }
      ReadWhole(read);
      if |entries| < minSize {
        return TooFew;
      }
      r := CheckAgainstLastHead(now, resignMs, headFails, hist, own);
      if own {
        Opened();
        DiskMeans();
        HeadsMean();
        OwnIs(w, codec, dir.Data(), dir.Head().head, dir.Head().signed, hist);
        if r.Ready? {
          ValidIs();
        }
      }
    }

    lemma EmptyMeans()
      requires Empty()
      ensures InStep() && entries == [] && sth == None && boundary == None && signedFrom == FirstSigned(entries)
    {
    }

    lemma ReadIs(read: Read<LogEntry>)
      requires read == Plain(dir.Data(), 0, 0, codec.parse)
      ensures EntriesOf(read.got) == Lines(codec, dir.Data()) && |EntriesOf(read.got)| == |read.got|
      ensures forall i :: 0 <= i < |read.got| ==> EntriesOf(read.got)[i] == read.got[i].entry
    {
      hide Plain;
    }

    lemma WholeMeans(read: Read<LogEntry>)
      requires Whole(codec, dir.Data()) && read == Plain(dir.Data(), 0, 0, codec.parse)
      ensures read.end == Done
    {
      hide Plain;
    }

    lemma ReadWhole(read: Read<LogEntry>)
      requires read == Plain(dir.Data(), 0, 0, codec.parse) && read.end == Done && entries == EntriesOf(read.got)
      ensures OnDisk()
    {
      hide Plain;
    }

    lemma HeadsMean()
      requires HeadsOk()
      ensures NoFork(w.mode, dir.Head().signed, entries) && OwnHead(dir.Head().head, dir.Head().signed, entries)
    {
    }

    /** _checkAgainstLastHead, once the lines have replayed. */
    method CheckAgainstLastHead(now: int, resignMs: int, headFails: bool, ghost hist: seq<LogEntry>, ghost own: bool) returns (r: OpenResult)
      requires InStep() && OnDisk() && sth == None && boundary == None
      requires Genuine(dir.Head()) && NoFork(w.mode, dir.Head().signed, hist)
      requires own ==> entries == hist && OwnHead(dir.Head().head, dir.Head().signed, hist)
      modifies this`sth, this`boundary, this`recordedTs, tree.memo, dir
      ensures InStep() && OnDisk() && CacheOk() && !r.NotReplayed?
      ensures r.Ready? ==> boundary.Some? && UnsignedBelow(entries, boundary.value)
      ensures r.Ready? && old(dir.Head().head).Some? ==> Reproduces(w.mode, old(dir.Head().head).value, hist, entries)
      ensures r.Ready? ==> BoundaryKept(old(dir.Head().head), boundary, entries)
      ensures own ==> (r.Ready? || r.HeadNotWritten?) && HeadsOk()
      ensures own ==> AllOwn(w, codec, old(dir.later), dir.later, entries)
      ensures r.HeadNotWritten? ==> headFails
      ensures !r.Ready? && !r.HeadNotWritten? ==> dir.later == old(dir.later)
      ensures dir.Data() == old(dir.Data()) && KeepsSigned(old(dir.later), dir.later, old(dir.Head().signed))
      ensures old(dir.Head().signed) <= dir.Head().signed
      ensures r.HeadNotWritten? ==> dir.Head().head == old(dir.Head().head)
      ensures r.Ready? && (old(dir.Head().head).None? || old(dir.Head().head).value.boundary.None?) ==>
        sth.Some? && sth.value == HeadOf(w.mode, entries, sth.value.ts) && dir.Head().head == Some(RecordedOf(sth.value, boundary.value))
      ensures r.Ready? && old(dir.Head().head).Some? && old(dir.Head().head).value.boundary.Some? ==> dir.later == old(dir.later)
    {
      hide *;
      NoCache();
      Opened();
      AllOwnNone(w, codec, dir.later, entries);
      KeepsNone(dir.later, dir.Head().signed);
      BoundaryHolds(w, entries);
      if own && (dir.Head().head.Some? ==> dir.Head().head.value.boundary.None?) {
        HeadsFresh();
      }
      if dir.Head().head.None? {
        var ok := RecordHead(now, resignMs, headFails);
        BoundaryKeptNone(boundary, entries);
        return if ok then Ready else HeadNotWritten;
      }
      var last := dir.Head().head.value;
      if own {
        OwnHeadHolds(w.mode, last, dir.Head().signed, hist);
      }
      if |entries| < last.msg.size {
        return TooFew;
      }
      TreeMeans();
      var root := tree.RootAt(last.msg.size);
      Closed();
      if root != Some(last.msg.logRoot) {
        return NotAPrefix;
      }
      if last.sig != OnHead(last.msg) {
        return NotOurHead;
      }
      GenuineMeans();
      ReproducesIs(w.mode, last, dir.Head().signed, hist, entries);
      recordedTs := Some(last.msg.ts);
      if last.boundary.None? {
        var ok := RecordHead(now, resignMs, headFails);
        BoundaryKeptNone(boundary, entries);
        return if ok then Ready else HeadNotWritten;
      }
      var b := last.boundary.value;
      if b.sig != OnBoundary(b.from) {
        return NotOurBoundary;
      }
      boundary := Some(b.from);
      var past := UnsignedPast(b.from);
      if past {
        return UnsignedPastBoundary;
      }
      BoundaryKeptSame(last, b.from, entries);
      if own {
        HeadsFresh();
      }
      r := Ready;
    }

    lemma HeadsFresh()
      requires NoFork(w.mode, dir.Head().signed, entries) && OwnHead(dir.Head().head, dir.Head().signed, entries)
      requires boundary.Some? ==> UnsignedBelow(entries, boundary.value)
      requires dir.Head().head.Some? && dir.Head().head.value.boundary.Some? ==> boundary == Some(dir.Head().head.value.boundary.value.from)
      ensures HeadsOk()
    {
    }

    lemma GenuineMeans()
      requires Genuine(dir.Head()) && dir.Head().head.Some? && dir.Head().head.value.sig == OnHead(dir.Head().head.value.msg)
      ensures dir.Head().head.value.msg in dir.Head().signed
    {
    }

    lemma IndexedEntries()
      requires Replays(w, entries)
      ensures forall i :: 0 <= i < |entries| ==> entries[i].index == i
    {
      hide Accepts, Replays;
      ReplayedIndexed(w, entries);
    }

    /** Whether an entry at or past the boundary has no signature. */
    method UnsignedPast(from: int) returns (past: bool)
      requires InStep()
      ensures past <==> !UnsignedBelow(entries, from)
    {
      hide Replays, Accepts, Leaves, Latest, Positions, TreeOk, MapOk, ListsOk, OwnersOk;
      IndexedEntries();
      for i := 0 to |entries|
        invariant forall k :: 0 <= k < i && entries[k].sig.None? ==> k < from
      {
        if entries[i].sig.None? && entries[i].index >= from {
          return true;
        }
      }
      return false;
    }

    lemma NoCache()
      requires sth.None?
      ensures CacheOk()
    {
    }

    lemma ValidMeans()
      requires Valid()
      ensures InStep() && OnDisk() && CacheOk() && HeadsOk() && Hashes(w) && Faithful(w.mode, codec)
    {
    }

    /** Wherever the process dies between its steps, what it leaves is its own disk. */
    lemma ValidIsOwn()
      requires Valid()
      ensures Own(w, codec, dir.Data(), dir.Head().head, dir.Head().signed, entries)
    {
      hide *;
      ValidMeans();
      Opened();
      DiskMeans();
      HeadsMean();
      OwnIs(w, codec, dir.Data(), dir.Head().head, dir.Head().signed, entries);
    }

    lemma ValidIs()
      requires InStep() && OnDisk() && CacheOk() && HeadsOk() && Hashes(w) && Faithful(w.mode, codec)
      ensures Valid()
    {
    }

    // --- Answers ---------------------------------------------------------------------------

    /** The head an answer is under; the log is as it was. */
    method HeadFor(now: int, resignMs: int) returns (h: HeadMsg)
      requires Valid()
      modifies this`sth, tree.memo, dir
      ensures Valid() && h == HeadOf(w.mode, entries, h.ts) && dir.Head().signed == old(dir.Head().signed) + {h}
      ensures OnlySigned(old(dir.later), dir.later, old(dir.Now()), dir.Now())
    {
      hide *;
      ValidMeans();
      ghost var was := dir.Now();
      dir.NowIs();
      h := Sth(now, resignMs);
      dir.NowIs();
      SignedOnly(dir.later, was, dir.Now(), h);
      ValidIs();
    }

    /** _inclusion: an entry's audit path under the log's head. */
    method Inclusion(i: nat, h: HeadMsg) returns (path: seq<Digest>)
      requires Valid() && i < |entries| && h == HeadOf(w.mode, entries, h.ts)
      modifies tree.memo
      ensures Valid() && Included(w.mode, h, entries[i], path)
    {
      hide *;
      ValidMeans();
      Opened();
      TreeMeans();
      ReplayedIndexed(w, entries);
      var p := tree.InclusionProof(i, |tree.leaves|, null);
      WholePath(i);
      path := p.value;
      HeadIncludes(w.mode, entries, h, i, path);
      Closed();
      ValidIs();
    }

    lemma WholePath(i: nat)
      requires i < |tree.leaves|
      ensures ProofAt(i, |tree.leaves|, tree.leaves) == Some(Path(i, tree.leaves))
    {
      hide Path;
      assert tree.leaves[..|tree.leaves|] == tree.leaves;
    }

    /** lookup: a label's latest entry, or its absence, proved under the head. */
    method Lookup(l: Label, now: int, resignMs: int) returns (a: LookupAnswer)
      requires Valid() && |l| == DEPTH
      modifies this`sth, tree.memo, dir
      ensures Valid() && a.sth in dir.Head().signed && a.sth == HeadOf(w.mode, entries, a.sth.ts)
      ensures OnlySigned(old(dir.later), dir.later, old(dir.Now()), dir.Now())
      ensures a.entry == LatestEntry(entries, l)
      ensures LookupPasses(w.mode, a.sth, l, a.proof, a.entry, a.path)
    {
      hide *;
      var h := HeadFor(now, resignMs);
      ValidMeans();
      Opened();
      MapMeans();
      ReplayedIndexed(w, entries);
      var proof := map_.Proof(l);
      ProofNames(w, entries, l, proof);
      if proof.leaf.Absent? {
        LookupBuilt(w, entries, h, l, proof, []);
        return LookupAnswer(h, proof, None, []);
      }
      var e := entries[proof.leaf.slot.index];
      var path := Inclusion(e.index, h);
      LookupBuilt(w, entries, h, l, proof, path);
      a := LookupAnswer(h, proof, Some(e), path);
    }

    /** _fit: how many fit in maxBytes, taken in order; at least one. */
    method Fit(indices: seq<int>, cost: LogEntry -> nat, maxBytes: Option<nat>) returns (n: nat)
      requires forall i :: 0 <= i < |indices| ==> 0 <= indices[i] < |entries|
      ensures Fitted(entries, indices, cost, maxBytes, n)
    {
      if maxBytes.None? {
        return |indices|;
      }
      var bytes := 0;
      for k := 0 to |indices|
        invariant bytes == Cost(entries, indices[..k], cost) <= maxBytes.value
      {
        bytes := bytes + cost(entries[indices[k]]);
        assert indices[..k + 1][..k] == indices[..k];
        if bytes > maxBytes.value {
          if k == 0 && |indices| > 1 {
            assert indices[..2][..1] == indices[..1];
          }
          return if k >= 1 then k else 1;
        }
      }
      assert indices[..|indices|] == indices;
      n := |indices|;
    }

    /** The entries at these indices, each with its path. */
    method Serve(wanted: seq<nat>, n: nat, h: HeadMsg) returns (page: seq<Proven>)
      requires Valid() && h == HeadOf(w.mode, entries, h.ts)
      requires n <= |wanted| && (wanted != [] ==> n >= 1) && forall i :: 0 <= i < |wanted| ==> wanted[i] < |entries|
      modifies tree.memo
      ensures Valid() && |page| == n && PageOf(w.mode, h, entries, wanted, page)
    {
      hide *;
      page := [];
      for k := 0 to n
        invariant Valid() && |page| == k
        invariant forall j :: 0 <= j < k ==> page[j].entry == entries[wanted[j]] && Included(w.mode, h, page[j].entry, page[j].path)
      {
        var path := Inclusion(wanted[k], h);
        page := page + [Proven(entries[wanted[k]], path)];
      }
      PageIs(h, wanted, page);
    }

    lemma PageIs(h: HeadMsg, wanted: seq<nat>, page: seq<Proven>)
      requires |page| <= |wanted| && (wanted != [] ==> |page| >= 1) && forall i :: 0 <= i < |wanted| ==> wanted[i] < |entries|
      requires forall j :: 0 <= j < |page| ==>
        page[j].entry == entries[wanted[j]] && Included(w.mode, h, page[j].entry, page[j].path)
      ensures PageOf(w.mode, h, entries, wanted, page)
    {
      hide Included;
    }

    /** history: a page of a label's entries, oldest first, and how many there are; None for a bad request. */
    method History(l: Label, start: int, count: Option<int>, cost: LogEntry -> nat, maxBytes: Option<nat>, now: int, resignMs: int)
      returns (r: Option<Page>)
      requires Valid()
      modifies this`sth, tree.memo, dir
      ensures Valid()
      ensures r.None? <==> start < 0 || (count.Some? && count.value < 1)
      ensures r.Some? ==> r.value.sth in dir.Head().signed && r.value.sth == HeadOf(w.mode, entries, r.value.sth.ts)
      ensures OnlySigned(old(dir.later), dir.later, old(dir.Now()), dir.Now())
      ensures r.Some? ==> r.value.start == start && r.value.total == |Positions(entries, l)|
      ensures r.Some? ==>
        PageOf(w.mode, r.value.sth, entries, Clip(Positions(entries, l), start, NatOf(count)), r.value.entries)
      ensures r.Some? ==>
        Held(entries, Clip(Positions(entries, l), start, NatOf(count))) &&
        Fitted(entries, Clip(Positions(entries, l), start, NatOf(count)), cost, maxBytes, |r.value.entries|)
      ensures r.Some? ==>
        Shows(entries, Positions(entries, l), start, count, r.value.entries) &&
        Filled(entries, Positions(entries, l), start, count, cost, maxBytes, |r.value.entries|)
    {
      hide *;
      var h := HeadFor(now, resignMs);
      ValidMeans();
      Opened();
      ListsMean();
      var all := if l in byLabel then byLabel[l] else [];
      if start < 0 || (count.Some? && count.value < 1) {
        return None;
      }
      var wanted := Clip(all, start, NatOf(count));
      ClipWithin(all, start, NatOf(count), |entries|);
      var n := Fit(wanted, cost, maxBytes);
      FitMeans(entries, wanted, cost, maxBytes, n);
      var page := Serve(wanted, n, h);
      NatOfIs(count);
      PageIsSlice(w.mode, h, entries, all, start, NatOf(count), cost, maxBytes, page);
      r := Some(Page(h, start, |all|, page));
    }

    /**
     The pages of a label's history, fetched from the first entry on, each from where the one before it
     ended: together they are all its entries, in order, however the pages are cut.
     */
    method Walk(l: Label, count: Option<int>, cost: LogEntry -> nat, maxBytes: Option<nat>, now: int, resignMs: int)
      returns (got: seq<LogEntry>, pages: nat)
      requires Valid() && (count.Some? ==> count.value >= 1)
      modifies this`sth, tree.memo, dir
      ensures Valid() && |got| == |Positions(entries, l)| && pages <= |got|
      ensures forall k :: 0 <= k < |got| ==> got[k] == entries[Positions(entries, l)[k]]
    {
      hide *;
      got, pages := [], 0;
      ghost var all := Positions(entries, l);
      var more := true;
      while more
        invariant Valid() && |got| <= |all| && pages <= |got| && (!more ==> |got| == |all|)
        invariant forall k :: 0 <= k < |got| ==> StandsAt(entries, all, k, got[k])
        decreases |all| - |got|, if more then 1 else 0
        modifies this`sth, tree.memo, dir
      {
        var page := History(l, |got|, count, cost, maxBytes, now, resignMs);
        var es := page.value.entries;
        var next := seq(|es|, i requires 0 <= i < |es| => es[i].entry);
        WalkedOn(entries, all, count, got, es, next);
        if es == [] {
          more := false;
        } else {
          got := got + next;
          pages := pages + 1;
        }
      }
      forall k | 0 <= k < |got|
        ensures got[k] == entries[Positions(entries, l)[k]]
      {
        StandsIs(entries, all, k, got[k]);
      }
    }

    /** range: a page of the log for a mirror; None for a bad request. */
    method Range(start: int, count: int, cost: LogEntry -> nat, maxBytes: Option<nat>, now: int, resignMs: int)
      returns (r: Option<(HeadMsg, seq<LogEntry>)>)
      requires Valid()
      modifies this`sth, tree.memo, dir
      ensures Valid()
      ensures r.None? <==> start < 0 || count < 1
      ensures r.Some? ==> r.value.0 in dir.Head().signed && r.value.0 == HeadOf(w.mode, entries, r.value.0.ts)
      ensures OnlySigned(old(dir.later), dir.later, old(dir.Now()), dir.Now())
      ensures r.Some? && start < |entries| ==>
        1 <= |r.value.1| <= count && start + |r.value.1| <= |entries| && r.value.1 == entries[start..start + |r.value.1|]
      ensures r.Some? && start < |entries| ==>
        Held(entries, UpTo(start, if |entries| < start + count then |entries| else start + count)) &&
        Fitted(entries, UpTo(start, if |entries| < start + count then |entries| else start + count), cost, maxBytes, |r.value.1|)
      ensures r.Some? && start >= |entries| ==> r.value.1 == []
    {
      hide *;
      var h := HeadFor(now, resignMs);
      if start < 0 || count < 1 {
        return None;
      }
      var end := if |entries| < start + count then |entries| else start + count;
      if end <= start {
        return Some((h, []));
      }
      var wanted := UpTo(start, end);
      HeldUpTo(entries, start, end);
      var n := Fit(wanted, cost, maxBytes);
      FitMeans(entries, wanted, cost, maxBytes, n);
      r := Some((h, entries[start..start + n]));
    }

    /** entriesAt: entries by index, in the order asked; None when one is not below the head. */
    method EntriesAt(indexes: seq<int>, cost: LogEntry -> nat, maxBytes: Option<nat>, now: int, resignMs: int)
      returns (r: Option<Page>)
      requires Valid()
      modifies this`sth, tree.memo, dir
      ensures Valid()
      ensures r.Some? <==> forall i :: 0 <= i < |indexes| ==> 0 <= indexes[i] < |entries|
      ensures r.Some? ==> r.value.sth in dir.Head().signed && r.value.sth == HeadOf(w.mode, entries, r.value.sth.ts)
      ensures OnlySigned(old(dir.later), dir.later, old(dir.Now()), dir.Now())
      ensures r.Some? ==> r.value.total == |indexes| && PageOf(w.mode, r.value.sth, entries, indexes, r.value.entries)
      ensures r.Some? ==> Fitted(entries, indexes, cost, maxBytes, |r.value.entries|)
      ensures r.Some? ==> Listed(entries, indexes, r.value.entries)
    {
      hide *;
      var h := HeadFor(now, resignMs);
      var wanted: seq<nat> := [];
      for k := 0 to |indexes|
        invariant wanted == indexes[..k] && forall i :: 0 <= i < k ==> 0 <= indexes[i] < |entries|
        modifies {}
      {
        if indexes[k] < 0 || indexes[k] >= |entries| {
          return None;
        }
        wanted := wanted + [indexes[k]];
      }
      assert indexes[..|indexes|] == indexes;
      var n := Fit(wanted, cost, maxBytes);
      FitMeans(entries, wanted, cost, maxBytes, n);
      var page := ServeTogether(wanted, n, h);
      ListedIs(w.mode, h, entries, wanted, page);
      r := Some(Page(h, 0, |indexes|, page));
    }

    /** The same, the paths asked for together. */
    method ServeTogether(wanted: seq<nat>, n: nat, h: HeadMsg) returns (page: seq<Proven>)
      requires Valid() && h == HeadOf(w.mode, entries, h.ts)
      requires n <= |wanted| && (wanted != [] ==> n >= 1) && forall i :: 0 <= i < |wanted| ==> wanted[i] < |entries|
      modifies tree.memo
      ensures Valid() && |page| == n && PageOf(w.mode, h, entries, wanted, page)
    {
      hide *;
      var paths := Together(wanted[..n], h);
      var es := entries;
      page := seq(n, k requires 0 <= k < n => Proven(es[wanted[k]], paths[k]));
      PageIs(h, wanted, page);
    }

    /** inclusionProofs at the head's size: one path for each index. */
    method Together(wanted: seq<int>, h: HeadMsg) returns (paths: seq<seq<Digest>>)
      requires Valid() && h == HeadOf(w.mode, entries, h.ts)
      requires forall i :: 0 <= i < |wanted| ==> 0 <= wanted[i] < |entries|
      modifies tree.memo
      ensures Valid() && |paths| == |wanted|
      ensures forall i :: 0 <= i < |wanted| ==> Included(w.mode, h, entries[wanted[i]], paths[i])
    {
      hide *;
      ValidMeans();
      Opened();
      TreeMeans();
      ReplayedIndexed(w, entries);
      var r := tree.InclusionProofs(wanted, |tree.leaves|);
      forall i | 0 <= i < |wanted|
        ensures ProofAt(wanted[i], |tree.leaves|, tree.leaves) == Some(Path(wanted[i], tree.leaves))
      {
        WholePath(wanted[i]);
      }
      paths := r.value;
      forall i | 0 <= i < |wanted|
        ensures Included(w.mode, h, entries[wanted[i]], paths[i])
      {
        HeadIncludes(w.mode, entries, h, wanted[i], paths[i]);
      }
      Closed();
      ValidIs();
    }

    /**
     buckets: whole buckets under one head, or None when their leaves are past the bound or, in
     the handle log, cost more than maxBytes. None is ever cut short.
     */
    method Buckets(queries: seq<Query>, maxLeaves: nat, cost: LogEntry -> nat, auditBytes: nat, maxBytes: Option<nat>,
                   now: int, resignMs: int) returns (h: HeadMsg, r: Option<seq<ServedBucket>>)
      requires Valid() && maxLeaves <= MAX_BUCKET_LEAVES && QueriesOk(queries)
      modifies this`sth, tree.memo, dir
      ensures Valid() && h in dir.Head().signed && h == HeadOf(w.mode, entries, h.ts)
      ensures OnlySigned(old(dir.later), dir.later, old(dir.Now()), dir.Now())
      ensures r.Some? ==> AnswerPasses(w.mode, h, queries, r.value)
      ensures r.Some? <==>
        |LeafList(entries, queries)| <= maxLeaves &&
        (w.mode.Handles? && maxBytes.Some? ==> LeafCost(entries, LeafList(entries, queries), cost, auditBytes) <= maxBytes.value)
    {
      hide *;
      h := HeadFor(now, resignMs);
      var out := BareBuckets(queries, maxLeaves);
      if !out.Some? {
        return h, None;
      }
      ValidMeans();
      Opened();
      BuiltLeaves(entries, queries, out.value);
      if !w.mode.Handles? {
        AnswerBuilt(w, entries, h, queries, out.value);
        return h, out;
      }
      var all := AllLeaves(out.value);
      var bytes := BytesFor(all, cost, auditBytes);
      if maxBytes.Some? && bytes > maxBytes.value {
        return h, None;
      }
      LeafListHeld(w, entries, queries);
      var audits := Together(IndicesOf(all), h);
      var dressed := DressBuckets(queries, out.value, audits, h);
      BuiltLeaves(entries, queries, dressed);
      ValidMeans();
      Opened();
      AnswerBuilt(w, entries, h, queries, dressed);
      r := Some(dressed);
    }

    /** The map's buckets, one query after another, while their leaves are within the bound. */
    method BareBuckets(queries: seq<Query>, maxLeaves: nat) returns (r: Option<seq<ServedBucket>>)
      requires Valid() && QueriesOk(queries)
      ensures r.Some? <==> |LeafList(entries, queries)| <= maxLeaves
      ensures r.Some? ==> AllBuilt(entries, queries, r.value)
    {
      hide *;
      ValidMeans();
      Opened();
      MapMeans();
      var out: seq<ServedBucket> := [];
      var total := 0;
      NoQueries(entries);
      for n := 0 to |queries|
        invariant |out| == n && AllBuilt(entries, queries[..n], out)
        invariant total == |LeafList(entries, queries[..n])| <= maxLeaves
      {
        var q := queries[n];
        QueryOk(queries, n);
        var b := map_.Bucket(q.prefix, q.bits, AtMost(maxLeaves - total));
        BucketAsked(entries, q, b, maxLeaves - total);
        LeafListNext(entries, queries, n);
        if !b.Found? {
          LeafListGrows(entries, queries, n + 1);
          return None;
        }
        OneBuilt(entries, queries, n, out, b);
        out := out + [ServedBucket(q, BareAll(b.leaves), b.siblings)];
        total := total + |b.leaves|;
      }
      assert queries[..|queries|] == queries;
      r := Some(out);
    }

    /** What the records cost, added up before any is read. */
    method BytesFor(all: seq<Leaf>, cost: LogEntry -> nat, auditBytes: nat) returns (bytes: nat)
      ensures bytes == LeafCost(entries, all, cost, auditBytes)
    {
      bytes := 0;
      for k := 0 to |all|
        invariant bytes == LeafCost(entries, all[..k], cost, auditBytes)
      {
        assert all[..k + 1][..k] == all[..k];
        var i := all[k].slot.index;
        bytes := bytes + (if 0 <= i < |entries| then cost(entries[i]) else 0) + auditBytes;
      }
      assert all[..|all|] == all;
    }

    /** Each leaf with its record and its path, the paths being in the order of all the leaves. */
    method DressBuckets(queries: seq<Query>, bare: seq<ServedBucket>, audits: seq<seq<Digest>>, h: HeadMsg)
      returns (out: seq<ServedBucket>)
      requires AllBuilt(entries, queries, bare) && |audits| == |AllLeaves(bare)|
      requires forall i :: 0 <= i < |audits| ==>
        0 <= AllLeaves(bare)[i].slot.index < |entries| && Included(Handles, h, entries[AllLeaves(bare)[i].slot.index], audits[i])
      ensures AllBuilt(entries, queries, out) && forall i :: 0 <= i < |out| ==> RecordsBuilt(entries, h, out[i])
    {
      hide *;
      out := [];
      var off := 0;
      BuiltEach(entries, queries, bare);
      AllLeavesNone(bare);
      for n := 0 to |bare|
        invariant |out| == n && off == |AllLeaves(bare[..n])|
        invariant forall i :: 0 <= i < n ==> BucketBuilt(entries, queries[i], out[i]) && RecordsBuilt(entries, h, out[i])
      {
        var b := bare[n];
        AllLeavesNext(bare, n);
        AllLeavesPrefix(bare, n + 1);
        forall i | 0 <= i < |b.leaves|
          ensures AllLeaves(bare)[off + i] == b.leaves[i].leaf
        {
          AllLeavesAt(bare, n, i);
        }
        var part := audits[off..off + |b.leaves|];
        DressedBuilt(entries, h, queries[n], b, part);
        out := out + [ServedBucket(b.query, DressAll(entries, b.leaves, part), b.siblings)];
        off := off + |b.leaves|;
      }
      BuiltAll(entries, queries, out);
    }

    lemma TreeMeans()
      requires TreeOk()
      ensures tree.Valid() && tree.leaves == Leaves(w.mode, entries) && |tree.leaves| == |entries|
    {
    }

    lemma MapMeans()
      requires MapOk()
      ensures map_.Valid() && map_.D == DEPTH && map_.values == Latest(entries)
    {
    }

    lemma ListsMean()
      requires ListsOk()
      ensures forall l :: (l in byLabel <==> Positions(entries, l) != []) && (l in byLabel ==> byLabel[l] == Positions(entries, l))
    {
    }

    lemma OwnersMean()
      requires OwnersOk()
      ensures w.mode.Handles? ==> forall l :: InTable(owners, w, entries, l)
    {
    }

    lemma Closed()
      requires Replays(w, entries)
      requires tree.Valid() && tree.leaves == Leaves(w.mode, entries)
      requires map_.Valid() && map_.D == DEPTH && map_.values == Latest(entries)
      requires ListsOk() && OwnersOk() && MarkOk(entries, signedFrom)
      ensures InStep()
    {
    }
  }

  lemma MarkNext(es: seq<LogEntry>, from: Option<nat>, e: LogEntry)
    requires MarkOk(es, from)
    ensures e.sig.Some? ==> (if from.Some? then from else Some(|es|)) == FirstSigned(es + [e])
    ensures e.sig.Some? ==> MarkOk(es, if from.Some? then from else Some(|es|))
    ensures e.sig.None? && from.None? ==> FirstSigned(es + [e]) == None
    ensures FirstSigned(es).Some? ==> from.Some?
  {
    assert (es + [e])[..|es|] == es;
  }

  lemma AcceptsUnsigned(w: World, es: seq<LogEntry>, e: LogEntry)
    requires Accepts(w, es, None, e)
    ensures e.sig.None? ==> FirstSigned(es).None?
  {
    hide FirstSigned, Rule.Step, RuleState;
  }

  /** Where a boundary is set when none was recorded. */
  function BoundaryOf(es: seq<LogEntry>): int {
    if FirstSigned(es).Some? then FirstSigned(es).value else |es|
  }

  lemma BoundaryHolds(w: World, es: seq<LogEntry>)
    requires Replays(w, es)
    ensures UnsignedBelow(es, BoundaryOf(es))
  {
    hide Replays, FirstSigned;
    forall i | 0 <= i < |es| && es[i].sig.None?
      ensures i < BoundaryOf(es)
    {
      UnsignedPrefix(w, es, i);
    }
  }

  /** The boundary in force is the recorded one, which the key signed, where one was recorded, and adopted from the entries where none was. */
  predicate BoundaryKept(head: Option<Recorded>, boundary: Option<int>, es: seq<LogEntry>) {
    if head.Some? && head.value.boundary.Some? then
      head.value.boundary.value.sig == OnBoundary(head.value.boundary.value.from) && boundary == Some(head.value.boundary.value.from)
    else boundary == Some(BoundaryOf(es))
  }

  lemma BoundaryKeptNone(boundary: Option<int>, es: seq<LogEntry>)
    requires boundary == Some(BoundaryOf(es))
    ensures forall head: Option<Recorded> :: head.None? || head.value.boundary.None? ==> BoundaryKept(head, boundary, es)
  {
  }

  lemma BoundaryKeptSame(last: Recorded, from: int, es: seq<LogEntry>)
    requires last.boundary == Some(Boundary(from, OnBoundary(from)))
    ensures BoundaryKept(Some(last), Some(from), es)
  {
  }

  /** The boundary in force, written out: what the key signed, or the place of the first signed entry, or the size. */
  lemma BoundaryMeans(head: Option<Recorded>, boundary: Option<int>, es: seq<LogEntry>)
    requires BoundaryKept(head, boundary, es)
    ensures boundary.Some?
    ensures head.Some? && head.value.boundary.Some? ==>
      head.value.boundary.value.sig == OnBoundary(head.value.boundary.value.from) && boundary.value == head.value.boundary.value.from
    ensures head.None? || head.value.boundary.None? ==>
      0 <= boundary.value <= |es| && (forall i :: 0 <= i < boundary.value ==> es[i].sig.None?) &&
      (boundary.value < |es| ==> es[boundary.value].sig.Some?)
  {
    hide FirstSigned;
    FirstSignedIs(es);
  }

  lemma ReplaysAt(w: World, es: seq<LogEntry>, i: nat)
    requires Replays(w, es) && i < |es|
    ensures Accepts(w, es[..i], None, es[i])
  {
  }

  /** A start against a recorded head: the key signed it, and the entries below it are the entries it is the head of. */
  ghost predicate Reproduces(mode: Mode, last: Recorded, hist: seq<LogEntry>, es: seq<LogEntry>) {
    && last.sig == OnHead(last.msg)
    && 0 <= last.msg.size <= |es| && last.msg.size <= |hist|
    && forall i :: 0 <= i < last.msg.size ==> SameLeaf(mode, es[i], hist[i])
  }

  lemma ReproducesIs(mode: Mode, last: Recorded, signed: set<HeadMsg>, hist: seq<LogEntry>, es: seq<LogEntry>)
    requires NoFork(mode, signed, hist) && last.sig == OnHead(last.msg) && last.msg in signed
    requires 0 <= last.msg.size <= |es| && Mth(Leaves(mode, es)[..last.msg.size]) == last.msg.logRoot
    ensures Reproduces(mode, last, hist, es)
  {
    hide Mth, Latest, SameLeaf, Leaves;
    LeavesPrefix(mode, es, last.msg.size);
    HeadReproduces(mode, last.msg, hist, es);
  }

  lemma LeavesPrefix(mode: Mode, es: seq<LogEntry>, n: nat)
    requires n <= |es|
    ensures Leaves(mode, es)[..n] == Leaves(mode, es[..n])
  {
    hide LeafHash;
  }

  /** On the log's own disk the head file passes every check of a start. */
  lemma OwnHeadHolds(mode: Mode, last: Recorded, signed: set<HeadMsg>, hist: seq<LogEntry>)
    requires NoFork(mode, signed, hist) && OwnHead(Some(last), signed, hist)
    ensures last.sig == OnHead(last.msg) && 0 <= last.msg.size <= |hist|
    ensures Mth(Leaves(mode, hist)[..last.msg.size]) == last.msg.logRoot
    ensures last.boundary.Some? ==>
      last.boundary.value.sig == OnBoundary(last.boundary.value.from) && UnsignedBelow(hist, last.boundary.value.from)
  {
    hide Mth, Latest, Leaves, UnsignedBelow;
    assert Describes(mode, last.msg, hist);
    LeavesPrefix(mode, hist, last.msg.size);
  }

  lemma OwnMeans(w: World, c: Codec, data: Bytes, head: Option<Recorded>, signed: set<HeadMsg>, hist: seq<LogEntry>)
    requires Own(w, c, data, head, signed, hist)
    ensures Whole(c, data) && Lines(c, data) == hist && Replays(w, hist) && NoFork(w.mode, signed, hist) && OwnHead(head, signed, hist)
  {
  }

  lemma OwnIs(w: World, c: Codec, data: Bytes, head: Option<Recorded>, signed: set<HeadMsg>, hist: seq<LogEntry>)
    requires Whole(c, data) && Lines(c, data) == hist && Replays(w, hist) && NoFork(w.mode, signed, hist) && OwnHead(head, signed, hist)
    ensures Own(w, c, data, head, signed, hist)
  {
  }

  function RecordedOf(h: HeadMsg, boundary: int): Recorded {
    Recorded(h, OnHead(h), Some(Boundary(boundary, OnBoundary(boundary))))
  }

  lemma RecordedIs(h: HeadMsg, boundary: int)
    ensures RecordedOf(h, boundary) == Recorded(h, OnHead(h), Some(Boundary(boundary, OnBoundary(boundary))))
  {
  }

  /** What a write that was cut short left: the file and some of the line. */
  ghost predicate TornAt(data: Bytes, text: Bytes, now: Bytes) {
    exists put :: 0 <= put <= |text| + 1 && now == data + Line(text)[..put]
  }

  lemma AllowedIs(w: World, es: seq<LogEntry>, q: Request, now: int)
    ensures EntryFor(w, es, q, now).sig.Some? && Storable(w.mode, EntryFor(w, es, q, now))
  {
  }

  lemma TornHere(data: Bytes, text: Bytes, now: Bytes)
    requires exists put :: 0 <= put <= |text| + 1 && now == data + Line(text)[..put]
    ensures TornAt(data, text, now)
  {
  }

  /** Queries as the server lets them through. */
  predicate QueriesOk(queries: seq<Query>) {
    forall i :: 0 <= i < |queries| ==> |queries[i].prefix| == DEPTH && queries[i].bits <= MAX_BUCKET_BITS
  }

  lemma QueryOk(queries: seq<Query>, i: nat)
    requires QueriesOk(queries) && i < |queries|
    ensures |queries[i].prefix| == DEPTH && queries[i].bits <= MAX_BUCKET_BITS <= DEPTH
  {
  }

  lemma BucketAsked(es: seq<LogEntry>, q: Query, b: BucketResult, max: nat)
    requires |q.prefix| == DEPTH && q.bits <= DEPTH
    requires b == BucketOf(DEPTH, q.prefix, q.bits, AtMost(max), Latest(es))
    ensures b.Found? <==> |Bucketful(es, q)| <= max
    ensures b.Found? ==> b.leaves == Bucketful(es, q) && BucketBuilt(es, q, ServedBucket(q, BareAll(b.leaves), b.siblings))
  {
    hide Sub, CanonSiblings, Latest, Canon;
  }

  lemma NoQueries(es: seq<LogEntry>)
    ensures AllBuilt(es, [], []) && LeafList(es, []) == []
  {
  }

  lemma OneBuilt(es: seq<LogEntry>, queries: seq<Query>, n: nat, out: seq<ServedBucket>, b: BucketResult)
    requires n < |queries| && AllBuilt(es, queries[..n], out)
    requires b.Found? && BucketBuilt(es, queries[n], ServedBucket(queries[n], BareAll(b.leaves), b.siblings))
    ensures AllBuilt(es, queries[..n + 1], out + [ServedBucket(queries[n], BareAll(b.leaves), b.siblings)])
  {
    hide BucketBuilt;
  }

  lemma BuiltEach(es: seq<LogEntry>, queries: seq<Query>, bs: seq<ServedBucket>)
    requires AllBuilt(es, queries, bs)
    ensures |bs| == |queries| && forall i :: 0 <= i < |bs| ==> BucketBuilt(es, queries[i], bs[i])
  {
    hide BucketBuilt;
  }

  lemma BuiltAll(es: seq<LogEntry>, queries: seq<Query>, bs: seq<ServedBucket>)
    requires |bs| == |queries| && forall i :: 0 <= i < |bs| ==> BucketBuilt(es, queries[i], bs[i])
    ensures AllBuilt(es, queries, bs)
  {
    hide BucketBuilt;
  }

  lemma AllLeavesNone(bs: seq<ServedBucket>)
    ensures AllLeaves(bs[..0]) == []
  {
  }

  function NatOf(count: Option<int>): Option<nat> {
    if count.Some? && count.value >= 0 then (var n: nat := count.value; Some(n)) else None
  }

  /** Indices of entries there are. */
  predicate Held(es: seq<LogEntry>, indices: seq<int>) {
    forall i :: 0 <= i < |indices| ==> 0 <= indices[i] < |es|
  }

  function UpTo(start: nat, end: nat): (r: seq<nat>)
    requires start <= end
    ensures |r| == end - start && forall i :: 0 <= i < |r| ==> r[i] == start + i
  {
    seq(end - start, i requires 0 <= i < end - start => start + i)
  }

  lemma HeldUpTo(es: seq<LogEntry>, start: nat, end: nat)
    requires start <= end <= |es|
    ensures Held(es, UpTo(start, end))
  {
  }

  lemma FitMeans(es: seq<LogEntry>, indices: seq<int>, cost: LogEntry -> nat, maxBytes: Option<nat>, n: nat)
    requires forall i :: 0 <= i < |indices| ==> 0 <= indices[i] < |es|
    requires Fitted(es, indices, cost, maxBytes, n)
    ensures n <= |indices| && (indices != [] ==> n >= 1)
  {
    hide Cost;
  }

  lemma NatOfIs(count: Option<int>)
    ensures count.Some? && count.value >= 0 ==> NatOf(count) == Some(count.value)
    ensures count.None? ==> NatOf(count) == None
  {
  }

  lemma ClipWithin(all: seq<nat>, start: nat, count: Option<nat>, n: nat)
    requires forall i :: 0 <= i < |all| ==> all[i] < n
    ensures forall i :: 0 <= i < |Clip(all, start, count)| ==> Clip(all, start, count)[i] < n
    ensures forall es: seq<LogEntry> :: |es| == n ==> Held(es, Clip(all, start, count))
  {
  }

  /** The entry the map's proof names is the label's latest. */
  lemma ProofNames(w: World, es: seq<LogEntry>, l: Label, proof: MapProof)
    requires Replays(w, es) && |l| == DEPTH && IsProof(DEPTH, l, Latest(es), proof)
    ensures proof.leaf.Absent? <==> LatestEntry(es, l).None?
    ensures proof.leaf.Present? ==>
      0 <= proof.leaf.slot.index < |es| && LatestEntry(es, l) == Some(es[proof.leaf.slot.index]) &&
      es[proof.leaf.slot.index].index == proof.leaf.slot.index
  {
    hide Replays, Latest, Positions;
    ReplayedIndexed(w, es);
    LatestIs(es, l);
  }

  lemma LastReplayed(w: World, es: seq<LogEntry>, e: LogEntry)
    requires Hashes(w) && Replays(w, es + [e])
    ensures |e.lbl| == DEPTH
  {
    hide *;
    ReplayedEntry(w, es + [e], |es|);
    assert (es + [e])[|es|] == e;
  }

  lemma AcceptedIndex(w: World, es: seq<LogEntry>, e: LogEntry)
    requires Accepts(w, es, None, e)
    ensures e.index == |es|
  {
  }

  // --- Crashes -----------------------------------------------------------------------------

  /** A crash while an entry was being written: nothing of it is on the disk, or all of it, or a torn line that a repair removes. */
  lemma CrashInWrite(w: World, c: Codec, data: Bytes, head: Option<Recorded>, signed: set<HeadMsg>, hist: seq<LogEntry>,
                     e: LogEntry, now: Bytes)
    requires Own(w, c, data, head, signed, hist) && Faithful(w.mode, c) && Storable(w.mode, e)
    requires Accepts(w, hist, None, e) && e.sig.Some? && TornAt(data, c.line(e), now)
    ensures
      || Own(w, c, now, head, signed, hist)
      || Own(w, c, now, head, signed, hist + [e])
      || (!Whole(c, now) && Own(w, c, now[..Complete(now)], head, signed, hist))
  {
    hide *;
    OwnMeans(w, c, data, head, signed, hist);
    var put := TornWhere(data, c.line(e), now);
    if put == 0 {
      assert Line(c.line(e))[..0] == "" && data + "" == data;
    } else if put == |c.line(e)| + 1 {
      assert Line(c.line(e))[..put] == Line(c.line(e));
      LineAdded(w.mode, c, data, e);
      ReplaysOne(w, hist, e);
      NoForkMore(w.mode, signed, hist, [e]);
      OwnHeadMore(head, signed, hist, e);
      OwnIs(w, c, now, head, signed, hist + [e]);
    } else {
      TornLine(w.mode, c, data, e, put);
    }
  }

  lemma TornWhere(data: Bytes, text: Bytes, now: Bytes) returns (put: nat)
    requires TornAt(data, text, now)
    ensures put <= |text| + 1 && now == data + Line(text)[..put]
  {
    put :| put <= |text| + 1 && now == data + Line(text)[..put];
  }

  lemma OwnHeadMore(head: Option<Recorded>, signed: set<HeadMsg>, hist: seq<LogEntry>, e: LogEntry)
    requires OwnHead(head, signed, hist) && e.sig.Some?
    ensures OwnHead(head, signed, hist + [e])
  {
  }

  lemma TornLine(mode: Mode, c: Codec, data: Bytes, e: LogEntry, put: nat)
    requires Faithful(mode, c) && Storable(mode, e) && Whole(c, data) && 0 < put <= |c.line(e)|
    ensures var now := data + Line(c.line(e))[..put]; !Whole(c, now) && now[..Complete(now)] == data
  {
    hide Plain, Line, Complete;
    var torn := Line(c.line(e))[..put];
    assert torn == Line(c.line(e))[..|c.line(e)|][..put];
    assert forall i :: 0 <= i < put ==> torn[i] == c.line(e)[i];
    TornIsUnterminated(data, torn, c.parse);
    RepairUndoes(data, torn, c.parse);
  }

  // --- No fork -----------------------------------------------------------------------------

  /** Any two heads ever signed are of one history: the consistency proof from the smaller to the larger verifies. */
  lemma HeadsConsist(mode: Mode, signed: set<HeadMsg>, hist: seq<LogEntry>, a: HeadMsg, b: HeadMsg)
    requires NoFork(mode, signed, hist) && a in signed && b in signed && 0 < a.size <= b.size
    ensures b.size <= |hist|
    ensures Consistent(a.size, b.size, a.logRoot, b.logRoot, Proof(a.size, Leaves(mode, hist[..b.size])))
  {
    hide Mth, Latest, Leaves, Consistent, Proof, Canon;
    assert Describes(mode, a, hist) && Describes(mode, b, hist);
    var d := Leaves(mode, hist[..b.size]);
    LeavesPrefix(mode, hist[..b.size], a.size);
    assert hist[..b.size][..a.size] == hist[..a.size];
    ConsistencyExact(d, a.size, a.logRoot, Proof(a.size, d));
  }
}
