/**
 The mirror (kt/lib/mirror.js): it holds a copy of the log, extends it by one sync at a time over
 a transport that may fail or be wrong, and is poisoned for good when the log contradicts itself.
 Its directory survives a crash at any byte.
 */
module Mirrors {
  import opened Options
  import opened Digests
  import opened SparseMap
  import opened CompactMap
  import opened LogTree
  import opened LogVerify
  import opened PowerTest
  import opened MerkleLogs
  import opened RecordCodec
  import opened LogState
  import opened FileStore
  import opened KtLogs
  import opened MirrorState
  import Rule = OwnerRule

  /** sth.json: not there, unreadable, or a head with its signature. */
  datatype HeadOnDisk = NoHead | Garbage | OnFile(msg: HeadMsg, sig: Signature)

  /** The entries file and sth.json. */
  type MirrorDir = Directory<HeadOnDisk>

  /** What a fetch brings: an ordinary error, a body of the wrong shape, or a body. */
  datatype Resp<T> = Fail | Misshapen | Body(value: T)

  datatype SignedHead = SignedHead(msg: HeadMsg, sig: Signature)

  datatype Extension = Extension(first: int, second: int, proof: seq<Digest>)

  /** An element of a page: malformed, with a value that does not hash to its commitment, or an entry. */
  datatype Element = Malformed | WrongHash | Item(entry: LogEntry)

  /** An entry's line parses to what entryFromJson lets through. */
  ghost predicate Lets(mode: Mode, c: Codec) {
    && (forall b: Bytes :: c.parse(b).Some? ==> Shaped(mode, c.parse(b).value))
    && (forall e :: Shaped(mode, e) ==> GoodLine(c.line(e)) && c.parse(c.line(e)) == Some(e))
  }

  predicate Verifies(h: SignedHead) {
    h.msg.size >= 0 && h.msg.ts >= 0 && h.sig == OnHead(h.msg)
  }

  // --- The directory ----------------------------------------------------------------------

  /** A verified directory: the head, and the entries it is the head of, a line each. */
  ghost predicate Clean(w: World, c: Codec, clean: Bytes, head: HeadOnDisk, held: seq<LogEntry>) {
    match head
    case NoHead => clean == "" && held == []
    case Garbage => false
    case OnFile(h, sig) =>
      && Verifies(SignedHead(h, sig)) && h == HeadOf(w.mode, held, h.ts)
      && Whole(c, clean) && Lines(c, clean) == held && Holds(w, held)
  }

  /** A directory of this mirror's at one time: its verified part, and whatever came after it. */
  ghost predicate OwnState(w: World, c: Codec, s: Snapshot<HeadOnDisk>, clean: Bytes, held: seq<LogEntry>) {
    Clean(w, c, clean, s.head, held) && (s.head.OnFile? ==> clean <= s.data)
  }

  /** Every state since the first ones is of this verified part, under this head. */
  ghost predicate AllOwnStates(w: World, c: Codec, before: seq<Snapshot<HeadOnDisk>>, after: seq<Snapshot<HeadOnDisk>>,
                               clean: Bytes, held: seq<LogEntry>, head: HeadOnDisk) {
    before <= after && forall i :: |before| <= i < |after| ==> after[i].head == head && OwnState(w, c, after[i], clean, held)
  }

  /** A state of the verified part from before, under its head, or of the new one under a head of its own. */
  ghost predicate SafeState(w: World, c: Codec, s: Snapshot<HeadOnDisk>, clean: Bytes, held: seq<LogEntry>, head: HeadOnDisk,
                            clean': Bytes, held': seq<LogEntry>) {
    (s.head == head && OwnState(w, c, s, clean, held)) || (s.head.OnFile? && OwnState(w, c, s, clean', held'))
  }

  ghost predicate AllSafe(w: World, c: Codec, before: seq<Snapshot<HeadOnDisk>>, after: seq<Snapshot<HeadOnDisk>>,
                          clean: Bytes, held: seq<LogEntry>, head: HeadOnDisk, clean': Bytes, held': seq<LogEntry>) {
    before <= after && forall i :: |before| <= i < |after| ==> SafeState(w, c, after[i], clean, held, head, clean', held')
  }

  lemma StatesNone(w: World, c: Codec, states: seq<Snapshot<HeadOnDisk>>, clean: Bytes, held: seq<LogEntry>, head: HeadOnDisk)
    ensures AllOwnStates(w, c, states, states, clean, held, head)
  {
  }

  lemma StatesMore(w: World, c: Codec, before: seq<Snapshot<HeadOnDisk>>, after: seq<Snapshot<HeadOnDisk>>, s: Snapshot<HeadOnDisk>,
                   clean: Bytes, held: seq<LogEntry>)
    requires AllOwnStates(w, c, before, after, clean, held, s.head) && OwnState(w, c, s, clean, held)
    ensures AllOwnStates(w, c, before, after + [s], clean, held, s.head)
  {
    hide OwnState;
  }

  lemma StatesThen(w: World, c: Codec, before: seq<Snapshot<HeadOnDisk>>, middle: seq<Snapshot<HeadOnDisk>>,
                   after: seq<Snapshot<HeadOnDisk>>, clean: Bytes, held: seq<LogEntry>, head: HeadOnDisk)
    requires AllOwnStates(w, c, before, middle, clean, held, head) && AllOwnStates(w, c, middle, after, clean, held, head)
    ensures AllOwnStates(w, c, before, after, clean, held, head)
  {
    hide OwnState;
    forall i | |before| <= i < |after|
      ensures after[i].head == head && OwnState(w, c, after[i], clean, held)
    {
      assert i < |middle| ==> after[i] == middle[i];
    }
  }

  lemma StatesSafe(w: World, c: Codec, before: seq<Snapshot<HeadOnDisk>>, after: seq<Snapshot<HeadOnDisk>>,
                   clean: Bytes, held: seq<LogEntry>, head: HeadOnDisk, clean': Bytes, held': seq<LogEntry>)
    requires AllOwnStates(w, c, before, after, clean, held, head)
    ensures AllSafe(w, c, before, after, clean, held, head, clean', held')
  {
    hide OwnState;
  }

  lemma SafeMore(w: World, c: Codec, before: seq<Snapshot<HeadOnDisk>>, after: seq<Snapshot<HeadOnDisk>>, s: Snapshot<HeadOnDisk>,
                 clean: Bytes, held: seq<LogEntry>, head: HeadOnDisk, clean': Bytes, held': seq<LogEntry>)
    requires AllSafe(w, c, before, after, clean, held, head, clean', held') && s.head.OnFile? && OwnState(w, c, s, clean', held')
    ensures AllSafe(w, c, before, after + [s], clean, held, head, clean', held')
  {
    hide OwnState;
  }

  lemma SafeThen(w: World, c: Codec, before: seq<Snapshot<HeadOnDisk>>, middle: seq<Snapshot<HeadOnDisk>>,
                 after: seq<Snapshot<HeadOnDisk>>, clean: Bytes, held: seq<LogEntry>, head: HeadOnDisk, clean': Bytes, held': seq<LogEntry>)
    requires AllOwnStates(w, c, before, middle, clean, held, head) && AllSafe(w, c, middle, after, clean, held, head, clean', held')
    ensures AllSafe(w, c, before, after, clean, held, head, clean', held')
  {
    hide OwnState;
    forall i | |before| <= i < |after|
      ensures SafeState(w, c, after[i], clean, held, head, clean', held')
    {
      if i < |middle| {
        assert after[i] == middle[i] && OwnState(w, c, middle[i], clean, held);
      } else {
        assert SafeState(w, c, after[i], clean, held, head, clean', held');
      }
    }
  }

  /** However much of a spool is on the file, the verified part stands. */
  lemma SpoolStates(w: World, c: Codec, before: seq<Snapshot<HeadOnDisk>>, after: seq<Snapshot<HeadOnDisk>>, was: Snapshot<HeadOnDisk>,
                    spool: Bytes, clean: Bytes, held: seq<LogEntry>)
    requires OwnState(w, c, was, clean, held) && AllSpooling(before, after, was, spool)
    ensures AllOwnStates(w, c, before, after, clean, held, was.head)
  {
    hide Clean;
    forall i | |before| <= i < |after|
      ensures after[i].head == was.head && OwnState(w, c, after[i], clean, held)
    {
      assert Spooling(was, spool, after[i]);
    }
  }

  /** writeAll: every byte, or a part of them and an error. */
  method WriteAll(dir: MirrorDir, bytes: Bytes, writes: seq<nat>) returns (ok: bool)
    modifies dir
    ensures ok <==> Puts(writes, |bytes|)
    ensures ok ==> dir.Data() == old(dir.Data()) + bytes
    ensures exists put :: 0 <= put <= |bytes| && dir.Data() == old(dir.Data()) + bytes[..put]
    ensures dir.Head() == old(dir.Head()) && AllSpooling(old(dir.later), dir.later, old(dir.Now()), bytes)
  {
    hide AllSpooling, Spooling, Landing, Directory.Now, Directory.Data, Directory.Head, Directory.At;
    ghost var was := dir.Now();
    var put, k := 0, 0;
    assert writes[0..] == writes;
    dir.NowIs();
    SpoolingStart(dir.later, was, bytes);
    assert was.data + bytes[..0] == was.data;
    while put < |bytes|
      invariant 0 <= put <= |bytes| && 0 <= k <= |writes|
      invariant dir.Data() == was.data + bytes[..put] && dir.Head() == was.head && AllSpooling(old(dir.later), dir.later, was, bytes)
      invariant Puts(writes, |bytes|) <==> Puts(writes[k..], |bytes| - put)
    {
      var n := if k < |writes| && writes[k] < |bytes| - put then writes[k] else |bytes| - put;
      if k < |writes| {
        assert writes[k..][1..] == writes[k + 1..];
        k := k + 1;
      }
      if n == 0 {
        return false;
      }
      dir.NowIs();
      SpoolingMore(old(dir.later), dir.later, was, bytes, dir.Now(), put, n);
      dir.Put(bytes[put..put + n]);
      assert bytes[..put + n] == bytes[..put] + bytes[put..put + n];
      put := put + n;
    }
    assert bytes[..put] == bytes;
    ok := true;
  }

  /** The lines a sync spools. */
  function Spooled(c: Codec, es: seq<LogEntry>): Bytes {
    if es == [] then "" else Spooled(c, es[..|es| - 1]) + Line(c.line(es[|es| - 1]))
  }

  ghost predicate AllShaped(mode: Mode, es: seq<LogEntry>) {
    forall i :: 0 <= i < |es| ==> Shaped(mode, es[i])
  }

  /** The spool on the end of a clean file is its entries more. */
  lemma {:induction false} SpoolReads(mode: Mode, c: Codec, clean: Bytes, es: seq<LogEntry>)
    requires Lets(mode, c) && AllShaped(mode, es) && Whole(c, clean)
    ensures Whole(c, clean + Spooled(c, es)) && Lines(c, clean + Spooled(c, es)) == Lines(c, clean) + es
  {
    hide Plain, Line, GoodLine, Shaped;
    if es == [] {
      assert clean + "" == clean;
    } else {
      var init, last := es[..|es| - 1], es[|es| - 1];
      SpoolReads(mode, c, clean, init);
      AppendAddsOne(clean + Spooled(c, init), c.line(last), c.parse);
      assert clean + Spooled(c, es) == clean + Spooled(c, init) + Line(c.line(last));
    }
  }

  // --- Reading the entries file up to the head -----------------------------------------------

  ghost predicate Scanning(file: Bytes, parse: Bytes -> Option<LogEntry>, want: nat,
                           got: seq<LogEntry>, rest: Bytes, from: nat, restAt: nat, read: nat) {
    && restAt <= read <= |file| && from <= |rest| && rest == file[restAt..read] && |got| <= want
    && AfterGot(got, Upto(file, restAt + from, want - |got|, parse)) == Upto(file, 0, want, parse)
  }

  lemma ScanningStarts(file: Bytes, parse: Bytes -> Option<LogEntry>, want: nat)
    ensures Scanning(file, parse, want, [], "", 0, 0, 0)
  {
    hide Upto;
  }

  lemma ScanningMeans(file: Bytes, parse: Bytes -> Option<LogEntry>, want: nat, got: seq<LogEntry>, rest: Bytes,
                      from: nat, restAt: nat, read: nat)
    requires Scanning(file, parse, want, got, rest, from, restAt, read)
    ensures restAt <= read <= |file| && from <= |rest| && rest == file[restAt..read] && |rest| == read - restAt && |got| <= want
  {
  }

  lemma ScanMore(file: Bytes, parse: Bytes -> Option<LogEntry>, want: nat, got: seq<LogEntry>, rest: Bytes,
                 restAt: nat, read: nat, n: nat)
    requires Scanning(file, parse, want, got, rest, 0, restAt, read) && read + n <= |file|
    ensures Scanning(file, parse, want, got, rest + file[read..read + n], 0, restAt, read + n)
  {
    hide Upto, AfterGot;
    assert file[restAt..read] + file[read..read + n] == file[restAt..read + n];
  }

  lemma ScanLine(file: Bytes, parse: Bytes -> Option<LogEntry>, want: nat, got: seq<LogEntry>, rest: Bytes,
                 from: nat, restAt: nat, read: nat, nl: nat)
    requires Scanning(file, parse, want, got, rest, from, restAt, read) && |got| < want
    requires IndexOf(rest, from) == Some(nl)
    ensures nl == from ==> Scanning(file, parse, want, got, rest, nl + 1, restAt, read)
    ensures nl > from && !parse(rest[from..nl]).Some? ==> Upto(file, 0, want, parse) == BadLine
    ensures nl > from && parse(rest[from..nl]).Some? ==>
      Scanning(file, parse, want, got + [parse(rest[from..nl]).value], rest, nl + 1, restAt, read)
  {
    hide *;
    ScanningMeans(file, parse, want, got, rest, from, restAt, read);
    ScanningSays(file, parse, want, got, rest, from, restAt, read);
    InFile(file, restAt, read, rest, from, nl);
    var off, k := restAt + from, want - |got|;
    UptoStep(file, off, k, parse);
    if nl == from {
      ScanningIs(file, parse, want, got, rest, nl + 1, restAt, read);
    } else if parse(rest[from..nl]).Some? {
      var e := parse(rest[from..nl]).value;
      AfterPrepend(got, e, Upto(file, restAt + nl + 1, k - 1, parse));
      ScanningIs(file, parse, want, got + [e], rest, nl + 1, restAt, read);
    } else {
      AfterBad(got);
    }
  }

  lemma ScanningSays(file: Bytes, parse: Bytes -> Option<LogEntry>, want: nat, got: seq<LogEntry>, rest: Bytes,
                     from: nat, restAt: nat, read: nat)
    requires Scanning(file, parse, want, got, rest, from, restAt, read)
    ensures restAt + from <= |file| && |got| <= want
    ensures AfterGot(got, Upto(file, restAt + from, want - |got|, parse)) == Upto(file, 0, want, parse)
  {
    hide Upto, AfterGot;
  }

  lemma ScanningIs(file: Bytes, parse: Bytes -> Option<LogEntry>, want: nat, got: seq<LogEntry>, rest: Bytes,
                   from: nat, restAt: nat, read: nat)
    requires restAt <= read <= |file| && from <= |rest| && rest == file[restAt..read] && |rest| == read - restAt && |got| <= want
    requires AfterGot(got, Upto(file, restAt + from, want - |got|, parse)) == Upto(file, 0, want, parse)
    ensures Scanning(file, parse, want, got, rest, from, restAt, read)
  {
    hide Upto, AfterGot;
  }

  lemma AfterBad(got: seq<LogEntry>)
    ensures AfterGot(got, BadLine) == BadLine
  {
  }

  lemma UptoStep(file: Bytes, off: nat, want: nat, parse: Bytes -> Option<LogEntry>)
    requires off <= |file| && Newline(file, off) < |file| && want > 0
    ensures var nl := Newline(file, off);
      Upto(file, off, want, parse) ==
      if nl == off then Upto(file, off + 1, want, parse)
      else if !parse(file[off..nl]).Some? then BadLine
      else Prepend(parse(file[off..nl]).value, Upto(file, nl + 1, want - 1, parse))
  {
    hide Newline, Prepend;
  }

  lemma ScanDrop(file: Bytes, parse: Bytes -> Option<LogEntry>, want: nat, got: seq<LogEntry>, rest: Bytes,
                 from: nat, restAt: nat, read: nat)
    requires Scanning(file, parse, want, got, rest, from, restAt, read)
    ensures Scanning(file, parse, want, got, rest[from..], 0, restAt + from, read)
  {
    hide Upto, AfterGot;
    assert file[restAt..read][from..] == file[restAt + from..read];
  }

  lemma ScanEnds(file: Bytes, parse: Bytes -> Option<LogEntry>, want: nat, got: seq<LogEntry>, rest: Bytes, restAt: nat, read: nat)
    requires Scanning(file, parse, want, got, rest, 0, restAt, read)
    requires |got| == want || (read == |file| && NEWLINE !in rest)
    ensures Upto(file, 0, want, parse) == Loading(got, restAt)
  {
    hide Newline;
    if |got| < want {
      assert file[restAt..] == rest;
      forall i | restAt <= i < |file|
        ensures file[i] != NEWLINE
      {
        assert file[i] == rest[i - restAt];
      }
      NoNewline(file, restAt);
    }
  }

  /** load's reader: a window at a time, to the head's size; what follows is not looked at. */
  method ReadUpTo(file: Bytes, want: nat, window: nat, parse: Bytes -> Option<LogEntry>) returns (r: Loading)
    requires window >= 1
    ensures r == Upto(file, 0, want, parse)
  {
    hide *;
    var rest, restAt, read, got := "", 0, 0, [];
    var done := false;
    ScanningStarts(file, parse, want);
    while !done && |got| < want
      invariant Scanning(file, parse, want, got, rest, 0, restAt, read)
      invariant read <= |file| && |got| <= want
      invariant |got| < want ==> NEWLINE !in rest
      invariant done ==> read == |file|
      decreases |file| - read, if done then 0 else 1
    {
      var n := if |file| - read < window then |file| - read else window;
      ScanMore(file, parse, want, got, rest, restAt, read, n);
      if n == 0 {
        done := true;
        assert rest + file[read..read + n] == rest;
      } else {
        rest := rest + file[read..read + n];
        read := read + n;
        var from, searching := 0, true;
        while searching && |got| < want
          invariant Scanning(file, parse, want, got, rest, from, restAt, read)
          invariant from <= |rest| && |got| <= want
          invariant !searching ==> NEWLINE !in rest[from..]
          decreases |rest| - from, if searching then 1 else 0
        {
          var nl := IndexOf(rest, from);
          if !nl.Some? {
            IndexNone(nl);
            NoIndex(rest, from);
            searching := false;
          } else {
            ScanLine(file, parse, want, got, rest, from, restAt, read, nl.value);
            if nl.value > from {
              var e := parse(rest[from..nl.value]);
              if !e.Some? {
                return BadLine;
              }
              got := got + [e.value];
              ScanningMeans(file, parse, want, got, rest, nl.value + 1, restAt, read);
            }
            from := nl.value + 1;
          }
        }
        ScanDrop(file, parse, want, got, rest, from, restAt, read);
        rest := rest[from..];
        restAt := restAt + from;
        done := n < window && rest == "";
      }
    }
    ScanEnds(file, parse, want, got, rest, restAt, read);
    r := Loading(got, restAt);
  }

  lemma IndexNone(o: Option<nat>)
    requires !o.Some?
    ensures o.None?
  {
  }

  // --- The mirror ------------------------------------------------------------------------

  datatype AppendOutcome = Appended | Diverges | Unencodable

  /** Diverged is the log's doing, and for good; a head that is not the log's, and a failure, are asked again at the next sync. */
  datatype SyncResult = Synced(from: nat, to: nat) | Forged | Diverged | Failed

  /** How far a sync got before its commit. */
  datatype Step = Grown | Contradicts | Retry

  datatype Fetched = Fetched(entries: seq<LogEntry>, over: Rule.Owners, broken: bool) | FetchFailed | FetchDiverged

  /** A step of the owner rule, in the table: what InTable says of the next entry. */
  lemma TableHold(owners: map<Label, OwnerRc>, w: World, es: seq<LogEntry>, e: LogEntry, s: Rule.Owner, l: Label)
    requires RuleRun(w, es).Ok? && Rule.Step(w.rule, RuleState(w, es, e.lbl), RuleEntry(e)) == Ok(s)
    requires InTable(owners, w, es, l)
    ensures RuleRun(w, es + [e]).Ok? && InTable(owners[e.lbl := OwnerRc(s.key, s.rc)], w, es + [e], l)
  {
    hide Rule.Step, RuleRun;
    RuleRunOne(w, es, e);
  }

  lemma RuleOneMore(w: World, es: seq<LogEntry>, e: LogEntry)
    requires RuleRun(w, es).Ok?
    ensures RuleRun(w, es + [e]).Ok? <==> Rule.Step(w.rule, RuleState(w, es, e.lbl), RuleEntry(e)).Ok?
  {
    hide Rule.Step, RuleRun;
    RuleRunOne(w, es, e);
  }

  lemma LatestEntryMore(es: seq<LogEntry>, e: LogEntry, l: Label)
    ensures LatestEntry(es + [e], l) == if e.lbl == l then Some(e) else LatestEntry(es, l)
  {
    hide Positions;
    OneMorePosition(es, e, l);
  }

  class Mirror {
    const w: World
    const codec: Codec
    const dir: MirrorDir
    const maxEntries: nat

    var tree: MerkleLog
    var map_: SparseMerkleMap
    var entries: seq<LogEntry>
    var latestVersion: map<Label, int>
    var owners: map<Label, OwnerRc>
    /** The last head this mirror verified. */
    var head: Option<HeadMsg>
    var poisoned: bool
    var needsReload: bool
    /** Bytes load dropped from the end of the entries file. */
    var repaired: nat
    /** The verified part of the directory: its bytes and its entries. */
    ghost var clean: Bytes
    ghost var held: seq<LogEntry>

    ghost predicate TreeOk()
      reads `entries, `tree, tree, tree.memo
    {
      tree.Valid() && tree.leaves == Leaves(w.mode, entries)
    }

    ghost predicate MapOk()
      reads `entries, `map_, map_
    {
      map_.Valid() && map_.D == DEPTH && map_.values == Latest(entries)
    }

    ghost predicate VersionsOk()
      reads `entries, `latestVersion
    {
      forall l :: (l in latestVersion <==> LatestEntry(entries, l).Some?) &&
        (l in latestVersion ==> latestVersion[l] == LatestEntry(entries, l).value.version)
    }

    /** Entries, trees and versions in step. */
    ghost predicate Core()
      reads `entries, `latestVersion, `tree, tree, tree.memo, `map_, map_
    {
      Follows(w.mode, entries) && TreeOk() && MapOk() && VersionsOk()
    }

    /** The owner table after these entries. */
    ghost predicate Tabled(es: seq<LogEntry>)
      reads `owners
    {
      w.mode.Handles? ==> RuleRun(w, es).Ok? && forall l :: InTable(owners, w, es, l)
    }

    function HeadSize(): nat
      reads `head
    {
      if head.Some? && head.value.size >= 0 then head.value.size else 0
    }

    /** Memory is what the last verified head describes. */
    ghost predicate AtHead()
      reads `entries, `latestVersion, `owners, `head, `tree, tree, tree.memo, `map_, map_
    {
      && Core() && Tabled(entries)
      && (if head.Some? then head.value == HeadOf(w.mode, entries, head.value.ts) else entries == [])
    }

    constructor (w: World, codec: Codec, dir: MirrorDir, maxEntries: nat)
      ensures this.w == w && this.codec == codec && this.dir == dir && this.maxEntries == maxEntries
      ensures fresh(tree) && fresh(tree.memo) && fresh(map_)
      ensures AtHead() && entries == [] && head == None && !poisoned && !needsReload
    {
      this.w, this.codec, this.dir, this.maxEntries := w, codec, dir, maxEntries;
      tree := new MerkleLog();
      map_ := new SparseMerkleMap(DEPTH);
      entries, latestVersion, owners, head := [], map[], map[], None;
      poisoned, needsReload, repaired := false, false, 0;
      clean, held := "", [];
      new;
      RuleRunNone(w);
    }

    /** What _reload starts from: nothing in memory. */
    method Forget()
      modifies `tree, `map_, `entries, `latestVersion, `owners, `head
      ensures fresh(tree) && fresh(tree.memo) && fresh(map_)
      ensures AtHead() && entries == [] && head == None
    {
      hide *;
      tree := new MerkleLog();
      map_ := new SparseMerkleMap(DEPTH);
      entries, latestVersion, owners, head := [], map[], map[], None;
      NothingAtHead();
    }

    lemma NothingAtHead()
      requires tree.Valid() && tree.leaves == [] && map_.Valid() && map_.D == DEPTH && map_.values == map[]
      requires entries == [] && latestVersion == map[] && owners == map[] && head == None
      ensures AtHead()
    {
      RuleRunNone(w);
    }

    /** The directory is this mirror's own: a verified part, and whatever a crash left after it. */
    ghost predicate OwnDir(clean: Bytes, held: seq<LogEntry>)
      reads dir
    {
      OwnState(w, codec, dir.Now(), clean, held)
    }

    /**
     load: the head first, then as many lines as it covers; what is after them is cut off. On any
     directory a load that succeeds leaves the state its head describes. On the mirror's own it
     succeeds, with the verified entries and exactly their bytes; before the first head, only
     an empty file opens.
     */
    method Load(window: nat, ghost clean: Bytes, ghost held: seq<LogEntry>) returns (ok: bool)
      requires AtHead() && entries == [] && head == None && window >= 1 && Lets(w.mode, codec)
      requires dir.Head().OnFile? ==> dir.Head().msg.size < WORD
      modifies `entries, `latestVersion, `owners, `head, `needsReload, `repaired, tree, tree.memo, map_, dir
      ensures ok ==> AtHead() && !needsReload && HeadIs(dir.Head(), head)
      ensures !ok ==> needsReload == old(needsReload)
      ensures old(OwnDir(clean, held)) && dir.Head().OnFile? ==>
        ok && entries == held && dir.Data() == clean && repaired == |old(dir.Data())| - |clean|
      ensures old(OwnDir(clean, held)) && dir.Head().NoHead? ==>
        (ok <==> old(dir.Data()) == "") && dir.Data() == old(dir.Data()) && (ok ==> entries == held)
      ensures dir.Head() == old(dir.Head()) && old(dir.later) <= dir.later
      ensures old(OwnDir(clean, held)) ==> AllOwnStates(w, codec, old(dir.later), dir.later, clean, held, old(dir.Head()))
    {
      hide *;
      ghost var own := OwnDir(clean, held);
      StatesNone(w, codec, dir.later, clean, held, dir.Head());
      if own {
        OwnMeans(clean, held);
        if dir.Head().OnFile? {
          HeadFields(w.mode, held, dir.Head().msg.ts);
        }
      }
      AtHeadMeans();
      WordIs();
      repaired := 0;
      if dir.Head().Garbage? {
        return false;
      }
      if dir.Head().OnFile? {
        head := Some(dir.Head().msg);
        if !Verifies(SignedHead(dir.Head().msg, dir.Head().sig)) {
          return false;
        }
        VerifiedSize(dir.Head().msg, dir.Head().sig);
      }
      var want: nat := if dir.Head().OnFile? then dir.Head().msg.size else 0;
      var read := ReadUpTo(dir.Data(), want, window, codec.parse);
      if own {
        OwnReads(clean, held, read);
      }
      if !read.Loading? {
        return false;
      }
      ReadShaped(w.mode, codec, dir.Data(), 0, want, read);
      if own && !dir.Head().OnFile? {
        HoldsNothing(w);
      }
      var taken := TakeAll(read.got, own);
      if !taken {
        return false;
      }
      if dir.Head().OnFile? {
        if |entries| != want {
          return false;
        }
        ReadWithin(dir.Data(), want, codec.parse, read);
        if read.at < |dir.Data()| {
          repaired := |dir.Data()| - read.at;
          if own {
            OwnCut(w, codec, dir.Head(), dir.Data()[..read.at], clean, held);
            StatesMore(w, codec, dir.later, dir.later, Snapshot(dir.Data()[..read.at], dir.Head()), clean, held);
          }
          dir.Truncate(read.at);
        }
        var same := SameRoots(dir.Head().msg);
        if !same {
          return false;
        }
      } else if dir.Data() != "" {
        return false;
      }
      needsReload := false;
      HeadIsNow(dir.Head(), head);
      if dir.Head().OnFile? {
        HeadFields(w.mode, entries, dir.Head().msg.ts);
      }
      AtHeadIs();
      ok := true;
    }

    lemma OwnMeans(clean: Bytes, held: seq<LogEntry>)
      requires OwnDir(clean, held)
      ensures !dir.Head().Garbage? && (dir.Head().NoHead? ==> clean == "" && held == []) && Clean(w, codec, clean, dir.Head(), held)
      ensures dir.Head().OnFile? ==>
        Verifies(SignedHead(dir.Head().msg, dir.Head().sig)) && dir.Head().msg == HeadOf(w.mode, held, dir.Head().msg.ts) &&
        Whole(codec, clean) && Lines(codec, clean) == held && Holds(w, held) && clean <= dir.Data()
    {
    }

    lemma OwnCut(w: World, c: Codec, head: HeadOnDisk, data: Bytes, clean: Bytes, held: seq<LogEntry>)
      requires Clean(w, c, clean, head, held) && clean <= data
      ensures OwnState(w, c, Snapshot(data, head), clean, held)
    {
    }

    lemma OwnReads(clean: Bytes, held: seq<LogEntry>, read: Loading)
      requires OwnDir(clean, held)
      requires read == Upto(dir.Data(), 0, if dir.Head().OnFile? && dir.Head().msg.size >= 0 then dir.Head().msg.size else 0, codec.parse)
      ensures dir.Head().OnFile? ==>
        read == Loading(held, |clean|) && |clean| <= |dir.Data()| && dir.Data()[..|clean|] == clean && dir.Head().msg.size == |held| && Holds(w, held)
      ensures dir.Head().NoHead? ==> read == Loading([], 0)
    {
      hide Plain, Holds, Newline;
      if dir.Head().OnFile? {
        HeadFields(w.mode, held, dir.Head().msg.ts);
        UptoClean(clean, dir.Data()[|clean|..], 0, 0, codec.parse);
        assert clean + dir.Data()[|clean|..] == dir.Data();
      }
    }

    lemma AtHeadMeans()
      requires AtHead()
      ensures Core() && Tabled(entries)
      ensures if head.Some? then head.value == HeadOf(w.mode, entries, head.value.ts) else entries == []
    {
    }

    lemma AtHeadIs()
      requires Core() && Tabled(entries)
      requires if head.Some? then head.value == HeadOf(w.mode, entries, head.value.ts) else entries == []
      ensures AtHead()
    {
    }

    /** The lines of the file, each held to the rule and appended. */
    method TakeAll(all: seq<LogEntry>, ghost own: bool) returns (ok: bool)
      requires Core() && Tabled(entries) && entries == [] && AllShaped(w.mode, all) && |all| < WORD
      requires own ==> Holds(w, all)
      modifies `entries, `latestVersion, `owners, tree, map_
      ensures Core() && (ok ==> Tabled(entries) && entries == all)
      ensures own ==> ok
    {
      hide *;
      for i := 0 to |all|
        invariant Core() && Tabled(entries) && entries == all[..i]
      {
        ShapedAt(w.mode, all, i);
        assert all[..i + 1] == all[..i] + [all[i]];
        if own {
          HoldsAt(w, all, i);
        }
        CoreMeans();
        if w.mode.Handles? {
          var held := HoldToRule(all[i]);
          if !held {
            return false;
          }
        }
        CoreIs();
        var a := Append(all[i]);
        if !a.Appended? {
          return false;
        }
        if !w.mode.Handles? {
          TabledNot(entries);
        }
      }
      assert all[..|all|] == all;
      ok := true;
    }

    lemma TabledNot(es: seq<LogEntry>)
      requires !w.mode.Handles?
      ensures Tabled(es)
    {
    }

    /** Whether the entries give both roots of a head of their number. */
    method SameRoots(h: HeadMsg) returns (same: bool)
      requires Core()
      modifies tree.memo
      ensures Core()
      ensures same <==> h == HeadMsg(h.size, Mth(Leaves(w.mode, entries)), Canon(DEPTH, [], Latest(entries)), h.ts)
    {
      hide *;
      CoreMeans();
      TreeMeans();
      MapMeans();
      assert tree.leaves[..|tree.leaves|] == tree.leaves;
      var logRoot := tree.RootAt(|tree.leaves|);
      var mapRoot := map_.Root();
      same := h == HeadMsg(h.size, logRoot.value, mapRoot, h.ts);
      TreeIs();
      CoreIs();
    }

    lemma CoreMeans()
      requires Core()
      ensures Follows(w.mode, entries) && TreeOk() && MapOk() && VersionsOk()
    {
    }

    lemma CoreIs()
      requires Follows(w.mode, entries) && TreeOk() && MapOk() && VersionsOk()
      ensures Core()
    {
    }

    lemma TreeMeans()
      requires TreeOk()
      ensures tree.Valid() && tree.leaves == Leaves(w.mode, entries) && |tree.leaves| == |entries|
    {
    }

    lemma TreeIs()
      requires tree.Valid() && tree.leaves == Leaves(w.mode, entries)
      ensures TreeOk()
    {
    }

    lemma MapMeans()
      requires MapOk()
      ensures map_.Valid() && map_.D == DEPTH && map_.values == Latest(entries)
    {
    }

    lemma MapIs()
      requires map_.Valid() && map_.D == DEPTH && map_.values == Latest(entries)
      ensures MapOk()
    {
    }

    twostate lemma VersionsMore(e: LogEntry)
      requires old(VersionsOk()) && entries == old(entries) + [e]
      requires latestVersion == old(latestVersion)[e.lbl := e.version]
      ensures VersionsOk()
    {
      hide LatestEntry;
      forall l
        ensures (l in latestVersion <==> LatestEntry(entries, l).Some?) &&
          (l in latestVersion ==> latestVersion[l] == LatestEntry(entries, l).value.version)
      {
        LatestEntryMore(old(entries), e, l);
      }
    }

    /** Whether _append refuses the entry as the log's doing. */
    method Refuses(e: LogEntry) returns (bad: bool)
      requires VersionsOk()
      ensures bad <==> !Appends(w.mode, entries, e)
    {
      hide LatestEntry;
      if e.index != |entries| {
        return true;
      }
      if w.mode.Kt? && e.lbl in latestVersion && !(e.version > latestVersion[e.lbl]) {
        return true;
      }
      return w.mode.Handles? && !(e.ts >= 0 && e.ts % HOUR == 0);
    }

    /** _append. */
    method Append(e: LogEntry) returns (r: AppendOutcome)
      requires Core() && Shaped(w.mode, e) && |entries| + 1 < WORD
      modifies this`entries, this`latestVersion, tree, map_
      ensures Core()
      ensures r.Diverges? <==> !Appends(w.mode, old(entries), e)
      ensures r.Diverges? <==>
        e.index != |old(entries)| ||
        (w.mode == Kt && exists i :: 0 <= i < |old(entries)| && old(entries)[i].lbl == e.lbl && old(entries)[i].version >= e.version) ||
        (w.mode == Handles && (e.ts < 0 || e.ts % 3_600_000 != 0))
      ensures r.Appended? <==> Appends(w.mode, old(entries), e) && Encodes(e)
      ensures entries == old(entries) + (if r.Appended? then [e] else [])
    {
      hide *;
      CoreMeans();
      AppendsExact(w.mode, entries, e);
      var bad := Refuses(e);
      if bad {
        assert entries + [] == entries;
        return Diverges;
      }
      var encodes := Encodes(e);
      if !encodes {
        assert entries + [] == entries;
        return Unencodable;
      }
      TreeMeans();
      MapMeans();
      OneMoreLeaf(w.mode, entries, e);
      OneMoreLatest(entries, e);
      FollowsOne(w.mode, entries, e);
      ShapedLabel(w.mode, e);
      var i := tree.Append(LeafHash(w.mode, e));
      var set_ := map_.Set(e.lbl, Slot(e.index, e.version));
      entries := entries + [e];
      latestVersion := latestVersion[e.lbl := e.version];
      VersionsMore(e);
      TreeIs();
      MapIs();
      CoreIs();
      r := Appended;
    }

    /** The rule's view: the overlay where it has the label, else the table and the label's latest version. */
    method StateOf(l: Label, over: Rule.Owners) returns (r: Option<Rule.Owner>)
      requires w.mode.Handles? && VersionsOk() && Tabled(entries)
      ensures r == if l in over then Some(over[l]) else RuleState(w, entries, l)
    {
      hide RuleState, RuleRun, LatestEntry;
      RuleVersion(w, entries, l);
      assert InTable(owners, w, entries, l);
      if l in over {
        return Some(over[l]);
      }
      if l !in owners {
        return None;
      }
      r := Some(Rule.Owner(owners[l].key, owners[l].rc, latestVersion[l]));
    }

    /** _holdToRule against the mirror's own table, as load runs it. */
    method HoldToRule(e: LogEntry) returns (ok: bool)
      requires w.mode.Handles? && VersionsOk() && Tabled(entries)
      modifies `owners
      ensures ok <==> RuleRun(w, entries + [e]).Ok?
      ensures ok ==> Tabled(entries + [e])
      ensures !ok ==> owners == old(owners)
    {
      hide *;
      TabledMeans(entries);
      var prev := StateOf(e.lbl, map[]);
      RuleOneMore(w, entries, e);
      var s := Rule.Step(w.rule, prev, RuleEntry(e));
      if !s.Ok? {
        return false;
      }
      var table := owners[e.lbl := OwnerRc(s.value.key, s.value.rc)];
      forall l
        ensures InTable(table, w, entries + [e], l)
      {
        TableHold(owners, w, entries, e, s.value, l);
      }
      owners := table;
      TabledIs(entries + [e]);
      ok := true;
    }

    lemma TabledMeans(es: seq<LogEntry>)
      requires Tabled(es) && w.mode.Handles?
      ensures RuleRun(w, es).Ok? && forall l :: InTable(owners, w, es, l)
    {
    }

    lemma TabledIs(es: seq<LogEntry>)
      requires w.mode.Handles? ==> RuleRun(w, es).Ok? && forall l :: InTable(owners, w, es, l)
      ensures Tabled(es)
    {
    }

    // --- A sync ------------------------------------------------------------------------------

    /** Memory, directory and head are of the same entries. */
    ghost predicate Rest()
      reads this, dir, tree, tree.memo, map_
    {
      AtHead() && entries == held && HeadIs(dir.Head(), head) && dir.Data() == clean
    }

    /**
     Between syncs. What the directory has verified is always there; and memory is that, unless
     the mirror is poisoned or knows it must read the directory again (rule B).
     */
    ghost predicate Valid()
      reads this, dir, tree, tree.memo, map_
    {
      && OwnDir(clean, held) && Lets(w.mode, codec) && maxEntries < WORD && |held| < WORD
      && (poisoned || needsReload || |entries| != HeadSize() || Rest())
      && (dir.Head().NoHead? && dir.Data() != "" ==> needsReload)
    }

    /** A mirror that can still sync: not poisoned, and no entries without a head in its directory. */
    predicate Openable()
      reads `poisoned, dir
    {
      !poisoned && (dir.Head().NoHead? ==> dir.Data() == "")
    }

    lemma OpenableIs()
      ensures Openable() <==> !poisoned && (dir.Head().NoHead? ==> dir.Data() == "")
    {
    }

    lemma RestSays()
      ensures Rest() ==> HeadSize() == |entries|
    {
      hide AtHead;
      if Rest() {
        SizeAtHead();
      }
    }

    /** _reload. */
    method Reload(window: nat) returns (ok: bool)
      requires OwnDir(clean, held) && Lets(w.mode, codec) && |held| < WORD && window >= 1
      modifies `tree, `map_, `entries, `latestVersion, `owners, `head, `needsReload, `repaired, dir
      ensures fresh(tree) && fresh(tree.memo) && fresh(map_)
      ensures OwnDir(clean, held)
      ensures ok ==> Rest() && !needsReload
      ensures !ok ==> dir.Head().NoHead? && dir.Data() != "" && needsReload == old(needsReload)
      ensures dir.Head().NoHead? ==> dir.Data() == old(dir.Data()) && (ok ==> dir.Data() == "")
      ensures dir.Head() == old(dir.Head()) && AllOwnStates(w, codec, old(dir.later), dir.later, clean, held, old(dir.Head()))
    {
      hide *;
      OwnMeans(clean, held);
      if dir.Head().OnFile? {
        HeadFields(w.mode, held, dir.Head().msg.ts);
      }
      Forget();
      OwnIs(clean, held);
      ok := Load(window, clean, held);
      OwnIs(clean, held);
      if ok {
        RestIs();
      }
    }

    lemma OwnIs(c: Bytes, h: seq<LogEntry>)
      requires Clean(w, codec, c, dir.Head(), h) && (dir.Head().OnFile? ==> c <= dir.Data())
      ensures OwnDir(c, h)
    {
    }

    lemma RestIs()
      requires AtHead() && entries == held && HeadIs(dir.Head(), head) && dir.Data() == clean
      ensures Rest()
    {
    }

    lemma RestMeans()
      requires Rest()
      ensures AtHead() && entries == held && HeadIs(dir.Head(), head) && dir.Data() == clean
    {
    }

    /** _recover: memory put back to what the directory says, or a note to do so at the next sync. */
    method Recover(window: nat)
      requires OwnDir(clean, held) && Lets(w.mode, codec) && |held| < WORD && window >= 1
      modifies `tree, `map_, `entries, `latestVersion, `owners, `head, `needsReload, `repaired, dir
      ensures fresh(tree) && fresh(tree.memo) && fresh(map_)
      ensures OwnDir(clean, held) && (needsReload || Rest()) && (dir.Head().NoHead? && dir.Data() != "" ==> needsReload)
      ensures dir.Head() == old(dir.Head()) && AllOwnStates(w, codec, old(dir.later), dir.later, clean, held, old(dir.Head()))
    {
      hide *;
      var ok := Reload(window);
      if !ok {
        OwnMeans(clean, held);
        needsReload := true;
        OwnIs(clean, held);
      }
    }

    /** The owner table as the overlay sees it. */
    ghost function Own(): Rule.Owners
      reads `entries
    {
      if RuleRun(w, entries).Ok? then RuleRun(w, entries).value else map[]
    }

    /** What the overlay holds after these entries; broken once the rule has refused one. */
    ghost predicate Overlaying(fetched: seq<LogEntry>, over: Rule.Owners, broken: bool)
      reads `entries
    {
      w.mode.Handles? ==>
        if broken then Overlaid(w, Own(), fetched).Refused? else Overlaid(w, Own(), fetched) == Ok(over)
    }

    /** One entry under the rule, over the overlay. */
    method Watch(e: LogEntry, ghost fetched: seq<LogEntry>, over0: Rule.Owners, broken0: bool)
      returns (over: Rule.Owners, broken: bool)
      requires VersionsOk() && Tabled(entries) && Overlaying(fetched, over0, broken0)
      ensures Overlaying(fetched + [e], over, broken)
    {
      hide Rule.Step, Rule.OverlayAll, Rule.HoldAll, LatestEntry, InTable, Overlaid, RuleRun;
      over, broken := over0, broken0;
      if !w.mode.Handles? {
        return;
      }
      if broken {
        OverlaidPrefix(w, Own(), fetched, e);
        return;
      }
      OverlaidOne(w, Own(), fetched, e);
      var prev := StateOf(e.lbl, over);
      var s := Rule.Step(w.rule, prev, RuleEntry(e));
      if s.Refused? {
        broken := true;
      } else {
        over := over[e.lbl := s.value];
      }
    }

    /** One page: its entries up to the head's size. */
    method TakePage(els: seq<Element>, size: nat, f: Fetched, ghost hist: seq<LogEntry>) returns (r: Fetched)
      requires VersionsOk() && Tabled(entries) && f.Fetched? && Overlaying(f.entries, f.over, f.broken)
      requires ElementsShaped(w.mode, els) && AllShaped(w.mode, f.entries) && |entries| + |f.entries| <= size
      ensures r.Fetched? ==> Overlaying(r.entries, r.over, r.broken) && AllShaped(w.mode, r.entries)
      ensures r.Fetched? ==> |entries| + |r.entries| == (if |entries| + |f.entries| + |els| < size then |entries| + |f.entries| + |els| else size)
      ensures FaithfulPage(hist, size, |entries| + |f.entries|, els) ==>
        !r.FetchDiverged? && (r.Fetched? && Copied(hist, |entries|, f.entries) ==> Copied(hist, |entries|, r.entries))
      ensures FullPage(hist, size, |entries| + |f.entries|, els) ==> r.Fetched?
    {
      hide *;
      var next := |entries| + |f.entries|;
      var got, over, broken := f.entries, f.over, f.broken;
      ghost var faithful, full := FaithfulPage(hist, size, next, els), FullPage(hist, size, next, els);
      for j := 0 to |els|
        invariant Overlaying(got, over, broken) && AllShaped(w.mode, got) && |got| == |f.entries| + j && next + j <= size
        invariant faithful && Copied(hist, |entries|, f.entries) ==> Copied(hist, |entries|, got)
        modifies {}
      {
        if next + j >= size {
          return Fetched(got, over, broken);
        }
        if faithful {
          PageAt(hist, size, next, els, j);
        }
        if full {
          FullAt(hist, size, next, els, j);
        }
        var el := els[j];
        ElementIs(w.mode, els, j);
        if el.Malformed? {
          return FetchFailed;
        }
        if el.WrongHash? {
          return FetchDiverged;
        }
        var e := el.entry;
        if |e.value| > MAX_VALUE_BYTES {
          return FetchFailed;
        }
        over, broken := Watch(e, got, over, broken);
        if faithful && Copied(hist, |entries|, f.entries) {
          CopiedMore(hist, |entries|, got, e);
        }
        ShapedMore(w.mode, got, e);
        got := got + [e];
      }
      r := Fetched(got, over, broken);
    }

    /** Every page up to the head's size, before any of it is believed. */
    method FetchPages(size: nat, pages: seq<Resp<seq<Element>>>, spoolFails: bool, ghost hist: seq<LogEntry>) returns (r: Fetched)
      requires VersionsOk() && Tabled(entries) && |entries| <= size && PagesShaped(w.mode, pages)
      ensures r.Fetched? ==> |entries| + |r.entries| == size && AllShaped(w.mode, r.entries) && Overlaying(r.entries, r.over, r.broken)
      ensures FaithfulPages(hist, size, |entries|, pages) ==>
        !r.FetchDiverged? && (r.Fetched? ==> Copied(hist, |entries|, r.entries))
      ensures FullPages(hist, size, |entries|, pages) && !spoolFails ==> r.Fetched? && Copied(hist, |entries|, r.entries)
    {
      hide *;
      ghost var faithful, full := FaithfulPages(hist, size, |entries|, pages), FullPages(hist, size, |entries|, pages);
      if full {
        FullFaithful(hist, size, |entries|, pages);
      }
      NothingFetched();
      NothingShaped(w.mode);
      NothingCopied(hist, |entries|);
      var f := Fetched([], map[], false);
      var k := 0;
      PagesFrom(hist, size, |entries|, pages);
      assert pages[0..] == pages;
      while |entries| + |f.entries| < size
        invariant 0 <= k <= |pages| && f.Fetched? && |entries| + |f.entries| <= size
        invariant Overlaying(f.entries, f.over, f.broken) && AllShaped(w.mode, f.entries)
        invariant faithful ==> Copied(hist, |entries|, f.entries)
        invariant faithful && |entries| + |f.entries| < size ==> FaithfulPages(hist, size, |entries| + |f.entries|, pages[k..])
        invariant full && |entries| + |f.entries| < size ==> FullPages(hist, size, |entries| + |f.entries|, pages[k..])
        decreases |pages| - k
        modifies {}
      {
        if full {
          FullNext(hist, size, |entries| + |f.entries|, pages, k);
        }
        if k == |pages| || !pages[k].Body? || pages[k].value == [] {
          return FetchFailed;
        }
        var els := pages[k].value;
        PageShaped(w.mode, pages, k);
        if faithful {
          PagesNext(hist, size, |entries| + |f.entries|, pages, k);
        }
        var g := TakePage(els, size, f, hist);
        if g.FetchDiverged? {
          return FetchDiverged;
        }
        if !g.Fetched? {
          return FetchFailed;
        }
        if spoolFails {
          return FetchFailed;
        }
        f := g;
        k := k + 1;
      }
      r := f;
    }

    /** The delta in memory: appended, held to both roots, and then to the owner rule. */
    method Adopt(h: HeadMsg, f: Fetched) returns (r: AppendOutcome)
      requires Core() && Tabled(entries) && f.Fetched? && AllShaped(w.mode, f.entries)
      requires Overlaying(f.entries, f.over, f.broken) && h.size == |entries| + |f.entries| < WORD
      modifies `entries, `latestVersion, `owners, tree, tree.memo, map_
      ensures r.Appended? ==> Core() && Tabled(entries) && entries == old(entries) + f.entries && h == HeadOf(w.mode, entries, h.ts)
      ensures r.Unencodable? ==> Core() && owners == old(owners) && (entries == old(entries) || |entries| > |old(entries)|)
      ensures old(Holds(w, entries + f.entries)) && h == HeadOf(w.mode, old(entries) + f.entries, h.ts) ==> r.Appended?
      ensures Broken(w.mode, old(entries), f.entries) ==> r.Diverges?
      ensures r.Unencodable? ==> !AllEncode(f.entries)
    {
      hide *;
      ghost var before, all := entries, entries + f.entries;
      ghost var bad := WhereBroken(w.mode, entries, f.entries);
      ghost var sound := Holds(w, all) && h == HeadOf(w.mode, all, h.ts);
      OverlayMeans(f);
      TabledOnly();
      for i := 0 to |f.entries|
        invariant Core() && entries == all[..|before| + i] && owners == old(owners)
        invariant bad.Some? ==> i <= bad.value && Stops(w.mode, before, f.entries, bad.value)
        modifies `entries, `latestVersion, tree, map_
      {
        ShapedAt(w.mode, f.entries, i);
        assert all[|before| + i] == f.entries[i];
        assert all[..|before| + i + 1] == all[..|before| + i] + [all[|before| + i]];
        if sound {
          HoldsAt(w, all, |before| + i);
        }
        if bad.Some? {
          StopsAt(w.mode, before, f.entries, bad.value, i);
        }
        var a := Append(f.entries[i]);
        if !a.Appended? {
          OutcomeIs(a);
          OneUnencoded(f.entries, i);
          return a;
        }
      }
      assert all[..|all|] == all;
      var same := SameRoots(h);
      HeadFields(w.mode, entries, h.ts);
      if !same {
        return Diverges;
      }
      if w.mode.Handles? && f.broken {
        if sound {
          HoldsRule(w, all);
        }
        return Diverges;
      }
      owners := Overlay(owners, f.over);
      TableLaid(before, f, old(owners));
      r := Appended;
    }

    lemma OverlayMeans(f: Fetched)
      requires f.Fetched? && Tabled(entries) && Overlaying(f.entries, f.over, f.broken)
      ensures w.mode.Handles? && f.broken ==> RuleRun(w, entries + f.entries).Refused?
      ensures w.mode.Handles? && !f.broken ==>
        RuleRun(w, entries).Ok? && RuleRun(w, entries + f.entries) == Ok(RuleRun(w, entries).value + f.over)
    {
      hide RuleRun, Overlaid, InTable;
      if w.mode.Handles? {
        OverlaidAgrees(w, entries, f.entries);
      }
    }

    lemma TabledOnly()
      requires Tabled(entries)
      ensures w.mode.Handles? ==> forall l :: InTable(owners, w, entries, l)
    {
    }

    /** The table with the overlay laid on it is the table after the delta. */
    lemma TableLaid(before: seq<LogEntry>, f: Fetched, table: map<Label, OwnerRc>)
      requires f.Fetched? && entries == before + f.entries && owners == Overlay(table, f.over)
      requires w.mode.Handles? ==> forall l :: InTable(table, w, before, l)
      requires w.mode.Handles? ==>
        RuleRun(w, before).Ok? && RuleRun(w, before + f.entries) == Ok(RuleRun(w, before).value + f.over)
      ensures Tabled(entries)
    {
      hide RuleRun;
      if w.mode.Handles? {
        forall l
          ensures InTable(owners, w, entries, l)
        {
          assert InTable(table, w, before, l);
        }
      }
    }

    /** The spooled lines on the end of the file, or as much of them as a failing truncation leaves. */
    method SpoolOut(fetched: seq<LogEntry>, disk: Disk) returns (ok: bool)
      requires OwnDir(clean, held) && dir.Data() == clean
      modifies dir
      ensures ok <==> fetched == [] || (Puts(disk.writes, |Spooled(codec, fetched)|) && !disk.fsyncFails)
      ensures ok ==> dir.Data() == clean + Spooled(codec, fetched)
      ensures OwnDir(clean, held) && dir.Head() == old(dir.Head())
      ensures AllOwnStates(w, codec, old(dir.later), dir.later, clean, held, old(dir.Head()))
    {
      hide *;
      ghost var before, was := dir.later, dir.Now();
      dir.NowIs();
      OwnDirOf(clean, held);
      OwnMeans(clean, held);
      var spool, at := Spooled(codec, fetched), |dir.Data()|;
      if fetched == [] {
        StatesNone(w, codec, before, clean, held, dir.Head());
        NothingSpooled(codec);
        assert dir.Data() + "" == dir.Data();
        return true;
      }
      var all := WriteAll(dir, spool, disk.writes);
      SpoolStates(w, codec, before, dir.later, was, spool, clean, held);
      OwnIs(clean, held);
      if !all || disk.fsyncFails {
        ghost var put :| 0 <= put <= |spool| && dir.Data() == clean + spool[..put];
        if !disk.truncateFails {
          assert (clean + spool[..put])[..at] == clean;
          OwnCut(w, codec, dir.Head(), clean, clean, held);
          StatesMore(w, codec, before, dir.later, Snapshot(clean, dir.Head()), clean, held);
          dir.Truncate(at);
          OwnIs(clean, held);
        }
        return false;
      }
      ok := true;
    }

    /** A commit that failed: memory put back. */
    method GiveUp(window: nat, ghost before: seq<Snapshot<HeadOnDisk>>)
      requires OwnDir(clean, held) && Lets(w.mode, codec) && maxEntries < WORD && |held| < WORD && window >= 1 && !poisoned
      requires AllOwnStates(w, codec, before, dir.later, clean, held, dir.Head())
      modifies `tree, `map_, `entries, `latestVersion, `owners, `head, `needsReload, `repaired, dir
      ensures Valid() && dir.Head() == old(dir.Head()) && fresh(tree) && fresh(tree.memo) && fresh(map_)
      ensures AllSafe(w, codec, before, dir.later, clean, held, old(dir.Head()), clean, held)
    {
      hide *;
      ghost var middle, head0 := dir.later, dir.Head();
      Recover(window);
      StatesThen(w, codec, before, middle, dir.later, clean, held, head0);
      StatesSafe(w, codec, before, dir.later, clean, held, head0, clean, held);
      ValidIs();
    }

    /** The commit: the spooled lines on the end of the file, then the head in place of the old one. */
    method Commit(h: HeadMsg, fetched: seq<LogEntry>, window: nat, disk: Disk) returns (ok: bool)
      requires Core() && Tabled(entries) && h == HeadOf(w.mode, entries, h.ts) && h.ts >= 0 && |entries| < WORD
      requires entries == held + fetched && AllShaped(w.mode, fetched) && OwnDir(clean, held) && dir.Data() == clean
      requires Lets(w.mode, codec) && maxEntries < WORD && window >= 1 && !poisoned && !needsReload
      modifies this, dir
      ensures Valid() && !poisoned
      ensures ok <==> (fetched == [] || (Puts(disk.writes, |Spooled(codec, fetched)|) && !disk.fsyncFails)) && !disk.headFails
      ensures (tree == old(tree) && map_ == old(map_)) || (fresh(tree) && fresh(tree.memo) && fresh(map_))
      ensures ok ==> Rest() && !needsReload && held == old(held) + fetched && head == Some(h)
      ensures !ok ==> held == old(held) && clean == old(clean) && dir.Head() == old(dir.Head())
      ensures dir.Head() == if ok then OnFile(h, OnHead(h)) else old(dir.Head())
      ensures AllSafe(w, codec, old(dir.later), dir.later, old(clean), old(held), old(dir.Head()), clean, held)
    {
      hide *;
      ghost var before, clean0, held0, head0 := dir.later, clean, held, dir.Head();
      OwnMeans(clean, held);
      HeldWhole(w, codec, clean, dir.Head(), held);
      SpoolReads(w.mode, codec, clean, fetched);
      var spooled := SpoolOut(fetched, disk);
      if !spooled || disk.headFails {
        GiveUp(window, before);
        return false;
      }
      CoreMeans();
      HeldNow();
      ghost var written := dir.later;
      dir.Replace(OnFile(h, OnHead(h)));
      clean, held, head := dir.Data(), entries, Some(h);
      CleanIs(w, codec, clean, h, held);
      OwnIs(clean, held);
      OwnCut(w, codec, dir.Head(), clean, clean, held);
      StatesSafe(w, codec, before, written, clean0, held0, head0, clean, held);
      SafeMore(w, codec, before, written, Snapshot(clean, dir.Head()), clean0, held0, head0, clean, held);
      CoreIs();
      AtHeadIs();
      HeadFields(w.mode, entries, h.ts);
      HeadStored(h);
      HeadIsNow(dir.Head(), head);
      RestIs();
      ValidIs();
      ok := true;
    }

    lemma OwnDirOf(c: Bytes, h: seq<LogEntry>)
      ensures OwnDir(c, h) <==> OwnState(w, codec, dir.Now(), c, h)
    {
    }

    lemma HeldNow()
      requires Follows(w.mode, entries) && Tabled(entries)
      ensures Holds(w, entries)
    {
      hide Follows, InTable;
    }

    lemma ValidIs()
      requires OwnDir(clean, held) && Lets(w.mode, codec) && maxEntries < WORD && |held| < WORD
      requires poisoned || needsReload || |entries| != HeadSize() || Rest()
      requires dir.Head().NoHead? && dir.Data() != "" ==> needsReload
      ensures Valid()
    {
    }

    lemma ValidMeans()
      requires Valid()
      ensures OwnDir(clean, held) && Lets(w.mode, codec) && maxEntries < WORD && |held| < WORD
      ensures poisoned || needsReload || |entries| != HeadSize() || Rest()
      ensures dir.Head().NoHead? && dir.Data() != "" ==> needsReload
    {
    }

    lemma SizeAtHead()
      requires AtHead()
      ensures HeadSize() == |entries|
    {
      hide Core;
    }

    /** What is held, at rest: index by index, and in the key-transparency log with versions that rise label by label. */
    lemma HeldIs()
      requires Rest()
      ensures head.None? ==> held == []
      ensures head.Some? ==>
        head.value.size == |held| && head.value.logRoot == Mth(Leaves(w.mode, held)) && head.value.mapRoot == Canon(DEPTH, [], Latest(held))
      ensures forall i :: 0 <= i < |held| ==>
        held[i].index == i && held[i].valueHash == ValueDigest(held[i].value) && |held[i].lbl| == 256 && (w.mode == Handles ==> held[i].ts % 3_600_000 == 0)
      ensures w.mode == Kt ==> forall i, j :: 0 <= i < j < |held| && held[i].lbl == held[j].lbl ==> held[i].version < held[j].version
      ensures w.mode == Handles ==>
        forall i :: 0 <= i < |held| ==> Rule.Fits(w.rule, RuleEntries(held)[..i], RuleEntries(held)[i])
    {
      hide *;
      Rule.HistoryExact(w.rule, RuleEntries(held));
      Rule.HoldExact(w.rule, RuleEntries(held));
      RestMeans();
      AtHeadMeans();
      CoreMeans();
      HeadFields(w.mode, held, if head.Some? then head.value.ts else 0);
      FollowsExact(w.mode, held);
      HeldNow();
      HoldsExact(w, held);
    }

    /** Rule B: the only state a sync builds on is the one the last verified head describes. */
    method Ready(window: nat) returns (ok: bool)
      requires Valid() && window >= 1
      modifies `tree, `map_, `entries, `latestVersion, `owners, `head, `needsReload, `repaired, dir
      ensures Valid() && ((tree == old(tree) && map_ == old(map_)) || (fresh(tree) && fresh(tree.memo) && fresh(map_)))
      ensures ok && !poisoned ==> Rest() && !needsReload
      ensures !ok ==> old(dir.Head().NoHead? && dir.Data() != "")
      ensures dir.Head() == old(dir.Head()) && AllOwnStates(w, codec, old(dir.later), dir.later, clean, held, old(dir.Head()))
      ensures !old(needsReload) && |old(entries)| == old(HeadSize()) ==> ok && entries == old(entries) && head == old(head)
    {
      hide *;
      ValidMeans();
      StatesNone(w, codec, dir.later, clean, held, dir.Head());
      if needsReload || |entries| != HeadSize() {
        ok := Reload(window);
        OwnMeans(clean, held);
        if ok {
          RestMeans();
        }
        ValidIs();
        return;
      }
      ok := true;
    }

    /** At the size held: the roots must be the same. */
    method SameSize(h: HeadMsg) returns (same: bool)
      requires Rest() && h.size == |entries|
      modifies tree.memo
      ensures Rest() && (same <==> h == HeadOf(w.mode, entries, h.ts))
    {
      hide *;
      RestMeans();
      AtHeadMeans();
      HeadFields(w.mode, entries, h.ts);
      if head.Some? {
        HeadFields(w.mode, entries, head.value.ts);
        same := h.logRoot == head.value.logRoot && h.mapRoot == head.value.mapRoot;
        RootsMakeHead(h, head.value);
      } else {
        same := SameRoots(h);
      }
      AtHeadIs();
      RestIs();
    }

    /**
     sync: the log's head, the proof that it extends the last one, the entries between, and then
     the commit. A head is adopted only as the head of the entries held, which only ever grow; a
     sync that does not adopt one leaves what was verified as it was; and an honest log over a
     faithful or failing transport never poisons the mirror.
     */
    method Sync(sth: Resp<SignedHead>, cons: Resp<Extension>, pages: seq<Resp<seq<Element>>>, window: nat, spoolFails: bool, disk: Disk,
                ghost hist: seq<LogEntry>)
      returns (r: SyncResult)
      requires Valid() && window >= 1 && PagesShaped(w.mode, pages)
      modifies this, tree, tree.memo, map_, dir
      ensures Valid()
      ensures (tree == old(tree) && map_ == old(map_)) || (fresh(tree) && fresh(tree.memo) && fresh(map_))
      ensures r.Synced? ==>
        !poisoned && Rest() && sth.Body? && Verifies(sth.value) && head == Some(sth.value.msg) &&
        r.from == |old(held)| && r.to == |held| && old(held) <= held
      ensures !r.Synced? ==> held == old(held) && clean == old(clean) && dir.Head() == old(dir.Head())
      ensures AllSafe(w, codec, old(dir.later), dir.later, old(clean), old(held), old(dir.Head()), clean, held)
      ensures poisoned <==> old(poisoned) || r.Diverged?
      ensures old(poisoned) ==> r.Failed?
      ensures !old(poisoned) && !old(needsReload) && old(Rest()) && Heard(sth, maxEntries) ==>
        (Stale(w, sth.value.msg, cons, old(entries), old(head)) ==> r.Diverged?)
      ensures !old(poisoned) && !old(needsReload) && old(Rest()) && Heard(sth, maxEntries) && sth.value.msg.size == |old(held)| ==>
        (r.Diverged? <==> sth.value.msg != HeadOf(w.mode, old(held), sth.value.msg.ts))
      ensures !old(poisoned) && !old(needsReload) && old(Rest()) && Heard(sth, maxEntries) && !spoolFails ==>
        (Caught(w.mode, hist, old(held), old(head), sth.value.msg, cons, pages) ==> r.Diverged?) &&
        (Weighed(hist, old(held), old(head), sth.value.msg, cons, pages) ==> (r.Diverged? <==> !Sound(w, hist, sth.value.msg)))
      ensures Honest(w, hist, old(held), sth, cons, pages) ==> !r.Diverged? && held <= hist
      ensures !old(poisoned) && !old(needsReload) && old(Rest()) && Heard(sth, maxEntries) && HonestButProof(w, hist, old(held), sth, pages) ==>
        (r.Diverged? <==> WrongProof(w, hist, old(held), sth.value.msg, cons))
      ensures Delivered(w, hist, old(held), sth, cons, pages) && Heard(sth, maxEntries) && !spoolFails && Writes(disk) ==>
        (old(Openable()) ==> r.Synced?)
    {
      hide *;
      ghost var before, clean0, held0, head0 := dir.later, clean, held, dir.Head();
      StatesNone(w, codec, before, clean, held, head0);
      StatesSafe(w, codec, before, before, clean, held, head0, clean, held);
      ProofMatters(hist, sth, cons, pages);
      ValidMeans();
      OwnMeans(clean, held);
      SyncFacts(w, hist, held, sth, cons, pages);
      HeardIs(sth, maxEntries);
      OpenableIs();
      RestSays();
      if poisoned {
        return Failed;
      }
      var ready := Ready(window);
      StatesSafe(w, codec, before, dir.later, clean, held, head0, clean, held);
      ghost var middle := dir.later;
      if !ready {
        return Failed;
      }
      if !sth.Body? {
        return Failed;
      }
      var h := sth.value.msg;
      if !Verifies(sth.value) {
        return Forged;
      }
      VerifiedSize(h, sth.value.sig);
      if h.size > maxEntries {
        return Failed;
      }
      r := Settle(h, cons, pages, window, spoolFails, disk, hist, sth);
      SafeThen(w, codec, before, middle, dir.later, clean0, held0, head0, clean, held);
    }

    lemma ProofMatters(hist: seq<LogEntry>, sth: Resp<SignedHead>, cons: Resp<Extension>, pages: seq<Resp<seq<Element>>>)
      ensures Rest() && Heard(sth, maxEntries) && HonestButProof(w, hist, held, sth, pages) ==>
        if WrongProof(w, hist, held, sth.value.msg, cons) then Stale(w, sth.value.msg, cons, entries, head)
        else Honest(w, hist, held, sth, cons, pages)
    {
      hide *;
      HeardIs(sth, maxEntries);
      if Rest() && Heard(sth, maxEntries) && HonestButProof(w, hist, held, sth, pages) {
        RestMeans();
        AtHeadMeans();
        ProofDecides(w, hist, held, sth, cons, pages, head);
      }
    }

    /** The sync once a head of the log's is in hand, memory being at rest. */
    method Settle(h: HeadMsg, cons: Resp<Extension>, pages: seq<Resp<seq<Element>>>, window: nat, spoolFails: bool, disk: Disk,
                  ghost hist: seq<LogEntry>, ghost sth: Resp<SignedHead>) returns (r: SyncResult)
      requires Valid() && Rest() && !poisoned && !needsReload && window >= 1 && PagesShaped(w.mode, pages)
      requires sth.Body? && sth.value.msg == h && Verifies(sth.value) && 0 <= h.size <= maxEntries
      modifies this, tree, tree.memo, map_, dir
      ensures Valid() && !r.Forged?
      ensures (tree == old(tree) && map_ == old(map_)) || (fresh(tree) && fresh(tree.memo) && fresh(map_))
      ensures r.Synced? ==>
        !poisoned && Rest() && head == Some(h) && r.from == |old(held)| && r.to == |held| && old(held) <= held
      ensures !r.Synced? ==> held == old(held) && clean == old(clean) && dir.Head() == old(dir.Head())
      ensures AllSafe(w, codec, old(dir.later), dir.later, old(clean), old(held), old(dir.Head()), clean, held)
      ensures poisoned <==> r.Diverged?
      ensures Honest(w, hist, old(held), sth, cons, pages) ==> !r.Diverged? && held <= hist
      ensures Delivered(w, hist, old(held), sth, cons, pages) && !spoolFails && Writes(disk) ==> r.Synced?
      ensures Stale(w, h, cons, old(entries), old(head)) ==> r.Diverged?
      ensures !spoolFails && Caught(w.mode, hist, old(held), old(head), h, cons, pages) ==> r.Diverged?
      ensures h.size == |old(held)| ==> (r.Diverged? <==> h != HeadOf(w.mode, old(held), h.ts))
      ensures !spoolFails && Weighed(hist, old(held), old(head), h, cons, pages) ==> (r.Diverged? <==> !Sound(w, hist, h))
    {
      hide *;
      ghost var honest := Honest(w, hist, held, sth, cons, pages);
      if honest {
        HonestMeans(w, hist, held, sth, cons, pages);
      }
      ValidMeans();
      OwnMeans(clean, held);
      RestMeans();
      VerifiedSize(h, sth.value.sig);
      AtHeadMeans();
      SizeAtHead();
      StatesNone(w, codec, dir.later, clean, held, dir.Head());
      StatesSafe(w, codec, dir.later, dir.later, clean, held, dir.Head(), clean, held);
      var from := |entries|;
      var step, fetched := Compare(h, cons, pages, spoolFails, hist, sth);
      OwnIs(clean, held);
      if step.Contradicts? {
        poisoned := true;
        ValidIs();
        return Diverged;
      }
      if step.Retry? {
        ValidIs();
        return Failed;
      }
      HeadFields(w.mode, entries, h.ts);
      WritesAll(disk, |Spooled(codec, fetched)|);
      var ok := Commit(h, fetched, window, disk);
      r := if ok then Synced(from, h.size) else Failed;
    }

    /** The head against the last one: a smaller log, the same one, or a larger. */
    method Compare(h: HeadMsg, cons: Resp<Extension>, pages: seq<Resp<seq<Element>>>, spoolFails: bool,
                   ghost hist: seq<LogEntry>, ghost sth: Resp<SignedHead>)
      returns (r: Step, fetched: seq<LogEntry>)
      requires Rest() && 0 <= h.size < WORD && PagesShaped(w.mode, pages)
      requires sth.Body? && sth.value.msg == h && Verifies(sth.value)
      modifies `entries, `latestVersion, `owners, tree, tree.memo, map_
      ensures r.Grown? ==>
        Core() && Tabled(entries) && entries == held + fetched && AllShaped(w.mode, fetched) && h == HeadOf(w.mode, entries, h.ts)
      ensures r.Retry? ==> Rest() || |entries| > |held|
      ensures Honest(w, hist, held, sth, cons, pages) ==> !r.Contradicts? && (r.Grown? ==> entries <= hist)
      ensures Delivered(w, hist, held, sth, cons, pages) && !spoolFails ==> r.Grown?
      ensures Stale(w, h, cons, old(entries), old(head)) ==> r.Contradicts?
      ensures !spoolFails && Caught(w.mode, hist, held, old(head), h, cons, pages) ==> r.Contradicts?
      ensures h.size == |held| ==> !r.Retry? && (r.Grown? <==> h == HeadOf(w.mode, held, h.ts))
      ensures !spoolFails && Weighed(hist, held, old(head), h, cons, pages) ==> !r.Retry? && (r.Grown? <==> Sound(w, hist, h))
    {
      hide *;
      ghost var honest := Honest(w, hist, held, sth, cons, pages);
      if Delivered(w, hist, held, sth, cons, pages) {
        DeliveredMeans(w, hist, held, sth, cons, pages);
      }
      if honest {
        HonestMeans(w, hist, held, sth, cons, pages);
      }
      if Caught(w.mode, hist, held, head, h, cons, pages) {
        CaughtMeans(w.mode, hist, held, head, h, cons, pages);
      }
      if Weighed(hist, held, head, h, cons, pages) {
        WeighedMeans(hist, held, head, h, cons, pages);
      }
      RestMeans();
      if Stale(w, h, cons, entries, head) {
        StaleMeans(w, h, cons, entries, head);
      }
      if h.size < |entries| {
        return Contradicts, [];
      }
      if h.size > |entries| {
        r, fetched := Extend(h, cons, pages, spoolFails, hist, sth);
        return;
      }
      var same := SameSize(h);
      if honest {
        HonestHead(w, hist, held, sth, cons, pages);
      }
      RestMeans();
      AtHeadMeans();
      assert held + [] == held;
      NothingShaped(w.mode);
      r, fetched := if same then Grown else Contradicts, [];
    }

    /** The proof that a larger head extends the last one, where there is one: asked for again if it has not the right shape. */
    method CheckProof(h: HeadMsg, cons: Resp<Extension>) returns (r: Step)
      requires AtHead() && |entries| < h.size < WORD
      ensures entries == [] ==> r.Grown?
      ensures entries != [] ==>
        head.Some? &&
        (r.Retry? <==> !(cons.Body? && cons.value.first == |entries| && cons.value.second == h.size)) &&
        (!r.Retry? ==> (r.Grown? <==> Consistent(|entries|, h.size, head.value.logRoot, h.logRoot, cons.value.proof)))
    {
      hide *;
      AtHeadMeans();
      if |entries| == 0 {
        return Grown;
      }
      if !cons.Body? || cons.value.first != |entries| || cons.value.second != h.size {
        return Retry;
      }
      HeadFields(w.mode, entries, head.value.ts);
      var grows := VerifyConsistency(|entries|, h.size, head.value.logRoot, h.logRoot, cons.value.proof);
      InWord(|entries|);
      r := if grows then Grown else Contradicts;
    }

    /** A larger head: the proof that it extends the last one, the entries, and both roots. */
    method Extend(h: HeadMsg, cons: Resp<Extension>, pages: seq<Resp<seq<Element>>>, spoolFails: bool,
                  ghost hist: seq<LogEntry>, ghost sth: Resp<SignedHead>)
      returns (r: Step, fetched: seq<LogEntry>)
      requires Rest() && |entries| < h.size < WORD && PagesShaped(w.mode, pages)
      requires sth.Body? && sth.value.msg == h && Verifies(sth.value)
      modifies `entries, `latestVersion, `owners, tree, tree.memo, map_
      ensures r.Grown? ==>
        Core() && Tabled(entries) && entries == held + fetched && AllShaped(w.mode, fetched) && h == HeadOf(w.mode, entries, h.ts)
      ensures r.Retry? ==> Rest() || |entries| > |held|
      ensures Honest(w, hist, held, sth, cons, pages) ==> !r.Contradicts? && (r.Grown? ==> entries <= hist)
      ensures Delivered(w, hist, held, sth, cons, pages) && !spoolFails ==> r.Grown?
      ensures Stale(w, h, cons, old(entries), old(head)) ==> r.Contradicts?
      ensures !spoolFails && Caught(w.mode, hist, held, old(head), h, cons, pages) ==> r.Contradicts?
      ensures !spoolFails && Weighed(hist, held, old(head), h, cons, pages) ==> !r.Retry? && (r.Grown? <==> Sound(w, hist, h))
    {
      hide *;
      ghost var honest := Honest(w, hist, held, sth, cons, pages);
      if Delivered(w, hist, held, sth, cons, pages) {
        DeliveredMeans(w, hist, held, sth, cons, pages);
      }
      if honest {
        HonestMeans(w, hist, held, sth, cons, pages);
      }
      RestMeans();
      AtHeadMeans();
      if Stale(w, h, cons, entries, head) {
        StaleMeans(w, h, cons, entries, head);
      }
      if Caught(w.mode, hist, held, head, h, cons, pages) {
        CaughtMeans(w.mode, hist, held, head, h, cons, pages);
      }
      if Weighed(hist, held, head, h, cons, pages) {
        WeighedMeans(hist, held, head, h, cons, pages);
      }
      fetched := [];
      r := CheckProof(h, cons);
      if entries != [] && !r.Retry? && honest {
        HeadFields(w.mode, entries, head.value.ts);
        HonestExtends(w, hist, held, sth, cons, pages);
      }
      if !r.Grown? {
        return;
      }
      r, fetched := TakeDelta(h, pages, spoolFails, hist, sth, cons);
    }

    /** The delta under a head that was proved: fetched whole, and then adopted. */
    method TakeDelta(h: HeadMsg, pages: seq<Resp<seq<Element>>>, spoolFails: bool,
                     ghost hist: seq<LogEntry>, ghost sth: Resp<SignedHead>, ghost cons: Resp<Extension>)
      returns (r: Step, fetched: seq<LogEntry>)
      requires Rest() && |entries| < h.size < WORD && PagesShaped(w.mode, pages)
      requires sth.Body? && sth.value.msg == h && Verifies(sth.value)
      modifies `entries, `latestVersion, `owners, tree, tree.memo, map_
      ensures r.Grown? ==>
        Core() && Tabled(entries) && entries == held + fetched && AllShaped(w.mode, fetched) && h == HeadOf(w.mode, entries, h.ts)
      ensures r.Retry? ==> Rest() || |entries| > |held|
      ensures Honest(w, hist, held, sth, cons, pages) ==> !r.Contradicts? && (r.Grown? ==> entries <= hist)
      ensures Honest(w, hist, held, sth, cons, pages) && FullPages(hist, h.size, |held|, pages) && !spoolFails ==> r.Grown?
      ensures !spoolFails && Brought(held, hist, h, pages) && Broken(w.mode, held, hist[|held|..h.size]) ==> r.Contradicts?
      ensures !spoolFails && Brought(held, hist, h, pages) && AllEncode(hist[|held|..h.size]) ==>
        !r.Retry? && (r.Grown? <==> Sound(w, hist, h))
    {
      hide *;
      ghost var honest := Honest(w, hist, held, sth, cons, pages);
      if honest {
        HonestMeans(w, hist, held, sth, cons, pages);
      }
      ghost var brought := Brought(held, hist, h, pages);
      if brought {
        BroughtMeans(held, hist, h, pages);
      }
      RestMeans();
      AtHeadMeans();
      CoreMeans();
      var f := FetchPages(h.size, pages, spoolFails, hist);
      if f.FetchDiverged? {
        return Contradicts, [];
      }
      if !f.Fetched? {
        return Retry, [];
      }
      if honest {
        HonestDelta(w, hist, held, sth, cons, pages, f.entries);
      }
      if brought && !spoolFails {
        CopiedIs(hist, |entries|, f.entries);
        SoundIs(w, hist, held, f.entries, h);
      }
      var a := Adopt(h, f);
      if a.Diverges? {
        return Contradicts, [];
      }
      if !a.Appended? {
        OutcomeIs(a);
        if entries == held {
          AtHeadIs();
          RestIs();
        }
        return Retry, [];
      }
      CoreMeans();
      HeldNow();
      r, fetched := Grown, f.entries;
    }

    lemma NothingFetched()
      requires Tabled(entries)
      ensures Overlaying([], map[], false)
    {
      hide RuleRun;
      NothingOverlaid(w, Own());
    }
  }

  predicate HeadIs(disk: HeadOnDisk, head: Option<HeadMsg>) {
    match disk
    case NoHead => head.None?
    case Garbage => false
    case OnFile(h, sig) => head == Some(h) && Verifies(SignedHead(h, sig))
  }

  lemma HeadIsNow(disk: HeadOnDisk, head: Option<HeadMsg>)
    requires !disk.Garbage?
    requires disk.OnFile? ==> head == Some(disk.msg) && Verifies(SignedHead(disk.msg, disk.sig))
    requires !disk.OnFile? ==> head == None
    ensures HeadIs(disk, head)
  {
  }

  lemma HeadFields(mode: Mode, es: seq<LogEntry>, ts: int)
    ensures HeadOf(mode, es, ts) == HeadMsg(|es|, Mth(Leaves(mode, es)), Canon(DEPTH, [], Latest(es)), ts)
  {
  }

  lemma VerifiedSize(h: HeadMsg, sig: Signature)
    requires Verifies(SignedHead(h, sig))
    ensures h.size >= 0 && h.ts >= 0 && sig == OnHead(h)
  {
  }

  lemma {:induction false} ReadShaped(mode: Mode, c: Codec, file: Bytes, off: nat, want: nat, read: Loading)
    requires Lets(mode, c) && off <= |file| && read == Upto(file, off, want, c.parse) && read.Loading?
    ensures AllShaped(mode, read.got) && |read.got| <= want
    decreases |file| - off
  {
    hide Shaped, Newline, GoodLine;
    var nl := Newline(file, off);
    if want > 0 && nl < |file| {
      if nl == off {
        ReadShaped(mode, c, file, off + 1, want, read);
      } else {
        ReadShaped(mode, c, file, nl + 1, want - 1, Upto(file, nl + 1, want - 1, c.parse));
      }
    }
  }

  lemma ReadWithin(file: Bytes, want: nat, parse: Bytes -> Option<LogEntry>, read: Loading)
    requires read == Upto(file, 0, want, parse) && read.Loading?
    ensures read.at <= |file|
  {
    hide Upto;
  }

  lemma WordIs()
    ensures WORD == 0x1_0000_0000
  {
  }

  lemma HoldsNothing(w: World)
    ensures Holds(w, [])
  {
    RuleRunNone(w);
  }

  lemma ShapedAt(mode: Mode, es: seq<LogEntry>, i: nat)
    requires AllShaped(mode, es) && i < |es|
    ensures Shaped(mode, es[i])
  {
  }

  /** Each entry of what a mirror holds is accepted after those before it. */
  lemma HoldsAt(w: World, es: seq<LogEntry>, i: nat)
    requires Holds(w, es) && i < |es|
    ensures Appends(w.mode, es[..i], es[i]) && Encodes(es[i])
    ensures w.mode.Handles? ==> RuleRun(w, es[..i + 1]).Ok?
  {
    hide Appends, Encodes, Shaped, RuleRun;
    if w.mode.Handles? {
      RulePrefix(w, es, i + 1);
    }
  }

  lemma OutcomeIs(a: AppendOutcome)
    requires !a.Appended?
    ensures a.Diverges? || a.Unencodable?
  {
  }

  lemma HoldsRule(w: World, es: seq<LogEntry>)
    requires Holds(w, es) && w.mode.Handles?
    ensures !RuleRun(w, es).Refused?
  {
    hide Follows;
  }

  /** The table with what the overlay has, owner and commitment. */
  function Overlay(table: map<Label, OwnerRc>, over: Rule.Owners): map<Label, OwnerRc> {
    table + map l | l in over :: OwnerRc(over[l].key, over[l].rc)
  }

  lemma NothingSpooled(c: Codec)
    ensures Spooled(c, []) == ""
  {
  }

  lemma HeldWhole(w: World, c: Codec, clean: Bytes, head: HeadOnDisk, held: seq<LogEntry>)
    requires Clean(w, c, clean, head, held)
    ensures Whole(c, clean) && Lines(c, clean) == held
  {
    hide Holds, HeadOf;
  }

  lemma CleanIs(w: World, c: Codec, clean: Bytes, h: HeadMsg, held: seq<LogEntry>)
    requires h == HeadOf(w.mode, held, h.ts) && h.ts >= 0
    requires Whole(c, clean) && Lines(c, clean) == held && Holds(w, held)
    ensures Clean(w, c, clean, OnFile(h, OnHead(h)), held)
  {
    hide Holds, Whole, Lines;
  }

  lemma HeadStored(h: HeadMsg)
    requires h.size >= 0 && h.ts >= 0
    ensures Verifies(SignedHead(h, OnHead(h)))
  {
  }

  lemma RootsMakeHead(a: HeadMsg, b: HeadMsg)
    requires a.size == b.size
    ensures a.logRoot == b.logRoot && a.mapRoot == b.mapRoot <==> a == HeadMsg(b.size, b.logRoot, b.mapRoot, a.ts)
  {
  }

  lemma InWord(n: nat)
    requires 0 < n < WORD
    ensures !Misread(n)
  {
    ExactInWord(n);
  }

  // --- What a transport delivers ------------------------------------------------------------

  ghost predicate ElementsShaped(mode: Mode, els: seq<Element>) {
    forall i :: 0 <= i < |els| ==> els[i].Item? ==> Shaped(mode, els[i].entry)
  }

  /** What the JSON readers let through. */
  ghost predicate PagesShaped(mode: Mode, pages: seq<Resp<seq<Element>>>) {
    forall k :: 0 <= k < |pages| ==> pages[k].Body? ==> ElementsShaped(mode, pages[k].value)
  }

  lemma ElementIs(mode: Mode, els: seq<Element>, j: nat)
    requires ElementsShaped(mode, els) && j < |els|
    ensures els[j].Malformed? || els[j].WrongHash? || (els[j].Item? && Shaped(mode, els[j].entry))
  {
  }

  lemma PageShaped(mode: Mode, pages: seq<Resp<seq<Element>>>, k: nat)
    requires PagesShaped(mode, pages) && k < |pages| && pages[k].Body?
    ensures ElementsShaped(mode, pages[k].value)
  {
  }

  // --- A delta that breaks off ------------------------------------------------------------------

  /**
   An entry of the delta that is not the next one, or whose version is no higher than one of its label's
   before it, or, in the handle log, whose time is no whole hour; the numbers before it are all of 64 bits.
   */
  ghost predicate Stops(mode: Mode, es: seq<LogEntry>, delta: seq<LogEntry>, i: int) {
    0 <= i < |delta| &&
    (forall k :: 0 <= k < i ==> 0 <= delta[k].version < 0x1_0000_0000_0000_0000 && 0 <= delta[k].ts < 0x1_0000_0000_0000_0000) &&
    var e, before := delta[i], (es + delta)[..|es| + i];
    || e.index != |before|
    || (mode == Kt && exists j :: 0 <= j < |before| && before[j].lbl == e.lbl && before[j].version >= e.version)
    || (mode == Handles && (e.ts < 0 || e.ts % 3_600_000 != 0))
  }

  /** Every number in it is of 64 bits. */
  ghost predicate AllEncode(delta: seq<LogEntry>) {
    forall k :: 0 <= k < |delta| ==>
      0 <= delta[k].version < 0x1_0000_0000_0000_0000 && 0 <= delta[k].ts < 0x1_0000_0000_0000_0000
  }

  lemma OneUnencoded(delta: seq<LogEntry>, k: nat)
    requires k < |delta|
    ensures !Encodes(delta[k]) ==> !AllEncode(delta)
  {
  }

  /** What a head and the entries under it must be to be adopted. */
  ghost predicate Sound(w: World, hist: seq<LogEntry>, h: HeadMsg)
    requires 0 <= h.size <= |hist|
  {
    Holds(w, hist[..h.size]) && h == HeadOf(w.mode, hist[..h.size], h.ts)
  }

  lemma SoundIs(w: World, hist: seq<LogEntry>, held: seq<LogEntry>, delta: seq<LogEntry>, h: HeadMsg)
    requires |held| <= h.size <= |hist| && held == hist[..|held|] && delta == hist[|held|..h.size]
    ensures Sound(w, hist, h) <==> Holds(w, held + delta) && h == HeadOf(w.mode, held + delta, h.ts)
  {
    hide Holds, HeadOf;
    assert held + delta == hist[..h.size];
  }

  ghost predicate Broken(mode: Mode, es: seq<LogEntry>, delta: seq<LogEntry>) {
    exists i :: Stops(mode, es, delta, i)
  }

  lemma WhereBroken(mode: Mode, es: seq<LogEntry>, delta: seq<LogEntry>) returns (i: Option<int>)
    ensures i.Some? <==> Broken(mode, es, delta)
    ensures i.Some? ==> Stops(mode, es, delta, i.value) && 0 <= i.value < |delta|
  {
    hide Stops;
    if Broken(mode, es, delta) {
      var k :| Stops(mode, es, delta, k);
      StopsWithin(mode, es, delta, k);
      return Some(k);
    }
    return None;
  }

  lemma StopsWithin(mode: Mode, es: seq<LogEntry>, delta: seq<LogEntry>, i: int)
    requires Stops(mode, es, delta, i)
    ensures 0 <= i < |delta|
  {
  }

  lemma StopsAt(mode: Mode, es: seq<LogEntry>, delta: seq<LogEntry>, i: int, k: nat)
    requires Stops(mode, es, delta, i) && k <= i
    ensures i < |delta|
    ensures k < i ==> Encodes(delta[k])
    ensures var e, before := delta[k], (es + delta)[..|es| + k];
      k == i ==>
        || e.index != |before|
        || (mode == Kt && exists j :: 0 <= j < |before| && before[j].lbl == e.lbl && before[j].version >= e.version)
        || (mode == Handles && (e.ts < 0 || e.ts % 3_600_000 != 0))
  {
  }

  /** The head is of a larger log, and the proof that came with it, where one is asked for, verifies against the last head. */
  ghost predicate Proved(held: seq<LogEntry>, last: Option<HeadMsg>, h: HeadMsg, cons: Resp<Extension>) {
    |held| < h.size &&
    (held != [] ==>
      last.Some? && cons.Body? && cons.value.first == |held| && cons.value.second == h.size &&
      Consistent(|held|, h.size, last.value.logRoot, h.logRoot, cons.value.proof))
  }

  /** The pages bring exactly the entries of `hist` up to the head's size, which begin with those held. */
  ghost predicate Brought(held: seq<LogEntry>, hist: seq<LogEntry>, h: HeadMsg, pages: seq<Resp<seq<Element>>>) {
    |held| <= h.size <= |hist| && held == hist[..|held|] && FullPages(hist, h.size, |held|, pages)
  }

  /** A log that proves its head and serves, under it, a delta that breaks off. */
  ghost predicate Caught(mode: Mode, hist: seq<LogEntry>, held: seq<LogEntry>, last: Option<HeadMsg>, h: HeadMsg,
                         cons: Resp<Extension>, pages: seq<Resp<seq<Element>>>) {
    Proved(held, last, h, cons) && Brought(held, hist, h, pages) && Broken(mode, held, hist[|held|..h.size])
  }

  lemma BroughtMeans(held: seq<LogEntry>, hist: seq<LogEntry>, h: HeadMsg, pages: seq<Resp<seq<Element>>>)
    requires Brought(held, hist, h, pages)
    ensures |held| <= h.size <= |hist| && FullPages(hist, h.size, |held|, pages) && held == hist[..|held|]
  {
    hide FullPages;
  }

  /** A log that proves its head and serves the entries under it, their numbers of 64 bits: what is left is to judge them. */
  ghost predicate Weighed(hist: seq<LogEntry>, held: seq<LogEntry>, last: Option<HeadMsg>, h: HeadMsg,
                          cons: Resp<Extension>, pages: seq<Resp<seq<Element>>>)
    ensures Weighed(hist, held, last, h, cons, pages) ==> 0 <= h.size <= |hist|
  {
    Proved(held, last, h, cons) && Brought(held, hist, h, pages) && AllEncode(hist[|held|..h.size])
  }

  lemma WeighedMeans(hist: seq<LogEntry>, held: seq<LogEntry>, last: Option<HeadMsg>, h: HeadMsg,
                     cons: Resp<Extension>, pages: seq<Resp<seq<Element>>>)
    requires Weighed(hist, held, last, h, cons, pages)
    ensures |held| < h.size && Brought(held, hist, h, pages) && |held| <= h.size <= |hist| && AllEncode(hist[|held|..h.size])
    ensures held != [] ==>
      last.Some? && cons.Body? && cons.value.first == |held| && cons.value.second == h.size &&
      Consistent(|held|, h.size, last.value.logRoot, h.logRoot, cons.value.proof)
  {
    hide Consistent, FullPages, AllEncode;
  }

  lemma CaughtMeans(mode: Mode, hist: seq<LogEntry>, held: seq<LogEntry>, last: Option<HeadMsg>, h: HeadMsg,
                    cons: Resp<Extension>, pages: seq<Resp<seq<Element>>>)
    requires Caught(mode, hist, held, last, h, cons, pages)
    ensures |held| < h.size && Brought(held, hist, h, pages) && |held| <= h.size <= |hist| && Broken(mode, held, hist[|held|..h.size])
    ensures held != [] ==>
      last.Some? && cons.Body? && cons.value.first == |held| && cons.value.second == h.size &&
      Consistent(|held|, h.size, last.value.logRoot, h.logRoot, cons.value.proof)
  {
    hide Consistent, FullPages, Broken;
  }

  lemma {:induction false} FullFaithful(hist: seq<LogEntry>, size: nat, next: nat, pages: seq<Resp<seq<Element>>>)
    requires FullPages(hist, size, next, pages)
    ensures FaithfulPages(hist, size, next, pages)
    decreases |pages|
  {
    hide FullPage, FaithfulPage;
    if pages != [] {
      if pages[0].Body? {
        PageFaithful(hist, size, next, pages[0].value);
      }
      FullFaithful(hist, size, next + (if pages[0].Body? then |pages[0].value| else 0), pages[1..]);
    }
  }

  lemma PageFaithful(hist: seq<LogEntry>, size: nat, next: nat, els: seq<Element>)
    ensures FullPage(hist, size, next, els) || next >= size ==> FaithfulPage(hist, size, next, els)
  {
    if FullPage(hist, size, next, els) {
      forall i | 0 <= i < |els|
        ensures AsHeld(hist, size, next + i, els[i])
      {
        assert AllHeld(hist, size, next + i, els[i]);
      }
    }
  }

  lemma CopiedIs(hist: seq<LogEntry>, from: nat, es: seq<LogEntry>)
    requires Copied(hist, from, es) && from + |es| <= |hist|
    ensures es == hist[from..from + |es|]
  {
  }

  ghost predicate AsHeld(hist: seq<LogEntry>, size: nat, at: nat, el: Element) {
    at < size ==> at < |hist| && (el.Malformed? || el == Item(hist[at]))
  }

  ghost predicate AllHeld(hist: seq<LogEntry>, size: nat, at: nat, el: Element) {
    at < size ==> at < |hist| && el == Item(hist[at]) && |hist[at].value| <= MAX_VALUE_BYTES
  }

  /** A page from `next` on, delivered faithfully or with malformed elements. */
  ghost predicate FaithfulPage(hist: seq<LogEntry>, size: nat, next: nat, els: seq<Element>) {
    forall i {:trigger els[i]} :: 0 <= i < |els| ==> AsHeld(hist, size, next + i, els[i])
  }

  /** The pages of one sync, each from where the one before it ended; any of them may fail or be misshapen. */
  ghost predicate FaithfulPages(hist: seq<LogEntry>, size: nat, next: nat, pages: seq<Resp<seq<Element>>>)
    decreases |pages|
  {
    pages != [] ==>
      (pages[0].Body? ==> FaithfulPage(hist, size, next, pages[0].value)) &&
      FaithfulPages(hist, size, next + (if pages[0].Body? then |pages[0].value| else 0), pages[1..])
  }

  /** A page that brings entries, all of them the history's and within the cap on values. */
  ghost predicate FullPage(hist: seq<LogEntry>, size: nat, next: nat, els: seq<Element>) {
    els != [] && forall i {:trigger els[i]} :: 0 <= i < |els| ==> AllHeld(hist, size, next + i, els[i])
  }

  ghost predicate FullPages(hist: seq<LogEntry>, size: nat, next: nat, pages: seq<Resp<seq<Element>>>)
    decreases |pages|
  {
    next < size ==>
      pages != [] && pages[0].Body? && FullPage(hist, size, next, pages[0].value) &&
      FullPages(hist, size, next + |pages[0].value|, pages[1..])
  }

  lemma FullAt(hist: seq<LogEntry>, size: nat, next: nat, els: seq<Element>, j: nat)
    requires FullPage(hist, size, next, els) && j < |els| && next + j < size
    ensures next + j < |hist| && els[j] == Item(hist[next + j]) && |els[j].entry.value| <= MAX_VALUE_BYTES
  {
  }

  lemma FullNext(hist: seq<LogEntry>, size: nat, next: nat, pages: seq<Resp<seq<Element>>>, k: nat)
    requires k <= |pages| && next < size && FullPages(hist, size, next, pages[k..])
    ensures k < |pages| && pages[k].Body? && pages[k].value != [] && FullPage(hist, size, next, pages[k].value)
    ensures FullPages(hist, size, next + |pages[k].value|, pages[k + 1..])
  {
    hide FullPage;
    assert pages[k..] != [];
    assert pages[k..][0] == pages[k] && pages[k..][1..] == pages[k + 1..];
    FullSome(hist, size, next, pages[k].value);
  }

  lemma FullSome(hist: seq<LogEntry>, size: nat, next: nat, els: seq<Element>)
    requires FullPage(hist, size, next, els)
    ensures els != []
  {
  }

  lemma PageAt(hist: seq<LogEntry>, size: nat, next: nat, els: seq<Element>, j: nat)
    requires FaithfulPage(hist, size, next, els) && j < |els| && next + j < size
    ensures next + j < |hist| && (els[j].Malformed? || els[j] == Item(hist[next + j]))
  {
  }

  lemma PagesFrom(hist: seq<LogEntry>, size: nat, next: nat, pages: seq<Resp<seq<Element>>>)
    ensures FaithfulPages(hist, size, next, pages) <==> FaithfulPages(hist, size, next, pages[0..])
  {
    assert pages[0..] == pages;
  }

  lemma PagesNext(hist: seq<LogEntry>, size: nat, next: nat, pages: seq<Resp<seq<Element>>>, k: nat)
    requires k < |pages| && FaithfulPages(hist, size, next, pages[k..]) && pages[k].Body?
    ensures FaithfulPage(hist, size, next, pages[k].value)
    ensures FaithfulPages(hist, size, next + |pages[k].value|, pages[k + 1..])
  {
    hide FaithfulPage;
    assert pages[k..][0] == pages[k] && pages[k..][1..] == pages[k + 1..];
  }

  /** These are the entries of the history from `from` on. */
  ghost predicate Copied(hist: seq<LogEntry>, from: nat, es: seq<LogEntry>) {
    (es == [] || from + |es| <= |hist|) && forall i :: 0 <= i < |es| ==> es[i] == hist[from + i]
  }

  lemma NothingCopied(hist: seq<LogEntry>, from: nat)
    ensures Copied(hist, from, [])
  {
  }

  lemma CopiedMore(hist: seq<LogEntry>, from: nat, es: seq<LogEntry>, e: LogEntry)
    requires Copied(hist, from, es) && from + |es| < |hist| && e == hist[from + |es|]
    ensures Copied(hist, from, es + [e])
  {
  }

  lemma NothingShaped(mode: Mode)
    ensures AllShaped(mode, [])
  {
  }

  lemma ShapedMore(mode: Mode, es: seq<LogEntry>, e: LogEntry)
    requires AllShaped(mode, es) && Shaped(mode, e)
    ensures AllShaped(mode, es + [e])
  {
    hide Shaped;
  }

  /**
   An honest log over a transport that delivers faithfully, fails, or brings a body of the wrong
   shape: a head that verifies is of its one history and not older than the mirror's; a proof of
   the right shape is the log's own; each page is the history's, or has elements of no shape.
   What is held is a part of that history, and the history is one a mirror accepts.
   */
  ghost predicate Honest(w: World, hist: seq<LogEntry>, held: seq<LogEntry>, sth: Resp<SignedHead>, cons: Resp<Extension>,
                         pages: seq<Resp<seq<Element>>>) {
    && Holds(w, hist) && held <= hist
    && (sth.Body? && Verifies(sth.value) ==> HonestAnswers(w, hist, |held|, sth.value.msg, cons, pages))
  }

  ghost predicate HonestAnswers(w: World, hist: seq<LogEntry>, from: nat, h: HeadMsg, cons: Resp<Extension>,
                                pages: seq<Resp<seq<Element>>>) {
    && Describes(w.mode, h, hist) && from <= h.size
    && (cons.Body? && cons.value.first == from && cons.value.second == h.size && 0 < from < h.size ==>
      cons.value.proof == Proof(from, Leaves(w.mode, hist[..h.size])))
    && FaithfulPages(hist, h.size, from, pages)
  }

  predicate Heard(sth: Resp<SignedHead>, maxEntries: nat) {
    sth.Body? && Verifies(sth.value) && sth.value.msg.size <= maxEntries
  }

  lemma HeardIs(sth: Resp<SignedHead>, maxEntries: nat)
    ensures Heard(sth, maxEntries) <==> sth.Body? && Verifies(sth.value) && sth.value.msg.size <= maxEntries
  {
  }

  /** What poisons at once, whoever is to blame: an older head, or a proof of the right shape that does not verify. */
  ghost predicate Stale(w: World, h: HeadMsg, cons: Resp<Extension>, held: seq<LogEntry>, last: Option<HeadMsg>) {
    || h.size < |held|
    || (0 < |held| < h.size && last.Some? && cons.Body? && cons.value.first == |held| && cons.value.second == h.size &&
      !Consistent(|held|, h.size, last.value.logRoot, h.logRoot, cons.value.proof))
  }

  /** An honest log whose consistency proof the transport may have changed. */
  ghost predicate HonestButProof(w: World, hist: seq<LogEntry>, held: seq<LogEntry>, sth: Resp<SignedHead>,
                                 pages: seq<Resp<seq<Element>>>) {
    && Holds(w, hist) && held <= hist
    && (sth.Body? && Verifies(sth.value) ==>
      Describes(w.mode, sth.value.msg, hist) && |held| <= sth.value.msg.size && FaithfulPages(hist, sth.value.msg.size, |held|, pages))
  }

  /** A proof of the right shape that is not the log's own. */
  ghost predicate WrongProof(w: World, hist: seq<LogEntry>, held: seq<LogEntry>, h: HeadMsg, cons: Resp<Extension>) {
    && 0 < |held| < h.size <= |hist| && cons.Body? && cons.value.first == |held| && cons.value.second == h.size
    && cons.value.proof != Proof(|held|, Leaves(w.mode, hist[..h.size]))
  }

  /** Any part of the log's proof is a wrong one, and there is always something to cut off. */
  lemma CutProof(w: World, hist: seq<LogEntry>, held: seq<LogEntry>, h: HeadMsg, n: nat)
    requires 0 < |held| < h.size <= |hist|
    ensures var proof := Proof(|held|, Leaves(w.mode, hist[..h.size]));
      proof != [] && (n < |proof| ==> WrongProof(w, hist, held, h, Body(Extension(|held|, h.size, proof[..n]))))
  {
    hide Proof, Leaves, Mth, Consistent;
    var d := Leaves(w.mode, hist[..h.size]);
    LeavesPrefix(w.mode, hist[..h.size], |held|);
    ConsistencyExact(d, |held|, Mth(d[..|held|]), []);
    EmptyRefused(|held|, h.size, Mth(d[..|held|]), Mth(d));
  }

  lemma EmptyRefused(first: nat, second: nat, firstRoot: Digest, secondRoot: Digest)
    requires 0 < first < second
    ensures !Consistent(first, second, firstRoot, secondRoot, [])
  {
    hide SubRoots;
    NoEmptyProof(first, second, firstRoot);
  }

  /** Against an honest log the proof alone decides: a wrong one contradicts, and with no wrong one all is honest. */
  lemma ProofDecides(w: World, hist: seq<LogEntry>, held: seq<LogEntry>, sth: Resp<SignedHead>, cons: Resp<Extension>,
                     pages: seq<Resp<seq<Element>>>, last: Option<HeadMsg>)
    requires HonestButProof(w, hist, held, sth, pages) && sth.Body? && Verifies(sth.value)
    requires if last.Some? then last.value == HeadOf(w.mode, held, last.value.ts) else held == []
    ensures WrongProof(w, hist, held, sth.value.msg, cons) ==> Stale(w, sth.value.msg, cons, held, last)
    ensures !WrongProof(w, hist, held, sth.value.msg, cons) ==> Honest(w, hist, held, sth, cons, pages)
  {
    hide Verifies, FaithfulPages, Holds, Proof, Mth, Latest, Canon, Leaves, Consistent;
    var h := sth.value.msg;
    if WrongProof(w, hist, held, h, cons) {
      var d := Leaves(w.mode, hist[..h.size]);
      LeavesPrefix(w.mode, hist[..h.size], |held|);
      assert hist[..h.size][..|held|] == held;
      ConsistencyExact(d, |held|, Mth(Leaves(w.mode, held)), cons.value.proof);
    }
  }

  lemma StaleMeans(w: World, h: HeadMsg, cons: Resp<Extension>, held: seq<LogEntry>, last: Option<HeadMsg>)
    requires Stale(w, h, cons, held, last)
    ensures h.size < |held| || (0 < |held| < h.size && last.Some? && cons.Body? && cons.value.first == |held| && cons.value.second == h.size)
    ensures h.size >= |held| ==> !Consistent(|held|, h.size, last.value.logRoot, h.logRoot, cons.value.proof)
  {
    hide Consistent;
  }

  /** A sync in which everything arrives: whole pages, none of a value past the cap. */
  ghost predicate Delivered(w: World, hist: seq<LogEntry>, held: seq<LogEntry>, sth: Resp<SignedHead>, cons: Resp<Extension>,
                            pages: seq<Resp<seq<Element>>>) {
    && Honest(w, hist, held, sth, cons, pages) && sth.Body? && Verifies(sth.value)
    && (0 < |held| < sth.value.msg.size ==> cons.Body? && cons.value.first == |held| && cons.value.second == sth.value.msg.size)
    && FullPages(hist, sth.value.msg.size, |held|, pages)
  }

  lemma DeliveredMeans(w: World, hist: seq<LogEntry>, held: seq<LogEntry>, sth: Resp<SignedHead>, cons: Resp<Extension>,
                       pages: seq<Resp<seq<Element>>>)
    requires Delivered(w, hist, held, sth, cons, pages)
    ensures Honest(w, hist, held, sth, cons, pages) && sth.Body? && Verifies(sth.value) && sth.value.msg.size >= 0
    ensures 0 < |held| < sth.value.msg.size ==> cons.Body? && cons.value.first == |held| && cons.value.second == sth.value.msg.size
    ensures FullPages(hist, sth.value.msg.size, |held|, pages)
  {
    hide Honest, FullPages;
  }

  lemma SyncFacts(w: World, hist: seq<LogEntry>, held: seq<LogEntry>, sth: Resp<SignedHead>, cons: Resp<Extension>,
                  pages: seq<Resp<seq<Element>>>)
    ensures Honest(w, hist, held, sth, cons, pages) ==> held <= hist
    ensures Delivered(w, hist, held, sth, cons, pages) ==> sth.Body? && Verifies(sth.value)
  {
    hide HonestAnswers, FullPages, Holds, Verifies;
  }

  /** A disk that writes. */
  predicate Writes(disk: Disk) {
    disk.writes == [] && !disk.fsyncFails && !disk.headFails
  }

  lemma WritesAll(disk: Disk, n: nat)
    ensures Writes(disk) ==> Puts(disk.writes, n) && !disk.fsyncFails && !disk.headFails
  {
  }

  lemma HonestMeans(w: World, hist: seq<LogEntry>, held: seq<LogEntry>, sth: Resp<SignedHead>, cons: Resp<Extension>,
                    pages: seq<Resp<seq<Element>>>)
    requires Honest(w, hist, held, sth, cons, pages)
    ensures held <= hist
    ensures sth.Body? && Verifies(sth.value) ==>
      sth.value.msg.size >= |held| && FaithfulPages(hist, sth.value.msg.size, |held|, pages)
  {
    hide Verifies, FaithfulPages, Holds, Proof, HeadOf;
  }

  lemma HonestHead(w: World, hist: seq<LogEntry>, held: seq<LogEntry>, sth: Resp<SignedHead>, cons: Resp<Extension>,
                   pages: seq<Resp<seq<Element>>>)
    requires Honest(w, hist, held, sth, cons, pages) && sth.Body? && Verifies(sth.value) && sth.value.msg.size == |held|
    ensures sth.value.msg == HeadOf(w.mode, held, sth.value.msg.ts)
  {
    hide Verifies, FaithfulPages, Holds, Proof, HeadOf;
    assert hist[..|held|] == held;
  }

  lemma HonestExtends(w: World, hist: seq<LogEntry>, held: seq<LogEntry>, sth: Resp<SignedHead>, cons: Resp<Extension>,
                      pages: seq<Resp<seq<Element>>>)
    requires Honest(w, hist, held, sth, cons, pages) && sth.Body? && Verifies(sth.value)
    requires cons.Body? && cons.value.first == |held| && cons.value.second == sth.value.msg.size && 0 < |held| < sth.value.msg.size
    ensures Consistent(|held|, sth.value.msg.size, Mth(Leaves(w.mode, held)), sth.value.msg.logRoot, cons.value.proof)
  {
    hide Verifies, FaithfulPages, Holds, Proof, Mth, Latest, Canon, Leaves, Consistent;
    var h := sth.value.msg;
    var d := Leaves(w.mode, hist[..h.size]);
    LeavesPrefix(w.mode, hist[..h.size], |held|);
    assert hist[..h.size][..|held|] == held;
    ConsistencyExact(d, |held|, Mth(Leaves(w.mode, held)), cons.value.proof);
  }

  lemma HonestDelta(w: World, hist: seq<LogEntry>, held: seq<LogEntry>, sth: Resp<SignedHead>, cons: Resp<Extension>,
                    pages: seq<Resp<seq<Element>>>, es: seq<LogEntry>)
    requires Honest(w, hist, held, sth, cons, pages) && sth.Body? && Verifies(sth.value)
    requires Copied(hist, |held|, es) && |held| + |es| == sth.value.msg.size
    ensures held + es <= hist && Holds(w, held + es)
    ensures sth.value.msg == HeadOf(w.mode, held + es, sth.value.msg.ts)
  {
    hide Verifies, FaithfulPages, Holds, Proof, HeadOf;
    var n := sth.value.msg.size;
    assert hist[..n] == held + es;
    HoldsPrefix(w, hist, n);
  }

  lemma HoldsPrefix(w: World, es: seq<LogEntry>, n: nat)
    requires Holds(w, es) && n <= |es|
    ensures Holds(w, es[..n])
  {
    hide Follows, RuleRun;
    FollowsPrefix(w.mode, es, n);
    if w.mode.Handles? {
      RulePrefix(w, es, n);
    }
  }

  lemma ShapedLabel(mode: Mode, e: LogEntry)
    requires Shaped(mode, e)
    ensures |e.lbl| == DEPTH
  {
  }

  // --- Crashes --------------------------------------------------------------------------------

  /**
   A directory left by a crash, opened: with a head, the verified entries and exactly their
   bytes; before the first head, an empty mirror, or none if entries were on their way.
   */
  method Restart(w: World, c: Codec, s: Snapshot<HeadOnDisk>, maxEntries: nat, window: nat, ghost clean: Bytes, ghost held: seq<LogEntry>)
    returns (mirror: Mirror, ok: bool)
    requires window >= 1 && Lets(w.mode, c) && OwnState(w, c, s, clean, held) && |held| < WORD && maxEntries < WORD
    ensures ok <==> s.head.OnFile? || s.data == ""
    ensures mirror.w == w && mirror.codec == c && mirror.maxEntries == maxEntries && fresh(mirror) && fresh(mirror.dir)
    ensures fresh(mirror.tree) && fresh(mirror.tree.memo) && fresh(mirror.map_)
    ensures mirror.dir.first == s && mirror.dir.Head() == s.head && mirror.held == held && mirror.clean == clean
    ensures ok ==> mirror.AtHead() && mirror.entries == held && HeadIs(s.head, mirror.head) && mirror.dir.Data() == clean
    ensures ok ==> mirror.Valid() && mirror.Rest() && !mirror.poisoned && !mirror.needsReload
  {
    hide *;
    var dir := new Directory(s);
    dir.NowIs();
    mirror := new Mirror(w, c, dir, maxEntries);
    mirror.OwnDirOf(clean, held);
    mirror.OwnMeans(clean, held);
    if s.head.OnFile? {
      HeadFields(w.mode, held, s.head.msg.ts);
    }
    ok := mirror.Load(window, clean, held);
    mirror.clean, mirror.held := clean, held;
    CleanNoHead(w, c, clean, s.head, held);
    if ok {
      mirror.RestIs();
      mirror.OwnIs(clean, held);
      mirror.ValidIs();
    }
  }

  lemma CleanNoHead(w: World, c: Codec, clean: Bytes, head: HeadOnDisk, held: seq<LogEntry>)
    requires Clean(w, c, clean, head, held)
    ensures head.NoHead? ==> clean == ""
  {
  }

  /** The state of the directory so many changes after `start`, or at the end of them. */
  function StateAfter(start: nat, end: nat, changes: nat): nat {
    if start + changes < end then start + changes else end
  }

  /**
   A sync cut off after so many changes of its directory, and the mirror opened on what they left: it
   holds what was verified before, or all of what the sync verified, with the head of those
   entries. Only before the first head can it fail to open.
   */
  method SyncAndCrash(mirror: Mirror, sth: Resp<SignedHead>, cons: Resp<Extension>, pages: seq<Resp<seq<Element>>>, window: nat,
                      spoolFails: bool, disk: Disk, changes: nat, ghost hist: seq<LogEntry>)
    returns (next: Mirror, ok: bool)
    requires mirror.Valid() && window >= 1 && PagesShaped(mirror.w.mode, pages)
    modifies mirror, mirror.tree, mirror.tree.memo, mirror.map_, mirror.dir
    ensures old(mirror.held) <= mirror.held && old(mirror.dir.later) <= mirror.dir.later
    ensures fresh(next) && fresh(next.dir) && fresh(next.tree) && fresh(next.tree.memo) && fresh(next.map_)
    ensures next.dir.first == mirror.dir.At(StateAfter(|old(mirror.dir.later)|, |mirror.dir.later|, changes))
    ensures next.w == mirror.w && next.codec == mirror.codec && next.maxEntries == mirror.maxEntries
    ensures old(mirror.dir.Head()).OnFile? ==> ok
    ensures ok ==> next.Valid() && next.Rest() && !next.poisoned && !next.needsReload && next.entries == next.held
    ensures Honest(mirror.w, hist, old(mirror.held), sth, cons, pages) ==> mirror.held <= hist
    ensures next.dir.Head().OnFile? ==> next.dir.Head().msg == HeadOf(mirror.w.mode, next.held, next.dir.Head().msg.ts)
    ensures ok && next.dir.Head().OnFile? ==> next.head == Some(next.dir.Head().msg)
    ensures (next.dir.Head() == old(mirror.dir.Head()) && next.held == old(mirror.held)) || (next.dir.Head().OnFile? && next.held == mirror.held)
  {
    hide *;
    ghost var held, clean := mirror.held, mirror.clean;
    var first, before := mirror.dir.Now(), mirror.dir.later;
    mirror.ValidMeans();
    mirror.OwnDirOf(clean, held);
    mirror.dir.NowIs();
    var _ := mirror.Sync(sth, cons, pages, window, spoolFails, disk, hist);
    mirror.ValidMeans();
    SafeSteps(mirror.w, mirror.codec, before, mirror.dir.later, clean, held, first.head, mirror.clean, mirror.held);
    var at := StateAfter(|before|, |mirror.dir.later|, changes);
    StateIs(mirror.dir, before, first, changes);
    var s := mirror.dir.At(at);
    ghost var kept, part := held, clean;
    if !(s.head == first.head && OwnState(mirror.w, mirror.codec, s, clean, held)) {
      kept, part := mirror.held, mirror.clean;
    }
    OwnStateHead(mirror.w, mirror.codec, s, part, kept);
    OwnStateHead(mirror.w, mirror.codec, first, clean, held);
    next, ok := Restart(mirror.w, mirror.codec, s, mirror.maxEntries, window, part, kept);
    if ok {
      HeadIsOnFile(s.head, next.head);
    }
  }

  lemma StateIs(dir: MirrorDir, before: seq<Snapshot<HeadOnDisk>>, first: Snapshot<HeadOnDisk>, changes: nat)
    requires before <= dir.later && first == if before == [] then dir.first else before[|before| - 1]
    ensures var at := StateAfter(|before|, |dir.later|, changes);
      |before| <= at <= |dir.later| && dir.At(at) == if at == |before| then first else dir.later[at - 1]
  {
  }

  lemma SafeSteps(w: World, c: Codec, before: seq<Snapshot<HeadOnDisk>>, after: seq<Snapshot<HeadOnDisk>>,
                  clean: Bytes, held: seq<LogEntry>, head: HeadOnDisk, clean': Bytes, held': seq<LogEntry>)
    requires AllSafe(w, c, before, after, clean, held, head, clean', held')
    ensures before <= after
    ensures forall i :: |before| <= i < |after| ==>
      (after[i].head == head && OwnState(w, c, after[i], clean, held)) || (after[i].head.OnFile? && OwnState(w, c, after[i], clean', held'))
  {
    hide OwnState;
    forall i | |before| <= i < |after|
      ensures (after[i].head == head && OwnState(w, c, after[i], clean, held)) || (after[i].head.OnFile? && OwnState(w, c, after[i], clean', held'))
    {
      assert SafeState(w, c, after[i], clean, held, head, clean', held');
    }
  }

  lemma OwnStateHead(w: World, c: Codec, s: Snapshot<HeadOnDisk>, clean: Bytes, held: seq<LogEntry>)
    requires OwnState(w, c, s, clean, held)
    ensures s.head.OnFile? ==> s.head.msg == HeadOf(w.mode, held, s.head.msg.ts)
    ensures !s.head.OnFile? ==> s.head == NoHead && held == []
  {
  }

  lemma HeadIsOnFile(disk: HeadOnDisk, head: Option<HeadMsg>)
    requires HeadIs(disk, head)
    ensures disk.OnFile? ==> head == Some(disk.msg)
  {
  }

  /**
   Opening a directory that holds a head, whatever a crash left after its verified part, and
   opening it again: both give the verified entries, the first cuts off exactly what
   follows them, and the second finds nothing to do.
   */
  method OpenTwice(w: World, c: Codec, dir: MirrorDir, maxEntries: nat, window: nat, ghost clean: Bytes, ghost held: seq<LogEntry>)
    returns (first: Mirror, second: Mirror)
    requires window >= 1 && Lets(w.mode, c) && dir.Head().OnFile? && dir.Head().msg.size < WORD
    requires Clean(w, c, clean, dir.Head(), held) && clean <= dir.Data()
    modifies dir
    ensures first.entries == held && first.AtHead() && first.repaired == |old(dir.Data())| - |clean|
    ensures second.entries == held && second.AtHead() && second.repaired == 0
    ensures dir.Data() == clean
  {
    hide *;
    first := new Mirror(w, c, dir, maxEntries);
    first.OwnIs(clean, held);
    var ok := first.Load(window, clean, held);
    second := new Mirror(w, c, dir, maxEntries);
    second.OwnIs(clean, held);
    ok := second.Load(window, clean, held);
  }
}
