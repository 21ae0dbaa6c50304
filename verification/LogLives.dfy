/**
 The log over its whole service (kt/lib/log.js, kt/tools/repair.js): lives of the process on one
 directory, each ended by a crash that leaves any state the disk went through in its last step,
 then a repair and a new start. No entry that was acknowledged is lost, and no two heads fork.
 Last, what a write that could not be taken back does to the entry written after it.
 */
module LogLives {
  import opened Options
  import opened Digests
  import opened LogTree
  import opened LogVerify
  import opened PowerTest
  import opened LogState
  import opened FileStore
  import opened KtLogs

  /** What a running log is asked: a publish, to keep its head alive, or a head for an answer. */
  datatype Op =
    | Publishing(q: Request, disk: Disk)
    | KeepingAlive(force: bool, headFails: bool)
    | Answering

  datatype Step = Step(op: Op, now: nat)

  /**
   A start, the steps the process is asked, and when it dies: after so many changes of the disk, or once
   it has done all of them.
   */
  datatype Life = Life(now: int, chunkBytes: nat, window: nat, headFails: bool, steps: seq<Step>, crash: Option<nat>)

  /** The state of the disk that a life leaves: it began at `start` and would have got to `end`. */
  function CrashAt(life: Life, start: nat, end: nat): nat {
    if life.crash.Some? && start + life.crash.value < end then start + life.crash.value else end
  }

  /** Where a run stands: its entries, and those of them that were acknowledged. */
  datatype Standing = Standing(entries: seq<LogEntry>, acked: seq<LogEntry>)

  /** What a step that is finished adds to the entries. */
  function Grown(w: World, c: Codec, es: seq<LogEntry>, step: Step): seq<LogEntry> {
    match step.op
    case Publishing(q, disk) => if Stores(w, c, es, q, step.now, disk) then [EntryFor(w, es, q, step.now)] else []
    case _ => []
  }

  /** And what of it is acknowledged: an entry whose head was recorded. */
  function Acked(w: World, c: Codec, es: seq<LogEntry>, step: Step): seq<LogEntry> {
    if step.op.Publishing? && step.op.disk.headFails then [] else Grown(w, c, es, step)
  }

  /** The most that a step cut off anywhere may have added. */
  function Reach(w: World, es: seq<LogEntry>, step: Step): seq<LogEntry> {
    if step.op.Publishing? then es + [EntryFor(w, es, step.op.q, step.now)] else es
  }

  function RunOf(w: World, c: Codec, hist: seq<LogEntry>, steps: seq<Step>): Standing {
    if steps == [] then Standing(hist, [])
    else
      var s, step := RunOf(w, c, hist, steps[..|steps| - 1]), steps[|steps| - 1];
      Standing(s.entries + Grown(w, c, s.entries, step), s.acked + Acked(w, c, s.entries, step))
  }

  /** No step meets a truncation that throws, and the start none of the head file. */
  predicate Restorable(life: Life) {
    !life.headFails && forall i :: 0 <= i < |life.steps| && life.steps[i].op.Publishing? ==> !life.steps[i].op.disk.truncateFails
  }

  /** A life that finished so many of its steps: what was acknowledged in it, and the history it leaves. */
  ghost predicate LifeRun(w: World, c: Codec, hist: seq<LogEntry>, life: Life, done: nat, acked: seq<LogEntry>, hist': seq<LogEntry>) {
    && done <= |life.steps| && (Restorable(life) && life.crash.None? ==> done == |life.steps|)
    && var s := RunOf(w, c, hist, life.steps[..done]);
      acked == s.acked &&
      (hist' == s.entries || (done < |life.steps| && hist' == Reach(w, s.entries, life.steps[done])))
  }

  lemma RestorableIs(life: Life)
    ensures Restorable(life) ==> !life.headFails
    ensures Restorable(life) ==> forall i :: 0 <= i < |life.steps| && life.steps[i].op.Publishing? ==> !life.steps[i].op.disk.truncateFails
  {
  }

  /** A life under way: `i` steps begun, all but the last of them finished, and it too unless the process has ended. */
  ghost predicate Stands(w: World, c: Codec, hist: seq<LogEntry>, steps: seq<Step>, i: nat, halted: bool, was: seq<LogEntry>,
                         now: seq<LogEntry>, next: seq<LogEntry>, acked: seq<LogEntry>, last: seq<LogEntry>) {
    && i <= |steps|
    && (!halted ==> RunOf(w, c, hist, steps[..i]) == Standing(now, acked + last))
    && if i == 0 then was == next == hist && acked == []
       else RunOf(w, c, hist, steps[..i - 1]) == Standing(was, acked) && next == Reach(w, was, steps[i - 1])
  }

  lemma StandsStart(w: World, c: Codec, hist: seq<LogEntry>, steps: seq<Step>, halted: bool, now: seq<LogEntry>)
    requires !halted ==> now == hist
    ensures Stands(w, c, hist, steps, 0, halted, hist, now, hist, [], [])
  {
  }

  lemma StandsNext(w: World, c: Codec, hist: seq<LogEntry>, steps: seq<Step>, i: nat, was: seq<LogEntry>, now: seq<LogEntry>,
                   next: seq<LogEntry>, acked: seq<LogEntry>, last: seq<LogEntry>, halted: bool, now': seq<LogEntry>, last': seq<LogEntry>)
    requires i < |steps| && Stands(w, c, hist, steps, i, false, was, now, next, acked, last)
    requires !halted ==> now' == now + Grown(w, c, now, steps[i]) && last' == Acked(w, c, now, steps[i])
    ensures Stands(w, c, hist, steps, i + 1, halted, now, now', Reach(w, now, steps[i]), acked + last, last')
  {
    hide Grown, Acked, Reach;
    assert steps[..i + 1][..i] == steps[..i];
  }

  lemma StandsMeans(w: World, c: Codec, hist: seq<LogEntry>, steps: seq<Step>, i: nat, was: seq<LogEntry>, now: seq<LogEntry>,
                    next: seq<LogEntry>, acked: seq<LogEntry>, last: seq<LogEntry>)
    requires Stands(w, c, hist, steps, i, false, was, now, next, acked, last)
    ensures i <= |steps| && RunOf(w, c, hist, steps[..i]).entries == now
  {
  }

  /** The end of a life: after its last step, or somewhere in it. */
  lemma StandsEnd(w: World, c: Codec, hist: seq<LogEntry>, life: Life, i: nat, halted: bool, was: seq<LogEntry>, now: seq<LogEntry>,
                  next: seq<LogEntry>, acked: seq<LogEntry>, last: seq<LogEntry>)
    requires Stands(w, c, hist, life.steps, i, halted, was, now, next, acked, last)
    requires Restorable(life) && life.crash.None? ==> !halted && i == |life.steps|
    ensures !halted ==> LifeRun(w, c, hist, life, i, acked + last, now)
    ensures halted || life.crash.Some? ==> LifeRun(w, c, hist, life, if i == 0 then 0 else i - 1, acked, was)
    ensures halted || life.crash.Some? ==> LifeRun(w, c, hist, life, if i == 0 then 0 else i - 1, acked, next)
  {
    hide Grown, Acked, Reach;
  }

  // --- The heads that are handed out -----------------------------------------------------------

  /** The head a step signs: that of the entries it leaves, in a publish that is stored, a head kept alive, and an answer. */
  ghost predicate Handed(w: World, c: Codec, es: seq<LogEntry>, step: Step, given: Option<HeadMsg>) {
    var left := es + Grown(w, c, es, step);
    match step.op
    case Publishing(q, disk) => given == if Stores(w, c, es, q, step.now, disk) then Some(HeadOf(w.mode, left, step.now)) else None
    case KeepingAlive(force, _) => given == Some(HeadOf(w.mode, left, step.now)) || (!force && given == None)
    case Answering => given.Some? && given.value == HeadOf(w.mode, left, given.value.ts)
  }

  /** The heads of so many steps, each of the entries there were. */
  ghost predicate HandedAll(w: World, c: Codec, hist: seq<LogEntry>, steps: seq<Step>, given: seq<Option<HeadMsg>>) {
    |given| <= |steps| && forall i :: 0 <= i < |given| ==> Handed(w, c, RunOf(w, c, hist, steps[..i]).entries, steps[i], given[i])
  }

  ghost predicate AllSigned(given: seq<Option<HeadMsg>>, signed: set<HeadMsg>) {
    forall i :: 0 <= i < |given| && given[i].Some? ==> given[i].value in signed
  }

  lemma SignedStill(given: seq<Option<HeadMsg>>, signed: set<HeadMsg>, more: set<HeadMsg>)
    requires AllSigned(given, signed) && signed <= more
    ensures AllSigned(given, more)
  {
  }

  lemma HandedNext(w: World, c: Codec, hist: seq<LogEntry>, steps: seq<Step>, given: seq<Option<HeadMsg>>, one: Option<HeadMsg>, es: seq<LogEntry>)
    requires HandedAll(w, c, hist, steps, given) && |given| < |steps| && es == RunOf(w, c, hist, steps[..|given|]).entries
    requires Handed(w, c, es, steps[|given|], one)
    ensures HandedAll(w, c, hist, steps, given + [one])
  {
    hide Handed, RunOf;
  }

  /** The heads of a life under way: of the steps but the last, signed before it began, and of it too, unless the process has ended. */
  ghost predicate Heads(w: World, c: Codec, hist: seq<LogEntry>, steps: seq<Step>, i: nat, halted: bool, older: seq<Option<HeadMsg>>,
                        given: seq<Option<HeadMsg>>, adopted: Option<HeadMsg>, signed: set<HeadMsg>, now: set<HeadMsg>) {
    && |older| == (if i == 0 then 0 else i - 1) && HandedAll(w, c, hist, steps, older) && AllSigned(older, signed)
    && (!halted ==> |given| == i && HandedAll(w, c, hist, steps, given) && AllSigned(given, now))
    && AllSigned([adopted], if i == 0 then now else signed)
  }

  lemma HeadsStart(w: World, c: Codec, hist: seq<LogEntry>, steps: seq<Step>, halted: bool, adopted: Option<HeadMsg>,
                   signed: set<HeadMsg>, now: set<HeadMsg>)
    requires adopted.Some? ==> adopted.value in now
    ensures Heads(w, c, hist, steps, 0, halted, [], [], adopted, signed, now)
  {
  }

  lemma HeadsNext(w: World, c: Codec, hist: seq<LogEntry>, steps: seq<Step>, i: nat, older: seq<Option<HeadMsg>>,
                  given: seq<Option<HeadMsg>>, adopted: Option<HeadMsg>, signed: set<HeadMsg>, now: set<HeadMsg>,
                  halted: bool, one: Option<HeadMsg>, es: seq<LogEntry>, now': set<HeadMsg>)
    requires Heads(w, c, hist, steps, i, false, older, given, adopted, signed, now) && i < |steps| && signed <= now <= now'
    requires es == RunOf(w, c, hist, steps[..i]).entries
    requires !halted ==> Handed(w, c, es, steps[i], one) && (one.Some? ==> one.value in now')
    ensures Heads(w, c, hist, steps, i + 1, halted, given, given + [one], adopted, now, now')
  {
    hide Handed, HandedAll, RunOf;
    if !halted {
      HandedNext(w, c, hist, steps, given, one, es);
    }
  }

  lemma HeadsEnd(w: World, c: Codec, hist: seq<LogEntry>, steps: seq<Step>, i: nat, halted: bool, older: seq<Option<HeadMsg>>,
                 given: seq<Option<HeadMsg>>, adopted: Option<HeadMsg>, signed: set<HeadMsg>, now: set<HeadMsg>)
    requires Heads(w, c, hist, steps, i, halted, older, given, adopted, signed, now)
    ensures |older| == (if i == 0 then 0 else i - 1) && HandedAll(w, c, hist, steps, older)
    ensures forall more: set<HeadMsg> :: signed <= more ==> AllSigned(older, more) && AllSigned([if i == 0 then None else adopted], more)
    ensures !halted ==> |given| == i && HandedAll(w, c, hist, steps, given)
    ensures !halted && signed <= now ==> AllSigned(given, now) && AllSigned([adopted], now)
  {
    hide HandedAll;
  }

  /** What a start signs: a head of what it read, where the head file had none or no boundary. */
  ghost predicate Adopted(w: World, hist: seq<LogEntry>, s: Snapshot<Outside>, adopted: Option<HeadMsg>) {
    if s.head.head.None? || s.head.head.value.boundary.None? then adopted.Some? && adopted.value == HeadOf(w.mode, hist, adopted.value.ts)
    else adopted.None?
  }

  /** Entries that stand in a history, each at its index. */
  ghost predicate AllIn(acked: seq<LogEntry>, hist: seq<LogEntry>) {
    forall i :: 0 <= i < |acked| ==> 0 <= acked[i].index < |hist| && hist[acked[i].index] == acked[i]
  }

  lemma AllInMore(acked: seq<LogEntry>, hist: seq<LogEntry>, hist': seq<LogEntry>)
    requires AllIn(acked, hist) && hist <= hist'
    ensures AllIn(acked, hist')
  {
  }

  lemma AckedOne(acked: seq<LogEntry>, hist: seq<LogEntry>, e: LogEntry)
    requires AllIn(acked, hist) && e.index == |hist|
    ensures AllIn(acked + [e], hist + [e])
  {
  }

  lemma EntryIndex(w: World, es: seq<LogEntry>, q: Request, now: int)
    ensures EntryFor(w, es, q, now).index == |es|
  {
  }

  /** A repair leaves the disk of the history, whether there was anything to cut off or not. */
  lemma Repaired(w: World, c: Codec, s: Snapshot<Outside>, hist: seq<LogEntry>)
    requires Survives(w, c, s, hist)
    ensures OwnAt(w, c, Snapshot(s.data[..Complete(s.data)], s.head), hist)
  {
    hide Complete, Plain, Replays, Describes, OwnHead;
    if OwnAt(w, c, s, hist) {
      RepairUndoes(s.data, "", c.parse);
      assert s.data + "" == s.data;
    }
  }

  lemma OwnSurvives(w: World, c: Codec, s: Snapshot<Outside>, hist: seq<LogEntry>)
    requires OwnAt(w, c, s, hist)
    ensures Survives(w, c, s, hist)
  {
  }

  lemma OwnIsGenuine(w: World, c: Codec, s: Snapshot<Outside>, hist: seq<LogEntry>)
    requires OwnAt(w, c, s, hist)
    ensures Own(w, c, s.data, s.head.head, s.head.signed, hist)
    ensures Genuine(s.head) && NoFork(w.mode, s.head.signed, hist) && Lines(c, s.data) == hist
  {
  }

  /**
   What is known at any time: before the last step the disk was that of `was`, and each state
   since survives, with that history or with `now`.
   */
  ghost predicate Running(w: World, c: Codec, dir: LogDir, mark: nat, was: seq<LogEntry>, now: seq<LogEntry>)
    reads dir
  {
    mark <= |dir.later| && OwnAt(w, c, dir.At(mark), was) && was <= now &&
    AllSurvive(w, c, dir.later[..mark], dir.later, was, now) &&
    KeepsSigned(dir.later[..mark], dir.later, dir.At(mark).head.signed)
  }

  /** Any of those states survives. */
  lemma AnyState(w: World, c: Codec, dir: LogDir, mark: nat, was: seq<LogEntry>, now: seq<LogEntry>, i: nat)
    requires Running(w, c, dir, mark, was, now) && mark <= i <= |dir.later|
    ensures Survives(w, c, dir.At(i), was) || Survives(w, c, dir.At(i), now)
    ensures dir.At(mark).head.signed <= dir.At(i).head.signed
  {
    hide Survives, OwnAt;
    if i == mark {
      OwnSurvives(w, c, dir.At(mark), was);
    } else {
      assert dir.At(i) == dir.later[i - 1];
    }
  }

  lemma RunningFrom(w: World, c: Codec, dir: LogDir, before: seq<Snapshot<Outside>>, was: seq<LogEntry>, now: seq<LogEntry>)
    requires before <= dir.later && OwnAt(w, c, dir.At(|before|), was) && was <= now
    requires AllSurvive(w, c, before, dir.later, was, now) && KeepsSigned(before, dir.later, dir.At(|before|).head.signed)
    ensures Running(w, c, dir, |before|, was, now)
  {
    assert dir.later[..|before|] == before;
  }

  lemma OwnIsSurvive(w: World, c: Codec, before: seq<Snapshot<Outside>>, after: seq<Snapshot<Outside>>, hist: seq<LogEntry>)
    requires AllOwn(w, c, before, after, hist)
    ensures AllSurvive(w, c, before, after, hist, hist)
  {
    forall i | |before| <= i < |after|
      ensures Survives(w, c, after[i], hist)
    {
      assert OwnAt(w, c, after[i], hist);
    }
  }

  /** A head was signed for an answer: the state since is the log's own. */
  lemma OnlySignedOwn(w: World, c: Codec, before: seq<Snapshot<Outside>>, after: seq<Snapshot<Outside>>, was: Snapshot<Outside>,
                      now: Snapshot<Outside>, hist: seq<LogEntry>)
    requires OnlySigned(before, after, was, now) && OwnAt(w, c, now, hist)
    ensures AllOwn(w, c, before, after, hist) && KeepsSigned(before, after, was.head.signed)
  {
  }

  /** The state before the changes since `before`. */
  lemma StateBefore(dir: LogDir, before: seq<Snapshot<Outside>>, now: Snapshot<Outside>)
    requires before <= dir.later && now == if before == [] then dir.first else before[|before| - 1]
    ensures dir.At(|before|) == now
  {
  }

  /** One step of a running log. */
  method Do(log: KtLog, step: Step, resignMs: int)
    returns (ghost acked: seq<LogEntry>, halted: bool, ghost next: seq<LogEntry>, given: Option<HeadMsg>)
    requires log.Valid() && log.boundary.Some? && |log.entries| + 1 < WORD && step.now < U64
    modifies log, log.tree, log.tree.memo, log.map_, log.dir
    ensures !halted ==> log.Valid() && log.boundary.Some?
    ensures |acked| <= 1 && (halted ==> acked == []) && old(log.entries) <= log.entries && |log.entries| <= |old(log.entries)| + 1
    ensures AllIn(acked, log.entries)
    ensures !halted ==> log.entries == old(log.entries) + Grown(log.w, log.codec, old(log.entries), step)
    ensures !halted ==> acked == Acked(log.w, log.codec, old(log.entries), step)
    ensures !halted ==> Handed(log.w, log.codec, old(log.entries), step, given) && (given.Some? ==> given.value in log.dir.Head().signed)
    ensures halted ==> step.op.Publishing? && step.op.disk.truncateFails
    ensures next == Reach(log.w, old(log.entries), step)
    ensures old(log.dir.later) <= log.dir.later
    ensures log.entries <= next && old(log.entries) <= next && |next| <= |old(log.entries)| + 1
    ensures AllSurvive(log.w, log.codec, old(log.dir.later), log.dir.later, old(log.entries), next)
    ensures KeepsSigned(old(log.dir.later), log.dir.later, old(log.dir.Head().signed))
  {
    hide *;
    ghost var hist, before := log.entries, log.dir.later;
    acked, halted, next, given := [], false, hist, None;
    NoneAcked(log.entries);
    HandedIs(log.w, log.codec, hist, step);
    StepIs(log.w, log.codec, hist, step);
    match step.op
    case Publishing(q, disk) =>
      ghost var e := EntryFor(log.w, hist, q, step.now);
      EntryIndex(log.w, hist, q, step.now);
      var r := log.Publish(q, step.now, resignMs, disk);
      SurvivePrefix(log.w, log.codec, before, log.dir.later, hist, hist + [e]);
      halted, next := r.Halted?, hist + [e];
      if r.Published? || r.NotAcknowledged? {
        given := log.sth;
      }
      if r.Published? {
        AckedOne([], hist, e);
        assert [] + [e] == [e];
        acked := [e];
      } else {
        NoneAcked(log.entries);
      }
    case KeepingAlive(force, headFails) =>
      var wrote, _ := log.KeepAlive(force, step.now, resignMs, headFails);
      given := if wrote then log.sth else None;
      OwnIsSurvive(log.w, log.codec, before, log.dir.later, hist);
      NoneAcked(log.entries);
    case Answering =>
      ghost var was := log.dir.Now();
      log.dir.NowIs();
      var h := log.HeadFor(step.now, resignMs);
      given := Some(h);
      OwnOfValid(log);
      OnlySignedOwn(log.w, log.codec, before, log.dir.later, was, log.dir.Now(), hist);
      OwnIsSurvive(log.w, log.codec, before, log.dir.later, hist);
      SignedPrefix(before, log.dir.later, was, log.dir.Now());
      NoneAcked(log.entries);
  }

  lemma StepIs(w: World, c: Codec, es: seq<LogEntry>, step: Step)
    ensures step.op.Publishing? ==>
      var q, disk := step.op.q, step.op.disk;
      var e := EntryFor(w, es, q, step.now);
      Reach(w, es, step) == es + [e] && Grown(w, c, es, step) == (if Stores(w, c, es, q, step.now, disk) then [e] else []) &&
      Acked(w, c, es, step) == (if Stores(w, c, es, q, step.now, disk) && !disk.headFails then [e] else [])
    ensures !step.op.Publishing? ==> Reach(w, es, step) == es && Grown(w, c, es, step) == [] && Acked(w, c, es, step) == []
    ensures es + [] == es
  {
    hide Stores;
  }

  lemma HandedIs(w: World, c: Codec, es: seq<LogEntry>, step: Step)
    ensures forall given :: Handed(w, c, es, step, given) <==>
      var left := es + Grown(w, c, es, step);
      if step.op.Publishing? then
        given == if Stores(w, c, es, step.op.q, step.now, step.op.disk) then Some(HeadOf(w.mode, left, step.now)) else None
      else if step.op.KeepingAlive? then given == Some(HeadOf(w.mode, left, step.now)) || (!step.op.force && given == None)
      else given.Some? && given.value == HeadOf(w.mode, left, given.value.ts)
  {
    hide Stores, HeadOf, Grown;
  }

  lemma NoneAcked(hist: seq<LogEntry>)
    ensures AllIn([], hist)
  {
  }

  lemma SurvivePrefix(w: World, c: Codec, before: seq<Snapshot<Outside>>, after: seq<Snapshot<Outside>>, hist: seq<LogEntry>, hist': seq<LogEntry>)
    requires AllSurvive(w, c, before, after, hist, hist')
    ensures before <= after
  {
  }

  lemma SignedPrefix(before: seq<Snapshot<Outside>>, after: seq<Snapshot<Outside>>, was: Snapshot<Outside>, now: Snapshot<Outside>)
    requires OnlySigned(before, after, was, now)
    ensures before <= after
  {
  }

  lemma OwnOfValid(log: KtLog)
    requires log.Valid()
    ensures OwnAt(log.w, log.codec, log.dir.Now(), log.entries)
  {
    hide *;
    log.ValidMeans();
    log.OwnNow();
  }

  /**
   A life under way, from the history `hist` and the disk's state number `start`. Before its last step
   the disk was that of `was`, at number `mark`, and the log had acknowledged `acked` and handed out `older`;
   since then `last` and the rest of `given`, unless that step ended the process.
   */
  ghost predicate Alive(log: KtLog, life: Life, hist: seq<LogEntry>, start: nat, mark: nat, i: nat, halted: bool,
                        was: seq<LogEntry>, next: seq<LogEntry>, acked: seq<LogEntry>, last: seq<LogEntry>,
                        older: seq<Option<HeadMsg>>, given: seq<Option<HeadMsg>>, adopted: Option<HeadMsg>)
    reads log, log.tree, log.tree.memo, log.map_, log.dir
  {
    && i <= |life.steps| && (Restorable(life) ==> !halted) && (!halted ==> log.Valid() && log.boundary.Some?)
    && start <= mark <= |log.dir.later| && (life.crash.Some? ==> mark <= start + life.crash.value)
    && Running(log.w, log.codec, log.dir, mark, was, next) && hist <= was && |next| <= |hist| + i
    && (!halted ==> was <= log.entries <= next && AllIn(last, log.entries)) && AllIn(acked, was)
    && Stands(log.w, log.codec, hist, life.steps, i, halted, was, log.entries, next, acked, last)
    && Heads(log.w, log.codec, hist, life.steps, i, halted, older, given, adopted, log.dir.At(mark).head.signed, log.dir.Head().signed)
  }

  lemma AliveIs(log: KtLog, life: Life, hist: seq<LogEntry>, start: nat, mark: nat, i: nat, halted: bool,
                was: seq<LogEntry>, next: seq<LogEntry>, acked: seq<LogEntry>, last: seq<LogEntry>,
                older: seq<Option<HeadMsg>>, given: seq<Option<HeadMsg>>, adopted: Option<HeadMsg>)
    ensures Alive(log, life, hist, start, mark, i, halted, was, next, acked, last, older, given, adopted) <==>
      && i <= |life.steps| && (Restorable(life) ==> !halted) && (!halted ==> log.Valid() && log.boundary.Some?)
      && start <= mark <= |log.dir.later| && (life.crash.Some? ==> mark <= start + life.crash.value)
      && Running(log.w, log.codec, log.dir, mark, was, next) && hist <= was && |next| <= |hist| + i
      && (!halted ==> was <= log.entries <= next && AllIn(last, log.entries)) && AllIn(acked, was)
      && Stands(log.w, log.codec, hist, life.steps, i, halted, was, log.entries, next, acked, last)
      && Heads(log.w, log.codec, hist, life.steps, i, halted, older, given, adopted, log.dir.At(mark).head.signed, log.dir.Head().signed)
  {
    hide Restorable, KtLog.Valid, Running, AllIn, Stands, Heads;
  }

  /**
   One life: a start on the log's own disk, the steps, a crash at any change of the disk or after
   them, and the repair of the state it left. What it leaves is the log's own disk again, with
   a history that extends the old one and holds every entry that was acknowledged. Every head
   that was signed before still is, and so is each one that a finished step, or the start, handed out.
   */
  method Live(w: World, c: Codec, dir: LogDir, life: Life, resignMs: int, ghost hist: seq<LogEntry>)
    returns (dir': LogDir, ghost hist': seq<LogEntry>, ghost acked: seq<LogEntry>, adopted: Option<HeadMsg>, given: seq<Option<HeadMsg>>)
    requires Hashes(w) && Faithful(w.mode, c) && OwnAt(w, c, dir.Now(), hist) && |hist| + |life.steps| + 1 < WORD
    requires life.chunkBytes >= 1 && life.window >= 1 && forall i :: 0 <= i < |life.steps| ==> life.steps[i].now < U64
    modifies dir
    ensures fresh(dir') && OwnAt(w, c, dir'.Now(), hist')
    ensures old(dir.later) <= dir.later
    ensures var s := dir.At(CrashAt(life, |old(dir.later)|, |dir.later|));
      dir'.first == s && dir'.Now() == Snapshot(s.data[..Complete(s.data)], s.head)
    ensures LifeRun(w, c, hist, life, |given|, acked, hist')
    ensures hist <= hist' && |hist'| <= |hist| + |life.steps| && AllIn(acked, hist')
    ensures old(dir.Head().signed) <= dir'.Head().signed
    ensures HandedAll(w, c, hist, life.steps, given) && AllSigned(given, dir'.Head().signed) && AllSigned([adopted], dir'.Head().signed)
    ensures given != [] ==> Adopted(w, hist, old(dir.Now()), adopted)
  {
    hide *;
    var log := new KtLog(w, c, dir);
    var start, mark: nat := |dir.later|, |dir.later|;
    ghost var signed, was, next, last := dir.Head().signed, hist, hist, [];
    ghost var before, at0 := dir.later, dir.Now();
    dir.NowIs();
    var halted, i := false, 0;
    halted, adopted := Start(log, life, resignMs, hist);
    StateBefore(dir, before, at0);
    acked, given := [], [];
    var older: seq<Option<HeadMsg>> := [];
    while i < |life.steps| && !halted && (life.crash.None? || |dir.later| <= start + life.crash.value)
      invariant 0 <= i <= |life.steps| && log.w == w && log.codec == c && log.dir == dir && old(dir.later) <= dir.later
      invariant Alive(log, life, hist, start, mark, i, halted, was, next, acked, last, older, given, adopted)
      invariant start <= mark <= |dir.later| && signed <= dir.At(mark).head.signed && (!halted ==> Adopted(w, hist, at0, adopted))
      invariant i == 0 || Adopted(w, hist, at0, adopted)
      invariant fresh(log) && fresh(log.tree) && fresh(log.tree.memo) && fresh(log.map_)
      modifies log, log.tree, log.tree.memo, log.map_, dir
    {
      mark, was, next, acked, last, older, given, halted :=
        Advance(log, life, resignMs, hist, start, mark, i, was, next, acked, last, older, given, adopted);
      i := i + 1;
    }
    dir', hist', acked, adopted, given := Leave(log, life, start, mark, i, halted, older, given, adopted, hist, was, next, acked, last);
  }

  /** The start of a life. */
  method Start(log: KtLog, life: Life, resignMs: int, ghost hist: seq<LogEntry>) returns (halted: bool, adopted: Option<HeadMsg>)
    requires log.Empty() && Hashes(log.w) && Faithful(log.w.mode, log.codec) && OwnAt(log.w, log.codec, log.dir.Now(), hist)
    requires life.chunkBytes >= 1 && |hist| < WORD
    modifies log, log.tree, log.tree.memo, log.map_, log.dir
    ensures old(log.dir.later) <= log.dir.later
    ensures Alive(log, life, hist, |old(log.dir.later)|, |old(log.dir.later)|, 0, halted, hist, hist, [], [], [], [], adopted)
    ensures !halted ==> Adopted(log.w, hist, old(log.dir.Now()), adopted)
  {
    hide *;
    var dir := log.dir;
    ghost var start, before, at0 := |dir.later|, dir.later, dir.Now();
    dir.NowIs();
    OwnIsGenuine(log.w, log.codec, dir.Now(), hist);
    NoneAcked(hist);
    var adopts := dir.Head().head.None? || dir.Head().head.value.boundary.None?;
    var r := log.Open(0, life.now, resignMs, life.chunkBytes, life.headFails, hist);
    adopted := if r.Ready? && adopts then log.sth else None;
    halted := !r.Ready?;
    OwnIsSurvive(log.w, log.codec, before, dir.later, hist);
    StateBefore(dir, before, at0);
    RunningFrom(log.w, log.codec, dir, before, hist, hist);
    StandsStart(log.w, log.codec, hist, life.steps, halted, log.entries);
    RestorableIs(life);
    if r.Ready? {
      AdoptedIs(log, hist, at0, adopted);
    }
    HeadsStart(log.w, log.codec, hist, life.steps, halted, adopted, dir.At(start).head.signed, dir.Head().signed);
    AliveIs(log, life, hist, start, start, 0, halted, hist, hist, [], [], [], [], adopted);
  }

  /** The next step of a life. */
  method Advance(log: KtLog, life: Life, resignMs: int, ghost hist: seq<LogEntry>, start: nat, mark: nat, i: nat,
                 ghost was: seq<LogEntry>, ghost next: seq<LogEntry>, ghost acked: seq<LogEntry>, ghost last: seq<LogEntry>,
                 older: seq<Option<HeadMsg>>, given: seq<Option<HeadMsg>>, adopted: Option<HeadMsg>)
    returns (mark': nat, ghost was': seq<LogEntry>, ghost next': seq<LogEntry>, ghost acked': seq<LogEntry>, ghost last': seq<LogEntry>,
             older': seq<Option<HeadMsg>>, given': seq<Option<HeadMsg>>, halted: bool)
    requires i < |life.steps| && life.steps[i].now < U64 && |hist| + |life.steps| + 1 < WORD
    requires life.crash.None? || |log.dir.later| <= start + life.crash.value
    requires Alive(log, life, hist, start, mark, i, false, was, next, acked, last, older, given, adopted)
    modifies log, log.tree, log.tree.memo, log.map_, log.dir
    ensures Alive(log, life, hist, start, mark', i + 1, halted, was', next', acked', last', older', given', adopted)
    ensures old(log.dir.later) <= log.dir.later && mark' == |old(log.dir.later)| && start <= mark <= mark'
    ensures old(log.dir.At(mark)).head.signed <= log.dir.At(mark').head.signed
  {
    hide *;
    var dir := log.dir;
    AliveIs(log, life, hist, start, mark, i, false, was, next, acked, last, older, given, adopted);
    dir.NowIs();
    ghost var at0, before, signed0, signed1 := dir.Now(), dir.later, dir.At(mark).head.signed, dir.Head().signed;
    AnyState(log.w, log.codec, dir, mark, was, next, |dir.later|);
    AllInMore(acked, was, log.entries);
    AllInJoin(acked, last, log.entries);
    StandsMeans(log.w, log.codec, hist, life.steps, i, was, log.entries, next, acked, last);
    acked', mark', was', older' := acked + last, |dir.later|, log.entries, given;
    OwnOfValid(log);
    RestorableIs(life);
    var one;
    last', halted, next', one := Do(log, life.steps[i], resignMs);
    given' := given + [one];
    StateBefore(dir, before, at0);
    RunningFrom(log.w, log.codec, dir, before, was', next');
    dir.NowIs();
    AnyState(log.w, log.codec, dir, mark', was', next', |dir.later|);
    StandsNext(log.w, log.codec, hist, life.steps, i, was, was', next, acked, last, halted, log.entries, last');
    HeadsNext(log.w, log.codec, hist, life.steps, i, older, given, adopted, signed0, signed1, halted, one, was', dir.Head().signed);
    AliveIs(log, life, hist, start, mark', i + 1, halted, was', next', acked', last', older', given', adopted);
  }

  /** The end of a life, at whatever state of the disk. */
  method Leave(log: KtLog, life: Life, start: nat, mark: nat, i: nat, halted: bool, older: seq<Option<HeadMsg>>, all: seq<Option<HeadMsg>>,
               first: Option<HeadMsg>, ghost hist: seq<LogEntry>, ghost was: seq<LogEntry>, ghost next: seq<LogEntry>,
               ghost before: seq<LogEntry>, ghost last: seq<LogEntry>)
    returns (dir: LogDir, ghost hist': seq<LogEntry>, ghost acked: seq<LogEntry>, adopted: Option<HeadMsg>, given: seq<Option<HeadMsg>>)
    requires Alive(log, life, hist, start, mark, i, halted, was, next, before, last, older, all, first) && life.window >= 1
    requires i < |life.steps| && !halted ==> life.crash.Some? && start + life.crash.value < |log.dir.later|
    ensures fresh(dir) && OwnAt(log.w, log.codec, dir.Now(), hist') && start <= mark <= |log.dir.later|
    ensures var s := log.dir.At(CrashAt(life, start, |log.dir.later|));
      dir.first == s && dir.Now() == Snapshot(s.data[..Complete(s.data)], s.head)
    ensures LifeRun(log.w, log.codec, hist, life, |given|, acked, hist')
    ensures hist <= hist' && |hist'| <= |hist| + |life.steps| && AllIn(acked, hist')
    ensures log.dir.At(mark).head.signed <= dir.Head().signed
    ensures HandedAll(log.w, log.codec, hist, life.steps, given) && AllSigned(given, dir.Head().signed) && AllSigned([adopted], dir.Head().signed)
    ensures given != [] ==> adopted == first && i > 0
  {
    hide *;
    AliveIs(log, life, hist, start, mark, i, halted, was, next, before, last, older, all, first);
    CrashIs(life, start);
    RestorableIs(life);
    StandsEnd(log.w, log.codec, hist, life, i, halted, was, log.entries, next, before, last);
    HeadsEnd(log.w, log.codec, hist, life.steps, i, halted, older, all, first, log.dir.At(mark).head.signed, log.dir.Head().signed);
    var at := CrashAt(life, start, |log.dir.later|);
    AnyState(log.w, log.codec, log.dir, mark, was, next, at);
    RunningIs(log.w, log.codec, log.dir, mark, was, next);
    var s := log.dir.At(at);
    log.dir.NowIs();
    if at == |log.dir.later| && !halted {
      OwnOfValid(log);
      OwnSurvives(log.w, log.codec, s, log.entries);
      AllInMore(before, was, log.entries);
      AllInJoin(before, last, log.entries);
      hist', acked, given, adopted := log.entries, before + last, all, first;
    } else {
      acked, given, adopted := before, older, if i == 0 then None else first;
      AllInMore(before, was, next);
      hist' := if Survives(log.w, log.codec, s, was) then was else next;
    }
    dir := Resumed(log.w, log.codec, s, life.window, hist');
  }

  lemma RunningIs(w: World, c: Codec, dir: LogDir, mark: nat, was: seq<LogEntry>, now: seq<LogEntry>)
    requires Running(w, c, dir, mark, was, now)
    ensures was <= now && mark <= |dir.later|
  {
  }

  /** The directory a crash left, repaired. */
  method Resumed(w: World, c: Codec, s: Snapshot<Outside>, window: nat, ghost hist: seq<LogEntry>) returns (dir: LogDir)
    requires Survives(w, c, s, hist) && window >= 1
    ensures fresh(dir) && dir.first == s && dir.Now() == Snapshot(s.data[..Complete(s.data)], s.head) && OwnAt(w, c, dir.Now(), hist)
    ensures dir.Head() == s.head
  {
    hide *;
    dir := new Directory(s);
    dir.NowIs();
    Repaired(w, c, s, hist);
    var _ := dir.Repair(window);
    dir.NowIs();
  }

  lemma CrashIs(life: Life, start: nat)
    ensures forall end :: end >= start ==> start <= CrashAt(life, start, end) <= end
    ensures forall end :: CrashAt(life, start, end) == if life.crash.Some? && start + life.crash.value < end then start + life.crash.value else end
  {
  }

  lemma AdoptedIs(log: KtLog, hist: seq<LogEntry>, s: Snapshot<Outside>, adopted: Option<HeadMsg>)
    requires log.Valid() && log.entries == hist
    requires if s.head.head.None? || s.head.head.value.boundary.None? then log.sth.Some? && adopted == log.sth else adopted.None?
    ensures Adopted(log.w, hist, s, adopted) && (adopted.Some? ==> adopted.value in log.dir.Head().signed)
  {
    hide *;
    log.ValidMeans();
    log.CacheIsThis();
    AdoptedMeans(log.w, hist, s, adopted);
  }

  lemma AdoptedMeans(w: World, hist: seq<LogEntry>, s: Snapshot<Outside>, adopted: Option<HeadMsg>)
    ensures Adopted(w, hist, s, adopted) <==>
      if s.head.head.None? || s.head.head.value.boundary.None? then adopted.Some? && adopted.value == HeadOf(w.mode, hist, adopted.value.ts)
      else adopted.None?
  {
  }

  lemma AllInJoin(acked: seq<LogEntry>, more: seq<LogEntry>, hist: seq<LogEntry>)
    requires AllIn(acked, hist) && AllIn(more, hist)
    ensures AllIn(acked + more, hist)
  {
  }

  /** Steps that can be taken: the log stays within the size of an array, and times within 64 bits. */
  ghost predicate Lived(lives: seq<Life>, size: nat)
    decreases |lives|
  {
    lives != [] ==>
      size + |lives[0].steps| + 1 < WORD && lives[0].chunkBytes >= 1 && lives[0].window >= 1 &&
      (forall i :: 0 <= i < |lives[0].steps| ==> lives[0].steps[i].now < U64) && Lived(lives[1..], size + |lives[0].steps|)
  }

  lemma {:induction false} LivedLess(lives: seq<Life>, size: nat, less: nat)
    requires Lived(lives, size) && less <= size
    ensures Lived(lives, less)
    decreases |lives|
  {
    if lives != [] {
      LivedLess(lives[1..], size + |lives[0].steps|, less + |lives[0].steps|);
    }
  }

  lemma LivedNext(lives: seq<Life>, i: nat, size: nat, size': nat)
    requires i < |lives| && Lived(lives[i..], size) && size' <= size + |lives[i].steps|
    ensures size + |lives[i].steps| + 1 < WORD && lives[i].chunkBytes >= 1 && lives[i].window >= 1
    ensures forall j :: 0 <= j < |lives[i].steps| ==> lives[i].steps[j].now < U64
    ensures Lived(lives[i + 1..], size')
  {
    assert lives[i..][0] == lives[i] && lives[i..][1..] == lives[i + 1..];
    LivedLess(lives[i + 1..], size + |lives[i].steps|, size');
  }

  /** What a life was: the disk and the history it began with, what it acknowledged, and the heads it handed out. */
  datatype Account = Account(from: Snapshot<Outside>, hist: seq<LogEntry>, acked: seq<LogEntry>, adopted: Option<HeadMsg>, given: seq<Option<HeadMsg>>)

  ghost predicate LifeOf(w: World, c: Codec, a: Account, life: Life, hist': seq<LogEntry>) {
    && OwnAt(w, c, a.from, a.hist) && LifeRun(w, c, a.hist, life, |a.given|, a.acked, hist')
    && HandedAll(w, c, a.hist, life.steps, a.given) && (a.given != [] ==> Adopted(w, a.hist, a.from, a.adopted))
  }

  lemma LifeIs(w: World, c: Codec, a: Account, life: Life, hist': seq<LogEntry>)
    requires OwnAt(w, c, a.from, a.hist) && LifeRun(w, c, a.hist, life, |a.given|, a.acked, hist')
    requires HandedAll(w, c, a.hist, life.steps, a.given) && (a.given != [] ==> Adopted(w, a.hist, a.from, a.adopted))
    ensures LifeOf(w, c, a, life, hist')
  {
  }

  /** Lives one after another: each starts from the history the last one left, and ends at the next one's. */
  ghost predicate LivesRun(w: World, c: Codec, lives: seq<Life>, told: seq<Account>, hist: seq<LogEntry>) {
    |told| == |lives| && forall i :: 0 <= i < |lives| ==> LifeOf(w, c, told[i], lives[i], LeftBy(told, i, hist))
  }

  /** The history that life i left, the last one having left `hist`. */
  ghost function LeftBy(told: seq<Account>, i: nat, hist: seq<LogEntry>): seq<LogEntry> {
    if i + 1 < |told| then told[i + 1].hist else hist
  }

  lemma LivesMore(w: World, c: Codec, lives: seq<Life>, told: seq<Account>, hist: seq<LogEntry>, life: Life, a: Account, hist': seq<LogEntry>)
    requires LivesRun(w, c, lives, told, hist) && a.hist == hist && LifeOf(w, c, a, life, hist')
    ensures LivesRun(w, c, lives + [life], told + [a], hist')
  {
    hide LifeOf;
    forall i | 0 <= i < |lives|
      ensures LeftBy(told + [a], i, hist') == LeftBy(told, i, hist)
    {
    }
  }

  /** What a life acknowledged stands in a history, and the heads it handed out are among the signed. */
  ghost predicate Stood(a: Account, hist: seq<LogEntry>, signed: set<HeadMsg>) {
    AllIn(a.acked, hist) && AllSigned([a.adopted], signed) && AllSigned(a.given, signed)
  }

  lemma StoodMore(told: seq<Account>, a: Account, hist: seq<LogEntry>, hist': seq<LogEntry>, signed: set<HeadMsg>, signed': set<HeadMsg>)
    requires hist <= hist' && signed <= signed' && Stood(a, hist', signed') && forall i :: 0 <= i < |told| ==> Stood(told[i], hist, signed)
    ensures forall i :: 0 <= i < |told + [a]| ==> Stood((told + [a])[i], hist', signed')
  {
    hide AllIn, AllSigned;
    forall i | 0 <= i < |told|
      ensures Stood(told[i], hist', signed')
    {
      AllInMore(told[i].acked, hist, hist');
      SignedStill([told[i].adopted], signed, signed');
      SignedStill(told[i].given, signed, signed');
    }
  }

  lemma StoodIs(a: Account, hist: seq<LogEntry>, signed: set<HeadMsg>)
    requires AllIn(a.acked, hist) && AllSigned([a.adopted], signed) && AllSigned(a.given, signed)
    ensures Stood(a, hist, signed)
  {
  }

  /**
   Any number of lives, one after another on what the last one left: the history only grows, every
   entry that was ever acknowledged stands in it, and every head that was signed before, or handed out by a
   start or a finished step of any life, is of it, so that of any two the larger extends the
   smaller by a proof that verifies.
   */
  method Serve(w: World, c: Codec, dir: LogDir, lives: seq<Life>, resignMs: int, ghost hist: seq<LogEntry>)
    returns (end: LogDir, ghost told: seq<Account>, ghost hist': seq<LogEntry>)
    requires Hashes(w) && Faithful(w.mode, c) && OwnAt(w, c, dir.Now(), hist) && Lived(lives, |hist|)
    modifies dir
    ensures LivesRun(w, c, lives, told, hist') && (if told == [] then hist' else told[0].hist) == hist
    ensures told != [] ==> told[0].from == old(dir.Now())
    ensures OwnAt(w, c, end.Now(), hist') && hist <= hist'
    ensures forall i :: 0 <= i < |told| ==> Stood(told[i], hist', end.Head().signed)
    ensures old(dir.Head().signed) <= end.Head().signed
    ensures forall a, b :: a in end.Head().signed && b in end.Head().signed && 0 < a.size <= b.size ==>
      b.size <= |hist'| && Consistent(a.size, b.size, a.logRoot, b.logRoot, Proof(a.size, Leaves(w.mode, hist'[..b.size])))
  {
    hide *;
    end, told, hist' := dir, [], hist;
    assert lives[0..] == lives;
    LivesNone(w, c, hist);
    assert lives[..0] == [];
    for i := 0 to |lives|
      invariant LivesRun(w, c, lives[..i], told, hist') && |told| == i && (if told == [] then hist' else told[0].hist) == hist
      invariant if told == [] then end == dir && dir.Now() == old(dir.Now()) else told[0].from == old(dir.Now())
      invariant OwnAt(w, c, end.Now(), hist') && hist <= hist' && Lived(lives[i..], |hist'|)
      invariant forall j :: 0 <= j < |told| ==> Stood(told[j], hist', end.Head().signed)
      invariant old(dir.Head().signed) <= end.Head().signed && (end == dir || fresh(end))
    {
      ghost var was, signed, from := hist', end.Head().signed, end.Now();
      LivedNext(lives, i, |was|, |was|);
      ghost var acked;
      var adopted, given;
      end, hist', acked, adopted, given := Live(w, c, end, lives[i], resignMs, was);
      ghost var a := Account(from, was, acked, adopted, given);
      LifeIs(w, c, a, lives[i], hist');
      StoodIs(a, hist', end.Head().signed);
      StoodMore(told, a, was, hist', signed, end.Head().signed);
      LivesMore(w, c, lives[..i], told, was, lives[i], a, hist');
      assert lives[..i + 1] == lives[..i] + [lives[i]];
      LivedNext(lives, i, |was|, |hist'|);
      told := told + [a];
    }
    assert lives[..|lives|] == lives;
    OwnIsGenuine(w, c, end.Now(), hist');
    end.NowIs();
    forall a, b | a in end.Head().signed && b in end.Head().signed && 0 < a.size <= b.size
      ensures b.size <= |hist'| && Consistent(a.size, b.size, a.logRoot, b.logRoot, Proof(a.size, Leaves(w.mode, hist'[..b.size])))
    {
      HeadsConsist(w.mode, end.Head().signed, hist', a, b);
    }
  }

  lemma LivesNone(w: World, c: Codec, hist: seq<LogEntry>)
    ensures LivesRun(w, c, [], [], hist)
  {
  }

  // --- A write that could not be taken back ------------------------------------------------------

  /** What a file holds once an entry is written after some of another's line. */
  lemma SplicedFile(w: World, c: Codec, data: Bytes, put: nat, e: LogEntry, next: LogEntry)
    requires Faithful(w.mode, c) && Storable(w.mode, e) && Storable(w.mode, next) && Whole(c, data) && put <= |c.line(e)| + 1
    ensures var torn, after := Line(c.line(e))[..put], data + Line(c.line(e))[..put] + Line(c.line(next));
      && |torn| == put && (put <= |c.line(e)| ==> torn == c.line(e)[..put]) && after[..Complete(after)] == after && |Lines(c, after)| <= |Lines(c, data)| + 2
      && (put > |c.line(e)| ==> Whole(c, after) && Lines(c, after) == Lines(c, data) + [e, next])
      && (0 < put <= |c.line(e)| && c.parse(c.line(e)[..put] + c.line(next)).None? ==> !Whole(c, after))
  {
    hide Plain, Complete;
    var torn, text := Line(c.line(e))[..put], c.line(next);
    var after := data + torn + Line(text);
    CompleteIs(after, |after|);
    if put == 0 {
      assert after == data + Line(text);
      LineAdded(w.mode, c, data, next);
    } else if put <= |c.line(e)| {
      assert torn == c.line(e)[..put];
      SplicedLine(data, torn, text, c.parse);
    } else {
      assert torn == Line(c.line(e));
      LineAdded(w.mode, c, data, e);
      LineAdded(w.mode, c, data + torn, next);
      assert Lines(c, data) + [e] + [next] == Lines(c, data) + [e, next];
    }
  }

  lemma TwiceRefused(w: World, hist: seq<LogEntry>, e: LogEntry, next: LogEntry)
    requires next.index == |hist|
    ensures !Replays(w, hist + [e, next])
  {
    var all := hist + [e, next];
    assert all[|hist| + 1] == next;
  }

  /**
   A line that is cut short, whose truncation throws too, and the next entry written after it,
   as the process that goes on writes it, at the same index: it is on the disk, and was
   acknowledged, but where the tear is not empty no start succeeds, repaired or not, unless the
   two lines parse as one. `put` is how much of the first line landed.
   */
  method TornThenAppended(w: World, c: Codec, dir: LogDir, e: LogEntry, next: LogEntry, tear: Disk, disk: Disk, window: nat,
                          now: int, resignMs: int, chunkBytes: nat, ghost hist: seq<LogEntry>)
    returns (torn: Appended, written: Appended, put: nat, r: OpenResult)
    requires Hashes(w) && Faithful(w.mode, c) && OwnAt(w, c, dir.Now(), hist) && |hist| + 2 < WORD
    requires Storable(w.mode, e) && Storable(w.mode, next) && next.index == |hist| && window >= 1 && chunkBytes >= 1
    requires tear.truncateFails && !(Puts(tear.writes, |c.line(e)| + 1) && !tear.fsyncFails)
    requires Puts(disk.writes, |c.line(next)| + 1) && !disk.fsyncFails
    modifies dir
    ensures torn.Torn? && written.Wrote? && put <= |c.line(e)| + 1
    ensures dir.Data() == old(dir.Data()) + Line(c.line(e))[..put] + Line(c.line(next))
    ensures r.Ready? ==> put == 0 || (put <= |c.line(e)| && c.parse(c.line(e)[..put] + c.line(next)).Some?)
  {
    hide *;
    dir.NowIs();
    OwnIsGenuine(w, c, dir.Now(), hist);
    OwnIsWhole(w, c, dir.Now(), hist);
    torn, written, put := TornWrites(w, c, dir, e, next, tear, disk, window);
    SplicedFile(w, c, old(dir.Data()), put, e, next);
    var log := new KtLog(w, c, dir);
    r := log.Open(0, now, resignMs, chunkBytes, false, hist);
    if r.Ready? {
      ReadyIs(log);
      TwiceRefused(w, hist, e, next);
    }
  }

  lemma ReadyIs(log: KtLog)
    requires log.InStep() && log.OnDisk()
    ensures Replays(log.w, log.entries) && Whole(log.codec, log.dir.Data()) && Lines(log.codec, log.dir.Data()) == log.entries
  {
  }

  lemma OwnIsWhole(w: World, c: Codec, s: Snapshot<Outside>, hist: seq<LogEntry>)
    requires OwnAt(w, c, s, hist)
    ensures Whole(c, s.data)
  {
  }

  /** The two writes, and a repair, which finds nothing to cut. */
  method TornWrites(w: World, c: Codec, dir: LogDir, e: LogEntry, next: LogEntry, tear: Disk, disk: Disk, window: nat)
    returns (torn: Appended, written: Appended, put: nat)
    requires Faithful(w.mode, c) && Storable(w.mode, e) && Storable(w.mode, next) && Whole(c, dir.Data()) && window >= 1
    requires tear.truncateFails && !(Puts(tear.writes, |c.line(e)| + 1) && !tear.fsyncFails)
    requires Puts(disk.writes, |c.line(next)| + 1) && !disk.fsyncFails
    modifies dir
    ensures torn.Torn? && written.Wrote? && put <= |c.line(e)| + 1
    ensures dir.Data() == old(dir.Data()) + Line(c.line(e))[..put] + Line(c.line(next)) && dir.Head() == old(dir.Head())
  {
    hide *;
    ghost var data := dir.Data();
    var size := |dir.Data()|;
    torn := dir.Append(c.line(e), tear);
    ghost var n :| 0 <= n <= |c.line(e)| + 1 && dir.Data() == data + Line(c.line(e))[..n];
    put := |dir.Data()| - size;
    SplicedFile(w, c, data, n, e, next);
    written := dir.Append(c.line(next), disk);
    var _ := dir.Repair(window);
  }
}
