/**
 The mirror over its whole service (kt/lib/mirror.js): syncs one after another with whatever the
 log and the transport bring, some of them cut off at any change of the directory and followed by a
 load of what they left. What it holds only grows, and no two of its heads fork.
 */
module MirrorLives {
  import opened Options
  import opened Digests
  import opened SparseMap
  import opened LogTree
  import opened LogVerify
  import opened PowerTest
  import opened LogState
  import opened FileStore
  import opened KtLogs
  import opened MirrorState
  import opened Mirrors

  /** What a sync is brought and what the disk does in it; with `crash`, the process dies after so many changes of the directory. */
  datatype Round = Round(sth: Resp<SignedHead>, cons: Resp<Extension>, pages: seq<Resp<seq<Element>>>, window: nat,
                         spoolFails: bool, disk: Disk, crash: Option<nat>)

  /** Where a mirror stands between rounds. */
  datatype Stand = Stand(held: seq<LogEntry>, head: HeadOnDisk, poisoned: bool)

  ghost function StandOf(m: Mirror): Stand
    reads m, m.dir
  {
    Stand(m.held, m.dir.Head(), m.poisoned)
  }

  /** A head on the disk is of the entries held. */
  ghost predicate Truthful(w: World, s: Stand) {
    s.head.OnFile? ==> s.head.msg == HeadOf(w.mode, s.held, s.head.msg.ts)
  }

  ghost predicate HonestRound(w: World, hist: seq<LogEntry>, held: seq<LogEntry>, round: Round) {
    Honest(w, hist, held, round.sth, round.cons, round.pages)
  }

  /** What a round does: `r` is what its sync answered, if the process lived to hear it. */
  ghost predicate Rounded(w: World, hist: seq<LogEntry>, round: Round, was: Stand, now: Stand, r: Option<SyncResult>) {
    && was.held <= now.held && Truthful(w, now) && (r.None? <==> round.crash.Some?)
    && (r.Some? && r.value.Synced? ==>
         round.sth.Body? && now.head.OnFile? && now.head.msg == round.sth.value.msg && r.value.from == |was.held| && r.value.to == |now.held|)
    && (r.Some? && !r.value.Synced? ==> now.held == was.held && now.head == was.head)
    && (r.None? ==> (now.held == was.held && now.head == was.head) || now.head.OnFile?)
    && (now.poisoned <==> r.Some? && (was.poisoned || r.value.Diverged?))
    && (was.poisoned && r.Some? ==> r.value.Failed?)
    && (HonestRound(w, hist, was.held, round) ==> r != Some(Diverged) && now.held <= hist)
  }

  lemma RoundedIs(w: World, hist: seq<LogEntry>, round: Round, was: Stand, now: Stand, r: Option<SyncResult>)
    requires was.held <= now.held && Truthful(w, now) && (r.None? <==> round.crash.Some?)
    requires r.Some? && r.value.Synced? ==>
      round.sth.Body? && now.head.OnFile? && now.head.msg == round.sth.value.msg && r.value.from == |was.held| && r.value.to == |now.held|
    requires r.Some? && !r.value.Synced? ==> now.held == was.held && now.head == was.head
    requires r.None? ==> (now.held == was.held && now.head == was.head) || now.head.OnFile?
    requires now.poisoned <==> r.Some? && (was.poisoned || r.value.Diverged?)
    requires was.poisoned && r.Some? ==> r.value.Failed?
    requires HonestRound(w, hist, was.held, round) ==> r != Some(Diverged) && now.held <= hist
    ensures Rounded(w, hist, round, was, now, r)
  {
  }

  lemma HonestRoundIs(w: World, hist: seq<LogEntry>, held: seq<LogEntry>, round: Round)
    ensures HonestRound(w, hist, held, round) <==> Honest(w, hist, held, round.sth, round.cons, round.pages)
  {
  }

  lemma TruthfulIs(w: World, s: Stand)
    ensures Truthful(w, s) <==> (s.head.OnFile? ==> s.head.msg == HeadOf(w.mode, s.held, s.head.msg.ts))
  {
  }

  lemma RestTells(m: Mirror)
    requires m.Rest()
    ensures m.head.Some? ==> m.dir.Head().OnFile? && m.dir.Head().msg == m.head.value
  {
    hide Mirror.AtHead;
  }

  lemma OwnTells(m: Mirror)
    requires m.Valid()
    ensures Truthful(m.w, StandOf(m))
  {
    hide *;
    m.ValidMeans();
    m.OwnDirOf(m.clean, m.held);
    m.dir.NowIs();
    OwnStateHead(m.w, m.codec, m.dir.Now(), m.clean, m.held);
    StandIs(m);
    TruthfulIs(m.w, StandOf(m));
  }

  lemma StandIs(m: Mirror)
    ensures StandOf(m) == Stand(m.held, m.dir.Head(), m.poisoned)
  {
  }

  /** One round. Only a crash before the first head can leave a directory that does not open. */
  method Once(mirror: Mirror, round: Round, ghost hist: seq<LogEntry>) returns (next: Mirror, ok: bool, r: Option<SyncResult>)
    requires mirror.Valid() && round.window >= 1 && PagesShaped(mirror.w.mode, round.pages)
    modifies mirror, mirror.tree, mirror.tree.memo, mirror.map_, mirror.dir
    ensures next.w == mirror.w && next.codec == mirror.codec && next.maxEntries == mirror.maxEntries
    ensures next == mirror || (fresh(next) && fresh(next.dir))
    ensures next.tree == old(mirror.tree) || (fresh(next.tree) && fresh(next.tree.memo))
    ensures next.map_ == old(mirror.map_) || fresh(next.map_)
    ensures ok ==> next.Valid() && Rounded(mirror.w, hist, round, old(StandOf(mirror)), StandOf(next), r)
    ensures !ok ==> round.crash.Some? && !old(StandOf(mirror)).head.OnFile?
  {
    hide *;
    HonestRoundIs(mirror.w, hist, mirror.held, round);
    ghost var was := StandOf(mirror);
    StandIs(mirror);
    if round.crash.None? {
      var answer := mirror.Sync(round.sth, round.cons, round.pages, round.window, round.spoolFails, round.disk, hist);
      next, ok, r := mirror, true, Some(answer);
      OwnTells(mirror);
      if answer.Synced? {
        RestTells(mirror);
      }
    } else {
      next, ok := SyncAndCrash(mirror, round.sth, round.cons, round.pages, round.window, round.spoolFails, round.disk, round.crash.value, hist);
      r := None;
      if ok {
        OwnTells(next);
      }
    }
    StandIs(next);
    if ok {
      RoundedIs(mirror.w, hist, round, was, StandOf(next), r);
    }
  }

  // --- Any number of rounds -------------------------------------------------------------------

  ghost predicate Followed(w: World, hist: seq<LogEntry>, rounds: seq<Round>, stands: seq<Stand>, results: seq<Option<SyncResult>>) {
    |stands| == |results| + 1 && |results| <= |rounds| && Truthful(w, stands[0]) &&
    forall i :: 0 <= i < |results| ==> Rounded(w, hist, rounds[i], stands[i], stands[i + 1], results[i])
  }

  lemma FollowedMore(w: World, hist: seq<LogEntry>, rounds: seq<Round>, stands: seq<Stand>, results: seq<Option<SyncResult>>,
                     s: Stand, r: Option<SyncResult>)
    requires Followed(w, hist, rounds, stands, results) && |results| < |rounds|
    requires Rounded(w, hist, rounds[|results|], stands[|results|], s, r)
    ensures Followed(w, hist, rounds, stands + [s], results + [r])
  {
    hide Rounded, Truthful;
  }

  /** What is held only grows. */
  lemma {:induction false} HeldGrows(w: World, hist: seq<LogEntry>, rounds: seq<Round>, stands: seq<Stand>,
                                     results: seq<Option<SyncResult>>, i: nat, j: nat)
    requires Followed(w, hist, rounds, stands, results) && i <= j < |stands|
    ensures stands[i].held <= stands[j].held
    decreases j
  {
    if i < j {
      HeldGrows(w, hist, rounds, stands, results, i, j - 1);
      assert Rounded(w, hist, rounds[j - 1], stands[j - 1], stands[j], results[j - 1]);
    }
  }

  lemma HeadAt(w: World, hist: seq<LogEntry>, rounds: seq<Round>, stands: seq<Stand>, results: seq<Option<SyncResult>>, i: nat)
    requires Followed(w, hist, rounds, stands, results) && i < |stands| && stands[i].head.OnFile?
    ensures Describes(w.mode, stands[i].head.msg, stands[|stands| - 1].held)
  {
    hide HeadOf, Rounded;
    HeldGrows(w, hist, rounds, stands, results, i, |stands| - 1);
    TruthfulAt(w, hist, rounds, stands, results, i);
    TruthfulIs(w, stands[i]);
    HeadFields(w.mode, stands[i].held, stands[i].head.msg.ts);
    assert stands[|stands| - 1].held[..|stands[i].held|] == stands[i].held;
  }

  lemma TruthfulAt(w: World, hist: seq<LogEntry>, rounds: seq<Round>, stands: seq<Stand>, results: seq<Option<SyncResult>>, i: nat)
    requires Followed(w, hist, rounds, stands, results) && i < |stands|
    ensures Truthful(w, stands[i])
  {
    hide Truthful;
    if i > 0 {
      assert Rounded(w, hist, rounds[i - 1], stands[i - 1], stands[i], results[i - 1]);
    }
  }

  /**
   Whatever the log and the transport do, and wherever syncs are cut off: of any two heads the
   mirror ever stood at, the larger extends the smaller by a proof that verifies.
   */
  lemma MirrorHeadsConsist(w: World, hist: seq<LogEntry>, rounds: seq<Round>, stands: seq<Stand>, results: seq<Option<SyncResult>>,
                           i: nat, j: nat)
    requires Followed(w, hist, rounds, stands, results) && i < |stands| && j < |stands|
    requires stands[i].head.OnFile? && stands[j].head.OnFile? && 0 < stands[i].head.msg.size <= stands[j].head.msg.size
    ensures var a, b, held := stands[i].head.msg, stands[j].head.msg, stands[|stands| - 1].held;
      b.size <= |held| && Consistent(a.size, b.size, a.logRoot, b.logRoot, Proof(a.size, Leaves(w.mode, held[..b.size])))
  {
    hide Followed, Describes, Consistent, Proof, Leaves;
    HeadAt(w, hist, rounds, stands, results, i);
    HeadAt(w, hist, rounds, stands, results, j);
    HeadsConsist(w.mode, {stands[i].head.msg, stands[j].head.msg}, stands[|stands| - 1].held, stands[i].head.msg, stands[j].head.msg);
  }

  /** An honest log, over a faithful or failing transport, poisons no mirror: not in any round, whatever crashes. */
  lemma {:induction false} HonestNeverPoisons(w: World, hist: seq<LogEntry>, rounds: seq<Round>, stands: seq<Stand>,
                                              results: seq<Option<SyncResult>>, n: nat)
    requires Followed(w, hist, rounds, stands, results) && n < |stands| && !stands[0].poisoned
    requires forall i :: 0 <= i < |results| ==> HonestRound(w, hist, stands[i].held, rounds[i])
    ensures !stands[n].poisoned && (n > 0 ==> results[n - 1] != Some(Diverged) && stands[n].held <= hist)
  {
    hide HonestRound, Truthful;
    if n > 0 {
      HonestNeverPoisons(w, hist, rounds, stands, results, n - 1);
      assert Rounded(w, hist, rounds[n - 1], stands[n - 1], stands[n], results[n - 1]);
    }
  }

  /** Once it is poisoned every sync fails, until the process is started again. */
  lemma {:induction false} PoisonStays(w: World, hist: seq<LogEntry>, rounds: seq<Round>, stands: seq<Stand>,
                                       results: seq<Option<SyncResult>>, i: nat, j: nat)
    requires Followed(w, hist, rounds, stands, results) && i < j < |stands| && stands[i].poisoned
    requires forall k :: i <= k < j ==> rounds[k].crash.None?
    ensures stands[j] == stands[i] && results[j - 1] == Some(Failed)
    decreases j
  {
    hide Truthful;
    if i < j - 1 {
      PoisonStays(w, hist, rounds, stands, results, i, j - 1);
    }
    assert Rounded(w, hist, rounds[j - 1], stands[j - 1], stands[j], results[j - 1]);
  }

  /** The rounds, run. They stop short only at a directory that a crash before the first head has left. */
  method Follow(mirror: Mirror, rounds: seq<Round>, ghost hist: seq<LogEntry>)
    returns (end: Mirror, stuck: bool, ghost stands: seq<Stand>, results: seq<Option<SyncResult>>)
    requires mirror.Valid() && forall i :: 0 <= i < |rounds| ==> rounds[i].window >= 1 && PagesShaped(mirror.w.mode, rounds[i].pages)
    modifies mirror, mirror.tree, mirror.tree.memo, mirror.map_, mirror.dir
    ensures Followed(mirror.w, hist, rounds, stands, results) && stands[0] == old(StandOf(mirror))
    ensures !stuck ==> |results| == |rounds| && end.Valid() && end.w == mirror.w && StandOf(end) == stands[|stands| - 1]
    ensures stuck ==> |results| < |rounds| && rounds[|results|].crash.Some? && !stands[|results|].head.OnFile?
  {
    hide *;
    end, stuck, stands, results := mirror, false, [StandOf(mirror)], [];
    OwnTells(mirror);
    FollowedNone(mirror.w, hist, rounds, StandOf(mirror));
    while |results| < |rounds|
      invariant |results| <= |rounds| && |stands| == |results| + 1 && Followed(mirror.w, hist, rounds, stands, results)
      invariant stands[0] == old(StandOf(mirror)) && end.Valid() && end.w == mirror.w && StandOf(end) == stands[|results|]
      invariant end == mirror || (fresh(end) && fresh(end.dir))
      invariant end.dir == mirror.dir || fresh(end.dir)
      invariant end.tree == old(mirror.tree) || (fresh(end.tree) && fresh(end.tree.memo))
      invariant end.map_ == old(mirror.map_) || fresh(end.map_)
      decreases |rounds| - |results|
    {
      var next, ok, r := Once(end, rounds[|results|], hist);
      if !ok {
        stuck := true;
        return;
      }
      FollowedMore(mirror.w, hist, rounds, stands, results, StandOf(next), r);
      end, stands, results := next, stands + [StandOf(next)], results + [r];
    }
  }

  lemma FollowedNone(w: World, hist: seq<LogEntry>, rounds: seq<Round>, s: Stand)
    requires Truthful(w, s)
    ensures Followed(w, hist, rounds, [s], [])
  {
  }

  // --- A log that takes a version back ----------------------------------------------------------

  /**
   A head of the log's key, proved to extend the last one, and pages that bring its entries, among them one, at i,
   whose version is no higher than that of an earlier one of its label, at j: the mirror is poisoned.
   The numbers before it are of 64 bits.
   */
  method RollbackPoisons(mirror: Mirror, round: Round, ghost served: seq<LogEntry>, ghost i: nat, ghost j: nat) returns (r: SyncResult)
    requires mirror.Valid() && mirror.Rest() && !mirror.poisoned && !mirror.needsReload && mirror.w.mode == Kt
    requires round.window >= 1 && PagesShaped(Kt, round.pages) && !round.spoolFails
    requires round.sth.Body? && Verifies(round.sth.value) && |mirror.held| < round.sth.value.msg.size <= mirror.maxEntries
    requires mirror.held != [] ==>
      mirror.head.Some? && round.cons.Body? && round.cons.value.first == |mirror.held| && round.cons.value.second == round.sth.value.msg.size &&
      Consistent(|mirror.held|, round.sth.value.msg.size, mirror.head.value.logRoot, round.sth.value.msg.logRoot, round.cons.value.proof)
    requires round.sth.value.msg.size <= |served| && mirror.held == served[..|mirror.held|]
    requires FullPages(served, round.sth.value.msg.size, |mirror.held|, round.pages)
    requires j < i && |mirror.held| <= i < round.sth.value.msg.size
    requires served[j].lbl == served[i].lbl && served[j].version >= served[i].version
    requires forall k :: |mirror.held| <= k < i ==>
      0 <= served[k].version < 0x1_0000_0000_0000_0000 && 0 <= served[k].ts < 0x1_0000_0000_0000_0000
    modifies mirror, mirror.tree, mirror.tree.memo, mirror.map_, mirror.dir
    ensures r.Diverged? && mirror.poisoned && mirror.held == old(mirror.held)
  {
    hide *;
    HeardIs(round.sth, mirror.maxEntries);
    CaughtIs(served, mirror.held, mirror.head, round.sth.value.msg, round.cons, round.pages, i, j);
    r := mirror.Sync(round.sth, round.cons, round.pages, round.window, round.spoolFails, round.disk, served);
  }

  /**
   A head of the log's key that is older than the one held, or a proof for the right sizes that does not verify: the mirror is
   poisoned, whoever brought it.
   */
  method StalePoisons(mirror: Mirror, round: Round, ghost served: seq<LogEntry>) returns (r: SyncResult)
    requires mirror.Valid() && mirror.Rest() && !mirror.poisoned && !mirror.needsReload
    requires round.window >= 1 && PagesShaped(mirror.w.mode, round.pages)
    requires round.sth.Body? && round.sth.value.sig == OnHead(round.sth.value.msg)
    requires 0 <= round.sth.value.msg.size <= mirror.maxEntries && round.sth.value.msg.ts >= 0
    requires round.sth.value.msg.size < |mirror.held| ||
      (0 < |mirror.held| < round.sth.value.msg.size && mirror.head.Some? &&
       round.cons.Body? && round.cons.value.first == |mirror.held| && round.cons.value.second == round.sth.value.msg.size &&
       !Consistent(|mirror.held|, round.sth.value.msg.size, mirror.head.value.logRoot, round.sth.value.msg.logRoot, round.cons.value.proof))
    modifies mirror, mirror.tree, mirror.tree.memo, mirror.map_, mirror.dir
    ensures r.Diverged? && mirror.poisoned && mirror.held == old(mirror.held)
  {
    hide *;
    HeardSigned(round.sth, mirror.maxEntries);
    mirror.RestMeans();
    StaleIs(mirror.w, round.sth.value.msg, round.cons, mirror.entries, mirror.head);
    r := mirror.Sync(round.sth, round.cons, round.pages, round.window, round.spoolFails, round.disk, served);
  }

  lemma HeardSigned(sth: Resp<SignedHead>, maxEntries: nat)
    requires sth.Body? && sth.value.sig == OnHead(sth.value.msg) && 0 <= sth.value.msg.size <= maxEntries && sth.value.msg.ts >= 0
    ensures Heard(sth, maxEntries)
  {
  }

  lemma StaleIs(w: World, h: HeadMsg, cons: Resp<Extension>, held: seq<LogEntry>, last: Option<HeadMsg>)
    requires h.size < |held| ||
      (0 < |held| < h.size && last.Some? && cons.Body? && cons.value.first == |held| && cons.value.second == h.size &&
       !Consistent(|held|, h.size, last.value.logRoot, h.logRoot, cons.value.proof))
    ensures Stale(w, h, cons, held, last)
  {
    hide Consistent;
  }

  /**
   A head of the log's key, proved to extend the last one, and all its entries, their numbers of 64 bits: poisoned exactly if
   they break what a mirror holds, or give other roots.
   */
  method WholeIsJudged(mirror: Mirror, round: Round, ghost served: seq<LogEntry>) returns (r: SyncResult)
    requires mirror.Valid() && mirror.Rest() && !mirror.poisoned && !mirror.needsReload
    requires round.window >= 1 && PagesShaped(mirror.w.mode, round.pages) && !round.spoolFails
    requires round.sth.Body? && round.sth.value.sig == OnHead(round.sth.value.msg) && round.sth.value.msg.ts >= 0
    requires |mirror.held| < round.sth.value.msg.size <= mirror.maxEntries
    requires mirror.held != [] ==>
      mirror.head.Some? && round.cons.Body? && round.cons.value.first == |mirror.held| && round.cons.value.second == round.sth.value.msg.size &&
      Consistent(|mirror.held|, round.sth.value.msg.size, mirror.head.value.logRoot, round.sth.value.msg.logRoot, round.cons.value.proof)
    requires round.sth.value.msg.size <= |served| && mirror.held == served[..|mirror.held|]
    requires FullPages(served, round.sth.value.msg.size, |mirror.held|, round.pages)
    requires forall k :: |mirror.held| <= k < round.sth.value.msg.size ==>
      0 <= served[k].version < 0x1_0000_0000_0000_0000 && 0 <= served[k].ts < 0x1_0000_0000_0000_0000
    modifies mirror, mirror.tree, mirror.tree.memo, mirror.map_, mirror.dir
    ensures var h, es := round.sth.value.msg, served[..round.sth.value.msg.size];
      r.Diverged? <==>
        !(Holds(mirror.w, es) && h.logRoot == Mth(Leaves(mirror.w.mode, es)) && h.mapRoot == Canon(DEPTH, [], Latest(es)))
  {
    hide *;
    HeardSigned(round.sth, mirror.maxEntries);
    WeighedIs(served, mirror.held, mirror.head, round.sth.value.msg, round.cons, round.pages);
    SoundMeans(mirror.w, served, round.sth.value.msg);
    r := mirror.Sync(round.sth, round.cons, round.pages, round.window, round.spoolFails, round.disk, served);
  }

  lemma WeighedIs(served: seq<LogEntry>, held: seq<LogEntry>, last: Option<HeadMsg>, h: HeadMsg, cons: Resp<Extension>,
                  pages: seq<Resp<seq<Element>>>)
    requires |held| < h.size <= |served| && held == served[..|held|] && FullPages(served, h.size, |held|, pages)
    requires held != [] ==>
      last.Some? && cons.Body? && cons.value.first == |held| && cons.value.second == h.size &&
      Consistent(|held|, h.size, last.value.logRoot, h.logRoot, cons.value.proof)
    requires forall k :: |held| <= k < h.size ==>
      0 <= served[k].version < 0x1_0000_0000_0000_0000 && 0 <= served[k].ts < 0x1_0000_0000_0000_0000
    ensures Weighed(served, held, last, h, cons, pages)
  {
    hide FullPages, Consistent;
    var delta := served[|held|..h.size];
    forall i | 0 <= i < |delta|
      ensures Encodes(delta[i])
    {
      assert delta[i] == served[|held| + i];
    }
  }

  lemma SoundMeans(w: World, hist: seq<LogEntry>, h: HeadMsg)
    requires 0 <= h.size <= |hist|
    ensures Sound(w, hist, h) <==>
      Holds(w, hist[..h.size]) && h.logRoot == Mth(Leaves(w.mode, hist[..h.size])) && h.mapRoot == Canon(DEPTH, [], Latest(hist[..h.size]))
  {
    hide Holds, Mth, Leaves, Canon, Latest;
  }

  lemma CaughtIs(served: seq<LogEntry>, held: seq<LogEntry>, last: Option<HeadMsg>, h: HeadMsg, cons: Resp<Extension>,
                 pages: seq<Resp<seq<Element>>>, i: nat, j: nat)
    requires |held| < h.size <= |served| && held == served[..|held|] && FullPages(served, h.size, |held|, pages)
    requires held != [] ==>
      last.Some? && cons.Body? && cons.value.first == |held| && cons.value.second == h.size &&
      Consistent(|held|, h.size, last.value.logRoot, h.logRoot, cons.value.proof)
    requires j < i && |held| <= i < h.size && served[j].lbl == served[i].lbl && served[j].version >= served[i].version
    requires forall k :: |held| <= k < i ==>
      0 <= served[k].version < 0x1_0000_0000_0000_0000 && 0 <= served[k].ts < 0x1_0000_0000_0000_0000
    ensures Caught(Kt, served, held, last, h, cons, pages)
  {
    hide FullPages, Consistent;
    var delta := served[|held|..h.size];
    var before := (held + delta)[..|held| + (i - |held|)];
    assert before == served[..i];
    assert before[j] == served[j] && delta[i - |held|] == served[i];
    assert Stops(Kt, held, delta, i - |held|);
  }

  // --- A log as it is ------------------------------------------------------------------------------

  /** The entries from k to n, as a page. */
  ghost function PageOf(hist: seq<LogEntry>, k: nat, n: nat): seq<Element>
    requires k <= n <= |hist|
  {
    seq(n - k, i requires 0 <= i < n - k => Item(hist[k + i]))
  }

  /**
   What a log answers a mirror that holds its first k entries delivers: its head of n, its proof, and its entries as it serves
   them, none of a value past the cap. So that mirror's sync adopts the head, wherever the disk writes.
   */
  lemma LogDelivers(w: World, es: seq<LogEntry>, k: nat, n: nat, ts: nat)
    requires Replays(w, es) && Hashes(w) && k <= n <= |es|
    requires forall i :: 0 <= i < |es| ==> es[i].ts < 0x1_0000_0000_0000_0000 && |es[i].value| <= 262_144 && (w.mode.Kt? ==> |es[i].fp| == 16)
    ensures var hist, h := AllServed(w.mode, es), HeadOf(w.mode, es[..n], ts);
      Delivered(w, hist, hist[..k], Body(SignedHead(h, OnHead(h))), Body(Extension(k, n, Proof(k, Leaves(w.mode, es[..n])))), [Body(PageOf(hist, k, n))])
  {
    hide Replays, Hashes, Holds, Leaves, HeadOf, Proof, AllServed;
    var hist, h := AllServed(w.mode, es), HeadOf(w.mode, es[..n], ts);
    ServedHolds(w, es);
    HeadFields(w.mode, es[..n], ts);
    DescribesIt(w.mode, es, n, ts);
    ServedDescribes(w.mode, h, es);
    ServedStart(w.mode, es, n);
    ServedLeaves(w.mode, es[..n]);
    ServedValues(w.mode, es);
    OnePage(hist, k, n);
  }

  /**
   What a log's answers come to over any transport: a head that fails, or has no shape, or is not of its key, or its own; a proof
   that fails, or is for other sizes, or its own; some of the entries, and failures after them. All that is honest, and
   with any other proof it is honest but for the proof.
   */
  lemma AnyTransport(w: World, es: seq<LogEntry>, k: nat, m: nat, n: nat, ts: nat, sth: Resp<SignedHead>, cons: Resp<Extension>,
                     failed: seq<Resp<seq<Element>>>)
    requires Replays(w, es) && Hashes(w) && k <= m <= n <= |es|
    requires forall i :: 0 <= i < |es| ==> es[i].ts < 0x1_0000_0000_0000_0000 && |es[i].value| <= 262_144 && (w.mode.Kt? ==> |es[i].fp| == 16)
    requires sth.Body? && sth.value.sig == OnHead(sth.value.msg) ==> sth.value.msg == HeadOf(w.mode, es[..n], ts)
    requires forall i :: 0 <= i < |failed| ==> !failed[i].Body?
    ensures var hist := AllServed(w.mode, es);
      HonestButProof(w, hist, hist[..k], sth, [Body(PageOf(hist, k, m))] + failed) &&
      (cons.Body? && cons.value.first == k && cons.value.second == n ==> cons.value.proof == Proof(k, Leaves(w.mode, es[..n])) ==>
        Honest(w, hist, hist[..k], sth, cons, [Body(PageOf(hist, k, m))] + failed))
  {
    hide Replays, Hashes, Holds, Leaves, HeadOf, Proof, AllServed;
    var hist, h := AllServed(w.mode, es), HeadOf(w.mode, es[..n], ts);
    LogDelivers(w, es, k, n, ts);
    HeadFields(w.mode, es[..n], ts);
    ServedStart(w.mode, es, n);
    ServedLeaves(w.mode, es[..n]);
    PartPage(hist, k, m, n, failed);
  }

  lemma PartPage(hist: seq<LogEntry>, k: nat, m: nat, n: nat, failed: seq<Resp<seq<Element>>>)
    requires k <= m <= n <= |hist| && forall i :: 0 <= i < |failed| ==> !failed[i].Body?
    ensures FaithfulPages(hist, n, k, [Body(PageOf(hist, k, m))] + failed)
  {
    var page := PageOf(hist, k, m);
    assert ([Body(page)] + failed)[1..] == failed;
    AllFailed(hist, n, m, failed);
    forall i | 0 <= i < |page|
      ensures AsHeld(hist, n, k + i, page[i])
    {
    }
  }

  lemma {:induction false} AllFailed(hist: seq<LogEntry>, n: nat, next: nat, failed: seq<Resp<seq<Element>>>)
    requires forall i :: 0 <= i < |failed| ==> !failed[i].Body?
    ensures FaithfulPages(hist, n, next, failed)
    decreases |failed|
  {
    if failed != [] {
      AllFailed(hist, n, next, failed[1..]);
    }
  }

  lemma DescribesIt(mode: Mode, es: seq<LogEntry>, n: nat, ts: int)
    requires n <= |es|
    ensures Describes(mode, HeadOf(mode, es[..n], ts), es)
  {
    hide Mth, Leaves, Latest, Canon;
  }

  lemma ServedStart(mode: Mode, es: seq<LogEntry>, n: nat)
    requires n <= |es|
    ensures AllServed(mode, es)[..n] == AllServed(mode, es[..n]) && |AllServed(mode, es)| == |es|
  {
    hide Served;
  }

  lemma ServedValues(mode: Mode, es: seq<LogEntry>)
    ensures forall i :: 0 <= i < |es| ==> AllServed(mode, es)[i].value == es[i].value
  {
  }

  lemma OnePage(hist: seq<LogEntry>, k: nat, n: nat)
    requires k <= n <= |hist| && forall i :: 0 <= i < |hist| ==> |hist[i].value| <= 262_144
    ensures FullPages(hist, n, k, [Body(PageOf(hist, k, n))]) && FaithfulPages(hist, n, k, [Body(PageOf(hist, k, n))])
  {
    var page := PageOf(hist, k, n);
    assert [Body(page)][1..] == [];
    if k < n {
      assert FullPages(hist, n, n, []);
    }
    FullFaithful(hist, n, k, [Body(page)]);
  }
}
