/**
 What the relay's coordinator (server/server.js) holds, as values: who owns a mailbox,
 what the running totals are recounts of, and a history of what entered and left each
 mailbox. Coordinator.dfy keeps all of it in step.
 */
module RelayState {
  import opened Options
  import opened Mailbox
  import opened EntryKeys
  import opened JsMaps
  import opened Totals

  datatype Config = Config(
    idSlots: nat, maxStoreBytes: nat, ownedTtlMs: int, ownedCap: nat, unownedMailboxBytes: nat,
    unownedStoreBytes: nat, introMailboxBytes: nat, introCap: nat, introEnvelopeBytes: nat, introPowMin: nat,
    maxQueueMsgs: nat, maxQueueBytes: nat, queueTtlMs: int, flushPage: nat, flushHighWaterBytes: nat)

  /** An introduction mailbox's flag: its difficulty, when its owner last set it, and whether it has lapsed. */
  datatype Flag = Flag(bits: nat, at: int, shadow: bool)

  /** What introStamp finds: the bits of work in a stamp, and the payload's hash. */
  datatype Stamp = Stamp(bits: nat, hash: string)

  /** What a sender is told. `push` asks for the recipient to be woken. */
  datatype SendResult =
    | TooLarge
    | PowRequired(bits: nat)
    | AlreadyHeld
    | NoRoom(unowned: bool)
    | MailboxFull
    | Queued(live: bool, push: bool)

  type Queues = map<string, Queue>

  // --- The clock ------------------------------------------------------------------

  function Later(clock: int, now: int): int {
    if now >= clock then now else clock
  }

  /** The latest of the times read since the clock stood there. */
  function LatestOf(clock: int, times: seq<int>): int {
    if times == [] then clock
    else Later(LatestOf(clock, times[..|times| - 1]), times[|times| - 1])
  }

  /** The times that were read never go back. */
  predicate Forward(clock: int, times: seq<int>) {
    times == [] ||
    (Forward(clock, times[..|times| - 1]) && times[|times| - 1] >= LatestOf(clock, times[..|times| - 1]))
  }

  lemma NothingRead(clock: int)
    ensures LatestOf(clock, []) == clock && Forward(clock, [])
  {
  }

  lemma LaterTwice(clock: int, now: int)
    ensures Later(Later(clock, now), now) == Later(clock, now)
    ensures now >= Later(clock, now) <==> now >= clock
  {
  }

  lemma ReadAgain(clock: int, times: seq<int>, now: int)
    ensures LatestOf(clock, times + [now]) == Later(LatestOf(clock, times), now)
    ensures Forward(clock, times + [now]) <==> Forward(clock, times) && now >= LatestOf(clock, times)
  {
    assert (times + [now])[..|times|] == times;
  }

  // --- Ownership ------------------------------------------------------------------

  predicate Flagged(flags: map<string, Flag>, rid: string) {
    rid in flags && !flags[rid].shadow
  }

  /** The mailboxes with the owned caps: on the owner list, or with a flag in force. */
  function Owners(owned: map<string, int>, flags: map<string, Flag>): set<string> {
    owned.Keys + (set r | r in flags && !flags[r].shadow)
  }

  lemma OwnersExact(owned: map<string, int>, flags: map<string, Flag>, rid: string)
    ensures rid in Owners(owned, flags) <==> rid in owned || Flagged(flags, rid)
  {
  }

  lemma NotOwner(owned: map<string, int>, flags: map<string, Flag>, rid: string)
    requires rid !in owned && !Flagged(flags, rid)
    ensures rid !in Owners(owned, flags)
    ensures Owners(owned, flags) + {rid} - {rid} == Owners(owned, flags)
  {
  }

  lemma ForgottenOwner(owned: map<string, int>, flags: map<string, Flag>, rid: string)
    requires rid in owned
    ensures Flagged(flags, rid) ==> Owners(owned - {rid}, flags) == Owners(owned, flags)
    ensures !Flagged(flags, rid) ==> Owners(owned - {rid}, flags) + {rid} == Owners(owned, flags)
    ensures !Flagged(flags, rid) ==> rid !in Owners(owned - {rid}, flags)
  {
  }

  // --- Recounts -----------------------------------------------------------------------

  ghost function BytesOf(qs: Queues): map<string, int> {
    map r | r in qs :: qs[r].bytes
  }

  ghost function CountOf(qs: Queues): map<string, int> {
    map r | r in qs :: |qs[r].entries|
  }

  ghost function UnownedOf(qs: Queues, owners: set<string>): map<string, int> {
    map r | r in qs && r !in owners :: qs[r].bytes
  }

  /** The totals are the recounts. */
  ghost predicate Balanced(qs: Queues, owners: set<string>, bytes: int, count: int, unowned: int) {
    bytes == Sum(BytesOf(qs)) && count == Sum(CountOf(qs)) && unowned == Sum(UnownedOf(qs, owners))
  }

  function Held(qs: Queues, rid: string): int {
    if rid in qs then qs[rid].bytes else 0
  }

  function HeldCount(qs: Queues, rid: string): int {
    if rid in qs then |qs[rid].entries| else 0
  }

  lemma SetSums(qs: Queues, rid: string, q: Queue)
    ensures Sum(BytesOf(qs[rid := q])) == Sum(BytesOf(qs)) - Held(qs, rid) + q.bytes
    ensures Sum(CountOf(qs[rid := q])) == Sum(CountOf(qs)) - HeldCount(qs, rid) + |q.entries|
  {
    hide Sum, BytesOf, CountOf, Held, HeldCount;
    SumSet(BytesOf(qs), rid, q.bytes);
    SumSet(CountOf(qs), rid, |q.entries|);
    SetViews(qs, rid, q);
  }

  lemma SetViews(qs: Queues, rid: string, q: Queue)
    ensures BytesOf(qs[rid := q]) == BytesOf(qs)[rid := q.bytes]
    ensures CountOf(qs[rid := q]) == CountOf(qs)[rid := |q.entries|]
    ensures rid in BytesOf(qs) <==> rid in qs
    ensures rid in CountOf(qs) <==> rid in qs
    ensures Held(qs, rid) == if rid in BytesOf(qs) then BytesOf(qs)[rid] else 0
    ensures HeldCount(qs, rid) == if rid in CountOf(qs) then CountOf(qs)[rid] else 0
  {
  }

  lemma SetUnowned(qs: Queues, owners: set<string>, rid: string, q: Queue)
    ensures Sum(UnownedOf(qs[rid := q], owners)) ==
      Sum(UnownedOf(qs, owners)) + (if rid in owners then 0 else q.bytes - Held(qs, rid))
  {
    if rid in owners {
      assert UnownedOf(qs[rid := q], owners) == UnownedOf(qs, owners);
    } else {
      SumSet(UnownedOf(qs, owners), rid, q.bytes);
      assert UnownedOf(qs[rid := q], owners) == UnownedOf(qs, owners)[rid := q.bytes];
    }
  }

  lemma SetBalanced(qs: Queues, owners: set<string>, bytes: int, count: int, unowned: int, rid: string, q: Queue)
    requires Balanced(qs, owners, bytes, count, unowned)
    ensures Balanced(qs[rid := q], owners, bytes + q.bytes - Held(qs, rid), count + |q.entries| - HeldCount(qs, rid),
                     if rid in owners then unowned else unowned + q.bytes - Held(qs, rid))
  {
    hide Sum, BytesOf, CountOf, UnownedOf, Held, HeldCount;
    SetSums(qs, rid, q);
    SetUnowned(qs, owners, rid, q);
  }

  lemma DropSums(qs: Queues, rid: string)
    ensures Sum(BytesOf(qs - {rid})) == Sum(BytesOf(qs)) - Held(qs, rid)
    ensures Sum(CountOf(qs - {rid})) == Sum(CountOf(qs)) - HeldCount(qs, rid)
  {
    SumDrop(BytesOf(qs), rid);
    SumDrop(CountOf(qs), rid);
    assert BytesOf(qs - {rid}) == BytesOf(qs) - {rid};
    assert CountOf(qs - {rid}) == CountOf(qs) - {rid};
  }

  lemma DropUnowned(qs: Queues, owners: set<string>, rid: string)
    ensures Sum(UnownedOf(qs - {rid}, owners)) == Sum(UnownedOf(qs, owners)) - (if rid in owners then 0 else Held(qs, rid))
  {
    if rid in owners {
      assert UnownedOf(qs - {rid}, owners) == UnownedOf(qs, owners);
    } else {
      SumDrop(UnownedOf(qs, owners), rid);
      assert UnownedOf(qs - {rid}, owners) == UnownedOf(qs, owners) - {rid};
    }
  }

  lemma DropBalanced(qs: Queues, owners: set<string>, bytes: int, count: int, unowned: int, rid: string)
    requires Balanced(qs, owners, bytes, count, unowned)
    ensures Balanced(qs - {rid}, owners, bytes - Held(qs, rid), count - HeldCount(qs, rid),
                     if rid in owners then unowned else unowned - Held(qs, rid))
  {
    hide Sum, BytesOf, CountOf, UnownedOf, Held, HeldCount;
    DropSums(qs, rid);
    DropUnowned(qs, owners, rid);
  }

  /** Claiming a mailbox takes its bytes out of the unowned total. */
  lemma ClaimBalanced(qs: Queues, owners: set<string>, bytes: int, count: int, unowned: int, rid: string)
    requires Balanced(qs, owners, bytes, count, unowned) && rid !in owners
    ensures Balanced(qs, owners + {rid}, bytes, count, unowned - Held(qs, rid))
  {
    SumDrop(UnownedOf(qs, owners), rid);
    assert UnownedOf(qs, owners + {rid}) == UnownedOf(qs, owners) - {rid};
  }

  /** Forgetting an owner puts them back. */
  lemma ForgetBalanced(qs: Queues, owners: set<string>, bytes: int, count: int, unowned: int, rid: string)
    requires Balanced(qs, owners, bytes, count, unowned) && rid in owners
    ensures Balanced(qs, owners - {rid}, bytes, count, unowned + Held(qs, rid))
  {
    var m := UnownedOf(qs, owners - {rid});
    SumDrop(m, rid);
    assert UnownedOf(qs, owners) == m - {rid};
  }

  // --- Queues ---------------------------------------------------------------------------

  /** A queue that exists holds something, within its caps, under its keys, in the order it was numbered. */
  ghost predicate QueueOk(q: Queue, cfg: Config, num: int) {
    q.entries != [] && Indexed(q) && |q.entries| <= cfg.maxQueueMsgs && q.bytes <= cfg.maxQueueBytes &&
    (forall e :: e in q.entries ==> KeyOf(e, cfg.idSlots)) && Numbered(q.entries, num)
  }

  ghost predicate Numbered(entries: seq<Entry>, num: int) {
    (forall i, j :: 0 <= i < j < |entries| ==> entries[i].num < entries[j].num) &&
    (forall e :: e in entries ==> e.num <= num)
  }

  ghost predicate QueuesOk(qs: Queues, cfg: Config, num: int) {
    forall r :: r in qs ==> QueueOk(qs[r], cfg, num)
  }

  /** No queue is bigger than the whole store, and no total is negative. */
  lemma HeldWithin(qs: Queues, owners: set<string>, bytes: int, count: int, unowned: int, cfg: Config, num: int, rid: string)
    requires Balanced(qs, owners, bytes, count, unowned) && QueuesOk(qs, cfg, num)
    ensures bytes >= Held(qs, rid) >= 0 && count >= HeldCount(qs, rid) >= 0
    ensures unowned >= (if rid in owners then 0 else Held(qs, rid))
  {
    forall r | r in qs
      ensures qs[r].bytes >= 0
    {
      assert QueueOk(qs[r], cfg, num);
    }
    SumCovers(BytesOf(qs), rid);
    SumCovers(CountOf(qs), rid);
    SumCovers(UnownedOf(qs, owners), rid);
  }

  // --- History --------------------------------------------------------------------------

  /** Why an entry left. */
  datatype Why = Acknowledged(id: string, from: Option<string>) | Sent

  /** `Framed`: a flush put the entry on its mailbox's socket. */
  datatype Event =
    | Added(rid: string, entry: Entry)
    | Taken(rid: string, entry: Entry, why: Why)
    | Expired(rid: string, cutoff: int)
    | Framed(rid: string, entry: Entry)

  type Contents = map<string, seq<Entry>>

  ghost function ContentsOf(qs: Queues): Contents {
    map r | r in qs :: qs[r].entries
  }

  ghost function In(c: Contents, rid: string): seq<Entry> {
    if rid in c then c[rid] else []
  }

  ghost function Put(c: Contents, rid: string, entries: seq<Entry>): Contents {
    if entries == [] then c - {rid} else c[rid := entries]
  }

  ghost function Minus(entries: seq<Entry>, e: Entry): seq<Entry> {
    if entries == [] then []
    else if entries[0] == e then entries[1..]
    else [entries[0]] + Minus(entries[1..], e)
  }

  ghost function Apply(c: Contents, ev: Event): Contents {
    match ev
    case Added(r, e) => Put(c, r, In(c, r) + [e])
    case Taken(r, e, _) => Put(c, r, Minus(In(c, r), e))
    case Expired(r, cutoff) => Put(c, r, Kept(In(c, r), cutoff))
    case Framed(_, _) => c
  }

  ghost function Replay(history: seq<Event>): Contents {
    if history == [] then map[]
    else Apply(Replay(history[..|history| - 1]), history[|history| - 1])
  }

  lemma ReplayNext(history: seq<Event>, ev: Event)
    ensures Replay(history + [ev]) == Apply(Replay(history), ev)
  {
    assert (history + [ev])[..|history|] == history;
  }

  /** What an event does to what is held: one more at the end, one less, those of an age, or nothing; and nothing in any other mailbox. */
  lemma ApplyIs(c: Contents, ev: Event, rid: string, i: nat)
    ensures ev.Added? && ev.rid == rid ==> In(Apply(c, ev), rid) == In(c, rid) + [ev.entry]
    ensures ev.Taken? && ev.rid == rid && Apart(In(c, rid)) && i < |In(c, rid)| && In(c, rid)[i] == ev.entry ==>
      In(Apply(c, ev), rid) == In(c, rid)[..i] + In(c, rid)[i + 1..]
    ensures ev.Expired? && ev.rid == rid ==>
      forall e :: e in In(Apply(c, ev), rid) <==> e in In(c, rid) && e.ts >= ev.cutoff
    ensures ev.Framed? || ev.rid != rid ==> In(Apply(c, ev), rid) == In(c, rid)
  {
    if ev.Taken? && ev.rid == rid && Apart(In(c, rid)) && i < |In(c, rid)| && In(c, rid)[i] == ev.entry {
      MinusIsCut(In(c, rid), i);
    }
    if ev.Expired? && ev.rid == rid {
      forall e
        ensures e in In(Apply(c, ev), rid) <==> e in In(c, rid) && e.ts >= ev.cutoff
      {
        KeptIn(In(c, rid), ev.cutoff, e);
      }
    }
  }

  lemma {:induction false} MinusIn(entries: seq<Entry>, e: Entry, x: Entry)
    requires x in entries && x != e
    ensures x in Minus(entries, e)
  {
    if entries[0] != e && entries[0] != x {
      MinusIn(entries[1..], e, x);
    }
  }

  lemma {:induction false} MinusIsCut(entries: seq<Entry>, i: nat)
    requires i < |entries| && Apart(entries)
    ensures Minus(entries, entries[i]) == Cut(entries, i)
  {
    if i > 0 {
      MinusIsCut(entries[1..], i - 1);
      assert Cut(entries, i) == [entries[0]] + Cut(entries[1..], i - 1);
    }
  }

  /** What could have taken an entry out of a mailbox. */
  ghost predicate Removes(ev: Event, rid: string, e: Entry) {
    match ev
    case Added(_, _) => false
    case Taken(r, x, _) => r == rid && x == e
    case Expired(r, cutoff) => r == rid && e.ts < cutoff
    case Framed(_, _) => false
  }

  /** An entry that was in a mailbox and no longer is was taken out in between. */
  lemma {:induction false} Removed(history: seq<Event>, from: nat, rid: string, e: Entry)
    requires from <= |history|
    requires e in In(Replay(history[..from]), rid) && e !in In(Replay(history), rid)
    ensures exists i :: from <= i < |history| && Removes(history[i], rid, e)
    decreases |history|
  {
    hide *;
    assert history[..|history|] == history;
    if from < |history| {
      var n := |history| - 1;
      var init := history[..n];
      assert init[..from] == history[..from];
      if e in In(Replay(init), rid) {
        StepTakes(history, rid, e);
      } else {
        Removed(init, from, rid, e);
        var i :| from <= i < |init| && Removes(init[i], rid, e);
        assert history[i] == init[i];
      }
    }
  }

  lemma StepTakes(history: seq<Event>, rid: string, e: Entry)
    requires history != []
    requires e in In(Replay(history[..|history| - 1]), rid) && e !in In(Replay(history), rid)
    ensures Removes(history[|history| - 1], rid, e)
  {
    hide In, Apply, Removes;
    if !Removes(history[|history| - 1], rid, e) {
      StepKeeps(Replay(history[..|history| - 1]), history[|history| - 1], rid, e);
    }
  }

  lemma StepKeeps(c: Contents, ev: Event, rid: string, e: Entry)
    requires e in In(c, rid) && !Removes(ev, rid, e)
    ensures e in In(Apply(c, ev), rid)
  {
    match ev
    case Added(r, x) =>
      if r == rid {
        assert (In(c, r) + [x])[..|In(c, r)|] == In(c, r);
      }
    case Taken(r, x, _) =>
      if r == rid {
        MinusIn(In(c, r), x, e);
      }
    case Expired(r, cutoff) =>
      if r == rid {
        KeptIn(In(c, r), cutoff, e);
      }
    case Framed(_, _) =>
  }

  /** Whether an entry may leave for a reason: an acknowledgement that answers it under a key it tries, or a sent receipt. */
  ghost predicate MayLeave(e: Entry, why: Why, slots: nat) {
    match why
    case Acknowledged(id, from) => Answers(e, from) && e.key in CandidateKeys(id, from, slots)
    case Sent => e.kind == Receipt
  }

  /**
   What may happen after `before`: entries enter under keys of their own, what leaves or is sent
   was held, it leaves for a reason, a receipt leaves as sent right after its frame, and entries
   expire only past the age.
   */
  ghost predicate Due(before: seq<Event>, ev: Event, cfg: Config, clock: int) {
    match ev
    case Added(_, e) => KeyOf(e, cfg.idSlots)
    case Taken(rid, e, why) =>
      e in In(Replay(before), rid) && KeyOf(e, cfg.idSlots) && MayLeave(e, why, cfg.idSlots) &&
      (why == Sent ==> before != [] && before[|before| - 1] == Framed(rid, e))
    case Expired(_, cutoff) => cutoff <= clock - cfg.queueTtlMs
    case Framed(rid, e) => e in In(Replay(before), rid)
  }

  ghost predicate AllDue(history: seq<Event>, cfg: Config, clock: int) {
    forall i :: 0 <= i < |history| ==> Due(history[..i], history[i], cfg, clock)
  }

  /** Every routing id that ever had a mailbox. */
  ghost function Receivers(history: seq<Event>): set<string> {
    set i | 0 <= i < |history| && history[i].Added? :: history[i].rid
  }

  lemma DueNext(history: seq<Event>, ev: Event, cfg: Config, clock: int)
    requires AllDue(history, cfg, clock) && Due(history, ev, cfg, clock)
    ensures AllDue(history + [ev], cfg, clock)
    ensures Receivers(history + [ev]) == Receivers(history) + (if ev.Added? then {ev.rid} else {})
  {
    hide Due;
    var all := history + [ev];
    assert all[|history|] == ev && all[..|history|] == history;
    assert forall i :: 0 <= i < |history| ==> all[i] == history[i] && all[..i] == history[..i];
  }

  lemma DueLater(history: seq<Event>, cfg: Config, clock: int, clock': int)
    requires AllDue(history, cfg, clock) && clock <= clock'
    ensures AllDue(history, cfg, clock')
  {
    hide Replay, In, KeyOf, MayLeave;
    forall i | 0 <= i < |history|
      ensures Due(history[..i], history[i], cfg, clock')
    {
      assert Due(history[..i], history[i], cfg, clock);
    }
  }

  /** What has been so far was due. */
  lemma DueBefore(history: seq<Event>, cfg: Config, clock: int, n: nat)
    requires AllDue(history, cfg, clock) && n <= |history|
    ensures AllDue(history[..n], cfg, clock)
  {
    hide Due;
    assert forall i :: 0 <= i < n ==> history[..n][i] == history[i] && history[..n][..i] == history[..i];
  }

  /** How an entry leaves a mailbox. */
  ghost predicate LeftBy(ev: Event, rid: string, e: Entry, cfg: Config, clock: int) {
    match ev
    case Added(_, _) => false
    case Taken(r, x, Acknowledged(id, from)) =>
      r == rid && x == e && Answers(e, from) && (Named(e, id, from) || Confused(e, id, cfg.idSlots))
    case Taken(r, x, Sent) => r == rid && x == e && e.kind == Receipt
    case Expired(r, cutoff) => r == rid && e.ts < cutoff <= clock - cfg.queueTtlMs
    case Framed(_, _) => false
  }

  /**
   An envelope that is no longer held was acknowledged, by an acknowledgement that names it or
   is confused about it, or is past the age; a receipt was sent, or is past the age.
   */
  lemma Retained(history: seq<Event>, cfg: Config, clock: int, from: nat, rid: string, e: Entry)
    requires AllDue(history, cfg, clock) && from <= |history|
    requires e in In(Replay(history[..from]), rid) && e !in In(Replay(history), rid)
    ensures exists i :: from <= i < |history| && LeftBy(history[i], rid, e, cfg, clock)
  {
    hide Replay, In, KeyOf, Confused, CandidateKeys;
    Removed(history, from, rid, e);
    var i :| from <= i < |history| && Removes(history[i], rid, e);
    assert Due(history[..i], history[i], cfg, clock);
    if history[i].Taken? && history[i].why.Acknowledged? {
      CandidateExact(e, history[i].why.id, cfg.idSlots);
    }
    assert LeftBy(history[i], rid, e, cfg, clock);
  }

  // --- One queue changed -----------------------------------------------------------------------

  /** Every other queue is as it was, and rid's holds `entries`. */
  lemma ContentsSet(qs: Queues, rid: string, q: Queue)
    requires q.entries != []
    ensures ContentsOf(qs[rid := q]) == Put(ContentsOf(qs), rid, q.entries)
    ensures In(ContentsOf(qs), rid) == if rid in qs then qs[rid].entries else []
  {
  }

  lemma ContentsDrop(qs: Queues, rid: string)
    ensures ContentsOf(qs - {rid}) == Put(ContentsOf(qs), rid, [])
    ensures In(ContentsOf(qs), rid) == if rid in qs then qs[rid].entries else []
  {
  }

  lemma QueuesSet(qs: Queues, cfg: Config, num: int, rid: string, q: Queue)
    requires QueuesOk(qs, cfg, num) && QueueOk(q, cfg, num)
    ensures QueuesOk(qs[rid := q], cfg, num)
  {
  }

  lemma QueuesDrop(qs: Queues, cfg: Config, num: int, rid: string)
    requires QueuesOk(qs, cfg, num)
    ensures QueuesOk(qs - {rid}, cfg, num)
  {
  }

  lemma QueuesLater(qs: Queues, cfg: Config, num: int, num': nat)
    requires QueuesOk(qs, cfg, num) && num <= num'
    ensures QueuesOk(qs, cfg, num')
  {
    forall r | r in qs
      ensures QueueOk(qs[r], cfg, num')
    {
      assert QueueOk(qs[r], cfg, num);
    }
  }

  /** The queue with entry e added. */
  function PushedQueue(q: Queue, e: Entry): Queue {
    Queue(q.entries + [e], q.bytes + e.size, q.keys[e.key := e],
          if e.ph.Some? then q.hashes[e.ph.value := e.key] else q.hashes)
  }

  /** A queue takes a newer entry under a free key of its own, within the caps. */
  lemma PushOk(q: Queue, e: Entry, cfg: Config, num: int)
    requires q == NoQueue || QueueOk(q, cfg, num - 1)
    requires e.num == num >= 1 && KeyOf(e, cfg.idSlots) && e.key !in q.keys
    requires e.ph.Some? ==> e.ph.value !in q.hashes
    requires |q.entries| + 1 <= cfg.maxQueueMsgs && q.bytes + e.size <= cfg.maxQueueBytes
    ensures QueueOk(PushedQueue(q, e), cfg, num)
  {
    hide Indexed, KeyOf;
    EmptyIndexed();
    IndexedQueue(q, cfg, num);
    Pushed(q, e);
    var all := q.entries + [e];
    forall i, j | 0 <= i < j < |all|
      ensures all[i].num < all[j].num
    {
      assert all[i] in q.entries;
    }
  }

  lemma EmptyIndexed()
    ensures Indexed(NoQueue)
  {
  }

  lemma IndexedQueue(q: Queue, cfg: Config, num: int)
    requires q == NoQueue || QueueOk(q, cfg, num - 1)
    ensures Indexed(q)
  {
  }

  /** The queue without the entry at index i. */
  function CutQueue(q: Queue, i: nat): Queue
    requires i < |q.entries|
  {
    var e := q.entries[i];
    Queue(Cut(q.entries, i), q.bytes - e.size, q.keys - {e.key},
          if e.ph.Some? then q.hashes - {e.ph.value} else q.hashes)
  }

  lemma CutIndexed(q: Queue, i: nat)
    requires Indexed(q) && i < |q.entries|
    ensures Indexed(CutQueue(q, i))
  {
    hide KeyIndex, HashIndex, Apart, SizeSum, Cut;
    CutApart(q.entries, i);
    CutSize(q.entries, i);
    CutKeys(q.entries, i);
    CutHashes(q.entries, i);
    assert q.hashes - {} == q.hashes;
  }

  lemma CutOrder(entries: seq<Entry>, i: nat, num: int)
    requires Numbered(entries, num) && i < |entries|
    ensures Numbered(Cut(entries, i), num) && |Cut(entries, i)| == |entries| - 1
    ensures forall e :: e in Cut(entries, i) ==> e in entries
  {
  }

  lemma CutOk(q: Queue, i: nat, cfg: Config, num: int)
    requires QueueOk(q, cfg, num) && i < |q.entries|
    ensures |Cut(q.entries, i)| == |q.entries| - 1
    ensures |q.entries| > 1 ==> QueueOk(CutQueue(q, i), cfg, num)
    ensures |q.entries| == 1 ==> CutQueue(q, i).bytes == 0
    ensures Minus(q.entries, q.entries[i]) == Cut(q.entries, i)
  {
    hide KeyOf, Apart, Cut, Minus, KeyIndex, HashIndex, Numbered;
    CutIndexed(q, i);
    CutOrder(q.entries, i, num);
    MinusIsCut(q.entries, i);
  }

  /** Cutting an entry settles every total by it, and none of them goes below zero. */
  lemma CutBalanced(qs: Queues, owners: set<string>, bytes: int, count: int, unowned: int, cfg: Config, num: int,
                    rid: string, i: nat)
    requires Balanced(qs, owners, bytes, count, unowned) && QueuesOk(qs, cfg, num)
    requires rid in qs && i < |qs[rid].entries|
    ensures var q, e := CutQueue(qs[rid], i), qs[rid].entries[i];
      bytes >= e.size && count >= 1 && (rid !in owners ==> unowned >= e.size) &&
      Balanced(if q.entries == [] then qs - {rid} else qs[rid := q], owners, bytes - e.size, count - 1,
               if rid in owners then unowned else unowned - e.size) &&
      (if q.entries == [] then q.bytes == 0 else QueueOk(q, cfg, num)) &&
      Minus(qs[rid].entries, e) == q.entries
  {
    hide Balanced, Indexed, Cut, Minus;
    var q := qs[rid];
    assert QueueOk(q, cfg, num);
    SizeWithin(q, i);
    HeldWithin(qs, owners, bytes, count, unowned, cfg, num, rid);
    CutOk(q, i, cfg, num);
    SetBalanced(qs, owners, bytes, count, unowned, rid, CutQueue(q, i));
    DropBalanced(qs, owners, bytes, count, unowned, rid);
  }

  lemma SizeWithin(q: Queue, i: nat)
    requires i < |q.entries| && Indexed(q)
    ensures q.bytes >= q.entries[i].size
  {
    CutSize(q.entries, i);
  }

  /** The queue with what outlived the cutoff dropped. */
  function KeptQueue(q: Queue, cutoff: int): Queue {
    var kept := Kept(q.entries, cutoff);
    Queue(kept, SizeSum(kept), KeyIndex(kept), HashIndex(kept))
  }

  lemma KeptOk(q: Queue, cutoff: int, cfg: Config, num: int)
    requires QueueOk(q, cfg, num)
    ensures Kept(q.entries, cutoff) != [] ==> QueueOk(KeptQueue(q, cutoff), cfg, num)
    ensures 0 <= KeptQueue(q, cutoff).bytes <= q.bytes && |Kept(q.entries, cutoff)| <= |q.entries|
  {
    hide KeyOf, KeyIndex, HashIndex, Apart;
    var kept := Kept(q.entries, cutoff);
    KeptApart(q.entries, cutoff);
    KeptSums(q.entries, cutoff);
    forall e | e in kept
      ensures e in q.entries
    {
      KeptIn(q.entries, cutoff, e);
    }
    KeptOrder(q.entries, cutoff, num);
  }

  /** Expiring a queue settles every total by what it frees. */
  lemma KeptBalanced(qs: Queues, owners: set<string>, bytes: int, count: int, unowned: int, cfg: Config, num: int,
                     rid: string, cutoff: int)
    requires Balanced(qs, owners, bytes, count, unowned) && QueuesOk(qs, cfg, num) && rid in qs
    ensures var was, q := qs[rid], KeptQueue(qs[rid], cutoff);
      var freed, removed := was.bytes - q.bytes, |was.entries| - |q.entries|;
      freed >= 0 && removed >= 0 && bytes >= freed && count >= removed && (rid !in owners ==> unowned >= freed) &&
      Balanced(if q.entries == [] then qs - {rid} else qs[rid := q], owners, bytes - freed, count - removed,
               if rid in owners then unowned else unowned - freed) &&
      (if q.entries == [] then q.bytes == 0 else QueueOk(q, cfg, num)) && q.entries == Kept(was.entries, cutoff)
  {
    hide Balanced, Indexed, Kept, KeyIndex, HashIndex, Numbered;
    var q := qs[rid];
    assert QueueOk(q, cfg, num);
    HeldWithin(qs, owners, bytes, count, unowned, cfg, num, rid);
    KeptOk(q, cutoff, cfg, num);
    SetBalanced(qs, owners, bytes, count, unowned, rid, KeptQueue(q, cutoff));
    DropBalanced(qs, owners, bytes, count, unowned, rid);
  }

  lemma {:induction false} KeptOrder(entries: seq<Entry>, cutoff: int, num: int)
    requires Numbered(entries, num)
    ensures Numbered(Kept(entries, cutoff), num)
  {
    if entries != [] {
      var n := |entries| - 1;
      var init, last := entries[..n], entries[n];
      assert entries == init + [last];
      KeptOrder(init, cutoff, num);
      forall e | e in Kept(init, cutoff)
        ensures e.num < last.num
      {
        KeptIn(init, cutoff, e);
        var i :| 0 <= i < n && init[i] == e;
        assert entries[i].num < entries[n].num;
      }
    }
  }

  // --- The owner list -----------------------------------------------------------------------

  /** The owner list after a trim: its longest end that is within the cap and starts with an owner within the TTL. */
  function Trimmed(order: seq<string>, at: map<string, int>, cap: nat, ttl: int, now: int): seq<string>
    requires forall r :: r in order ==> r in at
  {
    if order == [] || (|order| <= cap && now - at[order[0]] <= ttl) then order
    else Trimmed(order[1..], at, cap, ttl, now)
  }

  /** A trim forgets the fewest oldest that it must: what it leaves is the end of the list, within the cap and with a first one of age. */
  lemma {:induction false} TrimmedIs(order: seq<string>, at: map<string, int>, cap: nat, ttl: int, now: int) returns (k: nat)
    requires forall r :: r in order ==> r in at
    ensures k <= |order| && Trimmed(order, at, cap, ttl, now) == order[k..]
    ensures k < |order| ==> |order| - k <= cap && now - at[order[k]] <= ttl
    ensures forall i :: 0 <= i < k ==> |order| - i > cap || now - at[order[i]] > ttl
  {
    if order == [] || (|order| <= cap && now - at[order[0]] <= ttl) {
      k := 0;
    } else {
      var j := TrimmedIs(order[1..], at, cap, ttl, now);
      k := j + 1;
      forall i | 0 <= i < k
        ensures |order| - i > cap || now - at[order[i]] > ttl
      {
        if i > 0 {
          assert order[i] == order[1..][i - 1];
        }
      }
    }
  }

  /** The owner list once rid has authenticated: rid last, and trimmed if it is new. */
  function Enrolled(order: seq<string>, at: map<string, int>, rid: string, cap: nat, ttl: int, now: int): seq<string>
    requires forall r :: r in order ==> r in at
  {
    var renewed := Without(order, rid) + [rid];
    if rid in at then renewed else Trimmed(renewed, at[rid := now], cap, ttl, now)
  }

  lemma EnrolledIs(order: seq<string>, at: map<string, int>, rid: string, cap: nat, ttl: int, now: int)
    requires forall r :: r in order ==> r in at
    ensures (forall r :: r in Without(order, rid) + [rid] ==> r in at[rid := now])
    ensures Enrolled(order, at, rid, cap, ttl, now) ==
      if rid in at then Without(order, rid) + [rid] else Trimmed(Without(order, rid) + [rid], at[rid := now], cap, ttl, now)
  {
  }

  lemma TrimStep(order: seq<string>, at: map<string, int>, at': map<string, int>, cap: nat, ttl: int, now: int)
    requires order != [] && forall r :: r in order ==> r in at
    requires forall r :: r in order[1..] ==> r in at' && at'[r] == at[r]
    ensures |order| <= cap && now - at[order[0]] <= ttl ==> Trimmed(order, at, cap, ttl, now) == order
    ensures !(|order| <= cap && now - at[order[0]] <= ttl) ==>
      Trimmed(order, at, cap, ttl, now) == Trimmed(order[1..], at', cap, ttl, now)
  {
    TrimAgree(order[1..], at, at', cap, ttl, now);
  }

  lemma TrimNothing(order: seq<string>, at: map<string, int>, cap: nat, ttl: int, now: int)
    requires forall r :: r in order ==> r in at
    ensures order == [] ==> Trimmed(order, at, cap, ttl, now) == order
  {
  }

  lemma {:induction false} TrimAgree(order: seq<string>, at: map<string, int>, at': map<string, int>, cap: nat, ttl: int, now: int)
    requires forall r :: r in order ==> r in at && r in at' && at'[r] == at[r]
    ensures Trimmed(order, at, cap, ttl, now) == Trimmed(order, at', cap, ttl, now)
  {
    if order != [] && !(|order| <= cap && now - at[order[0]] <= ttl) {
      TrimAgree(order[1..], at, at', cap, ttl, now);
    }
  }

  /** The keys are listed oldest first, none with a time still to come. */
  ghost predicate Aged(order: seq<string>, at: map<string, int>, clock: int) {
    (forall r :: r in order ==> r in at && at[r] <= clock) &&
    forall i, j :: 0 <= i < j < |order| ==> at[order[i]] <= at[order[j]]
  }

  lemma AgedLater(order: seq<string>, at: map<string, int>, clock: int, clock': int)
    requires Aged(order, at, clock) && clock <= clock'
    ensures Aged(order, at, clock')
  {
  }

  lemma {:induction false} AgedWithout(order: seq<string>, at: map<string, int>, at': map<string, int>, clock: int, k: string)
    requires Aged(order, at, clock) && forall r :: r in order && r != k ==> r in at' && at'[r] == at[r]
    ensures Aged(Without(order, k), at', clock)
  {
    if order != [] {
      var rest := order[1..];
      assert forall r :: r in rest ==> r in order;
      assert forall r :: r in rest ==> at[order[0]] <= at[r];
      AgedWithout(rest, at, at', clock, k);
    }
  }

  lemma AgedRenewed(order: seq<string>, at: map<string, int>, clock: int, k: string, now: int)
    requires Aged(order, at, clock) && clock <= now
    ensures Aged(Without(order, k) + [k], at[k := now], now)
  {
    AgedWithout(order, at, at[k := now], clock, k);
  }

  /** On a list that is oldest first, what is left is within the cap and within the TTL. */
  lemma {:induction false} TrimmedFresh(order: seq<string>, at: map<string, int>, clock: int, cap: nat, ttl: int, now: int)
    requires forall r :: r in order ==> r in at
    requires Aged(order, at, clock)
    ensures |Trimmed(order, at, cap, ttl, now)| <= cap
    ensures forall r :: r in Trimmed(order, at, cap, ttl, now) ==> r in order && now - at[r] <= ttl
    ensures |order| <= cap && (forall r :: r in order ==> now - at[r] <= ttl) ==> Trimmed(order, at, cap, ttl, now) == order
  {
    if order != [] && !(|order| <= cap && now - at[order[0]] <= ttl) {
      assert forall r :: r in order[1..] ==> r in order;
      TrimmedFresh(order[1..], at, clock, cap, ttl, now);
    }
  }

  /** The owner just seen is kept when the cap and the TTL allow any owner at all. */
  lemma {:induction false} NewestKept(order: seq<string>, at: map<string, int>, cap: nat, ttl: int, now: int)
    requires forall r :: r in order ==> r in at
    requires order != [] && at[order[|order| - 1]] == now && cap >= 1 && ttl >= 0
    ensures order[|order| - 1] in Trimmed(order, at, cap, ttl, now)
    decreases |order|
  {
    if |order| > 1 {
      NewestKept(order[1..], at, cap, ttl, now);
    }
  }

  /** Otherwise nobody is, so a claim does not leave its mailbox owned. */
  lemma {:induction false} NobodyKept(order: seq<string>, at: map<string, int>, cap: nat, ttl: int, now: int)
    requires forall r :: r in order ==> r in at && at[r] <= now
    requires cap < 1 || ttl < 0
    ensures Trimmed(order, at, cap, ttl, now) == []
  {
    if order != [] {
      assert order[0] in order;
      NobodyKept(order[1..], at, cap, ttl, now);
    }
  }

  /** And flagging a mailbox that no claim settled keeps the totals exact only if it holds nothing. */
  lemma FlagUnsettled(qs: Queues, owners: set<string>, bytes: int, count: int, unowned: int, rid: string)
    requires Balanced(qs, owners, bytes, count, unowned) && rid !in owners
    ensures Balanced(qs, owners + {rid}, bytes, count, unowned) <==> Held(qs, rid) == 0
  {
    ClaimBalanced(qs, owners, bytes, count, unowned, rid);
  }

  // --- Flags ------------------------------------------------------------------------------------

  /** A flag past the TTL lapses into its shadow, a shadow past another is forgotten; up to the first flag in force. */
  function Lapsed(order: seq<string>, flags: map<string, Flag>, ttl: int, now: int): map<string, Flag>
    requires forall r :: r in order ==> r in flags
    requires NoRepeat(order)
  {
    if order == [] || now - flags[order[0]].at <= ttl then flags
    else
      NoRepeatRest(order);
      Lapsed(order[1..], LapseOne(flags, order[0], ttl, now), ttl, now)
  }

  function LapseOne(flags: map<string, Flag>, r: string, ttl: int, now: int): map<string, Flag>
    requires r in flags
  {
    if now - flags[r].at > 2 * ttl then flags - {r} else flags[r := flags[r].(shadow := true)]
  }

  /** What is left of a walk gives `all`. */
  ghost predicate Lapses(rest: seq<string>, flags: map<string, Flag>, ttl: int, now: int, all: map<string, Flag>)
    requires NoRepeat(rest) && forall r :: r in rest ==> r in flags
  {
    Lapsed(rest, flags, ttl, now) == all
  }

  lemma LapseStep(rest: seq<string>, flags: map<string, Flag>, ttl: int, now: int, all: map<string, Flag>)
    requires rest != [] && NoRepeat(rest)
    requires forall r :: r in rest ==> r in flags
    requires Lapses(rest, flags, ttl, now, all)
    ensures NoRepeat(rest[1..]) && forall r :: r in rest[1..] ==> r in LapseOne(flags, rest[0], ttl, now)
    ensures now - flags[rest[0]].at <= ttl ==> flags == all
    ensures now - flags[rest[0]].at > ttl ==> Lapses(rest[1..], LapseOne(flags, rest[0], ttl, now), ttl, now, all)
  {
    NoRepeatRest(rest);
  }

  lemma LapseEnd(rest: seq<string>, flags: map<string, Flag>, ttl: int, now: int, all: map<string, Flag>)
    requires rest == [] && Lapses(rest, flags, ttl, now, all)
    ensures flags == all
  {
  }

  ghost function TimesOf(flags: map<string, Flag>): map<string, int> {
    map r | r in flags :: flags[r].at
  }

  // What is done to the two lists leaves them oldest first.

  lemma OwnerGone(owned: JsMap<int>, clock: int, k: string)
    requires owned.Ok()
    ensures Aged(owned.order, owned.at, clock) ==> Aged(owned.Delete(k).order, owned.Delete(k).at, clock)
  {
    if Aged(owned.order, owned.at, clock) {
      AgedWithout(owned.order, owned.at, owned.at - {k}, clock, k);
    }
  }

  lemma OwnerRenewed(owned: JsMap<int>, clock: int, k: string)
    requires owned.Ok()
    ensures Aged(owned.order, owned.at, clock) ==>
      Aged(owned.Delete(k).Set(k, clock).order, owned.Delete(k).Set(k, clock).at, clock)
  {
    Renewed(owned, k, clock);
    if Aged(owned.order, owned.at, clock) {
      AgedRenewed(owned.order, owned.at, clock, k, clock);
    }
  }

  lemma FlagGone(intro: JsMap<Flag>, clock: int, k: string)
    requires intro.Ok()
    ensures Aged(intro.order, TimesOf(intro.at), clock) ==> Aged(intro.Delete(k).order, TimesOf(intro.Delete(k).at), clock)
  {
    if Aged(intro.order, TimesOf(intro.at), clock) {
      AgedWithout(intro.order, TimesOf(intro.at), TimesOf(intro.at - {k}), clock, k);
    }
  }

  lemma FlagRenewed(intro: JsMap<Flag>, k: string, f: Flag)
    requires intro.Ok()
    ensures Aged(intro.order, TimesOf(intro.at), f.at) ==>
      Aged(intro.Delete(k).Set(k, f).order, TimesOf(intro.Delete(k).Set(k, f).at), f.at)
  {
    Renewed(intro, k, f);
    if Aged(intro.order, TimesOf(intro.at), f.at) {
      AgedRenewed(intro.order, TimesOf(intro.at), f.at, k, f.at);
      assert TimesOf(intro.at[k := f]) == TimesOf(intro.at)[k := f.at];
    }
  }

  lemma FlagShadowed(intro: JsMap<Flag>, k: string)
    requires k in intro.at
    ensures var shadowed := intro.Set(k, intro.at[k].(shadow := true));
      shadowed.order == intro.order && shadowed.at.Keys == intro.at.Keys && TimesOf(shadowed.at) == TimesOf(intro.at)
  {
  }

  /** What a flag of that age is now. */
  function LapsedFlag(f: Flag, ttl: int, now: int): Option<Flag> {
    var age := now - f.at;
    if age <= ttl then Some(f) else if age > 2 * ttl then None else Some(f.(shadow := true))
  }

  lemma NotFlagged(flags: map<string, Flag>, flags': map<string, Flag>, rid: string)
    requires rid !in flags && rid !in flags'
    ensures !Flagged(flags, rid) && !Flagged(flags', rid)
  {
  }

  /** What age makes of a flag: past two ages it is gone, past one a shadow, and until then as it was. */
  lemma LapsedFlagIs(f: Flag, ttl: int, now: int)
    requires ttl >= 0
    ensures LapsedFlag(f, ttl, now).None? <==> now - f.at > 2 * ttl
    ensures LapsedFlag(f, ttl, now).Some? ==>
      var g := LapsedFlag(f, ttl, now).value;
      g.bits == f.bits && g.at == f.at && (g.shadow <==> f.shadow || now - f.at > ttl)
  {
  }

  /** The flags left when the least recently set have made room for a new one. */
  function RoomFor(order: seq<string>, cap: nat): seq<string>
    requires cap >= 1
  {
    if |order| >= cap then order[|order| - cap + 1..] else order
  }

  /** The flags once rid's is set: rid last, after room was made for it if it is new. */
  function WithLast(order: seq<string>, rid: string, held: bool, cap: nat): seq<string>
    requires cap >= 1
  {
    Without(if held then order else RoomFor(order, cap), rid) + [rid]
  }

  /** A new flag is the last, and of the others only the most recent stay, one less than the cap; a flag that is there already only moves. */
  lemma WithLastOrder(order: seq<string>, rid: string, held: bool, cap: nat)
    requires cap >= 1 && NoRepeat(order) && (held <==> rid in order)
    ensures var r := WithLast(order, rid, held, cap);
      r[|r| - 1] == rid &&
      (!held ==> r[..|r| - 1] == order[if |order| < cap then 0 else |order| - cap + 1..]) &&
      (held ==> r[..|r| - 1] == Without(order, rid) && |r| == |order|)
  {
    hide NoRepeat;
    WithoutNoRepeat(order, rid);
    if !held {
      var rest := RoomFor(order, cap);
      assert forall x :: x in rest ==> x in order;
      NoRepeatEnd(order, if |order| < cap then 0 else |order| - cap + 1);
      assert order[0..] == order;
      WithoutNoRepeat(rest, rid);
    }
  }

  lemma NoRepeatEnd(s: seq<string>, k: nat)
    requires NoRepeat(s) && k <= |s|
    ensures NoRepeat(s[k..])
  {
  }

  lemma WithLastIs(order: seq<string>, rid: string, held: bool, cap: nat)
    requires cap >= 1
    ensures WithLast(order, rid, held, cap) == Without(if held then order else RoomFor(order, cap), rid) + [rid]
  {
  }

  lemma LapsedEach(intro: JsMap<Flag>, clock: int, ttl: int, now: int)
    requires intro.Ok()
    ensures NoRepeat(intro.order) && forall r :: r in intro.order ==> r in intro.at
    ensures Aged(intro.order, TimesOf(intro.at), clock) && ttl >= 0 ==> forall r :: r in intro.at ==>
      LapsedFlag(intro.at[r], ttl, now) ==
        if r in Lapsed(intro.order, intro.at, ttl, now) then Some(Lapsed(intro.order, intro.at, ttl, now)[r]) else None
  {
    hide Aged, Lapsed, LapsedFlag, TimesOf, NoRepeat;
    IterationOk(intro);
    if Aged(intro.order, TimesOf(intro.at), clock) && ttl >= 0 {
      forall r | r in intro.at
        ensures LapsedFlag(intro.at[r], ttl, now) ==
          if r in Lapsed(intro.order, intro.at, ttl, now) then Some(Lapsed(intro.order, intro.at, ttl, now)[r]) else None
      {
        LapsedExact(intro.order, intro.at, clock, ttl, now, r);
      }
    }
  }

  /** When the flags are listed least recently set first, each is what its age makes it. */
  lemma {:induction false} LapsedExact(order: seq<string>, flags: map<string, Flag>, clock: int, ttl: int, now: int, rid: string)
    requires NoRepeat(order) && forall r :: r in order ==> r in flags
    requires Aged(order, TimesOf(flags), clock)
    requires ttl >= 0 && rid in order
    ensures LapsedFlag(flags[rid], ttl, now) ==
      if rid in Lapsed(order, flags, ttl, now) then Some(Lapsed(order, flags, ttl, now)[rid]) else None
    decreases |order|
  {
    var i :| 0 <= i < |order| && order[i] == rid;
    NoRepeatRest(order);
    if now - flags[order[0]].at > ttl {
      if i == 0 {
        LapsedRest(order[1..], LapseOne(flags, rid, ttl, now), ttl, now, rid);
      } else {
        assert rid == order[1..][i - 1];
        LapsedExact(order[1..], LapseOne(flags, order[0], ttl, now), clock, ttl, now, rid);
      }
    } else {
      assert i > 0 ==> flags[order[0]].at <= flags[order[i]].at;
    }
  }

  /** Flags that are not listed are left as they are. */
  lemma {:induction false} LapsedRest(order: seq<string>, flags: map<string, Flag>, ttl: int, now: int, rid: string)
    requires NoRepeat(order) && forall r :: r in order ==> r in flags
    requires rid !in order
    ensures rid in Lapsed(order, flags, ttl, now) <==> rid in flags
    ensures rid in flags ==> Lapsed(order, flags, ttl, now)[rid] == flags[rid]
    decreases |order|
  {
    if order != [] && now - flags[order[0]].at > ttl {
      NoRepeatRest(order);
      LapsedRest(order[1..], LapseOne(flags, order[0], ttl, now), ttl, now, rid);
    }
  }

  lemma ClaimedOwner(owned: map<string, int>, flags: map<string, Flag>, rid: string, now: int)
    ensures rid in owned || Flagged(flags, rid) ==> Owners(owned[rid := now], flags) == Owners(owned, flags)
    ensures !(rid in owned || Flagged(flags, rid)) ==>
      Owners(owned[rid := now], flags) == Owners(owned, flags) + {rid} && rid !in Owners(owned, flags)
  {
  }

  /** Dropping or shadowing a flag takes its mailbox off the owners, unless the owner list has it. */
  lemma UnflaggedOwner(owned: map<string, int>, flags: map<string, Flag>, rid: string)
    requires rid in flags
    ensures Flagged(flags, rid) && rid !in owned ==>
      Owners(owned, flags - {rid}) + {rid} == Owners(owned, flags) &&
      Owners(owned, flags[rid := flags[rid].(shadow := true)]) + {rid} == Owners(owned, flags)
    ensures !(Flagged(flags, rid) && rid !in owned) ==>
      Owners(owned, flags - {rid}) == Owners(owned, flags) &&
      Owners(owned, flags[rid := flags[rid].(shadow := true)]) == Owners(owned, flags)
  {
  }

  /** A flag in force makes its mailbox owned, if it is not. */
  lemma FlaggedOwner(owned: map<string, int>, flags: map<string, Flag>, rid: string, f: Flag)
    requires !f.shadow
    ensures rid in owned || Flagged(flags, rid) ==> Owners(owned, flags[rid := f]) == Owners(owned, flags)
    ensures !(rid in owned || Flagged(flags, rid)) ==>
      Owners(owned, flags[rid := f]) == Owners(owned, flags) + {rid} && rid !in Owners(owned, flags)
  {
  }
}
