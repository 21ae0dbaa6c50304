/**
 What may happen to a mailbox while it is being flushed (server/server.js, flush): facts
 about a history that grows by the calls that run while a page drains and by the receipts
 that the flush itself sent.
 */
module FlushOrder {
  import opened Options
  import opened Mailbox
  import opened EntryKeys
  import opened RelayState

  /** A call that runs while a page drains. */
  datatype Call =
    | Acknowledge(recipient: string, from: Option<string>, id: string, now: int, senderOnline: bool)
    | Send(from: Option<string>, to: string, id: string, size: nat, stamp: Stamp, now: int, ipOver: bool, online: bool)
    | Sweep(now: int)

  /** One wait: the calls that run, and whether the socket came through. */
  datatype Gap = Gap(calls: seq<Call>, drained: bool)

  /** The clock readings of calls. */
  function Times(calls: seq<Call>): seq<int> {
    if calls == [] then [] else Times(calls[..|calls| - 1]) + [calls[|calls| - 1].now]
  }

  function Readings(gaps: seq<Gap>): seq<int> {
    if gaps == [] then [] else Readings(gaps[..|gaps| - 1]) + Times(gaps[|gaps| - 1].calls)
  }

  lemma TimesNext(calls: seq<Call>, i: nat)
    requires i < |calls|
    ensures Times(calls[..i + 1]) == Times(calls[..i]) + [calls[i].now]
  {
    assert calls[..i + 1][..i] == calls[..i];
  }

  lemma ReadingsNext(times: seq<int>, gaps: seq<Gap>, i: nat)
    requires i < |gaps|
    ensures times + Readings(gaps[..i + 1]) == times + Readings(gaps[..i]) + Times(gaps[i].calls)
  {
    assert gaps[..i + 1][..i] == gaps[..i];
  }

  // --- The history ---------------------------------------------------------------

  /** What a call may do to the history: take what it acknowledges and leave a receipt of it, add what it sends, expire what is old. */
  ghost predicate Did(call: Call, events: seq<Event>, cfg: Config) {
    match call
    case Acknowledge(recipient, from, id, _, senderOnline) =>
      events == [] ||
      (events[0].Taken? && events[0].rid == recipient && events[0].why == Acknowledged(id, from) &&
       (|events| == 1 || (|events| == 2 && from.Some? && !senderOnline && events[1].Added? && events[1].rid == from.value &&
                          events[1].entry.kind == Receipt && events[1].entry.id == id && events[1].entry.from == Some(recipient))))
    case Send(from, to, id, size, _, now, _, _) =>
      events == [] ||
      (|events| == 1 && events[0].Added? && events[0].rid == to && Named(events[0].entry, id, from) &&
       events[0].entry.size == size && events[0].entry.ts == now)
    case Sweep(now) => forall i :: 0 <= i < |events| ==> events[i].Expired? && events[i].cutoff == now - cfg.queueTtlMs
  }

  /** What a call answered, and what it did to the history. */
  datatype Answer = AckAnswer(ok: bool) | SendAnswer(result: SendResult) | NoAnswer

  datatype Part = Part(events: seq<Event>, answer: Answer)

  /**
   What a call must have done, the history before it being this: an acknowledgement that finds nothing leaves
   nothing it names; a send is answered as queued exactly if it adds its envelope, or the mailbox
   held one under its key; and after a sweep nothing is left that is past the age.
   */
  ghost predicate Heeded(before: seq<Event>, call: Call, part: Part, cfg: Config) {
    match call
    case Acknowledge(recipient, from, id, _, _) =>
      part.answer == AckAnswer(part.events != []) &&
      (part.events == [] ==> forall e :: e in In(Replay(before), recipient) ==> !Named(e, id, from))
    case Send(from, to, id, _, _, _, _, _) =>
      part.answer.SendAnswer? && (part.events != [] ==> part.answer.result.Queued?) &&
      (part.answer.result.Queued? && part.events == [] ==> from.Some? && HeldUnder(In(Replay(before), to), EnvelopeKey(id, from)))
    case Sweep(now) =>
      part.answer.NoAnswer? && forall rid, e :: e in In(Replay(before + part.events), rid) ==> e.ts >= now - cfg.queueTtlMs
  }

  function EnvelopeKey(id: string, from: Option<string>): string {
    EntryKey(Entry(0, Msg, id, from, 0, 0, None, ""))
  }

  ghost predicate HeldUnder(entries: seq<Entry>, key: string) {
    exists e :: e in entries && e.key == key
  }

  /** Each of the calls did its part. */
  ghost predicate AllDid(calls: seq<Call>, parts: seq<Part>, cfg: Config) {
    |parts| == |calls| && forall j :: 0 <= j < |calls| ==> Did(calls[j], parts[j].events, cfg)
  }

  ghost function Joined(parts: seq<Part>): seq<Event> {
    if parts == [] then [] else Joined(parts[..|parts| - 1]) + parts[|parts| - 1].events
  }

  lemma JoinedNext(before: seq<Event>, parts: seq<Part>, more: Part)
    ensures before + Joined(parts + [more]) == before + Joined(parts) + more.events
  {
    assert (parts + [more])[..|parts|] == parts;
  }

  lemma DidNext(calls: seq<Call>, i: nat, parts: seq<Part>, more: Part, cfg: Config)
    requires i < |calls| && AllDid(calls[..i], parts, cfg) && Did(calls[i], more.events, cfg)
    ensures AllDid(calls[..i + 1], parts + [more], cfg)
  {
    hide Did;
    assert forall j :: 0 <= j < i ==> calls[..i][j] == calls[..i + 1][j];
  }

  /** Each of them heeded what was held when it ran. */
  ghost predicate AllHeeded(before: seq<Event>, calls: seq<Call>, parts: seq<Part>, cfg: Config) {
    |parts| == |calls| && forall j :: 0 <= j < |calls| ==> Heeded(before + Joined(parts[..j]), calls[j], parts[j], cfg)
  }

  lemma HeededNext(before: seq<Event>, calls: seq<Call>, i: nat, parts: seq<Part>, more: Part, cfg: Config)
    requires i < |calls| && AllHeeded(before, calls[..i], parts, cfg) && Heeded(before + Joined(parts), calls[i], more, cfg)
    ensures AllHeeded(before, calls[..i + 1], parts + [more], cfg)
  {
    hide Heeded, Joined;
    forall j | 0 <= j < i + 1
      ensures Heeded(before + Joined((parts + [more])[..j]), calls[..i + 1][j], (parts + [more])[j], cfg)
    {
      if j < i {
        assert (parts + [more])[..j] == parts[..j] && calls[..i + 1][j] == calls[..i][j] && (parts + [more])[j] == parts[j];
      } else {
        assert (parts + [more])[..j] == parts;
      }
    }
  }

  lemma HeededNothing(before: seq<Event>, calls: seq<Call>, cfg: Config)
    ensures AllHeeded(before, calls[..0], [], cfg)
  {
  }

  lemma DidNothing(calls: seq<Call>, before: seq<Event>, cfg: Config)
    ensures AllDid(calls[..0], [], cfg) && before + Joined([]) == before
  {
  }

  /** Newer entries come, and nothing is framed or taken as sent. */
  ghost predicate Newer(ev: Event, num0: nat) {
    match ev
    case Added(_, e) => e.num > num0
    case Taken(_, _, why) => why != Sent
    case Expired(_, _) => true
    case Framed(_, _) => false
  }

  ghost predicate AllNewer(more: seq<Event>, num0: nat) {
    forall i :: 0 <= i < |more| ==> Newer(more[i], num0)
  }

  ghost predicate OrdinaryEvent(ev: Event, num0: nat, rid: string, sent: seq<Entry>) {
    Newer(ev, num0) ||
    (ev.Taken? && ev.why == Sent && ev.rid == rid && ev.entry in sent && ev.entry.kind == Receipt) ||
    (ev.Framed? && ev.rid == rid && ev.entry in sent)
  }

  /** Since `from` the calls that ran did what they do, and only sent receipts went as sent. */
  ghost predicate Ordinary(history: seq<Event>, from: nat, num0: nat, rid: string, sent: seq<Entry>) {
    from <= |history| && forall i :: from <= i < |history| ==> OrdinaryEvent(history[i], num0, rid, sent)
  }

  lemma OrdinaryMore(history: seq<Event>, more: seq<Event>, from: nat, num0: nat, rid: string, sent: seq<Entry>, sent': seq<Entry>)
    requires Ordinary(history, from, num0, rid, sent) && sent <= sent'
    requires forall i :: 0 <= i < |more| ==> OrdinaryEvent(more[i], num0, rid, sent')
    ensures Ordinary(history + more, from, num0, rid, sent')
  {
    forall i | from <= i < |history + more|
      ensures OrdinaryEvent((history + more)[i], num0, rid, sent')
    {
      if i < |history| {
        assert OrdinaryEvent(history[i], num0, rid, sent);
      } else {
        assert (history + more)[i] == more[i - |history|];
      }
    }
  }

  lemma StepOnly(c: Contents, ev: Event, rid: string, x: Entry)
    requires x in In(Apply(c, ev), rid)
    ensures x in In(c, rid) || (ev.Added? && ev.entry == x)
  {
    match ev
    case Added(r, e) =>
    case Taken(r, e, _) =>
      if r == rid {
        MinusOnly(In(c, r), e, x);
      }
    case Expired(r, cutoff) =>
      if r == rid {
        KeptIn(In(c, r), cutoff, x);
      }
    case Framed(_, _) =>
  }

  lemma {:induction false} MinusOnly(entries: seq<Entry>, e: Entry, x: Entry)
    requires x in Minus(entries, e)
    ensures x in entries
  {
    if entries[0] != e && entries[0] != x {
      MinusOnly(entries[1..], e, x);
    }
  }

  /** Of a mailbox in order, an entry that is taken out is gone. */
  lemma {:induction false} MinusGone(entries: seq<Entry>, e: Entry, num: int)
    requires Numbered(entries, num)
    ensures e !in Minus(entries, e)
  {
    if entries != [] {
      MinusGone(entries[1..], e, num);
    }
  }

  /** What is held now was held at `from`, or is newer. */
  lemma {:induction false} HeldOrNewer(history: seq<Event>, from: nat, num0: nat, rid: string, sent: seq<Entry>, x: Entry)
    requires Ordinary(history, from, num0, rid, sent) && x in In(Replay(history), rid)
    ensures x in In(Replay(history[..from]), rid) || x.num > num0
    decreases |history|
  {
    assert history[..|history|] == history;
    if from < |history| {
      var n := |history| - 1;
      var init := history[..n];
      assert init[..from] == history[..from];
      assert OrdinaryEvent(history[n], num0, rid, sent);
      StepOnly(Replay(init), history[n], rid, x);
      if x in In(Replay(init), rid) {
        HeldOrNewer(init, from, num0, rid, sent, x);
      }
    }
  }

  /** An older entry that is gone stays gone. */
  lemma {:induction false} GoneStays(history: seq<Event>, more: seq<Event>, num0: nat, rid: string, x: Entry)
    requires AllNewer(more, num0) && x.num <= num0 && x !in In(Replay(history), rid)
    ensures x !in In(Replay(history + more), rid)
    decreases |more|
  {
    hide In, Apply;
    if more == [] {
      assert history + more == history;
    } else {
      var n := |more| - 1;
      var all := history + more;
      GoneStays(history, more[..n], num0, rid, x);
      assert all[..|all| - 1] == history + more[..n] && all[|all| - 1] == more[n];
      if x in In(Replay(all), rid) {
        StepOnly(Replay(history + more[..n]), more[n], rid, x);
        assert false;
      }
    }
  }

  // --- The walk over the snapshot ---------------------------------------------------

  ghost predicate HeldAt(history: seq<Event>, rid: string, turn: nat, e: Entry) {
    turn <= |history| && e in In(Replay(history[..turn]), rid)
  }

  /** The entries that were held when their turn came, in order. */
  ghost function Walked(history: seq<Event>, rid: string, entries: seq<Entry>, turns: seq<nat>): seq<Entry>
    requires |turns| == |entries|
  {
    if entries == [] then []
    else
      var n := |entries| - 1;
      Walked(history, rid, entries[..n], turns[..n]) + (if HeldAt(history, rid, turns[n], entries[n]) then [entries[n]] else [])
  }

  /** What was held at its turn was framed then, and nothing else. */
  ghost predicate FramedAt(history: seq<Event>, rid: string, turn: nat, e: Entry) {
    HeldAt(history, rid, turn, e) ==> turn < |history| && history[turn] == Framed(rid, e)
  }

  /**
   The first k entries have had their turns, one after another since `from`; what was sent is
   exactly what was held then, and its frame is what happened then. A turn is a place in the
   history.
   */
  ghost predicate Walk(history: seq<Event>, from: nat, rid: string, entries: seq<Entry>, k: nat, turns: seq<nat>, sent: seq<Entry>) {
    k <= |entries| && |turns| == k &&
    (forall i :: 0 <= i < k ==> from <= turns[i] <= |history| && FramedAt(history, rid, turns[i], entries[i])) &&
    (forall i, j :: 0 <= i < j < k ==> turns[i] <= turns[j]) &&
    sent == Walked(history, rid, entries[..k], turns)
  }

  lemma {:induction false} WalkedLater(history: seq<Event>, more: seq<Event>, rid: string, entries: seq<Entry>, turns: seq<nat>)
    requires |turns| == |entries| && forall i :: 0 <= i < |turns| ==> turns[i] <= |history|
    ensures Walked(history + more, rid, entries, turns) == Walked(history, rid, entries, turns)
  {
    if entries != [] {
      var n := |entries| - 1;
      WalkedLater(history, more, rid, entries[..n], turns[..n]);
      assert (history + more)[..turns[n]] == history[..turns[n]];
    }
  }

  lemma WalkLater(history: seq<Event>, more: seq<Event>, from: nat, rid: string, entries: seq<Entry>, k: nat, turns: seq<nat>, sent: seq<Entry>)
    requires Walk(history, from, rid, entries, k, turns, sent)
    ensures Walk(history + more, from, rid, entries, k, turns, sent)
  {
    hide FramedAt;
    WalkedLater(history, more, rid, entries[..k], turns);
    forall i | 0 <= i < k
      ensures FramedAt(history + more, rid, turns[i], entries[i])
    {
      StillFramed(history, more, rid, turns[i], entries[i]);
    }
  }

  lemma StillFramed(history: seq<Event>, more: seq<Event>, rid: string, turn: nat, e: Entry)
    requires turn <= |history| && FramedAt(history, rid, turn, e)
    ensures FramedAt(history + more, rid, turn, e)
    ensures HeldAt(history + more, rid, turn, e) <==> HeldAt(history, rid, turn, e)
  {
    assert (history + more)[..turn] == history[..turn];
  }

  lemma HeldNow(history: seq<Event>, rid: string, e: Entry)
    ensures HeldAt(history, rid, |history|, e) <==> e in In(Replay(history), rid)
  {
    assert history[..|history|] == history;
  }

  lemma WalkedNext(history: seq<Event>, rid: string, entries: seq<Entry>, k: nat, turns: seq<nat>, turn: nat)
    requires |turns| == k < |entries|
    ensures Walked(history, rid, entries[..k + 1], turns + [turn]) ==
      Walked(history, rid, entries[..k], turns) + (if HeldAt(history, rid, turn, entries[k]) then [entries[k]] else [])
  {
    hide HeldAt;
    assert entries[..k + 1][..k] == entries[..k] && (turns + [turn])[..k] == turns;
  }

  /** A turn more. */
  lemma WalkTurn(history: seq<Event>, from: nat, rid: string, entries: seq<Entry>, k: nat, turns: seq<nat>, sent: seq<Entry>, turn: nat)
    requires Walk(history, from, rid, entries, k, turns, sent) && k < |entries| && from <= turn <= |history|
    requires forall i :: 0 <= i < k ==> turns[i] <= turn
    requires FramedAt(history, rid, turn, entries[k])
    ensures Walk(history, from, rid, entries, k + 1, turns + [turn],
                 if HeldAt(history, rid, turn, entries[k]) then sent + [entries[k]] else sent)
  {
    hide HeldAt, FramedAt, Walked;
    WalkedNext(history, rid, entries, k, turns, turn);
    var ts := turns + [turn];
    assert forall i :: 0 <= i < k ==> ts[i] == turns[i];
  }

  /** The entry is framed if it is held, and passed over if not. */
  lemma WalkNext(history: seq<Event>, from: nat, rid: string, entries: seq<Entry>, k: nat, turns: seq<nat>, sent: seq<Entry>)
    requires Walk(history, from, rid, entries, k, turns, sent) && k < |entries| && from <= |history|
    ensures entries[k] in In(Replay(history), rid) ==>
      Walk(history + [Framed(rid, entries[k])], from, rid, entries, k + 1, turns + [|history|], sent + [entries[k]])
    ensures entries[k] !in In(Replay(history), rid) ==> Walk(history, from, rid, entries, k + 1, turns + [|history|], sent)
  {
    hide Replay, In, HeldAt, Walk;
    HeldNow(history, rid, entries[k]);
    WalkTurns(history, from, rid, entries, k, turns, sent);
    if entries[k] in In(Replay(history), rid) {
      var all := history + [Framed(rid, entries[k])];
      StillHeldThen(history, [Framed(rid, entries[k])], rid, entries[k]);
      WalkLater(history, [Framed(rid, entries[k])], from, rid, entries, k, turns, sent);
      assert all[|history|] == Framed(rid, entries[k]);
      WalkTurn(all, from, rid, entries, k, turns, sent, |history|);
    } else {
      WalkTurn(history, from, rid, entries, k, turns, sent, |history|);
    }
  }

  lemma WalkTurns(history: seq<Event>, from: nat, rid: string, entries: seq<Entry>, k: nat, turns: seq<nat>, sent: seq<Entry>)
    requires Walk(history, from, rid, entries, k, turns, sent)
    ensures |turns| == k && forall i :: 0 <= i < k ==> turns[i] <= |history|
  {
  }

  lemma StillHeldThen(history: seq<Event>, more: seq<Event>, rid: string, e: Entry)
    ensures HeldAt(history + more, rid, |history|, e) <==> HeldAt(history, rid, |history|, e)
  {
    assert (history + more)[..|history|] == history[..|history|];
  }

  lemma {:induction false} WalkedIn(history: seq<Event>, rid: string, entries: seq<Entry>, turns: seq<nat>, e: Entry)
    requires |turns| == |entries|
    ensures e in Walked(history, rid, entries, turns) <==>
      exists i :: 0 <= i < |entries| && entries[i] == e && HeldAt(history, rid, turns[i], e)
  {
    hide HeldAt;
    if entries != [] {
      var n := |entries| - 1;
      WalkedIn(history, rid, entries[..n], turns[..n], e);
      forall i | 0 <= i < |entries| && entries[i] == e && HeldAt(history, rid, turns[i], e)
        ensures e in Walked(history, rid, entries, turns)
      {
        assert i < n ==> entries[..n][i] == e && HeldAt(history, rid, turns[..n][i], e);
      }
    }
  }

  lemma {:induction false} WalkedOrder(history: seq<Event>, rid: string, entries: seq<Entry>, turns: seq<nat>, num: int, sent: seq<Entry>)
    requires |turns| == |entries| && Numbered(entries, num) && sent == Walked(history, rid, entries, turns)
    ensures forall i, j :: 0 <= i < j < |sent| ==> sent[i].num < sent[j].num
  {
    hide HeldAt;
    if entries != [] {
      var n := |entries| - 1;
      var before := Walked(history, rid, entries[..n], turns[..n]);
      WalkedOrder(history, rid, entries[..n], turns[..n], num, before);
      forall i | 0 <= i < |before|
        ensures before[i].num < entries[n].num
      {
        WalkedIn(history, rid, entries[..n], turns[..n], before[i]);
      }
    }
  }

  /** What was sent comes from the first k entries, each at most once, in their order, and was held at its turn. */
  lemma WalkOrder(history: seq<Event>, from: nat, rid: string, entries: seq<Entry>, k: nat, turns: seq<nat>, sent: seq<Entry>, num: int)
    requires Walk(history, from, rid, entries, k, turns, sent) && Numbered(entries, num)
    ensures forall e :: e in sent ==> e in entries[..k] && e.num <= num
    ensures forall i, j :: 0 <= i < j < |sent| ==> sent[i].num < sent[j].num
    ensures forall i :: 0 <= i < k ==> (entries[i] in sent <==> HeldAt(history, rid, turns[i], entries[i]))
  {
    hide HeldAt, Walked;
    WalkedOrder(history, rid, entries[..k], turns, num, sent);
    forall e | e in sent
      ensures e in entries[..k]
    {
      WalkedIn(history, rid, entries[..k], turns, e);
    }
    forall i | 0 <= i < k
      ensures entries[i] in sent <==> HeldAt(history, rid, turns[i], entries[i])
    {
      WalkedIn(history, rid, entries[..k], turns, entries[i]);
      assert entries[..k][i] == entries[i];
    }
  }

  /** An entry of the snapshot that had its turn and was not sent had left before: acknowledged, or past the age. */
  lemma PassedOver(history: seq<Event>, cfg: Config, clock: int, from: nat, rid: string, k: nat, turns: seq<nat>, sent: seq<Entry>,
                   i: nat, num: int)
    requires AllDue(history, cfg, clock) && from <= |history| && Numbered(In(Replay(history[..from]), rid), num)
    requires Walk(history, from, rid, In(Replay(history[..from]), rid), k, turns, sent)
    requires i < k && In(Replay(history[..from]), rid)[i] !in sent
    ensures exists j :: from <= j < turns[i] && LeftBy(history[j], rid, In(Replay(history[..from]), rid)[i], cfg, clock)
  {
    hide LeftBy, Due, Replay, In;
    var entries := In(Replay(history[..from]), rid);
    WalkOrder(history, from, rid, entries, k, turns, sent, num);
    var was := history[..turns[i]];
    DueBefore(history, cfg, clock, turns[i]);
    assert was[..from] == history[..from];
    Retained(was, cfg, clock, from, rid, entries[i]);
    var j :| from <= j < |was| && LeftBy(was[j], rid, entries[i], cfg, clock);
    assert was[j] == history[j];
  }

  // --- The state of a flush ----------------------------------------------------------

  /** The receipts that were sent are no longer held. */
  ghost predicate ReceiptsGone(history: seq<Event>, rid: string, sent: seq<Entry>) {
    forall e :: e in sent && e.kind == Receipt ==> e !in In(Replay(history), rid)
  }

  /** A flush that has come to entry k of what was held at `from`. */
  ghost predicate Flushing(history: seq<Event>, from: nat, num0: nat, rid: string, k: nat, turns: seq<nat>, sent: seq<Entry>) {
    Ordinary(history, from, num0, rid, sent) && Numbered(In(Replay(history[..from]), rid), num0) &&
    Walk(history, from, rid, In(Replay(history[..from]), rid), k, turns, sent) && ReceiptsGone(history, rid, sent)
  }

  lemma FlushStart(history: seq<Event>, num0: nat, rid: string)
    requires Numbered(In(Replay(history), rid), num0)
    ensures Flushing(history, |history|, num0, rid, 0, [], [])
  {
    assert history[..|history|] == history;
  }

  /** Other calls ran. */
  lemma FlushMore(history: seq<Event>, more: seq<Event>, from: nat, num0: nat, rid: string, k: nat, turns: seq<nat>, sent: seq<Entry>)
    requires Flushing(history, from, num0, rid, k, turns, sent) && AllNewer(more, num0)
    ensures Flushing(history + more, from, num0, rid, k, turns, sent)
  {
    hide Walk, Numbered, Replay, In, Newer;
    assert (history + more)[..from] == history[..from];
    var entries := In(Replay(history[..from]), rid);
    OrdinaryMore(history, more, from, num0, rid, sent, sent);
    WalkLater(history, more, from, rid, entries, k, turns, sent);
    WalkOrder(history, from, rid, entries, k, turns, sent, num0);
    forall e | e in sent && e.kind == Receipt
      ensures e !in In(Replay(history + more), rid)
    {
      GoneStays(history, more, num0, rid, e);
    }
  }

  /** The entry is not held: it is passed over. */
  lemma FlushSkip(history: seq<Event>, from: nat, num0: nat, rid: string, k: nat, turns: seq<nat>, sent: seq<Entry>)
    requires Flushing(history, from, num0, rid, k, turns, sent) && k < |In(Replay(history[..from]), rid)|
    requires In(Replay(history[..from]), rid)[k] !in In(Replay(history), rid)
    ensures Flushing(history, from, num0, rid, k + 1, turns + [|history|], sent)
  {
    hide Walk, Numbered, Replay, In, OrdinaryEvent;
    WalkNext(history, from, rid, In(Replay(history[..from]), rid), k, turns, sent);
  }

  /** An envelope is sent; it stays until it is acknowledged. */
  lemma FlushMessage(history: seq<Event>, from: nat, num0: nat, rid: string, k: nat, turns: seq<nat>, sent: seq<Entry>, e: Entry)
    requires from <= |history| && Flushing(history, from, num0, rid, k, turns, sent) && k < |In(Replay(history[..from]), rid)|
    requires e == In(Replay(history[..from]), rid)[k] && e in In(Replay(history), rid) && e.kind == Msg
    ensures Flushing(history + OneFrame(rid, e), from, num0, rid, k + 1, turns + [|history|], sent + [e])
    ensures In(Replay(history + OneFrame(rid, e)), rid) == In(Replay(history), rid)
  {
    hide Walk, Numbered, Replay, In, OrdinaryEvent, ReceiptsGone;
    var framed := Framed(rid, e);
    OneFrameIs(rid, e);
    assert (history + [framed])[..from] == history[..from];
    FrameEvent(rid, sent, e, num0);
    WalkNext(history, from, rid, In(Replay(history[..from]), rid), k, turns, sent);
    OrdinaryMore(history, [framed], from, num0, rid, sent, sent + [e]);
    FrameKeeps(history, rid, sent, e);
  }

  /** A receipt is sent and dropped. */
  lemma FlushReceipt(history: seq<Event>, from: nat, num0: nat, rid: string, k: nat, turns: seq<nat>, sent: seq<Entry>, e: Entry, num: int)
    requires from <= |history| && Flushing(history, from, num0, rid, k, turns, sent) && k < |In(Replay(history[..from]), rid)|
    requires e == In(Replay(history[..from]), rid)[k] && e in In(Replay(history), rid) && e.kind == Receipt
    requires Numbered(In(Replay(history), rid), num)
    ensures Flushing(history + OneFrame(rid, e), from, num0, rid, k + 1, turns + [|history|], sent + [e])
  {
    hide Walk, Numbered, Replay, In, OrdinaryEvent, ReceiptsGone;
    var entries := In(Replay(history[..from]), rid);
    var framed, taken := Framed(rid, e), Taken(rid, e, Sent);
    OneFrameIs(rid, e);
    assert history + [framed] + [taken] == history + [framed, taken];
    assert (history + [framed, taken])[..from] == history[..from];
    FrameEvent(rid, sent, e, num0);
    SentEvent(rid, sent, e, num0);
    WalkNext(history, from, rid, entries, k, turns, sent);
    WalkLater(history + [framed], [taken], from, rid, entries, k + 1, turns + [|history|], sent + [e]);
    OrdinaryMore(history, [framed, taken], from, num0, rid, sent, sent + [e]);
    FrameNothing(history, rid, e);
    ReceiptGone(history, rid, sent, e, num);
  }

  lemma SentEvent(rid: string, sent: seq<Entry>, e: Entry, num0: nat)
    requires e.kind == Receipt
    ensures OrdinaryEvent(Taken(rid, e, Sent), num0, rid, sent + [e])
  {
  }

  lemma FrameEvent(rid: string, sent: seq<Entry>, e: Entry, num0: nat)
    ensures OrdinaryEvent(Framed(rid, e), num0, rid, sent + [e])
  {
  }

  lemma FrameNothing(history: seq<Event>, rid: string, e: Entry)
    ensures Replay(history + [Framed(rid, e)]) == Replay(history)
  {
    ReplayNext(history, Framed(rid, e));
  }

  lemma FrameKeeps(history: seq<Event>, rid: string, sent: seq<Entry>, e: Entry)
    requires ReceiptsGone(history, rid, sent) && e.kind == Msg
    ensures ReceiptsGone(history + [Framed(rid, e)], rid, sent + [e])
    ensures Replay(history + [Framed(rid, e)]) == Replay(history)
  {
    hide Replay;
    FrameNothing(history, rid, e);
  }

  lemma ReceiptGone(history: seq<Event>, rid: string, sent: seq<Entry>, e: Entry, num: int)
    requires ReceiptsGone(history, rid, sent) && Numbered(In(Replay(history), rid), num)
    ensures ReceiptsGone(history + [Framed(rid, e), Taken(rid, e, Sent)], rid, sent + [e])
  {
    hide Numbered, Replay;
    var taken := Taken(rid, e, Sent);
    FrameNothing(history, rid, e);
    ReplayNext(history + [Framed(rid, e)], taken);
    assert history + [Framed(rid, e)] + [taken] == history + [Framed(rid, e), taken];
    MinusGone(In(Replay(history), rid), e, num);
    forall x | x in In(Replay(history + [Framed(rid, e), taken]), rid)
      ensures x in In(Replay(history), rid) && x != e
    {
      StepOnly(Replay(history), taken, rid, x);
    }
  }

  /** What was sent: those of what was held at `from` that were still held at their turn, once each and in order, and no receipt of them is held. */
  lemma FlushedIs(history: seq<Event>, from: nat, num0: nat, rid: string, k: nat, turns: seq<nat>, sent: seq<Entry>)
    requires Flushing(history, from, num0, rid, k, turns, sent) && from <= |history|
    ensures var entries := In(Replay(history[..from]), rid);
      k <= |entries| && |turns| == k &&
      (forall i :: 0 <= i < k ==> from <= turns[i] <= |history|) && (forall i, j :: 0 <= i < j < k ==> turns[i] <= turns[j]) &&
      (forall i :: 0 <= i < k ==> (entries[i] in sent <==> entries[i] in In(Replay(history[..turns[i]]), rid))) &&
      (forall i :: 0 <= i < k && entries[i] in sent ==> turns[i] < |history| && history[turns[i]] == Framed(rid, entries[i])) &&
      (forall e :: e in sent ==> e in entries[..k])
    ensures forall i, j :: 0 <= i < j < |sent| ==> sent[i].num < sent[j].num
    ensures forall e :: e in sent && e.kind == Receipt ==> e !in In(Replay(history), rid)
  {
    hide Ordinary, Walked, Numbered, Replay, In;
    var entries := In(Replay(history[..from]), rid);
    WalkOrder(history, from, rid, entries, k, turns, sent, num0);
  }

  // --- What a flush adds to the history ------------------------------------------------

  /** A frame, and the drop of a receipt right after its own. */
  ghost function OneFrame(rid: string, e: Entry): seq<Event> {
    if e.kind == Receipt then [Framed(rid, e), Taken(rid, e, Sent)] else [Framed(rid, e)]
  }

  lemma OneFrameIs(rid: string, e: Entry)
    ensures OneFrame(rid, e) == if e.kind == Receipt then [Framed(rid, e), Taken(rid, e, Sent)] else [Framed(rid, e)]
  {
  }

  ghost function OwnEvents(rid: string, sent: seq<Entry>): seq<Event> {
    if sent == [] then [] else OwnEvents(rid, sent[..|sent| - 1]) + OneFrame(rid, sent[|sent| - 1])
  }

  ghost function FirstOf(sent: seq<Entry>, n: nat): seq<Entry> {
    if n <= |sent| then sent[..n] else sent
  }

  ghost function RestOf(sent: seq<Entry>, n: nat): seq<Entry> {
    if n <= |sent| then sent[n..] else []
  }

  /** The pages' frames with what the calls of each wait did between them. */
  ghost function Woven(rid: string, sent: seq<Entry>, pages: seq<nat>, ran: seq<seq<Part>>): seq<Event>
    requires |ran| == |pages|
    decreases |pages|
  {
    if pages == [] then OwnEvents(rid, sent)
    else
      var n := |pages| - 1;
      Woven(rid, FirstOf(sent, pages[n]), pages[..n], ran[..n]) + Joined(ran[n]) + OwnEvents(rid, RestOf(sent, pages[n]))
  }

  lemma OwnNext(rid: string, sent: seq<Entry>, e: Entry)
    ensures OwnEvents(rid, sent + [e]) == OwnEvents(rid, sent) + OneFrame(rid, e)
  {
    hide OneFrame;
    assert (sent + [e])[..|sent|] == sent;
  }

  lemma Grouped(a: seq<Event>, b: seq<Event>, c: seq<Event>)
    ensures a + b + c == a + (b + c)
  {
  }

  lemma WovenIs(rid: string, sent: seq<Entry>, pages: seq<nat>, ran: seq<seq<Part>>, last: nat)
    requires |ran| == |pages| > 0 && pages[|pages| - 1] == last <= |sent|
    ensures var n := |pages| - 1;
      Woven(rid, sent, pages, ran) == Woven(rid, sent[..last], pages[..n], ran[..n]) + Joined(ran[n]) + OwnEvents(rid, sent[last..])
  {
    hide Joined, OwnEvents;
  }

  lemma WovenSend(rid: string, sent: seq<Entry>, pages: seq<nat>, ran: seq<seq<Part>>, e: Entry)
    requires |ran| == |pages| && (pages != [] ==> pages[|pages| - 1] <= |sent|)
    ensures Woven(rid, sent + [e], pages, ran) == Woven(rid, sent, pages, ran) + OneFrame(rid, e)
  {
    hide OneFrame, OwnEvents, Joined, Woven;
    if pages == [] {
      WovenNone(rid, sent);
      WovenNone(rid, sent + [e]);
      OwnNext(rid, sent, e);
    } else {
      var n := |pages| - 1;
      var last := pages[n];
      OwnNext(rid, sent[last..], e);
      SentMore(sent, last, e);
      WovenIs(rid, sent, pages, ran, last);
      WovenIs(rid, sent + [e], pages, ran, last);
      Grouped(Woven(rid, sent[..last], pages[..n], ran[..n]) + Joined(ran[n]), OwnEvents(rid, sent[last..]), OneFrame(rid, e));
    }
  }

  lemma SentMore(sent: seq<Entry>, last: nat, e: Entry)
    requires last <= |sent|
    ensures (sent + [e])[..last] == sent[..last] && (sent + [e])[last..] == sent[last..] + [e]
  {
  }

  lemma WovenNone(rid: string, sent: seq<Entry>)
    ensures Woven(rid, sent, [], []) == OwnEvents(rid, sent)
  {
  }

  lemma WovenWait(rid: string, sent: seq<Entry>, pages: seq<nat>, ran: seq<seq<Part>>, parts: seq<Part>)
    requires |ran| == |pages|
    ensures Woven(rid, sent, pages + [|sent|], ran + [parts]) == Woven(rid, sent, pages, ran) + Joined(parts)
  {
    hide Joined;
    var n := |pages|;
    assert (pages + [|sent|])[..n] == pages && (ran + [parts])[..n] == ran && sent[..|sent|] == sent;
    assert OwnEvents(rid, sent[|sent|..]) == [];
  }

  /** In each wait, the calls heeded what was held when they ran. */
  ghost predicate WovenHeeded(start: seq<Event>, rid: string, sent: seq<Entry>, pages: seq<nat>, gaps: seq<Gap>,
                              ran: seq<seq<Part>>, cfg: Config)
    requires |ran| == |pages| <= |gaps|
    decreases |pages|
  {
    pages != [] ==>
      var n := |pages| - 1;
      var so := FirstOf(sent, pages[n]);
      WovenHeeded(start, rid, so, pages[..n], gaps, ran[..n], cfg) &&
      AllHeeded(start + Woven(rid, so, pages[..n], ran[..n]), gaps[n].calls, ran[n], cfg)
  }

  lemma HeededSend(start: seq<Event>, rid: string, sent: seq<Entry>, pages: seq<nat>, gaps: seq<Gap>, ran: seq<seq<Part>>,
                   cfg: Config, e: Entry)
    requires |ran| == |pages| <= |gaps| && (pages != [] ==> pages[|pages| - 1] <= |sent|)
    requires WovenHeeded(start, rid, sent, pages, gaps, ran, cfg)
    ensures WovenHeeded(start, rid, sent + [e], pages, gaps, ran, cfg)
  {
    hide Woven, AllHeeded;
    if pages != [] {
      assert FirstOf(sent + [e], pages[|pages| - 1]) == FirstOf(sent, pages[|pages| - 1]);
    }
  }

  lemma HeededWait(start: seq<Event>, rid: string, sent: seq<Entry>, pages: seq<nat>, gaps: seq<Gap>, ran: seq<seq<Part>>,
                   cfg: Config, parts: seq<Part>)
    requires |ran| == |pages| < |gaps| && WovenHeeded(start, rid, sent, pages, gaps, ran, cfg)
    requires AllHeeded(start + Woven(rid, sent, pages, ran), gaps[|pages|].calls, parts, cfg)
    ensures WovenHeeded(start, rid, sent, pages + [|sent|], gaps, ran + [parts], cfg)
  {
    hide Woven, AllHeeded;
    var n := |pages|;
    assert (pages + [|sent|])[..n] == pages && (ran + [parts])[..n] == ran && FirstOf(sent, |sent|) == sent;
  }

  /** What happened since `start`, and the calls that did it. */
  ghost predicate WovenSince(history: seq<Event>, start: seq<Event>, rid: string, sent: seq<Entry>, pages: seq<nat>,
                             gaps: seq<Gap>, ran: seq<seq<Part>>, cfg: Config) {
    |ran| == |pages| <= |gaps| && history == start + Woven(rid, sent, pages, ran) &&
    WovenHeeded(start, rid, sent, pages, gaps, ran, cfg) &&
    forall i :: 0 <= i < |ran| ==> AllDid(gaps[i].calls, ran[i], cfg)
  }

  lemma SinceStart(start: seq<Event>, rid: string, gaps: seq<Gap>, cfg: Config)
    ensures WovenSince(start, start, rid, [], [], gaps, [], cfg)
  {
    assert start + [] == start;
  }

  lemma SinceSend(history: seq<Event>, start: seq<Event>, rid: string, sent: seq<Entry>, pages: seq<nat>,
                  gaps: seq<Gap>, ran: seq<seq<Part>>, cfg: Config, e: Entry)
    requires WovenSince(history, start, rid, sent, pages, gaps, ran, cfg) && (pages != [] ==> pages[|pages| - 1] <= |sent|)
    ensures WovenSince(history + OneFrame(rid, e), start, rid, sent + [e], pages, gaps, ran, cfg)
  {
    hide Woven, OneFrame, AllDid, WovenHeeded;
    WovenSend(rid, sent, pages, ran, e);
    HeededSend(start, rid, sent, pages, gaps, ran, cfg, e);
    assert start + Woven(rid, sent, pages, ran) + OneFrame(rid, e) == start + (Woven(rid, sent, pages, ran) + OneFrame(rid, e));
  }

  lemma SinceWait(history: seq<Event>, start: seq<Event>, rid: string, sent: seq<Entry>, pages: seq<nat>,
                  gaps: seq<Gap>, ran: seq<seq<Part>>, cfg: Config, parts: seq<Part>)
    requires WovenSince(history, start, rid, sent, pages, gaps, ran, cfg)
    requires |pages| < |gaps| && AllDid(gaps[|pages|].calls, parts, cfg) && AllHeeded(history, gaps[|pages|].calls, parts, cfg)
    ensures WovenSince(history + Joined(parts), start, rid, sent, pages + [|sent|], gaps, ran + [parts], cfg)
  {
    hide Woven, Joined, AllDid, AllHeeded, WovenHeeded;
    WovenWait(rid, sent, pages, ran, parts);
    HeededWait(start, rid, sent, pages, gaps, ran, cfg, parts);
    assert start + Woven(rid, sent, pages, ran) + Joined(parts) == start + (Woven(rid, sent, pages, ran) + Joined(parts));
  }

  // --- What it means ----------------------------------------------------------------------

  lemma {:induction false} JoinedIn(parts: seq<Part>, ev: Event)
    requires ev in Joined(parts)
    ensures exists j :: 0 <= j < |parts| && ev in parts[j].events
  {
    if ev in parts[|parts| - 1].events {
    } else {
      JoinedIn(parts[..|parts| - 1], ev);
      var j :| 0 <= j < |parts| - 1 && ev in parts[..|parts| - 1][j].events;
      assert ev in parts[j].events;
    }
  }

  lemma {:induction false} OwnIn(rid: string, sent: seq<Entry>, ev: Event)
    requires ev in OwnEvents(rid, sent)
    ensures (ev.Framed? || (ev.Taken? && ev.why == Sent && ev.entry.kind == Receipt)) && ev.entry in sent
  {
    if ev !in OneFrame(rid, sent[|sent| - 1]) {
      OwnIn(rid, sent[..|sent| - 1], ev);
    }
  }

  /** Whatever happened was a frame, the drop of a sent receipt, or done by one of the calls. */
  lemma {:induction false} WovenIn(rid: string, sent: seq<Entry>, pages: seq<nat>, ran: seq<seq<Part>>, ev: Event)
    requires |ran| == |pages| && ev in Woven(rid, sent, pages, ran)
    ensures ((ev.Framed? || (ev.Taken? && ev.why == Sent && ev.entry.kind == Receipt)) && ev.entry in sent) ||
            exists i, j :: 0 <= i < |ran| && 0 <= j < |ran[i]| && ev in ran[i][j].events
    decreases |pages|
  {
    hide OwnEvents, Joined;
    if pages == [] {
      OwnIn(rid, sent, ev);
    } else {
      var n := |pages| - 1;
      if ev in OwnEvents(rid, RestOf(sent, pages[n])) {
        OwnIn(rid, RestOf(sent, pages[n]), ev);
      } else if ev in Joined(ran[n]) {
        JoinedIn(ran[n], ev);
        var j :| 0 <= j < |ran[n]| && ev in ran[n][j].events;
      } else {
        WovenIn(rid, FirstOf(sent, pages[n]), pages[..n], ran[..n], ev);
        if exists i, j :: 0 <= i < n && 0 <= j < |ran[..n][i]| && ev in ran[..n][i][j].events {
          var i, j :| 0 <= i < n && 0 <= j < |ran[..n][i]| && ev in ran[..n][i][j].events;
          assert ev in ran[i][j].events;
        }
      }
    }
  }

  /**
   Where a call of a wait stands: what it did is that part of what happened, and it heeded what was
   held then.
   */
  lemma {:induction false} WaitsHeeded(history: seq<Event>, start: seq<Event>, rid: string, sent: seq<Entry>, pages: seq<nat>,
                                       gaps: seq<Gap>, ran: seq<seq<Part>>, cfg: Config, i: nat, j: nat) returns (n: nat)
    requires WovenSince(history, start, rid, sent, pages, gaps, ran, cfg) && i < |pages| && j < |gaps[i].calls|
    ensures |ran[i]| == |gaps[i].calls|
    ensures var part := ran[i][j];
      |start| <= n && n + |part.events| <= |history| && history[n..n + |part.events|] == part.events &&
      Did(gaps[i].calls[j], part.events, cfg) && Heeded(history[..n], gaps[i].calls[j], part, cfg)
    decreases |pages|
  {
    hide Woven, Joined, Did, Heeded, OwnEvents;
    var last := |pages| - 1;
    var so := FirstOf(sent, pages[last]);
    var was := start + Woven(rid, so, pages[..last], ran[..last]);
    var now := was + Joined(ran[last]);
    WovenParts(history, start, rid, sent, pages, gaps, ran, cfg);
    assert AllDid(gaps[i].calls, ran[i], cfg);
    if i == last {
      n := |was + Joined(ran[i][..j])|;
      JoinedPart(was, ran[i], j);
      assert history[..n] == now[..n] == was + Joined(ran[i][..j]);
      assert history[n..n + |ran[i][j].events|] == now[n..n + |ran[i][j].events|];
    } else {
      assert ran[..last][i] == ran[i];
      n := WaitsHeeded(was, start, rid, so, pages[..last], gaps, ran[..last], cfg, i, j);
      assert history[..n] == was[..n];
      assert history[n..n + |ran[i][j].events|] == was[n..n + |ran[i][j].events|];
    }
  }

  lemma WovenParts(history: seq<Event>, start: seq<Event>, rid: string, sent: seq<Entry>, pages: seq<nat>,
                   gaps: seq<Gap>, ran: seq<seq<Part>>, cfg: Config)
    requires WovenSince(history, start, rid, sent, pages, gaps, ran, cfg) && pages != []
    ensures var last := |pages| - 1;
      var so := FirstOf(sent, pages[last]);
      var was := start + Woven(rid, so, pages[..last], ran[..last]);
      WovenSince(was, start, rid, so, pages[..last], gaps, ran[..last], cfg) &&
      AllHeeded(was, gaps[last].calls, ran[last], cfg) && was + Joined(ran[last]) <= history
  {
    hide AllHeeded, AllDid, Joined, OwnEvents;
    var last := |pages| - 1;
    assert forall i :: 0 <= i < last ==> ran[..last][i] == ran[i];
  }

  /** The part of call j in what its wait did. */
  lemma {:induction false} JoinedPart(before: seq<Event>, parts: seq<Part>, j: nat)
    requires j < |parts|
    ensures before + Joined(parts[..j]) + parts[j].events <= before + Joined(parts)
  {
    var last := |parts| - 1;
    if j < last {
      JoinedPart(before, parts[..last], j);
      assert parts[..last][..j] == parts[..j];
    }
  }

  /** What an acknowledgement answers and does. */
  lemma AckIs(before: seq<Event>, call: Call, part: Part, cfg: Config)
    requires call.Acknowledge? && Did(call, part.events, cfg) && Heeded(before, call, part, cfg)
    ensures part.answer.AckAnswer? && (part.answer.ok <==> part.events != []) && |part.events| <= 2
    ensures part.events == [] ==> forall e :: e in In(Replay(before), call.recipient) && e.kind == Msg ==> e.id != call.id || e.from != call.from
    ensures part.events != [] ==>
      var ev := part.events[0];
      ev.Taken? && ev.rid == call.recipient && ev.why == Acknowledged(call.id, call.from)
    ensures |part.events| == 2 ==>
      var ev := part.events[1];
      ev.Added? && Some(ev.rid) == call.from && !call.senderOnline && ev.entry.kind == Receipt && ev.entry.id == call.id &&
      ev.entry.from == Some(call.recipient)
  {
  }

  /** What a send answers and does. */
  lemma SendIs(before: seq<Event>, call: Call, part: Part, cfg: Config)
    requires call.Send? && Did(call, part.events, cfg) && Heeded(before, call, part, cfg)
    ensures part.answer.SendAnswer? && |part.events| <= 1
    ensures part.events != [] ==>
      var ev := part.events[0];
      part.answer.result.Queued? && ev.Added? && ev.rid == call.to && ev.entry.kind == Msg && ev.entry.id == call.id &&
      ev.entry.from == call.from && ev.entry.size == call.size && ev.entry.ts == call.now
    ensures part.answer.result.Queued? && part.events == [] ==>
      call.from.Some? && exists e :: e in In(Replay(before), call.to) && e.key == "m:" + call.id + ":" + call.from.value
  {
    if part.answer.result.Queued? && part.events == [] {
      var e :| e in In(Replay(before), call.to) && e.key == EnvelopeKey(call.id, call.from);
    }
  }

  /** What a sweep does: it expires what is past the age, and nothing past it stays. */
  lemma SweepIs(before: seq<Event>, call: Call, part: Part, cfg: Config)
    requires call.Sweep? && Did(call, part.events, cfg) && Heeded(before, call, part, cfg)
    ensures forall i :: 0 <= i < |part.events| ==> part.events[i].Expired? && part.events[i].cutoff == call.now - cfg.queueTtlMs
    ensures forall rid, e :: e in In(Replay(before + part.events), rid) ==> call.now - e.ts <= cfg.queueTtlMs
  {
  }

  /** A call that takes an entry out: an acknowledgement that names it or is confused about it, or a sweep past its age. */
  ghost predicate TakesOut(call: Call, rid: string, e: Entry, cfg: Config) {
    match call
    case Acknowledge(recipient, from, id, _, _) =>
      recipient == rid && Answers(e, from) && (Named(e, id, from) || Confused(e, id, cfg.idSlots))
    case Send(_, _, _, _, _, _, _, _) => false
    case Sweep(now) => e.ts < now - cfg.queueTtlMs
  }

  /** A flush loses nothing: what it found and is gone was taken out by a call that ran meanwhile, or is a receipt it sent. */
  lemma FlushLosesNothing(history: seq<Event>, start: seq<Event>, rid: string, sent: seq<Entry>, pages: seq<nat>, gaps: seq<Gap>,
                          ran: seq<seq<Part>>, cfg: Config, clock: int, e: Entry)
    requires WovenSince(history, start, rid, sent, pages, gaps, ran, cfg) && AllDue(history, cfg, clock)
    requires e in In(Replay(start), rid) && e !in In(Replay(history), rid)
    ensures (e.kind == Receipt && e in sent) ||
            exists i, j :: 0 <= i < |pages| && 0 <= j < |gaps[i].calls| && TakesOut(gaps[i].calls[j], rid, e, cfg)
  {
    hide Replay, In, Woven, WovenHeeded, AllDid, Did, AllDue, Due, TakesOut;
    var m := TakenSince(history, start, rid, e);
    var ev := history[m];
    assert ev == Woven(rid, sent, pages, ran)[m - |start|];
    WovenIn(rid, sent, pages, ran, ev);
    DueOf(history, cfg, clock, m, rid, e);
    if exists i, j :: 0 <= i < |ran| && 0 <= j < |ran[i]| && ev in ran[i][j].events {
      var i, j :| 0 <= i < |ran| && 0 <= j < |ran[i]| && ev in ran[i][j].events;
      assert AllDid(gaps[i].calls, ran[i], cfg);
      DidOf(gaps[i].calls, ran[i], cfg, j);
      DidTakes(gaps[i].calls[j], ran[i][j].events, cfg, clock, ev, rid, e);
    } else {
      RemovesIs(ev, rid, e);
    }
  }

  lemma TakenSince(history: seq<Event>, start: seq<Event>, rid: string, e: Entry) returns (m: nat)
    requires start <= history && e in In(Replay(start), rid) && e !in In(Replay(history), rid)
    ensures |start| <= m < |history| && Removes(history[m], rid, e)
  {
    assert history[..|start|] == start;
    Removed(history, |start|, rid, e);
    m :| |start| <= m < |history| && Removes(history[m], rid, e);
  }

  lemma RemovesIs(ev: Event, rid: string, e: Entry)
    requires Removes(ev, rid, e)
    ensures !ev.Framed? && (ev.Taken? ==> ev.entry == e)
  {
  }

  lemma DidOf(calls: seq<Call>, parts: seq<Part>, cfg: Config, j: nat)
    requires AllDid(calls, parts, cfg) && j < |parts|
    ensures j < |calls| && Did(calls[j], parts[j].events, cfg)
  {
  }

  lemma DueOf(history: seq<Event>, cfg: Config, clock: int, m: nat, rid: string, e: Entry)
    requires AllDue(history, cfg, clock) && m < |history| && Removes(history[m], rid, e)
    ensures history[m].Taken? ==> KeyOf(e, cfg.idSlots) && MayLeave(e, history[m].why, cfg.idSlots)
  {
    assert Due(history[..m], history[m], cfg, clock);
  }

  lemma DidTakes(call: Call, events: seq<Event>, cfg: Config, clock: int, ev: Event, rid: string, e: Entry)
    requires Did(call, events, cfg) && ev in events && Removes(ev, rid, e)
    requires ev.Taken? ==> KeyOf(e, cfg.idSlots) && MayLeave(e, ev.why, cfg.idSlots)
    ensures TakesOut(call, rid, e, cfg)
  {
    hide KeyOf, CandidateKeys, Confused;
    if ev.Taken? && ev.why.Acknowledged? {
      CandidateExact(e, ev.why.id, cfg.idSlots);
    }
  }

  /** The entries that were framed. */
  ghost function Frames(events: seq<Event>): seq<Entry> {
    if events == [] then []
    else
      var last := events[|events| - 1];
      Frames(events[..|events| - 1]) + (if last.Framed? then [last.entry] else [])
  }

  lemma {:induction false} FramesJoin(a: seq<Event>, b: seq<Event>)
    ensures Frames(a + b) == Frames(a) + Frames(b)
    decreases |b|
  {
    if b == [] {
      assert a + b == a;
    } else {
      var n := |b| - 1;
      FramesJoin(a, b[..n]);
      assert (a + b)[..|a + b| - 1] == a + b[..n];
    }
  }

  lemma {:induction false} NoFrames(events: seq<Event>)
    requires forall i :: 0 <= i < |events| ==> !events[i].Framed?
    ensures Frames(events) == []
  {
    if events != [] {
      NoFrames(events[..|events| - 1]);
    }
  }

  lemma {:induction false} OwnFrames(rid: string, sent: seq<Entry>)
    ensures Frames(OwnEvents(rid, sent)) == sent
  {
    hide Frames, OneFrame;
    if sent == [] {
      NoFrames([]);
    } else {
      var n := |sent| - 1;
      OwnFrames(rid, sent[..n]);
      FramesJoin(OwnEvents(rid, sent[..n]), OneFrame(rid, sent[n]));
      FrameOf(rid, sent[n]);
      assert sent == sent[..n] + [sent[n]];
    }
  }

  lemma FrameOf(rid: string, e: Entry)
    ensures Frames(OneFrame(rid, e)) == [e]
  {
    assert [Framed(rid, e), Taken(rid, e, Sent)][..1] == [Framed(rid, e)];
    assert Frames([Framed(rid, e)]) == [] + [e];
  }

  /** The frames of a flush are exactly what it sent, in order. */
  lemma {:induction false} FramesAreSent(rid: string, sent: seq<Entry>, pages: seq<nat>, ran: seq<seq<Part>>, gaps: seq<Gap>, cfg: Config)
    requires |ran| == |pages| <= |gaps| && forall i :: 0 <= i < |ran| ==> AllDid(gaps[i].calls, ran[i], cfg)
    ensures Frames(Woven(rid, sent, pages, ran)) == sent
    decreases |pages|
  {
    hide OwnEvents, Joined, AllDid, Frames, FirstOf, RestOf, Woven;
    if pages == [] {
      WovenNone(rid, sent);
      OwnFrames(rid, sent);
    } else {
      var n := |pages| - 1;
      var so, rest := FirstOf(sent, pages[n]), RestOf(sent, pages[n]);
      FramesAreSent(rid, so, pages[..n], ran[..n], gaps, cfg);
      CallsFrameNothing(gaps[n].calls, ran[n], cfg);
      OwnFrames(rid, rest);
      FramesOfThree(Woven(rid, so, pages[..n], ran[..n]), Joined(ran[n]), OwnEvents(rid, rest), so, rest);
      WovenLast(rid, sent, pages, ran);
    }
  }

  lemma WovenLast(rid: string, sent: seq<Entry>, pages: seq<nat>, ran: seq<seq<Part>>)
    requires |ran| == |pages| > 0
    ensures var n := |pages| - 1;
      var so, rest := FirstOf(sent, pages[n]), RestOf(sent, pages[n]);
      sent == so + rest && Woven(rid, sent, pages, ran) == Woven(rid, so, pages[..n], ran[..n]) + Joined(ran[n]) + OwnEvents(rid, rest)
  {
    hide Joined, OwnEvents;
  }

  lemma FramesOfThree(a: seq<Event>, b: seq<Event>, c: seq<Event>, so: seq<Entry>, rest: seq<Entry>)
    requires Frames(a) == so && Frames(b) == [] && Frames(c) == rest
    ensures Frames(a + b + c) == so + rest
  {
    hide Frames;
    FramesJoin(a + b, c);
    FramesJoin(a, b);
    assert so + [] == so;
  }

  lemma SinceFrames(history: seq<Event>, start: seq<Event>, rid: string, sent: seq<Entry>, pages: seq<nat>, gaps: seq<Gap>,
                    ran: seq<seq<Part>>, cfg: Config)
    requires WovenSince(history, start, rid, sent, pages, gaps, ran, cfg)
    ensures |start| <= |history| && Frames(history[|start|..]) == sent
  {
    hide Woven, WovenHeeded, AllDid, Frames;
    FramesAreSent(rid, sent, pages, ran, gaps, cfg);
    assert history[|start|..] == Woven(rid, sent, pages, ran);
  }

  lemma CallsFrameNothing(calls: seq<Call>, parts: seq<Part>, cfg: Config)
    requires AllDid(calls, parts, cfg)
    ensures Frames(Joined(parts)) == []
  {
    hide Did;
    forall i | 0 <= i < |Joined(parts)|
      ensures !Joined(parts)[i].Framed?
    {
      JoinedIn(parts, Joined(parts)[i]);
      var j :| 0 <= j < |parts| && Joined(parts)[i] in parts[j].events;
      DidNoFrame(calls[j], parts[j].events, cfg);
    }
    NoFrames(Joined(parts));
  }

  lemma DidNoFrame(call: Call, events: seq<Event>, cfg: Config)
    requires Did(call, events, cfg)
    ensures forall ev :: ev in events ==> !ev.Framed?
  {
  }

  // --- The pages --------------------------------------------------------------------

  ghost predicate PageFull(page: seq<Entry>, cfg: Config) {
    |page| >= cfg.flushPage || SizeSum(page) >= cfg.flushHighWaterBytes
  }

  /** Where page i starts: the first at 0, each other where the one before it ended. */
  ghost function Start(pages: seq<nat>, i: nat): nat
    requires i <= |pages|
  {
    if i == 0 then 0 else pages[i - 1]
  }

  /** A page of what was sent: no part of it that is not all of it was full. */
  ghost predicate Page(sent: seq<Entry>, lo: nat, hi: nat, cfg: Config) {
    lo <= hi <= |sent| && forall j :: lo < j < hi ==> !PageFull(sent[lo..j], cfg)
  }

  ghost predicate FullPage(sent: seq<Entry>, lo: nat, hi: nat, cfg: Config) {
    Page(sent, lo, hi, cfg) && PageFull(sent[lo..hi], cfg)
  }

  /** The walk waits exactly where a page is full. */
  ghost predicate Paged(sent: seq<Entry>, pages: seq<nat>, cfg: Config) {
    (forall i :: 0 <= i < |pages| ==> FullPage(sent, Start(pages, i), pages[i], cfg)) &&
    Page(sent, Start(pages, |pages|), |sent|, cfg)
  }

  /** The page in hand, counted. */
  ghost predicate Paging(sent: seq<Entry>, pages: seq<nat>, count: int, bytes: int, cfg: Config) {
    Paged(sent, pages, cfg) && Start(pages, |pages|) <= |sent| &&
    count == |sent| - Start(pages, |pages|) && bytes == SizeSum(sent[Start(pages, |pages|)..])
  }

  lemma PagingIs(sent: seq<Entry>, pages: seq<nat>, count: int, bytes: int, cfg: Config)
    requires Paging(sent, pages, count, bytes, cfg)
    ensures Paged(sent, pages, cfg) && Start(pages, |pages|) <= |sent|
  {
  }

  lemma PagesWithin(sent: seq<Entry>, pages: seq<nat>, count: int, bytes: int, cfg: Config)
    requires Paging(sent, pages, count, bytes, cfg)
    ensures pages != [] ==> pages[|pages| - 1] <= |sent|
  {
  }

  lemma PagingStart(cfg: Config)
    ensures Paging([], [], 0, 0, cfg)
  {
  }

  /** At a full page the walk waits, and starts a new one. */
  lemma PagingFull(sent: seq<Entry>, pages: seq<nat>, count: int, bytes: int, cfg: Config)
    requires Paging(sent, pages, count, bytes, cfg)
    ensures Start(pages, |pages|) <= |sent|
    ensures count >= cfg.flushPage || bytes >= cfg.flushHighWaterBytes <==> PageFull(sent[Start(pages, |pages|)..], cfg)
    ensures PageFull(sent[Start(pages, |pages|)..], cfg) ==> Paging(sent, pages + [|sent|], 0, 0, cfg)
  {
    hide Page, SizeSum;
    var last := Start(pages, |pages|);
    if PageFull(sent[last..], cfg) {
      var next := pages + [|sent|];
      PageWhole(sent, last, cfg);
      NoPage(sent, cfg);
      forall i | 0 <= i < |next|
        ensures FullPage(sent, Start(next, i), next[i], cfg)
      {
        assert i < |pages| ==> FullPage(sent, Start(pages, i), pages[i], cfg) && Start(next, i) == Start(pages, i);
      }
    }
  }

  lemma PageWhole(sent: seq<Entry>, lo: nat, cfg: Config)
    requires Page(sent, lo, |sent|, cfg) && PageFull(sent[lo..], cfg)
    ensures FullPage(sent, lo, |sent|, cfg)
  {
    assert sent[lo..|sent|] == sent[lo..];
  }

  lemma NoPage(sent: seq<Entry>, cfg: Config)
    ensures SizeSum(sent[|sent|..]) == 0 && Page(sent, |sent|, |sent|, cfg)
  {
  }

  /** A frame more, where the page was not full or is new. */
  lemma PagingSend(sent: seq<Entry>, pages: seq<nat>, count: int, bytes: int, cfg: Config, e: Entry)
    requires Paging(sent, pages, count, bytes, cfg)
    requires count == 0 || !(count >= cfg.flushPage || bytes >= cfg.flushHighWaterBytes)
    ensures Paging(sent + [e], pages, count + 1, bytes + e.size, cfg)
  {
    hide Page, FullPage, PageFull;
    var last, all := Start(pages, |pages|), sent + [e];
    PageIs(sent[last..], cfg);
    PageMore(sent, last, cfg, e);
    assert all[last..][..|sent| - last] == sent[last..];
    forall i | 0 <= i < |pages|
      ensures FullPage(all, Start(pages, i), pages[i], cfg)
    {
      PageKept(sent, Start(pages, i), pages[i], cfg, e);
    }
  }

  lemma PageKept(sent: seq<Entry>, lo: nat, hi: nat, cfg: Config, e: Entry)
    requires FullPage(sent, lo, hi, cfg)
    ensures FullPage(sent + [e], lo, hi, cfg)
  {
    hide PageFull;
    assert forall j :: lo <= j <= hi ==> (sent + [e])[lo..j] == sent[lo..j];
  }

  lemma PageMore(sent: seq<Entry>, lo: nat, cfg: Config, e: Entry)
    requires Page(sent, lo, |sent|, cfg) && (lo == |sent| || !PageFull(sent[lo..], cfg))
    ensures Page(sent + [e], lo, |sent| + 1, cfg)
  {
    hide PageFull;
    assert forall j :: lo <= j <= |sent| ==> (sent + [e])[lo..j] == sent[lo..j];
    assert sent[lo..|sent|] == sent[lo..];
  }

  lemma PageIs(page: seq<Entry>, cfg: Config)
    ensures PageFull(page, cfg) <==> |page| >= cfg.flushPage || SizeSum(page) >= cfg.flushHighWaterBytes
  {
  }

  lemma {:induction false} SizesAdd(entries: seq<Entry>, e: Entry)
    ensures SizeSum([]) == 0 && SizeSum(entries + [e]) == SizeSum(entries) + e.size
  {
    assert (entries + [e])[..|entries|] == entries;
  }

  /** Where page i ends: as soon as the frames since the page before are as many, or as many bytes, as a page may have. */
  lemma PagedIs(sent: seq<Entry>, pages: seq<nat>, cfg: Config, i: nat, lo: nat, hi: nat)
    requires Paged(sent, pages, cfg) && i <= |pages|
    requires lo == (if i == 0 then 0 else pages[i - 1]) && hi == (if i < |pages| then pages[i] else |sent|)
    ensures lo <= hi <= |sent|
    ensures i < |pages| ==> hi - lo >= cfg.flushPage || SizeSum(sent[lo..hi]) >= cfg.flushHighWaterBytes
    ensures forall j :: lo < j < hi ==> |sent[lo..j]| < cfg.flushPage && SizeSum(sent[lo..j]) < cfg.flushHighWaterBytes
  {
    hide SizeSum, PageFull, Page;
    assert lo == Start(pages, i);
    if i < |pages| {
      assert FullPage(sent, Start(pages, i), pages[i], cfg);
    }
    assert Page(sent, lo, hi, cfg);
    PageMeans(sent, lo, hi, cfg);
  }

  lemma PageMeans(sent: seq<Entry>, lo: nat, hi: nat, cfg: Config)
    ensures Page(sent, lo, hi, cfg) ==>
      lo <= hi <= |sent| && forall j :: lo < j < hi ==> |sent[lo..j]| < cfg.flushPage && SizeSum(sent[lo..j]) < cfg.flushHighWaterBytes
    ensures lo <= hi <= |sent| && PageFull(sent[lo..hi], cfg) ==> hi - lo >= cfg.flushPage || SizeSum(sent[lo..hi]) >= cfg.flushHighWaterBytes
  {
    hide SizeSum;
    if Page(sent, lo, hi, cfg) {
      forall j | lo < j < hi
        ensures |sent[lo..j]| < cfg.flushPage && SizeSum(sent[lo..j]) < cfg.flushHighWaterBytes
      {
        assert !PageFull(sent[lo..j], cfg);
      }
    }
  }

  /** Why a walk stops: the next frame is refused, a wait does not come through, or none is left at a full page. */
  lemma StoppedMeans(sent: seq<Entry>, sends: seq<bool>, pages: seq<nat>, gaps: seq<Gap>, cfg: Config)
    requires Stopped(sent, sends, pages, gaps, cfg)
    ensures |sent| >= |sends| || !sends[|sent|] || (0 < |pages| <= |gaps| && !gaps[|pages| - 1].drained) ||
      (|pages| == |gaps| &&
       var lo := if pages == [] then 0 else pages[|pages| - 1];
       lo <= |sent| && (|sent| - lo >= cfg.flushPage || SizeSum(sent[lo..]) >= cfg.flushHighWaterBytes))
  {
  }

  // --- What is still held -------------------------------------------------------------

  /** From index k on, the live numbers are those of the entries that are held. */
  ghost predicate LiveFrom(k: nat, entries: seq<Entry>, live: set<nat>, held: seq<Entry>) {
    forall j :: k <= j < |entries| ==> (entries[j].num in live <==> entries[j] in held)
  }

  lemma LiveStart(entries: seq<Entry>)
    ensures LiveFrom(0, entries, set e | e in entries :: e.num, entries)
  {
  }

  lemma LiveNow(k: nat, entries: seq<Entry>, live: set<nat>, held: seq<Entry>)
    requires k < |entries| && LiveFrom(k, entries, live, held)
    ensures entries[k].num in live <==> entries[k] in held
    ensures LiveFrom(k + 1, entries, live, held)
  {
  }

  /** After a wait the numbers are read again. */
  lemma LiveAgain(history: seq<Event>, from: nat, num0: nat, rid: string, k: nat, turns: seq<nat>, sent: seq<Entry>, live: set<nat>)
    requires Flushing(history, from, num0, rid, k, turns, sent)
    requires forall n :: n in live <==> exists x :: x in In(Replay(history), rid) && x.num == n
    ensures LiveFrom(k, In(Replay(history[..from]), rid), live, In(Replay(history), rid))
  {
    hide Walk, Replay, In, Numbered, OrdinaryEvent;
    var entries := In(Replay(history[..from]), rid);
    forall j | k <= j < |entries|
      ensures entries[j].num in live <==> entries[j] in In(Replay(history), rid)
    {
      StillHeld(history, from, num0, rid, sent, entries, live, j);
    }
  }

  /** The numbers held now tell which of the entries held at `from` still are. */
  lemma StillHeld(history: seq<Event>, from: nat, num0: nat, rid: string, sent: seq<Entry>, entries: seq<Entry>,
                  live: set<nat>, j: nat)
    requires Ordinary(history, from, num0, rid, sent) && entries == In(Replay(history[..from]), rid)
    requires Numbered(entries, num0) && j < |entries|
    requires forall n :: n in live <==> exists x :: x in In(Replay(history), rid) && x.num == n
    ensures entries[j].num in live <==> entries[j] in In(Replay(history), rid)
  {
    if entries[j].num in live {
      var x :| x in In(Replay(history), rid) && x.num == entries[j].num;
      HeldOrNewer(history, from, num0, rid, sent, x);
      var i :| 0 <= i < |entries| && entries[i] == x;
      assert i == j;
    }
  }

  /** A frame, with a sent receipt's drop, leaves the entries after it where they were. */
  lemma LiveAfter(before: seq<Event>, rid: string, entries: seq<Entry>, live: set<nat>, k: nat, num: int)
    requires k < |entries| && Numbered(entries, num) && LiveFrom(k + 1, entries, live, In(Replay(before), rid))
    ensures LiveFrom(k + 1, entries, live, In(Replay(before + OneFrame(rid, entries[k])), rid))
  {
    hide Replay, Apply, Numbered, In;
    var e := entries[k];
    FrameNothing(before, rid, e);
    if e.kind == Receipt {
      ReplayNext(before + [Framed(rid, e)], Taken(rid, e, Sent));
      assert before + [Framed(rid, e)] + [Taken(rid, e, Sent)] == before + [Framed(rid, e), Taken(rid, e, Sent)];
      OthersStay(Replay(before), rid, entries, k, num);
    }
  }

  lemma OthersStay(c: Contents, rid: string, entries: seq<Entry>, k: nat, num: int)
    requires k < |entries| && Numbered(entries, num)
    ensures forall j :: k < j < |entries| ==>
      (entries[j] in In(Apply(c, Taken(rid, entries[k], Sent)), rid) <==> entries[j] in In(c, rid))
  {
    forall j | k < j < |entries|
      ensures entries[j] in In(Apply(c, Taken(rid, entries[k], Sent)), rid) <==> entries[j] in In(c, rid)
    {
      if entries[j] in In(c, rid) {
        MinusIn(In(c, rid), entries[k], entries[j]);
      }
      if entries[j] in Minus(In(c, rid), entries[k]) {
        MinusOnly(In(c, rid), entries[k], entries[j]);
      }
    }
  }

  // --- The socket --------------------------------------------------------------------------

  /** The socket took the first n frames. */
  predicate Accepted(sends: seq<bool>, n: nat) {
    n <= |sends| && forall i :: 0 <= i < n ==> sends[i]
  }

  /** The socket came through in the first n waits. */
  predicate Drained(gaps: seq<Gap>, n: nat) {
    n <= |gaps| && forall i :: 0 <= i < n ==> gaps[i].drained
  }

  lemma SocketStart(sends: seq<bool>, gaps: seq<Gap>)
    ensures Accepted(sends, 0) && Drained(gaps, 0)
  {
  }

  lemma SocketIs(sends: seq<bool>, gaps: seq<Gap>, n: nat, m: nat)
    ensures Accepted(sends, n) <==> n <= |sends| && forall i :: 0 <= i < n ==> sends[i]
    ensures Drained(gaps, m) <==> m <= |gaps| && forall i :: 0 <= i < m ==> gaps[i].drained
    ensures Accepted(sends, |sends|) <==> forall i :: 0 <= i < |sends| ==> sends[i]
    ensures Drained(gaps, |gaps|) <==> forall i :: 0 <= i < |gaps| ==> gaps[i].drained
  {
  }

  lemma AcceptedNext(sends: seq<bool>, n: nat)
    requires Accepted(sends, n) && n < |sends| && sends[n]
    ensures Accepted(sends, n + 1)
  {
  }

  lemma DrainedNext(gaps: seq<Gap>, n: nat)
    requires Drained(gaps, n)
    ensures n < |gaps| && gaps[n].drained ==> Drained(gaps, n + 1)
  {
  }

  lemma DrainedLess(gaps: seq<Gap>, n: nat)
    ensures n > 0 && Drained(gaps, n) ==> Drained(gaps, n - 1)
  {
  }

  /** The socket fails: it refuses the next frame, or does not come through in the last wait, or in one at a full page. */
  ghost predicate Stopped(sent: seq<Entry>, sends: seq<bool>, pages: seq<nat>, gaps: seq<Gap>, cfg: Config) {
    (|sent| >= |sends| || !sends[|sent|]) ||
    (0 < |pages| <= |gaps| && !gaps[|pages| - 1].drained) ||
    (|pages| == |gaps| && Start(pages, |pages|) <= |sent| && PageFull(sent[Start(pages, |pages|)..], cfg))
  }

  lemma StoppedIs(sent: seq<Entry>, sends: seq<bool>, pages: seq<nat>, gaps: seq<Gap>, cfg: Config)
    ensures |sent| >= |sends| || !sends[|sent|] ==> Stopped(sent, sends, pages, gaps, cfg)
    ensures 0 < |pages| <= |gaps| && !gaps[|pages| - 1].drained ==> Stopped(sent, sends, pages, gaps, cfg)
    ensures |pages| == |gaps| && Start(pages, |pages|) <= |sent| && PageFull(sent[Start(pages, |pages|)..], cfg) ==>
      Stopped(sent, sends, pages, gaps, cfg)
  {
  }

  /** A socket that takes every frame and comes through at every full page is sent all that is held at its turn. */
  lemma NeverStopped(sent: seq<Entry>, sends: seq<bool>, pages: seq<nat>, gaps: seq<Gap>, cfg: Config)
    ensures |sent| < |sends| && |pages| < |gaps| && Accepted(sends, |sends|) && Drained(gaps, |gaps|) ==>
      !Stopped(sent, sends, pages, gaps, cfg)
  {
  }

  // --- The walk in hand -----------------------------------------------------------------

  /** A flush of what was held after `start`, come to entry k, and the numbers it takes for live. */
  ghost predicate FlushAt(history: seq<Event>, start: seq<Event>, num0: nat, rid: string, entries: seq<Entry>, live: set<nat>,
                          k: nat, turns: seq<nat>, sent: seq<Entry>) {
    start <= history && entries == In(Replay(start), rid) && k <= |entries| &&
    Flushing(history, |start|, num0, rid, k, turns, sent) && LiveFrom(k, entries, live, In(Replay(history), rid))
  }

  lemma AtMeans(history: seq<Event>, start: seq<Event>, num0: nat, rid: string, entries: seq<Entry>, live: set<nat>,
                k: nat, turns: seq<nat>, sent: seq<Entry>)
    requires FlushAt(history, start, num0, rid, entries, live, k, turns, sent)
    ensures start <= history && |start| <= |history| && history[..|start|] == start && entries == In(Replay(start), rid)
    ensures Flushing(history, |start|, num0, rid, k, turns, sent) && Numbered(entries, num0)
    ensures k < |entries| ==> (entries[k].num in live <==> entries[k] in In(Replay(history), rid))
  {
    hide Ordinary, Walk, ReceiptsGone, Numbered, Replay, In;
    assert history[..|start|] == start;
  }

  lemma AtStart(start: seq<Event>, num0: nat, rid: string, entries: seq<Entry>)
    requires entries == In(Replay(start), rid) && Numbered(entries, num0)
    ensures FlushAt(start, start, num0, rid, entries, set e | e in entries :: e.num, 0, [], [])
  {
    hide Flushing, Numbered, Replay, In, LiveFrom;
    FlushStart(start, num0, rid);
    LiveStart(entries);
  }

  lemma AtMore(history: seq<Event>, history': seq<Event>, start: seq<Event>, num0: nat, rid: string, entries: seq<Entry>,
               live: set<nat>, live': set<nat>, k: nat, turns: seq<nat>, sent: seq<Entry>)
    requires FlushAt(history, start, num0, rid, entries, live, k, turns, sent) && history <= history'
    requires Flushing(history', |start|, num0, rid, k, turns, sent)
    requires forall n :: n in live' <==> exists x :: x in In(Replay(history'), rid) && x.num == n
    ensures FlushAt(history', start, num0, rid, entries, live', k, turns, sent)
  {
    hide Flushing, LiveFrom, Replay, In;
    assert history'[..|start|] == start;
    LiveAgain(history', |start|, num0, rid, k, turns, sent, live');
  }

  lemma AtSkip(history: seq<Event>, start: seq<Event>, num0: nat, rid: string, entries: seq<Entry>, live: set<nat>,
               k: nat, turns: seq<nat>, sent: seq<Entry>)
    requires FlushAt(history, start, num0, rid, entries, live, k, turns, sent) && k < |entries| && entries[k].num !in live
    ensures FlushAt(history, start, num0, rid, entries, live, k + 1, turns + [|history|], sent)
  {
    hide Flushing, LiveFrom, Replay, In;
    assert history[..|start|] == start;
    LiveNow(k, entries, live, In(Replay(history), rid));
    FlushSkip(history, |start|, num0, rid, k, turns, sent);
  }

  lemma AtFrame(history: seq<Event>, start: seq<Event>, num0: nat, rid: string, entries: seq<Entry>, live: set<nat>,
                k: nat, turns: seq<nat>, sent: seq<Entry>, e: Entry, num: int)
    requires FlushAt(history, start, num0, rid, entries, live, k, turns, sent)
    requires k < |entries| && entries[k] == e && e.num in live && Numbered(In(Replay(history), rid), num)
    ensures e in In(Replay(history), rid) && Replay(history + [Framed(rid, e)]) == Replay(history)
    ensures FlushAt(history + OneFrame(rid, e), start, num0, rid, entries, live, k + 1, turns + [|history|], sent + [e])
  {
    hide Flushing, LiveFrom, Replay, In, OneFrame, Numbered;
    AtMeans(history, start, num0, rid, entries, live, k, turns, sent);
    LiveNow(k, entries, live, In(Replay(history), rid));
    FrameNothing(history, rid, e);
    if e.kind == Receipt {
      FlushReceipt(history, |start|, num0, rid, k, turns, sent, e, num);
    } else {
      FlushMessage(history, |start|, num0, rid, k, turns, sent, e);
    }
    LiveAfter(history, rid, entries, live, k, num0);
  }
}
