/**
 The relay's in-memory coordinator (server/server.js, MemoryCoordinator): every method
 that moves an envelope or an owner, with the running totals, the indexes and the
 ownership books kept exact.
 */
module Coordinator {
  import opened Options
  import opened Mailbox
  import opened EntryKeys
  import opened JsMaps
  import opened RelayState
  import opened Admission
  import opened FlushOrder

  datatype EnqueueResult = Stored | QueueFull | StoreFull | MailboxRefused | UnownedRefused

  datatype SetIntroResult = FlagSet | FlagRefreshed | FlagLimited

  /** `Math.max(0, n)`: every use below is proved to change nothing. */
  function AtLeast0(n: int): (r: int)
    ensures n >= 0 ==> r == n
  {
    if n >= 0 then n else 0
  }

  class MemoryCoordinator {
    const cfg: Config
    const gate: NewMailboxGate
    const seen: SeenMailboxes
    var queues: Queues
    var num: nat
    var bytes: int
    var count: int
    var unownedBytes: int
    var owned: JsMap<int>
    var intro: JsMap<Flag>
    /** What entered and left, in order. */
    ghost var history: seq<Event>
    /** Every routing id that ever had a mailbox. */
    ghost var ever: set<string>
    /** The clock when the relay started, the latest time read, and whether no reading went back. */
    ghost const start: int
    ghost var clock: int
    ghost var steady: bool

    ghost predicate Valid()
      reads this, gate, seen
    {
      Orderly() && Books() && Paid()
    }

    ghost predicate Orderly()
      reads this, seen
    {
      Lists() && Mail() && Told() && Timely()
    }

    /** The owner list and the flags, which never outgrow their store. */
    ghost predicate Lists()
      reads `owned, `intro, seen
    {
      owned.Ok() && intro.Ok() && seen.Valid() && |intro.order| <= cfg.introCap && cfg.introCap >= 1
    }

    /** Every queue is in order, the store within its limit, and what is held is what entered and has not left. */
    ghost predicate Mail()
      reads `queues, `num, `bytes, `history
    {
      QueuesOk(queues, cfg, num) && bytes <= cfg.maxStoreBytes && ContentsOf(queues) == Replay(history)
    }

    /** The history names every mailbox there ever was, and nothing left it without a reason. */
    ghost predicate Told()
      reads `queues, `history, `ever, `clock
    {
      ever == Receivers(history) && queues.Keys <= ever && AllDue(history, cfg, clock)
    }

    /** While the clock runs forward, owners and flags are listed oldest first. */
    ghost predicate Timely()
      reads `owned, `intro, `steady, `clock
    {
      steady ==> Aged(owned.order, owned.at, clock) && Aged(intro.order, TimesOf(intro.at), clock)
    }

    /** The totals are the recounts over the queues. */
    ghost predicate Books()
      reads `queues, `owned, `intro, `bytes, `count, `unownedBytes
    {
      Balanced(queues, Owners(owned.at, intro.at), bytes, count, unownedBytes)
    }

    /** While the clock runs forward, every mailbox there ever was is backed by a token. */
    ghost predicate Paid()
      reads `ever, `steady, `clock, gate, seen
    {
      seen.ids.at.Keys <= ever && gate.perMinute >= 0.0 && PaidFor(|ever|)
    }

    ghost predicate PaidFor(mailboxes: nat)
      reads `steady, `clock, gate
    {
      steady ==> start <= gate.at <= clock && Bounded(mailboxes, gate.tokens, gate.perMinute, gate.at - start)
    }

    constructor (cfg: Config, perMinute: real, seenCap: nat, seenTtlMs: int, now: int)
      requires cfg.introCap >= 1 && perMinute >= 0.0
      ensures Valid() && this.cfg == cfg && queues == map[] && history == [] && steady && start == clock == now
      ensures fresh(gate) && fresh(seen) && gate.perMinute == perMinute
      ensures owned == JsMap([], map[]) && intro == JsMap([], map[]) && bytes == unownedBytes == 0
      ensures gate.tokens == perMinute && gate.at == now && seen.ids.at == map[]
    {
      this.cfg := cfg;
      gate := new NewMailboxGate(perMinute, now);
      seen := new SeenMailboxes(seenCap, seenTtlMs);
      queues, num, bytes, count, unownedBytes := map[], 0, 0, 0, 0;
      owned, intro := JsMap([], map[]), JsMap([], map[]);
      history, ever, start, clock, steady := [], {}, now, now, true;
      new;
      hide *;
      NothingHeld();
      NobodyListed();
      NonePaid();
      Pieces();
    }

    lemma NothingHeld()
      requires queues == map[] && owned.at == map[] && intro.at == map[] && history == [] && ever == {}
      requires bytes == count == unownedBytes == 0
      ensures Mail() && Told() && Books()
    {
      assert BytesOf(queues) == map[] && CountOf(queues) == map[];
      assert UnownedOf(queues, Owners(owned.at, intro.at)) == map[];
      assert Receivers([]) == {};
    }

    lemma NobodyListed()
      requires owned == JsMap([], map[]) && intro == JsMap([], map[]) && seen.Valid() && cfg.introCap >= 1
      ensures Lists() && Timely()
    {
    }

    lemma NonePaid()
      requires seen.ids.at == map[] && ever == {} && gate.tokens == gate.perMinute >= 0.0 && start == gate.at == clock
      ensures Paid()
    {
      RefillAdds(gate.perMinute, 0, 0);
    }

    lemma MailOk()
      requires Mail()
      ensures QueuesOk(queues, cfg, num) && bytes <= cfg.maxStoreBytes && ContentsOf(queues) == Replay(history)
    {
    }

    lemma BooksAre()
      ensures Books() <==> Balanced(queues, Owners(owned.at, intro.at), bytes, count, unownedBytes)
    {
    }

    lemma ToldIs()
      ensures Told() <==> ever == Receivers(history) && queues.Keys <= ever && AllDue(history, cfg, clock)
    {
    }

    lemma ListsAre()
      ensures Lists() <==> owned.Ok() && intro.Ok() && seen.Valid() && |intro.order| <= cfg.introCap && cfg.introCap >= 1
    {
    }

    lemma MayHoldOk(rid: string)
      requires MayHold(rid)
      ensures seen.ids.at.Keys <= ever && gate.perMinute >= 0.0 && PaidFor(|ever|) && PaidFor(|ever + {rid}|)
    {
    }

    lemma OwnsIs(rid: string)
      ensures Owns(rid) <==> rid in owned.at || Flagged(intro.at, rid)
    {
    }

    /** What Valid says, piece by piece. */
    lemma Opened()
      requires Valid()
      ensures Orderly() && Books() && Paid() && Lists() && Mail() && Told() && Timely()
      ensures QueuesOk(queues, cfg, num) && bytes <= cfg.maxStoreBytes && ContentsOf(queues) == Replay(history)
      ensures Balanced(queues, Owners(owned.at, intro.at), bytes, count, unownedBytes)
    {
    }

    lemma Closed()
      requires Lists() && Told() && Timely() && Paid()
      requires QueuesOk(queues, cfg, num) && bytes <= cfg.maxStoreBytes && ContentsOf(queues) == Replay(history)
      requires Balanced(queues, Owners(owned.at, intro.at), bytes, count, unownedBytes)
      ensures Valid()
    {
    }

    lemma Pieces()
      ensures Valid() <==> Orderly() && Books() && Paid()
      ensures Orderly() <==> Lists() && Mail() && Told() && Timely()
    {
    }

    /** The clock has been read. */
    ghost method Tick(now: int)
      requires Valid()
      modifies this`clock, this`steady
      ensures Valid() && clock == Later(old(clock), now) && steady == (old(steady) && now >= old(clock))
      ensures clock >= now && (steady ==> clock == now)
    {
      hide Balanced, QueuesOk, Owners, Replay, Receivers, Aged, NoRepeat;
      DueLater(history, cfg, clock, Later(clock, now));
      if steady {
        AgedLater(owned.order, owned.at, clock, Later(clock, now));
        AgedLater(intro.order, TimesOf(intro.at), clock, Later(clock, now));
      }
      steady := steady && now >= clock;
      clock := Later(clock, now);
    }

    predicate Owns(rid: string)
      reads `owned, `intro
    {
      rid in owned.at || Flagged(intro.at, rid)
    }

    // --- Ownership ------------------------------------------------------------

    /** What the mailbox holds goes back into the unowned total, unless it is still owned. */
    method Unowned(rid: string)
      requires rid !in owned.at && !Flagged(intro.at, rid)
      requires Mail()
      requires Balanced(queues, Owners(owned.at, intro.at) + {rid}, bytes, count, unownedBytes)
      modifies this`unownedBytes
      ensures Books()
    {
      hide Balanced, QueuesOk, Owners;
      ForgetBalanced(queues, Owners(owned.at, intro.at) + {rid}, bytes, count, unownedBytes, rid);
      NotOwner(owned.at, intro.at, rid);
      if rid in queues {
        unownedBytes := unownedBytes + queues[rid].bytes;
      }
    }

    /** Forgets an owner; its flag, if one is in force, keeps the mailbox owned. */
    method ForgetOwner(rid: string)
      requires Valid() && rid in owned.at
      modifies this`owned, this`unownedBytes
      ensures Valid() && owned == old(owned).Delete(rid)
    {
      hide Balanced, QueuesOk, Mail, Paid, Told, Owners, NoRepeat, Without, Aged, TimesOf;
      DeleteOk(owned, rid);
      ForgottenOwner(owned.at, intro.at, rid);
      OwnerGone(owned, clock, rid);
      owned := owned.Delete(rid);
      if !Flagged(intro.at, rid) {
        Unowned(rid);
      }
    }

    lemma OwnersAre()
      requires Valid()
      ensures owned.Ok() && (forall r :: r in owned.order ==> r in owned.at)
      ensures steady ==> Aged(owned.order, owned.at, clock)
    {
    }

    /** Forgets owners past the TTL and past the cap, oldest first. */
    method TrimOwned(now: int)
      requires Valid()
      modifies this`owned, this`unownedBytes
      ensures Valid()
      ensures forall r :: r in old(owned.order) ==> r in old(owned.at)
      ensures owned.order == Trimmed(old(owned.order), old(owned.at), cfg.ownedCap, cfg.ownedTtlMs, now)
      ensures forall r :: r in owned.at ==> r in old(owned.at) && owned.at[r] == old(owned.at)[r]
      ensures steady ==> |owned.order| <= cfg.ownedCap && forall r :: r in owned.at ==> now - owned.at[r] <= cfg.ownedTtlMs
    {
      hide *;
      OwnersAre();
      ghost var order, at := owned.order, owned.at;
      if steady {
        TrimmedFresh(order, at, clock, cfg.ownedCap, cfg.ownedTtlMs, now);
      }
      while owned.order != []
        invariant Valid() && forall r :: r in owned.order ==> r in owned.at
        invariant Trimmed(owned.order, owned.at, cfg.ownedCap, cfg.ownedTtlMs, now) == Trimmed(order, at, cfg.ownedCap, cfg.ownedTtlMs, now)
        invariant forall r :: r in owned.at ==> r in at && owned.at[r] == at[r]
        decreases |owned.order|
        modifies this`owned, this`unownedBytes
      {
        OwnersAre();
        var rid := owned.order[0];
        DeleteFirst(owned);
        DeleteOk(owned, rid);
        TrimStep(owned.order, owned.at, owned.at - {rid}, cfg.ownedCap, cfg.ownedTtlMs, now);
        if |owned.order| <= cfg.ownedCap && now - owned.at[rid] <= cfg.ownedTtlMs {
          break;
        }
        ForgetOwner(rid);
      }
      TrimNothing(owned.order, owned.at, cfg.ownedCap, cfg.ownedTtlMs, now);
      OwnerListed();
    }

    /** Puts rid last on the owner list. */
    method RenewOwner(rid: string, now: int)
      requires Lists() && Timely() && (steady ==> clock == now)
      modifies this`owned
      ensures Lists() && Timely() && owned.at == old(owned.at)[rid := now] && owned.order == Without(old(owned.order), rid) + [rid]
      ensures owned.order != [] && owned.order[|owned.order| - 1] == rid
      ensures forall r :: r in owned.order <==> r in owned.at
    {
      hide NoRepeat, Without, Aged, TimesOf;
      Renewed(owned, rid, now);
      OwnerRenewed(owned, now, rid);
      owned := owned.Delete(rid);
      owned := owned.Set(rid, now);
    }

    /** Puts rid last on the owner list; the bytes of a new owner leave the unowned total. */
    method Enroll(rid: string, now: int) returns (was: bool)
      requires Valid() && (steady ==> clock == now)
      modifies this`owned, this`unownedBytes
      ensures Valid() && was == (rid in old(owned.at)) && owned.at == old(owned.at)[rid := now]
      ensures owned.order == Without(old(owned.order), rid) + [rid]
      ensures owned.order != [] && owned.order[|owned.order| - 1] == rid
      ensures forall r :: r in owned.order <==> r in owned.at
    {
      hide *;
      Opened();
      was := rid in owned.at;
      ghost var owners := Owners(owned.at, intro.at);
      ClaimedOwner(owned.at, intro.at, rid, now);
      RenewOwner(rid, now);
      if !was && !Flagged(intro.at, rid) {
        ClaimBalanced(queues, owners, bytes, count, unownedBytes, rid);
        HeldWithin(queues, owners, bytes, count, unownedBytes, cfg, num, rid);
        HeldIs(queues, rid);
        if rid in queues {
          unownedBytes := AtLeast0(unownedBytes - queues[rid].bytes);
        }
      }
      Closed();
    }

    /** Records that rid has authenticated; its bytes leave the unowned total. */
    method ClaimOwner(rid: string, now: int) returns (was: bool)
      requires Valid()
      modifies this`owned, this`unownedBytes, this`clock, this`steady
      ensures Valid() && clock == Later(old(clock), now) && steady == (old(steady) && now >= old(clock))
      ensures steady ==> clock == now
      ensures was == (rid in old(owned.at))
      ensures was ==> owned.at == old(owned.at)[rid := now]
      ensures forall r :: r in old(owned.order) ==> r in old(owned.at)
      ensures owned.order == Enrolled(old(owned.order), old(owned.at), rid, cfg.ownedCap, cfg.ownedTtlMs, now)
      ensures forall r :: r in owned.at ==> r in owned.order && r in old(owned.at)[rid := now] && owned.at[r] == old(owned.at)[rid := now][r]
      ensures cfg.ownedCap >= 1 && cfg.ownedTtlMs >= 0 ==> rid in owned.at && owned.at[rid] == now
      ensures steady && !was && (cfg.ownedCap < 1 || cfg.ownedTtlMs < 0) ==> owned.at == map[]
    {
      hide *;
      OwnersAre();
      EnrolledIs(owned.order, owned.at, rid, cfg.ownedCap, cfg.ownedTtlMs, now);
      Tick(now);
      was := Enroll(rid, now);
      OwnerListed();
      if !was {
        ghost var order, at := owned.order, owned.at;
        Pieces();
        OwnersTimes();
        TrimOwned(now);
        if cfg.ownedCap >= 1 && cfg.ownedTtlMs >= 0 {
          NewestKept(order, at, cfg.ownedCap, cfg.ownedTtlMs, now);
        } else if steady {
          NobodyKept(order, at, cfg.ownedCap, cfg.ownedTtlMs, now);
        }
        OwnerListed();
      }
    }

    lemma OwnersTimes()
      requires Timely()
      ensures steady ==> forall r :: r in owned.order ==> r in owned.at && owned.at[r] <= clock
    {
    }

    lemma OwnerListed()
      requires Valid()
      ensures forall r :: r in owned.order <==> r in owned.at
      ensures owned.order == [] ==> owned.at == map[]
    {
      assert owned.order == [] && owned.at != map[] ==> exists r :: r in owned.at;
    }

    /** A flag has stopped counting: the counterpart of ClaimOwner. */
    method Unflag(rid: string)
      requires !Flagged(intro.at, rid) && Mail()
      requires var before := Owners(owned.at, intro.at);
        Balanced(queues, if rid in owned.at then before else before + {rid}, bytes, count, unownedBytes)
      modifies this`unownedBytes
      ensures Books()
    {
      if rid !in owned.at {
        Unowned(rid);
      }
    }

    /** Drops rid's flag or shadow, settling the unowned total if the flag was in force. */
    method ForgetIntro(rid: string)
      requires Valid()
      modifies this`intro, this`unownedBytes
      ensures Valid()
      ensures intro == old(intro).Delete(rid)
      ensures |intro.order| == old(|intro.order|) - (if old(rid in intro.at) then 1 else 0)
    {
      hide Balanced, QueuesOk, Mail, Paid, Told, Owners, NoRepeat, Without, Aged, TimesOf;
      DeleteOk(intro, rid);
      if rid !in intro.at {
        DeleteAbsent(intro, rid);
        return;
      }
      var f := intro.at[rid];
      UnflaggedOwner(owned.at, intro.at, rid);
      FlagGone(intro, clock, rid);
      intro := intro.Delete(rid);
      if !f.shadow {
        Unflag(rid);
      }
    }

    /** Walks the flags least recently set first, up to the first in force. */
    method TrimIntro(now: int)
      requires Valid()
      modifies this`intro, this`unownedBytes
      ensures Valid()
      ensures NoRepeat(old(intro.order)) && forall r :: r in old(intro.order) ==> r in old(intro.at)
      ensures intro.at == Lapsed(old(intro.order), old(intro.at), cfg.ownedTtlMs, now)
      ensures intro.order == Listed(old(intro.order), intro.at.Keys) && |intro.order| <= old(|intro.order|)
      ensures steady && cfg.ownedTtlMs >= 0 ==> forall r :: r in old(intro.at) ==>
        LapsedFlag(old(intro.at)[r], cfg.ownedTtlMs, now) == if r in intro.at then Some(intro.at[r]) else None
    {
      hide Balanced, QueuesOk, Mail, Paid, Told, Owners, Without, NoRepeat, Lapsed, Listed, Aged, TimesOf;
      var rest := intro.order;
      IterationOk(intro);
      ListedAll(intro.order, intro.at.Keys);
      LapsedEach(intro, clock, cfg.ownedTtlMs, now);
      ghost var all := Lapsed(intro.order, intro.at, cfg.ownedTtlMs, now);
      while rest != []
        invariant Valid() && |intro.order| <= old(|intro.order|) && NoRepeat(rest)
        invariant intro.order == Listed(old(intro.order), intro.at.Keys)
        invariant forall r :: r in rest ==> r in intro.at
        invariant Lapses(rest, intro.at, cfg.ownedTtlMs, now, all)
        decreases |rest|
      {
        var rid := rest[0];
        var f := intro.at[rid];
        var age := now - f.at;
        LapseStep(rest, intro.at, cfg.ownedTtlMs, now, all);
        if age <= cfg.ownedTtlMs {
          return;
        }
        if age > 2 * cfg.ownedTtlMs {
          ListedWithout(old(intro.order), intro.at.Keys, rid);
          ForgetIntro(rid);
        } else {
          Shadow(rid);
        }
        rest := rest[1..];
      }
      LapseEnd(rest, intro.at, cfg.ownedTtlMs, now, all);
    }

    /** A flag lapses into its shadow. */
    method Shadow(rid: string)
      requires Valid() && rid in intro.at
      modifies this`intro, this`unownedBytes
      ensures Valid()
      ensures intro == JsMap(old(intro.order), old(intro.at)[rid := old(intro.at)[rid].(shadow := true)])
      ensures intro.at.Keys == old(intro.at.Keys)
    {
      hide Balanced, QueuesOk, Mail, Paid, Told, Owners, NoRepeat, Aged, TimesOf;
      var f := intro.at[rid];
      UnflaggedOwner(owned.at, intro.at, rid);
      FlagShadowed(intro, rid);
      SetOk(intro, rid, f.(shadow := true));
      intro := intro.Set(rid, f.(shadow := true));
      if !f.shadow {
        Unflag(rid);
      }
    }

    /** Forgets the flags least recently set until there is room for a new one. */
    method MakeRoom(rid: string)
      requires Valid() && rid !in intro.at
      modifies this`intro, this`unownedBytes
      ensures Valid() && rid !in intro.at && |intro.order| < cfg.introCap
      ensures intro.order == RoomFor(old(intro.order), cfg.introCap)
      ensures forall r :: r in intro.at ==> r in old(intro.at) && intro.at[r] == old(intro.at)[r]
    {
      hide Balanced, QueuesOk, Mail, Paid, Told, Owners, NoRepeat, Without, Timely;
      while |intro.order| >= cfg.introCap
        invariant Valid() && rid !in intro.at
        invariant RoomFor(intro.order, cfg.introCap) == RoomFor(old(intro.order), cfg.introCap)
        invariant forall r :: r in intro.at ==> r in old(intro.at) && intro.at[r] == old(intro.at)[r]
        decreases |intro.order|
      {
        DeleteFirst(intro);
        ForgetIntro(intro.order[0]);
      }
    }

    /** Puts a mailbox's flag last: the books are exact if it was owned already, or else holds nothing. */
    method PutFlag(rid: string, f: Flag)
      requires Valid() && (rid in intro.at || |intro.order| < cfg.introCap) && (steady ==> clock == f.at) && !f.shadow
      modifies this`intro
      ensures Orderly() && Paid()
      ensures Books() <==> old(Owns(rid)) || Held(queues, rid) == 0
      ensures intro.at == old(intro.at)[rid := f] && intro.order == Without(old(intro.order), rid) + [rid]
    {
      hide Balanced, QueuesOk, Mail, Paid, Told, Owners, NoRepeat, Without, Aged, TimesOf;
      FlaggedOwner(owned.at, intro.at, rid, f);
      Renewed(intro, rid, f);
      FlagRenewed(intro, rid, f);
      if !Owns(rid) {
        FlagUnsettled(queues, Owners(owned.at, intro.at), bytes, count, unownedBytes, rid);
      }
      intro := intro.Delete(rid);
      intro := intro.Set(rid, f);
    }

    /**
     Flags rid as an introduction mailbox: the least recently set flags make room for a new one.
     The books stay exact unless the mailbox holds something, was not owned, and the owner list
     keeps nobody, so that it forgot the owner just claimed.
     */
    method SetIntro(rid: string, bits: nat, now: int, ipOver: bool) returns (r: SetIntroResult)
      requires Valid()
      modifies this`intro, this`owned, this`unownedBytes, this`clock, this`steady
      ensures Orderly() && Paid() && clock == Later(old(clock), now) && steady == (old(steady) && now >= old(clock))
      ensures NoRepeat(old(intro.order)) && forall k :: k in old(intro.order) ==> k in old(intro.at)
      ensures var left := Lapsed(old(intro.order), old(intro.at), cfg.ownedTtlMs, now);
        r == if rid in left then FlagRefreshed else if ipOver then FlagLimited else FlagSet
      ensures forall k :: k in old(owned.order) ==> k in old(owned.at)
      ensures r != FlagLimited ==>
        owned.order == Enrolled(old(owned.order), old(owned.at), rid, cfg.ownedCap, cfg.ownedTtlMs, now) &&
        forall k :: k in owned.at ==> k in owned.order && k in old(owned.at)[rid := now] && owned.at[k] == old(owned.at)[rid := now][k]
      ensures r == FlagLimited ==>
        Books() && owned == old(owned) && intro.at == Lapsed(old(intro.order), old(intro.at), cfg.ownedTtlMs, now)
      ensures var left := Lapsed(old(intro.order), old(intro.at), cfg.ownedTtlMs, now);
        r != FlagLimited ==>
          intro.at[rid := Flag(bits, now, false)] == intro.at &&
          intro.order == WithLast(Listed(old(intro.order), left.Keys), rid, rid in left, cfg.introCap) &&
          forall k :: k in intro.at && k != rid ==> k in left && intro.at[k] == left[k]
      ensures var left := Lapsed(old(intro.order), old(intro.at), cfg.ownedTtlMs, now);
        (cfg.ownedCap >= 1 && cfg.ownedTtlMs >= 0) || rid in old(owned.at) || Flagged(left, rid) || Held(queues, rid) == 0 ==> Books()
      ensures var left := Lapsed(old(intro.order), old(intro.at), cfg.ownedTtlMs, now);
        steady && r != FlagLimited && Books() ==>
          (cfg.ownedCap >= 1 && cfg.ownedTtlMs >= 0) || rid in old(owned.at) || Flagged(left, rid) || Held(queues, rid) == 0
    {
      hide *;
      LaterTwice(clock, now);
      OwnersAre();
      Tick(now);
      TrimIntro(now);
      Pieces();
      ListsAre();
      ghost var order, left := intro.order, intro.at;
      var held := rid in intro.at;
      if !held {
        if ipOver {
          return FlagLimited;
        }
        MakeRoom(rid);
        NotFlagged(left, intro.at, rid);
      }
      var _ := ClaimOwner(rid, now);
      OwnsIs(rid);
      PutFlag(rid, Flag(bits, now, false));
      WithLastIs(order, rid, held, cfg.introCap);
      return if held then FlagRefreshed else FlagSet;
    }

    /** The difficulty rid's owner set, in force or in its shadow, or 0. */
    function IntroBits(rid: string, now: int): nat
      reads `intro
    {
      if rid in intro.at && now - intro.at[rid].at <= 2 * cfg.ownedTtlMs then intro.at[rid].bits else 0
    }

    // --- Queues ---------------------------------------------------------------

    /** The queues with rid's changed, or let go of where it is empty. */
    function With(rid: string, q: Queue): Queues
      reads `queues
    {
      if q.entries == [] then queues - {rid} else queues[rid := q]
    }

    /** Puts a changed queue back, or lets go of an emptied one, and moves the totals. */
    method Keep(rid: string, q: Queue, bytes': int, unowned': int, count': int, ghost num0: int, ghost ev: Event)
      requires Lists() && Timely() && ContentsOf(queues) == Replay(history) && QueuesOk(queues, cfg, num0) && num0 <= num
      requires q.entries == [] || QueueOk(q, cfg, num)
      requires Apply(Replay(history), ev) == Put(ContentsOf(queues), rid, q.entries)
      requires AllDue(history, cfg, clock) && Due(history, ev, cfg, clock) && queues.Keys <= ever && rid in ever
      requires ever == Receivers(history) + (if ev.Added? then {ev.rid} else {})
      requires Balanced(With(rid, q), Owners(owned.at, intro.at), bytes', count', unowned') && bytes' <= cfg.maxStoreBytes
      modifies this`queues, this`history, this`bytes, this`unownedBytes, this`count
      ensures Orderly() && Books()
      ensures queues == old(With(rid, q)) && history == old(history) + [ev]
      ensures bytes == bytes' && unownedBytes == unowned' && count == count'
    {
      hide QueueOk, QueuesOk, Replay, ContentsOf, Apply, Put, Due, AllDue, Receivers, Balanced, Owners, Lists, Timely;
      QueuesLater(queues, cfg, num0, num);
      ReplayNext(history, ev);
      DueNext(history, ev, cfg, clock);
      if q.entries == [] {
        QueuesDrop(queues, cfg, num, rid);
        ContentsDrop(queues, rid);
      } else {
        QueuesSet(queues, cfg, num, rid, q);
        ContentsSet(queues, rid, q);
      }
      queues, history := With(rid, q), history + [ev];
      bytes, unownedBytes, count := bytes', unowned', count';
    }

    /** Removes the entry under `key`, if any, and settles the totals. */
    method RemoveKey(rid: string, key: string, ghost why: Why) returns (r: Option<Entry>)
      requires Valid()
      requires rid in queues && key in queues[rid].keys ==> MayLeave(queues[rid].keys[key], why, cfg.idSlots)
      requires rid in queues && key in queues[rid].keys && why == Sent ==>
        history != [] && history[|history| - 1] == Framed(rid, queues[rid].keys[key])
      modifies this`queues, this`history, this`bytes, this`unownedBytes, this`count
      ensures Valid()
      ensures r == if rid in old(queues) && key in old(queues[rid].keys) then Some(old(queues[rid].keys[key])) else None
      ensures r.None? ==> queues == old(queues) && history == old(history)
      ensures r.Some? ==> history == old(history) + [Taken(rid, r.value, why)]
      ensures r.Some? ==> r.value in In(Replay(old(history)), rid) && r.value.key == key && KeyOf(r.value, cfg.idSlots)
      ensures r.Some? ==> bytes == old(bytes) - r.value.size && count == old(count) - 1
    {
      hide *;
      if rid !in queues {
        return None;
      }
      var q := queues[rid];
      if key !in q.keys {
        return None;
      }
      var entry := q.keys[key];
      Opened();
      ToldIs();
      WithIs(rid);
      HeldOk(queues, cfg, num, rid);
      HeldKeyOf(rid, key);
      var idx := IndexOf(q.entries, entry, key);
      OwnersExact(owned.at, intro.at, rid);
      CutBalanced(queues, Owners(owned.at, intro.at), bytes, count, unownedBytes, cfg, num, rid, idx);
      q := CutQueue(q, idx);
      TakenFrom(queues, rid, entry, why, history, cfg, clock);
      var owns := rid in owned.at || Flagged(intro.at, rid);
      Keep(rid, q, AtLeast0(bytes - entry.size), if owns then unownedBytes else AtLeast0(unownedBytes - entry.size),
           AtLeast0(count - 1), num, Taken(rid, entry, why));
      Pieces();
      return Some(entry);
    }

    lemma WithIs(rid: string)
      ensures forall q: Queue :: With(rid, q) == if q.entries == [] then queues - {rid} else queues[rid := q]
    {
    }

    /** Replaces a queue's entries by those that outlived the cutoff, moving every total by what was freed. */
    method Retain(rid: string, cutoff: int)
      requires Valid() && rid in queues && cutoff <= clock - cfg.queueTtlMs
      modifies this`queues, this`history, this`bytes, this`unownedBytes, this`count
      ensures Valid()
      ensures history == old(history) + [Expired(rid, cutoff)]
      ensures queues.Keys <= old(queues.Keys)
      ensures forall r :: r in old(queues) && r != rid ==> r in queues && queues[r] == old(queues[r])
    {
      hide *;
      Opened();
      ToldIs();
      WithIs(rid);
      var was := queues[rid];
      var q := KeptQueue(was, cutoff);
      OwnersExact(owned.at, intro.at, rid);
      KeptBalanced(queues, Owners(owned.at, intro.at), bytes, count, unownedBytes, cfg, num, rid, cutoff);
      ExpiredFrom(queues, rid, cutoff, history, cfg, clock);
      var freed, removed := was.bytes - q.bytes, |was.entries| - |q.entries|;
      var owns := rid in owned.at || Flagged(intro.at, rid);
      Keep(rid, q, AtLeast0(bytes - freed), if owns then unownedBytes else AtLeast0(unownedBytes - freed),
           AtLeast0(count - AtLeast0(removed)), num, Expired(rid, cutoff));
      Pieces();
    }

    /** Drops what has outlived the TTL from one mailbox. */
    method ExpireFor(rid: string, now: int)
      requires Valid() && clock >= now
      modifies this`queues, this`history, this`bytes, this`unownedBytes, this`count
      ensures Valid()
      ensures history == old(history) || history == old(history) + [Expired(rid, now - cfg.queueTtlMs)]
      ensures rid in queues ==> forall e :: e in queues[rid].entries ==> e.ts >= now - cfg.queueTtlMs
      ensures queues.Keys <= old(queues.Keys)
      ensures forall r :: r in old(queues) && r != rid ==> r in queues && queues[r] == old(queues[r])
    {
      hide *;
      if rid !in queues {
        return;
      }
      var cutoff := now - cfg.queueTtlMs;
      var kept := Kept(queues[rid].entries, cutoff);
      AllKept(queues[rid].entries, cutoff);
      if |kept| == |queues[rid].entries| {
        return;
      }
      ghost var was := queues[rid].entries;
      Opened();
      InOf(queues, rid);
      Retain(rid, cutoff);
      Opened();
      InOf(queues, rid);
      AfterExpiry(history, rid, cutoff);
      AllKept(was, cutoff);
    }

    /** Drops what has outlived the TTL from every mailbox, then forgets owners and flags past theirs. */
    method Sweep(now: int) returns (ghost more: seq<Event>)
      requires Valid()
      modifies this`queues, this`history, this`bytes, this`unownedBytes, this`count, this`owned, this`intro, this`clock, this`steady
      ensures Valid() && clock == Later(old(clock), now) && steady == (old(steady) && now >= old(clock))
      ensures forall r, e :: r in queues && e in queues[r].entries ==> e.ts >= now - cfg.queueTtlMs
      ensures history == old(history) + more
      ensures forall i :: 0 <= i < |more| ==> more[i].Expired? && more[i].cutoff == now - cfg.queueTtlMs
      ensures forall r :: r in old(owned.order) ==> r in old(owned.at)
      ensures owned.order == Trimmed(old(owned.order), old(owned.at), cfg.ownedCap, cfg.ownedTtlMs, now)
      ensures steady ==> |owned.order| <= cfg.ownedCap && forall r :: r in owned.at ==> now - owned.at[r] <= cfg.ownedTtlMs
      ensures NoRepeat(old(intro.order)) && forall r :: r in old(intro.order) ==> r in old(intro.at)
      ensures intro.at == Lapsed(old(intro.order), old(intro.at), cfg.ownedTtlMs, now)
      ensures steady && cfg.ownedTtlMs >= 0 ==> forall r :: r in old(intro.at) ==>
        LapsedFlag(old(intro.at)[r], cfg.ownedTtlMs, now) == if r in intro.at then Some(intro.at[r]) else None
    {
      hide *;
      Tick(now);
      var rids := queues.Keys;
      ghost var done: set<string> := {};
      more := [];
      while rids != {}
        invariant Valid() && queues.Keys <= done + rids
        invariant forall r, e :: r in queues && r in done && e in queues[r].entries ==> e.ts >= now - cfg.queueTtlMs
        invariant history == old(history) + more
        invariant forall i :: 0 <= i < |more| ==> more[i].Expired? && more[i].cutoff == now - cfg.queueTtlMs
        decreases rids
        modifies this`queues, this`history, this`bytes, this`unownedBytes, this`count
      {
        var rid :| rid in rids;
        rids := rids - {rid};
        ghost var before := history;
        ExpireFor(rid, now);
        if history != before {
          more := more + [Expired(rid, now - cfg.queueTtlMs)];
        }
        done := done + {rid};
      }
      TrimOwned(now);
      TrimIntro(now);
    }

    // --- Entering a mailbox -----------------------------------------------------

    /** A mailbox never written to lately, and not there now, that no token pays for. */
    ghost predicate Unadmitted(rid: string, now: int)
      reads `queues, gate, seen
    {
      rid !in queues && !seen.Has(rid, now) && gate.Have(now) < 1.0
    }

    /** Charges a first contact: a mailbox never written to lately, and not there now, costs a token. */
    method Admit(rid: string, now: int) returns (ok: bool)
      requires Valid() && clock >= now && (steady ==> clock == now)
      modifies gate
      ensures Orderly() && Books()
      ensures ok <==> !old(Unadmitted(rid, now))
      ensures !ok ==> Valid() && Unadmitted(rid, now)
      ensures ok ==> MayHold(rid)
      ensures rid in queues || seen.Has(rid, now) ==> gate.tokens == old(gate.tokens) && gate.at == old(gate.at)
      ensures !(rid in queues || seen.Has(rid, now)) ==>
        gate.at == now && gate.tokens == old(gate.Have(now)) - (if ok then 1.0 else 0.0)
    {
      hide Balanced, QueuesOk, Mail, Owners, NoRepeat, AllDue, Receivers, Aged, TimesOf;
      var known := seen.Has(rid, now);
      if known || rid in queues {
        KnownHeld(rid, now);
        return true;
      }
      if steady {
        TakeBounded(|ever|, gate.tokens, gate.perMinute, start, gate.at, now);
      }
      assert |ever + {rid}| <= |ever| + 1 by {
        assert rid !in ever ==> |ever + {rid}| == |ever| + 1;
        assert rid in ever ==> ever + {rid} == ever;
      }
      ok := gate.Take(now);
    }

    lemma KnownHeld(rid: string, now: int)
      requires Valid() && (seen.Has(rid, now) || rid in queues)
      ensures MayHold(rid)
    {
      assert ever + {rid} == ever;
    }

    /** The books stand whether or not rid is given a mailbox. */
    ghost predicate MayHold(rid: string)
      reads `ever, `steady, `clock, gate, seen
    {
      seen.ids.at.Keys <= ever && gate.perMinute >= 0.0 && PaidFor(|ever|) && PaidFor(|ever + {rid}|)
    }

    /** The next number: everything held has a smaller one. */
    method NextNum() returns (n: nat)
      requires Valid()
      modifies this`num
      ensures Valid() && n == num == old(num) + 1 && QueuesOk(queues, cfg, num - 1)
    {
      hide *;
      Opened();
      QueuesLater(queues, cfg, num, num + 1);
      num := num + 1;
      n := num;
      Closed();
    }

    /** Nothing was stored: the books are as they were, whatever was spent. */
    lemma Settled(rid: string)
      requires Orderly() && Books() && MayHold(rid)
      ensures Valid()
    {
    }

    /** An accepted send is remembered. */
    method Remember(rid: string, now: int)
      requires Orderly() && Books() && rid in ever
      requires gate.perMinute >= 0.0 && PaidFor(|ever|) && seen.ids.at.Keys <= ever
      modifies seen
      ensures Valid()
      ensures seen.ids.order == Latest(Without(old(seen.ids.order), rid) + [rid], seen.cap)
      ensures seen.cap >= 1 ==> seen.ids.at.Keys <= old(seen.ids.at.Keys) + {rid} && rid in seen.ids.at && seen.ids.at[rid] == now
    {
      hide Balanced, QueuesOk, Mail, Books, Owners, NoRepeat, Without, PaidFor, Told, Timely;
      seen.Touch(rid, now);
    }

    /** The part of Enqueue that changes the mailbox and the totals. */
    method Store(rid: string, q: Queue, e: Entry, unowned: bool)
      requires Orderly() && Books() && MayHold(rid)
      requires unowned == !Owns(rid) && q == if rid in queues then queues[rid] else NoQueue
      requires e.num == num >= 1 && QueuesOk(queues, cfg, num - 1) && KeyOf(e, cfg.idSlots) && e.key !in q.keys
      requires e.ph.Some? ==> e.ph.value !in q.hashes
      requires |q.entries| + 1 <= cfg.maxQueueMsgs && q.bytes + e.size <= cfg.maxQueueBytes
      requires bytes + e.size <= cfg.maxStoreBytes
      modifies this`queues, this`history, this`bytes, this`unownedBytes, this`count, this`ever
      ensures Orderly() && Books() && rid in ever && PaidFor(|ever|)
      ensures seen.ids.at.Keys <= ever && gate.perMinute >= 0.0
      ensures history == old(history) + [Added(rid, e)]
      ensures rid in queues && Held(queues, rid) == old(Held(queues, rid)) + e.size
      ensures unownedBytes == old(unownedBytes) + (if unowned then e.size else 0)
    {
      hide *;
      Pieces();
      MailOk();
      BooksAre();
      ToldIs();
      MayHoldOk(rid);
      ghost var owners := Owners(owned.at, intro.at);
      OwnersExact(owned.at, intro.at, rid);
      OwnsIs(rid);
      if rid in queues {
        HeldOk(queues, cfg, num - 1, rid);
      }
      PushOk(q, e, cfg, num);
      SetBalanced(queues, owners, bytes, count, unownedBytes, rid, PushedQueue(q, e));
      AddedTo(queues, rid, e, q, history, cfg, clock);
      WithIs(rid);
      ever := ever + {rid};
      Keep(rid, PushedQueue(q, e), bytes + e.size, if unowned then unownedBytes + e.size else unownedBytes, count + 1,
           num - 1, Added(rid, e));
      HeldIs(queues, rid);
    }

    /** An attributed envelope or a receipt that is held already. */
    predicate Again(rid: string, e: Entry)
      reads `queues
    {
      Dedupes(e) && rid in queues && EntryKey(e) in queues[rid].keys
    }

    /** The mailbox is at a cap, or every key the entry could take is taken. */
    ghost predicate Full(rid: string, e: Entry, now: int)
      reads `queues, `intro
    {
      HeldCount(queues, rid) + 1 > cfg.maxQueueMsgs || Held(queues, rid) + e.size > cfg.maxQueueBytes ||
      (IntroBits(rid, now) > 0 && Held(queues, rid) + e.size > cfg.introMailboxBytes) ||
      (!Dedupes(e) && rid in queues && SlotsUsed(queues[rid].keys, EntryKey(e), cfg.idSlots))
    }

    lemma FullIs(rid: string, e: Entry, now: int)
      ensures Full(rid, e, now) <==>
        HeldCount(queues, rid) + 1 > cfg.maxQueueMsgs || Held(queues, rid) + e.size > cfg.maxQueueBytes ||
        (IntroBits(rid, now) > 0 && Held(queues, rid) + e.size > cfg.introMailboxBytes) ||
        (!Dedupes(e) && rid in queues && SlotsUsed(queues[rid].keys, EntryKey(e), cfg.idSlots))
      ensures Again(rid, e) <==> Dedupes(e) && rid in queues && EntryKey(e) in queues[rid].keys
    {
    }

    /** The budgets of what nobody owns are used up. */
    ghost predicate OverBudget(rid: string, size: nat)
      reads `queues, `owned, `intro, `unownedBytes
    {
      !Owns(rid) && (unownedBytes + size > cfg.unownedStoreBytes || Held(queues, rid) + size > cfg.unownedMailboxBytes)
    }

    lemma OverBudgetIs(rid: string, size: nat)
      ensures OverBudget(rid, size) <==>
        !Owns(rid) && (unownedBytes + size > cfg.unownedStoreBytes || Held(queues, rid) + size > cfg.unownedMailboxBytes)
    {
    }

    /** What costs a token: a mailbox that is not there and not known, past the budgets of what nobody owns. */
    ghost predicate FirstContact(rid: string, size: nat, now: int)
      reads `queues, `owned, `intro, `unownedBytes, seen
    {
      !OverBudget(rid, size) && rid !in queues && !seen.Has(rid, now)
    }

    lemma FirstContactIs(rid: string, size: nat, now: int)
      ensures FirstContact(rid, size, now) <==> !OverBudget(rid, size) && rid !in queues && !seen.Has(rid, now)
    {
    }

    /** Which limit refuses an entry, the first of them in the order they are checked, or none. */
    ghost function Verdict(rid: string, e: Entry, now: int): EnqueueResult
      reads `queues, `owned, `intro, `bytes, `unownedBytes, gate, seen
    {
      if OverBudget(rid, e.size) then UnownedRefused
      else if Unadmitted(rid, now) then MailboxRefused
      else if bytes + e.size > cfg.maxStoreBytes then StoreFull
      else if !Again(rid, e) && Full(rid, e, now) then QueueFull
      else Stored
    }

    lemma VerdictIs(rid: string, e: Entry, now: int)
      ensures Verdict(rid, e, now) ==
        if OverBudget(rid, e.size) then UnownedRefused
        else if Unadmitted(rid, now) then MailboxRefused
        else if bytes + e.size > cfg.maxStoreBytes then StoreFull
        else if !Again(rid, e) && Full(rid, e, now) then QueueFull
        else Stored
    {
    }

    /** The verdict, written out over what the relay holds: the limits in their order, each where those before it let the entry through. */
    lemma VerdictExact(rid: string, e: Entry, now: int)
      ensures var owned := rid in owned.at || (rid in intro.at && !intro.at[rid].shadow);
        var heldBytes, heldCount := if rid in queues then queues[rid].bytes else 0, if rid in queues then |queues[rid].entries| else 0;
        var known := rid in queues || (rid in seen.ids.at && now - seen.ids.at[rid] < seen.ttlMs);
        var refilled := gate.tokens + (now - gate.at) as real / 60000.0 * gate.perMinute;
        var tokens := if gate.perMinute <= refilled then gate.perMinute else refilled;
        var flagged := rid in intro.at && now - intro.at[rid].at <= 2 * cfg.ownedTtlMs && intro.at[rid].bits > 0;
        var dedupes := e.kind == Receipt || e.from.Some?;
        var again := dedupes && rid in queues && EntryKey(e) in queues[rid].keys;
        var noSlot := !dedupes && rid in queues && EntryKey(e) in queues[rid].keys &&
          forall dup :: 1 <= dup <= cfg.idSlots ==> EntryKey(e) + "#" + Dec(dup) in queues[rid].keys;
        Verdict(rid, e, now) ==
          if !owned && (unownedBytes + e.size > cfg.unownedStoreBytes || heldBytes + e.size > cfg.unownedMailboxBytes) then UnownedRefused
          else if !known && tokens < 1.0 then MailboxRefused
          else if bytes + e.size > cfg.maxStoreBytes then StoreFull
          else if again then Stored
          else if heldCount + 1 > cfg.maxQueueMsgs || heldBytes + e.size > cfg.maxQueueBytes ||
                  (flagged && heldBytes + e.size > cfg.introMailboxBytes) || noSlot then QueueFull
          else Stored
    {
      hide *;
      gate.HaveIs(now);
      VerdictIs(rid, e, now);
      FullIs(rid, e, now);
      OverBudgetIs(rid, e.size);
      VerdictParts(rid, e, now);
    }

    lemma VerdictParts(rid: string, e: Entry, now: int)
      ensures Owns(rid) <==> rid in owned.at || (rid in intro.at && !intro.at[rid].shadow)
      ensures Held(queues, rid) == (if rid in queues then queues[rid].bytes else 0)
      ensures HeldCount(queues, rid) == (if rid in queues then |queues[rid].entries| else 0)
      ensures seen.Has(rid, now) <==> rid in seen.ids.at && now - seen.ids.at[rid] < seen.ttlMs
      ensures Unadmitted(rid, now) <==> rid !in queues && !seen.Has(rid, now) && gate.Have(now) < 1.0
      ensures IntroBits(rid, now) > 0 <==> rid in intro.at && now - intro.at[rid].at <= 2 * cfg.ownedTtlMs && intro.at[rid].bits > 0
      ensures Dedupes(e) <==> e.kind == Receipt || e.from.Some?
      ensures rid in queues ==>
        (SlotsUsed(queues[rid].keys, EntryKey(e), cfg.idSlots) <==>
         EntryKey(e) in queues[rid].keys && forall dup :: 1 <= dup <= cfg.idSlots ==> EntryKey(e) + "#" + Dec(dup) in queues[rid].keys)
    {
      hide Refill, EntryKey, Dec;
      if rid in queues {
        SlotsUsedIs(queues[rid].keys, EntryKey(e), cfg.idSlots);
      }
    }

    /**
     Appends an entry to rid's mailbox, or refuses it for the first limit that is reached and
     for no other cause. `added` is the entry as it was stored; an entry that arrives twice is
     answered as stored and adds nothing.
     */
    method Enqueue(rid: string, e: Entry, now: int) returns (r: EnqueueResult, ghost added: Option<Entry>)
      requires Valid() && clock >= now && (steady ==> clock == now)
      requires e.num == num >= 1 && QueuesOk(queues, cfg, num - 1)
      requires e.ph.Some? && rid in queues ==> e.ph.value !in queues[rid].hashes
      modifies this`queues, this`history, this`bytes, this`unownedBytes, this`count, this`ever, gate, seen
      ensures Valid() && r == old(Verdict(rid, e, now))
      ensures added.Some? <==> r == Stored && !old(Again(rid, e))
      ensures added.None? ==> queues == old(queues) && history == old(history) && unownedBytes == old(unownedBytes) && bytes == old(bytes)
      ensures added.None? ==> Again(rid, e) || Verdict(rid, e, now) != Stored
      ensures added.Some? ==> added.value == e.(key := added.value.key) && KeyOf(added.value, cfg.idSlots)
      ensures added.Some? ==> history == old(history) + [Added(rid, added.value)]
      ensures added.Some? ==> Held(queues, rid) == old(Held(queues, rid)) + e.size
      ensures added.Some? && !Owns(rid) ==>
        unownedBytes <= cfg.unownedStoreBytes && Held(queues, rid) <= cfg.unownedMailboxBytes
      ensures added.Some? && IntroBits(rid, now) > 0 ==> Held(queues, rid) <= cfg.introMailboxBytes
      ensures added.Some? && seen.cap >= 1 ==> seen.Has(rid, now) || seen.ttlMs <= 0
      ensures added.Some? ==> seen.ids.order == Latest(Without(old(seen.ids.order), rid) + [rid], seen.cap)
      ensures added.None? ==> seen.ids == old(seen.ids)
      ensures old(FirstContact(rid, e.size, now)) ==>
        gate.at == now && gate.tokens == old(gate.Have(now)) - (if old(Unadmitted(rid, now)) then 0.0 else 1.0)
      ensures !old(FirstContact(rid, e.size, now)) ==> gate.tokens == old(gate.tokens) && gate.at == old(gate.at)
    {
      hide *;
      added := None;
      FirstContactIs(rid, e.size, now);
      Opened();
      HeldIs(queues, rid);
      VerdictIs(rid, e, now);
      OverBudgetIs(rid, e.size);
      var unowned := !Owns(rid);
      if unowned {
        var held := if rid in queues then queues[rid].bytes else 0;
        if unownedBytes + e.size > cfg.unownedStoreBytes || held + e.size > cfg.unownedMailboxBytes {
          return UnownedRefused, None;
        }
      }
      var ok := Admit(rid, now);
      VerdictIs(rid, e, now);
      if !ok {
        return MailboxRefused, None;
      }
      if bytes + e.size > cfg.maxStoreBytes {
        Settled(rid);
        return StoreFull, None;
      }
      FullIs(rid, e, now);
      r, added := Place(rid, e, now, unowned);
      FullIs(rid, e, now);
      VerdictIs(rid, e, now);
      Remembered(rid, now);
    }

    lemma Remembered(rid: string, now: int)
      ensures rid in seen.ids.at && seen.ids.at[rid] == now ==> seen.Has(rid, now) || seen.ttlMs <= 0
    {
    }

    /** The rest of Enqueue: its key, the mailbox's caps, and the entry itself. */
    method Place(rid: string, e: Entry, now: int, unowned: bool) returns (r: EnqueueResult, ghost added: Option<Entry>)
      requires Orderly() && Books() && MayHold(rid) && unowned == !Owns(rid)
      requires e.num == num >= 1 && QueuesOk(queues, cfg, num - 1) && bytes + e.size <= cfg.maxStoreBytes
      requires e.ph.Some? && rid in queues ==> e.ph.value !in queues[rid].hashes
      modifies this`queues, this`history, this`bytes, this`unownedBytes, this`count, this`ever, seen
      ensures Valid() && r == if !old(Again(rid, e)) && old(Full(rid, e, now)) then QueueFull else Stored
      ensures added.Some? <==> r == Stored && !old(Again(rid, e))
      ensures added.None? ==> queues == old(queues) && history == old(history) && unownedBytes == old(unownedBytes) && bytes == old(bytes)
      ensures added.Some? ==> added.value == e.(key := added.value.key) && KeyOf(added.value, cfg.idSlots)
      ensures added.Some? ==> history == old(history) + [Added(rid, added.value)]
      ensures added.Some? ==> Held(queues, rid) == old(Held(queues, rid)) + e.size
      ensures added.Some? ==> unownedBytes == old(unownedBytes) + (if unowned then e.size else 0)
      ensures added.Some? && IntroBits(rid, now) > 0 ==> Held(queues, rid) <= cfg.introMailboxBytes
      ensures added.Some? && seen.cap >= 1 ==> rid in seen.ids.at && seen.ids.at[rid] == now
      ensures added.Some? ==> seen.ids.order == Latest(Without(old(seen.ids.order), rid) + [rid], seen.cap)
      ensures added.None? ==> seen.ids == old(seen.ids)
    {
      hide *;
      added := None;
      HeldIs(queues, rid);
      FullIs(rid, e, now);
      var q := if rid in queues then queues[rid] else NoQueue;
      NoQueueIs();
      var key := EntryKey(e);
      if Dedupes(e) {
        OwnKey(e, cfg.idSlots);
        if key in q.keys {
          Settled(rid);
          return Stored, None;
        }
      } else {
        var free := FreeKey(q.keys, key, cfg.idSlots);
        if free.None? {
          Settled(rid);
          return QueueFull, None;
        }
        key := free.value;
        FreeKeyOf(e, key, cfg.idSlots);
      }
      if |q.entries| + 1 > cfg.maxQueueMsgs || q.bytes + e.size > cfg.maxQueueBytes ||
         (q.bytes + e.size > cfg.introMailboxBytes && IntroBits(rid, now) > 0) {
        Settled(rid);
        return QueueFull, None;
      }
      Store(rid, q, e.(key := key), unowned);
      Remember(rid, now);
      return Stored, Some(e.(key := key));
    }

    /** Whether a byte-identical copy of an envelope is held. */
    predicate HoldsCopy(rid: string, hash: string)
      reads `queues
    {
      rid in queues && hash in queues[rid].hashes
    }

    lemma HoldsCopyIs(rid: string, hash: string)
      ensures HoldsCopy(rid, hash) <==> rid in queues && hash in queues[rid].hashes
    {
    }

    /** What an introduction mailbox's own rules answer, if they do. */
    ghost function Guarded(to: string, size: nat, stamp: Stamp, now: int): Option<SendResult>
      reads `queues, `intro
    {
      var need := IntroBits(to, now);
      if need == 0 then None
      else if size > cfg.introEnvelopeBytes + 256 then Some(TooLarge)
      else if stamp.bits < need then Some(PowRequired(need))
      else if HoldsCopy(to, stamp.hash) then Some(AlreadyHeld)
      else None
    }

    /** What an introduction mailbox asks of a send. */
    method Guard(to: string, size: nat, stamp: Stamp, now: int) returns (r: Option<SendResult>)
      ensures r == Guarded(to, size, stamp, now)
    {
      hide *;
      HoldsCopyIs(to, stamp.hash);
      GuardedIs(to, size, stamp, now);
      var need := IntroBits(to, now);
      if need > 0 {
        if size > cfg.introEnvelopeBytes + 256 {
          return Some(TooLarge);
        }
        if stamp.bits < need {
          return Some(PowRequired(need));
        }
        if to in queues && stamp.hash in queues[to].hashes {
          return Some(AlreadyHeld);
        }
      }
      return None;
    }

    /**
     The rules of a flag, written out: they bind while its age is at most two of the owners' ages, whether it is in force or
     in its shadow; an envelope is at most 256 bytes over the cap, its stamp is of the flag's bits,
     and its payload is not held yet. A mailbox with no such flag asks for nothing.
     */
    lemma FlagRules(to: string, size: nat, stamp: Stamp, now: int)
      ensures var asks := to in intro.at && now - intro.at[to].at <= 2 * cfg.ownedTtlMs && intro.at[to].bits > 0;
        && (asks <==> IntroBits(to, now) > 0) && (asks ==> IntroBits(to, now) == intro.at[to].bits)
        && (Guarded(to, size, stamp, now) == Some(TooLarge) <==> asks && size > cfg.introEnvelopeBytes + 256)
        && (asks && size <= cfg.introEnvelopeBytes + 256 && stamp.bits < intro.at[to].bits ==>
             Guarded(to, size, stamp, now) == Some(PowRequired(intro.at[to].bits)))
        && (Guarded(to, size, stamp, now) == Some(AlreadyHeld) <==>
             asks && size <= cfg.introEnvelopeBytes + 256 && stamp.bits >= intro.at[to].bits && to in queues && stamp.hash in queues[to].hashes)
        && (Guarded(to, size, stamp, now).None? <==>
             !asks || (size <= cfg.introEnvelopeBytes + 256 && stamp.bits >= intro.at[to].bits && !(to in queues && stamp.hash in queues[to].hashes)))
    {
    }

    lemma GuardedIs(to: string, size: nat, stamp: Stamp, now: int)
      ensures var need := IntroBits(to, now);
        Guarded(to, size, stamp, now) ==
          if need == 0 then None
          else if size > cfg.introEnvelopeBytes + 256 then Some(TooLarge)
          else if stamp.bits < need then Some(PowRequired(need))
          else if HoldsCopy(to, stamp.hash) then Some(AlreadyHeld)
          else None
    {
    }

    /**
     A send: an introduction mailbox's own rules first, then the address's budget where nobody
     owns the mailbox, then the store's limits. What is refused changes nothing but the gate, which
     is asked only about a first contact that the rules and the budgets let through; only a send
     that stores an envelope is remembered.
     */
    method DeliverEnqueue(from: Option<string>, to: string, id: string, size: nat, stamp: Stamp, now: int,
                          ipOver: bool, online: bool)
      returns (r: SendResult, ghost added: Option<Entry>)
      requires Valid()
      modifies this`queues, this`history, this`bytes, this`unownedBytes, this`count, this`ever, this`num,
               this`clock, this`steady, gate, seen
      ensures Valid() && clock == Later(old(clock), now) && steady == (old(steady) && now >= old(clock))
      ensures var e := Envelope(old(num) + 1, id, from, now, size, if IntroBits(to, now) > 0 then Some(stamp.hash) else None);
        r == if old(Guarded(to, size, stamp, now)).Some? then old(Guarded(to, size, stamp, now)).value
             else if !Owns(to) && ipOver then NoRoom(true)
             else Reply(old(Verdict(to, e, now)), online, IntroBits(to, now) == 0)
      ensures var e := Envelope(old(num) + 1, id, from, now, size, if IntroBits(to, now) > 0 then Some(stamp.hash) else None);
        (added.Some? <==> r.Queued? && !old(Again(to, e))) && (added.Some? ==> added.value == e.(key := added.value.key))
      ensures added.None? ==> queues == old(queues) && history == old(history)
      ensures added.Some? ==> history == old(history) + [Added(to, added.value)] && KeyOf(added.value, cfg.idSlots)
      ensures added.Some? ==> Held(queues, to) == old(Held(queues, to)) + size
      ensures added.Some? && IntroBits(to, now) > 0 ==> Held(queues, to) <= cfg.introMailboxBytes
      ensures added.Some? && !Owns(to) ==> unownedBytes <= cfg.unownedStoreBytes && Held(queues, to) <= cfg.unownedMailboxBytes
      ensures added.None? ==> seen.ids == old(seen.ids)
      ensures var asked := old(Guarded(to, size, stamp, now)).None? && !(!Owns(to) && ipOver) && old(FirstContact(to, size, now));
        if asked then gate.at == now && gate.tokens == old(gate.Have(now)) - (if old(Unadmitted(to, now)) then 0.0 else 1.0)
        else gate.tokens == old(gate.tokens) && gate.at == old(gate.at)
      ensures old(num) <= num <= old(num) + 1
      ensures var asks := to in intro.at && now - intro.at[to].at <= 2 * cfg.ownedTtlMs && intro.at[to].bits > 0;
        (asks && size <= cfg.introEnvelopeBytes + 256 && stamp.bits < intro.at[to].bits ==> r == PowRequired(intro.at[to].bits)) &&
        (!asks ==> !r.TooLarge? && !r.PowRequired? && !r.AlreadyHeld?) &&
        (added.Some? ==> added.value.ph == if asks then Some(stamp.hash) else None)
      ensures added.Some? ==>
        var e := added.value;
        e.num == old(num) + 1 && e.kind == Msg && e.id == id && e.from == from && e.ts == now && e.size == size
    {
      hide *;
      added := None;
      Tick(now);
      var need := IntroBits(to, now);
      FlagRules(to, size, stamp, now);
      EnvelopeParts(num + 1, id, from, now, size, if need > 0 then Some(stamp.hash) else None);
      var refused := Guard(to, size, stamp, now);
      if refused.Some? {
        return refused.value, None;
      }
      r, added := Deposit(from, to, id, size, if need > 0 then Some(stamp.hash) else None, now, ipOver, online);
    }

    /** What no rule refused: a number, the budget of the address where nobody owns the mailbox, then the store. */
    method Deposit(from: Option<string>, to: string, id: string, size: nat, ph: Option<string>, now: int, ipOver: bool, online: bool)
      returns (r: SendResult, ghost added: Option<Entry>)
      requires Valid() && clock >= now && (steady ==> clock == now)
      requires ph.Some? && to in queues ==> ph.value !in queues[to].hashes
      modifies this`queues, this`history, this`bytes, this`unownedBytes, this`count, this`ever, this`num, gate, seen
      ensures Valid()
      ensures var e := Envelope(old(num) + 1, id, from, now, size, ph);
        r == if !Owns(to) && ipOver then NoRoom(true) else Reply(old(Verdict(to, e, now)), online, IntroBits(to, now) == 0)
      ensures var e := Envelope(old(num) + 1, id, from, now, size, ph);
        (added.Some? <==> r.Queued? && !old(Again(to, e))) && (added.Some? ==> added.value == e.(key := added.value.key))
      ensures added.None? ==> queues == old(queues) && history == old(history)
      ensures added.Some? ==> history == old(history) + [Added(to, added.value)] && KeyOf(added.value, cfg.idSlots)
      ensures added.Some? ==> Held(queues, to) == old(Held(queues, to)) + size
      ensures added.Some? && IntroBits(to, now) > 0 ==> Held(queues, to) <= cfg.introMailboxBytes
      ensures added.Some? && !Owns(to) ==> unownedBytes <= cfg.unownedStoreBytes && Held(queues, to) <= cfg.unownedMailboxBytes
      ensures added.None? ==> seen.ids == old(seen.ids)
      ensures if !(!Owns(to) && ipOver) && old(FirstContact(to, size, now))
        then gate.at == now && gate.tokens == old(gate.Have(now)) - (if old(Unadmitted(to, now)) then 0.0 else 1.0)
        else gate.tokens == old(gate.tokens) && gate.at == old(gate.at)
      ensures num == old(num) + 1 && !r.TooLarge? && !r.PowRequired? && !r.AlreadyHeld?
    {
      hide *;
      added := None;
      var n := NextNum();
      var e := Envelope(n, id, from, now, size, ph);
      EnvelopeIs(n, id, from, now, size, ph);
      if !Owns(to) && ipOver {
        return NoRoom(true), None;
      }
      var stored: EnqueueResult;
      stored, added := Enqueue(to, e, now);
      ReplyIs(stored, online, IntroBits(to, now) == 0);
      match stored
      case Stored => return Queued(online, !online && IntroBits(to, now) == 0), added;
      case QueueFull => return MailboxFull, added;
      case StoreFull => return NoRoom(false), added;
      case MailboxRefused => return NoRoom(false), added;
      case UnownedRefused => return NoRoom(true), added;
    }

    /**
     An acknowledgement: takes out the first envelope that answers under a key it tries, and
     leaves a receipt for an attributed one whose sender is away, if the sender's mailbox takes it.
     */
    method Ack(recipient: string, from: Option<string>, id: string, now: int, senderOnline: bool)
      returns (ok: bool, ghost taken: Option<Entry>, ghost receipt: Option<Entry>)
      requires Valid()
      modifies this`queues, this`history, this`bytes, this`unownedBytes, this`count, this`ever, this`num,
               this`clock, this`steady, gate, seen
      ensures Valid() && ok == taken.Some? && clock == Later(old(clock), now) && steady == (old(steady) && now >= old(clock))
      ensures ok ==> exists i: nat :: old(FirstAt(recipient, from, id, i, taken.value.key))
      ensures ok ==> taken.value in In(Replay(old(history)), recipient) && Answers(taken.value, from)
      ensures ok ==> (Named(taken.value, id, from) <==> !Confused(taken.value, id, cfg.idSlots))
      ensures !ok ==> forall e :: e in In(Replay(old(history)), recipient) ==> !Named(e, id, from)
      ensures history == old(history) + AckEvents(recipient, from, id, taken, receipt)
      ensures receipt.Some? ==> ok && from.Some? && !senderOnline
      ensures ok ==> taken.value.kind == Msg && taken.value.from == from
      ensures receipt.Some? ==>
        var e := receipt.value;
        e.num == old(num) + 1 && e.kind == Receipt && e.id == id && e.from == Some(recipient) && e.ts == now && e.size == 192 && e.ph == None
      ensures receipt.Some? ==> receipt.value == ReceiptFor(old(num) + 1, recipient, id, now).(key := receipt.value.key)
      ensures ok && from.Some? && !senderOnline && receipt.None? ==>
        var e := ReceiptFor(num, recipient, id, now); Again(from.value, e) || Verdict(from.value, e, now) != Stored
      ensures receipt.Some? && !Owns(from.value) ==>
        unownedBytes <= cfg.unownedStoreBytes && Held(queues, from.value) <= cfg.unownedMailboxBytes
      ensures receipt.Some? && IntroBits(from.value, now) > 0 ==> Held(queues, from.value) <= cfg.introMailboxBytes
      ensures num == old(num) + (if ok && from.Some? then 1 else 0)
      ensures !ok || from.None? || senderOnline ==>
        gate.tokens == old(gate.tokens) && gate.at == old(gate.at) && seen.ids == old(seen.ids)
    {
      hide *;
      Tick(now);
      var keys := CandidateKeys(id, from, cfg.idSlots);
      var i := 0;
      taken, receipt := None, None;
      while i < |keys|
        invariant num == old(num) && Valid() && queues == old(queues) && history == old(history) && 0 <= i <= |keys|
        invariant forall j :: 0 <= j < i ==> !AnswersAt(recipient, keys[j], from)
        modifies {}
      {
        AnswersAtIs(recipient, keys[i], from);
        if recipient in queues && keys[i] in queues[recipient].keys &&
           queues[recipient].keys[keys[i]].kind == Msg && queues[recipient].keys[keys[i]].from == from {
          break;
        }
        i := i + 1;
      }
      if i == |keys| {
        NothingNamed(recipient, from, id);
        AckNothing(recipient, from, id);
        assert history == old(history) + [];
        return false, None, None;
      }
      FirstAtIs(recipient, from, id, i);
      HeldKeyOf(recipient, keys[i]);
      AckMay(recipient, keys[i], id, from);
      var e := RemoveKey(recipient, keys[i], Acknowledged(id, from));
      AnswersIs(e.value, from);
      CandidateNames(e.value, id, from, cfg.idSlots);
      AckOne(recipient, from, id, e.value);
      if from.Some? {
        receipt := Answer(from.value, recipient, id, now, senderOnline);
        ReceiptParts(num, recipient, id, now);
      }
      AckJoined(old(history), recipient, from, id, e.value, receipt);
      return true, e, receipt;
    }

    /** The receipt of an acknowledged envelope: to its sender's socket, or else to their mailbox. */
    method Answer(from: string, recipient: string, id: string, now: int, senderOnline: bool) returns (ghost receipt: Option<Entry>)
      requires Valid() && clock >= now && (steady ==> clock == now)
      modifies this`queues, this`history, this`bytes, this`unownedBytes, this`count, this`ever, this`num, gate, seen
      ensures Valid() && num == old(num) + 1
      ensures senderOnline ==> gate.tokens == old(gate.tokens) && gate.at == old(gate.at) && seen.ids == old(seen.ids)
      ensures history == old(history) + (if receipt.Some? then [Added(from, receipt.value)] else [])
      ensures receipt.Some? ==> !senderOnline && receipt.value == ReceiptFor(num, recipient, id, now).(key := receipt.value.key)
      ensures !senderOnline && receipt.None? ==>
        var e := ReceiptFor(num, recipient, id, now); Again(from, e) || Verdict(from, e, now) != Stored
      ensures receipt.Some? && !Owns(from) ==>
        unownedBytes <= cfg.unownedStoreBytes && Held(queues, from) <= cfg.unownedMailboxBytes
      ensures receipt.Some? && IntroBits(from, now) > 0 ==> Held(queues, from) <= cfg.introMailboxBytes
    {
      hide *;
      receipt := None;
      var n := NextNum();
      var e := ReceiptFor(n, recipient, id, now);
      ReceiptIs(n, recipient, id, now);
      assert history + [] == history;
      if !senderOnline {
        var _, added := Enqueue(from, e, now);
        receipt := added;
      }
    }

    /** The entry under a key would answer the acknowledgement. */
    ghost predicate AnswersAt(rid: string, key: string, from: Option<string>)
      reads `queues
    {
      rid in queues && key in queues[rid].keys && Answers(queues[rid].keys[key], from)
    }

    /** The i-th key an acknowledgement tries is the first that answers. */
    ghost predicate FirstAt(rid: string, from: Option<string>, id: string, i: nat, key: string)
      reads `queues
    {
      i < |CandidateKeys(id, from, cfg.idSlots)| && key == CandidateKeys(id, from, cfg.idSlots)[i] && AnswersAt(rid, key, from) &&
      forall j :: 0 <= j < i ==> !AnswersAt(rid, CandidateKeys(id, from, cfg.idSlots)[j], from)
    }

    lemma FirstAtIs(rid: string, from: Option<string>, id: string, i: nat)
      requires i < |CandidateKeys(id, from, cfg.idSlots)| && AnswersAt(rid, CandidateKeys(id, from, cfg.idSlots)[i], from)
      requires forall j :: 0 <= j < i ==> !AnswersAt(rid, CandidateKeys(id, from, cfg.idSlots)[j], from)
      ensures FirstAt(rid, from, id, i, CandidateKeys(id, from, cfg.idSlots)[i])
    {
    }

    lemma AnswersAtIs(rid: string, key: string, from: Option<string>)
      ensures AnswersAt(rid, key, from) <==>
        rid in queues && key in queues[rid].keys && queues[rid].keys[key].kind == Msg && queues[rid].keys[key].from == from
    {
    }

    lemma AckMay(rid: string, key: string, id: string, from: Option<string>)
      requires AnswersAt(rid, key, from) && key in CandidateKeys(id, from, cfg.idSlots) && queues[rid].keys[key].key == key
      ensures MayLeave(queues[rid].keys[key], Acknowledged(id, from), cfg.idSlots)
    {
    }

    lemma HeldKeyOf(rid: string, key: string)
      requires Valid() && rid in queues && key in queues[rid].keys
      ensures KeyOf(queues[rid].keys[key], cfg.idSlots) && queues[rid].keys[key].key == key
    {
      hide Replay, Balanced, Lists, Paid, Told, Timely, KeyOf;
      assert QueueOk(queues[rid], cfg, num);
      KeyIndexExact(queues[rid].entries, key);
    }

    /** No candidate key answers, so nothing that is held is named. */
    lemma NothingNamed(rid: string, from: Option<string>, id: string)
      requires Valid()
      requires forall j :: 0 <= j < |CandidateKeys(id, from, cfg.idSlots)| ==>
        !AnswersAt(rid, CandidateKeys(id, from, cfg.idSlots)[j], from)
      ensures forall e :: e in In(Replay(history), rid) ==> !Named(e, id, from)
    {
      hide *;
      forall e | e in In(Replay(history), rid)
        ensures !Named(e, id, from)
      {
        if Named(e, id, from) {
          NamedAnswers(rid, e, id, from);
          assert false;
        }
      }
    }

    lemma NamedAnswers(rid: string, e: Entry, id: string, from: Option<string>)
      requires Valid() && e in In(Replay(history), rid) && Named(e, id, from)
      ensures e.key in CandidateKeys(id, from, cfg.idSlots) && AnswersAt(rid, e.key, from)
    {
      hide KeyOf, CandidateKeys, KeyIndex, Replay, Balanced, Lists, Paid, Told, Timely;
      assert QueueOk(queues[rid], cfg, num) && e in queues[rid].entries;
      NamedIsCandidate(e, id, from, cfg.idSlots);
      var i :| 0 <= i < |queues[rid].entries| && queues[rid].entries[i] == e;
      KeyFinds(queues[rid].entries, i);
    }

    /**
     The admission bound: while the clock runs forward, no more routing ids have ever had
     a mailbox than a full bucket and the time since the start pay for.
     */
    lemma AdmissionBound()
      requires Valid() && steady
      ensures |Receivers(history)| as real <= gate.perMinute + (clock - start) as real / 60000.0 * gate.perMinute
      ensures queues.Keys <= Receivers(history)
      ensures forall i :: 0 <= i < |history| && history[i].Added? ==> history[i].rid in Receivers(history)
    {
      hide Balanced, QueuesOk, Mail, Lists, Owners, AllDue, Timely;
      RefillAdds(gate.perMinute, gate.at - start, clock - gate.at);
      RefillAdds(gate.perMinute, clock - gate.at, 0);
      assert gate.at - start + (clock - gate.at) == clock - start;
    }

    /**
     What was held at some time and is not now: an envelope was acknowledged, by an
     acknowledgement that names it or is confused about it, or is past the age; a receipt was
     sent, or is past the age.
     */
    lemma Accounted(from: nat, rid: string, e: Entry)
      requires Valid() && from <= |history|
      requires e in In(Replay(history[..from]), rid) && !(rid in queues && e in queues[rid].entries)
      ensures exists i :: from <= i < |history| && LeftBy(history[i], rid, e, cfg, clock)
    {
      hide *;
      Opened();
      ToldIs();
      InOf(queues, rid);
      Retained(history, cfg, clock, from, rid, e);
    }

    // --- Flushing -------------------------------------------------------------

    /** An entry that is held is put on its mailbox's socket. */
    ghost method Frame(rid: string, e: Entry)
      requires Valid() && e in In(Replay(history), rid)
      modifies this`history
      ensures Valid() && history == old(history) + [Framed(rid, e)]
    {
      hide *;
      Opened();
      ToldIs();
      FrameDue(history, rid, e, cfg, clock);
      DueNext(history, Framed(rid, e), cfg, clock);
      FrameNothing(history, rid, e);
      history := history + [Framed(rid, e)];
      ToldIs();
      Closed();
    }

    /** A call that runs while a page drains. */
    method Run(call: Call) returns (ghost part: Part)
      requires Valid()
      modifies this`queues, this`history, this`bytes, this`unownedBytes, this`count, this`ever, this`num, this`owned, this`intro,
               this`clock, this`steady, gate, seen
      ensures Valid() && num >= old(num) && history == old(history) + part.events && AllNewer(part.events, old(num))
      ensures Did(call, part.events, cfg) && Heeded(old(history), call, part, cfg)
      ensures clock == Later(old(clock), call.now) && steady == (old(steady) && call.now >= old(clock))
    {
      hide *;
      match call
      case Acknowledge(recipient, from, id, now, senderOnline) =>
        var ok, taken, receipt := Ack(recipient, from, id, now, senderOnline);
        part := Part(AckEvents(recipient, from, id, taken, receipt), AckAnswer(ok));
        AckDid(recipient, from, id, now, senderOnline, taken, receipt, old(num), cfg);
        AckHeeded(old(history), recipient, from, id, now, senderOnline, ok, taken, receipt, cfg);
      case Send(from, to, id, size, stamp, now, ipOver, online) =>
        ghost var ph := if IntroBits(to, now) > 0 then Some(stamp.hash) else None;
        ghost var again := Again(to, Envelope(num + 1, id, from, now, size, ph));
        AgainHeld(to, Envelope(num + 1, id, from, now, size, ph));
        var result, added := DeliverEnqueue(from, to, id, size, stamp, now, ipOver, online);
        part := Part(if added.Some? then [Added(to, added.value)] else [], SendAnswer(result));
        SendHeeded(old(history), from, to, id, size, stamp, now, ipOver, online, ph, old(num), again, result, added, cfg);
        SendDid(from, to, id, size, stamp, now, ipOver, online, ph, added, old(num), cfg);
        assert old(history) + [] == old(history);
      case Sweep(now) =>
        ghost var more := Sweep(now);
        part := Part(more, NoAnswer);
        SweepDid(now, more, old(num), cfg);
        HeldIsReplayed();
        SweepHeeded(old(history), now, more, cfg);
    }

    lemma AgainHeld(rid: string, e: Entry)
      requires Valid()
      ensures Again(rid, e) ==> Dedupes(e) && HeldUnder(In(Replay(history), rid), EntryKey(e))
    {
      hide Replay, Balanced, Lists, Paid, Told, Timely, KeyOf;
      if Again(rid, e) {
        assert QueueOk(queues[rid], cfg, num);
        KeyIndexExact(queues[rid].entries, EntryKey(e));
        assert In(Replay(history), rid) == queues[rid].entries;
      }
    }

    /** What the queues hold is what the history says. */
    lemma HeldIsReplayed()
      requires Valid()
      ensures forall rid, e :: e in In(Replay(history), rid) ==> rid in queues && e in queues[rid].entries
    {
      hide Replay, Balanced, Lists, Paid, Told, Timely, QueuesOk;
    }

    /** The calls that run while a page drains. */
    method Meanwhile(calls: seq<Call>, ghost from: nat, ghost num0: nat, ghost rid: string, ghost k: nat, ghost turns: seq<nat>,
                     ghost sent: seq<Entry>, ghost clock0: int, ghost steady0: bool, ghost times: seq<int>)
      returns (ghost parts: seq<Part>)
      requires Valid() && num >= num0 && Flushing(history, from, num0, rid, k, turns, sent)
      requires ClockAt(clock0, steady0, times)
      modifies this`queues, this`history, this`bytes, this`unownedBytes, this`count, this`ever, this`num, this`owned, this`intro,
               this`clock, this`steady, gate, seen
      ensures Valid() && num >= num0 && Flushing(history, from, num0, rid, k, turns, sent)
      ensures history == old(history) + Joined(parts) && AllDid(calls, parts, cfg) && AllHeeded(old(history), calls, parts, cfg)
      ensures ClockAt(clock0, steady0, times + Times(calls))
    {
      hide *;
      parts := [];
      NoTimes(calls, times);
      DidNothing(calls, history, cfg);
      HeededNothing(history, calls, cfg);
      for i := 0 to |calls|
        invariant Valid() && num >= num0 && Flushing(history, from, num0, rid, k, turns, sent)
        invariant history == old(history) + Joined(parts) && AllDid(calls[..i], parts, cfg)
        invariant AllHeeded(old(history), calls[..i], parts, cfg)
        invariant ClockAt(clock0, steady0, times + Times(calls[..i]))
      {
        ghost var before, n := history, num;
        ClockAtIs(clock0, steady0, times + Times(calls[..i]), calls[i].now);
        ghost var more := Run(calls[i]);
        NewerStill(more.events, num0, n);
        FlushMore(before, more.events, from, num0, rid, k, turns, sent);
        DidNext(calls, i, parts, more, cfg);
        HeededNext(old(history), calls, i, parts, more, cfg);
        JoinedNext(old(history), parts, more);
        parts := parts + [more];
        TimesJoin(times, calls, i);
        ClockAtIs(clock0, steady0, times + Times(calls[..i + 1]), 0);
      }
      assert calls[..|calls|] == calls;
    }

    /** The clock after these readings. */
    ghost predicate ClockAt(clock0: int, steady0: bool, times: seq<int>)
      reads `clock, `steady
    {
      clock == LatestOf(clock0, times) && steady == (steady0 && Forward(clock0, times))
    }

    lemma ClockAtIs(clock0: int, steady0: bool, times: seq<int>, now: int)
      ensures ClockAt(clock0, steady0, times) <==> clock == LatestOf(clock0, times) && steady == (steady0 && Forward(clock0, times))
      ensures LatestOf(clock0, times + [now]) == Later(LatestOf(clock0, times), now)
      ensures Forward(clock0, times + [now]) <==> Forward(clock0, times) && now >= LatestOf(clock0, times)
    {
      ReadAgain(clock0, times, now);
    }

    /**
     Sends a mailbox to the socket that came for it, a page at a time. While a full page
     drains other calls run: `gaps` says, for each wait, which calls arrive and whether the
     socket came through; `sends` says which frames the socket takes.

     What is sent is exactly what was held, of the snapshot at `from`, when its turn came, up to
     entry `upto`, and its frame is what happened at that turn. All that happened since is the
     frames, each sent receipt's drop right after its own, and, in each wait, what its calls did.
     `pages` is how much was sent before each wait, `ran` what each call of it did and answered,
     which is what it had to do, given what was held then. The walk stops short only where the socket fails.
     */
    method Flush(rid: string, now: int, sends: seq<bool>, gaps: seq<Gap>)
      returns (sent: seq<Entry>, ghost from: nat, ghost upto: nat, ghost turns: seq<nat>, ghost pages: seq<nat>,
               ghost ran: seq<seq<Part>>)
      requires Valid()
      modifies this`queues, this`history, this`bytes, this`unownedBytes, this`count, this`ever, this`num, this`owned, this`intro,
               this`clock, this`steady, gate, seen
      ensures Valid() && from <= |history|
      ensures history[..from] == old(history) || history[..from] == old(history) + [Expired(rid, now - cfg.queueTtlMs)]
      ensures forall e :: e in In(Replay(history[..from]), rid) ==> e.ts >= now - cfg.queueTtlMs
      ensures WovenSince(history, history[..from], rid, sent, pages, gaps, ran, cfg) && Frames(history[from..]) == sent
      ensures Flushing(history, from, old(num), rid, upto, turns, sent)
      ensures var entries := In(Replay(history[..from]), rid);
        |turns| == upto <= |entries| && forall i :: 0 <= i < upto ==>
          from <= turns[i] <= |history| && (entries[i] in sent <==> entries[i] in In(Replay(history[..turns[i]]), rid))
      ensures Paged(sent, pages, cfg) && |pages| <= |gaps|
      ensures |sent| <= |sends| && (forall i :: 0 <= i < |sent| ==> sends[i]) && forall i :: 0 <= i < |pages| - 1 ==> gaps[i].drained
      ensures upto < |In(Replay(history[..from]), rid)| ==> Stopped(sent, sends, pages, gaps, cfg)
      ensures var n := |In(Replay(history[..from]), rid)|;
        |sends| > n && |gaps| > n + 1 && (forall i :: 0 <= i < |sends| ==> sends[i]) && (forall i :: 0 <= i < |gaps| ==> gaps[i].drained) ==>
        upto == n
      ensures ClockAt(old(clock), old(steady), [now] + Readings(gaps[..|pages|]))
    {
      hide *;
      ghost var num0, clock0, steady0 := num, clock, steady;
      Tick(now);
      ExpireFor(rid, now);
      from, upto := |history|, 0;
      sent, turns, pages, ran := [], [], [], [];
      ghost var start := history;
      assert start[..from] == start && old(history) + [] == old(history);
      Opened();
      InOf(queues, rid);
      MailboxOrder(rid);
      FlushStart(start, num0, rid);
      PagingStart(cfg);
      SinceStart(start, rid, gaps, cfg);
      FirstReading(clock0, steady0, now, gaps);
      SocketStart(sends, gaps);
      PagingIs([], [], 0, 0, cfg);
      if rid in queues {
        AtStart(start, num0, rid, queues[rid].entries);
        sent, upto, turns, pages, ran := SendPages(rid, queues[rid].entries, sends, gaps, start, num0, clock0, steady0, now);
        NeverStopped(sent, sends, pages, gaps, cfg);
      }
      SinceFrames(history, start, rid, sent, pages, gaps, ran, cfg);
      SocketIs(sends, gaps, |sent|, if pages == [] then 0 else |pages| - 1);
      FlushedIs(history, from, num0, rid, upto, turns, sent);
    }

    /** The walk of a flush over the snapshot. */
    method SendPages(rid: string, entries: seq<Entry>, sends: seq<bool>, gaps: seq<Gap>, ghost start: seq<Event>, ghost num0: nat,
                     ghost clock0: int, ghost steady0: bool, ghost now: int)
      returns (sent: seq<Entry>, ghost upto: nat, ghost turns: seq<nat>, ghost pages: seq<nat>, ghost ran: seq<seq<Part>>)
      requires Valid() && num >= num0 && history == start
      requires FlushAt(history, start, num0, rid, entries, set e | e in entries :: e.num, 0, [], [])
      requires ClockAt(clock0, steady0, [now] + Readings(gaps[..0]))
      modifies this`queues, this`history, this`bytes, this`unownedBytes, this`count, this`ever, this`num, this`owned, this`intro,
               this`clock, this`steady, gate, seen
      ensures Valid() && |start| <= |history| && history[..|start|] == start && Flushing(history, |start|, num0, rid, upto, turns, sent)
      ensures WovenSince(history, start, rid, sent, pages, gaps, ran, cfg)
      ensures Paged(sent, pages, cfg) && Accepted(sends, |sent|) && |pages| <= |gaps| && (pages != [] ==> Drained(gaps, |pages| - 1))
      ensures |sent| <= upto <= |entries| && |pages| <= upto + 1
      ensures upto < |entries| ==> Stopped(sent, sends, pages, gaps, cfg)
      ensures ClockAt(clock0, steady0, [now] + Readings(gaps[..|pages|]))
    {
      hide *;
      sent, turns, pages, ran := [], [], [], [];
      var live := set e | e in entries :: e.num;
      var count, bytes, gap, k := 0, 0, 0, 0;
      PagingStart(cfg);
      SinceStart(start, rid, gaps, cfg);
      SocketStart(sends, gaps);
      while k < |entries|
        invariant Valid() && |sent| <= k <= |entries| && gap == |pages| <= |gaps| && gap <= k && num >= num0
        invariant FlushAt(history, start, num0, rid, entries, live, k, turns, sent)
        invariant WovenSince(history, start, rid, sent, pages, gaps, ran, cfg)
        invariant Paging(sent, pages, count, bytes, cfg)
        invariant Accepted(sends, |sent|) && Drained(gaps, gap)
        invariant ClockAt(clock0, steady0, [now] + Readings(gaps[..gap]))
      {
        var e := entries[k];
        PagingFull(sent, pages, count, bytes, cfg);
        StoppedIs(sent, sends, pages, gaps, cfg);
        if count >= cfg.flushPage || bytes >= cfg.flushHighWaterBytes {
          if gap == |gaps| {
            break;
          }
          DrainedNext(gaps, gap);
          live, ran := Wait(gaps, gap, start, num0, rid, entries, live, k, turns, sent, pages, ran, clock0, steady0, now);
          pages := pages + [|sent|];
          count, bytes, gap := 0, 0, gap + 1;
          StoppedIs(sent, sends, pages, gaps, cfg);
          if !gaps[gap - 1].drained {
            break;
          }
        }
        if e.num in live {
          if |sent| >= |sends| || !sends[|sent|] {
            break;
          }
          AcceptedNext(sends, |sent|);
          PagingSend(sent, pages, count, bytes, cfg, e);
          PagesWithin(sent, pages, count, bytes, cfg);
          SinceSend(history, start, rid, sent, pages, gaps, ran, cfg, e);
          ghost var turns' := turns + [|history|];
          SendOne(rid, e, start, entries, k, live, num0, turns, sent, k + 1, turns', sent + [e]);
          sent, turns := sent + [e], turns';
          count, bytes := count + 1, bytes + e.size;
        } else {
          AtSkip(history, start, num0, rid, entries, live, k, turns, sent);
          turns := turns + [|history|];
        }
        k := k + 1;
      }
      upto := k;
      DrainedLess(gaps, gap);
      PagingIs(sent, pages, count, bytes, cfg);
      AtMeans(history, start, num0, rid, entries, live, k, turns, sent);
    }

    /** A wait: the calls that arrive run, and what is still held is read again. */
    method Wait(gaps: seq<Gap>, gap: nat, ghost start: seq<Event>, ghost num0: nat, rid: string, ghost entries: seq<Entry>,
                ghost live: set<nat>, ghost k: nat, ghost turns: seq<nat>, ghost sent: seq<Entry>, ghost pages: seq<nat>,
                ghost ran: seq<seq<Part>>, ghost clock0: int, ghost steady0: bool, ghost now: int)
      returns (live': set<nat>, ghost ran': seq<seq<Part>>)
      requires gap < |gaps| && gap == |pages|
      requires Valid() && num >= num0 && FlushAt(history, start, num0, rid, entries, live, k, turns, sent)
      requires WovenSince(history, start, rid, sent, pages, gaps, ran, cfg)
      requires ClockAt(clock0, steady0, [now] + Readings(gaps[..gap]))
      modifies this`queues, this`history, this`bytes, this`unownedBytes, this`count, this`ever, this`num, this`owned, this`intro,
               this`clock, this`steady, gate, seen
      ensures Valid() && num >= num0 && FlushAt(history, start, num0, rid, entries, live', k, turns, sent)
      ensures WovenSince(history, start, rid, sent, pages + [|sent|], gaps, ran', cfg)
      ensures ClockAt(clock0, steady0, [now] + Readings(gaps[..gap + 1]))
    {
      hide *;
      ghost var before := history;
      AtMeans(before, start, num0, rid, entries, live, k, turns, sent);
      ReadingsNext([now], gaps, gap);
      ghost var parts := Meanwhile(gaps[gap].calls, |start|, num0, rid, k, turns, sent, clock0, steady0, [now] + Readings(gaps[..gap]));
      SinceWait(before, start, rid, sent, pages, gaps, ran, cfg, parts);
      ran' := ran + [parts];
      live' := Numbers(rid);
      AtMore(before, history, start, num0, rid, entries, live, live', k, turns, sent);
    }

    /** A frame; a receipt is dropped once it has been sent, an envelope stays. */
    method SendOne(rid: string, e: Entry, ghost start: seq<Event>, ghost entries: seq<Entry>, ghost k: nat, ghost live: set<nat>,
                   ghost num0: nat, ghost turns: seq<nat>, ghost sent: seq<Entry>,
                   ghost k': nat, ghost turns': seq<nat>, ghost sent': seq<Entry>)
      requires k < |entries| && entries[k] == e && e.num in live
      requires k' == k + 1 && turns' == turns + [|history|] && sent' == sent + [e]
      requires Valid() && FlushAt(history, start, num0, rid, entries, live, k, turns, sent)
      modifies this`queues, this`history, this`bytes, this`unownedBytes, this`count
      ensures Valid() && FlushAt(history, start, num0, rid, entries, live, k', turns', sent')
      ensures history == old(history) + OneFrame(rid, e)
    {
      hide *;
      MailboxOrder(rid);
      AtFrame(history, start, num0, rid, entries, live, k, turns, sent, e, num);
      OneFrameIs(rid, e);
      Frame(rid, e);
      if e.kind == Receipt {
        HeldAtKey(rid, e);
        SentMay(e, cfg.idSlots);
        var _ := RemoveKey(rid, e.key, Sent);
        assert old(history) + [Framed(rid, e)] + [Taken(rid, e, Sent)] == old(history) + [Framed(rid, e), Taken(rid, e, Sent)];
      }
    }

    /** The numbers a mailbox holds now. */
    method Numbers(rid: string) returns (live: set<nat>)
      requires Valid()
      ensures forall n :: n in live <==> exists x :: x in In(Replay(history), rid) && x.num == n
    {
      hide Replay, Balanced, Lists, Paid, QueuesOk, Told, Timely;
      live := if rid in queues then set x | x in queues[rid].entries :: x.num else {};
    }

    lemma MailboxOrder(rid: string)
      requires Valid()
      ensures Numbered(In(Replay(history), rid), num)
    {
      hide Replay, Balanced, Lists, Paid, Told, Timely, Indexed, KeyOf;
      assert rid in queues ==> QueueOk(queues[rid], cfg, num);
    }

    lemma HeldAtKey(rid: string, e: Entry)
      requires Valid() && e in In(Replay(history), rid)
      ensures rid in queues && e.key in queues[rid].keys && queues[rid].keys[e.key] == e
    {
      hide Replay, Balanced, Lists, Paid, Told, Timely, KeyOf, KeyIndex;
      assert QueueOk(queues[rid], cfg, num);
      var i :| 0 <= i < |queues[rid].entries| && queues[rid].entries[i] == e;
      KeyFinds(queues[rid].entries, i);
    }

    lemma FirstReading(clock0: int, steady0: bool, now: int, gaps: seq<Gap>)
      requires clock == Later(clock0, now) && steady == (steady0 && now >= clock0)
      ensures ClockAt(clock0, steady0, [now] + Readings(gaps[..0]))
    {
      hide LatestOf, Forward;
      assert gaps[..0] == [] && [now] + [] == [] + [now];
      ReadAgain(clock0, [], now);
      NothingRead(clock0);
    }
  }

  // --- What is sent and answered --------------------------------------------------

  function Envelope(num: nat, id: string, from: Option<string>, now: int, size: nat, ph: Option<string>): Entry {
    Entry(num, Msg, id, from, now, size, ph, "")
  }

  lemma EnvelopeParts(num: nat, id: string, from: Option<string>, now: int, size: nat, ph: Option<string>)
    ensures forall key :: var e := Envelope(num, id, from, now, size, ph).(key := key);
      e.num == num && e.kind == Msg && e.id == id && e.from == from && e.ts == now && e.size == size && e.ph == ph
  {
  }

  lemma ReceiptParts(num: nat, recipient: string, id: string, now: int)
    ensures forall key :: var e := ReceiptFor(num, recipient, id, now).(key := key);
      e.num == num && e.kind == Receipt && e.id == id && e.from == Some(recipient) && e.ts == now && e.size == 192 && e.ph == None
  {
  }

  lemma EnvelopeIs(num: nat, id: string, from: Option<string>, now: int, size: nat, ph: Option<string>)
    ensures Envelope(num, id, from, now, size, ph).num == num && Envelope(num, id, from, now, size, ph).ph == ph
    ensures Envelope(num, id, from, now, size, ph).size == size
  {
  }

  /** Who confirmed receipt is the party of a receipt. */
  function ReceiptFor(num: nat, recipient: string, id: string, now: int): Entry {
    Entry(num, Receipt, id, Some(recipient), now, 192, None, "")
  }

  lemma ReceiptIs(num: nat, recipient: string, id: string, now: int)
    ensures ReceiptFor(num, recipient, id, now).num == num && ReceiptFor(num, recipient, id, now).ph == None
  {
  }

  /** What a sender is told. */
  function Reply(v: EnqueueResult, live: bool, wakes: bool): SendResult {
    match v
    case Stored => Queued(live, !live && wakes)
    case QueueFull => MailboxFull
    case StoreFull => NoRoom(false)
    case MailboxRefused => NoRoom(false)
    case UnownedRefused => NoRoom(true)
  }

  lemma ReplyIs(v: EnqueueResult, live: bool, wakes: bool)
    ensures Reply(v, live, wakes) == match v
      case Stored => Queued(live, !live && wakes)
      case QueueFull => MailboxFull
      case StoreFull => NoRoom(false)
      case MailboxRefused => NoRoom(false)
      case UnownedRefused => NoRoom(true)
  {
  }

  /** What an acknowledgement adds to the history: the envelope left, and its receipt may have entered. */
  ghost function AckEvents(recipient: string, from: Option<string>, id: string, taken: Option<Entry>, receipt: Option<Entry>): seq<Event> {
    (if taken.Some? then [Taken(recipient, taken.value, Acknowledged(id, from))] else []) +
    (if receipt.Some? && from.Some? then [Added(from.value, receipt.value)] else [])
  }

  lemma AckNothing(recipient: string, from: Option<string>, id: string)
    ensures AckEvents(recipient, from, id, None, None) == []
  {
  }

  lemma AckOne(recipient: string, from: Option<string>, id: string, e: Entry)
    ensures AckEvents(recipient, from, id, Some(e), None) == [Taken(recipient, e, Acknowledged(id, from))]
  {
  }

  lemma AckJoined(before: seq<Event>, recipient: string, from: Option<string>, id: string, e: Entry, receipt: Option<Entry>)
    requires receipt.Some? ==> from.Some?
    ensures before + [Taken(recipient, e, Acknowledged(id, from))] + (if receipt.Some? then [Added(from.value, receipt.value)] else []) ==
      before + AckEvents(recipient, from, id, Some(e), receipt)
  {
  }

  lemma AckDid(recipient: string, from: Option<string>, id: string, now: int, senderOnline: bool, taken: Option<Entry>,
               receipt: Option<Entry>, num: nat, cfg: Config)
    requires receipt.Some? ==> taken.Some? && from.Some? && !senderOnline
    requires receipt.Some? ==> receipt.value == ReceiptFor(num + 1, recipient, id, now).(key := receipt.value.key)
    ensures AllNewer(AckEvents(recipient, from, id, taken, receipt), num)
    ensures Did(Acknowledge(recipient, from, id, now, senderOnline), AckEvents(recipient, from, id, taken, receipt), cfg)
  {
  }

  lemma SendDid(from: Option<string>, to: string, id: string, size: nat, stamp: Stamp, now: int, ipOver: bool, online: bool,
                ph: Option<string>, added: Option<Entry>, num: nat, cfg: Config)
    requires added.Some? ==> added.value == Envelope(num + 1, id, from, now, size, ph).(key := added.value.key)
    ensures var more := if added.Some? then [Added(to, added.value)] else [];
      AllNewer(more, num) && Did(Send(from, to, id, size, stamp, now, ipOver, online), more, cfg)
  {
  }

  lemma SweepDid(now: int, more: seq<Event>, num: nat, cfg: Config)
    requires forall i :: 0 <= i < |more| ==> more[i].Expired? && more[i].cutoff == now - cfg.queueTtlMs
    ensures AllNewer(more, num) && Did(FlushOrder.Sweep(now), more, cfg)
  {
  }

  lemma AckHeeded(before: seq<Event>, recipient: string, from: Option<string>, id: string, now: int, senderOnline: bool, ok: bool,
                  taken: Option<Entry>, receipt: Option<Entry>, cfg: Config)
    requires ok == taken.Some? && (receipt.Some? ==> ok)
    requires !ok ==> forall e :: e in In(Replay(before), recipient) ==> !Named(e, id, from)
    ensures Heeded(before, Acknowledge(recipient, from, id, now, senderOnline),
                   Part(AckEvents(recipient, from, id, taken, receipt), AckAnswer(ok)), cfg)
  {
    hide Replay, In, Named;
  }

  lemma SendHeeded(before: seq<Event>, from: Option<string>, to: string, id: string, size: nat, stamp: Stamp, now: int, ipOver: bool,
                   online: bool, ph: Option<string>, num: nat, again: bool, result: SendResult, added: Option<Entry>, cfg: Config)
    requires added.Some? <==> result.Queued? && !again
    requires var e := Envelope(num + 1, id, from, now, size, ph); again ==> Dedupes(e) && HeldUnder(In(Replay(before), to), EntryKey(e))
    ensures Heeded(before, Send(from, to, id, size, stamp, now, ipOver, online),
                   Part(if added.Some? then [Added(to, added.value)] else [], SendAnswer(result)), cfg)
  {
    hide Replay, In, HeldUnder;
  }

  lemma SweepHeeded(before: seq<Event>, now: int, more: seq<Event>, cfg: Config)
    requires forall rid, e :: e in In(Replay(before + more), rid) ==> e.ts >= now - cfg.queueTtlMs
    ensures Heeded(before, FlushOrder.Sweep(now), Part(more, NoAnswer), cfg)
  {
  }

  lemma FrameDue(history: seq<Event>, rid: string, e: Entry, cfg: Config, clock: int)
    requires e in In(Replay(history), rid)
    ensures Due(history, Framed(rid, e), cfg, clock)
  {
  }

  lemma NewerStill(more: seq<Event>, num: nat, num': nat)
    requires AllNewer(more, num') && num <= num'
    ensures AllNewer(more, num)
  {
  }

  lemma NoTimes(calls: seq<Call>, times: seq<int>)
    ensures times + Times(calls[..0]) == times
  {
  }

  lemma TimesJoin(times: seq<int>, calls: seq<Call>, i: nat)
    requires i < |calls|
    ensures times + Times(calls[..i + 1]) == times + Times(calls[..i]) + [calls[i].now]
  {
    TimesNext(calls, i);
  }

  lemma SentMay(e: Entry, slots: nat)
    requires e.kind == Receipt
    ensures MayLeave(e, Sent, slots)
  {
  }

  lemma AnswersIs(e: Entry, from: Option<string>)
    ensures Answers(e, from) <==> e.kind == Msg && e.from == from
  {
  }

  /** Every key an unattributed entry could take is taken. */
  ghost predicate SlotsUsed(keys: map<string, Entry>, base: string, slots: nat) {
    base in keys && forall dup :: 1 <= dup <= slots ==> SlotKey(base, dup) in keys
  }

  lemma SlotsUsedIs(keys: map<string, Entry>, base: string, slots: nat)
    ensures SlotsUsed(keys, base, slots) <==> base in keys && forall dup: nat :: 1 <= dup <= slots ==> base + "#" + Dec(dup) in keys
  {
    SlotNames(base);
    if SlotsUsed(keys, base, slots) {
      forall dup: nat | 1 <= dup <= slots
        ensures base + "#" + Dec(dup) in keys
      {
        assert SlotKey(base, dup) in keys;
      }
    } else if base in keys {
      var dup :| 1 <= dup <= slots && SlotKey(base, dup) !in keys;
      assert base + "#" + Dec(dup) !in keys;
    }
  }

  lemma SlotNames(base: string)
    ensures forall dup: nat :: SlotKey(base, dup) == base + "#" + Dec(dup)
  {
  }

  /** The first of the base and its numbered slots that is free. */
  method FreeKey(keys: map<string, Entry>, base: string, slots: nat) returns (free: Option<string>)
    ensures free.Some? ==> free.value !in keys
    ensures free.Some? ==> free.value == base || exists dup :: 1 <= dup <= slots && free.value == SlotKey(base, dup)
    ensures free.None? <==> SlotsUsed(keys, base, slots)
    ensures free.None? ==> base in keys
  {
    var key, dup := base, 1;
    while key in keys
      invariant 1 <= dup <= slots + 1
      invariant key == if dup == 1 then base else SlotKey(base, dup - 1)
      invariant dup > 1 ==> base in keys
      invariant forall d :: 1 <= d < dup - 1 ==> SlotKey(base, d) in keys
      decreases slots + 1 - dup
    {
      if dup > slots {
        forall d | 1 <= d <= slots
          ensures SlotKey(base, d) in keys
        {
          assert d == dup - 1 ==> SlotKey(base, d) == key;
        }
        return None;
      }
      key := SlotKey(base, dup);
      dup := dup + 1;
    }
    return Some(key);
  }

  lemma OwnKey(e: Entry, slots: nat)
    ensures KeyOf(e.(key := EntryKey(e)), slots)
  {
    var k := e.(key := EntryKey(e));
    assert EntryKey(k) == EntryKey(e);
  }

  lemma FreeKeyOf(e: Entry, key: string, slots: nat)
    requires !Dedupes(e)
    requires key == EntryKey(e) || exists dup :: 1 <= dup <= slots && key == SlotKey(EntryKey(e), dup)
    ensures KeyOf(e.(key := key), slots)
  {
    var k := e.(key := key);
    assert EntryKey(k) == EntryKey(e) && Dedupes(k) == Dedupes(e);
  }

  /** The index of an entry that is held. */
  method IndexOf(entries: seq<Entry>, e: Entry, key: string) returns (i: nat)
    requires Apart(entries) && key in KeyIndex(entries) && e == KeyIndex(entries)[key]
    ensures i < |entries| && entries[i] == e && e.key == key
  {
    KeyIndexExact(entries, key);
    i := 0;
    while entries[i] != e
      invariant i < |entries| && e !in entries[..i]
      decreases |entries| - i
    {
      assert entries == entries[..i] + [entries[i]] + entries[i + 1..];
      i := i + 1;
    }
  }

  lemma NoQueueIs()
    ensures NoQueue.entries == [] && NoQueue.bytes == 0 && NoQueue.keys == map[] && NoQueue.hashes == map[]
  {
  }

  lemma HeldIs(qs: Queues, rid: string)
    ensures Held(qs, rid) == if rid in qs then qs[rid].bytes else 0
    ensures HeldCount(qs, rid) == if rid in qs then |qs[rid].entries| else 0
  {
  }

  lemma HeldOk(qs: Queues, cfg: Config, num: int, rid: string)
    requires QueuesOk(qs, cfg, num) && rid in qs
    ensures QueueOk(qs[rid], cfg, num) && Apart(qs[rid].entries) && qs[rid].keys == KeyIndex(qs[rid].entries)
    ensures Held(qs, rid) == qs[rid].bytes && HeldCount(qs, rid) == |qs[rid].entries|
  {
    assert QueueOk(qs[rid], cfg, num);
  }

  lemma TakenFrom(qs: Queues, rid: string, e: Entry, why: Why, before: seq<Event>, cfg: Config, clock: int)
    requires rid in qs
    ensures ContentsOf(qs) == Replay(before) && e in qs[rid].entries && KeyOf(e, cfg.idSlots) && MayLeave(e, why, cfg.idSlots) ==>
      (why == Sent ==> before != [] && before[|before| - 1] == Framed(rid, e)) ==> Due(before, Taken(rid, e, why), cfg, clock)
    ensures forall c :: c == ContentsOf(qs) ==> Apply(c, Taken(rid, e, why)) == Put(c, rid, Minus(qs[rid].entries, e))
    ensures forall c :: c == ContentsOf(qs) && e in qs[rid].entries ==> e in In(c, rid)
  {
  }

  lemma ExpiredFrom(qs: Queues, rid: string, cutoff: int, before: seq<Event>, cfg: Config, clock: int)
    requires rid in qs
    ensures cutoff <= clock - cfg.queueTtlMs ==> Due(before, Expired(rid, cutoff), cfg, clock)
    ensures forall c :: c == ContentsOf(qs) ==>
      Apply(c, Expired(rid, cutoff)) == Put(c, rid, KeptQueue(qs[rid], cutoff).entries)
  {
  }

  lemma InOf(qs: Queues, rid: string)
    ensures forall c :: c == ContentsOf(qs) ==> In(c, rid) == if rid in qs then qs[rid].entries else []
  {
  }

  lemma AfterExpiry(history: seq<Event>, rid: string, cutoff: int)
    requires history != [] && history[|history| - 1] == Expired(rid, cutoff)
    ensures In(Replay(history), rid) == Kept(In(Replay(history[..|history| - 1]), rid), cutoff)
  {
  }

  lemma AllKept(entries: seq<Entry>, cutoff: int)
    ensures forall e :: e in Kept(entries, cutoff) ==> e.ts >= cutoff
    ensures |Kept(entries, cutoff)| == |entries| ==> Kept(entries, cutoff) == entries
  {
    KeptSums(entries, cutoff);
    forall e | e in Kept(entries, cutoff)
      ensures e.ts >= cutoff
    {
      KeptIn(entries, cutoff, e);
    }
  }

  lemma AddedTo(qs: Queues, rid: string, e: Entry, q: Queue, before: seq<Event>, cfg: Config, clock: int)
    requires q == if rid in qs then qs[rid] else NoQueue
    ensures KeyOf(e, cfg.idSlots) ==> Due(before, Added(rid, e), cfg, clock)
    ensures forall c :: c == ContentsOf(qs) ==> Apply(c, Added(rid, e)) == Put(c, rid, PushedQueue(q, e).entries)
    ensures Held(qs, rid) == q.bytes && HeldCount(qs, rid) == |q.entries|
    ensures PushedQueue(q, e).entries != [] && PushedQueue(q, e).bytes == q.bytes + e.size
    ensures |PushedQueue(q, e).entries| == |q.entries| + 1
    ensures q == NoQueue ==> q.bytes == 0 && q.entries == [] && q.keys == map[] && q.hashes == map[]
  {
  }

  // --- A flag that binds -----------------------------------------------------------------------

  /** Once a flag is set, and while it lasts, in force or in its shadow, a send with less work than it asks is refused with its very bits. */
  method FlagBinds(c: MemoryCoordinator, rid: string, bits: nat, setAt: int, ipOver: bool, from: Option<string>, id: string, size: nat,
                   stamp: Stamp, now: int, online: bool)
    returns (s: SetIntroResult, r: SendResult)
    requires c.Valid() && c.cfg.ownedCap >= 1 && c.cfg.ownedTtlMs >= 0
    requires stamp.bits < bits && now - setAt <= 2 * c.cfg.ownedTtlMs && size <= c.cfg.introEnvelopeBytes + 256
    modifies c, c.gate, c.seen
    ensures s != FlagLimited ==> r == PowRequired(bits)
  {
    hide *;
    s := c.SetIntro(rid, bits, setAt, ipOver);
    WholeAgain(c);
    ghost var added;
    r, added := c.DeliverEnqueue(from, rid, id, size, stamp, now, ipOver, online);
  }

  lemma WholeAgain(c: MemoryCoordinator)
    requires c.Orderly() && c.Paid() && c.Books()
    ensures c.Valid()
  {
  }

  // --- Where the books go wrong --------------------------------------------------------------

  /** A relay whose owner list keeps nobody. */
  const NOBODY_OWNS := Config(1, 100, 0, 0, 100, 100, 100, 1, 100, 1, 10, 100, 0, 1, 1)

  /** Flagging a mailbox that holds something there leaves its bytes in the unowned total: the flag's owner is forgotten at once. */
  method BooksGoWrong() returns (c: MemoryCoordinator)
    ensures fresh(c) && !c.Books()
  {
    hide *;
    NobodyOwns();
    c := new MemoryCoordinator(NOBODY_OWNS, 60.0, 10, 1000, 0);
    FreshRelay(c);
    var r, added := c.DeliverEnqueue(None, "m", "x", 1, Stamp(0, ""), 0, false, false);
    NoFlags(c);
    assert added.Some? && Held(c.queues, "m") == 1;
    var s := c.SetIntro("m", 1, 0, false);
  }

  lemma NobodyOwns()
    ensures NOBODY_OWNS.introCap >= 1 && Later(0, 0) == 0
  {
  }

  lemma FreshRelay(c: MemoryCoordinator)
    requires c.cfg == NOBODY_OWNS && c.queues == map[] && c.owned == JsMap([], map[]) && c.intro == JsMap([], map[])
    requires c.bytes == c.unownedBytes == 0 && c.seen.ids.at == map[]
    requires c.gate.perMinute == 60.0 && c.gate.tokens == 60.0 && c.gate.at == 0
    ensures var e := Envelope(c.num + 1, "x", None, 0, 1, None);
      c.IntroBits("m", 0) == 0 && c.Guarded("m", 1, Stamp(0, ""), 0) == None && !c.Again("m", e) &&
      Reply(c.Verdict("m", e, 0), false, true) == Queued(false, true) && Held(c.queues, "m") == 0
  {
    assert c.gate.Have(0) == 60.0;
  }

  lemma NoFlags(c: MemoryCoordinator)
    requires c.cfg == NOBODY_OWNS && c.owned == JsMap([], map[]) && c.intro == JsMap([], map[])
    ensures Lapsed(c.intro.order, c.intro.at, c.cfg.ownedTtlMs, 0) == map[] && c.cfg.ownedCap == 0
    ensures "m" !in c.owned.at && !Flagged(map[], "m")
  {
  }
}
