/**
 The gates of POST /kt/v1/publish (kt/server.js): five limiters, each charged one token exactly
 for a publish that is answered as stored. What the buckets count and what the log holds part
 only where an entry is written and its head is not.
 */
module PublishGates {
  import opened Options
  import opened JsMaps
  import opened Tokens
  import opened RateLimits
  import opened Digests
  import opened SparseMap
  import opened PowerTest
  import opened LogState
  import opened RecordCodec
  import opened FileStore
  import opened KtLogs
  import Rule = OwnerRule

  // --- The gates ----------------------------------------------------------------------------

  /** A limiter a publish is charged to: a token of this key, above a reserve, at what the clock says when it is tried. */
  datatype Gate = Gate(lim: RateLimiter, key: string, reserve: real, at: int)

  /** The gates are different limiters. */
  ghost predicate GatesOk(gates: seq<Gate>)
    reads Limiters(gates)
  {
    && (forall i, j :: 0 <= i < j < |gates| ==> gates[i].lim != gates[j].lim)
    && forall i :: 0 <= i < |gates| ==> gates[i].lim.Valid() && gates[i].lim.perWindow >= 0.0 && gates[i].reserve >= 0.0
  }

  function TakeOf(g: Gate): Act {
    Take(g.key, Charge(1.0, g.reserve, g.at))
  }

  function TermsOf(g: Gate): Terms {
    Terms(g.lim.perWindow, g.lim.windowMs, g.lim.cap)
  }

  ghost function Limiters(gates: seq<Gate>): set<RateLimiter> {
    set i | 0 <= i < |gates| :: gates[i].lim
  }

  /** A gate passed: its key charged one token and the most recent, its victim dropped. */
  ghost predicate Paid(was: JsMap<Bucket>, g: Gate)
    reads g.lim`buckets
  {
    g.lim.windowMs > 0 && g.lim.buckets == Acted(was, TermsOf(g), TakeOf(g))
  }

  /** A gate tried and not charged: its key's bucket brought up to date and the most recent, its victim dropped. */
  ghost predicate Unpaid(was: JsMap<Bucket>, g: Gate)
    reads g.lim`buckets
  {
    g.lim.windowMs > 0 && g.lim.buckets.order == OthersIn(was, g.lim.cap, g.key) + [g.key] &&
    Refilled(was.at, g.lim.buckets.at, VictimIn(was, g.lim.cap, g.key), g.key, g.lim.perWindow, g.lim.windowMs, g.at)
  }

  /** Whether a gate lets a publish through, its buckets being these. */
  predicate Lets(was: JsMap<Bucket>, g: Gate) {
    g.lim.windowMs > 0 && LevelOf(HeldIn(was.at, g.key), g.lim.perWindow, g.lim.windowMs, g.at) >= 1.0 + g.reserve
  }

  /** To whoever looks at a key later, a gate tried and not charged is one that was not tried, unless the key is its victim. */
  lemma UnpaidUnseen(was: JsMap<Bucket>, g: Gate, k: string, t: int)
    requires Unpaid(was, g) && g.lim.perWindow >= 0.0 && t >= g.at && k !in VictimIn(was, g.lim.cap, g.key)
    ensures g.lim.Level(k, t) == LevelOf(HeldIn(was.at, k), g.lim.perWindow, g.lim.windowMs, t)
  {
    hide LevelOf, Refilled;
    RefilledUnseen(was.at, g.lim.buckets.at, VictimIn(was, g.lim.cap, g.key), g.key, g.lim.perWindow, g.lim.windowMs, g.at, k, t);
  }

  /** Nobody ever sees that it was tried exactly if no key was dropped, or the one that was had a full bucket. */
  lemma UnpaidExact(was: JsMap<Bucket>, g: Gate)
    requires was.Ok() && Unpaid(was, g) && g.lim.perWindow >= 0.0
    ensures (forall k: string, t: int :: t >= g.at ==>
               g.lim.Level(k, t) == LevelOf(HeldIn(was.at, k), g.lim.perWindow, g.lim.windowMs, t)) <==>
      forall v :: v in VictimIn(was, g.lim.cap, g.key) ==> LevelOf(HeldIn(was.at, v), g.lim.perWindow, g.lim.windowMs, g.at) == g.lim.perWindow
  {
    hide LevelOf, Refilled;
    var victim := VictimIn(was, g.lim.cap, g.key);
    OwnVictim(was, g.lim.cap, g.key);
    forall v | v in victim
      ensures g.lim.Level(v, g.at) == g.lim.perWindow
    {
      RefilledUnseen(was.at, g.lim.buckets.at, victim, g.key, g.lim.perWindow, g.lim.windowMs, g.at, v, g.at);
    }
    if forall v :: v in victim ==> LevelOf(HeldIn(was.at, v), g.lim.perWindow, g.lim.windowMs, g.at) == g.lim.perWindow {
      forall k: string, t: int | t >= g.at
        ensures g.lim.Level(k, t) == LevelOf(HeldIn(was.at, k), g.lim.perWindow, g.lim.windowMs, t)
      {
        RefilledUnseen(was.at, g.lim.buckets.at, victim, g.key, g.lim.perWindow, g.lim.windowMs, g.at, k, t);
        if k in victim {
          FullStays(HeldIn(was.at, k), g.lim.perWindow, g.lim.windowMs, g.at, t);
        }
      }
    }
  }

  /** A charge that is refused is a refill; one that is given back is too. */
  lemma RefusedIs(was: JsMap<Bucket>, g: Gate)
    requires g.lim.windowMs > 0 && (g.lim.buckets == Acted(was, TermsOf(g), TakeOf(g)))
    ensures !Lets(was, g) ==> Unpaid(was, g)
  {
    hide Gain, OthersIn, VictimIn;
  }

  lemma ReturnedIs(was: JsMap<Bucket>, g: Gate, paid: JsMap<Bucket>)
    requires g.lim.windowMs > 0 && paid == Acted(was, TermsOf(g), TakeOf(g)) && Lets(was, g)
    requires g.lim.buckets == Acted(paid, TermsOf(g), Back(g.key, g.at))
    ensures Unpaid(was, g)
  {
    hide Gain, OthersIn, VictimIn;
    GivenBack(HeldIn(was.at, g.key), g.lim.perWindow, g.lim.windowMs, g.reserve, g.at);
  }

  /** What a gate's limiter was asked: nothing, a take, or a take and a refund. */
  function GateActs(g: Gate, tried: bool, passed: bool, paid: bool): seq<Act> {
    if !tried then [] else if passed && !paid then [TakeOf(g), Back(g.key, g.at)] else [TakeOf(g)]
  }

  /** A gate is as these acts leave it, and they count one token exactly if it was paid. */
  lemma GateCounts(was: JsMap<Bucket>, g: Gate, paid: bool)
    requires if paid then Paid(was, g) && Lets(was, g) else Unpaid(was, g)
    ensures g.lim.buckets == Runs(was, TermsOf(g), GateActs(g, true, Lets(was, g), paid))
    ensures Net(was, TermsOf(g), GateActs(g, true, Lets(was, g), paid), g.key) == if paid then 1 else 0
  {
    hide Gain, OthersIn, VictimIn, LevelOf, Charged, Returned;
    var l, take, back := TermsOf(g), TakeOf(g), Back(g.key, g.at);
    OneAct(was, l, take);
    TwoActs(was, l, take, back);
    if !paid {
      UnpaidIs(was, g);
    }
  }

  lemma OneAct(m: JsMap<Bucket>, l: Terms, a: Act)
    requires l.windowMs > 0
    ensures Runs(m, l, [a]) == Acted(m, l, a) && forall k :: Net(m, l, [a], k) == Share(m, l, a, k)
  {
    hide Acted, Share;
    assert [a][..0] == [];
  }

  lemma TwoActs(m: JsMap<Bucket>, l: Terms, a: Act, b: Act)
    requires l.windowMs > 0
    ensures Runs(m, l, [a, b]) == Acted(Acted(m, l, a), l, b)
    ensures forall k :: Net(m, l, [a, b], k) == Share(m, l, a, k) + Share(Acted(m, l, a), l, b, k)
  {
    hide Acted, Share;
    OneAct(m, l, a);
    assert [a, b][..1] == [a];
  }

  lemma UnpaidIs(was: JsMap<Bucket>, g: Gate)
    requires Unpaid(was, g)
    ensures var tried := Acted(was, TermsOf(g), TakeOf(g));
      g.lim.buckets == if Lets(was, g) then Acted(tried, TermsOf(g), Back(g.key, g.at)) else tried
  {
    hide Gain, OthersIn, VictimIn;
    if Lets(was, g) {
      GivenBack(HeldIn(was.at, g.key), g.lim.perWindow, g.lim.windowMs, g.reserve, g.at);
    }
  }

  /** The limiters' buckets, gate by gate. */
  ghost function Snapshot(gates: seq<Gate>): (r: seq<JsMap<Bucket>>)
    reads Limiters(gates)
    ensures |r| == |gates| && forall j :: 0 <= j < |gates| ==> r[j] == gates[j].lim.buckets
  {
    if gates == [] then []
    else
      var init := gates[..|gates| - 1];
      assert forall j :: 0 <= j < |init| ==> init[j] == gates[j];
      Snapshot(init) + [gates[|gates| - 1].lim.buckets]
  }

  /** One token given back. */
  method GiveBackOne(g: Gate, ghost was: JsMap<Bucket>)
    requires g.lim.Valid() && Lets(was, g) && Paid(was, g)
    modifies g.lim`buckets
    ensures g.lim.Valid() && Unpaid(was, g)
  {
    hide Lets, Unpaid, Acted;
    ghost var paid := g.lim.buckets;
    g.lim.Refund(g.key);
    ReturnedIs(was, g, paid);
  }

  /** Every token taken, given back: each of the first n gates is as a refill would leave it. */
  method GiveBack(gates: seq<Gate>, n: nat, ghost was: seq<JsMap<Bucket>>)
    requires forall i, j :: 0 <= i < j < |gates| ==> gates[i].lim != gates[j].lim
    requires n <= |gates| == |was| && forall j :: 0 <= j < n ==> gates[j].lim.Valid()
    requires forall j :: 0 <= j < n ==> Lets(was[j], gates[j]) && Paid(was[j], gates[j])
    modifies Limiters(gates)
    ensures forall j :: 0 <= j < n ==> gates[j].lim.Valid() && Unpaid(was[j], gates[j])
    ensures forall j :: n <= j < |gates| ==> gates[j].lim.buckets == old(gates[j].lim.buckets)
  {
    hide *;
    InLimiters(gates);
    var k := 0;
    while k < n
      invariant 0 <= k <= n
      invariant forall j :: 0 <= j < k ==> gates[j].lim.Valid() && Unpaid(was[j], gates[j])
      invariant forall j :: k <= j < |gates| ==> gates[j].lim.buckets == old(gates[j].lim.buckets)
    {
      GiveBackOne(gates[k], was[k]);
      k := k + 1;
    }
  }

  lemma InLimiters(gates: seq<Gate>)
    ensures forall j :: 0 <= j < |gates| ==> gates[j].lim in Limiters(gates)
  {
  }

  /**
   The gates in order, each charged one token; the first that refuses gives back what was taken.
   All pass exactly when each holds a token above its reserve; otherwise each that was tried is
   as a refill would leave it, but for the key it dropped to make room, and the others are as
   they were. Each limiter reads the clock when it is tried.
   */
  method PassGates(gates: seq<Gate>, later: int) returns (refused: Option<nat>, retry: int)
    requires GatesOk(gates)
    modifies Limiters(gates)
    ensures forall i :: 0 <= i < |gates| ==> gates[i].lim.Valid()
    ensures refused.None? <==> forall i :: 0 <= i < |gates| ==> Lets(old(gates[i].lim.buckets), gates[i])
    ensures refused.None? ==> forall i :: 0 <= i < |gates| ==> Paid(old(gates[i].lim.buckets), gates[i])
    ensures refused.Some? ==>
      refused.value < |gates| && retry >= 1 && gates[refused.value].lim.windowMs > 0 && RetryIs(retry, gates[refused.value], later)
    ensures refused.Some? ==> !Lets(old(gates[refused.value].lim.buckets), gates[refused.value])
    ensures refused.Some? ==> forall i :: 0 <= i < refused.value ==> Lets(old(gates[i].lim.buckets), gates[i])
    ensures refused.Some? ==> forall i :: 0 <= i <= refused.value ==> Unpaid(old(gates[i].lim.buckets), gates[i])
    ensures refused.Some? ==> forall i :: refused.value < i < |gates| ==> gates[i].lim.buckets == old(gates[i].lim.buckets)
  {
    hide *;
    ghost var was := Snapshot(gates);
    GatesAre(gates);
    var i := 0;
    while i < |gates|
      invariant 0 <= i <= |gates|
      invariant forall j :: 0 <= j < i ==> Lets(was[j], gates[j]) && Paid(was[j], gates[j]) && gates[j].lim.Valid()
      invariant forall j :: i <= j < |gates| ==> gates[j].lim.buckets == old(gates[j].lim.buckets)
    {
      var ok := TryGate(gates[i]);
      if !ok {
        GiveBack(gates, i, was);
        retry := RetryAfter(gates[i], later);
        return Some(i), retry;
      }
      i := i + 1;
    }
    return None, 0;
  }

  lemma GatesAre(gates: seq<Gate>)
    requires GatesOk(gates)
    ensures forall i, j :: 0 <= i < j < |gates| ==> gates[i].lim != gates[j].lim
    ensures forall i :: 0 <= i < |gates| ==> gates[i].lim in Limiters(gates)
    ensures forall i :: 0 <= i < |gates| ==>
      gates[i].lim.Valid() && gates[i].lim.windowMs > 0 && gates[i].reserve >= 0.0
  {
  }

  /** One gate: a token above its reserve, or a refusal that charges nothing. */
  method TryGate(g: Gate) returns (ok: bool)
    requires g.lim.Valid()
    modifies g.lim`buckets
    ensures g.lim.Valid()
    ensures ok <==> Lets(old(g.lim.buckets), g)
    ensures ok ==> Paid(old(g.lim.buckets), g)
    ensures !ok ==> Unpaid(old(g.lim.buckets), g)
  {
    hide LevelOf, Unpaid, Acted;
    ok := g.lim.TakeN(g.key, 1.0, g.reserve, g.at);
    RefusedIs(old(g.lim.buckets), g);
  }

  /**
   What the refusal says: the least whole number of seconds, of one or more, after which the gate
   lets a take through, where any wait is enough; of a limiter that refills nothing, its window.
   */
  method RetryAfter(g: Gate, now: int) returns (s: int)
    requires g.lim.Valid() && g.reserve >= 0.0
    ensures s >= 1 && g.lim.windowMs > 0
    ensures RetryIs(s, g, now)
  {
    hide OpenAfter, RateLimiter.Held, HeldIn;
    var ms := g.lim.WaitMs(g.key, g.reserve, now);
    HeldOf(g.lim, g.key);
    s := Ceil(ms as real / 1000.0);
    WholeSeconds(ms, s);
    s := if s > 1 then s else 1;
    RetryFrom(s, g, now, ms);
  }

  /** Where a wait can be enough, `s` seconds are, and no fewer whole seconds of one or more. */
  ghost predicate RetryIs(s: int, g: Gate, now: int)
    requires s >= 1 && g.lim.windowMs > 0
    reads g.lim`buckets
  {
    var b, w, ms := HeldIn(g.lim.buckets.at, g.key), g.lim.perWindow, g.lim.windowMs;
    (w > 0.0 && 1.0 + g.reserve <= w ==>
      OpenAfter(b, w, ms, g.reserve, now, 1000 * s) && (s > 1 ==> !OpenAfter(b, w, ms, g.reserve, now, 1000 * (s - 1)))) &&
    (!(w > 0.0) ==> 1000 * s >= ms && (s > 1 ==> 1000 * (s - 1) < ms))
  }

  lemma RetryFrom(s: int, g: Gate, now: int, ms: int)
    requires s >= 1 && g.lim.windowMs > 0 && 1000 * s >= ms && (s > 1 ==> 1000 * (s - 1) < ms)
    requires !(g.lim.perWindow > 0.0) ==> ms == g.lim.windowMs
    requires g.lim.perWindow > 0.0 && 1.0 + g.reserve <= g.lim.perWindow ==>
      forall d: nat :: OpenAfter(HeldIn(g.lim.buckets.at, g.key), g.lim.perWindow, g.lim.windowMs, g.reserve, now, d) <==> d >= ms
    ensures RetryIs(s, g, now)
  {
    hide OpenAfter, HeldIn;
  }

  lemma HeldOf(lim: RateLimiter, key: string)
    requires lim.Valid()
    ensures lim.windowMs > 0 && lim.Held(key) == HeldIn(lim.buckets.at, key)
  {
  }

  lemma WholeSeconds(ms: int, s: int)
    requires s as real >= ms as real / 1000.0 && (s - 1) as real < ms as real / 1000.0
    ensures 1000 * s >= ms && 1000 * (s - 1) < ms
  {
  }

  /** The wait a refusal names, written out, for a key that has a bucket. */
  lemma RetryMeans(s: int, g: Gate, now: int)
    requires s >= 1 && g.lim.windowMs > 0 && RetryIs(s, g, now) && g.key in g.lim.buckets.at
    ensures g.lim.perWindow > 0.0 && 1.0 + g.reserve <= g.lim.perWindow ==>
      var b := g.lim.buckets.at[g.key];
      b.tokens + (now + 1000 * s - b.at) as real / g.lim.windowMs as real * g.lim.perWindow >= 1.0 + g.reserve &&
      (s > 1 ==> b.tokens + (now + 1000 * (s - 1) - b.at) as real / g.lim.windowMs as real * g.lim.perWindow < 1.0 + g.reserve)
  {
    hide OpenAfter;
    var b := HeldIn(g.lim.buckets.at, g.key);
    OpenIs(b, g.lim.perWindow, g.lim.windowMs, g.reserve, now, 1000 * s);
    OpenIs(b, g.lim.perWindow, g.lim.windowMs, g.reserve, now, 1000 * (s - 1));
  }

  // --- A publish ----------------------------------------------------------------------------

  /** What the clock says at each of the five gates. */
  type Readings = s: seq<int> | |s| == 5 witness [0, 0, 0, 0, 0]

  /** The server's limiters, its own cap on a value, and how it spells an account and a label as a key. */
  datatype Route = Route(log: KtLog, limiter: RateLimiter, perAccount: RateLimiter, newPerAddress: RateLimiter,
                         newAccounts: RateLimiter, total: RateLimiter, maxValueBytes: nat,
                         spellAcct: Bytes -> string, spellLabel: Label -> string)
  {
    /** firstPublishReserve. */
    function Reserve(): real {
      Min(newAccounts.perWindow, (total.perWindow / 2.0).Floor as real)
    }

    ghost function Five(): set<RateLimiter> {
      {limiter, perAccount, newPerAddress, newAccounts, total}
    }

    /** Five different limiters. */
    ghost predicate Apart() {
      && limiter != perAccount && limiter != newPerAddress && limiter != newAccounts && limiter != total
      && perAccount != newPerAddress && perAccount != newAccounts && perAccount != total
      && newPerAddress != newAccounts && newPerAddress != total && newAccounts != total
      && forall l :: l in Five() ==> l.perWindow >= 0.0
    }

    ghost predicate Ok()
      reads Five()
    {
      Apart() && forall l :: l in Five() ==> l.Valid()
    }

    lemma OkMeans()
      requires Ok()
      ensures Apart() && forall l :: l in Five() ==> l.Valid() && l.windowMs > 0 && l.perWindow >= 0.0
      ensures Reserve() >= 0.0
    {
      assert newAccounts in Five() && total in Five();
    }

    lemma FiveAre()
      requires Ok()
      ensures Apart() && limiter in Five() && perAccount in Five() && newPerAddress in Five() && newAccounts in Five() && total in Five()
      ensures limiter != perAccount && limiter != newPerAddress && limiter != newAccounts && limiter != total
      ensures perAccount != newPerAddress && perAccount != newAccounts && perAccount != total
      ensures newPerAddress != newAccounts && newPerAddress != total && newAccounts != total
      ensures limiter.Valid() && perAccount.Valid() && newPerAddress.Valid() && newAccounts.Valid() && total.Valid()
    {
    }

    lemma OkFrom()
      requires Apart() && limiter.Valid() && perAccount.Valid() && newPerAddress.Valid() && newAccounts.Valid() && total.Valid()
      ensures Ok()
    {
    }

    lemma OkIs()
      requires Apart() && forall l :: l in Five() ==> l.Valid()
      ensures Ok()
    {
    }

    function LabelOf(q: Request): Label {
      if log.w.mode.Kt? then log.w.labelFor(q.acct) else q.lbl
    }

    /** A handle's recoveries have a bucket of their own. */
    function AcctKey(q: Request): string {
      if log.w.mode.Kt? then spellAcct(q.acct)
      else
        var rec := Rule.CheckEntry(log.w.rule, RuleRequest(q));
        spellLabel(q.lbl) + (if rec.Ok? && rec.value.k.Recover? then ":recover" else "")
    }

    /** The gates in the order they are tried: those of a first publish only for a label the log does not hold. */
    function Gates(q: Request, first: bool, address: string, at: Readings): (g: seq<Gate>)
      ensures |g| == (if first then 5 else 3) && g[|g| - 1] == Gate(total, "all", if first then 0.0 else Reserve(), at[4])
    {
      [Gate(limiter, address, 0.0, at[0]), Gate(perAccount, AcctKey(q), 0.0, at[1])]
      + (if first then [Gate(newPerAddress, address, 0.0, at[2]), Gate(newAccounts, "all", 0.0, at[3])] else [])
      + [Gate(total, "all", if first then 0.0 else Reserve(), at[4])]
    }

    lemma GatesFine(q: Request, first: bool, address: string, at: Readings)
      requires Ok()
      ensures GatesOk(Gates(q, first, address, at))
      ensures Limiters(Gates(q, first, address, at)) <= Five()
      ensures Limiters(Gates(q, first, address, at)) == if first then Five() else {limiter, perAccount, total}
    {
      hide AcctKey;
      OkMeans();
      var gates := Gates(q, first, address, at);
      assert gates[0].lim == limiter && gates[1].lim == perAccount && gates[|gates| - 1].lim == total;
      if first {
        assert |gates| == 5 && gates[2].lim == newPerAddress && gates[3].lim == newAccounts;
      } else {
        assert |gates| == 3;
      }
    }
  }

  /** A label the index does not have is one the log holds no entry of. */
  lemma FirstIs(r: Route, q: Request)
    requires r.log.ListsOk()
    ensures r.LabelOf(q) !in r.log.byLabel <==> Positions(r.log.entries, r.LabelOf(q)) == []
  {
    hide Positions;
  }

  lemma ListsAre(log: KtLog)
    requires log.Valid()
    ensures log.ListsOk()
  {
    hide Replays, Leaves, HeadsFine, HeadOf, Hashes, Faithful, Whole, Lines, Latest;
  }

  /** checkPublish: what of a request's verdict does not depend on the label's history. */
  function Checked(w: World, q: Request): Verdict {
    if w.mode.Kt? then KtVerdict(w, [], q)
    else
      var rec := Rule.CheckEntry(w.rule, RuleRequest(q));
      if rec.Refused? then RuleRefuses(rec.reason) else Allowed
  }

  /** The gates written out: for a first publish the address, the account, the address again, new accounts and the total; and a share of the total kept for first publishes from any other. */
  lemma GatesWritten(r: Route, q: Request, first: bool, address: string, at: Readings)
    ensures var g, half := r.Gates(q, first, address, at), (r.total.perWindow / 2.0).Floor as real;
      var kept := if r.newAccounts.perWindow <= half then r.newAccounts.perWindow else half;
      && g[0] == Gate(r.limiter, address, 0.0, at[0]) && g[1] == Gate(r.perAccount, r.AcctKey(q), 0.0, at[1])
      && (first ==>
            |g| == 5 && g[2] == Gate(r.newPerAddress, address, 0.0, at[2]) && g[3] == Gate(r.newAccounts, "all", 0.0, at[3]) &&
            g[4] == Gate(r.total, "all", 0.0, at[4]))
      && (!first ==> |g| == 3 && g[2] == Gate(r.total, "all", kept, at[4]))
    ensures r.log.w.mode.Kt? ==> r.AcctKey(q) == r.spellAcct(q.acct)
    ensures r.log.w.mode.Handles? ==>
      var rec := Rule.CheckEntry(r.log.w.rule, Rule.Entry(q.lbl, q.version, q.value, q.sig));
      r.AcctKey(q) == r.spellLabel(q.lbl) + (if rec.Ok? && rec.value.k.Recover? then ":recover" else "")
  {
    hide Rule.CheckEntry;
  }

  /** What is checked before the gates: the request's form, its sizes and its signature. */
  lemma CheckedExact(w: World, q: Request)
    ensures w.mode.Kt? ==>
      var lbl := w.labelFor(q.acct);
      var signed := w.accountSigned(q.acct, KtPublish(lbl, q.version, q.fp, ValueDigest(q.value)), q.sig);
      (Checked(w, q).Allowed? <==>
       |q.acct| == 32 && 1 <= q.version <= 9_007_199_254_740_991 && |q.fp| == 16 && 28 <= |q.value| <= 262_144 && |q.sig| == 64 && signed)
    ensures w.mode.Handles? ==>
      (Checked(w, q).Allowed? <==> Rule.CheckEntry(w.rule, Rule.Entry(q.lbl, q.version, q.value, q.sig)).Ok?)
  {
    hide Rule.CheckEntry;
    NoPositions(w.labelFor(q.acct));
  }

  /** What publish checks again it answers again. */
  lemma CheckedTwice(w: World, es: seq<LogEntry>, q: Request)
    ensures !Checked(w, q).Allowed? ==> PublishVerdict(w, es, q) == Checked(w, q)
  {
    hide Rule.CheckEntry, Rule.Transition, RuleState, Positions;
    assert Positions([], w.labelFor(q.acct)) == [] by {
      NoPositions(w.labelFor(q.acct));
    }
  }

  lemma NoPositions(l: Label)
    ensures Positions([], l) == []
  {
  }

  datatype Outcome =
    | Created(entry: LogEntry)
    | Unchecked(why: Verdict)
    | OverCap
    | Limited(gate: nat, retry: int)
    | Failed(result: PublishResult)

  /** The entry was written and its head was not: the answer is an error. */
  predicate Unacked(o: Outcome) {
    o.Failed? && o.result.NotAcknowledged?
  }

  predicate Grows(o: Outcome) {
    o.Created? || Unacked(o)
  }

  lemma GrowsIs(o: Outcome)
    ensures Unacked(o) <==> o.Failed? && o.result.NotAcknowledged?
    ensures Grows(o) <==> o.Created? || (o.Failed? && o.result.NotAcknowledged?)
  {
  }

  /** A gate after a publish: paid if it is stored and answered so; untouched, or as a refill would leave it, if not. */
  ghost predicate GateAfter(o: Outcome, i: nat, was: JsMap<Bucket>, g: Gate)
    reads g.lim`buckets
  {
    match o
    case Created(_) => Lets(was, g) && Paid(was, g)
    case Failed(_) => Lets(was, g) && Unpaid(was, g)
    case Limited(k, _) =>
      if i <= k then (Lets(was, g) <==> i < k) && Unpaid(was, g) else g.lim.buckets == was
    case _ => g.lim.buckets == was
  }

  lemma GatesAfter(o: Outcome, gates: seq<Gate>, was: seq<JsMap<Bucket>>)
    requires |was| == |gates| && forall i :: 0 <= i < |gates| ==>
      (o.Created? ==> Lets(was[i], gates[i]) && Paid(was[i], gates[i])) &&
      (o.Failed? ==> Lets(was[i], gates[i]) && Unpaid(was[i], gates[i])) &&
      (o.Limited? && i <= o.gate ==> (Lets(was[i], gates[i]) <==> i < o.gate) && Unpaid(was[i], gates[i])) &&
      (o.Unchecked? || o.OverCap? || (o.Limited? && i > o.gate) ==> gates[i].lim.buckets == was[i])
    ensures forall i :: 0 <= i < |gates| ==> GateAfter(o, i, was[i], gates[i])
  {
    hide Lets, Paid, Unpaid;
  }

  /** What its limiter was asked. */
  function AskedOf(o: Outcome, i: nat, g: Gate): seq<Act> {
    match o
    case Created(_) => GateActs(g, true, true, true)
    case Failed(_) => GateActs(g, true, true, false)
    case Limited(k, _) => GateActs(g, i <= k, i < k, false)
    case _ => []
  }

  /** What a gate's bucket counts is publishes: one token for one that was answered as stored, none for any other. */
  lemma GateIsPublishes(o: Outcome, i: nat, was: JsMap<Bucket>, g: Gate)
    requires g.lim.windowMs > 0 && GateAfter(o, i, was, g)
    ensures g.lim.buckets == Runs(was, TermsOf(g), AskedOf(o, i, g))
    ensures Net(was, TermsOf(g), AskedOf(o, i, g), g.key) == if o.Created? then 1 else 0
  {
    hide Lets, Unpaid, Paid;
    if o.Created? || o.Failed? || (o.Limited? && i <= o.gate) {
      GateCounts(was, g, o.Created?);
    }
  }

  /** The bucket counts what the log grew by exactly if no entry was written without its head. */
  lemma CountsExact(o: Outcome, i: nat, was: JsMap<Bucket>, g: Gate)
    requires g.lim.windowMs > 0 && GateAfter(o, i, was, g)
    ensures Net(was, TermsOf(g), AskedOf(o, i, g), g.key) == (if Grows(o) then 1 else 0) <==> !Unacked(o)
  {
    hide GateAfter, Net, AskedOf;
    GateIsPublishes(o, i, was, g);
  }

  /** The publish itself, the gates being paid: where it fails, whatever failed, they are given back. */
  method Settle(log: KtLog, gates: seq<Gate>, ghost was: seq<JsMap<Bucket>>, q: Request, now: int, resignMs: int, disk: Disk)
    returns (p: PublishResult)
    requires log.Valid() && log.boundary.Some? && |log.entries| + 1 < WORD && 0 <= now < U64
    requires |was| == |gates| && forall i, j :: 0 <= i < j < |gates| ==> gates[i].lim != gates[j].lim
    requires forall i :: 0 <= i < |gates| ==> gates[i].lim.Valid() && Lets(was[i], gates[i]) && Paid(was[i], gates[i])
    modifies log`entries, log`byLabel, log`owners, log`sth, log`signedFrom, log`boundary, log`recordedTs
    modifies log.tree, log.tree.memo, log.map_, log.dir
    modifies Limiters(gates)
    ensures forall i :: 0 <= i < |gates| ==> gates[i].lim.Valid()
    ensures forall i :: 0 <= i < |gates| ==> if p.Published? then Paid(was[i], gates[i]) else Unpaid(was[i], gates[i])
    ensures log.boundary == old(log.boundary) && if p.Halted? then disk.truncateFails else log.Valid()
    ensures p.Refused? <==> !PublishVerdict(log.w, old(log.entries), q).Allowed?
    ensures p.Published? || p.NotAcknowledged? ==>
      p.entry == EntryFor(log.w, old(log.entries), q, now) && log.entries == old(log.entries) + [p.entry]
    ensures p.Published? <==> Stores(log.w, log.codec, old(log.entries), q, now, disk) && !disk.headFails
    ensures p.NotAcknowledged? <==> Stores(log.w, log.codec, old(log.entries), q, now, disk) && disk.headFails
    ensures !p.Published? && !p.NotAcknowledged? ==> log.entries == old(log.entries)
  {
    hide *;
    p := log.Publish(q, now, resignMs, disk);
    if !p.Published? {
      GiveBack(gates, |gates|, was);
    }
  }

  /**
   POST /kt/v1/publish, its body read: checked, held to the cap, charged at each gate and published.
   Every gate is charged exactly if the publish is answered as stored. A request that is not
   signed, or past the cap, asks no gate anything. A failed publish is given back whatever failed:
   so it is where the entry was written and the head was not, and the log has grown.
   */
  method Post(r: Route, q: Request, address: string, at: Readings, now: int, later: int, resignMs: int, disk: Disk)
    returns (o: Outcome, ghost gates: seq<Gate>)
    requires r.Ok() && r.log.Valid() && r.log.boundary.Some? && |r.log.entries| + 1 < WORD && 0 <= now < U64
    modifies r.log`entries, r.log`byLabel, r.log`owners, r.log`sth, r.log`signedFrom, r.log`boundary, r.log`recordedTs
    modifies r.log.tree, r.log.tree.memo, r.log.map_, r.log.dir
    modifies Limiters(r.Gates(q, r.LabelOf(q) !in r.log.byLabel, address, at))
    ensures gates == r.Gates(q, Positions(old(r.log.entries), r.LabelOf(q)) == [], address, at)
    ensures r.Ok() && r.log.boundary == old(r.log.boundary)
    ensures if o == Failed(Halted) then disk.truncateFails else r.log.Valid()
    ensures forall i :: 0 <= i < |gates| ==> GateAfter(o, i, old(gates[i].lim.buckets), gates[i])
    ensures o.Unchecked? <==> !Checked(r.log.w, q).Allowed?
    ensures o.OverCap? <==> Checked(r.log.w, q).Allowed? && |q.value| > r.maxValueBytes
    ensures o.Limited? ==>
      o.gate < |gates| && o.retry >= 1 && gates[o.gate].lim.windowMs > 0 && RetryIs(o.retry, gates[o.gate], later)
    ensures o.Created? || o.Failed? ==> (o.Created? <==> Stores(r.log.w, r.log.codec, old(r.log.entries), q, now, disk) && !disk.headFails)
    ensures o.Created? || o.Failed? ==> (Unacked(o) <==> Stores(r.log.w, r.log.codec, old(r.log.entries), q, now, disk) && disk.headFails)
    ensures r.log.entries == old(r.log.entries) + if Grows(o) then [EntryFor(r.log.w, old(r.log.entries), q, now)] else []
    ensures o.Unchecked? || o.OverCap? || o.Limited? ==> r.log.dir.later == old(r.log.dir.later)
  {
    hide *;
    r.OkMeans();
    ghost var es := r.log.entries;
    ListsAre(r.log);
    FirstIs(r, q);
    CheckedTwice(r.log.w, es, q);
    var first := r.LabelOf(q) !in r.log.byLabel;
    var all := r.Gates(q, first, address, at);
    r.GatesFine(q, first, address, at);
    GatesAre(all);
    gates := all;
    ghost var was, before := Snapshot(all), BucketsOf(r.Five());
    var checked := Checked(r.log.w, q);
    if !checked.Allowed? || |q.value| > r.maxValueBytes {
      o := if !checked.Allowed? then Unchecked(checked) else OverCap;
      GatesAfter(o, all, was);
      GrowsIs(o);
      return o, gates;
    }
    var refused, retry := PassGates(all, later);
    if refused.Some? {
      o := Limited(refused.value, retry);
    } else {
      var p := Settle(r.log, all, was, q, now, resignMs, disk);
      o := if p.Published? then Created(p.entry) else Failed(p);
    }
    GatesAfter(o, all, was);
    GrowsIs(o);
    StayValid(r.Five(), all, before);
    r.OkIs();
  }

  /** The limiters that are not among the gates are as they were. */
  lemma StayValid(five: set<RateLimiter>, gates: seq<Gate>, was: map<RateLimiter, JsMap<Bucket>>)
    requires forall l :: l in five ==> l in was && was[l].Ok() && l.windowMs > 0
    requires forall l :: l in five && l !in Limiters(gates) ==> l.buckets == was[l]
    requires forall i :: 0 <= i < |gates| ==> gates[i].lim.Valid()
    ensures forall l :: l in five ==> l.Valid()
  {
    hide JsMap.Ok;
  }

  ghost function BucketsOf(five: set<RateLimiter>): (r: map<RateLimiter, JsMap<Bucket>>)
    reads five
    ensures forall l :: l in five ==> l in r && r[l] == l.buckets
    ensures (forall l :: l in five ==> l.Valid()) ==> forall l :: l in five ==> r[l].Ok()
  {
    map l | l in five :: l.buckets
  }

  // --- A server's run ------------------------------------------------------------------------

  /** A publish that is posted, or the sweep of every minute. */
  datatype Turn =
    | Posting(q: Request, address: string, at: Readings, now: nat, later: int, disk: Disk)
    | SweepingAll(now: nat)

  /** When the total is asked, if it is. */
  function TurnTime(t: Turn): int {
    if t.Posting? then t.at[4] else t.now
  }

  /** Acts on the total, from one time to another. */
  ghost predicate Orderly(acts: seq<Act>, from: int, to: int) {
    && InOrder(acts) && WholeTokens(acts)
    && forall i :: 0 <= i < |acts| ==> from <= TimeOf(acts[i]) <= to && (acts[i].Sweeping? || acts[i].key == "all")
  }

  lemma OrderlyMore(a: seq<Act>, b: seq<Act>, from: int, mid: int, to: int)
    requires Orderly(a, from, mid) && Orderly(b, to, to) && from <= mid <= to
    ensures Orderly(a + b, from, to)
  {
  }

  lemma AskedOrderly(o: Outcome, i: nat, g: Gate)
    requires g.key == "all" && g.reserve >= 0.0
    ensures Orderly(AskedOf(o, i, g), g.at, g.at)
  {
  }

  lemma TotalBound(m: JsMap<Bucket>, l: Terms, acts: seq<Act>, from: int, to: int)
    requires m.Ok() && l.windowMs > 0 && l.perWindow >= 0.0 && from <= to && Orderly(acts, from, to)
    ensures Net(m, l, acts, "all") as real <= l.perWindow + Gain(l.perWindow, l.windowMs, to - from)
  {
    hide NeverDropped, Runs, LevelOf, Share, Gain;
    GainGrows(l.perWindow, l.windowMs, to - from);
    if acts != [] {
      var first, last := TimeOf(acts[0]), TimeOf(acts[|acts| - 1]);
      GainIs(l.perWindow, l.windowMs, last - first);
      AloneNeverDropped(m, l, acts, "all");
      WindowBound(m, l, acts, "all");
      GainAdds(l.perWindow, l.windowMs, last - first, to - from - (last - first));
      GainGrows(l.perWindow, l.windowMs, to - from - (last - first));
    }
  }

  ghost predicate TurnsOk(turns: seq<Turn>) {
    && (forall i :: 0 <= i < |turns| && turns[i].Posting? ==> turns[i].now < U64)
    && forall i, j :: 0 <= i <= j < |turns| ==> TurnTime(turns[i]) <= TurnTime(turns[j])
  }

  /** How many of these turns meet a head file that is not written. */
  function HeadsLost(turns: seq<Turn>): nat {
    if turns == [] then 0
    else HeadsLost(turns[..|turns| - 1]) + (if turns[|turns| - 1].Posting? && turns[|turns| - 1].disk.headFails then 1 else 0)
  }

  function TotalTerms(r: Route): Terms {
    Terms(r.total.perWindow, r.total.windowMs, r.total.cap)
  }

  /** The gate at the total, the last one, and how many are before it. */
  ghost function LastGate(r: Route, es: seq<LogEntry>, t: Turn): Gate
    requires t.Posting?
  {
    Gate(r.total, "all", if Positions(es, r.LabelOf(t.q)) == [] then 0.0 else r.Reserve(), t.at[4])
  }

  ghost function Before(r: Route, es: seq<LogEntry>, t: Turn): nat
    requires t.Posting?
  {
    if Positions(es, r.LabelOf(t.q)) == [] then 4 else 2
  }

  /** How a turn may end, given the entries it found: with no outcome exactly if it is a sweep. */
  ghost predicate EndsAs(r: Route, es: seq<LogEntry>, t: Turn, o: Option<Outcome>) {
    && (o.Some? <==> t.Posting?)
    && (o.Some? ==>
      && (o.value.Unchecked? <==> !Checked(r.log.w, t.q).Allowed?)
      && (o.value.OverCap? <==> Checked(r.log.w, t.q).Allowed? && |t.q.value| > r.maxValueBytes)
      && (o.value.Created? || o.value.Failed? ==>
        && (o.value.Created? <==> Stores(r.log.w, r.log.codec, es, t.q, t.now, t.disk) && !t.disk.headFails)
        && (Unacked(o.value) <==> Stores(r.log.w, r.log.codec, es, t.q, t.now, t.disk) && t.disk.headFails)))
  }

  lemma EndsIs(r: Route, es: seq<LogEntry>, t: Turn, o: Outcome)
    requires t.Posting? && (o.Unchecked? <==> !Checked(r.log.w, t.q).Allowed?)
    requires o.OverCap? <==> Checked(r.log.w, t.q).Allowed? && |t.q.value| > r.maxValueBytes
    requires o.Created? || o.Failed? ==> (o.Created? <==> Stores(r.log.w, r.log.codec, es, t.q, t.now, t.disk) && !t.disk.headFails)
    requires o.Created? || o.Failed? ==> (Unacked(o) <==> Stores(r.log.w, r.log.codec, es, t.q, t.now, t.disk) && t.disk.headFails)
    ensures EndsAs(r, es, t, Some(o))
    ensures Unacked(o) ==> t.disk.headFails
  {
    hide Checked, Stores, Unacked;
    assert Unacked(o) ==> o.Failed? by {
      GrowsIs(o);
    }
  }

  lemma SweepEnds(r: Route, es: seq<LogEntry>, t: Turn)
    requires t.SweepingAll?
    ensures EndsAs(r, es, t, None) && ActsIn(r, es, t, None) == [Act.Sweeping(t.now)] && Entered(r, es, t, None) == []
    ensures es + [] == es
  {
  }

  /** What a turn asks of the total. */
  ghost function ActsIn(r: Route, es: seq<LogEntry>, t: Turn, o: Option<Outcome>): seq<Act> {
    if t.Posting? && o.Some? then AskedOf(o.value, Before(r, es, t), LastGate(r, es, t)) else [Act.Sweeping(t.now)]
  }

  /** What it adds to the log. */
  ghost function Entered(r: Route, es: seq<LogEntry>, t: Turn, o: Option<Outcome>): seq<LogEntry> {
    if t.Posting? && o.Some? && Grows(o.value) then [EntryFor(r.log.w, es, t.q, t.now)] else []
  }

  lemma PostEnds(r: Route, es: seq<LogEntry>, t: Turn, o: Outcome)
    requires t.Posting?
    ensures ActsIn(r, es, t, Some(o)) == AskedOf(o, Before(r, es, t), LastGate(r, es, t))
    ensures Entered(r, es, t, Some(o)) == if Grows(o) then [EntryFor(r.log.w, es, t.q, t.now)] else []
    ensures LastGate(r, es, t) == Gate(r.total, "all", if Positions(es, r.LabelOf(t.q)) == [] then 0.0 else r.Reserve(), t.at[4])
    ensures Before(r, es, t) == if Positions(es, r.LabelOf(t.q)) == [] then 4 else 2
  {
  }

  /** The log after a run, what the total was asked in it, and how many publishes were answered as stored, and stored but not so answered. */
  datatype Tally = Tally(entries: seq<LogEntry>, acts: seq<Act>, created: nat, unacked: nat)

  ghost function TallyOf(r: Route, es: seq<LogEntry>, turns: seq<Turn>, outs: seq<Option<Outcome>>): Tally
    requires |outs| == |turns|
  {
    if turns == [] then Tally(es, [], 0, 0)
    else
      var n := |turns| - 1;
      var so, t, o := TallyOf(r, es, turns[..n], outs[..n]), turns[n], outs[n];
      Tally(so.entries + Entered(r, so.entries, t, o), so.acts + ActsIn(r, so.entries, t, o),
            so.created + (if Stored(o) then 1 else 0), so.unacked + (if Lost(o) then 1 else 0))
  }

  predicate Stored(o: Option<Outcome>) {
    o.Some? && o.value.Created?
  }

  predicate Lost(o: Option<Outcome>) {
    o.Some? && Unacked(o.value)
  }

  lemma TallyNext(r: Route, es: seq<LogEntry>, turns: seq<Turn>, outs: seq<Option<Outcome>>, t: Turn, o: Option<Outcome>)
    requires |outs| == |turns|
    ensures var so := TallyOf(r, es, turns, outs);
      TallyOf(r, es, turns + [t], outs + [o]) ==
      Tally(so.entries + Entered(r, so.entries, t, o), so.acts + ActsIn(r, so.entries, t, o),
            so.created + (if Stored(o) then 1 else 0), so.unacked + (if Lost(o) then 1 else 0))
  {
    hide Entered, ActsIn, Stored, Lost;
    assert (turns + [t])[..|turns|] == turns && (outs + [o])[..|turns|] == outs;
  }

  ghost function CreatedTurns(outs: seq<Option<Outcome>>): set<nat> {
    set i: nat | i < |outs| && Stored(outs[i])
  }

  ghost function LostTurns(outs: seq<Option<Outcome>>): set<nat> {
    set i: nat | i < |outs| && Lost(outs[i])
  }

  lemma TurnsAre(outs: seq<Option<Outcome>>, i: nat)
    ensures i in CreatedTurns(outs) <==> i < |outs| && outs[i].Some? && outs[i].value.Created?
    ensures i in LostTurns(outs) <==> i < |outs| && outs[i].Some? && outs[i].value.Failed? && outs[i].value.result.NotAcknowledged?
  {
  }

  lemma CreatedMore(outs: seq<Option<Outcome>>, o: Option<Outcome>)
    ensures |CreatedTurns(outs + [o])| == |CreatedTurns(outs)| + (if Stored(o) then 1 else 0)
  {
    hide Stored;
    var n, all, so := |outs|, outs + [o], CreatedTurns(outs);
    forall i: nat
      ensures i in CreatedTurns(all) <==> i in so || (i == n && Stored(o))
    {
      assert i < n ==> all[i] == outs[i];
    }
    if Stored(o) {
      assert CreatedTurns(all) == so + {n};
    } else {
      assert CreatedTurns(all) == so;
    }
  }

  lemma LostMore(outs: seq<Option<Outcome>>, o: Option<Outcome>)
    ensures |LostTurns(outs + [o])| == |LostTurns(outs)| + (if Lost(o) then 1 else 0)
  {
    hide Lost;
    var n, all, so := |outs|, outs + [o], LostTurns(outs);
    forall i: nat
      ensures i in LostTurns(all) <==> i in so || (i == n && Lost(o))
    {
      assert i < n ==> all[i] == outs[i];
    }
    if Lost(o) {
      assert LostTurns(all) == so + {n};
    } else {
      assert LostTurns(all) == so;
    }
  }

  /** The tally counts the turns that were answered as stored, and those that were stored and not so answered. */
  lemma {:induction false} TallyIs(r: Route, es: seq<LogEntry>, turns: seq<Turn>, outs: seq<Option<Outcome>>)
    requires |outs| == |turns|
    ensures TallyOf(r, es, turns, outs).created == |CreatedTurns(outs)| && TallyOf(r, es, turns, outs).unacked == |LostTurns(outs)|
  {
    hide Entered, ActsIn, Stored, Lost, TallyOf;
    if turns == [] {
      AllEndNone(r, es);
      assert outs == [];
      assert CreatedTurns([]) == {} && LostTurns([]) == {};
    } else {
      var n := |turns| - 1;
      TallyIs(r, es, turns[..n], outs[..n]);
      TallyNext(r, es, turns[..n], outs[..n], turns[n], outs[n]);
      CreatedMore(outs[..n], outs[n]);
      LostMore(outs[..n], outs[n]);
      assert turns == turns[..n] + [turns[n]] && outs == outs[..n] + [outs[n]];
    }
  }

  /** Every turn so far ended as it may, the entries being those of the turns before it. */
  ghost predicate AllEnd(r: Route, es: seq<LogEntry>, turns: seq<Turn>, outs: seq<Option<Outcome>>) {
    |outs| == |turns| && forall i :: 0 <= i < |turns| ==> EndsAs(r, TallyOf(r, es, turns[..i], outs[..i]).entries, turns[i], outs[i])
  }

  lemma AllEndNext(r: Route, es: seq<LogEntry>, turns: seq<Turn>, outs: seq<Option<Outcome>>, t: Turn, o: Option<Outcome>)
    requires AllEnd(r, es, turns, outs) && EndsAs(r, TallyOf(r, es, turns, outs).entries, t, o)
    ensures AllEnd(r, es, turns + [t], outs + [o])
  {
    hide EndsAs, TallyOf;
    var all, ends := turns + [t], outs + [o];
    forall i | 0 <= i < |all|
      ensures EndsAs(r, TallyOf(r, es, all[..i], ends[..i]).entries, all[i], ends[i])
    {
      if i < |turns| {
        assert all[..i] == turns[..i] && ends[..i] == outs[..i] && all[i] == turns[i] && ends[i] == outs[i];
      } else {
        assert all[..i] == turns && ends[..i] == outs;
      }
    }
  }

  lemma AllEndNone(r: Route, es: seq<LogEntry>)
    ensures AllEnd(r, es, [], []) && TallyOf(r, es, [], []) == Tally(es, [], 0, 0)
  {
  }

  /** One turn. */
  method Turned(r: Route, t: Turn, resignMs: int) returns (o: Option<Outcome>, on: bool)
    requires r.Ok() && r.log.Valid() && r.log.boundary.Some? && |r.log.entries| + 1 < WORD && (t.Posting? ==> t.now < U64)
    modifies r.log`entries, r.log`byLabel, r.log`owners, r.log`sth, r.log`signedFrom, r.log`boundary, r.log`recordedTs
    modifies r.log.tree, r.log.tree.memo, r.log.map_, r.log.dir
    modifies r.Five()
    ensures r.Ok() && r.log.boundary == old(r.log.boundary) && if on then r.log.Valid() else t.Posting? && t.disk.truncateFails
    ensures EndsAs(r, old(r.log.entries), t, o) && r.log.entries == old(r.log.entries) + Entered(r, old(r.log.entries), t, o)
    ensures |r.log.entries| == |old(r.log.entries)| + (if Stored(o) then 1 else 0) + (if Lost(o) then 1 else 0)
    ensures |r.log.entries| <= |old(r.log.entries)| + 1 && (Lost(o) ==> t.Posting? && t.disk.headFails)
    ensures Orderly(ActsIn(r, old(r.log.entries), t, o), TurnTime(t), TurnTime(t)) && TotalTerms(r).windowMs > 0
    ensures r.total.buckets == Runs(old(r.total.buckets), TotalTerms(r), ActsIn(r, old(r.log.entries), t, o))
    ensures Net(old(r.total.buckets), TotalTerms(r), ActsIn(r, old(r.log.entries), t, o), "all") == if Stored(o) then 1 else 0
  {
    hide *;
    r.FiveAre();
    r.OkMeans();
    TermsAre(r);
    ghost var was, l, es := r.total.buckets, TotalTerms(r), r.log.entries;
    if t.SweepingAll? {
      SweepAll(r, t.now);
      OneAct(was, l, Act.Sweeping(t.now));
      SweepShares(was, l, t);
      SweepEnds(r, es, t);
      OutcomeIs(None);
      return None, true;
    }
    r.GatesFine(t.q, r.LabelOf(t.q) !in r.log.byLabel, t.address, t.at);
    var out, gates := Post(r, t.q, t.address, t.at, t.now, t.later, resignMs, t.disk);
    o, on := Some(out), out != Failed(Halted);
    ghost var i := |gates| - 1;
    GrowsIs(out);
    OutcomeIs(o);
    EndsIs(r, es, t, out);
    PostEnds(r, es, t, out);
    TotalGate(r, gates[i]);
    TimeIs(t);
    GateIsPublishes(out, i, was, gates[i]);
    AskedOrderly(out, i, gates[i]);
  }

  lemma OutcomeIs(o: Option<Outcome>)
    ensures Stored(o) <==> o.Some? && o.value.Created?
    ensures Lost(o) <==> o.Some? && Unacked(o.value)
  {
  }

  lemma TermsAre(r: Route)
    ensures TotalTerms(r) == Terms(r.total.perWindow, r.total.windowMs, r.total.cap)
  {
  }

  lemma TotalGate(r: Route, g: Gate)
    requires g.lim == r.total
    ensures TermsOf(g) == TotalTerms(r)
  {
  }

  lemma TimeIs(t: Turn)
    ensures t.Posting? ==> TurnTime(t) == t.at[4]
  {
  }

  lemma SweepShares(m: JsMap<Bucket>, l: Terms, t: Turn)
    requires l.windowMs > 0 && t.SweepingAll?
    ensures Share(m, l, Act.Sweeping(t.now), "all") == 0
    ensures Orderly([Act.Sweeping(t.now)], TurnTime(t), TurnTime(t))
  {
  }

  method SweepAll(r: Route, now: int)
    requires r.Ok()
    modifies r.Five()
    ensures r.Ok()
    ensures TotalTerms(r).windowMs > 0 && r.total.buckets == Acted(old(r.total.buckets), TotalTerms(r), Act.Sweeping(now))
  {
    hide *;
    r.FiveAre();
    r.OkMeans();
    TermsAre(r);
    r.limiter.Sweep(now);
    r.total.Sweep(now);
    r.perAccount.Sweep(now);
    r.newAccounts.Sweep(now);
    r.newPerAddress.Sweep(now);
    r.OkFrom();
  }

  /** The turns so far, and what the total was asked for them. */
  ghost predicate Counted(was: JsMap<Bucket>, now: JsMap<Bucket>, l: Terms, acts: seq<Act>, created: nat, unacked: nat, turns: seq<Turn>)
    requires l.windowMs > 0
  {
    && now == Runs(was, l, acts) && Net(was, l, acts, "all") == created && unacked <= HeadsLost(turns)
    && if turns == [] then acts == [] else Orderly(acts, TurnTime(turns[0]), TurnTime(turns[|turns| - 1]))
  }

  lemma CountedNone(was: JsMap<Bucket>, l: Terms)
    requires l.windowMs > 0
    ensures Counted(was, was, l, [], 0, 0, [])
  {
  }

  lemma CountedMore(was: JsMap<Bucket>, mid: JsMap<Bucket>, now: JsMap<Bucket>, l: Terms, acts: seq<Act>, more: seq<Act>,
                    created: nat, unacked: nat, acked: bool, lost: bool, turns: seq<Turn>, t: Turn)
    requires l.windowMs > 0 && Counted(was, mid, l, acts, created, unacked, turns)
    requires now == Runs(mid, l, more) && Net(mid, l, more, "all") == (if acked then 1 else 0)
    requires Orderly(more, TurnTime(t), TurnTime(t)) && (lost ==> t.Posting? && t.disk.headFails)
    requires turns != [] ==> TurnTime(turns[0]) <= TurnTime(turns[|turns| - 1]) <= TurnTime(t)
    ensures Counted(was, now, l, acts + more, created + (if acked then 1 else 0), unacked + (if lost then 1 else 0), turns + [t])
  {
    hide Orderly, Runs, Net, TurnTime;
    RunsJoin(was, l, acts, more, "all");
    assert (turns + [t])[..|turns + [t]| - 1] == turns;
    if turns == [] {
      assert acts + more == more;
    } else {
      OrderlyMore(acts, more, TurnTime(turns[0]), TurnTime(turns[|turns| - 1]), TurnTime(t));
    }
  }

  lemma TurnsNext(turns: seq<Turn>, i: nat)
    requires TurnsOk(turns) && i < |turns|
    ensures turns[i].Posting? ==> turns[i].now < U64
    ensures turns[..i + 1] == turns[..i] + [turns[i]]
    ensures turns[..i] != [] ==> TurnTime(turns[..i][0]) <= TurnTime(turns[..i][|turns[..i]| - 1]) <= TurnTime(turns[i])
  {
    hide TurnTime;
  }

  /** What the total has let through since the first of these turns. */
  lemma CountedBound(was: JsMap<Bucket>, now: JsMap<Bucket>, l: Terms, acts: seq<Act>, created: nat, unacked: nat, turns: seq<Turn>)
    requires was.Ok() && l.windowMs > 0 && l.perWindow >= 0.0 && turns != [] && TurnsOk(turns)
    requires Counted(was, now, l, acts, created, unacked, turns)
    ensures created as real <= l.perWindow + Gain(l.perWindow, l.windowMs, TurnTime(turns[|turns| - 1]) - TurnTime(turns[0]))
  {
    hide Orderly, Runs, Net, TurnTime, Gain;
    TotalBound(was, l, acts, TurnTime(turns[0]), TurnTime(turns[|turns| - 1]));
  }

  /**
   However publishes and sweeps follow one another: what the total's bucket counts is the
   publishes that were answered as stored, so over an interval of d milliseconds they are at
   most perWindow x (1 + d / windowMs). The log grows by these and by the entries whose head was
   not written, which no bucket counts: by no more of them than heads were lost. `outs` is how
   each turn ended; the run stops short only at a truncation that throws.
   */
  method Serve(r: Route, turns: seq<Turn>, resignMs: int) returns (outs: seq<Option<Outcome>>, ghost tally: Tally)
    requires r.Ok() && r.log.Valid() && r.log.boundary.Some? && |r.log.entries| + |turns| < WORD && TurnsOk(turns)
    modifies r.log`entries, r.log`byLabel, r.log`owners, r.log`sth, r.log`signedFrom, r.log`boundary, r.log`recordedTs
    modifies r.log.tree, r.log.tree.memo, r.log.map_, r.log.dir
    modifies r.Five()
    ensures r.Ok() && |outs| <= |turns|
    ensures |outs| < |turns| ==> outs != [] && turns[|outs| - 1].Posting? && turns[|outs| - 1].disk.truncateFails
    ensures AllEnd(r, old(r.log.entries), turns[..|outs|], outs) && tally == TallyOf(r, old(r.log.entries), turns[..|outs|], outs)
    ensures r.log.entries == tally.entries && |r.log.entries| == |old(r.log.entries)| + tally.created + tally.unacked
    ensures TotalTerms(r).windowMs > 0 && r.total.buckets == Runs(old(r.total.buckets), TotalTerms(r), tally.acts)
    ensures Net(old(r.total.buckets), TotalTerms(r), tally.acts, "all") == tally.created
    ensures tally.created == |CreatedTurns(outs)| && tally.unacked == |LostTurns(outs)|
    ensures tally.unacked <= HeadsLost(turns[..|outs|])
    ensures outs != [] ==>
      var d := TurnTime(turns[|outs| - 1]) - TurnTime(turns[0]);
      tally.created as real <= r.total.perWindow + d as real / r.total.windowMs as real * r.total.perWindow
  {
    hide *;
    r.FiveAre();
    r.OkMeans();
    TermsAre(r);
    ghost var was, l, es := r.total.buckets, TotalTerms(r), r.log.entries;
    BucketsOk(r.total);
    CountedNone(was, l);
    AllEndNone(r, es);
    outs, tally := [], Tally(es, [], 0, 0);
    var on := true;
    assert turns[..0] == [];
    while |outs| < |turns| && on
      invariant |outs| <= |turns| && r.Ok() && r.log.boundary.Some? && (on ==> r.log.Valid())
      invariant !on ==> outs != [] && turns[|outs| - 1].Posting? && turns[|outs| - 1].disk.truncateFails
      invariant AllEnd(r, es, turns[..|outs|], outs) && tally == TallyOf(r, es, turns[..|outs|], outs) && r.log.entries == tally.entries
      invariant |r.log.entries| == |es| + tally.created + tally.unacked && |r.log.entries| <= |es| + |outs|
      invariant Counted(was, r.total.buckets, l, tally.acts, tally.created, tally.unacked, turns[..|outs|])
      decreases |turns| - |outs|
    {
      var t := turns[|outs|];
      ghost var mid, before, so := r.total.buckets, r.log.entries, turns[..|outs|];
      TurnsNext(turns, |outs|);
      var o, going := Turned(r, t, resignMs);
      CountedMore(was, mid, r.total.buckets, l, tally.acts, ActsIn(r, before, t, o), tally.created, tally.unacked, Stored(o), Lost(o), so, t);
      TallyNext(r, es, so, outs, t, o);
      AllEndNext(r, es, so, outs, t, o);
      outs, on := outs + [o], going;
      tally := TallyOf(r, es, turns[..|outs|], outs);
    }
    CountedIs(was, r.total.buckets, l, tally.acts, tally.created, tally.unacked, turns[..|outs|]);
    TallyIs(r, es, turns[..|outs|], outs);
    if |outs| > 0 {
      TurnsPart(turns, |outs|);
      CountedBound(was, r.total.buckets, l, tally.acts, tally.created, tally.unacked, turns[..|outs|]);
      GainIs(r.total.perWindow, r.total.windowMs, TurnTime(turns[|outs| - 1]) - TurnTime(turns[0]));
    }
  }

  lemma BucketsOk(lim: RateLimiter)
    requires lim.Valid()
    ensures lim.buckets.Ok()
  {
  }

  lemma CountedIs(was: JsMap<Bucket>, now: JsMap<Bucket>, l: Terms, acts: seq<Act>, created: nat, unacked: nat, turns: seq<Turn>)
    requires l.windowMs > 0 && Counted(was, now, l, acts, created, unacked, turns)
    ensures now == Runs(was, l, acts) && Net(was, l, acts, "all") == created && unacked <= HeadsLost(turns)
  {
  }

  lemma TurnsPart(turns: seq<Turn>, n: nat)
    requires TurnsOk(turns) && 0 < n <= |turns|
    ensures TurnsOk(turns[..n]) && turns[..n] != [] && turns[..n][0] == turns[0] && turns[..n][|turns[..n]| - 1] == turns[n - 1]
  {
    hide TurnTime;
  }

  // --- Where the gates fall short ---------------------------------------------------------------

  /**
   A refused publish can fill a spent bucket: its key is dropped to make room for one that is
   then charged nothing. Two limiters of one token, the first with room for one key.
   */
  method SpentAgain() returns (before: real, after: real, refused: Option<nat>)
    ensures refused == Some(1) && before == 0.0 && after == 1.0
  {
    hide *;
    var one := new RateLimiter(1.0, 60000, 1);
    var all := new RateLimiter(1.0, 60000, 1);
    Emptied(one);
    Emptied(all);
    var ok := one.TakeN("a", 1.0, 0.0, 0);
    OneSpent(one, "a");
    before := one.Level("a", 0);
    ok := all.TakeN("all", 1.0, 0.0, 0);
    OneSpent(all, "all");
    var gates := [Gate(one, "b", 0.0, 0), Gate(all, "all", 0.0, 0)];
    TwoGates(one, all, gates);
    var retry;
    refused, retry := PassGates(gates, 0);
    OneMade(one, gates[0]);
    after := one.Level("a", 0);
  }

  function Spent(key: string): JsMap<Bucket> {
    JsMap([key], map[key := Bucket(0.0, 0)])
  }

  lemma Emptied(lim: RateLimiter)
    requires lim.Valid() && lim.buckets.at == map[]
    ensures lim.buckets == NoBuckets()
  {
    assert forall k :: k !in lim.buckets.order;
    if lim.buckets.order != [] {
      FirstIn(lim.buckets);
    }
  }

  lemma OneSpent(lim: RateLimiter, key: string)
    requires lim.Valid() && lim.perWindow == 1.0 && lim.windowMs == 60000
    requires lim.buckets == Acted(NoBuckets(), Terms(1.0, 60000, 1), Take(key, Charge(1.0, 0.0, 0)))
    ensures lim.buckets == Spent(key) && lim.Level(key, 0) == 0.0
  {
  }

  lemma TwoGates(one: RateLimiter, all: RateLimiter, gates: seq<Gate>)
    requires one != all && gates == [Gate(one, "b", 0.0, 0), Gate(all, "all", 0.0, 0)]
    requires one.Valid() && one.perWindow == 1.0 && one.windowMs == 60000 && one.buckets == Spent("a")
    requires all.Valid() && all.perWindow == 1.0 && all.windowMs == 60000 && all.buckets == Spent("all")
    ensures GatesOk(gates) && Limiters(gates) == {one, all}
    ensures Lets(one.buckets, gates[0]) && !Lets(all.buckets, gates[1])
  {
    assert gates[0].lim in Limiters(gates) && gates[1].lim in Limiters(gates);
  }

  lemma OneMade(one: RateLimiter, g: Gate)
    requires g == Gate(one, "b", 0.0, 0) && one.cap == 1 && one.perWindow == 1.0 && Unpaid(Spent("a"), g)
    ensures one.windowMs > 0 && one.Level("a", 0) == 1.0
  {
    assert VictimIn(Spent("a"), 1, "b") == {"a"};
  }
}
