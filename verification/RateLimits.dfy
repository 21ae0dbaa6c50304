/**
 The token buckets of the log's server (kt/server.js) and the gates a publish passes: a bucket a
 key, refilled with time; a charge may leave a debt; a refusal gives back what was taken.
 Tokens are reals and times are whole milliseconds, as parameters.
 */
module RateLimits {
  import opened Options
  import opened JsMaps
  import opened Tokens

  datatype Bucket = Bucket(tokens: real, at: int)

  /** Math.ceil. */
  function Ceil(r: real): (n: int)
    ensures n as real >= r && (n - 1) as real < r
  {
    -((-r).Floor)
  }

  /** What a bucket holds at a time; a key without one has a full one. */
  function LevelOf(b: Option<Bucket>, perWindow: real, windowMs: int, t: int): real
    requires windowMs > 0
  {
    if b.None? then perWindow else Min(perWindow, b.value.tokens + Gain(perWindow, windowMs, t - b.value.at))
  }

  /** The level written out: what the bucket had and what has come since, never past the brim. */
  lemma LevelWritten(b: Option<Bucket>, perWindow: real, windowMs: int, t: int)
    requires windowMs > 0
    ensures b.None? ==> LevelOf(b, perWindow, windowMs, t) == perWindow
    ensures b.Some? ==>
      var have := b.value.tokens + (t - b.value.at) as real / windowMs as real * perWindow;
      LevelOf(b, perWindow, windowMs, t) == if have > perWindow then perWindow else have
  {
  }

  /** Refilling a bucket early is seen by nobody later. */
  lemma RefillUnseen(b: Option<Bucket>, perWindow: real, windowMs: int, now: int, t: int)
    requires windowMs > 0 && perWindow >= 0.0 && now <= t
    ensures LevelOf(Some(Bucket(LevelOf(b, perWindow, windowMs, now), now)), perWindow, windowMs, t) ==
      LevelOf(b, perWindow, windowMs, t)
  {
    GainGrows(perWindow, windowMs, t - now);
    if b.Some? {
      GainAdds(perWindow, windowMs, now - b.value.at, t - now);
    }
  }

  // --- One bucket -------------------------------------------------------------------------

  /** A charge of n tokens, above a reserve, at a time. */
  datatype Charge = Charge(n: real, reserve: real, at: int)

  /** What takeN does to a key's bucket. */
  function Charged(b: Option<Bucket>, perWindow: real, windowMs: int, c: Charge): Bucket
    requires windowMs > 0
  {
    var have := LevelOf(b, perWindow, windowMs, c.at);
    Bucket(if have >= 1.0 + c.reserve then have - c.n else have, c.at)
  }

  /** What refund does to it. */
  function Returned(b: Bucket, perWindow: real): Bucket {
    Bucket(Min(perWindow, b.tokens + 1.0), b.at)
  }

  // --- Debts and sweeping -------------------------------------------------------------------

  /** A debt of at most a window is gone when two windows have passed: an idle bucket is a full one. */
  lemma IdleIsFull(b: Bucket, perWindow: real, windowMs: int, t: int)
    requires windowMs > 0 && perWindow >= 0.0 && b.tokens >= -perWindow && t - b.at >= 2 * windowMs
    ensures LevelOf(Some(b), perWindow, windowMs, t) == perWindow
  {
    var spare := t - b.at - 2 * windowMs;
    GainAdds(perWindow, windowMs, windowMs, windowMs);
    GainAdds(perWindow, windowMs, 2 * windowMs, spare);
    GainGrows(perWindow, windowMs, spare);
    assert windowMs as real / windowMs as real == 1.0;
  }

  /** The least whole number of milliseconds that bring this many tokens. */
  lemma LeastWait(perWindow: real, windowMs: int, need: real, ms: int)
    requires windowMs > 0 && perWindow > 0.0
    ensures Gain(perWindow, windowMs, ms) >= need <==> ms >= Ceil(need / perWindow * windowMs as real)
  {
    var w := windowMs as real;
    var x, y := ms as real / w, need / perWindow;
    assert x * w == ms as real && y * perWindow == need;
    Scales(x, y, perWindow);
    Scales(x, y, w);
  }

  /** Whether a take above the reserve succeeds d milliseconds from now. */
  predicate OpenAfter(b: Option<Bucket>, perWindow: real, windowMs: int, reserve: real, now: int, d: nat)
    requires windowMs > 0
  {
    LevelOf(b, perWindow, windowMs, now + d) >= 1.0 + reserve
  }

  /** A take succeeds then if the bucket, refilled, holds a token above the reserve. */
  lemma OpenIs(b: Option<Bucket>, perWindow: real, windowMs: int, reserve: real, now: int, d: nat)
    requires windowMs > 0
    ensures b.None? ==> (OpenAfter(b, perWindow, windowMs, reserve, now, d) <==> perWindow >= 1.0 + reserve)
    ensures b.Some? ==>
      (OpenAfter(b, perWindow, windowMs, reserve, now, d) <==>
       perWindow >= 1.0 + reserve && b.value.tokens + (now + d - b.value.at) as real / windowMs as real * perWindow >= 1.0 + reserve)
  {
    hide LevelOf;
    LevelWritten(b, perWindow, windowMs, now + d);
  }

  lemma LevelCases(b: Option<Bucket>, perWindow: real, windowMs: int, t: int)
    requires windowMs > 0
    ensures b == None ==> LevelOf(b, perWindow, windowMs, t) == perWindow
    ensures b != None ==> b.Some? && LevelOf(b, perWindow, windowMs, t) == Min(perWindow, b.value.tokens + Gain(perWindow, windowMs, t - b.value.at))
  {
    hide Gain;
  }

  lemma WaitIs(b: Option<Bucket>, perWindow: real, windowMs: int, reserve: real, now: int, d: nat)
    requires windowMs > 0 && perWindow > 0.0 && 1.0 + reserve <= perWindow
    ensures var tokens := LevelOf(b, perWindow, windowMs, now);
      if tokens >= 1.0 + reserve then OpenAfter(b, perWindow, windowMs, reserve, now, d)
      else OpenAfter(b, perWindow, windowMs, reserve, now, d) <==> d >= Ceil((1.0 + reserve - tokens) / perWindow * windowMs as real)
  {
    hide Gain;
    var tokens := LevelOf(b, perWindow, windowMs, now);
    RefillUnseen(b, perWindow, windowMs, now, now + d);
    GainGrows(perWindow, windowMs, d);
    LeastWait(perWindow, windowMs, 1.0 + reserve - tokens, d);
  }

  lemma WaitFrom(b: Option<Bucket>, perWindow: real, windowMs: int, reserve: real, now: int, ms: int)
    requires windowMs > 0 && perWindow > 0.0 && 1.0 + reserve <= perWindow
    requires var tokens := LevelOf(b, perWindow, windowMs, now);
      ms == if tokens >= 1.0 + reserve then 0 else Ceil((1.0 + reserve - tokens) / perWindow * windowMs as real)
    ensures forall d: nat :: OpenAfter(b, perWindow, windowMs, reserve, now, d) <==> d >= ms
  {
    hide *;
    forall d: nat
      ensures OpenAfter(b, perWindow, windowMs, reserve, now, d) <==> d >= ms
    {
      WaitIs(b, perWindow, windowMs, reserve, now, d);
    }
  }

  lemma NeverOpen(b: Option<Bucket>, perWindow: real, windowMs: int, reserve: real, now: int)
    requires windowMs > 0
    ensures 1.0 + reserve > perWindow ==> forall d: nat :: !OpenAfter(b, perWindow, windowMs, reserve, now, d)
  {
    hide Gain;
  }

  lemma Scales(x: real, y: real, k: real)
    requires k > 0.0
    ensures x * k >= y * k <==> x >= y
  {
    if x >= y {
      assert (x - y) * k >= 0.0;
    } else {
      assert (y - x) * k > 0.0;
    }
  }

  // --- The map of buckets ---------------------------------------------------------------------

  lemma MadeRoom(m: JsMap<Bucket>, key: string)
    requires m.Ok() && key !in m.at
    ensures m.order != [] ==>
      var r := m.Delete(m.order[0]); r.Ok() && r.at == m.at - {m.order[0]} && key !in r.at && r.order == m.order[1..]
  {
    if m.order != [] {
      DeleteFirst(m);
    }
  }

  lemma Deleted(m: JsMap<Bucket>, key: string)
    requires m.Ok() && key in m.at
    ensures m.Delete(key).Ok() && m.Delete(key).at == m.at - {key} &&
      |m.Delete(key).order| == |m.order| - 1 && m.Delete(key).order == Without(m.order, key)
  {
    DeleteOk(m, key);
  }

  lemma Put(m: JsMap<Bucket>, key: string, b: Bucket)
    requires m.Ok() && key !in m.at
    ensures m.Set(key, b).Ok() && m.Set(key, b).at == m.at[key := b] && m.Set(key, b).order == m.order + [key]
  {
    SetOk(m, key, b);
  }

  /** Taking a key out before putting it back is putting it. */
  lemma Rekeyed(before: map<string, Bucket>, now: map<string, Bucket>, victim: set<string>, key: string, b: Bucket)
    requires key !in now && now == before - victim - {key}
    ensures now[key := b] == (before - victim)[key := b]
  {
  }

  /** The charge as the method works it out, the key's bucket or a full one in hand. */
  lemma ChargedIs(held: Option<Bucket>, b: Bucket, perWindow: real, windowMs: int, c: Charge)
    requires windowMs > 0 && b == if held.Some? then held.value else Bucket(perWindow, c.at)
    ensures var have := Min(perWindow, b.tokens + Gain(perWindow, windowMs, c.at - b.at));
      have == LevelOf(held, perWindow, windowMs, c.at) &&
      Charged(held, perWindow, windowMs, c) == Bucket(if have < 1.0 + c.reserve then have else have - c.n, c.at)
  {
    GainNothing(perWindow, windowMs);
  }

  // --- The limiter --------------------------------------------------------------------------

  class RateLimiter {
    const perWindow: real
    const windowMs: int
    const cap: nat
    var buckets: JsMap<Bucket>

    constructor (perWindow: real, windowMs: int, cap: nat)
      requires windowMs > 0
      ensures this.perWindow == perWindow && this.windowMs == windowMs && this.cap == cap
      ensures Valid() && buckets.at == map[]
    {
      this.perWindow, this.windowMs, this.cap := perWindow, windowMs, cap;
      buckets := JsMap([], map[]);
    }

    ghost predicate Valid()
      reads `buckets
    {
      buckets.Ok() && windowMs > 0
    }

    function Held(key: string): Option<Bucket>
      reads `buckets
    {
      HeldIn(buckets.at, key)
    }

    /** What a take would find. */
    function Level(key: string, t: int): real
      requires windowMs > 0
      reads this
    {
      LevelOf(Held(key), perWindow, windowMs, t)
    }

    /** The least recent key, dropped to make room when a take brings a new one. */
    ghost function Victim(key: string): set<string>
      reads `buckets
    {
      VictimIn(buckets, cap, key)
    }

    /** The other keys, least recent first, once a take has made room. */
    ghost function Others(key: string): seq<string>
      reads `buckets
    {
      OthersIn(buckets, cap, key)
    }

    /** takeN: the key's bucket refilled, charged when it holds a token above the reserve, and most recent. */
    method TakeN(key: string, n: real, reserve: real, now: int) returns (ok: bool)
      requires Valid()
      modifies `buckets
      ensures Valid()
      ensures ok <==> old(Level(key, now)) >= 1.0 + reserve
      ensures forall k :: k in buckets.at && k != key ==> k in old(buckets.at) && buckets.at[k] == old(buckets.at)[k]
      ensures forall k :: k in old(buckets.at) && k !in buckets.at ==>
        key !in old(buckets.at) && old(|buckets.order|) >= cap && old(buckets.order) != [] && k == old(buckets.order)[0]
      ensures buckets.at == (old(buckets.at) - old(Victim(key)))[key := Charged(old(Held(key)), perWindow, windowMs, Charge(n, reserve, now))]
      ensures buckets.order == old(Others(key)) + [key]
      ensures buckets == Acted(old(buckets), Terms(perWindow, windowMs, cap), Take(key, Charge(n, reserve, now)))
      ensures cap >= 1 && old(|buckets.order|) <= cap ==> |buckets.order| <= cap
    {
      hide *;
      Opened();
      ghost var before, held := buckets, Held(key);
      HeldIs(key);
      VictimIs(key);
      OthersAre(key);
      LevelIs(key, now);
      var b := Bucket(perWindow, now);
      if key !in buckets.at {
        MadeRoom(buckets, key);
        if |buckets.order| >= cap && buckets.order != [] {
          buckets := buckets.Delete(buckets.order[0]);
        }
      } else {
        b := buckets.at[key];
        Deleted(buckets, key);
        buckets := buckets.Delete(key);
      }
      var have := Min(perWindow, b.tokens + Gain(perWindow, windowMs, now - b.at));
      ChargedIs(held, b, perWindow, windowMs, Charge(n, reserve, now));
      ok := !(have < 1.0 + reserve);
      var charged := Bucket(if ok then have - n else have, now);
      Put(buckets, key, charged);
      Rekeyed(before.at, buckets.at, old(Victim(key)), key, charged);
      buckets := buckets.Set(key, charged);
      TakenIs(old(buckets), buckets, Terms(perWindow, windowMs, cap), key, Charge(n, reserve, now));
      OthersStay(before, buckets, cap, key, charged);
      Closed();
    }

    lemma Opened()
      requires Valid()
      ensures buckets.Ok() && windowMs > 0
    {
    }

    lemma Closed()
      requires buckets.Ok() && windowMs > 0
      ensures Valid()
    {
    }

    lemma HeldIs(key: string)
      ensures Held(key) == HeldIn(buckets.at, key)
      ensures Held(key) == if key in buckets.at then Some(buckets.at[key]) else None
    {
    }

    lemma LevelIs(key: string, t: int)
      requires windowMs > 0
      ensures Level(key, t) == LevelOf(Held(key), perWindow, windowMs, t)
    {
    }

    lemma OthersAre(key: string)
      ensures Others(key) == OthersIn(buckets, cap, key)
      ensures Others(key) ==
        if key in buckets.at then Without(buckets.order, key)
        else if |buckets.order| >= cap && buckets.order != [] then buckets.order[1..]
        else buckets.order
    {
    }

    lemma VictimIs(key: string)
      ensures Victim(key) == VictimIn(buckets, cap, key)
      ensures Victim(key) == if key !in buckets.at && |buckets.order| >= cap && buckets.order != [] then {buckets.order[0]} else {}
    {
    }

    /** refund: a token back, never past the brim; nothing for a key that has no bucket. */
    method Refund(key: string)
      requires Valid()
      modifies `buckets
      ensures Valid() && buckets.order == old(buckets.order)
      ensures forall t :: buckets == Acted(old(buckets), Terms(perWindow, windowMs, cap), Back(key, t))
      ensures buckets.at == if key in old(buckets.at)
        then old(buckets.at)[key := Bucket(Min(perWindow, old(buckets.at)[key].tokens + 1.0), old(buckets.at)[key].at)]
        else old(buckets.at)
    {
      if key in buckets.at {
        var b := buckets.at[key];
        SetOk(buckets, key, Bucket(Min(perWindow, b.tokens + 1.0), b.at));
        buckets := buckets.Set(key, Bucket(Min(perWindow, b.tokens + 1.0), b.at));
      }
    }

    /**
     waitMs: when a take above the reserve can ever succeed, the least whole wait after which it
     does. Where the reserve can never be met no wait is enough, and a key without a bucket is
     answered 0 all the same.
     */
    method WaitMs(key: string, reserve: real, now: int) returns (ms: int)
      requires Valid() && reserve >= 0.0
      ensures !(perWindow > 0.0) ==> ms == windowMs
      ensures perWindow > 0.0 ==> ms >= 0
      ensures perWindow > 0.0 && 1.0 + reserve <= perWindow ==>
        forall d: nat :: OpenAfter(Held(key), perWindow, windowMs, reserve, now, d) <==> d >= ms
      ensures 1.0 + reserve > perWindow ==> forall d: nat :: !OpenAfter(Held(key), perWindow, windowMs, reserve, now, d)
      ensures perWindow > 0.0 && key !in buckets.at ==> ms == 0
    {
      hide *;
      Opened();
      HeldIs(key);
      NeverOpen(Held(key), perWindow, windowMs, reserve, now);
      if !(perWindow > 0.0) {
        return windowMs;
      }
      LevelCases(Held(key), perWindow, windowMs, now);
      ghost var level := LevelOf(Held(key), perWindow, windowMs, now);
      if key !in buckets.at {
        ms := 0;
      } else {
        var b := buckets.at[key];
        var tokens := Min(perWindow, b.tokens + Gain(perWindow, windowMs, now - b.at));
        if tokens >= 1.0 + reserve {
          ms := 0;
        } else {
          ms := Ceil((1.0 + reserve - tokens) / perWindow * windowMs as real);
          NotNow(perWindow, windowMs, 1.0 + reserve - tokens);
        }
      }
      if 1.0 + reserve <= perWindow {
        WaitFrom(Held(key), perWindow, windowMs, reserve, now, ms);
      }
    }

    /** sweep: buckets idle for two windows, and at least two minutes, are forgotten. */
    method Sweep(now: int)
      requires Valid()
      modifies `buckets
      ensures Valid()
      ensures buckets == Acted(old(buckets), Terms(perWindow, windowMs, cap), Sweeping(now))
      ensures buckets.at == old(buckets.at) - IdleKeys(old(buckets.at), windowMs, now)
      ensures forall k :: k in buckets.at <==>
        k in old(buckets.at) && (now - old(buckets.at)[k].at <= 2 * windowMs || now - old(buckets.at)[k].at <= 120_000)
      ensures buckets.order == Listed(old(buckets.order), buckets.at.Keys)
      ensures perWindow >= 0.0 && old(NoGreatDebt()) ==> forall k: string, t: int :: t >= now ==> Level(k, t) == old(Level(k, t))
    {
      hide *;
      Opened();
      var keys := buckets.order;
      ghost var before := buckets.at;
      SweptStart(buckets, windowMs, now);
      StaysListed(buckets);
      for i := 0 to |keys|
        invariant buckets.Ok() && windowMs > 0 && buckets.at == Swept(before, keys[..i], windowMs, now)
        invariant buckets.order == Listed(keys, buckets.at.Keys)
      {
        SweptNext(before, keys, i, windowMs, now);
        if now - buckets.at[keys[i]].at > Idle(windowMs) {
          DeleteOk(buckets, keys[i]);
          DeletedListed(buckets, keys, keys[i]);
          buckets := buckets.Delete(keys[i]);
        }
      }
      SweptEnd(before, keys, windowMs, now);
      ClearedIs(JsMap(keys, before), buckets, windowMs, now);
      StaysIs(before, windowMs, now);
      SweepUnseen(before, perWindow, windowMs, now);
      Closed();
      NoGreatDebtIs(before);
      LevelsAre();
    }

    twostate lemma LevelsAre()
      requires windowMs > 0
      ensures forall k: string, t: int :: Level(k, t) == LevelOf(HeldIn(buckets.at, k), perWindow, windowMs, t)
      ensures forall k: string, t: int :: old(Level(k, t)) == LevelOf(HeldIn(old(buckets.at), k), perWindow, windowMs, t)
    {
    }

    twostate lemma NoGreatDebtIs(at: map<string, Bucket>)
      requires at == old(buckets.at)
      ensures old(NoGreatDebt()) <==> forall k :: k in at ==> at[k].tokens >= -perWindow
    {
    }

    /** No bucket owes more than a window: kept by charges of at most perWindow. */
    ghost predicate NoGreatDebt()
      reads this
    {
      forall k :: k in buckets.at ==> buckets.at[k].tokens >= -perWindow
    }
  }

  /** A key that was never seen is told not to wait, though the reserve is more than its bucket will ever hold. */
  method NoWaitExample() returns (ms: int)
    ensures ms == 0 && forall d: nat :: !OpenAfter(None, 1.0, 60000, 1.0, 0, d)
  {
    var lim := new RateLimiter(1.0, 60000, 1);
    ms := lim.WaitMs("a", 1.0, 0);
  }

  function Idle(windowMs: int): int {
    if 2 * windowMs >= 120000 then 2 * windowMs else 120000
  }

  ghost function Keys(s: seq<string>): set<string> {
    set k | k in s
  }

  ghost function IdleKeys(at: map<string, Bucket>, windowMs: int, now: int): set<string> {
    set k | k in at && now - at[k].at > Idle(windowMs)
  }

  lemma StaysIs(at: map<string, Bucket>, windowMs: int, now: int)
    ensures forall k :: k in at - IdleKeys(at, windowMs, now) <==>
      k in at && (now - at[k].at <= 2 * windowMs || now - at[k].at <= 120_000)
  {
  }

  /** What is left once these keys have been looked at. */
  ghost function Swept(at: map<string, Bucket>, seen: seq<string>, windowMs: int, now: int): map<string, Bucket> {
    at - (IdleKeys(at, windowMs, now) * Keys(seen))
  }

  /** The buckets once the idle ones are forgotten: the keys that stay keep their order. */
  ghost function Cleared(m: JsMap<Bucket>, windowMs: int, now: int): JsMap<Bucket> {
    var kept := m.at - IdleKeys(m.at, windowMs, now);
    JsMap(Listed(m.order, kept.Keys), kept)
  }

  lemma ClearedIs(m: JsMap<Bucket>, r: JsMap<Bucket>, windowMs: int, now: int)
    requires r.at == m.at - IdleKeys(m.at, windowMs, now) && r.order == Listed(m.order, r.at.Keys)
    ensures r == Cleared(m, windowMs, now)
    ensures forall l: Terms :: l.windowMs > 0 && l.windowMs == windowMs ==> r == Acted(m, l, Sweeping(now))
  {
  }

  lemma StaysListed(m: JsMap<Bucket>)
    requires m.Ok()
    ensures m.order == Listed(m.order, m.at.Keys)
  {
    ListedAll(m.order, m.at.Keys);
  }

  lemma DeletedListed(m: JsMap<Bucket>, keys: seq<string>, k: string)
    requires m.order == Listed(keys, m.at.Keys)
    ensures m.Delete(k).order == Listed(keys, m.Delete(k).at.Keys)
  {
    ListedWithout(keys, m.at.Keys, k);
    assert (m.at - {k}).Keys == m.at.Keys - {k};
  }

  lemma SweptStart(m: JsMap<Bucket>, windowMs: int, now: int)
    requires m.Ok()
    ensures Swept(m.at, m.order[..0], windowMs, now) == m.at
    ensures NoRepeat(m.order) && Keys(m.order) == m.at.Keys
  {
    IterationOk(m);
    assert Keys(m.order[..0]) == {};
  }

  lemma SweptNext(at: map<string, Bucket>, keys: seq<string>, i: nat, windowMs: int, now: int)
    requires i < |keys| && NoRepeat(keys) && Keys(keys) == at.Keys
    ensures var was, next := Swept(at, keys[..i], windowMs, now), Swept(at, keys[..i + 1], windowMs, now);
      keys[i] in was && was[keys[i]] == at[keys[i]] &&
      next == if now - at[keys[i]].at > Idle(windowMs) then was - {keys[i]} else was
  {
    hide Idle;
    assert keys[..i + 1] == keys[..i] + [keys[i]];
    assert keys[i] in Keys(keys) && keys[i] !in keys[..i];
    assert Keys(keys[..i + 1]) == Keys(keys[..i]) + {keys[i]};
  }

  lemma SweptEnd(at: map<string, Bucket>, keys: seq<string>, windowMs: int, now: int)
    requires Keys(keys) == at.Keys
    ensures Swept(at, keys[..|keys|], windowMs, now) == at - IdleKeys(at, windowMs, now)
  {
    assert keys[..|keys|] == keys;
    assert IdleKeys(at, windowMs, now) * Keys(keys) == IdleKeys(at, windowMs, now);
  }

  function HeldIn(at: map<string, Bucket>, key: string): Option<Bucket> {
    if key in at then Some(at[key]) else None
  }

  /** Sweeping is seen by nobody: a key that is forgotten had a full bucket, and has one. */
  lemma SweepUnseen(at: map<string, Bucket>, perWindow: real, windowMs: int, now: int)
    requires windowMs > 0
    ensures perWindow >= 0.0 && (forall k :: k in at ==> at[k].tokens >= -perWindow) ==>
      forall k: string, t: int :: t >= now ==>
        LevelOf(HeldIn(at - IdleKeys(at, windowMs, now), k), perWindow, windowMs, t) == LevelOf(HeldIn(at, k), perWindow, windowMs, t)
  {
    hide Gain;
    if perWindow >= 0.0 && forall k :: k in at ==> at[k].tokens >= -perWindow {
      forall k: string, t: int | t >= now
        ensures LevelOf(HeldIn(at - IdleKeys(at, windowMs, now), k), perWindow, windowMs, t) == LevelOf(HeldIn(at, k), perWindow, windowMs, t)
      {
        if k in IdleKeys(at, windowMs, now) {
          IdleIsFull(at[k], perWindow, windowMs, t);
        }
      }
    }
  }

  /** A take leaves every other key's bucket as it was, but for the least recent key, which a new key drops where the limiter is full. */
  lemma OthersStay(m: JsMap<Bucket>, r: JsMap<Bucket>, cap: nat, key: string, b: Bucket)
    requires r.at == (m.at - VictimIn(m, cap, key))[key := b]
    ensures forall k :: k in r.at && k != key ==> k in m.at && r.at[k] == m.at[k]
    ensures forall k :: k in m.at && k !in r.at ==> key !in m.at && |m.order| >= cap && m.order != [] && k == m.order[0]
  {
  }

  /** The bucket a take leaves, written out. */
  lemma TakeWritten(m: JsMap<Bucket>, l: Terms, key: string, c: Charge)
    requires l.windowMs > 0
    ensures var r := Acted(m, l, Take(key, c)).at;
      key in r && r[key].at == c.at &&
      (key !in m.at ==> r[key].tokens == if l.perWindow >= 1.0 + c.reserve then l.perWindow - c.n else l.perWindow) &&
      (key in m.at ==>
         var full := m.at[key].tokens + (c.at - m.at[key].at) as real / l.windowMs as real * l.perWindow;
         var have := if full > l.perWindow then l.perWindow else full;
         r[key].tokens == if have >= 1.0 + c.reserve then have - c.n else have)
  {
    hide LevelOf, OthersIn, VictimIn;
    LevelWritten(HeldIn(m.at, key), l.perWindow, l.windowMs, c.at);
  }

  lemma GainIs(perWindow: real, windowMs: int, ms: int)
    requires windowMs > 0
    ensures Gain(perWindow, windowMs, ms) == ms as real / windowMs as real * perWindow
  {
  }

  lemma GainNothing(perWindow: real, windowMs: int)
    requires windowMs > 0
    ensures Gain(perWindow, windowMs, 0) == 0.0
  {
  }

  lemma NotNow(perWindow: real, windowMs: int, need: real)
    requires windowMs > 0 && perWindow > 0.0 && need > 0.0
    ensures Ceil(need / perWindow * windowMs as real) >= 0
  {
    assert need / perWindow > 0.0;
    assert need / perWindow * windowMs as real > 0.0;
  }

  /** A charge of at most perWindow leaves a debt of less than one. */
  lemma DebtKept(b: Option<Bucket>, perWindow: real, windowMs: int, c: Charge)
    requires windowMs > 0 && perWindow >= 0.0 && c.n <= perWindow && c.reserve >= 0.0
    requires b.Some? ==> b.value.tokens >= -perWindow && b.value.at <= c.at
    ensures Charged(b, perWindow, windowMs, c).tokens >= -perWindow
  {
    if b.Some? {
      GainGrows(perWindow, windowMs, c.at - b.value.at);
    }
  }

  /** The least recent key, which a take of a new key drops where the limiter is full. */
  ghost function VictimIn(m: JsMap<Bucket>, cap: nat, key: string): set<string> {
    if key !in m.at && |m.order| >= cap && m.order != [] then {m.order[0]} else {}
  }

  /** The other keys, least recent first, once a take has made room. */
  ghost function OthersIn(m: JsMap<Bucket>, cap: nat, key: string): seq<string> {
    if key in m.at then Without(m.order, key)
    else if |m.order| >= cap && m.order != [] then m.order[1..]
    else m.order
  }

  /** A key's bucket brought up to date, its victim dropped, and nothing else. */
  predicate Refilled(before: map<string, Bucket>, after: map<string, Bucket>, victim: set<string>, key: string,
                     perWindow: real, windowMs: int, now: int)
    requires windowMs > 0
  {
    after == (before - victim)[key := Bucket(LevelOf(HeldIn(before, key), perWindow, windowMs, now), now)]
  }

  lemma TakenIs(m: JsMap<Bucket>, r: JsMap<Bucket>, l: Terms, key: string, c: Charge)
    requires l.windowMs > 0 && r.order == OthersIn(m, l.cap, key) + [key]
    requires r.at == (m.at - VictimIn(m, l.cap, key))[key := Charged(HeldIn(m.at, key), l.perWindow, l.windowMs, c)]
    ensures r == Acted(m, l, Take(key, c))
  {
  }

  lemma RefilledUnseen(before: map<string, Bucket>, after: map<string, Bucket>, victim: set<string>, key: string,
                       perWindow: real, windowMs: int, now: int, k: string, t: int)
    requires windowMs > 0 && perWindow >= 0.0 && now <= t
    requires Refilled(before, after, victim, key, perWindow, windowMs, now)
    ensures k == key || k !in victim ==>
      LevelOf(HeldIn(after, k), perWindow, windowMs, t) == LevelOf(HeldIn(before, k), perWindow, windowMs, t)
    ensures k != key && k in victim ==> LevelOf(HeldIn(after, k), perWindow, windowMs, t) == perWindow
  {
    if k == key {
      RefillUnseen(HeldIn(before, key), perWindow, windowMs, now, t);
    }
  }

  /** A bucket is full at every later time exactly if it is full now. */
  lemma FullStays(b: Option<Bucket>, perWindow: real, windowMs: int, now: int, t: int)
    requires windowMs > 0 && perWindow >= 0.0 && now <= t && LevelOf(b, perWindow, windowMs, now) == perWindow
    ensures LevelOf(b, perWindow, windowMs, t) == perWindow
  {
    GainGrows(perWindow, windowMs, t - now);
    if b.Some? {
      GainAdds(perWindow, windowMs, now - b.value.at, t - now);
    }
  }

  /** A token taken and given back is a refill. */
  lemma GivenBack(b: Option<Bucket>, perWindow: real, windowMs: int, reserve: real, now: int)
    requires windowMs > 0 && LevelOf(b, perWindow, windowMs, now) >= 1.0 + reserve
    ensures Min(perWindow, Charged(b, perWindow, windowMs, Charge(1.0, reserve, now)).tokens + 1.0) == LevelOf(b, perWindow, windowMs, now)
  {
    hide Gain;
  }

  // --- A limiter's run ------------------------------------------------------------------------

  /** What a limiter was made with. */
  datatype Terms = Terms(perWindow: real, windowMs: int, cap: nat)

  /** What is asked of it: takeN, refund and sweep, each with the time it is asked at. */
  datatype Act = Take(key: string, c: Charge) | Back(key: string, at: int) | Sweeping(at: int)

  function TimeOf(a: Act): int {
    if a.Take? then a.c.at else a.at
  }

  /** The buckets an act leaves. */
  ghost function Acted(m: JsMap<Bucket>, l: Terms, a: Act): JsMap<Bucket>
    requires l.windowMs > 0
  {
    match a
    case Take(key, c) =>
      JsMap(OthersIn(m, l.cap, key) + [key],
            (m.at - VictimIn(m, l.cap, key))[key := Charged(HeldIn(m.at, key), l.perWindow, l.windowMs, c)])
    case Back(key, _) => if key in m.at then JsMap(m.order, m.at[key := Returned(m.at[key], l.perWindow)]) else m
    case Sweeping(at) => Cleared(m, l.windowMs, at)
  }

  ghost function Runs(m: JsMap<Bucket>, l: Terms, acts: seq<Act>): JsMap<Bucket>
    requires l.windowMs > 0
  {
    if acts == [] then m else Acted(Runs(m, l, acts[..|acts| - 1]), l, acts[|acts| - 1])
  }

  /** A key's charges that were let through, less those given back. */
  ghost function Net(m: JsMap<Bucket>, l: Terms, acts: seq<Act>, key: string): int
    requires l.windowMs > 0
  {
    if acts == [] then 0
    else
      var init, a := acts[..|acts| - 1], acts[|acts| - 1];
      Net(m, l, init, key) + Share(Runs(m, l, init), l, a, key)
  }

  ghost function Share(m: JsMap<Bucket>, l: Terms, a: Act, key: string): int
    requires l.windowMs > 0
  {
    if a.Sweeping? || a.key != key then 0
    else if a.Back? then -1
    else if LevelOf(HeldIn(m.at, key), l.perWindow, l.windowMs, a.c.at) >= 1.0 + a.c.reserve then 1
    else 0
  }

  /** No take of another key drops this one to make room. */
  ghost predicate NeverDropped(m: JsMap<Bucket>, l: Terms, acts: seq<Act>, key: string)
    requires l.windowMs > 0
  {
    forall i :: 0 <= i < |acts| && acts[i].Take? ==> key !in VictimIn(Runs(m, l, acts[..i]), l.cap, acts[i].key)
  }

  ghost predicate InOrder(acts: seq<Act>) {
    forall i, j :: 0 <= i <= j < |acts| ==> TimeOf(acts[i]) <= TimeOf(acts[j])
  }

  /** Each charge is of at least one token, above no less than nothing. */
  ghost predicate WholeTokens(acts: seq<Act>) {
    forall i :: 0 <= i < |acts| && acts[i].Take? ==> acts[i].c.n >= 1.0 && acts[i].c.reserve >= 0.0
  }

  /** A count and a key's bucket within the bound, from one time to another. */
  ghost predicate Within(net: int, b: Option<Bucket>, l: Terms, from: int, to: int)
    requires l.windowMs > 0
  {
    net <= 0 ||
    match b
    case None => net as real <= Gain(l.perWindow, l.windowMs, to - from)
    case Some(b) =>
      var brim := l.perWindow + Gain(l.perWindow, l.windowMs, b.at - from);
      from <= b.at <= to && net as real <= brim && net as real + b.tokens <= brim
  }

  /** One charge keeps the count within. */
  lemma WithinTake(net: int, b: Option<Bucket>, l: Terms, from: int, to: int, c: Charge)
    requires l.windowMs > 0 && l.perWindow >= 0.0 && from <= to <= c.at && c.n >= 1.0 && c.reserve >= 0.0
    requires Within(net, b, l, from, to)
    ensures Within(net + (if LevelOf(b, l.perWindow, l.windowMs, c.at) >= 1.0 + c.reserve then 1 else 0),
                   Some(Charged(b, l.perWindow, l.windowMs, c)), l, from, c.at)
  {
    hide Gain;
    GainGrows(l.perWindow, l.windowMs, c.at - to);
    GainGrows(l.perWindow, l.windowMs, c.at - from);
    GainAdds(l.perWindow, l.windowMs, to - from, c.at - to);
    if b.Some? {
      GainAdds(l.perWindow, l.windowMs, b.value.at - from, c.at - b.value.at);
      if b.value.at <= c.at {
        GainGrows(l.perWindow, l.windowMs, c.at - b.value.at);
      }
    }
  }

  /** A token given back, with the count of what it was taken for. */
  lemma WithinBack(net: int, b: Option<Bucket>, l: Terms, from: int, to: int, now: int)
    requires l.windowMs > 0 && l.perWindow >= 0.0 && from <= to <= now
    requires Within(net, b, l, from, to)
    ensures Within(net - 1, if b.Some? then Some(Returned(b.value, l.perWindow)) else None, l, from, now)
  {
    hide Gain;
    GainGrows(l.perWindow, l.windowMs, now - to);
    GainAdds(l.perWindow, l.windowMs, to - from, now - to);
  }

  /** Time alone, and a sweep: what it forgets has been idle for longer than a window. */
  lemma WithinSwept(net: int, b: Option<Bucket>, l: Terms, from: int, to: int, now: int)
    requires l.windowMs > 0 && l.perWindow >= 0.0 && from <= to <= now
    requires Within(net, b, l, from, to)
    ensures Within(net, b, l, from, now)
    ensures b.Some? && now - b.value.at > Idle(l.windowMs) ==> Within(net, None, l, from, now)
  {
    hide Gain;
    GainGrows(l.perWindow, l.windowMs, now - to);
    GainAdds(l.perWindow, l.windowMs, to - from, now - to);
    if b.Some? && now - b.value.at > Idle(l.windowMs) {
      var at := b.value.at;
      GainAdds(l.perWindow, l.windowMs, at - from, now - at);
      GainAdds(l.perWindow, l.windowMs, l.windowMs, now - at - l.windowMs);
      GainGrows(l.perWindow, l.windowMs, now - at - l.windowMs);
      OneWindow(l.perWindow, l.windowMs);
    }
  }

  lemma OneWindow(perWindow: real, windowMs: int)
    requires windowMs > 0
    ensures Gain(perWindow, windowMs, windowMs) == perWindow
  {
    assert windowMs as real / windowMs as real == 1.0;
  }

  /** What an act does to one key that it does not drop. */
  lemma ActOn(m: JsMap<Bucket>, l: Terms, a: Act, key: string)
    requires l.windowMs > 0 && (a.Take? ==> key !in VictimIn(m, l.cap, a.key))
    ensures var b, b' := HeldIn(m.at, key), HeldIn(Acted(m, l, a).at, key);
      match a
      case Take(k, c) => b' == if k == key then Some(Charged(b, l.perWindow, l.windowMs, c)) else b
      case Back(k, _) => b' == if k == key && b.Some? then Some(Returned(b.value, l.perWindow)) else b
      case Sweeping(t) => b' == if b.Some? && t - b.value.at > Idle(l.windowMs) then None else b
  {
    hide Charged, Idle, Listed, OthersIn, VictimIn, Returned;
  }

  lemma WithinAct(net: int, m: JsMap<Bucket>, l: Terms, from: int, to: int, a: Act, key: string)
    requires l.windowMs > 0 && l.perWindow >= 0.0 && from <= to <= TimeOf(a)
    requires a.Take? ==> key !in VictimIn(m, l.cap, a.key) && a.c.n >= 1.0 && a.c.reserve >= 0.0
    requires Within(net, HeldIn(m.at, key), l, from, to)
    ensures Within(net + Share(m, l, a, key), HeldIn(Acted(m, l, a).at, key), l, from, TimeOf(a))
  {
    hide Within, Acted, HeldIn, VictimIn, Charged, Returned, Idle, LevelOf;
    ActOn(m, l, a, key);
    WithinSwept(net, HeldIn(m.at, key), l, from, to, TimeOf(a));
    if a.Take? && a.key == key {
      WithinTake(net, HeldIn(m.at, key), l, from, to, a.c);
    } else if a.Back? && a.key == key {
      WithinBack(net, HeldIn(m.at, key), l, from, to, a.at);
    }
  }

  lemma {:induction false} RunWithin(m: JsMap<Bucket>, l: Terms, acts: seq<Act>, key: string)
    requires l.windowMs > 0 && l.perWindow >= 0.0 && acts != []
    requires InOrder(acts) && WholeTokens(acts) && NeverDropped(m, l, acts, key)
    ensures Within(Net(m, l, acts, key), HeldIn(Runs(m, l, acts).at, key), l, TimeOf(acts[0]), TimeOf(acts[|acts| - 1]))
  {
    hide Within, Share, Acted, HeldIn, VictimIn;
    var n := |acts| - 1;
    var init, a, from := acts[..n], acts[n], TimeOf(acts[0]);
    if n == 0 {
      WithinNone(HeldIn(m.at, key), l, from);
      WithinAct(0, m, l, from, from, a, key);
    } else {
      assert init[0] == acts[0] && init[n - 1] == acts[n - 1];
      assert forall i :: 0 <= i < n ==> init[..i] == acts[..i];
      RunWithin(m, l, init, key);
      WithinAct(Net(m, l, init, key), Runs(m, l, init), l, from, TimeOf(acts[n - 1]), a, key);
    }
  }

  lemma WithinNone(b: Option<Bucket>, l: Terms, t: int)
    requires l.windowMs > 0
    ensures Within(0, b, l, t, t)
  {
  }

  lemma WithinMeans(net: int, b: Option<Bucket>, l: Terms, from: int, to: int)
    requires l.windowMs > 0 && l.perWindow >= 0.0 && from <= to && Within(net, b, l, from, to)
    ensures var brim := l.perWindow + Gain(l.perWindow, l.windowMs, to - from);
      net as real <= brim && net as real + LevelOf(b, l.perWindow, l.windowMs, to) <= brim
  {
    hide Gain;
    GainGrows(l.perWindow, l.windowMs, to - from);
    if b.Some? {
      GainAdds(l.perWindow, l.windowMs, b.value.at - from, to - b.value.at);
      if b.value.at <= to {
        GainGrows(l.perWindow, l.windowMs, to - b.value.at);
      }
    }
  }

  /**
   Whatever is asked of a limiter, of any keys and in any order, with sweeps in between: the
   charges on a key that are let through and not given back, from the first act to the last, an
   interval of d milliseconds, are at most perWindow x (1 + d / windowMs), and so are they with
   what is left. For a key that is dropped to make room the count starts anew.
   */
  lemma WindowBound(m: JsMap<Bucket>, l: Terms, acts: seq<Act>, key: string)
    requires l.windowMs > 0 && l.perWindow >= 0.0 && acts != []
    requires InOrder(acts) && WholeTokens(acts) && NeverDropped(m, l, acts, key)
    ensures var d, net, b := TimeOf(acts[|acts| - 1]) - TimeOf(acts[0]), Net(m, l, acts, key), HeldIn(Runs(m, l, acts).at, key);
      && net as real <= l.perWindow + d as real / l.windowMs as real * l.perWindow
      && net as real + LevelOf(b, l.perWindow, l.windowMs, TimeOf(acts[|acts| - 1])) <= l.perWindow + d as real / l.windowMs as real * l.perWindow
  {
    hide Within, Net, Runs, NeverDropped, LevelOf, Gain;
    GainIs(l.perWindow, l.windowMs, TimeOf(acts[|acts| - 1]) - TimeOf(acts[0]));
    RunWithin(m, l, acts, key);
    WithinMeans(Net(m, l, acts, key), HeldIn(Runs(m, l, acts).at, key), l, TimeOf(acts[0]), TimeOf(acts[|acts| - 1]));
  }

  // --- Runs joined ----------------------------------------------------------------------------

  lemma {:induction false} RunsJoin(m: JsMap<Bucket>, l: Terms, a: seq<Act>, b: seq<Act>, key: string)
    requires l.windowMs > 0
    ensures Runs(m, l, a + b) == Runs(Runs(m, l, a), l, b)
    ensures Net(m, l, a + b, key) == Net(m, l, a, key) + Net(Runs(m, l, a), l, b, key)
  {
    hide Acted, Share;
    if b == [] {
      assert a + b == a;
    } else {
      var n := |b| - 1;
      assert (a + b)[..|a + b| - 1] == a + b[..n] && (a + b)[|a + b| - 1] == b[n];
      RunsJoin(m, l, a, b[..n], key);
    }
  }

  lemma ActedOk(m: JsMap<Bucket>, l: Terms, a: Act)
    requires l.windowMs > 0 && m.Ok()
    ensures Acted(m, l, a).Ok()
  {
    hide Charged, Returned, Idle, NoRepeat;
    match a
    case Take(key, c) => TakenOk(m, l.cap, key, Charged(HeldIn(m.at, key), l.perWindow, l.windowMs, c));
    case Back(key, _) =>
    case Sweeping(at) => ListedOk(m.order, (m.at - IdleKeys(m.at, l.windowMs, at)).Keys);
  }

  lemma TakenOk(m: JsMap<Bucket>, cap: nat, key: string, b: Bucket)
    requires m.Ok()
    ensures JsMap(OthersIn(m, cap, key) + [key], (m.at - VictimIn(m, cap, key))[key := b]).Ok()
  {
    hide NoRepeat;
    var order, rest := m.order, OthersIn(m, cap, key);
    WithoutNoRepeat(order, key);
    if order != [] {
      NoRepeatRest(order);
    }
    LastNoRepeat(rest, key);
  }

  lemma LastNoRepeat(s: seq<string>, k: string)
    requires NoRepeat(s) && k !in s
    ensures NoRepeat(s + [k])
  {
  }

  lemma {:induction false} ListedOk(order: seq<string>, keys: set<string>)
    requires NoRepeat(order)
    ensures NoRepeat(Listed(order, keys)) && forall k :: k in Listed(order, keys) <==> k in order && k in keys
  {
    hide NoRepeat;
    if order == [] {
      NoRepeatNone();
    } else {
      var rest := Listed(order[1..], keys);
      NoRepeatRest(order);
      ListedOk(order[1..], keys);
      NoRepeatMore(order[0], rest);
      assert Listed(order, keys) == if order[0] in keys then [order[0]] + rest else rest;
    }
  }

  lemma {:induction false} RunsOk(m: JsMap<Bucket>, l: Terms, acts: seq<Act>)
    requires l.windowMs > 0 && m.Ok()
    ensures Runs(m, l, acts).Ok()
  {
    hide JsMap.Ok, Acted;
    if acts != [] {
      RunsOk(m, l, acts[..|acts| - 1]);
      ActedOk(Runs(m, l, acts[..|acts| - 1]), l, acts[|acts| - 1]);
    }
  }

  /** Where every take is of one key it is never dropped. */
  lemma AloneNeverDropped(m: JsMap<Bucket>, l: Terms, acts: seq<Act>, key: string)
    requires l.windowMs > 0 && m.Ok() && forall i :: 0 <= i < |acts| && acts[i].Take? ==> acts[i].key == key
    ensures NeverDropped(m, l, acts, key)
  {
    hide Runs, VictimIn;
    forall i | 0 <= i < |acts| && acts[i].Take?
      ensures key !in VictimIn(Runs(m, l, acts[..i]), l.cap, acts[i].key)
    {
      RunsOk(m, l, acts[..i]);
      OwnVictim(Runs(m, l, acts[..i]), l.cap, key);
    }
  }

  lemma OwnVictim(m: JsMap<Bucket>, cap: nat, key: string)
    requires m.Ok()
    ensures key !in VictimIn(m, cap, key)
  {
    if m.order != [] {
      FirstIn(m);
    }
  }

  function NoBuckets(): JsMap<Bucket> {
    JsMap([], map[])
  }

  /** The cap is what makes it start anew: a key dropped for another may spend a window over again at once. */
  lemma DroppedExample()
    ensures var l, none := Terms(1.0, 60000, 1), NoBuckets();
      var acts := [Take("a", Charge(1.0, 0.0, 0)), Take("b", Charge(1.0, 0.0, 0)), Take("a", Charge(1.0, 0.0, 0))];
      InOrder(acts) && WholeTokens(acts) && Net(none, l, acts, "a") == 2
  {
    var l, none := Terms(1.0, 60000, 1), NoBuckets();
    var a, b := Take("a", Charge(1.0, 0.0, 0)), Take("b", Charge(1.0, 0.0, 0));
    var acts := [a, b, a];
    assert acts[..2] == [a, b] && [a, b][..1] == [a] && [a][..0] == [];
    assert Runs(none, l, []) == none;
    var one := Runs(none, l, [a]);
    assert one == Acted(none, l, a);
    assert one.order == ["a"];
    var two := Runs(none, l, [a, b]);
    assert two == Acted(one, l, b);
    assert "a" !in two.at;
    assert Net(none, l, [a], "a") == 1;
    assert Net(none, l, [a, b], "a") == 1;
  }
}
