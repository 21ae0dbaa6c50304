/**
 What rations first contacts (server/server.js): the token bucket that a new mailbox is
 charged to, and the routing ids queued for lately, which are not charged again.
 Tokens are reals and times are whole milliseconds, as parameters.
 */
module Admission {
  import opened JsMaps
  import opened Tokens

  const MINUTE: int := 60000

  /** The tokens that `ms` milliseconds bring. */
  function Refill(perMinute: real, ms: int): real {
    Gain(perMinute, MINUTE, ms)
  }

  lemma RefillAdds(perMinute: real, a: int, b: int)
    ensures Refill(perMinute, a) + Refill(perMinute, b) == Refill(perMinute, a + b)
    ensures perMinute >= 0.0 && a >= 0 ==> Refill(perMinute, a) >= 0.0
  {
    GainAdds(perMinute, MINUTE, a, b);
    if perMinute >= 0.0 && a >= 0 {
      GainGrows(perMinute, MINUTE, a);
    }
  }

  class NewMailboxGate {
    const perMinute: real
    var tokens: real
    var at: int

    constructor (perMinute: real, now: int)
      ensures this.perMinute == perMinute && tokens == perMinute && at == now
    {
      this.perMinute := perMinute;
      tokens := perMinute;
      at := now;
    }

    /** What the bucket holds at a time. */
    function Have(now: int): real
      reads this
    {
      Min(perMinute, tokens + Refill(perMinute, now - at))
    }

    /** So many tokens a minute, and never more than one minute's. */
    lemma HaveIs(now: int)
      ensures var refilled := tokens + (now - at) as real / 60000.0 * perMinute;
        Have(now) == if perMinute <= refilled then perMinute else refilled
    {
    }

    /** True if a mailbox may be created now, which it spends a token on. */
    method Take(now: int) returns (ok: bool)
      modifies this
      ensures at == now && ok == (old(Have(now)) >= 1.0) && tokens == old(Have(now)) - (if ok then 1.0 else 0.0)
    {
      tokens := Min(perMinute, tokens + Refill(perMinute, now - at));
      at := now;
      if tokens < 1.0 {
        return false;
      }
      tokens := tokens - 1.0;
      return true;
    }
  }

  /** What `paid` tokens spent, and the tokens left, come to since `start`. */
  ghost predicate Bounded(paid: nat, tokens: real, perMinute: real, ms: int) {
    tokens >= 0.0 && paid as real + tokens <= perMinute + Refill(perMinute, ms)
  }

  /** A take keeps the books: it spends only what time has brought. */
  lemma TakeBounded(paid: nat, tokens: real, perMinute: real, start: int, at: int, now: int)
    requires perMinute >= 0.0 && at <= now && Bounded(paid, tokens, perMinute, at - start)
    ensures var have := Min(perMinute, tokens + Refill(perMinute, now - at));
      Bounded(paid, have, perMinute, now - start) &&
      (have >= 1.0 ==> Bounded(paid + 1, have - 1.0, perMinute, now - start))
  {
    RefillAdds(perMinute, at - start, now - at);
    RefillAdds(perMinute, now - at, 0);
    assert at - start + (now - at) == now - start;
  }

  /** The bound in plain numbers. */
  lemma BoundedIs(paid: nat, tokens: real, perMinute: real, ms: int)
    ensures Bounded(paid, tokens, perMinute, ms) <==> tokens >= 0.0 && paid as real + tokens <= perMinute + ms as real / 60000.0 * perMinute
  {
  }

  class SeenMailboxes {
    const cap: nat
    const ttlMs: int
    var ids: JsMap<int>

    ghost predicate Valid()
      reads this
    {
      ids.Ok()
    }

    constructor (cap: nat, ttlMs: int)
      ensures this.cap == cap && this.ttlMs == ttlMs && Valid() && ids.at == map[]
    {
      this.cap := cap;
      this.ttlMs := ttlMs;
      ids := JsMap([], map[]);
    }

    predicate Has(rid: string, now: int)
      reads this
    {
      rid in ids.at && now - ids.at[rid] < ttlMs
    }

    /** Records an accepted send: rid is the latest, and past the cap the id least recently queued for is forgotten. */
    method Touch(rid: string, now: int)
      requires Valid()
      modifies this
      ensures Valid()
      ensures ids.order == Latest(Without(old(ids.order), rid) + [rid], cap)
      ensures forall r :: r in ids.at ==> r in old(ids.at)[rid := now] && ids.at[r] == old(ids.at)[rid := now][r]
      ensures ids.at.Keys <= old(ids.at.Keys) + {rid}
      ensures cap >= 1 ==> rid in ids.at && ids.at[rid] == now
      ensures old(|ids.order|) <= cap ==> |ids.order| <= cap
    {
      Renewed(ids, rid, now);
      DeleteOk(ids, rid);
      ids := ids.Delete(rid);
      ids := ids.Set(rid, now);
      assert ids.order[|ids.order| - 1] == rid;
      if |ids.order| > cap {
        DeleteFirst(ids);
        DeleteOk(ids, ids.order[0]);
        ids := ids.Delete(ids.order[0]);
      }
    }
  }

  /** Without the first, if there is one too many. */
  function Latest(order: seq<string>, cap: nat): seq<string> {
    if |order| > cap then order[1..] else order
  }
}
