/**
 The keys a mailbox holds its entries under, and the keys an acknowledgement looks
 under (server/server.js: entryKey, entryDedupes, ackCandidateKeys). An id is the
 sender's choice and may hold a separator: which envelopes an acknowledgement can find
 is said exactly.
 */
module EntryKeys {
  import opened Options
  import opened Mailbox

  /** `m:<id>` for a sealed envelope; the party goes into the key of anything else. */
  function EntryKey(e: Entry): string {
    if e.kind == Receipt then "r:" + e.id + ":" + Party(e)
    else if e.from.Some? then "m:" + e.id + ":" + e.from.value
    else "m:" + e.id
  }

  function Party(e: Entry): string {
    if e.from.Some? then e.from.value else ""
  }

  /** Whether an entry already under the key is this one arriving twice. */
  predicate Dedupes(e: Entry) {
    e.kind == Receipt || e.from.Some?
  }

  function Digit(d: nat): char
    requires d < 10
  {
    "0123456789"[d]
  }

  /** A number as it is written. */
  function Dec(n: nat): (s: string)
    ensures s != [] && '#' !in s && ':' !in s
  {
    if n < 10 then [Digit(n)] else Dec(n / 10) + [Digit(n % 10)]
  }

  function SlotKey(base: string, dup: nat): string {
    base + "#" + Dec(dup)
  }

  /** The key an entry may be held under: its own, or one of its numbered slots. */
  ghost predicate KeyOf(e: Entry, slots: nat) {
    e.key == EntryKey(e) || (!Dedupes(e) && exists dup :: 1 <= dup <= slots && e.key == SlotKey(EntryKey(e), dup))
  }

  /** Where an acknowledgement looks, in order. */
  function CandidateKeys(id: string, from: Option<string>, slots: nat): seq<string> {
    if from.Some? then ["m:" + id + ":" + from.value, "m:" + id]
    else ["m:" + id] + SlotKeys("m:" + id, slots)
  }

  function SlotKeys(base: string, slots: nat): (r: seq<string>)
    ensures |r| == slots
    ensures forall i :: 0 <= i < slots ==> r[i] == SlotKey(base, i + 1)
  {
    if slots == 0 then [] else SlotKeys(base, slots - 1) + [SlotKey(base, slots)]
  }

  /** The keys as they are written: `m:` and an id for an envelope, the sender's after it where there is one, and `r:` with both for a receipt. */
  lemma KeysWritten(e: Entry, slots: nat)
    ensures EntryKey(e) ==
      if e.kind == Receipt then "r:" + e.id + ":" + (if e.from.Some? then e.from.value else "")
      else if e.from.Some? then "m:" + e.id + ":" + e.from.value
      else "m:" + e.id
    ensures e.from.Some? ==> CandidateKeys(e.id, e.from, slots) == ["m:" + e.id + ":" + e.from.value, "m:" + e.id]
    ensures e.from.None? ==>
      var c := CandidateKeys(e.id, e.from, slots);
      |c| == slots + 1 && c[0] == "m:" + e.id && forall i :: 1 <= i <= slots ==> c[i] == "m:" + e.id + ("#" + Dec(i))
  {
    hide Dec;
    if e.from.None? {
      var c := CandidateKeys(e.id, e.from, slots);
      forall i | 1 <= i <= slots
        ensures c[i] == "m:" + e.id + ("#" + Dec(i))
      {
        assert c[i] == SlotKeys("m:" + e.id, slots)[i - 1] == SlotKey("m:" + e.id, i);
        assert SlotKey("m:" + e.id, i) == "m:" + e.id + ("#" + Dec(i));
      }
    }
  }

  /** Numbers are written in decimal. */
  lemma {:induction false} DecIs(n: nat)
    ensures n < 10 ==> Dec(n) == ["0123456789"[n]]
    ensures n >= 10 ==> Dec(n) == Dec(n / 10) + ["0123456789"[n % 10]]
  {
  }

  /** What an acknowledgement checks of the entry it finds. */
  predicate Answers(e: Entry, from: Option<string>) {
    e.kind == Msg && e.from == from
  }

  /** An envelope the acknowledgement names. */
  predicate Named(e: Entry, id: string, from: Option<string>) {
    e.kind == Msg && e.id == id && e.from == from
  }

  lemma Cancel(m: string, a: string, b: string)
    ensures m + a == m + b <==> a == b
  {
    assert (m + a)[|m|..] == a && (m + b)[|m|..] == b;
  }

  lemma CancelEnd(a: string, b: string, x: string)
    ensures a + x == b + x <==> a == b
  {
    if a + x == b + x {
      assert |a| == |b|;
      assert (a + x)[..|a|] == a && (b + x)[..|b|] == b;
    }
  }

  lemma NoneAfter(a: string, u: string, p: nat)
    requires '#' !in u
    ensures |a| < p < |a + ("#" + u)| ==> (a + ("#" + u))[p] != '#'
  {
    if |a| < p < |a + ("#" + u)| {
      assert (a + ("#" + u))[p] == u[p - |a| - 1];
    }
  }

  /** The last separator splits a string in one way. */
  lemma LastSplit(a: string, u: string, b: string, v: string)
    requires '#' !in u && '#' !in v
    ensures a + ("#" + u) == b + ("#" + v) <==> a == b && u == v
  {
    var s, t := a + ("#" + u), b + ("#" + v);
    assert s[|a|] == '#' && t[|b|] == '#';
    NoneAfter(a, u, |b|);
    NoneAfter(b, v, |a|);
    if s == t {
      assert s[..|a|] == a && t[..|b|] == b && s[|a| + 1..] == u && t[|b| + 1..] == v;
    }
  }

  lemma Regroup(a: string, b: string, c: string)
    ensures a + b + c == a + (b + c)
  {
  }

  lemma CandidateIs(key: string, id: string, from: Option<string>, slots: nat)
    ensures key in CandidateKeys(id, from, slots) <==>
      if from.Some? then key == "m:" + id + ":" + from.value || key == "m:" + id
      else key == "m:" + id || exists d :: 1 <= d <= slots && key == SlotKey("m:" + id, d)
  {
    hide SlotKey;
    if from.None? {
      var slot := SlotKeys("m:" + id, slots);
      forall d | 1 <= d <= slots
        ensures SlotKey("m:" + id, d) in slot
      {
        assert slot[d - 1] == SlotKey("m:" + id, d);
      }
      if key in slot {
        var i :| 0 <= i < slots && slot[i] == key;
        assert key == SlotKey("m:" + id, i + 1);
      }
    }
  }

  /**
   The one other way an acknowledgement of `id` finds an envelope: one of the two ids is the
   other and a separator and what the envelope's key, or the key that is tried, ends in.
   */
  ghost predicate Confused(e: Entry, id: string, slots: nat) {
    if e.from.Some? then id == e.id + (":" + e.from.value)
    else if e.key == EntryKey(e) then exists d :: 1 <= d <= slots && e.id == id + ("#" + Dec(d))
    else exists d :: 1 <= d <= slots && e.key == SlotKey(EntryKey(e), d) && id == e.id + ("#" + Dec(d))
  }

  lemma AttributedExact(e: Entry, id: string, from: string)
    requires e.key == "m:" + e.id + ":" + from
    ensures e.key == "m:" + id + ":" + from <==> e.id == id
    ensures e.key == "m:" + id <==> id == e.id + (":" + from)
  {
    CancelEnd("m:" + e.id + ":", "m:" + id + ":", from);
    CancelEnd("m:" + e.id, "m:" + id, ":");
    Cancel("m:", e.id, id);
    Regroup("m:" + e.id, ":", from);
    Regroup("m:", e.id, ":" + from);
    Cancel("m:", e.id + (":" + from), id);
  }

  /** When the slot key of an id is that of another, and when it is another's own. */
  lemma SlotExact(a: string, d: nat, b: string, dup: nat)
    ensures SlotKey("m:" + a, d) == SlotKey("m:" + b, dup) <==> a == b && Dec(d) == Dec(dup)
    ensures SlotKey("m:" + a, d) == "m:" + b <==> b == a + ("#" + Dec(d))
  {
    hide Dec;
    Regroup("m:" + a, "#", Dec(d));
    Regroup("m:" + b, "#", Dec(dup));
    LastSplit("m:" + a, Dec(d), "m:" + b, Dec(dup));
    Cancel("m:", a, b);
    Regroup("m:", a, "#" + Dec(d));
    Cancel("m:", a + ("#" + Dec(d)), b);
  }

  /** An acknowledgement tries the key of an envelope it names, or is confused about, and no other. */
  lemma CandidateExact(e: Entry, id: string, slots: nat)
    requires KeyOf(e, slots) && e.kind == Msg
    ensures e.key in CandidateKeys(id, e.from, slots) <==> e.id == id || Confused(e, id, slots)
    ensures Confused(e, id, slots) ==> e.id != id
  {
    hide SlotKey, Dec, CandidateKeys;
    CandidateIs(e.key, id, e.from, slots);
    if e.from.Some? {
      AttributedExact(e, id, e.from.value);
    } else if e.key == EntryKey(e) {
      Cancel("m:", e.id, id);
      forall d | 1 <= d <= slots
        ensures e.key == SlotKey("m:" + id, d) <==> e.id == id + ("#" + Dec(d))
      {
        SlotExact(id, d, e.id, d);
      }
    } else {
      var dup :| 1 <= dup <= slots && e.key == SlotKey(EntryKey(e), dup);
      SlottedExact(e, id, slots, dup);
    }
  }

  lemma SlottedExact(e: Entry, id: string, slots: nat, dup: nat)
    requires e.kind == Msg && e.from.None? && 1 <= dup <= slots && e.key == SlotKey(EntryKey(e), dup)
    ensures (exists d :: 1 <= d <= slots && e.key == SlotKey("m:" + id, d)) <==> e.id == id
    ensures e.key == "m:" + id <==>
      exists d :: 1 <= d <= slots && e.key == SlotKey(EntryKey(e), d) && id == e.id + ("#" + Dec(d))
  {
    hide SlotKey, Dec;
    forall d | 1 <= d <= slots
      ensures e.key == SlotKey("m:" + id, d) ==> e.id == id
      ensures e.key == SlotKey(EntryKey(e), d) && id == e.id + ("#" + Dec(d)) ==> e.key == "m:" + id
    {
      SlotExact(e.id, dup, id, d);
      SlotExact(e.id, d, id, d);
    }
    SlotExact(e.id, dup, id, dup);
  }

  /** What an acknowledgement finds is the envelope it names, unless it is confused. */
  lemma CandidateNames(e: Entry, id: string, from: Option<string>, slots: nat)
    requires KeyOf(e, slots) && e.key in CandidateKeys(id, from, slots) && Answers(e, from)
    ensures Named(e, id, from) <==> !Confused(e, id, slots)
  {
    hide KeyOf, CandidateKeys, Confused;
    CandidateExact(e, id, slots);
  }

  /** A ':' confuses only attributed acknowledgements that carry it, a '#' only sealed envelopes. */
  lemma Unconfused(e: Entry, id: string, slots: nat)
    ensures e.from.Some? && ':' !in id ==> !Confused(e, id, slots)
    ensures e.from.None? && '#' !in id && '#' !in e.id ==> !Confused(e, id, slots)
  {
    hide SlotKey, Dec;
    if e.from.Some? {
      assert (e.id + (":" + e.from.value))[|e.id|] == ':';
    } else {
      forall d
        ensures '#' in id + ("#" + Dec(d)) && '#' in e.id + ("#" + Dec(d))
      {
        assert (id + ("#" + Dec(d)))[|id|] == '#' && (e.id + ("#" + Dec(d)))[|e.id|] == '#';
      }
    }
  }

  /** A named envelope is under a candidate key. */
  lemma NamedIsCandidate(e: Entry, id: string, from: Option<string>, slots: nat)
    requires KeyOf(e, slots) && Named(e, id, from)
    ensures e.key in CandidateKeys(id, from, slots)
  {
    hide KeyOf, CandidateKeys, Confused;
    CandidateExact(e, id, slots);
  }

  /** An acknowledgement of "a" finds the sealed envelope "a#1", and one of "a:b" the envelope "a" of b. */
  lemma ConfusedExamples(e: Entry, f: Entry)
    requires e.kind == Msg && e.from.None? && e.id == "a#1" && e.key == EntryKey(e)
    requires f.kind == Msg && f.from == Some("b") && f.id == "a" && f.key == EntryKey(f)
    ensures e.key in CandidateKeys("a", None, 1) && Answers(e, None) && !Named(e, "a", None)
    ensures f.key in CandidateKeys("a:b", Some("b"), 1) && Answers(f, Some("b")) && !Named(f, "a:b", Some("b"))
  {
    assert Dec(1) == "1";
    assert e.key == SlotKey("m:a", 1) == CandidateKeys("a", None, 1)[1];
    assert f.key == "m:a:b" == CandidateKeys("a:b", Some("b"), 1)[1];
  }
}
