/**
 One mailbox of the relay (server/server.js): the envelopes and receipts queued for a
 routing id, in order, indexed by key and by payload hash, with their byte total; and
 the keys themselves.
 */
module Mailbox {
  import opened Options

  datatype Kind = Msg | Receipt

  /** A queued envelope or receipt. `from` is None for a sealed envelope; `ph` is its payload hash, kept in a flagged mailbox. */
  datatype Entry = Entry(num: nat, kind: Kind, id: string, from: Option<string>, ts: int, size: nat,
                         ph: Option<string>, key: string)

  datatype Queue = Queue(entries: seq<Entry>, bytes: int, keys: map<string, Entry>, hashes: map<string, string>)

  const NoQueue := Queue([], 0, map[], map[])

  // --- Recounts ---------------------------------------------------------------

  function SizeSum(entries: seq<Entry>): nat {
    if entries == [] then 0 else SizeSum(entries[..|entries| - 1]) + entries[|entries| - 1].size
  }

  function KeyIndex(entries: seq<Entry>): map<string, Entry> {
    if entries == [] then map[]
    else
      var last := entries[|entries| - 1];
      KeyIndex(entries[..|entries| - 1])[last.key := last]
  }

  function HashIndex(entries: seq<Entry>): map<string, string> {
    if entries == [] then map[]
    else
      var last, rest := entries[|entries| - 1], HashIndex(entries[..|entries| - 1]);
      if last.ph.Some? then rest[last.ph.value := last.key] else rest
  }

  /** Keys are different, and so are payload hashes. */
  ghost predicate Apart(entries: seq<Entry>) {
    forall i, j :: 0 <= i < j < |entries| ==>
      entries[i].key != entries[j].key && (entries[i].ph.Some? ==> entries[i].ph != entries[j].ph)
  }

  /** The totals and the indexes are exactly the entries'. */
  ghost predicate Indexed(q: Queue) {
    Apart(q.entries) && q.bytes == SizeSum(q.entries) &&
    q.keys == KeyIndex(q.entries) && q.hashes == HashIndex(q.entries)
  }

  lemma {:induction false} KeyIndexExact(entries: seq<Entry>, k: string)
    requires Apart(entries)
    ensures k in KeyIndex(entries) <==> exists i :: 0 <= i < |entries| && entries[i].key == k
    ensures k in KeyIndex(entries) ==> KeyIndex(entries)[k] in entries && KeyIndex(entries)[k].key == k
  {
    if entries != [] {
      var n := |entries| - 1;
      KeyIndexExact(entries[..n], k);
      if exists i :: 0 <= i < |entries| && entries[i].key == k {
        var i :| 0 <= i < |entries| && entries[i].key == k;
        assert i < n ==> entries[..n][i].key == k;
      }
    }
  }

  /** An entry that is held is the one its key finds. */
  lemma {:induction false} KeyFinds(entries: seq<Entry>, i: nat)
    requires Apart(entries) && i < |entries|
    ensures entries[i].key in KeyIndex(entries) && KeyIndex(entries)[entries[i].key] == entries[i]
  {
    if i < |entries| - 1 {
      KeyFinds(entries[..|entries| - 1], i);
    }
  }

  lemma {:induction false} HashIndexExact(entries: seq<Entry>, h: string)
    ensures h in HashIndex(entries) <==> exists i :: 0 <= i < |entries| && entries[i].ph == Some(h)
  {
    if entries != [] {
      var n := |entries| - 1;
      HashIndexExact(entries[..n], h);
      if exists i :: 0 <= i < |entries| && entries[i].ph == Some(h) {
        var i :| 0 <= i < |entries| && entries[i].ph == Some(h);
        assert i < n ==> entries[..n][i].ph == Some(h);
      }
    }
  }

  // --- Adding and removing -----------------------------------------------------------

  lemma Pushed(q: Queue, e: Entry)
    requires Indexed(q) && e.key !in q.keys && (e.ph.Some? ==> e.ph.value !in q.hashes)
    ensures Indexed(Queue(q.entries + [e], q.bytes + e.size, q.keys[e.key := e],
                          if e.ph.Some? then q.hashes[e.ph.value := e.key] else q.hashes))
  {
    var all := q.entries + [e];
    assert all[..|all| - 1] == q.entries;
    forall i | 0 <= i < |q.entries|
      ensures q.entries[i].key != e.key && (e.ph.Some? ==> q.entries[i].ph != e.ph)
    {
      KeyFinds(q.entries, i);
      if e.ph.Some? {
        HashIndexExact(q.entries, e.ph.value);
      }
    }
  }

  /** Everything but the entry at index i. */
  function Cut(entries: seq<Entry>, i: nat): seq<Entry>
    requires i < |entries|
  {
    entries[..i] + entries[i + 1..]
  }

  lemma CutApart(entries: seq<Entry>, i: nat)
    requires i < |entries| && Apart(entries)
    ensures Apart(Cut(entries, i))
    ensures forall e :: e in Cut(entries, i) <==> e in entries && e != entries[i]
  {
    var cut := Cut(entries, i);
    forall e
      ensures e in cut <==> e in entries && e != entries[i]
    {
      if e in entries && e != entries[i] {
        var j :| 0 <= j < |entries| && entries[j] == e;
        assert cut[if j < i then j else j - 1] == e;
      }
    }
  }

  lemma InitApart(entries: seq<Entry>)
    requires entries != [] && Apart(entries)
    ensures var n := |entries| - 1;
      Apart(entries[..n]) && entries[n].key !in KeyIndex(entries[..n]) &&
      (entries[n].ph.Some? ==> entries[n].ph.value !in HashIndex(entries[..n]))
  {
    var n := |entries| - 1;
    KeyIndexExact(entries[..n], entries[n].key);
    if entries[n].ph.Some? {
      HashIndexExact(entries[..n], entries[n].ph.value);
    }
  }

  /** Cutting before the last entry leaves the last where it was. */
  lemma CutBeforeLast(entries: seq<Entry>, i: nat)
    requires i + 1 < |entries| && Apart(entries)
    ensures var n := |entries| - 1;
      Apart(entries[..n]) && entries[..n][i] == entries[i] &&
      Cut(entries, i) == Cut(entries[..n], i) + [entries[n]] && Cut(entries, i)[..n - 1] == Cut(entries[..n], i) &&
      entries[i].key != entries[n].key && (entries[i].ph.Some? ==> entries[i].ph != entries[n].ph)
  {
  }

  lemma {:induction false} CutSize(entries: seq<Entry>, i: nat)
    requires i < |entries| && Apart(entries)
    ensures SizeSum(Cut(entries, i)) == SizeSum(entries) - entries[i].size
  {
    hide Apart, Cut;
    if i + 1 == |entries| {
      CutOff(entries);
    } else {
      CutBeforeLast(entries, i);
      CutSize(entries[..|entries| - 1], i);
    }
  }

  lemma CutOff(entries: seq<Entry>)
    requires entries != []
    ensures Cut(entries, |entries| - 1) == entries[..|entries| - 1]
  {
  }

  lemma {:induction false} CutKeys(entries: seq<Entry>, i: nat)
    requires i < |entries| && Apart(entries)
    ensures KeyIndex(Cut(entries, i)) == KeyIndex(entries) - {entries[i].key}
  {
    hide Apart, Cut;
    if i + 1 == |entries| {
      CutOff(entries);
      InitApart(entries);
    } else {
      CutBeforeLast(entries, i);
      CutKeys(entries[..|entries| - 1], i);
    }
  }

  lemma {:induction false} CutHashes(entries: seq<Entry>, i: nat)
    requires i < |entries| && Apart(entries)
    ensures HashIndex(Cut(entries, i)) ==
      HashIndex(entries) - (if entries[i].ph.Some? then {entries[i].ph.value} else {})
  {
    hide Apart, Cut;
    if i + 1 == |entries| {
      CutOff(entries);
      InitApart(entries);
    } else {
      CutBeforeLast(entries, i);
      CutHashes(entries[..|entries| - 1], i);
    }
  }

  /** The entries that are kept, in order. */
  function Kept(entries: seq<Entry>, cutoff: int): seq<Entry> {
    if entries == [] then []
    else
      var rest, last := Kept(entries[..|entries| - 1], cutoff), entries[|entries| - 1];
      if last.ts >= cutoff then rest + [last] else rest
  }

  lemma {:induction false} KeptIn(entries: seq<Entry>, cutoff: int, e: Entry)
    ensures e in Kept(entries, cutoff) <==> e in entries && e.ts >= cutoff
  {
    if entries != [] {
      var n := |entries| - 1;
      KeptIn(entries[..n], cutoff, e);
      assert entries == entries[..n] + [entries[n]];
    }
  }

  lemma {:induction false} KeptSums(entries: seq<Entry>, cutoff: int)
    ensures SizeSum(Kept(entries, cutoff)) <= SizeSum(entries) && |Kept(entries, cutoff)| <= |entries|
    ensures |Kept(entries, cutoff)| == |entries| ==> Kept(entries, cutoff) == entries
  {
    if entries != [] {
      var n := |entries| - 1;
      KeptSums(entries[..n], cutoff);
      var rest := Kept(entries[..n], cutoff);
      assert (rest + [entries[n]])[..|rest|] == rest;
      assert entries == entries[..n] + [entries[n]];
    }
  }

  lemma {:induction false} KeptApart(entries: seq<Entry>, cutoff: int)
    requires Apart(entries)
    ensures Apart(Kept(entries, cutoff))
  {
    if entries != [] {
      var n := |entries| - 1;
      var init, last := entries[..n], entries[n];
      KeptApart(init, cutoff);
      var rest := Kept(init, cutoff);
      forall i | 0 <= i < |rest|
        ensures rest[i].key != last.key && (rest[i].ph.Some? ==> rest[i].ph != last.ph)
      {
        KeptIn(init, cutoff, rest[i]);
        var j :| 0 <= j < n && init[j] == rest[i];
        assert entries[j] == rest[i];
      }
    }
  }
}
