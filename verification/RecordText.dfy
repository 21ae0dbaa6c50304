/**
 JSON.parse on the text of a record (kt/lib/handles.js: parseRecord, encodeRecord): a record's
 members have one order and plain values, so a reader of that shape reads back what was
 written, and parsing undoes encoding.
 */
module RecordText {
  import opened Options
  import opened Digests
  import opened Base64
  import opened StrongKeys
  import opened RecordCodec

  /** A value read, and the text after it. */
  datatype Read<T> = Read(value: T, rest: string)

  predicate IsDigit(c: char) {
    '0' <= c <= '9'
  }

  function DigitOf(c: char): nat
    requires IsDigit(c)
  {
    (c - '0') as nat
  }

  /** A character a string holds without an escape. */
  predicate Plain(c: char) {
    ' ' <= c <= '~' && c != '"' && c != '\\'
  }

  predicate AllPlain(s: string) {
    forall i :: 0 <= i < |s| ==> Plain(s[i])
  }

  /** How many plain characters come first. */
  function PlainCount(s: string): (n: nat)
    ensures n <= |s|
  {
    if s == [] || !Plain(s[0]) then 0 else 1 + PlainCount(s[1..])
  }

  /** null, a string without escapes, or a number of two digits. */
  function ReadText(s: string): Option<Read<JValue>> {
    if "null" <= s then Some(Read(JNull, s[4..]))
    else if "\"" <= s then
      var n := PlainCount(s[1..]);
      if "\"" <= s[n + 1..] then Some(Read(JString(s[1..n + 1]), s[n + 2..])) else None
    else if |s| >= 2 && IsDigit(s[0]) && s[0] != '0' && IsDigit(s[1]) then
      Some(Read(JInt(10 * DigitOf(s[0]) + DigitOf(s[1])), s[2..]))
    else None
  }

  /** The values after these names, in their order. */
  function ReadMembers(s: string, heads: seq<string>): Option<Read<seq<JValue>>> {
    if heads == [] then Some(Read([], s))
    else if !(heads[0] <= s) then None
    else
      var v := ReadText(s[|heads[0]|..]);
      if v.None? then None
      else
        var r := ReadMembers(v.value.rest, heads[1..]);
        if r.None? then None else Some(Read([v.value.value] + r.value.value, r.value.rest))
  }

  const HEADS := ["{\"k\":", ",\"owner\":", ",\"intro\":", ",\"xintro\":", ",\"pow\":", ",\"rc\":"]
  const RECOVER_HEADS := [",\"rpub\":", ",\"rsig\":"]

  function SixMembers(v: seq<JValue>): JObject
    requires |v| == 6
  {
    map["k" := v[0], "owner" := v[1], "intro" := v[2], "xintro" := v[3], "pow" := v[4], "rc" := v[5]]
  }

  lemma {:induction false} ReadCount(s: string, heads: seq<string>)
    ensures ReadMembers(s, heads).Some? ==> |ReadMembers(s, heads).value.value| == |heads|
    decreases heads
  {
    hide ReadText;
    if heads != [] && heads[0] <= s && ReadText(s[|heads[0]|..]).Some? {
      ReadCount(ReadText(s[|heads[0]|..]).value.rest, heads[1..]);
    }
  }

  /** JSON.parse of a text in a record's shape: six members, or eight; None for any other text. */
  function ReadObject(s: string): Option<JObject> {
    ReadCount(s, HEADS);
    var six := ReadMembers(s, HEADS);
    if six.None? then None
    else if six.value.rest == "}" then Some(SixMembers(six.value.value))
    else
      ReadCount(six.value.rest, RECOVER_HEADS);
      var two := ReadMembers(six.value.rest, RECOVER_HEADS);
      if two.None? || two.value.rest != "}" then None
      else Some(SixMembers(six.value.value)["rpub" := two.value.value[0]]["rsig" := two.value.value[1]])
  }

  // --- It reads back what was written ------------------------------------------------

  /** A value whose text is plain. */
  predicate Writable(v: JValue) {
    match v
    case JString(s) => AllPlain(s)
    case JNull => true
    case JInt(n) => 10 <= n < 100
    case _ => false
  }

  lemma {:induction false} PlainUpTo(s: string, rest: string)
    requires AllPlain(s)
    ensures PlainCount(s + ("\"" + rest)) == |s|
  {
    var all := s + ("\"" + rest);
    if s != [] {
      assert all[0] == s[0] && all[1..] == s[1..] + ("\"" + rest);
      PlainUpTo(s[1..], rest);
    }
  }

  lemma StringBack(s: string, rest: string)
    requires AllPlain(s)
    ensures ReadText(Quoted(s) + rest) == Some(Read(JString(s), rest))
  {
    hide PlainCount;
    var all := Quoted(s) + rest;
    PlainUpTo(s, rest);
    assert all[1..] == s + ("\"" + rest) && all[0] == '"';
    assert all[|s| + 1..] == "\"" + rest && all[1..|s| + 1] == s && all[|s| + 2..] == rest;
  }

  lemma NumberBack(n: int, rest: string)
    requires 10 <= n < 100
    ensures ReadText(Decimal(n) + rest) == Some(Read(JInt(n), rest))
  {
    hide PlainCount;
    var all := Decimal(n) + rest;
    assert all[2..] == rest && IsDigit(all[0]) && IsDigit(all[1]);
  }

  lemma TextBack(v: JValue, rest: string)
    requires Writable(v)
    ensures ReadText(Text(v) + rest) == Some(Read(v, rest))
  {
    hide Quoted, Decimal, PlainCount;
    match v
    case JString(s) => StringBack(s, rest);
    case JNull => assert ("null" + rest)[..4] == "null" && ("null" + rest)[4..] == rest;
    case JInt(n) => NumberBack(n, rest);
  }

  /** Names and values, one after the other. */
  function Written(heads: seq<string>, vals: seq<JValue>): string
    requires |heads| == |vals|
  {
    if heads == [] then "" else heads[0] + (Text(vals[0]) + Written(heads[1..], vals[1..]))
  }

  lemma {:induction false} MembersBack(heads: seq<string>, vals: seq<JValue>, rest: string)
    requires |heads| == |vals| && forall i :: 0 <= i < |vals| ==> Writable(vals[i])
    ensures ReadMembers(Written(heads, vals) + rest, heads) == Some(Read(vals, rest))
  {
    hide Text, ReadText, Writable;
    if heads == [] {
      assert Written(heads, vals) + rest == rest;
    } else {
      var later := Written(heads[1..], vals[1..]) + rest;
      var all := Written(heads, vals) + rest;
      assert all == heads[0] + (Text(vals[0]) + later);
      assert all[..|heads[0]|] == heads[0] && all[|heads[0]|..] == Text(vals[0]) + later;
      TextBack(vals[0], later);
      MembersBack(heads[1..], vals[1..], rest);
      assert [vals[0]] + vals[1..] == vals;
    }
  }

  lemma Appended(acc: string, heads: seq<string>, vals: seq<JValue>, rest: string)
    requires |heads| == |vals| > 0
    ensures acc + heads[0] + Text(vals[0]) + (Written(heads[1..], vals[1..]) + rest) == acc + (Written(heads, vals) + rest)
  {
    hide Text;
    Regroup(acc, heads[0], Text(vals[0]), Written(heads[1..], vals[1..]), rest);
  }

  lemma Regroup(a: string, b: string, c: string, d: string, e: string)
    ensures a + b + c + (d + e) == a + ((b + (c + d)) + e)
  {
  }

  lemma SixTexts(h: seq<string>, v: seq<JValue>, rest: string)
    requires |h| == |v| == 6
    ensures h[0] + Text(v[0]) + h[1] + Text(v[1]) + h[2] + Text(v[2]) + h[3] + Text(v[3]) + h[4] + Text(v[4]) + h[5] + Text(v[5]) + rest ==
      Written(h, v) + rest
  {
    hide Text, Written;
    var a0 := "" + h[0] + Text(v[0]);
    var a1 := a0 + h[1] + Text(v[1]);
    var a2 := a1 + h[2] + Text(v[2]);
    var a3 := a2 + h[3] + Text(v[3]);
    var a4 := a3 + h[4] + Text(v[4]);
    var a5 := a4 + h[5] + Text(v[5]);
    Appended("", h, v, rest);
    Appended(a0, h[1..], v[1..], rest);
    Appended(a1, h[2..], v[2..], rest);
    Appended(a2, h[3..], v[3..], rest);
    Appended(a3, h[4..], v[4..], rest);
    Appended(a4, h[5..], v[5..], rest);
    NothingWritten(h[6..], v[6..], rest);
    Slices(h);
    Slices(v);
    assert "" + h[0] == h[0];
    assert "" + (Written(h, v) + rest) == Written(h, v) + rest;
  }

  lemma NothingWritten(h: seq<string>, v: seq<JValue>, rest: string)
    requires h == [] && v == []
    ensures Written(h, v) + rest == rest
  {
  }

  lemma Slices<T>(s: seq<T>)
    requires |s| == 6
    ensures forall i :: 0 <= i < 6 ==> s[i..][0] == s[i] && s[i..][1..] == s[i + 1..]
  {
  }

  lemma TwoTexts(h: seq<string>, v: seq<JValue>)
    requires |h| == |v| == 2
    ensures h[0] + Text(v[0]) + h[1] + Text(v[1]) == Written(h, v)
  {
    hide Text;
    assert Written(h[1..], v[1..]) == h[1] + (Text(v[1]) + "") == h[1] + Text(v[1]);
  }

  function SixOf(m: JObject): seq<JValue> {
    [Member(m, "k"), Member(m, "owner"), Member(m, "intro"), Member(m, "xintro"), Member(m, "pow"), Member(m, "rc")]
  }

  function TwoOf(m: JObject): seq<JValue> {
    [Member(m, "rpub"), Member(m, "rsig")]
  }

  lemma StringifyIs(m: JObject)
    ensures Stringify(m) ==
      Written(HEADS, SixOf(m)) + (if Member(m, "k") == JString("recover") then Written(RECOVER_HEADS, TwoOf(m)) + "}" else "}")
  {
    hide Text, Member, Written;
    var v, w := SixOf(m), TwoOf(m);
    var end := if Member(m, "k") == JString("recover") then Written(RECOVER_HEADS, w) + "}" else "}";
    SixTexts(HEADS, v, end);
    TwoTexts(RECOVER_HEADS, w);
  }

  lemma KeyWritable(b: Bytes)
    requires IsBytes(b)
    ensures Writable(JString(Encode(b)))
  {
    hide Encode;
    EncodeShape(b);
  }

  lemma OrNullWritable(k: Option<Bytes>)
    requires k.Some? ==> IsBytes(k.value)
    ensures Writable(OrNull(k))
  {
    if k.Some? {
      KeyWritable(k.value);
    }
  }

  lemma KindWritable(k: Kind)
    ensures Writable(JString(KindName(k)))
    ensures JString(KindName(k)) == JString("recover") <==> k.Recover?
  {
  }

  /** JSON.parse reads back the members JSON.stringify wrote, for every record. */
  lemma ReadBack(r: Record)
    requires InRange(r)
    ensures ReadObject(EncodeRecord(r)) == Some(MembersOf(r))
  {
    hide Written, Stringify, ReadMembers, Writable, StrongEd, StrongX, Encode, OrNull, KindName, MembersOf, Text;
    var m := MembersOf(r);
    MembersAre(r);
    StringifyIs(m);
    AllWritable(r);
    var rest := if r.k.Recover? then Written(RECOVER_HEADS, TwoOf(m)) + "}" else "}";
    KindWritable(r.k);
    MembersAll(r);
    MembersBack(HEADS, SixOf(m), rest);
    if r.k.Recover? {
      MembersBack(RECOVER_HEADS, TwoOf(m), "}");
      MoreThanEnd(TwoOf(m));
    }
  }

  lemma MembersAll(r: Record)
    requires InRange(r)
    ensures var m := MembersOf(r);
      m == if r.k.Recover? then SixMembers(SixOf(m))["rpub" := TwoOf(m)[0]]["rsig" := TwoOf(m)[1]] else SixMembers(SixOf(m))
  {
    hide StrongEd, StrongX, Encode, OrNull, KindName;
  }

  lemma MoreThanEnd(v: seq<JValue>)
    requires |v| == 2
    ensures Written(RECOVER_HEADS, v) + "}" != "}"
  {
    hide Text;
  }

  lemma AllWritable(r: Record)
    requires InRange(r)
    ensures forall i :: 0 <= i < 6 ==> Writable(SixOf(MembersOf(r))[i])
    ensures r.k.Recover? ==> forall i :: 0 <= i < 2 ==> Writable(TwoOf(MembersOf(r))[i])
  {
    hide Encode, OrNull, KindName, MembersOf, BelowP, SmallOrderEd, SmallOrderX, AllPlain;
    MembersAre(r);
    KindWritable(r.k);
    KeyWritable(r.owner);
    OrNullWritable(r.intro);
    OrNullWritable(r.xintro);
    KeyWritable(r.rc);
    if r.k.Recover? {
      KeyWritable(r.rpub.value);
      KeyWritable(r.rsig.value);
    }
  }

  /** Parsing what was encoded gives the record back. */
  lemma ParseEncode(r: Record)
    requires InRange(r)
    ensures ParseRecord(ReadObject, EncodeRecord(r)) == Ok(r)
  {
    hide InRange, EncodeRecord, MembersOf, ReadObject;
    ReadBack(r);
    ParseExact(ReadObject, EncodeRecord(r), r);
  }

  /** Different records have different encodings. */
  lemma EncodeInjective(r: Record, s: Record)
    requires InRange(r) && InRange(s) && EncodeRecord(r) == EncodeRecord(s)
    ensures r == s
  {
    hide *;
    ParseEncode(r);
    ParseEncode(s);
  }

  /** And what parses is an encoding: on whole byte strings the two are each other's inverse. */
  lemma EncodeParse(value: Bytes, r: Record)
    requires ParseRecord(ReadObject, value) == Ok(r)
    ensures InRange(r) && EncodeRecord(r) == value
  {
    hide *;
    ParseExact(ReadObject, value, r);
  }
}
