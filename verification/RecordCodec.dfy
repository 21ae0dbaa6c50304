/**
 The handle record and its one encoding (kt/lib/handles.js): what `parseRecord` accepts,
 and that it accepts exactly what `encodeRecord` writes.
 */
module RecordCodec {
  import opened Options
  import opened Digests
  import opened Base64
  import opened StrongKeys

  datatype Kind = Claim | Update | Recover

  /** `intro` and `xintro` are None for null; `rpub` and `rsig` are None outside a recover. */
  datatype Record = Record(k: Kind, owner: Bytes, intro: Option<Bytes>, xintro: Option<Bytes>, pow: int, rc: Bytes,
                           rpub: Option<Bytes>, rsig: Option<Bytes>)

  /** A member's value as JSON.parse gives it; JAbsent for a member that is not there. */
  datatype JValue = JString(s: string) | JNull | JInt(n: int) | JOther | JAbsent

  type JObject = map<string, JValue>

  datatype Reason =
    | TooLarge | Malformed | BadSignature | BadRecoverySignature
    | Taken | NotClaimed | OwnerChanged | RcChanged | WrongRecoveryKey | StaleVersion

  datatype Result<T> = Ok(value: T) | Refused(reason: Reason)

  const MAX_RECORD_BYTES := 1024
  const MIN_POW := 16
  const MAX_POW := 28

  function Member(j: JObject, name: string): JValue {
    if name in j then j[name] else JAbsent
  }

  // --- What a record may hold ---------------------------------------------------------

  predicate StrongEdOrNone(k: Option<Bytes>) {
    k.Some? ==> StrongEd(k.value)
  }

  predicate StrongXOrNone(k: Option<Bytes>) {
    k.Some? ==> StrongX(k.value)
  }

  predicate Sized(b: Bytes, n: nat) {
    IsBytes(b) && |b| == n
  }

  /** A record whose members are in range and whose keys are strong. */
  predicate InRange(r: Record) {
    && StrongEd(r.owner)
    && StrongEdOrNone(r.intro) && StrongXOrNone(r.xintro)
    && (r.intro.None? <==> r.xintro.None?)
    && MIN_POW <= r.pow <= MAX_POW
    && Sized(r.rc, 32)
    && (if r.k.Recover? then r.rpub.Some? && StrongEd(r.rpub.value) && r.rsig.Some? && Sized(r.rsig.value, 64)
        else r.rpub.None? && r.rsig.None?)
  }

  // --- The encoding --------------------------------------------------------------------

  function KindName(k: Kind): string {
    match k
    case Claim => "claim"
    case Update => "update"
    case Recover => "recover"
  }

  /** A number of two digits. */
  function Decimal(n: int): string
    requires 10 <= n < 100
  {
    [(48 + n / 10) as char, (48 + n % 10) as char]
  }

  function Quoted(s: string): string {
    "\"" + s + "\""
  }

  /** A member holding a string, as JSON.stringify writes it when no character needs an escape. */
  function Text(v: JValue): string {
    match v
    case JString(s) => Quoted(s)
    case JInt(n) => if 10 <= n < 100 then Decimal(n) else ""
    case _ => "null"
  }

  /** JSON.stringify of the members k, owner, intro, xintro, pow, rc, and in a recover rpub, rsig. */
  function Stringify(m: JObject): string {
    "{\"k\":" + Text(Member(m, "k")) + ",\"owner\":" + Text(Member(m, "owner")) +
    ",\"intro\":" + Text(Member(m, "intro")) + ",\"xintro\":" + Text(Member(m, "xintro")) +
    ",\"pow\":" + Text(Member(m, "pow")) + ",\"rc\":" + Text(Member(m, "rc")) +
    (if Member(m, "k") == JString("recover") then ",\"rpub\":" + Text(Member(m, "rpub")) + ",\"rsig\":" + Text(Member(m, "rsig")) else "") +
    "}"
  }

  function OrNull(k: Option<Bytes>): JValue
    requires k.Some? ==> IsBytes(k.value)
  {
    if k.None? then JNull else JString(Encode(k.value))
  }

  /** The members `encodeRecord` writes. */
  function MembersOf(r: Record): JObject
    requires InRange(r)
  {
    var m := map["k" := JString(KindName(r.k)), "owner" := JString(Encode(r.owner)), "intro" := OrNull(r.intro),
                 "xintro" := OrNull(r.xintro), "pow" := JInt(r.pow), "rc" := JString(Encode(r.rc))];
    if r.k.Recover? then m["rpub" := JString(Encode(r.rpub.value))]["rsig" := JString(Encode(r.rsig.value))] else m
  }

  /** encodeRecord. */
  function EncodeRecord(r: Record): Bytes
    requires InRange(r)
  {
    Stringify(MembersOf(r))
  }

  // --- Parsing ---------------------------------------------------------------------------

  function ExactMember(v: JValue, n: nat): Option<Bytes> {
    if v.JString? then B64UrlExact(v.s, n) else None
  }

  function EdMember(v: JValue): Option<Bytes> {
    var b := ExactMember(v, 32);
    if b.Some? && StrongEd(b.value) then b else None
  }

  function XMember(v: JValue): Option<Bytes> {
    var b := ExactMember(v, 32);
    if b.Some? && StrongX(b.value) then b else None
  }

  function KindMember(v: JValue): Option<Kind> {
    if v == JString("claim") then Some(Claim)
    else if v == JString("update") then Some(Update)
    else if v == JString("recover") then Some(Recover)
    else None
  }

  /** The record the members spell, or None where one of them is refused. */
  function FromMembers(j: JObject): Option<Record> {
    var k, owner := KindMember(Member(j, "k")), EdMember(Member(j, "owner"));
    var jIntro, jXintro, jPow := Member(j, "intro"), Member(j, "xintro"), Member(j, "pow");
    var intro, xintro, rc := EdMember(jIntro), XMember(jXintro), ExactMember(Member(j, "rc"), 32);
    var rpub, rsig := EdMember(Member(j, "rpub")), ExactMember(Member(j, "rsig"), 64);
    if k.None? || owner.None? then None
    else if jIntro != JNull && intro.None? then None
    else if jXintro != JNull && xintro.None? then None
    else if (jIntro == JNull) != (jXintro == JNull) then None
    else if !jPow.JInt? || jPow.n < MIN_POW || jPow.n > MAX_POW then None
    else if rc.None? then None
    else if k.value.Recover? then
      if rpub.None? || rsig.None? then None
      else Some(Record(k.value, owner.value, intro, xintro, jPow.n, rc.value, rpub, rsig))
    else Some(Record(k.value, owner.value, intro, xintro, jPow.n, rc.value, None, None))
  }

  /** parseRecord. `json` is JSON.parse: None for what is not a JSON object. */
  function ParseRecord(json: string -> Option<JObject>, value: Bytes): Result<Record> {
    if |value| > MAX_RECORD_BYTES then Refused(TooLarge)
    else
      var j := json(value);
      if j.None? then Refused(Malformed)
      else
        var r := FromMembers(j.value);
        if r.None? || Stringify(j.value) != value then Refused(Malformed) else Ok(r.value)
  }

  // --- It accepts exactly the one encoding ------------------------------------------------

  /** Whether the object has what the record says; a member the record does not have is free. */
  predicate Spells(j: JObject, r: Record)
    requires InRange(r)
  {
    forall name :: name in MembersOf(r) ==> Member(j, name) == MembersOf(r)[name]
  }

  lemma MemberExact(v: JValue, n: nat, b: Bytes)
    ensures ExactMember(v, n) == Some(b) <==> Sized(b, n) && v == JString(Encode(b))
  {
    hide B64UrlExact, Encode;
    if v.JString? {
      B64UrlExactIs(v.s, n, b);
    }
  }

  lemma EdExact(v: JValue, b: Bytes)
    ensures EdMember(v) == Some(b) <==> StrongEd(b) && v == JString(Encode(b))
  {
    hide B64UrlExact, Encode, BelowP, SmallOrderEd;
    MemberExact(v, 32, b);
  }

  lemma XExact(v: JValue, b: Bytes)
    ensures XMember(v) == Some(b) <==> StrongX(b) && v == JString(Encode(b))
  {
    hide B64UrlExact, Encode, BelowP, SmallOrderX;
    MemberExact(v, 32, b);
  }

  /** What a record's members are, one by one. */
  lemma MembersAre(r: Record)
    requires InRange(r)
    ensures MembersOf(r).Keys == {"k", "owner", "intro", "xintro", "pow", "rc"} + (if r.k.Recover? then {"rpub", "rsig"} else {})
    ensures var m := MembersOf(r);
      && m["k"] == JString(KindName(r.k)) && m["owner"] == JString(Encode(r.owner))
      && m["intro"] == OrNull(r.intro) && m["xintro"] == OrNull(r.xintro)
      && m["pow"] == JInt(r.pow) && m["rc"] == JString(Encode(r.rc))
    ensures r.k.Recover? ==> MembersOf(r)["rpub"] == JString(Encode(r.rpub.value)) && MembersOf(r)["rsig"] == JString(Encode(r.rsig.value))
  {
    hide StrongEd, StrongX, Encode;
  }

  lemma KindExact(v: JValue, k: Kind)
    ensures KindMember(v) == Some(k) <==> v == JString(KindName(k))
  {
  }

  lemma OptionalEd(v: JValue, k: Option<Bytes>)
    ensures EdMember(v) == k && (v == JNull || k.Some?) <==> StrongEdOrNone(k) && v == OrNull(k)
    ensures EdMember(JNull).None?
  {
    hide B64UrlExact, StrongEd, Encode;
    if k.Some? {
      EdExact(v, k.value);
    }
  }

  lemma OptionalX(v: JValue, k: Option<Bytes>)
    ensures XMember(v) == k && (v == JNull || k.Some?) <==> StrongXOrNone(k) && v == OrNull(k)
    ensures XMember(JNull).None?
  {
    hide B64UrlExact, StrongX, Encode;
    if k.Some? {
      XExact(v, k.value);
    }
  }

  /** The members spell a record exactly when it is in range and they are its members. */
  lemma FromMembersExact(j: JObject, r: Record)
    ensures FromMembers(j) == Some(r) <==> InRange(r) && Spells(j, r)
  {
    hide EdMember, XMember, ExactMember, KindMember, BelowP, SmallOrderEd, SmallOrderX, Encode, OrNull, KindName, MembersOf, Member;
    KindExact(Member(j, "k"), r.k);
    EdExact(Member(j, "owner"), r.owner);
    OptionalEd(Member(j, "intro"), r.intro);
    OptionalX(Member(j, "xintro"), r.xintro);
    MemberExact(Member(j, "rc"), 32, r.rc);
    if r.rpub.Some? {
      EdExact(Member(j, "rpub"), r.rpub.value);
    }
    if r.rsig.Some? {
      MemberExact(Member(j, "rsig"), 64, r.rsig.value);
    }
    if InRange(r) {
      OrNullIs(r.intro);
      OrNullIs(r.xintro);
      MembersAre(r);
      SpellsEach(j, r);
    }
  }

  lemma OrNullIs(k: Option<Bytes>)
    requires k.Some? ==> IsBytes(k.value)
    ensures OrNull(k) == JNull <==> k.None?
  {
  }

  lemma SpellsEach(j: JObject, r: Record)
    requires InRange(r)
    ensures Spells(j, r) <==>
      && Member(j, "k") == JString(KindName(r.k)) && Member(j, "owner") == JString(Encode(r.owner))
      && Member(j, "intro") == OrNull(r.intro) && Member(j, "xintro") == OrNull(r.xintro)
      && Member(j, "pow") == JInt(r.pow) && Member(j, "rc") == JString(Encode(r.rc))
      && (r.k.Recover? ==>
        Member(j, "rpub") == JString(Encode(r.rpub.value)) && Member(j, "rsig") == JString(Encode(r.rsig.value)))
  {
    hide Member, StrongEd, StrongX, Encode, OrNull, KindName, MembersOf;
    MembersAre(r);
  }

  /** The text of an object that spells a record is the record's encoding. */
  lemma StringifySpelled(j: JObject, r: Record)
    requires InRange(r) && Spells(j, r)
    ensures Stringify(j) == EncodeRecord(r)
  {
    hide Text, StrongEd, StrongX, Encode, OrNull, KindName, MembersOf;
    SpellsEach(j, r);
    var m := MembersOf(r);
    MembersAre(r);
    KindNames(r.k);
    assert forall name :: name in m ==> Member(m, name) == m[name];
  }

  lemma KindNames(k: Kind)
    ensures KindName(k) == "recover" <==> k.Recover?
    ensures |KindName(k)| <= 7
  {
  }

  // --- The codec ---------------------------------------------------------------------------

  /** A record fits its cap with room to spare. */
  lemma EncodedSize(r: Record)
    requires InRange(r)
    ensures |EncodeRecord(r)| <= 470
  {
    hide Text, BelowP, SmallOrderEd, SmallOrderX, Encode, OrNull, KindName, MembersOf;
    var m := MembersOf(r);
    MembersAre(r);
    KindNames(r.k);
    ShortTexts(r.k, r.pow);
    TextSize(r.owner, 32);
    TextSize(r.rc, 32);
    OrNullSize(r.intro);
    OrNullSize(r.xintro);
    if r.k.Recover? {
      TextSize(r.rpub.value, 32);
      TextSize(r.rsig.value, 64);
    }
  }

  lemma ShortTexts(k: Kind, n: int)
    ensures |Text(JString(KindName(k)))| <= 9 && |Text(JInt(n))| <= 2
  {
  }

  lemma TextSize(b: Bytes, n: nat)
    requires Sized(b, n)
    ensures |Text(JString(Encode(b)))| == EncodedLength(n) + 2
  {
    hide Encode;
    EncodeShape(b);
  }

  lemma OrNullSize(k: Option<Bytes>)
    requires k.Some? ==> Sized(k.value, 32)
    ensures |Text(OrNull(k))| <= EncodedLength(32) + 2
  {
    if k.Some? {
      TextSize(k.value, 32);
    }
  }

  /**
   What the parser accepts, and as what, for every byte string: a record in range, in its
   one encoding, which JSON.parse reads as the record's members.
   */
  lemma ParseExact(json: string -> Option<JObject>, value: Bytes, r: Record)
    ensures ParseRecord(json, value) == Ok(r) <==>
      InRange(r) && EncodeRecord(r) == value && json(value).Some? && Spells(json(value).value, r)
  {
    hide FromMembers, InRange, EncodeRecord, Stringify, Spells;
    if json(value).Some? {
      FromMembersExact(json(value).value, r);
    }
    if InRange(r) {
      EncodedSize(r);
      if json(value).Some? && Spells(json(value).value, r) {
        StringifySpelled(json(value).value, r);
      }
    }
  }

  /** A key or null, as it is written. */
  function KeyText(k: Option<Bytes>): string
    requires k.Some? ==> IsBytes(k.value)
  {
    if k.None? then "null" else "\"" + Encode(k.value) + "\""
  }

  /** What parses, written out: the ranges of the members, and the text to the last character. */
  lemma ParsedText(json: string -> Option<JObject>, value: Bytes, r: Record)
    requires ParseRecord(json, value) == Ok(r)
    ensures |value| <= 1024 && StrongEd(r.owner) && (r.intro.None? <==> r.xintro.None?)
    ensures (r.intro.Some? ==> StrongEd(r.intro.value)) && (r.xintro.Some? ==> StrongX(r.xintro.value))
    ensures 16 <= r.pow <= 28 && IsBytes(r.rc) && |r.rc| == 32
    ensures if r.k == Recover then r.rpub.Some? && StrongEd(r.rpub.value) && r.rsig.Some? && IsBytes(r.rsig.value) && |r.rsig.value| == 64
      else r.rpub.None? && r.rsig.None?
    ensures value == Written(r)
  {
    hide StrongEd, StrongX, Encode, ParseRecord, Spells, EncodeRecord, Written, Sized;
    ParseExact(json, value, r);
    EncodedSize(r);
    WrittenOut(r);
    SizedIs(r);
  }

  /** Past 1 KiB a value is too large, and nothing else is. */
  lemma TooLargeExact(json: string -> Option<JObject>, value: Bytes)
    ensures ParseRecord(json, value) == Refused(TooLarge) <==> |value| > 1024
  {
    hide FromMembers, Stringify;
  }

  lemma SizedIs(r: Record)
    ensures Sized(r.rc, 32) <==> IsBytes(r.rc) && |r.rc| == 32
    ensures r.rsig.Some? ==> (Sized(r.rsig.value, 64) <==> IsBytes(r.rsig.value) && |r.rsig.value| == 64)
  {
  }

  /** A record's text, to the last character. */
  function Written(r: Record): string
    requires IsBytes(r.owner) && (r.intro.Some? ==> IsBytes(r.intro.value)) && (r.xintro.Some? ==> IsBytes(r.xintro.value))
    requires 10 <= r.pow < 100 && IsBytes(r.rc)
    requires r.k == Recover ==> r.rpub.Some? && IsBytes(r.rpub.value) && r.rsig.Some? && IsBytes(r.rsig.value)
  {
    "{\"k\":" + (match r.k case Claim => "\"claim\"" case Update => "\"update\"" case Recover => "\"recover\"") +
    ",\"owner\":" + ("\"" + Encode(r.owner) + "\"") + ",\"intro\":" + KeyText(r.intro) + ",\"xintro\":" + KeyText(r.xintro) +
    ",\"pow\":" + [(48 + r.pow / 10) as char, (48 + r.pow % 10) as char] + ",\"rc\":" + ("\"" + Encode(r.rc) + "\"") +
    (if r.k == Recover then ",\"rpub\":" + ("\"" + Encode(r.rpub.value) + "\"") + ",\"rsig\":" + ("\"" + Encode(r.rsig.value) + "\"") else "") +
    "}"
  }

  lemma WrittenOut(r: Record)
    requires InRange(r)
    ensures IsBytes(r.owner) && (r.intro.Some? ==> IsBytes(r.intro.value)) && (r.xintro.Some? ==> IsBytes(r.xintro.value))
    ensures r.k == Recover ==> IsBytes(r.rpub.value)
    ensures EncodeRecord(r) == Written(r)
  {
    hide StrongEd, StrongX, Encode, OrNull, KindName, MembersOf, Text, KeyText;
    MembersAre(r);
    var m := MembersOf(r);
    assert forall name :: name in m ==> Member(m, name) == m[name];
    KindNames(r.k);
    TextsAre(r.k, r.pow);
    KeysAre(r);
    KeyTextIs(r.intro);
    KeyTextIs(r.xintro);
    StringTexts(r);
  }

  lemma StringTexts(r: Record)
    requires IsBytes(r.owner) && IsBytes(r.rc) && (r.rpub.Some? ==> IsBytes(r.rpub.value)) && (r.rsig.Some? ==> IsBytes(r.rsig.value))
    ensures Text(JString(Encode(r.owner))) == "\"" + Encode(r.owner) + "\"" && Text(JString(Encode(r.rc))) == "\"" + Encode(r.rc) + "\""
    ensures r.rpub.Some? ==> Text(JString(Encode(r.rpub.value))) == "\"" + Encode(r.rpub.value) + "\""
    ensures r.rsig.Some? ==> Text(JString(Encode(r.rsig.value))) == "\"" + Encode(r.rsig.value) + "\""
  {
    hide Encode;
  }

  lemma KeysAre(r: Record)
    requires InRange(r)
    ensures IsBytes(r.owner) && (r.intro.Some? ==> IsBytes(r.intro.value)) && (r.xintro.Some? ==> IsBytes(r.xintro.value))
    ensures (r.rpub.Some? ==> IsBytes(r.rpub.value)) && (r.rsig.Some? ==> IsBytes(r.rsig.value)) && IsBytes(r.rc)
  {
    hide BelowP, SmallOrderEd, SmallOrderX;
  }

  lemma TextsAre(k: Kind, pow: int)
    ensures Text(JString(KindName(k))) == (match k case Claim => "\"claim\"" case Update => "\"update\"" case Recover => "\"recover\"")
    ensures 10 <= pow < 100 ==> Text(JInt(pow)) == [(48 + pow / 10) as char, (48 + pow % 10) as char]
  {
  }

  lemma KeyTextIs(k: Option<Bytes>)
    requires k.Some? ==> IsBytes(k.value)
    ensures Text(OrNull(k)) == KeyText(k)
  {
    hide Encode;
  }

  /** And every record with its members in those ranges is in range. */
  lemma RangeIs(r: Record)
    requires StrongEd(r.owner) && (r.intro.None? <==> r.xintro.None?)
    requires (r.intro.Some? ==> StrongEd(r.intro.value)) && (r.xintro.Some? ==> StrongX(r.xintro.value))
    requires 16 <= r.pow <= 28 && IsBytes(r.rc) && |r.rc| == 32
    requires if r.k == Recover then r.rpub.Some? && StrongEd(r.rpub.value) && r.rsig.Some? && IsBytes(r.rsig.value) && |r.rsig.value| == 64
      else r.rpub.None? && r.rsig.None?
    ensures InRange(r)
  {
    hide StrongEd, StrongX;
  }

  /** Two byte strings for one record are one byte string: nothing about a record is malleable. */
  lemma OneEncoding(json: string -> Option<JObject>, v: Bytes, w: Bytes)
    requires ParseRecord(json, v).Ok? && ParseRecord(json, v) == ParseRecord(json, w)
    ensures v == w
  {
    hide *;
    var r := ParseRecord(json, v).value;
    ParseExact(json, v, r);
    ParseExact(json, w, r);
  }
}
