/**
 The owner rule of the handle log (kt/lib/handles.js): who may publish the next entry for a
 label. What one entry needs, what a whole history then is, and that the three parties that
 run the rule (the log on the wire, its replay, a mirror over an overlay) run the same one.
 */
module OwnerRule {
  import opened Options
  import opened Digests
  import opened StrongKeys
  import opened RecordCodec
  import opened Base64

  /** What a signature is over: the context string keeps the two apart. */
  datatype Signed =
    | PublishMsg(lbl: Label, version: int, valueHash: Digest)
    | RecoverMsg(lbl: Label, version: int, owner: Bytes, rc: Bytes)

  /** JSON.parse, OpenSSL's verify, and the commitment to a recovery key. */
  datatype Env = Env(json: string -> Option<JObject>, verifies: (Bytes, Signed, Bytes) -> bool, commitment: Bytes -> Bytes)

  /** One entry as the log, a replay and a mirror hand it to the rule. */
  datatype Entry = Entry(lbl: Label, version: int, value: Bytes, sig: Bytes)

  /** A label's state: its owner, its recovery commitment and its latest version. */
  datatype Owner = Owner(key: Bytes, rc: Bytes, version: int)

  const LABEL_BITS := 256
  const MAX_VERSION := 0x1F_FFFF_FFFF_FFFF

  /** verifyStrict: a strong key, R the encoding of a strong point, S below L, then the signature. */
  predicate VerifyStrict(env: Env, pub: Bytes, msg: Signed, sig: Bytes) {
    StrongEd(pub) && |sig| == 64 && StrongEd(sig[..32]) && BelowL(sig[32..]) && env.verifies(pub, msg, sig)
  }

  predicate ShapeOk(e: Entry) {
    |e.lbl| == LABEL_BITS && 1 <= e.version <= MAX_VERSION && |e.sig| == 64 && e.value != ""
  }

  /** checkEntry: all of an entry that does not depend on its label's history. */
  function CheckEntry(env: Env, e: Entry): Result<Record> {
    if !ShapeOk(e) then Refused(Malformed)
    else
      var parsed := ParseRecord(env.json, e.value);
      if parsed.Refused? then parsed
      else
        var rec := parsed.value;
        if !VerifyStrict(env, rec.owner, PublishMsg(e.lbl, e.version, ValueDigest(e.value)), e.sig) then Refused(BadSignature)
        else if rec.k.Recover? && !RecoverySigned(env, rec, e) then Refused(BadRecoverySignature)
        else parsed
  }

  predicate RecoverySigned(env: Env, rec: Record, e: Entry) {
    && rec.rpub.Some? && rec.rsig.Some?
    && VerifyStrict(env, rec.rpub.value, RecoverMsg(e.lbl, e.version, rec.owner, rec.rc), rec.rsig.value)
  }

  predicate Opens(env: Env, rec: Record, s: Owner) {
    rec.rpub.Some? && env.commitment(rec.rpub.value) == s.rc
  }

  function Next(prev: Option<Owner>): int {
    if prev.Some? then prev.value.version + 1 else 1
  }

  /** ownerRuleTransition: the verdict on a checked record as the next entry of a label. */
  function Transition(env: Env, prev: Option<Owner>, rec: Record, version: int): Result<Owner> {
    if rec.k.Claim? && prev.Some? then Refused(Taken)
    else if !rec.k.Claim? && prev.None? then Refused(NotClaimed)
    else if rec.k.Update? && rec.owner != prev.value.key then Refused(OwnerChanged)
    else if rec.k.Update? && rec.rc != prev.value.rc then Refused(RcChanged)
    else if rec.k.Recover? && !Opens(env, rec, prev.value) then Refused(WrongRecoveryKey)
    else if version != Next(prev) then Refused(StaleVersion)
    else Ok(Owner(rec.owner, rec.rc, version))
  }

  /** ownerRuleStep: both halves. */
  function Step(env: Env, prev: Option<Owner>, e: Entry): Result<Owner> {
    var rec := CheckEntry(env, e);
    if rec.Refused? then Refused(rec.reason) else Transition(env, prev, rec.value, e.version)
  }

  /**
   What the rule accepts of a checked record, member by member: a claim is the first entry and version 1; an
   update keeps owner and commitment, a recover names the key that the commitment is of, and
   each is the next version. The label is then the record's owner's, under its commitment.
   */
  lemma StepExact(env: Env, prev: Option<Owner>, e: Entry)
    requires CheckEntry(env, e).Ok?
    ensures var rec := CheckEntry(env, e).value;
      Step(env, prev, e).Ok? <==>
        match rec.k
        case Claim => prev.None? && e.version == 1
        case Update => prev.Some? && rec.owner == prev.value.key && rec.rc == prev.value.rc && e.version == prev.value.version + 1
        case Recover =>
          prev.Some? && rec.rpub.Some? && env.commitment(rec.rpub.value) == prev.value.rc && e.version == prev.value.version + 1
    ensures var rec := CheckEntry(env, e).value;
      Step(env, prev, e).Ok? ==> Step(env, prev, e).value == Owner(rec.owner, rec.rc, e.version)
  {
    hide CheckEntry;
  }

  /** And what it says of one it refuses: each reason exactly where those before it do not apply, the version last. */
  lemma StepReasons(env: Env, prev: Option<Owner>, e: Entry)
    requires CheckEntry(env, e).Ok? && Step(env, prev, e).Refused?
    ensures var rec, why := CheckEntry(env, e).value, Step(env, prev, e).reason;
      && (why == Taken <==> rec.k == Claim && prev.Some?)
      && (why == NotClaimed <==> rec.k != Claim && prev.None?)
      && (why == OwnerChanged <==> rec.k == Update && prev.Some? && rec.owner != prev.value.key)
      && (why == RcChanged <==> rec.k == Update && prev.Some? && rec.owner == prev.value.key && rec.rc != prev.value.rc)
      && (why == WrongRecoveryKey <==>
           rec.k == Recover && prev.Some? && (rec.rpub.None? || env.commitment(rec.rpub.value) != prev.value.rc))
      && why in {Taken, NotClaimed, OwnerChanged, RcChanged, WrongRecoveryKey, StaleVersion}
  {
    hide CheckEntry;
  }

  /** What is checked of an entry by itself: its shape, its record, and each signature over exactly what it is for. */
  lemma CheckExact(env: Env, e: Entry, rec: Record)
    requires IsBytes(e.sig)
    ensures CheckEntry(env, e) == Ok(rec) <==>
      && |e.lbl| == 256 && 1 <= e.version <= 9_007_199_254_740_991 && |e.sig| == 64 && e.value != ""
      && ParseRecord(env.json, e.value) == Ok(rec)
      && StrongEd(rec.owner) && StrongEd(e.sig[..32]) && LE(e.sig[32..]) < LE(OrderL())
      && env.verifies(rec.owner, PublishMsg(e.lbl, e.version, ValueDigest(e.value)), e.sig)
      && (rec.k == Recover ==>
        && rec.rpub.Some? && rec.rsig.Some? && |rec.rsig.value| == 64
        && StrongEd(rec.rpub.value) && StrongEd(rec.rsig.value[..32]) && LE(rec.rsig.value[32..]) < LE(OrderL())
        && env.verifies(rec.rpub.value, RecoverMsg(e.lbl, e.version, rec.owner, rec.rc), rec.rsig.value))
  {
    hide ParseRecord, StrongEd, LE, OrderL, BelowL;
    ParseReasons(env.json, e.value);
    if |e.sig| == 64 {
      SUnderL(e.sig[32..]);
    }
    if ParseRecord(env.json, e.value) == Ok(rec) && rec.rsig.Some? && |rec.rsig.value| == 64 {
      ParsedBytes(env, e.value, rec);
      SUnderL(rec.rsig.value[32..]);
    }
  }

  /** And why it is refused: its shape, the cap, the record's encoding, the owner's signature and the recovery key's, in that order. */
  lemma CheckReasons(env: Env, e: Entry)
    requires CheckEntry(env, e).Refused?
    ensures var shaped := |e.lbl| == 256 && 1 <= e.version <= 9_007_199_254_740_991 && |e.sig| == 64 && e.value != "";
      var parsed := ParseRecord(env.json, e.value);
      match CheckEntry(env, e).reason
      case Malformed => !shaped || (parsed.Refused? && |e.value| <= 1024)
      case TooLarge => shaped && |e.value| > 1024
      case BadSignature =>
        shaped && parsed.Ok? && !VerifyStrict(env, parsed.value.owner, PublishMsg(e.lbl, e.version, ValueDigest(e.value)), e.sig)
      case BadRecoverySignature =>
        shaped && parsed.Ok? && parsed.value.k == Recover &&
        VerifyStrict(env, parsed.value.owner, PublishMsg(e.lbl, e.version, ValueDigest(e.value)), e.sig) &&
        !(parsed.value.rpub.Some? && parsed.value.rsig.Some? &&
          VerifyStrict(env, parsed.value.rpub.value, RecoverMsg(e.lbl, e.version, parsed.value.owner, parsed.value.rc), parsed.value.rsig.value))
      case _ => false
  {
    hide ParseRecord, VerifyStrict;
    ParseReasons(env.json, e.value);
    TooLargeExact(env.json, e.value);
  }

  lemma ParsedBytes(env: Env, value: Bytes, rec: Record)
    requires ParseRecord(env.json, value) == Ok(rec)
    ensures rec.rsig.Some? ==> IsBytes(rec.rsig.value)
  {
    hide ParseRecord, StrongEd, EncodeRecord, Spells;
    ParseExact(env.json, value, rec);
  }

  lemma SUnderL(s: Bytes)
    requires IsBytes(s) && |s| == 32
    ensures BelowL(s) <==> LE(s) < LE(OrderL())
  {
    hide LE, OrderL, BelowFromTop;
    BelowLExact(s);
  }

  // --- One label's whole history -----------------------------------------------------------

  /** The state after a label's entries, or the first refusal. */
  function After(env: Env, es: seq<Entry>): Result<Option<Owner>> {
    if es == [] then Ok(None)
    else
      var prev := After(env, es[..|es| - 1]);
      if prev.Refused? then prev
      else
        var s := Step(env, prev.value, es[|es| - 1]);
        if s.Refused? then Refused(s.reason) else Ok(Some(s.value))
  }

  /** The record of an entry the rule accepted. */
  function RecordOf(env: Env, e: Entry): Option<Record> {
    var rec := CheckEntry(env, e);
    if rec.Ok? then Some(rec.value) else None
  }

  predicate IsKind(env: Env, e: Entry, k: Kind) {
    RecordOf(env, e).Some? && RecordOf(env, e).value.k == k
  }

  lemma {:induction false} AfterPrefix(env: Env, es: seq<Entry>, i: nat)
    requires i <= |es| && After(env, es).Ok?
    ensures After(env, es[..i]).Ok?
  {
    hide Step;
    if i == |es| {
      assert es[..i] == es;
    } else {
      AfterPrefix(env, es[..|es| - 1], i);
      assert es[..|es| - 1][..i] == es[..i];
    }
  }

  lemma AfterNext(env: Env, es: seq<Entry>, i: nat)
    requires i < |es| && After(env, es).Ok?
    ensures After(env, es[..i]).Ok? && After(env, es[..i + 1]).Ok? && After(env, es[..i + 1]).value.Some?
    ensures Step(env, After(env, es[..i]).value, es[i]) == Ok(After(env, es[..i + 1]).value.value)
  {
    hide Step;
    AfterPrefix(env, es, i);
    AfterPrefix(env, es, i + 1);
    assert es[..i + 1][..i] == es[..i];
  }

  /** The versions of a label are 1, 2, ..., k; its first entry is a claim, and no other is. */
  lemma {:induction false} HistoryShape(env: Env, es: seq<Entry>, i: nat)
    requires i < |es| && After(env, es).Ok?
    ensures es[i].version == i + 1
    ensures After(env, es[..i + 1]).Ok? && After(env, es[..i + 1]).value.Some?
    ensures After(env, es[..i + 1]).value.value.version == i + 1
    ensures IsKind(env, es[i], Claim) <==> i == 0
  {
    hide CheckEntry;
    AfterNext(env, es, i);
    if i > 0 {
      HistoryShape(env, es, i - 1);
    } else {
      assert es[..0] == [];
    }
  }

  /** Who signed an accepted entry: always the owner it leaves the label with. */
  predicate OwnerSigned(env: Env, e: Entry, after: Owner) {
    VerifyStrict(env, after.key, PublishMsg(e.lbl, e.version, ValueDigest(e.value)), e.sig)
  }

  /** An accepted recover: it opens the commitment and its recovery key signed the new owner and commitment. */
  predicate Recovered(env: Env, e: Entry, before: Owner, after: Owner) {
    && IsKind(env, e, Recover)
    && var rec := RecordOf(env, e).value;
      Opens(env, rec, before)
      && rec.rsig.Some?
      && VerifyStrict(env, rec.rpub.value, RecoverMsg(e.lbl, e.version, after.key, after.rc), rec.rsig.value)
  }

  /** A label changes hands, or changes its commitment, only by a recover that opens the commitment before it. */
  lemma OwnerChange(env: Env, es: seq<Entry>, i: nat)
    requires 0 < i < |es| && After(env, es).Ok?
    ensures After(env, es[..i]).Ok? && After(env, es[..i]).value.Some?
    ensures After(env, es[..i + 1]).Ok? && After(env, es[..i + 1]).value.Some?
    ensures var before, after := After(env, es[..i]).value.value, After(env, es[..i + 1]).value.value;
      OwnerSigned(env, es[i], after)
      && (before.key != after.key || before.rc != after.rc ==> Recovered(env, es[i], before, after))
    ensures var e, before, after := es[i], After(env, es[..i]).value.value, After(env, es[..i + 1]).value.value;
      && env.verifies(after.key, PublishMsg(e.lbl, e.version, ValueDigest(e.value)), e.sig)
      && (before.key != after.key || before.rc != after.rc ==>
        exists rpub, rsig ::
          env.commitment(rpub) == before.rc && env.verifies(rpub, RecoverMsg(e.lbl, e.version, after.key, after.rc), rsig))
  {
    hide After, VerifyStrict, ParseRecord;
    HistoryShape(env, es, i - 1);
    AfterNext(env, es, i);
    var before, after := After(env, es[..i]).value.value, After(env, es[..i + 1]).value.value;
    SignedIs(env, after.key, PublishMsg(es[i].lbl, es[i].version, ValueDigest(es[i].value)), es[i].sig);
    if Recovered(env, es[i], before, after) {
      var rec := RecordOf(env, es[i]).value;
      SignedIs(env, rec.rpub.value, RecoverMsg(es[i].lbl, es[i].version, after.key, after.rc), rec.rsig.value);
      assert env.commitment(rec.rpub.value) == before.rc;
    }
  }

  lemma SignedIs(env: Env, pub: Bytes, msg: Signed, sig: Bytes)
    requires VerifyStrict(env, pub, msg, sig)
    ensures env.verifies(pub, msg, sig)
  {
    hide StrongEd;
  }

  /** Updates leave the owner and the commitment alone. */
  lemma {:induction false} UpdatesKeep(env: Env, es: seq<Entry>, ups: seq<Entry>)
    requires After(env, es + ups).Ok?
    requires forall e :: e in ups ==> IsKind(env, e, Update)
    requires es != []
    ensures After(env, es).Ok? && After(env, es).value.Some? && After(env, es + ups).value.Some?
    ensures After(env, es + ups).value.value.rc == After(env, es).value.value.rc
    ensures After(env, es + ups).value.value.key == After(env, es).value.value.key
    ensures After(env, es + ups).value.value.version == |es| + |ups|
  {
    hide CheckEntry;
    var all := es + ups;
    HistoryShape(env, all, |all| - 1);
    assert all[..|all|] == all;
    if ups == [] {
      assert all == es;
    } else {
      assert all[..|all| - 1] == es + ups[..|ups| - 1];
      UpdatesKeep(env, es, ups[..|ups| - 1]);
      assert all[|all| - 1] == ups[|ups| - 1];
      assert IsKind(env, ups[|ups| - 1], Update);
    }
  }

  /**
   Recovery stays open: whatever updates follow an entry, a checked recover opening that
   entry's commitment is accepted, exactly when it is the next version.
   */
  lemma RecoveryStaysOpen(env: Env, es: seq<Entry>, ups: seq<Entry>, e: Entry)
    requires After(env, es + ups).Ok? && es != []
    requires forall u :: u in ups ==> IsKind(env, u, Update)
    requires IsKind(env, e, Recover)
    requires After(env, es).Ok? && After(env, es).value.Some?
    requires var rpub := RecordOf(env, e).value.rpub; rpub.Some? && env.commitment(rpub.value) == After(env, es).value.value.rc
    ensures After(env, es + ups + [e]).Ok? <==> e.version == |es| + |ups| + 1
    ensures e.version == |es| + |ups| + 1 ==>
      After(env, es + ups + [e]).value == Some(Owner(RecordOf(env, e).value.owner, RecordOf(env, e).value.rc, e.version))
  {
    hide After, Step, IsKind, RecordOf;
    UpdatesKeep(env, es, ups);
    AfterOneMore(env, es + ups, e);
    RecoverAccepted(env, After(env, es).value.value, After(env, es + ups).value.value, e);
  }

  lemma AfterOneMore(env: Env, es: seq<Entry>, e: Entry)
    requires After(env, es).Ok?
    ensures var s := Step(env, After(env, es).value, e);
      After(env, es + [e]) == if s.Ok? then Ok(Some(s.value)) else Refused(s.reason)
  {
    hide Step;
    var all := es + [e];
    assert all[..|all| - 1] == es;
  }

  lemma RecoverAccepted(env: Env, before: Owner, s: Owner, e: Entry)
    requires IsKind(env, e, Recover) && Opens(env, RecordOf(env, e).value, before) && s.rc == before.rc
    ensures Step(env, Some(s), e).Ok? <==> e.version == s.version + 1
    ensures e.version == s.version + 1 ==>
      Step(env, Some(s), e).value == Owner(RecordOf(env, e).value.owner, RecordOf(env, e).value.rc, e.version)
  {
    hide CheckEntry;
  }

  /** Only an entry the owner or the recovery key signed is told that its version is not the next. */
  lemma StaleToHolders(env: Env, prev: Option<Owner>, e: Entry)
    requires Step(env, prev, e) == Refused(StaleVersion) && prev.Some?
    ensures RecordOf(env, e).Some? && e.version != prev.value.version + 1
    ensures IsKind(env, e, Update) || IsKind(env, e, Recover)
    ensures IsKind(env, e, Update) ==> OwnerSigned(env, e, prev.value)
    ensures IsKind(env, e, Update) ==> env.verifies(prev.value.key, PublishMsg(e.lbl, e.version, ValueDigest(e.value)), e.sig)
    ensures IsKind(env, e, Recover) ==>
      Recovered(env, e, prev.value, Owner(RecordOf(env, e).value.owner, RecordOf(env, e).value.rc, e.version))
  {
    hide CheckEntry, VerifyStrict;
    CheckedFacts(env, e);
    if IsKind(env, e, Update) {
      SignedIs(env, prev.value.key, PublishMsg(e.lbl, e.version, ValueDigest(e.value)), e.sig);
    }
  }

  lemma CheckedFacts(env: Env, e: Entry)
    ensures CheckEntry(env, e).Refused? ==> CheckEntry(env, e).reason in {TooLarge, Malformed, BadSignature, BadRecoverySignature}
    ensures CheckEntry(env, e).Ok? ==>
      ShapeOk(e) && VerifyStrict(env, CheckEntry(env, e).value.owner, PublishMsg(e.lbl, e.version, ValueDigest(e.value)), e.sig)
    ensures CheckEntry(env, e).Ok? && CheckEntry(env, e).value.k.Recover? ==> RecoverySigned(env, CheckEntry(env, e).value, e)
  {
    hide VerifyStrict, ParseRecord, ShapeOk, RecoverySigned;
    ParseReasons(env.json, e.value);
  }

  lemma ParseReasons(json: string -> Option<JObject>, value: Bytes)
    ensures ParseRecord(json, value).Refused? ==> ParseRecord(json, value).reason in {TooLarge, Malformed}
  {
    hide FromMembers, Stringify;
  }

  // --- Many labels, three parties ------------------------------------------------------------

  type Owners = map<Label, Owner>

  function Lookup(m: Owners, l: Label): Option<Owner> {
    if l in m then Some(m[l]) else None
  }

  /** The log's way, on the wire and on replay: the rule against the table, and the table updated. */
  function Hold(env: Env, m: Owners, e: Entry): Result<Owners> {
    var s := Step(env, Lookup(m, e.lbl), e);
    if s.Refused? then Refused(s.reason) else Ok(m[e.lbl := s.value])
  }

  function HoldAll(env: Env, m: Owners, es: seq<Entry>): Result<Owners> {
    if es == [] then Ok(m)
    else
      var n := HoldAll(env, m, es[..|es| - 1]);
      if n.Refused? then n else Hold(env, n.value, es[|es| - 1])
  }

  /** The entries of one label, in order. */
  function Of(es: seq<Entry>, l: Label): seq<Entry> {
    if es == [] then []
    else
      var init, last := es[..|es| - 1], es[|es| - 1];
      if last.lbl == l then Of(init, l) + [last] else Of(init, l)
  }

  /** The table holds each label's own history, whatever came between its entries. */
  lemma {:induction false} HoldProjects(env: Env, es: seq<Entry>, l: Label)
    requires HoldAll(env, map[], es).Ok?
    ensures After(env, Of(es, l)) == Ok(Lookup(HoldAll(env, map[], es).value, l))
  {
    hide Step;
    if es != [] {
      var init, last := es[..|es| - 1], es[|es| - 1];
      HoldProjects(env, init, l);
      if last.lbl == l {
        assert Of(es, l)[..|Of(es, l)| - 1] == Of(init, l);
      }
    }
  }

  /** A run of entries is accepted exactly when each label's own entries are. */
  lemma {:induction false} HoldExact(env: Env, es: seq<Entry>)
    ensures HoldAll(env, map[], es).Ok? <==> forall l :: After(env, Of(es, l)).Ok?
  {
    hide Step;
    if es != [] {
      var init, last := es[..|es| - 1], es[|es| - 1];
      HoldExact(env, init);
      assert Of(es, last.lbl)[..|Of(es, last.lbl)| - 1] == Of(init, last.lbl);
      if HoldAll(env, map[], init).Ok? {
        HoldProjects(env, init, last.lbl);
        if HoldAll(env, map[], es).Ok? {
          forall l
            ensures After(env, Of(es, l)).Ok?
          {
            HoldProjects(env, es, l);
          }
        } else {
          assert !After(env, Of(es, last.lbl)).Ok?;
        }
      } else {
        var l :| !After(env, Of(init, l)).Ok?;
        if l == last.lbl {
          assert !After(env, Of(es, l)).Ok?;
        } else {
          assert Of(es, l) == Of(init, l);
        }
      }
    }
  }

  // --- The rule said of a history ----------------------------------------------------------

  /** The last entry of a label. */
  ghost predicate LastOf(es: seq<Entry>, l: Label, p: nat) {
    p < |es| && es[p].lbl == l && forall j :: p < j < |es| ==> es[j].lbl != l
  }

  /**
   What the rule asks of the entry after these, no table being kept: a claim is its label's first
   entry and version 1; any other is the next version after the label's last, an update with that
   one's owner and commitment, a recover naming the key that its commitment is of.
   */
  ghost predicate Fits(env: Env, es: seq<Entry>, e: Entry) {
    CheckEntry(env, e).Ok? &&
    var rec := CheckEntry(env, e).value;
    if rec.k.Claim? then e.version == 1 && forall j :: 0 <= j < |es| ==> es[j].lbl != e.lbl
    else exists p: nat :: LastOf(es, e.lbl, p) && Succeeds(env, rec, e.version, es[p])
  }

  ghost predicate Succeeds(env: Env, rec: Record, version: int, last: Entry) {
    CheckEntry(env, last).Ok? &&
    var was := CheckEntry(env, last).value;
    version == last.version + 1 &&
    (rec.k.Update? ==> rec.owner == was.owner && rec.rc == was.rc) &&
    (rec.k.Recover? ==> rec.rpub.Some? && env.commitment(rec.rpub.value) == was.rc)
  }

  /** The table holds of each label what its last entry says, and nothing of a label that has none. */
  lemma {:induction false} TableIs(env: Env, es: seq<Entry>, l: Label) returns (p: Option<nat>)
    requires HoldAll(env, map[], es).Ok?
    ensures var m := HoldAll(env, map[], es).value;
      match p
      case None => l !in m && forall j :: 0 <= j < |es| ==> es[j].lbl != l
      case Some(p) =>
        LastOf(es, l, p) && CheckEntry(env, es[p]).Ok? && l in m &&
        m[l] == Owner(CheckEntry(env, es[p]).value.owner, CheckEntry(env, es[p]).value.rc, es[p].version)
  {
    hide CheckEntry, Transition;
    if es == [] {
      p := None;
    } else {
      var n := |es| - 1;
      p := TableIs(env, es[..n], l);
      if es[n].lbl == l {
        p := Some(n);
        StepExact(env, Lookup(HoldAll(env, map[], es[..n]).value, l), es[n]);
      }
    }
  }

  /** The table accepts an entry exactly if it fits the history the table is of. */
  lemma HoldFits(env: Env, es: seq<Entry>, e: Entry)
    requires HoldAll(env, map[], es).Ok?
    ensures Hold(env, HoldAll(env, map[], es).value, e).Ok? <==> Fits(env, es, e)
  {
    hide CheckEntry, Transition, HoldAll;
    var p := TableIs(env, es, e.lbl);
    StepIs(env, Lookup(HoldAll(env, map[], es).value, e.lbl), e);
    if p.Some? && Fits(env, es, e) && !CheckEntry(env, e).value.k.Claim? {
      var q: nat :| LastOf(es, e.lbl, q) && Succeeds(env, CheckEntry(env, e).value, e.version, es[q]);
      assert q == p.value;
    }
  }

  lemma StepIs(env: Env, prev: Option<Owner>, e: Entry)
    ensures Step(env, prev, e).Ok? <==>
      CheckEntry(env, e).Ok? &&
      var rec := CheckEntry(env, e).value;
      match rec.k
      case Claim => prev.None? && e.version == 1
      case Update => prev.Some? && rec.owner == prev.value.key && rec.rc == prev.value.rc && e.version == prev.value.version + 1
      case Recover =>
        prev.Some? && rec.rpub.Some? && env.commitment(rec.rpub.value) == prev.value.rc && e.version == prev.value.version + 1
  {
    hide CheckEntry, Transition;
    if CheckEntry(env, e).Ok? {
      StepExact(env, prev, e);
    }
  }

  /** A history is accepted exactly if each entry fits those before it. */
  lemma {:induction false} HistoryExact(env: Env, es: seq<Entry>)
    ensures HoldAll(env, map[], es).Ok? <==> forall i :: 0 <= i < |es| ==> Fits(env, es[..i], es[i])
  {
    hide Fits, Hold;
    if es != [] {
      var n := |es| - 1;
      var init := es[..n];
      HistoryExact(env, init);
      assert forall i :: 0 <= i < n ==> init[..i] == es[..i] && init[i] == es[i];
      if HoldAll(env, map[], init).Ok? {
        HoldFits(env, init, es[n]);
      }
    }
  }

  /** The mirror's way: its own table is not touched while pages arrive; what they add is laid over it. */
  function Overlay(env: Env, own: Owners, over: Owners, e: Entry): Result<Owners> {
    var prev := if e.lbl in over then Some(over[e.lbl]) else Lookup(own, e.lbl);
    var s := Step(env, prev, e);
    if s.Refused? then Refused(s.reason) else Ok(over[e.lbl := s.value])
  }

  function OverlayAll(env: Env, own: Owners, es: seq<Entry>): Result<Owners> {
    if es == [] then Ok(map[])
    else
      var over := OverlayAll(env, own, es[..|es| - 1]);
      if over.Refused? then over else Overlay(env, own, over.value, es[|es| - 1])
  }

  /** Overlay and commit is the log's own run: the same entries accepted, the same first refusal, the same table. */
  lemma {:induction false} OverlayAgrees(env: Env, own: Owners, es: seq<Entry>)
    ensures OverlayAll(env, own, es).Ok? <==> HoldAll(env, own, es).Ok?
    ensures OverlayAll(env, own, es).Ok? ==> own + OverlayAll(env, own, es).value == HoldAll(env, own, es).value
    ensures OverlayAll(env, own, es).Refused? ==> OverlayAll(env, own, es) == HoldAll(env, own, es)
  {
    hide Step;
    if es != [] {
      OverlayAgrees(env, own, es[..|es| - 1]);
    }
  }
}
