/**
 What the log and the mirror ask of JSON is that a line parses to the entry it was written for.
 A plain prefix code shows that it can be had for every entry at once: no two entries share a line.
 */
module LineCodec {
  import opened Options
  import opened Digests
  import opened LogState
  import opened FileStore
  import opened KtLogs
  import opened MirrorState
  import opened Mirrors

  // Each writer puts a value before the text that follows it.

  function NumTo(n: nat, rest: string): (s: string)
    ensures s != "" && (NEWLINE !in rest ==> NEWLINE !in s)
  {
    if n == 0 then "0" + rest else "1" + NumTo(n - 1, rest)
  }

  function IntTo(i: int, rest: string): (s: string)
    ensures s != "" && (NEWLINE !in rest ==> NEWLINE !in s)
  {
    if i < 0 then "-" + NumTo(-i, rest) else "+" + NumTo(i, rest)
  }

  function BitsTo(b: Label, rest: string): (s: string)
    ensures s != "" && (NEWLINE !in rest ==> NEWLINE !in s)
  {
    if b == [] then "." + rest else (if b[0] then "1" else "0") + BitsTo(b[1..], rest)
  }

  function BytesTo(b: Bytes, rest: string): (s: string)
    ensures s != "" && (NEWLINE !in rest ==> NEWLINE !in s)
  {
    if b == "" then "." + rest else "," + NumTo(b[0] as nat, BytesTo(b[1..], rest))
  }

  function DigestTo(d: Digest, rest: string): (s: string)
    ensures s != "" && (NEWLINE !in rest ==> NEWLINE !in s)
    decreases d
  {
    match d
    case LogEmpty => "a" + rest
    case MapEmpty => "b" + rest
    case LogNode(l, r) => "c" + DigestTo(l, DigestTo(r, rest))
    case MapNode(l, r) => "d" + DigestTo(l, DigestTo(r, rest))
    case MapLeaf(lbl, index, version) => "e" + BitsTo(lbl, IntTo(index, IntTo(version, rest)))
    case ValueDigest(value) => "f" + BytesTo(value, rest)
    case Foreign(bytes) => "g" + BytesTo(bytes, rest)
    case LogLeaf(KtLeaf(lbl, version, fp, value, ts)) => "h" + BitsTo(lbl, IntTo(version, BytesTo(fp, DigestTo(value, IntTo(ts, rest)))))
    case LogLeaf(HandleLeaf(lbl, version, value, ts)) => "i" + BitsTo(lbl, IntTo(version, DigestTo(value, IntTo(ts, rest))))
  }

  function SigTo(sig: Option<Bytes>, rest: string): (s: string)
    ensures s != "" && (NEWLINE !in rest ==> NEWLINE !in s)
  {
    if sig.None? then "n" + rest else "s" + BytesTo(sig.value, rest)
  }

  function LineOf(e: LogEntry): (s: string)
    ensures GoodLine(s)
  {
    IntTo(e.index, BitsTo(e.lbl, IntTo(e.version, BytesTo(e.fp, DigestTo(e.valueHash,
      BytesTo(e.value, BytesTo(e.acct, IntTo(e.ts, SigTo(e.sig, "")))))))))
  }

  lemma Behind(a: string, r: string, s: string)
    requires |a| == 1 && a + r == a + s
    ensures r == s
  {
    assert (a + r)[1..] == r && (a + s)[1..] == s;
  }

  lemma {:induction false} NumApart(n: nat, r: string, m: nat, s: string)
    requires NumTo(n, r) == NumTo(m, s)
    ensures n == m && r == s
  {
    assert NumTo(n, r)[0] == NumTo(m, s)[0];
    if n > 0 {
      Behind("1", NumTo(n - 1, r), NumTo(m - 1, s));
      NumApart(n - 1, r, m - 1, s);
    } else {
      Behind("0", r, s);
    }
  }

  lemma IntApart(i: int, r: string, j: int, s: string)
    requires IntTo(i, r) == IntTo(j, s)
    ensures i == j && r == s
  {
    hide NumTo;
    assert IntTo(i, r)[0] == IntTo(j, s)[0];
    if i < 0 {
      Behind("-", NumTo(-i, r), NumTo(-j, s));
      NumApart(-i, r, -j, s);
    } else {
      Behind("+", NumTo(i, r), NumTo(j, s));
      NumApart(i, r, j, s);
    }
  }

  lemma {:induction false} BitsApart(b: Label, r: string, c: Label, s: string)
    requires BitsTo(b, r) == BitsTo(c, s)
    ensures b == c && r == s
  {
    assert BitsTo(b, r)[0] == BitsTo(c, s)[0];
    if b == [] {
      Behind(".", r, s);
    } else {
      Behind(if b[0] then "1" else "0", BitsTo(b[1..], r), BitsTo(c[1..], s));
      BitsApart(b[1..], r, c[1..], s);
      assert b == [b[0]] + b[1..] && c == [c[0]] + c[1..];
    }
  }

  lemma {:induction false} BytesApart(b: Bytes, r: string, c: Bytes, s: string)
    requires BytesTo(b, r) == BytesTo(c, s)
    ensures b == c && r == s
  {
    hide NumTo;
    assert BytesTo(b, r)[0] == BytesTo(c, s)[0];
    if b == "" {
      Behind(".", r, s);
    } else {
      Behind(",", NumTo(b[0] as nat, BytesTo(b[1..], r)), NumTo(c[0] as nat, BytesTo(c[1..], s)));
      NumApart(b[0] as nat, BytesTo(b[1..], r), c[0] as nat, BytesTo(c[1..], s));
      BytesApart(b[1..], r, c[1..], s);
      assert b == [b[0]] + b[1..] && c == [c[0]] + c[1..];
    }
  }

  lemma {:induction false} DigestApart(d: Digest, r: string, e: Digest, s: string)
    requires DigestTo(d, r) == DigestTo(e, s)
    ensures d == e && r == s
    decreases d
  {
    hide IntTo, BitsTo, BytesTo;
    assert DigestTo(d, r)[0] == DigestTo(e, s)[0];
    assert DigestTo(d, r)[1..] == DigestTo(e, s)[1..];
    match d
    case LogEmpty => Behind("a", r, s);
    case MapEmpty => Behind("b", r, s);
    case LogNode(x, y) =>
      Behind("c", DigestTo(x, DigestTo(y, r)), DigestTo(e.left, DigestTo(e.right, s)));
      DigestApart(x, DigestTo(y, r), e.left, DigestTo(e.right, s));
      DigestApart(y, r, e.right, s);
    case MapNode(x, y) =>
      Behind("d", DigestTo(x, DigestTo(y, r)), DigestTo(e.left, DigestTo(e.right, s)));
      DigestApart(x, DigestTo(y, r), e.left, DigestTo(e.right, s));
      DigestApart(y, r, e.right, s);
    case MapLeaf(lbl, index, version) =>
      Behind("e", BitsTo(lbl, IntTo(index, IntTo(version, r))), BitsTo(e.lbl, IntTo(e.index, IntTo(e.version, s))));
      BitsApart(lbl, IntTo(index, IntTo(version, r)), e.lbl, IntTo(e.index, IntTo(e.version, s)));
      IntApart(index, IntTo(version, r), e.index, IntTo(e.version, s));
      IntApart(version, r, e.version, s);
    case ValueDigest(value) =>
      Behind("f", BytesTo(value, r), BytesTo(e.value, s));
      BytesApart(value, r, e.value, s);
    case Foreign(bytes) =>
      Behind("g", BytesTo(bytes, r), BytesTo(e.bytes, s));
      BytesApart(bytes, r, e.bytes, s);
    case LogLeaf(a) =>
      LeafApart(a, r, e.input, s);
  }

  lemma {:induction false} LeafApart(a: LeafInput, r: string, b: LeafInput, s: string)
    requires DigestTo(LogLeaf(a), r) == DigestTo(LogLeaf(b), s)
    ensures a == b && r == s
    decreases a
  {
    hide IntTo, BitsTo, BytesTo;
    assert DigestTo(LogLeaf(a), r)[0] == DigestTo(LogLeaf(b), s)[0];
    match a
    case KtLeaf(lbl, version, fp, value, ts) =>
      var r1, s1 := IntTo(ts, r), IntTo(b.ts, s);
      var r2, s2 := DigestTo(value, r1), DigestTo(b.valueHash, s1);
      var r3, s3 := BytesTo(fp, r2), BytesTo(b.fp, s2);
      var r4, s4 := IntTo(version, r3), IntTo(b.version, s3);
      Behind("h", BitsTo(lbl, r4), BitsTo(b.lbl, s4));
      BitsApart(lbl, r4, b.lbl, s4);
      IntApart(version, r3, b.version, s3);
      BytesApart(fp, r2, b.fp, s2);
      DigestApart(value, r1, b.valueHash, s1);
      IntApart(ts, r, b.ts, s);
    case HandleLeaf(lbl, version, value, ts) =>
      var r1, s1 := IntTo(ts, r), IntTo(b.ts, s);
      var r2, s2 := DigestTo(value, r1), DigestTo(b.valueHash, s1);
      var r3, s3 := IntTo(version, r2), IntTo(b.version, s2);
      Behind("i", BitsTo(lbl, r3), BitsTo(b.lbl, s3));
      BitsApart(lbl, r3, b.lbl, s3);
      IntApart(version, r2, b.version, s2);
      DigestApart(value, r1, b.valueHash, s1);
      IntApart(ts, r, b.ts, s);
  }

  lemma SigApart(a: Option<Bytes>, r: string, b: Option<Bytes>, s: string)
    requires SigTo(a, r) == SigTo(b, s)
    ensures a == b && r == s
  {
    hide BytesTo;
    assert SigTo(a, r)[0] == SigTo(b, s)[0];
    if a.None? {
      Behind("n", r, s);
    } else {
      Behind("s", BytesTo(a.value, r), BytesTo(b.value, s));
      BytesApart(a.value, r, b.value, s);
    }
  }

  /** No two entries share a line. */
  lemma LineApart(d: LogEntry, e: LogEntry)
    requires LineOf(d) == LineOf(e)
    ensures d == e
  {
    hide IntTo, BitsTo, BytesTo, DigestTo, SigTo;
    var r1, s1 := SigTo(d.sig, ""), SigTo(e.sig, "");
    var r2, s2 := IntTo(d.ts, r1), IntTo(e.ts, s1);
    var r3, s3 := BytesTo(d.acct, r2), BytesTo(e.acct, s2);
    var r4, s4 := BytesTo(d.value, r3), BytesTo(e.value, s3);
    var r5, s5 := DigestTo(d.valueHash, r4), DigestTo(e.valueHash, s4);
    var r6, s6 := BytesTo(d.fp, r5), BytesTo(e.fp, s5);
    var r7, s7 := IntTo(d.version, r6), IntTo(e.version, s6);
    var r8, s8 := BitsTo(d.lbl, r7), BitsTo(e.lbl, s7);
    IntApart(d.index, r8, e.index, s8);
    BitsApart(d.lbl, r7, e.lbl, s7);
    IntApart(d.version, r6, e.version, s6);
    BytesApart(d.fp, r5, e.fp, s5);
    DigestApart(d.valueHash, r4, e.valueHash, s4);
    BytesApart(d.value, r3, e.value, s3);
    BytesApart(d.acct, r2, e.acct, s2);
    IntApart(d.ts, r1, e.ts, s1);
    SigApart(d.sig, "", e.sig, "");
  }

  /** The entry of a line, of those that are let through. */
  ghost function Parsed(lets: LogEntry -> bool, line: Bytes): (r: Option<LogEntry>)
    ensures r.Some? ==> lets(r.value) && LineOf(r.value) == line
    ensures (exists e :: lets(e) && LineOf(e) == line) ==> r.Some?
  {
    if exists e :: lets(e) && LineOf(e) == line then
      var e :| lets(e) && LineOf(e) == line;
      Some(e)
    else None
  }

  /** The log's hypothesis on its codec can be met. */
  lemma FaithfulCodec(mode: Mode)
    ensures exists c: Codec :: Faithful(mode, c)
  {
    hide LineOf, GoodLine;
    var c := Codec(e => LineOf(e), line => Parsed(e => true, line));
    forall e | Storable(mode, e)
      ensures GoodLine(c.line(e)) && c.parse(c.line(e)) == Some(e)
    {
      var all := (e: LogEntry) => true;
      assert all(e) && Parsed(all, LineOf(e)).Some?;
      LineApart(Parsed(all, LineOf(e)).value, e);
    }
    assert Faithful(mode, c);
  }

  /** And so can the mirror's. */
  lemma LetsCodec(mode: Mode)
    ensures exists c: Codec :: Lets(mode, c)
  {
    hide LineOf, GoodLine, Shaped;
    var lets := e => Shaped(mode, e);
    var c := Codec(e => LineOf(e), line => Parsed(lets, line));
    forall e | Shaped(mode, e)
      ensures GoodLine(c.line(e)) && c.parse(c.line(e)) == Some(e)
    {
      assert lets(e) && Parsed(lets, LineOf(e)).Some?;
      LineApart(Parsed(lets, LineOf(e)).value, e);
    }
    assert Lets(mode, c);
  }
}
