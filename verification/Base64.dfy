/**
 Unpadded base64url (section 5 of RFC 4648) as kt/lib/handles.js holds strings to it:
 Node's decoder ignores the unused low bits of a last character, so `b64urlExact`
 decodes and encodes again, and one byte string has one spelling.
 */
module Base64 {
  import opened Options
  import opened Digests

  predicate IsBytes(b: Bytes) {
    forall i :: 0 <= i < |b| ==> b[i] as int < 256
  }

  function Letter(v: nat): char
    requires v < 64
  {
    if v < 26 then 'A' + v as char
    else if v < 52 then 'a' + (v - 26) as char
    else if v < 62 then '0' + (v - 52) as char
    else if v == 62 then '-' else '_'
  }

  predicate InAlphabet(c: char) {
    'A' <= c <= 'Z' || 'a' <= c <= 'z' || '0' <= c <= '9' || c == '-' || c == '_'
  }

  function Sextet(c: char): (v: nat)
    requires InAlphabet(c)
    ensures v < 64 && Letter(v) == c
  {
    if 'A' <= c <= 'Z' then (c - 'A') as int
    else if 'a' <= c <= 'z' then (c - 'a') as int + 26
    else if '0' <= c <= '9' then (c - '0') as int + 52
    else if c == '-' then 62 else 63
  }

  lemma LetterSextet(v: nat)
    requires v < 64
    ensures InAlphabet(Letter(v)) && Sextet(Letter(v)) == v
  {
  }

  /** Buffer.toString('base64url'): three bytes are four letters, a rest of one or two bytes is two or three. */
  function Encode(b: Bytes): string
    requires IsBytes(b)
  {
    if |b| == 0 then ""
    else if |b| == 1 then
      var x := b[0] as int;
      [Letter(x / 4), Letter(x % 4 * 16)]
    else if |b| == 2 then
      var x, y := b[0] as int, b[1] as int;
      [Letter(x / 4), Letter(x % 4 * 16 + y / 16), Letter(y % 16 * 4)]
    else Four(b[0] as int, b[1] as int, b[2] as int) + Encode(b[3..])
  }

  function Four(x: nat, y: nat, z: nat): (s: string)
    requires x < 256 && y < 256 && z < 256
    ensures |s| == 4
  {
    [Letter(x / 4), Letter(x % 4 * 16 + y / 16), Letter(y % 16 * 4 + z / 64), Letter(z % 64)]
  }

  function Three(s: string): (b: Bytes)
    requires |s| == 4 && forall i :: 0 <= i < |s| ==> InAlphabet(s[i])
    ensures |b| == 3
  {
    var p, q, r, t := Sextet(s[0]), Sextet(s[1]), Sextet(s[2]), Sextet(s[3]);
    [(p * 4 + q / 16) as char, (q % 16 * 16 + r / 4) as char, (r % 4 * 64 + t) as char]
  }

  /** Buffer.from(s, 'base64url') on letters of the alphabet: what is left over of a last letter is dropped. */
  function Decode(s: string): Bytes
    requires forall i :: 0 <= i < |s| ==> InAlphabet(s[i])
  {
    if |s| <= 1 then ""
    else
      var p, q := Sextet(s[0]), Sextet(s[1]);
      if |s| == 2 then [(p * 4 + q / 16) as char]
      else
        var r := Sextet(s[2]);
        if |s| == 3 then [(p * 4 + q / 16) as char, (q % 16 * 16 + r / 4) as char]
        else Three(s[..4]) + Decode(s[4..])
  }

  /** How many letters n bytes take: ceil(4n / 3). */
  function EncodedLength(n: nat): nat {
    (4 * n + 2) / 3
  }

  predicate AllLetters(s: string) {
    forall i :: 0 <= i < |s| ==> InAlphabet(s[i])
  }

  lemma {:induction false} EncodeShape(b: Bytes)
    requires IsBytes(b)
    ensures AllLetters(Encode(b)) && |Encode(b)| == EncodedLength(|b|)
  {
    if |b| >= 3 {
      EncodeShape(b[3..]);
    }
    LettersOfHead(b);
  }

  lemma LettersOfHead(b: Bytes)
    requires IsBytes(b)
    ensures forall v: nat :: v < 64 ==> InAlphabet(Letter(v))
  {
    forall v: nat | v < 64
      ensures InAlphabet(Letter(v))
    {
      LetterSextet(v);
    }
  }

  /** Decoding what was encoded gives it back. */
  lemma {:induction false} DecodeEncode(b: Bytes)
    requires IsBytes(b)
    ensures AllLetters(Encode(b)) && Decode(Encode(b)) == b
  {
    hide Letter, Sextet, InAlphabet, Encode, Decode;
    EncodeShape(b);
    if |b| == 0 {
      NoBytes();
    } else if |b| < 3 {
      LastBytes(b);
    } else {
      DecodeEncode(b[3..]);
      EncodeShape(b[3..]);
      FirstBytes(b);
      assert b == b[..3] + b[3..];
    }
  }

  lemma NoBytes()
    ensures Decode(Encode("")) == ""
  {
  }

  lemma LastBytes(b: Bytes)
    requires IsBytes(b) && 1 <= |b| < 3 && AllLetters(Encode(b))
    ensures Decode(Encode(b)) == b
  {
    hide Letter, Sextet, InAlphabet;
    var x := b[0] as int;
    if |b| == 1 {
      Sextets1(x);
    } else {
      Sextets2(x, b[1] as int);
    }
  }

  lemma FirstBytes(b: Bytes)
    requires IsBytes(b) && |b| >= 3 && AllLetters(Encode(b)) && AllLetters(Encode(b[3..]))
    ensures Decode(Encode(b)) == b[..3] + Decode(Encode(b[3..]))
  {
    hide Letter, Sextet, InAlphabet, Four, Three, Encode, Decode;
    ThreeFour(b[0] as int, b[1] as int, b[2] as int);
    FirstFour(b);
    var s := Encode(b);
    assert s[4..] == Encode(b[3..]);
    assert s[..4] == Four(b[0] as int, b[1] as int, b[2] as int);
    FirstThree(s);
    assert b[..3] == [b[0], b[1], b[2]];
  }

  lemma FirstFour(b: Bytes)
    requires IsBytes(b) && |b| >= 3
    ensures Encode(b) == Four(b[0] as int, b[1] as int, b[2] as int) + Encode(b[3..])
  {
    hide Four;
  }

  lemma FirstThree(s: string)
    requires |s| >= 4 && AllLetters(s)
    ensures AllLetters(s[..4]) && AllLetters(s[4..]) && Decode(s) == Three(s[..4]) + Decode(s[4..])
  {
    hide Three, InAlphabet;
  }

  lemma ThreeFour(x: nat, y: nat, z: nat)
    requires x < 256 && y < 256 && z < 256
    ensures AllLetters(Four(x, y, z)) && Three(Four(x, y, z)) == [x as char, y as char, z as char]
  {
    hide Letter, Sextet, InAlphabet;
    Sextets3(x, y, z);
    LetterSextet(x / 4);
    LetterSextet(x % 4 * 16 + y / 16);
    LetterSextet(y % 16 * 4 + z / 64);
    LetterSextet(z % 64);
  }

  lemma Sextets1(x: nat)
    requires x < 256
    ensures Sextet(Letter(x / 4)) * 4 + Sextet(Letter(x % 4 * 16)) / 16 == x
  {
    LetterSextet(x / 4);
    LetterSextet(x % 4 * 16);
  }

  lemma Sextets2(x: nat, y: nat)
    requires x < 256 && y < 256
    ensures var p, q, r := Sextet(Letter(x / 4)), Sextet(Letter(x % 4 * 16 + y / 16)), Sextet(Letter(y % 16 * 4));
      p * 4 + q / 16 == x && q % 16 * 16 + r / 4 == y
  {
    LetterSextet(x / 4);
    LetterSextet(x % 4 * 16 + y / 16);
    LetterSextet(y % 16 * 4);
  }

  lemma Sextets3(x: nat, y: nat, z: nat)
    requires x < 256 && y < 256 && z < 256
    ensures var p, q := Sextet(Letter(x / 4)), Sextet(Letter(x % 4 * 16 + y / 16));
      var r, t := Sextet(Letter(y % 16 * 4 + z / 64)), Sextet(Letter(z % 64));
      p * 4 + q / 16 == x && q % 16 * 16 + r / 4 == y && r % 4 * 64 + t == z
  {
    LetterSextet(x / 4);
    LetterSextet(x % 4 * 16 + y / 16);
    LetterSextet(y % 16 * 4 + z / 64);
    LetterSextet(z % 64);
  }

  lemma {:induction false} DecodeIsBytes(s: string)
    requires AllLetters(s)
    ensures IsBytes(Decode(s))
  {
    if |s| >= 4 {
      DecodeIsBytes(s[4..]);
    }
  }

  /** s as exactly n bytes in its one spelling, or nothing. */
  function B64UrlExact(s: string, n: nat): Option<Bytes> {
    if |s| != EncodedLength(n) || !AllLetters(s) then None
    else
      DecodeIsBytes(s);
      var b := Decode(s);
      if |b| != n || Encode(b) != s then None else Some(b)
  }

  /** It accepts exactly the encodings of n bytes, each as the bytes it encodes. */
  lemma B64UrlExactIs(s: string, n: nat, b: Bytes)
    ensures B64UrlExact(s, n) == Some(b) <==> IsBytes(b) && |b| == n && Encode(b) == s
  {
    if IsBytes(b) && |b| == n && Encode(b) == s {
      EncodeShape(b);
      DecodeEncode(b);
    }
    if AllLetters(s) {
      DecodeIsBytes(s);
    }
  }

  // --- The standard's table and vectors ---------------------------------------------------

  /** Table 2 of section 5 of RFC 4648. */
  lemma Alphabet(v: nat)
    requires v < 64
    ensures v < 26 ==> Letter(v) == "ABCDEFGHIJKLMNOPQRSTUVWXYZ"[v]
    ensures 26 <= v < 52 ==> Letter(v) == "abcdefghijklmnopqrstuvwxyz"[v - 26]
    ensures v >= 52 ==> Letter(v) == "0123456789-_"[v - 52]
  {
  }

  /** The vectors of section 10 of RFC 4648, without the padding. */
  lemma Vectors()
    ensures Encode("") == ""
    ensures Encode("f") == "Zg" && Encode("fo") == "Zm8" && Encode("foo") == "Zm9v"
    ensures Encode("foob") == "Zm9vYg" && Encode("fooba") == "Zm9vYmE" && Encode("foobar") == "Zm9vYmFy"
  {
    assert "foob"[3..] == "b" && "fooba"[3..] == "ba" && "foobar"[3..] == "bar" && "foo"[3..] == "" && "bar"[3..] == "";
  }
}
