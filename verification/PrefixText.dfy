/**
 A bucket's prefix as the protocol writes it (kt/lib/smt.js): the first bits of a label as hex
 digits, the unused low bits zero. Every prefix has one spelling in lower case, and reading
 takes exactly the spellings of prefixes, in either case.
 */
module PrefixText {
  import opened Options
  import opened Digests

  // --- Digits ---------------------------------------------------------------------------

  function HexDigit(v: nat): char
    requires v < 16
  {
    if v < 10 then '0' + v as char else 'a' + (v - 10) as char
  }

  predicate IsHex(c: char) {
    '0' <= c <= '9' || 'a' <= c <= 'f' || 'A' <= c <= 'F'
  }

  function HexValue(c: char): (v: nat)
    requires IsHex(c)
    ensures v < 16
  {
    if '0' <= c <= '9' then (c - '0') as int
    else if 'a' <= c <= 'f' then (c - 'a') as int + 10
    else (c - 'A') as int + 10
  }

  /** Four bits, most significant first. */
  function Nibble(b: Label): (v: nat)
    requires |b| == 4
    ensures v < 16
  {
    (if b[0] then 8 else 0) + (if b[1] then 4 else 0) + (if b[2] then 2 else 0) + (if b[3] then 1 else 0)
  }

  function Bits(v: nat): (b: Label)
    requires v < 16
    ensures |b| == 4
  {
    [v / 8 % 2 == 1, v / 4 % 2 == 1, v / 2 % 2 == 1, v % 2 == 1]
  }

  lemma NibbleBits(b: Label, v: nat)
    requires |b| == 4 && v < 16
    ensures Bits(Nibble(b)) == b && Nibble(Bits(v)) == v
  {
    assert Bits(Nibble(b))[0] == b[0] && Bits(Nibble(b))[1] == b[1];
    assert Bits(Nibble(b))[2] == b[2] && Bits(Nibble(b))[3] == b[3];
  }

  predicate AllHex(s: string) {
    forall i :: 0 <= i < |s| ==> IsHex(s[i])
  }

  function ToHex(b: Label): (s: string)
    requires |b| % 4 == 0
    ensures |s| == |b| / 4 && AllHex(s)
  {
    if b == [] then "" else [HexDigit(Nibble(b[..4]))] + ToHex(b[4..])
  }

  function FromHex(s: string): (b: Label)
    requires AllHex(s)
    ensures |b| == 4 * |s|
  {
    if s == "" then [] else Bits(HexValue(s[0])) + FromHex(s[1..])
  }

  /** The same digits in lower case. */
  function Lower(s: string): string
    requires AllHex(s)
  {
    if s == "" then "" else [HexDigit(HexValue(s[0]))] + Lower(s[1..])
  }

  lemma {:induction false} FromToHex(b: Label)
    requires |b| % 4 == 0
    ensures FromHex(ToHex(b)) == b
  {
    if b != [] {
      FromToHex(b[4..]);
      NibbleBits(b[..4], 0);
      DigitValue(Nibble(b[..4]));
      assert ToHex(b)[1..] == ToHex(b[4..]);
      assert b == b[..4] + b[4..];
    }
  }

  lemma DigitValue(v: nat)
    requires v < 16
    ensures IsHex(HexDigit(v)) && HexValue(HexDigit(v)) == v
  {
  }

  lemma {:induction false} ToFromHex(s: string)
    requires AllHex(s)
    ensures ToHex(FromHex(s)) == Lower(s)
  {
    if s != "" {
      ToFromHex(s[1..]);
      var v := HexValue(s[0]);
      NibbleBits([false, false, false, false], v);
      assert FromHex(s)[..4] == Bits(v) && FromHex(s)[4..] == FromHex(s[1..]);
    }
  }

  /** The digits of a longer label begin with those of its start. */
  lemma {:induction false} ToHexPrefix(a: Label, b: Label)
    requires |a| % 4 == 0 && |b| % 4 == 0
    ensures ToHex(a + b) == ToHex(a) + ToHex(b)
  {
    if a == [] {
      assert a + b == b;
    } else {
      assert (a + b)[..4] == a[..4] && (a + b)[4..] == a[4..] + b;
      ToHexPrefix(a[4..], b);
    }
  }

  // --- Prefixes -----------------------------------------------------------------------------

  function Zeros(n: nat): (z: Label)
    ensures |z| == n && forall i :: 0 <= i < n ==> !z[i]
  {
    seq(n, _ => false)
  }

  /** A label's first bits, every later bit zero. */
  function Masked(l: Label, bits: nat): (m: Label)
    requires bits <= |l|
    ensures |m| == |l|
  {
    l[..bits] + Zeros(|l| - bits)
  }

  /** How many digits so many bits take. */
  function Digits(bits: nat): nat {
    (bits + 3) / 4
  }

  function Spelled(l: Label, bits: nat): string
    requires bits <= |l| && |l| % 4 == 0
  {
    ToHex(Masked(l, bits)[..4 * Digits(bits)])
  }

  /** prefixHex: the bits set one by one in an empty label, its digits, and the first of them. */
  method PrefixHex(l: Label, bits: nat) returns (s: string)
    requires bits <= |l| && |l| % 4 == 0
    ensures s == Spelled(l, bits)
  {
    hide ToHex, Masked;
    var b := Zeros(|l|);
    MaskedNone(l);
    for d := 0 to bits
      invariant b == Masked(l, d)
    {
      MaskedNext(l, d);
      if l[d] {
        b := b[d := true];
      }
    }
    var n := 4 * Digits(bits);
    ToHexPrefix(b[..n], b[n..]);
    assert b == b[..n] + b[n..];
    s := ToHex(b)[..Digits(bits)];
  }

  lemma MaskedNone(l: Label)
    ensures Masked(l, 0) == Zeros(|l|)
  {
  }

  lemma MaskedNext(l: Label, d: nat)
    requires d < |l|
    ensures Masked(l, d + 1) == if l[d] then Masked(l, d)[d := true] else Masked(l, d)
  {
    var a, b := Masked(l, d + 1), if l[d] then Masked(l, d)[d := true] else Masked(l, d);
    assert forall i :: 0 <= i < |l| ==> a[i] == b[i];
  }

  /** parsePrefix: D bits, or None for what is not a prefix's spelling. */
  method ParsePrefix(D: nat, s: string, bits: int) returns (r: Option<Label>)
    requires D % 4 == 0
    ensures r == Parsed(D, s, bits)
  {
    hide FromHex;
    if bits < 0 || bits > D {
      return None;
    }
    if |s| != Digits(bits) || !AllHex(s) {
      return None;
    }
    var b := FromHex(s) + Zeros(D - 4 * |s|);
    for d := bits to 4 * |s|
      invariant forall k :: bits <= k < d ==> !b[k]
    {
      if b[d] {
        return None;
      }
    }
    r := Some(b);
  }

  function Parsed(D: nat, s: string, bits: int): Option<Label>
    requires D % 4 == 0
  {
    if bits < 0 || bits > D || |s| != Digits(bits) || !AllHex(s) then None
    else
      var b := FromHex(s) + Zeros(D - 4 * |s|);
      if exists d :: bits <= d < 4 * |s| && b[d] then None else Some(b)
  }

  /** Reading what was written gives the prefix, every later bit zero. */
  lemma ParseSpelled(l: Label, bits: nat)
    requires bits <= |l| && |l| % 4 == 0
    ensures Parsed(|l|, Spelled(l, bits), bits) == Some(Masked(l, bits))
  {
    hide ToHex, FromHex;
    var n := 4 * Digits(bits);
    var m := Masked(l, bits);
    FromToHex(m[..n]);
    assert m[..n] + Zeros(|l| - n) == m;
  }

  /** What is read is a prefix, and it was written in its own digits, in either case. */
  lemma SpelledParse(D: nat, s: string, bits: nat)
    requires D % 4 == 0 && Parsed(D, s, bits).Some?
    ensures var p := Parsed(D, s, bits).value;
      |p| == D && bits <= D && Masked(p, bits) == p && Spelled(p, bits) == Lower(s)
  {
    hide ToHex, FromHex;
    var p := Parsed(D, s, bits).value;
    ToFromHex(s);
    assert p[..4 * |s|] == FromHex(s);
    forall k | bits <= k < D
      ensures !p[k]
    {
      if k >= 4 * |s| {
        assert p[k] == Zeros(D - 4 * |s|)[k - 4 * |s|];
      }
    }
    assert Masked(p, bits) == p;
  }

  lemma HexDigits(v: nat)
    requires v < 16
    ensures HexDigit(v) == "0123456789abcdef"[v] && HexValue(HexDigit(v)) == v
    ensures v >= 10 ==> HexValue("ABCDEF"[v - 10]) == v
  {
  }

  /** Ten bits, the first the most significant of its digit, take three digits. */
  lemma TenBits()
    ensures Spelled([true, false, true, true, false, false, true, false, true, true, true, true], 10) == "b2c"
  {
    var l := [true, false, true, true, false, false, true, false, true, true, true, true];
    var m := Masked(l, 10)[..4 * Digits(10)];
    assert m == [true, false, true, true, false, false, true, false, true, true, false, false];
    assert m[..4] == [true, false, true, true] && m[4..] == [false, false, true, false, true, true, false, false];
    assert m[4..][..4] == [false, false, true, false] && m[4..][4..] == [true, true, false, false];
    assert ToHex(m[4..][4..]) == "c" by {
      assert m[4..][4..][..4] == [true, true, false, false] && m[4..][4..][4..] == [];
    }
    assert ToHex(m[4..]) == "2c";
  }
}
