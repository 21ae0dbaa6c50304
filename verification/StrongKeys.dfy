/**
 Strong keys (kt/lib/handles.js): canonical encodings of points that are not of small
 order. The scans over bytes decide comparisons of little-endian numbers with
 p = 2^255 - 19 and with L, the order of the base point.
 */
module StrongKeys {
  import opened Digests
  import opened Base64

  /** The little-endian number of a byte string. */
  function LE(b: Bytes): nat {
    if b == "" then 0 else b[0] as nat + 256 * LE(b[1..])
  }

  function Pow256(n: nat): (r: nat)
    ensures r >= 1
  {
    if n == 0 then 1 else 256 * Pow256(n - 1)
  }

  lemma {:induction false} LEBound(b: Bytes)
    requires IsBytes(b)
    ensures LE(b) < Pow256(|b|)
    ensures LE(b) == Pow256(|b|) - 1 <==> forall i :: 0 <= i < |b| ==> b[i] as int == 0xff
  {
    if b != "" {
      LEBound(b[1..]);
      assert forall i :: 0 < i < |b| ==> b[i] == b[1..][i - 1];
      if forall i :: 0 <= i < |b| ==> b[i] as int == 0xff {
        assert forall i :: 0 <= i < |b[1..]| ==> b[1..][i] == b[i + 1];
      }
    }
  }

  lemma {:induction false} LESplit(a: Bytes, b: Bytes)
    ensures LE(a + b) == LE(a) + Pow256(|a|) * LE(b)
  {
    if a == "" {
      assert a + b == b;
    } else {
      LESplit(a[1..], b);
      assert (a + b)[1..] == a[1..] + b;
      assert Pow256(|a|) * LE(b) == 256 * (Pow256(|a| - 1) * LE(b));
    }
  }

  // --- Below p -----------------------------------------------------------------

  /** belowP: a 255-bit number, its top bit already clear, against p. */
  predicate BelowP(b: Bytes)
    requires |b| == 32
  {
    if b[31] as int != 0x7f then true
    else if exists i :: 1 <= i <= 30 && b[i] as int != 0xff then true
    else (b[0] as int) < 0xed
  }

  function Pow2(e: nat): (r: nat)
    ensures r >= 1
  {
    if e == 0 then 1 else 2 * Pow2(e - 1)
  }

  lemma {:induction false} Pow2Is256(n: nat)
    ensures Pow2(8 * n) == Pow256(n)
  {
    if n > 0 {
      Pow2Is256(n - 1);
      var m := 8 * (n - 1);
      assert Pow2(m + 2) == 4 * Pow2(m);
      assert Pow2(m + 4) == 4 * Pow2(m + 2);
      assert Pow2(m + 6) == 4 * Pow2(m + 4);
      assert Pow2(m + 8) == 4 * Pow2(m + 6);
    }
  }

  const FIELD_BITS: nat := 255

  function P(): (p: nat)
    ensures p > 0
  {
    assert Pow2(FIELD_BITS) == 32 * Pow2(FIELD_BITS - 5);
    Pow2(FIELD_BITS) - 19
  }

  lemma PIs()
    ensures P() == 0x8000 * Pow256(30) - 19
  {
    hide Pow256;
    Pow2Is256(30);
    assert Pow2(243) == 8 * Pow2(240);
    assert Pow2(246) == 8 * Pow2(243);
    assert Pow2(249) == 8 * Pow2(246);
    assert Pow2(252) == 8 * Pow2(249);
    assert Pow2(255) == 8 * Pow2(252);
  }

  /** The scan decides the comparison. */
  lemma BelowPExact(b: Bytes)
    requires IsBytes(b) && |b| == 32 && (b[31] as int) < 0x80
    ensures BelowP(b) <==> LE(b) < P()
  {
    hide LE, Pow256, P;
    var mid, top := b[1..31], b[31];
    PIs();
    LEBound(mid);
    assert forall i :: 1 <= i <= 30 ==> b[i] == mid[i - 1];
    assert (forall i :: 0 <= i < 30 ==> mid[i] as int == 0xff) <==> (forall i :: 1 <= i <= 30 ==> b[i] as int == 0xff) by {
      if forall i :: 1 <= i <= 30 ==> b[i] as int == 0xff {
        assert forall i :: 0 <= i < 30 ==> mid[i] == b[i + 1];
      }
    }
    LEParts(b);
    TopTimes(Pow256(30), top as nat);
  }

  lemma LEParts(b: Bytes)
    requires |b| == 32
    ensures LE(b) == b[0] as nat + 256 * (LE(b[1..31]) + Pow256(30) * b[31] as nat)
  {
    hide Pow256;
    var mid, top := b[1..31], [b[31]];
    assert b[1..] == mid + top;
    LESplit(mid, top);
    assert LE(top) == b[31] as nat;
  }

  lemma TopTimes(k: nat, t: nat)
    requires t < 0x80
    ensures t < 0x7f ==> k * t <= k * 0x7e
    ensures t == 0x7f ==> k * t == k * 0x7f
  {
    if t < 0x7f {
      assert k * (0x7e - t) >= 0;
    }
  }

  // --- Below L -----------------------------------------------------------------------

  /** belowL's scan: from the top, the first byte that differs decides. */
  predicate BelowFromTop(s: Bytes, t: Bytes)
    requires |s| == |t|
  {
    if s == "" then false
    else
      var n := |s| - 1;
      if s[n] != t[n] then s[n] < t[n] else BelowFromTop(s[..n], t[..n])
  }

  /** The scan decides the comparison of the little-endian numbers. */
  lemma {:induction false} BelowFromTopExact(s: Bytes, t: Bytes)
    requires |s| == |t| && IsBytes(s) && IsBytes(t)
    ensures BelowFromTop(s, t) <==> LE(s) < LE(t)
  {
    if s != "" {
      var n := |s| - 1;
      assert s == s[..n] + [s[n]] && t == t[..n] + [t[n]];
      LESplit(s[..n], [s[n]]);
      LESplit(t[..n], [t[n]]);
      LEOne(s[n]);
      LEOne(t[n]);
      LEBound(s[..n]);
      LEBound(t[..n]);
      BelowFromTopExact(s[..n], t[..n]);
      HigherDigit(Pow256(n), LE(s[..n]), s[n] as nat, LE(t[..n]), t[n] as nat);
      HigherDigit(Pow256(n), LE(t[..n]), t[n] as nat, LE(s[..n]), s[n] as nat);
    }
  }

  /** L as it is written in the source, eight bytes a part. */
  function OrderL(): (b: Bytes)
    ensures IsBytes(b) && |b| == 32
  {
    [237 as char, 211 as char, 245 as char, 92 as char, 26 as char, 99 as char, 18 as char, 88 as char] +
    [214 as char, 156 as char, 247 as char, 162 as char, 222 as char, 249 as char, 222 as char, 20 as char] +
    [0 as char, 0 as char, 0 as char, 0 as char, 0 as char, 0 as char, 0 as char, 0 as char] +
    [0 as char, 0 as char, 0 as char, 0 as char, 0 as char, 0 as char, 0 as char, 16 as char]
  }

  lemma LEFour(a: char, b: char, c: char, d: char)
    ensures LE([a, b, c, d]) == a as nat + 0x100 * b as nat + 0x1_0000 * c as nat + 0x100_0000 * d as nat
  {
    assert [a, b, c, d][1..] == [b, c, d] && [b, c, d][1..] == [c, d] && [c, d][1..] == [d];
    LEOne(d);
    assert LE([c, d]) == c as nat + 256 * LE([d]);
    assert LE([b, c, d]) == b as nat + 256 * LE([c, d]);
  }

  lemma LEEight(s: Bytes, t: Bytes)
    requires |s| == 4 && |t| == 4
    ensures LE(s + t) == s[0] as nat + 0x100 * s[1] as nat + 0x1_0000 * s[2] as nat + 0x100_0000 * s[3] as nat +
      0x1_0000_0000 * (t[0] as nat + 0x100 * t[1] as nat + 0x1_0000 * t[2] as nat + 0x100_0000 * t[3] as nat)
  {
    hide LE;
    LESplit(s, t);
    LEFour(s[0], s[1], s[2], s[3]);
    LEFour(t[0], t[1], t[2], t[3]);
    assert s == [s[0], s[1], s[2], s[3]] && t == [t[0], t[1], t[2], t[3]];
    assert Pow256(4) == 256 * Pow256(3) == 0x1_0000_0000;
  }

  /** Which is 2^252 + 27742317777372353535851937790883648493. */
  lemma OrderLIs()
    ensures LE(OrderL()) == Pow2(252) + 27742317777372353535851937790883648493
  {
    hide LE, Pow2;
    var a, b := [237 as char, 211 as char, 245 as char, 92 as char, 26 as char, 99 as char, 18 as char, 88 as char], [214 as char, 156 as char, 247 as char, 162 as char, 222 as char, 249 as char, 222 as char, 20 as char];
    var c, d := [0 as char, 0 as char, 0 as char, 0 as char, 0 as char, 0 as char, 0 as char, 0 as char], [0 as char, 0 as char, 0 as char, 0 as char, 0 as char, 0 as char, 0 as char, 16 as char];
    EightParts(a, 6346243789798364141);
    EightParts(b, 1503914060200516822);
    EightParts(c, 0);
    EightParts(d, 0x1000_0000_0000_0000);
    LESplit(c, d);
    LESplit(b, c + d);
    LESplit(a, b + (c + d));
    assert OrderL() == a + (b + (c + d));
    Pow2Is64();
  }

  lemma EightParts(s: Bytes, v: nat)
    requires |s| == 8
    requires v == s[0] as nat + 0x100 * s[1] as nat + 0x1_0000 * s[2] as nat + 0x100_0000 * s[3] as nat +
      0x1_0000_0000 * (s[4] as nat + 0x100 * s[5] as nat + 0x1_0000 * s[6] as nat + 0x100_0000 * s[7] as nat)
    ensures LE(s) == v
  {
    hide LE;
    LEEight(s[..4], s[4..]);
    assert s == s[..4] + s[4..];
  }

  lemma Pow2Is64()
    ensures Pow256(8) == 0x1_0000_0000_0000_0000
    ensures Pow2(252) == 0x1000_0000_0000_0000 * 0x1_0000_0000_0000_0000 * 0x1_0000_0000_0000_0000 * 0x1_0000_0000_0000_0000
  {
    hide *;
    Pow2Is16();
    Pow2Is256(8);
    Pow2Sum(4, 4);
    Pow2Sum(8, 4);
    Pow2Sum(12, 16);
    Pow2Sum(8, 8);
    Pow2Sum(16, 16);
    Pow2Sum(32, 32);
    Pow2Sum(32, 28);
    Pow2Sum(64, 64);
    Pow2Sum(128, 64);
    Pow2Sum(192, 60);
  }

  lemma Pow2Is16()
    ensures Pow2(4) == 16
  {
    assert Pow2(2) == 4;
  }

  lemma {:induction false} Pow2Sum(a: nat, b: nat)
    ensures Pow2(a + b) == Pow2(a) * Pow2(b)
  {
    if b > 0 {
      Pow2Sum(a, b - 1);
      assert Pow2(a) * Pow2(b) == 2 * (Pow2(a) * Pow2(b - 1));
    }
  }

  /** Whether 32 bytes are below L. */
  predicate BelowL(s: Bytes)
    requires |s| == 32
  {
    BelowFromTop(s, OrderL())
  }

  lemma BelowLExact(s: Bytes)
    requires IsBytes(s) && |s| == 32
    ensures BelowL(s) <==> LE(s) < LE(OrderL())
  {
    BelowFromTopExact(s, OrderL());
  }

  lemma LEOne(c: char)
    ensures LE([c]) == c as nat
  {
    assert [c][1..] == "";
  }

  lemma Distribute(k: nat, x: nat, z: nat)
    ensures k * (x + 1 + z) == k * x + k + k * z && k * z >= 0
  {
  }

  lemma HigherDigit(k: nat, a: nat, x: nat, b: nat, y: nat)
    requires a < k && b < k
    ensures x < y ==> a + k * x < b + k * y
  {
    if x < y {
      Distribute(k, x, y - x - 1);
    }
  }

  // --- The lists ------------------------------------------------------------------------

  /** y of the points whose order divides 8, each as the little-endian number of its listed bytes. */
  predicate SmallOrderEd(y: Bytes) {
    var n := LE(y);
    || n == 1
    || n == 0x7fffffffffffffffffffffffffffffffffffffffffffffffffffffffffffffec
    || n == 0
    || n == 0x5fc536d880238b13933c6d305acdfd5f098eff289f4c345b027b2c28f95e826
    || n == 0x7a03ac9277fdc74ec6cc392cfa53202a0f67100d760b3cba4fd84d3d706a17c7
  }

  /** u of the X25519 points of small order, likewise. */
  predicate SmallOrderX(u: Bytes) {
    var n := LE(u);
    || n == 0
    || n == 1
    || n == 0xb8495f16056286fdb1329ceb8d09da6ac49ff1fae35616aeb8413b7c7aebe0
    || n == 0x57119fd0dd4e22d8868e1c58c45c44045bef839c55b1d0b1248c50a3bc959c5f
    || n == 0x7fffffffffffffffffffffffffffffffffffffffffffffffffffffffffffffec
  }

  /** The key with its sign bit clear. */
  function ClearTop(k: Bytes): (y: Bytes)
    requires IsBytes(k) && |k| == 32
    ensures IsBytes(y) && |y| == 32 && (y[31] as int) < 0x80
    ensures forall i :: 0 <= i < 31 ==> y[i] == k[i]
  {
    k[31 := (k[31] as int % 0x80) as char]
  }

  /** strongEdKey. */
  predicate StrongEd(k: Bytes) {
    IsBytes(k) && |k| == 32 && BelowP(ClearTop(k)) && !SmallOrderEd(ClearTop(k))
  }

  /** strongXKey. */
  predicate StrongX(k: Bytes) {
    IsBytes(k) && |k| == 32 && (k[31] as int) < 0x80 && BelowP(k) && !SmallOrderX(k)
  }

  /** A strong Ed25519 key, as numbers: its y is below 2^255 - 19 and none of the five. */
  lemma StrongEdExact(k: Bytes)
    requires IsBytes(k) && |k| == 32
    ensures var y := LE(k[31 := (k[31] as int % 0x80) as char]);
      StrongEd(k) <==>
        && y < Pow2(255) - 19 && y != 0 && y != 1 && y != Pow2(255) - 20
        && y != 0x5fc536d880238b13933c6d305acdfd5f098eff289f4c345b027b2c28f95e826
        && y != 0x7a03ac9277fdc74ec6cc392cfa53202a0f67100d760b3cba4fd84d3d706a17c7
  {
    hide LE, BelowP, Pow2;
    PNumber();
    BelowPExact(ClearTop(k));
  }

  /** A strong X25519 key, likewise: no top bit, and none of these five. */
  lemma StrongXExact(k: Bytes)
    requires IsBytes(k) && |k| == 32
    ensures var u := LE(k);
      StrongX(k) <==>
        && (k[31] as int) < 0x80 && u < Pow2(255) - 19 && u != 0 && u != 1 && u != Pow2(255) - 20
        && u != 0xb8495f16056286fdb1329ceb8d09da6ac49ff1fae35616aeb8413b7c7aebe0
        && u != 0x57119fd0dd4e22d8868e1c58c45c44045bef839c55b1d0b1248c50a3bc959c5f
  {
    hide LE, BelowP, Pow2;
    PNumber();
    if (k[31] as int) < 0x80 {
      BelowPExact(k);
    }
  }

  lemma StrongSize(k: Bytes)
    ensures StrongEd(k) || StrongX(k) ==> IsBytes(k) && |k| == 32
  {
  }

  lemma PNumber()
    ensures P() == Pow2(255) - 19 == 0x7fffffffffffffffffffffffffffffffffffffffffffffffffffffffffffffed
  {
    hide Pow2;
    Pow2Is64();
    assert Pow2(255) == 8 * Pow2(252) by {
      Pow2Eight(252);
    }
  }

  lemma Pow2Eight(n: nat)
    ensures Pow2(n + 3) == 8 * Pow2(n)
  {
    assert Pow2(n + 1) == 2 * Pow2(n) && Pow2(n + 2) == 2 * Pow2(n + 1) && Pow2(n + 3) == 2 * Pow2(n + 2);
  }

  /**
   The five are what they are listed as: y of points P with 8P = 0 on the curve. y is 1 or -1 at order 1 or 2,
   0 at order 4, and at order 8, where doubling gives y = 0, d y^4 + 2 y^2 - 1 = 0 with d = -121665 / 121666.
   */
  lemma SmallOrderRoots(y: Bytes)
    requires SmallOrderEd(y)
    ensures var n := LE(y); n * (n * n - 1) * (121665 * n * n * n * n - 243332 * n * n + 121666) % P() == 0
  {
    hide LE, Pow2;
    PNumber();
  }

  /** And of the X25519 list: u is 0, 1 or -1, or doubles to u = 1, where u^4 - 4u^3 - (4A + 2)u^2 - 4u + 1 = 0 with A = 486662. */
  lemma SmallOrderRootsX(u: Bytes)
    requires SmallOrderX(u)
    ensures var n := LE(u); n * (n * n - 1) * (n * n * n * n - 4 * n * n * n - 1946650 * n * n - 4 * n + 1) % P() == 0
  {
    hide LE, Pow2, P;
    PNumber();
    RootX(LE(u), P());
  }

  lemma RootX(n: nat, p: nat)
    requires p == 0x7fffffffffffffffffffffffffffffffffffffffffffffffffffffffffffffed
    requires n == 0 || n == 1 || n == p - 1 ||
      n == 0xb8495f16056286fdb1329ceb8d09da6ac49ff1fae35616aeb8413b7c7aebe0 ||
      n == 0x57119fd0dd4e22d8868e1c58c45c44045bef839c55b1d0b1248c50a3bc959c5f
    ensures n * (n * n - 1) * (n * n * n * n - 4 * n * n * n - 1946650 * n * n - 4 * n + 1) % p == 0
  {
  }

  /** A strong key has one spelling: it is below p, so no other key of 32 bytes has its number modulo p and its sign. */
  lemma StrongSpelling(k: Bytes, j: Bytes)
    requires StrongEd(k) && StrongEd(j)
    requires LE(ClearTop(k)) % P() == LE(ClearTop(j)) % P()
    requires (k[31] as int >= 0x80) == (j[31] as int >= 0x80)
    ensures k == j
  {
    hide LE, P, BelowP, SmallOrderEd;
    BelowPExact(ClearTop(k));
    BelowPExact(ClearTop(j));
    assert LE(ClearTop(k)) == LE(ClearTop(j));
    LEInjective(ClearTop(k), ClearTop(j));
    assert k[31] == j[31];
    assert forall i :: 0 <= i < 31 ==> k[i] == ClearTop(k)[i] == ClearTop(j)[i] == j[i];
  }

  lemma {:induction false} LEInjective(a: Bytes, b: Bytes)
    requires IsBytes(a) && IsBytes(b) && |a| == |b| && LE(a) == LE(b)
    ensures a == b
  {
    if a != "" {
      assert a[0] == b[0] && LE(a[1..]) == LE(b[1..]);
      LEInjective(a[1..], b[1..]);
      assert a == [a[0]] + a[1..] && b == [b[0]] + b[1..];
    }
  }
}
