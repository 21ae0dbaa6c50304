/**
 The power-of-two test of kt/lib/merkle.js, `(n & (n - 1)) === 0`. JavaScript's `&`
 reads the low 32 bits of a number, so the test is right exactly on the sizes that
 are not `Misread`.
 */
module PowerTest {

  /** `n` is 1, 2, 4, 8, ... */
  predicate IsPow2(n: nat) {
    n == 1 || (n > 1 && n % 2 == 0 && IsPow2(n / 2))
  }

  lemma HalfIsPow2(n: nat)
    requires n >= 2 && n % 2 == 0
    ensures IsPow2(n) == IsPow2(n / 2)
  {
  }

  /** Bitwise and. */
  function And(a: nat, b: nat): nat {
    if a == 0 || b == 0 then 0
    else 2 * And(a / 2, b / 2) + (if a % 2 == 1 && b % 2 == 1 then 1 else 0)
  }

  const WORD: nat := 0x1_0000_0000

  predicate Passes(n: nat)
    requires n >= 1
  {
    And(n % WORD, (n - 1) % WORD) == 0
  }

  /** The test says yes of a size that is not a power of two. */
  predicate Misread(n: nat) {
    n >= 1 && Passes(n) && !IsPow2(n)
  }

  lemma {:induction false} AndSelf(a: nat)
    ensures And(a, a) == a
  {
    if a > 0 {
      AndSelf(a / 2);
    }
  }

  lemma {:induction false} AndPred(n: nat)
    requires n >= 1
    ensures And(n, n - 1) == 0 <==> IsPow2(n)
  {
    if n > 1 {
      if n % 2 == 1 {
        AndSelf(n / 2);
      } else {
        AndPred(n / 2);
      }
    }
  }

  /** Below 2^32 the test is right. */
  lemma ExactInWord(n: nat)
    requires 1 <= n < WORD
    ensures Passes(n) <==> IsPow2(n)
  {
    AndPred(n);
  }

  /** A power of two passes at any size. */
  lemma Pow2Passes(n: nat)
    requires IsPow2(n)
    ensures Passes(n)
  {
    if n < WORD {
      AndPred(n);
    } else {
      Pow2IsWords(n);
    }
  }

  lemma Pow2IsWords(n: nat)
    requires IsPow2(n) && n >= WORD
    ensures n % WORD == 0
  {
    hide IsPow2, Pow;
    PowWord();
    var q := Pow2Divides(n, WORD, 32);
  }

  lemma {:induction false} Pow2Divides(n: nat, w: nat, e: nat) returns (q: nat)
    requires w == Pow(e) && w >= 1 && n >= w && IsPow2(n)
    ensures n == q * w
  {
    if e == 0 {
      q := n;
    } else {
      q := Pow2Divides(n / 2, w / 2, e - 1);
      assert n == 2 * (q * (w / 2)) == q * w;
    }
  }

  lemma PowWord()
    ensures Pow(32) == WORD
  {
    assert Pow(8) == 0x100;
    assert Pow(16) == 0x1_0000;
    assert Pow(24) == 0x100_0000;
  }

  function Pow(e: nat): nat {
    if e == 0 then 1 else 2 * Pow(e - 1)
  }

  /** Sizes the test misreads exist: every 2^32 + 1 is read as 1. */
  lemma MisreadExample()
    ensures Misread(0x1_0000_0001)
  {
    assert 0x1_0000_0001 % WORD == 1;
    assert 0x1_0000_0000 % WORD == 0;
  }
}
