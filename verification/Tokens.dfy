/** The arithmetic of the token buckets: what time brings, and the brim. */
module Tokens {

  function Min(a: real, b: real): real {
    if a <= b then a else b
  }

  /** The tokens that `ms` milliseconds bring. */
  function Gain(perWindow: real, windowMs: int, ms: int): real
    requires windowMs > 0
  {
    ms as real / windowMs as real * perWindow
  }

  lemma GainAdds(perWindow: real, windowMs: int, a: int, b: int)
    requires windowMs > 0
    ensures Gain(perWindow, windowMs, a) + Gain(perWindow, windowMs, b) == Gain(perWindow, windowMs, a + b)
  {
    var x, y, z := a as real / windowMs as real, b as real / windowMs as real, (a + b) as real / windowMs as real;
    assert z == x + y;
    assert x * perWindow + y * perWindow == (x + y) * perWindow;
  }

  lemma GainGrows(perWindow: real, windowMs: int, ms: int)
    requires windowMs > 0 && perWindow >= 0.0 && ms >= 0
    ensures Gain(perWindow, windowMs, ms) >= 0.0
  {
    assert ms as real / windowMs as real >= 0.0;
  }
}
