/** Facts about products and remainders that the solver does not find by itself. */
module Arithmetic {
  import opened Words

  lemma {:induction false} MulLess(p: nat, a: nat, b: nat)
    requires a < b
    ensures p * a + p <= p * b
    decreases b
  {
    assert p * b == p * (b - 1) + p;
    if a < b - 1 {
      MulLess(p, a, b - 1);
    }
  }

  lemma Rearrange(p: nat, a: nat, d: nat)
    ensures p * (32 * a + d) == 32 * p * a + p * d
  {
    assert p * (32 * a) == 32 * p * a;
  }

  lemma SplitModulusAt(h: nat, p: nat, q: nat, a: nat, d: nat, r: nat)
    requires p > 0 && h == p * q + r && r < p && q == 32 * a + d && d < 32
    ensures h % (32 * p) == r + p * d
  {
    Rearrange(p, a, d);
    MulLess(p, d, 32);
    Divided(h, 32 * p, a, r + p * d);
  }

  /** A remainder modulo 32 p is a remainder modulo p and one more base-32 digit. */
  lemma SplitModulus(h: nat, p: nat)
    requires p > 0
    ensures h % (32 * p) == h % p + p * (h / p % 32)
  {
    SplitModulusAt(h, p, h / p, h / p / 32, h / p % 32, h % p);
  }

  lemma Cancel(p: nat, c: nat, d: nat)
    requires p > 0 && p * c == p * d
    ensures c == d
  {
    if c < d { MulLess(p, c, d); } else if d < c { MulLess(p, d, c); }
  }

  /** A number has one decomposition into a digit and a remainder. */
  lemma SameDigits(p: nat, r: nat, c: nat, s: nat, d: nat)
    requires r < p && s < p && r + p * c == s + p * d
    ensures r == s && c == d
  {
    if c < d {
      MulLess(p, c, d);
    } else if d < c {
      MulLess(p, d, c);
    }
  }
}
