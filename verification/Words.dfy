/** Signed 32-bit words as integers: what shifts and masks see of them. */
module Words {

  function ToInt32(n: int): int {
    (n + 0x8000_0000) % 0x1_0000_0000 - 0x8000_0000
  }

  /** Division is determined by its equation. */
  lemma Divided(x: int, m: int, a: int, r: int)
    requires x == m * a + r && 0 <= r < m
    ensures x / m == a && x % m == r
  {
    var q := x / m;
    assert x == m * q + x % m;
    assert m * (q - a) == m * q - m * a && m * (a - q) == m * a - m * q;
    if q < a {
      NoSmaller(m, a - q);
    } else if q > a {
      NoSmaller(m, q - a);
    }
  }

  lemma NoSmaller(m: int, k: int)
    requires m > 0 && k >= 1
    ensures m * k >= m
  {
  }

  lemma Product(p: int, w: int)
    requires p > 0 && w > 0
    ensures p * w > 0
  {
  }

  /** A shift and a mask are a mask and a shift. */
  lemma ShiftMask(x: int, p: int, w: int)
    requires p > 0 && w > 0
    ensures p * w > 0 && x / p % w == x % (p * w) / p
  {
    Product(p, w);
    var q, r := x / (p * w), x % (p * w);
    assert x == p * w * q + r;
    var c, s := r / p, r % p;
    assert r == p * c + s;
    assert p * w * q == p * (w * q) && p * (w * q) + p * c == p * (w * q + c);
    Divided(x, p, w * q + c, s);
    if c >= w {
      NotLess(p, w, c);
    }
    Divided(w * q + c, w, q, c);
  }

  lemma NotLess(p: int, a: int, b: int)
    requires p > 0 && a <= b
    ensures p * a <= p * b
  {
  }

  /** Words that agree modulo a multiple agree modulo its factor. */
  lemma ModFactor(x: int, m: int, k: int)
    requires m > 0 && k > 0
    ensures m * k > 0 && x % (m * k) % m == x % m
  {
    Product(m, k);
    var q, r := x / (m * k), x % (m * k);
    var c, s := r / m, r % m;
    assert x == m * k * q + r && r == m * c + s;
    assert m * k * q == m * (k * q) && m * (k * q) + m * c == m * (k * q + c);
    Divided(x, m, k * q + c, s);
  }

  /** Words with the same low bits give the same digits there. */
  lemma SameDigit(x: int, y: int, p: int, w: int, k: int)
    requires p > 0 && w > 0 && k > 0 && p * w * k > 0 && x % (p * w * k) == y % (p * w * k)
    ensures x / p % w == y / p % w
  {
    ShiftMask(x, p, w);
    ShiftMask(y, p, w);
    ModFactor(x, p * w, k);
    ModFactor(y, p * w, k);
  }

  /** Shifting a digit in keeps the bits below the ones shifted out. */
  lemma PushDigit(acc: int, base: int, d: int, m: int, c: int)
    requires 0 <= d < base && m > 0 && c > 0 && base * m > 0 && base * m * c == 0x1_0000_0000
    ensures (ToInt32(acc * base) + d) % (base * m) == acc % m * base + d
  {
    var z := acc * base;
    var k := (z + 0x8000_0000) / 0x1_0000_0000;
    assert ToInt32(z) == z - k * 0x1_0000_0000;
    var q, r := acc / m, acc % m;
    assert acc == m * q + r;
    Distribute(base, m, q, r);
    Wrapped(base * m, c, k);
    Below(base, m, r, d);
    Divided(ToInt32(z) + d, base * m, q - c * k, r * base + d);
  }

  lemma Distribute(base: int, m: int, q: int, r: int)
    ensures (m * q + r) * base == base * m * q + r * base
  {
  }

  lemma Wrapped(n: int, c: int, k: int)
    requires n * c == 0x1_0000_0000
    ensures k * 0x1_0000_0000 == n * (c * k)
    ensures forall q :: n * (q - c * k) == n * q - n * (c * k)
  {
    assert n * c * k == n * (c * k);
  }

  lemma Below(base: int, m: int, r: int, d: int)
    requires 0 <= d < base && 0 <= r < m
    ensures 0 <= r * base + d < base * m
  {
    NotLess(base, r + 1, m);
    assert base * (r + 1) == r * base + base;
  }

  /** The same for a digit shifted up. */
  lemma ScaledDigit(x: int, y: int, f: int, g: int, k: int)
    requires f > 0 && g > 0 && k > 0 && g * k > 0 && x % (g * k) == y % (g * k)
    ensures f * g > 0 && x * f % (f * g) == y * f % (f * g)
  {
    ModFactor(x, g, k);
    ModFactor(y, g, k);
    Product(f, g);
    Scale(x, f, g);
    Scale(y, f, g);
  }

  lemma Scale(x: int, f: int, g: int)
    requires f > 0 && g > 0
    ensures f * g > 0 && x * f % (f * g) == x % g * f
  {
    Product(f, g);
    var q, r := x / g, x % g;
    assert x == g * q + r;
    Distribute(f, g, q, r);
    Below(f, g, r, 0);
    Divided(x * f, f * g, q, r * f);
  }
}
