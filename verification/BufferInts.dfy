/** Integers of one to six bytes in a Buffer: `writeIntLE`, `writeIntBE`, `readIntLE`, `readIntBE`. */
module BufferInts {
  import opened Bytes
  import opened Sequences
  import opened Words
  import opened Wrappers

  function Pow256(n: nat): (p: nat)
    ensures p > 0
  {
    if n == 0 then 1 else Pow256(n - 1) * 256
  }

  /** The values of n bytes in two's complement. */
  predicate InRange(v: int, n: nat)
    requires n > 0
  {
    -128 * Pow256(n - 1) <= v < 128 * Pow256(n - 1)
  }

  /** The n low bytes of v in two's complement, the lowest first. */
  function Digits(v: int, n: nat): (ds: seq<Byte>)
    ensures |ds| == n
  {
    if n == 0 then [] else Digits(v, n - 1) + [v / Pow256(n - 1) % 256]
  }

  function Unsigned(bs: seq<Byte>): int {
    if bs == [] then 0 else Unsigned(bs[..|bs| - 1]) + Pow256(|bs| - 1) * bs[|bs| - 1]
  }

  /** The integer that bytes stand for, the lowest first. */
  function Signed(bs: seq<Byte>): int
    requires bs != []
  {
    var u := Unsigned(bs);
    if u >= 128 * Pow256(|bs| - 1) then u - Pow256(|bs|) else u
  }

  function Reverse(bs: seq<Byte>): (r: seq<Byte>)
    ensures |r| == |bs|
  {
    if bs == [] then [] else [bs[|bs| - 1]] + Reverse(bs[..|bs| - 1])
  }

  lemma ReverseSnoc(bs: seq<Byte>, x: Byte)
    ensures Reverse(bs + [x]) == [x] + Reverse(bs)
  {
    assert (bs + [x])[..|bs|] == bs;
  }

  lemma ReverseNothing()
    ensures Reverse([]) == []
  {
  }

  lemma {:induction false} ReverseCons(x: Byte, bs: seq<Byte>)
    ensures Reverse([x] + bs) == Reverse(bs) + [x]
  {
    hide Reverse;
    ReverseNothing();
    if bs == [] {
      ReverseSnoc([], x);
      assert [] + [x] == [x] == [x] + bs;
    } else {
      var front, last := bs[..|bs| - 1], bs[|bs| - 1];
      ReverseCons(x, front);
      ReverseSnoc(front, last);
      ReverseSnoc([x] + front, last);
      assert bs == front + [last] && [x] + bs == [x] + front + [last];
      Regroup([last], Reverse(front), [x]);
    }
  }

  lemma {:induction false} ReverseTwice(bs: seq<Byte>)
    ensures Reverse(Reverse(bs)) == bs
  {
    hide Reverse;
    ReverseNothing();
    if bs != [] {
      var front, last := bs[..|bs| - 1], bs[|bs| - 1];
      assert bs == front + [last];
      ReverseTwice(front);
      ReverseSnoc(front, last);
      ReverseCons(last, Reverse(front));
    }
  }

  // ----- Digits -----

  /** One more digit. */
  lemma DigitStep(v: int, p: int)
    requires p > 0
    ensures p * 256 > 0 && v % (p * 256) == v % p + v / p % 256 * p
  {
    ShiftMask(v, p, 256);
    ModFactor(v, p, 256);
    var r := v % (p * 256);
    assert r == p * (r / p) + r % p;
  }

  lemma {:induction false} UnsignedDigits(v: int, n: nat)
    ensures Unsigned(Digits(v, n)) == v % Pow256(n)
  {
    hide Pow256, Unsigned, Digits;
    Powers();
    if n > 0 {
      UnsignedDigits(v, n - 1);
      var p := Pow256(n - 1);
      DigitStep(v, p);
      NextDigit(v, n - 1);
      UnsignedSnoc(Digits(v, n - 1), v / p % 256);
      Swap(v / p % 256, p);
    } else {
      NoDigits(v);
    }
  }

  lemma Swap(a: int, b: int)
    ensures a * b == b * a
  {
  }

  lemma NoDigits(v: int)
    ensures Unsigned(Digits(v, 0)) == 0
  {
  }

  /** The digits of a value stand for it, for every value of the range. */
  lemma RoundTrip(v: int, n: nat)
    requires n > 0 && InRange(v, n)
    ensures Signed(Digits(v, n)) == v
  {
    UnsignedDigits(v, n);
    var p := Pow256(n);
    assert p == 256 * Pow256(n - 1);
    if v < 0 {
      Divided(v, p, -1, v + p);
    } else {
      Divided(v, p, 0, v);
    }
  }

  lemma {:induction false} UnsignedBounds(bs: seq<Byte>)
    ensures 0 <= Unsigned(bs) < Pow256(|bs|)
  {
    if bs != [] {
      UnsignedBounds(bs[..|bs| - 1]);
      var p, b := Pow256(|bs| - 1), bs[|bs| - 1];
      NotLess(p, b, 255);
      assert b * p == p * b;
    }
  }

  /** Digits are determined by the number they make modulo a power. */
  lemma {:induction false} DigitsOf(v: int, bs: seq<Byte>)
    requires v % Pow256(|bs|) == Unsigned(bs)
    ensures Digits(v, |bs|) == bs
  {
    if bs != [] {
      var front, b, p := bs[..|bs| - 1], bs[|bs| - 1], Pow256(|bs| - 1);
      UnsignedBounds(front);
      var u := Unsigned(front);
      ShiftMask(v, p, 256);
      ModFactor(v, p, 256);
      assert b * p == p * b;
      Divided(v % (p * 256), p, b, u);
      DigitsOf(v, front);
      assert bs == front + [b];
    }
  }

  /** Writing what was read gives the bytes back. */
  lemma ReadThenWrite(bs: seq<Byte>)
    requires bs != []
    ensures InRange(Signed(bs), |bs|) && Digits(Signed(bs), |bs|) == bs
  {
    var n := |bs|;
    var u, p := Unsigned(bs), Pow256(n);
    UnsignedBounds(bs);
    if Signed(bs) == u {
      Divided(u, p, 0, u);
    } else {
      Divided(u - p, p, -1, u);
    }
    DigitsOf(Signed(bs), bs);
  }

  // ----- Truncating division with a borrow -----

  /** Division as in JavaScript, followed by dropping the fraction. */
  function Trunc(v: int, o: int): int
    requires o > 0
  {
    if v >= 0 then v / o else -(-v / o)
  }

  /** Dropping the fraction of a negative number rounds up; a borrow rounds it down. */
  lemma TruncIsFloor(v: int, o: int)
    requires o > 0
    ensures Trunc(v, o) - (if v < 0 && v % o != 0 then 1 else 0) == v / o
  {
    if v < 0 {
      var q, r := -v / o, -v % o;
      assert -v == o * q + r;
      assert o * -q == -(o * q) && o * (-q - 1) == -(o * q) - o;
      if r == 0 {
        Divided(v, o, -q, 0);
      } else {
        Divided(v, o, -q - 1, o - r);
      }
    }
  }

  /** `(v / o >> 0) - sub & 255` */
  function ByteOf(v: int, o: int, sub: int): Byte
    requires o > 0
  {
    (ToInt32(Trunc(v, o)) - sub) % 256
  }

  lemma ByteIsDigit(v: int, o: int, sub: int)
    requires o > 0 && sub == if v < 0 && v % o != 0 then 1 else 0
    ensures ByteOf(v, o, sub) == v / o % 256
  {
    TruncIsFloor(v, o);
    var x := Trunc(v, o);
    var k := (x + 0x8000_0000) / 0x1_0000_0000;
    assert ToInt32(x) == x - k * 0x1_0000_0000;
    var q, r := (x - sub) / 256, (x - sub) % 256;
    Divided(ToInt32(x) - sub, 256, q - k * 0x100_0000, r);
  }

  /** The borrow is needed from the first byte that is not zero. */
  lemma Sticky(v: int, p: int)
    requires p > 0
    ensures p * 256 > 0 && (v % (p * 256) == 0 <==> v % p == 0 && v / p % 256 == 0)
  {
    DigitStep(v, p);
    var d := v / p % 256;
    if d > 0 {
      NotLess(p, 1, d);
      assert d * p == p * d;
    }
  }

  // ----- Writing -----

  /** Half the number of values of one to six bytes. */
  const BOUNDS: seq<int> := [0x80, 0x8000, 0x80_0000, 0x8000_0000, 0x80_0000_0000, 0x8000_0000_0000]

  lemma RangeIsBounded(v: int, n: nat)
    requires 1 <= n <= 6
    ensures InRange(v, n) <==> -BOUNDS[n - 1] <= v < BOUNDS[n - 1]
  {
    assert Pow256(2) == 0x1_0000 && Pow256(4) == 0x1_0000 * Pow256(2);
  }

  lemma Powers()
    ensures Pow256(0) == 1 && forall i: nat :: Pow256(i + 1) == Pow256(i) * 256
  {
  }

  lemma OneDigit(v: int)
    ensures Digits(v, 1) == [v % 256] && Reverse(Digits(v, 1)) == [v % 256]
  {
    assert Digits(v, 0) == [];
    assert v / Pow256(0) == v;
  }

  lemma NextDigit(v: int, i: nat)
    ensures Digits(v, i + 1) == Digits(v, i) + [v / Pow256(i) % 256]
    ensures Reverse(Digits(v, i + 1)) == [v / Pow256(i) % 256] + Reverse(Digits(v, i))
  {
    assert Digits(v, i + 1)[..i] == Digits(v, i);
  }

  /** The borrow while digit i is written. */
  function Borrow(v: int, i: nat): int {
    if v < 0 && v % Pow256(i) != 0 then 1 else 0
  }

  lemma NextBorrow(v: int, i: nat)
    requires i > 0
    ensures Borrow(v, i) == if v < 0 && Borrow(v, i - 1) == 0 && v / Pow256(i - 1) % 256 != 0 then 1
        else Borrow(v, i - 1)
  {
    Sticky(v, Pow256(i - 1));
  }

  lemma PutOne(into: seq<Byte>, at: nat, d: Byte)
    requires at < |into|
    ensures into[at := d] == Put(into, at, [d])
  {
  }

  lemma PutMore(into: seq<Byte>, at: nat, ds: seq<Byte>, d: Byte)
    requires at + |ds| < |into|
    ensures |Put(into, at, ds)| == |into| && Put(into, at, ds)[at + |ds| := d] == Put(into, at, ds + [d])
  {
  }

  lemma PutBefore(into: seq<Byte>, at: nat, ds: seq<Byte>, d: Byte)
    requires 0 < at && at + |ds| <= |into|
    ensures |Put(into, at, ds)| == |into| && Put(into, at, ds)[at - 1 := d] == Put(into, at - 1, [d] + ds)
  {
  }

  /** The place behind the bytes written, or None if the value or the place is refused. */
  method WriteIntLE(buf: array<Byte>, v: int, offset: nat, n: nat) returns (end: Option<nat>)
    requires 1 <= n <= 6
    modifies buf
    ensures end == if -BOUNDS[n - 1] <= v < BOUNDS[n - 1] && offset + n <= buf.Length then Some(offset + n) else None
    ensures buf[..] == if end.Some? then Put(old(buf[..]), offset, Digits(v, n)) else old(buf[..])
  {
    hide Digits, Pow256, Borrow, ByteOf, Put, InRange;
    RangeIsBounded(v, n);
    if !InRange(v, n) || offset + n > buf.Length {
      return None;
    }
    Powers();
    ghost var was := buf[..];
    var i, mul, sub := 0, 1, 0;
    buf[offset] := v % 256;
    OneDigit(v);
    PutOne(was, offset, v % 256);
    NoBorrow(v);
    i := i + 1;
    while i < n
      invariant 1 <= i <= n && mul == Pow256(i - 1) && sub == Borrow(v, i - 1)
      invariant buf[..] == Put(was, offset, Digits(v, i))
    {
      mul := mul * 256;
      NextBorrow(v, i);
      LastDigit(was, offset, v, i);
      if v < 0 && sub == 0 && buf[offset + i - 1] != 0 {
        sub := 1;
      }
      BorrowedByte(v, i);
      NextDigit(v, i);
      PutMore(was, offset, Digits(v, i), v / Pow256(i) % 256);
      buf[offset + i] := ByteOf(v, mul, sub);
      i := i + 1;
    }
    end := Some(offset + n);
  }

  lemma NoBorrow(v: int)
    ensures Borrow(v, 0) == 0
  {
  }

  lemma LastDigit(was: seq<Byte>, at: nat, v: int, i: nat)
    requires 0 < i && at + i <= |was|
    ensures |Put(was, at, Digits(v, i))| == |was| && Put(was, at, Digits(v, i))[at + i - 1] == v / Pow256(i - 1) % 256
  {
    hide Pow256, Digits, Put;
    NextDigit(v, i - 1);
    PutAt(was, at, Digits(v, i), i - 1);
  }

  lemma PutAt(into: seq<Byte>, at: nat, bytes: seq<Byte>, k: nat)
    requires at + |bytes| <= |into| && k < |bytes|
    ensures |Put(into, at, bytes)| == |into| && Put(into, at, bytes)[at + k] == bytes[k]
  {
  }

  lemma BorrowedByte(v: int, i: nat)
    ensures ByteOf(v, Pow256(i), Borrow(v, i)) == v / Pow256(i) % 256
  {
    hide Pow256, ByteOf;
    ByteIsDigit(v, Pow256(i), Borrow(v, i));
  }

  /** The same with the highest byte first. */
  method WriteIntBE(buf: array<Byte>, v: int, offset: nat, n: nat) returns (end: Option<nat>)
    requires 1 <= n <= 6
    modifies buf
    ensures end == if -BOUNDS[n - 1] <= v < BOUNDS[n - 1] && offset + n <= buf.Length then Some(offset + n) else None
    ensures buf[..] == if end.Some? then Put(old(buf[..]), offset, Reverse(Digits(v, n))) else old(buf[..])
  {
    hide Digits, Pow256, Borrow, ByteOf, Reverse, Put, InRange;
    RangeIsBounded(v, n);
    if !InRange(v, n) || offset + n > buf.Length {
      return None;
    }
    Powers();
    ghost var was := buf[..];
    var i, mul, sub := n - 1, 1, 0;
    buf[offset + i] := v % 256;
    OneDigit(v);
    PutOne(was, offset + i, v % 256);
    NoBorrow(v);
    i := i - 1;
    while i >= 0
      invariant -1 <= i < n - 1 && mul == Pow256(n - 2 - i) && sub == Borrow(v, n - 2 - i)
      invariant buf[..] == Put(was, offset + i + 1, Reverse(Digits(v, n - 1 - i)))
    {
      ghost var k := n - 1 - i;
      mul := mul * 256;
      NextBorrow(v, k);
      FirstDigit(was, offset + i + 1, v, k);
      if v < 0 && sub == 0 && buf[offset + i + 1] != 0 {
        sub := 1;
      }
      BorrowedByte(v, k);
      NextDigit(v, k);
      PutBefore(was, offset + i + 1, Reverse(Digits(v, k)), v / Pow256(k) % 256);
      buf[offset + i] := ByteOf(v, mul, sub);
      i := i - 1;
    }
    end := Some(offset + n);
  }

  lemma FirstDigit(was: seq<Byte>, at: nat, v: int, k: nat)
    requires 0 < k && at + k <= |was|
    ensures |Put(was, at, Reverse(Digits(v, k)))| == |was| && Put(was, at, Reverse(Digits(v, k)))[at]
        == v / Pow256(k - 1) % 256
  {
    hide Pow256, Digits, Reverse, Put;
    NextDigit(v, k - 1);
    PutAt(was, at, Reverse(Digits(v, k)), 0);
  }

  // ----- Reading -----

  lemma UnsignedSnoc(bs: seq<Byte>, b: Byte)
    ensures Unsigned(bs + [b]) == Unsigned(bs) + Pow256(|bs|) * b
  {
    assert (bs + [b])[..|bs|] == bs;
  }

  lemma OneByte(b: Byte)
    ensures Unsigned([b]) == b && Reverse([b]) == [b]
  {
    UnsignedSnoc([], b);
    assert [] + [b] == [b] && [b][..0] == [];
  }

  /** The integer in n bytes, or None if they are not all there. */
  method ReadIntLE(buf: array<Byte>, offset: nat, n: nat) returns (v: Option<int>)
    requires 1 <= n <= 6
    ensures v == if offset + n > buf.Length then None else Some(Signed(buf[offset..offset + n]))
  {
    hide Unsigned, Pow256;
    if offset + n > buf.Length {
      return None;
    }
    Powers();
    var mul, i := 1, 1;
    var u: int := buf[offset] as int;
    OneByte(buf[offset]);
    assert buf[offset..offset + 1] == [buf[offset]];
    while i < n
      invariant 1 <= i <= n && mul == Pow256(i - 1) && u == Unsigned(buf[offset..offset + i])
    {
      mul := mul * 256;
      UnsignedSnoc(buf[offset..offset + i], buf[offset + i]);
      assert buf[offset..offset + i + 1] == buf[offset..offset + i] + [buf[offset + i]];
      u := u + mul * buf[offset + i] as int;
      i := i + 1;
    }
    mul := mul * 128;
    if u >= mul {
      u := u - Pow256(n);
    }
    v := Some(u);
  }

  method ReadIntBE(buf: array<Byte>, offset: nat, n: nat) returns (v: Option<int>)
    requires 1 <= n <= 6
    ensures v == if offset + n > buf.Length then None else Some(Signed(Reverse(buf[offset..offset + n])))
  {
    hide Unsigned, Pow256, Reverse;
    if offset + n > buf.Length {
      return None;
    }
    Powers();
    var i := n - 1;
    var mul := 1;
    var u: int := buf[offset + i] as int;
    OneByte(buf[offset + i]);
    assert buf[offset + i..offset + n] == [buf[offset + i]];
    while i > 0
      invariant 0 <= i < n && mul == Pow256(n - 1 - i) && u == Unsigned(Reverse(buf[offset + i..offset + n]))
    {
      mul := mul * 256;
      i := i - 1;
      ghost var rest := buf[offset + i + 1..offset + n];
      ReverseCons(buf[offset + i], rest);
      UnsignedSnoc(Reverse(rest), buf[offset + i]);
      assert buf[offset + i..offset + n] == [buf[offset + i]] + rest;
      u := u + mul * buf[offset + i] as int;
    }
    mul := mul * 128;
    if u >= mul {
      u := u - Pow256(n);
    }
    v := Some(u);
  }

  // ----- Through a buffer -----

  /** What stands in a buffer after a write reads back as the value, in both byte orders. */
  lemma FieldRoundTrip(was: seq<Byte>, v: int, offset: nat, n: nat)
    requires n > 0 && offset + n <= |was| && InRange(v, n)
    ensures Signed(Put(was, offset, Digits(v, n))[offset..offset + n]) == v
    ensures Signed(Reverse(Put(was, offset, Reverse(Digits(v, n)))[offset..offset + n])) == v
  {
    hide Digits, Signed, Reverse, InRange;
    RoundTrip(v, n);
    ReverseTwice(Digits(v, n));
    PutField(was, offset, Digits(v, n));
    PutField(was, offset, Reverse(Digits(v, n)));
  }

  lemma PutField(was: seq<Byte>, offset: nat, bytes: seq<Byte>)
    requires offset + |bytes| <= |was|
    ensures Put(was, offset, bytes)[offset..offset + |bytes|] == bytes
  {
  }

  /** Reading what was just written: the value, or None if it was refused. */
  method WriteThenReadLE(buf: array<Byte>, v: int, offset: nat, n: nat) returns (r: Option<int>)
    requires 1 <= n <= 6
    modifies buf
    ensures r == if -BOUNDS[n - 1] <= v < BOUNDS[n - 1] && offset + n <= buf.Length then Some(v) else None
  {
    hide Digits, Signed, InRange;
    RangeIsBounded(v, n);
    ghost var was := buf[..];
    var end := WriteIntLE(buf, v, offset, n);
    if end == None {
      return None;
    }
    FieldRoundTrip(was, v, offset, n);
    assert buf[offset..offset + n] == buf[..][offset..offset + n];
    r := ReadIntLE(buf, offset, n);
  }

  method WriteThenReadBE(buf: array<Byte>, v: int, offset: nat, n: nat) returns (r: Option<int>)
    requires 1 <= n <= 6
    modifies buf
    ensures r == if -BOUNDS[n - 1] <= v < BOUNDS[n - 1] && offset + n <= buf.Length then Some(v) else None
  {
    hide Digits, Signed, Reverse, InRange;
    RangeIsBounded(v, n);
    ghost var was := buf[..];
    var end := WriteIntBE(buf, v, offset, n);
    if end == None {
      return None;
    }
    FieldRoundTrip(was, v, offset, n);
    assert buf[offset..offset + n] == buf[..][offset..offset + n];
    r := ReadIntBE(buf, offset, n);
  }
}
