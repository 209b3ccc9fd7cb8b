/** UTF-8 as sections 3 and 4 of RFC 3629 have it, and that the decoder accepts exactly that. */
module Utf8Grammar {
  import opened Bytes
  import opened Wrappers
  import opened Utf8

  // ----- Section 4: what is well-formed -----

  predicate IsTail(b: Byte) {
    0x80 <= b <= 0xBF
  }

  predicate StartsWithTwo(b: seq<Byte>) {
    |b| >= 2 && 0xC2 <= b[0] <= 0xDF && IsTail(b[1])
  }

  predicate StartsWithThree(b: seq<Byte>) {
    && |b| >= 3 && IsTail(b[1]) && IsTail(b[2])
    && (|| (b[0] == 0xE0 && b[1] >= 0xA0)
        || 0xE1 <= b[0] <= 0xEC
        || (b[0] == 0xED && b[1] <= 0x9F)
        || 0xEE <= b[0] <= 0xEF)
  }

  predicate StartsWithFour(b: seq<Byte>) {
    && |b| >= 4 && IsTail(b[1]) && IsTail(b[2]) && IsTail(b[3])
    && ((b[0] == 0xF0 && b[1] >= 0x90) || 0xF1 <= b[0] <= 0xF3 || (b[0] == 0xF4 && b[1] <= 0x8F))
  }

  /** The bytes begin with a well-formed character. */
  predicate StartsWellFormed(b: seq<Byte>) {
    (b != [] && b[0] <= 0x7F) || StartsWithTwo(b) || StartsWithThree(b) || StartsWithFour(b)
  }

  // ----- Section 3: what the bytes of a code point are -----

  /** The six bits of one more byte. */
  function Six(high: int, b: int): int {
    high * 64 + (b - 0x80)
  }

  /** p is in the payload bits of the bytes: 7, 5 + 6, 4 + 6 + 6 or 3 + 6 + 6 + 6 of them. */
  predicate Carry(bs: seq<Byte>, p: int) {
    || (|bs| == 1 && p == bs[0] <= 0x7F)
    || (|bs| == 2 && 0xC0 <= bs[0] <= 0xDF && IsTail(bs[1])
        && p == Six(bs[0] as int - 0xC0, bs[1]))
    || (|bs| == 3 && 0xE0 <= bs[0] <= 0xEF && IsTail(bs[1]) && IsTail(bs[2])
        && p == Six(Six(bs[0] as int - 0xE0, bs[1]), bs[2]))
    || (|bs| == 4 && 0xF0 <= bs[0] <= 0xF7 && IsTail(bs[1]) && IsTail(bs[2]) && IsTail(bs[3])
        && p == Six(Six(Six(bs[0] as int - 0xF0, bs[1]), bs[2]), bs[3]))
  }

  /** The number of bytes by the table of section 3. */
  function Length(p: Point): nat {
    if p <= 0x7F then 1 else if p <= 0x7FF then 2 else if p <= 0xFFFF then 3 else 4
  }

  /** A code point is encoded in the fewest bytes that carry it, and in no other way. */
  lemma EncodedByTheTable(p: Point, bs: seq<Byte>)
    ensures bs == BytesOf(p) <==> |bs| == Length(p) && Carry(bs, p)
  {
    CarriesItself(p);
    if |bs| == Length(p) && Carry(bs, p) {
      CarriesOne(bs, BytesOf(p), p);
    }
  }

  lemma CarriesItself(p: Point)
    ensures |BytesOf(p)| == Length(p) && Carry(BytesOf(p), p)
  {
    var q, r := p / 64, p / 4096;
    assert r == q / 64 && p / 262144 == r / 64;
  }

  lemma CarriesOne(a: seq<Byte>, b: seq<Byte>, p: int)
    requires |a| == |b| && Carry(a, p) && Carry(b, p)
    ensures a == b
  {
    hide Six;
    if |a| == 2 {
      SameSix(a[0] as int - 0xC0, a[1], b[0] as int - 0xC0, b[1]);
    } else if |a| == 3 {
      SameSix(Six(a[0] as int - 0xE0, a[1]), a[2], Six(b[0] as int - 0xE0, b[1]), b[2]);
      SameSix(a[0] as int - 0xE0, a[1], b[0] as int - 0xE0, b[1]);
    } else if |a| == 4 {
      var x, y := Six(a[0] as int - 0xF0, a[1]), Six(b[0] as int - 0xF0, b[1]);
      SameSix(Six(x, a[2]), a[3], Six(y, b[2]), b[3]);
      SameSix(x, a[2], y, b[2]);
      SameSix(a[0] as int - 0xF0, a[1], b[0] as int - 0xF0, b[1]);
    }
  }

  lemma SameSix(h: int, b: Byte, h': int, b': Byte)
    requires IsTail(b) && IsTail(b') && Six(h, b) == Six(h', b')
    ensures h == h' && b == b'
  {
  }

  // ----- The decoder -----

  /** It finds a code point exactly where a well-formed character begins. */
  lemma AcceptsTheGrammar(b: seq<Byte>)
    requires b != []
    ensures PointAt(b).Some? <==> StartsWellFormed(b)
  {
  }

  /** It finds p exactly where the encoding of p stands, and p is no surrogate. */
  lemma FindsWhatIsEncoded(b: seq<Byte>, p: Point)
    requires b != []
    ensures PointAt(b) == Some(p) <==> !IsSurrogate(p) && BytesOf(p) <= b
  {
    if !IsSurrogate(p) && BytesOf(p) <= b {
      assert b == BytesOf(p) + b[|BytesOf(p)|..];
      PointAtBytesOf(p, b[|BytesOf(p)|..]);
    }
    if PointAt(b) == Some(p) {
      PointAtCarries(b);
      EncodedByTheTable(p, b[..Wanted(b[0])]);
      PointsAreScalars(b);
    }
  }

  lemma PointAtCarries(b: seq<Byte>)
    requires b != [] && PointAt(b).Some?
    ensures 1 <= Wanted(b[0]) <= |b|
    ensures var p := PointAt(b).value; Length(p) == Wanted(b[0]) && Carry(b[..Wanted(b[0])], p)
  {
  }

  /** Any bytes at all: a well-formed character is decoded, and an ill-formed byte replaced by U+FFFD
      before decoding goes on behind it. */
  lemma DecodesByTheGrammar(b: seq<Byte>, p: Point)
    requires b != []
    ensures !StartsWellFormed(b) ==> Decode(b) == [0xFFFD] + Decode(b[1..])
    ensures StartsWellFormed(b) ==> exists q: Point :: BytesOf(q) <= b && !IsSurrogate(q)
    ensures BytesOf(p) <= b && !IsSurrogate(p) ==> Decode(b) == UnitsOf(p) + Decode(b[|BytesOf(p)|..])
  {
    hide PointAt, BytesOf, UnitsOf, IsSurrogate;
    AcceptsTheGrammar(b);
    CarriesItself(p);
    FindsWhatIsEncoded(b, p);
    if StartsWellFormed(b) {
      FindsWhatIsEncoded(b, PointAt(b).value);
      PointAtCarries(b);
    }
  }
}
