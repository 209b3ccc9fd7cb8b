/** base64-js: `fromByteArray` and `toByteArray`, as functions. Section 4 of RFC 4648. */
module Base64 {
  import opened Bytes
  import opened Sequences
  import opened Utf8
  import opened Words

  const EQUALS: Unit := 61

  /** The character for six bits. */
  function Digit(d: int): Unit
    requires 0 <= d < 64
  {
    if d < 26 then 65 + d
    else if d < 52 then 71 + d
    else if d < 62 then d - 4
    else if d == 62 then 43
    else 47
  }

  /** Its place in the alphabet, or -1. */
  function DigitIndex(u: Unit): (d: int)
    ensures -1 <= d < 64
  {
    if 65 <= u <= 90 then u - 65
    else if 97 <= u <= 122 then u - 71
    else if 48 <= u <= 57 then u + 4
    else if u == 43 then 62
    else if u == 47 then 63
    else -1
  }

  /** The decoder's table, where the URL-safe characters stand too; nothing there counts as 0. */
  function Lookup(u: Unit): (d: int)
    ensures 0 <= d < 64
  {
    if u == 45 then 62
    else if u == 95 then 63
    else if DigitIndex(u) >= 0 then DigitIndex(u)
    else 0
  }

  lemma DigitRoundTrip(d: int)
    requires 0 <= d < 64
    ensures DigitIndex(Digit(d)) == d && Lookup(Digit(d)) == d && Digit(d) != EQUALS
    ensures Digit(d) != 10 && Digit(d) != 13
  {
  }

  // ----- Three bytes, four characters -----

  function Join(x: Byte, y: Byte, z: Byte): (n: int)
    ensures 0 <= n < 0x100_0000
  {
    x * 0x1_0000 + y * 0x100 + z
  }

  function Group(n: int): (g: seq<Unit>)
    requires 0 <= n < 0x100_0000
    ensures |g| == 4
  {
    [Digit(n / 262144), Digit(n / 4096 % 64), Digit(n / 64 % 64), Digit(n % 64)]
  }

  function Ungroup(a: Unit, b: Unit, c: Unit, d: Unit): (bs: seq<Byte>)
    ensures |bs| == 3
  {
    var n: int := Lookup(a) * 262144 + Lookup(b) * 4096 + Lookup(c) * 64 + Lookup(d);
    [n / 0x1_0000, n / 0x100 % 0x100, n % 0x100]
  }

  lemma Sextets(n: int)
    requires 0 <= n < 0x100_0000
    ensures 0 <= n / 262144 < 64
    ensures n / 262144 * 262144 + n / 4096 % 64 * 4096 + n / 64 % 64 * 64 + n % 64 == n
  {
    var p, q := n / 64, n / 4096;
    assert q == p / 64 && n / 262144 == q / 64;
  }

  lemma Octets(x: Byte, y: Byte, z: Byte)
    ensures var n := Join(x, y, z); n / 0x1_0000 == x && n / 0x100 % 0x100 == y && n % 0x100 == z
  {
    var m := x * 0x100 + y;
    assert Join(x, y, z) / 0x100 == m;
    assert Join(x, y, z) / 0x1_0000 == m / 0x100;
  }

  lemma GroupRoundTrip(x: Byte, y: Byte, z: Byte)
    ensures var g := Group(Join(x, y, z)); Ungroup(g[0], g[1], g[2], g[3]) == [x, y, z]
  {
    hide Digit, Lookup, Join;
    var n := Join(x, y, z);
    Sextets(n);
    Octets(x, y, z);
    DigitRoundTrip(n / 262144);
    DigitRoundTrip(n / 4096 % 64);
    DigitRoundTrip(n / 64 % 64);
    DigitRoundTrip(n % 64);
  }

  // ----- Encoding -----

  /** The encoding of the whole groups of three bytes. */
  function EncodeGroups(b: seq<Byte>): seq<Unit> {
    if |b| < 3 then [] else Group(Join(b[0], b[1], b[2])) + EncodeGroups(b[3..])
  }

  function EncodeTail(t: seq<Byte>): seq<Unit>
    requires |t| < 3
  {
    if |t| == 0 then []
    else if |t| == 1 then
      var n := Join(0, 0, t[0]);
      [Digit(n / 4), Digit(n * 16 % 64), EQUALS, EQUALS]
    else
      var n := Join(0, t[0], t[1]);
      [Digit(n / 1024), Digit(n / 16 % 64), Digit(n * 4 % 64), EQUALS]
  }

  /** The bytes that make no whole group. */
  function Remainder(b: seq<Byte>): (t: seq<Byte>)
    ensures |t| == |b| % 3
  {
    b[|b| - |b| % 3..]
  }

  /** The unchunked encoder: whole groups, then a padded tail. */
  function Encode(b: seq<Byte>): seq<Unit> {
    EncodeGroups(b) + EncodeTail(Remainder(b))
  }

  lemma {:induction false} EncodeGroupsConcat(a: seq<Byte>, b: seq<Byte>)
    requires |a| % 3 == 0
    ensures EncodeGroups(a + b) == EncodeGroups(a) + EncodeGroups(b)
  {
    hide Group, Join;
    if a == [] {
      assert a + b == b;
    } else {
      EncodeGroupsConcat(a[3..], b);
      assert (a + b)[3..] == a[3..] + b;
      var g := Group(Join(a[0], a[1], a[2]));
      Regroup(g, EncodeGroups(a[3..]), EncodeGroups(b));
    }
  }

  // ----- Decoding -----

  /** The bytes of the whole groups of four characters. */
  function DecodeGroups(s: seq<Unit>): (b: seq<Byte>)
    ensures |b| == |s| / 4 * 3
  {
    if |s| < 4 then [] else Ungroup(s[0], s[1], s[2], s[3]) + DecodeGroups(s[4..])
  }

  function IndexOfEquals(s: seq<Unit>): (k: nat)
    ensures k <= |s| && (k < |s| ==> s[k] == EQUALS) && forall j :: 0 <= j < k ==> s[j] != EQUALS
  {
    if s == [] || s[0] == EQUALS then 0 else 1 + IndexOfEquals(s[1..])
  }

  /** Where the padding starts, and how many characters of it make up a group. */
  function GetLens(s: seq<Unit>): (r: (nat, nat))
    ensures r.0 <= |s| && r.1 <= 4 && (|s| % 4 == 0 ==> (r.0 + r.1) % 4 == 0 && r.0 + r.1 <= |s|)
  {
    var valid := IndexOfEquals(s);
    (valid, if valid == |s| then 0 else 4 - valid % 4)
  }

  function ByteLength(valid: nat, pad: nat): int {
    3 * (valid + pad) / 4 - pad
  }

  /** How many groups the main loop reads. */
  function FullGroups(valid: nat, pad: nat): nat {
    var end := if pad > 0 then valid - 4 else valid;
    if end <= 0 then 0 else (end + 3) / 4
  }

  function DecodeTail(s: seq<Unit>, r: nat, pad: nat): (t: seq<Byte>)
    requires pad == 1 || pad == 2 ==> r + 4 - pad <= |s|
    ensures |t| == if pad == 2 then 1 else if pad == 1 then 2 else 0
  {
    if pad == 2 then [(Lookup(s[r]) * 4 + Lookup(s[r + 1]) / 16) % 0x100]
    else if pad == 1 then
      var n: int := Lookup(s[r]) * 1024 + Lookup(s[r + 1]) * 16 + Lookup(s[r + 2]) / 4;
      [n / 0x100 % 0x100, n % 0x100]
    else []
  }

  datatype Decoded = Bytes(b: seq<Byte>) | InvalidLength | InvalidSize

  /** Four padding characters leave two bytes unwritten, unless nothing stands before them. */
  function Decode64(s: seq<Unit>): Decoded {
    var (valid, pad) := GetLens(s);
    if |s| % 4 > 0 then InvalidLength
    else if ByteLength(valid, pad) < 0 then InvalidSize
    else
      Sizes(valid, pad);
      var r := 4 * FullGroups(valid, pad);
      Bytes(DecodeGroups(s[..r]) + DecodeTail(s, r, pad) + ZeroBytes(if pad == 4 then 2 else 0))
  }

  /** The main loop reads exactly the full groups before a padded one. */
  lemma Sizes(valid: nat, pad: nat)
    requires pad <= 4 && (valid + pad) % 4 == 0 && ByteLength(valid, pad) >= 0
    ensures var k := FullGroups(valid, pad);
            && (pad == 0 ==> 4 * k == valid) && (1 <= pad <= 3 ==> 4 * k + 4 - pad == valid)
                && (pad == 4 ==> 4 * k + 4 == valid)
            && ByteLength(valid, pad) == 3 * k + (if pad == 0 then 0 else if pad == 4 then 2 else 3 - pad)
  {
    var m := (valid + pad) / 4;
    assert valid == 4 * m - pad;
    Divided(3 * (valid + pad), 4, 3 * m, 0);
    if pad == 0 {
      Divided(valid + 3, 4, m, 3);
    } else {
      Divided(valid - 1, 4, if pad == 4 then m - 2 else m - 1, if pad == 4 then 3 else 3 - pad);
    }
  }

  // ----- Round trip -----

  lemma {:induction false} GroupsLength(b: seq<Byte>)
    ensures |EncodeGroups(b)| == |b| / 3 * 4
  {
    hide Group, Join;
    if |b| >= 3 {
      GroupsLength(b[3..]);
    }
  }

  lemma {:induction false} DecodeEncodeGroups(b: seq<Byte>)
    ensures DecodeGroups(EncodeGroups(b)) == b[..|b| - |b| % 3]
    ensures EQUALS !in EncodeGroups(b) && |EncodeGroups(b)| % 4 == 0
  {
    hide Group, Ungroup, Join;
    GroupsLength(b);
    if |b| >= 3 {
      DecodeEncodeGroups(b[3..]);
      GroupRoundTrip(b[0], b[1], b[2]);
      GroupHasNoEquals(Join(b[0], b[1], b[2]));
      assert EncodeGroups(b)[4..] == EncodeGroups(b[3..]);
      assert b[..|b| - |b| % 3] == [b[0], b[1], b[2]] + b[3..][..|b[3..]| - |b[3..]| % 3];
    }
  }

  lemma GroupHasNoEquals(n: int)
    requires 0 <= n < 0x100_0000
    ensures EQUALS !in Group(n)
  {
  }

  lemma TailOfOne(n: int)
    requires 0 <= n < 0x100
    ensures 0 <= n / 4 < 64 && (n / 4 * 4 + n * 16 % 64 / 16) % 0x100 == n
  {
    Divided(n * 16, 64, n / 4, 16 * (n % 4));
  }

  lemma TailOfTwo(n: int)
    requires 0 <= n < 0x1_0000
    ensures 0 <= n / 1024 < 64 && n / 1024 * 1024 + n / 16 % 64 * 16 + n * 4 % 64 / 4 == n
  {
    var m, l := n / 16, n % 16;
    assert n == 16 * m + l && n / 1024 == m / 64;
    assert n * 4 % 64 == 4 * l;
  }

  lemma JoinTail(x: Byte, y: Byte)
    ensures Join(0, x, y) == x * 0x100 + y && Join(0, 0, y) == y
  {
  }

  /** A padded tail: its digits, its padding, and the bytes it stands for. */
  predicate TailReads(t: seq<Byte>, front: seq<Unit>)
    requires 0 < |t| < 3
  {
    var e := EncodeTail(t);
    && |e| == 4 && e[|t| + 1] == EQUALS && (forall j :: 0 <= j <= |t| ==> e[j] != EQUALS)
    && DecodeTail(front + e, |front|, 3 - |t|) == t
  }

  lemma TailRoundTrip(t: seq<Byte>, front: seq<Unit>)
    requires 0 < |t| < 3
    ensures TailReads(t, front)
  {
    if |t| == 1 {
      OneByteTail(t, front);
    } else {
      TwoByteTail(t, front);
    }
  }

  lemma OneByteTail(t: seq<Byte>, front: seq<Unit>)
    requires |t| == 1
    ensures TailReads(t, front)
  {
    hide Digit, Lookup, Join;
    var n := Join(0, 0, t[0]);
    JoinTail(0, t[0]);
    TailOfOne(n);
    DigitRoundTrip(n / 4);
    DigitRoundTrip(n * 16 % 64);
    var e := EncodeTail(t);
    assert (front + e)[|front|] == e[0] && (front + e)[|front| + 1] == e[1];
  }

  lemma TwoByteTail(t: seq<Byte>, front: seq<Unit>)
    requires |t| == 2
    ensures TailReads(t, front)
  {
    hide Digit, Lookup, Join;
    var n := Join(0, t[0], t[1]);
    JoinTail(t[0], t[1]);
    TailOfTwo(n);
    DigitRoundTrip(n / 1024);
    DigitRoundTrip(n / 16 % 64);
    DigitRoundTrip(n * 4 % 64);
    var e := EncodeTail(t);
    assert (front + e)[|front|] == e[0] && (front + e)[|front| + 1] == e[1] && (front + e)[|front| + 2] == e[2];
    Octets(0, t[0], t[1]);
  }

  lemma PaddingStarts(front: seq<Unit>, t: seq<Byte>)
    requires EQUALS !in front && |front| % 4 == 0 && |t| < 3
    ensures var s := front + EncodeTail(t);
            && |s| == |front| + (if t == [] then 0 else 4)
            && GetLens(s) == if t == [] then (|front|, 0) else (|front| + |t| + 1, 3 - |t|)
  {
    hide EncodeTail, DecodeTail;
    var s := front + EncodeTail(t);
    if t == [] {
      assert EncodeTail(t) == [] by { NoTail(); }
      assert s == front;
    } else {
      TailRoundTrip(t, front);
    }
    forall j | 0 <= j < |front|
      ensures s[j] != EQUALS
    {
      assert front[j] in front;
    }
    IndexIs(s, if t == [] then |front| else |front| + |t| + 1);
  }

  lemma NoTail()
    ensures EncodeTail([]) == []
  {
  }

  lemma IndexIs(s: seq<Unit>, k: nat)
    requires k <= |s| && (k < |s| ==> s[k] == EQUALS) && forall j :: 0 <= j < k ==> s[j] != EQUALS
    ensures IndexOfEquals(s) == k
  {
  }

  /** Decoding an encoding gives the bytes back. */
  lemma RoundTrip(b: seq<Byte>)
    ensures Decode64(Encode(b)) == Bytes(b)
  {
    hide EncodeGroups, EncodeTail, DecodeGroups, DecodeTail, GetLens, Remainder, ByteLength, FullGroups, ZeroBytes,
        TailReads;
    var front, t := EncodeGroups(b), Remainder(b);
    DecodeEncodeGroups(b);
    PaddingStarts(front, t);
    assert Encode(b)[..|front|] == front;
    LengthsOf(|front|, if t == [] then 0 else 3 - |t|);
    ReadsTail(t, front);
    Rejoin(b);
  }

  lemma LengthsOf(front: nat, pad: nat)
    requires front % 4 == 0 && pad < 3
    ensures var valid := if pad == 0 then front else front + 4 - pad;
            ByteLength(valid, pad) >= 0 && 4 * FullGroups(valid, pad) == front
  {
    Sizes(if pad == 0 then front else front + 4 - pad, pad);
  }

  lemma ReadsTail(t: seq<Byte>, front: seq<Unit>)
    requires |t| < 3
    ensures t != [] ==> |EncodeTail(t)| == 4
    ensures var pad := if t == [] then 0 else 3 - |t|;
            DecodeTail(front + EncodeTail(t), |front|, pad) == t
  {
    if t != [] {
      TailRoundTrip(t, front);
    }
  }

  lemma Rejoin(b: seq<Byte>)
    ensures b[..|b| - |b| % 3] + Remainder(b) + ZeroBytes(0) == b && b[..|b| - |b| % 3] + Remainder(b) == b
  {
  }

  /** Every string of whole groups, by where its first `=` stands. At the start: an error. At a
      positive multiple of four: the group before it comes out as two bytes that are never written.
      Elsewhere, or nowhere: the groups before it, and the bytes of the padded one. */
  lemma PaddingGroup(s: seq<Unit>)
    requires |s| % 4 == 0
    ensures var k := IndexOfEquals(s);
            && (Decode64(s) == InvalidSize <==> k == 0 && s != [])
            && (0 < k < |s| && k % 4 == 0 ==> Decode64(s) == Bytes(DecodeGroups(s[..k - 4]) + [0, 0]))
            && ((k < |s| ==> k % 4 != 0) ==>
                  Decode64(s) == Bytes(DecodeGroups(s[..k - k % 4]) + DecodeTail(s, k - k % 4, GetLens(s).1)))
  {
    hide DecodeGroups, IndexOfEquals, DecodeTail, ByteLength, FullGroups, Decode64, GetLens;
    LensAre(s);
    SizeIsValid(IndexOfEquals(s), GetLens(s).1, |s|);
    Decoded64(s);
  }

  lemma LensAre(s: seq<Unit>)
    ensures var k := IndexOfEquals(s); GetLens(s) == (k, if k == |s| then 0 else 4 - k % 4)
  {
    hide IndexOfEquals;
  }

  lemma NoDecodedTail(s: seq<Unit>, r: nat)
    ensures DecodeTail(s, r, 4) == []
  {
  }

  lemma WithNothing(a: seq<Byte>, b: seq<Byte>)
    ensures a + [] + ZeroBytes(2) == a + [0, 0] && a + b + ZeroBytes(0) == a + b
  {
    assert ZeroBytes(2) == [0, 0];
  }

  /** The three outcomes, with the places of the main loop spelled out. */
  lemma Decoded64(s: seq<Unit>)
    requires |s| % 4 == 0
    ensures var (k, pad) := GetLens(s);
            && (ByteLength(k, pad) < 0 <==> Decode64(s) == InvalidSize)
            && (ByteLength(k, pad) >= 0 && pad == 4 ==>
                  4 <= k && Decode64(s) == Bytes(DecodeGroups(s[..k - 4]) + [0, 0]))
            && (ByteLength(k, pad) >= 0 && pad < 4 ==>
                  && (pad == 1 || pad == 2 ==> k - k % 4 + 4 - pad <= |s|)
                  && Decode64(s) == Bytes(DecodeGroups(s[..k - k % 4]) + DecodeTail(s, k - k % 4, pad)))
  {
    hide DecodeGroups, IndexOfEquals, DecodeTail, ByteLength, FullGroups, GetLens, ZeroBytes;
    var (k, pad) := GetLens(s);
    LensAre(s);
    SizeIsValid(k, pad, |s|);
    if ByteLength(k, pad) >= 0 {
      Sizes(k, pad);
      if pad == 4 {
        NoDecodedTail(s, k - 4);
        WithNothing(DecodeGroups(s[..k - 4]), []);
      } else {
        WithNothing(DecodeGroups(s[..k - k % 4]), DecodeTail(s, k - k % 4, pad));
      }
    }
  }

  lemma SizeIsValid(valid: nat, pad: nat, length: nat)
    requires valid <= length && length % 4 == 0 && pad == (if valid == length then 0 else 4 - valid % 4)
    ensures ByteLength(valid, pad) < 0 <==> valid == 0 && length > 0
    ensures pad == 4 <==> valid < length && valid % 4 == 0
  {
  }
}
