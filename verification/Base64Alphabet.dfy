/** What base64-js makes of characters: the two alphabets of RFC 4648, everything outside them, and
    padded groups. */
module Base64Alphabet {
  import opened Base64
  import opened Bytes
  import opened Utf8
  import opened Words

  // ----- The alphabet of section 5, safe in URLs -----

  /** `-` for `+`, and `_` for `/`. */
  function Standard(s: seq<Unit>): (t: seq<Unit>)
    ensures |t| == |s|
  {
    seq(|s|, i requires 0 <= i < |s| => if s[i] == 45 then 43 else if s[i] == 95 then 47 else s[i])
  }

  lemma SameLookup(u: Unit)
    ensures Lookup(45) == Lookup(43) && Lookup(95) == Lookup(47)
    ensures Lookup(u) == 0 || 65 <= u <= 90 || 97 <= u <= 122 || 48 <= u <= 57 || u in [43, 47, 45, 95]
  {
  }

  lemma {:induction false} SameGroups(s: seq<Unit>)
    ensures DecodeGroups(Standard(s)) == DecodeGroups(s)
  {
    hide Lookup;
    if |s| >= 4 {
      SameLookup(0);
      SameGroups(s[4..]);
      assert Standard(s)[4..] == Standard(s[4..]);
    }
  }

  lemma SameTail(s: seq<Unit>, r: nat, pad: nat)
    requires pad == 1 || pad == 2 ==> r + 4 - pad <= |s|
    ensures DecodeTail(Standard(s), r, pad) == DecodeTail(s, r, pad)
  {
    hide Lookup;
    SameLookup(0);
  }

  lemma {:induction false} SameEquals(s: seq<Unit>)
    ensures IndexOfEquals(Standard(s)) == IndexOfEquals(s)
  {
    if s != [] {
      SameEquals(s[1..]);
      assert Standard(s)[1..] == Standard(s[1..]);
    }
  }

  /** Text in the URL-safe alphabet, or a mixture of both, decodes as the standard text does. */
  lemma UrlSafeDecodes(s: seq<Unit>)
    ensures Decode64(s) == Decode64(Standard(s))
  {
    hide DecodeGroups, DecodeTail, IndexOfEquals, ByteLength, FullGroups, Standard;
    SameEquals(s);
    if |s| % 4 == 0 && Decode64(s).Bytes? {
      var (valid, pad) := GetLens(s);
      var r := 4 * FullGroups(valid, pad);
      Sizes(valid, pad);
      SameGroups(s[..r]);
      StandardPrefix(s, r);
      SameTail(s, r, pad);
    }
  }

  lemma StandardPrefix(s: seq<Unit>, r: nat)
    requires r <= |s|
    ensures Standard(s)[..r] == Standard(s[..r])
  {
  }

  // ----- Lengths and padding -----

  /** Text that is no whole number of groups is refused, and no other text for that reason. */
  lemma WholeGroupsOnly(s: seq<Unit>)
    ensures Decode64(s) == InvalidLength <==> |s| % 4 != 0
  {
    hide DecodeGroups, DecodeTail, IndexOfEquals, ByteLength, FullGroups;
  }

  /** A padded group decodes as the group with `A` in place of its padding, one or two bytes shorter;
      bits that do not make up a byte are dropped. */
  lemma PaddedIsTruncated(s: seq<Unit>, r: nat, pad: nat)
    requires (pad == 1 || pad == 2) && r + 4 - pad <= |s|
    ensures DecodeTail(s, r, pad) == Ungroup(s[r], s[r + 1], if pad == 1 then s[r + 2] else 65, 65)[..3 - pad]
  {
    hide Ungroup, DecodeTail;
    if pad == 2 {
      OneByte(s, r);
    } else {
      TwoBytes(s, r);
    }
  }

  lemma OneByte(s: seq<Unit>, r: nat)
    requires r + 2 <= |s|
    ensures DecodeTail(s, r, 2) == Ungroup(s[r], s[r + 1], 65, 65)[..1]
  {
    assert Lookup(65) == 0;
    hide Lookup;
    var a, b := Lookup(s[r]), Lookup(s[r + 1]);
    Truncated(a, b, 0);
    assert DecodeTail(s, r, 2) == [(a * 4 + b / 16) % 0x100];
    hide DecodeTail;
    assert Ungroup(s[r], s[r + 1], 65, 65)[0] == (a * 262144 + b * 4096) / 0x1_0000;
  }

  lemma TwoBytes(s: seq<Unit>, r: nat)
    requires r + 3 <= |s|
    ensures DecodeTail(s, r, 1) == Ungroup(s[r], s[r + 1], s[r + 2], 65)[..2]
  {
    assert Lookup(65) == 0;
    hide Lookup;
    var a, b, c := Lookup(s[r]), Lookup(s[r + 1]), Lookup(s[r + 2]);
    Truncated(a, b, c);
    var n, m := a * 262144 + b * 4096 + c * 64, a * 1024 + b * 16 + c / 4;
    assert DecodeTail(s, r, 1) == [m / 0x100 % 0x100, m % 0x100];
    hide DecodeTail;
    var u := Ungroup(s[r], s[r + 1], s[r + 2], 65);
    assert u == [n / 0x1_0000, n / 0x100 % 0x100, n % 0x100];
  }

  lemma Truncated(a: int, b: int, c: int)
    requires 0 <= a < 64 && 0 <= b < 64 && 0 <= c < 64
    ensures var n, m := a * 262144 + b * 4096 + c * 64, a * 1024 + b * 16 + c / 4;
            n / 0x1_0000 == a * 4 + b / 16 == m / 0x100 < 0x100 && n / 0x100 == m
  {
    var n, m := a * 262144 + b * 4096 + c * 64, a * 1024 + b * 16 + c / 4;
    Divided(n, 0x1_0000, a * 4 + b / 16, b % 16 * 4096 + c * 64);
    Divided(n, 0x100, m, c % 4 * 64);
    Divided(m, 0x100, a * 4 + b / 16, b % 16 * 16 + c / 4);
  }

  /** Letters, digits, `+` and `/`. */
  predicate IsPlain(us: seq<Unit>) {
    forall u :: u in us ==> 65 <= u <= 90 || 97 <= u <= 122 || 48 <= u <= 57 || u == 43 || u == 47
  }

  /** An encoding is made of groups of the alphabet, and `=` only fills up the last one. */
  lemma EncodingIsPadded(b: seq<Byte>)
    ensures var e, pad := Base64.Encode(b), if |b| % 3 == 0 then 0 else 3 - |b| % 3;
            && |e| == (|b| + pad) / 3 * 4
            && IsPlain(e[..|e| - pad]) && e[|e| - pad..] == [61, 61][..pad]
  {
    hide EncodeGroups, EncodeTail, IsPlain;
    var front, t := EncodeGroups(b), Remainder(b);
    GroupsLength(b);
    GroupsArePlain(b);
    TailIsPadded(t);
    var e := Base64.Encode(b);
    if t == [] {
      assert e == front;
    } else {
      var k := |t| + 1;
      assert e[..|front| + k] == front + EncodeTail(t)[..k];
      PlainConcat(front, EncodeTail(t)[..k]);
      assert e[|front| + k..] == EncodeTail(t)[k..];
    }
  }

  lemma PlainConcat(a: seq<Unit>, b: seq<Unit>)
    requires IsPlain(a) && IsPlain(b)
    ensures IsPlain(a + b)
  {
  }

  lemma DigitIsPlain(d: int)
    requires 0 <= d < 64
    ensures IsPlain([Digit(d)])
  {
  }

  lemma {:induction false} GroupsArePlain(b: seq<Byte>)
    ensures IsPlain(EncodeGroups(b))
  {
    hide Join, Digit;
    if |b| >= 3 {
      GroupsArePlain(b[3..]);
      var n := Join(b[0], b[1], b[2]);
      GroupIsPlain(n);
      hide IsPlain;
      PlainConcat(Group(n), EncodeGroups(b[3..]));
    }
  }

  lemma GroupIsPlain(n: int)
    requires 0 <= n < 0x100_0000
    ensures IsPlain(Group(n))
  {
    hide Digit;
    assert 0 <= n / 262144 < 64;
    DigitIsPlain(n / 262144);
    DigitIsPlain(n / 4096 % 64);
    DigitIsPlain(n / 64 % 64);
    DigitIsPlain(n % 64);
    var g := Group(n);
    assert g == [g[0]] + [g[1]] + [g[2]] + [g[3]];
    PlainConcat([g[0]], [g[1]]);
    PlainConcat([g[0]] + [g[1]], [g[2]]);
    PlainConcat([g[0]] + [g[1]] + [g[2]], [g[3]]);
  }

  lemma TailIsPadded(t: seq<Byte>)
    requires |t| < 3
    ensures var e := EncodeTail(t);
            if t == [] then e == []
            else |e| == 4 && IsPlain(e[..|t| + 1]) && e[|t| + 1..] == [61, 61][..3 - |t|]
  {
  }
}
