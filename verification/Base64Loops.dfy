/** The loops of base64-js. */
module Base64Loops {
  import opened Bytes
  import opened Utf8
  import opened Base64

  /** A multiple of three, so that chunks end between groups. */
  const MAX_CHUNK_LENGTH: nat := 16383

  lemma OneGroup(b: seq<Byte>)
    requires |b| == 3
    ensures EncodeGroups(b) == Group(Join(b[0], b[1], b[2]))
  {
    hide Group, Join;
    assert b[3..] == [];
  }

  lemma NoGroup(b: seq<Byte>)
    requires |b| < 3
    ensures EncodeGroups(b) == []
  {
  }

  lemma MoreGroups(b: seq<Byte>, start: nat, mid: nat, end: nat)
    requires start <= mid <= end <= |b| && (mid - start) % 3 == 0
    ensures EncodeGroups(b[start..end]) == EncodeGroups(b[start..mid]) + EncodeGroups(b[mid..end])
  {
    hide EncodeGroups;
    assert b[start..end] == b[start..mid] + b[mid..end];
    EncodeGroupsConcat(b[start..mid], b[mid..end]);
  }

  method EncodeChunk(b: seq<Byte>, start: nat, end: nat) returns (out: seq<Unit>)
    requires start <= end <= |b| && (end - start) % 3 == 0
    ensures out == EncodeGroups(b[start..end])
  {
    hide EncodeGroups, Group, Join;
    out := [];
    var s := start;
    assert b[start..start] == [];
    NoGroup([]);
    while s < end
      invariant start <= s <= end && (s - start) % 3 == 0 && out == EncodeGroups(b[start..s])
    {
      MoreGroups(b, start, s, s + 3);
      OneGroup(b[s..s + 3]);
      out := out + Group(Join(b[s], b[s + 1], b[s + 2]));
      s := s + 3;
    }
  }

  /** The whole groups, in chunks. */
  method EncodeWhole(b: seq<Byte>, whole: nat) returns (out: seq<Unit>)
    requires whole <= |b| && whole % 3 == 0
    ensures out == EncodeGroups(b[0..whole])
  {
    hide EncodeGroups, Join;
    out := [];
    var s := 0;
    assert b[0..0] == [];
    NoGroup([]);
    while s < whole
      invariant s % 3 == 0 && out == EncodeGroups(b[0..if s < whole then s else whole])
      decreases whole - s
    {
      var end := if s + MAX_CHUNK_LENGTH > whole then whole else s + MAX_CHUNK_LENGTH;
      MoreGroups(b, 0, s, end);
      var chunk := EncodeChunk(b, s, end);
      out := out + chunk;
      s := s + MAX_CHUNK_LENGTH;
    }
  }

  /** Encoding in chunks is encoding. */
  method FromByteArray(b: seq<Byte>) returns (out: seq<Unit>)
    ensures out == Base64.Encode(b)
  {
    hide EncodeGroups, Join, Digit;
    var extra := |b| % 3;
    out := EncodeWhole(b, |b| - extra);
    WholeGroups(b);
    if extra == 1 {
      JoinTail(0, b[|b| - 1]);
      var n := Join(0, 0, b[|b| - 1]);
      out := out + [Digit(n / 4), Digit(n * 16 % 64), EQUALS, EQUALS];
    } else if extra == 2 {
      JoinTail(b[|b| - 2], b[|b| - 1]);
      var n := Join(0, b[|b| - 2], b[|b| - 1]);
      out := out + [Digit(n / 1024), Digit(n / 16 % 64), Digit(n * 4 % 64), EQUALS];
    }
  }

  lemma WholeGroups(b: seq<Byte>)
    ensures EncodeGroups(b) == EncodeGroups(b[0..|b| - |b| % 3])
  {
    hide EncodeGroups;
    var whole := |b| - |b| % 3;
    MoreGroups(b, 0, whole, |b|);
    NoGroup(b[whole..|b|]);
    assert b[0..|b|] == b;
  }

  lemma {:induction false} DecodeNextGroup(s: seq<Unit>, r: nat)
    requires r + 4 <= |s| && r % 4 == 0
    ensures DecodeGroups(s[..r + 4]) == DecodeGroups(s[..r]) + Ungroup(s[r], s[r + 1], s[r + 2], s[r + 3])
  {
    hide Ungroup;
    if r == 0 {
      assert s[..4][4..] == [];
    } else {
      DecodeNextGroup(s[4..], r - 4);
      assert s[..r + 4][4..] == s[4..][..r] && s[..r][4..] == s[4..][..r - 4];
    }
  }

  /** The full groups, written to the start of u. */
  method ReadGroups(s: seq<Unit>, end: int, k: nat, u: array<Byte>)
    requires 4 * k <= |s| && 3 * k <= u.Length && end <= 4 * k && (k > 0 ==> 4 * (k - 1) < end)
    modifies u
    ensures u[..3 * k] == DecodeGroups(s[..4 * k]) && u[3 * k..] == old(u[3 * k..])
  {
    hide DecodeGroups, Ungroup;
    var r, c := 0, 0;
    NoneDecoded(s);
    while r < end
      invariant r % 4 == 0 && r <= 4 * k && 4 * c == 3 * r
      invariant u[..c] == DecodeGroups(s[..r]) && u[3 * k..] == old(u[3 * k..])
    {
      DecodeNextGroup(s, r);
      ghost var done := u[..c];
      var bs := Ungroup(s[r], s[r + 1], s[r + 2], s[r + 3]);
      u[c], u[c + 1], u[c + 2] := bs[0], bs[1], bs[2];
      assert u[..c + 3] == done + bs;
      r, c := r + 4, c + 3;
    }
  }

  lemma NoneDecoded(s: seq<Unit>)
    ensures DecodeGroups(s[..0]) == []
  {
  }

  /** The bytes of a padded group, written behind the full groups. */
  method ReadTail(tail: seq<Byte>, c: nat, pad: nat, u: array<Byte>)
    requires pad <= 4 && |tail| == (if pad == 2 then 1 else if pad == 1 then 2 else 0) && c + |tail| <= u.Length
    modifies u
    ensures u[..] == old(u[..c]) + tail + old(u[c + |tail|..])
  {
    if pad == 2 {
      u[c] := tail[0];
    }
    if pad == 1 {
      u[c] := tail[0];
      u[c + 1] := tail[1];
    }
  }

  /** The bytes of a string, or the error that is thrown. */
  method ToByteArray(s: seq<Unit>) returns (d: Decoded)
    ensures d == Decode64(s)
  {
    hide DecodeGroups, DecodeTail, GetLens;
    var (valid, pad) := GetLens(s);
    if |s| % 4 > 0 {
      return InvalidLength;
    }
    if ByteLength(valid, pad) < 0 {
      return InvalidSize;
    }
    Sizes(valid, pad);
    var k := FullGroups(valid, pad);
    var size := ByteLength(valid, pad);
    hide ByteLength, FullGroups;
    var u := new Byte[size](_ => 0);
    ReadGroups(s, if pad > 0 then valid - 4 else valid, k, u);
    var tail := DecodeTail(s, 4 * k, pad);
    ghost var zeros := u[3 * k + |tail|..];
    assert zeros == ZeroBytes(if pad == 4 then 2 else 0) by {
      assert forall j :: 0 <= j < |zeros| ==> zeros[j] == u[3 * k..][|tail| + j] == 0;
    }
    ReadTail(tail, 3 * k, pad, u);
    d := Bytes(u[..]);
  }
}
