/** However well-formed UTF-8 is cut into chunks, the decoder's strings join to its decoding. */
module StringDecoderChunks {
  import opened Wrappers
  import opened Bytes
  import opened Utf8
  import opened StringDecoderSpec

  ghost predicate AllScalars(ps: seq<Point>) {
    forall p :: p in ps ==> !IsSurrogate(p)
  }

  /** The decoder holds the first bytes of a character, all of them but at least one, or nothing. */
  ghost predicate Holds(d: State, part: seq<Byte>, ps: seq<Point>) {
    Valid(d) &&
    if part == [] then d.lastNeed == 0
    else
      && ps != [] && part < BytesOf(ps[0])
      && d.lastTotal == |BytesOf(ps[0])| && d.lastNeed == d.lastTotal - |part|
      && d.lastChar[..|part|] == part
  }

  // ----- The bytes of one character -----

  lemma FirstByte(p: Point)
    ensures var bs := BytesOf(p);
            CheckByte(bs[0]) == (if |bs| == 1 then 0 else |bs|)
  {
  }

  lemma ContinuationByte(b: Byte)
    ensures IsContinuation(b) ==> CheckByte(b) == -1
  {
  }

  lemma LaterBytes(p: Point, k: nat)
    requires 1 <= k < |BytesOf(p)|
    ensures IsContinuation(BytesOf(p)[k])
  {
    if p >= 0x1_0000 {
      SplitFour(p);
    } else if p >= 0x800 {
      SplitThree(p);
    } else if p >= 0x80 {
      SplitTwo(p);
    }
  }

  // ----- The end of a chunk -----

  ghost predicate EndsWith(buf: seq<Byte>, i: nat, tail: seq<Byte>) {
    i + |tail| <= |buf| && buf[|buf| - |tail|..] == tail
  }

  /** A chunk that ends inside a character. */
  lemma IncompleteEnd(buf: seq<Byte>, i: nat, p: Point, part: seq<Byte>)
    requires part != [] && part < BytesOf(p) && EndsWith(buf, i, part)
    ensures CheckIncomplete(buf, i) == (|BytesOf(p)|, |BytesOf(p)| - |part|)
  {
    hide BytesOf, CheckByte, IsContinuation;
    var j := |buf| - 1;
    FirstByte(p);
    assert part[0] == BytesOf(p)[0];
    assert buf[|buf| - |part|] == part[0];
    if |part| >= 2 {
      LaterBytes(p, 1);
      assert part[1] == BytesOf(p)[1] && buf[|buf| - |part| + 1] == part[1];
      ContinuationByte(part[1]);
    }
    if |part| >= 3 {
      LaterBytes(p, 2);
      assert part[2] == BytesOf(p)[2] && buf[|buf| - |part| + 2] == part[2];
      ContinuationByte(part[2]);
    }
  }

  /** A chunk that ends with a whole character. */
  lemma CompleteEnd(buf: seq<Byte>, i: nat, p: Point)
    requires EndsWith(buf, i, BytesOf(p))
    ensures CheckIncomplete(buf, i).1 == 0
  {
    hide BytesOf, CheckByte, IsContinuation;
    var bs := BytesOf(p);
    FirstByte(p);
    assert buf[|buf| - |bs|] == bs[0];
    if |bs| >= 2 {
      LaterByteAt(buf, p, |bs| - 1);
    }
    if |bs| >= 3 {
      LaterByteAt(buf, p, |bs| - 2);
    }
    if |bs| >= 4 {
      LaterByteAt(buf, p, |bs| - 3);
    }
  }

  lemma LaterByteAt(buf: seq<Byte>, p: Point, k: nat)
    requires EndsWith(buf, 0, BytesOf(p)) && 1 <= k < |BytesOf(p)|
    ensures CheckByte(buf[|buf| - |BytesOf(p)| + k]) == -1
  {
    hide BytesOf, CheckByte, IsContinuation;
    LaterBytes(p, k);
    assert buf[|buf| - |BytesOf(p)| + k] == BytesOf(p)[k];
    ContinuationByte(BytesOf(p)[k]);
  }

  // ----- Sequences of characters -----

  lemma {:induction false} EncodeConcat(ps: seq<Point>, qs: seq<Point>)
    ensures EncodeAll(ps + qs) == EncodeAll(ps) + EncodeAll(qs)
  {
    hide BytesOf;
    if ps == [] {
      assert ps + qs == qs;
    } else {
      EncodeConcat(ps[1..], qs);
      assert (ps + qs)[1..] == ps[1..] + qs && (ps + qs)[0] == ps[0];
      assert BytesOf(ps[0]) + (EncodeAll(ps[1..]) + EncodeAll(qs))
          == BytesOf(ps[0]) + EncodeAll(ps[1..]) + EncodeAll(qs);
    }
  }

  lemma {:induction false} UnitsConcat(ps: seq<Point>, qs: seq<Point>)
    ensures UnitsAll(ps + qs) == UnitsAll(ps) + UnitsAll(qs)
  {
    hide UnitsOf;
    if ps == [] {
      assert ps + qs == qs;
    } else {
      UnitsConcat(ps[1..], qs);
      assert (ps + qs)[1..] == ps[1..] + qs && (ps + qs)[0] == ps[0];
      assert UnitsOf(ps[0]) + (UnitsAll(ps[1..]) + UnitsAll(qs)) == UnitsOf(ps[0]) + UnitsAll(ps[1..]) + UnitsAll(qs);
    }
  }

  /** Where a prefix of an encoding ends: after m whole characters and part of another. */
  lemma {:induction false} Cut(ps: seq<Point>, x: seq<Byte>) returns (m: nat, part: seq<Byte>)
    requires x <= EncodeAll(ps)
    ensures m <= |ps| && x == EncodeAll(ps[..m]) + part
    ensures part != [] ==> m < |ps| && part < BytesOf(ps[m])
  {
    hide BytesOf;
    if ps == [] {
      m, part := 0, [];
      assert ps[..0] == [];
    } else {
      var n := |BytesOf(ps[0])|;
      if |x| < n {
        m, part := 0, x;
        assert ps[..0] == [];
        assert x == EncodeAll(ps)[..|x|] == BytesOf(ps[0])[..|x|];
      } else {
        assert x == EncodeAll(ps)[..|x|];
        assert x[..n] == BytesOf(ps[0]) && x[n..] == EncodeAll(ps[1..])[..|x| - n];
        m, part := Cut(ps[1..], x[n..]);
        m := m + 1;
        assert ps[..m][0] == ps[0] && ps[..m][1..] == ps[1..][..m - 1];
        assert x == x[..n] + x[n..];
      }
    }
  }

  // ----- One chunk -----

  /** A chunk read with nothing held: whole characters are decoded, a rest is held. */
  lemma TextStep(d: State, buf: seq<Byte>, i: nat, ps: seq<Point>, qs: seq<Point>, part: seq<Byte>)
    requires Valid(d) && d.lastNeed == 0 && i <= |buf|
    requires AllScalars(ps) && buf[i..] == EncodeAll(ps) + part
    requires part != [] ==> qs != [] && part < BytesOf(qs[0])
    ensures Text(d, buf, i).1 == UnitsAll(ps) && Holds(Text(d, buf, i).0, part, qs)
  {
    hide BytesOf, Decode, CheckIncomplete, EncodeAll, UnitsAll;
    DecodeEncodeAll(ps);
    if part != [] {
      assert buf[|buf| - |part|..] == part;
      IncompleteEnd(buf, i, qs[0], part);
      assert buf[i..|buf| - |part|] == EncodeAll(ps);
    } else {
      assert buf[i..] == EncodeAll(ps);
      WholeEnd(buf, i, ps);
    }
  }

  lemma WholeEnd(buf: seq<Byte>, i: nat, ps: seq<Point>)
    requires i <= |buf| && buf[i..] == EncodeAll(ps)
    ensures CheckIncomplete(buf, i).1 == 0
  {
    hide BytesOf, CheckByte, IsContinuation, EncodeAll, CheckIncomplete;
    if ps == [] {
      NothingLeft(buf, i);
    } else {
      var front, last := ps[..|ps| - 1], ps[|ps| - 1];
      assert ps == front + [last];
      EncodeConcat(front, [last]);
      OnePoint(last);
      Suffix(buf, i, EncodeAll(front), BytesOf(last));
      CompleteEnd(buf, i, last);
    }
  }

  lemma NothingLeft(buf: seq<Byte>, i: nat)
    requires i <= |buf| && buf[i..] == EncodeAll([])
    ensures CheckIncomplete(buf, i).1 == 0
  {
    hide CheckByte;
  }

  lemma Suffix(buf: seq<Byte>, i: nat, front: seq<Byte>, tail: seq<Byte>)
    requires i <= |buf| && buf[i..] == front + tail
    ensures EndsWith(buf, i, tail)
  {
    assert buf[|buf| - |tail|..] == buf[i..][|front|..];
  }

  lemma OnePoint(p: Point)
    ensures EncodeAll([p]) == BytesOf(p) && UnitsAll([p]) == UnitsOf(p)
  {
    assert [p][1..] == [];
  }

  /** A held character that the chunk completes. */
  lemma FillStep(d: State, buf: seq<Byte>, part: seq<Byte>, ps: seq<Point>)
    requires part != [] && ps != [] && Holds(d, part, ps) && !IsSurrogate(ps[0])
    requires |buf| >= d.lastNeed && buf[..d.lastNeed] == BytesOf(ps[0])[|part|..]
    ensures var (f, r) := FillLast(d, buf);
            r == Some(UnitsOf(ps[0])) && f.lastNeed == d.lastNeed && Valid(f)
  {
    hide BytesOf, Decode, IsContinuation, UnitsOf;
    var bs := BytesOf(ps[0]);
    Continues(d.lastNeed, buf, ps[0], |part|);
    var filled := Put(d.lastChar, |part|, buf[..d.lastNeed]);
    assert filled[..|bs|] == part + bs[|part|..] == bs;
    OnePoint(ps[0]);
    assert forall p :: p in [ps[0]] ==> p == ps[0];
    DecodeEncodeAll([ps[0]]);
  }

  /** Bytes that belong to the held character pass the continuation checks. */
  lemma Continues(lastNeed: int, buf: seq<Byte>, p: Point, k: nat)
    requires 1 <= k < |BytesOf(p)| && lastNeed == |BytesOf(p)| - k && buf != []
    requires var n := if |buf| < lastNeed then |buf| else lastNeed; buf[..n] == BytesOf(p)[k..k + n]
    ensures CheckExtraBytes(lastNeed, buf) == None
  {
    hide BytesOf, IsContinuation;
    var n := if |buf| < lastNeed then |buf| else lastNeed;
    LaterBytes(p, k);
    assert buf[0] == buf[..n][0] == BytesOf(p)[k];
    if n > 1 {
      LaterBytes(p, k + 1);
      assert buf[1] == buf[..n][1] == BytesOf(p)[k + 1];
    }
    if n > 2 {
      LaterBytes(p, k + 2);
      assert buf[2] == buf[..n][2] == BytesOf(p)[k + 2];
    }
  }

  /** A held character that still is not complete after the chunk. */
  lemma HoldStep(d: State, buf: seq<Byte>, part: seq<Byte>, ps: seq<Point>)
    requires part != [] && ps != [] && Holds(d, part, ps) && buf != []
    requires part + buf < BytesOf(ps[0])
    ensures var (f, r) := FillLast(d, buf); r == None && Holds(f, part + buf, ps)
  {
    hide BytesOf, Decode, IsContinuation;
    var bs := BytesOf(ps[0]);
    assert buf[..|buf|] == buf == bs[|part|..|part| + |buf|];
    Continues(d.lastNeed, buf, ps[0], |part|);
    var put := Put(d.lastChar, |part|, buf);
    assert put[..|part + buf|] == part + buf;
  }

  /** What is left of an encoding once x has been read: the rest of the character begun in x
      first. */
  lemma Rest(ps: seq<Point>, part: seq<Byte>, buf: seq<Byte>, more: seq<Byte>)
    requires ps != [] && part < BytesOf(ps[0]) && part + buf + more == EncodeAll(ps)
    ensures var need := |BytesOf(ps[0])| - |part|;
            if |buf| < need then part + buf < BytesOf(ps[0])
            else buf[..need] == BytesOf(ps[0])[|part|..] && buf[need..] + more == EncodeAll(ps[1..])
  {
    hide BytesOf;
    var bs, all := BytesOf(ps[0]), part + buf + more;
    var need := |bs| - |part|;
    assert all[..|bs|] == bs && all[|bs|..] == EncodeAll(ps[1..]);
    if |buf| < need {
      assert part + buf == all[..|part + buf|] == bs[..|part + buf|];
    } else {
      assert buf[..need] == all[|part|..|bs|] == bs[|part|..];
      assert buf[need..] + more == all[|bs|..];
    }
  }

  /** One chunk, with nothing held. */
  lemma FreshStep(d: State, buf: seq<Byte>, i: nat, ps: seq<Point>, more: seq<Byte>)
    returns (m: nat, part: seq<Byte>)
    requires Valid(d) && d.lastNeed == 0 && i <= |buf| && AllScalars(ps)
    requires buf[i..] + more == EncodeAll(ps)
    ensures m <= |ps| && Text(d, buf, i).1 == UnitsAll(ps[..m])
    ensures Holds(Text(d, buf, i).0, part, ps[m..]) && part + more == EncodeAll(ps[m..])
  {
    hide BytesOf, Text, EncodeAll, UnitsAll;
    m, part := Cut(ps, buf[i..]);
    TextStep(d, buf, i, ps[..m], ps[m..], part);
    assert ps == ps[..m] + ps[m..];
    EncodeConcat(ps[..m], ps[m..]);
    var whole := EncodeAll(ps[..m]);
    assert whole + (part + more) == whole + EncodeAll(ps[m..]);
    assert part + more == (whole + (part + more))[|whole|..];
  }

  /** One chunk: what write returns are the characters completed by it, and what is held is the
      beginning of the next. */
  lemma WriteStep(d: State, part: seq<Byte>, buf: seq<Byte>, ps: seq<Point>, more: seq<Byte>)
    returns (m: nat, part': seq<Byte>)
    requires Holds(d, part, ps) && AllScalars(ps) && part + buf + more == EncodeAll(ps)
    ensures m <= |ps| && Write(d, buf).1 == UnitsAll(ps[..m])
    ensures Holds(Write(d, buf).0, part', ps[m..]) && part' + more == EncodeAll(ps[m..])
  {
    hide BytesOf, Text, EncodeAll, UnitsAll, FillLast;
    assert ps[..0] == [] && ps[0..] == ps;
    NoPoints();
    if buf == [] {
      m, part' := 0, part;
      assert part + buf == part;
    } else if part == [] {
      assert buf[0..] + more == part + buf + more;
      m, part' := FreshStep(d, buf, 0, ps, more);
    } else {
      Rest(ps, part, buf, more);
      if |buf| < d.lastNeed {
        HoldStep(d, buf, part, ps);
        m, part' := 0, part + buf;
      } else {
        m, part' := CompleteStep(d, part, buf, ps, more);
      }
    }
  }

  lemma NoPoints()
    ensures EncodeAll([]) == [] && UnitsAll([]) == []
  {
  }

  /** One chunk that completes the held character. */
  lemma CompleteStep(d: State, part: seq<Byte>, buf: seq<Byte>, ps: seq<Point>, more: seq<Byte>)
    returns (m: nat, part': seq<Byte>)
    requires part != [] && buf != [] && ps != [] && Holds(d, part, ps) && AllScalars(ps)
    requires |buf| >= d.lastNeed && buf[..d.lastNeed] == BytesOf(ps[0])[|part|..]
    requires buf[d.lastNeed..] + more == EncodeAll(ps[1..])
    ensures m <= |ps| && Write(d, buf).1 == UnitsAll(ps[..m])
    ensures Holds(Write(d, buf).0, part', ps[m..]) && part' + more == EncodeAll(ps[m..])
  {
    hide BytesOf, Text, EncodeAll, UnitsAll, FillLast, UnitsOf;
    FillStep(d, buf, part, ps);
    OnePoint(ps[0]);
    var cleared := FillLast(d, buf).0.(lastNeed := 0);
    if d.lastNeed < |buf| {
      m, part' := FreshStep(cleared, buf, d.lastNeed, ps[1..], more);
      assert ps[..m + 1] == [ps[0]] + ps[1..][..m] && ps[m + 1..] == ps[1..][m..];
      UnitsConcat([ps[0]], ps[1..][..m]);
      m := m + 1;
    } else {
      m, part' := 1, [];
      assert ps[..1] == [ps[0]] && buf[d.lastNeed..] == [];
      assert [] + more == more;
    }
  }

  // ----- All chunks -----

  lemma {:induction false} ChunksFrom(d: State, part: seq<Byte>, chunks: seq<seq<Byte>>, ps: seq<Point>,
      more: seq<Byte>)
    returns (m: nat, part': seq<Byte>)
    requires Holds(d, part, ps) && AllScalars(ps) && part + Concat(chunks) + more == EncodeAll(ps)
    ensures m <= |ps| && WriteAll(d, chunks).1 == UnitsAll(ps[..m])
    ensures Holds(WriteAll(d, chunks).0, part', ps[m..]) && part' + more == EncodeAll(ps[m..])
    decreases |chunks|
  {
    hide BytesOf, Write, EncodeAll, UnitsAll;
    assert ps[..0] == [] && ps[0..] == ps;
    NoPoints();
    if chunks == [] {
      m, part' := 0, part;
      assert part + [] == part;
    } else {
      var rest := Concat(chunks[1..]);
      assert part + chunks[0] + (rest + more) == part + (chunks[0] + rest) + more;
      WriteKeepsValid(d, chunks[0]);
      m, part' := WriteStep(d, part, chunks[0], ps, rest + more);
      var k;
      assert part' + rest + more == part' + (rest + more);
      k, part' := ChunksFrom(Write(d, chunks[0]).0, part', chunks[1..], ps[m..], more);
      UnitsOfSplit(ps, m, k);
      m := m + k;
    }
  }

  lemma UnitsOfSplit(ps: seq<Point>, m: nat, k: nat)
    requires m + k <= |ps|
    ensures UnitsAll(ps[..m + k]) == UnitsAll(ps[..m]) + UnitsAll(ps[m..][..k]) && ps[m..][k..] == ps[m + k..]
  {
    hide UnitsAll;
    assert ps[..m + k] == ps[..m] + ps[m..][..k];
    UnitsConcat(ps[..m], ps[m..][..k]);
  }

  /** However the beginning of a well-formed text is cut into chunks, what the writes return are
      the characters that are complete, and end adds a replacement exactly if one was cut off. */
  lemma AnyCutOfAPrefix(d: State, chunks: seq<seq<Byte>>, ps: seq<Point>, more: seq<Byte>)
    returns (m: nat, part: seq<Byte>)
    requires IsNew(d) && AllScalars(ps) && Concat(chunks) + more == EncodeAll(ps)
    ensures m <= |ps| && Concat(chunks) == EncodeAll(ps[..m]) + part
    ensures part != [] ==> m < |ps| && part < BytesOf(ps[m])
    ensures var (final, text) := WriteAll(d, chunks);
            text == UnitsAll(ps[..m]) && End(final) == if part == [] then [] else [REPLACEMENT]
  {
    hide BytesOf, Write, EncodeAll, UnitsAll, WriteAll, Concat;
    assert [] + Concat(chunks) == Concat(chunks);
    m, part := ChunksFrom(d, [], chunks, ps, more);
    assert ps == ps[..m] + ps[m..];
    EncodeConcat(ps[..m], ps[m..]);
    var whole := EncodeAll(ps[..m]) + part;
    assert Concat(chunks) + more == whole + more;
    assert Concat(chunks) == (whole + more)[..|whole|] == whole;
  }

  /** For well-formed UTF-8 cut anywhere, the strings from the writes and from end join to the
      decoding of all of it. */
  lemma AnyCut(d: State, chunks: seq<seq<Byte>>, ps: seq<Point>)
    requires IsNew(d) && AllScalars(ps) && Concat(chunks) == EncodeAll(ps)
    ensures var (final, text) := WriteAll(d, chunks);
            text + End(final) == UnitsAll(ps) && UnitsAll(ps) == Decode(Concat(chunks))
  {
    hide BytesOf, Write, EncodeAll, UnitsAll, Decode, WriteAll, Concat;
    assert Concat(chunks) + [] == Concat(chunks);
    var m, part := AnyCutOfAPrefix(d, chunks, ps, []);
    EncodeConcat(ps[..m], ps[m..]);
    assert ps == ps[..m] + ps[m..];
    var whole := EncodeAll(ps[..m]);
    assert part == (whole + part)[|whole|..] == (whole + EncodeAll(ps[m..]))[|whole|..] == EncodeAll(ps[m..]);
    HeldIsNotAll(part, ps[m..]);
    assert ps[..m] == ps;
    DecodeEncodeAll(ps);
  }

  lemma HeldIsNotAll(part: seq<Byte>, ps: seq<Point>)
    requires part == EncodeAll(ps) && (part != [] ==> ps != [] && part < BytesOf(ps[0]))
    ensures part == [] && ps == []
  {
    hide BytesOf;
  }

  // ----- The end of a chunk -----

  /** A first byte of a character of `total` bytes is the last but k - 1 of buf[i..], with continuation
      bytes behind it. */
  predicate IsBegun(buf: seq<Byte>, i: nat, k: nat, total: nat) {
    && 1 <= k && i + k <= |buf| && (forall j :: |buf| - k < j < |buf| ==> 0x80 <= buf[j] <= 0xBF)
    && var first := buf[|buf| - k];
       || (total == 2 && 0xC0 <= first <= 0xDF)
       || (total == 3 && 0xE0 <= first <= 0xEF)
       || (total == 4 && 0xF0 <= first <= 0xF7)
  }

  /** What is found at the end of a chunk: a character begun in its last three bytes and not over, with
      its length and the bytes it needs; else nothing. */
  lemma BegunIsFound(buf: seq<Byte>, i: nat, k: nat, total: nat)
    requires 1 <= k <= 3 && k <= total
    ensures IsBegun(buf, i, k, total) ==> CheckIncomplete(buf, i) == (total, total - k)
    ensures CheckIncomplete(buf, i).0 > 0 ==>
              var (t, need) := CheckIncomplete(buf, i);
              1 <= t - need <= 3 && IsBegun(buf, i, t - need, t)
    ensures CheckIncomplete(buf, i).0 >= 0 && (CheckIncomplete(buf, i).0 == 0 ==> CheckIncomplete(buf, i).1 == 0)
  {
  }
}
