/** The decoder on any bytes, well-formed or not: exactly when it matters where they are cut. */
module StringDecoderAnyBytes {
  import opened Bytes
  import opened Sequences
  import opened Wrappers
  import opened Utf8
  import opened StringDecoderSpec

  /** The beginning of a character, and bytes that continue it, but not all. */
  predicate IsPartial(s: seq<Byte>) {
    s != [] && |s| < CheckByte(s[0]) && forall k :: 1 <= k < |s| ==> IsContinuation(s[k])
  }

  predicate Continues(y: seq<Byte>) {
    y == [] || IsContinuation(y[0])
  }

  function Replacements(k: nat): (r: seq<Unit>)
    ensures |r| == k
  {
    if k == 0 then [] else [REPLACEMENT] + Replacements(k - 1)
  }

  lemma {:induction false} ReplacementsConcat(j: nat, k: nat)
    ensures Replacements(j + k) == Replacements(j) + Replacements(k)
  {
    if j > 0 {
      ReplacementsConcat(j - 1, k);
      Regroup([REPLACEMENT], Replacements(j - 1), Replacements(k));
    } else {
      assert [] + Replacements(k) == Replacements(k);
    }
  }

  // ----- Where decoding can be split -----

  lemma PointIsLocal(s: seq<Byte>, y: seq<Byte>)
    requires s != [] && Wanted(s[0]) <= |s|
    ensures PointAt(s + y) == PointAt(s)
  {
    hide Join2, Join3, Join4, IsContinuation, IsSurrogate;
  }

  lemma FirstOutOfRange(a: int, b: int, c: int, d: int)
    requires 0xF8 <= a <= 0xFF
    ensures Join4(a, b, c, d) >= 0x11_0000
  {
  }

  lemma WantedIsChecked(b: Byte)
    ensures Wanted(b) > 1 && b < 0xF8 ==> CheckByte(b) == Wanted(b)
    ensures CheckByte(b) > 0 ==> CheckByte(b) == Wanted(b)
    ensures CheckByte(b) > 0 ==> !IsContinuation(b)
    ensures IsContinuation(b) ==> Wanted(b) == 1 && b >= 128 && CheckByte(b) == -1
    ensures CheckByte(b) < 0 && CheckByte(b) != -2 ==> IsContinuation(b)
  {
  }

  /** No character straddles the end of s, unless s is the beginning of one and y continues it. */
  lemma PointStops(s: seq<Byte>, y: seq<Byte>)
    requires s != [] && |s| < Wanted(s[0]) && (!IsPartial(s) || !Continues(y))
    ensures PointAt(s + y) == None && PointAt(s) == None
  {
    hide Join2, Join3, Join4, IsContinuation, IsSurrogate, CheckByte;
    var b, n := s + y, Wanted(s[0]);
    WantedIsChecked(s[0]);
    if |b| >= n {
      if s[0] >= 0xF8 {
        FirstOutOfRange(b[0], b[1], b[2], b[3]);
      } else if IsPartial(s) {
        assert b[|s|] == y[0];
      } else {
        var k :| 1 <= k < |s| && !IsContinuation(s[k]);
        assert b[k] == s[k];
      }
    }
  }

  ghost predicate CanSplit(x: seq<Byte>, y: seq<Byte>) {
    forall j :: 0 <= j < |x| ==> !IsPartial(x[j..]) || !Continues(y)
  }

  lemma CanSplitLater(x: seq<Byte>, y: seq<Byte>, n: nat)
    requires CanSplit(x, y) && n <= |x|
    ensures CanSplit(x[n..], y)
  {
    forall j | 0 <= j < |x[n..]|
      ensures !IsPartial(x[n..][j..]) || !Continues(y)
    {
      assert x[n..][j..] == x[n + j..];
    }
  }

  lemma {:induction false} DecodeSplit(x: seq<Byte>, y: seq<Byte>)
    requires CanSplit(x, y)
    ensures Decode(x + y) == Decode(x) + Decode(y)
  {
    hide PointAt, Wanted, UnitsOf, IsPartial, Continues, CanSplit;
    if x == [] {
      assert x + y == y;
    } else {
      PointsAreScalars(x);
      var n := if PointAt(x).Some? then Wanted(x[0]) else 1;
      SamePoint(x, y);
      CanSplitLater(x, y, n);
      DecodeSplit(x[n..], y);
      assert (x + y)[n..] == x[n..] + y;
      var head := if PointAt(x).Some? then UnitsOf(PointAt(x).value) else [REPLACEMENT];
      Regroup(head, Decode(x[n..]), Decode(y));
    }
  }

  lemma SamePoint(x: seq<Byte>, y: seq<Byte>)
    requires x != [] && CanSplit(x, y)
    ensures PointAt(x + y) == PointAt(x)
  {
    hide PointAt, Wanted, IsPartial, Continues;
    assert x[0..] == x;
    if Wanted(x[0]) <= |x| {
      PointIsLocal(x, y);
    } else {
      PointStops(x, y);
    }
  }

  // ----- Characters broken off -----

  lemma {:induction false} ContinuationsDecode(s: seq<Byte>)
    requires forall k :: 0 <= k < |s| ==> IsContinuation(s[k])
    ensures Decode(s) == Replacements(|s|)
  {
    hide IsContinuation;
    if s != [] {
      WantedIsChecked(s[0]);
      ContinuationsDecode(s[1..]);
    }
  }

  /** Each byte of a character broken off is replaced. */
  lemma PartialDecodes(h: seq<Byte>)
    requires IsPartial(h)
    ensures Decode(h) == Replacements(|h|)
  {
    hide IsContinuation, CheckByte;
    WantedIsChecked(h[0]);
    ContinuationsDecode(h[1..]);
  }

  lemma BrokenOff(h: seq<Byte>, y: seq<Byte>)
    requires IsPartial(h) && !Continues(y)
    ensures Decode(h + y) == Replacements(|h|) + Decode(y)
  {
    hide IsPartial, Continues, Decode;
    DecodeSplit(h, y);
    PartialDecodes(h);
  }

  // ----- The end of a chunk -----

  lemma SuffixBytes(buf: seq<Byte>, j: nat)
    requires j < |buf|
    ensures buf[j..] != [] && forall k :: 0 <= k < |buf| - j ==> buf[j..][k] == buf[j + k]
  {
  }

  /** The bytes it looks at find a character begun and not finished, wherever one is. */
  lemma NothingIncomplete(buf: seq<Byte>, i: nat, j: nat)
    requires i <= j < |buf| && CheckIncomplete(buf, i).1 == 0
    ensures !IsPartial(buf[j..])
  {
    hide CheckByte, IsContinuation;
    SuffixBytes(buf, j);
    var s := buf[j..];
    WantedIsChecked(buf[j]);
    if |s| >= 2 {
      assert s[1] == buf[j + 1];
      WantedIsChecked(buf[j + 1]);
    }
    if |s| >= 3 {
      assert s[2] == buf[j + 2];
      WantedIsChecked(buf[j + 2]);
    }
    CheckedAtMostFour(buf[j]);
  }

  lemma CheckedAtMostFour(b: Byte)
    ensures CheckByte(b) <= 4
  {
  }

  lemma SomethingIncomplete(buf: seq<Byte>, i: nat)
    requires i <= |buf| && CheckIncomplete(buf, i).1 > 0
    ensures var (total, need) := CheckIncomplete(buf, i);
            var end := |buf| - (total - need);
            i <= end < |buf| && IsPartial(buf[end..]) && CheckByte(buf[end]) == total
  {
    hide CheckByte, IsContinuation;
    var (total, need) := CheckIncomplete(buf, i);
    var end := |buf| - (total - need);
    SuffixBytes(buf, end);
    WantedIsChecked(buf[|buf| - 1]);
    if |buf| >= 2 {
      WantedIsChecked(buf[|buf| - 2]);
    }
  }

  // ----- One chunk -----

  /** The decoder holds h. */
  ghost predicate Holding(d: State, h: seq<Byte>) {
    Valid(d) &&
    if h == [] then d.lastNeed == 0
    else
      && IsPartial(h) && d.lastTotal == CheckByte(h[0]) && d.lastNeed == d.lastTotal - |h|
      && d.lastChar[..|h|] == h
  }

  lemma TextAny(d: State, buf: seq<Byte>, i: nat, more: seq<Byte>) returns (h: seq<Byte>)
    requires Valid(d) && d.lastNeed == 0 && i <= |buf|
    ensures Holding(Text(d, buf, i).0, h)
    ensures Decode(buf[i..] + more) == Text(d, buf, i).1 + Decode(h + more)
  {
    hide IsPartial, Continues, Decode, CheckIncomplete, CheckByte, CanSplit;
    var (total, need) := CheckIncomplete(buf, i);
    if need == 0 {
      h := [];
      SplitWhole(buf, i, more);
      assert [] + more == more;
    } else {
      SomethingIncomplete(buf, i);
      var end := |buf| - (total - need);
      h := buf[end..];
      SplitAtLead(buf[i..end], h, more);
      assert buf[i..] + more == buf[i..end] + (h + more);
    }
  }

  lemma SplitWhole(buf: seq<Byte>, i: nat, more: seq<Byte>)
    requires i <= |buf| && CheckIncomplete(buf, i).1 == 0
    ensures Decode(buf[i..] + more) == Decode(buf[i..]) + Decode(more)
  {
    hide IsPartial, Decode, CheckIncomplete;
    var x := buf[i..];
    forall j | 0 <= j < |x|
      ensures !IsPartial(x[j..])
    {
      assert x[j..] == buf[i + j..];
      NothingIncomplete(buf, i, i + j);
    }
    DecodeSplit(x, more);
  }

  lemma SplitAtLead(x: seq<Byte>, h: seq<Byte>, more: seq<Byte>)
    requires IsPartial(h)
    ensures Decode(x + (h + more)) == Decode(x) + Decode(h + more)
  {
    hide Decode, CheckByte, IsContinuation;
    WantedIsChecked(h[0]);
    assert (h + more)[0] == h[0];
    DecodeSplit(x, h + more);
  }

  /** How many replacements fewer the decoder gives because it held bytes that this chunk breaks off:
      one for every byte but the first. */
  function Loss(d: State, buf: seq<Byte>): nat
    requires Valid(d)
  {
    if d.lastNeed == 0 || buf == [] then 0
    else
      var extra := CheckExtraBytes(d.lastNeed, buf);
      if extra.Some? then d.lastTotal - d.lastNeed + extra.value - 1 else 0
  }

  // ----- A chunk that meets a held character -----

  lemma HeldGrows(h: seq<Byte>, buf: seq<Byte>, k: nat)
    requires IsPartial(h) && k <= |buf| && |h| + k < CheckByte(h[0])
    requires forall j :: 0 <= j < k ==> IsContinuation(buf[j])
    ensures IsPartial(h + buf[..k]) && (h + buf[..k])[0] == h[0]
  {
    hide IsContinuation, CheckByte;
    var s := h + buf[..k];
    forall j | 1 <= j < |s|
      ensures IsContinuation(s[j])
    {
      assert s[j] == if j < |h| then h[j] else buf[j - |h|];
    }
  }

  /** A whole character, or what looks like one, can be split off. */
  lemma SplitCharacter(x: seq<Byte>, y: seq<Byte>)
    requires x != [] && |x| == CheckByte(x[0]) && forall k :: 1 <= k < |x| ==> IsContinuation(x[k])
    ensures Decode(x + y) == Decode(x) + Decode(y)
  {
    hide Decode, CheckByte, IsContinuation;
    forall j | 0 <= j < |x|
      ensures !IsPartial(x[j..])
    {
      assert x[j..][0] == x[j];
      WantedIsChecked(x[j]);
    }
    DecodeSplit(x, y);
  }

  lemma ExtraBytes(lastNeed: int, buf: seq<Byte>)
    requires buf != [] && 0 < lastNeed <= 3
    ensures var extra := CheckExtraBytes(lastNeed, buf);
            && (extra.Some? ==> !IsContinuation(buf[extra.value])
                                && forall j :: 0 <= j < extra.value ==> IsContinuation(buf[j]))
            && (extra.None? ==> forall j :: 0 <= j < |buf| && j < lastNeed ==> IsContinuation(buf[j]))
  {
    hide IsContinuation;
  }

  /** The held character is broken off. */
  lemma BreakStep(d: State, h: seq<Byte>, buf: seq<Byte>, more: seq<Byte>)
    returns (h': seq<Byte>)
    requires h != [] && Holding(d, h) && buf != [] && CheckExtraBytes(d.lastNeed, buf).Some?
    ensures Holding(Write(d, buf).0, h')
    ensures Decode(h + buf + more) == Replacements(Loss(d, buf)) + Write(d, buf).1 + Decode(h' + more)
  {
    hide IsContinuation, CheckByte, Decode, Text, CheckExtraBytes, IsPartial, Replacements, Continues;
    CheckedAtMostFour(h[0]);
    HeldIsSome(h);
    ExtraBytes(d.lastNeed, buf);
    var e := CheckExtraBytes(d.lastNeed, buf).value;
    HeldGrows(h, buf, e);
    var all, rest := h + buf[..e], buf[e..] + more;
    assert h + buf + more == all + rest;
    assert !Continues(rest) by { BreaksOff(buf, e, more); }
    BrokenOff(all, rest);
    var cleared := d.(lastNeed := 0);
    h' := TextAny(cleared, buf, e, more);
    var loss, text := Loss(d, buf), Text(cleared, buf, e).1;
    assert |all| == loss + 1;
    ReplacementsConcat(loss, 1);
    OneReplacement();
    assert Write(d, buf).1 == [REPLACEMENT] + text;
    Regroup4(Replacements(loss), [REPLACEMENT], text, Decode(h' + more));
  }

  lemma HeldIsSome(h: seq<Byte>)
    requires IsPartial(h)
    ensures 1 <= |h| < CheckByte(h[0])
  {
  }

  lemma BreaksOff(buf: seq<Byte>, e: nat, more: seq<Byte>)
    requires e < |buf| && !IsContinuation(buf[e])
    ensures !Continues(buf[e..] + more)
  {
    hide IsContinuation;
    assert (buf[e..] + more)[0] == buf[e];
  }

  lemma OneReplacement()
    ensures Replacements(1) == [REPLACEMENT]
  {
    assert Replacements(0) == [];
  }

  lemma Regroup4(a: seq<Unit>, b: seq<Unit>, c: seq<Unit>, e: seq<Unit>)
    ensures a + b + (c + e) == a + (b + c) + e
  {
  }

  /** The held character gets its last byte. */
  lemma FillStepAny(d: State, h: seq<Byte>, buf: seq<Byte>, more: seq<Byte>)
    returns (h': seq<Byte>)
    requires h != [] && Holding(d, h) && |buf| >= d.lastNeed && CheckExtraBytes(d.lastNeed, buf).None?
    ensures Holding(Write(d, buf).0, h')
    ensures Decode(h + buf + more) == Write(d, buf).1 + Decode(h' + more)
  {
    hide IsContinuation, CheckByte, Decode, Text, CheckExtraBytes, Continues;
    CheckedAtMostFour(h[0]);
    ExtraBytes(d.lastNeed, buf);
    var need := d.lastNeed;
    var x := h + buf[..need];
    forall k | 1 <= k < |x|
      ensures IsContinuation(x[k])
    {
      assert x[k] == if k < |h| then h[k] else buf[k - |h|];
    }
    assert h + buf + more == x + (buf[need..] + more);
    SplitCharacter(x, buf[need..] + more);
    var filled := Put(d.lastChar, |h|, buf[..need]);
    assert filled[..d.lastTotal] == x;
    var cleared := d.(lastChar := filled, lastNeed := 0);
    if need < |buf| {
      h' := TextAny(cleared, buf, need, more);
      Regroup(Decode(x), Text(cleared, buf, need).1, Decode(h' + more));
    } else {
      h' := [];
      assert buf[need..] + more == [] + more;
    }
  }

  /** It gets some bytes, but not the last. */
  lemma HoldStepAny(d: State, h: seq<Byte>, buf: seq<Byte>)
    requires h != [] && Holding(d, h) && buf != [] && |buf| < d.lastNeed && CheckExtraBytes(d.lastNeed, buf).None?
    ensures Write(d, buf).1 == [] && Holding(Write(d, buf).0, h + buf)
  {
    hide IsContinuation, CheckByte, Decode, CheckExtraBytes, Continues;
    CheckedAtMostFour(h[0]);
    ExtraBytes(d.lastNeed, buf);
    assert buf[..|buf|] == buf;
    HeldGrows(h, buf, |buf|);
    var put := Put(d.lastChar, |h|, buf);
    assert put[..|h + buf|] == h + buf;
  }

  /** One chunk, whatever it holds: what write returns, and what is decoded later of what is held,
      is the decoding of all the bytes, but for the replacements lost. */
  lemma WriteAny(d: State, h: seq<Byte>, buf: seq<Byte>, more: seq<Byte>) returns (h': seq<Byte>)
    requires Holding(d, h)
    ensures Holding(Write(d, buf).0, h')
    ensures Decode(h + buf + more) == Replacements(Loss(d, buf)) + Write(d, buf).1 + Decode(h' + more)
  {
    hide IsPartial, Decode, Text, CheckExtraBytes, FillLast;
    NoLoss(Write(d, buf).1);
    if buf == [] {
      h' := h;
      assert h + buf == h;
    } else if h == [] {
      h' := TextAny(d, buf, 0, more);
      assert h + buf + more == buf[0..] + more;
    } else if CheckExtraBytes(d.lastNeed, buf).Some? {
      h' := BreakStep(d, h, buf, more);
    } else if |buf| >= d.lastNeed {
      h' := FillStepAny(d, h, buf, more);
    } else {
      HoldStepAny(d, h, buf);
      h' := h + buf;
    }
  }

  lemma NoLoss(text: seq<Unit>)
    ensures Replacements(0) + text == text && [] + text == text
  {
  }

  // ----- All chunks -----

  /** The replacements lost over a run, and at its end, where one stands for all bytes held. */
  function Lost(d: State, chunks: seq<seq<Byte>>): nat
    requires Valid(d)
    decreases |chunks|
  {
    if chunks == [] then if d.lastNeed > 0 then d.lastTotal - d.lastNeed - 1 else 0
    else
      WriteKeepsValid(d, chunks[0]);
      Loss(d, chunks[0]) + Lost(Write(d, chunks[0]).0, chunks[1..])
  }

  lemma {:induction false} ChunksAny(d: State, h: seq<Byte>, chunks: seq<seq<Byte>>)
    requires Holding(d, h)
    ensures var (final, text) := WriteAll(d, chunks);
            var all := text + End(final);
            && |Decode(h + Concat(chunks))| == |all| + Lost(d, chunks)
            && (Lost(d, chunks) == 0 ==> Decode(h + Concat(chunks)) == all)
    decreases |chunks|
  {
    hide Write, Decode, IsPartial, Loss;
    if chunks == [] {
      assert h + [] == h;
      EndAny(d, h);
      assert [] + End(d) == End(d);
    } else {
      WriteKeepsValid(d, chunks[0]);
      var rest := Concat(chunks[1..]);
      Regroup(h, chunks[0], rest);
      var h' := WriteAny(d, h, chunks[0], rest);
      var (w, s) := Write(d, chunks[0]);
      ChunksAny(w, h', chunks[1..]);
      var (final, text) := WriteAll(w, chunks[1..]);
      Regroup(s, text, End(final));
      NoLoss(s);
    }
  }

  /** What is held at the end: one replacement for the decoder, one a byte for the decoding. */
  lemma EndAny(d: State, h: seq<Byte>)
    requires Holding(d, h)
    ensures |Decode(h)| == |End(d)| + Lost(d, []) && (Lost(d, []) == 0 ==> Decode(h) == End(d))
  {
    hide Decode, IsContinuation, CheckByte, Replacements;
    if h == [] {
      NothingDecodes();
    } else {
      PartialDecodes(h);
      OneReplacement();
    }
  }

  lemma NothingDecodes()
    ensures Decode([]) == []
  {
  }

  /** For any bytes, cut anywhere: the strings from the writes and from end join to the decoding of
      all the bytes exactly if no held character was broken off after two or more of its bytes, by a
      byte that does not continue it or by the end. Else they are shorter by one replacement for each
      of its bytes but the first. */
  lemma WhenCuttingMatters(d: State, chunks: seq<seq<Byte>>)
    requires IsNew(d)
    ensures var (final, text) := WriteAll(d, chunks);
            && (text + End(final) == Decode(Concat(chunks)) <==> Lost(d, chunks) == 0)
            && |Decode(Concat(chunks))| == |text + End(final)| + Lost(d, chunks)
  {
    hide Write, WriteAll, Decode, Concat, Lost;
    ChunksAny(d, [], chunks);
    assert [] + Concat(chunks) == Concat(chunks);
  }

  /** F0 9F 41 gives a replacement for each of the first two bytes, unless it is cut before the 41. */
  lemma ACutThatMatters(d: State)
    requires IsNew(d)
    ensures Lost(d, [[0xF0, 0x9F, 0x41]]) == 0 && Lost(d, [[0xF0, 0x9F], [0x41]]) == 1
  {
    hide Decode;
    var whole: seq<Byte>, front: seq<Byte>, back: seq<Byte> := [0xF0, 0x9F, 0x41], [0xF0, 0x9F], [0x41];
    assert [whole][1..] == [] && [front, back][1..] == [back] && [back][1..] == [];
    assert CheckIncomplete(whole, 0).1 == 0;
    assert Write(d, whole).0 == d && Loss(d, whole) == 0;
    assert Lost(d, [whole]) == Loss(d, whole) + Lost(d, []);
    assert CheckIncomplete(front, 0) == (4, 2);
    var w := Write(d, front).0;
    assert w.lastNeed == 2 && w.lastTotal == 4 && Loss(d, front) == 0;
    assert CheckExtraBytes(2, back) == Some(0) && Loss(w, back) == 1;
    assert Write(w, back).0.lastNeed == 0;
    assert Lost(w, [back]) == Loss(w, back) + Lost(Write(w, back).0, []);
  }
}
