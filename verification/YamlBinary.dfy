/** js-yaml's own base64 for `!!binary`, which shifts bytes through one 32-bit accumulator. */
module YamlBinary {
  import opened Bytes
  import opened Sequences
  import opened Utf8
  import opened Base64
  import opened Base64Loops
  import opened Words

  // ----- Representing -----

  /** The four characters of the accumulator's low 24 bits. */
  function Emit(acc: int): seq<Unit> {
    [Digit(acc / 262144 % 64), Digit(acc / 4096 % 64), Digit(acc / 64 % 64), Digit(acc % 64)]
  }

  lemma EmitGroup(acc: int, n: int)
    requires 0 <= n < 0x100_0000 && acc % 0x100_0000 == n
    ensures Emit(acc) == Group(n)
  {
    hide Digit;
    SameDigit(acc, n, 262144, 64, 1);
    SameDigit(acc, n, 4096, 64, 64);
    SameDigit(acc, n, 64, 64, 4096);
    SameDigit(acc, n, 1, 64, 262144);
  }

  /** The bytes not yet emitted are the accumulator's low bits. */
  predicate Pending(acc: int, t: seq<Byte>) {
    && |t| <= 3
    && (|t| == 1 ==> acc % 0x100 == Join(0, 0, t[0]))
    && (|t| == 2 ==> acc % 0x1_0000 == Join(0, t[0], t[1]))
    && (|t| == 3 ==> acc % 0x100_0000 == Join(t[0], t[1], t[2]))
  }

  lemma PushByte(acc: int, t: seq<Byte>, x: Byte)
    requires Pending(acc, t) && |t| < 3
    ensures Pending(ToInt32(acc * 0x100) + x, t + [x])
  {
    hide ToInt32;
    PushDigit(acc, 0x100, x, 1, 0x100_0000);
    PushDigit(acc, 0x100, x, 0x100, 0x1_0000);
    PushDigit(acc, 0x100, x, 0x1_0000, 0x100);
  }

  lemma OneByte(acc: int, n: int)
    requires 0 <= n < 0x100 && acc % 0x100 == n
    ensures acc / 4 % 64 == n / 4 && acc * 16 % 64 == n * 16 % 64
  {
    SameDigit(acc, n, 4, 64, 1);
    ScaledDigit(acc, n, 16, 4, 64);
  }

  lemma TwoBytes(acc: int, n: int)
    requires 0 <= n < 0x1_0000 && acc % 0x1_0000 == n
    ensures acc / 1024 % 64 == n / 1024 && acc / 16 % 64 == n / 16 % 64 && acc * 4 % 64 == n * 4 % 64
  {
    SameDigit(acc, n, 1024, 64, 1);
    SameDigit(acc, n, 16, 64, 64);
    ScaledDigit(acc, n, 4, 16, 4096);
  }

  lemma EmitThree(acc: int, t: seq<Byte>)
    requires |t| == 3 && Pending(acc, t)
    ensures Emit(acc) == Group(Join(t[0], t[1], t[2]))
  {
    hide Join, Emit, Group;
    EmitGroup(acc, Join(t[0], t[1], t[2]));
  }

  lemma EmitTwo(acc: int, t: seq<Byte>)
    requires |t| == 2 && Pending(acc, t)
    ensures [Digit(acc / 1024 % 64), Digit(acc / 16 % 64), Digit(acc * 4 % 64), EQUALS] == EncodeTail(t)
  {
    hide Digit, Join;
    JoinTail(t[0], t[1]);
    TwoBytes(acc, Join(0, t[0], t[1]));
  }

  lemma EmitOne(acc: int, t: seq<Byte>)
    requires |t| == 1 && Pending(acc, t)
    ensures [Digit(acc / 4 % 64), Digit(acc * 16 % 64), EQUALS, EQUALS] == EncodeTail(t)
  {
    hide Digit, Join;
    JoinTail(0, t[0]);
    OneByte(acc, Join(0, 0, t[0]));
  }

  /** What `representYamlBinary` gives: the empty array comes out as four characters. */
  function Represent(b: seq<Byte>): seq<Unit> {
    if b == [] then Emit(0) else Base64.Encode(b)
  }

  method RepresentYamlBinary(b: seq<Byte>) returns (out: seq<Unit>)
    ensures out == Represent(b)
  {
    hide EncodeGroups, Emit, Pending, Represent;
    out := [];
    var bits := 0;
    var t := 0;
    ghost var done := 0;
    NothingPending(b);
    while t < |b|
      invariant 0 <= done <= t <= |b| && done % 3 == 0 && (t > 0 ==> t - done > 0) && (t == 0 ==> bits == 0)
      invariant t - done <= 3 && Pending(bits, b[done..t]) && out == EncodeGroups(b[0..done])
    {
      if t % 3 == 0 && t > 0 {
        EmitNext(bits, b, done);
        out := out + Emit(bits);
        done := t;
        NothingPendingAt(b, t, bits);
      }
      PushByte(bits, b[done..t], b[t]);
      assert b[done..t] + [b[t]] == b[done..t + 1];
      bits := ToInt32(bits * 0x100) + b[t];
      t := t + 1;
    }
    var tail := RepresentTail(b, done, bits);
    out := out + tail;
  }

  lemma EmitNext(bits: int, b: seq<Byte>, done: nat)
    requires done + 3 <= |b| && done % 3 == 0 && Pending(bits, b[done..done + 3])
    ensures EncodeGroups(b[0..done + 3]) == EncodeGroups(b[0..done]) + Emit(bits)
  {
    hide EncodeGroups, Emit, Pending, Group, Join;
    EmitThree(bits, b[done..done + 3]);
    NextGroup(b, done);
  }

  /** The last group, padded if it is short. */
  method RepresentTail(b: seq<Byte>, ghost done: nat, bits: int) returns (tail: seq<Unit>)
    requires done <= |b| <= done + 3 && done % 3 == 0 && (b != [] ==> done < |b|) && (b == [] ==> bits == 0)
    requires Pending(bits, b[done..|b|])
    ensures EncodeGroups(b[0..done]) + tail == Represent(b)
  {
    hide EncodeGroups, EncodeTail, Emit, Pending, Digit;
    if |b| % 3 == 0 {
      tail := Emit(bits);
      if b != [] {
        EmitNext(bits, b, done);
        WholeEncoded(b);
      } else {
        NothingPending(b);
      }
    } else {
      LastTail(b, done);
      if |b| % 3 == 2 {
        EmitTwo(bits, b[done..|b|]);
        tail := [Digit(bits / 1024 % 64), Digit(bits / 16 % 64), Digit(bits * 4 % 64), EQUALS];
      } else {
        EmitOne(bits, b[done..|b|]);
        tail := [Digit(bits / 4 % 64), Digit(bits * 16 % 64), EQUALS, EQUALS];
      }
    }
  }

  lemma NothingPending(b: seq<Byte>)
    ensures b[0..0] == [] && EncodeGroups(b[0..0]) == [] && Pending(0, b[0..0])
  {
  }

  lemma NothingPendingAt(b: seq<Byte>, t: nat, acc: int)
    requires t <= |b|
    ensures Pending(acc, b[t..t])
  {
  }

  lemma NextGroup(b: seq<Byte>, done: nat)
    requires done + 3 <= |b| && done % 3 == 0
    ensures EncodeGroups(b[0..done + 3]) == EncodeGroups(b[0..done]) + Group(Join(b[done], b[done + 1], b[done + 2]))
  {
    hide EncodeGroups, Group, Join;
    MoreGroups(b, 0, done, done + 3);
    OneGroup(b[done..done + 3]);
  }

  lemma WholeEncoded(b: seq<Byte>)
    requires |b| % 3 == 0
    ensures Base64.Encode(b) == EncodeGroups(b[0..|b|])
  {
    hide EncodeGroups;
    assert b[0..|b|] == b && EncodeTail(Remainder(b)) == [];
  }

  lemma LastTail(b: seq<Byte>, done: nat)
    requires done <= |b| && done % 3 == 0 && 0 < |b| - done < 3
    ensures Base64.Encode(b) == EncodeGroups(b[0..done]) + EncodeTail(b[done..|b|])
  {
    hide EncodeGroups, EncodeTail;
    WholeGroups(b);
    assert b[done..|b|] == Remainder(b);
  }

  /** For the empty array, and only for it, the text differs from that of base64-js. */
  lemma AgreesUnlessEmpty(b: seq<Byte>)
    ensures Represent(b) == Base64.Encode(b) <==> b != []
    ensures b == [] ==> Represent(b) == [65, 65, 65, 65] && Base64.Encode(b) == []
  {
    assert Digit(0) == 65;
  }

  // ----- Resolving and constructing -----

  predicate IsBreak(u: Unit) {
    u == 10 || u == 13
  }

  /** The place in the map, which ends in `=`, LF and CR; -1 for other characters. */
  function MapIndex(u: Unit): int {
    if u == EQUALS then 64 else if u == 10 then 65 else if u == 13 then 66 else DigitIndex(u)
  }

  function Unbroken(e: seq<Unit>): seq<Unit> {
    if e == [] then [] else (if IsBreak(e[0]) then [] else [e[0]]) + Unbroken(e[1..])
  }

  function Kept(u: Unit): seq<Unit> {
    if IsBreak(u) || u == EQUALS then [] else [u]
  }

  /** Without line breaks and padding. */
  function Stripped(e: seq<Unit>): seq<Unit> {
    if e == [] then [] else Kept(e[0]) + Stripped(e[1..])
  }

  /** Text is taken for binary if all its characters are in the map and make up whole groups. */
  predicate Resolves(e: seq<Unit>) {
    (forall u :: u in e ==> MapIndex(u) >= 0) && |Unbroken(e)| % 4 == 0
  }

  method ResolveYamlBinary(e: seq<Unit>) returns (ok: bool)
    ensures ok == Resolves(e)
  {
    hide MapIndex;
    var bits := 0;
    for r := 0 to |e|
      invariant bits == 6 * |Unbroken(e[..r])| && forall u :: u in e[..r] ==> MapIndex(u) >= 0
    {
      UnbrokenNext(e, r);
      assert e[..r + 1] == e[..r] + [e[r]];
      var t := MapIndex(e[r]);
      BreaksInMap(e[r]);
      if t <= 64 {
        if t < 0 {
          assert e[r] in e;
          return false;
        }
        bits := bits + 6;
      }
    }
    assert e[..|e|] == e;
    ok := bits % 8 == 0;
    GroupsOfFour(|Unbroken(e)|);
  }

  lemma BreaksInMap(u: Unit)
    ensures MapIndex(u) > 64 <==> IsBreak(u)
  {
  }

  lemma GroupsOfFour(n: nat)
    ensures 6 * n % 8 == 0 <==> n % 4 == 0
  {
    var q, r := n / 4, n % 4;
    Divided(6 * n, 8, 3 * q + 6 * r / 8, 6 * r % 8);
  }

  lemma {:induction false} UnbrokenNext(e: seq<Unit>, r: nat)
    requires r < |e|
    ensures Unbroken(e[..r + 1]) == Unbroken(e[..r]) + if IsBreak(e[r]) then [] else [e[r]]
  {
    hide IsBreak;
    if r == 0 {
      assert e[..1][1..] == [];
    } else {
      UnbrokenNext(e[1..], r - 1);
      assert e[..r + 1][1..] == e[1..][..r] && e[..r][1..] == e[1..][..r - 1];
    }
  }

  /** The bytes of a last group without its padding. */
  function LooseTail(t: seq<Unit>): seq<Byte>
    requires |t| < 4
  {
    if |t| == 3 then
      var n := Lookup(t[0]) * 4096 + Lookup(t[1]) * 64 + Lookup(t[2]);
      [n / 1024, n / 4 % 0x100]
    else if |t| == 2 then [(Lookup(t[0]) * 64 + Lookup(t[1])) / 16]
    else []
  }

  /** The characters that make no whole group. */
  function Rest(s: seq<Unit>): (t: seq<Unit>)
    ensures |t| == |s| % 4
  {
    s[|s| - |s| % 4..]
  }

  /** The bytes of stripped text; nothing at all comes out as three zero bytes. */
  function Construct(s: seq<Unit>): seq<Byte> {
    if s == [] then [0, 0, 0] else DecodeGroups(s) + LooseTail(Rest(s))
  }

  /** Text of line breaks and padding alone, or none at all, reads as three zero bytes. */
  lemma {:induction false} NothingReadsAsZeros(e: seq<Unit>)
    requires forall u :: u in e ==> u == 10 || u == 13 || u == 61
    ensures Stripped(e) == [] && Construct(Stripped(e)) == [0, 0, 0]
  {
    hide DecodeGroups, LooseTail;
    if e != [] {
      assert e[0] in e && forall u :: u in e[1..] ==> u in e;
      NothingReadsAsZeros(e[1..]);
      assert Kept(e[0]) == [];
    }
  }

  /** The characters not yet pushed are the accumulator's low bits. */
  predicate Held(acc: int, t: seq<Unit>) {
    && |t| <= 4
    && (|t| == 1 ==> acc % 64 == Lookup(t[0]))
    && (|t| == 2 ==> acc % 4096 == Lookup(t[0]) * 64 + Lookup(t[1]))
    && (|t| == 3 ==> acc % 262144 == Lookup(t[0]) * 4096 + Lookup(t[1]) * 64 + Lookup(t[2]))
    && (|t| == 4 ==> acc % 0x100_0000 == Lookup(t[0]) * 262144 + Lookup(t[1]) * 4096 + Lookup(t[2]) * 64 + Lookup(t[3]))
  }

  lemma PushSextet(acc: int, t: seq<Unit>, u: Unit)
    requires Held(acc, t) && |t| < 4
    ensures Held(ToInt32(acc * 64) + Lookup(u), t + [u])
  {
    hide ToInt32, Lookup;
    var d := Lookup(u);
    PushDigit(acc, 64, d, 1, 0x400_0000);
    PushDigit(acc, 64, d, 64, 0x10_0000);
    PushDigit(acc, 64, d, 4096, 16384);
    PushDigit(acc, 64, d, 262144, 256);
  }

  function Push24(acc: int): seq<Byte> {
    [acc / 0x1_0000 % 0x100, acc / 0x100 % 0x100, acc % 0x100]
  }

  lemma PushedBytes(acc: int, n: int)
    requires 0 <= n < 0x100_0000 && acc % 0x100_0000 == n
    ensures Push24(acc) == [n / 0x1_0000, n / 0x100 % 0x100, n % 0x100]
  {
    SameDigit(acc, n, 0x1_0000, 0x100, 1);
    SameDigit(acc, n, 0x100, 0x100, 0x100);
    SameDigit(acc, n, 1, 0x100, 0x1_0000);
  }

  lemma PushGroup(acc: int, t: seq<Unit>)
    requires |t| == 4 && Held(acc, t)
    ensures Push24(acc) == Ungroup(t[0], t[1], t[2], t[3])
  {
    hide Lookup, Push24;
    PushedBytes(acc, acc % 0x100_0000);
  }

  lemma Bytes18(acc: int, n: int)
    requires 0 <= n < 262144 && acc % 262144 == n
    ensures acc / 1024 % 0x100 == n / 1024 && acc / 4 % 0x100 == n / 4 % 0x100
  {
    SameDigit(acc, n, 1024, 0x100, 1);
    SameDigit(acc, n, 4, 0x100, 0x100);
  }

  lemma Bytes12(acc: int, n: int)
    requires 0 <= n < 4096 && acc % 4096 == n
    ensures acc / 16 % 0x100 == n / 16
  {
    SameDigit(acc, n, 16, 0x100, 1);
  }

  lemma PushTail(acc: int, t: seq<Unit>)
    requires Held(acc, t)
    ensures |t| == 3 ==> [acc / 1024 % 0x100, acc / 4 % 0x100] == LooseTail(t)
    ensures |t| == 2 ==> [acc / 16 % 0x100] == LooseTail(t)
  {
    hide Lookup;
    if |t| == 3 {
      Bytes18(acc, acc % 262144);
    } else if |t| == 2 {
      Bytes12(acc, acc % 4096);
    }
  }

  /** The bytes of text that resolves as binary. */
  method ConstructYamlBinary(e: seq<Unit>) returns (out: seq<Byte>)
    requires Resolves(e)
    ensures out == Construct(Stripped(e))
  {
    hide DecodeGroups, Held, Ungroup, Lookup, Stripped, Resolves, Construct, MapIndex, Push24;
    var s := Stripped(e);
    var bits := 0;
    out := [];
    var t := 0;
    ghost var done := 0;
    NothingHeld(s, 0, 0);
    while t < |s|
      invariant 0 <= done <= t <= |s| && done % 4 == 0 && t - done <= 4 && (t > 0 ==> t - done > 0)
          && (t == 0 ==> bits == 0)
      invariant Held(bits, s[done..t]) && out == DecodeGroups(s[..done])
    {
      if t % 4 == 0 && t > 0 {
        PushGroup(bits, s[done..t]);
        DecodeNextGroup(s, done);
        out := out + Push24(bits);
        done := t;
        NothingHeld(s, t, bits);
      }
      PushSextet(bits, s[done..t], s[t]);
      assert s[done..t] + [s[t]] == s[done..t + 1];
      StrippedAreDigits(e, t);
      bits := ToInt32(bits * 64) + MapIndex(s[t]);
      t := t + 1;
    }
    var tail := ConstructTail(s, done, bits);
    out := out + tail;
  }

  /** The bytes of the last characters. */
  method ConstructTail(s: seq<Unit>, ghost done: nat, bits: int) returns (tail: seq<Byte>)
    requires done <= |s| <= done + 4 && done % 4 == 0 && (s != [] ==> done < |s|) && (s == [] ==> bits == 0)
    requires Held(bits, s[done..|s|])
    ensures DecodeGroups(s[..done]) + tail == Construct(s)
  {
    hide DecodeGroups, Held, Ungroup, Lookup, LooseTail, Push24, Rest;
    NothingHeld(s, 0, 0);
    if |s| % 4 == 0 {
      tail := Push24(bits);
      if s != [] {
        PushGroup(bits, s[done..|s|]);
        DecodeNextGroup(s, done);
        NoLooseTail(s);
      }
    } else {
      PushTail(bits, s[done..|s|]);
      DecodeWhole(s, done);
      RestFrom(s, done);
      if |s| % 4 == 3 {
        tail := [bits / 1024 % 0x100, bits / 4 % 0x100];
      } else if |s| % 4 == 2 {
        tail := [bits / 16 % 0x100];
      } else {
        NoLooseTailOfOne(s);
        tail := [];
      }
    }
  }

  lemma NothingHeld(s: seq<Unit>, t: nat, acc: int)
    requires t <= |s|
    ensures Held(acc, s[t..t]) && DecodeGroups(s[..0]) == [] && Push24(0) == [0, 0, 0]
  {
    hide Lookup;
  }

  lemma NoLooseTail(s: seq<Unit>)
    requires |s| % 4 == 0
    ensures LooseTail(Rest(s)) == [] && s[..|s|] == s
  {
  }

  lemma NoLooseTailOfOne(s: seq<Unit>)
    requires |s| % 4 == 1
    ensures LooseTail(Rest(s)) == []
  {
  }

  lemma RestFrom(s: seq<Unit>, done: nat)
    requires done <= |s| < done + 4 && done % 4 == 0
    ensures Rest(s) == s[done..|s|]
  {
  }

  lemma {:induction false} DecodeWhole(s: seq<Unit>, done: nat)
    requires done <= |s| < done + 4 && done % 4 == 0
    ensures DecodeGroups(s) == DecodeGroups(s[..done])
  {
    hide DecodeGroups, Ungroup;
    if done > 0 {
      DecodeWhole(s[4..], done - 4);
      assert s[..done][4..] == s[4..][..done - 4];
      FirstGroup(s);
      FirstGroup(s[..done]);
    } else {
      NoneWhole(s);
      NoneWhole(s[..0]);
    }
  }

  lemma FirstGroup(s: seq<Unit>)
    requires |s| >= 4
    ensures DecodeGroups(s) == Ungroup(s[0], s[1], s[2], s[3]) + DecodeGroups(s[4..])
  {
  }

  lemma NoneWhole(s: seq<Unit>)
    requires |s| < 4
    ensures DecodeGroups(s) == []
  {
  }

  lemma {:induction false} StrippedAreDigits(e: seq<Unit>, t: nat)
    requires Resolves(e) && t < |Stripped(e)|
    ensures MapIndex(Stripped(e)[t]) == Lookup(Stripped(e)[t])
  {
    StrippedIsPart(e, Stripped(e)[t]);
  }

  lemma {:induction false} StrippedIsPart(e: seq<Unit>, u: Unit)
    requires u in Stripped(e)
    ensures u in e && u != EQUALS && !IsBreak(u)
  {
    if !(u in [e[0]] && u != EQUALS && !IsBreak(u)) {
      StrippedIsPart(e[1..], u);
    }
  }

  // ----- Round trip -----

  lemma {:induction false} StrippedConcat(a: seq<Unit>, b: seq<Unit>)
    ensures Stripped(a + b) == Stripped(a) + Stripped(b)
  {
    hide Kept;
    if a == [] {
      assert a + b == b;
    } else {
      StrippedConcat(a[1..], b);
      assert (a + b)[1..] == a[1..] + b;
      Regroup(Kept(a[0]), Stripped(a[1..]), Stripped(b));
    }
  }

  lemma {:induction false} StripTwice(e: seq<Unit>)
    ensures Stripped(Unbroken(e)) == Stripped(e)
  {
    hide IsBreak;
    if e != [] {
      StripTwice(e[1..]);
      if IsBreak(e[0]) {
        assert Unbroken(e) == Unbroken(e[1..]) && Stripped(e) == Stripped(e[1..]);
      } else {
        assert Unbroken(e)[1..] == Unbroken(e[1..]);
      }
    }
  }

  predicate AllDigits(s: seq<Unit>) {
    forall u :: u in s ==> DigitIndex(u) >= 0
  }

  lemma {:induction false} DigitsAreKept(s: seq<Unit>)
    requires AllDigits(s)
    ensures Stripped(s) == s
  {
    if s != [] {
      assert s[0] in s;
      DigitsAreKept(s[1..]);
    }
  }

  lemma {:induction false} GroupsAreDigits(b: seq<Byte>)
    ensures AllDigits(EncodeGroups(b))
  {
    hide Group, Join, DigitIndex;
    if |b| >= 3 {
      GroupsAreDigits(b[3..]);
      GroupIsDigits(Join(b[0], b[1], b[2]));
      DigitsConcat(Group(Join(b[0], b[1], b[2])), EncodeGroups(b[3..]));
    }
  }

  lemma DigitsConcat(a: seq<Unit>, b: seq<Unit>)
    requires AllDigits(a) && AllDigits(b)
    ensures AllDigits(a + b)
  {
  }

  lemma GroupIsDigits(n: int)
    requires 0 <= n < 0x100_0000
    ensures AllDigits(Group(n))
  {
    hide Digit, DigitIndex;
    Sextets(n);
    DigitRoundTrip(n / 262144);
    DigitRoundTrip(n / 4096 % 64);
    DigitRoundTrip(n / 64 % 64);
    DigitRoundTrip(n % 64);
  }

  /** A padded tail without its padding. */
  function TailDigits(t: seq<Byte>): (d: seq<Unit>)
    requires |t| < 3
  {
    if t == [] then [] else EncodeTail(t)[..|t| + 1]
  }

  lemma StrippedTail(t: seq<Byte>)
    requires |t| < 3
    ensures var d := TailDigits(t);
            && Stripped(EncodeTail(t)) == d && |d| == (if t == [] then 0 else |t| + 1) && LooseTail(d) == t
    ensures forall u :: u in EncodeTail(t) ==> MapIndex(u) >= 0
  {
    if |t| == 1 {
      OneByteStripped(t);
    } else if |t| == 2 {
      TwoBytesStripped(t);
    }
  }

  lemma StripDigit(d: int, rest: seq<Unit>)
    requires 0 <= d < 64
    ensures Stripped([Digit(d)] + rest) == [Digit(d)] + Stripped(rest) && MapIndex(Digit(d)) >= 0
  {
    hide Digit, Lookup, DigitIndex;
    DigitRoundTrip(d);
    assert ([Digit(d)] + rest)[1..] == rest;
  }

  lemma StripPadding()
    ensures Stripped([EQUALS, EQUALS]) == [] && Stripped([EQUALS]) == [] && MapIndex(EQUALS) >= 0
  {
    assert [EQUALS][1..] == [];
    assert Stripped([EQUALS]) == [] + [];
    assert [EQUALS, EQUALS][1..] == [EQUALS];
    assert Stripped([EQUALS, EQUALS]) == [] + Stripped([EQUALS]);
  }

  lemma LooseOne(n: int)
    requires 0 <= n < 0x100
    ensures (n / 4 * 64 + n * 16 % 64) / 16 == n
  {
    var q, r := n / 4, n % 4;
    Divided(n * 16, 64, q, 16 * r);
  }

  lemma LooseTwo(n: int)
    requires 0 <= n < 0x1_0000
    ensures n / 1024 * 4096 + n / 16 % 64 * 64 + n * 4 % 64 == 4 * n
    ensures 4 * n / 1024 == n / 0x100 && 4 * n / 4 % 0x100 == n % 0x100
  {
    var q, r := n / 16, n % 16;
    Divided(n * 4, 64, q, 4 * r);
    var s := q / 64;
    Divided(n, 1024, s, q % 64 * 16 + r);
    Divided(4 * n, 1024, n / 0x100, 4 * (n % 0x100));
  }

  lemma OneByteStripped(t: seq<Byte>)
    requires |t| == 1
    ensures Stripped(EncodeTail(t)) == TailDigits(t) && |TailDigits(t)| == 2 && LooseTail(TailDigits(t)) == t
    ensures forall u :: u in EncodeTail(t) ==> MapIndex(u) >= 0
  {
    hide Digit, Lookup, Join, Stripped, MapIndex;
    var n := Join(0, 0, t[0]);
    JoinTail(0, t[0]);
    TailOfOne(n);
    LooseOne(n);
    var x, y := n / 4, n * 16 % 64;
    DigitRoundTrip(x);
    DigitRoundTrip(y);
    StripPadding();
    StripDigit(y, [EQUALS, EQUALS]);
    StripDigit(x, [Digit(y)] + [EQUALS, EQUALS]);
    assert EncodeTail(t) == [Digit(x)] + ([Digit(y)] + [EQUALS, EQUALS]);
    assert TailDigits(t) == [Digit(x)] + ([Digit(y)] + []) == [Digit(x), Digit(y)];
  }

  lemma TwoBytesStripped(t: seq<Byte>)
    requires |t| == 2
    ensures Stripped(EncodeTail(t)) == TailDigits(t) && |TailDigits(t)| == 3 && LooseTail(TailDigits(t)) == t
    ensures forall u :: u in EncodeTail(t) ==> MapIndex(u) >= 0
  {
    hide Digit, Lookup, Join, Stripped, MapIndex, LooseTail;
    var n := Join(0, t[0], t[1]);
    JoinTail(t[0], t[1]);
    TailOfTwo(n);
    var x, y, z := n / 1024, n / 16 % 64, n * 4 % 64;
    StripPadding();
    StripDigit(z, [EQUALS]);
    StripDigit(y, [Digit(z)] + [EQUALS]);
    StripDigit(x, [Digit(y)] + ([Digit(z)] + [EQUALS]));
    assert EncodeTail(t) == [Digit(x)] + ([Digit(y)] + ([Digit(z)] + [EQUALS]));
    assert TailDigits(t) == [Digit(x)] + ([Digit(y)] + ([Digit(z)] + [])) == [Digit(x), Digit(y), Digit(z)];
    LooseBytes(t, n, x, y, z);
  }

  lemma LooseBytes(t: seq<Byte>, n: int, x: int, y: int, z: int)
    requires |t| == 2 && n == Join(0, t[0], t[1]) && n < 0x1_0000
    requires x == n / 1024 && y == n / 16 % 64 && z == n * 4 % 64 && x < 64
    ensures LooseTail([Digit(x), Digit(y), Digit(z)]) == t
  {
    hide Digit, Lookup, Join, LooseTail;
    DigitRoundTrip(x);
    DigitRoundTrip(y);
    DigitRoundTrip(z);
    LooseTwo(n);
    LooseThree([Digit(x), Digit(y), Digit(z)], 4 * n);
    Octets(0, t[0], t[1]);
    TwoOctets(n);
  }

  lemma LooseThree(d: seq<Unit>, m: int)
    requires |d| == 3 && m == Lookup(d[0]) * 4096 + Lookup(d[1]) * 64 + Lookup(d[2])
    ensures LooseTail(d) == [m / 1024, m / 4 % 0x100]
  {
    hide Lookup;
  }

  lemma TwoOctets(n: int)
    requires 0 <= n < 0x1_0000
    ensures n / 0x100 % 0x100 == n / 0x100
  {
  }

  lemma DecodeFront(front: seq<Unit>, d: seq<Unit>)
    requires |front| % 4 == 0 && |d| < 4
    ensures DecodeGroups(front + d) == DecodeGroups(front) && Rest(front + d) == d
  {
    hide DecodeGroups;
    DecodeWhole(front + d, |front|);
    RestFrom(front + d, |front|);
    assert (front + d)[..|front|] == front;
  }

  lemma {:induction false} MappedWithBreaks(e: seq<Unit>)
    requires forall u :: u in Unbroken(e) ==> MapIndex(u) >= 0
    ensures forall u :: u in e ==> MapIndex(u) >= 0
  {
    hide DigitIndex;
    if e != [] {
      forall u | u in Unbroken(e[1..])
        ensures MapIndex(u) >= 0
      {
        assert u in Unbroken(e);
      }
      MappedWithBreaks(e[1..]);
      assert IsBreak(e[0]) || e[0] in Unbroken(e);
      assert e == [e[0]] + e[1..];
    }
  }

  lemma DigitsAreMapped(s: seq<Unit>)
    requires AllDigits(s)
    ensures forall u :: u in s ==> MapIndex(u) >= 0
  {
    hide DigitIndex;
  }

  /** What non-empty bytes are written as, with line breaks put in anywhere, resolves as binary and
      gives the bytes back. */
  lemma NonEmptyRoundTrip(b: seq<Byte>, e: seq<Unit>)
    requires b != [] && Unbroken(e) == Base64.Encode(b)
    ensures Resolves(e) && Construct(Stripped(e)) == b
  {
    hide EncodeGroups, EncodeTail, DecodeGroups, MapIndex, Stripped, Unbroken, Remainder, LooseTail, Rest,
        TailDigits, AllDigits;
    var front, t := EncodeGroups(b), Remainder(b);
    GroupsAreDigits(b);
    DigitsAreKept(front);
    DigitsAreMapped(front);
    StrippedTail(t);
    StrippedConcat(front, EncodeTail(t));
    StripTwice(e);
    DecodeEncodeGroups(b);
    DecodeFront(front, TailDigits(t));
    Rejoin(b);
    MappedWithBreaks(e);
    PaddingStarts(front, t);
    NotNothing(b);
  }

  lemma NotNothing(b: seq<Byte>)
    requires b != []
    ensures EncodeGroups(b) + TailDigits(Remainder(b)) != []
  {
    GroupsLength(b);
    if |b| < 3 {
      StrippedTail(Remainder(b));
    }
  }

  /** With line breaks put in anywhere, what is written resolves as binary, and it gives the bytes
      back exactly if there are any. */
  lemma BinaryRoundTrip(b: seq<Byte>, e: seq<Unit>)
    requires Unbroken(e) == Represent(b)
    ensures Resolves(e) && (Construct(Stripped(e)) == b <==> b != [])
  {
    hide EncodeGroups, EncodeTail, Stripped, Unbroken, MapIndex, Construct;
    if b != [] {
      NonEmptyRoundTrip(b, e);
    } else {
      NonEmptyRoundTrip([0, 0, 0], e) by { ThreeZeros(); }
    }
  }

  /** The empty array is written like three zero bytes. */
  lemma ThreeZeros()
    ensures Represent([]) == Base64.Encode([0, 0, 0])
  {
    OneGroup([0, 0, 0]);
    assert Remainder([0, 0, 0]) == [];
    assert EncodeTail([]) == [];
    EmitGroup(0, 0);
  }
}
