/** UTF-8 in the Buffer polyfill: `utf8ToBytes` and `utf8Slice`. Strings are sequences of UTF-16
    code units; bit operations on separate fields are written as arithmetic. */
module Utf8 {
  import opened Bytes
  import opened Wrappers

  type Unit = u: int | 0 <= u < 0x1_0000
  /** Code points, surrogates included. */
  type Point = p: int | 0 <= p < 0x11_0000

  const REPLACEMENT: Point := 0xFFFD

  predicate IsLead(u: int) { 0xD800 <= u <= 0xDBFF }
  predicate IsTrail(u: int) { 0xDC00 <= u <= 0xDFFF }
  predicate IsSurrogate(u: int) { IsLead(u) || IsTrail(u) }

  function PairPoint(lead: Unit, trail: Unit): (p: Point)
    requires IsLead(lead) && IsTrail(trail)
    ensures p >= 0x1_0000
  {
    0x1_0000 + (lead - 0xD800) * 1024 + (trail - 0xDC00)
  }

  function UnitsOf(p: Point): (us: seq<Unit>)
    ensures 1 <= |us| <= 2
  {
    if p < 0x1_0000 then [p] else [0xD800 + (p - 0x1_0000) / 1024, 0xDC00 + (p - 0x1_0000) % 1024]
  }

  predicate StartsWithPair(s: seq<Unit>) {
    |s| >= 2 && IsLead(s[0]) && IsTrail(s[1])
  }

  // ----- Encoding -----

  function BytesOf(p: Point): (bs: seq<Byte>)
    ensures 1 <= |bs| <= 4
  {
    if p < 0x80 then [p]
    else if p < 0x800 then [p / 64 + 0xC0, p % 64 + 0x80]
    else if p < 0x1_0000 then [p / 4096 + 0xE0, p / 64 % 64 + 0x80, p % 64 + 0x80]
    else [p / 262144 + 0xF0, p / 4096 % 64 + 0x80, p / 64 % 64 + 0x80, p % 64 + 0x80]
  }

  /** The code points to be encoded: pairs joined, lone surrogates replaced. */
  function Scalars(s: seq<Unit>): (ps: seq<Point>)
    ensures forall p :: p in ps ==> !IsSurrogate(p)
  {
    if s == [] then []
    else if StartsWithPair(s) then [PairPoint(s[0], s[1])] + Scalars(s[2..])
    else if IsSurrogate(s[0]) then [REPLACEMENT] + Scalars(s[1..])
    else [s[0]] + Scalars(s[1..])
  }

  function EncodeAll(ps: seq<Point>): seq<Byte> {
    if ps == [] then [] else BytesOf(ps[0]) + EncodeAll(ps[1..])
  }

  function UnitsAll(ps: seq<Point>): seq<Unit> {
    if ps == [] then [] else UnitsOf(ps[0]) + UnitsAll(ps[1..])
  }

  // ----- Decoding -----

  predicate IsContinuation(b: int) {
    b / 64 == 2
  }

  function Join2(a: int, b: int): int {
    a % 32 * 64 + b % 64
  }

  function Join3(a: int, b: int, c: int): int {
    a % 16 * 4096 + b % 64 * 64 + c % 64
  }

  function Join4(a: int, b: int, c: int, d: int): int {
    a % 16 * 262144 + b % 64 * 4096 + c % 64 * 64 + d % 64
  }

  /** How many bytes a first byte asks for. */
  function Wanted(first: Byte): int {
    if first > 239 then 4 else if first > 223 then 3 else if first > 191 then 2 else 1
  }

  /** The code point at the start of b and the bytes it takes; None where the decoder finds none. */
  function PointAt(b: seq<Byte>): Option<Point>
    requires b != []
  {
    var n := Wanted(b[0]);
    if n > |b| then None
    else if n == 1 then if b[0] < 128 then Some(b[0]) else None
    else if n == 2 then
      if !IsContinuation(b[1]) then None
      else
        var u := Join2(b[0], b[1]);
        if u > 0x7F then Some(u) else None
    else if n == 3 then
      if !IsContinuation(b[1]) || !IsContinuation(b[2]) then None
      else
        var u := Join3(b[0], b[1], b[2]);
        if u > 0x7FF && !IsSurrogate(u) then Some(u) else None
    else
      if !IsContinuation(b[1]) || !IsContinuation(b[2]) || !IsContinuation(b[3]) then None
      else
        var u := Join4(b[0], b[1], b[2], b[3]);
        if 0xFFFF < u < 0x11_0000 then Some(u) else None
  }

  function Decode(b: seq<Byte>): seq<Unit> {
    if b == [] then []
    else
      var p := PointAt(b);
      if p.Some? then UnitsOf(p.value) + Decode(b[Wanted(b[0])..]) else [REPLACEMENT] + Decode(b[1..])
  }

  // ----- Decoding undoes encoding -----

  lemma SplitTwo(p: int)
    requires 0 <= p < 0x800
    ensures Join2(p / 64 + 0xC0, p % 64 + 0x80) == p && IsContinuation(p % 64 + 0x80)
  {
  }

  lemma SplitThree(p: int)
    requires 0 <= p < 0x1_0000
    ensures Join3(p / 4096 + 0xE0, p / 64 % 64 + 0x80, p % 64 + 0x80) == p
    ensures IsContinuation(p / 64 % 64 + 0x80) && IsContinuation(p % 64 + 0x80)
  {
    var q := p / 64;
    assert p / 4096 == q / 64;
  }

  lemma SplitFour(p: int)
    requires 0 <= p < 0x11_0000
    ensures Join4(p / 262144 + 0xF0, p / 4096 % 64 + 0x80, p / 64 % 64 + 0x80, p % 64 + 0x80) == p
    ensures IsContinuation(p / 4096 % 64 + 0x80) && IsContinuation(p / 64 % 64 + 0x80) && IsContinuation(p % 64 + 0x80)
  {
    var q, r := p / 64, p / 4096;
    assert r == q / 64 && p / 262144 == r / 64;
  }

  lemma PointAtBytesOf(p: Point, rest: seq<Byte>)
    requires !IsSurrogate(p)
    ensures PointAt(BytesOf(p) + rest) == Some(p) && Wanted(BytesOf(p)[0]) == |BytesOf(p)|
  {
    hide Join2, Join3, Join4, IsContinuation;
    if p >= 0x1_0000 {
      SplitFour(p);
    } else if p >= 0x800 {
      SplitThree(p);
    } else if p >= 0x80 {
      SplitTwo(p);
    }
  }

  lemma {:induction false} DecodeEncodeAll(ps: seq<Point>)
    requires forall p :: p in ps ==> !IsSurrogate(p)
    ensures Decode(EncodeAll(ps)) == UnitsAll(ps)
  {
    if ps != [] {
      var b := EncodeAll(ps);
      PointAtBytesOf(ps[0], EncodeAll(ps[1..]));
      DecodeEncodeAll(ps[1..]);
      assert b[|BytesOf(ps[0])|..] == EncodeAll(ps[1..]);
    }
  }

  /** A string with every lone surrogate replaced. */
  function Repair(s: seq<Unit>): seq<Unit> {
    if s == [] then []
    else if StartsWithPair(s) then s[..2] + Repair(s[2..])
    else if IsSurrogate(s[0]) then [REPLACEMENT] + Repair(s[1..])
    else [s[0]] + Repair(s[1..])
  }

  predicate WellPaired(s: seq<Unit>) {
    if s == [] then true
    else if StartsWithPair(s) then WellPaired(s[2..])
    else !IsSurrogate(s[0]) && WellPaired(s[1..])
  }

  lemma PairRoundTrip(lead: Unit, trail: Unit)
    requires IsLead(lead) && IsTrail(trail)
    ensures UnitsOf(PairPoint(lead, trail)) == [lead, trail]
  {
  }

  lemma {:induction false} UnitsOfScalars(s: seq<Unit>)
    ensures UnitsAll(Scalars(s)) == Repair(s)
  {
    if s != [] {
      if StartsWithPair(s) {
        UnitsOfScalars(s[2..]);
        PairRoundTrip(s[0], s[1]);
        assert s[..2] == [s[0], s[1]];
      } else {
        UnitsOfScalars(s[1..]);
      }
    }
  }

  lemma {:induction false} RepairIsIdentity(s: seq<Unit>)
    ensures Repair(s) == s <==> WellPaired(s)
    ensures |Repair(s)| == |s|
  {
    if s != [] {
      if StartsWithPair(s) {
        RepairIsIdentity(s[2..]);
        assert s == s[..2] + s[2..];
        assert Repair(s)[2..] == Repair(s[2..]);
      } else {
        RepairIsIdentity(s[1..]);
        assert s == [s[0]] + s[1..];
        assert Repair(s)[1..] == Repair(s[1..]);
      }
    }
  }

  lemma UnitsKeepPairing(p: Point, rest: seq<Unit>)
    requires !IsSurrogate(p) && WellPaired(rest)
    ensures WellPaired(UnitsOf(p) + rest)
  {
    var us := UnitsOf(p) + rest;
    if p >= 0x1_0000 {
      assert us[2..] == rest;
    } else {
      assert us[1..] == rest;
    }
  }

  lemma PointsAreScalars(b: seq<Byte>)
    requires b != []
    ensures PointAt(b).Some? ==> !IsSurrogate(PointAt(b).value) && 1 <= Wanted(b[0]) <= |b|
  {
    hide Join2, Join3, Join4;
    if b[0] < 224 && b[0] > 191 && |b| >= 2 {
      JoinTwoIsSmall(b[0], b[1]);
    }
  }

  lemma JoinTwoIsSmall(a: int, b: int)
    ensures Join2(a, b) < 0x800
  {
  }

  /** Decoding any bytes whatever ends, and never yields an unpaired surrogate. */
  lemma {:induction false} DecodeIsWellPaired(b: seq<Byte>)
    ensures WellPaired(Decode(b))
  {
    if b != [] {
      hide PointAt, WellPaired, IsSurrogate;
      PointsAreScalars(b);
      if PointAt(b).Some? {
        DecodeIsWellPaired(b[Wanted(b[0])..]);
        UnitsKeepPairing(PointAt(b).value, Decode(b[Wanted(b[0])..]));
      } else {
        DecodeIsWellPaired(b[1..]);
        ReplacementIsScalar();
        UnitsKeepPairing(REPLACEMENT, Decode(b[1..]));
      }
    } else {
      assert WellPaired([]);
    }
  }

  lemma ReplacementIsScalar()
    ensures !IsSurrogate(REPLACEMENT) && UnitsOf(REPLACEMENT) == [REPLACEMENT]
  {
  }

  // ----- The encoder's loop: a lead waits for its trail -----

  /** What the encoder sends for s when no lead is waiting. */
  function Sent(s: seq<Unit>): seq<Point>
    decreases |s|, 1
  {
    if s == [] then []
    else if IsTrail(s[0]) || (IsLead(s[0]) && |s| == 1) then [REPLACEMENT] + Sent(s[1..])
    else if IsLead(s[0]) then SentWaiting(s)
    else [s[0]] + Sent(s[1..])
  }

  /** What it sends for s when the lead s[0] is waiting: nothing, if the string ends there. */
  function SentWaiting(s: seq<Unit>): seq<Point>
    requires s != [] && IsLead(s[0])
    decreases |s|, 0
  {
    if |s| == 1 then []
    else if IsLead(s[1]) then [REPLACEMENT] + SentWaiting(s[1..])
    else if IsTrail(s[1]) then [PairPoint(s[0], s[1])] + Sent(s[2..])
    else [REPLACEMENT, s[1]] + Sent(s[2..])
  }

  predicate EndsInTwoLeads(s: seq<Unit>) {
    |s| >= 2 && IsLead(s[|s| - 1]) && IsLead(s[|s| - 2])
  }

  /** The encoder does not see the second of two leads that end a string. */
  function Heard(s: seq<Unit>): seq<Unit> {
    if EndsInTwoLeads(s) then s[..|s| - 1] else s
  }

  lemma {:induction false} SentIsScalars(s: seq<Unit>)
    ensures Sent(s) == Scalars(Heard(s))
    decreases |s|, 1
  {
    if s != [] {
      if IsLead(s[0]) && |s| > 1 {
        SentWaitingIsScalars(s);
      } else {
        SentIsScalars(s[1..]);
        if |s| > 1 {
          assert Heard(s)[1..] == Heard(s[1..]) && Heard(s)[0] == s[0];
        }
      }
    }
  }

  lemma LeadFirst(h: seq<Unit>)
    requires h != [] && IsLead(h[0])
    ensures Scalars(h) == if |h| > 1 && IsTrail(h[1]) then [PairPoint(h[0], h[1])] + Scalars(h[2..])
                          else [REPLACEMENT] + Scalars(h[1..])
  {
    hide PairPoint;
  }

  lemma PlainFirst(h: seq<Unit>)
    requires h != [] && !IsSurrogate(h[0])
    ensures Scalars(h) == [h[0]] + Scalars(h[1..])
  {
  }

  lemma HeardHead(s: seq<Unit>)
    requires s != []
    ensures Heard(s) != [] && Heard(s)[0] == s[0]
  {
  }

  lemma LoneLead(s: seq<Unit>)
    requires |s| == 2 && IsLead(s[0]) && IsLead(s[1])
    ensures Scalars(Heard(s)) == [REPLACEMENT]
  {
    assert Heard(s) == [s[0]];
    assert Scalars([s[0]][1..]) == [];
  }

  lemma {:induction false} SentWaitingIsScalars(s: seq<Unit>)
    requires s != [] && IsLead(s[0])
    ensures SentWaiting(s) == if |s| == 1 then [] else Scalars(Heard(s))
    decreases |s|, 0
  {
    hide PairPoint, Heard, Scalars, Sent;
    if |s| == 2 && IsLead(s[1]) {
      LoneLead(s);
      assert SentWaiting(s[1..]) == [];
    } else if |s| > 1 {
      var h := Heard(s);
      HeardHead(s);
      LeadFirst(h);
      HeardDrop(s, 1);
      HeardHead(s[1..]);
      if IsLead(s[1]) {
        SentWaitingIsScalars(s[1..]);
      } else {
        HeardDrop(s, 2);
        SentIsScalars(s[2..]);
        assert h[1..][1..] == h[2..] && h[1..][0] == s[1];
        if !IsTrail(s[1]) {
          PlainFirst(h[1..]);
        }
      }
    }
  }

  lemma HeardDrop(s: seq<Unit>, k: nat)
    requires k <= |s| && (|s| - k >= 2 || !EndsInTwoLeads(s))
    ensures k <= |Heard(s)| && Heard(s)[k..] == Heard(s[k..])
    ensures forall j: nat | j < k :: Heard(s)[j] == s[j]
  {
  }

  function Encode(s: seq<Unit>): seq<Byte> {
    EncodeAll(Sent(s))
  }

  /** Decoding an encoded string gives it back, lone surrogates replaced; one at the very end is
      missing if another lead stands before it. */
  lemma DecodeEncode(s: seq<Unit>)
    ensures Decode(Encode(s)) == Repair(Heard(s))
  {
    SentIsScalars(s);
    UnitsOfScalars(Heard(s));
    DecodeEncodeAll(Scalars(Heard(s)));
  }

  /** The round trip is exact on the strings without lone surrogates, and only on them. */
  lemma RoundTrip(s: seq<Unit>)
    ensures Decode(Encode(s)) == s <==> WellPaired(s)
  {
    DecodeEncode(s);
    RepairIsIdentity(s);
    RepairIsIdentity(Heard(s));
    if EndsInTwoLeads(s) {
      TwoLeadsAreUnpaired(s);
    }
  }

  lemma {:induction false} TwoLeadsAreUnpaired(s: seq<Unit>)
    requires EndsInTwoLeads(s)
    ensures !WellPaired(s)
  {
    if StartsWithPair(s) {
      TwoLeadsAreUnpaired(s[2..]);
    } else if !IsSurrogate(s[0]) {
      TwoLeadsAreUnpaired(s[1..]);
    }
  }

  /** Every lone surrogate becomes EF BF BD exactly if the string does not end in two leads. */
  lemma LoneSurrogatesAreReplaced(s: seq<Unit>)
    ensures Encode(s) == EncodeAll(Scalars(s)) <==> !EndsInTwoLeads(s)
    ensures BytesOf(REPLACEMENT) == [0xEF, 0xBF, 0xBD]
  {
    SentIsScalars(s);
    if EndsInTwoLeads(s) {
      LastLead(s);
    }
  }

  lemma ReplacementBytes()
    ensures BytesOf(REPLACEMENT) == [0xEF, 0xBF, 0xBD]
  {
  }

  lemma {:induction false} LastLead(s: seq<Unit>)
    requires EndsInTwoLeads(s)
    ensures |EncodeAll(Scalars(s))| == |EncodeAll(Scalars(s[..|s| - 1]))| + 3
    decreases |s|
  {
    hide BytesOf, PairPoint;
    assert |BytesOf(REPLACEMENT)| == 3 by { ReplacementBytes(); }
    var front := s[..|s| - 1];
    if |s| == 2 {
      assert front == [s[0]] && s[1..] == [s[1]] && front[1..] == [] && s[1..][1..] == [];
    } else {
      var k := if StartsWithPair(s) then 2 else 1;
      assert front[k..] == s[k..][..|s[k..]| - 1] && front[0] == s[0] && front[1] == s[1];
      LastLead(s[k..]);
    }
  }

  /** The shortest such string: two leads give one replacement. */
  lemma TwoLeads()
    ensures Encode([0xD800, 0xD800]) == [0xEF, 0xBF, 0xBD]
  {
    SentIsScalars([0xD800, 0xD800]);
    assert Heard([0xD800, 0xD800]) == [0xD800];
    assert Scalars([0xD800]) == [REPLACEMENT];
  }
}
