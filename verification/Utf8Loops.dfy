/** The loops of `utf8ToBytes` and `utf8Slice`. */
module Utf8Loops {
  import opened Wrappers
  import opened Bytes
  import opened Utf8

  /** A number of bytes that may still be written: unlimited, or a count that may have been
      overdrawn. */
  datatype Budget = Endless | Left(n: int)

  function Spend(b: Budget, k: int): Budget {
    if b.Left? then Left(b.n - k) else b
  }

  predicate IsOver(b: Budget) {
    b.Left? && b.n < 0
  }

  /** As many whole code points as the budget allows. */
  function Fit(ps: seq<Point>, b: Budget): seq<Point> {
    if ps == [] || IsOver(Spend(b, |BytesOf(ps[0])|)) then []
    else [ps[0]] + Fit(ps[1..], Spend(b, |BytesOf(ps[0])|))
  }

  lemma {:induction false} EndlessFitsAll(ps: seq<Point>)
    ensures Fit(ps, Endless) == ps
  {
    if ps != [] {
      EndlessFitsAll(ps[1..]);
    }
  }

  /** A limit cuts the encoding between code points: what is sent is a prefix that keeps to the
      limit, and one more code point would break it. */
  lemma {:induction false} FitIsLongestPrefix(ps: seq<Point>, limit: nat)
    ensures var k := |Fit(ps, Left(limit))|;
            && k <= |ps| && Fit(ps, Left(limit)) == ps[..k]
            && |EncodeAll(ps[..k])| <= limit
            && (k < |ps| ==> |EncodeAll(ps[..k + 1])| > limit)
  {
    hide BytesOf;
    if ps != [] {
      var n := |BytesOf(ps[0])|;
      if n <= limit {
        FitIsLongestPrefix(ps[1..], limit - n);
        var k := |Fit(ps[1..], Left(limit - n))|;
        assert ps[..k + 1][1..] == ps[1..][..k];
        if k < |ps[1..]| {
          assert ps[..k + 2][1..] == ps[1..][..k + 1];
        }
      } else {
        assert ps[..1][1..] == [];
      }
    }
  }

  lemma OverIsNothing(ps: seq<Point>, b: Budget)
    requires IsOver(b)
    ensures Fit(ps, b) == []
  {
  }

  lemma FitHead(p: Point, rest: seq<Point>, b: Budget)
    ensures var c := Spend(b, |BytesOf(p)|);
            EncodeAll(Fit([p] + rest, b)) == if IsOver(c) then [] else BytesOf(p) + EncodeAll(Fit(rest, c))
  {
    assert ([p] + rest)[1..] == rest;
  }

  /** What is still to be sent when the loop stands at position a. */
  ghost function Rest(s: seq<Unit>, a: nat, lead: Option<Unit>): seq<Point>
    requires a <= |s| && (lead.Some? ==> a > 0 && IsLead(s[a - 1]))
  {
    if lead.Some? then SentWaiting(s[a - 1..]) else Sent(s[a..])
  }

  const REPLACEMENT_BYTES: seq<Byte> := [239, 191, 189]

  /** One turn of the loop, seen from what is still to be sent. */
  lemma RestStep(s: seq<Unit>, a: nat, lead: Option<Unit>)
    requires a < |s| && (lead.Some? ==> a > 0 && IsLead(s[a - 1]) && lead.value == s[a - 1])
    ensures var r, rest := s[a], Rest(s, a, lead);
            var next := if IsLead(r) && (lead.Some? || a + 1 < |s|) then Some(r) else None;
            var after := Rest(s, a + 1, next);
            rest == if lead.None? then
                      (if next.Some? then after else if IsSurrogate(r) then [REPLACEMENT] + after else [r] + after)
                    else if IsLead(r) then [REPLACEMENT] + after
                    else if IsTrail(r) then [PairPoint(lead.value, r)] + after
                    else [REPLACEMENT] + ([r] + after)
  {
    assert s[a..][1..] == s[a + 1..];
    if a > 0 {
      var t := s[a - 1..];
      assert t[1..] == s[a..] && t[2..] == s[a + 1..] && t[0] == s[a - 1] && t[1] == s[a];
    }
  }

  /** Room for a replacement is used up even where it does not fit. */
  method Replace(bytes: seq<Byte>, left: Budget, ghost rest: seq<Point>) returns (bytes': seq<Byte>, left': Budget)
    ensures bytes + EncodeAll(Fit([REPLACEMENT] + rest, left)) == bytes' + EncodeAll(Fit(rest, left'))
  {
    FitHead(REPLACEMENT, rest, left);
    NothingToEncode();
    left' := Spend(left, 3);
    if IsOver(left') {
      OverIsNothing(rest, left');
      bytes' := bytes;
    } else {
      bytes' := bytes + REPLACEMENT_BYTES;
    }
  }

  lemma NothingToEncode()
    ensures EncodeAll([]) == [] && BytesOf(REPLACEMENT) == REPLACEMENT_BYTES
  {
  }

  /** The body of the loop; over means that it breaks. */
  method Utf8Step(s: seq<Unit>, a: nat, bytes: seq<Byte>, left: Budget, lead: Option<Unit>)
    returns (bytes': seq<Byte>, left': Budget, lead': Option<Unit>, over: bool)
    requires a < |s| && (lead.Some? ==> a > 0 && IsLead(s[a - 1]) && lead.value == s[a - 1])
    ensures lead'.Some? ==> IsLead(s[a]) && lead'.value == s[a]
    ensures bytes + EncodeAll(Fit(Rest(s, a, lead), left))
         == if over then bytes' else bytes' + EncodeAll(Fit(Rest(s, a + 1, lead'), left'))
  {
    hide Rest, Fit, EncodeAll, BytesOf;
    RestStep(s, a, lead);
    bytes', left', lead', over := bytes, left, None, false;
    var r: Point := s[a];
    if IsSurrogate(r) {
      if lead.None? {
        if IsTrail(r) || a + 1 == |s| {
          bytes', left' := Replace(bytes, left, Rest(s, a + 1, None));
        } else {
          lead' := Some(s[a]);
        }
        return;
      }
      if IsLead(r) {
        bytes', left' := Replace(bytes, left, Rest(s, a + 1, Some(s[a])));
        lead' := Some(s[a]);
        return;
      }
      r := PairPoint(lead.value, s[a]);
    } else if lead.Some? {
      bytes', left' := Replace(bytes, left, [r] + Rest(s, a + 1, None));
    }
    FitHead(r, Rest(s, a + 1, None), left');
    left' := Spend(left', |BytesOf(r)|);
    over := IsOver(left');
    if !over {
      bytes' := bytes' + BytesOf(r);
    }
  }

  lemma NothingLeft(s: seq<Unit>, lead: Option<Unit>, b: Budget)
    requires lead.Some? ==> s != [] && IsLead(s[|s| - 1])
    ensures EncodeAll(Fit(Rest(s, |s|, lead), b)) == []
  {
    assert s[|s|..] == [];
  }

  lemma RestAtStart(s: seq<Unit>)
    ensures Rest(s, 0, None) == Sent(s)
  {
    assert s[0..] == s;
  }

  /** `utf8ToBytes` with its optional limit, where 0 means none. */
  method Utf8ToBytes(s: seq<Unit>, units: nat) returns (bytes: seq<Byte>)
    ensures bytes == EncodeAll(Fit(Sent(s), if units == 0 then Endless else Left(units)))
    ensures units == 0 ==> bytes == Encode(s)
    ensures units > 0 ==> |bytes| <= units
  {
    hide Fit, EncodeAll, Sent, SentWaiting, Rest;
    var left := if units == 0 then Endless else Left(units);
    EndlessFitsAll(Sent(s));
    FitIsLongestPrefix(Sent(s), units);
    ghost var goal := EncodeAll(Fit(Sent(s), left));
    var lead: Option<Unit> := None;
    bytes := [];
    var a := 0;
    RestAtStart(s);
    while a < |s|
      invariant a <= |s|
      invariant lead.Some? ==> a > 0 && lead.value == s[a - 1] && IsLead(s[a - 1])
      invariant goal == bytes + EncodeAll(Fit(Rest(s, a, lead), left))
      decreases |s| - a
    {
      var over;
      bytes, left, lead, over := Utf8Step(s, a, bytes, left, lead);
      if over {
        return;
      }
      a := a + 1;
    }
    NothingLeft(s, lead, left);
  }

  // ----- Decoding -----

  lemma DecodeNothing()
    ensures Decode([]) == []
  {
  }

  lemma DecodeHead(b: seq<Byte>)
    requires b != []
    ensures PointAt(b).Some? ==>
              1 <= Wanted(b[0]) <= |b| && Decode(b) == UnitsOf(PointAt(b).value) + Decode(b[Wanted(b[0])..])
    ensures PointAt(b).None? ==> Decode(b) == [REPLACEMENT] + Decode(b[1..])
  {
    hide PointAt, UnitsOf;
    PointsAreScalars(b);
  }

  const MAX_ARGUMENTS_LENGTH := 0x1000

  /** `utf8Slice` of b[start..end], where the end may lie beyond the buffer. */
  method Utf8Slice(b: seq<Byte>, start: nat, end: nat) returns (out: seq<Unit>)
    requires start <= |b| && start <= end
    ensures out == Decode(b[start..if end < |b| then end else |b|])
  {
    hide PointAt, Decode, UnitsOf, Wanted;
    var stop := if end < |b| then end else |b|;
    ghost var all := b[start..stop];
    var res: seq<Unit> := [];
    var i := start;
    while i < stop
      invariant start <= i <= stop
      invariant Decode(all) == res + Decode(b[i..stop])
    {
      var slice := b[i..stop];
      DecodeHead(slice);
      var p := PointAt(slice);
      if p.Some? {
        assert slice[Wanted(b[i])..] == b[i + Wanted(b[i])..stop];
        res := res + UnitsOf(p.value);
        i := i + Wanted(b[i]);
      } else {
        assert slice[1..] == b[i + 1..stop];
        res := res + [REPLACEMENT];
        i := i + 1;
      }
    }
    DecodeNothing();
    assert b[i..stop] == [];
    out := DecodeCodePointsArray(res);
  }

  /** Joining a string from runs of at most 4096 units loses and repeats nothing. */
  method DecodeCodePointsArray(units: seq<Unit>) returns (out: seq<Unit>)
    ensures out == units
  {
    if |units| <= MAX_ARGUMENTS_LENGTH {
      return units;
    }
    out := [];
    var i := 0;
    while i < |units|
      invariant out == units[..if i < |units| then i else |units|]
    {
      var next := i + MAX_ARGUMENTS_LENGTH;
      out := out + units[i..if next < |units| then next else |units|];
      i := next;
    }
  }
}
