/** js-yaml's `escapeString`: how a string is written between double quotes. */
module YamlEscape {
  import opened Wrappers
  import opened Utf8

  const QUOTE: Unit := 34
  const BACKSLASH: Unit := 92

  /** The letter that stands behind a backslash for one of fifteen characters. */
  function ShortEscape(p: int): Option<Unit> {
    if p == 0 then Some(48)
    else if 7 <= p <= 13 then Some([97, 98, 116, 110, 118, 102, 114][p - 7])
    else if p == 27 then Some(101)
    else if p == 34 then Some(34)
    else if p == 92 then Some(92)
    else if p == 133 then Some(78)
    else if p == 160 then Some(95)
    else if p == 0x2028 then Some(76)
    else if p == 0x2029 then Some(80)
    else None
  }

  predicate IsPrintable(p: int) {
    || 32 <= p <= 126
    || (161 <= p <= 0xD7FF && p != 0x2028 && p != 0x2029)
    || (0xE000 <= p <= 0xFFFD && p != 0xFEFF)
    || 0x1_0000 <= p <= 0x10_FFFF
  }

  /** An upper-case hexadecimal digit. */
  function HexDigit(d: int): Unit
    requires 0 <= d < 16
  {
    if d < 10 then 48 + d else 55 + d
  }

  function ToHex(n: nat): (ds: seq<Unit>)
    ensures ds != []
  {
    if n < 16 then [HexDigit(n)] else ToHex(n / 16) + [HexDigit(n % 16)]
  }

  function Zeros(k: int): seq<Unit> {
    if k <= 0 then [] else Zeros(k - 1) + [48]
  }

  /** The letter and the number of digits of a hexadecimal escape. */
  function HexForm(p: Point): (Unit, nat) {
    if p <= 0xFF then (120, 2) else if p <= 0xFFFF then (117, 4) else (85, 8)
  }

  function EncodeHex(p: Point): seq<Unit> {
    var (letter, width) := HexForm(p);
    [BACKSLASH, letter] + (Zeros(width - |ToHex(p)|) + ToHex(p))
  }

  function EscapePoint(p: Point): seq<Unit> {
    if ShortEscape(p).Some? then [BACKSLASH, ShortEscape(p).value]
    else if IsPrintable(p) then UnitsOf(p)
    else EncodeHex(p)
  }

  /** The code point at the start of s; a lone surrogate counts as one. */
  function FirstPoint(s: seq<Unit>): (p: Point)
    requires s != []
    ensures UnitsOf(p) <= s && |UnitsOf(p)| == (if p >= 0x1_0000 then 2 else 1)
  {
    if StartsWithPair(s) then PairPoint(s[0], s[1]) else s[0]
  }

  function Escape(s: seq<Unit>): seq<Unit> {
    if s == [] then [] else EscapePoint(FirstPoint(s)) + Escape(s[|UnitsOf(FirstPoint(s))|..])
  }

  lemma EscapeNext(s: seq<Unit>, i: nat)
    requires i < |s|
    ensures Escape(s[i..]) == EscapePoint(FirstPoint(s[i..])) + Escape(s[i + |UnitsOf(FirstPoint(s[i..]))|..])
  {
    hide EscapePoint, FirstPoint;
    var n := |UnitsOf(FirstPoint(s[i..]))|;
    assert s[i..][n..] == s[i + n..];
  }

  lemma PointByIndex(s: seq<Unit>, i: nat)
    requires i < |s|
    ensures FirstPoint(s[i..])
         == if IsLead(s[i]) && i + 1 < |s| && IsTrail(s[i + 1]) then PairPoint(s[i], s[i + 1]) else s[i]
  {
  }

  method CodePointAt(s: seq<Unit>, i: nat) returns (p: Point)
    requires i < |s|
    ensures p == FirstPoint(s[i..])
  {
    PointByIndex(s, i);
    if IsLead(s[i]) && i + 1 < |s| && IsTrail(s[i + 1]) {
      return PairPoint(s[i], s[i + 1]);
    }
    return s[i];
  }

  lemma FirstUnits(s: seq<Unit>, i: nat)
    requires i < |s|
    ensures var p := FirstPoint(s[i..]);
            UnitsOf(p) == if p >= 0x1_0000 then [s[i], s[i + 1]] else [s[i]]
  {
    var p := FirstPoint(s[i..]);
    assert s[i..][..|UnitsOf(p)|] == UnitsOf(p);
  }

  /** The body of the loop. */
  method EscapeStep(s: seq<Unit>, i: nat, r: seq<Unit>) returns (r': seq<Unit>, n: Point)
    requires i < |s|
    ensures n == FirstPoint(s[i..]) && r' == r + EscapePoint(n)
  {
    hide FirstPoint, EncodeHex, ShortEscape, IsPrintable, UnitsOf;
    n := CodePointAt(s, i);
    if ShortEscape(n).None? && IsPrintable(n) {
      FirstUnits(s, i);
      r' := r + [s[i]];
      if n >= 0x1_0000 {
        r' := r' + [s[i + 1]];
        assert r' == r + [s[i], s[i + 1]];
      }
    } else {
      r' := r + if ShortEscape(n).Some? then [BACKSLASH, ShortEscape(n).value] else EncodeHex(n);
    }
  }

  method EscapeString(s: seq<Unit>) returns (r: seq<Unit>)
    ensures r == Escape(s)
  {
    hide Escape, EscapePoint, FirstPoint, UnitsOf;
    r := [];
    var i := 0;
    assert s[0..] == s;
    while i < |s|
      invariant i <= |s| && Escape(s) == r + Escape(s[i..])
    {
      EscapeNext(s, i);
      var n;
      r, n := EscapeStep(s, i, r);
      i := i + if n >= 0x1_0000 then 2 else 1;
    }
    NothingEscapes();
    assert s[i..] == [];
  }

  lemma NothingEscapes()
    ensures Escape([]) == []
  {
  }
}
