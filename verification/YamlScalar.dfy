/** Reading a double-quoted scalar as js-yaml does, and that it undoes `escapeString`.
    The input ends with its only NUL. */
module YamlScalar {
  import opened Wrappers
  import opened Utf8
  import opened Words
  import opened YamlEscape

  /** Where the reader stands, and what it notes about lines on the way. */
  datatype Cursor = Cursor(position: nat, line: nat, lineStart: nat, lineIndent: nat, firstTabInLine: int)

  datatype Error = BadCharacter | UnknownEscape | ExpectedHex | DocumentEnd | StreamEnd
  datatype Outcome = Scalar(text: seq<Unit>, next: Cursor) | Fails(error: Error)

  predicate IsInput(inp: seq<Unit>) {
    inp != [] && inp[|inp| - 1] == 0
  }

  predicate IsEol(u: int) { u == 10 || u == 13 }
  predicate IsBlank(u: int) { u == 9 || u == 32 }

  // ----- Line breaks -----

  function ReadLineBreak(inp: seq<Unit>, c: Cursor): (r: Cursor)
    requires IsInput(inp) && c.position < |inp| && IsEol(inp[c.position])
    ensures c.position < r.position < |inp|
  {
    var p := if inp[c.position] == 13 && inp[c.position + 1] == 10 then c.position + 2 else c.position + 1;
    c.(position := p, line := c.line + 1, lineStart := p, firstTabInLine := -1)
  }

  function SkipBlanks(inp: seq<Unit>, c: Cursor): (r: Cursor)
    requires IsInput(inp) && c.position < |inp|
    ensures c.position <= r.position < |inp|
    decreases |inp| - c.position
  {
    var ch := inp[c.position];
    if !IsBlank(ch) then c
    else
      var tab := if ch == 9 && c.firstTabInLine == -1 then c.position else c.firstTabInLine;
      SkipBlanks(inp, c.(position := c.position + 1, firstTabInLine := tab))
  }

  function SkipIndent(inp: seq<Unit>, c: Cursor): (r: Cursor)
    requires IsInput(inp) && c.position < |inp|
    ensures c.position <= r.position < |inp|
    decreases |inp| - c.position
  {
    if inp[c.position] != 32 then c
    else SkipIndent(inp, c.(position := c.position + 1, lineIndent := c.lineIndent + 1))
  }

  /** Skip blanks and line breaks, and count the breaks. */
  function Skip(inp: seq<Unit>, c: Cursor): (r: (Cursor, nat))
    requires IsInput(inp) && c.position < |inp|
    ensures c.position <= r.0.position < |inp|
    ensures IsEol(inp[c.position]) ==> c.position < r.0.position
    decreases |inp| - c.position
  {
    if inp[c.position] == 0 then (c, 0)
    else
      var c := SkipBlanks(inp, c);
      if !IsEol(inp[c.position]) then (c, 0)
      else
        var (last, n) := Skip(inp, SkipIndent(inp, ReadLineBreak(inp, c).(lineIndent := 0)));
        (last, n + 1)
  }

  function LineFeeds(k: nat): seq<Unit> {
    if k == 0 then [] else LineFeeds(k - 1) + [10]
  }

  /** One line break folds to a blank, more to one less. */
  function Folded(breaks: nat): seq<Unit> {
    if breaks == 1 then [32] else if breaks > 1 then LineFeeds(breaks - 1) else []
  }

  // ----- Escapes -----

  function SimpleEscape(u: int): Option<Unit> {
    if u == 48 then Some(0)
    else if u == 97 then Some(7)
    else if u == 98 then Some(8)
    else if u == 116 || u == 9 then Some(9)
    else if u == 110 then Some(10)
    else if u == 118 then Some(11)
    else if u == 102 then Some(12)
    else if u == 114 then Some(13)
    else if u == 101 then Some(27)
    else if u == 32 then Some(32)
    else if u == 34 then Some(34)
    else if u == 47 then Some(47)
    else if u == 92 then Some(92)
    else if u == 78 then Some(133)
    else if u == 95 then Some(160)
    else if u == 76 then Some(0x2028)
    else if u == 80 then Some(0x2029)
    else None
  }

  function HexWidth(u: int): nat {
    if u == 120 then 2 else if u == 117 then 4 else if u == 85 then 8 else 0
  }

  /** 32 | u */
  function LowerCase(u: Unit): int {
    if u / 32 % 2 == 0 then u + 32 else u
  }

  /** The value of a hexadecimal digit of either case, or -1. */
  function FromHexCode(u: Unit): int {
    if 48 <= u <= 57 then u - 48
    else if 97 <= LowerCase(u) <= 102 then LowerCase(u) - 97 + 10
    else -1
  }

  /** The number read from digits one after the other, in 32 bits. */
  function HexValue(ds: seq<Unit>): int {
    if ds == [] then 0 else ToInt32(HexValue(ds[..|ds| - 1]) * 16) + FromHexCode(ds[|ds| - 1])
  }

  function CharFromCodepoint(n: int): seq<Unit> {
    if n <= 0xFFFF then [n % 0x1_0000]
    else [(0xD800 + (n - 0x1_0000) / 1024) % 0x1_0000, 0xDC00 + (n - 0x1_0000) % 1024]
  }

  predicate AreHex(ds: seq<Unit>) {
    forall u :: u in ds ==> FromHexCode(u) >= 0
  }

  /** The characters from p on are w hexadecimal digits. */
  predicate HexAt(inp: seq<Unit>, p: nat, w: nat) {
    p + w <= |inp| && AreHex(inp[p..p + w])
  }

  /** What stands behind a backslash, c being at the character after it. */
  function ReadEscape(inp: seq<Unit>, c: Cursor): (r: Outcome)
    requires IsInput(inp) && c.position < |inp|
    ensures r.Scalar? ==> c.position < r.next.position < |inp|
  {
    var ch := inp[c.position];
    if IsEol(ch) then Scalar([], Skip(inp, c).0)
    else if SimpleEscape(ch).Some? then Scalar([SimpleEscape(ch).value], c.(position := c.position + 1))
    else if HexWidth(ch) == 0 then Fails(UnknownEscape)
    else
      var p, w := c.position + 1, HexWidth(ch);
      if !HexAt(inp, p, w) then Fails(ExpectedHex)
      else
        DigitsEndEarly(inp, p, w);
        Scalar(CharFromCodepoint(HexValue(inp[p..p + w])), c.(position := p + w))
  }

  /** The final NUL is no digit. */
  lemma DigitsEndEarly(inp: seq<Unit>, p: nat, w: nat)
    requires IsInput(inp) && p <= |inp| && HexAt(inp, p, w) && w > 0
    ensures p + w < |inp|
  {
    var ds := inp[p..p + w];
    assert ds[w - 1] in ds;
    assert ds[w - 1] == inp[p + w - 1] != 0;
  }

  // ----- The scalar -----

  predicate IsJson(u: int) {
    u == 9 || u >= 32
  }

  predicate AllJson(us: seq<Unit>) {
    forall u :: u in us ==> IsJson(u)
  }

  /** `---` or `...` followed by a blank, a line break or the end. */
  predicate SeparatorAt(inp: seq<Unit>, p: nat)
    requires IsInput(inp) && p < |inp|
  {
    && (inp[p] == 45 || inp[p] == 46)
    && inp[p + 1] == inp[p] && inp[p + 2] == inp[p]
    && (var ch := inp[p + 3]; ch == 0 || IsBlank(ch) || IsEol(ch))
  }

  function Prepend(text: seq<Unit>, o: Outcome): Outcome {
    if o.Scalar? then Scalar(text + o.text, o.next) else o
  }

  /** Read on at c, with the characters from start to c not yet taken. */
  function Scan(inp: seq<Unit>, start: nat, c: Cursor): Outcome
    requires IsInput(inp) && start <= c.position < |inp|
    decreases |inp| - c.position
  {
    var ch := inp[c.position];
    var segment := inp[start..c.position];
    if ch == 0 then Fails(StreamEnd)
    else if ch == QUOTE then
      if AllJson(segment) then Scalar(segment, c.(position := c.position + 1)) else Fails(BadCharacter)
    else if ch == BACKSLASH then
      if !AllJson(segment) then Fails(BadCharacter)
      else
        var e := ReadEscape(inp, c.(position := c.position + 1));
        if e.Fails? then e else Prepend(segment + e.text, Scan(inp, e.next.position, e.next))
    else if IsEol(ch) then
      if !AllJson(segment) then Fails(BadCharacter)
      else
        var (next, n) := Skip(inp, c);
        Prepend(segment + Folded(n), Scan(inp, next.position, next))
    else if c.position == c.lineStart && SeparatorAt(inp, c.position) then Fails(DocumentEnd)
    else Scan(inp, start, c.(position := c.position + 1))
  }

  // ----- Hexadecimal round trip -----

  lemma {:induction false} HexValueOfZeros(k: int)
    ensures HexValue(Zeros(k)) == 0 && |Zeros(k)| == (if k < 0 then 0 else k) && AreHex(Zeros(k))
  {
    hide AreHex, FromHexCode, ToInt32;
    if k > 0 {
      HexValueOfZeros(k - 1);
      HexValueSnoc(Zeros(k - 1), 0);
    } else {
      assert AreHex([]) by { NoDigits(); }
    }
  }

  lemma NoDigits()
    ensures AreHex([]) && HexValue([]) == 0
  {
  }

  lemma HexDigitRoundTrip(d: int)
    requires 0 <= d < 16
    ensures FromHexCode(HexDigit(d)) == d
  {
  }

  lemma HexValueSnoc(ds: seq<Unit>, d: int)
    requires 0 <= d < 16 && 0 <= HexValue(ds) < 0x800_0000 && AreHex(ds)
    ensures HexValue(ds + [HexDigit(d)]) == HexValue(ds) * 16 + d && AreHex(ds + [HexDigit(d)])
  {
    HexDigitRoundTrip(d);
    assert (ds + [HexDigit(d)])[..|ds|] == ds;
  }

  /** Padded digits read back as the number. */
  lemma {:induction false} HexRoundTrip(k: int, n: nat)
    requires n < 0x8000_0000
    ensures HexValue(Zeros(k) + ToHex(n)) == n && AreHex(Zeros(k) + ToHex(n))
  {
    hide HexValue, FromHexCode, HexDigit, AreHex, ToInt32;
    if n < 16 {
      HexValueOfZeros(k);
      HexValueSnoc(Zeros(k), n);
    } else {
      HexRoundTrip(k, n / 16);
      HexValueSnoc(Zeros(k) + ToHex(n / 16), n % 16);
      assert Zeros(k) + ToHex(n) == Zeros(k) + ToHex(n / 16) + [HexDigit(n % 16)];
    }
  }

  lemma {:induction false} HexLength(n: nat, w: nat, bound: nat)
    requires n < bound && w > 0
    requires (w == 1 && bound == 0x10) || (w == 2 && bound == 0x100) || (w == 4 && bound == 0x1_0000) || (w == 8
        && bound == 0x1_0000_0000)
    ensures |ToHex(n)| <= w
  {
    assert |ToHex(n / 16)| + 1 >= |ToHex(n)|;
    var a := n / 16;
    assert |ToHex(a / 16)| + 1 >= |ToHex(a)|;
    if w == 4 {
      HexLength(a / 16, 2, 0x100);
    } else if w == 8 {
      var b := a / 16;
      var c := b / 16;
      assert |ToHex(c)| + 1 >= |ToHex(b)|;
      var d := c / 16;
      assert |ToHex(d)| + 1 >= |ToHex(c)|;
      HexLength(d, 4, 0x1_0000);
    }
  }

  // ----- One escaped character -----

  /** inp continues with text at p. */
  predicate At(inp: seq<Unit>, p: nat, text: seq<Unit>) {
    p + |text| < |inp| && inp[p..p + |text|] == text
  }

  lemma AtSplit(inp: seq<Unit>, p: nat, a: seq<Unit>, b: seq<Unit>)
    requires At(inp, p, a + b)
    ensures At(inp, p, a) && At(inp, p + |a|, b) && p + |a| + |b| < |inp|
  {
    var t := inp[p..p + |a + b|];
    assert inp[p..p + |a|] == t[..|a|] == a;
    assert inp[p + |a|..p + |a| + |b|] == t[|a|..] == b;
  }

  lemma ShortEscapeRoundTrip(p: int)
    ensures ShortEscape(p).Some? ==> var e := ShortEscape(p).value; !IsEol(e) && e != 0 && SimpleEscape(e) == Some(p)
  {
  }

  lemma CodepointRoundTrip(p: Point)
    ensures CharFromCodepoint(p) == UnitsOf(p)
  {
  }

  lemma HexEscapeRoundTrip(inp: seq<Unit>, c: Cursor, p: Point)
    requires IsInput(inp) && At(inp, c.position, EncodeHex(p)[1..])
    ensures ReadEscape(inp, c) == Scalar(UnitsOf(p), c.(position := c.position + |EncodeHex(p)| - 1))
  {
    hide HexValue, CharFromCodepoint, ToHex, Zeros, AreHex, Skip, UnitsOf;
    var (letter, width) := HexForm(p);
    var ds := Zeros(width - |ToHex(p)|) + ToHex(p);
    assert EncodeHex(p)[1..] == [letter] + ds;
    AtSplit(inp, c.position, [letter], ds);
    assert inp[c.position] == inp[c.position..c.position + 1][0] == letter;
    HexLength(p, width, if width == 2 then 0x100 else if width == 4 then 0x1_0000 else 0x1_0000_0000);
    HexValueOfZeros(width - |ToHex(p)|);
    HexRoundTrip(width - |ToHex(p)|, p);
    CodepointRoundTrip(p);
  }

  lemma StartsWithBackslash(p: Point)
    requires ShortEscape(p).Some? || !IsPrintable(p)
    ensures EscapePoint(p) == [BACKSLASH] + EscapePoint(p)[1..]
    ensures ShortEscape(p).None? ==> EscapePoint(p) == EncodeHex(p)
  {
    hide ShortEscape, IsPrintable;
  }

  /** After a backslash escape, reading goes on behind it. */
  lemma ScanEscape(inp: seq<Unit>, start: nat, c: Cursor, p: Point)
    requires IsInput(inp) && start <= c.position < |inp| && AllJson(inp[start..c.position])
    requires (ShortEscape(p).Some? || !IsPrintable(p)) && At(inp, c.position, EscapePoint(p))
    ensures var next := c.(position := c.position + |EscapePoint(p)|);
            Scan(inp, start, c) == Prepend(inp[start..c.position] + UnitsOf(p), Scan(inp, next.position, next))
  {
    hide Skip, EncodeHex, UnitsOf, CharFromCodepoint, HexAt, HexValue, ShortEscape, SimpleEscape, AllJson,
        IsPrintable, SeparatorAt;
    var e := EscapePoint(p);
    StartsWithBackslash(p);
    AtSplit(inp, c.position, [BACKSLASH], e[1..]);
    assert inp[c.position] == inp[c.position..c.position + 1][0] == BACKSLASH;
    var behind := c.(position := c.position + 1);
    if ShortEscape(p).Some? {
      ShortEscapeRoundTrip(p);
      var letter := ShortEscape(p).value;
      assert inp[behind.position] == inp[behind.position..behind.position + 1][0] == letter;
      assert ReadEscape(inp, behind) == Scalar([p], behind.(position := behind.position + 1));
      ShortAreUnits(p);
    } else {
      HexEscapeRoundTrip(inp, behind, p);
    }
  }

  lemma ShortAreUnits(p: Point)
    ensures ShortEscape(p).Some? ==> UnitsOf(p) == [p]
  {
  }

  /** A character that may stand for itself. */
  predicate IsPlain(u: int) {
    IsJson(u) && u != QUOTE && u != BACKSLASH && !IsEol(u)
  }

  lemma PrintableIsPlain(p: Point)
    requires ShortEscape(p).None? && IsPrintable(p)
    ensures EscapePoint(p) == UnitsOf(p) && forall u :: u in UnitsOf(p) ==> IsPlain(u)
  {
  }

  lemma ScanPlainUnit(inp: seq<Unit>, start: nat, c: Cursor)
    requires IsInput(inp) && start <= c.position < |inp| - 1 && AllJson(inp[start..c.position])
    requires c.lineStart < c.position && IsPlain(inp[c.position])
    ensures AllJson(inp[start..c.position + 1])
    ensures Scan(inp, start, c) == Scan(inp, start, c.(position := c.position + 1))
  {
    assert inp[start..c.position + 1] == inp[start..c.position] + [inp[c.position]];
  }

  lemma ScanPrintable(inp: seq<Unit>, start: nat, c: Cursor, us: seq<Unit>)
    requires IsInput(inp) && start <= c.position < |inp| && AllJson(inp[start..c.position])
    requires c.lineStart < c.position && At(inp, c.position, us) && 1 <= |us| <= 2
    requires forall u :: u in us ==> IsPlain(u)
    ensures AllJson(inp[start..c.position + |us|])
    ensures Scan(inp, start, c) == Scan(inp, start, c.(position := c.position + |us|))
  {
    hide Scan, AllJson, IsPlain;
    var t := inp[c.position..c.position + |us|];
    assert inp[c.position] == t[0] == us[0];
    assert us[0] in us;
    ScanPlainUnit(inp, start, c);
    if |us| == 2 {
      assert inp[c.position + 1] == t[1] == us[1];
      assert us[1] in us;
      ScanPlainUnit(inp, start, c.(position := c.position + 1));
    }
  }

  // ----- The whole scalar -----

  /** The reader stands before an escaped string and its closing quote. */
  ghost predicate Ready(inp: seq<Unit>, start: nat, c: Cursor, s: seq<Unit>) {
    && IsInput(inp) && start <= c.position < |inp| && c.lineStart < c.position
    && At(inp, c.position, Escape(s) + [QUOTE]) && AllJson(inp[start..c.position])
  }

  /** It reads the string and stops behind the quote. */
  ghost predicate ReadsBack(inp: seq<Unit>, start: nat, c: Cursor, s: seq<Unit>)
    requires Ready(inp, start, c, s)
  {
    Scan(inp, start, c) == Scalar(inp[start..c.position] + s, c.(position := c.position + |Escape(s)| + 1))
  }

  /** The first character of s is written with a backslash. */
  predicate IsEscaped(s: seq<Unit>)
    requires s != []
  {
    ShortEscape(FirstPoint(s)).Some? || !IsPrintable(FirstPoint(s))
  }

  function Behind(c: Cursor, s: seq<Unit>): Cursor
    requires s != []
  {
    c.(position := c.position + |EscapePoint(FirstPoint(s))|)
  }

  function Tail(s: seq<Unit>): seq<Unit>
    requires s != []
  {
    s[|UnitsOf(FirstPoint(s))|..]
  }

  lemma {:induction false} ScanEscaped(inp: seq<Unit>, start: nat, c: Cursor, s: seq<Unit>)
    requires Ready(inp, start, c, s)
    ensures ReadsBack(inp, start, c, s)
    decreases |s|
  {
    hide Ready, ReadsBack, IsEscaped, Behind;
    if s == [] {
      AtQuote(inp, start, c);
    } else {
      var next := Behind(c, s);
      if IsEscaped(s) {
        ReadyAgain(inp, start, c, s);
        ScanEscaped(inp, next.position, next, Tail(s));
        EscapedReadsBack(inp, start, c, s);
      } else {
        ReadyAgain(inp, start, c, s);
        ScanEscaped(inp, start, next, Tail(s));
        PlainReadsBack(inp, start, c, s);
      }
    }
  }

  lemma AtTail(inp: seq<Unit>, start: nat, c: Cursor, s: seq<Unit>)
    requires Ready(inp, start, c, s) && s != []
    ensures At(inp, c.position, EscapePoint(FirstPoint(s)))
    ensures Behind(c, s).position < |inp| && At(inp, Behind(c, s).position, Escape(Tail(s)) + [QUOTE])
  {
    hide At, AllJson, Escape, EscapePoint, FirstPoint, UnitsOf;
    var es := EscapePoint(FirstPoint(s));
    EscapeHead(s);
    assert Escape(s) + [QUOTE] == es + (Escape(Tail(s)) + [QUOTE]);
    AtSplit(inp, c.position, es, Escape(Tail(s)) + [QUOTE]);
  }

  lemma ReadyAgain(inp: seq<Unit>, start: nat, c: Cursor, s: seq<Unit>)
    requires Ready(inp, start, c, s) && s != []
    ensures Ready(inp, if IsEscaped(s) then Behind(c, s).position else start, Behind(c, s), Tail(s))
  {
    hide At, AllJson, Escape, EscapePoint, FirstPoint, ShortEscape, IsPrintable, Tail;
    AtTail(inp, start, c, s);
    if IsEscaped(s) {
      NothingJson(inp, Behind(c, s).position);
    } else {
      AfterPrintable(inp, start, c, FirstPoint(s));
    }
  }

  lemma EscapedReadsBack(inp: seq<Unit>, start: nat, c: Cursor, s: seq<Unit>)
    requires Ready(inp, start, c, s) && s != [] && IsEscaped(s)
    requires Ready(inp, Behind(c, s).position, Behind(c, s), Tail(s))
    requires ReadsBack(inp, Behind(c, s).position, Behind(c, s), Tail(s))
    ensures ReadsBack(inp, start, c, s)
  {
    hide At, AllJson, Escape, EscapePoint, FirstPoint, UnitsOf, ShortEscape, IsPrintable, Scan;
    var p, next := FirstPoint(s), Behind(c, s);
    EscapeHead(s);
    AtTail(inp, start, c, s);
    ScanEscape(inp, start, c, p);
    assert inp[next.position..next.position] == [];
    Joined(inp[start..c.position], UnitsOf(p), Tail(s));
  }

  lemma PlainReadsBack(inp: seq<Unit>, start: nat, c: Cursor, s: seq<Unit>)
    requires Ready(inp, start, c, s) && s != [] && !IsEscaped(s)
    requires Ready(inp, start, Behind(c, s), Tail(s)) && ReadsBack(inp, start, Behind(c, s), Tail(s))
    ensures ReadsBack(inp, start, c, s)
  {
    hide At, AllJson, Escape, EscapePoint, FirstPoint, UnitsOf, ShortEscape, IsPrintable, Scan;
    var p := FirstPoint(s);
    EscapeHead(s);
    AtTail(inp, start, c, s);
    AfterPrintable(inp, start, c, p);
    Joined(inp[start..c.position], UnitsOf(p), Tail(s));
  }

  lemma Joined(a: seq<Unit>, b: seq<Unit>, r: seq<Unit>)
    ensures a + b + ([] + r) == a + b + r == a + (b + r)
  {
  }

  lemma SegmentGrows(inp: seq<Unit>, start: nat, p: nat, us: seq<Unit>)
    requires start <= p && At(inp, p, us)
    ensures p + |us| < |inp| && inp[start..p + |us|] == inp[start..p] + us
  {
    assert inp[start..p + |us|] == inp[start..p] + inp[p..p + |us|];
  }

  lemma AfterPrintable(inp: seq<Unit>, start: nat, c: Cursor, p: Point)
    requires IsInput(inp) && start <= c.position < |inp| && AllJson(inp[start..c.position])
    requires c.lineStart < c.position && At(inp, c.position, EscapePoint(p))
    requires ShortEscape(p).None? && IsPrintable(p)
    ensures var end := c.position + |EscapePoint(p)|;
            && end < |inp| && AllJson(inp[start..end]) && inp[start..end] == inp[start..c.position] + UnitsOf(p)
            && Scan(inp, start, c) == Scan(inp, start, c.(position := end))
  {
    hide Scan, AllJson, At, EscapePoint, ShortEscape, IsPrintable, IsPlain;
    PrintableIsPlain(p);
    ScanPrintable(inp, start, c, UnitsOf(p));
    SegmentGrows(inp, start, c.position, UnitsOf(p));
  }

  lemma EscapeHead(s: seq<Unit>)
    requires s != []
    ensures var p := FirstPoint(s);
            var rest := s[|UnitsOf(p)|..];
            rest == Tail(s) && s == UnitsOf(p) + rest && Escape(s) == EscapePoint(p) + Escape(rest)
  {
    hide EscapePoint, FirstPoint;
  }

  lemma NothingJson(inp: seq<Unit>, p: nat)
    requires p <= |inp|
    ensures inp[p..p] == [] && AllJson(inp[p..p])
  {
  }

  lemma AtQuote(inp: seq<Unit>, start: nat, c: Cursor)
    requires Ready(inp, start, c, [])
    ensures ReadsBack(inp, start, c, [])
  {
    assert Escape([]) + [QUOTE] == [QUOTE];
    assert inp[c.position] == inp[c.position..c.position + 1][0] == QUOTE;
    assert inp[start..c.position] + [] == inp[start..c.position];
  }

  /** Any string, lone surrogates included, wherever its quoted form stands in the input: reading it
      from behind the opening quote gives it back and ends behind the closing quote. */
  lemma RoundTrip(before: seq<Unit>, s: seq<Unit>, after: seq<Unit>, c: Cursor)
    requires IsInput(after) && c.position == |before| + 1 && c.lineStart <= |before|
    ensures var inp := before + [QUOTE] + Escape(s) + [QUOTE] + after;
            Scan(inp, c.position, c) == Scalar(s, c.(position := |before| + |Escape(s)| + 2))
  {
    hide Scan, Escape, AllJson;
    var inp := before + [QUOTE] + Escape(s) + [QUOTE] + after;
    var e := Escape(s) + [QUOTE];
    assert inp[c.position..c.position + |e|] == e;
    NothingJson(inp, c.position);
    ScanEscaped(inp, c.position, c, s);
    assert [] + s == s;
  }

  /** n line feeds are n line breaks, and the reader then stands at the start of a line. */
  lemma {:induction false} SkipCountsBreaks(inp: seq<Unit>, c: Cursor, n: nat)
    requires IsInput(inp) && c.position + n < |inp| && forall j :: c.position <= j < c.position + n ==> inp[j] == 10
    requires !IsBlank(inp[c.position + n]) && !IsEol(inp[c.position + n])
    ensures var (r, k) := Skip(inp, c);
            && k == n && r.position == c.position + n && r.line == c.line + n
            && (n > 0 ==> r.lineStart == r.position && r.lineIndent == 0)
    decreases n
  {
    assert SkipBlanks(inp, c) == c;
    if n > 0 {
      var next := ReadLineBreak(inp, c).(lineIndent := 0);
      assert SkipIndent(inp, next) == next;
      SkipCountsBreaks(inp, next, n - 1);
    }
  }
}
