/** What `escapeString` writes, character by character: which characters stand for themselves, and
    the form of every other one. */
module YamlForms {
  import opened Sequences
  import opened Utf8
  import opened YamlEscape

  // ----- One code point at a time -----

  /** Whether the seam between a and b is inside a surrogate pair. */
  predicate TearsPair(a: seq<Unit>, b: seq<Unit>) {
    a != [] && b != [] && 0xD800 <= a[|a| - 1] <= 0xDBFF && 0xDC00 <= b[0] <= 0xDFFF
  }

  /** Unless a surrogate pair is torn, strings are escaped piece by piece. */
  lemma {:induction false} EscapeConcat(a: seq<Unit>, b: seq<Unit>)
    requires !TearsPair(a, b)
    ensures Escape(a + b) == Escape(a) + Escape(b)
    decreases |a|
  {
    hide EscapePoint, Escape, FirstPoint, UnitsOf, TearsPair;
    if a == [] {
      assert a + b == b;
      EscapeNothing();
      assert [] + Escape(b) == Escape(b);
    } else {
      SameFirst(a, b);
      var n := |UnitsOf(FirstPoint(a))|;
      var front, rest := EscapePoint(FirstPoint(a)), a[n..];
      EscapeFirst(a);
      EscapeFirst(a + b);
      assert (a + b)[n..] == rest + b;
      EscapeConcat(rest, b);
      Regroup(front, Escape(rest), Escape(b));
    }
  }

  lemma EscapeNothing()
    ensures Escape([]) == []
  {
  }

  lemma SameFirst(a: seq<Unit>, b: seq<Unit>)
    requires a != [] && !TearsPair(a, b)
    ensures var n := |UnitsOf(FirstPoint(a))|;
            FirstPoint(a + b) == FirstPoint(a) && n <= |a| && !TearsPair(a[n..], b)
  {
    hide UnitsOf, PairPoint;
    assert |a| > 1 ==> (a + b)[1] == a[1];
    assert |a| == 1 && b != [] ==> (a + b)[1] == b[0];
  }

  lemma EscapeFirst(s: seq<Unit>)
    requires s != []
    ensures Escape(s) == EscapePoint(FirstPoint(s)) + Escape(s[|UnitsOf(FirstPoint(s))|..])
  {
    hide EscapePoint, FirstPoint, UnitsOf;
  }

  lemma EscapeUnits(p: Point)
    ensures Escape(UnitsOf(p)) == EscapePoint(p)
  {
    hide EscapePoint;
    var us := UnitsOf(p);
    assert FirstPoint(us) == p;
    assert us[|us|..] == [] && Escape([]) == [];
    EscapeFirst(us);
    assert EscapePoint(p) + [] == EscapePoint(p);
  }

  // ----- The forms -----

  /** The number that upper-case hexadecimal digits stand for. */
  function Base16(ds: seq<Unit>): int {
    if ds == [] then 0
    else 16 * Base16(ds[..|ds| - 1]) + ds[|ds| - 1] - if ds[|ds| - 1] <= 57 then 48 else 55
  }

  predicate AreUpperDigits(ds: seq<Unit>) {
    forall u :: u in ds ==> 48 <= u <= 57 || 65 <= u <= 70
  }

  /** The fifteen short forms: a backslash and a letter. */
  lemma ShortForms(k: nat)
    requires k < 15
    ensures Escape([[0, 7, 8, 9, 10, 11, 12, 13, 27, 34, 92, 133, 160, 0x2028, 0x2029][k]])
         == [92, [48, 97, 98, 116, 110, 118, 102, 114, 101, 34, 92, 78, 95, 76, 80][k]]
  {
    var p := [0, 7, 8, 9, 10, 11, 12, 13, 27, 34, 92, 133, 160, 0x2028, 0x2029][k];
    assert UnitsOf(p) == [p];
    EscapeUnits(p);
  }

  /** Whether a code point is printable (production c-printable of section 5.1 of YAML 1.2.2) and
      neither U+FEFF nor one of the fifteen, which take in tab, line feed, carriage return and NEL. */
  predicate IsBare(p: int) {
    || (0x20 <= p <= 0x7E && p != 34 && p != 92)
    || (0xA1 <= p <= 0xD7FF && p != 0x2028 && p != 0x2029)
    || (0xE000 <= p <= 0xFFFD && p != 0xFEFF)
    || 0x1_0000 <= p <= 0x10_FFFF
  }

  lemma BareForm(p: Point)
    ensures EscapePoint(p) == UnitsOf(p) <==> IsBare(p)
    ensures |EscapePoint(p)| > |UnitsOf(p)| <==> !IsBare(p)
  {
    hide EncodeHex;
    LongForm(p);
  }

  lemma LongForm(p: Point)
    ensures |EncodeHex(p)| >= 4
  {
    hide ToHex;
    ZerosPad(HexForm(p).1 - |ToHex(p)|);
  }

  lemma {:induction false} ZerosPad(k: int)
    ensures |Zeros(k)| == (if k < 0 then 0 else k) && Base16(Zeros(k)) == 0 && AreUpperDigits(Zeros(k))
  {
    if k > 0 {
      ZerosPad(k - 1);
      assert Zeros(k)[..k - 1] == Zeros(k - 1);
    }
  }

  lemma {:induction false} PaddedHex(k: int, n: nat)
    ensures Base16(Zeros(k) + ToHex(n)) == n && AreUpperDigits(Zeros(k) + ToHex(n))
  {
    hide Zeros;
    ZerosPad(k);
    if n >= 16 {
      PaddedHex(k, n / 16);
      OneMoreDigit(Zeros(k) + ToHex(n / 16), n % 16);
      assert Zeros(k) + ToHex(n) == Zeros(k) + ToHex(n / 16) + [HexDigit(n % 16)];
    } else {
      OneMoreDigit(Zeros(k), n);
    }
  }

  lemma OneMoreDigit(ds: seq<Unit>, d: int)
    requires 0 <= d < 16 && AreUpperDigits(ds)
    ensures Base16(ds + [HexDigit(d)]) == 16 * Base16(ds) + d && AreUpperDigits(ds + [HexDigit(d)])
  {
    assert (ds + [HexDigit(d)])[..|ds|] == ds;
  }

  /** Every character that is neither bare nor one of the fifteen: a backslash, `x`, `u` or `U`, and 2, 4
      or 8 upper-case digits that stand for the code point. */
  lemma HexForms(p: Point)
    requires !IsBare(p) && p !in [0, 7, 8, 9, 10, 11, 12, 13, 27, 34, 92, 133, 160, 0x2028, 0x2029]
    ensures var e := Escape(UnitsOf(p));
            var width := if p <= 0xFF then 2 else if p <= 0xFFFF then 4 else 8;
            && |e| == 2 + width && e[0] == 92
            && e[1] == (if p <= 0xFF then 120 else if p <= 0xFFFF then 117 else 85)
            && AreUpperDigits(e[2..]) && Base16(e[2..]) == p
  {
    hide UnitsOf, ToHex, Zeros;
    EscapeUnits(p);
    assert EscapePoint(p) == EncodeHex(p) by { NoShortForm(p); }
    var width := HexForm(p).1;
    HexWidthFits(p, width);
    ZerosPad(width - |ToHex(p)|);
    PaddedHex(width - |ToHex(p)|, p);
    assert EncodeHex(p)[2..] == Zeros(width - |ToHex(p)|) + ToHex(p);
  }

  lemma NoShortForm(p: Point)
    requires !IsBare(p) && p !in [0, 7, 8, 9, 10, 11, 12, 13, 27, 34, 92, 133, 160, 0x2028, 0x2029]
    ensures EscapePoint(p) == EncodeHex(p)
  {
    hide EncodeHex, UnitsOf;
  }

  lemma HexWidthFits(p: Point, width: nat)
    requires width == HexForm(p).1
    ensures |ToHex(p)| <= width
  {
    var a := p / 16;
    var b := a / 16;
    assert |ToHex(p)| <= |ToHex(a)| + 1 && |ToHex(a)| <= |ToHex(b)| + 1;
    var c := b / 16;
    var d := c / 16;
    assert |ToHex(b)| <= |ToHex(c)| + 1 && |ToHex(c)| <= |ToHex(d)| + 1;
  }

  // ----- Strings left as they are -----

  /** Whether the unit at i stands for itself: bare on its own, or half of a surrogate pair. */
  predicate StandsForItself(s: seq<Unit>, i: nat)
    requires i < |s|
  {
    || (IsBare(s[i]) && !(0xD800 <= s[i] <= 0xDFFF))
    || (0xD800 <= s[i] <= 0xDBFF && i + 1 < |s| && 0xDC00 <= s[i + 1] <= 0xDFFF)
    || (0xDC00 <= s[i] <= 0xDFFF && i > 0 && 0xD800 <= s[i - 1] <= 0xDBFF)
  }

  ghost predicate AllStand(s: seq<Unit>) {
    forall i: nat | i < |s| :: StandsForItself(s, i)
  }

  lemma StandsBehindFirst(s: seq<Unit>)
    requires s != []
    ensures var p := FirstPoint(s);
            AllStand(s) <==> IsBare(p) && AllStand(s[|UnitsOf(p)|..])
  {
    hide IsBare, FirstPoint, StandsForItself;
    var p := FirstPoint(s);
    var n := |UnitsOf(p)|;
    var rest := s[n..];
    FirstStands(s);
    forall i: nat | i < |rest|
      ensures StandsForItself(rest, i) <==> StandsForItself(s, i + n)
    {
      StandsFurther(s, i);
    }
    if AllStand(rest) && IsBare(p) {
      forall i: nat | i < |s|
        ensures StandsForItself(s, i)
      {
        assert i >= n ==> StandsForItself(rest, i - n);
      }
    }
  }

  lemma StandsFurther(s: seq<Unit>, i: nat)
    requires s != [] && i + |UnitsOf(FirstPoint(s))| < |s|
    ensures var n := |UnitsOf(FirstPoint(s))|;
            StandsForItself(s[n..], i) <==> StandsForItself(s, i + n)
  {
    hide IsBare, PairPoint;
    var n := |UnitsOf(FirstPoint(s))|;
    assert s[n..][i] == s[i + n];
    assert i + 1 < |s[n..]| ==> s[n..][i + 1] == s[i + n + 1];
    assert i > 0 ==> s[n..][i - 1] == s[i + n - 1];
  }

  lemma FirstStands(s: seq<Unit>)
    requires s != []
    ensures var p := FirstPoint(s);
            && (StandsForItself(s, 0) <==> IsBare(p)) && (p >= 0x1_0000 ==> StandsForItself(s, 1))
  {
  }

  /** The length gives it away: a string is left alone exactly if all its units stand for themselves. */
  lemma {:induction false} LeftAlone(s: seq<Unit>)
    ensures Escape(s) == s <==> AllStand(s)
    ensures |Escape(s)| >= |s|
    decreases |s|
  {
    hide EscapePoint, FirstPoint, IsBare, AllStand;
    if s == [] {
      assert AllStand(s) by { EmptyStands(); }
    } else {
      var p := FirstPoint(s);
      var n := |UnitsOf(p)|;
      EscapeFirst(s);
      BareForm(p);
      StandsBehindFirst(s);
      LeftAlone(s[n..]);
      assert s == UnitsOf(p) + s[n..];
      if Escape(s) == s {
        assert |EscapePoint(p)| == n;
        assert s[n..] == Escape(s)[n..] == Escape(s[n..]);
      }
    }
  }

  lemma EmptyStands()
    ensures AllStand([])
  {
  }
}
