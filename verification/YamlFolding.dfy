/** Line folding inside double quotes, as section 7.3.1 of YAML 1.2.2 has it, and how js-yaml's
    reader departs from it. Indentation is left aside: the standard rejects a line that is not
    indented enough, and the reader only warns. */
module YamlFolding {
  import opened Sequences
  import opened Utf8
  import opened YamlEscape
  import opened YamlScalar

  predicate EndsInBlank(segment: seq<Unit>) {
    segment != [] && IsBlank(segment[|segment| - 1])
  }

  function Trimmed(segment: seq<Unit>): (t: seq<Unit>)
    ensures |t| <= |segment| && !EndsInBlank(t)
    ensures t == segment <==> !EndsInBlank(segment)
  {
    if EndsInBlank(segment) then Trimmed(segment[..|segment| - 1]) else segment
  }

  /** What an escaped line break yields: nothing, and a line feed for each empty line behind it. */
  function EmptyLines(breaks: nat): seq<Unit> {
    if breaks > 1 then LineFeeds(breaks - 1) else []
  }

  /** An escaped line break that follows another break with nothing between: by s-double-next-line a
      character has to stand there, so the text is refused, unless it is refused for another reason. */
  function Refuse(o: Outcome): Outcome {
    if o.Fails? then o else Fails(UnknownEscape)
  }

  /** The specified reading: as Scan, but blanks at the end of a segment before an unescaped line
      break are no content (s-flow-folded), empty lines behind an escaped one are (s-double-escaped),
      and an escaped break does not follow another break (s-double-next-line). `bare` says that
      nothing was read since the last break. */
  function ScanSpec(inp: seq<Unit>, start: nat, c: Cursor, bare: bool): Outcome
    requires IsInput(inp) && start <= c.position < |inp|
    decreases |inp| - c.position
  {
    var ch := inp[c.position];
    var segment := inp[start..c.position];
    if ch == 0 then Fails(StreamEnd)
    else if ch == QUOTE then
      if AllJson(segment) then Scalar(segment, c.(position := c.position + 1)) else Fails(BadCharacter)
    else if ch == BACKSLASH then
      var behind := c.(position := c.position + 1);
      if !AllJson(segment) then Fails(BadCharacter)
      else if IsEol(inp[behind.position]) then
        var (next, n) := Skip(inp, behind);
        var o := Prepend(segment + EmptyLines(n), ScanSpec(inp, next.position, next, true));
        if bare then Refuse(o) else o
      else
        var e := ReadEscape(inp, behind);
        if e.Fails? then e else Prepend(segment + e.text, ScanSpec(inp, e.next.position, e.next, false))
    else if IsEol(ch) then
      if !AllJson(segment) then Fails(BadCharacter)
      else
        var (next, n) := Skip(inp, c);
        Prepend(Trimmed(segment) + Folded(n), ScanSpec(inp, next.position, next, true))
    else if c.position == c.lineStart && SeparatorAt(inp, c.position) then Fails(DocumentEnd)
    else ScanSpec(inp, start, c.(position := c.position + 1), false)
  }

  // ----- The three conditions, as far as the reader comes -----

  /** No segment before an unescaped line break ends in a blank. */
  predicate IsTidy(inp: seq<Unit>, start: nat, c: Cursor)
    requires IsInput(inp) && start <= c.position < |inp|
    decreases |inp| - c.position
  {
    var ch := inp[c.position];
    if ch == 0 || ch == QUOTE then true
    else if ch == BACKSLASH then
      var e := ReadEscape(inp, c.(position := c.position + 1));
      e.Fails? || IsTidy(inp, e.next.position, e.next)
    else if IsEol(ch) then
      var next := Skip(inp, c).0;
      !EndsInBlank(inp[start..c.position]) && IsTidy(inp, next.position, next)
    else IsTidy(inp, start, c.(position := c.position + 1))
  }

  /** No escaped line break is followed by an empty line. */
  predicate NoEmpty(inp: seq<Unit>, start: nat, c: Cursor)
    requires IsInput(inp) && start <= c.position < |inp|
    decreases |inp| - c.position
  {
    var ch := inp[c.position];
    if ch == 0 || ch == QUOTE then true
    else if ch == BACKSLASH then
      var behind := c.(position := c.position + 1);
      var e := ReadEscape(inp, behind);
      && (IsEol(inp[behind.position]) ==> Skip(inp, behind).1 <= 1)
      && (e.Fails? || NoEmpty(inp, e.next.position, e.next))
    else if IsEol(ch) then
      var next := Skip(inp, c).0;
      NoEmpty(inp, next.position, next)
    else NoEmpty(inp, start, c.(position := c.position + 1))
  }

  /** No escaped line break follows a break with nothing between. */
  predicate IsSeparated(inp: seq<Unit>, start: nat, c: Cursor, bare: bool)
    requires IsInput(inp) && start <= c.position < |inp|
    decreases |inp| - c.position
  {
    var ch := inp[c.position];
    if ch == 0 || ch == QUOTE then true
    else if ch == BACKSLASH then
      var behind := c.(position := c.position + 1);
      var e := ReadEscape(inp, behind);
      var isBreak := IsEol(inp[behind.position]);
      !(isBreak && bare) && (e.Fails? || IsSeparated(inp, e.next.position, e.next, isBreak))
    else if IsEol(ch) then
      var next := Skip(inp, c).0;
      IsSeparated(inp, next.position, next, true)
    else IsSeparated(inp, start, c.(position := c.position + 1), false)
  }

  // ----- Counting what differs -----

  /** The line feeds of a text. */
  function Feeds(text: seq<Unit>): nat {
    if text == [] then 0 else Feeds(text[..|text| - 1]) + if text[|text| - 1] == 10 then 1 else 0
  }

  lemma {:induction false} FeedsConcat(a: seq<Unit>, b: seq<Unit>)
    ensures Feeds(a + b) == Feeds(a) + Feeds(b)
    decreases |b|
  {
    if b == [] {
      assert a + b == a;
    } else {
      FeedsConcat(a, b[..|b| - 1]);
      assert (a + b)[..|a + b| - 1] == a + b[..|b| - 1];
    }
  }

  /** Trimming takes no line feeds. */
  lemma {:induction false} FeedsTrimmed(segment: seq<Unit>)
    ensures Feeds(Trimmed(segment)) == Feeds(segment)
  {
    if EndsInBlank(segment) {
      FeedsTrimmed(segment[..|segment| - 1]);
    }
  }

  lemma {:induction false} FeedsOfLines(k: nat)
    ensures Feeds(LineFeeds(k)) == k && |LineFeeds(k)| == k
  {
    if k > 0 {
      FeedsOfLines(k - 1);
      assert LineFeeds(k)[..|LineFeeds(k)| - 1] == LineFeeds(k - 1);
    }
  }

  /** The units of a text that are no line feeds. */
  function Others(text: seq<Unit>): int {
    |text| - Feeds(text)
  }

  /** The specified text has no fewer line feeds and no more other units, and it is the reader's
      exactly if neither number differs. */
  ghost predicate Compare(text: seq<Unit>, specified: seq<Unit>, tidy: bool, noEmpty: bool) {
    && Feeds(text) <= Feeds(specified) && (Feeds(text) == Feeds(specified) <==> noEmpty)
    && Others(specified) <= Others(text) && (Others(text) == Others(specified) <==> tidy)
    && (tidy && noEmpty ==> text == specified)
  }

  ghost predicate CompareOutcomes(o: Outcome, f: Outcome, tidy: bool, noEmpty: bool, separated: bool) {
    && (o.Fails? ==> f == o)
    && (o.Scalar? && !separated ==> f.Fails?)
    && (o.Scalar? && separated ==> f.Scalar? && f.next == o.next && Compare(o.text, f.text, tidy, noEmpty))
  }

  /** Texts joined are compared part by part. */
  lemma JoinCompares(a: seq<Unit>, b: seq<Unit>, t: bool, n: bool,
                     x: seq<Unit>, y: seq<Unit>, tidy: bool, noEmpty: bool)
    requires Compare(a, b, t, n) && Compare(x, y, tidy, noEmpty)
    ensures Compare(a + x, b + y, t && tidy, n && noEmpty)
  {
    hide Feeds;
    FeedsConcat(a, x);
    FeedsConcat(b, y);
  }

  lemma PrependCompares(a: seq<Unit>, b: seq<Unit>, t: bool, n: bool,
                        o: Outcome, f: Outcome, tidy: bool, noEmpty: bool, separated: bool)
    requires Compare(a, b, t, n) && CompareOutcomes(o, f, tidy, noEmpty, separated)
    ensures CompareOutcomes(Prepend(a, o), Prepend(b, f), t && tidy, n && noEmpty, separated)
  {
    hide Compare;
    if o.Scalar? && f.Scalar? && separated {
      JoinCompares(a, b, t, n, o.text, f.text, tidy, noEmpty);
    }
  }

  lemma SameText(a: seq<Unit>)
    ensures Compare(a, a, true, true)
  {
  }

  lemma EmptyLinesCompare(segment: seq<Unit>, n: nat)
    ensures Compare(segment + [], segment + EmptyLines(n), true, n <= 1)
  {
    hide Feeds;
    FeedsConcat(segment, EmptyLines(n));
    assert segment + [] == segment;
    if n > 1 {
      FeedsOfLines(n - 1);
    }
  }

  lemma TrimmedCompares(segment: seq<Unit>, fold: seq<Unit>)
    ensures Compare(segment + fold, Trimmed(segment) + fold, !EndsInBlank(segment), true)
  {
    hide Feeds, EndsInBlank, Trimmed;
    FeedsTrimmed(segment);
    FeedsConcat(segment, fold);
    FeedsConcat(Trimmed(segment), fold);
    TrimmedIsShorter(segment);
  }

  lemma TrimmedIsShorter(segment: seq<Unit>)
    ensures EndsInBlank(segment) ==> |Trimmed(segment)| < |segment|
  {
  }

  // ----- The two readings -----

  /** An escaped line break, in both readings and in the three conditions. */
  lemma AtEscapedBreak(inp: seq<Unit>, start: nat, c: Cursor, bare: bool)
    requires IsInput(inp) && start <= c.position < |inp| - 1
    requires inp[c.position] == BACKSLASH && IsEol(inp[c.position + 1]) && AllJson(inp[start..c.position])
    ensures var (next, n) := Skip(inp, c.(position := c.position + 1));
            var segment := inp[start..c.position];
            && Scan(inp, start, c) == Prepend(segment + [], Scan(inp, next.position, next))
            && ScanSpec(inp, start, c, bare) ==
                 (var o := Prepend(segment + EmptyLines(n), ScanSpec(inp, next.position, next, true));
                  if bare then Refuse(o) else o)
            && IsTidy(inp, start, c) == IsTidy(inp, next.position, next)
            && NoEmpty(inp, start, c) == (n <= 1 && NoEmpty(inp, next.position, next))
            && IsSeparated(inp, start, c, bare) == (!bare && IsSeparated(inp, next.position, next, true))
  {
    hide Skip, AllJson, EmptyLines;
    assert ReadEscape(inp, c.(position := c.position + 1)) == Scalar([], Skip(inp, c.(position := c.position + 1)).0);
  }

  lemma RefusedCompares(o: Outcome, f: Outcome, tidy: bool, noEmpty: bool, separated: bool, bare: bool)
    requires CompareOutcomes(o, f, tidy, noEmpty, separated)
    ensures CompareOutcomes(o, if bare then Refuse(f) else f, tidy, noEmpty, !bare && separated)
  {
  }

  lemma {:induction false} Compared(inp: seq<Unit>, start: nat, c: Cursor, bare: bool)
    requires IsInput(inp) && start <= c.position < |inp|
    ensures CompareOutcomes(Scan(inp, start, c), ScanSpec(inp, start, c, bare),
                            IsTidy(inp, start, c), NoEmpty(inp, start, c), IsSeparated(inp, start, c, bare))
    decreases |inp| - c.position
  {
    var ch, segment := inp[c.position], inp[start..c.position];
    if ch == BACKSLASH && AllJson(segment) && IsEol(inp[c.position + 1]) {
      EscapedBreakCompares(inp, start, c, bare);
    } else if ch == BACKSLASH && AllJson(segment) {
      EscapeCompares(inp, start, c, bare);
    } else if ch != QUOTE && IsEol(ch) && AllJson(segment) {
      BreakCompares(inp, start, c, bare);
    } else {
      hide Compare, ReadEscape, Skip, AllJson, SeparatorAt;
      if ch != 0 && ch != QUOTE && ch != BACKSLASH && !IsEol(ch)
         && !(c.position == c.lineStart && SeparatorAt(inp, c.position)) {
        Compared(inp, start, c.(position := c.position + 1), false);
      }
      SameText(segment);
    }
  }

  lemma {:induction false} EscapedBreakCompares(inp: seq<Unit>, start: nat, c: Cursor, bare: bool)
    requires IsInput(inp) && start <= c.position < |inp| - 1
    requires inp[c.position] == BACKSLASH && IsEol(inp[c.position + 1]) && AllJson(inp[start..c.position])
    ensures CompareOutcomes(Scan(inp, start, c), ScanSpec(inp, start, c, bare),
                            IsTidy(inp, start, c), NoEmpty(inp, start, c), IsSeparated(inp, start, c, bare))
    decreases |inp| - c.position, 0
  {
    hide Scan, ScanSpec, IsTidy, NoEmpty, IsSeparated, CompareOutcomes, Compare, Prepend, Refuse, AllJson, EmptyLines;
    var (next, n) := Skip(inp, c.(position := c.position + 1));
    var segment := inp[start..c.position];
    AtEscapedBreak(inp, start, c, bare);
    Compared(inp, next.position, next, true);
    var o, f := Scan(inp, next.position, next), ScanSpec(inp, next.position, next, true);
    var tidy, noEmpty := IsTidy(inp, next.position, next), NoEmpty(inp, next.position, next);
    var separated := IsSeparated(inp, next.position, next, true);
    EmptyLinesCompare(segment, n);
    PrependCompares(segment + [], segment + EmptyLines(n), true, n <= 1, o, f, tidy, noEmpty, separated);
    RefusedCompares(Prepend(segment + [], o), Prepend(segment + EmptyLines(n), f),
                    true && tidy, n <= 1 && noEmpty, separated, bare);
  }

  lemma {:induction false} EscapeCompares(inp: seq<Unit>, start: nat, c: Cursor, bare: bool)
    requires IsInput(inp) && start <= c.position < |inp| - 1
    requires inp[c.position] == BACKSLASH && !IsEol(inp[c.position + 1]) && AllJson(inp[start..c.position])
    ensures CompareOutcomes(Scan(inp, start, c), ScanSpec(inp, start, c, bare),
                            IsTidy(inp, start, c), NoEmpty(inp, start, c), IsSeparated(inp, start, c, bare))
    decreases |inp| - c.position, 0
  {
    hide CompareOutcomes, Compare, Prepend, AllJson, ReadEscape, Skip;
    var segment := inp[start..c.position];
    var e := ReadEscape(inp, c.(position := c.position + 1));
    if e.Scalar? {
      var p := e.next.position;
      Compared(inp, p, e.next, false);
      SameText(segment + e.text);
      PrependCompares(segment + e.text, segment + e.text, true, true,
                      Scan(inp, p, e.next), ScanSpec(inp, p, e.next, false),
                      IsTidy(inp, p, e.next), NoEmpty(inp, p, e.next), IsSeparated(inp, p, e.next, false));
    } else {
      SameFailure(e);
    }
  }

  lemma SameFailure(o: Outcome)
    requires o.Fails?
    ensures forall t, n, s :: CompareOutcomes(o, o, t, n, s)
  {
    hide Compare;
  }

  lemma {:induction false} BreakCompares(inp: seq<Unit>, start: nat, c: Cursor, bare: bool)
    requires IsInput(inp) && start <= c.position < |inp| && IsEol(inp[c.position]) && AllJson(inp[start..c.position])
    ensures CompareOutcomes(Scan(inp, start, c), ScanSpec(inp, start, c, bare),
                            IsTidy(inp, start, c), NoEmpty(inp, start, c), IsSeparated(inp, start, c, bare))
    decreases |inp| - c.position, 0
  {
    hide CompareOutcomes, Compare, Prepend, AllJson, Skip, Trimmed, EndsInBlank, Folded;
    var segment := inp[start..c.position];
    var (next, n) := Skip(inp, c);
    var p := next.position;
    Compared(inp, p, next, true);
    TrimmedCompares(segment, Folded(n));
    PrependCompares(segment + Folded(n), Trimmed(segment) + Folded(n), !EndsInBlank(segment), true,
                    Scan(inp, p, next), ScanSpec(inp, p, next, true),
                    IsTidy(inp, p, next), NoEmpty(inp, p, next), IsSeparated(inp, p, next, true));
  }

  /** For every input and cursor: js-yaml reads what the standard says exactly if reading fails, or
      no line that is folded ends in a blank, no escaped break is followed by an empty line, and none
      follows another break with nothing between. */
  lemma ReadsAsSpecified(inp: seq<Unit>, start: nat, c: Cursor, bare: bool)
    requires IsInput(inp) && start <= c.position < |inp|
    ensures Scan(inp, start, c) == ScanSpec(inp, start, c, bare)
            <==> || Scan(inp, start, c).Fails?
                 || (IsTidy(inp, start, c) && NoEmpty(inp, start, c) && IsSeparated(inp, start, c, bare))
  {
    hide Scan, ScanSpec, IsTidy, NoEmpty, IsSeparated, Feeds;
    Compared(inp, start, c, bare);
  }

  /** Where the reader succeeds: the standard refuses the text exactly if breaks are not separated.
      Else both stop at the same place; the specified text has no fewer line feeds, and more exactly
      if an empty line is lost, and no more other units, and fewer exactly if a blank is kept. */
  lemma HowTheyDiffer(inp: seq<Unit>, start: nat, c: Cursor, bare: bool)
    requires IsInput(inp) && start <= c.position < |inp| && Scan(inp, start, c).Scalar?
    ensures var o, f := Scan(inp, start, c), ScanSpec(inp, start, c, bare);
            && (f.Scalar? <==> IsSeparated(inp, start, c, bare))
            && (f.Scalar? ==> f.next == o.next)
            && (f.Scalar? ==> Compare(o.text, f.text, IsTidy(inp, start, c), NoEmpty(inp, start, c)))
  {
    hide Scan, ScanSpec, IsTidy, NoEmpty, IsSeparated, Compare;
    Compared(inp, start, c, bare);
  }

  // ----- One text for each condition -----

  lemma OneBreak(inp: seq<Unit>, c: Cursor, next: Cursor)
    requires IsInput(inp) && c.position + 1 < |inp| && inp[c.position] == 10
    requires next == ReadLineBreak(inp, c).(lineIndent := 0)
    requires !IsBlank(inp[c.position + 1]) && !IsEol(inp[c.position + 1])
    ensures Skip(inp, c) == (next, 1)
  {
    assert SkipBlanks(inp, c) == c;
    assert SkipIndent(inp, next) == next;
    assert SkipBlanks(inp, next) == next;
    assert Skip(inp, next) == (next, 0);
  }

  lemma AtBreak(inp: seq<Unit>, start: nat, c: Cursor, bare: bool)
    requires IsInput(inp) && start <= c.position < |inp| && IsEol(inp[c.position]) && AllJson(inp[start..c.position])
    ensures var (next, n) := Skip(inp, c);
            var segment := inp[start..c.position];
            && Scan(inp, start, c) == Prepend(segment + Folded(n), Scan(inp, next.position, next))
            && ScanSpec(inp, start, c, bare)
               == Prepend(Trimmed(segment) + Folded(n), ScanSpec(inp, next.position, next, true))
  {
    hide Skip, Trimmed, Folded;
  }

  lemma AtPlain(inp: seq<Unit>, start: nat, c: Cursor, bare: bool)
    requires IsInput(inp) && start <= c.position < |inp| - 1 && AllJson(inp[start..c.position])
    requires c.lineStart < c.position && IsPlain(inp[c.position])
    ensures AllJson(inp[start..c.position + 1])
    ensures Scan(inp, start, c) == Scan(inp, start, c.(position := c.position + 1))
    ensures ScanSpec(inp, start, c, bare) == ScanSpec(inp, start, c.(position := c.position + 1), false)
  {
    ScanPlainUnit(inp, start, c);
  }

  lemma AtEnd(inp: seq<Unit>, start: nat, c: Cursor, bare: bool)
    requires IsInput(inp) && start <= c.position < |inp| && inp[c.position] == QUOTE && AllJson(inp[start..c.position])
    ensures var o := Scalar(inp[start..c.position], c.(position := c.position + 1));
            Scan(inp, start, c) == o && ScanSpec(inp, start, c, bare) == o
  {
  }

  /** A blank and a line break between quotes: two blanks for the reader, one for the standard. */
  lemma BlankBeforeBreakStays(c: Cursor)
    requires c.position == 1 && c.lineStart == 0
    ensures var inp := [QUOTE, 32, 10, QUOTE, 10, 0];
            var o, f := Scan(inp, 1, c), ScanSpec(inp, 1, c, false);
            o.Scalar? && o.text == [32, 32] && f.Scalar? && f.text == [32]
  {
    hide Scan, ScanSpec, Skip;
    var inp: seq<Unit> := [QUOTE, 32, 10, QUOTE, 10, 0];
    NothingJson(inp, 1);
    AtPlain(inp, 1, c, false);
    var c2 := c.(position := 2);
    var c3 := ReadLineBreak(inp, c2).(lineIndent := 0);
    OneBreak(inp, c2, c3);
    AtBreak(inp, 1, c2, false);
    NothingJson(inp, 3);
    AtEnd(inp, 3, c3, true);
    assert inp[1..2] == [32] && [32][..0] == [];
    assert Trimmed([32]) == [] && Folded(1) == [32];
  }

  /** `"a\`, an empty line, `b"`: the reader loses the line. */
  lemma EmptyLineIsLost(c: Cursor)
    requires c.position == 1 && c.lineStart == 0
    ensures var inp := [QUOTE, 97, BACKSLASH, 10, 10, 98, QUOTE, 10, 0];
            var o, f := Scan(inp, 1, c), ScanSpec(inp, 1, c, false);
            o.Scalar? && o.text == [97, 98] && f.Scalar? && f.text == [97, 10, 98]
  {
    hide Scan, ScanSpec, Skip;
    var inp: seq<Unit> := [QUOTE, 97, BACKSLASH, 10, 10, 98, QUOTE, 10, 0];
    NothingJson(inp, 1);
    AtPlain(inp, 1, c, false);
    var c2, c3 := c.(position := 2), c.(position := 3);
    SkipCountsBreaks(inp, c3, 2);
    AtEscapedBreak(inp, 1, c2, false);
    var c5 := Skip(inp, c3).0;
    LastUnit(inp, c5, true);
    assert inp[1..2] == [97];
    assert LineFeeds(1) == [10];
  }

  /** A character at the start of a line, and the closing quote. */
  lemma LastUnit(inp: seq<Unit>, c: Cursor, bare: bool)
    requires IsInput(inp) && c.position + 2 < |inp| && inp[c.position] == 98 && inp[c.position + 1] == QUOTE
    ensures var o := Scalar([98], c.(position := c.position + 2));
            Scan(inp, c.position, c) == o && ScanSpec(inp, c.position, c, bare) == o
  {
    hide Scan, ScanSpec;
    var p := c.position;
    var next := c.(position := p + 1);
    assert inp[p..p + 1] == [98];
    assert Scan(inp, p, c) == Scan(inp, p, next) && ScanSpec(inp, p, c, bare) == ScanSpec(inp, p, next, false) by {
      PlainAnywhere(inp, c, bare);
    }
    AtEnd(inp, p, next, false);
  }

  lemma PlainAnywhere(inp: seq<Unit>, c: Cursor, bare: bool)
    requires IsInput(inp) && c.position + 1 < |inp| && inp[c.position] == 98
    ensures var next := c.(position := c.position + 1);
            && Scan(inp, c.position, c) == Scan(inp, c.position, next)
            && ScanSpec(inp, c.position, c, bare) == ScanSpec(inp, c.position, next, false)
  {
  }

  /** Two escaped line breaks and nothing else: an empty scalar for the reader, none for the
      standard. */
  lemma BreakAfterBreakIsTaken(c: Cursor)
    requires c.position == 1 && c.lineStart == 0
    ensures var inp := [QUOTE, BACKSLASH, 10, BACKSLASH, 10, QUOTE, 10, 0];
            var o, f := Scan(inp, 1, c), ScanSpec(inp, 1, c, false);
            o.Scalar? && o.text == [] && f.Fails?
  {
    hide Scan, ScanSpec, Skip;
    var inp: seq<Unit> := [QUOTE, BACKSLASH, 10, BACKSLASH, 10, QUOTE, 10, 0];
    NothingJson(inp, 1);
    var c2 := c.(position := 2);
    var c3 := ReadLineBreak(inp, c2).(lineIndent := 0);
    OneBreak(inp, c2, c3);
    AtEscapedBreak(inp, 1, c, false);
    NothingJson(inp, 3);
    var c4 := c3.(position := 4);
    var c5 := ReadLineBreak(inp, c4).(lineIndent := 0);
    OneBreak(inp, c4, c5);
    AtEscapedBreak(inp, 3, c3, true);
    NothingJson(inp, 5);
    AtEnd(inp, 5, c5, true);
  }
}
