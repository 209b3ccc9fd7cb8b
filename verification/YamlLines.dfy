/** Text between double quotes, read character by character: plain text, line breaks and escapes, each
    with the outcome written out. */
module YamlLines {
  import opened Sequences
  import opened Wrappers
  import opened Utf8
  import opened Words
  import opened YamlEscape
  import opened YamlScalar

  // ----- Plain text -----

  /** Neither the final NUL nor a quote, a backslash or a line break. */
  predicate IsQuiet(us: seq<Unit>) {
    forall u :: u in us ==> u != 0 && u != 34 && u != 92 && u != 10 && u != 13
  }

  lemma {:induction false} ScanQuiet(inp: seq<Unit>, start: nat, c: Cursor, us: seq<Unit>)
    requires IsInput(inp) && start <= c.position < |inp| && At(inp, c.position, us) && IsQuiet(us)
    requires c.lineStart < c.position
    ensures Scan(inp, start, c) == Scan(inp, start, c.(position := c.position + |us|))
    decreases |us|
  {
    hide Scan, At, SeparatorAt;
    if us != [] {
      FirstOf(inp, c.position, us);
      AtSplit(inp, c.position, us[..1], us[1..]);
      assert us[..1] == [inp[c.position]];
      assert forall u :: u in us[..1] || u in us[1..] ==> u in us;
      ScanQuietUnit(inp, start, c);
      ScanQuiet(inp, start, c.(position := c.position + 1), us[1..]);
    }
  }

  lemma FirstOf(inp: seq<Unit>, p: nat, us: seq<Unit>)
    requires us != [] && At(inp, p, us)
    ensures inp[p] == us[0] && us == us[..1] + us[1..]
  {
    assert inp[p..p + |us|][0] == us[0];
  }

  lemma ScanQuietUnit(inp: seq<Unit>, start: nat, c: Cursor)
    requires IsInput(inp) && start <= c.position < |inp| - 1 && IsQuiet([inp[c.position]])
    requires c.position != c.lineStart || !SeparatorAt(inp, c.position)
    ensures Scan(inp, start, c) == Scan(inp, start, c.(position := c.position + 1))
  {
    hide SeparatorAt, AllJson;
    assert inp[c.position] in [inp[c.position]];
  }

  /** Text without line breaks and escapes up to a quote, or up to the end of the input: it is taken as
      it stands unless it holds a control character other than the tab. */
  lemma OneLine(inp: seq<Unit>, c: Cursor, a: seq<Unit>)
    requires IsInput(inp) && At(inp, c.position, a) && IsQuiet(a) && c.lineStart < c.position
    ensures var end := c.position + |a|;
            && (inp[end] == 0 ==> Scan(inp, c.position, c) == Fails(StreamEnd))
            && (inp[end] == 34 && (forall u :: u in a ==> u == 9 || u >= 32) ==>
                 Scan(inp, c.position, c) == Scalar(a, c.(position := end + 1)))
            && (inp[end] == 34 && (exists u :: u in a && u != 9 && u < 32) ==>
                 Scan(inp, c.position, c) == Fails(BadCharacter))
  {
    ScanQuiet(inp, c.position, c, a);
    assert inp[c.position..c.position + |a|] == a;
  }

  // ----- Line breaks -----

  /** A line break as it is written, and the blanks behind it. */
  datatype Break = Break(mark: seq<Unit>, blanks: seq<Unit>)

  /** CR LF, CR or LF, then spaces and tabs. */
  predicate IsBreak(b: Break) {
    && (b.mark == [13, 10] || b.mark == [13] || b.mark == [10])
    && AreBlanks(b.blanks)
  }

  /** Tabs and spaces. */
  predicate AreBlanks(us: seq<Unit>) {
    forall u :: u in us ==> u == 9 || u == 32
  }

  lemma BlanksEnd(us: seq<Unit>, k: nat)
    requires AreBlanks(us) && k <= |us|
    ensures AreBlanks(us[k..]) && (us != [] ==> us[0] == 9 || us[0] == 32)
  {
    assert forall u :: u in us[k..] ==> u in us;
    assert us != [] ==> us[0] in us;
  }

  function Written(bs: seq<Break>): seq<Unit> {
    if bs == [] then [] else bs[0].mark + bs[0].blanks + Written(bs[1..])
  }

  /** No CR stands directly before a line feed that is meant as a break of its own. */
  predicate AreBreaks(bs: seq<Break>) {
    bs != [] ==>
      && IsBreak(bs[0]) && AreBreaks(bs[1..])
      && (|bs| > 1 && bs[0] == Break([13], []) ==> bs[1].mark != [10])
  }

  /** The reader is on blanks with breaks behind them, and what follows is neither. */
  predicate OnBreaks(inp: seq<Unit>, p: nat, blanks: seq<Unit>, bs: seq<Break>) {
    && IsInput(inp) && At(inp, p, blanks + Written(bs)) && AreBreaks(bs)
    && AreBlanks(blanks)
    && !IsBlank(inp[p + |blanks| + |Written(bs)|]) && !IsEol(inp[p + |blanks| + |Written(bs)|])
  }

  lemma AfterBlanks(inp: seq<Unit>, p: nat, blanks: seq<Unit>, bs: seq<Break>)
    requires OnBreaks(inp, p, blanks, bs)
    ensures OnBreaks(inp, p + |blanks|, [], bs)
    ensures !IsBlank(inp[p + |blanks|]) && (IsEol(inp[p + |blanks|]) <==> bs != [])
  {
    hide Written, IsEol, IsBlank, AreBreaks, AreBlanks, At;
    AtSplit(inp, p, blanks, Written(bs));
    NoBlanks();
    assert [] + Written(bs) == Written(bs);
    if bs != [] {
      WrittenStarts(bs);
      FirstOf(inp, p + |blanks|, Written(bs));
      MarksAreEols(bs[0].mark[0]);
    } else {
      assert Written(bs) == [] by { WrittenNothing(); }
    }
  }

  lemma WrittenNothing()
    ensures Written([]) == []
  {
  }

  lemma NoBlanks()
    ensures AreBlanks([]) && forall at: nat :: FirstTab([], at) == -1
  {
  }

  lemma MarksAreEols(u: Unit)
    ensures u == 10 || u == 13 <==> IsEol(u)
    ensures IsEol(u) ==> !IsBlank(u)
  {
  }

  lemma WrittenStarts(bs: seq<Break>)
    requires bs != [] && AreBreaks(bs)
    ensures bs[0].mark != [] && Written(bs) != [] && Written(bs)[0] == bs[0].mark[0]
    ensures bs[0].mark[0] == 10 || bs[0].mark[0] == 13
  {
  }

  /** Where the first tab among blanks is, or -1. */
  function FirstTab(blanks: seq<Unit>, at: nat): int {
    if blanks == [] then -1 else if blanks[0] == 9 then at else FirstTab(blanks[1..], at + 1)
  }

  /** How many spaces blanks begin with. */
  function Indent(blanks: seq<Unit>): (k: nat)
    ensures k <= |blanks|
  {
    if blanks == [] || blanks[0] != 32 then 0 else 1 + Indent(blanks[1..])
  }

  lemma {:induction false} SkipsBlanks(inp: seq<Unit>, c: Cursor, blanks: seq<Unit>)
    requires IsInput(inp) && At(inp, c.position, blanks) && AreBlanks(blanks)
    requires !IsBlank(inp[c.position + |blanks|])
    ensures var tab := if c.firstTabInLine == -1 then FirstTab(blanks, c.position) else c.firstTabInLine;
            SkipBlanks(inp, c) == c.(position := c.position + |blanks|, firstTabInLine := tab)
    decreases |blanks|
  {
    hide At, AreBlanks;
    if blanks != [] {
      FirstOf(inp, c.position, blanks);
      AtSplit(inp, c.position, blanks[..1], blanks[1..]);
      BlanksEnd(blanks, 1);
      var tab := if inp[c.position] == 9 && c.firstTabInLine == -1 then c.position else c.firstTabInLine;
      SkipsBlanks(inp, c.(position := c.position + 1, firstTabInLine := tab), blanks[1..]);
    }
  }

  /** The indentation is part of the blanks. */
  lemma {:induction false} SkipsIndent(inp: seq<Unit>, c: Cursor, blanks: seq<Unit>)
    requires IsInput(inp) && At(inp, c.position, blanks) && AreBlanks(blanks)
    requires !IsBlank(inp[c.position + |blanks|])
    ensures var k := Indent(blanks);
            && SkipIndent(inp, c) == c.(position := c.position + k, lineIndent := c.lineIndent + k)
            && FirstTab(blanks[k..], c.position + k) == FirstTab(blanks, c.position)
    decreases |blanks|
  {
    hide At, AreBlanks;
    if blanks != [] {
      FirstOf(inp, c.position, blanks);
      AtSplit(inp, c.position, blanks[..1], blanks[1..]);
      BlanksEnd(blanks, 1);
      if blanks[0] == 32 {
        SkipsIndent(inp, c.(position := c.position + 1, lineIndent := c.lineIndent + 1), blanks[1..]);
        assert blanks[1..][Indent(blanks[1..])..] == blanks[Indent(blanks)..];
      }
    }
  }

  /** The reader takes the mark of the first break. */
  lemma ReadsMark(inp: seq<Unit>, c: Cursor, bs: seq<Break>)
    requires bs != [] && OnBreaks(inp, c.position, [], bs)
    ensures IsEol(inp[c.position])
    ensures var r := ReadLineBreak(inp, c);
            && r == Cursor(c.position + |bs[0].mark|, c.line + 1, c.position + |bs[0].mark|, c.lineIndent, -1)
            && OnBreaks(inp, r.position, bs[0].blanks, bs[1..])
            && r.position + |bs[0].blanks| + |Written(bs[1..])| == c.position + |Written(bs)|
  {
    hide At, IsBlank, AreBreaks, AreBlanks, Written, IsEol;
    FirstBreak(bs);
    var mark, next := bs[0].mark, bs[0].blanks + Written(bs[1..]);
    assert [] + Written(bs) == mark + next;
    AtSplit(inp, c.position, mark, next);
    FirstOf(inp, c.position, mark);
    MarksAreEols(mark[0]);
    MarkTaken(inp, c.position, bs);
    MarkLength(inp, c, mark);
  }

  lemma FirstBreak(bs: seq<Break>)
    requires bs != [] && AreBreaks(bs)
    ensures bs[0].mark == [13, 10] || bs[0].mark == [13] || bs[0].mark == [10]
    ensures AreBlanks(bs[0].blanks) && AreBreaks(bs[1..])
    ensures Written(bs) == bs[0].mark + (bs[0].blanks + Written(bs[1..]))
    ensures bs[0] == Break([13], []) && |bs| > 1 ==> bs[1].mark != [10]
  {
    hide AreBlanks;
    Regroup(bs[0].mark, bs[0].blanks, Written(bs[1..]));
  }

  lemma MarkLength(inp: seq<Unit>, c: Cursor, mark: seq<Unit>)
    requires IsInput(inp) && c.position < |inp| && IsEol(inp[c.position])
    requires mark == [13, 10] || mark == [13] || mark == [10]
    requires inp[c.position] == mark[0] && (mark[0] == 13 ==> (inp[c.position + 1] == 10 <==> mark == [13, 10]))
    ensures ReadLineBreak(inp, c) == Cursor(c.position + |mark|, c.line + 1, c.position + |mark|, c.lineIndent, -1)
  {
  }

  /** Behind CR a line feed stands exactly if it belongs to the mark. */
  lemma MarkTaken(inp: seq<Unit>, p: nat, bs: seq<Break>)
    requires bs != [] && OnBreaks(inp, p, [], bs) && bs[0].mark != [] && p + 1 < |inp|
    ensures bs[0].mark[0] == 13 ==> (inp[p + 1] == 10 <==> bs[0].mark == [13, 10])
  {
    hide AreBreaks, AreBlanks, Written, At, IsBlank, IsEol;
    FirstBreak(bs);
    var mark, blanks, rest := bs[0].mark, bs[0].blanks, Written(bs[1..]);
    assert [] + Written(bs) == mark + (blanks + rest);
    AtSplit(inp, p, mark, blanks + rest);
    if mark == [13, 10] {
      assert mark == [13] + [10];
      AtSplit(inp, p, [13], [10]);
      FirstOf(inp, p + 1, [10]);
    } else if blanks != [] {
      FirstOf(inp, p + |mark|, blanks + rest);
      BlanksEnd(blanks, 0);
    } else if |bs| > 1 {
      assert blanks + rest == rest;
      FirstBreak(bs[1..]);
      WrittenStarts(bs[1..]);
      FirstOf(inp, p + |mark|, rest);
    } else {
      assert bs[1..] == [];
      WrittenNothing();
      MarksAreEols(inp[p + |mark|]);
    }
  }

  /** Part of the blanks may be gone. */
  lemma AfterIndent(inp: seq<Unit>, p: nat, blanks: seq<Unit>, bs: seq<Break>, k: nat)
    requires OnBreaks(inp, p, blanks, bs) && k <= |blanks|
    ensures OnBreaks(inp, p + k, blanks[k..], bs)
  {
    hide Written, AreBreaks, IsEol, IsBlank, AreBlanks, At;
    BlanksEnd(blanks, k);
    assert blanks + Written(bs) == blanks[..k] + (blanks[k..] + Written(bs));
    AtSplit(inp, p, blanks[..k], blanks[k..] + Written(bs));
  }

  /** What OnBreaks says of the blanks; on the final NUL there are none, and no breaks either. */
  lemma InText(inp: seq<Unit>, p: nat, blanks: seq<Unit>, bs: seq<Break>)
    requires OnBreaks(inp, p, blanks, bs)
    ensures IsInput(inp) && p < |inp| && At(inp, p, blanks) && AreBlanks(blanks)
    ensures inp[p] == 0 ==> blanks == [] && bs == []
  {
    hide Written, AreBlanks, At, IsBlank, IsEol, AreBreaks;
    AtSplit(inp, p, blanks, Written(bs));
    AfterBlanks(inp, p, blanks, bs);
    assert inp[p] == 0 ==> !IsEol(inp[p]) by { MarksAreEols(0); }
    if blanks != [] {
      FirstOf(inp, p, blanks);
      BlanksEnd(blanks, 0);
    }
  }

  /** Breaks of all three forms are counted, and the blanks around them left behind; the reader knows
      where its line starts, how far it is indented, and where its first tab is. */
  lemma {:induction false} SkipsBreaks(inp: seq<Unit>, c: Cursor, blanks: seq<Unit>, bs: seq<Break>)
    requires OnBreaks(inp, c.position, blanks, bs) && c.position < |inp| && IsInput(inp)
    ensures var (r, n) := Skip(inp, c);
            var end := c.position + |blanks| + |Written(bs)|;
            && n == |bs| && r.position == end
            && if bs == [] then
                 var tab := if c.firstTabInLine == -1 then FirstTab(blanks, c.position) else c.firstTabInLine;
                 r == c.(position := end, firstTabInLine := tab)
               else
                 var last := bs[|bs| - 1].blanks;
                 && r.line == c.line + n && r.lineStart + |last| == end
                 && r.lineIndent == Indent(last) && r.firstTabInLine == FirstTab(last, r.lineStart)
    decreases |bs|
  {
    hide SkipBlanks, SkipIndent, ReadLineBreak, Indent, FirstTab, Written, AreBreaks, IsEol, IsBlank, At, OnBreaks;
    InText(inp, c.position, blanks, bs);
    AfterBlanks(inp, c.position, blanks, bs);
    WrittenNothing();
    NoBlanks();
    if inp[c.position] != 0 {
      SkipsBlanks(inp, c, blanks);
      if bs != [] {
        var on := SkipBlanks(inp, c);
        ReadsMark(inp, on, bs);
        var behind, next := ReadLineBreak(inp, on).(lineIndent := 0), bs[0].blanks;
        InText(inp, behind.position, next, bs[1..]);
        AfterBlanks(inp, behind.position, next, bs[1..]);
        SkipsIndent(inp, behind, next);
        var k := Indent(next);
        AfterIndent(inp, behind.position, next, bs[1..], k);
        SkipsBreaks(inp, SkipIndent(inp, behind), next[k..], bs[1..]);
      }
    }
  }

  // ----- Folding -----

  /** Characters that may stand for themselves between quotes. */
  predicate IsText(us: seq<Unit>) {
    forall u :: u in us ==> u == 9 || (u >= 32 && u != 34 && u != 92)
  }

  lemma TextIsQuiet(us: seq<Unit>)
    requires IsText(us)
    ensures IsQuiet(us) && AllJson(us)
  {
  }

  /** `---` or `...` with a blank behind it. */
  predicate IsSeparator(b: seq<Unit>) {
    |b| >= 4 && (b[..3] == [45, 45, 45] || b[..3] == [46, 46, 46]) && (b[3] == 9 || b[3] == 32)
  }

  /** One break reads as a blank, n breaks as n - 1 line feeds. */
  function Fold(n: nat): seq<Unit>
    requires n > 0
  {
    if n == 1 then [32] else seq(n - 1, _ => 10)
  }

  lemma {:induction false} FeedsAreFeeds(k: nat)
    ensures LineFeeds(k) == seq(k, _ => 10)
  {
    if k > 0 {
      FeedsAreFeeds(k - 1);
      assert seq<Unit>(k, _ => 10) == seq<Unit>(k - 1, _ => 10) + [10];
    }
  }

  lemma FoldedIsFold(n: nat)
    requires n > 0
    ensures Folded(n) == Fold(n)
  {
    if n > 1 {
      FeedsAreFeeds(n - 1);
    }
  }

  /** Text behind a break, up to the quote. */
  lemma LastLine(inp: seq<Unit>, c: Cursor, b: seq<Unit>)
    requires IsInput(inp) && At(inp, c.position, b + [34]) && IsText(b) && c.lineStart <= c.position
    ensures Scan(inp, c.position, c)
         == if c.position == c.lineStart && IsSeparator(b) then Fails(DocumentEnd)
            else Scalar(b, c.(position := c.position + |b| + 1))
  {
    hide AllJson, At, IsQuiet, Scan, SeparatorAt;
    AtSplit(inp, c.position, b, [34]);
    FirstOf(inp, c.position + |b|, [34]);
    TextIsQuiet(b);
    if b == [] {
      AtTheQuote(inp, c.position, c, b);
    } else {
      FirstUnit(inp, c, b);
      if c.position != c.lineStart || !IsSeparator(b) {
        var next := c.(position := c.position + 1);
        ScanQuietUnit(inp, c.position, c);
        ScanQuiet(inp, c.position, next, b[1..]);
        AtTheQuote(inp, c.position, c.(position := c.position + |b|), b);
      }
    }
  }

  lemma AtTheQuote(inp: seq<Unit>, start: nat, c: Cursor, b: seq<Unit>)
    requires IsInput(inp) && start <= c.position < |inp| && inp[c.position] == 34
    requires inp[start..c.position] == b && AllJson(b)
    ensures Scan(inp, start, c) == Scalar(b, c.(position := c.position + 1))
  {
  }

  lemma FirstUnit(inp: seq<Unit>, c: Cursor, b: seq<Unit>)
    requires IsInput(inp) && At(inp, c.position, b + [34]) && b != [] && IsText(b)
    ensures c.position + |b| < |inp|
    ensures IsQuiet([inp[c.position]]) && At(inp, c.position + 1, b[1..]) && IsQuiet(b[1..])
    ensures SeparatorAt(inp, c.position) <==> IsSeparator(b)
    ensures c.position == c.lineStart && IsSeparator(b) ==> Scan(inp, c.position, c) == Fails(DocumentEnd)
  {
    hide Scan, AllJson, SeparatorAt, IsSeparator, At, IsText, IsQuiet;
    var p, t := c.position, b + [34];
    SeparatorInText(inp, p, b);
    TextEnd(b);
    FirstOf(inp, p, t);
    assert t == [b[0]] + (b[1..] + [34]);
    AtSplit(inp, p, [b[0]], b[1..] + [34]);
    AtSplit(inp, p + 1, b[1..], [34]);
    if c.position == c.lineStart && IsSeparator(b) {
      StopsAtSeparator(inp, c);
    }
  }

  lemma TextEnd(b: seq<Unit>)
    requires IsText(b) && b != []
    ensures IsQuiet([b[0]]) && IsQuiet(b[1..])
  {
    assert b[0] in b && forall u :: u in b[1..] ==> u in b;
  }

  lemma SeparatorInText(inp: seq<Unit>, p: nat, b: seq<Unit>)
    requires IsInput(inp) && At(inp, p, b + [34]) && b != [] && IsText(b)
    ensures SeparatorAt(inp, p) <==> IsSeparator(b)
  {
    var t := inp[p..p + |b| + 1];
    assert t == b + [34];
    assert forall k :: 0 <= k <= |b| ==> t[k] == inp[p + k];
    assert forall k :: 0 <= k < |b| ==> t[k] == b[k];
    assert t[|b|] == 34;
    if |b| > 3 {
      assert b[3] in b;
    }
  }

  lemma StopsAtSeparator(inp: seq<Unit>, c: Cursor)
    requires IsInput(inp) && c.position < |inp| && IsQuiet([inp[c.position]])
    requires c.position == c.lineStart && SeparatorAt(inp, c.position)
    ensures Scan(inp, c.position, c) == Fails(DocumentEnd)
  {
    hide SeparatorAt, AllJson;
    assert inp[c.position] in [inp[c.position]];
  }

  /** The start of a line: three dashes or three dots end the document if a blank, a break or the end of
      the input stands behind them; any other plain character is read over. */
  lemma LineStarts(inp: seq<Unit>, c: Cursor)
    requires IsInput(inp) && c.position == c.lineStart < |inp| - 1 && IsQuiet([inp[c.position]])
    ensures var p := c.position;
            var ends := p + 3 < |inp| && (inp[p..p + 3] == [45, 45, 45] || inp[p..p + 3] == [46, 46, 46])
              && (inp[p + 3] == 0 || inp[p + 3] == 9 || inp[p + 3] == 32 || inp[p + 3] == 10 || inp[p + 3] == 13);
            Scan(inp, p, c) == if ends then Fails(DocumentEnd) else Scan(inp, p, c.(position := p + 1))
  {
    hide Scan;
    var p := c.position;
    assert p + 3 <= |inp| ==> inp[p..p + 3] == [inp[p], inp[p + 1], inp[p + 2]];
    if SeparatorAt(inp, p) {
      StopsAtSeparator(inp, c);
    } else {
      ScanQuietUnit(inp, p, c);
    }
  }

  /** Line breaks in the middle of plain text: a blank for one break, and one line feed less than there
      are breaks for several. Behind the last break stands text that does not begin with a blank; the
      document ends there if it is a separator at the start of its line. */
  lemma BreaksFold(inp: seq<Unit>, c: Cursor, a: seq<Unit>, bs: seq<Break>, b: seq<Unit>)
    requires IsInput(inp) && At(inp, c.position, a + (Written(bs) + (b + [34]))) && c.lineStart < c.position
    requires IsText(a) && IsText(b) && bs != [] && AreBreaks(bs)
    requires b != [] ==> b[0] != 9 && b[0] != 32
    ensures var r := Scan(inp, c.position, c);
            var n, last := |bs|, bs[|bs| - 1];
            if last.blanks == [] && IsSeparator(b) then r == Fails(DocumentEnd)
            else
              && r.Scalar? && r.next.line == c.line + n
              && r.next.position == c.position + |a| + |Written(bs)| + |b| + 1
              && r.text == a + Fold(n) + b
  {
    hide Scan, Skip, AllJson, At, IsQuiet, IsText, Written, AreBreaks, IsSeparator, Folded, Fold;
    var rest := b + [34];
    AtSplit(inp, c.position, a, Written(bs) + rest);
    AtSplit(inp, c.position + |a|, Written(bs), rest);
    TextIsQuiet(a);
    ScanQuiet(inp, c.position, c, a);
    var on := c.(position := c.position + |a|);
    BehindBreaks(inp, on.position, bs, b);
    SkipsBreaks(inp, on, [], bs);
    FoldedIsFold(|bs|);
    var (next, n) := Skip(inp, on);
    LastLine(inp, next, b);
    TakeFold(inp, c.position, on, a);
  }

  lemma BehindBreaks(inp: seq<Unit>, p: nat, bs: seq<Break>, b: seq<Unit>)
    requires IsInput(inp) && At(inp, p, Written(bs) + (b + [34])) && AreBreaks(bs) && bs != [] && IsText(b)
    requires b != [] ==> b[0] != 9 && b[0] != 32
    ensures OnBreaks(inp, p, [], bs) && At(inp, p + |Written(bs)|, b + [34]) && IsEol(inp[p])
  {
    hide Written, AreBreaks, At, AreBlanks;
    AtSplit(inp, p, Written(bs), b + [34]);
    FirstOf(inp, p + |Written(bs)|, b + [34]);
    assert b != [] ==> b[0] in b;
    assert [] + Written(bs) == Written(bs);
    NoBlanks();
    AfterBlanks(inp, p, [], bs);
  }

  lemma TakeFold(inp: seq<Unit>, start: nat, c: Cursor, a: seq<Unit>)
    requires IsInput(inp) && start <= c.position < |inp| && IsEol(inp[c.position])
    requires inp[start..c.position] == a && AllJson(a)
    ensures var (next, n) := Skip(inp, c);
            Scan(inp, start, c) == Prepend(a + Folded(n), Scan(inp, next.position, next))
  {
    hide Skip, AllJson, Folded;
  }

  /** An escaped break and the breaks behind it are taken out, and the blanks around them. */
  lemma EscapedBreaksVanish(inp: seq<Unit>, c: Cursor, a: seq<Unit>, bs: seq<Break>, b: seq<Unit>)
    requires IsInput(inp) && At(inp, c.position, a + ([92] + (Written(bs) + (b + [34])))) && c.lineStart < c.position
    requires IsText(a) && IsText(b) && bs != [] && AreBreaks(bs)
    requires b != [] ==> b[0] != 9 && b[0] != 32
    ensures var r := Scan(inp, c.position, c);
            var n, last := |bs|, bs[|bs| - 1];
            if last.blanks == [] && IsSeparator(b) then r == Fails(DocumentEnd)
            else
              && r.Scalar? && r.next.line == c.line + n
              && r.next.position == c.position + |a| + 1 + |Written(bs)| + |b| + 1
              && r.text == a + b
  {
    hide Scan, Skip, AllJson, At, IsQuiet, IsText, Written, AreBreaks, IsSeparator;
    var rest := Written(bs) + (b + [34]);
    AtSplit(inp, c.position, a, [92] + rest);
    AtSplit(inp, c.position + |a|, [92], rest);
    FirstOf(inp, c.position + |a|, [92]);
    AtSplit(inp, c.position + |a| + 1, Written(bs), b + [34]);
    TextIsQuiet(a);
    ScanQuiet(inp, c.position, c, a);
    var on := c.(position := c.position + |a|);
    var behind := c.(position := c.position + |a| + 1);
    BehindBreaks(inp, behind.position, bs, b);
    SkipsBreaks(inp, behind, [], bs);
    var next := Skip(inp, behind).0;
    LastLine(inp, next, b);
    TakeEscapedBreaks(inp, c.position, on, a);
  }

  lemma TakeEscapedBreaks(inp: seq<Unit>, start: nat, c: Cursor, a: seq<Unit>)
    requires IsInput(inp) && start <= c.position < |inp| && inp[c.position] == 92 && IsEol(inp[c.position + 1])
    requires inp[start..c.position] == a && AllJson(a)
    ensures var next := Skip(inp, c.(position := c.position + 1)).0;
            Scan(inp, start, c) == Prepend(a, Scan(inp, next.position, next))
  {
    hide Skip, AllJson;
    assert a + [] == a;
  }

  // ----- Escapes -----

  /** The letters behind a backslash and what they stand for, by section 5.7 of YAML 1.2.2. */
  const LETTERS: seq<Unit> := [48, 97, 98, 116, 9, 110, 118, 102, 114, 101, 32, 34, 47, 92, 78, 95, 76, 80]
  const MEANINGS: seq<Unit> := [0, 7, 8, 9, 9, 10, 11, 12, 13, 27, 32, 34, 47, 92, 0x85, 0xA0, 0x2028, 0x2029]

  lemma LettersRead(inp: seq<Unit>, c: Cursor, k: nat)
    requires IsInput(inp) && c.position < |inp| && k < 18 && inp[c.position] == LETTERS[k]
    ensures ReadEscape(inp, c) == Scalar([MEANINGS[k]], c.(position := c.position + 1))
  {
    hide Skip, HexAt;
  }

  /** A hexadecimal digit of either case, and nothing else, has the value of the digit. */
  lemma DigitValue(u: Unit, d: nat)
    requires d < 16
    ensures FromHexCode(u) == d <==> (d < 10 && u == 48 + d) || (d >= 10 && (u == 65 + d - 10 || u == 97 + d - 10))
    ensures -1 <= FromHexCode(u) < 16
  {
  }

  /** Anything but those letters, `x`, `u`, `U` and a line break is refused behind a backslash. */
  lemma OthersAreRefused(inp: seq<Unit>, c: Cursor)
    requires IsInput(inp) && c.position < |inp|
    ensures var u := inp[c.position];
            ReadEscape(inp, c) == Fails(UnknownEscape)
            <==> u !in LETTERS && u !in [120, 117, 85] && u !in [10, 13]
  {
    hide Skip, HexAt, HexValue, CharFromCodepoint;
    var u := inp[c.position];
    assert SimpleEscape(u).Some? <==> u in LETTERS by { LettersAreSimple(u); }
  }

  lemma LettersAreSimple(u: Unit)
    ensures SimpleEscape(u).Some? <==> u in LETTERS
  {
  }

  predicate IsDigit(u: Unit) {
    48 <= u <= 57 || 65 <= u <= 70 || 97 <= u <= 102
  }

  predicate AreDigits(ds: seq<Unit>) {
    forall u :: u in ds ==> IsDigit(u)
  }

  /** The number that hexadecimal digits of either case stand for. */
  function Number(ds: seq<Unit>): int {
    if ds == [] then 0
    else
      var u: int := ds[|ds| - 1];
      16 * Number(ds[..|ds| - 1]) + u - if u <= 57 then 48 else if u <= 70 then 55 else 87
  }

  lemma {:induction false} NumberIsRead(ds: seq<Unit>)
    requires AreDigits(ds) && Number(ds) < 0x8000_0000
    ensures HexValue(ds) == Number(ds) >= 0
  {
    hide ToInt32, AreDigits;
    if ds != [] {
      var front := ds[..|ds| - 1];
      DigitsFront(ds);
      NumberIsNat(front);
      NumberIsRead(front);
      SmallStays(HexValue(front) * 16);
    }
  }

  lemma DigitsFront(ds: seq<Unit>)
    requires ds != [] && AreDigits(ds)
    ensures AreDigits(ds[..|ds| - 1])
    ensures var u: int := ds[|ds| - 1];
            0 <= FromHexCode(ds[|ds| - 1]) == u - (if u <= 57 then 48 else if u <= 70 then 55 else 87) < 16
  {
    assert ds[|ds| - 1] in ds;
    forall u | u in ds[..|ds| - 1]
      ensures IsDigit(u)
    {
      assert u in ds;
    }
  }

  lemma {:induction false} NumberIsNat(ds: seq<Unit>)
    requires AreDigits(ds)
    ensures Number(ds) >= 0
  {
    hide AreDigits;
    if ds != [] {
      DigitsFront(ds);
      NumberIsNat(ds[..|ds| - 1]);
    }
  }

  lemma SmallStays(n: int)
    requires 0 <= n < 0x8000_0000
    ensures ToInt32(n) == n
  {
  }

  lemma DigitsAreHex(ds: seq<Unit>)
    ensures AreDigits(ds) <==> AreHex(ds)
  {
  }

  /** The letters of hexadecimal escapes and the numbers of their digits. */
  predicate IsHexEscape(letter: Unit, width: nat) {
    (letter == 120 && width == 2) || (letter == 117 && width == 4) || (letter == 85 && width == 8)
  }

  /** Behind `x`, `u` and `U`, anything but 2, 4 or 8 digits is refused. */
  lemma NoDigitsAreRefused(inp: seq<Unit>, c: Cursor, width: nat)
    requires IsInput(inp) && c.position < |inp| && IsHexEscape(inp[c.position], width)
    ensures ReadEscape(inp, c) == Fails(ExpectedHex)
            <==> c.position + 1 + width > |inp| || !AreDigits(inp[c.position + 1..c.position + 1 + width])
  {
    hide Skip, HexValue, CharFromCodepoint, AreDigits, AreHex;
    var p := c.position + 1;
    if p + width <= |inp| {
      DigitsAreHex(inp[p..p + width]);
    }
  }

  /** Digits of either case read as the code point with that number. */
  lemma HexEscapesRead(inp: seq<Unit>, c: Cursor, ds: seq<Unit>, p: Point)
    requires IsInput(inp) && c.position < |inp| && IsHexEscape(inp[c.position], |ds|)
    requires At(inp, c.position + 1, ds) && AreDigits(ds) && Number(ds) == p
    ensures ReadEscape(inp, c) == Scalar(UnitsOf(p), c.(position := c.position + 1 + |ds|))
  {
    hide Skip, HexValue, CharFromCodepoint, AreDigits, AreHex, Number, UnitsOf;
    DigitsAreHex(ds);
    NumberIsRead(ds);
    CodepointRoundTrip(p);
  }
}
