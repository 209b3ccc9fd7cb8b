/** js-yaml's reader of double-quoted scalars, with the state it updates. */
module YamlReader {
  import opened Wrappers
  import opened Utf8
  import opened Words
  import opened YamlEscape
  import opened YamlScalar

  datatype Reading = NotQuoted | Done | Thrown(error: Error)

  class Reader {
    const input: seq<Unit>
    var position: nat
    var line: nat
    var lineStart: nat
    var lineIndent: nat
    var firstTabInLine: int
    var result: seq<Unit>

    function Here(): Cursor
      reads this
    {
      Cursor(position, line, lineStart, lineIndent, firstTabInLine)
    }

    predicate Valid()
      reads this
    {
      IsInput(input) && position < |input|
    }

    constructor (text: seq<Unit>)
      ensures input == text + [0] && Valid() && Here() == Cursor(0, 0, 0, 0, -1)
    {
      input := text + [0];
      position, line, lineStart, lineIndent, firstTabInLine := 0, 0, 0, 0, -1;
      result := [];
    }

    method ReadLineBreak()
      requires Valid() && IsEol(input[position])
      modifies this
      ensures Valid() && Here() == YamlScalar.ReadLineBreak(input, old(Here())) && result == old(result)
    {
      if input[position] == 10 {
        position := position + 1;
      } else {
        position := position + 1;
        if input[position] == 10 {
          position := position + 1;
        }
      }
      line, lineStart, firstTabInLine := line + 1, position, -1;
    }

    method SkipBlanks()
      requires Valid()
      modifies this
      ensures Valid() && Here() == YamlScalar.SkipBlanks(input, old(Here())) && result == old(result)
    {
      while IsBlank(input[position])
        invariant Valid() && result == old(result)
        invariant YamlScalar.SkipBlanks(input, Here()) == YamlScalar.SkipBlanks(input, old(Here()))
        decreases |input| - position
      {
        if input[position] == 9 && firstTabInLine == -1 {
          firstTabInLine := position;
        }
        position := position + 1;
      }
    }

    method SkipIndent()
      requires Valid()
      modifies this
      ensures Valid() && Here() == YamlScalar.SkipIndent(input, old(Here())) && result == old(result)
    {
      while input[position] == 32
        invariant Valid() && result == old(result)
        invariant YamlScalar.SkipIndent(input, Here()) == YamlScalar.SkipIndent(input, old(Here()))
        decreases |input| - position
      {
        lineIndent := lineIndent + 1;
        position := position + 1;
      }
    }

    /** Without comments, as in a quoted scalar. */
    method SkipSeparationSpace() returns (breaks: nat)
      requires Valid()
      modifies this
      ensures Valid() && (Here(), breaks) == Skip(input, old(Here())) && result == old(result)
    {
      hide YamlScalar.SkipBlanks, YamlScalar.SkipIndent, YamlScalar.ReadLineBreak;
      breaks := 0;
      while input[position] != 0
        invariant Valid() && result == old(result)
        invariant var (c, n) := Skip(input, Here()); Skip(input, old(Here())) == (c, breaks + n)
        decreases |input| - position
      {
        SkipBlanks();
        if !IsEol(input[position]) {
          break;
        }
        ReadLineBreak();
        breaks := breaks + 1;
        lineIndent := 0;
        SkipIndent();
      }
    }

    method TestDocumentSeparator() returns (found: bool)
      requires Valid()
      ensures found == SeparatorAt(input, position)
    {
      var p := position;
      var ch := input[p];
      if ch == 45 || ch == 46 {
        if ch == input[p + 1] && ch == input[p + 2] {
          p := p + 3;
          ch := input[p];
          if ch == 0 || IsBlank(ch) || IsEol(ch) {
            return true;
          }
        }
      }
      return false;
    }

    method WriteFoldedLines(breaks: nat)
      modifies this`result
      ensures result == old(result) + Folded(breaks)
    {
      if breaks == 1 {
        result := result + [32];
      } else if breaks > 1 {
        var feeds := [];
        for k := 0 to breaks - 1
          invariant feeds == LineFeeds(k)
        {
          feeds := feeds + [10];
        }
        result := result + feeds;
      }
    }

    method CaptureSegment(start: nat, end: nat) returns (ok: bool)
      requires start <= end <= |input|
      modifies this`result
      ensures ok == AllJson(input[start..end])
      ensures result == if ok then old(result) + input[start..end] else old(result)
    {
      var segment := input[start..end];
      if start < end {
        for i := 0 to |segment|
          invariant AllJson(segment[..i])
        {
          assert segment[..i + 1] == segment[..i] + [segment[i]];
          if !IsJson(segment[i]) {
            assert segment[i] in segment;
            return false;
          }
        }
        assert segment[..|segment|] == segment;
        result := result + segment;
      }
      return true;
    }

    /** The digits of a hexadecimal escape; the reader stands on its letter. */
    method ReadHex(width: nat) returns (ok: bool)
      requires Valid() && width > 0 && position + 1 < |input|
      modifies this`position, this`result
      ensures var p := old(position) + 1;
              && ok == HexAt(input, p, width)
              && (ok ==> Valid() && position == p + width)
              && (ok ==> result == old(result) + CharFromCodepoint(HexValue(input[p..p + width])))
    {
      hide CharFromCodepoint, FromHexCode, ToInt32, HexAt, HexValue, AreHex;
      ghost var p := position + 1;
      ghost var ds := [];
      NoDigits();
      var i, n := width, 0;
      while i > 0
        invariant 0 <= i <= width && position + 1 == p + |ds| < |input| && |ds| == width - i
        invariant ds == input[p..p + |ds|] && AreHex(ds) && n == HexValue(ds) && result == old(result)
      {
        position := position + 1;
        MoreHex(input, p, ds, width);
        var d := FromHexCode(input[position]);
        if d >= 0 {
          n := ToInt32(n * 16) + d;
        } else {
          return false;
        }
        ds := input[p..p + |ds| + 1];
        i := i - 1;
      }
      HexDone(input, p, ds);
      result := result + CharFromCodepoint(n);
      position := position + 1;
      return true;
    }

    /** What stands behind a backslash. */
    method ReadEscape() returns (error: Option<Error>)
      requires Valid()
      modifies this
      ensures var e := YamlScalar.ReadEscape(input, old(Here()));
              match e
              case Scalar(text, next) => error == None && Valid() && Here() == next && result == old(result) + text
              case Fails(r) => error == Some(r)
    {
      hide Skip, SimpleEscape, HexAt, HexValue, CharFromCodepoint;
      var ch := input[position];
      if IsEol(ch) {
        var _ := SkipSeparationSpace();
      } else if SimpleEscape(ch).Some? {
        result := result + [SimpleEscape(ch).value];
        position := position + 1;
      } else if HexWidth(ch) > 0 {
        var ok := ReadHex(HexWidth(ch));
        if !ok {
          return Some(ExpectedHex);
        }
      } else {
        return Some(UnknownEscape);
      }
      return None;
    }

    /** The reader has come to outcome o. */
    ghost predicate CameTo(o: Outcome, r: Reading)
      reads this
    {
      match o
      case Scalar(text, next) => r == Done && Valid() && Here() == next && result == text
      case Fails(error) => r == Thrown(error)
    }

    /** A backslash and what it stands for. */
    method TakeEscape(captureStart: nat) returns (error: Option<Error>)
      requires Valid() && captureStart <= position && input[position] == BACKSLASH
      modifies this
      ensures var goal := Prepend(old(result), Scan(input, captureStart, old(Here())));
              if error.Some? then goal == Fails(error.value)
              else Valid() && old(position) < position && goal == Prepend(result, Scan(input, position, Here()))
    {
      hide Skip, YamlScalar.ReadEscape, AllJson, SeparatorAt, Folded;
      ghost var segment := input[captureStart..position];
      var ok := CaptureSegment(captureStart, position);
      if !ok {
        return Some(BadCharacter);
      }
      position := position + 1;
      ghost var e := YamlScalar.ReadEscape(input, Here());
      error := ReadEscape();
      if error.None? {
        PrependTwice(old(result), segment, e.text, Scan(input, position, Here()));
      }
    }

    /** Line breaks and what they fold to. */
    method TakeBreaks(captureStart: nat) returns (ok: bool)
      requires Valid() && captureStart <= position && IsEol(input[position])
      modifies this
      ensures var goal := Prepend(old(result), Scan(input, captureStart, old(Here())));
              if !ok then goal == Fails(BadCharacter)
              else Valid() && old(position) < position && goal == Prepend(result, Scan(input, position, Here()))
    {
      hide Skip, YamlScalar.ReadEscape, AllJson, SeparatorAt, Folded;
      ghost var segment := input[captureStart..position];
      ok := CaptureSegment(captureStart, position);
      if ok {
        var breaks := SkipSeparationSpace();
        WriteFoldedLines(breaks);
        PrependTwice(old(result), segment, Folded(breaks), Scan(input, position, Here()));
      }
    }

    /** One turn of the loop; Some if it returns or throws. */
    method Turn(captureStart: nat) returns (r: Option<Reading>, captureStart': nat)
      requires Valid() && captureStart <= position && input[position] != 0
      modifies this
      ensures var goal := Prepend(old(result), Scan(input, captureStart, old(Here())));
              if r.Some? then CameTo(goal, r.value)
              else && Valid() && captureStart' <= position && old(position) < position
                   && goal == Prepend(result, Scan(input, captureStart', Here()))
    {
      hide Skip, YamlScalar.ReadEscape, AllJson, SeparatorAt, Folded;
      captureStart' := captureStart;
      var ch := input[position];
      if ch == QUOTE {
        var ok := CaptureSegment(captureStart, position);
        if !ok {
          return Some(Thrown(BadCharacter)), captureStart;
        }
        position := position + 1;
        return Some(Done), captureStart;
      } else if ch == BACKSLASH {
        var error := TakeEscape(captureStart);
        if error.Some? {
          return Some(Thrown(error.value)), captureStart;
        }
        captureStart' := position;
      } else if IsEol(ch) {
        var ok := TakeBreaks(captureStart);
        if !ok {
          return Some(Thrown(BadCharacter)), captureStart;
        }
        captureStart' := position;
      } else {
        if position == lineStart {
          var separator := TestDocumentSeparator();
          if separator {
            return Some(Thrown(DocumentEnd)), captureStart;
          }
        }
        position := position + 1;
      }
      return None, captureStart';
    }

    /** The whole scalar, read as Scan says; nothing happens if no quote is there. */
    method ReadDoubleQuotedScalar() returns (r: Reading)
      requires Valid()
      modifies this
      ensures r.NotQuoted? <==> input[old(position)] != QUOTE
      ensures r.NotQuoted? ==> Here() == old(Here()) && result == old(result)
      ensures !r.NotQuoted? ==>
        var c := old(Here()).(position := old(position) + 1);
        CameTo(Scan(input, c.position, c), r)
    {
      hide Scan, CameTo;
      if input[position] != QUOTE {
        return NotQuoted;
      }
      result := [];
      position := position + 1;
      var captureStart: nat := position;
      ghost var whole := Scan(input, position, Here());
      PrependNothing(whole);
      while input[position] != 0
        invariant Valid() && captureStart <= position
        invariant whole == Prepend(result, Scan(input, captureStart, Here()))
        decreases |input| - position
      {
        var step;
        step, captureStart := Turn(captureStart);
        if step.Some? {
          OnlyReads(whole, step.value);
          return step.value;
        }
      }
      ScanEnds(input, captureStart, Here());
      assert CameTo(Fails(StreamEnd), Thrown(StreamEnd)) by { OnlyReads(Fails(StreamEnd), Thrown(StreamEnd)); }
      return Thrown(StreamEnd);
    }

    lemma OnlyReads(o: Outcome, r: Reading)
      ensures CameTo(o, r) ==> !r.NotQuoted?
      ensures o.Fails? && r == Thrown(o.error) ==> CameTo(o, r)
    {
    }
  }

  lemma PrependNothing(o: Outcome)
    ensures Prepend([], o) == o
  {
    if o.Scalar? {
      assert [] + o.text == o.text;
    }
  }

  lemma PrependTwice(a: seq<Unit>, b: seq<Unit>, c: seq<Unit>, o: Outcome)
    ensures Prepend(a, Prepend(b + c, o)) == Prepend(a + b + c, o)
  {
    if o.Scalar? {
      assert a + (b + c + o.text) == a + b + c + o.text;
    }
  }

  lemma ScanEnds(inp: seq<Unit>, start: nat, c: Cursor)
    requires IsInput(inp) && start <= c.position < |inp| && inp[c.position] == 0
    ensures Scan(inp, start, c) == Fails(StreamEnd)
  {
  }

  /** One more digit, or the character that is none. */
  lemma MoreHex(inp: seq<Unit>, p: nat, ds: seq<Unit>, width: nat)
    requires IsInput(inp) && p + |ds| < |inp| && |ds| < width && AreHex(ds) && ds == inp[p..p + |ds|]
    ensures var more, d := inp[p..p + |ds| + 1], FromHexCode(inp[p + |ds|]);
            if d < 0 then !HexAt(inp, p, width)
            else p + |ds| + 1 < |inp| && AreHex(more) && HexValue(more) == ToInt32(HexValue(ds) * 16) + d
  {
    hide ToInt32;
    var more, u := inp[p..p + |ds| + 1], inp[p + |ds|];
    assert more == ds + [u] && more[..|ds|] == ds;
    if p + width <= |inp| {
      assert inp[p..p + width][|ds|] == u;
      assert inp[p..p + width][|ds|] in inp[p..p + width];
    }
  }

  lemma HexDone(inp: seq<Unit>, p: nat, ds: seq<Unit>)
    requires p + |ds| <= |inp| && AreHex(ds) && ds == inp[p..p + |ds|]
    ensures HexAt(inp, p, |ds|)
  {
  }
}
