/** The StringDecoder object: its three fields, and the methods that update them in place. */
module StringDecoder {
  import opened Wrappers
  import opened Bytes
  import opened Utf8
  import opened Utf8Loops
  import Spec = StringDecoderSpec

  class StringDecoder {
    var lastNeed: int
    var lastTotal: int
    const lastChar: array<Byte>

    constructor ()
      ensures Spec.IsNew(State()) && fresh(lastChar)
    {
      lastNeed, lastTotal := 0, 0;
      lastChar := new Byte[4];
    }

    ghost function State(): Spec.State
      reads this, lastChar
    {
      Spec.State(lastNeed, lastTotal, lastChar[..])
    }

    ghost predicate Valid()
      reads this, lastChar
    {
      Spec.Valid(State())
    }

    /** Sets lastNeed where a character is begun, and returns its length. */
    method Utf8CheckIncomplete(buf: seq<Byte>, i: nat) returns (total: int)
      requires lastNeed == 0
      modifies this`lastNeed
      ensures (total, lastNeed) == Spec.CheckIncomplete(buf, i)
    {
      hide Spec.CheckByte;
      var j := |buf| - 1;
      if j < i {
        return 0;
      }
      var nb := Spec.CheckByte(buf[j]);
      if nb >= 0 {
        if nb > 0 {
          lastNeed := nb - 1;
        }
        return nb;
      }
      j := j - 1;
      if j < i || nb == -2 {
        return 0;
      }
      nb := Spec.CheckByte(buf[j]);
      if nb >= 0 {
        if nb > 0 {
          lastNeed := nb - 2;
        }
        return nb;
      }
      j := j - 1;
      if j < i || nb == -2 {
        return 0;
      }
      nb := Spec.CheckByte(buf[j]);
      if nb >= 0 {
        if nb > 0 {
          if nb == 2 {
            nb := 0;
          } else {
            lastNeed := nb - 3;
          }
        }
        return nb;
      }
      return 0;
    }

    /** Sets lastNeed to the place of the first byte that does not continue the character. */
    method Utf8CheckExtraBytes(buf: seq<Byte>) returns (replaced: bool)
      requires buf != []
      modifies this`lastNeed
      ensures var extra := Spec.CheckExtraBytes(old(lastNeed), buf);
              replaced == extra.Some? && lastNeed == if extra.Some? then extra.value else old(lastNeed)
    {
      hide IsContinuation;
      if !IsContinuation(buf[0]) {
        lastNeed := 0;
        return true;
      }
      if lastNeed > 1 && |buf| > 1 {
        if !IsContinuation(buf[1]) {
          lastNeed := 1;
          return true;
        }
        if lastNeed > 2 && |buf| > 2 {
          if !IsContinuation(buf[2]) {
            lastNeed := 2;
            return true;
          }
        }
      }
      return false;
    }

    method Utf8FillLast(buf: seq<Byte>) returns (r: Option<seq<Unit>>)
      requires Valid() && lastNeed > 0 && buf != []
      modifies this, lastChar
      ensures (State(), r) == Spec.FillLast(old(State()), buf)
    {
      hide IsContinuation, Decode, Spec.CheckExtraBytes, Put;
      var p := lastTotal - lastNeed;
      var replaced := Utf8CheckExtraBytes(buf);
      if replaced {
        return Some([REPLACEMENT]);
      }
      if lastNeed <= |buf| {
        WriteBytes(lastChar, p, buf[..lastNeed]);
        var text := Utf8Slice(lastChar[..], 0, lastTotal);
        assert lastChar[..][0..lastTotal] == lastChar[..][..lastTotal];
        return Some(text);
      }
      WriteBytes(lastChar, p, buf);
      lastNeed := lastNeed - |buf|;
      return None;
    }

    method Utf8Text(buf: seq<Byte>, i: nat) returns (text: seq<Unit>)
      requires Valid() && lastNeed == 0 && i <= |buf|
      modifies this, lastChar
      ensures (State(), text) == Spec.Text(old(State()), buf, i)
    {
      hide Decode, Spec.CheckIncomplete, Put;
      var total := Utf8CheckIncomplete(buf, i);
      if lastNeed == 0 {
        text := Utf8Slice(buf, i, |buf|);
        assert buf[i..|buf|] == buf[i..];
        return;
      }
      lastTotal := total;
      var end := |buf| - (total - lastNeed);
      WriteBytes(lastChar, 0, buf[end..]);
      text := Utf8Slice(buf, i, end);
    }

    /** Decode a chunk. */
    method Write(buf: seq<Byte>) returns (text: seq<Unit>)
      requires Valid()
      modifies this, lastChar
      ensures Valid() && (State(), text) == Spec.Write(old(State()), buf)
    {
      hide Decode, Spec.FillLast, Spec.Text;
      Spec.WriteKeepsValid(State(), buf);
      if buf == [] {
        return [];
      }
      var i := 0;
      text := [];
      if lastNeed != 0 {
        Spec.FillKeepsValid(State(), buf);
        var r := Utf8FillLast(buf);
        if r.None? {
          return [];
        }
        text := r.value;
        i := lastNeed;
        lastNeed := 0;
      }
      if i < |buf| {
        var rest := Utf8Text(buf, i);
        assert [] + rest == rest;
        text := text + rest;
      }
    }

    /** The last chunk, if any, and a replacement for a character that was cut off. */
    method End(buf: seq<Byte>) returns (text: seq<Unit>)
      requires Valid()
      modifies this, lastChar
      ensures var (d, s) := Spec.Write(old(State()), buf);
              State() == d && text == s + Spec.End(d)
    {
      hide Spec.FillLast, Spec.Text;
      text := Write(buf);
      if lastNeed != 0 {
        text := text + [REPLACEMENT];
      }
    }
  }
}
