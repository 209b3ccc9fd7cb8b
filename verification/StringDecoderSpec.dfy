/** The UTF-8 StringDecoder: bytes arrive in chunks, and a character cut between two chunks is
    held back until its last byte is there. */
module StringDecoderSpec {
  import opened Wrappers
  import opened Bytes
  import opened Utf8

  datatype State = State(lastNeed: int, lastTotal: int, lastChar: seq<Byte>)

  /** The state of a new decoder; what the four bytes hold does not matter. */
  predicate IsNew(d: State) {
    d.lastNeed == 0 && d.lastTotal == 0 && |d.lastChar| == 4
  }

  ghost predicate Valid(d: State) {
    |d.lastChar| == 4 && d.lastNeed >= 0 && (d.lastNeed > 0 ==> d.lastNeed < d.lastTotal <= 4)
  }

  /** How many bytes a character has that starts with this byte: 0 for one byte, -1 for a
      continuation byte, -2 for a byte that starts nothing. */
  function CheckByte(b: Byte): int {
    if b <= 0x7F then 0
    else if b / 32 == 0x06 then 2
    else if b / 16 == 0x0E then 3
    else if b / 8 == 0x1E then 4
    else if b / 64 == 0x02 then -1
    else -2
  }

  /** Look at up to three bytes at the end of buf[i..]: the length of the character begun there,
      and how many bytes it still needs. */
  function CheckIncomplete(buf: seq<Byte>, i: nat): (r: (int, int))
    ensures r.1 >= 0 && (r.1 > 0 ==> r.1 < r.0 <= 4 && r.0 - r.1 <= |buf| - i)
  {
    var j := |buf| - 1;
    if j < i then (0, 0)
    else
      var nb := CheckByte(buf[j]);
      if nb >= 0 then (nb, if nb > 0 then nb - 1 else 0)
      else if j - 1 < i || nb == -2 then (0, 0)
      else
        var nb := CheckByte(buf[j - 1]);
        if nb >= 0 then (nb, if nb > 0 then nb - 2 else 0)
        else if j - 2 < i || nb == -2 then (0, 0)
        else
          var nb := CheckByte(buf[j - 2]);
          if nb == 2 then (0, 0)
          else if nb >= 0 then (nb, if nb > 0 then nb - 3 else 0)
          else (0, 0)
  }

  /** The first byte of the chunk that should continue the held character and does not. */
  function CheckExtraBytes(lastNeed: int, buf: seq<Byte>): (r: Option<int>)
    requires buf != []
    ensures r.Some? ==> 0 <= r.value < |buf| && (lastNeed > 0 ==> r.value < lastNeed)
  {
    if !IsContinuation(buf[0]) then Some(0)
    else if lastNeed > 1 && |buf| > 1 && !IsContinuation(buf[1]) then Some(1)
    else if lastNeed > 2 && |buf| > 2 && !IsContinuation(buf[2]) then Some(2)
    else None
  }

  /** Complete the held character if the chunk allows; None where the source returns undefined. */
  function FillLast(d: State, buf: seq<Byte>): (State, Option<seq<Unit>>)
    requires Valid(d) && d.lastNeed > 0 && buf != []
  {
    var p := d.lastTotal - d.lastNeed;
    var extra := CheckExtraBytes(d.lastNeed, buf);
    if extra.Some? then (d.(lastNeed := extra.value), Some([REPLACEMENT]))
    else if d.lastNeed <= |buf| then
      var filled := Put(d.lastChar, p, buf[..d.lastNeed]);
      (d.(lastChar := filled), Some(Decode(filled[..d.lastTotal])))
    else (d.(lastChar := Put(d.lastChar, p, buf), lastNeed := d.lastNeed - |buf|), None)
  }

  function Text(d: State, buf: seq<Byte>, i: nat): (State, seq<Unit>)
    requires Valid(d) && d.lastNeed == 0 && i <= |buf|
  {
    var (total, need) := CheckIncomplete(buf, i);
    if need == 0 then (d, Decode(buf[i..]))
    else
      var end := |buf| - (total - need);
      (State(need, total, Put(d.lastChar, 0, buf[end..])), Decode(buf[i..end]))
  }

  function Write(d: State, buf: seq<Byte>): (State, seq<Unit>)
    requires Valid(d)
  {
    if buf == [] then (d, [])
    else if d.lastNeed > 0 then
      var (f, r) := FillLast(d, buf);
      if r.None? then (f, [])
      else
        var i := f.lastNeed;
        var cleared := f.(lastNeed := 0);
        if i < |buf| then
          var (t, text) := Text(cleared, buf, i);
          (t, r.value + text)
        else (cleared, r.value)
    else Text(d, buf, 0)
  }

  function End(d: State): seq<Unit> {
    if d.lastNeed > 0 then [REPLACEMENT] else []
  }

  lemma FillKeepsValid(d: State, buf: seq<Byte>)
    requires Valid(d) && d.lastNeed > 0 && buf != []
    ensures Valid(FillLast(d, buf).0) && (FillLast(d, buf).1.Some? ==> FillLast(d, buf).0.lastNeed <= |buf|)
  {
    hide Decode, CheckExtraBytes;
  }

  lemma WriteKeepsValid(d: State, buf: seq<Byte>)
    requires Valid(d)
    ensures Valid(Write(d, buf).0)
  {
    hide Decode, CheckIncomplete, CheckExtraBytes;
  }

  /** The strings returned for chunks written one after the other, joined, and the final state. */
  function WriteAll(d: State, chunks: seq<seq<Byte>>): (r: (State, seq<Unit>))
    requires Valid(d)
    ensures Valid(r.0)
    decreases |chunks|
  {
    if chunks == [] then (d, [])
    else
      WriteKeepsValid(d, chunks[0]);
      var (w, s) := Write(d, chunks[0]);
      var (final, rest) := WriteAll(w, chunks[1..]);
      (final, s + rest)
  }
}
