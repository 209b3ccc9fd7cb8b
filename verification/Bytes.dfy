/** Bytes, buffers filled, overwritten and joined. */
module Bytes {
  import opened Sequences

  type Byte = b: int | 0 <= b < 256

  /** No buffer is longer. */
  const MAX_LENGTH: nat := 0x7FFF_FFFF

  function ZeroBytes(k: nat): (z: seq<Byte>)
    ensures |z| == k
  {
    seq(k, _ => 0)
  }

  /** Bytes with others written over them from a position on. */
  function Put(into: seq<Byte>, at: nat, bytes: seq<Byte>): seq<Byte>
    requires at + |bytes| <= |into|
  {
    into[..at] + bytes + into[at + |bytes|..]
  }

  /** Copy bytes into a buffer. */
  method WriteBytes(into: array<Byte>, at: nat, bytes: seq<Byte>)
    requires at + |bytes| <= into.Length
    modifies into
    ensures into[..] == Put(old(into[..]), at, bytes)
  {
    for i := 0 to |bytes|
      invariant into[..at + i] == old(into[..at]) + bytes[..i] && into[at + i..] == old(into[at + i..])
    {
      into[at + i] := bytes[i];
    }
    assert bytes[..|bytes|] == bytes && into[..] == into[..at + |bytes|] + into[at + |bytes|..];
  }

  function Concat(chunks: seq<seq<Byte>>): seq<Byte> {
    if chunks == [] then [] else chunks[0] + Concat(chunks[1..])
  }

  lemma {:induction false} ConcatSplit(a: seq<seq<Byte>>, b: seq<seq<Byte>>)
    ensures Concat(a + b) == Concat(a) + Concat(b)
  {
    if a == [] {
      assert a + b == b;
    } else {
      ConcatSplit(a[1..], b);
      assert (a + b)[1..] == a[1..] + b;
      Regroup(a[0], Concat(a[1..]), Concat(b));
    }
  }

  lemma ConcatSnoc(chunks: seq<seq<Byte>>, b: seq<Byte>)
    ensures Concat(chunks + [b]) == Concat(chunks) + b
  {
    ConcatSplit(chunks, [b]);
    assert [b][1..] == [];
  }
}
