/** The block buffering of the hash functions. What a subclass does with a block is left open:
    the blocks it is given are kept. */
module HashBlocks {
  import opened Bytes
  import opened Sequences
  import opened Words
  import opened HashPadding

  /** `block.fill(0, from)` */
  method FillZero(block: array<Byte>, from: nat)
    requires from <= block.Length
    modifies block
    ensures block[..] == old(block[..from]) + ZeroBytes(block.Length - from)
  {
    for i := from to block.Length
      invariant block[..i] == old(block[..from]) + ZeroBytes(i - from)
    {
      block[i] := 0;
    }
    assert block[..block.Length] == block[..];
  }

  class Hash {
    const block: array<Byte>
    const blockSize: nat
    const finalSize: nat
    var len: nat
    /** The blocks passed to `_update`. */
    var blocks: seq<seq<Byte>>
    /** All bytes passed to Update. */
    ghost var message: seq<Byte>

    ghost predicate Valid()
      reads this, block
    {
      && IsFormat(blockSize, finalSize) && block.Length == blockSize
      && len == |message| && AreBlocks(blocks, blockSize)
      && Concat(blocks) + block[..Fill(len, blockSize)] == message
    }

    constructor (blockSize: nat, finalSize: nat)
      requires IsFormat(blockSize, finalSize)
      ensures Valid() && message == [] && this.blockSize == blockSize && this.finalSize == finalSize && fresh(block)
    {
      block := new Byte[blockSize](_ => 0);
      this.blockSize, this.finalSize := blockSize, finalSize;
      len, blocks, message := 0, [], [];
    }

    /** Hand the block on. */
    method Feed()
      requires AreBlocks(blocks, blockSize) && block.Length == blockSize
      modifies this`blocks
      ensures Concat(blocks) == old(Concat(blocks)) + block[..] && AreBlocks(blocks, blockSize)
    {
      ConcatSnoc(blocks, block[..]);
      blocks := blocks + [block[..]];
    }

    /** One turn of the loop: fill up the block as far as the data goes. */
    method Step(data: seq<Byte>, offset: nat, accum: nat) returns (n: nat)
      requires IsFormat(blockSize, finalSize) && block.Length == blockSize && AreBlocks(blocks, blockSize)
      requires offset < |data|
      modifies this`blocks, block
      ensures 0 < n <= |data| - offset && AreBlocks(blocks, blockSize)
      ensures Concat(blocks) + block[..Fill(accum + n, blockSize)]
           == old(Concat(blocks) + block[..Fill(accum, blockSize)]) + data[offset..offset + n]
    {
      hide Fill, Concat, AreBlocks;
      var start := Fill(accum, blockSize);
      n := if |data| - offset < blockSize - start then |data| - offset else blockSize - start;
      FillStep(accum, n, blockSize);
      ghost var before, filled := Concat(blocks), block[..start];
      WriteBytes(block, start, data[offset..offset + n]);
      Filled(block[..], filled, data[offset..offset + n], old(block[start + n..]));
      Regroup(before, filled, data[offset..offset + n]);
      if Fill(accum + n, blockSize) == 0 {
        Feed();
        assert block[..] == block[..start + n] && block[..0] == [];
        assert Concat(blocks) + [] == Concat(blocks);
      }
    }

    /** Add data to the message; the blocks it completes are handed on. */
    method Update(data: seq<Byte>)
      requires Valid()
      modifies this, block
      ensures Valid() && message == old(message) + data
    {
      hide Fill, Concat, AreBlocks;
      var accum := len;
      var offset := 0;
      assert message + data[..0] == message;
      while offset < |data|
        invariant offset <= |data| && accum == len + offset && len == old(len) && message == old(message)
        invariant AreBlocks(blocks, blockSize) && Concat(blocks) + block[..Fill(accum, blockSize)]
            == message + data[..offset]
      {
        var n := Step(data, offset, accum);
        assert message + data[..offset] + data[offset..offset + n] == message + data[..offset + n];
        accum, offset := accum + n, offset + n;
      }
      assert data[..offset] == data;
      len, message := len + |data|, message + data;
    }

    /** The length in bits, at the end of a block that is zero from n on. */
    method WriteLength(ghost n: nat)
      requires block.Length == blockSize && 8 <= blockSize && n + 8 <= blockSize && len <= MAX_BYTES
      requires block[n..] == ZeroBytes(blockSize - n)
      modifies block
      ensures block[..] == old(block[..n]) + LastBytes(8 * len, blockSize - n)
    {
      hide Word32, BigEndian;
      var bits := 8 * len;
      if bits < 0x1_0000_0000 {
        ShortLength(bits);
        WriteBytes(block, blockSize - 4, Word32(bits));
      } else {
        var low := bits % 0x1_0000_0000;
        var high := (bits - low) / 0x1_0000_0000;
        WriteBytes(block, blockSize - 8, Word32(high));
        WriteBytes(block, blockSize - 4, Word32(low));
      }
    }

    /** A one bit behind the message, and zeros up to the end of the block. */
    method Mark(rem: nat)
      requires rem < block.Length
      modifies block
      ensures block[..] == old(block[..rem]) + [0x80] + ZeroBytes(block.Length - rem - 1)
    {
      block[rem] := 0x80;
      FillZero(block, rem + 1);
      assert block[..] == old(block[..rem]) + [0x80] + ZeroBytes(block.Length - rem - 1);
    }

    /** The last block, which is zero from n on. */
    method Close(ghost n: nat)
      requires block.Length == blockSize && 8 <= blockSize && n + 8 <= blockSize && len <= MAX_BYTES
      requires block[n..] == ZeroBytes(blockSize - n) && AreBlocks(blocks, blockSize)
      modifies this`blocks, block
      ensures AreBlocks(blocks, blockSize)
      ensures Concat(blocks) == old(Concat(blocks) + block[..n]) + LastBytes(8 * len, blockSize - n)
    {
      hide Concat, AreBlocks, LastBytes;
      ghost var fed, front := Concat(blocks), block[..n];
      WriteLength(n);
      Feed();
      Regroup(fed, front, LastBytes(8 * len, blockSize - n));
    }

    /** The length has no room: this block is handed on, and another one takes it. */
    method Overflow()
      requires block.Length == blockSize && 8 <= blockSize && len <= MAX_BYTES && AreBlocks(blocks, blockSize)
      modifies this`blocks, block
      ensures AreBlocks(blocks, blockSize)
      ensures Concat(blocks) == old(Concat(blocks) + block[..]) + LastBytes(8 * len, blockSize)
    {
      hide Concat, AreBlocks, LastBytes, ZeroBytes;
      Feed();
      FillZero(block, 0);
      NoFront(block[..], Concat(blocks), ZeroBytes(blockSize));
      Close(0);
    }

    /** The blocks handed on are those of the padded message. */
    method Digest()
      requires Valid() && |message| <= MAX_BYTES
      modifies this, block
      ensures AreBlocks(blocks, blockSize) && Concat(blocks) == Padded(message, blockSize, finalSize)
      ensures message == old(message)
    {
      hide Fill, Concat, AreBlocks, LastBytes, Padded, ZeroBytes;
      var rem := Fill(len, blockSize);
      PaddedBlocks(message, blockSize, finalSize);
      ghost var fed, tail, zeros := Concat(blocks), block[..rem], ZeroBytes(blockSize - rem - 1);
      Mark(rem);
      Marked(fed, tail, zeros);
      if rem >= finalSize {
        Overflow();
      } else {
        MarkedFront(block[..], tail, zeros);
        Close(rem + 1);
        Regroup(fed, tail, [0x80]);
      }
    }
  }

  lemma Marked(fed: seq<Byte>, tail: seq<Byte>, zeros: seq<Byte>)
    ensures fed + (tail + [0x80] + zeros) == fed + tail + [0x80] + zeros
  {
  }

  lemma MarkedFront(block: seq<Byte>, tail: seq<Byte>, zeros: seq<Byte>)
    requires block == tail + [0x80] + zeros
    ensures block[..|tail| + 1] == tail + [0x80] && block[|tail| + 1..] == zeros
  {
  }

  lemma NoFront(block: seq<Byte>, fed: seq<Byte>, zeros: seq<Byte>)
    ensures block[..0] == [] && block[0..] == block && fed + [] == fed && [] + zeros == zeros
  {
  }

  lemma ShortLength(bits: nat)
    requires bits < 0x1_0000_0000
    ensures Word32(bits / 0x1_0000_0000) == ZeroBytes(4) && bits % 0x1_0000_0000 == bits
  {
  }

  lemma Filled(block: seq<Byte>, a: seq<Byte>, b: seq<Byte>, c: seq<Byte>)
    requires block == a + b + c
    ensures block[..|a| + |b|] == a + b
  {
  }

  lemma ConcatNothing()
    ensures Concat([]) == []
  {
  }

  /** However a message is split across updates, the blocks are those of the padded message. */
  method HashChunks(chunks: seq<seq<Byte>>, blockSize: nat, finalSize: nat) returns (blocks: seq<seq<Byte>>)
    requires IsFormat(blockSize, finalSize) && |Concat(chunks)| <= MAX_BYTES
    ensures AreBlocks(blocks, blockSize) && Concat(blocks) == Padded(Concat(chunks), blockSize, finalSize)
  {
    hide Padded, AreBlocks, Concat;
    assert Concat([]) == [] by { ConcatNothing(); }
    var h := new Hash(blockSize, finalSize);
    for i := 0 to |chunks|
      invariant h.Valid() && fresh(h) && fresh(h.block) && h.message == Concat(chunks[..i])
      invariant h.blockSize == blockSize && h.finalSize == finalSize
    {
      ConcatSnoc(chunks[..i], chunks[i]);
      assert chunks[..i + 1] == chunks[..i] + [chunks[i]];
      h.Update(chunks[i]);
    }
    assert chunks[..|chunks|] == chunks;
    h.Digest();
    blocks := h.blocks;
  }
}
