/** The padding of a message before it is hashed: sections 5.1.1 and 5.1.2 of FIPS 180-4. */
module HashPadding {
  import opened Bytes
  import opened Words

  /** The low w bytes of n, the highest first. */
  function BigEndian(n: nat, w: nat): (b: seq<Byte>)
    ensures |b| == w
  {
    if w == 0 then [] else BigEndian(n / 0x100, w - 1) + [n % 0x100]
  }

  /** Up to here a length in bytes is an exact number in JavaScript, and so are eight times it
      and the two words it is split into. */
  const MAX_BYTES: nat := 0x20_0000_0000_0000

  /** A block size, and where in the last block the length field starts. */
  predicate IsFormat(blockSize: nat, finalSize: nat) {
    0 < finalSize <= blockSize - 8
  }

  /** The smallest number of zeros that puts the length field at the end of a block. */
  function Gap(length: nat, blockSize: nat, finalSize: nat): nat
    requires IsFormat(blockSize, finalSize)
  {
    (finalSize - 1 - length) % blockSize
  }

  /** The message, a one bit, zeros, and the length in bits. */
  function Padded(m: seq<Byte>, blockSize: nat, finalSize: nat): seq<Byte>
    requires IsFormat(blockSize, finalSize)
  {
    m + [0x80] + ZeroBytes(Gap(|m|, blockSize, finalSize)) + BigEndian(8 * |m|, blockSize - finalSize)
  }

  /** The four bytes that writeUInt32BE stores. */
  function Word32(n: nat): (b: seq<Byte>)
    requires n < 0x1_0000_0000
    ensures |b| == 4
  {
    [n / 0x100_0000, n / 0x1_0000 % 0x100, n / 0x100 % 0x100, n % 0x100]
  }

  lemma {:induction false} NoBytes(k: nat)
    ensures BigEndian(0, k) == ZeroBytes(k)
  {
    if k > 0 {
      NoBytes(k - 1);
    }
  }

  lemma Quarters(n: nat)
    ensures n / 0x100 / 0x100 == n / 0x1_0000 && n / 0x1_0000 / 0x100 == n / 0x100_0000 && n / 0x100_0000 / 0x100
        == n / 0x1_0000_0000
  {
  }

  lemma FourBytes(n: nat, k: nat)
    requires n < 0x1_0000_0000
    ensures BigEndian(n, k + 4) == ZeroBytes(k) + Word32(n)
  {
    hide BigEndian;
    Peel(n, k + 4);
    Peel(n / 0x100, k + 3);
    Peel(n / 0x1_0000, k + 2);
    Peel(n / 0x100_0000, k + 1);
    Quarters(n);
    NoBytes(k);
  }

  lemma Peel(n: nat, w: nat)
    requires w > 0
    ensures BigEndian(n, w) == BigEndian(n / 0x100, w - 1) + [n % 0x100]
  {
  }

  lemma FourMore(n: nat, k: nat)
    ensures BigEndian(n, k + 4) == BigEndian(n / 0x1_0000_0000, k) + Word32(n % 0x1_0000_0000)
  {
    hide BigEndian;
    Peel(n, k + 4);
    Peel(n / 0x100, k + 3);
    Peel(n / 0x1_0000, k + 2);
    Peel(n / 0x100_0000, k + 1);
    Quarters(n);
    LowBytes(n);
  }

  lemma LowBytes(n: nat)
    ensures Word32(n % 0x1_0000_0000) == [n / 0x100_0000 % 0x100, n / 0x1_0000 % 0x100, n / 0x100 % 0x100, n % 0x100]
  {
    var low := n % 0x1_0000_0000;
    ShiftMask(n, 0x100_0000, 0x100);
    SameDigit(n, low, 0x1_0000, 0x100, 0x100);
    SameDigit(n, low, 0x100, 0x100, 0x1_0000);
    SameDigit(n, low, 1, 0x100, 0x100_0000);
  }

  /** The length field as it is written: one word if the length is short, else two. */
  lemma LengthField(n: nat, w: nat)
    requires n < 0x1_0000_0000_0000_0000 && w >= 8
    ensures n < 0x1_0000_0000 ==> BigEndian(n, w) == ZeroBytes(w - 4) + Word32(n)
    ensures BigEndian(n, w) == ZeroBytes(w - 8) + Word32(n / 0x1_0000_0000) + Word32(n % 0x1_0000_0000)
  {
    hide BigEndian, Word32;
    if n < 0x1_0000_0000 {
      FourBytes(n, w - 4);
    }
    FourMore(n, w - 4);
    FourBytes(n / 0x1_0000_0000, w - 8);
  }

  // ----- Blocks -----

  predicate AreBlocks(blocks: seq<seq<Byte>>, size: nat) {
    forall b :: b in blocks ==> |b| == size
  }

  /** How many bytes of the last, unfinished block there are. */
  function Fill(length: nat, size: nat): (r: nat)
    requires size > 0
    ensures r < size
  {
    length % size
  }

  lemma FillStep(length: nat, n: nat, size: nat)
    requires size > 0 && Fill(length, size) + n <= size
    ensures Fill(length + n, size) == if Fill(length, size) + n == size then 0 else Fill(length, size) + n
  {
    var q, r := length / size, length % size;
    assert length == size * q + r;
    if r + n == size {
      assert size * q + size == size * (q + 1);
      Divided(length + n, size, q + 1, 0);
    } else {
      Divided(length + n, size, q, r + n);
    }
  }

  /** Where the length field goes. */
  lemma GapIs(length: nat, blockSize: nat, finalSize: nat)
    requires IsFormat(blockSize, finalSize)
    ensures var rem := Fill(length, blockSize);
            Gap(length, blockSize, finalSize) == if rem < finalSize then finalSize - 1 - rem
                else blockSize + finalSize - 1 - rem
  {
    var q, rem := length / blockSize, length % blockSize;
    assert length == blockSize * q + rem;
    if rem < finalSize {
      assert blockSize * -q == -(blockSize * q);
      Divided(finalSize - 1 - length, blockSize, -q, finalSize - 1 - rem);
    } else {
      assert blockSize * (-q - 1) == -(blockSize * q) - blockSize;
      Divided(finalSize - 1 - length, blockSize, -q - 1, blockSize + finalSize - 1 - rem);
    }
  }

  /** A padded message: one bit, then as few zeros as make whole blocks with the length field. */
  predicate IsPadding(p: seq<Byte>, m: seq<Byte>, blockSize: nat, fieldSize: nat)
    requires blockSize > 0
  {
    var n := |p| - fieldSize;
    && |m| < n && |p| % blockSize == 0 && |p| <= |m| + fieldSize + blockSize
    && p[..|m|] == m && p[|m|] == 0x80 && (forall i :: |m| < i < n ==> p[i] == 0)
    && p[n..] == BigEndian(8 * |m|, fieldSize)
  }

  /** For SHA-1, SHA-224 and SHA-256 as section 5.1.1 has it, and for SHA-384 and SHA-512 as 5.1.2 has. */
  lemma PaddedByTheStandard(m: seq<Byte>)
    ensures IsPadding(Padded(m, 64, 56), m, 64, 8) && IsPadding(Padded(m, 128, 112), m, 128, 16)
  {
    hide BigEndian, ZeroBytes;
    PaddedIsPadding(m, 64, 56);
    PaddedIsPadding(m, 128, 112);
  }

  lemma PaddedIsPadding(m: seq<Byte>, blockSize: nat, finalSize: nat)
    requires IsFormat(blockSize, finalSize)
    ensures IsPadding(Padded(m, blockSize, finalSize), m, blockSize, blockSize - finalSize)
  {
    hide Gap, BigEndian, ZeroBytes;
    var p, k, w := Padded(m, blockSize, finalSize), Gap(|m|, blockSize, finalSize), blockSize - finalSize;
    GapFillsBlocks(|m|, blockSize, finalSize);
    var zeros, field := ZeroBytes(k), BigEndian(8 * |m|, w);
    AllZero(k);
    assert |p| == |m| + 1 + k + w;
    assert p[|m| + 1 + k..] == field;
    assert forall i :: |m| < i < |m| + 1 + k ==> p[i] == zeros[i - |m| - 1];
  }

  lemma AllZero(k: nat)
    ensures forall i :: 0 <= i < k ==> ZeroBytes(k)[i] == 0
  {
  }

  lemma GapFillsBlocks(length: nat, blockSize: nat, finalSize: nat)
    requires IsFormat(blockSize, finalSize)
    ensures var gap := Gap(length, blockSize, finalSize);
            gap < blockSize && (length + 1 + gap + (blockSize - finalSize)) % blockSize == 0
  {
    hide Gap;
    GapIs(length, blockSize, finalSize);
    var q, rem := length / blockSize, length % blockSize;
    assert length == blockSize * q + rem;
    assert blockSize * (q + 1) == blockSize * q + blockSize;
    assert blockSize * (q + 2) == blockSize * q + 2 * blockSize;
    if rem < finalSize {
      Divided(length - rem + blockSize, blockSize, q + 1, 0);
    } else {
      Divided(length - rem + 2 * blockSize, blockSize, q + 2, 0);
    }
  }

  /** The end of a block: zeros, and the length in bits. */
  function LastBytes(bits: nat, n: nat): (b: seq<Byte>)
    requires bits < 0x1_0000_0000_0000_0000 && n >= 8
    ensures |b| == n
  {
    ZeroBytes(n - 8) + Word32(bits / 0x1_0000_0000) + Word32(bits % 0x1_0000_0000)
  }

  /** The padded message, as one or two blocks end it. */
  lemma PaddedBlocks(m: seq<Byte>, blockSize: nat, finalSize: nat)
    requires IsFormat(blockSize, finalSize) && 8 * |m| < 0x1_0000_0000_0000_0000
    ensures var rem, bits := Fill(|m|, blockSize), 8 * |m|;
            Padded(m, blockSize, finalSize)
            == if rem < finalSize then m + [0x80] + LastBytes(bits, blockSize - rem - 1)
               else m + [0x80] + ZeroBytes(blockSize - rem - 1) + LastBytes(bits, blockSize)
  {
    hide BigEndian, Word32, Gap, Fill;
    GapIs(|m|, blockSize, finalSize);
    LengthField(8 * |m|, blockSize - finalSize);
    var rem := Fill(|m|, blockSize);
    var gap := Gap(|m|, blockSize, finalSize);
    ZerosJoin(gap, blockSize - finalSize - 8);
    if rem >= finalSize {
      ZerosJoin(blockSize - rem - 1, blockSize - 8);
    }
  }

  lemma ZerosJoin(a: nat, b: nat)
    ensures ZeroBytes(a) + ZeroBytes(b) == ZeroBytes(a + b)
  {
  }
}
