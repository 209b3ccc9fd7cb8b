/** The bit arithmetic behind bitmap-indexed nodes: the 32-bit population count the trie
    computes with shifts and masks, and the rank (number of lower set bits) it stands for. */
module BitRank {

  /** JavaScript's `>>` on a 32-bit pattern: the sign bit is copied into the vacated positions. */
  function SignedShift(x: bv32, k: bv32): bv32
    requires k < 32
  {
    if x & 0x80000000 == 0 then x >> k else (x >> k) | (0xFFFFFFFF << (32 - k))
  }

  function PairSums(x: bv32): bv32 {
    x - (SignedShift(x, 1) & 0x55555555)
  }

  function NibbleSums(pairs: bv32): bv32 {
    (0x33333333 & pairs) + (SignedShift(pairs, 2) & 0x33333333)
  }

  function Fold(nibbles: bv32, shifted: bv32): bv32 {
    (nibbles + shifted) & 0x0F0F0F0F
  }

  function ByteSums(x: bv32): bv32 {
    var nibbles := NibbleSums(PairSums(x));
    Fold(nibbles, SignedShift(nibbles, 4))
  }

  function AddBytes(sums: bv32): bv32 {
    var halves := sums + SignedShift(sums, 8);
    (halves + SignedShift(halves, 16)) & 127
  }

  function PopCount(x: bv32): bv32 {
    AddBytes(ByteSums(x))
  }

  /** The pattern `1 << i`. */
  function Bit(i: nat): bv32
    requires i < 32
  {
    (1 as bv32) << i
  }

  predicate Meets(x: bv32, b: bv32) {
    x & b != 0
  }

  predicate HasBit(x: bv32, i: nat)
    requires i < 32
  {
    Meets(x, Bit(i))
  }

  /** How many of the positions below n are set in x. */
  function Rank(x: bv32, n: nat): (r: nat)
    requires n <= 32
    ensures r <= n
  {
    if n == 0 then 0 else Rank(x, n - 1) + if HasBit(x, n - 1) then 1 else 0
  }

  // ----- The masks discard whatever the signed shifts copy in -----

  function UnsignedPairSums(x: bv32): bv32 {
    x - ((x >> 1) & 0x55555555)
  }

  function UnsignedNibbleSums(pairs: bv32): bv32 {
    (0x33333333 & pairs) + ((pairs >> 2) & 0x33333333)
  }

  function UnsignedByteSums(x: bv32): bv32 {
    var nibbles := UnsignedNibbleSums(UnsignedPairSums(x));
    Fold(nibbles, nibbles >> 4)
  }

  lemma PairMask(x: bv32)
    ensures SignedShift(x, 1) & 0x55555555 == (x >> 1) & 0x55555555
  {
  }

  lemma PairSumsMatch(x: bv32)
    ensures PairSums(x) == UnsignedPairSums(x)
  {
    hide SignedShift;
    PairMask(x);
  }

  lemma NibbleMask(pairs: bv32)
    ensures SignedShift(pairs, 2) & 0x33333333 == (pairs >> 2) & 0x33333333
  {
  }

  lemma NibbleSumsMatch(pairs: bv32)
    ensures NibbleSums(pairs) == UnsignedNibbleSums(pairs)
  {
    hide SignedShift;
    NibbleMask(pairs);
  }

  lemma NibbleSumsAreNonNegative(x: bv32)
    ensures SignedShift(UnsignedNibbleSums(UnsignedPairSums(x)), 4) == UnsignedNibbleSums(UnsignedPairSums(x)) >> 4
  {
  }

  lemma SignedShiftsAreHarmless(x: bv32)
    ensures ByteSums(x) == UnsignedByteSums(x)
  {
    hide PairSums, UnsignedPairSums, NibbleSums, UnsignedNibbleSums, SignedShift, Fold;
    PairSumsMatch(x);
    NibbleSumsMatch(PairSums(x));
    NibbleSumsAreNonNegative(x);
  }

  // ----- One more bit adds one to the count -----

  predicate IsSingleBit(b: bv32) {
    b != 0 && b & (b - 1) == 0
  }

  // From here on facts are stated as implications, not with preconditions: bit-vector
  // obligations are cheap one at a time and expensive together.

  /** b is a single bit above every bit of x. */
  predicate IsNextBit(x: bv32, b: bv32) {
    IsSingleBit(b) && x & (b - 1) == x
  }

  lemma NewBitInByte0(x: bv32, b: bv32)
    ensures IsNextBit(x, b) && b & 0xFF != 0 ==> UnsignedByteSums(x | b) == UnsignedByteSums(x) + 0x1
  {
    if IsNextBit(x, b) && b & 0xFF != 0 {
      assert UnsignedByteSums(x | b) == UnsignedByteSums(x) + 0x1;
    }
  }

  lemma NewBitInByte1(x: bv32, b: bv32)
    ensures IsNextBit(x, b) && b & 0xFF00 != 0 ==> UnsignedByteSums(x | b) == UnsignedByteSums(x) + 0x100
  {
    if IsNextBit(x, b) && b & 0xFF00 != 0 {
      assert UnsignedByteSums(x | b) == UnsignedByteSums(x) + 0x100;
    }
  }

  lemma NewBitInByte2(x: bv32, b: bv32)
    ensures IsNextBit(x, b) && b & 0xFF0000 != 0 ==> UnsignedByteSums(x | b) == UnsignedByteSums(x) + 0x10000
  {
    if IsNextBit(x, b) && b & 0xFF0000 != 0 {
      assert UnsignedByteSums(x | b) == UnsignedByteSums(x) + 0x10000;
    }
  }

  lemma NewBitInByte3(x: bv32, b: bv32)
    ensures IsNextBit(x, b) && b & 0xFF000000 != 0 ==> UnsignedByteSums(x | b) == UnsignedByteSums(x) + 0x1000000
  {
    if IsNextBit(x, b) && b & 0xFF000000 != 0 {
      assert UnsignedByteSums(x | b) == UnsignedByteSums(x) + 0x1000000;
    }
  }

  predicate SmallBytes(s: bv32) {
    s & 0xFF <= 8 && s & 0xFF00 <= 0x800 && s & 0xFF0000 <= 0x80000 && s & 0xFF000000 <= 0x8000000
  }

  lemma ByteSumsAreSmall(x: bv32)
    ensures SmallBytes(UnsignedByteSums(x))
  {
  }

  lemma AddBytesAdds(s: bv32)
    ensures SmallBytes(s) ==> AddBytes(s) == (s & 0xFF) + ((s >> 8) & 0xFF) + ((s >> 16) & 0xFF) + (s >> 24)
  {
  }

  lemma OneMoreInByte0(s: bv32)
    ensures SmallBytes(s) && SmallBytes(s + 0x1) ==> AddBytes(s + 0x1) == AddBytes(s) + 1
  {
    hide AddBytes;
    AddBytesAdds(s);
    AddBytesAdds(s + 0x1);
  }

  lemma OneMoreInByte1(s: bv32)
    ensures SmallBytes(s) && SmallBytes(s + 0x100) ==> AddBytes(s + 0x100) == AddBytes(s) + 1
  {
    hide AddBytes;
    AddBytesAdds(s);
    AddBytesAdds(s + 0x100);
  }

  lemma OneMoreInByte2(s: bv32)
    ensures SmallBytes(s) && SmallBytes(s + 0x10000) ==> AddBytes(s + 0x10000) == AddBytes(s) + 1
  {
    hide AddBytes;
    AddBytesAdds(s);
    AddBytesAdds(s + 0x10000);
  }

  lemma OneMoreInByte3(s: bv32)
    ensures SmallBytes(s) && SmallBytes(s + 0x1000000) ==> AddBytes(s + 0x1000000) == AddBytes(s) + 1
  {
    hide AddBytes;
    AddBytesAdds(s);
    AddBytesAdds(s + 0x1000000);
  }

  lemma ByteSumsOfBoth(x: bv32, b: bv32)
    ensures ByteSums(x) == UnsignedByteSums(x) && ByteSums(x | b) == UnsignedByteSums(x | b)
    ensures SmallBytes(UnsignedByteSums(x)) && SmallBytes(UnsignedByteSums(x | b))
  {
    hide *;
    SignedShiftsAreHarmless(x);
    SignedShiftsAreHarmless(x | b);
    ByteSumsAreSmall(x);
    ByteSumsAreSmall(x | b);
  }

  lemma OneMoreBit(x: bv32, b: bv32)
    ensures IsNextBit(x, b) ==> PopCount(x | b) == PopCount(x) + 1
  {
    hide AddBytes, ByteSums, UnsignedByteSums, SmallBytes;
    ByteSumsOfBoth(x, b);
    NewBitInByte0(x, b);
    NewBitInByte1(x, b);
    NewBitInByte2(x, b);
    NewBitInByte3(x, b);
    OneMoreInByte0(UnsignedByteSums(x));
    OneMoreInByte1(UnsignedByteSums(x));
    OneMoreInByte2(UnsignedByteSums(x));
    OneMoreInByte3(UnsignedByteSums(x));
  }

  // ----- From words to numbers: the masked count is the rank -----

  function BelowBit(b: bv32): bv32 {
    b - 1
  }

  /** `(1 << n) - 1`, also for the full width. */
  function Below(n: nat): bv32
    requires n <= 32
  {
    if n == 32 then 0xFFFFFFFF else BelowBit(Bit(n))
  }

  lemma BitIsSingle(i: bv6)
    requires i < 32
    ensures IsSingleBit((1 as bv32) << i)
  {
  }

  lemma SingleBit(i: nat)
    requires i < 32
    ensures IsSingleBit(Bit(i))
  {
    hide IsSingleBit;
    BitIsSingle(i as bv6);
  }

  lemma NextMask(i: bv6)
    requires i < 31
    ensures ((1 as bv32) << (i + 1)) - 1 == (((1 as bv32) << i) - 1) | ((1 as bv32) << i)
  {
  }

  lemma IndexSuccessor(i: nat)
    requires i < 32
    ensures (i + 1) as bv6 == i as bv6 + 1
  {
    var b := i as bv6;
    assert b as nat == i;
    assert b < 32;
    assert (b + 1) as nat == b as nat + 1;
    assert ((b + 1) as nat) as bv6 == b + 1;
  }

  lemma BelowSuccessor(i: nat)
    requires i < 32
    ensures Below(i + 1) == Join(Below(i), Bit(i))
  {
    if i < 31 {
      IndexSuccessor(i);
      NextMask(i as bv6);
    }
  }

  lemma DistinctBits(i: nat, j: nat)
    requires i < 32 && j < 32 && i != j
    ensures Bit(i) & Bit(j) == 0
  {
    hide Bit;
    SameIndex(i);
    SameIndex(j);
    DistinctShifts(i as bv6, j as bv6);
  }

  lemma SameIndex(i: nat)
    requires i < 32
    ensures (i as bv6) as nat == i && (i as bv6) < 32 && Bit(i) == (1 as bv32) << (i as bv6)
  {
  }

  lemma DistinctShifts(i: bv6, j: bv6)
    requires i < 32 && j < 32 && i != j
    ensures ((1 as bv32) << i) & ((1 as bv32) << j) == 0
  {
  }

  /** The bits of x below position n. */
  function LowBits(x: bv32, n: nat): bv32
    requires n <= 32
  {
    Mask(x, Below(n))
  }

  function Mask(x: bv32, m: bv32): bv32 {
    x & m
  }

  function Join(x: bv32, b: bv32): bv32 {
    x | b
  }

  function Population(x: bv32): nat {
    PopCount(x) as nat
  }

  lemma MaskWithBit(x: bv32, mask: bv32, b: bv32)
    ensures IsSingleBit(b) && Meets(x, b) ==> Mask(x, Join(mask, b)) == Join(Mask(x, mask), b)
  {
    hide IsSingleBit, Meets, Mask, Join;
    MaskDistributes(x, mask, b);
    MetWhole(x, b);
  }

  lemma MaskDistributes(x: bv32, mask: bv32, b: bv32)
    ensures Mask(x, Join(mask, b)) == Join(Mask(x, mask), Mask(x, b))
  {
  }

  lemma MetWhole(x: bv32, b: bv32)
    ensures IsSingleBit(b) && Meets(x, b) ==> Mask(x, b) == b
  {
  }

  lemma MaskWithoutBit(x: bv32, mask: bv32, b: bv32)
    ensures !Meets(x, b) ==> Mask(x, Join(mask, b)) == Mask(x, mask)
  {
  }

  lemma NextAfterMask(x: bv32, b: bv32)
    ensures IsSingleBit(b) ==> IsNextBit(Mask(x, BelowBit(b)), b)
  {
  }

  lemma PopulationGrows(x: bv32, b: bv32)
    ensures IsNextBit(x, b) && Population(x) < 32 ==> Population(Join(x, b)) == Population(x) + 1
  {
    hide PopCount, IsNextBit;
    OneMoreBit(x, b);
    Successor(PopCount(x));
  }

  lemma Successor(x: bv32)
    ensures x as nat < 32 ==> (x + 1) as nat == x as nat + 1
  {
  }

  lemma OneMoreLowBit(x: bv32, i: nat)
    requires i < 32
    ensures HasBit(x, i) ==> LowBits(x, i + 1) == Join(LowBits(x, i), Bit(i))
  {
    hide Bit, Below, IsSingleBit, Meets, Mask, Join;
    BelowSuccessor(i);
    SingleBit(i);
    MaskWithBit(x, Below(i), Bit(i));
  }

  lemma SameLowBits(x: bv32, i: nat)
    requires i < 32
    ensures !HasBit(x, i) ==> LowBits(x, i + 1) == LowBits(x, i)
  {
    hide Bit, Below, Meets, Mask, Join;
    BelowSuccessor(i);
    MaskWithoutBit(x, Below(i), Bit(i));
  }

  lemma BitIsNext(x: bv32, i: nat)
    requires i < 32
    ensures IsNextBit(LowBits(x, i), Bit(i))
  {
    hide IsNextBit, IsSingleBit, Bit, Mask, BelowBit;
    SingleBit(i);
    NextAfterMask(x, Bit(i));
  }

  lemma EmptyPopulation(x: bv32)
    ensures Population(LowBits(x, 0)) == 0
  {
    assert x & 0 == 0;
  }

  /** The shift-and-mask count of the bits below position n is their number. */
  lemma {:induction false} PopCountIsRank(x: bv32, n: nat)
    requires n <= 32
    ensures Population(LowBits(x, n)) == Rank(x, n)
  {
    hide Population, LowBits, HasBit, IsNextBit, Join, Bit;
    if n == 0 {
      EmptyPopulation(x);
    } else {
      PopCountIsRank(x, n - 1);
      OneMoreLowBit(x, n - 1);
      SameLowBits(x, n - 1);
      BitIsNext(x, n - 1);
      PopulationGrows(LowBits(x, n - 1), Bit(n - 1));
    }
  }

  // ----- Setting and flipping a bit -----

  function WithBit(x: bv32, i: nat): bv32
    requires i < 32
  {
    Join(x, Bit(i))
  }

  function FlipBit(x: bv32, i: nat): bv32
    requires i < 32
  {
    Flip(x, Bit(i))
  }

  function Flip(x: bv32, b: bv32): bv32 {
    x ^ b
  }

  lemma MeetsItself(x: bv32, b: bv32)
    ensures IsSingleBit(b) ==> Meets(Join(x, b), b)
    ensures IsSingleBit(b) ==> Meets(Flip(x, b), b) == !Meets(x, b)
  {
  }

  lemma JoinMissesOther(x: bv32, b: bv32, c: bv32)
    ensures Mask(b, c) == 0 ==> Mask(Join(x, b), c) == Mask(x, c)
  {
  }

  lemma FlipMissesOther(x: bv32, b: bv32, c: bv32)
    ensures Mask(b, c) == 0 ==> Mask(Flip(x, b), c) == Mask(x, c)
  {
  }

  lemma MeetsIsMask(x: bv32, c: bv32)
    ensures Meets(x, c) == (Mask(x, c) != 0)
  {
  }

  lemma MeetsOther(x: bv32, b: bv32, c: bv32)
    ensures Mask(b, c) == 0 ==> Meets(Join(x, b), c) == Meets(x, c)
    ensures Mask(b, c) == 0 ==> Meets(Flip(x, b), c) == Meets(x, c)
  {
    hide *;
    JoinMissesOther(x, b, c);
    FlipMissesOther(x, b, c);
    MeetsIsMask(x, c);
    MeetsIsMask(Join(x, b), c);
    MeetsIsMask(Flip(x, b), c);
  }

  lemma BitsDisjoint(i: nat, j: nat)
    requires i < 32 && j < 32 && i != j
    ensures Mask(Bit(i), Bit(j)) == 0
  {
    DistinctBits(i, j);
  }

  /** The bits of WithBit and FlipBit, position by position. */
  lemma ChangedBits(x: bv32, i: nat, j: nat)
    requires i < 32 && j < 32
    ensures HasBit(WithBit(x, i), j) == (HasBit(x, j) || i == j)
    ensures HasBit(FlipBit(x, i), j) == (HasBit(x, j) != (i == j))
  {
    hide Bit, Join, Flip, Meets, IsSingleBit, Mask;
    if i == j {
      SingleBit(i);
      MeetsItself(x, Bit(i));
    } else {
      BitsDisjoint(i, j);
      MeetsOther(x, Bit(i), Bit(j));
    }
  }

  lemma {:induction false} ChangedRank(x: bv32, i: nat, n: nat)
    requires i < 32 && n <= 32
    ensures !HasBit(x, i) ==> Rank(WithBit(x, i), n) == Rank(x, n) + if i < n then 1 else 0
    ensures HasBit(x, i) ==> Rank(FlipBit(x, i), n) == Rank(x, n) - if i < n then 1 else 0
  {
    hide HasBit, WithBit, FlipBit;
    if n > 0 {
      ChangedRank(x, i, n - 1);
      ChangedBits(x, i, n - 1);
    }
  }

  lemma NoBits(j: nat)
    requires j < 32
    ensures !HasBit(0, j)
  {
  }

  lemma {:induction false} NoRank(n: nat)
    requires n <= 32
    ensures Rank(0, n) == 0
  {
    hide HasBit;
    if n > 0 {
      NoRank(n - 1);
      NoBits(n - 1);
    }
  }

  lemma {:induction false} RankMonotone(x: bv32, i: nat, n: nat)
    requires i <= n <= 32
    ensures Rank(x, i) <= Rank(x, n)
    ensures i < n && HasBit(x, i) ==> Rank(x, i) < Rank(x, n)
    decreases n
  {
    hide HasBit;
    if i < n {
      RankMonotone(x, i, n - 1);
    }
  }

  /** Every number below the population is the rank of one set bit. */
  lemma {:induction false} Select(x: bv32, d: nat, n: nat) returns (i: nat)
    requires n <= 32 && d < Rank(x, n)
    ensures i < n && HasBit(x, i) && Rank(x, i) == d
  {
    hide HasBit;
    if d < Rank(x, n - 1) {
      i := Select(x, d, n - 1);
    } else {
      i := n - 1;
    }
  }

  /** Two words with the same bits below n have the same rank there. */
  lemma {:induction false} SameRank(x: bv32, y: bv32, n: nat)
    requires n <= 32
    requires forall j: nat | j < n :: HasBit(x, j) == HasBit(y, j)
    ensures Rank(x, n) == Rank(y, n)
  {
    hide HasBit;
    if n > 0 {
      SameRank(x, y, n - 1);
    }
  }

  // ----- Moving along a word one bit at a time -----

  function ShiftLeft1(b: bv32): bv32 {
    b << 1
  }

  function ShiftRight1(x: bv32): bv32 {
    x >> 1
  }

  lemma DoubledShift(i: bv6)
    ensures i < 31 ==> (1 as bv32) << (i + 1) == ShiftLeft1((1 as bv32) << i)
  {
  }

  lemma BitDoubles(i: nat)
    requires i < 31
    ensures Bit(i + 1) == ShiftLeft1(Bit(i))
  {
    hide ShiftLeft1;
    IndexSuccessor(i);
    DoubledShift(i as bv6);
  }

  lemma MeetsShifted(x: bv32, b: bv32)
    ensures b & 0x80000000 == 0 ==> Meets(ShiftRight1(x), b) == Meets(x, ShiftLeft1(b))
  {
  }

  lemma LowShiftsStayLow(i: bv6)
    ensures i < 31 ==> ((1 as bv32) << i) & 0x80000000 == 0
  {
  }

  lemma BitIsLow(i: nat)
    requires i < 31
    ensures Bit(i) & 0x80000000 == 0
  {
    assert (i as bv6) as nat == i;
    LowShiftsStayLow(i as bv6);
  }

  lemma ShiftedHighBit(x: bv32)
    ensures !Meets(ShiftRight1(x), 0x80000000)
  {
  }

  lemma HighBit()
    ensures Bit(31) == 0x80000000
  {
  }

  /** Dropping the lowest bit moves every other bit down by one. */
  lemma ShiftedBits(x: bv32, i: nat)
    requires i < 32
    ensures HasBit(ShiftRight1(x), i) == (i < 31 && HasBit(x, i + 1))
  {
    hide Bit, Meets, ShiftRight1, ShiftLeft1;
    if i < 31 {
      BitDoubles(i);
      BitIsLow(i);
      MeetsShifted(x, Bit(i));
    } else {
      HighBit();
      ShiftedHighBit(x);
    }
  }

  lemma LowestBit(x: bv32)
    ensures HasBit(x, 0) == (x & 1 != 0)
  {
  }

  lemma NoLowBits(x: bv32)
    ensures LowBits(x, 0) == 0
  {
  }

  lemma AllLowBits(x: bv32)
    ensures LowBits(x, 32) == x
  {
  }

  lemma {:induction false} MissingLowBits(x: bv32, n: nat)
    requires n <= 32 && forall j: nat | j < n :: !HasBit(x, j)
    ensures LowBits(x, n) == 0
  {
    hide LowBits, HasBit;
    if n == 0 {
      NoLowBits(x);
    } else {
      MissingLowBits(x, n - 1);
      SameLowBits(x, n - 1);
    }
  }

  /** A word is zero exactly when it has no bits. */
  lemma NonZeroHasBit(x: bv32)
    ensures x != 0 <==> exists j: nat | j < 32 :: HasBit(x, j)
  {
    hide LowBits, HasBit;
    if forall j: nat | j < 32 :: !HasBit(x, j) {
      MissingLowBits(x, 32);
      AllLowBits(x);
    }
    if x == 0 {
      forall j: nat | j < 32
        ensures !HasBit(x, j)
      {
        NoBits(j);
      }
    }
  }
}
