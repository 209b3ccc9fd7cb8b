/** The loops behind the trie's array helpers, each proved to compute the function the trie uses. */
module HashTrieLoops {
  import opened Wrappers
  import opened BitRank
  import opened HashTrie

  method FindEntry(entries: seq<Entry>, key: Key) returns (i: nat)
    ensures i == IndexOf(entries, key)
  {
    hide IndexOf;
    i := 0;
    while i < |entries| && entries[i].key != key
      invariant i <= |entries|
      invariant forall j :: 0 <= j < i ==> entries[j].key != key
    {
      i := i + 1;
    }
  }

  method SpliceInLoop<T>(s: seq<T>, at: nat, x: T) returns (out: array<T>)
    requires at <= |s|
    ensures out[..] == SpliceIn(s, at, x)
  {
    out := new T[|s| + 1](_ => x);
    var after := 0;
    for i := 0 to |s| + 1
      invariant after == if i <= at then 0 else -1
      invariant out[..i] == SpliceIn(s, at, x)[..i]
    {
      if i == at {
        out[i] := x;
        after := -1;
      } else {
        out[i] := s[i + after];
      }
      assert out[..i + 1] == out[..i] + [out[i]];
    }
    assert out[..] == out[..|s| + 1];
  }

  method SpliceOutLoop<T>(s: seq<T>, at: nat) returns (out: array<T>)
    requires at < |s|
    ensures out[..] == SpliceOut(s, at)
  {
    var first := s[0];
    out := new T[|s| - 1](_ => first);
    var after := 0;
    for i := 0 to |s| - 1
      invariant after == if i <= at then 0 else 1
      invariant out[..i] == SpliceOut(s, at)[..i]
    {
      if i == at {
        after := 1;
      }
      out[i] := s[i + after];
      assert out[..i + 1] == out[..i] + [out[i]];
    }
    assert out[..] == out[..|s| - 1];
  }

  method PackNodesLoop(slots: seq<Option<Node>>, excluding: nat) returns (n: Node)
    requires |slots| == SIZE
    ensures n == PackNodes(slots, excluding)
  {
    var bitmap, bit: bv32 := 0, 1;
    var packed: seq<Node> := [];
    var s := 0;
    while s < |slots|
      invariant s <= |slots|
      invariant s < 32 ==> bit == Bit(s)
      invariant bitmap == PackedBits(slots, excluding, s)
      invariant packed == PackedNodes(slots, excluding, s)
    {
      hide Bit, Join, ShiftLeft1;
      if slots[s].Some? && s != excluding {
        bitmap := Join(bitmap, bit);
        packed := packed + [slots[s].value];
      }
      if s < 31 {
        BitDoubles(s);
      }
      s, bit := s + 1, ShiftLeft1(bit);
    }
    n := BitmapIndexedNode(bitmap, packed);
  }

  /** Is the lowest bit set: `1 & x`. */
  predicate IsOdd(x: bv32)
    ensures IsOdd(x) == HasBit(x, 0)
  {
    LowestBit(x);
    x & 1 != 0
  }

  /** rest is `bitmap >>> u`. */
  ghost predicate IsRest(rest: bv32, bitmap: bv32, u: nat) {
    forall k: nat | k < 32 :: HasBit(rest, k) == (u + k < 32 && HasBit(bitmap, u + k))
  }

  lemma NextRest(rest: bv32, bitmap: bv32, u: nat)
    requires IsRest(rest, bitmap, u)
    ensures IsRest(ShiftRight1(rest), bitmap, u + 1)
    ensures u < 32 ==> HasBit(rest, 0) == HasBit(bitmap, u)
  {
    hide HasBit, ShiftRight1;
    assert HasBit(rest, 0) == (u + 0 < 32 && HasBit(bitmap, u + 0));
    forall k: nat | k < 32
      ensures HasBit(ShiftRight1(rest), k) == (u + 1 + k < 32 && HasBit(bitmap, u + 1 + k))
    {
      ShiftedBits(rest, k);
      if k < 31 {
        assert HasBit(rest, k + 1) == (u + (k + 1) < 32 && HasBit(bitmap, u + (k + 1)));
      }
    }
  }

  lemma RestIsUsed(rest: bv32, bitmap: bv32, u: nat)
    requires IsRest(rest, bitmap, u)
    ensures rest != 0 ==> u < 32
    ensures rest == 0 ==> forall j: nat | u <= j < 32 :: !HasBit(bitmap, j)
  {
    hide HasBit;
    NonZeroHasBit(rest);
    if rest == 0 {
      forall j: nat | u <= j < 32
        ensures !HasBit(bitmap, j)
      {
        assert HasBit(rest, j - u) == (u + (j - u) < 32 && HasBit(bitmap, u + (j - u)));
      }
    }
  }

  method ExpandNodesLoop(nodes: seq<Node>, bitmap: bv32, including: nat, node: Node) returns (n: Node)
    requires including < SIZE && !HasBit(bitmap, including) && |nodes| == Rank(bitmap, 32)
    ensures n == ExpandNodes(nodes, bitmap, including, node)
  {
    hide HasBit, ShiftRight1, ChildIndex, IsOdd, IsRest;
    ghost var before := BitmapIndexedNode(bitmap, nodes);
    var slots: seq<Option<Node>> := seq(SIZE, _ => None);
    var rest, count, u := bitmap, 0, 0;
    FirstRest(bitmap);
    while rest != 0
      invariant u <= 32 && count == Rank(bitmap, u) && |slots| == SIZE
      invariant IsRest(rest, bitmap, u)
      invariant forall j: nat | j < 32 :: slots[j] == if j < u then Child(before, j) else None
      decreases 32 - u
    {
      RestIsUsed(rest, bitmap, u);
      NextRest(rest, bitmap, u);
      RankOrder(bitmap, u, u);
      if IsOdd(rest) {
        slots := slots[u := Some(nodes[count])];
        count := count + 1;
      }
      rest, u := ShiftRight1(rest), u + 1;
    }
    RestIsUsed(rest, bitmap, u);
    RankStops(bitmap, u, 32);
    n := HashArrayMapNode(count + 1, slots[including := Some(node)]);
  }

  lemma FirstRest(bitmap: bv32)
    ensures IsRest(bitmap, bitmap, 0)
  {
  }

  lemma {:induction false} RankStops(x: bv32, u: nat, n: nat)
    requires u <= n <= 32 && forall j: nat | u <= j < n :: !HasBit(x, j)
    ensures Rank(x, n) == Rank(x, u)
    decreases n
  {
    hide HasBit;
    if u < n {
      RankStops(x, u, n - 1);
    }
  }

  method CreateNodesLoop(entries: seq<Entry>, key: Key, value: Value) returns (n: Node)
    ensures n == CreateNodes(entries, key, value)
  {
    n := ValueNode(key.hash, Entry(key, value));
    for i := 0 to |entries|
      invariant n == CreateNodes(entries[..i], key, value)
      invariant !n.ArrayMapNode? && Inv(n, 0, 0)
    {
      assert entries[..i + 1][..i] == entries[..i];
      UpdateKeepsInv(n, 0, entries[i].key, Some(entries[i].value));
      n := Update(n, 0, entries[i].key, Some(entries[i].value)).node.value;
    }
    assert entries[..|entries|] == entries;
  }
}
