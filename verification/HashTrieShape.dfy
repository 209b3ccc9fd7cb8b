/** When nodes change their kind: the sizes at which a trie grows and shrinks. */
module HashTrieShape {
  import opened Wrappers
  import opened BitRank
  import opened HashTrie

  /** The sizes of the nodes of a well-formed trie. */
  lemma SizesOfNodes(n: Node, shift: nat, prefix: nat)
    requires Inv(n, shift, prefix)
    ensures n.ArrayMapNode? ==> 1 <= |n.entries| <= 8
    ensures n.BitmapIndexedNode? ==> 1 <= |n.nodes| <= 16
    ensures n.HashArrayMapNode? ==> |n.slots| == 32 && 8 <= n.count <= 32
    ensures n.HashCollisionNode? ==> |n.bucket| >= 2
    ensures IsBranch(n) ==> shift <= 30
  {
    if n.HashArrayMapNode? {
      CountIsBounded(n.slots);
    }
  }

  lemma {:induction false} CountIsBounded(slots: seq<Option<Node>>)
    ensures CountSome(slots) <= |slots|
  {
    if slots != [] {
      CountIsBounded(slots[..|slots| - 1]);
    }
  }

  /** A 17th child turns a bitmap node into an array node of 17 children; up to 16 it stays a bitmap
      node of one child more. */
  lemma BitmapNodeGrows(n: Node, i: nat, child: Node)
    requires n.BitmapIndexedNode? && Counted(n) && i < 32 && Child(n, i).None?
    ensures var r := Place(n, i, Some(child));
            if |n.nodes| == 16 then r.HashArrayMapNode? && r.count == 17 && |r.slots| == 32
            else r.BitmapIndexedNode? && |r.nodes| == |n.nodes| + 1
  {
    hide HasBit, WithBit, ChildIndex;
    RankOrder(n.bitmap, i, i);
  }

  /** A bitmap node never grows by a replaced or removed child; it gives way to a leaf if that is all
      that is left. */
  lemma BitmapNodeShrinks(n: Node, i: nat, m: Option<Node>)
    requires n.BitmapIndexedNode? && Counted(n) && i < 32 && Child(n, i).Some?
    ensures var r, left := Place(n, i, m), |n.nodes| - if m.None? then 1 else 0;
            || (r.BitmapIndexedNode? && |r.nodes| == left)
            || (IsLeafNode(r) && left == 1 && (m.Some? ==> r == m.value))
  {
    hide HasBit, WithBit, FlipBit, ChildIndex;
    RankOrder(n.bitmap, i, i);
  }

  /** An array node of 8 children that loses one becomes a bitmap node of 7; any other change leaves an
      array node, with its children counted. */
  lemma ArrayNodeChanges(n: Node, i: nat, m: Option<Node>)
    requires n.HashArrayMapNode? && Counted(n) && i < 32 && (Child(n, i).Some? || m.Some?)
    ensures var r := Place(n, i, m);
            if n.count == 8 && m.None? then r.BitmapIndexedNode? && |r.nodes| == 7
            else
              && r.HashArrayMapNode? && |r.slots| == 32
              && r.count == n.count + if m.None? then -1 else if Child(n, i).None? then 1 else 0
  {
    if n.count == 8 && m.None? {
      PackCount(n.slots, i);
    }
  }

  /** The root is an array of entries up to the 8th key; the 9th makes it a trie, and removing the last
      key leaves nothing. */
  lemma ArrayMapChanges(entries: seq<Entry>, key: Key, op: Option<Value>)
    requires 1 <= |entries| <= 8
    ensures var r, found := UpdateArrayMap(entries, key, op).node, GetEntry(entries, key).Some?;
            if op.None? && found && |entries| == 1 then r == None
            else if op.Some? && !found && |entries| == 8 then r.Some? && !r.value.ArrayMapNode?
            else
              && r.Some? && r.value.ArrayMapNode?
              && |r.value.entries| == |entries| + (if op.Some? then 1 else 0) - if found then 1 else 0
  {
    hide CreateNodes;
  }
}
