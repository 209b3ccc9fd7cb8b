/** Immutable's `Map`: a hash array mapped trie with five kinds of node. This is the persistent
    path: every update returns new nodes, and the old version stays as it was. */
module HashTrie {
  import opened Wrappers
  import opened Arithmetic
  import opened BitRank

  const SHIFT := 5
  const SIZE := 32
  const MAX_ARRAY_MAP_SIZE := SIZE / 4
  const MAX_BITMAP_INDEXED_SIZE := SIZE / 2
  const MIN_HASH_ARRAY_MAP_SIZE := SIZE / 4

  /** Hashes are 32-bit patterns, read as unsigned numbers. */
  type Hash = h: nat | h < 0x1_0000_0000

  type KeyId(==, !new)
  type Value(==, !new)

  /** Keys up to Immutable's `is`. Equal keys have equal hashes; any hash may be shared by any
      number of different keys. */
  datatype Key = Key(hash: Hash, id: KeyId)

  datatype Entry = Entry(key: Key, value: Value)

  datatype Node =
    | ArrayMapNode(entries: seq<Entry>)
    | BitmapIndexedNode(bitmap: bv32, nodes: seq<Node>)
    | HashArrayMapNode(count: int, slots: seq<Option<Node>>)
    | HashCollisionNode(keyHash: Hash, bucket: seq<Entry>)
    | ValueNode(keyHash: Hash, entry: Entry)

  predicate IsLeafNode(n: Node) {
    n.ValueNode? || n.HashCollisionNode?
  }

  predicate IsBranch(n: Node) {
    n.BitmapIndexedNode? || n.HashArrayMapNode?
  }

  // ----- The path spelled by a hash -----

  function Pow2(shift: nat): (p: nat)
    ensures p > 0
  {
    if shift == 0 then 1 else 2 * Pow2(shift - 1)
  }

  /** `hash >>> shift & 31`. */
  function Digit(hash: Hash, shift: nat): (d: nat)
    ensures d < 32
  {
    hash / Pow2(shift) % SIZE
  }

  /** The part of a hash that selects a node `shift` bits down from the root. */
  ghost function Low(hash: Hash, shift: nat): nat {
    hash % Pow2(shift)
  }

  // ----- Lookup -----

  /** The position of a key among entries, or the number of entries. */
  function IndexOf(entries: seq<Entry>, key: Key): (i: nat)
    ensures i <= |entries|
    ensures i < |entries| ==> entries[i].key == key
    ensures forall j :: 0 <= j < i ==> entries[j].key != key
  {
    if entries == [] || entries[0].key == key then 0 else 1 + IndexOf(entries[1..], key)
  }

  function GetEntry(entries: seq<Entry>, key: Key): Option<Value> {
    var i := IndexOf(entries, key);
    if i < |entries| then Some(entries[i].value) else None
  }

  /** The array index of the child at position i: the population count of the lower bits. */
  function ChildIndex(bitmap: bv32, i: nat): (d: nat)
    requires i < 32
    ensures d == Rank(bitmap, i)
  {
    PopCountIsRank(bitmap, i);
    Population(LowBits(bitmap, i))
  }

  /** The child of a branch at position i. */
  function Child(n: Node, i: nat): (c: Option<Node>)
    requires i < 32
    ensures c.Some? ==> c.value < n
  {
    match n
    case BitmapIndexedNode(bitmap, nodes) =>
      if HasBit(bitmap, i) && ChildIndex(bitmap, i) < |nodes| then Some(nodes[ChildIndex(bitmap, i)]) else None
    case HashArrayMapNode(_, slots) =>
      if i < |slots| && slots[i].Some? then Some(slots[i].value) else None
    case _ => None
  }

  function Get(n: Node, shift: nat, key: Key): Option<Value>
    decreases n
  {
    match n
    case ArrayMapNode(entries) => GetEntry(entries, key)
    case HashCollisionNode(_, bucket) => GetEntry(bucket, key)
    case ValueNode(_, entry) => if key == entry.key then Some(entry.value) else None
    case _ =>
      var c := Child(n, Digit(key.hash, shift));
      if c.Some? then Get(c.value, shift + SHIFT, key) else None
  }

  // ----- The shape of a reachable trie -----

  ghost predicate Distinct(entries: seq<Entry>) {
    forall i, j :: 0 <= i < j < |entries| ==> entries[i].key != entries[j].key
  }

  predicate IsLevel(shift: nat) {
    shift in {0, 5, 10, 15, 20, 25, 30, 35}
  }

  /** The low bits of the hashes below position i of a node. */
  ghost function Extend(prefix: nat, shift: nat, i: nat): nat {
    prefix + Pow2(shift) * i
  }

  function CountSome(slots: seq<Option<Node>>): nat {
    if slots == [] then 0
    else CountSome(slots[..|slots| - 1]) + if slots[|slots| - 1].Some? then 1 else 0
  }

  /** n is a well-formed trie for hashes whose low `shift` bits are `prefix`. */
  ghost predicate Inv(n: Node, shift: nat, prefix: nat)
    decreases n
  {
    match n
    case ArrayMapNode(entries) =>
      shift == 0 && prefix == 0 && 1 <= |entries| <= MAX_ARRAY_MAP_SIZE && Distinct(entries)
    case ValueNode(keyHash, entry) =>
      entry.key.hash == keyHash && Low(keyHash, shift) == prefix
    case HashCollisionNode(keyHash, bucket) =>
      && 2 <= |bucket| && Distinct(bucket) && Low(keyHash, shift) == prefix
      && forall i :: 0 <= i < |bucket| ==> bucket[i].key.hash == keyHash
    case _ => shift <= 30 && Counted(n) && ChildrenInv(n, shift, prefix)
  }

  /** The numbers a branch keeps about its children. */
  ghost predicate Counted(n: Node)
    requires IsBranch(n)
  {
    match n
    case BitmapIndexedNode(bitmap, nodes) =>
      && 1 <= |nodes| <= MAX_BITMAP_INDEXED_SIZE && |nodes| == Rank(bitmap, 32)
      && (|nodes| == 1 ==> !IsLeafNode(nodes[0]))
    case HashArrayMapNode(count, slots) =>
      |slots| == SIZE && MIN_HASH_ARRAY_MAP_SIZE <= count == CountSome(slots)
  }

  ghost predicate ChildrenInv(n: Node, shift: nat, prefix: nat)
    decreases n, 0
  {
    forall i: nat | i < 32 :: Child(n, i).Some? ==> Inv(Child(n, i).value, shift + SHIFT, Extend(prefix, shift, i))
  }

  lemma Pow2Step(shift: nat)
    ensures Pow2(shift + 5) == 32 * Pow2(shift)
  {
    assert Pow2(shift + 2) == 4 * Pow2(shift);
    assert Pow2(shift + 4) == 4 * Pow2(shift + 2);
  }

  /** One more digit of the hash extends the path. */
  lemma LowExtends(hash: Hash, shift: nat)
    ensures Low(hash, shift + SHIFT) == Extend(Low(hash, shift), shift, Digit(hash, shift))
  {
    Pow2Step(shift);
    SplitModulus(hash, Pow2(shift));
  }

  /** Two hashes on the same path part exactly where their digits differ. */
  lemma PathsPart(h: Hash, k: Hash, shift: nat)
    requires Low(h, shift) == Low(k, shift)
    ensures Low(h, shift + SHIFT) == Low(k, shift + SHIFT) <==> Digit(h, shift) == Digit(k, shift)
  {
    LowExtends(h, shift);
    LowExtends(k, shift);
    if Low(h, shift + SHIFT) == Low(k, shift + SHIFT) {
      Cancel(Pow2(shift), Digit(h, shift), Digit(k, shift));
    }
  }

  /** Seven digits are the whole hash: different hashes part at a shift of at most 30. */
  lemma FullPath(h: Hash)
    ensures Low(h, 35) == h
  {
    Pow2Step(0);
    Pow2Step(5);
    Pow2Step(10);
    Pow2Step(15);
    Pow2Step(20);
    Pow2Step(25);
    Pow2Step(30);
  }

  // ----- The array helpers -----

  function SpliceIn<T>(s: seq<T>, i: nat, x: T): seq<T>
    requires i <= |s|
  {
    s[..i] + [x] + s[i..]
  }

  function SpliceOut<T>(s: seq<T>, i: nat): seq<T>
    requires i < |s|
  {
    s[..i] + s[i + 1..]
  }

  /** Set, append or remove the entry at position i, where |entries| means a new key. A removed
      entry is replaced by the last one. */
  function ChangeEntry(entries: seq<Entry>, i: nat, key: Key, op: Option<Value>): seq<Entry>
    requires i <= |entries| && (i == |entries| ==> op.Some?)
  {
    if i == |entries| then entries + [Entry(key, op.value)]
    else if op.Some? then entries[i := Entry(key, op.value)]
    else
      var rest := entries[..|entries| - 1];
      if i == |rest| then rest else rest[i := entries[|entries| - 1]]
  }

  /** The bitmap of the occupied slots below k, leaving one out. */
  function PackedBits(slots: seq<Option<Node>>, excluding: nat, k: nat): bv32
    requires k <= |slots| <= 32
  {
    if k == 0 then 0
    else
      var bits := PackedBits(slots, excluding, k - 1);
      if slots[k - 1].Some? && k - 1 != excluding then WithBit(bits, k - 1) else bits
  }

  /** The nodes in the occupied slots below k, leaving one out. */
  function PackedNodes(slots: seq<Option<Node>>, excluding: nat, k: nat): seq<Node>
    requires k <= |slots|
  {
    if k == 0 then []
    else
      var nodes := PackedNodes(slots, excluding, k - 1);
      if slots[k - 1].Some? && k - 1 != excluding then nodes + [slots[k - 1].value] else nodes
  }

  function PackNodes(slots: seq<Option<Node>>, excluding: nat): Node
    requires |slots| == SIZE
  {
    BitmapIndexedNode(PackedBits(slots, excluding, SIZE), PackedNodes(slots, excluding, SIZE))
  }

  function ExpandNodes(nodes: seq<Node>, bitmap: bv32, including: nat, node: Node): Node
    requires including < SIZE && !HasBit(bitmap, including)
  {
    var before := BitmapIndexedNode(bitmap, nodes);
    HashArrayMapNode(|nodes| + 1, seq(SIZE, j requires 0 <= j < SIZE => if j == including then Some(node)
        else Child(before, j)))
  }

  // ----- Updates -----

  /** What an update returns, and the two flags it sets on the way. */
  datatype Updated = Updated(node: Option<Node>, altered: bool, resized: bool)

  /** Two leaves with different hashes, or two entries with one hash, below a common path. */
  function MergeIntoNode(leaf: Node, shift: nat, keyHash: Hash, entry: Entry): Node
    requires IsLeafNode(leaf) && (leaf.keyHash == keyHash ==> leaf.ValueNode?)
    requires leaf.keyHash != keyHash ==>
               IsLevel(shift) && shift <= 30 && Low(leaf.keyHash, shift) == Low(keyHash, shift)
    decreases 35 - shift
  {
    if leaf.keyHash == keyHash then HashCollisionNode(keyHash, [leaf.entry, entry])
    else
      var i, j := Digit(leaf.keyHash, shift), Digit(keyHash, shift);
      if i == j then
        PathsPart(leaf.keyHash, keyHash, shift);
        FullPath(leaf.keyHash);
        FullPath(keyHash);
        BitmapIndexedNode(WithBit(WithBit(0, i), j), [MergeIntoNode(leaf, shift + SHIFT, keyHash, entry)])
      else
        var added := ValueNode(keyHash, entry);
        BitmapIndexedNode(WithBit(WithBit(0, i), j), if i < j then [leaf, added] else [added, leaf])
  }

  /** The child at one position satisfies the invariant one level down. */
  lemma ChildInv(n: Node, shift: nat, key: Key)
    requires IsBranch(n) && IsLevel(shift) && Inv(n, shift, Low(key.hash, shift))
    ensures shift <= 30 && IsLevel(shift + SHIFT)
    ensures var c := Child(n, Digit(key.hash, shift));
            c.Some? ==> Inv(c.value, shift + SHIFT, Low(key.hash, shift + SHIFT)) && !c.value.ArrayMapNode?
  {
    LowExtends(key.hash, shift);
  }

  lemma SiblingExists(n: Node, i: nat)
    requires n.BitmapIndexedNode? && |n.nodes| == Rank(n.bitmap, 32) && i < 32 && HasBit(n.bitmap, i)
    ensures ChildIndex(n.bitmap, i) < |n.nodes|
  {
    hide HasBit;
    RankMonotone(n.bitmap, i, 32);
  }

  function UpdateValue(n: Node, shift: nat, key: Key, op: Option<Value>): Updated
    requires n.ValueNode? && IsLevel(shift) && Inv(n, shift, Low(key.hash, shift))
  {
    var keyMatch := key == n.entry.key;
    if (if keyMatch then op == Some(n.entry.value) else op.None?) then Updated(Some(n), false, false)
    else if op.None? then Updated(None, true, true)
    else
      var entry := Entry(key, op.value);
      if keyMatch then Updated(Some(ValueNode(n.keyHash, entry)), true, false)
      else
        HashesAgreeAtTheBottom(n.keyHash, key.hash, shift);
        Updated(Some(MergeIntoNode(n, shift, key.hash, entry)), true, true)
  }

  /** Below the last digit all hashes on the path are equal. */
  lemma HashesAgreeAtTheBottom(h: Hash, k: Hash, shift: nat)
    requires IsLevel(shift) && Low(h, shift) == Low(k, shift)
    ensures h != k ==> shift <= 30
  {
    FullPath(h);
    FullPath(k);
  }

  function UpdateCollision(n: Node, shift: nat, key: Key, op: Option<Value>): Updated
    requires n.HashCollisionNode? && IsLevel(shift) && Inv(n, shift, Low(key.hash, shift))
  {
    if key.hash != n.keyHash then
      if op.None? then Updated(Some(n), false, false)
      else
        HashesAgreeAtTheBottom(n.keyHash, key.hash, shift);
        Updated(Some(MergeIntoNode(n, shift, key.hash, Entry(key, op.value))), true, true)
    else
      var i := IndexOf(n.bucket, key);
      var found := i < |n.bucket|;
      if (if found then op == Some(n.bucket[i].value) else op.None?) then Updated(Some(n), false, false)
      else if op.None? && |n.bucket| == 2 then Updated(Some(ValueNode(n.keyHash, n.bucket[1 - i])), true, true)
      else
        Updated(Some(HashCollisionNode(n.keyHash, ChangeEntry(n.bucket, i, key, op))), true, op.None? || !found)
  }

  /** A bitmap node with the child at position i replaced, added or removed: it may grow into an
      array node, or collapse into the only leaf left. */
  function PlaceInBitmap(n: Node, i: nat, m: Option<Node>): Node
    requires n.BitmapIndexedNode? && i < SIZE && |n.nodes| == Rank(n.bitmap, 32)
    requires HasBit(n.bitmap, i) || m.Some?
  {
    var bitmap, nodes := n.bitmap, n.nodes;
    var d := ChildIndex(bitmap, i);
    if HasBit(bitmap, i) then
      SiblingExists(n, i);
      if m.None? then
        if |nodes| == 2 && IsLeafNode(nodes[1 - d]) then nodes[1 - d]
        else BitmapIndexedNode(FlipBit(bitmap, i), SpliceOut(nodes, d))
      else if |nodes| == 1 && IsLeafNode(m.value) then m.value
      else BitmapIndexedNode(bitmap, nodes[d := m.value])
    else if |nodes| >= MAX_BITMAP_INDEXED_SIZE then ExpandNodes(nodes, bitmap, i, m.value)
    else
      RankMonotone(bitmap, i, 32);
      BitmapIndexedNode(WithBit(bitmap, i), SpliceIn(nodes, d, m.value))
  }

  /** An array node with the child at position i replaced, added or removed: below the minimum
      it is packed into a bitmap node. */
  function PlaceInArray(n: Node, i: nat, m: Option<Node>): Node
    requires n.HashArrayMapNode? && i < SIZE && |n.slots| == SIZE
  {
    var count, slots := n.count, n.slots;
    if slots[i].Some? && m.None? && count - 1 < MIN_HASH_ARRAY_MAP_SIZE then PackNodes(slots, i)
    else
      var change := if slots[i].None? then 1 else if m.None? then -1 else 0;
      HashArrayMapNode(count + change, slots[i := m])
  }

  /** The branch with its child at position i replaced, added or removed. */
  function Place(n: Node, i: nat, m: Option<Node>): Node
    requires IsBranch(n) && Counted(n) && i < SIZE && (Child(n, i).Some? || m.Some?)
  {
    if n.BitmapIndexedNode? then PlaceInBitmap(n, i, m) else PlaceInArray(n, i, m)
  }

  /** A new value for a key, or None to remove it, below one node. */
  function Update(n: Node, shift: nat, key: Key, op: Option<Value>): Updated
    requires !n.ArrayMapNode? && IsLevel(shift) && Inv(n, shift, Low(key.hash, shift))
    decreases n, 1
  {
    if n.ValueNode? then UpdateValue(n, shift, key, op)
    else if n.HashCollisionNode? then UpdateCollision(n, shift, key, op)
    else
      var i := Digit(key.hash, shift);
      var c := Child(n, i);
      if c.None? && op.None? then Updated(Some(n), false, false)
      else
        ChildInv(n, shift, key);
        var m := UpdateChild(n, c, shift + SHIFT, key, op);
        if m.node == c then m.(node := Some(n)) else m.(node := Some(Place(n, i, m.node)))
  }

  /** The same below a place that may be empty. */
  function UpdateChild(parent: Node, c: Option<Node>, shift: nat, key: Key, op: Option<Value>): Updated
    requires IsLevel(shift)
    requires c.Some? ==> c.value < parent && !c.value.ArrayMapNode? && Inv(c.value, shift, Low(key.hash, shift))
    decreases parent, 0
  {
    if c.Some? then Update(c.value, shift, key, op)
    else if op.None? then Updated(None, false, false)
    else Updated(Some(ValueNode(key.hash, Entry(key, op.value))), true, true)
  }

  // ----- Updates keep the shape -----

  /** r is n with the child at position i replaced by m. */
  ghost predicate ChildReplaced(n: Node, r: Node, i: nat, m: Option<Node>) {
    IsBranch(r) && forall j: nat | j < 32 :: Child(r, j) == if j == i then m else Child(n, j)
  }

  /** With the child at position i replaced by m, the leaf r at position j is all that is left. */
  ghost predicate OnlyChild(n: Node, r: Node, i: nat, m: Option<Node>, j: nat) {
    && IsLeafNode(r) && j < 32
    && forall x: nat | x < 32 :: (if x == i then m else Child(n, x)) == if x == j then Some(r) else None
  }

  lemma LeafMovesUp(leaf: Node, shift: nat, hash: Hash, j: nat)
    requires IsLeafNode(leaf) && j < 32 && Inv(leaf, shift + SHIFT, Extend(Low(hash, shift), shift, j))
    ensures Inv(leaf, shift, Low(hash, shift))
    ensures Digit(leaf.keyHash, shift) == j
  {
    LowExtends(leaf.keyHash, shift);
    SameDigits(Pow2(shift), Low(leaf.keyHash, shift), Digit(leaf.keyHash, shift), Low(hash, shift), j);
  }

  lemma RankOrder(x: bv32, i: nat, j: nat)
    requires i < 32 && j < 32
    ensures i < j ==> Rank(x, i) <= Rank(x, j) && (HasBit(x, i) ==> Rank(x, i) < Rank(x, j))
    ensures j < i ==> Rank(x, j) <= Rank(x, i) && (HasBit(x, j) ==> Rank(x, j) < Rank(x, i))
    ensures HasBit(x, j) ==> Rank(x, j) < Rank(x, 32)
    ensures Rank(x, i) <= Rank(x, 32)
  {
    hide HasBit;
    RankMonotone(x, j, 32);
    RankMonotone(x, i, 32);
    if i < j {
      RankMonotone(x, i, j);
    } else if j < i {
      RankMonotone(x, j, i);
    }
  }

  lemma ReplaceInBitmap(n: Node, i: nat, m: Node)
    requires n.BitmapIndexedNode? && i < SIZE && |n.nodes| == Rank(n.bitmap, 32) && HasBit(n.bitmap, i)
    ensures ChildIndex(n.bitmap, i) < |n.nodes|
    ensures ChildReplaced(n, BitmapIndexedNode(n.bitmap, n.nodes[ChildIndex(n.bitmap, i) := m]), i, Some(m))
  {
    hide HasBit, ChildIndex;
    RankOrder(n.bitmap, i, i);
    var r := BitmapIndexedNode(n.bitmap, n.nodes[ChildIndex(n.bitmap, i) := m]);
    forall j: nat | j < 32
      ensures Child(r, j) == if j == i then Some(m) else Child(n, j)
    {
      RankOrder(n.bitmap, i, j);
    }
  }

  lemma InsertInBitmap(n: Node, i: nat, m: Node)
    requires n.BitmapIndexedNode? && i < SIZE && |n.nodes| == Rank(n.bitmap, 32) && !HasBit(n.bitmap, i)
    ensures ChildIndex(n.bitmap, i) <= |n.nodes| && Rank(WithBit(n.bitmap, i), 32) == |n.nodes| + 1
    ensures ChildReplaced(n, BitmapIndexedNode(WithBit(n.bitmap, i), SpliceIn(n.nodes, ChildIndex(n.bitmap, i), m)),
        i, Some(m))
  {
    hide HasBit, ChildIndex, WithBit;
    RankOrder(n.bitmap, i, i);
    ChangedRank(n.bitmap, i, 32);
    var r := BitmapIndexedNode(WithBit(n.bitmap, i), SpliceIn(n.nodes, ChildIndex(n.bitmap, i), m));
    forall j: nat | j < 32
      ensures Child(r, j) == if j == i then Some(m) else Child(n, j)
    {
      RankOrder(n.bitmap, i, j);
      ChangedBits(n.bitmap, i, j);
      ChangedRank(n.bitmap, i, j);
    }
  }

  lemma RemoveFromBitmap(n: Node, i: nat)
    requires n.BitmapIndexedNode? && i < SIZE && |n.nodes| == Rank(n.bitmap, 32) && HasBit(n.bitmap, i)
    ensures ChildIndex(n.bitmap, i) < |n.nodes| && Rank(FlipBit(n.bitmap, i), 32) == |n.nodes| - 1
    ensures ChildReplaced(n, BitmapIndexedNode(FlipBit(n.bitmap, i), SpliceOut(n.nodes, ChildIndex(n.bitmap, i))), i,
        None)
  {
    hide HasBit, ChildIndex, FlipBit;
    RankOrder(n.bitmap, i, i);
    ChangedRank(n.bitmap, i, 32);
    var r := BitmapIndexedNode(FlipBit(n.bitmap, i), SpliceOut(n.nodes, ChildIndex(n.bitmap, i)));
    forall j: nat | j < 32
      ensures Child(r, j) == if j == i then None else Child(n, j)
    {
      RankOrder(n.bitmap, i, j);
      ChangedBits(n.bitmap, i, j);
      ChangedRank(n.bitmap, i, j);
    }
  }

  lemma ExpandChildren(n: Node, i: nat, m: Node)
    requires n.BitmapIndexedNode? && i < SIZE && !HasBit(n.bitmap, i)
    ensures ChildReplaced(n, ExpandNodes(n.nodes, n.bitmap, i, m), i, Some(m))
  {
    hide HasBit, ChildIndex;
  }

  lemma {:induction false} CountMatchesRank(slots: seq<Option<Node>>, bitmap: bv32)
    requires |slots| <= 32
    requires forall j: nat | j < |slots| :: slots[j].Some? == HasBit(bitmap, j)
    ensures CountSome(slots) == Rank(bitmap, |slots|)
  {
    hide HasBit;
    if slots != [] {
      CountMatchesRank(slots[..|slots| - 1], bitmap);
    }
  }

  lemma {:induction false} CountAfterSet(slots: seq<Option<Node>>, i: nat, m: Option<Node>)
    requires i < |slots|
    ensures CountSome(slots[i := m]) == CountSome(slots) + (if m.Some? then 1 else 0) - if slots[i].Some? then 1 else 0
  {
    var last := |slots| - 1;
    if i < last {
      CountAfterSet(slots[..last], i, m);
      assert slots[i := m][..last] == slots[..last][i := m];
    } else {
      assert slots[i := m][..last] == slots[..last];
    }
  }

  lemma ExpandCount(n: Node, i: nat, m: Node)
    requires n.BitmapIndexedNode? && i < SIZE && !HasBit(n.bitmap, i) && |n.nodes| == Rank(n.bitmap, 32)
    ensures CountSome(ExpandNodes(n.nodes, n.bitmap, i, m).slots) == |n.nodes| + 1
  {
    hide HasBit, ChildIndex, WithBit;
    var slots := ExpandNodes(n.nodes, n.bitmap, i, m).slots;
    forall j: nat | j < 32
      ensures slots[j].Some? == HasBit(WithBit(n.bitmap, i), j)
    {
      RankOrder(n.bitmap, i, j);
      ChangedBits(n.bitmap, i, j);
    }
    CountMatchesRank(slots, WithBit(n.bitmap, i));
    ChangedRank(n.bitmap, i, 32);
  }

  ghost predicate Packable(slots: seq<Option<Node>>, excluding: nat, j: nat)
    requires j < |slots|
  {
    slots[j].Some? && j != excluding
  }

  lemma {:induction false} PackedHasBit(slots: seq<Option<Node>>, excluding: nat, k: nat, j: nat)
    requires k <= |slots| <= 32 && j < 32
    ensures HasBit(PackedBits(slots, excluding, k), j) <==> j < k && Packable(slots, excluding, j)
    decreases k
  {
    hide HasBit, WithBit;
    if k == 0 {
      NoBits(j);
    } else {
      PackedHasBit(slots, excluding, k - 1, j);
      ChangedBits(PackedBits(slots, excluding, k - 1), k - 1, j);
    }
  }

  /** The packed nodes stand in the order of their bits. */
  lemma {:induction false} PackedRank(slots: seq<Option<Node>>, excluding: nat, k: nat, n: nat)
    requires k <= |slots| <= 32 && k <= n <= 32
    ensures Rank(PackedBits(slots, excluding, k), n) == |PackedNodes(slots, excluding, k)|
    decreases k
  {
    hide HasBit, WithBit;
    if k == 0 {
      NoRank(n);
    } else {
      var bits := PackedBits(slots, excluding, k - 1);
      PackedRank(slots, excluding, k - 1, n);
      PackedHasBit(slots, excluding, k - 1, k - 1);
      ChangedRank(bits, k - 1, n);
    }
  }

  lemma {:induction false} PackedPlace(slots: seq<Option<Node>>, excluding: nat, k: nat, j: nat)
    requires k <= |slots| <= 32 && j < k && Packable(slots, excluding, j)
    ensures var d := Rank(PackedBits(slots, excluding, k), j);
            d < |PackedNodes(slots, excluding, k)| && PackedNodes(slots, excluding, k)[d] == slots[j].value
    decreases k
  {
    hide HasBit, WithBit;
    var bits := PackedBits(slots, excluding, k - 1);
    PackedHasBit(slots, excluding, k - 1, k - 1);
    ChangedRank(bits, k - 1, j);
    if j < k - 1 {
      PackedPlace(slots, excluding, k - 1, j);
    } else {
      PackedRank(slots, excluding, k - 1, j);
    }
  }

  lemma PackChildren(n: Node, i: nat)
    requires n.HashArrayMapNode? && |n.slots| == SIZE && i < SIZE
    ensures ChildReplaced(n, PackNodes(n.slots, i), i, None)
  {
    hide HasBit, WithBit, ChildIndex;
    var r := PackNodes(n.slots, i);
    forall j: nat | j < 32
      ensures Child(r, j) == if j == i then None else Child(n, j)
    {
      PackedHasBit(n.slots, i, SIZE, j);
      if Packable(n.slots, i, j) {
        PackedPlace(n.slots, i, SIZE, j);
      }
    }
  }

  lemma PackCount(slots: seq<Option<Node>>, i: nat)
    requires |slots| == SIZE && i < SIZE && slots[i].Some?
    ensures var r := PackNodes(slots, i); |r.nodes| == Rank(r.bitmap, 32) == CountSome(slots) - 1
  {
    hide HasBit, WithBit;
    var r := PackNodes(slots, i);
    PackedRank(slots, i, SIZE, SIZE);
    CountAfterSet(slots, i, None);
    forall j: nat | j < 32
      ensures slots[i := None][j].Some? == HasBit(r.bitmap, j)
    {
      PackedHasBit(slots, i, SIZE, j);
    }
    CountMatchesRank(slots[i := None], r.bitmap);
  }

  /** Placing a child in a bitmap node gives a branch with that child replaced, or, as leaf number
      j, the only leaf left. */
  lemma PlaceInBitmapShape(n: Node, i: nat, m: Option<Node>) returns (j: nat)
    requires n.BitmapIndexedNode? && Counted(n) && i < SIZE && (HasBit(n.bitmap, i) || m.Some?)
    requires m.None? && Child(n, i).Some? ==> IsLeafNode(Child(n, i).value)
    ensures var r := PlaceInBitmap(n, i, m);
            (ChildReplaced(n, r, i, m) && Counted(r)) || OnlyChild(n, r, i, m, j)
  {
    hide HasBit, WithBit, FlipBit, ChildIndex;
    j := i;
    RankOrder(n.bitmap, i, i);
    if !HasBit(n.bitmap, i) {
      if |n.nodes| >= MAX_BITMAP_INDEXED_SIZE {
        ExpandChildren(n, i, m.value);
        ExpandCount(n, i, m.value);
      } else {
        InsertInBitmap(n, i, m.value);
      }
    } else if m.Some? {
      if |n.nodes| == 1 && IsLeafNode(m.value) {
        LoneChild(n, i);
      } else {
        ReplaceInBitmap(n, i, m.value);
      }
    } else {
      var d := ChildIndex(n.bitmap, i);
      if |n.nodes| == 2 && IsLeafNode(n.nodes[1 - d]) {
        j := Sibling(n, i);
      } else {
        RemoveFromBitmap(n, i);
      }
    }
  }

  lemma LoneChild(n: Node, i: nat)
    requires n.BitmapIndexedNode? && |n.nodes| == Rank(n.bitmap, 32) == 1 && i < SIZE && HasBit(n.bitmap, i)
    ensures forall x: nat | x < 32 && x != i :: Child(n, x).None?
  {
    hide HasBit, ChildIndex;
    RankOrder(n.bitmap, i, i);
    forall x: nat | x < 32 && x != i
      ensures Child(n, x).None?
    {
      RankOrder(n.bitmap, i, x);
    }
  }

  lemma Sibling(n: Node, i: nat) returns (j: nat)
    requires n.BitmapIndexedNode? && |n.nodes| == Rank(n.bitmap, 32) == 2 && i < SIZE && HasBit(n.bitmap, i)
    ensures j < 32 && j != i && ChildIndex(n.bitmap, i) < 2
    ensures forall x: nat | x < 32 && x != i ::
              Child(n, x) == if x == j then Some(n.nodes[1 - ChildIndex(n.bitmap, i)]) else None
  {
    hide HasBit, ChildIndex;
    RankOrder(n.bitmap, i, i);
    j := Select(n.bitmap, 1 - ChildIndex(n.bitmap, i), 32);
    forall x: nat | x < 32 && x != i
      ensures Child(n, x) == if x == j then Some(n.nodes[1 - ChildIndex(n.bitmap, i)]) else None
    {
      RankOrder(n.bitmap, i, x);
      RankOrder(n.bitmap, j, x);
    }
  }

  lemma PlaceInArrayShape(n: Node, i: nat, m: Option<Node>)
    requires n.HashArrayMapNode? && Counted(n) && i < SIZE && (Child(n, i).Some? || m.Some?)
    ensures var r := PlaceInArray(n, i, m); ChildReplaced(n, r, i, m) && Counted(r)
  {
    hide HasBit, WithBit, ChildIndex;
    CountAfterSet(n.slots, i, m);
    if n.slots[i].Some? && m.None? {
      PackChildren(n, i);
      PackCount(n.slots, i);
    }
  }

  // ----- Merging two leaves -----

  lemma TwoBits(i: nat, j: nat, x: nat, n: nat)
    requires i < 32 && j < 32 && x < 32 && n <= 32
    ensures HasBit(WithBit(WithBit(0, i), j), x) <==> x == i || x == j
    ensures Rank(WithBit(WithBit(0, i), j), n) == (if i < n then 1 else 0) + if j < n && i != j then 1 else 0
  {
    hide HasBit, WithBit;
    NoBits(x);
    NoBits(i);
    NoBits(j);
    NoRank(n);
    ChangedBits(0, i, x);
    ChangedBits(0, i, j);
    ChangedBits(WithBit(0, i), j, x);
    ChangedRank(0, i, n);
    if i != j {
      ChangedRank(WithBit(0, i), j, n);
    } else {
      forall y: nat | y < 32
        ensures HasBit(WithBit(WithBit(0, i), i), y) == HasBit(WithBit(0, i), y)
      {
        ChangedBits(WithBit(0, i), i, y);
        ChangedBits(0, i, y);
      }
      SameRank(WithBit(WithBit(0, i), i), WithBit(0, i), n);
    }
  }

  /** Where the leaves end up when they part at this level. */
  lemma PairChildren(first: Node, i: nat, second: Node, j: nat)
    requires i < 32 && j < 32 && i != j
    ensures var r := BitmapIndexedNode(WithBit(WithBit(0, i), j), if i < j then [first, second] else [second, first]);
            && Counted(r)
            && forall x: nat | x < 32 :: Child(r, x) == if x == i then Some(first) else if x == j then Some(second)
                else None
  {
    hide HasBit, WithBit, ChildIndex;
    var r := BitmapIndexedNode(WithBit(WithBit(0, i), j), if i < j then [first, second] else [second, first]);
    TwoBits(i, j, i, 32);
    forall x: nat | x < 32
      ensures Child(r, x) == if x == i then Some(first) else if x == j then Some(second) else None
    {
      TwoBits(i, j, x, x);
    }
  }

  lemma ChainChild(child: Node, i: nat)
    requires i < 32 && !IsLeafNode(child)
    ensures var r := BitmapIndexedNode(WithBit(WithBit(0, i), i), [child]);
            && Counted(r)
            && forall x: nat | x < 32 :: Child(r, x) == if x == i then Some(child) else None
  {
    hide HasBit, WithBit, ChildIndex;
    var r := BitmapIndexedNode(WithBit(WithBit(0, i), i), [child]);
    TwoBits(i, i, i, 32);
    forall x: nat | x < 32
      ensures Child(r, x) == if x == i then Some(child) else None
    {
      TwoBits(i, i, x, x);
    }
  }

  ghost predicate Mergeable(leaf: Node, shift: nat, entry: Entry) {
    && IsLeafNode(leaf) && IsLevel(shift) && Inv(leaf, shift, Low(entry.key.hash, shift))
    && (leaf.keyHash == entry.key.hash ==> leaf.ValueNode? && leaf.entry.key != entry.key)
    && (leaf.keyHash != entry.key.hash ==> shift <= 30)
  }

  lemma ChainInv(child: Node, i: nat, shift: nat, prefix: nat)
    requires i < 32 && !IsLeafNode(child) && shift <= 30
    requires Inv(child, shift + SHIFT, Extend(prefix, shift, i))
    ensures Inv(BitmapIndexedNode(WithBit(WithBit(0, i), i), [child]), shift, prefix)
  {
    hide HasBit, WithBit, ChildIndex;
    ChainChild(child, i);
  }

  lemma PairInv(first: Node, i: nat, second: Node, j: nat, shift: nat, prefix: nat)
    requires i < 32 && j < 32 && i != j && shift <= 30
    requires Inv(first, shift + SHIFT, Extend(prefix, shift, i))
    requires Inv(second, shift + SHIFT, Extend(prefix, shift, j))
    ensures Inv(BitmapIndexedNode(WithBit(WithBit(0, i), j), if i < j then [first, second] else [second, first]),
        shift, prefix)
  {
    hide HasBit, WithBit, ChildIndex;
    PairChildren(first, i, second, j);
  }

  lemma LeafMovesDown(leaf: Node, shift: nat, prefix: nat)
    requires IsLeafNode(leaf) && Inv(leaf, shift, prefix)
    ensures Inv(leaf, shift + SHIFT, Extend(prefix, shift, Digit(leaf.keyHash, shift)))
  {
    LowExtends(leaf.keyHash, shift);
  }

  lemma {:induction false} MergeKeepsInv(leaf: Node, shift: nat, entry: Entry)
    requires Mergeable(leaf, shift, entry)
    ensures var r := MergeIntoNode(leaf, shift, entry.key.hash, entry);
            && Inv(r, shift, Low(entry.key.hash, shift))
            && (leaf.keyHash != entry.key.hash ==> r.BitmapIndexedNode?)
            && !r.ArrayMapNode?
    decreases 35 - shift
  {
    hide HasBit, WithBit, ChildIndex, Low, Digit;
    var h := entry.key.hash;
    if leaf.keyHash != h {
      var i, j := Digit(leaf.keyHash, shift), Digit(h, shift);
      PathsPart(leaf.keyHash, h, shift);
      LeafMovesDown(leaf, shift, Low(h, shift));
      LowExtends(h, shift);
      if i == j {
        FullPath(leaf.keyHash);
        FullPath(h);
        MergeKeepsInv(leaf, shift + SHIFT, entry);
        ChainInv(MergeIntoNode(leaf, shift + SHIFT, h, entry), i, shift, Low(h, shift));
      } else {
        PairInv(leaf, i, ValueNode(h, entry), j, shift, Low(h, shift));
      }
    }
  }

  // ----- Entries -----

  lemma GetAt(entries: seq<Entry>, i: nat)
    requires Distinct(entries) && i < |entries|
    ensures IndexOf(entries, entries[i].key) == i && GetEntry(entries, entries[i].key) == Some(entries[i].value)
  {
    hide IndexOf;
  }

  lemma Absent(entries: seq<Entry>, q: Key)
    requires forall i :: 0 <= i < |entries| ==> entries[i].key != q
    ensures GetEntry(entries, q) == None
  {
    hide IndexOf;
  }

  lemma RemovedEntry(entries: seq<Entry>, i: nat, q: Key)
    requires Distinct(entries) && i < |entries|
    ensures var r := ChangeEntry(entries, i, entries[i].key, None);
            && Distinct(r) && |r| == |entries| - 1
            && GetEntry(r, q) == (if q == entries[i].key then None else GetEntry(entries, q))
            && (forall e :: e in r ==> e in entries)
  {
    hide IndexOf, GetEntry;
    var r := ChangeEntry(entries, i, entries[i].key, None);
    var last := |entries| - 1;
    if x: nat :| x < |entries| && x != i && entries[x].key == q {
      GetAt(entries, x);
      GetAt(r, if x == last then i else x);
    } else {
      Absent(r, q);
      if entries[i].key != q {
        Absent(entries, q);
      }
    }
  }

  lemma ReplacedEntry(entries: seq<Entry>, i: nat, v: Value, q: Key)
    requires Distinct(entries) && i < |entries|
    ensures var r := ChangeEntry(entries, i, entries[i].key, Some(v));
            && Distinct(r) && |r| == |entries|
            && GetEntry(r, q) == (if q == entries[i].key then Some(v) else GetEntry(entries, q))
            && (forall e :: e in r ==> e in entries || e.key == entries[i].key)
  {
    hide IndexOf, GetEntry;
    var r := ChangeEntry(entries, i, entries[i].key, Some(v));
    if x: nat :| x < |entries| && entries[x].key == q {
      GetAt(entries, x);
      GetAt(r, x);
    } else {
      Absent(r, q);
      Absent(entries, q);
    }
  }

  lemma AppendedEntry(entries: seq<Entry>, key: Key, v: Value, q: Key)
    requires Distinct(entries) && forall i :: 0 <= i < |entries| ==> entries[i].key != key
    ensures var r := ChangeEntry(entries, |entries|, key, Some(v));
            && Distinct(r) && |r| == |entries| + 1
            && GetEntry(r, q) == (if q == key then Some(v) else GetEntry(entries, q))
            && (forall e :: e in r ==> e in entries || e.key == key)
  {
    hide IndexOf, GetEntry;
    var r := ChangeEntry(entries, |entries|, key, Some(v));
    if q == key {
      GetAt(r, |entries|);
    } else if x: nat :| x < |entries| && entries[x].key == q {
      GetAt(entries, x);
      GetAt(r, x);
    } else {
      Absent(r, q);
      Absent(entries, q);
    }
  }

  lemma ChangedEntries(entries: seq<Entry>, key: Key, op: Option<Value>, q: Key)
    requires Distinct(entries) && (IndexOf(entries, key) == |entries| ==> op.Some?)
    ensures var r := ChangeEntry(entries, IndexOf(entries, key), key, op);
            && Distinct(r)
            && GetEntry(r, q) == (if q == key then op else GetEntry(entries, q))
            && (forall e :: e in r ==> e in entries || e.key == key)
  {
    hide GetEntry, Distinct, ChangeEntry;
    var i := IndexOf(entries, key);
    if i == |entries| {
      AppendedEntry(entries, key, op.value, q);
    } else if op.Some? {
      ReplacedEntry(entries, i, op.value, q);
    } else {
      RemovedEntry(entries, i, q);
    }
  }

  // ----- Updates keep the shape, continued -----

  lemma ReplacedKeepsInv(n: Node, r: Node, i: nat, m: Option<Node>, shift: nat, prefix: nat)
    requires IsBranch(n) && Inv(n, shift, prefix) && i < 32
    requires ChildReplaced(n, r, i, m) && Counted(r)
    requires m.Some? ==> Inv(m.value, shift + SHIFT, Extend(prefix, shift, i))
    ensures Inv(r, shift, prefix)
  {
    hide HasBit, ChildIndex, Child, Counted;
  }

  lemma OnlyChildKeepsInv(n: Node, r: Node, i: nat, m: Option<Node>, j: nat, shift: nat, hash: Hash)
    requires IsBranch(n) && Inv(n, shift, Low(hash, shift)) && i < 32
    requires OnlyChild(n, r, i, m, j)
    requires m.Some? ==> Inv(m.value, shift + SHIFT, Extend(Low(hash, shift), shift, i))
    ensures Inv(r, shift, Low(hash, shift)) && !r.ArrayMapNode?
  {
    hide HasBit, ChildIndex, Child, Counted;
    LeafMovesUp(r, shift, hash, j);
  }

  ghost predicate UpdateOk(n: Node, shift: nat, key: Key, op: Option<Value>)
    requires !n.ArrayMapNode? && IsLevel(shift) && Inv(n, shift, Low(key.hash, shift))
  {
    var r := Update(n, shift, key, op).node;
    && (r.Some? ==> !r.value.ArrayMapNode? && Inv(r.value, shift, Low(key.hash, shift)))
    && (r.None? ==> op.None? && IsLeafNode(n))
  }

  lemma UpdateValueKeepsInv(n: Node, shift: nat, key: Key, op: Option<Value>)
    requires n.ValueNode? && IsLevel(shift) && Inv(n, shift, Low(key.hash, shift))
    ensures UpdateOk(n, shift, key, op)
  {
    if op.Some? && key != n.entry.key {
      HashesAgreeAtTheBottom(n.keyHash, key.hash, shift);
      MergeKeepsInv(n, shift, Entry(key, op.value));
    }
  }

  lemma SameHashes(bucket: seq<Entry>, keyHash: Hash, key: Key, op: Option<Value>)
    requires Distinct(bucket) && (IndexOf(bucket, key) == |bucket| ==> op.Some?)
    requires key.hash == keyHash && forall i :: 0 <= i < |bucket| ==> bucket[i].key.hash == keyHash
    ensures var r := ChangeEntry(bucket, IndexOf(bucket, key), key, op);
            Distinct(r) && forall i :: 0 <= i < |r| ==> r[i].key.hash == keyHash
  {
    hide GetEntry, Distinct, ChangeEntry, IndexOf;
    ChangedEntries(bucket, key, op, key);
    var r := ChangeEntry(bucket, IndexOf(bucket, key), key, op);
    forall i | 0 <= i < |r|
      ensures r[i].key.hash == keyHash
    {
      assert r[i] in r;
    }
  }

  lemma UpdateCollisionKeepsInv(n: Node, shift: nat, key: Key, op: Option<Value>)
    requires n.HashCollisionNode? && IsLevel(shift) && Inv(n, shift, Low(key.hash, shift))
    ensures UpdateOk(n, shift, key, op)
  {
    hide Distinct, Low;
    if key.hash != n.keyHash {
      if op.Some? {
        HashesAgreeAtTheBottom(n.keyHash, key.hash, shift);
        MergeKeepsInv(n, shift, Entry(key, op.value));
      }
    } else if op.Some? || IndexOf(n.bucket, key) < |n.bucket| {
      SameHashes(n.bucket, n.keyHash, key, op);
    }
  }

  lemma PlacedKeepsInv(n: Node, i: nat, m: Option<Node>, shift: nat, hash: Hash)
    requires IsBranch(n) && Inv(n, shift, Low(hash, shift)) && i < SIZE && (Child(n, i).Some? || m.Some?)
    requires m.Some? ==> Inv(m.value, shift + SHIFT, Extend(Low(hash, shift), shift, i))
    requires m.None? ==> IsLeafNode(Child(n, i).value)
    ensures Inv(Place(n, i, m), shift, Low(hash, shift)) && !Place(n, i, m).ArrayMapNode?
  {
    hide HasBit, ChildIndex, ChildReplaced;
    if n.BitmapIndexedNode? {
      var j := PlaceInBitmapShape(n, i, m);
      if OnlyChild(n, Place(n, i, m), i, m, j) {
        OnlyChildKeepsInv(n, Place(n, i, m), i, m, j, shift, hash);
      } else {
        ReplacedKeepsInv(n, Place(n, i, m), i, m, shift, Low(hash, shift));
      }
    } else {
      PlaceInArrayShape(n, i, m);
      ReplacedKeepsInv(n, Place(n, i, m), i, m, shift, Low(hash, shift));
    }
  }

  lemma {:induction false} UpdateKeepsInv(n: Node, shift: nat, key: Key, op: Option<Value>)
    requires !n.ArrayMapNode? && IsLevel(shift) && Inv(n, shift, Low(key.hash, shift))
    ensures UpdateOk(n, shift, key, op)
    decreases n, 2
  {
    if n.ValueNode? {
      UpdateValueKeepsInv(n, shift, key, op);
    } else if n.HashCollisionNode? {
      UpdateCollisionKeepsInv(n, shift, key, op);
    } else {
      UpdateBranchKeepsInv(n, shift, key, op);
    }
  }

  lemma {:induction false} ChildUpdateShape(n: Node, c: Option<Node>, shift: nat, key: Key, op: Option<Value>)
    requires IsBranch(n) && IsLevel(shift) && Inv(n, shift, Low(key.hash, shift)) && c
        == Child(n, Digit(key.hash, shift))
    requires IsLevel(shift + SHIFT)
    requires c.Some? ==> !c.value.ArrayMapNode? && Inv(c.value, shift + SHIFT, Low(key.hash, shift + SHIFT))
    requires c.Some? || op.Some?
    ensures var m := UpdateChild(n, c, shift + SHIFT, key, op).node;
            && (m.Some? ==> Inv(m.value, shift + SHIFT, Extend(Low(key.hash, shift), shift, Digit(key.hash, shift))))
            && (m.None? ==> c.Some? && IsLeafNode(c.value))
    decreases n, 0
  {
    hide HasBit, ChildIndex, Counted, Child, Place, Low, Digit;
    LowExtends(key.hash, shift);
    if c.Some? {
      UpdateKeepsInv(c.value, shift + SHIFT, key, op);
    }
  }

  lemma {:induction false} UpdateBranchKeepsInv(n: Node, shift: nat, key: Key, op: Option<Value>)
    requires IsBranch(n) && IsLevel(shift) && Inv(n, shift, Low(key.hash, shift))
    ensures UpdateOk(n, shift, key, op)
    decreases n, 1
  {
    hide HasBit, ChildIndex, Counted, Child, Place, Low, Inv, Digit;
    var c := Child(n, Digit(key.hash, shift));
    ChildInv(n, shift, key);
    if c.Some? || op.Some? {
      ChildUpdateShape(n, c, shift, key, op);
      var m := UpdateChild(n, c, shift + SHIFT, key, op);
      if m.node != c {
        PlacedKeepsInv(n, Digit(key.hash, shift), m.node, shift, key.hash);
      }
    }
  }

  /** The trie holding these entries and one more, built by inserting them one at a time. */
  function CreateNodes(entries: seq<Entry>, key: Key, value: Value): (n: Node)
    ensures !n.ArrayMapNode? && Inv(n, 0, 0)
  {
    if entries == [] then
      ValueNode(key.hash, Entry(key, value))
    else
      var last := entries[|entries| - 1];
      var before := CreateNodes(entries[..|entries| - 1], key, value);
      UpdateKeepsInv(before, 0, last.key, Some(last.value));
      Update(before, 0, last.key, Some(last.value)).node.value
  }

  function UpdateArrayMap(entries: seq<Entry>, key: Key, op: Option<Value>): Updated {
    var i := IndexOf(entries, key);
    var found := i < |entries|;
    if (if found then op == Some(entries[i].value) else op.None?)
        then Updated(Some(ArrayMapNode(entries)), false, false)
    else
      var resized := op.None? || !found;
      if op.None? && |entries| == 1 then Updated(None, true, resized)
      else if !found && |entries| >= MAX_ARRAY_MAP_SIZE then
        Updated(Some(CreateNodes(entries, key, op.value)), true, resized)
      else Updated(Some(ArrayMapNode(ChangeEntry(entries, i, key, op))), true, resized)
  }

  // ----- The map -----

  datatype Map = Map(size: int, root: Option<Node>)

  const EMPTY_MAP := Map(0, None)

  ghost predicate MapInv(m: Map) {
    m.root.Some? ==> Inv(m.root.value, 0, 0)
  }

  function MapGet(m: Map, key: Key): Option<Value> {
    if m.root.Some? then Get(m.root.value, 0, key) else None
  }

  function UpdateMap(m: Map, key: Key, op: Option<Value>): Map
    requires MapInv(m)
  {
    if m.root.Some? then
      var r := UpdateRoot(m.root.value, key, op);
      if !r.altered then m
      else
        var size := m.size + if r.resized then if op.None? then -1 else 1 else 0;
        if r.node.Some? then Map(size, r.node) else EMPTY_MAP
    else if op.None? then m
    else Map(1, Some(ArrayMapNode([Entry(key, op.value)])))
  }

  function UpdateRoot(n: Node, key: Key, op: Option<Value>): Updated
    requires Inv(n, 0, 0)
  {
    if n.ArrayMapNode? then UpdateArrayMap(n.entries, key, op) else Update(n, 0, key, op)
  }
}
