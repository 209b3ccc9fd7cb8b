/** Updating a trie and then looking a key up gives what a plain finite map gives. */
module HashTrieRefinement {
  import opened Wrappers
  import opened BitRank
  import opened HashTrie

  /** Lookup below a place that may be empty. */
  function GetIn(n: Option<Node>, shift: nat, q: Key): Option<Value> {
    if n.Some? then Get(n.value, shift, q) else None
  }

  lemma LeafGet(leaf: Node, shift: nat, prefix: nat, q: Key)
    requires IsLeafNode(leaf) && Inv(leaf, shift, prefix)
    ensures q.hash != leaf.keyHash ==> Get(leaf, shift, q) == None
    ensures forall s: nat :: Get(leaf, s, q) == Get(leaf, shift, q)
  {
    if leaf.HashCollisionNode? && q.hash != leaf.keyHash {
      Absent(leaf.bucket, q);
    }
  }

  lemma BranchGet(n: Node, shift: nat, q: Key)
    requires IsBranch(n)
    ensures Get(n, shift, q) == GetIn(Child(n, Digit(q.hash, shift)), shift + SHIFT, q)
  {
  }

  // ----- Merging -----

  lemma PairGet(first: Node, i: nat, second: Node, j: nat, shift: nat, q: Key)
    requires i < 32 && j < 32 && i != j
    ensures var r := BitmapIndexedNode(WithBit(WithBit(0, i), j), if i < j then [first, second] else [second, first]);
            var d := Digit(q.hash, shift);
            Get(r, shift, q) == if d == i then Get(first, shift + SHIFT, q) else if d == j
                then Get(second, shift + SHIFT, q) else None
  {
    hide HasBit, WithBit, ChildIndex;
    PairChildren(first, i, second, j);
  }

  lemma ChainGet(child: Node, i: nat, shift: nat, q: Key)
    requires i < 32 && !IsLeafNode(child)
    ensures var r := BitmapIndexedNode(WithBit(WithBit(0, i), i), [child]);
            Get(r, shift, q) == if Digit(q.hash, shift) == i then Get(child, shift + SHIFT, q) else None
  {
    hide HasBit, WithBit, ChildIndex;
    ChainChild(child, i);
  }

  lemma MergedBucketGet(leaf: Node, shift: nat, entry: Entry, q: Key)
    requires leaf.ValueNode? && leaf.entry.key != entry.key
    ensures Get(HashCollisionNode(leaf.keyHash, [leaf.entry, entry]), shift, q)
         == if q == entry.key then Some(entry.value) else Get(leaf, shift, q)
  {
    AppendedEntry([leaf.entry], entry.key, entry.value, q);
    assert [leaf.entry] + [entry] == [leaf.entry, entry];
    if q == leaf.entry.key {
      GetAt([leaf.entry], 0);
    } else {
      Absent([leaf.entry], q);
    }
  }

  lemma {:induction false} MergeGet(leaf: Node, shift: nat, entry: Entry, q: Key)
    requires Mergeable(leaf, shift, entry) && Low(q.hash, shift) == Low(entry.key.hash, shift)
    ensures Get(MergeIntoNode(leaf, shift, entry.key.hash, entry), shift, q)
         == if q == entry.key then Some(entry.value) else Get(leaf, shift, q)
    decreases 35 - shift
  {
    hide HasBit, WithBit, ChildIndex, Low, Digit;
    var h := entry.key.hash;
    LeafGet(leaf, shift, Low(h, shift), q);
    if leaf.keyHash == h {
      MergedBucketGet(leaf, shift, entry, q);
    } else {
      var i, j := Digit(leaf.keyHash, shift), Digit(h, shift);
      PathsPart(leaf.keyHash, h, shift);
      PathsPart(q.hash, h, shift);
      if i == j {
        FullPath(leaf.keyHash);
        FullPath(h);
        LeafMovesDown(leaf, shift, Low(h, shift));
        LowExtends(h, shift);
        MergeKeepsInv(leaf, shift + SHIFT, entry);
        ChainGet(MergeIntoNode(leaf, shift + SHIFT, h, entry), i, shift, q);
        if Digit(q.hash, shift) == i {
          MergeGet(leaf, shift + SHIFT, entry, q);
        }
      } else {
        PairGet(leaf, i, ValueNode(h, entry), j, shift, q);
      }
    }
  }

  // ----- Placing a child -----

  lemma PlacedGet(n: Node, i: nat, m: Option<Node>, shift: nat, hash: Hash, q: Key)
    requires IsBranch(n) && Inv(n, shift, Low(hash, shift)) && i < SIZE && (Child(n, i).Some? || m.Some?)
    requires m.Some? ==> Inv(m.value, shift + SHIFT, Extend(Low(hash, shift), shift, i))
    requires m.None? ==> IsLeafNode(Child(n, i).value)
    ensures var d := Digit(q.hash, shift);
            Get(Place(n, i, m), shift, q) == GetIn(if d == i then m else Child(n, d), shift + SHIFT, q)
  {
    hide HasBit, ChildIndex, Counted, Digit, Low;
    var r := Place(n, i, m);
    var j := i;
    if n.BitmapIndexedNode? {
      j := PlaceInBitmapShape(n, i, m);
    } else {
      PlaceInArrayShape(n, i, m);
    }
    if OnlyChild(n, r, i, m, j) {
      LeafMovesUp(r, shift, hash, j);
      LeafGet(r, shift, Low(hash, shift), q);
    } else {
      BranchGet(r, shift, q);
    }
  }

  // ----- Updating -----

  /** One update, seen by one lookup and by the two flags. */
  ghost predicate UpdateGets(n: Node, shift: nat, key: Key, op: Option<Value>, q: Key)
    requires !n.ArrayMapNode? && IsLevel(shift) && Inv(n, shift, Low(key.hash, shift))
  {
    var r := Update(n, shift, key, op);
    && GetIn(r.node, shift, q) == (if q == key then op else Get(n, shift, q))
    && (r.altered <==> Get(n, shift, key) != op)
    && (r.resized <==> Get(n, shift, key).Some? != op.Some?)
    && (!r.altered ==> r.node == Some(n))
  }

  lemma UpdateValueGets(n: Node, shift: nat, key: Key, op: Option<Value>, q: Key)
    requires n.ValueNode? && IsLevel(shift) && Inv(n, shift, Low(key.hash, shift))
    requires Low(q.hash, shift) == Low(key.hash, shift)
    ensures UpdateGets(n, shift, key, op, q)
  {
    hide Low;
    if op.Some? && key != n.entry.key {
      HashesAgreeAtTheBottom(n.keyHash, key.hash, shift);
      MergeGet(n, shift, Entry(key, op.value), q);
    }
  }

  lemma UpdateCollisionGets(n: Node, shift: nat, key: Key, op: Option<Value>, q: Key)
    requires n.HashCollisionNode? && IsLevel(shift) && Inv(n, shift, Low(key.hash, shift))
    requires Low(q.hash, shift) == Low(key.hash, shift)
    ensures UpdateGets(n, shift, key, op, q)
  {
    hide Low, IndexOf;
    LeafGet(n, shift, Low(key.hash, shift), key);
    if key.hash != n.keyHash {
      if op.Some? {
        HashesAgreeAtTheBottom(n.keyHash, key.hash, shift);
        MergeGet(n, shift, Entry(key, op.value), q);
      }
    } else {
      var i := IndexOf(n.bucket, key);
      if i < |n.bucket| {
        GetAt(n.bucket, i);
        if op.None? && |n.bucket| == 2 {
          OtherOfTwo(n, shift, i, q);
        } else {
          ChangedEntries(n.bucket, key, op, q);
        }
      } else if op.Some? {
        ChangedEntries(n.bucket, key, op, q);
      }
    }
  }

  lemma OtherOfTwo(n: Node, shift: nat, i: nat, q: Key)
    requires n.HashCollisionNode? && |n.bucket| == 2 && Distinct(n.bucket) && i < 2
    ensures Get(ValueNode(n.keyHash, n.bucket[1 - i]), shift, q) == if q == n.bucket[i].key then None
        else Get(n, shift, q)
  {
    hide IndexOf;
    GetAt(n.bucket, 0);
    GetAt(n.bucket, 1);
    if q != n.bucket[0].key && q != n.bucket[1].key {
      Absent(n.bucket, q);
    }
  }

  lemma {:induction false} UpdateRefines(n: Node, shift: nat, key: Key, op: Option<Value>, q: Key)
    requires !n.ArrayMapNode? && IsLevel(shift) && Inv(n, shift, Low(key.hash, shift))
    requires Low(q.hash, shift) == Low(key.hash, shift)
    ensures UpdateGets(n, shift, key, op, q)
    decreases n
  {
    if n.ValueNode? {
      UpdateValueGets(n, shift, key, op, q);
    } else if n.HashCollisionNode? {
      UpdateCollisionGets(n, shift, key, op, q);
    } else {
      UpdateBranchGets(n, shift, key, op, q);
    }
  }

  /** The same for a child, with the key itself as the lookup when q goes elsewhere. */
  lemma {:induction false} UpdateChildGets(n: Node, c: Option<Node>, shift: nat, key: Key, op: Option<Value>, q: Key)
    requires IsLevel(shift) && Low(q.hash, shift) == Low(key.hash, shift)
    requires c.Some? ==> c.value < n && !c.value.ArrayMapNode? && Inv(c.value, shift, Low(key.hash, shift))
    ensures var r := UpdateChild(n, c, shift, key, op);
            && GetIn(r.node, shift, q) == (if q == key then op else GetIn(c, shift, q))
            && (r.altered <==> GetIn(c, shift, key) != op)
            && (r.resized <==> GetIn(c, shift, key).Some? != op.Some?)
            && (!r.altered ==> r.node == c)
    decreases n, 0
  {
    hide Low;
    if c.Some? {
      UpdateRefines(c.value, shift, key, op, q);
    }
  }

  lemma {:induction false} UpdateBranchGets(n: Node, shift: nat, key: Key, op: Option<Value>, q: Key)
    requires IsBranch(n) && IsLevel(shift) && Inv(n, shift, Low(key.hash, shift))
    requires Low(q.hash, shift) == Low(key.hash, shift)
    ensures UpdateGets(n, shift, key, op, q)
    decreases n, 1
  {
    hide HasBit, ChildIndex, Counted, Child, Place, Low, Digit, Inv, Get;
    var i := Digit(key.hash, shift);
    var c := Child(n, i);
    ChildInv(n, shift, key);
    BranchGet(n, shift, key);
    BranchGet(n, shift, q);
    PathsPart(q.hash, key.hash, shift);
    UpdateChildGets(n, c, shift + SHIFT, key, op, if Digit(q.hash, shift) == i then q else key);
    var m := UpdateChild(n, c, shift + SHIFT, key, op);
    if (c.Some? || op.Some?) && m.node != c {
      ChildUpdateShape(n, c, shift, key, op);
      PlacedGet(n, i, m.node, shift, key.hash, q);
    }
  }

  // ----- From the small array to the trie -----

  lemma LastEntry(entries: seq<Entry>, q: Key)
    requires Distinct(entries) && entries != []
    ensures var last := entries[|entries| - 1];
            GetEntry(entries, q) == if q == last.key then Some(last.value) else GetEntry(entries[..|entries| - 1], q)
  {
    hide IndexOf, GetEntry;
    var before, last := entries[..|entries| - 1], entries[|entries| - 1];
    AppendedEntry(before, last.key, last.value, q);
    assert before + [Entry(last.key, last.value)] == entries;
  }

  /** Growing out of the array keeps every entry and adds the new one. */
  lemma {:induction false} CreateNodesGets(entries: seq<Entry>, key: Key, value: Value, q: Key)
    requires Distinct(entries) && forall i :: 0 <= i < |entries| ==> entries[i].key != key
    ensures Get(CreateNodes(entries, key, value), 0, q) == if q == key then Some(value) else GetEntry(entries, q)
    decreases |entries|
  {
    hide IndexOf, Inv, Low;
    if entries != [] {
      var last, before := entries[|entries| - 1], entries[..|entries| - 1];
      CreateNodesGets(before, key, value, q);
      LastEntry(entries, q);
      RootPath(last.key.hash);
      RootPath(q.hash);
      UpdateRefines(CreateNodes(before, key, value), 0, last.key, Some(last.value), q);
      UpdateKeepsInv(CreateNodes(before, key, value), 0, last.key, Some(last.value));
    }
  }

  lemma RootPath(hash: Hash)
    ensures Low(hash, 0) == 0
  {
  }

  /** UpdateGets at the root, for all five kinds of node. */
  lemma UpdateRootRefines(n: Node, key: Key, op: Option<Value>, q: Key)
    requires Inv(n, 0, 0)
    ensures var r := UpdateRoot(n, key, op);
            && (r.node.Some? ==> Inv(r.node.value, 0, 0))
            && GetIn(r.node, 0, q) == (if q == key then op else Get(n, 0, q))
            && (r.altered <==> Get(n, 0, key) != op)
            && (r.resized <==> Get(n, 0, key).Some? != op.Some?)
            && (!r.altered ==> r.node == Some(n))
            && (r.node.None? ==> op.None?)
  {
    hide Low;
    RootPath(key.hash);
    RootPath(q.hash);
    if n.ArrayMapNode? {
      UpdateArrayMapRefines(n.entries, key, op, q);
    } else {
      UpdateRefines(n, 0, key, op, q);
      UpdateKeepsInv(n, 0, key, op);
    }
  }

  lemma UpdateArrayMapRefines(entries: seq<Entry>, key: Key, op: Option<Value>, q: Key)
    requires Inv(ArrayMapNode(entries), 0, 0)
    ensures var r := UpdateArrayMap(entries, key, op);
            && (r.node.Some? ==> Inv(r.node.value, 0, 0))
            && GetIn(r.node, 0, q) == (if q == key then op else GetEntry(entries, q))
            && (r.altered <==> GetEntry(entries, key) != op)
            && (r.resized <==> GetEntry(entries, key).Some? != op.Some?)
            && (!r.altered ==> r.node == Some(ArrayMapNode(entries)))
            && (r.node.None? ==> op.None?)
  {
    hide IndexOf;
    var i := IndexOf(entries, key);
    if i < |entries| {
      if op.Some? {
        ReplacedEntry(entries, i, op.value, q);
      } else {
        RemovedEntry(entries, i, q);
        if |entries| == 1 && q != key {
          Absent(entries, q);
        }
      }
    } else if op.Some? {
      if |entries| >= MAX_ARRAY_MAP_SIZE {
        CreateNodesGets(entries, key, op.value, q);
      } else {
        AppendedEntry(entries, key, op.value, q);
      }
    }
  }

  // ----- Whole runs -----

  ghost function Lookup(f: map<Key, Value>, q: Key): Option<Value> {
    if q in f then Some(f[q]) else None
  }

  /** What `set` and `remove` do to a plain finite map. */
  ghost function Apply(f: map<Key, Value>, key: Key, op: Option<Value>): map<Key, Value> {
    if op.Some? then f[key := op.value] else f - {key}
  }

  ghost predicate Refines(m: Map, f: map<Key, Value>) {
    && MapInv(m)
    && (forall q: Key :: MapGet(m, q) == Lookup(f, q))
    && m.size == |f|
  }

  lemma ApplySize(f: map<Key, Value>, key: Key, op: Option<Value>)
    ensures |Apply(f, key, op)| == |f| + (if op.Some? then 1 else 0) - if key in f then 1 else 0
  {
    if op.Some? {
      assert Apply(f, key, op).Keys == f.Keys + {key};
    } else {
      assert Apply(f, key, op).Keys == f.Keys - {key};
    }
  }

  /** One `set` or `remove` does to the trie what it does to the finite map, and returns the same
      map object's value exactly when nothing changes. */
  lemma UpdateMapRefines(m: Map, f: map<Key, Value>, key: Key, op: Option<Value>)
    requires Refines(m, f)
    ensures Refines(UpdateMap(m, key, op), Apply(f, key, op))
    ensures UpdateMap(m, key, op) == m <==> Lookup(f, key) == op
  {
    hide Inv, Get;
    ApplySize(f, key, op);
    var r := UpdateMap(m, key, op);
    forall q: Key
      ensures MapInv(r) && MapGet(r, q) == Lookup(Apply(f, key, op), q)
    {
      UpdateMapGets(m, f, key, op, q);
    }
    UpdateMapGets(m, f, key, op, key);
    assert MapGet(r, key) == op;
    assert MapGet(m, key) == Lookup(f, key);
  }

  lemma NothingThere(m: Map, f: map<Key, Value>)
    requires Refines(m, f) && m.root.None?
    ensures f == map[]
  {
    forall q: Key
      ensures q !in f
    {
      assert MapGet(m, q) == Lookup(f, q);
    }
  }

  lemma LastOneOut(m: Map, f: map<Key, Value>, key: Key)
    requires Refines(m, f) && m.root.Some? && UpdateRoot(m.root.value, key, None).node.None?
    ensures f.Keys <= {key}
  {
    hide Inv, Get;
    forall q: Key | q != key
      ensures q !in f
    {
      UpdateRootRefines(m.root.value, key, None, q);
      assert MapGet(m, q) == Lookup(f, q);
    }
  }

  lemma UpdateMapGets(m: Map, f: map<Key, Value>, key: Key, op: Option<Value>, q: Key)
    requires Refines(m, f)
    ensures var r := UpdateMap(m, key, op);
            && MapInv(r)
            && MapGet(r, q) == Lookup(Apply(f, key, op), q)
            && r.size == m.size + (if op.Some? then 1 else 0) - (if key in f then 1 else 0)
            && (Lookup(f, key) == op ==> r == m)
  {
    assert MapGet(m, q) == Lookup(f, q);
    assert MapGet(m, key) == Lookup(f, key);
    if m.root.Some? {
      hide Inv, Get;
      UpdateRootRefines(m.root.value, key, op, q);
      if UpdateRoot(m.root.value, key, op).node.None? {
        LastOneOut(m, f, key);
        assert key in f ==> f.Keys == {key};
      }
    } else {
      NothingThere(m, f);
    }
  }

  datatype Step = Set(key: Key, value: Value) | Remove(key: Key)

  function OpOf(step: Step): Option<Value> {
    if step.Set? then Some(step.value) else None
  }

  /** The map after a sequence of `set` and `remove` on the empty map. */
  function Run(steps: seq<Step>): (m: Map)
    ensures MapInv(m)
  {
    if steps == [] then EMPTY_MAP
    else
      var before, last := Run(steps[..|steps| - 1]), steps[|steps| - 1];
      UpdateMapKeepsInv(before, last.key, OpOf(last));
      UpdateMap(before, last.key, OpOf(last))
  }

  lemma UpdateMapKeepsInv(m: Map, key: Key, op: Option<Value>)
    requires MapInv(m)
    ensures MapInv(UpdateMap(m, key, op))
  {
    hide Inv, Get;
    if m.root.Some? {
      UpdateRootRefines(m.root.value, key, op, key);
    } else if op.Some? {
      assert Inv(ArrayMapNode([Entry(key, op.value)]), 0, 0) by {
        SingleEntry(Entry(key, op.value));
      }
    }
  }

  lemma SingleEntry(entry: Entry)
    ensures Inv(ArrayMapNode([entry]), 0, 0)
  {
  }

  ghost function PlainMap(steps: seq<Step>): map<Key, Value> {
    if steps == [] then map[]
    else Apply(PlainMap(steps[..|steps| - 1]), steps[|steps| - 1].key, OpOf(steps[|steps| - 1]))
  }

  /** After any sequence of `set` and `remove` from the empty map, every `get` and the `size`
      are those of a plain finite map. */
  lemma {:induction false} RunRefines(steps: seq<Step>)
    ensures Refines(Run(steps), PlainMap(steps))
  {
    hide Refines;
    if steps == [] {
      EmptyRefines();
    } else {
      RunRefines(steps[..|steps| - 1]);
      var last := steps[|steps| - 1];
      UpdateMapRefines(Run(steps[..|steps| - 1]), PlainMap(steps[..|steps| - 1]), last.key, OpOf(last));
    }
  }

  lemma EmptyRefines()
    ensures Refines(EMPTY_MAP, map[])
  {
  }
}
