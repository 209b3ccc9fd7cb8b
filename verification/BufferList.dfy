/** The linked list of buffers behind a readable stream. */
module BufferList {
  import opened Bytes
  import opened Sequences
  import opened Wrappers

  // ----- What is left after some bytes are taken -----

  /** The list without its first n bytes: the chunk where they end is cut, or gone. */
  function Drop(chunks: seq<seq<Byte>>, n: nat): seq<seq<Byte>> {
    if chunks == [] then []
    else if n < |chunks[0]| then [chunks[0][n..]] + chunks[1..]
    else if n == |chunks[0]| then chunks[1..]
    else Drop(chunks[1..], n - |chunks[0]|)
  }

  lemma {:induction false} DropIsSuffix(chunks: seq<seq<Byte>>, n: nat)
    requires n <= |Concat(chunks)|
    ensures Concat(Drop(chunks, n)) == Concat(chunks)[n..]
    ensures |Drop(chunks, n)| <= |chunks|
  {
    if chunks != [] {
      if n < |chunks[0]| {
        assert ([chunks[0][n..]] + chunks[1..])[1..] == chunks[1..];
      } else if n > |chunks[0]| {
        DropIsSuffix(chunks[1..], n - |chunks[0]|);
      }
    }
  }

  // ----- Nodes -----

  class Node {
    var data: seq<Byte>
    var next: Node?

    constructor (data: seq<Byte>, next: Node?)
      ensures this.data == data && this.next == next
    {
      this.data, this.next := data, next;
    }
  }

  ghost function NodeAt(nodes: seq<Node>, i: nat): Node? {
    if i < |nodes| then nodes[i] else null
  }

  ghost function Last(nodes: seq<Node>): Node? {
    if nodes == [] then null else nodes[|nodes| - 1]
  }

  ghost predicate Linked(nodes: seq<Node>)
    reads nodes
  {
    && (forall i, j :: 0 <= i < j < |nodes| ==> nodes[i] != nodes[j])
    && (forall i :: 0 <= i < |nodes| ==> nodes[i].next == NodeAt(nodes, i + 1))
  }

  ghost function Chunks(nodes: seq<Node>): (c: seq<seq<Byte>>)
    reads nodes
    ensures |c| == |nodes|
    ensures forall i :: 0 <= i < |c| ==> c[i] == nodes[i].data
  {
    seq(|nodes|, i requires 0 <= i < |nodes| reads nodes => nodes[i].data)
  }

  lemma SuffixIsList(nodes: seq<Node>, i: nat)
    requires Linked(nodes) && i <= |nodes|
    ensures Linked(nodes[i..]) && NodeAt(nodes[i..], 0) == NodeAt(nodes, i)
    ensures Last(nodes[i..]) == if i == |nodes| then null else Last(nodes)
    ensures Chunks(nodes[i..]) == Chunks(nodes)[i..]
  {
    forall j | 0 <= j < |nodes[i..]|
      ensures nodes[i..][j].next == NodeAt(nodes[i..], j + 1)
    {
      assert nodes[i + j].next == NodeAt(nodes, i + j + 1);
    }
  }

  lemma Prepended(nodes: seq<Node>, entry: Node)
    requires Linked(nodes) && entry !in nodes && entry.next == NodeAt(nodes, 0)
    ensures Linked([entry] + nodes) && Chunks([entry] + nodes) == [entry.data] + Chunks(nodes)
    ensures Last([entry] + nodes) == if nodes == [] then entry else Last(nodes)
  {
    hide Linked, Chunks;
    PrependedLinks(nodes, entry);
    var more := [entry] + nodes;
    var chunks := [entry.data] + Chunks(nodes);
    forall i | 0 <= i < |more|
      ensures Chunks(more)[i] == chunks[i]
    {
      assert i > 0 ==> more[i] == nodes[i - 1];
    }
  }

  lemma PrependedLinks(nodes: seq<Node>, entry: Node)
    requires Linked(nodes) && entry !in nodes && entry.next == NodeAt(nodes, 0)
    ensures Linked([entry] + nodes)
  {
    var more := [entry] + nodes;
    forall i, j | 0 <= i < j < |more|
      ensures more[i] != more[j]
    {
      assert more[j] == nodes[j - 1] && nodes[j - 1] in nodes;
      assert i > 0 ==> more[i] == nodes[i - 1];
    }
    forall j | 0 <= j < |more|
      ensures more[j].next == NodeAt(more, j + 1)
    {
      if j > 0 {
        assert nodes[j - 1].next == NodeAt(nodes, j);
      }
    }
  }

  /** The links of a list to which an entry was hung. */
  lemma Appended(nodes: seq<Node>, entry: Node)
    requires forall i, j :: 0 <= i < j < |nodes| ==> nodes[i] != nodes[j]
    requires forall i :: 0 <= i < |nodes| ==> nodes[i].next == NodeAt(nodes + [entry], i + 1)
    requires entry !in nodes && entry.next == null
    ensures Linked(nodes + [entry]) && Chunks(nodes + [entry]) == Chunks(nodes) + [entry.data]
    ensures Last(nodes + [entry]) == entry && NodeAt(nodes + [entry], 0) == if nodes == [] then entry else nodes[0]
  {
  }

  // ----- The list -----

  class BufferList {
    var head: Node?
    var tail: Node?
    var length: nat
    ghost var nodes: seq<Node>

    ghost predicate Valid()
      reads this, nodes
    {
      IsList() && length == |nodes|
    }

    /** Valid, but for the length. */
    ghost predicate IsList()
      reads this, nodes
    {
      Linked(nodes) && head == NodeAt(nodes, 0) && tail == Last(nodes)
    }

    /** The buffers held, in order. */
    ghost function Held(): seq<seq<Byte>>
      reads this, nodes
    {
      Chunks(nodes)
    }

    constructor ()
      ensures Valid() && Held() == [] && nodes == []
    {
      head, tail, length, nodes := null, null, 0, [];
    }

    /** Hang an entry onto the last node. */
    method Link(entry: Node)
      requires Valid() && length > 0 && entry !in nodes && entry.next == null
      modifies tail`next
      ensures Linked(nodes + [entry]) && Chunks(nodes + [entry]) == old(Held()) + [entry.data]
      ensures NodeAt(nodes + [entry], 0) == head && Last(nodes + [entry]) == entry
    {
      hide Chunks;
      ghost var chunks := Held();
      forall i | 0 <= i < |nodes| ensures nodes[i].next == NodeAt(nodes, i + 1) {}
      tail.next := entry;
      assert Chunks(nodes) == chunks by { SameData(nodes, chunks); }
      Appended(nodes, entry);
    }

    lemma SameData(nodes: seq<Node>, chunks: seq<seq<Byte>>)
      requires |chunks| == |nodes| && forall i :: 0 <= i < |nodes| ==> nodes[i].data == chunks[i]
      ensures Chunks(nodes) == chunks
    {
    }

    method Push(v: seq<Byte>)
      requires Valid()
      modifies this, tail
      ensures Valid() && Held() == old(Held()) + [v]
      ensures exists entry :: fresh(entry) && nodes == old(nodes) + [entry]
    {
      hide Linked, Chunks;
      var entry := new Node(v, null);
      if length > 0 {
        Link(entry);
      } else {
        assert nodes == [];
        Appended(nodes, entry);
        head := entry;
      }
      tail := entry;
      length := length + 1;
      nodes := nodes + [entry];
    }

    method Unshift(v: seq<Byte>)
      requires Valid()
      modifies this
      ensures Valid() && Held() == [v] + old(Held())
      ensures exists entry :: fresh(entry) && nodes == [entry] + old(nodes)
    {
      hide Linked, Chunks;
      var entry := new Node(v, head);
      Prepended(nodes, entry);
      if length == 0 {
        tail := entry;
      }
      head := entry;
      length := length + 1;
      nodes := [entry] + nodes;
    }

    /** The first buffer, taken off, if there is one. */
    method Shift() returns (v: Option<seq<Byte>>)
      requires Valid()
      modifies this
      ensures Valid()
      ensures if old(Held()) == [] then v == None && nodes == old(nodes)
              else v == Some(old(Held())[0]) && Held() == old(Held())[1..] && nodes == old(nodes[1..])
    {
      if length == 0 {
        return None;
      }
      SuffixIsList(nodes, 1);
      v := Some(head.data);
      if length == 1 {
        head, tail := null, null;
      } else {
        head := head.next;
      }
      length := length - 1;
      nodes := nodes[1..];
    }

    method Clear()
      modifies this
      ensures Valid() && Held() == []
    {
      head, tail, length, nodes := null, null, 0, [];
    }

    /** Make the list start at p, or behind it if all of its bytes are taken. */
    method CutAt(p: Node, ghost i: nat, taken: nat) returns (gone: nat)
      requires Valid() && i < |nodes| && p == nodes[i] && taken <= |p.data|
      modifies this`head, this`tail, this`nodes, p`data
      ensures gone == if taken == |old(p.data)| then 1 else 0
      ensures nodes == old(nodes)[i + gone..] && IsList()
      ensures Held() == if gone == 1 then old(Held())[i + 1..] else [old(p.data)[taken..]] + old(Held())[i + 1..]
    {
      hide Linked, Chunks;
      if taken == |p.data| {
        gone := 1;
        CutBehind(p, i);
      } else {
        gone := 0;
        CutNode(p, i, taken);
      }
    }

    /** Make the list start behind p. */
    method CutBehind(p: Node, ghost i: nat)
      requires Valid() && i < |nodes| && p == nodes[i]
      modifies this`head, this`tail, this`nodes
      ensures nodes == old(nodes)[i + 1..] && IsList() && Held() == old(Held())[i + 1..]
    {
      hide Linked, Chunks;
      NextNode(nodes, i);
      SuffixIsList(nodes, i + 1);
      if p.next != null {
        head := p.next;
      } else {
        head, tail := null, null;
      }
      nodes := nodes[i + 1..];
    }

    /** Make the list start inside p. */
    method CutNode(p: Node, ghost i: nat, taken: nat)
      requires Valid() && i < |nodes| && p == nodes[i] && taken <= |p.data|
      modifies this`head, this`nodes, p`data
      ensures nodes == old(nodes)[i..] && IsList()
      ensures Held() == [old(p.data)[taken..]] + old(Held())[i + 1..]
    {
      SuffixIsList(nodes, i);
      head := p;
      p.data := p.data[taken..];
      nodes := nodes[i..];
    }

    /** The buffers behind the first one, up to the one where the bytes end; c counts those gone. */
    method Walk(buffer: array<Byte>, second: Node?, first: nat, n: nat) returns (c: nat)
      requires Valid() && 1 < |nodes| && second == nodes[1] && buffer.Length == n && 0 < first <= n
      requires Walking(Held(), buffer[..n - first], 1, first, n)
      modifies this`head, this`tail, this`nodes, nodes, buffer
      ensures c <= |old(nodes)| && nodes == old(nodes)[c..] && IsList()
      ensures buffer[..] == Concat(old(Held()))[..n] && Held() == Drop(old(Held()), n)
    {
      hide Linked, Chunks, Drop, Concat, Walking;
      ghost var chunks := Held();
      var p, left := second, first;
      c := 1;
      while p != null
        invariant Valid() && nodes == old(nodes) && Held() == chunks
        invariant 1 <= c < |nodes| && p == nodes[c] && 0 < left <= n
        invariant Walking(chunks, buffer[..n - left], c, left, n)
        decreases |nodes| - c
      {
        var nb := if left > |p.data| then |p.data| else left;
        left := TakeFrom(buffer, chunks, c, p.data, left, n);
        if left == 0 {
          var gone := CutAt(p, c, nb);
          c := c + gone;
          return;
        }
        NextNode(nodes, c);
        c := c + 1;
        p := p.next;
      }
    }

    /** Bytes from more than one buffer. */
    method GetBuffer(n: nat) returns (ret: seq<Byte>)
      requires Valid() && length > 0 && |head.data| < n <= |Concat(Held())|
      modifies this, nodes
      ensures Valid() && |nodes| <= |old(nodes)| && nodes == old(nodes)[|old(nodes)| - |nodes|..]
      ensures ret == Concat(old(Held()))[..n] && Held() == Drop(old(Held()), n)
    {
      hide Linked, Chunks, Drop, Concat, Walking;
      ghost var chunks := Held();
      assert head == nodes[0] && head.data == chunks[0];
      NextNode(nodes, 0);
      WalkStart(chunks, n);
      var buffer := new Byte[n];
      assert buffer[..0] == [];
      var left := TakeFrom(buffer, chunks, 0, head.data, n, n);
      assert Held() == chunks && head.next == nodes[1];
      var c := Walk(buffer, head.next, left, n);
      length := length - c;
      ret := buffer[..];
    }

    /** The first n bytes of all buffers in one, n in 32 bits; None where the source throws for a
        size no buffer has. Beyond the bytes there are, the new buffer holds anything. */
    method ConcatAll(n: nat) returns (ret: Option<seq<Byte>>)
      requires Valid()
      ensures var size := n % 0x1_0000_0000;
              var k := Least(size, |Concat(Held())|);
              if Held() == [] then ret == Some([])
              else if size > MAX_LENGTH then ret == None
              else ret.Some? && |ret.value| == size && ret.value[..k] == Concat(Held())[..k]
    {
      hide Linked, Chunks, Concat;
      Nothing();
      if length == 0 {
        return Some([]);
      }
      var size := n % 0x1_0000_0000;
      if size > MAX_LENGTH {
        return None;
      }
      var buffer := new Byte[size];
      var p, i := head, 0;
      ghost var c := 0;
      assert Held()[..0] == [];
      while p != null
        invariant c <= |nodes| && p == NodeAt(nodes, c) && i == |Concat(Held()[..c])|
        invariant buffer[..Least(i, size)] == Concat(Held()[..c])[..Least(i, size)]
        decreases |nodes| - c
      {
        NextNode(nodes, c);
        UpTo(Held(), c);
        CopyClipped(buffer, Concat(Held()[..c]), i, p.data);
        i := i + |p.data|;
        p, c := p.next, c + 1;
      }
      assert Held()[..c] == Held();
      ret := Some(buffer[..]);
    }

    /** The first n bytes, taken out of the list. */
    method Consume(n: nat) returns (ret: seq<Byte>)
      requires Valid() && length > 0 && n <= |Concat(Held())|
      modifies this, nodes
      ensures Valid() && |nodes| <= |old(nodes)| && nodes == old(nodes)[|old(nodes)| - |nodes|..]
      ensures ret == Concat(old(Held()))[..n] && Concat(Held()) == Concat(old(Held()))[n..]
      ensures Held() == Drop(old(Held()), n)
    {
      hide Linked, Chunks, Drop, Concat;
      DropIsSuffix(Held(), n);
      OneBuffer(Held(), n);
      if n < |head.data| {
        ret := head.data[..n];
        CutNode(head, 0, n);
      } else if n == |head.data| {
        var first := Shift();
        ret := first.value;
      } else {
        ret := GetBuffer(n);
      }
    }
  }

  function Least(a: nat, b: nat): (k: nat)
    ensures k <= a && k <= b && (k == a || k == b)
  {
    if a < b then a else b
  }

  /** `Buffer.prototype.copy`, which stops at the end of the target. */
  method CopyClipped(into: array<Byte>, ghost done: seq<Byte>, at: nat, bytes: seq<Byte>)
    requires at == |done| && into[..Least(at, into.Length)] == done[..Least(at, into.Length)]
    modifies into
    ensures var end := Least(at + |bytes|, into.Length); into[..end] == (done + bytes)[..end]
  {
    var start := Least(at, into.Length);
    var k := Least(|bytes|, into.Length - start);
    ghost var front := into[..start];
    WriteBytes(into, start, bytes[..k]);
    assert into[..start + k] == front + bytes[..k];
    assert (done + bytes)[..start + k] == done[..start] + bytes[..k];
  }

  lemma Nothing()
    ensures Concat([]) == []
  {
  }

  lemma UpTo(chunks: seq<seq<Byte>>, c: nat)
    requires c < |chunks|
    ensures Concat(chunks[..c + 1]) == Concat(chunks[..c]) + chunks[c] && |Concat(chunks[..c + 1])| <= |Concat(chunks)|
  {
    hide Concat;
    assert chunks[..c + 1] == chunks[..c] + [chunks[c]];
    ConcatSnoc(chunks[..c], chunks[c]);
    assert chunks == chunks[..c + 1] + chunks[c + 1..];
    ConcatSplit(chunks[..c + 1], chunks[c + 1..]);
  }

  /** What is taken lies in the first buffer. */
  lemma OneBuffer(chunks: seq<seq<Byte>>, n: nat)
    requires chunks != []
    ensures n <= |chunks[0]| ==> n <= |Concat(chunks)| && Concat(chunks)[..n] == chunks[0][..n]
    ensures n <= |chunks[0]| ==> Drop(chunks, n) == if n < |chunks[0]| then [chunks[0][n..]] + chunks[1..]
        else chunks[1..]
  {
  }

  /** Copy what is wanted of one buffer. */
  method TakeFrom(buffer: array<Byte>, ghost chunks: seq<seq<Byte>>, ghost c: nat, buf: seq<Byte>, left: nat, n: nat)
    returns (left': nat)
    requires buffer.Length == n && left <= n && c < |chunks| && buf == chunks[c]
    requires Walking(chunks, buffer[..n - left], c, left, n)
    modifies buffer
    ensures left' == if left <= |buf| then 0 else left - |buf|
    ensures left' > 0 ==> Walking(chunks, buffer[..n - left'], c + 1, left', n) && c + 1 < |chunks|
    ensures left' == 0 ==>
      && buffer[..] == Concat(chunks)[..n]
      && Drop(chunks, n) == if left == |buf| then chunks[c + 1..] else [buf[left..]] + chunks[c + 1..]
  {
    hide Drop, Concat, Walking;
    var nb := if left > |buf| then |buf| else left;
    ghost var done := buffer[..n - left];
    WriteBytes(buffer, n - left, buf[..nb]);
    left' := left - nb;
    assert buffer[..n - left'] == done + buf[..nb];
    if left <= |buf| {
      WalkEnd(chunks, done, c, left, n);
      assert buffer[..] == buffer[..n];
    } else {
      WalkOn(chunks, done, c, left, n);
      assert buf[..nb] == buf;
    }
  }

  // ----- The walk over the buffers -----

  /** The first n bytes are those done and the first left bytes from buffer c on. */
  ghost predicate Walking(chunks: seq<seq<Byte>>, done: seq<Byte>, c: nat, left: nat, n: nat) {
    && c <= |chunks| && 0 < left <= |Concat(chunks[c..])| && n <= |Concat(chunks)|
    && done + Concat(chunks[c..])[..left] == Concat(chunks)[..n]
    && Drop(chunks[c..], left) == Drop(chunks, n)
  }

  lemma WalkStart(chunks: seq<seq<Byte>>, n: nat)
    requires 0 < n <= |Concat(chunks)|
    ensures Walking(chunks, [], 0, n, n)
  {
    assert chunks[0..] == chunks;
  }

  lemma WalkOn(chunks: seq<seq<Byte>>, done: seq<Byte>, c: nat, left: nat, n: nat)
    requires Walking(chunks, done, c, left, n) && c < |chunks| && |chunks[c]| < left
    ensures Walking(chunks, done + chunks[c], c + 1, left - |chunks[c]|, n) && c + 1 < |chunks|
  {
    var rest := Concat(chunks[c + 1..]);
    assert chunks[c..][1..] == chunks[c + 1..];
    assert Concat(chunks[c..])[..left] == chunks[c] + rest[..left - |chunks[c]|];
    Regroup(done, chunks[c], rest[..left - |chunks[c]|]);
  }

  lemma WalkEnd(chunks: seq<seq<Byte>>, done: seq<Byte>, c: nat, left: nat, n: nat)
    requires Walking(chunks, done, c, left, n) && c < |chunks| && left <= |chunks[c]|
    ensures done + chunks[c][..left] == Concat(chunks)[..n]
    ensures Drop(chunks, n) == if left == |chunks[c]| then chunks[c + 1..] else [chunks[c][left..]] + chunks[c + 1..]
  {
    assert chunks[c..][1..] == chunks[c + 1..];
    assert Concat(chunks[c..])[..left] == chunks[c][..left];
  }

  lemma NextNode(nodes: seq<Node>, i: nat)
    requires Linked(nodes) && i < |nodes|
    ensures nodes[i].next == NodeAt(nodes, i + 1) && (NodeAt(nodes, i + 1) == null <==> i + 1 == |nodes|)
  {
  }
}
