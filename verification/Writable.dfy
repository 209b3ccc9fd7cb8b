/** The Writable stream with its fields and its linked list of buffered requests. Every operation
    computes the function of the same name in WritableSpec. */
module Writable {
  import opened Bytes
  import opened WritableSpec

  class BufferedRequest {
    const request: Request
    var next: BufferedRequest?

    constructor (request: Request)
      ensures this.request == request && next == null
    {
      this.request := request;
      next := null;
    }
  }

  /** nodes is a linked list. */
  ghost predicate Linked(nodes: seq<BufferedRequest>)
    reads nodes
  {
    && (forall i, j :: 0 <= i < j < |nodes| ==> nodes[i] != nodes[j])
    && (forall i :: 0 <= i < |nodes| ==> nodes[i].next == NodeAt(nodes, i + 1))
  }

  ghost function NodeAt(nodes: seq<BufferedRequest>, i: nat): BufferedRequest? {
    if i < |nodes| then nodes[i] else null
  }

  ghost function Last(nodes: seq<BufferedRequest>): BufferedRequest? {
    if nodes == [] then null else nodes[|nodes| - 1]
  }

  ghost function Requests(nodes: seq<BufferedRequest>): (b: seq<Request>)
    ensures |b| == |nodes|
    ensures forall i :: 0 <= i < |b| ==> b[i] == nodes[i].request
  {
    seq(|nodes|, i requires 0 <= i < |nodes| => nodes[i].request)
  }

  lemma Suffix(nodes: seq<BufferedRequest>, i: nat)
    requires Linked(nodes) && i < |nodes|
    ensures NodeAt(nodes, i) == nodes[i] && nodes[i].next == NodeAt(nodes, i + 1)
    ensures Requests(nodes[i..]) == [nodes[i].request] + Requests(nodes[i + 1..])
  {
  }

  lemma SuffixIsList(nodes: seq<BufferedRequest>, i: nat)
    requires Linked(nodes) && i <= |nodes|
    ensures Linked(nodes[i..]) && NodeAt(nodes[i..], 0) == NodeAt(nodes, i)
    ensures Last(nodes[i..]) == if i == |nodes| then null else Last(nodes)
  {
    hide Requests;
    forall j | 0 <= j < |nodes[i..]|
      ensures nodes[i..][j].next == NodeAt(nodes[i..], j + 1)
    {
      assert nodes[i + j].next == NodeAt(nodes, i + j + 1);
    }
  }

  lemma Ends(nodes: seq<BufferedRequest>)
    ensures nodes[0..] == nodes && nodes[|nodes|..] == []
    ensures forall i: nat | i <= |nodes| :: NodeAt(nodes, i) == null <==> i == |nodes|
    ensures Last(nodes) == null <==> nodes == []
    ensures NodeAt([], 0) == null && Last([]) == null && Requests([]) == []
  {
  }

  lemma NoNodes()
    ensures Linked([])
  {
  }

  lemma Appended(nodes: seq<BufferedRequest>, entry: BufferedRequest)
    ensures NodeAt(nodes + [entry], 0) == (if nodes == [] then entry else NodeAt(nodes, 0)) && Last(nodes + [entry])
        == entry
    ensures Requests(nodes + [entry]) == Requests(nodes) + [entry.request]
  {
  }

  /** Hang an entry onto the last node of a list. */
  method Link(ghost nodes: seq<BufferedRequest>, last: BufferedRequest?, entry: BufferedRequest)
    requires Linked(nodes) && last == Last(nodes) && entry !in nodes && entry.next == null
    modifies nodes
    ensures Linked(nodes + [entry])
  {
    if last != null {
      last.next := entry;
    }
    forall i | 0 <= i < |nodes|
      ensures nodes[i].next == NodeAt(nodes + [entry], i + 1)
    {
      assert old(nodes[i].next) == NodeAt(nodes, i + 1);
    }
  }

  lemma MoreThanOne(nodes: seq<BufferedRequest>)
    requires Linked(nodes)
    ensures NodeAt(nodes, 0) != null && NodeAt(nodes, 0).next != null <==> |nodes| >= 2
    ensures |Requests(nodes)| == |nodes|
  {
    if nodes != [] {
      assert nodes[0].next == NodeAt(nodes, 1);
    }
  }

  class Stream {
    const c: Config

    var length: int
    var writelen: int
    var writing: bool
    var corked: nat
    var bufferProcessing: bool
    var needDrain: bool
    var pendingcb: int
    var bufferedRequestCount: int
    var bufferedRequest: BufferedRequest?
    var lastBufferedRequest: BufferedRequest?

    // The surroundings: the sink, the event loop and the writers.
    var inFlight: seq<Task>
    var delivered: seq<Request>
    var ticks: seq<Task>
    var called: seq<Request>
    var drains: nat
    var sinkCalls: nat

    /** The linked list from `bufferedRequest` to `lastBufferedRequest`. */
    ghost var nodes: seq<BufferedRequest>

    ghost predicate Valid()
      reads this, nodes
    {
      Linked(nodes) && bufferedRequest == NodeAt(nodes, 0) && lastBufferedRequest == Last(nodes)
    }

    ghost function Abs(): State
      reads this
    {
      State(Requests(nodes), bufferedRequestCount, length, writelen, writing, corked, bufferProcessing, needDrain,
            pendingcb, inFlight, delivered, ticks, called, drains, sinkCalls)
    }

    constructor (c: Config)
      ensures Valid() && this.c == c && Abs() == INITIAL
    {
      this.c := c;
      length, writelen, writing, corked, bufferProcessing, needDrain := 0, 0, false, 0, false, false;
      pendingcb, bufferedRequestCount, bufferedRequest, lastBufferedRequest := 0, 0, null, null;
      inFlight, delivered, ticks, called, drains, sinkCalls := [], [], [], [], 0, 0;
      nodes := [];
    }

    method GetBuffer() returns (out: seq<Request>)
      requires Valid()
      ensures out == Requests(nodes)
    {
      out := [];
      var current := bufferedRequest;
      ghost var i := 0;
      while current != null
        invariant i <= |nodes| && current == NodeAt(nodes, i)
        invariant out == Requests(nodes)[..i]
        decreases |nodes| - i
      {
        out := out + [current.request];
        current := current.next;
        i := i + 1;
      }
    }

    method DoWrite(task: Task, len: int)
      requires Valid()
      modifies this
      ensures Valid() && Abs() == WritableSpec.DoWrite(c, old(Abs()), task, len)
      ensures old(bufferProcessing) ==> bufferProcessing && nodes == old(nodes)
      decreases if bufferProcessing then 0 else 1, 2
    {
      hide Linked, Requests, NodeAt, Last, RequestsOf, WritableSpec.OnWrite;
      writelen := len;
      writing := true;
      inFlight := inFlight + [task];
      var sync := c.answersAtOnce(sinkCalls);
      sinkCalls := sinkCalls + 1;
      if sync {
        OnWrite(task, true);
      }
    }

    method OnWriteStateUpdate(task: Task)
      modifies this`writing, this`length, this`writelen, this`inFlight, this`delivered
      ensures Abs() == WritableSpec.OnWriteStateUpdate(old(Abs()), task)
    {
      hide RequestsOf, Requests;
      writing := false;
      length := length - writelen;
      writelen := 0;
      inFlight := if inFlight == [] then [] else inFlight[..|inFlight| - 1];
      delivered := delivered + RequestsOf(task);
    }

    method OnWrite(task: Task, sync: bool)
      requires Valid()
      modifies this
      ensures Valid() && Abs() == WritableSpec.OnWrite(c, old(Abs()), task, sync)
      ensures old(bufferProcessing) ==> bufferProcessing && nodes == old(nodes)
      decreases if bufferProcessing then 0 else 1, 1
    {
      hide Linked, Requests, NodeAt, Last, WritableSpec.ClearBuffer, WritableSpec.AfterWrite,
          WritableSpec.OnWriteStateUpdate;
      Ends(nodes);
      OnWriteStateUpdate(task);
      if corked == 0 && !bufferProcessing && bufferedRequest != null {
        ClearBuffer();
      }
      if sync {
        ticks := ticks + [task];
      } else {
        AfterWrite(task);
      }
    }

    method AfterWrite(task: Task)
      modifies this`needDrain, this`drains, this`pendingcb, this`called
      ensures Abs() == WritableSpec.AfterWrite(old(Abs()), task)
    {
      if length == 0 && needDrain {
        needDrain := false;
        drains := drains + 1;
      }
      pendingcb := pendingcb - 1;
      match task
      case Single(r) =>
        called := called + [r];
      case Batch(rs) =>
        for i := 0 to |rs|
          invariant pendingcb == old(pendingcb) - 1 - i
          invariant called == old(called) + rs[..i]
          invariant needDrain == (old(needDrain) && length != 0)
          invariant drains == if length == 0 && old(needDrain) then old(drains) + 1 else old(drains)
        {
          pendingcb := pendingcb - 1;
          called := called + [rs[i]];
        }
    }

    method ClearBuffer()
      requires Valid() && !bufferProcessing
      modifies this
      ensures Valid() && Abs() == WritableSpec.ClearBuffer(c, old(Abs()))
      decreases 1, 0
    {
      hide Linked, Requests, NodeAt, Last, WritableSpec.WriteBatch, WritableSpec.WriteOneByOne;
      MoreThanOne(nodes);
      bufferProcessing := true;
      var entry := bufferedRequest;
      if c.hasWritev && entry != null && entry.next != null {
        WriteBatch();
      } else {
        WriteOneByOne();
      }
      bufferProcessing := false;
    }

    method WriteBatch()
      requires Valid() && bufferProcessing
      modifies this
      ensures Valid() && bufferProcessing && Abs() == WritableSpec.WriteBatch(c, old(Abs()))
      decreases 0, 3
    {
      hide Linked, Requests, NodeAt, Last, WritableSpec.DoWrite;
      var batch := GetBuffer();
      DoWrite(Batch(batch), length);
      pendingcb := pendingcb + 1;
      lastBufferedRequest := null;
      bufferedRequestCount := 0;
      bufferedRequest := null;
      nodes := [];
      Ends([]);
      NoNodes();
    }

    method WriteEntry(r: Request)
      requires Valid() && bufferProcessing
      modifies this
      ensures Valid() && bufferProcessing && nodes == old(nodes) && Abs() == WritableSpec.WriteEntry(c, old(Abs()), r)
      decreases 0, 3
    {
      hide Linked, Requests, NodeAt, Last, WritableSpec.DoWrite;
      DoWrite(Single(r), Len(c, r));
      bufferedRequestCount := bufferedRequestCount - 1;
    }

    /** The list now starts at node i. */
    method MoveHead(entry: BufferedRequest?, ghost i: nat)
      requires Valid() && i <= |nodes| && entry == NodeAt(nodes, i)
      modifies this`lastBufferedRequest, this`bufferedRequest, this`nodes
      ensures Valid() && nodes == old(nodes)[i..] && Abs() == old(Abs()).(buffer := Requests(nodes))
    {
      hide Linked, NodeAt, Last, Requests;
      Ends(nodes);
      SuffixIsList(nodes, i);
      if entry == null {
        lastBufferedRequest := null;
      }
      bufferedRequest := entry;
      nodes := nodes[i..];
    }

    /** The loop of `clearBuffer` over single chunks, up to moving the head of the list. */
    method WriteOneByOne()
      requires Valid() && bufferProcessing
      modifies this
      ensures Valid() && bufferProcessing
      ensures (Abs().(buffer := old(Requests(nodes))), Requests(nodes))
          == WritableSpec.WriteOneByOne(c, old(Abs()), old(Requests(nodes)))
      decreases 0, 4
    {
      hide Linked, Requests, NodeAt, Last, WritableSpec.WriteEntry;
      var entry := bufferedRequest;
      ghost var goal := WritableSpec.WriteOneByOne(c, Abs(), Requests(nodes));
      ghost var all, i := nodes, 0;
      Ends(all);
      while entry != null
        invariant Valid() && nodes == all && bufferProcessing
        invariant i <= |all| && entry == NodeAt(all, i)
        invariant goal == WritableSpec.WriteOneByOne(c, Abs(), Requests(all[i..]))
        decreases |all| - i
      {
        Ends(all);
        Suffix(all, i);
        WriteEntry(entry.request);
        entry := entry.next;
        i := i + 1;
        if writing {
          break;
        }
      }
      MoveHead(entry, i);
    }
  
    /** `writeOrBuffer`, after `write` has counted the callback. */
    method Write(r: Request) returns (ret: bool)
      requires Valid()
      modifies this, nodes
      ensures Valid() && (Abs(), ret) == WritableSpec.Write(c, old(Abs()), r)
    {
      hide Linked, Requests, NodeAt, Last, WritableSpec.DoWrite, WritableSpec.Len;
      pendingcb := pendingcb + 1;
      var len := Len(c, r);
      length := length + len;
      ret := length < c.highWaterMark;
      if !ret {
        needDrain := true;
      }
      if writing || corked > 0 {
        Enqueue(r);
      } else {
        DoWrite(Single(r), len);
      }
    }

    method Enqueue(r: Request)
      requires Valid()
      modifies this`lastBufferedRequest, this`bufferedRequest, this`nodes, this`bufferedRequestCount, nodes
      ensures Valid()
      ensures Abs() == old(Abs()).(buffer := old(Requests(nodes)) + [r],
          bufferedRequestCount := old(bufferedRequestCount) + 1)
    {
      hide Linked, NodeAt, Last, Requests;
      Ends(nodes);
      var last := lastBufferedRequest;
      var entry := new BufferedRequest(r);
      Appended(nodes, entry);
      Link(nodes, last, entry);
      lastBufferedRequest := entry;
      if last == null {
        bufferedRequest := entry;
      }
      bufferedRequestCount := bufferedRequestCount + 1;
      nodes := nodes + [entry];
    }

    method Cork()
      requires Valid()
      modifies this`corked
      ensures Valid() && Abs() == WritableSpec.Cork(old(Abs()))
    {
      corked := corked + 1;
    }

    method Uncork()
      requires Valid()
      modifies this
      ensures Valid() && Abs() == WritableSpec.Uncork(c, old(Abs()))
    {
      hide Linked, Requests, NodeAt, Last, WritableSpec.ClearBuffer;
      Ends(nodes);
      if corked > 0 {
        corked := corked - 1;
        if !writing && corked == 0 && !bufferProcessing && bufferedRequest != null {
          ClearBuffer();
        }
      }
    }

    /** The sink calls back for the write in flight; without one the call is refused. */
    method Complete() returns (accepted: bool)
      requires Valid()
      modifies this
      ensures Valid() && Abs() == WritableSpec.Complete(c, old(Abs()))
      ensures accepted == (old(inFlight) != [])
    {
      hide Linked, Requests, NodeAt, Last, WritableSpec.OnWrite;
      accepted := inFlight != [];
      if accepted {
        OnWrite(inFlight[|inFlight| - 1], false);
      }
    }

    method Tick()
      requires Valid()
      modifies this`ticks, this`needDrain, this`drains, this`pendingcb, this`called
      ensures Valid() && Abs() == WritableSpec.Tick(old(Abs()))
    {
      hide Linked, Requests, NodeAt, Last, WritableSpec.AfterWrite;
      if ticks != [] {
        var task := ticks[0];
        ticks := ticks[1..];
        AfterWrite(task);
      }
    }
  }
}
