/** When the callbacks of a Writable stream's writers follow the order of delivery. */
module WritableOrder {
  import opened Sequences
  import opened WritableSpec

  /** Callbacks made and callbacks deferred, one after the other, are those of the delivered
      requests. */
  predicate InOrder(s: State) {
    s.called + Flatten(s.ticks) == s.delivered
  }

  ghost predicate Distinct(rs: seq<Request>) {
    forall i, j :: 0 <= i < j < |rs| ==> rs[i] != rs[j]
  }

  ghost predicate NoneEmpty(tasks: seq<Task>) {
    forall t :: t in tasks ==> RequestsOf(t) != []
  }

  // ----- What happens inside an operation is deferred -----

  /** From s to r, completions were put off in the order of delivery, and no writer was called. */
  ghost predicate OnlyDefers(s: State, r: State) {
    && r.called == s.called && s.ticks <= r.ticks
    && r.delivered == s.delivered + Flatten(r.ticks[|s.ticks|..])
    && (NoneEmpty(s.ticks) && NoneEmpty(s.inFlight) ==> NoneEmpty(r.ticks) && NoneEmpty(r.inFlight))
  }

  lemma NothingDeferred(s: State, r: State)
    requires r.called == s.called && r.ticks == s.ticks && r.delivered == s.delivered
    requires NoneEmpty(s.inFlight) ==> NoneEmpty(r.inFlight)
    ensures OnlyDefers(s, r)
  {
    assert r.ticks[|s.ticks|..] == [];
    assert r.delivered + [] == r.delivered;
  }

  lemma DefersTwice(s: State, t: State, r: State)
    requires OnlyDefers(s, t) && OnlyDefers(t, r)
    ensures OnlyDefers(s, r)
  {
    hide Flatten, NoneEmpty;
    var a, b := t.ticks[|s.ticks|..], r.ticks[|t.ticks|..];
    assert r.ticks[|s.ticks|..] == a + b;
    FlattenConcat(a, b);
    Regroup(s.delivered, Flatten(a), Flatten(b));
  }

  lemma DoWriteDefers(c: Config, s: State, task: Task, len: int)
    requires NothingToClear(s) && RequestsOf(task) != []
    ensures OnlyDefers(s, DoWrite(c, s, task, len))
    ensures var r := DoWrite(c, s, task, len);
            r.corked == s.corked && r.bufferProcessing == s.bufferProcessing && r.buffer == s.buffer
  {
    hide Flatten, ClearBuffer, RequestsOf;
    var given := s.(writelen := len, writing := true, inFlight := s.inFlight + [task], sinkCalls := s.sinkCalls + 1);
    var r := DoWrite(c, s, task, len);
    assert NoneEmpty(s.inFlight) ==> NoneEmpty(given.inFlight);
    if c.answersAtOnce(s.sinkCalls) {
      assert given.inFlight[..|given.inFlight| - 1] == s.inFlight;
      var u := OnWriteStateUpdate(given, task);
      assert OnWrite(c, given, task, true) == u.(ticks := u.ticks + [task]);
      assert r == OnWrite(c, given, task, true);
      assert r.ticks == s.ticks + [task] && r.ticks[|s.ticks|..] == [task];
      FlattenOne(task);
    } else {
      NothingDeferred(s, r);
    }
  }

  lemma {:induction false} WriteOneByOneDefers(c: Config, s: State, entries: seq<Request>)
    requires s.bufferProcessing
    ensures OnlyDefers(s, WriteOneByOne(c, s, entries).0)
    decreases |entries|
  {
    hide OnlyDefers, DoWrite;
    if entries == [] {
      NothingDeferred(s, s);
    } else {
      var written := DoWrite(c, s, Single(entries[0]), Len(c, entries[0]));
      var w := WriteEntry(c, s, entries[0]);
      DoWriteDefers(c, s, Single(entries[0]), Len(c, entries[0]));
      NothingDeferred(written, w);
      DefersTwice(s, written, w);
      if !w.writing {
        WriteOneByOneDefers(c, w, entries[1..]);
        DefersTwice(s, w, WriteOneByOne(c, w, entries[1..]).0);
      }
    }
  }

  lemma ClearBufferDefers(c: Config, s: State)
    requires !s.bufferProcessing
    ensures OnlyDefers(s, ClearBuffer(c, s))
  {
    hide OnlyDefers, DoWrite;
    var busy, r := s.(bufferProcessing := true), ClearBuffer(c, s);
    NothingDeferred(s, busy);
    if c.hasWritev && |s.buffer| >= 2 {
      var w := DoWrite(c, busy, Batch(s.buffer), s.length);
      assert WriteBatch(c, busy) == w.(pendingcb := w.pendingcb + 1, bufferedRequestCount := 0, buffer := []);
      DoWriteDefers(c, busy, Batch(s.buffer), s.length);
      NothingDeferred(w, r);
      DefersTwice(busy, w, r);
    } else {
      var w := WriteOneByOne(c, busy, s.buffer).0;
      WriteOneByOneDefers(c, busy, s.buffer);
      NothingDeferred(w, r);
      DefersTwice(busy, w, r);
    }
    DefersTwice(s, busy, r);
  }

  lemma WriteDefers(c: Config, s: State, r: Request)
    requires Settled(s)
    ensures OnlyDefers(s, Write(c, s, r).0)
  {
    hide OnlyDefers, DoWrite;
    var len := Len(c, r);
    var counted := s.(pendingcb := s.pendingcb + 1, length := s.length + len,
                      needDrain := s.needDrain || !(s.length + len < c.highWaterMark));
    NothingDeferred(s, counted);
    if s.writing || s.corked > 0 {
      NothingDeferred(s, Write(c, s, r).0);
    } else {
      DoWriteDefers(c, counted, Single(r), len);
      DefersTwice(s, counted, DoWrite(c, counted, Single(r), len));
    }
  }

  lemma UncorkDefers(c: Config, s: State)
    ensures OnlyDefers(s, Uncork(c, s))
  {
    hide OnlyDefers, ClearBuffer;
    if s.corked == 0 {
      NothingDeferred(s, s);
    } else {
      var u := s.(corked := s.corked - 1);
      NothingDeferred(s, u);
      if !u.writing && u.corked == 0 && !u.bufferProcessing && u.buffer != [] {
        ClearBufferDefers(c, u);
        DefersTwice(s, u, ClearBuffer(c, u));
      }
    }
  }

  // ----- Order, step by step -----

  lemma DeferringKeepsOrder(s: State, r: State)
    requires OnlyDefers(s, r)
    ensures InOrder(r) <==> InOrder(s)
  {
    hide Flatten, NoneEmpty;
    var more := r.ticks[|s.ticks|..];
    assert r.ticks == s.ticks + more;
    FlattenConcat(s.ticks, more);
    Regroup(s.called, Flatten(s.ticks), Flatten(more));
    SameEnd(s.called + Flatten(s.ticks), s.delivered, Flatten(more));
  }

  lemma SameEnd<T>(a: seq<T>, b: seq<T>, end: seq<T>)
    ensures a + end == b + end <==> a == b
  {
    if a + end == b + end {
      assert a == (a + end)[..|a|] && b == (b + end)[..|b|];
    }
  }

  lemma TickKeepsOrder(s: State)
    ensures InOrder(Tick(s)) <==> InOrder(s)
    ensures NoneEmpty(s.ticks) ==> NoneEmpty(Tick(s).ticks)
  {
    hide Flatten;
    if s.ticks != [] {
      FlattenHead(s.ticks);
      Regroup(s.called, RequestsOf(s.ticks[0]), Flatten(s.ticks[1..]));
    }
  }

  lemma LastIsNew(d: seq<Request>, r: seq<Request>)
    requires r != [] && Distinct(d + r)
    ensures r[|r| - 1] !in d
  {
    var all := d + r;
    assert all[|all| - 1] == r[|r| - 1];
    forall i | 0 <= i < |d|
      ensures d[i] != r[|r| - 1]
    {
      assert all[i] == d[i];
    }
  }

  lemma LastIsOld(called: seq<Request>, t: seq<Request>, d: seq<Request>)
    requires multiset(called) + multiset(t) == multiset(d)
    ensures t != [] ==> t[|t| - 1] in d
  {
    if t != [] {
      assert t[|t| - 1] in multiset(d);
    }
  }

  lemma SameLast(a: seq<Request>, t: seq<Request>, d: seq<Request>, r: seq<Request>)
    requires t != [] && r != []
    ensures a + t == d + r ==> t[|t| - 1] == r[|r| - 1]
  {
    assert (a + t)[|a + t| - 1] == t[|t| - 1];
    assert (d + r)[|d + r| - 1] == r[|r| - 1];
  }

  /** Calling back r, delivered last, before the deferred t keeps the order only if there is no t. */
  lemma Overtaking(called: seq<Request>, t: seq<Request>, d: seq<Request>, r: seq<Request>)
    requires r != [] && Distinct(d + r) && multiset(called) + multiset(t) == multiset(d)
    ensures called + r + t == d + r <==> t == [] && called == d
  {
    if t == [] {
      assert called + r + t == called + r;
      SameEnd(called, d, r);
    } else {
      LastIsNew(d, r);
      LastIsOld(called, t, d);
      SameLast(called + r, t, d, r);
    }
  }

  lemma OnlyNothingIsFlat(tasks: seq<Task>)
    requires NoneEmpty(tasks)
    ensures Flatten(tasks) == [] <==> tasks == []
  {
    if tasks != [] {
      assert tasks[|tasks| - 1] in tasks;
    }
  }

  lemma CompleteKeepsOrder(c: Config, s: State, ordered: bool, written: seq<Request>)
    requires Inv(c, s, ordered, written) && Distinct(written) && NoneEmpty(s.ticks) && NoneEmpty(s.inFlight)
    ensures InOrder(Complete(c, s)) <==> InOrder(s) && (s.inFlight == [] || s.ticks == [])
    ensures NoneEmpty(Complete(c, s).ticks) && NoneEmpty(Complete(c, s).inFlight)
  {
    if s.inFlight != [] {
      hide Flatten, Inv, NoneEmpty, ClearBuffer, OnlyDefers;
      var task := s.inFlight[|s.inFlight| - 1];
      var r := RequestsOf(task);
      var u := OnWriteStateUpdate(s, task);
      var v := if u.corked == 0 && !u.bufferProcessing && u.buffer != [] then ClearBuffer(c, u) else u;
      DeliveredIsDistinct(c, s, ordered, written);
      if u.corked == 0 && !u.bufferProcessing && u.buffer != [] {
        ClearBufferDefers(c, u);
      } else {
        NothingDeferred(u, u);
      }
      CalledBack(s, u, v, r);
      assert Complete(c, s).called == v.called + r && Complete(c, s).ticks == v.ticks;
      assert Complete(c, s).inFlight == v.inFlight && Complete(c, s).delivered == v.delivered;
      OnlyNothingIsFlat(s.ticks);
      Overtaking(s.called, Flatten(s.ticks), s.delivered, r);
    }
  }

  /** The requests in flight are new, and those delivered are called or deferred. */
  lemma DeliveredIsDistinct(c: Config, s: State, ordered: bool, written: seq<Request>)
    requires Inv(c, s, ordered, written) && Distinct(written) && s.inFlight != [] && NoneEmpty(s.inFlight)
    ensures var task := s.inFlight[|s.inFlight| - 1];
            && RequestsOf(task) != [] && Distinct(s.delivered + RequestsOf(task))
            && NoneEmpty(OnWriteStateUpdate(s, task).inFlight) && !s.bufferProcessing
    ensures multiset(s.called) + multiset(Flatten(s.ticks)) == multiset(s.delivered)
  {
    hide TotalLen, TotalCost, Cost, RequestsOf;
    Nothing(c);
    var task := s.inFlight[0];
    assert s.inFlight == [task] && task in s.inFlight;
    FlattenOne(task);
    var front := s.delivered + RequestsOf(task);
    forall i, j | 0 <= i < j < |front|
      ensures front[i] != front[j]
    {
      assert written[i] == front[i] && written[j] == front[j];
    }
  }

  /** A completion moves r to the delivered requests, lets the buffer go on, and calls r back. */
  lemma CalledBack(s: State, u: State, v: State, r: seq<Request>)
    requires u.called == s.called && u.ticks == s.ticks && u.delivered == s.delivered + r && OnlyDefers(u, v)
    requires NoneEmpty(u.ticks) && NoneEmpty(u.inFlight)
    ensures v.called + r + Flatten(v.ticks) == v.delivered <==> s.called + r + Flatten(s.ticks) == s.delivered + r
    ensures NoneEmpty(v.ticks) && NoneEmpty(v.inFlight)
  {
    hide Flatten, NoneEmpty;
    var more := v.ticks[|s.ticks|..];
    assert v.ticks == s.ticks + more;
    FlattenConcat(s.ticks, more);
    Regroup(s.called + r, Flatten(s.ticks), Flatten(more));
    SameEnd(s.called + r + Flatten(s.ticks), s.delivered + r, Flatten(more));
  }

  // ----- Whole runs -----

  lemma DistinctBefore(written: seq<Request>, r: seq<Request>)
    requires Distinct(written + r)
    ensures Distinct(written)
  {
    forall i, j | 0 <= i < j < |written|
      ensures written[i] != written[j]
    {
      assert (written + r)[i] == written[i] && (written + r)[j] == written[j];
    }
  }

  /** For different requests: callbacks follow the order of delivery exactly if the sink never
      called back for a write while a deferred completion waited for its tick. */
  lemma {:induction false} CallbacksInOrder(c: Config, events: seq<Event>)
    requires Distinct(Written(events))
    ensures InOrder(Run(c, events)) <==> TicksComeFirst(c, events)
    ensures NoneEmpty(Run(c, events).ticks) && NoneEmpty(Run(c, events).inFlight)
  {
    hide InOrder, Inv, Write, Uncork, Complete, Tick, Distinct, NoneEmpty, OnlyDefers, Settled;
    if events == [] {
      NothingYet();
    } else {
      var before, e := events[..|events| - 1], events[|events| - 1];
      var s := Run(c, before);
      DistinctBefore(Written(before), if e.DoesWrite? then [e.request] else []);
      CallbacksInOrder(c, before);
      EveryRunKeepsInv(c, before);
      EventKeepsOrder(c, s, e, TicksComeFirst(c, before), Written(before));
    }
  }

  lemma NothingYet()
    ensures InOrder(INITIAL) && NoneEmpty(INITIAL.ticks) && NoneEmpty(INITIAL.inFlight)
  {
  }

  lemma EventKeepsOrder(c: Config, s: State, e: Event, ordered: bool, written: seq<Request>)
    requires Inv(c, s, ordered, written) && Distinct(written) && NoneEmpty(s.ticks) && NoneEmpty(s.inFlight)
    ensures var r := Next(c, s, e);
            && NoneEmpty(r.ticks) && NoneEmpty(r.inFlight)
            && (InOrder(r) <==> InOrder(s) && (e.SinkCallsBack? ==> s.inFlight == [] || s.ticks == []))
  {
    hide InOrder, Write, Uncork, Complete, Distinct, NoneEmpty, Accounts, Flatten;
    match e
    case DoesWrite(r) =>
      WriteDefers(c, s, r);
      DeferringKeepsOrder(s, Write(c, s, r).0);
    case DoesCork =>
      NothingDeferred(s, Cork(s));
      DeferringKeepsOrder(s, Cork(s));
    case DoesUncork =>
      UncorkDefers(c, s);
      DeferringKeepsOrder(s, Uncork(c, s));
    case SinkCallsBack => CompleteKeepsOrder(c, s, ordered, written);
    case NextTick => TickKeepsOrder(s);
  }

  /** When no completion is waiting, the writers were called in the order of delivery exactly if
      ticks came first. */
  lemma CallbacksWhenQuiet(c: Config, events: seq<Event>)
    requires Distinct(Written(events)) && Run(c, events).ticks == []
    ensures Run(c, events).called == Run(c, events).delivered <==> TicksComeFirst(c, events)
  {
    CallbacksInOrder(c, events);
    assert Run(c, events).called + [] == Run(c, events).called;
  }
}
