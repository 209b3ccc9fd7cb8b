/** What a Writable stream tells its writers: when they have to wait, and that 'drain' comes. Also
    what corking holds back, and when a batch is written. */
module WritableDrain {
  import opened Sequences
  import opened WritableSpec
  import opened WritableOrder

  // ----- Who may go on -----

  /** `write` returns whether there is room, and notes that a writer waits if there is none. */
  lemma WriteTells(c: Config, s: State, r: Request)
    requires Settled(s)
    ensures Write(c, s, r).1 <==> s.length + (if c.objectMode then 1 else |r.chunk|) < c.highWaterMark
    ensures Write(c, s, r).0.needDrain == (s.needDrain || !Write(c, s, r).1)
    ensures Write(c, s, r).0.drains == s.drains
  {
    hide DoWrite;
    if !(s.writing || s.corked > 0) {
      var len := Len(c, r);
      var counted := s.(pendingcb := s.pendingcb + 1, length := s.length + len,
                        needDrain := s.needDrain || !(s.length + len < c.highWaterMark));
      DoWriteIsSilent(c, counted, Single(r), len);
    }
  }

  /** Neither a waiting writer nor a 'drain'. */
  predicate IsSilent(s: State, r: State) {
    r.needDrain == s.needDrain && r.drains == s.drains
  }

  /** Something will complete, or go on when the stream is uncorked. */
  predicate IsBusy(s: State) {
    s.inFlight != [] || s.buffer != [] || s.ticks != []
  }

  lemma DoWriteIsSilent(c: Config, s: State, task: Task, len: int)
    requires NothingToClear(s)
    ensures IsSilent(s, DoWrite(c, s, task, len))
    ensures var r := DoWrite(c, s, task, len); (r.inFlight != [] || r.ticks != []) && r.sinkCalls == s.sinkCalls + 1
    ensures var r := DoWrite(c, s, task, len);
            if c.answersAtOnce(s.sinkCalls) then r.ticks == s.ticks + [task] && r.inFlight == s.inFlight
            else r.inFlight == s.inFlight + [task] && r.ticks == s.ticks
  {
    hide ClearBuffer, RequestsOf;
    var given := s.(writelen := len, writing := true, inFlight := s.inFlight + [task], sinkCalls := s.sinkCalls + 1);
    if c.answersAtOnce(s.sinkCalls) {
      var u := OnWriteStateUpdate(given, task);
      assert given.inFlight[..|given.inFlight| - 1] == s.inFlight;
      assert OnWrite(c, given, task, true) == u.(ticks := u.ticks + [task]);
      assert DoWrite(c, s, task, len) == OnWrite(c, given, task, true);
    }
  }

  lemma {:induction false} WriteOneByOneIsSilent(c: Config, s: State, entries: seq<Request>)
    requires s.bufferProcessing
    ensures var r := WriteOneByOne(c, s, entries).0;
            IsSilent(s, r) && s.ticks <= r.ticks && (entries != [] ==> r.inFlight != [] || r.ticks != [])
    decreases |entries|
  {
    hide DoWrite;
    if entries != [] {
      var w := WriteEntry(c, s, entries[0]);
      DoWriteIsSilent(c, s, Single(entries[0]), Len(c, entries[0]));
      if !w.writing {
        WriteOneByOneIsSilent(c, w, entries[1..]);
      } else {
        WrittenIsInFlight(c, s, entries[0]);
      }
    }
  }

  lemma WrittenIsInFlight(c: Config, s: State, r: Request)
    requires s.bufferProcessing
    ensures WriteEntry(c, s, r).writing ==> WriteEntry(c, s, r).inFlight != []
  {
    hide DoWrite;
    DoWriteIsSilent(c, s, Single(r), Len(c, r));
    AnsweredIsDone(c, s, Single(r), Len(c, r));
  }

  lemma AnsweredIsDone(c: Config, s: State, task: Task, len: int)
    requires s.bufferProcessing
    ensures c.answersAtOnce(s.sinkCalls) ==> !DoWrite(c, s, task, len).writing
  {
    hide ClearBuffer, RequestsOf;
    var given := s.(writelen := len, writing := true, inFlight := s.inFlight + [task], sinkCalls := s.sinkCalls + 1);
    if c.answersAtOnce(s.sinkCalls) {
      var u := OnWriteStateUpdate(given, task);
      assert OnWrite(c, given, task, true) == u.(ticks := u.ticks + [task]);
      assert DoWrite(c, s, task, len) == OnWrite(c, given, task, true);
    }
  }

  lemma ClearBufferIsSilent(c: Config, s: State)
    requires !s.bufferProcessing && s.buffer != []
    ensures IsSilent(s, ClearBuffer(c, s)) && IsBusy(ClearBuffer(c, s))
  {
    hide DoWrite;
    var busy := s.(bufferProcessing := true);
    if c.hasWritev && |s.buffer| >= 2 {
      var w := DoWrite(c, busy, Batch(s.buffer), s.length);
      assert WriteBatch(c, busy) == w.(pendingcb := w.pendingcb + 1, bufferedRequestCount := 0, buffer := []);
      DoWriteIsSilent(c, busy, Batch(s.buffer), s.length);
    } else {
      WriteOneByOneIsSilent(c, busy, s.buffer);
    }
  }

  /** The end of a write: 'drain' is emitted exactly if a writer waits and nothing is left, and then
      no writer waits any more. */
  lemma AfterWriteDrains(s: State, task: Task)
    ensures var r := AfterWrite(s, task);
            && r.length == s.length && r.inFlight == s.inFlight && r.buffer == s.buffer && r.ticks == s.ticks
            && r.drains == s.drains + (if s.needDrain && s.length == 0 then 1 else 0)
            && (r.needDrain <==> s.needDrain && s.length != 0)
  {
  }

  // ----- One step -----

  ghost predicate Drains(s: State, r: State) {
    && (r.drains == s.drains || r.drains == s.drains + 1)
    && (r.drains == s.drains + 1 <==> s.needDrain && !r.needDrain)
    && (r.drains == s.drains + 1 ==> r.length == 0)
  }

  lemma CompleteDrains(c: Config, s: State, ordered: bool, written: seq<Request>)
    requires Inv(c, s, ordered, written) && s.inFlight != []
    ensures Drains(s, Complete(c, s)) && (Complete(c, s).length == 0 ==> !Complete(c, s).needDrain)
  {
    hide ClearBuffer, Accounts;
    var task := s.inFlight[|s.inFlight| - 1];
    var u := OnWriteStateUpdate(s, task);
    if u.corked == 0 && !u.bufferProcessing && u.buffer != [] {
      ClearBufferIsSilent(c, u);
      AfterWriteDrains(ClearBuffer(c, u), task);
    } else {
      AfterWriteDrains(u, task);
    }
  }

  lemma UncorkDrains(c: Config, s: State)
    ensures IsSilent(s, Uncork(c, s)) && (IsBusy(s) ==> IsBusy(Uncork(c, s)))
  {
    hide ClearBuffer;
    if s.corked > 0 {
      var u := s.(corked := s.corked - 1);
      if !u.writing && u.corked == 0 && !u.bufferProcessing && u.buffer != [] {
        ClearBufferIsSilent(c, u);
      }
    }
  }

  lemma WriteIsBusy(c: Config, s: State, r: Request)
    requires Settled(s)
    ensures IsBusy(Write(c, s, r).0)
  {
    hide DoWrite;
    if !(s.writing || s.corked > 0) {
      var len := Len(c, r);
      var counted := s.(pendingcb := s.pendingcb + 1, length := s.length + len,
                        needDrain := s.needDrain || !(s.length + len < c.highWaterMark));
      DoWriteIsSilent(c, counted, Single(r), len);
    }
  }

  lemma IdleIsEmpty(c: Config, s: State, ordered: bool, written: seq<Request>)
    requires Inv(c, s, ordered, written) && !IsBusy(s)
    ensures s.length == 0
  {
    Nothing(c);
  }

  /** Every step: `needDrain` is cleared exactly when 'drain' is emitted, once, with nothing left; and
      while a writer waits, something is under way. */
  lemma StepDrains(c: Config, s: State, e: Event, ordered: bool, written: seq<Request>)
    requires Inv(c, s, ordered, written) && (s.needDrain ==> IsBusy(s))
    ensures Drains(s, Next(c, s, e))
    ensures Inv(c, Next(c, s, e), false, if e.DoesWrite? then written + [e.request] else written) ==>
              (Next(c, s, e).needDrain ==> IsBusy(Next(c, s, e)))
  {
    hide Write, Uncork, Complete, Accounts;
    var r := Next(c, s, e);
    match e
    case DoesWrite(q) =>
      WriteTells(c, s, q);
      WriteIsBusy(c, s, q);
    case DoesCork =>
    case DoesUncork =>
      UncorkDrains(c, s);
    case SinkCallsBack =>
      if s.inFlight != [] {
        CompleteDrains(c, s, ordered, written);
      } else {
        NothingToComplete(c, s);
      }
      if Inv(c, r, false, written) && !IsBusy(r) {
        IdleIsEmpty(c, r, false, written);
      }
    case NextTick =>
      if s.ticks != [] {
        AfterWriteDrains(s.(ticks := s.ticks[1..]), s.ticks[0]);
      }
      if Inv(c, r, false, written) && !IsBusy(r) {
        IdleIsEmpty(c, r, false, written);
      }
  }

  lemma NothingToComplete(c: Config, s: State)
    requires s.inFlight == []
    ensures Complete(c, s) == s
  {
  }

  // ----- Whole runs -----

  /** In every run: with nothing in flight, buffered or waiting for a tick, no writer waits. */
  lemma {:induction false} NoWriterIsForgotten(c: Config, events: seq<Event>)
    ensures Run(c, events).needDrain ==> IsBusy(Run(c, events))
  {
    hide Inv, Next, IsBusy;
    if events != [] {
      var before, e := events[..|events| - 1], events[|events| - 1];
      NoWriterIsForgotten(c, before);
      EveryRunKeepsInv(c, before);
      EveryRunKeepsInv(c, events);
      LessOrdered(c, Run(c, events), TicksComeFirst(c, events), false, Written(events));
      StepDrains(c, Run(c, before), e, TicksComeFirst(c, before), Written(before));
      assert e.DoesWrite? || Written(before) + [] == Written(before);
    }
  }

  /** In every run, at every step: 'drain' is emitted exactly when the last writer's wait ends. */
  lemma DrainsWhenEmpty(c: Config, events: seq<Event>, e: Event)
    ensures Drains(Run(c, events), Run(c, events + [e]))
  {
    hide Inv, Next, Drains;
    NoWriterIsForgotten(c, events);
    EveryRunKeepsInv(c, events);
    StepDrains(c, Run(c, events), e, TicksComeFirst(c, events), Written(events));
    RunSnoc(c, events, e);
  }

  // ----- Corking -----

  /** How often the stream is corked: an uncork too many counts for nothing. */
  function Depth(events: seq<Event>): nat {
    if events == [] then 0
    else
      var d := Depth(events[..|events| - 1]);
      match events[|events| - 1]
      case DoesCork => d + 1
      case DoesUncork => if d > 0 then d - 1 else 0
      case _ => d
  }

  /** Handing tasks to the sink leaves the corks alone. */
  lemma NextKeepsCorks(c: Config, s: State, e: Event, ordered: bool, written: seq<Request>)
    requires Inv(c, s, ordered, written)
    ensures Next(c, s, e).corked == (match e
                                     case DoesCork => s.corked + 1
                                     case DoesUncork => if s.corked > 0 then s.corked - 1 else 0
                                     case _ => s.corked)
  {
    hide ClearBuffer, DoWrite, Accounts;
    match e
    case DoesWrite(r) =>
      if !(s.writing || s.corked > 0) {
        var len := Len(c, r);
        var counted := s.(pendingcb := s.pendingcb + 1, length := s.length + len,
                          needDrain := s.needDrain || !(s.length + len < c.highWaterMark));
        DoWriteKeepsCorks(c, counted, Single(r), len);
      }
    case DoesCork =>
    case DoesUncork =>
      if s.corked > 0 {
        ClearBufferKeepsCorks(c, s.(corked := s.corked - 1));
      }
    case SinkCallsBack =>
      if s.inFlight != [] {
        ClearBufferKeepsCorks(c, OnWriteStateUpdate(s, s.inFlight[|s.inFlight| - 1]));
      }
    case NextTick =>
  }

  lemma DoWriteKeepsCorks(c: Config, s: State, task: Task, len: int)
    requires NothingToClear(s)
    ensures DoWrite(c, s, task, len).corked == s.corked
  {
    hide ClearBuffer, RequestsOf;
    var given := s.(writelen := len, writing := true, inFlight := s.inFlight + [task], sinkCalls := s.sinkCalls + 1);
    if c.answersAtOnce(s.sinkCalls) {
      var u := OnWriteStateUpdate(given, task);
      assert OnWrite(c, given, task, true) == u.(ticks := u.ticks + [task]);
    }
  }

  lemma {:induction false} WriteOneByOneKeepsCorks(c: Config, s: State, entries: seq<Request>)
    requires s.bufferProcessing
    ensures WriteOneByOne(c, s, entries).0.corked == s.corked
    decreases |entries|
  {
    hide DoWrite;
    if entries != [] {
      var w := WriteEntry(c, s, entries[0]);
      DoWriteKeepsCorks(c, s, Single(entries[0]), Len(c, entries[0]));
      if !w.writing {
        WriteOneByOneKeepsCorks(c, w, entries[1..]);
      }
    }
  }

  lemma ClearBufferKeepsCorks(c: Config, s: State)
    requires !s.bufferProcessing
    ensures ClearBuffer(c, s).corked == s.corked
  {
    hide DoWrite;
    var busy := s.(bufferProcessing := true);
    if c.hasWritev && |s.buffer| >= 2 {
      DoWriteKeepsCorks(c, busy, Batch(s.buffer), s.length);
      var w := DoWrite(c, busy, Batch(s.buffer), s.length);
      assert WriteBatch(c, busy) == w.(pendingcb := w.pendingcb + 1, bufferedRequestCount := 0, buffer := []);
    } else {
      WriteOneByOneKeepsCorks(c, busy, s.buffer);
    }
  }

  lemma {:induction false} CorkedIsDepth(c: Config, events: seq<Event>)
    ensures Run(c, events).corked == Depth(events)
  {
    hide Inv, Next;
    if events != [] {
      var before, e := events[..|events| - 1], events[|events| - 1];
      CorkedIsDepth(c, before);
      EveryRunKeepsInv(c, before);
      NextKeepsCorks(c, Run(c, before), e, TicksComeFirst(c, before), Written(before));
    }
  }

  /** In every run: while there are more corks than uncorks, a write only joins the buffer. */
  lemma CorkedHoldsBack(c: Config, events: seq<Event>, r: Request)
    requires Depth(events) > 0
    ensures var s, t := Run(c, events), Run(c, events + [DoesWrite(r)]);
            && t.buffer == s.buffer + [r] && t.inFlight == s.inFlight && t.delivered == s.delivered
            && t.ticks == s.ticks && t.sinkCalls == s.sinkCalls
  {
    CorkedIsDepth(c, events);
    RunSnoc(c, events, DoesWrite(r));
  }

  // ----- Batches -----

  /** With `_writev` and two requests or more, clearing the buffer is one call of the sink, for all of
      them; else the first call is for the first one alone. */
  lemma ClearBufferCalls(c: Config, s: State)
    requires !s.bufferProcessing && s.buffer != [] && s.inFlight == []
    ensures var r := ClearBuffer(c, s);
            if c.hasWritev && |s.buffer| >= 2 then
              && r.buffer == [] && r.sinkCalls == s.sinkCalls + 1
              && (if c.answersAtOnce(s.sinkCalls) then r.ticks == s.ticks + [Batch(s.buffer)]
                  else r.inFlight == [Batch(s.buffer)])
            else
              if c.answersAtOnce(s.sinkCalls) then s.ticks + [Single(s.buffer[0])] <= r.ticks
              else r.inFlight == [Single(s.buffer[0])] && r.buffer == s.buffer[1..] && r.sinkCalls == s.sinkCalls + 1
  {
    hide DoWrite;
    var busy := s.(bufferProcessing := true);
    if c.hasWritev && |s.buffer| >= 2 {
      DoWriteIsSilent(c, busy, Batch(s.buffer), s.length);
      var w := DoWrite(c, busy, Batch(s.buffer), s.length);
      assert WriteBatch(c, busy) == w.(pendingcb := w.pendingcb + 1, bufferedRequestCount := 0, buffer := []);
      assert [] + [Batch(s.buffer)] == [Batch(s.buffer)];
    } else {
      var first := Single(s.buffer[0]);
      DoWriteIsSilent(c, busy, first, Len(c, s.buffer[0]));
      AnsweredIsDone(c, busy, first, Len(c, s.buffer[0]));
      var w := WriteEntry(c, busy, s.buffer[0]);
      assert [] + [first] == [first];
      if !w.writing {
        WriteOneByOneIsSilent(c, w, s.buffer[1..]);
      }
      UnansweredGoesOn(c, busy, first, Len(c, s.buffer[0]));
    }
  }

  lemma UnansweredGoesOn(c: Config, s: State, task: Task, len: int)
    ensures !c.answersAtOnce(s.sinkCalls) ==> DoWrite(c, s, task, len).writing
  {
  }
}
