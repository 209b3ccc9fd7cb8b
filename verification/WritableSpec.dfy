/** What the operations of a Writable stream do to its state, to the sink below it and to the
    callbacks of its writers; and what every run keeps. */
module WritableSpec {
  import opened Bytes
  import opened Sequences

  /** A chunk and the callback its writer passed, named by a number. */
  datatype Request = Request(chunk: seq<Byte>, callback: nat)

  /** What one call of the sink takes: a chunk through `_write`, or a batch through `_writev`. */
  datatype Task = Single(request: Request) | Batch(requests: seq<Request>)

  /** The options of a stream. The sink is one of its parameters: it calls back from inside its
      k-th call exactly if answersAtOnce(k), and some time later otherwise. */
  datatype Config = Config(objectMode: bool, hasWritev: bool, highWaterMark: int, answersAtOnce: nat -> bool)

  datatype State = State(
    buffer: seq<Request>,        // the linked list of buffered requests
    bufferedRequestCount: int,
    length: int,
    writelen: int,
    writing: bool,
    corked: nat,
    bufferProcessing: bool,
    needDrain: bool,
    pendingcb: int,
    inFlight: seq<Task>,         // given to the sink, not called back yet
    delivered: seq<Request>,     // called back by the sink, in order
    ticks: seq<Task>,            // completions put off to the next tick
    called: seq<Request>,        // writers called back, in order
    drains: nat,                 // 'drain' events
    sinkCalls: nat)

  const INITIAL := State([], 0, 0, 0, false, 0, false, false, 0, [], [], [], [], 0, 0)

  function RequestsOf(task: Task): seq<Request> {
    if task.Single? then [task.request] else task.requests
  }

  function Len(c: Config, r: Request): nat {
    if c.objectMode then 1 else |r.chunk|
  }

  // ----- Handing chunks to the sink -----

  function DoWrite(c: Config, s: State, task: Task, len: int): (r: State)
    ensures s.bufferProcessing ==> r.bufferProcessing
    decreases if s.bufferProcessing then 0 else 1, 2, 0
  {
    var given := s.(writelen := len, writing := true, inFlight := s.inFlight + [task], sinkCalls := s.sinkCalls + 1);
    if c.answersAtOnce(s.sinkCalls) then OnWrite(c, given, task, true) else given
  }

  function OnWriteStateUpdate(s: State, task: Task): State {
    s.(writing := false, length := s.length - s.writelen, writelen := 0,
       inFlight := if s.inFlight == [] then [] else s.inFlight[..|s.inFlight| - 1],
       delivered := s.delivered + RequestsOf(task))
  }

  function OnWrite(c: Config, s: State, task: Task, sync: bool): (r: State)
    ensures s.bufferProcessing ==> r.bufferProcessing
    decreases if s.bufferProcessing then 0 else 1, 1, 0
  {
    var updated := OnWriteStateUpdate(s, task);
    var cleared :=
      if updated.corked == 0 && !updated.bufferProcessing && updated.buffer != [] then ClearBuffer(c, updated)
      else updated;
    if sync then cleared.(ticks := cleared.ticks + [task]) else AfterWrite(cleared, task)
  }

  /** The end of a write: a 'drain' event if the buffer ran empty, then the writers' callbacks. */
  function AfterWrite(s: State, task: Task): State {
    var drained := s.length == 0 && s.needDrain;
    s.(needDrain := s.needDrain && !drained,
       drains := if drained then s.drains + 1 else s.drains,
       pendingcb := s.pendingcb - Cost(task),
       called := s.called + RequestsOf(task))
  }

  /** How much of `pendingcb` a task holds: one for each callback, and one for a batch itself. */
  function Cost(task: Task): nat {
    if task.Single? then 1 else |task.requests| + 1
  }

  function ClearBuffer(c: Config, s: State): State
    requires !s.bufferProcessing
    decreases 1, 0, 0
  {
    var busy := s.(bufferProcessing := true);
    if c.hasWritev && |s.buffer| >= 2 then
      WriteBatch(c, busy).(bufferProcessing := false)
    else
      var (w, rest) := WriteOneByOne(c, busy, s.buffer);
      w.(buffer := rest, bufferProcessing := false)
  }

  /** Write the whole buffer as one batch. */
  function WriteBatch(c: Config, s: State): State
    requires s.bufferProcessing
    decreases 0, 2, 1
  {
    var w := DoWrite(c, s, Batch(s.buffer), s.length);
    w.(pendingcb := w.pendingcb + 1, bufferedRequestCount := 0, buffer := [])
  }

  /** Write entries one by one as long as the sink answers at once; return what is left. */
  function WriteOneByOne(c: Config, s: State, entries: seq<Request>): (State, seq<Request>)
    requires s.bufferProcessing
    decreases 0, 3, |entries|
  {
    if entries == [] then (s, [])
    else
      var w := WriteEntry(c, s, entries[0]);
      if w.writing then (w, entries[1..]) else WriteOneByOne(c, w, entries[1..])
  }

  function WriteEntry(c: Config, s: State, r: Request): (w: State)
    requires s.bufferProcessing
    ensures w.bufferProcessing
    decreases 0, 2, 1
  {
    var w := DoWrite(c, s, Single(r), Len(c, r));
    w.(bufferedRequestCount := w.bufferedRequestCount - 1)
  }

  // ----- The public operations -----

  /** `write`: the new state, and whether the caller may go on writing. */
  function Write(c: Config, s: State, r: Request): (State, bool) {
    var len := Len(c, r);
    var ret := s.length + len < c.highWaterMark;
    var counted := s.(pendingcb := s.pendingcb + 1, length := s.length + len, needDrain := s.needDrain || !ret);
    if s.writing || s.corked > 0 then
      (counted.(buffer := s.buffer + [r], bufferedRequestCount := s.bufferedRequestCount + 1), ret)
    else (DoWrite(c, counted, Single(r), len), ret)
  }

  function Cork(s: State): State {
    s.(corked := s.corked + 1)
  }

  function Uncork(c: Config, s: State): State {
    if s.corked == 0 then s
    else
      var u := s.(corked := s.corked - 1);
      if !u.writing && u.corked == 0 && !u.bufferProcessing && u.buffer != [] then ClearBuffer(c, u) else u
  }

  /** The sink calls back for the write in flight. A callback without a write is an error. */
  function Complete(c: Config, s: State): State {
    if s.inFlight == [] then s else OnWrite(c, s, s.inFlight[|s.inFlight| - 1], false)
  }

  /** The event loop runs the first deferred completion. */
  function Tick(s: State): State {
    if s.ticks == [] then s else AfterWrite(s.(ticks := s.ticks[1..]), s.ticks[0])
  }

  // ----- What holds between operations -----

  function TotalLen(c: Config, rs: seq<Request>): nat {
    if rs == [] then 0 else TotalLen(c, rs[..|rs| - 1]) + Len(c, rs[|rs| - 1])
  }

  function Flatten(tasks: seq<Task>): seq<Request> {
    if tasks == [] then [] else Flatten(tasks[..|tasks| - 1]) + RequestsOf(tasks[|tasks| - 1])
  }

  function TotalCost(tasks: seq<Task>): nat {
    if tasks == [] then 0 else TotalCost(tasks[..|tasks| - 1]) + Cost(tasks[|tasks| - 1])
  }

  /** The accounts of a stream that still has to pass on `rest`, with `owed` callbacks not yet
      given to any task, and the completions in `late` under way.
      If the run has kept to the order of ticks, callbacks follow the order of delivery. */
  ghost predicate Accounts(c: Config, s: State, rest: seq<Request>, owed: int, late: seq<Task>, ordered: bool,
      written: seq<Request>) {
    && |s.inFlight| == (if s.writing then 1 else 0)
    && s.delivered + Flatten(s.inFlight) + rest == written
    && s.writelen == TotalLen(c, Flatten(s.inFlight))
    && s.length == s.writelen + TotalLen(c, rest)
    && s.pendingcb == owed + TotalCost(late) + TotalCost(s.inFlight) + TotalCost(s.ticks)
    && multiset(s.called) + multiset(Flatten(late)) + multiset(Flatten(s.ticks)) == multiset(s.delivered)
    && (ordered ==> s.called + Flatten(late) + Flatten(s.ticks) == s.delivered)
    && (s.length >= c.highWaterMark && s.length > 0 ==> s.needDrain)
  }

  /** Nothing is half done, and nothing waits that could be passed on. */
  predicate Settled(s: State) {
    && !s.bufferProcessing
    && s.bufferedRequestCount == |s.buffer|
    && (!s.writing && s.corked == 0 ==> s.buffer == [])
  }

  /** The stream between two operations, when `written` is everything its writers passed. */
  ghost predicate Inv(c: Config, s: State, ordered: bool, written: seq<Request>) {
    Settled(s) && Accounts(c, s, s.buffer, |s.buffer|, [], ordered, written)
  }

  lemma Nothing(c: Config)
    ensures Flatten([]) == [] && TotalCost([]) == 0 && TotalLen(c, []) == 0
  {
  }

  lemma FlattenOne(task: Task)
    ensures Flatten([task]) == RequestsOf(task) && TotalCost([task]) == Cost(task)
  {
    assert [task][..0] == [];
  }

  lemma FlattenSnoc(tasks: seq<Task>, task: Task)
    ensures Flatten(tasks + [task]) == Flatten(tasks) + RequestsOf(task)
    ensures TotalCost(tasks + [task]) == TotalCost(tasks) + Cost(task)
  {
    assert (tasks + [task])[..|tasks|] == tasks;
  }

  lemma NothingFlat()
    ensures Flatten([]) == [] && TotalCost([]) == 0
  {
  }

  lemma {:induction false} FlattenConcat(a: seq<Task>, b: seq<Task>)
    ensures Flatten(a + b) == Flatten(a) + Flatten(b)
    ensures TotalCost(a + b) == TotalCost(a) + TotalCost(b)
    decreases |b|
  {
    hide Flatten, TotalCost, RequestsOf, Cost;
    if b == [] {
      NothingFlat();
      assert a + b == a && Flatten(a) + [] == Flatten(a);
    } else {
      var front, task := b[..|b| - 1], b[|b| - 1];
      FlattenConcat(a, front);
      FlattenSnoc(a + front, task);
      FlattenSnoc(front, task);
      assert a + b == a + front + [task] && b == front + [task];
      Regroup(Flatten(a), Flatten(front), RequestsOf(task));
    }
  }

  lemma FlattenHead(tasks: seq<Task>)
    requires tasks != []
    ensures Flatten(tasks) == RequestsOf(tasks[0]) + Flatten(tasks[1..])
    ensures TotalCost(tasks) == Cost(tasks[0]) + TotalCost(tasks[1..])
  {
    hide Flatten, TotalCost, RequestsOf, Cost;
    FlattenOne(tasks[0]);
    FlattenConcat([tasks[0]], tasks[1..]);
    assert tasks == [tasks[0]] + tasks[1..];
  }

  lemma TotalLenSnoc(c: Config, rs: seq<Request>, r: Request)
    ensures TotalLen(c, rs + [r]) == TotalLen(c, rs) + Len(c, r)
    ensures TotalLen(c, [r]) == Len(c, r)
  {
    assert (rs + [r])[..|rs|] == rs;
    assert [r][..0] == [];
  }

  // ----- Handing a task to the sink -----

  /** The write in flight is called back: its requests move to the delivered ones. */
  lemma StateUpdateKeepsAccounts(c: Config, s: State, rest: seq<Request>, owed: int, late: seq<Task>, ordered: bool,
      written: seq<Request>)
    requires s.writing && Accounts(c, s, rest, owed, late, ordered, written)
    ensures var task := s.inFlight[|s.inFlight| - 1];
            var u := OnWriteStateUpdate(s, task);
            && u.inFlight == [] && u.writelen == 0 && u.length == TotalLen(c, rest)
            && u.delivered + rest == written
            && u.pendingcb == owed + TotalCost(late) + Cost(task) + TotalCost(u.ticks)
            && multiset(u.called) + multiset(Flatten(late)) + multiset(Flatten(u.ticks)) + multiset(RequestsOf(task))
                == multiset(u.delivered)
            && (ordered ==> u.called + Flatten(late) + Flatten(u.ticks) + RequestsOf(task) == u.delivered)
            && (u.length >= c.highWaterMark && u.length > 0 ==> u.needDrain)
  {
    FlattenOne(s.inFlight[0]);
    assert s.inFlight == [s.inFlight[0]];
  }

  ghost predicate NothingToClear(s: State) {
    s.bufferProcessing || s.buffer == [] || s.corked > 0
  }

  lemma GivenKeepsAccounts(c: Config, s: State, task: Task, len: int, rest: seq<Request>, owed: int, late: seq<Task>,
      ordered: bool, written: seq<Request>)
    requires !s.writing && Accounts(c, s, RequestsOf(task) + rest, owed + Cost(task), late, ordered, written)
    requires len == TotalLen(c, RequestsOf(task))
    ensures var given :=
              s.(writelen := len, writing := true, inFlight := s.inFlight + [task], sinkCalls := s.sinkCalls + 1);
            Accounts(c, given, rest, owed, late, ordered, written)
  {
    hide Flatten, TotalLen, TotalCost, RequestsOf, Cost;
    Nothing(c);
    FlattenOne(task);
    assert s.inFlight == [] && s.inFlight + [task] == [task];
    TotalLenConcat(c, RequestsOf(task), rest);
    assert s.delivered + [] + (RequestsOf(task) + rest) == s.delivered + RequestsOf(task) + rest;
  }

  lemma {:induction false} TotalLenConcat(c: Config, a: seq<Request>, b: seq<Request>)
    ensures TotalLen(c, a + b) == TotalLen(c, a) + TotalLen(c, b)
    decreases |b|
  {
    if b == [] {
      assert a + b == a;
    } else {
      var last := |b| - 1;
      TotalLenConcat(c, a, b[..last]);
      assert (a + b)[..|a + b| - 1] == a + b[..last];
    }
  }

  lemma DeferredKeepsAccounts(c: Config, s: State, rest: seq<Request>, owed: int, late: seq<Task>, ordered: bool,
      written: seq<Request>)
    requires s.writing && Accounts(c, s, rest, owed, late, ordered, written)
    ensures var task := s.inFlight[|s.inFlight| - 1];
            var u := OnWriteStateUpdate(s, task);
            Accounts(c, u.(ticks := u.ticks + [task]), rest, owed, late, ordered, written)
  {
    var task := s.inFlight[|s.inFlight| - 1];
    hide Flatten, TotalLen, TotalCost, RequestsOf, Cost;
    StateUpdateKeepsAccounts(c, s, rest, owed, late, ordered, written);
    Nothing(c);
    FlattenSnoc(s.ticks, task);
    assert s.delivered + RequestsOf(task) + [] + rest == s.delivered + RequestsOf(task) + rest;
    DeferCallbacks(s.called, Flatten(late), Flatten(s.ticks), RequestsOf(task), s.delivered + RequestsOf(task),
        ordered);
  }

  lemma DeferCallbacks(called: seq<Request>, late: seq<Request>, ticks: seq<Request>, done: seq<Request>,
                       delivered: seq<Request>, ordered: bool)
    requires multiset(called) + multiset(late) + multiset(ticks) + multiset(done) == multiset(delivered)
    requires ordered ==> called + late + ticks + done == delivered
    ensures multiset(called) + multiset(late) + multiset(ticks + done) == multiset(delivered)
    ensures ordered ==> called + late + (ticks + done) == delivered
  {
    Regroup(called + late, ticks, done);
    assert multiset(ticks + done) == multiset(ticks) + multiset(done);
  }

  /** The sink takes a task and answers at once or later: either way the accounts balance, and
      nothing else moves. */
  lemma DoWriteKeepsAccounts(c: Config, s: State, task: Task, len: int, rest: seq<Request>, owed: int,
      late: seq<Task>, ordered: bool, written: seq<Request>)
    requires !s.writing && NothingToClear(s) && len == TotalLen(c, RequestsOf(task))
    requires Accounts(c, s, RequestsOf(task) + rest, owed + Cost(task), late, ordered, written)
    ensures var r := DoWrite(c, s, task, len);
            && Accounts(c, r, rest, owed, late, ordered, written)
            && r.writing == !c.answersAtOnce(s.sinkCalls)
            && r.buffer == s.buffer && r.bufferedRequestCount == s.bufferedRequestCount
            && r.corked == s.corked && r.bufferProcessing == s.bufferProcessing
  {
    hide Accounts, Flatten, TotalLen, TotalCost, RequestsOf, ClearBuffer;
    GivenKeepsAccounts(c, s, task, len, rest, owed, late, ordered, written);
    var given := s.(writelen := len, writing := true, inFlight := s.inFlight + [task], sinkCalls := s.sinkCalls + 1);
    assert given.inFlight[|given.inFlight| - 1] == task;
    DeferredKeepsAccounts(c, given, rest, owed, late, ordered, written);
  }

  lemma {:induction false} WriteOneByOneKeepsAccounts(c: Config, s: State, entries: seq<Request>, late: seq<Task>,
      ordered: bool, written: seq<Request>)
    requires s.bufferProcessing && !s.writing && s.bufferedRequestCount == |entries|
    requires Accounts(c, s, entries, |entries|, late, ordered, written)
    ensures var (r, rest) := WriteOneByOne(c, s, entries);
            && Accounts(c, r, rest, |rest|, late, ordered, written) && r.bufferedRequestCount == |rest|
            && (!r.writing ==> rest == []) && r.corked == s.corked
    decreases |entries|
  {
    if entries != [] {
      hide Accounts, WriteEntry;
      WriteHead(c, s, entries, late, ordered, written);
      var w := WriteEntry(c, s, entries[0]);
      if !w.writing {
        WriteOneByOneKeepsAccounts(c, w, entries[1..], late, ordered, written);
      }
    }
  }

  lemma WriteHead(c: Config, s: State, entries: seq<Request>, late: seq<Task>, ordered: bool, written: seq<Request>)
    requires entries != [] && s.bufferProcessing && !s.writing
        && Accounts(c, s, entries, |entries|, late, ordered, written)
    ensures var w := WriteEntry(c, s, entries[0]);
            && w.corked == s.corked && w.bufferedRequestCount == s.bufferedRequestCount - 1
            && Accounts(c, w, entries[1..], |entries[1..]|, late, ordered, written)
  {
    hide Flatten, TotalLen, DoWrite;
    assert entries == RequestsOf(Single(entries[0])) + entries[1..];
    TotalLenSnoc(c, [], entries[0]);
    DoWriteKeepsAccounts(c, s, Single(entries[0]), Len(c, entries[0]), entries[1..], |entries[1..]|, late, ordered,
        written);
  }

  /** Clearing the buffer, in a batch or one by one, passes on everything it can. */
  lemma ClearBufferKeepsAccounts(c: Config, s: State, late: seq<Task>, ordered: bool, written: seq<Request>)
    requires !s.bufferProcessing && !s.writing && s.bufferedRequestCount == |s.buffer|
    requires Accounts(c, s, s.buffer, |s.buffer|, late, ordered, written)
    ensures var r := ClearBuffer(c, s);
            && Settled(r) && r.corked == s.corked && Accounts(c, r, r.buffer, |r.buffer|, late, ordered, written)
  {
    hide Flatten, TotalCost, TotalLen, DoWrite;
    var busy := s.(bufferProcessing := true);
    if c.hasWritev && |s.buffer| >= 2 {
      assert s.buffer + [] == s.buffer;
      Nothing(c);
      assert s.inFlight == [];
      DoWriteKeepsAccounts(c, busy, Batch(s.buffer), s.length, [], -1, late, ordered, written);
    } else {
      WriteOneByOneKeepsAccounts(c, busy, s.buffer, late, ordered, written);
    }
  }

  // ----- Every operation keeps the invariant -----

  /** A write that has to wait. */
  lemma BufferedKeepsInv(c: Config, s: State, r: Request, counted: State, ordered: bool, written: seq<Request>)
    requires Inv(c, s, ordered, written) && (s.writing || s.corked > 0)
    requires counted == s.(pendingcb := s.pendingcb + 1, length := s.length + Len(c, r),
                           needDrain := s.needDrain || !(s.length + Len(c, r) < c.highWaterMark))
    ensures Inv(c, counted.(buffer := s.buffer + [r], bufferedRequestCount := s.bufferedRequestCount + 1), ordered,
        written + [r])
  {
    hide Flatten, TotalCost, TotalLen, Len;
    TotalLenSnoc(c, s.buffer, r);
    Regroup(s.delivered + Flatten(s.inFlight), s.buffer, [r]);
  }

  /** A write that goes to the sink: the accounts just before it does. */
  lemma CountedBalances(c: Config, s: State, r: Request, counted: State, ordered: bool, written: seq<Request>)
    requires Inv(c, s, ordered, written) && !s.writing && s.corked == 0
    requires counted == s.(pendingcb := s.pendingcb + 1, length := s.length + Len(c, r),
                           needDrain := s.needDrain || !(s.length + Len(c, r) < c.highWaterMark))
    ensures Len(c, r) == TotalLen(c, RequestsOf(Single(r)))
    ensures Accounts(c, counted, RequestsOf(Single(r)) + [], Cost(Single(r)), [], ordered, written + [r])
  {
    hide Flatten, TotalCost, TotalLen, Len;
    Nothing(c);
    TotalLenSnoc(c, [], r);
    assert [] + [r] == [r] && RequestsOf(Single(r)) + [] == [r];
    assert s.delivered + Flatten(s.inFlight) + [] == s.delivered + Flatten(s.inFlight);
  }

  lemma WriteKeepsInv(c: Config, s: State, r: Request, ordered: bool, written: seq<Request>)
    requires Inv(c, s, ordered, written)
    ensures Inv(c, Write(c, s, r).0, ordered, written + [r])
    ensures Write(c, s, r).1 <==> s.length + Len(c, r) < c.highWaterMark
  {
    hide Accounts, DoWrite, Len;
    var len := Len(c, r);
    var counted := s.(pendingcb := s.pendingcb + 1, length := s.length + len,
                      needDrain := s.needDrain || !(s.length + len < c.highWaterMark));
    if s.writing || s.corked > 0 {
      BufferedKeepsInv(c, s, r, counted, ordered, written);
    } else {
      CountedBalances(c, s, r, counted, ordered, written);
      DoWriteKeepsAccounts(c, counted, Single(r), len, [], 0, [], ordered, written + [r]);
    }
  }

  lemma CorkKeepsInv(c: Config, s: State, ordered: bool, written: seq<Request>)
    requires Inv(c, s, ordered, written)
    ensures Inv(c, Cork(s), ordered, written)
  {
  }

  lemma UncorkKeepsInv(c: Config, s: State, ordered: bool, written: seq<Request>)
    requires Inv(c, s, ordered, written)
    ensures Inv(c, Uncork(c, s), ordered, written)
  {
    if s.corked > 0 {
      var u := s.(corked := s.corked - 1);
      if !u.writing && u.corked == 0 && u.buffer != [] {
        hide ClearBuffer, Flatten, TotalCost, TotalLen;
        ClearBufferKeepsAccounts(c, u, [], ordered, written);
      }
    }
  }

  lemma CompleteKeepsInv(c: Config, s: State, ordered: bool, written: seq<Request>)
    requires Inv(c, s, ordered, written)
    requires ordered ==> s.inFlight == [] || s.ticks == []
    ensures Inv(c, Complete(c, s), ordered, written)
  {
    if s.inFlight != [] {
      var task := s.inFlight[|s.inFlight| - 1];
      var u := OnWriteStateUpdate(s, task);
      UpdatedKeepsAccounts(c, s, ordered, written);
      if u.corked == 0 && u.buffer != [] {
        ClearBufferKeepsAccounts(c, u, [task], ordered, written);
        AfterWriteKeepsInv(c, ClearBuffer(c, u), task, ordered, written);
      } else {
        AfterWriteKeepsInv(c, u, task, ordered, written);
      }
    }
  }

  lemma UpdatedKeepsAccounts(c: Config, s: State, ordered: bool, written: seq<Request>)
    requires Inv(c, s, ordered, written) && s.writing && (ordered ==> s.ticks == [])
    ensures var task := s.inFlight[|s.inFlight| - 1];
            var u := OnWriteStateUpdate(s, task);
            && !u.bufferProcessing && !u.writing && u.bufferedRequestCount == |u.buffer|
            && Accounts(c, u, u.buffer, |u.buffer|, [task], ordered, written)
  {
    hide TotalLen, RequestsOf, Cost, TotalCost, Flatten;
    Nothing(c);
    StateUpdateKeepsAccounts(c, s, s.buffer, |s.buffer|, [], ordered, written);
    FlattenOne(s.inFlight[|s.inFlight| - 1]);
  }

  lemma AfterWriteKeepsInv(c: Config, s: State, task: Task, ordered: bool, written: seq<Request>)
    requires Settled(s) && Accounts(c, s, s.buffer, |s.buffer|, [task], ordered, written)
    ensures Inv(c, AfterWrite(s, task), ordered, written)
  {
    hide TotalLen, RequestsOf, Cost, TotalCost, Flatten;
    Nothing(c);
    FlattenOne(task);
  }

  lemma FirstTickIsLate(c: Config, s: State, ordered: bool, written: seq<Request>)
    requires Inv(c, s, ordered, written) && s.ticks != []
    ensures Accounts(c, s.(ticks := s.ticks[1..]), s.buffer, |s.buffer|, [s.ticks[0]], ordered, written)
  {
    hide TotalLen, RequestsOf, Cost, TotalCost, Flatten, Settled;
    Nothing(c);
    FlattenHead(s.ticks);
    FlattenOne(s.ticks[0]);
    assert multiset(Flatten(s.ticks)) == multiset(RequestsOf(s.ticks[0])) + multiset(Flatten(s.ticks[1..]));
  }

  lemma TickKeepsInv(c: Config, s: State, ordered: bool, written: seq<Request>)
    requires Inv(c, s, ordered, written)
    ensures Inv(c, Tick(s), ordered, written)
  {
    if s.ticks != [] {
      hide Accounts;
      FirstTickIsLate(c, s, ordered, written);
      AfterWriteKeepsInv(c, s.(ticks := s.ticks[1..]), s.ticks[0], ordered, written);
    }
  }

  // ----- Whole runs -----

  datatype Event = DoesWrite(request: Request) | DoesCork | DoesUncork | SinkCallsBack | NextTick

  function Next(c: Config, s: State, e: Event): State {
    match e
    case DoesWrite(r) => Write(c, s, r).0
    case DoesCork => Cork(s)
    case DoesUncork => Uncork(c, s)
    case SinkCallsBack => Complete(c, s)
    case NextTick => Tick(s)
  }

  function Run(c: Config, events: seq<Event>): State {
    if events == [] then INITIAL else Next(c, Run(c, events[..|events| - 1]), events[|events| - 1])
  }

  function Written(events: seq<Event>): seq<Request> {
    if events == [] then []
    else
      var last := events[|events| - 1];
      Written(events[..|events| - 1]) + if last.DoesWrite? then [last.request] else []
  }

  /** The sink never calls back while a deferred completion waits for its tick. */
  predicate TicksComeFirst(c: Config, events: seq<Event>) {
    if events == [] then true
    else
      var before := events[..|events| - 1];
      TicksComeFirst(c, before)
      && (events[|events| - 1].SinkCallsBack? ==> Run(c, before).inFlight == [] || Run(c, before).ticks == [])
  }

  /** In every run, for every sink: what was delivered, is in flight and is buffered is what was
      written, in order; at most one write is in flight; the counters count; nothing stays
      buffered when the stream could write; every writer is called back once, and in order if
      ticks come first. */
  lemma {:induction false} EveryRunKeepsInv(c: Config, events: seq<Event>)
    ensures Inv(c, Run(c, events), TicksComeFirst(c, events), Written(events))
  {
    hide Inv, Write, Uncork, Complete, Tick;
    if events == [] {
      InitialInv(c);
    } else {
      var before, e := events[..|events| - 1], events[|events| - 1];
      EveryRunKeepsInv(c, before);
      var s, w, ordered := Run(c, before), Written(before), TicksComeFirst(c, events);
      LessOrdered(c, s, TicksComeFirst(c, before), ordered, w);
      assert e.DoesWrite? || w + [] == w;
      match e
      case DoesWrite(r) => WriteKeepsInv(c, s, r, ordered, w);
      case DoesCork => CorkKeepsInv(c, s, ordered, w);
      case DoesUncork => UncorkKeepsInv(c, s, ordered, w);
      case SinkCallsBack => CompleteKeepsInv(c, s, ordered, w);
      case NextTick => TickKeepsInv(c, s, ordered, w);
    }
  }

  lemma LessOrdered(c: Config, s: State, strong: bool, weak: bool, written: seq<Request>)
    requires Inv(c, s, strong, written) && (weak ==> strong)
    ensures Inv(c, s, weak, written)
  {
    hide Flatten, TotalLen, TotalCost;
  }

  lemma InitialInv(c: Config)
    ensures Inv(c, INITIAL, true, [])
  {
    Nothing(c);
  }

  /** Without the ticks in between, a writer is overtaken: the first write completes at once, its
      callback waits for a tick, and the second one's comes first. */
  lemma OvertakenCallback()
    ensures exists c: Config, events: seq<Event> ::
              && !TicksComeFirst(c, events) && Run(c, events).ticks == []
              && Run(c, events).delivered == Written(events) && Run(c, events).called != Written(events)
  {
    var a, b := Request([1], 0), Request([2], 1);
    var c := Config(false, false, 16, k => k == 0);
    var e2: seq<Event> := [DoesWrite(a), DoesWrite(b)];
    Overtaking(c, a, b);
    RunSnoc(c, e2, SinkCallsBack);
    RunSnoc(c, e2 + [SinkCallsBack], NextTick);
    var events := e2 + [SinkCallsBack] + [NextTick];
    assert Run(c, events).called == [b, a];
  }

  lemma RunSnoc(c: Config, events: seq<Event>, e: Event)
    ensures Run(c, events + [e]) == Next(c, Run(c, events), e)
    ensures !e.DoesWrite? ==> Written(events + [e]) == Written(events)
    ensures TicksComeFirst(c, events + [e]) ==
            (TicksComeFirst(c, events)
             && (e.SinkCallsBack? ==> Run(c, events).inFlight == [] || Run(c, events).ticks == []))
  {
    assert (events + [e])[..|events|] == events;
  }

  lemma Overtaking(c: Config, a: Request, b: Request)
    requires c.answersAtOnce(0) && !c.answersAtOnce(1)
    ensures var s := Run(c, [DoesWrite(a), DoesWrite(b)]);
            && s.inFlight == [Single(b)] && s.ticks == [Single(a)] && s.delivered == [a] && s.called == []
                && s.buffer == []
            && !s.bufferProcessing
    ensures Written([DoesWrite(a), DoesWrite(b)]) == [a, b]
  {
    var e1: seq<Event>, e2: seq<Event> := [DoesWrite(a)], [DoesWrite(a), DoesWrite(b)];
    assert e1[..0] == [] && e2[..1] == e1;
    assert Run(c, []) == INITIAL;
    assert Run(c, e1) == Write(c, INITIAL, a).0;
    FirstWrite(c, a);
    assert Run(c, e2) == Write(c, Run(c, e1), b).0;
    assert Written(e1) == [a];
  }

  lemma FirstWrite(c: Config, a: Request)
    requires c.answersAtOnce(0)
    ensures var s := Write(c, INITIAL, a).0;
            && s.inFlight == [] && s.ticks == [Single(a)] && s.delivered == [a] && s.called == [] && s.buffer == []
            && !s.writing && s.corked == 0 && s.sinkCalls == 1 && !s.bufferProcessing
  {
    var len := Len(c, a);
    var counted := INITIAL.(pendingcb := 1, length := len, needDrain := !(len < c.highWaterMark));
    var given := counted.(writelen := len, writing := true, inFlight := [Single(a)], sinkCalls := 1);
    assert Write(c, INITIAL, a).0 == DoWrite(c, counted, Single(a), len);
    assert INITIAL.inFlight + [Single(a)] == [Single(a)];
    assert DoWrite(c, counted, Single(a), len) == OnWrite(c, given, Single(a), true);
  }
}
