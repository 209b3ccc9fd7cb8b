/** What every interleaving keeps: generations, stamps and the silence of a disabled instance. */
module CacheSafety {
  import opened Wrappers
  import opened CacheKeys
  import opened CacheProtocol

  // ----- The invariant -----

  /** The counter of a namespace is the number of its INCRs, made at rising database versions. */
  ghost predicate CountersOk(s: State) {
    forall n: Name ::
      && Lookup(s.store, VersionKey(n)) == (if History(s, n) == [] then None else Some(Counter(|History(s, n)|)))
      && RisingTo(History(s, n), s.db)
  }

  ghost predicate RisingTo(h: seq<nat>, db: nat) {
    (forall i, j :: 0 <= i <= j < |h| ==> h[i] <= h[j]) && forall i :: 0 <= i < |h| ==> h[i] <= db
  }

  /** The cell under a data key is a value of that key, produced after the INCR that began the
      key's generation. */
  ghost predicate DataOk(s: State) {
    forall r: Ref :: Key(r) in s.store ==> CellOk(s, r, s.store[Key(r)])
  }

  ghost predicate CellOk(s: State, r: Ref, cell: Cell) {
    && cell.Json? && cell.value == ValueAt(r, cell.value.stamp)
    && r.generation <= |History(s, r.namespace)|
    && At(History(s, r.namespace), r.generation) <= cell.value.stamp <= s.db
  }

  /** A resolved generation, and the database version it was resolved at. */
  ghost predicate ResolvedOk(s: State, disabled: bool, namespace: string, generation: nat, seen: nat) {
    && seen <= s.db
    && (!disabled ==> generation <= |History(s, namespace)| && seen == At(History(s, namespace), generation))
  }

  ghost predicate RefOk(s: State, disabled: bool, r: Ref) {
    ResolvedOk(s, disabled, r.namespace, r.generation, r.seen)
  }

  ghost predicate FreshValue(s: State, r: Ref, value: Value) {
    value == ValueAt(r, value.stamp) && r.seen <= value.stamp <= s.db
  }

  ghost predicate TaskOk(s: State, disabled: bool, t: Task) {
    match t
    case Idle => true
    case Missed(r) => RefOk(s, disabled, r)
    case Produced(r, value) => RefOk(s, disabled, r) && FreshValue(s, r, value)
    case Returned(r, value) => FreshValue(s, r, value)
  }

  ghost predicate RequestOk(s: State, r: Request) {
    var disabled := r.client.disabled;
    && (forall n :: n in r.client.versions ==>
          n in r.seen && ResolvedOk(s, disabled, n, r.client.versions[n], r.seen[n]))
    && (forall ref :: ref in r.refs ==> RefOk(s, disabled, ref))
    && TaskOk(s, disabled, r.task)
  }

  ghost predicate RequestsOk(s: State) {
    forall p :: p in s.requests ==> RequestOk(s, s.requests[p])
  }

  ghost predicate Inv(s: State) {
    CountersOk(s) && DataOk(s) && RequestsOk(s)
  }

  // ----- What a step can only extend -----

  ghost predicate Extends(s: State, t: State) {
    && s.db <= t.db
    && forall n: string :: History(s, n) <= History(t, n)
  }

  lemma RequestSurvives(s: State, t: State, r: Request)
    requires Extends(s, t) && RequestOk(s, r)
    ensures RequestOk(t, r)
  {
    hide History;
    forall n: string, g: nat, seen: nat | ResolvedOk(s, r.client.disabled, n, g, seen)
      ensures ResolvedOk(t, r.client.disabled, n, g, seen)
    {
      assert History(s, n) <= History(t, n);
    }
  }

  lemma CellSurvives(s: State, t: State, r: Ref, cell: Cell)
    requires Extends(s, t) && CellOk(s, r, cell)
    ensures CellOk(t, r, cell)
  {
    hide History;
    assert History(s, r.namespace) <= History(t, r.namespace);
  }

  lemma OthersSurvive(s: State, t: State, p: nat, r: Request)
    requires Extends(s, t) && RequestsOk(s) && t.requests == s.requests[p := r] && RequestOk(t, r)
    ensures RequestsOk(t)
  {
    hide RequestOk, Extends, History;
    forall q | q in t.requests
      ensures RequestOk(t, t.requests[q])
    {
      if q != p {
        RequestSurvives(s, t, s.requests[q]);
      }
    }
  }

  // ----- Steps that leave the cells alone -----

  lemma CommitKeepsInv(s: State)
    requires Inv(s)
    ensures Inv(Next(s, Commit))
  {
    hide RequestOk;
    var t := Next(s, Commit);
    assert forall n: string :: History(t, n) == History(s, n);
    forall p | p in s.requests
      ensures RequestOk(t, s.requests[p])
    {
      RequestSurvives(s, t, s.requests[p]);
    }
    forall r: Ref | Key(r) in s.store
      ensures CellOk(t, r, s.store[Key(r)])
    {
      CellSurvives(s, t, r, s.store[Key(r)]);
    }
  }

  lemma StartKeepsInv(s: State, p: nat, configured: bool)
    requires Inv(s)
    ensures Inv(Next(s, Start(p, configured)))
  {
    if p !in s.requests {
      var r := Request(Client(configured, false, map[]), map[], {}, Idle);
      OnlyRequestChanges(s, p, r);
    }
  }

  /** The counters and the data do not depend on the requests. */
  lemma OnlyRequestChanges(s: State, p: nat, r: Request)
    requires Inv(s) && RequestOk(s, r)
    ensures Inv(WithRequest(s, p, r))
  {
    hide RequestOk;
    var t := WithRequest(s, p, r);
    assert forall n: string :: History(t, n) == History(s, n);
    RequestSurvives(s, t, r);
    OthersSurvive(s, t, p, r);
    forall q: Ref | Key(q) in s.store
      ensures CellOk(t, q, s.store[Key(q)])
    {
      CellSurvives(s, t, q, s.store[Key(q)]);
    }
  }

  lemma ExpireKeepsInv(s: State, ref: Ref)
    requires Inv(s)
    ensures Inv(Next(s, Expire(ref)))
  {
    hide RequestOk, Key, VersionKey;
    var t := Next(s, Expire(ref));
    assert forall n: string :: History(t, n) == History(s, n);
    forall p | p in s.requests
      ensures RequestOk(t, s.requests[p])
    {
      RequestSurvives(s, t, s.requests[p]);
    }
    forall r: Ref | Key(r) in t.store
      ensures CellOk(t, r, t.store[Key(r)])
    {
      CellSurvives(s, t, r, s.store[Key(r)]);
    }
    forall n: Name
      ensures Lookup(t.store, VersionKey(n)) == Lookup(s.store, VersionKey(n))
    {
      RefIsNoVersionKey(ref, n);
    }
  }

  lemma RefIsNoVersionKey(r: Ref, n: Name)
    ensures Key(r) != VersionKey(n)
  {
    DataKeyIsNoVersionKey(r.namespace, r.generation, r.entity, r.discriminator, n);
  }

  /** Two references share a key exactly if they agree on everything the key is made of. */
  lemma SameKey(r: Ref, q: Ref)
    ensures Key(r) == Key(q) <==> r.namespace == q.namespace && r.generation == q.generation
                                  && r.entity == q.entity && Sanitize(r.discriminator) == Sanitize(q.discriminator)
  {
    DataKeyDetermines(r.namespace, r.generation, r.entity, r.discriminator, q.namespace, q.generation, q.entity,
        q.discriminator);
  }

  // ----- Resolving a generation -----

  lemma LastBumpIsPast(s: State, n: Name)
    requires CountersOk(s)
    ensures LastBump(s, n) <= s.db
  {
    assert RisingTo(History(s, n), s.db);
  }

  lemma ComposeKeepsInv(s: State, p: nat, namespace: Name, entity: Name, discriminator: string, f: Fault)
    requires Inv(s) && p in s.requests
    ensures Inv(Next(s, Compose(p, namespace, entity, discriminator, f)))
  {
    var r := s.requests[p];
    var (c, generation) := Version(r.client, s.store, namespace, f);
    var seen := if namespace in r.client.versions && namespace in r.seen then r.seen[namespace]
        else LastBump(s, namespace);
    var ref := Ref(namespace, generation, entity, discriminator, seen);
    hide Version, History, LastBump, RequestOk;
    ResolvedVersion(s, r, namespace, f);
    ComposedIsOk(s, r, c, ref);
    OnlyRequestChanges(s, p, r.(client := c, seen := r.seen[namespace := seen], refs := r.refs + {ref}));
  }

  lemma ComposedIsOk(s: State, r: Request, c: Client, ref: Ref)
    requires RequestOk(s, r) && RefOk(s, c.disabled, ref) && (r.client.disabled ==> c.disabled)
    requires c.versions == r.client.versions[ref.namespace := ref.generation]
    ensures RequestOk(s, r.(client := c, seen := r.seen[ref.namespace := ref.seen], refs := r.refs + {ref}))
  {
    hide History, At;
  }

  /** Resolving gives the current generation and the database version of its INCR, or the memo,
      or nothing to rely on once the instance is disabled. */
  lemma ResolvedVersion(s: State, r: Request, namespace: Name, f: Fault)
    requires CountersOk(s) && RequestOk(s, r)
    ensures var (c, generation) := Version(r.client, s.store, namespace, f);
            var seen := if namespace in r.client.versions && namespace in r.seen then r.seen[namespace]
                else LastBump(s, namespace);
            && ResolvedOk(s, c.disabled, namespace, generation, seen)
            && (r.client.disabled ==> c.disabled)
            && c.versions == r.client.versions[namespace := generation]
  {
    hide VersionKey;
    LastBumpIsPast(s, namespace);
    assert Lookup(s.store, VersionKey(namespace))
        == (if History(s, namespace) == [] then None else Some(Counter(|History(s, namespace)|)));
    if namespace in r.client.versions {
      assert r.client.versions == r.client.versions[namespace := r.client.versions[namespace]];
    }
  }

  // ----- Reading and keeping values -----

  lemma FetchKeepsInv(s: State, p: nat, ref: Ref, f: Fault)
    requires Inv(s) && p in s.requests
    ensures Inv(Next(s, Fetch(p, ref, f)))
  {
    hide RequestOk, GetJson;
    var r := s.requests[p];
    if ref in r.refs {
      var (c, cached) := GetJson(r.client, s.store, Key(ref), f);
      var task := if cached.Some? then Returned(ref, cached.value) else Missed(ref);
      FetchedIsOk(s, r, ref, f);
      OnlyRequestChanges(s, p, r.(client := c, task := task));
    }
  }

  lemma FetchedIsOk(s: State, r: Request, ref: Ref, f: Fault)
    requires DataOk(s) && RequestOk(s, r) && ref in r.refs
    ensures var (c, cached) := GetJson(r.client, s.store, Key(ref), f);
            RequestOk(s, r.(client := c, task := if cached.Some? then Returned(ref, cached.value) else Missed(ref)))
  {
    hide History, At, Key;
    assert RefOk(s, r.client.disabled, ref);
    if Key(ref) in s.store {
      assert CellOk(s, ref, s.store[Key(ref)]);
    }
  }

  lemma ProduceKeepsInv(s: State, p: nat)
    requires Inv(s) && p in s.requests
    ensures Inv(Next(s, Produce(p)))
  {
    var r := s.requests[p];
    if r.task.Missed? {
      hide History, At, ValueAt;
      var q := r.(task := Produced(r.task.ref, ValueAt(r.task.ref, s.db)));
      StampOfValue(r.task.ref, s.db);
      assert RequestOk(s, q);
      OnlyRequestChanges(s, p, q);
    }
  }

  lemma StampOfValue(r: Ref, stamp: nat)
    ensures ValueAt(r, stamp).stamp == stamp
  {
  }

  /** A produced value may be stored under every reference to its key. */
  lemma ProducedFitsKey(s: State, ref: Ref, value: Value, q: Ref)
    requires RefOk(s, false, ref) && FreshValue(s, ref, value) && Key(q) == Key(ref)
    ensures CellOk(s, q, Json(value))
  {
    SameKey(ref, q);
  }

  lemma StoredKeepsCells(s: State, ref: Ref, value: Value)
    requires CountersOk(s) && DataOk(s) && FreshValue(s, ref, value)
    ensures var t := s.(store := s.store[Key(ref) := Json(value)]); RefOk(s, false, ref) ==> CountersOk(t) && DataOk(t)
  {
    if RefOk(s, false, ref) {
      hide Key, VersionKey, RisingTo, RefOk, FreshValue;
      var t := s.(store := s.store[Key(ref) := Json(value)]);
      assert forall n: string :: History(t, n) == History(s, n);
      forall q: Ref | Key(q) in t.store
        ensures CellOk(t, q, t.store[Key(q)])
      {
        if Key(q) == Key(ref) {
          ProducedFitsKey(s, ref, value, q);
          CellSurvives(s, t, q, Json(value));
        } else {
          CellSurvives(s, t, q, s.store[Key(q)]);
        }
      }
      forall n: Name
        ensures Lookup(t.store, VersionKey(n)) == Lookup(s.store, VersionKey(n))
      {
        RefIsNoVersionKey(ref, n);
      }
    }
  }

  lemma AllSurvive(s: State, t: State)
    requires Extends(s, t) && RequestsOk(s) && t.requests == s.requests
    ensures RequestsOk(t)
  {
    hide RequestOk, Extends;
    forall p | p in s.requests
      ensures RequestOk(t, s.requests[p])
    {
      RequestSurvives(s, t, s.requests[p]);
    }
  }

  /** An instance after a call is the one before, or disabled; disabled it stays. */
  ghost predicate Follows(c: Client, d: Client) {
    d.versions == c.versions && (c.disabled ==> d.disabled)
  }

  lemma ReturnedIsOk(s: State, r: Request, c: Client)
    requires RequestOk(s, r) && r.task.Produced? && Follows(r.client, c)
    ensures RequestOk(s, r.(client := c, task := Returned(r.task.ref, r.task.value)))
  {
    hide History, At, ValueAt;
  }

  lemma KeepKeepsInv(s: State, p: nat, fits: bool, f: Fault)
    requires Inv(s) && p in s.requests
    ensures Inv(Next(s, Keep(p, fits, f)))
  {
    var r := s.requests[p];
    if r.task.Produced? {
      hide History, At, Key, CountersOk, DataOk, ValueAt, RequestOk;
      var ref, value := r.task.ref, r.task.value;
      var (c, store, _) := Set(r.client, s.store, Key(ref), value, fits, f);
      var t := s.(store := store);
      ProducedIsOk(s, r);
      StoredKeepsCells(s, ref, value);
      SameHistory(s, t);
      AllSurvive(s, t);
      ReturnedIsOk(t, r, c);
      OnlyRequestChanges(t, p, r.(client := c, task := Returned(ref, value)));
    }
  }

  lemma ProducedIsOk(s: State, r: Request)
    requires RequestOk(s, r) && r.task.Produced?
    ensures RefOk(s, r.client.disabled, r.task.ref) && FreshValue(s, r.task.ref, r.task.value)
  {
  }

  lemma SameHistory(s: State, t: State)
    requires t.bumps == s.bumps && t.db == s.db
    ensures Extends(s, t)
  {
  }

  // ----- Bumping -----

  function Bumped(s: State, n: Name): State {
    s.(store := s.store[VersionKey(n) := Counter(|History(s, n)| + 1)], bumps := s.bumps[n := History(s, n) + [s.db]])
  }

  lemma BumpedHistory(s: State, n: Name)
    ensures Extends(s, Bumped(s, n))
    ensures History(Bumped(s, n), n) == History(s, n) + [s.db]
    ensures forall m: string :: m != n ==> History(Bumped(s, n), m) == History(s, m)
  {
  }

  /** INCR on a version key adds one to the number of INCRs so far. */
  lemma IncrementBumps(s: State, n: Name)
    requires CountersOk(s)
    ensures Increment(s.store, VersionKey(n)) == Some(Bumped(s, n).store)
    ensures Bumped(s, n).store != s.store
  {
    hide VersionKey;
    assert Lookup(s.store, VersionKey(n)) == (if History(s, n) == [] then None else Some(Counter(|History(s, n)|)));
    assert Lookup(Bumped(s, n).store, VersionKey(n)) != Lookup(s.store, VersionKey(n));
  }

  lemma BumpedCounters(s: State, n: Name)
    requires CountersOk(s)
    ensures CountersOk(Bumped(s, n))
  {
    hide VersionKey;
    var t := Bumped(s, n);
    BumpedHistory(s, n);
    forall m: Name
      ensures Lookup(t.store, VersionKey(m)) == (if History(t, m) == [] then None else Some(Counter(|History(t, m)|)))
      ensures RisingTo(History(t, m), t.db)
    {
      VersionKeyDetermines(m, n);
      assert RisingTo(History(s, m), s.db);
      assert Lookup(s.store, VersionKey(m)) == (if History(s, m) == [] then None else Some(Counter(|History(s, m)|)));
    }
  }

  lemma BumpedData(s: State, n: Name)
    requires DataOk(s)
    ensures DataOk(Bumped(s, n))
  {
    hide VersionKey, Key, History;
    var t := Bumped(s, n);
    BumpedHistory(s, n);
    forall r: Ref | Key(r) in t.store
      ensures CellOk(t, r, t.store[Key(r)])
    {
      RefIsNoVersionKey(r, n);
      CellSurvives(s, t, r, s.store[Key(r)]);
    }
  }

  lemma BumpedInv(s: State, n: Name)
    requires Inv(s)
    ensures Inv(Bumped(s, n))
  {
    BumpedCounters(s, n);
    BumpedData(s, n);
    BumpedHistory(s, n);
    AllSurvive(s, Bumped(s, n));
  }

  lemma BumpingIsOk(s: State, r: Request, store: Store, namespace: Name, f: Fault)
    requires RequestOk(s, r)
    ensures RequestOk(s, r.(client := Bump(r.client, store, namespace, f).0))
  {
    hide History, At, VersionKey, Increment;
  }

  lemma DoBumpKeepsInv(s: State, p: nat, namespace: Name, f: Fault)
    requires Inv(s) && p in s.requests
    ensures Inv(Next(s, DoBump(p, namespace, f)))
  {
    hide History, VersionKey, Increment, RequestOk, CountersOk, DataOk;
    var r := s.requests[p];
    var (c, store, _) := Bump(r.client, s.store, namespace, f);
    IncrementBumps(s, namespace);
    if store == s.store {
      BumpingIsOk(s, r, s.store, namespace, f);
      assert s.(store := store) == s;
      OnlyRequestChanges(s, p, r.(client := c));
    } else {
      var t := Bumped(s, namespace);
      BumpedInv(s, namespace);
      BumpedHistory(s, namespace);
      RequestSurvives(s, t, r);
      BumpingIsOk(t, r, s.store, namespace, f);
      OnlyRequestChanges(t, p, r.(client := c));
    }
  }

  // ----- Deleting -----

  /** A client that fails only loses obligations. */
  lemma ClientFails(s: State, r: Request, c: Client)
    requires RequestOk(s, r) && c.versions == r.client.versions && (r.client.disabled ==> c.disabled)
    ensures RequestOk(s, r.(client := c))
  {
    hide History, At, ValueAt;
  }

  lemma DoDeleteKeepsInv(s: State, p: nat, ref: Ref, f: Fault)
    requires Inv(s) && p in s.requests
    ensures Inv(Next(s, DoDelete(p, ref, f)))
  {
    hide RequestOk, CountersOk, DataOk, Key;
    var r := s.requests[p];
    var (c, store, _) := Delete(r.client, s.store, Key(ref), f);
    var t := s.(store := store);
    ExpireKeepsInv(s, ref);
    assert t == s || t == Next(s, Expire(ref));
    ClientFails(t, r, c);
    OnlyRequestChanges(t, p, r.(client := c));
  }

  // ----- Every step, every run -----

  lemma StepKeepsInv(s: State, step: Step)
    requires Inv(s)
    ensures Inv(Next(s, step))
  {
    hide Inv, NextOf;
    match step
    case Commit => CommitKeepsInv(s);
    case Start(p, configured) => StartKeepsInv(s, p, configured);
    case Expire(ref) => ExpireKeepsInv(s, ref);
    case DoBump(p, namespace, f) => if p in s.requests { DoBumpKeepsInv(s, p, namespace, f); }
    case Compose(p, namespace, entity, discriminator, f) =>
      if p in s.requests { ComposeKeepsInv(s, p, namespace, entity, discriminator, f); }
    case Fetch(p, ref, f) => if p in s.requests { FetchKeepsInv(s, p, ref, f); }
    case Produce(p) => if p in s.requests { ProduceKeepsInv(s, p); }
    case Keep(p, fits, f) => if p in s.requests { KeepKeepsInv(s, p, fits, f); }
    case DoDelete(p, ref, f) => if p in s.requests { DoDeleteKeepsInv(s, p, ref, f); }
  }

  function Run(s: State, steps: seq<Step>): State {
    if steps == [] then s else Next(Run(s, steps[..|steps| - 1]), steps[|steps| - 1])
  }

  lemma {:induction false} RunKeepsInv(s: State, steps: seq<Step>)
    requires Inv(s)
    ensures Inv(Run(s, steps))
  {
    hide Inv, Next;
    if steps != [] {
      RunKeepsInv(s, steps[..|steps| - 1]);
      StepKeepsInv(Run(s, steps[..|steps| - 1]), steps[|steps| - 1]);
    }
  }

  /** Every value Redis holds, in every interleaving, was produced after the INCR that began the
      generation of its key, by the producer of that very key. */
  lemma StoredValuesAreOfTheirGeneration(steps: seq<Step>, r: Ref)
    ensures var s := Run(INITIAL, steps);
            Key(r) in s.store ==> CellOk(s, r, s.store[Key(r)])
  {
    InitialInv();
    RunKeepsInv(INITIAL, steps);
  }

  lemma InitialInv()
    ensures Inv(INITIAL)
  {
  }

  // ----- Freshness -----

  /** All a request holds of a namespace was resolved at database version v or later. */
  ghost predicate ResolvedSince(r: Request, n: Name, v: nat) {
    && (n in r.client.versions ==> n in r.seen && r.seen[n] >= v)
    && (forall ref :: ref in r.refs && ref.namespace == n ==> ref.seen >= v)
    && (!r.task.Idle? && r.task.ref.namespace == n ==> r.task.ref.seen >= v)
  }

  ghost predicate Watched(s: State, p: nat, n: Name, v: nat) {
    LastBump(s, n) >= v && (p in s.requests ==> ResolvedSince(s.requests[p], n, v))
  }

  lemma LastBumpGrows(s: State, t: State, n: Name)
    requires CountersOk(t) && Extends(s, t)
    ensures LastBump(s, n) <= LastBump(t, n)
  {
    var h, k := History(s, n), History(t, n);
    assert h <= k && RisingTo(k, t.db);
    if h != [] {
      assert k[|h| - 1] <= k[|k| - 1];
    }
  }

  lemma StepExtends(s: State, step: Step)
    requires Inv(s)
    ensures Extends(s, Next(s, step))
  {
    if step.DoBump? && step.p in s.requests {
      IncrementBumps(s, step.namespace);
      hide VersionKey, Increment, Inv;
      if Bump(s.requests[step.p].client, s.store, step.namespace, step.f).1 != s.store {
        BumpedHistory(s, step.namespace);
      }
    } else {
      OtherStepExtends(s, step);
    }
  }

  lemma OtherStepExtends(s: State, step: Step)
    requires !step.DoBump? || step.p !in s.requests
    ensures Extends(s, Next(s, step))
  {
    hide Version, GetJson, Set, Key, LastBump, ValueAt;
    SameBumpsOtherwise(s, step);
  }

  lemma SameBumpsOtherwise(s: State, step: Step)
    requires !step.DoBump? || step.p !in s.requests
    ensures Next(s, step).bumps == s.bumps && s.db <= Next(s, step).db
  {
    hide Version, GetJson, Set, Key, LastBump, ValueAt;
  }

  lemma StepKeepsWatch(s: State, step: Step, p: nat, n: Name, v: nat)
    requires Inv(s) && Watched(s, p, n, v)
    ensures Watched(Next(s, step), p, n, v)
  {
    StepExtends(s, step);
    StepKeepsInv(s, step);
    LastBumpGrows(s, Next(s, step), n);
    hide Inv, LastBump, Extends;
    StepKeepsResolved(s, step, p, n, v);
  }

  lemma StepKeepsResolved(s: State, step: Step, p: nat, n: Name, v: nat)
    requires Watched(s, p, n, v)
    ensures p in Next(s, step).requests ==> ResolvedSince(Next(s, step).requests[p], n, v)
  {
    hide LastBump, Key, ValueAt, VersionKey, Lookup, Increment;
  }

  lemma {:induction false} RunKeepsWatch(s: State, steps: seq<Step>, p: nat, n: Name, v: nat)
    requires Inv(s) && Watched(s, p, n, v)
    ensures Inv(Run(s, steps)) && Watched(Run(s, steps), p, n, v)
  {
    hide Inv, Next, Watched;
    if steps != [] {
      var before := steps[..|steps| - 1];
      RunKeepsWatch(s, before, p, n, v);
      StepKeepsInv(Run(s, before), steps[|steps| - 1]);
      StepKeepsWatch(Run(s, before), steps[|steps| - 1], p, n, v);
    }
  }

  /** The request holds nothing of the namespace: it has not begun, or has not resolved it. */
  ghost predicate Unresolved(s: State, p: nat, n: Name) {
    p in s.requests ==>
      var r := s.requests[p];
      && n !in r.client.versions && (forall ref :: ref in r.refs ==> ref.namespace != n)
      && (!r.task.Idle? ==> r.task.ref.namespace != n)
  }

  lemma SuccessfulBump(s: State, w: nat, n: Name, f: Fault)
    requires Inv(s) && w in s.requests && Bump(s.requests[w].client, s.store, n, f).2
    ensures LastBump(Next(s, DoBump(w, n, f)), n) == s.db
  {
    IncrementBumps(s, n);
    hide VersionKey, Inv, Increment;
    BumpedHistory(s, n);
  }

  /** A request that first resolves a namespace after a successful bump is never given data of
      that namespace produced before any commit that preceded the bump: in every interleaving,
      with Redis failing anywhere, and with slow readers filling old generations late. */
  lemma WriteThenBumpIsSeen(before: seq<Step>, w: nat, n: Name, f: Fault, after: seq<Step>, p: nat)
    requires var s := Run(INITIAL, before); w in s.requests && Bump(s.requests[w].client, s.store, n, f).2
    requires Unresolved(Next(Run(INITIAL, before), DoBump(w, n, f)), p, n)
    ensures var s := Run(INITIAL, before);
            var t := Run(Next(s, DoBump(w, n, f)), after);
            p in t.requests && t.requests[p].task.Returned? && t.requests[p].task.ref.namespace == n ==>
              var Returned(ref, value) := t.requests[p].task;
              value == ValueAt(ref, value.stamp) && value.stamp >= s.db
  {
    var s := Run(INITIAL, before);
    InitialInv();
    RunKeepsInv(INITIAL, before);
    SuccessfulBump(s, w, n, f);
    var t := Next(s, DoBump(w, n, f));
    StepKeepsInv(s, DoBump(w, n, f));
    hide Next, LastBump, Inv, ResolvedSince;
    UnresolvedIsWatched(t, p, n, s.db);
    RunKeepsWatch(t, after, p, n, s.db);
    ReturnedIsFresh(Run(t, after), p, n, s.db);
  }

  lemma UnresolvedIsWatched(s: State, p: nat, n: Name, v: nat)
    requires Unresolved(s, p, n) && LastBump(s, n) >= v
    ensures Watched(s, p, n, v)
  {
    hide LastBump;
  }

  lemma ReturnedIsFresh(s: State, p: nat, n: Name, v: nat)
    requires Inv(s) && Watched(s, p, n, v)
    ensures p in s.requests && s.requests[p].task.Returned? && s.requests[p].task.ref.namespace == n ==>
              var Returned(ref, value) := s.requests[p].task;
              value == ValueAt(ref, value.stamp) && value.stamp >= v
  {
    hide LastBump, ValueAt, At, History, CountersOk, DataOk;
    if p in s.requests {
      assert RequestOk(s, s.requests[p]);
    }
  }
}
