/** That a hit hits: what one request keeps is what another is given under the same key, until a
    step overwrites, deletes or expires that key. */
module CacheServing {
  import opened Wrappers
  import opened CacheKeys
  import opened CacheProtocol
  import opened CacheSafety

  predicate Connected(s: State, p: nat) {
    p in s.requests && s.requests[p].client.configured && !s.requests[p].client.disabled
  }

  // ----- One read -----

  /** A connected request whose read works is given the array Redis holds, or goes to its producer. */
  lemma ReadServes(s: State, q: nat, ref: Ref)
    requires Connected(s, q) && ref in s.requests[q].refs
    ensures var t := Next(s, Fetch(q, ref, Works));
            && t.store == s.store && Connected(t, q)
            && t.requests[q].task == if Key(ref) in s.store && s.store[Key(ref)].Json?
                 then Returned(ref, s.store[Key(ref)].value) else Missed(ref)
  {
    hide Key;
  }

  /** What is expired or deleted is asked of the producer again. */
  lemma GoneIsMissed(s: State, step: Step, q: nat, ref: Ref)
    requires step == Expire(ref) || (step.DoDelete? && Connected(s, step.p) && step.ref == ref && step.f.Works?)
    requires Connected(s, q) && ref in s.requests[q].refs
    ensures Next(Next(s, step), Fetch(q, ref, Works)).requests[q].task == Missed(ref)
  {
    hide Key;
    ReadServes(Next(s, step), q, ref);
  }

  /** What a producer makes after a commit holds that commit. */
  lemma CommitIsProduced(s: State, p: nat)
    requires p in s.requests && s.requests[p].task.Missed?
    ensures var before, after := Next(s, Produce(p)), Next(Next(s, Commit), Produce(p));
            && before.requests[p].task.value.stamp == s.db && after.requests[p].task.value.stamp == s.db + 1
            && after.store == s.store
  {
  }

  /** A request begins with a connection if there is one to be had, with nothing resolved; a second one
      of its name is none. */
  lemma RequestBegins(s: State, p: nat, configured: bool)
    ensures var t := Next(s, Start(p, configured));
            if p in s.requests then t == s
            else
              && (Connected(t, p) <==> configured) && t.requests[p].client.versions == map[]
              && t.requests[p].refs == {} && t.requests[p].task == Idle
              && t.db == s.db && t.store == s.store && t.requests - {p} == s.requests
  {
  }

  // ----- What leaves a key alone -----

  /** Whether a step overwrites, deletes or expires a key. */
  predicate Touches(s: State, step: Step, key: string) {
    match step
    case Keep(p, fits, f) =>
      Connected(s, p) && s.requests[p].task.Produced? && Key(s.requests[p].task.ref) == key && fits && !f.Lost?
    case DoDelete(p, ref, f) => Connected(s, p) && Key(ref) == key && !f.Lost?
    case Expire(ref) => Key(ref) == key
    case _ => false
  }

  lemma SetLeaves(c: Client, store: Store, key: string, value: Value, fits: bool, f: Fault, other: string)
    requires key != other || !fits || f.Lost? || c.disabled || !c.configured
    ensures Lookup(Set(c, store, key, value, fits, f).1, other) == Lookup(store, other)
  {
  }

  lemma DeleteLeaves(c: Client, store: Store, key: string, f: Fault, other: string)
    requires key != other || f.Lost? || c.disabled || !c.configured
    ensures Lookup(Delete(c, store, key, f).1, other) == Lookup(store, other)
  {
  }

  lemma BumpLeaves(c: Client, store: Store, n: Name, f: Fault, other: string)
    requires VersionKey(n) != other
    ensures Lookup(Bump(c, store, n, f).1, other) == Lookup(store, other)
  {
    hide VersionKey;
  }

  /** A step that touches no key and bumps no namespace of this cell leaves the cell as it is. */
  lemma StepLeaves(s: State, step: Step, key: string)
    requires !Touches(s, step, key) && (step.DoBump? ==> VersionKey(step.namespace) != key)
    ensures Lookup(Next(s, step).store, key) == Lookup(s.store, key)
  {
    hide Key, VersionKey, Lookup, Bump, Set, Delete, GetJson, Version, LastBump, ValueAt;
    match step
    case Expire(ref) => ExpireLeaves(s, ref, key);
    case DoBump(p, n, f) => if p in s.requests { BumpLeaves(s.requests[p].client, s.store, n, f, key); }
    case DoDelete(p, ref, f) =>
      if p in s.requests { DeleteLeaves(s.requests[p].client, s.store, Key(ref), f, key); }
    case Keep(p, fits, f) =>
      if p in s.requests && s.requests[p].task.Produced? {
        var Produced(ref, value) := s.requests[p].task;
        SetLeaves(s.requests[p].client, s.store, Key(ref), value, fits, f, key);
      }
    case _ =>
  }

  lemma ExpireLeaves(s: State, ref: Ref, key: string)
    requires Key(ref) != key
    ensures Lookup(Next(s, Expire(ref)).store, key) == Lookup(s.store, key)
  {
    hide Key;
  }

  // ----- Runs -----

  predicate Untouched(s: State, steps: seq<Step>, key: string) {
    if steps == [] then true
    else
      var before := steps[..|steps| - 1];
      Untouched(s, before, key) && !Touches(Run(s, before), steps[|steps| - 1], key)
  }

  /** The cell of a data key survives every run that does not touch it: no counter is in its place. */
  lemma {:induction false} RunLeaves(s: State, steps: seq<Step>, ref: Ref)
    requires Untouched(s, steps, Key(ref))
    ensures Lookup(Run(s, steps).store, Key(ref)) == Lookup(s.store, Key(ref))
  {
    hide Next, Key, Lookup, VersionKey, Touches;
    if steps != [] {
      var before, last := steps[..|steps| - 1], steps[|steps| - 1];
      RunLeaves(s, before, ref);
      if last.DoBump? {
        RefIsNoVersionKey(ref, last.namespace);
      }
      StepLeaves(Run(s, before), last, Key(ref));
    }
  }

  lemma RefIsNoVersionKey(ref: Ref, n: Name)
    ensures Key(ref) != VersionKey(n)
  {
    hide DataKey, VersionKey;
    DataKeyIsNoVersionKey(ref.namespace, ref.generation, ref.entity, ref.discriminator, n);
  }

  /** A value kept by a call that works is what every connected request is given under the same key,
      after any steps of anyone that do not touch the key. */
  lemma KeptIsServed(s: State, p: nat, steps: seq<Step>, q: nat, ref: Ref)
    requires Connected(s, p) && s.requests[p].task.Produced? && Key(ref) == Key(s.requests[p].task.ref)
    requires var kept := Next(s, Keep(p, true, Works));
             Untouched(kept, steps, Key(ref)) && Connected(Run(kept, steps), q)
             && ref in Run(kept, steps).requests[q].refs
    ensures var t := Run(Next(s, Keep(p, true, Works)), steps);
            Next(t, Fetch(q, ref, Works)).requests[q].task == Returned(ref, s.requests[p].task.value)
  {
    hide Run, Key, Untouched;
    var kept := Next(s, Keep(p, true, Works));
    KeepStores(s, p);
    hide Next;
    RunLeaves(kept, steps, ref);
    ReadServes(Run(kept, steps), q, ref);
  }

  lemma KeepStores(s: State, p: nat)
    requires Connected(s, p) && s.requests[p].task.Produced?
    ensures var Produced(ref, value) := s.requests[p].task;
            var t := Next(s, Keep(p, true, Works));
            && t.store == s.store[Key(ref) := Json(value)] && Connected(t, p)
            && t.requests[p].task == Returned(ref, value)
  {
    hide Key;
  }

  // ----- From one request to the next -----

  /** The generation a namespace is at: what its counter says, and 0 before the first bump. */
  function Generation(s: State, n: Name): nat {
    var cell := Lookup(s.store, VersionKey(n));
    if cell.Some? && cell.value.Counter? then cell.value.n else 0
  }

  predicate NoBumpOf(steps: seq<Step>, n: Name) {
    forall step :: step in steps && step.DoBump? ==> step.namespace != n
  }

  lemma NoKeyTouchesCounters(s: State, step: Step, n: Name)
    ensures !Touches(s, step, VersionKey(n))
  {
    hide Key, VersionKey;
    match step
    case Keep(p, fits, f) =>
      if p in s.requests && s.requests[p].task.Produced? { RefIsNoVersionKey(s.requests[p].task.ref, n); }
    case DoDelete(p, ref, f) => RefIsNoVersionKey(ref, n);
    case Expire(ref) => RefIsNoVersionKey(ref, n);
    case _ =>
  }

  lemma {:induction false} GenerationStays(s: State, steps: seq<Step>, n: Name)
    requires NoBumpOf(steps, n)
    ensures Generation(Run(s, steps), n) == Generation(s, n)
  {
    hide Next, VersionKey, Lookup, Touches;
    if steps != [] {
      var before, last := steps[..|steps| - 1], steps[|steps| - 1];
      assert last in steps;
      GenerationStays(s, before, n);
      NoKeyTouchesCounters(Run(s, before), last, n);
      if last.DoBump? {
        VersionKeyDetermines(last.namespace, n);
      }
      StepLeaves(Run(s, before), last, VersionKey(n));
    }
  }

  /** A connected request that has not yet resolved the namespace composes the key of its current
      generation. */
  lemma ComposeResolves(s: State, q: nat, n: Name, entity: Name, discriminator: string)
    requires Connected(s, q) && n !in s.requests[q].client.versions
    ensures var t := Next(s, Compose(q, n, entity, discriminator, Works));
            var ref := Ref(n, Generation(s, n), entity, discriminator, LastBump(s, n));
            Connected(t, q) && ref in t.requests[q].refs && t.store == s.store
  {
    hide VersionKey, LastBump;
  }

  /** A bump that works takes the namespace to its next generation, and its request resolves it anew. */
  lemma BumpMovesOn(s: State, p: nat, n: Name)
    requires Connected(s, p) && (Lookup(s.store, VersionKey(n)).Some? ==> s.store[VersionKey(n)].Counter?)
    ensures var t := Next(s, DoBump(p, n, Works));
            Generation(t, n) == Generation(s, n) + 1 && Connected(t, p) && n !in t.requests[p].client.versions
  {
    hide VersionKey;
  }

  /** The point of the cache. A request keeps what it produced under a key of the current generation;
      whoever asks later, for the same entity and discriminator and before the namespace is bumped
      or the key touched, is given that value without asking a producer. */
  lemma NextRequestIsServed(s: State, p: nat, steps: seq<Step>, q: nat, discriminator: string)
    requires Connected(s, p) && s.requests[p].task.Produced?
    requires var ref := s.requests[p].task.ref;
             var kept := Next(s, Keep(p, true, Works));
             && ref.generation == Generation(s, ref.namespace)
             && Untouched(kept, steps, Key(ref)) && NoBumpOf(steps, ref.namespace)
             && Connected(Run(kept, steps), q) && ref.namespace !in Run(kept, steps).requests[q].client.versions
             && Sanitize(discriminator) == Sanitize(ref.discriminator)
    ensures var Produced(ref, value) := s.requests[p].task;
            var t := Run(Next(s, Keep(p, true, Works)), steps);
            var asked := Next(t, Compose(q, ref.namespace, ref.entity, discriminator, Works));
            var mine := Ref(ref.namespace, ref.generation, ref.entity, discriminator, LastBump(t, ref.namespace));
            mine in asked.requests[q].refs
            && Next(asked, Fetch(q, mine, Works)).requests[q].task == Returned(mine, value)
  {
    hide Next, Run, Untouched, NoBumpOf, Touches, LastBump, VersionKey, Sanitize, Lookup;
    var ref, kept := s.requests[p].task.ref, Next(s, Keep(p, true, Works));
    var t := Run(kept, steps);
    KeepStores(s, p);
    KeepKeepsGeneration(s, p, ref.namespace);
    GenerationStays(kept, steps, ref.namespace);
    ComposeResolves(t, q, ref.namespace, ref.entity, discriminator);
    RunLeaves(kept, steps, ref);
    StoredIsFound(kept, t, Key(ref));
    var asked := Next(t, Compose(q, ref.namespace, ref.entity, discriminator, Works));
    ReadServes(asked, q, Ref(ref.namespace, ref.generation, ref.entity, discriminator, LastBump(t, ref.namespace)));
  }

  lemma KeepKeepsGeneration(s: State, p: nat, n: Name)
    ensures Generation(Next(s, Keep(p, true, Works)), n) == Generation(s, n)
  {
    hide Next, VersionKey, Lookup, Touches;
    NoKeyTouchesCounters(s, Keep(p, true, Works), n);
    StepLeaves(s, Keep(p, true, Works), VersionKey(n));
  }

  lemma StoredIsFound(s: State, t: State, key: string)
    requires Lookup(t.store, key) == Lookup(s.store, key) && key in s.store
    ensures key in t.store && t.store[key] == s.store[key]
  {
  }
}
