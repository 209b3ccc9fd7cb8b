/** A cache instance that cannot reach Redis: it is switched off for the rest of its request, no
    one notices it, and its callers get what they would get without a cache. */
module CacheFailure {
  import opened Wrappers
  import opened CacheKeys
  import opened CacheProtocol
  import opened CacheSafety

  predicate IsOf(step: Step, p: nat) {
    !step.Commit? && !step.Start? && !step.Expire? && step.p == p
  }

  predicate IsDisabled(s: State, p: nat) {
    p in s.requests && s.requests[p].client.disabled
  }

  // ----- One step -----

  /** Disabled, an instance neither reads nor writes Redis, whatever Redis holds. */
  lemma DisabledIsSilent(c: Client, store: Store, other: Store, key: string, value: Value, fits: bool, f: Fault,
      g: Fault)
    requires c.disabled
    ensures Get(c, store, key, f) == (c, None) && GetJson(c, store, key, f) == (c, None)
    ensures Set(c, store, key, value, fits, f) == (c, store, false)
    ensures Bump(c, store, key, f) == (c, store, false) && Delete(c, store, key, f) == (c, store, false)
    ensures Version(c, store, key, f) == Version(c, other, key, g)
  {
  }

  /** What a step of a disabled request makes of it does not depend on what Redis holds. */
  lemma DisabledReadsNothing(s: State, other: Store, step: Step, p: nat)
    requires IsDisabled(s, p) && IsOf(step, p)
    ensures p in Next(s, step).requests && p in Next(s.(store := other), step).requests
    ensures Next(s, step).requests[p] == Next(s.(store := other), step).requests[p]
  {
    hide At, Key, ValueAt, VersionKey, Increment, Lookup;
  }

  /** A step of a disabled request changes nothing but that request. */
  lemma DisabledWritesNothing(s: State, step: Step, p: nat)
    requires IsDisabled(s, p) && IsOf(step, p)
    ensures IsDisabled(Next(s, step), p) && AgreeBut(Next(s, step), s, p)
  {
    hide LastBump, Key, ValueAt, VersionKey, Increment, Lookup;
  }

  lemma StepKeepsDisabled(s: State, step: Step, p: nat)
    requires IsDisabled(s, p)
    ensures IsDisabled(Next(s, step), p)
  {
    hide LastBump, Key, ValueAt, VersionKey, Lookup, Increment;
  }

  // ----- Systems that differ in one request -----

  ghost predicate AgreeBut(s: State, t: State, p: nat) {
    && s.db == t.db && s.store == t.store && s.bumps == t.bumps
    && p in s.requests && p in t.requests && s.requests == t.requests[p := s.requests[p]]
  }

  lemma AgreeTwice(s: State, t: State, u: State, p: nat)
    requires AgreeBut(s, t, p) && AgreeBut(t, u, p)
    ensures AgreeBut(s, u, p)
  {
    assert t.requests[p := s.requests[p]] == u.requests[p := s.requests[p]];
  }

  /** A request's step replaces its own entry, by something the other entries have no part in. */
  lemma NextReplaces(s: State, m: map<nat, Request>, step: Step, r: Request)
    requires !step.Commit? && !step.Start? && !step.Expire?
    requires step.p in s.requests && s.requests[step.p] == r && step.p in m && m[step.p] == r
    ensures var x, y := NextOf(s, step, r), NextOf(s.(requests := m), step, r);
            && x.db == y.db && x.store == y.store && x.bumps == y.bumps && step.p in x.requests
            && x.requests == s.requests[step.p := x.requests[step.p]] && y.requests == m[step.p := x.requests[step.p]]
  {
    hide Key, ValueAt, VersionKey, Lookup, Increment, Bump, Version, GetJson, Set, Delete, At;
    assert s.requests == s.requests[step.p := r] && m == m[step.p := r];
  }

  lemma Replaced(s: map<nat, Request>, t: map<nat, Request>, p: nat, q: nat, x: Request)
    requires p in s && s == t[p := s[p]] && p != q
    ensures s[q := x] == t[q := x][p := s[p]]
  {
  }

  /** The others' steps do the same in both, and leave the request alone. */
  lemma OthersStepAlike(s: State, t: State, step: Step, p: nat)
    requires AgreeBut(s, t, p) && !IsOf(step, p)
    ensures AgreeBut(Next(s, step), Next(t, step), p) && Next(s, step).requests[p] == s.requests[p]
  {
    hide NextOf, Key;
    if step.Commit? || step.Expire? {
    } else if step.Start? {
      Replaced(s.requests, t.requests, p, if step.p == p then p + 1
          else step.p, Request(Client(step.configured, false, map[]), map[], {}, Idle));
    } else if step.p in s.requests {
      var r := s.requests[step.p];
      assert t.requests[step.p] == r && t == s.(requests := t.requests);
      NextReplaces(s, t.requests, step, r);
      Replaced(s.requests, t.requests, p, step.p, NextOf(s, step, r).requests[step.p]);
    }
  }

  predicate NoneOf(steps: seq<Step>, p: nat) {
    forall step :: step in steps ==> !IsOf(step, p)
  }

  lemma {:induction false} OthersRunAlike(s: State, t: State, steps: seq<Step>, p: nat)
    requires AgreeBut(s, t, p) && NoneOf(steps, p)
    ensures AgreeBut(Run(s, steps), Run(t, steps), p) && Run(s, steps).requests[p] == s.requests[p]
  {
    hide AgreeBut, Next, IsOf;
    if steps != [] {
      var before, last := steps[..|steps| - 1], steps[|steps| - 1];
      assert last in steps;
      OthersRunAlike(s, t, before, p);
      OthersStepAlike(Run(s, before), Run(t, before), last, p);
    } else {
      Unchanged(s, t, p);
    }
  }

  lemma Unchanged(s: State, t: State, p: nat)
    requires AgreeBut(s, t, p)
    ensures p in s.requests
  {
  }

  // ----- Runs -----

  /** The steps that are not those of a request. */
  function Without(steps: seq<Step>, p: nat): seq<Step> {
    if steps == [] then []
    else
      var last := steps[|steps| - 1];
      Without(steps[..|steps| - 1], p) + if IsOf(last, p) then [] else [last]
  }

  /** In every interleaving: with the steps of a disabled request left out, the database, Redis and
      every other request run exactly the same. */
  lemma {:induction false} DisabledIsInvisible(s: State, steps: seq<Step>, p: nat)
    requires IsDisabled(s, p)
    ensures IsDisabled(Run(s, steps), p) && AgreeBut(Run(s, steps), Run(s, Without(steps, p)), p)
  {
    hide AgreeBut, Next, IsOf, IsDisabled;
    if steps == [] {
      Itself(s, p);
    } else {
      var before, last := steps[..|steps| - 1], steps[|steps| - 1];
      DisabledIsInvisible(s, before, p);
      var t, u := Run(s, before), Run(s, Without(before, p));
      StepKeepsDisabled(t, last, p);
      if IsOf(last, p) {
        DisabledWritesNothing(t, last, p);
        AgreeTwice(Next(t, last), t, u, p);
        assert Without(steps, p) == Without(before, p);
      } else {
        OthersStepAlike(t, u, last, p);
        RunOneMore(s, Without(before, p), last);
      }
    }
  }

  lemma Itself(s: State, p: nat)
    requires IsDisabled(s, p)
    ensures AgreeBut(s, s, p)
  {
    assert s.requests == s.requests[p := s.requests[p]];
  }

  lemma RunOneMore(s: State, steps: seq<Step>, step: Step)
    ensures Run(s, steps + [step]) == Next(Run(s, steps), step)
  {
    assert (steps + [step])[..|steps|] == steps;
  }

  /** An instance that once could not reach Redis stays disabled for the rest of its request. */
  lemma DisabledForGood(s: State, steps: seq<Step>, p: nat)
    requires IsDisabled(s, p)
    ensures IsDisabled(Run(s, steps), p)
  {
    DisabledIsInvisible(s, steps, p);
  }

  /** What a request holds was produced for it at database version v or later. */
  ghost predicate ProducedSince(s: State, p: nat, v: nat) {
    && v <= s.db && p in s.requests
    && match s.requests[p].task
       case Produced(ref, value) => value == ValueAt(ref, value.stamp) && v <= value.stamp <= s.db
       case Returned(ref, value) => value == ValueAt(ref, value.stamp) && v <= value.stamp <= s.db
       case _ => true
  }

  /** In every interleaving: what a disabled request is given, its own producer produced, after
      the request asked. */
  lemma {:induction false} DisabledGetsFreshData(s: State, steps: seq<Step>, p: nat)
    requires IsDisabled(s, p) && (s.requests[p].task.Idle? || s.requests[p].task.Missed?)
    ensures ProducedSince(Run(s, steps), p, s.db)
  {
    hide Next, ProducedSince;
    if steps == [] {
      NothingProduced(s, p);
    } else {
      var before, last := steps[..|steps| - 1], steps[|steps| - 1];
      DisabledGetsFreshData(s, before, p);
      DisabledForGood(s, before, p);
      StepProducesFresh(Run(s, before), last, p, s.db);
    }
  }

  lemma NothingProduced(s: State, p: nat)
    requires p in s.requests && (s.requests[p].task.Idle? || s.requests[p].task.Missed?)
    ensures ProducedSince(s, p, s.db)
  {
  }

  lemma StepProducesFresh(s: State, step: Step, p: nat, v: nat)
    requires IsDisabled(s, p) && ProducedSince(s, p, v)
    ensures ProducedSince(Next(s, step), p, v)
  {
    hide Key, VersionKey, Lookup, Increment, LastBump, Sanitize;
  }

  // ----- One call of `rememberJson`, others in between -----

  /** A read that finds nothing, for whatever reason, with anything the others do between the steps:
      the caller gets what its producer gives. Redis and the others end up as if the request had not
      been there, but for what the final `set` does to them. */
  lemma MissServesTheProducer(s: State, p: nat, ref: Ref, f: Fault, a: seq<Step>, b: seq<Step>, fits: bool, g: Fault)
    requires p in s.requests && ref in s.requests[p].refs && NoneOf(a, p) && NoneOf(b, p)
    requires p in Next(s, Fetch(p, ref, f)).requests && Next(s, Fetch(p, ref, f)).requests[p].task == Missed(ref)
    ensures var fetched, quiet := Next(s, Fetch(p, ref, f)), Run(Run(s, a), b);
            var asked := Run(fetched, a);
            var kept := Next(Run(Next(asked, Produce(p)), b), Keep(p, fits, g));
            var value := ValueAt(ref, asked.db);
            var (c, store, _) := Set(fetched.requests[p].client, quiet.store, Key(ref), value, fits, g);
            && p in kept.requests && kept.requests[p].task == Returned(ref, value)
            && kept.requests[p].client == c && kept.store == store
            && AgreeBut(kept.(store := quiet.store), quiet, p)
  {
    hide Next, AgreeBut, NoneOf, ValueAt, Set, Key;
    var fetched := Next(s, Fetch(p, ref, f));
    FetchAgrees(s, p, ref, f);
    OthersRunAlike(fetched, s, a, p);
    var asked := Run(fetched, a);
    InBoth(asked, Run(s, a), p);
    ProducesNow(asked, p);
    var produced := Next(asked, Produce(p));
    AgreeTwice(produced, asked, Run(s, a), p);
    OthersRunAlike(produced, Run(s, a), b, p);
    var ready := Run(produced, b);
    InBoth(ready, Run(Run(s, a), b), p);
    KeepSets(ready, p, fits, g);
    AgreeTwice(Next(ready, Keep(p, fits, g)).(store := ready.store), ready, Run(Run(s, a), b), p);
  }

  lemma InBoth(s: State, t: State, p: nat)
    requires AgreeBut(s, t, p)
    ensures p in s.requests && p in t.requests && s.store == t.store
  {
  }

  lemma FetchAgrees(s: State, p: nat, ref: Ref, f: Fault)
    requires p in s.requests && ref in s.requests[p].refs
    ensures AgreeBut(Next(s, Fetch(p, ref, f)), s, p)
  {
    hide Key, GetJson;
  }

  lemma ProducesNow(s: State, p: nat)
    requires p in s.requests && s.requests[p].task.Missed?
    ensures var t, r := Next(s, Produce(p)), s.requests[p];
            && AgreeBut(t, s, p)
            && t.requests[p] == r.(task := Produced(r.task.ref, ValueAt(r.task.ref, s.db)))
  {
    hide ValueAt;
  }

  lemma KeepSets(s: State, p: nat, fits: bool, g: Fault)
    requires p in s.requests && s.requests[p].task.Produced?
    ensures var t, r := Next(s, Keep(p, fits, g)), s.requests[p];
            var (c, store, _) := Set(r.client, s.store, Key(r.task.ref), r.task.value, fits, g);
            && p in t.requests && t.requests[p].task == Returned(r.task.ref, r.task.value)
            && t.requests[p].client == c && t.store == store && AgreeBut(t.(store := s.store), s, p)
  {
    hide Key, Set;
  }

  /** A read that fails, or of an instance already disabled: the caller gets its producer's value, and
      Redis and the others never notice. */
  lemma FailureServesTheProducer(s: State, p: nat, ref: Ref, f: Fault, a: seq<Step>, b: seq<Step>, fits: bool, g: Fault)
    requires p in s.requests && ref in s.requests[p].refs && (s.requests[p].client.disabled || !f.Works?)
    requires NoneOf(a, p) && NoneOf(b, p)
    ensures var asked := Run(Next(s, Fetch(p, ref, f)), a);
            var kept := Next(Run(Next(asked, Produce(p)), b), Keep(p, fits, g));
            && IsDisabled(kept, p) && kept.requests[p].task == Returned(ref, ValueAt(ref, asked.db))
            && AgreeBut(kept, Run(Run(s, a), b), p)
  {
    hide Next, NoneOf, ValueAt, Key, Run;
    FailedFetch(s, p, ref, f);
    MissServesTheProducer(s, p, ref, f, a, b, fits, g);
    var kept := Next(Run(Next(Run(Next(s, Fetch(p, ref, f)), a), Produce(p)), b), Keep(p, fits, g));
    assert kept == kept.(store := Run(Run(s, a), b).store);
  }

  lemma FailedFetch(s: State, p: nat, ref: Ref, f: Fault)
    requires p in s.requests && ref in s.requests[p].refs && (s.requests[p].client.disabled || !f.Works?)
    ensures IsDisabled(Next(s, Fetch(p, ref, f)), p)
    ensures Next(s, Fetch(p, ref, f)).requests[p].task == Missed(ref)
  {
    hide Key, Lookup;
  }

  /** A read that works and finds nothing, and a write that fails: the caller gets its producer's
      value all the same, the instance is disabled, and the value is in Redis exactly if the write
      took effect before it failed. */
  lemma FailedWriteServesTheProducer(s: State, p: nat, ref: Ref, a: seq<Step>, b: seq<Step>, g: Fault)
    requires p in s.requests && ref in s.requests[p].refs && NoneOf(a, p) && NoneOf(b, p) && !g.Works?
    requires var r := Next(s, Fetch(p, ref, Works)).requests;
             p in r && r[p].task == Missed(ref) && !r[p].client.disabled
    ensures var asked, quiet := Run(Next(s, Fetch(p, ref, Works)), a), Run(Run(s, a), b);
            var kept := Next(Run(Next(asked, Produce(p)), b), Keep(p, true, g));
            var value := ValueAt(ref, asked.db);
            && IsDisabled(kept, p) && kept.requests[p].task == Returned(ref, value)
            && kept.store == (if g.Lost? then quiet.store else quiet.store[Key(ref) := Json(value)])
            && AgreeBut(kept.(store := quiet.store), quiet, p)
  {
    hide Next, AgreeBut, NoneOf, ValueAt, Key, Run;
    FetchedIsConfigured(s, p, ref);
    MissServesTheProducer(s, p, ref, Works, a, b, true, g);
  }

  /** After asking for a connection, an instance that is not disabled has one. */
  lemma FetchedIsConfigured(s: State, p: nat, ref: Ref)
    requires p in s.requests && ref in s.requests[p].refs && p in Next(s, Fetch(p, ref, Works)).requests
    ensures var c := Next(s, Fetch(p, ref, Works)).requests[p].client; c.disabled || c.configured
  {
    hide Key, Lookup;
  }
}
