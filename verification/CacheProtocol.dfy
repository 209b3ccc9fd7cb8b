/** Requests that share one Redis through CacheRedis, interleaved call by call. Redis may refuse
    any call, before or after carrying it out; data keys may expire at any time. */
module CacheProtocol {
  import opened Wrappers
  import opened CacheKeys

  type Name = s: string | ColonFree(s)

  /** What the producer behind one key computes from the database after `stamp` commits. */
  datatype Value = Value(namespace: string, entity: string, kept: string, stamp: nat)

  datatype Cell = Counter(n: nat) | Json(value: Value)

  type Store = map<string, Cell>

  /** What becomes of one Redis call: it works, or it throws without or after taking effect. */
  datatype Fault = Works | Lost | LostAfter

  const VERSION_FALLBACK := 0

  // ----- One instance of CacheRedis: one call to Redis at most -----

  datatype Client = Client(configured: bool, disabled: bool, versions: map<string, nat>)

  /** `client()`: the client after asking, and whether there is a connection. */
  function Acquire(c: Client): (Client, bool) {
    if c.disabled then (c, false)
    else if c.configured then (c, true)
    else (c.(disabled := true), false)
  }

  function Fail(c: Client): Client {
    c.(disabled := true)
  }

  function Lookup(store: Store, key: string): Option<Cell> {
    if key in store then Some(store[key]) else None
  }

  function Get(c: Client, store: Store, key: string, f: Fault): (Client, Option<Cell>) {
    var (a, available) := Acquire(c);
    if !available then (a, None)
    else if f.Works? then (a, Lookup(store, key))
    else (Fail(a), None)
  }

  /** The arrays among the cells; a counter decodes to a number, which is no array. */
  function GetJson(c: Client, store: Store, key: string, f: Fault): (Client, Option<Value>) {
    var (a, cell) := Get(c, store, key, f);
    (a, if cell.Some? && cell.value.Json? then Some(cell.value.value) else None)
  }

  /** `set` of a value that has a positive lifetime and fits, or of one that does not. */
  function Set(c: Client, store: Store, key: string, value: Value, fits: bool, f: Fault): (Client, Store, bool) {
    if !fits then (c, store, false)
    else
      var (a, available) := Acquire(c);
      if !available then (a, store, false)
      else if f.Works? then (a, store[key := Json(value)], true)
      else (Fail(a), if f.LostAfter? then store[key := Json(value)] else store, false)
  }

  function Version(c: Client, store: Store, namespace: string, f: Fault): (Client, nat) {
    if namespace in c.versions then (c, c.versions[namespace])
    else
      var (a, cell) := Get(c, store, VersionKey(namespace), f);
      var version := if cell.Some? && cell.value.Counter? then cell.value.n else VERSION_FALLBACK;
      (a.(versions := a.versions[namespace := version]), version)
  }

  /** INCR: None if the cell holds no number. */
  function Increment(store: Store, key: string): Option<Store> {
    if key !in store then Some(store[key := Counter(1)])
    else if store[key].Counter? then Some(store[key := Counter(store[key].n + 1)])
    else None
  }

  function Bump(c: Client, store: Store, namespace: string, f: Fault): (Client, Store, bool) {
    var (a, available) := Acquire(c);
    var incremented := Increment(store, VersionKey(namespace));
    if !available then (a, store, false)
    else if f.Works? && incremented.Some? then (a.(versions := a.versions - {namespace}), incremented.value, true)
    else (Fail(a), if f.LostAfter? && incremented.Some? then incremented.value else store, false)
  }

  function Delete(c: Client, store: Store, key: string, f: Fault): (Client, Store, bool) {
    var (a, available) := Acquire(c);
    if !available then (a, store, false)
    else if f.Works? then (a, store - {key}, key in store)
    else (Fail(a), if f.LostAfter? then store - {key} else store, false)
  }

  // ----- Requests and the system -----

  /** A key composed by `namespaced`; `seen` records for the proofs the database version at the
      last bump when its generation was resolved. */
  datatype Ref = Ref(namespace: Name, generation: nat, entity: Name, discriminator: string, seen: nat)

  function Key(r: Ref): string {
    DataKey(r.namespace, r.generation, r.entity, r.discriminator)
  }

  function ValueAt(r: Ref, stamp: nat): Value {
    Value(r.namespace, r.entity, Sanitize(r.discriminator), stamp)
  }

  /** Where a request stands in `rememberJson`. */
  datatype Task = Idle | Missed(ref: Ref) | Produced(ref: Ref, value: Value) | Returned(ref: Ref, value: Value)

  datatype Request = Request(client: Client, seen: map<string, nat>, refs: set<Ref>, task: Task)

  /** db counts commits; bumps records for the proofs the database version at every INCR. */
  datatype State = State(db: nat, store: Store, bumps: map<string, seq<nat>>, requests: map<nat, Request>)

  const INITIAL := State(0, map[], map[], map[])

  datatype Step =
    | Commit
    | Start(p: nat, configured: bool)
    | DoBump(p: nat, namespace: Name, f: Fault)
    | Compose(p: nat, namespace: Name, entity: Name, discriminator: string, f: Fault)
    | Fetch(p: nat, ref: Ref, f: Fault)
    | Produce(p: nat)
    | Keep(p: nat, fits: bool, f: Fault)
    | DoDelete(p: nat, ref: Ref, f: Fault)
    | Expire(ref: Ref)

  function History(s: State, namespace: string): seq<nat> {
    if namespace in s.bumps then s.bumps[namespace] else []
  }

  /** The database version at the g-th INCR of a namespace. */
  function At(history: seq<nat>, g: nat): nat {
    if 0 < g <= |history| then history[g - 1] else 0
  }

  function LastBump(s: State, namespace: string): nat {
    At(History(s, namespace), |History(s, namespace)|)
  }

  function WithRequest(s: State, p: nat, r: Request): State {
    s.(requests := s.requests[p := r])
  }

  /** The system after a step; a step that is not enabled changes nothing. */
  function Next(s: State, step: Step): State {
    match step
    case Commit => s.(db := s.db + 1)
    case Start(p, configured) =>
      if p in s.requests then s
      else WithRequest(s, p, Request(Client(configured, false, map[]), map[], {}, Idle))
    case Expire(ref) => s.(store := s.store - {Key(ref)})
    case _ => if step.p in s.requests then NextOf(s, step, s.requests[step.p]) else s
  }

  function NextOf(s: State, step: Step, r: Request): State
    requires !step.Commit? && !step.Start? && !step.Expire?
  {
    match step
    case DoBump(p, namespace, f) =>
      var (c, store, _) := Bump(r.client, s.store, namespace, f);
      var bumps := if store == s.store then s.bumps else s.bumps[namespace := History(s, namespace) + [s.db]];
      WithRequest(s.(store := store, bumps := bumps), p, r.(client := c))
    case Compose(p, namespace, entity, discriminator, f) =>
      var (c, generation) := Version(r.client, s.store, namespace, f);
      var seen := if namespace in r.client.versions && namespace in r.seen then r.seen[namespace]
          else LastBump(s, namespace);
      var ref := Ref(namespace, generation, entity, discriminator, seen);
      WithRequest(s, p, r.(client := c, seen := r.seen[namespace := seen], refs := r.refs + {ref}))
    case Fetch(p, ref, f) =>
      if ref !in r.refs then s
      else
        var (c, cached) := GetJson(r.client, s.store, Key(ref), f);
        WithRequest(s, p, r.(client := c, task := if cached.Some? then Returned(ref, cached.value) else Missed(ref)))
    case Produce(p) =>
      if !r.task.Missed? then s
      else WithRequest(s, p, r.(task := Produced(r.task.ref, ValueAt(r.task.ref, s.db))))
    case Keep(p, fits, f) =>
      if !r.task.Produced? then s
      else
        var (c, store, _) := Set(r.client, s.store, Key(r.task.ref), r.task.value, fits, f);
        WithRequest(s.(store := store), p, r.(client := c, task := Returned(r.task.ref, r.task.value)))
    case DoDelete(p, ref, f) =>
      var (c, store, _) := Delete(r.client, s.store, Key(ref), f);
      WithRequest(s.(store := store), p, r.(client := c))
  }
}
