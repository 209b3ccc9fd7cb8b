/** The CacheRedis class with its fields, calling a Redis that may throw at any call. Every method
    does what the function of the same name in CacheProtocol says. */
module CacheRedis {
  import opened Wrappers
  import CacheKeys
  import P = CacheProtocol

  const MAX_PAYLOAD_BYTES := 262144
  const JITTER_PERCENT := 10

  /** A Redis server, and what becomes of the calls it is sent, in order. */
  class Redis {
    const faults: nat -> P.Fault
    var store: P.Store
    /** The lifetimes given to keys. */
    var ttls: map<string, int>
    var calls: nat

    constructor (faults: nat -> P.Fault)
      ensures store == map[] && ttls == map[] && calls == 0 && this.faults == faults
    {
      this.faults := faults;
      store, ttls := map[], map[];
      calls := 0;
    }

    method Get(key: string) returns (threw: bool, cell: Option<P.Cell>)
      modifies this`calls
      ensures calls == old(calls) + 1
      ensures threw == !faults(old(calls)).Works?
      ensures cell == if !threw && key in store then Some(store[key]) else None
    {
      threw := !faults(calls).Works?;
      cell := if threw then None else P.Lookup(store, key);
      calls := calls + 1;
    }

    method SetEx(key: string, ttl: int, cell: P.Cell) returns (threw: bool)
      requires ttl >= 1
      modifies this`calls, this`store, this`ttls
      ensures calls == old(calls) + 1 && threw == !faults(old(calls)).Works?
      ensures store == if faults(old(calls)).Lost? then old(store) else old(store)[key := cell]
      ensures ttls == if faults(old(calls)).Lost? then old(ttls) else old(ttls)[key := ttl]
    {
      threw := !faults(calls).Works?;
      if !faults(calls).Lost? {
        store, ttls := store[key := cell], ttls[key := ttl];
      }
      calls := calls + 1;
    }

    method Incr(key: string) returns (threw: bool)
      modifies this`calls, this`store
      ensures calls == old(calls) + 1
      ensures var r := P.Increment(old(store), key);
              && threw == (!faults(old(calls)).Works? || r.None?)
              && store == if faults(old(calls)).Lost? || r.None? then old(store) else r.value
      ensures !faults(old(calls)).Lost? && key !in old(store) ==> store == old(store)[key := P.Counter(1)]
      ensures forall n: nat | !faults(old(calls)).Lost? && key in old(store) && old(store)[key] == P.Counter(n) ::
          store == old(store)[key := P.Counter(n + 1)]
    {
      var r := P.Increment(store, key);
      threw := !faults(calls).Works? || r.None?;
      if !faults(calls).Lost? && r.Some? {
        store := r.value;
      }
      calls := calls + 1;
    }

    method Del(key: string) returns (threw: bool, removed: bool)
      modifies this`calls, this`store
      ensures calls == old(calls) + 1 && threw == !faults(old(calls)).Works?
      ensures store == if faults(old(calls)).Lost? then old(store) else old(store) - {key}
      ensures removed == (!threw && key in old(store))
    {
      threw := !faults(calls).Works?;
      removed := !threw && key in store;
      if !faults(calls).Lost? {
        store := store - {key};
      }
      calls := calls + 1;
    }
  }

  /** What the caller's producer gives: an array, its JSON size and whether it is empty; or
      something that is no array. */
  datatype Producer = Array(value: P.Value, empty: bool, size: nat) | NoArray

  /** The nominal lifetime moved by `pick`, a random number of at most the jitter. */
  function Jitter(expire: int): (j: int)
    ensures expire <= 10 ==> j == 1
    ensures expire > 10 ==> expire <= 10 * j < expire + 10
  {
    var tenth := (expire * JITTER_PERCENT + 99) / 100;
    if tenth < 1 then 1 else tenth
  }

  /** Lifetimes stay positive and within the jitter. */
  function Ttl(expire: int, pick: int): (ttl: int)
    requires -Jitter(expire) <= pick <= Jitter(expire)
    ensures ttl >= 1
    ensures ttl == if expire > 1 then expire + pick else 1
    ensures expire > 1 ==> 10 * (ttl - expire) < expire + 10 && 10 * (expire - ttl) < expire + 10
  {
    if expire <= 1 then 1 else if expire + pick < 1 then 1 else expire + pick
  }

  class CacheRedis {
    const server: Redis
    /** Whether the environment names a host and a port. */
    const configured: bool
    /** Whether there is a connection to be had: one was passed in, or one can be built. */
    const reachable: bool
    var client: Redis?
    var disabled: bool
    var versions: map<string, nat>

    ghost predicate Valid()
      reads this
    {
      !disabled ==> if client == null then reachable == configured else reachable && client == server
    }

    ghost function Abs(): P.Client
      reads this
    {
      P.Client(reachable, disabled, versions)
    }

    /** The fate of the next call to Redis. */
    ghost function NextFault(): P.Fault
      reads server
    {
      server.faults(server.calls)
    }

    /** Whether the next call has a connection to go through. */
    ghost predicate Connected()
      reads this
    {
      reachable && !disabled
    }

    /** Whether the server holds an array under a key. */
    ghost predicate Holds(key: string)
      reads server
    {
      key in server.store && server.store[key].Json?
    }

    constructor (server: Redis, injected: bool, configured: bool)
      ensures Valid() && this.server == server && Abs() == P.Client(injected || configured, false, map[])
    {
      this.server, this.configured, this.reachable := server, configured, injected || configured;
      client := if injected then server else null;
      disabled, versions := false, map[];
    }

    method Client() returns (c: Redis?)
      requires Valid()
      modifies this`disabled, this`client
      ensures Valid() && c == (if old(Connected()) then server else null)
      ensures Abs() == P.Acquire(old(Abs())).0
    {
      if disabled {
        return null;
      }
      if client != null {
        return client;
      }
      if !configured {
        disabled := true;
        return null;
      }
      client := server;
      return client;
    }

    method Fail()
      modifies this`disabled, this`client
      ensures Valid() && Abs() == P.Fail(old(Abs()))
    {
      disabled := true;
      client := null;
    }

    method Get(key: string) returns (cell: Option<P.Cell>)
      requires Valid()
      modifies this`disabled, this`client, server`calls
      ensures Valid() && (Abs(), cell) == P.Get(old(Abs()), server.store, key, old(NextFault()))
      ensures server.calls == old(server.calls) + if old(Connected()) then 1 else 0
      ensures cell == if old(Connected() && NextFault().Works?) && key in server.store then Some(server.store[key])
          else None
      ensures Connected() == old(Connected() && NextFault().Works?)
    {
      var c := Client();
      if c == null {
        return None;
      }
      var threw;
      threw, cell := c.Get(key);
      if threw {
        Fail();
        cell := None;
      }
    }

    method GetJson(key: string) returns (value: Option<P.Value>)
      requires Valid()
      modifies this`disabled, this`client, server`calls
      ensures Valid() && (Abs(), value) == P.GetJson(old(Abs()), server.store, key, old(NextFault()))
      ensures server.calls == old(server.calls) + if old(Connected()) then 1 else 0
      ensures value == if old(Connected() && NextFault().Works? && Holds(key)) then Some(server.store[key].value)
          else None
      ensures Connected() == old(Connected() && NextFault().Works?)
    {
      var cell := Get(key);
      value := if cell.Some? && cell.value.Json? then Some(cell.value.value) else None;
    }

    method Set(key: string, value: P.Value, size: nat, expire: int, pick: int) returns (stored: bool)
      requires Valid() && -Jitter(expire) <= pick <= Jitter(expire)
      modifies this`disabled, this`client, server`calls, server`store, server`ttls
      ensures Valid()
      ensures (Abs(), server.store, stored)
           == P.Set(old(Abs()), old(server.store), key, value, expire > 0
               && size <= MAX_PAYLOAD_BYTES, old(NextFault()))
      ensures var sent := old(Connected()) && expire > 0 && size <= 262144;
              && server.calls == old(server.calls) + (if sent then 1 else 0)
              && stored == (sent && old(NextFault()).Works?)
              && server.store == (if sent && !old(NextFault()).Lost? then old(server.store)[key := P.Json(value)]
                 else old(server.store))
              && server.ttls == if sent && !old(NextFault()).Lost? then old(server.ttls)[key := Ttl(expire, pick)]
                 else old(server.ttls)
      ensures Connected() == old(Connected()) || expire <= 0 || size > 262144 || !old(NextFault()).Works?
    {
      if expire <= 0 || size > MAX_PAYLOAD_BYTES {
        return false;
      }
      var c := Client();
      if c == null {
        return false;
      }
      var threw := c.SetEx(key, Ttl(expire, pick), P.Json(value));
      if threw {
        Fail();
      }
      stored := !threw;
    }

    /** Get or produce and keep; None where the source throws because the producer gave no array. */
    method RememberJson(key: string, expire: int, pick: int, producer: Producer, cacheEmpty: bool)
        returns (r: Option<P.Value>)
      requires Valid() && -Jitter(expire) <= pick <= Jitter(expire)
      modifies this`disabled, this`client, server`calls, server`store, server`ttls
      ensures Valid()
      ensures var (asked, cached) := P.GetJson(old(Abs()), old(server.store), key, old(NextFault()));
              var second := server.faults(old(server.calls) + if P.Acquire(old(Abs())).1 then 1 else 0);
              if cached.Some? then r == cached && Abs() == asked && server.store == old(server.store)
              else if producer.NoArray? then r == None && Abs() == asked && server.store == old(server.store)
              else
                var fits := (!producer.empty || cacheEmpty) && expire > 0 && producer.size <= MAX_PAYLOAD_BYTES;
                var (c, store, _) := P.Set(asked, old(server.store), key, producer.value, fits, second);
                r == Some(producer.value) && Abs() == c && server.store == store
      // A hit: what the server holds is served, with a single call.
      ensures old(Connected() && NextFault().Works? && Holds(key)) ==>
          r == Some(old(server.store)[key].value) && server.store == old(server.store) && Connected()
          && server.ttls == old(server.ttls) && server.calls == old(server.calls) + 1
      // Anything else: the producer's array is served.
      ensures !old(Connected() && NextFault().Works? && Holds(key)) ==>
          r == (if producer.Array? then Some(producer.value) else None)
      // It is kept after a miss if it is worth it, and if that call takes effect.
      ensures old(Connected() && NextFault().Works? && !Holds(key)) ==>
          var sent := producer.Array? && (!producer.empty || cacheEmpty) && expire > 0 && producer.size <= 262144;
          var fault := server.faults(old(server.calls) + 1);
          && server.calls == old(server.calls) + (if sent then 2 else 1)
          && server.store == (if sent && !fault.Lost? then old(server.store)[key := P.Json(producer.value)]
             else old(server.store))
          && server.ttls == (if sent && !fault.Lost? then old(server.ttls)[key := Ttl(expire, pick)]
             else old(server.ttls))
          && Connected() == (!sent || fault.Works?)
      // Without Redis, or after a read that failed, nothing is kept, and nothing more is asked.
      ensures !old(Connected() && NextFault().Works?) ==>
          server.store == old(server.store) && server.ttls == old(server.ttls) && !Connected()
          && server.calls == old(server.calls) + if old(Connected()) then 1 else 0
    {
      var cached := GetJson(key);
      if cached.Some? {
        return cached;
      }
      if producer.NoArray? {
        return None;
      }
      if !producer.empty || cacheEmpty {
        var _ := Set(key, producer.value, producer.size, expire, pick);
      }
      return Some(producer.value);
    }

    method Delete(key: string) returns (removed: bool)
      requires Valid()
      modifies this`disabled, this`client, server`calls, server`store
      ensures Valid()
      ensures (Abs(), server.store, removed) == P.Delete(old(Abs()), old(server.store), key, old(NextFault()))
      ensures removed == (old(Connected() && NextFault().Works?) && key in old(server.store))
      ensures server.store == if old(Connected() && !NextFault().Lost?) then old(server.store) - {key}
          else old(server.store)
      ensures Connected() == old(Connected() && NextFault().Works?)
    {
      var c := Client();
      if c == null {
        return false;
      }
      var threw;
      threw, removed := c.Del(key);
      if threw {
        Fail();
      }
    }

    method Version(namespace: string) returns (version: nat)
      requires Valid()
      modifies this`disabled, this`client, this`versions, server`calls
      ensures Valid() && (Abs(), version) == P.Version(old(Abs()), server.store, namespace, old(NextFault()))
      // Resolved once: from then on it is remembered, and Redis is not asked.
      ensures versions == old(versions)[namespace := version]
      ensures namespace in old(versions) ==>
          version == old(versions)[namespace] && server.calls == old(server.calls) && Connected() == old(Connected())
      ensures namespace !in old(versions) ==>
          && server.calls == old(server.calls) + (if old(Connected()) then 1 else 0)
          && Connected() == old(Connected() && NextFault().Works?)
          && forall n: nat :: 0 < n ==>
               (version == n <==>
                 && old(Connected() && NextFault().Works?) && namespace + ":version" in server.store
                 && server.store[namespace + ":version"] == P.Counter(n))
    {
      if namespace in versions {
        return versions[namespace];
      }
      var raw := Get(CacheKeys.VersionKey(namespace));
      version := if raw.Some? && raw.value.Counter? then raw.value.n else P.VERSION_FALLBACK;
      versions := versions[namespace := version];
    }

    method Namespaced(namespace: string, entity: string, discriminator: string) returns (key: string)
      requires Valid()
      modifies this`disabled, this`client, this`versions, server`calls
      ensures Valid() && Abs() == P.Version(old(Abs()), server.store, namespace, old(NextFault())).0
      ensures var generation := P.Version(old(Abs()), server.store, namespace, old(NextFault())).1;
              key == CacheKeys.DataKey(namespace, generation, entity, discriminator)
      ensures namespace in versions && versions == old(versions)[namespace := versions[namespace]]
      ensures key == CacheKeys.DataKey(namespace, versions[namespace], entity, discriminator)
    {
      var generation := Version(namespace);
      key := namespace + ":g" + CacheKeys.Decimal(generation) + ":" + entity;
      var kept := CacheKeys.Sanitize(discriminator);
      if kept != "" {
        key := key + ":" + kept;
      }
    }

    method Bump(namespace: string) returns (done: bool)
      requires Valid()
      modifies this`disabled, this`client, this`versions, server`calls, server`store
      ensures Valid()
      ensures (Abs(), server.store, done) == P.Bump(old(Abs()), old(server.store), namespace, old(NextFault()))
      // The counter goes up by one, from nothing to 1, and the remembered generation is forgotten.
      ensures done == (old(Connected() && NextFault().Works? && !Holds(namespace + ":version")))
      ensures versions == if done then old(versions) - {namespace} else old(versions)
      ensures old(Connected() && !NextFault().Lost?) && namespace + ":version" !in old(server.store) ==>
          server.store == old(server.store)[namespace + ":version" := P.Counter(1)]
      ensures forall n: nat | old(Connected() && !NextFault().Lost?) && namespace + ":version" in old(server.store)
          && old(server.store)[namespace + ":version"] == P.Counter(n) ::
          server.store == old(server.store)[namespace + ":version" := P.Counter(n + 1)]
      ensures old(!Connected() || NextFault().Lost? || Holds(namespace + ":version")) ==>
          server.store == old(server.store)
      ensures Connected() == done
    {
      var c := Client();
      if c == null {
        return false;
      }
      var threw := c.Incr(CacheKeys.VersionKey(namespace));
      if threw {
        Fail();
        return false;
      }
      versions := versions - {namespace};
      return true;
    }
  }
}
