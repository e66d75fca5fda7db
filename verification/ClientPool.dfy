/** The pool of lightning clients: one map of clients, one map of the metrics last fetched through them. */
module ClientPool {
  import opened Types

  /** What a load-balancer backend is compared and hashed by: its address and its weight. */
  datatype PoolKey = PoolKey(addr: nat, weight: u64)

  datatype Metrics = Metrics(healthy: bool, inbound: u64)

  datatype PoolState<C> = PoolState(clients: map<PoolKey, C>, metrics: map<PoolKey, Metrics>)

  datatype CallError = ClientNotFound | Remote(source: ErrorSource)

  /** An error a node reports, told apart from the pool's own lookup error. */
  function Lift<T>(r: Result<T, ErrorSource>): Result<T, CallError> {
    match r case Ok(v) => Ok(v) case Err(e) => Err(Remote(e))
  }

  /** Metrics are only ever held for keys that have a client. */
  ghost predicate Grounded<C>(p: PoolState<C>) {
    p.metrics.Keys <= p.clients.Keys
  }

  class LnClientPool<C> {
    var pool: map<PoolKey, C>
    var cache: map<PoolKey, Metrics>

    ghost function State(): PoolState<C>
      reads this
    {
      PoolState(pool, cache)
    }

    constructor ()
      ensures State() == PoolState(map[], map[])
    {
      pool, cache := map[], map[];
    }

    method GetClient(key: PoolKey) returns (r: Result<C, CallError>)
      ensures r == if key in pool then Ok(pool[key]) else Err(ClientNotFound)
    {
      if key !in pool {
        return Err(ClientNotFound);
      }
      r := Ok(pool[key]);
    }

    /** `created` is the client built from the backend's implementation, or the error of building it. */
    method Connect(key: PoolKey, created: Result<C, ErrorSource>) returns (r: Result<(), CallError>)
      modifies this`pool
      ensures r.Ok? <==> created.Ok?
      ensures pool == if created.Ok? then old(pool)[key := created.value] else old(pool)
      ensures old(Grounded(State())) ==> Grounded(State())
    {
      match created
      case Err(e) => r := Err(Remote(e));
      case Ok(client) =>
        pool := pool[key := client];
        r := Ok(());
    }

    /** `reply` is what the node answers if there is a client to ask it through. */
    method GetMetrics(key: PoolKey, reply: Result<Metrics, ErrorSource>) returns (r: Result<Metrics, CallError>)
      modifies this`cache
      ensures r == if key in pool then Lift(reply) else Err(ClientNotFound)
      ensures cache == if r.Ok? then old(cache)[key := r.value] else old(cache)
      ensures old(Grounded(State())) ==> Grounded(State())
    {
      var client := GetClient(key);
      if client.Err? {
        return Err(client.error);
      }
      r := Lift(reply);
      if r.Ok? {
        cache := cache[key := r.value];
      }
    }

    /** A key with cached metrics always finds its client: the answer is the node's own. */
    method GetInvoice(key: PoolKey, reply: Result<string, ErrorSource>) returns (r: Result<string, CallError>)
      ensures r == if key in pool then Lift(reply) else Err(ClientNotFound)
      ensures Grounded(State()) && key in cache ==> r == Lift(reply)
    {
      var client := GetClient(key);
      match client
      case Err(e) => r := Err(e);
      case Ok(_) => r := Lift(reply);
    }

    method GetCachedMetrics(key: PoolKey) returns (r: Option<Metrics>)
      ensures r == if key in cache then Some(cache[key]) else None
      ensures Grounded(State()) && r.Some? ==> key in pool
    {
      r := if key in cache then Some(cache[key]) else None;
    }
  }
}
