/** The load balancer's view of the discovery store: last etag, projected cache, enablement map. */
module ServiceDiscovery {
  import opened Types
  import opened DiscoveryApi
  import opened ClientPool

  /** A backend as the load balancer gets it: an identity, and the partitions it carries along. */
  datatype Published = Published(id: PoolKey, partitions: set<string>)

  /** The service's partitions, which backends a client can be built for, the two hash functions in use, and what
      becomes of a record on its way from the store: the same with the store at hand, the re-printed record behind
      HTTP layers, None if it cannot be sent. */
  datatype Config = Config(
    partitions: set<string>,
    connects: Backend -> bool,
    carry: Backend -> Option<Backend>,
    address: Key -> nat,
    hash: PoolKey -> u64)

  function Identity(cfg: Config, b: Backend): PoolKey {
    PoolKey(cfg.address(b.key), b.sparse.weight)
  }

  function Publish(cfg: Config, b: Backend): Published {
    Published(Identity(cfg, b), b.sparse.partitions)
  }

  predicate Local(cfg: Config, b: Backend) {
    !(b.sparse.partitions !! cfg.partitions)
  }

  predicate Eligible(cfg: Config, b: Backend) {
    Local(cfg, b) && cfg.connects(b)
  }

  function Projection(cfg: Config, content: set<Backend>): set<Published> {
    set b | b in content && Eligible(cfg, b) :: Publish(cfg, b)
  }

  function Hashes(cfg: Config, content: set<Backend>): set<u64> {
    set b | b in content && Eligible(cfg, b) :: cfg.hash(Identity(cfg, b))
  }

  /** Distinct records have distinct identities, and identities with one hash agree on being enabled. */
  ghost predicate Separate(cfg: Config, content: set<Backend>) {
    forall a, b | a in content && b in content ::
      && (Identity(cfg, a) == Identity(cfg, b) ==> a == b)
      && (cfg.hash(Identity(cfg, a)) == cfg.hash(Identity(cfg, b)) ==> a.sparse.enabled == b.sparse.enabled)
  }

  /** `flags` gives every published backend of `content` its stored flag. */
  ghost predicate Enables(cfg: Config, content: set<Backend>, flags: map<u64, bool>) {
    forall b | b in content && Eligible(cfg, b) ::
      var h := cfg.hash(Identity(cfg, b)); h in flags && flags[h] == b.sparse.enabled
  }

  ghost function Enablement(cfg: Config, content: set<Backend>): (flags: map<u64, bool>)
    ensures flags.Keys == Hashes(cfg, content)
    ensures Separate(cfg, content) ==> Enables(cfg, content, flags)
  {
    map h | h in Hashes(cfg, content) ::
      var b :| b in content && Eligible(cfg, b) && cfg.hash(Identity(cfg, b)) == h;
      b.sparse.enabled
  }

  lemma EnablementIsUnique(cfg: Config, content: set<Backend>, flags: map<u64, bool>)
    requires Separate(cfg, content) && Enables(cfg, content, flags) && flags.Keys == Hashes(cfg, content)
    ensures flags == Enablement(cfg, content)
  {
  }

  /** What one instance remembers between calls. */
  datatype Memo = Memo(lastEtag: u64, cache: set<Published>)

  const FRESH := Memo(0, {})

  function ToSet(l: seq<Backend>): set<Backend> {
    set b | b in l
  }

  /** What the instance remembers and returns once its provider has answered. */
  ghost function Absorb(cfg: Config, memo: Memo, answer: Backends): (Memo, set<Published>, map<u64, bool>) {
    match answer.backends
    case None => (memo, memo.cache, map[])
    case Some(l) =>
      var published := Projection(cfg, ToSet(l));
      (Memo(answer.etag, published), published, Enablement(cfg, ToSet(l)))
  }

  function Ids(published: set<Published>): set<PoolKey> {
    set p | p in published :: p.id
  }

  /** A whole call: what is remembered, for which keys there are clients, and what is returned. */
  ghost function Discovered(cfg: Config, memo: Memo, keys: set<PoolKey>, answer: Result<Backends, ErrorSource>)
    : (Memo, set<PoolKey>, Result<(set<Published>, map<u64, bool>), ErrorSource>)
  {
    match answer
    case Err(e) => (memo, keys, Err(e))
    case Ok(a) =>
      var (next, published, enablement) := Absorb(cfg, memo, a);
      (next, keys + Ids(published), Ok((published, enablement)))
  }

  /** A record that shares a partition with the service and that a client can be built for. */
  ghost predicate Usable(cfg: Config, b: Backend) {
    cfg.connects(b) && exists x :: x in b.sparse.partitions && x in cfg.partitions
  }

  lemma EligibleIsUsable(cfg: Config, b: Backend)
    ensures Eligible(cfg, b) <==> Usable(cfg, b)
  {
    assert b.sparse.partitions !! cfg.partitions <==> forall x :: !(x in b.sparse.partitions && x in cfg.partitions);
  }

  /** What is published: of each usable record its address, its own weight and its own partitions, and nothing else. */
  lemma ProjectionExactly(cfg: Config, content: set<Backend>, p: Published)
    ensures p in Projection(cfg, content) <==>
      exists b :: b in content && Usable(cfg, b) &&
        p.id.addr == cfg.address(b.key) && p.id.weight == b.sparse.weight && p.partitions == b.sparse.partitions
  {
    if p in Projection(cfg, content) {
      var b :| b in content && Eligible(cfg, b) && Publish(cfg, b) == p;
      EligibleIsUsable(cfg, b);
    }
    forall b | b in content && Usable(cfg, b) ensures b in content && Eligible(cfg, b) {
      EligibleIsUsable(cfg, b);
    }
  }

  /** The flags hold for the published records, under the hash of address and weight. */
  lemma EnablesExactly(cfg: Config, content: set<Backend>, flags: map<u64, bool>)
    ensures Enables(cfg, content, flags) <==> forall b | b in content && Usable(cfg, b) ::
      var h := cfg.hash(PoolKey(cfg.address(b.key), b.sparse.weight)); h in flags && flags[h] == b.sparse.enabled
  {
    forall b ensures Eligible(cfg, b) <==> Usable(cfg, b) {
      EligibleIsUsable(cfg, b);
    }
  }

  lemma HashesExactly(cfg: Config, content: set<Backend>, h: u64)
    ensures h in Hashes(cfg, content) <==>
      exists b :: b in content && Usable(cfg, b) && h == cfg.hash(PoolKey(cfg.address(b.key), b.sparse.weight))
  {
    forall b ensures Eligible(cfg, b) <==> Usable(cfg, b) {
      EligibleIsUsable(cfg, b);
    }
  }

  /** A whole call that is given rows, in terms of the rows alone. */
  lemma DiscoveredExactly(cfg: Config, memo: Memo, keys: set<PoolKey>, etag: u64, l: seq<Backend>)
    requires Separate(cfg, ToSet(l))
    ensures var (next, after, r) := Discovered(cfg, memo, keys, Ok(Backends(etag, Some(l))));
      && r.Ok? && next == Memo(etag, r.value.0)
      && (forall p :: p in r.value.0 <==>
            exists b :: b in l && Usable(cfg, b) &&
              p.id.addr == cfg.address(b.key) && p.id.weight == b.sparse.weight && p.partitions == b.sparse.partitions)
      && (forall h :: h in r.value.1 <==>
            exists b :: b in l && Usable(cfg, b) && h == cfg.hash(PoolKey(cfg.address(b.key), b.sparse.weight)))
      && (forall b | b in l && Usable(cfg, b) ::
            var h := cfg.hash(PoolKey(cfg.address(b.key), b.sparse.weight));
            h in r.value.1 && r.value.1[h] == b.sparse.enabled)
      && (forall id :: id in after <==> id in keys || exists p :: p in r.value.0 && p.id == id)
  {
    var content := ToSet(l);
    forall p
      ensures p in Projection(cfg, content) <==>
        exists b :: b in l && Usable(cfg, b) &&
          p.id.addr == cfg.address(b.key) && p.id.weight == b.sparse.weight && p.partitions == b.sparse.partitions
    {
      ProjectionExactly(cfg, content, p);
    }
    forall h
      ensures h in Hashes(cfg, content) <==>
        exists b :: b in l && Usable(cfg, b) && h == cfg.hash(PoolKey(cfg.address(b.key), b.sparse.weight))
    {
      HashesExactly(cfg, content, h);
    }
    EnablesExactly(cfg, content, Enablement(cfg, content));
  }

  /** Told that nothing has changed, the service returns what it holds and no flags; given an error, it returns that. */
  lemma DiscoveredOtherwise(cfg: Config, memo: Memo, keys: set<PoolKey>, etag: u64, e: ErrorSource)
    requires Ids(memo.cache) <= keys
    ensures Discovered(cfg, memo, keys, Ok(Backends(etag, None))) == (memo, keys, Ok((memo.cache, map[])))
    ensures Discovered(cfg, memo, keys, Err(e)) == (memo, keys, Err(e))
  {
    assert keys + Ids(memo.cache) == keys;
  }

  /** Injective hashing of keys and identities separates any records with distinct keys. */
  lemma InjectiveSeparates(cfg: Config, content: set<Backend>)
    requires forall a, b | a in content && b in content && a.key == b.key :: a == b
    requires forall a, b | a in content && b in content && cfg.address(a.key) == cfg.address(b.key) :: a.key == b.key
    requires forall i, j | cfg.hash(i) == cfg.hash(j) :: i == j
    ensures Separate(cfg, content)
  {
  }

  class LnServiceDiscovery<C> {
    const cfg: Config
    const clients: LnClientPool<C>
    const build: Backend -> Option<C>
    var lastEtag: u64
    var cache: set<Published>

    ghost function State(): Memo
      reads this
    {
      Memo(lastEtag, cache)
    }

    ghost predicate Valid()
      reads this, clients
    {
      && (forall b :: cfg.connects(b) <==> build(b).Some?)
      && Grounded(clients.State())
      && Ids(cache) <= clients.pool.Keys
    }

    constructor (cfg: Config, clients: LnClientPool<C>, build: Backend -> Option<C>)
      requires Grounded(clients.State())
      requires forall b :: cfg.connects(b) <==> build(b).Some?
      ensures Valid() && State() == FRESH && this.cfg == cfg && this.clients == clients && this.build == build
    {
      this.cfg, this.clients, this.build := cfg, clients, build;
      lastEtag, cache := 0, {};
    }

    /** `answer` is what the provider says to a request carrying `lastEtag`. The pool gets the clients of the backends
        published and no others, and nothing is ever taken out of it. */
    method Discover(answer: Result<Backends, ErrorSource>)
        returns (r: Result<(set<Published>, map<u64, bool>), ErrorSource>)
      requires Valid()
      requires answer.Ok? && answer.value.backends.Some? ==> Separate(cfg, ToSet(answer.value.backends.value))
      modifies this, clients`pool
      ensures Valid()
      ensures (State(), clients.pool.Keys, r) == Discovered(cfg, old(State()), old(clients.pool.Keys), answer)
    {
      if answer.Err? {
        return Err(answer.error);
      }
      if answer.value.backends.None? {
        assert clients.pool.Keys + Ids(cache) == clients.pool.Keys;
        return Ok((cache, map[]));
      }
      var left := ToSet(answer.value.backends.value);
      ghost var all := left;
      ghost var seen: set<Backend> := {};
      lastEtag := answer.value.etag;
      var enablement: map<u64, bool> := map[];
      var published: set<Published> := {};
      while left != {}
        invariant seen !! left && seen + left == all
        invariant Built(cfg, seen, published, enablement, old(clients.pool.Keys), clients.pool.Keys)
        invariant Valid()
        invariant cache == old(cache) && lastEtag == answer.value.etag
        decreases left
      {
        var b :| b in left;
        left := left - {b};
        ghost var keys := clients.pool.Keys;
        ghost var before := seen;
        seen := seen + {b};
        if !Eligible(cfg, b) {
          PassOver(cfg, before, b, published, enablement, old(clients.pool.Keys), keys);
        } else {
          TakeIn(cfg, before, b, published, enablement, old(clients.pool.Keys), keys);
        }
        if b.sparse.partitions !! cfg.partitions {
          continue;
        }
        var created := match build(b) case Some(c) => Ok(c) case None => Err(Internal);
        var connected := clients.Connect(Identity(cfg, b), created);
        if connected.Err? {
          continue;
        }
        assert clients.pool.Keys == keys + {Identity(cfg, b)};
        enablement := enablement[cfg.hash(Identity(cfg, b)) := b.sparse.enabled];
        published := published + {Publish(cfg, b)};
      }
      assert seen == all;
      EnablementIsUnique(cfg, all, enablement);
      cache := published;
      r := Ok((published, enablement));
    }
  }

  /** What the loop has built of the records seen. */
  ghost predicate Built(cfg: Config, seen: set<Backend>, published: set<Published>, flags: map<u64, bool>,
                        before: set<PoolKey>, keys: set<PoolKey>)
  {
    && published == Projection(cfg, seen)
    && flags.Keys == Hashes(cfg, seen) && Enables(cfg, seen, flags)
    && keys == before + Ids(published)
  }

  lemma PassOver(cfg: Config, seen: set<Backend>, b: Backend, published: set<Published>, flags: map<u64, bool>,
                 before: set<PoolKey>, keys: set<PoolKey>)
    requires Built(cfg, seen, published, flags, before, keys) && !Eligible(cfg, b)
    ensures Built(cfg, seen + {b}, published, flags, before, keys)
  {
    assert Projection(cfg, seen + {b}) == Projection(cfg, seen) && Hashes(cfg, seen + {b}) == Hashes(cfg, seen);
  }

  lemma TakeIn(cfg: Config, seen: set<Backend>, b: Backend, published: set<Published>, flags: map<u64, bool>,
               before: set<PoolKey>, keys: set<PoolKey>)
    requires Built(cfg, seen, published, flags, before, keys) && Eligible(cfg, b)
    requires forall c | c in seen && cfg.hash(Identity(cfg, c)) == cfg.hash(Identity(cfg, b)) ::
      c.sparse.enabled == b.sparse.enabled
    ensures Built(cfg, seen + {b}, published + {Publish(cfg, b)}, flags[cfg.hash(Identity(cfg, b)) := b.sparse.enabled],
      before, keys + {Identity(cfg, b)})
  {
    ProjectOne(cfg, seen, b);
    EnableOne(cfg, seen, b, flags);
    OneMoreId(published, Publish(cfg, b));
  }

  lemma ProjectOne(cfg: Config, seen: set<Backend>, b: Backend)
    requires Eligible(cfg, b)
    ensures Projection(cfg, seen + {b}) == Projection(cfg, seen) + {Publish(cfg, b)}
    ensures Hashes(cfg, seen + {b}) == Hashes(cfg, seen) + {cfg.hash(Identity(cfg, b))}
  {
  }

  lemma EnableOne(cfg: Config, seen: set<Backend>, b: Backend, flags: map<u64, bool>)
    requires Enables(cfg, seen, flags)
    requires forall c | c in seen && cfg.hash(Identity(cfg, c)) == cfg.hash(Identity(cfg, b)) ::
      c.sparse.enabled == b.sparse.enabled
    ensures Enables(cfg, seen + {b}, flags[cfg.hash(Identity(cfg, b)) := b.sparse.enabled])
  {
  }

  lemma OneMoreId(published: set<Published>, p: Published)
    ensures Ids(published + {p}) == Ids(published) + {p.id}
  {
  }
}
