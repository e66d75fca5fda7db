/** The in-memory discovery store: a locked map, an etag counter and a sorted listing. */
module MemoryDiscovery {
  import opened Types
  import opened DiscoveryApi
  import opened Listing

  datatype Stamped = Stamped(created: int, backend: Backend)

  datatype MemState = MemState(store: map<Key, Stamped>, etag: u64)

  const EMPTY := MemState(map[], 0)

  /** Records sit under their own key. */
  ghost predicate Valid(s: MemState) {
    forall k | k in s.store :: s.store[k].backend.key == k
  }

  /** `fetch_add(1)` on a 64-bit counter. */
  function Bump(etag: u64): u64 {
    (etag + 1) % TWO_64
  }

  function EntryAt(s: MemState, k: Key): Entry<Backend>
    requires k in s.store
  {
    Entry(s.store[k].created, k, s.store[k].backend)
  }

  function EntriesOf(s: MemState, keys: set<Key>): set<Entry<Backend>>
    requires keys <= s.store.Keys
  {
    set k | k in keys :: EntryAt(s, k)
  }

  ghost function Shown(s: MemState): (l: seq<Entry<Backend>>)
    ensures IsListing(l, EntriesOf(s, s.store.Keys))
  {
    Arrange(EntriesOf(s, s.store.Keys))
  }

  function Values(l: seq<Entry<Backend>>): seq<Backend> {
    seq(|l|, i requires 0 <= i < |l| => l[i].value)
  }

  ghost function AllOf(s: MemState, ifNoneMatch: Option<u64>): Backends {
    if ifNoneMatch == Some(s.etag) then Backends(s.etag, None) else Backends(s.etag, Some(Values(Shown(s))))
  }

  /** One request against the store, with `now` the clock reading it takes. */
  ghost function Step(s: MemState, req: Request, now: int): (MemState, Answer) {
    match req
    case Get(k) => (s, Found(if k in s.store then Some(s.store[k].backend) else None))
    case GetAll(etag) => (s, All(AllOf(s, etag)))
    case Post(b) =>
      if b.key in s.store then (s, Posted(None))
      else (MemState(s.store[b.key := Stamped(now, b)], Bump(s.etag)), Posted(Some(b.key)))
    case Put(b) =>
      var created := if b.key in s.store then s.store[b.key].created else now;
      (MemState(s.store[b.key := Stamped(created, b)], Bump(s.etag)), Flag(b.key !in s.store))
    case Patch(k, p) =>
      if k !in s.store then (s, Flag(false))
      else
        var was := s.store[k];
        var b := was.backend.(sparse := Patched(was.backend.sparse, p));
        (MemState(s.store[k := was.(backend := b)], Bump(s.etag)), Flag(true))
    case Delete(k) =>
      if k in s.store then (MemState(s.store - {k}, Bump(s.etag)), Flag(true)) else (s, Flag(false))
  }

  class MemoryDiscoveryBackendStore {
    var store: map<Key, Stamped>
    var etag: u64

    ghost function State(): MemState
      reads this
    {
      MemState(store, etag)
    }

    constructor ()
      ensures State() == EMPTY
    {
      store, etag := map[], 0;
    }

    method Get(k: Key) returns (r: Option<Backend>)
      ensures Found(r) == Step(State(), Request.Get(k), 0).1
    {
      r := if k in store then Some(store[k].backend) else None;
    }

    method GetAll(ifNoneMatch: Option<u64>) returns (r: Backends)
      ensures r == AllOf(State(), ifNoneMatch)
      ensures r.backends.Some? ==>
        forall b :: b in r.backends.value <==> exists k :: k in store && store[k].backend == b
    {
      var backends := SortedListing(MemState(store, etag));
      ValuesOf(State(), backends);
      if ifNoneMatch == Some(etag) {
        r := Backends(etag, None);
      } else {
        r := Backends(etag, Some(Values(backends)));
      }
    }

    method Post(b: Backend, now: int) returns (r: Option<Key>)
      modifies this
      ensures (State(), Posted(r)) == Step(old(State()), Request.Post(b), now)
    {
      if b.key in store {
        return None;
      }
      store := store[b.key := Stamped(now, b)];
      etag := (etag + 1) % TWO_64;
      r := Some(b.key);
    }

    method Put(b: Backend, now: int) returns (wasNew: bool)
      modifies this
      ensures (State(), Flag(wasNew)) == Step(old(State()), Request.Put(b), now)
    {
      var created;
      if b.key in store {
        created, wasNew := store[b.key].created, false;
      } else {
        created, wasNew := now, true;
      }
      store := store[b.key := Stamped(created, b)];
      etag := (etag + 1) % TWO_64;
    }

    method Patch(k: Key, p: PatchFields) returns (found: bool)
      modifies this
      ensures (State(), Flag(found)) == Step(old(State()), Request.Patch(k, p), 0)
    {
      if k !in store {
        return false;
      }
      var entry := store[k];
      var sparse := entry.backend.sparse;
      if p.weight.Some? {
        sparse := sparse.(weight := p.weight.value);
      }
      if p.enabled.Some? {
        sparse := sparse.(enabled := p.enabled.value);
      }
      if p.partitions.Some? {
        sparse := sparse.(partitions := p.partitions.value);
      }
      if p.name.Some? {
        sparse := sparse.(name := p.name.value);
      }
      store := store[k := entry.(backend := entry.backend.(sparse := sparse))];
      etag := (etag + 1) % TWO_64;
      found := true;
    }

    method Delete(k: Key) returns (wasFound: bool)
      modifies this
      ensures (State(), Flag(wasFound)) == Step(old(State()), Request.Delete(k), 0)
    {
      wasFound := k in store;
      if wasFound {
        store := store - {k};
        etag := (etag + 1) % TWO_64;
      }
    }
  }

  lemma CollectOne(s: MemState, seen: set<Key>, k: Key)
    requires seen + {k} <= s.store.Keys && k !in seen
    ensures multiset(EntriesOf(s, seen + {k})) == multiset(EntriesOf(s, seen)) + multiset{EntryAt(s, k)}
  {
    assert EntriesOf(s, seen + {k}) == EntriesOf(s, seen) + {EntryAt(s, k)};
  }

  /** The records are collected in whatever order the map is walked; sorting makes that order irrelevant. */
  method SortedListing(s: MemState) returns (l: seq<Entry<Backend>>)
    ensures l == Shown(s)
  {
    var entries: seq<Entry<Backend>> := [];
    var left := s.store.Keys;
    ghost var seen: set<Key> := {};
    while left != {}
      invariant seen !! left && seen + left == s.store.Keys
      invariant multiset(entries) == multiset(EntriesOf(s, seen))
      decreases left
    {
      var k :| k in left;
      CollectOne(s, seen, k);
      entries := entries + [EntryAt(s, k)];
      left, seen := left - {k}, seen + {k};
    }
    assert seen == s.store.Keys;
    SortIsListing(entries, EntriesOf(s, seen));
    l := Sort(entries);
    ListingIsUnique(l, Shown(s), EntriesOf(s, seen));
  }

  lemma ValuesOf(s: MemState, l: seq<Entry<Backend>>)
    requires IsListing(l, EntriesOf(s, s.store.Keys))
    ensures forall b :: b in Values(l) <==> exists k :: k in s.store && s.store[k].backend == b
  {
    forall b ensures b in Values(l) <==> exists k :: k in s.store && s.store[k].backend == b {
      if b in Values(l) {
        var i :| 0 <= i < |l| && Values(l)[i] == b;
        assert l[i] in l && l[i] in EntriesOf(s, s.store.Keys);
      }
      if k :| k in s.store && s.store[k].backend == b {
        assert EntryAt(s, k) in EntriesOf(s, s.store.Keys) && EntryAt(s, k) in l;
        var i :| 0 <= i < |l| && l[i] == EntryAt(s, k);
        assert Values(l)[i] == b;
      }
    }
  }

  /** What is read at a key, by the request that reads it. */
  ghost function ReadAt(s: MemState, k: Key): Answer {
    Step(s, Get(k), 0).1
  }

  /** What any request leaves to be read: a put is read back, a post only where nothing was, a patch gives each field it
      names its value and leaves the others, a deletion leaves nothing, and all else is read as before. */
  lemma ReadAfterWrite(s: MemState, req: Request, now: int, k: Key)
    requires Valid(s)
    ensures ReadAt(Step(s, req, now).0, k) ==
      match (req, ReadAt(s, k))
      case (Put(b), was) => if b.key == k then Found(Some(b)) else was
      case (Post(b), was) => if b.key == k && was == Found(None) then Found(Some(b)) else was
      case (Delete(key), was) => if key == k then Found(None) else was
      case (Patch(key, p), Found(Some(was))) =>
        if key != k then Found(Some(was))
        else Found(Some(Backend(k, Sparse(
          if p.name.Some? then p.name.value else was.sparse.name,
          if p.partitions.Some? then p.partitions.value else was.sparse.partitions,
          if p.weight.Some? then p.weight.value else was.sparse.weight,
          if p.enabled.Some? then p.enabled.value else was.sparse.enabled,
          was.sparse.implementation))))
      case (_, was) => was
  {
  }

  /** How answers to writes tell what was there to be read before; a conditional listing is left out exactly when its
      etag is current. */
  lemma AnswersTell(s: MemState, req: Request, now: int)
    ensures var answer := Step(s, req, now).1;
      match req
      case Get(k) => (answer == Found(None) <==> k !in s.store)
      case GetAll(etag) =>
        answer.All? && answer.all.etag == s.etag && (answer.all.backends.None? <==> etag == Some(s.etag))
      case Post(b) => answer == Posted(if ReadAt(s, b.key) == Found(None) then Some(b.key) else None)
      case Put(b) => answer == Flag(ReadAt(s, b.key) == Found(None))
      case Patch(k, _) => answer == Flag(ReadAt(s, k) != Found(None))
      case Delete(k) => answer == Flag(ReadAt(s, k) != Found(None))
  {
  }

  /** A listing holds exactly what can be read key by key. */
  lemma ListsWhatIsRead(s: MemState, b: Backend)
    requires Valid(s)
    ensures b in AllOf(s, None).backends.value <==> ReadAt(s, b.key) == Found(Some(b))
  {
    ValuesOf(s, Shown(s));
  }

  /** Content never changes under an unchanged etag, a request writes no record but its own, and the etag moves by at
      most one. */
  lemma EtagTracksContent(s: MemState, req: Request, now: int)
    requires Valid(s)
    ensures var t := Step(s, req, now).0;
      && Valid(t)
      && (t == s || t.etag == Bump(s.etag))
      && (forall k | Target(req) != Some(k) ::
            (k in t.store <==> k in s.store) && (k in s.store ==> t.store[k] == s.store[k]))
  {
  }

  /** Putting over an existing key, or patching it, changes that record where it stands and moves no other. */
  lemma UpdateKeepsPlaces(s: MemState, req: Request, now: int)
    requires Valid(s)
    requires req.Put? || req.Patch?
    requires Target(req).value in s.store
    ensures var l, m, k := Shown(s), Shown(Step(s, req, now).0), Target(req).value;
      exists i :: 0 <= i < |l| && l[i].id == k && m == l[i := EntryAt(Step(s, req, now).0, k)]
  {
    var k, l, t := Target(req).value, Shown(s), Step(s, req, now).0;
    assert EntryAt(s, k) in EntriesOf(s, s.store.Keys) && EntryAt(s, k) in l;
    var i :| 0 <= i < |l| && l[i] == EntryAt(s, k);
    var after := EntriesOf(s, s.store.Keys) - {l[i]} + {EntryAt(t, k)};
    SetAfterWrite(s, t, k);
    ReplaceKeepsPlaces(EntriesOf(s, s.store.Keys), i, EntryAt(t, k));
    assert Shown(t) == l[i := EntryAt(t, k)];
  }

  lemma SetAfterWrite(s: MemState, t: MemState, k: Key)
    requires k in s.store && t.store.Keys == s.store.Keys
    requires forall j | j in s.store && j != k :: t.store[j] == s.store[j]
    ensures EntriesOf(t, t.store.Keys) == EntriesOf(s, s.store.Keys) - {EntryAt(s, k)} + {EntryAt(t, k)}
  {
    var after := EntriesOf(s, s.store.Keys) - {EntryAt(s, k)} + {EntryAt(t, k)};
    forall e ensures e in EntriesOf(t, t.store.Keys) <==> e in after {
      if e in EntriesOf(t, t.store.Keys) && e.id != k {
        assert e == EntryAt(s, e.id);
      }
      if e in EntriesOf(s, s.store.Keys) && e.id != k {
        assert e == EntryAt(t, e.id);
      }
    }
  }

  /** Deleting takes one record out of the listing and leaves the others in their order. */
  lemma DeleteKeepsOrder(s: MemState, k: Key)
    requires k in s.store
    ensures var l := Shown(s);
      exists i :: 0 <= i < |l| && l[i].id == k && Shown(Step(s, Delete(k), 0).0) == l[..i] + l[i + 1..]
  {
    DropKeepsOrder(s, Step(s, Delete(k), 0).0, k);
  }

  lemma DropKeepsOrder(s: MemState, t: MemState, k: Key)
    requires k in s.store && t.store == s.store - {k}
    ensures var l := Shown(s);
      exists i :: 0 <= i < |l| && l[i].id == k && Shown(t) == l[..i] + l[i + 1..]
  {
    var l := Shown(s);
    assert EntryAt(s, k) in EntriesOf(s, s.store.Keys) && EntryAt(s, k) in l;
    var i :| 0 <= i < |l| && l[i] == EntryAt(s, k);
    var before, after := EntriesOf(s, s.store.Keys), EntriesOf(t, t.store.Keys);
    forall e ensures e in after <==> e in before - {l[i]} {
      if e in before && e != l[i] {
        assert e.id in t.store && e == EntryAt(t, e.id);
      }
      if e in after {
        assert e == EntryAt(s, e.id);
      }
    }
    assert after == before - {l[i]};
    RemoveKeepsOrder(before, i);
  }

  /** A new record goes in at one place; the records already there keep theirs relative to one another. */
  lemma CreateKeepsOrder(s: MemState, b: Backend, now: int)
    requires Valid(s) && b.key !in s.store
    ensures Step(s, Post(b), now).0 == Step(s, Put(b), now).0
    ensures var m := Shown(Step(s, Post(b), now).0);
      exists i :: 0 <= i < |m| && m[i] == Entry(now, b.key, b) && Shown(s) == m[..i] + m[i + 1..]
  {
    var t := Step(s, Post(b), now).0;
    assert t.store - {b.key} == s.store;
    DropKeepsOrder(t, s, b.key);
    var m := Shown(t);
    var i :| 0 <= i < |m| && m[i].id == b.key && Shown(s) == m[..i] + m[i + 1..];
    assert m[i] in m && m[i] in EntriesOf(t, t.store.Keys);
  }
}
