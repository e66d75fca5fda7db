/** Towers of HTTP layers over either discovery store: when, and up to what, they act as the store beneath. */
module HttpTowers {
  import opened Types
  import opened DiscoveryApi
  import opened Listing
  import opened HttpLayer
  import opened ServiceDiscovery
  import M = MemoryDiscovery
  import D = DbDiscovery
  import R = DiscoveryRefinement
  import C = Coherence

  /** One request to either store, with `now` the clock reading it takes. */
  ghost function Serve(s: C.Store, req: Request, now: int, round: int -> int): (r: (C.Store, Answer))
    ensures Fits(req, r.1)
  {
    match s
    case Mem(m) => var (n, a) := M.Step(m, req, now); (C.Mem(n), a)
    case Db(db) => var (n, a) := D.Step(db, req, now, round); (C.Db(n), a)
  }

  /** A store at a given clock reading, as something a tower can stand on. */
  ghost function StoreAt(now: int, round: int -> int): (base: Base<C.Store>)
    ensures WellTyped(base)
  {
    (s, req) => Serve(s, req, now, round)
  }

  /** The etag column of the SQL store can still be incremented. */
  predicate Room(s: C.Store, steps: nat) {
    s.Db? ==> s.db.etag + steps < TWO_63
  }

  // ---- Up to printing ----

  /** The same but for implementation bytes, and those print alike. */
  predicate AlikeSparse(norm: Normalizer, a: Sparse, b: Sparse) {
    norm(a.implementation) == norm(b.implementation) && b.(implementation := a.implementation) == a
  }

  predicate AlikeBackend(norm: Normalizer, a: Backend, b: Backend) {
    a.key == b.key && AlikeSparse(norm, a.sparse, b.sparse)
  }

  ghost predicate AlikeView(norm: Normalizer, m: M.MemState, n: M.MemState) {
    && m.etag == n.etag
    && m.store.Keys == n.store.Keys
    && forall k | k in m.store ::
      m.store[k].created == n.store[k].created && AlikeBackend(norm, m.store[k].backend, n.store[k].backend)
  }

  ghost predicate Alike(norm: Normalizer, s: C.Store, t: C.Store) {
    (s.Mem? <==> t.Mem?) && AlikeView(norm, C.Records(s), C.Records(t))
  }

  predicate Json(norm: Normalizer, b: Backend) {
    norm(b.sparse.implementation).Some?
  }

  /** Clearing a name there is. */
  predicate Clears(s: C.Store, req: Request) {
    && req.Patch? && req.fields.name == Some(None)
    && req.key in C.Records(s).store && C.Records(s).store[req.key].backend.sparse.name.Some?
  }

  /** What a layer carries: any implementation that is JSON, and every patch that does not clear a name. */
  predicate Carried(norm: Normalizer, s: C.Store, req: Request) {
    (req.Post? || req.Put? ==> Json(norm, req.backend)) && !Clears(s, req)
  }

  lemma CarriedListing(m: M.MemState, n: M.MemState, l: seq<Entry<Backend>>, r: seq<Entry<Backend>>)
    requires m.store.Keys == n.store.Keys && forall k | k in m.store :: m.store[k].created == n.store[k].created
    requires IsListing(l, M.EntriesOf(m, m.store.Keys))
    requires |r| == |l| && forall i | 0 <= i < |l| :: l[i].id in n.store && r[i] == M.EntryAt(n, l[i].id)
    ensures IsListing(r, M.EntriesOf(n, n.store.Keys))
  {
    forall i, j | 0 <= i < j < |r| ensures Before(r[i], r[j]) {
      assert Before(l[i], l[j]);
      ListedAt(m, l, i);
      ListedAt(m, l, j);
    }
    forall e | e in M.EntriesOf(n, n.store.Keys) ensures e in r {
      assert M.EntryAt(m, e.id) in M.EntriesOf(m, m.store.Keys) && M.EntryAt(m, e.id) in l;
      var i :| 0 <= i < |l| && l[i] == M.EntryAt(m, e.id);
      assert r[i] == e;
    }
  }

  lemma ListedAt(m: M.MemState, l: seq<Entry<Backend>>, i: nat)
    requires IsListing(l, M.EntriesOf(m, m.store.Keys)) && i < |l|
    ensures l[i].id in m.store && l[i] == M.EntryAt(m, l[i].id)
  {
    assert l[i] in M.EntriesOf(m, m.store.Keys);
  }

  lemma AlikeListings(norm: Normalizer, m: M.MemState, n: M.MemState)
    requires AlikeView(norm, m, n)
    ensures var l, r := M.Shown(m), M.Shown(n);
      |l| == |r| && forall i | 0 <= i < |l| :: AlikeBackend(norm, l[i].value, r[i].value)
  {
    var l := M.Shown(m);
    forall i | 0 <= i < |l| ensures l[i].id in m.store && l[i].value == m.store[l[i].id].backend {
      ListedAt(m, l, i);
    }
    var r := seq(|l|, i requires 0 <= i < |l| => M.EntryAt(n, l[i].id));
    CarriedListing(m, n, l, r);
    ListingIsUnique(r, M.Shown(n), M.EntriesOf(n, n.store.Keys));
  }

  lemma {:induction false} AlikeWire(norm: Normalizer, l: seq<Backend>, r: seq<Backend>)
    requires |l| == |r| && forall i | 0 <= i < |l| :: AlikeBackend(norm, l[i], r[i])
    ensures WireBackends(norm, l) == WireBackends(norm, r)
  {
    if l != [] {
      assert AlikeBackend(norm, l[0], r[0]);
      AlikeWire(norm, l[1..], r[1..]);
    }
  }

  lemma AlikeReads(norm: Normalizer, m: M.MemState, n: M.MemState)
    requires AlikeView(norm, m, n)
    ensures WireBackends(norm, M.Values(M.Shown(m))) == WireBackends(norm, M.Values(M.Shown(n)))
  {
    AlikeListings(norm, m, n);
    AlikeWire(norm, M.Values(M.Shown(m)), M.Values(M.Shown(n)));
  }

  lemma AlikeAfterWrite(norm: Normalizer, m: M.MemState, n: M.MemState, k: Key, a: M.Stamped, b: M.Stamped, etag: u64)
    requires AlikeView(norm, m, n)
    requires a.created == b.created && AlikeBackend(norm, a.backend, b.backend)
    ensures AlikeView(norm, M.MemState(m.store[k := a], etag), M.MemState(n.store[k := b], etag))
  {
  }

  lemma AlikeThrough(norm: Normalizer, b: Backend)
    requires Stable(norm) && Json(norm, b)
    ensures WireBackend(norm, b).Some? && AlikeBackend(norm, b, WireBackend(norm, b).value)
  {
    var c := norm(b.sparse.implementation).value;
    assert norm(c) == Some(c);
  }

  predicate Reads(req: Request) {
    req.Get? || req.GetAll?
  }

  /** What comes through of a carried write: the same with re-printed bytes, or a patch without its idle clearing. */
  predicate Follows(norm: Normalizer, req: Request, below: Request) {
    match req
    case Post(b) => below.Post? && AlikeBackend(norm, b, below.backend)
    case Put(b) => below.Put? && AlikeBackend(norm, b, below.backend)
    case Patch(k, p) => below == Patch(k, if p.name == Some(None) then p.(name := None) else p)
    case _ => below == req
  }

  lemma ThroughFollows(norm: Normalizer, s: C.Store, req: Request)
    requires Stable(norm) && Carried(norm, s, req)
    ensures Through(norm, req).Some? && Follows(norm, req, Through(norm, req).value)
  {
    if req.Post? || req.Put? {
      AlikeThrough(norm, req.backend);
    }
  }

  lemma MemWrites(norm: Normalizer, m: M.MemState, n: M.MemState, req: Request, below: Request, now: int)
    requires AlikeView(norm, m, n) && Follows(norm, req, below) && !Reads(req) && !Clears(C.Mem(m), req)
    ensures var (m', a), (n', b) := M.Step(m, req, now), M.Step(n, below, now);
      AlikeView(norm, m', n') && a == b
  {
    var k := Target(req).value;
    var m', n' := M.Step(m, req, now).0, M.Step(n, below, now).0;
    if !req.Delete? && k in m'.store && m' != m {
      AlikeAfterWrite(norm, m, n, k, m'.store[k], n'.store[k], M.Bump(m.etag));
    }
  }

  lemma SeenReads(norm: Normalizer, m: M.MemState, n: M.MemState, req: Request)
    requires AlikeView(norm, m, n) && Reads(req)
    ensures Seen(norm, req, M.Step(m, req, 0).1) == Seen(norm, req, M.Step(n, req, 0).1)
  {
    match req
    case Get(k) =>
    case GetAll(etag) =>
      AlikeReads(norm, m, n);
      SeenListing(norm, req, m.etag, M.Values(M.Shown(m)), M.Values(M.Shown(n)));
      assert M.Step(m, req, 0).1 == All(M.AllOf(m, etag)) && M.Step(n, req, 0).1 == All(M.AllOf(n, etag));
  }

  lemma SeenListing(norm: Normalizer, req: Request, etag: u64, l: seq<Backend>, r: seq<Backend>)
    requires WireBackends(norm, l) == WireBackends(norm, r)
    ensures Seen(norm, req, All(Backends(etag, Some(l)))) == Seen(norm, req, All(Backends(etag, Some(r))))
  {
  }

  // ---- The same over rows ----

  function Stamp(k: Key, r: D.Row): M.Stamped {
    M.Stamped(r.created, D.ToDomain(k, r))
  }

  lemma ViewAfterWrite(s: D.DbState, k: Key, r: D.Row, etag: u63)
    ensures D.View(D.DbState(s.rows[k := r], etag)) == M.MemState(D.View(s).store[k := Stamp(k, r)], etag)
  {
  }

  lemma AlikeRows(norm: Normalizer, s: D.DbState, t: D.DbState, k: Key, a: D.Row, b: D.Row, etag: u63)
    requires AlikeView(norm, D.View(s), D.View(t))
    requires a.created == b.created && AlikeBackend(norm, D.ToDomain(k, a), D.ToDomain(k, b))
    ensures AlikeView(norm, D.View(D.DbState(s.rows[k := a], etag)), D.View(D.DbState(t.rows[k := b], etag)))
  {
    ViewAfterWrite(s, k, a, etag);
    ViewAfterWrite(t, k, b, etag);
    AlikeAfterWrite(norm, D.View(s), D.View(t), k, Stamp(k, a), Stamp(k, b), etag);
  }

  lemma AlikeAt(norm: Normalizer, s: D.DbState, t: D.DbState, k: Key)
    requires AlikeView(norm, D.View(s), D.View(t))
    ensures k in s.rows <==> k in t.rows
    ensures k in s.rows ==> s.rows[k].created == t.rows[k].created
    ensures k in s.rows ==> AlikeBackend(norm, D.ToDomain(k, s.rows[k]), D.ToDomain(k, t.rows[k]))
  {
    assert k in s.rows <==> k in D.View(s).store;
    assert k in t.rows <==> k in D.View(t).store;
    assert k in s.rows ==> D.View(s).store[k] == Stamp(k, s.rows[k]) && D.View(t).store[k] == Stamp(k, t.rows[k]);
  }

  lemma PostRows(norm: Normalizer, s: D.DbState, t: D.DbState, b: Backend, w: Backend, now: int, round: int -> int)
    requires AlikeView(norm, D.View(s), D.View(t)) && AlikeBackend(norm, b, w) && s.etag + 1 < TWO_63
    ensures var (s', x), (t', y) := D.Step(s, Post(b), now, round), D.Step(t, Post(w), now, round);
      AlikeView(norm, D.View(s'), D.View(t')) && x == y
  {
    AlikeAt(norm, s, t, b.key);
    AlikeRows(norm, s, t, b.key, D.NewRow(b.sparse, round(now)), D.NewRow(w.sparse, round(now)), s.etag + 1);
  }

  lemma PutRows(norm: Normalizer, s: D.DbState, t: D.DbState, b: Backend, w: Backend, now: int, round: int -> int)
    requires AlikeView(norm, D.View(s), D.View(t)) && AlikeBackend(norm, b, w) && s.etag + 1 < TWO_63
    ensures var (s', x), (t', y) := D.Step(s, Put(b), now, round), D.Step(t, Put(w), now, round);
      AlikeView(norm, D.View(s'), D.View(t')) && x == y
  {
    var k := b.key;
    AlikeAt(norm, s, t, k);
    var x, y := D.Step(s, Put(b), now, round).0.rows[k], D.Step(t, Put(w), now, round).0.rows[k];
    AlikeRows(norm, s, t, k, x, y, s.etag + 1);
  }

  lemma PatchRows(norm: Normalizer, s: D.DbState, t: D.DbState, k: Key, p: PatchFields, now: int, round: int -> int)
    requires AlikeView(norm, D.View(s), D.View(t)) && k in s.rows && s.etag + 1 < TWO_63
    requires p.name == Some(None) ==> s.rows[k].name.None?
    ensures var q := if p.name == Some(None) then p.(name := None) else p;
      var (s', x), (t', y) := D.Step(s, Patch(k, p), now, round), D.Step(t, Patch(k, q), now, round);
      AlikeView(norm, D.View(s'), D.View(t')) && x == y
  {
    var q := if p.name == Some(None) then p.(name := None) else p;
    AlikeAt(norm, s, t, k);
    var r, x := D.PatchedRow(s.rows[k], p, round(now)), D.PatchedRow(t.rows[k], q, round(now));
    AlikeRows(norm, s, t, k, r, x, s.etag + 1);
  }

  lemma DeleteRows(norm: Normalizer, s: D.DbState, t: D.DbState, k: Key)
    requires AlikeView(norm, D.View(s), D.View(t)) && s.etag + 1 < TWO_63
    ensures AlikeView(norm, D.View(D.DbState(s.rows - {k}, s.etag + 1)), D.View(D.DbState(t.rows - {k}, s.etag + 1)))
  {
    var m, n := D.View(s), D.View(t);
    assert D.View(D.DbState(s.rows - {k}, s.etag + 1)).store == m.store - {k};
    assert D.View(D.DbState(t.rows - {k}, s.etag + 1)).store == n.store - {k};
  }

  lemma DbWrites(norm: Normalizer, s: D.DbState, t: D.DbState, req: Request, below: Request, now: int,
                 round: int -> int)
    requires AlikeView(norm, D.View(s), D.View(t)) && s.etag + 1 < TWO_63
    requires Follows(norm, req, below) && !Reads(req) && !Clears(C.Db(s), req)
    ensures var (s', a), (t', b) := D.Step(s, req, now, round), D.Step(t, below, now, round);
      AlikeView(norm, D.View(s'), D.View(t')) && a == b
  {
    match req
    case Post(b) => PostRows(norm, s, t, b, below.backend, now, round);
    case Put(b) => PutRows(norm, s, t, b, below.backend, now, round);
    case Patch(k, p) =>
      AlikeAt(norm, s, t, k);
      if k in s.rows {
        PatchRows(norm, s, t, k, p, now, round);
      }
    case Delete(k) =>
      AlikeAt(norm, s, t, k);
      DeleteRows(norm, s, t, k);
  }

  /** What a read gives depends on the view only. */
  lemma ReadsSeeViews(s: D.DbState, req: Request, now: int, round: int -> int)
    requires Reads(req)
    ensures D.Step(s, req, now, round).0 == s
    ensures D.Step(s, req, now, round).1 == M.Step(D.View(s), req, 0).1
  {
  }

  /** Stores alike, given a request and the request as it comes through, stay alike and give answers seen alike. */
  lemma AlikeStep(norm: Normalizer, s: C.Store, t: C.Store, req: Request, now: int, round: int -> int)
    requires Stable(norm) && Alike(norm, s, t) && Carried(norm, s, req) && Room(s, 1)
    ensures Through(norm, req).Some?
    ensures var (s', a), (t', b) := Serve(s, req, now, round), Serve(t, Through(norm, req).value, now, round);
      Alike(norm, s', t') && Seen(norm, req, a) == Seen(norm, req, b)
  {
    ThroughFollows(norm, s, req);
    if Reads(req) {
      SeenReads(norm, C.Records(s), C.Records(t), req);
      if s.Db? {
        ReadsSeeViews(s.db, req, now, round);
        ReadsSeeViews(t.db, req, now, round);
      }
    } else if s.Mem? {
      MemWrites(norm, s.m, t.m, req, Through(norm, req).value, now);
    } else {
      DbWrites(norm, s.db, t.db, req, Through(norm, req).value, now, round);
    }
  }

  // ---- One request through a tower ----

  lemma AlikeSelf(norm: Normalizer, s: C.Store)
    ensures Alike(norm, s, s)
  {
  }

  lemma TowerOverStore(norm: Normalizer, depth: nat, s: C.Store, req: Request, now: int, round: int -> int)
    requires Stable(norm) && depth > 0
    ensures Tower(norm, StoreAt(now, round), depth, s, req) ==
      match Through(norm, req)
      case None => (s, Failed(Upstream))
      case Some(below) => (Serve(s, below, now, round).0, Seen(norm, req, Serve(s, below, now, round).1))
  {
    TowerCollapses(norm, StoreAt(now, round), depth, s, req);
  }

  lemma ServeSucceeds(s: C.Store, req: Request, now: int, round: int -> int)
    requires Room(s, 1)
    ensures !Serve(s, req, now, round).1.Failed?
  {
  }

  lemma ClearedName(s: C.Store, req: Request, now: int, round: int -> int)
    requires Room(s, 1) && Clears(s, req)
    ensures var t := Serve(s, req, now, round).0;
      req.key in C.Records(t).store && C.Records(t).store[req.key].backend.sparse.name.None?
  {
  }

  lemma KeptName(norm: Normalizer, s: C.Store, req: Request, now: int, round: int -> int)
    requires Room(s, 1) && Clears(s, req)
    ensures Through(norm, req).Some?
    ensures var t := Serve(s, Through(norm, req).value, now, round).0;
      req.key in C.Records(t).store && C.Records(t).store[req.key].backend.sparse.name.Some?
  {
  }

  lemma NotCarried(norm: Normalizer, depth: nat, s: C.Store, req: Request, now: int, round: int -> int)
    requires Stable(norm) && depth > 0 && Room(s, 1) && !Carried(norm, s, req)
    ensures var (t, a), (t', a') := Serve(s, req, now, round), Tower(norm, StoreAt(now, round), depth, s, req);
      !Alike(norm, t, t') || a' != Seen(norm, req, a)
  {
    TowerOverStore(norm, depth, s, req, now, round);
    ServeSucceeds(s, req, now, round);
    if Clears(s, req) {
      ClearedName(s, req, now, round);
      KeptName(norm, s, req, now, round);
      NamesDiffer(norm, Serve(s, req, now, round).0, Serve(s, Through(norm, req).value, now, round).0, req.key);
    }
  }

  lemma NamesDiffer(norm: Normalizer, s: C.Store, t: C.Store, k: Key)
    requires k in C.Records(s).store && C.Records(s).store[k].backend.sparse.name.None?
    requires k in C.Records(t).store && C.Records(t).store[k].backend.sparse.name.Some?
    ensures !Alike(norm, s, t)
  {
  }

  /** Over any state of either store, any number of layers does to the state and gives for an answer what the bare store
      does, up to the printing of implementations, exactly when what a post or put sends is JSON and a patch does not
      clear a name there is. */
  lemma LayersActExactly(norm: Normalizer, depth: nat, s: C.Store, req: Request, now: int, round: int -> int)
    requires Stable(norm) && depth > 0 && Room(s, 1)
    ensures var (t, a), (t', a') := Serve(s, req, now, round), Tower(norm, StoreAt(now, round), depth, s, req);
      Alike(norm, t, t') && a' == Seen(norm, req, a) <==> Carried(norm, s, req)
  {
    if Carried(norm, s, req) {
      TowerOverStore(norm, depth, s, req, now, round);
      AlikeSelf(norm, s);
      AlikeStep(norm, s, s, req, now, round);
    } else {
      NotCarried(norm, depth, s, req, now, round);
    }
  }

  // ---- Whole runs ----

  ghost function Answers(s: C.Store, log: seq<D.Timed>, round: int -> int): seq<Answer> {
    match s case Mem(m) => R.MemAnswers(m, log) case Db(db) => R.DbAnswers(db, log, round)
  }

  ghost function TowerAnswers(norm: Normalizer, depth: nat, s: C.Store, log: seq<D.Timed>, round: int -> int)
    : seq<Answer>
    decreases |log|
  {
    if log == [] then []
    else
      var (next, a) := Tower(norm, StoreAt(log[0].now, round), depth, s, log[0].req);
      [a] + TowerAnswers(norm, depth, next, log[1..], round)
  }

  ghost function AllSeen(norm: Normalizer, log: seq<D.Timed>, answers: seq<Answer>): seq<Answer>
    requires |log| == |answers|
  {
    seq(|log|, i requires 0 <= i < |log| => Seen(norm, log[i].req, answers[i]))
  }

  lemma {:induction false} OneAnswerEach(s: C.Store, log: seq<D.Timed>, round: int -> int)
    ensures |Answers(s, log, round)| == |log|
    ensures log != [] ==>
      var (next, a) := Serve(s, log[0].req, log[0].now, round);
      Answers(s, log, round) == [a] + Answers(next, log[1..], round)
    decreases |log|
  {
    if log != [] {
      OneAnswerEach(Serve(s, log[0].req, log[0].now, round).0, log[1..], round);
    }
  }

  lemma RoomShrinks(s: C.Store, req: Request, now: int, round: int -> int, steps: nat)
    requires Room(s, steps + 1)
    ensures Room(Serve(s, req, now, round).0, steps)
  {
    if s.Db? {
      D.EtagTracksRows(s.db, req, now, round);
    }
  }

  ghost predicate CarriedRun(norm: Normalizer, s: C.Store, log: seq<D.Timed>, round: int -> int)
    decreases |log|
  {
    log != [] ==>
      && Carried(norm, s, log[0].req)
      && CarriedRun(norm, Serve(s, log[0].req, log[0].now, round).0, log[1..], round)
  }

  /** Over a whole run of such requests, with implementations of any JSON and any formatting, a tower of any height over
      a store alike answers what the bare store answers, as it is seen after printing; not-modified answers included. */
  lemma {:induction false} TowerFollowsRun(norm: Normalizer, depth: nat, s: C.Store, t: C.Store, log: seq<D.Timed>,
                                           round: int -> int)
    requires Stable(norm) && depth > 0 && Alike(norm, s, t) && Room(s, |log|)
    requires CarriedRun(norm, s, log, round)
    ensures |Answers(s, log, round)| == |log|
    ensures TowerAnswers(norm, depth, t, log, round) == AllSeen(norm, log, Answers(s, log, round))
    decreases |log|
  {
    OneAnswerEach(s, log, round);
    if log != [] {
      var req, now := log[0].req, log[0].now;
      var (next, a) := Serve(s, req, now, round);
      var (next', a') := Tower(norm, StoreAt(now, round), depth, t, req);
      TowerOverStore(norm, depth, t, req, now, round);
      AlikeStep(norm, s, t, req, now, round);
      RoomShrinks(s, req, now, round, |log| - 1);
      assert a' == Seen(norm, req, a) && Alike(norm, next, next');
      TowerFollowsRun(norm, depth, next, next', log[1..], round);
      AllSeenStep(norm, log, a, Answers(next, log[1..], round));
    }
  }

  lemma AllSeenStep(norm: Normalizer, log: seq<D.Timed>, a: Answer, rest: seq<Answer>)
    requires |log| == 1 + |rest|
    ensures AllSeen(norm, log, [a] + rest) == [Seen(norm, log[0].req, a)] + AllSeen(norm, log[1..], rest)
  {
  }

  // ---- When the layers cannot be told from the store ----

  ghost predicate AllCanonical(norm: Normalizer, s: C.Store) {
    forall k | k in C.Records(s).store :: Canonical(norm, C.Records(s).store[k].backend)
  }

  /** What the layers do to a canonical store exactly as the store would: implementations that print as they are, or
      JSON that a duplicate post does not store, and patches that do not clear a name. */
  predicate Unnoticed(norm: Normalizer, s: C.Store, req: Request) {
    && (req.Put? ==> Canonical(norm, req.backend))
    && (req.Post? ==>
          Canonical(norm, req.backend) || (req.backend.key in C.Records(s).store && Json(norm, req.backend)))
    && !Clears(s, req)
  }

  lemma ListedCanonical(norm: Normalizer, m: M.MemState)
    requires forall k | k in m.store :: Canonical(norm, m.store[k].backend)
    ensures WireBackends(norm, M.Values(M.Shown(m))) == Some(M.Values(M.Shown(m)))
  {
    var l := M.Values(M.Shown(m));
    M.ValuesOf(m, M.Shown(m));
    forall b | b in l ensures Canonical(norm, b) {
    }
    WireKeeps(norm, l);
  }

  /** Read from a canonical store, or answering a write, an answer is seen as it is. */
  lemma SeenAsIs(norm: Normalizer, s: C.Store, req: Request, now: int, round: int -> int)
    requires AllCanonical(norm, s) && Room(s, 1)
    ensures Seen(norm, req, Serve(s, req, now, round).1) == Serve(s, req, now, round).1
  {
    ServeSucceeds(s, req, now, round);
    if req.Get? && req.key in C.Records(s).store {
      assert Canonical(norm, C.Records(s).store[req.key].backend);
      assert s.Db? ==> D.View(s.db).store[req.key].backend == D.ToDomain(req.key, s.db.rows[req.key]);
    }
    if req.Get? && s.Db? {
      assert req.key in s.db.rows <==> req.key in D.View(s.db).store;
    }
    if req.GetAll? {
      ListedCanonical(norm, C.Records(s));
    }
  }

  /** Nothing is lost on the way of such a request, or what is lost makes no difference. */
  lemma UnnoticedServes(norm: Normalizer, s: C.Store, req: Request, now: int, round: int -> int)
    requires Unnoticed(norm, s, req)
    ensures Through(norm, req).Some? && Serve(s, Through(norm, req).value, now, round) == Serve(s, req, now, round)
  {
    if req.Patch? && s.Mem? && req.key in s.m.store && req.fields.name == Some(None) {
      var was := s.m.store[req.key].backend.sparse;
      assert Patched(was, req.fields) == Patched(was, req.fields.(name := None));
    }
  }

  lemma CarriedButNoticed(norm: Normalizer, s: C.Store, req: Request, now: int, round: int -> int)
    requires Carried(norm, s, req) && !Unnoticed(norm, s, req) && Room(s, 1)
    ensures Through(norm, req).Some?
    ensures Serve(s, Through(norm, req).value, now, round).0 != Serve(s, req, now, round).0
  {
    var b, w := req.backend, WireBackend(norm, req.backend).value;
    var t, t' := Serve(s, req, now, round).0, Serve(s, Through(norm, req).value, now, round).0;
    assert b.sparse.implementation != w.sparse.implementation;
    assert C.Records(t).store[b.key].backend.sparse.implementation == b.sparse.implementation;
    assert C.Records(t').store[b.key].backend.sparse.implementation == w.sparse.implementation;
  }

  /** Over a store whose implementations print as they are, any number of layers is the store, to the last byte,
      exactly for the requests that go unnoticed. */
  lemma LayersAreTheStoreExactly(norm: Normalizer, depth: nat, s: C.Store, req: Request, now: int, round: int -> int)
    requires Stable(norm) && depth > 0 && AllCanonical(norm, s) && Room(s, 1)
    ensures Tower(norm, StoreAt(now, round), depth, s, req) == Serve(s, req, now, round) <==> Unnoticed(norm, s, req)
  {
    TowerOverStore(norm, depth, s, req, now, round);
    SeenAsIs(norm, s, req, now, round);
    if Unnoticed(norm, s, req) {
      UnnoticedServes(norm, s, req, now, round);
    } else if Carried(norm, s, req) {
      CarriedButNoticed(norm, s, req, now, round);
    } else {
      NotCarried(norm, depth, s, req, now, round);
      AlikeSelf(norm, Serve(s, req, now, round).0);
    }
  }

  ghost predicate UnnoticedRun(norm: Normalizer, s: C.Store, log: seq<D.Timed>, round: int -> int)
    decreases |log|
  {
    log != [] ==>
      && Unnoticed(norm, s, log[0].req)
      && UnnoticedRun(norm, Serve(s, log[0].req, log[0].now, round).0, log[1..], round)
  }

  lemma StaysCanonical(norm: Normalizer, s: C.Store, req: Request, now: int, round: int -> int)
    requires AllCanonical(norm, s) && Unnoticed(norm, s, req)
    ensures AllCanonical(norm, Serve(s, req, now, round).0)
  {
    var t := Serve(s, req, now, round).0;
    forall k | k in C.Records(t).store ensures Canonical(norm, C.Records(t).store[k].backend) {
      assert k in C.Records(s).store ==> Canonical(norm, C.Records(s).store[k].backend);
      assert s.Db? && k in s.db.rows ==> D.View(s.db).store[k].backend == D.ToDomain(k, s.db.rows[k]);
    }
  }

  /** Over a whole run of such requests no number of layers can be noticed, over either store. */
  lemma {:induction false} TowerIsTransparent(norm: Normalizer, depth: nat, s: C.Store, log: seq<D.Timed>,
                                              round: int -> int)
    requires Stable(norm) && AllCanonical(norm, s) && Room(s, |log|)
    requires UnnoticedRun(norm, s, log, round)
    ensures TowerAnswers(norm, depth, s, log, round) == Answers(s, log, round)
    decreases |log|
  {
    OneAnswerEach(s, log, round);
    if log != [] {
      var req, now := log[0].req, log[0].now;
      if depth > 0 {
        LayersAreTheStoreExactly(norm, depth, s, req, now, round);
      }
      StaysCanonical(norm, s, req, now, round);
      RoomShrinks(s, req, now, round, |log| - 1);
      TowerIsTransparent(norm, depth, Serve(s, req, now, round).0, log[1..], round);
    }
  }

  /** The one patch that gets lost: clearing a name through layers leaves it as it was and is answered as done. */
  lemma ClearingNameIsLost(norm: Normalizer, depth: nat, b: Backend, now: int, round: int -> int)
    requires Stable(norm) && depth > 0 && b.sparse.name.Some?
    ensures var s := C.Mem(M.Step(M.EMPTY, Post(b), now).0);
      var clear := Patch(b.key, PatchFields(Some(None), None, None, None));
      && Serve(s, clear, now, round).0.m.store[b.key].backend.sparse.name == None
      && Tower(norm, StoreAt(now, round), depth, s, clear) == (C.Mem(M.MemState(s.m.store, 2)), Flag(true))
  {
    var s := C.Mem(M.Step(M.EMPTY, Post(b), now).0);
    TowerOverStore(norm, depth, s, Patch(b.key, PatchFields(Some(None), None, None, None)), now, round);
    assert s.m.store[b.key := M.Stamped(now, b)] == s.m.store;
    assert Patched(b.sparse, PatchFields(None, None, None, None)) == b.sparse;
  }

  // ---- The discovery service behind layers ----

  /** get_all through `depth` layers over a store whose etag and rows are read at different moments. */
  ghost function LayeredRead(norm: Normalizer, depth: nat, first: C.Store, later: C.Store, etag: Option<u64>)
    : (a: Answer)
    ensures Fits(GetAll(etag), a)
  {
    if depth == 0 then All(C.ReadAcross(first, later, etag))
    else
      match Send(norm, GetAll(etag))
      case None => Failed(Upstream)
      case Some(h) =>
        match Dispatch(h)
        case Some(GetAll(e)) =>
          Receive(GetAll(etag), Respond(norm, GetAll(e), LayeredRead(norm, depth - 1, first, later, e)))
        case _ => Receive(GetAll(etag), Status(BAD_REQUEST))
  }

  lemma {:induction false} LayeredReadIsSeen(norm: Normalizer, depth: nat, first: C.Store, later: C.Store,
                                             etag: Option<u64>)
    requires Stable(norm) && depth > 0
    ensures LayeredRead(norm, depth, first, later, etag)
      == Seen(norm, GetAll(etag), All(C.ReadAcross(first, later, etag)))
  {
    var req, a := GetAll(etag), All(C.ReadAcross(first, later, etag));
    WireIsThrough(norm, req);
    if depth == 1 {
      WireIsSeen(norm, req, a);
    } else {
      LayeredReadIsSeen(norm, depth - 1, first, later, etag);
      SeenTwice(norm, req, a);
      WireIsSeen(norm, req, Seen(norm, req, a));
    }
  }

  /** The provider is `depth` layers: records reach the service re-printed, or not at all. */
  ghost predicate Behind(norm: Normalizer, cfg: Config) {
    forall b :: cfg.carry(b) == WireBackend(norm, b)
  }

  lemma {:induction false} CarriedIsWired(norm: Normalizer, cfg: Config, l: seq<Backend>)
    requires Behind(norm, cfg)
    ensures C.CarriedAll(cfg, l) == WireBackends(norm, l)
  {
    if l != [] {
      CarriedIsWired(norm, cfg, l[1..]);
    }
  }

  /** What the service gets through any number of layers, wherever mutations land between the two queries below. */
  lemma LayersDeliver(norm: Normalizer, cfg: Config, depth: nat, first: C.Store, later: C.Store, etag: Option<u64>)
    requires Stable(norm) && depth > 0 && Behind(norm, cfg)
    ensures LayeredRead(norm, depth, first, later, etag) ==
      match C.Delivery(cfg, C.ReadAcross(first, later, etag))
      case None => Failed(Upstream)
      case Some(answer) => All(answer)
  {
    LayeredReadIsSeen(norm, depth, first, later, etag);
    var read := C.ReadAcross(first, later, etag);
    if read.backends.Some? {
      CarriedIsWired(norm, cfg, read.backends.value);
    }
  }

  /** Whether a client can be built depends on what an implementation says, not on how it is printed. */
  ghost predicate PrintingBlind(norm: Normalizer, cfg: Config) {
    forall b | Json(norm, b) :: cfg.connects(WireBackend(norm, b).value) == cfg.connects(b)
  }

  lemma WiredShowsAlike(norm: Normalizer, cfg: Config, b: Backend)
    requires PrintingBlind(norm, cfg) && Json(norm, b)
    ensures var w := WireBackend(norm, b).value;
      && Identity(cfg, w) == Identity(cfg, b) && Publish(cfg, w) == Publish(cfg, b)
      && w.sparse.enabled == b.sparse.enabled && (Eligible(cfg, w) <==> Eligible(cfg, b))
  {
  }

  lemma DeliveredFrom(norm: Normalizer, cfg: Config, s: C.Store, w: Backend) returns (b: Backend)
    requires Behind(norm, cfg) && w in C.Delivered(cfg, s)
    ensures b in C.Content(s) && Json(norm, b) && WireBackend(norm, b) == Some(w)
  {
    b :| b in C.Content(s) && cfg.carry(b) == Some(w);
  }

  lemma DeliveredShowsAlike(norm: Normalizer, cfg: Config, s: C.Store)
    requires Behind(norm, cfg) && PrintingBlind(norm, cfg) && C.Deliverable(cfg, s)
    ensures Projection(cfg, C.Delivered(cfg, s)) == Projection(cfg, C.Content(s))
  {
    forall p ensures p in Projection(cfg, C.Delivered(cfg, s)) <==> p in Projection(cfg, C.Content(s)) {
      if p in Projection(cfg, C.Delivered(cfg, s)) {
        var w :| w in C.Delivered(cfg, s) && Eligible(cfg, w) && Publish(cfg, w) == p;
        var b := DeliveredFrom(norm, cfg, s, w);
        WiredShowsAlike(norm, cfg, b);
      }
      if p in Projection(cfg, C.Content(s)) {
        var b :| b in C.Content(s) && Eligible(cfg, b) && Publish(cfg, b) == p;
        WiredShowsAlike(norm, cfg, b);
        assert cfg.carry(b).value in C.Delivered(cfg, s);
      }
    }
  }

  lemma DeliveredSeparate(norm: Normalizer, cfg: Config, s: C.Store)
    requires Behind(norm, cfg) && PrintingBlind(norm, cfg) && Separate(cfg, C.Content(s))
    ensures Separate(cfg, C.Delivered(cfg, s))
  {
    forall v, w | v in C.Delivered(cfg, s) && w in C.Delivered(cfg, s)
      ensures Identity(cfg, v) == Identity(cfg, w) ==> v == w
      ensures cfg.hash(Identity(cfg, v)) == cfg.hash(Identity(cfg, w)) ==> v.sparse.enabled == w.sparse.enabled
    {
      var a := DeliveredFrom(norm, cfg, s, v);
      var b := DeliveredFrom(norm, cfg, s, w);
      WiredShowsAlike(norm, cfg, a);
      WiredShowsAlike(norm, cfg, b);
    }
  }

  lemma DeliveredEnables(norm: Normalizer, cfg: Config, s: C.Store, flags: map<u64, bool>)
    requires Behind(norm, cfg) && PrintingBlind(norm, cfg) && C.Deliverable(cfg, s)
    requires Enables(cfg, C.Delivered(cfg, s), flags)
    ensures Enables(cfg, C.Content(s), flags)
  {
    forall b | b in C.Content(s) && Eligible(cfg, b)
      ensures var h := cfg.hash(Identity(cfg, b)); h in flags && flags[h] == b.sparse.enabled
    {
      WiredShowsAlike(norm, cfg, b);
      assert cfg.carry(b).value in C.Delivered(cfg, s);
    }
  }

  /** Exactly the projection of the store's own records, and their flags, as of a version current during the call. */
  ghost predicate TrueToStore(cfg: Config, history: seq<C.Store>, o: C.Outcome) {
    && o.begin <= o.version <= o.end < |history|
    && o.published == Projection(cfg, C.Content(history[o.version]))
    && Enables(cfg, C.Content(history[o.version]), o.flags)
  }

  lemma ExactIsTrue(norm: Normalizer, cfg: Config, history: seq<C.Store>, o: C.Outcome)
    requires Behind(norm, cfg) && PrintingBlind(norm, cfg)
    requires C.Exact(cfg, history, o) && C.Deliverable(cfg, history[o.version])
    ensures TrueToStore(cfg, history, o)
  {
    DeliveredShowsAlike(norm, cfg, history[o.version]);
    DeliveredEnables(norm, cfg, history[o.version], o.flags);
  }

  /** Coherence is not lost behind any number of layers: over every run with stored implementations that are JSON, each
      successful call is true to the store beneath them, and versions never go back. */
  lemma CoherenceBehindLayers(norm: Normalizer, cfg: Config, round: int -> int, w: C.World, actions: seq<C.Action>)
    requires Behind(norm, cfg) && PrintingBlind(norm, cfg)
    requires C.Start(w) && |actions| + 1 < TWO_64
    requires forall s | s in C.Run(cfg, round, w, actions).history ::
      Separate(cfg, C.Content(s)) && C.Deliverable(cfg, s)
    ensures var x := C.Run(cfg, round, w, actions);
      && (forall o | o in x.outcomes :: TrueToStore(cfg, x.history, o))
      && (forall i, j | 0 <= i < j < |x.outcomes| :: x.outcomes[i].version <= x.outcomes[j].version)
  {
    var x := C.Run(cfg, round, w, actions);
    forall s | s in x.history ensures Separate(cfg, C.Delivered(cfg, s)) {
      DeliveredSeparate(norm, cfg, s);
    }
    C.CacheCoherence(cfg, round, w, actions);
    assert C.Coherent(cfg, x);
    forall o | o in x.outcomes ensures TrueToStore(cfg, x.history, o) {
      assert C.Exact(cfg, x.history, o) && x.history[o.version] in x.history;
      ExactIsTrue(norm, cfg, x.history, o);
    }
  }
}
