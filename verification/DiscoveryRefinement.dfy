/** The SQL store against the map store: when one simulates the other, and exactly where they part. */
module DiscoveryRefinement {
  import opened Types
  import opened DiscoveryApi
  import opened Listing
  import M = MemoryDiscovery
  import D = DbDiscovery

  /** The map store with its creation times at database precision. */
  function Rounded(m: M.MemState, round: int -> int): M.MemState {
    m.(store := map k | k in m.store :: m.store[k].(created := round(m.store[k].created)))
  }

  /** Same backends under the same keys, same etag, creation times equal up to rounding. */
  ghost predicate Simulates(db: D.DbState, m: M.MemState, round: int -> int) {
    D.View(db) == Rounded(m, round) && M.Valid(m)
  }

  predicate Survives(w: u64) {
    w < TWO_31 || TWO_64 - TWO_31 <= w
  }

  /** Rounding merges no two creation times whose order disagrees with the order of their keys. */
  ghost predicate NoInversion(m: M.MemState, round: int -> int) {
    forall j, k | j in m.store && k in m.store && m.store[j].created < m.store[k].created
      && round(m.store[j].created) == round(m.store[k].created) :: j < k
  }

  /** What a caller can check beforehand: weights fit the column, a put over an existing key keeps its partitions, and a
      listing is asked for at a time when rounding has not reordered it. */
  ghost predicate Fitting(m: M.MemState, req: Request, round: int -> int) {
    match req
    case Get(_) => true
    case GetAll(etag) => etag == Some(m.etag) || NoInversion(m, round)
    case Post(b) => b.key in m.store || Survives(b.sparse.weight)
    case Put(b) =>
      && Survives(b.sparse.weight)
      && (b.key in m.store ==> b.sparse.partitions == m.store[b.key].backend.sparse.partitions)
    case Patch(k, p) => k in m.store && p.weight.Some? ==> Survives(p.weight.value)
    case Delete(_) => true
  }

  /** A put over an existing key that was not created, as stored, one second ahead of the put's clock reading. */
  predicate Telling(m: M.MemState, req: Request, now: int, round: int -> int) {
    req.Put? && req.backend.key in m.store ==> round(m.store[req.backend.key].created) != round(now + D.SECOND)
  }

  ghost predicate Agreeable(m: M.MemState, req: Request, now: int, round: int -> int) {
    Fitting(m, req, round) && Telling(m, req, now, round)
  }

  lemma RoundedEntries(m: M.MemState, round: int -> int)
    ensures M.EntriesOf(Rounded(m, round), m.store.Keys) == RetimedSet(M.EntriesOf(m, m.store.Keys), round)
  {
    var r := Rounded(m, round);
    forall k | k in m.store ensures M.EntryAt(r, k) == Retimed(M.EntryAt(m, k), round) {
      assert r.store[k] == m.store[k].(created := round(m.store[k].created));
    }
    forall e ensures e in M.EntriesOf(r, m.store.Keys) <==> e in RetimedSet(M.EntriesOf(m, m.store.Keys), round) {
      if e in M.EntriesOf(r, m.store.Keys) {
        assert M.EntryAt(m, e.id) in M.EntriesOf(m, m.store.Keys);
      }
    }
  }

  lemma ValuesFollowIds(l: seq<Entry<Backend>>, r: seq<Entry<Backend>>)
    requires |l| == |r|
    requires forall i | 0 <= i < |l| :: l[i].value.key == l[i].id && r[i].value.key == r[i].id
    ensures M.Values(l) == M.Values(r) ==> Ids(l) == Ids(r)
  {
    if M.Values(l) == M.Values(r) {
      forall i | 0 <= i < |l| ensures Ids(l)[i] == Ids(r)[i] {
        assert M.Values(l)[i] == M.Values(r)[i];
      }
    }
  }

  lemma SameValues(l: seq<Entry<Backend>>, r: seq<Entry<Backend>>)
    requires |l| == |r| && forall i | 0 <= i < |l| :: r[i].value == l[i].value
    ensures M.Values(l) == M.Values(r)
  {
  }

  lemma ShownAreKeyed(m: M.MemState)
    requires M.Valid(m)
    ensures forall i | 0 <= i < |M.Shown(m)| :: M.Shown(m)[i].value.key == M.Shown(m)[i].id
  {
    forall i | 0 <= i < |M.Shown(m)| ensures M.Shown(m)[i].value.key == M.Shown(m)[i].id {
      assert M.Shown(m)[i] in M.EntriesOf(m, m.store.Keys);
    }
  }

  lemma InversionsAreEntries(m: M.MemState, round: int -> int)
    ensures NoInversion(m, round) <==> !Inverts(M.EntriesOf(m, m.store.Keys), round)
  {
    var entries := M.EntriesOf(m, m.store.Keys);
    if !NoInversion(m, round) {
      var j, k :| j in m.store && k in m.store && m.store[j].created < m.store[k].created
        && round(m.store[j].created) == round(m.store[k].created) && !(j < k);
      InversionIsEntries(m, round, j, k);
    }
    if Inverts(entries, round) {
      var a, b :| a in entries && b in entries
        && a.created < b.created && round(a.created) == round(b.created) && b.id < a.id;
      assert a == M.EntryAt(m, a.id) && b == M.EntryAt(m, b.id);
    }
  }

  lemma InversionIsEntries(m: M.MemState, round: int -> int, j: Key, k: Key)
    requires j in m.store && k in m.store && m.store[j].created < m.store[k].created
    requires round(m.store[j].created) == round(m.store[k].created) && k <= j
    ensures Inverts(M.EntriesOf(m, m.store.Keys), round)
  {
    var entries := M.EntriesOf(m, m.store.Keys);
    assert M.EntryAt(m, j) in entries && M.EntryAt(m, k) in entries;
  }

  lemma SameIdsSameValues(m: M.MemState, round: int -> int)
    requires D.Rounding(round) && M.Valid(m) && NoInversion(m, round)
    ensures M.Values(M.Shown(m)) == M.Values(M.Shown(Rounded(m, round)))
  {
    var entries := M.EntriesOf(m, m.store.Keys);
    var l, r := M.Shown(m), M.Shown(Rounded(m, round));
    assert r == Arrange(RetimedSet(entries, round)) by {
      RoundedEntries(m, round);
      assert Rounded(m, round).store.Keys == m.store.Keys;
    }
    assert DistinctIds(entries);
    assert !Inverts(entries, round) by {
      InversionsAreEntries(m, round);
    }
    assert |l| == |r| && forall i | 0 <= i < |l| :: r[i] == Retimed(l[i], round) by {
      RetimedKeepsOrder(entries, round);
    }
    SameValues(l, r);
  }

  lemma OtherIdsOtherValues(m: M.MemState, round: int -> int)
    requires D.Rounding(round) && M.Valid(m) && !NoInversion(m, round)
    ensures M.Values(M.Shown(m)) != M.Values(M.Shown(Rounded(m, round)))
  {
    var l, r := M.Shown(m), M.Shown(Rounded(m, round));
    var entries := M.EntriesOf(m, m.store.Keys);
    assert r == Arrange(RetimedSet(entries, round)) && DistinctIds(RetimedSet(entries, round)) by {
      RoundedEntries(m, round);
      assert Rounded(m, round).store.Keys == m.store.Keys;
    }
    assert Ids(l) != Ids(r) by {
      InversionsAreEntries(m, round);
      RetimingExactly(entries, round);
    }
    ShownAreKeyed(m);
    ShownAreKeyed(Rounded(m, round));
    if |l| == |r| {
      ValuesFollowIds(l, r);
    } else {
      assert |M.Values(l)| != |M.Values(r)|;
    }
  }

  /** The two stores list the same backends in the same order exactly when rounding causes no inversion. */
  lemma ListingsAgreeExactly(m: M.MemState, round: int -> int)
    requires D.Rounding(round) && M.Valid(m)
    ensures M.Values(M.Shown(m)) == M.Values(M.Shown(Rounded(m, round))) <==> NoInversion(m, round)
  {
    if NoInversion(m, round) {
      SameIdsSameValues(m, round);
    } else {
      OtherIdsOtherValues(m, round);
    }
  }

  lemma SameRecord(db: D.DbState, m: M.MemState, round: int -> int, k: Key)
    requires D.View(db) == Rounded(m, round)
    ensures k in db.rows <==> k in m.store
    ensures k in m.store ==>
      && D.ToDomain(k, db.rows[k]) == m.store[k].backend
      && db.rows[k].created == round(m.store[k].created)
  {
    assert k in db.rows <==> k in D.View(db).store;
    if k in m.store {
      assert D.View(db).store[k] == Rounded(m, round).store[k];
    }
  }

  /** After a write of one row, the views agree when they agreed before and agree at that row. */
  lemma SameAfterWrite(db: D.DbState, m: M.MemState, round: int -> int, k: Key, row: D.Row, rec: M.Stamped)
    requires D.View(db) == Rounded(m, round)
    ensures D.View(db.(rows := db.rows[k := row])).store == Rounded(m.(store := m.store[k := rec]), round).store
       <==> D.ToDomain(k, row) == rec.backend && row.created == round(rec.created)
  {
    var a, b := D.View(db.(rows := db.rows[k := row])).store, Rounded(m.(store := m.store[k := rec]), round).store;
    assert forall j :: j in D.View(db).store <==> j in db.rows;
    forall j ensures j in a <==> j in b {
      SameRecord(db, m, round, j);
    }
    forall j | j in a && j != k ensures a[j] == b[j] {
      SameRecord(db, m, round, j);
      assert a[j] == M.Stamped(db.rows[j].created, D.ToDomain(j, db.rows[j]));
    }
    assert a[k] == M.Stamped(row.created, D.ToDomain(k, row));
    assert b[k] == rec.(created := round(rec.created));
    if D.ToDomain(k, row) == rec.backend && row.created == round(rec.created) {
      assert a == b;
    }
  }

  /** One request, both ways, at any clock reading: the stores answer alike and still correspond if and only if the
      request is agreeable. */
  lemma StepAgreesExactly(db: D.DbState, m: M.MemState, req: Request, now: int, round: int -> int)
    requires D.Rounding(round) && Simulates(db, m, round) && m.etag + 1 < TWO_63
    ensures var (db', a), (m', b) := D.Step(db, req, now, round), M.Step(m, req, now);
      a == b && Simulates(db', m', round) <==> Agreeable(m, req, now, round)
  {
    match req
    case Get(k) => SameRecord(db, m, round, k);
    case GetAll(_) => ListingsAgreeExactly(m, round);
    case Post(b) => PostAgrees(db, m, b, now, round);
    case Put(b) => PutAgrees(db, m, b, now, round);
    case Patch(k, p) => PatchAgrees(db, m, k, p, now, round);
    case Delete(k) => DeleteAgrees(db, m, k, now, round);
  }

  lemma CreateAgrees(db: D.DbState, m: M.MemState, b: Backend, now: int, round: int -> int)
    requires Simulates(db, m, round) && m.etag + 1 < TWO_63 && b.key !in m.store
    ensures var db', m' := D.DbState(db.rows[b.key := D.NewRow(b.sparse, round(now))], db.etag + 1),
                           M.MemState(m.store[b.key := M.Stamped(now, b)], M.Bump(m.etag));
      Simulates(db', m', round) <==> Survives(b.sparse.weight)
  {
    D.WeightSurvives(b.sparse.weight);
    SameAfterWrite(db, m, round, b.key, D.NewRow(b.sparse, round(now)), M.Stamped(now, b));
  }

  lemma PostAgrees(db: D.DbState, m: M.MemState, b: Backend, now: int, round: int -> int)
    requires Simulates(db, m, round) && m.etag + 1 < TWO_63
    ensures var (db', x), (m', y) := D.Step(db, Post(b), now, round), M.Step(m, Post(b), now);
      x == y && (Simulates(db', m', round) <==> Fitting(m, Post(b), round))
  {
    SameRecord(db, m, round, b.key);
    if b.key !in m.store {
      CreateAgrees(db, m, b, now, round);
    }
  }

  lemma PutAgrees(db: D.DbState, m: M.MemState, b: Backend, now: int, round: int -> int)
    requires Simulates(db, m, round) && m.etag + 1 < TWO_63
    ensures var (db', x), (m', y) := D.Step(db, Put(b), now, round), M.Step(m, Put(b), now);
      && (x == y <==> Telling(m, Put(b), now, round))
      && (Simulates(db', m', round) <==> Fitting(m, Put(b), round))
  {
    SameRecord(db, m, round, b.key);
    if b.key in m.store {
      PutOverAgrees(db, m, b, now, round);
    } else {
      CreateAgrees(db, m, b, now, round);
    }
  }

  lemma PutOverAgrees(db: D.DbState, m: M.MemState, b: Backend, now: int, round: int -> int)
    requires Simulates(db, m, round) && m.etag + 1 < TWO_63 && b.key in m.store
    ensures var (db', x), (m', y) := D.Step(db, Put(b), now, round), M.Step(m, Put(b), now);
      && (x == y <==> Telling(m, Put(b), now, round))
      && (Simulates(db', m', round) <==> Fitting(m, Put(b), round))
  {
    SameRecord(db, m, round, b.key);
    D.WeightSurvives(b.sparse.weight);
    var row := D.Upserted(db.rows[b.key], b.sparse, round(now + D.SECOND));
    SameAfterWrite(db, m, round, b.key, row, M.Stamped(m.store[b.key].created, b));
    assert row.created == round(m.store[b.key].created);
  }

  lemma PatchAgrees(db: D.DbState, m: M.MemState, k: Key, p: PatchFields, now: int, round: int -> int)
    requires Simulates(db, m, round) && m.etag + 1 < TWO_63
    ensures var (db', x), (m', y) := D.Step(db, Patch(k, p), now, round), M.Step(m, Patch(k, p), now);
      x == y && (Simulates(db', m', round) <==> Fitting(m, Patch(k, p), round))
  {
    SameRecord(db, m, round, k);
    if k in m.store {
      var row := D.PatchedRow(db.rows[k], p, round(now));
      var rec := m.store[k].(backend := m.store[k].backend.(sparse := Patched(m.store[k].backend.sparse, p)));
      PatchedAgrees(db.rows[k], m.store[k].backend, k, p, round(now));
      SameAfterWrite(db, m, round, k, row, rec);
    }
  }

  lemma PatchedAgrees(row: D.Row, b: Backend, k: Key, p: PatchFields, stamp: int)
    requires D.ToDomain(k, row) == b
    ensures D.ToDomain(k, D.PatchedRow(row, p, stamp)) == b.(sparse := Patched(b.sparse, p))
       <==> (p.weight.Some? ==> Survives(p.weight.value))
  {
    if p.weight.Some? {
      D.WeightSurvives(p.weight.value);
    }
  }

  lemma DeleteAgrees(db: D.DbState, m: M.MemState, k: Key, now: int, round: int -> int)
    requires Simulates(db, m, round) && m.etag + 1 < TWO_63
    ensures var (db', x), (m', y) := D.Step(db, Delete(k), now, round), M.Step(m, Delete(k), now);
      x == y && Simulates(db', m', round)
  {
    SameRecord(db, m, round, k);
    var db', m' := D.Step(db, Delete(k), now, round).0, M.Step(m, Delete(k), now).0;
    forall j ensures j in D.View(db').store <==> j in Rounded(m', round).store {
      SameRecord(db, m, round, j);
    }
    forall j | j in m'.store ensures D.View(db').store[j] == Rounded(m', round).store[j] {
      SameRecord(db, m, round, j);
    }
    assert D.View(db').store == Rounded(m', round).store;
  }

  ghost function DbAnswers(db: D.DbState, log: seq<D.Timed>, round: int -> int): seq<Answer>
    decreases |log|
  {
    if log == [] then []
    else
      var (next, a) := D.Step(db, log[0].req, log[0].now, round);
      [a] + DbAnswers(next, log[1..], round)
  }

  ghost function MemAnswers(m: M.MemState, log: seq<D.Timed>): seq<Answer>
    decreases |log|
  {
    if log == [] then []
    else
      var (next, a) := M.Step(m, log[0].req, log[0].now);
      [a] + MemAnswers(next, log[1..])
  }

  ghost predicate AgreeableRun(m: M.MemState, log: seq<D.Timed>, round: int -> int)
    decreases |log|
  {
    log != [] ==>
      && Agreeable(m, log[0].req, log[0].now, round)
      && AgreeableRun(M.Step(m, log[0].req, log[0].now).0, log[1..], round)
  }

  lemma HeadAgrees(db: D.DbState, m: M.MemState, log: seq<D.Timed>, round: int -> int)
    requires D.Rounding(round) && Simulates(db, m, round) && log != []
    requires Agreeable(m, log[0].req, log[0].now, round) && m.etag + |log| < TWO_63
    ensures var (db', a), (m', b) := D.Step(db, log[0].req, log[0].now, round), M.Step(m, log[0].req, log[0].now);
      && a == b
      && Simulates(db', m', round)
      && m'.etag + |log[1..]| < TWO_63
  {
    StepAgreesExactly(db, m, log[0].req, log[0].now, round);
    M.EtagTracksContent(m, log[0].req, log[0].now);
  }

  lemma {:induction false} RunsAgree(db: D.DbState, m: M.MemState, log: seq<D.Timed>, round: int -> int)
    requires D.Rounding(round) && Simulates(db, m, round)
    requires AgreeableRun(m, log, round) && m.etag + |log| < TWO_63
    ensures DbAnswers(db, log, round) == MemAnswers(m, log)
    decreases |log|
  {
    if log != [] {
      HeadAgrees(db, m, log, round);
      var req, now := log[0].req, log[0].now;
      RunsAgree(D.Step(db, req, now, round).0, M.Step(m, req, now).0, log[1..], round);
    }
  }

  /** From creation on, any run of agreeable requests, at any clock readings, gets the same answers, etags and listings
      from both stores. */
  lemma DbRefinesMemory(log: seq<D.Timed>, round: int -> int)
    requires D.Rounding(round)
    requires AgreeableRun(M.EMPTY, log, round) && |log| < TWO_63
    ensures DbAnswers(D.MIGRATED, log, round) == MemAnswers(M.EMPTY, log)
  {
    assert D.View(D.MIGRATED).store == Rounded(M.EMPTY, round).store;
    RunsAgree(D.MIGRATED, M.EMPTY, log, round);
  }

  ghost predicate FittingRun(m: M.MemState, log: seq<D.Timed>, round: int -> int)
    decreases |log|
  {
    log != [] ==>
      Fitting(m, log[0].req, round) && FittingRun(M.Step(m, log[0].req, log[0].now).0, log[1..], round)
  }

  /** Readings in the order of the requests make every put telling. */
  lemma {:induction false} FittingIsAgreeable(m: M.MemState, log: seq<D.Timed>, round: int -> int, clock: int)
    requires D.Rounding(round) && D.ClockRuns(clock, log) && FittingRun(m, log, round)
    requires M.Valid(m) && forall k | k in m.store :: m.store[k].created <= clock
    ensures AgreeableRun(m, log, round)
    decreases |log|
  {
    if log != [] {
      var req, now := log[0].req, log[0].now;
      forall k | k in m.store ensures round(m.store[k].created) != round(now + D.SECOND) {
        assert round(m.store[k].created) <= round(now) < round(now) + D.SECOND == round(now + D.SECOND);
      }
      M.EtagTracksContent(m, req, now);
      FittingIsAgreeable(M.Step(m, req, now).0, log[1..], round, now);
    }
  }

  lemma DbRefinesMemoryInOrder(log: seq<D.Timed>, round: int -> int, start: int)
    requires D.Rounding(round) && D.ClockRuns(start, log)
    requires FittingRun(M.EMPTY, log, round) && |log| < TWO_63
    ensures DbAnswers(D.MIGRATED, log, round) == MemAnswers(M.EMPTY, log)
  {
    FittingIsAgreeable(M.EMPTY, log, round, start);
    DbRefinesMemory(log, round);
  }

  /** A put over an existing backend with other partitions: the map store takes them, the SQL store keeps the old. */
  lemma PutLeavesPartitions(b: Backend, partitions: set<string>, round: int -> int)
    requires Survives(b.sparse.weight)
    ensures var moved := b.(sparse := b.sparse.(partitions := partitions));
      var db, m := D.Step(D.MIGRATED, Post(b), 0, round).0, M.Step(M.EMPTY, Post(b), 0).0;
      && D.Step(D.Step(db, Put(moved), 0, round).0, Get(b.key), 0, round).1 == Found(Some(b))
      && M.Step(M.Step(m, Put(moved), 0).0, Get(b.key), 0).1 == Found(Some(moved))
  {
    D.WeightSurvives(b.sparse.weight);
  }

  /** The smallest weight the SQL store gives back as another one. */
  lemma WeightWraps(b: Backend, round: int -> int)
    requires b.sparse.weight == TWO_31
    ensures var db := D.Step(D.MIGRATED, Post(b), 0, round).0;
      D.Step(db, Get(b.key), 0, round).1 == Found(Some(b.(sparse := b.sparse.(weight := TWO_64 - TWO_31))))
  {
  }

  /** Timestamps kept to the microsecond. */
  function Micros(t: int): int {
    t / 1000 * 1000
  }

  lemma MicrosSteps(a: int, b: int)
    ensures a <= b ==> Micros(a) <= Micros(b)
    ensures Micros(a + D.SECOND) == Micros(a) + D.SECOND
  {
    assert a <= b ==> a / 1000 <= b / 1000;
    assert (a + 1_000_000 * 1000) / 1000 == a / 1000 + 1_000_000;
  }

  lemma MicrosRound()
    ensures D.Rounding(Micros)
  {
    forall a, b | a <= b ensures Micros(a) <= Micros(b) {
      MicrosSteps(a, b);
    }
    forall a, b | b == a + D.SECOND ensures Micros(b) == Micros(a) + D.SECOND {
      MicrosSteps(a, b);
    }
  }

  lemma TwoListed(m: M.MemState, x: Entry<Backend>, y: Entry<Backend>)
    requires m.store == map[x.id := M.Stamped(x.created, x.value), y.id := M.Stamped(y.created, y.value)]
    requires x.id != y.id && Before(x, y)
    ensures M.Values(M.Shown(m)) == [x.value, y.value]
  {
    var entries, l := M.EntriesOf(m, m.store.Keys), [x, y];
    assert m.store.Keys == {x.id, y.id};
    assert M.EntryAt(m, x.id) == x && M.EntryAt(m, y.id) == y;
    assert entries == {x, y};
    assert IsListing(l, entries);
    ListingIsUnique(l, M.Shown(m), entries);
    assert M.Values(l) == [x.value, y.value];
  }

  lemma TwoPosted(a: Backend, b: Backend)
    requires b.key < a.key
    ensures var m := M.Step(M.Step(M.EMPTY, Post(a), 0).0, Post(b), 1).0;
      && m.store == map[a.key := M.Stamped(0, a), b.key := M.Stamped(1, b)]
      && M.Step(m, GetAll(None), 1).1 == All(Backends(2, Some([a, b])))
  {
    var m := M.Step(M.Step(M.EMPTY, Post(a), 0).0, Post(b), 1).0;
    assert m.store == map[a.key := M.Stamped(0, a), b.key := M.Stamped(1, b)];
    TwoListed(m, Entry(0, a.key, a), Entry(1, b.key, b));
  }

  lemma TwoRows(a: Backend, b: Backend)
    requires b.key < a.key && Survives(a.sparse.weight) && Survives(b.sparse.weight)
    ensures var db := D.Step(D.Step(D.MIGRATED, Post(a), 0, Micros).0, Post(b), 1, Micros).0;
      D.View(db) == M.MemState(map[a.key := M.Stamped(0, a), b.key := M.Stamped(0, b)], 2)
  {
    D.WeightSurvives(a.sparse.weight);
    D.WeightSurvives(b.sparse.weight);
    var d1 := D.Step(D.MIGRATED, Post(a), 0, Micros).0;
    assert d1 == D.DbState(map[a.key := D.NewRow(a.sparse, 0)], 1);
    var db := D.Step(d1, Post(b), 1, Micros).0;
    assert db == D.DbState(map[a.key := D.NewRow(a.sparse, 0), b.key := D.NewRow(b.sparse, 0)], 2);
    assert D.View(db).store == map[a.key := M.Stamped(0, a), b.key := M.Stamped(0, b)];
  }

  lemma TwoInserted(db: D.DbState, a: Backend, b: Backend)
    requires b.key < a.key
    requires D.View(db) == M.MemState(map[a.key := M.Stamped(0, a), b.key := M.Stamped(0, b)], 2)
    ensures D.Step(db, GetAll(None), 1, Micros).1 == All(Backends(2, Some([b, a])))
  {
    TwoListed(D.View(db), Entry(0, b.key, b), Entry(0, a.key, a));
  }

  lemma TwoCorrespond(db: D.DbState, m: M.MemState, a: Backend, b: Backend)
    requires b.key < a.key
    requires m == M.MemState(map[a.key := M.Stamped(0, a), b.key := M.Stamped(1, b)], 2)
    requires D.View(db) == M.MemState(map[a.key := M.Stamped(0, a), b.key := M.Stamped(0, b)], 2)
    ensures Simulates(db, m, Micros) && !NoInversion(m, Micros)
  {
    assert Micros(0) == 0 && Micros(1) == 0;
    assert Rounded(m, Micros).store == map[a.key := M.Stamped(0, a), b.key := M.Stamped(0, b)];
    assert m.store[a.key].created < m.store[b.key].created && !(a.key < b.key);
  }

  /** Two backends created within one microsecond, the greater key first: the map store lists them in the order of their
      creation, the SQL store by key, although the stores correspond. */
  lemma RoundingReorders(a: Backend, b: Backend)
    requires b.key < a.key && Survives(a.sparse.weight) && Survives(b.sparse.weight)
    ensures var m := M.Step(M.Step(M.EMPTY, Post(a), 0).0, Post(b), 1).0;
      var db := D.Step(D.Step(D.MIGRATED, Post(a), 0, Micros).0, Post(b), 1, Micros).0;
      && Simulates(db, m, Micros) && !NoInversion(m, Micros)
      && M.Step(m, GetAll(None), 1).1 == All(Backends(2, Some([a, b])))
      && D.Step(db, GetAll(None), 1, Micros).1 == All(Backends(2, Some([b, a])))
    ensures D.Rounding(Micros)
  {
    var m := M.Step(M.Step(M.EMPTY, Post(a), 0).0, Post(b), 1).0;
    var db := D.Step(D.Step(D.MIGRATED, Post(a), 0, Micros).0, Post(b), 1, Micros).0;
    TwoPosted(a, b);
    TwoRows(a, b);
    TwoInserted(db, a, b);
    TwoCorrespond(db, m, a, b);
    MicrosRound();
  }
}
