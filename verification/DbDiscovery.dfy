/** The SQL discovery store: one row per backend, and one row holding the etag. */
module DbDiscovery {
  import opened Types
  import opened DiscoveryApi
  import M = MemoryDiscovery

  const SECOND: int := 1_000_000_000

  datatype Row = Row(
    partitions: set<string>,
    name: Option<string>,
    weight: i32,
    enabled: bool,
    implementation: Bytes,
    created: int,
    updated: int)

  datatype DbState = DbState(rows: map<Key, Row>, etag: u63)

  /** The migration creates an empty table and an etag row holding 0. */
  const MIGRATED := DbState(map[], 0)

  /** How the database rounds a timestamp it stores. */
  ghost predicate Rounding(round: int -> int) {
    && (forall a, b {:trigger round(a), round(b)} | a <= b :: round(a) <= round(b))
    && (forall a, b {:trigger round(a), round(b)} | b == a + SECOND :: round(b) == round(a) + SECOND)
  }

  /** `as i32` on a 64-bit unsigned weight. */
  function ToI32(w: u64): i32 {
    var m := w % TWO_32;
    if m < TWO_31 then m else m - TWO_32
  }

  /** `as usize` on a 32-bit signed column: sign extension. */
  function FromI32(i: i32): u64 {
    if i < 0 then i + TWO_64 else i
  }

  function ToDomain(k: Key, r: Row): Backend {
    Backend(k, Sparse(r.name, r.partitions, FromI32(r.weight), r.enabled, r.implementation))
  }

  function NewRow(s: Sparse, stamp: int): Row {
    Row(s.partitions, s.name, ToI32(s.weight), s.enabled, s.implementation, stamp, stamp)
  }

  /** The ON CONFLICT branch of put: it names four columns, and partitions is not one of them. */
  function Upserted(r: Row, s: Sparse, updated: int): Row {
    r.(name := s.name,
       weight := ToI32(s.weight),
       enabled := s.enabled,
       implementation := s.implementation,
       updated := updated)
  }

  function PatchedRow(r: Row, p: PatchFields, updated: int): Row {
    r.(name := if p.name.Some? then p.name.value else r.name,
       partitions := if p.partitions.Some? then p.partitions.value else r.partitions,
       weight := if p.weight.Some? then ToI32(p.weight.value) else r.weight,
       enabled := if p.enabled.Some? then p.enabled.value else r.enabled,
       updated := updated)
  }

  /** The rows as a reader sees them: what `model_to_domain` and the ORDER BY columns make of them. */
  function View(s: DbState): M.MemState {
    M.MemState(map k | k in s.rows :: M.Stamped(s.rows[k].created, ToDomain(k, s.rows[k])), s.etag)
  }

  /** get_all: the etag is read from the database as it is first, the rows from the database as it is later. */
  ghost function GetAllAcross(first: DbState, later: DbState, ifNoneMatch: Option<u64>): Backends {
    if ifNoneMatch == Some(first.etag) then Backends(first.etag, None)
    else Backends(first.etag, Some(M.Values(M.Shown(View(later)))))
  }

  /** A transaction that writes rows and adds one to the etag column; an etag out of range aborts it. */
  function Commit(s: DbState, rows: map<Key, Row>, answer: Answer): (DbState, Answer) {
    if s.etag + 1 == TWO_63 then (s, Failed(Internal)) else (DbState(rows, s.etag + 1), answer)
  }

  ghost function Step(s: DbState, req: Request, now: int, round: int -> int): (DbState, Answer) {
    match req
    case Get(k) => (s, Found(if k in s.rows then Some(ToDomain(k, s.rows[k])) else None))
    case GetAll(etag) => (s, All(GetAllAcross(s, s, etag)))
    case Post(b) =>
      if b.key in s.rows then (s, Posted(None))
      else Commit(s, s.rows[b.key := NewRow(b.sparse, round(now))], Posted(Some(b.key)))
    case Put(b) =>
      var row :=
        if b.key in s.rows then Upserted(s.rows[b.key], b.sparse, round(now + SECOND))
        else NewRow(b.sparse, round(now));
      Commit(s, s.rows[b.key := row], Flag(row.created == row.updated))
    case Patch(k, p) =>
      if k !in s.rows then (s, Flag(false))
      else Commit(s, s.rows[k := PatchedRow(s.rows[k], p, round(now))], Flag(true))
    case Delete(k) =>
      if k !in s.rows then (s, Flag(false)) else Commit(s, s.rows - {k}, Flag(true))
  }

  /** The database, its statements run one transaction at a time. */
  class DbDiscoveryBackendStore {
    var rows: map<Key, Row>
    var etag: u63
    const round: int -> int

    ghost function State(): DbState
      reads this
    {
      DbState(rows, etag)
    }

    constructor MigrateUp(round: int -> int)
      ensures State() == MIGRATED && this.round == round
    {
      rows, etag, this.round := map[], 0, round;
    }

    /** UPDATE of the etag row; false when the column would overflow. */
    method IncrementEtag() returns (ok: bool)
      modifies this`etag
      ensures ok <==> old(etag) + 1 != TWO_63
      ensures etag == if ok then old(etag) + 1 else old(etag)
    {
      ok := etag + 1 != TWO_63;
      if ok {
        etag := etag + 1;
      }
    }

    method Get(k: Key) returns (r: Option<Backend>)
      ensures Found(r) == Step(State(), Request.Get(k), 0, round).1
    {
      r := if k in rows then Some(ToDomain(k, rows[k])) else None;
    }

    /** Both queries with nothing in between; `GetAllAcross` says what they give otherwise. */
    method GetAll(ifNoneMatch: Option<u64>) returns (r: Backends)
      ensures r == GetAllAcross(State(), State(), ifNoneMatch)
    {
      var responseEtag := etag;
      if ifNoneMatch == Some(responseEtag) {
        return Backends(responseEtag, None);
      }
      var models := M.SortedListing(View(DbState(rows, etag)));
      r := Backends(responseEtag, Some(M.Values(models)));
    }

    method Post(b: Backend, now: int) returns (r: Answer)
      modifies this
      ensures (State(), r) == Step(old(State()), Request.Post(b), now, round)
    {
      if b.key in rows {
        return Posted(None);
      }
      var ok := IncrementEtag();
      if !ok {
        return Failed(Internal);
      }
      rows := rows[b.key := NewRow(b.sparse, round(now))];
      r := Posted(Some(b.key));
    }

    method Put(b: Backend, now: int) returns (r: Answer)
      modifies this
      ensures (State(), r) == Step(old(State()), Request.Put(b), now, round)
    {
      var before := rows;
      var future := now + SECOND;
      if b.key in rows {
        rows := rows[b.key := Upserted(rows[b.key], b.sparse, round(future))];
      } else {
        rows := rows[b.key := NewRow(b.sparse, round(now))];
      }
      var created, updated := rows[b.key].created, rows[b.key].updated;
      var ok := IncrementEtag();
      if !ok {
        rows := before;
        return Failed(Internal);
      }
      r := Flag(created == updated);
    }

    method Patch(k: Key, p: PatchFields, now: int) returns (r: Answer)
      modifies this
      ensures (State(), r) == Step(old(State()), Request.Patch(k, p), now, round)
    {
      if k !in rows {
        return Flag(false);
      }
      var row := rows[k];
      if p.name.Some? {
        row := row.(name := p.name.value);
      }
      if p.partitions.Some? {
        row := row.(partitions := p.partitions.value);
      }
      if p.weight.Some? {
        row := row.(weight := ToI32(p.weight.value));
      }
      if p.enabled.Some? {
        row := row.(enabled := p.enabled.value);
      }
      row := row.(updated := round(now));
      var ok := IncrementEtag();
      if !ok {
        return Failed(Internal);
      }
      rows := rows[k := row];
      r := Flag(true);
    }

    method Delete(k: Key) returns (r: Answer)
      modifies this
      ensures (State(), r) == Step(old(State()), Request.Delete(k), 0, round)
    {
      if k !in rows {
        return Flag(false);
      }
      var ok := IncrementEtag();
      if !ok {
        return Failed(Internal);
      }
      rows := rows - {k};
      r := Flag(true);
    }
  }

  /** A weight survives the 32-bit column exactly when it is below 2^31 or in the top 2^31 of the 64-bit range. */
  lemma WeightSurvives(w: u64)
    ensures FromI32(ToI32(w)) == w <==> w < TWO_31 || TWO_64 - TWO_31 <= w
  {
    var m := w % TWO_32;
    var q := w / TWO_32;
    assert w == q * TWO_32 + m;
    if TWO_64 - TWO_31 <= w {
      assert q == TWO_32 - 1;
    }
    if m >= TWO_31 && FromI32(ToI32(w)) == w {
      assert w == m - TWO_32 + TWO_64;
    }
  }

  /** What is read at a key, by the request that reads it. */
  ghost function ReadAt(s: DbState, k: Key): Answer {
    Step(s, Get(k), 0, t => t).1
  }

  /** What a 64-bit weight is after the 32-bit column: its low 32 bits, with the highest of them repeated above. */
  function Narrowed(w: u64): u64 {
    if w % TWO_32 < TWO_31 then w % TWO_32 else TWO_64 - TWO_32 + w % TWO_32
  }

  /** What any request leaves to be read unless it failed, and then all is as before: a put or post of a new backend is
      read back with its weight narrowed, a put over an old one also with the partitions that were there, a patch gives
      each field it names its value, a deletion leaves nothing. */
  lemma ReadAfterWrite(s: DbState, req: Request, now: int, round: int -> int, k: Key)
    ensures var (t, answer) := Step(s, req, now, round);
      ReadAt(t, k) ==
        match (req, ReadAt(s, k))
        case (Put(b), Found(was)) =>
          if b.key != k || answer.Failed? then Found(was)
          else Found(Some(Backend(k, b.sparse.(weight := Narrowed(b.sparse.weight),
            partitions := if was.Some? then was.value.sparse.partitions else b.sparse.partitions))))
        case (Post(b), Found(was)) =>
          if b.key != k || was.Some? || answer.Failed? then Found(was)
          else Found(Some(Backend(k, b.sparse.(weight := Narrowed(b.sparse.weight)))))
        case (Delete(key), was) => if key == k && !answer.Failed? then Found(None) else was
        case (Patch(key, p), Found(Some(was))) =>
          if key != k || answer.Failed? then Found(Some(was))
          else Found(Some(Backend(k, Sparse(
            if p.name.Some? then p.name.value else was.sparse.name,
            if p.partitions.Some? then p.partitions.value else was.sparse.partitions,
            if p.weight.Some? then Narrowed(p.weight.value) else was.sparse.weight,
            if p.enabled.Some? then p.enabled.value else was.sparse.enabled,
            was.sparse.implementation))))
        case (_, was) => was
  {
  }

  /** A write fails exactly when there is something for it to do and the etag column is at its limit; the answers of the
      others tell what was there to be read before. What put answers is more involved. */
  lemma AnswersTell(s: DbState, req: Request, now: int, round: int -> int)
    ensures var answer, full := Step(s, req, now, round).1, s.etag + 1 == TWO_63;
      match req
      case Get(k) => (answer == Found(None) <==> k !in s.rows)
      case GetAll(etag) =>
        answer.All? && answer.all.etag == s.etag && (answer.all.backends.None? <==> etag == Some(s.etag))
      case Post(b) =>
        answer ==
          if ReadAt(s, b.key) != Found(None) then Posted(None)
          else if full then Failed(Internal)
          else Posted(Some(b.key))
      case Put(_) => if full then answer == Failed(Internal) else answer.Flag?
      case Patch(k, _) =>
        answer ==
          if ReadAt(s, k) == Found(None) then Flag(false) else if full then Failed(Internal) else Flag(true)
      case Delete(k) =>
        answer ==
          if ReadAt(s, k) == Found(None) then Flag(false) else if full then Failed(Internal) else Flag(true)
  {
  }

  /** Rows never change under an unchanged etag, the etag never falls, and a request writes no row but its own. */
  lemma EtagTracksRows(s: DbState, req: Request, now: int, round: int -> int)
    ensures var t := Step(s, req, now, round).0;
      && (t == s || t.etag == s.etag + 1)
      && (forall k | Target(req) != Some(k) ::
            (k in t.rows <==> k in s.rows) && (k in s.rows ==> t.rows[k] == s.rows[k]))
  {
  }

  /** Put's answer is right in a given state exactly when the key is new or its creation time is not one second ahead
      of the clock. */
  lemma PutFlagCondition(s: DbState, b: Backend, now: int, round: int -> int)
    requires s.etag + 1 < TWO_63
    ensures Step(s, Put(b), now, round).1 == Flag(b.key !in s.rows)
       <==> b.key !in s.rows || s.rows[b.key].created != round(now + SECOND)
  {
  }

  datatype Timed = Timed(req: Request, now: int)

  ghost function Run(s: DbState, log: seq<Timed>, round: int -> int): DbState
    decreases |log|
  {
    if log == [] then s else Run(Step(s, log[0].req, log[0].now, round).0, log[1..], round)
  }

  ghost predicate ClockRuns(start: int, log: seq<Timed>) {
    forall i | 0 <= i < |log| :: start <= log[i].now && forall j | i <= j < |log| :: log[i].now <= log[j].now
  }

  /** The reading of the request under which the key's row last appeared. */
  ghost function Born(s: DbState, born: Option<int>, log: seq<Timed>, k: Key, round: int -> int): Option<int>
    decreases |log|
  {
    if log == [] then born
    else
      var next := Step(s, log[0].req, log[0].now, round).0;
      Born(next, if k !in next.rows then None else if k in s.rows then born else Some(log[0].now), log[1..], k, round)
  }

  lemma StepBears(s: DbState, req: Request, now: int, round: int -> int, k: Key)
    ensures var t := Step(s, req, now, round).0;
      k in t.rows ==> t.rows[k].created == if k in s.rows then s.rows[k].created else round(now)
  {
  }

  lemma {:induction false} RunBears(s: DbState, born: Option<int>, log: seq<Timed>, k: Key, round: int -> int)
    requires k in s.rows <==> born.Some?
    requires k in s.rows ==> s.rows[k].created == round(born.value)
    ensures var t, b := Run(s, log, round), Born(s, born, log, k, round);
      && (k in t.rows <==> b.Some?)
      && (k in t.rows ==> t.rows[k].created == round(b.value))
    decreases |log|
  {
    if log != [] {
      var next := Step(s, log[0].req, log[0].now, round).0;
      StepBears(s, log[0].req, log[0].now, round, k);
      var b := if k !in next.rows then None else if k in s.rows then born else Some(log[0].now);
      RunBears(next, b, log[1..], k, round);
    }
  }

  /** After any requests, with any clock readings and any rounding: put's answer is right exactly when the key is new,
      or the reading that created its row is not stored as this put's reading is a second on. */
  lemma PutFlagExact(log: seq<Timed>, b: Backend, now: int, round: int -> int)
    ensures var s, born := Run(MIGRATED, log, round), Born(MIGRATED, None, log, b.key, round);
      && (b.key in s.rows <==> born.Some?)
      && (s.etag + 1 == TWO_63 ==> Step(s, Put(b), now, round).1 == Failed(Internal))
      && (s.etag + 1 < TWO_63 ==>
            var right := Step(s, Put(b), now, round).1 == Flag(b.key !in s.rows);
            right <==> born.None? || round(born.value) != round(now + SECOND))
  {
    RunBears(MIGRATED, None, log, b.key, round);
  }

  // ---- Clock readings ----

  /** The stored forms of readings, added to those seen before. */
  ghost function Seen(seen: set<int>, readings: seq<int>, round: int -> int): set<int>
    decreases |readings|
  {
    if readings == [] then seen else Seen(seen + {round(readings[0])}, readings[1..], round)
  }

  /** No reading, a second on, is stored as an earlier one was. */
  ghost predicate Apart(seen: set<int>, readings: seq<int>, round: int -> int)
    decreases |readings|
  {
    readings != [] ==>
      round(readings[0] + SECOND) !in seen && Apart(seen + {round(readings[0])}, readings[1..], round)
  }

  ghost predicate InOrder(readings: seq<int>) {
    forall i, j | 0 <= i <= j < |readings| :: readings[i] <= readings[j]
  }

  lemma {:induction false} ApartSplits(seen: set<int>, a: seq<int>, b: seq<int>, round: int -> int)
    ensures Apart(seen, a + b, round) <==> Apart(seen, a, round) && Apart(Seen(seen, a, round), b, round)
    decreases |a|
  {
    if a == [] {
      assert a + b == b;
    } else {
      assert (a + b)[1..] == a[1..] + b;
      ApartSplits(seen + {round(a[0])}, a[1..], b, round);
    }
  }

  lemma {:induction false} InOrderIsApart(seen: set<int>, readings: seq<int>, round: int -> int)
    requires Rounding(round) && InOrder(readings)
    requires readings != [] ==> forall x | x in seen :: x <= round(readings[0])
    ensures Apart(seen, readings, round)
    decreases |readings|
  {
    if readings != [] {
      assert round(readings[0] + SECOND) == round(readings[0]) + SECOND;
      if |readings| > 1 {
        assert round(readings[0]) <= round(readings[1]);
      }
      InOrderIsApart(seen + {round(readings[0])}, readings[1..], round);
    }
  }

  lemma {:induction false} BornInRange(s: DbState, born: Option<int>, log: seq<Timed>, k: Key, round: int -> int,
                                       end: int)
    requires born.Some? ==> born.value <= end
    requires forall i | 0 <= i < |log| :: log[i].now <= end
    ensures var b := Born(s, born, log, k, round); b.Some? ==> b.value <= end
    decreases |log|
  {
    if log != [] {
      var next := Step(s, log[0].req, log[0].now, round).0;
      var b := if k !in next.rows then None else if k in s.rows then born else Some(log[0].now);
      BornInRange(next, b, log[1..], k, round, end);
    }
  }

  /** In particular where no earlier request had read the clock later: put answers true exactly when the key is new. */
  lemma PutFlagInOrder(log: seq<Timed>, b: Backend, now: int, round: int -> int)
    requires Rounding(round) && forall i | 0 <= i < |log| :: log[i].now <= now
    ensures var s := Run(MIGRATED, log, round);
      Step(s, Put(b), now, round).1 == if s.etag + 1 == TWO_63 then Failed(Internal) else Flag(b.key !in s.rows)
  {
    PutFlagExact(log, b, now, round);
    BornInRange(MIGRATED, None, log, b.key, round, now);
    var born := Born(MIGRATED, None, log, b.key, round);
    if born.Some? {
      assert round(born.value) <= round(now) && round(now + SECOND) == round(now) + SECOND;
    }
  }

  /** Timestamps kept to the second, half of one up. */
  function Secs(t: int): int {
    (t + SECOND / 2) / SECOND * SECOND
  }

  lemma SecsSteps(a: int, b: int)
    ensures a <= b ==> Secs(a) <= Secs(b)
    ensures Secs(a + SECOND) == Secs(a) + SECOND
  {
    var x, y := a + SECOND / 2, b + SECOND / 2;
    assert x <= y ==> x / SECOND <= y / SECOND;
    assert (x + SECOND) / SECOND == x / SECOND + 1;
  }

  lemma SecsRound()
    ensures Rounding(Secs)
  {
    forall a, b | a <= b ensures Secs(a) <= Secs(b) {
      SecsSteps(a, b);
    }
    forall a, b | b == a + SECOND ensures Secs(b) == Secs(a) + SECOND {
      SecsSteps(a, b);
    }
  }

  /** A request reads the clock before its transaction begins, so readings can overtake one another though the clock
      never goes back: a put that read 10.501 s commits first, then one of the same key that read 10.499 s, and both
      answer that they created the record. */
  lemma PutOvertaken(b: Backend)
    ensures Rounding(Secs)
    ensures var (first, a) := Step(MIGRATED, Put(b), 10_501_000_000, Secs);
      a == Flag(true) && b.key in first.rows && Step(first, Put(b), 10_499_000_000, Secs).1 == Flag(true)
  {
    SecsRound();
  }

  /** With a clock that steps back by one second, put reports an existing record as newly created. */
  lemma PutFlagNeedsClock(b: Backend)
    ensures var round := (t: int) => t;
      var s := Step(MIGRATED, Put(b), SECOND, round).0;
      b.key in s.rows && Step(s, Put(b), 0, round).1 == Flag(true)
  {
  }
}
