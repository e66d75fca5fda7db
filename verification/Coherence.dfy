/** Store mutations interleaved with the two-step conditional read, and the discovery service caching its results. */
module Coherence {
  import opened Types
  import opened DiscoveryApi
  import opened ServiceDiscovery
  import P = ClientPool
  import M = MemoryDiscovery
  import D = DbDiscovery

  datatype Store = Mem(m: M.MemState) | Db(db: D.DbState)

  function EtagOf(s: Store): u64 {
    match s case Mem(m) => m.etag case Db(db) => db.etag
  }

  function Records(s: Store): M.MemState {
    match s case Mem(m) => m case Db(db) => D.View(db)
  }

  function Content(s: Store): set<Backend> {
    var m := Records(s);
    set k | k in m.store :: m.store[k].backend
  }

  ghost function Listed(s: Store): seq<Backend> {
    M.Values(M.Shown(Records(s)))
  }

  /** The conditional read: etag from the store as it is first, rows from the store as it is later.
      The map store holds its lock throughout, so there the two are one. */
  ghost function ReadAcross(first: Store, later: Store, ifNoneMatch: Option<u64>): Backends {
    Backends(EtagOf(first), if ifNoneMatch == Some(EtagOf(first)) then None else Some(Listed(later)))
  }

  ghost function Mutated(s: Store, req: Request, now: int, round: int -> int): Store {
    match s
    case Mem(m) => Mem(M.Step(m, req, now).0)
    case Db(db) => Db(D.Step(db, req, now, round).0)
  }

  /** `ReadAcross` is what the two stores' own reads return. */
  lemma ReadsMatchStores(first: Store, later: Store, etag: Option<u64>)
    ensures first.Mem? ==> M.Step(first.m, GetAll(etag), 0).1 == All(ReadAcross(first, first, etag))
    ensures first.Db? && later.Db? ==> D.GetAllAcross(first.db, later.db, etag) == ReadAcross(first, later, etag)
  {
  }

  lemma ListedIsContent(s: Store)
    ensures ToSet(Listed(s)) == Content(s)
  {
    M.ValuesOf(Records(s), M.Shown(Records(s)));
  }

  // ---- What of it reaches the service ----

  function CarriedAll(cfg: Config, l: seq<Backend>): Option<seq<Backend>> {
    if l == [] then Some([])
    else
      match (cfg.carry(l[0]), CarriedAll(cfg, l[1..]))
      case (Some(b), Some(rest)) => Some([b] + rest)
      case _ => None
  }

  /** The answer as the service gets it; None is a failure. */
  function Delivery(cfg: Config, answer: Backends): Option<Backends> {
    if answer.backends.None? then Some(answer)
    else
      match CarriedAll(cfg, answer.backends.value)
      case None => None
      case Some(l) => Some(Backends(answer.etag, Some(l)))
  }

  /** The store's records as they reach the service. */
  function Delivered(cfg: Config, s: Store): set<Backend> {
    CarriedSet(cfg, Content(s))
  }

  function CarriedSet(cfg: Config, content: set<Backend>): set<Backend> {
    set b | b in content && cfg.carry(b).Some? :: cfg.carry(b).value
  }

  ghost predicate Deliverable(cfg: Config, s: Store) {
    forall b | b in Content(s) :: cfg.carry(b).Some?
  }

  lemma {:induction false} CarriedElements(cfg: Config, l: seq<Backend>)
    ensures CarriedAll(cfg, l).Some? <==> forall b | b in l :: cfg.carry(b).Some?
    ensures CarriedAll(cfg, l).Some? ==> ToSet(CarriedAll(cfg, l).value) == CarriedSet(cfg, ToSet(l))
  {
    if l != [] {
      CarriedElements(cfg, l[1..]);
      HeadAndRest(l);
      if CarriedAll(cfg, l).Some? {
        HeadAndRest(CarriedAll(cfg, l).value);
        assert CarriedSet(cfg, {l[0]} + ToSet(l[1..])) == {cfg.carry(l[0]).value} + CarriedSet(cfg, ToSet(l[1..]));
      }
    }
  }

  lemma HeadAndRest(l: seq<Backend>)
    requires l != []
    ensures ToSet(l) == {l[0]} + ToSet(l[1..])
    ensures forall b :: b in l <==> b == l[0] || b in l[1..]
  {
    assert l == [l[0]] + l[1..];
  }

  /** A listing arrives if and only if each of its records can be sent, and it is the records delivered. */
  lemma ListingDelivers(cfg: Config, s: Store, etag: u64)
    ensures var d := Delivery(cfg, Backends(etag, Some(Listed(s))));
      && (d.Some? <==> Deliverable(cfg, s))
      && (d.Some? ==> d.value.etag == etag && d.value.backends.Some?)
      && (d.Some? ==> ToSet(d.value.backends.value) == Delivered(cfg, s))
  {
    var l := Listed(s);
    CarriedElements(cfg, l);
    ListedIsContent(s);
    assert forall b :: b in l <==> b in ToSet(l);
  }

  /** With the store at hand everything is delivered as it is. */
  lemma DirectDelivers(cfg: Config, s: Store)
    requires forall b :: cfg.carry(b) == Some(b)
    ensures Deliverable(cfg, s) && Delivered(cfg, s) == Content(s)
  {
  }

  // ---- Versions ----

  ghost predicate Created(s: Store) {
    s == Mem(M.EMPTY) || s == Db(D.MIGRATED)
  }

  ghost predicate Sane(s: Store) {
    s.Mem? ==> M.Valid(s.m)
  }

  /** A later state never has a smaller etag, and has the same etag only if it is the same state. */
  predicate Follows(s: Store, t: Store) {
    EtagOf(s) <= EtagOf(t) && (EtagOf(s) == EtagOf(t) ==> s == t)
  }

  /** `history` holds every state the store went through; the n-th is the n-th version. */
  ghost predicate History(history: seq<Store>) {
    && history != []
    && Created(history[0])
    && (forall i | 0 <= i < |history| :: Sane(history[i]) && (history[i].Mem? <==> history[0].Mem?))
    && (forall i, j | 0 <= i <= j < |history| :: Follows(history[i], history[j]))
  }

  /** As long as a 64-bit counter cannot have wrapped, a mutation extends the history. */
  lemma MutationExtends(history: seq<Store>, req: Request, now: int, round: int -> int)
    requires History(history) && EtagOf(history[|history| - 1]) + 1 < TWO_64
    ensures var next := Mutated(history[|history| - 1], req, now, round);
      History(history + [next]) && EtagOf(next) <= EtagOf(history[|history| - 1]) + 1
  {
    var last := history[|history| - 1];
    var next := Mutated(last, req, now, round);
    match last {
      case Mem(m) => M.EtagTracksContent(m, req, now);
      case Db(db) => D.EtagTracksRows(db, req, now, round);
    }
    assert next == last || EtagOf(next) == EtagOf(last) + 1;
    var h := history + [next];
    forall i, j | 0 <= i <= j < |h| ensures Follows(h[i], h[j]) {
      if j == |history| && i < j {
        assert Follows(h[i], last);
      }
    }
  }

  /** A caller that read an etag at version i and rows at version r, and is told "not modified" at version j,
      holds exactly the rows, in exactly the order, that the store has at j. */
  lemma NotModifiedIsTrue(history: seq<Store>, i: nat, r: nat, j: nat, held: Backends, later: Store)
    requires History(history) && i <= r <= j < |history|
    requires held == ReadAcross(history[i], history[r], None)
    requires ReadAcross(history[j], later, Some(held.etag)).backends.None?
    ensures held.backends == Some(Listed(history[j])) && history[r] == history[j]
  {
    assert Follows(history[i], history[r]) && Follows(history[r], history[j]);
  }

  /** Reading the rows before the etag would not do: one mutation in between and a caller keeps stale rows for good. */
  lemma EtagMustBeReadFirst(b: Backend)
    ensures var v0 := Db(D.MIGRATED);
      var v1 := Mutated(v0, Post(b), 0, t => t);
      var held := Backends(EtagOf(v1), Some(Listed(v0)));
      ReadAcross(v1, v1, Some(held.etag)).backends.None? && ToSet(held.backends.value) != Content(v1)
  {
    var v0 := Db(D.MIGRATED);
    var v1 := Mutated(v0, Post(b), 0, t => t);
    ListedIsContent(v0);
    assert b.key in Records(v1).store && Records(v1).store[b.key].backend in Content(v1);
  }

  ghost function Edited(s: Store, requests: seq<Request>): Store {
    if requests == [] then s
    else Mutated(Edited(s, requests[..|requests| - 1]), requests[|requests| - 1], 0, t => t)
  }

  /** `n` mutations after which the store holds what it held before. */
  function Churn(b: Backend, n: nat): (requests: seq<Request>)
    requires n != 1
    ensures |requests| == n
  {
    if n == 0 then []
    else if n == 3 then [Post(b), Put(b), Delete(b.key)]
    else Churn(b, n - 2) + [Post(b), Delete(b.key)]
  }

  lemma EditedLast(s: Store, requests: seq<Request>, req: Request)
    ensures Edited(s, requests + [req]) == Mutated(Edited(s, requests), req, 0, t => t)
  {
    assert (requests + [req])[..|requests|] == requests;
  }

  lemma CreateAndDelete(requests: seq<Request>, b: Backend, n: nat)
    requires n + 2 < TWO_64 && Edited(Mem(M.EMPTY), requests) == Mem(M.MemState(map[], n))
    ensures Edited(Mem(M.EMPTY), requests + [Post(b), Delete(b.key)]) == Mem(M.MemState(map[], n + 2))
  {
    EditedLast(Mem(M.EMPTY), requests, Post(b));
    EditedLast(Mem(M.EMPTY), requests + [Post(b)], Delete(b.key));
    assert requests + [Post(b)] + [Delete(b.key)] == requests + [Post(b), Delete(b.key)];
    assert map[b.key := M.Stamped(0, b)] - {b.key} == map[];
  }

  lemma {:induction false} ChurnCounts(b: Backend, n: nat)
    requires n != 1 && n < TWO_64
    ensures Edited(Mem(M.EMPTY), Churn(b, n)) == Mem(M.MemState(map[], n))
  {
    if n == 3 {
      EditedLast(Mem(M.EMPTY), [], Post(b));
      EditedLast(Mem(M.EMPTY), [Post(b)], Put(b));
      EditedLast(Mem(M.EMPTY), [Post(b), Put(b)], Delete(b.key));
      assert [] + [Post(b)] == [Post(b)] && [Post(b)] + [Put(b)] == [Post(b), Put(b)];
      assert [Post(b), Put(b)] + [Delete(b.key)] == Churn(b, n);
      assert map[b.key := M.Stamped(0, b)] - {b.key} == map[];
    } else if n != 0 {
      ChurnCounts(b, n - 2);
      CreateAndDelete(Churn(b, n - 2), b, n - 2);
    }
  }

  /** A service that holds nothing is told that nothing has changed, and `b` is there. */
  ghost predicate Misleads(s: Store, b: Backend) {
    ReadAcross(s, s, Some(FRESH.lastEtag)).backends.None? && FRESH.cache == {} && b in Content(s)
  }

  lemma OneMoreMisleads(b: Backend, n: nat)
    requires n == TWO_64 - 1
    ensures Misleads(Edited(Mem(M.EMPTY), Churn(b, n) + [Post(b)]), b)
  {
    ChurnCounts(b, n);
    EditedLast(Mem(M.EMPTY), Churn(b, n), Post(b));
    var v := Mutated(Mem(M.MemState(map[], n)), Post(b), 0, t => t);
    assert v.m.store[b.key].backend == b;
  }

  /** 2^64 mutations of a new store wrap its counter to 0, and a service that holds nothing believes that the filled
      store is still empty. */
  lemma WrappedEtagMisleads(b: Backend)
    ensures exists requests :: |requests| == TWO_64 && Misleads(Edited(Mem(M.EMPTY), requests), b)
  {
    var n: nat :| n == TWO_64 - 1;
    OneMoreMisleads(b, n);
    assert |Churn(b, n) + [Post(b)]| == TWO_64;
  }

  // ---- Runs ----

  datatype Phase = Idle | Called(begin: nat) | EtagRead(begin: nat, at: nat)

  /** What one discover call gave: the set, the consumer's flags after it, and the versions current at its begin,
      at the read that decided it, and at its end. */
  datatype Outcome = Outcome(published: set<Published>, flags: map<u64, bool>, begin: nat, version: nat, end: nat)

  datatype World = World(
    history: seq<Store>,
    phase: Phase,
    memo: Memo,
    flags: map<u64, bool>,
    etagAt: nat,
    rowsAt: nat,
    outcomes: seq<Outcome>)

  datatype Action =
    | Mutate(req: Request, now: int)
    | Call
    | ReadEtag
    | ReadRows
    | Fail

  function Now(w: World): Store
    requires w.history != []
  {
    w.history[|w.history| - 1]
  }

  ghost predicate Start(w: World) {
    exists s :: Created(s) && w == World([s], Idle, FRESH, map[], 0, 0, [])
  }

  /** What the provider gives: etag of version `at`, rows of the current version. */
  ghost function Provided(cfg: Config, w: World, at: nat): Option<Backends>
    requires at < |w.history|
  {
    Delivery(cfg, ReadAcross(w.history[at], Now(w), Some(w.memo.lastEtag)))
  }

  /** The call in progress is over, with its answer if one arrives. */
  ghost function Answered(cfg: Config, w: World, begin: nat, at: nat): World
    requires at < |w.history|
  {
    match Provided(cfg, w, at)
    case None => w.(phase := Idle)
    case Some(answer) => Absorbed(cfg, w, begin, at, answer)
  }

  ghost function Absorbed(cfg: Config, w: World, begin: nat, at: nat, answer: Backends): World
    requires at < |w.history|
  {
    var (memo, published, enablement) := Absorb(cfg, w.memo, answer);
    var version := |w.history| - 1;
    var modified := answer.backends.Some?;
    w.(phase := Idle, memo := memo, flags := w.flags + enablement,
       etagAt := if modified then at else w.etagAt,
       rowsAt := if modified then version else w.rowsAt,
       outcomes := w.outcomes + [Outcome(published, w.flags + enablement, begin, version, version)])
  }

  /** One step of the whole; an action that is not enabled changes nothing. */
  ghost function Step(cfg: Config, round: int -> int, w: World, a: Action): (x: World)
    requires w.history != []
    ensures |w.history| <= |x.history|
  {
    match a
    case Mutate(req, now) => w.(history := w.history + [Mutated(Now(w), req, now, round)])
    case Call => if w.phase.Idle? then w.(phase := Called(|w.history| - 1)) else w
    case ReadEtag =>
      if !w.phase.Called? then w
      else if Now(w).Mem? || EtagOf(Now(w)) == w.memo.lastEtag then Answered(cfg, w, w.phase.begin, |w.history| - 1)
      else w.(phase := EtagRead(w.phase.begin, |w.history| - 1))
    case ReadRows =>
      if w.phase.EtagRead? && w.phase.at < |w.history| then Answered(cfg, w, w.phase.begin, w.phase.at) else w
    case Fail => w.(phase := Idle)
  }

  ghost function Run(cfg: Config, round: int -> int, w: World, actions: seq<Action>): (x: World)
    requires w.history != []
    ensures |w.history| <= |x.history|
    decreases |actions|
  {
    if actions == [] then w else Run(cfg, round, Step(cfg, round, w, actions[0]), actions[1..])
  }

  /** The call returned exactly the projection, and left exactly the flags, of a version current during the call. */
  ghost predicate Exact(cfg: Config, history: seq<Store>, o: Outcome) {
    && o.begin <= o.version <= o.end < |history|
    && o.published == Projection(cfg, Delivered(cfg, history[o.version]))
    && Enables(cfg, Delivered(cfg, history[o.version]), o.flags)
  }

  /** The same record by record: published is, of every usable record of that version, its address, weight and
      partitions, and nothing else; and its flag is as stored. */
  lemma ExactlyTheRecords(cfg: Config, history: seq<Store>, o: Outcome)
    requires o.begin <= o.version <= o.end < |history|
    ensures var content := Delivered(cfg, history[o.version]);
      Exact(cfg, history, o) <==>
        && (forall p :: p in o.published <==>
              exists b :: b in content && Usable(cfg, b) &&
                p.id.addr == cfg.address(b.key) && p.id.weight == b.sparse.weight &&
                p.partitions == b.sparse.partitions)
        && (forall b | b in content && Usable(cfg, b) ::
              var h := cfg.hash(P.PoolKey(cfg.address(b.key), b.sparse.weight));
              h in o.flags && o.flags[h] == b.sparse.enabled)
  {
    var content := Delivered(cfg, history[o.version]);
    EnablesExactly(cfg, content, o.flags);
    forall p
      ensures p in Projection(cfg, content) <==>
        exists b :: b in content && Usable(cfg, b) &&
          p.id.addr == cfg.address(b.key) && p.id.weight == b.sparse.weight && p.partitions == b.sparse.partitions
    {
      ProjectionExactly(cfg, content, p);
    }
    assert (o.published == Projection(cfg, content)) <==>
      (forall p :: p in o.published <==> p in Projection(cfg, content));
  }

  /** The cached set and the flags belong to one version, read no earlier than the etag they are kept under. */
  ghost predicate CacheInv(cfg: Config, w: World) {
    && History(w.history)
    && w.etagAt <= w.rowsAt < |w.history|
    && w.memo.lastEtag == EtagOf(w.history[w.etagAt])
    && w.memo.cache == Projection(cfg, Delivered(cfg, w.history[w.rowsAt]))
    && Enables(cfg, Delivered(cfg, w.history[w.rowsAt]), w.flags)
  }

  ghost predicate Inv(cfg: Config, w: World) {
    && CacheInv(cfg, w)
    && EtagOf(Now(w)) < |w.history|
    && (w.phase.Called? ==> w.phase.begin < |w.history|)
    && (w.phase.EtagRead? ==> w.phase.begin <= w.phase.at < |w.history|)
    && (w.phase.EtagRead? ==> EtagOf(w.history[w.phase.at]) != w.memo.lastEtag)
    && Recorded(cfg, w.history, w.outcomes, if w.phase.Idle? then |w.history| - 1 else w.phase.begin)
  }

  /** The calls so far were exact, did not overlap, and were over by version `until`. */
  ghost predicate Recorded(cfg: Config, history: seq<Store>, outcomes: seq<Outcome>, until: int) {
    && (forall o | o in outcomes :: Exact(cfg, history, o) && o.end <= until)
    && (forall i, j | 0 <= i < j < |outcomes| :: outcomes[i].end <= outcomes[j].begin)
  }

  ghost predicate UpToDate(cfg: Config, w: World)
    requires w.history != []
  {
    w.memo.cache == Projection(cfg, Delivered(cfg, Now(w))) && Enables(cfg, Delivered(cfg, Now(w)), w.flags)
  }

  lemma StartIsInv(cfg: Config, w: World)
    requires Start(w)
    ensures Inv(cfg, w)
  {
  }

  lemma RecordStays(cfg: Config, history: seq<Store>, s: Store, outcomes: seq<Outcome>, until: int)
    requires Recorded(cfg, history, outcomes, until)
    ensures forall later | until <= later :: Recorded(cfg, history + [s], outcomes, later)
  {
    forall o | o in outcomes ensures Exact(cfg, history + [s], o) {
      assert Exact(cfg, history, o);
      assert (history + [s])[o.version] == history[o.version];
    }
  }

  lemma RecordGrows(cfg: Config, history: seq<Store>, outcomes: seq<Outcome>, o: Outcome)
    requires Recorded(cfg, history, outcomes, o.begin) && Exact(cfg, history, o)
    ensures Recorded(cfg, history, outcomes + [o], o.end)
  {
    var all := outcomes + [o];
    forall p | p in all ensures Exact(cfg, history, p) && p.end <= o.end {
      assert p in outcomes || p == o;
    }
    forall i, j | 0 <= i < j < |all| ensures all[i].end <= all[j].begin {
      assert all[i] in outcomes;
    }
  }

  /** Cached or fresh, the set and the flags are those of the version current at the deciding read. */
  lemma AnswerIsCurrent(cfg: Config, w: World, at: nat)
    requires CacheInv(cfg, w) && at < |w.history| && Provided(cfg, w, at).Some?
    requires EtagOf(w.history[at]) == w.memo.lastEtag ==> at == |w.history| - 1
    requires Separate(cfg, Delivered(cfg, Now(w)))
    ensures var answer := Provided(cfg, w, at).value;
      var (memo, published, enablement) := Absorb(cfg, w.memo, answer);
      && memo.cache == published == Projection(cfg, Delivered(cfg, Now(w)))
      && Enables(cfg, Delivered(cfg, Now(w)), w.flags + enablement)
      && (answer.backends.None? ==> memo == w.memo && w.flags + enablement == w.flags)
      && (answer.backends.Some? ==> memo.lastEtag == EtagOf(w.history[at]))
  {
    if EtagOf(w.history[at]) == w.memo.lastEtag {
      assert Follows(w.history[w.etagAt], w.history[w.rowsAt]) && Follows(w.history[w.rowsAt], w.history[at]);
      assert w.history[w.rowsAt] == Now(w);
    } else {
      ListingDelivers(cfg, Now(w), EtagOf(w.history[at]));
    }
  }

  /** An answer fails to arrive only when it is a listing with a record that cannot be sent. */
  lemma ProvidedWhen(cfg: Config, w: World, at: nat)
    requires at < |w.history| && Deliverable(cfg, Now(w))
    ensures Provided(cfg, w, at).Some?
  {
    ListingDelivers(cfg, Now(w), EtagOf(w.history[at]));
  }

  lemma AnsweredIsExact(cfg: Config, w: World, begin: nat, at: nat)
    requires Inv(cfg, w) && !w.phase.Idle? && begin == w.phase.begin && begin <= at < |w.history|
    requires EtagOf(w.history[at]) == w.memo.lastEtag ==> at == |w.history| - 1
    requires Separate(cfg, Delivered(cfg, Now(w)))
    ensures var x := Answered(cfg, w, begin, at);
      && Inv(cfg, x) && x.phase.Idle? && x.history == w.history
      && (Provided(cfg, w, at).Some? ==> UpToDate(cfg, x) && |x.outcomes| == |w.outcomes| + 1)
  {
    if Provided(cfg, w, at).None? {
      PhaseMoves(cfg, w, Idle);
    } else {
      AbsorbedIsExact(cfg, w, begin, at);
    }
  }

  lemma AbsorbedIsExact(cfg: Config, w: World, begin: nat, at: nat)
    requires Inv(cfg, w) && !w.phase.Idle? && begin == w.phase.begin && begin <= at < |w.history|
    requires EtagOf(w.history[at]) == w.memo.lastEtag ==> at == |w.history| - 1
    requires Separate(cfg, Delivered(cfg, Now(w))) && Provided(cfg, w, at).Some?
    ensures var x := Absorbed(cfg, w, begin, at, Provided(cfg, w, at).value);
      && Inv(cfg, x) && x.phase.Idle? && UpToDate(cfg, x)
      && x.history == w.history && |x.outcomes| == |w.outcomes| + 1
  {
    AnswerIsCurrent(cfg, w, at);
    var x := Absorbed(cfg, w, begin, at, Provided(cfg, w, at).value);
    var o := x.outcomes[|w.outcomes|];
    assert Exact(cfg, w.history, o);
    RecordGrows(cfg, w.history, w.outcomes, o);
    assert x.outcomes == w.outcomes + [o];
  }

  lemma MutationKeepsInv(cfg: Config, round: int -> int, w: World, req: Request, now: int)
    requires Inv(cfg, w) && |w.history| < TWO_64
    ensures Inv(cfg, w.(history := w.history + [Mutated(Now(w), req, now, round)]))
  {
    var next := Mutated(Now(w), req, now, round);
    var h := w.history + [next];
    MutationExtends(w.history, req, now, round);
    RecordStays(cfg, w.history, next, w.outcomes, if w.phase.Idle? then |w.history| - 1 else w.phase.begin);
    assert h[w.etagAt] == w.history[w.etagAt] && h[w.rowsAt] == w.history[w.rowsAt];
    assert w.phase.EtagRead? ==> h[w.phase.at] == w.history[w.phase.at];
  }

  lemma PhaseMoves(cfg: Config, w: World, phase: Phase)
    requires Inv(cfg, w)
    requires phase.Called? ==> w.phase.Idle? && phase.begin == |w.history| - 1
    requires phase.EtagRead? ==>
      w.phase == Called(phase.begin) && phase.at == |w.history| - 1 && EtagOf(Now(w)) != w.memo.lastEtag
    ensures Inv(cfg, w.(phase := phase))
  {
  }

  lemma EtagStep(cfg: Config, round: int -> int, w: World)
    requires w.history != [] && w.phase.Called?
    ensures var n := |w.history| - 1;
      Step(cfg, round, w, ReadEtag) ==
        if Now(w).Mem? || EtagOf(Now(w)) == w.memo.lastEtag then Answered(cfg, w, w.phase.begin, n)
        else w.(phase := EtagRead(w.phase.begin, n))
  {
  }

  lemma ReadEtagKeepsInv(cfg: Config, round: int -> int, w: World)
    requires Inv(cfg, w) && w.phase.Called? && Separate(cfg, Delivered(cfg, Now(w)))
    ensures Inv(cfg, Step(cfg, round, w, ReadEtag))
  {
    var n := |w.history| - 1;
    EtagStep(cfg, round, w);
    if Now(w).Mem? || EtagOf(Now(w)) == w.memo.lastEtag {
      AnsweredIsExact(cfg, w, w.phase.begin, n);
    } else {
      PhaseMoves(cfg, w, EtagRead(w.phase.begin, n));
    }
  }

  lemma StepKeepsInv(cfg: Config, round: int -> int, w: World, a: Action)
    requires Inv(cfg, w) && |w.history| < TWO_64
    requires Separate(cfg, Delivered(cfg, Now(w)))
    ensures Inv(cfg, Step(cfg, round, w, a))
  {
    match a
    case Mutate(req, now) => MutationKeepsInv(cfg, round, w, req, now);
    case Call =>
      if w.phase.Idle? {
        PhaseMoves(cfg, w, Called(|w.history| - 1));
      }
    case ReadEtag =>
      if w.phase.Called? {
        ReadEtagKeepsInv(cfg, round, w);
      }
    case ReadRows =>
      if w.phase.EtagRead? {
        AnsweredIsExact(cfg, w, w.phase.begin, w.phase.at);
      }
    case Fail => PhaseMoves(cfg, w, Idle);
  }

  lemma StepGrows(cfg: Config, round: int -> int, w: World, a: Action)
    requires w.history != []
    ensures var x := Step(cfg, round, w, a); w.history <= x.history && |x.history| <= |w.history| + 1
  {
  }

  lemma {:induction false} RunKeepsInv(cfg: Config, round: int -> int, w: World, actions: seq<Action>)
    requires Inv(cfg, w) && |w.history| + |actions| < TWO_64
    requires forall s | s in Run(cfg, round, w, actions).history :: Separate(cfg, Delivered(cfg, s))
    ensures Inv(cfg, Run(cfg, round, w, actions))
    decreases |actions|
  {
    if actions != [] {
      var x := Step(cfg, round, w, actions[0]);
      HistoryGrows(cfg, round, w, actions);
      assert Now(w) == Run(cfg, round, w, actions).history[|w.history| - 1];
      StepKeepsInv(cfg, round, w, actions[0]);
      StepGrows(cfg, round, w, actions[0]);
      RunKeepsInv(cfg, round, x, actions[1..]);
    }
  }

  lemma {:induction false} HistoryGrows(cfg: Config, round: int -> int, w: World, actions: seq<Action>)
    requires w.history != []
    ensures w.history <= Run(cfg, round, w, actions).history
    decreases |actions|
  {
    if actions != [] {
      HistoryGrows(cfg, round, Step(cfg, round, w, actions[0]), actions[1..]);
    }
  }

  /** All calls so far were exact, each for a version not before those of the calls before. */
  ghost predicate Coherent(cfg: Config, x: World) {
    && (forall o | o in x.outcomes :: Exact(cfg, x.history, o))
    && (forall i, j | 0 <= i < j < |x.outcomes| :: x.outcomes[i].version <= x.outcomes[j].version)
  }

  /** Every run, over either store, at hand or behind HTTP layers, with mutations landing anywhere: each successful call
      returns the projection of a version current during that call, leaves the consumer with that version's flags, and
      versions never go back. */
  lemma CacheCoherence(cfg: Config, round: int -> int, w: World, actions: seq<Action>)
    requires Start(w) && |actions| + 1 < TWO_64
    requires forall s | s in Run(cfg, round, w, actions).history :: Separate(cfg, Delivered(cfg, s))
    ensures Coherent(cfg, Run(cfg, round, w, actions))
  {
    StartIsInv(cfg, w);
    RunKeepsInv(cfg, round, w, actions);
    var x := Run(cfg, round, w, actions);
    forall i, j | 0 <= i < j < |x.outcomes| ensures x.outcomes[i].version <= x.outcomes[j].version {
      assert x.outcomes[i] in x.outcomes && x.outcomes[j] in x.outcomes;
    }
  }

  /** Once the store is quiet, and its records can be sent, one undisturbed call brings the service up to date, whatever
      happened before. */
  lemma QuietCallCatchesUp(cfg: Config, round: int -> int, start: World, actions: seq<Action>)
    requires Start(start) && |actions| + 1 < TWO_64
    requires forall s | s in Run(cfg, round, start, actions).history :: Separate(cfg, Delivered(cfg, s))
    requires Run(cfg, round, start, actions).phase.Idle? && Deliverable(cfg, Now(Run(cfg, round, start, actions)))
    ensures var w := Run(cfg, round, start, actions);
      var x := Step(cfg, round, Step(cfg, round, Step(cfg, round, w, Call), ReadEtag), ReadRows);
      && x.history == w.history && UpToDate(cfg, x) && |x.outcomes| == |w.outcomes| + 1
  {
    StartIsInv(cfg, start);
    RunKeepsInv(cfg, round, start, actions);
    CallCatchesUp(cfg, round, Run(cfg, round, start, actions));
  }

  lemma CallCatchesUp(cfg: Config, round: int -> int, w: World)
    requires Inv(cfg, w) && w.phase.Idle? && Separate(cfg, Delivered(cfg, Now(w))) && Deliverable(cfg, Now(w))
    ensures var x := Step(cfg, round, Step(cfg, round, Step(cfg, round, w, Call), ReadEtag), ReadRows);
      && x.history == w.history && UpToDate(cfg, x) && |x.outcomes| == |w.outcomes| + 1
  {
    var n := |w.history| - 1;
    var x := w.(phase := Called(n));
    assert Step(cfg, round, w, Call) == x;
    PhaseMoves(cfg, w, Called(n));
    ReadAtOnce(cfg, round, x);
    ProvidedWhen(cfg, x, n);
    AnsweredIsExact(cfg, x, n, n);
  }

  lemma ReadAtOnce(cfg: Config, round: int -> int, w: World)
    requires w.history != [] && w.phase == Called(|w.history| - 1)
    ensures var n := |w.history| - 1;
      Step(cfg, round, Step(cfg, round, w, ReadEtag), ReadRows) == Answered(cfg, w, n, n)
  {
    var n := |w.history| - 1;
    if Now(w).Db? && EtagOf(Now(w)) != w.memo.lastEtag {
      var x := w.(phase := EtagRead(n, n));
      assert Step(cfg, round, w, ReadEtag) == x;
      assert Step(cfg, round, x, ReadRows) == Answered(cfg, x, n, n);
      AnswerForgetsPhase(cfg, w, x.phase, n, n);
    } else {
      var x := Answered(cfg, w, n, n);
      assert Step(cfg, round, w, ReadEtag) == x && x.phase.Idle?;
      assert Step(cfg, round, x, ReadRows) == x;
    }
  }

  lemma AnswerForgetsPhase(cfg: Config, w: World, phase: Phase, begin: nat, at: nat)
    requires at < |w.history|
    ensures Answered(cfg, w.(phase := phase), begin, at) == Answered(cfg, w, begin, at)
  {
    var x := w.(phase := phase);
    ProvidedForgetsPhase(cfg, w, phase, at);
    match Provided(cfg, w, at)
    case None => assert x.(phase := Idle) == w.(phase := Idle);
    case Some(answer) =>
      AbsorbForgetsPhase(cfg, w, phase, begin, at, answer);
      assert Answered(cfg, x, begin, at) == Absorbed(cfg, x, begin, at, answer);
  }

  lemma ProvidedForgetsPhase(cfg: Config, w: World, phase: Phase, at: nat)
    requires at < |w.history|
    ensures Provided(cfg, w.(phase := phase), at) == Provided(cfg, w, at)
  {
    var x := w.(phase := phase);
    assert x.history == w.history && Now(x) == Now(w) && x.memo == w.memo;
  }

  lemma AbsorbForgetsPhase(cfg: Config, w: World, phase: Phase, begin: nat, at: nat, answer: Backends)
    requires at < |w.history|
    ensures Absorbed(cfg, w.(phase := phase), begin, at, answer) == Absorbed(cfg, w, begin, at, answer)
  {
  }
}
