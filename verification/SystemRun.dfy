/** The whole: store edits, discover calls, health checks and invoice calls in any interleaving. */
module SystemRun {
  import opened Types
  import opened DiscoveryApi
  import opened ClientPool
  import opened ServiceDiscovery
  import B = Balancer
  import C = Coherence

  /** A client is a token here; what matters is under which keys there is one. */
  type Clients = PoolState<()>

  type Thread = nat

  /** `after` counts the discover calls that had ended by then. */
  datatype Event =
    | Connected(ids: set<PoolKey>)
    | Measured(id: PoolKey, metrics: Metrics)
    | Chosen(thread: Thread, q: B.Query, bias: Option<real>, candidate: B.Candidate, after: nat)
    | Asked(thread: Thread, q: B.Query, backend: Published, reply: Result<string, CallError>)

  /** A call of get_invoice under way or ended: its loop, and what that has met and heard so far. */
  datatype Invoice = Invoice(
    q: B.Query,
    bias: Option<real>,
    waits: nat,
    loop: B.Loop,
    met: seq<(seq<B.Candidate>, nat)>,
    heard: seq<Result<string, CallError>>)

  datatype System = System(world: C.World, pool: Clients, invoices: map<Thread, Invoice>, log: seq<Event>)

  datatype Action =
    | Discovery(step: C.Action)
    | Health(id: PoolKey, fetched: Result<Metrics, ErrorSource>)
    | Begin(thread: Thread, q: B.Query, bias: Option<real>, waits: nat)
    | Choose(thread: Thread, offered: seq<(Published, bool)>, limit: nat)
    | Ask(thread: Thread, reply: Result<string, ErrorSource>)

  /** The selector offers what backends it likes, as healthy as it likes; their metrics are the cached ones. */
  function Candidates(pool: Clients, offered: seq<(Published, bool)>): seq<B.Candidate> {
    seq(|offered|, i requires 0 <= i < |offered| =>
      B.Candidate(offered[i].0, offered[i].1,
        if offered[i].0.id in pool.metrics then Some(pool.metrics[offered[i].0.id]) else None))
  }

  /** But it has its backends from discover calls. */
  ghost predicate Given(outcomes: seq<C.Outcome>, n: nat, p: Published) {
    exists i :: 0 <= i < |outcomes| && i < n && p in outcomes[i].published
  }

  ghost predicate Start(s: System) {
    C.Start(s.world) && s.pool == PoolState(map[], map[]) && s.invoices == map[] && s.log == []
  }

  /** The candidate `Select` settles on. */
  function Winner(q: B.Query, candidates: seq<B.Candidate>, limit: nat, bias: Option<real>): Option<B.Candidate> {
    if candidates == [] || limit == 0 then None
    else if B.Accepts(q, candidates[0], bias) then Some(candidates[0])
    else Winner(q, candidates[1..], limit - 1, bias)
  }

  lemma {:induction false} WinnerIsSelected(q: B.Query, candidates: seq<B.Candidate>, limit: nat, bias: Option<real>)
    ensures var w, r := Winner(q, candidates, limit, bias), B.Select(q, candidates, limit, bias);
      && (w.Some? <==> r.Some?)
      && (w.Some? ==> w.value.backend == r.value && w.value in candidates && B.Accepts(q, w.value, bias))
  {
    if candidates != [] && limit != 0 && !B.Accepts(q, candidates[0], bias) {
      WinnerIsSelected(q, candidates[1..], limit - 1, bias);
    }
  }

  predicate MayBegin(s: System, t: Thread) {
    t in s.invoices ==> s.invoices[t].loop.phase.Done?
  }

  ghost predicate MayChoose(s: System, t: Thread, offered: seq<(Published, bool)>) {
    && t in s.invoices && s.invoices[t].loop.phase == B.Choosing
    && forall o | o in offered :: Given(s.world.outcomes, |s.world.outcomes|, o.0)
  }

  predicate MayAsk(s: System, t: Thread) {
    t in s.invoices && s.invoices[t].loop.phase.Asking?
  }

  function Met(v: Invoice, candidates: seq<B.Candidate>, limit: nat): Invoice {
    v.(loop := B.Took(v.loop, B.Select(v.q, candidates, limit, v.loop.current)), met := v.met + [(candidates, limit)])
  }

  function Told(v: Invoice, reply: Result<string, CallError>): Invoice
    requires v.loop.phase.Asking?
  {
    v.(loop := B.Heard(v.loop, reply), heard := v.heard + [reply])
  }

  /** What the pool says about a backend: the node's reply, if there is a client to ask it through. */
  function FromPool(pool: Clients, b: Published, reply: Result<string, ErrorSource>): Result<string, CallError> {
    if b.id in pool.clients then Lift(reply) else Err(ClientNotFound)
  }

  /** A discover call that brings rows connects each eligible backend before it publishes any. */
  ghost function Connect(s: System, world: C.World): System {
    var ids := Ids(world.memo.cache) - s.pool.clients.Keys;
    s.(world := world,
       pool := s.pool.(clients := s.pool.clients + map k | k in ids :: ()),
       log := if ids == {} then s.log else s.log + [Connected(ids)])
  }

  ghost function Step(cfg: Config, round: int -> int, s: System, a: Action): System
    requires s.world.history != []
  {
    match a
    case Discovery(step) => Connect(s, C.Step(cfg, round, s.world, step))
    case Health(id, fetched) =>
      if id in s.pool.clients && fetched.Ok? then
        s.(pool := s.pool.(metrics := s.pool.metrics[id := fetched.value]),
           log := s.log + [Measured(id, fetched.value)])
      else s
    case Begin(t, q, bias, waits) =>
      if MayBegin(s, t) then
        s.(invoices := s.invoices[t := Invoice(q, bias, waits, B.Begun(bias, waits), [], [])])
      else s
    case Choose(t, offered, limit) =>
      if MayChoose(s, t, offered) then
        var v, candidates := s.invoices[t], Candidates(s.pool, offered);
        var w := Winner(v.q, candidates, limit, v.loop.current);
        var more := if w.None? then [] else [Chosen(t, v.q, v.loop.current, w.value, |s.world.outcomes|)];
        s.(invoices := s.invoices[t := Met(v, candidates, limit)], log := s.log + more)
      else s
    case Ask(t, reply) =>
      if MayAsk(s, t) then
        var v := s.invoices[t];
        var r := FromPool(s.pool, v.loop.phase.backend, reply);
        s.(invoices := s.invoices[t := Told(v, r)], log := s.log + [Asked(t, v.q, v.loop.phase.backend, r)])
      else s
  }

  ghost function Run(cfg: Config, round: int -> int, s: System, actions: seq<Action>): System
    requires s.world.history != []
    decreases |actions|
  {
    if actions == [] then s else Run(cfg, round, Step(cfg, round, s, actions[0]), actions[1..])
  }

  // ---- Every invoice call is a run of the balancer's loop ----

  /** The environment gives, as far as the call has come, what it has met and heard. */
  ghost predicate Gives(env: B.Env, v: Invoice) {
    && env.waits == v.waits
    && (forall i | 0 <= i < |v.met| :: env.candidates(i) == v.met[i].0 && env.limits(i) == v.met[i].1)
    && (forall j | 0 <= j < |v.heard| :: env.answers(j) == v.heard[j])
  }

  ghost predicate Tracked(v: Invoice) {
    && |v.met| == v.loop.selections && |v.heard| == v.loop.calls
    && forall env | Gives(env, v) :: B.Follows(env, v.q, v.bias, v.loop)
  }

  lemma MetIsTracked(v: Invoice, candidates: seq<B.Candidate>, limit: nat)
    requires Tracked(v) && v.loop.phase == B.Choosing
    ensures Tracked(Met(v, candidates, limit))
  {
    var x, n := Met(v, candidates, limit), |v.met|;
    forall env | Gives(env, x) ensures B.Follows(env, v.q, v.bias, x.loop) {
      assert forall i | 0 <= i < n :: x.met[i] == v.met[i];
      assert Gives(env, v);
      assert x.met[n] == (candidates, limit);
      B.TakeFollows(env, v.q, v.bias, v.loop);
    }
  }

  lemma ToldIsTracked(v: Invoice, reply: Result<string, CallError>)
    requires Tracked(v) && v.loop.phase.Asking?
    ensures Tracked(Told(v, reply))
  {
    var x, n := Told(v, reply), |v.heard|;
    forall env | Gives(env, x) ensures B.Follows(env, v.q, v.bias, x.loop) {
      assert forall j | 0 <= j < n :: x.heard[j] == v.heard[j];
      assert Gives(env, v);
      assert x.heard[n] == reply;
      B.HearFollows(env, v.q, v.bias, v.loop);
    }
  }

  lemma BegunIsTracked(q: B.Query, bias: Option<real>, waits: nat)
    ensures Tracked(Invoice(q, bias, waits, B.Begun(bias, waits), [], []))
  {
    var v := Invoice(q, bias, waits, B.Begun(bias, waits), [], []);
    forall env | Gives(env, v) ensures B.Follows(env, q, bias, v.loop) {
      B.BeginFollows(env, q, bias);
    }
  }

  // ---- What the log of a run shows ----

  /** Before `n`, the pool got a client for `id`, and after that the metrics `m` were fetched through it. */
  ghost predicate Known(log: seq<Event>, n: nat, id: PoolKey, m: Metrics)
    requires n <= |log|
  {
    exists c, f :: 0 <= c < f < n && log[c].Connected? && id in log[c].ids && log[f] == Measured(id, m)
  }

  ghost predicate HasClient(log: seq<Event>, id: PoolKey) {
    exists c :: 0 <= c < |log| && log[c].Connected? && id in log[c].ids
  }

  /** Entry `n` chose `b` for `q`: healthy, of the offer's partition, with known metrics, and fitting any bias. */
  ghost predicate SoundChoice(log: seq<Event>, n: nat, thread: Thread, q: B.Query, b: Published)
    requires n < |log|
  {
    && log[n].Chosen? && log[n].thread == thread && log[n].q == q
    && var c := log[n].candidate;
      && c.backend == b
      && c.healthy && q.partition in b.partitions && c.metrics.Some?
      && (log[n].bias.Some? ==> q.amount as real <= c.metrics.value.inbound as real * (1.0 + log[n].bias.value))
      && Known(log, n, b.id, c.metrics.value)
  }

  ghost predicate Chose(log: seq<Event>, n: nat, thread: Thread, q: B.Query, b: Published)
    requires n <= |log|
  {
    exists i :: 0 <= i < n && SoundChoice(log, i, thread, q, b)
  }

  /** Every pool call in the log follows a sound choice of the same thread, and reached a client. */
  ghost predicate Safe(log: seq<Event>) {
    forall n | 0 <= n < |log| && log[n].Asked? ::
      Chose(log, n, log[n].thread, log[n].q, log[n].backend) && log[n].reply != Err(ClientNotFound)
  }

  ghost predicate SoundSource(outcomes: seq<C.Outcome>, e: Event)
    requires e.Chosen?
  {
    && e.after <= |outcomes| && Given(outcomes, e.after, e.candidate.backend)
    && e.q.partition in e.candidate.backend.partitions
  }

  /** Every choice is of a backend of the offer's partition that an earlier discover call gave. */
  ghost predicate Sourced(outcomes: seq<C.Outcome>, log: seq<Event>) {
    forall n | 0 <= n < |log| && log[n].Chosen? :: SoundSource(outcomes, log[n])
  }

  /** A pool call of the loop is in the log, as the thread's, with the same reply. */
  ghost predicate Logged(log: seq<Event>, t: Thread, q: B.Query, e: B.Event)
    requires e.Called?
  {
    exists n :: 0 <= n < |log| && log[n].Asked? && log[n].thread == t && log[n].q == q
      && log[n].backend == e.backend && B.Wrap(log[n].reply) == e.reply
  }

  ghost predicate Sound(s: System, t: Thread, v: Invoice) {
    && Tracked(v)
    && (v.loop.phase.Asking? ==>
          && Chose(s.log, |s.log|, t, v.q, v.loop.phase.backend)
          && v.loop.phase.backend.id in s.pool.clients)
    && (forall e | e in v.loop.trace && e.Called? :: Logged(s.log, t, v.q, e))
  }

  /** Clients are connected, and metrics known, as the log shows. */
  ghost predicate PoolSound(pool: Clients, log: seq<Event>) {
    && Grounded(pool)
    && (forall id | id in pool.clients :: HasClient(log, id))
    && (forall id | id in pool.metrics :: Known(log, |log|, id, pool.metrics[id]))
  }

  ghost predicate Inv(s: System) {
    && s.world.history != []
    && Ids(s.world.memo.cache) <= s.pool.clients.Keys
    && PoolSound(s.pool, s.log)
    && (forall t | t in s.invoices :: Sound(s, t, s.invoices[t]))
    && Safe(s.log) && Sourced(s.world.outcomes, s.log)
  }

  // ---- A longer log shows all it showed before ----

  lemma KnownStays(log: seq<Event>, more: seq<Event>, n: nat, id: PoolKey, m: Metrics)
    requires n <= |log| && Known(log, n, id, m)
    ensures Known(log + more, n, id, m) && Known(log + more, |log + more|, id, m)
  {
    var c, f :| 0 <= c < f < n && log[c].Connected? && id in log[c].ids && log[f] == Measured(id, m);
    var l := log + more;
    assert l[c] == log[c] && l[f] == log[f];
  }

  lemma ChoseStays(log: seq<Event>, more: seq<Event>, n: nat, t: Thread, q: B.Query, b: Published)
    requires n <= |log| && Chose(log, n, t, q, b)
    ensures Chose(log + more, n, t, q, b) && Chose(log + more, |log + more|, t, q, b)
  {
    var i :| 0 <= i < n && SoundChoice(log, i, t, q, b);
    assert (log + more)[i] == log[i];
    KnownStays(log, more, i, b.id, log[i].candidate.metrics.value);
    assert SoundChoice(log + more, i, t, q, b);
  }

  lemma LoggedStays(log: seq<Event>, more: seq<Event>, t: Thread, q: B.Query, e: B.Event)
    requires e.Called? && Logged(log, t, q, e)
    ensures Logged(log + more, t, q, e)
  {
    var n :| 0 <= n < |log| && log[n].Asked? && log[n].thread == t && log[n].q == q
      && log[n].backend == e.backend && B.Wrap(log[n].reply) == e.reply;
    assert (log + more)[n] == log[n];
  }

  lemma PoolStaysSound(pool: Clients, log: seq<Event>, more: seq<Event>)
    requires PoolSound(pool, log)
    ensures PoolSound(pool, log + more)
  {
    var l := log + more;
    forall id | id in pool.clients ensures HasClient(l, id) {
      var c :| 0 <= c < |log| && log[c].Connected? && id in log[c].ids;
      assert l[c] == log[c];
    }
    forall id | id in pool.metrics ensures Known(l, |l|, id, pool.metrics[id]) {
      KnownStays(log, more, |log|, id, pool.metrics[id]);
    }
  }

  lemma StaysSound(s: System, x: System, t: Thread, v: Invoice)
    requires Sound(s, t, v) && s.log <= x.log && s.pool.clients.Keys <= x.pool.clients.Keys
    ensures Sound(x, t, v)
  {
    var more := x.log[|s.log|..];
    assert x.log == s.log + more;
    if v.loop.phase.Asking? {
      ChoseStays(s.log, more, |s.log|, t, v.q, v.loop.phase.backend);
    }
    forall e | e in v.loop.trace && e.Called? ensures Logged(x.log, t, v.q, e) {
      LoggedStays(s.log, more, t, v.q, e);
    }
  }

  lemma StaysSafe(log: seq<Event>, e: Event)
    requires Safe(log)
    requires e.Asked? ==> Chose(log, |log|, e.thread, e.q, e.backend) && e.reply != Err(ClientNotFound)
    ensures Safe(log + [e])
  {
    var l := log + [e];
    forall n | 0 <= n < |l| && l[n].Asked?
      ensures Chose(l, n, l[n].thread, l[n].q, l[n].backend) && l[n].reply != Err(ClientNotFound)
    {
      if n < |log| {
        assert l[n] == log[n];
      }
      ChoseStays(log, [e], n, l[n].thread, l[n].q, l[n].backend);
    }
  }

  lemma SourceStays(outcomes: seq<C.Outcome>, later: seq<C.Outcome>, e: Event)
    requires e.Chosen? && SoundSource(outcomes, e) && outcomes <= later
    ensures SoundSource(later, e)
  {
    var i :| 0 <= i < |outcomes| && i < e.after && e.candidate.backend in outcomes[i].published;
    assert later[i] == outcomes[i];
  }

  lemma StaysSourced(outcomes: seq<C.Outcome>, later: seq<C.Outcome>, log: seq<Event>, e: Event)
    requires Sourced(outcomes, log) && outcomes <= later
    requires e.Chosen? ==> SoundSource(outcomes, e)
    ensures Sourced(later, log) && Sourced(later, log + [e])
  {
    forall n | 0 <= n < |log| && log[n].Chosen? ensures SoundSource(later, log[n]) {
      SourceStays(outcomes, later, log[n]);
    }
    if e.Chosen? {
      SourceStays(outcomes, later, e);
    }
  }

  // ---- Each step ----

  lemma HealthKeepsPool(pool: Clients, log: seq<Event>, id: PoolKey, m: Metrics)
    requires PoolSound(pool, log) && id in pool.clients
    ensures PoolSound(pool.(metrics := pool.metrics[id := m]), log + [Measured(id, m)])
  {
    var l, metrics := log + [Measured(id, m)], pool.metrics[id := m];
    PoolStaysSound(pool, log, [Measured(id, m)]);
    var c :| 0 <= c < |log| && log[c].Connected? && id in log[c].ids;
    assert l[c] == log[c] && l[|log|] == Measured(id, m);
    forall k | k in metrics ensures Known(l, |l|, k, metrics[k]) {
      assert k != id ==> k in pool.metrics && metrics[k] == pool.metrics[k];
    }
  }

  lemma HealthKeepsInv(s: System, id: PoolKey, m: Metrics)
    requires Inv(s) && id in s.pool.clients
    ensures Inv(s.(pool := s.pool.(metrics := s.pool.metrics[id := m]), log := s.log + [Measured(id, m)]))
  {
    var e := Measured(id, m);
    var x := s.(pool := s.pool.(metrics := s.pool.metrics[id := m]), log := s.log + [e]);
    HealthKeepsPool(s.pool, s.log, id, m);
    forall t | t in x.invoices ensures Sound(x, t, x.invoices[t]) {
      StaysSound(s, x, t, s.invoices[t]);
    }
    StaysSafe(s.log, e);
    StaysSourced(s.world.outcomes, s.world.outcomes, s.log, e);
  }

  lemma ConnectKeepsInv(s: System, world: C.World)
    requires Inv(s) && world.history != [] && s.world.outcomes <= world.outcomes
    ensures Inv(Connect(s, world))
  {
    var x := Connect(s, world);
    var ids := Ids(world.memo.cache) - s.pool.clients.Keys;
    var e := Connected(ids);
    StaysSourced(s.world.outcomes, world.outcomes, s.log, e);
    StaysSafe(s.log, e);
    PoolStaysSound(s.pool, s.log, [e]);
    forall id | id in x.pool.clients ensures HasClient(x.log, id) {
      if id in ids {
        assert x.log[|s.log|] == e;
      }
    }
    assert PoolSound(x.pool, x.log);
    forall t | t in x.invoices ensures Sound(x, t, x.invoices[t]) {
      StaysSound(s, x, t, s.invoices[t]);
    }
  }

  /** One invoice changes and the log gets at most one entry. */
  lemma InvoiceKeepsInv(s: System, t: Thread, v: Invoice, more: seq<Event>)
    requires Inv(s) && |more| <= 1
    requires more != [] ==> Safe(s.log + more) && Sourced(s.world.outcomes, s.log + more)
    requires Sound(s.(log := s.log + more), t, v)
    ensures Inv(s.(invoices := s.invoices[t := v], log := s.log + more))
  {
    var x := s.(invoices := s.invoices[t := v], log := s.log + more);
    assert more == [] ==> x.log == s.log;
    PoolStaysSound(s.pool, s.log, more);
    forall u | u in x.invoices ensures Sound(x, u, x.invoices[u]) {
      if u != t {
        StaysSound(s, x, u, s.invoices[u]);
      } else {
        StaysSound(s.(log := s.log + more), x, u, v);
      }
    }
  }

  lemma BeginKeepsInv(s: System, t: Thread, q: B.Query, bias: Option<real>, waits: nat)
    requires Inv(s)
    ensures Inv(s.(invoices := s.invoices[t := Invoice(q, bias, waits, B.Begun(bias, waits), [], [])]))
  {
    BegunIsTracked(q, bias, waits);
    var v := Invoice(q, bias, waits, B.Begun(bias, waits), [], []);
    assert s.log + [] == s.log;
    InvoiceKeepsInv(s, t, v, []);
  }

  /** What wins is a candidate with the metrics the pool has cached for it. */
  lemma WinnerIsKnown(s: System, q: B.Query, bias: Option<real>, offered: seq<(Published, bool)>, limit: nat)
    requires Inv(s) && (forall o | o in offered :: Given(s.world.outcomes, |s.world.outcomes|, o.0))
    requires Winner(q, Candidates(s.pool, offered), limit, bias).Some?
    ensures var w := Winner(q, Candidates(s.pool, offered), limit, bias).value;
      && B.Accepts(q, w, bias) && w.backend.id in s.pool.clients
      && Known(s.log, |s.log|, w.backend.id, w.metrics.value)
      && Given(s.world.outcomes, |s.world.outcomes|, w.backend)
  {
    var candidates := Candidates(s.pool, offered);
    var w := Winner(q, candidates, limit, bias).value;
    WinnerIsSelected(q, candidates, limit, bias);
    var i :| 0 <= i < |candidates| && candidates[i] == w;
    assert offered[i] in offered && w.backend.id in s.pool.metrics;
  }

  lemma TraceTook(l: B.Loop, chosen: Option<Published>)
    requires l.phase == B.Choosing
    ensures forall e | e in B.Took(l, chosen).trace && e.Called? :: e in l.trace
    ensures B.Took(l, chosen).phase.Asking? <==> chosen.Some?
    ensures chosen.Some? ==> B.Took(l, chosen).phase.backend == chosen.value
  {
  }

  lemma TraceHeard(l: B.Loop, reply: Result<string, CallError>)
    requires l.phase.Asking?
    ensures forall e | e in B.Heard(l, reply).trace && e.Called? ::
      e in l.trace || e == B.Called(l.phase.backend, B.Wrap(reply))
    ensures !B.Heard(l, reply).phase.Asking?
  {
  }

  lemma ChooseKeepsInv(s: System, t: Thread, offered: seq<(Published, bool)>, limit: nat)
    requires Inv(s) && MayChoose(s, t, offered)
    ensures var v, candidates := s.invoices[t], Candidates(s.pool, offered);
      var w := Winner(v.q, candidates, limit, v.loop.current);
      var more := if w.None? then [] else [Chosen(t, v.q, v.loop.current, w.value, |s.world.outcomes|)];
      Inv(s.(invoices := s.invoices[t := Met(v, candidates, limit)], log := s.log + more))
  {
    var v, candidates := s.invoices[t], Candidates(s.pool, offered);
    var w := Winner(v.q, candidates, limit, v.loop.current);
    var more := if w.None? then [] else [Chosen(t, v.q, v.loop.current, w.value, |s.world.outcomes|)];
    WinnerIsSelected(v.q, candidates, limit, v.loop.current);
    MetIsTracked(v, candidates, limit);
    TraceTook(v.loop, B.Select(v.q, candidates, limit, v.loop.current));
    if w.Some? {
      WinnerIsKnown(s, v.q, v.loop.current, offered, limit);
      ChoiceIsLogged(s, v.q, more[0]);
    } else {
      assert s.log + more == s.log;
    }
    forall e | e in v.loop.trace && e.Called? ensures Logged(s.log + more, t, v.q, e) {
      LoggedStays(s.log, more, t, v.q, e);
    }
    InvoiceKeepsInv(s, t, Met(v, candidates, limit), more);
  }

  lemma ChoiceIsLogged(s: System, q: B.Query, e: Event)
    requires Inv(s) && e.Chosen? && e.q == q && e.after == |s.world.outcomes|
    requires B.Accepts(q, e.candidate, e.bias)
    requires Known(s.log, |s.log|, e.candidate.backend.id, e.candidate.metrics.value)
    requires Given(s.world.outcomes, e.after, e.candidate.backend)
    ensures Safe(s.log + [e]) && Sourced(s.world.outcomes, s.log + [e])
    ensures Chose(s.log + [e], |s.log| + 1, e.thread, q, e.candidate.backend)
  {
    StaysSafe(s.log, e);
    StaysSourced(s.world.outcomes, s.world.outcomes, s.log, e);
    KnownStays(s.log, [e], |s.log|, e.candidate.backend.id, e.candidate.metrics.value);
    assert (s.log + [e])[|s.log|] == e;
    assert SoundChoice(s.log + [e], |s.log|, e.thread, q, e.candidate.backend);
  }

  lemma AskKeepsInv(s: System, t: Thread, reply: Result<string, ErrorSource>)
    requires Inv(s) && MayAsk(s, t)
    ensures var v := s.invoices[t];
      var r := FromPool(s.pool, v.loop.phase.backend, reply);
      Inv(s.(invoices := s.invoices[t := Told(v, r)], log := s.log + [Asked(t, v.q, v.loop.phase.backend, r)]))
  {
    var v := s.invoices[t];
    var b := v.loop.phase.backend;
    var r := FromPool(s.pool, b, reply);
    var e := Asked(t, v.q, b, r);
    ToldIsTracked(v, r);
    TraceHeard(v.loop, r);
    StaysSafe(s.log, e);
    StaysSourced(s.world.outcomes, s.world.outcomes, s.log, e);
    forall c | c in Told(v, r).loop.trace && c.Called? ensures Logged(s.log + [e], t, v.q, c) {
      if c in v.loop.trace {
        LoggedStays(s.log, [e], t, v.q, c);
      } else {
        assert (s.log + [e])[|s.log|] == e;
      }
    }
    InvoiceKeepsInv(s, t, Told(v, r), [e]);
  }

  lemma OutcomesGrow(cfg: Config, round: int -> int, w: C.World, a: C.Action)
    requires w.history != []
    ensures w.outcomes <= C.Step(cfg, round, w, a).outcomes
  {
  }

  lemma StepKeepsInv(cfg: Config, round: int -> int, s: System, a: Action)
    requires Inv(s)
    ensures Inv(Step(cfg, round, s, a))
  {
    match a
    case Discovery(step) =>
      OutcomesGrow(cfg, round, s.world, step);
      ConnectKeepsInv(s, C.Step(cfg, round, s.world, step));
    case Health(id, fetched) =>
      if id in s.pool.clients && fetched.Ok? {
        HealthKeepsInv(s, id, fetched.value);
      }
    case Begin(t, q, bias, waits) =>
      if MayBegin(s, t) {
        BeginKeepsInv(s, t, q, bias, waits);
      }
    case Choose(t, offered, limit) =>
      if MayChoose(s, t, offered) {
        ChooseKeepsInv(s, t, offered, limit);
      }
    case Ask(t, reply) =>
      if MayAsk(s, t) {
        AskKeepsInv(s, t, reply);
      }
  }

  lemma {:induction false} RunKeepsInv(cfg: Config, round: int -> int, s: System, actions: seq<Action>)
    requires Inv(s)
    ensures Inv(Run(cfg, round, s, actions))
    decreases |actions|
  {
    if actions != [] {
      StepKeepsInv(cfg, round, s, actions[0]);
      RunKeepsInv(cfg, round, Step(cfg, round, s, actions[0]), actions[1..]);
    }
  }

  // ---- The results ----

  /** In every run, each backend handed to the pool had been chosen by that very thread as healthy, of the offer's
      partition, with metrics fetched earlier under the same key through a client connected before that; so the pool
      never misses the client. Every published backend has its client too. */
  lemma SelectionSafety(cfg: Config, round: int -> int, s: System, actions: seq<Action>)
    requires Start(s)
    ensures var t := Run(cfg, round, s, actions);
      Safe(t.log) && Ids(t.world.memo.cache) <= t.pool.clients.Keys && Grounded(t.pool)
  {
    RunKeepsInv(cfg, round, s, actions);
  }

  /** The environment a call has met, filled up with nothing. */
  function EnvOf(v: Invoice): B.Env {
    B.Env(
      (i: nat) => if i < |v.met| then v.met[i].0 else [],
      (i: nat) => if i < |v.met| then v.met[i].1 else 0,
      (j: nat) => if j < |v.heard| then v.heard[j] else Err(Remote(Internal)),
      v.waits)
  }

  /** A pool call is answered with what the node says, no more and no less. */
  lemma AskReachesNode(cfg: Config, round: int -> int, s: System, t: Thread, reply: Result<string, ErrorSource>)
    requires Inv(s) && MayAsk(s, t)
    ensures var x := Step(cfg, round, s, Ask(t, reply));
      var e := x.log[|x.log| - 1];
      && |x.log| == |s.log| + 1 && e.Asked? && e.thread == t && e.backend == s.invoices[t].loop.phase.backend
      && (forall invoice :: e.reply == Ok(invoice) <==> reply == Ok(invoice))
      && (forall source :: e.reply == Err(Remote(source)) <==> reply == Err(source))
      && e.reply != Err(ClientNotFound)
  {
    assert Sound(s, t, s.invoices[t]);
  }

  /** In every run, an invoice call that has ended has done exactly what the balancer's `GetInvoice`, whose contract is
      `Finished`, does with the candidates and replies the call met there; and no call, ended or not, was ever told that
      there is no client. */
  lemma InvoicesAreGetInvoice(cfg: Config, round: int -> int, s: System, actions: seq<Action>, t: Thread)
    requires Start(s) && t in Run(cfg, round, s, actions).invoices
    ensures var v := Run(cfg, round, s, actions).invoices[t];
      && B.Follows(EnvOf(v), v.q, v.bias, v.loop)
      && (v.loop.phase.Done? ==>
            && B.Finished(EnvOf(v), v.q, v.bias, v.loop.phase.result, v.loop.last, v.loop.trace)
            && v.loop.phase.result != Err(B.ServiceError(ClientNotFound))
            && forall r, last, trace | B.Finished(EnvOf(v), v.q, v.bias, r, last, trace) ::
              r == v.loop.phase.result && last == v.loop.last && trace == v.loop.trace)
      && (forall e | e in v.loop.trace && e.Called? :: e.reply != Err(B.ServiceError(ClientNotFound)))
  {
    RunKeepsInv(cfg, round, s, actions);
    var x := Run(cfg, round, s, actions);
    var v := x.invoices[t];
    assert Sound(x, t, v) && Gives(EnvOf(v), v);
    forall e | e in v.loop.trace && e.Called? ensures e.reply != Err(B.ServiceError(ClientNotFound)) {
      assert Logged(x.log, t, v.q, e);
    }
    if v.loop.phase.Done? {
      forall r, last, trace | B.Finished(EnvOf(v), v.q, v.bias, r, last, trace)
        ensures r == v.loop.phase.result && last == v.loop.last && trace == v.loop.trace
      {
        B.FinishedOnce(EnvOf(v), v.q, v.bias, r, last, trace, v.loop.phase.result, v.loop.last, v.loop.trace);
      }
      B.LastCall(EnvOf(v), v.q, v.bias, v.loop.last);
      var e := v.loop.trace[|v.loop.trace| - 1];
      assert e.Called? ==> e in v.loop.trace;
    }
  }

  // ---- What the steps achieve ----

  /** A first-time call of a thread, or one after its last has ended, starts at its first selection. */
  lemma BeginStarts(cfg: Config, round: int -> int, s: System, t: Thread, q: B.Query, bias: Option<real>, waits: nat)
    requires Inv(s) && (t !in s.invoices || s.invoices[t].loop.phase.Done?)
    ensures var x := Step(cfg, round, s, Begin(t, q, bias, waits));
      && t in x.invoices && x.invoices[t].q == q && x.invoices[t].bias == bias && x.invoices[t].waits == waits
      && x.invoices[t].loop.phase == B.Choosing && x.invoices[t].loop.trace == []
      && x.world == s.world && x.pool == s.pool && x.log == s.log
  {
  }

  /** Metrics fetched through a client are known from then on, and nothing else changes. */
  lemma HealthIsKnown(cfg: Config, round: int -> int, s: System, id: PoolKey, m: Metrics)
    requires Inv(s) && id in s.pool.clients
    ensures var x := Step(cfg, round, s, Health(id, Ok(m)));
      x.world == s.world && x.invoices == s.invoices && x.pool == s.pool.(metrics := s.pool.metrics[id := m])
  {
  }

  /** What the selector's offer is worth: health as offered, metrics as the pool knows them. */
  ghost predicate Worth(pool: Clients, q: B.Query, bias: Option<real>, o: (Published, bool)) {
    && o.1 && q.partition in o.0.partitions && o.0.id in pool.metrics
    && (bias.Some? ==> q.amount as real <= (1.0 + bias.value) * pool.metrics[o.0.id].inbound as real)
  }

  lemma SelectsFirstWorth(pool: Clients, q: B.Query, bias: Option<real>, offered: seq<(Published, bool)>, limit: nat,
                          i: nat)
    requires i < |offered| && i < limit && Worth(pool, q, bias, offered[i])
    requires forall j | 0 <= j < i :: !Worth(pool, q, bias, offered[j])
    ensures B.Select(q, Candidates(pool, offered), limit, bias) == Some(offered[i].0)
  {
    var candidates := Candidates(pool, offered);
    forall j | 0 <= j < |offered| ensures B.Suits(q, candidates[j], bias) <==> Worth(pool, q, bias, offered[j]) {
    }
    B.PicksFirst(q, candidates, limit, bias, i);
  }

  /** A selection takes the first offer within the limit that is worth it, if there is any. */
  lemma ChooseTakesFirst(cfg: Config, round: int -> int, s: System, t: Thread, offered: seq<(Published, bool)>,
                         limit: nat, i: nat)
    requires s.world.history != [] && t in s.invoices && s.invoices[t].loop.phase == B.Choosing
    requires forall o | o in offered :: Given(s.world.outcomes, |s.world.outcomes|, o.0)
    requires var v := s.invoices[t];
      && i < |offered| && i < limit && Worth(s.pool, v.q, v.loop.current, offered[i])
      && forall j | 0 <= j < i :: !Worth(s.pool, v.q, v.loop.current, offered[j])
    ensures var x := Step(cfg, round, s, Choose(t, offered, limit));
      t in x.invoices && x.invoices[t].loop.phase == B.Asking(offered[i].0)
  {
    var v := s.invoices[t];
    SelectsFirstWorth(s.pool, v.q, v.loop.current, offered, limit, i);
    TraceTook(v.loop, Some(offered[i].0));
    assert MayChoose(s, t, offered);
  }

  // ---- Where a chosen backend comes from ----

  function Steps(actions: seq<Action>): seq<C.Action> {
    if actions == [] then []
    else (if actions[0].Discovery? then [actions[0].step] else []) + Steps(actions[1..])
  }

  lemma WorldStep(cfg: Config, round: int -> int, s: System, a: Action)
    requires s.world.history != []
    ensures Step(cfg, round, s, a).world == if a.Discovery? then C.Step(cfg, round, s.world, a.step) else s.world
  {
  }

  lemma {:induction false} WorldIsCoherent(cfg: Config, round: int -> int, s: System, actions: seq<Action>)
    requires s.world.history != []
    ensures |Steps(actions)| <= |actions|
    ensures Run(cfg, round, s, actions).world == C.Run(cfg, round, s.world, Steps(actions))
    decreases |actions|
  {
    if actions != [] {
      var a, x := actions[0], Step(cfg, round, s, actions[0]);
      WorldStep(cfg, round, s, a);
      WorldIsCoherent(cfg, round, x, actions[1..]);
      if a.Discovery? {
        WorldRuns(cfg, round, s.world, a.step, Steps(actions[1..]));
        assert Steps(actions) == [a.step] + Steps(actions[1..]);
      } else {
        assert Steps(actions) == Steps(actions[1..]);
      }
    }
  }

  lemma WorldRuns(cfg: Config, round: int -> int, w: C.World, step: C.Action, rest: seq<C.Action>)
    requires w.history != []
    ensures C.Run(cfg, round, w, [step] + rest) == C.Run(cfg, round, C.Step(cfg, round, w, step), rest)
  {
    assert ([step] + rest)[1..] == rest;
  }

  /** A record of the store that the service may use and that shows as `p`. */
  ghost predicate Shows(cfg: Config, content: set<Backend>, p: Published) {
    exists b :: b in content && Usable(cfg, b) &&
      p.id.addr == cfg.address(b.key) && p.id.weight == b.sparse.weight && p.partitions == b.sparse.partitions
  }

  ghost predicate ShownBy(cfg: Config, history: seq<C.Store>, o: C.Outcome, p: Published) {
    o.begin <= o.version <= o.end < |history| && Shows(cfg, C.Delivered(cfg, history[o.version]), p)
  }

  /** Each backend ever chosen for an offer goes back to a record that the store held during an earlier discover call:
      of the offer's partition and one of the service's, and one a client could be built for. */
  lemma ChoicesComeFromTheStore(cfg: Config, round: int -> int, s: System, actions: seq<Action>, n: nat)
    requires Start(s) && |actions| + 1 < TWO_64
    requires forall c | c in Run(cfg, round, s, actions).world.history :: Separate(cfg, C.Delivered(cfg, c))
    requires n < |Run(cfg, round, s, actions).log| && Run(cfg, round, s, actions).log[n].Chosen?
    ensures var x := Run(cfg, round, s, actions);
      var e := x.log[n];
      && e.q.partition in e.candidate.backend.partitions
      && (exists i :: 0 <= i < |x.world.outcomes| && i < e.after
            && ShownBy(cfg, x.world.history, x.world.outcomes[i], e.candidate.backend))
  {
    RunKeepsInv(cfg, round, s, actions);
    WorldIsCoherent(cfg, round, s, actions);
    C.CacheCoherence(cfg, round, s.world, Steps(actions));
    var x := Run(cfg, round, s, actions);
    var e := x.log[n];
    var i :| 0 <= i < |x.world.outcomes| && i < e.after && e.candidate.backend in x.world.outcomes[i].published;
    var o := x.world.outcomes[i];
    assert o in x.world.outcomes && C.Exact(cfg, x.world.history, o);
    ProjectionExactly(cfg, C.Delivered(cfg, x.world.history[o.version]), e.candidate.backend);
    assert ShownBy(cfg, x.world.history, o, e.candidate.backend);
  }

  // ---- The discovery step is what the service's discover does ----

  /** A step either leaves memory and pool alone, or ends a call: then memory, client keys, answer and flags are those
      of `Discovered` for the conditional read of some version's etag and the current rows. */
  lemma DiscoveryIsDiscover(cfg: Config, round: int -> int, s: System, step: C.Action)
    requires Inv(s)
    ensures var x := Step(cfg, round, s, Discovery(step));
      || Undisturbed(s, x)
      || exists at: nat, flags :: at < |s.world.history| && Ended(cfg, s, x, at, flags)
  {
    var w, next := s.world, C.Step(cfg, round, s.world, step);
    if next.outcomes == w.outcomes {
      assert next.memo == w.memo;
      NothingNew(s, next);
    } else {
      var at := if step.ReadEtag? then |w.history| - 1 else w.phase.at;
      assert next == C.Answered(cfg, w, w.phase.begin, at);
      AnswerIsDiscovered(cfg, s, w.phase.begin, at);
    }
  }

  ghost predicate Undisturbed(s: System, x: System) {
    x.world.memo == s.world.memo && x.world.outcomes == s.world.outcomes && x.pool == s.pool
  }

  lemma NothingNew(s: System, world: C.World)
    requires Ids(s.world.memo.cache) <= s.pool.clients.Keys
    requires world.memo == s.world.memo && world.outcomes == s.world.outcomes
    ensures Undisturbed(s, Connect(s, world))
  {
    assert Ids(world.memo.cache) - s.pool.clients.Keys == {};
    assert Connect(s, world).pool.clients == s.pool.clients;
  }

  ghost predicate Ended(cfg: Config, s: System, x: System, at: nat, flags: map<u64, bool>)
    requires at < |s.world.history|
  {
    && C.Provided(cfg, s.world, at).Some?
    && |x.world.outcomes| == |s.world.outcomes| + 1
    && var o := x.world.outcomes[|s.world.outcomes|];
      && Discovered(cfg, s.world.memo, s.pool.clients.Keys, Ok(C.Provided(cfg, s.world, at).value))
           == (x.world.memo, x.pool.clients.Keys, Ok((o.published, flags)))
      && o.flags == s.world.flags + flags
  }

  lemma AnswerIsDiscovered(cfg: Config, s: System, begin: nat, at: nat)
    requires Ids(s.world.memo.cache) <= s.pool.clients.Keys
    requires at < |s.world.history| && C.Provided(cfg, s.world, at).Some?
    ensures exists flags :: Ended(cfg, s, Connect(s, C.Answered(cfg, s.world, begin, at)), at, flags)
  {
    var (memo, published, flags) := Absorb(cfg, s.world.memo, C.Provided(cfg, s.world, at).value);
    var x := Connect(s, C.Answered(cfg, s.world, begin, at));
    assert published == memo.cache;
    assert x.pool.clients.Keys == s.pool.clients.Keys + Ids(published);
    assert Ended(cfg, s, x, at, flags);
  }
}
