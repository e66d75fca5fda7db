/** Invoice balancing: backend selection, and the retry loop with its one-shot capacity bias. */
module Balancer {
  import opened Types
  import opened ClientPool
  import opened ServiceDiscovery

  /** A backend offered to the acceptance test, with its health and its cached metrics at that moment. */
  datatype Candidate = Candidate(backend: Published, healthy: bool, metrics: Option<Metrics>)

  datatype Query = Query(partition: string, amount: u64)

  predicate Fits(q: Query, inbound: u64, bias: real) {
    q.amount as real <= inbound as real * (1.0 + bias)
  }

  predicate Accepts(q: Query, c: Candidate, bias: Option<real>) {
    && c.healthy
    && q.partition in c.backend.partitions
    && c.metrics.Some?
    && (bias.Some? ==> Fits(q, c.metrics.value.inbound, bias.value))
  }

  predicate NoneAccepted(q: Query, candidates: seq<Candidate>, limit: nat, bias: Option<real>) {
    forall i | 0 <= i < |candidates| && i < limit :: !Accepts(q, candidates[i], bias)
  }

  /** Look at the first `limit` candidates in turn. */
  function Select(q: Query, candidates: seq<Candidate>, limit: nat, bias: Option<real>): Option<Published> {
    if candidates == [] || limit == 0 then None
    else if Accepts(q, candidates[0], bias) then Some(candidates[0].backend)
    else Select(q, candidates[1..], limit - 1, bias)
  }

  predicate FirstAt(q: Query, candidates: seq<Candidate>, bias: Option<real>, i: nat)
    requires i < |candidates|
  {
    Accepts(q, candidates[i], bias) && forall j | 0 <= j < i :: !Accepts(q, candidates[j], bias)
  }

  ghost predicate FirstWithin(q: Query, candidates: seq<Candidate>, limit: nat, bias: Option<real>, b: Published) {
    exists i :: 0 <= i < |candidates| && i < limit && FirstAt(q, candidates, bias, i) && candidates[i].backend == b
  }

  lemma FirstAtTail(q: Query, candidates: seq<Candidate>, bias: Option<real>, j: nat)
    requires candidates != [] && !Accepts(q, candidates[0], bias)
    requires j < |candidates[1..]| && FirstAt(q, candidates[1..], bias, j)
    ensures FirstAt(q, candidates, bias, j + 1)
  {
    forall i | 0 <= i < j + 1 ensures !Accepts(q, candidates[i], bias) {
      if i > 0 {
        assert candidates[i] == candidates[1..][i - 1];
      }
    }
  }

  /** The backend selected is the first acceptable one within the limit; there is none only if none is acceptable. */
  lemma {:induction false} SelectsAccepted(q: Query, candidates: seq<Candidate>, limit: nat, bias: Option<real>)
    ensures var r := Select(q, candidates, limit, bias);
      && (r.None? <==> NoneAccepted(q, candidates, limit, bias))
      && (r.Some? ==> FirstWithin(q, candidates, limit, bias, r.value))
  {
    if candidates != [] && limit > 0 {
      if Accepts(q, candidates[0], bias) {
        assert FirstAt(q, candidates, bias, 0);
      } else {
        var rest := candidates[1..];
        SelectsAccepted(q, rest, limit - 1, bias);
        var r := Select(q, rest, limit - 1, bias);
        if r.Some? {
          var j :| 0 <= j < |rest| && j < limit - 1 && FirstAt(q, rest, bias, j) && rest[j].backend == r.value;
          FirstAtTail(q, candidates, bias, j);
        } else {
          forall i | 0 <= i < |candidates| && i < limit ensures !Accepts(q, candidates[i], bias) {
            assert i > 0 ==> candidates[i] == rest[i - 1];
          }
        }
      }
    }
  }

  /** What an invoice request needs of a candidate: health, the offer's partition, metrics, and, if there is a bias,
      room for the amount in the inbound capacity scaled by one plus the bias. */
  predicate Suits(q: Query, c: Candidate, bias: Option<real>) {
    match (c.healthy, c.metrics, bias)
    case (true, Some(m), None) => q.partition in c.backend.partitions
    case (true, Some(m), Some(x)) =>
      q.partition in c.backend.partitions && q.amount as real <= (1.0 + x) * m.inbound as real
    case _ => false
  }

  lemma AcceptsWhatSuits(q: Query, c: Candidate, bias: Option<real>)
    ensures Accepts(q, c, bias) <==> Suits(q, c, bias)
  {
  }

  /** The backend selected is that of the first suitable candidate within the limit; there is none exactly if no
      candidate within it is suitable. */
  lemma SelectsFirst(q: Query, candidates: seq<Candidate>, limit: nat, bias: Option<real>)
    ensures Select(q, candidates, limit, bias).None? <==>
      forall i | 0 <= i < |candidates| && i < limit :: !Suits(q, candidates[i], bias)
    ensures forall b :: Select(q, candidates, limit, bias) == Some(b) ==>
      exists i :: 0 <= i < |candidates| && i < limit && candidates[i].backend == b
        && Suits(q, candidates[i], bias) && forall j | 0 <= j < i :: !Suits(q, candidates[j], bias)
  {
    SelectsAccepted(q, candidates, limit, bias);
    forall c: Candidate ensures Accepts(q, c, bias) <==> Suits(q, c, bias) {
      AcceptsWhatSuits(q, c, bias);
    }
    var r := Select(q, candidates, limit, bias);
    if r.Some? {
      var i :| 0 <= i < |candidates| && i < limit && FirstAt(q, candidates, bias, i)
        && candidates[i].backend == r.value;
      assert Suits(q, candidates[i], bias);
    }
  }

  lemma PicksFirst(q: Query, candidates: seq<Candidate>, limit: nat, bias: Option<real>, i: nat)
    requires i < |candidates| && i < limit && Suits(q, candidates[i], bias)
    requires forall j | 0 <= j < i :: !Suits(q, candidates[j], bias)
    ensures Select(q, candidates, limit, bias) == Some(candidates[i].backend)
  {
    SelectsFirst(q, candidates, limit, bias);
  }

  datatype LnError = NoAvailableNodes | ServiceError(cause: CallError)

  function SourceOf(e: LnError): ErrorSource {
    match e
    case NoAvailableNodes => Upstream
    case ServiceError(ClientNotFound) => Internal
    case ServiceError(Remote(s)) => s
  }

  /** What the balancer meets: the candidates at its n-th selection and the limit then in force, the answer to its n-th
      pool call, and how many times the backoff grants another try. */
  datatype Env = Env(
    candidates: nat -> seq<Candidate>,
    limits: nat -> nat,
    answers: nat -> Result<string, CallError>,
    waits: nat)

  /** The n-th selection. */
  function Pick(env: Env, q: Query, n: nat, bias: Option<real>): Option<Published> {
    Select(q, env.candidates(n), env.limits(n), bias)
  }

  datatype Event =
    | Selected(bias: Option<real>, chosen: Option<Published>)
    | Called(backend: Published, reply: Result<string, LnError>)
    | Waited

  function Wrap(r: Result<string, CallError>): Result<string, LnError> {
    match r case Ok(s) => Ok(s) case Err(e) => Err(ServiceError(e))
  }

  predicate Retryable(r: Result<string, LnError>) {
    r.Err? && SourceOf(r.error) != Downstream
  }

  // ---- Reference definition, attempt by attempt ----

  /** The biased pass comes first if there is a bias; when it finds nothing the same attempt selects again without. */
  function FellBack(env: Env, q: Query, bias: Option<real>): bool {
    bias.Some? && Pick(env, q, 0, bias).None?
  }

  function Extra(env: Env, q: Query, bias: Option<real>): nat {
    if FellBack(env, q, bias) then 1 else 0
  }

  function Chosen(env: Env, q: Query, bias: Option<real>, attempt: nat): Option<Published> {
    if attempt == 0 && !FellBack(env, q, bias) then Pick(env, q, 0, bias)
    else Pick(env, q, attempt + Extra(env, q, bias), None)
  }

  function CallsBefore(env: Env, q: Query, bias: Option<real>, attempt: nat): nat {
    if attempt == 0 then 0
    else CallsBefore(env, q, bias, attempt - 1) + if Chosen(env, q, bias, attempt - 1).Some? then 1 else 0
  }

  function Attempt(env: Env, q: Query, bias: Option<real>, attempt: nat): Result<string, LnError> {
    if Chosen(env, q, bias, attempt).None? then Err(NoAvailableNodes)
    else Wrap(env.answers(CallsBefore(env, q, bias, attempt)))
  }

  function AttemptTrace(env: Env, q: Query, bias: Option<real>, attempt: nat): seq<Event> {
    var chosen := Chosen(env, q, bias, attempt);
    (if attempt == 0 && FellBack(env, q, bias) then [Selected(bias, None)] else [])
    + [Selected(Used(env, q, bias, attempt), chosen)]
    + (if chosen.Some? then [Called(chosen.value, Attempt(env, q, bias, attempt))] else [])
  }

  /** Everything up to and including attempt `last`, waits in between. */
  function TraceTo(env: Env, q: Query, bias: Option<real>, last: nat): seq<Event>
    decreases last, 1
  {
    TraceBefore(env, q, bias, last) + AttemptTrace(env, q, bias, last)
  }

  function TraceBefore(env: Env, q: Query, bias: Option<real>, attempt: nat): seq<Event>
    decreases attempt, 0
  {
    if attempt == 0 then [] else TraceTo(env, q, bias, attempt - 1) + [Waited]
  }

  predicate Ends(env: Env, q: Query, bias: Option<real>, attempt: nat) {
    !Retryable(Attempt(env, q, bias, attempt)) || attempt == env.waits
  }

  /** None of the first `n` attempts is the last. */
  ghost predicate NoneEnds(env: Env, q: Query, bias: Option<real>, n: nat) {
    forall a: nat | a < n :: !Ends(env, q, bias, a)
  }

  /** The pool's answer to the attempt's call, if it makes one. */
  function AnswerTo(env: Env, q: Query, bias: Option<real>, attempt: nat): Option<Result<string, CallError>> {
    if Chosen(env, q, bias, attempt).None? then None else Some(env.answers(CallsBefore(env, q, bias, attempt)))
  }

  /** An attempt gives the pool's answer as it is, or, with no backend to ask, that there is none. */
  lemma AttemptExactly(env: Env, q: Query, bias: Option<real>, a: nat)
    ensures var answer, r := AnswerTo(env, q, bias, a), Attempt(env, q, bias, a);
      && (r == Err(NoAvailableNodes) <==> answer.None?)
      && (forall invoice :: r == Ok(invoice) <==> answer == Some(Ok(invoice)))
      && (forall e :: r == Err(ServiceError(e)) <==> answer == Some(Err(e)))
  {
  }

  /** An attempt ends the call exactly if it is the one for which no backoff is left, or the pool answered it with an
      invoice or an error that is the caller's own fault; above all, finding no node is a reason to try again. */
  lemma EndsExactly(env: Env, q: Query, bias: Option<real>, a: nat)
    ensures var answer := AnswerTo(env, q, bias, a);
      Ends(env, q, bias, a) <==>
        a == env.waits || (answer.Some? && (answer.value.Ok? || answer.value.error == Remote(Downstream)))
  {
  }

  /** What has happened when attempt `a` makes the selection that counts. */
  function Lead(env: Env, q: Query, bias: Option<real>, a: nat): seq<Event> {
    TraceBefore(env, q, bias, a) + if a == 0 && FellBack(env, q, bias) then [Selected(bias, None)] else []
  }

  function Used(env: Env, q: Query, bias: Option<real>, a: nat): Option<real> {
    if a == 0 && !FellBack(env, q, bias) then bias else None
  }

  lemma Assembled(env: Env, q: Query, bias: Option<real>, a: nat)
    ensures var chosen := Chosen(env, q, bias, a);
      TraceTo(env, q, bias, a) == Lead(env, q, bias, a) + [Selected(Used(env, q, bias, a), chosen)]
        + if chosen.Some? then [Called(chosen.value, Attempt(env, q, bias, a))] else []
    ensures Lead(env, q, bias, a + 1) == TraceTo(env, q, bias, a) + [Waited]
  {
    assert TraceBefore(env, q, bias, a + 1) == TraceTo(env, q, bias, a) + [Waited];
  }

  // ---- The loop ----

  datatype Phase = Choosing | Asking(backend: Published) | Done(result: Result<string, LnError>)

  /** The loop's variables, how far it has come in its environment, and what it has done. */
  datatype Loop = Loop(
    current: Option<real>,
    left: nat,
    last: nat,
    selections: nat,
    calls: nat,
    trace: seq<Event>,
    phase: Phase)

  function Begun(bias: Option<real>, waits: nat): Loop {
    Loop(bias, waits, 0, 0, 0, [], Choosing)
  }

  /** An attempt has its result: return it, or spend a backoff on the next attempt. */
  function Settled(l: Loop, r: Result<string, LnError>): Loop {
    if !Retryable(r) || l.left == 0 then l.(phase := Done(r))
    else l.(left := l.left - 1, last := l.last + 1, trace := l.trace + [Waited], phase := Choosing)
  }

  /** A selection has been made. */
  function Took(l: Loop, chosen: Option<Published>): Loop {
    var m := l.(current := None, selections := l.selections + 1, trace := l.trace + [Selected(l.current, chosen)]);
    if chosen.Some? then m.(phase := Asking(chosen.value))
    else if l.current.Some? then m
    else Settled(m, Err(NoAvailableNodes))
  }

  /** The pool has answered. */
  function Heard(l: Loop, reply: Result<string, CallError>): Loop
    requires l.phase.Asking?
  {
    Settled(l.(calls := l.calls + 1, trace := l.trace + [Called(l.phase.backend, Wrap(reply))]), Wrap(reply))
  }

  /** The loop stands where the reference definition would have it in that environment. */
  ghost predicate Follows(env: Env, q: Query, bias: Option<real>, l: Loop) {
    && l.left <= env.waits && l.last == env.waits - l.left
    && NoneEnds(env, q, bias, l.last)
    && match l.phase
      case Choosing => l.calls == CallsBefore(env, q, bias, l.last) && ReadyToChoose(env, q, bias, l)
      case Asking(b) =>
        && l.calls == CallsBefore(env, q, bias, l.last)
        && l.current.None? && l.selections == l.last + 1 + Extra(env, q, bias)
        && Chosen(env, q, bias, l.last) == Some(b)
        && l.trace == Lead(env, q, bias, l.last) + [Selected(Used(env, q, bias, l.last), Some(b))]
      case Done(r) => Finished(env, q, bias, r, l.last, l.trace)
  }

  /** Attempt `last` ended it, with result `r`, and `trace` is all that was done. */
  ghost predicate Finished(env: Env, q: Query, bias: Option<real>, r: Result<string, LnError>, last: nat,
                           trace: seq<Event>)
  {
    && last <= env.waits && Ends(env, q, bias, last) && NoneEnds(env, q, bias, last)
    && r == Attempt(env, q, bias, last) && trace == TraceTo(env, q, bias, last)
  }

  ghost predicate ReadyToChoose(env: Env, q: Query, bias: Option<real>, l: Loop) {
    if l.current.Some? then l.last == 0 && l.current == bias && l.selections == 0 && l.trace == []
    else
      && l.selections == l.last + Extra(env, q, bias)
      && (l.last == 0 ==> bias.None? || FellBack(env, q, bias))
      && l.trace == Lead(env, q, bias, l.last)
  }

  lemma BeginFollows(env: Env, q: Query, bias: Option<real>)
    ensures Follows(env, q, bias, Begun(bias, env.waits))
  {
  }

  lemma SettleFollows(env: Env, q: Query, bias: Option<real>, l: Loop)
    requires l.left <= env.waits && l.last == env.waits - l.left && NoneEnds(env, q, bias, l.last)
    requires l.current.None? && l.selections == l.last + 1 + Extra(env, q, bias)
    requires l.calls == CallsBefore(env, q, bias, l.last + 1) && l.trace == TraceTo(env, q, bias, l.last)
    ensures Follows(env, q, bias, Settled(l, Attempt(env, q, bias, l.last)))
  {
    Assembled(env, q, bias, l.last);
    if Retryable(Attempt(env, q, bias, l.last)) && l.left > 0 {
      assert !Ends(env, q, bias, l.last);
      assert NoneEnds(env, q, bias, l.last + 1);
    }
  }

  lemma TakeFollows(env: Env, q: Query, bias: Option<real>, l: Loop)
    requires Follows(env, q, bias, l) && l.phase == Choosing
    ensures Follows(env, q, bias, Took(l, Pick(env, q, l.selections, l.current)))
  {
    if l.current.Some? && Pick(env, q, l.selections, l.current).None? {
      FallsBack(env, q, bias, l);
    } else {
      TakeCounts(env, q, bias, l);
    }
  }

  lemma FallsBack(env: Env, q: Query, bias: Option<real>, l: Loop)
    requires Follows(env, q, bias, l) && l.phase == Choosing
    requires l.current.Some? && Pick(env, q, l.selections, l.current).None?
    ensures Follows(env, q, bias, Took(l, None))
  {
    assert FellBack(env, q, bias) && Lead(env, q, bias, 0) == [Selected(bias, None)];
  }

  /** The selection that counts for the attempt. */
  lemma TakeCounts(env: Env, q: Query, bias: Option<real>, l: Loop)
    requires Follows(env, q, bias, l) && l.phase == Choosing
    requires l.current.None? || Pick(env, q, l.selections, l.current).Some?
    ensures Follows(env, q, bias, Took(l, Pick(env, q, l.selections, l.current)))
  {
    var chosen := Pick(env, q, l.selections, l.current);
    assert chosen == Chosen(env, q, bias, l.last) && l.current == Used(env, q, bias, l.last);
    assert l.selections == l.last + Extra(env, q, bias) && l.trace == Lead(env, q, bias, l.last);
    var m := l.(current := None, selections := l.selections + 1, trace := l.trace + [Selected(l.current, chosen)]);
    if chosen.None? {
      Assembled(env, q, bias, l.last);
      assert m.trace == TraceTo(env, q, bias, l.last);
      SettleFollows(env, q, bias, m);
      assert Took(l, chosen) == Settled(m, Err(NoAvailableNodes));
    } else {
      assert Took(l, chosen) == m.(phase := Asking(chosen.value));
    }
  }

  lemma HearFollows(env: Env, q: Query, bias: Option<real>, l: Loop)
    requires Follows(env, q, bias, l) && l.phase.Asking?
    ensures Follows(env, q, bias, Heard(l, env.answers(l.calls)))
  {
    var r := Wrap(env.answers(l.calls));
    assert r == Attempt(env, q, bias, l.last);
    Assembled(env, q, bias, l.last);
    var m := l.(calls := l.calls + 1, trace := l.trace + [Called(l.phase.backend, r)]);
    assert m.trace == TraceTo(env, q, bias, l.last);
    SettleFollows(env, q, bias, m);
  }

  /** What a proof about the loop may rely on, without looking into `Follows`. */
  lemma Tracking(env: Env, q: Query, bias: Option<real>) returns (good: Loop -> bool)
    ensures good(Begun(bias, env.waits))
    ensures forall l {:trigger Took(l, Pick(env, q, l.selections, l.current))} | good(l) && l.phase == Choosing ::
      good(Took(l, Pick(env, q, l.selections, l.current)))
    ensures forall l {:trigger Heard(l, env.answers(l.calls))} | good(l) && l.phase.Asking? ::
      good(Heard(l, env.answers(l.calls)))
    ensures forall l | good(l) && l.phase.Done? :: Finished(env, q, bias, l.phase.result, l.last, l.trace)
  {
    BeginFollows(env, q, bias);
    good := l => Follows(env, q, bias, l);
    forall l | good(l) && l.phase == Choosing ensures good(Took(l, Pick(env, q, l.selections, l.current))) {
      TakeFollows(env, q, bias, l);
    }
    forall l | good(l) && l.phase.Asking? ensures good(Heard(l, env.answers(l.calls))) {
      HearFollows(env, q, bias, l);
    }
  }

  /** The loop makes attempts 0, 1, ... up to the first that succeeds, fails Downstream, or finds the backoff spent,
      and returns what that one gave. */
  method GetInvoice(env: Env, q: Query, bias: Option<real>)
      returns (r: Result<string, LnError>, last: nat, trace: seq<Event>)
    ensures Finished(env, q, bias, r, last, trace)
  {
    var left := env.waits;
    var current := bias;
    var selections, calls := 0, 0;
    last, trace := 0, [];
    ghost var good := Tracking(env, q, bias);
    ghost var now := Begun(bias, env.waits);
    while true
      invariant now == Loop(current, left, last, selections, calls, trace, Choosing)
      invariant good(now)
      decreases left, current.Some?
    {
      var chosen := Select(q, env.candidates(selections), env.limits(selections), current);
      now := Took(now, Pick(env, q, now.selections, now.current));
      trace := trace + [Selected(current, chosen)];
      selections := selections + 1;
      if current.Some? {
        current := None;
        if chosen.None? {
          continue;
        }
      }
      if chosen.None? {
        r := Err(NoAvailableNodes);
      } else {
        now := Heard(now, env.answers(now.calls));
        r := Wrap(env.answers(calls));
        trace := trace + [Called(chosen.value, r)];
        calls := calls + 1;
      }
      if r.Ok? || SourceOf(r.error) == Downstream || left == 0 {
        assert now == Loop(current, left, last, selections, calls, trace, Done(r));
        return;
      }
      left, last, trace := left - 1, last + 1, trace + [Waited];
    }
  }

  /** An environment allows one outcome only. */
  lemma FinishedOnce(env: Env, q: Query, bias: Option<real>, r: Result<string, LnError>, last: nat, trace: seq<Event>,
                     r': Result<string, LnError>, last': nat, trace': seq<Event>)
    requires Finished(env, q, bias, r, last, trace) && Finished(env, q, bias, r', last', trace')
    ensures r == r' && last == last' && trace == trace'
  {
  }

  // ---- What a whole call does ----

  datatype Kind = Selection | PoolCall | BackoffRound

  function KindOf(e: Event): Kind {
    match e case Selected(_, _) => Selection case Called(_, _) => PoolCall case Waited => BackoffRound
  }

  function Count(trace: seq<Event>, kind: Kind): nat {
    if trace == [] then 0 else (if KindOf(trace[0]) == kind then 1 else 0) + Count(trace[1..], kind)
  }

  lemma {:induction false} CountConcat(a: seq<Event>, b: seq<Event>, p: Kind)
    ensures Count(a + b, p) == Count(a, p) + Count(b, p)
  {
    if a == [] {
      assert a + b == b;
    } else {
      assert (a + b)[1..] == a[1..] + b;
      CountConcat(a[1..], b, p);
    }
  }

  lemma CountOne(e: Event)
    ensures forall kind :: Count([e], kind) == if KindOf(e) == kind then 1 else 0
  {
    assert [e][1..] == [];
  }

  lemma CountAttempt(env: Env, q: Query, bias: Option<real>, a: nat)
    ensures Count(AttemptTrace(env, q, bias, a), Selection) == if a == 0 && FellBack(env, q, bias) then 2 else 1
    ensures Count(AttemptTrace(env, q, bias, a), PoolCall) == if Chosen(env, q, bias, a).Some? then 1 else 0
    ensures Count(AttemptTrace(env, q, bias, a), BackoffRound) == 0
  {
    var chosen := Chosen(env, q, bias, a);
    var x: seq<Event> := if a == 0 && FellBack(env, q, bias) then [Selected(bias, None)] else [];
    var y := [Selected(Used(env, q, bias, a), chosen)];
    var z := if chosen.Some? then [Called(chosen.value, Attempt(env, q, bias, a))] else [];
    forall p: Kind
      ensures Count(AttemptTrace(env, q, bias, a), p) == Count(x, p) + Count(y, p) + Count(z, p)
    {
      assert AttemptTrace(env, q, bias, a) == x + y + z;
      CountConcat(x + y, z, p);
      CountConcat(x, y, p);
    }
    CountOne(Selected(bias, None));
    CountOne(y[0]);
    if chosen.Some? {
      CountOne(z[0]);
    }
  }

  /** With k waits there are k + 1 attempts: at most k + 1 pool calls, one per attempt that selects something; k + 1
      selections, and one more exactly when the biased pass found nothing. */
  lemma {:induction false} TraceCounts(env: Env, q: Query, bias: Option<real>, k: nat)
    ensures Count(TraceTo(env, q, bias, k), BackoffRound) == k
    ensures Count(TraceTo(env, q, bias, k), PoolCall) == CallsBefore(env, q, bias, k + 1) <= k + 1
    ensures Count(TraceTo(env, q, bias, k), Selection) == k + if FellBack(env, q, bias) then 2 else 1
  {
    CountAttempt(env, q, bias, k);
    if k == 0 {
      assert TraceTo(env, q, bias, 0) == [] + AttemptTrace(env, q, bias, 0) == AttemptTrace(env, q, bias, 0);
    } else {
      var before, now := TraceTo(env, q, bias, k - 1), AttemptTrace(env, q, bias, k);
      TraceCounts(env, q, bias, k - 1);
      forall p: Kind
        ensures Count(TraceTo(env, q, bias, k), p) == Count(before, p) + Count([Waited], p) + Count(now, p)
      {
        CountConcat(before + [Waited], now, p);
        CountConcat(before, [Waited], p);
      }
    }
  }

  /** An error that is not the caller's own fault. */
  predicate Excusable(r: Result<string, LnError>) {
    r.Err? && r.error.ServiceError? && r.error.cause != Remote(Downstream)
  }

  /** Nothing follows a reply but such an error, and no selection but the first uses the bias. */
  ghost predicate Orderly(t: seq<Event>) {
    && (forall i | 0 <= i < |t| - 1 && t[i].Called? :: Excusable(t[i].reply))
    && (forall i | 0 < i < |t| && t[i].Selected? :: t[i].bias.None?)
  }

  /** A success or a Downstream error is the last thing that happens, and only the first selection uses the bias. */
  lemma {:induction false} NothingAfterTheEnd(env: Env, q: Query, bias: Option<real>, k: nat)
    requires NoneEnds(env, q, bias, k)
    ensures Orderly(TraceTo(env, q, bias, k))
  {
    if k > 0 {
      NothingAfterTheEnd(env, q, bias, k - 1);
      LastCall(env, q, bias, k - 1);
      assert !Ends(env, q, bias, k - 1);
      EndsExactly(env, q, bias, k - 1);
      AttemptExactly(env, q, bias, k - 1);
      OneMoreAttempt(env, q, bias, k);
      OrderlyGrows(TraceTo(env, q, bias, k - 1), TraceTo(env, q, bias, k));
    }
  }

  lemma OrderlyGrows(before: seq<Event>, t: seq<Event>)
    requires Orderly(before) && before != [] && before < t
    requires before[|before| - 1].Called? ==> Excusable(before[|before| - 1].reply)
    requires t[|before|] == Waited && |before| + 2 <= |t| <= |before| + 3
    requires t[|before| + 1].Selected? && t[|before| + 1].bias.None?
    requires |t| == |before| + 3 ==> t[|before| + 2].Called?
    ensures Orderly(t)
  {
    forall i | 0 <= i < |t| - 1 && t[i].Called? ensures Excusable(t[i].reply) {
      assert i < |before| && t[i] == before[i];
    }
    forall i | 0 < i < |t| && t[i].Selected? ensures t[i].bias.None? {
      assert i < |before| ==> t[i] == before[i];
    }
  }

  /** What a finished call has done, in terms of what it met: every earlier attempt chose nothing or heard an error not
      the caller's fault; the last one ended it, or had no backoff left; its answer is the result and the last event. */
  lemma FinishedExactly(env: Env, q: Query, bias: Option<real>, r: Result<string, LnError>, last: nat,
                        trace: seq<Event>)
    requires Finished(env, q, bias, r, last, trace)
    ensures last <= env.waits && Count(trace, BackoffRound) == last
    ensures forall a: nat | a < last ::
      var answer := AnswerTo(env, q, bias, a);
      answer.None? || (answer.value.Err? && answer.value.error != Remote(Downstream))
    ensures var answer := AnswerTo(env, q, bias, last);
      && (last == env.waits || (answer.Some? && (answer.value.Ok? || answer.value.error == Remote(Downstream))))
      && (forall invoice :: r == Ok(invoice) <==> answer == Some(Ok(invoice)))
      && (forall e :: r == Err(ServiceError(e)) <==> answer == Some(Err(e)))
      && (r == Err(NoAvailableNodes) <==> answer.None?)
    ensures r.Err? ==>
      match AnswerTo(env, q, bias, last)
      case None => SourceOf(r.error) == Upstream
      case Some(Err(Remote(source))) => SourceOf(r.error) == source
      case Some(Err(ClientNotFound)) => SourceOf(r.error) == Internal
      case Some(Ok(_)) => false
    ensures Orderly(trace) && trace != []
    ensures var end := trace[|trace| - 1];
      if r == Err(NoAvailableNodes) then !end.Called? else end.Called? && end.reply == r
  {
    EndsExactly(env, q, bias, last);
    AttemptExactly(env, q, bias, last);
    forall a: nat | a < last
      ensures var answer := AnswerTo(env, q, bias, a);
        answer.None? || (answer.value.Err? && answer.value.error != Remote(Downstream))
    {
      assert !Ends(env, q, bias, a);
      EndsExactly(env, q, bias, a);
    }
    NothingAfterTheEnd(env, q, bias, last);
    LastCall(env, q, bias, last);
    TraceCounts(env, q, bias, last);
  }

  /** Each selection in a trace is what its number and its bias give, and each pool call goes to the backend selected
      just before it and is told what its number gives; a wait comes after a call, or a selection without a bias that
      found nothing. */
  ghost predicate Genuine(env: Env, q: Query, t: seq<Event>) {
    forall i | 0 <= i < |t| :: GenuineNext(env, q, t[..i], t[i])
  }

  ghost predicate GenuineNext(env: Env, q: Query, before: seq<Event>, e: Event) {
    match e
    case Selected(bias, chosen) =>
      var n := Count(before, Selection); chosen == Select(q, env.candidates(n), env.limits(n), bias)
    case Called(backend, reply) =>
      && before != [] && before[|before| - 1].Selected? && before[|before| - 1].chosen == Some(backend)
      && (match env.answers(Count(before, PoolCall))
          case Ok(invoice) => reply == Ok(invoice)
          case Err(cause) => reply == Err(ServiceError(cause)))
    case Waited => before != [] && (before[|before| - 1].Called? || before[|before| - 1] == Selected(None, None))
  }

  lemma GenuineGrows(env: Env, q: Query, t: seq<Event>, e: Event)
    requires Genuine(env, q, t) && GenuineNext(env, q, t, e)
    ensures Genuine(env, q, t + [e])
  {
    var x := t + [e];
    forall i | 0 <= i < |x| ensures GenuineNext(env, q, x[..i], x[i]) {
      assert x[..i] == t[..i];
      assert i == |t| ==> t[..i] == t;
      assert i < |t| ==> GenuineNext(env, q, t[..i], t[i]);
    }
  }

  /** What is done up to any attempt is genuine. */
  lemma {:induction false} TraceIsGenuine(env: Env, q: Query, bias: Option<real>, k: nat)
    ensures Genuine(env, q, TraceTo(env, q, bias, k))
    decreases k, 1
  {
    var chosen, lead := Chosen(env, q, bias, k), Lead(env, q, bias, k);
    LeadIsGenuine(env, q, bias, k);
    var e := Selected(Used(env, q, bias, k), chosen);
    GenuineGrows(env, q, lead, e);
    Assembled(env, q, bias, k);
    if chosen.None? {
      assert TraceTo(env, q, bias, k) == lead + [e];
    } else {
      CountOne(e);
      CountConcat(lead, [e], PoolCall);
      GenuineGrows(env, q, lead + [e], Called(chosen.value, Attempt(env, q, bias, k)));
    }
  }

  lemma {:induction false} LeadIsGenuine(env: Env, q: Query, bias: Option<real>, k: nat)
    ensures var lead := Lead(env, q, bias, k);
      && Genuine(env, q, lead) && Count(lead, PoolCall) == CallsBefore(env, q, bias, k)
      && Count(lead, Selection) == k + Extra(env, q, bias)
    decreases k, 0
  {
    if k == 0 {
      FirstLeadIsGenuine(env, q, bias);
    } else {
      TraceIsGenuine(env, q, bias, k - 1);
      NextLeadIsGenuine(env, q, bias, k - 1);
    }
  }

  lemma NextLeadIsGenuine(env: Env, q: Query, bias: Option<real>, a: nat)
    requires Genuine(env, q, TraceTo(env, q, bias, a))
    ensures var lead := Lead(env, q, bias, a + 1);
      && Genuine(env, q, lead) && Count(lead, PoolCall) == CallsBefore(env, q, bias, a + 1)
      && Count(lead, Selection) == a + 1 + Extra(env, q, bias)
  {
    var t, lead := TraceTo(env, q, bias, a), Lead(env, q, bias, a + 1);
    assert lead == t + [Waited] by {
      Assembled(env, q, bias, a);
    }
    assert t != [] && (t[|t| - 1].Called? || t[|t| - 1] == Selected(None, None)) by {
      EndOfAttempt(env, q, bias, a);
    }
    WaitIsGenuine(env, q, t);
    TraceCounts(env, q, bias, a);
  }

  lemma FirstLeadIsGenuine(env: Env, q: Query, bias: Option<real>)
    ensures var lead := Lead(env, q, bias, 0);
      Genuine(env, q, lead) && Count(lead, PoolCall) == 0 && Count(lead, Selection) == Extra(env, q, bias)
  {
    if FellBack(env, q, bias) {
      CountOne(Selected(bias, None));
      GenuineGrows(env, q, [], Selected(bias, None));
      assert Lead(env, q, bias, 0) == [] + [Selected(bias, None)] == [Selected(bias, None)];
    } else {
      assert Lead(env, q, bias, 0) == [];
    }
  }

  lemma WaitIsGenuine(env: Env, q: Query, t: seq<Event>)
    requires Genuine(env, q, t) && t != [] && (t[|t| - 1].Called? || t[|t| - 1] == Selected(None, None))
    ensures Genuine(env, q, t + [Waited])
    ensures forall kind | kind != BackoffRound :: Count(t + [Waited], kind) == Count(t, kind)
  {
    GenuineGrows(env, q, t, Waited);
    CountOne(Waited);
    forall kind | kind != BackoffRound ensures Count(t + [Waited], kind) == Count(t, kind) {
      CountConcat(t, [Waited], kind);
    }
  }

  lemma EndOfAttempt(env: Env, q: Query, bias: Option<real>, a: nat)
    ensures var t := TraceTo(env, q, bias, a);
      t != [] && (t[|t| - 1].Called? || t[|t| - 1] == Selected(None, None))
  {
    var chosen := Chosen(env, q, bias, a);
    Assembled(env, q, bias, a);
    assert chosen.None? ==> Used(env, q, bias, a) == None;
  }

  lemma OneMoreAttempt(env: Env, q: Query, bias: Option<real>, k: nat)
    requires k > 0
    ensures var before, t := TraceTo(env, q, bias, k - 1), TraceTo(env, q, bias, k);
      && before < t && t[|before|] == Waited
      && |before| + 2 <= |t| <= |before| + 3
      && t[|before| + 1].Selected? && t[|before| + 1].bias.None?
      && (|t| == |before| + 3 ==> t[|before| + 2].Called?)
  {
    var before, t := TraceTo(env, q, bias, k - 1), TraceTo(env, q, bias, k);
    assert TraceBefore(env, q, bias, k) == before + [Waited];
    assert t == before + [Waited] + AttemptTrace(env, q, bias, k);
  }

  lemma LastCall(env: Env, q: Query, bias: Option<real>, k: nat)
    ensures var t := TraceTo(env, q, bias, k);
      && t != [] && (t[|t| - 1].Called? <==> Chosen(env, q, bias, k).Some?)
      && (t[|t| - 1].Called? ==> t[|t| - 1].reply == Attempt(env, q, bias, k))
  {
    var a, t := AttemptTrace(env, q, bias, k), TraceTo(env, q, bias, k);
    assert t[|t| - 1] == a[|a| - 1];
  }

  /** If the biased pass offers an eligible backend, the first pool call goes to the first such one; if it offers none
      but the pass without bias does, the first call goes to that pass's first, and no backoff was spent before it. */
  lemma BiasThenFallback(env: Env, q: Query, bias: real, i: nat, k: nat)
    requires var n := Extra(env, q, Some(bias));
      var c, b := env.candidates(n), if n == 1 then None else Some(bias);
      i < |c| && i < env.limits(n) && Suits(q, c[i], b) && forall j | 0 <= j < i :: !Suits(q, c[j], b)
    ensures var t, n := TraceTo(env, q, Some(bias), k), Extra(env, q, Some(bias));
      && n + 1 < |t| && t[n + 1].Called? && t[n + 1].backend == env.candidates(n)[i].backend
      && (forall j | 0 <= j <= n :: t[j].Selected?)
      && (n == 0 ==> q.amount as real <= env.candidates(0)[i].metrics.value.inbound as real * (1.0 + bias))
    ensures Extra(env, q, Some(bias)) == 1 <==>
      forall j | 0 <= j < |env.candidates(0)| && j < env.limits(0) :: !Suits(q, env.candidates(0)[j], Some(bias))
  {
    var n := Extra(env, q, Some(bias));
    PicksFirst(q, env.candidates(n), env.limits(n), if n == 1 then None else Some(bias), i);
    SelectsFirst(q, env.candidates(0), env.limits(0), Some(bias));
    StartsWithFirst(env, q, Some(bias), k);
  }

  lemma {:induction false} StartsWithFirst(env: Env, q: Query, bias: Option<real>, k: nat)
    ensures AttemptTrace(env, q, bias, 0) <= TraceTo(env, q, bias, k)
  {
    if k > 0 {
      StartsWithFirst(env, q, bias, k - 1);
    }
  }
}
