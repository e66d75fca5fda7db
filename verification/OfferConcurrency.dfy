/** The offer store under any number of threads, one lock, check, write or unlock at a time. */
module OfferConcurrency {
  import opened Types
  import opened MemoryOffers

  datatype Lock = OffersLock | MetadataLock

  function Other(l: Lock): Lock {
    if l == OffersLock then MetadataLock else OffersLock
  }

  /** The mutex an operation takes first. */
  function First(op: Op): Lock {
    if op.GetOffers? || op.DeleteOffer? || op.DeleteMetadata? then OffersLock else MetadataLock
  }

  /** Whether it then takes the other one too. */
  predicate Both(op: Op) {
    op.GetOffer? || op.PostOffer? || op.PutOffer? || op.DeleteMetadata?
  }

  function Needed(op: Op): nat {
    if Both(op) then 2 else 1
  }

  function Nth(op: Op, i: nat): Lock {
    if i == 0 then First(op) else Other(First(op))
  }

  predicate Covers(op: Op, l: Lock) {
    Both(op) || First(op) == l
  }

  type Thread = nat

  /** Where a thread stands: taking locks, done checking, or done writing and giving locks back. */
  datatype Stage = Acquiring(got: nat) | Checked(ok: bool) | Finished(reply: Reply, left: nat)

  datatype Busy = Busy(op: Op, stage: Stage)

  datatype Written = Written(thread: Thread, op: Op, now: int, reply: Reply)

  /** `log` lists the operations in the order of their write steps; `returned` what callers have been told. */
  datatype Machine = Machine(
    store: OfferState,
    owner: map<Lock, Thread>,
    threads: map<Thread, Busy>,
    log: seq<Written>,
    returned: seq<(Thread, Op, Reply)>)

  const INITIAL := Machine(EMPTY, map[], map[], [], [])

  datatype Action =
    | Invoke(thread: Thread, op: Op)
    | Acquire(thread: Thread)
    | Check(thread: Thread)
    | Write(thread: Thread, now: int)
    | Release(thread: Thread)

  /** How many of its locks a thread holds. */
  function Count(b: Busy): nat {
    match b.stage
    case Acquiring(got) => got
    case Checked(_) => Needed(b.op)
    case Finished(_, left) => left
  }

  predicate Holds(b: Busy, l: Lock) {
    (Count(b) >= 1 && l == First(b.op)) || (Count(b) >= 2 && l == Other(First(b.op)))
  }

  /** The test an operation makes of the other map before it writes. */
  ghost predicate Verdict(s: OfferState, op: Op) {
    match op
    case PostOffer(o) => MetadataRef(o) in s.metadata
    case PutOffer(o) => MetadataRef(o) in s.metadata
    case DeleteMetadata(ref) => !InUse(s, ref)
    case _ => true
  }

  /** The write itself, relying on a test made earlier and not looking at the other map again. */
  ghost function WriteOn(s: OfferState, op: Op, ok: bool, now: int): (OfferState, Reply) {
    if !ok then (s, InvalidInput)
    else
      match op
      case PostOffer(o) =>
        if RefOf(o) in s.offers then (s, Created(None))
        else (s.(offers := s.offers[RefOf(o) := Stamped(now, o)]), Created(Some(o.id)))
      case PutOffer(o) => (s.(offers := s.offers[RefOf(o) := Stamped(now, o)]), Flag(RefOf(o) !in s.offers))
      case DeleteMetadata(ref) => (s.(metadata := s.metadata - {ref}), Flag(ref in s.metadata))
      case _ => Apply(s, op, now)
  }

  predicate MayAcquire(m: Machine, t: Thread) {
    t in m.threads && m.threads[t].stage.Acquiring? && m.threads[t].stage.got < Needed(m.threads[t].op)
    && Nth(m.threads[t].op, m.threads[t].stage.got) !in m.owner
  }

  function Acquired(m: Machine, t: Thread): Machine
    requires MayAcquire(m, t)
  {
    var b := m.threads[t];
    m.(owner := m.owner[Nth(b.op, b.stage.got) := t],
       threads := m.threads[t := b.(stage := Acquiring(b.stage.got + 1))])
  }

  predicate MayRelease(m: Machine, t: Thread) {
    t in m.threads && m.threads[t].stage.Finished? && 1 <= m.threads[t].stage.left <= Needed(m.threads[t].op)
  }

  /** Locks are given back last first; with the last of them gone the caller has its reply. */
  function Released(m: Machine, t: Thread): Machine
    requires MayRelease(m, t)
  {
    var b := m.threads[t];
    var owner := m.owner - {Nth(b.op, b.stage.left - 1)};
    if b.stage.left == 1 then
      m.(owner := owner, threads := m.threads - {t}, returned := m.returned + [(t, b.op, b.stage.reply)])
    else m.(owner := owner, threads := m.threads[t := b.(stage := Finished(b.stage.reply, 1))])
  }

  ghost function Wrote(m: Machine, t: Thread, now: int): Machine
    requires t in m.threads && m.threads[t].stage.Checked?
  {
    var b := m.threads[t];
    var (store, reply) := WriteOn(m.store, b.op, b.stage.ok, now);
    m.(store := store,
       threads := m.threads[t := b.(stage := Finished(reply, Needed(b.op)))],
       log := m.log + [Written(t, b.op, now, reply)])
  }

  /** One step; an action whose thread is not at that point, or whose lock is taken, changes nothing. */
  ghost function Step(m: Machine, a: Action): Machine {
    match a
    case Invoke(t, op) => if t in m.threads then m else m.(threads := m.threads[t := Busy(op, Acquiring(0))])
    case Acquire(t) => if MayAcquire(m, t) then Acquired(m, t) else m
    case Check(t) =>
      if t in m.threads && m.threads[t].stage == Acquiring(Needed(m.threads[t].op)) then
        m.(threads := m.threads[t := m.threads[t].(stage := Checked(Verdict(m.store, m.threads[t].op)))])
      else m
    case Write(t, now) => if t in m.threads && m.threads[t].stage.Checked? then Wrote(m, t, now) else m
    case Release(t) => if MayRelease(m, t) then Released(m, t) else m
  }

  ghost function Run(m: Machine, actions: seq<Action>): Machine
    decreases |actions|
  {
    if actions == [] then m else Run(Step(m, actions[0]), actions[1..])
  }

  /** Running the logged operations one after the other, each in one piece. */
  ghost function Replay(s: OfferState, log: seq<Written>): OfferState
    decreases |log|
  {
    if log == [] then s else Apply(Replay(s, log[..|log| - 1]), log[|log| - 1].op, log[|log| - 1].now).0
  }

  /** Each logged reply is the one the operation would give in one piece, at its place in the log. */
  ghost predicate Sequential(log: seq<Written>) {
    forall i | 0 <= i < |log| :: log[i].reply == Apply(Replay(EMPTY, log[..i]), log[i].op, log[i].now).1
  }

  /** A lock has an owner exactly when that thread holds it. */
  ghost predicate Exclusive(m: Machine) {
    && (forall t, l | t in m.threads && Holds(m.threads[t], l) :: l in m.owner && m.owner[l] == t)
    && (forall l | l in m.owner :: m.owner[l] in m.threads && Holds(m.threads[m.owner[l]], l))
    && (forall t | t in m.threads :: Staged(m.threads[t]))
  }

  predicate Staged(b: Busy) {
    Count(b) <= Needed(b.op) && (b.stage.Finished? ==> Count(b) >= 1)
  }

  /** What a thread's writes gave, in order. */
  function Replies(log: seq<Written>, t: Thread): seq<(Op, Reply)> {
    if log == [] then []
    else
      var w := log[|log| - 1];
      Replies(log[..|log| - 1], t) + if w.thread == t then [(w.op, w.reply)] else []
  }

  /** What a thread's callers have been told, in order. */
  function Told(returned: seq<(Thread, Op, Reply)>, t: Thread): seq<(Op, Reply)> {
    if returned == [] then []
    else
      var r := returned[|returned| - 1];
      Told(returned[..|returned| - 1], t) + if r.0 == t then [(r.1, r.2)] else []
  }

  /** What a thread has yet to tell. */
  function Untold(threads: map<Thread, Busy>, t: Thread): seq<(Op, Reply)> {
    if t in threads && threads[t].stage.Finished? then [(threads[t].op, threads[t].stage.reply)] else []
  }

  ghost predicate Explained(m: Machine) {
    && m.store == Replay(EMPTY, m.log) && Sequential(m.log)
    && (forall t :: Replies(m.log, t) == Told(m.returned, t) + Untold(m.threads, t))
  }

  ghost predicate Current(m: Machine) {
    forall t | t in m.threads && m.threads[t].stage.Checked? ::
      m.threads[t].stage.ok == Verdict(m.store, m.threads[t].op)
  }

  ghost predicate Inv(m: Machine) {
    Integrity(m.store) && Exclusive(m) && Current(m) && Explained(m)
  }

  lemma SequentialGrows(log: seq<Written>, w: Written)
    requires Sequential(log)
    requires w.reply == Apply(Replay(EMPTY, log), w.op, w.now).1
    ensures Sequential(log + [w]) && Replay(EMPTY, log + [w]) == Apply(Replay(EMPTY, log), w.op, w.now).0
  {
    var l := log + [w];
    assert l[..|log|] == log;
    forall i | 0 <= i < |l| ensures l[i].reply == Apply(Replay(EMPTY, l[..i]), l[i].op, l[i].now).1 {
      if i < |log| {
        assert l[..i] == log[..i] && l[i] == log[i];
      }
    }
  }

  predicate Owns(m: Machine, t: Thread, l: Lock) {
    l in m.owner && m.owner[l] == t
  }

  /** A step that changes one thread, and which locks that thread has, and nothing else about threads and locks. */
  lemma OneThreadMoves(m: Machine, x: Machine, t: Thread)
    requires Exclusive(m)
    requires x.threads - {t} == m.threads - {t}
    requires t in x.threads ==> Staged(x.threads[t])
    requires forall l :: Owns(x, t, l) <==> t in x.threads && Holds(x.threads[t], l)
    requires forall u, l | u != t :: Owns(x, u, l) <==> Owns(m, u, l)
    ensures Exclusive(x)
  {
    assert forall u | u != t :: u in x.threads <==> u in x.threads - {t};
    assert forall u | u != t :: u in m.threads <==> u in m.threads - {t};
    forall u, l | u in x.threads && Holds(x.threads[u], l) ensures l in x.owner && x.owner[l] == u {
      assert u != t ==> Owns(m, u, l);
      assert Owns(x, u, l);
    }
    forall l | l in x.owner ensures x.owner[l] in x.threads && Holds(x.threads[x.owner[l]], l) {
      assert Owns(x, x.owner[l], l);
      assert x.owner[l] != t ==> Owns(m, x.owner[l], l);
    }
  }

  lemma HolderOwns(m: Machine, t: Thread, l: Lock)
    requires Exclusive(m) && t in m.threads && Holds(m.threads[t], l)
    ensures l in m.owner && m.owner[l] == t
  {
  }

  /** While a thread that tests one map and writes the other is between the two, no other thread is about to write. */
  lemma OneWriter(m: Machine, t: Thread, u: Thread)
    requires Exclusive(m) && t in m.threads && u in m.threads && t != u
    requires m.threads[t].stage.Checked? && m.threads[u].stage.Checked?
    ensures !Both(m.threads[t].op)
  {
    var l := First(m.threads[u].op);
    HolderOwns(m, u, l);
    if Both(m.threads[t].op) {
      HolderOwns(m, t, l);
    }
  }

  lemma WriteIsApply(s: OfferState, op: Op, now: int)
    ensures WriteOn(s, op, Verdict(s, op), now) == Apply(s, op, now)
  {
  }

  lemma WriteKeepsExclusive(m: Machine, t: Thread, now: int)
    requires Exclusive(m) && t in m.threads && m.threads[t].stage.Checked?
    ensures Exclusive(Wrote(m, t, now))
  {
    var x, b := Wrote(m, t, now), m.threads[t];
    assert x.owner == m.owner && x.threads == m.threads[t := x.threads[t]];
    assert x.threads[t].op == b.op && Count(x.threads[t]) == Count(b);
    SameLocks(m, x, t);
  }

  lemma SameLocks(m: Machine, x: Machine, t: Thread)
    requires Exclusive(m) && t in m.threads && t in x.threads
    requires x.owner == m.owner && x.threads == m.threads[t := x.threads[t]]
    requires x.threads[t].op == m.threads[t].op && Count(x.threads[t]) == Count(m.threads[t]) && Staged(x.threads[t])
    ensures Exclusive(x)
  {
    forall l ensures Owns(x, t, l) <==> Holds(x.threads[t], l) {
      assert Holds(x.threads[t], l) <==> Holds(m.threads[t], l);
    }
    OneThreadMoves(m, x, t);
  }

  lemma WriteKeepsCurrent(m: Machine, t: Thread, now: int)
    requires Exclusive(m) && Current(m) && t in m.threads && m.threads[t].stage.Checked?
    ensures Current(Wrote(m, t, now))
  {
    var x := Wrote(m, t, now);
    forall u | u in x.threads && x.threads[u].stage.Checked?
      ensures x.threads[u].stage.ok == Verdict(x.store, x.threads[u].op)
    {
      assert u != t && x.threads[u] == m.threads[u];
      OneWriter(m, u, t);
      assert Verdict(x.store, x.threads[u].op) && Verdict(m.store, x.threads[u].op);
    }
  }

  lemma RepliesGrow(log: seq<Written>, w: Written, t: Thread)
    ensures Replies(log + [w], t) == Replies(log, t) + if w.thread == t then [(w.op, w.reply)] else []
  {
    assert (log + [w])[..|log|] == log;
  }

  lemma WriteKeepsTold(m: Machine, t: Thread, now: int, u: Thread)
    requires t in m.threads && m.threads[t].stage.Checked?
    requires Replies(m.log, u) == Told(m.returned, u) + Untold(m.threads, u)
    ensures var x := Wrote(m, t, now); Replies(x.log, u) == Told(x.returned, u) + Untold(x.threads, u)
  {
    var x := Wrote(m, t, now);
    var w := x.log[|m.log|];
    RepliesGrow(m.log, w, u);
    assert x.log == m.log + [w];
  }

  lemma WriteKeepsExplained(m: Machine, t: Thread, now: int)
    requires Explained(m) && t in m.threads && m.threads[t].stage == Checked(Verdict(m.store, m.threads[t].op))
    ensures Explained(Wrote(m, t, now)) && Wrote(m, t, now).store == Apply(m.store, m.threads[t].op, now).0
  {
    var b, x := m.threads[t], Wrote(m, t, now);
    WriteIsApply(m.store, b.op, now);
    var w := Written(t, b.op, now, Apply(m.store, b.op, now).1);
    assert x.log == m.log + [w];
    SequentialGrows(m.log, w);
    forall u ensures Replies(x.log, u) == Told(x.returned, u) + Untold(x.threads, u) {
      assert Replies(m.log, u) == Told(m.returned, u) + Untold(m.threads, u);
      WriteKeepsTold(m, t, now, u);
    }
  }

  lemma AcquireKeepsExclusive(m: Machine, t: Thread)
    requires Exclusive(m) && MayAcquire(m, t)
    ensures Exclusive(Acquired(m, t))
  {
    var x, l := Acquired(m, t), Nth(m.threads[t].op, m.threads[t].stage.got);
    forall k ensures Owns(x, t, k) <==> Holds(x.threads[t], k) {
      assert Holds(x.threads[t], k) <==> Holds(m.threads[t], k) || k == l;
    }
    OneThreadMoves(m, x, t);
  }

  lemma ReleaseKeepsExclusive(m: Machine, t: Thread)
    requires Exclusive(m) && MayRelease(m, t)
    ensures Exclusive(Released(m, t))
  {
    var x, l := Released(m, t), Nth(m.threads[t].op, m.threads[t].stage.left - 1);
    HolderOwns(m, t, l);
    forall k ensures Owns(x, t, k) <==> t in x.threads && Holds(x.threads[t], k) {
      assert Owns(x, t, k) <==> Holds(m.threads[t], k) && k != l;
    }
    OneThreadMoves(m, x, t);
  }

  lemma MoveKeepsInv(m: Machine, x: Machine, t: Thread)
    requires Inv(m) && Exclusive(x)
    requires x.store == m.store && x.log == m.log && x.returned == m.returned
    requires t in x.threads && x.threads == m.threads[t := x.threads[t]]
    requires x.threads[t].stage.Checked? ==> x.threads[t].stage.ok == Verdict(m.store, x.threads[t].op)
    requires Untold(x.threads, t) == Untold(m.threads, t)
    ensures Inv(x)
  {
    forall u | u in x.threads && x.threads[u].stage.Checked?
      ensures x.threads[u].stage.ok == Verdict(x.store, x.threads[u].op)
    {
      assert u != t ==> x.threads[u] == m.threads[u];
    }
    forall u ensures Replies(x.log, u) == Told(x.returned, u) + Untold(x.threads, u) {
      assert Replies(m.log, u) == Told(m.returned, u) + Untold(m.threads, u);
      assert Untold(x.threads, u) == Untold(m.threads, u);
    }
  }

  lemma InvokeKeepsExclusive(m: Machine, t: Thread, op: Op)
    requires Exclusive(m) && t !in m.threads
    ensures Exclusive(m.(threads := m.threads[t := Busy(op, Acquiring(0))]))
  {
  }

  lemma ReleaseKeepsInv(m: Machine, t: Thread)
    requires Inv(m) && MayRelease(m, t)
    ensures Inv(Released(m, t))
  {
    ReleaseKeepsExclusive(m, t);
    var b, x := m.threads[t], Released(m, t);
    if b.stage.left == 1 {
      forall u ensures Replies(x.log, u) == Told(x.returned, u) + Untold(x.threads, u) {
        assert x.returned[..|m.returned|] == m.returned;
        assert Replies(m.log, u) == Told(m.returned, u) + Untold(m.threads, u);
      }
    } else {
      MoveKeepsInv(m, x, t);
    }
  }

  lemma CheckKeepsExclusive(m: Machine, t: Thread, ok: bool)
    requires Exclusive(m) && t in m.threads && m.threads[t].stage == Acquiring(Needed(m.threads[t].op))
    ensures Exclusive(m.(threads := m.threads[t := m.threads[t].(stage := Checked(ok))]))
  {
    SameLocks(m, m.(threads := m.threads[t := m.threads[t].(stage := Checked(ok))]), t);
  }

  lemma StepKeepsInv(m: Machine, a: Action)
    requires Inv(m)
    ensures Inv(Step(m, a))
  {
    match a
    case Invoke(t, op) =>
      if t !in m.threads {
        InvokeKeepsExclusive(m, t, op);
        MoveKeepsInv(m, Step(m, a), t);
      }
    case Acquire(t) =>
      if MayAcquire(m, t) {
        AcquireKeepsExclusive(m, t);
        MoveKeepsInv(m, Step(m, a), t);
      }
    case Check(t) =>
      if t in m.threads && m.threads[t].stage == Acquiring(Needed(m.threads[t].op)) {
        CheckKeepsExclusive(m, t, Verdict(m.store, m.threads[t].op));
        MoveKeepsInv(m, Step(m, a), t);
      }
    case Write(t, now) =>
      if t in m.threads && m.threads[t].stage.Checked? {
        WriteKeepsInv(m, t, now);
      }
    case Release(t) =>
      if MayRelease(m, t) {
        ReleaseKeepsInv(m, t);
      }
  }

  lemma WriteKeepsInv(m: Machine, t: Thread, now: int)
    requires Inv(m) && t in m.threads && m.threads[t].stage.Checked?
    ensures Inv(Wrote(m, t, now))
  {
    WriteKeepsExclusive(m, t, now);
    WriteKeepsCurrent(m, t, now);
    WriteKeepsExplained(m, t, now);
    ApplyKeepsIntegrity(m.store, m.threads[t].op, now);
  }

  lemma {:induction false} RunKeepsInv(m: Machine, actions: seq<Action>)
    requires Inv(m)
    ensures Inv(Run(m, actions))
    decreases |actions|
  {
    if actions != [] {
      StepKeepsInv(m, actions[0]);
      RunKeepsInv(Step(m, actions[0]), actions[1..]);
    }
  }

  /** In every interleaving: offers name metadata that exists; the maps are what the writes, each done in one piece in
      the order they happened, make of two empty maps; and what each thread has told its callers is exactly what its own
      writes gave there, one for one, save the one it may still have to tell. */
  lemma Linearizable(actions: seq<Action>)
    ensures var m := Run(INITIAL, actions);
      && Integrity(m.store)
      && m.store == Replay(EMPTY, m.log) && Sequential(m.log)
      && forall t :: Replies(m.log, t) == Told(m.returned, t) + Untold(m.threads, t)
  {
    RunKeepsInv(INITIAL, actions);
  }

  // ---- Real-time order ----

  /** Where in the log the k-th write of a thread stands. */
  function Place(log: seq<Written>, t: Thread, k: nat): nat
    requires k < |Replies(log, t)|
  {
    var rest := log[..|log| - 1];
    if k < |Replies(rest, t)| then Place(rest, t, k) else |log| - 1
  }

  lemma {:induction false} PlaceInPrefix(log: seq<Written>, n: nat, t: Thread, k: nat)
    requires n <= |log| && k < |Replies(log, t)|
    ensures Place(log, t, k) < n <==> k < |Replies(log[..n], t)|
    ensures Place(log, t, k) < |log| && log[Place(log, t, k)].thread == t
    decreases |log|
  {
    var rest := log[..|log| - 1];
    if n < |log| {
      assert rest[..n] == log[..n];
      if k < |Replies(rest, t)| {
        PlaceInPrefix(rest, n, t, k);
      } else {
        RepliesShrink(rest, n, t);
      }
    } else {
      assert log[..n] == log;
      if k < |Replies(rest, t)| {
        PlaceInPrefix(rest, |rest|, t, k);
      }
    }
  }

  lemma {:induction false} RepliesShrink(log: seq<Written>, n: nat, t: Thread)
    requires n <= |log|
    ensures Replies(log[..n], t) <= Replies(log, t)
    decreases |log|
  {
    if n < |log| {
      var rest := log[..|log| - 1];
      assert rest[..n] == log[..n];
      RepliesShrink(rest, n, t);
    } else {
      assert log[..n] == log;
    }
  }

  lemma {:induction false} LogGrows(m: Machine, actions: seq<Action>)
    ensures m.log <= Run(m, actions).log
    decreases |actions|
  {
    if actions != [] {
      LogGrows(Step(m, actions[0]), actions[1..]);
    }
  }

  lemma {:induction false} RunConcat(m: Machine, a: seq<Action>, b: seq<Action>)
    ensures Run(m, a + b) == Run(Run(m, a), b)
    decreases |a|
  {
    if a == [] {
      assert a + b == b;
    } else {
      assert (a + b)[1..] == a[1..] + b;
      RunConcat(Step(m, a[0]), a[1..], b);
    }
  }

  /** A call that had been answered at some moment stands in the log before every call that was invoked after it: the
      j-th answer a caller of `t` had been given by then is that of an earlier entry than the k-th of an idle thread
      `u`, if that one was not yet given. */
  lemma RealTimeOrder(before: seq<Action>, after: seq<Action>, t: Thread, j: nat, u: Thread, k: nat)
    requires j < |Told(Run(INITIAL, before).returned, t)|
    requires u !in Run(INITIAL, before).threads && k >= |Told(Run(INITIAL, before).returned, u)|
    requires k < |Replies(Run(INITIAL, before + after).log, u)|
    ensures var m, x := Run(INITIAL, before), Run(INITIAL, before + after);
      && j < |Replies(x.log, t)| && Replies(x.log, t)[j] == Told(m.returned, t)[j]
      && Place(x.log, t, j) < Place(x.log, u, k)
  {
    var m, x := Run(INITIAL, before), Run(INITIAL, before + after);
    Linearizable(before);
    RunConcat(INITIAL, before, after);
    LogGrows(m, after);
    assert x.log[..|m.log|] == m.log;
    assert Replies(m.log, u) == Told(m.returned, u) + Untold(m.threads, u);
    assert Replies(m.log, t) == Told(m.returned, t) + Untold(m.threads, t);
    RepliesShrink(x.log, |m.log|, t);
    PlaceInPrefix(x.log, |m.log|, t, j);
    PlaceInPrefix(x.log, |m.log|, u, k);
  }

  /** In every interleaving, asking for a stored offer in full never fails where the sparse request finds it, and adds
      its metadata and changes nothing else. */
  lemma AlwaysServable(actions: seq<Action>, ref: Ref)
    ensures var s := Run(INITIAL, actions).store;
      var sparse := Apply(s, GetOffer(ref, None), 0).1.offer;
      var full := Apply(s, GetOffer(ref, Some(false)), 0).1.offer;
      && (full.Some? <==> sparse.Some?)
      && (sparse.Some? ==>
            var m := MetadataRef(sparse.value);
            m in s.metadata && full.value == sparse.value.(metadata := Some(s.metadata[m].value.details)))
  {
    RunKeepsInv(INITIAL, actions);
    FullIffSparse(Run(INITIAL, actions).store, ref);
  }

  /** The locks taken cover what an operation touches: without a map's lock it neither reads nor writes that map. */
  lemma LocksCover(s: OfferState, other: OfferState, op: Op, now: int)
    requires Covers(op, OffersLock) ==> s.offers == other.offers
    requires Covers(op, MetadataLock) ==> s.metadata == other.metadata
    ensures Apply(s, op, now).1 == Apply(other, op, now).1
    ensures Covers(op, OffersLock) ==> Apply(s, op, now).0.offers == Apply(other, op, now).0.offers
    ensures Covers(op, MetadataLock) ==> Apply(s, op, now).0.metadata == Apply(other, op, now).0.metadata
    ensures !Covers(op, OffersLock) ==> Apply(s, op, now).0.offers == s.offers
    ensures !Covers(op, MetadataLock) ==> Apply(s, op, now).0.metadata == s.metadata
  {
    assert Both(op) ==> s == other;
  }

  // ---- Where the machine can stop ----

  predicate Waits(m: Machine, t: Thread) {
    t in m.threads && m.threads[t].stage.Acquiring? && m.threads[t].stage.got < Needed(m.threads[t].op)
    && Nth(m.threads[t].op, m.threads[t].stage.got) in m.owner
  }

  ghost predicate StandsStill(m: Machine) {
    forall v | v in m.threads :: Waits(m, v)
  }

  /** Two calls in flight that need both locks and take them in opposite orders: one gets, posts or puts an offer, the
      other deletes metadata. */
  predicate Crossing(m: Machine, t: Thread, u: Thread) {
    && t in m.threads && u in m.threads
    && (m.threads[t].op.GetOffer? || m.threads[t].op.PostOffer? || m.threads[t].op.PutOffer?)
    && m.threads[u].op.DeleteMetadata?
  }

  /** `t` has the metadata lock and waits for the offers lock; `u`, deleting metadata, the other way round. */
  predicate Embrace(m: Machine, t: Thread, u: Thread) {
    Crossing(m, t, u) && m.threads[t].stage == Acquiring(1) && m.threads[u].stage == Acquiring(1)
  }

  lemma EmbraceHolds(m: Machine, t: Thread, u: Thread)
    requires Exclusive(m) && Embrace(m, t, u)
    ensures MetadataLock in m.owner && m.owner[MetadataLock] == t && OffersLock in m.owner && m.owner[OffersLock] == u
  {
    assert Holds(m.threads[t], MetadataLock) && Holds(m.threads[u], OffersLock);
  }

  /** With both locks gone, nobody else holds any and nobody can get one. */
  lemma EmbraceStops(m: Machine, t: Thread, u: Thread)
    requires Exclusive(m) && Embrace(m, t, u)
    ensures StandsStill(m)
  {
    EmbraceHolds(m, t, u);
    forall v | v in m.threads ensures Waits(m, v) {
      if v != t && v != u {
        assert !Holds(m.threads[v], First(m.threads[v].op));
      }
    }
  }

  /** A thread that holds a lock and waits has its first and wants its second. */
  lemma WaitingHolder(m: Machine, l: Lock)
    requires Exclusive(m) && l in m.owner && Waits(m, m.owner[l])
    ensures var b := m.threads[m.owner[l]];
      b.stage == Acquiring(1) && Both(b.op) && First(b.op) == l && Other(l) in m.owner
  {
    assert Holds(m.threads[m.owner[l]], l);
  }

  lemma HolderWaits(m: Machine, l: Lock)
    requires Exclusive(m) && StandsStill(m) && l in m.owner
    ensures Waits(m, m.owner[l])
  {
    assert m.owner[l] in m.threads;
  }

  lemma TwoHolders(m: Machine)
    requires Exclusive(m) && Owned(m) && Waits(m, m.owner[MetadataLock]) && Waits(m, m.owner[OffersLock])
    ensures Embrace(m, m.owner[MetadataLock], m.owner[OffersLock])
  {
    WaitingHolder(m, MetadataLock);
    WaitingHolder(m, OffersLock);
  }

  lemma AllWaiting(m: Machine, v: Thread)
    requires Exclusive(m) && StandsStill(m) && v in m.threads
    ensures Owned(m) && Embrace(m, m.owner[MetadataLock], m.owner[OffersLock])
  {
    var l := Nth(m.threads[v].op, m.threads[v].stage.got);
    HolderWaits(m, l);
    WaitingHolder(m, l);
    HolderWaits(m, Other(l));
    TwoHolders(m);
  }

  predicate Owned(m: Machine) {
    MetadataLock in m.owner && OffersLock in m.owner
  }

  lemma StillMeansEmbrace(m: Machine)
    requires Exclusive(m) && m.threads != map[] && StandsStill(m)
    ensures exists t, u :: Embrace(m, t, u)
  {
    var v :| v in m.threads;
    AllWaiting(m, v);
  }

  /** In every reachable state with something going on, all stands still exactly when two threads hold one lock each and
      want the other's: the two opposite acquisition orders are the only thing that can stop the store. */
  lemma StuckExactly(actions: seq<Action>)
    requires Run(INITIAL, actions).threads != map[]
    ensures StandsStill(Run(INITIAL, actions)) <==> exists t, u :: Embrace(Run(INITIAL, actions), t, u)
  {
    var m := Run(INITIAL, actions);
    RunIsExclusive(actions);
    if StandsStill(m) {
      StillMeansEmbrace(m);
    }
    if t, u :| Embrace(m, t, u) {
      EmbraceStops(m, t, u);
    }
  }

  /** So a caller that never lets such a pair be in flight together is never stopped. */
  lemma NoCrossingNoStandstill(actions: seq<Action>)
    requires Run(INITIAL, actions).threads != map[]
    requires forall t, u :: !Crossing(Run(INITIAL, actions), t, u)
    ensures !StandsStill(Run(INITIAL, actions))
  {
    StuckExactly(actions);
  }

  lemma RunIsExclusive(actions: seq<Action>)
    ensures Exclusive(Run(INITIAL, actions))
  {
    RunKeepsInv(INITIAL, actions);
  }

  lemma WaitingStays(m: Machine, a: Action)
    requires !a.Invoke? && (a.thread in m.threads ==> Waits(m, a.thread))
    ensures Step(m, a) == m
  {
  }

  lemma EmbraceSeesInvoke(m: Machine, t: Thread, u: Thread, v: Thread, op: Op)
    requires Exclusive(m) && Embrace(m, t, u) && v !in m.threads
    ensures var x := m.(threads := m.threads[v := Busy(op, Acquiring(0))]); Embrace(x, t, u) && Exclusive(x)
  {
    InvokeKeepsExclusive(m, v, op);
  }

  lemma EmbraceStays(m: Machine, t: Thread, u: Thread, a: Action)
    requires Exclusive(m) && Embrace(m, t, u)
    ensures var x := Step(m, a);
      Embrace(x, t, u) && Exclusive(x) && x.store == m.store && x.returned == m.returned
  {
    if !a.Invoke? {
      EmbraceStops(m, t, u);
      WaitingStays(m, a);
    } else if a.thread !in m.threads {
      EmbraceSeesInvoke(m, t, u, a.thread, a.op);
    }
  }

  /** And it is for good: no step of any thread, nor a new one, ends it; nobody is answered any more. */
  lemma {:induction false} EmbraceIsForever(m: Machine, t: Thread, u: Thread, actions: seq<Action>)
    requires Exclusive(m) && Embrace(m, t, u)
    ensures var x := Run(m, actions);
      Embrace(x, t, u) && x.store == m.store && x.returned == m.returned
    decreases |actions|
  {
    if actions != [] {
      EmbraceStays(m, t, u, actions[0]);
      EmbraceIsForever(Step(m, actions[0]), t, u, actions[1..]);
    }
  }

  // ---- Which calls in flight can bring it about ----

  predicate NoInvoke(actions: seq<Action>) {
    forall a | a in actions :: !a.Invoke?
  }

  lemma FreeMeansFirst(m: Machine, t: Thread)
    requires Exclusive(m) && m.owner == map[] && t in m.threads
    ensures m.threads[t].stage == Acquiring(0)
  {
    if Holds(m.threads[t], First(m.threads[t].op)) {
      HolderOwns(m, t, First(m.threads[t].op));
    }
    assert Staged(m.threads[t]);
  }

  lemma RunTwo(m: Machine, a: Action, b: Action)
    ensures Run(m, [a, b]) == Step(Step(m, a), b)
  {
    var x := Step(m, a);
    assert [a, b][1..] == [b] && [b][1..] == [];
    assert Run(m, [a, b]) == Run(x, [b]) == Run(Step(x, b), []);
  }

  function TwoAcquires(t: Thread, u: Thread): seq<Action> {
    [Acquire(t), Acquire(u)]
  }

  /** From any state in which no lock is held, a crossing pair needs two steps only. */
  lemma CrossingEmbraces(m: Machine, t: Thread, u: Thread)
    requires Exclusive(m) && m.owner == map[] && Crossing(m, t, u)
    ensures Embrace(Run(m, TwoAcquires(t, u)), t, u)
  {
    FreeMeansFirst(m, t);
    FreeMeansFirst(m, u);
    RunTwo(m, Acquire(t), Acquire(u));
  }

  lemma StepKeepsOps(m: Machine, a: Action, v: Thread)
    requires !a.Invoke? && v in Step(m, a).threads
    ensures v in m.threads && Step(m, a).threads[v].op == m.threads[v].op
  {
  }

  lemma {:induction false} RunKeepsOps(m: Machine, actions: seq<Action>, v: Thread)
    requires NoInvoke(actions) && v in Run(m, actions).threads
    ensures v in m.threads && Run(m, actions).threads[v].op == m.threads[v].op
    decreases |actions|
  {
    if actions != [] {
      RunKeepsOps(Step(m, actions[0]), actions[1..], v);
      StepKeepsOps(m, actions[0], v);
    }
  }

  /** The calls in flight can be led to stand still. */
  ghost predicate CanStop(m: Machine, actions: seq<Action>) {
    NoInvoke(actions) && Run(m, actions).threads != map[] && StandsStill(Run(m, actions))
  }

  /** In any reachable state with no lock held, the calls in flight can come to stand still, with no further call,
      if and only if a crossing pair is among them. */
  lemma CrossingExactly(before: seq<Action>)
    requires Run(INITIAL, before).owner == map[]
    ensures var m := Run(INITIAL, before);
      (exists actions :: CanStop(m, actions)) <==> exists t, u :: Crossing(m, t, u)
  {
    var m := Run(INITIAL, before);
    RunKeepsInv(INITIAL, before);
    if actions :| CanStop(m, actions) {
      RunKeepsInv(m, actions);
      StoppedMeansCrossing(m, actions);
    }
    if t, u :| Crossing(m, t, u) {
      CrossingStops(m, t, u);
    }
  }

  lemma EmbraceCameFrom(m: Machine, actions: seq<Action>, t: Thread, u: Thread)
    requires NoInvoke(actions) && Embrace(Run(m, actions), t, u)
    ensures Crossing(m, t, u)
  {
    RunKeepsOps(m, actions, t);
    RunKeepsOps(m, actions, u);
  }

  lemma StoppedMeansCrossing(m: Machine, actions: seq<Action>)
    requires CanStop(m, actions) && Exclusive(Run(m, actions))
    ensures exists t, u :: Crossing(m, t, u)
  {
    StillMeansEmbrace(Run(m, actions));
    var t, u :| Embrace(Run(m, actions), t, u);
    EmbraceCameFrom(m, actions, t, u);
  }

  lemma EmbracedCanStop(m: Machine, actions: seq<Action>, t: Thread, u: Thread)
    requires NoInvoke(actions) && Exclusive(Run(m, actions)) && Embrace(Run(m, actions), t, u)
    ensures CanStop(m, actions)
  {
    EmbraceStops(Run(m, actions), t, u);
  }

  lemma CrossingStops(m: Machine, t: Thread, u: Thread)
    requires Inv(m) && m.owner == map[] && Crossing(m, t, u)
    ensures exists actions :: CanStop(m, actions)
  {
    CrossingEmbraces(m, t, u);
    RunStaysExclusive(m, TwoAcquires(t, u));
    EmbracedCanStop(m, TwoAcquires(t, u), t, u);
  }

  lemma RunStaysExclusive(m: Machine, actions: seq<Action>)
    requires Inv(m)
    ensures Exclusive(Run(m, actions))
  {
    RunKeepsInv(m, actions);
  }

  /** It is reached from the empty store by one put of an offer and one deletion of metadata. */
  lemma EmbraceIsReachable(o: Offer, ref: Ref)
    ensures var actions := [Invoke(0, PutOffer(o)), Invoke(1, DeleteMetadata(ref)), Acquire(0), Acquire(1)];
      Embrace(Run(INITIAL, actions), 0, 1)
  {
    var m1 := Step(INITIAL, Invoke(0, PutOffer(o)));
    var m2 := Step(m1, Invoke(1, DeleteMetadata(ref)));
    var m3 := Step(m2, Acquire(0));
    var m4 := Step(m3, Acquire(1));
    calc {
      Run(INITIAL, [Invoke(0, PutOffer(o)), Invoke(1, DeleteMetadata(ref)), Acquire(0), Acquire(1)]);
      Run(m1, [Invoke(1, DeleteMetadata(ref)), Acquire(0), Acquire(1)]);
      Run(m2, [Acquire(0), Acquire(1)]);
      { assert [Acquire(0), Acquire(1)][1..] == [Acquire(1)]; }
      Run(m3, [Acquire(1)]);
      { assert [Acquire(1)][1..] == []; }
      m4;
    }
  }

  // ---- A call that nobody disturbs ----

  /** Both locks of a call taken, none else held. */
  lemma AcquiresAll(m: Machine, t: Thread, op: Op)
    requires t !in m.threads && m.owner == map[]
    ensures var x := Step(Step(Step(m, Invoke(t, op)), Acquire(t)), Acquire(t));
      && x.threads == m.threads[t := Busy(op, Acquiring(Needed(op)))]
      && x.owner == (if Both(op) then map[First(op) := t, Other(First(op)) := t] else map[First(op) := t])
      && x.store == m.store && x.returned == m.returned && x.log == m.log
  {
    var m1 := Step(m, Invoke(t, op));
    assert m1 == m.(threads := m.threads[t := Busy(op, Acquiring(0))]);
    var m2 := Step(m1, Acquire(t));
    assert m2 == m.(owner := map[First(op) := t], threads := m.threads[t := Busy(op, Acquiring(1))]);
  }

  lemma ChecksAndWrites(m: Machine, t: Thread, op: Op, now: int)
    requires t in m.threads && m.threads[t] == Busy(op, Acquiring(Needed(op)))
    ensures var x := Step(Step(m, Check(t)), Write(t, now));
      && x.threads == m.threads[t := Busy(op, Finished(Apply(m.store, op, now).1, Needed(op)))]
      && x.owner == m.owner && x.store == Apply(m.store, op, now).0 && x.returned == m.returned
  {
    var m1 := Step(m, Check(t));
    assert m1 == m.(threads := m.threads[t := Busy(op, Checked(Verdict(m.store, op)))]);
    WriteIsApply(m.store, op, now);
  }

  lemma ReleasesAll(m: Machine, t: Thread, op: Op, reply: Reply)
    requires t in m.threads && m.threads[t] == Busy(op, Finished(reply, Needed(op)))
    requires m.owner == if Both(op) then map[First(op) := t, Other(First(op)) := t] else map[First(op) := t]
    ensures var x := Step(Step(m, Release(t)), Release(t));
      && x.threads == m.threads - {t} && x.owner == map[] && x.store == m.store
      && x.returned == m.returned + [(t, op, reply)]
  {
    var m1 := Step(m, Release(t));
    if Both(op) {
      assert m1.owner == map[First(op) := t];
    } else {
      assert m1.owner == map[];
    }
  }

  /** Undisturbed, and with no lock held when it starts, a call comes to its end, has the effect of the operation in one
      piece, tells its caller the reply of that, and gives all locks back. */
  lemma UndisturbedCall(m: Machine, t: Thread, op: Op, now: int)
    requires t !in m.threads && m.owner == map[]
    ensures var m1 := Step(Step(Step(m, Invoke(t, op)), Acquire(t)), Acquire(t));
      var m2 := Step(Step(m1, Check(t)), Write(t, now));
      var x := Step(Step(m2, Release(t)), Release(t));
      && x.store == Apply(m.store, op, now).0
      && x.returned == m.returned + [(t, op, Apply(m.store, op, now).1)]
      && x.threads == m.threads && x.owner == map[]
  {
    var m1 := Step(Step(Step(m, Invoke(t, op)), Acquire(t)), Acquire(t));
    AcquiresAll(m, t, op);
    var m2 := Step(Step(m1, Check(t)), Write(t, now));
    ChecksAndWrites(m1, t, op, now);
    ReleasesAll(m2, t, op, Apply(m.store, op, now).1);
  }
}
