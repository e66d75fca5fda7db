/** The SQL offer store: upserts whose "created" answer is read off two timestamps, and a foreign key. */
module DbOffers {
  import opened Types
  import opened MemoryOffers
  import D = DbDiscovery

  type i64 = x: int | -TWO_63 <= x < TWO_63

  function ToI64(w: u64): i64 {
    if w < TWO_63 then w else w - TWO_64
  }

  function FromI64(i: i64): u64 {
    if i < 0 then i + TWO_64 else i
  }

  /** The columns of an offer besides its key; attached metadata is not stored with it. */
  datatype Columns = Columns(maxSendable: i64, minSendable: i64, metadataId: Id, timestamp: int, expires: Option<int>)

  datatype Row<T> = Row(value: T, created: int, updated: int)

  datatype Tables = Tables(offers: map<Ref, Row<Columns>>, metadata: map<Ref, Row<Details>>)

  const MIGRATED := Tables(map[], map[])

  function ToColumns(o: Offer, round: int -> int): Columns {
    Columns(ToI64(o.maxSendable), ToI64(o.minSendable), o.metadataId, round(o.timestamp),
      match o.expires case None => None case Some(t) => Some(round(t)))
  }

  function FromColumns(ref: Ref, c: Columns, metadata: Option<Details>): Offer {
    Offer(ref.0, ref.1, FromI64(c.maxSendable), FromI64(c.minSendable), c.metadataId, metadata, c.timestamp, c.expires)
  }

  /** The foreign key: each offer's metadata row exists. */
  ghost predicate ForeignKey(s: Tables) {
    forall r | r in s.offers :: (r.0, s.offers[r].value.metadataId) in s.metadata
  }

  ghost predicate Referenced(s: Tables, ref: Ref) {
    exists r :: r in s.offers && (r.0, s.offers[r].value.metadataId) == ref
  }

  /** INSERT ... ON CONFLICT DO UPDATE: an old row keeps its creation time and is stamped one second ahead. */
  function Upsert<T>(table: map<Ref, Row<T>>, ref: Ref, value: T, now: int, round: int -> int): map<Ref, Row<T>> {
    table[ref :=
      if ref in table then Row(value, table[ref].created, round(now + D.SECOND))
      else Row(value, round(now), round(now))]
  }

  /** The SELECT after it: equal timestamps mean created; no row is an internal error. */
  function CreatedFlag<T>(table: map<Ref, Row<T>>, ref: Ref): Result<bool, ErrorSource> {
    if ref in table then Ok(table[ref].created == table[ref].updated) else Err(Internal)
  }

  /** The tables after one statement; a violated key leaves them as they are. */
  ghost function After(s: Tables, w: Op, now: int, round: int -> int): Tables {
    match w
    case PostOffer(o) =>
      if MetadataRef(o) !in s.metadata || RefOf(o) in s.offers then s
      else s.(offers := Upsert(s.offers, RefOf(o), ToColumns(o, round), now, round))
    case PutOffer(o) =>
      if MetadataRef(o) !in s.metadata then s
      else s.(offers := Upsert(s.offers, RefOf(o), ToColumns(o, round), now, round))
    case DeleteOffer(ref) => s.(offers := s.offers - {ref})
    case PostMetadata(m) =>
      if RefOfMetadata(m) in s.metadata then s
      else s.(metadata := Upsert(s.metadata, RefOfMetadata(m), m.details, now, round))
    case PutMetadata(m) => s.(metadata := Upsert(s.metadata, RefOfMetadata(m), m.details, now, round))
    case DeleteMetadata(ref) => if Referenced(s, ref) then s else s.(metadata := s.metadata - {ref})
    case _ => s
  }

  /** One query joins the offer's row and its metadata's; asked for in full, an offer without metadata is not found. */
  function Found(s: Tables, ref: Ref, sparse: Option<bool>): Option<Offer> {
    if ref !in s.offers then None
    else
      var row := s.offers[ref].value;
      var m := (ref.0, row.metadataId);
      if sparse != Some(false) then Some(FromColumns(ref, row, None))
      else if m in s.metadata then Some(FromColumns(ref, row, Some(s.metadata[m].value)))
      else None
  }

  class DbOfferStore {
    var offers: map<Ref, Row<Columns>>
    var metadata: map<Ref, Row<Details>>
    const round: int -> int

    ghost function State(): Tables
      reads this
    {
      Tables(offers, metadata)
    }

    constructor MigrateUp(round: int -> int)
      ensures State() == MIGRATED && this.round == round
    {
      offers, metadata, this.round := map[], map[], round;
    }

    method GetOffer(ref: Ref, sparse: Option<bool>) returns (r: Option<Offer>)
      ensures r == Found(State(), ref, sparse)
      ensures ForeignKey(State()) ==> (r.Some? <==> ref in offers)
    {
      if ref !in offers {
        return None;
      }
      var row := offers[ref].value;
      if sparse.None? || sparse.value {
        return Some(FromColumns(ref, row, None));
      }
      if (ref.0, row.metadataId) !in metadata {
        return None;
      }
      r := Some(FromColumns(ref, row, Some(metadata[(ref.0, row.metadataId)].value)));
    }

    method PutOffer(o: Offer, now: int) returns (r: Result<bool, ErrorSource>)
      modifies this
      ensures State() == After(old(State()), Op.PutOffer(o), now, round)
      ensures r == if MetadataRef(o) in metadata then CreatedFlag(offers, RefOf(o)) else Err(Downstream)
    {
      if (o.partition, o.metadataId) !in metadata {
        return Err(Downstream);
      }
      offers := Upsert(offers, (o.partition, o.id), ToColumns(o, round), now, round);
      r := CreatedFlag(offers, (o.partition, o.id));
    }

    method PutMetadata(m: OfferMetadata, now: int) returns (r: Result<bool, ErrorSource>)
      modifies this
      ensures State() == After(old(State()), Op.PutMetadata(m), now, round)
      ensures r == CreatedFlag(metadata, RefOfMetadata(m))
    {
      metadata := Upsert(metadata, (m.partition, m.id), m.details, now, round);
      r := CreatedFlag(metadata, (m.partition, m.id));
    }
  }

  /** An offer comes back from its columns as it was stored exactly when its own times are at database precision. */
  lemma ColumnsRoundTrip(o: Offer, round: int -> int)
    ensures FromColumns(RefOf(o), ToColumns(o, round), o.metadata) == o
       <==> round(o.timestamp) == o.timestamp && (o.expires.Some? ==> round(o.expires.value) == o.expires.value)
  {
  }

  lemma AfterKeepsForeignKey(s: Tables, w: Op, now: int, round: int -> int)
    requires ForeignKey(s)
    ensures ForeignKey(After(s, w, now, round))
  {
    if w.DeleteMetadata? && !Referenced(s, w.ref) {
      forall r | r in s.offers ensures (r.0, s.offers[r].value.metadataId) in s.metadata - {w.ref} {
        assert (r.0, s.offers[r].value.metadataId) != w.ref;
      }
    }
  }

  datatype Timed = Timed(write: Op, now: int)

  ghost function Run(s: Tables, log: seq<Timed>, round: int -> int): Tables
    decreases |log|
  {
    if log == [] then s else Run(After(s, log[0].write, log[0].now, round), log[1..], round)
  }

  lemma {:induction false} RunKeepsForeignKey(s: Tables, log: seq<Timed>, round: int -> int)
    requires ForeignKey(s)
    ensures ForeignKey(Run(s, log, round))
    decreases |log|
  {
    if log != [] {
      AfterKeepsForeignKey(s, log[0].write, log[0].now, round);
      RunKeepsForeignKey(After(s, log[0].write, log[0].now, round), log[1..], round);
    }
  }

  // ---- What is read back ----

  /** An offer as the database gives it back: its times rounded, its metadata what is attached. */
  function Precise(o: Offer, round: int -> int, metadata: Option<Details>): Offer {
    Offer(o.partition, o.id, o.maxSendable, o.minSendable, o.metadataId, metadata, round(o.timestamp),
      if o.expires.None? then None else Some(round(o.expires.value)))
  }

  lemma ColumnsArePrecise(o: Offer, round: int -> int, metadata: Option<Details>)
    ensures FromColumns((o.partition, o.id), ToColumns(o, round), metadata) == Precise(o, round, metadata)
  {
  }

  /** The offer a write leaves under a key: an accepted put, or an accepted post where there was none, leaves its own, a
      deletion none, and anything else what was there. */
  ghost function OfferLeft(s: Tables, was: Option<Offer>, w: Op, ref: Ref): Option<Offer> {
    match w
    case PutOffer(o) =>
      if (o.partition, o.id) == ref && (o.partition, o.metadataId) in s.metadata then Some(o) else was
    case PostOffer(o) =>
      if (o.partition, o.id) == ref && (o.partition, o.metadataId) in s.metadata && was.None? then Some(o) else was
    case DeleteOffer(r) => if r == ref then None else was
    case _ => was
  }

  /** The same of metadata, which stays while an offer names it. */
  ghost function DetailsLeft(s: Tables, was: Option<Details>, w: Op, ref: Ref): Option<Details> {
    match w
    case PutMetadata(m) => if (m.partition, m.id) == ref then Some(m.details) else was
    case PostMetadata(m) => if (m.partition, m.id) == ref && was.None? then Some(m.details) else was
    case DeleteMetadata(r) =>
      if r == ref && !exists o :: o in s.offers && (o.0, s.offers[o].value.metadataId) == ref then None else was
    case _ => was
  }

  /** The row of an offer holds these columns, or there is none. */
  predicate HoldsOffer(s: Tables, ref: Ref, o: Option<Offer>, round: int -> int) {
    && (ref in s.offers <==> o.Some?)
    && (o.Some? ==> (o.value.partition, o.value.id) == ref && s.offers[ref].value == ToColumns(o.value, round))
  }

  predicate HoldsDetails(s: Tables, ref: Ref, d: Option<Details>) {
    && (ref in s.metadata <==> d.Some?)
    && (d.Some? ==> s.metadata[ref].value == d.value)
  }

  lemma WriteLeaves(s: Tables, w: Op, now: int, round: int -> int, ref: Ref, o: Option<Offer>, d: Option<Details>)
    ensures HoldsOffer(s, ref, o, round) ==> HoldsOffer(After(s, w, now, round), ref, OfferLeft(s, o, w, ref), round)
    ensures HoldsDetails(s, ref, d) ==> HoldsDetails(After(s, w, now, round), ref, DetailsLeft(s, d, w, ref))
  {
    if w.DeleteMetadata? && w.ref == ref {
      assert Referenced(s, ref) <==> exists r :: r in s.offers && (r.0, s.offers[r].value.metadataId) == ref;
    }
  }

  /** The last write of an offer that took effect, and of metadata. */
  ghost function LastOffer(s: Tables, was: Option<Offer>, log: seq<Timed>, round: int -> int, ref: Ref): Option<Offer>
    decreases |log|
  {
    if log == [] then was
    else
      var next := After(s, log[0].write, log[0].now, round);
      LastOffer(next, OfferLeft(s, was, log[0].write, ref), log[1..], round, ref)
  }

  ghost function LastDetails(s: Tables, was: Option<Details>, log: seq<Timed>, round: int -> int, ref: Ref)
    : Option<Details>
    decreases |log|
  {
    if log == [] then was
    else
      var next := After(s, log[0].write, log[0].now, round);
      LastDetails(next, DetailsLeft(s, was, log[0].write, ref), log[1..], round, ref)
  }

  lemma {:induction false} RunLeaves(s: Tables, log: seq<Timed>, round: int -> int, ref: Ref, o: Option<Offer>,
                                     d: Option<Details>)
    ensures HoldsOffer(s, ref, o, round) ==>
      HoldsOffer(Run(s, log, round), ref, LastOffer(s, o, log, round, ref), round)
    ensures HoldsDetails(s, ref, d) ==> HoldsDetails(Run(s, log, round), ref, LastDetails(s, d, log, round, ref))
    decreases |log|
  {
    if log != [] {
      var w, now := log[0].write, log[0].now;
      WriteLeaves(s, w, now, round, ref, o, d);
      RunLeaves(After(s, w, now, round), log[1..], round, ref, OfferLeft(s, o, w, ref), DetailsLeft(s, d, w, ref));
    }
  }

  /** After any writes, asking for an offer gives the one last written that took effect, at database precision; with the
      details last written of its metadata exactly when asked for in full, and then they are always there. */
  lemma GetReadsLastWrites(log: seq<Timed>, round: int -> int, ref: Ref, sparse: Option<bool>)
    ensures var s, o := Run(MIGRATED, log, round), LastOffer(MIGRATED, None, log, round, ref);
      && (o.None? ==> Found(s, ref, sparse) == None)
      && (o.Some? && sparse != Some(false) ==> Found(s, ref, sparse) == Some(Precise(o.value, round, None)))
      && (o.Some? && sparse == Some(false) ==>
            var d := LastDetails(MIGRATED, None, log, round, (o.value.partition, o.value.metadataId));
            d.Some? && Found(s, ref, sparse) == Some(Precise(o.value, round, d)))
  {
    var s, o := Run(MIGRATED, log, round), LastOffer(MIGRATED, None, log, round, ref);
    RunLeaves(MIGRATED, log, round, ref, None, None);
    RunKeepsForeignKey(MIGRATED, log, round);
    if o.Some? {
      RunLeaves(MIGRATED, log, round, (o.value.partition, o.value.metadataId), None, None);
      ColumnsArePrecise(o.value, round, None);
      ColumnsArePrecise(o.value, round,
        LastDetails(MIGRATED, None, log, round, (o.value.partition, o.value.metadataId)));
    }
  }

  // ---- What a put answers ----

  /** One row, of offers or of metadata. */
  datatype Cell = OfferCell(ref: Ref) | MetadataCell(ref: Ref)

  /** All the select can tell about a row, with its creation stamp: there is none, one whose two stamps agree, or one
      whose stamps differ. */
  datatype Mark = Absent | Fresh(created: int) | Old(created: int)

  /** What a statement does to one row: nothing, insert if absent, insert or update, or remove. */
  datatype Touch = Nothing | Insert(now: int) | Upserting(now: int) | Remove

  function MarkOf<T>(table: map<Ref, Row<T>>, ref: Ref): Mark {
    if ref !in table then Absent
    else if table[ref].created == table[ref].updated then Fresh(table[ref].created)
    else Old(table[ref].created)
  }

  function MarkAt(s: Tables, cell: Cell): Mark {
    match cell case OfferCell(ref) => MarkOf(s.offers, ref) case MetadataCell(ref) => MarkOf(s.metadata, ref)
  }

  function FlagAt(s: Tables, cell: Cell): Result<bool, ErrorSource> {
    match cell case OfferCell(ref) => CreatedFlag(s.offers, ref) case MetadataCell(ref) => CreatedFlag(s.metadata, ref)
  }

  /** A write of an offer counts where its metadata is there, a deletion of metadata where no offer refers to it; writes
      of other rows do not count. */
  ghost function TouchAt(s: Tables, t: Timed, cell: Cell): Touch {
    match t.write
    case PostOffer(o) =>
      if OfferCell(RefOf(o)) == cell && MetadataRef(o) in s.metadata then Insert(t.now) else Nothing
    case PutOffer(o) =>
      if OfferCell(RefOf(o)) == cell && MetadataRef(o) in s.metadata then Upserting(t.now) else Nothing
    case DeleteOffer(ref) => if OfferCell(ref) == cell then Remove else Nothing
    case PostMetadata(m) => if MetadataCell(RefOfMetadata(m)) == cell then Insert(t.now) else Nothing
    case PutMetadata(m) => if MetadataCell(RefOfMetadata(m)) == cell then Upserting(t.now) else Nothing
    case DeleteMetadata(ref) => if MetadataCell(ref) == cell && !Referenced(s, ref) then Remove else Nothing
    case _ => Nothing
  }

  ghost function TouchesAt(s: Tables, log: seq<Timed>, round: int -> int, cell: Cell): seq<Touch>
    decreases |log|
  {
    if log == [] then []
    else
      var next := After(s, log[0].write, log[0].now, round);
      [TouchAt(s, log[0], cell)] + TouchesAt(next, log[1..], round, cell)
  }

  /** An update leaves the two stamps equal just when the row was created at the stamp the update gives. */
  function Marked(mark: Mark, touch: Touch, round: int -> int): Mark {
    match touch
    case Nothing => mark
    case Insert(now) => if mark.Absent? then Fresh(round(now)) else mark
    case Upserting(now) =>
      if mark.Absent? then Fresh(round(now))
      else if mark.created == round(now + D.SECOND) then Fresh(mark.created)
      else Old(mark.created)
    case Remove => Absent
  }

  function Fold(mark: Mark, touches: seq<Touch>, round: int -> int): Mark
    decreases |touches|
  {
    if touches == [] then mark else Fold(Marked(mark, touches[0], round), touches[1..], round)
  }

  /** The answer for a row in each condition. */
  function Reported(mark: Mark): Result<bool, ErrorSource> {
    match mark case Absent => Err(Internal) case Fresh(_) => Ok(true) case Old(_) => Ok(false)
  }

  lemma StepMarks(s: Tables, t: Timed, round: int -> int, cell: Cell)
    ensures MarkAt(After(s, t.write, t.now, round), cell) == Marked(MarkAt(s, cell), TouchAt(s, t, cell), round)
  {
  }

  lemma {:induction false} RunMarks(s: Tables, log: seq<Timed>, round: int -> int, cell: Cell)
    ensures MarkAt(Run(s, log, round), cell) == Fold(MarkAt(s, cell), TouchesAt(s, log, round, cell), round)
    decreases |log|
  {
    if log != [] {
      var t := After(s, log[0].write, log[0].now, round);
      StepMarks(s, log[0], round, cell);
      RunMarks(t, log[1..], round, cell);
      assert TouchesAt(s, log, round, cell)[1..] == TouchesAt(t, log[1..], round, cell);
    }
  }

  /** A put that the database accepts. */
  predicate Accepted(s: Tables, w: Op) {
    w.PutMetadata? || (w.PutOffer? && MetadataRef(w.offer) in s.metadata)
  }

  function CellOf(w: Op): Cell
    requires w.PutOffer? || w.PutMetadata?
  {
    if w.PutOffer? then OfferCell(RefOf(w.offer)) else MetadataCell(RefOfMetadata(w.details))
  }

  /** The upsert and the select of a put, of an offer or of metadata, are separate statements. In any state, with any
      writes between the two and any clock readings at all, the put answers what its own write and those in between make
      of the row; and that is right exactly when they leave a row that was there with stamps that differ, or one that
      was not with stamps that agree. */
  lemma PutFlagExactly(s: Tables, w: Op, now: int, between: seq<Timed>, round: int -> int)
    requires Accepted(s, w)
    ensures var mine, cell := After(s, w, now, round), CellOf(w);
      var later := Run(mine, between, round);
      var found := Fold(MarkAt(s, cell), [Upserting(now)] + TouchesAt(mine, between, round, cell), round);
      var right := if MarkAt(s, cell).Absent? then found.Fresh? else found.Old?;
      && FlagAt(later, cell) == Reported(found)
      && (FlagAt(later, cell) == Ok(MarkAt(s, cell).Absent?) <==> right)
  {
    var mine, cell := After(s, w, now, round), CellOf(w);
    StepMarks(s, Timed(w, now), round, cell);
    RunMarks(mine, between, round, cell);
    var touches := [Upserting(now)] + TouchesAt(mine, between, round, cell);
    assert touches[1..] == TouchesAt(mine, between, round, cell);
  }

  /** With nothing in between, the answer is right exactly when the row is new, or was not created at the stamp the
      update gives. */
  lemma SerialPutFlag(s: Tables, w: Op, now: int, round: int -> int)
    requires Accepted(s, w)
    ensures var was := MarkAt(s, CellOf(w));
      var flag := FlagAt(After(s, w, now, round), CellOf(w));
      flag == Ok(was.Absent?) <==> was.Absent? || was.created != round(now + D.SECOND)
  {
    StepMarks(s, Timed(w, now), round, CellOf(w));
  }

  // ---- Where no update's stamp is that of an earlier creation ----

  function Readings(log: seq<Timed>): seq<int> {
    seq(|log|, i requires 0 <= i < |log| => log[i].now)
  }

  /** A row's condition without its stamp. */
  datatype Kind = Missing | AsNew | AsUpdated

  function KindOf(mark: Mark): Kind {
    match mark case Absent => Missing case Fresh(_) => AsNew case Old(_) => AsUpdated
  }

  function KindAfter(kind: Kind, touch: Touch): Kind {
    match touch
    case Nothing => kind
    case Insert(_) => if kind == Missing then AsNew else kind
    case Upserting(_) => if kind == Missing then AsNew else AsUpdated
    case Remove => Missing
  }

  function KindFold(kind: Kind, touches: seq<Touch>): Kind
    decreases |touches|
  {
    if touches == [] then kind else KindFold(KindAfter(kind, touches[0]), touches[1..])
  }

  lemma {:induction false} RunKinds(s: Tables, log: seq<Timed>, round: int -> int, seen: set<int>, cell: Cell)
    requires D.Apart(seen, Readings(log), round)
    requires !MarkAt(s, cell).Absent? ==> MarkAt(s, cell).created in seen
    ensures var t := Run(s, log, round);
      && KindOf(MarkAt(t, cell)) == KindFold(KindOf(MarkAt(s, cell)), TouchesAt(s, log, round, cell))
      && (!MarkAt(t, cell).Absent? ==> MarkAt(t, cell).created in D.Seen(seen, Readings(log), round))
    decreases |log|
  {
    if log != [] {
      var t := After(s, log[0].write, log[0].now, round);
      StepMarks(s, log[0], round, cell);
      assert Readings(log)[1..] == Readings(log[1..]);
      RunKinds(t, log[1..], round, seen + {round(log[0].now)}, cell);
      assert TouchesAt(s, log, round, cell)[1..] == TouchesAt(t, log[1..], round, cell);
    }
  }

  /** Whatever writes came before, and whatever come in between: if no reading, a second on, is stored as an earlier
      write's reading was, the put is right exactly when the writes in between leave the row as the put left it, created
      or updated. Nothing is asked of the order of the readings, nor of the rounding. */
  lemma PutFlagApart(log: seq<Timed>, w: Op, now: int, between: seq<Timed>, round: int -> int)
    requires Accepted(Run(MIGRATED, log, round), w)
    requires D.Apart({}, Readings(log + [Timed(w, now)] + between), round)
    ensures var s, cell := Run(MIGRATED, log, round), CellOf(w);
      var mine := After(s, w, now, round);
      var later := Run(mine, between, round);
      var left := if MarkAt(s, cell).Absent? then AsNew else AsUpdated;
      var found := KindFold(left, TouchesAt(mine, between, round, cell));
      && KindOf(MarkAt(later, cell)) == found
      && (FlagAt(later, cell) == Ok(MarkAt(s, cell).Absent?) <==> found == left)
  {
    var s, cell := Run(MIGRATED, log, round), CellOf(w);
    var mine := After(s, w, now, round);
    var seen := D.Seen({}, Readings(log), round);
    ApartParts(log, Timed(w, now), between, round);
    RunKinds(MIGRATED, log, round, {}, cell);
    PutMarks(s, w, now, round, seen);
    RunKinds(mine, between, round, seen + {round(now)}, cell);
    var left, touches := if MarkAt(s, cell).Absent? then AsNew else AsUpdated, TouchesAt(mine, between, round, cell);
    FlagIsKind(Run(mine, between, round), cell);
    assert KindOf(MarkAt(Run(mine, between, round), cell)) == KindFold(left, touches);
  }

  lemma ApartParts(log: seq<Timed>, t: Timed, between: seq<Timed>, round: int -> int)
    requires D.Apart({}, Readings(log + [t] + between), round)
    ensures var seen := D.Seen({}, Readings(log), round);
      && D.Apart({}, Readings(log), round)
      && round(t.now + D.SECOND) !in seen
      && D.Apart(seen + {round(t.now)}, Readings(between), round)
  {
    var rest := [t.now] + Readings(between);
    assert Readings(log + [t] + between) == Readings(log) + rest;
    D.ApartSplits({}, Readings(log), rest, round);
    assert rest[1..] == Readings(between);
  }

  lemma PutMarks(s: Tables, w: Op, now: int, round: int -> int, seen: set<int>)
    requires Accepted(s, w) && round(now + D.SECOND) !in seen
    requires !MarkAt(s, CellOf(w)).Absent? ==> MarkAt(s, CellOf(w)).created in seen
    ensures var was, mark := MarkAt(s, CellOf(w)), MarkAt(After(s, w, now, round), CellOf(w));
      && KindOf(mark) == (if was.Absent? then AsNew else AsUpdated)
      && !mark.Absent? && mark.created in seen + {round(now)}
  {
    StepMarks(s, Timed(w, now), round, CellOf(w));
  }

  lemma FlagIsKind(s: Tables, cell: Cell)
    ensures FlagAt(s, cell) == Ok(true) <==> KindOf(MarkAt(s, cell)) == AsNew
    ensures FlagAt(s, cell) == Ok(false) <==> KindOf(MarkAt(s, cell)) == AsUpdated
  {
  }

  /** In particular where statements are carried out in the order of their readings, on a clock that never goes back. */
  lemma PutFlagInOrder(log: seq<Timed>, w: Op, now: int, between: seq<Timed>, round: int -> int)
    requires D.Rounding(round) && D.InOrder(Readings(log + [Timed(w, now)] + between))
    requires Accepted(Run(MIGRATED, log, round), w)
    ensures var s, cell := Run(MIGRATED, log, round), CellOf(w);
      var mine := After(s, w, now, round);
      var later := Run(mine, between, round);
      var left := if MarkAt(s, cell).Absent? then AsNew else AsUpdated;
      var found := KindFold(left, TouchesAt(mine, between, round, cell));
      FlagAt(later, cell) == Ok(MarkAt(s, cell).Absent?) <==> found == left
  {
    D.InOrderIsApart({}, Readings(log + [Timed(w, now)] + between), round);
    PutFlagApart(log, w, now, between, round);
  }

  /** The foreign key holds in every run, and with readings in order an undisturbed put is right in every run. */
  lemma PutFlagsExact(log: seq<Timed>, round: int -> int, now: int, w: Op)
    requires D.Rounding(round) && D.InOrder(Readings(log + [Timed(w, now)]))
    ensures var s := Run(MIGRATED, log, round);
      && ForeignKey(s)
      && (Accepted(s, w) ==> FlagAt(After(s, w, now, round), CellOf(w)) == Ok(MarkAt(s, CellOf(w)).Absent?))
  {
    RunKeepsForeignKey(MIGRATED, log, round);
    if Accepted(Run(MIGRATED, log, round), w) {
      assert log + [Timed(w, now)] + [] == log + [Timed(w, now)];
      PutFlagInOrder(log, w, now, [], round);
    }
  }

  /** A call reads the clock before its statement is carried out, so readings can overtake one another though the clock
      never goes back. Where whole seconds are stored, half of one up: a put that read 10.501 s creates the offer, then
      one that read 10.499 s updates it, and both answer that they created it. */
  lemma PutOvertaken(s: Tables, mine: Offer, theirs: Offer)
    requires MetadataRef(mine) in s.metadata && MetadataRef(theirs) in s.metadata
    requires RefOf(mine) == RefOf(theirs) && RefOf(mine) !in s.offers
    ensures D.Rounding(D.Secs)
    ensures var first := After(s, PutOffer(mine), 10_501_000_000, D.Secs);
      var second := After(first, PutOffer(theirs), 10_499_000_000, D.Secs);
      && CreatedFlag(first.offers, RefOf(mine)) == CreatedFlag(second.offers, RefOf(mine)) == Ok(true)
      && second.offers[RefOf(mine)].value == ToColumns(theirs, D.Secs)
  {
    D.SecsRound();
  }

  predicate Touches(w: Op, ref: Ref) {
    match w
    case PostOffer(o) => RefOf(o) == ref
    case PutOffer(o) => RefOf(o) == ref
    case DeleteOffer(r) => r == ref
    case _ => false
  }

  lemma {:induction false} Untouched(s: Tables, log: seq<Timed>, round: int -> int, ref: Ref)
    requires forall t | t in log :: !Touches(t.write, ref)
    ensures ref in Run(s, log, round).offers <==> ref in s.offers
    ensures ref in s.offers ==> Run(s, log, round).offers[ref] == s.offers[ref]
    decreases |log|
  {
    if log != [] {
      assert log[0] in log;
      Untouched(After(s, log[0].write, log[0].now, round), log[1..], round, ref);
    }
  }

  /** With no clock to rely on, writes between the two statements still do no harm if none is to the same offer. */
  lemma PutFlagBetween(s: Tables, o: Offer, now: int, between: seq<Timed>, round: int -> int)
    requires MetadataRef(o) in s.metadata
    requires RefOf(o) in s.offers ==> s.offers[RefOf(o)].created != round(now + D.SECOND)
    requires forall t | t in between :: !Touches(t.write, RefOf(o))
    ensures var later := Run(After(s, PutOffer(o), now, round), between, round);
      CreatedFlag(later.offers, RefOf(o)) == Ok(RefOf(o) !in s.offers)
  {
    Untouched(After(s, PutOffer(o), now, round), between, round, RefOf(o));
  }

  /** One other put of the same new offer in between and neither of the two says it created it; a deletion in between
      and the put fails although it was carried out. */
  lemma PutFlagDisturbed(s: Tables, o: Offer, now: int, round: int -> int)
    requires D.Rounding(round) && MetadataRef(o) in s.metadata && RefOf(o) !in s.offers
    ensures var mine := After(s, PutOffer(o), now, round);
      var theirs := After(mine, PutOffer(o), now, round);
      && CreatedFlag(theirs.offers, RefOf(o)) == Ok(false)
      && CreatedFlag(After(mine, DeleteOffer(RefOf(o)), now, round).offers, RefOf(o)) == Err(Internal)
  {
    assert round(now + D.SECOND) == round(now) + D.SECOND;
  }
}
