/** The in-memory offer store: two maps, and an offer may only name metadata that exists. */
module MemoryOffers {
  import opened Types
  import opened Listing
  import L = LnUrlMetadata

  type Id = nat
  type Ref = (string, Id)
  type Details = L.Metadata<string>

  datatype Offer = Offer(
    partition: string,
    id: Id,
    maxSendable: u64,
    minSendable: u64,
    metadataId: Id,
    metadata: Option<Details>,
    timestamp: int,
    expires: Option<int>)

  datatype OfferMetadata = OfferMetadata(id: Id, partition: string, details: Details)

  datatype Stamped<T> = Stamped(created: int, value: T)

  type Table<T> = map<Ref, Stamped<T>>

  datatype OfferState = OfferState(offers: Table<Offer>, metadata: Table<OfferMetadata>)

  const EMPTY := OfferState(map[], map[])

  datatype Op =
    | GetOffer(ref: Ref, sparse: Option<bool>)
    | GetOffers(partition: string, start: nat, count: nat)
    | PostOffer(offer: Offer)
    | PutOffer(offer: Offer)
    | DeleteOffer(ref: Ref)
    | GetMetadata(ref: Ref)
    | GetAllMetadata(partition: string, start: nat, count: nat)
    | PostMetadata(details: OfferMetadata)
    | PutMetadata(details: OfferMetadata)
    | DeleteMetadata(ref: Ref)

  datatype Reply =
    | OfferFound(offer: Option<Offer>)
    | OfferPage(offers: seq<Offer>)
    | MetadataFound(found: Option<OfferMetadata>)
    | MetadataPage(page: seq<OfferMetadata>)
    | Created(id: Option<Id>)
    | Flag(flag: bool)
    | InvalidInput

  function RefOf(o: Offer): Ref { (o.partition, o.id) }
  function MetadataRef(o: Offer): Ref { (o.partition, o.metadataId) }
  function RefOfMetadata(m: OfferMetadata): Ref { (m.partition, m.id) }

  /** Records sit under their own keys, and each offer's metadata is there. */
  ghost predicate Integrity(s: OfferState) {
    && (forall r | r in s.offers :: RefOf(s.offers[r].value) == r && MetadataRef(s.offers[r].value) in s.metadata)
    && (forall r | r in s.metadata :: RefOfMetadata(s.metadata[r].value) == r)
  }

  ghost predicate InUse(s: OfferState, ref: Ref) {
    exists r :: r in s.offers && MetadataRef(s.offers[r].value) == ref
  }

  ghost function EntriesIn<T>(table: Table<T>, refs: set<Ref>): set<Entry<Stamped<T>>>
    requires refs <= table.Keys
  {
    set r | r in refs :: Entry(table[r].created, r.1, table[r])
  }

  ghost function InPartition<T>(table: Table<T>, partition: string): set<Ref> {
    set r | r in table && r.0 == partition
  }

  function Values<T>(l: seq<Entry<Stamped<T>>>): seq<T> {
    seq(|l|, i requires 0 <= i < |l| => l[i].value.value)
  }

  /** The partition's records, oldest first. */
  ghost function Shown<T(!new)>(table: Table<T>, partition: string): (l: seq<Entry<Stamped<T>>>)
    ensures IsListing(l, EntriesIn(table, InPartition(table, partition)))
  {
    Arrange(EntriesIn(table, InPartition(table, partition)))
  }

  function Full(s: OfferState, o: Offer): Option<Offer> {
    var m := MetadataRef(o);
    if m in s.metadata then Some(o.(metadata := Some(s.metadata[m].value.details))) else None
  }

  /** One operation as if nothing else were going on. */
  ghost function Apply(s: OfferState, op: Op, now: int): (OfferState, Reply) {
    match op
    case GetOffer(ref, sparse) =>
      (s, OfferFound(
        if ref !in s.offers then None
        else if sparse != Some(false) then Some(s.offers[ref].value)
        else Full(s, s.offers[ref].value)))
    case GetOffers(partition, start, count) => (s, OfferPage(Page(Values(Shown(s.offers, partition)), start, count)))
    case PostOffer(o) =>
      if MetadataRef(o) !in s.metadata then (s, InvalidInput)
      else if RefOf(o) in s.offers then (s, Created(None))
      else (s.(offers := s.offers[RefOf(o) := Stamped(now, o)]), Created(Some(o.id)))
    case PutOffer(o) =>
      if MetadataRef(o) !in s.metadata then (s, InvalidInput)
      else (s.(offers := s.offers[RefOf(o) := Stamped(now, o)]), Flag(RefOf(o) !in s.offers))
    case DeleteOffer(ref) => (s.(offers := s.offers - {ref}), Flag(ref in s.offers))
    case GetMetadata(ref) => (s, MetadataFound(if ref in s.metadata then Some(s.metadata[ref].value) else None))
    case GetAllMetadata(partition, start, count) =>
      (s, MetadataPage(Page(Values(Shown(s.metadata, partition)), start, count)))
    case PostMetadata(m) =>
      if RefOfMetadata(m) in s.metadata then (s, Created(None))
      else (s.(metadata := s.metadata[RefOfMetadata(m) := Stamped(now, m)]), Created(Some(m.id)))
    case PutMetadata(m) =>
      (s.(metadata := s.metadata[RefOfMetadata(m) := Stamped(now, m)]), Flag(RefOfMetadata(m) !in s.metadata))
    case DeleteMetadata(ref) =>
      if InUse(s, ref) then (s, InvalidInput) else (s.(metadata := s.metadata - {ref}), Flag(ref in s.metadata))
  }

  class MemoryOfferStore {
    var offers: Table<Offer>
    var metadata: Table<OfferMetadata>

    ghost function State(): OfferState
      reads this
    {
      OfferState(offers, metadata)
    }

    constructor ()
      ensures State() == EMPTY && Integrity(State())
    {
      offers, metadata := map[], map[];
    }

    method GetOffer(ref: Ref, sparse: Option<bool>) returns (r: Option<Offer>)
      ensures OfferFound(r) == Apply(State(), Op.GetOffer(ref, sparse), 0).1
    {
      var onlySparse := sparse.None? || sparse.value;
      if ref !in offers {
        return None;
      }
      var offer := offers[ref].value;
      if onlySparse {
        return Some(offer);
      }
      if (offer.partition, offer.metadataId) !in metadata {
        return None;
      }
      r := Some(offer.(metadata := Some(metadata[(offer.partition, offer.metadataId)].value.details)));
    }

    method GetOffers(partition: string, start: nat, count: nat) returns (r: seq<Offer>)
      ensures OfferPage(r) == Apply(State(), Op.GetOffers(partition, start, count), 0).1
    {
      r := SortedPage(offers, partition, start, count);
    }

    method GetAllMetadata(partition: string, start: nat, count: nat) returns (r: seq<OfferMetadata>)
      ensures MetadataPage(r) == Apply(State(), Op.GetAllMetadata(partition, start, count), 0).1
    {
      r := SortedPage(metadata, partition, start, count);
    }

    method PostOffer(o: Offer, now: int) returns (r: Result<Option<Id>, ErrorSource>)
      modifies this
      ensures r.Err? ==> r.error == Downstream
      ensures (State(), if r.Ok? then Created(r.value) else InvalidInput) == Apply(old(State()), Op.PostOffer(o), now)
      ensures old(Integrity(State())) ==> Integrity(State())
    {
      if (o.partition, o.metadataId) !in metadata {
        return Err(Downstream);
      }
      if (o.partition, o.id) in offers {
        return Ok(None);
      }
      offers := offers[(o.partition, o.id) := Stamped(now, o)];
      r := Ok(Some(o.id));
    }

    method PutOffer(o: Offer, now: int) returns (r: Result<bool, ErrorSource>)
      modifies this
      ensures r.Err? ==> r.error == Downstream
      ensures (State(), if r.Ok? then Flag(r.value) else InvalidInput) == Apply(old(State()), Op.PutOffer(o), now)
      ensures old(Integrity(State())) ==> Integrity(State())
    {
      if (o.partition, o.metadataId) !in metadata {
        return Err(Downstream);
      }
      var wasNew := (o.partition, o.id) !in offers;
      offers := offers[(o.partition, o.id) := Stamped(now, o)];
      r := Ok(wasNew);
    }

    method DeleteOffer(ref: Ref) returns (r: bool)
      modifies this
      ensures (State(), Flag(r)) == Apply(old(State()), Op.DeleteOffer(ref), 0)
      ensures old(Integrity(State())) ==> Integrity(State())
    {
      r := ref in offers;
      offers := offers - {ref};
    }

    method GetMetadata(ref: Ref) returns (r: Option<OfferMetadata>)
      ensures MetadataFound(r) == Apply(State(), Op.GetMetadata(ref), 0).1
    {
      r := if ref in metadata then Some(metadata[ref].value) else None;
    }

    method PostMetadata(m: OfferMetadata, now: int) returns (r: Option<Id>)
      modifies this
      ensures (State(), Created(r)) == Apply(old(State()), Op.PostMetadata(m), now)
      ensures old(Integrity(State())) ==> Integrity(State())
    {
      if (m.partition, m.id) in metadata {
        return None;
      }
      metadata := metadata[(m.partition, m.id) := Stamped(now, m)];
      r := Some(m.id);
    }

    method PutMetadata(m: OfferMetadata, now: int) returns (r: bool)
      modifies this
      ensures (State(), Flag(r)) == Apply(old(State()), Op.PutMetadata(m), now)
      ensures old(Integrity(State())) ==> Integrity(State())
    {
      r := (m.partition, m.id) !in metadata;
      metadata := metadata[(m.partition, m.id) := Stamped(now, m)];
    }

    method DeleteMetadata(ref: Ref) returns (r: Result<bool, ErrorSource>)
      modifies this
      ensures r.Err? ==> r.error == Downstream
      ensures (State(), if r.Ok? then Flag(r.value) else InvalidInput) == Apply(old(State()), Op.DeleteMetadata(ref), 0)
      ensures old(Integrity(State())) ==> Integrity(State())
    {
      var left := offers.Keys;
      while left != {}
        invariant left <= offers.Keys
        invariant forall r | r in offers && r !in left :: MetadataRef(offers[r].value) != ref
        invariant State() == old(State())
        decreases left
      {
        var r :| r in left;
        if offers[r].value.partition == ref.0 && offers[r].value.metadataId == ref.1 {
          assert MetadataRef(offers[r].value) == ref;
          return Err(Downstream);
        }
        left := left - {r};
      }
      r := Ok(ref in metadata);
      metadata := metadata - {ref};
    }
  }

  /** Collect the partition's records in whatever order the map is walked, sort, cut out the page. */
  method SortedPage<T(!new)>(table: Table<T>, partition: string, start: nat, count: nat) returns (page: seq<T>)
    ensures page == Page(Values(Shown(table, partition)), start, count)
  {
    var entries: seq<Entry<Stamped<T>>> := [];
    var left := table.Keys;
    ghost var seen: set<Ref> := {};
    while left != {}
      invariant left <= table.Keys && seen !! left
      invariant seen == InPartition(table, partition) - left
      invariant multiset(entries) == multiset(EntriesIn(table, seen))
      decreases left
    {
      var r :| r in left;
      if r.0 == partition {
        CollectOne(table, partition, seen, r);
        entries := entries + [Entry(table[r].created, r.1, table[r])];
        seen := seen + {r};
      }
      left := left - {r};
    }
    assert seen == InPartition(table, partition);
    SortIsListing(entries, EntriesIn(table, seen));
    ListingIsUnique(Sort(entries), Shown(table, partition), EntriesIn(table, seen));
    page := Page(Values(Sort(entries)), start, count);
  }

  lemma CollectOne<T>(table: Table<T>, partition: string, seen: set<Ref>, r: Ref)
    requires seen <= InPartition(table, partition) && r in InPartition(table, partition) && r !in seen
    ensures multiset(EntriesIn(table, seen + {r})) ==
      multiset(EntriesIn(table, seen)) + multiset{Entry(table[r].created, r.1, table[r])}
  {
    var e := Entry(table[r].created, r.1, table[r]);
    assert EntriesIn(table, seen + {r}) == EntriesIn(table, seen) + {e};
    assert e !in EntriesIn(table, seen);
  }

  lemma ApplyKeepsIntegrity(s: OfferState, op: Op, now: int)
    requires Integrity(s)
    ensures Integrity(Apply(s, op, now).0)
  {
    if op.DeleteMetadata? && !InUse(s, op.ref) {
      forall r | r in s.offers ensures MetadataRef(s.offers[r].value) in s.metadata - {op.ref} {
        assert MetadataRef(s.offers[r].value) != op.ref;
      }
    }
  }

  /** Asking for an offer finds it exactly if one is stored under the key, for each way of asking; sparsely, which is
      also the default, as it was stored, and in full with the details of its own metadata record attached. */
  lemma GetOfferExactly(s: OfferState, ref: Ref, sparse: Option<bool>, now: int)
    requires Integrity(s)
    ensures var (t, reply) := Apply(s, GetOffer(ref, sparse), now);
      && t == s && reply.OfferFound?
      && (reply.offer.None? <==> ref !in s.offers)
      && (ref in s.offers ==>
            var o := s.offers[ref].value;
            && (o.partition, o.id) == ref && (o.partition, o.metadataId) in s.metadata
            && (sparse == None || sparse == Some(true) ==> reply.offer == Some(o))
            && (sparse == Some(false) ==>
                  reply.offer == Some(o.(metadata := Some(s.metadata[(o.partition, o.metadataId)].value.details)))))
  {
  }

  lemma GetMetadataExactly(s: OfferState, ref: Ref, now: int)
    ensures var (t, reply) := Apply(s, GetMetadata(ref), now);
      && t == s && reply.MetadataFound?
      && (reply.found.None? <==> ref !in s.metadata)
      && (ref in s.metadata ==> reply.found == Some(s.metadata[ref].value))
  {
  }

  /** What is read at a key, by the operation that reads it. */
  ghost function ReadOffer(s: OfferState, ref: Ref): Reply {
    Apply(s, GetOffer(ref, None), 0).1
  }

  ghost function ReadMetadata(s: OfferState, ref: Ref): Reply {
    Apply(s, GetMetadata(ref), 0).1
  }

  /** What any operation leaves to be read of the offers: an accepted put is read back, a post only where nothing was, a
      deletion leaves nothing, and all else is read as before. */
  lemma ReadAfterWrite(s: OfferState, op: Op, now: int, ref: Ref)
    ensures var (t, reply) := Apply(s, op, now);
      ReadOffer(t, ref) ==
        if op.PutOffer? && (op.offer.partition, op.offer.id) == ref && reply.Flag? then OfferFound(Some(op.offer))
        else if op.PostOffer? && op.offer.partition == ref.0 && reply == Created(Some(ref.1)) then
          OfferFound(Some(op.offer))
        else if op == DeleteOffer(ref) then OfferFound(None)
        else ReadOffer(s, ref)
  {
  }

  lemma ReadMetadataAfterWrite(s: OfferState, op: Op, now: int, ref: Ref)
    ensures var (t, reply) := Apply(s, op, now);
      ReadMetadata(t, ref) ==
        if op.PutMetadata? && (op.details.partition, op.details.id) == ref then MetadataFound(Some(op.details))
        else if op.PostMetadata? && op.details.partition == ref.0 && reply == Created(Some(ref.1)) then
          MetadataFound(Some(op.details))
        else if op == DeleteMetadata(ref) && reply.Flag? then MetadataFound(None)
        else ReadMetadata(s, ref)
  {
  }

  /** How the replies of writes tell what was there to be read before. */
  lemma RepliesTell(s: OfferState, op: Op, now: int)
    ensures var reply := Apply(s, op, now).1;
      match op
      case PutOffer(o) =>
        if ReadMetadata(s, (o.partition, o.metadataId)) == MetadataFound(None) then reply == InvalidInput
        else reply == Flag(ReadOffer(s, (o.partition, o.id)) == OfferFound(None))
      case PostOffer(o) =>
        if ReadMetadata(s, (o.partition, o.metadataId)) == MetadataFound(None) then reply == InvalidInput
        else reply == Created(if ReadOffer(s, (o.partition, o.id)) == OfferFound(None) then Some(o.id) else None)
      case DeleteOffer(ref) => reply == Flag(ReadOffer(s, ref) != OfferFound(None))
      case PutMetadata(m) => reply == Flag(ReadMetadata(s, (m.partition, m.id)) == MetadataFound(None))
      case PostMetadata(m) =>
        reply == Created(if ReadMetadata(s, (m.partition, m.id)) == MetadataFound(None) then Some(m.id) else None)
      case DeleteMetadata(ref) =>
        if exists r :: r in s.offers && s.offers[r].value.partition == ref.0 && s.offers[r].value.metadataId == ref.1
        then reply == InvalidInput
        else reply == Flag(ReadMetadata(s, ref) != MetadataFound(None))
      case _ => true
  {
    if op.DeleteMetadata? {
      assert InUse(s, op.ref) <==> exists r ::
        r in s.offers && s.offers[r].value.partition == op.ref.0 && s.offers[r].value.metadataId == op.ref.1;
    }
  }

  /** Asking for a page gives the stretch asked for of the partition's records, oldest first. */
  lemma OfferPagesExactly(s: OfferState, partition: string, start: nat, count: nat, now: int)
    ensures var (t, reply) := Apply(s, GetOffers(partition, start, count), now);
      t == s && reply.OfferPage? && IsPage(reply.offers, Values(Shown(s.offers, partition)), start, count)
  {
    var l := Values(Shown(s.offers, partition));
    PageExactly(l, start, count);
    assert Apply(s, GetOffers(partition, start, count), now) == (s, OfferPage(Page(l, start, count)));
  }

  lemma MetadataPagesExactly(s: OfferState, partition: string, start: nat, count: nat, now: int)
    ensures var (t, reply) := Apply(s, GetAllMetadata(partition, start, count), now);
      t == s && reply.MetadataPage? && IsPage(reply.page, Values(Shown(s.metadata, partition)), start, count)
  {
    var l := Values(Shown(s.metadata, partition));
    PageExactly(l, start, count);
    assert Apply(s, GetAllMetadata(partition, start, count), now) == (s, MetadataPage(Page(l, start, count)));
  }

  /** The entries of a partition but for one record. */
  ghost function Others<T>(table: Table<T>, ref: Ref): set<Entry<Stamped<T>>> {
    EntriesIn(table, InPartition(table, ref.0) - {ref})
  }

  lemma StoredEntries<T>(table: Table<T>, ref: Ref, x: Stamped<T>)
    ensures var after := table[ref := x];
      EntriesIn(after, InPartition(after, ref.0)) == Others(table, ref) + {Entry(x.created, ref.1, x)}
  {
    var after, refs := table[ref := x], InPartition(table, ref.0) - {ref};
    assert InPartition(after, ref.0) == refs + {ref};
    assert EntriesIn(after, refs) == EntriesIn(table, refs);
    assert EntriesIn(after, refs + {ref}) == EntriesIn(after, refs) + {Entry(x.created, ref.1, x)};
  }

  /** Storing a record shows it where its time and id belong among the others of its partition, and last exactly when
      all others come before. */
  lemma StoredIsListed<T(!new)>(table: Table<T>, ref: Ref, x: Stamped<T>)
    ensures var others, listed := Arrange(Others(table, ref)), Shown(table[ref := x], ref.0);
      var e := Entry(x.created, ref.1, x);
      listed == Insert(e, others) && (listed == others + [e] <==> forall y | y in others :: Before(y, e))
  {
    var e, entries := Entry(x.created, ref.1, x), Others(table, ref);
    var others := Arrange(entries);
    StoredEntries(table, ref, x);
    assert DistinctIds(entries);
    forall y | y in others ensures y.id != e.id {
      assert y in entries;
    }
    InsertKeepsStrict(e, others);
    ListingIsUnique(Shown(table[ref := x], ref.0), Insert(e, others), entries + {e});
    LastExactly(others, entries, e);
  }

  lemma RemovedIsUnlisted<T(!new)>(table: Table<T>, ref: Ref)
    ensures Shown(table - {ref}, ref.0) == Arrange(Others(table, ref))
  {
    var after, refs := table - {ref}, InPartition(table, ref.0) - {ref};
    assert InPartition(after, ref.0) == refs;
    assert EntriesIn(after, refs) == EntriesIn(table, refs);
  }

  lemma StoredElsewhere<T(!new)>(table: Table<T>, ref: Ref, x: Stamped<T>, partition: string)
    requires partition != ref.0
    ensures Shown(table[ref := x], partition) == Shown(table, partition)
  {
    var refs := InPartition(table, partition);
    assert InPartition(table[ref := x], partition) == refs;
    assert EntriesIn(table[ref := x], refs) == EntriesIn(table, refs);
  }

  lemma RemovedElsewhere<T(!new)>(table: Table<T>, ref: Ref, partition: string)
    requires partition != ref.0
    ensures Shown(table - {ref}, partition) == Shown(table, partition)
  {
    var refs := InPartition(table, partition);
    assert InPartition(table - {ref}, partition) == refs;
    assert EntriesIn(table - {ref}, refs) == EntriesIn(table, refs);
  }

  /** What the replies of writes tell of the records they leave: an accepted put and an effective post leave theirs with
      the clock reading, a deletion without a complaint takes one away, and the rest stay with the times they had. */
  lemma OfferWritesStamp(s: OfferState, op: Op, now: int)
    ensures var (t, reply) := Apply(s, op, now);
      t.offers ==
        if (op.PutOffer? && reply.Flag?) || (op.PostOffer? && reply == Created(Some(op.offer.id))) then
          s.offers[(op.offer.partition, op.offer.id) := Stamped(now, op.offer)]
        else if op.DeleteOffer? then s.offers - {op.ref}
        else s.offers
  {
  }

  lemma MetadataWritesStamp(s: OfferState, op: Op, now: int)
    ensures var (t, reply) := Apply(s, op, now);
      t.metadata ==
        if op.PutMetadata? || (op.PostMetadata? && reply == Created(Some(op.details.id))) then
          s.metadata[(op.details.partition, op.details.id) := Stamped(now, op.details)]
        else if op.DeleteMetadata? && reply.Flag? then s.metadata - {op.ref}
        else s.metadata
  {
  }

  /** An accepted put, of a new offer or an old one, takes it out of its partition's listing and puts it in again where
      the clock reading says; so it shows last, and has lost its old place, exactly when all others are older, or as old
      with a smaller id. */
  lemma PutMovesByClock(s: OfferState, o: Offer, now: int)
    requires MetadataRef(o) in s.metadata
    ensures var others := Arrange(Others(s.offers, RefOf(o)));
      var listed := Shown(Apply(s, PutOffer(o), now).0.offers, o.partition);
      var e := Entry(now, o.id, Stamped(now, o));
      && listed == Insert(e, others)
      && (listed == others + [e] <==> forall x | x in others :: Before(x, e))
  {
    StoredIsListed(s.offers, RefOf(o), Stamped(now, o));
  }

  lemma LastExactly<T(!new)>(l: seq<Entry<T>>, others: set<Entry<T>>, e: Entry<T>)
    requires IsListing(l, others) && forall x | x in l :: x.id != e.id
    ensures Insert(e, l) == l + [e] <==> forall x | x in l :: Before(x, e)
  {
    InsertKeepsStrict(e, l);
    if forall x | x in l :: Before(x, e) {
      LatestGoesLast(l, others, e);
      ListingIsUnique(Insert(e, l), l + [e], others + {e});
    }
    if Insert(e, l) == l + [e] {
      forall x | x in l ensures Before(x, e) {
        var i :| 0 <= i < |l| && l[i] == x;
        assert Before((l + [e])[i], (l + [e])[|l|]);
      }
    }
  }

  /** Where integrity holds, a stored offer can be served in full, and that adds its metadata and changes no more. */
  lemma FullIffSparse(s: OfferState, ref: Ref)
    requires Integrity(s)
    ensures var sparse := Apply(s, GetOffer(ref, None), 0).1.offer;
      var full := Apply(s, GetOffer(ref, Some(false)), 0).1.offer;
      && (full.Some? <==> sparse.Some?)
      && (sparse.Some? ==>
            var m := MetadataRef(sparse.value);
            m in s.metadata && full.value == sparse.value.(metadata := Some(s.metadata[m].value.details)))
  {
  }

  /** Reading pages of any size until one is empty gives every record of the partition, once each, oldest first. */
  lemma PagesShowAll<T(!new)>(table: Table<T>, partition: string, count: nat)
    requires count > 0
    ensures var l := Shown(table, partition);
      && ReadPages(Values(l), 0, count) == Values(l)
      && |l| == |InPartition(table, partition)|
      && (forall r | r in table && r.0 == partition ::
            exists i :: 0 <= i < |l| && l[i].id == r.1 && Values(l)[i] == table[r].value)
      && (forall i, j | 0 <= i < j < |l| :: l[i].id != l[j].id && l[i].created <= l[j].created)
  {
    var l, refs := Shown(table, partition), InPartition(table, partition);
    PagesTile(Values(l), 0, count);
    forall r | r in refs ensures exists i :: 0 <= i < |l| && l[i].id == r.1 && Values(l)[i] == table[r].value {
      var e := Entry(table[r].created, r.1, table[r]);
      assert e in EntriesIn(table, refs) && e in l;
      var i :| 0 <= i < |l| && l[i] == e;
      assert Values(l)[i] == table[r].value;
    }
    forall i, j | 0 <= i < j < |l| ensures l[i].id != l[j].id && l[i].created <= l[j].created {
      assert Before(l[i], l[j]) && l[i] in EntriesIn(table, refs) && l[j] in EntriesIn(table, refs);
    }
    AsMany(table, partition, refs, l);
  }

  lemma {:induction false} AsMany<T(!new)>(table: Table<T>, partition: string, refs: set<Ref>,
                                           l: seq<Entry<Stamped<T>>>)
    requires refs <= InPartition(table, partition) && IsListing(l, EntriesIn(table, refs))
    ensures |l| == |refs|
  {
    EmptyListing(l, EntriesIn(table, refs));
    if refs == {} {
      assert EntriesIn(table, refs) == {};
    } else {
      var some :| some in refs;
      assert Entry(table[some].created, some.1, table[some]) in EntriesIn(table, refs);
      assert l[0] in EntriesIn(table, refs);
      var r :| r in refs && l[0] == Entry(table[r].created, r.1, table[r]);
      DropHead(l, EntriesIn(table, refs));
      assert EntriesIn(table, refs - {r}) == EntriesIn(table, refs) - {l[0]};
      AsMany(table, partition, refs - {r}, l[1..]);
    }
  }
}
