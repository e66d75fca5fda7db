/** Listings ordered by (creation time, id), as every store of the program produces them, and their pages. */
module Listing {

  datatype Entry<T> = Entry(created: int, id: nat, value: T)

  predicate Before<T>(a: Entry<T>, b: Entry<T>) {
    a.created < b.created || (a.created == b.created && a.id < b.id)
  }

  predicate Strict<T>(l: seq<Entry<T>>) {
    forall i, j | 0 <= i < j < |l| :: Before(l[i], l[j])
  }

  ghost predicate DistinctIds<T(!new)>(entries: set<Entry<T>>) {
    forall a, b | a in entries && b in entries && a.id == b.id :: a == b
  }

  /** `l` shows exactly `entries`, each once, oldest first and by id among equals. */
  ghost predicate IsListing<T(!new)>(l: seq<Entry<T>>, entries: set<Entry<T>>) {
    Strict(l) && forall e :: e in l <==> e in entries
  }

  function Insert<T>(e: Entry<T>, l: seq<Entry<T>>): seq<Entry<T>> {
    if l == [] || Before(e, l[0]) then [e] + l else [l[0]] + Insert(e, l[1..])
  }

  function Sort<T>(l: seq<Entry<T>>): seq<Entry<T>> {
    if l == [] then [] else Insert(l[0], Sort(l[1..]))
  }

  lemma {:induction false} InsertKeepsStrict<T(!new)>(e: Entry<T>, l: seq<Entry<T>>)
    requires Strict(l)
    requires forall x | x in l :: x.id != e.id
    ensures Strict(Insert(e, l))
    ensures forall x :: x in Insert(e, l) <==> x == e || x in l
  {
    if l == [] || Before(e, l[0]) {
      var r := [e] + l;
      assert Insert(e, l) == r;
      forall i, j | 0 <= i < j < |r| ensures Before(r[i], r[j]) {
        if i == 0 && j > 1 {
          assert Before(l[0], l[j - 1]);
        }
      }
      assert forall x :: x in r <==> x == e || x in l;
    } else {
      InsertKeepsStrict(e, l[1..]);
      var t := Insert(e, l[1..]);
      assert l[0] in l;
      assert l == [l[0]] + l[1..];
      forall x | x in t ensures Before(l[0], x) {
        if x != e {
          assert x in l[1..];
        }
      }
    }
  }

  lemma {:induction false} SortIsListing<T(!new)>(s: seq<Entry<T>>, entries: set<Entry<T>>)
    requires multiset(s) == multiset(entries)
    requires DistinctIds(entries)
    ensures IsListing(Sort(s), entries)
  {
    if s == [] {
      forall e ensures e !in entries {
        assert multiset(entries)[e] == 0;
      }
    } else {
      var e, rest := s[0], entries - {s[0]};
      assert s == [e] + s[1..];
      assert multiset(s) == multiset{e} + multiset(s[1..]);
      assert multiset(entries)[e] >= 1;
      assert multiset(entries) == multiset(rest) + multiset{e};
      assert multiset(s[1..]) == multiset(s) - multiset{e} == multiset(rest);
      SortIsListing(s[1..], rest);
      InsertKeepsStrict(e, Sort(s[1..]));
    }
  }

  lemma {:induction false} ListingIsUnique<T(!new)>(l: seq<Entry<T>>, r: seq<Entry<T>>, entries: set<Entry<T>>)
    requires IsListing(l, entries) && IsListing(r, entries)
    ensures l == r
  {
    EmptyListing(l, entries);
    EmptyListing(r, entries);
    if l != [] {
      assert l[0] in r;
      assert r[0] in l;
      var rest := entries - {l[0]};
      DropHead(l, entries);
      DropHead(r, entries);
      ListingIsUnique(l[1..], r[1..], rest);
    }
  }

  lemma EmptyListing<T(!new)>(l: seq<Entry<T>>, entries: set<Entry<T>>)
    requires IsListing(l, entries)
    ensures l == [] <==> entries == {}
  {
    if l != [] {
      assert l[0] in entries;
    }
  }

  lemma DropHead<T(!new)>(l: seq<Entry<T>>, entries: set<Entry<T>>)
    requires IsListing(l, entries) && l != []
    ensures IsListing(l[1..], entries - {l[0]})
  {
    forall e ensures e in l[1..] <==> e in entries - {l[0]} {
      assert e in l <==> e == l[0] || e in l[1..];
    }
  }

  /** Whatever order the entries are enumerated in, sorting them gives one and the same listing. */
  lemma SortIsCanonical<T(!new)>(s: seq<Entry<T>>, t: seq<Entry<T>>, entries: set<Entry<T>>)
    requires multiset(s) == multiset(entries) == multiset(t)
    requires DistinctIds(entries)
    ensures Sort(s) == Sort(t)
    ensures IsListing(Sort(s), entries)
  {
    SortIsListing(s, entries);
    SortIsListing(t, entries);
    ListingIsUnique(Sort(s), Sort(t), entries);
  }

  ghost function Enumerate<T(!new)>(entries: set<Entry<T>>): (s: seq<Entry<T>>)
    ensures multiset(s) == multiset(entries)
  {
    if entries == {} then []
    else
      var e :| e in entries;
      [e] + Enumerate(entries - {e})
  }

  /** The listing of a set of entries; unique by `ListingIsUnique`. */
  ghost function Arrange<T(!new)>(entries: set<Entry<T>>): (l: seq<Entry<T>>)
    ensures DistinctIds(entries) ==> IsListing(l, entries)
  {
    var s := Enumerate(entries);
    if DistinctIds(entries) then
      SortIsListing(s, entries);
      Sort(s)
    else Sort(s)
  }

  /** Replacing one entry by another with the same time and id keeps every position. */
  lemma ReplaceKeepsPlaces<T(!new)>(entries: set<Entry<T>>, i: nat, e: Entry<T>)
    requires DistinctIds(entries)
    requires i < |Arrange(entries)|
    requires e.created == Arrange(entries)[i].created && e.id == Arrange(entries)[i].id
    ensures DistinctIds(entries - {Arrange(entries)[i]} + {e})
    ensures Arrange(entries - {Arrange(entries)[i]} + {e}) == Arrange(entries)[i := e]
  {
    var l := Arrange(entries);
    var after := entries - {l[i]} + {e};
    assert l[i] in l;
    assert DistinctIds(after);
    forall x ensures x in l[i := e] <==> x in after {
      if x in after && x != e {
        var j :| 0 <= j < |l| && l[j] == x;
        assert l[i := e][j] == x;
      }
      assert l[i := e][i] == e;
      if x in l[i := e] && x != e {
        var j :| 0 <= j < |l| && l[i := e][j] == x;
        assert l[j] == x && j != i;
        assert i < j ==> Before(l[i], l[j]);
        assert j < i ==> Before(l[j], l[i]);
      }
    }
    ListingIsUnique(Arrange(after), l[i := e], after);
  }

  /** An entry that comes after all others goes to the end. */
  lemma LatestGoesLast<T(!new)>(l: seq<Entry<T>>, others: set<Entry<T>>, e: Entry<T>)
    requires IsListing(l, others) && forall x | x in others :: Before(x, e)
    ensures IsListing(l + [e], others + {e})
  {
    var r := l + [e];
    forall i, j | 0 <= i < j < |r| ensures Before(r[i], r[j]) {
      assert r[i] == l[i] && l[i] in others;
    }
  }

  /** Removing an entry keeps the relative order of the others. */
  lemma RemoveKeepsOrder<T(!new)>(entries: set<Entry<T>>, i: nat)
    requires DistinctIds(entries)
    requires i < |Arrange(entries)|
    ensures Arrange(entries - {Arrange(entries)[i]}) == Arrange(entries)[..i] + Arrange(entries)[i + 1..]
  {
    var l := Arrange(entries);
    var r, after := l[..i] + l[i + 1..], entries - {l[i]};
    assert l[i] in l;
    forall a, b | 0 <= a < b < |r| ensures Before(r[a], r[b]) {
      PlacesFollowOrder(l, if a < i then a else a + 1, if b < i then b else b + 1);
    }
    forall x ensures x in r <==> x in after {
      assert x in l <==> x == l[i] || x in r by {
        assert l == l[..i] + [l[i]] + l[i + 1..];
      }
      assert l[i] !in r by {
        NotTwice(l, i);
      }
    }
    ListingIsUnique(Arrange(after), r, after);
  }

  lemma NotTwice<T>(l: seq<Entry<T>>, i: nat)
    requires Strict(l) && i < |l|
    ensures l[i] !in l[..i] && l[i] !in l[i + 1..]
  {
    forall j | 0 <= j < |l| && j != i ensures l[j] != l[i] {
      PlacesFollowOrder(l, i, j);
      PlacesFollowOrder(l, j, i);
    }
  }

  function Retimed<T>(e: Entry<T>, f: int -> int): Entry<T> {
    e.(created := f(e.created))
  }

  ghost function RetimedSet<T>(entries: set<Entry<T>>, f: int -> int): set<Entry<T>> {
    set e | e in entries :: Retimed(e, f)
  }

  function Ids<T>(l: seq<Entry<T>>): seq<nat> {
    seq(|l|, i requires 0 <= i < |l| => l[i].id)
  }

  /** `f` merges the times of two entries whose ids are the other way round. */
  ghost predicate Inverts<T(!new)>(entries: set<Entry<T>>, f: int -> int) {
    exists a, b :: a in entries && b in entries && a.created < b.created && f(a.created) == f(b.created) && b.id < a.id
  }

  ghost predicate Monotone(f: int -> int) {
    forall a, b {:trigger f(a), f(b)} | a <= b :: f(a) <= f(b)
  }

  lemma RetimedKeepsOrder<T(!new)>(entries: set<Entry<T>>, f: int -> int)
    requires DistinctIds(entries) && Monotone(f) && !Inverts(entries, f)
    ensures DistinctIds(RetimedSet(entries, f))
    ensures var l, r := Arrange(entries), Arrange(RetimedSet(entries, f));
      |l| == |r| && forall i | 0 <= i < |l| :: r[i] == Retimed(l[i], f)
  {
    var l, after := Arrange(entries), RetimedSet(entries, f);
    var r := seq(|l|, i requires 0 <= i < |l| => Retimed(l[i], f));
    RetimedListing(l, r, entries, f);
    ListingIsUnique(r, Arrange(after), after);
  }

  lemma RetimedListing<T(!new)>(l: seq<Entry<T>>, r: seq<Entry<T>>, entries: set<Entry<T>>, f: int -> int)
    requires IsListing(l, entries) && DistinctIds(entries) && Monotone(f) && !Inverts(entries, f)
    requires |l| == |r| && forall i | 0 <= i < |l| :: r[i] == Retimed(l[i], f)
    ensures IsListing(r, RetimedSet(entries, f))
  {
    forall i, j | 0 <= i < j < |r| ensures Before(r[i], r[j]) {
      assert Before(l[i], l[j]) && l[i] in entries && l[j] in entries;
      assert f(l[i].created) == r[i].created && f(l[j].created) == r[j].created;
    }
    forall e ensures e in r <==> e in RetimedSet(entries, f) {
      if e in r {
        var i :| 0 <= i < |r| && r[i] == e;
        assert l[i] in entries;
      }
      if e in RetimedSet(entries, f) {
        var x :| x in entries && e == Retimed(x, f);
        assert x in l;
        var i :| 0 <= i < |l| && l[i] == x;
        assert r[i] == e;
      }
    }
  }

  lemma RetimedSwaps<T(!new)>(entries: set<Entry<T>>, f: int -> int, a: Entry<T>, b: Entry<T>)
    requires DistinctIds(entries) && DistinctIds(RetimedSet(entries, f))
    requires a in entries && b in entries && a.created < b.created && f(a.created) == f(b.created) && b.id < a.id
    ensures Ids(Arrange(entries)) != Ids(Arrange(RetimedSet(entries, f)))
  {
    var l, r := Arrange(entries), Arrange(RetimedSet(entries, f));
    var i := Place(l, entries, a);
    var j := Place(l, entries, b);
    var m := Place(r, RetimedSet(entries, f), Retimed(a, f));
    var n := Place(r, RetimedSet(entries, f), Retimed(b, f));
    PlacesFollowOrder(l, i, j);
    PlacesFollowOrder(r, n, m);
    assert i < j && n < m;
    assert Ids(l)[i] == a.id && Ids(l)[j] == b.id && Ids(r)[n] == b.id && Ids(r)[m] == a.id;
    IdsDiffer(r, RetimedSet(entries, f));
  }

  lemma Place<T(!new)>(l: seq<Entry<T>>, entries: set<Entry<T>>, e: Entry<T>) returns (i: nat)
    requires IsListing(l, entries) && e in entries
    ensures i < |l| && l[i] == e
  {
    assert e in l;
    i :| 0 <= i < |l| && l[i] == e;
  }

  lemma PlacesFollowOrder<T>(l: seq<Entry<T>>, i: nat, j: nat)
    requires Strict(l) && i < |l| && j < |l|
    ensures i < j <==> Before(l[i], l[j])
  {
    assert j < i ==> Before(l[j], l[i]);
  }

  lemma IdsDiffer<T(!new)>(l: seq<Entry<T>>, entries: set<Entry<T>>)
    requires IsListing(l, entries) && DistinctIds(entries)
    ensures forall i, j | 0 <= i < |l| && 0 <= j < |l| :: Ids(l)[i] == Ids(l)[j] ==> i == j
  {
    forall i, j | 0 <= i < |l| && 0 <= j < |l| && Ids(l)[i] == Ids(l)[j] ensures i == j {
      assert l[i] in entries && l[j] in entries;
      PlacesFollowOrder(l, i, j);
      PlacesFollowOrder(l, j, i);
    }
  }

  /** Coarser times leave the order of a listing alone exactly when they cause no inversion. */
  lemma RetimingExactly<T(!new)>(entries: set<Entry<T>>, f: int -> int)
    requires DistinctIds(entries) && DistinctIds(RetimedSet(entries, f)) && Monotone(f)
    ensures Ids(Arrange(entries)) == Ids(Arrange(RetimedSet(entries, f))) <==> !Inverts(entries, f)
  {
    if Inverts(entries, f) {
      var a, b :| a in entries && b in entries && a.created < b.created && f(a.created) == f(b.created) && b.id < a.id;
      RetimedSwaps(entries, f, a, b);
    } else {
      RetimedKeepsOrder(entries, f);
    }
  }

  /** One page: skip `start` entries, take `count`. */
  function Page<T>(l: seq<T>, start: nat, count: nat): seq<T> {
    var from := if start < |l| then start else |l|;
    var to := if start + count < |l| then start + count else |l|;
    l[from..to]
  }

  /** `count` elements from `start` on, or what there is of them. */
  ghost predicate IsPage<T>(page: seq<T>, l: seq<T>, start: nat, count: nat) {
    && |page| == (if start >= |l| then 0 else if count < |l| - start then count else |l| - start)
    && forall i | 0 <= i < |page| :: page[i] == l[start + i]
  }

  lemma PageExactly<T>(l: seq<T>, start: nat, count: nat)
    ensures IsPage(Page(l, start, count), l, start, count)
  {
  }

  /** The pages a client reads one after the other until it gets an empty one. */
  function ReadPages<T>(l: seq<T>, start: nat, count: nat): seq<T>
    requires count > 0
    decreases if start < |l| then |l| - start else 0
  {
    if Page(l, start, count) == [] then [] else Page(l, start, count) + ReadPages(l, start + count, count)
  }

  lemma {:induction false} PagesTile<T>(l: seq<T>, start: nat, count: nat)
    requires count > 0
    ensures ReadPages(l, start, count) == if start < |l| then l[start..] else []
    decreases if start < |l| then |l| - start else 0
  {
    if start < |l| {
      PagesTile(l, start + count, count);
      var to := if start + count < |l| then start + count else |l|;
      assert l[start..] == l[start..to] + l[to..];
    }
  }
}
