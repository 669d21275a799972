/**
 * Table-shaped sequences: lookup by id (`ctx.db.get`), removal by id
 * (`ctx.db.delete`), and the stable sort that gives an index's order.
 */
module Seqs {
  import opened Wrappers
  import opened Validation

  /** No two different rows of the table carry the same id. */
  ghost predicate KeyedById<T(!new)>(rows: seq<T>, idOf: T -> Id)
  {
    forall x, y :: x in rows && y in rows && idOf(x) == idOf(y) ==> x == y
  }

  /** Every id in the table is below `bound`, so `bound` is still free. */
  ghost predicate IdsBelow<T>(rows: seq<T>, idOf: T -> Id, bound: Id)
  {
    forall x :: x in rows ==> idOf(x) < bound
  }

  /** `ctx.db.get`: the first row with that id, if any. */
  function Lookup<T(==,!new)>(rows: seq<T>, idOf: T -> Id, id: Id): (r: Option<T>)
    ensures r.Some? ==> r.value in rows && idOf(r.value) == id
    ensures r.None? <==> forall x :: x in rows ==> idOf(x) != id
  {
    if rows == [] then None
    else if idOf(rows[0]) == id then Some(rows[0])
    else Lookup(rows[1..], idOf, id)
  }

  /** In a table keyed by id, the row found is the only one with that id. */
  lemma LookupKeyed<T(!new)>(rows: seq<T>, idOf: T -> Id, x: T)
    requires KeyedById(rows, idOf) && x in rows
    ensures Lookup(rows, idOf, idOf(x)) == Some(x)
  {
  }

  /** Appending a row changes a lookup only for an id no earlier row carries. */
  lemma {:induction false} LookupAppend<T(!new)>(rows: seq<T>, idOf: T -> Id, x: T, id: Id)
    ensures Lookup(rows + [x], idOf, id) ==
              if Lookup(rows, idOf, id).Some? then Lookup(rows, idOf, id)
              else if idOf(x) == id then Some(x) else None
    decreases |rows|
  {
    if rows != [] {
      assert (rows + [x])[1..] == rows[1..] + [x];
      LookupAppend(rows[1..], idOf, x, id);
    }
  }

  /** The ids of some rows. */
  function IdSet<T(==,!new)>(rows: seq<T>, idOf: T -> Id): (ids: set<Id>)
    ensures forall x :: x in rows ==> idOf(x) in ids
    ensures forall id :: id in ids ==> exists x :: x in rows && idOf(x) == id
  {
    set x | x in rows :: idOf(x)
  }

  /** The ids of some rows, in their order. */
  function IdList<T>(rows: seq<T>, idOf: T -> Id): (ids: seq<Id>)
    ensures |ids| == |rows|
    ensures forall i :: 0 <= i < |rows| ==> ids[i] == idOf(rows[i])
  {
    seq(|rows|, i requires 0 <= i < |rows| => idOf(rows[i]))
  }

  /** The ids of a prefix one row longer end in that row's id. */
  lemma IdListSnoc<T>(rows: seq<T>, idOf: T -> Id, i: nat)
    requires i < |rows|
    ensures IdList(rows[..i + 1], idOf) == IdList(rows[..i], idOf) + [idOf(rows[i])]
  {
    assert IdList(rows[..i + 1], idOf)[i] == idOf(rows[i]);
  }

  /** An id is listed exactly when some row carries it. */
  lemma IdListMembers<T>(rows: seq<T>, idOf: T -> Id)
    ensures forall id :: id in IdList(rows, idOf) <==> exists x :: x in rows && idOf(x) == id
  {
    forall id | id in IdList(rows, idOf)
      ensures exists x :: x in rows && idOf(x) == id
    {
      var i :| 0 <= i < |rows| && IdList(rows, idOf)[i] == id;
      assert rows[i] in rows;
    }
    forall id | exists x :: x in rows && idOf(x) == id
      ensures id in IdList(rows, idOf)
    {
      var x :| x in rows && idOf(x) == id;
      var i :| 0 <= i < |rows| && rows[i] == x;
      assert IdList(rows, idOf)[i] == id;
    }
  }

  /** The table after deleting every row whose id is in `gone`, the rest in order. */
  function Without<T(==,!new)>(rows: seq<T>, idOf: T -> Id, gone: set<Id>): (r: seq<T>)
    ensures forall x :: x in r <==> x in rows && idOf(x) !in gone
    ensures |r| <= |rows|
  {
    if rows == [] then []
    else if idOf(rows[0]) in gone then Without(rows[1..], idOf, gone)
    else [rows[0]] + Without(rows[1..], idOf, gone)
  }

  /** Deleting one set of ids and then another is deleting their union. */
  lemma {:induction false} WithoutWithout<T(!new)>(rows: seq<T>, idOf: T -> Id, a: set<Id>, b: set<Id>)
    ensures Without(Without(rows, idOf, a), idOf, b) == Without(rows, idOf, a + b)
    decreases |rows|
  {
    if rows != [] {
      WithoutWithout(rows[1..], idOf, a, b);
      if idOf(rows[0]) !in a {
        assert Without(rows, idOf, a) == [rows[0]] + Without(rows[1..], idOf, a);
        assert Without(rows, idOf, a)[1..] == Without(rows[1..], idOf, a);
      }
    }
  }

  /** Deleting ids no row carries changes nothing. */
  lemma {:induction false} WithoutNothing<T(!new)>(rows: seq<T>, idOf: T -> Id, gone: set<Id>)
    requires forall x :: x in rows ==> idOf(x) !in gone
    ensures Without(rows, idOf, gone) == rows
    decreases |rows|
  {
    if rows != [] {
      WithoutNothing(rows[1..], idOf, gone);
    }
  }

  /** Ids of a prefix grow by one id per row. */
  lemma IdSetSnoc<T(!new)>(rows: seq<T>, idOf: T -> Id, i: nat)
    requires i < |rows|
    ensures IdSet(rows[..i + 1], idOf) == IdSet(rows[..i], idOf) + {idOf(rows[i])}
  {
    assert rows[..i + 1] == rows[..i] + [rows[i]];
  }

  /** Deleting rows keeps the table keyed by id and its ids bounded. */
  lemma WithoutKeeps<T(!new)>(rows: seq<T>, idOf: T -> Id, gone: set<Id>, bound: Id)
    requires KeyedById(rows, idOf) && IdsBelow(rows, idOf, bound)
    ensures KeyedById(Without(rows, idOf, gone), idOf) && IdsBelow(Without(rows, idOf, gone), idOf, bound)
  {
  }

  /** Deleting the ids of some listed rows removes exactly those rows from a table keyed by id. */
  lemma WithoutListed<T(!new)>(rows: seq<T>, idOf: T -> Id, listed: seq<T>)
    requires KeyedById(rows, idOf)
    requires forall x :: x in listed ==> x in rows
    ensures forall x :: x in Without(rows, idOf, IdSet(listed, idOf)) <==> x in rows && x !in listed
  {
  }

  /** The order an index gives: the key never decreases along the sequence. */
  predicate SortedBy<T>(s: seq<T>, key: T -> nat)
  {
    forall i, j :: 0 <= i < j < |s| ==> key(s[i]) <= key(s[j])
  }

  /** Put `x` before the first element whose key is not below its own. */
  function InsertBy<T(==)>(x: T, s: seq<T>, key: T -> nat): (r: seq<T>)
    ensures multiset(r) == multiset(s) + multiset{x}
    ensures |r| == |s| + 1
  {
    if s == [] then [x]
    else if key(x) <= key(s[0]) then [x] + s
    else
      assert s == [s[0]] + s[1..];
      [s[0]] + InsertBy(x, s[1..], key)
  }

  /** Inserting into a sorted sequence keeps it sorted. */
  lemma {:induction false} InsertBySorted<T>(x: T, s: seq<T>, key: T -> nat)
    requires SortedBy(s, key)
    ensures SortedBy(InsertBy(x, s, key), key)
    decreases |s|
  {
    if s != [] && key(x) > key(s[0]) {
      var rest := InsertBy(x, s[1..], key);
      InsertBySorted(x, s[1..], key);
      forall k | 0 <= k < |rest| ensures key(s[0]) <= key(rest[k]) {
        assert rest[k] in multiset(rest);
        if rest[k] != x {
          assert rest[k] in multiset(s[1..]);
          assert rest[k] in s[1..];
        }
      }
    }
  }

  /**
   * Insertion sort by key. An element is inserted before equal keys only
   * when it came earlier, so ties keep their table (creation) order.
   */
  function SortBy<T(==)>(s: seq<T>, key: T -> nat): (r: seq<T>)
    ensures multiset(r) == multiset(s)
    ensures |r| == |s|
    ensures SortedBy(r, key)
  {
    if s == [] then []
    else
      assert s == [s[0]] + s[1..];
      InsertBySorted(s[0], SortBy(s[1..], key), key);
      InsertBy(s[0], SortBy(s[1..], key), key)
  }

  /** An element is in the sorted sequence exactly when it is in the input. */
  lemma SortByMembers<T>(s: seq<T>, key: T -> nat)
    ensures forall x :: x in SortBy(s, key) <==> x in s
  {
    var r := SortBy(s, key);
    forall x ensures x in r <==> x in s {
      assert x in r <==> x in multiset(r);
      assert x in s <==> x in multiset(s);
    }
  }

  /** The elements that satisfy `p`, in their order: a `.filter` or an equality scan of an index. */
  function Filter<T(==,!new)>(s: seq<T>, p: T -> bool): (r: seq<T>)
    ensures forall x :: x in r <==> x in s && p(x)
    ensures |r| <= |s|
  {
    if s == [] then []
    else if p(s[0]) then [s[0]] + Filter(s[1..], p)
    else Filter(s[1..], p)
  }

  /** Filtering a sequence one element longer adds that element when it qualifies. */
  lemma {:induction false} FilterSnoc<T(!new)>(s: seq<T>, x: T, p: T -> bool)
    ensures Filter(s + [x], p) == Filter(s, p) + (if p(x) then [x] else [])
    decreases |s|
  {
    if s != [] {
      assert (s + [x])[1..] == s[1..] + [x];
      FilterSnoc(s[1..], x, p);
    }
  }

  /** `.first()` of a scan: the earliest element that satisfies `p`. */
  function First<T(==,!new)>(s: seq<T>, p: T -> bool): (r: Option<T>)
    ensures r.Some? ==> r.value in s && p(r.value)
    ensures r.None? <==> forall x :: x in s ==> !p(x)
    ensures r.Some? <==> Filter(s, p) != []
    ensures r.Some? ==> r.value == Filter(s, p)[0]
    ensures r.Some? ==> exists i :: 0 <= i < |s| && s[i] == r.value && forall j :: 0 <= j < i ==> !p(s[j])
  {
    if s == [] then None
    else if p(s[0]) then Some(s[0])
    else First(s[1..], p)
  }

  /** Once an element satisfying `p` is found, elements appended later are never looked at. */
  lemma {:induction false} FirstIgnoresLater<T(!new)>(s: seq<T>, later: seq<T>, p: T -> bool)
    requires First(s, p).Some?
    ensures First(s + later, p) == First(s, p)
    decreases |s|
  {
    assert (s + later)[0] == s[0];
    if !p(s[0]) {
      assert (s + later)[1..] == s[1..] + later;
      FirstIgnoresLater(s[1..], later, p);
    }
  }

  /** `ctx.db.patch`: every row with that id is replaced by `f` of itself; the others and the order stay. */
  function Update<T>(rows: seq<T>, idOf: T -> Id, id: Id, f: T -> T): (r: seq<T>)
    ensures |r| == |rows|
    ensures forall i :: 0 <= i < |rows| ==> r[i] == if idOf(rows[i]) == id then f(rows[i]) else rows[i]
  {
    seq(|rows|, i requires 0 <= i < |rows| => if idOf(rows[i]) == id then f(rows[i]) else rows[i])
  }

  /** Every position of the table carries its own id: a table can never hold one document twice. */
  ghost predicate DistinctIds<T>(rows: seq<T>, idOf: T -> Id)
  {
    forall i, j :: 0 <= i < j < |rows| ==> idOf(rows[i]) != idOf(rows[j])
  }

  /** A scan of a table whose ids are distinct yields distinct ids. */
  lemma {:induction false} FilterDistinct<T(!new)>(s: seq<T>, p: T -> bool, idOf: T -> Id)
    requires DistinctIds(s, idOf)
    ensures DistinctIds(Filter(s, p), idOf)
    decreases |s|
  {
    if s != [] {
      FilterDistinct(s[1..], p, idOf);
      if p(s[0]) {
        var r := Filter(s, p);
        assert r == [s[0]] + Filter(s[1..], p);
        forall j | 1 <= j < |r| ensures idOf(r[0]) != idOf(r[j]) {
          assert r[j] in Filter(s[1..], p);
          var k :| 0 <= k < |s[1..]| && s[1..][k] == r[j];
          assert s[k + 1] == r[j];
        }
      }
    }
  }

  /** Deleting a set of ids that covers every row of a table empties it. */
  lemma {:induction false} WithoutAll<T(!new)>(rows: seq<T>, idOf: T -> Id, gone: set<Id>)
    requires forall x :: x in rows ==> idOf(x) in gone
    ensures Without(rows, idOf, gone) == []
    decreases |rows|
  {
    if rows != [] {
      assert rows[0] in rows;
      WithoutAll(rows[1..], idOf, gone);
    }
  }
}
