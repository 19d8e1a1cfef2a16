/** The two keyset orders over feature requests, and what filter, ORDER BY and LIMIT make of a table. */
module Keyset {
  import opened Wrappers

  /** A stored row as listings see it; createdAt is in microseconds, the resolution of TIMESTAMPTZ. */
  datatype Item = Item(id: nat, createdAt: int, votes: int)

  type Table = set<Item>

  /** id is the primary key. */
  ghost predicate Keyed(t: Table) {
    forall x, y :: x in t && y in t && x.id == y.id ==> x == y
  }

  datatype Order = ByTop | ByNew

  /** The row comparison (vote_count, created_at, id) < (..) or (created_at, id) < (..). */
  predicate Less(order: Order, a: Item, b: Item) {
    || (order.ByTop? && a.votes < b.votes)
    || ((order.ByTop? ==> a.votes == b.votes) && a.createdAt < b.createdAt)
    || ((order.ByTop? ==> a.votes == b.votes) && a.createdAt == b.createdAt && a.id < b.id)
  }

  /** Neither is below the other: the columns the order looks at agree. */
  predicate SameKey(order: Order, a: Item, b: Item) {
    (order.ByTop? ==> a.votes == b.votes) && a.createdAt == b.createdAt && a.id == b.id
  }

  predicate Under(order: Order, x: Item, bound: Option<Item>) {
    bound.Some? ==> Less(order, x, bound.value)
  }

  /** WHERE (..) < (..), or no condition. */
  function Filter(order: Order, t: Table, bound: Option<Item>): Table {
    set x | x in t && Under(order, x, bound)
  }

  predicate IsMax(order: Order, t: Table, m: Item) {
    m in t && forall x :: x in t ==> x == m || Less(order, x, m)
  }

  lemma {:induction false} MaxExists(order: Order, t: Table)
    requires Keyed(t) && t != {}
    ensures exists m :: IsMax(order, t, m)
  {
    var x :| x in t;
    var rest := t - {x};
    if rest == {} {
      assert t == {x};
      assert IsMax(order, t, x);
    } else {
      MaxExists(order, rest);
      var m :| IsMax(order, rest, m);
      assert m.id != x.id && forall y :: y in t ==> y == x || y in rest;
      if Less(order, m, x) {
        assert IsMax(order, t, x);
      } else {
        assert IsMax(order, t, m);
      }
    }
  }

  /** The whole table in descending order. */
  function Desc(order: Order, t: Table): (s: seq<Item>)
    requires Keyed(t)
  {
    if t == {} then []
    else
      MaxExists(order, t);
      var m :| IsMax(order, t, m);
      [m] + Desc(order, t - {m})
  }

  ghost predicate Descending(order: Order, s: seq<Item>) {
    forall i, j :: 0 <= i < j < |s| ==> Less(order, s[j], s[i])
  }

  /** Desc is a descending enumeration of the table, each row once. */
  lemma {:induction false} DescSorts(order: Order, t: Table)
    requires Keyed(t)
    ensures Descending(order, Desc(order, t)) && |Desc(order, t)| == |t|
    ensures forall x :: x in Desc(order, t) <==> x in t
    decreases t
  {
    if t != {} {
      var s := Desc(order, t);
      assert IsMax(order, t, s[0]) && s[1..] == Desc(order, t - {s[0]});
      DescSorts(order, t - {s[0]});
      assert s == [s[0]] + s[1..];
    }
  }

  /** What is left of a descending enumeration without its first row. */
  lemma TailEnumerates(order: Order, t: Table, s: seq<Item>)
    requires s != [] && Descending(order, s) && forall x :: x in s <==> x in t
    ensures IsMax(order, t, s[0]) && Descending(order, s[1..])
    ensures forall x :: x in s[1..] <==> x in t - {s[0]}
  {
    assert !Less(order, s[0], s[0]);
    hide Less;
    var rest := s[1..];
    assert s == [s[0]] + rest;
    assert forall i {:trigger rest[i]} :: 0 <= i < |rest| ==> rest[i] == s[i + 1] && Less(order, s[i + 1], s[0]);
    assert s[0] in t;
  }

  lemma MaxIsUnique(order: Order, t: Table, x: Item, y: Item)
    requires IsMax(order, t, x) && IsMax(order, t, y)
    ensures x == y
  {
  }

  /** There is only one way to enumerate a table in descending order. */
  lemma {:induction false} DescIsUnique(order: Order, t: Table, s: seq<Item>)
    requires Keyed(t) && Descending(order, s) && forall x :: x in s <==> x in t
    ensures s == Desc(order, t)
    decreases t
  {
    hide Less, Descending;
    if s == [] {
      assert t == {};
    } else {
      TailEnumerates(order, t, s);
      var d := Desc(order, t);
      assert IsMax(order, t, d[0]) && d[1..] == Desc(order, t - {d[0]});
      MaxIsUnique(order, t, s[0], d[0]);
      DescIsUnique(order, t - {d[0]}, s[1..]);
      assert s == [s[0]] + s[1..];
    }
  }

  function Take(s: seq<Item>, n: nat): seq<Item> {
    if |s| <= n then s else s[..n]
  }

  /** SELECT .. WHERE key < bound ORDER BY key DESC LIMIT n. */
  function Query(order: Order, t: Table, bound: Option<Item>, n: nat): seq<Item>
    requires Keyed(t)
  {
    Take(Desc(order, Filter(order, t, bound)), n)
  }

  lemma TakeKeepsTop(order: Order, d: seq<Item>, n: nat)
    requires Descending(order, d)
    ensures var q := Take(d, n);
      && Descending(order, q)
      && (forall x :: x in q ==> x in d)
      && (forall x :: x in d && x !in q ==> |q| == n && forall y :: y in q ==> Less(order, x, y))
  {
    var q := Take(d, n);
    assert forall i {:trigger q[i]} {:trigger d[i]} :: 0 <= i < |q| ==> q[i] == d[i] && d[i] in q;
    forall x | x in d && x !in q
      ensures |q| == n && forall y :: y in q ==> Less(order, x, y)
    {
      var j :| 0 <= j < |d| && d[j] == x;
    }
  }

  /** A query returns rows of the table below the bound, in order, and leaves out only rows below those it returns. */
  lemma QueryMeaning(order: Order, t: Table, bound: Option<Item>, n: nat)
    requires Keyed(t)
    ensures var q := Query(order, t, bound, n);
      && Descending(order, q)
      && |q| == (if |Filter(order, t, bound)| <= n then |Filter(order, t, bound)| else n)
      && (forall x :: x in q ==> x in t && Under(order, x, bound))
      && (forall x :: x in t && Under(order, x, bound) && x !in q ==>
            |q| == n && forall y :: y in q ==> Less(order, x, y))
  {
    var f := Filter(order, t, bound);
    DescSorts(order, f);
    TakeKeepsTop(order, Desc(order, f), n);
  }

  /** The newest-first query in terms of the columns. */
  lemma QueryByNew(t: Table, bound: Option<Item>, n: nat)
    requires Keyed(t)
    ensures var q := Query(ByNew, t, bound, n);
      && (forall x :: x in q ==> x in t && (bound.Some? ==>
            x.createdAt < bound.value.createdAt || (x.createdAt == bound.value.createdAt && x.id < bound.value.id)))
      && (forall i, j :: 0 <= i < j < |q| ==>
            q[j].createdAt < q[i].createdAt || (q[j].createdAt == q[i].createdAt && q[j].id < q[i].id))
      && (forall x :: x in t && x !in q && (bound.Some? ==>
            x.createdAt < bound.value.createdAt || (x.createdAt == bound.value.createdAt && x.id < bound.value.id)) ==>
            |q| == n && forall y :: y in q ==> x.createdAt < y.createdAt || (x.createdAt == y.createdAt && x.id < y.id))
  {
    QueryMeaning(ByNew, t, bound, n);
    hide Query;
  }

  /** The query by votes in terms of the columns. */
  lemma QueryByTop(t: Table, bound: Option<Item>, n: nat)
    requires Keyed(t)
    ensures var q := Query(ByTop, t, bound, n);
      && (forall x :: x in q ==> x in t && (bound.Some? ==>
            || x.votes < bound.value.votes
            || (x.votes == bound.value.votes && x.createdAt < bound.value.createdAt)
            || (x.votes == bound.value.votes && x.createdAt == bound.value.createdAt && x.id < bound.value.id)))
      && (forall i, j :: 0 <= i < j < |q| ==>
            || q[j].votes < q[i].votes
            || (q[j].votes == q[i].votes && q[j].createdAt < q[i].createdAt)
            || (q[j].votes == q[i].votes && q[j].createdAt == q[i].createdAt && q[j].id < q[i].id))
      && (forall x :: x in t && x !in q && (bound.Some? ==>
            || x.votes < bound.value.votes
            || (x.votes == bound.value.votes && x.createdAt < bound.value.createdAt)
            || (x.votes == bound.value.votes && x.createdAt == bound.value.createdAt && x.id < bound.value.id)) ==>
            |q| == n && forall y :: y in q ==>
              || x.votes < y.votes
              || (x.votes == y.votes && x.createdAt < y.createdAt)
              || (x.votes == y.votes && x.createdAt == y.createdAt && x.id < y.id))
  {
    QueryMeaning(ByTop, t, bound, n);
    hide Query;
  }
}
