/**
  A client that follows next_cursor from page to page while the table changes underneath.

  Page i of a walk is served from tables[i]. The cursor travels as text, so every statement here
  depends on the codec: a cursor that failed to decode would restart the walk at the first page.
*/
module Walk {
  import opened Wrappers
  import opened Text
  import opened Keyset
  import opened Listing
  import Arithmetic
  import Uuid

  /** The pages received, and whether the last of them had no next cursor. */
  datatype Walked = Walked(pages: seq<seq<Item>>, done: bool)

  ghost predicate AllFit(tables: seq<Table>) {
    forall i :: 0 <= i < |tables| ==> TableFits(tables[i])
  }

  ghost function Follow(tables: seq<Table>, sort: string, limit: int, cursor: Option<Text>): Walked
    requires AllFit(tables)
    decreases |tables|
  {
    if tables == [] then Walked([], false)
    else
      match List(tables[0], ListParams(sort, cursor, limit))
      case Failure(_) => Walked([], false)
      case Success(page) =>
        if page.nextCursor.None? then Walked([page.items], true)
        else
          var rest := Follow(tables[1..], sort, limit, page.nextCursor);
          Walked([page.items] + rest.pages, rest.done)
  }

  function Concat(pages: seq<seq<Item>>): seq<Item> {
    if pages == [] then [] else pages[0] + Concat(pages[1..])
  }

  /** All rows received on a walk from the first page. */
  ghost function Received(tables: seq<Table>, sort: string, limit: int): seq<Item>
    requires AllFit(tables)
  {
    Concat(Follow(tables, sort, limit, None).pages)
  }

  ghost predicate Completed(tables: seq<Table>, sort: string, limit: int)
    requires AllFit(tables)
  {
    Follow(tables, sort, limit, None).done
  }

  // ----- The walk without the text -----

  /** The same walk, with rows for cursors. */
  ghost function Go(tables: seq<Table>, order: Order, limit: nat, bound: Option<Item>): Walked
    requires AllFit(tables) && limit > 0
    decreases |tables|
  {
    if tables == [] then Walked([], false)
    else
      var d := Desc(order, Filter(order, tables[0], bound));
      if |d| <= limit then Walked([d], true)
      else
        var rest := Go(tables[1..], order, limit, Some(d[limit - 1]));
        Walked([d[..limit]] + rest.pages, rest.done)
  }

  /** The first page of a walk and what follows it. */
  lemma GoUnfolds(tables: seq<Table>, order: Order, limit: nat, bound: Option<Item>) returns (d: seq<Item>)
    requires AllFit(tables) && limit > 0 && tables != []
    ensures AllFit(tables[1..]) && Keyed(tables[0])
    ensures d == Desc(order, Filter(order, tables[0], bound))
    ensures Descending(order, d) && forall x :: x in d <==> x in tables[0] && Under(order, x, bound)
    ensures |d| <= limit ==>
      Go(tables, order, limit, bound) == Walked([d], true) && Concat(Go(tables, order, limit, bound).pages) == d
    ensures |d| > limit ==>
      var w := Go(tables, order, limit, bound);
      var rest := Go(tables[1..], order, limit, Some(d[limit - 1]));
      && w.done == rest.done
      && |w.pages| == 1 + |rest.pages|
      && Concat(w.pages) == d[..limit] + Concat(rest.pages)
  {
    hide Desc, Less;
    d := Desc(order, Filter(order, tables[0], bound));
    DescSorts(order, Filter(order, tables[0], bound));
    if |d| <= limit {
      assert Concat([d]) == d;
    } else {
      var rest := Go(tables[1..], order, limit, Some(d[limit - 1]));
      assert ([d[..limit]] + rest.pages)[1..] == rest.pages;
    }
  }

  /** Walking by text cursors is walking by rows, because every cursor sent back decodes to its row. */
  lemma {:induction false} FollowIsGo(tables: seq<Table>, sort: string, limit: int,
                                      cursor: Option<Text>, bound: Option<Item>)
    requires AllFit(tables) && BoundOf(cursor) == Success(bound)
    ensures Follow(tables, sort, limit, cursor) == Go(tables, OrderOf(sort), ClampLimit(limit), bound)
    decreases |tables|
  {
    hide Desc, List, BoundOf, CursorOf, Encodable;
    if tables != [] {
      var order, n := OrderOf(sort), ClampLimit(limit);
      var t := tables[0];
      PageIs(t, ListParams(sort, cursor, limit), bound);
      var d := Desc(order, Filter(order, t, bound));
      DescSorts(order, Filter(order, t, bound));
      if |d| > n {
        assert d[n - 1] in d;
        CursorBoundsByRow(d[n - 1]);
        FollowIsGo(tables[1..], sort, limit, Some(CursorOf(d[n - 1])), Some(d[n - 1]));
      }
    }
  }

  lemma FromFirstPage(tables: seq<Table>, sort: string, limit: int)
    requires AllFit(tables)
    ensures Follow(tables, sort, limit, None) == Go(tables, OrderOf(sort), ClampLimit(limit), None)
  {
    FollowIsGo(tables, sort, limit, None, None);
  }

  // ----- Order and origin of the rows received -----

  lemma NothingReceived(order: Order, limit: nat, bound: Option<Item>)
    requires limit > 0
    ensures Concat(Go([], order, limit, bound).pages) == []
  {
  }

  /** A descending sequence below the last row of another extends it. */
  lemma Stack(order: Order, a: seq<Item>, b: seq<Item>)
    requires a != [] && Descending(order, a) && Descending(order, b)
    requires forall x :: x in b ==> Less(order, x, a[|a| - 1])
    ensures Descending(order, a + b)
    ensures forall x :: x in a + b ==> x in a || Less(order, x, a[|a| - 1])
  {
    var s := a + b;
    forall i, j | 0 <= i < j < |s|
      ensures Less(order, s[j], s[i])
    {
      if i < |a| <= j {
        assert s[j] in b;
        assert i < |a| - 1 ==> Less(order, a[|a| - 1], a[i]);
      }
    }
  }

  lemma {:induction false} GoDescends(tables: seq<Table>, order: Order, limit: nat, bound: Option<Item>)
    requires AllFit(tables) && limit > 0
    ensures var s := Concat(Go(tables, order, limit, bound).pages);
      Descending(order, s) && forall x :: x in s ==> Under(order, x, bound)
    decreases |tables|
  {
    hide Desc, Concat, TableFits;
    if tables == [] {
      NothingReceived(order, limit, bound);
    } else {
      hide Go;
      var d := GoUnfolds(tables, order, limit, bound);
      if |d| > limit {
        var last := d[limit - 1];
        GoDescends(tables[1..], order, limit, Some(last));
        assert last in d;
        Stack(order, d[..limit], Concat(Go(tables[1..], order, limit, Some(last)).pages));
      }
    }
  }

  ghost predicate InSome(tables: seq<Table>, x: Item) {
    exists i :: 0 <= i < |tables| && x in tables[i]
  }

  lemma {:induction false} GoOrigin(tables: seq<Table>, order: Order, limit: nat, bound: Option<Item>, x: Item)
    requires AllFit(tables) && limit > 0 && x in Concat(Go(tables, order, limit, bound).pages)
    ensures InSome(tables, x)
    decreases |tables|
  {
    hide Desc, Concat, TableFits, Less;
    if tables == [] {
      NothingReceived(order, limit, bound);
    } else {
      hide Go;
      var d := GoUnfolds(tables, order, limit, bound);
      if x in d {
        assert x in tables[0];
      } else {
        GoOrigin(tables[1..], order, limit, Some(d[limit - 1]), x);
        var i :| 0 <= i < |tables[1..]| && x in tables[1..][i];
        assert x in tables[i + 1];
      }
    }
  }

  /** Along a walk, under whatever happens to the table between pages, the rows received strictly descend. */
  lemma WalkDescends(tables: seq<Table>, sort: string, limit: int)
    requires AllFit(tables)
    ensures Descending(OrderOf(sort), Received(tables, sort, limit))
    ensures forall x :: x in Received(tables, sort, limit) ==> InSome(tables, x)
  {
    FromFirstPage(tables, sort, limit);
    GoDescends(tables, OrderOf(sort), ClampLimit(limit), None);
    forall x | x in Received(tables, sort, limit)
      ensures InSome(tables, x)
    {
      GoOrigin(tables, OrderOf(sort), ClampLimit(limit), None, x);
    }
  }

  // ----- Rows that come twice -----

  /** created_at is never updated. */
  ghost predicate CreationFixed(tables: seq<Table>) {
    forall x, y :: InSome(tables, x) && InSome(tables, y) && x.id == y.id ==> x.createdAt == y.createdAt
  }

  /** A request received twice by vote count has strictly fewer votes the second time; by creation none comes twice. */
  lemma TwiceOnlyWithFewerVotes(tables: seq<Table>, sort: string, limit: int, i: nat, j: nat)
    requires AllFit(tables) && CreationFixed(tables)
    requires i < j < |Received(tables, sort, limit)|
    requires Received(tables, sort, limit)[i].id == Received(tables, sort, limit)[j].id
    ensures OrderOf(sort).ByTop? && Received(tables, sort, limit)[j].votes < Received(tables, sort, limit)[i].votes
  {
    WalkDescends(tables, sort, limit);
    var s := Received(tables, sort, limit);
    assert s[i] in s && s[j] in s;
    assert Less(OrderOf(sort), s[j], s[i]);
  }

  // ----- Rows that must come -----

  ghost predicate Holds(t: Table, order: Order, x: Item) {
    exists y :: y in t && SameKey(order, x, y)
  }

  /** In every table there is a row with the key of x: for the top order x itself, unchanged. */
  ghost predicate Stays(tables: seq<Table>, order: Order, x: Item) {
    forall i :: 0 <= i < |tables| ==> Holds(tables[i], order, x)
  }

  ghost predicate Has(s: seq<Item>, order: Order, x: Item) {
    exists i :: 0 <= i < |s| && SameKey(order, x, s[i])
  }

  lemma StaysLater(tables: seq<Table>, order: Order, x: Item)
    requires tables != [] && Stays(tables, order, x)
    ensures Stays(tables[1..], order, x)
  {
    forall i | 0 <= i < |tables[1..]|
      ensures Holds(tables[1..][i], order, x)
    {
      assert tables[1..][i] == tables[i + 1];
    }
  }

  lemma {:induction false} GoReaches(tables: seq<Table>, order: Order, limit: nat, bound: Option<Item>, x: Item)
    requires AllFit(tables) && limit > 0 && Go(tables, order, limit, bound).done
    requires Stays(tables, order, x) && Under(order, x, bound)
    ensures Has(Concat(Go(tables, order, limit, bound).pages), order, x)
    decreases |tables|
  {
    hide Desc, Concat, TableFits;
    if tables == [] {
      assert false;
    } else {
      hide Go;
      assert Holds(tables[0], order, x);
      var y :| y in tables[0] && SameKey(order, x, y);
      var d := GoUnfolds(tables, order, limit, bound);
      assert y in d;
      var n :| 0 <= n < |d| && d[n] == y;
      if |d| > limit {
        var tail := Concat(Go(tables[1..], order, limit, Some(d[limit - 1])).pages);
        var s := d[..limit] + tail;
        if n < limit {
          assert s[n] == y;
        } else {
          assert Less(order, y, d[limit - 1]);
          StaysLater(tables, order, x);
          GoReaches(tables[1..], order, limit, Some(d[limit - 1]), x);
          var m :| 0 <= m < |tail| && SameKey(order, x, tail[m]);
          assert s[limit + m] == tail[m];
        }
      }
    }
  }

  ghost predicate ExactlyOnce(s: seq<Item>, order: Order, x: Item) {
    exists i :: 0 <= i < |s| && SameKey(order, x, s[i])
      && forall j :: 0 <= j < |s| && SameKey(order, x, s[j]) ==> j == i
  }

  lemma Incomparable(order: Order, x: Item, a: Item, b: Item)
    requires SameKey(order, x, a) && SameKey(order, x, b)
    ensures !Less(order, a, b) && !Less(order, b, a)
  {
  }

  lemma OnlyOnce(s: seq<Item>, order: Order, x: Item, i: nat)
    requires Descending(order, s) && i < |s| && SameKey(order, x, s[i])
    ensures ExactlyOnce(s, order, x)
  {
    hide Less, SameKey;
    forall j | 0 <= j < |s| && SameKey(order, x, s[j])
      ensures j == i
    {
      Incomparable(order, x, s[i], s[j]);
    }
  }

  /**
    On a completed walk every row whose key is there throughout comes exactly once. In the top order
    that is every request whose vote count does not change while the walk lasts.
  */
  lemma StayingRowsComeOnce(tables: seq<Table>, sort: string, limit: int, x: Item)
    requires AllFit(tables) && Completed(tables, sort, limit)
    requires Stays(tables, OrderOf(sort), x)
    ensures ExactlyOnce(Received(tables, sort, limit), OrderOf(sort), x)
  {
    hide Follow, Go, Concat, AllFit;
    var order := OrderOf(sort);
    var s := Received(tables, sort, limit);
    FromFirstPage(tables, sort, limit);
    GoReaches(tables, order, ClampLimit(limit), None, x);
    WalkDescends(tables, sort, limit);
    var i :| 0 <= i < |s| && SameKey(order, x, s[i]);
    OnlyOnce(s, order, x, i);
  }

  /** No request is ever removed. */
  ghost predicate NoneRemoved(tables: seq<Table>) {
    forall i, x :: 0 <= i < |tables| && x in tables[0] ==> exists y :: y in tables[i] && y.id == x.id
  }

  /**
    By creation time, under any votes and any new requests between pages, a completed walk returns
    every request that was there at its start exactly once, and no request twice.
  */
  lemma NewestFirstIsExact(tables: seq<Table>, sort: string, limit: int)
    requires AllFit(tables) && tables != [] && OrderOf(sort).ByNew? && Completed(tables, sort, limit)
    requires CreationFixed(tables) && NoneRemoved(tables)
    ensures var s := Received(tables, sort, limit);
      && (forall x :: x in tables[0] ==> exists i :: 0 <= i < |s| && s[i].id == x.id)
      && (forall i, j :: 0 <= i < j < |s| ==> s[i].id != s[j].id)
  {
    var s := Received(tables, sort, limit);
    forall x | x in tables[0]
      ensures exists i :: 0 <= i < |s| && s[i].id == x.id
    {
      forall i | 0 <= i < |tables|
        ensures Holds(tables[i], ByNew, x)
      {
        var y :| y in tables[i] && y.id == x.id;
        assert InSome(tables, x) && InSome(tables, y);
      }
      StayingRowsComeOnce(tables, sort, limit, x);
    }
    forall i, j | 0 <= i < j < |s|
      ensures s[i].id != s[j].id
    {
      WalkDescends(tables, sort, limit);
      assert s[i] in s && s[j] in s && Less(ByNew, s[j], s[i]);
    }
  }

  // ----- Requests whose votes move while the walk lasts -----

  ghost predicate VotesNeverRise(tables: seq<Table>, id: nat) {
    forall i, j, x, y :: 0 <= i < j < |tables| && x in tables[i] && y in tables[j] && x.id == y.id == id ==>
      y.votes <= x.votes
  }

  ghost predicate VotesNeverFall(tables: seq<Table>, id: nat) {
    forall i, j, x, y :: 0 <= i < j < |tables| && x in tables[i] && y in tables[j] && x.id == y.id == id ==>
      x.votes <= y.votes
  }

  ghost predicate Listed(t: Table, id: nat) {
    exists x :: x in t && x.id == id
  }

  ghost predicate AlwaysListed(tables: seq<Table>, id: nat) {
    forall i :: 0 <= i < |tables| ==> Listed(tables[i], id)
  }

  ghost predicate Returned(s: seq<Item>, id: nat) {
    exists i :: 0 <= i < |s| && s[i].id == id
  }

  ghost predicate ReturnedTwice(s: seq<Item>, id: nat) {
    exists i, j :: 0 <= i < j < |s| && s[i].id == id && s[j].id == id
  }

  // ----- How often a request comes: the exact count -----

  /** How many rows received are of request id. */
  function Times(s: seq<Item>, id: nat): nat {
    if s == [] then 0 else (if s[0].id == id then 1 else 0) + Times(s[1..], id)
  }

  /** The request is listed, below the bound. */
  ghost predicate Below(t: Table, order: Order, id: nat, bound: Option<Item>) {
    exists x :: x in t && x.id == id && Under(order, x, bound)
  }

  datatype Crossing = Overtakes | FallsBehind

  /** Between two tables the request goes from below the cursor to not below it, or the other way. */
  ghost predicate Crosses(c: Crossing, before: Table, after: Table, order: Order, id: nat, cursor: Item) {
    var was, becomes := Below(before, order, id, Some(cursor)), Below(after, order, id, Some(cursor));
    match c
    case Overtakes => was && !becomes
    case FallsBehind => !was && becomes
  }

  /** How often the request crosses the cursor of the page just served before the next page is served. */
  ghost function Crossings(c: Crossing, tables: seq<Table>, order: Order, limit: nat, bound: Option<Item>, id: nat): nat
    requires AllFit(tables) && limit > 0
    decreases |tables|
  {
    if |tables| < 2 then 0
    else
      var d := Desc(order, Filter(order, tables[0], bound));
      if |d| <= limit then 0
      else
        var cursor := d[limit - 1];
        (if Crosses(c, tables[0], tables[1], order, id, cursor) then 1 else 0)
        + Crossings(c, tables[1..], order, limit, Some(cursor), id)
  }

  lemma {:induction false} TimesConcat(a: seq<Item>, b: seq<Item>, id: nat)
    ensures Times(a + b, id) == Times(a, id) + Times(b, id)
  {
    if a == [] {
      assert a + b == b;
    } else {
      assert (a + b)[1..] == a[1..] + b;
      TimesConcat(a[1..], b, id);
    }
  }

  lemma {:induction false} TimesIsMembership(s: seq<Item>, id: nat)
    requires forall i, j :: 0 <= i < j < |s| ==> s[i].id != s[j].id
    ensures Times(s, id) == if Returned(s, id) then 1 else 0
  {
    if s != [] {
      var rest := s[1..];
      assert forall i {:trigger rest[i]} :: 0 <= i < |rest| ==> rest[i] == s[i + 1];
      TimesIsMembership(rest, id);
      if i :| 0 <= i < |s| && s[i].id == id {
        assert i > 0 ==> rest[i - 1].id == id;
      }
    }
  }

  lemma ReturnedIsBelow(t: Table, order: Order, bound: Option<Item>, d: seq<Item>, id: nat)
    requires forall x :: x in d <==> x in t && Under(order, x, bound)
    ensures Returned(d, id) <==> Below(t, order, id, bound)
  {
    if i :| 0 <= i < |d| && d[i].id == id {
      assert d[i] in d;
    }
    if x :| x in t && x.id == id && Under(order, x, bound) {
      var i :| 0 <= i < |d| && d[i] == x;
    }
  }

  lemma SplitAtCursor(t: Table, order: Order, limit: nat, bound: Option<Item>, d: seq<Item>, id: nat)
    requires Keyed(t) && Descending(order, d) && 0 < limit < |d|
    requires forall x :: x in d <==> x in t && Under(order, x, bound)
    ensures Below(t, order, id, Some(d[limit - 1])) ==> Below(t, order, id, bound)
    ensures Returned(d[..limit], id) <==> Below(t, order, id, bound) && !Below(t, order, id, Some(d[limit - 1]))
  {
    var cursor := d[limit - 1];
    assert cursor in d;
    ReturnedIsBelow(t, order, bound, d, id);
    if i :| 0 <= i < |d| && d[i].id == id {
      assert d[i] in d && d[i] in t;
      assert forall x :: x in t && x.id == id ==> x == d[i];
      if i < limit {
        assert d[..limit][i].id == id;
        assert i < limit - 1 ==> Less(order, cursor, d[i]);
      } else {
        assert Less(order, d[i], cursor);
        forall j | 0 <= j < limit
          ensures d[j].id != id
        {
          assert Less(order, d[i], d[j]) && d[j] in d;
        }
      }
    } else {
      assert forall x :: x in t && x.id == id ==> !Under(order, x, bound);
      assert forall j :: 0 <= j < limit ==> d[..limit][j] == d[j];
    }
  }

  /** A page holds the request if it is below the page's bound and not below the page's own last row. */
  lemma PageWindow(t: Table, order: Order, limit: nat, bound: Option<Item>, d: seq<Item>, id: nat)
    requires Keyed(t) && Descending(order, d) && limit > 0
    requires forall x :: x in d <==> x in t && Under(order, x, bound)
    ensures |d| <= limit ==> Times(d, id) == if Below(t, order, id, bound) then 1 else 0
    ensures |d| > limit ==>
      && (Below(t, order, id, Some(d[limit - 1])) ==> Below(t, order, id, bound))
      && Times(d[..limit], id)
         == if Below(t, order, id, bound) && !Below(t, order, id, Some(d[limit - 1])) then 1 else 0
  {
    hide Times;
    forall i, j | 0 <= i < j < |d|
      ensures d[i].id != d[j].id
    {
      assert d[i] in d && d[j] in d && Less(order, d[j], d[i]);
    }
    if |d| <= limit {
      TimesIsMembership(d, id);
      ReturnedIsBelow(t, order, bound, d, id);
    } else {
      TimesIsMembership(d[..limit], id);
      SplitAtCursor(t, order, limit, bound, d, id);
    }
  }

  lemma {:induction false} GoCounts(tables: seq<Table>, order: Order, limit: nat, bound: Option<Item>, id: nat)
    requires AllFit(tables) && limit > 0 && tables != []
    ensures var w := Go(tables, order, limit, bound);
      var expected := (if Below(tables[0], order, id, bound) then 1 else 0)
        + Crossings(FallsBehind, tables, order, limit, bound, id)
        - Crossings(Overtakes, tables, order, limit, bound, id);
      && Times(Concat(w.pages), id) <= expected
      && (w.done ==> Times(Concat(w.pages), id) == expected)
    decreases |tables|
  {
    assert Times([], id) == 0;
    hide Desc, Concat, TableFits, Less, Below, Times, Descending;
    var d := GoUnfolds(tables, order, limit, bound);
    PageWindow(tables[0], order, limit, bound, d, id);
    if |d| > limit {
      var cursor := d[limit - 1];
      var tail := Concat(Go(tables[1..], order, limit, Some(cursor)).pages);
      TimesConcat(d[..limit], tail, id);
      if |tables| > 1 {
        GoCounts(tables[1..], order, limit, Some(cursor), id);
      } else {
        NothingReceived(order, limit, Some(cursor));
        assert tables[1..] == [];
      }
    }
  }

  /**
    The exact count: on a completed walk a request comes once if it is listed at the start, once more
    for each time it falls behind the cursor (or first appears behind it) between two pages, and once
    less for each time it overtakes the cursor. So one listed at the start comes exactly once if and
    only if it overtakes the cursor as often as it falls behind it.
  */
  lemma TimesReturned(tables: seq<Table>, sort: string, limit: int, id: nat)
    requires AllFit(tables) && tables != []
    ensures var expected := (if Listed(tables[0], id) then 1 else 0)
        + Crossings(FallsBehind, tables, OrderOf(sort), ClampLimit(limit), None, id)
        - Crossings(Overtakes, tables, OrderOf(sort), ClampLimit(limit), None, id);
      && Times(Received(tables, sort, limit), id) <= expected
      && (Completed(tables, sort, limit) ==> Times(Received(tables, sort, limit), id) == expected)
  {
    hide Go, Concat, Crossings, Times;
    FromFirstPage(tables, sort, limit);
    GoCounts(tables, OrderOf(sort), ClampLimit(limit), None, id);
    assert Below(tables[0], OrderOf(sort), id, None) <==> Listed(tables[0], id);
  }

  lemma LaterTables(tables: seq<Table>, id: nat)
    requires tables != [] && CreationFixed(tables)
    ensures CreationFixed(tables[1..])
    ensures AlwaysListed(tables, id) ==> AlwaysListed(tables[1..], id)
    ensures VotesNeverRise(tables, id) ==> VotesNeverRise(tables[1..], id)
    ensures VotesNeverFall(tables, id) ==> VotesNeverFall(tables[1..], id)
    ensures forall x :: InSome(tables[1..], x) ==> InSome(tables, x)
  {
    var rest := tables[1..];
    assert forall i {:trigger rest[i]} :: 0 <= i < |rest| ==> rest[i] == tables[i + 1];
    forall x | InSome(rest, x)
      ensures InSome(tables, x)
    {
      var i :| 0 <= i < |rest| && x in rest[i];
      assert x in tables[i + 1];
    }
  }

  lemma RisesLater(tables: seq<Table>, x: Item, y: Item)
    requires tables != [] && x in tables[0] && InSome(tables[1..], y) && x.id == y.id
    requires CreationFixed(tables) && VotesNeverFall(tables, x.id)
    ensures !Less(ByTop, y, x)
  {
    var i :| 0 <= i < |tables[1..]| && y in tables[1..][i];
    assert y in tables[i + 1];
    assert InSome(tables, x) && InSome(tables, y);
  }

  /** A request whose votes do not fall does not come again after the page it was on. */
  lemma LaterPagesLack(tables: seq<Table>, limit: nat, last: Item, x: Item)
    requires tables != [] && AllFit(tables[1..]) && limit > 0
    requires CreationFixed(tables) && VotesNeverFall(tables, x.id)
    requires x in tables[0] && (x == last || Less(ByTop, last, x))
    ensures forall y :: y in Concat(Go(tables[1..], ByTop, limit, Some(last)).pages) ==> y.id != x.id
  {
    hide Go, Concat, TableFits, CreationFixed, VotesNeverFall;
    var tail := Concat(Go(tables[1..], ByTop, limit, Some(last)).pages);
    GoDescends(tables[1..], ByTop, limit, Some(last));
    forall y | y in tail
      ensures y.id != x.id
    {
      if y.id == x.id {
        GoOrigin(tables[1..], ByTop, limit, Some(last), y);
        RisesLater(tables, x, y);
      }
    }
  }

  lemma OncePerTable(t: Table, s: seq<Item>, id: nat)
    requires TableFits(t) && Descending(ByTop, s) && forall x :: x in s ==> x in t
    ensures !ReturnedTwice(s, id)
  {
    forall i, j | 0 <= i < j < |s|
      ensures s[i].id != s[j].id
    {
      assert s[i] in s && s[j] in s && Less(ByTop, s[j], s[i]);
    }
  }

  lemma TwiceInConcat(a: seq<Item>, b: seq<Item>, id: nat)
    requires !ReturnedTwice(a, id) && !ReturnedTwice(b, id)
    requires forall i, j :: 0 <= i < |a| && 0 <= j < |b| && a[i].id == id ==> b[j].id != id
    ensures !ReturnedTwice(a + b, id)
  {
    var s := a + b;
    forall i, j | 0 <= i < j < |s| && s[i].id == id
      ensures s[j].id != id
    {
      if j < |a| {
        assert a[i].id == id;
      } else if i < |a| {
        assert a[i].id == id && s[j] == b[j - |a|];
      } else {
        assert s[i] == b[i - |a|] && s[j] == b[j - |a|];
      }
    }
  }

  lemma {:induction false} GoReturnsRisingOnce(tables: seq<Table>, limit: nat, bound: Option<Item>, id: nat)
    requires AllFit(tables) && limit > 0 && CreationFixed(tables) && VotesNeverFall(tables, id)
    ensures !ReturnedTwice(Concat(Go(tables, ByTop, limit, bound).pages), id)
    decreases |tables|
  {
    hide Desc, Concat, TableFits, VotesNeverFall, CreationFixed;
    if tables == [] {
      NothingReceived(ByTop, limit, bound);
    } else {
      hide Go, ReturnedTwice;
      var d := GoUnfolds(tables, ByTop, limit, bound);
      if |d| <= limit {
        OncePerTable(tables[0], d, id);
      } else {
        var last := d[limit - 1];
        var tail := Concat(Go(tables[1..], ByTop, limit, Some(last)).pages);
        LaterTables(tables, id);
        GoReturnsRisingOnce(tables[1..], limit, Some(last), id);
        OncePerTable(tables[0], d[..limit], id);
        forall i, j | 0 <= i < limit && 0 <= j < |tail| && d[..limit][i].id == id
          ensures tail[j].id != id
        {
          assert d[i] in d && tail[j] in tail;
          assert i < limit - 1 ==> Less(ByTop, last, d[i]);
          LaterPagesLack(tables, limit, last, d[i]);
        }
        TwiceInConcat(d[..limit], tail, id);
      }
    }
  }

  lemma StaysBelow(tables: seq<Table>, id: nat, cursor: Item)
    requires |tables| > 1 && CreationFixed(tables) && AlwaysListed(tables, id) && VotesNeverRise(tables, id)
    ensures !Crosses(Overtakes, tables[0], tables[1], ByTop, id, cursor)
  {
    if x :| x in tables[0] && x.id == id && Less(ByTop, x, cursor) {
      assert Listed(tables[1], id);
      var y :| y in tables[1] && y.id == id;
      assert InSome(tables, x) && InSome(tables, y);
      assert y.createdAt == x.createdAt && y.votes <= x.votes;
    }
  }

  /** A request whose votes do not rise overtakes no cursor. */
  lemma {:induction false} NoOvertaking(tables: seq<Table>, limit: nat, bound: Option<Item>, id: nat)
    requires AllFit(tables) && limit > 0
    requires CreationFixed(tables) && AlwaysListed(tables, id) && VotesNeverRise(tables, id)
    ensures Crossings(Overtakes, tables, ByTop, limit, bound, id) == 0
    decreases |tables|
  {
    hide Desc, TableFits, Below, Go, Less, CreationFixed, AlwaysListed, VotesNeverRise, Descending, Filter;
    if |tables| >= 2 {
      var d := GoUnfolds(tables, ByTop, limit, bound);
      if |d| > limit {
        LaterTables(tables, id);
        NoOvertaking(tables[1..], limit, Some(d[limit - 1]), id);
        StaysBelow(tables, id, d[limit - 1]);
      }
    }
  }

  lemma {:induction false} CountedIsReturned(s: seq<Item>, id: nat)
    requires Times(s, id) > 0
    ensures Returned(s, id)
  {
    if s[0].id != id {
      CountedIsReturned(s[1..], id);
      var i :| 0 <= i < |s[1..]| && s[1..][i].id == id;
      assert s[i + 1].id == id;
    }
  }

  /**
    By vote count, a request that is listed throughout is missed only if its votes rise between pages,
    and comes twice only if they fall.
  */
  lemma MissedOnlyByRising(tables: seq<Table>, sort: string, limit: int, id: nat)
    requires AllFit(tables) && tables != [] && CreationFixed(tables) && OrderOf(sort).ByTop?
    ensures Completed(tables, sort, limit) && AlwaysListed(tables, id) && VotesNeverRise(tables, id) ==>
      Returned(Received(tables, sort, limit), id)
    ensures VotesNeverFall(tables, id) ==> !ReturnedTwice(Received(tables, sort, limit), id)
  {
    FromFirstPage(tables, sort, limit);
    if Completed(tables, sort, limit) && AlwaysListed(tables, id) && VotesNeverRise(tables, id) {
      TimesReturned(tables, sort, limit, id);
      NoOvertaking(tables, ClampLimit(limit), None, id);
      CountedIsReturned(Received(tables, sort, limit), id);
    }
    if VotesNeverFall(tables, id) {
      GoReturnsRisingOnce(tables, ClampLimit(limit), None, id);
    }
  }

  lemma PairSorted(order: Order, high: Item, low: Item)
    requires Less(order, low, high) && high.id != low.id && Encodable(high) && Encodable(low)
    ensures TableFits({high, low}) && Desc(order, {high, low}) == [high, low]
    ensures Filter(order, {high, low}, None) == {high, low}
    ensures Filter(order, {high, low}, Some(high)) == {low}
    ensures Desc(order, {low}) == [low]
  {
    DescIsUnique(order, {high, low}, [high, low]);
    DescIsUnique(order, {low}, [low]);
  }

  /** The second page, below row `last`, when both rows of the table are, or neither is. */
  lemma PairFiltered(order: Order, high: Item, low: Item, last: Item)
    ensures Less(order, high, last) && Less(order, low, last) ==> Filter(order, {high, low}, Some(last)) == {high, low}
    ensures !Less(order, high, last) && !Less(order, low, last) ==> Filter(order, {high, low}, Some(last)) == {}
  {
  }

  lemma EmptySorted(order: Order)
    ensures Desc(order, {}) == []
  {
  }

  lemma {:induction false} GrowsPow16(n: nat)
    requires n >= 1
    ensures Uuid.Pow16(n) >= 16
  {
    if n > 1 {
      GrowsPow16(n - 1);
    }
  }

  lemma SmallIds()
    ensures Uuid.IsUuid(1) && Uuid.IsUuid(2)
  {
    assert Uuid.Pow16(1) == 16;
    GrowsPow16(32);
  }

  /** Both do happen: request 2 overtakes the cursor between two pages and is missed. */
  lemma RisingRequestIsMissed()
    ensures var tables := [{Item(1, 0, 2), Item(2, 0, 1)}, {Item(2, 0, 3), Item(1, 0, 2)}];
      && AllFit(tables) && Completed(tables, "top", 1)
      && AlwaysListed(tables, 2) && !Returned(Received(tables, "top", 1), 2)
  {
    hide Desc, Filter, TableFits;
    var a, b, c := Item(1, 0, 2), Item(2, 0, 1), Item(2, 0, 3);
    var tables := [{a, b}, {c, a}];
    SmallIds();
    PairSorted(ByTop, a, b);
    PairSorted(ByTop, c, a);
    PairFiltered(ByTop, c, a, a);
    EmptySorted(ByTop);
    assert Listed(tables[0], 2) by { assert b in tables[0]; }
    assert Listed(tables[1], 2) by { assert c in tables[1]; }
    FromFirstPage(tables, "top", 1);
    hide Go, Concat;
    var d := GoUnfolds(tables, ByTop, 1, None);
    var e := GoUnfolds(tables[1..], ByTop, 1, Some(a));
    assert Received(tables, "top", 1) == [a];
  }

  /** Two more pages of one row each, from an unchanging pair of rows. */
  lemma PairWalk(order: Order, high: Item, low: Item, bound: Option<Item>)
    requires Less(order, low, high) && high.id != low.id && Encodable(high) && Encodable(low)
    requires Filter(order, {high, low}, bound) == {high, low}
    ensures AllFit([{high, low}, {high, low}])
    ensures var w := Go([{high, low}, {high, low}], order, 1, bound); w.done && Concat(w.pages) == [high, low]
  {
    PairSorted(order, high, low);
    hide Desc, Filter, TableFits, Go, Concat, Less, Encodable;
    var t := {high, low};
    var d := GoUnfolds([t, t], order, 1, bound);
    assert [t, t][1..] == [t];
    var e := GoUnfolds([t], order, 1, Some(high));
    assert [high, low][..1] + [low] == [high, low];
  }

  /** A row is received, falls below the other one before the next page, and is received again. */
  lemma FallBehind(a: Item, b: Item, c: Item, sort: string)
    requires OrderOf(sort).ByTop? && b.id == c.id && a.id != b.id
    requires Encodable(a) && Encodable(b) && Encodable(c)
    requires Less(ByTop, a, b) && Less(ByTop, c, a) && Less(ByTop, c, b)
    ensures AllFit([{b, a}, {a, c}, {a, c}]) && Completed([{b, a}, {a, c}, {a, c}], sort, 1)
    ensures Received([{b, a}, {a, c}, {a, c}], sort, 1) == [b, a, c]
  {
    hide Desc, Filter, TableFits, Encodable;
    var tables := [{b, a}, {a, c}, {a, c}];
    PairSorted(ByTop, b, a);
    PairFiltered(ByTop, a, c, b);
    PairWalk(ByTop, a, c, Some(b));
    assert tables[1..] == [{a, c}, {a, c}];
    FromFirstPage(tables, sort, 1);
    hide Go, Concat, Less;
    var d := GoUnfolds(tables, ByTop, 1, None);
    assert [b, a][..1] + [a, c] == [b, a, c];
  }

  /** And request 2 falls behind the cursor between two pages and comes again. */
  lemma FallingRequestComesTwice()
    ensures var before, after := {Item(2, 0, 2), Item(1, 0, 1)}, {Item(1, 0, 1), Item(2, 0, 0)};
      var tables := [before, after, after];
      AllFit(tables) && Completed(tables, "top", 1) && ReturnedTwice(Received(tables, "top", 1), 2)
  {
    hide AllFit, Completed, Received;
    var a, b, c := Item(1, 0, 1), Item(2, 0, 2), Item(2, 0, 0);
    SmallIds();
    FallBehind(a, b, c, "top");
    assert [b, a, c][0] == b && [b, a, c][2] == c;
  }

  // ----- How long a walk can last -----

  lemma {:induction false} DistinctFit<T>(s: seq<T>, all: set<T>)
    requires forall i, j :: 0 <= i < j < |s| ==> s[i] != s[j]
    requires forall x :: x in s ==> x in all
    ensures |s| <= |all|
  {
    if s != [] {
      var rest := s[1..];
      forall x | x in rest
        ensures x in all - {s[0]}
      {
        assert x in s;
      }
      assert s[0] in s;
      DistinctFit(rest, all - {s[0]});
    }
  }

  /** A walk cut off after every page was full: and there was a further row below all it received. */
  lemma {:induction false} GoUnfinished(tables: seq<Table>, order: Order, limit: nat, bound: Option<Item>)
    returns (x: Item)
    requires AllFit(tables) && limit > 0 && tables != [] && !Go(tables, order, limit, bound).done
    ensures var s := Concat(Go(tables, order, limit, bound).pages);
      |s| == |tables| * limit && Descending(order, s + [x])
    ensures InSome(tables, x) && Under(order, x, bound)
    decreases |tables|
  {
    hide Desc, Concat, TableFits, Go;
    var d := GoUnfolds(tables, order, limit, bound);
    var cursor := d[limit - 1];
    var tail := Concat(Go(tables[1..], order, limit, Some(cursor)).pages);
    assert cursor in d;
    if |tables| == 1 {
      x := d[limit];
      assert x in d && x in tables[0] && tables[1..] == [];
      NothingReceived(order, limit, Some(cursor));
      assert d[..limit] + tail + [x] == d[..limit + 1];
    } else {
      x := GoUnfinished(tables[1..], order, limit, Some(cursor));
      GoDescends(tables[1..], order, limit, Some(cursor));
      Stack(order, d[..limit], tail + [x]);
      assert d[..limit] + tail + [x] == d[..limit] + (tail + [x]);
      var i :| 0 <= i < |tables[1..]| && x in tables[1..][i];
      assert x in tables[i + 1];
      assert |tables| * limit == limit + (|tables| - 1) * limit;
    }
  }

  /** Rows received on an unfinished walk, and one more that is still to come, all different. */
  lemma Unfinished(tables: seq<Table>, sort: string, limit: int) returns (s: seq<Item>)
    requires AllFit(tables) && tables != [] && !Completed(tables, sort, limit)
    ensures |s| == |tables| * ClampLimit(limit) + 1 && Descending(OrderOf(sort), s)
    ensures forall x :: x in s ==> InSome(tables, x)
  {
    hide Go, Follow, Concat, Descending, AllFit;
    FromFirstPage(tables, sort, limit);
    WalkDescends(tables, sort, limit);
    var x := GoUnfinished(tables, OrderOf(sort), ClampLimit(limit), None);
    s := Received(tables, sort, limit) + [x];
  }

  /** Every row, with whatever votes, that some table has. */
  function RowsSeen(tables: seq<Table>): set<Item> {
    if tables == [] then {} else tables[0] + RowsSeen(tables[1..])
  }

  lemma {:induction false} SeenIfInSome(tables: seq<Table>, x: Item)
    requires InSome(tables, x)
    ensures x in RowsSeen(tables)
  {
    var i :| 0 <= i < |tables| && x in tables[i];
    if i > 0 {
      assert tables[1..][i - 1] == tables[i];
      SeenIfInSome(tables[1..], x);
    }
  }

  /**
    Termination while the table changes, in either order: a walk is completed once its pages have room
    for all the rows ever seen (a request counts once for each vote count it has been seen with).
  */
  lemma WalkCompletes(tables: seq<Table>, sort: string, limit: int)
    requires AllFit(tables) && tables != [] && |tables| * ClampLimit(limit) >= |RowsSeen(tables)|
    ensures Completed(tables, sort, limit)
  {
    hide Completed, RowsSeen, AllFit;
    if !Completed(tables, sort, limit) {
      var s := Unfinished(tables, sort, limit);
      forall x | x in s
        ensures x in RowsSeen(tables)
      {
        SeenIfInSome(tables, x);
      }
      assert forall i, j :: 0 <= i < j < |s| ==> Less(OrderOf(sort), s[j], s[i]);
      DistinctFit(s, RowsSeen(tables));
    }
  }

  lemma SameCreation(tables: seq<Table>, x: Item, y: Item)
    requires CreationFixed(tables) && InSome(tables, x) && InSome(tables, y)
    ensures x.id == y.id ==> x.createdAt == y.createdAt
  {
  }

  /** Newest first, room for all the requests is enough: votes do not prolong a walk. */
  lemma NewestFirstCompletes(tables: seq<Table>, sort: string, limit: int, ids: set<nat>)
    requires AllFit(tables) && tables != [] && CreationFixed(tables) && OrderOf(sort).ByNew?
    requires forall x :: InSome(tables, x) ==> x.id in ids
    requires |tables| * ClampLimit(limit) >= |ids|
    ensures Completed(tables, sort, limit)
  {
    hide Completed, AllFit, CreationFixed;
    if !Completed(tables, sort, limit) {
      var s := Unfinished(tables, sort, limit);
      var received := seq(|s|, i requires 0 <= i < |s| => s[i].id);
      forall i, j | 0 <= i < j < |s|
        ensures received[i] != received[j]
      {
        assert s[i] in s && s[j] in s && Less(ByNew, s[j], s[i]);
        SameCreation(tables, s[i], s[j]);
      }
      forall id | id in received
        ensures id in ids
      {
        var i :| 0 <= i < |received| && received[i] == id;
        assert s[i] in s;
      }
      DistinctFit(received, ids);
    }
  }

  function Column(ids: set<nat>, v: int): set<(nat, int)> {
    set id | id in ids :: (id, v)
  }

  /** The pairs of an id and a vote count below n. */
  function Grid(ids: set<nat>, n: nat): set<(nat, int)> {
    if n == 0 then {} else Grid(ids, n - 1) + Column(ids, n - 1)
  }

  lemma {:induction false} ColumnSize(ids: set<nat>, v: int)
    ensures |Column(ids, v)| <= |ids|
  {
    if ids == {} {
      assert Column(ids, v) == {};
    } else {
      var id :| id in ids;
      ColumnSize(ids - {id}, v);
      assert Column(ids, v) == Column(ids - {id}, v) + {(id, v)};
    }
  }

  lemma {:induction false} GridSize(ids: set<nat>, n: nat)
    ensures |Grid(ids, n)| <= |ids| * n
  {
    if n > 0 {
      GridSize(ids, n - 1);
      ColumnSize(ids, n - 1);
      assert |ids| * n == |ids| * (n - 1) + |ids|;
    }
  }

  lemma {:induction false} InGrid(ids: set<nat>, n: nat, id: nat, v: int)
    requires id in ids && 0 <= v < n
    ensures (id, v) in Grid(ids, n)
  {
    if v < n - 1 {
      InGrid(ids, n - 1, id, v);
    }
  }

  /** By votes, a walk ends at the latest when its pages have room for every request at every vote count below n. */
  lemma TopWalkCompletes(tables: seq<Table>, sort: string, limit: int, ids: set<nat>, n: nat)
    requires AllFit(tables) && tables != [] && CreationFixed(tables)
    requires forall x :: InSome(tables, x) ==> x.id in ids && 0 <= x.votes < n
    requires |tables| * ClampLimit(limit) >= |ids| * n
    ensures Completed(tables, sort, limit)
  {
    hide Completed, AllFit, CreationFixed, InSome;
    if !Completed(tables, sort, limit) {
      var s := Unfinished(tables, sort, limit);
      var pairs := seq(|s|, i requires 0 <= i < |s| => (s[i].id, s[i].votes));
      forall i, j | 0 <= i < j < |s|
        ensures pairs[i] != pairs[j]
      {
        assert s[i] in s && s[j] in s && Less(OrderOf(sort), s[j], s[i]);
        SameCreation(tables, s[i], s[j]);
      }
      forall p | p in pairs
        ensures p in Grid(ids, n)
      {
        var i :| 0 <= i < |pairs| && pairs[i] == p;
        assert s[i] in s;
        InGrid(ids, n, s[i].id, s[i].votes);
      }
      DistinctFit(pairs, Grid(ids, n));
      GridSize(ids, n);
    }
  }

  // ----- An unchanging table -----

  /** Pages needed for n rows. */
  function PageCount(n: nat, limit: nat): nat
    requires limit > 0
  {
    if n <= limit then 1 else 1 + PageCount(n - limit, limit)
  }

  lemma DropOne(m: nat, limit: nat)
    requires limit > 0
    ensures (m + limit) / limit == m / limit + 1
    ensures m < limit ==> m / limit == 0
  {
    var q, r := m / limit, m % limit;
    assert m == q * limit + r;
    assert m + limit == (q + 1) * limit + r by { assert (q + 1) * limit == q * limit + limit; }
    Arithmetic.Quotient(m + limit, limit, q + 1, r);
    if m < limit {
      Arithmetic.Quotient(m, limit, 0, m);
    }
  }

  lemma {:induction false} PageCountIsCeiling(n: nat, limit: nat)
    requires limit > 0
    ensures PageCount(n, limit) == if n == 0 then 1 else (n + limit - 1) / limit
  {
    if n > limit {
      PageCountIsCeiling(n - limit, limit);
      DropOne(n - 1, limit);
    } else if n > 0 {
      DropOne(n - 1, limit);
    }
  }

  lemma RestOfDescending(order: Order, d: seq<Item>, limit: nat)
    requires Descending(order, d) && 0 < limit < |d|
    ensures Descending(order, d[limit..])
    ensures forall x :: x in d[limit..] <==> x in d && Less(order, x, d[limit - 1])
  {
    var last, rest := d[limit - 1], d[limit..];
    assert forall i {:trigger rest[i]} :: 0 <= i < |rest| ==> rest[i] == d[limit + i] && Less(order, rest[i], last);
    forall x | x in d && Less(order, x, last)
      ensures x in rest
    {
      var n :| 0 <= n < |d| && d[n] == x;
      assert !Less(order, last, x);
      assert rest[n - limit] == x;
    }
  }

  /** The rows below the last row of a page are the rest of the sorted table. */
  lemma RestOfSorted(order: Order, t: Table, bound: Option<Item>, limit: nat)
    requires Keyed(t) && 0 < limit < |Desc(order, Filter(order, t, bound))|
    ensures var d := Desc(order, Filter(order, t, bound));
      Desc(order, Filter(order, t, Some(d[limit - 1]))) == d[limit..]
  {
    var f := Filter(order, t, bound);
    var d := Desc(order, f);
    DescSorts(order, f);
    RestOfDescending(order, d, limit);
    assert d[limit - 1] in d;
    assert forall x :: x in Filter(order, t, Some(d[limit - 1])) <==> x in f && Less(order, x, d[limit - 1]);
    DescIsUnique(order, Filter(order, t, Some(d[limit - 1])), d[limit..]);
  }

  lemma {:induction false} GoOverFixed(t: Table, k: nat, order: Order, limit: nat, bound: Option<Item>)
    requires TableFits(t) && limit > 0
    requires k >= PageCount(|Desc(order, Filter(order, t, bound))|, limit)
    ensures var d := Desc(order, Filter(order, t, bound));
      var w := Go(seq(k, _ => t), order, limit, bound);
      w.done && Concat(w.pages) == d && |w.pages| == PageCount(|d|, limit)
    decreases k
  {
    hide Desc, Concat, Go, Less;
    var tables := seq(k, _ => t);
    var d := GoUnfolds(tables, order, limit, bound);
    if |d| > limit {
      RestOfSorted(order, t, bound, limit);
      GoOverFixed(t, k - 1, order, limit, Some(d[limit - 1]));
      assert tables[1..] == seq(k - 1, _ => t);
      assert d == d[..limit] + d[limit..];
    }
  }

  /**
    Over a table that does not change, following the cursors ends after max(1, ceil(n / limit)) pages,
    and the pages put together are the whole table in descending order, every row once.
  */
  lemma FixedTableWalk(t: Table, k: nat, sort: string, limit: int)
    requires TableFits(t)
    requires var n, l := |t|, ClampLimit(limit); k >= if n == 0 then 1 else (n + l - 1) / l
    ensures AllFit(seq(k, _ => t))
    ensures var w, n, l := Follow(seq(k, _ => t), sort, limit, None), |t|, ClampLimit(limit);
      && w.done
      && |w.pages| == (if n == 0 then 1 else (n + l - 1) / l)
      && Concat(w.pages) == Desc(OrderOf(sort), t)
  {
    var order, l := OrderOf(sort), ClampLimit(limit);
    assert Filter(order, t, None) == t;
    DescSorts(order, t);
    PageCountIsCeiling(|t|, l);
    FromFirstPage(seq(k, _ => t), sort, limit);
    GoOverFixed(t, k, order, l, None);
  }
}
