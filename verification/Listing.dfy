/** One page of a listing: the repository's query and the service around it. */
module Listing {
  import opened Wrappers
  import opened Text
  import opened Keyset
  import Cursor
  import Uuid

  datatype ListError = QueryError

  datatype ListParams = ListParams(sort: string, cursor: Option<Text>, limit: int)

  /** A page as rows of the table. */
  datatype Page = Page(items: seq<Item>, nextCursor: Option<Text>)

  /** A request as the services see it: the id as text, the creation time in nanoseconds. */
  datatype FeatureRequest = FeatureRequest(id: Text, createdAt: int, voteCount: int)

  datatype RequestPage = RequestPage(items: seq<FeatureRequest>, nextCursor: Option<Text>)

  // ----- Cursors and rows -----

  /** The row's columns fit what a cursor carries. */
  predicate Encodable(x: Item) {
    Uuid.IsUuid(x.id) && FitsIn(x.createdAt * 1000, 64) && FitsIn(x.votes, 32)
  }

  /** What scanning a row gives. */
  function Scanned(x: Item): FeatureRequest {
    FeatureRequest(Uuid.Format(x.id), x.createdAt * 1000, x.votes)
  }

  function ScannedAll(rows: seq<Item>): (items: seq<FeatureRequest>)
    ensures |items| == |rows| && forall i :: 0 <= i < |rows| ==> items[i] == Scanned(rows[i])
  {
    seq(|rows|, i requires 0 <= i < |rows| => Scanned(rows[i]))
  }

  function EncodeCursor(fr: FeatureRequest): Text {
    Cursor.Encode(Cursor.CursorData(fr.id, fr.createdAt, fr.voteCount))
  }

  /** The cursor that stands for a row. */
  function CursorOf(x: Item): Text {
    EncodeCursor(Scanned(x))
  }

  /** Scanning loses nothing of what a listing sees of a row. */
  lemma ScannedDenotesRow(x: Item)
    requires Encodable(x)
    ensures Uuid.Parse(Scanned(x).id) == Some(x.id)
    ensures Scanned(x).createdAt / 1000 == x.createdAt && Scanned(x).voteCount == x.votes
  {
    hide Uuid.Format, Uuid.Parse, Uuid.IsUuid;
    Uuid.ParseOfFormat(x.id);
  }

  /**
    The bound a cursor puts on the query: none without a cursor or with one that does not decode. The
    time is cut to microseconds when it is sent, and an id that is not a UUID fails the query.
  */
  function BoundOf(cursor: Option<Text>): Result<Option<Item>, ListError> {
    if cursor == None || cursor == Some([]) then Success(None)
    else
      match Cursor.Decode(cursor.value)
      case None => Success(None)
      case Some(c) =>
        match Uuid.Parse(c.id)
        case None => Failure(QueryError)
        case Some(id) => Success(Some(Item(id, c.createdAt / 1000, c.voteCount)))
  }

  /** The codec at work: the cursor emitted for a row bounds the next query by exactly that row. */
  lemma CursorBoundsByRow(x: Item)
    requires Encodable(x)
    ensures BoundOf(Some(CursorOf(x))) == Success(Some(x))
  {
    hide Cursor.Encode, Cursor.Decode, Uuid.Format, Uuid.Parse, Uuid.IsUuid;
    Uuid.ParseOfFormat(x.id);
    Cursor.RoundTrip(Cursor.CursorData(Uuid.Format(x.id), x.createdAt * 1000, x.votes));
  }

  ghost predicate TableFits(t: Table) {
    Keyed(t) && forall x :: x in t ==> Encodable(x)
  }

  // ----- The repository -----

  /** What ListRequestsByTop and ListRequestsByNew return. */
  function ListBy(order: Order, t: Table, cursor: Option<Text>, limit: nat): Result<seq<Item>, ListError>
    requires Keyed(t)
  {
    match BoundOf(cursor)
    case Failure(e) => Failure(e)
    case Success(bound) => Success(Query(order, t, bound, limit))
  }

  function ScannedRows(res: Result<seq<Item>, ListError>): Result<seq<FeatureRequest>, ListError> {
    match res
    case Failure(e) => Failure(e)
    case Success(rows) => Success(ScannedAll(rows))
  }

  class RequestRepo {
    var table: Table

    constructor (table: Table)
      ensures this.table == table
    {
      this.table := table;
    }

    method ListRequestsByNew(cursor: Option<Text>, limit: nat) returns (res: Result<seq<FeatureRequest>, ListError>)
      requires Keyed(table)
      ensures res == ScannedRows(ListBy(ByNew, table, cursor, limit))
    {
      var where: Option<Item> := None;
      if cursor.Some? && cursor.value != [] {
        var cur := Cursor.Decode(cursor.value);
        if cur.Some? {
          var id := Uuid.Parse(cur.value.id);
          if id.None? {
            return Failure(QueryError);
          }
          where := Some(Item(id.value, cur.value.createdAt / 1000, cur.value.voteCount));
        }
      }
      var items := CollectRequests(Query(ByNew, table, where, limit));
      return Success(items);
    }

    method ListRequestsByTop(cursor: Option<Text>, limit: nat) returns (res: Result<seq<FeatureRequest>, ListError>)
      requires Keyed(table)
      ensures res == ScannedRows(ListBy(ByTop, table, cursor, limit))
    {
      var where: Option<Item> := None;
      if cursor.Some? && cursor.value != [] {
        var cur := Cursor.Decode(cursor.value);
        if cur.Some? {
          var id := Uuid.Parse(cur.value.id);
          if id.None? {
            return Failure(QueryError);
          }
          where := Some(Item(id.value, cur.value.createdAt / 1000, cur.value.voteCount));
        }
      }
      var items := CollectRequests(Query(ByTop, table, where, limit));
      return Success(items);
    }

    method ListRequestsByTrending(cursor: Option<Text>, limit: nat)
      returns (res: Result<seq<FeatureRequest>, ListError>)
      requires Keyed(table)
      ensures res == ScannedRows(ListBy(ByTop, table, cursor, limit))
    {
      res := ListRequestsByTop(cursor, limit);
    }

    method CollectRequests(rows: seq<Item>) returns (result: seq<FeatureRequest>)
      ensures result == ScannedAll(rows)
      ensures forall i :: 0 <= i < |rows| && Encodable(rows[i]) ==>
        Uuid.Parse(result[i].id) == Some(rows[i].id) && result[i].voteCount == rows[i].votes
    {
      result := [];
      for i := 0 to |rows|
        invariant |result| == i && forall j :: 0 <= j < i ==> result[j] == Scanned(rows[j])
      {
        var id, createdAt, voteCount := rows[i].id, rows[i].createdAt, rows[i].votes;
        var fr := FeatureRequest(Uuid.Format(id), createdAt * 1000, voteCount);
        result := result + [fr];
      }
      forall i | 0 <= i < |rows| && Encodable(rows[i])
        ensures Uuid.Parse(result[i].id) == Some(rows[i].id) && result[i].voteCount == rows[i].votes
      {
        ScannedDenotesRow(rows[i]);
      }
    }
  }

  // ----- The service -----

  function OrderOf(sort: string): Order {
    if sort == "top" || sort == "trending" then ByTop else ByNew
  }

  function ClampLimit(limit: int): (n: nat)
    ensures 1 <= n <= 100
    ensures n == limit <==> 1 <= limit <= 100
    ensures n != limit ==> n == 20
  {
    if limit <= 0 || limit > 100 then 20 else limit
  }

  /** The page a listing serves: fetch one row too many, and use it only to tell that there are more. */
  function List(t: Table, params: ListParams): Result<Page, ListError>
    requires Keyed(t)
  {
    var limit := ClampLimit(params.limit);
    match ListBy(OrderOf(params.sort), t, params.cursor, limit + 1)
    case Failure(e) => Failure(e)
    case Success(items) =>
      if |items| > limit then
        Success(Page(items[..limit], Some(CursorOf(items[limit - 1]))))
      else
        Success(Page(items, None))
  }

  /** A page, given the sorted rows below its bound: the first `limit`, and a cursor for the last one if more remain. */
  lemma PageIs(t: Table, params: ListParams, bound: Option<Item>)
    requires Keyed(t) && BoundOf(params.cursor) == Success(bound)
    ensures var order, limit := OrderOf(params.sort), ClampLimit(params.limit);
      var d := Desc(order, Filter(order, t, bound));
      List(t, params) == Success(Page(Take(d, limit), if |d| > limit then Some(CursorOf(d[limit - 1])) else None))
  {
    hide Desc, BoundOf, CursorOf;
    var d, limit := Desc(OrderOf(params.sort), Filter(OrderOf(params.sort), t, bound)), ClampLimit(params.limit);
    assert |d| > limit ==> Take(d, limit + 1)[..limit] == d[..limit];
  }

  /** The page as the services return it. */
  function ScannedPage(res: Result<Page, ListError>): Result<RequestPage, ListError> {
    match res
    case Failure(e) => Failure(e)
    case Success(page) => Success(RequestPage(ScannedAll(page.items), page.nextCursor))
  }

  /** Votes first for "top" and "trending"; then the newer request, then the larger id. */
  ghost predicate InColumns(sort: string, items: seq<FeatureRequest>) {
    forall i, j :: 0 <= i < j < |items| ==>
      var a, b := items[i], items[j];
      && Uuid.Parse(a.id).Some? && Uuid.Parse(b.id).Some?
      && if sort == "top" || sort == "trending" then
           || b.voteCount < a.voteCount
           || (b.voteCount == a.voteCount && b.createdAt < a.createdAt)
           || (&& b.voteCount == a.voteCount && b.createdAt == a.createdAt
               && Uuid.Parse(b.id).value < Uuid.Parse(a.id).value)
         else
           || b.createdAt < a.createdAt
           || (b.createdAt == a.createdAt && Uuid.Parse(b.id).value < Uuid.Parse(a.id).value)
  }

  /** Spelt out for any two items of a page. */
  lemma InColumnsMeans(sort: string, items: seq<FeatureRequest>, i: nat, j: nat)
    requires InColumns(sort, items) && i < j < |items|
    ensures var a, b := items[i], items[j];
      && Uuid.Parse(a.id).Some? && Uuid.Parse(b.id).Some?
      && if sort == "top" || sort == "trending" then
           || b.voteCount < a.voteCount
           || (b.voteCount == a.voteCount && b.createdAt < a.createdAt)
           || (&& b.voteCount == a.voteCount && b.createdAt == a.createdAt
               && Uuid.Parse(b.id).value < Uuid.Parse(a.id).value)
         else
           || b.createdAt < a.createdAt
           || (b.createdAt == a.createdAt && Uuid.Parse(b.id).value < Uuid.Parse(a.id).value)
  {
  }

  lemma ScannedInOrder(sort: string, rows: seq<Item>)
    requires Descending(OrderOf(sort), rows) && forall x :: x in rows ==> Encodable(x)
    ensures InColumns(sort, ScannedAll(rows))
  {
    forall i | 0 <= i < |rows|
      ensures Uuid.Parse(Scanned(rows[i]).id) == Some(rows[i].id)
    {
      assert rows[i] in rows;
      ScannedDenotesRow(rows[i]);
    }
    assert forall i, j :: 0 <= i < j < |rows| ==> Less(OrderOf(sort), rows[j], rows[i]);
    hide Uuid.Parse, Uuid.Format, Encodable, Descending;
  }

  /** The scanned items of a page come in the order of the columns. */
  lemma PageInOrder(t: Table, params: ListParams)
    requires TableFits(t)
    ensures var res := ScannedPage(List(t, params)); res.Success? ==> InColumns(params.sort, res.value.items)
  {
    if List(t, params).Success? {
      var bound, n := BoundOf(params.cursor).value, ClampLimit(params.limit) + 1;
      var q := Query(OrderOf(params.sort), t, bound, n);
      QueryMeaning(OrderOf(params.sort), t, bound, n);
      var items := List(t, params).value.items;
      assert items == q[..|items|];
      hide Query, BoundOf, Encodable, List, Less, Scanned, InColumns;
      assert forall x :: x in items ==> x in q;
      ScannedInOrder(params.sort, items);
    }
  }

  /** How many items a page has, whose they are, and when it promises more. */
  lemma PageSize(t: Table, params: ListParams)
    requires Keyed(t)
    ensures var res, limit := ScannedPage(List(t, params)), if 1 <= params.limit <= 100 then params.limit else 20;
      res.Success? ==>
        && |res.value.items| <= limit
        && (res.value.nextCursor.Some? ==> |res.value.items| == limit)
        && forall i :: 0 <= i < |res.value.items| ==> exists x :: x in t && res.value.items[i] == Scanned(x)
  {
    if List(t, params).Success? {
      var bound := BoundOf(params.cursor).value;
      QueryMeaning(OrderOf(params.sort), t, bound, ClampLimit(params.limit) + 1);
      var q := Query(OrderOf(params.sort), t, bound, ClampLimit(params.limit) + 1);
      hide Query, BoundOf, Scanned;
      var items := List(t, params).value.items;
      forall i | 0 <= i < |items|
        ensures exists x :: x in t && Scanned(items[i]) == Scanned(x)
      {
        assert q[i] in q && items[i] == q[i];
      }
    }
  }

  /** A cursor that is empty or not decodable asks for the first page; only an id that is no UUID is an error. */
  lemma BadCursors(t: Table, params: ListParams)
    requires Keyed(t)
    ensures params.cursor.Some? && (params.cursor.value == [] || Cursor.Decode(params.cursor.value).None?) ==>
      List(t, params) == List(t, params.(cursor := None))
    ensures List(t, params).Failure? <==>
      && params.cursor.Some? && params.cursor.value != []
      && Cursor.Decode(params.cursor.value).Some?
      && Uuid.Parse(Cursor.Decode(params.cursor.value).value.id).None?
  {
    hide Query, Cursor.Decode, Uuid.Parse, CursorOf;
  }

  /** The page in terms of what the repository returns. */
  lemma PageFollows(t: Table, params: ListParams)
    requires Keyed(t)
    ensures var limit := ClampLimit(params.limit);
      var fetched := ScannedRows(ListBy(OrderOf(params.sort), t, params.cursor, limit + 1));
      ScannedPage(List(t, params)) ==
        if fetched.Failure? then Failure(fetched.error)
        else if |fetched.value| > limit then
          Success(RequestPage(fetched.value[..limit], Some(EncodeCursor(fetched.value[limit - 1]))))
        else Success(RequestPage(fetched.value, None))
  {
    hide ListBy, EncodeCursor, Scanned;
    var limit := ClampLimit(params.limit);
    if ListBy(OrderOf(params.sort), t, params.cursor, limit + 1).Success? {
      var rows := ListBy(OrderOf(params.sort), t, params.cursor, limit + 1).value;
      assert |rows| > limit ==> ScannedAll(rows[..limit]) == ScannedAll(rows)[..limit];
    }
  }

  class RankingService {
    const repo: RequestRepo

    constructor (repo: RequestRepo)
      ensures this.repo == repo
    {
      this.repo := repo;
    }

    /** RankingService.List; RequestService.List does the same. */
    method ListPage(params: ListParams) returns (res: Result<RequestPage, ListError>)
      requires Keyed(repo.table)
      ensures res == ScannedPage(List(repo.table, params))
      ensures res.Success? && TableFits(repo.table) ==> InColumns(params.sort, res.value.items)
      ensures var limit := if 1 <= params.limit <= 100 then params.limit else 20;
        res.Success? ==>
          && |res.value.items| <= limit
          && (res.value.nextCursor.Some? ==> |res.value.items| == limit)
      ensures res.Failure? <==>
        && params.cursor.Some? && params.cursor.value != []
        && Cursor.Decode(params.cursor.value).Some?
        && Uuid.Parse(Cursor.Decode(params.cursor.value).value.id).None?
    {
      hide ListBy, EncodeCursor, Scanned, Cursor.Decode, Uuid.Parse, TableFits, InColumns;
      var limit := params.limit;
      if limit <= 0 || limit > 100 {
        limit := 20;
      }
      var fetched: Result<seq<FeatureRequest>, ListError>;
      if params.sort == "top" {
        fetched := repo.ListRequestsByTop(params.cursor, limit + 1);
      } else if params.sort == "trending" {
        fetched := repo.ListRequestsByTrending(params.cursor, limit + 1);
      } else {
        fetched := repo.ListRequestsByNew(params.cursor, limit + 1);
      }
      PageFollows(repo.table, params);
      BadCursors(repo.table, params);
      if fetched.Failure? {
        return Failure(fetched.error);
      }
      var items := fetched.value;
      var nextCursor := None;
      if |items| > limit {
        items := items[..limit];
        nextCursor := Some(EncodeCursor(items[limit - 1]));
      }
      res := Success(RequestPage(items, nextCursor));
      assert res == ScannedPage(List(repo.table, params));
      PageSize(repo.table, params);
      if TableFits(repo.table) {
        PageInOrder(repo.table, params);
      }
      hide List, ScannedPage, OrderOf, ClampLimit;
    }
  }
}
