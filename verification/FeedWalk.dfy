/** A client pages through the listing while the voting system runs: the two models put together. */
module FeedWalk {
  import opened Wrappers
  import opened VoteMachine
  import opened VoteSafety
  import opened Text
  import opened Keyset
  import opened Listing
  import opened Walk
  import Uuid

  /** The rows a listing query sees in a state. */
  function Rows(s: State): Table {
    set r | r in s.requests :: Item(r, s.requests[r].createdAt, s.requests[r].count)
  }

  /** Ids are UUIDs and creation times fit 64-bit nanoseconds, as the column types and the clock have it. */
  ghost predicate ColumnsFit(s: State) {
    forall r :: r in s.requests ==> Uuid.IsUuid(r) && FitsIn(s.requests[r].createdAt * 1000, 64)
  }

  /** states[i] is the state page i is served from; in between, anything may run. */
  ghost predicate Unfolds(states: seq<State>, gaps: seq<seq<Event>>) {
    && |states| == |gaps| + 1
    && forall i :: 0 <= i < |gaps| ==> Run(states[i], gaps[i]) == Some(states[i + 1])
  }

  function Tables(states: seq<State>): (tables: seq<Table>)
    ensures |tables| == |states| && forall i :: 0 <= i < |tables| ==> tables[i] == Rows(states[i])
  {
    seq(|states|, i requires 0 <= i < |states| => Rows(states[i]))
  }

  lemma {:induction false} InvAlong(states: seq<State>, gaps: seq<seq<Event>>, i: nat, j: nat)
    requires Unfolds(states, gaps) && Inv(states[0]) && i <= j < |states|
    ensures Inv(states[j]) && Extends(states[i], states[j])
    decreases j
  {
    hide Run, Inv;
    if j > 0 {
      InvAlong(states, gaps, if i < j then i else j - 1, j - 1);
      assert Run(states[j - 1], gaps[j - 1]) == Some(states[j - 1 + 1]);
      RunKeepsInv(states[j - 1], gaps[j - 1]);
    }
  }

  lemma RowsFit(s: State)
    requires CountsInRange(s) && ColumnsFit(s)
    ensures TableFits(Rows(s))
  {
  }

  lemma CountsFit(s: State)
    requires Inv(s)
    ensures CountsInRange(s)
  {
  }

  /** The table of any state on the way: it fits the cursors, has the final creation times and all initial requests. */
  lemma TableBehaves(states: seq<State>, gaps: seq<seq<Event>>, i: nat)
    requires Unfolds(states, gaps) && Inv(states[0]) && ColumnsFit(states[|gaps|]) && i < |states|
    ensures TableFits(Rows(states[i]))
    ensures forall x :: x in Rows(states[i]) ==>
      x.id in states[|gaps|].requests && x.createdAt == states[|gaps|].requests[x.id].createdAt
    ensures forall r :: r in states[0].requests ==> Listed(Rows(states[i]), r)
  {
    hide Run, Inv;
    InvAlong(states, gaps, i, |gaps|);
    InvAlong(states, gaps, 0, i);
    CountsFit(states[i]);
    RowsFit(states[i]);
    forall r | r in states[0].requests
      ensures Listed(Rows(states[i]), r)
    {
      assert Item(r, states[i].requests[r].createdAt, states[i].requests[r].count) in Rows(states[i]);
    }
  }

  lemma NoTableForgets(states: seq<State>, gaps: seq<seq<Event>>)
    requires Unfolds(states, gaps) && Inv(states[0]) && ColumnsFit(states[|gaps|])
    ensures NoneRemoved(Tables(states))
  {
    hide Run, Inv, TableFits, ColumnsFit;
    forall i, x: Item | 0 <= i < |states| && x in Tables(states)[0]
      ensures Listed(Tables(states)[i], x.id)
    {
      TableBehaves(states, gaps, i);
    }
  }

  lemma TablesKeepCreation(states: seq<State>, gaps: seq<seq<Event>>)
    requires Unfolds(states, gaps) && Inv(states[0]) && ColumnsFit(states[|gaps|])
    ensures CreationFixed(Tables(states))
  {
    var last := states[|gaps|];
    hide Run, Inv, TableFits, ColumnsFit, Unfolds, Rows;
    forall x | InSome(Tables(states), x)
      ensures x.id in last.requests && x.createdAt == last.requests[x.id].createdAt
    {
      var i :| 0 <= i < |Tables(states)| && x in Tables(states)[i];
      TableBehaves(states, gaps, i);
    }
  }

  lemma TablesBehave(states: seq<State>, gaps: seq<seq<Event>>)
    requires Unfolds(states, gaps) && Inv(states[0]) && ColumnsFit(states[|gaps|])
    ensures AllFit(Tables(states)) && CreationFixed(Tables(states)) && NoneRemoved(Tables(states))
  {
    hide Run, Inv, TableFits, ColumnsFit, CreationFixed, NoneRemoved;
    forall i | 0 <= i < |states|
      ensures TableFits(Tables(states)[i])
    {
      TableBehaves(states, gaps, i);
    }
    TablesKeepCreation(states, gaps);
    NoTableForgets(states, gaps);
  }

  /**
    Newest first, while any calls, submissions and reconcile passes run between the pages: a completed
    walk returns every request that existed at its start, and no request twice.
  */
  lemma NewFeedIsExact(states: seq<State>, gaps: seq<seq<Event>>, sort: string, limit: int)
    requires Unfolds(states, gaps) && Inv(states[0]) && ColumnsFit(states[|gaps|]) && OrderOf(sort).ByNew?
    ensures AllFit(Tables(states))
    ensures var s := Received(Tables(states), sort, limit);
      Completed(Tables(states), sort, limit) ==>
        && (forall r :: r in states[0].requests ==> exists i :: 0 <= i < |s| && s[i].id == r)
        && (forall i, j :: 0 <= i < j < |s| ==> s[i].id != s[j].id)
  {
    hide Run, Inv, AllFit, CreationFixed, NoneRemoved;
    TablesBehave(states, gaps);
    if Completed(Tables(states), sort, limit) {
      NewestFirstIsExact(Tables(states), sort, limit);
      forall r | r in states[0].requests
        ensures Item(r, states[0].requests[r].createdAt, states[0].requests[r].count) in Tables(states)[0]
      {
      }
    }
  }

  /** Top first: a completed walk returns exactly once every request whose counter is the same at each page. */
  lemma TopFeedReturnsSteadyRequests(states: seq<State>, gaps: seq<seq<Event>>, sort: string, limit: int, r: ReqId)
    requires Unfolds(states, gaps) && Inv(states[0]) && ColumnsFit(states[|gaps|]) && OrderOf(sort).ByTop?
    requires r in states[0].requests
    requires forall i :: 0 <= i < |states| && r in states[i].requests ==>
      states[i].requests[r].count == states[0].requests[r].count
    ensures AllFit(Tables(states))
    ensures Completed(Tables(states), sort, limit) ==>
      ExactlyOnce(Received(Tables(states), sort, limit), ByTop,
                  Item(r, states[0].requests[r].createdAt, states[0].requests[r].count))
  {
    hide Run, Inv, AllFit, CreationFixed, NoneRemoved;
    TablesBehave(states, gaps);
    var tables := Tables(states);
    if Completed(tables, sort, limit) {
      var x := Item(r, states[0].requests[r].createdAt, states[0].requests[r].count);
      forall i | 0 <= i < |tables|
        ensures Holds(tables[i], ByTop, x)
      {
        InvAlong(states, gaps, 0, i);
        assert x in Rows(states[i]);
      }
      StayingRowsComeOnce(tables, sort, limit, x);
    }
  }

  /** Rows shown on the way are of requests known in the end, with counters that are not negative. */
  lemma RowsKnown(states: seq<State>, gaps: seq<seq<Event>>, x: Item)
    requires Unfolds(states, gaps) && Inv(states[0]) && InSome(Tables(states), x)
    ensures x.id in states[|gaps|].requests && 0 <= x.votes
    ensures exists i :: 0 <= i < |states| && x.id in states[i].requests && x.votes == states[i].requests[x.id].count
  {
    hide Run, Inv;
    var i :| 0 <= i < |Tables(states)| && x in Tables(states)[i];
    assert x in Rows(states[i]);
    InvAlong(states, gaps, i, |gaps|);
    InvAlong(states, gaps, 0, i);
    CountsFit(states[i]);
  }

  /** Newest first, the walk is completed once its pages have room for the requests there are in the end. */
  lemma NewFeedCompletes(states: seq<State>, gaps: seq<seq<Event>>, sort: string, limit: int)
    requires Unfolds(states, gaps) && Inv(states[0]) && ColumnsFit(states[|gaps|]) && OrderOf(sort).ByNew?
    requires |states| * ClampLimit(limit) >= |states[|gaps|].requests.Keys|
    ensures AllFit(Tables(states)) && Completed(Tables(states), sort, limit)
  {
    hide Run, Inv, AllFit, CreationFixed, NoneRemoved, Completed;
    TablesBehave(states, gaps);
    var ids := states[|gaps|].requests.Keys;
    forall x | InSome(Tables(states), x)
      ensures x.id in ids
    {
      RowsKnown(states, gaps, x);
    }
    NewestFirstCompletes(Tables(states), sort, limit, ids);
  }

  /** In either order, if no count reaches n, it is once they have room for each request at every count below n. */
  lemma TopFeedCompletes(states: seq<State>, gaps: seq<seq<Event>>, sort: string, limit: int, n: nat)
    requires Unfolds(states, gaps) && Inv(states[0]) && ColumnsFit(states[|gaps|])
    requires forall i, r :: 0 <= i < |states| && r in states[i].requests ==> states[i].requests[r].count < n
    requires |states| * ClampLimit(limit) >= |states[|gaps|].requests.Keys| * n
    ensures AllFit(Tables(states)) && Completed(Tables(states), sort, limit)
  {
    hide Run, Inv, AllFit, CreationFixed, NoneRemoved, Completed;
    TablesBehave(states, gaps);
    var ids := states[|gaps|].requests.Keys;
    forall x | InSome(Tables(states), x)
      ensures x.id in ids && 0 <= x.votes < n
    {
      RowsKnown(states, gaps, x);
    }
    TopWalkCompletes(Tables(states), sort, limit, ids, n);
  }
}
