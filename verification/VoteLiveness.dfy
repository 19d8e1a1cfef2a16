/** Calls cannot deadlock, and they finish in a bounded number of steps. */
module VoteLiveness {
  import opened Wrappers
  import opened VoteMachine
  import opened VoteSafety

  predicate Unfinished(s: State, c: CallId) {
    c in s.calls && !s.calls[c].phase.Replied?
  }

  // ----- Somebody can always move -----

  /** A transaction holding a row lock never waits. */
  lemma RowHolderNeverWaits(s: State, c: CallId)
    requires Inv(s) && c in s.calls && s.calls[c].OwnsRow()
    ensures Step(s, Advance(c)).Some?
  {
  }

  /** A transaction holding only a key lock waits for nothing but a row holder. */
  lemma KeyHolderWaitsForRow(s: State, c: CallId)
    requires Inv(s) && c in s.calls && s.calls[c].phase == Wrote(true) && !RowLocked(s, s.calls[c].req)
    ensures Step(s, Advance(c)).Some?
  {
  }

  /** A call that holds no lock waits for nothing but the holder of its key. */
  lemma CallWaitsForKey(s: State, c: CallId)
    requires Inv(s) && Unfinished(s, c) && !s.calls[c].OwnsKey() && !KeyLocked(s, c, s.calls[c].Key())
    ensures Step(s, Advance(c)).Some?
  {
  }

  /** Deadlock freedom: while a call is unfinished, some unfinished call can run its next statement. */
  lemma SomeCallCanAdvance(s: State, c: CallId) returns (d: CallId)
    requires Inv(s) && Unfinished(s, c)
    ensures Unfinished(s, d) && Step(s, Advance(d)).Some?
  {
    hide Step, Inv;
    if h :| h in s.calls && s.calls[h].OwnsRow() {
      RowHolderNeverWaits(s, h);
      d := h;
    } else if h :| h in s.calls && s.calls[h].OwnsKey() {
      KeyHolderWaitsForRow(s, h);
      d := h;
    } else {
      CallWaitsForKey(s, c);
      d := c;
    }
  }

  // ----- Who waits for whom, and what can happen -----

  /**
    Waiting, exactly. A call's next statement waits if and only if it is a votes statement and another
    transaction has an uncommitted change of the same user's vote on the same request (and, for a
    removal, there is a committed vote to remove), or it is a counter statement and some transaction
    has an uncommitted counter of the same request. Votes of others and other requests hold up nobody.
  */
  lemma WaitsExactly(s: State, c: CallId)
    requires Inv(s) && Unfinished(s, c)
    ensures Step(s, Advance(c)).None? <==>
      var k := s.calls[c];
      || (&& k.phase == Begun
          && (k.op == RemoveVote ==> Vote(k.user, k.req) in s.votes)
          && exists d :: d in s.calls && d != c && s.calls[d].user == k.user && s.calls[d].req == k.req
                      && (s.calls[d].phase == Wrote(true) || s.calls[d].phase.Moved?))
      || (&& k.phase == Wrote(true)
          && exists d :: d in s.calls && s.calls[d].req == k.req && s.calls[d].phase.Moved?)
  {
    hide KeysExclusive, RowsExclusive, QueuesValid, VotesValid, CountsInRange, Bump, Toggle;
  }

  /** What else can happen, exactly: nothing else waits, but for a fix that finds its row locked. */
  lemma WhatCanHappen(s: State, e: Event)
    requires Inv(s)
    ensures e.Submit? ==> (Step(s, e).Some? <==> e.req !in s.requests)
    ensures e.Arrive? ==> (Step(s, e).Some? <==> e.call !in s.calls)
    ensures e.Fail? ==> (Step(s, e).Some? <==> e.call in s.calls && !s.calls[e.call].phase.Replied?)
    ensures e.CommitLost? ==> (Step(s, e).Some? <==>
      e.call in s.calls && (s.calls[e.call].phase == Wrote(false) || s.calls[e.call].phase.Moved?))
    ensures e.Fix? ==> (Step(s, e).Some? <==>
      && e.loop in s.queues && s.queues[e.loop] != []
      && (e.applied ==>
            !exists d :: d in s.calls && s.calls[d].phase.Moved? && s.calls[d].req == s.queues[e.loop][0].req))
  {
    hide KeysExclusive, RowsExclusive, VotesValid, CountsInRange, Bump, Toggle, TalliesFit, ListsMismatches;
    assert e.Fix? ==> QueueValid(s, Queue(s, e.loop));
  }

  /** The rows among these whose counter is wrong. */
  lemma {:induction false} WrongRows(s: State, among: set<ReqId>) returns (ms: seq<Mismatch>)
    requires among <= s.requests.Keys
    ensures forall i :: 0 <= i < |ms| ==> Mismatched(s, ms[i]) && ms[i].req in among
    ensures forall i, j :: 0 <= i < j < |ms| ==> ms[i].req != ms[j].req
    ensures forall r :: r in among && s.requests[r].count != Tally(s.votes, r) ==>
      exists i :: 0 <= i < |ms| && ms[i].req == r
    decreases among
  {
    hide Tally;
    if among == {} {
      ms := [];
    } else {
      var r :| r in among;
      var rest := WrongRows(s, among - {r});
      ms := rest;
      if s.requests[r].count != Tally(s.votes, r) {
        ms := rest + [Mismatch(r, s.requests[r].count, Tally(s.votes, r))];
        assert ms[|rest|].req == r;
        assert forall i :: 0 <= i < |rest| ==> ms[i] == rest[i];
      }
    }
  }

  /** A loop can take a snapshot if and only if it is between passes and every number of votes fits INTEGER. */
  lemma SnapshotCanHappen(s: State, loop: LoopId)
    ensures (exists ms :: Step(s, Snapshot(loop, ms)).Some?) <==>
      && (loop !in s.queues || s.queues[loop] == [])
      && forall r :: r in s.requests ==> |VotesOn(s.votes, r)| <= 0x7FFF_FFFF
  {
    if Queue(s, loop) == [] && TalliesFit(s) {
      var ms := WrongRows(s, s.requests.Keys);
      assert ListsMismatches(s, ms);
      assert Step(s, Snapshot(loop, ms)).Some?;
    }
  }

  // ----- A bound on the steps -----

  /** The statements a call still has before it, at most. */
  function Rank(phase: Phase): nat {
    match phase
    case Arrived => 6
    case Checked => 5
    case Begun => 4
    case Wrote(_) => 3
    case Moved(_) => 2
    case Committed(_) => 1
    case Replied(_) => 0
  }

  /** The sum of the weights of some keys. */
  ghost function Sum(weights: map<nat, nat>, among: set<nat>): nat
    requires among <= weights.Keys
    decreases among
  {
    if among == {} then 0
    else
      var k :| k in among;
      weights[k] + Sum(weights, among - {k})
  }

  ghost function Total(weights: map<nat, nat>): nat {
    Sum(weights, weights.Keys)
  }

  function Ranks(calls: map<CallId, Call>): map<nat, nat> {
    map c | c in calls :: Rank(calls[c].phase)
  }

  function Lengths(queues: map<LoopId, seq<Mismatch>>): map<nat, nat> {
    map loop | loop in queues :: |queues[loop]|
  }

  /** The steps left: those of the calls in progress and the rows on the work lists. */
  ghost function Work(s: State): nat {
    Total(Ranks(s.calls)) + Total(Lengths(s.queues))
  }

  lemma {:induction false} SumPick(weights: map<nat, nat>, among: set<nat>, k: nat)
    requires among <= weights.Keys && k in among
    ensures Sum(weights, among) == weights[k] + Sum(weights, among - {k})
    decreases among
  {
    var j :| j in among && Sum(weights, among) == weights[j] + Sum(weights, among - {j});
    if j != k {
      SumPick(weights, among - {j}, k);
      SumPick(weights, among - {k}, j);
      assert among - {j} - {k} == among - {k} - {j};
    }
  }

  lemma {:induction false} SumAgrees(before: map<nat, nat>, after: map<nat, nat>, among: set<nat>)
    requires among <= before.Keys && among <= after.Keys
    requires forall k :: k in among ==> before[k] == after[k]
    ensures Sum(before, among) == Sum(after, among)
    decreases among
  {
    if among != {} {
      var k :| k in among;
      SumPick(before, among, k);
      SumPick(after, among, k);
      SumAgrees(before, after, among - {k});
    }
  }

  lemma TotalWithout(weights: map<nat, nat>, k: nat)
    ensures Total(weights) == Sum(weights, weights.Keys - {k}) + if k in weights then weights[k] else 0
  {
    if k in weights {
      SumPick(weights, weights.Keys, k);
    } else {
      assert weights.Keys - {k} == weights.Keys;
    }
  }

  /** Maps that agree but at k have totals that differ by the weights of k. */
  lemma TotalDiffers(before: map<nat, nat>, after: map<nat, nat>, k: nat)
    requires before.Keys - {k} == after.Keys - {k}
    requires forall j :: j in before.Keys - {k} ==> before[j] == after[j]
    ensures Total(after) - (if k in after then after[k] else 0) == Total(before) - if k in before then before[k] else 0
  {
    hide Sum;
    SumAgrees(before, after, before.Keys - {k});
    TotalWithout(before, k);
    TotalWithout(after, k);
  }

  lemma RanksDiffer(calls: map<CallId, Call>, c: CallId, k: Call)
    ensures Total(Ranks(calls[c := k]))
         == Total(Ranks(calls)) + Rank(k.phase) - if c in calls then Rank(calls[c].phase) else 0
  {
    hide Total;
    var before, after := Ranks(calls), Ranks(calls[c := k]);
    assert before.Keys - {c} == after.Keys - {c};
    TotalDiffers(before, after, c);
  }

  lemma LengthsDiffer(s: State, loop: LoopId, queue: seq<Mismatch>)
    ensures Total(Lengths(SetQueue(s, loop, queue).queues)) == Total(Lengths(s.queues)) + |queue| - |Queue(s, loop)|
  {
    hide Total;
    var before, after := Lengths(s.queues), Lengths(SetQueue(s, loop, queue).queues);
    assert before.Keys - {loop} == after.Keys - {loop};
    TotalDiffers(before, after, loop);
  }

  /** An event of a call or of a reconcile loop, as opposed to new work arriving. */
  predicate Moves(e: Event) {
    e.Advance? || e.Fail? || e.CommitLost? || e.Fix?
  }

  /** The work an event brings in. */
  function Brings(e: Event): nat {
    match e
    case Arrive(_, _, _, _) => 6
    case Snapshot(_, ms) => |ms|
    case _ => 0
  }

  /** A step of a call is one of its statements. */
  lemma CallStepRank(s: State, e: Event)
    requires Step(s, e).Some? && OfCall(e)
    ensures var t := Step(s, e).value;
      && e.call in s.calls && e.call in t.calls
      && t.calls == s.calls[e.call := t.calls[e.call]] && t.queues == s.queues
      && Rank(t.calls[e.call].phase) < Rank(s.calls[e.call].phase)
  {
    CallStep(s, e);
    hide KeyLocked, RowLocked, WouldChange, Bump, Toggle;
  }

  /** A snapshot sets the loop's list, a fix shortens it, and nothing else touches the lists. */
  lemma ListStep(s: State, e: Event)
    requires Step(s, e).Some? && !OfCall(e)
    ensures e.Fix? ==> Queue(s, e.loop) != []
    ensures Step(s, e).value.queues
         == if e.Snapshot? then SetQueue(s, e.loop, e.mismatches).queues
            else if e.Fix? then SetQueue(s, e.loop, Queue(s, e.loop)[1..]).queues
            else s.queues
  {
    hide TalliesFit, ListsMismatches, RowLocked;
  }

  lemma StepWork(s: State, e: Event)
    requires Step(s, e).Some?
    ensures Work(Step(s, e).value) + (if Moves(e) then 1 else 0) <= Work(s) + Brings(e)
  {
    hide Step, Total, Ranks, Lengths, SetQueue, Queue;
    var t := Step(s, e).value;
    if OfCall(e) {
      CallStepRank(s, e);
      RanksDiffer(s.calls, e.call, t.calls[e.call]);
    } else {
      OtherStep(s, e);
      ListStep(s, e);
      match e {
        case Arrive(c, op, u, r) => RanksDiffer(s.calls, c, t.calls[c]);
        case Snapshot(loop, ms) => LengthsDiffer(s, loop, ms);
        case Fix(loop, _) =>
          StepQueue(s, e, loop);
          LengthsDiffer(s, loop, Queue(s, loop)[1..]);
        case _ =>
      }
    }
  }

  function StepsTaken(es: seq<Event>): nat {
    if es == [] then 0 else StepsTaken(es[..|es| - 1]) + if Moves(es[|es| - 1]) then 1 else 0
  }

  function WorkBrought(es: seq<Event>): nat {
    if es == [] then 0 else WorkBrought(es[..|es| - 1]) + Brings(es[|es| - 1])
  }

  /** Over any run the steps taken are bounded by the work there was and the work that came in. */
  lemma {:induction false} RunIsBounded(s: State, es: seq<Event>)
    requires Run(s, es).Some?
    ensures StepsTaken(es) + Work(Run(s, es).value) <= Work(s) + WorkBrought(es)
    decreases |es|
  {
    hide Step, Work;
    if es != [] {
      RunIsBounded(s, es[..|es| - 1]);
      StepWork(Run(s, es[..|es| - 1]).value, es[|es| - 1]);
    }
  }

  /** The steps of one call in a run. */
  function StepsOf(es: seq<Event>, c: CallId): nat {
    if es == [] then 0
    else
      var e := es[|es| - 1];
      StepsOf(es[..|es| - 1], c) + if (e.Advance? || e.Fail? || e.CommitLost?) && e.call == c then 1 else 0
  }

  lemma StepLowersRank(s: State, e: Event, c: CallId)
    requires Step(s, e).Some? && c in s.calls
    ensures c in Step(s, e).value.calls
    ensures Rank(Step(s, e).value.calls[c].phase)
         <= Rank(s.calls[c].phase) - if OfCall(e) && e.call == c then 1 else 0
  {
    hide Step, Rank;
    if OfCall(e) {
      CallStepRank(s, e);
    } else {
      OtherStep(s, e);
    }
  }

  /** A call takes at most six steps, from its arrival to its reply, in any run. */
  lemma {:induction false} SixStepsACall(s: State, es: seq<Event>, c: CallId)
    requires Run(s, es).Some?
    ensures StepsOf(es, c) <= 6
    ensures StepsOf(es, c) > 0 ==> c in Run(s, es).value.calls
    ensures c in Run(s, es).value.calls ==> StepsOf(es, c) + Rank(Run(s, es).value.calls[c].phase) <= 6
    decreases |es|
  {
    hide Step;
    if es != [] {
      var init, e := es[..|es| - 1], es[|es| - 1];
      var m := Run(s, init).value;
      SixStepsACall(s, init, c);
      if c in m.calls {
        StepLowersRank(m, e, c);
      } else if OfCall(e) {
        CallStepRank(m, e);
      } else {
        OtherStep(m, e);
      }
    }
  }

  /** From every reachable state the calls in progress can all be brought to a reply, in at most Work(s) steps. */
  lemma {:induction false} CallsCanFinish(s: State) returns (es: seq<Event>)
    requires Inv(s)
    ensures |es| <= Work(s) && Run(s, es).Some?
    ensures forall c :: c in s.calls ==> c in Run(s, es).value.calls
    ensures forall c :: !Unfinished(Run(s, es).value, c)
    decreases Work(s)
  {
    hide Step, Inv, Work;
    if c :| Unfinished(s, c) {
      var d := SomeCallCanAdvance(s, c);
      var t := Step(s, Advance(d)).value;
      StepKeepsInv(s, Advance(d));
      StepWork(s, Advance(d));
      CallStepRank(s, Advance(d));
      var rest := CallsCanFinish(t);
      es := [Advance(d)] + rest;
      RunConcat(s, [Advance(d)], rest);
      assert [Advance(d)][..0] == [];
      assert Run(s, []) == Some(s);
    } else {
      es := [];
    }
  }

  /** A reconcile loop waits for nothing but a row holder, which can itself advance. */
  lemma FixWaitsForRowHolder(s: State, loop: LoopId) returns (d: CallId)
    requires Inv(s) && Queue(s, loop) != [] && Step(s, Fix(loop, true)).None?
    ensures Unfinished(s, d) && s.calls[d].req == Queue(s, loop)[0].req && Step(s, Advance(d)).Some?
  {
    d :| d in s.calls && s.calls[d].OwnsRow() && s.calls[d].req == Queue(s, loop)[0].req;
    RowHolderNeverWaits(s, d);
  }
}
