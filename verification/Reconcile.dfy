/**
  What reconcile passes achieve when calls, and the passes of other loops, go on between a snapshot
  and its writes.
*/
module Reconcile {
  import opened Wrappers
  import opened VoteMachine
  import opened VoteSafety
  import opened VoteLinearization

  predicate NoSnapshotBy(es: seq<Event>, loop: LoopId) {
    forall e :: e in es && e.Snapshot? ==> e.loop != loop
  }

  /** Until its next snapshot the work list of a loop only loses rows from its front. */
  lemma {:induction false} QueueIsSuffix(s: State, es: seq<Event>, loop: LoopId) returns (n: nat)
    requires Run(s, es).Some? && NoSnapshotBy(es, loop)
    ensures n <= |Queue(s, loop)| && Queue(Run(s, es).value, loop) == Queue(s, loop)[n..]
    decreases |es|
  {
    hide Step, Queue;
    if es == [] {
      n := 0;
    } else {
      var init, last := es[..|es| - 1], es[|es| - 1];
      assert last in es;
      n := QueueIsSuffix(s, init, loop);
      StepQueue(Run(s, init).value, last, loop);
      if last.Fix? && last.loop == loop {
        assert Queue(s, loop)[n..][1..] == Queue(s, loop)[n + 1..];
        n := n + 1;
      }
    }
  }

  // ----- What a write leaves -----

  /**
    The residual law. A loop takes a snapshot in m; anything else goes on, also passes of other loops;
    the loop gets to request r and its write takes effect. The drift this leaves is minus the net
    number of votes committed on r in between.
  */
  lemma FixLeavesNetChange(m: State, loop: LoopId, ms: seq<Mismatch>, es: seq<Event>, r: ReqId)
    requires Inv(m) && Step(m, Snapshot(loop, ms)).Some? && NoSnapshotBy(es, loop)
    requires Run(Step(m, Snapshot(loop, ms)).value, es).Some?
    requires var t := Run(Step(m, Snapshot(loop, ms)).value, es).value;
      Repairs(t, Fix(loop, true), r) && Step(t, Fix(loop, true)).Some?
    ensures var t := Run(Step(m, Snapshot(loop, ms)).value, es).value;
      && |m.log| <= |t.log| && r in Step(t, Fix(loop, true)).value.requests
      && Drift(Step(t, Fix(loop, true)).value, r) == -Net(t.log[|m.log|..], r)
  {
    hide Run, Step, Replay, Inv, Queue, Net;
    var s := Step(m, Snapshot(loop, ms)).value;
    var t := Run(s, es).value;
    StepKeepsInv(m, Snapshot(loop, ms));
    OtherStep(m, Snapshot(loop, ms));
    StepQueue(m, Snapshot(loop, ms), loop);
    RunReplays(s, es);
    RunKeepsInv(s, es);
    ReplayTally(s.votes, t.log[|s.log|..], r);
    var n := QueueIsSuffix(s, es, loop);
    assert Queue(t, loop)[0] == ms[n] && Mismatched(m, ms[n]);
    OtherStep(t, Fix(loop, true));
    assert r in m.requests && Extends(m, s) && Extends(s, t);
  }

  /**
    The outcome for a row that is written, exactly. The loop's snapshot is followed by xs, then by its
    write of r, then by ys, in which no loop writes r again. With net votes committed on r during xs,
    the counter is right in the end if and only if net is zero, or net is positive and r has had no
    votes at some moment since the write (the clamp then makes up for the lost votes).
  */
  lemma PassOutcome(m: State, loop: LoopId, ms: seq<Mismatch>, xs: seq<Event>, ys: seq<Event>, r: ReqId)
    requires Inv(m) && Step(m, Snapshot(loop, ms)).Some? && NoSnapshotBy(xs, loop)
    requires Run(Step(m, Snapshot(loop, ms)).value, xs).Some?
    requires var t := Run(Step(m, Snapshot(loop, ms)).value, xs).value;
      && Repairs(t, Fix(loop, true), r) && Step(t, Fix(loop, true)).Some?
      && var u := Step(t, Fix(loop, true)).value; Run(u, ys).Some? && Spared(u, ys, r)
    ensures var t := Run(Step(m, Snapshot(loop, ms)).value, xs).value;
      var u := Step(t, Fix(loop, true)).value;
      var end := Run(u, ys).value;
      && |m.log| <= |t.log| && r in end.requests
      && var net := Net(t.log[|m.log|..], r);
      && Drift(end, r) == Max(-net, -Lowest(u, ys, r))
      && (Drift(end, r) == 0 <==> net == 0 || (net > 0 && Lowest(u, ys, r) == 0))
  {
    hide Run, Step, Inv, Net, Lowest, Repairs, Spared;
    FixLeavesNetChange(m, loop, ms, xs, r);
    var s := Step(m, Snapshot(loop, ms)).value;
    var t := Run(s, xs).value;
    StepKeepsInv(m, Snapshot(loop, ms));
    RunKeepsInv(s, xs);
    StepKeepsInv(t, Fix(loop, true));
    DriftExactly(Step(t, Fix(loop, true)).value, ys, r);
  }

  // ----- Rows that are on no work list -----

  predicate OnWorkList(s: State, loop: LoopId, r: ReqId) {
    exists i :: 0 <= i < |Queue(s, loop)| && Queue(s, loop)[i].req == r
  }

  ghost predicate Unlisted(s: State, r: ReqId) {
    forall loop :: !OnWorkList(s, loop, r)
  }

  /** Any step but a snapshot that lists r keeps r off a work list. */
  lemma StaysOffList(m: State, e: Event, loop: LoopId, r: ReqId)
    requires Step(m, e).Some? && !OnWorkList(m, loop, r)
    requires e.Snapshot? && e.loop == loop ==> r !in m.requests || Drift(m, r) == 0
    ensures !OnWorkList(Step(m, e).value, loop, r)
  {
    hide Step, Queue;
    StepQueue(m, e, loop);
    var before, after := Queue(m, loop), Queue(Step(m, e).value, loop);
    if e.Fix? && e.loop == loop {
      assert forall i {:trigger after[i]} :: 0 <= i < |after| ==> after[i] == before[i + 1];
    } else if e.Snapshot? && e.loop == loop {
      assert forall i :: 0 <= i < |after| ==> Mismatched(m, after[i]);
    }
  }

  /** A fix is only ever applied to a row that is on a work list. */
  lemma UnlistedIsSpared(m: State, e: Event, r: ReqId)
    requires Unlisted(m, r)
    ensures !Repairs(m, e, r)
  {
    hide Queue;
    assert Repairs(m, e, r) ==> OnWorkList(m, e.loop, r);
  }

  /** A row that is on no work list is on none until some snapshot lists it, and no fix is applied to it. */
  lemma {:induction false} OffListIsSpared(s: State, es: seq<Event>, r: ReqId)
    requires Run(s, es).Some? && Unlisted(s, r) && forall e :: e in es ==> !e.Snapshot?
    ensures Spared(s, es, r) && Unlisted(Run(s, es).value, r)
    decreases |es|
  {
    hide Step, OnWorkList, Repairs;
    if es != [] {
      var init, last := es[..|es| - 1], es[|es| - 1];
      assert last in es;
      OffListIsSpared(s, init, r);
      UnlistedIsSpared(Run(s, init).value, last, r);
      forall loop
        ensures !OnWorkList(Run(s, es).value, loop, r)
      {
        StaysOffList(Run(s, init).value, last, loop, r);
      }
    }
  }

  ghost predicate RightAndUnlisted(s: State, r: ReqId) {
    r in s.requests && Drift(s, r) == 0 && Unlisted(s, r)
  }

  lemma StepKeepsRight(s: State, e: Event, r: ReqId)
    requires Inv(s) && Step(s, e).Some? && RightAndUnlisted(s, r)
    ensures RightAndUnlisted(Step(s, e).value, r)
  {
    hide Step, OnWorkList, Repairs, Inv;
    UnlistedIsSpared(s, e, r);
    StepDrift(s, e, r);
    forall loop
      ensures !OnWorkList(Step(s, e).value, loop, r)
    {
      StaysOffList(s, e, loop, r);
    }
  }

  /**
    A counter that is right while its request is on no work list is right forever after, whatever the
    calls and any number of passes do, snapshots included: passes never spoil what they did not list.
  */
  lemma {:induction false} RightStaysRight(s: State, es: seq<Event>, r: ReqId)
    requires Inv(s) && Run(s, es).Some? && RightAndUnlisted(s, r)
    ensures RightAndUnlisted(Run(s, es).value, r)
    decreases |es|
  {
    hide Step, Inv, RightAndUnlisted;
    if es != [] {
      var init := es[..|es| - 1];
      RightStaysRight(s, init, r);
      RunKeepsInv(s, init);
      StepKeepsRight(Run(s, init).value, es[|es| - 1], r);
    }
  }

  lemma UnknownIsUnlisted(s: State, r: ReqId)
    requires QueuesValid(s) && r !in s.requests
    ensures Unlisted(s, r)
  {
    hide Queue;
    forall loop
      ensures !OnWorkList(s, loop, r)
    {
      assert QueueValid(s, Queue(s, loop));
    }
  }

  /** The counter of a request that is submitted during a run is right from then on. */
  lemma {:induction false} SubmittedIsRight(s: State, es: seq<Event>, r: ReqId)
    requires Inv(s) && Run(s, es).Some? && r !in s.requests && r in Run(s, es).value.requests
    ensures RightAndUnlisted(Run(s, es).value, r)
    decreases |es|
  {
    hide Step, OnWorkList, Drift;
    var init, last := es[..|es| - 1], es[|es| - 1];
    var m := Run(s, init).value;
    RunKeepsInv(s, init);
    if r in m.requests {
      SubmittedIsRight(s, init, r);
      StepKeepsRight(m, last, r);
    } else {
      NewRequest(m, last, r);
      UnknownIsUnlisted(m, r);
      forall loop
        ensures !OnWorkList(Run(s, es).value, loop, r)
      {
        StaysOffList(m, last, loop, r);
      }
    }
  }

  // ----- Whole runs -----

  lemma {:induction false} RunPrefix(s: State, es: seq<Event>, n: nat)
    requires n <= |es| && Run(s, es).Some?
    ensures Run(s, es[..n]).Some? && Run(Run(s, es[..n]).value, es[n..]) == Run(s, es)
  {
    assert es[..n] + es[n..] == es;
    RunConcat(s, es[..n], es[n..]);
  }

  /** One event, and the rest of the run after it. */
  lemma RunNext(s: State, es: seq<Event>, n: nat)
    requires n < |es| && Run(s, es).Some?
    ensures Run(s, es[..n]).Some? && Step(Run(s, es[..n]).value, es[n]).Some?
    ensures Run(Step(Run(s, es[..n]).value, es[n]).value, es[n + 1..]) == Run(s, es)
  {
    hide Step, Run;
    RunPrefix(s, es, n);
    RunPrefix(s, es, n + 1);
    assert es[..n + 1] == es[..n] + [es[n]];
    RunSnoc(s, es[..n], es[n]);
  }

  /** The last point of a run at which a fix of r is applied. */
  lemma {:induction false} LastRepair(s: State, es: seq<Event>, r: ReqId) returns (n: nat)
    requires Run(s, es).Some? && !Spared(s, es, r)
    ensures n < |es| && Run(s, es[..n]).Some? && Repairs(Run(s, es[..n]).value, es[n], r)
    ensures Step(Run(s, es[..n]).value, es[n]).Some? && Spared(Step(Run(s, es[..n]).value, es[n]).value, es[n + 1..], r)
    decreases |es|
  {
    hide Step, Repairs;
    var init, last := es[..|es| - 1], es[|es| - 1];
    if Repairs(Run(s, init).value, last, r) {
      n := |es| - 1;
      assert es[n + 1..] == [];
    } else {
      n := LastRepair(s, init, r);
      assert init[..n] == es[..n] && init[n] == es[n];
      RunNext(s, init, n);
      assert es[n + 1..][..|es| - n - 2] == init[n + 1..];
    }
  }

  /** A loop that has rows to write has taken a snapshot, and none since. */
  lemma {:induction false} LastSnapshot(s: State, es: seq<Event>, loop: LoopId) returns (n: nat)
    requires Run(s, es).Some? && Queue(s, loop) == [] && Queue(Run(s, es).value, loop) != []
    ensures n < |es| && es[n].Snapshot? && es[n].loop == loop && NoSnapshotBy(es[n + 1..], loop)
    decreases |es|
  {
    hide Step, Queue;
    var init, last := es[..|es| - 1], es[|es| - 1];
    if last.Snapshot? && last.loop == loop {
      n := |es| - 1;
    } else {
      StepQueue(Run(s, init).value, last, loop);
      n := LastSnapshot(s, init, loop);
      assert es[n + 1..] == init[n + 1..] + [last];
    }
  }

  /** The last write of r that takes effect: the loop, and where in the run it reads its snapshot and writes. */
  datatype LastWrite = LastWrite(loop: LoopId, taken: nat, written: nat)

  ghost predicate IsLastWrite(s: State, es: seq<Event>, r: ReqId, w: LastWrite) {
    && w.taken < w.written < |es|
    && es[w.taken].Snapshot? && es[w.taken].loop == w.loop && NoSnapshotBy(es[w.taken + 1..w.written], w.loop)
    && es[w.written] == Fix(w.loop, true)
    && Run(s, es[..w.taken]).Some? && Run(s, es[..w.written]).Some? && Run(s, es[..w.written + 1]).Some?
    && Repairs(Run(s, es[..w.written]).value, es[w.written], r)
    && Spared(Run(s, es[..w.written + 1]).value, es[w.written + 1..], r)
  }

  /** The votes committed on r between that snapshot and that write. */
  ghost function NetBefore(s: State, es: seq<Event>, r: ReqId, w: LastWrite): int
    requires IsLastWrite(s, es, r, w)
  {
    var m, t := Run(s, es[..w.taken]).value, Run(s, es[..w.written]).value;
    if |m.log| <= |t.log| then Net(t.log[|m.log|..], r) else 0
  }

  /** The fewest votes r has had since. */
  ghost function LowestSince(s: State, es: seq<Event>, r: ReqId, w: LastWrite): int
    requires IsLastWrite(s, es, r, w) && Run(Run(s, es[..w.written + 1]).value, es[w.written + 1..]).Some?
  {
    Lowest(Run(s, es[..w.written + 1]).value, es[w.written + 1..], r)
  }

  lemma RestHasNoRows(s: State, loop: LoopId)
    requires AtRest(s)
    ensures Inv(s) && Queue(s, loop) == []
  {
  }

  /** Every run in which a fix of r is applied has a last one, and the snapshot it was read in. */
  lemma FindLastWrite(s: State, es: seq<Event>, r: ReqId) returns (w: LastWrite)
    requires AtRest(s) && Run(s, es).Some? && !Spared(s, es, r)
    ensures IsLastWrite(s, es, r, w)
  {
    hide Step, Run, Spared, AtRest;
    var n := LastRepair(s, es, r);
    var loop := es[n].loop;
    assert Queue(s, loop) == [] by { RestHasNoRows(s, loop); }
    var k := LastSnapshot(s, es[..n], loop);
    w := LastWrite(loop, k, n);
    assert es[k + 1..n] == es[..n][k + 1..];
    RunPrefix(s, es, k);
    RunPrefix(s, es, n + 1);
    assert es[..n + 1] == es[..n] + [es[n]];
    RunSnoc(s, es[..n], es[n]);
  }

  lemma DriftAfterWrite(s: State, es: seq<Event>, r: ReqId, w: LastWrite)
    requires Inv(s) && Run(s, es).Some? && IsLastWrite(s, es, r, w)
    ensures Run(Run(s, es[..w.written + 1]).value, es[w.written + 1..]).Some?
    ensures r in Run(s, es).value.requests
    ensures Drift(Run(s, es).value, r) == Max(-NetBefore(s, es, r, w), -LowestSince(s, es, r, w))
    ensures Drift(Run(s, es).value, r) == 0
       <==> NetBefore(s, es, r, w) == 0 || (NetBefore(s, es, r, w) > 0 && LowestSince(s, es, r, w) == 0)
  {
    hide Step, Run, Spared, Inv, Repairs, Net, Lowest;
    var upTo := es[..w.written];
    RunPrefix(s, es, w.written + 1);
    RunPrefix(s, es, w.taken);
    RunKeepsInv(s, es[..w.taken]);
    RunNext(s, upTo, w.taken);
    assert upTo[..w.taken] == es[..w.taken] && upTo[w.taken + 1..] == es[w.taken + 1..w.written];
    assert es[..w.written + 1] == upTo + [es[w.written]];
    RunSnoc(s, upTo, es[w.written]);
    var snapshot := es[w.taken];
    assert snapshot == Snapshot(w.loop, snapshot.mismatches);
    PassOutcome(Run(s, es[..w.taken]).value, w.loop, snapshot.mismatches,
                es[w.taken + 1..w.written], es[w.written + 1..], r);
  }

  /**
    Every counter at the end of every run, exactly. If no fix of r has been applied, the drift is the
    initial one, raised if need be to minus the fewest votes r has had. Otherwise only the last one
    applied counts, by whichever loop: the drift is minus the votes committed between its snapshot and
    its write, raised if need be to minus the fewest votes since.
  */
  lemma DriftAfterAnyRun(s: State, es: seq<Event>, r: ReqId)
    requires AtRest(s) && Run(s, es).Some? && r in s.requests
    ensures r in Run(s, es).value.requests
    ensures Spared(s, es, r) ==> Drift(Run(s, es).value, r) == Max(Drift(s, r), -Lowest(s, es, r))
    ensures forall w :: IsLastWrite(s, es, r, w) ==>
      && Run(Run(s, es[..w.written + 1]).value, es[w.written + 1..]).Some?
      && Drift(Run(s, es).value, r) == Max(-NetBefore(s, es, r, w), -LowestSince(s, es, r, w))
    ensures !Spared(s, es, r) ==> exists w :: IsLastWrite(s, es, r, w)
  {
    hide Step, Run, Spared, AtRest, NetBefore, LowestSince;
    RestHasNoRows(s, 0);
    RunKeepsInv(s, es);
    if Spared(s, es, r) {
      DriftExactly(s, es, r);
    } else {
      var w := FindLastWrite(s, es, r);
    }
    forall w | IsLastWrite(s, es, r, w)
      ensures Run(Run(s, es[..w.written + 1]).value, es[w.written + 1..]).Some?
      ensures Drift(Run(s, es).value, r) == Max(-NetBefore(s, es, r, w), -LowestSince(s, es, r, w))
    {
      DriftAfterWrite(s, es, r, w);
    }
  }

  // ----- When a pass heals everything -----

  /** Every number on a work list is the true number of votes. */
  ghost predicate ListsTrue(s: State) {
    forall loop, i :: 0 <= i < |Queue(s, loop)| ==> Queue(s, loop)[i].actual == Tally(s.votes, Queue(s, loop)[i].req)
  }

  /** And the loop's work list has every row whose counter is wrong. */
  ghost predicate AllScheduled(s: State, loop: LoopId) {
    && ListsTrue(s)
    && forall r :: r in s.requests ==> Drift(s, r) == 0 || OnWorkList(s, loop, r)
  }

  lemma StepKeepsListsTrue(s: State, e: Event)
    requires ListsTrue(s) && Step(s, e).Some? && Step(s, e).value.votes == s.votes
    ensures ListsTrue(Step(s, e).value)
  {
    hide Step, Queue, Tally;
    var t := Step(s, e).value;
    forall loop, i | 0 <= i < |Queue(t, loop)|
      ensures Queue(t, loop)[i].actual == Tally(t.votes, Queue(t, loop)[i].req)
    {
      StepQueue(s, e, loop);
      if e.Snapshot? && e.loop == loop {
        assert Mismatched(s, e.mismatches[i]);
      } else if e.Fix? && e.loop == loop {
        assert Queue(t, loop)[i] == Queue(s, loop)[i + 1];
      }
    }
  }

  lemma SnapshotSchedulesAll(m: State, loop: LoopId, ms: seq<Mismatch>)
    requires ListsTrue(m) && Step(m, Snapshot(loop, ms)).Some?
    ensures AllScheduled(Step(m, Snapshot(loop, ms)).value, loop)
  {
    hide Step, Queue, Tally;
    var e := Snapshot(loop, ms);
    var t := Step(m, e).value;
    OtherStep(m, e);
    StepKeepsListsTrue(m, e);
    StepQueue(m, e, loop);
    forall r | r in t.requests && Drift(t, r) != 0
      ensures OnWorkList(t, loop, r)
    {
      var i :| 0 <= i < |ms| && ms[i].req == r;
      assert Queue(t, loop)[i].req == r;
    }
  }

  /** A fix that is applied makes its counter right, as the list is true; any other counter stays as it is. */
  lemma StepMovesDrift(s: State, e: Event, r: ReqId)
    requires Inv(s) && ListsTrue(s) && Step(s, e).Some? && r in Step(s, e).value.requests
    requires forall c :: !Publishes(s, e, c)
    ensures if r !in s.requests || Repairs(s, e, r) then Drift(Step(s, e).value, r) == 0
            else Drift(Step(s, e).value, r) == Drift(s, r)
  {
    hide Step, Queue, Tally, Inv;
    StepFrame(s, e);
    if r !in s.requests {
      NewRequest(s, e, r);
    } else if Repairs(s, e, r) {
      OtherStep(s, e);
      assert Queue(s, e.loop)[0].actual == Tally(s.votes, r);
    }
  }

  lemma StepKeepsListed(s: State, e: Event, loop: LoopId, r: ReqId)
    requires Step(s, e).Some? && OnWorkList(s, loop, r) && !Repairs(s, e, r)
    requires e != Fix(loop, false) && (e.Snapshot? ==> e.loop != loop)
    ensures OnWorkList(Step(s, e).value, loop, r)
  {
    hide Step, Queue;
    StepQueue(s, e, loop);
    var i :| 0 <= i < |Queue(s, loop)| && Queue(s, loop)[i].req == r;
    if e.Fix? && e.loop == loop {
      assert Queue(Step(s, e).value, loop)[i - 1] == Queue(s, loop)[i];
    } else {
      assert Queue(Step(s, e).value, loop)[i].req == r;
    }
  }

  lemma StepKeepsScheduled(s: State, e: Event, loop: LoopId)
    requires Inv(s) && AllScheduled(s, loop) && Step(s, e).Some?
    requires e != Fix(loop, false) && (e.Snapshot? ==> e.loop != loop)
    requires forall c :: !Publishes(s, e, c)
    ensures AllScheduled(Step(s, e).value, loop)
  {
    hide Step, Queue, Tally, Inv, OnWorkList, Repairs, Drift, ListsTrue;
    var t := Step(s, e).value;
    StepFrame(s, e);
    StepKeepsListsTrue(s, e);
    forall r | r in t.requests
      ensures Drift(t, r) == 0 || OnWorkList(t, loop, r)
    {
      StepMovesDrift(s, e, r);
      if r in s.requests && !Repairs(s, e, r) && Drift(s, r) != 0 {
        StepKeepsListed(s, e, loop, r);
      }
    }
  }

  predicate NoChange(log: seq<Entry>, from: nat) {
    forall i :: from <= i < |log| ==> !log[i].changed
  }

  lemma PublishIsLogged(s: State, e: Event, c: CallId)
    requires Step(s, e).Some? && Publishes(s, e, c)
    ensures var t := Step(s, e).value; |t.log| == |s.log| + 1 && t.log[|s.log|].changed
  {
    hide Step;
    CallStep(s, e);
  }

  lemma {:induction false} RunKeepsScheduled(s: State, es: seq<Event>, loop: LoopId)
    requires Inv(s) && AllScheduled(s, loop) && Run(s, es).Some?
    requires NoSnapshotBy(es, loop) && Fix(loop, false) !in es && NoChange(Run(s, es).value.log, |s.log|)
    ensures AllScheduled(Run(s, es).value, loop)
    decreases |es|
  {
    hide Step, Inv, AllScheduled;
    if es != [] {
      var init, last := es[..|es| - 1], es[|es| - 1];
      assert last in es;
      var m, t := Run(s, init).value, Run(s, es).value;
      RunKeepsInv(s, init);
      RunReplays(s, init);
      StepReplays(m, last);
      assert forall i :: 0 <= i < |m.log| ==> m.log[i] == t.log[i];
      RunKeepsScheduled(s, init, loop);
      forall c
        ensures !Publishes(m, last, c)
      {
        if Publishes(m, last, c) {
          PublishIsLogged(m, last, c);
        }
      }
      StepKeepsScheduled(m, last, loop);
    }
  }

  /**
    A pass heals everything: if the other loops' lists are true at its snapshot (as when they have
    none), and until its own list is used up no operation changes a vote and none of its writes fails
    to take effect, then every counter is right in the end, whatever calls and other passes do.
  */
  lemma QuietPassHeals(m: State, loop: LoopId, ms: seq<Mismatch>, es: seq<Event>)
    requires Inv(m) && ListsTrue(m) && Step(m, Snapshot(loop, ms)).Some?
    requires NoSnapshotBy(es, loop) && Fix(loop, false) !in es
    requires Run(Step(m, Snapshot(loop, ms)).value, es).Some?
    requires var t := Run(Step(m, Snapshot(loop, ms)).value, es).value;
      Queue(t, loop) == [] && NoChange(t.log, |m.log|)
    ensures Consistent(Run(Step(m, Snapshot(loop, ms)).value, es).value)
  {
    hide Run, Step, Inv, Queue, Drift;
    var s := Step(m, Snapshot(loop, ms)).value;
    OtherStep(m, Snapshot(loop, ms));
    StepKeepsInv(m, Snapshot(loop, ms));
    SnapshotSchedulesAll(m, loop, ms);
    RunKeepsScheduled(s, es, loop);
  }

  // ----- A pass need not heal -----

  /** One request that claims five votes and has none. */
  const DRIFTED := State({}, map[7 := Request(0, 0, 5)], map[], map[], [])

  /** A pass reads its snapshot, user 1 upvotes, and then the pass writes what it read. */
  const RACE: seq<Event> := [
    Snapshot(0, [Mismatch(7, 5, 0)]),
    Arrive(1, Upvote, 1, 7),
    Advance(1), Advance(1), Advance(1), Advance(1), Advance(1),
    Fix(0, true)]

  /** The phases user 1's call goes through. */
  const PHASES: seq<Phase> := [Arrived, Checked, Begun, Wrote(true), Moved(6), Committed(true)]

  /** The state after the first n events of the race. */
  function RaceAt(n: nat): State
    requires n <= 8
  {
    var voted := n >= 7;
    State(if voted then {Vote(1, 7)} else {},
          map[7 := Request(0, 0, if n == 8 then 0 else if voted then 6 else 5)],
          if n < 2 then map[] else map[1 := Call(Upvote, 1, 7, PHASES[if n == 8 then 5 else n - 2])],
          if n == 0 || n == 8 then map[] else map[0 := [Mismatch(7, 5, 0)]],
          if voted then [Entry(1, Upvote, 1, 7, true)] else [])
  }

  lemma RaceSnapshot()
    ensures Step(RaceAt(0), RACE[0]) == Some(RaceAt(1))
  {
    var ms := [Mismatch(7, 5, 0)];
    assert VotesOn({}, 7) == {};
    assert ms[0].req == 7;
    assert TakeSnapshot(RaceAt(0), 0, ms) == Some(RaceAt(1));
  }

  lemma RaceArrives()
    ensures Step(RaceAt(1), RACE[1]) == Some(RaceAt(2))
  {
    hide TalliesFit, ListsMismatches, Tally, AdvanceCall, FixNext, FailCall, LoseCommit;
  }

  /** Between arriving and committing only the phase of the call moves. */
  lemma RaceMoves(n: nat)
    requires 2 <= n < 6
    ensures SetPhase(RaceAt(n), 1, PHASES[n - 1]) == RaceAt(n + 1)
  {
    assert SetPhase(RaceAt(n), 1, PHASES[n - 1]).calls == RaceAt(n + 1).calls;
  }

  lemma RaceCall(n: nat)
    requires 2 <= n < 6
    ensures AdvanceCall(RaceAt(n), 1) == Some(RaceAt(n + 1))
  {
    RaceMoves(n);
    hide SetPhase, Record, Publish, Toggle;
  }

  lemma RaceCommits()
    ensures AdvanceCall(RaceAt(6), 1) == Some(RaceAt(7))
  {
    var t, u := SetPhase(Publish(RaceAt(6), 1), 1, Committed(true)), RaceAt(7);
    assert t.calls == u.calls;
    assert t.requests == u.requests && t.votes == u.votes && t.log == u.log;
  }

  lemma RaceFix()
    ensures Step(RaceAt(7), RACE[7]) == Some(RaceAt(8))
  {
    var t := FixNext(RaceAt(7), 0, true);
    assert t.Some? && t.value.requests == RaceAt(8).requests && t.value.queues == map[];
  }

  lemma RaceStep(n: nat)
    requires n < 8
    ensures Step(RaceAt(n), RACE[n]) == Some(RaceAt(n + 1))
  {
    hide AdvanceCall, TakeSnapshot, FixNext;
    if n == 0 {
      RaceSnapshot();
    } else if n == 1 {
      RaceArrives();
    } else if n < 6 {
      RaceCall(n);
    } else if n == 6 {
      RaceCommits();
    } else {
      RaceFix();
    }
  }

  lemma RaceStartsDrifted()
    ensures RaceAt(0) == DRIFTED
  {
  }

  lemma {:induction false} RaceRun(n: nat)
    requires n <= 8
    ensures Run(DRIFTED, RACE[..n]) == Some(RaceAt(n))
  {
    hide Step, RaceAt;
    if n == 0 {
      assert RaceAt(0) == DRIFTED by { RaceStartsDrifted(); }
    } else {
      RaceRun(n - 1);
      RaceStep(n - 1);
      assert RACE[..n][..n - 1] == RACE[..n - 1];
    }
  }

  /** A complete pass without any error can leave a wrong counter: here 0 for one committed vote. */
  lemma RaceLeavesDrift()
    ensures AtRest(DRIFTED) && Run(DRIFTED, RACE).Some?
    ensures var t := Run(DRIFTED, RACE).value; t.queues == map[] && 7 in t.requests && Drift(t, 7) == -1
  {
    hide Run;
    RaceRun(8);
    assert RACE[..8] == RACE;
    assert VotesOn({Vote(1, 7)}, 7) == {Vote(1, 7)};
  }
}
