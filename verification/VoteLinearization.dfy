/**
  The concurrent system behaves like one set of voters changed atomically.

  Every run leaves a sequential history of entries: an operation that changes the set is entered at
  the instant its COMMIT takes effect, one that finds nothing to change at its votes statement.
*/
module VoteLinearization {
  import opened Wrappers
  import opened VoteMachine
  import opened VoteSafety

  // ----- The atomic set of voters -----

  /** One atomic operation: it must answer "changed" exactly when it changes the set. */
  function Apply(votes: set<Vote>, x: Entry): Option<set<Vote>> {
    if x.changed != WouldChange(x.op, votes, x.Key()) then None
    else Some(if x.changed then Toggle(x.op, votes, x.Key()) else votes)
  }

  /** The set after a history, or None when some answer in it is wrong. */
  function Replay(votes: set<Vote>, log: seq<Entry>): Option<set<Vote>>
    decreases |log|
  {
    if log == [] then Some(votes)
    else
      match Replay(votes, log[..|log| - 1])
      case None => None
      case Some(before) => Apply(before, log[|log| - 1])
  }

  // ----- How calls and entries belong together -----

  predicate EntryOf(x: Entry, c: CallId, k: Call) {
    x.call == c && x.op == k.op && x.Key() == k.Key()
  }

  ghost predicate Logged(log: seq<Entry>, c: CallId) {
    exists i :: 0 <= i < |log| && log[i].call == c
  }

  ghost predicate LoggedAs(log: seq<Entry>, c: CallId, changed: bool) {
    exists i :: 0 <= i < |log| && log[i].call == c && log[i].changed == changed
  }

  /** Whether a call in this phase has its entry, and with which answer; a failed call may have one. */
  ghost predicate LogAgrees(log: seq<Entry>, c: CallId, phase: Phase) {
    match phase
    case Arrived => !Logged(log, c)
    case Checked => !Logged(log, c)
    case Begun => !Logged(log, c)
    case Wrote(affected) => if affected then !Logged(log, c) else LoggedAs(log, c, false)
    case Moved(_) => !Logged(log, c)
    case Committed(changed) => LoggedAs(log, c, changed)
    case Replied(reply) =>
      match reply
      case NotFound => !Logged(log, c)
      case SelfVote => !Logged(log, c)
      case Failed => true
      case Counted(changed, _) => LoggedAs(log, c, changed)
  }

  ghost predicate LogMatches(s: State) {
    && (forall i :: 0 <= i < |s.log| ==>
          s.log[i].call in s.calls && EntryOf(s.log[i], s.log[i].call, s.calls[s.log[i].call]))
    && (forall i, j :: 0 <= i < j < |s.log| ==> s.log[i].call != s.log[j].call)
    && (forall c :: c in s.calls ==> LogAgrees(s.log, c, s.calls[c].phase))
  }

  // ----- One step -----

  /** A step enters nothing and leaves the votes alone, or enters one operation with a right answer. */
  lemma StepReplays(s: State, e: Event)
    requires Inv(s) && Step(s, e).Some?
    ensures var t := Step(s, e).value;
      || (t.log == s.log && t.votes == s.votes)
      || (|t.log| == |s.log| + 1 && t.log[..|s.log|] == s.log && Apply(s.votes, t.log[|s.log|]) == Some(t.votes))
  {
    hide Step, Toggle, Bump, WouldChange;
    if OfCall(e) {
      CallStep(s, e);
      if Publishes(s, e, e.call) {
        StepPublish(s, e, e.call);
      }
    } else {
      OtherStep(s, e);
    }
  }

  /** A call that moves on without an entry, to a phase the log agrees with. */
  lemma MoveOn(s: State, c: CallId, phase: Phase)
    requires LogMatches(s) && c in s.calls && LogAgrees(s.log, c, phase)
    ensures LogMatches(SetPhase(s, c, phase))
  {
  }

  /** A call that gets its entry and moves on. */
  lemma EnterAndMoveOn(s: State, c: CallId, changed: bool, phase: Phase)
    requires LogMatches(s) && c in s.calls && !Logged(s.log, c)
    requires (phase == Wrote(false) && !changed) || phase == Committed(changed) || phase == Replied(Failed)
    ensures LogMatches(SetPhase(Record(s, c, changed), c, phase))
  {
    var t := SetPhase(Record(s, c, changed), c, phase);
    assert t.log[|s.log|] == Entry(c, s.calls[c].op, s.calls[c].user, s.calls[c].req, changed);
    forall d | d in t.calls
      ensures LogAgrees(t.log, d, t.calls[d].phase)
    {
      if d != c {
        assert LogAgrees(s.log, d, s.calls[d].phase);
        assert forall i :: 0 <= i < |s.log| ==> t.log[i] == s.log[i];
        assert Logged(t.log, d) ==> Logged(s.log, d);
      } else {
        assert LoggedAs(t.log, c, changed);
      }
    }
  }

  /** A step that enters nothing takes its call to a phase the log agrees with. */
  lemma NextPhaseAgrees(s: State, e: Event)
    requires Step(s, e).Some? && OfCall(e) && !Publishes(s, e, e.call)
    requires LogAgrees(s.log, e.call, s.calls[e.call].phase)
    requires !(s.calls[e.call].phase.Begun? && Step(s, e).value.calls[e.call].phase == Wrote(false))
    ensures LogAgrees(s.log, e.call, Step(s, e).value.calls[e.call].phase)
  {
    hide Logged, LoggedAs, KeyLocked, RowLocked, WouldChange, Bump, Toggle;
  }

  lemma StepKeepsMatch(s: State, e: Event)
    requires LogMatches(s) && Step(s, e).Some?
    ensures LogMatches(Step(s, e).value)
  {
    hide Step, Toggle, WouldChange, LoggedAs;
    var t := Step(s, e).value;
    if OfCall(e) {
      CallStep(s, e);
      var c := e.call;
      var phase := t.calls[c].phase;
      assert LogAgrees(s.log, c, s.calls[c].phase);
      if Publishes(s, e, c) {
        EnterAndMoveOn(s.(votes := t.votes, requests := t.requests), c, true, phase);
      } else if s.calls[c].phase.Begun? && phase == Wrote(false) {
        EnterAndMoveOn(s, c, false, phase);
      } else {
        NextPhaseAgrees(s, e);
        MoveOn(s, c, phase);
      }
    } else {
      OtherStep(s, e);
      assert e.Arrive? ==> !Logged(s.log, e.call);
    }
  }

  // ----- Whole runs -----

  /** Any stretch of a run appends to the log a correct history of what it did to the votes. */
  lemma {:induction false} RunReplays(s: State, es: seq<Event>)
    requires Inv(s) && Run(s, es).Some?
    ensures var t := Run(s, es).value;
      && |s.log| <= |t.log| && t.log[..|s.log|] == s.log
      && Replay(s.votes, t.log[|s.log|..]) == Some(t.votes)
    decreases |es|
  {
    hide Step, Inv;
    if es == [] {
      assert s.log[|s.log|..] == [];
    } else {
      var init := es[..|es| - 1];
      RunReplays(s, init);
      RunKeepsInv(s, init);
      var m, t := Run(s, init).value, Run(s, es).value;
      StepReplays(m, es[|es| - 1]);
      if t.log != m.log {
        assert t.log[|s.log|..][..|t.log| - 1 - |s.log|] == m.log[|s.log|..];
      }
    }
  }

  lemma {:induction false} RunKeepsMatch(s: State, es: seq<Event>)
    requires LogMatches(s) && Run(s, es).Some?
    ensures LogMatches(Run(s, es).value)
    decreases |es|
  {
    hide Step, LogMatches;
    if es != [] {
      RunKeepsMatch(s, es[..|es| - 1]);
      StepKeepsMatch(Run(s, es[..|es| - 1]).value, es[|es| - 1]);
    }
  }

  lemma RestMatches(s: State)
    requires AtRest(s)
    ensures LogMatches(s)
  {
  }

  /**
    Linearizability: the log of any run is a correct sequential history of the atomic set, ending in
    the committed votes. Each call has at most one entry, of the operation, user and request it came
    with; one with its answer if it was replied to with a count, and none if it was turned away.
  */
  lemma Linearizable(s: State, es: seq<Event>)
    requires AtRest(s) && Run(s, es).Some?
    ensures var t := Run(s, es).value; Replay(s.votes, t.log) == Some(t.votes) && LogMatches(t)
    ensures var t := Run(s, es).value; forall i, j :: 0 <= i < j < |t.log| ==> t.log[i].call != t.log[j].call
    ensures var t := Run(s, es).value; forall i :: 0 <= i < |t.log| ==>
      var x := t.log[i];
      && x.call in t.calls && x.op == t.calls[x.call].op
      && x.user == t.calls[x.call].user && x.req == t.calls[x.call].req
    ensures var t := Run(s, es).value; forall c :: c in t.calls && t.calls[c].phase.Replied? ==>
      match t.calls[c].phase.reply
      case Counted(changed, _) => exists i :: 0 <= i < |t.log| && t.log[i].call == c && t.log[i].changed == changed
      case Failed => true
      case _ => forall i :: 0 <= i < |t.log| ==> t.log[i].call != c
  {
    hide Step, Run, Replay;
    RunReplays(s, es);
    RestMatches(s);
    RunKeepsMatch(s, es);
    var t := Run(s, es).value;
    assert t.log[|s.log|..] == t.log;
    forall c | c in t.calls && t.calls[c].phase.Replied?
      ensures LogAgrees(t.log, c, t.calls[c].phase)
    {
    }
  }

  /** A call that has been replied to stays so, and gets no entry any more. */
  lemma StepEndsCall(s: State, e: Event, c: CallId)
    requires Step(s, e).Some? && c in s.calls && s.calls[c].phase.Replied?
    ensures var t := Step(s, e).value;
      && c in t.calls && t.calls[c].phase.Replied?
      && |s.log| <= |t.log| && t.log[..|s.log|] == s.log
      && forall i :: |s.log| <= i < |t.log| ==> t.log[i].call != c
  {
    hide Step, Toggle, Bump;
    if OfCall(e) {
      CallStep(s, e);
    } else {
      OtherStep(s, e);
    }
  }

  lemma {:induction false} RunEndsCall(s: State, es: seq<Event>, c: CallId)
    requires Run(s, es).Some? && c in s.calls && s.calls[c].phase.Replied?
    ensures var t := Run(s, es).value;
      && c in t.calls && t.calls[c].phase.Replied?
      && |s.log| <= |t.log| && t.log[..|s.log|] == s.log
      && forall i :: |s.log| <= i < |t.log| ==> t.log[i].call != c
    decreases |es|
  {
    hide Step;
    if es != [] {
      var init := es[..|es| - 1];
      RunEndsCall(s, init, c);
      StepEndsCall(Run(s, init).value, es[|es| - 1], c);
      var m, t := Run(s, init).value, Run(s, es).value;
      assert forall i :: 0 <= i < |m.log| ==> t.log[i] == t.log[..|m.log|][i];
    }
  }

  /**
    The history respects real time: the entry of a call that has been replied to, even with an error,
    comes before the entry of any call that arrives later.
  */
  lemma RealTimeOrder(s: State, xs: seq<Event>, ys: seq<Event>, a: CallId, b: CallId, i: nat, j: nat)
    requires AtRest(s) && Run(s, xs).Some? && Run(Run(s, xs).value, ys).Some?
    requires var m := Run(s, xs).value; a in m.calls && m.calls[a].phase.Replied? && b !in m.calls
    requires var t := Run(Run(s, xs).value, ys).value;
      i < |t.log| && j < |t.log| && t.log[i].call == a && t.log[j].call == b
    ensures i < j
  {
    hide Step, Run, Replay;
    var m := Run(s, xs).value;
    var t := Run(m, ys).value;
    Linearizable(s, xs);
    RunEndsCall(m, ys, a);
    assert forall n :: 0 <= n < |m.log| ==> t.log[n] == m.log[n] && m.log[n].call != b;
  }

  // ----- What a correct history implies -----

  lemma {:induction false} ReplayPrefix(votes: set<Vote>, log: seq<Entry>, n: nat)
    requires n <= |log| && Replay(votes, log).Some?
    ensures Replay(votes, log[..n]).Some?
    decreases |log|
  {
    if n == |log| {
      assert log[..n] == log;
    } else {
      assert log[..|log| - 1][..n] == log[..n];
      ReplayPrefix(votes, log[..|log| - 1], n);
    }
  }

  /** Between two moments the membership of a key is kept if no entry in between changes it. */
  lemma {:induction false} Undisturbed(votes: set<Vote>, log: seq<Entry>, v: Vote, i: nat, n: nat)
    requires i <= n <= |log| && Replay(votes, log).Some?
    requires forall m :: i <= m < n && log[m].changed ==> log[m].Key() != v
    ensures Replay(votes, log[..i]).Some? && Replay(votes, log[..n]).Some?
    ensures v in Replay(votes, log[..i]).value <==> v in Replay(votes, log[..n]).value
    decreases n
  {
    ReplayPrefix(votes, log, n);
    ReplayPrefix(votes, log, i);
    if i < n {
      assert log[..n][..n - 1] == log[..n - 1];
      Undisturbed(votes, log, v, i, n - 1);
    }
  }

  /** After a changing entry its key is a member exactly when the entry was an upvote. */
  lemma AfterChange(votes: set<Vote>, log: seq<Entry>, i: nat)
    requires i < |log| && Replay(votes, log).Some? && log[i].changed
    ensures Replay(votes, log[..i]).Some? && Replay(votes, log[..i + 1]).Some?
    ensures WouldChange(log[i].op, Replay(votes, log[..i]).value, log[i].Key())
    ensures log[i].Key() in Replay(votes, log[..i + 1]).value <==> log[i].op.Upvote?
  {
    ReplayPrefix(votes, log, i);
    ReplayPrefix(votes, log, i + 1);
    assert log[..i + 1][..i] == log[..i];
  }

  /** For one user and request, the operations answered "changed" strictly alternate. */
  lemma ChangesAlternate(votes: set<Vote>, log: seq<Entry>, i: nat, j: nat)
    requires Replay(votes, log).Some? && i < j < |log|
    requires log[i].changed && log[j].changed && log[i].Key() == log[j].Key()
    requires forall m :: i < m < j && log[m].changed ==> log[m].Key() != log[i].Key()
    ensures log[i].op != log[j].op
  {
    AfterChange(votes, log, i);
    AfterChange(votes, log, j);
    Undisturbed(votes, log, log[i].Key(), i + 1, j);
  }

  /** How many entries changed request r by the given operation. */
  function Changes(log: seq<Entry>, op: Op, r: ReqId): nat
    decreases |log|
  {
    if log == [] then 0
    else
      var x := log[|log| - 1];
      Changes(log[..|log| - 1], op, r) + if x.changed && x.op == op && x.req == r then 1 else 0
  }

  /** Votes inserted minus votes deleted on r. */
  function Net(log: seq<Entry>, r: ReqId): int {
    Changes(log, Upvote, r) - Changes(log, RemoveVote, r)
  }

  lemma {:induction false} ReplayTally(votes: set<Vote>, log: seq<Entry>, r: ReqId)
    requires Replay(votes, log).Some?
    ensures Tally(Replay(votes, log).value, r) == Tally(votes, r) + Net(log, r)
    decreases |log|
  {
    if log != [] {
      var init, x := log[..|log| - 1], log[|log| - 1];
      ReplayTally(votes, init, r);
      if x.changed {
        TallyToggle(x.op, Replay(votes, init).value, x.Key(), r);
      }
    }
  }

  /**
    For every run from correct counters, vote_count is the initial count plus the votes inserted and
    minus the votes deleted by operations answered "changed".
  */
  lemma CountIsNetChange(s: State, es: seq<Event>, r: ReqId)
    requires AtRest(s) && Consistent(s) && Run(s, es).Some? && r in Run(s, es).value.requests
    ensures var t := Run(s, es).value;
      t.requests[r].count == (if r in s.requests then s.requests[r].count else 0) + Net(t.log, r)
  {
    hide Step;
    var t := Run(s, es).value;
    Linearizable(s, es);
    CountEqualsVotes(s, es);
    ReplayTally(s.votes, t.log, r);
    assert Drift(t, r) == 0;
    if r in s.requests {
      assert Drift(s, r) == 0;
    } else {
      NoVotesOnUnknown(s, r);
    }
  }

  // ----- A spike of distinct voters -----

  /** A member that was not there from the start was put there by an upvote. */
  lemma {:induction false} MemberHasOrigin(votes: set<Vote>, log: seq<Entry>, v: Vote) returns (i: nat)
    requires Replay(votes, log).Some? && v in Replay(votes, log).value && v !in votes
    ensures i < |log| && log[i].Key() == v && log[i].op.Upvote?
    decreases |log|
  {
    var init, x := log[..|log| - 1], log[|log| - 1];
    if v in Replay(votes, init).value {
      i := MemberHasOrigin(votes, init, v);
    } else {
      i := |log| - 1;
    }
  }

  /** An upvoted key that no entry removes is a member in the end. */
  lemma {:induction false} UpvotedStays(votes: set<Vote>, log: seq<Entry>, i: nat)
    requires Replay(votes, log).Some? && i < |log| && log[i].op.Upvote?
    requires forall m :: 0 <= m < |log| && log[m].op.RemoveVote? ==> log[m].Key() != log[i].Key()
    ensures log[i].Key() in Replay(votes, log).value
    decreases |log|
  {
    var init := log[..|log| - 1];
    if i < |log| - 1 {
      UpvotedStays(votes, init, i);
    }
  }

  /** One vote on r for each of the users. */
  function Ballots(users: set<User>, r: ReqId): set<Vote> {
    set u | u in users :: Vote(u, r)
  }

  lemma BallotsWithout(users: set<User>, r: ReqId, u: User)
    requires u in users
    ensures Vote(u, r) in Ballots(users, r) && Ballots(users - {u}, r) == Ballots(users, r) - {Vote(u, r)}
  {
  }

  lemma {:induction false} OneVoteEach(users: set<User>, r: ReqId)
    ensures |Ballots(users, r)| == |users|
  {
    if users == {} {
      assert Ballots(users, r) == {};
    } else {
      hide Ballots;
      var u :| u in users;
      OneVoteEach(users - {u}, r);
      BallotsWithout(users, r, u);
    }
  }

  /** Only the given users have called on r, all to upvote it. */
  ghost predicate OnlyUpvotedBy(t: State, r: ReqId, users: set<User>) {
    forall c :: c in t.calls && t.calls[c].req == r ==> t.calls[c].op.Upvote? && t.calls[c].user in users
  }

  predicate Acknowledged(k: Call) { k.phase.Replied? && k.phase.reply.Counted? }

  /** Each of the users has had an upvote of r acknowledged. */
  ghost predicate AcknowledgedFor(t: State, r: ReqId, users: set<User>) {
    forall u :: u in users ==>
      exists c :: c in t.calls && t.calls[c].Key() == Vote(u, r) && Acknowledged(t.calls[c])
  }

  lemma SpikeVoters(votes: set<Vote>, t: State, r: ReqId, users: set<User>)
    requires Replay(votes, t.log) == Some(t.votes) && LogMatches(t) && VotesOn(votes, r) == {}
    requires OnlyUpvotedBy(t, r, users) && AcknowledgedFor(t, r, users)
    ensures VotesOn(t.votes, r) == Ballots(users, r)
  {
    hide Replay;
    forall v | v in t.votes && v.req == r
      ensures v.user in users
    {
      assert v in votes <==> v in VotesOn(votes, r);
      var i := MemberHasOrigin(votes, t.log, v);
      assert EntryOf(t.log[i], t.log[i].call, t.calls[t.log[i].call]);
    }
    forall u | u in users
      ensures Vote(u, r) in t.votes
    {
      var c :| c in t.calls && t.calls[c].Key() == Vote(u, r) && Acknowledged(t.calls[c]);
      assert LogAgrees(t.log, c, t.calls[c].phase);
      var i :| 0 <= i < |t.log| && t.log[i].call == c;
      forall m | 0 <= m < |t.log| && t.log[m].op.RemoveVote?
        ensures t.log[m].Key() != t.log[i].Key()
      {
        assert EntryOf(t.log[m], t.log[m].call, t.calls[t.log[m].call]);
      }
      UpvotedStays(votes, t.log, i);
    }
  }

  /**
    However the upvotes of N distinct users on a request without votes interleave, repeat and fail
    along the way, once each user has had one acknowledged, and nobody else has called on that
    request and nobody has removed a vote, the counter is exactly N.
  */
  lemma SpikeCountsEveryVoterOnce(s: State, es: seq<Event>, r: ReqId, users: set<User>)
    requires AtRest(s) && Consistent(s) && Run(s, es).Some?
    requires r in Run(s, es).value.requests && VotesOn(s.votes, r) == {}
    requires OnlyUpvotedBy(Run(s, es).value, r, users) && AcknowledgedFor(Run(s, es).value, r, users)
    ensures Run(s, es).value.requests[r].count == |users|
  {
    hide Step, Run, Replay, LogMatches;
    var t := Run(s, es).value;
    Linearizable(s, es);
    CountEqualsVotes(s, es);
    SpikeVoters(s.votes, t, r, users);
    OneVoteEach(users, r);
    assert Drift(t, r) == 0;
  }
}
