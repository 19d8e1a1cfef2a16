/** What every step of the voting system keeps, and what that makes of vote_count over whole runs. */
module VoteSafety {
  import opened Wrappers
  import opened VoteMachine

  // ----- The shape of a step -----

  predicate OfCall(e: Event) { e.Advance? || e.Fail? || e.CommitLost? }

  /** A step of a call changes its phase, and besides only records an entry without effect, or publishes. */
  lemma CallStep(s: State, e: Event)
    requires Step(s, e).Some? && OfCall(e)
    ensures var c, t := e.call, Step(s, e).value;
      && c in s.calls && c in t.calls && !s.calls[c].phase.Replied?
      && var phase := t.calls[c].phase;
      && if Publishes(s, e, c) then
           t == SetPhase(Publish(s, c), c, phase) && phase == if e.Advance? then Committed(true) else Replied(Failed)
         else if s.calls[c].phase.Begun? && phase == Wrote(false) then
           t == SetPhase(Record(s, c, false), c, phase) && !WouldChange(s.calls[c].op, s.votes, s.calls[c].Key())
         else t == SetPhase(s, c, phase)
  {
    hide KeyLocked, RowLocked, Bump, Toggle;
  }

  /** What the other steps do to each part of the state. */
  lemma OtherStep(s: State, e: Event)
    requires Step(s, e).Some? && !OfCall(e)
    ensures var t := Step(s, e).value;
      && t.votes == s.votes && t.log == s.log
      && (if e.Arrive? then e.call !in s.calls && t.calls == s.calls[e.call := Call(e.op, e.user, e.req, Arrived)]
          else t.calls == s.calls)
      && (if e.Submit? then
            e.req !in s.requests && t.requests == s.requests[e.req := Request(e.author, e.createdAt, 0)]
          else if e.Fix? && e.applied && Queue(s, e.loop) != [] && Queue(s, e.loop)[0].req in s.requests then
            var m := Queue(s, e.loop)[0];
            !RowLocked(s, m.req) && t.requests == s.requests[m.req := s.requests[m.req].(count := m.actual)]
          else t.requests == s.requests)
  {
    hide TalliesFit, ListsMismatches, RowLocked;
  }

  /** A work list is replaced by a snapshot, loses its first row to a fix, and is left alone by all else. */
  lemma StepQueue(s: State, e: Event, loop: LoopId)
    requires Step(s, e).Some?
    ensures e.Fix? && e.loop == loop ==> Queue(s, loop) != []
    ensures Queue(Step(s, e).value, loop)
         == if e.Snapshot? && e.loop == loop then e.mismatches
            else if e.Fix? && e.loop == loop then Queue(s, loop)[1..]
            else Queue(s, loop)
    ensures e.Snapshot? ==> Queue(s, e.loop) == [] && TalliesFit(s) && ListsMismatches(s, e.mismatches)
  {
    if OfCall(e) {
      CallStep(s, e);
      hide Step;
    } else {
      hide TalliesFit, ListsMismatches, RowLocked;
    }
  }

  // ----- The invariant -----

  /** Every committed vote names an existing request: the foreign key. */
  ghost predicate VotesValid(s: State) {
    forall v :: v in s.votes ==> v.req in s.requests
  }

  /** Past its author check, and not replied to. */
  predicate InProgress(k: Call) { !k.phase.Arrived? && !k.phase.Replied? }

  /** A call past its author check keeps a request that exists. */
  ghost predicate CallsChecked(s: State) {
    forall c :: c in s.calls && InProgress(s.calls[c]) ==> s.calls[c].req in s.requests
  }

  /** At most one open transaction has written a key, and its write still makes a difference. */
  ghost predicate KeysExclusive(s: State) {
    && (forall c, d | c in s.calls && d in s.calls && s.calls[c].OwnsKey() && s.calls[d].OwnsKey() ::
          s.calls[c].Key() == s.calls[d].Key() ==> c == d)
    && (forall c | c in s.calls && s.calls[c].OwnsKey() ::
          WouldChange(s.calls[c].op, s.votes, s.calls[c].Key()))
  }

  /** At most one open transaction holds a row lock, and its pending value is still the right one. */
  ghost predicate RowsExclusive(s: State) {
    && (forall c, d | c in s.calls && d in s.calls && s.calls[c].OwnsRow() && s.calls[d].OwnsRow() ::
          s.calls[c].req == s.calls[d].req ==> c == d)
    && (forall c | c in s.calls && s.calls[c].OwnsRow() && s.calls[c].req in s.requests ::
          s.calls[c].phase.pending == Bump(s.calls[c].op, s.requests[s.calls[c].req].count) <= INT32_MAX)
  }

  ghost predicate CountsInRange(s: State) {
    forall r :: r in s.requests ==> 0 <= s.requests[r].count <= INT32_MAX
  }

  /** A work list has existing requests, each once, with numbers that fit the counter's column. */
  ghost predicate QueueValid(s: State, queue: seq<Mismatch>) {
    && (forall i :: 0 <= i < |queue| ==> queue[i].req in s.requests && 0 <= queue[i].actual <= INT32_MAX)
    && (forall i, j :: 0 <= i < j < |queue| ==> queue[i].req != queue[j].req)
  }

  ghost predicate QueuesValid(s: State) {
    forall loop :: QueueValid(s, Queue(s, loop))
  }

  ghost predicate Inv(s: State) {
    && VotesValid(s)
    && CallsChecked(s)
    && KeysExclusive(s)
    && RowsExclusive(s)
    && CountsInRange(s)
    && QueuesValid(s)
  }

  /** A database at rest: stored rows in any state the schema permits, drifted or not, and nothing in progress. */
  ghost predicate AtRest(s: State) {
    && VotesValid(s)
    && CountsInRange(s)
    && s.calls == map[]
    && s.queues == map[]
    && s.log == []
  }

  /** No step forgets a request or changes its author or creation time. */
  ghost predicate Extends(s: State, t: State) {
    forall r :: r in s.requests ==>
      && r in t.requests
      && t.requests[r].author == s.requests[r].author
      && t.requests[r].createdAt == s.requests[r].createdAt
  }

  lemma StepExtends(s: State, e: Event)
    requires Step(s, e).Some?
    ensures Extends(s, Step(s, e).value)
  {
    hide Step, Bump;
    if OfCall(e) {
      CallStep(s, e);
    } else {
      OtherStep(s, e);
    }
  }

  /** What a call asks for never changes; only its phase does. */
  predicate SameCall(k: Call, k': Call) {
    k'.op == k.op && k'.user == k.user && k'.req == k.req
  }

  lemma StepKeepsCall(s: State, e: Event, c: CallId)
    requires Step(s, e).Some? && c in s.calls
    ensures c in Step(s, e).value.calls && SameCall(s.calls[c], Step(s, e).value.calls[c])
  {
    hide Step, Toggle, Bump;
    if OfCall(e) {
      CallStep(s, e);
    } else {
      OtherStep(s, e);
    }
  }

  lemma StepKeepsVotesValid(s: State, e: Event)
    requires Inv(s) && Step(s, e).Some?
    ensures VotesValid(Step(s, e).value)
  {
    hide Step, Bump;
    if OfCall(e) {
      CallStep(s, e);
    } else {
      OtherStep(s, e);
    }
  }

  /** A call in progress after a step was in progress before it, or has just passed its author check. */
  lemma CallOrigin(s: State, e: Event, c: CallId)
    requires Step(s, e).Some? && c in Step(s, e).value.calls && InProgress(Step(s, e).value.calls[c])
    ensures c in s.calls && !s.calls[c].phase.Replied? && SameCall(s.calls[c], Step(s, e).value.calls[c])
    ensures var k := s.calls[c];
      k.phase.Arrived? ==> k.req in s.requests && (k.op.Upvote? ==> s.requests[k.req].author != k.user)
  {
    if OfCall(e) {
      CallStep(s, e);
      if e.call != c || !s.calls[c].phase.Arrived? {
        hide Step, AdvanceCall;
      }
    } else {
      OtherStep(s, e);
      hide Step;
    }
  }

  lemma StepKeepsCallsChecked(s: State, e: Event)
    requires Inv(s) && Step(s, e).Some?
    ensures CallsChecked(Step(s, e).value)
  {
    hide Step;
    var t := Step(s, e).value;
    StepExtends(s, e);
    forall c | c in t.calls && InProgress(t.calls[c])
      ensures t.calls[c].req in t.requests
    {
      CallOrigin(s, e, c);
    }
  }

  /** Giving locks up, or never having had any, keeps both kinds exclusive. */
  lemma ReleaseKeepsLocks(s: State, c: CallId, phase: Phase)
    requires Inv(s) && c in s.calls
    requires phase != Wrote(true) && !phase.Moved?
    ensures KeysExclusive(SetPhase(s, c, phase)) && RowsExclusive(SetPhase(s, c, phase))
  {
  }

  lemma WriteKeepsLocks(s: State, c: CallId)
    requires Inv(s) && c in s.calls && s.calls[c].phase.Begun? && WriteVote(s, c).Some?
    ensures KeysExclusive(WriteVote(s, c).value) && RowsExclusive(WriteVote(s, c).value)
  {
    var t := WriteVote(s, c).value;
    if !t.calls[c].OwnsKey() {
      ReleaseKeepsLocks(s, c, t.calls[c].phase);
    }
  }

  lemma MoveKeepsLocks(s: State, c: CallId)
    requires Inv(s) && c in s.calls && s.calls[c].phase == Wrote(true)
    requires s.calls[c].req in s.requests && MoveCount(s, c).Some?
    ensures KeysExclusive(MoveCount(s, c).value) && RowsExclusive(MoveCount(s, c).value)
  {
    var t := MoveCount(s, c).value;
    if !t.calls[c].OwnsRow() {
      ReleaseKeepsLocks(s, c, t.calls[c].phase);
    }
  }

  lemma PublishKeepsLocks(s: State, c: CallId, phase: Phase)
    requires Inv(s) && c in s.calls && s.calls[c].phase.Moved? && s.calls[c].req in s.requests
    requires phase != Wrote(true) && !phase.Moved?
    ensures KeysExclusive(SetPhase(Publish(s, c), c, phase))
    ensures RowsExclusive(SetPhase(Publish(s, c), c, phase))
  {
    var t := SetPhase(Publish(s, c), c, phase);
    forall d | d in t.calls && t.calls[d].OwnsKey()
      ensures WouldChange(t.calls[d].op, t.votes, t.calls[d].Key())
    {
      assert d != c && s.calls[d].Key() != s.calls[c].Key();
    }
    forall d | d in t.calls && t.calls[d].OwnsRow()
      ensures t.calls[d].req != s.calls[c].req
    {
      assert d != c;
    }
  }

  lemma AdvanceKeepsLocks(s: State, c: CallId)
    requires Inv(s) && c in s.calls && AdvanceCall(s, c).Some?
    ensures KeysExclusive(AdvanceCall(s, c).value) && RowsExclusive(AdvanceCall(s, c).value)
  {
    match s.calls[c].phase {
      case Arrived => ReleaseKeepsLocks(s, c, ReadAuthor(s, c).calls[c].phase);
      case Checked => ReleaseKeepsLocks(s, c, Begun);
      case Begun => WriteKeepsLocks(s, c);
      case Wrote(affected) =>
        if affected {
          MoveKeepsLocks(s, c);
        } else {
          ReleaseKeepsLocks(s, c, Committed(false));
        }
      case Moved(_) => PublishKeepsLocks(s, c, Committed(true));
      case Committed(_) => ReleaseKeepsLocks(s, c, AdvanceCall(s, c).value.calls[c].phase);
      case Replied(_) =>
    }
  }

  lemma FailureKeepsLocks(s: State, e: Event)
    requires Inv(s) && Step(s, e).Some? && (e.Fail? || e.CommitLost?)
    ensures KeysExclusive(Step(s, e).value) && RowsExclusive(Step(s, e).value)
  {
    hide Inv, KeysExclusive, RowsExclusive;
    if e.CommitLost? && s.calls[e.call].phase.Moved? && e.applied {
      PublishKeepsLocks(s, e.call, Replied(Failed));
    } else {
      ReleaseKeepsLocks(s, e.call, Step(s, e).value.calls[e.call].phase);
    }
  }

  lemma SameKeys(s: State, t: State)
    requires KeysExclusive(s) && t.calls == s.calls && t.votes == s.votes
    ensures KeysExclusive(t)
  {
    hide WouldChange;
  }

  lemma SameRows(s: State, t: State)
    requires RowsExclusive(s) && t.calls == s.calls
    requires forall c :: c in s.calls && s.calls[c].OwnsRow() ==>
      var r := s.calls[c].req;
      r in s.requests && r in t.requests && t.requests[r].count == s.requests[r].count
    ensures RowsExclusive(t)
  {
    hide Bump;
  }

  /** What leaves the calls, the votes and every locked row's counter alone keeps the locks as they are. */
  lemma LockedRowsKeepLocks(s: State, t: State)
    requires KeysExclusive(s) && RowsExclusive(s) && t.calls == s.calls && t.votes == s.votes
    requires forall c :: c in s.calls && s.calls[c].OwnsRow() ==>
      var r := s.calls[c].req;
      r in s.requests && r in t.requests && t.requests[r].count == s.requests[r].count
    ensures KeysExclusive(t) && RowsExclusive(t)
  {
    hide KeysExclusive, RowsExclusive;
    SameKeys(s, t);
    SameRows(s, t);
  }

  lemma ArriveKeepsLocks(s: State, c: CallId, op: Op, user: User, r: ReqId)
    requires KeysExclusive(s) && RowsExclusive(s) && c !in s.calls
    ensures var t := s.(calls := s.calls[c := Call(op, user, r, Arrived)]); KeysExclusive(t) && RowsExclusive(t)
  {
    hide WouldChange, Bump;
  }

  /** So does whatever is not a step of a call. */
  lemma OthersKeepLocks(s: State, e: Event)
    requires Inv(s) && Step(s, e).Some? && !e.Advance? && !e.Fail? && !e.CommitLost?
    ensures KeysExclusive(Step(s, e).value) && RowsExclusive(Step(s, e).value)
  {
    hide KeysExclusive, RowsExclusive, TalliesFit, ListsMismatches;
    if e.Arrive? {
      ArriveKeepsLocks(s, e.call, e.op, e.user, e.req);
    } else {
      LockedRowsKeepLocks(s, Step(s, e).value);
    }
  }

  lemma StepKeepsLocks(s: State, e: Event)
    requires Inv(s) && Step(s, e).Some?
    ensures KeysExclusive(Step(s, e).value) && RowsExclusive(Step(s, e).value)
  {
    hide Inv, KeysExclusive, RowsExclusive, AdvanceCall;
    if e.Advance? {
      AdvanceKeepsLocks(s, e.call);
    } else if e.Fail? || e.CommitLost? {
      FailureKeepsLocks(s, e);
    } else {
      OthersKeepLocks(s, e);
    }
  }

  lemma StepKeepsCountsInRange(s: State, e: Event)
    requires Inv(s) && Step(s, e).Some?
    ensures CountsInRange(Step(s, e).value)
  {
    hide Step;
    if OfCall(e) {
      CallStep(s, e);
    } else {
      OtherStep(s, e);
      assert e.Fix? ==> QueueValid(s, Queue(s, e.loop));
    }
  }

  lemma StepKeepsQueueValid(s: State, e: Event, loop: LoopId)
    requires QueueValid(s, Queue(s, loop)) && Step(s, e).Some?
    ensures QueueValid(Step(s, e).value, Queue(Step(s, e).value, loop))
  {
    hide Step, Queue;
    StepQueue(s, e, loop);
    StepExtends(s, e);
    if e.Snapshot? {
      assert forall i :: 0 <= i < |e.mismatches| ==> Mismatched(s, e.mismatches[i]);
    }
  }

  lemma StepKeepsInv(s: State, e: Event)
    requires Inv(s) && Step(s, e).Some?
    ensures Inv(Step(s, e).value) && Extends(s, Step(s, e).value)
  {
    hide Step, QueueValid, Queue;
    StepKeepsVotesValid(s, e);
    StepKeepsCallsChecked(s, e);
    StepKeepsLocks(s, e);
    StepKeepsCountsInRange(s, e);
    forall loop
      ensures QueueValid(Step(s, e).value, Queue(Step(s, e).value, loop))
    {
      StepKeepsQueueValid(s, e, loop);
    }
    StepExtends(s, e);
  }

  lemma {:induction false} RunKeepsInv(s: State, es: seq<Event>)
    requires Inv(s) && Run(s, es).Some?
    ensures Inv(Run(s, es).value) && Extends(s, Run(s, es).value)
    decreases |es|
  {
    hide Step;
    if es != [] {
      RunKeepsInv(s, es[..|es| - 1]);
      StepKeepsInv(Run(s, es[..|es| - 1]).value, es[|es| - 1]);
    }
  }

  lemma {:induction false} RunKeepsCall(s: State, es: seq<Event>, c: CallId)
    requires Run(s, es).Some? && c in s.calls
    ensures c in Run(s, es).value.calls && SameCall(s.calls[c], Run(s, es).value.calls[c])
    decreases |es|
  {
    hide Step;
    if es != [] {
      RunKeepsCall(s, es[..|es| - 1], c);
      StepKeepsCall(Run(s, es[..|es| - 1]).value, es[|es| - 1], c);
    }
  }

  lemma RunSnoc(s: State, es: seq<Event>, e: Event)
    ensures Run(s, es + [e]) == if Run(s, es).Some? then Step(Run(s, es).value, e) else None
  {
    assert (es + [e])[..|es|] == es;
  }

  /** A run can be cut anywhere. */
  lemma {:induction false} RunConcat(s: State, xs: seq<Event>, ys: seq<Event>)
    ensures Run(s, xs + ys) == if Run(s, xs).Some? then Run(Run(s, xs).value, ys) else None
    decreases |ys|
  {
    if ys == [] {
      assert xs + ys == xs;
    } else {
      var init := ys[..|ys| - 1];
      assert (xs + ys)[..|xs + ys| - 1] == xs + init;
      RunConcat(s, xs, init);
    }
  }

  // ----- Effects on the stored rows -----

  lemma TallyToggle(op: Op, votes: set<Vote>, v: Vote, r: ReqId)
    requires WouldChange(op, votes, v)
    ensures Tally(Toggle(op, votes, v), r) == Tally(votes, r) + if v.req != r then 0 else if op.Upvote? then 1 else -1
  {
    var before, after := VotesOn(votes, r), VotesOn(Toggle(op, votes, v), r);
    if v.req != r {
      assert after == before;
    } else if op.Upvote? {
      assert after == before + {v};
    } else {
      assert before == after + {v};
    }
  }

  /** Votes and counters of existing requests move only when a transaction publishes or a fix is applied to the row. */
  lemma StepFrame(s: State, e: Event)
    requires Step(s, e).Some?
    requires forall c :: !Publishes(s, e, c)
    ensures Step(s, e).value.votes == s.votes
    ensures forall r :: r in s.requests && !Repairs(s, e, r) ==>
      r in Step(s, e).value.requests && Step(s, e).value.requests[r] == s.requests[r]
  {
    hide Step;
    if OfCall(e) {
      CallStep(s, e);
      assert !Publishes(s, e, e.call);
    } else {
      OtherStep(s, e);
    }
  }

  /** What publishing does to the rows. */
  lemma StepPublish(s: State, e: Event, c: CallId)
    requires Inv(s) && Step(s, e).Some? && Publishes(s, e, c)
    ensures var k, t := s.calls[c], Step(s, e).value;
      && t.votes == Toggle(k.op, s.votes, k.Key())
      && WouldChange(k.op, s.votes, k.Key())
      && t.requests == s.requests[k.req := s.requests[k.req].(count := Bump(k.op, s.requests[k.req].count))]
  {
    hide Step, Toggle, WouldChange, Bump;
    CallStep(s, e);
  }

  // ----- Drift -----

  /** How far the stored counter is above the true number of votes. */
  function Drift(s: State, r: ReqId): int
    requires r in s.requests
  {
    s.requests[r].count - Tally(s.votes, r)
  }

  ghost predicate Consistent(s: State) {
    forall r :: r in s.requests ==> Drift(s, r) == 0
  }

  function Max(a: int, b: int): int { if a < b then b else a }

  function Min(a: int, b: int): int { if a < b then a else b }

  /** One step moves the drift only as far as the clamp forces it: a counter is never below zero. */
  lemma StepDrift(s: State, e: Event, r: ReqId)
    requires Inv(s) && Step(s, e).Some? && r in s.requests && !Repairs(s, e, r)
    ensures r in Step(s, e).value.requests
    ensures Drift(Step(s, e).value, r) == Max(Drift(s, r), 0 - Tally(Step(s, e).value.votes, r))
  {
    hide Step;
    if c :| Publishes(s, e, c) {
      StepPublish(s, e, c);
      TallyToggle(s.calls[c].op, s.votes, s.calls[c].Key(), r);
    } else {
      StepFrame(s, e);
    }
  }

  /** No fix is applied to r along the run. */
  ghost predicate Spared(s: State, es: seq<Event>, r: ReqId)
    decreases |es|
  {
    es == [] ||
    (var init := es[..|es| - 1];
     Spared(s, init, r) && (Run(s, init).Some? ==> !Repairs(Run(s, init).value, es[|es| - 1], r)))
  }

  /** The fewest votes r has at any point of the run. */
  ghost function Lowest(s: State, es: seq<Event>, r: ReqId): (n: int)
    requires Run(s, es).Some?
    ensures 0 <= n <= Tally(Run(s, es).value.votes, r)
    decreases |es|
  {
    if es == [] then Tally(s.votes, r)
    else Min(Lowest(s, es[..|es| - 1], r), Tally(Run(s, es).value.votes, r))
  }

  /** Lowest is a lower bound on the votes at every point of the run, and is reached at one. */
  lemma {:induction false} LowestIsMinimum(s: State, es: seq<Event>, r: ReqId)
    requires Run(s, es).Some?
    ensures forall n :: 0 <= n <= |es| ==>
      Run(s, es[..n]).Some? && Lowest(s, es, r) <= Tally(Run(s, es[..n]).value.votes, r)
    ensures exists n :: (0 <= n <= |es|
      && Run(s, es[..n]).Some? && Lowest(s, es, r) == Tally(Run(s, es[..n]).value.votes, r))
    decreases |es|
  {
    hide Step, Tally;
    assert es[..|es|] == es;
    if es != [] {
      var init := es[..|es| - 1];
      LowestIsMinimum(s, init, r);
      assert forall n :: 0 <= n <= |init| ==> init[..n] == es[..n];
    }
  }

  /**
    The exact drift law, from any stored counts: as long as no fix is applied to r, its drift is the
    initial one, raised if need be to minus the fewest votes r has had.
  */
  lemma {:induction false} DriftExactly(s: State, es: seq<Event>, r: ReqId)
    requires Inv(s) && Run(s, es).Some? && r in s.requests && Spared(s, es, r)
    ensures r in Run(s, es).value.requests
    ensures Drift(Run(s, es).value, r) == Max(Drift(s, r), -Lowest(s, es, r))
    decreases |es|
  {
    hide Step;
    if es != [] {
      var init, last := es[..|es| - 1], es[|es| - 1];
      DriftExactly(s, init, r);
      RunKeepsInv(s, init);
      StepDrift(Run(s, init).value, last, r);
    }
  }

  /** What that leaves of a drift d: kept when not negative, otherwise only moved towards zero. */
  predicate DriftMoves(d: int, d': int) {
    if d >= 0 then d' == d else d <= d' <= 0
  }

  predicate Reconciles(e: Event) { e.Snapshot? || e.Fix? }

  lemma {:induction false} CallsSpare(s: State, es: seq<Event>, r: ReqId)
    requires forall e :: e in es ==> !Reconciles(e)
    ensures Spared(s, es, r)
    decreases |es|
  {
    if es != [] {
      assert es[|es| - 1] in es;
      CallsSpare(s, es[..|es| - 1], r);
    }
  }

  /**
    From any stored counts, drifted or not, calls alone never make a counter negative, keep a drift
    that is not negative exactly, and move a negative one only towards zero.
  */
  lemma DriftNeverGrows(s: State, es: seq<Event>, r: ReqId)
    requires Inv(s) && Run(s, es).Some? && r in s.requests
    requires forall e :: e in es ==> !Reconciles(e)
    ensures r in Run(s, es).value.requests
    ensures Run(s, es).value.requests[r].count >= 0
    ensures DriftMoves(Drift(s, r), Drift(Run(s, es).value, r))
  {
    hide Step, Run;
    RunKeepsInv(s, es);
    CallsSpare(s, es, r);
    DriftExactly(s, es, r);
  }

  lemma NoVotesOnUnknown(s: State, r: ReqId)
    requires VotesValid(s) && r !in s.requests
    ensures Tally(s.votes, r) == 0
  {
    assert VotesOn(s.votes, r) == {};
  }

  /** With correct counters the mismatch query selects nothing, so no loop ever has a row to write. */
  lemma NothingToReconcile(s: State, e: Event)
    requires Consistent(s) && s.queues == map[] && Step(s, e).Some?
    ensures Step(s, e).value.queues == map[] && !e.Fix?
  {
    if OfCall(e) {
      CallStep(s, e);
      hide Step;
    } else if e.Snapshot? {
      assert |e.mismatches| > 0 ==> Mismatched(s, e.mismatches[0]);
    }
  }

  /** A request that appears has no votes and a zero counter. */
  lemma NewRequest(s: State, e: Event, r: ReqId)
    requires Inv(s) && Step(s, e).Some? && r !in s.requests && r in Step(s, e).value.requests
    ensures Step(s, e).value.requests[r].count == 0 && Step(s, e).value.votes == s.votes
    ensures Drift(Step(s, e).value, r) == 0
  {
    hide Step;
    if OfCall(e) {
      CallStep(s, e);
    } else {
      OtherStep(s, e);
    }
    NoVotesOnUnknown(s, r);
  }

  lemma StepKeepsConsistent(s: State, e: Event)
    requires Inv(s) && Consistent(s) && s.queues == map[] && Step(s, e).Some?
    ensures Consistent(Step(s, e).value) && Step(s, e).value.queues == map[]
  {
    hide Step;
    var t := Step(s, e).value;
    NothingToReconcile(s, e);
    forall r | r in t.requests
      ensures Drift(t, r) == 0
    {
      if r in s.requests {
        StepDrift(s, e, r);
      } else {
        NewRequest(s, e, r);
      }
    }
  }

  /**
    The counting law: starting with correct counters, after any interleaving of calls, failures,
    lost commits and reconcile passes every committed vote_count is the number of committed votes,
    and a reconcile pass never finds anything to write.
  */
  lemma {:induction false} CountEqualsVotes(s: State, es: seq<Event>)
    requires AtRest(s) && Consistent(s) && Run(s, es).Some?
    ensures Consistent(Run(s, es).value)
    ensures Run(s, es).value.queues == map[]
    decreases |es|
  {
    hide Step;
    if es != [] {
      var init := es[..|es| - 1];
      CountEqualsVotes(s, init);
      RunKeepsInv(s, init);
      StepKeepsConsistent(Run(s, init).value, es[|es| - 1]);
    }
  }

  /** In such runs the clamp at zero never changes the value a decrement computes. */
  lemma ClampNeverBites(s: State, es: seq<Event>, c: CallId)
    requires AtRest(s) && Consistent(s) && Run(s, es).Some?
    requires var t := Run(s, es).value; c in t.calls && t.calls[c].OwnsKey() && t.calls[c].op.RemoveVote?
    ensures var t := Run(s, es).value;
      && t.calls[c].req in t.requests
      && t.requests[t.calls[c].req].count >= 1
      && Bump(RemoveVote, t.requests[t.calls[c].req].count) == t.requests[t.calls[c].req].count - 1
  {
    hide Step;
    var t := Run(s, es).value;
    RunKeepsInv(s, es);
    CountEqualsVotes(s, es);
    var k := t.calls[c];
    assert k.Key() in VotesOn(t.votes, k.req);
    assert Drift(t, k.req) == 0;
  }

  /** A call that replies with a count replies with the number of votes committed at that moment. */
  lemma ReplyCountsVotes(s: State, es: seq<Event>, c: CallId)
    requires AtRest(s) && Consistent(s) && Run(s, es).Some?
    requires var t := Run(s, es).value; c in t.calls && t.calls[c].phase.Committed?
    ensures var t := Run(s, es).value;
      var reply := Counted(t.calls[c].phase.changed, Tally(t.votes, t.calls[c].req));
      Step(t, Advance(c)) == Some(SetPhase(t, c, Replied(reply)))
  {
    var t := Run(s, es).value;
    RunKeepsInv(s, es);
    CountEqualsVotes(s, es);
    assert Drift(t, t.calls[c].req) == 0;
  }

  // ----- Votes on one's own request -----

  /** No committed vote, and no upvote past its author check, is of the request's author. */
  ghost predicate NoneOwn(s: State) {
    && (forall v :: v in s.votes && v.req in s.requests ==> s.requests[v.req].author != v.user)
    && (forall c :: c in s.calls && InProgress(s.calls[c]) && s.calls[c].op.Upvote? && s.calls[c].req in s.requests ==>
          s.requests[s.calls[c].req].author != s.calls[c].user)
  }

  lemma StepKeepsNoneOwn(s: State, e: Event)
    requires Inv(s) && NoneOwn(s) && Step(s, e).Some?
    ensures NoneOwn(Step(s, e).value)
  {
    hide Step, Bump;
    var t := Step(s, e).value;
    StepExtends(s, e);
    forall c | c in t.calls && InProgress(t.calls[c]) && t.calls[c].op.Upvote?
      ensures t.calls[c].req in t.requests && t.requests[t.calls[c].req].author != t.calls[c].user
    {
      CallOrigin(s, e, c);
    }
    if OfCall(e) {
      CallStep(s, e);
    } else {
      OtherStep(s, e);
    }
  }

  /**
    The schema lets an author vote; the code does not: if no stored vote is of the request's own
    author, then in every reachable state each vote names an existing request of another author.
  */
  lemma {:induction false} NoSelfVotes(s: State, es: seq<Event>)
    requires AtRest(s) && NoneOwn(s) && Run(s, es).Some?
    ensures var t := Run(s, es).value;
      NoneOwn(t) && forall v :: v in t.votes ==> v.req in t.requests && t.requests[v.req].author != v.user
    decreases |es|
  {
    hide Step;
    RunKeepsInv(s, es);
    if es != [] {
      var init := es[..|es| - 1];
      NoSelfVotes(s, init);
      RunKeepsInv(s, init);
      StepKeepsNoneOwn(Run(s, init).value, es[|es| - 1]);
    }
  }
}
