/**
  The repositories and services that run the statements, as imperative code over the stored rows.

  Each method runs by itself, without interference, and is proved to be one run of the voting state
  machine; what concurrent calls do to each other is proved about the machine. The parameters that
  name failures stand for the errors a database connection may return.
*/
module VoteStore {
  import opened Wrappers
  import opened VoteMachine
  import opened VoteSafety

  /** Which statement of a transaction returns an error: Begin is 0, the votes statement 1, and so on. */
  datatype Fault = NoFault | StatementFails(n: nat) | CommitFails(applied: bool)

  datatype StoreError = QueryError

  /** The committed rows. */
  class Pool {
    var votes: set<Vote>
    var requests: map<ReqId, Request>

    /** Foreign keys hold and counters fit their column. */
    ghost predicate Valid()
      reads this
    {
      VotesValid(View()) && CountsInRange(View())
    }

    ghost function View(): State
      reads this
    {
      State(votes, requests, map[], map[], [])
    }

    constructor ()
      ensures Valid() && votes == {} && requests == map[]
    {
      votes, requests := {}, map[];
    }
  }

  /** The rows after a transaction of which nothing else is in the way, and what it returns. */
  datatype Outcome = Outcome(votes: set<Vote>, requests: map<ReqId, Request>, res: Result<bool, StoreError>)

  /** The transaction ends in a rollback: a statement fails, by itself or by the constraints on the rows. */
  predicate RollsBack(votes: set<Vote>, requests: map<ReqId, Request>, op: Op, key: Vote, fault: Fault) {
    var changed := WouldChange(op, votes, key);
    || (fault.StatementFails? && fault.n <= if changed then 3 else 2)
    || (changed && key.req !in requests)
    || (changed && Bump(op, requests[key.req].count) > INT32_MAX)
  }

  /** InsertVote and DeleteVote as one atomic change. */
  function Transact(votes: set<Vote>, requests: map<ReqId, Request>, op: Op, key: Vote, fault: Fault): Outcome {
    var changed := WouldChange(op, votes, key);
    if RollsBack(votes, requests, op, key, fault) || fault == CommitFails(false) then
      Outcome(votes, requests, Failure(QueryError))
    else
      var res := if fault.CommitFails? then Failure(QueryError) else Success(changed);
      if !changed then Outcome(votes, requests, res)
      else
        var row := requests[key.req];
        Outcome(Toggle(op, votes, key), requests[key.req := row.(count := Bump(op, row.count))], res)
  }

  /**
    The atomic change in plain terms. A statement that is reached and fails, or cannot succeed on these
    rows, or a COMMIT that is lost without effect, leaves the rows alone and is answered by an error.
    Otherwise the vote and its request's counter change if the vote was not (or was) there, nothing
    else does, and the answer says whether they did, unless it was lost.
  */
  lemma TransactMeans(votes: set<Vote>, requests: map<ReqId, Request>, op: Op, key: Vote, fault: Fault)
    ensures var o := Transact(votes, requests, op, key, fault);
      var changes := if op == Upvote then key !in votes else key in votes;
      var refused := changes
        && (key.req !in requests || (op == Upvote && requests[key.req].count + 1 > 0x7FFF_FFFF)
            || (op == RemoveVote && requests[key.req].count - 1 > 0x7FFF_FFFF));
      if fault == CommitFails(false) || refused || (fault.StatementFails? && fault.n <= if changes then 3 else 2) then
        o == Outcome(votes, requests, Failure(QueryError))
      else
        && o.res == (if fault == CommitFails(true) then Failure(QueryError) else Success(changes))
        && o.votes == (if !changes then votes else if op == Upvote then votes + {key} else votes - {key})
        && o.requests.Keys == requests.Keys
        && forall r :: r in requests ==>
          && o.requests[r].author == requests[r].author && o.requests[r].createdAt == requests[r].createdAt
          && o.requests[r].count ==
               if !changes || r != key.req then requests[r].count
               else if op == Upvote then requests[r].count + 1
               else if requests[r].count > 0 then requests[r].count - 1
               else 0
  {
  }

  class VoteRepo {
    const pool: Pool

    constructor (pool: Pool)
      ensures this.pool == pool
    {
      this.pool := pool;
    }

    method InsertVote(user: User, req: ReqId, fault: Fault) returns (res: Result<bool, StoreError>)
      modifies pool
      ensures Outcome(pool.votes, pool.requests, res)
           == Transact(old(pool.votes), old(pool.requests), Upvote, Vote(user, req), fault)
    {
      if fault == StatementFails(0) {           // Begin
        return Failure(QueryError);
      }
      // The transaction's own view; nothing of it is visible until COMMIT.
      var votes, requests := pool.votes, pool.requests;

      // INSERT .. ON CONFLICT DO NOTHING
      var inserted := Vote(user, req) !in votes;
      if fault == StatementFails(1) || (inserted && req !in requests) {
        return Failure(QueryError);
      }
      if inserted {
        votes := votes + {Vote(user, req)};
        // UPDATE .. SET vote_count = vote_count + 1
        var count := requests[req].count + 1;
        if fault == StatementFails(2) || count > INT32_MAX {
          return Failure(QueryError);
        }
        requests := requests[req := requests[req].(count := count)];
      }
      if fault == CommitFails(false) || fault == StatementFails(if inserted then 3 else 2) {
        return Failure(QueryError);
      }
      pool.votes, pool.requests := votes, requests;
      return if fault == CommitFails(true) then Failure(QueryError) else Success(inserted);
    }

    method DeleteVote(user: User, req: ReqId, fault: Fault) returns (res: Result<bool, StoreError>)
      requires Vote(user, req) in pool.votes ==> req in pool.requests && pool.requests[req].count <= INT32_MAX
      modifies pool
      ensures Outcome(pool.votes, pool.requests, res)
           == Transact(old(pool.votes), old(pool.requests), RemoveVote, Vote(user, req), fault)
    {
      if fault == StatementFails(0) {           // Begin
        return Failure(QueryError);
      }
      var votes, requests := pool.votes, pool.requests;

      // DELETE FROM votes
      if fault == StatementFails(1) {
        return Failure(QueryError);
      }
      var deleted := Vote(user, req) in votes;
      if deleted {
        votes := votes - {Vote(user, req)};
        // UPDATE .. SET vote_count = GREATEST(vote_count - 1, 0)
        if fault == StatementFails(2) {
          return Failure(QueryError);
        }
        var count := requests[req].count - 1;
        if count < 0 {
          count := 0;
        }
        requests := requests[req := requests[req].(count := count)];
      }
      if fault == CommitFails(false) || fault == StatementFails(if deleted then 3 else 2) {
        return Failure(QueryError);
      }
      pool.votes, pool.requests := votes, requests;
      return if fault == CommitFails(true) then Failure(QueryError) else Success(deleted);
    }

    method GetVoteCount(req: ReqId, fails: bool) returns (res: Result<int, StoreError>)
      ensures res == if fails || req !in pool.requests then Failure(QueryError) else Success(pool.requests[req].count)
      ensures res.Success? && Consistent(pool.View()) ==> res.value == Tally(pool.votes, req)
    {
      if fails || req !in pool.requests {
        return Failure(QueryError);
      }
      assert Consistent(pool.View()) ==> Drift(pool.View(), req) == 0;
      return Success(pool.requests[req].count);
    }

    method GetRequestAuthorID(req: ReqId, fails: bool) returns (res: Result<User, StoreError>)
      ensures res == if fails || req !in pool.requests then Failure(QueryError) else Success(pool.requests[req].author)
      ensures res.Success? && NoneOwn(pool.View()) ==> Vote(res.value, req) !in pool.votes
    {
      if fails || req !in pool.requests {
        return Failure(QueryError);
      }
      return Success(pool.requests[req].author);
    }
  }

  // ----- The repository calls are runs of the machine -----

  /** The machine with a single call that has passed its author check. */
  function Alone(votes: set<Vote>, requests: map<ReqId, Request>, op: Op, key: Vote): State {
    State(votes, requests, map[0 := Call(op, key.user, key.req, Checked)], map[], [])
  }

  /** What a repository call returns when its transaction is in this phase. */
  predicate Returned(phase: Phase, res: Result<bool, StoreError>) {
    match phase
    case Committed(changed) => res == Success(changed)
    case Replied(reply) => reply == Failed && res.Failure?
    case _ => false
  }

  /** The machine, run from the state before, arrives at this outcome. */
  ghost predicate IsRunOf(before: State, events: seq<Event>, o: Outcome) {
    match Run(before, events)
    case None => false
    case Some(t) => t.votes == o.votes && t.requests == o.requests && 0 in t.calls && Returned(t.calls[0].phase, o.res)
  }

  /** The run so far has brought the single call to k and published nothing. */
  ghost predicate At(before: State, events: seq<Event>, k: Call) {
    match Run(before, events)
    case None => false
    case Some(m) => m.votes == before.votes && m.requests == before.requests && m.calls == map[0 := k]
  }

  /** One more event; the call moves on and publishes nothing. */
  lemma Extend(before: State, events: seq<Event>, k: Call, e: Event, phase: Phase) returns (events': seq<Event>)
    requires At(before, events, k)
    requires var m := Run(before, events).value;
      Step(m, e).Some? && var t := Step(m, e).value;
        t.votes == m.votes && t.requests == m.requests && t.calls == m.calls[0 := k.(phase := phase)]
    ensures events' == events + [e] && At(before, events', k.(phase := phase))
  {
    events' := events + [e];
    assert events'[..|events|] == events;
  }

  lemma RollBack(before: State, events: seq<Event>, k: Call) returns (events': seq<Event>)
    requires At(before, events, k) && (k.phase.Checked? || k.InTransaction())
    ensures IsRunOf(before, events', Outcome(before.votes, before.requests, Failure(QueryError)))
  {
    events' := Extend(before, events, k, Fail(0), Replied(Failed));
  }

  /** COMMIT, in effect or not, from any state in which the call is alone. */
  lemma CommitStep(m: State, k: Call, fault: Fault) returns (e: Event)
    requires m.calls == map[0 := k] && (k.phase.Moved? ==> k.req in m.requests) && !fault.StatementFails?
    requires k.phase.Moved? || k.phase == Wrote(false)
    ensures Step(m, e).Some? && var t := Step(m, e).value;
      && 0 in t.calls
      && t.calls[0].phase == (if fault.CommitFails? then Replied(Failed) else Committed(k.phase.Moved?))
      && t.votes == (if k.phase.Moved? && fault != CommitFails(false) then Toggle(k.op, m.votes, k.Key()) else m.votes)
      && t.requests == (if k.phase.Moved? && fault != CommitFails(false) then
                          m.requests[k.req := m.requests[k.req].(count := k.phase.pending)]
                        else m.requests)
  {
    hide Toggle;
    e := if fault.CommitFails? then CommitLost(0, fault.applied) else Advance(0);
  }

  /** What a transaction comes to from its COMMIT on. */
  lemma TransactCommits(votes: set<Vote>, requests: map<ReqId, Request>, op: Op, key: Vote, fault: Fault)
    requires !fault.StatementFails?
    requires WouldChange(op, votes, key) ==> key.req in requests && Bump(op, requests[key.req].count) <= INT32_MAX
    ensures var changed := WouldChange(op, votes, key);
      var effect := changed && fault != CommitFails(false);
      Transact(votes, requests, op, key, fault) == Outcome(
        if effect then Toggle(op, votes, key) else votes,
        if effect then
          requests[key.req := requests[key.req].(count := Bump(op, requests[key.req].count))]
        else requests,
        if fault.CommitFails? then Failure(QueryError) else Success(changed))
  {
    hide Toggle, Bump, WouldChange;
  }

  /** A transaction one of whose statements fails leaves the rows alone. */
  lemma TransactFails(votes: set<Vote>, requests: map<ReqId, Request>, op: Op, key: Vote, fault: Fault)
    requires fault.StatementFails? && fault.n <= if WouldChange(op, votes, key) then 3 else 2
    ensures Transact(votes, requests, op, key, fault) == Outcome(votes, requests, Failure(QueryError))
  {
  }

  /** Faults of statements that a transaction does not get to have no effect. */
  lemma FaultNotReached(votes: set<Vote>, requests: map<ReqId, Request>, op: Op, key: Vote, fault: Fault)
    requires fault.StatementFails? && fault.n > if WouldChange(op, votes, key) then 3 else 2
    ensures Transact(votes, requests, op, key, fault) == Transact(votes, requests, op, key, NoFault)
  {
    hide Toggle, Bump, WouldChange;
  }

  /** From the end of a transaction: COMMIT, whatever becomes of it. */
  lemma FromCommit(before: State, events: seq<Event>, k: Call, fault: Fault) returns (events': seq<Event>)
    requires At(before, events, k) && (k.phase.Moved? ==> k.req in before.requests)
    requires if k.phase.Moved? then k.phase.pending == Bump(k.op, before.requests[k.req].count) <= INT32_MAX
             else k.phase == Wrote(false)
    requires k.phase.Moved? == WouldChange(k.op, before.votes, k.Key())
    requires fault.StatementFails? ==> fault.n >= if k.phase.Moved? then 3 else 2
    ensures IsRunOf(before, events', Transact(before.votes, before.requests, k.op, k.Key(), fault))
  {
    hide Step, Run, Transact, Toggle, Bump, WouldChange;
    if fault == StatementFails(if k.phase.Moved? then 3 else 2) {
      TransactFails(before.votes, before.requests, k.op, k.Key(), fault);
      events' := RollBack(before, events, k);
    } else {
      var reached := if fault.StatementFails? then NoFault else fault;
      if fault.StatementFails? {
        FaultNotReached(before.votes, before.requests, k.op, k.Key(), fault);
      }
      TransactCommits(before.votes, before.requests, k.op, k.Key(), reached);
      var e := CommitStep(Run(before, events).value, k, reached);
      RunSnoc(before, events, e);
      events' := events + [e];
    }
  }

  /** From the votes statement having changed a row: the counter statement and the rest. */
  lemma FromCount(before: State, events: seq<Event>, k: Call, fault: Fault) returns (events': seq<Event>)
    requires At(before, events, k) && k.phase == Wrote(true) && k.req in before.requests
    requires WouldChange(k.op, before.votes, k.Key())
    requires fault.StatementFails? ==> fault.n >= 2
    ensures IsRunOf(before, events', Transact(before.votes, before.requests, k.op, k.Key(), fault))
  {
    var next := Bump(k.op, before.requests[k.req].count);
    if fault == StatementFails(2) {
      events' := RollBack(before, events, k);
    } else if next > INT32_MAX {
      events' := Extend(before, events, k, Advance(0), Replied(Failed));
    } else {
      events' := Extend(before, events, k, Advance(0), Moved(next));
      events' := FromCommit(before, events', k.(phase := Moved(next)), fault);
    }
  }

  lemma FailsEarly(votes: set<Vote>, requests: map<ReqId, Request>, op: Op, key: Vote, fault: Fault)
    requires (fault.StatementFails? && fault.n <= 1) || (WouldChange(op, votes, key) && key.req !in requests)
    ensures Transact(votes, requests, op, key, fault) == Outcome(votes, requests, Failure(QueryError))
  {
  }

  lemma EndsFailed(before: State, events: seq<Event>, k: Call)
    requires At(before, events, k) && k.phase == Replied(Failed)
    ensures IsRunOf(before, events, Outcome(before.votes, before.requests, Failure(QueryError)))
  {
  }

  /** From an open transaction: the votes statement and the rest. */
  lemma FromVote(before: State, events: seq<Event>, k: Call, fault: Fault) returns (events': seq<Event>)
    requires At(before, events, k) && k.phase == Begun
    requires fault.StatementFails? ==> fault.n >= 1
    ensures IsRunOf(before, events', Transact(before.votes, before.requests, k.op, k.Key(), fault))
  {
    hide Transact, IsRunOf;
    if fault == StatementFails(1) {
      events' := RollBack(before, events, k);
      FailsEarly(before.votes, before.requests, k.op, k.Key(), fault);
    } else if !WouldChange(k.op, before.votes, k.Key()) {
      events' := Extend(before, events, k, Advance(0), Wrote(false));
      events' := FromCommit(before, events', k.(phase := Wrote(false)), fault);
    } else if k.req !in before.requests {
      events' := Extend(before, events, k, Advance(0), Replied(Failed));
      FailsEarly(before.votes, before.requests, k.op, k.Key(), fault);
      EndsFailed(before, events', k.(phase := Replied(Failed)));
    } else {
      events' := Extend(before, events, k, Advance(0), Wrote(true));
      events' := FromCount(before, events', k.(phase := Wrote(true)), fault);
    }
  }

  /**
    A repository call that nothing interferes with is a run of the voting state machine: what
    InsertVote and DeleteVote do to the rows, and what they return, is what the machine's events do.
  */
  lemma TransactIsRun(votes: set<Vote>, requests: map<ReqId, Request>, op: Op, key: Vote, fault: Fault)
    returns (events: seq<Event>)
    ensures IsRunOf(Alone(votes, requests, op, key), events, Transact(votes, requests, op, key, fault))
  {
    hide Transact, IsRunOf;
    var before := Alone(votes, requests, op, key);
    var k := before.calls[0];
    assert At(before, [], k);
    if fault == StatementFails(0) {
      events := RollBack(before, [], k);
      FailsEarly(votes, requests, op, key, fault);
    } else {
      events := Extend(before, [], k, Advance(0), Begun);
      events := FromVote(before, events, k.(phase := Begun), fault);
    }
  }

  // ----- The vote service -----

  datatype ServiceError = ErrNotFound | ErrSelfVote | ErrStore

  datatype VoteResult = VoteResult(req: ReqId, count: int, viewerHasVoted: bool)

  /** Which of the three repository calls of a service call fail. */
  datatype Failures = Failures(author: bool, transaction: Fault, count: bool)

  /** The rows after a service call of which nothing else is in the way, and what it returns. */
  datatype Served = Served(votes: set<Vote>, requests: map<ReqId, Request>, res: Result<VoteResult, ServiceError>)

  /** Upvote and RemoveVote as one atomic change. */
  function Serve(votes: set<Vote>, requests: map<ReqId, Request>, op: Op, key: Vote, failures: Failures): Served {
    if failures.author || key.req !in requests then Served(votes, requests, Failure(ErrNotFound))
    else if op.Upvote? && requests[key.req].author == key.user then Served(votes, requests, Failure(ErrSelfVote))
    else
      var o := Transact(votes, requests, op, key, failures.transaction);
      if o.res.Failure? || failures.count || key.req !in o.requests then Served(o.votes, o.requests, Failure(ErrStore))
      else Served(o.votes, o.requests, Success(VoteResult(key.req, o.requests[key.req].count, op.Upvote?)))
  }

  /** A repository call keeps the rows valid, and correct counters correct. */
  lemma TransactKeepsRows(s: State, op: Op, key: Vote, fault: Fault)
    requires VotesValid(s) && CountsInRange(s)
    ensures var o := Transact(s.votes, s.requests, op, key, fault);
      var t := s.(votes := o.votes, requests := o.requests);
      VotesValid(t) && CountsInRange(t) && (Consistent(s) ==> Consistent(t))
  {
    var o := Transact(s.votes, s.requests, op, key, fault);
    var t := s.(votes := o.votes, requests := o.requests);
    if t.votes != s.votes && Consistent(s) {
      assert Drift(s, key.req) == 0;
      if op.RemoveVote? {
        assert key in VotesOn(s.votes, key.req);
      }
      forall r | r in t.requests
        ensures Drift(t, r) == 0
      {
        assert Drift(s, r) == 0;
        TallyToggle(op, s.votes, key, r);
      }
    }
  }

  /** And it keeps votes on one's own request out, if the call is not such a vote. */
  lemma TransactKeepsNoneOwn(s: State, op: Op, key: Vote, fault: Fault)
    requires NoneOwn(s) && s.calls == map[]
    requires op.Upvote? && key.req in s.requests ==> s.requests[key.req].author != key.user
    ensures var o := Transact(s.votes, s.requests, op, key, fault);
      NoneOwn(s.(votes := o.votes, requests := o.requests))
  {
    hide Bump;
  }

  class VoteService {
    const repo: VoteRepo

    constructor (repo: VoteRepo)
      ensures this.repo == repo
    {
      this.repo := repo;
    }

    method Upvote(user: User, req: ReqId, failures: Failures) returns (res: Result<VoteResult, ServiceError>)
      requires repo.pool.Valid()
      modifies repo.pool
      ensures repo.pool.Valid()
      ensures Served(repo.pool.votes, repo.pool.requests, res)
           == Serve(old(repo.pool.votes), old(repo.pool.requests), Op.Upvote, Vote(user, req), failures)
      ensures failures.author || req !in old(repo.pool.requests) ==>
        res == Failure(ErrNotFound) && repo.pool.View() == old(repo.pool.View())
      ensures !failures.author && req in old(repo.pool.requests) && old(repo.pool.requests)[req].author == user ==>
        res == Failure(ErrSelfVote) && repo.pool.View() == old(repo.pool.View())
      ensures res.Success? ==>
        && repo.pool.votes == old(repo.pool.votes) + {Vote(user, req)}
        && req in repo.pool.requests
        && res.value == VoteResult(req, repo.pool.requests[req].count, true)
        && repo.pool.requests[req].count
           == old(repo.pool.requests)[req].count + if Vote(user, req) in old(repo.pool.votes) then 0 else 1
      ensures old(Consistent(repo.pool.View())) ==> Consistent(repo.pool.View())
      ensures old(NoneOwn(repo.pool.View())) ==> NoneOwn(repo.pool.View())
      ensures
        (&& failures == Failures(false, NoFault, false) && req in old(repo.pool.requests)
         && old(repo.pool.requests)[req].author != user
         && (Vote(user, req) in old(repo.pool.votes) || old(repo.pool.requests)[req].count < 0x7FFF_FFFF))
        ==> res.Success?
      ensures failures.transaction.StatementFails? && failures.transaction.n <= 2 ==> res.Failure?
      ensures res.Failure? && !failures.count && failures.transaction != CommitFails(true) ==>
        repo.pool.View() == old(repo.pool.View())
    {
      var author := repo.GetRequestAuthorID(req, failures.author);
      if author.Failure? {
        return Failure(ErrNotFound);
      }
      if author.value == user {
        return Failure(ErrSelfVote);
      }
      TransactKeepsRows(repo.pool.View(), Op.Upvote, Vote(user, req), failures.transaction);
      if NoneOwn(repo.pool.View()) {
        TransactKeepsNoneOwn(repo.pool.View(), Op.Upvote, Vote(user, req), failures.transaction);
      }
      var inserted := repo.InsertVote(user, req, failures.transaction);
      if inserted.Failure? {
        return Failure(ErrStore);
      }
      var count := repo.GetVoteCount(req, failures.count);
      if count.Failure? {
        return Failure(ErrStore);
      }
      return Success(VoteResult(req, count.value, true));
    }

    method RemoveVote(user: User, req: ReqId, failures: Failures) returns (res: Result<VoteResult, ServiceError>)
      requires repo.pool.Valid()
      modifies repo.pool
      ensures repo.pool.Valid()
      ensures Served(repo.pool.votes, repo.pool.requests, res)
           == Serve(old(repo.pool.votes), old(repo.pool.requests), Op.RemoveVote, Vote(user, req), failures)
      ensures failures.author || req !in old(repo.pool.requests) ==>
        res == Failure(ErrNotFound) && repo.pool.View() == old(repo.pool.View())
      ensures res.Success? ==>
        && repo.pool.votes == old(repo.pool.votes) - {Vote(user, req)}
        && req in repo.pool.requests
        && res.value == VoteResult(req, repo.pool.requests[req].count, false)
        && repo.pool.requests[req].count
           == (var n := old(repo.pool.requests)[req].count;
               if Vote(user, req) in old(repo.pool.votes) && n > 0 then n - 1 else n)
      ensures old(Consistent(repo.pool.View())) ==> Consistent(repo.pool.View())
      ensures old(NoneOwn(repo.pool.View())) ==> NoneOwn(repo.pool.View())
      ensures failures == Failures(false, NoFault, false) && req in old(repo.pool.requests) ==> res.Success?
      ensures failures.transaction.StatementFails? && failures.transaction.n <= 2 ==> res.Failure?
      ensures res.Failure? && !failures.count && failures.transaction != CommitFails(true) ==>
        repo.pool.View() == old(repo.pool.View())
    {
      var author := repo.GetRequestAuthorID(req, failures.author);
      if author.Failure? {
        return Failure(ErrNotFound);
      }
      TransactKeepsRows(repo.pool.View(), Op.RemoveVote, Vote(user, req), failures.transaction);
      if NoneOwn(repo.pool.View()) {
        TransactKeepsNoneOwn(repo.pool.View(), Op.RemoveVote, Vote(user, req), failures.transaction);
      }
      var deleted := repo.DeleteVote(user, req, failures.transaction);
      if deleted.Failure? {
        return Failure(ErrStore);
      }
      var count := repo.GetVoteCount(req, failures.count);
      if count.Failure? {
        return Failure(ErrStore);
      }
      return Success(VoteResult(req, count.value, false));
    }
  }

  // ----- The service calls are runs of the machine -----

  predicate RepliedWith(phase: Phase, res: Result<VoteResult, ServiceError>) {
    phase.Replied? &&
    match res
    case Failure(ErrNotFound) => phase.reply == NotFound
    case Failure(ErrSelfVote) => phase.reply == SelfVote
    case Failure(ErrStore) => phase.reply == Failed
    case Success(v) => phase.reply.Counted? && phase.reply.count == v.count
  }

  /** The call arrives, and the statement that reads the author ends it or lets it pass. */
  lemma AuthorRun(votes: set<Vote>, requests: map<ReqId, Request>, op: Op, key: Vote, fails: bool)
    returns (events: seq<Event>)
    ensures var phase :=
        if fails || key.req !in requests then Replied(NotFound)
        else if op.Upvote? && requests[key.req].author == key.user then Replied(SelfVote)
        else Checked;
      Run(State(votes, requests, map[], map[], []), events)
        == Some(State(votes, requests, map[0 := Call(op, key.user, key.req, phase)], map[], []))
  {
    var rest := State(votes, requests, map[], map[], []);
    var arrive := Arrive(0, op, key.user, key.req);
    var next := if fails then Fail(0) else Advance(0);
    events := [] + [arrive] + [next];
    RunSnoc(rest, [], arrive);
    RunSnoc(rest, [] + [arrive], next);
    assert forall k, k': Call :: map[0 := k][0 := k'] == map[0 := k'];
  }

  /** The statement that reads the count, or its failure. */
  lemma CountStep(m: State, changed: bool, fails: bool) returns (e: Event)
    requires 0 in m.calls && m.calls[0].phase == Committed(changed) && m.calls[0].req in m.requests
    ensures var reply := if fails then Failed else Counted(changed, m.requests[m.calls[0].req].count);
      Step(m, e) == Some(SetPhase(m, 0, Replied(reply)))
  {
    e := if fails then Fail(0) else Advance(0);
  }

  /** A repository call that has returned is followed by reading the count. */
  lemma CountRun(before: State, events: seq<Event>, req: ReqId, voted: bool, fails: bool, o: Outcome)
    returns (events': seq<Event>)
    requires IsRunOf(before, events, o) && req in o.requests && 0 in before.calls && before.calls[0].req == req
    ensures var end := Run(before, events');
      && end.Some? && end.value.votes == o.votes && end.value.requests == o.requests && 0 in end.value.calls
      && RepliedWith(end.value.calls[0].phase,
                     if o.res.Failure? || fails then Failure(ErrStore)
                     else Success(VoteResult(req, o.requests[req].count, voted)))
  {
    hide Run, Step;
    events' := events;
    if o.res.Success? {
      RunKeepsCall(before, events, 0);
      var e := CountStep(Run(before, events).value, o.res.value, fails);
      RunSnoc(before, events, e);
      events' := events + [e];
    }
  }

  lemma TransactKeepsRequests(votes: set<Vote>, requests: map<ReqId, Request>, op: Op, key: Vote, fault: Fault)
    ensures Transact(votes, requests, op, key, fault).requests.Keys == requests.Keys
  {
  }

  /**
    A service call that nothing interferes with is a complete run of the voting state machine, from
    its arrival to its reply: same rows, same reply.
  */
  lemma ServeIsRun(votes: set<Vote>, requests: map<ReqId, Request>, op: Op, key: Vote, failures: Failures)
    returns (events: seq<Event>)
    ensures var o := Serve(votes, requests, op, key, failures);
      var end := Run(State(votes, requests, map[], map[], []), events);
      && end.Some? && end.value.votes == o.votes && end.value.requests == o.requests
      && 0 in end.value.calls && end.value.calls[0].phase.Replied?
      && var reply := end.value.calls[0].phase.reply;
      match o.res
      case Failure(ErrNotFound) => reply == NotFound
      case Failure(ErrSelfVote) => reply == SelfVote
      case Failure(ErrStore) => reply == Failed
      case Success(v) => reply.Counted? && reply.count == v.count
  {
    hide Run, Transact, IsRunOf;
    var rest, before := State(votes, requests, map[], map[], []), Alone(votes, requests, op, key);
    events := AuthorRun(votes, requests, op, key, failures.author);
    if !failures.author && key.req in requests && (op.Upvote? ==> requests[key.req].author != key.user) {
      assert Run(rest, events) == Some(before);
      var transaction := TransactIsRun(votes, requests, op, key, failures.transaction);
      var o := Transact(votes, requests, op, key, failures.transaction);
      TransactKeepsRequests(votes, requests, op, key, failures.transaction);
      var tail := CountRun(before, transaction, key.req, op.Upvote?, failures.count, o);
      RunConcat(rest, events, tail);
      events := events + tail;
    }
  }

  /** Removing a vote undoes casting it: the rows are those from before. */
  lemma RemoveUndoesUpvote(s: State, key: Vote)
    requires CountsInRange(s) && key.req in s.requests && key !in s.votes && s.requests[key.req].count < INT32_MAX
    ensures var o := Transact(s.votes, s.requests, Op.Upvote, key, NoFault);
      Transact(o.votes, o.requests, Op.RemoveVote, key, NoFault) == Outcome(s.votes, s.requests, Success(true))
  {
    var o := Transact(s.votes, s.requests, Op.Upvote, key, NoFault);
    var back := Transact(o.votes, o.requests, Op.RemoveVote, key, NoFault);
    assert back.votes == s.votes;
    assert back.requests == s.requests;
  }

  // ----- Reconciliation -----

  class RankingRepo {
    const pool: Pool

    constructor (pool: Pool)
      ensures this.pool == pool
    {
      this.pool := pool;
    }

    /** The rows are visited in an arbitrary order; a count that does not fit INTEGER fails the query. */
    method GetVoteCountMismatches(fails: bool) returns (res: Result<seq<Mismatch>, StoreError>)
      ensures res.Success? <==> !fails && TalliesFit(pool.View())
      ensures res.Success? ==> ListsMismatches(pool.View(), res.value)
      ensures res.Success? ==> forall i :: 0 <= i < |res.value| ==>
        var m := res.value[i];
        && m.req in pool.requests && m.stored == pool.requests[m.req].count
        && m.actual == |set v | v in pool.votes && v.req == m.req| && m.stored != m.actual
    {
      if fails {
        return Failure(QueryError);
      }
      var result: seq<Mismatch> := [];
      var todo := pool.requests.Keys;
      while todo != {}
        invariant todo <= pool.requests.Keys
        invariant forall r :: r in pool.requests.Keys - todo ==> Tally(pool.votes, r) <= INT32_MAX
        invariant forall i :: 0 <= i < |result| ==> Mismatched(pool.View(), result[i]) && result[i].req !in todo
        invariant forall i, j :: 0 <= i < j < |result| ==> result[i].req != result[j].req
        invariant forall r :: r in pool.requests.Keys - todo && pool.requests[r].count != Tally(pool.votes, r) ==>
          exists i :: 0 <= i < |result| && result[i].req == r
        decreases todo
      {
        var r :| r in todo;
        var stored, actual := pool.requests[r].count, Tally(pool.votes, r);
        if actual > INT32_MAX {
          return Failure(QueryError);
        }
        if stored != actual {
          ghost var before := result;
          result := result + [Mismatch(r, stored, actual)];
          assert result[|before|].req == r;
          assert forall i :: 0 <= i < |before| ==> result[i] == before[i];
        }
        todo := todo - {r};
      }
      return Success(result);
    }

    /** answer says whether Exec returns an error; an UPDATE may take effect and still be answered by one. */
    method FixVoteCount(req: ReqId, count: int, answer: Answer) returns (ok: bool)
      modifies pool
      ensures ok == answer.Fine? && pool.votes == old(pool.votes)
      ensures pool.requests ==
        if answer == Error(false) || req !in old(pool.requests) then old(pool.requests)
        else old(pool.requests)[req := old(pool.requests)[req].(count := count)]
    {
      if answer != Error(false) && req in pool.requests {
        pool.requests := pool.requests[req := pool.requests[req].(count := count)];
      }
      return answer.Fine?;
    }
  }

  /** What a statement that commits by itself returns; after an error it may have taken effect or not. */
  datatype Answer = Fine | Error(applied: bool)

  /** failing has the requests whose write returns an error, landed those of them for which it took effect. */
  function AnswerFor(req: ReqId, failing: set<ReqId>, landed: set<ReqId>): Answer {
    if req in failing then Error(req in landed) else Fine
  }

  /** The rows after n steps of the loop; the writes for the requests in lost do not take effect. */
  function Fixed(rows: map<ReqId, Request>, mismatches: seq<Mismatch>, n: nat, lost: set<ReqId>): map<ReqId, Request>
    requires n <= |mismatches|
  {
    if n == 0 then rows
    else
      var m, before := mismatches[n - 1], Fixed(rows, mismatches, n - 1, lost);
      if m.req in lost || m.req !in before then before else before[m.req := before[m.req].(count := m.actual)]
  }

  /** The cache after n steps of the loop. */
  function Cached(cache: map<ReqId, int>, mismatches: seq<Mismatch>, n: nat, failing: set<ReqId>): map<ReqId, int>
    requires n <= |mismatches|
  {
    if n == 0 then cache
    else
      var m, before := mismatches[n - 1], Cached(cache, mismatches, n - 1, failing);
      if m.req in failing then before else before[m.req := m.actual]
  }

  predicate SeenBy(mismatches: seq<Mismatch>, n: nat, r: ReqId)
    requires n <= |mismatches|
  {
    exists k :: 0 <= k < n && mismatches[k].req == r
  }

  lemma {:induction false} RowEffect(s: State, mismatches: seq<Mismatch>, n: nat, lost: set<ReqId>, r: ReqId)
    requires n <= |mismatches| && ListsMismatches(s, mismatches) && r in s.requests
    ensures r in Fixed(s.requests, mismatches, n, lost)
    ensures Fixed(s.requests, mismatches, n, lost)[r]
         == if SeenBy(mismatches, n, r) && r !in lost then s.requests[r].(count := Tally(s.votes, r)) else s.requests[r]
  {
    if n > 0 {
      RowEffect(s, mismatches, n - 1, lost, r);
      assert Mismatched(s, mismatches[n - 1]);
      assert SeenBy(mismatches, n, r) <==> SeenBy(mismatches, n - 1, r) || mismatches[n - 1].req == r;
    }
  }

  predicate SameEntry(a: map<ReqId, int>, b: map<ReqId, int>, r: ReqId) {
    (r in a <==> r in b) && (r in a ==> a[r] == b[r])
  }

  lemma {:induction false} CacheEffect(s: State, cache: map<ReqId, int>, mismatches: seq<Mismatch>, n: nat,
                                       failing: set<ReqId>, r: ReqId)
    requires n <= |mismatches| && ListsMismatches(s, mismatches)
    ensures if SeenBy(mismatches, n, r) && r !in failing
      then r in Cached(cache, mismatches, n, failing) && Cached(cache, mismatches, n, failing)[r] == Tally(s.votes, r)
      else SameEntry(Cached(cache, mismatches, n, failing), cache, r)
  {
    if n > 0 {
      CacheEffect(s, cache, mismatches, n - 1, failing, r);
      assert Mismatched(s, mismatches[n - 1]);
      assert SeenBy(mismatches, n, r) <==> SeenBy(mismatches, n - 1, r) || mismatches[n - 1].req == r;
    }
  }

  lemma SeenIsWrong(s: State, mismatches: seq<Mismatch>, r: ReqId)
    requires ListsMismatches(s, mismatches)
    ensures SeenBy(mismatches, |mismatches|, r) <==> r in s.requests && Drift(s, r) != 0
  {
    assert forall k :: 0 <= k < |mismatches| ==> Mismatched(s, mismatches[k]);
  }

  lemma {:induction false} FixedKeys(rows: map<ReqId, Request>, mismatches: seq<Mismatch>, n: nat, lost: set<ReqId>)
    requires n <= |mismatches|
    ensures Fixed(rows, mismatches, n, lost).Keys == rows.Keys
  {
    if n > 0 {
      FixedKeys(rows, mismatches, n - 1, lost);
    }
  }

  /**
    What an uninterrupted pass makes of the rows and the cache: unless its query failed, every counter
    whose write takes effect is right afterwards; those that were wrong and whose write returned no
    error are cached; nothing else changes.
  */
  ghost predicate PassResult(s: State, cache: map<ReqId, int>, ok: bool, failing: set<ReqId>, landed: set<ReqId>,
                             rows: map<ReqId, Request>, after: map<ReqId, int>) {
    && rows.Keys == s.requests.Keys
    && (forall r :: r in s.requests ==>
          rows[r] == if ok && r !in failing - landed then s.requests[r].(count := Tally(s.votes, r)) else s.requests[r])
    && (forall r :: r in after.Keys + cache.Keys + s.requests.Keys ==>
          if ok && r in s.requests && Drift(s, r) != 0 && r !in failing
          then r in after && after[r] == Tally(s.votes, r)
          else SameEntry(after, cache, r))
  }

  lemma FailedPass(s: State, cache: map<ReqId, int>, failing: set<ReqId>, landed: set<ReqId>)
    ensures PassResult(s, cache, false, failing, landed, s.requests, cache)
  {
  }

  lemma CompletedPass(s: State, cache: map<ReqId, int>, mismatches: seq<Mismatch>,
                      failing: set<ReqId>, landed: set<ReqId>)
    requires ListsMismatches(s, mismatches)
    ensures PassResult(s, cache, true, failing, landed,
                       Fixed(s.requests, mismatches, |mismatches|, failing - landed),
                       Cached(cache, mismatches, |mismatches|, failing))
  {
    hide Fixed, Cached, ListsMismatches, SeenBy;
    var n := |mismatches|;
    var rows, after := Fixed(s.requests, mismatches, n, failing - landed), Cached(cache, mismatches, n, failing);
    FixedKeys(s.requests, mismatches, n, failing - landed);
    forall r | r in s.requests
      ensures rows[r] == if r !in failing - landed then s.requests[r].(count := Tally(s.votes, r)) else s.requests[r]
    {
      RowEffect(s, mismatches, n, failing - landed, r);
      SeenIsWrong(s, mismatches, r);
    }
    forall r | r in after.Keys + cache.Keys + s.requests.Keys
      ensures if r in s.requests && Drift(s, r) != 0 && r !in failing
        then r in after && after[r] == Tally(s.votes, r)
        else SameEntry(after, cache, r)
    {
      CacheEffect(s, cache, mismatches, n, failing, r);
      SeenIsWrong(s, mismatches, r);
    }
  }

  lemma EmptyRun(s: State)
    ensures Run(s, []) == Some(s)
  {
  }

  lemma OnlyQueue(s: State, before: seq<Mismatch>, after: seq<Mismatch>)
    requires s.queues == map[]
    ensures Queue(SetQueue(s, 0, before), 0) == before
    ensures SetQueue(SetQueue(s, 0, before), 0, after) == SetQueue(s, 0, after)
  {
    assert map[0 := before] - {0} == map[];
  }

  lemma SnapshotAlone(s: State, ms: seq<Mismatch>)
    requires s.queues == map[] && TalliesFit(s) && ListsMismatches(s, ms)
    ensures Step(s, Snapshot(0, ms)) == Some(SetQueue(s, 0, ms))
  {
  }

  lemma FixAlone(s: State, m: Mismatch, applied: bool)
    requires s.calls == map[] && Queue(s, 0) != [] && Queue(s, 0)[0] == m && m.req in s.requests
    ensures var rest, fixed := SetQueue(s, 0, Queue(s, 0)[1..]), s.requests[m.req].(count := m.actual);
      Step(s, Fix(0, applied)) == Some(if applied then rest.(requests := s.requests[m.req := fixed]) else rest)
  {
  }

  /** The pass so far is a run of the machine that has done nothing but reconcile. */
  lemma {:induction false} PassIsRun(s: State, mismatches: seq<Mismatch>, n: nat, lost: set<ReqId>)
    returns (events: seq<Event>)
    requires s.calls == map[] && s.queues == map[] && n <= |mismatches|
    requires TalliesFit(s) && ListsMismatches(s, mismatches)
    ensures Run(s, events)
         == Some(SetQueue(s, 0, mismatches[n..]).(requests := Fixed(s.requests, mismatches, n, lost)))
    ensures forall e :: e in events ==> Reconciles(e)
  {
    hide Step, Run;
    var last;
    if n == 0 {
      events, last := [], Snapshot(0, mismatches);
      EmptyRun(s);
      SnapshotAlone(s, mismatches);
      assert mismatches[0..] == mismatches;
    } else {
      events := PassIsRun(s, mismatches, n - 1, lost);
      var m := mismatches[n - 1];
      last := Fix(0, m.req !in lost);
      assert Mismatched(s, m);
      RowEffect(s, mismatches, n - 1, lost, m.req);
      var before := SetQueue(s, 0, mismatches[n - 1..]).(requests := Fixed(s.requests, mismatches, n - 1, lost));
      OnlyQueue(s, mismatches[n - 1..], mismatches[n..]);
      FixAlone(before, m, m.req !in lost);
      assert mismatches[n - 1..][1..] == mismatches[n..];
    }
    RunSnoc(s, events, last);
    events := events + [last];
  }

  /** Every counter whose write returned no error is the number of the request's votes. */
  lemma PassRights(s: State, cache: map<ReqId, int>, failing: set<ReqId>, landed: set<ReqId>,
                   rows: map<ReqId, Request>, after: map<ReqId, int>)
    requires PassResult(s, cache, true, failing, landed, rows, after)
    ensures forall r :: r in rows && r !in failing ==> rows[r].count == |set v | v in s.votes && v.req == r|
  {
    forall r | r in rows && r !in failing
      ensures rows[r].count == |set v | v in s.votes && v.req == r|
    {
      assert rows[r].count == Tally(s.votes, r);
    }
  }

  class ReconcileJob {
    const store: RankingRepo
    var cache: map<ReqId, int>

    constructor (store: RankingRepo)
      ensures this.store == store && cache == map[]
    {
      this.store := store;
      cache := map[];
    }

    /**
      One pass with nothing in between; the writes for the requests in failing return an error, those in
      landed after having taken effect all the same.
    */
    method Reconcile(snapshotFails: bool, failing: set<ReqId>, landed: set<ReqId>)
      returns (ok: bool, ghost events: seq<Event>)
      modifies store.pool, this
      ensures ok == (!snapshotFails && TalliesFit(old(store.pool.View())))
      ensures Run(old(store.pool.View()), events) == Some(store.pool.View())
      ensures forall e :: e in events ==> Reconciles(e)
      ensures store.pool.votes == old(store.pool.votes)
      ensures PassResult(old(store.pool.View()), old(cache), ok, failing, landed, store.pool.requests, cache)
      ensures ok ==> forall r :: r in store.pool.requests && r !in failing ==>
        store.pool.requests[r].count == |set v | v in store.pool.votes && v.req == r|
    {
      hide Step, Run, PassResult;
      ghost var start, cached := store.pool.View(), cache;
      events := [];
      EmptyRun(start);
      var snapshot := store.GetVoteCountMismatches(snapshotFails);
      if snapshot.Failure? {
        FailedPass(start, cache, failing, landed);
        return false, events;
      }
      var mismatches := snapshot.value;
      var i := 0;
      while i < |mismatches|
        invariant 0 <= i <= |mismatches|
        invariant store.pool.votes == start.votes
        invariant store.pool.requests == Fixed(start.requests, mismatches, i, failing - landed)
        invariant cache == Cached(cached, mismatches, i, failing)
      {
        var m := mismatches[i];
        i := i + 1;
        var fixed := store.FixVoteCount(m.req, m.actual, AnswerFor(m.req, failing, landed));
        if !fixed {
          continue;
        }
        cache := cache[m.req := m.actual];
      }
      events := PassIsRun(start, mismatches, |mismatches|, failing - landed);
      assert mismatches[|mismatches|..] == [];
      CompletedPass(start, cached, mismatches, failing, landed);
      PassRights(start, cached, failing, landed, store.pool.requests, cache);
      return true, events;
    }
  }
}
