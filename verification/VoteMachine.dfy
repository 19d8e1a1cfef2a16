/**
  The voting system as a state machine whose steps are single database statements.

  A state holds what PostgreSQL has committed (votes, requests), the service calls in progress with
  the writes and locks of their open transactions, and the rows that each reconcile loop (every server
  process runs one) has still to write in its current pass.
  Any interleaving of any number of calls is a sequence of events; every source of nondeterminism
  (who moves next, which statement fails, whether a lost COMMIT took effect, in which order a query
  without ORDER BY returns its rows) is the choice of the event.

  The step rules state how READ COMMITTED runs the statements involved:
  - a statement sees the committed state plus its own transaction's writes;
  - INSERT .. ON CONFLICT DO NOTHING waits for any open transaction that has written the same key;
  - DELETE does not see an uncommitted insert, and waits for an open transaction deleting the row;
  - UPDATE waits for the request's row lock, then reads the committed value again;
  - the foreign-key share lock on the request does not conflict with updating its counter.
*/
module VoteMachine {
  import opened Wrappers

  type User = nat
  type ReqId = nat
  type CallId = nat
  type LoopId = nat

  /** The upper end of the INTEGER column type; an UPDATE past it is a statement error. */
  const INT32_MAX := 0x7FFF_FFFF

  datatype Vote = Vote(user: User, req: ReqId)

  datatype Request = Request(author: User, createdAt: int, count: int)

  datatype Op = Upvote | RemoveVote

  datatype Reply =
    | NotFound
    | SelfVote
    | Failed
    | Counted(changed: bool, count: int)

  datatype Phase =
    | Arrived                     // the author has not been read
    | Checked                     // the author has been read and accepted
    | Begun                       // the transaction is open
    | Wrote(affected: bool)       // the votes statement has run; if it affected a row, its key is locked
    | Moved(pending: int)         // vote_count is updated to pending, uncommitted; the row is locked
    | Committed(changed: bool)    // COMMIT has succeeded; vote_count has not been read back
    | Replied(reply: Reply)

  datatype Call = Call(op: Op, user: User, req: ReqId, phase: Phase) {
    function Key(): Vote { Vote(user, req) }

    /** The call has an uncommitted insert or delete of its key. */
    predicate OwnsKey() { phase == Wrote(true) || phase.Moved? }

    /** The call holds the row lock of its request. */
    predicate OwnsRow() { phase.Moved? }

    predicate InTransaction() { phase.Begun? || phase.Wrote? || phase.Moved? }
  }

  datatype Mismatch = Mismatch(req: ReqId, stored: int, actual: int)

  /** One operation at the instant it takes effect (or is found to have none). */
  datatype Entry = Entry(call: CallId, op: Op, user: User, req: ReqId, changed: bool) {
    function Key(): Vote { Vote(user, req) }
  }

  /**
    queues has the work lists of the reconcile passes in progress; a loop between passes has no entry.
    log is a history variable: nothing reads it, it only records the entries in order.
  */
  datatype State = State(
    votes: set<Vote>,
    requests: map<ReqId, Request>,
    calls: map<CallId, Call>,
    queues: map<LoopId, seq<Mismatch>>,
    log: seq<Entry>)

  datatype Event =
    | Submit(req: ReqId, author: User, createdAt: int)
    | Arrive(call: CallId, op: Op, user: User, req: ReqId)
    | Advance(call: CallId)                        // the call's next statement succeeds
    | Fail(call: CallId)                           // the call's next statement returns an error
    | CommitLost(call: CallId, applied: bool)      // COMMIT returns an error, in effect or not
    | Snapshot(loop: LoopId, mismatches: seq<Mismatch>)   // a reconcile pass reads its work list
    | Fix(loop: LoopId, applied: bool)             // it handles one row: the UPDATE takes effect or not

  // ----- Counting votes -----

  function VotesOn(votes: set<Vote>, r: ReqId): set<Vote> {
    set v | v in votes && v.req == r
  }

  function Tally(votes: set<Vote>, r: ReqId): nat {
    |VotesOn(votes, r)|
  }

  // ----- The statements -----

  /** The value the counter UPDATE computes: plus one, or GREATEST(vote_count - 1, 0). */
  function Bump(op: Op, count: int): int {
    match op
    case Upvote => count + 1
    case RemoveVote => if count - 1 > 0 then count - 1 else 0
  }

  function Toggle(op: Op, votes: set<Vote>, v: Vote): set<Vote> {
    match op
    case Upvote => votes + {v}
    case RemoveVote => votes - {v}
  }

  /** Whether the votes statement of op would affect a row, given the committed votes. */
  predicate WouldChange(op: Op, votes: set<Vote>, v: Vote) {
    match op
    case Upvote => v !in votes
    case RemoveVote => v in votes
  }

  predicate KeyLocked(s: State, c: CallId, v: Vote) {
    exists d :: d in s.calls && d != c && s.calls[d].OwnsKey() && s.calls[d].Key() == v
  }

  predicate RowLocked(s: State, r: ReqId) {
    exists d :: d in s.calls && s.calls[d].OwnsRow() && s.calls[d].req == r
  }

  function SetPhase(s: State, c: CallId, phase: Phase): State
    requires c in s.calls
  {
    s.(calls := s.calls[c := s.calls[c].(phase := phase)])
  }

  function Record(s: State, c: CallId, changed: bool): State
    requires c in s.calls
  {
    var k := s.calls[c];
    s.(log := s.log + [Entry(c, k.op, k.user, k.req, changed)])
  }

  /** GetRequestAuthorID, and for an upvote the comparison with the caller. */
  function ReadAuthor(s: State, c: CallId): State
    requires c in s.calls
  {
    var k := s.calls[c];
    if k.req !in s.requests then SetPhase(s, c, Replied(NotFound))
    else if k.op.Upvote? && s.requests[k.req].author == k.user then SetPhase(s, c, Replied(SelfVote))
    else SetPhase(s, c, Checked)
  }

  /** The INSERT or DELETE on votes; None while it waits. */
  function WriteVote(s: State, c: CallId): Option<State>
    requires c in s.calls
  {
    var k := s.calls[c];
    if k.op.RemoveVote? && k.Key() !in s.votes then
      Some(Record(SetPhase(s, c, Wrote(false)), c, false))
    else if KeyLocked(s, c, k.Key()) then None
    else if !WouldChange(k.op, s.votes, k.Key()) then
      Some(Record(SetPhase(s, c, Wrote(false)), c, false))
    else if k.req !in s.requests then
      Some(SetPhase(s, c, Replied(Failed)))        // foreign-key violation
    else
      Some(SetPhase(s, c, Wrote(true)))
  }

  /** The UPDATE of vote_count; None while it waits. */
  function MoveCount(s: State, c: CallId): Option<State>
    requires c in s.calls && s.calls[c].req in s.requests
  {
    var k := s.calls[c];
    var next := Bump(k.op, s.requests[k.req].count);
    if RowLocked(s, k.req) then None
    else if next > INT32_MAX then Some(SetPhase(s, c, Replied(Failed)))   // integer out of range
    else Some(SetPhase(s, c, Moved(next)))
  }

  /** What COMMIT publishes for a transaction that has written its vote and moved the counter. */
  function Publish(s: State, c: CallId): State
    requires c in s.calls && s.calls[c].phase.Moved? && s.calls[c].req in s.requests
  {
    var k := s.calls[c];
    var row := s.requests[k.req].(count := k.phase.pending);
    Record(s.(votes := Toggle(k.op, s.votes, k.Key()), requests := s.requests[k.req := row]), c, true)
  }

  // ----- Steps -----

  function AdvanceCall(s: State, c: CallId): Option<State>
    requires c in s.calls
  {
    var k := s.calls[c];
    match k.phase
    case Arrived => Some(ReadAuthor(s, c))
    case Checked => Some(SetPhase(s, c, Begun))
    case Begun => WriteVote(s, c)
    case Wrote(affected) =>
      if !affected then Some(SetPhase(s, c, Committed(false)))
      else if k.req in s.requests then MoveCount(s, c)
      else None
    case Moved(_) =>
      if k.req in s.requests then Some(SetPhase(Publish(s, c), c, Committed(true)))
      else None
    case Committed(changed) =>
      if k.req in s.requests then Some(SetPhase(s, c, Replied(Counted(changed, s.requests[k.req].count))))
      else Some(SetPhase(s, c, Replied(Failed)))
    case Replied(_) => None
  }

  /** A statement error: an open transaction is rolled back. Any error reading the author is "not found". */
  function FailCall(s: State, c: CallId): Option<State>
    requires c in s.calls
  {
    match s.calls[c].phase
    case Arrived => Some(SetPhase(s, c, Replied(NotFound)))
    case Replied(_) => None
    case _ => Some(SetPhase(s, c, Replied(Failed)))
  }

  function LoseCommit(s: State, c: CallId, applied: bool): Option<State>
    requires c in s.calls
  {
    var k := s.calls[c];
    if k.phase == Wrote(false) then Some(SetPhase(s, c, Replied(Failed)))
    else if k.phase.Moved? && k.req in s.requests then
      Some(SetPhase(if applied then Publish(s, c) else s, c, Replied(Failed)))
    else None
  }

  predicate Mismatched(s: State, m: Mismatch) {
    && m.req in s.requests
    && m.stored == s.requests[m.req].count
    && m.actual == Tally(s.votes, m.req)
    && m.stored != m.actual
  }

  /** ms lists, in some order and once each, the rows GetVoteCountMismatches selects. */
  ghost predicate ListsMismatches(s: State, ms: seq<Mismatch>) {
    && (forall i :: 0 <= i < |ms| ==> Mismatched(s, ms[i]))
    && (forall i, j :: 0 <= i < j < |ms| ==> ms[i].req != ms[j].req)
    && (forall r :: r in s.requests && s.requests[r].count != Tally(s.votes, r) ==>
          exists i :: 0 <= i < |ms| && ms[i].req == r)
  }

  /** The cast of every per-request COUNT to INTEGER succeeds. */
  ghost predicate TalliesFit(s: State) {
    forall r :: r in s.requests ==> Tally(s.votes, r) <= INT32_MAX
  }

  function Queue(s: State, loop: LoopId): seq<Mismatch> {
    if loop in s.queues then s.queues[loop] else []
  }

  function SetQueue(s: State, loop: LoopId, queue: seq<Mismatch>): State {
    s.(queues := if queue == [] then s.queues - {loop} else s.queues[loop := queue])
  }

  ghost function TakeSnapshot(s: State, loop: LoopId, ms: seq<Mismatch>): Option<State> {
    if Queue(s, loop) == [] && TalliesFit(s) && ListsMismatches(s, ms) then Some(SetQueue(s, loop, ms)) else None
  }

  /** FixVoteCount commits by itself: it waits for the row lock and then overwrites the counter. */
  function FixNext(s: State, loop: LoopId, applied: bool): Option<State> {
    var queue := Queue(s, loop);
    if queue == [] then None
    else
      var m, rest := queue[0], SetQueue(s, loop, queue[1..]);
      if !applied || m.req !in s.requests then Some(rest)
      else if RowLocked(s, m.req) then None
      else Some(rest.(requests := s.requests[m.req := s.requests[m.req].(count := m.actual)]))
  }

  /** The state after event e, or None when e cannot happen in s. */
  ghost function Step(s: State, e: Event): Option<State> {
    match e
    case Submit(r, author, at) =>
      if r in s.requests then None else Some(s.(requests := s.requests[r := Request(author, at, 0)]))
    case Arrive(c, op, u, r) =>
      if c in s.calls then None else Some(s.(calls := s.calls[c := Call(op, u, r, Arrived)]))
    case Advance(c) => if c in s.calls then AdvanceCall(s, c) else None
    case Fail(c) => if c in s.calls then FailCall(s, c) else None
    case CommitLost(c, applied) => if c in s.calls then LoseCommit(s, c, applied) else None
    case Snapshot(loop, ms) => TakeSnapshot(s, loop, ms)
    case Fix(loop, applied) => FixNext(s, loop, applied)
  }

  /** The call whose transaction takes effect with event e. */
  predicate Publishes(s: State, e: Event, c: CallId) {
    && c in s.calls && s.calls[c].phase.Moved? && s.calls[c].req in s.requests
    && (e == Advance(c) || e == CommitLost(c, true))
  }

  /** The event overwrites the counter of r with what some loop's snapshot found. */
  predicate Repairs(s: State, e: Event, r: ReqId) {
    e.Fix? && e.applied && Queue(s, e.loop) != [] && Queue(s, e.loop)[0].req == r
  }

  /** The state after a whole interleaving, or None when some event of it cannot happen. */
  ghost function Run(s: State, es: seq<Event>): Option<State>
    decreases |es|
  {
    if es == [] then Some(s)
    else
      match Run(s, es[..|es| - 1])
      case None => None
      case Some(m) => Step(m, es[|es| - 1])
  }
}
