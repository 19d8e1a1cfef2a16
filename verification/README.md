# Feature voting: verified model

Users submit feature requests, upvote each other's requests, and page through them by age or by
votes. A request carries a denormalised `vote_count` next to the `votes` table; a background job
compares the two and repairs differences. This project models the parts of the service where that
can go wrong and proves what holds of every run.

`dafny verify dfyconfig.toml` checks the whole project (Dafny 4.11).

## What is modelled

**Voting** (`VoteMachine`, `VoteSafety`, `VoteLinearization`, `VoteLiveness`, `Reconcile`,
`VoteStore`). `VoteMachine` is a state machine whose steps are single database statements. Any number
of `Upvote` and `RemoveVote` service calls, each with its own transaction, interleave with each other,
with new requests and with the passes of any number of reconcile loops, one for each server process.
Any statement may fail; a failed COMMIT may or may not have taken effect. The step rules are those of PostgreSQL at READ COMMITTED: uncommitted writes are
invisible to others, a conflicting write of the same primary key waits for the transaction in its
way, a DELETE does not see an uncommitted insert, an UPDATE takes the row lock and reads the committed
value again. On top of the machine:

- `VoteSafety`: the invariant of every step; the counting law (`vote_count` is the number of votes in
  every reachable state that started correct); what happens to a drifted counter; no self-votes.
- `VoteLinearization`: every run is equivalent to a sequential history of one atomic set of voters.
- `VoteLiveness`: no deadlock, a bound on the number of steps, and every call can be finished.
- `Reconcile`: every counter after every run with reconcile passes, exactly, and when a pass heals.
- `VoteStore`: the repositories and services as imperative classes, each method proved to be one
  uninterrupted run of the machine.

**Paging** (`Keyset`, `Listing`, `Walk`, `FeedWalk`). `Keyset` gives the meaning of a query with a row
comparison, ORDER BY and LIMIT, `Listing` the repository and the service around it, with the cursor as
text. `Walk` follows `next_cursor` over tables that change between the pages, `FeedWalk` runs the
voting machine between the pages.

**The cursor codec** (`Text`, `Base64`, `Uuid`, `Cursor`): decimal printing and `Sscanf("%d")`,
`SplitN`, unpadded base64 (RFC 4648, sections 3.2, 4 and 5), UUID text, and their composition.

**Timed components**: the rate limiter with expiring counters (`RateLimit`), and trending scores over
exact reals (`Trending`).

`Arithmetic` and `Wrappers` are shared helpers.

**Stored passwords** (`Password`): the string format and its verification, with the key derivation
function as a parameter.

The field `log` of the machine's state is a history variable: no step reads it.

## Where the code and its documentation disagree

The model follows the code.

- The success criterion that paging through any ranking returns every request exactly once
  (`specs/001-feature-voting-system/quickstart.md:77`) does not hold for the rankings by votes while votes
  move. `Walk.RisingRequestIsMissed` and `Walk.FallingRequestComesTwice` are concrete walks that miss a
  request and repeat one. `Walk.TimesReturned` is the exact count: on every completed walk a request
  listed at the start comes once, plus the number of times it falls behind the cursor between two
  pages, minus the number of times it overtakes the cursor; so it comes exactly once if and only if
  these numbers are equal. `Walk.MissedOnlyByRising` reads off what that means for the votes alone,
  and `Walk.NewestFirstIsExact` says that the ranking by age meets the criterion.
- `internal/middleware/ratelimit.go:11` calls the limiter a token bucket; it is a counter over fixed
  windows. An interval of one window's length can therefore admit twice the limit: for every limit and
  window, `RateLimit.TwiceTheLimit` is a history that does. `RateLimit.AdmittedExactly` gives the number
  admitted in any interval, and `RateLimit.OneSpan` reads off when an interval of one window's length
  stays within the limit: if and only if the shares of the two windows it touches sum to at most that.
- `internal/service/request.go:103` says that trending lists are sorted differently; both services list
  `trending` by vote count (`internal/repository/postgres/requests.go:113-115`).
- A reconcile pass does not always leave correct counters: `Reconcile.RaceLeavesDrift` is a run in which
  it corrupts one. `Reconcile.DriftAfterAnyRun` gives every initial request's counter at the end of every
  run exactly, for any number of loops (a request submitted later has a right one,
  `Reconcile.SubmittedIsRight`). If no fix of a request has been applied, its drift is the initial one, raised if
  need be to minus the fewest votes it has had. Otherwise only the last applied fix counts, by whichever
  loop: the counter is right if and only if the votes committed on the request between that loop's
  snapshot and its write cancel out, or added up to a positive number while the request has since been
  without any vote at some moment. A right counter on no work list stays right (`Reconcile.RightStaysRight`).

## Model

| member | source | states |
|---|---|---|
| `VoteSafety.CountEqualsVotes` | internal/repository/postgres/votes.go:22-86 | From correct counters, after any interleaving of calls, failures, lost commits and reconcile passes, every committed `vote_count` is the number of committed votes; and the mismatch query has found nothing, so the job has never written |
| `VoteLinearization.Linearizable` | internal/repository/postgres/votes.go:22-86 | The history any run leaves (entries at the commits, or at the votes statement when it affects no row) is a correct sequential history of an atomic set that ends in the committed votes; each call has at most one entry, of its own operation, user and request: one with its answer if it replied with a count, none if it was turned away |
| `Reconcile.DriftAfterAnyRun` | internal/ranking/reconcile.go:29-66 | For every run from rest, with any number of reconcile loops, the drift at its end of every request there from the start: the initial one raised to minus its fewest votes if no fix was applied, otherwise that of the last applied fix, from its own snapshot on |
| `Reconcile.PassOutcome` | internal/ranking/reconcile.go:47-66 | A loop's snapshot, anything (passes of other loops included), its write of a row, anything without another write of that row: the drift in the end is the larger of minus the net votes committed before the write and minus the fewest votes since; so the counter is right if and only if that net is zero, or positive with the request at zero votes at some moment since |
| `Reconcile.DriftAfterWrite` | internal/ranking/reconcile.go:47-66 | The same, with its if-and-only-if, for the last write found in a whole run |
| `Reconcile.FindLastWrite` | internal/ranking/reconcile.go:47-66 | Every run in which a fix is applied to a request has a last one, and a snapshot of the same loop from which it was read |
| `Reconcile.FixLeavesNetChange` | internal/ranking/reconcile.go:59-59 | In the moment after the write the drift is minus the net number of votes committed on the request since the snapshot |
| `Reconcile.RightStaysRight` | internal/ranking/reconcile.go:47-66 | A counter that is right while its request is on no loop's work list is right ever after, whatever calls and any number of passes do |
| `Reconcile.SubmittedIsRight` | internal/service/request.go:74-78 | The counter of a request submitted during a run is right from then on |
| `Reconcile.OffListIsSpared` | internal/ranking/reconcile.go:53-64 | A row that is on no work list stays off them until some snapshot, and no fix is applied to it |
| `Walk.FollowIsGo` | internal/service/ranking.go:25-65 | A walk by text cursors is the walk in which each page is bounded by the last row of the one before; the codec never restarts a walk at the first page |
| `Walk.StayingRowsComeOnce` | internal/repository/postgres/requests.go:92-103 | Whatever commits between the pages, a completed walk returns every row whose key is there throughout exactly once (by votes: every request whose count stays the same) |
| `Walk.TimesReturned` | internal/repository/postgres/requests.go:92-103 | For any changes between pages and either order: on a completed walk a request comes exactly 1 (0 if not listed at the start) + (times it falls or appears behind the cursor) - (times it overtakes the cursor) times; on an unfinished walk at most so often |
| `Walk.FixedTableWalk` | internal/service/ranking.go:25-65 | Over an unchanging table a walk ends after max(1, ceil(n / limit)) pages, and the pages together are the whole table in descending order, each row once |
| `FeedWalk.NewFeedIsExact` | internal/repository/postgres/requests.go:46-77 | Paging newest first while the voting system runs: a completed walk returns every request that existed at its start, and none twice |
| `FeedWalk.NewFeedCompletes` | internal/service/ranking.go:52-64 | Such a walk is completed once its pages have room for the requests there are in the end, whatever the votes do |
| `FeedWalk.TopFeedReturnsSteadyRequests` | internal/repository/postgres/requests.go:79-111 | Paging by votes while the voting system runs: a completed walk returns exactly once every request whose counter is the same at every page |
| `FeedWalk.TopFeedCompletes` | internal/service/ranking.go:52-64 | In either order, if no counter reaches n, the walk is completed once its pages have room for n times the requests there are in the end |
| `FeedWalk.TablesBehave` | migrations/0001_init.up.sql:10-18 | The tables that the runs of the machine show to a walk satisfy all that the walk theorems ask of tables |
| `VoteSafety.StepKeepsInv` | internal/repository/postgres/votes.go:22-86 | Every step of a call, a submission or a reconcile pass keeps the invariant: exclusive key and row locks, pending values that are still right at COMMIT, valid votes, counters in range; and changes no author or creation time |
| `VoteSafety.RunKeepsInv` | internal/repository/postgres/votes.go:22-86 | The same for whole runs |
| `VoteSafety.DriftExactly` | internal/repository/postgres/votes.go:40-86 | From any stored counters, over any run that applies no fix to a request (fixes of others allowed), its drift becomes the larger of the initial drift and minus the fewest votes it has had |
| `VoteSafety.LowestIsMinimum` | internal/repository/postgres/votes.go:73-76 | That fewest number bounds the votes at every point of the run from below and is reached |
| `VoteSafety.DriftNeverGrows` | internal/repository/postgres/votes.go:73-76 | So runs without reconciliation never make a counter negative, keep a drift that is not negative exactly, and move a negative drift only towards zero |
| `VoteSafety.StepPublish` | internal/repository/postgres/votes.go:40-52 | A COMMIT, also one whose answer is lost, changes the membership of exactly one vote and moves exactly that request's committed counter, whatever was committed since the transaction began |
| `VoteSafety.StepFrame` | internal/repository/postgres/votes.go:27-27 | Any other step leaves the committed votes and, unless it applies a fix to that very row, every counter as it is: rolled-back work leaves no trace |
| `VoteSafety.ClampNeverBites` | internal/repository/postgres/votes.go:73-76 | From correct counters, a transaction that has deleted a vote finds the counter at least 1, so GREATEST(.., 0) never changes the result |
| `VoteSafety.ReplyCountsVotes` | internal/service/vote.go:52-61 | From correct counters, the count a call replies with is the number of votes committed at the moment it is read back |
| `VoteSafety.NoSelfVotes` | internal/service/vote.go:37-50 | If no stored vote is of its request's own author, which the schema would allow, then in every reachable state each vote names an existing request of another author |
| `VoteSafety.NewRequest` | migrations/0001_init.up.sql:15-15 | A request that appears has a zero counter and no votes |
| `VoteSafety.NothingToReconcile` | internal/repository/postgres/ranking.go:46-56 | With correct counters the mismatch query selects nothing, and no loop ever has a row to write |
| `VoteSafety.TallyToggle` | migrations/0001_init.up.sql:20-25 | An effective insert or delete changes the number of votes on its own request by one and on no other |
| `VoteLinearization.RealTimeOrder` | internal/service/vote.go:37-62 | The entry of a call that has been replied to, even with an error, precedes that of every call that arrives after the reply |
| `VoteLinearization.RunEndsCall` | internal/service/vote.go:37-62 | A call that has been replied to gets no entry any more, so an error answer settles whether it took effect |
| `VoteLinearization.RunReplays` | internal/repository/postgres/votes.go:22-86 | Any stretch of a run, from any reachable state, appends a correct history of what it did to the votes |
| `VoteLinearization.ChangesAlternate` | internal/repository/postgres/votes.go:38-52 | For one user and request, operations answered `true` strictly alternate between insert and delete |
| `VoteLinearization.ReplayTally` | internal/repository/postgres/votes.go:71-85 | In a correct history the votes on a request are those at the start plus inserts minus deletes answered `true` |
| `VoteLinearization.CountIsNetChange` | internal/repository/postgres/votes.go:40-52 | For every run from correct counters, `vote_count` is its initial value plus inserts minus deletes answered `true` |
| `VoteLinearization.SpikeCountsEveryVoterOnce` | specs/001-feature-voting-system/quickstart.md:118-129 | However the upvotes of N distinct users interleave, repeat and fail on the way, once each has one acknowledged and nobody else has called on the request, the counter is exactly N |
| `VoteLiveness.RowHolderNeverWaits` | internal/repository/postgres/votes.go:49-52 | A transaction that holds a row lock can always commit |
| `VoteLiveness.WaitsExactly` | internal/repository/postgres/votes.go:29-47 | A call's next statement waits if and only if it is a votes statement and another transaction has an uncommitted change of the same user's vote on the same request (for a removal: of a committed vote), or a counter statement and a transaction has an uncommitted counter of the same request |
| `VoteLiveness.SomeCallCanAdvance` | internal/repository/postgres/votes.go:33-49 | No deadlock: while a call is unfinished, some unfinished call's next statement can run |
| `VoteLiveness.WhatCanHappen` | internal/repository/postgres/ranking.go:84-91 | When each other event can happen, exactly: a statement of an unfinished call may fail, a COMMIT may be lost, a fix waits only for a lock on its row |
| `VoteLiveness.SnapshotCanHappen` | internal/repository/postgres/ranking.go:46-56 | A loop can take a snapshot if and only if it is between passes and every number of votes fits INTEGER, whatever calls are in progress |
| `VoteLiveness.FixWaitsForRowHolder` | internal/repository/postgres/ranking.go:84-91 | A reconcile loop waits only for a transaction that holds that row and can itself advance |
| `VoteLiveness.RunIsBounded` | internal/service/vote.go:37-85 | Steps taken in any run are bounded by the work present at its start plus the work that arrived |
| `VoteLiveness.SixStepsACall` | internal/service/vote.go:37-85 | In any run a call takes at most six steps, from its arrival to its reply |
| `VoteLiveness.CallsCanFinish` | internal/service/vote.go:37-85 | From every reachable state all calls in progress can be brought to a reply within the remaining work |
| `Reconcile.QueueIsSuffix` | internal/ranking/reconcile.go:53-64 | During a loop's pass the rows it has still to handle are a suffix of its snapshot, whatever else runs |
| `Reconcile.RunKeepsScheduled` | internal/ranking/reconcile.go:47-66 | While no operation changes a vote and none of a loop's writes fails to take effect, every wrong counter stays on its work list and every number on any list is true |
| `Reconcile.QuietPassHeals` | internal/ranking/reconcile.go:47-66 | If other loops' lists are true at the snapshot, and during the pass no vote changes and none of its writes fails to take effect, every counter is right in the end |
| `Reconcile.RaceLeavesDrift` | internal/ranking/reconcile.go:48-62 | A concrete error-free pass that leaves counter 0 for one committed vote |
| `VoteStore.VoteRepo.InsertVote` | internal/repository/postgres/votes.go:22-53 | The rows and the result are those of the atomic transition, for every position of a failing statement and both outcomes of a failed COMMIT |
| `VoteStore.VoteRepo.DeleteVote` | internal/repository/postgres/votes.go:57-86 | Likewise for removal |
| `VoteStore.TransactMeans` | internal/repository/postgres/votes.go:22-86 | What both do, in plain terms, for every fault: an error leaves the rows alone unless it is the answer to a lost COMMIT that took effect; otherwise exactly that vote and its request's counter (by one, not below zero) change, if the vote was not (or was) there |
| `VoteStore.TransactIsRun` | internal/repository/postgres/votes.go:22-86 | For every row state, operation and fault there is a run of the machine with exactly the atomic transition's rows and result |
| `VoteStore.ServeIsRun` | internal/service/vote.go:37-85 | For every row state, operation and failure there is a run of the machine, from the call's arrival to its reply, with exactly the rows and the reply of the service call |
| `VoteStore.TransactKeepsRows` | internal/repository/postgres/votes.go:22-86 | The transition keeps foreign keys, author checks and ranges, and keeps correct counters correct |
| `VoteStore.RemoveUndoesUpvote` | internal/repository/postgres/votes.go:57-86 | Removing a vote just cast restores votes and counters exactly |
| `VoteStore.VoteService.Upvote` | internal/service/vote.go:37-62 | The atomic service transition, for every combination of failing calls: not-found and self-vote change nothing; success adds exactly that vote, raises the counter by one only if it was new, and returns the new counter; correct counters stay correct on every path, failures included |
| `VoteStore.VoteService.RemoveVote` | internal/service/vote.go:64-85 | The same for removal: not-found changes nothing; success removes exactly that vote, lowers the counter by one only if the vote was there (never below zero), and returns it; correct counters stay correct on every path |
| `VoteStore.RankingRepo.GetVoteCountMismatches` | internal/repository/postgres/ranking.go:46-82 | Lists every request whose counter is not the number of its votes, once, with both numbers, and nothing else; fails exactly if the query does or a number of votes does not fit INTEGER |
| `VoteStore.RankingRepo.FixVoteCount` | internal/repository/postgres/ranking.go:84-91 | Overwrites one counter and changes nothing else; an error means that it did, or that nothing changed at all |
| `VoteStore.ReconcileJob.Reconcile` | internal/ranking/reconcile.go:47-66 | An undisturbed pass is a run of the machine; afterwards every counter whose write took effect is the number of the request's votes, those repaired without an error are cached, nothing else changed |
| `VoteStore.CompletedPass` | internal/ranking/reconcile.go:53-64 | What the loop computes row by row is that result |
| `VoteStore.PassIsRun` | internal/ranking/reconcile.go:47-66 | Each prefix of the loop is a run of the machine that only reconciles |
| `Cursor.RoundTrip` | internal/handler/cursor.go:18-50 | For every 64-bit time and 32-bit count, a cursor decodes to its triple if and only if the id has no `\|`; and is never the empty text that means "no cursor" |
| `Cursor.CursorText` | internal/handler/cursor.go:18-21 | A cursor is the base64 of id, nanoseconds and vote count, in this order, with bars between |
| `Cursor.Accepted` | internal/handler/cursor.go:24-50 | Whatever is accepted has a time and count in range and an id without `\|` |
| `Cursor.Canonical` | internal/repository/postgres/requests.go:123-141 | Any accepted text, with spaces, plus signs or trailing text, denotes one position; encoding that again gives a cursor for the same position |
| `Text.SplitJoin` | internal/handler/cursor.go:30-33 | SplitN recovers joined parts, if only a last part that fills the limit holds the separator |
| `Text.SplitParts` | internal/handler/cursor.go:30-33 | SplitN yields between one and n parts, none but the last with a separator |
| `Text.JoinOfSplit` | internal/handler/cursor.go:30-33 | Joining what SplitN yields gives back the text |
| `Text.ScanTolerates` | internal/handler/cursor.go:36-43 | Sscanf("%d") takes blanks, a sign, digits with leading zeros and any text after them, gives the number if it fits the width, and fails if it does not |
| `Text.ScanRefusesNewline` | internal/handler/cursor.go:36-43 | A newline before the number makes it fail |
| `Text.ScanRefusesNonDigits` | internal/handler/cursor.go:36-43 | So does a sign that no digit follows |
| `Text.WideSpaces` | internal/handler/cursor.go:36-43 | Beyond ASCII, exactly the Unicode white-space characters that Sscanf knows are dropped, in UTF-8 |
| `Text.DecimalDigits` | internal/handler/cursor.go:19-19 | The digits and the sign that Sprintf("%d") prints |
| `Text.ScanDecimal` | internal/handler/cursor.go:36-43 | Sscanf("%d") gives back every number Sprintf("%d") prints that fits the width, the minimum included |
| `Base64.DecodeEncode` | internal/handler/cursor.go:19-25 | Unpadded base64 in either alphabet decodes to what was encoded, for all three length residues, and uses only alphabet characters |
| `Base64.Alphabets` | internal/handler/cursor.go:20-20 | The letters are those of the tables in sections 4 and 5 of RFC 4648 |
| `Base64.SextetsOfGroup` | internal/handler/cursor.go:20-20 | Four letters spell the number that three bytes spell; one or two bytes left over are filled up with zero bits |
| `Base64.DecodeRefuses` | internal/handler/cursor.go:25-28 | Any byte that is no letter and no line break makes decoding fail, wherever it stands |
| `Base64.DecodeSkipsBreaks` | internal/handler/cursor.go:25-28 | A line break makes no difference to decoding, wherever it stands |
| `Base64.OctetsOfTail` | internal/handler/cursor.go:25-28 | Two or three letters at the end give one or two bytes, whatever their spare bits; a single one is an error |
| `Uuid.ParseOfFormat` | internal/repository/postgres/requests.go:188-188 | The text of a UUID denotes it again and has no `\|` |
| `Uuid.FormatDigits` | internal/repository/postgres/requests.go:188-188 | The text has the 32 hexadecimal digits of the number, most significant first, in lower case, and hyphens after 8, 12, 16 and 20 |
| `Uuid.ParseAccepts` | internal/repository/postgres/requests.go:61-63 | An id bounds a query exactly if it has hyphens in their four places and hexadecimal digits of either case in the 32 others |
| `Keyset.DescSorts` | internal/repository/postgres/requests.go:102-102 | The sorted table is strictly descending and has each row once |
| `Keyset.DescIsUnique` | internal/repository/postgres/requests.go:102-102 | There is only one such sequence, so the keys leave ORDER BY no choice |
| `Keyset.QueryMeaning` | internal/repository/postgres/requests.go:92-103 | A query returns rows below its bound, in order, as many as there are up to the limit, and leaves out only rows below all it returns |
| `Keyset.QueryByNew` | internal/repository/postgres/requests.go:59-69 | In columns: the rows with smaller (created_at, id) than the bound, descending in (created_at, id), and only rows smaller than all returned are left out |
| `Keyset.QueryByTop` | internal/repository/postgres/requests.go:92-103 | In columns: the same for (vote_count, created_at, id) |
| `Listing.CursorBoundsByRow` | internal/repository/postgres/requests.go:92-100 | The cursor emitted for a row bounds the next query by exactly that row |
| `Listing.RequestRepo.ListRequestsByNew` | internal/repository/postgres/requests.go:46-77 | Returns the query's rows; no cursor, an empty one and one that does not decode mean no bound, an id that is no UUID is an error |
| `Listing.RequestRepo.ListRequestsByTop` | internal/repository/postgres/requests.go:79-111 | The same by vote count |
| `Listing.RequestRepo.ListRequestsByTrending` | internal/repository/postgres/requests.go:113-115 | Trending pages are pages by vote count |
| `Listing.RankingService.ListPage` | internal/service/ranking.go:25-65 | The service returns the page that the walks below are made of, scanned; its items come in the order of the columns; at most `limit` (20 if that is not from 1 to 100), exactly so many if there is a next cursor; it fails exactly for a decodable cursor whose id is no UUID |
| `Listing.PageInOrder` | internal/repository/postgres/requests.go:92-103 | Of any two items of a page, the first has more votes for "top" and "trending", or as many and is newer, or as many, as old and has the larger id; for any other sort votes play no part |
| `Listing.BadCursors` | internal/repository/postgres/requests.go:59-69 | A cursor that is empty or not decodable gives the first page |
| `Listing.PageSize` | internal/service/ranking.go:52-64 | Every item of a page is a scanned row of the table, at most `limit` of them, and exactly so many if there is a next cursor |
| `Listing.ScannedDenotesRow` | internal/repository/postgres/requests.go:188-192 | The id text, time and count that scanning gives denote the row's UUID, creation time and votes |
| `Listing.ClampLimit` | internal/service/ranking.go:26-28 | A limit from 1 to 100 is kept, any other becomes 20 |
| `Listing.PageIs` | internal/service/ranking.go:30-64 | Fetching one row too many yields the first `limit` sorted rows, and a cursor for the last of them exactly when more remain |
| `Walk.WalkDescends` | internal/repository/postgres/requests.go:92-103 | Under any changes between pages the rows received strictly descend, and each was in some table |
| `Walk.TwiceOnlyWithFewerVotes` | internal/repository/postgres/requests.go:95-102 | A request received twice has strictly fewer votes the second time, and only when listing by votes |
| `Walk.NewestFirstIsExact` | internal/repository/postgres/requests.go:59-69 | By creation time a completed walk returns each request present at its start exactly once and none twice |
| `Walk.NewestFirstCompletes` | internal/repository/postgres/requests.go:59-69 | By creation time, a walk over changing tables is completed once its pages have room for all requests: votes do not prolong it |
| `Walk.WalkCompletes` | internal/repository/postgres/requests.go:92-103 | In either order, a walk over changing tables is completed once its pages have room for all the rows ever seen, a request counting once for each vote count seen |
| `Walk.TopWalkCompletes` | internal/repository/postgres/requests.go:92-103 | In particular it is once they have room for every request at every vote count that occurs |
| `Walk.MissedOnlyByRising` | internal/repository/postgres/requests.go:92-103 | By votes, a request listed throughout is missed only if its votes rise between pages, and any request is repeated only if they fall |
| `Walk.PageWindow` | internal/service/ranking.go:52-59 | A page holds a request if and only if it is below the page's cursor and not below the cursor the page emits |
| `Walk.RisingRequestIsMissed` | specs/001-feature-voting-system/quickstart.md:76-77 | A concrete completed walk by votes that misses a request listed throughout |
| `Walk.FallingRequestComesTwice` | specs/001-feature-voting-system/quickstart.md:76-77 | A concrete completed walk by votes that returns a request twice |
| `Walk.RestOfSorted` | internal/repository/postgres/requests.go:92-103 | The rows below the last row of a page are the rest of the sorted table |
| `RateLimit.Limiter.Handle` | internal/middleware/ratelimit.go:22-42 | A request whose INCR fails is let through and counts nothing; any other is admitted if and only if at most `limit` counted requests so far, itself included, are of the same user and the same quotient of the clock by the window, although counters expire |
| `RateLimit.HitsAreCounted` | internal/middleware/ratelimit.go:22-25 | The count of a window is the number of counted requests of the user whose time has the same quotient |
| `RateLimit.WindowAdmitsUpToLimit` | internal/middleware/ratelimit.go:36-40 | Every user and window admits exactly min(counted requests, limit) of its counted requests (those whose INCR succeeded) |
| `RateLimit.AdmittedExactly` | internal/middleware/ratelimit.go:22-42 | The counted requests of a user admitted in any interval are, exactly, the sum over the windows it touches of min(limit, hits before its end) - min(limit, hits before its start) |
| `RateLimit.OneSpan` | internal/middleware/ratelimit.go:11-12 | For an interval of one window's length these are two windows; it admits at most `limit` if and only if their two differences sum to at most `limit` |
| `RateLimit.TwiceTheLimit` | internal/middleware/ratelimit.go:11-12 | For every limit and window length, a history that admits twice the limit within one window's length |
| `RateLimit.IntervalBound` | internal/middleware/ratelimit.go:22-42 | Any interval of length L admits at most (ceil(L / window) + 1) * limit of a user's counted requests |
| `RateLimit.NoExpiryInsideWindow` | internal/middleware/ratelimit.go:32-34 | A window's counter never expires while the window lasts |
| `RateLimit.AtMostTwoLiveKeys` | internal/middleware/ratelimit.go:32-34 | If every EXPIRE succeeds, a user never has more than two live keys |
| `RateLimit.StoreUpdated` | internal/middleware/ratelimit.go:25-34 | INCR and EXPIRE keep every stored counter equal to the number of requests of its window, and its expiry between one and two windows after the window's start |
| `Trending.ScoreOrder` | internal/ranking/trending.go:12-15 | Comparing squares orders scores exactly as v / (age + 2)^1.5 does, for ages in hours |
| `Trending.StoredScoresOrder` | internal/ranking/trending.go:56-69 | What a pass stores orders any two requests exactly as v / (age + 2)^1.5, each with its age at its own clock reading |
| `Trending.YoungerScoresHigher` | internal/ranking/trending.go:12-15 | With equal positive votes the younger request scores higher |
| `Trending.NeverFallsBehindAgain` | internal/ranking/trending.go:12-15 | Once an older request's score has reached a newer one's, with votes fixed, it stays there |
| `Trending.NeverCatchesUp` | internal/ranking/trending.go:12-15 | With no more votes than the newer request, the older one stays strictly below |
| `Trending.EventuallyOvertakes` | internal/ranking/trending.go:12-15 | With strictly more votes it overtakes, at the latest when the newer one's age plus two is four times its votes times the difference in age |
| `Trending.TrendingJob.Recompute` | internal/ranking/trending.go:56-69 | For every listed request whose write takes effect the stored square times (clock - created + 2)^3 is the square of its votes; no other score changes |
| `Trending.PassOrdersEqualVotes` | internal/ranking/trending.go:56-69 | If a pass lasts at most e, two requests with equal positive votes created more than e apart end up newest first if the writes for these two take effect, although each is scored at a different instant |
| `Password.SplitOfFormat` | internal/service/auth.go:51-65 | The stored string splits at `$` into the empty text, argon2id, v=19, m=65536,t=3,p=2, and the base64 of salt and key |
| `Password.StoredPasswordVerifies` | internal/service/auth.go:43-86 | A stored string verifies exactly the passwords from which the key derivation, with salt, 3 iterations, 65536 KiB, 2 lanes and 32 bytes, gives the stored password's key |
| `Password.AuthService.HashPassword` | internal/service/auth.go:43-59 | Fails exactly when no salt can be drawn; otherwise the string it returns verifies exactly the passwords that derive the same key as the given one from that salt with these parameters |
| `Password.AuthService.VerifyPassword` | internal/service/auth.go:61-86 | True exactly when the string has six parts, the fifth and sixth decode, and the key derived from the password with the decoded salt, these parameters and the stored key's length equals the stored key |
| `Password.AuthService.SameBytes` | internal/service/auth.go:81-85 | The xor-or loop answers true exactly when the byte strings are equal |

## Left out

- HTTP handlers, routing, JSON, ETag, tokens, logging, metrics, configuration and server lifecycle.
- Redis rankings and `VoteCache`: no listing reads them. `VoteStore.ReconcileJob` keeps the count cache that it writes; the machine does not.
- The imperative methods of `VoteStore` run without interference; interleaving is proved about the machine, and `VoteStore.TransactIsRun`, `VoteStore.ServeIsRun` and `VoteStore.PassIsRun` tie the two together.
- VoteLinearization.Linearizable: covers the changed/unchanged answer; the count in a reply is read by a later statement and may include later votes, so it is stated by `VoteSafety.ReplyCountsVotes` instead.
- VoteStore.VoteRepo.DeleteVote: requires the foreign key and the column range for the row it removes, which the schema guarantees.
- The users table, e-mail accounts, and foreign keys to users; `title`, `description`, `updated_at`, `viewer_has_voted` and the validation in `Submit`, whose only effect here is a new row with a zero counter.
- Lock waits that end in a timeout appear as a failing statement; fairness of the lock queue is not modelled, so `VoteLiveness.CallsCanFinish` says that calls can finish, not that a starved one must.
- Errors while rows are read in listings and in the mismatch query are one failure of the whole query; for listings only an id that is no UUID is modelled as an error. SQL placeholder numbering is not modelled.
- UUID spellings that PostgreSQL accepts beyond the 8-4-4-4-12 form: an accepted cursor with one of those counts as an error here. Cursors made by the service never have one.
- Creation times have the database's resolution, microseconds; a hand-made cursor with a finer time is cut to it.
- Walk.MissedOnlyByRising: one direction, since votes may rise without passing a cursor; `Walk.TimesReturned` has the condition that is exact.
- `GetAllRequests` in `internal/repository/postgres/ranking.go:21-44` is the sequence that `Trending.TrendingJob.Recompute` is given; an error there ends a pass before it writes anything.
- Floating-point rounding of scores, and clock readings two hours or more before a request's creation.
- Requests let through because INCR failed are not limited at all, and no bound above counts them.
- RateLimit.Limiter.Handle: one clock for the service and Redis; computing the key, INCR and EXPIRE happen at one instant; a failed INCR counts nothing; the window is a whole, positive number of seconds.
- Argon2 is any function that returns the number of bytes asked for; its own failures (such as an empty stored key) are not modelled.
