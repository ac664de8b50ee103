# tdiscuss: a verified model

tdiscuss is a discussion board written in Go over PostgreSQL. This project models the four parts of it
that keep state, and states what they guarantee:

* the board store, with the counters and cached columns that triggers maintain, the statements and
  handlers that change it, and the two queries behind the thread list and the thread page;
* the two rate limiters, which forget idle visitors;
* the middleware chains, the authentication gate, and the stack of response writers;
* the canonicalisation of form input, and the printer of content security policies.

`dafny verify dfyconfig.toml` checks everything.

## Modules

| module | what it holds |
|---|---|
| `Tables`, `Joins`, `Ascii` | rows as sequences, counting, UPDATE and DELETE, left joins, filters, ORDER BY with LIMIT, case folding |
| `Board` | the tables, the effect of each transaction as a function `Step`, runs, and the invariant `Inv` |
| `BoardProofs` | each transaction keeps `Inv`, one statement and one clause at a time |
| `Store` | the class `Database`: triggers, statements and handlers as methods over mutable tables, each tied to `Step` |
| `Effects` | one sign-in and one reply spelled out row by row |
| `Conservation`, `History` | what follows for whole runs: totals, cached columns, administrators, who is blocked, edits |
| `Deletion` | the DELETE branch of `thread_post_sync`, exactly |
| `Listing` | `ListThreads`, `ListThreadPosts`, and the edit links they show |
| `ThreadSequence` | the create-thread transaction with sessions that interleave statement by statement |
| `TokenBucket` | the bucket of `golang.org/x/time/rate` as documented: `Allow`, `Reserve`, `Cancel`, `Tokens` |
| `Eviction`, `RateLimit`, `RateWindow` | the two visitor maps and what eviction does to their answers |
| `Chains`, `Gate`, `Responses` | folded chains, who gets through them, and the stacked writers |
| `Admission` | the member table and the gate together |
| `Sanitize`, `Csp` | the two text transformations |

The cached columns are compared with recomputations over the raw rows: `Count` and `Sum` for counters,
`IsEarliest` and `IsLatest` for the first and last post, `LastPosition` and `LastDate` for
`thread_member`. `Store.Database` performs the updates in place, in the order of the SQL; its methods
promise that the tables afterwards are those of `Step`, and the lemmas speak about `Step`.

## Assumptions

* One committed transaction is one atomic step, except in `ThreadSequence`, where each statement is one.
* `now()` does not decrease from step to step, and is constant within a transaction.
* `board_data` has one row (`sqlc/schema.sql:13`).
* ORDER BY breaks ties at will: each step and each listing is parameterised by the rows the server picked.
* A failed INSERT uses up the value of its sequence; any other failure may use up any values (`Rollback`).
* LOWER() acts on ASCII letters. Counters and ids are unbounded.
* Strings are sequences of Unicode code points.
* In the limiters getVisitor and Allow of one request read the same time. After a rejection the middleware
  limiter reads the clock again for the reservation, for its delay and for its cancellation. The events of
  one limiter happen one after the other; response headers are switched on, as shipped.
* Rates and tokens are real numbers. The key of a visitor is a parameter.
* What GetUserEmail and CreateOrGetUser answer, and whether a request is small, of the same origin and
  within its rate, are parts of the request in `Gate`.

## What the proofs brought to light

* A new member who is not the first is stored with `is_admin` and `is_blocked` NULL, because SELECT INTO
  without a row overwrites both variables (`sqlc/schema.sql:221-237`). `createOrReturnID` hides it with COALESCE;
  `ListThreadPosts` selects the flag as it is and answers NULL, never false (`Listing.ListThreadPostsIsExact`).
* `editThreadPOST` may change the body of a reply instead of the opening post: `GetThreadForEdit` joins the thread
  with all of its posts and answers with any one (`sqlc/queries.sql:158-169`). It is sure to reach the opening post
  exactly if the thread has no reply (`Store.EditsOpeningIff`, `Store.EditMissesOpening`).
* `can_edit` of a post tests the date of its thread. A link that is shown works, but it is withheld from
  replies that could still be edited when the thread's own window has closed (`Listing.PostLinkWorks`).
* Deleting a post leaves `thread.posts` one too high if one post remains, fails on the missing table
  `favorite` if none remains, and leaves positions in `thread_member` stale (`Deletion.DeleteEffect`).
  No statement of the application deletes posts.
* The rate limiter runs before authentication and never finds a user, so in the shipped chains every key is that
  of an address and the multiplier for users never applies (`Gate.AdminChainSafe`).
* The authenticated chain and the admin chain have a limiter each, so a visitor key gets through what both allow:
  21 requests at one moment, not 20 (`RateWindow.ShippedBound`, `RateWindow.ShippedBoundMet`).
* The patterns with `{tid}` in the shipped table contain no star and are compared literally: real thread paths get
  the default limit, not the one in the comment beside the pattern (`RateWindow.ShippedThreadPaths`).
* Recording writers take an informational status for the final one. After a first call with such a status every
  later status is lost: the client gets 200, also if the handler panics (`Responses.ResponseStack.Serve`).
* `SanitizeInput` is not idempotent on some inputs with NUL (`Sanitize.NulHidesRun`): exactly on those where NULs
  hide white space from the rewrites before they are removed (`Sanitize.IdempotentIff`).
* `buildCSPWithNonce` removes one `'unsafe-inline'` of `style-src`, so a policy that names it twice keeps it
  (`Csp.UnsafeTwice`, `Csp.UnsafeSurvivesIff`).
* A cancellation that comes after the reserved moment does not give the token back, so a rejection is neutral exactly
  under the condition of `TokenBucket.ReserveCancelNeutral`. If a token arrives between the rejection and the
  reservation, every later cancellation loses it: with the limit of /admin a client that waits as told may be
  rejected again (`TokenBucket.TokenArrives`, `TokenBucket.AdminLosesToken`).

## Model

| member | source | states |
|---|---|---|
| `BoardProofs.InsertThreadKeeps` | sqlc/schema.sql:96-109 | inserting a thread of an existing member, with its trigger, keeps every cached column in agreement with the rows |
| `BoardProofs.InsertThreadKeepsCounters` | sqlc/schema.sql:101-104 | the board's and the members' thread counters equal their counts after the insert |
| `BoardProofs.InsertPostKeeps` | sqlc/schema.sql:135-164 | inserting a post keeps every cached column in agreement, and its thread has a post afterwards |
| `BoardProofs.InsertPostKeepsCounters` | sqlc/schema.sql:136-138 | the board's and the members' post counters equal their counts after the insert |
| `BoardProofs.InsertPostKeepsThreads` | sqlc/schema.sql:139-147 | counter, first post, last author and last date of every thread agree with its posts after the insert, though the trigger writes now() rather than a date it read |
| `BoardProofs.CounterAfterPost` | sqlc/schema.sql:152-158 | the subquery of the trigger sees the counter it has just incremented, which is the number of posts of the thread |
| `BoardProofs.ParticipateKeepsOneRow` | sqlc/schema.sql:148-163 | the NOT EXISTS test alone keeps one row per member and thread with a post, and no other row |
| `BoardProofs.ParticipateAgrees` | sqlc/schema.sql:148-163 | last_view_posts and date_posted stay the position and date of the member's newest post in the thread |
| `BoardProofs.LastPositionIsNewest` | sqlc/schema.sql:158 | the position is the number of posts of the thread up to the member's newest one |
| `BoardProofs.LastPositionBounds` | sqlc/schema.sql:158 | the position never exceeds the number of posts and is positive exactly if the member has posted |
| `BoardProofs.SignInKeeps` | sqlc/schema.sql:203-247 | creating or finding a member keeps every cached column in agreement |
| `BoardProofs.SignInKeepsCounters` | sqlc/schema.sql:83-94 | a new member starts with counters that agree, since no row can refer to an id not yet handed out |
| `BoardProofs.TextKeeps` | sqlc/queries.sql:195-212 | statements that touch only subjects, bodies and the blocked flag keep every cached column in agreement |
| `BoardProofs.NewThreadKeeps` | handlers.go:289-335 | the create-thread transaction keeps the invariant, including that each thread has a post |
| `BoardProofs.ReplyKeeps` | handlers.go:390-400 | a reply, accepted or refused, keeps the invariant |
| `BoardProofs.StepKeepsInv` | sqlc/schema.sql:83-168 | every transaction keeps the invariant |
| `BoardProofs.RunKeepsInv` | sqlc/schema.sql:83-168 | the invariant holds at every point of every run from an empty board |
| `Store.Database.constructor` | sqlc/schema.sql:1-13 | the empty board, which satisfies the invariant |
| `Store.Database.MemberSyncInsert` | sqlc/schema.sql:83-94 | the board's member counter goes up by one and nothing else changes |
| `Store.Database.ThreadSyncInsert` | sqlc/schema.sql:101-104 | the thread counters of the author and of the board go up by one and nothing else changes |
| `Store.Database.ThreadPostSyncInsert` | sqlc/schema.sql:135-164 | the trigger's statements in order amount to the specified new members, totals, threads and participation rows |
| `Store.Database.ThreadPostSyncDelete` | sqlc/schema.sql:113-134 | the delete branch in order: new tables, or an error exactly if nothing remains and the counter is one |
| `Store.Database.DeleteThreadPost` | sqlc/schema.sql:111-134 | deleting a post has the specified effect, or none at all if the trigger fails |
| `Store.Database.PickPosts` | sqlc/schema.sql:143-144 | the two subqueries answer with a post of the thread that has the least date and one that has the greatest |
| `Store.Database.InsertThreadPost` | sqlc/queries.sql:4-9 | inserting a post with its trigger has the specified effect |
| `Store.Database.CreateOrReturnID` | sqlc/schema.sql:203-247 | a stored email is answered with its row and changes nothing; any other is refused exactly if it is empty or a stored one up to case, and else adds one member, administrator exactly if the table was empty, and its profile |
| `Store.Database.CreateThread` | handlers.go:289-335 | it succeeds exactly for a non-empty subject and an author in member; then one row each in thread, thread_post and thread_member under an id not used before, the author's and the board's counters one up, and no other row changed; else no row changes |
| `Store.Database.CreateThreadPost` | handlers.go:342-405 | a reply succeeds exactly if a member row has the author's id and a thread row the thread's; then every table is as `Effects.AfterReply` says, else only the sequence has moved |
| `Effects.ReplyExact` | sqlc/schema.sql:135-164 | the rows after a reply, column by column: the author's counter and last post, the thread's counter, first post, last author and date, one participation row at the thread's new counter, and all other rows as they were |
| `Effects.SignInExact` | sqlc/schema.sql:203-247 | who is answered with what, and who is refused, spelled out over the member rows |
| `Ascii.SameLower` | sqlc/schema.sql:250 | two texts have the same LOWER() exactly if they differ letter by letter in case only |
| `Store.Database.UpdateThread` | sqlc/queries.sql:195-200 | the subject changes exactly in the author's own thread within 900 seconds; it fails exactly if an empty subject meets a matching row |
| `Store.Database.UpdateThreadPost` | sqlc/queries.sql:202-207 | the body changes exactly in the author's own post within 900 seconds |
| `Store.Database.EditThread` | handlers.go:566-617 | not found exactly if no thread row has that id and the user as author; the subject changes exactly in that row and within 900 seconds; one post of the thread is picked, and the body changes exactly in it, if it is the user's own and within 900 seconds; an error exactly if an empty subject meets a subject that could be changed |
| `Store.Database.WriteBody` | sqlc/queries.sql:202-207 | the body of one post changes exactly if it is the user's own and within 900 seconds |
| `Store.Database.EditThreadPost` | handlers.go:727-757 | not found exactly if the post is not the user's; the body changes exactly within the window |
| `Store.Database.BlockMember` | sqlc/queries.sql:209-212 | is_blocked becomes true in the row with that id, and nothing else changes |
| `Store.CreatedThread` | handlers.go:300-324 | the whole effect of an accepted create-thread transaction: three rows that name each other under an unused id, four counters, and no other row |
| `Store.FirstPostPick` | sqlc/schema.sql:143-144 | the first post of a thread is both its earliest and its latest |
| `Store.OwnThreadHasPost` | sqlc/queries.sql:158-169 | GetThreadForEdit of an own thread always joins a post |
| `Store.EditsOpeningIff` | sqlc/queries.sql:158-169 | every possible answer of GetThreadForEdit is the opening post exactly if thread.posts, the number of posts, is one |
| `Store.EditMissesOpening` | handlers.go:566-617 | a board that a run reaches on which the form may rewrite the reply and leave the opening post |
| `Conservation.CountsPartition` | sqlc/schema.sql:83-168 | if each row has one owner, the owners' counts add up to the number of rows |
| `Conservation.PostsAddUp` | sqlc/schema.sql:136-138 | the members' post counters add up to the number of posts |
| `Conservation.ThreadsAddUp` | sqlc/schema.sql:101-104 | the members' thread counters add up to the number of threads |
| `Conservation.ThreadPostsAddUp` | sqlc/schema.sql:139-147 | the threads' post counters add up to the number of posts |
| `Conservation.RunTotalsAgree` | sqlc/schema.sql:83-147 | after every run: board total = sum over members = sum over threads = number of posts, and the same for threads and members |
| `Conservation.RunThreadColumns` | sqlc/schema.sql:139-147 | after every run each thread names one of its posts with the least date, an author of one with the greatest date, and that date |
| `Conservation.RunParticipation` | sqlc/schema.sql:148-163 | after every run thread_member has exactly one row per pair with a post, at the position of the newest one, which is at most the number of posts |
| `History.RunGrows` | sqlc/schema.sql:83-168 | no run removes or reorders rows, rewrites keys, authors, dates or the administrator flag, or lifts a block |
| `History.RunOneAdmin` | sqlc/schema.sql:214-242 | after every run exactly the member with the least id is administrator, it stays so, and each member has one profile |
| `History.SignInAgain` | sqlc/schema.sql:203-247 | a second sign-in in a row answers like the first for every email, known, new or refused, and changes nothing unless it is refused |
| `History.RunSignInStable` | sqlc/schema.sql:203-247 | after a successful sign-in, each later one with the same email answers with the same id and administrator flag and changes nothing |
| `History.RunBlockedForEver` | handlers.go:172-187 | after a block no later sign-in of that member is admitted, however the run goes on |
| `History.StepBlocks` | sqlc/queries.sql:209-212 | a transaction blocks the member its block names and nobody else, and a new member is not blocked |
| `History.RunBlockedIff` | sqlc/queries.sql:209-212 | at every point of every run a member is blocked exactly if some transaction since it signed up was a block of its id |
| `History.RunAnswer` | sqlc/schema.sql:221-246 | the whole answer to a stored email at every point of every run: its id, administrator exactly if it is the first row, blocked exactly if it was blocked since it signed up |
| `History.StepChangesText` | sqlc/queries.sql:195-207 | a transaction that changes a subject or body is its author's own edit of it, within 900 seconds |
| `History.RunSubjectChanges` | sqlc/queries.sql:195-200 | a subject that differs between two points of a run was edited in between by its author within 900 seconds |
| `History.RunBodyChanges` | sqlc/queries.sql:202-207 | the same for the body of a post |
| `History.RunTextFrozen` | sqlc/queries.sql:195-207 | once 900 seconds have passed no continuation of the run changes the subject or the body |
| `Deletion.DeleteAborts` | sqlc/schema.sql:116-130 | from an agreeing state the delete fails exactly if no other post of the thread is left |
| `Deletion.DeleteKeepsCounters` | sqlc/schema.sql:114-115 | the totals of the board and of all members still agree after a delete |
| `Deletion.DeleteKeepsOneRow` | sqlc/schema.sql:131-133 | thread_member still has exactly one row per pair with a post |
| `Deletion.DeleteThreads` | sqlc/schema.sql:116-125 | the cached columns of every other thread agree, and of the own one if two or more posts remain |
| `Deletion.DeleteParticipation` | sqlc/schema.sql:131-133 | the positions in thread_member still agree exactly if the newest post of the thread went and it was its author's only one there |
| `Deletion.DeleteEffect` | sqlc/schema.sql:113-134 | the exact effect of deleting one post of several: all agrees if two or more remain, and thread.posts is one too high with the row unchanged if one remains |
| `Deletion.DeleteRows` | sqlc/schema.sql:113-115 | the deleted row goes, its author's counter goes down and last post becomes now(), the board's counter goes down, and no other post or member changes |
| `Joins.LeftJoinUnique` | sqlc/queries.sql:64-78 | a left join that matches at most one row neither duplicates nor drops a left row |
| `Joins.WhereAligned` | sqlc/queries.sql:79 | filtering joined rows and filtering the outer rows by the same condition keep matching rows |
| `Listing.JoinsKeepThreads` | sqlc/queries.sql:62-78 | the four joins leave one row per thread, each joined with its only match |
| `Listing.FilteredRows` | sqlc/queries.sql:79 | filtering the joined rows keeps exactly the rows of the threads that are not sticky |
| `Listing.ProjectDescribes` | sqlc/queries.sql:45-61 | a joined row says about its thread what the tables say: count, first body, id and email of the author, id, email and date of the newest post's author, can_edit, dot, position |
| `Listing.ListThreadsIsExact` | sqlc/queries.sql:44-79 | one such row per thread that is not sticky, and none for a sticky one, in table order |
| `Listing.FrontPage` | sqlc/queries.sql:79-81 | the answer lists different threads, newest first, and omits one only if 100 threads at least as recent are listed |
| `Listing.EmailIsId` | sqlc/queries.sql:56 | comparing emails is comparing member ids |
| `Listing.ThreadLinkWorks` | sqlc/queries.sql:56 | can_edit of a listed thread holds exactly if UpdateThread would change it |
| `Listing.ListThreadPostsIsExact` | sqlc/queries.sql:121-143 | a thread page has one row per post of the thread and no other, with the id and email of its author and its thread's subject; is_admin is true for the first member and NULL for all others |
| `Listing.ListThreadPostsInOrder` | sqlc/queries.sql:143 | its rows in table order are in order of date |
| `Listing.PostLinkWorks` | sqlc/queries.sql:131 | can_edit of a post implies that UpdateThreadPost would change it, and is withheld from a working edit exactly if only the thread's window has closed |
| `ThreadSequence.NextKeepsInv` | handlers.go:289-335 | every event of every session keeps the invariant on sessions, sequence and committed rows |
| `ThreadSequence.RunInv` | sqlc/queries.sql:11-12 | that invariant holds in every interleaving |
| `ThreadSequence.RunIsAtomic` | handlers.go:289-335 | in every interleaving a commit adds one thread under a new id and one post in that same thread by the same author, and nothing else adds a thread |
| `ThreadSequence.RunNeverStuck` | handlers.go:289-335 | in every interleaving each session can take the next statement of its transaction |
| `ThreadSequence.RunCompletes` | handlers.go:289-335 | at every point of every interleaving an idle session can run its five statements, which add one thread under a new id with its post and leave the other sessions alone |
| `ThreadSequence.RunCommittedRows` | handlers.go:289-335 | committed threads have different ids and a post each, and each post has a committed thread |
| `ThreadSequence.RunIdsFresh` | sqlc/queries.sql:1-12 | an id handed out is never handed out again, also not after a rollback |
| `ThreadSequence.LastValueIsNotOwn` | sqlc/queries.sql:11-12 | an interleaving in which the last value of the sequence is not the session's own row, and currval is |
| `Eviction.RateLimiter.GetVisitor` | ratelimit.go:46-62 | a new visitor gets a full bucket of the configured rate and burst, a known one keeps its bucket; it is stamped, and no other entry changes |
| `Eviction.RateLimiter.CleanupVisitors` | ratelimit.go:65-78 | exactly the entries idle for over 3600 seconds are removed, the others stay as they are |
| `Eviction.RateLimiter.Handle` | ratelimit.go:81-117 | a request is admitted exactly if the visitor's bucket, full if new, holds a token, which it then loses; a rejection leaves the bucket as it is; no other entry changes |
| `Eviction.AlikeServe` | ratelimit.go:81-117 | a table with evictions and one without answer a request alike and stay alike |
| `Eviction.AlikeEvict` | ratelimit.go:65-78 | evicting an entry keeps the tables alike if the burst refills within the hour |
| `Eviction.AnswersAlike` | ratelimit.go:46-117 | on every trace of requests and cleanups the answers are those of a limiter that never evicts |
| `Eviction.EvictionShows` | ratelimit.go:65-78 | if the burst does not refill within the hour, a trace on which the answers differ |
| `Eviction.UnobservableIff` | ratelimit.go:46-117 | eviction is unobservable if and only if burst <= rate * one hour |
| `TokenBucket.TokensLater` | ratelimit.go:97-107 | availability depends only on availability at any earlier moment |
| `TokenBucket.ReadyMeansOneToken` | middleware/middleware_ratelimit.go:234-235 | the delay of a reservation ends exactly when the bucket would hold a token |
| `TokenBucket.CancelInTime` | middleware/middleware_ratelimit.go:234-236 | a cancellation not later than the reserved moment gives back what the reservation took |
| `TokenBucket.ReserveCancelNeutral` | middleware/middleware_ratelimit.go:234-236 | reserve then cancel leaves any bucket as it was exactly if the cancellation is not later than the reserved moment or the bucket has filled up anyway |
| `TokenBucket.RetryAfterIff` | middleware/middleware_ratelimit.go:234-238 | a client that waits Retry-After seconds is admitted exactly if the cancellation was in time or the bucket has made up for the token |
| `TokenBucket.RetryAfterLeast` | middleware/middleware_ratelimit.go:234-238 | the wait ends strictly after the bucket, left alone, would hold a token, and no wait shorter by a second does |
| `TokenBucket.NoTokenBefore` | middleware/middleware_ratelimit.go:234-236 | a cancellation is in time exactly if the bucket held no token before it |
| `TokenBucket.RetryAfterIsEnough` | middleware/middleware_ratelimit.go:234-238 | with a cancellation in time the wait of section 10.2.3 of RFC 9110 is enough, also if the visitor was evicted meanwhile |
| `TokenBucket.TokenArrives` | middleware/middleware_ratelimit.go:134-238 | if a token arrives between the rejection and the reservation, a later cancellation loses it: when the bucket is still as it was, and when the told wait is enough |
| `TokenBucket.AdminLosesToken` | routes.go:45 | the limit of /admin at given times: rejected, told to wait a second, and rejected again, though the bucket left alone would admit |
| `RateLimit.MatchesOneStar` | middleware/middleware_ratelimit.go:308-322 | a pattern with one star matches exactly the paths that fill it in, and those in which prefix and suffix overlap |
| `RateLimit.MatchesExactly` | middleware/middleware_ratelimit.go:308-322 | for every pattern: without a star only the path itself, with one star prefix and suffix, with more no path |
| `RateLimit.GetLimitsForPath` | middleware/middleware_ratelimit.go:168-178 | the limit of some matching entry, or the default exactly if none matches |
| `RateLimit.EffectiveRefills` | middleware/middleware_ratelimit.go:185-196 | the multiplier with its truncated burst keeps burst <= rate * interval |
| `RateLimit.ProbeNeutral` | middleware/middleware_ratelimit.go:211-244 | the probe of a rejection, with its own clock readings, never adds tokens, and is neutral exactly if there was no reservation, it was cancelled in time, or the bucket has filled up anyway |
| `RateLimit.RateLimiter.GetVisitor` | middleware/middleware_ratelimit.go:181-208 | a new visitor gets a full bucket with the limits of this request, rate multiplied and burst multiplied and cut off if the key starts with "user:" and the multiplier is positive; a known one keeps its bucket; it is stamped, and no other entry changes |
| `RateLimit.RateLimiter.CleanupVisitors` | middleware/middleware_ratelimit.go:261-281 | exactly the entries idle for longer than the interval are removed, the others stay as they are |
| `RateLimit.RateLimiter.Serve` | middleware/middleware_ratelimit.go:121-147 | admitted exactly if the visitor's bucket, of the matching limit if new, holds a token, which it then loses; Retry-After is the least whole number of seconds that ends strictly after that bucket would hold one; who comes back then is admitted exactly if it held none before the cancellation or has made up for the token; no other entry changes |
| `RateWindow.HitCredit` | middleware/middleware_ratelimit.go:121-147 | an admission costs the visitor one unit of credit, a rejection none, and time until the probe is cancelled earns at most the steady rate |
| `RateWindow.SweepCredit` | middleware/middleware_ratelimit.go:261-281 | eviction never raises the credit |
| `RateWindow.StepCredit` | middleware/middleware_ratelimit.go:121-281 | over any event the credit falls by what is admitted and rises at most at the steady rate |
| `RateWindow.CreditBound` | middleware/middleware_ratelimit.go:121-208 | the admissions of the rest of a run are at most the credit plus rate times the time left |
| `RateWindow.WindowBound` | middleware/middleware_ratelimit.go:121-281 | in every run and every window of length T a visitor gets at most burst + rate * T requests through, across evictions and re-creations under other paths' limits |
| `RateWindow.AdmissionBound` | middleware/middleware_ratelimit.go:121-281 | from an empty table the same, if only each table entry has burst <= rate * interval |
| `RateWindow.ShippedRefills` | middleware/middleware_ratelimit.go:51-67 | the shipped tables meet that condition, in both modes and for the API variant |
| `RateWindow.ShippedBound` | routes.go:34-46 | under one visitor key at most 21 + 10.2 T requests pass the two shipped limiters in any window of length T, 21 + 20 T in development mode |
| `RateWindow.ShippedBoundMet` | routes.go:69-70 | twenty requests for / and one for /admin at one moment are all admitted, so the bound is attained |
| `RateWindow.ShippedThreadPaths` | routes.go:40-46 | the limit of every path under the shipped table: those of its five keys literally, and the default for all others |
| `Chains.NestAppend` | middleware/middleware_core.go:46-56 | folding an appended chain is folding one chain around the other |
| `Chains.Chain.Then` | middleware/middleware_core.go:26-35 | the loop from the last to the first middleware yields the fold in list order, around the default mux if no handler is given |
| `Chains.Chain.Append` | middleware/middleware_core.go:46-51 | a new chain that nests this one around the added middlewares; this one is unchanged |
| `Chains.Chain.Extend` | middleware/middleware_core.go:54-56 | a new chain that nests this one around the other |
| `Gate.ThenOrder` | middleware/middleware_core.go:26-35 | effects before the next handler happen in list order up to the first middleware that stops, effects after it in reverse |
| `Gate.MiddlewareSetup.CreatePublicChain` | middleware/middleware_setup.go:64-93 | the public middlewares for each setting of the flags |
| `Gate.MiddlewareSetup.CreateAuthenticatedChain` | middleware/middleware_setup.go:96-117 | the public chain, then authentication and cross-origin protection as flags say; what that list does is `Gate.MemberChainExact` and `Gate.MemberChainServes` |
| `Gate.MiddlewareSetup.CreateAdminChain` | middleware/middleware_setup.go:120-131 | the authenticated chain, then the administrator check, then the audit |
| `Gate.AuthAdds` | middleware/middleware_auth.go:66-160 | authMiddleware stops a request exactly if its identity is unknown or blocked, and otherwise the rest sees the identified user in the context |
| `Gate.RequireAdminAdds` | middleware/middleware_auth.go:176-194 | requireAdminMiddleware stops a request exactly if the context has no user or one who is no administrator |
| `Gate.MemberChainExact` | middleware/middleware_setup.go:64-117 | for all flags and requests, the exact list of what the authenticated chain does, in order |
| `Gate.AdminChainExact` | middleware/middleware_setup.go:64-131 | the same for the admin chain, with its audit |
| `Gate.MemberChainServes` | middleware/middleware_setup.go:96-117 | the page runs exactly if the request is small, within its rate if limited, of the same origin if it changes something and protection is on, and its identity known and not blocked if authentication is on |
| `Gate.AdminChainSafe` | middleware/middleware_setup.go:120-131 | for all flags, requests and contexts: pages run and audits happen only for the signed-in administrator, who is not blocked; the limiter finds no user |
| `Gate.MemberChainSafe` | middleware/middleware_setup.go:96-117 | with authentication on, pages run only for the signed-in user, who is not blocked |
| `Gate.AdminChainServes` | middleware/middleware_setup.go:120-131 | the same for administration pages, if and only if besides authentication is on and the member is an administrator |
| `Responses.ResponseStack.WriteHeader` | middleware/middleware_core.go:215-224 | at any depth the first status is kept by all recorders and is the head of the response unless it is informational; later ones change nothing |
| `Responses.ResponseStack.Write` | middleware/middleware_core.go:226-235 | at any depth all recorders count the bytes the client got, and an open head becomes 200 |
| `Responses.ResponseStack.RecoveryWriteHeader` | routes.go:235-240 | only the first head is passed on |
| `Responses.ResponseStack.RecoveryWrite` | routes.go:242-247 | bytes are passed on and the response counts as started |
| `Responses.ResponseStack.Serve` | routes.go:150-227 | for any depth, any calls and a panic at any point: without a call 500 or 200, else the first status, or 200 if it is from 100 to 199 and not 101; one head; all recorders hold the first status and the bytes sent |
| `Admission.RunBlockedNeverServed` | middleware/middleware_auth.go:118-136 | once blocked, a member never causes a page behind the authenticated chain to run |
| `Admission.RunMemberServed` | middleware/middleware_setup.go:96-117 | at every point of every run a member's request reaches the page exactly if no barrier stops it and the member was not blocked since it signed up |
| `Admission.RunAdminServed` | middleware/middleware_setup.go:120-131 | the same for administration pages, exactly for the first member |
| `Admission.RunAdminServesFirst` | middleware/middleware_auth.go:176-194 | at every point of every run administration pages are served to nobody but the first member ever created |
| `Sanitize.SanitizeKeepsSkeleton` | validation.go:257-277 | read before and after, visible characters stay in order, separated by nothing, a word gap, a line end or a blank line exactly as typed, where CRLF, CR and LF end one line each |
| `Sanitize.LinesSkeleton` | validation.go:258-260 | the two replacements of line ends read each CRLF, lone CR and LF as one line end |
| `Sanitize.SanitizeShape` | validation.go:257-277 | the result has no CR, tab, form feed or NUL and is not longer than the input |
| `Sanitize.SanitizeNormal` | validation.go:257-277 | on input without NUL the result is trimmed, without double space and triple newline |
| `Sanitize.FixpointIff` | validation.go:257-277 | the texts left alone are exactly those in that normal form |
| `Sanitize.SanitizeIdempotent` | validation.go:257-277 | idempotent on input without NUL, and on any input from the second pass on |
| `Sanitize.IdempotentIff` | validation.go:257-277 | on any input, a second pass changes nothing exactly if no NULs of the trimmed text lie at an edge with white space behind them, between two horizontal spaces, or in a run that keeps more than two newlines |
| `Sanitize.NulHidesRun` | validation.go:273-274 | an input with NUL on which a second pass changes the result |
| `Csp.RoundTrip` | middleware/middleware_security.go:194-204 | printed in any map order and parsed by section 2.2.1 of Content Security Policy Level 3, the directives come back in that order with their tokens |
| `Csp.RoundTripMeaning` | middleware/middleware_security.go:194-204 | each name comes back once, with its own tokens, and no other name |
| `Csp.RoundTripIff` | middleware/middleware_security.go:194-204 | the printed policy is read back exactly if all names are lower-case ASCII without white space and semicolon and all values ASCII without semicolon |
| `Csp.ParsedClean` | middleware/middleware_security.go:194-204 | whatever is parsed, each name occurs once and has no capital, and no name and no token holds white space, a semicolon or a non-ASCII character |
| `Csp.BuildCSP` | middleware/middleware_security.go:194-204 | the loop over the map prints such a policy |
| `Csp.SplitJoin` | middleware/middleware_security.go:203 | joined parts without semicolons are split into the same parts, each but the first after one space |
| `Csp.RemoveKeyword` | middleware/middleware_security.go:220 | removing a keyword that stands alone removes that token and no other |
| `Csp.RemovesOneToken` | middleware/middleware_security.go:220 | where the keyword stands only as a token of its own, removing its first occurrence removes its first token and nothing else |
| `Csp.UnsafeSurvivesIff` | middleware/middleware_security.go:219-222 | there style-src read back still holds unsafe-inline exactly if it held it at least twice |
| `Csp.UnsafeTwice` | middleware/middleware_security.go:219-222 | a style-src with the keyword twice keeps it beside the nonce |
| `Csp.BuildCSPWithNonce` | middleware/middleware_security.go:206-225 | the policy is read back as the one without a nonce, except that script-src and style-src end with the token 'nonce-...' and style-src loses the first unsafe-inline token, if the keyword stands only as a token of its own |

## Left out

- HTML sanitising and markdown: subjects and bodies are opaque strings after `SanitizeInput`.
- Telemetry: traced queries, metrics, spans and log lines other than the marks `Gate` keeps.
- Templates, static files, theme and build files.
- Tailscale, listeners, signals, shutdown, database connections and pools.
- `net/http` cross-origin protection, body size limits, `url.Parse`, `path.Match`: their decisions are inputs.
- Isolation and locking of PostgreSQL beyond atomic transactions; statements that wait for each other.
- 32-bit overflow of counters and of `first_post_id`.
- `join`, `indexOf`, `board_data.title` and `edit_window`, profile columns, views, locked and search flags: the modelled rules do not read them. No statement sets `sticky`.
- DELETE branches of `member_sync` and `thread_sync`: no statement reaches them, and each undoes one increment.
- `ValidateThreadForm`, `Validator` and the other form checks: each is a reading of one branch.
- `ListMemberThreads`, `GetMember`: the joins of `ListThreads` with another filter and limit.
- `EndpointRateLimiter`, `WaitRateLimitMiddleware`: routing by `path.Match`, and waiting inside the library.
- `getClientIP`, `getVisitorKey`, the X-RateLimit headers: the key is a parameter.
- Two requests that hold the same bucket while it is evicted: buckets are values in the visitor map, so a request that keeps a bucket after its entry is gone is not captured.
- `CreateAPIChain` and `jsonErrorResponseWriter`: no route uses them; its limits are in `RateWindow.ShippedRefills`.
- `RequestContext.Set` and `Get`, request and trace ids: a map behind a lock that the gate does not read.
- `Flush`, connection errors, and bodies that a status forbids, in the writers.
- Store.Database.EditThread: no other session acts between its three statements; the lemmas of `History` and `BoardProofs`, which speak of single transactions, hold for any interleaving of them.
- Csp.BuildCSPWithNonce: the reading is stated for maps that are read back without a nonce, and a `style-src` without vertical tab, which `strings.TrimSpace` strips and the parser does not; where the keyword is part of a longer token, style-src is described by the text with its first occurrence removed.
