/**
 The tables of sqlc/schema.sql, the statements of sqlc/queries.sql that change
 them, and the effect of the triggers those statements fire, on values.

 One committed transaction is one step. `now()` is a parameter of the step and
 never runs backwards. `ORDER BY ... LIMIT 1` may answer with any of several
 tied rows, so the rows it answers with are parameters of the step too.
 */
module Board {
  import opened Ascii
  import opened Tables

  /** Microseconds, the resolution of timestamptz. */
  type Time = int

  const EDIT_WINDOW: Time := 900_000_000

  datatype Totals = Totals(members: int, threads: int, posts: int)

  /** `isAdmin` and `isBlocked` are nullable columns. */
  datatype Member = Member(
    id: int, email: string, isAdmin: Option<bool>, isBlocked: Option<bool>,
    lastPost: Option<Time>, totalPosts: int, totalThreads: int)

  datatype Profile = Profile(id: int, memberId: int)

  datatype Thread = Thread(
    id: int, memberId: int, subject: string, datePosted: Time, firstPostId: Option<int>,
    posts: int, sticky: bool, lastMemberId: int, dateLastPosted: Time)

  datatype Post = Post(id: int, threadId: int, datePosted: Time, memberId: int, body: string)

  datatype Participation = Participation(
    memberId: int, threadId: int, undot: bool, datePosted: Option<Time>, lastViewPosts: int)

  /** The tables, their sequences, and the last value of `now()`. */
  datatype Db = Db(
    totals: Totals, members: seq<Member>, profiles: seq<Profile>, threads: seq<Thread>,
    posts: seq<Post>, parts: seq<Participation>,
    nextMember: int, nextProfile: int, nextThread: int, nextPost: int, clock: Time)

  function Init(clock: Time): Db {
    Db(Totals(0, 0, 0), [], [], [], [], [], 1, 1, 1, 1, clock)
  }

  // WHERE clauses

  function MemberHasId(id: int): Member -> bool { (m: Member) => m.id == id }

  function ThreadHasId(id: int): Thread -> bool { (t: Thread) => t.id == id }

  function ThreadBy(memberId: int): Thread -> bool { (t: Thread) => t.memberId == memberId }

  function PostBy(memberId: int): Post -> bool { (p: Post) => p.memberId == memberId }

  function PostIn(threadId: int): Post -> bool { (p: Post) => p.threadId == threadId }

  function PostByIn(memberId: int, threadId: int): Post -> bool {
    (p: Post) => p.memberId == memberId && p.threadId == threadId
  }

  function PairIs(memberId: int, threadId: int): Participation -> bool {
    (r: Participation) => r.memberId == memberId && r.threadId == threadId
  }

  /** The condition in the WHERE clause of UpdateThread, besides the id. */
  predicate ThreadEditable(t: Thread, author: int, now: Time) {
    t.memberId == author && t.datePosted >= now - EDIT_WINDOW
  }

  /** The condition in the WHERE clause of UpdateThreadPost, besides the id. */
  predicate PostEditable(p: Post, author: int, now: Time) {
    p.memberId == author && p.datePosted >= now - EDIT_WINDOW
  }

  function OwnThread(tid: int, author: int, now: Time): Thread -> bool {
    (t: Thread) => t.id == tid && ThreadEditable(t, author, now)
  }

  function OwnPost(pid: int, author: int, now: Time): Post -> bool {
    (p: Post) => p.id == pid && PostEditable(p, author, now)
  }

  // SET clauses

  function CountThread(): Member -> Member { (m: Member) => m.(totalThreads := m.totalThreads + 1) }

  function CountPost(now: Time): Member -> Member {
    (m: Member) => m.(lastPost := Some(now), totalPosts := m.totalPosts + 1)
  }

  function MarkBlocked(): Member -> Member { (m: Member) => m.(isBlocked := Some(true)) }

  function Touch(tid: int, posts: seq<Post>, pick: Pick, now: Time): Thread -> Thread
    requires ValidPick(posts, tid, pick)
  {
    (t: Thread) => if t.id == tid then TouchThread(t, posts, pick, now) else t
  }

  function Retitle(subject: string): Thread -> Thread { (t: Thread) => t.(subject := subject) }

  function Rewrite(body: string): Post -> Post { (p: Post) => p.(body := body) }

  function Rejoin(count: int, now: Time): Participation -> Participation {
    (r: Participation) => r.(datePosted := Some(now), lastViewPosts := count)
  }

  predicate HasMember(db: Db, id: int) {
    exists i :: 0 <= i < |db.members| && db.members[i].id == id
  }

  predicate HasThread(db: Db, id: int) {
    exists i :: 0 <= i < |db.threads| && db.threads[i].id == id
  }

  /** Row `i` is a possible answer of SELECT ... WHERE thread_id=tid ORDER BY date_posted ASC LIMIT 1. */
  predicate IsEarliest(posts: seq<Post>, tid: int, i: int) {
    0 <= i < |posts| && posts[i].threadId == tid &&
    forall j :: 0 <= j < |posts| && posts[j].threadId == tid ==> posts[i].datePosted <= posts[j].datePosted
  }

  /** Row `i` is a possible answer of SELECT ... WHERE thread_id=tid ORDER BY date_posted DESC LIMIT 1. */
  predicate IsLatest(posts: seq<Post>, tid: int, i: int) {
    0 <= i < |posts| && posts[i].threadId == tid &&
    forall j :: 0 <= j < |posts| && posts[j].threadId == tid ==> posts[j].datePosted <= posts[i].datePosted
  }

  // Sign-in

  /** The row answered by createOrReturnID, or an error that aborts the transaction. */
  datatype SignedIn = Refused | User(id: int, isAdmin: bool, isBlocked: bool)

  function Coalesce(b: Option<bool>): bool { b == Some(true) }

  function FindEmail(members: seq<Member>, email: string): (r: Option<int>)
    ensures r.Some? ==> 0 <= r.value < |members| && members[r.value].email == email
    ensures r.None? ==> forall i :: 0 <= i < |members| ==> members[i].email != email
  {
    if |members| == 0 then None
    else if members[|members| - 1].email == email then Some(|members| - 1)
    else
      var n := |members| - 1;
      assert forall i :: 0 <= i < n ==> members[..n][i] == members[i];
      FindEmail(members[..n], email)
  }

  /** The two unique indexes and the check on member.email. */
  predicate EmailFree(members: seq<Member>, email: string) {
    email != "" && forall i :: 0 <= i < |members| ==> Lower(members[i].email) != Lower(email)
  }

  function SignInResult(db: Db, email: string): SignedIn {
    match FindEmail(db.members, email)
    case Some(i) =>
      User(db.members[i].id, Coalesce(db.members[i].isAdmin), Coalesce(db.members[i].isBlocked))
    case None =>
      if EmailFree(db.members, email) then User(db.nextMember, |db.members| == 0, false) else Refused
  }

  function SignIn(db: Db, email: string, now: Time): Db {
    if FindEmail(db.members, email).Some? then db.(clock := now)
    else if EmailFree(db.members, email) then
      db.(members := db.members + [NewMember(db, email)],
          profiles := db.profiles + [Profile(db.nextProfile, db.nextMember)],
          totals := db.totals.(members := db.totals.members + 1),
          nextMember := db.nextMember + 1, nextProfile := db.nextProfile + 1, clock := now)
    else db.(nextMember := db.nextMember + 1, clock := now)
  }

  /** SELECT INTO found no row, so the flags that are not set afterwards are NULL. */
  function NewMember(db: Db, email: string): Member {
    Member(db.nextMember, email, if |db.members| == 0 then Some(true) else None, None, None, 0, 0)
  }

  // Threads and posts

  datatype Pick = Pick(first: int, last: int)

  /** INSERT INTO thread, with thread_sync. */
  function InsertThread(db: Db, author: int, subject: string, now: Time): Db {
    db.(threads := db.threads +
                   [Thread(db.nextThread, author, subject, now, None, 0, false, author, now)],
        members := UpdateWhere(db.members, MemberHasId(author), CountThread()),
        totals := db.totals.(threads := db.totals.threads + 1),
        nextThread := db.nextThread + 1, clock := now)
  }

  function ThreadPosts(threads: seq<Thread>, tid: int): int {
    if |threads| == 0 then 0
    else if threads[|threads| - 1].id == tid then threads[|threads| - 1].posts
    else ThreadPosts(threads[..|threads| - 1], tid)
  }

  function NewPost(db: Db, tid: int, author: int, body: string, now: Time): Post {
    Post(db.nextPost, tid, now, author, body)
  }

  predicate ValidPick(posts: seq<Post>, tid: int, pick: Pick) {
    IsEarliest(posts, tid, pick.first) && IsLatest(posts, tid, pick.last)
  }

  function TouchThread(t: Thread, posts: seq<Post>, pick: Pick, now: Time): Thread
    requires ValidPick(posts, t.id, pick)
  {
    t.(posts := t.posts + 1, firstPostId := Some(posts[pick.first].id),
       lastMemberId := posts[pick.last].memberId, dateLastPosted := now)
  }

  /** The participation rows after a post by `author` in `tid` that made `count` the thread's counter. */
  function Participate(parts: seq<Participation>, author: int, tid: int, count: int, now: Time): seq<Participation> {
    if Count(parts, PairIs(author, tid)) == 0 then parts + [Participation(author, tid, false, Some(now), count)]
    else UpdateWhere(parts, PairIs(author, tid), Rejoin(count, now))
  }

  /** INSERT INTO thread_post, with the INSERT branch of thread_post_sync. */
  function InsertPost(db: Db, tid: int, author: int, body: string, pick: Pick, now: Time): Db
    requires ValidPick(db.posts + [NewPost(db, tid, author, body, now)], tid, pick)
  {
    var posts := db.posts + [NewPost(db, tid, author, body, now)];
    var threads := UpdateWhere(db.threads, ThreadHasId(tid), Touch(tid, posts, pick, now));
    db.(posts := posts,
        threads := threads,
        members := UpdateWhere(db.members, MemberHasId(author), CountPost(now)),
        totals := db.totals.(posts := db.totals.posts + 1),
        parts := Participate(db.parts, author, tid, ThreadPosts(threads, tid), now),
        nextPost := db.nextPost + 1, clock := now)
  }

  // Steps

  datatype Action =
    | SignInAs(email: string)
    | NewThread(author: int, subject: string, body: string, pick: Pick)
    | Reply(author: int, tid: int, body: string, pick: Pick)
    | UpdateThread(author: int, tid: int, subject: string)
    | UpdateThreadPost(author: int, pid: int, body: string)
    | Block(target: int)
    // a transaction that failed, with the sequence values it used up
    | Rollback(members: nat, profiles: nat, threads: nat, posts: nat)

  predicate NewThreadAccepted(db: Db, author: int, subject: string) {
    subject != "" && HasMember(db, author)
  }

  predicate ReplyAccepted(db: Db, author: int, tid: int) {
    HasMember(db, author) && HasThread(db, tid)
  }

  /** What the environment guarantees: the clock, and the meaning of ORDER BY. */
  predicate Lawful(db: Db, a: Action, now: Time) {
    db.clock <= now &&
    match a
    case NewThread(author, subject, body, pick) =>
      ValidPick(db.posts + [NewPost(db, db.nextThread, author, body, now)], db.nextThread, pick)
    case Reply(author, tid, body, pick) =>
      ValidPick(db.posts + [NewPost(db, tid, author, body, now)], tid, pick)
    case _ => true
  }

  /** One committed (or aborted) transaction. */
  function Step(db: Db, a: Action, now: Time): Db
    requires Lawful(db, a, now)
  {
    match a
    case SignInAs(email) => SignIn(db, email, now)
    case NewThread(author, subject, body, pick) =>
      if NewThreadAccepted(db, author, subject) then
        InsertPost(InsertThread(db, author, subject, now), db.nextThread, author, body, pick, now)
      else db.(nextThread := db.nextThread + 1, clock := now)
    case Reply(author, tid, body, pick) =>
      if ReplyAccepted(db, author, tid) then InsertPost(db, tid, author, body, pick, now)
      else db.(nextPost := db.nextPost + 1, clock := now)
    case UpdateThread(author, tid, subject) =>
      if subject == "" then db.(clock := now)
      else db.(threads := UpdateWhere(db.threads, OwnThread(tid, author, now), Retitle(subject)), clock := now)
    case UpdateThreadPost(author, pid, body) =>
      db.(posts := UpdateWhere(db.posts, OwnPost(pid, author, now), Rewrite(body)), clock := now)
    case Block(target) =>
      db.(members := UpdateWhere(db.members, MemberHasId(target), MarkBlocked()), clock := now)
    case Rollback(m, p, t, q) =>
      db.(nextMember := db.nextMember + m, nextProfile := db.nextProfile + p,
          nextThread := db.nextThread + t, nextPost := db.nextPost + q, clock := now)
  }

  /** A run: `times[i]` is the value of now() in step `i`. */
  ghost predicate IsRun(states: seq<Db>, actions: seq<Action>, times: seq<Time>) {
    |states| == |actions| + 1 && |times| == |actions| &&
    (exists clock :: states[0] == Init(clock)) &&
    forall i :: 0 <= i < |actions| ==> StepsTo(states[i], actions[i], times[i], states[i + 1])
  }

  ghost predicate StepsTo(db: Db, a: Action, now: Time, db': Db) {
    Lawful(db, a, now) && db' == Step(db, a, now)
  }

  // The invariant

  /** Keys come from sequences that only move forward. */
  ghost predicate KeysOk(db: Db) {
    && 1 <= db.nextMember && 1 <= db.nextThread && 1 <= db.nextPost
    && (forall i :: 0 <= i < |db.members| ==> 1 <= db.members[i].id < db.nextMember)
    && (forall i, j :: 0 <= i < j < |db.members| ==> db.members[i].id < db.members[j].id)
    && (forall i :: 0 <= i < |db.threads| ==> 1 <= db.threads[i].id < db.nextThread)
    && (forall i, j :: 0 <= i < j < |db.threads| ==> db.threads[i].id < db.threads[j].id)
    && (forall i :: 0 <= i < |db.posts| ==> 1 <= db.posts[i].id < db.nextPost)
    && (forall i, j :: 0 <= i < j < |db.posts| ==> db.posts[i].id < db.posts[j].id)
  }

  /** Foreign keys. */
  ghost predicate RefsOk(db: Db) {
    && (forall i :: 0 <= i < |db.posts| ==> HasMember(db, db.posts[i].memberId) && HasThread(db, db.posts[i].threadId))
    && (forall i :: 0 <= i < |db.threads| ==>
          HasMember(db, db.threads[i].memberId) && HasMember(db, db.threads[i].lastMemberId))
  }

  ghost predicate DatesOk(db: Db) {
    && (forall i :: 0 <= i < |db.posts| ==> db.posts[i].datePosted <= db.clock)
    && (forall i, j :: 0 <= i < j < |db.posts| ==> db.posts[i].datePosted <= db.posts[j].datePosted)
    && (forall i :: 0 <= i < |db.threads| ==> db.threads[i].datePosted <= db.clock)
    && (forall i, j :: 0 <= i < |db.posts| && 0 <= j < |db.threads| && db.posts[i].threadId == db.threads[j].id
          ==> db.threads[j].datePosted <= db.posts[i].datePosted)
  }

  /** Every counter equals the count it stands for. */
  ghost predicate CountersOk(db: Db) {
    && db.totals == Totals(|db.members|, |db.threads|, |db.posts|)
    && (forall i :: 0 <= i < |db.members| ==> MemberAgrees(db.members[i], db.threads, db.posts))
  }

  ghost predicate MemberAgrees(m: Member, threads: seq<Thread>, posts: seq<Post>) {
    m.totalPosts == Count(posts, PostBy(m.id)) && m.totalThreads == Count(threads, ThreadBy(m.id))
  }

  ghost predicate EarliestId(posts: seq<Post>, tid: int, pid: int) {
    exists i :: IsEarliest(posts, tid, i) && posts[i].id == pid
  }

  ghost predicate LatestBy(posts: seq<Post>, tid: int, author: int, date: Time) {
    exists i :: IsLatest(posts, tid, i) && posts[i].memberId == author && posts[i].datePosted == date
  }

  /** The cached columns of a thread agree with its posts; a thread may be without posts inside a transaction. */
  ghost predicate ThreadAgrees(t: Thread, posts: seq<Post>) {
    && t.posts == Count(posts, PostIn(t.id))
    && (t.posts == 0 ==> t.firstPostId == None && t.lastMemberId == t.memberId && t.dateLastPosted == t.datePosted)
    && (t.posts > 0 ==> t.firstPostId.Some? && EarliestId(posts, t.id, t.firstPostId.value) &&
                        LatestBy(posts, t.id, t.lastMemberId, t.dateLastPosted))
  }

  ghost predicate ThreadsOk(db: Db) {
    forall i :: 0 <= i < |db.threads| ==> ThreadAgrees(db.threads[i], db.posts)
  }

  /** The position of the newest post of a member in a thread, in the thread's insertion order; 0 if there is none. */
  function LastPosition(posts: seq<Post>, memberId: int, tid: int): nat {
    if |posts| == 0 then 0
    else if PostByIn(memberId, tid)(posts[|posts| - 1]) then Count(posts, PostIn(tid))
    else LastPosition(posts[..|posts| - 1], memberId, tid)
  }

  function LastDate(posts: seq<Post>, memberId: int, tid: int): Option<Time> {
    if |posts| == 0 then None
    else if PostByIn(memberId, tid)(posts[|posts| - 1]) then Some(posts[|posts| - 1].datePosted)
    else LastDate(posts[..|posts| - 1], memberId, tid)
  }

  ghost predicate PartAgrees(r: Participation, posts: seq<Post>) {
    !r.undot && r.lastViewPosts == LastPosition(posts, r.memberId, r.threadId) &&
    r.datePosted == LastDate(posts, r.memberId, r.threadId)
  }

  /** One thread_member row for each pair with a post, and no other row. */
  ghost predicate OneRowPerPair(parts: seq<Participation>, posts: seq<Post>) {
    forall m, t :: Count(parts, PairIs(m, t)) == if Count(posts, PostByIn(m, t)) > 0 then 1 else 0
  }

  ghost predicate PartsAgree(parts: seq<Participation>, posts: seq<Post>) {
    forall i :: 0 <= i < |parts| ==> PartAgrees(parts[i], posts)
  }

  ghost predicate PartsOk(db: Db) {
    OneRowPerPair(db.parts, db.posts) && PartsAgree(db.parts, db.posts)
  }

  /** The first member is the administrator, and each member has one profile. */
  ghost predicate MembersOk(db: Db) {
    && (forall i :: 0 <= i < |db.members| ==>
          db.members[i].email != "" && db.members[i].isAdmin == if i == 0 then Some(true) else None)
    && (forall i, j :: 0 <= i < j < |db.members| ==> Lower(db.members[i].email) != Lower(db.members[j].email))
    && |db.profiles| == |db.members|
    && (forall i :: 0 <= i < |db.members| ==> db.profiles[i].memberId == db.members[i].id)
  }

  /** What holds after every statement. */
  ghost predicate Agrees(db: Db) {
    KeysOk(db) && RefsOk(db) && DatesOk(db) && CountersOk(db) && ThreadsOk(db) && PartsOk(db) && MembersOk(db)
  }

  /** What holds after every transaction. */
  ghost predicate Inv(db: Db) {
    Agrees(db) && forall i :: 0 <= i < |db.threads| ==> db.threads[i].posts > 0
  }
}
