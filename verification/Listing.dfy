/** ListThreads and ListThreadPosts against what their readers expect of them. */
module Listing {
  import opened Ascii
  import opened Tables
  import opened Board
  import opened BoardProofs
  import opened Joins

  const PAGE := 100

  datatype ThreadRow = ThreadRow(
    thread: int, dateLastPosted: Time, author: Option<int>, email: Option<string>,
    last: Option<int>, lastEmail: Option<string>, subject: string, posts: int, body: Option<string>,
    canEdit: bool, lastViewPosts: int, dot: bool)

  type WithAuthor = (Thread, Option<Member>)
  type WithLast = (WithAuthor, Option<Member>)
  type WithPost = (WithLast, Option<Post>)
  type WithPart = (WithPost, Option<Participation>)

  function OnAuthor(): (Thread, Member) -> bool { (t: Thread, m: Member) => m.id == t.memberId }
  function OnLast(): (WithAuthor, Member) -> bool { (j: WithAuthor, m: Member) => m.id == j.0.lastMemberId }
  function OnFirst(): (WithLast, Post) -> bool { (j: WithLast, p: Post) => Some(p.id) == j.0.0.firstPostId }
  function OnViewer(viewer: int): (WithPost, Participation) -> bool {
    (j: WithPost, r: Participation) => r.memberId == viewer && r.threadId == j.0.0.0.id
  }

  function NotSticky(): Thread -> bool { (t: Thread) => !t.sticky }

  /** The select list. */
  function Project(j: WithPart, email: string, now: Time): ThreadRow {
    var t, m, l, tp, tm := j.0.0.0.0, j.0.0.0.1, j.0.0.1, j.0.1, j.1;
    ThreadRow(
      t.id, t.dateLastPosted,
      if m.Some? then Some(m.value.id) else None, if m.Some? then Some(m.value.email) else None,
      if l.Some? then Some(l.value.id) else None, if l.Some? then Some(l.value.email) else None,
      t.subject, t.posts, if tp.Some? then Some(tp.value.body) else None,
      m.Some? && m.value.email == email && t.datePosted >= now - EDIT_WINDOW,
      if tm.Some? then tm.value.lastViewPosts else 0,
      tm.Some? && tm.value.datePosted.Some? && !tm.value.undot)
  }

  function ProjectAll(rows: seq<WithPart>, email: string, now: Time): (r: seq<ThreadRow>)
    ensures |r| == |rows| && forall i :: 0 <= i < |r| ==> r[i] == Project(rows[i], email, now)
  {
    seq(|rows|, i requires 0 <= i < |rows| => Project(rows[i], email, now))
  }

  function FromThreads(db: Db, viewer: int): seq<WithPart> {
    LeftJoin(LeftJoin(LeftJoin(LeftJoin(db.threads, db.members, OnAuthor()), db.members, OnLast()),
                      db.posts, OnFirst()),
             db.parts, OnViewer(viewer))
  }

  function RowNotSticky(): WithPart -> bool { (j: WithPart) => !j.0.0.0.0.sticky }

  /** ListThreads before ORDER BY and LIMIT. */
  function ListThreads(db: Db, email: string, viewer: int, now: Time): seq<ThreadRow> {
    ProjectAll(Where(FromThreads(db, viewer), RowNotSticky()), email, now)
  }

  function ByDate(): ThreadRow -> int { (r: ThreadRow) => r.dateLastPosted }

  predicate IsViewer(db: Db, email: string, id: int) {
    exists i :: 0 <= i < |db.members| && db.members[i].id == id && db.members[i].email == email
  }

  /** What one line of the front page should say about a thread, in terms of the rows alone. */
  ghost predicate Describes(db: Db, viewer: int, now: Time, t: Thread, row: ThreadRow) {
    && row.thread == t.id && row.subject == t.subject
    && row.posts == Count(db.posts, PostIn(t.id))
    && row.author == Some(t.memberId)
    && (exists i, k :: IsEarliest(db.posts, t.id, i) && IsLatest(db.posts, t.id, k) &&
          row.body == Some(db.posts[i].body) && row.last == Some(db.posts[k].memberId) &&
          row.dateLastPosted == db.posts[k].datePosted)
    && (exists a :: 0 <= a < |db.members| && db.members[a].id == t.memberId && row.email == Some(db.members[a].email))
    && (exists l :: 0 <= l < |db.members| && Some(db.members[l].id) == row.last &&
                    row.lastEmail == Some(db.members[l].email))
    && (row.canEdit <==> t.memberId == viewer && t.datePosted >= now - 900_000_000)
    && (row.dot <==> Count(db.posts, PostByIn(viewer, t.id)) > 0)
    && row.lastViewPosts == LastPosition(db.posts, viewer, t.id)
  }

  lemma AtMostOneMember(db: Db, id: int)
    requires KeysOk(db)
    ensures Count(db.members, MemberHasId(id)) <= 1
  {
    CountPositive(db.members, MemberHasId(id));
    if Count(db.members, MemberHasId(id)) > 0 {
      var at :| 0 <= at < |db.members| && MemberHasId(id)(db.members[at]);
      CountUnique(db.members, MemberHasId(id), at);
    }
  }

  function PostHasId(id: Option<int>): Post -> bool { (p: Post) => Some(p.id) == id }

  lemma AtMostOnePost(db: Db, id: Option<int>)
    requires KeysOk(db)
    ensures Count(db.posts, PostHasId(id)) <= 1
  {
    CountPositive(db.posts, PostHasId(id));
    if Count(db.posts, PostHasId(id)) > 0 {
      var at :| 0 <= at < |db.posts| && PostHasId(id)(db.posts[at]);
      CountUnique(db.posts, PostHasId(id), at);
    }
  }

  /** The joined row of a thread that is not sticky. */
  ghost predicate JoinedRow(db: Db, viewer: int, t: Thread, j: WithPart) {
    && Joined(j.0.0.0, t, db.members, OnAuthor())
    && Joined(j.0.0, j.0.0.0, db.members, OnLast())
    && Joined(j.0, j.0.0, db.posts, OnFirst())
    && Joined(j, j.0, db.parts, OnViewer(viewer))
  }

  lemma JoinsKeepThreads(db: Db, viewer: int)
    requires KeysOk(db) && OneRowPerPair(db.parts, db.posts)
    ensures var rows := FromThreads(db, viewer);
            |rows| == |db.threads| && forall i :: 0 <= i < |rows| ==> JoinedRow(db, viewer, db.threads[i], rows[i])
  {
    hide Joined, LeftJoin, Count, KeysOk;
    var threads := db.threads;
    var j1 := LeftJoin(threads, db.members, OnAuthor());
    var j2 := LeftJoin(j1, db.members, OnLast());
    var j3 := LeftJoin(j2, db.posts, OnFirst());
    forall i | 0 <= i < |threads| ensures Count(db.members, Matching(OnAuthor(), threads[i])) <= 1 {
      AtMostOneMember(db, threads[i].memberId);
      SameCondition(db.members, Matching(OnAuthor(), threads[i]), MemberHasId(threads[i].memberId));
    }
    LeftJoinUnique(threads, db.members, OnAuthor());
    forall i | 0 <= i < |j1| ensures Count(db.members, Matching(OnLast(), j1[i])) <= 1 {
      AtMostOneMember(db, j1[i].0.lastMemberId);
      SameCondition(db.members, Matching(OnLast(), j1[i]), MemberHasId(j1[i].0.lastMemberId));
    }
    LeftJoinUnique(j1, db.members, OnLast());
    forall i | 0 <= i < |j2| ensures Count(db.posts, Matching(OnFirst(), j2[i])) <= 1 {
      AtMostOnePost(db, j2[i].0.0.firstPostId);
      SameCondition(db.posts, Matching(OnFirst(), j2[i]), PostHasId(j2[i].0.0.firstPostId));
    }
    LeftJoinUnique(j2, db.posts, OnFirst());
    forall i | 0 <= i < |j3| ensures Count(db.parts, Matching(OnViewer(viewer), j3[i])) <= 1 {
      SameCondition(db.parts, Matching(OnViewer(viewer), j3[i]), PairIs(viewer, j3[i].0.0.0.id));
    }
    LeftJoinUnique(j3, db.parts, OnViewer(viewer));
    var rows := LeftJoin(j3, db.parts, OnViewer(viewer));
    forall i | 0 <= i < |threads| ensures JoinedRow(db, viewer, threads[i], rows[i]) {
      JoinedLeft(db, viewer, j1, j2, j3, rows, i);
    }
  }

  lemma JoinedLeft(db: Db, viewer: int, j1: seq<WithAuthor>, j2: seq<WithLast>, j3: seq<WithPost>, rows: seq<WithPart>,
                   i: int)
    requires 0 <= i < |j1| && i < |j2| && i < |j3| && i < |rows|
    requires Joined(j2[i], j1[i], db.members, OnLast()) && Joined(j3[i], j2[i], db.posts, OnFirst())
    requires Joined(rows[i], j3[i], db.parts, OnViewer(viewer))
    ensures rows[i].0 == j3[i] && j3[i].0 == j2[i] && j2[i].0 == j1[i]
  {
  }

  /** A joined row says about its thread what it should. */
  lemma ProjectDescribes(db: Db, email: string, viewer: int, now: Time, t: Thread, j: WithPart)
    requires Inv(db) && IsViewer(db, email, viewer) && t in db.threads && JoinedRow(db, viewer, t, j)
    ensures Describes(db, viewer, now, t, Project(j, email, now))
  {
    hide KeysOk, RefsOk, DatesOk, CountersOk, PartsOk, MembersOk, IsViewer;
    assert ThreadAgrees(t, db.posts) && t.posts > 0 by {
      var at :| 0 <= at < |db.threads| && db.threads[at] == t;
    }
    hide ThreadsOk;
    var first :| IsEarliest(db.posts, t.id, first) && db.posts[first].id == t.firstPostId.value;
    var last :| IsLatest(db.posts, t.id, last) && db.posts[last].memberId == t.lastMemberId &&
                db.posts[last].datePosted == t.dateLastPosted;
    ProjectMembers(db, email, viewer, now, t, j);
    ProjectViewer(db, email, viewer, now, t, j);
    assert j.0.0.0.0 == t && Joined(j.0, j.0.0, db.posts, OnFirst());
    ProjectBody(db, t, j, first);
  }

  lemma ProjectBody(db: Db, t: Thread, j: WithPart, first: int)
    requires KeysOk(db) && j.0.0.0.0 == t && IsEarliest(db.posts, t.id, first) &&
               t.firstPostId == Some(db.posts[first].id)
    requires Joined(j.0, j.0.0, db.posts, OnFirst())
    ensures j.0.1 == Some(db.posts[first])
  {
    assert db.posts[first] in db.posts && OnFirst()(j.0.0, db.posts[first]);
  }

  /** Emails are unique, so comparing emails is comparing ids. */
  lemma EmailIsId(db: Db, email: string, viewer: int, m: Member)
    requires KeysOk(db) && MembersOk(db) && IsViewer(db, email, viewer) && m in db.members
    ensures m.email == email <==> m.id == viewer
  {
    var v :| 0 <= v < |db.members| && db.members[v].id == viewer && db.members[v].email == email;
    var k :| 0 <= k < |db.members| && db.members[k] == m;
    if k < v { assert Lower(db.members[k].email) != Lower(db.members[v].email); }
    if v < k { assert Lower(db.members[v].email) != Lower(db.members[k].email); }
  }

  lemma ProjectMembers(db: Db, email: string, viewer: int, now: Time, t: Thread, j: WithPart)
    requires KeysOk(db) && RefsOk(db) && MembersOk(db) && IsViewer(db, email, viewer) && t in db.threads
    requires JoinedRow(db, viewer, t, j)
    ensures Project(j, email, now).author == Some(t.memberId) && Project(j, email, now).last == Some(t.lastMemberId)
    ensures var row := Project(j, email, now);
            exists a :: 0 <= a < |db.members| && db.members[a].id == t.memberId &&
                        row.email == Some(db.members[a].email)
    ensures var row := Project(j, email, now);
            exists l :: 0 <= l < |db.members| && Some(db.members[l].id) == row.last &&
                        row.lastEmail == Some(db.members[l].email)
    ensures Project(j, email, now).canEdit <==> t.memberId == viewer && t.datePosted >= now - 900_000_000
  {
    hide KeysOk, MembersOk, IsViewer;
    assert HasMember(db, t.memberId) && HasMember(db, t.lastMemberId) by {
      var at :| 0 <= at < |db.threads| && db.threads[at] == t;
    }
    hide RefsOk;
    var a :| 0 <= a < |db.members| && db.members[a].id == t.memberId;
    var l :| 0 <= l < |db.members| && db.members[l].id == t.lastMemberId;
    assert db.members[a] in db.members && OnAuthor()(t, db.members[a]);
    assert db.members[l] in db.members && OnLast()(j.0.0.0, db.members[l]);
    EmailIsId(db, email, viewer, j.0.0.0.1.value);
    var a' :| 0 <= a' < |db.members| && db.members[a'] == j.0.0.0.1.value;
    var l' :| 0 <= l' < |db.members| && db.members[l'] == j.0.0.1.value;
  }

  lemma ProjectViewer(db: Db, email: string, viewer: int, now: Time, t: Thread, j: WithPart)
    requires PartsOk(db) && JoinedRow(db, viewer, t, j)
    ensures Project(j, email, now).dot <==> Count(db.posts, PostByIn(viewer, t.id)) > 0
    ensures Project(j, email, now).lastViewPosts == LastPosition(db.posts, viewer, t.id)
  {
    CountPositive(db.parts, PairIs(viewer, t.id));
    LastPositionBounds(db.posts, viewer, t.id);
    LastDateSome(db.posts, viewer, t.id);
    match j.1
    case Some(r) =>
      var i :| 0 <= i < |db.parts| && db.parts[i] == r;
      assert PartAgrees(db.parts[i], db.posts);
      assert PairIs(viewer, t.id)(db.parts[i]);
    case None =>
      forall i | 0 <= i < |db.parts| ensures !PairIs(viewer, t.id)(db.parts[i]) {
        assert !OnViewer(viewer)(j.0, db.parts[i]);
      }
  }

  lemma {:induction false} LastDateSome(posts: seq<Post>, m: int, tid: int)
    ensures LastDate(posts, m, tid).Some? <==> Count(posts, PostByIn(m, tid)) > 0
  {
    if |posts| > 0 {
      LastDateSome(posts[..|posts| - 1], m, tid);
    }
  }

  lemma JoinedThread(db: Db, viewer: int, t: Thread, j: WithPart)
    requires JoinedRow(db, viewer, t, j)
    ensures j.0.0.0.0 == t
  {
  }

  /** The rows that pass the filter are the joined rows of the threads that do. */
  lemma FilteredRows(db: Db, viewer: int)
    requires KeysOk(db) && OneRowPerPair(db.parts, db.posts)
    ensures var threads, rows := Where(db.threads, NotSticky()), Where(FromThreads(db, viewer), RowNotSticky());
            |rows| == |threads| && forall i :: 0 <= i < |rows| ==> JoinedRow(db, viewer, threads[i], rows[i])
  {
    hide KeysOk, OneRowPerPair, JoinedRow, FromThreads;
    JoinsKeepThreads(db, viewer);
    var rows := FromThreads(db, viewer);
    forall i | 0 <= i < |rows| ensures NotSticky()(db.threads[i]) == RowNotSticky()(rows[i]) {
      JoinedThread(db, viewer, db.threads[i], rows[i]);
    }
    WhereAligned(db.threads, rows, NotSticky(), RowNotSticky(),
                 (t: Thread, j: WithPart) => JoinedRow(db, viewer, t, j));
  }

  /** One line per thread that is not sticky, in table order, each saying what it should. */
  lemma ListThreadsIsExact(db: Db, email: string, viewer: int, now: Time)
    requires Inv(db) && IsViewer(db, email, viewer)
    ensures var threads, rows := Where(db.threads, NotSticky()), ListThreads(db, email, viewer, now);
            |rows| == |threads| && forall i :: 0 <= i < |rows| ==> Describes(db, viewer, now, threads[i], rows[i])
    ensures forall t :: t in Where(db.threads, NotSticky()) <==> t in db.threads && !t.sticky
  {
    WhereIs(db.threads, NotSticky());
    hide KeysOk, RefsOk, DatesOk, CountersOk, ThreadsOk, MembersOk, OneRowPerPair, PartsAgree, FromThreads,
      Describes, JoinedRow, Project;
    FilteredRows(db, viewer);
    var threads, joined := Where(db.threads, NotSticky()), Where(FromThreads(db, viewer), RowNotSticky());
    var rows := ListThreads(db, email, viewer, now);
    forall i | 0 <= i < |rows| ensures Describes(db, viewer, now, threads[i], rows[i]) {
      ProjectDescribes(db, email, viewer, now, threads[i], joined[i]);
    }
  }

  function IdBefore(): (Thread, Thread) -> bool { (t: Thread, u: Thread) => t.id < u.id }

  ghost predicate Listed(db: Db, viewer: int, now: Time, row: ThreadRow) {
    exists t :: t in db.threads && !t.sticky && Describes(db, viewer, now, t, row)
  }

  /**
   Whatever rows the server answers with: they are different threads that are not
   sticky, newest first, and a thread that is not sticky is missing only if 100
   threads that are at least as recent are listed.
   */
  lemma FrontPage(db: Db, email: string, viewer: int, now: Time, rows: seq<ThreadRow>, at: seq<nat>)
    requires TopBy(rows, ByDate(), PAGE, at)
    requires Inv(db) && IsViewer(db, email, viewer) && rows == ListThreads(db, email, viewer, now)
    ensures |at| <= 100
    ensures forall k :: 0 <= k < |at| ==> Listed(db, viewer, now, rows[at[k]])
    ensures forall k, l :: 0 <= k < l < |at| ==>
                             rows[at[k]].thread != rows[at[l]].thread &&
                             rows[at[l]].dateLastPosted <= rows[at[k]].dateLastPosted
    ensures forall t :: t in db.threads && !t.sticky ==>
                          (exists k :: 0 <= k < |at| && rows[at[k]].thread == t.id) ||
                          (|at| == 100 && forall k :: 0 <= k < |at| ==> t.dateLastPosted <= rows[at[k]].dateLastPosted)
  {
    hide RefsOk, DatesOk, CountersOk, ThreadsOk, PartsOk, MembersOk, IsViewer, ListThreads, Describes, Count;
    ListThreadsIsExact(db, email, viewer, now);
    WhereKeepsOrder(db.threads, NotSticky(), IdBefore());
    hide KeysOk;
    var threads := Where(db.threads, NotSticky());
    forall k | 0 <= k < |at| ensures Listed(db, viewer, now, rows[at[k]]) {
      assert threads[at[k]] in db.threads && NotSticky()(threads[at[k]]);
      assert Describes(db, viewer, now, threads[at[k]], rows[at[k]]);
    }
    hide Listed;
    forall i | 0 <= i < |rows| ensures rows[i].thread == threads[i].id {
      RowId(db, viewer, now, threads[i], rows[i]);
    }
    DistinctRows(threads, rows, at);
    forall t | t in db.threads && !t.sticky
      ensures (exists k :: 0 <= k < |at| && rows[at[k]].thread == t.id) ||
              (|at| == PAGE && forall k :: 0 <= k < |at| ==> t.dateLastPosted <= rows[at[k]].dateLastPosted)
    {
      assert NotSticky()(t);
      Placed(db, viewer, now, threads, rows, at, t);
    }
  }

  lemma RowId(db: Db, viewer: int, now: Time, t: Thread, row: ThreadRow)
    requires Describes(db, viewer, now, t, row)
    ensures row.thread == t.id
  {
  }

  lemma DistinctRows(threads: seq<Thread>, rows: seq<ThreadRow>, at: seq<nat>)
    requires |rows| == |threads| && forall i :: 0 <= i < |rows| ==> rows[i].thread == threads[i].id
    requires forall i, j :: 0 <= i < j < |threads| ==> threads[i].id < threads[j].id
    requires TopBy(rows, ByDate(), PAGE, at)
    ensures forall k, l :: 0 <= k < l < |at| ==>
                             rows[at[k]].thread != rows[at[l]].thread &&
                             rows[at[l]].dateLastPosted <= rows[at[k]].dateLastPosted
  {
    forall k, l | 0 <= k < l < |at|
      ensures rows[at[k]].thread != rows[at[l]].thread && rows[at[l]].dateLastPosted <= rows[at[k]].dateLastPosted
    {
      assert at[k] != at[l] && ByDate()(rows[at[l]]) <= ByDate()(rows[at[k]]);
      if at[k] < at[l] {
        assert threads[at[k]].id < threads[at[l]].id;
      } else {
        assert threads[at[l]].id < threads[at[k]].id;
      }
    }
  }

  lemma Placed(db: Db, viewer: int, now: Time, threads: seq<Thread>, rows: seq<ThreadRow>, at: seq<nat>, t: Thread)
    requires ThreadsOk(db) && t in db.threads && t in threads && |rows| == |threads|
    requires forall i :: 0 <= i < |rows| ==> Describes(db, viewer, now, threads[i], rows[i])
    requires forall i :: 0 <= i < |db.threads| ==> db.threads[i].posts > 0
    requires TopBy(rows, ByDate(), PAGE, at)
    ensures (exists k :: 0 <= k < |at| && rows[at[k]].thread == t.id) ||
            (|at| == PAGE && forall k :: 0 <= k < |at| ==> t.dateLastPosted <= rows[at[k]].dateLastPosted)
  {
    var i :| 0 <= i < |threads| && threads[i] == t;
    assert Describes(db, viewer, now, threads[i], rows[i]);
    if i in at {
      var k :| 0 <= k < |at| && at[k] == i;
    } else {
      if |rows| < PAGE {
        DistinctFill(at, |rows|, i);
      }
      var n :| 0 <= n < |db.threads| && db.threads[n] == t;
      assert ThreadAgrees(db.threads[n], db.posts);
      var x :| IsLatest(db.posts, t.id, x) && rows[i].dateLastPosted == db.posts[x].datePosted;
      var y :| IsLatest(db.posts, t.id, y) && t.dateLastPosted == db.posts[y].datePosted;
      assert ByDate()(rows[i]) == t.dateLastPosted;
    }
  }

  // Edit links

  /** The edit link of a thread is shown exactly when using it changes the subject. */
  lemma ThreadLinkWorks(db: Db, viewer: int, now: Time, t: int, row: ThreadRow, subject: string)
    requires db.clock <= now && 0 <= t < |db.threads| && subject != "" && subject != db.threads[t].subject
    requires Describes(db, viewer, now, db.threads[t], row)
    ensures row.canEdit <==>
              Step(db, Action.UpdateThread(viewer, db.threads[t].id, subject), now).threads[t].subject == subject
  {
    assert row.canEdit <==> db.threads[t].memberId == viewer && db.threads[t].datePosted >= now - 900_000_000;
    hide Describes;
  }

  type PostWithAuthor = (Post, Option<Member>)
  type PostWithThread = (PostWithAuthor, Option<Thread>)

  /** `isAdmin` is selected without COALESCE. */
  datatype PostRow = PostRow(
    post: int, datePosted: Time, author: Option<int>, email: Option<string>, body: string,
    subject: Option<string>, isAdmin: Option<bool>, canEdit: bool)

  function OnPoster(): (Post, Member) -> bool { (p: Post, m: Member) => m.id == p.memberId }
  function OnThread(): (PostWithAuthor, Thread) -> bool { (j: PostWithAuthor, t: Thread) => t.id == j.0.threadId }

  function ProjectPost(j: PostWithThread, email: string, now: Time): PostRow {
    var p, m, t := j.0.0, j.0.1, j.1;
    PostRow(p.id, p.datePosted,
            if m.Some? then Some(m.value.id) else None, if m.Some? then Some(m.value.email) else None,
            p.body, if t.Some? then Some(t.value.subject) else None, if m.Some? then m.value.isAdmin else None,
            m.Some? && m.value.email == email && t.Some? && t.value.datePosted >= now - EDIT_WINDOW)
  }

  function FromPosts(db: Db): seq<PostWithThread> {
    LeftJoin(LeftJoin(db.posts, db.members, OnPoster()), db.threads, OnThread())
  }

  function RowIn(tid: int): PostWithThread -> bool { (j: PostWithThread) => j.0.0.threadId == tid }

  /** ListThreadPosts before ORDER BY. */
  function ListThreadPosts(db: Db, tid: int, email: string, now: Time): seq<PostRow> {
    var rows := Where(FromPosts(db), RowIn(tid));
    seq(|rows|, i requires 0 <= i < |rows| => ProjectPost(rows[i], email, now))
  }

  lemma AtMostOneThread(db: Db, id: int)
    requires KeysOk(db)
    ensures Count(db.threads, ThreadHasId(id)) <= 1
  {
    CountPositive(db.threads, ThreadHasId(id));
    if Count(db.threads, ThreadHasId(id)) > 0 {
      var at :| 0 <= at < |db.threads| && ThreadHasId(id)(db.threads[at]);
      CountUnique(db.threads, ThreadHasId(id), at);
    }
  }

  /**
   The link tests the date of the thread, so it is shown for the viewer's own posts
   while the thread's window is open. The administrator flag is true for the first
   member and NULL, never false, for everybody else.
   */
  ghost predicate DescribesPost(db: Db, viewer: int, now: Time, p: Post, row: PostRow) {
    && row.post == p.id && row.datePosted == p.datePosted && row.body == p.body && row.author == Some(p.memberId)
    && (exists a :: 0 <= a < |db.members| && db.members[a].id == p.memberId && row.email == Some(db.members[a].email))
    && (row.isAdmin == if |db.members| > 0 && db.members[0].id == p.memberId then Some(true) else None)
    && exists t :: 0 <= t < |db.threads| && db.threads[t].id == p.threadId &&
                   row.subject == Some(db.threads[t].subject) &&
                   (row.canEdit <==> p.memberId == viewer && db.threads[t].datePosted >= now - 900_000_000)
  }

  lemma FlagOf(db: Db, m: Member)
    requires KeysOk(db) && MembersOk(db) && m in db.members
    ensures m.isAdmin == if db.members[0].id == m.id then Some(true) else None
  {
    var k :| 0 <= k < |db.members| && db.members[k] == m;
  }

  ghost predicate JoinedPost(db: Db, p: Post, j: PostWithThread) {
    Joined(j.0, p, db.members, OnPoster()) && Joined(j, j.0, db.threads, OnThread())
  }

  lemma ProjectPostDescribes(db: Db, email: string, viewer: int, now: Time, p: Post, j: PostWithThread)
    requires KeysOk(db) && RefsOk(db) && MembersOk(db) && IsViewer(db, email, viewer) && p in db.posts
    requires JoinedPost(db, p, j)
    ensures DescribesPost(db, viewer, now, p, ProjectPost(j, email, now))
  {
    hide KeysOk, MembersOk, IsViewer;
    assert HasMember(db, p.memberId) && HasThread(db, p.threadId) by {
      var at :| 0 <= at < |db.posts| && db.posts[at] == p;
    }
    hide RefsOk;
    var a :| 0 <= a < |db.members| && db.members[a].id == p.memberId;
    var t :| 0 <= t < |db.threads| && db.threads[t].id == p.threadId;
    assert db.members[a] in db.members && OnPoster()(p, db.members[a]);
    assert db.threads[t] in db.threads && OnThread()(j.0, db.threads[t]);
    EmailIsId(db, email, viewer, j.0.1.value);
    FlagOf(db, j.0.1.value);
    var n :| 0 <= n < |db.threads| && db.threads[n] == j.1.value;
    var a' :| 0 <= a' < |db.members| && db.members[a'] == j.0.1.value;
  }

  lemma JoinsKeepPosts(db: Db)
    requires KeysOk(db)
    ensures |FromPosts(db)| == |db.posts| &&
            forall i :: 0 <= i < |db.posts| ==> JoinedPost(db, db.posts[i], FromPosts(db)[i])
  {
    hide LeftJoin, Joined, Count;
    var posts := db.posts;
    forall i | 0 <= i < |posts| ensures Count(db.members, Matching(OnPoster(), posts[i])) <= 1 {
      AtMostOneMember(db, posts[i].memberId);
      SameCondition(db.members, Matching(OnPoster(), posts[i]), MemberHasId(posts[i].memberId));
    }
    LeftJoinUnique(posts, db.members, OnPoster());
    var j1 := LeftJoin(posts, db.members, OnPoster());
    forall i | 0 <= i < |j1| ensures Count(db.threads, Matching(OnThread(), j1[i])) <= 1 {
      AtMostOneThread(db, j1[i].0.threadId);
      SameCondition(db.threads, Matching(OnThread(), j1[i]), ThreadHasId(j1[i].0.threadId));
    }
    LeftJoinUnique(j1, db.threads, OnThread());
    hide KeysOk;
    var joined := LeftJoin(j1, db.threads, OnThread());
    forall i | 0 <= i < |posts| ensures JoinedPost(db, posts[i], joined[i]) {
      LeftOf(joined[i], j1[i], db.threads);
    }
  }

  lemma JoinedFrom(db: Db, p: Post, j: PostWithThread)
    requires JoinedPost(db, p, j)
    ensures j.0.0 == p
  {
  }

  /** The rows of a thread page are the joined rows of the posts of the thread. */
  lemma FilteredPosts(db: Db, tid: int)
    requires KeysOk(db)
    ensures var posts, rows := Where(db.posts, PostIn(tid)), Where(FromPosts(db), RowIn(tid));
            |rows| == |posts| && forall i :: 0 <= i < |rows| ==> JoinedPost(db, posts[i], rows[i])
  {
    hide KeysOk, FromPosts, JoinedPost;
    JoinsKeepPosts(db);
    forall i | 0 <= i < |db.posts| ensures PostIn(tid)(db.posts[i]) == RowIn(tid)(FromPosts(db)[i]) {
      JoinedFrom(db, db.posts[i], FromPosts(db)[i]);
    }
    WhereAligned(db.posts, FromPosts(db), PostIn(tid), RowIn(tid),
                 (p: Post, j: PostWithThread) => JoinedPost(db, p, j));
  }

  /** A thread page has one row per post of the thread. */
  lemma ListThreadPostsIsExact(db: Db, tid: int, email: string, viewer: int, now: Time)
    requires Inv(db) && IsViewer(db, email, viewer)
    ensures var posts, rows := Where(db.posts, PostIn(tid)), ListThreadPosts(db, tid, email, now);
            |rows| == |posts| && forall i :: 0 <= i < |rows| ==> DescribesPost(db, viewer, now, posts[i], rows[i])
    ensures forall p :: p in Where(db.posts, PostIn(tid)) <==> p in db.posts && p.threadId == tid
  {
    WhereIs(db.posts, PostIn(tid));
    hide RefsOk, KeysOk, DatesOk, CountersOk, ThreadsOk, PartsOk, MembersOk, FromPosts, JoinedPost, DescribesPost;
    FilteredPosts(db, tid);
    var posts, joined := Where(db.posts, PostIn(tid)), Where(FromPosts(db), RowIn(tid));
    var rows := ListThreadPosts(db, tid, email, now);
    forall i | 0 <= i < |rows| ensures DescribesPost(db, viewer, now, posts[i], rows[i]) {
      ProjectPostDescribes(db, email, viewer, now, posts[i], joined[i]);
    }
  }

  function NotLater(): (Post, Post) -> bool { (p: Post, q: Post) => p.datePosted <= q.datePosted }

  /** Table order is an order by date, so ORDER BY date_posted ASC may leave it as it is. */
  lemma ListThreadPostsInOrder(db: Db, tid: int, email: string, now: Time)
    requires KeysOk(db) && DatesOk(db)
    ensures var rows := ListThreadPosts(db, tid, email, now);
            forall i, j :: 0 <= i < j < |rows| ==> rows[i].datePosted <= rows[j].datePosted
  {
    assert InOrder(db.posts, NotLater());
    hide KeysOk, DatesOk, FromPosts, JoinedPost;
    FilteredPosts(db, tid);
    WhereKeepsOrder(db.posts, PostIn(tid), NotLater());
    var posts, joined := Where(db.posts, PostIn(tid)), Where(FromPosts(db), RowIn(tid));
    var rows := ListThreadPosts(db, tid, email, now);
    forall i, j | 0 <= i < j < |rows| ensures rows[i].datePosted <= rows[j].datePosted {
      JoinedFrom(db, posts[i], joined[i]);
      JoinedFrom(db, posts[j], joined[j]);
      assert NotLater()(posts[i], posts[j]);
    }
  }

  lemma LeftOf(j: PostWithThread, l: PostWithAuthor, threads: seq<Thread>)
    requires Joined(j, l, threads, OnThread())
    ensures j.0 == l
  {
  }

  /**
   An edit link on a post always works, because no post is older than its thread.
   It is withheld from an edit that would work exactly when the thread's window
   has closed and the post's has not.
   */
  lemma PostLinkWorks(db: Db, viewer: int, now: Time, p: int, row: PostRow, body: string)
    requires db.clock <= now && 0 <= p < |db.posts| && body != db.posts[p].body
    requires DatesOk(db) && DescribesPost(db, viewer, now, db.posts[p], row)
    ensures var works := Step(db, UpdateThreadPost(viewer, db.posts[p].id, body), now).posts[p].body == body;
            (row.canEdit ==> works) &&
            exists t :: 0 <= t < |db.threads| && db.threads[t].id == db.posts[p].threadId &&
                        (works && !row.canEdit <==>
                           db.posts[p].memberId == viewer &&
                           db.threads[t].datePosted < now - 900_000_000 <= db.posts[p].datePosted)
  {
    var t :| 0 <= t < |db.threads| && db.threads[t].id == db.posts[p].threadId &&
             row.subject == Some(db.threads[t].subject) &&
             (row.canEdit <==> db.posts[p].memberId == viewer && db.threads[t].datePosted >= now - 900_000_000);
  }
}
