/** Every transaction keeps the cached columns in agreement with the rows. */
module BoardProofs {
  import opened Tables
  import opened Board

  lemma {:induction false} LastPositionBounds(posts: seq<Post>, m: int, tid: int)
    ensures LastPosition(posts, m, tid) <= Count(posts, PostIn(tid))
    ensures LastPosition(posts, m, tid) > 0 <==> Count(posts, PostByIn(m, tid)) > 0
  {
    if |posts| > 0 {
      LastPositionBounds(posts[..|posts| - 1], m, tid);
    }
  }

  /** LastPosition is what its name says: it counts the posts of the thread up to the member's newest one. */
  lemma {:induction false} LastPositionIsNewest(posts: seq<Post>, m: int, tid: int)
    requires Count(posts, PostByIn(m, tid)) > 0
    ensures exists at :: IsNewest(posts, m, tid, at) &&
                         LastPosition(posts, m, tid) == Count(posts[..at + 1], PostIn(tid)) &&
                         LastDate(posts, m, tid) == Some(posts[at].datePosted)
  {
    var n := |posts| - 1;
    if PostByIn(m, tid)(posts[n]) {
      assert posts[..n + 1] == posts;
      assert IsNewest(posts, m, tid, n);
    } else {
      LastPositionIsNewest(posts[..n], m, tid);
      var at :| IsNewest(posts[..n], m, tid, at) &&
                LastPosition(posts[..n], m, tid) == Count(posts[..n][..at + 1], PostIn(tid)) &&
                LastDate(posts[..n], m, tid) == Some(posts[..n][at].datePosted);
      assert posts[..n][..at + 1] == posts[..at + 1];
      assert IsNewest(posts, m, tid, at);
    }
  }

  /** Row `at` is the member's post in the thread that was inserted last. */
  predicate IsNewest(posts: seq<Post>, m: int, tid: int, at: int) {
    0 <= at < |posts| && PostByIn(m, tid)(posts[at]) &&
    forall i :: at < i < |posts| ==> !PostByIn(m, tid)(posts[i])
  }

  lemma {:induction false} LastSkips(posts: seq<Post>, p: Post, m: int, tid: int)
    ensures LastPosition(posts + [p], m, tid) ==
            if PostByIn(m, tid)(p) then Count(posts, PostIn(tid)) + 1 else LastPosition(posts, m, tid)
    ensures LastDate(posts + [p], m, tid) ==
            if PostByIn(m, tid)(p) then Some(p.datePosted) else LastDate(posts, m, tid)
  {
    assert (posts + [p])[..|posts|] == posts;
    CountAppend(posts, p, PostIn(tid));
  }

  lemma {:induction false} ThreadPostsAt(threads: seq<Thread>, at: int)
    requires 0 <= at < |threads|
    requires forall i, j :: 0 <= i < j < |threads| ==> threads[i].id < threads[j].id
    ensures ThreadPosts(threads, threads[at].id) == threads[at].posts
  {
    if at < |threads| - 1 {
      ThreadPostsAt(threads[..|threads| - 1], at);
    }
  }

  lemma NoPostsYet(posts: seq<Post>, tid: int)
    requires forall i :: 0 <= i < |posts| ==> posts[i].threadId != tid
    ensures Count(posts, PostIn(tid)) == 0
  {
    CountPositive(posts, PostIn(tid));
  }

  /** Who is in the tables stays there if rows keep their ids. */
  lemma RowsKept(db: Db, db': Db)
    requires |db.members| <= |db'.members| && |db.threads| <= |db'.threads|
    requires forall i :: 0 <= i < |db.members| ==> db'.members[i].id == db.members[i].id
    requires forall i :: 0 <= i < |db.threads| ==> db'.threads[i].id == db.threads[i].id
    ensures forall id :: HasMember(db, id) ==> HasMember(db', id)
    ensures forall id :: HasThread(db, id) ==> HasThread(db', id)
  {
    forall id | HasMember(db, id) ensures HasMember(db', id) {
      var i :| 0 <= i < |db.members| && db.members[i].id == id;
      assert db'.members[i].id == id;
    }
    forall id | HasThread(db, id) ensures HasThread(db', id) {
      var i :| 0 <= i < |db.threads| && db.threads[i].id == id;
      assert db'.threads[i].id == id;
    }
  }

  // INSERT INTO thread, one clause of the invariant at a time

  lemma InsertThreadKeepsKeys(db: Db, author: int, subject: string, now: Time)
    requires KeysOk(db)
    ensures KeysOk(InsertThread(db, author, subject, now))
  {
  }

  /** No column of a foreign key is touched by inserting a thread of an existing member. */
  lemma InsertThreadKeepsRefs(db: Db, author: int, subject: string, now: Time)
    requires RefsOk(db) && HasMember(db, author)
    ensures RefsOk(InsertThread(db, author, subject, now))
  {
    var db' := InsertThread(db, author, subject, now);
    RowsKept(db, db');
    hide HasMember, HasThread;
  }

  lemma NewThreadIdUnused(db: Db)
    requires KeysOk(db) && RefsOk(db)
    ensures forall i :: 0 <= i < |db.posts| ==> db.posts[i].threadId != db.nextThread
  {
    forall i | 0 <= i < |db.posts| ensures db.posts[i].threadId != db.nextThread {
      assert HasThread(db, db.posts[i].threadId);
    }
  }

  lemma InsertThreadKeepsDates(db: Db, author: int, subject: string, now: Time)
    requires DatesOk(db) && db.clock <= now
    requires forall i :: 0 <= i < |db.posts| ==> db.posts[i].threadId != db.nextThread
    ensures DatesOk(InsertThread(db, author, subject, now))
  {
  }

  lemma InsertThreadKeepsCounters(db: Db, author: int, subject: string, now: Time)
    requires CountersOk(db)
    ensures CountersOk(InsertThread(db, author, subject, now))
  {
    var db' := InsertThread(db, author, subject, now);
    forall i | 0 <= i < |db'.members| ensures MemberAgrees(db'.members[i], db'.threads, db'.posts) {
      assert MemberAgrees(db.members[i], db.threads, db.posts);
      CountAppend(db.threads, db'.threads[|db.threads|], ThreadBy(db.members[i].id));
    }
  }

  lemma InsertThreadKeepsThreads(db: Db, author: int, subject: string, now: Time)
    requires ThreadsOk(db)
    requires forall i :: 0 <= i < |db.posts| ==> db.posts[i].threadId != db.nextThread
    ensures ThreadsOk(InsertThread(db, author, subject, now))
  {
    NoPostsYet(db.posts, db.nextThread);
  }

  lemma InsertThreadKeeps(db: Db, author: int, subject: string, now: Time)
    requires Agrees(db) && HasMember(db, author) && db.clock <= now
    ensures Agrees(InsertThread(db, author, subject, now))
  {
    hide KeysOk, RefsOk, DatesOk, CountersOk, ThreadsOk, MembersOk;
    NewThreadIdUnused(db);
    InsertThreadKeepsKeys(db, author, subject, now);
    InsertThreadKeepsRefs(db, author, subject, now);
    InsertThreadKeepsDates(db, author, subject, now);
    InsertThreadKeepsCounters(db, author, subject, now);
    InsertThreadKeepsThreads(db, author, subject, now);
    var db' := InsertThread(db, author, subject, now);
    assert PartsOk(db') by { assert db'.parts == db.parts && db'.posts == db.posts; }
    MembersUpdated(db, db');
  }

  lemma MembersUpdated(db: Db, db': Db)
    requires MembersOk(db) && db'.profiles == db.profiles && |db'.members| == |db.members|
    requires forall i :: 0 <= i < |db.members| ==>
                           db'.members[i].id == db.members[i].id && db'.members[i].email == db.members[i].email &&
                           db'.members[i].isAdmin == db.members[i].isAdmin
    ensures MembersOk(db')
  {
  }

  // INSERT INTO thread_post, one clause of the invariant at a time

  ghost predicate PostFits(db: Db, tid: int, author: int, body: string, pick: Pick, now: Time) {
    HasMember(db, author) && HasThread(db, tid) && db.clock <= now &&
    ValidPick(db.posts + [NewPost(db, tid, author, body, now)], tid, pick)
  }

  lemma InsertPostKeepsKeys(db: Db, tid: int, author: int, body: string, pick: Pick, now: Time)
    requires KeysOk(db) && PostFits(db, tid, author, body, pick, now)
    ensures KeysOk(InsertPost(db, tid, author, body, pick, now))
  {
  }

  lemma InsertPostKeepsRefs(db: Db, tid: int, author: int, body: string, pick: Pick, now: Time)
    requires RefsOk(db) && PostFits(db, tid, author, body, pick, now)
    ensures RefsOk(InsertPost(db, tid, author, body, pick, now))
  {
    hide Participate, ThreadPosts;
    var db' := InsertPost(db, tid, author, body, pick, now);
    RowsKept(db, db');
    hide HasMember, HasThread;
  }

  lemma InsertPostKeepsDates(db: Db, tid: int, author: int, body: string, pick: Pick, now: Time)
    requires DatesOk(db) && PostFits(db, tid, author, body, pick, now)
    ensures DatesOk(InsertPost(db, tid, author, body, pick, now))
  {
  }

  lemma InsertPostKeepsCounters(db: Db, tid: int, author: int, body: string, pick: Pick, now: Time)
    requires KeysOk(db) && CountersOk(db) && PostFits(db, tid, author, body, pick, now)
    ensures CountersOk(InsertPost(db, tid, author, body, pick, now))
  {
    var p := NewPost(db, tid, author, body, now);
    var db' := InsertPost(db, tid, author, body, pick, now);
    forall i | 0 <= i < |db'.members| ensures MemberAgrees(db'.members[i], db'.threads, db'.posts) {
      var m := db.members[i];
      assert MemberAgrees(m, db.threads, db.posts);
      CountAppend(db.posts, p, PostBy(m.id));
      CountUpdated(db.threads, db'.threads, ThreadBy(m.id));
    }
  }

  /** A thread the new post does not belong to keeps its cached columns. */
  lemma OtherThreadAgrees(t: Thread, posts: seq<Post>, p: Post)
    requires ThreadAgrees(t, posts) && p.threadId != t.id
    ensures ThreadAgrees(t, posts + [p])
  {
    CountAppend(posts, p, PostIn(t.id));
    if t.posts > 0 {
      var i :| IsEarliest(posts, t.id, i) && posts[i].id == t.firstPostId.value;
      assert IsEarliest(posts + [p], t.id, i);
      var k :| IsLatest(posts, t.id, k) && posts[k].memberId == t.lastMemberId &&
        posts[k].datePosted == t.dateLastPosted;
      assert IsLatest(posts + [p], t.id, k);
    }
  }

  lemma TouchedThreadAgrees(t: Thread, posts: seq<Post>, p: Post, pick: Pick, now: Time)
    requires ThreadAgrees(t, posts) && p.threadId == t.id && p.datePosted == now
    requires forall i :: 0 <= i < |posts| ==> posts[i].datePosted <= now
    requires ValidPick(posts + [p], t.id, pick)
    ensures ThreadAgrees(TouchThread(t, posts + [p], pick, now), posts + [p])
  {
    CountAppend(posts, p, PostIn(t.id));
    assert (posts + [p])[|posts|] == p;
  }

  lemma InsertPostKeepsThreads(db: Db, tid: int, author: int, body: string, pick: Pick, now: Time)
    requires ThreadsOk(db) && DatesOk(db) && PostFits(db, tid, author, body, pick, now)
    ensures ThreadsOk(InsertPost(db, tid, author, body, pick, now))
    ensures forall i :: 0 <= i < |db.threads| && (db.threads[i].id == tid || db.threads[i].posts > 0) ==>
                          InsertPost(db, tid, author, body, pick, now).threads[i].posts > 0
  {
    var p := NewPost(db, tid, author, body, now);
    var db' := InsertPost(db, tid, author, body, pick, now);
    forall i | 0 <= i < |db'.threads|
      ensures ThreadAgrees(db'.threads[i], db'.posts)
    {
      assert ThreadAgrees(db.threads[i], db.posts);
      if db.threads[i].id == tid {
        TouchedThreadAgrees(db.threads[i], db.posts, p, pick, now);
      } else {
        OtherThreadAgrees(db.threads[i], db.posts, p);
      }
    }
  }

  /** The rows of one pair after a post by some author in some thread. */
  lemma ParticipateCount(parts: seq<Participation>, p: Post, count: int, now: Time, m: int, t: int)
    ensures Count(Participate(parts, p.memberId, p.threadId, count, now), PairIs(m, t)) ==
            Count(parts, PairIs(m, t)) +
            (if m == p.memberId && t == p.threadId && Count(parts, PairIs(m, t)) == 0 then 1 else 0)
  {
    var parts' := Participate(parts, p.memberId, p.threadId, count, now);
    if Count(parts, PairIs(p.memberId, p.threadId)) == 0 {
      CountAppend(parts, parts'[|parts|], PairIs(m, t));
    } else {
      CountUpdated(parts, parts', PairIs(m, t));
    }
    hide Count;
  }

  lemma ParticipateKeepsOneRow(parts: seq<Participation>, posts: seq<Post>, p: Post, count: int, now: Time)
    requires OneRowPerPair(parts, posts)
    ensures OneRowPerPair(Participate(parts, p.memberId, p.threadId, count, now), posts + [p])
  {
    hide Count, Participate;
    var parts' := Participate(parts, p.memberId, p.threadId, count, now);
    forall m, t ensures Count(parts', PairIs(m, t)) == if Count(posts + [p], PostByIn(m, t)) > 0 then 1 else 0 {
      CountAppend(posts, p, PostByIn(m, t));
      ParticipateCount(parts, p, count, now, m, t);
      assert Count(parts, PairIs(m, t)) == if Count(posts, PostByIn(m, t)) > 0 then 1 else 0;
    }
  }

  /** A row the post does not belong to, or the row it belongs to. */
  lemma RowAfterPost(r: Participation, posts: seq<Post>, p: Post, count: int)
    requires count == Count(posts, PostIn(p.threadId)) + 1 && !r.undot
    ensures if PairIs(p.memberId, p.threadId)(r)
            then PartAgrees(r.(datePosted := Some(p.datePosted), lastViewPosts := count), posts + [p])
            else PartAgrees(r, posts) ==> PartAgrees(r, posts + [p])
  {
    LastSkips(posts, p, r.memberId, r.threadId);
    hide LastPosition, LastDate, Count;
  }

  lemma ParticipateAgrees(parts: seq<Participation>, posts: seq<Post>, p: Post, count: int)
    requires PartsAgree(parts, posts) && count == Count(posts, PostIn(p.threadId)) + 1
    ensures PartsAgree(Participate(parts, p.memberId, p.threadId, count, p.datePosted), posts + [p])
  {
    var parts' := Participate(parts, p.memberId, p.threadId, count, p.datePosted);
    CountPositive(parts, PairIs(p.memberId, p.threadId));
    hide LastPosition, LastDate, Count;
    forall i | 0 <= i < |parts'| ensures PartAgrees(parts'[i], posts + [p]) {
      if i < |parts| {
        assert PartAgrees(parts[i], posts);
        RowAfterPost(parts[i], posts, p, count);
      } else {
        RowAfterPost(parts'[i], posts, p, count);
      }
    }
  }

  /** The subquery on thread.posts sees the counter the trigger has just incremented. */
  lemma CounterAfterPost(db: Db, tid: int, author: int, body: string, pick: Pick, now: Time)
    requires KeysOk(db) && ThreadsOk(db) && PostFits(db, tid, author, body, pick, now)
    ensures ThreadPosts(InsertPost(db, tid, author, body, pick, now).threads, tid) == Count(db.posts, PostIn(tid)) + 1
  {
    hide Participate, IsEarliest, IsLatest;
    var db' := InsertPost(db, tid, author, body, pick, now);
    var at :| 0 <= at < |db.threads| && db.threads[at].id == tid;
    assert ThreadAgrees(db.threads[at], db.posts);
    assert db'.threads[at].posts == db.threads[at].posts + 1;
    ThreadPostsAt(db'.threads, at);
  }

  lemma InsertPostKeepsParts(db: Db, tid: int, author: int, body: string, pick: Pick, now: Time)
    requires KeysOk(db) && ThreadsOk(db) && PartsOk(db) && PostFits(db, tid, author, body, pick, now)
    ensures PartsOk(InsertPost(db, tid, author, body, pick, now))
  {
    hide PartsAgree, OneRowPerPair, Participate, KeysOk, ThreadsOk, ThreadPosts;
    CounterAfterPost(db, tid, author, body, pick, now);
    var p := NewPost(db, tid, author, body, now);
    ParticipateKeepsOneRow(db.parts, db.posts, p, Count(db.posts, PostIn(tid)) + 1, now);
    ParticipateAgrees(db.parts, db.posts, p, Count(db.posts, PostIn(tid)) + 1);
  }

  lemma InsertPostKeeps(db: Db, tid: int, author: int, body: string, pick: Pick, now: Time)
    requires Agrees(db) && PostFits(db, tid, author, body, pick, now)
    ensures Agrees(InsertPost(db, tid, author, body, pick, now))
    ensures forall i :: 0 <= i < |db.threads| && (db.threads[i].id == tid || db.threads[i].posts > 0) ==>
                          InsertPost(db, tid, author, body, pick, now).threads[i].posts > 0
  {
    hide KeysOk, RefsOk, DatesOk, CountersOk, ThreadsOk, PartsOk, MembersOk;
    InsertPostKeepsKeys(db, tid, author, body, pick, now);
    InsertPostKeepsRefs(db, tid, author, body, pick, now);
    InsertPostKeepsDates(db, tid, author, body, pick, now);
    InsertPostKeepsCounters(db, tid, author, body, pick, now);
    InsertPostKeepsThreads(db, tid, author, body, pick, now);
    InsertPostKeepsParts(db, tid, author, body, pick, now);
    MembersUpdated(db, InsertPost(db, tid, author, body, pick, now));
  }

  // The other statements

  lemma SignInKeeps(db: Db, email: string, now: Time)
    requires Agrees(db) && db.clock <= now
    ensures Agrees(SignIn(db, email, now))
  {
    hide KeysOk, CountersOk, RefsOk, DatesOk, ThreadsOk, PartsOk, MembersOk;
    var db' := SignIn(db, email, now);
    SignInKeepsRows(db, email, now);
    SignInKeepsMembers(db, email, now);
    SignInKeepsRefs(db, email, now);
    SignInKeepsCounters(db, email, now);
    assert db'.threads == db.threads && db'.posts == db.posts && db'.parts == db.parts;
    SamePosts(db, db');
  }

  lemma SignInKeepsRows(db: Db, email: string, now: Time)
    requires KeysOk(db) && DatesOk(db) && db.clock <= now
    ensures KeysOk(SignIn(db, email, now)) && DatesOk(SignIn(db, email, now))
  {
    hide FindEmail, EmailFree;
  }

  lemma SignInKeepsMembers(db: Db, email: string, now: Time)
    requires MembersOk(db)
    ensures MembersOk(SignIn(db, email, now))
  {
    hide FindEmail;
  }

  lemma SamePosts(db: Db, db': Db)
    requires ThreadsOk(db) && PartsOk(db)
    requires db'.threads == db.threads && db'.posts == db.posts && db'.parts == db.parts
    ensures ThreadsOk(db') && PartsOk(db')
  {
  }

  lemma SignInKeepsRefs(db: Db, email: string, now: Time)
    requires RefsOk(db)
    ensures RefsOk(SignIn(db, email, now))
  {
    var db' := SignIn(db, email, now);
    RowsKept(db, db');
    hide HasMember, HasThread;
  }

  /** No row can refer to a member id the sequence has not handed out yet. */
  lemma NewMemberUnused(db: Db)
    requires KeysOk(db) && RefsOk(db)
    ensures Count(db.posts, PostBy(db.nextMember)) == 0 && Count(db.threads, ThreadBy(db.nextMember)) == 0
  {
    var id := db.nextMember;
    forall i | 0 <= i < |db.posts| ensures !PostBy(id)(db.posts[i]) {
      assert HasMember(db, db.posts[i].memberId);
    }
    forall i | 0 <= i < |db.threads| ensures !ThreadBy(id)(db.threads[i]) {
      assert HasMember(db, db.threads[i].memberId);
    }
    CountPositive(db.posts, PostBy(id));
    CountPositive(db.threads, ThreadBy(id));
  }

  /** A new member starts at zero. */
  lemma SignInKeepsCounters(db: Db, email: string, now: Time)
    requires KeysOk(db) && RefsOk(db) && CountersOk(db)
    ensures CountersOk(SignIn(db, email, now))
  {
    NewMemberUnused(db);
    assert MemberAgrees(NewMember(db, email), db.threads, db.posts);
    hide EmailFree, FindEmail, KeysOk, RefsOk, MemberAgrees, NewMember;
  }

  /** The columns every clause of the invariant reads, besides subject, body and the blocked flag. */
  ghost predicate SameButText(db: Db, db': Db) {
    && db'.totals == db.totals && db'.profiles == db.profiles && db'.parts == db.parts
    && db.clock <= db'.clock && db.nextMember <= db'.nextMember && db.nextThread <= db'.nextThread
    && db.nextPost <= db'.nextPost
    && |db'.members| == |db.members| && |db'.threads| == |db.threads| && |db'.posts| == |db.posts|
    && (forall i :: 0 <= i < |db.members| ==>
          db'.members[i] == db.members[i].(isBlocked := db'.members[i].isBlocked))
    && (forall i :: 0 <= i < |db.threads| ==>
          db'.threads[i] == db.threads[i].(subject := db'.threads[i].subject))
    && SamePostsButText(db.posts, db'.posts)
  }

  ghost predicate SamePostsButText(posts: seq<Post>, posts': seq<Post>) {
    |posts'| == |posts| && forall i :: 0 <= i < |posts| ==> posts'[i] == posts[i].(body := posts'[i].body)
  }

  lemma {:induction false} LastIgnoresText(posts: seq<Post>, posts': seq<Post>, m: int, tid: int)
    requires SamePostsButText(posts, posts')
    ensures LastPosition(posts', m, tid) == LastPosition(posts, m, tid)
    ensures LastDate(posts', m, tid) == LastDate(posts, m, tid)
  {
    CountUpdated(posts, posts', PostIn(tid));
    if |posts| > 0 {
      LastIgnoresText(posts[..|posts| - 1], posts'[..|posts| - 1], m, tid);
    }
  }

  lemma ThreadIgnoresText(t: Thread, t': Thread, posts: seq<Post>, posts': seq<Post>)
    requires ThreadAgrees(t, posts) && t' == t.(subject := t'.subject) && SamePostsButText(posts, posts')
    ensures ThreadAgrees(t', posts')
  {
    CountUpdated(posts, posts', PostIn(t.id));
    if t.posts > 0 {
      var i :| IsEarliest(posts, t.id, i) && posts[i].id == t.firstPostId.value;
      assert IsEarliest(posts', t.id, i);
      var k :| IsLatest(posts, t.id, k) && posts[k].memberId == t.lastMemberId &&
        posts[k].datePosted == t.dateLastPosted;
      assert IsLatest(posts', t.id, k);
    }
  }

  lemma TextKeepsRefs(db: Db, db': Db)
    requires RefsOk(db) && SameButText(db, db')
    ensures RefsOk(db')
  {
    RowsKept(db, db');
    hide HasMember, HasThread;
  }

  lemma TextKeepsCounters(db: Db, db': Db)
    requires CountersOk(db) && SameButText(db, db')
    ensures CountersOk(db')
  {
    forall i | 0 <= i < |db'.members| ensures MemberAgrees(db'.members[i], db'.threads, db'.posts) {
      assert MemberAgrees(db.members[i], db.threads, db.posts);
      CountUpdated(db.posts, db'.posts, PostBy(db.members[i].id));
      CountUpdated(db.threads, db'.threads, ThreadBy(db.members[i].id));
    }
  }

  lemma TextKeepsParts(db: Db, db': Db)
    requires PartsOk(db) && SameButText(db, db')
    ensures PartsOk(db')
  {
    forall m, t ensures Count(db'.posts, PostByIn(m, t)) == Count(db.posts, PostByIn(m, t)) {
      CountUpdated(db.posts, db'.posts, PostByIn(m, t));
    }
    forall i | 0 <= i < |db.parts| ensures PartAgrees(db.parts[i], db'.posts) {
      LastIgnoresText(db.posts, db'.posts, db.parts[i].memberId, db.parts[i].threadId);
      assert PartAgrees(db.parts[i], db.posts);
    }
  }

  lemma TextKeepsThreads(db: Db, db': Db)
    requires ThreadsOk(db) && SameButText(db, db')
    ensures ThreadsOk(db')
  {
    forall i | 0 <= i < |db'.threads| ensures ThreadAgrees(db'.threads[i], db'.posts) {
      assert ThreadAgrees(db.threads[i], db.posts);
      ThreadIgnoresText(db.threads[i], db'.threads[i], db.posts, db'.posts);
    }
  }

  lemma TextKeeps(db: Db, db': Db)
    requires Agrees(db) && SameButText(db, db')
    ensures Agrees(db')
  {
    hide RefsOk, CountersOk, PartsOk, ThreadsOk;
    TextKeepsRefs(db, db');
    TextKeepsCounters(db, db');
    TextKeepsParts(db, db');
    TextKeepsThreads(db, db');
  }

  // Transactions and runs

  lemma NewThreadKeeps(db: Db, author: int, subject: string, body: string, pick: Pick, now: Time)
    requires Inv(db) && Lawful(db, Action.NewThread(author, subject, body, pick), now)
    requires NewThreadAccepted(db, author, subject)
    ensures Inv(Step(db, Action.NewThread(author, subject, body, pick), now))
  {
    hide RefsOk, DatesOk, CountersOk, PartsOk, ThreadsOk, MembersOk, IsEarliest, IsLatest;
    InsertThreadKeeps(db, author, subject, now);
    var mid := InsertThread(db, author, subject, now);
    MemberStays(db, author, subject, now);
    assert mid.threads[|db.threads|].id == db.nextThread;
    InsertPostKeeps(mid, db.nextThread, author, body, pick, now);
  }

  lemma MemberStays(db: Db, author: int, subject: string, now: Time)
    requires HasMember(db, author)
    ensures HasMember(InsertThread(db, author, subject, now), author)
  {
    var i :| 0 <= i < |db.members| && db.members[i].id == author;
    assert InsertThread(db, author, subject, now).members[i].id == author;
  }

  lemma ReplyKeeps(db: Db, author: int, tid: int, body: string, pick: Pick, now: Time)
    requires Inv(db) && Lawful(db, Action.Reply(author, tid, body, pick), now)
    ensures Inv(Step(db, Action.Reply(author, tid, body, pick), now))
  {
    hide RefsOk, DatesOk, CountersOk, PartsOk, ThreadsOk, MembersOk, IsEarliest, IsLatest;
    if ReplyAccepted(db, author, tid) {
      InsertPostKeeps(db, tid, author, body, pick, now);
    } else {
      TextOnly(db, db.(nextPost := db.nextPost + 1, clock := now));
    }
  }

  lemma TextOnly(db: Db, db': Db)
    requires Inv(db) && SameButText(db, db')
    ensures Inv(db')
  {
    TextKeeps(db, db');
  }

  /** Every transaction keeps the invariant. */
  lemma StepKeepsInv(db: Db, a: Action, now: Time)
    requires Inv(db) && Lawful(db, a, now)
    ensures Inv(Step(db, a, now))
  {
    hide Inv, ValidPick;
    match a
    case SignInAs(email) => SignInStep(db, email, now);
    case NewThread(author, subject, body, pick) =>
      if NewThreadAccepted(db, author, subject) {
        NewThreadKeeps(db, author, subject, body, pick, now);
      } else {
        TextOnly(db, Step(db, a, now));
      }
    case Reply(author, tid, body, pick) => ReplyKeeps(db, author, tid, body, pick, now);
    case _ => TextOnly(db, Step(db, a, now));
  }

  lemma SignInStep(db: Db, email: string, now: Time)
    requires Inv(db) && db.clock <= now
    ensures Inv(SignIn(db, email, now))
  {
    hide Agrees;
    SignInKeeps(db, email, now);
  }

  lemma InitInv(clock: Time)
    ensures Inv(Init(clock))
  {
  }

  /** After every run, every cached column agrees with the rows. */
  lemma {:induction false} RunKeepsInv(states: seq<Db>, actions: seq<Action>, times: seq<Time>, i: nat)
    requires IsRun(states, actions, times) && i < |states|
    ensures Inv(states[i])
  {
    hide Inv;
    if i == 0 {
      var clock :| states[0] == Init(clock);
      InitInv(clock);
    } else {
      RunKeepsInv(states, actions, times, i - 1);
      assert StepsTo(states[i - 1], actions[i - 1], times[i - 1], states[i]);
      StepKeepsInv(states[i - 1], actions[i - 1], times[i - 1]);
    }
  }
}
