/** Totals kept in different tables add up to each other after every run. */
module Conservation {
  import opened Tables
  import opened Board
  import opened BoardProofs

  function CountOf<K, T>(rows: seq<T>, owns: K -> T -> bool): K -> int {
    (k: K) => Count(rows, owns(k))
  }

  function Owns<K, T>(owns: K -> T -> bool, x: T): K -> bool {
    (k: K) => owns(k)(x)
  }

  lemma {:induction false} SumCountAppend<K, T>(keys: seq<K>, rows: seq<T>, x: T, owns: K -> T -> bool)
    ensures Sum(keys, CountOf(rows + [x], owns)) == Sum(keys, CountOf(rows, owns)) + Count(keys, Owns(owns, x))
  {
    if |keys| > 0 {
      var n := |keys| - 1;
      SumCountAppend(keys[..n], rows, x, owns);
      CountAppend(rows, x, owns(keys[n]));
    }
  }

  lemma {:induction false} SumZero<K, T>(keys: seq<K>, owns: K -> T -> bool)
    ensures Sum(keys, CountOf([], owns)) == 0
  {
    if |keys| > 0 {
      SumZero(keys[..|keys| - 1], owns);
    }
  }

  /** If every row has exactly one owner, the owners' counts add up to the number of rows. */
  lemma {:induction false} CountsPartition<K, T>(keys: seq<K>, rows: seq<T>, owns: K -> T -> bool)
    requires forall i :: 0 <= i < |rows| ==> Count(keys, Owns(owns, rows[i])) == 1
    ensures Sum(keys, CountOf(rows, owns)) == |rows|
  {
    if |rows| == 0 {
      SumZero(keys, owns);
      assert rows == [];
    } else {
      var n := |rows| - 1;
      CountsPartition(keys, rows[..n], owns);
      SumCountAppend(keys, rows[..n], rows[n], owns);
      assert rows == rows[..n] + [rows[n]];
    }
  }

  lemma {:induction false} SumSame<T>(rows: seq<T>, f: T -> int, g: T -> int)
    requires forall i :: 0 <= i < |rows| ==> f(rows[i]) == g(rows[i])
    ensures Sum(rows, f) == Sum(rows, g)
  {
    if |rows| > 0 {
      SumSame(rows[..|rows| - 1], f, g);
    }
  }

  function MemberPosts(): Member -> int { (m: Member) => m.totalPosts }
  function MemberThreads(): Member -> int { (m: Member) => m.totalThreads }
  function ThreadPostCount(): Thread -> int { (t: Thread) => t.posts }

  function MemberOwnsPost(): Member -> Post -> bool { (m: Member) => PostBy(m.id) }
  function MemberOwnsThread(): Member -> Thread -> bool { (m: Member) => ThreadBy(m.id) }
  function ThreadOwnsPost(): Thread -> Post -> bool { (t: Thread) => PostIn(t.id) }

  lemma OneMember(db: Db, id: int)
    requires KeysOk(db) && HasMember(db, id)
    ensures Count(db.members, MemberHasId(id)) == 1
  {
    var at :| 0 <= at < |db.members| && db.members[at].id == id;
    CountUnique(db.members, MemberHasId(id), at);
  }

  lemma OneThread(db: Db, id: int)
    requires KeysOk(db) && HasThread(db, id)
    ensures Count(db.threads, ThreadHasId(id)) == 1
  {
    var at :| 0 <= at < |db.threads| && db.threads[at].id == id;
    CountUnique(db.threads, ThreadHasId(id), at);
  }

  lemma PostsAddUp(db: Db)
    requires Agrees(db)
    ensures Sum(db.members, MemberPosts()) == |db.posts|
  {
    forall i | 0 <= i < |db.posts| ensures Count(db.members, Owns(MemberOwnsPost(), db.posts[i])) == 1 {
      OneMember(db, db.posts[i].memberId);
      SameCondition(db.members, Owns(MemberOwnsPost(), db.posts[i]), MemberHasId(db.posts[i].memberId));
    }
    CountsPartition(db.members, db.posts, MemberOwnsPost());
    forall i | 0 <= i < |db.members|
      ensures MemberPosts()(db.members[i]) == CountOf(db.posts, MemberOwnsPost())(db.members[i])
    {
      assert MemberAgrees(db.members[i], db.threads, db.posts);
    }
    SumSame(db.members, MemberPosts(), CountOf(db.posts, MemberOwnsPost()));
  }

  lemma ThreadsAddUp(db: Db)
    requires Agrees(db)
    ensures Sum(db.members, MemberThreads()) == |db.threads|
  {
    forall i | 0 <= i < |db.threads| ensures Count(db.members, Owns(MemberOwnsThread(), db.threads[i])) == 1 {
      OneMember(db, db.threads[i].memberId);
      SameCondition(db.members, Owns(MemberOwnsThread(), db.threads[i]), MemberHasId(db.threads[i].memberId));
    }
    CountsPartition(db.members, db.threads, MemberOwnsThread());
    forall i | 0 <= i < |db.members|
      ensures MemberThreads()(db.members[i]) == CountOf(db.threads, MemberOwnsThread())(db.members[i])
    {
      assert MemberAgrees(db.members[i], db.threads, db.posts);
    }
    SumSame(db.members, MemberThreads(), CountOf(db.threads, MemberOwnsThread()));
  }

  lemma ThreadPostsAddUp(db: Db)
    requires Agrees(db)
    ensures Sum(db.threads, ThreadPostCount()) == |db.posts|
  {
    forall i | 0 <= i < |db.posts| ensures Count(db.threads, Owns(ThreadOwnsPost(), db.posts[i])) == 1 {
      OneThread(db, db.posts[i].threadId);
      SameCondition(db.threads, Owns(ThreadOwnsPost(), db.posts[i]), ThreadHasId(db.posts[i].threadId));
    }
    CountsPartition(db.threads, db.posts, ThreadOwnsPost());
    forall i | 0 <= i < |db.threads|
      ensures ThreadPostCount()(db.threads[i]) == CountOf(db.posts, ThreadOwnsPost())(db.threads[i])
    {
      assert ThreadAgrees(db.threads[i], db.posts);
    }
    SumSame(db.threads, ThreadPostCount(), CountOf(db.posts, ThreadOwnsPost()));
  }

  /** After every run the four totals of posts agree, and so do the three totals of threads. */
  lemma RunTotalsAgree(states: seq<Db>, actions: seq<Action>, times: seq<Time>, i: nat)
    requires IsRun(states, actions, times) && i < |states|
    ensures var db := states[i];
            db.totals.posts == |db.posts| == Sum(db.members, MemberPosts()) == Sum(db.threads, ThreadPostCount())
    ensures var db := states[i];
            db.totals.threads == |db.threads| == Sum(db.members, MemberThreads()) && db.totals.members == |db.members|
  {
    RunKeepsInv(states, actions, times, i);
    var db := states[i];
    assert Agrees(db) by { hide Agrees; }
    PostsAddUp(db);
    ThreadsAddUp(db);
    ThreadPostsAddUp(db);
  }

  lemma ThreadColumns(row: Thread, posts: seq<Post>)
    requires ThreadAgrees(row, posts) && row.posts > 0
    ensures exists first, last ::
              0 <= first < |posts| && posts[first].threadId == row.id && row.firstPostId == Some(posts[first].id) &&
              0 <= last < |posts| && posts[last].threadId == row.id && row.lastMemberId == posts[last].memberId &&
              row.dateLastPosted == posts[last].datePosted &&
              forall j :: 0 <= j < |posts| && posts[j].threadId == row.id ==>
                            posts[first].datePosted <= posts[j].datePosted <= posts[last].datePosted
  {
    var first :| IsEarliest(posts, row.id, first) && posts[first].id == row.firstPostId.value;
    var last :| IsLatest(posts, row.id, last) && posts[last].memberId == row.lastMemberId &&
                posts[last].datePosted == row.dateLastPosted;
    assert forall j :: 0 <= j < |posts| && posts[j].threadId == row.id ==>
             posts[first].datePosted <= posts[j].datePosted <= posts[last].datePosted;
  }

  /** After every run the cached columns of each thread name its oldest post, its newest author and its newest date. */
  lemma RunThreadColumns(states: seq<Db>, actions: seq<Action>, times: seq<Time>, i: nat, t: int)
    requires IsRun(states, actions, times) && i < |states| && 0 <= t < |states[i].threads|
    ensures var row, posts := states[i].threads[t], states[i].posts;
            exists first, last ::
              0 <= first < |posts| && posts[first].threadId == row.id && row.firstPostId == Some(posts[first].id) &&
              0 <= last < |posts| && posts[last].threadId == row.id && row.lastMemberId == posts[last].memberId &&
              row.dateLastPosted == posts[last].datePosted &&
              forall j :: 0 <= j < |posts| && posts[j].threadId == row.id ==>
                            posts[first].datePosted <= posts[j].datePosted <= posts[last].datePosted
  {
    RunKeepsInv(states, actions, times, i);
    var row, posts := states[i].threads[t], states[i].posts;
    assert ThreadAgrees(row, posts) && row.posts > 0 by {
      hide KeysOk, RefsOk, DatesOk, CountersOk, PartsOk, MembersOk;
    }
    hide Inv, IsRun, ThreadAgrees;
    ThreadColumns(row, posts);
  }

  /** After every run thread_member has one row for each pair with a post, at the position of the newest such post. */
  lemma RunParticipation(states: seq<Db>, actions: seq<Action>, times: seq<Time>, i: nat, m: int, t: int)
    requires IsRun(states, actions, times) && i < |states|
    ensures var db := states[i];
            Count(db.parts, PairIs(m, t)) == if Count(db.posts, PostByIn(m, t)) > 0 then 1 else 0
    ensures var db := states[i];
            forall r :: 0 <= r < |db.parts| && PairIs(m, t)(db.parts[r]) ==>
                          0 < db.parts[r].lastViewPosts == LastPosition(db.posts, m, t) <= Count(db.posts, PostIn(t))
  {
    RunKeepsInv(states, actions, times, i);
    var db := states[i];
    assert PartsOk(db) by { hide KeysOk, RefsOk, DatesOk, CountersOk, ThreadsOk, PartsOk, MembersOk; }
    LastPositionBounds(db.posts, m, t);
    forall r | 0 <= r < |db.parts| && PairIs(m, t)(db.parts[r])
      ensures 0 < db.parts[r].lastViewPosts == LastPosition(db.posts, m, t)
    {
      assert PartAgrees(db.parts[r], db.posts);
      CountPositive(db.parts, PairIs(m, t));
      assert Count(db.parts, PairIs(m, t)) == if Count(db.posts, PostByIn(m, t)) > 0 then 1 else 0;
    }
  }
}
