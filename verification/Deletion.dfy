/**
 The DELETE branch of thread_post_sync. No statement of the application deletes
 a post; these lemmas say what the branch does to a board whose caches agree.
 */
module Deletion {
  import opened Tables
  import opened Board
  import opened BoardProofs

  function Without<T>(rows: seq<T>, at: int): (r: seq<T>)
    requires 0 <= at < |rows|
    ensures |r| == |rows| - 1
  {
    rows[..at] + rows[at + 1..]
  }

  function Remaining(db: Db, at: int): nat
    requires 0 <= at < |db.posts|
  {
    Count(Without(db.posts, at), PostIn(db.posts[at].threadId))
  }

  predicate ValidDeletePick(db: Db, at: int, pick: Pick) {
    0 <= at < |db.posts| &&
    (Remaining(db, at) > 1 ==> ValidPick(Without(db.posts, at), db.posts[at].threadId, pick))
  }

  /**
   DELETE FROM thread_post of the row at position `at`. None is an aborted
   statement: the branch for a thread that becomes empty deletes from `favorite`,
   a table that does not exist.
   */
  function DeletePost(db: Db, at: int, pick: Pick, now: Time): Option<Db>
    requires ValidDeletePick(db, at, pick)
  {
    var p := db.posts[at];
    var posts := Without(db.posts, at);
    if Remaining(db, at) <= 1 && ThreadPosts(db.threads, p.threadId) == 1 then None
    else
      Some(db.(posts := posts,
               members := UpdateWhere(db.members, MemberHasId(p.memberId), UncountPost(now)),
               totals := db.totals.(posts := db.totals.posts - 1),
               threads := if Remaining(db, at) > 1
                          then UpdateWhere(db.threads, ThreadHasId(p.threadId), Recache(p.threadId, posts, pick))
                          else db.threads,
               parts := if Count(posts, PostByIn(p.memberId, p.threadId)) == 0
                        then DeleteWhere(db.parts, PairIs(p.memberId, p.threadId))
                        else db.parts,
               clock := now))
  }

  function UncountPost(now: Time): Member -> Member {
    (m: Member) => m.(totalPosts := m.totalPosts - 1, lastPost := Some(now))
  }

  function Recache(tid: int, posts: seq<Post>, pick: Pick): Thread -> Thread
    requires ValidPick(posts, tid, pick)
  {
    (t: Thread) => if t.id == tid then Recached(t, posts, pick) else t
  }

  function Recached(t: Thread, posts: seq<Post>, pick: Pick): Thread
    requires ValidPick(posts, t.id, pick)
  {
    t.(posts := t.posts - 1, firstPostId := Some(posts[pick.first].id),
       lastMemberId := posts[pick.last].memberId, dateLastPosted := posts[pick.last].datePosted)
  }

  lemma {:induction false} CountWithout<T>(rows: seq<T>, at: int, hit: T -> bool)
    requires 0 <= at < |rows|
    ensures Count(rows, hit) == Count(Without(rows, at), hit) + (if hit(rows[at]) then 1 else 0)
  {
    CountConcat(rows[..at], rows[at + 1..], hit);
    CountConcat(rows[..at + 1], rows[at + 1..], hit);
    CountAppend(rows[..at], rows[at], hit);
    assert rows[..at] + [rows[at]] == rows[..at + 1];
    assert rows == rows[..at + 1] + rows[at + 1..];
  }

  lemma {:induction false} CountDeleted<T(!new)>(rows: seq<T>, gone: T -> bool, hit: T -> bool)
    requires forall i :: 0 <= i < |rows| && gone(rows[i]) ==> !hit(rows[i])
    ensures Count(DeleteWhere(rows, gone), hit) == Count(rows, hit)
  {
    if |rows| > 0 {
      var n := |rows| - 1;
      CountDeleted(rows[..n], gone, hit);
      if !gone(rows[n]) {
        CountAppend(DeleteWhere(rows[..n], gone), rows[n], hit);
      }
    }
  }

  /** The thread the deleted post belonged to is in the table, with a counter one above what remains. */
  lemma DeletedThread(db: Db, at: int) returns (k: int)
    requires Agrees(db) && 0 <= at < |db.posts|
    ensures 0 <= k < |db.threads| && db.threads[k].id == db.posts[at].threadId
    ensures ThreadPosts(db.threads, db.posts[at].threadId) == db.threads[k].posts == Remaining(db, at) + 1
  {
    hide DatesOk, CountersOk, PartsOk, MembersOk, EarliestId, LatestBy, Without;
    assert HasThread(db, db.posts[at].threadId);
    k :| 0 <= k < |db.threads| && db.threads[k].id == db.posts[at].threadId;
    ThreadPostsAt(db.threads, k);
    assert ThreadAgrees(db.threads[k], db.posts);
    CountWithout(db.posts, at, PostIn(db.posts[at].threadId));
  }

  /** The only post of a thread cannot be deleted; any other post can. */
  lemma DeleteAborts(db: Db, at: int, pick: Pick, now: Time)
    requires Agrees(db) && ValidDeletePick(db, at, pick)
    ensures DeletePost(db, at, pick, now).None? <==> Remaining(db, at) == 0
    ensures DeletePost(db, at, pick, now).None? <==>
              forall i :: 0 <= i < |db.posts| && i != at ==> db.posts[i].threadId != db.posts[at].threadId
  {
    hide Agrees, ValidPick;
    var k := DeletedThread(db, at);
    NoneRemain(db.posts, at, PostIn(db.posts[at].threadId));
  }

  lemma NoneRemain<T>(rows: seq<T>, at: int, hit: T -> bool)
    requires 0 <= at < |rows|
    ensures Count(Without(rows, at), hit) == 0 <==> forall i :: 0 <= i < |rows| && i != at ==> !hit(rows[i])
  {
    var rest := Without(rows, at);
    CountPositive(rest, hit);
    forall i | 0 <= i < |rows| && i != at ensures exists k :: 0 <= k < |rest| && rest[k] == rows[i] {
      assert rest[if i < at then i else i - 1] == rows[i];
    }
    forall k | 0 <= k < |rest| ensures exists i :: 0 <= i < |rows| && i != at && rows[i] == rest[k] {
      assert rows[if k < at then k else k + 1] == rest[k];
    }
  }

  lemma DeleteKeepsCounters(db: Db, at: int, pick: Pick, now: Time)
    requires CountersOk(db) && ValidDeletePick(db, at, pick) && DeletePost(db, at, pick, now).Some?
    ensures CountersOk(DeletePost(db, at, pick, now).value)
  {
    hide ValidPick, Without;
    var db' := DeletePost(db, at, pick, now).value;
    forall i | 0 <= i < |db'.members| ensures MemberAgrees(db'.members[i], db'.threads, db'.posts) {
      assert MemberAgrees(db.members[i], db.threads, db.posts);
      CountWithout(db.posts, at, PostBy(db.members[i].id));
      CountUpdated(db.threads, db'.threads, ThreadBy(db.members[i].id));
    }
  }

  lemma DeleteKeepsOneRow(db: Db, at: int, pick: Pick, now: Time)
    requires OneRowPerPair(db.parts, db.posts) && ValidDeletePick(db, at, pick) && DeletePost(db, at, pick, now).Some?
    ensures OneRowPerPair(DeletePost(db, at, pick, now).value.parts, DeletePost(db, at, pick, now).value.posts)
  {
    hide ValidPick, Without;
    var db', p := DeletePost(db, at, pick, now).value, db.posts[at];
    forall m, t ensures Count(db'.parts, PairIs(m, t)) == if Count(db'.posts, PostByIn(m, t)) > 0 then 1 else 0 {
      CountWithout(db.posts, at, PostByIn(m, t));
      if Count(db'.posts, PostByIn(p.memberId, p.threadId)) == 0 {
        if m == p.memberId && t == p.threadId {
          CountPositive(db'.parts, PairIs(m, t));
          forall i | 0 <= i < |db'.parts| ensures !PairIs(m, t)(db'.parts[i]) {
            assert db'.parts[i] in db'.parts;
          }
        } else {
          CountDeleted(db.parts, PairIs(p.memberId, p.threadId), PairIs(m, t));
        }
      }
    }
  }

  lemma EarliestWithout(posts: seq<Post>, at: int, tid: int, i: int)
    requires 0 <= at < |posts| && posts[at].threadId != tid && IsEarliest(posts, tid, i)
    ensures EarliestId(Without(posts, at), tid, posts[i].id)
  {
    var i' := if i < at then i else i - 1;
    assert Without(posts, at)[i'] == posts[i];
    assert IsEarliest(Without(posts, at), tid, i');
  }

  lemma LatestWithout(posts: seq<Post>, at: int, tid: int, i: int)
    requires 0 <= at < |posts| && posts[at].threadId != tid && IsLatest(posts, tid, i)
    ensures LatestBy(Without(posts, at), tid, posts[i].memberId, posts[i].datePosted)
  {
    var i' := if i < at then i else i - 1;
    assert Without(posts, at)[i'] == posts[i];
    assert IsLatest(Without(posts, at), tid, i');
  }

  /** Removing a row of another thread leaves the cached columns of a thread right. */
  lemma UntouchedThreadAgrees(t: Thread, posts: seq<Post>, at: int)
    requires ThreadAgrees(t, posts) && 0 <= at < |posts| && posts[at].threadId != t.id
    ensures ThreadAgrees(t, Without(posts, at))
  {
    hide Without;
    CountWithout(posts, at, PostIn(t.id));
    if t.posts > 0 {
      var i :| IsEarliest(posts, t.id, i) && posts[i].id == t.firstPostId.value;
      EarliestWithout(posts, at, t.id, i);
      var k :| IsLatest(posts, t.id, k) && posts[k].memberId == t.lastMemberId &&
        posts[k].datePosted == t.dateLastPosted;
      LatestWithout(posts, at, t.id, k);
    }
  }

  lemma RecachedThreadAgrees(t: Thread, posts: seq<Post>, at: int, pick: Pick)
    requires ThreadAgrees(t, posts) && 0 <= at < |posts| && posts[at].threadId == t.id
    requires Count(Without(posts, at), PostIn(t.id)) > 1 && ValidPick(Without(posts, at), t.id, pick)
    ensures ThreadAgrees(Recached(t, Without(posts, at), pick), Without(posts, at))
  {
    CountWithout(posts, at, PostIn(t.id));
  }

  lemma DeleteThreads(db: Db, at: int, pick: Pick, now: Time)
    requires ThreadsOk(db) && ValidDeletePick(db, at, pick) && DeletePost(db, at, pick, now).Some?
    ensures forall i :: 0 <= i < |db.threads| &&
                        (db.threads[i].id != db.posts[at].threadId || Remaining(db, at) > 1) ==>
                          ThreadAgrees(DeletePost(db, at, pick, now).value.threads[i], Without(db.posts, at))
  {
    forall i | 0 <= i < |db.threads| && (db.threads[i].id != db.posts[at].threadId || Remaining(db, at) > 1)
      ensures ThreadAgrees(DeletePost(db, at, pick, now).value.threads[i], Without(db.posts, at))
    {
      assert ThreadAgrees(db.threads[i], db.posts);
      if db.threads[i].id == db.posts[at].threadId {
        RecachedThreadAgrees(db.threads[i], db.posts, at, pick);
      } else {
        UntouchedThreadAgrees(db.threads[i], db.posts, at);
      }
    }
  }

  /** Row `i` of some member is in the thread and at or after position `at`. */
  predicate PostsFrom(posts: seq<Post>, m: int, tid: int, at: int) {
    exists i :: 0 <= i < |posts| && at <= i && PostByIn(m, tid)(posts[i])
  }

  lemma PostsFromEnd(posts: seq<Post>, m: int, tid: int, at: int)
    requires 0 <= at < |posts|
    ensures PostsFrom(posts, m, tid, at) <==>
              PostByIn(m, tid)(posts[|posts| - 1]) || (at < |posts| - 1 && PostsFrom(posts[..|posts| - 1], m, tid, at))
  {
    var n := |posts| - 1;
    if PostsFrom(posts[..n], m, tid, at) {
      var i :| 0 <= i < n && at <= i && PostByIn(m, tid)(posts[..n][i]);
      assert PostByIn(m, tid)(posts[i]);
    }
    if PostsFrom(posts, m, tid, at) {
      var i :| 0 <= i < |posts| && at <= i && PostByIn(m, tid)(posts[i]);
      if i < n {
        assert PostByIn(m, tid)(posts[..n][i]);
      }
    }
  }

  /**
   Deleting a post moves the position of a member's newest post in that thread
   exactly if that post is not earlier.
   */
  lemma {:induction false} LastWithout(posts: seq<Post>, at: int, m: int)
    requires 0 <= at < |posts|
    ensures var tid, posts' := posts[at].threadId, Without(posts, at);
            if PostsFrom(posts, m, tid, at) then LastPosition(posts', m, tid) < LastPosition(posts, m, tid)
            else LastPosition(posts', m, tid) == LastPosition(posts, m, tid) &&
                 LastDate(posts', m, tid) == LastDate(posts, m, tid)
  {
    hide PostsFrom;
    var n, tid := |posts| - 1, posts[at].threadId;
    PostsFromEnd(posts, m, tid, at);
    if at == n {
      LastPositionBounds(posts[..n], m, tid);
      assert Without(posts, at) == posts[..n];
    } else {
      LastWithout(posts[..n], at, m);
      var shorter := Without(posts[..n], at);
      assert Without(posts, at) == shorter + [posts[n]];
      LastSkips(shorter, posts[n], m, tid);
      CountWithout(posts[..n], at, PostIn(tid));
      hide Without;
    }
  }

  lemma {:induction false} LastElsewhere(posts: seq<Post>, at: int, m: int, tid: int)
    requires 0 <= at < |posts| && posts[at].threadId != tid
    ensures LastPosition(Without(posts, at), m, tid) == LastPosition(posts, m, tid)
    ensures LastDate(Without(posts, at), m, tid) == LastDate(posts, m, tid)
  {
    var n := |posts| - 1;
    if at == n {
      assert Without(posts, at) == posts[..n];
    } else {
      LastElsewhere(posts[..n], at, m, tid);
      var shorter := Without(posts[..n], at);
      assert Without(posts, at) == shorter + [posts[n]];
      LastSkips(shorter, posts[n], m, tid);
      CountWithout(posts[..n], at, PostIn(tid));
    }
  }

  /**
   A participation row agrees after the deletion of a post unless its member has
   a post in that thread at or after it.
   */
  lemma PartAfterDelete(r: Participation, posts: seq<Post>, at: int)
    requires PartAgrees(r, posts) && 0 <= at < |posts|
    ensures PartAgrees(r, Without(posts, at)) <==>
              r.threadId != posts[at].threadId || !PostsFrom(posts, r.memberId, r.threadId, at)
  {
    if r.threadId == posts[at].threadId {
      LastWithout(posts, at, r.memberId);
    } else {
      LastElsewhere(posts, at, r.memberId, r.threadId);
    }
  }

  /** The deleted post was the newest of its thread and the only one of its author there. */
  predicate LastAndOnly(posts: seq<Post>, at: int)
    requires 0 <= at < |posts|
  {
    (forall i :: at < i < |posts| ==> posts[i].threadId != posts[at].threadId) &&
    Count(Without(posts, at), PostByIn(posts[at].memberId, posts[at].threadId)) == 0
  }

  lemma StaleMember(posts: seq<Post>, at: int) returns (m: int)
    requires 0 <= at < |posts| && !LastAndOnly(posts, at)
    ensures PostsFrom(posts, m, posts[at].threadId, at) &&
              Count(Without(posts, at), PostByIn(m, posts[at].threadId)) > 0
  {
    var tid := posts[at].threadId;
    if i :| at < i < |posts| && posts[i].threadId == tid {
      m := posts[i].memberId;
      assert PostByIn(m, tid)(posts[i]) && Without(posts, at)[i - 1] == posts[i];
      CountPositive(Without(posts, at), PostByIn(m, tid));
    } else {
      m := posts[at].memberId;
      assert PostByIn(m, tid)(posts[at]);
    }
  }

  lemma NobodyStale(posts: seq<Post>, at: int, m: int)
    requires 0 <= at < |posts| && LastAndOnly(posts, at) && m != posts[at].memberId
    ensures !PostsFrom(posts, m, posts[at].threadId, at)
  {
  }

  /** What is known about each row the branch keeps. */
  ghost predicate KeptRow(db: Db, db': Db, at: int, r: Participation)
    requires 0 <= at < |db.posts|
  {
    var p := db.posts[at];
    (PartAgrees(r, db'.posts) <==> r.threadId != p.threadId || !PostsFrom(db.posts, r.memberId, p.threadId, at)) &&
    (Count(db'.posts, PostByIn(p.memberId, p.threadId)) == 0 ==> !PairIs(p.memberId, p.threadId)(r))
  }

  lemma KeptRows(db: Db, at: int, pick: Pick, now: Time)
    requires ValidDeletePick(db, at, pick) && PartsAgree(db.parts, db.posts) && DeletePost(db, at, pick, now).Some?
    ensures var db' := DeletePost(db, at, pick, now).value; forall r :: r in db'.parts ==> KeptRow(db, db', at, r)
  {
    hide ValidPick, ThreadPosts, UpdateWhere, Without, PartAgrees, Count, PostsFrom;
    var db' := DeletePost(db, at, pick, now).value;
    forall r | r in db'.parts ensures KeptRow(db, db', at, r) {
      assert r in db.parts;
      var i :| 0 <= i < |db.parts| && db.parts[i] == r;
      PartAfterDelete(db.parts[i], db.posts, at);
    }
  }

  /**
   The branch never renumbers last_view_posts. The rows it keeps still hold the
   position of the newest post of their member exactly if the deleted post was
   the newest of the thread and the only one of its author there.
   */
  lemma DeleteParticipation(db: Db, at: int, pick: Pick, now: Time)
    requires ValidDeletePick(db, at, pick) && PartsOk(db) && DeletePost(db, at, pick, now).Some?
    ensures PartsAgree(DeletePost(db, at, pick, now).value.parts, DeletePost(db, at, pick, now).value.posts) <==>
              LastAndOnly(db.posts, at)
  {
    var db', p := DeletePost(db, at, pick, now).value, db.posts[at];
    KeptRows(db, at, pick, now);
    DeleteKeepsOneRow(db, at, pick, now);
    hide ValidPick, ThreadPosts, UpdateWhere, Without, PartAgrees, Count, PostsFrom;
    if LastAndOnly(db.posts, at) {
      forall i | 0 <= i < |db'.parts| ensures PartAgrees(db'.parts[i], db'.posts) {
        assert KeptRow(db, db', at, db'.parts[i]);
        if db'.parts[i].memberId != p.memberId {
          NobodyStale(db.posts, at, db'.parts[i].memberId);
        }
      }
    } else {
      var m := StaleMember(db.posts, at);
      CountPositive(db'.parts, PairIs(m, p.threadId));
      assert Count(db'.parts, PairIs(m, p.threadId)) == if Count(db'.posts, PostByIn(m, p.threadId)) > 0 then 1 else 0;
      var i :| 0 <= i < |db'.parts| && PairIs(m, p.threadId)(db'.parts[i]);
      assert KeptRow(db, db', at, db'.parts[i]) && !PartAgrees(db'.parts[i], db'.posts);
    }
  }

  /** The rows a deletion that succeeds leaves in thread_post, member and board_data. */
  lemma DeleteRows(db: Db, at: int, pick: Pick, now: Time)
    requires ValidDeletePick(db, at, pick) && DeletePost(db, at, pick, now).Some?
    ensures var db' := DeletePost(db, at, pick, now).value;
            db'.posts == db.posts[..at] + db.posts[at + 1..] && db'.profiles == db.profiles &&
            db'.totals == Totals(db.totals.members, db.totals.threads, db.totals.posts - 1)
    ensures var members, members' := db.members, DeletePost(db, at, pick, now).value.members;
            |members'| == |members| &&
            forall i :: 0 <= i < |members| ==>
                          members'[i] == var m := members[i];
                                         if m.id == db.posts[at].memberId
                                         then m.(totalPosts := m.totalPosts - 1, lastPost := Some(now)) else m
  {
    hide ValidPick, Recache;
  }

  /**
   Deleting a post whose thread keeps another one: the totals and the keys of
   thread_member still agree; the cached columns of every other thread still
   agree; those of its own thread agree exactly when two or more posts remain.
   With one post left the thread's counter is one too high and nothing else in
   its row moves. The positions in thread_member go stale unless the newest post
   of the thread went, and was its author's only one there.
   */
  lemma DeleteEffect(db: Db, at: int, pick: Pick, now: Time)
    requires Inv(db) && ValidDeletePick(db, at, pick) && Remaining(db, at) >= 1
    ensures DeletePost(db, at, pick, now).Some?
    ensures var db' := DeletePost(db, at, pick, now).value;
            db'.posts == Without(db.posts, at) && CountersOk(db') && OneRowPerPair(db'.parts, db'.posts)
    ensures var db' := DeletePost(db, at, pick, now).value;
            ThreadsOk(db') <==> Remaining(db, at) >= 2
    ensures var db' := DeletePost(db, at, pick, now).value;
            Remaining(db, at) == 1 ==>
              db'.threads == db.threads &&
              forall i :: 0 <= i < |db.threads| ==>
                if db.threads[i].id == db.posts[at].threadId
                then db'.threads[i].posts == Count(db'.posts, PostIn(db.threads[i].id)) + 1
                else ThreadAgrees(db'.threads[i], db'.posts)
    ensures var db' := DeletePost(db, at, pick, now).value;
            PartsAgree(db'.parts, db'.posts) <==> LastAndOnly(db.posts, at)
  {
    hide ValidPick, KeysOk, RefsOk, DatesOk, MembersOk, Without, EarliestId, LatestBy, PartsAgree, LastAndOnly;
    DeleteAborts(db, at, pick, now);
    DeleteParticipation(db, at, pick, now);
    DeleteKeepsCounters(db, at, pick, now);
    DeleteKeepsOneRow(db, at, pick, now);
    DeleteThreads(db, at, pick, now);
    var k := DeletedThread(db, at);
    var db' := DeletePost(db, at, pick, now).value;
    assert Remaining(db, at) == 1 ==> db'.threads[k].posts == Count(db'.posts, PostIn(db.threads[k].id)) + 1;
    forall i | 0 <= i < |db.threads| && db.threads[i].id == db.posts[at].threadId
      ensures db.threads[i].posts == Remaining(db, at) + 1
    {
      assert ThreadAgrees(db.threads[i], db.posts) && ThreadAgrees(db.threads[k], db.posts);
    }
  }
}
