/**
 The database as the server keeps it: tables changed in place, one statement
 after the other, by the triggers of sqlc/schema.sql and by the handlers.
 */
module Store {
  import opened Ascii
  import opened Tables
  import opened Board
  import opened BoardProofs
  import opened Effects
  import opened Deletion

  lemma {:induction false} SomeEarliest(posts: seq<Post>, tid: int, at: int) returns (i: int)
    requires 0 <= at < |posts| && posts[at].threadId == tid
    ensures IsEarliest(posts, tid, i)
  {
    var n := |posts| - 1;
    if exists k :: 0 <= k < n && posts[k].threadId == tid {
      var k :| 0 <= k < n && posts[k].threadId == tid;
      var j := SomeEarliest(posts[..n], tid, k);
      i := if posts[n].threadId == tid && posts[n].datePosted < posts[j].datePosted then n else j;
      assert forall m :: 0 <= m < n ==> posts[..n][m] == posts[m];
    } else {
      i := at;
    }
  }

  lemma {:induction false} SomeLatest(posts: seq<Post>, tid: int, at: int) returns (i: int)
    requires 0 <= at < |posts| && posts[at].threadId == tid
    ensures IsLatest(posts, tid, i)
  {
    var n := |posts| - 1;
    if exists k :: 0 <= k < n && posts[k].threadId == tid {
      var k :| 0 <= k < n && posts[k].threadId == tid;
      var j := SomeLatest(posts[..n], tid, k);
      i := if posts[n].threadId == tid && posts[j].datePosted < posts[n].datePosted then n else j;
      assert forall m :: 0 <= m < n ==> posts[..n][m] == posts[m];
    } else {
      i := at;
    }
  }

  datatype Status = SeeOther | NotFound | ServerError

  predicate OwnsThread(threads: seq<Thread>, tid: int, user: int) {
    exists i :: 0 <= i < |threads| && threads[i].id == tid && threads[i].memberId == user
  }

  /** Row `i` is the post of a possible answer of GetThreadForEdit for a thread of the user. */
  predicate MayAnswer(posts: seq<Post>, tid: int, i: int) {
    0 <= i < |posts| && posts[i].threadId == tid
  }

  class Database {
    var totals: Totals
    var members: seq<Member>
    var profiles: seq<Profile>
    var threads: seq<Thread>
    var posts: seq<Post>
    var parts: seq<Participation>
    var nextMember: int
    var nextProfile: int
    var nextThread: int
    var nextPost: int
    var clock: Time

    function Snapshot(): Db
      reads this
    {
      Db(totals, members, profiles, threads, posts, parts, nextMember, nextProfile, nextThread, nextPost, clock)
    }

    /** Between transactions every cached column agrees with the rows. */
    ghost predicate Valid()
      reads this
    {
      Inv(Snapshot())
    }

    constructor (now: Time)
      ensures Valid() && Snapshot() == Init(now)
    {
      totals := Totals(0, 0, 0);
      members, profiles, threads, posts, parts := [], [], [], [], [];
      nextMember, nextProfile, nextThread, nextPost := 1, 1, 1, 1;
      clock := now;
      new;
      InitInv(now);
    }

    // Triggers

    method MemberSyncInsert()
      modifies this`totals
      ensures totals == old(totals).(members := old(totals).members + 1)
    {
      totals := totals.(members := totals.members + 1);
    }

    method ThreadSyncInsert(row: Thread)
      modifies this`members, this`totals
      ensures members == UpdateWhere(old(members), MemberHasId(row.memberId), CountThread())
      ensures totals == old(totals).(threads := old(totals).threads + 1)
    {
      members := UpdateWhere(members, MemberHasId(row.memberId), CountThread());
      totals := totals.(threads := totals.threads + 1);
    }

    /** The INSERT branch of thread_post_sync, after `row` has been added. */
    method ThreadPostSyncInsert(row: Post, now: Time) returns (pick: Pick)
      requires |posts| > 0 && posts[|posts| - 1] == row
      modifies this`members, this`totals, this`threads, this`parts
      ensures ValidPick(posts, row.threadId, pick)
      ensures members == UpdateWhere(old(members), MemberHasId(row.memberId), CountPost(now))
      ensures totals == old(totals).(posts := old(totals).posts + 1)
      ensures threads == UpdateWhere(old(threads), ThreadHasId(row.threadId), Touch(row.threadId, posts, pick, now))
      ensures parts == Participate(old(parts), row.memberId, row.threadId, ThreadPosts(threads, row.threadId), now)
    {
      members := UpdateWhere(members, MemberHasId(row.memberId), (m: Member) => m.(lastPost := Some(now)));
      members := UpdateWhere(members, MemberHasId(row.memberId), (m: Member) => m.(totalPosts := m.totalPosts + 1));
      assert members == UpdateWhere(old(members), MemberHasId(row.memberId), CountPost(now));
      totals := totals.(posts := totals.posts + 1);
      pick := PickPosts(row.threadId);
      var rows, firstId, lastBy := posts, posts[pick.first].id, posts[pick.last].memberId;
      threads := UpdateWhere(threads, ThreadHasId(row.threadId),
                             (t: Thread) => t.(posts := t.posts + 1, firstPostId := Some(firstId),
                                               lastMemberId := lastBy, dateLastPosted := now));
      assert threads == UpdateWhere(old(threads), ThreadHasId(row.threadId), Touch(row.threadId, rows, pick, now));
      var count := ThreadPosts(threads, row.threadId);
      if Count(parts, PairIs(row.memberId, row.threadId)) == 0 {
        parts := parts + [Participation(row.memberId, row.threadId, false, Some(now), count)];
      } else {
        parts := UpdateWhere(parts, PairIs(row.memberId, row.threadId), Rejoin(count, now));
      }
    }

    /** The DELETE branch of thread_post_sync, after `row` has been removed; `ok` is false if it raises an error. */
    method ThreadPostSyncDelete(row: Post, now: Time) returns (ok: bool, pick: Pick)
      modifies this`members, this`totals, this`threads, this`parts
      ensures Count(posts, PostIn(row.threadId)) > 1 ==> ValidPick(posts, row.threadId, pick)
      ensures ok <==> Count(posts, PostIn(row.threadId)) > 1 || ThreadPosts(old(threads), row.threadId) != 1
      ensures ok ==>
                members == UpdateWhere(old(members), MemberHasId(row.memberId), UncountPost(now)) &&
                totals == old(totals).(posts := old(totals).posts - 1)
      ensures ok ==> threads == if Count(posts, PostIn(row.threadId)) > 1
                                then UpdateWhere(old(threads), ThreadHasId(row.threadId), Recache(row.threadId,
                                  posts, pick))
                                else old(threads)
      ensures ok ==> parts == if Count(posts, PostByIn(row.memberId, row.threadId)) == 0
                              then DeleteWhere(old(parts), PairIs(row.memberId, row.threadId)) else old(parts)
    {
      hide IsEarliest, IsLatest, Count, ThreadPosts, UpdateWhere, DeleteWhere;
      members := UpdateWhere(members, MemberHasId(row.memberId), UncountPost(now));
      totals := totals.(posts := totals.posts - 1);
      ok, pick := true, Pick(0, 0);
      if Count(posts, PostIn(row.threadId)) > 1 {
        pick := PickPosts(row.threadId);
        threads := UpdateWhere(threads, ThreadHasId(row.threadId), Recache(row.threadId, posts, pick));
      } else if ThreadPosts(threads, row.threadId) == 1 {
        // DELETE FROM favorite: no such table
        ok := false;
        return;
      }
      if Count(posts, PostByIn(row.memberId, row.threadId)) == 0 {
        parts := DeleteWhere(parts, PairIs(row.memberId, row.threadId));
      }
    }

    /** DELETE of one post; an error in the trigger rolls the statement back. */
    method DeleteThreadPost(at: int, now: Time) returns (ok: bool, pick: Pick)
      requires 0 <= at < |posts|
      modifies this
      ensures ValidDeletePick(old(Snapshot()), at, pick)
      ensures ok == DeletePost(old(Snapshot()), at, pick, now).Some?
      ensures Snapshot() == if ok then DeletePost(old(Snapshot()), at, pick, now).value else old(Snapshot())
    {
      hide IsEarliest, IsLatest, Count, ThreadPosts, UpdateWhere, DeleteWhere, Without;
      var saved := (posts, members, totals, threads, parts);
      var row := posts[at];
      posts := Without(posts, at);
      ok, pick := ThreadPostSyncDelete(row, now);
      if ok {
        clock := now;
      } else {
        posts, members, totals, threads, parts := saved.0, saved.1, saved.2, saved.3, saved.4;
      }
    }

    /** The two ORDER BY date_posted LIMIT 1 subqueries, which break ties at will. */
    method PickPosts(tid: int) returns (pick: Pick)
      requires Count(posts, PostIn(tid)) > 0
      ensures ValidPick(posts, tid, pick)
      ensures 0 <= pick.first < |posts| && 0 <= pick.last < |posts|
      ensures posts[pick.first].threadId == posts[pick.last].threadId == tid
      ensures forall j :: 0 <= j < |posts| && posts[j].threadId == tid ==>
                            posts[pick.first].datePosted <= posts[j].datePosted <= posts[pick.last].datePosted
    {
      CountPositive(posts, PostIn(tid));
      ghost var at :| 0 <= at < |posts| && PostIn(tid)(posts[at]);
      ghost var e := SomeEarliest(posts, tid, at);
      ghost var l := SomeLatest(posts, tid, at);
      var first :| 0 <= first < |posts| && IsEarliest(posts, tid, first);
      var last :| 0 <= last < |posts| && IsLatest(posts, tid, last);
      assert IsEarliest(posts, tid, first) && IsLatest(posts, tid, last);
      pick := Pick(first, last);
    }

    // Statements

    /** INSERT INTO thread_post for an author and a thread that exist. */
    method InsertThreadPost(tid: int, author: int, body: string, now: Time) returns (pick: Pick)
      modifies this
      ensures ValidPick(old(posts) + [NewPost(old(Snapshot()), tid, author, body, now)], tid, pick)
      ensures Snapshot() == InsertPost(old(Snapshot()), tid, author, body, pick, now)
    {
      hide IsEarliest, IsLatest, Count, ThreadPosts, UpdateWhere, Participate, TouchThread;
      var row := Post(nextPost, tid, now, author, body);
      nextPost := nextPost + 1;
      clock := now;
      posts := posts + [row];
      pick := ThreadPostSyncInsert(row, now);
    }

    /** createOrReturnID; local variables are NULL where SELECT INTO found no row. */
    method CreateOrReturnID(email: string, now: Time) returns (r: SignedIn)
      requires Valid() && clock <= now
      modifies this
      ensures r == SignInResult(old(Snapshot()), email)
      ensures Snapshot() == Step(old(Snapshot()), SignInAs(email), now) && Valid()
      ensures forall i :: 0 <= i < |old(members)| && old(members)[i].email == email ==>
                            r == User(old(members)[i].id, old(members)[i].isAdmin == Some(true),
                                      old(members)[i].isBlocked == Some(true))
      ensures r.Refused? <==>
                (forall i :: 0 <= i < |old(members)| ==> old(members)[i].email != email) &&
                (email == "" || exists i :: 0 <= i < |old(members)| && SameButCase(old(members)[i].email, email))
      ensures r.User? && (forall i :: 0 <= i < |old(members)| ==> old(members)[i].email != email) ==>
                r == User(old(nextMember), old(members) == [], false) &&
                members == old(members) +
                [Member(r.id, email, if old(members) == [] then Some(true) else None, None, None, 0, 0)] &&
                profiles == old(profiles) + [Profile(old(nextProfile), r.id)] &&
                totals == old(totals).(members := old(totals).members + 1)
      ensures r.Refused? || (exists i :: 0 <= i < |old(members)| && old(members)[i].email == email) ==>
                members == old(members) && profiles == old(profiles) && totals == old(totals)
      ensures threads == old(threads) && posts == old(posts) && parts == old(parts)
    {
      hide Inv, MembersOk, SameButCase, EmailFree, FindEmail;
      SignInExact(Snapshot(), email);
      SignInRows(Snapshot(), email, now);
      StepKeepsInv(Snapshot(), SignInAs(email), now);
      clock := now;
      var vId: Option<int>, vIsAdmin, vIsBlocked := None, Some(false), Some(false);
      var memberCount := |members|;
      var at := FindEmail(members, email);
      if at.Some? {
        var m := members[at.value];
        vId, vIsAdmin, vIsBlocked := Some(m.id), Some(Coalesce(m.isAdmin)), Some(Coalesce(m.isBlocked));
      } else {
        vId, vIsAdmin, vIsBlocked := None, None, None;
      }
      if memberCount == 0 {
        vIsAdmin := Some(true);
      }
      if vId.None? {
        var id := nextMember;
        nextMember := nextMember + 1;
        if !EmailFree(members, email) {
          return Refused;
        }
        members := members + [Member(id, email, vIsAdmin, vIsBlocked, None, 0, 0)];
        MemberSyncInsert();
        vId, vIsAdmin, vIsBlocked := Some(id), Some(Coalesce(vIsAdmin)), Some(Coalesce(vIsBlocked));
        profiles := profiles + [Profile(nextProfile, id)];
        nextProfile := nextProfile + 1;
      }
      r := User(vId.value, Coalesce(vIsAdmin), Coalesce(vIsBlocked));
    }

    // Handlers

    /** The transaction of CreateThread. */
    method CreateThread(user: int, subject: string, body: string, now: Time) returns (id: Option<int>, ghost a: Action)
      requires Valid() && clock <= now
      modifies this
      ensures a.NewThread? && (a.author, a.subject, a.body) == (user, subject, body)
      ensures Lawful(old(Snapshot()), a, now) && Snapshot() == Step(old(Snapshot()), a, now) && Valid()
      ensures id.Some? <==> subject != "" && exists i :: 0 <= i < |old(members)| && old(members)[i].id == user
      ensures id.Some? ==>
                id.value == old(nextThread) &&
                (forall i :: 0 <= i < |old(threads)| ==> old(threads)[i].id != id.value) &&
                (forall i :: 0 <= i < |old(posts)| ==> old(posts)[i].threadId != id.value) &&
                threads == old(threads) +
                [Thread(id.value, user, subject, now, Some(old(nextPost)), 1, false, user, now)] &&
                posts == old(posts) + [Post(old(nextPost), id.value, now, user, body)] &&
                parts == old(parts) + [Participation(user, id.value, false, Some(now), 1)] &&
                totals == Totals(old(totals).members, old(totals).threads + 1, old(totals).posts + 1)
      ensures id.Some? ==>
                |members| == |old(members)| &&
                forall i :: 0 <= i < |members| ==>
                              members[i] == var m := old(members)[i];
                                            if m.id == user
                                            then m.(totalThreads := m.totalThreads + 1,
                                                    totalPosts := m.totalPosts + 1, lastPost := Some(now))
                                            else m
      ensures id.None? ==>
                threads == old(threads) && posts == old(posts) && parts == old(parts) && members == old(members) &&
                totals == old(totals)
      ensures profiles == old(profiles)
    {
      hide Inv, IsEarliest, IsLatest, InsertPost;
      ghost var before := Snapshot();
      FirstPostPick(before, user, body, now);
      id, a := None, Action.NewThread(user, subject, body, Pick(|posts|, |posts|));
      StepKeepsInv(before, a, now);
      clock := now;
      if subject == "" || !HasMember(Snapshot(), user) {
        nextThread := nextThread + 1;
        return;
      }
      var row := Thread(nextThread, user, subject, now, None, 0, false, user, now);
      nextThread := nextThread + 1;
      threads := threads + [row];
      ThreadSyncInsert(row);
      assert Snapshot() == InsertThread(before, user, subject, now);
      var currval := row.id;
      var pick := InsertThreadPost(currval, user, body, now);
      id, a := Some(currval), Action.NewThread(user, subject, body, pick);
      StepKeepsInv(before, a, now);
      CreatedThread(before, user, subject, body, pick, now);
      ThreadIdsBelow(before);
    }

    /** CreateThreadPost: a reply, which fails on a thread or author that does not exist. */
    method CreateThreadPost(user: int, tid: int, body: string, now: Time) returns (ok: bool, ghost a: Action)
      requires Valid() && clock <= now
      modifies this
      ensures a.Reply? && (a.author, a.tid, a.body) == (user, tid, body)
      ensures Lawful(old(Snapshot()), a, now) && Snapshot() == Step(old(Snapshot()), a, now) && Valid()
      ensures ok <==>
                (exists i :: 0 <= i < |old(members)| && old(members)[i].id == user) &&
                (exists i :: 0 <= i < |old(threads)| && old(threads)[i].id == tid)
      ensures ok ==> AfterReply(old(Snapshot()), Snapshot(), user, tid, body, now)
      ensures !ok ==> Snapshot() == old(Snapshot()).(nextPost := nextPost, clock := now)
    {
      hide Inv, AfterReply, IsEarliest, IsLatest, InsertPost;
      ghost var before := Snapshot();
      if HasMember(Snapshot(), user) && HasThread(Snapshot(), tid) {
        var pick := InsertThreadPost(tid, user, body, now);
        ok, a := true, Action.Reply(user, tid, body, pick);
        ReplyExact(before, tid, user, body, pick, now);
      } else {
        ghost var rows := posts + [NewPost(before, tid, user, body, now)];
        ghost var first := SomeEarliest(rows, tid, |posts|);
        ghost var last := SomeLatest(rows, tid, |posts|);
        nextPost := nextPost + 1;
        clock := now;
        ok, a := false, Action.Reply(user, tid, body, Pick(first, last));
      }
      StepKeepsInv(before, a, now);
    }

    /** UpdateThread; an empty subject violates a check, but only if a row matches. */
    method UpdateThread(subject: string, tid: int, user: int, now: Time) returns (ok: bool)
      requires Valid() && clock <= now
      modifies this
      ensures Snapshot() == Step(old(Snapshot()), Action.UpdateThread(user, tid, subject), now) && Valid()
      ensures !ok <==>
                subject == "" && exists i :: 0 <= i < |old(threads)| && old(threads)[i].id == tid &&
                                             old(threads)[i].memberId == user &&
                                             old(threads)[i].datePosted >= now - 900_000_000
      ensures Snapshot() == old(Snapshot()).(threads := threads, clock := now) && |threads| == |old(threads)|
      ensures forall i :: 0 <= i < |threads| ==>
                            threads[i] == var t := old(threads)[i];
                                          if subject != "" && t.id == tid && t.memberId == user &&
                                             t.datePosted >= now - 900_000_000
                                          then t.(subject := subject) else t
    {
      hide Inv;
      StepKeepsInv(Snapshot(), Action.UpdateThread(user, tid, subject), now);
      clock := now;
      if subject == "" {
        ok := forall i :: 0 <= i < |threads| ==> !OwnThread(tid, user, now)(threads[i]);
      } else {
        threads := UpdateWhere(threads, OwnThread(tid, user, now), Retitle(subject));
        ok := true;
      }
    }

    method UpdateThreadPost(body: string, pid: int, user: int, now: Time)
      requires Valid() && clock <= now
      modifies this
      ensures Snapshot() == Step(old(Snapshot()), Action.UpdateThreadPost(user, pid, body), now) && Valid()
      ensures Snapshot() == old(Snapshot()).(posts := posts, clock := now) && |posts| == |old(posts)|
      ensures forall i :: 0 <= i < |posts| ==>
                            posts[i] == var p := old(posts)[i];
                                        if p.id == pid && p.memberId == user && p.datePosted >= now - 900_000_000
                                        then p.(body := body) else p
    {
      hide Inv;
      StepKeepsInv(Snapshot(), Action.UpdateThreadPost(user, pid, body), now);
      clock := now;
      posts := UpdateWhere(posts, OwnPost(pid, user, now), Rewrite(body));
    }

    /**
     editThreadPOST. GetThreadForEdit joins the thread with all its posts and
     answers with any one of them, `picked`: the body goes to that post, whether or
     not it is the opening one, and nowhere if it is not the user's own or its
     window has closed.
     */
    method EditThread(user: int, tid: int, subject: string, body: string, now: Time, later: Time)
      returns (status: Status, ghost picked: int)
      requires Valid() && clock <= now <= later
      modifies this
      ensures Valid() && clock <= later
      ensures status.NotFound? <==>
                forall i :: 0 <= i < |old(threads)| ==>
                              !(old(threads)[i].id == tid && old(threads)[i].memberId == user)
      ensures !status.NotFound? ==> 0 <= picked < |old(posts)| && old(posts)[picked].threadId == tid
      ensures status.ServerError? <==>
                subject == "" && exists i :: 0 <= i < |old(threads)| && old(threads)[i].id == tid &&
                                             old(threads)[i].memberId == user &&
                                             old(threads)[i].datePosted >= now - 900_000_000 &&
                                             old(threads)[i].subject != ""
      ensures Snapshot() == old(Snapshot()).(threads := threads, posts := posts, clock := clock)
      ensures |threads| == |old(threads)| && |posts| == |old(posts)|
      ensures forall i :: 0 <= i < |threads| ==>
                            threads[i] == var t := old(threads)[i];
                                          if subject != "" && t.id == tid && t.memberId == user &&
                                             t.datePosted >= now - 900_000_000
                                          then t.(subject := subject) else t
      ensures forall i :: 0 <= i < |posts| ==>
                            posts[i] == var p := old(posts)[i];
                                        if status.SeeOther? && i == picked && p.memberId == user &&
                                           p.datePosted >= later - 900_000_000
                                        then p.(body := body) else p
    {
      hide Inv, Step, Lawful;
      picked := 0;
      if !OwnsThread(threads, tid, user) {
        return NotFound, picked;
      }
      var at :| 0 <= at < |threads| && threads[at].id == tid && threads[at].memberId == user;
      OwnThreadHasPost(Snapshot(), at);
      DistinctKeys(Snapshot());
      var answer :| MayAnswer(posts, tid, answer);
      picked := answer;
      var body' := posts[answer].body;
      if threads[at].subject != subject {
        var ok := UpdateThread(subject, tid, user, now);
        if !ok {
          return ServerError, picked;
        }
      }
      if body' != body {
        WriteBody(answer, body, user, later);
      }
      return SeeOther, picked;
    }

    /** UpdateThreadPost of the post in row `at`. */
    method WriteBody(at: int, body: string, user: int, now: Time)
      requires Valid() && clock <= now && 0 <= at < |posts|
      modifies this
      ensures Valid() && Snapshot() == old(Snapshot()).(posts := posts, clock := now) && |posts| == |old(posts)|
      ensures forall i :: 0 <= i < |posts| ==>
                            posts[i] == var p := old(posts)[i];
                                        if i == at && p.memberId == user && p.datePosted >= now - 900_000_000
                                        then p.(body := body) else p
    {
      hide Inv, Step, Lawful;
      DistinctKeys(Snapshot());
      UpdateThreadPost(body, posts[at].id, user, now);
    }

    /** editThreadPostPOST. */
    method EditThreadPost(user: int, pid: int, body: string, now: Time) returns (status: Status)
      requires Valid() && clock <= now
      modifies this
      ensures Valid()
      ensures status.NotFound? <==>
                forall i :: 0 <= i < |old(posts)| ==> !(old(posts)[i].id == pid && old(posts)[i].memberId == user)
      ensures Snapshot() == old(Snapshot()).(posts := posts, clock := clock) && |posts| == |old(posts)|
      ensures forall i :: 0 <= i < |posts| ==>
                            posts[i] == var p := old(posts)[i];
                                        if p.id == pid && p.memberId == user && p.datePosted >= now - 900_000_000
                                        then p.(body := body) else p
    {
      hide Inv, Step, Lawful;
      if !(exists i :: 0 <= i < |posts| && posts[i].id == pid && posts[i].memberId == user) {
        return NotFound;
      }
      var at :| 0 <= at < |posts| && posts[at].id == pid && posts[at].memberId == user;
      DistinctKeys(Snapshot());
      if posts[at].body != body {
        UpdateThreadPost(body, pid, user, now);
      }
      return SeeOther;
    }

    /** The delete_member action of AdminPOST, which blocks. */
    method BlockMember(target: int, now: Time)
      requires Valid() && clock <= now
      modifies this
      ensures Snapshot() == Step(old(Snapshot()), Block(target), now) && Valid()
      ensures Snapshot() == old(Snapshot()).(members := members, clock := now) && |members| == |old(members)|
      ensures forall i :: 0 <= i < |members| ==>
                            members[i] == var m := old(members)[i];
                                          if m.id == target then m.(isBlocked := Some(true)) else m
    {
      hide Inv;
      StepKeepsInv(Snapshot(), Block(target), now);
      clock := now;
      members := UpdateWhere(members, MemberHasId(target), MarkBlocked());
    }
  }

  /** The thread has a post: GetThreadForEdit always joins some row. */
  lemma OwnThreadHasPost(db: Db, at: int)
    requires Inv(db) && 0 <= at < |db.threads|
    ensures exists i :: MayAnswer(db.posts, db.threads[at].id, i)
  {
    hide KeysOk, RefsOk, DatesOk, CountersOk, PartsOk, MembersOk;
    assert ThreadAgrees(db.threads[at], db.posts);
    CountPositive(db.posts, PostIn(db.threads[at].id));
    var i :| 0 <= i < |db.posts| && PostIn(db.threads[at].id)(db.posts[i]);
    assert MayAnswer(db.posts, db.threads[at].id, i);
  }

  /** Every possible answer of GetThreadForEdit is the opening post. */
  ghost predicate EditsOpening(db: Db, at: int)
    requires 0 <= at < |db.threads|
  {
    forall i :: MayAnswer(db.posts, db.threads[at].id, i) ==> Some(db.posts[i].id) == db.threads[at].firstPostId
  }

  lemma OpeningPost(db: Db, at: int) returns (first: int)
    requires Inv(db) && 0 <= at < |db.threads|
    ensures MayAnswer(db.posts, db.threads[at].id, first)
    ensures db.threads[at].firstPostId == Some(db.posts[first].id)
    ensures db.threads[at].posts == Count(db.posts, PostIn(db.threads[at].id))
  {
    var t := db.threads[at];
    assert ThreadAgrees(t, db.posts) && t.posts > 0 by { hide KeysOk, RefsOk, DatesOk, CountersOk, PartsOk, MembersOk; }
    hide Inv, Count, LatestBy;
    first :| IsEarliest(db.posts, t.id, first) && db.posts[first].id == t.firstPostId.value;
  }

  /** The edit form is sure to reach the opening post exactly if the thread has no reply. */
  lemma EditsOpeningIff(db: Db, at: int)
    requires Inv(db) && 0 <= at < |db.threads|
    ensures EditsOpening(db, at) <==> db.threads[at].posts == 1
    ensures db.threads[at].posts == Count(db.posts, PostIn(db.threads[at].id))
  {
    hide Inv, Count;
    DistinctKeys(db);
    var first := OpeningPost(db, at);
    OnlyOpening(db.posts, db.threads[at].id, first);
  }

  lemma OnlyOpening(posts: seq<Post>, tid: int, first: int)
    requires 0 <= first < |posts| && posts[first].threadId == tid
    requires forall i, j :: 0 <= i < |posts| && 0 <= j < |posts| && posts[i].id == posts[j].id ==> i == j
    ensures (forall i :: MayAnswer(posts, tid, i) ==> posts[i].id == posts[first].id) <==>
              Count(posts, PostIn(tid)) == 1
  {
    hide Count;
    assert PostIn(tid)(posts[first]);
    if forall i :: MayAnswer(posts, tid, i) ==> posts[i].id == posts[first].id {
      forall i | 0 <= i < |posts| && PostIn(tid)(posts[i]) ensures i == first {
        assert MayAnswer(posts, tid, i);
      }
      CountUnique(posts, PostIn(tid), first);
    } else {
      var i :| MayAnswer(posts, tid, i) && posts[i].id != posts[first].id;
      TwoCounted(posts, PostIn(tid), first, i);
    }
  }

  lemma {:induction false} TwoCounted<T>(rows: seq<T>, hit: T -> bool, i: int, j: int)
    requires 0 <= i < |rows| && 0 <= j < |rows| && i != j && hit(rows[i]) && hit(rows[j])
    ensures Count(rows, hit) >= 2
  {
    var lo, hi := if i < j then i else j, if i < j then j else i;
    CountConcat(rows[..hi], rows[hi..], hit);
    assert rows == rows[..hi] + rows[hi..];
    CountPositive(rows[..hi], hit);
    assert rows[..hi][lo] == rows[lo];
    CountPositive(rows[hi..], hit);
    assert rows[hi..][0] == rows[hi];
  }

  lemma OneMember() returns (db: Db)
    ensures Inv(db) && HasMember(db, 1) && db.threads == [] && db.posts == []
    ensures db.nextThread == 1 && db.nextPost == 1 && db.clock == 0
  {
    hide Inv;
    InitInv(0);
    SignInStep(Init(0), "a", 0);
    db := SignIn(Init(0), "a", 0);
    assert db.members[0].id == 1;
  }

  lemma OneThread() returns (db: Db)
    ensures Inv(db) && HasMember(db, 1) && db.posts == [Post(1, 1, 0, 1, "b")] && db.nextPost == 2 && db.clock == 0
    ensures |db.threads| == 1 && db.threads[0].id == 1 && db.threads[0].memberId == 1
  {
    var before := OneMember();
    var a := Action.NewThread(1, "s", "b", Pick(0, 0));
    FirstPostPick(before, 1, "b", 0);
    assert Lawful(before, a, 0);
    CreatedThread(before, 1, "s", "b", Pick(0, 0), 0);
    StepKeepsInv(before, a, 0);
    db := Step(before, a, 0);
    hide Inv, IsEarliest, IsLatest, Participate, ThreadPosts;
    assert db.threads[0].id == 1 && db.members[0].id == before.members[0].id;
  }

  lemma RepliedRow(db: Db, body: string)
    requires |db.threads| == 1 && db.threads[0].id == 1 && |db.posts| == 1
    requires ValidPick(db.posts + [NewPost(db, 1, 1, body, 0)], 1, Pick(0, 1))
    ensures var db' := InsertPost(db, 1, 1, body, Pick(0, 1), 0);
            |db'.threads| == 1 && db'.threads[0].id == 1 && db'.threads[0].memberId == db.threads[0].memberId &&
            db'.threads[0].firstPostId == Some(db.posts[0].id) && db'.clock == 0 &&
            db'.posts == db.posts + [NewPost(db, 1, 1, body, 0)]
  {
    hide IsEarliest, IsLatest, Participate, ThreadPosts;
  }

  /** A board that a run reaches: the same member wrote post 1, which opens the thread, and post 2. */
  lemma OneReply() returns (db: Db)
    ensures Inv(db) && db.clock == 0 && db.posts == [Post(1, 1, 0, 1, "b"), Post(2, 1, 0, 1, "r")]
    ensures |db.threads| == 1 && db.threads[0].id == 1 && db.threads[0].memberId == 1
    ensures db.threads[0].firstPostId == Some(1)
  {
    var before := OneThread();
    var a := Action.Reply(1, 1, "r", Pick(0, 1));
    assert before.posts + [NewPost(before, 1, 1, "r", 0)] == [Post(1, 1, 0, 1, "b"), Post(2, 1, 0, 1, "r")];
    assert HasThread(before, 1) && Lawful(before, a, 0);
    hide Inv, IsEarliest, IsLatest, Participate, ThreadPosts, InsertPost;
    StepKeepsInv(before, a, 0);
    RepliedRow(before, "r");
    db := Step(before, a, 0);
  }

  /**
   On that board the form, opened to change the opening post, may change the reply
   instead: row 1 is a possible answer, and writing to it leaves post 1 alone.
   */
  lemma EditMissesOpening() returns (db: Db)
    ensures db.clock <= 1 && Inv(db) && |db.threads| == 1
    ensures db.posts == [Post(1, 1, 0, 1, "b"), Post(2, 1, 0, 1, "r")]
    ensures OwnsThread(db.threads, 1, 1) && db.threads[0].firstPostId == Some(1)
    ensures MayAnswer(db.posts, 1, 1) && PostEditable(db.posts[1], 1, 1)
    ensures Step(db, Action.UpdateThreadPost(1, 2, "new"), 1).posts ==
            [Post(1, 1, 0, 1, "b"), Post(2, 1, 0, 1, "new")]
  {
    db := OneReply();
    hide Inv;
  }

  /** The row an accepted CreateThread leaves in thread, once the trigger of its first post has run. */
  function OpeningRow(db: Db, user: int, subject: string, now: Time): Thread {
    Thread(db.nextThread, user, subject, now, Some(db.nextPost), 1, false, user, now)
  }

  /**
   The whole effect of an accepted CreateThread: one row each in thread,
   thread_post and thread_member, which name each other, under an id that no post
   has referred to; both counters of the author and of the board go up by one; no
   other row changes.
   */
  lemma CreatedThread(db: Db, user: int, subject: string, body: string, pick: Pick, now: Time)
    requires Inv(db) && Lawful(db, Action.NewThread(user, subject, body, pick), now)
    requires NewThreadAccepted(db, user, subject)
    ensures forall i :: 0 <= i < |db.posts| ==> db.posts[i].threadId != db.nextThread
    ensures var db' := Step(db, Action.NewThread(user, subject, body, pick), now);
            db'.threads == db.threads + [OpeningRow(db, user, subject, now)] &&
            db'.posts == db.posts + [Post(db.nextPost, db.nextThread, now, user, body)] &&
            db'.parts == db.parts + [Participation(user, db.nextThread, false, Some(now), 1)] &&
            db'.totals == Totals(db.totals.members, db.totals.threads + 1, db.totals.posts + 1) &&
            db'.members == UpdateWhere(db.members, MemberHasId(user), CountBoth(now)) && db'.profiles == db.profiles
  {
    NextThreadUnused(db);
    ThreadIdsBelow(db);
    assert PartsOk(db) by { hide KeysOk, RefsOk, DatesOk, CountersOk, ThreadsOk, PartsOk, MembersOk; }
    hide Inv;
    var mid := InsertThread(db, user, subject, now);
    OnlyPick(db, user, body, pick, now);
    NewThreadRow(db, mid, user, subject, body, pick, now);
    NewThreadPart(db, mid, user, subject, body, pick, now);
    NewThreadMembers(db, mid, user, subject, body, pick, now);
    hide InsertPost, InsertThread, ValidPick;
  }

  function CountBoth(now: Time): Member -> Member {
    (m: Member) => m.(totalThreads := m.totalThreads + 1, totalPosts := m.totalPosts + 1, lastPost := Some(now))
  }

  lemma OnlyPick(db: Db, user: int, body: string, pick: Pick, now: Time)
    requires forall i :: 0 <= i < |db.posts| ==> db.posts[i].threadId != db.nextThread
    requires ValidPick(db.posts + [NewPost(db, db.nextThread, user, body, now)], db.nextThread, pick)
    ensures pick == Pick(|db.posts|, |db.posts|)
  {
  }

  lemma NewThreadRow(db: Db, mid: Db, user: int, subject: string, body: string, pick: Pick, now: Time)
    requires forall i :: 0 <= i < |db.threads| ==> db.threads[i].id != db.nextThread
    requires mid == InsertThread(db, user, subject, now) && pick == Pick(|db.posts|, |db.posts|)
    requires ValidPick(db.posts + [NewPost(db, db.nextThread, user, body, now)], db.nextThread, pick)
    ensures InsertPost(mid, db.nextThread, user, body, pick, now).threads ==
            db.threads + [OpeningRow(db, user, subject, now)]
  {
    hide IsEarliest, IsLatest, Participate, ThreadPosts;
  }

  lemma NewThreadPart(db: Db, mid: Db, user: int, subject: string, body: string, pick: Pick, now: Time)
    requires forall i :: 0 <= i < |db.posts| ==> db.posts[i].threadId != db.nextThread
    requires PartsOk(db) && mid == InsertThread(db, user, subject, now)
    requires ValidPick(db.posts + [NewPost(db, db.nextThread, user, body, now)], db.nextThread, pick)
    requires InsertPost(mid, db.nextThread, user, body, pick, now).threads ==
             db.threads + [OpeningRow(db, user, subject, now)]
    ensures InsertPost(mid, db.nextThread, user, body, pick, now).parts ==
            db.parts + [Participation(user, db.nextThread, false, Some(now), 1)]
  {
    hide IsEarliest, IsLatest, PartsAgree, UpdateWhere;
    CountPositive(db.posts, PostByIn(user, db.nextThread));
    assert Count(db.parts, PairIs(user, db.nextThread)) == 0;
  }

  lemma NewThreadMembers(db: Db, mid: Db, user: int, subject: string, body: string, pick: Pick, now: Time)
    requires mid == InsertThread(db, user, subject, now)
    requires ValidPick(db.posts + [NewPost(db, db.nextThread, user, body, now)], db.nextThread, pick)
    ensures var db' := InsertPost(mid, db.nextThread, user, body, pick, now);
            db'.members == UpdateWhere(db.members, MemberHasId(user), CountBoth(now)) &&
            db'.totals == Totals(db.totals.members, db.totals.threads + 1, db.totals.posts + 1) &&
            db'.posts == db.posts + [NewPost(db, db.nextThread, user, body, now)] && db'.profiles == db.profiles
  {
    hide IsEarliest, IsLatest, Participate, ThreadPosts;
  }

  lemma ThreadIdsBelow(db: Db)
    requires Inv(db)
    ensures forall i :: 0 <= i < |db.threads| ==> db.threads[i].id != db.nextThread
  {
    hide RefsOk, DatesOk, CountersOk, ThreadsOk, PartsOk, MembersOk;
  }

  lemma DistinctKeys(db: Db)
    requires Inv(db)
    ensures forall i, j :: 0 <= i < |db.threads| && 0 <= j < |db.threads| ==>
                             db.threads[i].id == db.threads[j].id ==> i == j
    ensures forall i, j :: 0 <= i < |db.posts| && 0 <= j < |db.posts| ==> db.posts[i].id == db.posts[j].id ==> i == j
  {
    hide RefsOk, DatesOk, CountersOk, ThreadsOk, PartsOk, MembersOk;
  }

  /** Before a thread has posts, its first post is both its earliest and its latest. */
  lemma FirstPostPick(db: Db, user: int, body: string, now: Time)
    requires Inv(db)
    ensures ValidPick(db.posts + [NewPost(db, db.nextThread, user, body, now)], db.nextThread, Pick(|db.posts|,
              |db.posts|))
  {
    NextThreadUnused(db);
    hide Inv;
  }

  lemma NextThreadUnused(db: Db)
    requires Inv(db)
    ensures forall i :: 0 <= i < |db.posts| ==> db.posts[i].threadId != db.nextThread
  {
    hide DatesOk, CountersOk, ThreadsOk, PartsOk, MembersOk, KeysOk, RefsOk;
    NewThreadIdUnused(db);
  }
}
