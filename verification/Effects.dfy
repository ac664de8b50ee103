/**
 What one sign-in and one reply do to each row, spelled out over the tables
 before and after, for a board that satisfies the invariant.
 */
module Effects {
  import opened Ascii
  import opened Tables
  import opened Board
  import opened BoardProofs

  lemma EmailsOk(db: Db)
    requires Inv(db)
    ensures MembersOk(db)
  {
    hide KeysOk, RefsOk, DatesOk, CountersOk, ThreadsOk, PartsOk, MembersOk;
  }

  lemma KeysOf(db: Db)
    requires Inv(db)
    ensures KeysOk(db)
  {
    hide RefsOk, DatesOk, CountersOk, ThreadsOk, PartsOk, MembersOk, KeysOk;
  }

  lemma KnownEmail(db: Db, i: int)
    requires MembersOk(db) && 0 <= i < |db.members|
    ensures FindEmail(db.members, db.members[i].email) == Some(i)
  {
    hide FindEmail, Lower;
    var at := FindEmail(db.members, db.members[i].email);
    assert at.Some? && Lower(db.members[at.value].email) == Lower(db.members[i].email);
  }

  lemma EmailTaken(members: seq<Member>, email: string)
    ensures EmailFree(members, email) <==>
              email != "" && forall i :: 0 <= i < |members| ==> !SameButCase(members[i].email, email)
  {
    hide SameButCase, Lower;
    forall i | 0 <= i < |members|
      ensures Lower(members[i].email) == Lower(email) <==> SameButCase(members[i].email, email)
    {
      SameLower(members[i].email, email);
    }
  }

  /**
   A stored email is answered with its row. Any other is refused exactly if it is
   empty or a stored one in other letters of case, and else becomes the newest member.
   */
  lemma SignInExact(db: Db, email: string)
    requires Inv(db)
    ensures var r := SignInResult(db, email);
            forall i :: 0 <= i < |db.members| && db.members[i].email == email ==>
                          r == User(db.members[i].id, db.members[i].isAdmin == Some(true),
                                    db.members[i].isBlocked == Some(true))
    ensures SignInResult(db, email).Refused? <==>
              (forall i :: 0 <= i < |db.members| ==> db.members[i].email != email) &&
              (email == "" || exists i :: 0 <= i < |db.members| && SameButCase(db.members[i].email, email))
    ensures SignInResult(db, email).User? && (forall i :: 0 <= i < |db.members| ==> db.members[i].email != email) ==>
              SignInResult(db, email) == User(db.nextMember, db.members == [], false)
  {
    hide Inv, EmailFree, SameButCase, MembersOk, FindEmail;
    EmailsOk(db);
    EmailTaken(db.members, email);
    forall i | 0 <= i < |db.members| && db.members[i].email == email ensures FindEmail(db.members, email) == Some(i) {
      KnownEmail(db, i);
    }
  }

  lemma SignInRows(db: Db, email: string, now: Time)
    ensures var db' := SignIn(db, email, now);
            db'.threads == db.threads && db'.posts == db.posts && db'.parts == db.parts
    ensures var db' := SignIn(db, email, now);
            var isNew := SignInResult(db, email).User? &&
                         forall i :: 0 <= i < |db.members| ==> db.members[i].email != email;
            (isNew ==>
              db'.members == db.members +
                [Member(db.nextMember, email, if db.members == [] then Some(true) else None, None, None, 0, 0)] &&
              db'.profiles == db.profiles + [Profile(db.nextProfile, db.nextMember)] &&
              db'.totals == Totals(db.totals.members + 1, db.totals.threads, db.totals.posts)) &&
            (!isNew ==> db'.members == db.members && db'.profiles == db.profiles && db'.totals == db.totals)
  {
    hide EmailFree;
  }

  /** What an accepted reply leaves behind, table by table. */
  ghost predicate AfterReply(db: Db, db': Db, user: int, tid: int, body: string, now: Time) {
    && db'.posts == db.posts + [Post(db.nextPost, tid, now, user, body)]
    && db'.totals == Totals(db.totals.members, db.totals.threads, db.totals.posts + 1)
    && db'.profiles == db.profiles
    && |db'.members| == |db.members|
    && (forall i :: 0 <= i < |db.members| ==>
          db'.members[i] == var m := db.members[i];
                            if m.id == user then m.(lastPost := Some(now), totalPosts := m.totalPosts + 1) else m)
    && |db'.threads| == |db.threads|
    && (forall i :: 0 <= i < |db.threads| && db.threads[i].id != tid ==> db'.threads[i] == db.threads[i])
    && (forall i :: 0 <= i < |db.threads| && db.threads[i].id == tid ==>
          TakesReply(db.threads[i], db'.threads[i], db'.posts, now) &&
          AfterParticipation(db.parts, db'.parts, user, tid, db'.threads[i].posts, now))
  }

  /** One more post, dated now; the first post and the last author are those of an oldest and a newest post. */
  ghost predicate TakesReply(t: Thread, t': Thread, posts: seq<Post>, now: Time) {
    exists first, last ::
      0 <= first < |posts| && posts[first].threadId == t.id && 0 <= last < |posts| && posts[last].threadId == t.id &&
      t' == t.(posts := t.posts + 1, firstPostId := Some(posts[first].id),
               lastMemberId := posts[last].memberId, dateLastPosted := now) &&
      forall j :: 0 <= j < |posts| && posts[j].threadId == t.id ==>
                    posts[first].datePosted <= posts[j].datePosted <= posts[last].datePosted
  }

  /** The rows of the pair carry position `n` and the date; there is a new one only if there was none. */
  ghost predicate AfterParticipation(parts: seq<Participation>, parts': seq<Participation>, user: int, tid: int, n: int,
                                     now: Time) {
    if exists i :: 0 <= i < |parts| && parts[i].memberId == user && parts[i].threadId == tid then
      |parts'| == |parts| &&
      forall i :: 0 <= i < |parts| ==>
                    parts'[i] == var r := parts[i];
                                 if r.memberId == user && r.threadId == tid
                                 then r.(datePosted := Some(now), lastViewPosts := n) else r
    else parts' == parts + [Participation(user, tid, false, Some(now), n)]
  }

  lemma ReplyRows(db: Db, tid: int, user: int, body: string, pick: Pick, now: Time)
    requires ValidPick(db.posts + [NewPost(db, tid, user, body, now)], tid, pick)
    ensures var db' := InsertPost(db, tid, user, body, pick, now);
            |db'.threads| == |db.threads| &&
            (forall i :: 0 <= i < |db.threads| && db.threads[i].id != tid ==> db'.threads[i] == db.threads[i]) &&
            (forall i :: 0 <= i < |db.threads| && db.threads[i].id == tid ==>
               TakesReply(db.threads[i], db'.threads[i], db'.posts, now))
    ensures var db' := InsertPost(db, tid, user, body, pick, now);
            forall i :: 0 <= i < |db.threads| ==> db'.threads[i].id == db.threads[i].id
  {
    hide Participate, ThreadPosts;
    var posts := db.posts + [NewPost(db, tid, user, body, now)];
    assert forall j :: 0 <= j < |posts| && posts[j].threadId == tid ==>
             posts[pick.first].datePosted <= posts[j].datePosted <= posts[pick.last].datePosted;
  }

  lemma CounterOf(db: Db, at: int, user: int, body: string, pick: Pick, now: Time)
    requires KeysOk(db) && 0 <= at < |db.threads|
    requires ValidPick(db.posts + [NewPost(db, db.threads[at].id, user, body, now)], db.threads[at].id, pick)
    ensures var tid := db.threads[at].id;
            var threads := InsertPost(db, tid, user, body, pick, now).threads;
            |threads| == |db.threads| && ThreadPosts(threads, tid) == threads[at].posts
  {
    var tid := db.threads[at].id;
    var threads := InsertPost(db, tid, user, body, pick, now).threads;
    ReplyRows(db, tid, user, body, pick, now);
    hide ValidPick, InsertPost, ThreadPosts, TakesReply;
    ThreadPostsAt(threads, at);
  }

  lemma ParticipateRows(parts: seq<Participation>, user: int, tid: int, n: int, now: Time)
    ensures AfterParticipation(parts, Participate(parts, user, tid, n, now), user, tid, n, now)
  {
    CountPositive(parts, PairIs(user, tid));
  }

  lemma ReplyExact(db: Db, tid: int, user: int, body: string, pick: Pick, now: Time)
    requires Inv(db)
    requires ValidPick(db.posts + [NewPost(db, tid, user, body, now)], tid, pick)
    ensures AfterReply(db, InsertPost(db, tid, user, body, pick, now), user, tid, body, now)
  {
    hide Inv, ValidPick, ThreadPosts, TakesReply, KeysOk, AfterParticipation, Participate;
    var db' := InsertPost(db, tid, user, body, pick, now);
    KeysOf(db);
    ReplyRows(db, tid, user, body, pick, now);
    forall i | 0 <= i < |db.threads| && db.threads[i].id == tid
      ensures AfterParticipation(db.parts, db'.parts, user, tid, db'.threads[i].posts, now)
    {
      CounterOf(db, i, user, body, pick, now);
      ParticipateRows(db.parts, user, tid, db'.threads[i].posts, now);
    }
  }
}
