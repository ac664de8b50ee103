/** What no run ever takes back, and which steps can change a text. */
module History {
  import opened Tables
  import opened Board
  import opened BoardProofs
  import opened Effects

  /** Rows stay at their place; keys, owners and dates are never rewritten; a block is never lifted. */
  ghost predicate Grows(db: Db, db': Db) {
    && db.clock <= db'.clock
    && |db.members| <= |db'.members| && |db.threads| <= |db'.threads| && |db.posts| <= |db'.posts|
    && (forall i :: 0 <= i < |db.members| ==> SameMember(db.members[i], db'.members[i]))
    && (forall i :: 0 <= i < |db.threads| ==> SameThread(db.threads[i], db'.threads[i]))
    && (forall i :: 0 <= i < |db.posts| ==> db'.posts[i] == db.posts[i].(body := db'.posts[i].body))
  }

  ghost predicate SameMember(m: Member, m': Member) {
    m'.id == m.id && m'.email == m.email && m'.isAdmin == m.isAdmin &&
    (Coalesce(m.isBlocked) ==> Coalesce(m'.isBlocked))
  }

  ghost predicate SameThread(t: Thread, t': Thread) {
    t'.id == t.id && t'.memberId == t.memberId && t'.datePosted == t.datePosted && t'.sticky == t.sticky
  }

  lemma InsertPostGrows(db: Db, tid: int, author: int, body: string, pick: Pick, now: Time)
    requires ValidPick(db.posts + [NewPost(db, tid, author, body, now)], tid, pick) && db.clock <= now
    ensures Grows(db, InsertPost(db, tid, author, body, pick, now))
  {
    hide Participate, ThreadPosts, IsEarliest, IsLatest;
  }

  lemma StepGrows(db: Db, a: Action, now: Time)
    requires Lawful(db, a, now)
    ensures Grows(db, Step(db, a, now))
  {
    hide IsEarliest, IsLatest, InsertPost;
    match a
    case NewThread(author, subject, body, pick) =>
      if NewThreadAccepted(db, author, subject) {
        InsertPostGrows(InsertThread(db, author, subject, now), db.nextThread, author, body, pick, now);
      }
    case Reply(author, tid, body, pick) => InsertPostGrows(db, tid, author, body, pick, now);
    case _ =>
  }

  lemma {:induction false} RunGrows(states: seq<Db>, actions: seq<Action>, times: seq<Time>, i: nat, j: nat)
    requires IsRun(states, actions, times) && i <= j < |states|
    ensures Grows(states[i], states[j])
  {
    if i < j {
      RunGrows(states, actions, times, i, j - 1);
      assert StepsTo(states[j - 1], actions[j - 1], times[j - 1], states[j]);
      StepGrows(states[j - 1], actions[j - 1], times[j - 1]);
    }
  }

  // Members

  /**
   After every run a board with members has exactly one administrator, the first
   member ever created, and each member has exactly one profile.
   */
  lemma RunOneAdmin(states: seq<Db>, actions: seq<Action>, times: seq<Time>, i: nat)
    requires IsRun(states, actions, times) && i < |states|
    ensures var ms := states[i].members;
            forall k :: 0 <= k < |ms| ==>
                          (Coalesce(ms[k].isAdmin) <==> forall o :: 0 <= o < |ms| ==> ms[k].id <= ms[o].id)
    ensures var db := states[i];
            |db.profiles| == |db.members| &&
            forall k :: 0 <= k < |db.members| ==> db.profiles[k].memberId == db.members[k].id
    ensures forall j :: i <= j < |states| && |states[i].members| > 0 ==>
                          |states[j].members| > 0 && states[j].members[0].id == states[i].members[0].id &&
                          Coalesce(states[j].members[0].isAdmin)
  {
    RunKeepsInv(states, actions, times, i);
    assert KeysOk(states[i]) && MembersOk(states[i]) by { hide RefsOk, DatesOk, CountersOk, ThreadsOk, PartsOk; }
    forall j | i <= j < |states| && |states[i].members| > 0
      ensures |states[j].members| > 0 && states[j].members[0].id == states[i].members[0].id &&
              Coalesce(states[j].members[0].isAdmin)
    {
      RunGrows(states, actions, times, i, j);
      assert SameMember(states[i].members[0], states[j].members[0]);
    }
  }

  lemma FindEmailAt(db: Db, at: int)
    requires MembersOk(db) && 0 <= at < |db.members|
    ensures FindEmail(db.members, db.members[at].email) == Some(at)
  {
  }

  lemma FindAppended(members: seq<Member>, m: Member)
    ensures FindEmail(members + [m], m.email) == Some(|members|)
  {
  }

  /**
   Signing in twice in a row with any email, known, new or refused: the second
   answer is the first one, and unless it is a refusal the second call changes
   nothing. A refusal uses up another id.
   */
  lemma SignInAgain(db: Db, email: string, now: Time, later: Time)
    ensures SignInResult(SignIn(db, email, now), email) == SignInResult(db, email)
    ensures var once, twice := SignIn(db, email, now), SignIn(SignIn(db, email, now), email, later);
            twice == if SignInResult(db, email).User? then once.(clock := later)
                     else once.(nextMember := once.nextMember + 1, clock := later)
  {
    FindAppended(db.members, NewMember(db, email));
    hide FindEmail, EmailFree;
  }

  /** Once an email has an id, every later sign-in with it answers with that id and leaves the tables alone. */
  lemma RunSignInStable(states: seq<Db>, actions: seq<Action>, times: seq<Time>, i: nat, j: nat, email: string,
                        now: Time)
    requires IsRun(states, actions, times) && i < j < |states|
    requires actions[i] == SignInAs(email) && SignInResult(states[i], email).User?
    ensures SignInResult(states[j], email).User?
    ensures SignInResult(states[j], email).id == SignInResult(states[i], email).id
    ensures SignInResult(states[j], email).isAdmin == SignInResult(states[i], email).isAdmin
    ensures SignIn(states[j], email, now) == states[j].(clock := now)
  {
    assert StepsTo(states[i], actions[i], times[i], states[i + 1]);
    RunKeepsInv(states, actions, times, j);
    RunGrows(states, actions, times, i + 1, j);
    var at := match FindEmail(states[i].members, email) case Some(k) => k case None => |states[i].members|;
    hide IsRun;
    assert states[i + 1].members[at].email == email;
    assert SameMember(states[i + 1].members[at], states[j].members[at]);
    assert MembersOk(states[j]) by { hide KeysOk, RefsOk, DatesOk, CountersOk, ThreadsOk, PartsOk, MembersOk; }
    FindEmailAt(states[j], at);
  }

  /** authMiddleware lets a request through only for this answer of createOrReturnID. */
  predicate Admitted(r: SignedIn) {
    r.User? && !r.isBlocked
  }

  /** After a block, no sign-in of that member is admitted again, however the run goes on. */
  lemma RunBlockedForEver(states: seq<Db>, actions: seq<Action>, times: seq<Time>, i: nat, j: nat, at: int)
    requires IsRun(states, actions, times) && i < j < |states|
    requires 0 <= at < |states[i].members| && actions[i] == Block(states[i].members[at].id)
    ensures !Admitted(SignInResult(states[j], states[i].members[at].email))
  {
    assert StepsTo(states[i], actions[i], times[i], states[i + 1]);
    RunKeepsInv(states, actions, times, j);
    RunGrows(states, actions, times, i + 1, j);
    hide IsRun;
    assert SameMember(states[i + 1].members[at], states[j].members[at]);
    assert MembersOk(states[j]) by { hide KeysOk, RefsOk, DatesOk, CountersOk, ThreadsOk, PartsOk, MembersOk; }
    FindEmailAt(states[j], at);
  }

  /** A step blocks the member it names and nobody else; a member it creates is not blocked. */
  lemma StepBlocks(db: Db, a: Action, now: Time)
    requires Lawful(db, a, now)
    ensures var ms, ms' := db.members, Step(db, a, now).members;
            |ms| <= |ms'| &&
            (forall k :: 0 <= k < |ms| ==>
               (ms'[k].isBlocked == Some(true) <==> ms[k].isBlocked == Some(true) || a == Block(ms[k].id))) &&
            (forall k :: |ms| <= k < |ms'| ==> ms'[k].isBlocked != Some(true))
  {
    hide IsEarliest, IsLatest, Participate, ThreadPosts;
  }

  /** A member is blocked exactly if some step since it signed up was a block of its id. */
  lemma {:induction false} RunBlockedIff(states: seq<Db>, actions: seq<Action>, times: seq<Time>, j: nat, k: nat)
    requires IsRun(states, actions, times) && j < |states| && k < |states[j].members|
    ensures states[j].members[k].isBlocked == Some(true) <==>
              exists i :: 0 <= i < j && k < |states[i].members| && actions[i] == Block(states[j].members[k].id)
  {
    if j > 0 {
      assert StepsTo(states[j - 1], actions[j - 1], times[j - 1], states[j]);
      StepBlocks(states[j - 1], actions[j - 1], times[j - 1]);
      StepGrows(states[j - 1], actions[j - 1], times[j - 1]);
      forall i | 0 <= i < j ensures |states[i].members| <= |states[j - 1].members| {
        RunGrows(states, actions, times, i, j - 1);
      }
      if k < |states[j - 1].members| {
        RunBlockedIff(states, actions, times, j - 1, k);
        assert SameMember(states[j - 1].members[k], states[j].members[k]);
      }
    }
  }

  /** The whole answer of createOrReturnID to a stored email, at every point of every run. */
  lemma RunAnswer(states: seq<Db>, actions: seq<Action>, times: seq<Time>, j: nat, k: nat)
    requires IsRun(states, actions, times) && j < |states| && k < |states[j].members|
    ensures var m := states[j].members[k];
            SignInResult(states[j], m.email) ==
            User(m.id, k == 0, exists i :: 0 <= i < j && k < |states[i].members| && actions[i] == Block(m.id))
  {
    RunKeepsInv(states, actions, times, j);
    RunBlockedIff(states, actions, times, j, k);
    SignInExact(states[j], states[j].members[k].email);
    assert MembersOk(states[j]) by { EmailsOk(states[j]); }
    hide IsRun, Inv, SignInResult;
  }

  // Texts

  /** Step `a` at `now` is the author's own edit of thread `t`, inside the window. */
  predicate OwnThreadEdit(t: Thread, a: Action, now: Time) {
    a.UpdateThread? && a.tid == t.id && a.author == t.memberId && now <= t.datePosted + EDIT_WINDOW
  }

  predicate OwnPostEdit(p: Post, a: Action, now: Time) {
    a.UpdateThreadPost? && a.pid == p.id && a.author == p.memberId && now <= p.datePosted + EDIT_WINDOW
  }

  lemma InsertPostKeepsTexts(db: Db, tid: int, author: int, body: string, pick: Pick, now: Time)
    requires ValidPick(db.posts + [NewPost(db, tid, author, body, now)], tid, pick)
    ensures var db' := InsertPost(db, tid, author, body, pick, now);
            forall i :: 0 <= i < |db.threads| ==> db'.threads[i].subject == db.threads[i].subject
    ensures var db' := InsertPost(db, tid, author, body, pick, now);
            forall i :: 0 <= i < |db.posts| ==> db'.posts[i].body == db.posts[i].body
  {
    hide Participate, ThreadPosts, IsEarliest, IsLatest;
  }

  lemma StepChangesText(db: Db, a: Action, now: Time)
    requires Lawful(db, a, now)
    ensures var db' := Step(db, a, now);
            forall i :: 0 <= i < |db.threads| && i < |db'.threads| &&
                        db'.threads[i].subject != db.threads[i].subject ==>
                          OwnThreadEdit(db.threads[i], a, now)
    ensures var db' := Step(db, a, now);
            forall i :: 0 <= i < |db.posts| && i < |db'.posts| && db'.posts[i].body != db.posts[i].body ==>
                          OwnPostEdit(db.posts[i], a, now)
  {
    hide IsEarliest, IsLatest, InsertPost;
    match a
    case NewThread(author, subject, body, pick) =>
      if NewThreadAccepted(db, author, subject) {
        var mid := InsertThread(db, author, subject, now);
        InsertPostKeepsTexts(mid, db.nextThread, author, body, pick, now);
        StepGrows(db, a, now);
        forall i | 0 <= i < |db.threads| ensures Step(db, a, now).threads[i].subject == db.threads[i].subject {
          assert mid.threads[i] == db.threads[i];
        }
      }
    case Reply(author, tid, body, pick) => InsertPostKeepsTexts(db, tid, author, body, pick, now);
    case _ =>
  }

  /** A subject that differs between two points of a run was changed by its author within the window. */
  lemma {:induction false} RunSubjectChanges(states: seq<Db>, actions: seq<Action>, times: seq<Time>, i: nat, j: nat,
                                             t: int)
    requires IsRun(states, actions, times) && i <= j < |states| && 0 <= t < |states[i].threads|
    requires t < |states[j].threads| && states[j].threads[t].subject != states[i].threads[t].subject
    ensures exists k :: i <= k < j && OwnThreadEdit(states[i].threads[t], actions[k], times[k])
    decreases j
  {
    RunGrows(states, actions, times, i, j - 1);
    var now := times[j - 1];
    assert StepsTo(states[j - 1], actions[j - 1], now, states[j]);
    StepChangesText(states[j - 1], actions[j - 1], now);
    assert SameThread(states[i].threads[t], states[j - 1].threads[t]);
    if states[j].threads[t].subject != states[j - 1].threads[t].subject {
      assert OwnThreadEdit(states[i].threads[t], actions[j - 1], times[j - 1]);
    } else {
      RunSubjectChanges(states, actions, times, i, j - 1, t);
    }
  }

  lemma {:induction false} RunBodyChanges(states: seq<Db>, actions: seq<Action>, times: seq<Time>, i: nat, j: nat,
                                          p: int)
    requires IsRun(states, actions, times) && i <= j < |states| && 0 <= p < |states[i].posts|
    requires p < |states[j].posts| && states[j].posts[p].body != states[i].posts[p].body
    ensures exists k :: i <= k < j && OwnPostEdit(states[i].posts[p], actions[k], times[k])
    decreases j
  {
    RunGrows(states, actions, times, i, j - 1);
    var now := times[j - 1];
    assert StepsTo(states[j - 1], actions[j - 1], now, states[j]);
    StepChangesText(states[j - 1], actions[j - 1], now);
    if states[j].posts[p].body != states[j - 1].posts[p].body {
      assert OwnPostEdit(states[i].posts[p], actions[j - 1], times[j - 1]);
    } else {
      RunBodyChanges(states, actions, times, i, j - 1, p);
    }
  }

  /** Once the window of a text has passed, no continuation of the run changes it. */
  lemma RunTextFrozen(states: seq<Db>, actions: seq<Action>, times: seq<Time>, i: nat, j: nat)
    requires IsRun(states, actions, times) && i <= j < |states|
    ensures Grows(states[i], states[j])
    ensures forall t :: 0 <= t < |states[i].threads| &&
                        states[i].threads[t].datePosted + EDIT_WINDOW < states[i].clock ==>
                          states[j].threads[t].subject == states[i].threads[t].subject
    ensures forall p :: 0 <= p < |states[i].posts| && states[i].posts[p].datePosted + EDIT_WINDOW < states[i].clock ==>
                          states[j].posts[p] == states[i].posts[p]
  {
    RunGrows(states, actions, times, i, j);
    forall k | i <= k < j ensures states[i].clock <= times[k] {
      RunGrows(states, actions, times, i, k);
      assert StepsTo(states[k], actions[k], times[k], states[k + 1]);
    }
    forall t | 0 <= t < |states[i].threads| && states[i].threads[t].datePosted + EDIT_WINDOW < states[i].clock
      ensures states[j].threads[t].subject == states[i].threads[t].subject
    {
      if states[j].threads[t].subject != states[i].threads[t].subject {
        RunSubjectChanges(states, actions, times, i, j, t);
      }
    }
    forall p | 0 <= p < |states[i].posts| && states[i].posts[p].datePosted + EDIT_WINDOW < states[i].clock
      ensures states[j].posts[p] == states[i].posts[p]
    {
      if states[j].posts[p].body != states[i].posts[p].body {
        RunBodyChanges(states, actions, times, i, j, p);
      }
    }
  }
}
