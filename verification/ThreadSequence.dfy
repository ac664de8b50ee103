/**
 The create-thread transaction with its statements taken apart. Sessions of the
 connection pool interleave at statement level; `nextval` is global and is not
 undone by a rollback; `currval` belongs to the session and outlives transactions.
 */
module ThreadSequence {
  import opened Tables

  datatype Phase =
    | Idle
    | Begun                         // BEGIN
    | Inserted(row: int)            // INSERT INTO thread gave the row this id
    | Read(row: int, currval: int)  // SELECT currval('thread_id_seq') answered this
    | Posted(row: int, thread: int) // INSERT INTO thread_post refers to this thread

  datatype Session = Session(author: int, phase: Phase, currval: Option<int>)

  datatype ThreadRow = ThreadRow(id: int, author: int)
  datatype PostRow = PostRow(thread: int, author: int)

  /** The sequence, the sessions, and the committed rows in the order of their commits. */
  datatype State = State(next: int, sessions: seq<Session>, threads: seq<ThreadRow>, posts: seq<PostRow>)

  datatype Event =
    | Begin(s: nat, author: int)
    | InsertThread(s: nat)
    | FailInsertThread(s: nat)      // a violated constraint: the id is used up, the transaction is gone
    | ReadCurrval(s: nat)
    | InsertPost(s: nat)
    | Commit(s: nat)
    | Rollback(s: nat)              // an error, or the deferred tx.Rollback
    | Reply(thread: int, author: int)

  function Init(pool: nat): State {
    State(1, seq(pool, _ => Session(0, Idle, None)), [], [])
  }

  predicate Committed(st: State, thread: int) {
    exists i :: 0 <= i < |st.threads| && st.threads[i].id == thread
  }

  predicate Enabled(st: State, e: Event) {
    match e
    case Begin(s, _) => s < |st.sessions| && st.sessions[s].phase.Idle?
    case InsertThread(s) => s < |st.sessions| && st.sessions[s].phase.Begun?
    case FailInsertThread(s) => s < |st.sessions| && st.sessions[s].phase.Begun?
    case ReadCurrval(s) => s < |st.sessions| && st.sessions[s].phase.Inserted? && st.sessions[s].currval.Some?
    // the foreign key sees the session's own row and the committed rows
    case InsertPost(s) =>
      s < |st.sessions| && st.sessions[s].phase.Read? &&
      (st.sessions[s].phase.currval == st.sessions[s].phase.row || Committed(st, st.sessions[s].phase.currval))
    case Commit(s) => s < |st.sessions| && st.sessions[s].phase.Posted?
    case Rollback(s) => s < |st.sessions| && !st.sessions[s].phase.Idle?
    case Reply(thread, _) => Committed(st, thread)
  }

  function Next(st: State, e: Event): State
    requires Enabled(st, e)
  {
    match e
    case Begin(s, author) => st.(sessions := st.sessions[s := st.sessions[s].(author := author, phase := Begun)])
    case InsertThread(s) =>
      st.(next := st.next + 1,
          sessions := st.sessions[s := st.sessions[s].(phase := Inserted(st.next), currval := Some(st.next))])
    case FailInsertThread(s) =>
      st.(next := st.next + 1,
          sessions := st.sessions[s := st.sessions[s].(phase := Idle, currval := Some(st.next))])
    case ReadCurrval(s) =>
      var x := st.sessions[s];
      st.(sessions := st.sessions[s := x.(phase := Read(x.phase.row, x.currval.value))])
    case InsertPost(s) =>
      var x := st.sessions[s];
      st.(sessions := st.sessions[s := x.(phase := Posted(x.phase.row, x.phase.currval))])
    case Commit(s) =>
      var x := st.sessions[s];
      st.(sessions := st.sessions[s := x.(phase := Idle)],
          threads := st.threads + [ThreadRow(x.phase.row, x.author)],
          posts := st.posts + [PostRow(x.phase.thread, x.author)])
    case Rollback(s) => st.(sessions := st.sessions[s := st.sessions[s].(phase := Idle)])
    case Reply(thread, author) => st.(posts := st.posts + [PostRow(thread, author)])
  }

  ghost predicate IsRun(states: seq<State>, events: seq<Event>) {
    |states| == |events| + 1 && (exists pool: nat :: states[0] == Init(pool)) &&
    forall i :: 0 <= i < |events| ==> Takes(states[i], events[i], states[i + 1])
  }

  predicate Takes(st: State, e: Event, st': State) {
    Enabled(st, e) && st' == Next(st, e)
  }

  /** The id of the row a session has inserted and not yet committed. */
  function Pending(x: Session): Option<int> {
    match x.phase
    case Inserted(row) => Some(row)
    case Read(row, _) => Some(row)
    case Posted(row, _) => Some(row)
    case _ => None
  }

  predicate SessionOk(x: Session, next: int) {
    (Pending(x).Some? ==> x.currval == Pending(x) && x.currval.value < next) &&
    (x.phase.Read? ==> x.phase.currval == x.phase.row) &&
    (x.phase.Posted? ==> x.phase.thread == x.phase.row)
  }

  ghost predicate Inv(st: State) {
    && (forall s :: 0 <= s < |st.sessions| ==> SessionOk(st.sessions[s], st.next))
    && (forall s, r :: 0 <= s < r < |st.sessions| && Pending(st.sessions[s]).Some? ==>
                         Pending(st.sessions[s]) != Pending(st.sessions[r]))
    && (forall i :: 0 <= i < |st.threads| ==> st.threads[i].id < st.next)
    && (forall i, j :: 0 <= i < j < |st.threads| ==> st.threads[i].id != st.threads[j].id)
    && (forall i, s :: 0 <= i < |st.threads| && 0 <= s < |st.sessions| ==>
      Some(st.threads[i].id) != Pending(st.sessions[s]))
    && (forall i :: 0 <= i < |st.threads| ==> HasOpeningPost(st, st.threads[i]))
    && (forall k :: 0 <= k < |st.posts| ==> Committed(st, st.posts[k].thread))
  }

  predicate HasOpeningPost(st: State, t: ThreadRow) {
    exists k :: 0 <= k < |st.posts| && st.posts[k] == PostRow(t.id, t.author)
  }

  lemma CommitKeepsRows(st: State, s: nat)
    requires Inv(st) && Enabled(st, Commit(s))
    ensures var st' := Next(st, Commit(s));
            (forall i :: 0 <= i < |st'.threads| ==> HasOpeningPost(st', st'.threads[i])) &&
            forall k :: 0 <= k < |st'.posts| ==> Committed(st', st'.posts[k].thread)
  {
    var st' := Next(st, Commit(s));
    forall t | HasOpeningPost(st, t) ensures HasOpeningPost(st', t) {
      var k :| 0 <= k < |st.posts| && st.posts[k] == PostRow(t.id, t.author);
      assert st'.posts[k] == PostRow(t.id, t.author);
    }
    forall id | Committed(st, id) ensures Committed(st', id) {
      var i :| 0 <= i < |st.threads| && st.threads[i].id == id;
      assert st'.threads[i].id == id;
    }
    assert st'.posts[|st.posts|] == PostRow(st.sessions[s].phase.row, st.sessions[s].author);
    assert st'.threads[|st.threads|].id == st.sessions[s].phase.row;
  }

  lemma CommitKeepsInv(st: State, s: nat)
    requires Inv(st) && Enabled(st, Commit(s))
    ensures Inv(Next(st, Commit(s)))
  {
    hide HasOpeningPost, Committed;
    CommitKeepsRows(st, s);
  }

  lemma ReplyKeepsInv(st: State, thread: int, author: int)
    requires Inv(st) && Enabled(st, Reply(thread, author))
    ensures Inv(Next(st, Reply(thread, author)))
  {
    var st' := Next(st, Reply(thread, author));
    forall t | HasOpeningPost(st, t) ensures HasOpeningPost(st', t) {
      var k :| 0 <= k < |st.posts| && st.posts[k] == PostRow(t.id, t.author);
      assert st'.posts[k] == PostRow(t.id, t.author);
    }
    assert st'.threads == st.threads;
    forall k | 0 <= k < |st'.posts| ensures Committed(st', st'.posts[k].thread) {
      assert Committed(st, st'.posts[k].thread);
    }
  }

  /** The committed part of the invariant does not depend on the sessions. */
  lemma SameRows(st: State, st': State)
    requires Inv(st) && st'.threads == st.threads && st'.posts == st.posts
    ensures forall i :: 0 <= i < |st'.threads| ==> HasOpeningPost(st', st'.threads[i])
    ensures forall k :: 0 <= k < |st'.posts| ==> Committed(st', st'.posts[k].thread)
  {
    forall i | 0 <= i < |st.threads| ensures HasOpeningPost(st', st'.threads[i]) {
      assert HasOpeningPost(st, st.threads[i]);
    }
    forall k | 0 <= k < |st.posts| ensures Committed(st', st'.posts[k].thread) {
      assert Committed(st, st.posts[k].thread);
    }
  }

  lemma SessionKeepsInv(st: State, e: Event)
    requires Inv(st) && Enabled(st, e) && !e.Commit? && !e.Reply?
    ensures Inv(Next(st, e))
  {
    hide HasOpeningPost, Committed;
    SameRows(st, Next(st, e));
  }

  lemma NextKeepsInv(st: State, e: Event)
    requires Inv(st) && Enabled(st, e)
    ensures Inv(Next(st, e))
  {
    hide Inv, Next;
    match e
    case Commit(s) => CommitKeepsInv(st, s);
    case Reply(thread, author) => ReplyKeepsInv(st, thread, author);
    case _ => SessionKeepsInv(st, e);
  }

  lemma {:induction false} RunInv(states: seq<State>, events: seq<Event>, i: nat)
    requires IsRun(states, events) && i < |states|
    ensures Inv(states[i])
  {
    if i > 0 {
      hide Inv;
      RunInv(states, events, i - 1);
      assert Takes(states[i - 1], events[i - 1], states[i]);
      NextKeepsInv(states[i - 1], events[i - 1]);
    }
  }

  /**
   In every interleaving a commit adds exactly one thread and one post, the post
   belongs to the thread the same transaction inserted, by the same author, and
   the id is new. No other event changes the committed threads, and only a reply
   to a committed thread adds another post: the interleaved system refines the
   atomic one.
   */
  lemma RunIsAtomic(states: seq<State>, events: seq<Event>, i: nat)
    requires IsRun(states, events) && i < |events|
    ensures var st, st' := states[i], states[i + 1];
            match events[i]
            case Commit(s) =>
              s < |st.sessions| && Pending(st.sessions[s]).Some? &&
              var id, author := Pending(st.sessions[s]).value, st.sessions[s].author;
              !Committed(st, id) && st'.threads == st.threads + [ThreadRow(id, author)] &&
              st'.posts == st.posts + [PostRow(id, author)]
            case Reply(thread, author) =>
              Committed(st, thread) && st'.threads == st.threads && st'.posts == st.posts + [PostRow(thread, author)]
            case _ => st'.threads == st.threads && st'.posts == st.posts
  {
    RunInv(states, events, i);
    assert Takes(states[i], events[i], states[i + 1]);
    assert Inv(states[i]);
  }

  /** In no interleaving is a session stuck: the next statement of its transaction can always be taken. */
  lemma RunNeverStuck(states: seq<State>, events: seq<Event>, i: nat, s: nat)
    requires IsRun(states, events) && i < |states| && s < |states[i].sessions|
    ensures match states[i].sessions[s].phase
            case Idle => forall author :: Enabled(states[i], Begin(s, author))
            case Begun => Enabled(states[i], InsertThread(s))
            case Inserted(_) => Enabled(states[i], ReadCurrval(s))
            case Read(_, _) => Enabled(states[i], InsertPost(s))
            case Posted(_, _) => Enabled(states[i], Commit(s))
  {
    RunInv(states, events, i);
    assert SessionOk(states[i].sessions[s], states[i].next);
  }

  /** The statements of one transaction, taken one after the other by session `s`. */
  function Transaction(s: nat, author: int): seq<Event> {
    [Begin(s, author), InsertThread(s), ReadCurrval(s), InsertPost(s), Commit(s)]
  }

  /**
   At every point of every interleaving an idle session can run its transaction,
   and what that adds is a thread by its author, under an id no thread has, with
   a post; every other session stays where it is.
   */
  lemma RunCompletes(states: seq<State>, events: seq<Event>, i: nat, s: nat, author: int) returns (steps: seq<State>)
    requires IsRun(states, events) && i < |states|
    requires s < |states[i].sessions| && states[i].sessions[s].phase.Idle?
    ensures |steps| == 6 && steps[0] == states[i]
    ensures forall k :: 0 <= k < 5 ==> Takes(steps[k], Transaction(s, author)[k], steps[k + 1])
    ensures var id := states[i].next;
            !Committed(states[i], id) && steps[5].threads == states[i].threads + [ThreadRow(id, author)] &&
            steps[5].posts == states[i].posts + [PostRow(id, author)] &&
            |steps[5].sessions| == |states[i].sessions| &&
            forall r :: 0 <= r < |steps[5].sessions| && r != s ==> steps[5].sessions[r] == states[i].sessions[r]
  {
    RunInv(states, events, i);
    var s0 := states[i];
    var s1 := Next(s0, Begin(s, author));
    var s2 := Next(s1, InsertThread(s));
    var s3 := Next(s2, ReadCurrval(s));
    var s4 := Next(s3, InsertPost(s));
    var s5 := Next(s4, Commit(s));
    hide Inv;
    steps := [s0, s1, s2, s3, s4, s5];
  }

  /** Committed threads have different ids and each has a post by its author; each post has a committed thread. */
  lemma RunCommittedRows(states: seq<State>, events: seq<Event>, i: nat)
    requires IsRun(states, events) && i < |states|
    ensures var st := states[i];
            (forall j, k :: 0 <= j < k < |st.threads| ==> st.threads[j].id != st.threads[k].id) &&
            (forall j :: 0 <= j < |st.threads| ==> HasOpeningPost(st, st.threads[j])) &&
            forall k :: 0 <= k < |st.posts| ==> Committed(st, st.posts[k].thread)
  {
    RunInv(states, events, i);
  }

  predicate Issues(e: Event) { e.InsertThread? || e.FailInsertThread? }

  /** An id handed out once is never handed out again, also not after a rollback. */
  lemma {:induction false} RunIdsFresh(states: seq<State>, events: seq<Event>, i: nat, j: nat)
    requires IsRun(states, events) && i < j < |states| && Issues(events[i])
    ensures states[i].next < states[j].next
  {
    assert Takes(states[j - 1], events[j - 1], states[j]);
    if i < j - 1 {
      RunIdsFresh(states, events, i, j - 1);
    }
  }

  /** The last value of the sequence would not do in place of currval: another session may have drawn since. */
  lemma LastValueIsNotOwn() returns (states: seq<State>, events: seq<Event>)
    ensures IsRun(states, events)
    ensures var st := states[|events|];
            exists s :: 0 <= s < |st.sessions| && st.sessions[s].phase.Inserted? &&
                        st.sessions[s].phase.row != st.next - 1 &&
                          st.sessions[s].currval == Some(st.sessions[s].phase.row)
  {
    events := [Begin(0, 7), Begin(1, 8), InsertThread(0), InsertThread(1)];
    var s0 := Init(2);
    var s1 := Next(s0, events[0]);
    var s2 := Next(s1, events[1]);
    var s3 := Next(s2, events[2]);
    var s4 := Next(s3, events[3]);
    states := [s0, s1, s2, s3, s4];
    assert s4.sessions[0].phase == Inserted(1) && s4.sessions[0].currval == Some(1) && s4.next == 3;
    assert states[|events|].sessions[0] == s4.sessions[0];
  }
}
