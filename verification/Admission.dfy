/** The member table and the authentication gate together: whom the pages serve, over whole runs. */
module Admission {
  import opened Tables
  import opened Board
  import opened BoardProofs
  import opened History
  import C = Chains
  import G = Gate

  /** CreateOrGetUser of the authentication provider, on the answer of createOrReturnID. */
  function IdentityOf(r: SignedIn): G.Identity {
    match r
    case Refused => G.LookupFailed
    case User(id, isAdmin, isBlocked) => G.Known(G.User(id, isAdmin, isBlocked))
  }

  /** What a request leaves in the log behind the authenticated chain. */
  function MemberLog(f: G.Flags, extra: string, r: G.Request): seq<G.Event> {
    C.Nest(G.PublicList(f) + G.SignInList(f) + [G.Around(extra)], G.Endpoint())(r, None, G.Heap([], [])).log
  }

  function AdminLog(f: G.Flags, extra: string, r: G.Request): seq<G.Event> {
    C.Nest(G.PublicList(f) + G.SignInList(f) + G.AdminList() + [G.Around(extra)],
           G.Endpoint())(r, None, G.Heap([], [])).log
  }

  /** Once blocked, a member never causes another handler to run behind the authenticated chain. */
  lemma RunBlockedNeverServed(states: seq<Db>, actions: seq<Action>, times: seq<Time>, i: nat, j: nat, at: int,
                              f: G.Flags, extra: string, r: G.Request)
    requires IsRun(states, actions, times) && i < j < |states| && f.auth
    requires 0 <= at < |states[i].members| && actions[i] == Block(states[i].members[at].id)
    requires r.identity == IdentityOf(SignInResult(states[j], states[i].members[at].email))
    ensures forall e :: e in MemberLog(f, extra, r) ==> !e.Handled?
  {
    RunBlockedForEver(states, actions, times, i, j, at);
    G.MemberChainSafe(f, extra, r, None, []);
    hide IsRun, SignInResult, C.Nest;
    var log := MemberLog(f, extra, r);
    forall e | e in log ensures !e.Handled? {
      var k :| 0 <= k < |log| && log[k] == e;
      assert G.MemberOk()(r, log[k]);
    }
  }

  /**
   At every point of every run, with authentication on: the requests of a member
   reach the page behind the authenticated chain exactly if no barrier stops them
   and no step since the member signed up was a block of its id.
   */
  lemma RunMemberServed(states: seq<Db>, actions: seq<Action>, times: seq<Time>, j: nat, k: nat,
                        f: G.Flags, extra: string, r: G.Request)
    requires IsRun(states, actions, times) && j < |states| && k < |states[j].members| && f.auth
    requires r.identity == IdentityOf(SignInResult(states[j], states[j].members[k].email))
    ensures (exists e :: e in MemberLog(f, extra, r) && e.Handled?) <==>
              r.small && (f.rateLimit ==> r.withinRate) && (f.csrf ==> !r.mutating || r.sameOrigin) &&
              !exists i :: 0 <= i < j && k < |states[i].members| && actions[i] == Block(states[j].members[k].id)
  {
    RunAnswer(states, actions, times, j, k);
    G.MemberChainServes(f, extra, r, None, []);
    hide IsRun, SignInResult, C.Nest;
    var log := MemberLog(f, extra, r);
    assert G.Served(log) <==> exists e :: e in log && e.Handled?;
  }

  /** The same for the pages behind the admin chain, which only the first member reaches. */
  lemma RunAdminServed(states: seq<Db>, actions: seq<Action>, times: seq<Time>, j: nat, k: nat,
                       f: G.Flags, extra: string, r: G.Request)
    requires IsRun(states, actions, times) && j < |states| && k < |states[j].members| && f.auth
    requires r.identity == IdentityOf(SignInResult(states[j], states[j].members[k].email))
    ensures (exists e :: e in AdminLog(f, extra, r) && e.Handled?) <==>
              r.small && (f.rateLimit ==> r.withinRate) && (f.csrf ==> !r.mutating || r.sameOrigin) && k == 0 &&
              !exists i :: 0 <= i < j && k < |states[i].members| && actions[i] == Block(states[j].members[k].id)
  {
    RunAnswer(states, actions, times, j, k);
    G.AdminChainServes(f, extra, r, None, []);
    hide IsRun, SignInResult, C.Nest;
    var log := AdminLog(f, extra, r);
    assert G.Served(log) <==> exists e :: e in log && e.Handled?;
  }

  /** The member an administration page may serve: the first one ever created. */
  function FirstMember(db: Db): int {
    if |db.members| > 0 then db.members[0].id else db.nextMember
  }

  lemma AdminIsFirst(db: Db, email: string)
    requires MembersOk(db)
    ensures var r := SignInResult(db, email); r.User? && r.isAdmin ==> r.id == FirstMember(db)
  {
  }

  lemma ServesFirst(db: Db, email: string, f: G.Flags, extra: string, r: G.Request)
    requires MembersOk(db) && r.identity == IdentityOf(SignInResult(db, email))
    ensures forall e :: e in AdminLog(f, extra, r) && e.Handled? ==> e.user.Some? && e.user.value.id == FirstMember(db)
  {
    AdminIsFirst(db, email);
    G.AdminChainSafe(f, extra, r, None, []);
    hide SignInResult, C.Nest, MembersOk, FirstMember;
    var log := AdminLog(f, extra, r);
    forall e | e in log && e.Handled? ensures e.user.Some? && e.user.value.id == FirstMember(db) {
      var k :| 0 <= k < |log| && log[k] == e;
      assert G.AdminOk()(r, log[k]);
    }
  }

  /**
   At every point of every run, whatever the flags, an administration page is
   served to nobody but the first member.
   */
  lemma RunAdminServesFirst(states: seq<Db>, actions: seq<Action>, times: seq<Time>, j: nat, email: string,
                            f: G.Flags, extra: string, r: G.Request)
    requires IsRun(states, actions, times) && j < |states|
    requires r.identity == IdentityOf(SignInResult(states[j], email))
    ensures forall e :: e in AdminLog(f, extra, r) && e.Handled? ==>
              e.user.Some? && e.user.value.id == FirstMember(states[j])
  {
    hide AdminLog, SignInResult, FirstMember, KeysOk, RefsOk, DatesOk, CountersOk, ThreadsOk, PartsOk, MembersOk;
    RunKeepsInv(states, actions, times, j);
    ServesFirst(states[j], email, f, extra, r);
  }
}
