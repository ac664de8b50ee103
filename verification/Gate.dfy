/**
 The middlewares of the application as handler transformers, and who gets
 through them. A request carries a pointer to a RequestContext or none; the
 contexts live on a heap that all handlers of the request share.
 */
module Gate {
  import opened Tables
  import C = Chains

  datatype User = User(id: int, isAdmin: bool, isBlocked: bool)

  /** What GetUserEmail and CreateOrGetUser answer. */
  datatype Identity = NoEmail | LookupFailed | Known(user: User)

  /** A request, and the decisions that depend on it but not on the chain. */
  datatype Request = Request(identity: Identity, mutating: bool, sameOrigin: bool, small: bool, withinRate: bool)

  datatype Event =
    | Before(tag: string)
    | After(tag: string)
    | Stopped(tag: string)
    | Limited(user: Option<User>)  // the rate limiter chose its key from this user
    | Audited(user: Option<User>)  // adminAuditMiddleware read the id of this user
    | Handled(user: Option<User>)  // the endpoint ran for this user

  datatype Heap = Heap(contexts: seq<Option<User>>, log: seq<Event>)

  type Ctx = Option<nat>

  type Handler = (Request, Ctx, Heap) -> Heap
  type Middleware = Handler -> Handler

  function Log(hp: Heap, e: Event): Heap {
    hp.(log := hp.log + [e])
  }

  /** getUser */
  function GetUser(c: Ctx, hp: Heap): Option<User> {
    if c.Some? && c.value < |hp.contexts| then hp.contexts[c.value] else None
  }

  /** The endpoint at the end of a chain. */
  function Endpoint(): Handler {
    (r: Request, c: Ctx, hp: Heap) => Log(hp, Handled(GetUser(c, hp)))
  }

  // Middlewares

  function WithContext(): Middleware {
    (next: Handler) => (r: Request, c: Ctx, hp: Heap) =>
      next(r, Some(|hp.contexts|), hp.(contexts := hp.contexts + [None]))
  }

  /** Observability, logging, security headers, enrichment, board data: work before and after the next handler. */
  function Around(tag: string): Middleware {
    (next: Handler) => (r: Request, c: Ctx, hp: Heap) => Log(next(r, c, Log(hp, Before(tag))), After(tag))
  }

  /** Pass the request on if `open` says so, and answer it here otherwise. */
  function Barrier(tag: string, open: Request -> bool): Middleware {
    (next: Handler) => (r: Request, c: Ctx, hp: Heap) => if open(r) then next(r, c, hp) else Log(hp, Stopped(tag))
  }

  function SizeLimit(): Middleware { Barrier("size", (r: Request) => r.small) }

  /** when(hasMethod(POST, PUT, PATCH, DELETE), csrfProtectionMiddleware) */
  function Csrf(): Middleware { Barrier("csrf", (r: Request) => !r.mutating || r.sameOrigin) }

  function RateLimit(): Middleware {
    (next: Handler) => (r: Request, c: Ctx, hp: Heap) =>
      var hp' := Log(hp, Limited(GetUser(c, hp)));
      if r.withinRate then next(r, c, hp') else Log(hp', Stopped("rate"))
  }

  /** authMiddleware; without a context in the request the user goes to a context nobody can find. */
  function Auth(): Middleware {
    (next: Handler) => (r: Request, c: Ctx, hp: Heap) =>
      if !r.identity.Known? || r.identity.user.isBlocked then Log(hp, Stopped("auth"))
      else if c.Some? && c.value < |hp.contexts| then
        next(r, c, hp.(contexts := hp.contexts[c.value := Some(r.identity.user)]))
      else next(r, c, hp.(contexts := hp.contexts + [Some(r.identity.user)]))
  }

  function RequireAdmin(): Middleware {
    (next: Handler) => (r: Request, c: Ctx, hp: Heap) =>
      if GetUser(c, hp).Some? && GetUser(c, hp).value.isAdmin then next(r, c, hp) else Log(hp, Stopped("admin"))
  }

  function Audit(): Middleware {
    (next: Handler) => (r: Request, c: Ctx, hp: Heap) =>
      Log(next(r, c, Log(hp, Audited(GetUser(c, hp)))), After("audit"))
  }

  // Chains

  datatype Flags = Flags(auth: bool, rateLimit: bool, metrics: bool, tracing: bool, csrf: bool)

  function Optional(on: bool, ms: seq<Middleware>): seq<Middleware> {
    if on then ms else []
  }

  function PublicList(f: Flags): seq<Middleware> {
    [WithContext()] + Optional(f.metrics || f.tracing, [Around("observability")]) +
    [Around("logging"), Around("security"), SizeLimit()] + Optional(f.rateLimit, [RateLimit()])
  }

  function SignInList(f: Flags): seq<Middleware> {
    Optional(f.auth, [Auth(), Around("enrichment")]) + Optional(f.csrf, [Csrf()])
  }

  function AdminList(): seq<Middleware> { [RequireAdmin(), Audit()] }

  class MiddlewareSetup {
    const flags: Flags

    constructor (flags: Flags)
      ensures this.flags == flags
    {
      this.flags := flags;
    }

    method CreatePublicChain() returns (c: C.Chain<Handler>)
      ensures fresh(c) && c.middlewares == PublicList(flags)
    {
      var ms := [WithContext()];
      if flags.metrics || flags.tracing {
        ms := ms + [Around("observability")];
      }
      ms := ms + [Around("logging")];
      ms := ms + [Around("security")];
      ms := ms + [SizeLimit()];
      if flags.rateLimit {
        ms := ms + [RateLimit()];
      }
      c := new C.Chain(ms);
    }

    method CreateAuthenticatedChain() returns (c: C.Chain<Handler>)
      ensures fresh(c) && c.middlewares == PublicList(flags) + SignInList(flags)
    {
      c := CreatePublicChain();
      if flags.auth {
        c := c.Append([Auth(), Around("enrichment")]);
      }
      if flags.csrf {
        c := c.Append([Csrf()]);
      }
    }

    method CreateAdminChain() returns (c: C.Chain<Handler>)
      ensures fresh(c) && c.middlewares == PublicList(flags) + SignInList(flags) + AdminList()
    {
      c := CreateAuthenticatedChain();
      c := c.Append([RequireAdmin()]);
      c := c.Append([Audit()]);
    }
  }

  // Order of effects

  /** A middleware that works before and after, or answers at once if it is not open. */
  datatype Layer = Layer(tag: string, open: Request -> bool)

  function LayerOf(l: Layer): Middleware {
    (next: Handler) => (r: Request, c: Ctx, hp: Heap) =>
      if l.open(r) then Log(next(r, c, Log(hp, Before(l.tag))), After(l.tag)) else Log(hp, Stopped(l.tag))
  }

  function LayersOf(ls: seq<Layer>): seq<Middleware> {
    if |ls| == 0 then [] else [LayerOf(ls[0])] + LayersOf(ls[1..])
  }

  function FirstClosed(ls: seq<Layer>, r: Request): (k: nat)
    ensures k <= |ls|
    ensures forall i :: 0 <= i < k ==> ls[i].open(r)
    ensures k < |ls| ==> !ls[k].open(r)
  {
    if |ls| == 0 || !ls[0].open(r) then 0 else 1 + FirstClosed(ls[1..], r)
  }

  function Befores(ls: seq<Layer>): seq<Event> {
    if |ls| == 0 then [] else [Before(ls[0].tag)] + Befores(ls[1..])
  }

  function Afters(ls: seq<Layer>): seq<Event> {
    if |ls| == 0 then [] else Afters(ls[1..]) + [After(ls[0].tag)]
  }

  /**
   Up to the first closed layer the before-effects happen in list order; then the
   handler runs, or the closed layer answers; then the after-effects happen in reverse.
   */
  lemma {:induction false} ThenOrder(ls: seq<Layer>, h: Handler, r: Request, c: Ctx, hp: Heap)
    ensures var k := FirstClosed(ls, r);
            var entered := hp.(log := hp.log + Befores(ls[..k]));
            var inner := if k == |ls| then h(r, c, entered) else Log(entered, Stopped(ls[k].tag));
            C.Nest(LayersOf(ls), h)(r, c, hp) == inner.(log := inner.log + Afters(ls[..k]))
  {
    var k := FirstClosed(ls, r);
    if |ls| == 0 {
      assert hp.log + [] == hp.log;
      assert h(r, c, hp).log + [] == h(r, c, hp).log;
    } else if k == 0 {
      assert hp.log + [] == hp.log;
      assert Log(hp, Stopped(ls[0].tag)).log + [] == Log(hp, Stopped(ls[0].tag)).log;
    } else {
      var rest := ls[1..];
      assert LayersOf(ls)[1..] == LayersOf(rest);
      var hp1 := Log(hp, Before(ls[0].tag));
      ThenOrder(rest, h, r, c, hp1);
      assert ls[..k][1..] == rest[..k - 1];
      assert hp1.log + Befores(rest[..k - 1]) == hp.log + Befores(ls[..k]);
      var inner := C.Nest(LayersOf(rest), h)(r, c, hp1);
      assert Afters(ls[..k]) == Afters(rest[..k - 1]) + [After(ls[0].tag)];
    }
  }

  // What a chain does to a request, exactly

  /** The context a request carries is on the heap. */
  predicate Located(c: Ctx, hp: Heap) {
    c.Some? && c.value < |hp.contexts|
  }

  /** Handler `h`, called for this request with this user in its context, adds these events. */
  ghost predicate Adds(h: Handler, r: Request, u: Option<User>, events: seq<Event>) {
    forall c: Ctx, hp: Heap :: Located(c, hp) && GetUser(c, hp) == u ==> h(r, c, hp).log == hp.log + events
  }

  lemma LogConcat(log: seq<Event>, a: seq<Event>, b: seq<Event>)
    ensures (log + a) + b == log + (a + b)
  {
  }

  lemma EndpointAdds(r: Request, u: Option<User>)
    ensures Adds(Endpoint(), r, u, [Handled(u)])
  {
  }

  /** Events before and after those of the next handler. */
  function Around3(first: Event, inner: seq<Event>, last: Event): seq<Event> {
    [first] + inner + [last]
  }

  lemma AroundAdds(tag: string, next: Handler, r: Request, u: Option<User>, events: seq<Event>)
    requires Adds(next, r, u, events)
    ensures Adds(Around(tag)(next), r, u, Around3(Before(tag), events, After(tag)))
  {
    forall c: Ctx, hp: Heap | Located(c, hp) && GetUser(c, hp) == u
      ensures Around(tag)(next)(r, c, hp).log == hp.log + Around3(Before(tag), events, After(tag))
    {
      var hp1 := Log(hp, Before(tag));
      assert Located(c, hp1) && GetUser(c, hp1) == u;
      LogConcat(hp.log, [Before(tag)], events);
      LogConcat(hp.log, [Before(tag)] + events, [After(tag)]);
    }
  }

  lemma BarrierAdds(tag: string, open: Request -> bool, next: Handler, r: Request, u: Option<User>, events: seq<Event>)
    requires open(r) ==> Adds(next, r, u, events)
    ensures Adds(Barrier(tag, open)(next), r, u, if open(r) then events else [Stopped(tag)])
  {
  }

  lemma RateLimitAdds(next: Handler, r: Request, u: Option<User>, events: seq<Event>)
    requires r.withinRate ==> Adds(next, r, u, events)
    ensures Adds(RateLimit()(next), r, u, [Limited(u)] + if r.withinRate then events else [Stopped("rate")])
  {
    var rest := if r.withinRate then events else [Stopped("rate")];
    forall c: Ctx, hp: Heap | Located(c, hp) && GetUser(c, hp) == u
      ensures RateLimit()(next)(r, c, hp).log == hp.log + ([Limited(u)] + rest)
    {
      var hp1 := Log(hp, Limited(u));
      assert Located(c, hp1) && GetUser(c, hp1) == u;
      LogConcat(hp.log, [Limited(u)], rest);
      assert RateLimit()(next)(r, c, hp) == if r.withinRate then next(r, c, hp1) else Log(hp1, Stopped("rate"));
    }
  }

  /** authMiddleware stops who is unknown or blocked; everybody else goes on as the user in the context. */
  lemma AuthAdds(next: Handler, r: Request, u: Option<User>, events: seq<Event>)
    requires r.identity.Known? && !r.identity.user.isBlocked ==> Adds(next, r, Some(r.identity.user), events)
    ensures Adds(Auth()(next), r, u,
                 if r.identity.Known? && !r.identity.user.isBlocked then events else [Stopped("auth")])
  {
    var passes := r.identity.Known? && !r.identity.user.isBlocked;
    forall c: Ctx, hp: Heap | Located(c, hp)
      ensures Auth()(next)(r, c, hp).log == hp.log + if passes then events else [Stopped("auth")]
    {
      if passes {
        var hp1 := hp.(contexts := hp.contexts[c.value := Some(r.identity.user)]);
        assert Located(c, hp1) && GetUser(c, hp1) == Some(r.identity.user);
        assert Auth()(next)(r, c, hp) == next(r, c, hp1);
      } else {
        assert Auth()(next)(r, c, hp) == Log(hp, Stopped("auth"));
      }
    }
  }

  lemma RequireAdminAdds(next: Handler, r: Request, u: Option<User>, events: seq<Event>)
    requires u.Some? && u.value.isAdmin ==> Adds(next, r, u, events)
    ensures Adds(RequireAdmin()(next), r, u, if u.Some? && u.value.isAdmin then events else [Stopped("admin")])
  {
  }

  lemma AuditAdds(next: Handler, r: Request, u: Option<User>, events: seq<Event>)
    requires Adds(next, r, u, events)
    ensures Adds(Audit()(next), r, u, Around3(Audited(u), events, After("audit")))
  {
    forall c: Ctx, hp: Heap | Located(c, hp) && GetUser(c, hp) == u
      ensures Audit()(next)(r, c, hp).log == hp.log + Around3(Audited(u), events, After("audit"))
    {
      var hp1 := Log(hp, Audited(u));
      assert Located(c, hp1) && GetUser(c, hp1) == u;
      LogConcat(hp.log, [Audited(u)], events);
      LogConcat(hp.log, [Audited(u)] + events, [After("audit")]);
    }
  }

  lemma NestOne(m: Middleware, h: Handler)
    ensures C.Nest([m], h) == m(h)
  {
    assert [m][1..] == [];
    assert C.Nest([m][1..], h) == h;
  }

  lemma NestTwo(m: Middleware, n: Middleware, h: Handler)
    ensures C.Nest([m, n], h) == m(n(h))
  {
    C.NestAppend([m], [n], h);
    assert [m] + [n] == [m, n];
    NestOne(n, h);
    NestOne(m, n(h));
  }

  lemma NestOptional(on: bool, m: Middleware, h: Handler)
    ensures C.Nest(Optional(on, [m]), h) == if on then m(h) else h
  {
    NestOne(m, h);
  }

  lemma PublicNest(f: Flags, next: Handler)
    ensures var limited := if f.rateLimit then RateLimit()(next) else next;
            var logged := Around("logging")(Around("security")(SizeLimit()(limited)));
            C.Nest(PublicList(f), next) ==
            WithContext()(if f.metrics || f.tracing then Around("observability")(logged) else logged)
  {
    var rate := Optional(f.rateLimit, [RateLimit()]);
    var core := [Around("logging"), Around("security"), SizeLimit()];
    var obs := Optional(f.metrics || f.tracing, [Around("observability")]);
    NestOptional(f.rateLimit, RateLimit(), next);
    var limited := C.Nest(rate, next);
    NestTwo(Around("logging"), Around("security"), SizeLimit()(limited));
    NestOne(SizeLimit(), limited);
    C.NestAppend([Around("logging"), Around("security")], [SizeLimit()], limited);
    assert core == [Around("logging"), Around("security")] + [SizeLimit()];
    var logged := C.Nest(core, limited);
    NestOptional(f.metrics || f.tracing, Around("observability"), logged);
    var observed := C.Nest(obs, logged);
    NestOne(WithContext(), observed);
    C.NestAppend([WithContext()], obs, logged);
    C.NestAppend([WithContext()] + obs, core, limited);
    C.NestAppend([WithContext()] + obs + core, rate, next);
  }

  /** What the public middlewares add around `inner`, the events of what they let through. */
  function PublicEvents(f: Flags, r: Request, inner: seq<Event>): seq<Event> {
    var limited := if !f.rateLimit then inner else [Limited(None)] + if r.withinRate then inner else [Stopped("rate")];
    var sized := if r.small then limited else [Stopped("size")];
    var logged := [Before("logging")] + ([Before("security")] + sized + [After("security")]) + [After("logging")];
    if f.metrics || f.tracing then [Before("observability")] + logged + [After("observability")] else logged
  }

  function CsrfEvents(f: Flags, r: Request, inner: seq<Event>): seq<Event> {
    if f.csrf && r.mutating && !r.sameOrigin then [Stopped("csrf")] else inner
  }

  /** What the sign-in middlewares add for a request without a user; `page` are the events behind them. */
  function SignInEvents(f: Flags, r: Request, page: Option<User> -> seq<Event>): seq<Event> {
    if !f.auth then CsrfEvents(f, r, page(None))
    else if !r.identity.Known? || r.identity.user.isBlocked then [Stopped("auth")]
    else [Before("enrichment")] + CsrfEvents(f, r, page(Some(r.identity.user))) + [After("enrichment")]
  }

  function PageEvents(extra: string): Option<User> -> seq<Event> {
    (u: Option<User>) => [Before(extra)] + [Handled(u)] + [After(extra)]
  }

  function AdminPageEvents(extra: string): Option<User> -> seq<Event> {
    (u: Option<User>) =>
      if u.Some? && u.value.isAdmin then [Audited(u)] + PageEvents(extra)(u) + [After("audit")] else [Stopped("admin")]
  }

  lemma PublicAdds(f: Flags, next: Handler, r: Request, events: seq<Event>, c: Ctx, hp: Heap)
    requires Adds(next, r, None, events)
    ensures C.Nest(PublicList(f), next)(r, c, hp).log == hp.log + PublicEvents(f, r, events)
  {
    PublicNest(f, next);
    var limited := if f.rateLimit then RateLimit()(next) else next;
    var e1 := if !f.rateLimit then events else [Limited(None)] + if r.withinRate then events else [Stopped("rate")];
    RateLimitAdds(next, r, None, events);
    assert Adds(limited, r, None, e1);
    var sized := SizeLimit()(limited);
    var e2 := if r.small then e1 else [Stopped("size")];
    BarrierAdds("size", (q: Request) => q.small, limited, r, None, e1);
    assert Adds(sized, r, None, e2) by { SizeAdds(limited, r, e1); }
    AroundAdds("security", sized, r, None, e2);
    var secured, e3 := Around("security")(sized), Around3(Before("security"), e2, After("security"));
    AroundAdds("logging", secured, r, None, e3);
    var logged, e4 := Around("logging")(secured), Around3(Before("logging"), e3, After("logging"));
    AroundAdds("observability", logged, r, None, e4);
    var observed := if f.metrics || f.tracing then Around("observability")(logged) else logged;
    var e5 := if f.metrics || f.tracing then Around3(Before("observability"), e4, After("observability")) else e4;
    assert Adds(observed, r, None, e5);
    assert e5 == PublicEvents(f, r, events);
    hide PublicEvents, PublicList, Around3, Around, SizeLimit, RateLimit;
    ContextAdds(observed, r, e5, c, hp);
  }

  lemma ContextAdds(next: Handler, r: Request, events: seq<Event>, c: Ctx, hp: Heap)
    requires Adds(next, r, None, events)
    ensures WithContext()(next)(r, c, hp).log == hp.log + events
  {
    var inner := hp.(contexts := hp.contexts + [None]);
    assert Located(Some(|hp.contexts|), inner) && GetUser(Some(|hp.contexts|), inner) == None;
  }

  lemma SizeAdds(next: Handler, r: Request, events: seq<Event>)
    requires Adds(next, r, None, events)
    ensures Adds(SizeLimit()(next), r, None, if r.small then events else [Stopped("size")])
  {
    BarrierAdds("size", (q: Request) => q.small, next, r, None, events);
  }

  lemma CsrfAdds(f: Flags, next: Handler, r: Request, u: Option<User>, events: seq<Event>)
    requires Adds(next, r, u, events)
    ensures Adds(if f.csrf then Csrf()(next) else next, r, u, CsrfEvents(f, r, events))
  {
    BarrierAdds("csrf", (q: Request) => !q.mutating || q.sameOrigin, next, r, u, events);
  }

  lemma SignInAdds(f: Flags, next: Handler, r: Request, page: Option<User> -> seq<Event>)
    requires forall u :: Adds(next, r, u, page(u))
    ensures Adds(C.Nest(SignInList(f), next), r, None, SignInEvents(f, r, page))
  {
    var inner := if f.csrf then Csrf()(next) else next;
    NestOptional(f.csrf, Csrf(), next);
    C.NestAppend(Optional(f.auth, [Auth(), Around("enrichment")]), Optional(f.csrf, [Csrf()]), next);
    if f.auth {
      NestTwo(Auth(), Around("enrichment"), inner);
      if r.identity.Known? {
        var u := Some(r.identity.user);
        CsrfAdds(f, next, r, u, page(u));
        AroundAdds("enrichment", inner, r, u, CsrfEvents(f, r, page(u)));
      }
      hide Adds;
      AuthAdds(Around("enrichment")(inner), r, None, SignInEvents(f, r, page));
    } else {
      CsrfAdds(f, next, r, None, page(None));
      hide Adds;
    }
  }

  lemma PageAdds(extra: string, r: Request, u: Option<User>)
    ensures Adds(Around(extra)(Endpoint()), r, u, PageEvents(extra)(u))
  {
    EndpointAdds(r, u);
    hide Adds;
    AroundAdds(extra, Endpoint(), r, u, [Handled(u)]);
  }

  lemma AdminPageAdds(extra: string, r: Request, u: Option<User>)
    ensures Adds(RequireAdmin()(Audit()(Around(extra)(Endpoint()))), r, u, AdminPageEvents(extra)(u))
  {
    hide Adds;
    PageAdds(extra, r, u);
    AuditAdds(Around(extra)(Endpoint()), r, u, PageEvents(extra)(u));
    RequireAdminAdds(Audit()(Around(extra)(Endpoint())), r, u,
                     Around3(Audited(u), PageEvents(extra)(u), After("audit")));
  }

  /** Everything that happens to a request behind the authenticated chain, in order, for all flags. */
  function MemberEvents(f: Flags, extra: string, r: Request): seq<Event> {
    PublicEvents(f, r, SignInEvents(f, r, PageEvents(extra)))
  }

  function AdminEvents(f: Flags, extra: string, r: Request): seq<Event> {
    PublicEvents(f, r, SignInEvents(f, r, AdminPageEvents(extra)))
  }

  lemma MemberChainExact(f: Flags, extra: string, r: Request, c: Ctx, hp: Heap)
    ensures C.Nest(PublicList(f) + SignInList(f) + [Around(extra)], Endpoint())(r, c, hp).log ==
            hp.log + MemberEvents(f, extra, r)
  {
    hide Adds;
    var page := Around(extra)(Endpoint());
    forall u ensures Adds(page, r, u, PageEvents(extra)(u)) {
      PageAdds(extra, r, u);
    }
    SignInAdds(f, page, r, PageEvents(extra));
    PublicAdds(f, C.Nest(SignInList(f), page), r, SignInEvents(f, r, PageEvents(extra)), c, hp);
    NestOne(Around(extra), Endpoint());
    C.NestAppend(PublicList(f) + SignInList(f), [Around(extra)], Endpoint());
    C.NestAppend(PublicList(f), SignInList(f), page);
  }

  lemma AdminChainExact(f: Flags, extra: string, r: Request, c: Ctx, hp: Heap)
    ensures C.Nest(PublicList(f) + SignInList(f) + AdminList() + [Around(extra)], Endpoint())(r, c, hp).log ==
            hp.log + AdminEvents(f, extra, r)
  {
    hide Adds;
    var page := Around(extra)(Endpoint());
    var guarded := RequireAdmin()(Audit()(page));
    forall u ensures Adds(guarded, r, u, AdminPageEvents(extra)(u)) {
      AdminPageAdds(extra, r, u);
    }
    SignInAdds(f, guarded, r, AdminPageEvents(extra));
    PublicAdds(f, C.Nest(SignInList(f), guarded), r, SignInEvents(f, r, AdminPageEvents(extra)), c, hp);
    NestTwo(RequireAdmin(), Audit(), page);
    NestOne(Around(extra), Endpoint());
    C.NestAppend(PublicList(f) + SignInList(f) + AdminList(), [Around(extra)], Endpoint());
    C.NestAppend(PublicList(f) + SignInList(f), AdminList(), page);
    C.NestAppend(PublicList(f), SignInList(f), guarded);
  }

  // Who gets through

  predicate IsSignedIn(r: Request, user: Option<User>) {
    user.Some? && r.identity == Known(user.value) && !user.value.isBlocked
  }

  predicate AllOk(r: Request, log: seq<Event>, ok: (Request, Event) -> bool) {
    forall i :: 0 <= i < |log| ==> ok(r, log[i])
  }

  /** The endpoint ran. */
  predicate Served(log: seq<Event>) {
    exists i :: 0 <= i < |log| && log[i].Handled?
  }

  /** On the way to an administration page: whom the limiter, the audit log and the page may see. */
  function AdminOk(): (Request, Event) -> bool {
    (r: Request, e: Event) =>
      match e
      case Limited(u) => u == None
      case Audited(u) => IsSignedIn(r, u) && u.value.isAdmin
      case Handled(u) => IsSignedIn(r, u) && u.value.isAdmin
      case _ => true
  }

  function MemberOk(): (Request, Event) -> bool {
    (r: Request, e: Event) =>
      match e
      case Limited(u) => u == None
      case Handled(u) => IsSignedIn(r, u)
      case _ => true
  }

  // A property of the events around a page is one of the page, and of each event

  lemma ServedAround(first: Event, inner: seq<Event>, last: Event)
    requires !first.Handled? && !last.Handled?
    ensures Served([first] + inner + [last]) <==> Served(inner)
  {
    var all := [first] + inner + [last];
    if i :| 0 <= i < |inner| && inner[i].Handled? {
      assert all[i + 1].Handled?;
    }
    if i :| 0 <= i < |all| && all[i].Handled? {
      assert inner[i - 1].Handled?;
    }
  }

  lemma ServedAfter(first: Event, inner: seq<Event>)
    requires !first.Handled?
    ensures Served([first] + inner) <==> Served(inner)
  {
    var all := [first] + inner;
    if i :| 0 <= i < |inner| && inner[i].Handled? {
      assert all[i + 1].Handled?;
    }
    if i :| 0 <= i < |all| && all[i].Handled? {
      assert inner[i - 1].Handled?;
    }
  }

  lemma OkAround(r: Request, first: Event, inner: seq<Event>, last: Event, ok: (Request, Event) -> bool)
    requires AllOk(r, inner, ok) && ok(r, first) && ok(r, last)
    ensures AllOk(r, [first] + inner + [last], ok)
  {
  }

  lemma PublicServed(f: Flags, r: Request, inner: seq<Event>)
    ensures Served(PublicEvents(f, r, inner)) <==> r.small && (f.rateLimit ==> r.withinRate) && Served(inner)
  {
    var rest := if r.withinRate then inner else [Stopped("rate")];
    var limited := if !f.rateLimit then inner else [Limited(None)] + rest;
    var sized := if r.small then limited else [Stopped("size")];
    var secured := [Before("security")] + sized + [After("security")];
    var logged := [Before("logging")] + secured + [After("logging")];
    assert !Served([Stopped("rate")]) && !Served([Stopped("size")]);
    hide Served;
    ServedAfter(Limited(None), rest);
    ServedAround(Before("security"), sized, After("security"));
    ServedAround(Before("logging"), secured, After("logging"));
    ServedAround(Before("observability"), logged, After("observability"));
  }

  lemma SignInServed(f: Flags, r: Request, page: Option<User> -> seq<Event>)
    ensures Served(SignInEvents(f, r, page)) <==>
              (f.csrf ==> !r.mutating || r.sameOrigin) &&
              if f.auth then r.identity.Known? && !r.identity.user.isBlocked && Served(page(Some(r.identity.user)))
              else Served(page(None))
  {
    assert !Served([Stopped("auth")]) && !Served([Stopped("csrf")]);
    hide Served;
    if f.auth && r.identity.Known? {
      ServedAround(Before("enrichment"), CsrfEvents(f, r, page(Some(r.identity.user))), After("enrichment"));
    }
  }

  lemma PageServed(extra: string, u: Option<User>)
    ensures Served(PageEvents(extra)(u))
    ensures Served(AdminPageEvents(extra)(u)) <==> u.Some? && u.value.isAdmin
  {
    assert [Handled(u)][0].Handled?;
    assert Served([Handled(u)]) && !Served([Stopped("admin")]);
    hide Served;
    ServedAround(Before(extra), [Handled(u)], After(extra));
    ServedAround(Audited(u), PageEvents(extra)(u), After("audit"));
  }

  /**
   Behind the authenticated chain the endpoint runs exactly for the requests that
   are small, within their rate, of the same origin if they change something, and
   signed in by a member who is not blocked; each of the last three only if its
   flag is on.
   */
  lemma MemberChainServes(f: Flags, extra: string, r: Request, c: Ctx, contexts: seq<Option<User>>)
    ensures var h := C.Nest(PublicList(f) + SignInList(f) + [Around(extra)], Endpoint());
            Served(h(r, c, Heap(contexts, [])).log) <==>
              r.small && (f.rateLimit ==> r.withinRate) && (f.csrf ==> !r.mutating || r.sameOrigin) &&
              (f.auth ==> r.identity.Known? && !r.identity.user.isBlocked)
  {
    MemberChainExact(f, extra, r, c, Heap(contexts, []));
    assert Heap(contexts, []).log + MemberEvents(f, extra, r) == MemberEvents(f, extra, r);
    hide C.Nest, Served, PublicEvents, SignInEvents, PageEvents, PublicList, SignInList;
    PublicServed(f, r, SignInEvents(f, r, PageEvents(extra)));
    SignInServed(f, r, PageEvents(extra));
    PageServed(extra, None);
    if r.identity.Known? {
      PageServed(extra, Some(r.identity.user));
    }
  }

  /** Behind the admin chain it runs exactly if besides authentication is on and the member is an administrator. */
  lemma AdminChainServes(f: Flags, extra: string, r: Request, c: Ctx, contexts: seq<Option<User>>)
    ensures var h := C.Nest(PublicList(f) + SignInList(f) + AdminList() + [Around(extra)], Endpoint());
            Served(h(r, c, Heap(contexts, [])).log) <==>
              r.small && (f.rateLimit ==> r.withinRate) && (f.csrf ==> !r.mutating || r.sameOrigin) &&
              f.auth && r.identity.Known? && !r.identity.user.isBlocked && r.identity.user.isAdmin
  {
    AdminChainExact(f, extra, r, c, Heap(contexts, []));
    assert Heap(contexts, []).log + AdminEvents(f, extra, r) == AdminEvents(f, extra, r);
    hide C.Nest, Served, PublicEvents, SignInEvents, AdminPageEvents, PublicList, SignInList, AdminList;
    PublicServed(f, r, SignInEvents(f, r, AdminPageEvents(extra)));
    SignInServed(f, r, AdminPageEvents(extra));
    PageServed(extra, None);
    if r.identity.Known? {
      PageServed(extra, Some(r.identity.user));
    }
  }

  /** The events of a middleware that says nothing about users. */
  ghost predicate IgnoresPlain(ok: (Request, Event) -> bool) {
    forall r: Request, e: Event :: e.Before? || e.After? || e.Stopped? ==> ok(r, e)
  }

  lemma PublicOk(f: Flags, r: Request, inner: seq<Event>, ok: (Request, Event) -> bool)
    requires IgnoresPlain(ok) && AllOk(r, inner, ok) && ok(r, Limited(None))
    ensures AllOk(r, PublicEvents(f, r, inner), ok)
  {
    var rest := if r.withinRate then inner else [Stopped("rate")];
    var limited := if !f.rateLimit then inner else [Limited(None)] + rest;
    var sized := if r.small then limited else [Stopped("size")];
    var secured := [Before("security")] + sized + [After("security")];
    var logged := [Before("logging")] + secured + [After("logging")];
    assert AllOk(r, sized, ok);
    hide AllOk;
    OkAround(r, Before("security"), sized, After("security"), ok);
    OkAround(r, Before("logging"), secured, After("logging"), ok);
    OkAround(r, Before("observability"), logged, After("observability"), ok);
  }

  lemma SignInOk(f: Flags, r: Request, page: Option<User> -> seq<Event>, ok: (Request, Event) -> bool)
    requires IgnoresPlain(ok)
    requires f.auth && r.identity.Known? && !r.identity.user.isBlocked ==> AllOk(r, page(Some(r.identity.user)), ok)
    requires !f.auth ==> AllOk(r, page(None), ok)
    ensures AllOk(r, SignInEvents(f, r, page), ok)
  {
    if f.auth && r.identity.Known? && !r.identity.user.isBlocked {
      OkAround(r, Before("enrichment"), CsrfEvents(f, r, page(Some(r.identity.user))), After("enrichment"), ok);
    }
  }

  lemma AdminPageOk(extra: string, r: Request, u: Option<User>)
    requires u == None || IsSignedIn(r, u)
    ensures AllOk(r, AdminPageEvents(extra)(u), AdminOk())
  {
    if u.Some? && u.value.isAdmin {
      OkAround(r, Before(extra), [Handled(u)], After(extra), AdminOk());
      OkAround(r, Audited(u), PageEvents(extra)(u), After("audit"), AdminOk());
    }
  }

  /**
   Whatever the flags, the request and the answers of the outside: an endpoint
   behind the admin chain runs only for the signed-in user, who is an
   administrator and not blocked; the audit step always finds that user; and the
   rate limiter, which runs before authentication, never finds any.
   */
  lemma AdminChainSafe(f: Flags, extra: string, r: Request, c: Ctx, contexts: seq<Option<User>>)
    ensures var h := C.Nest(PublicList(f) + SignInList(f) + AdminList() + [Around(extra)], Endpoint());
            AllOk(r, h(r, c, Heap(contexts, [])).log, AdminOk())
  {
    AdminChainExact(f, extra, r, c, Heap(contexts, []));
    assert Heap(contexts, []).log + AdminEvents(f, extra, r) == AdminEvents(f, extra, r);
    hide C.Nest, AllOk, PublicEvents, SignInEvents, AdminPageEvents, PublicList, SignInList, AdminList;
    AdminPageOk(extra, r, None);
    if r.identity.Known? && !r.identity.user.isBlocked {
      AdminPageOk(extra, r, Some(r.identity.user));
    }
    SignInOk(f, r, AdminPageEvents(extra), AdminOk());
    PublicOk(f, r, SignInEvents(f, r, AdminPageEvents(extra)), AdminOk());
  }

  /**
   With authentication on, an endpoint behind the authenticated chain runs only
   for the signed-in user, who is not blocked.
   */
  lemma MemberChainSafe(f: Flags, extra: string, r: Request, c: Ctx, contexts: seq<Option<User>>)
    requires f.auth
    ensures var h := C.Nest(PublicList(f) + SignInList(f) + [Around(extra)], Endpoint());
            AllOk(r, h(r, c, Heap(contexts, [])).log, MemberOk())
  {
    MemberChainExact(f, extra, r, c, Heap(contexts, []));
    assert Heap(contexts, []).log + MemberEvents(f, extra, r) == MemberEvents(f, extra, r);
    if r.identity.Known? && !r.identity.user.isBlocked {
      OkAround(r, Before(extra), [Handled(Some(r.identity.user))], After(extra), MemberOk());
    }
    hide C.Nest, AllOk, PublicEvents, SignInEvents, PublicList, SignInList;
    SignInOk(f, r, PageEvents(extra), MemberOk());
    PublicOk(f, r, SignInEvents(f, r, PageEvents(extra)), MemberOk());
  }
}
