/** How many requests of one visitor the middleware limiter admits in a window of time. */
module RateWindow {
  import opened TokenBucket
  import opened Eviction
  import opened RateLimit

  /** A request reads the clock at `at`; if it is rejected, its probe does so at `reserve` and `cancel`. */
  datatype Arrival =
    | Hit(key: string, path: string, limit: Limit, at: real, reserve: real, cancel: real)
    | Sweep(at: real)

  function Done(e: Arrival): real {
    match e
    case Hit(_, _, _, _, _, cancel) => cancel
    case Sweep(at) => at
  }

  predicate Arrives(c: Config, e: Arrival, now: real) {
    now <= e.at && (e.Hit? ==> e.at <= e.reserve <= e.cancel && LimitFor(c, e.path, e.limit))
  }

  /** Events one after the other; the limit of a hit is one getLimitsForPath may answer. */
  predicate Possible(c: Config, events: seq<Arrival>, now: real) {
    |events| > 0 ==> Arrives(c, events[0], now) && Possible(c, events[1..], Done(events[0]))
  }

  /** Every bucket involved refills. */
  predicate Runs(c: Config, vs: Visitors, e: Arrival) {
    (forall k :: k in vs ==> vs[k].bucket.rate > 0.0) && (e.Hit? ==> Effective(c, e.key, e.limit).rate > 0.0)
  }

  function Step(c: Config, vs: Visitors, e: Arrival): Visitors
    requires Runs(c, vs, e)
  {
    match e
    case Hit(key, _, limit, at, reserve, cancel) =>
      RateLimit.Handle(vs, key, Effective(c, key, limit), at, reserve, cancel)
    case Sweep(at) => Evict(vs, c.interval, at)
  }

  predicate AdmitsHit(c: Config, vs: Visitors, e: Arrival, key: string) {
    e.Hit? && e.key == key && Admits(vs, key, Effective(c, key, e.limit).rate, Effective(c, key, e.limit).burst, e.at)
  }

  /** 1 if the event is an admitted request of `key` inside the window. */
  function Counted(c: Config, vs: Visitors, e: Arrival, key: string, start: real, end: real): nat {
    if AdmitsHit(c, vs, e, key) && start <= e.at <= end then 1 else 0
  }

  /** The requests of `key` admitted in the window, over a run from table `vs`. */
  ghost function Admitted(c: Config, vs: Visitors, events: seq<Arrival>, now: real,
                          key: string, start: real, end: real): nat
    requires Refills(c) && Possible(c, events, now) && Healthy(vs, now)
    decreases |events|
  {
    if |events| == 0 then 0
    else
      var e := events[0];
      StepHealthy(c, vs, e, now);
      Counted(c, vs, e, key, start, end) + Admitted(c, Step(c, vs, e), events[1..], Done(e), key, start, end)
  }

  lemma StepHealthy(c: Config, vs: Visitors, e: Arrival, now: real)
    requires Refills(c) && Healthy(vs, now) && Arrives(c, e, now)
    ensures e.Hit? ==> LimitRefills(Effective(c, e.key, e.limit), c.interval)
    ensures Runs(c, vs, e) && now <= e.at <= Done(e) && Healthy(vs, e.at) && Healthy(Step(c, vs, e), Done(e))
  {
    hide LimitFor, Effective, RateLimit.Handle, Solvent;
    HealthyLater(vs, now, e.at);
    if e.Hit? {
      EffectiveRefills(c, e.key, e.path, e.limit);
      HandleHealthy(vs, e.key, Effective(c, e.key, e.limit), e.at, e.reserve, e.cancel);
    }
  }

  lemma AdmittedStep(c: Config, vs: Visitors, events: seq<Arrival>, now: real, key: string, start: real, end: real)
    requires Refills(c) && Possible(c, events, now) && Healthy(vs, now) && |events| > 0
    ensures Arrives(c, events[0], now) && Possible(c, events[1..], Done(events[0]))
    ensures events[0].Hit? ==> LimitRefills(Effective(c, events[0].key, events[0].limit), c.interval)
    ensures Runs(c, vs, events[0]) && now <= events[0].at <= Done(events[0])
    ensures Healthy(vs, events[0].at) && Healthy(Step(c, vs, events[0]), Done(events[0]))
    ensures Admitted(c, vs, events, now, key, start, end) ==
            Counted(c, vs, events[0], key, start, end) +
            Admitted(c, Step(c, vs, events[0]), events[1..], Done(events[0]), key, start, end)
  {
    hide LimitFor, Effective, Step, Healthy, Counted, Refills, Runs;
    StepHealthy(c, vs, events[0], now);
  }

  /** `rate` and `burst` bound every limit under which the key arrives. */
  predicate LimitWithin(c: Config, key: string, e: Arrival, rate: real, burst: real) {
    e.Hit? && e.key == key ==>
      Effective(c, key, e.limit).rate <= rate && Effective(c, key, e.limit).burst as real <= burst
  }

  predicate Within(c: Config, key: string, events: seq<Arrival>, rate: real, burst: real) {
    rate >= 0.0 && burst >= 0.0 && forall i :: 0 <= i < |events| ==> LimitWithin(c, key, events[i], rate, burst)
  }

  lemma WithinRest(c: Config, key: string, events: seq<Arrival>, rate: real, burst: real)
    requires Within(c, key, events, rate, burst) && |events| > 0
    ensures rate >= 0.0 && burst >= 0.0
    ensures LimitWithin(c, key, events[0], rate, burst) && Within(c, key, events[1..], rate, burst)
  {
    hide LimitWithin;
  }

  function Max(a: real, b: real): real { if a >= b then a else b }

  /**
   What the visitor can still draw at `now` beyond the steady rate: the tokens it
   has, or the burst of the bucket it would get if it were evicted, for which it
   must stay away.
   */
  function Credit(vs: Visitors, key: string, rate: real, burst: real, now: real): real {
    if key in vs then Max(Tokens(vs[key].bucket, now), Min(burst, Earned(rate, now - vs[key].lastSeen)))
    else burst
  }

  ghost predicate Bounded(vs: Visitors, key: string, rate: real, burst: real, now: real) {
    Healthy(vs, now) &&
    (key in vs ==> vs[key].bucket.rate <= rate && vs[key].bucket.burst as real <= burst && vs[key].lastSeen <= now)
  }

  lemma TokensRange(b: Bucket, now: real)
    requires Solvent(b, now)
    ensures 0.0 <= Tokens(b, now) <= b.burst as real
  {
  }

  lemma TokensGrow(b: Bucket, rate: real, now: real, t: real)
    requires b.rate >= 0.0 && b.last <= now && b.rate <= rate && now <= t
    ensures Tokens(b, t) <= Tokens(b, now) + Earned(rate, t - now)
  {
    TokensLater(b, now, t);
    hide Tokens;
    var slow, fast := b.rate * (t - now), rate * (t - now);
    assert slow <= fast by { MulMonotone(t - now, b.rate, rate); }
    assert Tokens(b, t) == Min(b.burst as real, Tokens(b, now) + slow);
  }

  /** Time earns at the steady rate. */
  lemma EarnedAdds(rate: real, a: real, b: real, c: real)
    requires rate >= 0.0 && a <= b <= c
    ensures Earned(rate, c - a) == Earned(rate, b - a) + Earned(rate, c - b)
    ensures Earned(rate, b - a) >= 0.0 && Earned(rate, c - b) >= 0.0
  {
    MulNonneg(rate, b - a);
    MulNonneg(rate, c - b);
  }

  lemma CreditLater(vs: Visitors, key: string, rate: real, burst: real, now: real, t: real)
    requires rate >= 0.0 && Bounded(vs, key, rate, burst, now) && now <= t
    ensures Bounded(vs, key, rate, burst, t)
    ensures Credit(vs, key, rate, burst, t) <= Credit(vs, key, rate, burst, now) + Earned(rate, t - now)
  {
    hide Tokens, Earned;
    HealthyLater(vs, now, t);
    EarnedAdds(rate, now, now, t);
    if key in vs {
      assert Solvent(vs[key].bucket, now);
      TokensGrow(vs[key].bucket, rate, now, t);
      EarnedAdds(rate, vs[key].lastSeen, now, t);
    }
  }

  lemma JustSeen(vs: Visitors, key: string, rate: real, burst: real, now: real)
    requires key in vs && vs[key].lastSeen == now && burst >= 0.0 && Tokens(vs[key].bucket, now) >= 0.0
    ensures Credit(vs, key, rate, burst, now) == Tokens(vs[key].bucket, now)
  {
    NothingEarned(rate);
    hide Tokens, Earned;
    assert now - vs[key].lastSeen == 0.0;
  }

  lemma CreditAtMostBurst(vs: Visitors, key: string, rate: real, burst: real, now: real)
    requires Bounded(vs, key, rate, burst, now)
    ensures Credit(vs, key, rate, burst, now) <= burst
  {
    hide Tokens, Earned;
    if key in vs {
      TokensRange(vs[key].bucket, now);
    }
  }

  lemma CreditPositive(vs: Visitors, key: string, rate: real, burst: real, now: real)
    requires rate >= 0.0 && burst >= 0.0 && Bounded(vs, key, rate, burst, now)
    ensures Credit(vs, key, rate, burst, now) >= 0.0
  {
    hide Tokens, Earned;
    if key in vs {
      TokensRange(vs[key].bucket, now);
    }
  }

  /** The bucket that decides about a request, which is the visitor's own or a new one. */
  function Deciding(vs: Visitors, key: string, limit: Limit, now: real): Bucket {
    if key in vs then vs[key].bucket else New(limit.rate, limit.burst, now)
  }

  lemma DecidingCredit(vs: Visitors, key: string, limit: Limit, rate: real, burst: real, now: real)
    requires Bounded(vs, key, rate, burst, now) && 0.0 < limit.rate <= rate && limit.burst as real <= burst
    ensures var b := Deciding(vs, key, limit, now);
            0.0 < b.rate <= rate && b.burst as real <= burst && Solvent(b, now) &&
            Tokens(b, now) <= Credit(vs, key, rate, burst, now)
    ensures Admits(vs, key, limit.rate, limit.burst, now) == Allows(Deciding(vs, key, limit, now), now)
  {
    FreshTokens(New(limit.rate, limit.burst, now), now);
    hide Tokens, Earned, Allows;
  }

  lemma HandledEntry(vs: Visitors, key: string, limit: Limit, now: real, reserve: real, cancel: real)
    requires limit.rate > 0.0 && Healthy(vs, now)
    ensures var vs', b := RateLimit.Handle(vs, key, limit, now, reserve, cancel), Deciding(vs, key, limit, now);
            key in vs' && vs'[key].lastSeen == now && b.rate > 0.0 &&
            vs'[key].bucket == if Allows(b, now) then Allow(b, now) else Probe(b, reserve, cancel)
  {
    hide Allow, Allows, Probe, Solvent;
  }

  /** An admission costs one unit of credit; what follows until `cancel` earns at the steady rate. */
  lemma AdmittedCredit(vs: Visitors, vs': Visitors, key: string, b: Bucket, rate: real, burst: real, now: real,
                       cancel: real)
    requires rate >= 0.0 && now <= cancel && Solvent(b, now) && Allows(b, now)
    requires 0.0 < b.rate <= rate && b.burst as real <= burst && Tokens(b, now) <= Credit(vs, key, rate, burst, now)
    requires key in vs' && vs'[key].lastSeen == now && vs'[key].bucket == Allow(b, now)
    ensures Credit(vs', key, rate, burst, cancel) + 1.0 <= Credit(vs, key, rate, burst, now) + Earned(rate,
              cancel - now)
  {
    AllowSolvent(b, now);
    AllowKeepsRate(b, now);
    TokensRange(Allow(b, now), now);
    hide Tokens, Allow, Allows;
    var own: Visitors := map[key := vs'[key]];
    JustSeen(own, key, rate, burst, now);
    CreditLater(own, key, rate, burst, now, cancel);
    SameEntry(own, vs', key, rate, burst, cancel);
  }

  lemma SameEntry(a: Visitors, b: Visitors, key: string, rate: real, burst: real, now: real)
    requires (key in a) == (key in b) && (key in a ==> a[key] == b[key])
    ensures Credit(a, key, rate, burst, now) == Credit(b, key, rate, burst, now)
  {
  }

  /** A rejection costs nothing, and its probe adds nothing. */
  lemma RejectedCredit(vs: Visitors, vs': Visitors, key: string, b: Bucket, rate: real, burst: real,
                       now: real, reserve: real, cancel: real)
    requires rate >= 0.0 && now <= reserve <= cancel && Solvent(b, now)
    requires 0.0 < b.rate <= rate && 0.0 <= Tokens(b, now) <= Credit(vs, key, rate, burst, now)
    requires key in vs' && vs'[key].lastSeen == now && vs'[key].bucket == Probe(b, reserve, cancel)
    ensures Credit(vs', key, rate, burst, cancel) <= Credit(vs, key, rate, burst, now) + Earned(rate, cancel - now)
  {
    SolventLater(b, now, reserve);
    ProbeNeutral(b, reserve, cancel);
    TokensGrow(b, rate, now, cancel);
    EarnedAdds(rate, now, now, cancel);
    hide Tokens, Probe, Earned;
  }

  lemma HitCredit(vs: Visitors, key: string, limit: Limit, rate: real, burst: real, now: real, reserve: real,
                  cancel: real)
    requires rate >= 0.0 && Bounded(vs, key, rate, burst, now) && now <= reserve <= cancel
    requires 0.0 < limit.rate <= rate && limit.burst as real <= burst
    ensures var vs' := RateLimit.Handle(vs, key, limit, now, reserve, cancel);
            Bounded(vs', key, rate, burst, cancel) &&
            Credit(vs', key, rate, burst, cancel) +
              (if Admits(vs, key, limit.rate, limit.burst, now) then 1.0 else 0.0) <=
              Credit(vs, key, rate, burst, now) + Earned(rate, cancel - now)
  {
    HandleHealthy(vs, key, limit, now, reserve, cancel);
    HandledEntry(vs, key, limit, now, reserve, cancel);
    DecidingCredit(vs, key, limit, rate, burst, now);
    var b := Deciding(vs, key, limit, now);
    var vs' := RateLimit.Handle(vs, key, limit, now, reserve, cancel);
    TokensRange(b, now);
    AllowKeepsRate(b, now);
    SolventLater(b, now, reserve);
    ProbeNeutral(b, reserve, cancel);
    hide Tokens, RateLimit.Handle, Admits, Credit, Solvent, Probe, Allow, Allows, Deciding, SameFrom, Earned, Cancel,
      ReadyAt;
    if Allows(b, now) {
      AdmittedCredit(vs, vs', key, b, rate, burst, now, cancel);
    } else {
      RejectedCredit(vs, vs', key, b, rate, burst, now, reserve, cancel);
    }
  }

  lemma OtherCredit(vs: Visitors, key: string, other: string, limit: Limit, rate: real, burst: real,
                    now: real, reserve: real, cancel: real)
    requires other != key && limit.rate > 0.0 && rate >= 0.0 && Bounded(vs, key, rate, burst, now)
    requires now <= reserve <= cancel
    ensures var vs' := RateLimit.Handle(vs, other, limit, now, reserve, cancel);
            Bounded(vs', key, rate, burst, cancel) &&
            Credit(vs', key, rate, burst, cancel) <= Credit(vs, key, rate, burst, now) + Earned(rate, cancel - now)
  {
    HandleHealthy(vs, other, limit, now, reserve, cancel);
    CreditLater(vs, key, rate, burst, now, cancel);
    hide Probe, Allow, Allows, Credit, Solvent, Earned;
    SameEntry(vs, RateLimit.Handle(vs, other, limit, now, reserve, cancel), key, rate, burst, cancel);
  }

  lemma SweepCredit(vs: Visitors, key: string, rate: real, burst: real, interval: real, now: real)
    requires rate >= 0.0 && burst <= rate * interval && Bounded(vs, key, rate, burst, now)
    ensures Bounded(Evict(vs, interval, now), key, rate, burst, now)
    ensures Credit(Evict(vs, interval, now), key, rate, burst, now) <= Credit(vs, key, rate, burst, now)
  {
    hide Tokens;
    if key in vs && now - vs[key].lastSeen > interval {
      MulMonotone(rate, interval, now - vs[key].lastSeen);
    }
  }

  /** One event: the credit falls by what is admitted and rises at most at the steady rate. */
  lemma StepCredit(c: Config, vs: Visitors, e: Arrival, key: string, rate: real, burst: real)
    requires rate >= 0.0 && burst <= rate * c.interval && Bounded(vs, key, rate, burst, e.at)
    requires LimitWithin(c, key, e, rate, burst) && e.at <= Done(e)
    requires e.Hit? ==> e.at <= e.reserve && LimitRefills(Effective(c, e.key, e.limit), c.interval)
    requires e.Hit? ==> e.reserve <= e.cancel
    requires Runs(c, vs, e)
    ensures Bounded(Step(c, vs, e), key, rate, burst, Done(e))
    ensures Credit(Step(c, vs, e), key, rate, burst, Done(e)) + (if AdmitsHit(c, vs, e, key) then 1.0 else 0.0) <=
            Credit(vs, key, rate, burst, e.at) + Earned(rate, Done(e) - e.at)
  {
    hide Credit, Bounded, RateLimit.Handle, Evict, Admits, Effective;
    match e
    case Hit(k, path, limit, at, reserve, cancel) =>
      if k == key {
        HitCredit(vs, key, Effective(c, key, limit), rate, burst, at, reserve, cancel);
      } else {
        OtherCredit(vs, key, k, Effective(c, k, limit), rate, burst, at, reserve, cancel);
      }
    case Sweep(at) =>
      SweepCredit(vs, key, rate, burst, c.interval, at);
      EarnedAdds(rate, at, at, at);
  }

  /** Who is admitted had the credit for it. */
  lemma AdmittedHadCredit(c: Config, vs: Visitors, e: Arrival, key: string, rate: real, burst: real)
    requires AdmitsHit(c, vs, e, key) && LimitWithin(c, key, e, rate, burst)
    requires Bounded(vs, key, rate, burst, e.at) && Runs(c, vs, e)
    ensures Credit(vs, key, rate, burst, e.at) >= 1.0
  {
    DecidingCredit(vs, key, Effective(c, key, e.limit), rate, burst, e.at);
    hide Effective, Admits, Credit, Tokens;
  }

  lemma HitOnly(c: Config, vs: Visitors, e: Arrival, key: string)
    requires AdmitsHit(c, vs, e, key)
    ensures e.Hit?
  {
  }

  lemma BoundedHealthy(vs: Visitors, key: string, rate: real, burst: real, now: real)
    requires Bounded(vs, key, rate, burst, now)
    ensures Healthy(vs, now)
  {
  }

  lemma {:induction false} NoneAfter(c: Config, vs: Visitors, events: seq<Arrival>, now: real,
                                     key: string, start: real, end: real)
    requires Refills(c) && Possible(c, events, now) && Healthy(vs, now)
    requires now > end || (|events| > 0 && events[0].at > end)
    ensures Admitted(c, vs, events, now, key, start, end) == 0
    decreases |events|
  {
    hide Step, Runs, Healthy, Refills, Arrives, Effective, LimitRefills, AdmitsHit, Possible, Admitted;
    if |events| > 0 {
      AdmittedStep(c, vs, events, now, key, start, end);
      NoneAfter(c, Step(c, vs, events[0]), events[1..], Done(events[0]), key, start, end);
    } else {
      NoEvents(c, vs, events, now, key, start, end);
    }
  }

  lemma NoEvents(c: Config, vs: Visitors, events: seq<Arrival>, now: real, key: string, start: real, end: real)
    requires Refills(c) && Possible(c, events, now) && Healthy(vs, now) && |events| == 0
    ensures Admitted(c, vs, events, now, key, start, end) == 0
  {
  }

  /** From any table, the rest of a run admits no more than the credit and the steady rate to the end of the window. */
  lemma {:induction false} CreditBound(c: Config, vs: Visitors, events: seq<Arrival>, now: real,
                                       key: string, start: real, end: real, rate: real, burst: real)
    requires Refills(c) && Possible(c, events, now) && Within(c, key, events, rate, burst) && burst <= rate * c.interval
    requires Bounded(vs, key, rate, burst, now) && Healthy(vs, now) && start <= now <= end
    ensures Admitted(c, vs, events, now, key, start, end) as real <=
            Credit(vs, key, rate, burst, now) + Earned(rate, end - now)
    decreases |events|
  {
    hide Step, Runs, Healthy, Refills, Effective, AdmitsHit, Possible, Admitted, Credit, Bounded, Within, LimitWithin,
      Earned, LimitRefills, Counted;
    assert rate >= 0.0 && burst >= 0.0 by { WithinPositive(c, key, events, rate, burst); }
    CreditPositive(vs, key, rate, burst, now);
    EarnedAdds(rate, now, now, end);
    if |events| == 0 {
      NoEvents(c, vs, events, now, key, start, end);
    } else if events[0].at > end {
      NoneAfter(c, vs, events, now, key, start, end);
    } else {
      AdmittedStep(c, vs, events, now, key, start, end);
      CreditStep(c, vs, events, now, key, start, end, rate, burst);
      var next, done := Step(c, vs, events[0]), Done(events[0]);
      if done <= end {
        CreditBound(c, next, events[1..], done, key, start, end, rate, burst);
        EarnedAdds(rate, now, done, end);
      } else {
        NoneAfter(c, next, events[1..], done, key, start, end);
      }
    }
  }

  lemma WithinPositive(c: Config, key: string, events: seq<Arrival>, rate: real, burst: real)
    requires Within(c, key, events, rate, burst)
    ensures rate >= 0.0 && burst >= 0.0
  {
  }

  /** The first event of the rest of a run, if it lies inside the window. */
  lemma CreditStep(c: Config, vs: Visitors, events: seq<Arrival>, now: real,
                   key: string, start: real, end: real, rate: real, burst: real)
    requires Refills(c) && Possible(c, events, now) && Within(c, key, events, rate, burst) && burst <= rate * c.interval
    requires Bounded(vs, key, rate, burst, now) && Healthy(vs, now) && |events| > 0 && events[0].at <= end
    requires Runs(c, vs, events[0])
    ensures var e := events[0];
            var next, done := Step(c, vs, e), Done(e);
            now <= done && Possible(c, events[1..], done) && Within(c, key, events[1..], rate, burst) &&
            Bounded(next, key, rate, burst, done) && Healthy(next, done) &&
            Admitted(c, vs, events, now, key, start, end) ==
              Counted(c, vs, e, key, start, end) + Admitted(c, next, events[1..], done, key, start, end) &&
            Counted(c, vs, e, key, start, end) as real + Credit(next, key, rate, burst, done) <=
              Credit(vs, key, rate, burst, now) + Earned(rate, done - now) &&
            Counted(c, vs, e, key, start, end) as real <= Credit(vs, key, rate, burst, now) + Earned(rate, end - now)
  {
    hide Step, Runs, Healthy, Refills, Effective, AdmitsHit, Possible, Admitted, Credit, Bounded, Within, LimitWithin,
      Earned, LimitFor;
    var e := events[0];
    WithinRest(c, key, events, rate, burst);
    AdmittedStep(c, vs, events, now, key, start, end);
    CreditLater(vs, key, rate, burst, now, e.at);
    CreditPositive(vs, key, rate, burst, now);
    StepCredit(c, vs, e, key, rate, burst);
    EarnedAdds(rate, now, e.at, Done(e));
    EarnedAdds(rate, now, e.at, end);
    if AdmitsHit(c, vs, e, key) {
      assert e.Hit? by { HitOnly(c, vs, e, key); }
      AdmittedHadCredit(c, vs, e, key, rate, burst);
    }
  }

  /** The first event inside the window meets a credit of at most the burst. */
  lemma EntersWindow(c: Config, vs: Visitors, events: seq<Arrival>, now: real,
                     key: string, start: real, end: real, rate: real, burst: real)
    requires Refills(c) && Possible(c, events, now) && Within(c, key, events, rate, burst) && burst <= rate * c.interval
    requires Bounded(vs, key, rate, burst, now) && Healthy(vs, now) && |events| > 0 && start <= events[0].at <= end
    ensures Admitted(c, vs, events, now, key, start, end) as real <= burst + Earned(rate, end - start)
  {
    hide Step, Runs, Healthy, Refills, Effective, Admitted, Credit, Bounded, Within, LimitWithin, Earned, LimitFor;
    WithinPositive(c, key, events, rate, burst);
    var at := events[0].at;
    CreditLater(vs, key, rate, burst, now, at);
    BoundedHealthy(vs, key, rate, burst, at);
    SameFromLater(c, vs, events, now, at, key, start, end);
    CreditBound(c, vs, events, at, key, start, end, rate, burst);
    CreditAtMostBurst(vs, key, rate, burst, at);
    EarnedAdds(rate, start, at, end);
  }

  lemma SameFromLater(c: Config, vs: Visitors, events: seq<Arrival>, now: real, at: real,
                      key: string, start: real, end: real)
    requires Refills(c) && Possible(c, events, now) && Healthy(vs, now) && Healthy(vs, at)
    requires |events| > 0 && now <= at == events[0].at
    ensures Possible(c, events, at)
    ensures Admitted(c, vs, events, now, key, start, end) == Admitted(c, vs, events, at, key, start, end)
  {
    assert Possible(c, events, at);
    AdmittedStep(c, vs, events, now, key, start, end);
    AdmittedStep(c, vs, events, at, key, start, end);
  }

  lemma {:induction false} WindowEarns(c: Config, vs: Visitors, events: seq<Arrival>, now: real,
                                       key: string, start: real, end: real, rate: real, burst: real)
    requires Refills(c) && Possible(c, events, now) && Within(c, key, events, rate, burst) && burst <= rate * c.interval
    requires Bounded(vs, key, rate, burst, now) && Healthy(vs, now) && start <= end
    ensures Admitted(c, vs, events, now, key, start, end) as real <= burst + Earned(rate, end - start)
    decreases |events|
  {
    hide Step, Runs, Healthy, Refills, Effective, AdmitsHit, Possible, Admitted, Credit, Bounded, Within, LimitWithin,
      Earned, LimitRefills, LimitFor;
    WithinPositive(c, key, events, rate, burst);
    EarnedAdds(rate, start, start, end);
    if |events| == 0 {
      NoEvents(c, vs, events, now, key, start, end);
    } else if events[0].at > end {
      NoneAfter(c, vs, events, now, key, start, end);
    } else if events[0].at < start {
      AdmittedStep(c, vs, events, now, key, start, end);
      CreditStep(c, vs, events, now, key, start, end, rate, burst);
      WindowEarns(c, Step(c, vs, events[0]), events[1..], Done(events[0]), key, start, end, rate, burst);
    } else {
      EntersWindow(c, vs, events, now, key, start, end, rate, burst);
    }
  }

  /**
   In every run and every window of length T, the admissions of a visitor are at
   most burst + rate * T, where rate and burst bound the limits the visitor
   arrives with, across evictions and re-creations under the limits of other
   paths, provided the largest burst refills within the cleanup interval.
   */
  lemma WindowBound(c: Config, vs: Visitors, events: seq<Arrival>, now: real,
                    key: string, start: real, end: real, rate: real, burst: real)
    requires Refills(c) && Possible(c, events, now) && Within(c, key, events, rate, burst) && burst <= rate * c.interval
    requires Bounded(vs, key, rate, burst, now) && Healthy(vs, now) && start <= end
    ensures Admitted(c, vs, events, now, key, start, end) as real <= burst + rate * (end - start)
  {
    WindowEarns(c, vs, events, now, key, start, end, rate, burst);
    assert Earned(rate, end - start) == rate * (end - start);
    hide *;
  }

  lemma IntervalPositive(c: Config)
    requires Refills(c)
    ensures c.interval >= 0.0
  {
    if c.interval < 0.0 {
      MulStrict(c.default.rate, c.interval, 0.0);
    }
  }

  lemma LimitRefillsFaster(limit: Limit, faster: real, interval: real)
    requires LimitRefills(limit, interval) && interval >= 0.0 && limit.rate <= faster
    ensures limit.burst as real <= faster * interval
  {
    MulMonotone(interval, limit.rate, faster);
    assert limit.rate * interval == interval * limit.rate && faster * interval == interval * faster;
  }

  /** If every limit refills within the interval, so does the largest burst at the largest rate. */
  lemma {:induction false} LargestRefills(c: Config, key: string, events: seq<Arrival>, now: real, rate: real,
                                          burst: real)
    requires Refills(c) && Possible(c, events, now) && Within(c, key, events, rate, burst) && c.interval >= 0.0
    ensures Within(c, key, events, rate, Min(burst, rate * c.interval))
    decreases |events|
  {
    hide Effective, LimitRefills, LimitFor, Refills;
    WithinPositive(c, key, events, rate, burst);
    MulNonneg(rate, c.interval);
    if |events| > 0 {
      var e := events[0];
      LargestRefills(c, key, events[1..], Done(e), rate, burst);
      if e.Hit? && e.key == key {
        EffectiveRefills(c, key, e.path, e.limit);
        assert LimitWithin(c, key, e, rate, burst);
        LimitRefillsFaster(Effective(c, key, e.limit), rate, c.interval);
      }
      assert LimitWithin(c, key, e, rate, Min(burst, rate * c.interval));
      hide LimitWithin;
      assert events == [e] + events[1..];
    }
  }

  /**
   From an empty table the bound needs no more than that each table entry refills
   within the cleanup interval.
   */
  lemma AdmissionBound(c: Config, events: seq<Arrival>, begin: real,
                       key: string, start: real, end: real, rate: real, burst: real)
    requires Refills(c) && Possible(c, events, begin) && Within(c, key, events, rate, burst) && start <= end
    ensures Admitted(c, map[], events, begin, key, start, end) as real <= burst + rate * (end - start)
  {
    hide Admitted, Possible, Within, Refills;
    IntervalPositive(c);
    LargestRefills(c, key, events, begin, rate, burst);
    WindowBound(c, map[], events, begin, key, start, end, rate, Min(burst, rate * c.interval));
  }

  // The shipped tables

  /** SetupRoutes; `admin` is 0.2, or 10.0 in development mode. */
  function Shipped(admin: real): Config {
    Config(Limit(10.0, 20),
           map["/thread/new" := Limit(0.5, 2), "/thread/{tid}" := Limit(2.0, 5), "/thread/{tid}/edit" := Limit(1.0, 3),
               "/member/edit" := Limit(0.5, 2), "/admin" := Limit(admin, 1)],
           5.0, 300.0)
  }

  /** defaultRateLimitConfig, and the variant CreateAPIChain derives from it. */
  function Defaults(rate: real, burst: nat): Config {
    Config(Limit(rate, burst),
           map["/thread/new" := Limit(0.5, 2), "/thread/*/reply" := Limit(2.0, 5), "/member/edit" := Limit(0.5, 2),
               "/admin" := Limit(0.2, 1)],
           5.0, 300.0)
  }

  lemma ShippedRefills(admin: real)
    requires admin == 0.2 || admin == 10.0
    ensures Refills(Shipped(admin)) && Refills(Defaults(10.0, 20)) && Refills(Defaults(100.0, 200))
  {
    hide MatchesPattern;
  }

  lemma ShippedLimits(admin: real, path: string, limit: Limit)
    requires (admin == 0.2 || admin == 10.0) && LimitFor(Shipped(admin), path, limit)
    ensures limit.rate <= 10.0 && limit.burst <= 20
  {
    hide MatchesPattern;
  }

  lemma NoShippedStar(admin: real, pattern: string)
    requires pattern in Shipped(admin).endpoints
    ensures '*' !in pattern
  {
    assert '*' !in "/thread/new" && '*' !in "/thread/{tid}" && '*' !in "/thread/{tid}/edit";
    assert '*' !in "/member/edit" && '*' !in "/admin";
    hide Stars, BeforeStar, AfterStar;
  }

  /** A shipped pattern matches itself and nothing else. */
  lemma ShippedMatch(admin: real, path: string, pattern: string)
    requires pattern in Shipped(admin).endpoints
    ensures MatchesPattern(path, pattern) <==> path == pattern
  {
    NoShippedStar(admin, pattern);
    hide Shipped, Stars, BeforeStar, AfterStar;
  }

  /**
   No shipped pattern has a star, so `{tid}` is compared literally and a path such
   as /thread/42 gets the default limit. Each path gets exactly one limit, whatever
   the order in which the map is visited.
   */
  lemma ShippedThreadPaths(admin: real, path: string, limit: Limit)
    ensures LimitFor(Shipped(admin), path, limit) <==>
              limit == (if path == "/thread/new" || path == "/member/edit" then Limit(0.5, 2)
                        else if path == "/thread/{tid}" then Limit(2.0, 5)
                        else if path == "/thread/{tid}/edit" then Limit(1.0, 3)
                        else if path == "/admin" then Limit(admin, 1)
                        else Limit(10.0, 20))
  {
    forall p | p in Shipped(admin).endpoints ensures MatchesPattern(path, p) <==> path == p {
      ShippedMatch(admin, path, p);
    }
    LiteralLimit(Shipped(admin), path, limit);
    DistinctPaths();
    hide MatchesPattern, LimitFor;
  }

  /** Patterns that match only themselves are looked up like keys. */
  lemma LiteralLimit(c: Config, path: string, limit: Limit)
    requires forall p :: p in c.endpoints ==> (MatchesPattern(path, p) <==> path == p)
    ensures LimitFor(c, path, limit) <==> limit == if path in c.endpoints then c.endpoints[path] else c.default
  {
    hide MatchesPattern;
  }

  lemma DistinctPaths()
    ensures "/thread/new" != "/member/edit" && "/thread/new" != "/thread/{tid}" && "/thread/new" != "/admin"
    ensures "/thread/new" != "/thread/{tid}/edit" && "/member/edit" != "/thread/{tid}" && "/member/edit" != "/admin"
    ensures "/member/edit" != "/thread/{tid}/edit" && "/thread/{tid}" != "/thread/{tid}/edit"
    ensures "/thread/{tid}" != "/admin" && "/thread/{tid}/edit" != "/admin"
  {
    assert "/thread/new"[1] == 't' && "/member/edit"[1] == 'm';
    assert |"/thread/new"| == 11 && |"/member/edit"| == 12 && |"/thread/{tid}"| == 13;
    assert |"/thread/{tid}/edit"| == 18 && |"/admin"| == 6;
  }

  lemma ShippedAdminLimit(admin: real, limit: Limit)
    requires LimitFor(Shipped(admin), "/admin", limit)
    ensures limit == Limit(admin, 1)
  {
    forall p | p in Shipped(admin).endpoints ensures MatchesPattern("/admin", p) <==> p == "/admin" {
      ShippedMatch(admin, "/admin", p);
    }
    assert "/admin" in Shipped(admin).endpoints && Shipped(admin).endpoints["/admin"] == Limit(admin, 1);
    hide MatchesPattern, Shipped;
  }

  /** The admin chain has a limiter of its own, which sees no other path. */
  predicate OnlyAdmin(events: seq<Arrival>) {
    forall i :: 0 <= i < |events| && events[i].Hit? ==> events[i].path == "/admin"
  }

  lemma {:induction false} PagesWithin(admin: real, key: string, events: seq<Arrival>, now: real)
    requires (admin == 0.2 || admin == 10.0) && !(USER <= key) && Possible(Shipped(admin), events, now)
    ensures Within(Shipped(admin), key, events, 10.0, 20.0)
    decreases |events|
  {
    hide Shipped, LimitFor;
    if |events| > 0 {
      PagesWithin(admin, key, events[1..], Done(events[0]));
      if events[0].Hit? {
        ShippedLimits(admin, events[0].path, events[0].limit);
      }
      assert LimitWithin(Shipped(admin), key, events[0], 10.0, 20.0);
      hide LimitWithin;
      assert events == [events[0]] + events[1..];
    }
  }

  lemma {:induction false} AdminWithin(admin: real, key: string, events: seq<Arrival>, now: real)
    requires (admin == 0.2 || admin == 10.0) && !(USER <= key) && Possible(Shipped(admin), events, now) &&
               OnlyAdmin(events)
    ensures Within(Shipped(admin), key, events, admin, 1.0)
    decreases |events|
  {
    hide Shipped, LimitFor;
    if |events| > 0 {
      AdminWithin(admin, key, events[1..], Done(events[0]));
      if events[0].Hit? {
        ShippedAdminLimit(admin, events[0].limit);
      }
      assert LimitWithin(Shipped(admin), key, events[0], admin, 1.0);
      hide LimitWithin;
      assert events == [events[0]] + events[1..];
    }
  }

  /**
   SetupRoutes builds two limiters, one in the authenticated chain and one in the
   admin chain. Under one visitor key at most 21 + (10 + admin) T requests pass
   them in any window of length T: 21 + 10.2 T, or 21 + 20 T in development mode.
   */
  lemma ShippedBound(admin: real, pages: seq<Arrival>, admins: seq<Arrival>, begin: real,
                     key: string, start: real, end: real)
    requires (admin == 0.2 || admin == 10.0) && !(USER <= key) && start <= end
    requires Possible(Shipped(admin), pages, begin) && Possible(Shipped(admin), admins, begin) && OnlyAdmin(admins)
    ensures Refills(Shipped(admin))
    ensures (Admitted(Shipped(admin), map[], pages, begin, key, start, end) +
             Admitted(Shipped(admin), map[], admins, begin, key, start, end)) as real <=
            21.0 + (10.0 + admin) * (end - start)
  {
    ShippedRefills(admin);
    PagesWithin(admin, key, pages, begin);
    AdminWithin(admin, key, admins, begin);
    hide *;
    AdmissionBound(Shipped(admin), pages, begin, key, start, end, 10.0, 20.0);
    AdmissionBound(Shipped(admin), admins, begin, key, start, end, admin, 1.0);
  }
  // ... which is attained

  function Hits(key: string, path: string, limit: Limit, n: nat, at: real): (r: seq<Arrival>)
    ensures |r| == n && forall i :: 0 <= i < n ==> r[i] == Hit(key, path, limit, at, at, at)
  {
    if n == 0 then [] else [Hit(key, path, limit, at, at, at)] + Hits(key, path, limit, n - 1, at)
  }

  lemma {:induction false} HitsPossible(c: Config, key: string, path: string, limit: Limit, n: nat, at: real)
    requires LimitFor(c, path, limit)
    ensures Possible(c, Hits(key, path, limit, n, at), at)
  {
    hide LimitFor;
    if n > 0 {
      HitsPossible(c, key, path, limit, n - 1, at);
      assert Hits(key, path, limit, n, at)[1..] == Hits(key, path, limit, n - 1, at);
    }
  }

  lemma AdmittedHit(c: Config, vs: Visitors, e: Arrival, now: real)
    requires e.Hit? && e.at == e.reserve == e.cancel == now && Healthy(vs, now) && Runs(c, vs, e)
    requires Allows(Deciding(vs, e.key, Effective(c, e.key, e.limit), now), now)
    ensures AdmitsHit(c, vs, e, e.key)
    ensures var limit := Effective(c, e.key, e.limit);
            var b, next := Deciding(vs, e.key, limit, now), Deciding(Step(c, vs, e), e.key, limit, now);
            next.burst == b.burst && Tokens(next, now) == Tokens(b, now) - 1.0
  {
    var limit := Effective(c, e.key, e.limit);
    var b := Deciding(vs, e.key, limit, now);
    FreshTokens(New(limit.rate, limit.burst, now), now);
    assert Solvent(b, now);
    HandledEntry(vs, e.key, limit, now, now, now);
    AllowSolvent(b, now);
    AllowKeepsRate(b, now);
    hide Tokens, Allow, Effective, Probe;
  }

  /** A visitor with enough tokens gets every request of a burst through. */
  lemma {:induction false} HitsAdmitted(c: Config, vs: Visitors, key: string, path: string, limit: Limit, n: nat,
                                        at: real)
    requires Refills(c) && LimitFor(c, path, limit) && Healthy(vs, at)
    requires Possible(c, Hits(key, path, limit, n, at), at)
    requires var b := Deciding(vs, key, Effective(c, key, limit), at); b.burst >= 1 && n as real <= Tokens(b, at)
    ensures Admitted(c, vs, Hits(key, path, limit, n, at), at, key, at, at) == n
    decreases n
  {
    hide LimitFor, Effective, Refills, Healthy, Tokens, Step, Deciding, Runs, AdmitsHit, Possible;
    var events := Hits(key, path, limit, n, at);
    if n == 0 {
      NoEvents(c, vs, events, at, key, at, at);
    } else {
      AdmittedStep(c, vs, events, at, key, at, at);
      AdmittedHit(c, vs, events[0], at);
      assert events[1..] == Hits(key, path, limit, n - 1, at);
      HitsAdmitted(c, Step(c, vs, events[0]), key, path, limit, n - 1, at);
    }
  }

  /** Twenty requests for / and one for /admin, at one moment. */
  lemma ShippedBoundMet(admin: real, key: string, at: real) returns (pages: seq<Arrival>, admins: seq<Arrival>)
    requires (admin == 0.2 || admin == 10.0) && !(USER <= key)
    ensures Possible(Shipped(admin), pages, at) && Possible(Shipped(admin), admins, at) && OnlyAdmin(admins)
    ensures Refills(Shipped(admin))
    ensures Admitted(Shipped(admin), map[], pages, at, key, at, at) +
            Admitted(Shipped(admin), map[], admins, at, key, at, at) == 21
  {
    var c := Shipped(admin);
    ShippedRefills(admin);
    forall p | p in c.endpoints ensures !MatchesPattern("/", p) && (MatchesPattern("/admin", p) <==> p == "/admin") {
      ShippedMatch(admin, "/", p);
      ShippedMatch(admin, "/admin", p);
    }
    hide MatchesPattern;
    assert LimitFor(c, "/", Limit(10.0, 20));
    assert "/admin" in c.endpoints && c.endpoints["/admin"] == Limit(admin, 1);
    assert LimitFor(c, "/admin", Limit(admin, 1));
    hide LimitFor, Shipped;
    HitsPossible(c, key, "/", Limit(10.0, 20), 20, at);
    HitsPossible(c, key, "/admin", Limit(admin, 1), 1, at);
    FreshTokens(New(10.0, 20, at), at);
    FreshTokens(New(admin, 1, at), at);
    hide Tokens, Possible;
    pages, admins := Hits(key, "/", Limit(10.0, 20), 20, at), Hits(key, "/admin", Limit(admin, 1), 1, at);
    HitsAdmitted(c, map[], key, "/", Limit(10.0, 20), 20, at);
    HitsAdmitted(c, map[], key, "/admin", Limit(admin, 1), 1, at);
  }
}
