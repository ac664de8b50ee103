/**
 The limiter of ratelimit.go: one bucket per visitor, created on first sight,
 thrown away when the visitor has not been seen for over an hour.
 */
module Eviction {
  import opened TokenBucket

  const HOUR: real := 3600.0

  datatype Visitor = Visitor(bucket: Bucket, lastSeen: real)

  type Visitors = map<string, Visitor>

  /** getVisitor: find or create, and stamp. */
  function Visit(vs: Visitors, key: string, rate: real, burst: nat, now: real): Visitors {
    if key in vs then vs[key := vs[key].(lastSeen := now)]
    else vs[key := Visitor(New(rate, burst, now), now)]
  }

  function Evict(vs: Visitors, idle: real, now: real): Visitors {
    map k | k in vs && !(now - vs[k].lastSeen > idle) :: vs[k]
  }

  function Admits(vs: Visitors, key: string, rate: real, burst: nat, now: real): bool {
    Allows(Visit(vs, key, rate, burst, now)[key].bucket, now)
  }

  /** The table after one request: getVisitor, then Allow. */
  function Serve(vs: Visitors, key: string, rate: real, burst: nat, now: real): Visitors {
    var seen := Visit(vs, key, rate, burst, now);
    seen[key := seen[key].(bucket := Allow(seen[key].bucket, now))]
  }

  datatype Event = Request(key: string, at: real) | Cleanup(at: real)

  predicate Ordered(events: seq<Event>, now: real) {
    |events| > 0 ==> now <= events[0].at && Ordered(events[1..], events[0].at)
  }

  /** The answers of the limiter; without `evicting`, cleanup does nothing. */
  function Answers(vs: Visitors, rate: real, burst: nat, events: seq<Event>, evicting: bool): seq<bool>
    decreases |events|
  {
    if |events| == 0 then []
    else
      match events[0]
      case Request(key, at) =>
        [Admits(vs, key, rate, burst, at)] +
        Answers(Serve(vs, key, rate, burst, at), rate, burst, events[1..], evicting)
      case Cleanup(at) =>
        Answers(if evicting then Evict(vs, HOUR, at) else vs, rate, burst, events[1..], evicting)
  }

  /** The limiter as an object. Each method reads the clock once. */
  class RateLimiter {
    const rate: real
    const burst: nat
    var visitors: Visitors

    constructor (rate: real, burst: nat)
      ensures this.rate == rate && this.burst == burst && visitors == map[]
    {
      this.rate, this.burst, visitors := rate, burst, map[];
    }

    method GetVisitor(key: string, now: real)
      modifies this
      ensures visitors == Visit(old(visitors), key, rate, burst, now)
      ensures visitors.Keys == old(visitors).Keys + {key} && visitors[key].lastSeen == now
      ensures forall k :: k in old(visitors) && k != key ==> visitors[k] == old(visitors)[k]
      ensures key in old(visitors) ==> visitors[key].bucket == old(visitors)[key].bucket
      ensures key !in old(visitors) ==>
                var b := visitors[key].bucket;
                b.rate == rate && b.burst == burst && b.last == now && Tokens(b, now) == burst as real
    {
      FreshTokens(New(rate, burst, now), now);
      hide Tokens;
      if key !in visitors {
        visitors := visitors[key := Visitor(New(rate, burst, now), now)];
        return;
      }
      visitors := visitors[key := visitors[key].(lastSeen := now)];
    }

    method CleanupVisitors(now: real)
      modifies this
      ensures visitors == Evict(old(visitors), HOUR, now)
      ensures forall k :: k in visitors <==> k in old(visitors) && now - old(visitors)[k].lastSeen <= 3600.0
      ensures forall k :: k in visitors ==> visitors[k] == old(visitors)[k]
    {
      var ids := visitors.Keys;
      while ids != {}
        invariant ids <= visitors.Keys <= old(visitors).Keys
        invariant forall k :: k in visitors ==> visitors[k] == old(visitors)[k]
        invariant forall k :: k in old(visitors) && k !in ids ==>
                                (k in visitors <==> !(now - old(visitors)[k].lastSeen > HOUR))
        decreases ids
      {
        var id :| id in ids;
        if now - visitors[id].lastSeen > HOUR {
          visitors := visitors - {id};
        }
        ids := ids - {id};
      }
    }

    /** RateLimitMiddleware up to the decision. */
    method Handle(key: string, now: real) returns (ok: bool)
      modifies this
      ensures ok == Admits(old(visitors), key, rate, burst, now)
      ensures visitors == Serve(old(visitors), key, rate, burst, now)
      ensures visitors.Keys == old(visitors).Keys + {key} && visitors[key].lastSeen == now
      ensures forall k :: k in old(visitors) && k != key ==> visitors[k] == old(visitors)[k]
      ensures key in old(visitors) ==>
                var b := old(visitors)[key].bucket;
                (ok <==> b.burst >= 1 && Tokens(b, now) >= 1.0) &&
                (ok ==> Tokens(visitors[key].bucket, now) == Tokens(b, now) - 1.0) &&
                (!ok ==> visitors[key].bucket == b)
      ensures key !in old(visitors) ==>
                (ok <==> burst >= 1) &&
                Tokens(visitors[key].bucket, now) == burst as real - (if burst >= 1 then 1.0 else 0.0)
    {
      GetVisitor(key, now);
      var v := visitors[key];
      assert Tokens(v.bucket, now) <= v.bucket.burst as real;
      if Allows(v.bucket, now) {
        FreshTokens(Allow(v.bucket, now), now);
      }
      hide Tokens;
      ok := Allows(v.bucket, now);
      visitors := visitors[key := v.(bucket := Allow(v.bucket, now))];
    }
  }

  // Eviction is unobservable

  ghost predicate Sound(vs: Visitors, rate: real, burst: nat, now: real) {
    forall k :: k in vs ==>
                  Sane(vs[k].bucket, now) && vs[k].bucket.last <= vs[k].lastSeen <= now &&
                  vs[k].bucket.rate == rate && vs[k].bucket.burst == burst
  }

  /** The evicting table `e` and the other one `n` answer alike: who is missing from `e` has a full bucket in `n`. */
  ghost predicate Alike(e: Visitors, n: Visitors, now: real) {
    e.Keys <= n.Keys &&
    (forall k :: k in e ==> Tokens(e[k].bucket, now) == Tokens(n[k].bucket, now)) &&
    (forall k :: k in n && k !in e ==> Tokens(n[k].bucket, now) == n[k].bucket.burst as real)
  }

  lemma AlikeLater(e: Visitors, n: Visitors, rate: real, burst: nat, now: real, t: real)
    requires rate >= 0.0 && now <= t
    requires Sound(e, rate, burst, now) && Sound(n, rate, burst, now) && Alike(e, n, now)
    ensures Sound(e, rate, burst, t) && Sound(n, rate, burst, t) && Alike(e, n, t)
  {
    hide Tokens;
    forall k | k in e ensures Tokens(e[k].bucket, t) == Tokens(n[k].bucket, t) {
      SameTokens(e[k].bucket, n[k].bucket, now);
    }
    forall k | k in n && k !in e ensures Tokens(n[k].bucket, t) == n[k].bucket.burst as real {
      StaysFull(n[k].bucket, now, t);
    }
  }

  lemma StaysFull(b: Bucket, now: real, t: real)
    requires Sane(b, now) && now <= t && Tokens(b, now) == b.burst as real
    ensures Tokens(b, t) == b.burst as real
  {
    TokensLater(b, now, t);
    MulNonneg(b.rate, t - now);
  }

  /** The visitor's bucket, found or created. */
  lemma VisitSound(vs: Visitors, key: string, rate: real, burst: nat, now: real)
    requires rate >= 0.0 && Sound(vs, rate, burst, now)
    ensures var seen := Visit(vs, key, rate, burst, now);
            Sound(seen, rate, burst, now) && seen.Keys == vs.Keys + {key} && seen[key].lastSeen == now &&
            (forall k :: k in vs && k != key ==> seen[k] == vs[k]) &&
            Tokens(seen[key].bucket, now) == if key in vs then Tokens(vs[key].bucket, now) else burst as real
  {
    FreshTokens(New(rate, burst, now), now);
    hide Tokens;
  }

  /** One visitor's bucket after getVisitor and Allow. */
  lemma ServeOne(vs: Visitors, key: string, rate: real, burst: nat, now: real)
    requires rate >= 0.0 && Sound(vs, rate, burst, now)
    ensures Sound(Serve(vs, key, rate, burst, now), rate, burst, now)
    ensures Serve(vs, key, rate, burst, now).Keys == vs.Keys + {key}
    ensures forall k :: k in vs && k != key ==> Serve(vs, key, rate, burst, now)[k] == vs[k]
    ensures var have := if key in vs then Tokens(vs[key].bucket, now) else burst as real;
            Admits(vs, key, rate, burst, now) == (burst >= 1 && have >= 1.0) &&
            Tokens(Serve(vs, key, rate, burst, now)[key].bucket, now) ==
              have - (if burst >= 1 && have >= 1.0 then 1.0 else 0.0)
  {
    VisitSound(vs, key, rate, burst, now);
    var b := Visit(vs, key, rate, burst, now)[key].bucket;
    AllowSane(b, now);
    AllowSeen(b, now);
    hide Tokens, Visit, Allow;
  }

  lemma AllowSeen(b: Bucket, now: real)
    requires b.last <= now
    ensures var a := Allow(b, now); a.rate == b.rate && a.burst == b.burst && a.last <= now
  {
  }

  lemma AlikeServe(e: Visitors, n: Visitors, key: string, rate: real, burst: nat, now: real)
    requires rate >= 0.0 && Sound(e, rate, burst, now) && Sound(n, rate, burst, now) && Alike(e, n, now)
    ensures Admits(e, key, rate, burst, now) == Admits(n, key, rate, burst, now)
    ensures var e', n' := Serve(e, key, rate, burst, now), Serve(n, key, rate, burst, now);
            Sound(e', rate, burst, now) && Sound(n', rate, burst, now) && Alike(e', n', now)
  {
    hide Serve, Admits, Tokens;
    ServeOne(e, key, rate, burst, now);
    ServeOne(n, key, rate, burst, now);
  }

  /** An entry old enough to be evicted has a full bucket. */
  lemma EvictedFull(b: Bucket, seen: real, rate: real, burst: nat, now: real)
    requires burst as real <= rate * HOUR && Sane(b, now) && b.last <= seen && now - seen > HOUR
    requires b.rate == rate && b.burst == burst
    ensures Tokens(b, now) == burst as real
  {
    FullAfter(b, now, HOUR);
  }

  lemma AlikeEvict(e: Visitors, n: Visitors, rate: real, burst: nat, now: real)
    requires rate >= 0.0 && burst as real <= rate * HOUR
    requires Sound(e, rate, burst, now) && Sound(n, rate, burst, now) && Alike(e, n, now)
    ensures Sound(Evict(e, HOUR, now), rate, burst, now) && Alike(Evict(e, HOUR, now), n, now)
  {
    hide Tokens, Sane;
    var kept := Evict(e, HOUR, now);
    forall k | k in n && k !in kept ensures Tokens(n[k].bucket, now) == n[k].bucket.burst as real {
      if k in e {
        EvictedFull(e[k].bucket, e[k].lastSeen, rate, burst, now);
      }
    }
  }

  lemma {:induction false} AnswersAlike(e: Visitors, n: Visitors, rate: real, burst: nat, events: seq<Event>, now: real)
    requires rate >= 0.0 && burst as real <= rate * HOUR && Ordered(events, now)
    requires Sound(e, rate, burst, now) && Sound(n, rate, burst, now) && Alike(e, n, now)
    ensures Answers(e, rate, burst, events, true) == Answers(n, rate, burst, events, false)
    decreases |events|
  {
    hide Sound, Alike, Serve, Evict, Admits;
    if |events| > 0 {
      var at := events[0].at;
      AlikeLater(e, n, rate, burst, now, at);
      match events[0]
      case Request(key, _) =>
        AlikeServe(e, n, key, rate, burst, at);
        AnswersAlike(Serve(e, key, rate, burst, at), Serve(n, key, rate, burst, at), rate, burst, events[1..], at);
      case Cleanup(_) =>
        AlikeEvict(e, n, rate, burst, at);
        AnswersAlike(Evict(e, HOUR, at), n, rate, burst, events[1..], at);
    }
  }

  // ... and exactly when the bucket refills within the hour

  function Requests(key: string, n: nat, at: real): (r: seq<Event>)
    ensures |r| == n
  {
    if n == 0 then [] else [Request(key, at)] + Requests(key, n - 1, at)
  }

  function Yes(n: nat): (r: seq<bool>)
    ensures |r| == n && forall i :: 0 <= i < n ==> r[i]
  {
    seq(n, _ => true)
  }

  lemma {:induction false} RequestsOrdered(key: string, n: nat, at: real, rest: seq<Event>)
    requires Ordered(rest, at)
    ensures Ordered(Requests(key, n, at) + rest, at)
  {
    if n > 0 {
      RequestsOrdered(key, n - 1, at, rest);
      assert (Requests(key, n, at) + rest)[1..] == Requests(key, n - 1, at) + rest;
    } else {
      assert Requests(key, n, at) + rest == rest;
    }
  }

  /** The table after `n` requests at one moment. */
  function Drain(vs: Visitors, key: string, rate: real, burst: nat, n: nat, at: real): Visitors
    decreases n
  {
    if n == 0 then vs else Drain(Serve(vs, key, rate, burst, at), key, rate, burst, n - 1, at)
  }

  lemma {:induction false} AnswersDrain(vs: Visitors, key: string, rate: real, burst: nat, n: nat, at: real,
                                        rest: seq<Event>, evicting: bool)
    ensures Answers(vs, rate, burst, Requests(key, n, at) + rest, evicting) ==
            Answers(vs, rate, burst, Requests(key, n, at), evicting) +
            Answers(Drain(vs, key, rate, burst, n, at), rate, burst, rest, evicting)
    decreases n
  {
    if n == 0 {
      assert Requests(key, n, at) + rest == rest;
    } else {
      var events := Requests(key, n, at) + rest;
      assert events[1..] == Requests(key, n - 1, at) + rest;
      AnswersDrain(Serve(vs, key, rate, burst, at), key, rate, burst, n - 1, at, rest, evicting);
    }
  }

  /** A visitor with `available` tokens gets `n` requests through exactly when there are that many. */
  lemma {:induction false} DrainAnswers(vs: Visitors, key: string, rate: real, burst: nat, n: nat, at: real,
                                        evicting: bool)
    requires key in vs && Sane(vs[key].bucket, at) && vs[key].bucket.burst == burst
    ensures Answers(vs, rate, burst, Requests(key, n, at), evicting) == Yes(n) <==>
              n == 0 || n as real <= Tokens(vs[key].bucket, at)
    ensures var d := Drain(vs, key, rate, burst, n, at);
            key in d && d.Keys == vs.Keys && Sane(d[key].bucket, at) &&
            d[key].lastSeen == (if n > 0 then at else vs[key].lastSeen) &&
            d[key].bucket.rate == vs[key].bucket.rate && d[key].bucket.burst == burst &&
            (n as real <= Tokens(vs[key].bucket, at) ==>
               Tokens(d[key].bucket, at) == Tokens(vs[key].bucket, at) - n as real)
    decreases n
  {
    if n > 0 {
      var next := Serve(vs, key, rate, burst, at);
      AllowSane(vs[key].bucket, at);
      DrainAnswers(next, key, rate, burst, n - 1, at, evicting);
      var first, rest := Admits(vs, key, rate, burst, at), Answers(next, rate, burst, Requests(key, n - 1, at),
        evicting);
      assert Answers(vs, rate, burst, Requests(key, n, at), evicting) == [first] + rest;
      assert [true] + Yes(n - 1) == Yes(n);
      if [first] + rest == Yes(n) {
        assert first == ([first] + rest)[0] && rest == ([first] + rest)[1..] == Yes(n)[1..] == Yes(n - 1);
      }
    }
  }

  /** getVisitor is idempotent at one moment. */
  lemma VisitFirst(vs: Visitors, key: string, rate: real, burst: nat, n: nat, at: real, rest: seq<Event>,
                   evicting: bool)
    requires n > 0
    ensures Answers(Visit(vs, key, rate, burst, at), rate, burst, Requests(key, n, at) + rest, evicting) ==
            Answers(vs, rate, burst, Requests(key, n, at) + rest, evicting)
  {
    var seen := Visit(vs, key, rate, burst, at);
    assert Visit(seen, key, rate, burst, at) == seen;
  }

  /** A moment more than an hour later at which the bucket is still not full. */
  lemma StillFilling(rate: real, burst: nat) returns (t: real)
    requires rate >= 0.0 && burst as real > rate * HOUR
    ensures t > HOUR && rate * t < burst as real
  {
    if rate == 0.0 {
      t := HOUR + 1.0;
    } else {
      var full := WaitFor(rate, burst as real);
      if full <= HOUR {
        MulMonotone(rate, full, HOUR);
      }
      t := (HOUR + full) / 2.0;
      MulStrict(rate, t, full);
    }
  }

  /** A visitor with an empty bucket at time zero, last seen then. */
  ghost predicate Drained(vs: Visitors, rate: real, burst: nat) {
    vs.Keys == {"v"} && vs["v"].lastSeen == 0.0 && vs["v"].bucket.rate == rate && vs["v"].bucket.burst == burst &&
    Sane(vs["v"].bucket, 0.0) && Tokens(vs["v"].bucket, 0.0) == 0.0
  }

  lemma EvictedAsksAgain(vs: Visitors, rate: real, burst: nat, t: real)
    requires rate >= 0.0 && burst >= 1 && t > HOUR && Drained(vs, rate, burst)
    ensures Answers(Evict(vs, HOUR, t), rate, burst, Requests("v", burst, t), true) == Yes(burst)
  {
    var gone: Visitors := map[];
    assert Evict(vs, HOUR, t) == gone;
    assert Requests("v", burst, t) + [] == Requests("v", burst, t);
    VisitFirst(gone, "v", rate, burst, burst, t, [], true);
    FreshTokens(Visit(gone, "v", rate, burst, t)["v"].bucket, t);
    DrainAnswers(Visit(gone, "v", rate, burst, t), "v", rate, burst, burst, t, true);
  }

  lemma KeptAsksAgain(vs: Visitors, rate: real, burst: nat, t: real)
    requires rate >= 0.0 && burst >= 1 && t > HOUR && rate * t < burst as real && Drained(vs, rate, burst)
    ensures Answers(vs, rate, burst, Requests("v", burst, t), false) != Yes(burst)
  {
    TokensLater(vs["v"].bucket, 0.0, t);
    DrainAnswers(vs, "v", rate, burst, burst, t, false);
  }

  /** Use up the burst, wait until the entry is evicted, and ask for the burst again. */
  lemma EvictionShows(rate: real, burst: nat) returns (events: seq<Event>)
    requires rate >= 0.0 && burst as real > rate * HOUR
    ensures Ordered(events, 0.0)
    ensures Answers(map[], rate, burst, events, true) != Answers(map[], rate, burst, events, false)
  {
    var t := StillFilling(rate, burst);
    assert burst >= 1 by { MulNonneg(rate, HOUR); }
    var asks := Requests("v", burst, t);
    var again := [Cleanup(t)] + asks;
    events := Requests("v", burst, 0.0) + again;
    RequestsOrdered("v", burst, t, []);
    assert asks + [] == asks == again[1..];
    RequestsOrdered("v", burst, 0.0, again);
    hide Drain, Drained, Tokens, Ordered, Visit, Evict, Requests;
    AllIn(rate, burst, again, true);
    AllIn(rate, burst, again, false);
    var drained := Drain(Visit(map[], "v", rate, burst, 0.0), "v", rate, burst, burst, 0.0);
    EvictedAsksAgain(drained, rate, burst, t);
    KeptAsksAgain(drained, rate, burst, t);
    var with, without := Yes(burst), Answers(drained, rate, burst, again, false);
    SameSuffix(Yes(burst), with, without);
  }

  lemma SameSuffix(a: seq<bool>, b: seq<bool>, c: seq<bool>)
    ensures a + b == a + c ==> b == c
  {
    assert b == (a + b)[|a|..] && c == (a + c)[|a|..];
  }

  /** From an empty table the first `burst` requests get through and leave an empty bucket behind. */
  lemma AllIn(rate: real, burst: nat, rest: seq<Event>, evicting: bool)
    requires rate >= 0.0 && burst >= 1
    ensures var drained := Drain(Visit(map[], "v", rate, burst, 0.0), "v", rate, burst, burst, 0.0);
            Answers(map[], rate, burst, Requests("v", burst, 0.0) + rest, evicting) ==
            Yes(burst) + Answers(drained, rate, burst, rest, evicting) &&
            Drained(drained, rate, burst)
  {
    var first := Visit(map[], "v", rate, burst, 0.0);
    VisitFirst(map[], "v", rate, burst, burst, 0.0, rest, evicting);
    AnswersDrain(first, "v", rate, burst, burst, 0.0, rest, evicting);
    FreshTokens(first["v"].bucket, 0.0);
    DrainAnswers(first, "v", rate, burst, burst, 0.0, evicting);
  }

  ghost predicate Unobservable(rate: real, burst: nat) {
    forall events, start :: Ordered(events, start) ==>
                              Answers(map[], rate, burst, events, true) == Answers(map[], rate, burst, events, false)
  }

  /**
   Whatever the visitors do and whenever cleanup runs, the limiter answers as one
   that never forgets, if and only if the bucket refills within the hour.
   */
  lemma UnobservableIff(rate: real, burst: nat)
    requires rate >= 0.0
    ensures Unobservable(rate, burst) <==> burst as real <= rate * HOUR
  {
    if burst as real <= rate * HOUR {
      forall events, start | Ordered(events, start)
        ensures Answers(map[], rate, burst, events, true) == Answers(map[], rate, burst, events, false)
      {
        AnswersAlike(map[], map[], rate, burst, events, start);
      }
    } else {
      var events := EvictionShows(rate, burst);
    }
  }
}
