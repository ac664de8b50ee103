/**
 The limiter of middleware_ratelimit.go: limits per path, a multiplier for
 users, and eviction after the cleanup interval. A visitor keeps the limits of
 the request that created it until it is evicted.
 */
module RateLimit {
  import opened TokenBucket
  import opened Eviction

  datatype Limit = Limit(rate: real, burst: nat)

  datatype Config = Config(default: Limit, endpoints: map<string, Limit>, multiplier: real, interval: real)

  // Paths

  function Stars(s: string): nat {
    if |s| == 0 then 0 else Stars(s[1..]) + (if s[0] == '*' then 1 else 0)
  }

  function BeforeStar(s: string): string
    requires Stars(s) > 0
  {
    if s[0] == '*' then "" else [s[0]] + BeforeStar(s[1..])
  }

  function AfterStar(s: string): string
    requires Stars(s) > 0
  {
    if s[0] == '*' then s[1..] else AfterStar(s[1..])
  }

  predicate HasSuffix(s: string, suffix: string) {
    |suffix| <= |s| && s[|s| - |suffix|..] == suffix
  }

  /** matchesPattern: no star is equality, one star is prefix and suffix, more is no match. */
  predicate MatchesPattern(path: string, pattern: string) {
    if '*' !in pattern then path == pattern
    else Stars(pattern) == 1 && BeforeStar(pattern) <= path && HasSuffix(path, AfterStar(pattern))
  }

  lemma {:induction false} SplitAtStar(prefix: string, suffix: string)
    requires Stars(prefix) == 0 && Stars(suffix) == 0
    ensures Stars(prefix + "*" + suffix) == 1
    ensures BeforeStar(prefix + "*" + suffix) == prefix && AfterStar(prefix + "*" + suffix) == suffix
  {
    var s := prefix + "*" + suffix;
    if prefix == "" {
      assert s == "*" + suffix && s[1..] == suffix;
    } else {
      assert s[1..] == prefix[1..] + "*" + suffix;
      SplitAtStar(prefix[1..], suffix);
    }
  }

  /**
   A pattern with one star matches exactly the paths that put something, possibly
   nothing, in place of the star, and also the paths in which prefix and suffix overlap.
   */
  lemma MatchesOneStar(path: string, prefix: string, suffix: string)
    requires Stars(prefix) == 0 && Stars(suffix) == 0
    ensures MatchesPattern(path, prefix + "*" + suffix) <==>
              (exists mid :: path == prefix + mid + suffix) ||
              (|path| < |prefix| + |suffix| && prefix <= path && HasSuffix(path, suffix))
  {
    SplitAtStar(prefix, suffix);
    assert '*' in prefix + "*" + suffix by { assert (prefix + "*" + suffix)[|prefix|] == '*'; }
    hide Stars, BeforeStar, AfterStar, HasSuffix;
    if prefix <= path && HasSuffix(path, suffix) && |prefix| + |suffix| <= |path| {
      FillsStar(path, prefix, suffix);
    }
    if mid :| path == prefix + mid + suffix {
      FilledStar(prefix, mid, suffix);
    }
  }

  lemma FilledStar(prefix: string, mid: string, suffix: string)
    ensures var path := prefix + mid + suffix; prefix <= path && HasSuffix(path, suffix)
  {
    var path := prefix + mid + suffix;
    assert path[..|prefix|] == prefix;
    assert path[|path| - |suffix|..] == suffix;
  }

  lemma FillsStar(path: string, prefix: string, suffix: string)
    requires prefix <= path && HasSuffix(path, suffix) && |prefix| + |suffix| <= |path|
    ensures exists mid :: path == prefix + mid + suffix
  {
    var mid := path[|prefix|..|path| - |suffix|];
    assert path == prefix + mid + suffix;
  }

  lemma {:induction false} NoStars(s: string)
    ensures Stars(s) == 0 <==> '*' !in s
  {
    if |s| > 0 {
      NoStars(s[1..]);
    }
  }

  lemma {:induction false} OneStar(s: string)
    requires Stars(s) == 1
    ensures s == BeforeStar(s) + "*" + AfterStar(s) && '*' !in BeforeStar(s) && '*' !in AfterStar(s)
  {
    if s[0] == '*' {
      NoStars(s[1..]);
    } else {
      OneStar(s[1..]);
      assert s == [s[0]] + s[1..];
      assert [s[0]] + (BeforeStar(s[1..]) + "*" + AfterStar(s[1..])) ==
             ([s[0]] + BeforeStar(s[1..])) + "*" + AfterStar(s[1..]);
    }
  }

  /** Every pattern: without a star the path itself, with one star a prefix and a suffix, with more no path at all. */
  lemma MatchesExactly(path: string, pattern: string)
    ensures MatchesPattern(path, pattern) <==>
              ('*' !in pattern && path == pattern) ||
              exists prefix, suffix ::
                pattern == prefix + "*" + suffix && '*' !in prefix && '*' !in suffix &&
                prefix <= path && |suffix| <= |path| && path[|path| - |suffix|..] == suffix
  {
    if MatchesPattern(path, pattern) && '*' in pattern {
      OneStar(pattern);
      assert pattern == BeforeStar(pattern) + "*" + AfterStar(pattern);
    }
    if prefix, suffix :|
      pattern == prefix + "*" + suffix && '*' !in prefix && '*' !in suffix &&
      prefix <= path && |suffix| <= |path| && path[|path| - |suffix|..] == suffix
    {
      NoStars(prefix);
      NoStars(suffix);
      MatchesOneStar(path, prefix, suffix);
      SplitAtStar(prefix, suffix);
      NoStars(pattern);
    }
  }

  /** getLimitsForPath ranges over a map, so any matching entry may be the answer. */
  predicate LimitFor(c: Config, path: string, limit: Limit) {
    (exists p :: p in c.endpoints && MatchesPattern(path, p) && limit == c.endpoints[p]) ||
    ((forall p :: p in c.endpoints ==> !MatchesPattern(path, p)) && limit == c.default)
  }

  method GetLimitsForPath(c: Config, path: string) returns (limit: Limit)
    ensures LimitFor(c, path, limit)
    ensures (exists p :: p in c.endpoints && MatchesPattern(path, p) && limit == c.endpoints[p]) ||
            ((forall p :: p in c.endpoints ==> !MatchesPattern(path, p)) && limit == c.default)
  {
    var patterns := c.endpoints.Keys;
    while patterns != {}
      invariant patterns <= c.endpoints.Keys
      invariant forall p :: p in c.endpoints && p !in patterns ==> !MatchesPattern(path, p)
      decreases patterns
    {
      var p :| p in patterns;
      if MatchesPattern(path, p) {
        return c.endpoints[p];
      }
      patterns := patterns - {p};
    }
    return c.default;
  }

  // Visitors

  const USER := "user:"

  /** The limits a new visitor gets; a multiplier that is not positive counts as none, and int() truncates. */
  function Effective(c: Config, key: string, limit: Limit): Limit {
    if USER <= key && c.multiplier > 0.0
    then Limit(limit.rate * c.multiplier, Scaled(limit.burst, c.multiplier))
    else limit
  }

  lemma EffectiveIs(c: Config, key: string, limit: Limit)
    ensures var e := Effective(c, key, limit);
            if "user:" <= key && c.multiplier > 0.0
            then e.rate == limit.rate * c.multiplier &&
                 e.burst as real <= limit.burst as real * c.multiplier < e.burst as real + 1.0
            else e == limit
  {
  }

  function Scaled(burst: nat, m: real): nat
    requires m > 0.0
  {
    (burst as real * m).Floor
  }

  /**
   What a rejection does to the bucket: with headers on, a probe is reserved and
   cancelled, each with its own reading of the clock.
   */
  function Probe(b: Bucket, reserve: real, cancel: real): Bucket
    requires b.rate > 0.0
  {
    if b.burst >= 1 then Cancel(Reserve(b, reserve), ReadyAt(b, reserve), cancel) else b
  }

  /** One request: getVisitor and Allow at `now`, and after a rejection the probe. */
  function Handle(vs: Visitors, key: string, limit: Limit, now: real, reserve: real, cancel: real): Visitors
    requires limit.rate > 0.0 && forall k :: k in vs ==> vs[k].bucket.rate > 0.0
  {
    var seen := Visit(vs, key, limit.rate, limit.burst, now);
    var b := seen[key].bucket;
    seen[key := seen[key].(bucket := if Allows(b, now) then Allow(b, now) else Probe(b, reserve, cancel))]
  }

  /** A configuration in which every bucket refills within the cleanup interval. */
  predicate Refills(c: Config) {
    LimitRefills(c.default, c.interval) &&
    forall p :: p in c.endpoints ==> LimitRefills(c.endpoints[p], c.interval)
  }

  predicate LimitRefills(limit: Limit, interval: real) {
    limit.rate > 0.0 && limit.burst as real <= limit.rate * interval
  }

  lemma EntryRefills(c: Config, path: string, limit: Limit)
    requires Refills(c) && LimitFor(c, path, limit)
    ensures LimitRefills(limit, c.interval)
  {
    hide LimitRefills, MatchesPattern;
  }

  /** The multiplier, with its truncated burst, keeps the condition. */
  lemma EffectiveRefills(c: Config, key: string, path: string, limit: Limit)
    requires Refills(c) && LimitFor(c, path, limit)
    ensures LimitRefills(Effective(c, key, limit), c.interval)
  {
    hide LimitRefills, LimitFor, Refills, Scaled;
    EntryRefills(c, path, limit);
    if USER <= key && c.multiplier > 0.0 {
      ScaledRefills(limit, c.multiplier, c.interval);
    }
  }

  lemma ScaledRefills(limit: Limit, m: real, interval: real)
    requires LimitRefills(limit, interval) && m > 0.0
    ensures LimitRefills(Limit(limit.rate * m, Scaled(limit.burst, m)), interval)
  {
    var burst, filled := limit.burst as real, limit.rate * interval;
    MulMonotone(m, burst, filled);
    assert m * filled == (limit.rate * m) * interval;
    MulStrict(m, 0.0, limit.rate);
  }

  ghost predicate Healthy(vs: Visitors, now: real) {
    forall k :: k in vs ==> vs[k].bucket.rate > 0.0 && Solvent(vs[k].bucket, now)
  }

  lemma SolventLater(b: Bucket, now: real, t: real)
    requires Solvent(b, now) && now <= t
    ensures Solvent(b, t) && Tokens(b, now) <= Tokens(b, t)
  {
    TokensLater(b, now, t);
    hide Tokens;
    var gained := b.rate * (t - now);
    assert gained >= 0.0 by { MulNonneg(b.rate, t - now); }
    assert Tokens(b, t) == Min(b.burst as real, Tokens(b, now) + gained);
    CappedTokens(b, now);
  }

  lemma SolventPast(b: Bucket, now: real)
    requires Solvent(b, now)
    ensures b.last <= now
  {
  }

  lemma CappedTokens(b: Bucket, now: real)
    ensures Tokens(b, now) <= b.burst as real
  {
  }

  lemma HealthyLater(vs: Visitors, now: real, t: real)
    requires Healthy(vs, now) && now <= t
    ensures Healthy(vs, t)
  {
    hide Solvent;
    forall k | k in vs ensures Solvent(vs[k].bucket, t) {
      SolventLater(vs[k].bucket, now, t);
    }
  }

  lemma AllowSolvent(b: Bucket, now: real)
    requires Solvent(b, now)
    ensures Solvent(Allow(b, now), now)
    ensures Tokens(Allow(b, now), now) == Tokens(b, now) - (if Allows(b, now) then 1.0 else 0.0)
  {
    CappedTokens(b, now);
    if Allows(b, now) {
      FreshTokens(Allow(b, now), now);
    }
    hide Tokens;
  }

  /** The reserved moment has passed, so what was owed has been earned. */
  lemma DebtPaid(b: Bucket, reserve: real, cancel: real)
    requires b.rate > 0.0 && b.burst >= 1 && Solvent(b, reserve) && reserve <= cancel && ReadyAt(b, reserve) < cancel
    ensures Tokens(b, reserve) - 1.0 + b.rate * (cancel - reserve) >= 0.0
  {
    if Allows(b, reserve) {
      MulNonneg(b.rate, cancel - reserve);
    } else {
      var wait := ReadyIn(b, reserve);
      MulMonotone(b.rate, wait, cancel - reserve);
    }
  }

  /**
   The probe of a rejection never adds tokens. It leaves the bucket as it was
   exactly if it was cancelled in time, or there was no reservation, or the bucket
   has filled up anyway.
   */
  lemma ProbeNeutral(b: Bucket, reserve: real, cancel: real)
    requires b.rate > 0.0 && Solvent(b, reserve) && reserve <= cancel
    ensures var p := Probe(b, reserve, cancel);
            Solvent(p, cancel) && p.rate == b.rate && p.burst == b.burst && Tokens(p, cancel) <= Tokens(b, cancel)
    ensures SameFrom(b, Probe(b, reserve, cancel), cancel) <==>
              b.burst == 0 || cancel <= ReadyAt(b, reserve) ||
              Tokens(b, reserve) - 1.0 + b.rate * (cancel - reserve) >= b.burst as real
  {
    hide Tokens, SameFrom, Cancel, ReadyAt;
    SolventLater(b, reserve, cancel);
    if b.burst >= 1 {
      ReserveCancelNeutral(b, reserve, cancel);
      if cancel <= ReadyAt(b, reserve) {
        CancelInTime(b, reserve, cancel);
      } else {
        CancelTooLate(b, reserve, cancel);
        DebtPaid(b, reserve, cancel);
        CappedTokens(b, reserve);
      }
    } else {
      SameBucket(b, cancel);
    }
  }

  lemma SameBucket(b: Bucket, now: real)
    ensures SameFrom(b, b, now)
  {
  }

  lemma HandleHealthy(vs: Visitors, key: string, limit: Limit, now: real, reserve: real, cancel: real)
    requires limit.rate > 0.0 && Healthy(vs, now) && now <= reserve <= cancel
    ensures Healthy(Visit(vs, key, limit.rate, limit.burst, now), now)
    ensures Healthy(Handle(vs, key, limit, now, reserve, cancel), cancel)
  {
    NewHealthy(vs, key, limit, now);
    HealthyLater(vs, now, cancel);
    var b := Visit(vs, key, limit.rate, limit.burst, now)[key].bucket;
    assert b.rate > 0.0 && Solvent(b, now);
    hide Solvent, Probe, Allow, Allows;
    if Allows(b, now) {
      AllowSolvent(b, now);
      SolventLater(Allow(b, now), now, cancel);
      AllowKeepsRate(b, now);
    } else {
      SolventLater(b, now, reserve);
      ProbeNeutral(b, reserve, cancel);
    }
  }

  lemma AllowKeepsRate(b: Bucket, now: real)
    ensures Allow(b, now).rate == b.rate && Allow(b, now).burst == b.burst
  {
  }

  lemma NewHealthy(vs: Visitors, key: string, limit: Limit, now: real)
    requires limit.rate > 0.0 && Healthy(vs, now)
    ensures Healthy(Visit(vs, key, limit.rate, limit.burst, now), now)
  {
    FreshTokens(New(limit.rate, limit.burst, now), now);
    hide Tokens;
  }

  class RateLimiter {
    const config: Config
    var visitors: Visitors

    constructor (config: Config)
      ensures this.config == config && visitors == map[]
    {
      this.config, visitors := config, map[];
    }

    ghost predicate Valid(now: real)
      reads this
    {
      Refills(config) && Healthy(visitors, now)
    }

    method GetVisitor(key: string, limit: Limit, now: real)
      modifies this
      ensures var e := Effective(config, key, limit); visitors == Visit(old(visitors), key, e.rate, e.burst, now)
      ensures visitors.Keys == old(visitors).Keys + {key} && visitors[key].lastSeen == now
      ensures forall k :: k in old(visitors) && k != key ==> visitors[k] == old(visitors)[k]
      ensures key in old(visitors) ==> visitors[key].bucket == old(visitors)[key].bucket
      ensures key !in old(visitors) ==>
                var b := visitors[key].bucket;
                b.last == now && Tokens(b, now) == b.burst as real &&
                if "user:" <= key && config.multiplier > 0.0
                then b.rate == limit.rate * config.multiplier &&
                     b.burst as real <= limit.burst as real * config.multiplier < b.burst as real + 1.0
                else b.rate == limit.rate && b.burst == limit.burst
    {
      var e := Effective(config, key, limit);
      FreshTokens(New(e.rate, e.burst, now), now);
      EffectiveIs(config, key, limit);
      hide Scaled, Tokens;
      if key !in visitors {
        var l := limit;
        if USER <= key && config.multiplier > 0.0 {
          l := Limit(limit.rate * config.multiplier, Scaled(limit.burst, config.multiplier));
        }
        assert l == Effective(config, key, limit);
        visitors := visitors[key := Visitor(New(l.rate, l.burst, now), now)];
      } else {
        visitors := visitors[key := visitors[key].(lastSeen := now)];
      }
    }

    method CleanupVisitors(now: real)
      modifies this
      ensures visitors == Evict(old(visitors), config.interval, now)
      ensures forall k :: k in visitors <==> k in old(visitors) && now - old(visitors)[k].lastSeen <= config.interval
      ensures forall k :: k in visitors ==> visitors[k] == old(visitors)[k]
    {
      var keys := visitors.Keys;
      while keys != {}
        invariant keys <= visitors.Keys <= old(visitors).Keys
        invariant forall k :: k in visitors ==> visitors[k] == old(visitors)[k]
        invariant forall k :: k in old(visitors) && k !in keys ==>
                                (k in visitors <==> !(now - old(visitors)[k].lastSeen > config.interval))
        decreases keys
      {
        var key :| key in keys;
        if now - visitors[key].lastSeen > config.interval {
          visitors := visitors - {key};
        }
        keys := keys - {key};
      }
    }

    /**
     Middleware up to the call of the next handler. The clock is read for the
     decision, and after a rejection for the reservation, its delay and its
     cancellation. `seen` is the bucket that decided, `retryAfter` the header of a
     rejection: the least whole number of seconds whose wait ends strictly after
     that bucket, left alone, would hold a token. Who comes back after it is
     admitted exactly if the bucket held no token before the cancellation, or has
     made up for the token it kept.
     */
    method Serve(key: string, path: string, now: real, reserve: real, delay: real, cancel: real)
      returns (ok: bool, retryAfter: int, ghost limit: Limit, ghost seen: Bucket)
      requires Valid(now) && now <= reserve <= delay <= cancel
      modifies this
      ensures Valid(cancel) && LimitFor(config, path, limit)
      ensures (exists p :: p in config.endpoints && MatchesPattern(path, p) && limit == config.endpoints[p]) ||
              ((forall p :: p in config.endpoints ==> !MatchesPattern(path, p)) && limit == config.default)
      ensures var e := Effective(config, key, limit);
              e.rate > 0.0 && visitors == Handle(old(visitors), key, e, now, reserve, cancel) &&
              ok == Admits(old(visitors), key, e.rate, e.burst, now)
      ensures key in old(visitors) ==> seen == old(visitors)[key].bucket
      ensures key !in old(visitors) ==>
                Tokens(seen, now) == seen.burst as real &&
                if "user:" <= key && config.multiplier > 0.0
                then seen.rate == limit.rate * config.multiplier &&
                     seen.burst as real <= limit.burst as real * config.multiplier < seen.burst as real + 1.0
                else seen.rate == limit.rate && seen.burst == limit.burst
      ensures ok <==> seen.burst >= 1 && Tokens(seen, now) >= 1.0
      ensures visitors.Keys == old(visitors).Keys + {key} && visitors[key].lastSeen == now
      ensures forall k :: k in old(visitors) && k != key ==> visitors[k] == old(visitors)[k]
      ensures ok ==> Tokens(visitors[key].bucket, now) == Tokens(seen, now) - 1.0
      ensures seen.burst == 0 ==> visitors[key].bucket == seen
      ensures !ok && seen.burst >= 1 ==>
                Allows(seen, delay + retryAfter as real) &&
                (exists t :: delay <= t < delay + retryAfter as real && Allows(seen, t)) &&
                (forall t :: delay <= t && Allows(seen, t) ==> retryAfter as real <= t - delay + 1.0)
      ensures !ok && seen.burst >= 1 ==>
                forall t :: t >= cancel && t >= delay + retryAfter as real ==>
                              (Allows(visitors[key].bucket, t) <==>
                                 (forall s :: reserve <= s < cancel ==> !Allows(seen, s)) ||
                                 Tokens(seen, reserve) - 1.0 + seen.rate * (t - reserve) >= 1.0)
    {
      hide Tokens, Effective, LimitFor, MatchesPattern, Cancel, ReadyAt, Refills, Solvent;
      var l := GetLimitsForPath(config, path);
      limit := l;
      EffectiveRefills(config, key, path, l);
      HandleHealthy(visitors, key, Effective(config, key, l), now, reserve, cancel);
      GetVisitor(key, l, now);
      assert Healthy(visitors, now);
      var b := visitors[key].bucket;
      seen := b;
      ok, retryAfter := Allows(b, now), 0;
      if ok {
        AllowSolvent(b, now);
        visitors := visitors[key := visitors[key].(bucket := Allow(b, now))];
      } else if b.burst == 0 {
        assert visitors == visitors[key := visitors[key].(bucket := b)];
      } else {
        SolventPast(b, now);
        var readyAt := ReadyAt(b, reserve);
        retryAfter := RetryAfter(readyAt, delay);
        visitors := visitors[key := visitors[key].(bucket := Cancel(Reserve(b, reserve), readyAt, cancel))];
        RetryAfterLeast(b, reserve, delay);
        NoTokenBefore(b, reserve, cancel);
        forall t | t >= cancel && t >= delay + retryAfter as real
          ensures Allows(visitors[key].bucket, t) <==>
                    cancel <= readyAt || Tokens(b, reserve) - 1.0 + b.rate * (t - reserve) >= 1.0
        {
          RetryAfterIff(b, reserve, delay, cancel, t);
        }
      }
    }
  }
}
