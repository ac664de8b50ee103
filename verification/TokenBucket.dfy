/**
 The token bucket of golang.org/x/time/rate as its documentation describes it,
 over real numbers of seconds and tokens, used by one goroutine at a time.
 */
module TokenBucket {

  datatype Bucket = Bucket(rate: real, burst: nat, tokens: real, last: real, lastEvent: real)

  /** NewLimiter: a full bucket. */
  function New(rate: real, burst: nat, now: real): Bucket {
    Bucket(rate, burst, burst as real, now, now)
  }

  function Min(a: real, b: real): real { if a <= b then a else b }

  /** The tokens available at time `t`. */
  function Tokens(b: Bucket, t: real): real {
    Min(b.burst as real, b.tokens + b.rate * (if t < b.last then 0.0 else t - b.last))
  }

  /** Allow takes one token if it is there, and leaves the bucket alone otherwise. */
  predicate Allows(b: Bucket, t: real) {
    b.burst >= 1 && Tokens(b, t) >= 1.0
  }

  function Allow(b: Bucket, t: real): Bucket {
    if Allows(b, t) then b.(tokens := Tokens(b, t) - 1.0, last := t, lastEvent := t) else b
  }

  /** Reserve takes a token that may not be there yet; the result says when it will be. */
  function ReadyAt(b: Bucket, t: real): real
    requires b.rate > 0.0
  {
    var left := Tokens(b, t) - 1.0;
    if left < 0.0 then t + -left / b.rate else t
  }

  function Reserve(b: Bucket, t: real): Bucket
    requires b.rate > 0.0 && b.burst >= 1
  {
    b.(tokens := Tokens(b, t) - 1.0, last := t, lastEvent := ReadyAt(b, t))
  }

  function Earned(rate: real, idle: real): real { rate * idle }

  function Restored(b: Bucket, readyAt: real): real {
    1.0 - Earned(b.rate, b.lastEvent - readyAt)
  }

  /** Cancel gives the token back, less what later reservations have taken, unless its time has passed. */
  function Cancel(b: Bucket, readyAt: real, t: real): Bucket
    requires b.rate > 0.0
  {
    var restore := Restored(b, readyAt);
    if readyAt < t || restore <= 0.0 then b
    else
      b.(tokens := Min(b.burst as real, Tokens(b, t) + restore), last := t,
         lastEvent := if readyAt == b.lastEvent && readyAt - 1.0 / b.rate >= t
                      then readyAt - 1.0 / b.rate else b.lastEvent)
  }

  /** What the rest of the program keeps: tokens between zero and the burst, and a past `last`. */
  predicate Sane(b: Bucket, now: real) {
    b.rate >= 0.0 && 0.0 <= b.tokens <= b.burst as real && b.last <= now
  }

  /** What reservations keep: they may leave a debt behind, but one that has been paid off by `now`. */
  predicate Solvent(b: Bucket, now: real) {
    b.rate >= 0.0 && b.tokens <= b.burst as real && b.last <= now && 0.0 <= Tokens(b, now)
  }

  /** From `now` on the two buckets answer alike. */
  ghost predicate SameFrom(a: Bucket, b: Bucket, now: real) {
    a.rate == b.rate && a.burst == b.burst && forall t :: now <= t ==> Tokens(a, t) == Tokens(b, t)
  }

  lemma MulNonneg(r: real, x: real)
    requires r >= 0.0 && x >= 0.0
    ensures r * x >= 0.0
  {
  }

  lemma MulMonotone(r: real, x: real, y: real)
    requires r >= 0.0 && x <= y
    ensures r * x <= r * y
  {
  }

  lemma MulStrict(r: real, x: real, y: real)
    requires r > 0.0 && x < y
    ensures r * x < r * y
  {
    assert r * y == r * x + r * (y - x);
    assert r * (y - x) > 0.0;
  }

  /** Availability is a function of availability at any earlier moment. */
  lemma TokensLater(b: Bucket, now: real, t: real)
    requires b.rate >= 0.0 && b.last <= now <= t
    ensures Tokens(b, t) == Min(b.burst as real, Tokens(b, now) + b.rate * (t - now))
  {
    assert b.rate * (t - b.last) == b.rate * (now - b.last) + b.rate * (t - now);
    MulNonneg(b.rate, t - now);
  }

  lemma SameTokens(a: Bucket, b: Bucket, now: real)
    requires a.rate == b.rate >= 0.0 && a.burst == b.burst && a.last <= now && b.last <= now
    requires Tokens(a, now) == Tokens(b, now)
    ensures SameFrom(a, b, now)
  {
    forall t | now <= t ensures Tokens(a, t) == Tokens(b, t) {
      TokensLater(a, now, t);
      TokensLater(b, now, t);
    }
  }

  lemma AllowSane(b: Bucket, t: real)
    requires Sane(b, t)
    ensures Sane(Allow(b, t), t)
    ensures Tokens(Allow(b, t), t) == Tokens(b, t) - (if Allows(b, t) then 1.0 else 0.0)
  {
    MulNonneg(b.rate, t - b.last);
  }

  /** A bucket left alone for as long as it takes to fill is full. */
  lemma FullAfter(b: Bucket, now: real, idle: real)
    requires Sane(b, now) && now - b.last >= idle && b.burst as real <= b.rate * idle
    ensures Tokens(b, now) == b.burst as real
  {
    MulMonotone(b.rate, idle, now - b.last);
  }

  // Rejections

  lemma DivMul(x: real, r: real)
    requires r > 0.0
    ensures r * (x / r) == x
  {
  }

  lemma WaitFor(r: real, need: real) returns (wait: real)
    requires r > 0.0
    ensures wait == need / r && r * wait == need
  {
    wait := need / r;
    DivMul(need, r);
  }

  lemma Reaches(r: real, have: real, d: real, wait: real, gained: real)
    requires r > 0.0 && r * wait == 1.0 - have && gained == r * d
    ensures have + gained >= 1.0 <==> d >= wait
  {
    if d >= wait {
      MulMonotone(r, wait, d);
    } else {
      MulStrict(r, d, wait);
    }
  }

  lemma Positive(r: real, wait: real)
    requires r > 0.0 && r * wait > 0.0
    ensures wait > 0.0
  {
    if wait <= 0.0 {
      MulNonneg(r, -wait);
    }
  }

  /** How long the owner of a reservation has to wait for a token that is not there. */
  lemma ReadyIn(b: Bucket, t: real) returns (wait: real)
    requires b.rate > 0.0 && b.burst >= 1 && !Allows(b, t)
    ensures ReadyAt(b, t) == t + wait && b.rate * wait == 1.0 - Tokens(b, t) && wait > 0.0
  {
    hide Tokens;
    var need := 1.0 - Tokens(b, t);
    wait := WaitFor(b.rate, need);
    assert -(Tokens(b, t) - 1.0) == need;
    Positive(b.rate, wait);
  }

  lemma AllowsLater(b: Bucket, t: real, at: real)
    requires b.rate > 0.0 && b.last <= t <= at && Allows(b, t)
    ensures Allows(b, at)
  {
    hide Tokens;
    TokensLater(b, t, at);
    var gained := b.rate * (at - t);
    assert Tokens(b, at) == Min(b.burst as real, Tokens(b, t) + gained);
    assert gained >= 0.0 by { MulNonneg(b.rate, at - t); }
  }

  /** The moment a reservation becomes ready is the first moment the bucket would hold a token. */
  lemma ReadyMeansOneToken(b: Bucket, t: real, at: real)
    requires b.rate > 0.0 && b.burst >= 1 && b.last <= t <= at
    ensures at >= ReadyAt(b, t) <==> Allows(b, at)
  {
    if Allows(b, t) {
      AllowsLater(b, t, at);
    } else {
      hide Tokens, ReadyAt;
      TokensLater(b, t, at);
      var wait := ReadyIn(b, t);
      var gained := b.rate * (at - t);
      assert Tokens(b, at) == Min(b.burst as real, Tokens(b, t) + gained);
      Reaches(b.rate, Tokens(b, t), at - t, wait, gained);
    }
  }

  lemma NothingEarned(rate: real)
    ensures Earned(rate, 0.0) == 0.0
  {
  }

  /** Cancelling the last reservation made, in time, restores a whole token. */
  lemma CancelRestores(r: Bucket, t: real)
    requires r.rate > 0.0 && t <= r.lastEvent
    ensures var c := Cancel(r, r.lastEvent, t);
            c.rate == r.rate && c.burst == r.burst && c.last == t &&
            c.tokens == Min(r.burst as real, Tokens(r, t) + 1.0)
  {
    NothingEarned(r.rate);
    hide Tokens, Earned;
    assert r.lastEvent - r.lastEvent == 0.0;
  }

  lemma NotYet(r: real, have: real, d: real, wait: real, gained: real)
    requires r > 0.0 && r * wait == 1.0 - have && 0.0 <= d <= wait && gained == r * d
    ensures 0.0 <= gained && have - 1.0 + gained <= 0.0
  {
    MulNonneg(r, d);
    MulMonotone(r, d, wait);
  }

  lemma ReservedTokens(b: Bucket, t: real, later: real)
    requires b.rate > 0.0 && b.burst >= 1 && t <= later
    ensures Tokens(Reserve(b, t), later) == Min(b.burst as real, Tokens(b, t) - 1.0 + b.rate * (later - t))
  {
    hide ReadyAt;
  }

  lemma FreshTokens(b: Bucket, t: real)
    requires b.last == t
    ensures Tokens(b, t) == Min(b.burst as real, b.tokens)
  {
    NothingEarned(b.rate);
    assert b.rate * 0.0 == 0.0;
  }

  /** A reservation that found a token can only be cancelled at once. */
  lemma CancelAtOnce(b: Bucket, t: real)
    requires b.rate > 0.0 && b.burst >= 1 && b.last <= t && Allows(b, t)
    ensures var c := Cancel(Reserve(b, t), ReadyAt(b, t), t);
            c.rate == b.rate && c.burst == b.burst && c.last == t && c.tokens == Tokens(b, t)
  {
    var r := Reserve(b, t);
    assert ReadyAt(b, t) == t == r.lastEvent;
    FreshTokens(r, t);
    hide Tokens;
    CancelRestores(r, t);
  }

  /** A cancellation in time gives back what the reservation took. */
  lemma CancelInTime(b: Bucket, t1: real, t3: real)
    requires b.rate > 0.0 && b.burst >= 1 && b.last <= t1 <= t3 <= ReadyAt(b, t1)
    ensures var c := Cancel(Reserve(b, t1), ReadyAt(b, t1), t3);
            c.rate == b.rate && c.burst == b.burst && c.last == t3 && c.tokens <= b.burst as real &&
            Tokens(c, t3) == Tokens(b, t3)
  {
    if Allows(b, t1) {
      CancelAtOnce(b, t1);
      FreshTokens(Cancel(Reserve(b, t1), ReadyAt(b, t1), t1), t1);
      assert t3 == t1;
    } else {
      hide Tokens, ReadyAt, Cancel;
      TokensLater(b, t1, t3);
      ReservedTokens(b, t1, t3);
      var wait := ReadyIn(b, t1);
      NotYet(b.rate, Tokens(b, t1), t3 - t1, wait, b.rate * (t3 - t1));
      CancelRestores(Reserve(b, t1), t3);
      FreshTokens(Cancel(Reserve(b, t1), ReadyAt(b, t1), t3), t3);
    }
  }

  /** After the reserved moment the token is gone. */
  lemma CancelTooLate(b: Bucket, t1: real, t3: real)
    requires b.rate > 0.0 && b.burst >= 1 && b.last <= t1 <= t3 && ReadyAt(b, t1) < t3
    ensures var c, gained := Cancel(Reserve(b, t1), ReadyAt(b, t1), t3), b.rate * (t3 - t1);
            c == Reserve(b, t1) &&
            Tokens(c, t3) == Min(b.burst as real, Tokens(b, t1) - 1.0 + gained) &&
            Tokens(b, t3) == Min(b.burst as real, Tokens(b, t1) + gained)
  {
    hide Tokens, ReadyAt;
    TokensLater(b, t1, t3);
    ReservedTokens(b, t1, t3);
  }

  /**
   Reserving at `t1` and cancelling at `t3` leaves a bucket as it was exactly when
   the cancellation is not later than the reserved moment, or so late that the
   bucket has filled up without the token. This includes a bucket that was found
   empty earlier and holds a token again at `t1`.
   */
  lemma ReserveCancelNeutral(b: Bucket, t1: real, t3: real)
    requires b.rate > 0.0 && b.burst >= 1 && b.last <= t1 <= t3
    ensures var c := Cancel(Reserve(b, t1), ReadyAt(b, t1), t3);
            SameFrom(b, c, t3) <==>
              t3 <= ReadyAt(b, t1) || Tokens(b, t1) - 1.0 + b.rate * (t3 - t1) >= b.burst as real
  {
    hide Tokens, Cancel, ReadyAt;
    var c := Cancel(Reserve(b, t1), ReadyAt(b, t1), t3);
    if t3 <= ReadyAt(b, t1) {
      CancelInTime(b, t1, t3);
      SameTokens(b, c, t3);
    } else {
      CancelTooLate(b, t1, t3);
      if Tokens(c, t3) == Tokens(b, t3) {
        SameTokens(b, c, t3);
      }
    }
  }

  /** int(delay.Seconds()) + 1 */
  function RetryAfter(readyAt: real, t: real): int {
    (if readyAt < t then 0.0 else readyAt - t).Floor + 1
  }

  /**
   The wait told at `t2` ends strictly after the bucket, left alone, would hold a
   token, and no wait that is a whole second shorter does.
   */
  lemma RetryAfterLeast(b: Bucket, t1: real, t2: real)
    requires b.rate > 0.0 && b.burst >= 1 && b.last <= t1 <= t2
    ensures var wait := RetryAfter(ReadyAt(b, t1), t2) as real;
            Allows(b, t2 + wait) && (exists t :: t2 <= t < t2 + wait && Allows(b, t)) &&
            forall t :: t2 <= t && Allows(b, t) ==> wait <= t - t2 + 1.0
  {
    hide Tokens, Allows, ReadyAt;
    var ready, wait := ReadyAt(b, t1), RetryAfter(ReadyAt(b, t1), t2) as real;
    var first := if ready < t2 then t2 else ready;
    ReadyMeansOneToken(b, t1, first);
    ReadyMeansOneToken(b, t1, t2 + wait);
    assert t2 <= first < t2 + wait && Allows(b, first);
    forall t | t2 <= t && Allows(b, t) ensures wait <= t - t2 + 1.0 {
      ReadyMeansOneToken(b, t1, t);
    }
  }

  /** A moment is not later than the reserved one exactly if there was no token before it. */
  lemma NoTokenBefore(b: Bucket, t1: real, t3: real)
    requires b.rate > 0.0 && b.burst >= 1 && b.last <= t1 <= t3
    ensures t3 <= ReadyAt(b, t1) <==> forall t :: t1 <= t < t3 ==> !Allows(b, t)
  {
    hide Tokens, Allows;
    var ready := ReadyAt(b, t1);
    forall t | t1 <= t ensures t >= ready <==> Allows(b, t) {
      ReadyMeansOneToken(b, t1, t);
    }
    assert t1 <= ready by { ReadyNotBefore(b, t1); }
    assert ready < t3 ==> Allows(b, ready);
  }

  lemma ReadyNotBefore(b: Bucket, t: real)
    requires b.rate > 0.0
    ensures t <= ReadyAt(b, t)
  {
    hide Tokens;
    var left := Tokens(b, t) - 1.0;
    if left < 0.0 {
      assert -left / b.rate > 0.0;
    }
  }

  /**
   A client whose probe was reserved at `t1`, that was told at `t2` how long to
   wait, and whose probe was cancelled at `t3`, comes back after that many seconds,
   nobody having used the bucket in between. It is admitted exactly when the
   cancellation was in time, or the bucket has made up for the token the late one
   kept.
   */
  lemma RetryAfterIff(b: Bucket, t1: real, t2: real, t3: real, t: real)
    requires b.rate > 0.0 && b.burst >= 1 && b.last <= t1 <= t2 <= t3 <= t
    requires t >= t2 + RetryAfter(ReadyAt(b, t1), t2) as real
    ensures Allows(Cancel(Reserve(b, t1), ReadyAt(b, t1), t3), t) <==>
              t3 <= ReadyAt(b, t1) || Tokens(b, t1) - 1.0 + b.rate * (t - t1) >= 1.0
  {
    hide Tokens, Cancel, ReadyAt;
    if t3 <= ReadyAt(b, t1) {
      ReserveCancelNeutral(b, t1, t3);
      assert t >= ReadyAt(b, t1);
      ReadyMeansOneToken(b, t1, t);
    } else {
      CancelTooLate(b, t1, t3);
      ReservedTokens(b, t1, t);
    }
  }

  /** With the probe cancelled in time the wait is enough, also if the bucket is thrown away and replaced meanwhile. */
  lemma RetryAfterIsEnough(b: Bucket, t1: real, t2: real, t3: real, t: real, rate: real, burst: nat)
    requires b.rate > 0.0 && b.burst >= 1 && burst >= 1 && b.last <= t1 <= t2 <= t3 <= ReadyAt(b, t1)
    requires t3 <= t && t >= t2 + RetryAfter(ReadyAt(b, t1), t2) as real
    ensures Allows(Cancel(Reserve(b, t1), ReadyAt(b, t1), t3), t) && Allows(New(rate, burst, t), t)
  {
    RetryAfterIff(b, t1, t2, t3, t);
    FreshTokens(New(rate, burst, t), t);
  }

  /**
   The bucket rejects at `t0`, and a token arrives before the probe is reserved at
   `t1`. Then the probe is ready at once and every later cancellation loses its
   token: the bucket is as it was exactly if it has filled up again, and a client
   that waits the one second it is told is admitted exactly if the bucket has made
   up for the token, which it has if it earns a token a second.
   */
  lemma TokenArrives(b: Bucket, t0: real, t1: real, t2: real, t3: real, t: real)
    requires b.rate > 0.0 && b.burst >= 1 && b.last <= t0 <= t1 <= t2 <= t3 && t1 < t3
    requires !Allows(b, t0) && Allows(b, t1) && t >= t3 && t >= t2 + 1.0
    ensures ReadyAt(b, t1) == t1 && RetryAfter(ReadyAt(b, t1), t2) == 1
    ensures var c := Cancel(Reserve(b, t1), ReadyAt(b, t1), t3);
            SameFrom(b, c, t3) <==> Tokens(b, t1) - 1.0 + b.rate * (t3 - t1) >= b.burst as real
    ensures Allows(Cancel(Reserve(b, t1), ReadyAt(b, t1), t3), t) <==>
              Tokens(b, t1) - 1.0 + b.rate * (t - t1) >= 1.0
    ensures b.rate >= 1.0 ==> Allows(Cancel(Reserve(b, t1), ReadyAt(b, t1), t3), t)
  {
    assert ReadyAt(b, t1) == t1;
    hide Tokens, Cancel, ReadyAt, SameFrom;
    ReserveCancelNeutral(b, t1, t3);
    RetryAfterIff(b, t1, t2, t3, t);
    if b.rate >= 1.0 {
      MulMonotone(b.rate, 1.0, t - t1);
    }
  }

  /** The shipped limit of /admin, used once at time 0. */
  function AdminUsed(): (b: Bucket)
    ensures b.rate == 0.2 && b.burst == 1 && b.tokens == 0.0 && b.last == 0.0
  {
    Allow(New(0.2, 1, 0.0), 0.0)
  }

  /** It earns a token in five seconds. */
  lemma AdminTokens(t: real, have: real)
    requires t >= 0.0 && 5.0 * have == t
    ensures Tokens(AdminUsed(), t) == Min(1.0, have)
  {
    hide AdminUsed;
    assert t - AdminUsed().last == t;
    assert AdminUsed().rate * t == have;
  }

  lemma AdminAnswers()
    ensures !Allows(AdminUsed(), 4.9) && Allows(AdminUsed(), 5.0) && Allows(AdminUsed(), 6.2)
    ensures Tokens(AdminUsed(), 5.0) == 1.0
  {
    hide Tokens, AdminUsed;
    AdminTokens(4.9, 0.98);
    AdminTokens(5.0, 1.0);
    AdminTokens(6.2, 1.24);
  }

  lemma AdminGain(rate: real)
    requires rate == 0.2
    ensures rate * (6.2 - 5.0) == 0.24
  {
  }

  /**
   So a rejection is not neutral: the bucket rejects at 4.9; the probe reserved at
   5.0 and cancelled at 5.2 costs the token, and the client told at 5.1 to wait a
   second is rejected again at 6.2, when the bucket left alone would admit it.
   */
  lemma AdminLosesToken()
    ensures var b := AdminUsed();
            var c := Cancel(Reserve(b, 5.0), ReadyAt(b, 5.0), 5.2);
            !Allows(b, 4.9) && Allows(b, 5.0) && RetryAfter(ReadyAt(b, 5.0), 5.1) == 1 &&
            Allows(b, 6.2) && !Allows(c, 6.2)
  {
    hide *;
    AdminAnswers();
    AdminGain(AdminUsed().rate);
    TokenArrives(AdminUsed(), 4.9, 5.0, 5.1, 5.2, 6.2);
  }
}
