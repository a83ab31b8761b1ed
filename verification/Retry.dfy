/**
 Waiting and retrying (`config.rs`, the jitter of `hygiene.rs`, and
 `transmit_with_retry` of `transport.rs`). Durations are in nanoseconds, because
 the code truncates some of them to milliseconds.
 */
module Retry {
  import opened Bytes
  import opened Http

  const MS: nat := 1_000_000
  const U128_MAX: nat := 0xFFFF_FFFF_FFFF_FFFF_FFFF_FFFF_FFFF_FFFF

  /** `std::time::Duration`: below 2^64 seconds. */
  type Duration = d: nat | d < 0x1_0000_0000_0000_0000 * 1_000_000_000

  function Min(x: nat, y: nat): nat {
    if x <= y then x else y
  }

  /** `Duration::as_millis`. */
  function Millis(d: nat): (m: nat)
    ensures m * MS <= d < m * MS + MS
  {
    d / MS
  }

  // ----- jitter

  datatype JitterBounds = JitterBounds(min: Duration, max: Duration)

  /** `JitterBounds::new`. */
  function NewJitterBounds(min: Duration, max: Duration): JitterBounds {
    JitterBounds(min, if max < min then min else max)
  }

  /** The largest value the random draw may take, in milliseconds. */
  function Span(j: JitterBounds): nat {
    if Millis(j.max) >= Millis(j.min) then Millis(j.max) - Millis(j.min) else 0
  }

  function SampleJitter(j: JitterBounds, draw: nat): nat {
    if j.max <= j.min || Span(j) == 0 then j.min
    else j.min + Min(draw, U64_MAX) * MS
  }

  /** The delay is never below the lower bound and less than a millisecond above the upper one. */
  lemma {:induction false} JitterWithinMillisecond(min: Duration, max: Duration, draw: nat)
    requires draw <= Span(NewJitterBounds(min, max))
    ensures min <= SampleJitter(NewJitterBounds(min, max), draw)
    ensures var j := NewJitterBounds(min, max); SampleJitter(j, draw) < j.max + MS
  {
    var j := NewJitterBounds(min, max);
    hide Millis;
    var a, b := Millis(j.min), Millis(j.max);
    if Span(j) > 0 {
      assert Min(draw, U64_MAX) * MS <= (b - a) * MS;
    }
  }

  /** When every possible delay stays within the bounds. */
  predicate JitterExact(j: JitterBounds) {
    Span(j) == 0 || Span(j) > U64_MAX || j.min - Millis(j.min) * MS <= j.max - Millis(j.max) * MS
  }

  /**
   The documented bound `delay <= max` holds for every draw exactly when the lower bound has no
   larger sub-millisecond part than the upper one (or there is nothing to draw, or the draw is capped).
   */
  lemma {:induction false} JitterWithinBoundsIff(min: Duration, max: Duration)
    ensures var j := NewJitterBounds(min, max);
            (forall draw: nat :: draw <= Span(j) ==> SampleJitter(j, draw) <= j.max) <==> JitterExact(j)
  {
    var j := NewJitterBounds(min, max);
    hide Millis;
    var a, b := Millis(j.min), Millis(j.max);
    if Span(j) > 0 {
      assert Span(j) == b - a;
      if JitterExact(j) {
        forall draw: nat | draw <= Span(j) ensures SampleJitter(j, draw) <= j.max {
          assert Min(draw, U64_MAX) * MS <= (b - a) * MS;
          assert b - a > U64_MAX ==> Min(draw, U64_MAX) * MS <= (b - a - 1) * MS;
        }
      } else {
        assert SampleJitter(j, Span(j)) == j.min + (b - a) * MS;
      }
    }
  }

  /** Bounds of 0.9 and 1.1 milliseconds can delay by 1.9. */
  lemma {:induction false} JitterMayOverrun()
    ensures var j := NewJitterBounds(900_000, 1_100_000);
            1 <= Span(j) && SampleJitter(j, 1) == 1_900_000
  {
    var j := NewJitterBounds(900_000, 1_100_000);
    assert Millis(j.min) == 0 && Millis(j.max) == 1;
  }

  // ----- backoff

  datatype RetryPolicy = RetryPolicy(maxAttempts: nat, baseBackoff: Duration, maxBackoff: Duration)

  function Pow2(k: nat): (p: nat)
    ensures p >= 1
  {
    if k == 0 then 1 else 2 * Pow2(k - 1)
  }

  function Shift(attempt: nat): nat {
    if attempt <= 1 then 0 else Min(attempt - 1, 32)
  }

  function BackoffFor(p: RetryPolicy, attempt: nat): nat {
    if attempt <= 1 then Min(p.baseBackoff, p.maxBackoff)
    else
      var millis := Min(Millis(p.baseBackoff) * Pow2(Shift(attempt)), U128_MAX);
      Min(Min(millis, Millis(p.maxBackoff)), U64_MAX) * MS
  }

  lemma {:induction false} Pow2Monotone(i: nat, j: nat)
    requires i <= j
    ensures Pow2(i) <= Pow2(j)
    decreases j
  {
    if i < j {
      Pow2Monotone(i, j - 1);
    }
  }

  lemma {:induction false} ScaleMonotone(x: nat, y: nat, k: nat)
    requires x <= y
    ensures x * k <= y * k && k * x <= k * y
  {
  }

  lemma {:induction false} BackoffCapped(p: RetryPolicy, attempt: nat)
    ensures BackoffFor(p, attempt) <= p.maxBackoff
  {
    hide Millis;
    if attempt > 1 {
      var millis := Min(Millis(p.baseBackoff) * Pow2(Shift(attempt)), U128_MAX);
      ScaleMonotone(Min(Min(millis, Millis(p.maxBackoff)), U64_MAX), Millis(p.maxBackoff), MS);
    }
  }

  /** The product never reaches the 128-bit saturation. */
  lemma {:induction false} NoSaturation(base: Duration, attempt: nat)
    ensures Millis(base) * Pow2(Shift(attempt)) <= U128_MAX
  {
    var m, k := Millis(base), Shift(attempt);
    assert m <= 0x1_0000_0000_0000_0000 * 1000;
    Pow2Monotone(k, 32);
    Pow2Of32();
    ScaleMonotone(Pow2(k), 0x1_0000_0000, m);
    ScaleMonotone(m, 0x1_0000_0000_0000_0000 * 1000, 0x1_0000_0000);
  }

  lemma {:induction false} Pow2Of32()
    ensures Pow2(32) == 0x1_0000_0000
  {
    assert Pow2(4) == 16;
    assert Pow2(8) == 256;
    assert Pow2(12) == 0x1000;
    assert Pow2(16) == 0x1_0000;
    assert Pow2(20) == 0x10_0000;
    assert Pow2(24) == 0x100_0000;
    assert Pow2(28) == 0x1000_0000;
  }

  /**
   For settings in whole milliseconds, attempt `n` waits `min(max, base * 2^min(n-1, 32))`,
   exactly when that is within `u64` milliseconds or this is the first attempt.
   */
  lemma {:induction false} BackoffFormula(p: RetryPolicy, attempt: nat, b: nat, m: nat)
    requires p.baseBackoff == b * MS && p.maxBackoff == m * MS
    ensures var doublings := if attempt <= 1 then 0 else if attempt <= 33 then attempt - 1 else 32;
            var doubled := p.baseBackoff * Pow2(doublings);
            var wanted := if doubled < p.maxBackoff then doubled else p.maxBackoff;
            BackoffFor(p, attempt) == wanted <==> attempt <= 1 || wanted <= 0xFFFF_FFFF_FFFF_FFFF * 1_000_000
  {
    hide *;
    ShiftIs(attempt);
    MinIs(p.maxBackoff, p.baseBackoff * Pow2(Shift(attempt)));
    var k := Pow2(Shift(attempt));
    WantedMillis(b, m, k);
    if attempt <= 1 {
      FirstWait(p, attempt);
    } else {
      LaterWait(p, attempt);
      WholeMillis(p.baseBackoff, b);
      WholeMillis(p.maxBackoff, m);
      CutAt(Min(m, b * k), U64_MAX);
    }
  }

  lemma {:induction false} ShiftIs(attempt: nat)
    ensures Shift(attempt) == (if attempt <= 1 then 0 else if attempt <= 33 then attempt - 1 else 32)
  {
  }

  lemma {:induction false} MinIs(x: nat, y: nat)
    ensures Min(x, y) == (if y < x then y else x)
    ensures U64_MAX == 0xFFFF_FFFF_FFFF_FFFF && MS == 1_000_000
  {
  }

  lemma {:induction false} WantedMillis(b: nat, m: nat, k: nat)
    ensures Min(m * MS, (b * MS) * k) == Min(m, b * k) * MS
  {
    Commute(b, k);
    MinScaled(m, b * k);
  }

  lemma {:induction false} CutAt(x: nat, y: nat)
    ensures Min(x, y) * MS == x * MS <==> x * MS <= y * MS
  {
  }

  lemma {:induction false} FirstWait(p: RetryPolicy, attempt: nat)
    requires attempt <= 1
    ensures BackoffFor(p, attempt) == Min(p.maxBackoff, p.baseBackoff * Pow2(Shift(attempt)))
  {
    FirstFactor(attempt);
    assert p.baseBackoff * 1 == p.baseBackoff;
  }

  lemma {:induction false} LaterWait(p: RetryPolicy, attempt: nat)
    requires attempt > 1
    ensures BackoffFor(p, attempt)
         == Min(Min(Millis(p.maxBackoff), Millis(p.baseBackoff) * Pow2(Shift(attempt))), U64_MAX) * MS
  {
    NoSaturation(p.baseBackoff, attempt);
    hide Millis, Pow2, Shift;
  }

  lemma {:induction false} WholeMillis(d: Duration, n: nat)
    requires d == n * MS
    ensures Millis(d) == n
  {
  }

  lemma {:induction false} FirstFactor(attempt: nat)
    requires attempt <= 1
    ensures Pow2(Shift(attempt)) == 1
  {
  }

  lemma {:induction false} Commute(b: nat, k: nat)
    ensures (b * MS) * k == (b * k) * MS
  {
    assert (b * MS) * k == b * (MS * k);
    assert (b * k) * MS == b * (k * MS);
  }

  lemma {:induction false} MinScaled(x: nat, y: nat)
    ensures Min(x * MS, y * MS) == Min(x, y) * MS
  {
  }

  /** When the waits never get shorter: nothing to wait for, or no loss to truncation after the first attempt. */
  predicate Smooth(p: RetryPolicy) {
    var first := Min(p.baseBackoff, p.maxBackoff);
    first == 0
    || (p.baseBackoff >= MS && first <= Millis(p.maxBackoff) * MS && first <= U64_MAX * MS)
  }

  /** Each wait is at least as long as the one before, for every pair of attempts, exactly for smooth policies. */
  lemma {:induction false} BackoffMonotoneIff(p: RetryPolicy)
    ensures (forall i: nat, j: nat :: i <= j ==> BackoffFor(p, i) <= BackoffFor(p, j)) <==> Smooth(p)
  {
    SecondWait(p);
    if Smooth(p) {
      forall i: nat, j: nat | i <= j ensures BackoffFor(p, i) <= BackoffFor(p, j) {
        if j > 1 {
          if i <= 1 {
            LaterWaits(p, 2, j);
          } else {
            LaterWaits(p, i, j);
          }
        }
      }
    } else {
      assert BackoffFor(p, 1) > BackoffFor(p, 2);
    }
  }

  lemma {:induction false} LaterWaits(p: RetryPolicy, i: nat, j: nat)
    requires 2 <= i <= j
    ensures BackoffFor(p, i) <= BackoffFor(p, j)
  {
    hide Millis;
    Pow2Monotone(Shift(i), Shift(j));
    ScaleMonotone(Pow2(Shift(i)), Pow2(Shift(j)), Millis(p.baseBackoff));
  }

  lemma {:induction false} SecondWait(p: RetryPolicy)
    ensures BackoffFor(p, 1) <= BackoffFor(p, 2) <==> Smooth(p)
  {
    NoSaturation(p.baseBackoff, 2);
    assert Pow2(Shift(2)) == 2;
    hide Millis;
    var b, m := Millis(p.baseBackoff), Millis(p.maxBackoff);
    var second := Min(Min(b * 2, m), U64_MAX) * MS;
    assert BackoffFor(p, 2) == second;
    MinScaled(Min(b * 2, m), U64_MAX);
    MinScaled(b * 2, m);
  }

  // ----- one attempt

  /** How the network treats one attempt; a phase that never ends is one that ends after the timeout. */
  datatype Attempt = Attempt(connectAfter: nat, connects: bool, postAfter: nat, posted: HttpResult)

  datatype SendResult = Answered(outcome: HttpOutcome) | Unreachable

  /** One attempt, and the time it takes: answered exactly when both phases succeed within the timeout. */
  function Transmit(timeout: nat, a: Attempt): (r: (SendResult, nat))
    ensures r.1 <= 2 * timeout
    ensures r.0.Answered? <==> a.connectAfter <= timeout && a.connects && a.postAfter <= timeout && a.posted.Ok?
    ensures r.0.Answered? ==> r.1 == a.connectAfter + a.postAfter && a.posted == Ok(r.0.outcome)
    ensures r.1 >= if a.connectAfter <= timeout then a.connectAfter else timeout
  {
    if a.connectAfter > timeout then (Unreachable, timeout)
    else if !a.connects then (Unreachable, a.connectAfter)
    else if a.postAfter > timeout then (Unreachable, a.connectAfter + timeout)
    else
      (match a.posted case Ok(outcome) => Answered(outcome) case Err(_) => Unreachable,
       a.connectAfter + a.postAfter)
  }

  /** Accepted, or a 4xx: no retry can change it. */
  predicate Terminal(r: SendResult) {
    r.Answered? && (r.outcome.Accepted? || 400 <= r.outcome.code < 500)
  }

  datatype Disposition = Sent | RetainedEndpointRejected | RetainedUnreachable

  function ClassifyTransmit(r: SendResult): (d: Disposition)
    ensures d.Sent? <==> r == Answered(Accepted)
    ensures d.RetainedUnreachable? <==> r.Unreachable?
  {
    match r
    case Answered(Accepted) => Sent
    case Answered(Rejected(_)) => RetainedEndpointRejected
    case Unreachable => RetainedUnreachable
  }

  // ----- one report

  datatype Settings = Settings(timeout: Duration, jitter: JitterBounds, retry: RetryPolicy)

  function MaxAttempts(p: RetryPolicy): (n: nat)
    ensures n >= 1
  {
    if p.maxAttempts < 1 then 1 else p.maxAttempts
  }

  /** The longest one report can take behind its jitter: every phase times out and every wait is capped. */
  function Worst(s: Settings, attempts: nat): nat
    requires attempts >= 1
  {
    attempts * (2 * s.timeout) + (attempts - 1) * s.retry.maxBackoff
  }

  lemma {:induction false} WorstStep(s: Settings, k: nat)
    requires k >= 1
    ensures Worst(s, k + 1) == Worst(s, k) + 2 * s.timeout + s.retry.maxBackoff
    ensures Worst(s, 1) == 2 * s.timeout
  {
    var t, b := 2 * s.timeout, s.retry.maxBackoff;
    assert (k + 1) * t == k * t + t;
    assert k * b == (k - 1) * b + b;
    assert 1 * t == t && 0 * b == 0;
  }

  lemma {:induction false} WorstMonotone(s: Settings, i: nat, j: nat)
    requires 1 <= i <= j
    ensures Worst(s, i) <= Worst(s, j)
    decreases j
  {
    if i < j {
      WorstMonotone(s, i, j - 1);
      WorstStep(s, j - 1);
    }
  }

  /** What attempt `k` is answered, and how long it takes. */
  function Try(s: Settings, net: nat -> Attempt, k: nat): (SendResult, nat) {
    Transmit(s.timeout, net(k))
  }

  /**
   Attempt `k` is the one that ends the retries: all before it had no answer or a refusal outside 400 to 499,
   and it was accepted or refused with 400 to 499, unless it is the last there is.
   */
  ghost predicate IsLastAttempt(s: Settings, net: nat -> Attempt, k: nat) {
    && k >= 1 && (k == 1 || k <= s.retry.maxAttempts)
    && (forall j :: 1 <= j < k ==>
          match Try(s, net, j).0
          case Unreachable => true
          case Answered(Accepted) => false
          case Answered(Rejected(code)) => code < 400 || code > 499)
    && (k >= s.retry.maxAttempts ||
        match Try(s, net, k).0
        case Unreachable => false
        case Answered(Accepted) => true
        case Answered(Rejected(code)) => 400 <= code <= 499)
  }

  lemma {:induction false} LastAttemptIs(s: Settings, net: nat -> Attempt, k: nat)
    requires 1 <= k <= MaxAttempts(s.retry) && forall j :: 1 <= j < k ==> !Terminal(Try(s, net, j).0)
    requires Terminal(Try(s, net, k).0) || k == MaxAttempts(s.retry)
    ensures IsLastAttempt(s, net, k)
  {
    hide Transmit, Try;
  }

  ghost function LastAttempt(s: Settings, net: nat -> Attempt): (k: nat)
    ensures IsLastAttempt(s, net, k)
  {
    LastAttemptFrom(s, net, 1)
  }

  ghost function LastAttemptFrom(s: Settings, net: nat -> Attempt, i: nat): (k: nat)
    requires 1 <= i <= MaxAttempts(s.retry) && forall j :: 1 <= j < i ==> !Terminal(Try(s, net, j).0)
    ensures IsLastAttempt(s, net, k)
    decreases MaxAttempts(s.retry) - i
  {
    if Terminal(Try(s, net, i).0) || i == MaxAttempts(s.retry) then
      LastAttemptIs(s, net, i);
      i
    else LastAttemptFrom(s, net, i + 1)
  }

  lemma {:induction false} LastAttemptUnique(s: Settings, net: nat -> Attempt, k: nat)
    requires IsLastAttempt(s, net, k)
    ensures k == LastAttempt(s, net)
  {
  }

  /** The answer the retries end with. */
  ghost function FinalAnswer(s: Settings, net: nat -> Attempt): SendResult {
    Try(s, net, LastAttempt(s, net)).0
  }

  /** The time of `k` attempts and of the backoffs between them. */
  ghost function Spent(s: Settings, net: nat -> Attempt, k: nat): nat
    requires k >= 1
  {
    if k == 1 then Try(s, net, 1).1 else Spent(s, net, k - 1) + BackoffFor(s.retry, k - 1) + Try(s, net, k).1
  }

  lemma {:induction false} SpentAtMost(s: Settings, net: nat -> Attempt, k: nat)
    requires 1 <= k <= MaxAttempts(s.retry)
    ensures Spent(s, net, k) <= Worst(s, k) <= Worst(s, MaxAttempts(s.retry))
  {
    hide BackoffFor, Worst, MaxAttempts;
    WorstMonotone(s, k, MaxAttempts(s.retry));
    if k > 1 {
      SpentAtMost(s, net, k - 1);
      WorstStep(s, k - 1);
      BackoffCapped(s.retry, k - 1);
    } else {
      WorstStep(s, 1);
    }
  }

  /**
   Jitter once, then attempts until the first accepted-or-4xx answer, at most `N` of them,
   with a backoff between any two. `now` is the clock; `net` is whatever the network does.
   */
  method TransmitWithRetry(s: Settings, draw: nat, net: nat -> Attempt, start: nat)
    returns (r: SendResult, attempts: nat, now: nat)
    ensures IsLastAttempt(s, net, attempts) && r == Try(s, net, attempts).0
    ensures now == start + SampleJitter(s.jitter, draw) + Spent(s, net, attempts)
    ensures now <= start + SampleJitter(s.jitter, draw) + Worst(s, MaxAttempts(s.retry))
  {
    hide SampleJitter, BackoffFor, Worst, Transmit;
    now := start + SampleJitter(s.jitter, draw);
    attempts := 1;
    while true
      invariant 1 <= attempts <= MaxAttempts(s.retry)
      invariant forall k :: 1 <= k < attempts ==> !Terminal(Try(s, net, k).0)
      invariant now + Try(s, net, attempts).1 == start + SampleJitter(s.jitter, draw) + Spent(s, net, attempts)
      decreases MaxAttempts(s.retry) - attempts
    {
      var tried := Transmit(s.timeout, net(attempts));
      r := tried.0;
      now := now + tried.1;
      if Terminal(r) || attempts >= MaxAttempts(s.retry) {
        SpentAtMost(s, net, attempts);
        return;
      }
      now := now + BackoffFor(s.retry, attempts);
      attempts := attempts + 1;
    }
  }
}
