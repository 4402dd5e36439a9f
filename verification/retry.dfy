/**
 * The retry policy: normalised configuration, retry decision and backoff delay.
 *
 * Durations are int64 nanoseconds. Floating point is modelled by reals; a conversion whose value does
 * not fit int64 yields `overflow`, one of the two extreme values, as the hardware chooses.
 */
module Retry {
  import opened Options
  import opened Errors
  import opened Kinds

  const MAX_INT64: int := 0x7FFF_FFFF_FFFF_FFFF
  const MIN_INT64: int := -0x8000_0000_0000_0000
  const TWO_TO_THE_63: real := 9223372036854775808.0

  type Duration = d: int | MIN_INT64 <= d <= MAX_INT64

  const DEFAULT_BASE_DELAY: Duration := 100_000_000
  const DEFAULT_MAX_DELAY: Duration := 2_000_000_000

  datatype RetryConfig = RetryConfig(
    maxAttempts: int, baseDelay: Duration, maxDelay: Duration,
    multiplier: real, jitterRatio: real, retryable: Option<Err -> bool>)

  datatype RetryPolicy = RetryPolicy(
    maxAttempts: int, baseDelay: Duration, maxDelay: Duration,
    multiplier: real, jitterRatio: real, retryable: Err -> bool)
  {
    predicate Valid() {
      && maxAttempts >= 1
      && 0 < baseDelay <= maxDelay
      && multiplier >= 1.0
      && 0.0 <= jitterRatio <= 1.0
    }
  }

  function NewRetryPolicy(cfg: RetryConfig): (p: RetryPolicy)
    ensures p.Valid()
    ensures p.maxAttempts == if cfg.maxAttempts > 0 then cfg.maxAttempts else 3
    ensures p.baseDelay == if cfg.baseDelay > 0 then cfg.baseDelay else 100_000_000
    ensures cfg.maxDelay > 0 ==> p.maxDelay == if cfg.maxDelay < p.baseDelay then p.baseDelay else cfg.maxDelay
    ensures cfg.maxDelay <= 0 ==> p.maxDelay == if 2_000_000_000 < p.baseDelay then p.baseDelay else 2_000_000_000
    ensures p.multiplier == if cfg.multiplier >= 1.0 then cfg.multiplier else 2.0
    ensures 0.0 <= cfg.jitterRatio <= 1.0 ==> p.jitterRatio == cfg.jitterRatio
    ensures cfg.jitterRatio < 0.0 ==> p.jitterRatio == 0.0
    ensures cfg.jitterRatio > 1.0 ==> p.jitterRatio == 1.0
    ensures cfg.retryable.Some? ==> p.retryable == cfg.retryable.value
    ensures cfg.retryable.None? ==> forall e :: p.retryable(e) <==> DefaultRetryable(Some(e))
  {
    var maxAttempts := if cfg.maxAttempts <= 0 then 3 else cfg.maxAttempts;
    var baseDelay := if cfg.baseDelay <= 0 then DEFAULT_BASE_DELAY else cfg.baseDelay;
    var given := if cfg.maxDelay <= 0 then DEFAULT_MAX_DELAY else cfg.maxDelay;
    var maxDelay := if given < baseDelay then baseDelay else given;
    var multiplier := if cfg.multiplier < 1.0 then 2.0 else cfg.multiplier;
    var positive := if cfg.jitterRatio < 0.0 then 0.0 else cfg.jitterRatio;
    var jitterRatio := if positive > 1.0 then 1.0 else positive;
    var retryable := if cfg.retryable.None? then ((e: Err) => DefaultRetryable(Some(e))) else cfg.retryable.value;
    RetryPolicy(maxAttempts, baseDelay, maxDelay, multiplier, jitterRatio, retryable)
  }

  function AsConfig(p: RetryPolicy): RetryConfig {
    RetryConfig(p.maxAttempts, p.baseDelay, p.maxDelay, p.multiplier, p.jitterRatio, Some(p.retryable))
  }

  /** Normalisation keeps exactly the valid settings: they are what it produces, and it leaves them alone. */
  lemma NormalisationKeepsValid(p: RetryPolicy)
    ensures NewRetryPolicy(AsConfig(p)) == p <==> p.Valid()
  {
    var q := NewRetryPolicy(AsConfig(p));
    assert q.retryable == p.retryable;
  }

  function Pow(x: real, n: nat): real {
    if n == 0 then 1.0 else x * Pow(x, n - 1)
  }

  predicate Extreme(d: Duration) {
    d == MIN_INT64 || d == MAX_INT64
  }

  /** Go's conversion of a non-negative float64 to int64. */
  function ToDuration(x: real, overflow: Duration): Duration
    requires x >= 0.0
  {
    if x < TWO_TO_THE_63 then
      assert x.Floor <= MAX_INT64;
      x.Floor
    else overflow
  }

  /** The un-truncated exponential delay of the attempt that follows `n` earlier retries. */
  function Growth(p: RetryPolicy, n: nat): (x: real)
    requires p.Valid()
    ensures x >= p.baseDelay as real
  {
    PowGrows(p.multiplier, 0, n);
    ScaleUp(p.baseDelay as real, 1.0, Pow(p.multiplier, n));
    p.baseDelay as real * Pow(p.multiplier, n)
  }

  function Cap(delay: Duration, maxDelay: Duration): Duration {
    if delay < 0 || delay > maxDelay then maxDelay else delay
  }

  function PlainDelay(p: RetryPolicy, attempt: int, overflow: Duration): Duration
    requires p.Valid()
  {
    var n: nat := if attempt < 1 then 0 else attempt - 1;
    Cap(ToDuration(Growth(p, n), overflow), p.maxDelay)
  }

  function Jittered(p: RetryPolicy, delay: Duration, draw: real): real {
    var delta := delay as real * p.jitterRatio;
    var low := delay as real - delta;
    var high := delay as real + delta;
    low + draw * (high - low)
  }

  function BackoffDelay(p: RetryPolicy, attempt: int, draw: real, overflow: Duration): Duration
    requires p.Valid()
    requires 0.0 <= draw < 1.0
  {
    var delay := PlainDelay(p, attempt, overflow);
    if p.jitterRatio <= 0.0 then delay
    else
      var delta := delay as real * p.jitterRatio;
      if delay as real + delta <= delay as real - delta then delay
      else
        var jittered := Jittered(p, delay, draw);
        var clamped := if jittered < 0.0 then 0.0 else jittered;
        var jitteredDelay := ToDuration(clamped, overflow);
        if jitteredDelay > p.maxDelay then p.maxDelay else jitteredDelay
  }

  function ShouldRetry(
    p: RetryPolicy, ctxErr: Option<Err>, attempt: int, err: Option<Err>, draw: real, overflow: Duration)
    : (bool, Duration)
    requires p.Valid()
    requires 0.0 <= draw < 1.0
  {
    if err.None? then (false, 0)
    else if p.maxAttempts <= 1 || attempt >= p.maxAttempts then (false, 0)
    else if ctxErr.Some? then (false, 0)
    else if !p.retryable(err.value) then (false, 0)
    else (true, BackoffDelay(p, attempt, draw, overflow))
  }

  // ---------------------------------------------------------------------------------------------

  lemma ScaleUp(b: real, x: real, y: real)
    requires b >= 0.0 && x <= y
    ensures b * x <= b * y
  {
  }

  lemma {:induction false} PowGrows(x: real, m: nat, n: nat)
    requires x >= 1.0 && m <= n
    ensures 1.0 <= Pow(x, m) <= Pow(x, n)
    decreases n
  {
    if m < n {
      PowGrows(x, m, n - 1);
      ScaleUp(Pow(x, n - 1), 1.0, x);
    } else if m > 0 {
      PowGrows(x, m - 1, m - 1);
      ScaleUp(Pow(x, m - 1), 1.0, x);
    }
  }

  lemma FloorBounds(x: real, y: real)
    requires x <= y
    ensures x.Floor <= y.Floor
    ensures x.Floor as real <= x < x.Floor as real + 1.0
  {
    assert x.Floor as real <= x <= y < y.Floor as real + 1.0;
  }

  lemma CappedTruncation(x: real, maxDelay: Duration, overflow: Duration)
    requires Extreme(overflow) && x >= 0.0 && maxDelay >= 0
    ensures Cap(ToDuration(x, overflow), maxDelay) == if x.Floor < maxDelay then x.Floor else maxDelay
  {
    FloorBounds(x, x);
  }

  /** The exponential delay that an attempt is based on, as an opaque real with the two facts that matter. */
  lemma PlainDelayFromGrowth(p: RetryPolicy, attempt: int, overflow: Duration) returns (x: real)
    requires p.Valid() && Extreme(overflow) && attempt >= 1
    ensures x == Growth(p, attempt - 1)
    ensures x >= p.baseDelay as real && p.baseDelay <= x.Floor
    ensures PlainDelay(p, attempt, overflow) == if x.Floor < p.maxDelay then x.Floor else p.maxDelay
  {
    x := Growth(p, attempt - 1);
    CappedTruncation(x, p.maxDelay, overflow);
    FloorBounds(p.baseDelay as real, x);
  }

  /** Without jitter: the truncated exponential capped by maxDelay, never below baseDelay. */
  lemma PlainDelayIsCappedExponential(p: RetryPolicy, attempt: int, draw: real, overflow: Duration)
    requires p.Valid() && Extreme(overflow) && attempt >= 1 && 0.0 <= draw < 1.0
    ensures var exact := (p.baseDelay as real * Pow(p.multiplier, attempt - 1)).Floor;
            PlainDelay(p, attempt, overflow) == if exact < p.maxDelay then exact else p.maxDelay
    ensures p.baseDelay <= PlainDelay(p, attempt, overflow) <= p.maxDelay
    ensures p.jitterRatio == 0.0 ==> BackoffDelay(p, attempt, draw, overflow) == PlainDelay(p, attempt, overflow)
  {
    var x := PlainDelayFromGrowth(p, attempt, overflow);
  }

  /** Later attempts never wait less, when there is no jitter. */
  lemma PlainDelayNondecreasing(p: RetryPolicy, i: int, j: int, overflow: Duration)
    requires p.Valid() && Extreme(overflow) && 1 <= i <= j
    ensures PlainDelay(p, i, overflow) <= PlainDelay(p, j, overflow)
  {
    var x := PlainDelayFromGrowth(p, i, overflow);
    var y := PlainDelayFromGrowth(p, j, overflow);
    GrowthNondecreasing(p, i - 1, j - 1);
    FloorBounds(x, y);
  }

  lemma GrowthNondecreasing(p: RetryPolicy, m: nat, n: nat)
    requires p.Valid() && m <= n
    ensures Growth(p, m) <= Growth(p, n)
  {
    PowGrows(p.multiplier, m, n);
    ScaleUp(p.baseDelay as real, Pow(p.multiplier, m), Pow(p.multiplier, n));
  }

  /** (1 - j) and (1 + j) times the delay: the ends of the jitter interval. */
  function Low(p: RetryPolicy, delay: Duration): real { delay as real - delay as real * p.jitterRatio }

  function High(p: RetryPolicy, delay: Duration): real { delay as real + delay as real * p.jitterRatio }

  lemma Between(low: real, high: real, draw: real)
    requires low <= high && 0.0 <= draw <= 1.0
    ensures low <= low + draw * (high - low) <= high
    ensures low == high ==> low + draw * (high - low) == low
  {
    var width := high - low;
    ScaleUp(width, 0.0, draw);
    ScaleUp(width, draw, 1.0);
  }

  /** The middle of the jitter interval and its half width, apart from how they are computed. */
  lemma JitterParts(p: RetryPolicy, delay: Duration, draw: real) returns (d: real, delta: real)
    requires p.Valid() && 0 <= delay
    ensures d == delay as real && 0.0 <= delta <= d
    ensures Low(p, delay) == d - delta && High(p, delay) == d + delta
    ensures Jittered(p, delay, draw) == (d - delta) + draw * ((d + delta) - (d - delta))
    ensures p.jitterRatio == 0.0 ==> delta == 0.0
    ensures p.jitterRatio > 0.0 && delay > 0 ==> delta > 0.0
  {
    d := delay as real;
    delta := HalfWidth(d, p.jitterRatio);
  }

  lemma HalfWidth(d: real, j: real) returns (delta: real)
    requires 0.0 <= d && 0.0 <= j <= 1.0
    ensures delta == d * j && 0.0 <= delta <= d
    ensures j == 0.0 ==> delta == 0.0
    ensures j > 0.0 && d > 0.0 ==> delta > 0.0
  {
    delta := d * j;
    ScaleUp(d, 0.0, j);
    ScaleUp(d, j, 1.0);
    if j > 0.0 && d > 0.0 {
      Positive(d, j);
    }
  }

  lemma JitterRange(p: RetryPolicy, delay: Duration, draw: real)
    requires p.Valid() && 0 <= delay && 0.0 <= draw < 1.0
    ensures 0.0 <= Low(p, delay) <= Jittered(p, delay, draw) <= High(p, delay)
    ensures Low(p, delay) <= delay as real
    ensures p.jitterRatio == 0.0 ==> Jittered(p, delay, draw) == delay as real
  {
    var d, delta := JitterParts(p, delay, draw);
    Between(d - delta, d + delta, draw);
  }

  lemma HighGrows(p: RetryPolicy, delay: Duration)
    requires p.Valid() && 0 <= delay <= p.maxDelay
    ensures High(p, delay) <= High(p, p.maxDelay)
  {
    ScaleUp(p.jitterRatio, delay as real, p.maxDelay as real);
  }

  /** The delay as a function of the jittered value alone. */
  lemma BackoffFromJitter(p: RetryPolicy, attempt: int, draw: real, overflow: Duration)
    requires p.Valid() && Extreme(overflow) && attempt >= 1 && 0.0 <= draw < 1.0
    ensures var x := Jittered(p, PlainDelay(p, attempt, overflow), draw);
            && 0.0 <= x
            && BackoffDelay(p, attempt, draw, overflow)
            == (if p.jitterRatio > 0.0 && ToDuration(x, overflow) > p.maxDelay then p.maxDelay
                else ToDuration(x, overflow))
  {
    var d := PlainDelay(p, attempt, overflow);
    PlainDelayIsCappedExponential(p, attempt, draw, overflow);
    JitterRange(p, d, draw);
    if p.jitterRatio > 0.0 {
      Positive(d as real, p.jitterRatio);
    }
  }

  lemma Positive(x: real, y: real)
    requires x > 0.0 && y > 0.0
    ensures x * y > 0.0
  {
  }

  lemma TruncatedBetween(
    low: real, x: real, high: real, d: Duration, maxDelay: Duration, jitter: bool, overflow: Duration)
    requires 0.0 <= low <= x <= high < TWO_TO_THE_63
    requires low <= d as real && 0 <= d <= maxDelay && (jitter || x == d as real)
    ensures var t := ToDuration(x, overflow);
            var b := if jitter && t > maxDelay then maxDelay else t;
            low.Floor <= b <= maxDelay && b <= high.Floor
  {
    FloorBounds(low, x);
    FloorBounds(x, high);
    FloorBounds(low, maxDelay as real);
  }

  /** With jitter j around the plain delay d, every draw lands in [(1-j)d, min(maxDelay, (1+j)d)]. */
  lemma JitteredDelayRange(p: RetryPolicy, attempt: int, draw: real, overflow: Duration)
    requires p.Valid() && Extreme(overflow) && attempt >= 1 && 0.0 <= draw < 1.0
    requires High(p, p.maxDelay) < TWO_TO_THE_63
    ensures var d := PlainDelay(p, attempt, overflow);
            var b := BackoffDelay(p, attempt, draw, overflow);
            && Low(p, d).Floor <= b <= p.maxDelay
            && b <= High(p, d).Floor
  {
    var d := PlainDelay(p, attempt, overflow);
    PlainDelayIsCappedExponential(p, attempt, draw, overflow);
    JitterRange(p, d, draw);
    HighGrows(p, d);
    BackoffFromJitter(p, attempt, draw, overflow);
    TruncatedBetween(Low(p, d), Jittered(p, d, draw), High(p, d), d, p.maxDelay, p.jitterRatio > 0.0, overflow);
  }

  /**
   * For every policy: a delay never exceeds maxDelay, and it is negative exactly when the jittered value
   * leaves int64 on hardware that answers with the least int64.
   */
  lemma NegativeDelayExactly(p: RetryPolicy, attempt: int, draw: real, overflow: Duration)
    requires p.Valid() && Extreme(overflow) && attempt >= 1 && 0.0 <= draw < 1.0
    ensures BackoffDelay(p, attempt, draw, overflow) <= p.maxDelay
    ensures BackoffDelay(p, attempt, draw, overflow) < 0
       <==> p.jitterRatio > 0.0
            && Jittered(p, PlainDelay(p, attempt, overflow), draw) >= TWO_TO_THE_63
            && overflow == MIN_INT64
  {
    BackoffFromJitter(p, attempt, draw, overflow);
    PlainDelayIsCappedExponential(p, attempt, draw, overflow);
    var d := PlainDelay(p, attempt, overflow);
    JitterRange(p, d, draw);
    var x := Jittered(p, d, draw);
    FloorBounds(0.0, x);
  }

  /**
   * The same on the configuration: on hardware that answers with the least int64, some draw gives a negative
   * delay exactly when the upper end of the jitter interval lies beyond int64.
   */
  lemma NegativeDelayByConfiguration(p: RetryPolicy, attempt: int)
    requires p.Valid() && attempt >= 1
    ensures (exists draw :: 0.0 <= draw < 1.0 && BackoffDelay(p, attempt, draw, MIN_INT64) < 0)
       <==> High(p, PlainDelay(p, attempt, MIN_INT64)) > TWO_TO_THE_63
  {
    PlainDelayIsCappedExponential(p, attempt, 0.0, MIN_INT64);
    var delay := PlainDelay(p, attempt, MIN_INT64);
    forall draw | 0.0 <= draw < 1.0
      ensures BackoffDelay(p, attempt, draw, MIN_INT64) < 0 ==> High(p, delay) > TWO_TO_THE_63
    {
      NegativeDelayExactly(p, attempt, draw, MIN_INT64);
      BelowHigh(p, delay, draw);
    }
    if High(p, delay) > TWO_TO_THE_63 {
      var draw := OverflowingDraw(p, delay);
      NegativeDelayExactly(p, attempt, draw, MIN_INT64);
    }
  }

  /** A draw is less than one, so with jitter the upper end itself is never reached. */
  lemma BelowHigh(p: RetryPolicy, delay: Duration, draw: real)
    requires p.Valid() && 0 < delay && 0.0 <= draw < 1.0
    ensures p.jitterRatio > 0.0 ==> Jittered(p, delay, draw) < High(p, delay)
  {
    var d, delta := JitterParts(p, delay, draw);
    if p.jitterRatio > 0.0 {
      BelowUpperEnd(d - delta, d + delta, draw);
    }
  }

  lemma BelowUpperEnd(low: real, high: real, draw: real)
    requires low < high && 0.0 <= draw < 1.0
    ensures low + draw * (high - low) < high
  {
    StrictlyUp(high - low, draw, 1.0);
  }

  lemma StrictlyUp(b: real, x: real, y: real)
    requires b > 0.0 && x < y
    ensures b * x < b * y
  {
  }

  lemma OverflowingDraw(p: RetryPolicy, delay: Duration) returns (draw: real)
    requires p.Valid() && 0 < delay && High(p, delay) > TWO_TO_THE_63
    ensures 0.0 <= draw < 1.0 && p.jitterRatio > 0.0 && Jittered(p, delay, draw) >= TWO_TO_THE_63
  {
    var d, delta := JitterParts(p, delay, 0.0);
    assert delta > 0.0;
    draw := (TWO_TO_THE_63 - (d - delta)) / (2.0 * delta);
    Quotient(TWO_TO_THE_63 - (d - delta), 2.0 * delta);
    var d', delta' := JitterParts(p, delay, draw);
  }

  lemma Quotient(x: real, y: real)
    requires 0.0 <= x < y
    ensures x / y * y == x && 0.0 <= x / y < 1.0
  {
  }

  /** Such a policy: the longest delay that a Duration can hold, with half of it as jitter. */
  lemma NegativeDelayHappens() returns (p: RetryPolicy, draw: real)
    ensures p.Valid() && 0.0 <= draw < 1.0
    ensures BackoffDelay(p, 1, draw, MIN_INT64) < 0
  {
    p := RetryPolicy(2, MAX_INT64, MAX_INT64, 1.0, 0.5, (_: Err) => true);
    PlainDelayIsCappedExponential(p, 1, 0.0, MIN_INT64);
    assert Pow(1.0, 0) == 1.0;
    assert PlainDelay(p, 1, MIN_INT64) == MAX_INT64;
    draw := OverflowingDraw(p, MAX_INT64);
    NegativeDelayExactly(p, 1, draw, MIN_INT64);
  }

  // ---------------------------------------------------------------------------------------------
  // What a delay is, on the policy's fields
  // ---------------------------------------------------------------------------------------------

  function CappedExponential(p: RetryPolicy, attempt: int): (d: Duration)
    requires p.Valid() && attempt >= 1
    ensures 0 < d <= p.maxDelay
  {
    assert p.baseDelay as real * Pow(p.multiplier, attempt - 1) == Growth(p, attempt - 1);
    FloorBounds(p.baseDelay as real, Growth(p, attempt - 1));
    var exact := (p.baseDelay as real * Pow(p.multiplier, attempt - 1)).Floor;
    if exact < p.maxDelay then exact else p.maxDelay
  }

  /** The ends of the jitter interval on the fields. */
  lemma JitterEnds(p: RetryPolicy, delay: Duration)
    ensures Low(p, delay) == (1.0 - p.jitterRatio) * delay as real
    ensures High(p, delay) == (1.0 + p.jitterRatio) * delay as real
  {
    Distribute(p.jitterRatio, delay as real);
  }

  /** The point of it that a draw picks: a draw of 0 the lower end, and in proportion from there to the upper. */
  lemma JitteredIsPoint(p: RetryPolicy, delay: Duration, draw: real)
    ensures Jittered(p, delay, draw) == Low(p, delay) + draw * (High(p, delay) - Low(p, delay))
  {
  }

  lemma Distribute(j: real, d: real)
    ensures (1.0 - j) * d == d - d * j && (1.0 + j) * d == d + d * j
  {
  }

  /**
   * The delay for a draw, around the plain delay d: d itself, or with jitter the point of the interval that the
   * draw picks, truncated and capped, as long as the interval lies within int64.
   */
  predicate BacksOff(p: RetryPolicy, d: Duration, draw: real, wait: int) {
    if p.jitterRatio == 0.0 then wait == d
    else
      High(p, d) < TWO_TO_THE_63 ==>
        var x := Jittered(p, d, draw).Floor;
        wait == if x < p.maxDelay then x else p.maxDelay
  }

  /** The range that leaves for any draw. */
  predicate InBackoffRange(p: RetryPolicy, d: Duration, wait: int) {
    && (p.jitterRatio == 0.0 ==> wait == d)
    && (High(p, d) < TWO_TO_THE_63 ==> Low(p, d).Floor <= wait <= p.maxDelay && wait <= High(p, d).Floor)
  }

  lemma PlainIsCapped(p: RetryPolicy, attempt: int, overflow: Duration)
    requires p.Valid() && Extreme(overflow) && attempt >= 1
    ensures PlainDelay(p, attempt, overflow) == CappedExponential(p, attempt)
  {
    PlainDelayIsCappedExponential(p, attempt, 0.0, overflow);
  }

  lemma BackoffAround(p: RetryPolicy, attempt: int, draw: real, overflow: Duration) returns (d: Duration, wait: int)
    requires p.Valid() && Extreme(overflow) && attempt >= 1 && 0.0 <= draw < 1.0
    ensures d == PlainDelay(p, attempt, overflow) && wait == BackoffDelay(p, attempt, draw, overflow)
    ensures BacksOff(p, d, draw, wait) && InBackoffRange(p, d, wait)
  {
    d, wait := PlainDelay(p, attempt, overflow), BackoffDelay(p, attempt, draw, overflow);
    PlainDelayIsCappedExponential(p, attempt, draw, overflow);
    JitterRange(p, d, draw);
    BackoffFromJitter(p, attempt, draw, overflow);
    JitteredInRange(p, d, Low(p, d), Jittered(p, d, draw), High(p, d), wait, overflow);
  }

  lemma BackoffDelayExactly(p: RetryPolicy, attempt: int, draw: real, overflow: Duration)
    requires p.Valid() && Extreme(overflow) && attempt >= 1 && 0.0 <= draw < 1.0
    ensures BacksOff(p, CappedExponential(p, attempt), draw, BackoffDelay(p, attempt, draw, overflow))
    ensures InBackoffRange(p, CappedExponential(p, attempt), BackoffDelay(p, attempt, draw, overflow))
  {
    PlainIsCapped(p, attempt, overflow);
    var d, wait := BackoffAround(p, attempt, draw, overflow);
  }

  lemma JitteredInRange(p: RetryPolicy, d: Duration, low: real, x: real, high: real, wait: int, overflow: Duration)
    requires p.Valid() && 0 <= d <= p.maxDelay && 0.0 <= low <= x <= high && low <= d as real
    requires p.jitterRatio == 0.0 ==> x == d as real
    requires wait == if p.jitterRatio > 0.0 && ToDuration(x, overflow) > p.maxDelay then p.maxDelay
                     else ToDuration(x, overflow)
    ensures p.jitterRatio == 0.0 ==> wait == d
    ensures high < TWO_TO_THE_63 ==> low.Floor <= wait <= p.maxDelay && wait <= high.Floor
    ensures high < TWO_TO_THE_63 && p.jitterRatio > 0.0 ==> wait == if x.Floor < p.maxDelay then x.Floor else p.maxDelay
  {
    if high < TWO_TO_THE_63 {
      TruncatedBetween(low, x, high, d, p.maxDelay, p.jitterRatio > 0.0, overflow);
    }
  }

  /** Pow is the power: it starts at one, takes the base once, and turns sums into products. */
  lemma {:induction false} PowLaws(x: real, m: nat, n: nat)
    ensures Pow(x, 0) == 1.0 && Pow(x, 1) == x
    ensures Pow(x, m + n) == Pow(x, m) * Pow(x, n)
    decreases m
  {
    assert Pow(x, 1) == x * Pow(x, 0);
    if m == 0 {
    } else {
      PowLaws(x, m - 1, n);
      TimesAssociative(x, Pow(x, m - 1), Pow(x, n));
    }
  }

  lemma TimesAssociative(x: real, y: real, z: real)
    ensures x * (y * z) == (x * y) * z
  {
  }
}
