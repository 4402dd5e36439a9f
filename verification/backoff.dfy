/** The waits of a whole run: which terms of which policies' backoff they are. */
module Backoff {
  import opened Options
  import opened Sequences
  import opened Errors
  import opened Retry
  import opened Contexts
  import opened Engine
  import opened Traces
  import opened Attempts

  /** The wait of an attempt is the backoff of a retry policy that has another attempt left. */
  ghost predicate BackoffOfSome<W>(policies: seq<Policy<W>>, attempt: nat, wait: int)
    requires attempt >= 1 && forall p <- policies :: p.decider.RetryWith? ==> p.decider.policy.Valid()
  {
    exists k :: 0 <= k < |policies| && BackoffOf(policies[k].decider, attempt, wait)
  }

  ghost predicate BackoffOf<W>(decider: Decider<W>, attempt: nat, wait: int)
    requires attempt >= 1 && (decider.RetryWith? ==> decider.policy.Valid())
  {
    && decider.RetryWith? && attempt < decider.policy.maxAttempts
    && InBackoffRange(decider.policy, CappedExponential(decider.policy, attempt), wait)
  }

  /** A vote that is not positive asks for no wait, and then that is what the engine does. */
  lemma NotPositive(p: RetryPolicy, d: Duration, vote: int)
    requires p.Valid() && 0 < d <= p.maxDelay && vote <= 0 && InBackoffRange(p, d, vote)
    ensures InBackoffRange(p, d, 0)
  {
    JitterRange(p, d, 0.0);
    FloorBounds(0.0, Low(p, d));
  }

  lemma WaitFromVotes<W, T>(env: Env<W, T>, w: W, attempt: nat, err: Err)
    requires env.Valid() && OnlyRetryPolicies(env.policies) && attempt >= 1
    requires DecideRetry(env, w, attempt, err).1.retry
    ensures BackoffOfSome(env.policies, attempt, DecideRetry(env, w, attempt, err).1.wait)
  {
    var d := DecideRetry(env, w, attempt, err).1;
    var votes := Votes(env, w, 0, attempt, err);
    DecisionIsMaximum(env, w, attempt, err);
    var k :| 0 <= k < |votes| && votes[k].Some? && (d.wait > 0 ==> votes[k] == Some(d.wait));
    VotesExactly(env, w, attempt, err, k);
    assert !env.policies[k].decider.CustomDecider? && env.policies[k] in env.policies;
    var p := env.policies[k].decider.policy;
    if d.wait <= 0 {
      NotPositive(p, CappedExponential(p, attempt), votes[k].value);
    }
    assert BackoffOf(env.policies[k].decider, attempt, d.wait);
  }

  /** An attempt makes at most one call and one wait, and both if it goes on. */
  ghost predicate StepWaits<W, T>(r: Run<W, T>, attempt: nat, fits: (nat, int) -> bool) {
    && |Calls(r.trace)| <= 1
    && |Waits(r.trace)| <= 1
    && (Waits(r.trace) != [] ==> fits(attempt, Waits(r.trace)[0]))
    && (r.verdict.Again? ==> |Waits(r.trace)| == 1)
  }

  lemma LastWaits<W, T>(env: Env<W, T>, a: Afters<W, T>, value: T, attempt: nat, done: seq<Event<T>>)
    requires env.Valid() && Waits(done) == []
    ensures var r := AfterAttempt(env, a, value, attempt, done);
            Waits(r.trace) == if a.err.Some? && DecideRetry(env, a.world, attempt, a.err.value).1.retry
                              then [DecideRetry(env, a.world, attempt, a.err.value).1.wait] else []
    ensures AfterAttempt(env, a, value, attempt, done).verdict.Again? ==>
              a.err.Some? && DecideRetry(env, a.world, attempt, a.err.value).1.retry
  {
    if a.err.Some? {
      var (w2, d) := DecideRetry(env, a.world, attempt, a.err.value);
      var (w3, sleepErr) := SleepWithContext(env, w2, d.wait);
      var sleep: seq<Event<T>> := [SleepCall(d.wait, sleepErr.Some?)];
      assert sleep[1..] == [];
      WaitsConcat(done, sleep);
    }
  }

  ghost function Fitting<W>(policies: seq<Policy<W>>): (nat, int) -> bool
    requires forall p <- policies :: p.decider.RetryWith? ==> p.decider.policy.Valid()
  {
    (attempt: nat, wait: int) => attempt >= 1 && BackoffOfSome(policies, attempt, wait)
  }

  lemma AttemptWaits<W, T>(env: Env<W, T>, w: W, attempt: nat)
    requires env.Valid() && OnlyRetryPolicies(env.policies) && attempt >= 1
    ensures StepWaits(Attempt(env, w, attempt), attempt, Fitting(env.policies))
  {
    var b := ApplyBefore<W, T>(env.policies, w, env.root, 0);
    AttemptBounds(env, w, attempt);
    if b.err.Some? {
      RefusedBounds(env, w, attempt);
    } else {
      var (w1, value, execErr) := env.fn(b.world, b.ctx);
      var a := AfterFold<W, T>(b.applied, w1, b.ctx, execErr);
      NoWaitsBefore(env, w);
      NoWaitsAfter<W, T>(b.applied, w1, b.ctx, execErr);
      NoWaitsAround(b.trace, ExecCall(value, execErr), a.trace);
      LastWaits(env, a, value, attempt, b.trace + [ExecCall(value, execErr)] + a.trace);
      if a.err.Some? && DecideRetry(env, a.world, attempt, a.err.value).1.retry {
        WaitFromVotes(env, a.world, attempt, a.err.value);
      }
    }
  }

  lemma {:induction false} LoopWaits<W, T>(
    step: (W, nat) -> Run<W, T>, w: W, attempt: nat, rounds: nat, fits: (nat, int) -> bool)
    requires forall w', a: nat :: a >= 1 ==> StepWaits(step(w', a), a, fits)
    requires attempt >= 1
    ensures var r := Loop(step, w, attempt, rounds);
            && (forall i :: 0 <= i < |Waits(r.trace)| ==> fits(attempt + i, Waits(r.trace)[i]))
            && |Calls(r.trace)| <= |Waits(r.trace)| + 1
    decreases rounds
  {
    if rounds == 0 {
    } else {
      var first := step(w, attempt);
      assert StepWaits(first, attempt, fits);
      if first.verdict.Again? {
        var rest := Loop(step, first.world, attempt + 1, rounds - 1);
        LoopWaits(step, first.world, attempt + 1, rounds - 1, fits);
        WaitsConcat(first.trace, rest.trace);
        CallsConcat(first.trace, rest.trace);
        WaitsShift(Waits(first.trace), Waits(rest.trace), attempt, fits);
      }
    }
  }

  lemma WaitsShift(first: seq<int>, rest: seq<int>, attempt: nat, fits: (nat, int) -> bool)
    requires |first| == 1 && fits(attempt, first[0])
    requires forall i :: 0 <= i < |rest| ==> fits(attempt + 1 + i, rest[i])
    ensures forall i :: 0 <= i < |first + rest| ==> fits(attempt + i, (first + rest)[i])
  {
    forall i | 0 <= i < |first + rest|
      ensures fits(attempt + i, (first + rest)[i])
    {
      if i > 0 {
        assert (first + rest)[i] == rest[i - 1];
        assert fits(attempt + 1 + (i - 1), rest[i - 1]);
      }
    }
  }

  lemma AttemptsWait<W, T>(env: Env<W, T>, step: (W, nat) -> Run<W, T>, fits: (nat, int) -> bool)
    requires env.Valid() && OnlyRetryPolicies(env.policies)
    requires step == StepOf(env) && fits == Fitting(env.policies)
    ensures forall w, a: nat :: a >= 1 ==> StepWaits(step(w, a), a, fits)
  {
    forall w, a: nat | a >= 1
      ensures StepWaits(step(w, a), a, fits)
    {
      AttemptWaits(env, w, a);
    }
  }

  /**
   * Between any two calls of a run there is a wait, and the i-th wait is the backoff after attempt i of one of
   * the retry policies that still have an attempt left.
   */
  lemma RunBacksOff<W, T>(env: Env<W, T>, w: W, rounds: nat, i: nat)
    requires env.Valid() && OnlyRetryPolicies(env.policies)
    ensures var r := RunFrom(env, w, 1, rounds);
            && |Calls(r.trace)| <= |Waits(r.trace)| + 1
            && (i < |Waits(r.trace)| ==> BackoffOfSome(env.policies, 1 + i, Waits(r.trace)[i]))
  {
    var step, fits := StepOf(env), Fitting(env.policies);
    AttemptsWait(env, step, fits);
    LoopWaits(step, w, 1, rounds, fits);
    var waits := Waits(Loop(step, w, 1, rounds).trace);
    if i < |waits| {
      assert fits(1 + i, waits[i]);
    }
  }

  /** With one retry policy, without jitter, the waits are the capped exponential from its first term on. */
  lemma OnePolicyBacksOff<W, T>(env: Env<W, T>, w: W, rounds: nat, p: RetryPolicy, i: nat)
    requires env.Valid() && p.Valid() && p.jitterRatio == 0.0
    requires forall q <- env.policies :: q.decider.NotDecider? || q.decider == RetryWith(p)
    ensures var waits := Waits(RunFrom(env, w, 1, rounds).trace);
            i < |waits| ==> waits[i] == CappedExponential(p, 1 + i)
  {
    RunBacksOff(env, w, rounds, i);
  }
}
