/** How often a chain whose deciders are retry policies calls the transport, and how long it waits. */
module Attempts {
  import opened Options
  import opened Sequences
  import opened Errors
  import opened Retry
  import opened Contexts
  import opened Engine
  import opened Traces

  ghost predicate OnlyRetryPolicies<W>(policies: seq<Policy<W>>) {
    forall p <- policies :: !p.decider.CustomDecider?
  }

  function Larger(a: nat, b: int): nat {
    if b > a then b else a
  }

  /** max(1, largest maxAttempts). */
  function MostAttempts<W>(policies: seq<Policy<W>>): (n: nat)
    ensures n >= 1
  {
    if policies == [] then 1
    else
      var rest := MostAttempts(policies[1..]);
      if policies[0].decider.RetryWith? then Larger(rest, policies[0].decider.policy.maxAttempts) else rest
  }

  function LargestDelay<W>(policies: seq<Policy<W>>): nat {
    if policies == [] then 0
    else
      var rest := LargestDelay(policies[1..]);
      if policies[0].decider.RetryWith? then Larger(rest, policies[0].decider.policy.maxDelay) else rest
  }

  /** The waits asked for, in order. */
  function Waits<T>(trace: seq<Event<T>>): seq<int> {
    if trace == [] then []
    else (if trace[0].SleepCall? then [trace[0].wait] else []) + Waits(trace[1..])
  }

  function Sum(xs: seq<int>): int {
    if xs == [] then 0 else xs[0] + Sum(xs[1..])
  }

  lemma {:induction false} WaitsConcat<T>(a: seq<Event<T>>, b: seq<Event<T>>)
    ensures Waits(a + b) == Waits(a) + Waits(b)
  {
    if a == [] {
      EmptyConcat(b);
    } else {
      TailOfConcat(a, b);
      WaitsConcat(a[1..], b);
      ConcatAssociative(if a[0].SleepCall? then [a[0].wait] else [], Waits(a[1..]), Waits(b));
    }
  }

  lemma {:induction false} NoWaits<T>(trace: seq<Event<T>>)
    requires forall i :: 0 <= i < |trace| ==> !trace[i].SleepCall?
    ensures Waits(trace) == []
  {
    if trace == [] {
    } else {
      NoWaits(trace[1..]);
    }
  }

  lemma SleepsAndCalls<T>(e: Event<T>)
    ensures Waits([e]) == if e.SleepCall? then [e.wait] else []
    ensures Calls([e]) == if e.ExecCall? then [Call(e.value, e.err)] else []
  {
    assert [e][1..] == [];
  }

  lemma {:induction false} SumConcat(xs: seq<int>, ys: seq<int>)
    ensures Sum(xs + ys) == Sum(xs) + Sum(ys)
    ensures |xs| == 1 ==> Sum(xs) == xs[0]
  {
    if xs == [] {
      EmptyConcat(ys);
    } else {
      TailOfConcat(xs, ys);
      SumConcat(xs[1..], ys);
    }
  }

  /** MostAttempts is max(1, largest maxAttempts): none is larger, and it is one of them or 1. */
  lemma {:induction false} MostAttemptsIsLargest<W>(policies: seq<Policy<W>>)
    ensures forall p <- policies :: p.decider.RetryWith? ==> p.decider.policy.maxAttempts <= MostAttempts(policies)
    ensures MostAttempts(policies) == 1
            || exists p <- policies :: p.decider.RetryWith? && p.decider.policy.maxAttempts == MostAttempts(policies)
  {
    if policies == [] {
    } else {
      MostAttemptsIsLargest(policies[1..]);
      assert forall p <- policies :: p == policies[0] || p in policies[1..];
      assert forall p <- policies[1..] :: p in policies;
      assert policies[0] in policies;
    }
  }

  lemma {:induction false} LargestDelayIsLargest<W>(policies: seq<Policy<W>>)
    ensures forall p <- policies :: p.decider.RetryWith? ==> p.decider.policy.maxDelay <= LargestDelay(policies)
    ensures LargestDelay(policies) == 0
            || exists p <- policies :: p.decider.RetryWith? && p.decider.policy.maxDelay == LargestDelay(policies)
  {
    if policies == [] {
    } else {
      LargestDelayIsLargest(policies[1..]);
      assert forall p <- policies :: p == policies[0] || p in policies[1..];
      assert forall p <- policies[1..] :: p in policies;
      assert policies[0] in policies;
    }
  }

  // ---------------------------------------------------------------------------------------------
  // The retry decision
  // ---------------------------------------------------------------------------------------------

  /** What the deciders from index i on answer, each asked in the world that the one before it left. */
  function Votes<W, T>(env: Env<W, T>, w: W, i: nat, attempt: nat, err: Err): (votes: seq<Option<Duration>>)
    requires env.Valid() && i <= |env.policies|
    ensures |votes| == |env.policies| - i
    decreases |env.policies| - i
  {
    if i == |env.policies| then []
    else
      var (w', vote) := CallShouldRetry(env, w, i, attempt, err);
      [vote] + Votes(env, w', i + 1, attempt, err)
  }

  /** The decision says whether somebody voted, and how long the longest wait asked for is. */
  ghost predicate Collected(votes: seq<Option<Duration>>, d: Decision) {
    && (d.retry <==> exists k :: 0 <= k < |votes| && votes[k].Some?)
    && (forall k :: 0 <= k < |votes| && votes[k].Some? ==> votes[k].value <= d.wait)
    && d.wait >= 0
    && (d.wait > 0 ==> exists k :: 0 <= k < |votes| && votes[k] == Some(d.wait))
  }

  lemma CollectOne(votes: seq<Option<Duration>>, vote: Option<Duration>, d: Decision) returns (d': Decision)
    requires Collected(votes, d)
    ensures d' == if vote.None? then d else Decision(true, if vote.value > d.wait then vote.value else d.wait)
    ensures Collected(votes + [vote], d')
  {
    d' := if vote.None? then d else Decision(true, if vote.value > d.wait then vote.value else d.wait);
    var longer := votes + [vote];
    assert longer[|votes|] == vote;
    assert forall k :: 0 <= k < |votes| ==> longer[k] == votes[k];
  }

  lemma {:induction false} DecideCollects<W, T>(
    env: Env<W, T>, w: W, i: nat, attempt: nat, err: Err, agg: Decision, before: seq<Option<Duration>>)
    requires env.Valid() && i <= |env.policies|
    requires Collected(before, agg)
    ensures Collected(before + Votes(env, w, i, attempt, err), DecideFrom(env, w, i, attempt, err, agg).1)
    decreases |env.policies| - i
  {
    if i == |env.policies| {
      EmptyConcat(before);
    } else {
      var (w', vote) := CallShouldRetry(env, w, i, attempt, err);
      var agg' := CollectOne(before, vote, agg);
      DecideCollects(env, w', i + 1, attempt, err, agg', before + [vote]);
      ConcatAssociative(before, [vote], Votes(env, w', i + 1, attempt, err));
    }
  }

  /**
   * Every decider is asked, in chain order. The engine retries exactly when one of them votes for it, and
   * waits for the longest wait asked for, or not at all if none is positive.
   */
  lemma DecisionIsMaximum<W, T>(env: Env<W, T>, w: W, attempt: nat, err: Err)
    requires env.Valid()
    ensures Collected(Votes(env, w, 0, attempt, err), DecideRetry(env, w, attempt, err).1)
  {
    var votes := Votes(env, w, 0, attempt, err);
    DecideCollects(env, w, 0, attempt, err, Decision(false, 0), []);
    EmptyConcat(votes);
    assert DecideRetry(env, w, attempt, err).1 == DecideFrom(env, w, 0, attempt, err, Decision(false, 0)).1;
  }

  /** The world in which the decider at an index is asked, and at the end the one that all of them leave. */
  function AskedIn<W, T>(env: Env<W, T>, w: W, attempt: nat, err: Err, i: nat): W
    requires i <= |env.policies|
  {
    if i == 0 then w
    else
      var before := AskedIn(env, w, attempt, err, i - 1);
      match env.policies[i - 1].decider
      case NotDecider => before
      case RetryWith(_) => env.voted(before, i - 1)
      case CustomDecider(decide) => decide(before, env.root, attempt, err).0
  }

  /** What a decider's own answer means as a vote: a panic and a refusal are none. */
  ghost predicate VotesFor<W, T>(env: Env<W, T>, w: W, i: nat, attempt: nat, err: Err, vote: Option<Duration>)
    requires env.Valid() && i < |env.policies| && attempt >= 1
  {
    match env.policies[i].decider
    case NotDecider => vote.None?
    case CustomDecider(decide) =>
      (match decide(w, env.root, attempt, err).1
       case DecidePanics => vote.None?
       case Decides(retry, wait) => vote == if retry then Some(wait) else None)
    case RetryWith(p) =>
      && (vote.Some? <==> attempt < p.maxAttempts && env.rootErr(w).None? && p.retryable(err))
      && (vote.Some? ==>
            && BacksOff(p, CappedExponential(p, attempt), env.draw(w, i), vote.value)
            && InBackoffRange(p, CappedExponential(p, attempt), vote.value)
            && vote.value <= p.maxDelay)
  }

  lemma VoteExactly<W, T>(env: Env<W, T>, w: W, i: nat, attempt: nat, err: Err)
    requires env.Valid() && i < |env.policies| && attempt >= 1
    ensures VotesFor(env, w, i, attempt, err, CallShouldRetry(env, w, i, attempt, err).1)
  {
    var d := env.policies[i].decider;
    if d.RetryWith? {
      BackoffDelayExactly(d.policy, attempt, env.draw(w, i), env.overflow);
      NegativeDelayExactly(d.policy, attempt, env.draw(w, i), env.overflow);
    }
  }

  lemma AskedNext<W, T>(env: Env<W, T>, w: W, attempt: nat, err: Err, i: nat)
    requires env.Valid() && i < |env.policies|
    ensures CallShouldRetry(env, AskedIn(env, w, attempt, err, i), i, attempt, err).0
            == AskedIn(env, w, attempt, err, i + 1)
  {
  }

  lemma {:induction false} VoteFrom<W, T>(env: Env<W, T>, w: W, i: nat, k: nat, attempt: nat, err: Err)
    requires env.Valid() && i <= k < |env.policies| && attempt >= 1
    ensures var votes := Votes(env, AskedIn(env, w, attempt, err, i), i, attempt, err);
            VotesFor(env, AskedIn(env, w, attempt, err, k), k, attempt, err, votes[k - i])
    decreases k - i
  {
    var here := AskedIn(env, w, attempt, err, i);
    if i == k {
      VoteExactly(env, here, i, attempt, err);
    } else {
      AskedNext(env, w, attempt, err, i);
      VoteFrom(env, w, i + 1, k, attempt, err);
      var (w', vote) := CallShouldRetry(env, here, i, attempt, err);
      var rest := Votes(env, w', i + 1, attempt, err);
      assert Votes(env, here, i, attempt, err) == [vote] + rest;
      assert ([vote] + rest)[k - i] == rest[k - (i + 1)];
    }
  }

  lemma {:induction false} AskedLast<W, T>(env: Env<W, T>, w: W, i: nat, attempt: nat, err: Err, agg: Decision)
    requires env.Valid() && i <= |env.policies|
    ensures DecideFrom(env, AskedIn(env, w, attempt, err, i), i, attempt, err, agg).0
            == AskedIn(env, w, attempt, err, |env.policies|)
    decreases |env.policies| - i
  {
    if i == |env.policies| {
    } else {
      AskedNext(env, w, attempt, err, i);
      var (w', vote) := CallShouldRetry(env, AskedIn(env, w, attempt, err, i), i, attempt, err);
      var agg' := if vote.None? then agg else Decision(true, if vote.value > agg.wait then vote.value else agg.wait);
      AskedLast(env, w, i + 1, attempt, err, agg');
    }
  }

  /**
   * The votes in terms of what the deciders answer: each is asked once, in chain order and in the world that
   * the ones before it left, and the engine goes on in the world that the last one left.
   */
  lemma VotesExactly<W, T>(env: Env<W, T>, w: W, attempt: nat, err: Err, k: nat)
    requires env.Valid() && attempt >= 1 && k < |env.policies|
    ensures VotesFor(env, AskedIn(env, w, attempt, err, k), k, attempt, err, Votes(env, w, 0, attempt, err)[k])
  {
    VoteFrom(env, w, 0, k, attempt, err);
  }

  lemma DecisionWorld<W, T>(env: Env<W, T>, w: W, attempt: nat, err: Err)
    requires env.Valid()
    ensures DecideRetry(env, w, attempt, err).0 == AskedIn(env, w, attempt, err, |env.policies|)
  {
    AskedLast(env, w, 0, attempt, err, Decision(false, 0));
  }

  /** A retry policy votes exactly when the root context is live, the error retryable and an attempt left. */
  lemma VoteBounds<W, T>(env: Env<W, T>, w: W, i: nat, attempt: nat, err: Err)
    requires env.Valid() && OnlyRetryPolicies(env.policies) && i < |env.policies| && attempt >= 1
    ensures var vote := CallShouldRetry(env, w, i, attempt, err).1;
            && (vote.Some? <==>
                  && env.policies[i].decider.RetryWith?
                  && env.rootErr(w).None?
                  && env.policies[i].decider.policy.retryable(err)
                  && attempt < env.policies[i].decider.policy.maxAttempts)
            && (vote.Some? ==> vote.value <= env.policies[i].decider.policy.maxDelay)
  {
    var d := env.policies[i].decider;
    assert !d.CustomDecider?;
    if d.RetryWith? {
      NegativeDelayExactly(d.policy, attempt, env.draw(w, i), env.overflow);
    }
  }

  lemma {:induction false} DecideBounds<W, T>(
    env: Env<W, T>, w: W, i: nat, attempt: nat, err: Err, agg: Decision, cap: nat)
    requires env.Valid() && OnlyRetryPolicies(env.policies) && i <= |env.policies| && attempt >= 1
    requires 0 <= agg.wait <= cap && LargestDelay(env.policies[i..]) <= cap
    ensures var d := DecideFrom(env, w, i, attempt, err, agg).1;
            && 0 <= d.wait <= cap
            && (agg.retry ==> d.retry)
            && (d.retry && !agg.retry ==> attempt < MostAttempts(env.policies[i..]))
    decreases |env.policies| - i
  {
    if i == |env.policies| {
    } else {
      var (w', vote) := CallShouldRetry(env, w, i, attempt, err);
      VoteBounds(env, w, i, attempt, err);
      var agg' := if vote.None? then agg else Decision(true, if vote.value > agg.wait then vote.value else agg.wait);
      assert env.policies[i..][0] == env.policies[i] && env.policies[i..][1..] == env.policies[i + 1..];
      DecideBounds(env, w', i + 1, attempt, err, agg', cap);
    }
  }

  /** The decider is a retry policy that has an attempt left and accepts the error. */
  predicate Accepts<W>(p: Policy<W>, attempt: int, err: Err) {
    p.decider.RetryWith? && attempt < p.decider.policy.maxAttempts && p.decider.policy.retryable(err)
  }

  /** From index i on, some retry policy accepts and finds the root context live when it is asked. */
  predicate Accepted<W, T>(env: Env<W, T>, w: W, i: nat, attempt: nat, err: Err)
    requires env.Valid() && i <= |env.policies|
    decreases |env.policies| - i
  {
    i < |env.policies|
    && ((env.rootErr(w).None? && Accepts(env.policies[i], attempt, err))
        || Accepted(env, CallShouldRetry(env, w, i, attempt, err).0, i + 1, attempt, err))
  }

  /** The engine retries exactly then. */
  lemma {:induction false} DecideExactly<W, T>(env: Env<W, T>, w: W, i: nat, attempt: nat, err: Err, agg: Decision)
    requires env.Valid() && OnlyRetryPolicies(env.policies) && i <= |env.policies| && attempt >= 1
    ensures DecideFrom(env, w, i, attempt, err, agg).1.retry <==> agg.retry || Accepted(env, w, i, attempt, err)
    decreases |env.policies| - i
  {
    if i == |env.policies| {
    } else {
      var (w', vote) := CallShouldRetry(env, w, i, attempt, err);
      VoteBounds(env, w, i, attempt, err);
      var agg' := if vote.None? then agg else Decision(true, if vote.value > agg.wait then vote.value else agg.wait);
      DecideExactly(env, w', i + 1, attempt, err, agg');
    }
  }

  /** The root context is live whenever a decider is asked, from index i on. */
  predicate LiveWhileAsked<W, T>(env: Env<W, T>, w: W, i: nat, attempt: nat, err: Err)
    requires env.Valid() && i <= |env.policies|
    decreases |env.policies| - i
  {
    i == |env.policies|
    || (env.rootErr(w).None? && LiveWhileAsked(env, CallShouldRetry(env, w, i, attempt, err).0, i + 1, attempt, err))
  }

  /** Every retry policy of the chain accepts the error. */
  ghost predicate AllRetryable<W>(policies: seq<Policy<W>>, err: Err) {
    forall p <- policies :: p.decider.RetryWith? ==> p.decider.policy.retryable(err)
  }

  /** Below the largest maxAttempts, a policy with that maximum still has an attempt left. */
  lemma {:induction false} SomeoneAccepts<W, T>(env: Env<W, T>, w: W, i: nat, attempt: nat, err: Err)
    requires env.Valid() && i <= |env.policies| && 1 <= attempt < MostAttempts(env.policies[i..])
    requires AllRetryable(env.policies, err) && LiveWhileAsked(env, w, i, attempt, err)
    ensures Accepted(env, w, i, attempt, err)
    decreases |env.policies| - i
  {
    if i == |env.policies| {
    } else {
      assert env.policies[i..][0] == env.policies[i] && env.policies[i..][1..] == env.policies[i + 1..];
      assert env.policies[i] in env.policies;
      if !Accepts(env.policies[i], attempt, err) {
        SomeoneAccepts(env, CallShouldRetry(env, w, i, attempt, err).0, i + 1, attempt, err);
      }
    }
  }

  lemma NoWaitsBefore<W, T>(env: Env<W, T>, w: W)
    ensures Waits(ApplyBefore<W, T>(env.policies, w, env.root, 0).trace) == []
  {
    BeforeTrace<W, T>(env.policies, w, env.root, 0);
    NoWaits(ApplyBefore<W, T>(env.policies, w, env.root, 0).trace);
  }

  lemma NoWaitsAfter<W, T>(applied: seq<Policy<W>>, w: W, ctx: Ctx, base: Option<Err>)
    ensures Waits(AfterFold<W, T>(applied, w, ctx, base).trace) == []
  {
    AfterKeepsErrors<W, T>(applied, w, ctx, base);
    NoWaits(AfterFold<W, T>(applied, w, ctx, base).trace);
  }

  lemma NoWaitsAround<T>(a: seq<Event<T>>, exec: Event<T>, b: seq<Event<T>>)
    requires Waits(a) == [] && exec.ExecCall? && Waits(b) == []
    ensures Waits(a + [exec] + b) == []
  {
    NoWaits([exec]);
    WaitsConcat(a, [exec]);
    WaitsConcat(a + [exec], b);
  }

  /** At most one transport call, and exactly one, with an attempt left, if the loop goes on. */
  ghost predicate CallBounded<W, T>(r: Run<W, T>, attempt: nat, most: nat) {
    && |Calls(r.trace)| <= 1
    && (r.verdict.Again? ==> |Calls(r.trace)| == 1 && attempt < most)
  }

  lemma RefusedBounds<W, T>(env: Env<W, T>, w: W, attempt: nat)
    requires env.Valid() && ApplyBefore<W, T>(env.policies, w, env.root, 0).err.Some?
    ensures var r := Attempt(env, w, attempt);
            Calls(r.trace) == [] && Waits(r.trace) == [] && r.verdict.Return?
  {
    var b := ApplyBefore<W, T>(env.policies, w, env.root, 0);
    RefusedAttempt(env, w, attempt);
    NoWaitsBefore(env, w);
    NoWaitsAfter<W, T>(b.applied, b.world, b.ctx, b.err);
    WaitsConcat(b.trace, AfterFold<W, T>(b.applied, b.world, b.ctx, b.err).trace);
  }

  /** At most `left` waits, each between 0 and `longest`. */
  ghost predicate FewWaits(waits: seq<int>, left: nat, longest: nat) {
    |waits| <= left && forall i :: 0 <= i < |waits| ==> 0 <= waits[i] <= longest
  }

  /** At most one wait, no longer than allowed, and none and no further attempt once the last one is made. */
  ghost predicate WaitBounded<W, T>(r: Run<W, T>, attempt: nat, most: nat, longest: nat) {
    && FewWaits(Waits(r.trace), if attempt < most then 1 else 0, longest)
    && (r.verdict.Again? ==> attempt < most)
  }

  lemma ExecutedBounds<W, T>(env: Env<W, T>, w: W, attempt: nat)
    requires env.Valid() && OnlyRetryPolicies(env.policies) && attempt >= 1
    requires ApplyBefore<W, T>(env.policies, w, env.root, 0).err.None?
    ensures var r := Attempt(env, w, attempt);
            WaitBounded(r, attempt, MostAttempts(env.policies), LargestDelay(env.policies))
  {
    var b := ApplyBefore<W, T>(env.policies, w, env.root, 0);
    var (w1, value, execErr) := env.fn(b.world, b.ctx);
    var a := AfterFold<W, T>(b.applied, w1, b.ctx, execErr);
    NoWaitsBefore(env, w);
    NoWaitsAfter<W, T>(b.applied, w1, b.ctx, execErr);
    NoWaitsAround(b.trace, ExecCall(value, execErr), a.trace);
    LastWait(env, a, value, attempt, b.trace + [ExecCall(value, execErr)] + a.trace);
  }

  /** What one attempt adds to the trace, and when it goes on. */
  lemma AttemptBounds<W, T>(env: Env<W, T>, w: W, attempt: nat)
    requires env.Valid() && OnlyRetryPolicies(env.policies) && attempt >= 1
    ensures var r := Attempt(env, w, attempt);
            && CallBounded(r, attempt, MostAttempts(env.policies))
            && WaitBounded(r, attempt, MostAttempts(env.policies), LargestDelay(env.policies))
  {
    if ApplyBefore<W, T>(env.policies, w, env.root, 0).err.Some? {
      RefusedBounds(env, w, attempt);
    } else {
      ExecutedAttempt(env, w, attempt);
      ExecutedBounds(env, w, attempt);
    }
  }

  lemma LastWait<W, T>(env: Env<W, T>, a: Afters<W, T>, value: T, attempt: nat, done: seq<Event<T>>)
    requires env.Valid() && OnlyRetryPolicies(env.policies) && attempt >= 1 && Waits(done) == []
    ensures var r := AfterAttempt(env, a, value, attempt, done);
            WaitBounded(r, attempt, MostAttempts(env.policies), LargestDelay(env.policies))
  {
    if a.err.Some? {
      assert env.policies[0..] == env.policies;
      DecideBounds(env, a.world, 0, attempt, a.err.value, Decision(false, 0), LargestDelay(env.policies));
      var (w2, d) := DecideRetry(env, a.world, attempt, a.err.value);
      var (w3, sleepErr) := SleepWithContext(env, w2, d.wait);
      var sleep: seq<Event<T>> := [SleepCall(d.wait, sleepErr.Some?)];
      assert sleep[1..] == [];
      WaitsConcat(done, sleep);
    }
  }

  function Times(n: nat, d: nat): nat {
    if n == 0 then 0 else d + Times(n - 1, d)
  }

  lemma {:induction false} TimesIsProduct(n: nat, d: nat)
    ensures Times(n, d) == n * d
  {
    if n == 0 {
    } else {
      TimesIsProduct(n - 1, d);
    }
  }

  lemma {:induction false} BudgetOf(waits: seq<int>, left: nat, longest: nat)
    requires FewWaits(waits, left, longest)
    ensures Sum(waits) <= Times(left, longest)
  {
    if waits == [] {
    } else {
      BudgetOf(waits[1..], left - 1, longest);
    }
  }

  lemma {:induction false} LoopCallsBounded<W, T>(
    step: (W, nat) -> Run<W, T>, w: W, attempt: nat, rounds: nat, most: nat)
    requires forall w', a: nat :: a >= 1 ==> CallBounded(step(w', a), a, most)
    requires 1 <= attempt <= most
    ensures var r := Loop(step, w, attempt, rounds);
            |Calls(r.trace)| <= most - attempt + 1 && (rounds > most - attempt ==> r.verdict.Return?)
    decreases rounds
  {
    if rounds == 0 {
    } else {
      var first := step(w, attempt);
      assert CallBounded(first, attempt, most);
      if first.verdict.Again? {
        LoopCallsBounded(step, first.world, attempt + 1, rounds - 1, most);
        CallsConcat(first.trace, Loop(step, first.world, attempt + 1, rounds - 1).trace);
      }
    }
  }

  lemma FewWaitsConcat(a: seq<int>, b: seq<int>, m: nat, n: nat, longest: nat)
    requires FewWaits(a, m, longest) && FewWaits(b, n, longest)
    ensures FewWaits(a + b, m + n, longest)
  {
  }

  lemma {:induction false} LoopWaitsBounded<W, T>(
    step: (W, nat) -> Run<W, T>, w: W, attempt: nat, rounds: nat, most: nat, longest: nat)
    requires forall w', a: nat :: a >= 1 ==> WaitBounded(step(w', a), a, most, longest)
    requires 1 <= attempt <= most
    ensures FewWaits(Waits(Loop(step, w, attempt, rounds).trace), most - attempt, longest)
    decreases rounds
  {
    if rounds == 0 {
    } else {
      var first := step(w, attempt);
      assert WaitBounded(first, attempt, most, longest);
      if first.verdict.Again? {
        var rest := Loop(step, first.world, attempt + 1, rounds - 1);
        LoopWaitsBounded(step, first.world, attempt + 1, rounds - 1, most, longest);
        WaitsConcat(first.trace, rest.trace);
        FewWaitsConcat(Waits(first.trace), Waits(rest.trace), 1, most - attempt - 1, longest);
      }
    }
  }

  /**
   * The whole call: at most max(1, largest maxAttempts) transport calls, an end within that many rounds,
   * every wait between 0 and the largest maxDelay, and all waits together at most that delay times the
   * number of retries.
   */
  lemma InvocationBound<W, T>(env: Env<W, T>, w: W, rounds: nat)
    requires env.Valid() && OnlyRetryPolicies(env.policies)
    ensures var r := RunFrom(env, w, 1, rounds);
            var most, longest := MostAttempts(env.policies), LargestDelay(env.policies);
            && |Calls(r.trace)| <= most
            && (rounds >= most ==> r.verdict.Return?)
            && (forall i :: 0 <= i < |Waits(r.trace)| ==> 0 <= Waits(r.trace)[i] <= longest)
            && Sum(Waits(r.trace)) <= (most - 1) * longest
  {
    var most, longest := MostAttempts(env.policies), LargestDelay(env.policies);
    var step := StepOf(env);
    forall w', attempt: nat | attempt >= 1
      ensures CallBounded(step(w', attempt), attempt, most)
      ensures WaitBounded(step(w', attempt), attempt, most, longest)
    {
      AttemptBounds(env, w', attempt);
    }
    LoopCallsBounded(step, w, 1, rounds, most);
    LoopWaitsBounded(step, w, 1, rounds, most, longest);
    BudgetOf(Waits(RunFrom(env, w, 1, rounds).trace), most - 1, longest);
    TimesIsProduct(most - 1, longest);
  }

  // ---------------------------------------------------------------------------------------------
  // Exactness
  // ---------------------------------------------------------------------------------------------

  /** The sleep that the engine asks for after this attempt is not cut short. */
  predicate SleepsThrough<W, T>(env: Env<W, T>, w: W, attempt: nat, err: Err)
    requires env.Valid()
  {
    var (w', d) := DecideRetry(env, w, attempt, err);
    d.wait > 0 ==> env.interrupted(w', d.wait).1.None?
  }

  /** The attempt from w fails in a way that the engine retries. */
  ghost predicate GoesOn<W, T>(env: Env<W, T>, w: W, attempt: nat)
    requires env.Valid()
  {
    var a := Descent(env, w).2;
    && ApplyBefore<W, T>(env.policies, w, env.root, 0).err.None?
    && a.err.Some?
    && Accepted(env, a.world, 0, attempt, a.err.value)
    && SleepsThrough(env, a.world, attempt, a.err.value)
  }

  /** Something holds of the attempts from w on, up to number `last`, whose worlds the run itself produces. */
  ghost predicate AlongRun<W, T>(step: (W, nat) -> Run<W, T>, w: W, attempt: nat, last: nat, holds: (W, nat) -> bool)
    requires attempt <= last
    decreases last - attempt
  {
    && holds(w, attempt)
    && (attempt < last ==> AlongRun(step, step(w, attempt).world, attempt + 1, last, holds))
  }

  lemma {:induction false} AlongRunImplies<W, T>(
    step: (W, nat) -> Run<W, T>, w: W, attempt: nat, last: nat, p: (W, nat) -> bool, q: (W, nat) -> bool)
    requires 1 <= attempt <= last && AlongRun(step, w, attempt, last, p)
    requires forall w', a: nat :: 1 <= a <= last && p(w', a) ==> q(w', a)
    ensures AlongRun(step, w, attempt, last, q)
    decreases last - attempt
  {
    if attempt == last {
    } else {
      AlongRunImplies(step, step(w, attempt).world, attempt + 1, last, p, q);
    }
  }

  /** Every attempt of the run up to number `most` gets through Before, and all before that one are retried. */
  ghost predicate Persists<W, T>(env: Env<W, T>, w: W, most: nat)
    requires env.Valid() && most >= 1
  {
    AlongRun(StepOf(env), w, 1, most, Persisting(env, most))
  }

  ghost function Persisting<W, T>(env: Env<W, T>, most: nat): (W, nat) -> bool
    requires env.Valid()
  {
    (w: W, attempt: nat) =>
      if attempt < most then GoesOn(env, w, attempt)
      else ApplyBefore<W, T>(env.policies, w, env.root, 0).err.None?
  }

  lemma AttemptGoesOn<W, T>(env: Env<W, T>, w: W, attempt: nat)
    requires env.Valid() && OnlyRetryPolicies(env.policies) && attempt >= 1
    ensures Attempt(env, w, attempt).verdict.Again? <==> GoesOn(env, w, attempt)
    ensures |Calls(Attempt(env, w, attempt).trace)| == 1 <==> ApplyBefore<W, T>(env.policies, w, env.root, 0).err.None?
  {
    if ApplyBefore<W, T>(env.policies, w, env.root, 0).err.Some? {
      RefusedAttempt(env, w, attempt);
    } else {
      ExecutedAttempt(env, w, attempt);
      var a := Descent(env, w).2;
      if a.err.Some? {
        DecideExactly(env, a.world, 0, attempt, a.err.value, Decision(false, 0));
      }
    }
  }

  /** A step makes its call, and goes on if it is not the last one allowed. */
  ghost predicate StepLasts<W, T>(r: Run<W, T>, attempt: nat, most: nat) {
    |Calls(r.trace)| == 1 && (attempt < most ==> r.verdict.Again?)
  }

  ghost function Lasting<W, T>(step: (W, nat) -> Run<W, T>, most: nat): (W, nat) -> bool {
    (w: W, attempt: nat) => StepLasts(step(w, attempt), attempt, most)
  }

  lemma {:induction false} LoopExact<W, T>(step: (W, nat) -> Run<W, T>, w: W, attempt: nat, rounds: nat, most: nat)
    requires forall w', a: nat :: a >= 1 ==> CallBounded(step(w', a), a, most)
    requires 1 <= attempt <= most && rounds > most - attempt
    ensures |Calls(Loop(step, w, attempt, rounds).trace)| == most - attempt + 1
       <==> AlongRun(step, w, attempt, most, Lasting(step, most))
    decreases rounds
  {
    var first := step(w, attempt);
    assert CallBounded(first, attempt, most);
    if first.verdict.Again? {
      LoopExact(step, first.world, attempt + 1, rounds - 1, most);
      CallsConcat(first.trace, Loop(step, first.world, attempt + 1, rounds - 1).trace);
    }
  }

  /**
   * The transport is called exactly max(1, largest maxAttempts) times, and no fewer, when in this run every
   * attempt gets through Before and every one but the last fails, with an error that some policy with an
   * attempt left accepts while it finds the root context live, and a sleep that is not cut short.
   */
  lemma AttemptsExact<W, T>(env: Env<W, T>, w: W, rounds: nat)
    requires env.Valid() && OnlyRetryPolicies(env.policies)
    requires rounds >= MostAttempts(env.policies)
    ensures var most := MostAttempts(env.policies);
            |Calls(RunFrom(env, w, 1, rounds).trace)| == most <==> Persists(env, w, most)
  {
    var most, step := MostAttempts(env.policies), StepOf(env);
    var persisting, lasting := Persisting(env, most), Lasting(step, most);
    forall w', a: nat | a >= 1
      ensures CallBounded(step(w', a), a, most)
      ensures a <= most ==> (persisting(w', a) <==> lasting(w', a))
    {
      AttemptBounds(env, w', a);
      AttemptGoesOn(env, w', a);
    }
    LoopExact(step, w, 1, rounds, most);
    if AlongRun(step, w, 1, most, lasting) {
      AlongRunImplies(step, w, 1, most, lasting, persisting);
    }
    if AlongRun(step, w, 1, most, persisting) {
      AlongRunImplies(step, w, 1, most, persisting, lasting);
    }
  }

  /** The attempt gets through Before and fails with an error that every retry policy accepts. */
  ghost predicate FailsRetryably<W, T>(env: Env<W, T>, w: W, attempt: nat)
    requires env.Valid()
  {
    var a := Descent(env, w).2;
    && ApplyBefore<W, T>(env.policies, w, env.root, 0).err.None?
    && a.err.Some? && AllRetryable(env.policies, a.err.value)
    && LiveWhileAsked(env, a.world, 0, attempt, a.err.value)
    && SleepsThrough(env, a.world, attempt, a.err.value)
  }

  ghost function FailingRetryably<W, T>(env: Env<W, T>): (W, nat) -> bool
    requires env.Valid()
  {
    (w: W, attempt: nat) => FailsRetryably(env, w, attempt)
  }

  lemma FailureGoesOn<W, T>(env: Env<W, T>, w: W, attempt: nat)
    requires env.Valid() && 1 <= attempt < MostAttempts(env.policies) && FailsRetryably(env, w, attempt)
    ensures GoesOn(env, w, attempt)
  {
    var a := Descent(env, w).2;
    assert env.policies[0..] == env.policies;
    SomeoneAccepts(env, a.world, 0, attempt, a.err.value);
  }

  /** In particular, when every error of the run satisfies every policy's predicate. */
  lemma AttemptsExactWhenRetryable<W, T>(env: Env<W, T>, w: W, rounds: nat)
    requires env.Valid() && OnlyRetryPolicies(env.policies)
    requires rounds >= MostAttempts(env.policies)
    requires AlongRun(StepOf(env), w, 1, MostAttempts(env.policies), FailingRetryably(env))
    ensures |Calls(RunFrom(env, w, 1, rounds).trace)| == MostAttempts(env.policies)
  {
    var most, failing := MostAttempts(env.policies), FailingRetryably(env);
    var persisting := Persisting(env, most);
    forall w', a: nat | 1 <= a <= most && failing(w', a)
      ensures persisting(w', a)
    {
      if a < most {
        FailureGoesOn(env, w', a);
      }
    }
    AlongRunImplies(StepOf(env), w, 1, most, failing, persisting);
    AttemptsExact(env, w, rounds);
  }
}
