/**
 * The policy engine. Policies, the transport call and the sleep are arbitrary: each takes the state of
 * the world and returns a new one, so a policy may remember anything between calls. Every call is
 * recorded in a trace.
 */
module Engine {
  import opened Options
  import opened Sequences
  import opened Errors
  import opened Retry
  import opened Contexts

  datatype BeforeResult = BeforeReturns(ctx: Ctx, err: Option<Err>) | BeforePanics
  datatype AfterResult = AfterReturns(err: Option<Err>) | AfterPanics
  datatype DecideResult = Decides(retry: bool, wait: Duration) | DecidePanics

  datatype Decider<!W> =
    | NotDecider
    | RetryWith(policy: RetryPolicy)
    | CustomDecider(decide: (W, Ctx, int, Err) -> (W, DecideResult))

  datatype Policy<!W> = Policy(
    before: (W, Ctx) -> (W, BeforeResult),
    after: (W, Ctx, Option<Err>) -> (W, AfterResult),
    decider: Decider<W>)

  type Draw = x: real | 0.0 <= x < 1.0

  datatype Env<!W, !T> = Env(
    root: Ctx,
    policies: seq<Policy<W>>,
    fn: (W, Ctx) -> (W, T, Option<Err>),
    rootErr: W -> Option<Err>,                  // ctx.Err() of the root context
    interrupted: (W, int) -> (W, Option<Err>),  // whether the root context ends before a positive wait does
    draw: (W, nat) -> Draw,                     // random source, as seen by the policy at an index
    voted: (W, nat) -> W,                       // what may change while a retry policy at an index is asked
    overflow: Duration)
  {
    ghost predicate Valid() {
      && Extreme(overflow)
      && (forall p <- policies :: p.decider.RetryWith? ==> p.decider.policy.Valid())
    }
  }

  datatype Event<T> =
    | BeforeCall(index: nat, ok: bool)
    | ExecCall(value: T, err: Option<Err>)
    | AfterCall(policy: nat, given: Option<Err>, returned: Option<Err>)
    | SleepCall(wait: int, cut: bool)

  // ---------------------------------------------------------------------------------------------
  // One attempt
  // ---------------------------------------------------------------------------------------------

  /** A panic leaves callPolicyBefore's unnamed results at nil, nil. */
  function CallBefore<W>(p: Policy<W>, w: W, ctx: Ctx): (W, Ctx, Option<Err>) {
    var (w', r) := p.before(w, ctx);
    match r
    case BeforePanics => (w', NilContext, None)
    case BeforeReturns(c, err) => (w', if c.NilContext? then ctx else c, Annotate(err))
  }

  function CallAfter<W>(p: Policy<W>, w: W, ctx: Ctx, err: Option<Err>): (W, Option<Err>) {
    var (w', r) := p.after(w, ctx, err);
    match r
    case AfterPanics => (w', None)
    case AfterReturns(e) => (w', Annotate(e))
  }

  datatype Befores<!W, T> = Befores(world: W, ctx: Ctx, applied: seq<Policy<W>>, err: Option<Err>, trace: seq<Event<T>>)

  /** `index` is the position of the first of `policies` in the whole chain. */
  function ApplyBefore<W, T>(policies: seq<Policy<W>>, w: W, ctx: Ctx, index: nat): Befores<W, T> {
    if policies == [] then Befores(w, ctx, [], None, [])
    else
      var (w', next, err) := CallBefore(policies[0], w, ctx);
      if err.Some? then Befores(w', ctx, [], err, [BeforeCall(index, false)])
      else
        var rest := ApplyBefore<W, T>(policies[1..], w', next, index + 1);
        rest.(applied := [policies[0]] + rest.applied, trace := [BeforeCall(index, true)] + rest.trace)
  }

  datatype Afters<!W, T> = Afters(world: W, err: Option<Err>, trace: seq<Event<T>>)

  /** What the backward loop over the applied policies computes. */
  function AfterFold<W, T>(applied: seq<Policy<W>>, w: W, ctx: Ctx, err: Option<Err>): Afters<W, T> {
    if applied == [] then Afters(w, err, [])
    else
      var last := |applied| - 1;
      var (w', returned) := CallAfter(applied[last], w, ctx, err);
      var joined := if returned.Some? then JoinErrors(err, returned) else err;
      var rest := AfterFold<W, T>(applied[..last], w', ctx, joined);
      rest.(trace := [AfterCall(last, err, returned)] + rest.trace)
  }

  /** An After pass in two parts: `trace` so far, then whatever follows. */
  ghost predicate PassContinues<W, T>(whole: Afters<W, T>, trace: seq<Event<T>>, rest: Afters<W, T>) {
    whole == Afters(rest.world, rest.err, trace + rest.trace)
  }

  lemma PassStep<W, T>(
    whole: Afters<W, T>, trace: seq<Event<T>>, applied: seq<Policy<W>>, i: nat, w: W, ctx: Ctx, err: Option<Err>)
    requires i < |applied| && PassContinues(whole, trace, AfterFold<W, T>(applied[..i + 1], w, ctx, err))
    ensures var (w', returned) := CallAfter(applied[i], w, ctx, err);
            var joined := if returned.Some? then JoinErrors(err, returned) else err;
            PassContinues(whole, trace + [AfterCall(i, err, returned)], AfterFold<W, T>(applied[..i], w', ctx, joined))
  {
    var (w', returned) := CallAfter(applied[i], w, ctx, err);
    var joined := if returned.Some? then JoinErrors(err, returned) else err;
    assert applied[..i + 1][..i] == applied[..i];
    var call: Event<T> := AfterCall(i, err, returned);
    ConcatAssociative(trace, [call], AfterFold<W, T>(applied[..i], w', ctx, joined).trace);
  }

  method ApplyAfterPolicies<W, T>(applied: seq<Policy<W>>, w0: W, ctx: Ctx, base: Option<Err>) returns (r: Afters<W, T>)
    ensures r == AfterFold(applied, w0, ctx, base)
  {
    var w, agg, trace := w0, base, [];
    var i := |applied|;
    ghost var whole := AfterFold<W, T>(applied, w0, ctx, base);
    assert applied[..i] == applied;
    EmptyConcat(whole.trace);
    while i > 0
      invariant 0 <= i <= |applied|
      invariant PassContinues(whole, trace, AfterFold<W, T>(applied[..i], w, ctx, agg))
    {
      i := i - 1;
      PassStep(whole, trace, applied, i, w, ctx, agg);
      var (w', returned) := CallAfter(applied[i], w, ctx, agg);
      trace := trace + [AfterCall(i, agg, returned)];
      agg := if returned.Some? then JoinErrors(agg, returned) else agg;
      w := w';
    }
    EmptyConcat(trace);
    r := Afters(w, agg, trace);
  }

  // ---------------------------------------------------------------------------------------------
  // Retry decision and sleep
  // ---------------------------------------------------------------------------------------------

  datatype Decision = Decision(retry: bool, wait: int)

  /** One decider's vote; a panic or a refusal is no vote. */
  function CallShouldRetry<W, T>(env: Env<W, T>, w: W, i: nat, attempt: nat, err: Err): (W, Option<Duration>)
    requires env.Valid() && i < |env.policies|
  {
    match env.policies[i].decider
    case NotDecider => (w, None)
    case RetryWith(p) =>
      var (retry, wait) := ShouldRetry(p, env.rootErr(w), attempt, Some(err), env.draw(w, i), env.overflow);
      (env.voted(w, i), if retry then Some(wait) else None)
    case CustomDecider(decide) =>
      var (w', r) := decide(w, env.root, attempt, err);
      (w', if r.Decides? && r.retry then Some(r.wait) else None)
  }

  function DecideFrom<W, T>(env: Env<W, T>, w: W, i: nat, attempt: nat, err: Err, agg: Decision): (W, Decision)
    requires env.Valid() && i <= |env.policies|
    decreases |env.policies| - i
  {
    if i == |env.policies| then (w, agg)
    else
      var (w', vote) := CallShouldRetry(env, w, i, attempt, err);
      var agg' := if vote.None? then agg else Decision(true, if vote.value > agg.wait then vote.value else agg.wait);
      DecideFrom(env, w', i + 1, attempt, err, agg')
  }

  function DecideRetry<W, T>(env: Env<W, T>, w: W, attempt: nat, err: Err): (W, Decision)
    requires env.Valid()
  {
    var (w', d) := DecideFrom(env, w, 0, attempt, err, Decision(false, 0));
    (w', Decision(d.retry, if d.wait > 0 then d.wait else 0))
  }

  /** A wait of zero or less does not look at the context. */
  function SleepWithContext<W, T>(env: Env<W, T>, w: W, wait: int): (W, Option<Err>) {
    if wait <= 0 then (w, None)
    else
      var (w', e) := env.interrupted(w, wait);
      (w', Annotate(e))
  }

  // ---------------------------------------------------------------------------------------------
  // The attempt loop
  // ---------------------------------------------------------------------------------------------

  datatype Verdict<T> = Return(value: Option<T>, err: Option<Err>) | Again

  datatype Run<!W, T> = Run(world: W, verdict: Verdict<T>, trace: seq<Event<T>>)

  function Attempt<W, T>(env: Env<W, T>, w: W, attempt: nat): Run<W, T>
    requires env.Valid()
  {
    var b := ApplyBefore<W, T>(env.policies, w, env.root, 0);
    if b.err.Some? then
      var a := AfterFold<W, T>(b.applied, b.world, b.ctx, b.err);
      Run(a.world, Return(None, a.err), b.trace + a.trace)
    else
      var (w1, value, execErr) := env.fn(b.world, b.ctx);
      var a := AfterFold<W, T>(b.applied, w1, b.ctx, execErr);
      AfterAttempt(env, a, value, attempt, b.trace + [ExecCall(value, execErr)] + a.trace)
  }

  function AfterAttempt<W, T>(env: Env<W, T>, a: Afters<W, T>, value: T, attempt: nat, trace: seq<Event<T>>): Run<W, T>
    requires env.Valid()
  {
    if a.err.None? then Run(a.world, Return(Some(value), None), trace)
    else
      var (w2, d) := DecideRetry(env, a.world, attempt, a.err.value);
      if !d.retry then Run(w2, Return(Some(value), a.err), trace)
      else
        var (w3, sleepErr) := SleepWithContext(env, w2, d.wait);
        var trace' := trace + [SleepCall(d.wait, sleepErr.Some?)];
        if sleepErr.Some? then Run(w3, Return(Some(value), JoinErrors(a.err, sleepErr)), trace')
        else Run(w3, Again, trace')
  }

  /** The first `rounds` rounds of the loop around an attempt; verdict Again means it is still going. */
  function Loop<W, T>(step: (W, nat) -> Run<W, T>, w: W, attempt: nat, rounds: nat): Run<W, T>
    decreases rounds
  {
    if rounds == 0 then Run(w, Again, [])
    else
      var first := step(w, attempt);
      if first.verdict.Return? then first
      else
        var rest := Loop(step, first.world, attempt + 1, rounds - 1);
        Run(rest.world, rest.verdict, first.trace + rest.trace)
  }

  function StepOf<W, T>(env: Env<W, T>): (W, nat) -> Run<W, T>
    requires env.Valid()
  {
    (w: W, attempt: nat) => Attempt(env, w, attempt)
  }

  function RunFrom<W, T>(env: Env<W, T>, w: W, attempt: nat, rounds: nat): Run<W, T>
    requires env.Valid()
  {
    Loop(StepOf(env), w, attempt, rounds)
  }

  function FilterPolicies<W>(policies: seq<Option<Policy<W>>>): seq<Policy<W>> {
    if policies == [] then []
    else (if policies[0].Some? then [policies[0].value] else []) + FilterPolicies(policies[1..])
  }

  const NIL_FUNCTION := Err(Annotation, [Err(Plain("invoke function is nil"), [])])

  /** The loop body: one attempt, the retry decision and the sleep. */
  method RunAttempt<W, T>(env: Env<W, T>, w: W, attempt: nat) returns (r: Run<W, T>)
    requires env.Valid()
    ensures r == StepOf(env)(w, attempt)
  {
    var b := ApplyBefore<W, T>(env.policies, w, env.root, 0);
    if b.err.Some? {
      var a := ApplyAfterPolicies(b.applied, b.world, b.ctx, b.err);
      return Run(a.world, Return(None, a.err), b.trace + a.trace);
    }
    var (w1, value, execErr) := env.fn(b.world, b.ctx);
    var a := ApplyAfterPolicies(b.applied, w1, b.ctx, execErr);
    var trace := b.trace + [ExecCall(value, execErr)] + a.trace;
    if a.err.None? {
      return Run(a.world, Return(Some(value), None), trace);
    }
    var (w2, d) := DecideRetry(env, a.world, attempt, a.err.value);
    if !d.retry {
      return Run(w2, Return(Some(value), a.err), trace);
    }
    var (w3, sleepErr) := SleepWithContext(env, w2, d.wait);
    trace := trace + [SleepCall(d.wait, sleepErr.Some?)];
    if sleepErr.Some? {
      return Run(w3, Return(Some(value), JoinErrors(a.err, sleepErr)), trace);
    }
    r := Run(w3, Again, trace);
  }

  /** The loop so far: `r` is the whole run once it has returned, and otherwise what it starts with. */
  ghost predicate Partial<W, T>(step: (W, nat) -> Run<W, T>, whole: Run<W, T>, r: Run<W, T>, attempt: nat, left: nat) {
    if r.verdict.Return? then whole == r
    else
      var rest := Loop(step, r.world, attempt, left);
      whole == Run(rest.world, rest.verdict, r.trace + rest.trace)
  }

  lemma PartialStep<W, T>(
    step: (W, nat) -> Run<W, T>, whole: Run<W, T>, r: Run<W, T>, attempt: nat, left: nat, one: Run<W, T>)
    requires r.verdict.Again? && left > 0 && Partial(step, whole, r, attempt, left)
    requires one == step(r.world, attempt)
    ensures Partial(step, whole, Run(one.world, one.verdict, r.trace + one.trace), attempt + 1, left - 1)
  {
    if one.verdict.Again? {
      ConcatAssociative(r.trace, one.trace, Loop(step, one.world, attempt + 1, left - 1).trace);
    }
  }

  lemma PartialStart<W, T>(env: Env<W, T>, w: W, rounds: nat)
    returns (whole: Run<W, T>)
    requires env.Valid()
    ensures whole == RunFrom(env, w, 1, rounds)
    ensures Partial(StepOf(env), whole, Run(w, Again, []), 1, rounds)
  {
    whole := RunFrom(env, w, 1, rounds);
    EmptyConcat(whole.trace);
  }

  lemma PartialEnd<W, T>(step: (W, nat) -> Run<W, T>, whole: Run<W, T>, r: Run<W, T>, attempt: nat)
    requires Partial(step, whole, r, attempt, 0)
    ensures whole == r
  {
    EmptyConcat(r.trace);
  }

  /** One turn of the loop. */
  method Turn<W, T>(env: Env<W, T>, sofar: Run<W, T>, attempt: nat, ghost whole: Run<W, T>, ghost left: nat)
    returns (r: Run<W, T>)
    requires env.Valid() && sofar.verdict.Again? && left > 0 && Partial(StepOf(env), whole, sofar, attempt, left)
    ensures Partial(StepOf(env), whole, r, attempt + 1, left - 1)
  {
    var one := RunAttempt(env, sofar.world, attempt);
    PartialStep(StepOf(env), whole, sofar, attempt, left, one);
    r := Run(one.world, one.verdict, sofar.trace + one.trace);
  }

  method RunLoop<W, T>(env: Env<W, T>, w: W, rounds: nat) returns (r: Run<W, T>)
    requires env.Valid()
    ensures r == RunFrom(env, w, 1, rounds)
  {
    ghost var whole := PartialStart(env, w, rounds);
    r := Run(w, Again, []);
    var attempt := 1;
    while attempt <= rounds && r.verdict.Again?
      invariant 1 <= attempt <= rounds + 1
      invariant Partial(StepOf(env), whole, r, attempt, rounds + 1 - attempt)
    {
      r := Turn(env, r, attempt, whole, rounds + 1 - attempt);
      attempt := attempt + 1;
    }
    if r.verdict.Again? {
      PartialEnd(StepOf(env), whole, r, attempt);
    }
  }

  /** The surroundings of an invocation: contexts ending, sleeps, random draws, hardware. */
  datatype Runtime<!W> = Runtime(
    rootErr: W -> Option<Err>, interrupted: (W, int) -> (W, Option<Err>), draw: (W, nat) -> Draw, voted: (W, nat) -> W,
    overflow: Duration)

  /** What the loop runs with: no nil context, no nil policies. */
  function Prepare<W, T>(
    ctx: Ctx, fn: (W, Ctx) -> (W, T, Option<Err>), policies: seq<Option<Policy<W>>>, rt: Runtime<W>): Env<W, T>
  {
    Env(NormalizeContext(ctx), FilterPolicies(policies), fn, rt.rootErr, rt.interrupted, rt.draw, rt.voted, rt.overflow)
  }

  /** Filtering keeps exactly the policies that are not nil, in their order: `at` says where each one stood. */
  lemma {:induction false} FilterKeepsExactly<W>(policies: seq<Option<Policy<W>>>) returns (at: seq<nat>)
    ensures |at| == |FilterPolicies(policies)|
    ensures forall i, j :: 0 <= i < j < |at| ==> at[i] < at[j]
    ensures forall k :: 0 <= k < |at| ==> at[k] < |policies| && policies[at[k]] == Some(FilterPolicies(policies)[k])
    ensures forall i :: 0 <= i < |policies| && policies[i].Some? ==> i in at
    decreases |policies|
  {
    if policies == [] {
      at := [];
    } else {
      var last := |policies| - 1;
      var before := FilterKeepsExactly(policies[..last]);
      FilterLast(policies[..last], policies[last]);
      assert policies[..last] + [policies[last]] == policies;
      at := before + if policies[last].Some? then [last] else [];
    }
  }

  lemma {:induction false} FilterLast<W>(policies: seq<Option<Policy<W>>>, p: Option<Policy<W>>)
    ensures FilterPolicies(policies + [p]) == FilterPolicies(policies) + if p.Some? then [p.value] else []
  {
    if policies == [] {
      EmptyConcat([p]);
      assert [p][1..] == [];
      EmptyConcat(if p.Some? then [p.value] else []);
    } else {
      TailOfConcat(policies, [p]);
      FilterLast(policies[1..], p);
      ConcatAssociative(if policies[0].Some? then [policies[0].value] else [], FilterPolicies(policies[1..]),
                        if p.Some? then [p.value] else []);
    }
  }

  lemma FilterKeepsValid<W>(policies: seq<Option<Policy<W>>>)
    requires forall p <- policies :: p.Some? && p.value.decider.RetryWith? ==> p.value.decider.policy.Valid()
    ensures forall p <- FilterPolicies(policies) :: p.decider.RetryWith? ==> p.decider.policy.Valid()
  {
    var at := FilterKeepsExactly(policies);
    forall p | p in FilterPolicies(policies)
      ensures p.decider.RetryWith? ==> p.decider.policy.Valid()
    {
      var k :| 0 <= k < |at| && FilterPolicies(policies)[k] == p;
      assert policies[at[k]] in policies;
    }
  }

  /**
   * Nil policies are dropped, a nil context becomes the background one, and a nil function is refused before
   * any policy runs. `used` is what the loop runs with.
   */
  method InvokeWithPolicies<W, T>(
    ctx: Ctx, fn: Option<(W, Ctx) -> (W, T, Option<Err>)>, policies: seq<Option<Policy<W>>>, rt: Runtime<W>,
    w0: W, rounds: nat)
    returns (r: Run<W, T>, ghost used: Option<Env<W, T>>)
    requires Extreme(rt.overflow)
    requires forall p <- policies :: p.Some? && p.value.decider.RetryWith? ==> p.value.decider.policy.Valid()
    ensures fn.None? ==> r.world == w0 && r.trace == [] && r.verdict.Return? && r.verdict.value.None?
    ensures fn.None? ==> r.verdict.err == Some(Err(Annotation, [Err(Plain("invoke function is nil"), [])]))
    ensures fn.Some? <==> used.Some?
    ensures used.Some? ==> used.value.Valid() && r == RunFrom(used.value, w0, 1, rounds)
    ensures used.Some? ==> used.value.root == if ctx.NilContext? then Background else ctx
    ensures used.Some? ==> used.value.fn == fn.value && used.value.policies == FilterPolicies(policies)
    ensures used.Some? ==> used.value.rootErr == rt.rootErr && used.value.interrupted == rt.interrupted
    ensures used.Some? ==> used.value.draw == rt.draw && used.value.voted == rt.voted
    ensures used.Some? ==> used.value.overflow == rt.overflow
  {
    if fn.None? {
      return Run(w0, Return(None, Some(NIL_FUNCTION)), []), None;
    }
    FilterKeepsValid(policies);
    var env := Prepare(ctx, fn.value, policies, rt);
    r := RunLoop(env, w0, rounds);
    used := Some(env);
  }
}
