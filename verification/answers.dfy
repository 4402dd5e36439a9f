/**
 * The passes and attempts of the engine in terms of what the policies, the transport and the sleep themselves
 * answer, each in the world and with the arguments that the answers before it lead to.
 */
module Answers {
  import opened Options
  import opened Sequences
  import opened Errors
  import opened Contexts
  import opened Engine
  import opened Traces

  // ---------------------------------------------------------------------------------------------
  // Before
  // ---------------------------------------------------------------------------------------------

  /** A Before that returns an error; a panic is not one. */
  predicate Refuses(r: BeforeResult) {
    r.BeforeReturns? && r.err.Some?
  }

  /** The context for what comes next: the one returned, the previous one instead of nil, none after a panic. */
  function NextContext(r: BeforeResult, ctx: Ctx): Ctx {
    match r
    case BeforePanics => NilContext
    case BeforeReturns(NilContext, _) => ctx
    case BeforeReturns(c, _) => c
  }

  /** World and context once the first k policies have answered. */
  function BeforeState<W>(policies: seq<Policy<W>>, w: W, ctx: Ctx, k: nat): (W, Ctx)
    requires k <= |policies|
  {
    if k == 0 then (w, ctx)
    else
      var (w', ctx') := BeforeState(policies, w, ctx, k - 1);
      var (w'', r) := policies[k - 1].before(w', ctx');
      (w'', NextContext(r, ctx'))
  }

  function BeforeAnswer<W>(policies: seq<Policy<W>>, w: W, ctx: Ctx, k: nat): (W, BeforeResult)
    requires k < |policies|
  {
    var (w', ctx') := BeforeState(policies, w, ctx, k);
    policies[k].before(w', ctx')
  }

  lemma {:induction false} BeforeStateAgrees<W>(policies: seq<Policy<W>>, w: W, ctx: Ctx, k: nat)
    requires k <= |policies|
    ensures StateBefore(policies, w, ctx, k) == BeforeState(policies, w, ctx, k)
  {
    if k == 0 {
    } else {
      BeforeStateAgrees(policies, w, ctx, k - 1);
    }
  }

  lemma OutcomeAgrees<W>(policies: seq<Policy<W>>, w: W, ctx: Ctx, k: nat)
    requires k < |policies|
    ensures var (w', r) := BeforeAnswer(policies, w, ctx, k);
            var outcome := OutcomeOf(policies, w, ctx, k);
            && outcome.0 == w'
            && outcome.2 == if Refuses(r) then Some(Err(Annotation, [r.err.value])) else None
  {
    BeforeStateAgrees(policies, w, ctx, k);
    var (w1, ctx1) := BeforeState(policies, w, ctx, k);
    var (w2, r) := policies[k].before(w1, ctx1);
    assert BeforeAnswer(policies, w, ctx, k) == (w2, r);
    var o := CallBefore(policies[k], w1, ctx1);
    assert o.0 == w2;
    assert o.2 == if Refuses(r) then Some(Err(Annotation, [r.err.value])) else None;
    assert OutcomeOf(policies, w, ctx, k) == o;
  }

  lemma AnnotationHolds(e: Err)
    ensures e in Preorder(Err(Annotation, [e])) && Leaves(Err(Annotation, [e])) == Leaves(e)
  {
    assert [e][1..] == [];
    assert Preorder(e)[0] == e;
    assert PreorderAll([e]) == Preorder(e) + PreorderAll([]);
    assert LeavesAll([e]) == Leaves(e) + LeavesAll([]);
  }

  /**
   * The Before pass stops exactly at the first policy whose Before returns an error, and reports that error; a
   * panic counts as success; the context is the last one returned that is not nil.
   */
  lemma BeforePassExactly<W, T>(policies: seq<Policy<W>>, w: W, ctx: Ctx, index: nat)
    ensures var b := ApplyBefore<W, T>(policies, w, ctx, index);
            var k := |b.applied|;
            && k <= |policies| && b.applied == policies[..k]
            && (forall i :: 0 <= i < k ==> !Refuses(BeforeAnswer(policies, w, ctx, i).1))
            && (b.err.Some? <==> k < |policies|)
            && b.ctx == BeforeState(policies, w, ctx, k).1
            && (k == |policies| ==> b.world == BeforeState(policies, w, ctx, k).0)
            && (k < |policies| ==>
                  var (w', r) := BeforeAnswer(policies, w, ctx, k);
                  && Refuses(r) && b.world == w'
                  && r.err.value in Preorder(b.err.value) && Leaves(b.err.value) == Leaves(r.err.value))
  {
    BeforeIsLongestPrefix<W, T>(policies, w, ctx, index);
    var b := ApplyBefore<W, T>(policies, w, ctx, index);
    var k := |b.applied|;
    BeforeStateAgrees(policies, w, ctx, k);
    forall i | 0 <= i < k
      ensures !Refuses(BeforeAnswer(policies, w, ctx, i).1)
    {
      OutcomeAgrees(policies, w, ctx, i);
    }
    if k < |policies| {
      OutcomeAgrees(policies, w, ctx, k);
      var (_, r) := BeforeAnswer(policies, w, ctx, k);
      AnnotationHolds(r.err.value);
    }
  }

  // ---------------------------------------------------------------------------------------------
  // After
  // ---------------------------------------------------------------------------------------------

  /** The error that an After reports; a panic reports none. */
  function Reported(r: AfterResult): Option<Err> {
    if r.AfterReturns? then r.err else None
  }

  /** World and accumulated error once the last j applied policies have answered. */
  function AfterState<W>(applied: seq<Policy<W>>, w: W, ctx: Ctx, base: Option<Err>, j: nat): (W, Option<Err>)
    requires j <= |applied|
  {
    if j == 0 then (w, base)
    else
      var (w', given) := AfterState(applied, w, ctx, base, j - 1);
      var (w'', r) := applied[|applied| - j].after(w', ctx, given);
      var e := Reported(r);
      (w'', if e.Some? then JoinErrors(given, Some(Err(Annotation, [e.value]))) else given)
  }

  /** What the policy that comes j-th in the pass answers. */
  function AfterAnswer<W>(applied: seq<Policy<W>>, w: W, ctx: Ctx, base: Option<Err>, j: nat): (r: AfterResult)
    requires j < |applied|
  {
    var (w', given) := AfterState(applied, w, ctx, base, j);
    applied[|applied| - 1 - j].after(w', ctx, given).1
  }

  lemma {:induction false} AfterStateAgrees<W>(applied: seq<Policy<W>>, w: W, ctx: Ctx, base: Option<Err>, j: nat)
    requires j <= |applied|
    ensures StateAfter(applied, w, ctx, base, j) == AfterState(applied, w, ctx, base, j)
  {
    if j == 0 {
    } else {
      AfterStateAgrees(applied, w, ctx, base, j - 1);
    }
  }

  /** All that the first j answers reported, with the base error in front. */
  function ReportedLeaves<W>(applied: seq<Policy<W>>, w: W, ctx: Ctx, base: Option<Err>, j: nat): seq<Err>
    requires j <= |applied|
  {
    if j == 0 then LeavesOf(base)
    else ReportedLeaves(applied, w, ctx, base, j - 1) + LeavesOf(Reported(AfterAnswer(applied, w, ctx, base, j - 1)))
  }

  /** What has been joined stays: one more answer adds its own error to what was there. */
  lemma AfterStateStep<W>(applied: seq<Policy<W>>, w: W, ctx: Ctx, base: Option<Err>, j: nat)
    requires j < |applied|
    ensures var e := Reported(AfterAnswer(applied, w, ctx, base, j));
            var before, after := AfterState(applied, w, ctx, base, j).1, AfterState(applied, w, ctx, base, j + 1).1;
            && LeavesOf(after) == LeavesOf(before) + LeavesOf(e)
            && (after.None? <==> before.None? && e.None?)
            && (before.Some? ==> before.value in Preorder(after.value))
            && (e.Some? ==> e.value in Preorder(after.value))
  {
    var e := Reported(AfterAnswer(applied, w, ctx, base, j));
    var before := AfterState(applied, w, ctx, base, j).1;
    if e.Some? {
      AnnotationHolds(e.value);
      var annotated := Err(Annotation, [e.value]);
      JoinKeepsBoth(before, Some(annotated));
      SubtreeNodes(JoinErrors(before, Some(annotated)).value, annotated);
    } else {
      EmptyConcat(LeavesOf(before));
      if before.Some? {
        assert Preorder(before.value)[0] == before.value;
      }
    }
  }

  /** The error after some answers: the base error and what was reported, and nothing else. */
  ghost predicate Accumulated(e: Option<Err>, base: Option<Err>, reported: seq<Option<Err>>) {
    && (e.None? <==> base.None? && forall i :: 0 <= i < |reported| ==> reported[i].None?)
    && (base.Some? ==> base.value in Preorder(e.value))
    && (forall i :: 0 <= i < |reported| && reported[i].Some? ==> reported[i].value in Preorder(e.value))
  }

  /** The errors that the first j answers report. */
  function AllReported<W>(applied: seq<Policy<W>>, w: W, ctx: Ctx, base: Option<Err>, j: nat): (es: seq<Option<Err>>)
    requires j <= |applied|
    ensures |es| == j
    ensures forall i :: 0 <= i < j ==> es[i] == Reported(AfterAnswer(applied, w, ctx, base, i))
  {
    if j == 0 then []
    else AllReported(applied, w, ctx, base, j - 1) + [Reported(AfterAnswer(applied, w, ctx, base, j - 1))]
  }

  lemma AccumulateOne(
    before: Option<Err>, after: Option<Err>, base: Option<Err>, reported: seq<Option<Err>>, e: Option<Err>)
    requires Accumulated(before, base, reported)
    requires after.None? <==> before.None? && e.None?
    requires before.Some? ==> before.value in Preorder(after.value)
    requires e.Some? ==> e.value in Preorder(after.value)
    ensures Accumulated(after, base, reported + [e])
  {
    var all := reported + [e];
    assert all[|reported|] == e;
    assert forall i :: 0 <= i < |reported| ==> all[i] == reported[i];
    if before.Some? {
      SubtreeNodes(after.value, before.value);
    }
  }

  lemma {:induction false} AfterStateHolds<W>(applied: seq<Policy<W>>, w: W, ctx: Ctx, base: Option<Err>, j: nat)
    requires j <= |applied|
    ensures var e := AfterState(applied, w, ctx, base, j).1;
            && LeavesOf(e) == ReportedLeaves(applied, w, ctx, base, j)
            && Accumulated(e, base, AllReported(applied, w, ctx, base, j))
  {
    if j == 0 {
      if base.Some? {
        assert Preorder(base.value)[0] == base.value;
      }
    } else {
      AfterStateHolds(applied, w, ctx, base, j - 1);
      AfterStateStep(applied, w, ctx, base, j - 1);
      AccumulateOne(AfterState(applied, w, ctx, base, j - 1).1, AfterState(applied, w, ctx, base, j).1, base,
                    AllReported(applied, w, ctx, base, j - 1), Reported(AfterAnswer(applied, w, ctx, base, j - 1)));
    }
  }

  /**
   * The After pass asks every applied policy, last first, and ends without an error exactly when it began
   * without one and every policy answered nil or panicked; every error that a policy answered is inside, and
   * with the base error nothing else.
   */
  lemma AfterPassExactly<W, T>(applied: seq<Policy<W>>, w: W, ctx: Ctx, base: Option<Err>)
    ensures var a := AfterFold<W, T>(applied, w, ctx, base);
            var n := |applied|;
            && |a.trace| == n
            && (a.world, a.err) == AfterState(applied, w, ctx, base, n)
            && (forall j :: 0 <= j < n ==>
                  && a.trace[j].AfterCall? && a.trace[j].policy == n - 1 - j
                  && a.trace[j].given == AfterState(applied, w, ctx, base, j).1
                  && (a.trace[j].returned.Some? <==> Reported(AfterAnswer(applied, w, ctx, base, j)).Some?))
            && Accumulated(a.err, base, AllReported(applied, w, ctx, base, n))
            && LeavesOf(a.err) == ReportedLeaves(applied, w, ctx, base, n)
  {
    var n := |applied|;
    AfterIsBackwardFold<W, T>(applied, w, ctx, base, n);
    AfterStateAgrees(applied, w, ctx, base, n);
    AfterStateHolds(applied, w, ctx, base, n);
    var a := AfterFold<W, T>(applied, w, ctx, base);
    forall j | 0 <= j < n
      ensures a.trace[j].AfterCall? && a.trace[j].policy == n - 1 - j
      ensures a.trace[j].given == AfterState(applied, w, ctx, base, j).1
      ensures a.trace[j].returned.Some? <==> Reported(AfterAnswer(applied, w, ctx, base, j)).Some?
    {
      AfterIsBackwardFold<W, T>(applied, w, ctx, base, j);
      AfterStateAgrees(applied, w, ctx, base, j);
    }
  }

  // ---------------------------------------------------------------------------------------------
  // One attempt
  // ---------------------------------------------------------------------------------------------

  /** The end of a sleep: of no length, run through, or cut short by the root context. */
  ghost predicate Slept<W, T>(env: Env<W, T>, w: W, wait: int, value: T, err: Err, r: Run<W, T>) {
    if wait <= 0 then r.world == w && r.verdict.Again?
    else
      var (w', cut) := env.interrupted(w, wait);
      && r.world == w'
      && (r.verdict.Again? <==> cut.None?)
      && (cut.Some? ==>
            && r.verdict.value == Some(value) && r.verdict.err.Some?
            && err in Preorder(r.verdict.err.value) && cut.value in Preorder(r.verdict.err.value)
            && Leaves(r.verdict.err.value) == Leaves(err) + Leaves(cut.value))
  }

  /** What happens once an attempt has ended with an error: it is returned, or the engine sleeps. */
  ghost predicate Settled<W, T>(env: Env<W, T>, w: W, attempt: nat, value: T, err: Err, r: Run<W, T>)
    requires env.Valid()
  {
    var (w', d) := DecideRetry(env, w, attempt, err);
    if d.retry then
      && Slept(env, w', d.wait, value, err, r)
      && r.trace != [] && r.trace[|r.trace| - 1] == SleepCall(d.wait, r.verdict.Return?)
    else
      && r.world == w' && r.verdict == Return(Some(value), Some(err))
      && (r.trace != [] ==> !r.trace[|r.trace| - 1].SleepCall?)
  }

  lemma CutSleep(err: Err, cut: Err)
    ensures var joined := JoinErrors(Some(err), Some(Err(Annotation, [cut])));
            && joined.Some?
            && err in Preorder(joined.value) && cut in Preorder(joined.value)
            && Leaves(joined.value) == Leaves(err) + Leaves(cut)
  {
    var annotated := Err(Annotation, [cut]);
    JoinKeepsBoth(Some(err), Some(annotated));
    AnnotationHolds(cut);
    SubtreeNodes(JoinErrors(Some(err), Some(annotated)).value, annotated);
  }

  lemma SettledAfterAttempt<W, T>(env: Env<W, T>, a: Afters<W, T>, value: T, attempt: nat, done: seq<Event<T>>)
    requires env.Valid() && a.err.Some? && done != [] && !done[|done| - 1].SleepCall?
    ensures Settled(env, a.world, attempt, value, a.err.value, AfterAttempt(env, a, value, attempt, done))
  {
    var (w', d) := DecideRetry(env, a.world, attempt, a.err.value);
    if d.retry && d.wait > 0 {
      var (w'', cut) := env.interrupted(w', d.wait);
      if cut.Some? {
        CutSleep(a.err.value, cut.value);
      }
    }
  }

  /** An attempt that a Before refuses: no call, and that Before's error inside the one returned. */
  lemma RefusedAttemptExactly<W, T>(env: Env<W, T>, w: W, attempt: nat)
    requires env.Valid()
    requires ApplyBefore<W, T>(env.policies, w, env.root, 0).err.Some?
    ensures var k := |ApplyBefore<W, T>(env.policies, w, env.root, 0).applied|;
            && k < |env.policies|
            && var refusal := BeforeAnswer(env.policies, w, env.root, k).1;
            && var r := Attempt(env, w, attempt);
            && Refuses(refusal) && Calls(r.trace) == []
            && r.verdict.Return? && r.verdict.value.None? && r.verdict.err.Some?
            && refusal.err.value in Preorder(r.verdict.err.value)
            && (forall j :: 0 <= j < k ==>
                  var b := ApplyBefore<W, T>(env.policies, w, env.root, 0);
                  var e := Reported(AfterAnswer(b.applied, b.world, b.ctx, b.err, j));
                  e.Some? ==> e.value in Preorder(r.verdict.err.value))
  {
    BeforePassExactly<W, T>(env.policies, w, env.root, 0);
    RefusedAttempt(env, w, attempt);
    var b := ApplyBefore<W, T>(env.policies, w, env.root, 0);
    AfterPassExactly<W, T>(b.applied, b.world, b.ctx, b.err);
    SubtreeNodes(Attempt(env, w, attempt).verdict.err.value, b.err.value);
  }

  /**
   * An attempt in which no Before refuses: the transport is called in the world and context that the Before
   * answers lead to, every policy is asked to clean up, and the attempt succeeds exactly when the transport did
   * and every policy answered nil or panicked.
   */
  lemma ExecutedAttemptExactly<W, T>(env: Env<W, T>, w: W, attempt: nat)
    requires env.Valid()
    requires forall i :: 0 <= i < |env.policies| ==> !Refuses(BeforeAnswer(env.policies, w, env.root, i).1)
    ensures var n := |env.policies|;
            var (w0, ctx) := BeforeState(env.policies, w, env.root, n);
            var (w1, value, execErr) := env.fn(w0, ctx);
            var (w2, err) := AfterState(env.policies, w1, ctx, execErr, n);
            var r := Attempt(env, w, attempt);
            && Calls(r.trace) == [Call(value, execErr)]
            && Accumulated(err, execErr, AllReported(env.policies, w1, ctx, execErr, n))
            && (if err.None? then r.world == w2 && r.verdict == Return(Some(value), None)
                else Settled(env, w2, attempt, value, err.value, r))
  {
    var n := |env.policies|;
    var b := ApplyBefore<W, T>(env.policies, w, env.root, 0);
    BeforePassExactly<W, T>(env.policies, w, env.root, 0);
    assert b.applied == env.policies;
    var (w1, value, execErr) := env.fn(b.world, b.ctx);
    AfterPassExactly<W, T>(b.applied, w1, b.ctx, execErr);
    ExecutedAttempt(env, w, attempt);
    var a := AfterFold<W, T>(b.applied, w1, b.ctx, execErr);
    var done := b.trace + [ExecCall(value, execErr)] + a.trace;
    if a.err.Some? {
      assert a.trace == [] ==> done[|done| - 1] == ExecCall(value, execErr);
      assert a.trace != [] ==> done[|done| - 1] == a.trace[|a.trace| - 1];
      SettledAfterAttempt(env, a, value, attempt, done);
    }
  }

  /** With no policies a run is one call, in the world and with the context given, whatever comes of it. */
  lemma NoPoliciesOneCall<W, T>(env: Env<W, T>, w: W, rounds: nat)
    requires env.Valid() && env.policies == [] && rounds > 0
    ensures var (w', value, err) := env.fn(w, env.root);
            RunFrom(env, w, 1, rounds) == Run(w', Return(Some(value), err), [ExecCall(value, err)])
  {
    var (w', value, err) := env.fn(w, env.root);
    var exec: seq<Event<T>> := [ExecCall(value, err)];
    assert [] + exec + [] == exec;
    assert StepOf(env)(w, 1) == Run(w', Return(Some(value), err), exec);
  }
}
