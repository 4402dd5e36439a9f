/** What every run of the engine does, whatever its policies do: call order, errors and results. */
module Traces {
  import opened Options
  import opened Sequences
  import opened Errors
  import opened Kinds
  import opened Contexts
  import opened Engine

  // ---------------------------------------------------------------------------------------------
  // The recursive Before pass is the iterative one
  // ---------------------------------------------------------------------------------------------

  /** World and context after calling the first k policies one by one. */
  function StateBefore<W>(policies: seq<Policy<W>>, w: W, ctx: Ctx, k: nat): (W, Ctx)
    requires k <= |policies|
  {
    if k == 0 then (w, ctx)
    else
      var (w', ctx') := StateBefore(policies, w, ctx, k - 1);
      var (w'', next, _) := CallBefore(policies[k - 1], w', ctx');
      (w'', next)
  }

  lemma {:induction false} StateBeforeShift<W>(policies: seq<Policy<W>>, w: W, ctx: Ctx, k: nat)
    requires k < |policies|
    ensures var (w', next, _) := CallBefore(policies[0], w, ctx);
            StateBefore(policies, w, ctx, k + 1) == StateBefore(policies[1..], w', next, k)
  {
    if k > 0 {
      StateBeforeShift(policies, w, ctx, k - 1);
      assert policies[1..][k - 1] == policies[k];
    } else {
      assert StateBefore(policies, w, ctx, 0) == (w, ctx);
    }
  }

  function OutcomeOf<W>(policies: seq<Policy<W>>, w: W, ctx: Ctx, k: nat): (W, Ctx, Option<Err>)
    requires k < |policies|
  {
    var (w', ctx') := StateBefore(policies, w, ctx, k);
    CallBefore(policies[k], w', ctx')
  }

  function Entered<T>(index: nat, k: nat): seq<Event<T>> {
    seq(k, i requires 0 <= i => BeforeCall(index + i, true))
  }

  /** Calls 1.. of a chain are calls 0.. of its tail, in the world and context that call 0 left. */
  lemma TailOutcomes<W>(policies: seq<Policy<W>>, w: W, ctx: Ctx, i: nat)
    requires i + 1 < |policies|
    ensures var (w', next, _) := CallBefore(policies[0], w, ctx);
            OutcomeOf(policies, w, ctx, i + 1) == OutcomeOf(policies[1..], w', next, i)
  {
    StateBeforeShift(policies, w, ctx, i);
  }

  lemma {:induction false} BeforeOutcomes<W, T>(policies: seq<Policy<W>>, w: W, ctx: Ctx, index: nat)
    ensures var b := ApplyBefore<W, T>(policies, w, ctx, index);
            var k := |b.applied|;
            && k <= |policies|
            && (forall i :: 0 <= i < k ==> OutcomeOf(policies, w, ctx, i).2.None?)
            && (k < |policies| ==>
                  && b.err.Some? && b.err == OutcomeOf(policies, w, ctx, k).2
                  && b.world == OutcomeOf(policies, w, ctx, k).0)
    decreases |policies|
  {
    if policies == [] {
    } else {
      var (w', next, err) := CallBefore(policies[0], w, ctx);
      assert OutcomeOf(policies, w, ctx, 0) == (w', next, err);
      if err.None? {
        var k := |ApplyBefore<W, T>(policies, w, ctx, index).applied|;
        BeforeOutcomes<W, T>(policies[1..], w', next, index + 1);
        forall i | 0 < i <= k && i < |policies|
          ensures OutcomeOf(policies, w, ctx, i) == OutcomeOf(policies[1..], w', next, i - 1)
        {
          TailOutcomes(policies, w, ctx, i - 1);
        }
      }
    }
  }

  lemma {:induction false} BeforeResult<W, T>(policies: seq<Policy<W>>, w: W, ctx: Ctx, index: nat)
    ensures var b := ApplyBefore<W, T>(policies, w, ctx, index);
            var k := |b.applied|;
            && k <= |policies| && b.applied == policies[..k]
            && b.ctx == StateBefore(policies, w, ctx, k).1
            && (b.err.None? <==> k == |policies|)
            && (k == |policies| ==> b.world == StateBefore(policies, w, ctx, k).0)
    decreases |policies|
  {
    if policies == [] {
    } else {
      var (w', next, err) := CallBefore(policies[0], w, ctx);
      if err.None? {
        var k := |ApplyBefore<W, T>(policies, w, ctx, index).applied|;
        BeforeResult<W, T>(policies[1..], w', next, index + 1);
        StateBeforeShift(policies, w, ctx, k - 1);
        assert policies[..k] == [policies[0]] + policies[1..][..k - 1];
      }
    }
  }

  lemma {:induction false} BeforeTrace<W, T>(policies: seq<Policy<W>>, w: W, ctx: Ctx, index: nat)
    ensures var b := ApplyBefore<W, T>(policies, w, ctx, index);
            var k := |b.applied|;
            && k <= |policies|
            && b.trace == Entered<T>(index, k) + if k < |policies| then [BeforeCall(index + k, false)] else []
    decreases |policies|
  {
    if policies == [] {
    } else {
      var (w', next, err) := CallBefore(policies[0], w, ctx);
      if err.None? {
        var k := |ApplyBefore<W, T>(policies, w, ctx, index).applied|;
        BeforeTrace<W, T>(policies[1..], w', next, index + 1);
        assert Entered<T>(index, k) == [BeforeCall(index, true)] + Entered<T>(index + 1, k - 1);
      }
    }
  }

  /**
   * The recursion applies exactly the longest succeeding prefix, tries one more policy if there is one,
   * reports that policy's error, and returns the context that the prefix produced.
   */
  lemma BeforeIsLongestPrefix<W, T>(policies: seq<Policy<W>>, w: W, ctx: Ctx, index: nat)
    ensures var b := ApplyBefore<W, T>(policies, w, ctx, index);
            var k := |b.applied|;
            && k <= |policies| && b.applied == policies[..k]
            && (forall i :: 0 <= i < k ==> OutcomeOf(policies, w, ctx, i).2.None?)
            && b.ctx == StateBefore(policies, w, ctx, k).1
            && (b.err.None? <==> k == |policies|)
            && (k == |policies| ==> b.world == StateBefore(policies, w, ctx, k).0)
            && (k < |policies| ==>
                  b.err == OutcomeOf(policies, w, ctx, k).2 && b.world == OutcomeOf(policies, w, ctx, k).0)
            && b.trace == Entered<T>(index, k) + if k < |policies| then [BeforeCall(index + k, false)] else []
  {
    BeforeOutcomes<W, T>(policies, w, ctx, index);
    BeforeResult<W, T>(policies, w, ctx, index);
    BeforeTrace<W, T>(policies, w, ctx, index);
  }

  // ---------------------------------------------------------------------------------------------
  // The After pass
  // ---------------------------------------------------------------------------------------------

  /** World and error after the last j applied policies have had their After. */
  function StateAfter<W>(applied: seq<Policy<W>>, w: W, ctx: Ctx, base: Option<Err>, j: nat): (W, Option<Err>)
    requires j <= |applied|
  {
    if j == 0 then (w, base)
    else
      var (w', given) := StateAfter(applied, w, ctx, base, j - 1);
      var (w'', returned) := CallAfter(applied[|applied| - j], w', ctx, given);
      (w'', if returned.Some? then JoinErrors(given, returned) else given)
  }

  lemma {:induction false} StateAfterShift<W>(applied: seq<Policy<W>>, w: W, ctx: Ctx, base: Option<Err>, j: nat)
    requires j < |applied|
    ensures var last := |applied| - 1;
            var (w', joined) := StateAfter(applied, w, ctx, base, 1);
            StateAfter(applied, w, ctx, base, j + 1) == StateAfter(applied[..last], w', ctx, joined, j)
  {
    if j == 0 {
    } else {
      StateAfterShift(applied, w, ctx, base, j - 1);
      assert applied[..|applied| - 1][|applied| - 1 - j] == applied[|applied| - (j + 1)];
    }
  }

  function ReturnedLeaves<T>(trace: seq<Event<T>>): seq<Err> {
    if trace == [] then []
    else (if trace[0].AfterCall? then LeavesOf(trace[0].returned) else []) + ReturnedLeaves(trace[1..])
  }

  /** The After pass after its first step, and that step's event. */
  lemma AfterStep<W, T>(applied: seq<Policy<W>>, w: W, ctx: Ctx, base: Option<Err>)
    returns (last: nat, w': W, returned: Option<Err>, joined: Option<Err>)
    requires applied != []
    ensures last == |applied| - 1 && |applied[..last]| == last
    ensures (w', returned) == CallAfter(applied[last], w, ctx, base)
    ensures joined == if returned.Some? then JoinErrors(base, returned) else base
    ensures var a := AfterFold<W, T>(applied, w, ctx, base);
            var rest := AfterFold<W, T>(applied[..last], w', ctx, joined);
            && a.world == rest.world && a.err == rest.err
            && a.trace == [AfterCall(last, base, returned)] + rest.trace
            && a.trace[1..] == rest.trace
  {
    last := |applied| - 1;
    var (w1, r) := CallAfter(applied[last], w, ctx, base);
    w', returned := w1, r;
    joined := if returned.Some? then JoinErrors(base, returned) else base;
  }

  /** After runs once for each applied policy, last first; an error, once there, is never lost. */
  lemma {:induction false} AfterKeepsErrors<W, T>(applied: seq<Policy<W>>, w: W, ctx: Ctx, base: Option<Err>)
    ensures var a := AfterFold<W, T>(applied, w, ctx, base);
            && |a.trace| == |applied|
            && (forall j :: 0 <= j < |a.trace| ==> a.trace[j].AfterCall? && a.trace[j].policy == |applied| - 1 - j)
            && (forall j :: 0 <= j < |a.trace| && a.trace[j].returned.Some? ==>
                  a.err.Some? && a.trace[j].returned.value in Preorder(a.err.value))
            && (base.Some? ==> a.err.Some? && base.value in Preorder(a.err.value))
            && (a.err.None? <==> base.None? && forall j :: 0 <= j < |a.trace| ==> a.trace[j].returned.None?)
    decreases |applied|
  {
    if applied == [] {
      assert base.Some? ==> Preorder(base.value)[0] == base.value;
    } else {
      var last, w', returned, joined := AfterStep<W, T>(applied, w, ctx, base);
      var a := AfterFold<W, T>(applied, w, ctx, base);
      AfterKeepsErrors<W, T>(applied[..last], w', ctx, joined);
      JoinKeepsBoth(base, returned);
      if joined.Some? {
        SubtreeNodes(a.err.value, joined.value);
      }
      var rest := AfterFold<W, T>(applied[..last], w', ctx, joined);
      assert a.trace[0].returned == returned;
      assert forall j :: 0 < j < |a.trace| ==> a.trace[j] == rest.trace[j - 1];
      assert forall j :: 0 <= j < |rest.trace| ==> rest.trace[j] == a.trace[j + 1];
    }
  }

  /** Conservation: the attempt's error holds exactly the base error and the After errors, in call order. */
  lemma {:induction false} AfterAccumulates<W, T>(applied: seq<Policy<W>>, w: W, ctx: Ctx, base: Option<Err>)
    ensures var a := AfterFold<W, T>(applied, w, ctx, base);
            LeavesOf(a.err) == LeavesOf(base) + ReturnedLeaves(a.trace)
    decreases |applied|
  {
    if applied == [] {
    } else {
      var last, w', returned, joined := AfterStep<W, T>(applied, w, ctx, base);
      AfterAccumulates<W, T>(applied[..last], w', ctx, joined);
      JoinKeepsBoth(base, returned);
      var rest := AfterFold<W, T>(applied[..last], w', ctx, joined);
      ConcatAssociative(LeavesOf(base), LeavesOf(returned), ReturnedLeaves(rest.trace));
    }
  }

  lemma PrefixLeaves<T>(first: Event<T>, rest: seq<Event<T>>, j: nat)
    requires first.AfterCall? && 0 < j <= |rest| + 1
    ensures ReturnedLeaves(([first] + rest)[..j]) == LeavesOf(first.returned) + ReturnedLeaves(rest[..j - 1])
  {
    assert ([first] + rest)[..j] == [first] + rest[..j - 1];
    TailOfConcat([first], rest[..j - 1]);
    EmptyConcat(rest[..j - 1]);
  }

  lemma GivenAfterFirst<T>(trace: seq<Event<T>>, first: Event<T>, rest: seq<Event<T>>, joined: Option<Err>, j: nat)
    requires first.AfterCall? && trace == [first] + rest && 0 < j <= |rest| && rest[j - 1].AfterCall?
    requires LeavesOf(joined) == LeavesOf(first.given) + LeavesOf(first.returned)
    requires LeavesOf(rest[j - 1].given) == LeavesOf(joined) + ReturnedLeaves(rest[..j - 1])
    ensures trace[j].AfterCall? && LeavesOf(trace[j].given) == LeavesOf(first.given) + ReturnedLeaves(trace[..j])
  {
    PrefixLeaves(first, rest, j);
    ConcatAssociative(LeavesOf(first.given), LeavesOf(first.returned), ReturnedLeaves(rest[..j - 1]));
  }

  lemma {:induction false} AfterLength<W, T>(applied: seq<Policy<W>>, w: W, ctx: Ctx, base: Option<Err>)
    ensures |AfterFold<W, T>(applied, w, ctx, base).trace| == |applied|
    decreases |applied|
  {
    if applied == [] {
    } else {
      var last, w', returned, joined := AfterStep<W, T>(applied, w, ctx, base);
      AfterLength<W, T>(applied[..last], w', ctx, joined);
    }
  }

  /** Each After is given exactly what had accumulated when it was called. */
  lemma {:induction false} AfterGivenAccumulated<W, T>(
    applied: seq<Policy<W>>, w: W, ctx: Ctx, base: Option<Err>, j: nat)
    requires j < |applied|
    ensures var a := AfterFold<W, T>(applied, w, ctx, base);
            && |a.trace| == |applied| && a.trace[j].AfterCall?
            && LeavesOf(a.trace[j].given) == LeavesOf(base) + ReturnedLeaves(a.trace[..j])
    decreases |applied|
  {
    var last, w', returned, joined := AfterStep<W, T>(applied, w, ctx, base);
    AfterLength<W, T>(applied, w, ctx, base);
    if j == 0 {
      EmptyConcat(LeavesOf(base));
    } else {
      AfterGivenAccumulated<W, T>(applied[..last], w', ctx, joined, j - 1);
      JoinKeepsBoth(base, returned);
      var rest := AfterFold<W, T>(applied[..last], w', ctx, joined);
      var a := AfterFold<W, T>(applied, w, ctx, base);
      GivenAfterFirst(a.trace, AfterCall(last, base, returned), rest.trace, joined, j);
    }
  }

  /** The state after one more call from the end is the state of the shorter chain. */
  lemma StateAfterFirst<W, T>(applied: seq<Policy<W>>, w: W, ctx: Ctx, base: Option<Err>, j: nat)
    returns (last: nat, w': W, returned: Option<Err>, joined: Option<Err>)
    requires j < |applied|
    ensures last == |applied| - 1 && |applied[..last]| == last
    ensures StateAfter(applied, w, ctx, base, j + 1) == StateAfter(applied[..last], w', ctx, joined, j)
    ensures (w', returned) == CallAfter(applied[last], w, ctx, base)
    ensures var a := AfterFold<W, T>(applied, w, ctx, base);
            var rest := AfterFold<W, T>(applied[..last], w', ctx, joined);
            && a.world == rest.world && a.err == rest.err
            && a.trace == [AfterCall(last, base, returned)] + rest.trace
  {
    last, w', returned, joined := AfterStep<W, T>(applied, w, ctx, base);
    assert StateAfter(applied, w, ctx, base, 0) == (w, base);
    assert StateAfter(applied, w, ctx, base, 1) == (w', joined);
    StateAfterShift(applied, w, ctx, base, j);
  }

  lemma {:induction false} AfterEnd<W, T>(applied: seq<Policy<W>>, w: W, ctx: Ctx, base: Option<Err>)
    ensures var a := AfterFold<W, T>(applied, w, ctx, base);
            (a.world, a.err) == StateAfter(applied, w, ctx, base, |applied|)
    decreases |applied|
  {
    if applied == [] {
    } else {
      var last, w', returned, joined := StateAfterFirst<W, T>(applied, w, ctx, base, |applied| - 1);
      AfterEnd<W, T>(applied[..last], w', ctx, joined);
    }
  }

  lemma {:induction false} AfterCallAt<W, T>(applied: seq<Policy<W>>, w: W, ctx: Ctx, base: Option<Err>, j: nat)
    requires j < |applied|
    ensures var trace := AfterFold<W, T>(applied, w, ctx, base).trace;
            var (w', given) := StateAfter(applied, w, ctx, base, j);
            && |trace| == |applied|
            && trace[j] == AfterCall(|applied| - 1 - j, given, CallAfter(applied[|applied| - 1 - j], w', ctx, given).1)
    decreases |applied|
  {
    AfterLength<W, T>(applied, w, ctx, base);
    if j == 0 {
      var last, w', returned, joined := AfterStep<W, T>(applied, w, ctx, base);
    } else {
      var last, w', returned, joined := StateAfterFirst<W, T>(applied, w, ctx, base, j - 1);
      AfterCallAt<W, T>(applied[..last], w', ctx, joined, j - 1);
      assert applied[..last][last - j] == applied[last - j];
    }
  }

  /** Call j is made on the j-th policy from the end, in the world and with the error that the calls before it left. */
  lemma AfterIsBackwardFold<W, T>(applied: seq<Policy<W>>, w: W, ctx: Ctx, base: Option<Err>, j: nat)
    requires j <= |applied|
    ensures var a := AfterFold<W, T>(applied, w, ctx, base);
            && |a.trace| == |applied|
            && (a.world, a.err) == StateAfter(applied, w, ctx, base, |applied|)
            && (j < |applied| ==>
                  var (w', given) := StateAfter(applied, w, ctx, base, j);
                  var k := |applied| - 1 - j;
                  a.trace[j] == AfterCall(k, given, CallAfter(applied[k], w', ctx, given).1))
  {
    AfterLength<W, T>(applied, w, ctx, base);
    AfterEnd<W, T>(applied, w, ctx, base);
    if j < |applied| {
      AfterCallAt<W, T>(applied, w, ctx, base, j);
    }
  }

  /** The kind carried by an attempt's error is the kind of the transport's error, if that has one. */
  lemma {:induction false} AfterKeepsClient<W, T>(applied: seq<Policy<W>>, w: W, ctx: Ctx, base: Option<Err>)
    requires base.Some? && Has(base.value, IsClient)
    ensures var a := AfterFold<W, T>(applied, w, ctx, base);
            a.err.Some? && Find(a.err.value, IsClient) == Find(base.value, IsClient)
    decreases |applied|
  {
    if applied == [] {
    } else {
      var last := |applied| - 1;
      var (w', returned) := CallAfter(applied[last], w, ctx, base);
      var joined := if returned.Some? then JoinErrors(base, returned) else base;
      FindThroughJoin(base, returned, IsClient);
      AfterKeepsClient<W, T>(applied[..last], w', ctx, joined);
    }
  }

  // ---------------------------------------------------------------------------------------------
  // Balanced traces
  // ---------------------------------------------------------------------------------------------

  /** An attempt climbs the chain of n policies, executes at the top only, and climbs down what it climbed. */
  datatype Control =
    | Entering(depth: nat)
    | Leaving(depth: nat, mayRetry: bool)
    | Stuck

  function Advance<T>(c: Control, e: Event<T>, n: nat): Control {
    match e
    case BeforeCall(i, ok) =>
      if c == Entering(i) && i < n then (if ok then Entering(i + 1) else Leaving(i, false)) else Stuck
    case ExecCall(_, _) =>
      if c == Entering(n) then Leaving(n, true) else Stuck
    case AfterCall(i, _, _) =>
      if c.Leaving? && c.depth == i + 1 then Leaving(i, c.mayRetry) else Stuck
    case SleepCall(_, cut) =>
      if c == Leaving(0, true) then (if cut then Leaving(0, false) else Entering(0)) else Stuck
  }

  function Replay<T>(c: Control, trace: seq<Event<T>>, n: nat): Control
    decreases trace
  {
    if trace == [] then c else Replay(Advance(c, trace[0], n), trace[1..], n)
  }

  lemma {:induction false} ReplayConcat<T>(c: Control, a: seq<Event<T>>, b: seq<Event<T>>, n: nat)
    ensures Replay(c, a + b, n) == Replay(Replay(c, a, n), b, n)
    decreases a
  {
    if a == [] {
      assert a + b == b;
    } else {
      assert (a + b)[1..] == a[1..] + b;
      ReplayConcat(Advance(c, a[0], n), a[1..], b, n);
    }
  }

  lemma {:induction false} ReplayBefore<W, T>(policies: seq<Policy<W>>, w: W, ctx: Ctx, index: nat)
    ensures var b := ApplyBefore<W, T>(policies, w, ctx, index);
            var end := if b.err.Some? then Leaving(index + |b.applied|, false) else Entering(index + |policies|);
            Replay(Entering(index), b.trace, index + |policies|) == end
    ensures var b := ApplyBefore<W, T>(policies, w, ctx, index);
            b.err.None? ==> |b.applied| == |policies|
    decreases |policies|
  {
    var b := ApplyBefore<W, T>(policies, w, ctx, index);
    if policies == [] {
    } else {
      var (w', next, err) := CallBefore(policies[0], w, ctx);
      if err.Some? {
        assert b.trace[1..] == [];
      } else {
        var rest := ApplyBefore<W, T>(policies[1..], w', next, index + 1);
        ReplayBefore<W, T>(policies[1..], w', next, index + 1);
        assert b.trace[1..] == rest.trace;
      }
    }
  }

  lemma {:induction false} ReplayAfter<W, T>(
    applied: seq<Policy<W>>, w: W, ctx: Ctx, base: Option<Err>, mayRetry: bool, n: nat)
    ensures Replay(Leaving(|applied|, mayRetry), AfterFold<W, T>(applied, w, ctx, base).trace, n)
            == Leaving(0, mayRetry)
    decreases |applied|
  {
    if applied == [] {
    } else {
      var last := |applied| - 1;
      var (w', returned) := CallAfter(applied[last], w, ctx, base);
      var joined := if returned.Some? then JoinErrors(base, returned) else base;
      ReplayAfter<W, T>(applied[..last], w', ctx, joined, mayRetry, n);
      var a := AfterFold<W, T>(applied, w, ctx, base);
      assert a.trace[1..] == AfterFold<W, T>(applied[..last], w', ctx, joined).trace;
    }
  }

  lemma ReplayOne<T>(c: Control, e: Event<T>, n: nat)
    ensures Replay(c, [e], n) == Advance(c, e, n)
  {
    assert [e][1..] == [];
  }

  /** Where an attempt may leave the chain: at its foot, ready to climb again only if it goes on. */
  ghost predicate AtFoot<T>(c: Control, v: Verdict<T>) {
    if v.Again? then c == Entering(0) else c.Leaving? && c.depth == 0
  }

  lemma ReplayLastSteps<W, T>(env: Env<W, T>, a: Afters<W, T>, value: T, attempt: nat, done: seq<Event<T>>)
    requires env.Valid() && Replay(Entering(0), done, |env.policies|) == Leaving(0, true)
    ensures var r := AfterAttempt(env, a, value, attempt, done);
            AtFoot(Replay(Entering(0), r.trace, |env.policies|), r.verdict)
  {
    if a.err.Some? {
      var (w2, d) := DecideRetry(env, a.world, attempt, a.err.value);
      var (w3, sleepErr) := SleepWithContext(env, w2, d.wait);
      var sleep: Event<T> := SleepCall(d.wait, sleepErr.Some?);
      ReplayConcat(Entering(0), done, [sleep], |env.policies|);
      ReplayOne(Leaving(0, true), sleep, |env.policies|);
    }
  }

  /** Up to the top, the call, and down again. */
  lemma ReplayRound<T>(up: seq<Event<T>>, exec: Event<T>, down: seq<Event<T>>, n: nat)
    requires Replay(Entering(0), up, n) == Entering(n) && exec.ExecCall?
    requires Replay(Leaving(n, true), down, n) == Leaving(0, true)
    ensures Replay(Entering(0), up + [exec] + down, n) == Leaving(0, true)
  {
    ReplayConcat(Entering(0), up, [exec], n);
    ReplayOne(Entering(n), exec, n);
    ReplayConcat(Entering(0), up + [exec], down, n);
  }

  lemma ReplayAttempt<W, T>(env: Env<W, T>, w: W, attempt: nat)
    requires env.Valid()
    ensures var r := Attempt(env, w, attempt);
            AtFoot(Replay(Entering(0), r.trace, |env.policies|), r.verdict)
  {
    var n := |env.policies|;
    var b := ApplyBefore<W, T>(env.policies, w, env.root, 0);
    ReplayBefore<W, T>(env.policies, w, env.root, 0);
    if b.err.Some? {
      var a := AfterFold<W, T>(b.applied, b.world, b.ctx, b.err);
      ReplayAfter<W, T>(b.applied, b.world, b.ctx, b.err, false, n);
      ReplayConcat(Entering(0), b.trace, a.trace, n);
    } else {
      var (w1, value, execErr) := env.fn(b.world, b.ctx);
      var a := AfterFold<W, T>(b.applied, w1, b.ctx, execErr);
      ReplayAfter<W, T>(b.applied, w1, b.ctx, execErr, true, n);
      ReplayRound(b.trace, ExecCall(value, execErr), a.trace, n);
      ReplayLastSteps(env, a, value, attempt, b.trace + [ExecCall(value, execErr)] + a.trace);
    }
  }

  lemma {:induction false} BalancedLoop<W, T>(step: (W, nat) -> Run<W, T>, n: nat, w: W, attempt: nat, rounds: nat)
    requires forall w', a: nat :: AtFoot(Replay(Entering(0), step(w', a).trace, n), step(w', a).verdict)
    ensures var r := Loop(step, w, attempt, rounds);
            AtFoot(Replay(Entering(0), r.trace, n), r.verdict)
    decreases rounds
  {
    if rounds == 0 {
    } else {
      var first := step(w, attempt);
      if first.verdict.Again? {
        BalancedLoop(step, n, first.world, attempt + 1, rounds - 1);
        ReplayConcat(Entering(0), first.trace, Loop(step, first.world, attempt + 1, rounds - 1).trace, n);
      }
    }
  }

  /** Over every run, finished or not: the trace never leaves the climbing discipline and ends at its foot. */
  lemma BalancedRun<W, T>(env: Env<W, T>, w: W, attempt: nat, rounds: nat)
    requires env.Valid()
    ensures var r := RunFrom(env, w, attempt, rounds);
            AtFoot(Replay(Entering(0), r.trace, |env.policies|), r.verdict)
  {
    var n := |env.policies|;
    var step := StepOf(env);
    forall w', a: nat
      ensures AtFoot(Replay(Entering(0), step(w', a).trace, n), step(w', a).verdict)
    {
      ReplayAttempt(env, w', a);
    }
    BalancedLoop(step, n, w, attempt, rounds);
  }

  // ---------------------------------------------------------------------------------------------
  // Results
  // ---------------------------------------------------------------------------------------------

  datatype Call<T> = Call(value: T, err: Option<Err>)

  /** The transport calls of a trace. */
  function Calls<T>(trace: seq<Event<T>>): seq<Call<T>> {
    if trace == [] then []
    else (if trace[0].ExecCall? then [Call(trace[0].value, trace[0].err)] else []) + Calls(trace[1..])
  }

  lemma {:induction false} CallsConcat<T>(a: seq<Event<T>>, b: seq<Event<T>>)
    ensures Calls(a + b) == Calls(a) + Calls(b)
  {
    if a == [] {
      EmptyConcat(b);
    } else {
      TailOfConcat(a, b);
      CallsConcat(a[1..], b);
      ConcatAssociative(if a[0].ExecCall? then [Call(a[0].value, a[0].err)] else [], Calls(a[1..]), Calls(b));
    }
  }

  lemma {:induction false} NoCalls<T>(trace: seq<Event<T>>)
    requires forall i :: 0 <= i < |trace| ==> !trace[i].ExecCall?
    ensures Calls(trace) == []
  {
    if trace == [] {
    } else {
      NoCalls(trace[1..]);
    }
  }

  lemma OneCall<T>(before: seq<Event<T>>, value: T, err: Option<Err>, after: seq<Event<T>>)
    requires Calls(before) == [] == Calls(after)
    ensures Calls(before + [ExecCall(value, err)] + after) == [Call(value, err)]
  {
    var exec: Event<T> := ExecCall(value, err);
    assert [exec][1..] == [];
    CallsConcat(before, [exec]);
    CallsConcat(before + [exec], after);
  }

  lemma {:induction false} BeforeMakesNoCalls<W, T>(policies: seq<Policy<W>>, w: W, ctx: Ctx, index: nat)
    ensures Calls(ApplyBefore<W, T>(policies, w, ctx, index).trace) == []
  {
    BeforeIsLongestPrefix<W, T>(policies, w, ctx, index);
    NoCalls(ApplyBefore<W, T>(policies, w, ctx, index).trace);
  }

  lemma {:induction false} AfterMakesNoCalls<W, T>(applied: seq<Policy<W>>, w: W, ctx: Ctx, base: Option<Err>)
    ensures Calls(AfterFold<W, T>(applied, w, ctx, base).trace) == []
  {
    AfterKeepsErrors<W, T>(applied, w, ctx, base);
    NoCalls(AfterFold<W, T>(applied, w, ctx, base).trace);
  }

  /** An attempt stopped by Before makes no call and returns the error that the After pass built on it. */
  lemma RefusedAttempt<W, T>(env: Env<W, T>, w: W, attempt: nat)
    requires env.Valid() && ApplyBefore<W, T>(env.policies, w, env.root, 0).err.Some?
    ensures var b := ApplyBefore<W, T>(env.policies, w, env.root, 0);
            var r := Attempt(env, w, attempt);
            && Calls(r.trace) == []
            && r.verdict == Return(None, AfterFold<W, T>(b.applied, b.world, b.ctx, b.err).err)
            && r.verdict.err.Some?
  {
    var b := ApplyBefore<W, T>(env.policies, w, env.root, 0);
    BeforeMakesNoCalls<W, T>(env.policies, w, env.root, 0);
    AfterMakesNoCalls<W, T>(b.applied, b.world, b.ctx, b.err);
    AfterKeepsErrors<W, T>(b.applied, b.world, b.ctx, b.err);
    CallsConcat(b.trace, AfterFold<W, T>(b.applied, b.world, b.ctx, b.err).trace);
  }

  /** The After pass of an attempt whose Before pass succeeded. */
  function Descent<W, T>(env: Env<W, T>, w: W): (T, Option<Err>, Afters<W, T>) {
    var b := ApplyBefore<W, T>(env.policies, w, env.root, 0);
    var (w1, value, execErr) := env.fn(b.world, b.ctx);
    (value, execErr, AfterFold<W, T>(b.applied, w1, b.ctx, execErr))
  }

  lemma LastSteps<W, T>(env: Env<W, T>, a: Afters<W, T>, value: T, attempt: nat, done: seq<Event<T>>)
    requires env.Valid()
    ensures var r := AfterAttempt(env, a, value, attempt, done);
            && Calls(r.trace) == Calls(done)
            && (r.verdict.Return? ==>
                  && r.verdict.value == Some(value)
                  && (r.verdict.err.None? <==> a.err.None?)
                  && (a.err.Some? && Has(a.err.value, IsClient) ==> KindOf(r.verdict.err) == KindOf(a.err)))
            && (r.verdict.Again? ==> a.err.Some?)
  {
    if a.err.Some? {
      var (w2, d) := DecideRetry(env, a.world, attempt, a.err.value);
      if d.retry {
        var (w3, sleepErr) := SleepWithContext(env, w2, d.wait);
        var sleep: seq<Event<T>> := [SleepCall(d.wait, sleepErr.Some?)];
        NoCalls(sleep);
        CallsConcat(done, sleep);
        FindThroughJoin(a.err, sleepErr, IsClient);
      }
    }
  }

  /** An attempt that got through Before makes one call and reports its outcome. */
  lemma ExecutedAttempt<W, T>(env: Env<W, T>, w: W, attempt: nat)
    requires env.Valid() && ApplyBefore<W, T>(env.policies, w, env.root, 0).err.None?
    ensures var (value, execErr, a) := Descent(env, w);
            var r := Attempt(env, w, attempt);
            && Calls(r.trace) == [Call(value, execErr)]
            && (execErr.Some? ==> a.err.Some?)
            && (r.verdict.Return? ==> r.verdict.value == Some(value) && (r.verdict.err.None? <==> a.err.None?))
            && (r.verdict.Again? ==> a.err.Some?)
            && (execErr.Some? && Has(execErr.value, IsClient) && r.verdict.Return? ==>
                  KindOf(r.verdict.err) == KindOf(execErr))
  {
    var b := ApplyBefore<W, T>(env.policies, w, env.root, 0);
    var (w1, value, execErr) := env.fn(b.world, b.ctx);
    var a := AfterFold<W, T>(b.applied, w1, b.ctx, execErr);
    BeforeMakesNoCalls<W, T>(env.policies, w, env.root, 0);
    AfterMakesNoCalls<W, T>(b.applied, w1, b.ctx, execErr);
    AfterKeepsErrors<W, T>(b.applied, w1, b.ctx, execErr);
    OneCall(b.trace, value, execErr, a.trace);
    LastSteps(env, a, value, attempt, b.trace + [ExecCall(value, execErr)] + a.trace);
    if execErr.Some? && Has(execErr.value, IsClient) {
      AfterKeepsClient<W, T>(b.applied, w1, b.ctx, execErr);
    }
  }

  /** n annotations around an error, as the callers of the engine add them. */
  function AnnotateTimes(e: Option<Err>, n: nat): Option<Err> {
    if n == 0 then e else Annotate(AnnotateTimes(e, n - 1))
  }

  lemma {:induction false} KindThroughAnnotations(e: Option<Err>, n: nat)
    ensures KindOf(AnnotateTimes(e, n)) == KindOf(e)
  {
    if n == 0 {
    } else {
      KindThroughAnnotations(e, n - 1);
      if AnnotateTimes(e, n - 1).Some? {
        FindThroughAnnotation(AnnotateTimes(e, n - 1).value, IsClient);
      }
    }
  }

  /** The verdict reports the last call: its value and, if its error carries one, its kind. */
  ghost predicate ReportsLast<T>(calls: seq<Call<T>>, v: Verdict<T>) {
    v.Return? && v.value.Some? ==>
      && calls != []
      && var last := calls[|calls| - 1];
      && v.value == Some(last.value)
      && (last.err.Some? ==> v.err.Some?)
      && (last.err.Some? && Has(last.err.value, IsClient) ==> KindOf(v.err) == KindOf(last.err))
  }

  lemma LaterReported<T>(first: seq<Call<T>>, rest: seq<Call<T>>, v: Verdict<T>)
    requires ReportsLast(rest, v)
    ensures ReportsLast(first + rest, v)
  {
  }

  lemma {:induction false} LastReported<W, T>(step: (W, nat) -> Run<W, T>, w: W, attempt: nat, rounds: nat)
    requires forall w', a: nat :: ReportsLast(Calls(step(w', a).trace), step(w', a).verdict)
    ensures var r := Loop(step, w, attempt, rounds);
            ReportsLast(Calls(r.trace), r.verdict)
    decreases rounds
  {
    if rounds == 0 {
    } else {
      var first := step(w, attempt);
      assert ReportsLast(Calls(first.trace), first.verdict);
      if first.verdict.Again? {
        var rest := Loop(step, first.world, attempt + 1, rounds - 1);
        LastReported(step, first.world, attempt + 1, rounds - 1);
        LaterReported(Calls(first.trace), Calls(rest.trace), rest.verdict);
        CallsConcat(first.trace, rest.trace);
      }
    }
  }

  /**
   * A run that ends with the transport's error reports the kind that error carries, whatever was joined
   * to it by After errors and a cancelled sleep, and however many annotations the caller adds.
   */
  lemma KindPreserved<W, T>(env: Env<W, T>, w: W, attempt: nat, rounds: nat, annotations: nat)
    requires env.Valid()
    requires RunFrom(env, w, attempt, rounds).verdict.Return? && RunFrom(env, w, attempt, rounds).verdict.value.Some?
    ensures var r := RunFrom(env, w, attempt, rounds);
            var calls := Calls(r.trace);
            && calls != []
            && var last := calls[|calls| - 1];
            && r.verdict.value == Some(last.value)
            && (last.err.Some? ==> r.verdict.err.Some?)
            && (last.err.Some? && Has(last.err.value, IsClient) ==>
                  KindOf(AnnotateTimes(r.verdict.err, annotations)) == KindOf(last.err))
  {
    var step := StepOf(env);
    forall w', a: nat
      ensures ReportsLast(Calls(step(w', a).trace), step(w', a).verdict)
    {
      if ApplyBefore<W, T>(env.policies, w', env.root, 0).err.Some? {
        RefusedAttempt(env, w', a);
      } else {
        ExecutedAttempt(env, w', a);
      }
    }
    LastReported(step, w, attempt, rounds);
    KindThroughAnnotations(RunFrom(env, w, attempt, rounds).verdict.err, annotations);
  }

  /** After never reports an error, as is true of every built-in policy. */
  ghost predicate Quiet<W(!new)>(p: Policy<W>) {
    forall w, ctx, e :: CallAfter(p, w, ctx, e).1.None?
  }

  lemma {:induction false} QuietAfter<W(!new), T>(applied: seq<Policy<W>>, w: W, ctx: Ctx, base: Option<Err>)
    requires forall p <- applied :: Quiet(p)
    ensures AfterFold<W, T>(applied, w, ctx, base).err == base
    decreases |applied|
  {
    if applied == [] {
    } else {
      var last := |applied| - 1;
      assert Quiet(applied[last]);
      var (w', _) := CallAfter(applied[last], w, ctx, base);
      QuietAfter<W, T>(applied[..last], w', ctx, base);
    }
  }

  lemma QuietDescent<W(!new), T>(env: Env<W, T>, w: W)
    requires forall p <- env.policies :: Quiet(p)
    ensures Descent(env, w).2.err == Descent(env, w).1
  {
    BeforeIsLongestPrefix<W, T>(env.policies, w, env.root, 0);
    var b := ApplyBefore<W, T>(env.policies, w, env.root, 0);
    var (w1, _, execErr) := env.fn(b.world, b.ctx);
    QuietAfter<W, T>(b.applied, w1, b.ctx, execErr);
  }

  /** All calls but the last failed, and the run succeeded exactly when the last one did, with its value. */
  ghost predicate SuccessIsLast<T>(calls: seq<Call<T>>, v: Verdict<T>) {
    && (forall i :: 0 <= i < |calls| - 1 ==> calls[i].err.Some?)
    && (var success := calls != [] && calls[|calls| - 1].err.None?;
        && (success <==> v.Return? && v.err.None?)
        && (success ==> v.value == Some(calls[|calls| - 1].value)))
  }

  lemma FailureFirst<T>(failed: Call<T>, rest: seq<Call<T>>, v: Verdict<T>)
    requires failed.err.Some? && SuccessIsLast(rest, v)
    ensures SuccessIsLast([failed] + rest, v)
  {
    var calls := [failed] + rest;
    assert forall i :: 0 < i < |calls| ==> calls[i] == rest[i - 1];
  }

  lemma QuietAttempt<W(!new), T>(env: Env<W, T>, w: W, attempt: nat)
    requires env.Valid() && forall p <- env.policies :: Quiet(p)
    ensures var r := Attempt(env, w, attempt);
            && SuccessIsLast(Calls(r.trace), r.verdict)
            && (r.verdict.Again? ==> |Calls(r.trace)| == 1)
  {
    if ApplyBefore<W, T>(env.policies, w, env.root, 0).err.Some? {
      RefusedAttempt(env, w, attempt);
    } else {
      ExecutedAttempt(env, w, attempt);
      QuietDescent(env, w);
    }
  }

  lemma FailedAttemptFirst<T>(first: seq<Event<T>>, rest: seq<Event<T>>, v: Verdict<T>)
    requires SuccessIsLast(Calls(first), Again) && |Calls(first)| == 1
    requires SuccessIsLast(Calls(rest), v)
    ensures SuccessIsLast(Calls(first + rest), v)
  {
    CallsConcat(first, rest);
    var calls := Calls(first);
    FailureFirst(calls[0], Calls(rest), v);
    assert calls == [calls[0]];
  }

  lemma {:induction false} SuccessLastInLoop<W, T>(step: (W, nat) -> Run<W, T>, w: W, attempt: nat, rounds: nat)
    requires forall w', a: nat :: SuccessIsLast(Calls(step(w', a).trace), step(w', a).verdict)
    requires forall w', a: nat :: step(w', a).verdict.Again? ==> |Calls(step(w', a).trace)| == 1
    ensures var r := Loop(step, w, attempt, rounds);
            SuccessIsLast(Calls(r.trace), r.verdict)
    decreases rounds
  {
    if rounds == 0 {
    } else {
      var first := step(w, attempt);
      if first.verdict.Again? {
        var rest := Loop(step, first.world, attempt + 1, rounds - 1);
        SuccessLastInLoop(step, first.world, attempt + 1, rounds - 1);
        FailedAttemptFirst(first.trace, rest.trace, rest.verdict);
      }
    }
  }

  /** No success is dropped, over any run of policies whose After reports no error. */
  lemma NoSuccessDropped<W(!new), T>(env: Env<W, T>, w: W, attempt: nat, rounds: nat)
    requires env.Valid() && forall p <- env.policies :: Quiet(p)
    ensures var r := RunFrom(env, w, attempt, rounds);
            SuccessIsLast(Calls(r.trace), r.verdict)
  {
    var step := StepOf(env);
    forall w', a: nat
      ensures SuccessIsLast(Calls(step(w', a).trace), step(w', a).verdict)
      ensures step(w', a).verdict.Again? ==> |Calls(step(w', a).trace)| == 1
    {
      QuietAttempt(env, w', a);
    }
    SuccessLastInLoop(step, w, attempt, rounds);
  }
}
