/** Every run of the engine is a run of a process: what holds of all processes holds of the engine. */
module Embedding {
  import opened Options
  import opened Sequences
  import opened Errors
  import opened Contexts
  import opened Engine
  import opened Traces
  import opened Attempts
  import opened Bulkhead
  import opened Liveness

  /** An event without the values, errors and waits that a process does not have. */
  function Erase<T>(e: Event<T>): Event<()> {
    match e
    case BeforeCall(i, ok) => BeforeCall(i, ok)
    case ExecCall(_, _) => ExecCall((), None)
    case AfterCall(i, _, _) => AfterCall(i, None, None)
    case SleepCall(_, cut) => SleepCall(0, cut)
  }

  function EraseAll<T>(trace: seq<Event<T>>): seq<Event<()>> {
    if trace == [] then [] else [Erase(trace[0])] + EraseAll(trace[1..])
  }

  lemma {:induction false} EraseConcat<T>(a: seq<Event<T>>, b: seq<Event<T>>)
    ensures EraseAll(a + b) == EraseAll(a) + EraseAll(b)
  {
    if a == [] {
      EmptyConcat(b);
    } else {
      TailOfConcat(a, b);
      EraseConcat(a[1..], b);
      ConcatAssociative([Erase(a[0])], EraseAll(a[1..]), EraseAll(b));
    }
  }

  lemma EraseOne<T>(e: Event<T>)
    ensures EraseAll([e]) == [Erase(e)]
  {
    assert [e][1..] == [];
  }

  // ---------------------------------------------------------------------------------------------
  // One process on its own
  // ---------------------------------------------------------------------------------------------

  /** A single process, with room for all its chain, at some phase of some attempt. */
  ghost predicate At(s: System, chain: seq<Slot>, most: nat, phase: Phase, attempt: nat) {
    && |s.procs| == 1 && Conserved(s) && Fits(chain, s.capacity)
    && s.procs[0] == s.procs[0].(chain := chain, maxAttempts := most, phase := phase, attempt := attempt)
  }

  /** The moves are a run that makes these calls and ends there. */
  ghost predicate Makes(s: System, moves: seq<Move>, calls: seq<Event<()>>, t: System) {
    |s.procs| == 1 && IsRun(s, moves) && After(s, moves) == t && CallsOf(s, moves, 0) == calls
  }

  lemma NoMoves(s: System)
    requires |s.procs| == 1
    ensures Makes(s, [], [], s)
  {
  }

  lemma OneMove(s: System, a: Action) returns (t: System)
    requires |s.procs| == 1 && Conserved(s) && Enabled(s, 0, a)
    ensures t == Apply(s, 0, a) && |t.procs| == 1 && t.procs[0] == Moved(s.procs[0], a) && Conserved(t)
    ensures Makes(s, [(0, a)], Heard(s.procs[0], a), t)
  {
    t := Apply(s, 0, a);
    StepConserves(s, 0, a);
    var moves: seq<Move> := [(0, a)];
    assert moves[1..] == [];
    EmptyConcat(Heard(s.procs[0], a));
  }

  function Heard(p: Process, a: Action): seq<Event<()>> {
    var e := EventOf(p, a);
    if e.Some? then [e.value] else []
  }

  lemma {:induction false} Then(
    s: System, first: seq<Move>, a: seq<Event<()>>, t: System, rest: seq<Move>, b: seq<Event<()>>, u: System)
    returns (moves: seq<Move>)
    requires Makes(s, first, a, t) && Makes(t, rest, b, u)
    ensures Makes(s, moves, a + b, u)
    decreases |first|
  {
    if first == [] {
      moves := rest;
      EmptyConcat(b);
    } else {
      var (i, act) := first[0];
      var s' := Apply(s, i, act);
      var heard := Heard(s.procs[0], act);
      var tail := Then(s', first[1..], CallsOf(s', first[1..], 0), t, rest, b, u);
      moves := [first[0]] + tail;
      assert moves[1..] == tail;
      ConcatAssociative(heard, CallsOf(s', first[1..], 0), b);
    }
  }

  lemma OneMoreMove(s: System, first: seq<Move>, calls: seq<Event<()>>, t: System, a: Action)
    returns (moves: seq<Move>, u: System)
    requires Makes(s, first, calls, t) && |t.procs| == 1 && Conserved(t) && Enabled(t, 0, a)
    ensures u == Apply(t, 0, a) && |u.procs| == 1 && u.procs[0] == Moved(t.procs[0], a) && Conserved(u)
    ensures Makes(s, moves, calls + Heard(t.procs[0], a), u)
  {
    u := OneMove(t, a);
    moves := Then(s, first, calls, t, [(0, a)], Heard(t.procs[0], a), u);
  }

  // ---------------------------------------------------------------------------------------------
  // The phases of an attempt
  // ---------------------------------------------------------------------------------------------

  lemma Enter(s: System, chain: seq<Slot>, most: nat, d: nat, attempt: nat) returns (moves: seq<Move>, t: System)
    requires At(s, chain, most, Climbing(d), attempt) && d < |chain|
    ensures Makes(s, moves, [BeforeCall(d, true)], t) && At(t, chain, most, Climbing(d + 1), attempt)
  {
    var a := if chain[d].Limiter? then Acquire else Pass;
    if chain[d].Limiter? {
      AloneSlots(s, chain[d].id);
      CountStep(chain, d, chain[d].id);
      CountGrows(chain, d + 1, chain[d].id);
    }
    t := OneMove(s, a);
    moves := [(0, a)];
  }

  lemma EnteredFirst(d: nat, k: nat)
    requires d < k
    ensures Entered<()>(d, k - d) == [BeforeCall(d, true)] + Entered<()>(d + 1, k - d - 1)
  {
  }

  lemma {:induction false} EraseEntered<T>(d: nat, k: nat)
    ensures EraseAll(Entered<T>(d, k)) == Entered<()>(d, k)
    decreases k
  {
    if k == 0 {
    } else {
      EraseEntered<T>(d + 1, k - 1);
      assert Entered<T>(d, k) == [BeforeCall(d, true)] + Entered<T>(d + 1, k - 1);
      TailOfConcat([BeforeCall(d, true)], Entered<T>(d + 1, k - 1));
      EnteredFirst(d, d + k);
    }
  }

  lemma {:induction false} Climb(s: System, chain: seq<Slot>, most: nat, d: nat, k: nat, attempt: nat)
    returns (moves: seq<Move>, t: System, calls: seq<Event<()>>)
    requires At(s, chain, most, Climbing(d), attempt) && d <= k <= |chain|
    ensures calls == Entered<()>(d, k - d)
    ensures Makes(s, moves, calls, t) && At(t, chain, most, Climbing(k), attempt)
    decreases k - d
  {
    if d == k {
      moves, t, calls := [], s, [];
      NoMoves(s);
    } else {
      var first, s' := Enter(s, chain, most, d, attempt);
      var rest, u, above := Climb(s', chain, most, d + 1, k, attempt);
      moves := Then(s, first, [BeforeCall(d, true)], s', rest, above, u);
      EnteredFirst(d, k);
      t, calls := u, [BeforeCall(d, true)] + above;
    }
  }

  /** A limiter refuses only once a context has ended, so one ends first. */
  lemma Refusal(s: System, chain: seq<Slot>, most: nat, d: nat, attempt: nat) returns (moves: seq<Move>, t: System)
    requires At(s, chain, most, Climbing(d), attempt) && d < |chain|
    ensures Makes(s, moves, [BeforeCall(d, false)], t) && At(t, chain, most, Descending(d, Refused), attempt)
  {
    if s.procs[0].attemptDone {
      t := OneMove(s, Refuse);
      moves := [(0, Refuse)];
    } else {
      var ended := OneMove(s, Expire);
      moves, t := OneMoreMove(s, [(0, Expire)], [], ended, Refuse);
      EmptyConcat<Event<()>>([BeforeCall(d, false)]);
    }
  }

  lemma Execution(s: System, chain: seq<Slot>, most: nat, failed: bool, attempt: nat)
    returns (moves: seq<Move>, t: System)
    requires At(s, chain, most, Climbing(|chain|), attempt)
    ensures Makes(s, moves, [ExecCall((), None)], t)
    ensures At(t, chain, most, Descending(|chain|, if failed then Failed else Succeeded), attempt)
  {
    var started := OneMove(s, Start);
    moves, t := OneMoreMove(s, [(0, Start)], [], started, Complete(failed));
    EmptyConcat<Event<()>>([ExecCall((), None)]);
  }

  /** The outcome that a process has when the engine has this error. */
  predicate Agrees(outcome: Outcome, err: Option<Err>) {
    if err.Some? then outcome.Refused? || outcome.Failed? else outcome.Succeeded?
  }

  lemma Leave(s: System, chain: seq<Slot>, most: nat, left: nat, outcome: Outcome, joins: bool, attempt: nat)
    returns (moves: seq<Move>, t: System)
    requires At(s, chain, most, Descending(left + 1, outcome), attempt) && left < |chain|
    requires joins ==> chain[left].Other?
    ensures Makes(s, moves, [AfterCall(left, None, None)], t)
    ensures At(t, chain, most, Descending(left, if joins && outcome.Succeeded? then Failed else outcome), attempt)
  {
    t := OneMove(s, Release(joins));
    moves := [(0, Release(joins))];
  }

  /** After of a policy that stands for a limiter reports no error. */
  ghost predicate LimitersQuiet<W(!new)>(chain: seq<Slot>, applied: seq<Policy<W>>) {
    |applied| <= |chain| && forall i :: 0 <= i < |applied| && chain[i].Limiter? ==> Quiet(applied[i])
  }

  /** The first call of an After pass, in the engine and in the process. */
  lemma DescendOne<W(!new), T>(
    s: System, chain: seq<Slot>, most: nat, outcome: Outcome, attempt: nat,
    applied: seq<Policy<W>>, w: W, ctx: Ctx, err: Option<Err>)
    returns (moves: seq<Move>, t: System, after: Outcome, w': W, joined: Option<Err>, head: seq<Event<()>>)
    requires applied != [] && At(s, chain, most, Descending(|applied|, outcome), attempt)
    requires LimitersQuiet(chain, applied) && Agrees(outcome, err)
    ensures Makes(s, moves, head, t) && At(t, chain, most, Descending(|applied| - 1, after), attempt)
    ensures Agrees(after, joined) && (after.Refused? <==> outcome.Refused?)
    ensures LimitersQuiet(chain, applied[..|applied| - 1])
    ensures var a := AfterFold<W, T>(applied, w, ctx, err);
            var rest := AfterFold<W, T>(applied[..|applied| - 1], w', ctx, joined);
            a.err == rest.err && EraseAll(a.trace) == head + EraseAll(rest.trace)
  {
    var last, w1, returned, j := AfterStep<W, T>(applied, w, ctx, err);
    assert chain[last].Limiter? ==> Quiet(applied[last]);
    w', joined := w1, j;
    moves, t := Leave(s, chain, most, last, outcome, returned.Some?, attempt);
    after := if returned.Some? && outcome.Succeeded? then Failed else outcome;
    head := [AfterCall(last, None, None)];
    var call: Event<T> := AfterCall(last, err, returned);
    EraseConcat([call], AfterFold<W, T>(applied[..last], w', ctx, joined).trace);
    EraseOne(call);
  }

  lemma {:induction false} DescendAll<W(!new), T>(
    s: System, chain: seq<Slot>, most: nat, outcome: Outcome, attempt: nat,
    applied: seq<Policy<W>>, w: W, ctx: Ctx, err: Option<Err>)
    returns (moves: seq<Move>, t: System, after: Outcome, calls: seq<Event<()>>)
    requires At(s, chain, most, Descending(|applied|, outcome), attempt)
    requires LimitersQuiet(chain, applied) && Agrees(outcome, err)
    ensures var a := AfterFold<W, T>(applied, w, ctx, err);
            && calls == EraseAll(a.trace) && Makes(s, moves, calls, t)
            && Agrees(after, a.err) && (after.Refused? <==> outcome.Refused?)
    ensures At(t, chain, most, Descending(0, after), attempt)
    decreases |applied|
  {
    if applied == [] {
      moves, t, after, calls := [], s, outcome, [];
      NoMoves(s);
    } else {
      var first, s', o, w', joined, head := DescendOne<W, T>(s, chain, most, outcome, attempt, applied, w, ctx, err);
      var rest, u, o', tail :=
        DescendAll<W, T>(s', chain, most, o, attempt, applied[..|applied| - 1], w', ctx, joined);
      moves := Then(s, first, head, s', rest, tail, u);
      t, after, calls := u, o', head + tail;
    }
  }

  lemma Sleep(s: System, chain: seq<Slot>, most: nat, cut: bool, attempt: nat) returns (moves: seq<Move>, t: System)
    requires At(s, chain, most, Descending(0, Failed), attempt) && attempt < most
    ensures Makes(s, moves, [SleepCall(0, cut)], t)
    ensures At(t, chain, most, if cut then Finished else Climbing(0), attempt + 1)
  {
    var s1 := OneMove(s, Retry);
    if cut && !s1.procs[0].rootDone {
      var before, s2 := OneMoreMove(s, [(0, Retry)], [], s1, CancelRoot);
      EmptyConcat<Event<()>>([]);
      moves, t := OneMoreMove(s, before, [], s2, Cut);
    } else {
      moves, t := OneMoreMove(s, [(0, Retry)], [], s1, if cut then Cut else Wake);
    }
    EmptyConcat<Event<()>>([SleepCall(0, cut)]);
  }

  lemma Ending(s: System, chain: seq<Slot>, most: nat, outcome: Outcome, attempt: nat)
    returns (moves: seq<Move>, t: System)
    requires At(s, chain, most, Descending(0, outcome), attempt)
    ensures Makes(s, moves, [], t) && At(t, chain, most, Finished, attempt)
  {
    t := OneMove(s, Finish);
    moves := [(0, Finish)];
  }

  // ---------------------------------------------------------------------------------------------
  // The engine
  // ---------------------------------------------------------------------------------------------

  /** The process may retry wherever the engine does. */
  ghost predicate MayRetry<W, T>(env: Env<W, T>, attempt: nat, most: nat) {
    attempt < most || (OnlyRetryPolicies(env.policies) && MostAttempts(env.policies) <= most)
  }

  /** Where the process is after an attempt of the engine. */
  ghost predicate AtEnd<T>(s: System, chain: seq<Slot>, most: nat, attempt: nat, v: Verdict<T>) {
    if v.Again? then At(s, chain, most, Climbing(0), attempt + 1)
    else At(s, chain, most, Finished, attempt) || At(s, chain, most, Finished, attempt + 1)
  }

  /** The chain of slots that stands for the policies. */
  ghost predicate StandsFor<W(!new)>(chain: seq<Slot>, policies: seq<Policy<W>>) {
    |chain| == |policies| && LimitersQuiet(chain, policies)
  }

  /** What the Before pass did, as far as a process is concerned. */
  lemma PassErased<W, T>(policies: seq<Policy<W>>, w: W, ctx: Ctx)
    returns (k: nat, refused: bool, calls: seq<Event<()>>)
    ensures var b := ApplyBefore<W, T>(policies, w, ctx, 0);
            && k == |b.applied| <= |policies| && b.applied == policies[..k]
            && (refused <==> b.err.Some?) && (refused <==> k < |policies|)
            && calls == EraseAll(b.trace)
    ensures calls == Entered<()>(0, k) + if refused then [BeforeCall(k, false)] else []
  {
    var b := ApplyBefore<W, T>(policies, w, ctx, 0);
    BeforeTrace<W, T>(policies, w, ctx, 0);
    Traces.BeforeResult<W, T>(policies, w, ctx, 0);
    k, refused, calls := |b.applied|, b.err.Some?, EraseAll(b.trace);
    EraseEntered<T>(0, k);
    var last: seq<Event<T>> := if refused then [BeforeCall(k, false)] else [];
    EraseConcat(Entered<T>(0, k), last);
    if refused {
      EraseOne<T>(BeforeCall(k, false));
    }
  }

  lemma Ascend(s: System, chain: seq<Slot>, most: nat, attempt: nat, k: nat, refused: bool)
    returns (moves: seq<Move>, t: System)
    requires At(s, chain, most, Climbing(0), attempt) && k <= |chain| && (refused <==> k < |chain|)
    ensures Makes(s, moves, Entered<()>(0, k) + if refused then [BeforeCall(k, false)] else [], t)
    ensures At(t, chain, most, if refused then Descending(k, Refused) else Climbing(|chain|), attempt)
  {
    var up, top, calls := Climb(s, chain, most, 0, k, attempt);
    if refused {
      var refusal, u := Refusal(top, chain, most, k, attempt);
      moves := Then(s, up, calls, top, refusal, [BeforeCall(k, false)], u);
      t := u;
    } else {
      moves, t := up, top;
      EmptyConcat(calls);
    }
  }

  lemma AscendTo<W, T>(s: System, chain: seq<Slot>, most: nat, attempt: nat, policies: seq<Policy<W>>, w: W, ctx: Ctx)
    returns (moves: seq<Move>, t: System, k: nat)
    requires At(s, chain, most, Climbing(0), attempt) && |chain| == |policies|
    ensures var b := ApplyBefore<W, T>(policies, w, ctx, 0);
            && k == |b.applied| <= |chain|
            && b.applied == policies[..k]
            && Makes(s, moves, EraseAll(b.trace), t)
            && At(t, chain, most, if b.err.Some? then Descending(k, Refused) else Climbing(|chain|), attempt)
  {
    var n, refused, calls := PassErased<W, T>(policies, w, ctx);
    k := n;
    moves, t := Ascend(s, chain, most, attempt, k, refused);
  }

  /** The end of an attempt that made its call: returning, or a sleep and perhaps another attempt. */
  lemma LastPhase<W, T>(
    s: System, chain: seq<Slot>, most: nat, outcome: Outcome, attempt: nat,
    env: Env<W, T>, a: Afters<W, T>, value: T, done: seq<Event<T>>)
    returns (moves: seq<Move>, t: System, calls: seq<Event<()>>)
    requires env.Valid() && MayRetry(env, attempt, most) && attempt >= 1
    requires At(s, chain, most, Descending(0, outcome), attempt) && Agrees(outcome, a.err) && !outcome.Refused?
    ensures var r := AfterAttempt(env, a, value, attempt, done);
            && EraseAll(r.trace) == EraseAll(done) + calls
            && Makes(s, moves, calls, t)
            && AtEnd(t, chain, most, attempt, r.verdict)
  {
    var r := AfterAttempt(env, a, value, attempt, done);
    var again := a.err.Some? && DecideRetry(env, a.world, attempt, a.err.value).1.retry;
    if again {
      var (w2, d) := DecideRetry(env, a.world, attempt, a.err.value);
      var (w3, sleepErr) := SleepWithContext(env, w2, d.wait);
      if OnlyRetryPolicies(env.policies) {
        assert env.policies[0..] == env.policies;
        DecideBounds(env, a.world, 0, attempt, a.err.value, Decision(false, 0), LargestDelay(env.policies));
      }
      moves, t := Sleep(s, chain, most, sleepErr.Some?, attempt);
      calls := [SleepCall(0, sleepErr.Some?)];
      var sleep: seq<Event<T>> := [SleepCall(d.wait, sleepErr.Some?)];
      EraseConcat(done, sleep);
      EraseOne<T>(SleepCall(d.wait, sleepErr.Some?));
    } else {
      moves, t := Ending(s, chain, most, outcome, attempt);
      calls := [];
      EmptyConcat(EraseAll(done));
    }
  }

  lemma RefusedAttemptMakes<W(!new), T>(
    s: System, chain: seq<Slot>, most: nat, attempt: nat, env: Env<W, T>, w: W)
    returns (moves: seq<Move>, t: System)
    requires env.Valid() && StandsFor(chain, env.policies) && At(s, chain, most, Climbing(0), attempt)
    requires ApplyBefore<W, T>(env.policies, w, env.root, 0).err.Some?
    ensures var r := Attempt(env, w, attempt);
            Makes(s, moves, EraseAll(r.trace), t) && AtEnd(t, chain, most, attempt, r.verdict)
  {
    var b := ApplyBefore<W, T>(env.policies, w, env.root, 0);
    var a := AfterFold<W, T>(b.applied, b.world, b.ctx, b.err);
    var up, s1, k := AscendTo<W, T>(s, chain, most, attempt, env.policies, w, env.root);
    var down, s2, outcome, _ :=
      DescendAll<W, T>(s1, chain, most, Refused, attempt, b.applied, b.world, b.ctx, b.err);
    var end, u := Ending(s2, chain, most, outcome, attempt);
    var first := Then(s, up, EraseAll(b.trace), s1, down, EraseAll(a.trace), s2);
    EraseConcat(b.trace, a.trace);
    EmptyConcat(EraseAll(b.trace + a.trace));
    moves := Then(s, first, EraseAll(b.trace + a.trace), s2, end, [], u);
    t := u;
  }

  lemma ExecutedAttemptMakes<W(!new), T>(
    s: System, chain: seq<Slot>, most: nat, attempt: nat, env: Env<W, T>, w: W)
    returns (moves: seq<Move>, t: System)
    requires env.Valid() && StandsFor(chain, env.policies) && At(s, chain, most, Climbing(0), attempt)
    requires MayRetry(env, attempt, most) && attempt >= 1
    requires ApplyBefore<W, T>(env.policies, w, env.root, 0).err.None?
    ensures var r := Attempt(env, w, attempt);
            Makes(s, moves, EraseAll(r.trace), t) && AtEnd(t, chain, most, attempt, r.verdict)
  {
    var b := ApplyBefore<W, T>(env.policies, w, env.root, 0);
    Traces.BeforeResult<W, T>(env.policies, w, env.root, 0);
    var (w1, value, execErr) := env.fn(b.world, b.ctx);
    var a := AfterFold<W, T>(b.applied, w1, b.ctx, execErr);
    var exec: Event<T> := ExecCall(value, execErr);
    var up, s1, k := AscendTo<W, T>(s, chain, most, attempt, env.policies, w, env.root);
    var call, s2 := Execution(s1, chain, most, execErr.Some?, attempt);
    var down, s3, outcome, _ := DescendAll<W, T>(
      s2, chain, most, if execErr.Some? then Failed else Succeeded, attempt, b.applied, w1, b.ctx, execErr);
    var done := b.trace + [exec] + a.trace;
    var last, u, calls := LastPhase(s3, chain, most, outcome, attempt, env, a, value, done);
    var m1 := Then(s, up, EraseAll(b.trace), s1, call, [ExecCall((), None)], s2);
    EraseOne(exec);
    EraseConcat(b.trace, [exec]);
    var m2 := Then(s, m1, EraseAll(b.trace + [exec]), s2, down, EraseAll(a.trace), s3);
    EraseConcat(b.trace + [exec], a.trace);
    moves := Then(s, m2, EraseAll(done), s3, last, calls, u);
    t := u;
  }

  lemma AttemptMakes<W(!new), T>(s: System, chain: seq<Slot>, most: nat, attempt: nat, env: Env<W, T>, w: W)
    returns (moves: seq<Move>, t: System, calls: seq<Event<()>>)
    requires env.Valid() && StandsFor(chain, env.policies) && At(s, chain, most, Climbing(0), attempt)
    requires MayRetry(env, attempt, most) && attempt >= 1
    ensures calls == EraseAll(StepOf(env)(w, attempt).trace) && Makes(s, moves, calls, t)
    ensures AtEnd(t, chain, most, attempt, StepOf(env)(w, attempt).verdict)
  {
    if ApplyBefore<W, T>(env.policies, w, env.root, 0).err.Some? {
      moves, t := RefusedAttemptMakes(s, chain, most, attempt, env, w);
    } else {
      moves, t := ExecutedAttemptMakes(s, chain, most, attempt, env, w);
    }
    calls := EraseAll(Attempt(env, w, attempt).trace);
  }

  /** One turn of the loop, after some calls, takes the process to its next attempt or to its end. */
  ghost predicate Turns<W, T>(
    reach: (seq<Event<()>>, System) -> bool, at: (System, nat) -> bool, done: System -> bool,
    calls: seq<Event<()>>, attempt: nat, r: Run<W, T>)
  {
    exists t :: reach(calls + EraseAll(r.trace), t) && (if r.verdict.Again? then at(t, attempt + 1) else done(t))
  }

  /** What each turn does, the whole loop does. */
  lemma {:induction false} LoopMakes<W, T>(
    reach: (seq<Event<()>>, System) -> bool, at: (System, nat) -> bool, done: System -> bool,
    step: (W, nat) -> Run<W, T>, calls: seq<Event<()>>, s: System, w: W, attempt: nat, rounds: nat, limit: nat)
    returns (t: System)
    requires forall x, a, n: nat, v :: reach(x, a) && at(a, n) && n < limit ==> Turns(reach, at, done, x, n, step(v, n))
    requires reach(calls, s) && at(s, attempt) && attempt + rounds <= limit
    ensures var r := Loop(step, w, attempt, rounds);
            reach(calls + EraseAll(r.trace), t) && (r.verdict.Return? ==> done(t))
    decreases rounds
  {
    if rounds == 0 {
      t := s;
      EmptyConcat(calls);
    } else {
      var first := step(w, attempt);
      assert Turns(reach, at, done, calls, attempt, first);
      var heard := EraseAll(first.trace);
      var u :| reach(calls + heard, u) && (if first.verdict.Again? then at(u, attempt + 1) else done(u));
      if first.verdict.Again? {
        t := LoopMakes(reach, at, done, step, calls + heard, u, first.world, attempt + 1, rounds - 1, limit);
        var rest := Loop(step, first.world, attempt + 1, rounds - 1).trace;
        EraseConcat(first.trace, rest);
        ConcatAssociative(calls, heard, EraseAll(rest));
      } else {
        t := u;
      }
    }
  }

  ghost function ReachedFrom(s: System): (seq<Event<()>>, System) -> bool {
    (calls: seq<Event<()>>, t: System) => exists moves :: Makes(s, moves, calls, t)
  }

  ghost function Starting(chain: seq<Slot>, most: nat): (System, nat) -> bool {
    (s: System, attempt: nat) => attempt >= 1 && At(s, chain, most, Climbing(0), attempt)
  }

  ghost function Ended(): System -> bool {
    (s: System) => |s.procs| == 1 && s.procs[0].phase.Finished?
  }

  lemma TurnMakes<W(!new), T>(
    s: System, calls: seq<Event<()>>, t: System, chain: seq<Slot>, most: nat, attempt: nat, env: Env<W, T>, w: W)
    requires env.Valid() && StandsFor(chain, env.policies) && MayRetry(env, attempt, most)
    requires ReachedFrom(s)(calls, t) && Starting(chain, most)(t, attempt)
    ensures Turns(ReachedFrom(s), Starting(chain, most), Ended(), calls, attempt, StepOf(env)(w, attempt))
  {
    var first :| Makes(s, first, calls, t);
    var rest, u, heard := AttemptMakes(t, chain, most, attempt, env, w);
    var moves := Then(s, first, calls, t, rest, heard, u);
    assert ReachedFrom(s)(calls + heard, u);
  }

  lemma TurnsAlways<W(!new), T>(
    s: System, reach: (seq<Event<()>>, System) -> bool, at: (System, nat) -> bool, done: System -> bool,
    step: (W, nat) -> Run<W, T>, chain: seq<Slot>, most: nat, env: Env<W, T>, limit: nat)
    requires env.Valid() && StandsFor(chain, env.policies)
    requires limit <= most || (OnlyRetryPolicies(env.policies) && MostAttempts(env.policies) <= most)
    requires reach == ReachedFrom(s) && at == Starting(chain, most) && done == Ended() && step == StepOf(env)
    ensures forall x, a, n: nat, v :: reach(x, a) && at(a, n) && n < limit ==> Turns(reach, at, done, x, n, step(v, n))
  {
    forall x, a, n: nat, v | reach(x, a) && at(a, n) && n < limit
      ensures Turns(reach, at, done, x, n, step(v, n))
    {
      TurnMakes(s, x, a, chain, most, n, env, v);
    }
  }

  lemma RunReaches<W(!new), T>(
    s: System, chain: seq<Slot>, most: nat, env: Env<W, T>, w: W, rounds: nat)
    returns (moves: seq<Move>, t: System)
    requires env.Valid() && StandsFor(chain, env.policies) && At(s, chain, most, Climbing(0), 1)
    requires rounds < most || (OnlyRetryPolicies(env.policies) && MostAttempts(env.policies) <= most)
    ensures var r := RunFrom(env, w, 1, rounds);
            Makes(s, moves, EraseAll(r.trace), t) && (r.verdict.Return? ==> Ended()(t))
  {
    var reach, at, done, step := ReachedFrom(s), Starting(chain, most), Ended(), StepOf(env);
    NoMoves(s);
    assert reach([], s);
    TurnsAlways(s, reach, at, done, step, chain, most, env, rounds + 1);
    t := LoopMakes(reach, at, done, step, [], s, w, 1, rounds, rounds + 1);
    var heard := EraseAll(Loop(step, w, 1, rounds).trace);
    EmptyConcat(heard);
    moves :| Makes(s, moves, heard, t);
  }

  lemma FreshProcess(chain: seq<Slot>, capacity: nat -> nat, most: nat) returns (s: System)
    requires Fits(chain, capacity) && forall id :: capacity(id) >= 1
    ensures s == System(capacity, multiset{}, [Process(chain, most, 1, Climbing(0), false, false)])
    ensures Initial(s) && At(s, chain, most, Climbing(0), 1)
  {
    s := System(capacity, multiset{}, [Process(chain, most, 1, Climbing(0), false, false)]);
    InitiallyConserved(s);
  }

  /**
   * Every run of the engine, values and errors aside, is made by a run of one process on its own, which has
   * finished when the engine has returned: the chain's limiters have room, and the process may start as many
   * attempts as the engine does.
   */
  lemma EngineRunIsProcessRun<W(!new), T>(
    env: Env<W, T>, w: W, rounds: nat, chain: seq<Slot>, capacity: nat -> nat, most: nat)
    returns (s: System, moves: seq<Move>)
    requires env.Valid() && StandsFor(chain, env.policies)
    requires Fits(chain, capacity) && forall id :: capacity(id) >= 1
    requires rounds < most || (OnlyRetryPolicies(env.policies) && MostAttempts(env.policies) <= most)
    ensures s == System(capacity, multiset{}, [Process(chain, most, 1, Climbing(0), false, false)])
    ensures Initial(s) && IsRun(s, moves)
    ensures CallsOf(s, moves, 0) == EraseAll(RunFrom(env, w, 1, rounds).trace)
    ensures RunFrom(env, w, 1, rounds).verdict.Return? ==>
              |After(s, moves).procs| == 1 && After(s, moves).procs[0].phase.Finished?
  {
    s := FreshProcess(chain, capacity, most);
    var t;
    moves, t := RunReaches(s, chain, most, env, w, rounds);
  }
}
