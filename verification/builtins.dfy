/** The built-in policies as engine policies: deadlines they set and contexts they release. */
module BuiltIns {
  import opened Options
  import opened Errors
  import opened Retry
  import opened Contexts
  import opened Engine
  import opened Traces
  import opened Attempts
  import opened Answers

  /**
   * The state that built-in policies read and change. `clock` and `slots` are what the next clock readings
   * and slot requests will answer; both are arbitrary.
   */
  datatype World = World(clock: nat -> int, slots: nat -> SlotAnswer, tick: nat, nextId: nat, cancelled: set<nat>)

  /** A slot, or ctx.Err() of the context that ended first. */
  datatype SlotAnswer = Granted | Cancelled | PastDeadline

  datatype BuiltIn =
    | ConcurrencyLimit
    | TimeoutGuard(timeout: int)
    | RetryOn(policy: RetryPolicy)

  function SlotError(answer: SlotAnswer): Option<Err> {
    match answer
    case Granted => None
    case Cancelled => Some(Err(Annotation, [Err(ContextCanceled, [])]))
    case PastDeadline => Some(Err(Annotation, [Err(ContextDeadlineExceeded, [])]))
  }

  function LimitBefore(w: World, ctx: Ctx): (World, BeforeResult) {
    (w.(tick := w.tick + 1), BeforeReturns(NormalizeContext(ctx), SlotError(w.slots(w.tick))))
  }

  /** Whether the parent's deadline is looser than the guard's timeout. */
  predicate Tightens(w: World, ctx: Ctx, timeout: int) {
    var deadline := Deadline(NormalizeContext(ctx));
    timeout > 0 && (deadline.None? || deadline.value - w.clock(w.tick) > timeout)
  }

  /** The clock is read once for time.Until and, when the deadline is tightened, again by WithTimeout. */
  function TimeoutBefore(timeout: int, w: World, ctx: Ctx): (World, BeforeResult) {
    var parent := NormalizeContext(ctx);
    if timeout <= 0 then (w, BeforeReturns(parent, None))
    else if !Tightens(w, ctx, timeout) then (w.(tick := w.tick + 1), BeforeReturns(parent, None))
    else
      var next := WithDeadline(parent, w.nextId, w.clock(w.tick + 1) + timeout);
      (w.(tick := w.tick + 2, nextId := w.nextId + 1), BeforeReturns(WithCancelKey(next, w.nextId), None))
  }

  function TimeoutAfter(w: World, ctx: Ctx): World {
    var cancel := InnermostCancel(ctx);
    if cancel.None? then w else w.(cancelled := w.cancelled + {cancel.value})
  }

  function AsPolicy(b: BuiltIn): Policy<World> {
    match b
    case ConcurrencyLimit =>
      Policy((w: World, ctx: Ctx) => LimitBefore(w, ctx),
             (w: World, _: Ctx, _: Option<Err>) => (w, AfterReturns(None)),
             NotDecider)
    case TimeoutGuard(timeout) =>
      Policy((w: World, ctx: Ctx) => TimeoutBefore(timeout, w, ctx),
             (w: World, ctx: Ctx, _: Option<Err>) => (TimeoutAfter(w, ctx), AfterReturns(None)),
             NotDecider)
    case RetryOn(policy) =>
      Policy((w: World, ctx: Ctx) => (w, BeforeReturns(ctx, None)),
             (w: World, _: Ctx, _: Option<Err>) => (w, AfterReturns(None)),
             RetryWith(policy))
  }

  function Chain(bs: seq<BuiltIn>): (ps: seq<Policy<World>>)
    ensures |ps| == |bs|
    ensures forall i :: 0 <= i < |bs| ==> ps[i] == AsPolicy(bs[i])
  {
    if bs == [] then [] else [AsPolicy(bs[0])] + Chain(bs[1..])
  }

  /** One Before of a built-in policy. */
  lemma BuiltInBefore(b: BuiltIn, w: World, ctx: Ctx)
    requires !ctx.NilContext?
    ensures var (w', next, err) := CallBefore(AsPolicy(b), w, ctx);
            && w' == w.(tick := w'.tick, nextId := w'.nextId)
            && !next.NilContext?
            && (if b.TimeoutGuard? && Tightens(w, ctx, b.timeout) then
                  && err.None? && w'.nextId == w.nextId + 1
                  && next == WithCancelKey(WithDeadline(ctx, w.nextId, w.clock(w.tick + 1) + b.timeout), w.nextId)
                else
                  next == ctx && w'.nextId == w.nextId)
            && (err.Some? <==> b.ConcurrencyLimit? && !w.slots(w.tick).Granted?)
            && w'.tick == w.tick + (match b
                                    case ConcurrencyLimit => 1
                                    case TimeoutGuard(t) => if t <= 0 then 0 else if Tightens(w, ctx, t) then 2 else 1
                                    case RetryOn(_) => 0)
  {
  }

  /** A refused slot answers with the error of the context that ended, inside an annotation. */
  lemma RefusedSlot(w: World, ctx: Ctx)
    requires !w.slots(w.tick).Granted?
    ensures var err := CallBefore(AsPolicy(ConcurrencyLimit), w, ctx).2;
            && err.Some?
            && Leaves(err.value)
               == [Err(if w.slots(w.tick).Cancelled? then ContextCanceled else ContextDeadlineExceeded, [])]
  {
    var leaf := Err(if w.slots(w.tick).Cancelled? then ContextCanceled else ContextDeadlineExceeded, []);
    AnnotationHolds(leaf);
    AnnotationHolds(Err(Annotation, [leaf]));
  }

  /** Only retry policies decide, each for itself. */
  lemma BuiltInDeciders(bs: seq<BuiltIn>, i: nat)
    requires i < |bs|
    ensures Chain(bs)[i].decider == if bs[i].RetryOn? then RetryWith(bs[i].policy) else NotDecider
  {
  }

  // ---------------------------------------------------------------------------------------------
  // Deadlines
  // ---------------------------------------------------------------------------------------------

  /** (clock reading + timeout) at each Before of a positive-timeout guard, up to the first failing Before. */
  function Candidates(bs: seq<BuiltIn>, w: World, ctx: Ctx): seq<int> {
    if bs == [] then []
    else
      var (w', next, err) := CallBefore(AsPolicy(bs[0]), w, ctx);
      if err.Some? then []
      else
        var own :=
          if bs[0].TimeoutGuard? && bs[0].timeout > 0 then
            [w.clock(if Tightens(w, ctx, bs[0].timeout) then w.tick + 1 else w.tick) + bs[0].timeout]
          else [];
        own + Candidates(bs[1..], w', next)
  }

  function MinDeadline(d: Option<int>, xs: seq<int>): Option<int>
    decreases xs
  {
    if xs == [] then d else MinDeadline(Earliest(d, xs[0]), xs[1..])
  }

  /** MinDeadline is a minimum: no later than its arguments, and one of them. */
  lemma {:induction false} MinDeadlineIsLeast(d: Option<int>, xs: seq<int>)
    ensures var m := MinDeadline(d, xs);
            && (forall x <- xs :: m.Some? && m.value <= x)
            && (d.Some? ==> m.Some? && m.value <= d.value)
            && (m.Some? ==> m == d || m.value in xs)
    decreases xs
  {
    if xs == [] {
    } else {
      MinDeadlineIsLeast(Earliest(d, xs[0]), xs[1..]);
      assert forall x <- xs :: x == xs[0] || x in xs[1..];
    }
  }

  lemma {:induction false} DescendsTransitively(a: Ctx, b: Ctx, c: Ctx)
    requires Descends(a, b) && Descends(b, c)
    ensures Descends(a, c)
    decreases a
  {
    if a != b {
      DescendsTransitively(a.parent, b, c);
    }
  }

  lemma {:induction false} BeforeDescends<T>(bs: seq<BuiltIn>, w: World, ctx: Ctx, index: nat)
    requires !ctx.NilContext?
    ensures Descends(ApplyBefore<World, T>(Chain(bs), w, ctx, index).ctx, ctx)
    decreases |bs|
  {
    if bs == [] {
    } else {
      var (w', next, err) := CallBefore(AsPolicy(bs[0]), w, ctx);
      BuiltInBefore(bs[0], w, ctx);
      if err.None? {
        assert Chain(bs)[1..] == Chain(bs[1..]);
        BeforeDescends<T>(bs[1..], w', next, index + 1);
        assert Descends(next, ctx);
        DescendsTransitively(ApplyBefore<World, T>(Chain(bs), w, ctx, index).ctx, next, ctx);
      }
    }
  }

  lemma {:induction false} DeadlineFold<T>(bs: seq<BuiltIn>, w: World, ctx: Ctx, index: nat)
    requires !ctx.NilContext?
    ensures Deadline(ApplyBefore<World, T>(Chain(bs), w, ctx, index).ctx)
            == MinDeadline(Deadline(ctx), Candidates(bs, w, ctx))
    decreases |bs|
  {
    if bs == [] {
    } else {
      var (w', next, err) := CallBefore(AsPolicy(bs[0]), w, ctx);
      BuiltInBefore(bs[0], w, ctx);
      if err.None? {
        assert Chain(bs)[1..] == Chain(bs[1..]);
        DeadlineFold<T>(bs[1..], w', next, index + 1);
        var rest := Candidates(bs[1..], w', next);
        if bs[0].TimeoutGuard? && bs[0].timeout > 0 {
          var own := Candidates(bs, w, ctx)[0];
          assert Candidates(bs, w, ctx) == [own] + rest;
          assert ([own] + rest)[1..] == rest;
          assert Deadline(next) == Earliest(Deadline(ctx), own);
        } else {
          assert Candidates(bs, w, ctx) == rest;
        }
      }
    }
  }

  /**
   * The context that reaches the transport (or the one kept when a Before fails) descends from the given
   * context, and its deadline is the minimum of the given deadline and every guard's own.
   */
  lemma DeadlineIsMinimum<T>(bs: seq<BuiltIn>, w: World, ctx: Ctx)
    requires !ctx.NilContext?
    ensures var reached := ApplyBefore<World, T>(Chain(bs), w, ctx, 0).ctx;
            var candidates := Candidates(bs, w, ctx);
            && Descends(reached, ctx)
            && (forall x <- candidates :: Deadline(reached).Some? && Deadline(reached).value <= x)
            && (Deadline(ctx).Some? ==> Deadline(reached).Some? && Deadline(reached).value <= Deadline(ctx).value)
            && (Deadline(reached).Some? ==> Deadline(reached) == Deadline(ctx) || Deadline(reached).value in candidates)
  {
    BeforeDescends<T>(bs, w, ctx, 0);
    DeadlineFold<T>(bs, w, ctx, 0);
    MinDeadlineIsLeast(Deadline(ctx), Candidates(bs, w, ctx));
  }

  function PositiveTimeouts(bs: seq<BuiltIn>): seq<int> {
    if bs == [] then []
    else (if bs[0].TimeoutGuard? && bs[0].timeout > 0 then [bs[0].timeout] else []) + PositiveTimeouts(bs[1..])
  }

  /** The clock stands still at `now` and every slot request is granted. */
  ghost predicate Still(w: World, now: int) {
    (forall i :: w.clock(i) == now) && (forall i :: w.slots(i).Granted?)
  }

  function Shifted(now: int, xs: seq<int>): seq<int> {
    if xs == [] then [] else [now + xs[0]] + Shifted(now, xs[1..])
  }

  lemma {:induction false} CandidatesWhenStill(bs: seq<BuiltIn>, w: World, ctx: Ctx, now: int)
    requires !ctx.NilContext? && Still(w, now)
    ensures Candidates(bs, w, ctx) == Shifted(now, PositiveTimeouts(bs))
    decreases |bs|
  {
    if bs == [] {
    } else {
      var (w', next, err) := CallBefore(AsPolicy(bs[0]), w, ctx);
      BuiltInBefore(bs[0], w, ctx);
      CandidatesWhenStill(bs[1..], w', next, now);
      if bs[0].TimeoutGuard? && bs[0].timeout > 0 {
        assert PositiveTimeouts(bs)[1..] == PositiveTimeouts(bs[1..]);
      } else {
        assert PositiveTimeouts(bs) == PositiveTimeouts(bs[1..]);
      }
    }
  }

  lemma {:induction false} ShiftedMembers(now: int, xs: seq<int>, y: int)
    ensures y in Shifted(now, xs) <==> y - now in xs
  {
    if xs == [] {
    } else {
      ShiftedMembers(now, xs[1..], y);
    }
  }

  /** With a fixed clock only the collection of positive timeouts matters, not the order of the chain. */
  lemma DeadlineOrderIndependent<T>(a: seq<BuiltIn>, b: seq<BuiltIn>, w: World, ctx: Ctx, now: int)
    requires !ctx.NilContext? && Still(w, now)
    requires multiset(PositiveTimeouts(a)) == multiset(PositiveTimeouts(b))
    ensures Deadline(ApplyBefore<World, T>(Chain(a), w, ctx, 0).ctx)
            == Deadline(ApplyBefore<World, T>(Chain(b), w, ctx, 0).ctx)
  {
    DeadlineFold<T>(a, w, ctx, 0);
    DeadlineFold<T>(b, w, ctx, 0);
    CandidatesWhenStill(a, w, ctx, now);
    CandidatesWhenStill(b, w, ctx, now);
    SameCandidates(PositiveTimeouts(a), PositiveTimeouts(b), now, Deadline(ctx));
  }

  lemma MoreCandidates(xs: seq<int>, ys: seq<int>, d: Option<int>)
    requires forall x :: x in xs ==> x in ys
    ensures MinDeadline(d, xs).Some? ==>
              MinDeadline(d, ys).Some? && MinDeadline(d, ys).value <= MinDeadline(d, xs).value
  {
    MinDeadlineIsLeast(d, xs);
    MinDeadlineIsLeast(d, ys);
    var m := MinDeadline(d, xs);
    if m.Some? && m != d {
      assert m.value in xs && m.value in ys;
    }
  }

  lemma SameCandidates(ts: seq<int>, us: seq<int>, now: int, d: Option<int>)
    requires multiset(ts) == multiset(us)
    ensures MinDeadline(d, Shifted(now, ts)) == MinDeadline(d, Shifted(now, us))
  {
    var xs, ys := Shifted(now, ts), Shifted(now, us);
    forall y
      ensures y in xs <==> y in ys
    {
      ShiftedMembers(now, ts, y);
      ShiftedMembers(now, us, y);
      assert y - now in ts <==> y - now in multiset(ts);
      assert y - now in us <==> y - now in multiset(us);
    }
    MoreCandidates(xs, ys, d);
    MoreCandidates(ys, xs, d);
  }

  // ---------------------------------------------------------------------------------------------
  // Cancellation
  // ---------------------------------------------------------------------------------------------

  ghost predicate HasGuard(bs: seq<BuiltIn>) {
    exists b <- bs :: b.TimeoutGuard?
  }

  /** Ids handed out between two worlds: the contexts that were tightened in between. */
  function Created(from: World, to: World): set<nat> {
    IdsBetween(from.nextId, to.nextId)
  }

  function IdsBetween(low: nat, high: nat): (ids: set<nat>)
    ensures forall id :: id in ids <==> low <= id < high
  {
    if high <= low then {} else IdsBetween(low, high - 1) + {high - 1}
  }

  /** What one Before does to the ids of contexts and to the innermost cancel handle. */
  lemma BeforeCreatesOne(b: BuiltIn, w: World, ctx: Ctx) returns (w': World, next: Ctx, err: Option<Err>)
    requires !ctx.NilContext?
    ensures (w', next, err) == CallBefore(AsPolicy(b), w, ctx)
    ensures !next.NilContext? && w.nextId <= w'.nextId && w'.cancelled == w.cancelled
    ensures InnermostCancel(next) == (if w'.nextId > w.nextId then Some(w'.nextId - 1) else InnermostCancel(ctx))
    ensures Ids(next) == Ids(ctx) + Created(w, w')
  {
    BuiltInBefore(b, w, ctx);
    var (w1, n, e) := CallBefore(AsPolicy(b), w, ctx);
    w', next, err := w1, n, e;
  }

  lemma CreatedConcat(a: World, b: World, c: World)
    requires a.nextId <= b.nextId <= c.nextId
    ensures Created(a, c) == Created(a, b) + Created(b, c)
  {
  }

  lemma {:induction false} BeforeCreates<T>(bs: seq<BuiltIn>, w: World, ctx: Ctx, index: nat)
    requires !ctx.NilContext?
    ensures var b := ApplyBefore<World, T>(Chain(bs), w, ctx, index);
            && w.nextId <= b.world.nextId
            && b.world.cancelled == w.cancelled
            && InnermostCancel(b.ctx)
               == (if b.world.nextId > w.nextId then Some(b.world.nextId - 1) else InnermostCancel(ctx))
            && Ids(b.ctx) == Ids(ctx) + Created(w, b.world)
    decreases |bs|
  {
    if bs == [] {
    } else {
      var w', next, err := BeforeCreatesOne(bs[0], w, ctx);
      BuiltInBefore(bs[0], w, ctx);
      if err.None? {
        assert Chain(bs)[1..] == Chain(bs[1..]);
        BeforeCreates<T>(bs[1..], w', next, index + 1);
        CreatedConcat(w, w', ApplyBefore<World, T>(Chain(bs), w, ctx, index).world);
      }
    }
  }

  /** Only guards create contexts, and a guard that created one is among the applied policies. */
  lemma {:induction false} CreatorApplied<T>(bs: seq<BuiltIn>, w: World, ctx: Ctx, index: nat)
    requires !ctx.NilContext?
    ensures var b := ApplyBefore<World, T>(Chain(bs), w, ctx, index);
            && |b.applied| <= |bs|
            && (b.world.nextId != w.nextId ==> exists i :: 0 <= i < |b.applied| && bs[i].TimeoutGuard?)
    decreases |bs|
  {
    var b := ApplyBefore<World, T>(Chain(bs), w, ctx, index);
    if bs == [] {
    } else {
      var (w', next, err) := CallBefore(AsPolicy(bs[0]), w, ctx);
      BuiltInBefore(bs[0], w, ctx);
      if err.None? {
        assert Chain(bs)[1..] == Chain(bs[1..]);
        CreatorApplied<T>(bs[1..], w', next, index + 1);
        if b.world.nextId != w'.nextId {
          var i :| 0 <= i < |b.applied| - 1 && bs[1..][i].TimeoutGuard?;
          assert bs[i + 1].TimeoutGuard?;
        } else if b.world.nextId != w.nextId {
          assert bs[0].TimeoutGuard?;
        }
      }
    }
  }

  /** One After of a built-in policy. */
  lemma BuiltInAfter(b: BuiltIn, w: World, ctx: Ctx, err: Option<Err>)
    ensures CallAfter(AsPolicy(b), w, ctx, err) == (if b.TimeoutGuard? then TimeoutAfter(w, ctx) else w, None)
  {
  }

  lemma GuardAtEnd(bs: seq<BuiltIn>)
    requires bs != []
    ensures HasGuard(bs) <==> HasGuard(bs[..|bs| - 1]) || bs[|bs| - 1].TimeoutGuard?
  {
    var last := |bs| - 1;
    assert bs == bs[..last] + [bs[last]];
  }

  lemma CancelTwice(w: World, ctx: Ctx)
    ensures TimeoutAfter(TimeoutAfter(w, ctx), ctx) == TimeoutAfter(w, ctx)
  {
  }

  /** The last policy's After, then the rest of the pass. */
  lemma BuiltInAfterStep<T>(bs: seq<BuiltIn>, w: World, ctx: Ctx, err: Option<Err>) returns (w': World)
    requires bs != []
    ensures w' == if bs[|bs| - 1].TimeoutGuard? then TimeoutAfter(w, ctx) else w
    ensures var a := AfterFold<World, T>(Chain(bs), w, ctx, err);
            var rest := AfterFold<World, T>(Chain(bs[..|bs| - 1]), w', ctx, err);
            a.err == rest.err && a.world == rest.world
  {
    var last := |bs| - 1;
    BuiltInAfter(bs[last], w, ctx, err);
    assert Chain(bs)[..last] == Chain(bs[..last]);
    w' := CallAfter(AsPolicy(bs[last]), w, ctx, err).0;
  }

  lemma {:induction false} AfterCancels<T>(bs: seq<BuiltIn>, w: World, ctx: Ctx, err: Option<Err>)
    ensures var a := AfterFold<World, T>(Chain(bs), w, ctx, err);
            a.err == err && a.world == if HasGuard(bs) then TimeoutAfter(w, ctx) else w
    decreases |bs|
  {
    if bs == [] {
    } else {
      var w' := BuiltInAfterStep<T>(bs, w, ctx, err);
      GuardAtEnd(bs);
      CancelTwice(w, ctx);
      AfterCancels<T>(bs[..|bs| - 1], w', ctx, err);
    }
  }

  /** The After pass of an attempt cancels the innermost context found from the attempt's own, if any. */
  lemma AttemptCancels<T>(bs: seq<BuiltIn>, w: World, root: Ctx, afterCall: World, err: Option<Err>)
    requires !root.NilContext? && InnermostCancel(root).None?
    ensures var b := ApplyBefore<World, T>(Chain(bs), w, root, 0);
            AfterFold<World, T>(b.applied, afterCall, b.ctx, err).world == TimeoutAfter(afterCall, b.ctx)
  {
    var b := ApplyBefore<World, T>(Chain(bs), w, root, 0);
    var k := |b.applied|;
    BeforeIsLongestPrefix<World, T>(Chain(bs), w, root, 0);
    BeforeCreates<T>(bs, w, root, 0);
    CreatorApplied<T>(bs, w, root, 0);
    assert b.applied == Chain(bs[..k]);
    AfterCancels<T>(bs[..k], afterCall, b.ctx, err);
    if b.world.nextId != w.nextId {
      var i :| 0 <= i < k && bs[i].TimeoutGuard?;
      assert bs[..k][i] in bs[..k];
    }
  }

  /**
   * After any attempt, also one cut short by a failing Before and whatever the transport did to the world
   * in between: of the contexts tightened in the attempt exactly the innermost is cancelled, nothing of the
   * root context is, and all of them are released exactly when at most one was tightened.
   */
  lemma CancelScope<T>(bs: seq<BuiltIn>, w: World, root: Ctx, afterCall: World, err: Option<Err>)
    requires !root.NilContext? && InnermostCancel(root).None?
    requires forall id <- Ids(root) :: id < w.nextId
    ensures var b := ApplyBefore<World, T>(Chain(bs), w, root, 0);
            var a := AfterFold<World, T>(b.applied, afterCall, b.ctx, err);
            var created := Created(w, b.world);
            var released := if created == {} then {} else {b.world.nextId - 1};
            && a.world == afterCall.(cancelled := afterCall.cancelled + released)
            && released <= created <= Ids(b.ctx)
            && released !! Ids(root)
            && (created <= released <==> b.world.nextId - w.nextId <= 1)
  {
    AttemptCancels<T>(bs, w, root, afterCall, err);
    BeforeCreates<T>(bs, w, root, 0);
    InnermostReleased(root, w, ApplyBefore<World, T>(Chain(bs), w, root, 0).world);
  }

  lemma InnermostReleased(root: Ctx, from: World, to: World)
    requires from.nextId <= to.nextId && forall id <- Ids(root) :: id < from.nextId
    ensures var created := Created(from, to);
            var released := if created == {} then {} else {to.nextId - 1};
            && (created == {} <==> to.nextId == from.nextId)
            && released <= created && released !! Ids(root)
            && (created <= released <==> to.nextId - from.nextId <= 1)
  {
    LastOfRange(from.nextId, to.nextId);
  }

  lemma LastOfRange(low: nat, high: nat)
    requires low <= high
    ensures IdsBetween(low, high) == {} <==> low == high
    ensures low < high ==> high - 1 in IdsBetween(low, high)
    ensures low < high ==> (IdsBetween(low, high) <= {high - 1} <==> high - low <= 1)
  {
    if low < high {
      assert low in IdsBetween(low, high);
    }
  }

  // ---------------------------------------------------------------------------------------------
  // Which chains release everything
  // ---------------------------------------------------------------------------------------------

  function Remaining(ctx: Ctx, now: int): Option<int> {
    var d := Deadline(ctx);
    if d.None? then None else Some(d.value - now)
  }

  predicate Shorter(t: int, remaining: Option<int>) {
    remaining.None? || t < remaining.value
  }

  /** Successive strict minima of a list of timeouts. */
  function Records(ts: seq<int>, remaining: Option<int>): nat {
    if ts == [] then 0
    else if Shorter(ts[0], remaining) then 1 + Records(ts[1..], Some(ts[0]))
    else Records(ts[1..], remaining)
  }

  /** The first timeout that undercuts what the caller's context has left. */
  function FirstEffective(ts: seq<int>, remaining: Option<int>): Option<int> {
    if ts == [] then None
    else if Shorter(ts[0], remaining) then Some(ts[0])
    else FirstEffective(ts[1..], remaining)
  }

  lemma {:induction false} NoRecords(ts: seq<int>, t: int)
    ensures Records(ts, Some(t)) == 0 <==> forall x <- ts :: x >= t
  {
    if ts == [] {
    } else {
      if ts[0] < t {
        assert ts[0] in ts;
      } else {
        NoRecords(ts[1..], t);
        assert forall x <- ts :: x == ts[0] || x in ts[1..];
        assert forall x <- ts[1..] :: x in ts;
      }
    }
  }

  lemma {:induction false} OneRecord(ts: seq<int>, remaining: Option<int>)
    ensures var f := FirstEffective(ts, remaining);
            && (Records(ts, remaining) <= 1 <==> f.None? || forall x <- ts :: x >= f.value)
            && (f.Some? ==> Shorter(f.value, remaining))
  {
    if ts == [] {
    } else {
      assert forall x <- ts :: x == ts[0] || x in ts[1..];
      assert forall x <- ts[1..] :: x in ts;
      if Shorter(ts[0], remaining) {
        NoRecords(ts[1..], ts[0]);
      } else {
        OneRecord(ts[1..], remaining);
      }
    }
  }

  /** The clock stands still at `now`; slots may be refused. */
  ghost predicate Standing(w: World, now: int) {
    forall i :: w.clock(i) == now
  }

  /** The policies whose Before succeeded in this attempt: all of the chain, or what is before the refused slot. */
  function Reached(bs: seq<BuiltIn>, w: World, ctx: Ctx): (reached: seq<BuiltIn>)
    ensures reached <= bs
  {
    if bs == [] then []
    else
      var (w', next, err) := CallBefore(AsPolicy(bs[0]), w, ctx);
      if err.Some? then [] else [bs[0]] + Reached(bs[1..], w', next)
  }

  lemma {:induction false} ReachedIsApplied<T>(bs: seq<BuiltIn>, w: World, ctx: Ctx, index: nat)
    ensures ApplyBefore<World, T>(Chain(bs), w, ctx, index).applied == Chain(Reached(bs, w, ctx))
    decreases |bs|
  {
    if bs == [] {
    } else {
      var (w', next, err) := CallBefore(AsPolicy(bs[0]), w, ctx);
      assert Chain(bs)[1..] == Chain(bs[1..]);
      if err.None? {
        ReachedIsApplied<T>(bs[1..], w', next, index + 1);
        assert ([bs[0]] + Reached(bs[1..], w', next))[1..] == Reached(bs[1..], w', next);
      }
    }
  }

  lemma TimeoutsCons(b: BuiltIn, rest: seq<BuiltIn>)
    ensures PositiveTimeouts([b] + rest)
            == (if b.TimeoutGuard? && b.timeout > 0 then [b.timeout] else []) + PositiveTimeouts(rest)
  {
    assert ([b] + rest)[1..] == rest;
  }

  /** One guard, or another policy, in front of a list of timeouts. */
  lemma RecordsCons(w: World, ctx: Ctx, b: BuiltIn, ts: seq<int>, now: int)
    returns (w': World, next: Ctx, err: Option<Err>)
    requires !ctx.NilContext? && Standing(w, now)
    ensures (w', next, err) == CallBefore(AsPolicy(b), w, ctx) && !next.NilContext? && Standing(w', now)
    ensures var own := if b.TimeoutGuard? && b.timeout > 0 then [b.timeout] else [];
            Records(own + ts, Remaining(ctx, now)) == w'.nextId - w.nextId + Records(ts, Remaining(next, now))
  {
    BuiltInBefore(b, w, ctx);
    var (w1, n, e) := CallBefore(AsPolicy(b), w, ctx);
    w', next, err := w1, n, e;
    if b.TimeoutGuard? && b.timeout > 0 {
      assert ([b.timeout] + ts)[1..] == ts;
      if Tightens(w, ctx, b.timeout) {
        assert Deadline(next) == Some(now + b.timeout);
        assert Remaining(next, now) == Some(b.timeout);
      }
    } else {
      assert [] + ts == ts;
    }
  }

  lemma {:induction false} TighteningsAreRecords<T>(bs: seq<BuiltIn>, w: World, ctx: Ctx, index: nat, now: int)
    requires !ctx.NilContext? && Standing(w, now)
    ensures var b := ApplyBefore<World, T>(Chain(bs), w, ctx, index);
            b.world.nextId - w.nextId == Records(PositiveTimeouts(Reached(bs, w, ctx)), Remaining(ctx, now))
    decreases |bs|
  {
    if bs == [] {
    } else {
      var (w1, next1, _) := CallBefore(AsPolicy(bs[0]), w, ctx);
      var rest := Reached(bs[1..], w1, next1);
      var w', next, err := RecordsCons(w, ctx, bs[0], PositiveTimeouts(rest), now);
      BuiltInBefore(bs[0], w, ctx);
      assert Chain(bs)[1..] == Chain(bs[1..]);
      if err.None? {
        TimeoutsCons(bs[0], rest);
        TighteningsAreRecords<T>(bs[1..], w', next, index + 1, now);
      }
    }
  }

  /**
   * With a standing clock, every context an attempt creates is released exactly when none of the guards that
   * the attempt reached has a timeout shorter than the first one that takes effect.
   */
  lemma AllReleasedExactly<T>(bs: seq<BuiltIn>, w: World, root: Ctx, afterCall: World, err: Option<Err>, now: int)
    requires !root.NilContext? && InnermostCancel(root).None? && Standing(w, now)
    requires forall id <- Ids(root) :: id < w.nextId
    requires Created(w, ApplyBefore<World, T>(Chain(bs), w, root, 0).world) !! afterCall.cancelled
    ensures var b := ApplyBefore<World, T>(Chain(bs), w, root, 0);
            var a := AfterFold<World, T>(b.applied, afterCall, b.ctx, err);
            var ts := PositiveTimeouts(Reached(bs, w, root));
            var f := FirstEffective(ts, Remaining(root, now));
            Created(w, b.world) <= a.world.cancelled <==> f.None? || forall t <- ts :: t >= f.value
  {
    CancelScope<T>(bs, w, root, afterCall, err);
    TighteningsAreRecords<T>(bs, w, root, 0, now);
    OneRecord(PositiveTimeouts(Reached(bs, w, root)), Remaining(root, now));
  }

  /** Such an attempt: the second guard is shorter, and the context of the first one stays. */
  lemma OuterContextStays<T>() returns (w: World, afters: Afters<World, T>)
    ensures var b := ApplyBefore<World, T>(Chain([TimeoutGuard(10), TimeoutGuard(5)]), w, Background, 0);
            && b.err.None?
            && afters == AfterFold<World, T>(b.applied, b.world, b.ctx, None)
            && !(Created(w, b.world) <= afters.world.cancelled)
  {
    var bs := [TimeoutGuard(10), TimeoutGuard(5)];
    w := World(_ => 0, _ => Granted, 0, 0, {});
    var b := ApplyBefore<World, T>(Chain(bs), w, Background, 0);
    afters := AfterFold<World, T>(b.applied, b.world, b.ctx, None);
    assert PositiveTimeouts(bs) == [10, 5] by {
      assert bs[1..] == [TimeoutGuard(5)] && bs[1..][1..] == [];
    }
    assert FirstEffective([10, 5], None) == Some(10) && 5 in [10, 5];
    StillSlots(bs, w, Background, 0);
    SlotsExactly<T>(bs, w, Background, 0);
    AllReached(bs, w, Background);
    BeforeCreates<T>(bs, w, Background, 0);
    assert w.cancelled == b.world.cancelled == {};
    AllReleasedExactly<T>(bs, w, Background, b.world, None, 0);
  }

  // ---------------------------------------------------------------------------------------------
  // With a clock that moves, and slots that may be refused
  // ---------------------------------------------------------------------------------------------

  ghost predicate Monotone(clock: nat -> int) {
    forall i: nat, j: nat :: i <= j ==> clock(i) <= clock(j)
  }

  /** No guard behind the first one that takes effect in this attempt is shorter than it. */
  predicate FirstIsShortest(bs: seq<BuiltIn>, w: World, ctx: Ctx) {
    if bs == [] then true
    else
      var (w', next, err) := CallBefore(AsPolicy(bs[0]), w, ctx);
      if err.Some? then true
      else if bs[0].TimeoutGuard? && Tightens(w, ctx, bs[0].timeout) then
        forall t <- PositiveTimeouts(bs[1..]) :: t >= bs[0].timeout
      else FirstIsShortest(bs[1..], w', next)
  }

  /** Time passes, so a guard that is no shorter than what was left does not take effect. */
  lemma {:induction false} NoneTightens<T>(bs: seq<BuiltIn>, w: World, ctx: Ctx, index: nat, t: int)
    requires !ctx.NilContext? && Monotone(w.clock)
    requires Deadline(ctx).Some? && Deadline(ctx).value - w.clock(w.tick) <= t
    requires forall x <- PositiveTimeouts(bs) :: x >= t
    ensures ApplyBefore<World, T>(Chain(bs), w, ctx, index).world.nextId == w.nextId
    decreases |bs|
  {
    if bs == [] {
    } else {
      var (w', next, err) := CallBefore(AsPolicy(bs[0]), w, ctx);
      BuiltInBefore(bs[0], w, ctx);
      assert Chain(bs)[1..] == Chain(bs[1..]);
      if bs[0].TimeoutGuard? && bs[0].timeout > 0 {
        assert bs[0].timeout == PositiveTimeouts(bs)[0] && bs[0].timeout in PositiveTimeouts(bs);
      }
      assert forall x <- PositiveTimeouts(bs[1..]) :: x in PositiveTimeouts(bs);
      assert w.clock(w.tick) <= w.clock(w'.tick);
      assert !(bs[0].TimeoutGuard? && Tightens(w, ctx, bs[0].timeout));
      if err.None? {
        NoneTightens<T>(bs[1..], w', next, index + 1, t);
      }
    }
  }

  lemma {:induction false} OneTightening<T>(bs: seq<BuiltIn>, w: World, ctx: Ctx, index: nat)
    requires !ctx.NilContext? && Monotone(w.clock) && FirstIsShortest(bs, w, ctx)
    ensures ApplyBefore<World, T>(Chain(bs), w, ctx, index).world.nextId <= w.nextId + 1
    decreases |bs|
  {
    if bs == [] {
    } else {
      var (w', next, err) := CallBefore(AsPolicy(bs[0]), w, ctx);
      BuiltInBefore(bs[0], w, ctx);
      assert Chain(bs)[1..] == Chain(bs[1..]);
      if err.Some? {
      } else if bs[0].TimeoutGuard? && Tightens(w, ctx, bs[0].timeout) {
        assert w.clock(w.tick + 1) <= w.clock(w'.tick);
        NoneTightens<T>(bs[1..], w', next, index + 1, bs[0].timeout);
      } else {
        OneTightening<T>(bs[1..], w', next, index + 1);
      }
    }
  }

  /** Then every context that the attempt creates is released, also when a slot is refused half way. */
  lemma ReleasedIfFirstIsShortest<T>(bs: seq<BuiltIn>, w: World, root: Ctx, afterCall: World, err: Option<Err>)
    requires !root.NilContext? && InnermostCancel(root).None?
    requires forall id <- Ids(root) :: id < w.nextId
    requires Monotone(w.clock) && FirstIsShortest(bs, w, root)
    ensures var b := ApplyBefore<World, T>(Chain(bs), w, root, 0);
            Created(w, b.world) <= AfterFold<World, T>(b.applied, afterCall, b.ctx, err).world.cancelled
  {
    CancelScope<T>(bs, w, root, afterCall, err);
    OneTightening<T>(bs, w, root, 0);
  }

  // ---------------------------------------------------------------------------------------------
  // Slots
  // ---------------------------------------------------------------------------------------------

  /** Every limiter of the chain gets its slot when its turn comes. */
  predicate AllSlots(bs: seq<BuiltIn>, w: World, ctx: Ctx) {
    if bs == [] then true
    else
      var (w', next, _) := CallBefore(AsPolicy(bs[0]), w, ctx);
      (bs[0].ConcurrencyLimit? ==> w.slots(w.tick).Granted?) && AllSlots(bs[1..], w', next)
  }

  lemma {:induction false} SlotsExactly<T>(bs: seq<BuiltIn>, w: World, ctx: Ctx, index: nat)
    requires !ctx.NilContext?
    ensures ApplyBefore<World, T>(Chain(bs), w, ctx, index).err.None? <==> AllSlots(bs, w, ctx)
    decreases |bs|
  {
    if bs == [] {
    } else {
      var (w', next, err) := CallBefore(AsPolicy(bs[0]), w, ctx);
      BuiltInBefore(bs[0], w, ctx);
      assert Chain(bs)[1..] == Chain(bs[1..]);
      if err.None? {
        SlotsExactly<T>(bs[1..], w', next, index + 1);
      }
    }
  }

  lemma {:induction false} AllReached(bs: seq<BuiltIn>, w: World, ctx: Ctx)
    requires !ctx.NilContext? && AllSlots(bs, w, ctx)
    ensures Reached(bs, w, ctx) == bs
    decreases |bs|
  {
    if bs == [] {
    } else {
      var (w', next, err) := CallBefore(AsPolicy(bs[0]), w, ctx);
      BuiltInBefore(bs[0], w, ctx);
      AllReached(bs[1..], w', next);
    }
  }

  lemma {:induction false} StillSlots(bs: seq<BuiltIn>, w: World, ctx: Ctx, now: int)
    requires !ctx.NilContext? && Still(w, now)
    ensures AllSlots(bs, w, ctx)
    decreases |bs|
  {
    if bs == [] {
    } else {
      var (w', next, err) := CallBefore(AsPolicy(bs[0]), w, ctx);
      BuiltInBefore(bs[0], w, ctx);
      StillSlots(bs[1..], w', next, now);
    }
  }

  // ---------------------------------------------------------------------------------------------
  // Whole invocations
  // ---------------------------------------------------------------------------------------------

  /** After of a built-in policy never reports an error, and only retry policies among them decide. */
  lemma BuiltInsQuiet(bs: seq<BuiltIn>)
    ensures forall p <- Chain(bs) :: Quiet(p)
    ensures OnlyRetryPolicies(Chain(bs))
  {
    forall p | p in Chain(bs)
      ensures Quiet(p) && !p.decider.CustomDecider?
    {
      var i :| 0 <= i < |bs| && Chain(bs)[i] == p;
      forall w, ctx, e
        ensures CallAfter(p, w, ctx, e).1.None?
      {
        assert p == AsPolicy(bs[i]);
      }
    }
  }

  /** Every invocation through built-in policies: bounded calls, an end, and no success lost. */
  lemma BuiltInInvocation<T>(env: Env<World, T>, bs: seq<BuiltIn>, w: World, rounds: nat)
    requires env.Valid() && env.policies == Chain(bs) && rounds >= MostAttempts(env.policies)
    ensures var r := RunFrom(env, w, 1, rounds);
            && r.verdict.Return?
            && |Calls(r.trace)| <= MostAttempts(env.policies)
            && SuccessIsLast(Calls(r.trace), r.verdict)
  {
    BuiltInsQuiet(bs);
    NoSuccessDropped(env, w, 1, rounds);
    InvocationBound(env, w, rounds);
  }

  /**
   * The attempt gets its slots, and its call fails with an error that a retry policy of the chain accepts while
   * it finds the root context live.
   */
  ghost predicate CallRetried<T>(env: Env<World, T>, bs: seq<BuiltIn>, w: World, attempt: nat)
    requires env.Valid()
  {
    var (_, execErr, a) := Descent(env, w);
    && AllSlots(bs, w, env.root)
    && execErr.Some?
    && Accepted(env, a.world, 0, attempt, execErr.value)
    && SleepsThrough(env, a.world, attempt, execErr.value)
  }

  ghost function CallsRetried<T>(env: Env<World, T>, bs: seq<BuiltIn>, most: nat): (World, nat) -> bool
    requires env.Valid()
  {
    (w: World, attempt: nat) =>
      if attempt < most then CallRetried(env, bs, w, attempt) else AllSlots(bs, w, env.root)
  }

  lemma RetriedGoesOn<T>(env: Env<World, T>, bs: seq<BuiltIn>, w: World, attempt: nat)
    requires env.Valid() && env.policies == Chain(bs) && !env.root.NilContext?
    ensures ApplyBefore<World, T>(env.policies, w, env.root, 0).err.None? <==> AllSlots(bs, w, env.root)
    ensures GoesOn(env, w, attempt) <==> CallRetried(env, bs, w, attempt)
  {
    SlotsExactly<T>(bs, w, env.root, 0);
    BuiltInsQuiet(bs);
    QuietDescent(env, w);
  }

  /**
   * For built-in policies: the call count is the largest possible exactly when, along this run, every slot
   * asked for is granted and every call but the last fails retryably with the root context live.
   */
  lemma BuiltInAttemptsExact<T>(env: Env<World, T>, bs: seq<BuiltIn>, w: World, rounds: nat)
    requires env.Valid() && env.policies == Chain(bs) && !env.root.NilContext?
    requires rounds >= MostAttempts(env.policies)
    ensures |Calls(RunFrom(env, w, 1, rounds).trace)| == MostAttempts(env.policies)
       <==> AlongRun(StepOf(env), w, 1, MostAttempts(env.policies), CallsRetried(env, bs, MostAttempts(env.policies)))
  {
    var most, step := MostAttempts(env.policies), StepOf(env);
    var persisting, retried := Persisting(env, most), CallsRetried(env, bs, most);
    BuiltInsQuiet(bs);
    AttemptsExact(env, w, rounds);
    forall w', a: nat
      ensures persisting(w', a) <==> retried(w', a)
    {
      RetriedGoesOn(env, bs, w', a);
    }
    if AlongRun(step, w, 1, most, persisting) {
      AlongRunImplies(step, w, 1, most, persisting, retried);
    }
    if AlongRun(step, w, 1, most, retried) {
      AlongRunImplies(step, w, 1, most, retried, persisting);
    }
  }

  /** The transport call, the sleep and the votes create no context of the chain's and undo no cancellation. */
  ghost predicate LeavesAlone(from: World, to: World) {
    to.clock == from.clock && to.nextId == from.nextId && from.cancelled <= to.cancelled
  }

  ghost predicate Tame<T(!new)>(env: Env<World, T>) {
    && (forall w, ctx :: LeavesAlone(w, env.fn(w, ctx).0))
    && (forall w, n :: LeavesAlone(w, env.interrupted(w, n).0))
    && (forall w, i: nat :: LeavesAlone(w, env.voted(w, i)))
  }

  /** Everything created in between has been cancelled. */
  ghost predicate Released(from: World, to: World) {
    && to.clock == from.clock
    && from.nextId <= to.nextId
    && from.cancelled <= to.cancelled
    && Created(from, to) <= to.cancelled
  }

  ghost predicate Ascending(ts: seq<int>) {
    ts == [] || ((forall t <- ts[1..] :: t >= ts[0]) && Ascending(ts[1..]))
  }

  lemma AscendingTail(bs: seq<BuiltIn>)
    requires bs != [] && Ascending(PositiveTimeouts(bs))
    ensures Ascending(PositiveTimeouts(bs[1..]))
    ensures bs[0].TimeoutGuard? && bs[0].timeout > 0 ==> forall t <- PositiveTimeouts(bs[1..]) :: t >= bs[0].timeout
  {
    var ts, rest := PositiveTimeouts(bs), PositiveTimeouts(bs[1..]);
    if bs[0].TimeoutGuard? && bs[0].timeout > 0 {
      assert ts == [bs[0].timeout] + rest && ts[1..] == rest;
    } else {
      assert ts == rest;
    }
  }

  lemma {:induction false} AscendingFirstIsShortest(bs: seq<BuiltIn>, w: World, ctx: Ctx)
    requires Ascending(PositiveTimeouts(bs))
    ensures FirstIsShortest(bs, w, ctx)
    decreases |bs|
  {
    if bs == [] {
    } else {
      var (w', next, _) := CallBefore(AsPolicy(bs[0]), w, ctx);
      AscendingTail(bs);
      AscendingFirstIsShortest(bs[1..], w', next);
    }
  }

  lemma {:induction false} BeforeKeepsClock<T>(bs: seq<BuiltIn>, w: World, ctx: Ctx, index: nat)
    requires !ctx.NilContext?
    ensures ApplyBefore<World, T>(Chain(bs), w, ctx, index).world.clock == w.clock
    decreases |bs|
  {
    if bs == [] {
    } else {
      var (w', next, err) := CallBefore(AsPolicy(bs[0]), w, ctx);
      BuiltInBefore(bs[0], w, ctx);
      assert Chain(bs)[1..] == Chain(bs[1..]);
      if err.None? {
        BeforeKeepsClock<T>(bs[1..], w', next, index + 1);
      }
    }
  }

  /** One attempt's passes, around whatever the transport did to the world. */
  lemma PassesRelease<T>(bs: seq<BuiltIn>, w: World, root: Ctx, afterCall: World, err: Option<Err>)
    requires !root.NilContext? && InnermostCancel(root).None?
    requires forall id <- Ids(root) :: id < w.nextId
    requires Monotone(w.clock) && Ascending(PositiveTimeouts(bs))
    requires LeavesAlone(ApplyBefore<World, T>(Chain(bs), w, root, 0).world, afterCall)
    ensures var b := ApplyBefore<World, T>(Chain(bs), w, root, 0);
            Released(w, AfterFold<World, T>(b.applied, afterCall, b.ctx, err).world)
  {
    AscendingFirstIsShortest(bs, w, root);
    BeforeCreates<T>(bs, w, root, 0);
    BeforeKeepsClock<T>(bs, w, root, 0);
    CancelScope<T>(bs, w, root, afterCall, err);
    ReleasedIfFirstIsShortest<T>(bs, w, root, afterCall, err);
  }

  lemma AttemptReleases<T(!new)>(env: Env<World, T>, bs: seq<BuiltIn>, w: World, attempt: nat)
    requires env.Valid() && env.policies == Chain(bs) && Tame(env) && attempt >= 1
    requires !env.root.NilContext? && InnermostCancel(env.root).None?
    requires forall id <- Ids(env.root) :: id < w.nextId
    requires Monotone(w.clock) && Ascending(PositiveTimeouts(bs))
    ensures Released(w, Attempt(env, w, attempt).world)
  {
    var b := ApplyBefore<World, T>(env.policies, w, env.root, 0);
    if b.err.Some? {
      PassesRelease<T>(bs, w, env.root, b.world, b.err);
    } else {
      var (w1, value, execErr) := env.fn(b.world, b.ctx);
      assert LeavesAlone(b.world, w1);
      PassesRelease<T>(bs, w, env.root, w1, execErr);
      var a := AfterFold<World, T>(b.applied, w1, b.ctx, execErr);
      LastStepsLeave(env, bs, a, value, attempt, b.trace + [ExecCall(value, execErr)] + a.trace);
    }
  }

  lemma {:induction false} VotesLeave<T(!new)>(
    env: Env<World, T>, w: World, i: nat, attempt: nat, err: Err, agg: Decision)
    requires env.Valid() && OnlyRetryPolicies(env.policies) && Tame(env) && i <= |env.policies|
    ensures LeavesAlone(w, DecideFrom(env, w, i, attempt, err, agg).0)
    decreases |env.policies| - i
  {
    if i == |env.policies| {
    } else {
      var (w', vote) := CallShouldRetry(env, w, i, attempt, err);
      assert !env.policies[i].decider.CustomDecider? && LeavesAlone(w, env.voted(w, i));
      var agg' := if vote.None? then agg else Decision(true, if vote.value > agg.wait then vote.value else agg.wait);
      VotesLeave(env, w', i + 1, attempt, err, agg');
    }
  }

  lemma LastStepsLeave<T(!new)>(
    env: Env<World, T>, bs: seq<BuiltIn>, a: Afters<World, T>, value: T, attempt: nat, done: seq<Event<T>>)
    requires env.Valid() && env.policies == Chain(bs) && Tame(env) && attempt >= 1
    ensures LeavesAlone(a.world, AfterAttempt(env, a, value, attempt, done).world)
  {
    BuiltInsQuiet(bs);
    if a.err.Some? {
      VotesLeave(env, a.world, 0, attempt, a.err.value, Decision(false, 0));
      var (w2, d) := DecideRetry(env, a.world, attempt, a.err.value);
      assert LeavesAlone(w2, env.interrupted(w2, d.wait).0);
    }
  }

  lemma ReleasedTransitively(a: World, b: World, c: World)
    requires Released(a, b) && Released(b, c)
    ensures Released(a, c)
  {
  }

  lemma {:induction false} LoopReleases<T>(
    step: (World, nat) -> Run<World, T>, w: World, attempt: nat, rounds: nat, low: nat)
    requires forall w': World, a: nat :: w'.clock == w.clock && w'.nextId >= low && a >= 1 ==>
               Released(w', step(w', a).world)
    requires w.nextId >= low && attempt >= 1
    ensures Released(w, Loop(step, w, attempt, rounds).world)
    decreases rounds
  {
    if rounds == 0 {
    } else {
      var first := step(w, attempt);
      assert Released(w, first.world);
      if first.verdict.Again? {
        LoopReleases(step, first.world, attempt + 1, rounds - 1, low);
        ReleasedTransitively(w, first.world, Loop(step, first.world, attempt + 1, rounds - 1).world);
      }
    }
  }

  /**
   * Guards in ascending order leave nothing behind: after any number of attempts, also ones cut short by a
   * refused slot, and with a clock that moves, every context created in the invocation has been cancelled.
   */
  lemma InvocationReleases<T(!new)>(env: Env<World, T>, bs: seq<BuiltIn>, w: World, rounds: nat)
    requires env.Valid() && env.policies == Chain(bs) && Tame(env)
    requires !env.root.NilContext? && InnermostCancel(env.root).None?
    requires forall id <- Ids(env.root) :: id < w.nextId
    requires Monotone(w.clock) && Ascending(PositiveTimeouts(bs))
    ensures Released(w, RunFrom(env, w, 1, rounds).world)
  {
    var step := StepOf(env);
    forall w': World, a: nat | w'.clock == w.clock && w'.nextId >= w.nextId && a >= 1
      ensures Released(w', step(w', a).world)
    {
      AttemptReleases(env, bs, w', a);
    }
    LoopReleases(step, w, 1, rounds, w.nextId);
  }
}
