/**
 * The concurrency limiter, and any number of invocations taking interleaved steps over shared limiters.
 */
module Bulkhead {
  import opened Options
  import opened Engine
  import opened Traces

  function Capacity(maxInFlight: int): nat {
    if maxInFlight <= 0 then 1 else maxInFlight
  }

  /** Receiving from the channel, or falling through to the default case when it is empty. */
  function Released(inFlight: nat): nat {
    if inFlight == 0 then 0 else inFlight - 1
  }

  /** The channel `sem`: its buffer size and how many tokens are in it. */
  class ConcurrencyLimiter {
    const capacity: nat
    var inFlight: nat

    ghost predicate Valid()
      reads this
    {
      1 <= capacity && inFlight <= capacity
    }

    constructor (maxInFlight: int)
      ensures Valid() && inFlight == 0
      ensures maxInFlight >= 1 ==> capacity == maxInFlight
      ensures maxInFlight < 1 ==> capacity == 1
    {
      capacity := Capacity(maxInFlight);
      inFlight := 0;
    }

    /**
     * The select of Before, once one of its cases is ready; with both ready either may be taken, as
     * `preferSlot` decides.
     */
    method Before(ctxDone: bool, preferSlot: bool) returns (acquired: bool)
      requires Valid() && (inFlight < capacity || ctxDone)
      modifies this`inFlight
      ensures Valid()
      ensures acquired ==> old(inFlight) < capacity && inFlight == old(inFlight) + 1
      ensures !acquired ==> ctxDone && inFlight == old(inFlight)
      ensures old(inFlight) < capacity && (preferSlot || !ctxDone) ==> acquired
    {
      acquired := inFlight < capacity && (preferSlot || !ctxDone);
      if acquired {
        inFlight := inFlight + 1;
      }
    }

    /** Releases a slot; an empty channel is left alone. */
    method After()
      requires Valid()
      modifies this`inFlight
      ensures Valid() && inFlight == Released(old(inFlight))
    {
      if inFlight > 0 {
        inFlight := inFlight - 1;
      }
    }
  }

  // ---------------------------------------------------------------------------------------------
  // Processes
  // ---------------------------------------------------------------------------------------------

  /** A policy of a chain: a limiter, which may be shared, or anything else. */
  datatype Slot = Limiter(id: nat) | Other

  datatype Outcome = Refused | Failed | Succeeded

  /** Where an invocation is; a depth counts the policies whose Before succeeded and whose After is still due. */
  datatype Phase =
    | Climbing(depth: nat)
    | Executing
    | Descending(left: nat, outcome: Outcome)
    | Sleeping
    | Finished

  datatype Process = Process(
    chain: seq<Slot>, maxAttempts: nat, attempt: nat, phase: Phase, attemptDone: bool, rootDone: bool)

  datatype System = System(capacity: nat -> nat, slots: multiset<nat>, procs: seq<Process>)

  datatype Action =
    | Acquire            // Before of a limiter sends its token
    | Pass               // Before of another policy succeeds or panics
    | Refuse             // Before fails
    | Start | Complete(failed: bool)
    | Release(joins: bool) // After of the top policy; `joins` when it reports an error
    | Retry | Wake | Cut | Finish
    | Expire             // the attempt's context ends
    | CancelRoot         // the caller's context ends

  function Depth(p: Process): nat {
    match p.phase
    case Climbing(d) => d
    case Executing => |p.chain|
    case Descending(d, _) => d
    case Sleeping => 0
    case Finished => 0
  }

  /** How often a limiter occurs among some slots. */
  function Count(slots: seq<Slot>, id: nat): nat {
    if slots == [] then 0
    else Count(slots[..|slots| - 1], id) + if slots[|slots| - 1] == Limiter(id) then 1 else 0
  }

  ghost predicate WellPlaced(p: Process) {
    Depth(p) <= |p.chain|
  }

  /** The tokens a process has in a limiter: its occurrences in the part of the chain the process has climbed. */
  function Held(p: Process, id: nat): nat {
    if Depth(p) <= |p.chain| then Count(p.chain[..Depth(p)], id) else 0
  }

  function Total(procs: seq<Process>, id: nat): nat {
    if procs == [] then 0 else Held(procs[0], id) + Total(procs[1..], id)
  }

  predicate Facing(p: Process) {
    p.phase.Climbing? && p.phase.depth < |p.chain|
  }

  predicate Enabled(s: System, i: nat, a: Action)
    requires i < |s.procs|
  {
    var p := s.procs[i];
    match a
    case Acquire => Facing(p) && p.chain[p.phase.depth].Limiter?
                    && s.slots[p.chain[p.phase.depth].id] < s.capacity(p.chain[p.phase.depth].id)
    case Pass => Facing(p) && p.chain[p.phase.depth].Other?
    case Refuse => Facing(p) && (p.chain[p.phase.depth].Limiter? ==> p.attemptDone || p.rootDone)
    case Start => p.phase == Climbing(|p.chain|)
    case Complete(_) => p.phase.Executing?
    case Release(joins) => p.phase.Descending? && 0 < p.phase.left <= |p.chain|
                           && (joins ==> p.chain[p.phase.left - 1].Other?)
    case Retry => p.phase == Descending(0, Failed) && p.attempt < p.maxAttempts
    case Wake => p.phase.Sleeping?
    case Cut => p.phase.Sleeping? && p.rootDone
    case Finish => p.phase.Descending? && p.phase.left == 0
    case Expire => !p.phase.Finished? && !p.attemptDone
    case CancelRoot => !p.phase.Finished? && !p.rootDone
  }

  function Moved(p: Process, a: Action): Process {
    match a
    case Acquire => p.(phase := Climbing(Depth(p) + 1))
    case Pass => p.(phase := Climbing(Depth(p) + 1))
    case Refuse => p.(phase := Descending(Depth(p), Refused))
    case Start => p.(phase := Executing)
    case Complete(failed) => p.(phase := Descending(|p.chain|, if failed then Failed else Succeeded))
    case Release(joins) =>
      if p.phase.Descending? && p.phase.left > 0 then
        p.(phase := Descending(
             p.phase.left - 1, if joins && p.phase.outcome.Succeeded? then Failed else p.phase.outcome))
      else p
    case Retry => p.(phase := Sleeping, attempt := p.attempt + 1, attemptDone := p.rootDone)
    case Wake => p.(phase := Climbing(0))
    case Cut => p.(phase := Finished)
    case Finish => p.(phase := Finished)
    case Expire => p.(attemptDone := true)
    case CancelRoot => p.(rootDone := true)
  }

  /** Acquire adds a token; After takes one out if there is one. */
  function SlotsAfter(slots: multiset<nat>, p: Process, a: Action): multiset<nat> {
    match a
    case Acquire =>
      if Facing(p) && p.chain[p.phase.depth].Limiter? then slots + multiset{p.chain[p.phase.depth].id} else slots
    case Release(_) =>
      if p.phase.Descending? && 0 < p.phase.left <= |p.chain| && p.chain[p.phase.left - 1].Limiter? then
        slots - multiset{p.chain[p.phase.left - 1].id}
      else slots
    case _ => slots
  }

  function Apply(s: System, i: nat, a: Action): System
    requires i < |s.procs|
  {
    var p := s.procs[i];
    s.(slots := SlotsAfter(s.slots, p, a), procs := s.procs[i := Moved(p, a)])
  }

  /** The system's limiters behave as ConcurrencyLimiter objects, each untouched by steps that do not face it. */
  lemma SlotsFollowLimiter(s: System, i: nat, a: Action, id: nat)
    requires i < |s.procs| && Enabled(s, i, a)
    ensures var p := s.procs[i];
            var n, n' := s.slots[id], SlotsAfter(s.slots, p, a)[id];
            if a.Acquire? && p.chain[p.phase.depth] == Limiter(id) then n < s.capacity(id) && n' == n + 1
            else if a.Release? && p.chain[p.phase.left - 1] == Limiter(id) then n' == Released(n)
            else n' == n
  {
    if a.Release? && s.procs[i].chain[s.procs[i].phase.left - 1] == Limiter(id) {
      assert (s.slots - multiset{id})[id] == Released(s.slots[id]);
    }
  }

  type Move = (nat, Action)

  ghost predicate IsRun(s: System, moves: seq<Move>)
    decreases |moves|
  {
    moves == [] ||
    (moves[0].0 < |s.procs| && Enabled(s, moves[0].0, moves[0].1) &&
     IsRun(Apply(s, moves[0].0, moves[0].1), moves[1..]))
  }

  function After(s: System, moves: seq<Move>): System
    decreases |moves|
  {
    if moves == [] then s
    else if moves[0].0 < |s.procs| then After(Apply(s, moves[0].0, moves[0].1), moves[1..])
    else s
  }

  ghost predicate Initial(s: System) {
    && s.slots == multiset{}
    && (forall p <- s.procs :: p.phase == Climbing(0) && p.attempt == 1)
    && (forall id :: s.capacity(id) >= 1)
  }

  // ---------------------------------------------------------------------------------------------
  // Slot conservation
  // ---------------------------------------------------------------------------------------------

  /** Every limiter's occupancy is exactly what the processes hold in it, and within its capacity. */
  ghost predicate Conserved(s: System) {
    && (forall id :: s.slots[id] == Total(s.procs, id) <= s.capacity(id))
    && (forall i :: 0 <= i < |s.procs| ==> WellPlaced(s.procs[i]))
  }

  lemma {:induction false} TotalUpdate(procs: seq<Process>, i: nat, p: Process, id: nat)
    requires i < |procs|
    ensures Total(procs[i := p], id) == Total(procs, id) - Held(procs[i], id) + Held(p, id)
    ensures Held(procs[i], id) <= Total(procs, id)
  {
    if i == 0 {
      assert procs[i := p][1..] == procs[1..];
    } else {
      TotalUpdate(procs[1..], i - 1, p, id);
      assert procs[i := p][1..] == procs[1..][i - 1 := p];
    }
  }

  lemma CountStep(chain: seq<Slot>, d: nat, id: nat)
    requires d < |chain|
    ensures Count(chain[..d + 1], id) == Count(chain[..d], id) + if chain[d] == Limiter(id) then 1 else 0
  {
    assert chain[..d + 1][..d] == chain[..d];
  }

  /** A step changes an occupancy by exactly what it changes the holdings of the process that takes it. */
  lemma StepExchange(s: System, i: nat, a: Action, id: nat)
    requires i < |s.procs| && Enabled(s, i, a) && WellPlaced(s.procs[i])
    requires Held(s.procs[i], id) <= s.slots[id]
    ensures var p := s.procs[i];
            && WellPlaced(Moved(p, a))
            && SlotsAfter(s.slots, p, a)[id] + Held(p, id) == s.slots[id] + Held(Moved(p, a), id)
  {
    var p := s.procs[i];
    if Facing(p) {
      CountStep(p.chain, p.phase.depth, id);
    } else if p.phase.Descending? && p.phase.left > 0 {
      CountStep(p.chain, p.phase.left - 1, id);
    }
  }

  lemma StepConserves(s: System, i: nat, a: Action)
    requires Conserved(s) && i < |s.procs| && Enabled(s, i, a)
    ensures Conserved(Apply(s, i, a))
  {
    var p := s.procs[i];
    var s' := Apply(s, i, a);
    forall id
      ensures s'.slots[id] == Total(s'.procs, id) <= s.capacity(id)
    {
      TotalUpdate(s.procs, i, Moved(p, a), id);
      StepExchange(s, i, a, id);
    }
    StepExchange(s, i, a, 0) by {
      TotalUpdate(s.procs, i, p, 0);
    }
  }

  lemma InitiallyConserved(s: System)
    requires Initial(s)
    ensures Conserved(s)
  {
    forall id
      ensures Total(s.procs, id) == 0
    {
      NothingHeld(s.procs, id);
    }
  }

  lemma {:induction false} NothingHeld(procs: seq<Process>, id: nat)
    requires forall i :: 0 <= i < |procs| ==> Depth(procs[i]) == 0
    ensures Total(procs, id) == 0
  {
    if procs == [] {
    } else {
      assert procs[0].chain[..0] == [];
      NothingHeld(procs[1..], id);
    }
  }

  lemma {:induction false} RunConserves(s: System, moves: seq<Move>)
    requires Conserved(s) && IsRun(s, moves)
    ensures Conserved(After(s, moves)) && |After(s, moves).procs| == |s.procs| && After(s, moves).capacity == s.capacity
    decreases |moves|
  {
    if moves == [] {
    } else {
      StepConserves(s, moves[0].0, moves[0].1);
      RunConserves(Apply(s, moves[0].0, moves[0].1), moves[1..]);
    }
  }

  /** A limiter that the process is about to release holds a token. */
  ghost predicate ReleaseFindsToken(p: Process, slots: multiset<nat>) {
    p.phase.Descending? && p.phase.left > 0 ==>
      && p.phase.left <= |p.chain|
      && (p.chain[p.phase.left - 1].Limiter? ==> slots[p.chain[p.phase.left - 1].id] > 0)
  }

  ghost predicate Idle(p: Process) {
    p.phase.Finished? || p.phase.Sleeping? || (p.phase.Descending? && p.phase.left == 0)
  }

  lemma TokenThere(s: System, i: nat)
    requires Conserved(s) && i < |s.procs|
    ensures ReleaseFindsToken(s.procs[i], s.slots)
  {
    var p := s.procs[i];
    if p.phase.Descending? && p.phase.left > 0 && p.chain[p.phase.left - 1].Limiter? {
      var id := p.chain[p.phase.left - 1].id;
      TotalUpdate(s.procs, i, p, id);
      CountStep(p.chain, p.phase.left - 1, id);
    }
  }

  /**
   * In every reachable state: occupancy is conserved and bounded, a release always finds its token, and a
   * process that is deciding, sleeping or finished holds none.
   */
  lemma SlotConservation(s: System, moves: seq<Move>)
    requires Initial(s) && IsRun(s, moves)
    ensures var t := After(s, moves);
            && (forall id :: t.slots[id] == Total(t.procs, id) <= s.capacity(id))
            && (forall i :: 0 <= i < |t.procs| ==> ReleaseFindsToken(t.procs[i], t.slots))
            && (forall i, id :: 0 <= i < |t.procs| && Idle(t.procs[i]) ==> Held(t.procs[i], id) == 0)
  {
    InitiallyConserved(s);
    RunConserves(s, moves);
    var t := After(s, moves);
    forall i | 0 <= i < |t.procs|
      ensures ReleaseFindsToken(t.procs[i], t.slots)
    {
      TokenThere(t, i);
    }
    forall i, id | 0 <= i < |t.procs| && Idle(t.procs[i])
      ensures Held(t.procs[i], id) == 0
    {
      assert t.procs[i].chain[..0] == [];
    }
  }

  // ---------------------------------------------------------------------------------------------
  // As long as no context ends
  // ---------------------------------------------------------------------------------------------

  ghost predicate AllLive(s: System) {
    forall i :: 0 <= i < |s.procs| ==> !s.procs[i].attemptDone && !s.procs[i].rootDone
  }

  ghost predicate NothingEnds(moves: seq<Move>) {
    forall k :: 0 <= k < |moves| ==> !moves[k].1.Expire? && !moves[k].1.CancelRoot?
  }

  lemma {:induction false} StaysLive(s: System, moves: seq<Move>)
    requires AllLive(s) && IsRun(s, moves) && NothingEnds(moves)
    ensures AllLive(After(s, moves))
    decreases |moves|
  {
    if moves == [] {
    } else {
      var (i, a) := moves[0];
      assert !a.Expire? && !a.CancelRoot?;
      assert forall k :: 0 <= k < |moves[1..]| ==> moves[1..][k] == moves[k + 1];
      StaysLive(Apply(s, i, a), moves[1..]);
    }
  }

  /**
   * As long as no context ends, a limiter is waited for and never refused, and no sleep is cut short. And a
   * limiter's After never turns a success into a failure.
   */
  lemma OnlyEndedContextsRefuse(s: System, moves: seq<Move>, i: nat, a: Action)
    requires AllLive(s) && IsRun(s, moves) && NothingEnds(moves) && Conserved(s)
    requires var t := After(s, moves); i < |t.procs| && Enabled(t, i, a)
    ensures var p := After(s, moves).procs[i];
            && (a.Refuse? ==> p.chain[Depth(p)].Other?)
            && !a.Cut?
            && (a.Release? && p.chain[Depth(p) - 1].Limiter? ==>
                  var q := Moved(p, a);
                  q.phase.Descending? && q.phase.outcome == p.phase.outcome)
  {
    StaysLive(s, moves);
    RunConserves(s, moves);
  }

  // ---------------------------------------------------------------------------------------------
  // What a process may do follows from what it has done
  // ---------------------------------------------------------------------------------------------

  /** The actions of process i in a run. */
  function OwnActions(moves: seq<Move>, i: nat): seq<Action> {
    if moves == [] then []
    else (if moves[0].0 == i then [moves[0].1] else []) + OwnActions(moves[1..], i)
  }

  /** What happened in the present attempt: behind the last Retry. */
  function ThisAttempt(done: seq<Action>): seq<Action> {
    if done == [] || done[|done| - 1].Retry? then []
    else ThisAttempt(done[..|done| - 1]) + [done[|done| - 1]]
  }

  /** What happened before the present attempt: up to the last Retry. */
  function EarlierAttempts(done: seq<Action>): seq<Action> {
    if done == [] || done[|done| - 1].Retry? then done else EarlierAttempts(done[..|done| - 1])
  }

  function Retries(done: seq<Action>): nat {
    if done == [] then 0
    else Retries(done[..|done| - 1]) + if done[|done| - 1].Retry? then 1 else 0
  }

  /** The transport ran in this attempt, and it or an After policy reported an error. */
  ghost predicate FailedAfterExecution(done: seq<Action>) {
    Refuse !in ThisAttempt(done) && (Complete(true) in ThisAttempt(done) || Release(true) in ThisAttempt(done))
  }

  /** The outcome that the actions of the attempt amount to. */
  ghost predicate OutcomeFollows(outcome: Outcome, done: seq<Action>) {
    && (outcome.Refused? <==> Refuse in ThisAttempt(done))
    && (outcome.Failed? <==> FailedAfterExecution(done))
  }

  ghost predicate NothingReported(done: seq<Action>) {
    Refuse !in ThisAttempt(done) && Complete(true) !in ThisAttempt(done) && Release(true) !in ThisAttempt(done)
  }

  /** A process whose actions so far are `done`; the context of an attempt is made from the caller's at its start. */
  ghost predicate Remembers(p: Process, done: seq<Action>) {
    && p.attempt == 1 + Retries(done)
    && (p.rootDone <==> CancelRoot in done)
    && (p.attemptDone <==> Expire in ThisAttempt(done) || CancelRoot in EarlierAttempts(done))
    && (p.phase.Climbing? || p.phase.Executing? || p.phase.Sleeping? ==> NothingReported(done))
    && (p.phase.Descending? ==> OutcomeFollows(p.phase.outcome, done))
  }

  lemma StepRemembered(s: System, i: nat, a: Action, done: seq<Action>)
    requires i < |s.procs| && Enabled(s, i, a) && Remembers(s.procs[i], done)
    ensures Remembers(Moved(s.procs[i], a), done + [a])
  {
    assert (done + [a])[..|done|] == done;
  }

  lemma {:induction false} RunRemembered(s: System, moves: seq<Move>, i: nat, done: seq<Action>)
    requires IsRun(s, moves) && i < |s.procs| && Remembers(s.procs[i], done)
    ensures |After(s, moves).procs| == |s.procs|
    ensures Remembers(After(s, moves).procs[i], done + OwnActions(moves, i))
    decreases |moves|
  {
    if moves == [] {
      assert done + [] == done;
    } else {
      var (j, a) := moves[0];
      if j == i {
        StepRemembered(s, i, a, done);
        RunRemembered(Apply(s, j, a), moves[1..], i, done + [a]);
        assert done + [a] + OwnActions(moves[1..], i) == done + OwnActions(moves, i);
      } else {
        RunRemembered(Apply(s, j, a), moves[1..], i, done);
        assert [] + OwnActions(moves[1..], i) == OwnActions(moves[1..], i);
      }
    }
  }

  /** What a process may do, by its own actions. */
  ghost predicate DecidedBy(t: System, i: nat, done: seq<Action>)
    requires i < |t.procs|
  {
    var p := t.procs[i];
    && (p.phase.Descending? && p.phase.left == 0 ==>
          (Enabled(t, i, Retry) <==> FailedAfterExecution(done) && 1 + Retries(done) < p.maxAttempts))
    && (p.phase.Descending? ==> (p.phase.outcome.Succeeded? <==> NothingReported(done)))
    && (Facing(p) && p.chain[p.phase.depth].Limiter? ==>
          (Enabled(t, i, Refuse) <==> Expire in ThisAttempt(done) || CancelRoot in done))
    && (p.phase.Sleeping? ==> (Enabled(t, i, Cut) <==> CancelRoot in done))
  }

  lemma RememberedDecides(t: System, i: nat, done: seq<Action>)
    requires i < |t.procs| && Remembers(t.procs[i], done)
    ensures DecidedBy(t, i, done)
  {
    AttemptsSplit(done);
    assert CancelRoot in EarlierAttempts(done) ==> CancelRoot in done;
  }

  /**
   * Whatever the interleaving, a process that has come down retries exactly when the transport ran, an error was
   * reported in this attempt and attempts are left; a limiter it faces may refuse it exactly when the attempt's own
   * context ended or the caller's did; and a sleep may be cut exactly when the caller's did.
   */
  lemma ActionsDecide(s: System, moves: seq<Move>, i: nat)
    requires Initial(s) && AllLive(s) && IsRun(s, moves) && i < |s.procs|
    ensures i < |After(s, moves).procs| && DecidedBy(After(s, moves), i, OwnActions(moves, i))
  {
    assert s.procs[i] in s.procs;
    RunRemembered(s, moves, i, []);
    assert [] + OwnActions(moves, i) == OwnActions(moves, i);
    RememberedDecides(After(s, moves), i, OwnActions(moves, i));
  }

  lemma {:induction false} AttemptsSplit(done: seq<Action>)
    ensures done == EarlierAttempts(done) + ThisAttempt(done)
  {
    if done == [] || done[|done| - 1].Retry? {
    } else {
      AttemptsSplit(done[..|done| - 1]);
    }
  }

  // ---------------------------------------------------------------------------------------------
  // Each process follows the engine
  // ---------------------------------------------------------------------------------------------

  /** The policy or transport call that an action stands for. */
  function EventOf(p: Process, a: Action): Option<Event<()>> {
    match a
    case Acquire => Some(BeforeCall(Depth(p), true))
    case Pass => Some(BeforeCall(Depth(p), true))
    case Refuse => Some(BeforeCall(Depth(p), false))
    case Complete(_) => Some(ExecCall((), None))
    case Release(_) => if Depth(p) > 0 then Some(AfterCall(Depth(p) - 1, None, None)) else None
    case Wake => Some(SleepCall(0, false))
    case Cut => Some(SleepCall(0, true))
    case _ => None
  }

  /** The calls that process i makes in a run, in order. */
  function CallsOf(s: System, moves: seq<Move>, i: nat): seq<Event<()>>
    requires i < |s.procs|
    decreases |moves|
  {
    if moves == [] || moves[0].0 >= |s.procs| then []
    else
      var (j, a) := moves[0];
      var event := if j == i then EventOf(s.procs[i], a) else None;
      (if event.Some? then [event.value] else []) + CallsOf(Apply(s, j, a), moves[1..], i)
  }

  /** The engine's control state that a process phase corresponds to. */
  ghost predicate InStep(p: Process, c: Control) {
    match p.phase
    case Climbing(d) => c == Entering(d)
    case Executing => c == Entering(|p.chain|)
    case Descending(d, outcome) => c == Leaving(d, !outcome.Refused?)
    case Sleeping => c == Leaving(0, true)
    case Finished => c.Leaving? && c.depth == 0
  }

  lemma StepInStep(s: System, i: nat, a: Action, c: Control)
    requires i < |s.procs| && Enabled(s, i, a) && WellPlaced(s.procs[i]) && InStep(s.procs[i], c)
    ensures var p := s.procs[i];
            var e := EventOf(p, a);
            InStep(Moved(p, a), if e.Some? then Advance(c, e.value, |p.chain|) else c)
  {
  }

  /**
   * Whatever the interleaving, the calls of each process obey the climbing discipline that the engine's own
   * runs obey.
   */
  lemma {:induction false} ProcessFollowsEngine(s: System, moves: seq<Move>, i: nat, c: Control)
    requires Conserved(s) && IsRun(s, moves) && i < |s.procs| && InStep(s.procs[i], c)
    ensures var t := After(s, moves);
            && |t.procs| == |s.procs| && t.procs[i].chain == s.procs[i].chain
            && InStep(t.procs[i], Replay(c, CallsOf(s, moves, i), |s.procs[i].chain|))
    decreases |moves|
  {
    if moves == [] {
    } else {
      var (j, a) := moves[0];
      var s' := Apply(s, j, a);
      var p := s.procs[i];
      assert WellPlaced(p);
      StepConserves(s, j, a);
      if j == i {
        StepInStep(s, i, a, c);
        var e := EventOf(p, a);
        ProcessFollowsEngine(s', moves[1..], i, if e.Some? then Advance(c, e.value, |p.chain|) else c);
        if e.Some? {
          assert ([e.value] + CallsOf(s', moves[1..], i))[1..] == CallsOf(s', moves[1..], i);
        } else {
          assert CallsOf(s, moves, i) == CallsOf(s', moves[1..], i);
        }
      } else {
        ProcessFollowsEngine(s', moves[1..], i, c);
        assert CallsOf(s, moves, i) == CallsOf(s', moves[1..], i);
      }
    }
  }
}
