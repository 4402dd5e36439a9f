/** When interleaved invocations over shared limiters can always go on, and that they then finish. */
module Liveness {
  import opened Bulkhead

  /** A step of the engine, as opposed to a context ending. */
  predicate Progress(a: Action) {
    !a.Expire? && !a.CancelRoot?
  }

  ghost predicate CanMove(s: System, i: nat) {
    i < |s.procs| && exists a :: Progress(a) && Enabled(s, i, a)
  }

  /** At a full limiter; unless its context ends, the process waits. */
  ghost predicate Waiting(s: System, i: nat) {
    && i < |s.procs|
    && var p := s.procs[i];
    && Facing(p) && p.chain[p.phase.depth].Limiter?
    && s.slots[p.chain[p.phase.depth].id] >= s.capacity(p.chain[p.phase.depth].id)
  }

  lemma OthersMove(s: System, i: nat)
    requires Conserved(s) && i < |s.procs| && !s.procs[i].phase.Finished? && !Waiting(s, i)
    ensures CanMove(s, i)
  {
    var p := s.procs[i];
    assert WellPlaced(p);
    var a := match p.phase
      case Climbing(d) => if d == |p.chain| then Start else if p.chain[d].Limiter? then Acquire else Pass
      case Executing => Complete(false)
      case Descending(d, _) => if d == 0 then Finish else Release(false)
      case Sleeping => Wake
      case Finished => Finish;
    assert Progress(a) && Enabled(s, i, a);
  }

  // ---------------------------------------------------------------------------------------------
  // Deadlock freedom by ordered acquisition
  // ---------------------------------------------------------------------------------------------

  /** The limiters of a chain come in strictly increasing rank, so none comes twice. */
  ghost predicate Ordered(chain: seq<Slot>, rank: nat -> nat) {
    forall i, j :: 0 <= i < j < |chain| && chain[i].Limiter? && chain[j].Limiter? ==>
                     rank(chain[i].id) < rank(chain[j].id)
  }

  ghost predicate AllOrdered(s: System, rank: nat -> nat) {
    forall i :: 0 <= i < |s.procs| ==> Ordered(s.procs[i].chain, rank)
  }

  ghost predicate SomeRoom(s: System) {
    forall id :: s.capacity(id) >= 1
  }

  lemma {:induction false} FindHolder(procs: seq<Process>, id: nat) returns (i: nat)
    requires Total(procs, id) > 0
    ensures i < |procs| && Held(procs[i], id) > 0
  {
    if Held(procs[0], id) > 0 {
      i := 0;
    } else {
      var j := FindHolder(procs[1..], id);
      i := j + 1;
    }
  }

  lemma {:induction false} FindPosition(chain: seq<Slot>, id: nat) returns (k: nat)
    requires Count(chain, id) > 0
    ensures k < |chain| && chain[k] == Limiter(id)
  {
    var last := |chain| - 1;
    if chain[last] == Limiter(id) {
      k := last;
    } else {
      k := FindPosition(chain[..last], id);
    }
  }

  function RankBound(chain: seq<Slot>, rank: nat -> nat): (b: nat)
    ensures forall i :: 0 <= i < |chain| && chain[i].Limiter? ==> rank(chain[i].id) <= b
  {
    if chain == [] then 0
    else
      var b := RankBound(chain[1..], rank);
      if chain[0].Limiter? && rank(chain[0].id) > b then rank(chain[0].id) else b
  }

  function SystemBound(procs: seq<Process>, rank: nat -> nat): (b: nat)
    ensures forall i, k :: 0 <= i < |procs| && 0 <= k < |procs[i].chain| && procs[i].chain[k].Limiter?
                       ==> rank(procs[i].chain[k].id) <= b
  {
    if procs == [] then 0
    else
      var own, rest := RankBound(procs[0].chain, rank), SystemBound(procs[1..], rank);
      if own > rest then own else rest
  }

  /** Whoever holds what process i waits for can move, or waits for something of higher rank. */
  lemma {:induction false} Chase(s: System, i: nat, rank: nat -> nat, bound: nat) returns (j: nat)
    requires Conserved(s) && SomeRoom(s) && AllOrdered(s, rank) && Waiting(s, i)
    requires bound == SystemBound(s.procs, rank)
    ensures CanMove(s, j)
    decreases bound - rank(s.procs[i].chain[s.procs[i].phase.depth].id)
  {
    var p := s.procs[i];
    var id := p.chain[p.phase.depth].id;
    assert s.capacity(id) >= 1;
    var h := FindHolder(s.procs, id);
    var q := s.procs[h];
    assert WellPlaced(q) && q.chain[..0] == [];
    if Waiting(s, h) {
      var k := FindPosition(q.chain[..Depth(q)], id);
      assert Ordered(q.chain, rank);
      assert q.chain[k] == Limiter(id);
      j := Chase(s, h, rank, bound);
    } else {
      OthersMove(s, h);
      j := h;
    }
  }

  lemma NoDeadlock(s: System, i: nat, rank: nat -> nat) returns (j: nat)
    requires Conserved(s) && SomeRoom(s) && AllOrdered(s, rank)
    requires i < |s.procs| && !s.procs[i].phase.Finished?
    ensures CanMove(s, j)
  {
    if Waiting(s, i) {
      j := Chase(s, i, rank, SystemBound(s.procs, rank));
    } else {
      OthersMove(s, i);
      j := i;
    }
  }

  // ---------------------------------------------------------------------------------------------
  // Every run is finite
  // ---------------------------------------------------------------------------------------------

  function AttemptsLeft(p: Process): nat {
    if p.attempt < p.maxAttempts then p.maxAttempts - p.attempt else 0
  }

  function PhaseWeight(p: Process): nat {
    var n := |p.chain|;
    match p.phase
    case Sleeping => 2 * n + 6
    case Climbing(d) => if d <= n then 2 * n + 5 - d else 0
    case Executing => n + 4
    case Descending(d, _) => d + 2
    case Finished => 0
  }

  /** Steps that a process has left at most. */
  function Weight(p: Process): nat {
    AttemptsLeft(p) * (2 * |p.chain| + 8) + PhaseWeight(p)
    + (if p.attemptDone then 0 else 1) + (if p.rootDone then 0 else 1)
  }

  function Measure(procs: seq<Process>): nat {
    if procs == [] then 0 else Weight(procs[0]) + Measure(procs[1..])
  }

  lemma {:induction false} MeasureUpdate(procs: seq<Process>, i: nat, p: Process)
    requires i < |procs|
    ensures Measure(procs[i := p]) == Measure(procs) - Weight(procs[i]) + Weight(p)
  {
    if i == 0 {
      assert procs[i := p][1..] == procs[1..];
    } else {
      MeasureUpdate(procs[1..], i - 1, p);
      assert procs[i := p][1..] == procs[1..][i - 1 := p];
    }
  }

  lemma FewerAttempts(left: nat, k: nat)
    requires left > 0
    ensures (left - 1) * k + k == left * k
  {
  }

  lemma StepDecreases(s: System, i: nat, a: Action)
    requires i < |s.procs| && Enabled(s, i, a) && WellPlaced(s.procs[i])
    ensures Weight(Moved(s.procs[i], a)) < Weight(s.procs[i])
  {
    var p := s.procs[i];
    if a.Retry? {
      FewerAttempts(AttemptsLeft(p), 2 * |p.chain| + 8);
    }
  }

  /** No run is longer than the measure of its first state, contexts ending included. */
  lemma {:induction false} RunsAreBounded(s: System, moves: seq<Move>)
    requires Conserved(s) && IsRun(s, moves)
    ensures |moves| + Measure(After(s, moves).procs) <= Measure(s.procs)
    decreases |moves|
  {
    if moves == [] {
    } else {
      var (i, a) := moves[0];
      StepConserves(s, i, a);
      StepDecreases(s, i, a);
      MeasureUpdate(s.procs, i, Moved(s.procs[i], a));
      RunsAreBounded(Apply(s, i, a), moves[1..]);
    }
  }

  // ---------------------------------------------------------------------------------------------
  // Clean finish
  // ---------------------------------------------------------------------------------------------

  lemma StepKeepsChains(s: System, i: nat, a: Action)
    requires i < |s.procs|
    ensures var t := Apply(s, i, a);
            && |t.procs| == |s.procs| && t.capacity == s.capacity
            && (forall j :: 0 <= j < |s.procs| ==> t.procs[j].chain == s.procs[j].chain)
  {
  }

  lemma {:induction false} ChainsStay(s: System, moves: seq<Move>)
    requires IsRun(s, moves)
    ensures var t := After(s, moves);
            && |t.procs| == |s.procs| && t.capacity == s.capacity
            && (forall i :: 0 <= i < |s.procs| ==> t.procs[i].chain == s.procs[i].chain)
    decreases |moves|
  {
    if moves == [] {
    } else {
      StepKeepsChains(s, moves[0].0, moves[0].1);
      ChainsStay(Apply(s, moves[0].0, moves[0].1), moves[1..]);
    }
  }

  ghost predicate AllFinished(s: System) {
    forall i :: 0 <= i < |s.procs| ==> s.procs[i].phase.Finished?
  }

  /**
   * Invocations whose limiters follow one common order: a run that can go no further has finished every
   * invocation and left every limiter empty, and no run exceeds the measure of the initial state.
   */
  lemma CleanFinish(s: System, moves: seq<Move>, rank: nat -> nat)
    requires Initial(s) && IsRun(s, moves) && AllOrdered(s, rank)
    requires forall i :: !CanMove(After(s, moves), i)
    ensures AllFinished(After(s, moves)) && After(s, moves).slots == multiset{}
    ensures |moves| <= Measure(s.procs)
  {
    InitiallyConserved(s);
    RunConserves(s, moves);
    ChainsStay(s, moves);
    RunsAreBounded(s, moves);
    var t := After(s, moves);
    forall i | 0 <= i < |t.procs|
      ensures t.procs[i].phase.Finished?
    {
      if !t.procs[i].phase.Finished? {
        var j := NoDeadlock(t, i, rank);
      }
    }
    FinishedEmpty(t);
  }

  /** And from every state on the way some continuation finishes them all. */
  lemma {:induction false} CanFinish(s: System, rank: nat -> nat) returns (moves: seq<Move>)
    requires Conserved(s) && SomeRoom(s) && AllOrdered(s, rank)
    ensures IsRun(s, moves) && AllFinished(After(s, moves)) && After(s, moves).slots == multiset{}
    decreases Measure(s.procs)
  {
    if AllFinished(s) {
      FinishedEmpty(s);
      moves := [];
    } else {
      var i :| 0 <= i < |s.procs| && !s.procs[i].phase.Finished?;
      var j := NoDeadlock(s, i, rank);
      var a :| Progress(a) && Enabled(s, j, a);
      StepConserves(s, j, a);
      StepDecreases(s, j, a);
      StepKeepsChains(s, j, a);
      MeasureUpdate(s.procs, j, Moved(s.procs[j], a));
      var rest := CanFinish(Apply(s, j, a), rank);
      moves := [(j, a)] + rest;
      assert moves[1..] == rest;
    }
  }

  lemma FinishedEmpty(t: System)
    requires Conserved(t) && AllFinished(t)
    ensures t.slots == multiset{}
  {
    forall id: nat
      ensures t.slots[id] == 0
    {
      NothingHeld(t.procs, id);
    }
  }

  // ---------------------------------------------------------------------------------------------
  // Exact condition for one invocation on its own
  // ---------------------------------------------------------------------------------------------

  lemma {:induction false} CountGrows(chain: seq<Slot>, d: nat, id: nat)
    requires d <= |chain|
    ensures Count(chain[..d], id) <= Count(chain, id)
    decreases |chain| - d
  {
    if d == |chain| {
      assert chain[..d] == chain;
    } else {
      CountStep(chain, d, id);
      CountGrows(chain, d + 1, id);
    }
  }

  ghost predicate Fits(chain: seq<Slot>, capacity: nat -> nat) {
    forall id :: Count(chain, id) <= capacity(id)
  }

  lemma AloneSlots(s: System, id: nat)
    requires Conserved(s) && |s.procs| == 1
    ensures s.slots[id] == Held(s.procs[0], id)
  {
    assert s.procs[1..] == [];
    assert Total(s.procs, id) == Held(s.procs[0], id) + Total(s.procs[1..], id);
  }

  /** If no limiter occurs in the chain more often than it has slots, an invocation on its own never waits. */
  lemma AloneNeverWaits(s: System, moves: seq<Move>)
    requires Initial(s) && |s.procs| == 1 && IsRun(s, moves) && Fits(s.procs[0].chain, s.capacity)
    ensures !Waiting(After(s, moves), 0)
  {
    InitiallyConserved(s);
    RunConserves(s, moves);
    ChainsStay(s, moves);
    var t := After(s, moves);
    if Waiting(t, 0) {
      var p := t.procs[0];
      var id := p.chain[p.phase.depth].id;
      AloneSlots(t, id);
      CountStep(p.chain, p.phase.depth, id);
      CountGrows(p.chain, p.phase.depth + 1, id);
      assert false;
    }
  }

  /** Otherwise climbing leads it to a limiter that it has filled itself. */
  lemma {:induction false} AloneGetsStuck(s: System) returns (moves: seq<Move>)
    requires Conserved(s) && |s.procs| == 1 && s.procs[0].phase.Climbing?
    requires !Fits(s.procs[0].chain, s.capacity)
    ensures IsRun(s, moves) && Waiting(After(s, moves), 0)
    decreases |s.procs[0].chain| - s.procs[0].phase.depth
  {
    var p := s.procs[0];
    assert WellPlaced(p) && p.chain[..|p.chain|] == p.chain;
    var id :| Count(p.chain, id) > s.capacity(id);
    AloneSlots(s, id);
    if Waiting(s, 0) {
      moves := [];
    } else if Facing(p) {
      var a := if p.chain[p.phase.depth].Limiter? then Acquire else Pass;
      StepConserves(s, 0, a);
      var rest := AloneGetsStuck(Apply(s, 0, a));
      moves := [(0, a)] + rest;
      assert moves[1..] == rest;
    } else {
      assert false;
    }
  }

  ghost predicate ReachesWait(s: System, moves: seq<Move>) {
    IsRun(s, moves) && Waiting(After(s, moves), 0)
  }

  /** An invocation on its own can wait for itself exactly when its chain does not fit the capacities. */
  lemma SelfDeadlockExactly(s: System)
    requires Initial(s) && |s.procs| == 1
    ensures Fits(s.procs[0].chain, s.capacity) <==> forall moves :: !ReachesWait(s, moves)
  {
    InitiallyConserved(s);
    if Fits(s.procs[0].chain, s.capacity) {
      forall moves
        ensures !ReachesWait(s, moves)
      {
        if IsRun(s, moves) {
          AloneNeverWaits(s, moves);
        }
      }
    } else {
      assert s.procs[0] in s.procs;
      var moves := AloneGetsStuck(s);
      assert ReachesWait(s, moves);
    }
  }

  // ---------------------------------------------------------------------------------------------
  // Why the order matters
  // ---------------------------------------------------------------------------------------------

  function Fresh(chain: seq<Slot>): Process {
    Process(chain, 1, 1, Climbing(0), false, false)
  }

  lemma WaitingStays(s: System, i: nat)
    requires Waiting(s, i) && !s.procs[i].attemptDone && !s.procs[i].rootDone
    ensures !CanMove(s, i)
  {
  }

  /** Two invocations with opposite orders, one slot each: after one step each, neither can ever move. */
  lemma OppositeOrdersDeadlock()
    ensures var s := System(_ => 1, multiset{}, [Fresh([Limiter(0), Limiter(1)]), Fresh([Limiter(1), Limiter(0)])]);
            var moves := [(0, Acquire), (1, Acquire)];
            && Initial(s) && IsRun(s, moves)
            && (forall i :: !CanMove(After(s, moves), i))
            && !AllFinished(After(s, moves))
  {
    var s := System(_ => 1, multiset{}, [Fresh([Limiter(0), Limiter(1)]), Fresh([Limiter(1), Limiter(0)])]);
    var first: Move, second: Move := (0, Acquire), (1, Acquire);
    var s1 := Apply(s, 0, Acquire);
    var s2 := Apply(s1, 1, Acquire);
    TwoMoves(s, first, second);
    assert s2.procs[0] == s1.procs[0];
    WaitingStays(s2, 0);
    WaitingStays(s2, 1);
  }

  lemma TwoMoves(s: System, first: Move, second: Move)
    requires first.0 < |s.procs| && Enabled(s, first.0, first.1)
    requires second.0 < |s.procs| && Enabled(Apply(s, first.0, first.1), second.0, second.1)
    ensures IsRun(s, [first, second])
    ensures After(s, [first, second]) == Apply(Apply(s, first.0, first.1), second.0, second.1)
  {
    assert [first, second][1..] == [second] && [second][1..] == [];
    var s1 := Apply(s, first.0, first.1);
    assert IsRun(s1, [second]);
    assert After(s1, [second]) == After(Apply(s1, second.0, second.1), []);
  }
}
