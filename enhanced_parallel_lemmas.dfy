/** What the cached results of the enhanced Parallel guarantee. */
module EnhancedParallel {
  import opened Core
  import opened EnhancedPolicy
  import opened EnhancedNodes

  /** The sweep from child `i` stopped just before child `j`: what the
      children `i` to `j - 1` did, and the blackboard they left. Run to
      `j = |cs|` it is the whole sweep, as SweepSplit shows. */
  function SweepTo(cs: seq<Node>, states: seq<NodeResult>, i: nat, j: nat, bb: Board, now: nat): (o: Sweep)
    requires |states| == |cs| && AllWellFormed(cs) && j <= |cs|
    ensures |o.children| == |cs| && |o.states| == |cs| && AllWellFormed(o.children)
    ensures forall k :: 0 <= k < |cs| && (k < i || j <= k || states[k] != Running) ==>
      o.children[k] == cs[k] && o.states[k] == states[k]
    decreases SizeAll(cs), j - i
  {
    if i >= j then Sweep(cs, states, bb)
    else if states[i] != Running then SweepTo(cs, states, i + 1, j, bb, now)
    else
      SizeAllElem(cs, i);
      var t := Tick(cs[i], bb, now);
      SizeAllUpdate(cs, i, t.node);
      SweepTo(cs[i := t.node], states[i := t.result], i + 1, j, t.board, now)
  }

  /** Child `j` ticked against the blackboard the sweep from `i` had reached
      just before it. */
  function TickedAt(cs: seq<Node>, states: seq<NodeResult>, i: nat, j: nat, bb: Board, now: nat): Outcome
    requires |states| == |cs| && AllWellFormed(cs) && j < |cs|
  {
    Tick(cs[j], SweepTo(cs, states, i, j, bb, now).board, now)
  }

  /** The sweep can be cut at any child `j`: sweep the children before `j`,
      then carry on from `j` with the children, cached results and
      blackboard they left. */
  lemma {:induction false} SweepSplit(cs: seq<Node>, states: seq<NodeResult>, i: nat, j: nat, bb: Board, now: nat)
    requires |states| == |cs| && AllWellFormed(cs) && i <= j <= |cs|
    ensures var p := SweepTo(cs, states, i, j, bb, now);
      RunParallel(cs, states, i, bb, now) == RunParallel(p.children, p.states, j, p.board, now)
    decreases j - i, 1
  {
    if i < j && states[i] != Running {
      assert RunParallel(cs, states, i, bb, now) == RunParallel(cs, states, i + 1, bb, now);
      assert SweepTo(cs, states, i, j, bb, now) == SweepTo(cs, states, i + 1, j, bb, now);
      SweepSplit(cs, states, i + 1, j, bb, now);
    } else if i < j {
      SweepSplitAt(cs, states, i, j, bb, now);
    }
  }

  /** SweepSplit when child `i` is Running: both sides tick it first. */
  lemma {:induction false} SweepSplitAt(cs: seq<Node>, states: seq<NodeResult>, i: nat, j: nat, bb: Board, now: nat)
    requires |states| == |cs| && AllWellFormed(cs) && i < j <= |cs| && states[i] == Running
    ensures var p := SweepTo(cs, states, i, j, bb, now);
      RunParallel(cs, states, i, bb, now) == RunParallel(p.children, p.states, j, p.board, now)
    decreases j - i, 0
  {
    var t := Tick(cs[i], bb, now);
    var cs', states' := cs[i := t.node], states[i := t.result];
    WellFormedUpdate(cs, i, t.node);
    assert RunParallel(cs, states, i, bb, now) == RunParallel(cs', states', i + 1, t.board, now);
    assert SweepTo(cs, states, i, j, bb, now) == SweepTo(cs', states', i + 1, j, t.board, now);
    SweepSplit(cs', states', i + 1, j, t.board, now);
  }

  /** Stopping one child later adds exactly that child's step: a settled
      child is skipped, a Running one is ticked against the blackboard the
      sweep had reached and its state and cached result replaced. */
  lemma {:induction false} SweepToStep(cs: seq<Node>, states: seq<NodeResult>, i: nat, j: nat, bb: Board, now: nat)
    requires |states| == |cs| && AllWellFormed(cs) && i <= j < |cs|
    ensures var p := SweepTo(cs, states, i, j, bb, now);
      SweepTo(cs, states, i, j + 1, bb, now) ==
        if states[j] != Running then p
        else
          var t := Tick(cs[j], p.board, now);
          Sweep(p.children[j := t.node], p.states[j := t.result], t.board)
    decreases j - i, 1
  {
    if i < j && states[i] != Running {
      assert SweepTo(cs, states, i, j + 1, bb, now) == SweepTo(cs, states, i + 1, j + 1, bb, now);
      assert SweepTo(cs, states, i, j, bb, now) == SweepTo(cs, states, i + 1, j, bb, now);
      SweepToStep(cs, states, i + 1, j, bb, now);
    } else if i < j {
      SweepToStepAt(cs, states, i, j, bb, now);
    }
  }

  /** SweepToStep when child `i` is Running: both sweeps tick it first. */
  lemma {:induction false} SweepToStepAt(cs: seq<Node>, states: seq<NodeResult>, i: nat, j: nat, bb: Board, now: nat)
    requires |states| == |cs| && AllWellFormed(cs) && i < j < |cs| && states[i] == Running
    ensures var p := SweepTo(cs, states, i, j, bb, now);
      SweepTo(cs, states, i, j + 1, bb, now) ==
        if states[j] != Running then p
        else
          var t := Tick(cs[j], p.board, now);
          Sweep(p.children[j := t.node], p.states[j := t.result], t.board)
    decreases j - i, 0
  {
    var t := Tick(cs[i], bb, now);
    var cs', states' := cs[i := t.node], states[i := t.result];
    WellFormedUpdate(cs, i, t.node);
    assert SweepTo(cs, states, i, j + 1, bb, now) == SweepTo(cs', states', i + 1, j + 1, t.board, now);
    assert SweepTo(cs, states, i, j, bb, now) == SweepTo(cs', states', i + 1, j, t.board, now);
    SweepToStep(cs', states', i + 1, j, t.board, now);
  }

  /** A settled child is skipped: the sweep stopped just after it is the
      sweep stopped just before it, the same children, cached results and
      blackboard. */
  lemma SweepSkipsSettled(cs: seq<Node>, states: seq<NodeResult>, i: nat, bb: Board, now: nat, j: nat)
    requires |states| == |cs| && AllWellFormed(cs)
    requires i <= j < |cs| && states[j] != Running
    ensures SweepTo(cs, states, i, j + 1, bb, now) == SweepTo(cs, states, i, j, bb, now)
  {
    SweepToStep(cs, states, i, j, bb, now);
  }

  /** A child whose cached result is Running is ticked exactly once, against
      the blackboard the sweep had reached just before it; its new state and
      cached result are what that tick gave, and the blackboard it leaves is
      the one the sweep carries on with. */
  lemma SweepTicksRunning(cs: seq<Node>, states: seq<NodeResult>, i: nat, bb: Board, now: nat, j: nat)
    requires |states| == |cs| && AllWellFormed(cs)
    requires i <= j < |cs| && states[j] == Running
    ensures var o, t := RunParallel(cs, states, i, bb, now), TickedAt(cs, states, i, j, bb, now);
      o.children[j] == t.node && o.states[j] == t.result &&
      SweepTo(cs, states, i, j + 1, bb, now).board == t.board
  {
    SweepToStep(cs, states, i, j, bb, now);
    SweepSplit(cs, states, i, j + 1, bb, now);
  }

  /** The sweep never looks at a settled child: two child lists that agree
      on every child from `i` on whose cached result is Running give the same
      blackboard, the same cached results and the same new state for those
      children. */
  lemma SweepIgnoresSettled(cs: seq<Node>, ds: seq<Node>, states: seq<NodeResult>, i: nat, bb: Board, now: nat)
    requires |states| == |cs| == |ds| && AllWellFormed(cs) && AllWellFormed(ds)
    requires forall k :: i <= k < |cs| && states[k] == Running ==> cs[k] == ds[k]
    ensures var a, b := RunParallel(cs, states, i, bb, now), RunParallel(ds, states, i, bb, now);
      a.board == b.board && a.states == b.states &&
      forall k :: i <= k < |cs| && states[k] == Running ==> a.children[k] == b.children[k]
  {
    SameBoardAndStates(cs, ds, states, i, bb, now);
    SameRunningChildren(cs, ds, states, i, bb, now);
  }

  /** The blackboard and cached results half of SweepIgnoresSettled. */
  lemma {:induction false} SameBoardAndStates(cs: seq<Node>, ds: seq<Node>, states: seq<NodeResult>, i: nat, bb: Board, now: nat)
    requires |states| == |cs| == |ds| && AllWellFormed(cs) && AllWellFormed(ds)
    requires forall k :: i <= k < |cs| && states[k] == Running ==> cs[k] == ds[k]
    ensures var a, b := RunParallel(cs, states, i, bb, now), RunParallel(ds, states, i, bb, now);
      a.board == b.board && a.states == b.states
    decreases |cs| - i, 1
  {
    if i < |cs| && states[i] != Running {
      assert RunParallel(cs, states, i, bb, now) == RunParallel(cs, states, i + 1, bb, now);
      assert RunParallel(ds, states, i, bb, now) == RunParallel(ds, states, i + 1, bb, now);
      SameBoardAndStates(cs, ds, states, i + 1, bb, now);
    } else if i < |cs| {
      SameBoardAndStatesAt(cs, ds, states, i, bb, now);
    }
  }

  /** SameBoardAndStates when child `i` is Running: both lists tick the same
      node there. */
  lemma {:induction false} SameBoardAndStatesAt(cs: seq<Node>, ds: seq<Node>, states: seq<NodeResult>, i: nat, bb: Board, now: nat)
    requires |states| == |cs| == |ds| && AllWellFormed(cs) && AllWellFormed(ds)
    requires forall k :: i <= k < |cs| && states[k] == Running ==> cs[k] == ds[k]
    requires i < |cs| && states[i] == Running
    ensures var a, b := RunParallel(cs, states, i, bb, now), RunParallel(ds, states, i, bb, now);
      a.board == b.board && a.states == b.states
    decreases |cs| - i, 0
  {
    assert ds[i] == cs[i];
    var t := Tick(cs[i], bb, now);
    WellFormedUpdate(cs, i, t.node);
    WellFormedUpdate(ds, i, t.node);
    SameBoardAndStates(cs[i := t.node], ds[i := t.node], states[i := t.result], i + 1, t.board, now);
  }

  /** The Running children half of SweepIgnoresSettled. */
  lemma {:induction false} SameRunningChildren(cs: seq<Node>, ds: seq<Node>, states: seq<NodeResult>, i: nat, bb: Board, now: nat)
    requires |states| == |cs| == |ds| && AllWellFormed(cs) && AllWellFormed(ds)
    requires forall k :: i <= k < |cs| && states[k] == Running ==> cs[k] == ds[k]
    ensures var a, b := RunParallel(cs, states, i, bb, now), RunParallel(ds, states, i, bb, now);
      forall k :: i <= k < |cs| && states[k] == Running ==> a.children[k] == b.children[k]
    decreases |cs| - i, 1
  {
    if i < |cs| && states[i] != Running {
      assert RunParallel(cs, states, i, bb, now) == RunParallel(cs, states, i + 1, bb, now);
      assert RunParallel(ds, states, i, bb, now) == RunParallel(ds, states, i + 1, bb, now);
      SameRunningChildren(cs, ds, states, i + 1, bb, now);
    } else if i < |cs| {
      SameRunningChildrenAt(cs, ds, states, i, bb, now);
    }
  }

  /** SameRunningChildren when child `i` is Running: both lists tick the
      same node there. */
  lemma {:induction false} SameRunningChildrenAt(cs: seq<Node>, ds: seq<Node>, states: seq<NodeResult>, i: nat, bb: Board, now: nat)
    requires |states| == |cs| == |ds| && AllWellFormed(cs) && AllWellFormed(ds)
    requires forall k :: i <= k < |cs| && states[k] == Running ==> cs[k] == ds[k]
    requires i < |cs| && states[i] == Running
    ensures var a, b := RunParallel(cs, states, i, bb, now), RunParallel(ds, states, i, bb, now);
      forall k :: i <= k < |cs| && states[k] == Running ==> a.children[k] == b.children[k]
    decreases |cs| - i, 0
  {
    assert ds[i] == cs[i];
    var t := Tick(cs[i], bb, now);
    WellFormedUpdate(cs, i, t.node);
    WellFormedUpdate(ds, i, t.node);
    SameRunningChildren(cs[i := t.node], ds[i := t.node], states[i := t.result], i + 1, t.board, now);
  }

  /** A settled child plays no part in the sweep: replacing it by any other
      node changes neither the blackboard, nor the cached results, nor any
      other child. */
  lemma SettledChildIsIrrelevant(cs: seq<Node>, states: seq<NodeResult>, i: nat, bb: Board, now: nat, j: nat, x: Node)
    requires |states| == |cs| && AllWellFormed(cs) && WellFormed(x)
    requires j < |cs| && states[j] != Running
    ensures AllWellFormed(cs[j := x])
    ensures var o := RunParallel(cs, states, i, bb, now);
      RunParallel(cs[j := x], states, i, bb, now) == Sweep(o.children[j := x], o.states, o.board)
  {
    var ds := cs[j := x];
    WellFormedUpdate(cs, j, x);
    SweepIgnoresSettled(cs, ds, states, i, bb, now);
    var a, b := RunParallel(cs, states, i, bb, now), RunParallel(ds, states, i, bb, now);
    assert b.children == a.children[j := x];
  }

  /** Replacing one node of a well-formed list by a well-formed node keeps
      the list well formed. */
  lemma WellFormedUpdate(cs: seq<Node>, j: nat, x: Node)
    requires AllWellFormed(cs) && j < |cs| && WellFormed(x)
    ensures AllWellFormed(cs[j := x])
  {
    var ys := cs[j := x];
    forall k | 0 <= k < |ys| ensures WellFormed(ys[k]) { }
  }

  /** A sweep over caches that are all terminal ticks no child and leaves
      the blackboard as it was. */
  lemma {:induction false} SettledSweep(cs: seq<Node>, states: seq<NodeResult>, i: nat, bb: Board, now: nat)
    requires |states| == |cs| && AllWellFormed(cs)
    requires forall j :: i <= j < |cs| ==> states[j] != Running
    ensures RunParallel(cs, states, i, bb, now) == Sweep(cs, states, bb)
    decreases |cs| - i
  {
    if i < |cs| {
      SettledSweep(cs, states, i + 1, bb, now);
    }
  }

  /** The whole sweep as a fold over the children: it starts from the
      blackboard it was given and ends with the one the last child left; a
      child cached as Running is ticked against the blackboard the children
      before it left, and its new state, cached result and blackboard are
      what that tick gave; any other child keeps its state, its cached result
      and the blackboard. */
  lemma SweepFold(cs: seq<Node>, states: seq<NodeResult>, bb: Board, now: nat)
    requires |states| == |cs| && AllWellFormed(cs)
    ensures var o := RunParallel(cs, states, 0, bb, now);
      SweepTo(cs, states, 0, 0, bb, now).board == bb &&
      o.board == SweepTo(cs, states, 0, |cs|, bb, now).board &&
      (forall j :: 0 <= j < |cs| && states[j] != Running ==>
        o.children[j] == cs[j] && o.states[j] == states[j] &&
        SweepTo(cs, states, 0, j + 1, bb, now).board == SweepTo(cs, states, 0, j, bb, now).board) &&
      (forall j :: 0 <= j < |cs| && states[j] == Running ==>
        o.children[j] == TickedAt(cs, states, 0, j, bb, now).node &&
        o.states[j] == TickedAt(cs, states, 0, j, bb, now).result &&
        SweepTo(cs, states, 0, j + 1, bb, now).board == TickedAt(cs, states, 0, j, bb, now).board)
  {
    var o := RunParallel(cs, states, 0, bb, now);
    SweepSplit(cs, states, 0, |cs|, bb, now);
    forall j | 0 <= j < |cs| && states[j] != Running
      ensures SweepTo(cs, states, 0, j + 1, bb, now).board == SweepTo(cs, states, 0, j, bb, now).board
    {
      SweepSkipsSettled(cs, states, 0, bb, now, j);
    }
    forall j | 0 <= j < |cs| && states[j] == Running
      ensures o.children[j] == TickedAt(cs, states, 0, j, bb, now).node &&
              o.states[j] == TickedAt(cs, states, 0, j, bb, now).result &&
              SweepTo(cs, states, 0, j + 1, bb, now).board == TickedAt(cs, states, 0, j, bb, now).board
    {
      SweepTicksRunning(cs, states, 0, bb, now, j);
    }
  }

  /** One Parallel tick: the node keeps its name and policy and takes the
      children and cached results of the sweep (which SweepFold describes
      child by child), the tick leaves the blackboard the whole sweep left,
      cached results only move from Running to terminal, and the result is
      the policy applied to the caches the node keeps. */
  lemma ParallelTick(name: string, cs: seq<Node>, states: seq<NodeResult>, policy: ParallelPolicy, bb: Board, now: nat)
    requires |states| == |cs| && Fits(policy, |cs|) && AllWellFormed(cs)
    ensures var o, sweep := Tick(Parallel(name, cs, states, policy), bb, now), RunParallel(cs, states, 0, bb, now);
      o == Outcome(Parallel(name, sweep.children, sweep.states, policy), EvaluatePolicy(policy, sweep.states), sweep.board) &&
      |sweep.children| == |sweep.states| == |cs| &&
      Refines(states, sweep.states) &&
      o.board == SweepTo(cs, states, 0, |cs|, bb, now).board
  {
    SweepFold(cs, states, bb, now);
  }

  /** Once every child is terminal, a tick ticks nothing: the node and the
      blackboard stay as they are and the same result is reported again. */
  lemma ParallelSettledIsFixed(name: string, cs: seq<Node>, states: seq<NodeResult>, policy: ParallelPolicy, bb: Board, now: nat)
    requires WellFormed(Parallel(name, cs, states, policy))
    requires forall j :: 0 <= j < |states| ==> states[j] != Running
    ensures Tick(Parallel(name, cs, states, policy), bb, now) ==
      Outcome(Parallel(name, cs, states, policy), EvaluatePolicy(policy, states), bb)
  {
    SettledSweep(cs, states, 0, bb, now);
  }

  /** Once the cached results decide the policy, every later tick reports
      that same verdict, whatever the still-Running children do. */
  lemma ParallelVerdictSticks(name: string, cs: seq<Node>, states: seq<NodeResult>, policy: ParallelPolicy, bb: Board, now: nat)
    requires WellFormed(Parallel(name, cs, states, policy))
    requires EvaluatePolicy(policy, states) != Running
    ensures Tick(Parallel(name, cs, states, policy), bb, now).result == EvaluatePolicy(policy, states)
  {
    var o := RunParallel(cs, states, 0, bb, now);
    VerdictIsStable(policy, states, o.states);
  }

  /** The parallel scenario: RequireAll over two actions that pass, ticked
      once from the just-constructed state, passes. */
  lemma TwoPassingActionsPass(bb: Board, now: nat)
    ensures var pass := Action("action", b => Effect(Passed, b));
      Tick(Parallel("parallel_test", [pass, pass], AllRunning(2), RequireAll), bb, now).result == Passed
  {
    var pass := Action("action", b => Effect(Passed, b));
    var cs := [pass, pass];
    assert Tick(pass, bb, now) == Outcome(pass, Passed, bb);
    assert cs[0 := pass] == cs && cs[1 := pass] == cs;
    assert AllRunning(2) == [Running, Running];
    calc {
      RunParallel(cs, [Running, Running], 0, bb, now);
      { assert [Running, Running][0 := Passed] == [Passed, Running]; }
      RunParallel(cs, [Passed, Running], 1, bb, now);
      { assert [Passed, Running][1 := Passed] == [Passed, Passed]; }
      RunParallel(cs, [Passed, Passed], 2, bb, now);
      Sweep(cs, [Passed, Passed], bb);
    }
    RequireAllRule([Passed, Passed]);
  }
}
