/** What ticks and resets of the enhanced engine leave alone: every node
    keeps its kind, name, Parallel policy, Timeout duration and Action
    function, and its children stay in place, built alike. Only cursors,
    cached results and timeout anchors change. */
module EnhancedSetup {
  import opened Core
  import opened EnhancedNodes

  // ---------------------------------------------------------------------
  // SameSetup is an equivalence

  lemma {:induction false} SameSetupReflexive(n: Node)
    ensures SameSetup(n, n)
    decreases n
  {
    match n
    case Action(_, _) =>
    case Sequence(_, cs, _) => AllSameSetupReflexive(cs);
    case Selector(_, cs, _) => AllSameSetupReflexive(cs);
    case Parallel(_, cs, _, _) => AllSameSetupReflexive(cs);
    case Inverter(_, c) => SameSetupReflexive(c);
    case Timeout(_, c, _, _) => SameSetupReflexive(c);
  }

  lemma {:induction false} AllSameSetupReflexive(cs: seq<Node>)
    ensures AllSameSetup(cs, cs)
    decreases cs
  {
    forall j | 0 <= j < |cs| ensures SameSetup(cs[j], cs[j]) { SameSetupReflexive(cs[j]); }
  }

  lemma {:induction false} SameSetupTransitive(a: Node, b: Node, c: Node)
    requires SameSetup(a, b) && SameSetup(b, c)
    ensures SameSetup(a, c)
    decreases a
  {
    match a
    case Action(_, _) =>
    case Sequence(_, cs, _) => AllSameSetupTransitive(cs, b.children, c.children);
    case Selector(_, cs, _) => AllSameSetupTransitive(cs, b.children, c.children);
    case Parallel(_, cs, _, _) => AllSameSetupTransitive(cs, b.children, c.children);
    case Inverter(_, x) => SameSetupTransitive(x, b.child, c.child);
    case Timeout(_, x, _, _) => SameSetupTransitive(x, b.child, c.child);
  }

  lemma {:induction false} AllSameSetupTransitive(cs: seq<Node>, ds: seq<Node>, es: seq<Node>)
    requires AllSameSetup(cs, ds) && AllSameSetup(ds, es)
    ensures AllSameSetup(cs, es)
    decreases cs
  {
    forall j | 0 <= j < |cs| ensures SameSetup(cs[j], es[j]) {
      SameSetupTransitive(cs[j], ds[j], es[j]);
    }
  }

  // ---------------------------------------------------------------------
  // Reset and Tick keep the setup

  /** A reset rewrites only cursors, cached results and anchors. */
  lemma {:induction false} ResetKeepsSetup(n: Node)
    ensures SameSetup(n, Reset(n))
    decreases n
  {
    match n
    case Action(_, _) =>
    case Sequence(_, cs, _) => ResetAllKeepsSetup(cs);
    case Selector(_, cs, _) => ResetAllKeepsSetup(cs);
    case Parallel(_, cs, _, _) => ResetAllKeepsSetup(cs);
    case Inverter(_, c) => ResetKeepsSetup(c);
    case Timeout(_, c, _, _) => ResetKeepsSetup(c);
  }

  lemma {:induction false} ResetAllKeepsSetup(cs: seq<Node>)
    ensures AllSameSetup(cs, ResetAll(cs))
    decreases cs
  {
    forall j | 0 <= j < |cs| ensures SameSetup(cs[j], ResetAll(cs)[j]) { ResetKeepsSetup(cs[j]); }
  }

  /** A tick rewrites only cursors, cached results and anchors, at every
      depth, whatever the children return. */
  lemma {:induction false} TickKeepsSetup(n: Node, bb: Board, now: nat)
    requires WellFormed(n)
    ensures SameSetup(n, Tick(n, bb, now).node)
    decreases Size(n), 0
  {
    match n
    case Action(_, _) =>
    case Sequence(name, cs, current) =>
      var run := RunChildren(cs, current, bb, now, Passed);
      RunChildrenKeepsSetup(cs, current, bb, now, Passed);
      var ticked := Sequence(name, run.children, run.cursor);
      ResetKeepsSetup(ticked);
      SameSetupTransitive(n, ticked, Reset(ticked));
    case Selector(name, cs, current) =>
      var run := RunChildren(cs, current, bb, now, Failed);
      RunChildrenKeepsSetup(cs, current, bb, now, Failed);
      var ticked := Selector(name, run.children, run.cursor);
      ResetKeepsSetup(ticked);
      SameSetupTransitive(n, ticked, Reset(ticked));
    case Parallel(_, cs, states, _) =>
      RunParallelKeepsSetup(cs, states, 0, bb, now);
    case Inverter(_, c) =>
      TickKeepsSetup(c, bb, now);
    case Timeout(_, c, _, _) =>
      ResetKeepsSetup(n);
      TickKeepsSetup(c, bb, now);
  }

  /** The cursor loop keeps every child's setup. */
  lemma {:induction false} RunChildrenKeepsSetup(cs: seq<Node>, i: nat, bb: Board, now: nat, advance: NodeResult)
    requires AllWellFormed(cs)
    ensures AllSameSetup(cs, RunChildren(cs, i, bb, now, advance).children)
    decreases SizeAll(cs), |cs| - i, 2
  {
    if i >= |cs| {
      AllSameSetupReflexive(cs);
    } else {
      RunChildrenKeepsSetupAt(cs, i, bb, now, advance);
    }
  }

  /** RunChildrenKeepsSetup at a cursor on a child. */
  lemma {:induction false} RunChildrenKeepsSetupAt(cs: seq<Node>, i: nat, bb: Board, now: nat, advance: NodeResult)
    requires AllWellFormed(cs) && i < |cs|
    ensures AllSameSetup(cs, RunChildren(cs, i, bb, now, advance).children)
    decreases SizeAll(cs), |cs| - i, 1
  {
    SizeAllElem(cs, i);
    var t := Tick(cs[i], bb, now);
    SizeAllUpdate(cs, i, t.node);
    var ds := cs[i := t.node];
    UpdateKeepsSetup(cs, i, bb, now);
    if t.result == advance {
      var rest := RunChildren(ds, i + 1, t.board, now, advance);
      assert RunChildren(cs, i, bb, now, advance) == rest;
      RunChildrenKeepsSetup(ds, i + 1, t.board, now, advance);
      AllSameSetupTransitive(cs, ds, rest.children);
    } else {
      assert RunChildren(cs, i, bb, now, advance) == Run(ds, i, t.result, t.board);
    }
  }

  /** The sweep of a Parallel keeps every child's setup. */
  lemma {:induction false} RunParallelKeepsSetup(cs: seq<Node>, states: seq<NodeResult>, i: nat, bb: Board, now: nat)
    requires |states| == |cs| && AllWellFormed(cs)
    ensures AllSameSetup(cs, RunParallel(cs, states, i, bb, now).children)
    decreases SizeAll(cs), |cs| - i, 2
  {
    if i >= |cs| {
      AllSameSetupReflexive(cs);
    } else if states[i] != Running {
      assert RunParallel(cs, states, i, bb, now) == RunParallel(cs, states, i + 1, bb, now);
      RunParallelKeepsSetup(cs, states, i + 1, bb, now);
    } else {
      RunParallelKeepsSetupAt(cs, states, i, bb, now);
    }
  }

  /** RunParallelKeepsSetup at a Running child. */
  lemma {:induction false} RunParallelKeepsSetupAt(cs: seq<Node>, states: seq<NodeResult>, i: nat, bb: Board, now: nat)
    requires |states| == |cs| && AllWellFormed(cs) && i < |cs| && states[i] == Running
    ensures AllSameSetup(cs, RunParallel(cs, states, i, bb, now).children)
    decreases SizeAll(cs), |cs| - i, 1
  {
    SizeAllElem(cs, i);
    var t := Tick(cs[i], bb, now);
    SizeAllUpdate(cs, i, t.node);
    var ds := cs[i := t.node];
    UpdateKeepsSetup(cs, i, bb, now);
    var rest := RunParallel(ds, states[i := t.result], i + 1, t.board, now);
    assert RunParallel(cs, states, i, bb, now) == rest;
    RunParallelKeepsSetup(ds, states[i := t.result], i + 1, t.board, now);
    AllSameSetupTransitive(cs, ds, rest.children);
  }

  /** Replacing one child by its ticked self keeps the list's setup. */
  lemma {:induction false} UpdateKeepsSetup(cs: seq<Node>, i: nat, bb: Board, now: nat)
    requires AllWellFormed(cs) && i < |cs|
    ensures AllSameSetup(cs, cs[i := Tick(cs[i], bb, now).node])
    decreases SizeAll(cs), |cs| - i, 0
  {
    SizeAllElem(cs, i);
    var ds := cs[i := Tick(cs[i], bb, now).node];
    forall j | 0 <= j < |cs| ensures SameSetup(cs[j], ds[j]) {
      if j == i { TickKeepsSetup(cs[i], bb, now); } else { SameSetupReflexive(cs[j]); }
    }
  }
}
