/** The node tree of the enhanced engine and what one tick and one reset do
    to it. A node is a value: every child is owned by exactly one parent, so
    ticking a node is a function from the node, the blackboard and the clock
    to the node's next state, its result and the next blackboard. */
module EnhancedNodes {
  import opened Core
  import opened EnhancedPolicy

  datatype Node =
      /** A leaf wrapping an application function. */
    | Action(name: string, action: Board -> Effect)
      /** AND over the children, resuming at `current`. */
    | Sequence(name: string, children: seq<Node>, current: nat)
      /** OR over the children, resuming at `current`. */
    | Selector(name: string, children: seq<Node>, current: nat)
      /** All children side by side, with one cached result per child. */
    | Parallel(name: string, children: seq<Node>, states: seq<NodeResult>, policy: ParallelPolicy)
      /** Swaps Passed and Failed. */
    | Inverter(name: string, child: Node)
      /** Fails once more than `duration` has elapsed since `start`. */
    | Timeout(name: string, child: Node, duration: nat, start: Option<nat>)

  /** The node after a tick, the tick's result and the blackboard after it. */
  datatype Outcome = Outcome(node: Node, result: NodeResult, board: Board)

  // ---------------------------------------------------------------------
  // Shape

  /** The number of nodes in the tree; ticks and resets never change it. */
  function Size(n: Node): nat
  {
    match n
    case Action(_, _) => 1
    case Sequence(_, cs, _) => 1 + SizeAll(cs)
    case Selector(_, cs, _) => 1 + SizeAll(cs)
    case Parallel(_, cs, _, _) => 1 + SizeAll(cs)
    case Inverter(_, c) => 1 + Size(c)
    case Timeout(_, c, _, _) => 1 + Size(c)
  }

  function SizeAll(cs: seq<Node>): nat
  {
    if cs == [] then 0 else SizeAll(cs[..|cs| - 1]) + Size(cs[|cs| - 1])
  }

  lemma {:induction false} SizeAllElem(cs: seq<Node>, i: nat)
    requires i < |cs|
    ensures Size(cs[i]) <= SizeAll(cs)
  {
    if i < |cs| - 1 {
      SizeAllElem(cs[..|cs| - 1], i);
    }
  }

  lemma {:induction false} SizeAllUpdate(cs: seq<Node>, i: nat, x: Node)
    requires i < |cs| && Size(x) == Size(cs[i])
    ensures SizeAll(cs[i := x]) == SizeAll(cs)
  {
    if i < |cs| - 1 {
      assert cs[i := x][..|cs| - 1] == cs[..|cs| - 1][i := x];
      SizeAllUpdate(cs[..|cs| - 1], i, x);
    } else {
      assert cs[i := x][..|cs| - 1] == cs[..|cs| - 1];
    }
  }

  lemma {:induction false} SizeAllPointwise(cs: seq<Node>, ds: seq<Node>)
    requires |cs| == |ds|
    requires forall j :: 0 <= j < |cs| ==> Size(cs[j]) == Size(ds[j])
    ensures SizeAll(cs) == SizeAll(ds)
  {
    if cs != [] {
      SizeAllPointwise(cs[..|cs| - 1], ds[..|ds| - 1]);
    }
  }

  /** The structural invariant every constructed tree satisfies: a Parallel
      keeps one cached result per child and its RequireCount asks for no
      more children than it has. */
  predicate WellFormed(n: Node)
  {
    match n
    case Action(_, _) => true
    case Sequence(_, cs, _) => AllWellFormed(cs)
    case Selector(_, cs, _) => AllWellFormed(cs)
    case Parallel(_, cs, st, policy) => |st| == |cs| && Fits(policy, |cs|) && AllWellFormed(cs)
    case Inverter(_, c) => WellFormed(c)
    case Timeout(_, c, _, _) => WellFormed(c)
  }

  predicate AllWellFormed(cs: seq<Node>)
  {
    forall j :: 0 <= j < |cs| ==> WellFormed(cs[j])
  }

  // ---------------------------------------------------------------------
  // Reset

  /** `reset`: a composite sets its cursor to 0 and resets every child; a
      Parallel resets every child and sets every cached result back to
      Running; Inverter resets its child; Timeout resets its child and
      clears its anchor; an Action has nothing to reset. */
  function Reset(n: Node): (r: Node)
    ensures Size(r) == Size(n)
    ensures WellFormed(n) ==> WellFormed(r)
  {
    match n
    case Action(_, _) => n
    case Sequence(name, cs, _) => Sequence(name, ResetAll(cs), 0)
    case Selector(name, cs, _) => Selector(name, ResetAll(cs), 0)
    case Parallel(name, cs, _, policy) => Parallel(name, ResetAll(cs), AllRunning(|cs|), policy)
    case Inverter(name, c) => Inverter(name, Reset(c))
    case Timeout(name, c, duration, _) => Timeout(name, Reset(c), duration, None)
  }

  function ResetAll(cs: seq<Node>): (rs: seq<Node>)
    ensures |rs| == |cs| && SizeAll(rs) == SizeAll(cs)
    ensures AllWellFormed(cs) ==> AllWellFormed(rs)
  {
    var rs := seq(|cs|, j requires 0 <= j < |cs| => Reset(cs[j]));
    SizeAllPointwise(rs, cs);
    rs
  }

  /** The cached results of a Parallel that has not ticked any child yet. */
  function AllRunning(count: nat): (st: seq<NodeResult>)
    ensures |st| == count
    ensures forall j :: 0 <= j < count ==> st[j] == Running
  {
    seq(count, _ => Running)
  }

  // ---------------------------------------------------------------------
  // Tick

  /** The time elapsed from `start` to `now`; a clock reading before the
      anchor counts as no time at all, as Rust's `Instant` subtraction
      saturates at zero. */
  function Elapsed(start: nat, now: nat): (d: nat)
    ensures start <= now ==> d + start == now
    ensures now < start ==> d == 0
  {
    if start <= now then now - start else 0
  }

  /** One tick of `n` against the blackboard `bb` at clock reading `now`. */
  function Tick(n: Node, bb: Board, now: nat): (o: Outcome)
    requires WellFormed(n)
    ensures Size(o.node) == Size(n) && WellFormed(o.node)
    decreases Size(n), 0
  {
    match n
    case Action(_, action) =>
      var e := action(bb);
      Outcome(n, e.result, e.board)
    case Sequence(name, cs, current) =>
      var run := RunChildren(cs, current, bb, now, Passed);
      var ticked := Sequence(name, run.children, run.cursor);
      Outcome(if run.result == Running then ticked else Reset(ticked), run.result, run.board)
    case Selector(name, cs, current) =>
      var run := RunChildren(cs, current, bb, now, Failed);
      var ticked := Selector(name, run.children, run.cursor);
      Outcome(if run.result == Running then ticked else Reset(ticked), run.result, run.board)
    case Parallel(name, cs, states, policy) =>
      var sweep := RunParallel(cs, states, 0, bb, now);
      Outcome(Parallel(name, sweep.children, sweep.states, policy),
              EvaluatePolicy(policy, sweep.states), sweep.board)
    case Inverter(name, c) =>
      var o := Tick(c, bb, now);
      Outcome(Inverter(name, o.node), Invert(o.result), o.board)
    case Timeout(name, c, duration, start) =>
      var anchor := if start.Some? then start.value else now;
      if Elapsed(anchor, now) > duration then
        Outcome(Reset(n), Failed, bb)
      else
        var o := Tick(c, bb, now);
        Outcome(Timeout(name, o.node, duration, if o.result == Running then Some(anchor) else None),
                o.result, o.board)
  }

  /** Where the children loop of a Sequence or Selector stopped: the children
      after the ticks, the cursor, the loop's result and the blackboard. */
  datatype Run = Run(children: seq<Node>, cursor: nat, result: NodeResult, board: Board)

  /** The cursor loop of Sequence (`advance` = Passed) and Selector
      (`advance` = Failed): tick the child at the cursor; on `advance` move
      the cursor on and tick the next child in the same call; on any other
      result stop there with that result; past the last child the loop's
      result is `advance`. */
  function RunChildren(cs: seq<Node>, i: nat, bb: Board, now: nat, advance: NodeResult): (o: Run)
    requires AllWellFormed(cs)
    ensures |o.children| == |cs| && SizeAll(o.children) == SizeAll(cs) && AllWellFormed(o.children)
    ensures o.result == advance ==> o.cursor >= |cs|
    ensures o.result != advance ==> i <= o.cursor < |cs|
    ensures forall j :: 0 <= j < |cs| && j < i ==> o.children[j] == cs[j]
    decreases SizeAll(cs), |cs| - i
  {
    if i >= |cs| then Run(cs, i, advance, bb)
    else
      SizeAllElem(cs, i);
      var t := Tick(cs[i], bb, now);
      SizeAllUpdate(cs, i, t.node);
      if t.result == advance then RunChildren(cs[i := t.node], i + 1, t.board, now, advance)
      else Run(cs[i := t.node], i, t.result, t.board)
  }

  /** The children and cached results of a Parallel after one sweep. */
  datatype Sweep = Sweep(children: seq<Node>, states: seq<NodeResult>, board: Board)

  /** The sweep of a Parallel from child `i` on: a child whose cached
      result is Running is ticked and its cache overwritten; any other child
      is skipped. */
  function RunParallel(cs: seq<Node>, states: seq<NodeResult>, i: nat, bb: Board, now: nat): (o: Sweep)
    requires |states| == |cs| && AllWellFormed(cs)
    ensures |o.children| == |cs| && |o.states| == |cs|
    ensures SizeAll(o.children) == SizeAll(cs) && AllWellFormed(o.children)
    ensures forall j :: 0 <= j < |cs| && (j < i || states[j] != Running) ==>
      o.children[j] == cs[j] && o.states[j] == states[j]
    decreases SizeAll(cs), |cs| - i
  {
    if i >= |cs| then Sweep(cs, states, bb)
    else if states[i] != Running then RunParallel(cs, states, i + 1, bb, now)
    else
      SizeAllElem(cs, i);
      var t := Tick(cs[i], bb, now);
      SizeAllUpdate(cs, i, t.node);
      RunParallel(cs[i := t.node], states[i := t.result], i + 1, t.board, now)
  }

  // ---------------------------------------------------------------------
  // Construction

  /** `Parallel::new` with a construction-time check the source lacks: a
      RequireCount larger than the number of children is refused, so the
      policy's `len - required` can never underflow. */
  function NewParallel(name: string, cs: seq<Node>, policy: ParallelPolicy): (r: Option<Node>)
    requires AllWellFormed(cs)
    ensures r.Some? <==> Fits(policy, |cs|)
    ensures r.Some? ==> WellFormed(r.value) && r.value.Parallel? && r.value.children == cs
    ensures r.Some? ==> r.value.name == name && r.value.policy == policy
    ensures r.Some? ==> forall j :: 0 <= j < |cs| ==> r.value.states[j] == Running
  {
    if Fits(policy, |cs|) then Some(Parallel(name, cs, AllRunning(|cs|), policy)) else None
  }
  // ---------------------------------------------------------------------
  // The just-constructed state, and driving a tree over several ticks

  /** A node in the state its constructor leaves it in: every cursor at 0,
      every cached result Running, no timeout anchor, all the way down. */
  predicate Pristine(n: Node)
  {
    match n
    case Action(_, _) => true
    case Sequence(_, cs, current) => current == 0 && AllPristine(cs)
    case Selector(_, cs, current) => current == 0 && AllPristine(cs)
    case Parallel(_, cs, states, _) =>
      |states| == |cs| && (forall j :: 0 <= j < |states| ==> states[j] == Running) && AllPristine(cs)
    case Inverter(_, c) => Pristine(c)
    case Timeout(_, c, _, start) => start == None && Pristine(c)
  }

  predicate AllPristine(cs: seq<Node>)
  {
    forall j :: 0 <= j < |cs| ==> Pristine(cs[j])
  }

  /** Two nodes built alike: the same kind, name, Parallel policy, Timeout
      duration and Action function, over children built alike in the same
      order. The cursor, the cached results and the timeout anchor, which
      ticks and resets rewrite, are not compared. */
  ghost predicate SameSetup(a: Node, b: Node)
  {
    match a
    case Action(_, _) => b == a
    case Sequence(name, cs, _) => b.Sequence? && b.name == name && AllSameSetup(cs, b.children)
    case Selector(name, cs, _) => b.Selector? && b.name == name && AllSameSetup(cs, b.children)
    case Parallel(name, cs, _, policy) =>
      b.Parallel? && b.name == name && b.policy == policy && AllSameSetup(cs, b.children)
    case Inverter(name, c) => b.Inverter? && b.name == name && SameSetup(c, b.child)
    case Timeout(name, c, duration, _) =>
      b.Timeout? && b.name == name && b.duration == duration && SameSetup(c, b.child)
  }

  ghost predicate AllSameSetup(cs: seq<Node>, ds: seq<Node>)
  {
    |cs| == |ds| && forall j :: 0 <= j < |cs| ==> SameSetup(cs[j], ds[j])
  }

  /** The results and blackboards an application sees when it ticks the
      tree once per clock reading in `nows`, with nothing else touching the
      blackboard in between. */
  function Replay(n: Node, bb: Board, nows: seq<nat>): (effects: seq<Effect>)
    requires WellFormed(n)
    ensures |effects| == |nows|
    decreases nows
  {
    if nows == [] then []
    else
      var o := Tick(n, bb, nows[0]);
      [Effect(o.result, o.board)] + Replay(o.node, o.board, nows[1..])
  }
}
