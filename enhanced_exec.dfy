/** The enhanced engine's tick and reset as the source runs them: the
    cursor loop of Sequence and Selector, the sweep of Parallel and the
    reset loops, each proved to compute what EnhancedNodes specifies; and
    the tree driver that owns the root and the blackboard. */
module EnhancedExec {
  import opened Core
  import opened EnhancedPolicy
  import opened EnhancedBlackBoard
  import opened EnhancedNodes

  /** Ticks `n` once, updating the blackboard in place; returns the node's
      next state and its result. */
  method TickNode(n: Node, bb: BlackBoard, now: nat) returns (next: Node, r: NodeResult)
    requires WellFormed(n)
    modifies bb
    ensures EnhancedNodes.Tick(n, old(bb.data), now) == Outcome(next, r, bb.data)
    decreases Size(n), 1
  {
    match n
    case Action(_, action) =>
      var e := action(bb.data);
      bb.data := e.board;
      next, r := n, e.result;
    case Sequence(name, cs, current) =>
      var children, cursor;
      children, cursor, r := RunComposite(cs, current, bb, now, Passed);
      next := Sequence(name, children, cursor);
      if r != Running {
        next := ResetNode(next);
      }
    case Selector(name, cs, current) =>
      var children, cursor;
      children, cursor, r := RunComposite(cs, current, bb, now, Failed);
      next := Selector(name, children, cursor);
      if r != Running {
        next := ResetNode(next);
      }
    case Parallel(name, cs, states, policy) =>
      var children, cached := cs, states;
      for i := 0 to |cs|
        invariant |children| == |cs| && |cached| == |cs|
        invariant SizeAll(children) == SizeAll(cs) && AllWellFormed(children)
        invariant RunParallel(children, cached, i, bb.data, now) == RunParallel(cs, states, 0, old(bb.data), now)
      {
        if cached[i] == Running {
          SizeAllElem(children, i);
          var child, result := TickNode(children[i], bb, now);
          SizeAllUpdate(children, i, child);
          children, cached := children[i := child], cached[i := result];
        }
      }
      next, r := Parallel(name, children, cached, policy), EvaluatePolicy(policy, cached);
    case Inverter(name, c) =>
      var child, result := TickNode(c, bb, now);
      next, r := Inverter(name, child), Invert(result);
    case Timeout(name, c, duration, start) =>
      var anchor := if start.Some? then start.value else now;
      if Elapsed(anchor, now) > duration {
        next := ResetNode(Timeout(name, c, duration, Some(anchor)));
        r := Failed;
      } else {
        var child;
        child, r := TickNode(c, bb, now);
        next := Timeout(name, child, duration, if r != Running then None else Some(anchor));
      }
  }

  /** The `while` loop of Sequence::tick and Selector::tick: starting at the
      cursor, tick children as long as they return `advance`. */
  method RunComposite(cs: seq<Node>, current: nat, bb: BlackBoard, now: nat, advance: NodeResult)
    returns (children: seq<Node>, cursor: nat, r: NodeResult)
    requires AllWellFormed(cs)
    modifies bb
    ensures RunChildren(cs, current, old(bb.data), now, advance) == Run(children, cursor, r, bb.data)
    decreases SizeAll(cs), 2
  {
    children, cursor := cs, current;
    while cursor < |children|
      invariant |children| == |cs| && SizeAll(children) == SizeAll(cs) && AllWellFormed(children)
      invariant RunChildren(children, cursor, bb.data, now, advance)
             == RunChildren(cs, current, old(bb.data), now, advance)
      decreases |children| - cursor
    {
      SizeAllElem(children, cursor);
      var child, result := TickNode(children[cursor], bb, now);
      SizeAllUpdate(children, cursor, child);
      children := children[cursor := child];
      if result != advance {
        r := result;
        return;
      }
      cursor := cursor + 1;
    }
    r := advance;
  }

  /** `reset` as the source runs it, one child at a time. */
  method ResetNode(n: Node) returns (r: Node)
    requires WellFormed(n)
    ensures r == EnhancedNodes.Reset(n)
    decreases n, 1
  {
    match n
    case Action(_, _) =>
      r := n;
    case Sequence(name, cs, _) =>
      var children := ResetChildren(cs);
      r := Sequence(name, children, 0);
    case Selector(name, cs, _) =>
      var children := ResetChildren(cs);
      r := Selector(name, children, 0);
    case Parallel(name, cs, states, policy) =>
      var children, cached := cs, states;
      for i := 0 to |cs|
        invariant |children| == |cs| && |cached| == |cs|
        invariant forall j :: 0 <= j < i ==> children[j] == EnhancedNodes.Reset(cs[j]) && cached[j] == Running
        invariant forall j :: i <= j < |cs| ==> children[j] == cs[j]
      {
        var child := ResetNode(cs[i]);
        children, cached := children[i := child], cached[i := Running];
      }
      r := Parallel(name, children, cached, policy);
    case Inverter(name, c) =>
      var child := ResetNode(c);
      r := Inverter(name, child);
    case Timeout(name, c, duration, _) =>
      var child := ResetNode(c);
      r := Timeout(name, child, duration, None);
  }

  /** The `for child in &mut self.children { child.reset(); }` loop. */
  method ResetChildren(cs: seq<Node>) returns (children: seq<Node>)
    requires AllWellFormed(cs)
    ensures children == ResetAll(cs)
    decreases cs, 0
  {
    children := cs;
    for i := 0 to |cs|
      invariant |children| == |cs|
      invariant forall j :: 0 <= j < i ==> children[j] == EnhancedNodes.Reset(cs[j])
      invariant forall j :: i <= j < |cs| ==> children[j] == cs[j]
    {
      var child := ResetNode(cs[i]);
      children := children[i := child];
    }
  }

  /** The tree driver: the root node and the blackboard it owns. */
  class BehavioralTree {
    var root: Node
    const blackboard: BlackBoard

    predicate Valid()
      reads this
    {
      WellFormed(root)
    }

    /** A tree over `root` with a fresh, empty blackboard. */
    constructor (root: Node)
      requires WellFormed(root)
      ensures Valid() && this.root == root
      ensures fresh(blackboard) && blackboard.data == map[]
    {
      this.root := root;
      blackboard := new BlackBoard();
    }

    /** One tick of the root against the tree's own blackboard. */
    method Tick(now: nat) returns (r: NodeResult)
      requires Valid()
      modifies this, blackboard
      ensures Valid()
      ensures EnhancedNodes.Tick(old(root), old(blackboard.data), now) == Outcome(root, r, blackboard.data)
    {
      root, r := TickNode(root, blackboard, now);
    }

    /** Resets the whole tree; the blackboard keeps its contents. */
    method Reset()
      requires Valid()
      modifies this
      ensures Valid() && root == EnhancedNodes.Reset(old(root))
    {
      root := ResetNode(root);
    }

    /** The blackboard the tree ticks against, for the application to read
        and write between ticks. */
    method BlackBoardOf() returns (b: BlackBoard)
      ensures b == blackboard
    {
      b := blackboard;
    }
  }
}
