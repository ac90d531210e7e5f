/** The nodes of the original library. None of them keeps any state that a
    tick changes, so a tick is a function from the node and the blackboard
    to a result and the next blackboard, and every tick starts over from the
    first child. */
module LibNodes {
  import opened Core
  import LibBlackBoard

  datatype Node =
      /** A leaf wrapping an application function. */
    | Action(name: string, action: Board -> Effect)
      /** A leaf wrapping a predicate, gated by a flag. */
    | Condition(condition: Board -> Check, isKeyPresent: bool)
      /** AND over the children, from the first child on every tick. */
    | Sequence(children: seq<Node>)
      /** OR over the children, from the first child on every tick. */
    | Selector(children: seq<Node>)
      /** Swaps Passed and Failed. */
    | Inverter(child: Node, name: string)
      /** Turns a Failed child into Running. */
    | Repeat(child: Node)

  /** One tick of `n` against the blackboard `bb`: a Condition never reports
      Running, a Repeat never reports Failed, and an Inverter reports Running
      exactly when its child does. */
  function Tick(n: Node, bb: Board): (r: Effect)
    ensures n.Condition? ==> r.result != Running
    ensures n.Repeat? ==> r.result != Failed
    ensures n.Inverter? ==> (r.result == Running <==> Tick(n.child, bb).result == Running)
    decreases n
  {
    match n
    case Action(_, action) => action(bb)
    case Condition(condition, isKeyPresent) =>
      var c := condition(bb);
      Effect(if c.holds && isKeyPresent then Passed else Failed, c.board)
    case Sequence(cs) => RunChildren(cs, bb, Passed)
    case Selector(cs) => RunChildren(cs, bb, Failed)
    case Inverter(c, _) =>
      var e := Tick(c, bb);
      Effect(Invert(e.result), e.board)
    case Repeat(c) =>
      var e := Tick(c, bb);
      Effect(if e.result == Passed then Passed else Running, e.board)
  }

  /** The children loop of Sequence (`advance` = Passed) and Selector
      (`advance` = Failed): tick the children in order while they return
      `advance`; the first other result is returned at once; if every child
      returned `advance`, so does the loop. A result other than `advance` is
      the effect of one of the children ticked in turn. */
  function RunChildren(cs: seq<Node>, bb: Board, advance: NodeResult): (r: Effect)
    ensures r.result != advance ==> r in Chain(cs, bb)
    decreases cs, 1
  {
    if cs == [] then Effect(advance, bb)
    else
      var e := Tick(cs[0], bb);
      if e.result == advance then RunChildren(cs[1..], e.board, advance) else e
  }

  /** The reference the loop is measured against: the effect of ticking
      every child in turn, each against the blackboard the previous one left,
      without ever stopping. */
  function Chain(cs: seq<Node>, bb: Board): (es: seq<Effect>)
    ensures |es| == |cs|
    decreases cs, 0
  {
    if cs == [] then []
    else
      var e := Tick(cs[0], bb);
      [e] + Chain(cs[1..], e.board)
  }

  /** The blackboard after the last effect of a chain started from `bb`. */
  function LastBoard(bb: Board, es: seq<Effect>): Board
  {
    if es == [] then bb else es[|es| - 1].board
  }

  // ---------------------------------------------------------------------
  // The tick as the source runs it

  /** Ticks `n` once, updating the blackboard in place; Sequence and Selector
      run their `for` loop with early returns. */
  method TickNode(n: Node, bb: LibBlackBoard.BlackBoard) returns (r: NodeResult)
    modifies bb
    ensures Tick(n, old(bb.data)) == Effect(r, bb.data)
    decreases n, 1
  {
    match n
    case Action(_, action) =>
      var e := action(bb.data);
      bb.data := e.board;
      r := e.result;
    case Condition(condition, isKeyPresent) =>
      var c := condition(bb.data);
      bb.data := c.board;
      if c.holds && isKeyPresent {
        r := Passed;
      } else {
        r := Failed;
      }
    case Sequence(cs) =>
      r := RunLoop(cs, bb, Passed);
    case Selector(cs) =>
      r := RunLoop(cs, bb, Failed);
    case Inverter(c, _) =>
      var result := TickNode(c, bb);
      match result {
        case Passed => r := Failed;
        case Failed => r := Passed;
        case Running => r := Running;
      }
    case Repeat(c) =>
      var result := TickNode(c, bb);
      if result == Passed {
        r := Passed;
      } else {
        r := Running;
      }
  }

  /** `for i in &mut self.children`: the first child that does not return
      `advance` decides the result. */
  method RunLoop(cs: seq<Node>, bb: LibBlackBoard.BlackBoard, advance: NodeResult) returns (r: NodeResult)
    modifies bb
    ensures RunChildren(cs, old(bb.data), advance) == Effect(r, bb.data)
    decreases cs, 2
  {
    for i := 0 to |cs|
      invariant RunChildren(cs[i..], bb.data, advance) == RunChildren(cs, old(bb.data), advance)
    {
      assert cs[i..][1..] == cs[i + 1..];
      var result := TickNode(cs[i], bb);
      if result != advance {
        return result;
      }
    }
    r := advance;
  }

  // ---------------------------------------------------------------------
  // Construction, reset and names

  /** `Action::new`. */
  function NewAction(name: string, action: Board -> Effect): (n: Node)
    ensures n.Action? && Name(n) == name
    ensures forall bb :: Tick(n, bb) == action(bb)
  {
    Action(name, action)
  }

  /** `Condition::new`: the flag starts, and stays, false. */
  function NewCondition(condition: Board -> Check): (n: Node)
    ensures n.Condition? && !n.isKeyPresent
  {
    Condition(condition, false)
  }

  /** `Inverter::new`. */
  function NewInverter(child: Node, name: string): (n: Node)
    ensures n.Inverter? && Name(n) == name && n.child == child
    ensures forall bb :: Tick(n, bb) == Effect(Invert(Tick(child, bb).result), Tick(child, bb).board)
  {
    Inverter(child, name)
  }

  /** `get_name` of the nodes that name themselves, Action and Inverter:
      the name the node was built with, so building it again with that name
      gives back the same node. */
  function Name(n: Node): (r: string)
    requires n.Action? || n.Inverter?
    ensures n.Action? ==> Action(r, n.action) == n
    ensures n.Inverter? ==> Inverter(n.child, r) == n
  {
    n.name
  }

  /** The nodes that can be reset: an Action, whose reset does nothing, and
      an Inverter, whose reset resets its child. */
  predicate Resettable(n: Node)
  {
    match n
    case Action(_, _) => true
    case Inverter(c, _) => Resettable(c)
    case _ => false
  }

  /** `reset`: since an Action has nothing to reset and an Inverter only
      delegates, a reset leaves the node exactly as it was. */
  function Reset(n: Node): (r: Node)
    requires Resettable(n)
    ensures r == n
  {
    match n
    case Action(_, _) => n
    case Inverter(c, name) => Inverter(Reset(c), name)
  }
}
