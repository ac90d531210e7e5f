/** What the original library's nodes guarantee, stated against the
    reference Chain: the effects of ticking every child in turn. */
module LibProperties {
  import opened Core
  import opened LibNodes

  /** The index of the first effect whose result is not `advance`, or the
      length when there is none. */
  function FirstOther(es: seq<Effect>, advance: NodeResult): (k: nat)
    ensures k <= |es|
    ensures forall j :: 0 <= j < k ==> es[j].result == advance
    ensures k < |es| ==> es[k].result != advance
  {
    if es == [] then 0
    else if es[0].result != advance then 0
    else 1 + FirstOther(es[1..], advance)
  }

  /** The loop of a Sequence or Selector returns the effect of the first
      child, in the unstopped chain, that did not return `advance`; if there
      is none it returns `advance` with the blackboard the last child left
      (the one it was given, for no children). */
  lemma {:induction false} RunChildrenIsFirstStop(cs: seq<Node>, bb: Board, advance: NodeResult)
    ensures var es := Chain(cs, bb);
      var k := FirstOther(es, advance);
      RunChildren(cs, bb, advance) == if k < |cs| then es[k] else Effect(advance, LastBoard(bb, es))
    decreases cs
  {
    if cs != [] {
      var e := Tick(cs[0], bb);
      var rest := Chain(cs[1..], e.board);
      var es := Chain(cs, bb);
      assert es == [e] + rest;
      if e.result == advance {
        RunChildrenIsFirstStop(cs[1..], e.board, advance);
        ShiftFirstOther(e, rest, bb, advance);
      }
    }
  }

  /** Putting an effect that returned `advance` in front of a chain moves the
      first stop one place on and keeps the last blackboard. */
  lemma ShiftFirstOther(e: Effect, rest: seq<Effect>, bb: Board, advance: NodeResult)
    requires e.result == advance
    ensures var es := [e] + rest;
      FirstOther(es, advance) == 1 + FirstOther(rest, advance) &&
      (FirstOther(rest, advance) < |rest| ==> es[FirstOther(es, advance)] == rest[FirstOther(rest, advance)]) &&
      LastBoard(bb, es) == LastBoard(e.board, rest)
  {
    assert ([e] + rest)[1..] == rest;
  }

  /** The children after the one that stopped the loop are never ticked:
      appending children changes nothing once the loop stops early, and
      otherwise the loop simply carries on into them. */
  lemma {:induction false} RunChildrenAppend(cs: seq<Node>, rest: seq<Node>, bb: Board, advance: NodeResult)
    ensures var e := RunChildren(cs, bb, advance);
      RunChildren(cs + rest, bb, advance) ==
        if e.result == advance then RunChildren(rest, e.board, advance) else e
    decreases cs
  {
    if cs != [] {
      assert (cs + rest)[0] == cs[0];
      assert (cs + rest)[1..] == cs[1..] + rest;
      var e := Tick(cs[0], bb);
      if e.result == advance {
        RunChildrenAppend(cs[1..], rest, e.board, advance);
      }
    } else {
      assert cs + rest == rest;
    }
  }

  /** Sequence: Passed iff every child passed, the blackboard then being the
      one the last child left; otherwise the result and blackboard of the
      first child that failed or is running. With no children: Passed. */
  lemma SequenceRule(cs: seq<Node>, bb: Board)
    ensures var e, es := Tick(Sequence(cs), bb), Chain(cs, bb);
      (e.result == Passed <==> forall j :: 0 <= j < |cs| ==> es[j].result == Passed) &&
      (e.result == Passed ==> e.board == LastBoard(bb, es)) &&
      (forall k :: 0 <= k < |cs| && es[k].result != Passed && (forall j :: 0 <= j < k ==> es[j].result == Passed) ==>
        e == es[k])
  {
    var es := Chain(cs, bb);
    RunChildrenIsFirstStop(cs, bb, Passed);
    var k := FirstOther(es, Passed);
    forall k' | 0 <= k' < |cs| && es[k'].result != Passed && (forall j :: 0 <= j < k' ==> es[j].result == Passed)
      ensures k' == k
    {
    }
  }

  /** Selector, the dual: Failed iff every child failed, the blackboard then
      being the one the last child left; otherwise the result and blackboard
      of the first child that passed or is running. With no children:
      Failed. */
  lemma SelectorRule(cs: seq<Node>, bb: Board)
    ensures var e, es := Tick(Selector(cs), bb), Chain(cs, bb);
      (e.result == Failed <==> forall j :: 0 <= j < |cs| ==> es[j].result == Failed) &&
      (e.result == Failed ==> e.board == LastBoard(bb, es)) &&
      (forall k :: 0 <= k < |cs| && es[k].result != Failed && (forall j :: 0 <= j < k ==> es[j].result == Failed) ==>
        e == es[k])
  {
    var es := Chain(cs, bb);
    RunChildrenIsFirstStop(cs, bb, Failed);
    var k := FirstOther(es, Failed);
    forall k' | 0 <= k' < |cs| && es[k'].result != Failed && (forall j :: 0 <= j < k' ==> es[j].result == Failed)
      ensures k' == k
    {
    }
  }

  /** Each child wrapped in an Inverter named `tag`. */
  function Wrap(cs: seq<Node>, tag: string): (ws: seq<Node>)
    ensures |ws| == |cs|
    ensures forall j :: 0 <= j < |cs| ==> ws[j] == Inverter(cs[j], tag)
  {
    seq(|cs|, j requires 0 <= j < |cs| => Inverter(cs[j], tag))
  }

  lemma {:induction false} RunChildrenDuality(cs: seq<Node>, bb: Board, tag: string)
    ensures var a, b := RunChildren(cs, bb, Failed), RunChildren(Wrap(cs, tag), bb, Passed);
      b == Effect(Invert(a.result), a.board)
    decreases cs
  {
    if cs != [] {
      assert Wrap(cs, tag)[1..] == Wrap(cs[1..], tag);
      var e := Tick(cs[0], bb);
      if e.result == Failed {
        RunChildrenDuality(cs[1..], e.board, tag);
      } else {
        InvertInvolutive(e.result);
      }
    }
  }

  /** A Selector is an Inverter over a Sequence of inverted children: the
      same result and the same blackboard, on every input. */
  lemma SelectorIsInvertedSequence(cs: seq<Node>, bb: Board, outer: string, tag: string)
    ensures Tick(Selector(cs), bb) == Tick(Inverter(Sequence(Wrap(cs, tag)), outer), bb)
  {
    RunChildrenDuality(cs, bb, tag);
    InvertInvolutive(RunChildren(cs, bb, Failed).result);
  }

  /** Two Inverters cancel: the same result and blackboard as the node they
      wrap. */
  lemma DoubleInverterIsTransparent(n: Node, bb: Board, inner: string, outer: string)
    ensures Tick(Inverter(Inverter(n, inner), outer), bb) == Tick(n, bb)
  {
    InvertInvolutive(Tick(n, bb).result);
  }

  /** Repeat never fails: Passed exactly when its child passed, Running
      otherwise, with the child's blackboard. */
  lemma RepeatRule(c: Node, bb: Board)
    ensures var e, t := Tick(Repeat(c), bb), Tick(c, bb);
      e.result != Failed && (e.result == Passed <==> t.result == Passed) && e.board == t.board
  {
  }

  /** A Condition never runs: it passes exactly when its predicate holds and
      its flag is set, and the predicate's effect on the blackboard always
      takes place. */
  lemma ConditionRule(condition: Board -> Check, isKeyPresent: bool, bb: Board)
    ensures var e := Tick(Condition(condition, isKeyPresent), bb);
      e.result != Running &&
      (e.result == Passed <==> condition(bb).holds && isKeyPresent) &&
      e.board == condition(bb).board
  {
  }

  /** A freshly constructed Condition fails on every tick, whatever its
      predicate says, though the predicate still runs. */
  lemma FreshConditionFails(condition: Board -> Check, bb: Board)
    ensures Tick(NewCondition(condition), bb) == Effect(Failed, condition(bb).board)
  {
  }
}
