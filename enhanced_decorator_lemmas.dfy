/** What the enhanced Inverter and Timeout decorators guarantee. */
module EnhancedDecorators {
  import opened Core
  import opened EnhancedNodes

  // ---------------------------------------------------------------------
  // Timeout

  /** The tick that finds no anchor records the current clock reading and,
      since no time has elapsed yet, always ticks the child; the anchor is
      kept only while the child is Running. */
  lemma TimeoutAnchorsFirstTick(name: string, c: Node, duration: nat, bb: Board, now: nat)
    requires WellFormed(c)
    ensures var o, t := Tick(Timeout(name, c, duration, None), bb, now), Tick(c, bb, now);
      o.result == t.result && o.board == t.board &&
      o.node == Timeout(name, t.node, duration, if t.result == Running then Some(now) else None)
  {
  }

  /** Once strictly more than `duration` has elapsed since the anchor, the
      tick fails without ticking the child: the blackboard is untouched, the
      child is reset and the anchor cleared. */
  lemma TimeoutExpires(name: string, c: Node, duration: nat, start: nat, bb: Board, now: nat)
    requires WellFormed(c)
    requires now > start + duration
    ensures Tick(Timeout(name, c, duration, Some(start)), bb, now) ==
      Outcome(Timeout(name, Reset(c), duration, None), Failed, bb)
  {
  }

  /** Within the duration the Timeout is transparent: it reports the
      child's result and blackboard, and keeps its anchor exactly while the
      child is Running. */
  lemma TimeoutWithinDuration(name: string, c: Node, duration: nat, start: nat, bb: Board, now: nat)
    requires WellFormed(c)
    requires now <= start + duration
    ensures var o, t := Tick(Timeout(name, c, duration, Some(start)), bb, now), Tick(c, bb, now);
      o.result == t.result && o.board == t.board &&
      o.node == Timeout(name, t.node, duration, if t.result == Running then Some(start) else None)
  {
  }

  /** A Timeout fails only when its duration has run out or its child
      failed. */
  lemma TimeoutFailsOnlyWhenDue(name: string, c: Node, duration: nat, start: Option<nat>, bb: Board, now: nat)
    requires WellFormed(c)
    ensures Tick(Timeout(name, c, duration, start), bb, now).result == Failed <==>
      (start.Some? && now > start.value + duration) ||
      ((start.None? || now <= start.value + duration) && Tick(c, bb, now).result == Failed)
  {
  }

  /** The timeout scenario: a child that keeps running, a duration of 100,
      a first tick at `t0` and a second one 150 later: Running, then
      Failed. */
  lemma LongActionTimesOut(bb: Board, t0: nat)
    ensures var effects := Replay(Timeout("timeout_test", Action("long_action", b => Effect(Running, b)), 100, None),
                                  bb, [t0, t0 + 150]);
      effects[0].result == Running && effects[1].result == Failed
  {
    var leaf := Action("long_action", b => Effect(Running, b));
    var first := Tick(Timeout("timeout_test", leaf, 100, None), bb, t0);
    assert first == Outcome(Timeout("timeout_test", leaf, 100, Some(t0)), Running, bb);
    assert [t0, t0 + 150][1..] == [t0 + 150];
  }

  // ---------------------------------------------------------------------
  // Inverter

  /** Inverting twice hides nothing: a double Inverter, driven over any
      sequence of clock readings, yields the same results and blackboards
      as the node it wraps. */
  lemma {:induction false} DoubleInverterIsTransparent(outer: string, inner: string, n: Node, bb: Board, nows: seq<nat>)
    requires WellFormed(n)
    ensures Replay(Inverter(outer, Inverter(inner, n)), bb, nows) == Replay(n, bb, nows)
    decreases nows
  {
    if nows != [] {
      var o := Tick(n, bb, nows[0]);
      InvertInvolutive(o.result);
      assert Tick(Inverter(outer, Inverter(inner, n)), bb, nows[0]) ==
        Outcome(Inverter(outer, Inverter(inner, o.node)), o.result, o.board);
      DoubleInverterIsTransparent(outer, inner, o.node, o.board, nows[1..]);
    }
  }

  /** The inverter scenario: an Inverter over an action that fails
      passes. */
  lemma FailingActionInvertedPasses(bb: Board, now: nat)
    ensures Tick(Inverter("inverter_test", Action("fail_action", b => Effect(Failed, b))), bb, now).result == Passed
  {
  }
}
