/** What the cursor of the enhanced Sequence and Selector guarantees. */
module EnhancedComposites {
  import opened Core
  import opened EnhancedNodes

  // ---------------------------------------------------------------------
  // One step of the cursor loop, stated on whole nodes

  /** The Sequence rules, one child at a time: a Passed child moves the
      cursor on and the next child is ticked in the same call; a Running
      child ends the tick with the cursor left on it; a Failed child ends the
      tick with the whole Sequence reset; past the last child the Sequence
      resets and passes without ticking anything. */
  lemma SequenceStep(name: string, cs: seq<Node>, current: nat, bb: Board, now: nat)
    requires AllWellFormed(cs)
    ensures current >= |cs| ==>
      Tick(Sequence(name, cs, current), bb, now) == Outcome(Reset(Sequence(name, cs, current)), Passed, bb)
    ensures current < |cs| ==>
      var t := Tick(cs[current], bb, now);
      var cs' := cs[current := t.node];
      AllWellFormed(cs') &&
      Tick(Sequence(name, cs, current), bb, now) ==
        match t.result
        case Passed => Tick(Sequence(name, cs', current + 1), t.board, now)
        case Failed => Outcome(Reset(Sequence(name, cs', current)), Failed, t.board)
        case Running => Outcome(Sequence(name, cs', current), Running, t.board)
  {
    if current < |cs| {
      var t := Tick(cs[current], bb, now);
      var cs' := cs[current := t.node];
      assert AllWellFormed(cs') by {
        forall k | 0 <= k < |cs'| ensures WellFormed(cs'[k]) { }
      }
      assert RunChildren(cs, current, bb, now, Passed) ==
        if t.result == Passed then RunChildren(cs', current + 1, t.board, now, Passed)
        else Run(cs', current, t.result, t.board);
    }
  }

  /** The Selector rules, the dual of SequenceStep: a Failed child moves the
      cursor on within the same call, a Running child holds it, a Passed
      child resets the Selector and passes, and exhausting the children
      resets it and fails. */
  lemma SelectorStep(name: string, cs: seq<Node>, current: nat, bb: Board, now: nat)
    requires AllWellFormed(cs)
    ensures current >= |cs| ==>
      Tick(Selector(name, cs, current), bb, now) == Outcome(Reset(Selector(name, cs, current)), Failed, bb)
    ensures current < |cs| ==>
      var t := Tick(cs[current], bb, now);
      var cs' := cs[current := t.node];
      AllWellFormed(cs') &&
      Tick(Selector(name, cs, current), bb, now) ==
        match t.result
        case Failed => Tick(Selector(name, cs', current + 1), t.board, now)
        case Passed => Outcome(Reset(Selector(name, cs', current)), Passed, t.board)
        case Running => Outcome(Selector(name, cs', current), Running, t.board)
  {
    if current < |cs| {
      var t := Tick(cs[current], bb, now);
      var cs' := cs[current := t.node];
      assert AllWellFormed(cs') by {
        forall k | 0 <= k < |cs'| ensures WellFormed(cs'[k]) { }
      }
      assert RunChildren(cs, current, bb, now, Failed) ==
        if t.result == Failed then RunChildren(cs', current + 1, t.board, now, Failed)
        else Run(cs', current, t.result, t.board);
    }
  }

  // ---------------------------------------------------------------------
  // Where the loop stops

  /** The loop stops either past the last child with the result `advance`,
      or at a child that gave another result, never before the cursor it
      started from; the children before that cursor and after the stopping
      point are left untouched. */
  lemma {:induction false} RunChildrenStops(cs: seq<Node>, i: nat, bb: Board, now: nat, advance: NodeResult)
    requires AllWellFormed(cs)
    ensures var o := RunChildren(cs, i, bb, now, advance);
      (o.result == advance ==> o.cursor >= |cs| && o.cursor >= i) &&
      (o.result != advance ==> i <= o.cursor < |cs|) &&
      (forall j :: 0 <= j < |cs| && (j < i || j > o.cursor) ==> o.children[j] == cs[j])
    decreases |cs| - i
  {
    if i < |cs| {
      var t := Tick(cs[i], bb, now);
      if t.result == advance {
        RunChildrenStops(cs[i := t.node], i + 1, t.board, now, advance);
      }
    }
  }

  /** A Sequence that reports Running holds its cursor on a child at or after
      the cursor it started from, and has not touched the children it had
      already finished; one that reports Passed or Failed is back in its
      just-constructed state, cursor 0 and every child reset;
      EnhancedSetup.TickKeepsSetup adds that it keeps its name and its
      children, built alike, in order. */
  lemma SequenceCursor(name: string, cs: seq<Node>, current: nat, bb: Board, now: nat)
    requires AllWellFormed(cs)
    ensures var o := Tick(Sequence(name, cs, current), bb, now);
      o.node.Sequence? && |o.node.children| == |cs| &&
      (o.result == Running ==>
        current <= o.node.current < |cs| &&
        forall j :: 0 <= j < current ==> o.node.children[j] == cs[j]) &&
      (o.result != Running ==> o.node.current == 0 && Pristine(o.node))
  {
    var run := RunChildren(cs, current, bb, now, Passed);
    RunChildrenStops(cs, current, bb, now, Passed);
    ResetMakesPristine(Sequence(name, run.children, run.cursor));
  }

  /** The Selector counterpart of SequenceCursor. */
  lemma SelectorCursor(name: string, cs: seq<Node>, current: nat, bb: Board, now: nat)
    requires AllWellFormed(cs)
    ensures var o := Tick(Selector(name, cs, current), bb, now);
      o.node.Selector? && |o.node.children| == |cs| &&
      (o.result == Running ==>
        current <= o.node.current < |cs| &&
        forall j :: 0 <= j < current ==> o.node.children[j] == cs[j]) &&
      (o.result != Running ==> o.node.current == 0 && Pristine(o.node))
  {
    var run := RunChildren(cs, current, bb, now, Failed);
    RunChildrenStops(cs, current, bb, now, Failed);
    ResetMakesPristine(Selector(name, run.children, run.cursor));
  }

  // ---------------------------------------------------------------------
  // Resumption: finished children are not ticked again

  /** The loop from cursor `i` never looks at the children before `i`: two
      child lists that agree from `i` on give the same cursor, result and
      blackboard, and the same children from `i` on. */
  lemma RunChildrenIgnoresPrefix(cs: seq<Node>, ds: seq<Node>, i: nat, bb: Board, now: nat, advance: NodeResult)
    requires AllWellFormed(cs) && AllWellFormed(ds) && |cs| == |ds|
    requires forall j :: i <= j < |cs| ==> cs[j] == ds[j]
    ensures var a, b := RunChildren(cs, i, bb, now, advance), RunChildren(ds, i, bb, now, advance);
      a.cursor == b.cursor && a.result == b.result && a.board == b.board &&
      forall j :: i <= j < |cs| ==> a.children[j] == b.children[j]
  {
    SameStop(cs, ds, i, bb, now, advance);
    SameSuffix(cs, ds, i, bb, now, advance);
  }

  /** The cursor, result and blackboard half of RunChildrenIgnoresPrefix. */
  lemma {:induction false} SameStop(cs: seq<Node>, ds: seq<Node>, i: nat, bb: Board, now: nat, advance: NodeResult)
    requires AllWellFormed(cs) && AllWellFormed(ds) && |cs| == |ds|
    requires forall j :: i <= j < |cs| ==> cs[j] == ds[j]
    ensures var a, b := RunChildren(cs, i, bb, now, advance), RunChildren(ds, i, bb, now, advance);
      a.cursor == b.cursor && a.result == b.result && a.board == b.board
    decreases |cs| - i
  {
    if i < |cs| {
      var t := Tick(cs[i], bb, now);
      if t.result == advance {
        SameStop(cs[i := t.node], ds[i := t.node], i + 1, t.board, now, advance);
      }
    }
  }

  /** The children half of RunChildrenIgnoresPrefix. */
  lemma {:induction false} SameSuffix(cs: seq<Node>, ds: seq<Node>, i: nat, bb: Board, now: nat, advance: NodeResult)
    requires AllWellFormed(cs) && AllWellFormed(ds) && |cs| == |ds|
    requires forall j :: i <= j < |cs| ==> cs[j] == ds[j]
    ensures var a, b := RunChildren(cs, i, bb, now, advance), RunChildren(ds, i, bb, now, advance);
      forall j :: i <= j < |cs| ==> a.children[j] == b.children[j]
    decreases |cs| - i, 1
  {
    if i < |cs| && Tick(cs[i], bb, now).result == advance {
      SameSuffixAt(cs, ds, i, bb, now, advance);
    }
  }

  /** SameSuffix when the child at the cursor advances: both lists tick the
      same node there and carry on. */
  lemma {:induction false} SameSuffixAt(cs: seq<Node>, ds: seq<Node>, i: nat, bb: Board, now: nat, advance: NodeResult)
    requires AllWellFormed(cs) && AllWellFormed(ds) && |cs| == |ds|
    requires forall j :: i <= j < |cs| ==> cs[j] == ds[j]
    requires i < |cs| && Tick(cs[i], bb, now).result == advance
    ensures var a, b := RunChildren(cs, i, bb, now, advance), RunChildren(ds, i, bb, now, advance);
      forall j :: i <= j < |cs| ==> a.children[j] == b.children[j]
    decreases |cs| - i, 0
  {
    assert ds[i] == cs[i];
    var t := Tick(cs[i], bb, now);
    var cs', ds' := cs[i := t.node], ds[i := t.node];
    assert RunChildren(cs, i, bb, now, advance) == RunChildren(cs', i + 1, t.board, now, advance);
    assert RunChildren(ds, i, bb, now, advance) == RunChildren(ds', i + 1, t.board, now, advance);
    SameSuffix(cs', ds', i + 1, t.board, now, advance);
  }

  /** A Sequence resumes at its cursor: what a tick reports and does to the
      blackboard depends only on the children from the cursor on, so the
      children that passed in earlier ticks are not ticked again. */
  lemma SequenceResumesAtCursor(name: string, cs: seq<Node>, ds: seq<Node>, current: nat, bb: Board, now: nat)
    requires AllWellFormed(cs) && AllWellFormed(ds) && |cs| == |ds|
    requires forall j :: current <= j < |cs| ==> cs[j] == ds[j]
    ensures var a, b := Tick(Sequence(name, cs, current), bb, now), Tick(Sequence(name, ds, current), bb, now);
      a.result == b.result && a.board == b.board
  {
    RunChildrenIgnoresPrefix(cs, ds, current, bb, now, Passed);
  }

  /** A Selector resumes at its cursor, as SequenceResumesAtCursor. */
  lemma SelectorResumesAtCursor(name: string, cs: seq<Node>, ds: seq<Node>, current: nat, bb: Board, now: nat)
    requires AllWellFormed(cs) && AllWellFormed(ds) && |cs| == |ds|
    requires forall j :: current <= j < |cs| ==> cs[j] == ds[j]
    ensures var a, b := Tick(Selector(name, cs, current), bb, now), Tick(Selector(name, ds, current), bb, now);
      a.result == b.result && a.board == b.board
  {
    RunChildrenIgnoresPrefix(cs, ds, current, bb, now, Failed);
  }

  // ---------------------------------------------------------------------
  // Reset

  /** Reset leaves a node in its just-constructed state. */
  lemma {:induction false} ResetMakesPristine(n: Node)
    ensures Pristine(Reset(n))
    decreases n
  {
    match n
    case Action(_, _) =>
    case Sequence(_, cs, _) =>
      forall j | 0 <= j < |cs| ensures Pristine(ResetAll(cs)[j]) { ResetMakesPristine(cs[j]); }
    case Selector(_, cs, _) =>
      forall j | 0 <= j < |cs| ensures Pristine(ResetAll(cs)[j]) { ResetMakesPristine(cs[j]); }
    case Parallel(_, cs, _, _) =>
      forall j | 0 <= j < |cs| ensures Pristine(ResetAll(cs)[j]) { ResetMakesPristine(cs[j]); }
    case Inverter(_, c) => ResetMakesPristine(c);
    case Timeout(_, c, _, _) => ResetMakesPristine(c);
  }

  /** Resetting a node in its just-constructed state changes nothing. */
  lemma {:induction false} ResetKeepsPristine(n: Node)
    requires Pristine(n)
    ensures Reset(n) == n
    decreases n
  {
    match n
    case Action(_, _) =>
    case Sequence(_, cs, _) =>
      forall j | 0 <= j < |cs| ensures ResetAll(cs)[j] == cs[j] { ResetKeepsPristine(cs[j]); }
    case Selector(_, cs, _) =>
      forall j | 0 <= j < |cs| ensures ResetAll(cs)[j] == cs[j] { ResetKeepsPristine(cs[j]); }
    case Parallel(_, cs, states, _) =>
      forall j | 0 <= j < |cs| ensures ResetAll(cs)[j] == cs[j] { ResetKeepsPristine(cs[j]); }
      assert AllRunning(|cs|) == states;
    case Inverter(_, c) => ResetKeepsPristine(c);
    case Timeout(_, c, _, _) => ResetKeepsPristine(c);
  }

  /** Reset is idempotent: resetting twice is resetting once. */
  lemma ResetIdempotent(n: Node)
    ensures Reset(Reset(n)) == Reset(n)
  {
    ResetMakesPristine(n);
    ResetKeepsPristine(Reset(n));
  }

  // ---------------------------------------------------------------------
  // Duality

  /** Each child wrapped in an Inverter named `tag`. */
  function Wrap(cs: seq<Node>, tag: string): (ws: seq<Node>)
    ensures |ws| == |cs|
    ensures forall j :: 0 <= j < |cs| ==> ws[j] == Inverter(tag, cs[j])
  {
    seq(|cs|, j requires 0 <= j < |cs| => Inverter(tag, cs[j]))
  }

  lemma {:induction false} RunChildrenDuality(cs: seq<Node>, i: nat, bb: Board, now: nat, tag: string)
    requires AllWellFormed(cs)
    ensures AllWellFormed(Wrap(cs, tag))
    ensures var a, b := RunChildren(cs, i, bb, now, Failed), RunChildren(Wrap(cs, tag), i, bb, now, Passed);
      b == Run(Wrap(a.children, tag), a.cursor, Invert(a.result), a.board)
    decreases |cs| - i
  {
    if i < |cs| {
      var t := Tick(cs[i], bb, now);
      assert Wrap(cs, tag)[i := Inverter(tag, t.node)] == Wrap(cs[i := t.node], tag);
      if t.result == Failed {
        RunChildrenDuality(cs[i := t.node], i + 1, t.board, now, tag);
      }
    }
  }

  /** A Selector behaves exactly as an Inverter over a Sequence of inverted
      children, tick after tick: the same results, the same blackboard and
      the same cursor, with Running passed through unchanged. */
  lemma SelectorIsInvertedSequence(name: string, cs: seq<Node>, current: nat, bb: Board, now: nat,
                                   outer: string, inner: string, tag: string)
    requires AllWellFormed(cs)
    ensures WellFormed(Inverter(outer, Sequence(inner, Wrap(cs, tag), current)))
    ensures var a := Tick(Selector(name, cs, current), bb, now);
      var b := Tick(Inverter(outer, Sequence(inner, Wrap(cs, tag), current)), bb, now);
      a.node.Selector? &&
      b == Outcome(Inverter(outer, Sequence(inner, Wrap(a.node.children, tag), a.node.current)), a.result, a.board)
  {
    var run := RunChildren(cs, current, bb, now, Failed);
    RunChildrenDuality(cs, current, bb, now, tag);
    InvertInvolutive(run.result);
    assert ResetAll(Wrap(run.children, tag)) == Wrap(ResetAll(run.children), tag);
  }
}
