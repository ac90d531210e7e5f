/** The difference between the two engines' Sequence: the original one
    restarts from the first child on every tick, the enhanced one resumes at
    the child that was running. */
module Comparison {
  import opened Core
  import LibNodes
  import EnhancedNodes

  const CountKey: Key := "count"

  /** The counter kept at "count", 0 when it is absent or not an integer. */
  function Counter(b: Board): int
  {
    if CountKey in b && b[CountKey].ty == "int" && |b[CountKey].payload| == 1 then b[CountKey].payload[0] else 0
  }

  /** An action that increments the counter and passes. */
  function Bump(b: Board): Effect
  {
    Effect(Passed, b[CountKey := Value("int", [Counter(b) + 1])])
  }

  /** An action that keeps running and touches nothing. */
  function Hang(b: Board): Effect
  {
    Effect(Running, b)
  }

  /** A Sequence of [increment, keep running], ticked twice: the original
      Sequence runs the increment on both ticks, the enhanced one only on
      the first, because its cursor stays on the running child. */
  lemma PassedChildIsReTickedOnlyByOriginal(bb: Board)
    ensures var lib := LibNodes.Sequence([LibNodes.Action("bump", Bump), LibNodes.Action("hang", Hang)]);
      var first := LibNodes.Tick(lib, bb);
      var second := LibNodes.Tick(lib, first.board);
      first.result == Running && second.result == Running && Counter(second.board) == Counter(bb) + 2
    ensures var enhanced := EnhancedNodes.Sequence("seq", [EnhancedNodes.Action("bump", Bump), EnhancedNodes.Action("hang", Hang)], 0);
      var effects := EnhancedNodes.Replay(enhanced, bb, [0, 0]);
      effects[0].result == Running && effects[1].result == Running && Counter(effects[1].board) == Counter(bb) + 1
  {
    var cs := [LibNodes.Action("bump", Bump), LibNodes.Action("hang", Hang)];
    var b1, b2 := Bump(bb).board, Bump(Bump(bb).board).board;
    assert Counter(b1) == Counter(bb) + 1 && Counter(b2) == Counter(b1) + 1;
    assert cs[1..] == [LibNodes.Action("hang", Hang)];
    forall b ensures LibNodes.RunChildren(cs, b, Passed) == Effect(Running, Bump(b).board) {
      assert LibNodes.Tick(cs[0], b) == Bump(b);
      assert LibNodes.Tick(cs[1..][0], Bump(b).board) == Effect(Running, Bump(b).board);
      assert LibNodes.RunChildren(cs[1..], Bump(b).board, Passed) == Effect(Running, Bump(b).board);
    }

    var bump, hang := EnhancedNodes.Action("bump", Bump), EnhancedNodes.Action("hang", Hang);
    var ds := [bump, hang];
    assert ds[0 := bump] == ds && ds[1 := hang] == ds;
    assert EnhancedNodes.Tick(bump, bb, 0) == EnhancedNodes.Outcome(bump, Passed, b1);
    assert EnhancedNodes.Tick(hang, b1, 0) == EnhancedNodes.Outcome(hang, Running, b1);
    assert EnhancedNodes.RunChildren(ds, 1, b1, 0, Passed) == EnhancedNodes.Run(ds, 1, Running, b1);
    assert EnhancedNodes.RunChildren(ds, 0, bb, 0, Passed) == EnhancedNodes.Run(ds, 1, Running, b1);
    var once := EnhancedNodes.Tick(EnhancedNodes.Sequence("seq", ds, 0), bb, 0);
    assert once == EnhancedNodes.Outcome(EnhancedNodes.Sequence("seq", ds, 1), Running, b1);
    assert EnhancedNodes.Tick(EnhancedNodes.Sequence("seq", ds, 1), b1, 0).board == b1;
    assert [0, 0][1..] == [0];
  }
}
