# neurotree behaviour trees in Dafny

A model of the two behaviour-tree engines of the neurotree repository and
proofs of what their nodes do on every tick.

Every node answers a tick with a three-valued result: Passed, Failed or
Running. Leaves read and write a shared blackboard. A blackboard is modelled
as a map from keys to tagged values. A tag stands for the Rust type the value
was stored as.

- **The enhanced engine** (`working_implementation_example.rs`). It has a
  typed blackboard. Its Sequence and Selector resume at a cursor. Its
  Parallel caches one result per child and settles them by a policy. It has
  an Inverter, a Timeout and the tree driver that owns the root and the
  blackboard. The nodes form a datatype, `EnhancedNodes.Node`. Ticking is the
  state-passing function `EnhancedNodes.Tick(node, board, now)`. It returns
  the node's next state, the result and the next blackboard. The source's
  in-place tick and reset are modelled as the methods of `EnhancedExec`. They
  have the same `while` and `for` loops, and each is proved to compute what
  the function specifies. The clock is the natural number `now`.
- **The original library** (`src/`). Its Sequence and Selector are
  stateless and restart from the first child on every tick. It also has an
  Inverter, a Repeat, a Condition, an Action and a blackboard. That
  blackboard's `get` stores a value and its `remove` removes nothing.
  `LibNodes.Tick(node, board)` specifies a tick. `LibNodes.TickNode` runs the
  source's `for` loop with early returns.

Modules: `Core` (results, values, blackboards, inversion);
`EnhancedBlackBoard`, `EnhancedPolicy`, `EnhancedNodes`, `EnhancedExec`,
`EnhancedComposites`, `EnhancedParallel`, `EnhancedDecorators`, `EnhancedSetup`;
`LibBlackBoard`, `LibNodes`, `LibProperties`; and `Comparison`, which
contrasts the two Sequences.

The enhanced engine's `Parallel::new` (working_implementation_example.rs:217-225)
checks nothing: it accepts a `RequireCount(n)` with `n` above the number of
children, and such a node's policy evaluation computes `children - n` on
`usize` (line 257). The model does not follow the code here.
`EnhancedNodes.NewParallel` refuses `n > children`, and `EnhancedNodes.Tick`
is defined only on trees where every Parallel's policy fits its child count.
What the unchecked code does is modelled apart, in `EnhancedPolicy`: a debug
build panics (`EvaluatePolicyAsWritten`), and a release build wraps around,
so the node reports Running on every tick, forever
(`EvaluatePolicyWrapping`, `WrappingTooManyRunsForever`). This is the first
Finding below. `RequireCount(0)` is accepted, as in the code, and such a node
passes on every tick.

## Model

| member | source | states |
|---|---|---|
| Core.Invert | working_implementation_example.rs:310-316 | Running maps to Running and only to it; Passed and Failed are swapped |
| Core.InvertInvolutive | src/nodes/inverter.rs:18-22 | inverting twice is the identity on all three results |
| EnhancedBlackBoard.Lookup | working_implementation_example.rs:43-45 | a typed read yields a payload iff the key is present and was stored with the asked type, and then it is the stored payload |
| EnhancedBlackBoard.LookupAfterStore | working_implementation_example.rs:39-45 | after a store at k, a read of k with the stored type gives the value and a read with any other type gives nothing |
| EnhancedBlackBoard.LookupOtherKey | working_implementation_example.rs:39-45 | a store at one key leaves every typed read of another key unchanged |
| EnhancedBlackBoard.BlackBoard.constructor | working_implementation_example.rs:33-37 | a new blackboard is empty |
| EnhancedBlackBoard.BlackBoard.Set | working_implementation_example.rs:39-41 | the key now holds the value; every other key keeps its presence and entry |
| EnhancedBlackBoard.BlackBoard.Get | working_implementation_example.rs:43-45 | returns exactly the typed read of the current contents |
| EnhancedBlackBoard.BlackBoard.ContainsKey | working_implementation_example.rs:47-49 | true iff the key has an entry |
| EnhancedBlackBoard.BlackBoard.Remove | working_implementation_example.rs:51-53 | returns whether the key was present; afterwards it is absent and every other key is unchanged |
| EnhancedBlackBoard.StoreReadRemove | working_implementation_example.rs:39-53 | store then read with the right type gives the value, with another type nothing; the key is present, removal reports it, and then it is gone |
| EnhancedPolicy.EvaluatePolicy | working_implementation_example.rs:227-264 | each policy is a threshold on the passed count: Passed iff at least the needed number passed (all, one, or n); Failed iff passed plus running falls below it; Running otherwise |
| EnhancedPolicy.EvaluatePolicyAsWritten | working_implementation_example.rs:227-264 | the policy evaluation as a debug build runs it is undefined (a panic) exactly for RequireCount(n) with fewer than n passed and fewer than n children, the `usize` underflow |
| EnhancedPolicy.UsizeWrappingSub | working_implementation_example.rs:257 | 64-bit `usize` subtraction as a release build runs it: the difference when it does not underflow, otherwise the difference plus 2^64 |
| EnhancedPolicy.EvaluatePolicyWrapping | working_implementation_example.rs:227-264 | the policy evaluation as a release build runs it agrees with EvaluatePolicy on every policy that fits the child count |
| EnhancedPolicy.WrappingTooManyRunsForever | working_implementation_example.rs:254-262 | in a release build, a RequireCount above the child count reports Running whatever the cached results |
| EnhancedPolicy.UsizeSub | working_implementation_example.rs:257 | `usize` subtraction is defined iff it does not underflow, and then it is the difference |
| EnhancedPolicy.UnderflowWitness | working_implementation_example.rs:255-257 | RequireCount(3) over two failed children underflows |
| EnhancedPolicy.AsWrittenPanicsWhenTooMany | working_implementation_example.rs:255-257 | every RequireCount asking for more children than exist underflows, whatever the cached results |
| EnhancedPolicy.AsWrittenAgreesWhenFits | working_implementation_example.rs:227-264 | for every policy that fits the child count the literal evaluation is defined and equals EvaluatePolicy |
| EnhancedPolicy.CountsPartition | working_implementation_example.rs:228-233 | the Passed, Failed and Running counts add up to the number of children |
| EnhancedPolicy.CountAll | working_implementation_example.rs:237 | a count equals the length iff every cached result is that result |
| EnhancedPolicy.CountSome | working_implementation_example.rs:239 | a count is positive iff some cached result is that result |
| EnhancedPolicy.RequireAllRule | working_implementation_example.rs:236-244 | RequireAll: Passed iff all passed; Failed iff some failed (and not all passed); Running iff none failed and some running |
| EnhancedPolicy.RequireOneRule | working_implementation_example.rs:245-253 | RequireOne: Passed iff some passed; Failed iff all failed (and none passed); Running iff none passed and some running |
| EnhancedPolicy.RequireCountRule | working_implementation_example.rs:254-262 | RequireCount(n): Passed iff at least n passed; Failed iff passed plus running is below n; Running otherwise; the Passed check wins |
| EnhancedPolicy.RequireAllIsCountOfAll | working_implementation_example.rs:236-262 | RequireAll agrees with RequireCount of the child count on all cached results |
| EnhancedPolicy.RequireOneIsCountOfOne | working_implementation_example.rs:245-262 | with at least one child, RequireOne agrees with RequireCount(1) |
| EnhancedPolicy.CountsUnderRefinement | working_implementation_example.rs:270-274 | when Running caches resolve, the Passed and Failed counts never drop and Passed plus Running never grows |
| EnhancedPolicy.VerdictIsStable | working_implementation_example.rs:227-274 | once the policy says Passed or Failed, it says the same for every later cache state |
| EnhancedNodes.Reset | working_implementation_example.rs:133-138 | a reset keeps the number of nodes and the invariant that each Parallel has one cached result per child; ResetKeepsSetup and ResetMakesPristine state what it keeps and what it clears |
| EnhancedNodes.Tick | working_implementation_example.rs:75-368 | the tick of every node kind (Action, Sequence, Selector, Parallel, Inverter, Timeout) keeps the number of nodes and the one-cached-result-per-child invariant |
| EnhancedNodes.RunChildren | working_implementation_example.rs:110-126 | the cursor loop of Sequence and Selector returns `advance` only past the last child, and otherwise stops on a child at or after the cursor it started from |
| EnhancedNodes.RunParallel | working_implementation_example.rs:270-274 | the sweep keeps the number of children and leaves every child before its start, and every child whose cached result is terminal, with its cached result, unchanged |
| EnhancedNodes.Elapsed | working_implementation_example.rs:354 | the elapsed time is now minus the anchor, saturating at zero |
| EnhancedNodes.NewParallel | working_implementation_example.rs:217-225 | construction succeeds iff the policy fits the child count; the node is well formed, keeps the given name, children and policy, and has every cached result Running |
| EnhancedExec.TickNode | working_implementation_example.rs:109-368 | the in-place tick of every node kind yields exactly the next node, result and blackboard EnhancedNodes.Tick specifies |
| EnhancedExec.RunComposite | working_implementation_example.rs:110-126 | the cursor `while` loop computes exactly the children, cursor, result and blackboard of RunChildren |
| EnhancedExec.ResetNode | working_implementation_example.rs:279-284 | the in-place reset loops compute exactly EnhancedNodes.Reset |
| EnhancedExec.ResetChildren | working_implementation_example.rs:135-137 | resetting the children one by one gives every child reset |
| EnhancedExec.BehavioralTree.constructor | working_implementation_example.rs:497-502 | a tree over the given root with a fresh, empty blackboard |
| EnhancedExec.BehavioralTree.Tick | working_implementation_example.rs:504-506 | one tick of the root against the tree's own blackboard, as Tick specifies, keeping the tree well formed |
| EnhancedExec.BehavioralTree.Reset | working_implementation_example.rs:508-510 | the root becomes its reset; the blackboard is untouched |
| EnhancedExec.BehavioralTree.BlackBoardOf | working_implementation_example.rs:512-514 | returns the tree's own blackboard |
| EnhancedComposites.SequenceStep | working_implementation_example.rs:109-131 | Passed advances and ticks the next child in the same call; Running returns with the cursor held; Failed resets and fails; past the end resets and passes |
| EnhancedComposites.SelectorStep | working_implementation_example.rs:162-184 | Failed advances within the call; Running holds the cursor; Passed resets and passes; past the end resets and fails |
| EnhancedComposites.RunChildrenStops | working_implementation_example.rs:110-126 | the loop stops past the end with the advancing result or at a child with another result, never before its start; children outside the ticked range are untouched |
| EnhancedComposites.SequenceCursor | working_implementation_example.rs:109-138 | Running leaves the cursor on a child at or after the old one with earlier children untouched; Passed or Failed leaves the Sequence in its just-constructed state; with EnhancedSetup.TickKeepsSetup, it is the same Sequence: same name, children built alike, in order |
| EnhancedComposites.SelectorCursor | working_implementation_example.rs:162-191 | the same cursor rules for Selector |
| EnhancedComposites.RunChildrenIgnoresPrefix | working_implementation_example.rs:110-111 | the loop's outcome depends only on the children from the cursor on |
| EnhancedComposites.SequenceResumesAtCursor | working_implementation_example.rs:109-131 | a Sequence's result and blackboard do not depend on the children before its cursor, which are not ticked again |
| EnhancedComposites.SelectorResumesAtCursor | working_implementation_example.rs:162-184 | the same for Selector |
| EnhancedSetup.ResetKeepsSetup | working_implementation_example.rs:133-138 | a reset keeps every node's kind, name, Parallel policy, Timeout duration and Action function, and its children in order, at every depth; only cursors, caches and anchors change |
| EnhancedSetup.TickKeepsSetup | working_implementation_example.rs:75-368 | a tick of any node kind keeps the same setup at every depth, whatever its children return |
| EnhancedSetup.RunChildrenKeepsSetup | working_implementation_example.rs:110-126 | the cursor loop keeps the setup of every child |
| EnhancedSetup.RunParallelKeepsSetup | working_implementation_example.rs:270-274 | the Parallel sweep keeps the setup of every child |
| EnhancedComposites.ResetMakesPristine | working_implementation_example.rs:133-138 | after a reset every cursor is 0, every cache Running and every Timeout anchor cleared, all the way down |
| EnhancedComposites.ResetKeepsPristine | working_implementation_example.rs:279-284 | resetting a just-constructed node changes nothing |
| EnhancedComposites.ResetIdempotent | working_implementation_example.rs:370-373 | resetting twice equals resetting once |
| EnhancedComposites.RunChildrenDuality | working_implementation_example.rs:110-126 | the Selector loop over the children is the Sequence loop over their Inverters, with the result inverted |
| EnhancedComposites.SelectorIsInvertedSequence | working_implementation_example.rs:162-184 | a Selector behaves as an Inverter over a Sequence of inverted children: the same result, blackboard and cursor |
| EnhancedParallel.SweepSplit | working_implementation_example.rs:270-274 | the sweep cut at any child: the children before it are swept first, and the sweep carries on from it with the children, cached results and blackboard they left |
| EnhancedParallel.SweepToStep | working_implementation_example.rs:270-274 | sweeping one child further adds exactly that child's step: a settled child changes nothing, a Running one is ticked against the blackboard reached so far and its state, cache and the blackboard replaced by the tick's |
| EnhancedParallel.SweepSkipsSettled | working_implementation_example.rs:270-274 | a child whose cached result is terminal is not ticked: the sweep stopped just after it equals the sweep stopped just before it, in children, cached results and blackboard |
| EnhancedParallel.SweepTicksRunning | working_implementation_example.rs:271-273 | a child cached as Running is ticked once against the blackboard the sweep had reached just before it; its new state and cache are that tick's, and the sweep carries on with that tick's blackboard |
| EnhancedParallel.SweepIgnoresSettled | working_implementation_example.rs:270-274 | two child lists that agree on every Running child give the same blackboard, the same cached results and the same new Running children |
| EnhancedParallel.SettledChildIsIrrelevant | working_implementation_example.rs:270-274 | replacing a child whose cached result is terminal by any node changes neither the blackboard, nor the cached results, nor any other child of the sweep |
| EnhancedParallel.SweepFold | working_implementation_example.rs:270-274 | the whole sweep as a fold over the children in order: from the given blackboard to the one the last child left, each Running child ticked against the blackboard its predecessors left, each settled child skipped with the blackboard unchanged |
| EnhancedParallel.SettledSweep | working_implementation_example.rs:270-274 | a sweep over all-terminal caches ticks nothing and leaves the blackboard alone |
| EnhancedParallel.ParallelTick | working_implementation_example.rs:268-277 | the node keeps its name and policy and takes the sweep's children, cached results and blackboard; cached results only move from Running to terminal; the result is the policy over the new caches |
| EnhancedParallel.ParallelSettledIsFixed | working_implementation_example.rs:268-277 | once every child is terminal, repeated ticks tick nothing and report the same result |
| EnhancedParallel.ParallelVerdictSticks | working_implementation_example.rs:227-277 | once the caches decide the policy, every later tick reports the same verdict |
| EnhancedParallel.TwoPassingActionsPass | working_implementation_example.rs:605-614 | RequireAll over two passing actions passes on the first tick |
| EnhancedDecorators.TimeoutAnchorsFirstTick | working_implementation_example.rs:347-351 | the first tick anchors at now, always ticks the child and keeps the anchor only while the child runs |
| EnhancedDecorators.TimeoutExpires | working_implementation_example.rs:353-358 | past the duration: Failed, blackboard untouched, child reset, anchor cleared, child not ticked |
| EnhancedDecorators.TimeoutWithinDuration | working_implementation_example.rs:361-367 | within the duration: the child's result and blackboard; the node keeps its name and duration, holds the ticked child, and keeps its anchor iff the child is Running |
| EnhancedDecorators.TimeoutFailsOnlyWhenDue | working_implementation_example.rs:346-368 | a Timeout fails iff its duration ran out or, within it, its child failed |
| EnhancedDecorators.LongActionTimesOut | working_implementation_example.rs:618-637 | a Running child under a 100 timeout ticked at t and t+150: Running, then Failed |
| EnhancedDecorators.DoubleInverterIsTransparent | working_implementation_example.rs:310-316 | two Inverters give the wrapped node's results and blackboards over any run of ticks |
| EnhancedDecorators.FailingActionInvertedPasses | working_implementation_example.rs:640-650 | an Inverter over a failing action passes |
| LibBlackBoard.BlackBoard.constructor | src/blackboard.rs:8-12 | a new blackboard is empty |
| LibBlackBoard.BlackBoard.Get | src/blackboard.rs:14-16 | stores the value at the key; every other key keeps its presence and entry |
| LibBlackBoard.BlackBoard.ContainsKey | src/blackboard.rs:18-23 | true iff the key has an entry |
| LibBlackBoard.BlackBoard.Remove | src/blackboard.rs:25-27 | returns whether the key is present and changes nothing |
| LibBlackBoard.RemoveKeepsKey | src/blackboard.rs:25-27 | after storing and removing a key, the removal says true and the key is still present |
| LibNodes.Tick | src/nodes/repeat.rs:9-14 | the tick of every node kind (also src/nodes/action.rs:16-18, condition.rs:18-25, sequence.rs:16-26, selector.rs:17-27, inverter.rs:17-23): a Repeat never fails, a Condition never runs, and an Inverter runs exactly when its child does |
| LibNodes.Name | src/nodes/inverter.rs:25-27 | `get_name` of an Inverter or an Action (also src/nodes/action.rs:22-24) returns the name the node was built with: rebuilding the node with it gives back the same node |
| LibNodes.RunChildren | src/nodes/sequence.rs:17-25 | a result other than the advancing one is the effect of one of the children ticked in turn, each against the blackboard the one before left |
| LibNodes.TickNode | src/nodes/sequence.rs:16-26 | the in-place tick of every node kind yields exactly the result and blackboard LibNodes.Tick specifies |
| LibNodes.RunLoop | src/nodes/selector.rs:18-26 | the `for` loop with early returns computes exactly RunChildren |
| LibNodes.NewAction | src/nodes/action.rs:9-18 | the action is named as given and ticks exactly as its function |
| LibNodes.NewCondition | src/nodes/condition.rs:9-14 | a new Condition has its flag false |
| LibNodes.NewInverter | src/nodes/inverter.rs:11-13 | the Inverter is named as given, wraps the child and ticks as the child's inverted result |
| LibNodes.Reset | src/nodes/inverter.rs:29-31 | resetting an Action or an Inverter over one leaves the node unchanged |
| LibProperties.FirstOther | src/nodes/sequence.rs:19-22 | the index of the first non-advancing effect: all before it advance, it does not |
| LibProperties.RunChildrenIsFirstStop | src/nodes/sequence.rs:17-25 | the loop returns the effect of the first child in the unstopped chain that does not advance, else the advancing result with the last blackboard |
| LibProperties.RunChildrenAppend | src/nodes/sequence.rs:17-23 | children after the stopping child are never ticked; otherwise the loop carries on into them |
| LibProperties.SequenceRule | src/nodes/sequence.rs:17-25 | Passed iff every child passed in the chain; otherwise the first Failed or Running child's effect; empty passes |
| LibProperties.SelectorRule | src/nodes/selector.rs:18-26 | Failed iff every child failed in the chain; otherwise the first Passed or Running child's effect; empty fails |
| LibProperties.RunChildrenDuality | src/nodes/selector.rs:18-26 | the Selector loop is the Sequence loop over inverted children, inverted |
| LibProperties.SelectorIsInvertedSequence | src/nodes/selector.rs:18-26 | a Selector ticks exactly as an Inverter over a Sequence of inverted children |
| LibProperties.DoubleInverterIsTransparent | src/nodes/inverter.rs:18-22 | two Inverters tick exactly as the wrapped node |
| LibProperties.RepeatRule | src/nodes/repeat.rs:10-13 | Repeat never fails: Passed iff the child passed, otherwise Running, with the child's blackboard |
| LibProperties.ConditionRule | src/nodes/condition.rs:18-25 | never Running; Passed iff the predicate holds and the flag is set; the predicate's effect always happens |
| LibProperties.FreshConditionFails | src/nodes/condition.rs:9-25 | a new Condition fails on every tick, with the predicate's effect applied |
| Comparison.PassedChildIsReTickedOnlyByOriginal | src/nodes/sequence.rs:17-25 | over two ticks the original Sequence re-runs a passed child, the enhanced one runs it once |

## Left out

- The builders `TreeBuilder`, `SequenceBuilder`, `SelectorBuilder` and `ParallelBuilder` (working_implementation_example.rs:384-485): they only collect children and call the constructors, which are modelled.
- `main`, the robot helper actions and `RobotState` (working_implementation_example.rs:526-571, 657-733): console output and floating-point arithmetic.
- The robot scenario test (working_implementation_example.rs:574-602): it depends on those floating-point helpers.
- The real clock (`Instant::now`, `elapsed`, `thread::sleep`): replaced by the clock reading `now`, passed to every tick.
- EnhancedNodes.Tick: one clock reading serves a whole tick. The source reads the clock once to set the anchor and again for `elapsed`. With a zero duration, the source may therefore fail on the anchoring tick, and the model does not.
- `dyn Any` downcasting and the `Send + Sync` bounds: a value is a type tag plus a payload that is a sequence of integers, and the bounds carry no behaviour.
- Node names in the enhanced engine: only the constructors that store them are modelled (`name()` returns them unchanged). The src `get_name` is LibNodes.Name.
- In-place mutation of boxed children: a node is a value and a tick returns the node's next state. Every child has exactly one owner, so no aliasing is lost.
- src/tree.rs: a one-line delegation to the root's tick that uses the blackboard argument instead of its own field. The enhanced driver is modelled instead.
- src/node.rs and src/lib.rs: only the result type, the trait and mock-node tests. `Core.NodeResult` is the shared result type.
- The src `reset` and `get_name` methods are not in the src trait. LibNodes.Reset covers only Action and Inverter-over-resettable, the nodes that define `reset`.
- Retry, Cooldown and asynchronous-action nodes: no code for them exists in the modelled files.
- Leaf functions are arbitrary total functions of the blackboard. A Rust leaf function that panics or loops forever is not modelled.
- EnhancedNodes.NewParallel: it refuses a `RequireCount` above the child count, which the code's `Parallel::new` accepts; it accepts `RequireCount(0)` as the code does.
- EnhancedNodes.Tick: models the engine with a construction-time check that the code lacks. It requires every Parallel in the tree, reached or not, to have a policy that fits its child count. A tree the code can build with a larger `RequireCount` is outside it; what such a node does is modelled only at the policy level, by EnhancedPolicy.EvaluatePolicyAsWritten and EnhancedPolicy.EvaluatePolicyWrapping.

## Findings

| source | as written | input that shows it | evidently intended | confidence | as-written member | corrected member |
|---|---|---|---|---|---|---|
| working_implementation_example.rs:257 | `self.children.len() - required` on `usize` underflows when `RequireCount(n)` has `n` above the child count and fewer than `n` children passed | `RequireCount(3)` over two children that both failed | a RequireCount larger than the child count is refused when the node is built, so the tick never computes the difference | high; not executed | EnhancedPolicy.EvaluatePolicyAsWritten | EnhancedNodes.NewParallel |
| src/blackboard.rs:25-27 | `remove` only looks the key up and returns whether it is present; the entry stays | store at "x", then `remove("x")` returns true and `contains_key("x")` is still true | the entry is deleted and the return value says whether it existed, as the enhanced engine's `remove` does | high; not executed | LibBlackBoard.BlackBoard.Remove | EnhancedBlackBoard.BlackBoard.Remove |
