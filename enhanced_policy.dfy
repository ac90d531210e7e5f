/** The success policy of the enhanced engine's Parallel node: how the
    cached per-child results are aggregated into one result. */
module EnhancedPolicy {
  import opened Core

  datatype ParallelPolicy = RequireAll | RequireOne | RequireCount(required: nat)

  /** The number of cached results equal to `r`. */
  function Count(states: seq<NodeResult>, r: NodeResult): nat
  {
    if states == [] then 0 else (if states[0] == r then 1 else 0) + Count(states[1..], r)
  }

  /** A policy the child count can serve: `RequireCount(n)` needs n to be at
      most the number of children, otherwise `len - required` underflows. */
  predicate Fits(policy: ParallelPolicy, len: nat)
  {
    policy.RequireCount? ==> policy.required <= len
  }

  /** How many children must pass for the policy to pass. */
  function Needed(policy: ParallelPolicy, len: nat): nat
  {
    match policy
    case RequireAll => len
    case RequireOne => 1
    case RequireCount(required) => required
  }

  /** `evaluate_policy` over the cached results, one per child: every policy
      is a threshold on the number of children that passed. It passes once
      that many passed, fails once that many can no longer pass even if every
      Running child were to pass, and is Running in between. */
  function EvaluatePolicy(policy: ParallelPolicy, states: seq<NodeResult>): (r: NodeResult)
    requires Fits(policy, |states|)
    ensures r == Passed <==> Count(states, Passed) >= Needed(policy, |states|)
    ensures r == Failed <==> Count(states, Passed) + Count(states, Running) < Needed(policy, |states|)
  {
    CountsPartition(states);
    var passed := Count(states, Passed);
    var failed := Count(states, Failed);
    match policy
    case RequireAll =>
      if passed == |states| then Passed else if failed > 0 then Failed else Running
    case RequireOne =>
      if passed > 0 then Passed else if failed == |states| then Failed else Running
    case RequireCount(required) =>
      if passed >= required then Passed else if failed > |states| - required then Failed else Running
  }

  /** `a - b` on Rust's `usize`: None where the subtraction underflows, which
      panics in a debug build. */
  function UsizeSub(a: nat, b: nat): (r: Option<nat>)
    ensures r.Some? <==> b <= a
    ensures r.Some? ==> r.value + b == a
  {
    if b <= a then Some(a - b) else None
  }

  /** `evaluate_policy` as written, for any policy, in a debug build: None
      where the `usize` subtraction `len - required` underflows and panics. */
  function EvaluatePolicyAsWritten(policy: ParallelPolicy, states: seq<NodeResult>): (r: Option<NodeResult>)
    ensures r.None? <==> policy.RequireCount? && Count(states, Passed) < policy.required && |states| < policy.required
  {
    var passed := Count(states, Passed);
    var failed := Count(states, Failed);
    match policy
    case RequireAll =>
      Some(if passed == |states| then Passed else if failed > 0 then Failed else Running)
    case RequireOne =>
      Some(if passed > 0 then Passed else if failed == |states| then Failed else Running)
    case RequireCount(required) =>
      if passed >= required then Some(Passed)
      else match UsizeSub(|states|, required)
        case None => None
        case Some(slack) => Some(if failed > slack then Failed else Running)
  }

  /** The number of values of a 64-bit `usize`. */
  const UsizeModulus: nat := 0x1_0000_0000_0000_0000

  /** `a - b` on a 64-bit `usize` in a release build: it wraps around. */
  function UsizeWrappingSub(a: nat, b: nat): (r: nat)
    requires a < UsizeModulus && b < UsizeModulus
    ensures r < UsizeModulus
    ensures b <= a ==> r + b == a
    ensures a < b ==> r + b == a + UsizeModulus
  {
    (a - b) % UsizeModulus
  }

  /** `evaluate_policy` as written, in a release build, where the
      subtraction wraps instead of panicking. */
  function EvaluatePolicyWrapping(policy: ParallelPolicy, states: seq<NodeResult>): (r: NodeResult)
    requires |states| < UsizeModulus && (policy.RequireCount? ==> policy.required < UsizeModulus)
    ensures Fits(policy, |states|) ==> r == EvaluatePolicy(policy, states)
  {
    var passed := Count(states, Passed);
    var failed := Count(states, Failed);
    match policy
    case RequireAll =>
      if passed == |states| then Passed else if failed > 0 then Failed else Running
    case RequireOne =>
      if passed > 0 then Passed else if failed == |states| then Failed else Running
    case RequireCount(required) =>
      if passed >= required then Passed
      else if failed > UsizeWrappingSub(|states|, required) then Failed
      else Running
  }

  /** In a release build a RequireCount above the child count never
      panics: the wrapped difference is larger than any failed count, and
      fewer than `required` children can pass, so the node reports Running on
      every tick, forever. */
  lemma WrappingTooManyRunsForever(required: nat, states: seq<NodeResult>)
    requires |states| < required < UsizeModulus
    ensures EvaluatePolicyWrapping(RequireCount(required), states) == Running
  {
    CountsPartition(states);
  }

  /** Two children that both failed under `RequireCount(3)`: fewer than 3
      passed, so the source goes on to compute `2 - 3` on `usize`. */
  lemma UnderflowWitness()
    ensures EvaluatePolicyAsWritten(RequireCount(3), [Failed, Failed]) == None
  {
    assert Count([Failed, Failed], Passed) == 0 by {
      assert [Failed, Failed][1..] == [Failed];
      assert [Failed][1..] == [];
    }
  }

  /** For every policy that fits the child count the as-written evaluation
      never underflows and agrees with EvaluatePolicy. */
  lemma AsWrittenAgreesWhenFits(policy: ParallelPolicy, states: seq<NodeResult>)
    requires Fits(policy, |states|)
    ensures EvaluatePolicyAsWritten(policy, states) == Some(EvaluatePolicy(policy, states))
  {
  }

  /** The policy can underflow exactly when it does not fit: some cached
      results make the as-written evaluation panic for every policy that
      asks for more children than there are. */
  lemma AsWrittenPanicsWhenTooMany(required: nat, states: seq<NodeResult>)
    requires required > |states|
    ensures EvaluatePolicyAsWritten(RequireCount(required), states) == None
  {
    CountsPartition(states);
  }

  // ---------------------------------------------------------------------
  // Counting facts

  /** Every cached result is Passed, Failed or Running. */
  lemma {:induction false} CountsPartition(states: seq<NodeResult>)
    ensures Count(states, Passed) + Count(states, Failed) + Count(states, Running) == |states|
  {
    if states != [] {
      CountsPartition(states[1..]);
    }
  }

  /** All entries equal `r` exactly when the count of `r` is the length. */
  lemma {:induction false} CountAll(states: seq<NodeResult>, r: NodeResult)
    ensures Count(states, r) <= |states|
    ensures Count(states, r) == |states| <==> forall j :: 0 <= j < |states| ==> states[j] == r
  {
    if states != [] {
      CountAll(states[1..], r);
      if Count(states, r) == |states| {
        forall j | 0 <= j < |states| ensures states[j] == r {
          if j > 0 {
            assert states[j] == states[1..][j - 1];
          }
        }
      }
      if forall j :: 0 <= j < |states| ==> states[j] == r {
        assert forall j :: 0 <= j < |states[1..]| ==> states[1..][j] == r by {
          forall j | 0 <= j < |states[1..]| ensures states[1..][j] == r {
            assert states[1..][j] == states[j + 1];
          }
        }
      }
    }
  }

  /** Some entry equals `r` exactly when the count of `r` is positive. */
  lemma {:induction false} CountSome(states: seq<NodeResult>, r: NodeResult)
    ensures Count(states, r) > 0 <==> exists j :: 0 <= j < |states| && states[j] == r
  {
    if states != [] {
      CountSome(states[1..], r);
      if Count(states[1..], r) > 0 {
        var j :| 0 <= j < |states[1..]| && states[1..][j] == r;
        assert states[j + 1] == r;
      }
      if exists j :: 0 <= j < |states| && states[j] == r {
        var j :| 0 <= j < |states| && states[j] == r;
        if j > 0 {
          assert states[1..][j - 1] == r;
        }
      }
    }
  }

  // ---------------------------------------------------------------------
  // The three policies, stated over the cached results

  /** RequireAll: Passed iff every child passed; otherwise Failed iff some
      child failed; otherwise Running. */
  lemma RequireAllRule(states: seq<NodeResult>)
    ensures EvaluatePolicy(RequireAll, states) == Passed <==>
      forall j :: 0 <= j < |states| ==> states[j] == Passed
    ensures EvaluatePolicy(RequireAll, states) == Failed <==>
      exists j :: 0 <= j < |states| && states[j] == Failed
    ensures EvaluatePolicy(RequireAll, states) == Running <==>
      (forall j :: 0 <= j < |states| ==> states[j] != Failed) &&
      (exists j :: 0 <= j < |states| && states[j] == Running)
  {
    CountAll(states, Passed);
    CountSome(states, Failed);
    CountSome(states, Running);
    CountsPartition(states);
  }

  /** RequireOne: Passed iff some child passed; otherwise Failed iff every
      child failed; otherwise Running. */
  lemma RequireOneRule(states: seq<NodeResult>)
    ensures EvaluatePolicy(RequireOne, states) == Passed <==>
      exists j :: 0 <= j < |states| && states[j] == Passed
    ensures EvaluatePolicy(RequireOne, states) == Failed <==>
      forall j :: 0 <= j < |states| ==> states[j] == Failed
    ensures EvaluatePolicy(RequireOne, states) == Running <==>
      (forall j :: 0 <= j < |states| ==> states[j] != Passed) &&
      (exists j :: 0 <= j < |states| && states[j] == Running)
  {
    CountSome(states, Passed);
    CountAll(states, Failed);
    CountSome(states, Running);
    CountsPartition(states);
  }

  /** RequireCount(n): Passed iff at least n children passed; otherwise
      Failed iff n can no longer be reached even if every child still
      Running were to pass; otherwise Running. */
  lemma RequireCountRule(required: nat, states: seq<NodeResult>)
    requires required <= |states|
    ensures EvaluatePolicy(RequireCount(required), states) == Passed <==>
      Count(states, Passed) >= required
    ensures EvaluatePolicy(RequireCount(required), states) == Failed <==>
      Count(states, Passed) + Count(states, Running) < required
    ensures EvaluatePolicy(RequireCount(required), states) == Running <==>
      Count(states, Passed) < required <= Count(states, Passed) + Count(states, Running)
  {
    CountsPartition(states);
  }

  /** RequireAll is RequireCount of the child count. */
  lemma RequireAllIsCountOfAll(states: seq<NodeResult>)
    ensures EvaluatePolicy(RequireAll, states) == EvaluatePolicy(RequireCount(|states|), states)
  {
    CountsPartition(states);
  }

  /** With at least one child, RequireOne is RequireCount(1). */
  lemma RequireOneIsCountOfOne(states: seq<NodeResult>)
    requires |states| > 0
    ensures EvaluatePolicy(RequireOne, states) == EvaluatePolicy(RequireCount(1), states)
  {
    CountsPartition(states);
  }

  // ---------------------------------------------------------------------
  // Stability of a verdict

  /** `later` is a later state of the same caches: a terminal cached result
      never changes, a Running one may have become anything. */
  predicate Refines(earlier: seq<NodeResult>, later: seq<NodeResult>)
  {
    |earlier| == |later| &&
    forall j :: 0 <= j < |earlier| && earlier[j] != Running ==> later[j] == earlier[j]
  }

  lemma {:induction false} CountsUnderRefinement(earlier: seq<NodeResult>, later: seq<NodeResult>)
    requires Refines(earlier, later)
    ensures Count(later, Passed) >= Count(earlier, Passed)
    ensures Count(later, Failed) >= Count(earlier, Failed)
    ensures Count(later, Passed) + Count(later, Running) <= Count(earlier, Passed) + Count(earlier, Running)
  {
    if earlier != [] {
      assert Refines(earlier[1..], later[1..]) by {
        forall j | 0 <= j < |earlier[1..]| && earlier[1..][j] != Running
          ensures later[1..][j] == earlier[1..][j]
        {
          assert earlier[1..][j] == earlier[j + 1] && later[1..][j] == later[j + 1];
        }
      }
      CountsUnderRefinement(earlier[1..], later[1..]);
    }
  }

  /** Once the policy has reached a verdict, the verdict stands however the
      still-Running children turn out, since terminal cached results are
      never overwritten. */
  lemma VerdictIsStable(policy: ParallelPolicy, earlier: seq<NodeResult>, later: seq<NodeResult>)
    requires Fits(policy, |earlier|) && Refines(earlier, later)
    requires EvaluatePolicy(policy, earlier) != Running
    ensures EvaluatePolicy(policy, later) == EvaluatePolicy(policy, earlier)
  {
    CountsUnderRefinement(earlier, later);
    CountsPartition(earlier);
    CountsPartition(later);
  }
}
