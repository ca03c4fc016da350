/** The cheap decision rules run before any search: the feasibility
    pre-check `canPossiblyReach` and the all-empty-or-full shortcut
    `solveIfTrivial` (lew.cpp:39-67), with what they mean for reachability. */
module Precheck {
  import opened Arith
  import opened Jugs

  /** Targets are levels the glasses can hold. */
  predicate ValidTargets(cap: seq<int>, target: State) {
    |target| == |cap| && forall i :: 0 <= i < |target| ==> 0 <= target[i] <= cap[i]
  }

  /** The two necessary conditions `canPossiblyReach` tests: every target is a
      multiple of the gcd of all capacities, and some target is empty or
      full. */
  predicate PossiblyReachable(cap: seq<int>, target: State)
    requires ValidCapacities(cap) && |target| == |cap|
  {
    && (forall i :: 0 <= i < |target| ==> target[i] % GcdAll(cap) == 0)
    && HasBoundaryGlass(cap, target)
  }

  /** `canPossiblyReach` (lew.cpp:39-51): fold the gcd of the capacities from
      0, reject a target that is not a multiple of it, then accept as soon as
      some target is empty or full. With no glasses it answers false. */
  method CanPossiblyReach(capacity: seq<int>, target: State) returns (ok: bool)
    requires ValidCapacities(capacity) && |target| == |capacity|
    requires forall i :: 0 <= i < |target| ==> target[i] >= 0
    ensures ok == PossiblyReachable(capacity, target)
  {
    var n := |capacity|;
    var g := 0;
    for i := 0 to n
      invariant g == GcdAll(capacity[..i])
    {
      assert capacity[..i + 1][..i] == capacity[..i];
      g := Gcd(g, capacity[i]);
    }
    assert capacity[..n] == capacity;
    for i := 0 to n
      invariant forall k :: 0 <= k < i ==> target[k] % g == 0
    {
      if target[i] % g != 0 {
        return false;
      }
    }
    for i := 0 to n
      invariant forall k :: 0 <= k < i ==> target[k] != 0 && target[k] != capacity[k]
    {
      if target[i] == 0 || target[i] == capacity[i] {
        return true;
      }
    }
    return false;
  }

  /** Every target is either empty or full. */
  predicate AllBoundary(cap: seq<int>, target: State)
    requires |target| == |cap|
  {
    forall i :: 0 <= i < |target| ==> target[i] == 0 || target[i] == cap[i]
  }

  /** Number of glasses with a non-empty target equal to their capacity. */
  function CountFull(cap: seq<int>, target: State): nat
    requires |target| == |cap|
  {
    var n := |target|;
    if n == 0 then 0
    else CountFull(cap[..n - 1], target[..n - 1]) + (if target[n - 1] != 0 && target[n - 1] == cap[n - 1] then 1 else 0)
  }

  /** `solveIfTrivial` (lew.cpp:54-67): when every target is empty or full the
      answer is the number of glasses to fill; `-1` as soon as some target is
      an intermediate amount. */
  method SolveIfTrivial(capacity: seq<int>, target: State) returns (r: int)
    requires |target| == |capacity|
    ensures AllBoundary(capacity, target) ==> r == CountFull(capacity, target)
    ensures !AllBoundary(capacity, target) ==> r == -1
  {
    var n := |capacity|;
    var fillCount := 0;
    for i := 0 to n
      invariant fillCount == CountFull(capacity[..i], target[..i])
      invariant AllBoundary(capacity[..i], target[..i])
    {
      assert capacity[..i + 1][..i] == capacity[..i];
      assert target[..i + 1][..i] == target[..i];
      if target[i] == 0 {
        continue;
      }
      if target[i] == capacity[i] {
        fillCount := fillCount + 1;
        continue;
      }
      assert !AllBoundary(capacity, target) by {
        assert !(target[i] == 0 || target[i] == capacity[i]);
      }
      return -1;
    }
    assert capacity[..n] == capacity && target[..n] == target;
    return fillCount;
  }

  // ---------------------------------------------------------------------------
  // What the rules mean
  // ---------------------------------------------------------------------------

  /** The pre-check never rejects a reachable target: every state reachable
      from all-empty has all levels divisible by the gcd of the capacities
      and some glass empty or full. */
  lemma PrecheckSound(cap: seq<int>, target: State, d: nat)
    requires ValidCapacities(cap) && |cap| > 0 && target in Layer(cap, d)
    ensures |target| == |cap| && PossiblyReachable(cap, target)
  {
    var g := GcdAll(cap);
    assert cap[0] > 0;
    GcdAllDivides(cap);
    LayerDivisible(cap, g, d, target);
    LayerBoundary(cap, d, target);
  }

  /** The state after filling, in index order, the glasses among the first `k`
      whose target is full. */
  function PartialFill(target: State, k: nat): (s: State)
    ensures |s| == |target|
  {
    seq(|target|, i requires 0 <= i < |target| => if i < k then target[i] else 0)
  }

  lemma CountFullNext(cap: seq<int>, target: State, k: nat)
    requires |target| == |cap| && 0 < k <= |target|
    ensures CountFull(cap[..k], target[..k])
         == CountFull(cap[..k - 1], target[..k - 1]) + (if target[k - 1] != 0 && target[k - 1] == cap[k - 1] then 1 else 0)
  {
    assert cap[..k][..k - 1] == cap[..k - 1] && target[..k][..k - 1] == target[..k - 1];
  }

  lemma PartialFillNext(target: State, k: nat)
    requires 0 < k <= |target|
    ensures PartialFill(target, k - 1)[k - 1] == 0
    ensures PartialFill(target, k) == PartialFill(target, k - 1)[k - 1 := target[k - 1]]
  {
  }

  /** Filling an empty glass of a reachable state takes one more operation. */
  lemma FillReachable(cap: seq<int>, s: State, j: nat, d: nat)
    requires ValidCapacities(cap) && InBounds(cap, s) && j < |s| && s[j] == 0
    requires s in Layer(cap, d)
    ensures s[j := cap[j]] in Layer(cap, d + 1)
  {
    assert Apply(cap, s, Fill(j)) == s[j := cap[j]];
    assert s[j := cap[j]][j] != s[j];
    MovesComplete(cap, s, Fill(j));
    LayerNext(cap, d, s, s[j := cap[j]]);
  }

  lemma {:induction false} PartialFillReachable(cap: seq<int>, target: State, k: nat)
    requires ValidCapacities(cap) && ValidTargets(cap, target) && AllBoundary(cap, target)
    requires k <= |target|
    ensures PartialFill(target, k) in Layer(cap, CountFull(cap[..k], target[..k]))
  {
    if k == 0 {
      assert PartialFill(target, 0) == Zeros(|cap|);
    } else {
      var j := k - 1;
      var s := PartialFill(target, j);
      PartialFillReachable(cap, target, j);
      var d := CountFull(cap[..j], target[..j]);
      CountFullNext(cap, target, k);
      PartialFillNext(target, k);
      if target[j] != 0 {
        FillReachable(cap, s, j, d);
      } else {
        assert s[j := target[j]] == s;
      }
    }
  }

  lemma {:induction false} OccupiedCountFull(cap: seq<int>, target: State)
    requires ValidCapacities(cap) && |target| == |cap| && AllBoundary(cap, target)
    ensures Occupied(target) == CountFull(cap, target)
  {
    var n := |target|;
    if n > 0 {
      OccupiedCountFull(cap[..n - 1], target[..n - 1]);
    }
  }

  /** The shortcut's answer is exact: the target is reached by that many
      fills and by no shorter sequence of operations, since each operation
      makes at most one more glass non-empty. */
  lemma TrivialIsOptimal(cap: seq<int>, target: State)
    requires ValidCapacities(cap) && ValidTargets(cap, target) && AllBoundary(cap, target)
    ensures target in Layer(cap, CountFull(cap, target))
    ensures forall d: nat :: d < CountFull(cap, target) ==> target !in Layer(cap, d)
  {
    var n := |target|;
    PartialFillReachable(cap, target, n);
    assert PartialFill(target, n) == target;
    assert cap[..n] == cap && target[..n] == target;
    OccupiedCountFull(cap, target);
    forall d: nat | target in Layer(cap, d)
      ensures CountFull(cap, target) <= d
    {
      LayerOccupied(cap, d, target);
    }
  }
}
