/** The driver `solve` (lew.cpp:327-353): the all-empty shortcut, the
    pre-check, the empty-or-full shortcut, the closed form for two glasses
    and the breadth-first search for the rest, with what its answer means. */
module Solver {
  import opened Arith
  import opened Jugs
  import opened Precheck
  import opened TwoJugs
  import opened Bfs

  /** `isAlreadyAtTarget` (lew.cpp:328-333): every target is empty. */
  method IsAlreadyAtTarget(target: State) returns (b: bool)
    ensures b <==> target == Zeros(|target|)
  {
    for i := 0 to |target|
      invariant forall k :: 0 <= k < i ==> target[k] == 0
    {
      if target[i] != 0 {
        assert target[i] != Zeros(|target|)[i];
        return false;
      }
    }
    assert target == Zeros(|target|);
    return true;
  }

  /** With two glasses the gcd folded by the pre-check is `gcd(a, b)`. */
  lemma GcdAllPair(cap: seq<int>)
    requires ValidCapacities(cap) && |cap| == 2
    ensures GcdAll(cap) == Gcd(cap[0], cap[1])
  {
    assert cap[..1][..0] == [];
    assert Gcd(0, cap[0]) == Gcd(cap[0], 0);
    assert GcdAll(cap[..1]) == cap[0];
  }

  /** For targets the glasses can hold, every count the closed form weighs
      is non-negative, so its minimum never collides with `-1`. */
  lemma StrategiesNonNegative(a: nat, b: nat, ta: nat, tb: nat)
    requires a > 0 && b > 0 && ta <= a && tb <= b
    ensures forall i :: 0 <= i < |Strategies(a, b, ta, tb)| && Strategies(a, b, ta, tb)[i].Some? ==>
              Strategies(a, b, ta, tb)[i].value >= 0
  {
    EmptyNonNegative(a, b, tb);
    EmptyNonNegative(b, a, ta);
    FullNonNegative(a, b, tb);
    FullNonNegative(b, a, ta);
  }

  /** The counts of the two strategies for an empty glass `x`. */
  lemma EmptyNonNegative(x: nat, y: nat, t: nat)
    requires x > 0 && y > 0 && t <= y
    ensures forall c :: c in EmptyStrategies(x, y, t) && c.Some? ==> c.value >= 0
  {
  }

  /** The counts of the strategies for a full glass `x`. */
  lemma FullNonNegative(x: nat, y: nat, t: nat)
    requires x > 0 && y > 0 && t <= y
    ensures forall c :: c in FullStrategies(x, y, t) && c.Some? ==> c.value >= 0
  {
  }

  /** `solve` (lew.cpp:338-353). No glasses or an all-empty target needs no
      operation; a target the pre-check rejects gets `-1`; a target of empty
      and full glasses gets the number of full ones; two glasses get the
      closed form, whose "no solution" (`LLONG_MAX`) narrows to `-1` as
      `static_cast<int>` does; anything else goes to the search.

      The answer `-1` is never wrong: no sequence of operations reaches the
      target. A non-negative answer for other than two glasses is exact: the
      target is reachable in that many operations and in no fewer. For two
      glasses that pass the pre-check there is always an answer, the least
      count among the closed form's strategies. */
  method Solve(capacity: seq<int>, target: State) returns (r: int)
    requires ValidCapacities(capacity) && ValidTargets(capacity, target)
    ensures r >= -1
    ensures |capacity| == 0 || target == Zeros(|capacity|) ==> r == 0
    ensures |capacity| > 0 && !PossiblyReachable(capacity, target) ==> r == -1
    ensures PossiblyReachable(capacity, target) && AllBoundary(capacity, target) ==> r == CountFull(capacity, target)
    ensures r == -1 ==> forall d: nat :: target !in Layer(capacity, d)
    ensures r >= 0 && |capacity| != 2 ==>
      target in Layer(capacity, r) && forall d: nat :: d < r ==> target !in Layer(capacity, d)
    ensures |capacity| == 2 && PossiblyReachable(capacity, target) && !AllBoundary(capacity, target) ==>
      r >= 0 && IsLeast(Some(r), Strategies(capacity[0], capacity[1], target[0], target[1]))
  {
    var n := |capacity|;
    var atTarget := IsAlreadyAtTarget(target);
    if n == 0 || atTarget {
      if n > 0 {
        ZerosBoundary(capacity);
      }
      return 0;
    }
    var ok := CanPossiblyReach(capacity, target);
    if !ok {
      forall d: nat | target in Layer(capacity, d)
        ensures false
      {
        PrecheckSound(capacity, target, d);
      }
      return -1;
    }
    var trivialAnswer := SolveIfTrivial(capacity, target);
    if trivialAnswer >= 0 {
      assert AllBoundary(capacity, target);
      TrivialIsOptimal(capacity, target);
      return trivialAnswer;
    }
    if n == 2 {
      var a, b, ta, tb := capacity[0], capacity[1], target[0], target[1];
      var best := SolveForTwo(a, b, ta, tb);
      assert !IsShortcut(a, b, ta, tb);
      GcdAllPair(capacity);
      assert ta == 0 || tb == 0 || ta == a || tb == b;
      SomeStrategyApplies(a, b, ta, tb);
      StrategiesNonNegative(a, b, ta, tb);
      // static_cast<int>(LLONG_MAX) is -1
      r := if best.None? then -1 else best.value;
      return;
    }
    r := BfsSolve(capacity, target);
  }

  /** The all-empty state has every glass empty, so the empty-or-full rule
      would answer 0 for it as well. */
  lemma ZerosBoundary(cap: seq<int>)
    requires ValidCapacities(cap)
    ensures AllBoundary(cap, Zeros(|cap|)) && CountFull(cap, Zeros(|cap|)) == 0
  {
    OccupiedCountFull(cap, Zeros(|cap|));
    ZerosUnoccupied(|cap|);
  }

  /** Glasses of 3 and 5 with the target (0, 4): filling the 3 and pouring
      into the 5 takes 8 operations, filling the 5 and pouring into the 3
      takes 7, so the closed form answers 7. */
  lemma WorkedExample()
    ensures Strategies(3, 5, 0, 4) == [Some(8), Some(7)]
  {
    FillCountThreeFive();
    FillCountFiveThree();
    assert CountOpsTargetInTo(3, 5, 4) == Some(8);
    assert CountOpsTargetInFrom(5, 3, 4) == Some(7);
  }

  lemma FillCountThreeFive()
    ensures Gcd(3, 5) == 1 && FillCount(3, 5, 4) == 3
  {
    assert Gcd(3, 5) == 1;
    assert FillsFit(3, 5, 4, 3) && !FillsFit(3, 5, 4, 1) && !FillsFit(3, 5, 4, 2);
  }

  lemma FillCountFiveThree()
    ensures Gcd(5, 3) == 1 && FillCount(5, 3, 4) == 2
  {
    assert Gcd(5, 3) == 1;
    assert FillsFit(5, 3, 4, 2) && !FillsFit(5, 3, 4, 1);
  }
}
