/** The closed form for exactly two glasses (lew.cpp:86-212): three counting
    formulas built on the least number of fills `k` with
    `k·from ≡ target (mod to)`, and the minimum over a fixed list of
    strategies. "No solution", which the source encodes as `LLONG_MAX`, is
    `None` here. */
module TwoJugs {
  import opened Arith

  datatype Option<T> = None | Some(value: T)

  /** The smaller of two counts, where `None` stands for "no solution" and
      loses to every count (`min` against `LLONG_MAX`). */
  function MinOpt(x: Option<int>, y: Option<int>): (m: Option<int>)
    ensures m.None? <==> x.None? && y.None?
    ensures m.Some? ==> m == x || m == y
    ensures x.Some? ==> m.Some? && m.value <= x.value
    ensures y.Some? ==> m.Some? && m.value <= y.value
  {
    if x.None? then y
    else if y.None? then x
    else if x.value <= y.value then x else y
  }

  /** One more operation after a strategy; "no solution" stays so. */
  function PlusOne(x: Option<int>): (y: Option<int>)
    ensures y.None? <==> x.None?
    ensures y.Some? ==> y.value == x.value + 1
  {
    if x.None? then None else Some(x.value + 1)
  }

  // ---------------------------------------------------------------------------
  // The fill count shared by the three formulas
  // ---------------------------------------------------------------------------

  /** After `k` fills of `from`, each poured into `to`, and some number of
      empties of `to`, the water left over is `target`: `k·from ≡ target`
      modulo `to`. */
  predicate FillsFit(from: int, to: int, target: int, k: int)
    requires to > 0
  {
    Congruent(k * from, target, to)
  }

  /** The same condition on the operands divided by their gcd. */
  predicate ReducedFits(fd: int, td: int, tgt: int, k: int)
    requires td > 0
  {
    Congruent(fd * k, tgt, td)
  }

  /** Multiplying by an inverse of `fd` undoes a multiplication by `fd`. */
  lemma InverseCancels(fd: int, td: int, inv: int, x: int)
    requires td > 0 && (fd * inv) % td == 1 % td
    ensures (inv * ((fd * x) % td)) % td == x % td
  {
    var y, p := fd * x, fd * inv;
    MulModRight(inv, y, td);
    assert inv * y == x * p;
    MulModRight(x, p, td);
    TimesOneMod(x, p % td, td);
  }

  lemma TimesOneMod(x: int, u: int, m: int)
    requires m > 0 && u == 1 % m
    ensures (x * u) % m == x % m
  {
    if m == 1 {
      MultipleMod(x, 1);
      MultipleMod(0, 1);
    }
  }

  /** On co-prime reduced operands, `k = (tgt·inv) mod td`, or `td` when
      that is 0, is the least positive solution of `fd·k ≡ tgt (mod td)`. */
  lemma ReducedFillCount(fd: nat, td: nat, tgt: nat, inv: int, k: int)
    requires td > 0 && (fd * inv) % td == 1 % td
    requires k == (if (tgt * inv) % td == 0 then td else (tgt * inv) % td)
    ensures 1 <= k <= td
    ensures ReducedFits(fd, td, tgt, k)
    ensures forall k' :: 1 <= k' < k ==> !ReducedFits(fd, td, tgt, k')
  {
    var k0 := (tgt * inv) % td;
    MulModRight(fd, tgt * inv, td);
    assert fd * (tgt * inv) == inv * (fd * tgt);
    InverseCancels(fd, td, inv, tgt);
    MulModRight(inv, fd * tgt, td);
    assert (fd * k0) % td == tgt % td;
    MultipleMod(fd, td);
    MultipleMod(0, td);
    assert (fd * k) % td == tgt % td;
    CongruentMod(fd * k, tgt, td);
    forall k' | 1 <= k' < k
      ensures !ReducedFits(fd, td, tgt, k')
    {
      var delta := k - k';
      assert fd * k - fd * k' == fd * delta;
      InverseCancels(fd, td, inv, delta);
      ModUnique(delta, td, 0, delta);
      assert (fd * delta) % td != 0;
      CongruentMod(fd * k, fd * k', td);
      CongruentMod(fd * k', tgt, td);
    }
  }

  /** Scaling both sides and the modulus by `d` keeps a congruence. */
  lemma ScaleCongruent(d: int, x: int, y: int, m: int)
    requires d > 0 && m > 0
    ensures Congruent(d * x, d * y, d * m) <==> Congruent(x, y, m)
  {
    var e := x - y;
    MulSubLeft(d, x, y);
    ScaleMod(d, e, m);
    var r := e % m;
    assert Congruent(d * x, d * y, d * m) <==> d * r == 0;
    if r != 0 {
      MulAtLeast(r, d);
      assert d * r == r * d;
    }
  }

  /** The fill count `k` of lew.cpp:95-103 (and :118-126, :140-148): divide by
      `d = gcd(from, to)`, take `k = (tgt · modInverse(fd, td)) % td`, and use
      `td` when that is 0. It is the least positive number of fills with
      `k·from ≡ target (mod to)`, and at most `to / d`. */
  function FillCount(from: nat, to: nat, target: nat): (k: int)
    requires from > 0 && to > 0 && target % Gcd(from, to) == 0
    ensures 1 <= k <= to / Gcd(from, to)
    ensures FillsFit(from, to, target, k)
    ensures forall k' :: 1 <= k' < k ==> !FillsFit(from, to, target, k')
  {
    var d := Gcd(from, to);
    GcdOfReduced(from, to);
    var fd, td, tgt := from / d, to / d, target / d;
    ReduceByGcd(from, to, target, d);
    var inv := ModInverse(fd, td);
    var r := (tgt * inv) % td;
    var k := if r == 0 then td else r;
    ReducedFillCount(fd, td, tgt, inv, k);
    k
  }

  /** Dividing the operands by their common divisor `d`: the quotients are
      positive, and fills fit before exactly when they fit after. */
  lemma ReduceByGcd(from: nat, to: nat, target: nat, d: nat)
    requires from > 0 && to > 0 && d > 0
    requires from % d == 0 && to % d == 0 && target % d == 0
    ensures from / d > 0 && to / d > 0
    ensures forall k' :: FillsFit(from, to, target, k') <==> ReducedFits(from / d, to / d, target / d, k')
  {
    var fd, td, tgt := from / d, to / d, target / d;
    DivExact(from, d);
    DivExact(to, d);
    DivExact(target, d);
    forall k' ensures FillsFit(from, to, target, k') <==> ReducedFits(fd, td, tgt, k') {
      assert k' * from == d * (fd * k') by {
        MulAssoc(k', d, fd);
        MulAssoc(d, fd, k');
      }
      ScaleCongruent(d, fd * k', tgt, td);
    }
  }

  lemma QuotientSign(j: int, to: int, x: int)
    requires to > 0 && j * to == x
    ensures j < 0 <==> x < 0
    ensures x > -to ==> j >= 0
  {
    assert (-j) * to == -x;
    if j < 0 {
      MulAtLeast(-j, to);
    } else if j > 0 {
      MulAtLeast(j, to);
    }
  }

  // ---------------------------------------------------------------------------
  // The three counting formulas
  // ---------------------------------------------------------------------------

  /** `countOpsTargetInTo` (lew.cpp:89-107): `target` ends in the glass poured
      into. `k` fills of `from` and `j` empties of `to`, each followed by a
      pour, with `k·from − j·to = target`: `2k + 2j` operations. */
  function CountOpsTargetInTo(from: nat, to: nat, target: nat): (r: Option<int>)
    requires from > 0 && to > 0
    ensures target == 0 ==> r == Some(0)
    ensures target != 0 && target == to ==> r == Some(1)
    ensures target != 0 && target != to ==> (r.None? <==> target % Gcd(from, to) != 0)
    ensures r.Some? && target != 0 && target != to ==>
      var k := FillCount(from, to, target);
      && r.value % 2 == 0
      && (r.value / 2 - k) * to == k * from - target
      && (target <= to ==> r.value >= 2 * k)
  {
    if target == 0 then Some(0)
    else if target == to then Some(1)
    else if target % Gcd(from, to) != 0 then None
    else
      var k := FillCount(from, to, target);
      MulAtLeast(k, from);
      var j := TruncDiv(k * from - target, to);
      assert j * to == k * from - target;
      QuotientSign(j, to, k * from - target);
      ModUnique(2 * k + 2 * j, 2, k + j, 0);
      Some(2 * k + 2 * j)
  }

  /** `countOpsTargetInFrom` (lew.cpp:112-130): `target` ends in the glass
      being filled, after the last empty of `to`, with no pour after it:
      `2k + 2j − 1` operations. */
  function CountOpsTargetInFrom(from: nat, to: nat, target: nat): (r: Option<int>)
    requires from > 0 && to > 0
    ensures target == 0 ==> r == Some(0)
    ensures target != 0 && target == from ==> r == Some(1)
    ensures target != 0 && target != from ==> (r.None? <==> target % Gcd(from, to) != 0)
    ensures r.Some? && target != 0 && target != from ==>
      var k := FillCount(from, to, target);
      && r.value % 2 == 1
      && ((r.value + 1) / 2 - k) * to == k * from - target
      && (target <= from ==> r.value >= 2 * k - 1)
  {
    if target == 0 then Some(0)
    else if target == from then Some(1)
    else if target % Gcd(from, to) != 0 then None
    else
      var k := FillCount(from, to, target);
      MulAtLeast(k, from);
      var j := TruncDiv(k * from - target, to);
      assert j * to == k * from - target;
      QuotientSign(j, to, k * from - target);
      ModUnique(2 * k + 2 * j - 1, 2, k + j - 1, 1);
      ModUnique(2 * k + 2 * j, 2, k + j, 0);
      Some(2 * k + 2 * j - 1)
  }

  /** `countOpsTargetInFromToFull` (lew.cpp:134-156): `target` ends in the
      glass being filled while `to` ends full, so `k·from − j·to = target + to`
      with `2k + 2j` operations; "no solution" when that `j` is negative. */
  function CountOpsTargetInFromToFull(from: nat, to: nat, target: nat): (r: Option<int>)
    requires from > 0 && to > 0
    ensures target == 0 ==> r == Some(0)
    ensures target != 0 && target == from ==> r == Some(1)
    ensures target != 0 && target != from ==>
      (r.None? <==> target % Gcd(from, to) != 0 || FillCount(from, to, target) * from < target + to)
    ensures r.Some? && target != 0 && target != from ==>
      var k := FillCount(from, to, target);
      && r.value % 2 == 0
      && (r.value / 2 - k) * to == k * from - target - to
      && r.value >= 2 * k
  {
    if target == 0 then Some(0)
    else if target == from then Some(1)
    else if target % Gcd(from, to) != 0 then None
    else
      var k := FillCount(from, to, target);
      assert Congruent(k * from - target - to, 0, to) by {
        assert k * from - target - to - 0 == (k * from - target) + (-1) * to;
        MultipleMod(1, to);
        CombineDivides(to, k * from - target, to, -1);
      }
      var j := TruncDiv(k * from - target - to, to);
      assert j * to == k * from - target - to;
      QuotientSign(j, to, k * from - target - to);
      ModUnique(2 * k + 2 * j, 2, k + j, 0);
      if j < 0 then None else Some(2 * k + 2 * j)
  }

  // ---------------------------------------------------------------------------
  // solveForTwo
  // ---------------------------------------------------------------------------

  /** The boundary targets answered before any formula (lew.cpp:162-169). */
  predicate IsShortcut(a: int, b: int, ta: int, tb: int) {
    (ta == 0 && tb == 0) || (ta == a && tb == b) || (ta == a && tb == 0) || (ta == 0 && tb == b)
  }

  /** The two strategies for a target with glass `x` empty and the other
      glass `y` holding `t` (lew.cpp:173-183): fill `x` and pour into `y`, or
      fill `y` and pour into `x`. */
  function EmptyStrategies(x: nat, y: nat, t: nat): seq<Option<int>>
    requires x > 0 && y > 0
  {
    [CountOpsTargetInTo(x, y, t), CountOpsTargetInFrom(y, x, t)]
  }

  /** The strategies for a target with glass `x` full and the other glass `y`
      holding `t` (lew.cpp:185-209): reach `(0, t)` either way and fill `x`;
      fill `x` naturally by pours from `y` when `x + t` is a multiple of `y`;
      or end with `x` full after the last pour. */
  function FullStrategies(x: nat, y: nat, t: nat): seq<Option<int>>
    requires x > 0 && y > 0
  {
    [PlusOne(CountOpsTargetInTo(x, y, t)), PlusOne(CountOpsTargetInFrom(y, x, t))]
    + (if (x + t) % y == 0 then [Some(2 * ((x + t) / y))] else [])
    + [CountOpsTargetInFromToFull(y, x, t)]
  }

  /** Every strategy `solveForTwo` weighs, in its order. */
  function Strategies(a: nat, b: nat, ta: nat, tb: nat): (cs: seq<Option<int>>)
    requires a > 0 && b > 0
    ensures |cs| > 0 <==> ta == 0 || tb == 0 || ta == a || tb == b
  {
    (if ta == 0 then EmptyStrategies(a, b, tb) else [])
    + (if tb == 0 then EmptyStrategies(b, a, ta) else [])
    + (if ta == a then FullStrategies(a, b, tb) else [])
    + (if tb == b then FullStrategies(b, a, ta) else [])
  }

  /** `best` is the least count among `cs`, and "no solution" exactly when
      every strategy in `cs` has none. */
  predicate IsLeast(best: Option<int>, cs: seq<Option<int>>) {
    && (best.None? <==> forall i :: 0 <= i < |cs| ==> cs[i].None?)
    && (best.Some? ==> best in cs)
    && (forall i :: 0 <= i < |cs| && cs[i].Some? ==> best.Some? && best.value <= cs[i].value)
  }

  lemma LeastExtend(best: Option<int>, cs: seq<Option<int>>, c: Option<int>)
    requires IsLeast(best, cs)
    ensures IsLeast(MinOpt(best, c), cs + [c])
  {
    var m := MinOpt(best, c);
    var cs' := cs + [c];
    assert forall i :: 0 <= i < |cs| ==> cs'[i] == cs[i];
    assert cs'[|cs|] == c;
    if m.Some? {
      if m == best {
        var i :| 0 <= i < |cs| && cs[i] == best;
        assert cs'[i] == m;
      } else {
        assert cs'[|cs|] == m;
      }
    }
  }

  /** The block of `solveForTwo` for glass `x` empty and the other glass
      holding `t` (lew.cpp:173-183): fold both strategies into `best`. */
  method ConsiderEmpty(best0: Option<int>, ghost tried: seq<Option<int>>, x: nat, y: nat, t: nat)
    returns (best: Option<int>)
    requires x > 0 && y > 0 && IsLeast(best0, tried)
    ensures IsLeast(best, tried + EmptyStrategies(x, y, t))
  {
    var c1 := CountOpsTargetInTo(x, y, t);
    LeastExtend(best0, tried, c1);
    best := MinOpt(best0, c1);
    var c2 := CountOpsTargetInFrom(y, x, t);
    LeastExtend(best, tried + [c1], c2);
    best := MinOpt(best, c2);
    assert tried + [c1] + [c2] == tried + EmptyStrategies(x, y, t);
  }

  /** The block of `solveForTwo` for glass `x` full and the other glass
      holding `t` (lew.cpp:185-209): fold its three or four strategies into
      `best`. */
  method ConsiderFull(best0: Option<int>, ghost tried: seq<Option<int>>, x: nat, y: nat, t: nat)
    returns (best: Option<int>)
    requires x > 0 && y > 0 && IsLeast(best0, tried)
    ensures IsLeast(best, tried + FullStrategies(x, y, t))
  {
    var c1 := PlusOne(CountOpsTargetInTo(x, y, t));
    LeastExtend(best0, tried, c1);
    best := MinOpt(best0, c1);
    var c2 := PlusOne(CountOpsTargetInFrom(y, x, t));
    LeastExtend(best, tried + [c1], c2);
    best := MinOpt(best, c2);
    ghost var seen := tried + [c1] + [c2];
    if (x + t) % y == 0 {
      var k := (x + t) / y;
      LeastExtend(best, seen, Some(2 * k));
      best := MinOpt(best, Some(2 * k));
      seen := seen + [Some(2 * k)];
    }
    var c3 := CountOpsTargetInFromToFull(y, x, t);
    LeastExtend(best, seen, c3);
    best := MinOpt(best, c3);
    assert seen + [c3] == tried + FullStrategies(x, y, t);
  }

  /** `solveForTwo` (lew.cpp:161-212): the boundary shortcuts, then the
      minimum over the strategies enabled by `ta == 0`, `tb == 0`, `ta == a`
      and `tb == b`, accumulated in `best` as the source does. */
  method SolveForTwo(a: nat, b: nat, ta: nat, tb: nat) returns (best: Option<int>)
    requires a > 0 && b > 0
    ensures ta == 0 && tb == 0 ==> best == Some(0)
    ensures ta == a && tb == b ==> best == Some(2)
    ensures ta == a && tb == 0 ==> best == Some(1)
    ensures ta == 0 && tb == b ==> best == Some(1)
    ensures !IsShortcut(a, b, ta, tb) ==> IsLeast(best, Strategies(a, b, ta, tb))
  {
    if ta == 0 && tb == 0 {
      return Some(0);
    }
    if ta == a && tb == b {
      return Some(2);
    }
    if ta == a && tb == 0 {
      return Some(1);
    }
    if ta == 0 && tb == b {
      return Some(1);
    }

    best := None;
    ghost var tried: seq<Option<int>> := [];
    if ta == 0 {
      // target (0, tb)
      best := ConsiderEmpty(best, tried, a, b, tb);
      tried := tried + EmptyStrategies(a, b, tb);
    }
    if tb == 0 {
      // target (ta, 0)
      best := ConsiderEmpty(best, tried, b, a, ta);
      tried := tried + EmptyStrategies(b, a, ta);
    }
    if ta == a {
      // target (a, tb)
      best := ConsiderFull(best, tried, a, b, tb);
      tried := tried + FullStrategies(a, b, tb);
    }
    if tb == b {
      // target (ta, b)
      best := ConsiderFull(best, tried, b, a, ta);
      tried := tried + FullStrategies(b, a, ta);
    }
    assert tried == Strategies(a, b, ta, tb);
  }

  // ---------------------------------------------------------------------------
  // What the closed form guarantees once the pre-check has passed
  // ---------------------------------------------------------------------------

  /** A target that is a multiple of `gcd(a, b)` is a multiple of
      `gcd(b, a)`. */
  lemma DivisibleSwap(a: nat, b: nat, t: nat)
    requires a > 0 && b > 0 && t % Gcd(a, b) == 0
    ensures t % Gcd(b, a) == 0
  {
    GcdDivides(a, b);
    GcdDivides(b, a);
    GcdGreatest(a, b, Gcd(b, a));
    DividesTrans(Gcd(b, a), Gcd(a, b), t);
  }

  /** Once both targets are multiples of `gcd(a, b)` the formulas that get one
      operation added never report "no solution", so the source's
      `LLONG_MAX + 1` is never evaluated after the pre-check. */
  lemma NoSentinelAfterPrecheck(a: nat, b: nat, ta: nat, tb: nat)
    requires a > 0 && b > 0 && ta % Gcd(a, b) == 0 && tb % Gcd(a, b) == 0
    ensures CountOpsTargetInTo(a, b, tb).Some? && CountOpsTargetInFrom(b, a, tb).Some?
    ensures CountOpsTargetInTo(b, a, ta).Some? && CountOpsTargetInFrom(a, b, ta).Some?
  {
    DivisibleSwap(a, b, ta);
    DivisibleSwap(a, b, tb);
  }

  /** Once both targets are multiples of `gcd(a, b)` and one of them is empty
      or full, some strategy applies, so `solveForTwo` never answers
      "no solution" after the pre-check has passed. */
  lemma SomeStrategyApplies(a: nat, b: nat, ta: nat, tb: nat)
    requires a > 0 && b > 0 && ta % Gcd(a, b) == 0 && tb % Gcd(a, b) == 0
    requires ta == 0 || tb == 0 || ta == a || tb == b
    ensures exists i :: 0 <= i < |Strategies(a, b, ta, tb)| && Strategies(a, b, ta, tb)[i].Some?
  {
    NoSentinelAfterPrecheck(a, b, ta, tb);
    var cs := Strategies(a, b, ta, tb);
    if ta == 0 {
      assert cs[0] == CountOpsTargetInTo(a, b, tb);
    } else if tb == 0 {
      assert cs[0] == CountOpsTargetInTo(b, a, ta);
    } else if ta == a {
      assert cs[0] == PlusOne(CountOpsTargetInTo(a, b, tb));
    } else {
      assert cs[0] == PlusOne(CountOpsTargetInTo(b, a, ta));
    }
  }
}
