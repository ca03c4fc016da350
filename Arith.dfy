/** Integer arithmetic used by the solver: Euclid's gcd, C++'s truncating
    division and remainder, the extended-Euclid modular inverse, and the
    modular facts the closed-form two-glass solver relies on. */
module Arith {

  /** `d` is a positive divisor of `x`. */
  predicate Divides(d: int, x: int) {
    d > 0 && x % d == 0
  }

  /** `x` and `y` leave the same remainder modulo `m`. */
  predicate Congruent(x: int, y: int, m: int)
    requires m > 0
  {
    (x - y) % m == 0
  }

  // ---------------------------------------------------------------------------
  // Division facts (Dafny's `/` and `%` are Euclidean)
  // ---------------------------------------------------------------------------

  lemma MulAtLeast(c: int, m: int)
    requires c >= 1 && m > 0
    ensures c * m >= m
  {
    assert c * m == (c - 1) * m + m;
    assert (c - 1) * m >= 0;
  }

  /** Quotient and remainder are determined by the division identity. */
  lemma ModUnique(x: int, m: int, q: int, r: int)
    requires m > 0 && 0 <= r < m && x == q * m + r
    ensures x / m == q && x % m == r
  {
    var q0, r0 := x / m, x % m;
    assert x == q0 * m + r0;
    assert (q - q0) * m == r0 - r;
    assert (q0 - q) * m == r - r0;
    if q > q0 {
      MulAtLeast(q - q0, m);
    } else if q < q0 {
      MulAtLeast(q0 - q, m);
    }
  }

  /** A positive factor can be cancelled. */
  lemma MulCancel(d: int, x: int, y: int)
    requires d > 0 && d * x == d * y
    ensures x == y
  {
    assert (x - y) * d == 0;
    assert (y - x) * d == 0;
    if x > y {
      MulAtLeast(x - y, d);
    } else if x < y {
      MulAtLeast(y - x, d);
    }
  }

  lemma MulSubRight(x: int, y: int, z: int)
    ensures (x - y) * z == x * z - y * z
  {
  }

  lemma MulSubLeft(z: int, x: int, y: int)
    ensures z * (x - y) == z * x - z * y
  {
  }

  lemma MulNeg(x: int, y: int)
    ensures (-x) * y == -(x * y)
  {
  }

  lemma MulAssoc(x: int, y: int, z: int)
    ensures (x * y) * z == x * (y * z)
  {
  }

  /** An exact quotient multiplies back to the dividend. */
  lemma DivExact(x: int, d: int)
    requires d > 0 && x % d == 0
    ensures d * (x / d) == x
  {
  }

  lemma MultipleMod(k: int, m: int)
    requires m > 0
    ensures (k * m) % m == 0 && (m * k) % m == 0
  {
    ModUnique(k * m, m, k, 0);
  }

  lemma AddMultipleMod(x: int, k: int, m: int)
    requires m > 0
    ensures (x + k * m) % m == x % m
  {
    var q := x / m;
    assert x + k * m == (q + k) * m + x % m;
    ModUnique(x + k * m, m, q + k, x % m);
  }

  /** Congruence is equality of remainders. */
  lemma CongruentMod(x: int, y: int, m: int)
    requires m > 0
    ensures Congruent(x, y, m) <==> x % m == y % m
  {
    var qx, qy, rx, ry := x / m, y / m, x % m, y % m;
    var k := qx - qy;
    MulSubRight(qx, qy, m);
    assert x - y == k * m + (rx - ry);
    if rx == ry {
      MultipleMod(k, m);
    } else if rx > ry {
      ModUnique(x - y, m, k, rx - ry);
    } else {
      MulSubRight(k, 1, m);
      ModUnique(x - y, m, k - 1, m + rx - ry);
    }
  }

  /** A multiple of `g` stays a multiple of `g` under integer combinations. */
  lemma CombineDivides(g: int, x: int, y: int, q: int)
    requires Divides(g, x) && Divides(g, y)
    ensures Divides(g, x + q * y)
  {
    var cx, cy := x / g, y / g;
    assert x == cx * g;
    assert y == cy * g;
    assert x + q * y == (cx + q * cy) * g;
    MultipleMod(cx + q * cy, g);
  }

  lemma DividesSum(g: int, x: int, y: int, q: int, z: int)
    requires Divides(g, x) && Divides(g, y) && z == x + q * y
    ensures Divides(g, z)
  {
    CombineDivides(g, x, y, q);
  }

  lemma MulModRight(a: int, b: int, m: int)
    requires m > 0
    ensures (a * (b % m)) % m == (a * b) % m
  {
    var q := b / m;
    assert a * b == a * (b % m) + (a * q) * m;
    AddMultipleMod(a * (b % m), a * q, m);
  }

  /** Scaling dividend and divisor by `d` scales the remainder by `d`. */
  lemma ScaleMod(d: int, x: int, m: int)
    requires d > 0 && m > 0
    ensures (d * x) % (d * m) == d * (x % m)
    ensures (d * x) / (d * m) == x / m
  {
    var q, r := x / m, x % m;
    assert d * x == q * (d * m) + d * r;
    assert d * r < d * m;
    ModUnique(d * x, d * m, q, d * r);
  }

  // ---------------------------------------------------------------------------
  // C++ integer division, which truncates toward zero
  // ---------------------------------------------------------------------------

  /** `x % m` as C++ computes it for a positive `m`: the sign follows `x`. */
  function TruncRem(x: int, m: int): (r: int)
    requires m > 0
    ensures -m < r < m
    ensures x >= 0 ==> r >= 0
    ensures x < 0 ==> r <= 0
    ensures Congruent(x, r, m)
  {
    if x >= 0 then
      RemOfNonNegative(x, m);
      x % m
    else
      RemOfNegative(x, m);
      -((-x) % m)
  }

  lemma RemOfNonNegative(x: int, m: int)
    requires x >= 0 && m > 0
    ensures 0 <= x % m < m && Congruent(x, x % m, m)
  {
    var q := x / m;
    assert x - x % m == q * m;
    MultipleMod(q, m);
  }

  /** `-((-x) % m)` lies in `(-m, 0]` and is congruent to `x`. */
  lemma RemOfNegative(x: int, m: int)
    requires x < 0 && m > 0
    ensures -m < -((-x) % m) <= 0 && Congruent(x, -((-x) % m), m)
  {
    var y := -x;
    var q := y / m;
    assert x - -(y % m) == (-q) * m;
    MultipleMod(-q, m);
  }

  /** `x / m` as C++ computes it for a positive `m`: the quotient of the
      absolute value, with the sign of `x`. */
  function TruncDiv(x: int, m: int): (q: int)
    requires m > 0
    ensures q * m + TruncRem(x, m) == x
    ensures x % m == 0 ==> q * m == x
  {
    if x >= 0 then x / m
    else
      var q := -((-x) / m);
      assert q * m + TruncRem(x, m) == -(((-x) / m) * m + (-x) % m);
      assert x % m == 0 ==> (-x) % m == 0 by {
        if x % m == 0 {
          assert -x == (-(x / m)) * m;
          MultipleMod(-(x / m), m);
        }
      }
      q
  }

  // ---------------------------------------------------------------------------
  // Greatest common divisor (lew.cpp `gcd`)
  // ---------------------------------------------------------------------------

  /** `gcd(a, b)` as lew.cpp writes it: `b ? gcd(b, a % b) : a`. Operands
      are never negative in the solver, so C++'s `%` agrees with Dafny's. */
  function Gcd(a: nat, b: nat): (g: nat)
    ensures g == 0 <==> a == 0 && b == 0
    decreases b
  {
    if b == 0 then a else Gcd(b, a % b)
  }

  lemma GcdOneLeft(b: nat)
    ensures Gcd(1, b) == 1
  {
    if b > 1 {
      assert Gcd(1, b) == Gcd(b, 1);
      assert Gcd(b, 1) == Gcd(1, 0);
    }
  }

  /** The gcd divides both operands. */
  lemma {:induction false} GcdDivides(a: nat, b: nat)
    requires a > 0 || b > 0
    ensures Divides(Gcd(a, b), a) && Divides(Gcd(a, b), b)
    decreases b
  {
    var g := Gcd(a, b);
    if b == 0 {
      MultipleMod(1, a);
      assert a % a == 0;
      MultipleMod(0, a);
    } else {
      GcdDivides(b, a % b);
      assert a == a % b + (a / b) * b;
      CombineDivides(g, a % b, b, a / b);
    }
  }

  /** Every common divisor of the operands divides the gcd. */
  lemma {:induction false} GcdGreatest(a: nat, b: nat, c: int)
    requires Divides(c, a) && Divides(c, b)
    ensures Gcd(a, b) % c == 0
    decreases b
  {
    if b > 0 {
      assert a % b == a + (-(a / b)) * b;
      CombineDivides(c, a, b, -(a / b));
      GcdGreatest(b, a % b, c);
    }
  }

  /** Scaling both operands by `d` scales the gcd by `d`. */
  lemma {:induction false} GcdScale(d: nat, a: nat, b: nat)
    requires d > 0
    ensures Gcd(d * a, d * b) == d * Gcd(a, b)
    decreases b
  {
    if b > 0 {
      ScaleMod(d, a, b);
      assert (d * a) % (d * b) == d * (a % b);
      GcdScale(d, b, a % b);
    }
  }

  /** Dividing both operands by their gcd leaves co-prime operands. */
  lemma GcdOfReduced(a: nat, b: nat)
    requires a > 0 || b > 0
    ensures Divides(Gcd(a, b), a) && Divides(Gcd(a, b), b)
    ensures Gcd(a / Gcd(a, b), b / Gcd(a, b)) == 1
  {
    var d := Gcd(a, b);
    GcdDivides(a, b);
    var ad, bd := a / d, b / d;
    DivExact(a, d);
    DivExact(b, d);
    GcdScale(d, ad, bd);
    MulCancel(d, 1, Gcd(ad, bd));
  }

  /** The gcd of a whole sequence, folded from the left starting at 0, as
      `canPossiblyReach` computes it. */
  function GcdAll(xs: seq<int>): (g: nat)
    requires forall i :: 0 <= i < |xs| ==> xs[i] >= 0
    ensures g == 0 <==> forall i :: 0 <= i < |xs| ==> xs[i] == 0
  {
    if |xs| == 0 then 0
    else
      var g := Gcd(GcdAll(xs[..|xs| - 1]), xs[|xs| - 1]);
      assert forall i :: 0 <= i < |xs| - 1 ==> xs[..|xs| - 1][i] == xs[i];
      g
  }

  /** Divisibility is transitive. */
  lemma DividesTrans(a: int, b: int, c: int)
    requires Divides(a, b) && Divides(b, c)
    ensures Divides(a, c)
  {
    var k := b / a;
    var l := c / b;
    assert b == k * a;
    assert c == l * b;
    assert c == (l * k) * a;
    MultipleMod(l * k, a);
  }

  /** The folded gcd divides every element. */
  lemma {:induction false} GcdAllDivides(xs: seq<int>)
    requires forall i :: 0 <= i < |xs| ==> xs[i] >= 0
    requires GcdAll(xs) > 0
    ensures forall i :: 0 <= i < |xs| ==> Divides(GcdAll(xs), xs[i])
  {
    var init := xs[..|xs| - 1];
    var last := xs[|xs| - 1];
    var gi := GcdAll(init);
    var g := GcdAll(xs);
    assert g == Gcd(gi, last);
    GcdDivides(gi, last);
    if gi > 0 {
      GcdAllDivides(init);
    }
    forall i | 0 <= i < |xs| - 1
      ensures Divides(g, xs[i])
    {
      assert init[i] == xs[i];
      if gi == 0 {
        MultipleMod(0, g);
      } else {
        DividesTrans(g, gi, init[i]);
      }
    }
  }

  /** Every common divisor of the elements divides the folded gcd. */
  lemma {:induction false} GcdAllGreatest(xs: seq<int>, c: int)
    requires forall i :: 0 <= i < |xs| ==> xs[i] >= 0
    requires c > 0 && forall i :: 0 <= i < |xs| ==> Divides(c, xs[i])
    ensures GcdAll(xs) % c == 0
  {
    if |xs| == 0 {
      MultipleMod(0, c);
    } else {
      var init := xs[..|xs| - 1];
      assert forall i :: 0 <= i < |init| ==> init[i] == xs[i];
      GcdAllGreatest(init, c);
      GcdGreatest(GcdAll(init), xs[|xs| - 1], c);
    }
  }

  // ---------------------------------------------------------------------------
  // Modular inverse (lew.cpp `modInverse`)
  // ---------------------------------------------------------------------------

  /** The extended-Euclid loop of `modInverse`, one iteration per call:
      `(a, b, x0, x1)` becomes `(b, a - q*b, x1 - q*x0, x0)` with `q = a / b`
      while `a > 1 && b > 0`; the value is the final `x1`. For non-negative
      operands `a - q*b` is `a % b`. */
  function ExtEuclid(a: nat, b: nat, x0: int, x1: int): int
    decreases b
  {
    if a > 1 && b > 0 then ExtEuclid(b, a % b, x1 - (a / b) * x0, x0) else x1
  }

  /** One loop iteration keeps both congruences. */
  lemma EuclidStep(val: int, mod: int, a: int, b: int, x0: int, x1: int, q: int, r: int, nx: int)
    requires mod > 0
    requires Congruent(x1 * val, a, mod) && Congruent(x0 * val, b, mod)
    requires r == a - q * b && nx == x1 - q * x0
    ensures Congruent(nx * val, r, mod)
  {
    EuclidIdentity(val, a, b, x0, x1, q);
    DividesSum(mod, x1 * val - a, x0 * val - b, -q, nx * val - r);
  }

  /** The ring identity behind `EuclidStep`. */
  lemma EuclidIdentity(val: int, a: int, b: int, x0: int, x1: int, q: int)
    ensures (x1 - q * x0) * val - (a - q * b) == (x1 * val - a) + (-q) * (x0 * val - b)
  {
    var p0 := x0 * val;
    MulSubRight(x1, q * x0, val);
    MulAssoc(q, x0, val);
    MulSubLeft(-q, p0, b);
    MulNeg(q, p0);
    MulNeg(q, b);
  }

  /** One iteration of `modInverse`'s loop is one step of Euclid's
      algorithm: `a - q*b` is `a % b`, so the gcd and the final `x1` stay. */
  lemma EuclidLoopStep(a: int, b: int, x0: int, x1: int, q: int)
    requires a > 1 && b > 0 && q == a / b
    ensures 0 <= a - q * b < b
    ensures Gcd(a, b) == Gcd(b, a - q * b)
    ensures ExtEuclid(a, b, x0, x1) == ExtEuclid(b, a - q * b, x1 - q * x0, x0)
  {
    assert a - q * b == a % b;
  }

  /** Bezout: with `a ≡ x1·val` and `b ≡ x0·val` (mod `mod`) on entry, the
      loop ends with `x1·val ≡ gcd(a, b)`. */
  lemma {:induction false} ExtEuclidBezout(val: int, mod: int, a: nat, b: nat, x0: int, x1: int)
    requires mod > 0 && a > 0
    requires Congruent(x1 * val, a, mod) && Congruent(x0 * val, b, mod)
    ensures Congruent(ExtEuclid(a, b, x0, x1) * val, Gcd(a, b), mod)
    decreases b
  {
    if a > 1 && b > 0 {
      var q, r := a / b, a % b;
      var nx := x1 - q * x0;
      EuclidStep(val, mod, a, b, x0, x1, q, r, nx);
      ExtEuclidBezout(val, mod, b, r, nx, x0);
      assert ExtEuclid(a, b, x0, x1) == ExtEuclid(b, r, nx, x0);
      assert Gcd(a, b) == Gcd(b, r);
    } else if b > 0 {
      GcdOneLeft(b);
    }
  }

  /** `modInverse(val, mod)`: the representative in `[0, mod)` of the final
      `x1`, normalised as `((x1 % mod) + mod) % mod` with C++'s remainder.
      For co-prime operands `val·x ≡ 1 (mod mod)`; in general
      `val·x ≡ gcd(val, mod)`. */
  function ModInverse(val: nat, mod: nat): (x: int)
    requires val > 0 && mod > 0
    ensures 0 <= x < mod
    ensures (val * x) % mod == Gcd(val, mod) % mod
  {
    var y := ExtEuclid(val, mod, 0, 1);
    var x := (TruncRem(y, mod) + mod) % mod;
    assert (val * x) % mod == Gcd(val, mod) % mod by {
      MultipleMod(0, mod);
      assert Congruent(1 * val, val, mod);
      assert Congruent(0 * val, mod, mod) by { MultipleMod(-1, mod); }
      ExtEuclidBezout(val, mod, val, mod, 0, 1);
      CongruentMod(y * val, Gcd(val, mod), mod);
      CongruentMod(y, TruncRem(y, mod), mod);
      AddMultipleMod(TruncRem(y, mod), 1, mod);
      assert x == y % mod;
      MulModRight(val, y, mod);
      assert val * y == y * val;
    }
    x
  }

  /** The loop of `modInverse` itself, returning what the function above
      specifies. While it runs `a > 0` and `gcd(a, b)` stays `gcd(val, mod)`,
      so it stops with `a == gcd(val, mod)`, which is 1 for co-prime operands;
      the congruences `a ≡ x1·val`, `b ≡ x0·val` it keeps are those of
      `ExtEuclidBezout`. */
  method ComputeModInverse(val: nat, mod: nat) returns (x: int)
    requires val > 0 && mod > 0
    ensures x == ModInverse(val, mod)
    ensures 0 <= x < mod
    ensures Gcd(val, mod) == 1 ==> (val * x) % mod == 1 % mod
  {
    var x0: int, x1: int, a: int, b: int := 0, 1, val, mod;
    while a > 1 && b > 0
      invariant a > 0 && b >= 0
      invariant Gcd(a, b) == Gcd(val, mod)
      invariant ExtEuclid(a, b, x0, x1) == ExtEuclid(val, mod, 0, 1)
      decreases b
    {
      var q := a / b;
      EuclidLoopStep(a, b, x0, x1, q);
      a, b := b, a - q * b;
      x0, x1 := x1 - q * x0, x0;
    }
    if b > 0 {
      GcdOneLeft(b);
    }
    assert a == Gcd(val, mod);
    assert ExtEuclid(val, mod, 0, 1) == x1;
    x := (TruncRem(x1, mod) + mod) % mod;
  }
}
