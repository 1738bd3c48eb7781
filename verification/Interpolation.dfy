/**
  Polynomial and linear interpolation of interpolation_tool.py over exact reals.  Lagrange's and
  Newton's forms agree because a polynomial with more zeros than degree vanishes everywhere.
 */
module Interpolation {
  import opened Wrappers

  ghost predicate Distinct(xs: seq<real>) {
    forall i, j :: 0 <= i < j < |xs| ==> xs[i] != xs[j]
  }

  lemma DistinctAt(xs: seq<real>, i: nat, j: nat)
    requires Distinct(xs) && i < j < |xs|
    ensures xs[i] != xs[j]
  {
  }

  // One product named, so that a proof can pass it on without multiplying out.
  ghost predicate MulAdd(total: real, base: real, a: real, b: real) {
    total == base + a * b
  }

  lemma SelfQuotient(d: real)
    requires d != 0.0
    ensures d / d == 1.0 && 0.0 / d == 0.0
  {
  }

  // ---------- polynomials as coefficient lists ----------

  type Poly = seq<real>

  function Eval(p: Poly, t: real): real {
    if p == [] then 0.0 else p[0] + t * Eval(p[1..], t)
  }

  function Plus(p: Poly, q: Poly): (r: Poly)
    ensures |r| == if |p| >= |q| then |p| else |q|
  {
    if p == [] then q
    else if q == [] then p
    else [p[0] + q[0]] + Plus(p[1..], q[1..])
  }

  function Times(s: real, p: Poly): (r: Poly)
    ensures |r| == |p|
  {
    if p == [] then [] else [s * p[0]] + Times(s, p[1..])
  }

  // (t - c) * p
  function TimesRoot(p: Poly, c: real): (r: Poly)
    ensures |r| == |p| + 1
  {
    Plus([0.0] + p, Times(-c, p))
  }

  lemma {:induction false} EvalPlus(p: Poly, q: Poly, t: real)
    ensures Eval(Plus(p, q), t) == Eval(p, t) + Eval(q, t)
  {
    if p != [] && q != [] {
      EvalPlus(p[1..], q[1..], t);
      assert Plus(p, q)[1..] == Plus(p[1..], q[1..]);
    }
  }

  lemma {:induction false} EvalTimes(s: real, p: Poly, t: real)
    ensures Eval(Times(s, p), t) == s * Eval(p, t)
  {
    if p != [] {
      EvalTimes(s, p[1..], t);
      assert Times(s, p)[1..] == Times(s, p[1..]);
      assert t * (s * Eval(p[1..], t)) == s * (t * Eval(p[1..], t));
    }
  }

  lemma EvalTimesRoot(p: Poly, c: real, t: real)
    ensures Eval(TimesRoot(p, c), t) == (t - c) * Eval(p, t)
  {
    var shifted := [0.0] + p;
    assert Eval(shifted, t) == t * Eval(p, t) by { assert shifted[1..] == p; }
    hide *;
    EvalPlus(shifted, Times(-c, p), t);
    EvalTimes(-c, p, t);
  }

  // ---------- uniqueness ----------

  // Synthetic division by (t - c).
  function Quotient(p: Poly, c: real): (q: Poly)
    ensures |q| == if p == [] then 0 else |p| - 1
  {
    if |p| <= 1 then [] else [Eval(p[1..], c)] + Quotient(p[1..], c)
  }

  lemma {:induction false} DivisionByRoot(p: Poly, c: real, t: real)
    ensures Eval(p, t) == (t - c) * Eval(Quotient(p, c), t) + Eval(p, c)
  {
    if |p| == 1 {
      assert Eval(p[1..], t) == 0.0 && Eval(p[1..], c) == 0.0;
    } else if |p| > 1 {
      DivisionByRoot(p[1..], c, t);
      var rest, q := Eval(p[1..], c), Eval(Quotient(p[1..], c), t);
      assert Quotient(p, c)[1..] == Quotient(p[1..], c);
    }
  }

  ghost predicate Vanishes(p: Poly, xs: seq<real>) {
    forall i :: 0 <= i < |xs| ==> Eval(p, xs[i]) == 0.0
  }

  // More zeros than degree: the polynomial is zero at every argument.
  lemma {:induction false} TooManyZeros(p: Poly, xs: seq<real>, t: real)
    requires |p| <= |xs| && Distinct(xs) && Vanishes(p, xs)
    ensures Eval(p, t) == 0.0
    decreases |p|
  {
    if p != [] {
      var c, q := xs[0], Quotient(p, xs[0]);
      forall i | 0 <= i < |xs[1..]| ensures Eval(q, xs[1..][i]) == 0.0 {
        var x := xs[i + 1];
        DivisionByRoot(p, c, x);
        assert Eval(p, x) == 0.0 && Eval(p, c) == 0.0;
        ProductZero(x - c, Eval(q, x));
      }
      TooManyZeros(q, xs[1..], t);
      DivisionByRoot(p, c, t);
    }
  }

  lemma ProductZero(a: real, b: real)
    requires a * b == 0.0 && a != 0.0
    ensures b == 0.0
  {
  }

  ghost predicate Interpolates(p: Poly, xs: seq<real>, ys: seq<real>)
    requires |ys| == |xs|
  {
    |p| <= |xs| && forall k :: 0 <= k < |xs| ==> Eval(p, xs[k]) == ys[k]
  }

  // Uniqueness of the interpolating polynomial.
  lemma Unique(p: Poly, q: Poly, xs: seq<real>, ys: seq<real>, t: real)
    requires |ys| == |xs| && Distinct(xs) && Interpolates(p, xs, ys) && Interpolates(q, xs, ys)
    ensures Eval(p, t) == Eval(q, t)
  {
    hide Eval, Plus, Times, Distinct;
    var d := Plus(p, Times(-1.0, q));
    forall x: real ensures Eval(d, x) == Eval(p, x) - Eval(q, x) {
      EvalPlus(p, Times(-1.0, q), x);
      EvalTimes(-1.0, q, x);
    }
    TooManyZeros(d, xs, t);
  }

  // ---------- Lagrange ----------

  function Factor(xs: seq<real>, i: nat, j: nat, t: real): real
    requires i < |xs| && j < |xs| && i != j && Distinct(xs)
  {
    assert xs[i] != xs[j];
    (t - xs[j]) / (xs[i] - xs[j])
  }

  lemma FactorAtNodes(xs: seq<real>, i: nat, j: nat)
    requires i < |xs| && j < |xs| && i != j && Distinct(xs)
    ensures Factor(xs, i, j, xs[i]) == 1.0 && Factor(xs, i, j, xs[j]) == 0.0
  {
    assert xs[i] != xs[j];
    hide Distinct;
    SelfQuotient(xs[i] - xs[j]);
  }

  // Term i after the first `count` factors.
  function Term(xs: seq<real>, yi: real, i: nat, t: real, count: nat): real
    requires i < |xs| && count <= |xs| && Distinct(xs)
  {
    if count == 0 then yi
    else if count - 1 == i then Term(xs, yi, i, t, count - 1)
    else Term(xs, yi, i, t, count - 1) * Factor(xs, i, count - 1, t)
  }

  function LagrangeSum(xs: seq<real>, ys: seq<real>, t: real, count: nat): real
    requires |ys| == |xs| && count <= |xs| && Distinct(xs)
  {
    if count == 0 then 0.0
    else LagrangeSum(xs, ys, t, count - 1) + Term(xs, ys[count - 1], count - 1, t, |xs|)
  }

  method Lagrange(xs: seq<real>, ys: seq<real>, target: real) returns (result: real)
    requires |ys| == |xs| && Distinct(xs)
    ensures result == LagrangeSum(xs, ys, target, |xs|)
    ensures forall k :: 0 <= k < |xs| && target == xs[k] ==> result == ys[k]
  {
    result := 0.0;
    for i := 0 to |xs|
      invariant result == LagrangeSum(xs, ys, target, i)
    {
      var term := ys[i];
      for j := 0 to |xs|
        invariant term == Term(xs, ys[i], i, target, j)
      {
        if i != j {
          assert xs[i] != xs[j];
          var denominator := xs[i] - xs[j];
          assert (target - xs[j]) / denominator == Factor(xs, i, j, target);
          hide Factor, Distinct;
          term := term * ((target - xs[j]) / denominator);
        }
      }
      result := result + term;
    }
    forall k | 0 <= k < |xs| && target == xs[k] ensures result == ys[k] {
      LagrangeHits(xs, ys, k);
    }
  }

  // At its own node a term keeps its y; at another node it is zero.
  lemma {:induction false} TermAtNode(xs: seq<real>, yi: real, i: nat, k: nat, count: nat)
    requires i < |xs| && k < |xs| && count <= |xs| && Distinct(xs)
    ensures i == k ==> Term(xs, yi, i, xs[k], count) == yi
    ensures i != k && k < count ==> Term(xs, yi, i, xs[k], count) == 0.0
  {
    hide Distinct, Factor;
    if count > 0 {
      TermAtNode(xs, yi, i, k, count - 1);
      if count - 1 != i {
        FactorAtNodes(xs, i, count - 1);
      }
    }
  }

  lemma {:induction false} LagrangeAtNode(xs: seq<real>, ys: seq<real>, k: nat, count: nat)
    requires |ys| == |xs| && count <= |xs| && k < |xs| && Distinct(xs)
    ensures LagrangeSum(xs, ys, xs[k], count) == if k < count then ys[k] else 0.0
  {
    hide Distinct, Term;
    if count > 0 {
      LagrangeAtNode(xs, ys, k, count - 1);
      TermAtNode(xs, ys[count - 1], count - 1, k, |xs|);
    }
  }

  lemma LagrangeHits(xs: seq<real>, ys: seq<real>, k: nat)
    requires |ys| == |xs| && k < |xs| && Distinct(xs)
    ensures LagrangeSum(xs, ys, xs[k], |xs|) == ys[k]
  {
    LagrangeAtNode(xs, ys, k, |xs|);
  }

  // The Lagrange sum is the value of one polynomial with at most |xs| coefficients.
  function TermPoly(xs: seq<real>, yi: real, i: nat, count: nat): (p: Poly)
    requires i < |xs| && count <= |xs| && Distinct(xs)
    ensures |p| == if i < count then count else count + 1
  {
    if count == 0 then [yi]
    else if count - 1 == i then TermPoly(xs, yi, i, count - 1)
    else TimesFactor(xs, i, count - 1, TermPoly(xs, yi, i, count - 1))
  }

  function TimesFactor(xs: seq<real>, i: nat, j: nat, p: Poly): (r: Poly)
    requires i < |xs| && j < |xs| && i != j && Distinct(xs)
    ensures |r| == |p| + 1
  {
    assert xs[i] != xs[j];
    Times(1.0 / (xs[i] - xs[j]), TimesRoot(p, xs[j]))
  }

  function LagrangePoly(xs: seq<real>, ys: seq<real>, count: nat): (p: Poly)
    requires |ys| == |xs| && count <= |xs| && Distinct(xs)
    ensures |p| <= |xs|
  {
    if count == 0 then [] else Plus(LagrangePoly(xs, ys, count - 1), TermPoly(xs, ys[count - 1], count - 1, |xs|))
  }

  lemma {:induction false} TermPolyEval(xs: seq<real>, yi: real, i: nat, count: nat, t: real)
    requires i < |xs| && count <= |xs| && Distinct(xs)
    ensures Eval(TermPoly(xs, yi, i, count), t) == Term(xs, yi, i, t, count)
  {
    hide Distinct, Factor, TimesFactor;
    if count == 0 {
      assert [yi][1..] == [];
    } else {
      TermPolyEval(xs, yi, i, count - 1, t);
      if count - 1 != i {
        FactorPoly(xs, i, count - 1, TermPoly(xs, yi, i, count - 1), t);
      }
    }
  }

  // Multiplying a polynomial by one Lagrange factor.
  lemma FactorPoly(xs: seq<real>, i: nat, j: nat, p: Poly, t: real)
    requires i < |xs| && j < |xs| && i != j && Distinct(xs)
    ensures Eval(TimesFactor(xs, i, j, p), t) == Eval(p, t) * Factor(xs, i, j, t)
  {
    assert xs[i] != xs[j];
    hide Eval, Times, TimesRoot, Distinct;
    var d := xs[i] - xs[j];
    EvalTimes(1.0 / d, TimesRoot(p, xs[j]), t);
    EvalTimesRoot(p, xs[j], t);
  }

  lemma {:induction false} LagrangePolyEval(xs: seq<real>, ys: seq<real>, count: nat, t: real)
    requires |ys| == |xs| && count <= |xs| && Distinct(xs)
    ensures Eval(LagrangePoly(xs, ys, count), t) == LagrangeSum(xs, ys, t, count)
  {
    hide *;
    if count == 0 {
      LagrangePolyUnfolds(xs, ys, 0);
      EvalNothing(t);
    } else {
      LagrangePolyUnfolds(xs, ys, count);
      LagrangeSumUnfolds(xs, ys, count, t);
      LagrangePolyEval(xs, ys, count - 1, t);
      TermPolyEval(xs, ys[count - 1], count - 1, |xs|, t);
      EvalPlus(LagrangePoly(xs, ys, count - 1), TermPoly(xs, ys[count - 1], count - 1, |xs|), t);
    }
    LagrangeSumUnfolds(xs, ys, count, t);
  }

  lemma EvalNothing(t: real)
    ensures Eval([], t) == 0.0
  {
  }

  lemma LagrangePolyUnfolds(xs: seq<real>, ys: seq<real>, count: nat)
    requires |ys| == |xs| && count <= |xs| && Distinct(xs)
    ensures LagrangePoly(xs, ys, count) == if count == 0 then []
              else Plus(LagrangePoly(xs, ys, count - 1), TermPoly(xs, ys[count - 1], count - 1, |xs|))
  {
    hide Distinct, TermPoly, Plus;
  }

  lemma LagrangeSumUnfolds(xs: seq<real>, ys: seq<real>, count: nat, t: real)
    requires |ys| == |xs| && count <= |xs| && Distinct(xs)
    ensures LagrangeSum(xs, ys, t, count) == if count == 0 then 0.0
              else LagrangeSum(xs, ys, t, count - 1) + Term(xs, ys[count - 1], count - 1, t, |xs|)
  {
    hide Distinct, Term;
  }

  // ---------- Newton ----------

  // The divided difference f[x_{k-m}, ..., x_k].
  function Divided(xs: seq<real>, ys: seq<real>, k: nat, m: nat): real
    requires |ys| == |xs| && m <= k < |xs| && Distinct(xs)
    decreases m
  {
    if m == 0 then ys[k]
    else
      assert xs[k] != xs[k - m];
      (Divided(xs, ys, k, m - 1) - Divided(xs, ys, k - 1, m - 1)) / (xs[k] - xs[k - m])
  }

  // (t - x_i) ... (t - x_{i+m-1})
  function Nodal(xs: seq<real>, i: nat, m: nat, t: real): real
    requires i + m <= |xs|
  {
    if m == 0 then 1.0 else Nodal(xs, i, m - 1, t) * (t - xs[i + m - 1])
  }

  // Newton's form on the nodes x_i, ..., x_{i+m}.
  function Newton(xs: seq<real>, ys: seq<real>, i: nat, m: nat, t: real): real
    requires |ys| == |xs| && i + m < |xs| && Distinct(xs)
    decreases m
  {
    if m == 0 then ys[i]
    else Newton(xs, ys, i, m - 1, t) + Divided(xs, ys, i + m, m) * Nodal(xs, i, m, t)
  }

  lemma {:induction false} NodalFirst(xs: seq<real>, i: nat, m: nat, t: real)
    requires 0 < m && i + m <= |xs|
    ensures MulAdd(Nodal(xs, i, m, t), 0.0, t - xs[i], Nodal(xs, i + 1, m - 1, t))
  {
    if m > 1 {
      NodalFirst(xs, i, m - 1, t);
    } else {
      assert Nodal(xs, i, 0, t) == 1.0 && Nodal(xs, i + 1, 0, t) == 1.0;
    }
  }

  // high - low = w * d * u
  ghost predicate Gap(high: real, low: real, w: real, d: real, u: real) {
    high - low == w * d * u
  }

  // Two overlapping Newton forms of the same length differ by one nodal product.
  lemma {:induction false} NewtonShift(xs: seq<real>, ys: seq<real>, i: nat, m: nat, t: real)
    requires |ys| == |xs| && i + m + 1 < |xs| && Distinct(xs)
    ensures Gap(Newton(xs, ys, i + 1, m, t), Newton(xs, ys, i, m, t),
                xs[i + m + 1] - xs[i], Divided(xs, ys, i + m + 1, m + 1), Nodal(xs, i + 1, m, t))
    decreases m
  {
    hide *;
    DividedStep(xs, ys, i, m);
    if m == 0 {
      ShiftStarts(xs, ys, i, t);
    } else {
      NewtonShift(xs, ys, i, m - 1, t);
      NodalFirst(xs, i, m, t);
      NewtonStep(xs, ys, i, m, t);
      NewtonStep(xs, ys, i + 1, m, t);
      ShiftGrows(Newton(xs, ys, i + 1, m - 1, t), Newton(xs, ys, i + 1, m, t), Newton(xs, ys, i, m - 1, t), Newton(xs, ys, i, m, t),
                 Divided(xs, ys, i + m + 1, m), Divided(xs, ys, i + m, m), Divided(xs, ys, i + m + 1, m + 1),
                 xs[i + m + 1], xs[i + m], xs[i], t,
                 Nodal(xs, i + 1, m - 1, t), Nodal(xs, i + 1, m, t), Nodal(xs, i, m, t));
    }
  }

  lemma ShiftStarts(xs: seq<real>, ys: seq<real>, i: nat, t: real)
    requires |ys| == |xs| && i + 1 < |xs| && Distinct(xs)
    requires MulAdd(Divided(xs, ys, i + 1, 0), Divided(xs, ys, i, 0), xs[i + 1] - xs[i], Divided(xs, ys, i + 1, 1))
    ensures Gap(Newton(xs, ys, i + 1, 0, t), Newton(xs, ys, i, 0, t), xs[i + 1] - xs[i], Divided(xs, ys, i + 1, 1), Nodal(xs, i + 1, 0, t))
  {
    hide Distinct;
  }

  lemma NewtonStep(xs: seq<real>, ys: seq<real>, i: nat, m: nat, t: real)
    requires |ys| == |xs| && 0 < m && i + m < |xs| && Distinct(xs)
    ensures MulAdd(Newton(xs, ys, i, m, t), Newton(xs, ys, i, m - 1, t), Divided(xs, ys, i + m, m), Nodal(xs, i, m, t))
    ensures MulAdd(Nodal(xs, i, m, t), 0.0, Nodal(xs, i, m - 1, t), t - xs[i + m - 1])
  {
    hide Distinct, Divided;
  }

  lemma ShiftGrows(high0: real, high: real, low0: real, low: real, upper: real, lower: real, d: real,
                   xNext: real, xm: real, xi: real, t: real, u: real, wHigh: real, wLow: real)
    requires Gap(high0, low0, xm - xi, lower, u)
    requires MulAdd(high, high0, upper, wHigh) && MulAdd(low, low0, lower, wLow)
    requires MulAdd(wHigh, 0.0, u, t - xm) && MulAdd(wLow, 0.0, t - xi, u)
    requires MulAdd(upper, lower, xNext - xi, d)
    ensures Gap(high, low, xNext - xi, d, wHigh)
  {
    assert high - low == (upper - lower) * wHigh;
  }

  lemma DividedStep(xs: seq<real>, ys: seq<real>, i: nat, m: nat)
    requires |ys| == |xs| && i + m + 1 < |xs| && Distinct(xs)
    ensures MulAdd(Divided(xs, ys, i + m + 1, m), Divided(xs, ys, i + m, m),
                   xs[i + m + 1] - xs[i], Divided(xs, ys, i + m + 1, m + 1))
  {
    DistinctAt(xs, i, i + m + 1);
    hide Distinct;
  }

  // full is the mean of high and low with weights a and -b.
  ghost predicate Blend(w: real, a: real, b: real, low: real, high: real, full: real) {
    w == a - b && w * full == a * high - b * low
  }

  // The Aitken-Neville recurrence.
  lemma Neville(xs: seq<real>, ys: seq<real>, i: nat, m: nat, t: real)
    requires |ys| == |xs| && i + m + 1 < |xs| && Distinct(xs)
    ensures Blend(xs[i + m + 1] - xs[i], t - xs[i], t - xs[i + m + 1],
                  Newton(xs, ys, i, m, t), Newton(xs, ys, i + 1, m, t), Newton(xs, ys, i, m + 1, t))
  {
    hide *;
    NewtonShift(xs, ys, i, m, t);
    NodalFirst(xs, i, m + 1, t);
    NewtonStep(xs, ys, i, m + 1, t);
    NevilleAlgebra(xs[i + m + 1] - xs[i], t - xs[i], t - xs[i + m + 1], Divided(xs, ys, i + m + 1, m + 1),
                   Nodal(xs, i + 1, m, t), Nodal(xs, i, m + 1, t),
                   Newton(xs, ys, i, m, t), Newton(xs, ys, i + 1, m, t), Newton(xs, ys, i, m + 1, t));
  }

  lemma NevilleAlgebra(w: real, a: real, b: real, d: real, u: real, v: real, low: real, high: real, full: real)
    requires w == a - b
    requires Gap(high, low, w, d, u) && MulAdd(v, 0.0, a, u) && MulAdd(full, low, d, v)
    ensures Blend(w, a, b, low, high, full)
  {
    assert w * (d * (a * u)) == a * (w * d * u);
    assert a * high - b * low == a * (high - low) + w * low;
  }

  // Newton's form passes through each of its nodes.
  lemma {:induction false} NewtonHits(xs: seq<real>, ys: seq<real>, i: nat, m: nat, k: nat)
    requires |ys| == |xs| && i + m < |xs| && i <= k <= i + m && Distinct(xs)
    ensures Newton(xs, ys, i, m, xs[k]) == ys[k]
    decreases m
  {
    if m > 0 {
      hide *;
      DistinctAt(xs, i, i + m);
      Neville(xs, ys, i, m - 1, xs[k]);
      if k < i + m { NewtonHits(xs, ys, i, m - 1, k); }
      if k > i { NewtonHits(xs, ys, i + 1, m - 1, k); }
      WeightedMean(xs[i + m] - xs[i], xs[k] - xs[i], xs[k] - xs[i + m], Newton(xs, ys, i, m - 1, xs[k]),
                   Newton(xs, ys, i + 1, m - 1, xs[k]), Newton(xs, ys, i, m, xs[k]), ys[k]);
    }
  }

  // A combination with weights a and -b of equal values, at an end of which one weight is zero.
  lemma WeightedMean(w: real, a: real, b: real, low: real, high: real, full: real, y: real)
    requires w != 0.0 && Blend(w, a, b, low, high, full)
    requires (b != 0.0 ==> low == y) && (a != 0.0 ==> high == y)
    ensures full == y
  {
    assert a * high == a * y && b * low == b * y;
    assert w * full == w * y;
    ProductZero(w, full - y);
  }

  function NodalPoly(xs: seq<real>, m: nat): (p: Poly)
    requires m <= |xs|
    ensures |p| == m + 1
  {
    if m == 0 then [1.0] else TimesRoot(NodalPoly(xs, m - 1), xs[m - 1])
  }

  function NewtonPoly(xs: seq<real>, ys: seq<real>, m: nat): (p: Poly)
    requires |ys| == |xs| && m < |xs| && Distinct(xs)
    ensures |p| == m + 1
  {
    if m == 0 then [ys[0]]
    else Plus(NewtonPoly(xs, ys, m - 1), Times(Divided(xs, ys, m, m), NodalPoly(xs, m)))
  }

  lemma {:induction false} NodalPolyEval(xs: seq<real>, m: nat, t: real)
    requires m <= |xs|
    ensures Eval(NodalPoly(xs, m), t) == Nodal(xs, 0, m, t)
  {
    if m == 0 {
      assert [1.0][1..] == [];
    } else {
      NodalPolyEval(xs, m - 1, t);
      hide Eval, TimesRoot;
      EvalTimesRoot(NodalPoly(xs, m - 1), xs[m - 1], t);
    }
  }

  lemma {:induction false} NewtonPolyEval(xs: seq<real>, ys: seq<real>, m: nat, t: real)
    requires |ys| == |xs| && m < |xs| && Distinct(xs)
    ensures Eval(NewtonPoly(xs, ys, m), t) == Newton(xs, ys, 0, m, t)
  {
    if m == 0 {
      assert [ys[0]][1..] == [];
    } else {
      hide *;
      NewtonPolyEval(xs, ys, m - 1, t);
      NodalPolyEval(xs, m, t);
      NewtonPolyUnfolds(xs, ys, m, t);
    }
  }

  lemma NewtonPolyUnfolds(xs: seq<real>, ys: seq<real>, m: nat, t: real)
    requires |ys| == |xs| && 0 < m < |xs| && Distinct(xs)
    requires Eval(NodalPoly(xs, m), t) == Nodal(xs, 0, m, t)
    requires Eval(NewtonPoly(xs, ys, m - 1), t) == Newton(xs, ys, 0, m - 1, t)
    ensures Eval(NewtonPoly(xs, ys, m), t) == Newton(xs, ys, 0, m, t)
  {
    hide Distinct, Divided, Eval, Plus, Times, NodalPoly, Nodal;
    EvalTimes(Divided(xs, ys, m, m), NodalPoly(xs, m), t);
    EvalPlus(NewtonPoly(xs, ys, m - 1), Times(Divided(xs, ys, m, m), NodalPoly(xs, m)), t);
  }

  // The two methods compute the same number, whatever the order of the nodes and the target.
  lemma NewtonIsLagrange(xs: seq<real>, ys: seq<real>, t: real)
    requires |ys| == |xs| && |xs| > 0 && Distinct(xs)
    ensures Newton(xs, ys, 0, |xs| - 1, t) == LagrangeSum(xs, ys, t, |xs|)
  {
    hide Eval, Newton, LagrangeSum, NewtonPoly, LagrangePoly, Distinct;
    var n := |xs|;
    var p, q := NewtonPoly(xs, ys, n - 1), LagrangePoly(xs, ys, n);
    forall k | 0 <= k < n ensures Eval(p, xs[k]) == ys[k] && Eval(q, xs[k]) == ys[k] {
      NewtonPolyEval(xs, ys, n - 1, xs[k]);
      NewtonHits(xs, ys, 0, n - 1, k);
      LagrangePolyEval(xs, ys, n, xs[k]);
      LagrangeHits(xs, ys, k);
    }
    Unique(p, q, xs, ys, t);
    NewtonPolyEval(xs, ys, n - 1, t);
    LagrangePolyEval(xs, ys, n, t);
  }

  // The nested evaluation c_i + (t - x_i)(c_{i+1} + ...) over the diagonal of the table.
  function Horner(xs: seq<real>, ys: seq<real>, i: nat, t: real): real
    requires |ys| == |xs| && i < |xs| && Distinct(xs)
    decreases |xs| - i
  {
    if i == |xs| - 1 then Divided(xs, ys, i, i)
    else Horner(xs, ys, i + 1, t) * (t - xs[i]) + Divided(xs, ys, i, i)
  }

  function Before(xs: seq<real>, ys: seq<real>, i: nat, t: real): real
    requires |ys| == |xs| && i < |xs| && Distinct(xs)
  {
    if i == 0 then 0.0 else Newton(xs, ys, 0, i - 1, t)
  }

  // Nesting and summing give the same value.
  lemma {:induction false} HornerIsNewton(xs: seq<real>, ys: seq<real>, i: nat, t: real)
    requires |ys| == |xs| && i < |xs| && Distinct(xs)
    ensures MulAdd(Newton(xs, ys, 0, |xs| - 1, t), Before(xs, ys, i, t), Horner(xs, ys, i, t), Nodal(xs, 0, i, t))
    decreases |xs| - i
  {
    hide *;
    NewtonGrows(xs, ys, i, t);
    if i == |xs| - 1 {
      HornerEnds(xs, ys, t);
    } else {
      HornerIsNewton(xs, ys, i + 1, t);
      HornerUnfolds(xs, ys, i, t);
      HornerNests(Newton(xs, ys, 0, |xs| - 1, t), Newton(xs, ys, 0, i, t), Before(xs, ys, i, t),
                  Horner(xs, ys, i + 1, t), Horner(xs, ys, i, t), t - xs[i], Divided(xs, ys, i, i),
                  Nodal(xs, 0, i, t), Nodal(xs, 0, i + 1, t));
    }
  }

  lemma NewtonGrows(xs: seq<real>, ys: seq<real>, i: nat, t: real)
    requires |ys| == |xs| && i < |xs| && Distinct(xs)
    ensures MulAdd(Newton(xs, ys, 0, i, t), Before(xs, ys, i, t), Divided(xs, ys, i, i), Nodal(xs, 0, i, t))
  {
    hide Distinct;
    if i > 0 {
      hide Newton, Divided, Nodal, MulAdd;
      NewtonStep(xs, ys, 0, i, t);
    }
  }

  lemma HornerUnfolds(xs: seq<real>, ys: seq<real>, i: nat, t: real)
    requires |ys| == |xs| && i < |xs| - 1 && Distinct(xs)
    ensures MulAdd(Horner(xs, ys, i, t), Divided(xs, ys, i, i), Horner(xs, ys, i + 1, t), t - xs[i])
    ensures MulAdd(Nodal(xs, 0, i + 1, t), 0.0, Nodal(xs, 0, i, t), t - xs[i])
    ensures Before(xs, ys, i + 1, t) == Newton(xs, ys, 0, i, t)
  {
    hide Distinct, Divided, Newton;
  }

  lemma HornerEnds(xs: seq<real>, ys: seq<real>, t: real)
    requires |ys| == |xs| && |xs| > 0 && Distinct(xs)
    ensures Horner(xs, ys, |xs| - 1, t) == Divided(xs, ys, |xs| - 1, |xs| - 1)
  {
    hide Distinct, Divided;
  }

  lemma HornerNests(total: real, here: real, before: real, inner: real, outer: real, a: real, d: real, w: real, wNext: real)
    requires MulAdd(total, here, inner, wNext) && MulAdd(here, before, d, w)
    requires MulAdd(outer, d, inner, a) && MulAdd(wNext, 0.0, w, a)
    ensures MulAdd(total, before, outer, w)
  {
    assert inner * (w * a) == (inner * a) * w;
  }

  method DividedDifferences(xs: seq<real>, ys: seq<real>) returns (r: seq<real>)
    requires |ys| == |xs| && |xs| > 0 && Distinct(xs)
    ensures |r| == |xs| && forall k :: 0 <= k < |xs| ==> r[k] == Divided(xs, ys, k, k)
  {
    hide Distinct;
    var n := |xs|;
    var coefficients := new real[n](i requires 0 <= i < n => ys[i]);
    for order := 1 to n
      invariant forall k :: 0 <= k < n ==>
                  coefficients[k] == Divided(xs, ys, k, if k < order then k else order - 1)
    {
      for index := n downto order
        invariant forall k :: 0 <= k < index ==>
                    coefficients[k] == Divided(xs, ys, k, if k < order then k else order - 1)
        invariant forall k :: index <= k < n ==> coefficients[k] == Divided(xs, ys, k, order)
      {
        var denominator := xs[index] - xs[index - order];
        DistinctAt(xs, index - order, index);
        coefficients[index] := (coefficients[index] - coefficients[index - 1]) / denominator;
      }
    }
    return coefficients[..];
  }

  method NewtonDividedDifference(xs: seq<real>, ys: seq<real>, target: real) returns (result: real)
    requires |ys| == |xs| && |xs| > 0 && Distinct(xs)
    ensures result == LagrangeSum(xs, ys, target, |xs|)
    ensures forall k :: 0 <= k < |xs| && target == xs[k] ==> result == ys[k]
  {
    var n := |xs|;
    var coefficients := DividedDifferences(xs, ys);
    result := coefficients[n - 1];
    for index := n - 1 downto 0
      invariant result == Horner(xs, ys, index, target)
    {
      result := result * (target - xs[index]) + coefficients[index];
    }
    HornerIsNewton(xs, ys, 0, target);
    NewtonIsLagrange(xs, ys, target);
    forall k | 0 <= k < |xs| && target == xs[k] ensures result == ys[k] {
      LagrangeHits(xs, ys, k);
    }
  }

  // ---------- piecewise linear ----------

  datatype Error = NotLocated

  predicate Spans(xs: seq<real>, i: nat, t: real)
    requires i + 1 < |xs|
  {
    xs[i] <= t <= xs[i + 1] || xs[i + 1] <= t <= xs[i]
  }

  function Chord(xs: seq<real>, ys: seq<real>, i: nat, t: real): real
    requires |ys| == |xs| && i + 1 < |xs| && Distinct(xs)
  {
    assert xs[i] != xs[i + 1];
    ys[i] + (t - xs[i]) / (xs[i + 1] - xs[i]) * (ys[i + 1] - ys[i])
  }

  // The answer of the scan when the segments before i do not span the target.
  function LinearFrom(xs: seq<real>, ys: seq<real>, i: nat, t: real): Result<real, Error>
    requires |ys| == |xs| && i < |xs| && Distinct(xs)
    decreases |xs| - i
  {
    if i + 1 < |xs| then
      if Spans(xs, i, t) then Success(Chord(xs, ys, i, t)) else LinearFrom(xs, ys, i + 1, t)
    else if t == xs[i] then Success(ys[i])
    else Failure(NotLocated)
  }

  lemma ChordEnds(xs: seq<real>, ys: seq<real>, i: nat)
    requires |ys| == |xs| && i + 1 < |xs| && Distinct(xs)
    ensures Chord(xs, ys, i, xs[i]) == ys[i] && Chord(xs, ys, i, xs[i + 1]) == ys[i + 1]
  {
    assert xs[i] != xs[i + 1];
    SelfQuotient(xs[i + 1] - xs[i]);
  }

  // The chord's value is the one that lies on the straight line through its two data points.
  lemma ChordIsLine(xs: seq<real>, ys: seq<real>, i: nat, t: real, v: real)
    requires |ys| == |xs| && i + 1 < |xs| && Distinct(xs)
    ensures v == Chord(xs, ys, i, t) <==> (v - ys[i]) * (xs[i + 1] - xs[i]) == (t - xs[i]) * (ys[i + 1] - ys[i])
  {
    assert xs[i] != xs[i + 1];
    LineThrough(xs[i + 1] - xs[i], t - xs[i], ys[i + 1] - ys[i], v - ys[i]);
  }

  lemma LineThrough(w: real, dt: real, dy: real, dv: real)
    requires w != 0.0
    ensures dv == dt / w * dy <==> dv * w == dt * dy
  {
    var q := dt / w;
    assert q * w == dt;
    assert q * dy * w == dt * dy;
    if dv * w == dt * dy {
      assert (dv - q * dy) * w == 0.0;
    }
  }

  method Linear(xs: seq<real>, ys: seq<real>, target: real) returns (r: Result<real, Error>)
    requires |ys| == |xs| && |xs| >= 2 && Distinct(xs)
    ensures r == LinearFrom(xs, ys, 0, target)
    ensures target == xs[0] ==> r == Success(ys[0])
  {
    if target == xs[0] {
      ChordEnds(xs, ys, 0);
      return Success(ys[0]);
    }
    for index := 0 to |xs| - 1
      invariant LinearFrom(xs, ys, 0, target) == LinearFrom(xs, ys, index, target)
    {
      var x0, x1 := xs[index], xs[index + 1];
      if Min(x0, x1) <= target <= Max(x0, x1) {
        var y0, y1 := ys[index], ys[index + 1];
        assert x0 != x1;
        var fraction := (target - x0) / (x1 - x0);
        assert Chord(xs, ys, index, target) == y0 + fraction * (y1 - y0);
        hide Chord;
        assert Spans(xs, index, target);
        return Success(y0 + fraction * (y1 - y0));
      }
    }
    if target == xs[|xs| - 1] {
      return Success(ys[|xs| - 1]);
    }
    return Failure(NotLocated);
  }

  function Min(a: real, b: real): real {
    if b < a then b else a
  }

  function Max(a: real, b: real): real {
    if b > a then b else a
  }

  // Walking from below the target to above it, or back, crosses it in one segment.
  lemma {:induction false} Crossing(xs: seq<real>, a: nat, b: nat, t: real)
    requires a < b < |xs| && (xs[a] <= t <= xs[b] || xs[b] <= t <= xs[a])
    ensures exists i: nat :: a <= i < b && Spans(xs, i, t)
    decreases b - a
  {
    if a + 1 == b {
      assert Spans(xs, a, t);
    } else if xs[a] <= t <= xs[a + 1] || xs[a + 1] <= t <= xs[a] {
      assert Spans(xs, a, t);
    } else {
      Crossing(xs, a + 1, b, t);
    }
  }

  lemma {:induction false} SpanIsFound(xs: seq<real>, ys: seq<real>, start: nat, i: nat, t: real)
    requires |ys| == |xs| && start <= i && i + 1 < |xs| && Distinct(xs) && Spans(xs, i, t)
    ensures LinearFrom(xs, ys, start, t).Success?
    decreases i - start
  {
    hide Distinct, Chord;
    if start < i && !Spans(xs, start, t) {
      SpanIsFound(xs, ys, start + 1, i, t);
    }
  }

  // A target between the least and the greatest x is always located.
  lemma LinearLocates(xs: seq<real>, ys: seq<real>, t: real, lo: nat, hi: nat)
    requires |ys| == |xs| && |xs| >= 2 && Distinct(xs)
    requires lo < |xs| && hi < |xs| && xs[lo] <= t <= xs[hi]
    ensures LinearFrom(xs, ys, 0, t).Success?
  {
    hide Distinct, Chord, LinearFrom;
    var a, b := if lo < hi then lo else hi, if lo < hi then hi else lo;
    if a == b {
      assert t == xs[a];
      var i: nat := if a + 1 < |xs| then a else a - 1;
      assert Spans(xs, i, t);
      SpanIsFound(xs, ys, 0, i, t);
    } else {
      Crossing(xs, a, b, t);
      var i: nat :| a <= i < b && Spans(xs, i, t);
      SpanIsFound(xs, ys, 0, i, t);
    }
  }

  // The answer when the first segment that spans the target is known.
  lemma {:induction false} FirstSpanAnswers(xs: seq<real>, ys: seq<real>, start: nat, first: nat, t: real)
    requires |ys| == |xs| && start <= first && first + 1 < |xs| && Distinct(xs)
    requires Spans(xs, first, t) && forall i :: start <= i < first ==> !Spans(xs, i, t)
    ensures LinearFrom(xs, ys, start, t) == Success(Chord(xs, ys, first, t))
    decreases first - start
  {
    hide Distinct, Chord;
    if start < first {
      FirstSpanAnswers(xs, ys, start + 1, first, t);
    }
  }

  // Node k lies strictly above all nodes before it, or strictly below them all.
  ghost predicate Extreme(xs: seq<real>, k: nat)
    requires k < |xs|
  {
    (forall i :: 0 <= i < k ==> xs[i] < xs[k]) || (forall i :: 0 <= i < k ==> xs[i] > xs[k])
  }

  ghost predicate Reproduces(xs: seq<real>, k: nat)
    requires k < |xs| && Distinct(xs)
  {
    forall ys: seq<real> :: |ys| == |xs| ==> LinearFrom(xs, ys, 0, xs[k]) == Success(ys[k])
  }

  lemma ExtremeIsHit(xs: seq<real>, ys: seq<real>, k: nat)
    requires |ys| == |xs| && |xs| >= 2 && k < |xs| && Distinct(xs) && Extreme(xs, k)
    ensures LinearFrom(xs, ys, 0, xs[k]) == Success(ys[k])
  {
    var first: nat := if k == 0 then 0 else k - 1;
    assert Spans(xs, first, xs[k]);
    FirstSpanAnswers(xs, ys, 0, first, xs[k]);
    ChordEnds(xs, ys, first);
  }

  // Two nodes on either side of node k, both before it, hide it: with a 1 there and 0 elsewhere the
  // scan answers 0.
  lemma HiddenIsMissed(xs: seq<real>, a: nat, b: nat, k: nat)
    requires a < k < |xs| && b < k && Distinct(xs) && xs[a] < xs[k] < xs[b]
    ensures !Reproduces(xs, k)
  {
    var ys := seq(|xs|, i => if i == k then 1.0 else 0.0);
    Crossing(xs, if a < b then a else b, if a < b then b else a, xs[k]);
    var some: nat :| some + 1 < k && Spans(xs, some, xs[k]);
    var first := FirstSpan(xs, xs[k], some);
    FirstSpanAnswers(xs, ys, 0, first, xs[k]);
    assert (xs[k] - xs[first]) / (xs[first + 1] - xs[first]) * 0.0 == 0.0;
    assert LinearFrom(xs, ys, 0, xs[k]) != Success(ys[k]);
  }

  lemma {:induction false} FirstSpan(xs: seq<real>, t: real, some: nat) returns (first: nat)
    requires some + 1 < |xs| && Spans(xs, some, t)
    ensures first <= some && Spans(xs, first, t) && forall i :: 0 <= i < first ==> !Spans(xs, i, t)
  {
    if i: nat :| i < some && Spans(xs, i, t) {
      first := FirstSpan(xs, t, i);
    } else {
      first := some;
    }
  }

  // The scan answers y_k at x_k, whatever the y values, exactly when x_k is a new minimum or a new
  // maximum among the nodes up to it.
  lemma LinearAtNode(xs: seq<real>, k: nat)
    requires |xs| >= 2 && k < |xs| && Distinct(xs)
    ensures Reproduces(xs, k) <==> Extreme(xs, k)
  {
    if Extreme(xs, k) {
      forall ys: seq<real> | |ys| == |xs| ensures LinearFrom(xs, ys, 0, xs[k]) == Success(ys[k]) {
        ExtremeIsHit(xs, ys, k);
      }
    } else {
      var a: nat, b: nat :| a < k && b < k && xs[a] >= xs[k] && xs[b] <= xs[k];
      HiddenIsMissed(xs, b, a, k);
    }
  }

  // All data points are reproduced, whatever the y values, exactly when every node extends the
  // range of those before it.  Data sorted in either direction do.
  lemma LinearHitsAllExactlyWhen(xs: seq<real>)
    requires |xs| >= 2 && Distinct(xs)
    ensures (forall k: nat :: k < |xs| ==> Reproduces(xs, k)) <==> (forall k: nat :: k < |xs| ==> Extreme(xs, k))
    ensures (forall i, j :: 0 <= i < j < |xs| ==> xs[i] < xs[j]) || (forall i, j :: 0 <= i < j < |xs| ==> xs[i] > xs[j]) ==>
              forall k: nat :: k < |xs| ==> Reproduces(xs, k)
  {
    hide Reproduces;
    forall k: nat | k < |xs| ensures Reproduces(xs, k) <==> Extreme(xs, k) {
      LinearAtNode(xs, k);
    }
  }

  // Unordered data can miss a data point: the segment from 0 to 10 hides the node at 5.
  lemma LinearMissesNode()
    ensures var xs, ys := [0.0, 10.0, 5.0], [0.0, 0.0, 1.0];
            Distinct(xs) && LinearFrom(xs, ys, 0, xs[2]) == Success(0.0) && ys[2] == 1.0
  {
    var xs := [0.0, 10.0, 5.0];
    assert Distinct(xs);
    assert Spans(xs, 0, 5.0);
    assert (5.0 - 0.0) / (10.0 - 0.0) * (0.0 - 0.0) == 0.0;
    assert Chord(xs, [0.0, 0.0, 1.0], 0, 5.0) == 0.0;
  }
}
