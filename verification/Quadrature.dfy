/**
  Composite trapezoidal and Simpson rules of numerical_methods_tool.py over exact reals and an
  arbitrary total integrand.
 */
module Quadrature {
  import opened Cubics
  import opened Wrappers

  datatype Error = OddSteps

  function Node(a: real, h: real, i: nat): real {
    a + i as real * h
  }

  function Weight(i: nat): real {
    if i % 2 == 0 then 2.0 else 4.0
  }

  // Weighted interior values, nodes 1 to count.
  function Interior(f: real -> real, a: real, h: real, count: nat): real {
    if count == 0 then 0.0
    else Interior(f, a, h, count - 1) + Prod(Weight(count), f(Node(a, h, count)))
  }

  function Scaled(direction: real, h: real, total: real): real {
    direction * h * total
  }

  function StepWidth(a: real, b: real, steps: nat): real
    requires steps > 0
  {
    (b - a) / steps as real
  }

  function SimpsonRule(f: real -> real, lower: real, upper: real, steps: nat): real
    requires steps > 0
  {
    if lower == upper then 0.0
    else
      var (a, b) := if upper < lower then (upper, lower) else (lower, upper);
      var h := StepWidth(a, b, steps);
      Scaled(if upper < lower then -1.0 else 1.0, h, f(a) + f(b) + Interior(f, a, h, steps - 1)) / 3.0
  }

  method Simpson(f: real -> real, lower: real, upper: real, steps: nat) returns (r: Result<(real, nat), Error>)
    requires steps > 0
    ensures steps % 2 != 0 ==> r == Failure(OddSteps)
    ensures steps % 2 == 0 ==> r == Success((SimpsonRule(f, lower, upper, steps), if lower == upper then 0 else steps))
  {
    if steps % 2 != 0 {
      return Failure(OddSteps);
    }
    var a, b := lower, upper;
    if a == b {
      return Success((0.0, 0));
    }
    var direction := 1.0;
    if b < a {
      a, b := b, a;
      direction := -1.0;
    }
    hide Prod, Scaled, StepWidth, Node;
    var h := StepWidth(a, b, steps);
    var total := f(a) + f(b);
    for index := 1 to steps
      invariant total == f(a) + f(b) + Interior(f, a, h, index - 1)
    {
      var value := f(Node(a, h, index));
      if index % 2 == 0 {
        total := total + Prod(2.0, value);
      } else {
        total := total + Prod(4.0, value);
      }
    }
    return Success((Scaled(direction, h, total) / 3.0, steps));
  }

  // ---------- Simpson is exact on cubics ----------

  lemma NodeStep(a: real, h: real, i: nat)
    ensures Node(a, h, 0) == a && Node(a, h, i + 1) == Node(a, h, i) + h && Node(a, h, i + 2) == Node(a, h, i) + 2.0 * h
  {
  }

  lemma LastNode(a: real, b: real, steps: nat)
    requires steps > 0
    ensures Node(a, StepWidth(a, b, steps), steps) == b
  {
  }

  ghost predicate Covered(h: real, sum: real, last: real, first: real) {
    h * sum == 3.0 * (last - first)
  }

  lemma CoverMore(h: real, sum: real, first: real, s: Sample)
    requires Covered(h, sum, s.p, first) && Balanced(h, s)
    ensures Covered(h, sum + (s.u + 4.0 * s.v + s.w), s.q, first)
  {
  }

  ghost predicate IsCubic(f: real -> real, c: Cubic) {
    forall x :: f(x) == c.At(x)
  }

  lemma {:induction false} PanelsCover(f: real -> real, c: Cubic, a: real, h: real, m: nat)
    requires IsCubic(f, c)
    ensures Covered(h, f(a) + Interior(f, a, h, 2 * m) - f(Node(a, h, 2 * m)),
                    c.Antiderivative(Node(a, h, 2 * m)), c.Antiderivative(a))
  {
    hide Covered, Balanced, Node, Cubic.Antiderivative, Cubic.At;
    if m == 0 {
      NodeStep(a, h, 0);
      NothingCovered(h, c.Antiderivative(a));
    } else {
      var k := 2 * m - 2;
      PanelsCover(f, c, a, h, m - 1);
      NodeStep(a, h, k);
      var x, y, z := Node(a, h, k), Node(a, h, k + 1), Node(a, h, k + 2);
      PanelIsExact(c, x, y, z, h);
      CoverMore(h, f(a) + Interior(f, a, h, k) - f(x), c.Antiderivative(a), PanelOf(c, x, y, z));
    }
  }

  lemma NothingCovered(h: real, x: real)
    ensures Covered(h, 0.0, x, x)
  {
  }

  // For every cubic and every even step count the rule is the integral, whichever way the bounds lie.
  lemma SimpsonIsExactOnCubics(f: real -> real, c: Cubic, lower: real, upper: real, steps: nat)
    requires IsCubic(f, c) && steps > 0 && steps % 2 == 0
    ensures SimpsonRule(f, lower, upper, steps) == c.Antiderivative(upper) - c.Antiderivative(lower)
  {
    hide Covered, Node, Cubic.Antiderivative, Cubic.At, StepWidth, Scaled;
    if lower != upper {
      var (a, b) := if upper < lower then (upper, lower) else (lower, upper);
      var h := StepWidth(a, b, steps);
      PanelsCover(f, c, a, h, steps / 2);
      LastNode(a, b, steps);
      var total := f(a) + f(b) + Interior(f, a, h, steps - 1);
      CoveredRule(h, total, c.Antiderivative(b), c.Antiderivative(a));
    }
  }

  lemma CoveredRule(h: real, total: real, last: real, first: real)
    requires Covered(h, total, last, first)
    ensures Scaled(1.0, h, total) / 3.0 == last - first
    ensures Scaled(-1.0, h, total) / 3.0 == first - last
  {
    assert -1.0 * h * total == -(h * total);
  }

  // Exchanging the bounds changes the sign, for any integrand.
  lemma SimpsonFlips(f: real -> real, lower: real, upper: real, steps: nat)
    requires steps > 0
    ensures SimpsonRule(f, upper, lower, steps) == -SimpsonRule(f, lower, upper, steps)
  {
    hide Scaled, StepWidth, Interior;
    var (a, b) := if upper < lower then (upper, lower) else (lower, upper);
    var h := StepWidth(a, b, steps);
    FlipScaled(h, f(a) + f(b) + Interior(f, a, h, steps - 1));
  }

  lemma FlipScaled(h: real, total: real)
    ensures Scaled(-1.0, h, total) == -Scaled(1.0, h, total)
  {
    assert -1.0 * h * total == -(h * total);
  }

  // ---------- the trapezoidal rule ----------

  function InteriorSum(f: real -> real, a: real, h: real, count: nat): real {
    if count == 0 then 0.0 else InteriorSum(f, a, h, count - 1) + f(Node(a, h, count))
  }

  function TrapezoidalRule(f: real -> real, lower: real, upper: real, steps: nat): real
    requires steps > 0
  {
    if lower == upper then 0.0
    else
      var (a, b) := if upper < lower then (upper, lower) else (lower, upper);
      var h := StepWidth(a, b, steps);
      Scaled(if upper < lower then -1.0 else 1.0, h, 0.5 * (f(a) + f(b)) + InteriorSum(f, a, h, steps - 1))
  }

  method Trapezoidal(f: real -> real, lower: real, upper: real, steps: nat) returns (value: real, used: nat)
    requires steps > 0
    ensures value == TrapezoidalRule(f, lower, upper, steps)
    ensures used == if lower == upper then 0 else steps
  {
    var a, b := lower, upper;
    if a == b {
      return 0.0, 0;
    }
    var direction := 1.0;
    if b < a {
      a, b := b, a;
      direction := -1.0;
    }
    hide Scaled, StepWidth, Node;
    var h := StepWidth(a, b, steps);
    var total := 0.5 * (f(a) + f(b));
    for index := 1 to steps
      invariant total == 0.5 * (f(a) + f(b)) + InteriorSum(f, a, h, index - 1)
    {
      total := total + f(Node(a, h, index));
    }
    return Scaled(direction, h, total), steps;
  }

  lemma TrapezoidalFlips(f: real -> real, lower: real, upper: real, steps: nat)
    requires steps > 0
    ensures TrapezoidalRule(f, upper, lower, steps) == -TrapezoidalRule(f, lower, upper, steps)
  {
    hide Scaled, StepWidth, InteriorSum;
    var (a, b) := if upper < lower then (upper, lower) else (lower, upper);
    var h := StepWidth(a, b, steps);
    FlipScaled(h, 0.5 * (f(a) + f(b)) + InteriorSum(f, a, h, steps - 1));
  }

  lemma {:induction false} PairsOfSteps(f: real -> real, a: real, h: real, m: nat)
    ensures Interior(f, a, h, 2 * m) == 4.0 * InteriorSum(f, a, h, 2 * m) - 2.0 * InteriorSum(f, a, 2.0 * h, m)
  {
    hide Node;
    if m > 0 {
      PairsOfSteps(f, a, h, m - 1);
      SameNode(a, h, m);
    }
  }

  lemma SameNode(a: real, h: real, m: nat)
    ensures Node(a, h, 2 * m) == Node(a, 2.0 * h, m)
  {
  }

  // Simpson's rule is the trapezoidal rule extrapolated, for any integrand.
  lemma SimpsonExtrapolatesTrapezoidal(f: real -> real, lower: real, upper: real, steps: nat)
    requires steps > 0
    ensures 3.0 * SimpsonRule(f, lower, upper, 2 * steps) ==
            4.0 * TrapezoidalRule(f, lower, upper, 2 * steps) - TrapezoidalRule(f, lower, upper, steps)
  {
    if lower != upper {
      hide Scaled, Node, Prod;
      var (a, b) := if upper < lower then (upper, lower) else (lower, upper);
      var h, n := StepWidth(a, b, 2 * steps), 2 * steps;
      HalfWidth(a, b, steps);
      hide StepWidth;
      PairsOfSteps(f, a, h, steps);
      SameNode(a, h, steps);
      var ends, fine, coarse := f(a) + f(b), InteriorSum(f, a, h, n - 1), InteriorSum(f, a, 2.0 * h, steps - 1);
      assert Interior(f, a, h, n - 1) == 4.0 * fine - 2.0 * coarse;
      Extrapolate(if upper < lower then -1.0 else 1.0, h, ends, fine, coarse);
    }
  }

  lemma HalfWidth(a: real, b: real, steps: nat)
    requires steps > 0
    ensures StepWidth(a, b, steps) == 2.0 * StepWidth(a, b, 2 * steps)
  {
    var n := steps as real;
    assert (2 * steps) as real == 2.0 * n;
    assert (b - a) / n == 2.0 * ((b - a) / (2.0 * n));
  }

  lemma Extrapolate(d: real, h: real, ends: real, fine: real, coarse: real)
    ensures Scaled(d, h, ends + (4.0 * fine - 2.0 * coarse)) ==
            4.0 * Scaled(d, h, 0.5 * ends + fine) - Scaled(d, 2.0 * h, 0.5 * ends + coarse)
  {
    var k := d * h;
    assert d * (2.0 * h) == 2.0 * k;
  }

  // The trapezoidal rule is exact on every straight line.
  lemma TrapezoidalIsExactOnLines(f: real -> real, slope: real, intercept: real, lower: real, upper: real, steps: nat)
    requires steps > 0 && IsCubic(f, Cubic(intercept, slope, 0.0, 0.0))
    ensures var c := Cubic(intercept, slope, 0.0, 0.0);
            TrapezoidalRule(f, lower, upper, steps) == c.Antiderivative(upper) - c.Antiderivative(lower)
  {
    var c := Cubic(intercept, slope, 0.0, 0.0);
    if lower != upper {
      var (a, b) := if upper < lower then (upper, lower) else (lower, upper);
      var h := StepWidth(a, b, steps);
      LastNode(a, b, steps);
      LinesCover(f, c, a, h, steps);
      hide Cubic.Antiderivative, Cubic.At, StepWidth, Node, Scaled;
      var total := 0.5 * (f(a) + f(b)) + InteriorSum(f, a, h, steps - 1);
      CoveredOnce(h, total, c.Antiderivative(b), c.Antiderivative(a));
    }
  }

  ghost predicate CoveredBy(h: real, sum: real, last: real, first: real) {
    h * sum == last - first
  }

  lemma CoveredOnce(h: real, total: real, last: real, first: real)
    requires CoveredBy(h, total, last, first)
    ensures Scaled(1.0, h, total) == last - first && Scaled(-1.0, h, total) == first - last
  {
    assert -1.0 * h * total == -(h * total);
  }

  lemma LinePanel(c: Cubic, x: real, h: real)
    requires c.c2 == 0.0 && c.c3 == 0.0
    ensures CoveredBy(h, 0.5 * (c.At(x) + c.At(x + h)), c.Antiderivative(x + h), c.Antiderivative(x))
  {
    var y := x + h;
    LineValue(c, x);
    LineValue(c, y);
    hide Cubic.Antiderivative, Cubic.At;
    assert h * (0.5 * (x + y)) == y * y / 2.0 - x * x / 2.0;
  }

  lemma LineValue(c: Cubic, x: real)
    requires c.c2 == 0.0 && c.c3 == 0.0
    ensures c.At(x) == c.c0 + c.c1 * x
    ensures c.Antiderivative(x) == c.c0 * x + c.c1 * (x * x / 2.0)
  {
  }

  lemma {:induction false} LinesCover(f: real -> real, c: Cubic, a: real, h: real, count: nat)
    requires IsCubic(f, c) && c.c2 == 0.0 && c.c3 == 0.0 && count > 0
    ensures CoveredBy(h, 0.5 * (f(a) + f(Node(a, h, count))) + InteriorSum(f, a, h, count - 1),
                      c.Antiderivative(Node(a, h, count)), c.Antiderivative(a))
  {
    hide CoveredBy, Node, Cubic.Antiderivative, Cubic.At;
    NodeStep(a, h, count - 1);
    LinePanel(c, Node(a, h, count - 1), h);
    if count == 1 {
      NodeStep(a, h, 0);
    } else {
      LinesCover(f, c, a, h, count - 1);
      var x, y := Node(a, h, count - 1), Node(a, h, count);
      CoverOne(h, 0.5 * (f(a) + f(x)) + InteriorSum(f, a, h, count - 2), 0.5 * (f(x) + f(y)),
               c.Antiderivative(y), c.Antiderivative(x), c.Antiderivative(a));
    }
  }

  lemma CoverOne(h: real, sum: real, panel: real, last: real, middle: real, first: real)
    requires CoveredBy(h, sum, middle, first) && CoveredBy(h, panel, last, middle)
    ensures CoveredBy(h, sum + panel, last, first)
  {
  }
}
