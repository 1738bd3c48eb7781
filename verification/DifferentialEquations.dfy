/**
  The fixed-step Euler and classical Runge-Kutta solvers of differential_equations_tool.py over
  exact reals, with the shortened last step and the snap to the end time.
 */
module DifferentialEquations {
  import opened Cubics
  import opened Wrappers

  const SNAP := 0.00000000000001
  const MAX_STEPS := 100_000

  datatype Error = BadStep | TooManySteps

  datatype Scheme = Euler | Rk4

  type Derivative = (real, real) -> real

  function Abs(x: real): real {
    if x < 0.0 then -x else x
  }

  function Min(x: real, y: real): real {
    if y < x then y else x
  }

  function Signed(forward: bool, x: real): real {
    if forward then x else -x
  }

  function EulerStep(f: Derivative, t: real, y: real, h: real): real {
    y + h * f(t, y)
  }

  function Halfway(y: real, h: real, slope: real): real {
    y + h * slope / 2.0
  }

  function Along(y: real, h: real, slope: real): real {
    y + h * slope
  }

  function Weighted(y: real, h: real, k1: real, k2: real, k3: real, k4: real): real {
    y + h * (k1 + 2.0 * k2 + 2.0 * k3 + k4) / 6.0
  }

  function Rk4Step(f: Derivative, t: real, y: real, h: real): real {
    var k1 := f(t, y);
    var k2 := f(t + h / 2.0, Halfway(y, h, k1));
    var k3 := f(t + h / 2.0, Halfway(y, h, k2));
    var k4 := f(t + h, Along(y, h, k3));
    Weighted(y, h, k1, k2, k3, k4)
  }

  function Advance(scheme: Scheme, f: Derivative, t: real, y: real, h: real): real {
    match scheme
    case Euler => EulerStep(f, t, y, h)
    case Rk4 => Rk4Step(f, t, y, h)
  }

  // ---------- the steps of a run ----------

  datatype Run = Run(scheme: Scheme, f: Derivative, t0: real, y0: real, tf: real, step: real) {
    function Forward(): bool {
      tf > t0
    }

    function Distance(): real {
      Abs(tf - t0)
    }

    function Covered(k: nat): real {
      k as real * step
    }

    // The time after k steps, before any snap.
    function Time(k: nat): real {
      t0 + Signed(Forward(), Min(Covered(k), Distance()))
    }

    function StepWidth(k: nat): real {
      Signed(Forward(), Min(step, Distance() - Covered(k)))
    }

    // The value after k steps.
    function Value(k: nat): real {
      if k == 0 then y0 else Advance(scheme, f, Time(k - 1), Value(k - 1), StepWidth(k - 1))
    }

    // Nothing, or less than the snap, is left after k steps.
    predicate Done(k: nat) {
      Distance() - Covered(k) < SNAP
    }

    // Still short of the end after k steps, with the clock at t.
    ghost predicate Running(k: nat, t: real) {
      t == Time(k) && Covered(k) < Distance() && forall i :: 0 < i <= k ==> !Done(i)
    }

    // The first step after which the solver stops.
    ghost predicate Ends(steps: nat) {
      steps > 0 && Done(steps) && forall k :: 0 < k < steps ==> !Done(k)
    }
  }

  lemma CoveredStep(r: Run, k: nat)
    ensures r.Covered(0) == 0.0 && r.Covered(k + 1) == r.Covered(k) + r.step
  {
  }

  lemma {:induction false} CoveredGrows(r: Run, i: nat, j: nat)
    requires r.step > 0.0 && i <= j
    ensures r.Covered(i) <= r.Covered(j) && (i < j ==> r.Covered(i) < r.Covered(j))
    decreases j - i
  {
    hide Run.Covered;
    if i < j {
      CoveredGrows(r, i, j - 1);
      CoveredStep(r, j - 1);
    }
  }

  function Ceil(x: real): int {
    -((-x).Floor)
  }

  function ValidateStepCount(t0: real, tf: real, step: real): (r: Result<nat, Error>)
  {
    var distance := Abs(tf - t0);
    if distance == 0.0 then Success(0)
    else if step <= 0.0 then Failure(BadStep)
    else
      var estimate := Ceil(distance / step);
      assert estimate >= 0 by {
        EstimateIsEnough(distance, step);
      }
      if estimate > MAX_STEPS then Failure(TooManySteps) else Success(estimate)
  }

  // The estimate is the least number of steps that covers the distance, if that is allowed.
  lemma ValidatesExactly(t0: real, tf: real, step: real, n: nat)
    ensures var r, distance := ValidateStepCount(t0, tf, step), Abs(tf - t0);
            && (t0 == tf ==> r == Success(0))
            && (t0 != tf && step <= 0.0 ==> r == Failure(BadStep))
            && (t0 != tf && step > 0.0 ==>
                  && (r == Success(n) <==> 0 < n <= 100_000 && (n - 1) as real * step < distance <= n as real * step)
                  && (r == Failure(TooManySteps) <==> distance > 100_000.0 * step))
  {
    if t0 != tf && step > 0.0 {
      var distance := Abs(tf - t0);
      EstimateIsEnough(distance, step);
      EstimateIsLeast(distance, step, n);
      EstimateIsLeast(distance, step, 100_000);
    }
  }

  lemma EstimateIsLeast(distance: real, step: real, n: nat)
    requires distance > 0.0 && step > 0.0
    ensures n as real * step >= distance <==> n >= Ceil(distance / step)
    ensures Ceil(distance / step) == n <==> 0 < n && (n - 1) as real * step < distance <= n as real * step
  {
    CoversExactlyWhen(distance, step, n);
    CoversExactlyWhen(distance, step, n - 1);
    EstimateIsEnough(distance, step);
    hide Ceil;
  }

  lemma CoversExactlyWhen(distance: real, step: real, n: int)
    requires step > 0.0
    ensures n as real * step >= distance <==> n >= Ceil(distance / step)
  {
    var q := distance / step;
    assert q * step == distance;
    Compare(n as real, q, step);
    CeilIsLeast(q, n);
    hide Ceil;
  }

  lemma CeilIsLeast(q: real, n: int)
    ensures n >= Ceil(q) <==> n as real >= q
  {
  }

  lemma Compare(a: real, b: real, step: real)
    requires step > 0.0
    ensures a * step >= b * step <==> a >= b
  {
    assert (a - b) * step == a * step - b * step;
    assert a < b ==> (a - b) * step < 0.0;
    assert a >= b ==> (a - b) * step >= 0.0;
  }

  lemma EstimateIsEnough(distance: real, step: real)
    requires distance > 0.0 && step > 0.0
    ensures Ceil(distance / step) > 0 && Ceil(distance / step) as real * step >= distance
  {
    var q, n := distance / step, Ceil(distance / step) as real;
    assert n >= q;
    assert (n - q) * step == n * step - q * step;
  }

  // A run takes at least one step and no more than the validated estimate.
  lemma StepsAreBounded(r: Run, steps: nat)
    requires r.t0 != r.tf && r.step > 0.0 && r.Ends(steps)
    ensures steps <= Ceil(r.Distance() / r.step)
    ensures ValidateStepCount(r.t0, r.tf, r.step).Success? ==> steps <= ValidateStepCount(r.t0, r.tf, r.step).value
  {
    var n := Ceil(r.Distance() / r.step);
    EstimateIsEnough(r.Distance(), r.step);
    assert r.Done(n);
  }

  lemma EndIsUnique(r: Run, i: nat, j: nat)
    requires r.Ends(i) && r.Ends(j)
    ensures i == j
  {
  }

  // ---------- the solvers ----------

  lemma Start(r: Run)
    requires r.t0 != r.tf
    ensures r.Running(0, r.t0)
  {
    CoveredStep(r, 0);
  }

  // One turn of the loop: the next step's width, and whether the clock snaps to the end.
  lemma Turn(r: Run, k: nat, t: real)
    requires r.step > 0.0 && r.Running(k, t)
    ensures Signed(r.Forward(), r.tf - t) > 0.0
    ensures Signed(r.Forward(), Min(r.step, Abs(r.tf - t))) == r.StepWidth(k)
    ensures if Abs(r.tf - (t + r.StepWidth(k))) < SNAP then r.Ends(k + 1) else r.Running(k + 1, t + r.StepWidth(k))
    ensures k < Ceil(r.Distance() / r.step)
  {
    NotYetEstimated(r, k);
    hide Run.Covered;
    CoveredStep(r, k);
  }

  lemma NotYetEstimated(r: Run, k: nat)
    requires r.step > 0.0 && r.Covered(k) < r.Distance() && r.t0 != r.tf
    ensures k < Ceil(r.Distance() / r.step)
  {
    var n := Ceil(r.Distance() / r.step);
    EstimateIsEnough(r.Distance(), r.step);
    if n <= k {
      CoveredGrows(r, n, k);
    }
  }

  method EulerUpdate(f: Derivative, t: real, y: real, h: real) returns (next: real)
    ensures next == EulerStep(f, t, y, h)
  {
    var derivative := f(t, y);
    next := y + h * derivative;
  }

  method Rk4Update(f: Derivative, t: real, y: real, h: real) returns (next: real)
    ensures next == Rk4Step(f, t, y, h)
  {
    hide Halfway, Along, Weighted;
    var k1 := f(t, y);
    var k2 := f(t + h / 2.0, Halfway(y, h, k1));
    var k3 := f(t + h / 2.0, Halfway(y, h, k2));
    var k4 := f(t + h, Along(y, h, k3));
    next := Weighted(y, h, k1, k2, k3, k4);
  }

  method SolveEuler(f: Derivative, t0: real, y0: real, tf: real, step: real) returns (t: real, y: real, steps: nat)
    requires step > 0.0
    ensures t0 == tf ==> t == t0 && y == y0 && steps == 0
    ensures t0 != tf ==>
              var r := Run(Euler, f, t0, y0, tf, step);
              t == tf && r.Ends(steps) && y == r.Value(steps)
  {
    if t0 == tf {
      return t0, y0, 0;
    }
    ghost var r := Run(Euler, f, t0, y0, tf, step);
    var forward := tf > t0;
    t, y, steps := t0, y0, 0;
    Start(r);
    hide Run.Running, Run.Ends, Run.Distance, Run.StepWidth, Run.Time, EulerStep, Rk4Step;
    while Signed(forward, tf - t) > 0.0
      invariant y == r.Value(steps)
      invariant (t == tf && r.Ends(steps)) || r.Running(steps, t)
      decreases Ceil(r.Distance() / r.step) - steps
    {
      Turn(r, steps, t);
      var h := Signed(forward, Min(step, Abs(tf - t)));
      y := EulerUpdate(f, t, y, h);
      t := t + h;
      if Abs(tf - t) < SNAP {
        t := tf;
      }
      steps := steps + 1;
    }
    if r.Running(steps, t) {
      Turn(r, steps, t);
    }
  }

  method SolveRk4(f: Derivative, t0: real, y0: real, tf: real, step: real) returns (t: real, y: real, steps: nat)
    requires step > 0.0
    ensures t0 == tf ==> t == t0 && y == y0 && steps == 0
    ensures t0 != tf ==>
              var r := Run(Rk4, f, t0, y0, tf, step);
              t == tf && r.Ends(steps) && y == r.Value(steps)
  {
    if t0 == tf {
      return t0, y0, 0;
    }
    ghost var r := Run(Rk4, f, t0, y0, tf, step);
    var forward := tf > t0;
    t, y, steps := t0, y0, 0;
    Start(r);
    hide Run.Running, Run.Ends, Run.Distance, Run.StepWidth, Run.Time, EulerStep, Rk4Step;
    while Signed(forward, tf - t) > 0.0
      invariant y == r.Value(steps)
      invariant (t == tf && r.Ends(steps)) || r.Running(steps, t)
      decreases Ceil(r.Distance() / r.step) - steps
    {
      Turn(r, steps, t);
      var h := Signed(forward, Min(step, Abs(tf - t)));
      y := Rk4Update(f, t, y, h);
      t := t + h;
      if Abs(tf - t) < SNAP {
        t := tf;
      }
      steps := steps + 1;
    }
    if r.Running(steps, t) {
      Turn(r, steps, t);
    }
  }

  // ---------- exactness ----------

  ghost predicate IsQuadrature(f: Derivative, c: Cubic) {
    forall t, y :: f(t, y) == c.At(t)
  }

  // A step of classical Runge-Kutta on a cubic of the time is a Simpson panel of half the width.
  lemma Rk4StepIsExact(f: Derivative, c: Cubic, t: real, y: real, h: real)
    requires IsQuadrature(f, c)
    ensures Rk4Step(f, t, y, h) == y + (c.Antiderivative(t + h) - c.Antiderivative(t))
  {
    hide Cubic.At, Cubic.Antiderivative, Balanced;
    var m, e := t + h / 2.0, t + h;
    assert Spaced(t, m, e, h / 2.0);
    PanelIsExact(c, t, m, e, h / 2.0);
    PanelStep(h, y, PanelOf(c, t, m, e));
  }

  lemma PanelStep(h: real, y: real, s: Sample)
    requires Balanced(h / 2.0, s)
    ensures Weighted(y, h, s.u, s.v, s.v, s.w) == y + (s.q - s.p)
  {
    var sum := s.u + 4.0 * s.v + s.w;
    assert h / 2.0 * sum == h * sum / 2.0;
    assert s.u + 2.0 * s.v + 2.0 * s.v + s.w == sum;
  }

  lemma TimeAdvances(r: Run, k: nat)
    requires r.step > 0.0 && r.Covered(k) <= r.Distance()
    ensures r.Time(0) == r.t0 && r.Time(k + 1) == r.Time(k) + r.StepWidth(k)
  {
    hide Run.Covered;
    CoveredStep(r, k);
  }

  // The value of a Runge-Kutta run is the exact integral up to the time reached.
  lemma {:induction false} Rk4ValueIsExact(r: Run, c: Cubic, k: nat)
    requires r.scheme == Rk4 && IsQuadrature(r.f, c) && r.step > 0.0
    requires k > 0 ==> r.Covered(k - 1) <= r.Distance()
    ensures r.Value(k) == r.y0 + (c.Antiderivative(r.Time(k)) - c.Antiderivative(r.t0))
  {
    hide Run.Covered, Run.Distance, Run.Time, Run.StepWidth, Cubic.At, Cubic.Antiderivative, IsQuadrature, Rk4Step;
    CoveredStep(r, 0);
    TimeAtStart(r);
    if k > 0 {
      CoveredGrows(r, if k == 1 then 0 else k - 2, k - 1);
      Rk4ValueIsExact(r, c, k - 1);
      TimeAdvances(r, k - 1);
      Rk4StepIsExact(r.f, c, r.Time(k - 1), r.Value(k - 1), r.StepWidth(k - 1));
    }
  }

  lemma TimeAtStart(r: Run)
    ensures r.Time(0) == r.t0
  {
    CoveredStep(r, 0);
  }

  // The snap drops a remainder: after some step something is left, but less than the snap.
  ghost predicate SnapDrops(r: Run) {
    exists k: nat :: k > 0 && 0.0 < r.Distance() - r.Covered(k) < SNAP
  }

  lemma ReachesEndExactlyWhen(r: Run, steps: nat)
    requires r.step > 0.0 && r.t0 != r.tf && r.Ends(steps)
    ensures r.Time(steps) == r.tf <==> r.Covered(steps) >= r.Distance()
    ensures r.Time(steps) == r.tf <==> !SnapDrops(r)
    ensures r.Covered(steps - 1) <= r.Distance()
  {
    hide Run.Covered;
    CoveredStep(r, 0);
    assert steps > 1 ==> !r.Done(steps - 1);
    forall k: nat | k > 0 && 0.0 < r.Distance() - r.Covered(k) < SNAP ensures r.Covered(steps) < r.Distance() {
      assert r.Done(k);
      CoveredGrows(r, steps, k);
    }
  }

  // Runge-Kutta on a cubic of the time: the result is the exact integral whenever the snap drops
  // nothing, and otherwise the integral up to the time reached before the snap.
  lemma Rk4IsExactOnCubics(r: Run, c: Cubic, steps: nat)
    requires r.scheme == Rk4 && IsQuadrature(r.f, c) && r.step > 0.0 && r.t0 != r.tf && r.Ends(steps)
    ensures r.Value(steps) == r.y0 + (c.Antiderivative(r.Time(steps)) - c.Antiderivative(r.t0))
    ensures !SnapDrops(r) ==> r.Value(steps) == r.y0 + (c.Antiderivative(r.tf) - c.Antiderivative(r.t0))
  {
    hide Run.Covered, Run.Distance, Run.Value, Run.Time, Cubic.Antiderivative, SnapDrops, IsQuadrature;
    ReachesEndExactlyWhen(r, steps);
    Rk4ValueIsExact(r, c, steps);
  }

  // The run with a cubic of the time for its slope.
  function OnCubic(r: Run, c: Cubic): Run {
    r.(f := (t, y) => c.At(t))
  }

  // Runge-Kutta integrates every cubic of the time exactly if and only if the snap drops nothing.
  lemma Rk4IsExactExactlyWhen(r: Run, steps: nat)
    requires r.scheme == Rk4 && r.step > 0.0 && r.t0 != r.tf && r.Ends(steps)
    ensures (forall c: Cubic :: OnCubic(r, c).Value(steps) == r.y0 + (c.Antiderivative(r.tf) - c.Antiderivative(r.t0)))
       <==> !SnapDrops(r)
  {
    var one := Cubic(1.0, 0.0, 0.0, 0.0);
    ReachesEndExactlyWhen(r, steps);
    forall c: Cubic ensures OnCubic(r, c).Value(steps) == r.y0 + (c.Antiderivative(r.Time(steps)) - c.Antiderivative(r.t0)) {
      OnCubicEnds(r, c, steps);
      Rk4IsExactOnCubics(OnCubic(r, c), c, steps);
    }
    forall t ensures one.Antiderivative(t) == t {
    }
    hide Run.Value, Run.Time, Cubic.Antiderivative, SnapDrops, OnCubic;
    assert OnCubic(r, one).Value(steps) == r.y0 + (r.Time(steps) - r.t0);
  }

  lemma OnCubicEnds(r: Run, c: Cubic, steps: nat)
    requires r.Ends(steps)
    ensures OnCubic(r, c).Ends(steps) && IsQuadrature(OnCubic(r, c).f, c)
    ensures OnCubic(r, c).Time(steps) == r.Time(steps)
  {
    var q := OnCubic(r, c);
    assert forall k: nat :: q.Covered(k) == r.Covered(k) && (q.Done(k) <==> r.Done(k));
  }

  // A remainder below the snap is lost: y' = 1 over 1 + 5e-15 in steps of 1 ends at 1.
  lemma SnapLosesRemainder()
    ensures var tf := 1.000000000000005;
            var r := Run(Rk4, (t: real, y: real) => 1.0, 0.0, 0.0, tf, 1.0);
            r.Ends(1) && SnapDrops(r) && r.Value(1) == 1.0 != tf
  {
    var r := Run(Rk4, (t: real, y: real) => 1.0, 0.0, 0.0, 1.000000000000005, 1.0);
    assert r.Covered(1) == 1.0 && r.Covered(0) == 0.0;
    assert r.Value(0) == 0.0;
  }

  // On y' = rate * y a step multiplies by the exponential series cut after its fourth power.
  function ExponentialToFour(z: real): real {
    1.0 + z * (1.0 + z / 2.0 * (1.0 + z / 3.0 * (1.0 + z / 4.0)))
  }

  lemma Rk4OnExponential(f: Derivative, rate: real, t: real, y: real, h: real)
    requires forall s, v :: f(s, v) == rate * v
    ensures Rk4Step(f, t, y, h) == ExponentialToFour(h * rate) * y
  {
    hide Halfway, Along, Weighted, ExponentialToFour;
    var z := h * rate;
    var k1 := f(t, y);
    var k2 := f(t + h / 2.0, Halfway(y, h, k1));
    var k3 := f(t + h / 2.0, Halfway(y, h, k2));
    var k4 := f(t + h, Along(y, h, k3));
    Scales(y, h, k1, k2, k3, k4);
    FourSlopes(z, y, h * k1, h * k2, h * k3, h * k4, Halfway(y, h, k1), Halfway(y, h, k2), Along(y, h, k3));
  }

  ghost predicate Multiple(a: real, z: real, v: real) {
    a == z * v
  }

  lemma Scales(y: real, h: real, k1: real, k2: real, k3: real, k4: real)
    ensures Halfway(y, h, k1) == y + h * k1 / 2.0 && Halfway(y, h, k2) == y + h * k2 / 2.0
    ensures Along(y, h, k3) == y + h * k3
    ensures Weighted(y, h, k1, k2, k3, k4) == y + (h * k1 + 2.0 * (h * k2) + 2.0 * (h * k3) + h * k4) / 6.0
  {
  }

  lemma FourSlopes(z: real, y: real, a1: real, a2: real, a3: real, a4: real, y2: real, y3: real, y4: real)
    requires y2 == y + a1 / 2.0 && y3 == y + a2 / 2.0 && y4 == y + a3
    requires Multiple(a1, z, y) && Multiple(a2, z, y2) && Multiple(a3, z, y3) && Multiple(a4, z, y4)
    ensures y + (a1 + 2.0 * a2 + 2.0 * a3 + a4) / 6.0 == ExponentialToFour(z) * y
  {
  }

  // Euler on a constant slope reaches the line at the time reached.
  lemma {:induction false} EulerValueOnConstant(r: Run, slope: real, k: nat)
    requires r.scheme == Euler && (forall t, y :: r.f(t, y) == slope) && r.step > 0.0
    requires k > 0 ==> r.Covered(k - 1) <= r.Distance()
    ensures r.Value(k) == r.y0 + slope * (r.Time(k) - r.t0)
  {
    hide Run.Covered, Run.Distance, Run.Time, Run.StepWidth;
    CoveredStep(r, 0);
    TimeAtStart(r);
    if k > 0 {
      CoveredGrows(r, if k == 1 then 0 else k - 2, k - 1);
      EulerValueOnConstant(r, slope, k - 1);
      TimeAdvances(r, k - 1);
    }
  }

  // On y' = rate * y a step of Euler multiplies by the first two terms of the exponential series.
  lemma EulerOnExponential(f: Derivative, rate: real, t: real, y: real, h: real)
    requires forall s, v :: f(s, v) == rate * v
    ensures EulerStep(f, t, y, h) == (1.0 + h * rate) * y
  {
    assert h * (rate * y) == h * rate * y;
  }

  // The sum of the slope at the start of each step times its width.
  function LeftSum(r: Run, g: real -> real, k: nat): real {
    if k == 0 then 0.0 else LeftSum(r, g, k - 1) + g(r.Time(k - 1)) * r.StepWidth(k - 1)
  }

  // Euler on a slope that depends on the time alone is the left sum over its steps.
  lemma {:induction false} EulerIsLeftSum(r: Run, g: real -> real, k: nat)
    requires r.scheme == Euler && forall t, y :: r.f(t, y) == g(t)
    ensures r.Value(k) == r.y0 + LeftSum(r, g, k)
  {
    hide Run.Time, Run.StepWidth;
    if k > 0 {
      EulerIsLeftSum(r, g, k - 1);
    }
  }
}
