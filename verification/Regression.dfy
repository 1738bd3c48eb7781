/**
  Least squares and correlation of regression_tool.py over exact reals: the fitted line is the only
  minimiser of the residual sum of squares, and R squared is the squared correlation.
 */
module Regression {
  import opened Vectors
  import opened Wrappers

  datatype Error = LengthMismatch | TooFewPoints | NoVariance

  datatype Model = Model(slope: real, intercept: real, rSquared: real, fitted: Vector, residuals: Vector)

  // math.fsum over exact reals.
  function Sum(v: Vector): real {
    if v == [] then 0.0 else Sum(v[..|v| - 1]) + v[|v| - 1]
  }

  function Ones(n: nat): (r: Vector)
    ensures |r| == n && forall i :: 0 <= i < n ==> r[i] == 1.0
  {
    seq(n, i requires 0 <= i < n => 1.0)
  }

  function Mean(v: Vector): real
    requires v != []
  {
    Sum(v) / |v| as real
  }

  function Centered(v: Vector): (c: Vector)
    requires v != []
    ensures |c| == |v| && forall i :: 0 <= i < |v| ==> c[i] == v[i] - Mean(v)
  {
    seq(|v|, i requires 0 <= i < |v| => v[i] - Mean(v))
  }

  function OnLine(x: Vector, slope: real, intercept: real): (f: Vector)
    ensures |f| == |x| && forall i :: 0 <= i < |x| ==> f[i] == intercept + slope * x[i]
  {
    seq(|x|, i requires 0 <= i < |x| => intercept + slope * x[i])
  }

  function Residuals(y: Vector, fitted: Vector): (r: Vector)
    requires |y| == |fitted|
    ensures |r| == |y| && forall i :: 0 <= i < |y| ==> r[i] == y[i] - fitted[i]
  {
    seq(|y|, i requires 0 <= i < |y| => y[i] - fitted[i])
  }

  // The residual sum of squares of any line.
  function Misfit(x: Vector, y: Vector, slope: real, intercept: real): real
    requires |x| == |y|
  {
    var r := Residuals(y, OnLine(x, slope, intercept));
    Dot(r, r)
  }

  function Sxx(x: Vector): real
    requires x != []
  {
    Dot(Centered(x), Centered(x))
  }

  function Sxy(x: Vector, y: Vector): real
    requires |x| == |y| > 0
  {
    Dot(Centered(x), Centered(y))
  }

  predicate Prepared(x: Vector, y: Vector) {
    |x| == |y| && |x| >= 2
  }

  function PrepareData(x: Vector, y: Vector): (r: Result<(Vector, Vector), Error>)
    ensures r.Success? <==> Prepared(x, y)
  {
    if |x| != |y| then Failure(LengthMismatch)
    else if |x| < 2 then Failure(TooFewPoints)
    else Success((x, y))
  }

  function Slope(x: Vector, y: Vector): real
    requires Prepared(x, y) && Sxx(x) != 0.0
  {
    Sxy(x, y) / Sxx(x)
  }

  function Intercept(x: Vector, y: Vector): real
    requires Prepared(x, y) && Sxx(x) != 0.0
  {
    Mean(y) - Slope(x, y) * Mean(x)
  }

  function RSquared(total: real, residual: real): real {
    if total == 0.0 then 1.0 else 1.0 - residual / total
  }

  function LinearModel(x: Vector, y: Vector): Result<Model, Error> {
    var data := PrepareData(x, y);
    if data.Failure? then Failure(data.error)
    else if Sxx(x) == 0.0 then Failure(NoVariance)
    else
      var slope, intercept := Slope(x, y), Intercept(x, y);
      var fitted := OnLine(x, slope, intercept);
      var residuals := Residuals(y, fitted);
      Success(Model(slope, intercept, RSquared(Sxx(y), Dot(residuals, residuals)), fitted, residuals))
  }

  // `root` stands for math.sqrt of the product of the two variances.
  ghost predicate IsRoot(root: real, a: real, b: real) {
    root > 0.0 && root * root == a * b
  }

  function Correlation(x: Vector, y: Vector, root: real): Result<real, Error>
    requires Prepared(x, y) && Sxx(x) != 0.0 && Sxx(y) != 0.0 ==> IsRoot(root, Sxx(x), Sxx(y))
  {
    var data := PrepareData(x, y);
    if data.Failure? then Failure(data.error)
    else if Sxx(x) == 0.0 || Sxx(y) == 0.0 then Failure(NoVariance)
    else Success(Sxy(x, y) / root)
  }

  // ---------- sums ----------

  lemma LinearZero(s: real, a: real, f: real, b: real)
    requires LinearAt(s, a, f, b) && (f == 0.0 || b == 0.0)
    ensures s == a
  {
  }

  lemma {:induction false} SumIsDot(v: Vector)
    ensures Sum(v) == Dot(v, Ones(|v|))
  {
    hide AddProduct;
    if v != [] {
      var n := |v| - 1;
      SumIsDot(v[..n]);
      assert Ones(|v|)[..n] == Ones(n);
      AddOne(Dot(v[..n], Ones(n)), v[n]);
    }
  }

  lemma AddOne(total: real, x: real)
    ensures AddProduct(total, x, 1.0) == total + x
  {
  }

  lemma {:induction false} SumOfOnes(n: nat)
    ensures Sum(Ones(n)) == n as real
  {
    if n > 0 {
      SumOfOnes(n - 1);
      assert Ones(n)[..n - 1] == Ones(n - 1);
    }
  }

  lemma {:induction false} SquaresAreNonNegative(v: Vector)
    ensures Dot(v, v) >= 0.0
    ensures Dot(v, v) == 0.0 ==> forall i :: 0 <= i < |v| ==> v[i] == 0.0
  {
    hide AddProduct;
    if v != [] {
      var n := |v| - 1;
      SquaresAreNonNegative(v[..n]);
      AddSquare(Dot(v[..n], v[..n]), v[n]);
      assert Dot(v, v) == 0.0 ==> forall i :: 0 <= i < n ==> v[i] == v[..n][i] == 0.0;
    }
  }

  lemma AddSquare(total: real, x: real)
    ensures AddProduct(total, x, x) >= total
    ensures AddProduct(total, x, x) == total ==> x == 0.0
  {
    SquareIsPositive(x, x * x);
  }

  lemma SquareIsPositive(x: real, s: real)
    requires s == x * x
    ensures s >= 0.0 && (s == 0.0 ==> x == 0.0)
  {
    if x != 0.0 {
      ProductIsPositive(x, x, s);
    }
  }

  lemma ProductIsPositive(a: real, b: real, p: real)
    requires p == a * b && ((a > 0.0 && b > 0.0) || (a < 0.0 && b < 0.0))
    ensures p > 0.0
  {
  }

  // ---------- centring ----------

  lemma CenteredSumsToZero(v: Vector)
    requires v != []
    ensures Dot(Centered(v), Ones(|v|)) == 0.0
  {
    hide Dot, Sum;
    var n := |v|;
    assert Centered(v) == AddScaled(v, -Mean(v), Ones(n));
    DotLinear(v, -Mean(v), Ones(n), Ones(n));
    SumIsDot(v);
    SumIsDot(Ones(n));
    SumOfOnes(n);
  }

  // ---------- the residuals of the fitted line ----------

  ghost predicate Fitted(x: Vector, y: Vector, r: Vector) {
    && Prepared(x, y) && Sxx(x) != 0.0
    && r == Residuals(y, OnLine(x, Slope(x, y), Intercept(x, y)))
  }

  lemma ResidualsAreCentered(x: Vector, y: Vector, r: Vector)
    requires Fitted(x, y, r)
    ensures r == AddScaled(Centered(y), -Slope(x, y), Centered(x))
  {
    hide Slope, Mean, Sxx;
    var s, c := Slope(x, y), AddScaled(Centered(y), -Slope(x, y), Centered(x));
    forall i | 0 <= i < |x| ensures r[i] == c[i] {
      Distributes(y[i], Mean(y), s, x[i], Mean(x));
    }
  }

  lemma Distributes(y: real, my: real, s: real, x: real, mx: real)
    ensures y - ((my - s * mx) + s * x) == (y - my) + -s * (x - mx)
  {
  }

  // Residuals sum to 0 and are orthogonal to the centred and to the given x values.
  lemma ResidualsAreOrthogonal(x: Vector, y: Vector, r: Vector)
    requires Fitted(x, y, r)
    ensures Sum(r) == 0.0 && Dot(r, Ones(|x|)) == 0.0 && Dot(r, Centered(x)) == 0.0 && Dot(r, x) == 0.0
  {
    hide Dot, Sum, LinearAt, Mean, Residuals, OnLine;
    var n, s, cx, cy := |x|, Slope(x, y), Centered(x), Centered(y);
    ResidualsAreCentered(x, y, r);
    DotLinear(cy, -s, cx, Ones(n));
    CenteredSumsToZero(x);
    CenteredSumsToZero(y);
    LinearZero(Dot(r, Ones(n)), Dot(cy, Ones(n)), -s, Dot(cx, Ones(n)));
    SumIsDot(r);
    DotLinear(cy, -s, cx, cx);
    DotCommutes(cy, cx);
    SlopeCancels(Dot(r, cx), Dot(cx, cy), Dot(cx, cx));
    OrthogonalToX(x, r);
  }

  lemma SlopeCancels(d: real, sxy: real, sxx: real)
    requires sxx != 0.0 && LinearAt(d, sxy, -(sxy / sxx), sxx)
    ensures d == 0.0
  {
  }

  lemma OrthogonalToX(x: Vector, r: Vector)
    requires |r| == |x| > 0 && Dot(r, Centered(x)) == 0.0 && Dot(r, Ones(|x|)) == 0.0
    ensures Dot(r, x) == 0.0
  {
    hide Dot, LinearAt, Mean;
    var n, cx := |x|, Centered(x);
    assert x == AddScaled(cx, Mean(x), Ones(n));
    DotLinear(cx, Mean(x), Ones(n), r);
    DotCommutes(x, r);
    DotCommutes(cx, r);
    DotCommutes(Ones(n), r);
    LinearZero(Dot(x, r), Dot(cx, r), Mean(x), Dot(Ones(n), r));
  }

  // ---------- least squares ----------

  // When e - r is orthogonal to r, the squares add up.
  lemma Pythagoras(e: Vector, r: Vector)
    requires |e| == |r| && Dot(e, r) == Dot(r, r)
    ensures var g := AddScaled(e, -1.0, r); Dot(e, e) == Dot(r, r) + Dot(g, g)
  {
    hide Dot;
    var g := AddScaled(e, -1.0, r);
    DotLinear(e, -1.0, r, g);
    DotLinear(e, -1.0, r, e);
    DotLinear(e, -1.0, r, r);
    DotCommutes(g, e);
    DotCommutes(g, r);
    DotCommutes(r, e);
  }

  // Another line's residuals are the fitted ones plus a multiple of x and a constant.
  lemma OtherLine(x: Vector, y: Vector, r: Vector, slope: real, intercept: real)
    requires Fitted(x, y, r)
    ensures var k := Slope(x, y) - slope;
            var d := Shift(x, y, slope, intercept);
            Residuals(y, OnLine(x, slope, intercept)) == AddScaled(AddScaled(r, k, Centered(x)), d, Ones(|x|))
  {
    hide Slope, Intercept, Mean, Sxx, AddScaled;
    var s, k, d := Slope(x, y), Slope(x, y) - slope, Shift(x, y, slope, intercept);
    var e, sum := Residuals(y, OnLine(x, slope, intercept)), AddScaled(AddScaled(r, k, Centered(x)), d, Ones(|x|));
    forall i | 0 <= i < |x| ensures e[i] == sum[i] {
      OtherEntry(y[i], x[i], s, Intercept(x, y), slope, intercept, Mean(x));
    }
  }

  function Shift(x: Vector, y: Vector, slope: real, intercept: real): real
    requires Prepared(x, y) && Sxx(x) != 0.0
  {
    (Slope(x, y) - slope) * Mean(x) + (Intercept(x, y) - intercept)
  }

  lemma OtherEntry(y: real, x: real, s: real, c: real, slope: real, intercept: real, mx: real)
    ensures y - (intercept + slope * x) ==
            (y - (c + s * x)) + (s - slope) * (x - mx) + ((s - slope) * mx + (c - intercept)) * 1.0
  {
    assert (s - slope) * (x - mx) + (s - slope) * mx == (s - slope) * x == s * x - slope * x;
  }

  lemma OtherIsOrthogonal(x: Vector, y: Vector, r: Vector, slope: real, intercept: real)
    requires Fitted(x, y, r)
    ensures var e := Residuals(y, OnLine(x, slope, intercept)); Dot(e, r) == Dot(r, r)
  {
    hide Dot, LinearAt, Sum, Shift, Slope, Residuals, OnLine;
    var n, k, d, cx := |x|, Slope(x, y) - slope, Shift(x, y, slope, intercept), Centered(x);
    OtherLine(x, y, r, slope, intercept);
    ResidualsAreOrthogonal(x, y, r);
    var mid := AddScaled(r, k, cx);
    DotLinear(mid, d, Ones(n), r);
    DotLinear(r, k, cx, r);
    DotCommutes(Ones(n), r);
    DotCommutes(cx, r);
    LinearZero(Dot(mid, r), Dot(r, r), k, Dot(cx, r));
    LinearZero(Dot(AddScaled(mid, d, Ones(n)), r), Dot(mid, r), d, Dot(Ones(n), r));
  }

  // The fitted line minimises the residual sum of squares over all lines, and no other line does.
  lemma LeastSquares(x: Vector, y: Vector, slope: real, intercept: real)
    requires Prepared(x, y) && Sxx(x) != 0.0
    ensures Misfit(x, y, Slope(x, y), Intercept(x, y)) <= Misfit(x, y, slope, intercept)
    ensures Misfit(x, y, Slope(x, y), Intercept(x, y)) == Misfit(x, y, slope, intercept) ==>
              slope == Slope(x, y) && intercept == Intercept(x, y)
  {
    hide Dot, Slope, Intercept, Residuals, OnLine, Sxx;
    var r := Residuals(y, OnLine(x, Slope(x, y), Intercept(x, y)));
    var e := Residuals(y, OnLine(x, slope, intercept));
    OtherIsOrthogonal(x, y, r, slope, intercept);
    Pythagoras(e, r);
    var g := AddScaled(e, -1.0, r);
    SquaresAreNonNegative(g);
    if Dot(g, g) == 0.0 {
      forall i | 0 <= i < |x| ensures e[i] == r[i] {
        assert g[i] == 0.0;
      }
      assert e == r;
      SameResidualsSameLine(x, y, r, slope, intercept);
    }
  }

  lemma SameResidualsSameLine(x: Vector, y: Vector, r: Vector, slope: real, intercept: real)
    requires Fitted(x, y, r) && Residuals(y, OnLine(x, slope, intercept)) == r
    ensures slope == Slope(x, y) && intercept == Intercept(x, y)
  {
    hide Dot, LinearAt, Sum, Shift, Slope, Intercept, Mean, Residuals, OnLine;
    var n, k, d, cx := |x|, Slope(x, y) - slope, Shift(x, y, slope, intercept), Centered(x);
    var mid := AddScaled(r, k, cx);
    OtherLine(x, y, r, slope, intercept);
    assert r == AddScaled(mid, d, Ones(n));
    ResidualsAreOrthogonal(x, y, r);
    CenteredSumsToZero(x);
    DotCommutes(Ones(n), cx);
    DotLinear(mid, d, Ones(n), cx);
    DotLinear(r, k, cx, cx);
    LinearZero(Dot(r, cx), Dot(mid, cx), d, Dot(Ones(n), cx));
    OnlyZero(Dot(mid, cx), k, Dot(cx, cx));
    DotLinear(mid, d, Ones(n), Ones(n));
    DotLinear(r, k, cx, Ones(n));
    LinearZero(Dot(mid, Ones(n)), Dot(r, Ones(n)), k, Dot(cx, Ones(n)));
    SumIsDot(Ones(n));
    SumOfOnes(n);
    OnlyZeroFrom(Dot(r, Ones(n)), Dot(mid, Ones(n)), d, Dot(Ones(n), Ones(n)));
    ShiftIsZero(x, y, slope, intercept);
  }

  lemma OnlyZero(s: real, k: real, square: real)
    requires LinearAt(s, 0.0, k, square) && s == 0.0 && square != 0.0
    ensures k == 0.0
  {
  }

  lemma OnlyZeroFrom(s: real, a: real, k: real, square: real)
    requires LinearAt(s, a, k, square) && s == a && square != 0.0
    ensures k == 0.0
  {
  }

  lemma ShiftIsZero(x: Vector, y: Vector, slope: real, intercept: real)
    requires Prepared(x, y) && Sxx(x) != 0.0 && slope == Slope(x, y)
    ensures Shift(x, y, slope, intercept) == Intercept(x, y) - intercept
  {
    hide Slope, Intercept, Mean, Sxx;
  }

  // ---------- R squared and correlation ----------

  ghost predicate SumsOfSquares(residual: real, total: real, s: real, sxx: real, sxy: real) {
    s * sxx == sxy && residual == total - s * sxy
  }

  lemma ResidualSquares(x: Vector, y: Vector, r: Vector)
    requires Fitted(x, y, r)
    ensures SumsOfSquares(Dot(r, r), Sxx(y), Slope(x, y), Sxx(x), Sxy(x, y))
  {
    hide Dot, LinearAt, Sum, Mean, Residuals, OnLine, SumsOfSquares;
    var s, cx, cy := Slope(x, y), Centered(x), Centered(y);
    ResidualsAreCentered(x, y, r);
    ResidualsAreOrthogonal(x, y, r);
    DotLinear(cy, -s, cx, r);
    DotCommutes(cx, r);
    LinearZero(Dot(r, r), Dot(cy, r), -s, Dot(cx, r));
    DotCommutes(cy, r);
    DotLinear(cy, -s, cx, cy);
    CombineSquares(Dot(r, r), Dot(cy, cy), s, Dot(cx, cx), Dot(cx, cy));
  }

  lemma CombineSquares(residual: real, total: real, s: real, sxx: real, sxy: real)
    requires sxx != 0.0 && s == sxy / sxx && LinearAt(residual, total, -s, sxy)
    ensures SumsOfSquares(residual, total, s, sxx, sxy)
  {
  }

  lemma RSquaredBounds(residual: real, total: real, s: real, sxx: real, sxy: real)
    requires SumsOfSquares(residual, total, s, sxx, sxy) && sxx >= 0.0 && residual >= 0.0 && total >= 0.0
    ensures 0.0 <= RSquared(total, residual) <= 1.0
  {
    assert s * sxy == s * (s * sxx) == (s * s) * sxx;
    assert s * s >= 0.0;
    assert (s * s) * sxx >= 0.0;
    if total > 0.0 {
      Proportion(residual, total);
    }
  }

  lemma Proportion(part: real, total: real)
    requires 0.0 <= part <= total && total > 0.0
    ensures 0.0 <= part / total <= 1.0
  {
    var q := part / total;
    assert q * total == part;
    assert q > 1.0 ==> (q - 1.0) * total > 0.0;
    assert q < 0.0 ==> q * total < 0.0;
  }

  lemma RSquaredIsSquare(residual: real, total: real, s: real, sxx: real, sxy: real, root: real)
    requires SumsOfSquares(residual, total, s, sxx, sxy) && sxx != 0.0 && total != 0.0 && IsRoot(root, sxx, total)
    ensures RSquared(total, residual) == (sxy / root) * (sxy / root)
  {
    var c := sxy / root;
    assert c * root == sxy;
    assert c * c * (sxx * total) == sxy * sxy by {
      assert c * c * (root * root) == (c * root) * (c * root);
    }
    assert s * sxy * sxx == sxy * sxy by {
      assert s * sxy * sxx == sxy * (s * sxx);
    }
    assert sxx * (c * c * total) == sxx * (s * sxy);
    assert residual == total - c * c * total;
    assert residual / total == 1.0 - c * c by {
      assert (1.0 - c * c) * total == total - c * c * total;
      Quotient(residual, total, 1.0 - c * c);
    }
  }

  lemma Quotient(a: real, b: real, q: real)
    requires b != 0.0 && q * b == a
    ensures a / b == q
  {
  }

  lemma ModelEntries(x: Vector, y: Vector)
    requires Prepared(x, y) && Sxx(x) != 0.0
    ensures var m := LinearModel(x, y).value;
            && LinearModel(x, y).Success?
            && Fitted(x, y, m.residuals) && m.slope == Slope(x, y) && m.intercept == Intercept(x, y)
            && m.rSquared == RSquared(Sxx(y), Dot(m.residuals, m.residuals))
            && Dot(m.residuals, m.residuals) == Misfit(x, y, m.slope, m.intercept)
            && |m.fitted| == |m.residuals| == |x| && |x| == |y| && m.fitted == OnLine(x, m.slope, m.intercept)
            && (forall i :: 0 <= i < |x| ==> m.fitted[i] == m.intercept + m.slope * x[i])
            && (forall i :: 0 <= i < |x| ==> m.fitted[i] + m.residuals[i] == y[i])
  {
    hide Dot, Slope, Intercept, Sxx, Sxy, RSquared;
  }

  // What the returned model promises.
  lemma ModelIsLeastSquares(x: Vector, y: Vector, slope: real, intercept: real)
    ensures LinearModel(x, y).Success? <==> Prepared(x, y) && Sxx(x) != 0.0
    ensures LinearModel(x, y).Success? ==>
              var m := LinearModel(x, y).value;
              && |m.fitted| == |m.residuals| == |x|
              && (forall i :: 0 <= i < |x| ==> m.fitted[i] == m.intercept + m.slope * x[i])
              && (forall i :: 0 <= i < |x| ==> m.fitted[i] + m.residuals[i] == y[i])
              && Sum(m.residuals) == 0.0 && Dot(m.residuals, x) == 0.0
              && Dot(m.residuals, m.residuals) == Misfit(x, y, m.slope, m.intercept) <= Misfit(x, y, slope, intercept)
              && 0.0 <= m.rSquared <= 1.0
  {
    if Prepared(x, y) && Sxx(x) != 0.0 {
      ModelEntries(x, y);
      ModelIsBest(x, y, LinearModel(x, y).value.residuals, slope, intercept);
    }
  }

  lemma ModelIsBest(x: Vector, y: Vector, r: Vector, slope: real, intercept: real)
    requires Fitted(x, y, r)
    ensures Sum(r) == 0.0 && Dot(r, x) == 0.0
    ensures Misfit(x, y, Slope(x, y), Intercept(x, y)) <= Misfit(x, y, slope, intercept)
    ensures 0.0 <= RSquared(Sxx(y), Dot(r, r)) <= 1.0
  {
    ResidualsAreOrthogonal(x, y, r);
    hide *;
    LeastSquares(x, y, slope, intercept);
    ResidualSquares(x, y, r);
    SxxIsNonNegative(x);
    SxxIsNonNegative(y);
    SquaresAreNonNegative(r);
    RSquaredBounds(Dot(r, r), Sxx(y), Slope(x, y), Sxx(x), Sxy(x, y));
  }

  lemma SxxIsNonNegative(x: Vector)
    requires x != []
    ensures Sxx(x) >= 0.0
  {
    SquaresAreNonNegative(Centered(x));
  }

  // With variance in both, R squared is the square of the correlation, which lies in [-1, 1].
  lemma RSquaredIsCorrelationSquared(x: Vector, y: Vector, root: real)
    requires Prepared(x, y) && Sxx(x) != 0.0 && Sxx(y) != 0.0 && IsRoot(root, Sxx(x), Sxx(y))
    ensures var c := Correlation(x, y, root);
            c.Success? && LinearModel(x, y).Success? && LinearModel(x, y).value.rSquared == c.value * c.value
            && -1.0 <= c.value <= 1.0
  {
    hide Dot, Slope, Intercept, Sxx, Sxy, SumsOfSquares, RSquared, IsRoot, LinearModel, Fitted;
    ModelEntries(x, y);
    var r := LinearModel(x, y).value.residuals;
    ResidualSquares(x, y, r);
    ModelIsLeastSquares(x, y, 0.0, 0.0);
    RootIsPositive(root, Sxx(x), Sxx(y));
    RSquaredIsSquare(Dot(r, r), Sxx(y), Slope(x, y), Sxx(x), Sxy(x, y), root);
    var c := Sxy(x, y) / root;
    assert c * c <= 1.0;
    if c > 1.0 || c < -1.0 {
      LargeSquare(c);
    }
  }

  // R squared is 1 exactly when the data lie on the fitted line.
  lemma RSquaredIsOneExactlyWhen(x: Vector, y: Vector)
    requires LinearModel(x, y).Success?
    ensures var m := LinearModel(x, y).value; m.rSquared == 1.0 <==> forall i :: 0 <= i < |m.residuals| ==> m.residuals[i] == 0.0
  {
    ModelIsLeastSquares(x, y, 0.0, 0.0);
    hide *;
    ModelEntries(x, y);
    var r := LinearModel(x, y).value.residuals;
    FittedIsPrepared(x, y, r);
    ResidualSquares(x, y, r);
    NormIsZeroExactlyWhen(r);
    SxxIsNonNegative(x);
    OnlyWhenOne(Dot(r, r), Sxx(y), Slope(x, y), Sxx(x), Sxy(x, y));
  }

  lemma FittedIsPrepared(x: Vector, y: Vector, r: Vector)
    requires Fitted(x, y, r)
    ensures Prepared(x, y) && Sxx(x) != 0.0 && x != [] && y != []
  {
  }

  lemma NormIsZeroExactlyWhen(v: Vector)
    ensures Dot(v, v) >= 0.0
    ensures Dot(v, v) == 0.0 <==> forall i :: 0 <= i < |v| ==> v[i] == 0.0
  {
    SquaresAreNonNegative(v);
    hide Dot;
    if forall i :: 0 <= i < |v| ==> v[i] == 0.0 {
      DotZero(v, v);
    }
  }

  lemma OnlyWhenOne(residual: real, total: real, s: real, sxx: real, sxy: real)
    requires SumsOfSquares(residual, total, s, sxx, sxy) && residual >= 0.0 && sxx >= 0.0
    ensures RSquared(total, residual) == 1.0 <==> residual == 0.0
  {
    assert s * sxy == s * (s * sxx) == (s * s) * sxx;
    assert s * s >= 0.0;
    assert (s * s) * sxx >= 0.0;
    if total != 0.0 {
      var q := residual / total;
      assert q * total == residual;
    }
  }

  // The correlation has the sign of the fitted slope, and exchanging x and y keeps it.
  lemma CorrelationFollowsSlope(x: Vector, y: Vector, root: real)
    requires Prepared(x, y) && Sxx(x) != 0.0 && Sxx(y) != 0.0 && IsRoot(root, Sxx(x), Sxx(y))
    ensures var c, slope := Correlation(x, y, root).value, Slope(x, y);
            && (c > 0.0 <==> slope > 0.0)
            && (c < 0.0 <==> slope < 0.0)
            && (c == 0.0 <==> slope == 0.0)
    ensures Correlation(y, x, root) == Correlation(x, y, root)
  {
    SxxIsNonNegative(x);
    DotCommutes(Centered(x), Centered(y));
    SignOfQuotient(Sxy(x, y), root);
    SignOfQuotient(Sxy(x, y), Sxx(x));
    hide Dot, Sxx, Mean;
    assert Sxx(y) * Sxx(x) == Sxx(x) * Sxx(y);
  }

  lemma SignOfQuotient(a: real, b: real)
    requires b > 0.0
    ensures (a / b > 0.0 <==> a > 0.0) && (a / b < 0.0 <==> a < 0.0) && (a / b == 0.0 <==> a == 0.0)
  {
    var q := a / b;
    assert q * b == a;
    assert q > 0.0 ==> q * b > 0.0;
    assert q < 0.0 ==> q * b < 0.0;
  }

  ghost predicate Rises(x: Vector, y: Vector) {
    exists slope, intercept :: slope > 0.0 && y == OnLine(x, slope, intercept)
  }

  ghost predicate Falls(x: Vector, y: Vector) {
    exists slope, intercept :: slope < 0.0 && y == OnLine(x, slope, intercept)
  }

  lemma OnLineExactlyWhen(x: Vector, y: Vector)
    requires Prepared(x, y) && Sxx(x) != 0.0
    ensures var m := LinearModel(x, y).value;
            && LinearModel(x, y).Success?
            && m.slope == Slope(x, y)
            && (Rises(x, y) <==> m.rSquared == 1.0 && m.slope > 0.0)
            && (Falls(x, y) <==> m.rSquared == 1.0 && m.slope < 0.0)
  {
    ModelEntries(x, y);
    hide LinearModel, Dot, Sxx, Slope, Intercept, Fitted, Misfit, RSquared, OnLine;
    if LinearModel(x, y).value.rSquared == 1.0 {
      FitIsLine(x, y);
    }
    forall slope, intercept | y == OnLine(x, slope, intercept)
      ensures LinearModel(x, y).value.slope == slope && LinearModel(x, y).value.rSquared == 1.0
    {
      LineIsFitted(x, y, slope, intercept);
    }
  }

  lemma FitIsLine(x: Vector, y: Vector)
    requires Prepared(x, y) && Sxx(x) != 0.0 && LinearModel(x, y).Success? && LinearModel(x, y).value.rSquared == 1.0
    ensures var m := LinearModel(x, y).value; y == OnLine(x, m.slope, m.intercept)
  {
    hide *;
    ModelEntries(x, y);
    RSquaredIsOneExactlyWhen(x, y);
    var m := LinearModel(x, y).value;
    NothingLeft(y, m.fitted, m.residuals);
  }

  lemma NothingLeft(y: Vector, fitted: Vector, residuals: Vector)
    requires |y| == |fitted| == |residuals| && forall i :: 0 <= i < |y| ==> fitted[i] + residuals[i] == y[i]
    requires forall i :: 0 <= i < |residuals| ==> residuals[i] == 0.0
    ensures y == fitted
  {
  }

  // The correlation is 1 exactly for data on a rising line and -1 exactly for data on a falling one.
  lemma CorrelationOnLine(x: Vector, y: Vector, root: real)
    requires Prepared(x, y) && Sxx(x) != 0.0 && Sxx(y) != 0.0 && IsRoot(root, Sxx(x), Sxx(y))
    ensures var c := Correlation(x, y, root).value; (c == 1.0 <==> Rises(x, y)) && (c == -1.0 <==> Falls(x, y))
  {
    hide *;
    RSquaredIsCorrelationSquared(x, y, root);
    CorrelationFollowsSlope(x, y, root);
    OnLineExactlyWhen(x, y);
    UnitCorrelation(Correlation(x, y, root).value, LinearModel(x, y).value.rSquared);
  }

  lemma UnitCorrelation(c: real, square: real)
    requires square == c * c
    ensures c == 1.0 <==> square == 1.0 && c > 0.0
    ensures c == -1.0 <==> square == 1.0 && c < 0.0
  {
    UnitSquare(c);
  }

  lemma UnitSquare(c: real)
    ensures c * c == 1.0 <==> c == 1.0 || c == -1.0
  {
    assert (c - 1.0) * (c + 1.0) == c * c - 1.0;
  }

  // Data on a line have that line for their fit.
  lemma LineIsFitted(x: Vector, y: Vector, slope: real, intercept: real)
    requires Prepared(x, y) && Sxx(x) != 0.0 && y == OnLine(x, slope, intercept)
    ensures var m := LinearModel(x, y).value;
            && LinearModel(x, y).Success? && slope == m.slope && m.rSquared == 1.0
  {
    RSquaredIsOneExactlyWhen(x, y);
    LeastSquares(x, y, slope, intercept);
    ModelIsLeastSquares(x, y, slope, intercept);
    ModelEntries(x, y);
    var r, none := LinearModel(x, y).value.residuals, Residuals(y, OnLine(x, slope, intercept));
    SquaresAreNonNegative(r);
    SquaresAreNonNegative(none);
    DotZero(none, none);
    hide Dot, LinearModel, Slope, Intercept, Sxx;
  }

  lemma RootIsPositive(root: real, a: real, b: real)
    requires IsRoot(root, a, b)
    ensures root > 0.0
  {
  }

  lemma LargeSquare(c: real)
    requires c > 1.0 || c < -1.0
    ensures c * c > 1.0
  {
    if c < -1.0 {
      assert -c * -c > 1.0;
    }
  }

  // The model exists exactly when two x values differ.
  lemma VarianceExactlyWhen(x: Vector)
    requires x != []
    ensures Sxx(x) == 0.0 <==> forall i, j :: 0 <= i < |x| && 0 <= j < |x| ==> x[i] == x[j]
  {
    hide Dot, Sum, Mean;
    var c := Centered(x);
    SquaresAreNonNegative(c);
    if Sxx(x) == 0.0 {
      assert forall i :: 0 <= i < |x| ==> x[i] == c[i] + Mean(x);
    } else if forall i, j :: 0 <= i < |x| && 0 <= j < |x| ==> x[i] == x[j] {
      CenteredSumsToZero(x);
      var d := c[0];
      assert c == AddScaled(AddScaled(c, -1.0, c), d, Ones(|x|));
      ConstantIsZero(c, d);
      DotZero(c, c);
      assert false;
    }
  }

  lemma ConstantIsZero(c: Vector, d: real)
    requires c != [] && Dot(c, Ones(|c|)) == 0.0 && forall i :: 0 <= i < |c| ==> c[i] == d
    ensures d == 0.0
  {
    hide Dot, LinearAt;
    var n := |c|;
    var zero := AddScaled(c, -1.0, c);
    assert c == AddScaled(zero, d, Ones(n));
    DotLinear(zero, d, Ones(n), Ones(n));
    DotCommutes(zero, Ones(n));
    DotZero(Ones(n), zero);
    SumIsDot(Ones(n));
    SumOfOnes(n);
    OnlyZeroFrom(Dot(c, Ones(n)), Dot(zero, Ones(n)), d, Dot(Ones(n), Ones(n)));
  }
}
