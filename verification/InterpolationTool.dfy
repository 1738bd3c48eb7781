/**
  The entry point of interpolation_tool.py: the data checks every operation goes through, and the
  dispatch, with what each operation promises of its answer.
 */
module InterpolationTool {
  import opened Interpolation
  import opened Wrappers
  import Spline

  datatype Operation = LinearOperation | LagrangeOperation | NewtonOperation | SplineOperation

  datatype Rejection = LengthMismatch | TooFewPoints | RepeatedValue | OutOfRange

  function MinimumPoints(op: Operation): nat {
    if op.SplineOperation? then 4 else 2
  }

  ghost predicate InRange(xs: seq<real>, x: real) {
    exists lo, hi :: 0 <= lo < |xs| && 0 <= hi < |xs| && xs[lo] <= x <= xs[hi]
  }

  ghost predicate Prepared(xs: seq<real>, ys: seq<real>, x: real, minimum: nat) {
    |xs| == |ys| && |xs| >= minimum && Distinct(xs) && InRange(xs, x)
  }

  function Values(xs: seq<real>): (values: set<real>)
    ensures forall v :: v in values <==> v in xs
  {
    set v <- xs
  }

  // As many different values as entries means no value twice.
  lemma {:induction false} CountsDistinct(xs: seq<real>)
    ensures |Values(xs)| <= |xs|
    ensures |Values(xs)| == |xs| <==> Distinct(xs)
  {
    if xs != [] {
      var n := |xs| - 1;
      var before := xs[..n];
      CountsDistinct(before);
      assert forall i :: 0 <= i < n ==> before[i] == xs[i];
      assert Values(xs) == Values(before) + {xs[n]};
      assert Distinct(xs) <==> Distinct(before) && xs[n] !in before;
    }
  }

  // _prepare_data, in the order of its checks.
  method PrepareData(xs: seq<real>, ys: seq<real>, x: real, minimum: nat) returns (r: Result<(), Rejection>)
    requires minimum > 0
    ensures r.Success? <==> Prepared(xs, ys, x, minimum)
    ensures r == Failure(LengthMismatch) <==> |xs| != |ys|
    ensures r == Failure(TooFewPoints) <==> |xs| == |ys| && |xs| < minimum
    ensures r == Failure(RepeatedValue) <==> |xs| == |ys| && |xs| >= minimum && !Distinct(xs)
    ensures r == Failure(OutOfRange) <==> |xs| == |ys| && |xs| >= minimum && Distinct(xs) && !InRange(xs, x)
  {
    if |xs| != |ys| {
      return Failure(LengthMismatch);
    }
    if |xs| < minimum {
      return Failure(TooFewPoints);
    }
    CountsDistinct(xs);
    if |Values(xs)| != |xs| {
      return Failure(RepeatedValue);
    }
    var lo, hi := 0, 0;
    for k := 1 to |xs|
      invariant lo < |xs| && hi < |xs|
      invariant forall i :: 0 <= i < k ==> xs[lo] <= xs[i] <= xs[hi]
    {
      if xs[k] < xs[lo] {
        lo := k;
      }
      if xs[k] > xs[hi] {
        hi := k;
      }
    }
    if x < xs[lo] || x > xs[hi] {
      return Failure(OutOfRange);
    }
    return Success(());
  }

  // Every operation answers exactly the prepared requests.  Lagrange and Newton give the same value,
  // and all but the piecewise linear one return a data point's own value at that point.
  method Interpolate(op: Operation, xs: seq<real>, ys: seq<real>, x: real) returns (r: Result<real, Rejection>)
    ensures r.Success? <==> Prepared(xs, ys, x, MinimumPoints(op))
    ensures r.Success? && (op.LagrangeOperation? || op.NewtonOperation?) ==> r.value == LagrangeSum(xs, ys, x, |xs|)
    ensures r.Success? && op.LinearOperation? ==> LinearFrom(xs, ys, 0, x) == Success(r.value)
    ensures r.Success? && op.LinearOperation? ==> forall k :: 0 <= k < |xs| && x == xs[k] && Extreme(xs, k) ==> r.value == ys[k]
    ensures r.Success? && !op.LinearOperation? ==> forall k :: 0 <= k < |xs| && x == xs[k] ==> r.value == ys[k]
  {
    hide LagrangeSum, LinearFrom;
    var prepared := PrepareData(xs, ys, x, MinimumPoints(op));
    if prepared.Failure? {
      return Failure(prepared.error);
    }
    match op {
      case LinearOperation =>
        ghost var lo, hi :| 0 <= lo < |xs| && 0 <= hi < |xs| && xs[lo] <= x <= xs[hi];
        LinearLocates(xs, ys, x, lo, hi);
        var located := Linear(xs, ys, x);
        forall k: nat | k < |xs| && x == xs[k] && Extreme(xs, k) ensures LinearFrom(xs, ys, 0, x) == Success(ys[k]) {
          ExtremeIsHit(xs, ys, k);
        }
        return Success(located.value);
      case LagrangeOperation =>
        var value := Lagrange(xs, ys, x);
        return Success(value);
      case NewtonOperation =>
        var value := NewtonDividedDifference(xs, ys, x);
        return Success(value);
      case SplineOperation =>
        var value := Spline.CubicSpline(xs, ys, x);
        return Success(value);
    }
  }
}
