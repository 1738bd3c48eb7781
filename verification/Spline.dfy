/**
  The natural cubic spline of interpolation_tool.py over exact reals.  `Written` is the source's
  sweep, which reads its own row's entries; `Textbook` the one with the previous row's.
 */
module Spline {
  import opened Interpolation

  datatype Sweep = Written | Textbook

  ghost predicate Increasing(xs: seq<real>) {
    forall i, j :: 0 <= i < j < |xs| ==> xs[i] < xs[j]
  }

  // Knots in increasing order with their values, as the source prepares them.
  ghost predicate Knots(xs: seq<real>, ys: seq<real>) {
    |xs| == |ys| && |xs| >= 4 && Increasing(xs)
  }

  // ---------- the tridiagonal system ----------

  function H(xs: seq<real>, i: nat): real
    requires i + 1 < |xs|
  {
    xs[i + 1] - xs[i]
  }

  predicate Inner(xs: seq<real>, i: nat) {
    1 <= i && i + 1 < |xs|
  }

  function Lower(xs: seq<real>, i: nat): real
    requires i < |xs|
  {
    if Inner(xs, i) then H(xs, i - 1) else 0.0
  }

  function Diagonal(xs: seq<real>, i: nat): real
    requires i < |xs|
  {
    if Inner(xs, i) then 2.0 * (xs[i + 1] - xs[i - 1]) else 1.0
  }

  function Upper(xs: seq<real>, i: nat): real
    requires i < |xs|
  {
    if Inner(xs, i) then H(xs, i) else 0.0
  }

  function Alpha(xs: seq<real>, ys: seq<real>, i: nat): real
    requires Knots(xs, ys) && i < |xs|
  {
    if Inner(xs, i) then
      assert H(xs, i) > 0.0 && H(xs, i - 1) > 0.0;
      3.0 / H(xs, i) * (ys[i + 1] - ys[i]) - 3.0 / H(xs, i - 1) * (ys[i] - ys[i - 1])
    else 0.0
  }

  lemma Coefficients(xs: seq<real>, ys: seq<real>, i: nat)
    requires Knots(xs, ys) && i < |xs|
    ensures Diagonal(xs, i) > 0.0 && Upper(xs, i) >= 0.0 && Lower(xs, i) >= 0.0
    ensures Inner(xs, i) ==> Lower(xs, i) > 0.0 && Upper(xs, i) > 0.0
    ensures Inner(xs, i) ==> Diagonal(xs, i) == 2.0 * (Lower(xs, i) + Upper(xs, i))
    ensures Inner(xs, i) && i >= 2 ==> Lower(xs, i) == Upper(xs, i - 1)
  {
  }

  // l * before + d * here + u * after == rhs
  ghost predicate RowHolds(l: real, d: real, u: real, rhs: real, before: real, here: real, after: real) {
    l * before + d * here + u * after == rhs
  }

  function At(c: seq<real>, i: int): real {
    if 0 <= i < |c| then c[i] else 0.0
  }

  // Row i of the system whose solution makes first derivatives agree at knot i.
  ghost predicate Row(xs: seq<real>, ys: seq<real>, c: seq<real>, i: nat)
    requires Knots(xs, ys) && i < |xs|
  {
    RowHolds(Lower(xs, i), Diagonal(xs, i), Upper(xs, i), Alpha(xs, ys, i), At(c, i - 1), At(c, i), At(c, i + 1))
  }

  ghost predicate Solves(xs: seq<real>, ys: seq<real>, c: seq<real>)
    requires Knots(xs, ys)
  {
    |c| == |xs| && forall i: nat :: i < |xs| ==> Row(xs, ys, c, i)
  }

  // ---------- the sweeps ----------

  // One elimination step on the diagonal: d - (l / divisor) * u.
  function Eliminate(d: real, l: real, divisor: real, u: real): real
    requires divisor != 0.0
  {
    d - l / divisor * u
  }

  lemma ProperFraction(l: real, d: real)
    requires 0.0 < l < d
    ensures 0.0 < l / d < 1.0 && l / d * d == l
  {
    ProperFactor(l / d, l, d);
  }

  lemma ProperFactor(f: real, l: real, d: real)
    requires 0.0 < l < d && f * d == l
    ensures 0.0 < f < 1.0
  {
    assert (1.0 - f) * d == d - f * d;
    if f <= 0.0 {
      NonPositiveProduct(f, d);
    }
    if f >= 1.0 {
      NonPositiveProduct(1.0 - f, d);
    }
  }

  lemma NonPositiveProduct(f: real, d: real)
    requires f <= 0.0 && d > 0.0
    ensures f * d <= 0.0
  {
  }

  lemma Shrinks(f: real, u: real)
    requires f < 1.0 && u > 0.0
    ensures f * u < u
  {
    assert (1.0 - f) * u > 0.0;
    assert (1.0 - f) * u == u - f * u;
  }

  lemma WrittenStepPositive(l: real, u: real, d: real)
    requires l > 0.0 && u > 0.0 && d == 2.0 * (l + u)
    ensures Eliminate(d, l, d, u) > 0.0
  {
    ProperFraction(l, d);
    Shrinks(l / d, u);
  }

  lemma TextbookStepPositive(l: real, u: real, d: real, previous: real)
    requires l > 0.0 && u > 0.0 && d == 2.0 * (l + u) && previous > l
    ensures Eliminate(d, l, previous, l) > u
  {
    ProperFraction(l, previous);
    Shrinks(l / previous, l);
  }

  // Neither sweep can divide by zero.
  lemma WrittenPositive(xs: seq<real>, ys: seq<real>, i: nat)
    requires Knots(xs, ys) && i < |xs|
    ensures Diagonal(xs, i) > 0.0
    ensures Eliminate(Diagonal(xs, i), Lower(xs, i), Diagonal(xs, i), Upper(xs, i)) > 0.0
  {
    Coefficients(xs, ys, i);
    hide Eliminate, Lower, Diagonal, Knots, Upper;
    if Inner(xs, i) {
      WrittenStepPositive(Lower(xs, i), Upper(xs, i), Diagonal(xs, i));
    } else {
      EndRow(xs, i);
      EliminateZero(Diagonal(xs, i), Diagonal(xs, i), Upper(xs, i));
    }
  }

  lemma TextbookPositive(xs: seq<real>, ys: seq<real>, i: nat, previous: real)
    requires Knots(xs, ys) && 0 < i < |xs| && previous > 0.0 && previous > Upper(xs, i - 1)
    ensures Upper(xs, i) >= 0.0
    ensures Eliminate(Diagonal(xs, i), Lower(xs, i), previous, Upper(xs, i - 1)) > Upper(xs, i)
  {
    Coefficients(xs, ys, i);
    hide Eliminate, Lower, Diagonal, Knots, Upper;
    if !Inner(xs, i) {
      EndRow(xs, i);
      EliminateZero(Diagonal(xs, i), previous, Upper(xs, i - 1));
    } else if i == 1 {
      EndRow(xs, 0);
      EliminateZero(Diagonal(xs, i), previous, Lower(xs, i));
    } else {
      TextbookStepPositive(Lower(xs, i), Upper(xs, i), Diagonal(xs, i), previous);
    }
  }

  lemma EliminateZero(d: real, divisor: real, v: real)
    requires divisor != 0.0
    ensures Eliminate(d, 0.0, divisor, v) == d && Eliminate(d, v, divisor, 0.0) == d
  {
    assert 0.0 / divisor == 0.0;
  }

  lemma EndRow(xs: seq<real>, i: nat)
    requires i < |xs| && !Inner(xs, i)
    ensures Lower(xs, i) == 0.0 && Diagonal(xs, i) == 1.0 && Upper(xs, i) == 0.0
  {
  }

  // The diagonal after elimination.
  function Pivot(sweep: Sweep, xs: seq<real>, ys: seq<real>, i: nat): (p: real)
    requires Knots(xs, ys) && i < |xs|
    ensures p > 0.0
    ensures sweep.Textbook? ==> p > Upper(xs, i)
  {
    if i == 0 then
      EndRow(xs, 0);
      Diagonal(xs, 0)
    else
      match sweep
      case Written =>
        WrittenPositive(xs, ys, i);
        Eliminate(Diagonal(xs, i), Lower(xs, i), Diagonal(xs, i), Upper(xs, i))
      case Textbook =>
        var previous := Pivot(sweep, xs, ys, i - 1);
        TextbookPositive(xs, ys, i, previous);
        Eliminate(Diagonal(xs, i), Lower(xs, i), previous, Upper(xs, i - 1))
  }

  function Divisor(sweep: Sweep, xs: seq<real>, ys: seq<real>, i: nat): (d: real)
    requires Knots(xs, ys) && 0 < i < |xs|
    ensures d > 0.0
  {
    Coefficients(xs, ys, i);
    match sweep
    case Written => Diagonal(xs, i)
    case Textbook => Pivot(sweep, xs, ys, i - 1)
  }

  // The right-hand side after elimination.
  function Rhs(sweep: Sweep, xs: seq<real>, ys: seq<real>, i: nat): real
    requires Knots(xs, ys) && i < |xs|
  {
    if i == 0 then 0.0
    else Eliminate(Alpha(xs, ys, i), Lower(xs, i), Divisor(sweep, xs, ys, i), Rhs(sweep, xs, ys, i - 1))
  }

  // Back substitution.
  function Moment(sweep: Sweep, xs: seq<real>, ys: seq<real>, i: nat): real
    requires Knots(xs, ys) && i < |xs|
    decreases |xs| - i
  {
    if i == |xs| - 1 then Rhs(sweep, xs, ys, i) / Pivot(sweep, xs, ys, i)
    else Substitute(Rhs(sweep, xs, ys, i), Upper(xs, i), Moment(sweep, xs, ys, i + 1), Pivot(sweep, xs, ys, i))
  }

  // One step of back substitution.
  function Substitute(r: real, u: real, after: real, p: real): real
    requires p != 0.0
  {
    (r - u * after) / p
  }

  function Moments(sweep: Sweep, xs: seq<real>, ys: seq<real>): (c: seq<real>)
    requires Knots(xs, ys)
    ensures |c| == |xs| && forall i: nat :: i < |xs| ==> c[i] == Moment(sweep, xs, ys, i)
  {
    seq(|xs|, i requires 0 <= i < |xs| => Moment(sweep, xs, ys, i))
  }

  // The eliminated row i: p * here + u * after == r.
  ghost predicate Eliminated(p: real, u: real, r: real, here: real, after: real) {
    p * here + u * after == r
  }

  ghost predicate EliminatedRow(sweep: Sweep, xs: seq<real>, ys: seq<real>, c: seq<real>, i: nat)
    requires Knots(xs, ys) && i < |xs|
  {
    Eliminated(Pivot(sweep, xs, ys, i), Upper(xs, i), Rhs(sweep, xs, ys, i), At(c, i), At(c, i + 1))
  }

  lemma SolveRow(p: real, u: real, r: real, here: real, after: real)
    requires p > 0.0
    ensures Eliminated(p, u, r, here, after) <==> here == Substitute(r, u, after, p)
    ensures Substitute(r, 0.0, after, p) == r / p
  {
    assert 0.0 * after == 0.0;
    var q := (r - u * after) / p;
    assert q * p == r - u * after;
    if p * here == r - u * after {
      assert p * (here - q) == 0.0;
    }
  }

  // The moments of a sweep are the one solution of its eliminated rows.
  lemma MomentsAreEliminated(sweep: Sweep, xs: seq<real>, ys: seq<real>, i: nat)
    requires Knots(xs, ys) && i < |xs|
    ensures EliminatedRow(sweep, xs, ys, Moments(sweep, xs, ys), i)
  {
    hide Knots, Rhs, Pivot, Eliminated, Substitute;
    var c := Moments(sweep, xs, ys);
    if i == |xs| - 1 {
      EndRow(xs, i);
    }
    SolveRow(Pivot(sweep, xs, ys, i), Upper(xs, i), Rhs(sweep, xs, ys, i), At(c, i), At(c, i + 1));
  }

  lemma {:induction false} EliminatedIsUnique(sweep: Sweep, xs: seq<real>, ys: seq<real>, c: seq<real>, i: nat)
    requires Knots(xs, ys) && |c| == |xs| && i < |xs|
    requires forall k: nat :: k < |xs| ==> EliminatedRow(sweep, xs, ys, c, k)
    ensures c[i] == Moment(sweep, xs, ys, i)
    decreases |xs| - i
  {
    hide Knots, Rhs, Pivot, Eliminated, Substitute;
    assert EliminatedRow(sweep, xs, ys, c, i);
    SolveRow(Pivot(sweep, xs, ys, i), Upper(xs, i), Rhs(sweep, xs, ys, i), c[i], At(c, i + 1));
    if i == |xs| - 1 {
      EndRow(xs, i);
    } else {
      EliminatedIsUnique(sweep, xs, ys, c, i + 1);
    }
  }

  // ---------- what each sweep solves ----------

  // One textbook elimination keeps the solutions of the row, given the row above.
  lemma TextbookStep(l: real, d: real, u: real, alpha: real, p: real, v: real, r: real, before: real, here: real, after: real)
    requires p > 0.0 && Eliminated(p, v, r, before, here)
    ensures RowHolds(l, d, u, alpha, before, here, after)
       <==> Eliminated(Eliminate(d, l, p, v), u, Eliminate(alpha, l, p, r), here, after)
  {
    var f := l / p;
    assert f * p == l;
    assert l * before == f * (p * before);
    assert f * (p * before) == f * r - f * (v * here);
    assert f * v * here == f * (v * here);
  }

  lemma {:induction false} TextbookRows(xs: seq<real>, ys: seq<real>, c: seq<real>, i: nat)
    requires Knots(xs, ys) && |c| == |xs| && i < |xs|
    ensures (forall k: nat :: k <= i ==> Row(xs, ys, c, k))
       <==> (forall k: nat :: k <= i ==> EliminatedRow(Textbook, xs, ys, c, k))
  {
    hide Knots, Row, EliminatedRow;
    if i == 0 {
      FirstRow(Textbook, xs, ys, c);
    } else {
      TextbookRows(xs, ys, c, i - 1);
      if EliminatedRow(Textbook, xs, ys, c, i - 1) {
        TextbookRow(xs, ys, c, i);
      }
    }
  }

  lemma TextbookRow(xs: seq<real>, ys: seq<real>, c: seq<real>, i: nat)
    requires Knots(xs, ys) && |c| == |xs| && 0 < i < |xs| && EliminatedRow(Textbook, xs, ys, c, i - 1)
    ensures Row(xs, ys, c, i) <==> EliminatedRow(Textbook, xs, ys, c, i)
  {
    hide Knots, Eliminated, RowHolds, Eliminate;
    TextbookStep(Lower(xs, i), Diagonal(xs, i), Upper(xs, i), Alpha(xs, ys, i),
                 Pivot(Textbook, xs, ys, i - 1), Upper(xs, i - 1), Rhs(Textbook, xs, ys, i - 1),
                 At(c, i - 1), At(c, i), At(c, i + 1));
  }

  lemma FirstRow(sweep: Sweep, xs: seq<real>, ys: seq<real>, c: seq<real>)
    requires Knots(xs, ys) && |c| == |xs|
    ensures Row(xs, ys, c, 0) <==> c[0] == 0.0
    ensures EliminatedRow(sweep, xs, ys, c, 0) <==> c[0] == 0.0
  {
    EndRow(xs, 0);
    hide RowHolds, Eliminated, Lower, Diagonal, Upper, Knots;
    assert Alpha(xs, ys, 0) == 0.0 && Pivot(sweep, xs, ys, 0) == 1.0 && Rhs(sweep, xs, ys, 0) == 0.0;
    UnitRow(At(c, -1), At(c, 0), At(c, 1));
    assert Row(xs, ys, c, 0) == RowHolds(0.0, 1.0, 0.0, 0.0, At(c, -1), At(c, 0), At(c, 1));
    assert EliminatedRow(sweep, xs, ys, c, 0) == Eliminated(1.0, 0.0, 0.0, At(c, 0), At(c, 1));
  }

  lemma UnitRow(before: real, here: real, after: real)
    ensures RowHolds(0.0, 1.0, 0.0, 0.0, before, here, after) <==> here == 0.0
    ensures Eliminated(1.0, 0.0, 0.0, here, after) <==> here == 0.0
  {
  }

  // The textbook sweep solves the whole system.
  lemma TextbookSolves(xs: seq<real>, ys: seq<real>)
    requires Knots(xs, ys)
    ensures Solves(xs, ys, Moments(Textbook, xs, ys))
  {
    hide Knots, Row, EliminatedRow, Moment;
    var c := Moments(Textbook, xs, ys);
    forall i: nat | i < |xs| ensures Row(xs, ys, c, i) {
      forall k: nat | k <= i ensures EliminatedRow(Textbook, xs, ys, c, k) {
        MomentsAreEliminated(Textbook, xs, ys, k);
      }
      TextbookRows(xs, ys, c, i);
    }
  }

  // The system has no other solution.
  lemma SolutionIsUnique(xs: seq<real>, ys: seq<real>, c: seq<real>)
    requires Knots(xs, ys) && Solves(xs, ys, c)
    ensures c == Moments(Textbook, xs, ys)
  {
    hide Knots, Row, EliminatedRow, Moment;
    forall k: nat | k < |xs| ensures EliminatedRow(Textbook, xs, ys, c, k) {
      TextbookRows(xs, ys, c, k);
    }
    forall i: nat | i < |xs| ensures c[i] == Moment(Textbook, xs, ys, i) {
      EliminatedIsUnique(Textbook, xs, ys, c, i);
    }
  }

  // ---------- exactly when the sweep as written solves the system ----------

  // What the wrong indices leave out at row i: zero when d, v and here happen to fit p and u.
  ghost predicate Fits(d: real, p: real, u: real, v: real, before: real, here: real) {
    (d - p) * before + (u - v) * here == 0.0
  }

  // Row i of the natural spline's own moments fits the row the source reads.
  ghost predicate Harmless(xs: seq<real>, ys: seq<real>, c: seq<real>, i: nat)
    requires Knots(xs, ys) && Inner(xs, i)
  {
    Fits(Diagonal(xs, i), Pivot(Written, xs, ys, i - 1), Upper(xs, i), Upper(xs, i - 1), At(c, i - 1), At(c, i))
  }

  // With row i - 1 eliminated, the eliminated row i of the source is the true row i exactly when
  // the entries it should have read fit.
  lemma WrittenStep(l: real, d: real, u: real, alpha: real, p: real, v: real, r: real, before: real, here: real, after: real)
    requires l > 0.0 && d > 0.0
    requires Eliminated(p, v, r, before, here)
    requires Eliminated(Eliminate(d, l, d, u), u, Eliminate(alpha, l, d, r), here, after)
    ensures RowHolds(l, d, u, alpha, before, here, after) <==> Fits(d, p, u, v, before, here)
  {
    var f := l / d;
    assert f * d == l && f > 0.0;
    Residual(f, l, d, u, alpha, p, v, r, before, here, after);
    var gap := (d - p) * before + (u - v) * here;
    if f * gap == 0.0 {
      assert gap == 0.0;
    }
  }

  // The true row's residual is f times the misfit.
  lemma Residual(f: real, l: real, d: real, u: real, alpha: real, p: real, v: real, r: real, before: real, here: real, after: real)
    requires f * d == l
    requires p * before + v * here == r
    requires (d - f * u) * here + u * after == alpha - f * r
    ensures l * before + d * here + u * after - alpha == f * ((d - p) * before + (u - v) * here)
  {
    assert l * before == f * (d * before);
    assert f * r == f * (p * before) + f * (v * here);
    assert (d - f * u) * here == d * here - f * (u * here);
    assert f * ((d - p) * before + (u - v) * here)
        == f * (d * before) - f * (p * before) + f * (u * here) - f * (v * here);
  }

  // Conversely, a true row that fits is eliminated to the source's row.
  lemma WrittenStepBack(l: real, d: real, u: real, alpha: real, p: real, v: real, r: real, before: real, here: real, after: real)
    requires d > 0.0 && Eliminated(p, v, r, before, here)
    requires RowHolds(l, d, u, alpha, before, here, after) && Fits(d, p, u, v, before, here)
    ensures Eliminated(Eliminate(d, l, d, u), u, Eliminate(alpha, l, d, r), here, after)
  {
    var f := l / d;
    assert f * d == l;
    ResidualBack(f, l, d, u, alpha, p, v, r, before, here, after);
  }

  lemma ResidualBack(f: real, l: real, d: real, u: real, alpha: real, p: real, v: real, r: real, before: real, here: real, after: real)
    requires f * d == l
    requires p * before + v * here == r
    requires l * before + d * here + u * after == alpha
    requires (d - p) * before + (u - v) * here == 0.0
    ensures (d - f * u) * here + u * after == alpha - f * r
  {
    assert l * before == f * (d * before);
    assert f * r == f * (p * before) + f * (v * here);
    assert (d - f * u) * here == d * here - f * (u * here);
    assert f * ((d - p) * before + (u - v) * here)
        == f * (d * before) - f * (p * before) + f * (u * here) - f * (v * here);
  }

  // Row by row: the source's own moments satisfy row i exactly when the misfit there is zero.
  lemma WrittenRow(xs: seq<real>, ys: seq<real>, i: nat)
    requires Knots(xs, ys) && Inner(xs, i)
    ensures var c := Moments(Written, xs, ys); Row(xs, ys, c, i) <==> Harmless(xs, ys, c, i)
  {
    var c := Moments(Written, xs, ys);
    Coefficients(xs, ys, i);
    MomentsAreEliminated(Written, xs, ys, i - 1);
    MomentsAreEliminated(Written, xs, ys, i);
    hide Moment, Knots, Eliminated, RowHolds, Fits, Eliminate;
    WrittenStep(Lower(xs, i), Diagonal(xs, i), Upper(xs, i), Alpha(xs, ys, i),
                Pivot(Written, xs, ys, i - 1), Upper(xs, i - 1), Rhs(Written, xs, ys, i - 1),
                At(c, i - 1), At(c, i), At(c, i + 1));
  }

  lemma EndMoments(sweep: Sweep, xs: seq<real>, ys: seq<real>)
    requires Knots(xs, ys)
    ensures Moment(sweep, xs, ys, 0) == 0.0 && Moment(sweep, xs, ys, |xs| - 1) == 0.0
  {
    var c, n := Moments(sweep, xs, ys), |xs|;
    MomentsAreEliminated(sweep, xs, ys, 0);
    FirstRow(sweep, xs, ys, c);
    LastRhs(sweep, xs, ys);
    assert 0.0 / Pivot(sweep, xs, ys, n - 1) == 0.0;
  }

  lemma LastRhs(sweep: Sweep, xs: seq<real>, ys: seq<real>)
    requires Knots(xs, ys)
    ensures Rhs(sweep, xs, ys, |xs| - 1) == 0.0
  {
    var i := |xs| - 1;
    EndRow(xs, i);
    hide Knots, Eliminate;
    EliminateZero(Alpha(xs, ys, i), Divisor(sweep, xs, ys, i), Rhs(sweep, xs, ys, i - 1));
  }

  lemma EndRowsHold(sweep: Sweep, xs: seq<real>, ys: seq<real>, i: nat)
    requires Knots(xs, ys) && i < |xs| && !Inner(xs, i)
    ensures Row(xs, ys, Moments(sweep, xs, ys), i)
  {
    EndMoments(sweep, xs, ys);
    EndRow(xs, i);
    var c := Moments(sweep, xs, ys);
    hide RowHolds, Moment, Knots;
    UnitRow(At(c, i - 1), At(c, i), At(c, i + 1));
  }

  lemma {:induction false} HarmlessRows(xs: seq<real>, ys: seq<real>, c: seq<real>, i: nat)
    requires Knots(xs, ys) && Solves(xs, ys, c) && i < |xs|
    requires forall k: nat :: Inner(xs, k) ==> Harmless(xs, ys, c, k)
    ensures EliminatedRow(Written, xs, ys, c, i)
  {
    hide Knots, Eliminated, RowHolds, Fits, Eliminate;
    assert Row(xs, ys, c, i);
    if i == 0 {
      FirstRow(Written, xs, ys, c);
    } else if Inner(xs, i) {
      HarmlessRows(xs, ys, c, i - 1);
      assert Harmless(xs, ys, c, i);
      Coefficients(xs, ys, i);
      WrittenStepBack(Lower(xs, i), Diagonal(xs, i), Upper(xs, i), Alpha(xs, ys, i),
                      Pivot(Written, xs, ys, i - 1), Upper(xs, i - 1), Rhs(Written, xs, ys, i - 1),
                      At(c, i - 1), At(c, i), At(c, i + 1));
    } else {
      EndRow(xs, i);
      LastRhs(Written, xs, ys);
      WrittenPositive(xs, ys, i);
      EliminateZero(1.0, 1.0, 0.0);
      UnitRow(At(c, i - 1), At(c, i), At(c, i + 1));
    }
  }

  // The sweep as written yields the natural spline exactly when the natural spline's own moments,
  // which depend on the data alone, are harmless at every inner knot.
  lemma WrittenSolvesExactlyWhen(xs: seq<real>, ys: seq<real>)
    requires Knots(xs, ys)
    ensures Solves(xs, ys, Moments(Written, xs, ys))
       <==> forall i: nat :: Inner(xs, i) ==> Harmless(xs, ys, Moments(Textbook, xs, ys), i)
  {
    hide Knots, Row, Harmless, EliminatedRow, Moment;
    var w, c := Moments(Written, xs, ys), Moments(Textbook, xs, ys);
    TextbookSolves(xs, ys);
    if Solves(xs, ys, w) {
      SolutionIsUnique(xs, ys, w);
      forall i: nat | Inner(xs, i) ensures Harmless(xs, ys, c, i) {
        WrittenRow(xs, ys, i);
      }
    }
    if forall i: nat :: Inner(xs, i) ==> Harmless(xs, ys, c, i) {
      forall k: nat | k < |xs| ensures EliminatedRow(Written, xs, ys, c, k) {
        HarmlessRows(xs, ys, c, k);
      }
      forall i: nat | i < |xs| ensures c[i] == w[i] {
        EliminatedIsUnique(Written, xs, ys, c, i);
      }
      assert c == w;
    }
  }

  // ---------- the pieces ----------

  datatype Piece = Piece(y: real, b: real, c: real, d: real) {
    function Value(dx: real): real {
      y + b * dx + c * (dx * dx) + d * (dx * dx * dx)
    }

    // First and second derivative of Value.
    function Slope(dx: real): real {
      b + 2.0 * c * dx + 3.0 * d * (dx * dx)
    }

    function Curvature(dx: real): real {
      2.0 * c + 6.0 * d * dx
    }
  }

  // Slope and curvature are the derivatives of the value: the terms of its expansion around x.
  lemma PieceExpands(p: Piece, x: real, e: real)
    ensures p.Value(x + e) == p.Value(x) + p.Slope(x) * e + p.Curvature(x) / 2.0 * (e * e) + p.d * (e * e * e)
  {
    var y := x + e;
    assert y * y == x * x + 2.0 * (x * e) + e * e;
    assert y * y * y == x * x * x + 3.0 * (x * x * e) + 3.0 * (x * (e * e)) + e * e * e by {
      assert y * y * y == (x * x + 2.0 * (x * e) + e * e) * y;
    }
    assert p.Slope(x) * e == p.b * e + 2.0 * (p.c * (x * e)) + 3.0 * (p.d * (x * x * e));
    assert p.Curvature(x) / 2.0 * (e * e) == p.c * (e * e) + 3.0 * (p.d * (x * (e * e)));
  }

  // The cubic on one interval of width h, from its end values and end moments.
  function Cubic(y0: real, y1: real, h: real, c0: real, c1: real): Piece
    requires h != 0.0
  {
    Piece(y0, (y1 - y0) / h - h * (2.0 * c0 + c1) / 3.0, c0, (c1 - c0) / (3.0 * h))
  }

  // Whatever the moments, a piece meets both its end values and both its end curvatures.
  lemma CubicEnds(y0: real, y1: real, h: real, c0: real, c1: real)
    requires h != 0.0
    ensures var p := Cubic(y0, y1, h, c0, c1);
            p.Value(0.0) == y0 && p.Value(h) == y1 && p.Curvature(0.0) == 2.0 * c0 && p.Curvature(h) == 2.0 * c1
  {
    CubicDivisions(y0, y1, h, c0, c1);
    var p := Cubic(y0, y1, h, c0, c1);
    var bh, dh := p.b * h, p.d * h;
    assert dh * h == p.d * (h * h) && dh * h * h == p.d * (h * h * h);
    assert c0 * (h * h) == c0 * h * h && c1 * h * h == c1 * (h * h);
    EndValueAlgebra(y0, y1, h, c0, c1, p.b, p.d);
  }

  lemma CubicDivisions(y0: real, y1: real, h: real, c0: real, c1: real)
    requires h != 0.0
    ensures var p := Cubic(y0, y1, h, c0, c1);
            3.0 * (p.b * h) == 3.0 * (y1 - y0) - h * h * (2.0 * c0 + c1) && 3.0 * (p.d * h) == c1 - c0
  {
  }

  lemma EndValueAlgebra(y0: real, y1: real, h: real, c0: real, c1: real, b: real, d: real)
    requires 3.0 * (b * h) == 3.0 * (y1 - y0) - h * h * (2.0 * c0 + c1) && 3.0 * (d * h) == c1 - c0
    ensures y0 + b * h + c0 * (h * h) + d * (h * h * h) == y1
  {
    assert 3.0 * (d * (h * h * h)) == (3.0 * (d * h)) * (h * h);
    assert (c1 - c0) * (h * h) == c1 * (h * h) - c0 * (h * h);
    assert h * h * (2.0 * c0 + c1) == 2.0 * (c0 * (h * h)) + c1 * (h * h);
  }

  lemma CubicSlopes(y0: real, y1: real, h: real, c0: real, c1: real)
    requires h != 0.0
    ensures var p := Cubic(y0, y1, h, c0, c1);
            && p.Slope(0.0) == (y1 - y0) / h - h * (2.0 * c0 + c1) / 3.0
            && p.Slope(h) == (y1 - y0) / h + h * (c0 + 2.0 * c1) / 3.0
  {
    CubicDivisions(y0, y1, h, c0, c1);
    var p := Cubic(y0, y1, h, c0, c1);
    assert 3.0 * p.d * (h * h) == 3.0 * (p.d * h) * h;
    assert (c1 - c0) * h == c1 * h - c0 * h;
    assert h * (2.0 * c0 + c1) == 2.0 * (c0 * h) + c1 * h;
    assert h * (c0 + 2.0 * c1) == c0 * h + 2.0 * (c1 * h);
  }

  function PieceAt(xs: seq<real>, ys: seq<real>, c: seq<real>, i: nat): Piece
    requires Knots(xs, ys) && |c| == |xs| && i + 1 < |xs|
  {
    assert H(xs, i) > 0.0;
    Cubic(ys[i], ys[i + 1], H(xs, i), c[i], c[i + 1])
  }

  ghost predicate ContinuousAt(xs: seq<real>, ys: seq<real>, c: seq<real>, i: nat)
    requires Knots(xs, ys) && |c| == |xs| && Inner(xs, i)
  {
    var left, right := PieceAt(xs, ys, c, i - 1), PieceAt(xs, ys, c, i);
    && left.Value(H(xs, i - 1)) == ys[i] == right.Value(0.0)
    && left.Curvature(H(xs, i - 1)) == right.Curvature(0.0)
  }

  ghost predicate SmoothAt(xs: seq<real>, ys: seq<real>, c: seq<real>, i: nat)
    requires Knots(xs, ys) && |c| == |xs| && Inner(xs, i)
  {
    PieceAt(xs, ys, c, i - 1).Slope(H(xs, i - 1)) == PieceAt(xs, ys, c, i).Slope(0.0)
  }

  // Whatever the moments: every knot is hit, and values and second derivatives agree across it.
  lemma AnyMomentsAreContinuous(xs: seq<real>, ys: seq<real>, c: seq<real>, i: nat)
    requires Knots(xs, ys) && |c| == |xs| && Inner(xs, i)
    ensures ContinuousAt(xs, ys, c, i)
  {
    assert H(xs, i) > 0.0 && H(xs, i - 1) > 0.0;
    CubicEnds(ys[i - 1], ys[i], H(xs, i - 1), c[i - 1], c[i]);
    CubicEnds(ys[i], ys[i + 1], H(xs, i), c[i], c[i + 1]);
    hide Cubic, Knots;
  }

  // First derivatives agree at a knot exactly when the moments satisfy that knot's row.
  lemma SmoothExactlyWhenRow(xs: seq<real>, ys: seq<real>, c: seq<real>, i: nat)
    requires Knots(xs, ys) && |c| == |xs| && Inner(xs, i)
    ensures SmoothAt(xs, ys, c, i) <==> Row(xs, ys, c, i)
  {
    Coefficients(xs, ys, i);
    assert H(xs, i) > 0.0 && H(xs, i - 1) > 0.0;
    assert Lower(xs, i) == H(xs, i - 1) && Upper(xs, i) == H(xs, i);
    CubicsMeet(ys[i - 1], ys[i], ys[i + 1], H(xs, i - 1), H(xs, i), Diagonal(xs, i), c[i - 1], c[i], c[i + 1]);
    hide Knots, Cubic, RowHolds;
  }

  lemma CubicsMeet(y0: real, y1: real, y2: real, a: real, h: real, d: real, c0: real, c1: real, c2: real)
    requires a > 0.0 && h > 0.0 && d == 2.0 * (a + h)
    ensures Cubic(y0, y1, a, c0, c1).Slope(a) == Cubic(y1, y2, h, c1, c2).Slope(0.0)
       <==> RowHolds(a, d, h, 3.0 / h * (y2 - y1) - 3.0 / a * (y1 - y0), c0, c1, c2)
  {
    CubicSlopes(y0, y1, a, c0, c1);
    CubicSlopes(y1, y2, h, c1, c2);
    hide Cubic, RowHolds;
    SlopeAlgebra(y0, y1, y2, a, h, d, c0, c1, c2);
  }

  lemma SlopeAlgebra(y0: real, y1: real, y2: real, a: real, h: real, d: real, c0: real, c1: real, c2: real)
    requires a > 0.0 && h > 0.0 && d == 2.0 * (a + h)
    ensures (y1 - y0) / a + a * (c0 + 2.0 * c1) / 3.0 == (y2 - y1) / h - h * (2.0 * c1 + c2) / 3.0
       <==> RowHolds(a, d, h, 3.0 / h * (y2 - y1) - 3.0 / a * (y1 - y0), c0, c1, c2)
  {
    ThirdOf(y2 - y1, h);
    ThirdOf(y1 - y0, a);
    assert a * (c0 + 2.0 * c1) == a * c0 + 2.0 * (a * c1);
    assert h * (2.0 * c1 + c2) == 2.0 * (h * c1) + h * c2;
    assert d * c1 == 2.0 * (a * c1) + 2.0 * (h * c1);
  }

  lemma ThirdOf(y: real, h: real)
    requires h > 0.0
    ensures 3.0 / h * y == 3.0 * (y / h)
  {
    assert (3.0 / h * y) * h == 3.0 * y;
    assert (3.0 * (y / h)) * h == 3.0 * y;
  }

  // Both sweeps leave zero curvature at both ends.
  lemma NaturalEnds(sweep: Sweep, xs: seq<real>, ys: seq<real>)
    requires Knots(xs, ys)
    ensures var c, n := Moments(sweep, xs, ys), |xs|;
            && PieceAt(xs, ys, c, 0).Curvature(0.0) == 0.0
            && PieceAt(xs, ys, c, n - 2).Curvature(H(xs, n - 2)) == 0.0
  {
    var c, n := Moments(sweep, xs, ys), |xs|;
    EndMoments(sweep, xs, ys);
    assert H(xs, 0) > 0.0 && H(xs, n - 2) > 0.0;
    CubicEnds(ys[0], ys[1], H(xs, 0), c[0], c[1]);
    CubicEnds(ys[n - 2], ys[n - 1], H(xs, n - 2), c[n - 2], c[n - 1]);
    hide Cubic, Knots, Moment;
  }

  // The textbook sweep is the natural cubic spline: smooth at every inner knot.
  lemma TextbookIsSmooth(xs: seq<real>, ys: seq<real>, i: nat)
    requires Knots(xs, ys) && Inner(xs, i)
    ensures SmoothAt(xs, ys, Moments(Textbook, xs, ys), i)
  {
    hide Knots, Row, SmoothAt, Moment;
    TextbookSolves(xs, ys);
    SmoothExactlyWhenRow(xs, ys, Moments(Textbook, xs, ys), i);
  }

  // The sweep as written is smooth at every inner knot exactly for harmless data.
  lemma WrittenIsSmoothExactlyWhen(xs: seq<real>, ys: seq<real>)
    requires Knots(xs, ys)
    ensures (forall i: nat :: Inner(xs, i) ==> SmoothAt(xs, ys, Moments(Written, xs, ys), i))
       <==> (forall i: nat :: Inner(xs, i) ==> Harmless(xs, ys, Moments(Textbook, xs, ys), i))
  {
    hide Knots, Row, SmoothAt, Moment, Harmless;
    var w := Moments(Written, xs, ys);
    WrittenSolvesExactlyWhen(xs, ys);
    forall i: nat | Inner(xs, i) ensures SmoothAt(xs, ys, w, i) <==> Row(xs, ys, w, i) {
      SmoothExactlyWhenRow(xs, ys, w, i);
    }
    forall i: nat | i < |xs| && !Inner(xs, i) ensures Row(xs, ys, w, i) {
      EndRowsHold(Written, xs, ys, i);
    }
  }

  // Four unit-spaced knots on which the sweep as written fails: its first inner moment is -1.92,
  // the natural spline's is -1.8, and the first derivative jumps at the first inner knot.
  lemma WrittenFails()
    ensures var xs, ys := [0.0, 1.0, 2.0, 3.0], [0.0, 1.0, 0.0, 0.0];
            && Knots(xs, ys)
            && Moment(Written, xs, ys, 1) == -1.92
            && Moment(Textbook, xs, ys, 1) == -1.8
            && !SmoothAt(xs, ys, Moments(Written, xs, ys), 1)
  {
    var xs, ys := [0.0, 1.0, 2.0, 3.0], [0.0, 1.0, 0.0, 0.0];
    hide Moment, Pivot, Rhs, RowHolds;
    WrittenExample();
    TextbookExample();
    var c := Moments(Written, xs, ys);
    EndMoments(Written, xs, ys);
    assert At(c, 0) == 0.0 && At(c, 1) == -1.92 && At(c, 2) == 1.2;
    assert Lower(xs, 1) == 1.0 && Diagonal(xs, 1) == 4.0 && Upper(xs, 1) == 1.0 && Alpha(xs, ys, 1) == -6.0;
    BrokenRow();
    SmoothExactlyWhenRow(xs, ys, c, 1);
  }

  lemma BrokenRow()
    ensures !RowHolds(1.0, 4.0, 1.0, -6.0, 0.0, -1.92, 1.2)
  {
  }

  lemma WrittenExample()
    ensures var xs, ys := [0.0, 1.0, 2.0, 3.0], [0.0, 1.0, 0.0, 0.0];
            Knots(xs, ys) && Moment(Written, xs, ys, 1) == -1.92 && Moment(Written, xs, ys, 2) == 1.2
  {
    var xs, ys := [0.0, 1.0, 2.0, 3.0], [0.0, 1.0, 0.0, 0.0];
    assert Alpha(xs, ys, 1) == -6.0 && Alpha(xs, ys, 2) == 3.0;
    assert Pivot(Written, xs, ys, 1) == 3.75 && Pivot(Written, xs, ys, 2) == 3.75;
    assert Rhs(Written, xs, ys, 0) == 0.0 && Rhs(Written, xs, ys, 1) == -6.0 && Rhs(Written, xs, ys, 2) == 4.5;
    EndMoments(Written, xs, ys);
    assert Upper(xs, 1) == 1.0 && Upper(xs, 2) == 1.0;
    hide Rhs, Pivot, Knots;
  }

  lemma TextbookExample()
    ensures var xs, ys := [0.0, 1.0, 2.0, 3.0], [0.0, 1.0, 0.0, 0.0];
            Knots(xs, ys) && Moment(Textbook, xs, ys, 1) == -1.8
  {
    var xs, ys := [0.0, 1.0, 2.0, 3.0], [0.0, 1.0, 0.0, 0.0];
    assert Alpha(xs, ys, 1) == -6.0 && Alpha(xs, ys, 2) == 3.0;
    assert Pivot(Textbook, xs, ys, 0) == 1.0;
    assert Pivot(Textbook, xs, ys, 1) == 4.0 && Pivot(Textbook, xs, ys, 2) == 3.75;
    assert Rhs(Textbook, xs, ys, 0) == 0.0 && Rhs(Textbook, xs, ys, 1) == -6.0 && Rhs(Textbook, xs, ys, 2) == 4.5;
    EndMoments(Textbook, xs, ys);
    assert Upper(xs, 1) == 1.0 && Upper(xs, 2) == 1.0;
    hide Rhs, Pivot, Knots;
  }

  // In particular the first inner moment of the natural spline must vanish.
  lemma HarmlessStartsFlat(xs: seq<real>, ys: seq<real>)
    requires Knots(xs, ys)
    requires forall i: nat :: Inner(xs, i) ==> SmoothAt(xs, ys, Moments(Written, xs, ys), i)
    ensures Moment(Textbook, xs, ys, 1) == 0.0
  {
    hide Knots, SmoothAt, Moment, Pivot, Fits;
    WrittenIsSmoothExactlyWhen(xs, ys);
    var c := Moments(Textbook, xs, ys);
    assert Inner(xs, 1) by { KnotsLong(xs, ys); }
    assert Harmless(xs, ys, c, 1);
    EndMoments(Textbook, xs, ys);
    EndRow(xs, 0);
    Coefficients(xs, ys, 1);
    FlatStart(Diagonal(xs, 1), Pivot(Written, xs, ys, 0), Upper(xs, 1), c[1]);
  }

  lemma FlatStart(d: real, p: real, u: real, here: real)
    requires u > 0.0 && Fits(d, p, u, 0.0, 0.0, here)
    ensures here == 0.0
  {
    ProductZero(u, here);
  }

  // ---------- equally spaced knots ----------

  ghost predicate EquallySpaced(xs: seq<real>, h: real) {
    forall i: nat :: i + 1 < |xs| ==> H(xs, i) == h
  }

  // The second difference of the values at knot i.
  function Bend(ys: seq<real>, i: nat): real
    requires 1 <= i && i + 1 < |ys|
  {
    ys[i + 1] - 2.0 * ys[i] + ys[i - 1]
  }

  // A row over equally spaced knots, without its divisions.
  ghost predicate EqualRow(h: real, before: real, here: real, after: real, bend: real) {
    h * h * (before + 4.0 * here + after) == 3.0 * bend
  }

  lemma RowIsEqual(xs: seq<real>, ys: seq<real>, h: real, c: seq<real>, i: nat)
    requires Knots(xs, ys) && EquallySpaced(xs, h) && |c| == |xs| && Inner(xs, i)
    ensures Row(xs, ys, c, i) <==> EqualRow(h, c[i - 1], c[i], c[i + 1], Bend(ys, i))
  {
    EqualCoefficients(xs, ys, h, i);
    EqualAlpha(h, ys[i - 1], ys[i], ys[i + 1], Alpha(xs, ys, i));
    hide Knots, EquallySpaced, Alpha, Lower, Diagonal, Upper;
    EqualRowIs(h, c[i - 1], c[i], c[i + 1], Alpha(xs, ys, i), Bend(ys, i));
  }

  lemma EqualCoefficients(xs: seq<real>, ys: seq<real>, h: real, i: nat)
    requires Knots(xs, ys) && EquallySpaced(xs, h) && Inner(xs, i)
    ensures h > 0.0 && Lower(xs, i) == h && Diagonal(xs, i) == 4.0 * h && Upper(xs, i) == h
    ensures Alpha(xs, ys, i) == 3.0 / h * (ys[i + 1] - ys[i]) - 3.0 / h * (ys[i] - ys[i - 1])
  {
    assert H(xs, i - 1) == h && H(xs, i) == h;
  }

  lemma EqualAlpha(h: real, y0: real, y1: real, y2: real, alpha: real)
    requires h > 0.0 && alpha == 3.0 / h * (y2 - y1) - 3.0 / h * (y1 - y0)
    ensures alpha * h == 3.0 * (y2 - 2.0 * y1 + y0)
  {
    var g := 3.0 / h;
    assert g * h == 3.0;
    assert alpha == g * (y2 - 2.0 * y1 + y0);
    assert alpha * h == g * h * (y2 - 2.0 * y1 + y0);
  }

  lemma EqualRowIs(h: real, before: real, here: real, after: real, alpha: real, bend: real)
    requires h > 0.0 && alpha * h == 3.0 * bend
    ensures RowHolds(h, 4.0 * h, h, alpha, before, here, after) <==> EqualRow(h, before, here, after, bend)
  {
    var sum := before + 4.0 * here + after;
    assert h * before + 4.0 * h * here + h * after == h * sum;
    assert h * h * sum == h * (h * sum);
    if h * (h * sum) == h * alpha {
      assert h * (h * sum - alpha) == 0.0;
    }
  }

  // Over equally spaced knots a row is harmless exactly when the moment its pivot should have known
  // about vanishes.
  lemma EqualHarmless(xs: seq<real>, ys: seq<real>, h: real, c: seq<real>, i: nat)
    requires Knots(xs, ys) && EquallySpaced(xs, h) && |c| == |xs| && c[0] == 0.0 && Inner(xs, i)
    ensures Harmless(xs, ys, c, i) <==> c[if i == 1 then 1 else i - 1] == 0.0
  {
    EqualCoefficients(xs, ys, h, i);
    if i == 1 {
      EndRow(xs, 0);
      assert (Diagonal(xs, 1) - Pivot(Written, xs, ys, 0)) * 0.0 == 0.0;
      OnlyZero(h, c[1]);
    } else {
      EqualCoefficients(xs, ys, h, i - 1);
      hide Knots, EquallySpaced, Lower, Diagonal, Upper;
      var p := Pivot(Written, xs, ys, i - 1);
      assert p == Eliminate(4.0 * h, h, 4.0 * h, h);
      WrittenPivot(h);
      OnlyZero(h / 4.0, c[i - 1]);
    }
  }

  lemma WrittenPivot(h: real)
    requires h > 0.0
    ensures 4.0 * h - Eliminate(4.0 * h, h, 4.0 * h, h) == h / 4.0
  {
    var f := h / (4.0 * h);
    assert f * (4.0 * h) == h;
    assert 4.0 * (f * h) == h;
  }

  lemma OnlyZero(f: real, x: real)
    requires f > 0.0
    ensures f * x == 0.0 <==> x == 0.0
  {
  }

  // The values bend nowhere but at the last two inner knots, and four times as much at the last.
  ghost predicate BendsAtEnd(ys: seq<real>)
    requires |ys| >= 4
  {
    && (forall i: nat :: 1 <= i < |ys| - 3 ==> Bend(ys, i) == 0.0)
    && Bend(ys, |ys| - 2) == 4.0 * Bend(ys, |ys| - 3)
  }

  // All moments but the last inner one are 0.
  ghost predicate FlatButLast(c: seq<real>) {
    forall i: nat :: i < |c| && i + 2 != |c| ==> c[i] == 0.0
  }

  // What row i asks when all moments but the last inner one, m, are 0.
  ghost predicate FlatRow(h: real, m: real, ys: seq<real>, i: nat) {
    1 <= i && i + 1 < |ys| ==>
      if i + 3 < |ys| then Bend(ys, i) == 0.0
      else if i + 3 == |ys| then h * h * m == 3.0 * Bend(ys, i)
      else 4.0 * (h * h * m) == 3.0 * Bend(ys, i)
  }

  lemma RowIsFlat(xs: seq<real>, ys: seq<real>, h: real, c: seq<real>, i: nat)
    requires Knots(xs, ys) && EquallySpaced(xs, h) && |c| == |xs| && FlatButLast(c) && i < |xs|
    ensures Row(xs, ys, c, i) <==> FlatRow(h, c[|xs| - 2], ys, i)
  {
    var n := |xs|;
    KnotsLong(xs, ys);
    if Inner(xs, i) {
      RowIsEqual(xs, ys, h, c, i);
      hide Row, Knots, EquallySpaced, Bend;
      EqualRowIsFlat(h, c[i - 1], c[i], c[i + 1], Bend(ys, i));
    } else {
      EndRow(xs, i);
      UnitRow(At(c, i - 1), At(c, i), At(c, i + 1));
    }
  }

  lemma EqualRowIsFlat(h: real, before: real, here: real, after: real, bend: real)
    ensures before == here == after == 0.0 ==> (EqualRow(h, before, here, after, bend) <==> bend == 0.0)
    ensures before == here == 0.0 ==> (EqualRow(h, before, here, after, bend) <==> h * h * after == 3.0 * bend)
    ensures before == after == 0.0 ==> (EqualRow(h, before, here, after, bend) <==> 4.0 * (h * h * here) == 3.0 * bend)
  {
    var sum := before + 4.0 * here + after;
    if before == after == 0.0 {
      assert h * h * sum == 4.0 * (h * h * here);
    }
  }

  lemma FlatSolvesExactlyWhen(xs: seq<real>, ys: seq<real>, h: real, c: seq<real>)
    requires Knots(xs, ys) && EquallySpaced(xs, h) && |c| == |xs| >= 4 && FlatButLast(c)
    ensures Solves(xs, ys, c) ==> BendsAtEnd(ys)
    ensures BendsAtEnd(ys) && h * h * c[|xs| - 2] == 3.0 * Bend(ys, |xs| - 3) ==> Solves(xs, ys, c)
  {
    var n, m := |xs|, c[|xs| - 2];
    KnotsLong(xs, ys);
    hide Row, Knots, EquallySpaced, Bend, FlatButLast, FlatRow;
    forall i: nat | i < n ensures Row(xs, ys, c, i) <==> FlatRow(h, m, ys, i) {
      RowIsFlat(xs, ys, h, c, i);
    }
    FlatRows(h, m, ys);
  }

  lemma FlatRows(h: real, m: real, ys: seq<real>)
    requires |ys| >= 4
    ensures (forall i: nat :: i < |ys| ==> FlatRow(h, m, ys, i))
       <==> BendsAtEnd(ys) && h * h * m == 3.0 * Bend(ys, |ys| - 3)
  {
    hide Bend;
    var n := |ys|;
    if forall i: nat :: i < n ==> FlatRow(h, m, ys, i) {
      assert FlatRow(h, m, ys, n - 3) && FlatRow(h, m, ys, n - 2);
      forall i: nat | 1 <= i < n - 3 ensures Bend(ys, i) == 0.0 {
        assert FlatRow(h, m, ys, i);
      }
    }
  }

  // Over equally spaced knots the sweep as written gives the natural spline if and only if the second
  // differences of the values vanish but for the last two, and the last is four times the one before.
  lemma EquallySpacedExactlyWhen(xs: seq<real>, ys: seq<real>, h: real)
    requires Knots(xs, ys) && EquallySpaced(xs, h)
    ensures |ys| >= 4 && (Solves(xs, ys, Moments(Written, xs, ys)) <==> BendsAtEnd(ys))
  {
    var n, c := |xs|, Moments(Textbook, xs, ys);
    WrittenSolvesExactlyWhen(xs, ys);
    TextbookSolves(xs, ys);
    KnotsLong(xs, ys);
    EqualCoefficients(xs, ys, h, 1);
    EndMoments(Textbook, xs, ys);
    hide Knots, Solves, Harmless, EquallySpaced, Moment, BendsAtEnd, Bend, FlatButLast, Row;
    if forall i: nat :: Inner(xs, i) ==> Harmless(xs, ys, c, i) {
      HarmlessIsFlat(xs, ys, h, c);
      FlatSolvesExactlyWhen(xs, ys, h, c);
    }
    if BendsAtEnd(ys) {
      var flat := FlatSolution(xs, ys, h);
      SolutionIsUnique(xs, ys, flat);
      HarmlessIsFlat(xs, ys, h, c);
    }
  }

  lemma HarmlessIsFlat(xs: seq<real>, ys: seq<real>, h: real, c: seq<real>)
    requires Knots(xs, ys) && EquallySpaced(xs, h) && |c| == |xs| >= 4 && c[0] == c[|xs| - 1] == 0.0
    ensures (forall i: nat :: Inner(xs, i) ==> Harmless(xs, ys, c, i)) <==> FlatButLast(c)
  {
    var n := |xs|;
    hide Knots, Harmless, EquallySpaced;
    if FlatButLast(c) {
      forall i: nat | Inner(xs, i) ensures Harmless(xs, ys, c, i) {
        EqualHarmless(xs, ys, h, c, i);
      }
    }
    if forall i: nat :: Inner(xs, i) ==> Harmless(xs, ys, c, i) {
      forall i: nat | i < n && i + 2 != n ensures c[i] == 0.0 {
        if 0 < i < n - 1 {
          EqualHarmless(xs, ys, h, c, i + 1);
        }
      }
    }
  }

  lemma FlatSolution(xs: seq<real>, ys: seq<real>, h: real) returns (c: seq<real>)
    requires Knots(xs, ys) && EquallySpaced(xs, h) && |ys| >= 4 && h > 0.0 && BendsAtEnd(ys)
    ensures Solves(xs, ys, c) && FlatButLast(c)
  {
    var n := |xs|;
    KnotsLong(xs, ys);
    var bend := Bend(ys, n - 3);
    var m := 3.0 * bend / (h * h);
    c := seq(n, i => if i == n - 2 then m else 0.0);
    assert h * h * m == 3.0 * bend;
    hide Knots, Solves, EquallySpaced, BendsAtEnd, Bend;
    FlatSolvesExactlyWhen(xs, ys, h, c);
  }

  // ---------- the source's procedure ----------

  type Pair = (real, real)

  ghost predicate Ordered(s: seq<Pair>) {
    forall i, j :: 0 <= i < j < |s| ==> s[i].0 < s[j].0
  }

  function Insert(p: Pair, s: seq<Pair>): (r: seq<Pair>)
    ensures |r| == |s| + 1
    ensures forall q :: q in r <==> q == p || q in s
  {
    if s == [] then [p]
    else if p.0 < s[0].0 then [p] + s
    else
      var rest := Insert(p, s[1..]);
      assert forall q :: q in s <==> q == s[0] || q in s[1..];
      [s[0]] + rest
  }

  function SortPairs(s: seq<Pair>): (r: seq<Pair>)
    ensures |r| == |s|
    ensures forall q :: q in r <==> q in s
  {
    if s == [] then []
    else
      assert forall q :: q in s <==> q == s[0] || q in s[1..];
      Insert(s[0], SortPairs(s[1..]))
  }

  lemma {:induction false} InsertKeepsOrder(p: Pair, s: seq<Pair>)
    requires Ordered(s) && forall q :: q in s ==> q.0 != p.0
    ensures Ordered(Insert(p, s))
  {
    if s != [] && !(p.0 < s[0].0) {
      assert s[0] in s;
      assert forall q :: q in s[1..] ==> q in s;
      InsertKeepsOrder(p, s[1..]);
      var rest := Insert(p, s[1..]);
      forall j | 0 <= j < |rest| ensures s[0].0 < rest[j].0 {
        assert rest[j] in rest;
        if rest[j] != p {
          var k :| 0 <= k < |s[1..]| && s[1..][k] == rest[j];
          assert s[0].0 < s[k + 1].0;
        }
      }
    }
  }

  lemma {:induction false} SortOrders(s: seq<Pair>)
    requires forall i, j :: 0 <= i < j < |s| ==> s[i].0 != s[j].0
    ensures Ordered(SortPairs(s))
  {
    if s != [] {
      SortOrders(s[1..]);
      forall q | q in SortPairs(s[1..]) ensures q.0 != s[0].0 {
        var k :| 0 <= k < |s[1..]| && s[1..][k] == q;
        assert s[0].0 != s[k + 1].0;
      }
      InsertKeepsOrder(s[0], SortPairs(s[1..]));
    }
  }

  function Zip(xs: seq<real>, ys: seq<real>): (r: seq<Pair>)
    requires |xs| == |ys|
    ensures |r| == |xs| && forall i :: 0 <= i < |r| ==> r[i] == (xs[i], ys[i])
  {
    seq(|xs|, i requires 0 <= i < |xs| => (xs[i], ys[i]))
  }

  function Firsts(s: seq<Pair>): (r: seq<real>)
    ensures |r| == |s| && forall i :: 0 <= i < |r| ==> r[i] == s[i].0
  {
    seq(|s|, i requires 0 <= i < |s| => s[i].0)
  }

  function Seconds(s: seq<Pair>): (r: seq<real>)
    ensures |r| == |s| && forall i :: 0 <= i < |r| ==> r[i] == s[i].1
  {
    seq(|s|, i requires 0 <= i < |s| => s[i].1)
  }

  // The elimination loop of the source, in place on the diagonal and the right-hand side.
  method EliminateInPlace(xs: seq<real>, ys: seq<real>) returns (r: seq<real>, p: seq<real>)
    requires Knots(xs, ys)
    ensures |r| == |p| == |xs|
    ensures forall k :: 0 <= k < |xs| ==> r[k] == Rhs(Written, xs, ys, k) && p[k] == Pivot(Written, xs, ys, k)
  {
    hide Knots, Eliminate, Lower, Diagonal, Upper, Alpha;
    var n := |xs|;
    KnotsLong(xs, ys);
    var diagonal := seq(n, i requires 0 <= i < n => Diagonal(xs, i));
    var rhs := seq(n, i requires 0 <= i < n => Alpha(xs, ys, i));
    WrittenEntries(xs, ys, 0);
    hide Pivot, Rhs;
    for index := 1 to n
      invariant |diagonal| == |rhs| == n
      invariant forall k :: 0 <= k < index ==> diagonal[k] == Pivot(Written, xs, ys, k)
      invariant forall k :: 0 <= k < index ==> rhs[k] == Rhs(Written, xs, ys, k)
      invariant forall k :: index <= k < n ==> diagonal[k] == Diagonal(xs, k)
      invariant forall k :: index <= k < n ==> rhs[k] == Alpha(xs, ys, k)
    {
      Coefficients(xs, ys, index);
      WrittenEntries(xs, ys, index);
      var divisor := diagonal[index];
      diagonal := diagonal[index := Eliminate(diagonal[index], Lower(xs, index), divisor, Upper(xs, index))];
      rhs := rhs[index := Eliminate(rhs[index], Lower(xs, index), divisor, rhs[index - 1])];
    }
    return rhs, diagonal;
  }

  // Back substitution over the eliminated system.
  method SolveMoments(xs: seq<real>, ys: seq<real>) returns (r: seq<real>)
    requires Knots(xs, ys)
    ensures r == Moments(Written, xs, ys)
  {
    hide Knots, Substitute, Rhs, Pivot, Upper;
    var n := |xs|;
    KnotsLong(xs, ys);
    var rhs, diagonal := EliminateInPlace(xs, ys);
    var c := new real[n](i => 0.0);
    c[n - 1] := rhs[n - 1] / diagonal[n - 1];
    for index := n - 1 downto 0
      invariant forall k :: index <= k < n ==> c[k] == Moment(Written, xs, ys, k)
    {
      c[index] := Substitute(rhs[index], Upper(xs, index), c[index + 1], diagonal[index]);
    }
    return c[..];
  }

  lemma KnotsLong(xs: seq<real>, ys: seq<real>)
    requires Knots(xs, ys)
    ensures |xs| >= 4 && |ys| == |xs|
  {
  }

  lemma WrittenEntries(xs: seq<real>, ys: seq<real>, i: nat)
    requires Knots(xs, ys) && i < |xs|
    ensures Diagonal(xs, i) > 0.0
    ensures i == 0 ==> Pivot(Written, xs, ys, 0) == Diagonal(xs, 0) && Rhs(Written, xs, ys, 0) == Alpha(xs, ys, 0)
    ensures i > 0 ==>
              && Pivot(Written, xs, ys, i) == Eliminate(Diagonal(xs, i), Lower(xs, i), Diagonal(xs, i), Upper(xs, i))
              && Rhs(Written, xs, ys, i) == Eliminate(Alpha(xs, ys, i), Lower(xs, i), Diagonal(xs, i), Rhs(Written, xs, ys, i - 1))
  {
    hide Eliminate;
    Coefficients(xs, ys, i);
  }

  // The piece a target falls into: the first interval that contains it, or the last one at the
  // right end.
  method FindInterval(xs: seq<real>, target: real) returns (interval: nat)
    requires |xs| >= 2 && xs[0] <= target <= xs[|xs| - 1] && xs[|xs| - 2] <= xs[|xs| - 1]
    ensures interval + 1 < |xs| && xs[interval] <= target <= xs[interval + 1]
    ensures target == xs[|xs| - 1] ==> interval == |xs| - 2
    ensures target != xs[|xs| - 1] ==> forall i :: 0 <= i < interval ==> !(xs[i] <= target <= xs[i + 1])
  {
    var n := |xs|;
    if target == xs[n - 1] {
      return n - 2;
    }
    interval := 0;
    for index := 0 to n - 1
      invariant interval == 0 && xs[index] <= target
      invariant forall i :: 0 <= i < index ==> !(xs[i] <= target <= xs[i + 1])
    {
      if xs[index] <= target <= xs[index + 1] {
        return index;
      }
    }
  }

  ghost predicate OnPiece(xs: seq<real>, ys: seq<real>, c: seq<real>, i: nat, target: real, value: real)
    requires Knots(xs, ys) && |c| == |xs|
  {
    && i + 1 < |xs|
    && xs[i] <= target <= xs[i + 1]
    && value == PieceAt(xs, ys, c, i).Value(target - xs[i])
  }

  method SplineAtKnots(xs: seq<real>, ys: seq<real>, target: real) returns (result: real, ghost i: nat)
    requires Knots(xs, ys) && xs[0] <= target <= xs[|xs| - 1]
    ensures OnPiece(xs, ys, Moments(Written, xs, ys), i, target, result)
  {
    hide Moments, Knots, PieceAt;
    KnotsLong(xs, ys);
    KnotsRise(xs, ys, |xs| - 2);
    var c := SolveMoments(xs, ys);
    var interval := FindInterval(xs, target);
    i := interval;
    result := EvaluatePiece(xs, ys, c, interval, target);
  }

  // The spline through unordered data, evaluated at a target between the extreme nodes.  The
  // answer comes from the piece over an interval that contains the target, and at a data point
  // it is that point's value.
  method CubicSpline(xData: seq<real>, yData: seq<real>, target: real) returns (result: real)
    requires |xData| == |yData| && |xData| >= 4 && Distinct(xData)
    requires exists lo, hi :: 0 <= lo < |xData| && 0 <= hi < |xData| && xData[lo] <= target <= xData[hi]
    ensures var pairs := SortPairs(Zip(xData, yData)); var xs, ys := Firsts(pairs), Seconds(pairs);
            && Knots(xs, ys)
            && exists i: nat :: OnPiece(xs, ys, Moments(Written, xs, ys), i, target, result)
    ensures forall k :: 0 <= k < |xData| && target == xData[k] ==> result == yData[k]
  {
    var pairs := SortPairs(Zip(xData, yData));
    var xs, ys := Firsts(pairs), Seconds(pairs);
    SortedKnots(xData, yData);
    TargetInside(xData, yData, target);
    hide Moments, SortPairs, Knots, Distinct;
    ghost var interval;
    result, interval := SplineAtKnots(xs, ys, target);
    KnotValues(xData, yData, Moments(Written, xs, ys), interval, target, result);
  }

  lemma KnotsRise(xs: seq<real>, ys: seq<real>, i: nat)
    requires Knots(xs, ys) && i + 1 < |xs|
    ensures xs[i] < xs[i + 1]
  {
  }

  lemma SortedKnots(xData: seq<real>, yData: seq<real>)
    requires |xData| == |yData| && |xData| >= 4 && Distinct(xData)
    ensures var pairs := SortPairs(Zip(xData, yData)); Ordered(pairs) && Knots(Firsts(pairs), Seconds(pairs))
  {
    SortOrders(Zip(xData, yData));
  }

  method EvaluatePiece(xs: seq<real>, ys: seq<real>, c: seq<real>, interval: nat, target: real) returns (result: real)
    requires Knots(xs, ys) && |c| == |xs| && interval + 1 < |xs|
    ensures result == PieceAt(xs, ys, c, interval).Value(target - xs[interval])
  {
    var h := xs[interval + 1] - xs[interval];
    assert h > 0.0;
    var b := (ys[interval + 1] - ys[interval]) / h - h * (2.0 * c[interval] + c[interval + 1]) / 3.0;
    var d := (c[interval + 1] - c[interval]) / (3.0 * h);
    var dx := target - xs[interval];
    result := ys[interval] + b * dx + c[interval] * (dx * dx) + d * (dx * dx * dx);
  }

  lemma TargetInside(xData: seq<real>, yData: seq<real>, target: real)
    requires |xData| == |yData| && |xData| >= 4
    requires exists lo, hi :: 0 <= lo < |xData| && 0 <= hi < |xData| && xData[lo] <= target <= xData[hi]
    requires Ordered(SortPairs(Zip(xData, yData)))
    ensures var pairs := SortPairs(Zip(xData, yData)); pairs[0].0 <= target <= pairs[|pairs| - 1].0
  {
    var zipped := Zip(xData, yData);
    var pairs := SortPairs(zipped);
    var lo, hi :| 0 <= lo < |xData| && 0 <= hi < |xData| && xData[lo] <= target <= xData[hi];
    assert zipped[lo] in pairs && zipped[hi] in pairs;
    var a :| 0 <= a < |pairs| && pairs[a] == zipped[lo];
    var b :| 0 <= b < |pairs| && pairs[b] == zipped[hi];
  }

  // A target at a data point lies at an end of the interval it was found in.
  lemma KnotValues(xData: seq<real>, yData: seq<real>, c: seq<real>, i: nat, target: real, result: real)
    requires |xData| == |yData|
    requires var pairs := SortPairs(Zip(xData, yData)); var xs, ys := Firsts(pairs), Seconds(pairs);
             Knots(xs, ys) && |c| == |xs| && OnPiece(xs, ys, c, i, target, result)
    ensures forall k :: 0 <= k < |xData| && target == xData[k] ==> result == yData[k]
  {
    hide SortPairs, Knots, PieceAt;
    forall k | 0 <= k < |xData| && target == xData[k] ensures result == yData[k] {
      KnotValue(xData, yData, k, c, i);
    }
  }

  lemma KnotValue(xData: seq<real>, yData: seq<real>, k: nat, c: seq<real>, i: nat)
    requires |xData| == |yData| && k < |xData|
    requires var pairs := SortPairs(Zip(xData, yData)); var xs, ys := Firsts(pairs), Seconds(pairs);
             Knots(xs, ys) && |c| == |xs| && i + 1 < |xs| && xs[i] <= xData[k] <= xs[i + 1]
    ensures var pairs := SortPairs(Zip(xData, yData)); var xs, ys := Firsts(pairs), Seconds(pairs);
            PieceAt(xs, ys, c, i).Value(xData[k] - xs[i]) == yData[k]
  {
    var pairs := SortPairs(Zip(xData, yData));
    var xs, ys := Firsts(pairs), Seconds(pairs);
    assert Zip(xData, yData)[k] in pairs;
    var j :| 0 <= j < |pairs| && pairs[j] == (xData[k], yData[k]);
    assert j == i || j == i + 1;
    assert H(xs, i) > 0.0;
    CubicEnds(ys[i], ys[i + 1], H(xs, i), c[i], c[i + 1]);
    hide Cubic;
  }
}
