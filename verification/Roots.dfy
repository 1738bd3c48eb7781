/**
  The bracketing root finders of numerical_methods_tool.py over exact reals and any total function:
  bisection, and the secant step safeguarded by bisection that the source calls Brent's method.
 */
module Roots {
  import opened Wrappers

  datatype Error = EmptyBracket | NoSignChange | NotConverged

  datatype Found = Found(x: real, iterations: nat)

  datatype Bracket = Bracket(a: real, b: real) {
    function Width(): real {
      b - a
    }

    function Middle(): real {
      a + (b - a) / 2.0
    }
  }

  function Abs(x: real): real {
    if x < 0.0 then -x else x
  }

  function Max(x: real, y: real): real {
    if x < y then y else x
  }

  function Ordered(lower: real, upper: real): (s: Bracket)
    ensures s.a <= s.b
  {
    if lower > upper then Bracket(upper, lower) else Bracket(lower, upper)
  }

  predicate Crosses(u: real, v: real) {
    u * v < 0.0
  }

  predicate SameSide(u: real, v: real) {
    u * v > 0.0
  }

  ghost predicate Opposite(u: real, v: real) {
    u < 0.0 < v || v < 0.0 < u
  }

  ghost predicate SignChange(f: real -> real, s: Bracket) {
    s.a < s.b && Opposite(f(s.a), f(s.b))
  }

  lemma Signs(u: real, v: real)
    ensures Crosses(u, v) <==> Opposite(u, v)
    ensures SameSide(u, v) <==> u != 0.0 && v != 0.0 && !Opposite(u, v)
  {
    if u > 0.0 && v > 0.0 {
      Positive(u, v, u * v);
    } else if u < 0.0 && v < 0.0 {
      Positive(-u, -v, u * v);
    } else if u < 0.0 && v > 0.0 {
      Positive(-u, v, -(u * v));
    } else if u > 0.0 && v < 0.0 {
      Positive(u, -v, -(u * v));
    }
  }

  lemma Positive(a: real, b: real, p: real)
    requires a > 0.0 && b > 0.0 && p == a * b
    ensures p > 0.0
  {
  }

  // What both finders promise of a returned point.
  ghost predicate IsRoot(f: real -> real, start: Bracket, tolerance: real, x: real) {
    && start.a <= x <= start.b
    && (Abs(f(x)) <= tolerance ||
        exists s: Bracket :: SignChange(f, s) && s.a <= x <= s.b && s.Width() <= tolerance)
  }

  // ---------- bisection ----------

  function Halve(f: real -> real, s: Bracket): Bracket {
    if Crosses(f(s.a), f(s.Middle())) then Bracket(s.a, s.Middle()) else Bracket(s.Middle(), s.b)
  }

  // The bracket after n halvings.
  function Halved(f: real -> real, s: Bracket, n: nat): Bracket {
    if n == 0 then s else Halve(f, Halved(f, s, n - 1))
  }

  predicate Accepted(f: real -> real, s: Bracket, tolerance: real, n: nat) {
    var h := Halved(f, s, n);
    Abs(f(h.Middle())) <= tolerance || Abs(h.Width()) <= tolerance
  }

  method Bisection(f: real -> real, lower: real, upper: real, tolerance: real, maxIterations: nat)
    returns (r: Result<Found, Error>)
    requires tolerance > 0.0 && maxIterations > 0
    ensures var s := Ordered(lower, upper);
            && (lower == upper <==> r == Failure(EmptyBracket))
            && (lower != upper && SameSide(f(s.a), f(s.b)) <==> r == Failure(NoSignChange))
            && (lower != upper && f(s.a) == 0.0 ==> r == Success(Found(s.a, 0)))
            && (lower != upper && f(s.a) != 0.0 && f(s.b) == 0.0 ==> r == Success(Found(s.b, 0)))
            && (r == Failure(NotConverged) <==>
                  SignChange(f, s) && forall n :: 0 <= n < maxIterations ==> !Accepted(f, s, tolerance, n))
            && (r.Success? && SignChange(f, s) ==>
                  var k := r.value.iterations;
                  && 0 < k <= maxIterations && r.value.x == Halved(f, s, k - 1).Middle()
                  && Accepted(f, s, tolerance, k - 1)
                  && forall n :: 0 <= n < k - 1 ==> !Accepted(f, s, tolerance, n))
  {
    hide Crosses, SameSide;
    var a, b := lower, upper;
    if a == b {
      return Failure(EmptyBracket);
    }
    if a > b {
      a, b := b, a;
    }
    var fa, fb := f(a), f(b);
    ghost var s := Bracket(a, b);
    Signs(fa, fb);
    if fa != 0.0 && fb != 0.0 && SameSide(fa, fb) {
      return Failure(NoSignChange);
    }
    if fa == 0.0 {
      return Success(Found(a, 0));
    }
    if fb == 0.0 {
      return Success(Found(b, 0));
    }
    for iteration := 1 to maxIterations + 1
      invariant Bracket(a, b) == Halved(f, s, iteration - 1) && fa == f(a)
      invariant forall n :: 0 <= n < iteration - 1 ==> !Accepted(f, s, tolerance, n)
    {
      var midpoint := a + (b - a) / 2.0;
      var fm := f(midpoint);
      if Abs(fm) <= tolerance || Abs(b - a) <= tolerance {
        assert Accepted(f, s, tolerance, iteration - 1);
        return Success(Found(midpoint, iteration));
      }
      assert !Accepted(f, s, tolerance, iteration - 1);
      if Crosses(fa, fm) {
        b := midpoint;
      } else {
        a := midpoint;
        fa := fm;
      }
    }
    return Failure(NotConverged);
  }

  function TwoTo(n: nat): real {
    if n == 0 then 1.0 else 2.0 * TwoTo(n - 1)
  }

  // whole is 2^n times half^n of it.
  ghost predicate Doubled(part: real, power: real, whole: real) {
    part * power == whole
  }

  // While nothing is accepted every bracket changes sign, lies strictly inside the one before and
  // has exactly half its width.
  lemma {:induction false} HalvingKeepsBracket(f: real -> real, s: Bracket, tolerance: real, n: nat)
    requires SignChange(f, s) && tolerance > 0.0
    requires forall k :: 0 <= k < n ==> !Accepted(f, s, tolerance, k)
    ensures SignChange(f, Halved(f, s, n))
    ensures Doubled(Halved(f, s, n).Width(), TwoTo(n), s.Width())
    ensures s.a <= Halved(f, s, n).a && Halved(f, s, n).b <= s.b
    ensures n > 0 ==>
              var before, now := Halved(f, s, n - 1), Halved(f, s, n);
              before.a < before.Middle() < before.b && (now.a == before.Middle() || now.b == before.Middle())
  {
    hide Crosses, Doubled;
    if n == 0 {
      WholeOnce(s.Width());
    } else {
      HalvingKeepsBracket(f, s, tolerance, n - 1);
      var h := Halved(f, s, n - 1);
      assert !Accepted(f, s, tolerance, n - 1);
      Signs(f(h.a), f(h.Middle()));
      HalfTwice(Halve(f, h).Width(), h.Width(), TwoTo(n - 1), TwoTo(n), s.Width());
    }
  }

  lemma WholeOnce(w: real)
    ensures Doubled(w, 1.0, w)
  {
  }

  lemma HalfTwice(half: real, part: real, power: real, next: real, whole: real)
    requires half == part / 2.0 && next == 2.0 * power && Doubled(part, power, whole)
    ensures Doubled(half, next, whole)
  {
  }

  lemma {:induction false} TwoToIsPositive(n: nat)
    ensures TwoTo(n) >= 1.0
  {
    if n > 0 {
      TwoToIsPositive(n - 1);
    }
  }

  // A returned point is a root to the tolerance.
  lemma BisectionFindsRoot(f: real -> real, lower: real, upper: real, tolerance: real, n: nat)
    requires var s := Ordered(lower, upper);
             && SignChange(f, s) && tolerance > 0.0 && Accepted(f, s, tolerance, n)
             && forall k :: 0 <= k < n ==> !Accepted(f, s, tolerance, k)
    ensures IsRoot(f, Ordered(lower, upper), tolerance, Halved(f, Ordered(lower, upper), n).Middle())
  {
    HalvingKeepsBracket(f, Ordered(lower, upper), tolerance, n);
  }

  // Enough iterations always succeed: the last bracket is (b - a) / 2^(N - 1) wide.
  lemma BisectionConverges(f: real -> real, s: Bracket, tolerance: real, maxIterations: nat)
    requires SignChange(f, s) && tolerance > 0.0 && maxIterations > 0
    requires s.Width() <= tolerance * TwoTo(maxIterations - 1)
    ensures exists n :: 0 <= n < maxIterations && Accepted(f, s, tolerance, n)
  {
    var last := maxIterations - 1;
    if forall n :: 0 <= n < last ==> !Accepted(f, s, tolerance, n) {
      HalvingKeepsBracket(f, s, tolerance, last);
      TwoToIsPositive(last);
      CancelPower(Halved(f, s, last).Width(), tolerance, TwoTo(last), s.Width());
      hide TwoTo, Doubled, SignChange;
      assert Accepted(f, s, tolerance, last);
    }
  }

  lemma CancelPower(part: real, bound: real, power: real, whole: real)
    requires Doubled(part, power, whole) && whole <= bound * power && power > 0.0
    ensures part <= bound
  {
    if part > bound {
      Positive(part - bound, power, (part - bound) * power);
    }
  }

  // ---------- the safeguarded secant ----------

  // `ulp` stands for math.ulp.
  function Margin(ulp: real -> real, s: Bracket, tolerance: real): real {
    Max(tolerance * 0.01, ulp(Max(Max(Abs(s.a), Abs(s.b)), 1.0)))
  }

  function SecantOf(a: real, fa: real, b: real, fb: real): real {
    var denominator := fb - fa;
    if denominator != 0.0 then b - fb * (b - a) / denominator else (a + b) / 2.0
  }

  function Secant(f: real -> real, s: Bracket): real {
    SecantOf(s.a, f(s.a), s.b, f(s.b))
  }

  // The secant point when it is safely inside the bracket, otherwise the middle.
  function Candidate(f: real -> real, ulp: real -> real, s: Bracket, tolerance: real): real {
    var point, margin := Secant(f, s), Margin(ulp, s, tolerance);
    if point <= s.a + margin || point >= s.b - margin then (s.a + s.b) / 2.0 else point
  }

  function Narrow(f: real -> real, ulp: real -> real, s: Bracket, tolerance: real): Bracket {
    var c := Candidate(f, ulp, s, tolerance);
    if Crosses(f(s.a), f(c)) then Bracket(s.a, c) else Bracket(c, s.b)
  }

  function Narrowed(f: real -> real, ulp: real -> real, s: Bracket, tolerance: real, n: nat): Bracket {
    if n == 0 then s else Narrow(f, ulp, Narrowed(f, ulp, s, tolerance, n - 1), tolerance)
  }

  // The point returned from the n-th bracket, if any.
  function Answer(f: real -> real, ulp: real -> real, s: Bracket, tolerance: real, n: nat): Option<real> {
    var h := Narrowed(f, ulp, s, tolerance, n);
    var c := Candidate(f, ulp, h, tolerance);
    if Abs(h.Width()) <= tolerance then Some((h.a + h.b) / 2.0)
    else if Abs(f(c)) <= tolerance then Some(c)
    else None
  }

  // The straight line through (a, fa) and (b, fb) vanishes at x.
  ghost predicate OnChord(a: real, fa: real, b: real, fb: real, x: real) {
    fa * (b - x) + fb * (x - a) == 0.0
  }

  lemma SecantIsOnChord(a: real, fa: real, b: real, fb: real)
    requires fb != fa
    ensures OnChord(a, fa, b, fb, SecantOf(a, fa, b, fb))
  {
    var d, q := fb - fa, fb * (b - a) / (fb - fa);
    assert q * d == fb * (b - a);
    assert fa * q + fb * (b - q - a) == fb * (b - a) - q * d;
  }

  // One turn of the loop.
  lemma AnswerIs(f: real -> real, ulp: real -> real, s: Bracket, tolerance: real, n: nat, c: real)
    requires c == Candidate(f, ulp, Narrowed(f, ulp, s, tolerance, n), tolerance)
    ensures var h := Narrowed(f, ulp, s, tolerance, n);
            && Answer(f, ulp, s, tolerance, n) == (
                 if Abs(h.b - h.a) <= tolerance then Some((h.a + h.b) / 2.0)
                 else if Abs(f(c)) <= tolerance then Some(c)
                 else None)
            && Narrowed(f, ulp, s, tolerance, n + 1) == if Crosses(f(h.a), f(c)) then Bracket(h.a, c) else Bracket(c, h.b)
  {
    hide Candidate, Crosses;
  }

  // The next point lies strictly inside the bracket, and off its ends while the bracket is wider than
  // the tolerance.  It is the middle, or the zero of the chord.
  method Propose(f: real -> real, ulp: real -> real, a: real, b: real, fa: real, fb: real, tolerance: real)
    returns (candidate: real)
    requires fa == f(a) && fb == f(b)
    ensures candidate == Candidate(f, ulp, Bracket(a, b), tolerance)
    ensures candidate == (a + b) / 2.0 || OnChord(a, fa, b, fb, candidate)
    ensures a < b && tolerance > 0.0 ==> a < candidate < b
    ensures b - a > tolerance > 0.0 ==> a + 0.01 * tolerance < candidate < b - 0.01 * tolerance
  {
    var midpoint := (a + b) / 2.0;
    var denominator := fb - fa;
    candidate := if denominator != 0.0 then b - fb * (b - a) / denominator else midpoint;
    assert candidate == SecantOf(a, fa, b, fb);
    hide SecantOf;
    if denominator != 0.0 {
      SecantIsOnChord(a, fa, b, fb);
    }
    assert candidate == Secant(f, Bracket(a, b));
    hide Secant, OnChord;
    var margin := Max(tolerance * 0.01, ulp(Max(Max(Abs(a), Abs(b)), 1.0)));
    assert margin == Margin(ulp, Bracket(a, b), tolerance);
    hide Margin;
    if candidate <= a + margin || candidate >= b - margin {
      candidate := midpoint;
    }
    if a < b && tolerance > 0.0 {
      CandidateIsInside(f, ulp, Bracket(a, b), tolerance);
    }
    hide Candidate;
  }

  method Brent(f: real -> real, ulp: real -> real, lower: real, upper: real, tolerance: real, maxIterations: nat)
    returns (r: Result<Found, Error>)
    requires tolerance > 0.0 && maxIterations > 0
    ensures var s := Ordered(lower, upper);
            && (lower == upper <==> r == Failure(EmptyBracket))
            && (lower != upper && SameSide(f(s.a), f(s.b)) <==> r == Failure(NoSignChange))
            && (lower != upper && f(s.a) == 0.0 ==> r == Success(Found(s.a, 0)))
            && (lower != upper && f(s.a) != 0.0 && f(s.b) == 0.0 ==> r == Success(Found(s.b, 0)))
            && (r == Failure(NotConverged) <==>
                  SignChange(f, s) && forall n :: 0 <= n < maxIterations ==> Answer(f, ulp, s, tolerance, n) == None)
            && (r.Success? && SignChange(f, s) ==>
                  var k := r.value.iterations;
                  && 0 < k <= maxIterations && Answer(f, ulp, s, tolerance, k - 1) == Some(r.value.x)
                  && forall n :: 0 <= n < k - 1 ==> Answer(f, ulp, s, tolerance, n) == None)
  {
    hide Crosses, SameSide, Secant, Margin, Candidate, Narrow, Answer;
    var a, b := lower, upper;
    if a == b {
      return Failure(EmptyBracket);
    }
    if a > b {
      a, b := b, a;
    }
    var fa, fb := f(a), f(b);
    ghost var s := Bracket(a, b);
    Signs(fa, fb);
    if fa != 0.0 && fb != 0.0 && SameSide(fa, fb) {
      return Failure(NoSignChange);
    }
    if fa == 0.0 {
      return Success(Found(a, 0));
    }
    if fb == 0.0 {
      return Success(Found(b, 0));
    }
    assert Narrowed(f, ulp, s, tolerance, 0) == s;
    hide Narrowed;
    for iteration := 1 to maxIterations + 1
      invariant Bracket(a, b) == Narrowed(f, ulp, s, tolerance, iteration - 1) && fa == f(a) && fb == f(b)
      invariant a < b && Opposite(fa, fb)
      invariant forall n :: 0 <= n < iteration - 1 ==> Answer(f, ulp, s, tolerance, n) == None
    {
      var midpoint := (a + b) / 2.0;
      var width := b - a;
      if Abs(width) <= tolerance {
        AnswerIs(f, ulp, s, tolerance, iteration - 1, Candidate(f, ulp, Bracket(a, b), tolerance));
        return Success(Found(midpoint, iteration));
      }
      var candidate := Propose(f, ulp, a, b, fa, fb, tolerance);
      CandidateIsInside(f, ulp, Bracket(a, b), tolerance);
      AnswerIs(f, ulp, s, tolerance, iteration - 1, candidate);
      var fc := f(candidate);
      if Abs(fc) <= tolerance {
        return Success(Found(candidate, iteration));
      }
      Signs(fa, fc);
      Signs(fb, fc);
      if Crosses(fa, fc) {
        b := candidate;
        fb := fc;
      } else if Crosses(fb, fc) {
        a := candidate;
        fa := fc;
      } else {
        // The source returns the candidate here; the bracket's sign change rules the branch out.
        assert false;
      }
    }
    return Failure(NotConverged);
  }

  lemma CandidateIsInside(f: real -> real, ulp: real -> real, s: Bracket, tolerance: real)
    requires s.a < s.b && tolerance > 0.0
    ensures var c := Candidate(f, ulp, s, tolerance);
            && s.a < c < s.b
            && (s.Width() > tolerance ==> s.a + 0.01 * tolerance < c < s.b - 0.01 * tolerance)
  {
    hide Secant;
  }

  // The chord's zero is taken exactly when it lies inside the bracket by more than the margin: the
  // larger of a hundredth of the tolerance and the spacing of floats there.  Otherwise, and when the
  // chord is level, it is the middle.
  lemma CandidateIsSecantExactlyWhen(f: real -> real, ulp: real -> real, s: Bracket, tolerance: real, x: real)
    ensures var c := Candidate(f, ulp, s, tolerance);
            var margin := Max(tolerance * 0.01, ulp(Max(Max(Abs(s.a), Abs(s.b)), 1.0)));
            && (f(s.a) == f(s.b) ==> c == (s.a + s.b) / 2.0)
            && (f(s.a) != f(s.b) && OnChord(s.a, f(s.a), s.b, f(s.b), x) ==>
                  c == if s.a + margin < x < s.b - margin then x else (s.a + s.b) / 2.0)
  {
    if f(s.a) == f(s.b) {
      assert Secant(f, s) == (s.a + s.b) / 2.0;
    } else if OnChord(s.a, f(s.a), s.b, f(s.b), x) {
      ChordZeroIsUnique(s.a, f(s.a), s.b, f(s.b), x);
    }
    hide OnChord, SecantOf;
  }

  lemma ChordZeroIsUnique(a: real, fa: real, b: real, fb: real, x: real)
    requires fa != fb && OnChord(a, fa, b, fb, x)
    ensures SecantOf(a, fa, b, fb) == x
  {
    var d, q := fb - fa, fb * (b - a) / (fb - fa);
    assert q * d == fb * (b - a);
    assert (b - x) * d == fb * (b - a);
    assert (b - x - q) * d == 0.0;
  }

  // A hundredth of the tolerance for every step.
  function Gain(tolerance: real, steps: nat): real {
    0.01 * tolerance * steps as real
  }

  // Every bracket before an answer changes sign, holds its next point strictly inside, and is
  // narrower than the one before by at least a hundredth of the tolerance.
  lemma {:induction false} NarrowingKeepsBracket(f: real -> real, ulp: real -> real, s: Bracket, tolerance: real, n: nat)
    requires SignChange(f, s) && tolerance > 0.0
    requires forall k :: 0 <= k < n ==> Answer(f, ulp, s, tolerance, k) == None
    ensures var now := Narrowed(f, ulp, s, tolerance, n);
            && SignChange(f, now) && s.a <= now.a && now.b <= s.b
            && now.a < Candidate(f, ulp, now, tolerance) < now.b
            && now.Width() + Gain(tolerance, n) <= s.Width()
    ensures n > 0 ==>
              var before, now := Narrowed(f, ulp, s, tolerance, n - 1), Narrowed(f, ulp, s, tolerance, n);
              var c := Candidate(f, ulp, before, tolerance);
              (now == Bracket(before.a, c) || now == Bracket(c, before.b)) && now.Width() < before.Width()
  {
    hide Crosses, Secant, Margin, Gain;
    var now := Narrowed(f, ulp, s, tolerance, n);
    GainStep(tolerance, n);
    if n > 0 {
      NarrowingKeepsBracket(f, ulp, s, tolerance, n - 1);
      var h := Narrowed(f, ulp, s, tolerance, n - 1);
      assert Answer(f, ulp, s, tolerance, n - 1) == None;
      var c := Candidate(f, ulp, h, tolerance);
      Signs(f(h.a), f(c));
      CandidateIsInside(f, ulp, h, tolerance);
    }
    CandidateIsInside(f, ulp, now, tolerance);
  }

  lemma GainStep(t: real, n: nat)
    ensures Gain(t, n) == if n == 0 then 0.0 else Gain(t, n - 1) + 0.01 * t
  {
  }

  lemma BrentFindsRoot(f: real -> real, ulp: real -> real, lower: real, upper: real, tolerance: real, n: nat)
    requires var s := Ordered(lower, upper);
             && SignChange(f, s) && tolerance > 0.0 && Answer(f, ulp, s, tolerance, n).Some?
             && forall k :: 0 <= k < n ==> Answer(f, ulp, s, tolerance, k) == None
    ensures IsRoot(f, Ordered(lower, upper), tolerance, Answer(f, ulp, Ordered(lower, upper), tolerance, n).value)
  {
    var s := Ordered(lower, upper);
    NarrowingKeepsBracket(f, ulp, s, tolerance, n);
    var h := Narrowed(f, ulp, s, tolerance, n);
    assert SignChange(f, h);
  }

  // Whatever the function, each step gains a hundredth of the tolerance, so enough steps succeed.
  lemma BrentConverges(f: real -> real, ulp: real -> real, s: Bracket, tolerance: real, maxIterations: nat)
    requires SignChange(f, s) && tolerance > 0.0 && maxIterations > 0
    requires s.Width() <= tolerance + Gain(tolerance, maxIterations - 1)
    ensures exists n :: 0 <= n < maxIterations && Answer(f, ulp, s, tolerance, n).Some?
  {
    hide Candidate, Gain;
    var last := maxIterations - 1;
    if forall n :: 0 <= n < last ==> Answer(f, ulp, s, tolerance, n) == None {
      NarrowingKeepsBracket(f, ulp, s, tolerance, last);
      assert Answer(f, ulp, s, tolerance, last).Some?;
    }
  }
}
