/**
  The round trip of the transform of signal_processing_tool.py, for signals of every length.

  The inverse sum over a spectrum is a double sum.  Taken the other way round, each sample comes
  with a geometric sum of one root of unity, which is the length for the sample asked for and 0 for
  every other, because no root before the last turns all the way round.
 */
module Inversion {
  import opened Fourier

  const ONE := Complex(1.0, 0.0)

  // No root of unity before the last turns all the way round, as is true of cosine and sine.
  ghost predicate Primitive(t: Trig, n: nat)
    requires n > 0
  {
    forall d :: 0 < d < n ==> Root(t, n, d) != ONE
  }

  // The sum over the first `count` coefficients that gives sample j back.
  function Inverse(t: Trig, spectrum: seq<Complex>, n: nat, j: int, count: nat): Complex
    requires n > 0 && count <= |spectrum|
  {
    if count == 0 then ZERO
    else Add(Inverse(t, spectrum, n, j, count - 1), Mul(spectrum[count - 1], Root(t, n, (count - 1) * -j)))
  }

  // The sum of the first `count` powers of one root.
  function Geometric(t: Trig, n: nat, d: int, count: nat): Complex
    requires n > 0
  {
    if count == 0 then ZERO else Add(Geometric(t, n, d, count - 1), Root(t, n, (count - 1) * d))
  }

  lemma {:induction false} GeometricTelescopes(t: Trig, n: nat, d: int, count: nat)
    requires Lawful(t) && n > 0
    ensures Mul(Sub(Root(t, n, d), ONE), Geometric(t, n, d, count)) == Sub(Root(t, n, count * d), ONE)
  {
    RootLandmarks(t, n);
    if count == 0 {
      assert 0 * d == 0;
    } else {
      var k := count - 1;
      GeometricTelescopes(t, n, d, k);
      RootAdds(t, n, d, k * d);
      assert d + k * d == count * d;
      hide Root;
      Telescope(Root(t, n, d), Geometric(t, n, d, k), Root(t, n, k * d));
    }
  }

  lemma Telescope(w: Complex, g: Complex, z: Complex)
    requires Mul(Sub(w, ONE), g) == Sub(z, ONE)
    ensures Mul(Sub(w, ONE), Add(g, z)) == Sub(Mul(w, z), ONE)
  {
    assert Mul(Sub(w, ONE), Add(g, z)) == Add(Mul(Sub(w, ONE), g), Mul(Sub(w, ONE), z));
    assert Mul(Sub(w, ONE), z) == Sub(Mul(w, z), z);
  }

  lemma NoZeroDivisors(z: Complex, g: Complex)
    requires Mul(z, g) == ZERO && z != ZERO
    ensures g == ZERO
  {
    ZeroProduct(z.re, z.im, g.re, g.im);
  }

  lemma ZeroProduct(a: real, b: real, c: real, d: real)
    requires a != 0.0 || b != 0.0
    requires a * c - b * d == 0.0 && a * d + b * c == 0.0
    ensures c == 0.0 && d == 0.0
  {
    Combine(a, b, c, d);
    NormIsPositive(a, b);
    hide Norm;
    OnlyZero(Norm(a, b), c);
    OnlyZero(Norm(a, b), d);
  }

  function Norm(a: real, b: real): real {
    a * a + b * b
  }

  lemma Combine(a: real, b: real, c: real, d: real)
    requires a * c == b * d && a * d == -(b * c)
    ensures Norm(a, b) * c == 0.0 && Norm(a, b) * d == 0.0
  {
    assert a * a * c == a * (b * d) == b * (a * d) == -(b * b * c);
    assert a * a * d == a * -(b * c) == -(b * (a * c)) == -(b * b * d);
  }

  lemma NormIsPositive(a: real, b: real)
    requires a != 0.0 || b != 0.0
    ensures Norm(a, b) > 0.0
  {
    var p, q := a * a, b * b;
    assert Norm(a, b) == p + q;
    SquareIsPositive(a, p);
    SquareIsPositive(b, q);
  }

  lemma SquareIsPositive(a: real, p: real)
    requires p == a * a
    ensures p >= 0.0 && (a != 0.0 ==> p > 0.0)
  {
    if a != 0.0 {
      SameSigns(a, a, p);
    }
  }

  lemma SameSigns(a: real, b: real, p: real)
    requires p == a * b && ((a > 0.0 && b > 0.0) || (a < 0.0 && b < 0.0))
    ensures p > 0.0
  {
  }

  lemma OnlyZero(a: real, b: real)
    requires a > 0.0 && a * b == 0.0
    ensures b == 0.0
  {
  }

  lemma {:induction false} GeometricOfOne(t: Trig, n: nat, count: nat)
    requires Lawful(t) && n > 0
    ensures Geometric(t, n, 0, count) == Complex(count as real, 0.0)
  {
    RootLandmarks(t, n);
    if count > 0 {
      GeometricOfOne(t, n, count - 1);
      assert (count - 1) * 0 == 0;
    }
  }

  // The powers of a root other than 1 sum to 0 over a whole turn.
  lemma GeometricVanishes(t: Trig, n: nat, d: int)
    requires Lawful(t) && n > 0 && Primitive(t, n) && 0 < d + n && d < n && d != 0
    ensures Geometric(t, n, d, n) == ZERO
  {
    hide *;
    GeometricTelescopes(t, n, d, n);
    TurnIsOne(t, n, d);
    PrimitiveBack(t, n, d);
    Differences(Root(t, n, d));
    NoZeroDivisors(Sub(Root(t, n, d), ONE), Geometric(t, n, d, n));
  }

  lemma Differences(w: Complex)
    ensures Sub(ONE, ONE) == ZERO && (Sub(w, ONE) == ZERO ==> w == ONE)
  {
  }

  lemma TurnIsOne(t: Trig, n: nat, d: int)
    requires Lawful(t) && n > 0
    ensures Root(t, n, n * d) == ONE
  {
    var e: int := if d > 0 then d else -d;
    RootPeriodic(t, n, e);
    Opposite(t, n, n * e);
    assert n * -e == -(n * e);
  }

  lemma PrimitiveBack(t: Trig, n: nat, d: int)
    requires Lawful(t) && n > 0 && Primitive(t, n) && 0 < d + n && d < n && d != 0
    ensures Root(t, n, d) != ONE
  {
    var e: int := if d > 0 then d else -d;
    Opposite(t, n, e);
    hide Root;
    assert Root(t, n, e) != ONE;
  }

  lemma Opposite(t: Trig, n: nat, e: int)
    requires Lawful(t) && n > 0
    ensures Root(t, n, -e) == ONE <==> Root(t, n, e) == ONE
  {
    RootAdds(t, n, e, -e);
    RootLandmarks(t, n);
    hide Root;
    assert Mul(Root(t, n, e), Root(t, n, -e)) == ONE;
    assert forall z: Complex {:trigger Mul(ONE, z)} :: Mul(ONE, z) == z;
    assert forall z: Complex {:trigger Mul(z, ONE)} :: Mul(z, ONE) == z;
  }

  // The inverse sum over transforms cut off after `terms` terms.
  function Undone(t: Trig, values: seq<real>, n: nat, j: int, terms: nat, count: nat): Complex
    requires n > 0 && terms <= |values|
  {
    if count == 0 then ZERO
    else Add(Undone(t, values, n, j, terms, count - 1), Mul(Partial(t, values, n, count - 1, terms), Root(t, n, (count - 1) * -j)))
  }

  // One more term adds its sample, times a geometric sum.
  lemma {:induction false} UndoneStep(t: Trig, values: seq<real>, n: nat, j: int, terms: nat, count: nat)
    requires Lawful(t) && n > 0 && terms < |values|
    ensures Undone(t, values, n, j, terms + 1, count)
         == Add(Undone(t, values, n, j, terms, count), Scale(values[terms], Geometric(t, n, terms - j, count)))
  {
    hide *;
    if count == 0 {
      UndoneStart(t, values, n, j, terms);
    } else {
      var k := count - 1;
      UndoneStep(t, values, n, j, terms, k);
      RootOfDifference(t, n, k, terms, j);
      UndoneUnfolds(t, values, n, j, terms, count);
      UndoneUnfolds(t, values, n, j, terms + 1, count);
      PartialUnfolds(t, values, n, k, terms);
      OneMoreTerm(Undone(t, values, n, j, terms, k), Geometric(t, n, terms - j, k), Partial(t, values, n, k, terms),
                  values[terms], RootAt(t, n, k, terms), RootAt(t, n, k, -j), RootAt(t, n, k, terms - j));
    }
  }

  lemma UndoneStart(t: Trig, values: seq<real>, n: nat, j: int, terms: nat)
    requires n > 0 && terms < |values|
    ensures Undone(t, values, n, j, terms + 1, 0)
         == Add(Undone(t, values, n, j, terms, 0), Scale(values[terms], Geometric(t, n, terms - j, 0)))
  {
    assert values[terms] * 0.0 == 0.0;
  }

  function RootAt(t: Trig, n: nat, k: int, m: int): Complex
    requires n > 0
  {
    Root(t, n, k * m)
  }

  lemma RootOfDifference(t: Trig, n: nat, k: nat, terms: nat, j: int)
    requires Lawful(t) && n > 0
    ensures RootAt(t, n, k, terms - j) == Mul(RootAt(t, n, k, terms), RootAt(t, n, k, -j))
  {
    RootAdds(t, n, k * terms, k * -j);
    assert k * terms + k * -j == k * (terms - j);
  }

  lemma UndoneUnfolds(t: Trig, values: seq<real>, n: nat, j: int, terms: nat, count: nat)
    requires n > 0 && 0 < count && terms <= |values|
    ensures var k := count - 1;
            && Undone(t, values, n, j, terms, count)
               == Add(Undone(t, values, n, j, terms, k), Mul(Partial(t, values, n, k, terms), RootAt(t, n, k, -j)))
            && Geometric(t, n, terms - j, count) == Add(Geometric(t, n, terms - j, k), RootAt(t, n, k, terms - j))
  {
    hide Add, Mul, Root;
  }

  lemma PartialUnfolds(t: Trig, values: seq<real>, n: nat, k: int, count: nat)
    requires n > 0 && count < |values|
    ensures Partial(t, values, n, k, count + 1) == Add(Partial(t, values, n, k, count), Scale(values[count], RootAt(t, n, k, count)))
  {
    hide Add, Scale, Root;
  }

  lemma OneMoreTerm(u: Complex, g: Complex, p: Complex, v: real, w: Complex, z: Complex, wz: Complex)
    requires wz == Mul(w, z)
    ensures Add(Add(u, Scale(v, g)), Mul(Add(p, Scale(v, w)), z)) == Add(Add(u, Mul(p, z)), Scale(v, Add(g, wz)))
  {
    MulDistributes(z, p, v, w);
    Commutes(z, Add(p, Scale(v, w)));
    Commutes(z, p);
    Commutes(z, w);
    hide Mul;
    ScaleAdds(v, g, wz);
  }

  lemma Commutes(a: Complex, b: Complex)
    ensures Mul(a, b) == Mul(b, a)
  {
  }

  lemma ScaleAdds(v: real, a: Complex, b: Complex)
    ensures Scale(v, Add(a, b)) == Add(Scale(v, a), Scale(v, b))
  {
  }

  lemma {:induction false} UndoneGives(t: Trig, values: seq<real>, j: nat, terms: nat)
    requires Lawful(t) && j < |values| && Primitive(t, |values|) && terms <= |values|
    ensures Undone(t, values, |values|, j, terms, |values|)
         == if j < terms then Complex(|values| as real * values[j], 0.0) else ZERO
  {
    hide *;
    var n := |values|;
    if terms == 0 {
      NothingUndone(t, values, n, j, n);
    } else {
      var m := terms - 1;
      UndoneGives(t, values, j, m);
      UndoneStep(t, values, n, j, m, n);
      if m == j {
        GeometricOfOne(t, n, n);
        AddSample(values[j], n as real);
      } else {
        GeometricVanishes(t, n, m - j);
        AddNothing(Undone(t, values, n, j, m, n), values[m]);
      }
    }
  }

  lemma AddSample(v: real, n: real)
    ensures Add(ZERO, Scale(v, Complex(n, 0.0))) == Complex(n * v, 0.0)
  {
    assert v * 0.0 == 0.0;
  }

  lemma AddNothing(z: Complex, v: real)
    ensures Add(z, Scale(v, ZERO)) == z
  {
    assert v * 0.0 == 0.0;
  }

  lemma {:induction false} NothingUndone(t: Trig, values: seq<real>, n: nat, j: int, count: nat)
    requires n > 0
    ensures Undone(t, values, n, j, 0, count) == ZERO
  {
    if count > 0 {
      NothingUndone(t, values, n, j, count - 1);
      hide Root;
    }
  }

  lemma {:induction false} InverseIsUndone(t: Trig, values: seq<real>, spectrum: seq<Complex>, j: int, count: nat)
    requires values != [] && IsSpectrum(t, values, spectrum) && count <= |values|
    ensures Inverse(t, spectrum, |values|, j, count) == Undone(t, values, |values|, j, |values|, count)
  {
    if count > 0 {
      InverseIsUndone(t, values, spectrum, j, count - 1);
    }
  }

  // The round trip, for signals of every length: the inverse sum over a signal's spectrum, divided by
  // the length, is the signal.
  lemma SpectrumDeterminesSignal(t: Trig, values: seq<real>, spectrum: seq<Complex>, j: nat)
    requires Lawful(t) && j < |values| && Primitive(t, |values|) && IsSpectrum(t, values, spectrum)
    ensures Inverse(t, spectrum, |values|, j, |values|) == Complex(|values| as real * values[j], 0.0)
  {
    InverseIsUndone(t, values, spectrum, j, |values|);
    UndoneGives(t, values, j, |values|);
  }
}
