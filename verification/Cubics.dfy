/** Cubics, their integrals, and the panel identity behind Simpson's rule and classical Runge-Kutta. */
module Cubics {

  function Prod(a: real, b: real): real {
    a * b
  }

  // The four numbers a cubic's coefficients multiply.
  datatype Basis = Basis(b0: real, b1: real, b2: real, b3: real)

  function Powers(x: real): Basis {
    Basis(1.0, x, x * x, x * x * x)
  }

  function IntegratedPowers(x: real): Basis {
    Basis(x, x * x / 2.0, x * x * x / 3.0, x * x * x * x / 4.0)
  }

  datatype Cubic = Cubic(c0: real, c1: real, c2: real, c3: real) {
    function Mix(b: Basis): real {
      Prod(c0, b.b0) + Prod(c1, b.b1) + Prod(c2, b.b2) + Prod(c3, b.b3)
    }

    function At(x: real): real {
      Mix(Powers(x))
    }

    function Antiderivative(x: real): real {
      Mix(IntegratedPowers(x))
    }
  }

  // Values at the two ends and the middle of a panel, and an integral at its two ends.
  datatype Sample = Sample(u: real, v: real, w: real, q: real, p: real) {
    function Times(c: real): Sample {
      Sample(Prod(c, u), Prod(c, v), Prod(c, w), Prod(c, q), Prod(c, p))
    }

    function Plus(s: Sample): Sample {
      Sample(u + s.u, v + s.v, w + s.w, q + s.q, p + s.p)
    }
  }

  ghost predicate Balanced(h: real, s: Sample) {
    h * (s.u + 4.0 * s.v + s.w) == 3.0 * (s.q - s.p)
  }

  ghost predicate Spaced(x: real, y: real, z: real, h: real) {
    y == x + h && z == x + 2.0 * h
  }

  function Degree(d: nat, x: real, y: real, z: real): Sample
    requires d < 4
  {
    match d
    case 0 => Sample(1.0, 1.0, 1.0, z, x)
    case 1 => Sample(x, y, z, z * z / 2.0, x * x / 2.0)
    case 2 => Sample(x * x, y * y, z * z, z * z * z / 3.0, x * x * x / 3.0)
    case 3 => Sample(x * x * x, y * y * y, z * z * z, z * z * z * z / 4.0, x * x * x * x / 4.0)
  }

  lemma DegreeIsBalanced(d: nat, x: real, y: real, z: real, h: real)
    requires d < 4 && Spaced(x, y, z, h)
    ensures Balanced(h, Degree(d, x, y, z))
  {
    hide Balanced;
    match d {
      case 0 => Constant(x, z, h);
      case 1 => Linear(x, y, z, h);
      case 2 => Quadratic(x, y, z, h);
      case 3 => Cubed(x, y, z, h);
    }
  }

  lemma Constant(x: real, z: real, h: real)
    requires z == x + 2.0 * h
    ensures Balanced(h, Sample(1.0, 1.0, 1.0, z, x))
  {
  }

  lemma Linear(x: real, y: real, z: real, h: real)
    requires Spaced(x, y, z, h)
    ensures Balanced(h, Degree(1, x, y, z))
  {
    assert h * (x + 4.0 * y + z) == 3.0 * (z * z / 2.0 - x * x / 2.0);
  }

  lemma Quadratic(x: real, y: real, z: real, h: real)
    requires Spaced(x, y, z, h)
    ensures Balanced(h, Degree(2, x, y, z))
  {
    assert h * (x * x + 4.0 * (y * y) + z * z) == 3.0 * (z * z * z / 3.0 - x * x * x / 3.0);
  }

  lemma Cubed(x: real, y: real, z: real, h: real)
    requires Spaced(x, y, z, h)
    ensures Balanced(h, Degree(3, x, y, z))
  {
    assert z == x + 2.0 * h && y == x + h;
    assert h * (x * x * x + 4.0 * (y * y * y) + z * z * z) == 3.0 * (z * z * z * z / 4.0 - x * x * x * x / 4.0);
  }

  lemma TimesBalanced(c: real, h: real, s: Sample)
    requires Balanced(h, s)
    ensures Balanced(h, s.Times(c))
  {
    assert h * (c * s.u + 4.0 * (c * s.v) + c * s.w) == c * (h * (s.u + 4.0 * s.v + s.w));
    assert c * (3.0 * (s.q - s.p)) == 3.0 * (c * s.q - c * s.p);
  }

  lemma PlusBalanced(h: real, s: Sample, t: Sample)
    requires Balanced(h, s) && Balanced(h, t)
    ensures Balanced(h, s.Plus(t))
  {
    assert h * ((s.u + t.u) + 4.0 * (s.v + t.v) + (s.w + t.w)) == h * (s.u + 4.0 * s.v + s.w) + h * (t.u + 4.0 * t.v + t.w);
  }

  function PanelOf(c: Cubic, x: real, y: real, z: real): Sample {
    Sample(c.At(x), c.At(y), c.At(z), c.Antiderivative(z), c.Antiderivative(x))
  }

  function MixOf(c: Cubic, x: real, y: real, z: real): Sample {
    Degree(0, x, y, z).Times(c.c0).Plus(Degree(1, x, y, z).Times(c.c1))
    .Plus(Degree(2, x, y, z).Times(c.c2)).Plus(Degree(3, x, y, z).Times(c.c3))
  }

  lemma PanelIsMix(c: Cubic, x: real, y: real, z: real)
    ensures PanelOf(c, x, y, z) == MixOf(c, x, y, z)
  {
    hide Prod;
  }

  // One Simpson panel is exact on a cubic.
  lemma PanelIsExact(c: Cubic, x: real, y: real, z: real, h: real)
    requires Spaced(x, y, z, h)
    ensures Balanced(h, PanelOf(c, x, y, z))
  {
    hide Balanced, Degree, PanelOf, Sample.Times, Sample.Plus;
    var d0, d1, d2, d3 := Degree(0, x, y, z), Degree(1, x, y, z), Degree(2, x, y, z), Degree(3, x, y, z);
    forall d: nat | d < 4 ensures Balanced(h, Degree(d, x, y, z)) {
      DegreeIsBalanced(d, x, y, z, h);
    }
    TimesBalanced(c.c0, h, d0);
    TimesBalanced(c.c1, h, d1);
    TimesBalanced(c.c2, h, d2);
    TimesBalanced(c.c3, h, d3);
    PlusBalanced(h, d0.Times(c.c0), d1.Times(c.c1));
    PlusBalanced(h, d0.Times(c.c0).Plus(d1.Times(c.c1)), d2.Times(c.c2));
    PlusBalanced(h, d0.Times(c.c0).Plus(d1.Times(c.c1)).Plus(d2.Times(c.c2)), d3.Times(c.c3));
    PanelIsMix(c, x, y, z);
  }
}
