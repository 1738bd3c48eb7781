/**
  signal_processing_tool.py over exact reals: direct and fast transform, convolution, moving average.
 */
module Fourier {
  import opened Wrappers

  const MAX_DFT_SIGNAL_LENGTH := 4096

  datatype Error = TooLong | NotPowerOfTwo

  // ---------- complex arithmetic ----------

  datatype Complex = Complex(re: real, im: real)

  const ZERO := Complex(0.0, 0.0)

  function Add(a: Complex, b: Complex): Complex {
    Complex(a.re + b.re, a.im + b.im)
  }

  function Sub(a: Complex, b: Complex): Complex {
    Complex(a.re - b.re, a.im - b.im)
  }

  function Mul(a: Complex, b: Complex): Complex {
    Complex(a.re * b.re - a.im * b.im, a.re * b.im + a.im * b.re)
  }

  function Scale(v: real, z: Complex): Complex {
    Complex(v * z.re, v * z.im)
  }

  lemma AddRegroups(a: Complex, b: Complex, c: Complex, d: Complex)
    ensures Add(Add(Add(a, b), c), d) == Add(Add(a, c), Add(b, d))
  {
  }

  lemma MulDistributes(w: Complex, a: Complex, v: real, z: Complex)
    ensures Mul(w, Add(a, Scale(v, z))) == Add(Mul(w, a), Scale(v, Mul(w, z)))
  {
  }

  lemma MulZero(w: Complex)
    ensures Mul(w, ZERO) == ZERO && Add(ZERO, ZERO) == ZERO
  {
  }

  // Multiplying by -w instead of w turns a sum into a difference.
  lemma MulNegates(w: Complex, e: Complex, o: Complex)
    ensures Add(e, Mul(Mul(w, Complex(-1.0, 0.0)), o)) == Sub(e, Mul(w, o))
  {
  }

  // ---------- the trigonometric functions ----------

  // Of cosine, sine and pi only the addition formulas and the value at pi are known.
  datatype Trig = Trig(cos: real -> real, sin: real -> real, pi: real)

  // The addition formulas at one pair of angles.
  ghost predicate AddsAt(t: Trig, x: real, y: real) {
    Cis(t, x + y) == Mul(Cis(t, x), Cis(t, y))
  }

  ghost predicate Lawful(t: Trig) {
    && (forall x, y :: AddsAt(t, x, y))
    && t.cos(t.pi) == -1.0
    && t.sin(t.pi) == 0.0
  }

  function Cis(t: Trig, x: real): Complex {
    Complex(t.cos(x), t.sin(x))
  }

  // -2 pi m / n
  function Angle(t: Trig, n: nat, m: int): real
    requires n > 0
  {
    -2.0 * t.pi * (m as real) / (n as real)
  }

  // e^(-2 pi i m / n)
  function Root(t: Trig, n: nat, m: int): Complex
    requires n > 0
  {
    Cis(t, Angle(t, n, m))
  }

  lemma CisLandmarks(t: Trig)
    requires Lawful(t)
    ensures Cis(t, 0.0) == Complex(1.0, 0.0)
    ensures Cis(t, -t.pi) == Complex(-1.0, 0.0)
    ensures Cis(t, -t.pi - t.pi) == Complex(1.0, 0.0)
  {
    hide Mul;
    var half := Complex(-1.0, 0.0);
    assert Cis(t, t.pi) == half;
    assert AddsAt(t, t.pi, 0.0) && t.pi + 0.0 == t.pi;
    HalfTurnFlips(Cis(t, 0.0));
    assert AddsAt(t, t.pi, -t.pi) && t.pi + -t.pi == 0.0;
    HalfTurnFlips(Cis(t, -t.pi));
    assert AddsAt(t, -t.pi, -t.pi) && -t.pi + -t.pi == -t.pi - t.pi;
    HalfTurnFlips(half);
  }

  lemma HalfTurnFlips(z: Complex)
    ensures Mul(Complex(-1.0, 0.0), z) == Complex(-z.re, -z.im)
  {
  }

  lemma QuotientUnique(p: real, n: real, q: real)
    requires n != 0.0 && q * n == p
    ensures p / n == q
  {
  }

  lemma QuotientsAdd(p: real, q: real, n: real)
    requires n != 0.0
    ensures p / n + q / n == (p + q) / n
  {
  }

  lemma AngleAdds(t: Trig, n: nat, a: int, b: int)
    requires n > 0
    ensures Angle(t, n, a + b) == Angle(t, n, a) + Angle(t, n, b)
  {
    var c := -2.0 * t.pi;
    assert (a + b) as real == a as real + b as real;
    assert c * (a as real + b as real) == c * (a as real) + c * (b as real);
    QuotientsAdd(c * (a as real), c * (b as real), n as real);
  }

  lemma AngleHalves(t: Trig, n: nat, m: int)
    requires n > 0
    ensures Angle(t, 2 * n, 2 * m) == Angle(t, n, m)
  {
    var p, d, q := -2.0 * t.pi * (m as real), n as real, Angle(t, n, m);
    assert q * d == p;
    assert q * (2.0 * d) == 2.0 * (q * d);
    assert -2.0 * t.pi * (2.0 * (m as real)) == 2.0 * p;
    assert (2 * m) as real == 2.0 * (m as real) && (2 * n) as real == 2.0 * d;
    QuotientUnique(2.0 * p, 2.0 * d, q);
  }

  lemma AngleLandmarks(t: Trig, n: nat)
    requires n > 0
    ensures Angle(t, n, 0) == 0.0
    ensures Angle(t, n, n) == -t.pi - t.pi
    ensures Angle(t, 2 * n, n) == -t.pi
  {
    var d := n as real;
    assert -2.0 * t.pi * 0.0 == 0.0;
    QuotientUnique(-2.0 * t.pi * d, d, -t.pi - t.pi);
    assert (2 * n) as real == 2.0 * d;
    assert -t.pi * (2.0 * d) == -2.0 * t.pi * d;
    QuotientUnique(-2.0 * t.pi * d, 2.0 * d, -t.pi);
  }

  lemma AngleOfProduct(t: Trig, n: nat, f: nat, s: nat)
    requires n > 0
    ensures -2.0 * t.pi * (f as real) * (s as real) / (n as real) == Angle(t, n, f * s)
  {
    assert (f * s) as real == (f as real) * (s as real);
    assert -2.0 * t.pi * (f as real) * (s as real) == -2.0 * t.pi * ((f as real) * (s as real));
  }

  // Exponents add.
  lemma RootAdds(t: Trig, n: nat, a: int, b: int)
    requires Lawful(t) && n > 0
    ensures Root(t, n, a + b) == Mul(Root(t, n, a), Root(t, n, b))
  {
    AngleAdds(t, n, a, b);
    assert AddsAt(t, Angle(t, n, a), Angle(t, n, b));
  }

  // Halving both the size and the exponent changes nothing.
  lemma RootHalves(t: Trig, n: nat, m: int)
    requires n > 0
    ensures Root(t, 2 * n, 2 * m) == Root(t, n, m)
  {
    AngleHalves(t, n, m);
  }

  lemma RootLandmarks(t: Trig, n: nat)
    requires Lawful(t) && n > 0
    ensures Root(t, n, 0) == Complex(1.0, 0.0)
    ensures Root(t, n, n) == Complex(1.0, 0.0)
    ensures Root(t, 2 * n, n) == Complex(-1.0, 0.0)
  {
    CisLandmarks(t);
    AngleLandmarks(t, n);
  }

  // A whole number of turns is no turn.
  lemma {:induction false} RootPeriodic(t: Trig, n: nat, j: nat)
    requires Lawful(t) && n > 0
    ensures Root(t, n, n * j) == Complex(1.0, 0.0)
  {
    RootLandmarks(t, n);
    if j == 0 {
      assert n * j == 0;
    } else {
      RootPeriodic(t, n, j - 1);
      assert n * j == n * (j - 1) + n;
      RootAdds(t, n, n * (j - 1), n);
      hide Root, Lawful;
      var one := Complex(1.0, 0.0);
      assert Mul(one, one) == one;
    }
  }

  // ---------- the transform ----------

  // The first `count` terms of frequency `k` in a transform of size `n`.
  function Partial(t: Trig, values: seq<real>, n: nat, k: int, count: nat): Complex
    requires n > 0 && count <= |values|
  {
    if count == 0 then ZERO
    else Add(Partial(t, values, n, k, count - 1),
             Scale(values[count - 1], Root(t, n, k * (count - 1))))
  }

  function Coefficient(t: Trig, values: seq<real>, k: int): Complex
    requires |values| > 0
  {
    Partial(t, values, |values|, k, |values|)
  }

  ghost predicate IsSpectrum(t: Trig, values: seq<real>, spectrum: seq<Complex>) {
    |spectrum| == |values| &&
    forall k :: 0 <= k < |values| ==> spectrum[k] == Coefficient(t, values, k)
  }

  method Dft(t: Trig, values: seq<real>) returns (r: Result<seq<Complex>, Error>)
    ensures r.Success? <==> |values| <= MAX_DFT_SIGNAL_LENGTH
    ensures r.Success? ==> IsSpectrum(t, values, r.value)
    ensures r.Failure? ==> r.error == TooLong
  {
    var size := |values|;
    if size > MAX_DFT_SIGNAL_LENGTH {
      return Failure(TooLong);
    }
    var spectrum: seq<Complex> := [];
    for frequency := 0 to size
      invariant |spectrum| == frequency
      invariant forall k :: 0 <= k < frequency ==> spectrum[k] == Coefficient(t, values, k)
    {
      var total := ZERO;
      for sample := 0 to size
        invariant total == Partial(t, values, size, frequency, sample)
      {
        var angle := -2.0 * t.pi * (frequency as real) * (sample as real) / (size as real);
        AngleOfProduct(t, size, frequency, sample);
        total := Add(total, Scale(values[sample], Complex(t.cos(angle), t.sin(angle))));
      }
      spectrum := spectrum + [total];
    }
    return Success(spectrum);
  }

  // ---------- even/odd splitting ----------

  function Evens(values: seq<real>): (r: seq<real>) {
    seq((|values| + 1) / 2, i requires 0 <= i < (|values| + 1) / 2 => values[2 * i])
  }

  function Odds(values: seq<real>): (r: seq<real>) {
    seq(|values| / 2, i requires 0 <= i < |values| / 2 => values[2 * i + 1])
  }

  // One even and one odd term of the long sum are one term of each short sum.
  lemma {:induction false} PartialSplits(t: Trig, values: seq<real>, h: nat, k: int, m: nat)
    requires Lawful(t) && h > 0 && 2 * m <= |values|
    ensures Partial(t, values, 2 * h, k, 2 * m)
         == Add(Partial(t, Evens(values), h, k, m),
                Mul(Root(t, 2 * h, k), Partial(t, Odds(values), h, k, m)))
  {
    hide Mul, Add, Scale, Root, Lawful;
    var w, even, odd := Root(t, 2 * h, k), Evens(values), Odds(values);
    if m == 0 {
      MulZero(w);
    } else {
      PartialSplits(t, values, h, k, m - 1);
      var z := Root(t, h, k * (m - 1));
      assert Root(t, 2 * h, k * (2 * m - 2)) == z by {
        RootHalves(t, h, k * (m - 1));
        assert k * (2 * m - 2) == 2 * (k * (m - 1));
      }
      assert Root(t, 2 * h, k * (2 * m - 1)) == Mul(w, z) by {
        assert k * (2 * m - 1) == k + k * (2 * m - 2);
        RootAdds(t, 2 * h, k, k * (2 * m - 2));
      }
      var e, o := Partial(t, even, h, k, m - 1), Partial(t, odd, h, k, m - 1);
      assert even[m - 1] == values[2 * m - 2] && odd[m - 1] == values[2 * m - 1];
      var first := Partial(t, values, 2 * h, k, 2 * m - 1);
      assert first == Add(Add(e, Mul(w, o)), Scale(even[m - 1], z)) by {
        assert 2 * m - 2 == 2 * (m - 1);
      }
      assert Partial(t, values, 2 * h, k, 2 * m) == Add(first, Scale(odd[m - 1], Mul(w, z)));
      AddRegroups(e, Mul(w, o), Scale(even[m - 1], z), Scale(odd[m - 1], Mul(w, z)));
      MulDistributes(w, o, odd[m - 1], z);
    }
  }

  // A short transform repeats after its own length.
  lemma {:induction false} PartialPeriodic(t: Trig, values: seq<real>, h: nat, k: nat, m: nat)
    requires Lawful(t) && h > 0 && m <= |values|
    ensures Partial(t, values, h, k + h, m) == Partial(t, values, h, k, m)
  {
    if m > 0 {
      PartialPeriodic(t, values, h, k, m - 1);
      assert (k + h) * (m - 1) == h * (m - 1) + k * (m - 1);
      RootAdds(t, h, h * (m - 1), k * (m - 1));
      RootPeriodic(t, h, m - 1);
    }
  }

  // The butterfly: both halves of a long spectrum from one pair of short coefficients.
  lemma Butterfly(t: Trig, values: seq<real>, k: nat)
    requires Lawful(t) && |values| > 0 && |values| % 2 == 0 && k < |values| / 2
    ensures var twiddle := Mul(Root(t, |values|, k), Coefficient(t, Odds(values), k));
            && Coefficient(t, values, k) == Add(Coefficient(t, Evens(values), k), twiddle)
            && Coefficient(t, values, k + |values| / 2) == Sub(Coefficient(t, Evens(values), k), twiddle)
  {
    hide Mul, Add, Sub, Scale, Root, Lawful, Partial;
    var h := |values| / 2;
    var even, odd := Evens(values), Odds(values);
    PartialSplits(t, values, h, k, h);
    PartialSplits(t, values, h, k + h, h);
    PartialPeriodic(t, even, h, k, h);
    PartialPeriodic(t, odd, h, k, h);
    RootAdds(t, 2 * h, k, h);
    RootLandmarks(t, h);
    MulNegates(Root(t, 2 * h, k), Coefficient(t, even, k), Coefficient(t, odd, k));
  }

  // ---------- the power-of-two test ----------

  function Pow2(k: nat): nat {
    if k == 0 then 1 else 2 * Pow2(k - 1)
  }

  // Bitwise conjunction of two non-negative integers of any width.
  function BitAnd(a: nat, b: nat): nat {
    if a == 0 || b == 0 then 0
    else 2 * BitAnd(a / 2, b / 2) + (if a % 2 == 1 && b % 2 == 1 then 1 else 0)
  }

  predicate IsPowerOfTwo(value: int) {
    value > 0 && BitAnd(value, value - 1) == 0
  }

  lemma {:induction false} BitAndSelf(a: nat)
    ensures BitAnd(a, a) == a
  {
    if a > 0 {
      BitAndSelf(a / 2);
    }
  }

  lemma {:induction false} PowerHasExponent(value: nat) returns (k: nat)
    requires IsPowerOfTwo(value)
    ensures value == Pow2(k)
  {
    if value % 2 == 0 {
      assert (value - 1) / 2 == value / 2 - 1;
      k := PowerHasExponent(value / 2);
      k := k + 1;
    } else {
      if value > 1 {
        assert (value - 1) / 2 == value / 2;
        BitAndSelf(value / 2);
        assert false;
      }
      k := 0;
    }
  }

  lemma {:induction false} ExponentIsPower(k: nat)
    ensures IsPowerOfTwo(Pow2(k))
  {
    if k > 0 {
      ExponentIsPower(k - 1);
      var v := Pow2(k);
      assert v / 2 == Pow2(k - 1) && (v - 1) / 2 == v / 2 - 1 && v % 2 == 0;
    }
  }

  // The bit trick accepts the powers of two and nothing else.
  lemma PowerOfTwoTest(value: int)
    ensures IsPowerOfTwo(value) <==> exists k: nat :: value == Pow2(k)
  {
    if IsPowerOfTwo(value) {
      var k := PowerHasExponent(value);
    }
    if k: nat :| value == Pow2(k) {
      ExponentIsPower(k);
    }
  }

  lemma PowerHalves(value: nat)
    requires IsPowerOfTwo(value) && value != 1
    ensures value % 2 == 0 && value / 2 > 0 && IsPowerOfTwo(value / 2)
  {
    var k := PowerHasExponent(value);
    assert k > 0;
    ExponentIsPower(k - 1);
  }

  // ---------- the fast transform ----------

  lemma SingleSample(t: Trig, values: seq<real>)
    requires Lawful(t) && |values| == 1
    ensures Coefficient(t, values, 0) == Complex(values[0], 0.0)
  {
    RootLandmarks(t, 1);
    assert Partial(t, values, 1, 0, 0) == ZERO;
  }

  method FillButterflies(t: Trig, values: seq<real>, even: seq<Complex>, odd: seq<Complex>)
    returns (r: seq<Complex>)
    requires Lawful(t) && |values| > 0 && |values| % 2 == 0
    requires IsSpectrum(t, Evens(values), even) && IsSpectrum(t, Odds(values), odd)
    ensures IsSpectrum(t, values, r)
  {
    hide Mul, Add, Sub, Coefficient, Lawful;
    var size := |values|;
    var half := size / 2;
    var spectrum := new Complex[size](i => ZERO);
    for index := 0 to half
      invariant forall k :: 0 <= k < index ==> spectrum[k] == Coefficient(t, values, k)
      invariant forall k :: half <= k < half + index ==> spectrum[k] == Coefficient(t, values, k)
    {
      var angle := -2.0 * t.pi * (index as real) / (size as real);
      assert angle == Angle(t, size, index);
      var twiddle := Mul(Complex(t.cos(angle), t.sin(angle)), odd[index]);
      Butterfly(t, values, index);
      spectrum[index] := Add(even[index], twiddle);
      spectrum[index + half] := Sub(even[index], twiddle);
    }
    return spectrum[..];
  }

  method Fft(t: Trig, values: seq<real>) returns (r: Result<seq<Complex>, Error>)
    requires Lawful(t)
    ensures r.Success? <==> exists k: nat :: |values| == Pow2(k)
    ensures r.Success? ==> IsSpectrum(t, values, r.value)
    ensures r.Failure? ==> r.error == NotPowerOfTwo
    decreases |values|
  {
    hide Mul, Add, Sub, Coefficient, Lawful, BitAnd;
    var size := |values|;
    PowerOfTwoTest(size);
    if !IsPowerOfTwo(size) {
      return Failure(NotPowerOfTwo);
    }
    if size == 1 {
      SingleSample(t, values);
      return Success([Complex(values[0], 0.0)]);
    }
    PowerHalves(size);
    PowerOfTwoTest(size / 2);
    var evenResult := Fft(t, Evens(values));
    var oddResult := Fft(t, Odds(values));
    var spectrum := FillButterflies(t, values, evenResult.value, oddResult.value);
    return Success(spectrum);
  }

  // ---------- list kernels ----------

  function Total(values: seq<real>): real {
    if values == [] then 0.0 else Total(values[..|values| - 1]) + values[|values| - 1]
  }

  lemma {:induction false} TotalDropsFirst(values: seq<real>)
    requires values != []
    ensures Total(values) == values[0] + Total(values[1..])
  {
    if |values| > 1 {
      TotalDropsFirst(values[..|values| - 1]);
      assert values[1..][..|values| - 2] == values[..|values| - 1][1..];
    }
  }

  // Sliding the window by one adds the newcomer and removes the oldest.
  lemma WindowSlides(values: seq<real>, start: nat, window: nat)
    requires 0 < window && start + window < |values|
    ensures Total(values[start + 1..start + 1 + window])
         == Total(values[start..start + window]) + values[start + window] - values[start]
  {
    var before := values[start..start + window];
    var both := values[start..start + window + 1];
    assert both[..window] == before && both[1..] == values[start + 1..start + 1 + window];
    TotalDropsFirst(both);
  }

  method SumOf(values: seq<real>) returns (total: real)
    ensures total == Total(values)
  {
    total := 0.0;
    for index := 0 to |values|
      invariant total == Total(values[..index])
    {
      assert values[..index + 1][..index] == values[..index];
      total := total + values[index];
    }
    assert values[..|values|] == values;
  }

  // Every output is the mean of its own window, though the loop carries one running sum.
  method MovingAverage(values: seq<real>, window: nat) returns (result: seq<real>)
    requires 0 < window <= |values|
    ensures |result| == |values| - window + 1
    ensures forall i :: 0 <= i < |result| ==>
              result[i] == Total(values[i..i + window]) / (window as real)
  {
    hide Total;
    var runningSum := SumOf(values[..window]);
    assert values[..window] == values[0..window];
    result := [runningSum / (window as real)];
    for index := window to |values|
      invariant |result| == index - window + 1
      invariant runningSum == Total(values[index - window..index])
      invariant forall i :: 0 <= i < |result| ==>
                  result[i] == Total(values[i..i + window]) / (window as real)
    {
      var start := index - window;
      WindowSlides(values, start, window);
      assert start + window == index && start + 1 + window == index + 1;
      runningSum := runningSum + values[index];
      runningSum := runningSum - values[index - window];
      result := result + [runningSum / (window as real)];
    }
  }

  // What sample `index` contributes to output `k`.
  function Contribution(values: seq<real>, kernel: seq<real>, index: nat, k: nat): real
    requires index < |values|
  {
    if index <= k < index + |kernel| then values[index] * kernel[k - index] else 0.0
  }

  // The convolution sum at `k` over the first `count` samples.
  function ConvolutionSum(values: seq<real>, kernel: seq<real>, count: nat, k: nat): real
    requires count <= |values|
  {
    if count == 0 then 0.0
    else ConvolutionSum(values, kernel, count - 1, k) + Contribution(values, kernel, count - 1, k)
  }

  method Convolution(values: seq<real>, kernel: seq<real>) returns (r: seq<real>)
    requires values != [] && kernel != []
    ensures |r| == |values| + |kernel| - 1
    ensures forall k :: 0 <= k < |r| ==> r[k] == ConvolutionSum(values, kernel, |values|, k)
  {
    var length := |values| + |kernel| - 1;
    var result := new real[length](i => 0.0);
    for index := 0 to |values|
      invariant forall k :: 0 <= k < length ==> result[k] == ConvolutionSum(values, kernel, index, k)
    {
      for kernelIndex := 0 to |kernel|
        invariant forall k :: 0 <= k < length ==> (
                      result[k] == ConvolutionSum(values, kernel, index, k)
                      + (if k < index + kernelIndex then Contribution(values, kernel, index, k) else 0.0))
      {
        var place := index + kernelIndex;
        result[place] := result[place] + values[index] * kernel[kernelIndex];
      }
    }
    return result[..];
  }

  function Power(x: real, k: nat): real {
    if k == 0 then 1.0 else Power(x, k - 1) * x
  }

  // The polynomial with these coefficients, at x, over the first `count` of them.
  function Value(c: seq<real>, x: real, count: nat): real
    requires count <= |c|
  {
    if count == 0 then 0.0 else Value(c, x, count - 1) + c[count - 1] * Power(x, count - 1)
  }

  lemma {:induction false} PowerAdds(x: real, i: nat, j: nat)
    ensures IsProduct(Power(x, i + j), Power(x, i), Power(x, j))
  {
    if j > 0 {
      PowerAdds(x, i, j - 1);
      Regroup(Power(x, i), Power(x, j - 1), x);
    }
  }

  lemma Regroup(a: real, b: real, c: real)
    ensures a * b * c == a * (b * c)
  {
  }

  lemma {:induction false} ValueAdds(a: seq<real>, b: seq<real>, c: seq<real>, x: real, count: nat)
    requires count <= |a| && |a| == |b| == |c| && forall k :: 0 <= k < count ==> c[k] == a[k] + b[k]
    ensures Value(c, x, count) == Value(a, x, count) + Value(b, x, count)
  {
    if count > 0 {
      ValueAdds(a, b, c, x, count - 1);
      Distribute(a[count - 1], b[count - 1], Power(x, count - 1));
    }
  }

  lemma Distribute(a: real, b: real, p: real)
    ensures (a + b) * p == a * p + b * p
  {
  }

  // One sample's contributions are the kernel's polynomial, times the sample and its power of x.
  lemma {:induction false} ContributionValue(values: seq<real>, kernel: seq<real>, index: nat, c: seq<real>, x: real, count: nat)
    requires index < |values| && index <= count <= index + |kernel| && count <= |c|
    requires forall k :: 0 <= k < |c| ==> c[k] == Contribution(values, kernel, index, k)
    ensures IsProduct(Value(c, x, count), Times(values[index], Power(x, index)), Value(kernel, x, count - index))
  {
    if count == index {
      NothingValue(c, x, index);
      hide Power, Value;
      TimesZero(Times(values[index], Power(x, index)));
      assert Value(kernel, x, 0) == 0.0 by {
        NothingValue(kernel, x, 0);
      }
    } else {
      var k := count - 1;
      ContributionValue(values, kernel, index, c, x, k);
      PowerAdds(x, index, k - index);
      ValueUnfolds(c, x, count);
      ValueUnfolds(kernel, x, count - index);
      assert IsProduct(c[k], values[index], kernel[k - index]);
      hide *;
      NextTerm(values[index], Power(x, index), Value(kernel, x, k - index), kernel[k - index], Power(x, k - index), c[k], Power(x, k),
               Value(c, x, k), Value(c, x, count), Value(kernel, x, count - index));
    }
  }

  function Times(a: real, b: real): real {
    a * b
  }

  lemma TimesZero(a: real)
    ensures IsProduct(0.0, a, 0.0)
  {
  }

  lemma ProductCommutes(total: real, a: real, b: real)
    ensures IsProduct(total, a, b) <==> IsProduct(total, b, a)
  {
  }

  ghost predicate LastTerm(total: real, before: real, c: real, p: real) {
    total == before + c * p
  }

  // One product named, so that a proof can pass it on without multiplying out.
  ghost predicate IsProduct(total: real, a: real, b: real) {
    total == a * b
  }

  lemma {:induction false} TrailingZeros(c: seq<real>, x: real, count: nat, more: nat)
    requires count <= more <= |c| && forall k :: count <= k < more ==> c[k] == 0.0
    ensures Value(c, x, more) == Value(c, x, count)
    decreases more
  {
    if more > count {
      TrailingZeros(c, x, count, more - 1);
      assert 0.0 * Power(x, more - 1) == 0.0;
    }
  }

  lemma NextTerm(v: real, p: real, total: real, c: real, q: real, vc: real, pq: real, before: real, after: real, next: real)
    requires IsProduct(vc, v, c) && IsProduct(pq, p, q) && IsProduct(before, Times(v, p), total)
    requires LastTerm(after, before, vc, pq) && LastTerm(next, total, c, q)
    ensures IsProduct(after, Times(v, p), next)
  {
    assert v * c * (p * q) == v * p * (c * q);
  }

  lemma {:induction false} ConvolutionValue(values: seq<real>, kernel: seq<real>, x: real, count: nat, r: seq<real>)
    requires count <= |values| && kernel != [] && |r| == |values| + |kernel| - 1
    requires forall k :: 0 <= k < |r| ==> r[k] == ConvolutionSum(values, kernel, count, k)
    ensures IsProduct(Value(r, x, |r|), Value(values, x, count), Value(kernel, x, |kernel|))
  {
    var n, m := |r|, |kernel|;
    if count == 0 {
      NothingValue(r, x, n);
      TimesZero(Value(kernel, x, m));
      ProductCommutes(0.0, 0.0, Value(kernel, x, m));
    } else {
      var index := count - 1;
      hide Value, Power, Contribution;
      var before := seq(n, k requires 0 <= k < n => ConvolutionSum(values, kernel, index, k));
      var last := seq(n, k requires 0 <= k < n => Contribution(values, kernel, index, k));
      assert forall k :: 0 <= k < n ==> r[k] == before[k] + last[k];
      assert forall k :: index + m <= k < n ==> last[k] == 0.0 by {
        NoLateContribution(values, kernel, index);
      }
      hide *;
      ConvolutionValue(values, kernel, x, index, before);
      ContributionValue(values, kernel, index, last, x, index + m);
      TrailingZeros(last, x, index + m, n);
      ValueAdds(before, last, r, x, n);
      ValueUnfolds(values, x, count);
      Assemble(Value(values, x, index), values[index], Power(x, index), Value(kernel, x, m), Value(values, x, count),
               Value(before, x, n), Value(last, x, n), Value(r, x, n));
    }
  }

  lemma Assemble(a: real, v: real, p: real, k: real, total: real, ak: real, bk: real, sum: real)
    requires LastTerm(total, a, v, p) && IsProduct(ak, a, k) && IsProduct(bk, Times(v, p), k) && sum == ak + bk
    ensures IsProduct(sum, total, k)
  {
  }

  lemma NoLateContribution(values: seq<real>, kernel: seq<real>, index: nat)
    requires index < |values|
    ensures forall k: nat :: k >= index + |kernel| ==> Contribution(values, kernel, index, k) == 0.0
  {
  }

  lemma ValueUnfolds(c: seq<real>, x: real, count: nat)
    requires 0 < count <= |c|
    ensures LastTerm(Value(c, x, count), Value(c, x, count - 1), c[count - 1], Power(x, count - 1))
  {
  }

  lemma {:induction false} NothingValue(c: seq<real>, x: real, count: nat)
    requires count <= |c| && forall k :: 0 <= k < count ==> c[k] == 0.0
    ensures Value(c, x, count) == 0.0
  {
    if count > 0 {
      NothingValue(c, x, count - 1);
      assert 0.0 * Power(x, count - 1) == 0.0;
    }
  }

  // Convolution multiplies polynomials: at every x the result's value is the product of the two.
  lemma ConvolutionMultiplies(values: seq<real>, kernel: seq<real>, r: seq<real>, x: real)
    requires values != [] && kernel != [] && |r| == |values| + |kernel| - 1
    requires forall k :: 0 <= k < |r| ==> r[k] == ConvolutionSum(values, kernel, |values|, k)
    ensures Value(r, x, |r|) == Value(values, x, |values|) * Value(kernel, x, |kernel|)
  {
    ConvolutionValue(values, kernel, x, |values|, r);
  }
}
