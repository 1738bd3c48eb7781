/**
  The inverse and the determinant of matrix_math_tool.py over exact reals, with partial pivoting and
  the source's absolute tolerance on pivots and factors.
 */
module Matrices {
  import opened Determinants
  import opened Vectors
  import opened Wrappers

  datatype Error = Malformed | Incompatible | NotSquare | Singular

  // math.isclose(x, 0.0, abs_tol=1e-15): the default relative tolerance never decides against 0.
  const TOLERANCE := 0.000000000000001

  function Abs(x: real): real {
    if x < 0.0 then -x else x
  }

  predicate IsClose(x: real) {
    Abs(x) <= TOLERANCE
  }

  // ---------- pivots ----------

  // The first position of an entry of greatest magnitude.
  function ArgMax(column: seq<real>): (p: nat)
    requires column != []
    ensures p < |column|
    ensures forall i :: 0 <= i < |column| ==> Abs(column[i]) <= Abs(column[p])
    ensures forall i :: 0 <= i < p ==> Abs(column[i]) < Abs(column[p])
  {
    if |column| == 1 then 0
    else
      var p := ArgMax(column[..|column| - 1]);
      if Abs(column[|column| - 1]) > Abs(column[p]) then |column| - 1 else p
  }

  // Entries of a column from row `from` down.
  function Below(m: Matrix, from: nat, column: nat): (r: seq<real>)
    requires from <= |m| && forall i :: 0 <= i < |m| ==> column < |m[i]|
    ensures |r| == |m| - from && forall i :: 0 <= i < |r| ==> r[i] == m[from + i][column]
  {
    seq(|m| - from, i requires 0 <= i < |m| - from => m[from + i][column])
  }

  function ScaleRow(row: Vector, pivotValue: real): (r: Vector)
    requires pivotValue != 0.0
    ensures |r| == |row| && forall c :: 0 <= c < |r| ==> r[c] == row[c] / pivotValue
  {
    seq(|row|, c requires 0 <= c < |row| => row[c] / pivotValue)
  }

  function Column(m: Matrix, c: nat): (r: Vector)
    requires forall i :: 0 <= i < |m| ==> c < |m[i]|
    ensures |r| == |m| && forall i :: 0 <= i < |r| ==> r[i] == m[i][c]
  {
    seq(|m|, i requires 0 <= i < |m| => m[i][c])
  }

  function Delta(i: int, j: int): real {
    if i == j then 1.0 else 0.0
  }

  function Identity(n: nat): (m: Matrix)
    ensures Square(m, n) && forall i, j :: 0 <= i < n && 0 <= j < n ==> m[i][j] == Delta(i, j)
  {
    seq(n, i requires 0 <= i < n => seq(n, j requires 0 <= j < n => Delta(i, j)))
  }

  function Multiply(a: Matrix, b: Matrix, rows: nat, inner: nat, columns: nat): (m: Matrix)
    requires Shape(a, rows, inner) && Shape(b, inner, columns)
    ensures Shape(m, rows, columns)
    ensures forall i, j :: 0 <= i < rows && 0 <= j < columns ==> m[i][j] == Dot(a[i], Column(b, j))
  {
    seq(rows, i requires 0 <= i < rows => RowTimes(a[i], b, columns))
  }

  function RowTimes(row: Vector, b: Matrix, columns: nat): (r: Vector)
    requires Shape(b, |row|, columns)
    ensures |r| == columns && forall j :: 0 <= j < columns ==> r[j] == Dot(row, Column(b, j))
  {
    seq(columns, j requires 0 <= j < columns => Dot(row, Column(b, j)))
  }

  // ---------- sums of products ----------

  lemma {:induction false} DotUnit(u: Vector, v: Vector, p: nat)
    requires |u| == |v| && p < |u| && forall i :: 0 <= i < |v| ==> v[i] == Delta(i, p)
    ensures Dot(u, v) == u[p]
  {
    hide AddProduct;
    var n := |u| - 1;
    AddProductIs(Dot(u[..n], v[..n]), u[n], v[n]);
    if p < n {
      DotUnit(u[..n], v[..n], p);
    } else {
      DotZero(u[..n], v[..n]);
    }
  }

  ghost predicate Ratio(x: real, a: real, b: real)
    requires b != 0.0
  {
    x == a / b
  }

  lemma {:induction false} DotScale(u: Vector, f: real, w: Vector)
    requires |u| == |w| && f != 0.0
    ensures Ratio(Dot(ScaleRow(u, f), w), Dot(u, w), f)
  {
    if u != [] {
      var n := |u| - 1;
      var s := ScaleRow(u, f);
      assert s[..n] == ScaleRow(u[..n], f) && Ratio(s[n], u[n], f);
      DotScale(u[..n], f, w[..n]);
      DotStep(u, w);
      DotStep(s, w);
      hide *;
    }
  }

  // ---------- multiplication ----------

  predicate WellFormed(m: Matrix) {
    m != [] && m[0] != [] && forall i :: 0 <= i < |m| ==> |m[i]| == |m[0]|
  }

  function MatrixMultiply(left: Matrix, right: Matrix): (r: Result<Matrix, Error>)
    ensures r.Success? ==> WellFormed(left) && WellFormed(right) && |left[0]| == |right|
    ensures r.Success? ==> Shape(r.value, |left|, |right[0]|)
  {
    if !WellFormed(left) || !WellFormed(right) then Failure(Malformed)
    else if |left[0]| != |right| then Failure(Incompatible)
    else Success(Multiply(left, right, |left|, |right|, |right[0]|))
  }

  // Which products are formed, and every entry of one.
  lemma MultipliesExactly(left: Matrix, right: Matrix)
    ensures var r := MatrixMultiply(left, right);
            && (r == Failure(Malformed) <==> !WellFormed(left) || !WellFormed(right))
            && (r.Success? <==> WellFormed(left) && WellFormed(right) && |left[0]| == |right|)
            && (r.Success? ==>
                  && |r.value| == |left|
                  && forall i :: 0 <= i < |left| ==>
                       && |r.value[i]| == |right[0]|
                       && forall j :: 0 <= j < |right[0]| ==> r.value[i][j] == Dot(left[i], Column(right, j)))
  {
    hide Dot;
  }

  // The identity is neutral on both sides.
  lemma IdentityIsNeutral(a: Matrix, rows: nat, columns: nat)
    requires Shape(a, rows, columns)
    ensures Multiply(a, Identity(columns), rows, columns, columns) == a
    ensures Multiply(Identity(rows), a, rows, rows, columns) == a
  {
    hide Dot;
    var right, left := Multiply(a, Identity(columns), rows, columns, columns), Multiply(Identity(rows), a, rows, rows, columns);
    forall i | 0 <= i < rows ensures right[i] == a[i] && left[i] == a[i] {
      forall j | 0 <= j < columns ensures right[i][j] == a[i][j] && left[i][j] == a[i][j] {
        DotUnit(a[i], Column(Identity(columns), j), j);
        DotCommutes(Identity(rows)[i], Column(a, j));
        DotUnit(Column(a, j), Identity(rows)[i], i);
      }
    }
    assert right == a && left == a;
  }

  function TimesColumn(b: Matrix, w: Vector, rows: nat): (r: Vector)
    requires Shape(b, rows, |w|)
    ensures |r| == rows && forall l :: 0 <= l < rows ==> r[l] == Dot(b[l], w)
  {
    seq(rows, l requires 0 <= l < rows => Dot(b[l], w))
  }

  // The double sum taken in either order.
  lemma {:induction false} SumsExchange(q: Vector, b: Matrix, w: Vector)
    requires Shape(b, |q|, |w|)
    ensures Dot(RowTimes(q, b, |w|), w) == Dot(q, TimesColumn(b, w, |q|))
  {
    hide *;
    var k := |q|;
    if k == 0 {
      NoTerms(q, b, w);
    } else {
      InitShape(b, k, |w|);
      var q', b', x, row := q[..k - 1], b[..k - 1], q[k - 1], b[k - 1];
      SumsExchange(q', b', w);
      RowStep(q, b, |w|);
      DotLinear(RowTimes(q', b', |w|), x, row, w);
      TimesStep(q, b, w);
      SameSum(Dot(RowTimes(q, b, |w|), w), Dot(q, TimesColumn(b, w, k)), Dot(q', TimesColumn(b', w, k - 1)), x, Dot(row, w));
    }
  }

  lemma InitShape(b: Matrix, rows: nat, columns: nat)
    requires Shape(b, rows, columns) && rows > 0
    ensures |b| == rows && Shape(b[..rows - 1], rows - 1, columns) && |b[rows - 1]| == columns
  {
  }

  lemma NoTerms(q: Vector, b: Matrix, w: Vector)
    requires Shape(b, |q|, |w|) && q == []
    ensures Dot(RowTimes(q, b, |w|), w) == Dot(q, TimesColumn(b, w, |q|))
  {
    var row := RowTimes(q, b, |w|);
    assert forall j :: 0 <= j < |w| ==> row[j] == 0.0;
    DotCommutes(row, w);
    DotZero(w, row);
  }

  lemma TimesStep(q: Vector, b: Matrix, w: Vector)
    requires Shape(b, |q|, |w|) && q != []
    ensures var k := |q|;
            LinearAt(Dot(q, TimesColumn(b, w, k)), Dot(q[..k - 1], TimesColumn(b[..k - 1], w, k - 1)),
                     q[k - 1], Dot(b[k - 1], w))
  {
    hide *;
    var k := |q|;
    InitShape(b, k, |w|);
    TimesInit(b, w, k);
    DotStep(q, TimesColumn(b, w, k));
  }

  lemma TimesInit(b: Matrix, w: Vector, rows: nat)
    requires Shape(b, rows, |w|) && rows > 0
    ensures TimesColumn(b, w, rows)[..rows - 1] == TimesColumn(b[..rows - 1], w, rows - 1)
    ensures TimesColumn(b, w, rows)[rows - 1] == Dot(b[rows - 1], w)
  {
    hide Dot;
  }

  lemma RowStep(q: Vector, b: Matrix, columns: nat)
    requires Shape(b, |q|, columns) && q != []
    ensures RowTimes(q, b, columns) ==
            AddScaled(RowTimes(q[..|q| - 1], b[..|q| - 1], columns), q[|q| - 1], b[|q| - 1])
  {
    var k := |q|;
    var left, right := RowTimes(q, b, columns), AddScaled(RowTimes(q[..k - 1], b[..k - 1], columns), q[k - 1], b[k - 1]);
    forall j | 0 <= j < columns ensures left[j] == right[j] {
      assert Column(b, j)[..k - 1] == Column(b[..k - 1], j);
    }
  }

  lemma MultiplyAssociates(a: Matrix, b: Matrix, c: Matrix, m: nat, k: nat, l: nat, n: nat)
    requires Shape(a, m, k) && Shape(b, k, l) && Shape(c, l, n)
    ensures Multiply(Multiply(a, b, m, k, l), c, m, l, n) == Multiply(a, Multiply(b, c, k, l, n), m, k, n)
  {
    var ab, bc := Multiply(a, b, m, k, l), Multiply(b, c, k, l, n);
    var left, right := Multiply(ab, c, m, l, n), Multiply(a, bc, m, k, n);
    forall i | 0 <= i < m ensures left[i] == right[i] {
      forall j | 0 <= j < n ensures left[i][j] == right[i][j] {
        SumsExchange(a[i], b, Column(c, j));
        assert ab[i] == RowTimes(a[i], b, l);
        assert Column(bc, j) == TimesColumn(b, Column(c, j), k);
      }
    }
  }

  // ---------- Gauss-Jordan ----------

  function Augment(a: Matrix, n: nat): (w: Matrix)
    requires Square(a, n)
    ensures Shape(w, n, 2 * n)
    ensures forall i :: 0 <= i < n ==> w[i][..n] == a[i] && w[i][n..] == Identity(n)[i]
  {
    var w := seq(n, i requires 0 <= i < n => a[i] + Identity(n)[i]);
    assert forall i :: 0 <= i < n ==> w[i][..n] == a[i] && w[i][n..] == Identity(n)[i];
    w
  }

  function PivotRow(work: Matrix, pivot: nat): (p: nat)
    requires pivot < |work| && forall i :: 0 <= i < |work| ==> pivot < |work[i]|
    ensures pivot <= p < |work|
    ensures forall i :: pivot <= i < |work| ==> Abs(work[i][pivot]) <= Abs(work[p][pivot])
  {
    var column := Below(work, pivot, pivot);
    assert forall i :: pivot <= i < |work| ==> work[i][pivot] == column[i - pivot];
    pivot + ArgMax(column)
  }

  predicate Stuck(work: Matrix, n: nat, pivot: nat)
    requires Shape(work, n, 2 * n) && pivot < n
  {
    IsClose(work[PivotRow(work, pivot)][pivot])
  }

  // The pivot row swapped into place and divided by its pivot.
  function Normalized(work: Matrix, n: nat, pivot: nat): (w: Matrix)
    requires Shape(work, n, 2 * n) && pivot < n && !Stuck(work, n, pivot)
    ensures Shape(w, n, 2 * n)
  {
    var s := SwapRows(work, pivot, PivotRow(work, pivot));
    s[pivot := ScaleRow(s[pivot], s[pivot][pivot])]
  }

  lemma NormalizedRows(work: Matrix, n: nat, pivot: nat)
    requires Shape(work, n, 2 * n) && pivot < n && !Stuck(work, n, pivot)
    ensures var p := PivotRow(work, pivot);
            var s := Normalized(work, n, pivot);
            forall i :: 0 <= i < n ==>
              s[i] == if i == pivot then ScaleRow(work[p], work[p][pivot]) else if i == p then work[pivot] else work[i]
  {
  }

  // A factor within the tolerance of 0 leaves its row alone.
  function ClearedRow(work: Matrix, n: nat, pivot: nat, i: nat): (row: Vector)
    requires Shape(work, n, 2 * n) && pivot < n && i < n
    ensures |row| == 2 * n
  {
    if i == pivot || IsClose(work[i][pivot]) then work[i]
    else AddScaled(work[i], -work[i][pivot], work[pivot])
  }

  function Cleared(work: Matrix, n: nat, pivot: nat): (w: Matrix)
    requires Shape(work, n, 2 * n) && pivot < n
    ensures Shape(w, n, 2 * n)
    ensures forall i :: 0 <= i < n ==> w[i] == ClearedRow(work, n, pivot, i)
  {
    seq(n, i requires 0 <= i < n => ClearedRow(work, n, pivot, i))
  }

  // One turn of the outer loop.
  function Turn(work: Matrix, n: nat, pivot: nat): (w: Matrix)
    requires Shape(work, n, 2 * n) && pivot < n && !Stuck(work, n, pivot)
    ensures Shape(w, n, 2 * n)
  {
    Cleared(Normalized(work, n, pivot), n, pivot)
  }

  function Reduce(work: Matrix, n: nat, pivot: nat): (r: Result<Matrix, Error>)
    requires Shape(work, n, 2 * n) && pivot <= n
    ensures r.Success? ==> Shape(r.value, n, 2 * n)
    ensures r.Failure? ==> r.error == Singular
    decreases n - pivot
  {
    if pivot == n then Success(work)
    else if Stuck(work, n, pivot) then Failure(Singular)
    else Reduce(Turn(work, n, pivot), n, pivot + 1)
  }

  function RightHalf(work: Matrix, n: nat): (r: Matrix)
    requires Shape(work, n, 2 * n)
    ensures Square(r, n) && forall i :: 0 <= i < n ==> r[i] == work[i][n..]
  {
    seq(n, i requires 0 <= i < n => work[i][n..])
  }

  function LeftHalf(work: Matrix, n: nat): (l: Matrix)
    requires Shape(work, n, 2 * n)
    ensures Square(l, n) && forall i :: 0 <= i < n ==> l[i] == work[i][..n]
  {
    seq(n, i requires 0 <= i < n => work[i][..n])
  }

  function Inverse(a: Matrix, n: nat): (r: Result<Matrix, Error>)
    requires Square(a, n)
    ensures r.Success? ==> Square(r.value, n)
  {
    var r := Reduce(Augment(a, n), n, 0);
    if r.Failure? then Failure(r.error) else Success(RightHalf(r.value, n))
  }

  // The rows other than the pivot row, each against the pivot row as it stands.
  method ClearColumn(work: array<Vector>, n: nat, pivot: nat)
    requires Shape(work[..], n, 2 * n) && pivot < n
    modifies work
    ensures work[..] == Cleared(old(work[..]), n, pivot)
  {
    ghost var start := work[..];
    for row := 0 to n
      invariant forall i :: 0 <= i < row ==> work[i] == ClearedRow(start, n, pivot, i)
      invariant forall i :: row <= i < n ==> work[i] == start[i]
      invariant work[pivot] == start[pivot]
    {
      if row != pivot {
        var factor := work[row][pivot];
        if !IsClose(factor) {
          var cleared := AddScaled(work[row], -factor, work[pivot]);
          assert cleared == ClearedRow(start, n, pivot, row);
          hide *;
          work[row] := cleared;
        }
      }
    }
    assert work[..] == Cleared(start, n, pivot);
  }

  method NormalizePivot(work: array<Vector>, n: nat, pivot: nat, p: nat)
    requires Shape(work[..], n, 2 * n) && pivot < n
    requires p == PivotRow(work[..], pivot) && !IsClose(work[p][pivot])
    modifies work
    ensures work[..] == Normalized(old(work[..]), n, pivot)
  {
    ghost var start := work[..];
    hide PivotRow;
    if p != pivot {
      work[pivot], work[p] := work[p], work[pivot];
    }
    assert work[..] == SwapRows(start, pivot, p);
    work[pivot] := ScaleRow(work[pivot], work[pivot][pivot]);
  }

  lemma ReduceStep(work: Matrix, n: nat, pivot: nat)
    requires Shape(work, n, 2 * n) && pivot < n
    ensures IsClose(work[PivotRow(work, pivot)][pivot]) ==> Reduce(work, n, pivot) == Failure(Singular)
    ensures !IsClose(work[PivotRow(work, pivot)][pivot]) ==>
              Reduce(work, n, pivot) == Reduce(Cleared(Normalized(work, n, pivot), n, pivot), n, pivot + 1)
  {
    hide PivotRow, IsClose, Cleared, Normalized;
  }

  method MatrixInverse(values: Matrix) returns (r: Result<Matrix, Error>)
    ensures !WellFormed(values) ==> r == Failure(Malformed)
    ensures WellFormed(values) && |values| != |values[0]| ==> r == Failure(NotSquare)
    ensures WellFormed(values) && |values| == |values[0]| ==> r == Inverse(values, |values|)
  {
    if !WellFormed(values) {
      return Failure(Malformed);
    }
    var n := |values|;
    if n != |values[0]| {
      return Failure(NotSquare);
    }
    r := InverseOf(values, n);
  }

  lemma ShapeRows(m: Matrix, rows: nat, columns: nat)
    requires Shape(m, rows, columns)
    ensures |m| == rows && forall i :: 0 <= i < rows ==> |m[i]| == columns
  {
  }

  lemma InverseIs(a: Matrix, n: nat, last: Result<Matrix, Error>)
    requires Square(a, n) && Reduce(Augment(a, n), n, 0) == last
    ensures last.Success? ==> Shape(last.value, n, 2 * n) && Inverse(a, n) == Success(RightHalf(last.value, n))
    ensures last.Failure? ==> Inverse(a, n) == Failure(last.error)
  {
    hide Reduce, Augment, RightHalf;
  }

  lemma ReduceEnds(work: Matrix, n: nat)
    requires Shape(work, n, 2 * n)
    ensures Reduce(work, n, n) == Success(work)
  {
  }

  method InverseOf(values: Matrix, n: nat) returns (r: Result<Matrix, Error>)
    requires Square(values, n)
    ensures r == Inverse(values, n)
  {
    hide *;
    var initial := Augment(values, n);
    ShapeRows(initial, n, 2 * n);
    var work := new Vector[n](i requires 0 <= i < n => initial[i]);
    assert work[..] == initial;
    InverseIs(values, n, Reduce(initial, n, 0));
    for pivot := 0 to n
      invariant Shape(work[..], n, 2 * n)
      invariant Reduce(work[..], n, pivot) == Reduce(initial, n, 0)
    {
      ghost var before := work[..];
      ReduceStep(before, n, pivot);
      ShapeRows(before, n, 2 * n);
      var p := PivotRow(work[..], pivot);
      if IsClose(work[p][pivot]) {
        return Failure(Singular);
      }
      NormalizePivot(work, n, pivot, p);
      ClearColumn(work, n, pivot);
    }
    ReduceEnds(work[..], n);
    return Success(RightHalf(work[..], n));
  }

  // ---------- left half = right half times the original ----------

  ghost predicate Combines(row: Vector, a: Matrix, n: nat)
    requires Square(a, n)
  {
    |row| == 2 * n && forall c :: 0 <= c < n ==> row[c] == Dot(row[n..], Column(a, c))
  }

  lemma InitiallyCombines(a: Matrix, n: nat, i: nat)
    requires Square(a, n) && i < n
    ensures Combines(Augment(a, n)[i], a, n)
  {
    var row := Augment(a, n)[i];
    forall c | 0 <= c < n ensures row[c] == Dot(row[n..], Column(a, c)) {
      assert row[c] == row[..n][c] == a[i][c];
      DotCommutes(row[n..], Column(a, c));
      DotUnit(Column(a, c), row[n..], i);
    }
  }

  lemma AddCombines(row: Vector, f: real, other: Vector, a: Matrix, n: nat)
    requires Square(a, n) && Combines(row, a, n) && Combines(other, a, n)
    ensures Combines(AddScaled(row, f, other), a, n)
  {
    hide Dot;
    var sum := AddScaled(row, f, other);
    assert sum[n..] == AddScaled(row[n..], f, other[n..]) by {
      TailAdds(row, f, other, n);
    }
    forall c | 0 <= c < n ensures sum[c] == Dot(sum[n..], Column(a, c)) {
      DotLinear(row[n..], f, other[n..], Column(a, c));
    }
  }

  lemma TailAdds(u: Vector, f: real, v: Vector, n: nat)
    requires |u| == |v| && n <= |u|
    ensures AddScaled(u, f, v)[n..] == AddScaled(u[n..], f, v[n..])
  {
    var w, t := AddScaled(u, f, v)[n..], AddScaled(u[n..], f, v[n..]);
    forall i | 0 <= i < |u| - n ensures w[i] == t[i] {
      assert u[n..][i] == u[n + i] && v[n..][i] == v[n + i];
    }
  }

  lemma ScaleCombines(row: Vector, v: real, a: Matrix, n: nat)
    requires Square(a, n) && Combines(row, a, n) && v != 0.0
    ensures Combines(ScaleRow(row, v), a, n)
  {
    hide Dot;
    var scaled := ScaleRow(row, v);
    forall c | 0 <= c < n ensures scaled[c] == Dot(scaled[n..], Column(a, c)) {
      DotScale(row[n..], v, Column(a, c));
      assert scaled[n..] == ScaleRow(row[n..], v);
    }
  }

  lemma ClearedCombines(s: Matrix, a: Matrix, n: nat, pivot: nat, i: nat)
    requires Square(a, n) && Shape(s, n, 2 * n) && pivot < n && i < n
    requires Combines(s[i], a, n) && Combines(s[pivot], a, n)
    ensures Combines(ClearedRow(s, n, pivot, i), a, n)
  {
    hide Combines;
    if i != pivot && !IsClose(s[i][pivot]) {
      AddCombines(s[i], -s[i][pivot], s[pivot], a, n);
    }
  }

  ghost predicate AllCombine(work: Matrix, a: Matrix, n: nat)
    requires Square(a, n) && Shape(work, n, 2 * n)
  {
    forall i :: 0 <= i < n ==> Combines(work[i], a, n)
  }

  lemma NormalizedCombine(a: Matrix, work: Matrix, n: nat, pivot: nat)
    requires Square(a, n) && Shape(work, n, 2 * n) && pivot < n && !Stuck(work, n, pivot)
    requires AllCombine(work, a, n)
    ensures AllCombine(Normalized(work, n, pivot), a, n)
  {
    var p := PivotRow(work, pivot);
    NormalizedRows(work, n, pivot);
    hide PivotRow, Normalized, Combines, ScaleRow;
    ScaleCombines(work[p], work[p][pivot], a, n);
  }

  lemma TurnCombines(a: Matrix, work: Matrix, n: nat, pivot: nat)
    requires Square(a, n) && Shape(work, n, 2 * n) && pivot < n && !Stuck(work, n, pivot)
    requires AllCombine(work, a, n)
    ensures AllCombine(Turn(work, n, pivot), a, n)
  {
    var s := Normalized(work, n, pivot);
    NormalizedCombine(a, work, n, pivot);
    hide Combines, Normalized, Stuck;
    forall i | 0 <= i < n ensures Combines(Cleared(s, n, pivot)[i], a, n) {
      ClearedCombines(s, a, n, pivot, i);
    }
  }

  lemma {:induction false} ReduceCombines(a: Matrix, work: Matrix, n: nat, pivot: nat)
    requires Square(a, n) && Shape(work, n, 2 * n) && pivot <= n && AllCombine(work, a, n)
    ensures Reduce(work, n, pivot).Success? ==> AllCombine(Reduce(work, n, pivot).value, a, n)
    decreases n - pivot
  {
    hide AllCombine, Turn, Stuck;
    if pivot < n && !Stuck(work, n, pivot) {
      TurnCombines(a, work, n, pivot);
      ReduceCombines(a, Turn(work, n, pivot), n, pivot + 1);
    }
  }

  // Whatever was skipped, the right half times the original is the left half that remains.
  lemma LeftHalfIsProduct(a: Matrix, n: nat)
    requires Square(a, n)
    ensures Reduce(Augment(a, n), n, 0).Success? ==>
              Multiply(Inverse(a, n).value, a, n, n, n) == LeftHalf(Reduce(Augment(a, n), n, 0).value, n)
  {
    var work := Augment(a, n);
    forall i | 0 <= i < n ensures Combines(work[i], a, n) {
      InitiallyCombines(a, n, i);
    }
    ReduceCombines(a, work, n, 0);
    var r := Reduce(work, n, 0);
    hide Reduce, Augment, Dot;
    if r.Success? {
      var product, left := Multiply(RightHalf(r.value, n), a, n, n, n), LeftHalf(r.value, n);
      forall i | 0 <= i < n ensures product[i] == left[i] {
        assert Combines(r.value[i], a, n);
        forall c | 0 <= c < n ensures product[i][c] == left[i][c] {
        }
      }
      assert product == left;
    }
  }

  // ---------- every row of the original stays a combination of the work rows ----------

  ghost predicate Spans(q: Vector, work: Matrix, n: nat, target: Vector)
    requires Shape(work, n, 2 * n)
  {
    |q| == n && |target| == 2 * n && forall c :: 0 <= c < 2 * n ==> target[c] == Dot(q, Column(work, c))
  }

  lemma SwapSpans(q: Vector, work: Matrix, n: nat, target: Vector, a: nat, b: nat) returns (next: Vector)
    requires Shape(work, n, 2 * n) && Spans(q, work, n, target) && a < n && b < n
    ensures Spans(next, SwapRows(work, a, b), n, target)
  {
    next := q[a := q[b]][b := q[a]];
    forall c | 0 <= c < 2 * n ensures target[c] == Dot(next, Column(SwapRows(work, a, b), c)) {
      var v := Column(work, c);
      assert Column(SwapRows(work, a, b), c) == v[a := v[b]][b := v[a]];
      DotSwap(q, v, a, b);
    }
  }

  lemma DotSwap(q: Vector, v: Vector, a: nat, b: nat)
    requires |q| == |v| && a < |q| && b < |q|
    ensures Dot(q[a := q[b]][b := q[a]], v[a := v[b]][b := v[a]]) == Dot(q, v)
  {
    hide *;
    var q', v' := q[a := q[b]], v[a := v[b]];
    DotUpdate(q, v, a, q[b], v[b]);
    DotUpdate(q', v', b, q[a], v[a]);
    SwapCancels(Dot(q'[b := q[a]], v'[b := v[a]]), Dot(q', v'), Dot(q, v), q[a], v[a], q[b], v[b]);
  }

  lemma SwapCancels(last: real, middle: real, first: real, x: real, y: real, x': real, y': real)
    requires Replaced(middle, x', y', first, x, y) && Replaced(last, x, y, middle, x', y')
    ensures last == first
  {
  }

  lemma ScaleSpans(q: Vector, work: Matrix, n: nat, target: Vector, p: nat, v: real) returns (next: Vector)
    requires Shape(work, n, 2 * n) && Spans(q, work, n, target) && p < n && v != 0.0
    ensures Spans(next, work[p := ScaleRow(work[p], v)], n, target)
  {
    hide Dot, Replaced, ScaleRow;
    next := q[p := q[p] * v];
    forall c | 0 <= c < 2 * n ensures target[c] == Dot(next, Column(work[p := ScaleRow(work[p], v)], c)) {
      ScaledColumn(work, n, p, v, c);
      Rebalanced(q, Column(work, c), p, v);
    }
  }

  lemma ScaledColumn(work: Matrix, n: nat, p: nat, v: real, c: nat)
    requires Shape(work, n, 2 * n) && p < n && v != 0.0 && c < 2 * n
    ensures Column(work[p := ScaleRow(work[p], v)], c) == Column(work, c)[p := Column(work, c)[p] / v]
  {
  }

  lemma Rebalanced(q: Vector, column: Vector, p: nat, v: real)
    requires |q| == |column| && p < |q| && v != 0.0
    ensures Dot(q[p := q[p] * v], column[p := column[p] / v]) == Dot(q, column)
  {
    hide *;
    var x, y := q[p] * v, column[p] / v;
    DotUpdate(q, column, p, x, y);
    Rescaled(q[p], column[p], v);
    ReplacedSame(Dot(q[p := x], column[p := y]), x, y, Dot(q, column), q[p], column[p]);
  }

  lemma Rescaled(x: real, y: real, v: real)
    requires v != 0.0
    ensures (x * v) * (y / v) == x * y
  {
    assert v * (y / v) == y;
  }

  function Factor(work: Matrix, n: nat, pivot: nat, i: nat): real
    requires Shape(work, n, 2 * n) && pivot < n && i < n
  {
    if i == pivot || IsClose(work[i][pivot]) then 0.0 else work[i][pivot]
  }

  function Factors(work: Matrix, n: nat, pivot: nat): (f: Vector)
    requires Shape(work, n, 2 * n) && pivot < n
    ensures |f| == n && forall i :: 0 <= i < n ==> f[i] == Factor(work, n, pivot, i)
  {
    seq(n, i requires 0 <= i < n => Factor(work, n, pivot, i))
  }

  lemma ClearedEntry(work: Matrix, n: nat, pivot: nat, i: nat, c: nat)
    requires Shape(work, n, 2 * n) && pivot < n && i < n && c < 2 * n
    ensures LinearAt(work[i][c], Cleared(work, n, pivot)[i][c], work[pivot][c], Factor(work, n, pivot, i))
  {
    var f, x := Factor(work, n, pivot, i), work[pivot][c];
    assert Cleared(work, n, pivot)[i] == ClearedRow(work, n, pivot, i);
    assert -f * x == -(x * f);
  }

  lemma ClearSpans(q: Vector, work: Matrix, n: nat, target: Vector, pivot: nat) returns (next: Vector)
    requires Shape(work, n, 2 * n) && Spans(q, work, n, target) && pivot < n
    ensures Spans(next, Cleared(work, n, pivot), n, target)
  {
    var f, w := Factors(work, n, pivot), Cleared(work, n, pivot);
    next := q[pivot := q[pivot] + Dot(q, f)];
    forall c | 0 <= c < 2 * n ensures target[c] == Dot(next, Column(w, c)) {
      ClearedColumn(work, n, pivot, c);
      SpansColumn(q, Column(work, c), Column(w, c), work[pivot][c], f, pivot);
    }
  }

  lemma ClearedColumn(work: Matrix, n: nat, pivot: nat, c: nat)
    requires Shape(work, n, 2 * n) && pivot < n && c < 2 * n
    ensures Column(work, c) == AddScaled(Column(Cleared(work, n, pivot), c), work[pivot][c], Factors(work, n, pivot))
    ensures Column(Cleared(work, n, pivot), c)[pivot] == work[pivot][c]
  {
    var w, f := Cleared(work, n, pivot), Factors(work, n, pivot);
    var sum := AddScaled(Column(w, c), work[pivot][c], f);
    forall i | 0 <= i < n ensures Column(work, c)[i] == sum[i] {
      ClearedEntry(work, n, pivot, i, c);
    }
    assert w[pivot] == ClearedRow(work, n, pivot, pivot);
  }

  lemma SpansColumn(q: Vector, column: Vector, cleared: Vector, x: real, f: Vector, p: nat)
    requires |q| == |column| == |cleared| == |f| && p < |q|
    requires column == AddScaled(cleared, x, f) && cleared[p] == x
    ensures Dot(q[p := q[p] + Dot(q, f)], cleared) == Dot(q, column)
  {
    DotLinear(cleared, x, f, q);
    DotCommutes(column, q);
    DotCommutes(cleared, q);
    DotCommutes(f, q);
    hide *;
    var d := Dot(q, f);
    DotUpdate(q, cleared, p, q[p] + d, x);
    assert cleared[p := x] == cleared;
    Absorbs(Dot(q[p := q[p] + d], cleared), Dot(q, cleared), Dot(q, column), q[p], d, x);
  }

  lemma Absorbs(next: real, sum: real, column: real, q: real, d: real, x: real)
    requires Replaced(next, q + d, x, sum, q, x) && LinearAt(column, sum, x, d)
    ensures next == column
  {
    assert (q + d) * x == q * x + x * d;
  }

  lemma TurnSpans(q: Vector, work: Matrix, n: nat, target: Vector, pivot: nat) returns (next: Vector)
    requires Shape(work, n, 2 * n) && Spans(q, work, n, target) && pivot < n && !Stuck(work, n, pivot)
    ensures Spans(next, Turn(work, n, pivot), n, target)
  {
    var p := PivotRow(work, pivot);
    hide PivotRow, Spans;
    next := SwapSpans(q, work, n, target, pivot, p);
    var s := SwapRows(work, pivot, p);
    next := ScaleSpans(next, s, n, target, pivot, s[pivot][pivot]);
    next := ClearSpans(next, Normalized(work, n, pivot), n, target, pivot);
  }

  lemma {:induction false} ReduceSpans(q: Vector, work: Matrix, n: nat, target: Vector, pivot: nat) returns (last: Vector)
    requires Shape(work, n, 2 * n) && Spans(q, work, n, target) && pivot <= n
    ensures Reduce(work, n, pivot).Success? ==> Spans(last, Reduce(work, n, pivot).value, n, target)
    decreases n - pivot
  {
    hide Spans, Stuck, Turn;
    last := q;
    if pivot < n && !Stuck(work, n, pivot) {
      var next := TurnSpans(q, work, n, target, pivot);
      last := ReduceSpans(next, Turn(work, n, pivot), n, target, pivot + 1);
    }
  }

  // ---------- runs whose skipped factors were exactly 0 ----------

  predicate TurnIsExact(s: Matrix, n: nat, pivot: nat)
    requires Shape(s, n, 2 * n) && pivot < n
  {
    forall i :: 0 <= i < n && i != pivot && IsClose(s[i][pivot]) ==> s[i][pivot] == 0.0
  }

  predicate ExactSkips(work: Matrix, n: nat, pivot: nat)
    requires Shape(work, n, 2 * n) && pivot <= n
    decreases n - pivot
  {
    || pivot == n
    || Stuck(work, n, pivot)
    || (TurnIsExact(Normalized(work, n, pivot), n, pivot) && ExactSkips(Turn(work, n, pivot), n, pivot + 1))
  }

  ghost predicate Reduced(work: Matrix, n: nat, pivot: nat)
    requires Shape(work, n, 2 * n) && pivot <= n
  {
    forall i, c :: 0 <= i < n && 0 <= c < pivot ==> work[i][c] == Delta(i, c)
  }

  lemma NormalizedEntry(work: Matrix, n: nat, pivot: nat, i: nat, c: nat)
    requires Shape(work, n, 2 * n) && pivot < n && !Stuck(work, n, pivot) && i < n && c < 2 * n
    ensures var s, p := Normalized(work, n, pivot), PivotRow(work, pivot);
            && (i == pivot && c == pivot ==> s[i][c] == 1.0)
            && (i == pivot && work[p][c] == 0.0 ==> s[i][c] == 0.0)
            && (i != pivot ==> s[i][c] == if i == p then work[pivot][c] else work[i][c])
  {
    NormalizedRows(work, n, pivot);
    var p := PivotRow(work, pivot);
    ScaledEntries(work[p], pivot, c);
    hide Normalized, PivotRow, ScaleRow;
  }

  lemma ScaledEntries(row: Vector, p: nat, c: nat)
    requires p < |row| && c < |row| && row[p] != 0.0
    ensures ScaleRow(row, row[p])[p] == 1.0
    ensures row[c] == 0.0 ==> ScaleRow(row, row[p])[c] == 0.0
  {
    Quotients(row[p]);
  }

  lemma Quotients(d: real)
    requires d != 0.0
    ensures d / d == 1.0 && 0.0 / d == 0.0
  {
    assert 0.0 / d * d == 0.0;
    assert d / d * d == d;
  }

  lemma NormalizedReduces(work: Matrix, n: nat, pivot: nat)
    requires Shape(work, n, 2 * n) && pivot < n && !Stuck(work, n, pivot) && Reduced(work, n, pivot)
    ensures Reduced(Normalized(work, n, pivot), n, pivot) && Normalized(work, n, pivot)[pivot][pivot] == 1.0
  {
    NormalizedEntry(work, n, pivot, pivot, pivot);
    hide Normalized, PivotRow, Stuck;
    forall i, c | 0 <= i < n && 0 <= c < pivot ensures Normalized(work, n, pivot)[i][c] == Delta(i, c) {
      NormalizedEntry(work, n, pivot, i, c);
    }
  }

  lemma TurnReduces(work: Matrix, n: nat, pivot: nat)
    requires Shape(work, n, 2 * n) && pivot < n && !Stuck(work, n, pivot) && Reduced(work, n, pivot)
    requires TurnIsExact(Normalized(work, n, pivot), n, pivot)
    ensures Reduced(Turn(work, n, pivot), n, pivot + 1)
  {
    NormalizedReduces(work, n, pivot);
    var s := Normalized(work, n, pivot);
    hide Normalized, Cleared, Stuck;
    forall i, c | 0 <= i < n && 0 <= c < pivot + 1 ensures Cleared(s, n, pivot)[i][c] == Delta(i, c) {
      ClearedEntry(s, n, pivot, i, c);
      assert s[pivot][c] == Delta(pivot, c);
    }
  }

  lemma {:induction false} ReduceReduces(work: Matrix, n: nat, pivot: nat)
    requires Shape(work, n, 2 * n) && pivot <= n && Reduced(work, n, pivot) && ExactSkips(work, n, pivot)
    ensures Reduce(work, n, pivot).Success? ==> Reduced(Reduce(work, n, pivot).value, n, n)
    decreases n - pivot
  {
    hide Stuck, Turn, Reduced, Normalized, TurnIsExact;
    if pivot < n && !Stuck(work, n, pivot) {
      TurnReduces(work, n, pivot);
      ReduceReduces(Turn(work, n, pivot), n, pivot + 1);
    }
  }

  // Backwards: a turn that ends with its columns cleared skipped no factor but 0, and began with
  // the columns before it cleared, since its pivot row, which it subtracts, is 0 in them.
  lemma TurnReflects(work: Matrix, n: nat, pivot: nat)
    requires Shape(work, n, 2 * n) && pivot < n && !Stuck(work, n, pivot) && Reduced(Turn(work, n, pivot), n, pivot + 1)
    ensures Reduced(work, n, pivot) && TurnIsExact(Normalized(work, n, pivot), n, pivot)
  {
    var s, p, after := Normalized(work, n, pivot), PivotRow(work, pivot), Turn(work, n, pivot);
    hide Normalized, PivotRow, Cleared, Stuck;
    forall i, c | 0 <= i < n && 0 <= c < pivot ensures s[i][c] == Delta(i, c) {
      ClearedEntry(s, n, pivot, i, c);
      ClearedEntry(s, n, pivot, pivot, c);
      assert after[i][c] == Delta(i, c) && after[pivot][c] == 0.0;
    }
    forall i, c | 0 <= i < n && 0 <= c < pivot ensures work[i][c] == Delta(i, c) {
      NormalizedBack(work, n, pivot, i, c);
    }
    forall i | 0 <= i < n && i != pivot && IsClose(s[i][pivot]) ensures s[i][pivot] == 0.0 {
      ClearedEntry(s, n, pivot, i, pivot);
      assert after[i][pivot] == Delta(i, pivot);
    }
  }

  // An entry before the pivot's column, from those after the normalization.
  lemma NormalizedBack(work: Matrix, n: nat, pivot: nat, i: nat, c: nat)
    requires Shape(work, n, 2 * n) && pivot < n && !Stuck(work, n, pivot) && i < n && c < pivot
    requires forall k :: 0 <= k < n ==> Normalized(work, n, pivot)[k][c] == Delta(k, c)
    ensures work[i][c] == Delta(i, c)
  {
    var s, p := Normalized(work, n, pivot), PivotRow(work, pivot);
    NormalizedRows(work, n, pivot);
    assert s[i][c] == Delta(i, c) && s[pivot][c] == 0.0 && s[p][c] == Delta(p, c);
    assert s[pivot] == ScaleRow(work[p], work[p][pivot]);
    assert work[p][c] == 0.0 by {
      var d := work[p][pivot];
      assert work[p][c] / d * d == work[p][c];
    }
    hide Normalized, PivotRow, ScaleRow, Stuck;
  }

  lemma {:induction false} ReduceReflects(work: Matrix, n: nat, pivot: nat)
    requires Shape(work, n, 2 * n) && pivot <= n && Reduce(work, n, pivot).Success?
    requires Reduced(Reduce(work, n, pivot).value, n, n)
    ensures Reduced(work, n, pivot) && ExactSkips(work, n, pivot)
    decreases n - pivot
  {
    hide Stuck, Turn, Reduced, Normalized, TurnIsExact;
    if pivot < n {
      ReduceReflects(Turn(work, n, pivot), n, pivot + 1);
      TurnReflects(work, n, pivot);
    }
  }

  // The left half that remains is the identity exactly when every skipped factor was exactly 0.
  lemma IdentityExactlyWhen(a: Matrix, n: nat)
    requires Square(a, n) && Inverse(a, n).Success?
    ensures var last := Reduce(Augment(a, n), n, 0).value;
            && (Reduced(last, n, n) <==> LeftHalf(last, n) == Identity(n))
            && (Reduced(last, n, n) <==> ExactSkips(Augment(a, n), n, 0))
  {
    var last := Reduce(Augment(a, n), n, 0).value;
    if Reduced(last, n, n) {
      ReduceReflects(Augment(a, n), n, 0);
      forall i | 0 <= i < n ensures LeftHalf(last, n)[i] == Identity(n)[i] {
        forall c | 0 <= c < n ensures LeftHalf(last, n)[i][c] == Identity(n)[i][c] {
          assert last[i][c] == Delta(i, c);
        }
      }
    }
    if ExactSkips(Augment(a, n), n, 0) {
      ReduceReduces(Augment(a, n), n, 0);
    }
    if LeftHalf(last, n) == Identity(n) {
      forall i, c | 0 <= i < n && 0 <= c < n ensures last[i][c] == Delta(i, c) {
        assert last[i][..n] == Identity(n)[i];
        assert last[i][..n][c] == Identity(n)[i][c];
      }
    }
  }

  // The result is a left inverse exactly when every skipped factor was exactly 0, and it is then
  // the two-sided inverse.
  lemma InverseExactlyWhen(a: Matrix, n: nat)
    requires Square(a, n) && Inverse(a, n).Success?
    ensures Multiply(Inverse(a, n).value, a, n, n, n) == Identity(n) <==> ExactSkips(Augment(a, n), n, 0)
    ensures ExactSkips(Augment(a, n), n, 0) ==> Multiply(a, Inverse(a, n).value, n, n, n) == Identity(n)
  {
    var last, r := Reduce(Augment(a, n), n, 0).value, Inverse(a, n).value;
    LeftHalfIsProduct(a, n);
    IdentityExactlyWhen(a, n);
    if ExactSkips(Augment(a, n), n, 0) {
      var product := Multiply(a, r, n, n, n);
      forall i | 0 <= i < n ensures product[i] == Identity(n)[i] {
        RowOfProduct(a, n, i, last);
      }
      assert product == Identity(n);
    }
  }

  lemma InverseIsTwoSided(a: Matrix, n: nat)
    requires Square(a, n) && ExactSkips(Augment(a, n), n, 0) && Inverse(a, n).Success?
    ensures Multiply(Inverse(a, n).value, a, n, n, n) == Identity(n)
    ensures Multiply(a, Inverse(a, n).value, n, n, n) == Identity(n)
  {
    InverseExactlyWhen(a, n);
  }

  lemma RowOfProduct(a: Matrix, n: nat, i: nat, last: Matrix)
    requires Square(a, n) && i < n && Shape(last, n, 2 * n) && Reduced(last, n, n)
    requires Reduce(Augment(a, n), n, 0) == Success(last)
    ensures Multiply(a, RightHalf(last, n), n, n, n)[i] == Identity(n)[i]
  {
    hide Reduce, Dot;
    var work := Augment(a, n);
    AugmentSpans(a, n, i);
    var q := ReduceSpans(Identity(n)[i], work, n, work[i], 0);
    forall c | 0 <= c < n ensures q[c] == a[i][c] {
      DotUnit(q, Column(last, c), c);
      assert work[i][c] == work[i][..n][c];
    }
    assert q == a[i];
    forall c | 0 <= c < n ensures Identity(n)[i][c] == Dot(a[i], Column(RightHalf(last, n), c)) {
      assert Column(RightHalf(last, n), c) == Column(last, n + c);
      assert work[i][n + c] == work[i][n..][c];
    }
  }

  lemma AugmentSpans(a: Matrix, n: nat, i: nat)
    requires Square(a, n) && i < n
    ensures Spans(Identity(n)[i], Augment(a, n), n, Augment(a, n)[i])
  {
    var work, e := Augment(a, n), Identity(n)[i];
    forall c | 0 <= c < 2 * n ensures work[i][c] == Dot(e, Column(work, c)) {
      DotCommutes(e, Column(work, c));
      DotUnit(Column(work, c), e, i);
    }
  }

  // ---------- the determinant ----------

  // Only entries right of the pivot are updated; the entries below it keep their old values.
  function EliminatedRow(row: Vector, n: nat, pivot: nat, above: Vector): (r: Vector)
    requires |row| == |above| == n && pivot < n && above[pivot] != 0.0
    ensures |r| == n
  {
    var factor := row[pivot] / above[pivot];
    seq(n, c requires 0 <= c < n => if c <= pivot then row[c] else row[c] - factor * above[c])
  }

  function Eliminated(work: Matrix, n: nat, pivot: nat): (w: Matrix)
    requires Square(work, n) && pivot < n && work[pivot][pivot] != 0.0
    ensures Square(w, n)
    ensures forall i :: 0 <= i < n ==>
              w[i] == if i <= pivot then work[i] else EliminatedRow(work[i], n, pivot, work[pivot])
  {
    seq(n, i requires 0 <= i < n => if i <= pivot then work[i] else EliminatedRow(work[i], n, pivot, work[pivot]))
  }

  // A swap changes the sign; the pivot multiplies.
  function Contributes(pivot: nat, p: nat, v: real, rest: real): real {
    (if p == pivot then 1.0 else -1.0) * v * rest
  }

  // What the determinant is still multiplied by from this pivot on.
  function Elimination(work: Matrix, n: nat, pivot: nat): real
    requires Square(work, n) && pivot <= n
    decreases n - pivot
  {
    if pivot == n then 1.0
    else
      var p := PivotRow(work, pivot);
      if IsClose(work[p][pivot]) then 0.0
      else
        Contributes(pivot, p, work[p][pivot],
                    Elimination(Eliminated(SwapRows(work, pivot, p), n, pivot), n, pivot + 1))
  }

  ghost predicate Product(total: real, done: real, rest: real) {
    total == done * rest
  }

  lemma EliminationUnfolds(work: Matrix, n: nat, pivot: nat)
    requires Square(work, n) && pivot < n
    ensures var p := PivotRow(work, pivot);
            var s := SwapRows(work, pivot, p);
            && (p == pivot ==> s == work)
            && s[pivot][pivot] == work[p][pivot]
            && (IsClose(work[p][pivot]) ==> Elimination(work, n, pivot) == 0.0)
            && (!IsClose(work[p][pivot]) ==>
                  && Square(s, n) && s[pivot][pivot] != 0.0
                  && Elimination(work, n, pivot) ==
                     Contributes(pivot, p, s[pivot][pivot], Elimination(Eliminated(s, n, pivot), n, pivot + 1)))
  {
    var p := PivotRow(work, pivot);
    hide PivotRow, Eliminated, Contributes;
    assert p == pivot ==> SwapRows(work, pivot, p) == work;
  }

  lemma ProductStep(total: real, done: real, whole: real, pivot: nat, p: nat, signed: real, v: real, rest: real, next: real)
    requires Product(total, done, whole) && whole == Contributes(pivot, p, v, rest)
    requires signed == (if p == pivot then done else done * -1.0) && next == signed * v
    ensures Product(total, next, rest)
  {
    if p == pivot {
      assert whole == v * rest;
      assert done * (v * rest) == done * v * rest;
    } else {
      assert whole == -(v * rest) by {
        assert -1.0 * v * rest == -(v * rest);
      }
      assert done * -1.0 * v * rest == -(done * (v * rest));
    }
  }

  lemma ProductOfZero(total: real, done: real)
    requires Product(total, done, 0.0)
    ensures total == 0.0
  {
  }

  lemma SwapMatches(before: Matrix, now: Matrix, a: nat, b: nat)
    requires a < |before| && b < |before| && now == before[a := before[b]][b := before[a]]
    ensures now == SwapRows(before, a, b)
  {
  }

  lemma EliminationEnds(work: Matrix, n: nat, total: real, done: real)
    requires Square(work, n) && Product(total, done, Elimination(work, n, n))
    ensures total == done
  {
  }

  method MatrixDeterminant(values: Matrix) returns (r: Result<real, Error>)
    ensures !WellFormed(values) ==> r == Failure(Malformed)
    ensures WellFormed(values) && |values| != |values[0]| ==> r == Failure(NotSquare)
    ensures WellFormed(values) && |values| == |values[0]| ==> r == Success(Elimination(values, |values|, 0))
  {
    if !WellFormed(values) {
      return Failure(Malformed);
    }
    var n := |values|;
    if n != |values[0]| {
      return Failure(NotSquare);
    }
    r := DeterminantOf(values, n);
  }

  lemma ProductStart(total: real)
    ensures Product(total, 1.0, total)
  {
  }

  method DeterminantOf(values: Matrix, n: nat) returns (r: Result<real, Error>)
    requires Square(values, n)
    ensures r == Success(Elimination(values, n, 0))
  {
    hide *;
    SquareRows(values, n);
    var work := new Vector[n](i requires 0 <= i < n => values[i]);
    var determinant := 1.0;
    assert work[..] == values;
    ghost var total := Elimination(values, n, 0);
    ProductStart(total);
    for pivot := 0 to n
      invariant Square(work[..], n)
      invariant Product(total, determinant, Elimination(work[..], n, pivot))
    {
      ghost var before, rest := work[..], Elimination(work[..], n, pivot);
      SquareRows(before, n);
      EliminationUnfolds(before, n, pivot);
      var p := PivotRow(work[..], pivot);
      if IsClose(work[p][pivot]) {
        ProductOfZero(total, determinant);
        return Success(0.0);
      }
      ghost var done := determinant;
      if p != pivot {
        work[pivot], work[p] := work[p], work[pivot];
        determinant := determinant * -1.0;
      }
      SwapMatches(before, work[..], pivot, p);
      ghost var signed := determinant;
      var pivotValue := work[pivot][pivot];
      determinant := determinant * pivotValue;
      EliminateBelow(work, n, pivot);
      ProductStep(total, done, rest, pivot, p, signed, pivotValue, Elimination(work[..], n, pivot + 1), determinant);
    }
    EliminationEnds(work[..], n, total, determinant);
    return Success(determinant);
  }

  method EliminateBelow(work: array<Vector>, n: nat, pivot: nat)
    requires Square(work[..], n) && pivot < n && work[pivot][pivot] != 0.0
    modifies work
    ensures work[..] == Eliminated(old(work[..]), n, pivot)
  {
    ghost var start := work[..];
    for row := pivot + 1 to n
      invariant forall i :: pivot < i < row ==> work[i] == EliminatedRow(start[i], n, pivot, start[pivot])
      invariant forall i :: row <= i < n ==> work[i] == start[i]
      invariant forall i :: 0 <= i <= pivot ==> work[i] == start[i]
    {
      var current := EliminateRow(work[row], n, pivot, work[pivot]);
      hide *;
      work[row] := current;
    }
    assert work[..] == Eliminated(start, n, pivot);
  }

  method EliminateRow(row: Vector, n: nat, pivot: nat, above: Vector) returns (current: Vector)
    requires |row| == |above| == n && pivot < n && above[pivot] != 0.0
    ensures current == EliminatedRow(row, n, pivot, above)
  {
    var factor := row[pivot] / above[pivot];
    current := row;
    ghost var final := EliminatedRow(row, n, pivot, above);
    for column := pivot + 1 to n
      invariant |current| == n
      invariant forall c :: 0 <= c < column ==> current[c] == final[c]
      invariant forall c :: column <= c < n ==> current[c] == row[c]
    {
      current := current[column := current[column] - factor * above[column]];
    }
  }

  // ---------- the elimination computes the determinant ----------

  // The rows and columns still to be eliminated.
  function Trailing(work: Matrix, n: nat, pivot: nat): (t: Matrix)
    requires Square(work, n) && pivot <= n
    ensures Square(t, n - pivot)
    ensures forall i :: 0 <= i < n - pivot ==> t[i] == work[pivot + i][pivot..]
  {
    seq(n - pivot, i requires 0 <= i < n - pivot => work[pivot + i][pivot..])
  }

  // Every pivot met on the way is exactly 0 or outside the tolerance.
  predicate Clean(work: Matrix, n: nat, pivot: nat)
    requires Square(work, n) && pivot <= n
    decreases n - pivot
  {
    pivot == n
    || var p := PivotRow(work, pivot);
       if IsClose(work[p][pivot]) then work[p][pivot] == 0.0
       else Clean(Eliminated(SwapRows(work, pivot, p), n, pivot), n, pivot + 1)
  }

  // The row minus the multiple of the first row that clears its first entry.
  function ClearFirst(row: Vector, above: Vector): (r: Vector)
    requires |row| == |above| > 0 && above[0] != 0.0
    ensures |r| == |row|
  {
    AddScaled(row, -(row[0] / above[0]), above)
  }

  function ClearedTo(m: Matrix, k: nat, count: nat): (c: Matrix)
    requires Square(m, k) && 0 < count <= k && m[0][0] != 0.0
    ensures Square(c, k)
    ensures forall i :: 0 <= i < k ==>
              c[i] == if 0 < i < count then ClearFirst(m[i], m[0]) else m[i]
  {
    seq(k, i requires 0 <= i < k =>
      if 0 < i < count then ClearFirst(m[i], m[0]) else m[i])
  }

  lemma {:induction false} ClearingKeepsDet(m: Matrix, k: nat, count: nat)
    requires Square(m, k) && 0 < count <= k && m[0][0] != 0.0
    ensures Det(ClearedTo(m, k, count), k) == Det(m, k)
  {
    hide Det;
    if count == 1 {
      assert ClearedTo(m, k, 1) == m;
    } else {
      var j := count - 1;
      ClearingKeepsDet(m, k, j);
      var c, f := ClearedTo(m, k, j), -(m[j][0] / m[0][0]);
      AddFirst(c, k, j, f);
      assert ClearedTo(m, k, count) == c[j := AddScaled(c[j], f, c[0])];
    }
  }

  lemma ClearedFirstEntry(m: Matrix, k: nat, i: nat)
    requires Square(m, k) && 0 < i < k && m[0][0] != 0.0
    ensures ClearedTo(m, k, k)[i][0] == 0.0
  {
    ClearsFirst(m[i][0], m[0][0]);
    assert ClearedTo(m, k, k)[i] == ClearFirst(m[i], m[0]);
  }

  lemma PivotMinor(m: Matrix, k: nat)
    requires Square(m, k) && 0 < k && m[0][0] != 0.0
    ensures Det(m, k) == m[0][0] * Det(Minor(ClearedTo(m, k, k), k, 0), k - 1)
  {
    hide Det, Expansion, AddScaled, Minor, ClearedTo;
    var c := ClearedTo(m, k, k);
    ClearingKeepsDet(m, k, k);
    forall i | 0 < i < k ensures c[i][0] == 0.0 {
      ClearedFirstEntry(m, k, i);
    }
    assert c[0] == m[0];
    DetOfCleared(c, k);
  }

  lemma ClearsFirst(x: real, v: real)
    requires v != 0.0
    ensures x + -(x / v) * v == 0.0
  {
  }

  lemma MinorIsTrailing(s: Matrix, n: nat, pivot: nat)
    requires Square(s, n) && pivot < n && s[pivot][pivot] != 0.0
    ensures var m := Trailing(s, n, pivot);
            && m[0][0] == s[pivot][pivot]
            && Minor(ClearedTo(m, n - pivot, n - pivot), n - pivot, 0) == Trailing(Eliminated(s, n, pivot), n, pivot + 1)
  {
    var m, k := Trailing(s, n, pivot), n - pivot;
    var left, right := Minor(ClearedTo(m, k, k), k, 0), Trailing(Eliminated(s, n, pivot), n, pivot + 1);
    forall i | 0 <= i < k - 1 ensures left[i] == right[i] {
      MinorRowIs(s, n, pivot, i);
    }
  }

  lemma MinorRowIs(s: Matrix, n: nat, pivot: nat, i: nat)
    requires Square(s, n) && pivot < n && s[pivot][pivot] != 0.0 && i < n - pivot - 1
    ensures var m, k := Trailing(s, n, pivot), n - pivot;
            Minor(ClearedTo(m, k, k), k, 0)[i] == Trailing(Eliminated(s, n, pivot), n, pivot + 1)[i]
  {
    hide ClearFirst, EliminatedRow, ClearedTo, Minor;
    var m, k := Trailing(s, n, pivot), n - pivot;
    var row, above := s[pivot + 1 + i], s[pivot];
    assert m[0] == above[pivot..] && m[i + 1] == row[pivot..];
    MinorRow(row, above, n, pivot);
    assert Minor(ClearedTo(m, k, k), k, 0)[i] == ClearFirst(m[i + 1], m[0])[1..];
  }

  lemma MinorRow(row: Vector, above: Vector, n: nat, pivot: nat)
    requires |row| == |above| == n && pivot < n && above[pivot] != 0.0
    ensures ClearFirst(row[pivot..], above[pivot..])[1..] == EliminatedRow(row, n, pivot, above)[pivot + 1..]
  {
    var f := row[pivot] / above[pivot];
    var left, right := ClearFirst(row[pivot..], above[pivot..])[1..], EliminatedRow(row, n, pivot, above)[pivot + 1..];
    forall c | 0 <= c < n - pivot - 1 ensures left[c] == right[c] {
      var x := above[pivot + 1 + c];
      assert -f * x == -(f * x);
    }
  }

  lemma SwapTrailing(work: Matrix, n: nat, pivot: nat, p: nat)
    requires Square(work, n) && pivot <= p < n
    ensures Square(SwapRows(work, pivot, p), n) && SwapRows(work, pivot, p)[pivot][pivot] == work[p][pivot]
    ensures p == pivot ==> SwapRows(work, pivot, p) == work
    ensures Trailing(SwapRows(work, pivot, p), n, pivot) == SwapRows(Trailing(work, n, pivot), 0, p - pivot)
  {
  }

  lemma ZeroColumn(m: Matrix, k: nat)
    requires Square(m, k) && k > 0 && forall i :: 0 <= i < k ==> m[i][0] == 0.0
    ensures Det(m, k) == 0.0
  {
    DetOfCleared(m, k);
    hide *;
    assert m[0][0] == 0.0;
  }

  lemma TrailingStep(work: Matrix, n: nat, pivot: nat)
    requires Square(work, n) && pivot < n
    ensures var p := PivotRow(work, pivot);
            var s := SwapRows(work, pivot, p);
            && (work[p][pivot] == 0.0 ==> Det(Trailing(work, n, pivot), n - pivot) == 0.0)
            && (work[p][pivot] != 0.0 ==>
                  && Square(s, n) && s[pivot][pivot] == work[p][pivot]
                  && Det(Trailing(work, n, pivot), n - pivot) ==
                     Contributes(pivot, p, work[p][pivot], Det(Trailing(Eliminated(s, n, pivot), n, pivot + 1), n - pivot - 1)))
  {
    var p := PivotRow(work, pivot);
    if work[p][pivot] == 0.0 {
      ZeroTrailing(work, n, pivot);
    } else {
      hide PivotRow;
      SwappedTrailing(work, n, pivot, p);
    }
  }

  lemma ZeroTrailing(work: Matrix, n: nat, pivot: nat)
    requires Square(work, n) && pivot < n && work[PivotRow(work, pivot)][pivot] == 0.0
    ensures Det(Trailing(work, n, pivot), n - pivot) == 0.0
  {
    var p, m, k := PivotRow(work, pivot), Trailing(work, n, pivot), n - pivot;
    forall i | 0 <= i < k ensures m[i][0] == 0.0 {
      assert Abs(work[pivot + i][pivot]) <= Abs(work[p][pivot]);
    }
    ZeroColumn(m, k);
  }

  lemma SwappedTrailing(work: Matrix, n: nat, pivot: nat, p: nat)
    requires Square(work, n) && pivot <= p < n && work[p][pivot] != 0.0
    ensures var s := SwapRows(work, pivot, p);
            && Square(s, n) && s[pivot][pivot] == work[p][pivot]
            && Det(Trailing(work, n, pivot), n - pivot) ==
               Contributes(pivot, p, work[p][pivot], Det(Trailing(Eliminated(s, n, pivot), n, pivot + 1), n - pivot - 1))
  {
    hide *;
    SquareRows(work, n);
    var m, k, s := Trailing(work, n, pivot), n - pivot, SwapRows(work, pivot, p);
    SwapTrailing(work, n, pivot, p);
    MinorIsTrailing(s, n, pivot);
    PivotMinor(Trailing(s, n, pivot), k);
    if p != pivot {
      SwapWithFirst(m, k, p - pivot);
    }
    SquareRows(s, n);
    var v, rest := s[pivot][pivot], Det(Trailing(Eliminated(s, n, pivot), n, pivot + 1), k - 1);
    Signs(Det(m, k), Det(Trailing(s, n, pivot), k), pivot, p, v, rest);
  }

  lemma Signs(det: real, swapped: real, pivot: nat, p: nat, v: real, rest: real)
    requires swapped == v * rest && det == if p == pivot then swapped else -swapped
    ensures det == Contributes(pivot, p, v, rest)
  {
    if p != pivot {
      assert -1.0 * v * rest == -(v * rest);
    }
  }

  lemma NothingTrailing(work: Matrix, n: nat)
    requires Square(work, n)
    ensures Det(Trailing(work, n, n), 0) == 1.0
  {
  }

  lemma {:induction false} EliminationIsDet(work: Matrix, n: nat, pivot: nat)
    requires Square(work, n) && pivot <= n && Clean(work, n, pivot)
    ensures Elimination(work, n, pivot) == Det(Trailing(work, n, pivot), n - pivot)
    decreases n - pivot
  {
    hide Det, Trailing, Eliminated, Contributes, PivotRow;
    if pivot == n {
      NothingTrailing(work, n);
    } else {
      TrailingStep(work, n, pivot);
      EliminationUnfolds(work, n, pivot);
      var p := PivotRow(work, pivot);
      if !IsClose(work[p][pivot]) {
        EliminationIsDet(Eliminated(SwapRows(work, pivot, p), n, pivot), n, pivot + 1);
      }
    }
  }

  lemma {:induction false} UncleanIsZero(work: Matrix, n: nat, pivot: nat)
    requires Square(work, n) && pivot <= n && !Clean(work, n, pivot)
    ensures Elimination(work, n, pivot) == 0.0
    decreases n - pivot
  {
    hide PivotRow, Eliminated, Contributes;
    EliminationUnfolds(work, n, pivot);
    var p := PivotRow(work, pivot);
    if !IsClose(work[p][pivot]) {
      UncleanIsZero(Eliminated(SwapRows(work, pivot, p), n, pivot), n, pivot + 1);
      TimesZero(pivot, p, SwapRows(work, pivot, p)[pivot][pivot]);
    }
  }

  lemma TimesZero(pivot: nat, p: nat, v: real)
    ensures Contributes(pivot, p, v, 0.0) == 0.0
  {
  }

  // The result is the determinant exactly when no pivot was a nonzero number within the
  // tolerance, or the determinant is 0 anyway.
  lemma DeterminantExactlyWhen(a: Matrix, n: nat)
    requires Square(a, n)
    ensures Elimination(a, n, 0) == Det(a, n) <==> Clean(a, n, 0) || Det(a, n) == 0.0
  {
    assert Trailing(a, n, 0) == a;
    hide Det, Elimination;
    if Clean(a, n, 0) {
      EliminationIsDet(a, n, 0);
    } else {
      UncleanIsZero(a, n, 0);
    }
  }

  // ---------- inverse and determinant in lockstep ----------

  ghost predicate Agree(wide: Matrix, work: Matrix, n: nat, pivot: nat)
    requires Shape(wide, n, 2 * n) && Square(work, n)
  {
    forall i, c :: pivot <= i < n && pivot <= c < n ==> wide[i][c] == work[i][c]
  }

  lemma SamePivot(wide: Matrix, work: Matrix, n: nat, pivot: nat)
    requires Shape(wide, n, 2 * n) && Square(work, n) && pivot < n && Agree(wide, work, n, pivot)
    ensures PivotRow(wide, pivot) == PivotRow(work, pivot)
  {
    assert Below(wide, pivot, pivot) == Below(work, pivot, pivot);
  }

  function Updated(x: real, f: real, v: real, a: real): real
    requires v != 0.0
  {
    x - f / v * a
  }

  lemma SameUpdate(x: real, y: real, f: real, v: real, a: real, s: real)
    requires v != 0.0 && LinearAt(x, y, s, f) && Ratio(s, a, v)
    ensures y == Updated(x, f, v, a)
  {
    assert a / v * f == f / v * a;
  }

  lemma NormalizedPivot(wide: Matrix, n: nat, pivot: nat, c: nat)
    requires Shape(wide, n, 2 * n) && pivot < n && !Stuck(wide, n, pivot) && c < 2 * n
    ensures Ratio(Normalized(wide, n, pivot)[pivot][c], wide[PivotRow(wide, pivot)][c], wide[PivotRow(wide, pivot)][pivot])
  {
    var p := PivotRow(wide, pivot);
    NormalizedRows(wide, n, pivot);
    assert ScaleRow(wide[p], wide[p][pivot])[c] == wide[p][c] / wide[p][pivot];
    hide Normalized, PivotRow;
  }

  lemma SameEntry(wide: Matrix, work: Matrix, n: nat, pivot: nat, p: nat, i: nat, c: nat)
    requires Shape(wide, n, 2 * n) && Square(work, n) && pivot < n && Agree(wide, work, n, pivot)
    requires !Stuck(wide, n, pivot) && TurnIsExact(Normalized(wide, n, pivot), n, pivot)
    requires p == PivotRow(wide, pivot) && pivot <= p < n && pivot < i < n && pivot < c < n
    requires Square(SwapRows(work, pivot, p), n) && SwapRows(work, pivot, p)[pivot][pivot] != 0.0
    ensures Turn(wide, n, pivot)[i][c] == Eliminated(SwapRows(work, pivot, p), n, pivot)[i][c]
  {
    hide PivotRow, Normalized, Stuck, Cleared, Eliminated, ClearedRow, Updated, Ratio, LinearAt;
    var s, d := Normalized(wide, n, pivot), SwapRows(work, pivot, p);
    NormalizedPivot(wide, n, pivot, c);
    NormalizedEntry(wide, n, pivot, i, c);
    NormalizedEntry(wide, n, pivot, i, pivot);
    ClearedEntry(s, n, pivot, i, c);
    EliminatedEntry(d, n, pivot, i, c);
    var f, v, a := s[i][pivot], d[pivot][pivot], d[pivot][c];
    assert s[i][c] == d[i][c] && f == d[i][pivot] == Factor(s, n, pivot, i);
    assert Ratio(s[pivot][c], a, v);
    SameUpdate(s[i][c], Cleared(s, n, pivot)[i][c], f, v, a, s[pivot][c]);
  }

  lemma EliminatedEntry(d: Matrix, n: nat, pivot: nat, i: nat, c: nat)
    requires Square(d, n) && pivot < i < n && pivot < c < n && d[pivot][pivot] != 0.0
    ensures Eliminated(d, n, pivot)[i][c] == Updated(d[i][c], d[i][pivot], d[pivot][pivot], d[pivot][c])
  {
    assert Eliminated(d, n, pivot)[i] == EliminatedRow(d[i], n, pivot, d[pivot]);
  }

  lemma NonzeroRest(pivot: nat, p: nat, v: real, rest: real)
    requires v != 0.0
    ensures Contributes(pivot, p, v, rest) == 0.0 <==> rest == 0.0
  {
    if p != pivot {
      assert -1.0 * v * rest == -(v * rest);
    }
  }

  lemma {:induction false} Lockstep(wide: Matrix, work: Matrix, n: nat, pivot: nat)
    requires Shape(wide, n, 2 * n) && Square(work, n) && pivot <= n
    requires Agree(wide, work, n, pivot) && ExactSkips(wide, n, pivot)
    ensures Reduce(wide, n, pivot) == Failure(Singular) <==> Elimination(work, n, pivot) == 0.0
    decreases n - pivot
  {
    if pivot < n {
      SamePivot(wide, work, n, pivot);
      EliminationUnfolds(work, n, pivot);
      var p := PivotRow(work, pivot);
      assert Stuck(wide, n, pivot) <==> IsClose(work[p][pivot]);
      hide PivotRow, Eliminated, Turn, Contributes, Stuck, Normalized, TurnIsExact;
      if !IsClose(work[p][pivot]) {
        var d := SwapRows(work, pivot, p);
        forall i, c | pivot + 1 <= i < n && pivot + 1 <= c < n
          ensures Turn(wide, n, pivot)[i][c] == Eliminated(d, n, pivot)[i][c]
        {
          SameEntry(wide, work, n, pivot, p, i, c);
        }
        Lockstep(Turn(wide, n, pivot), Eliminated(d, n, pivot), n, pivot + 1);
        NonzeroRest(pivot, p, d[pivot][pivot], Elimination(Eliminated(d, n, pivot), n, pivot + 1));
      }
    }
  }

  // With exact skips the inverse is refused exactly when the determinant is reported as 0.
  lemma SingularExactlyWhen(a: Matrix, n: nat)
    requires Square(a, n) && ExactSkips(Augment(a, n), n, 0)
    ensures Inverse(a, n) == Failure(Singular) <==> Elimination(a, n, 0) == 0.0
    ensures Clean(a, n, 0) ==> (Inverse(a, n) == Failure(Singular) <==> Det(a, n) == 0.0)
  {
    var wide := Augment(a, n);
    forall i, c | 0 <= i < n && 0 <= c < n ensures wide[i][c] == a[i][c] {
      assert wide[i][..n][c] == a[i][c];
    }
    hide Reduce, Elimination, Clean, Det;
    Lockstep(wide, a, n, 0);
    DeterminantExactlyWhen(a, n);
  }

  // ---------- where the tolerance shows ----------

  const TINY := 0.0000000000000001

  // A factor within the tolerance stays, and the matrix returned is not the inverse.
  lemma SkippedFactorFails()
    ensures var a := [[1.0, TINY], [0.0, 1.0]];
            Square(a, 2) && Inverse(a, 2) == Success(Identity(2))
            && Multiply(Inverse(a, 2).value, a, 2, 2, 2) != Identity(2)
  {
    hide Multiply, Reduce, Augment, PivotRow, Turn, Stuck;
    var a, rows := [[1.0, TINY], [0.0, 1.0]], [[1.0, TINY, 1.0, 0.0], [0.0, 1.0, 0.0, 1.0]];
    TinyRows();
    UnitTurn(rows, 2, 0);
    UnitTurn(rows, 2, 1);
    Unchanged(rows, 2, 1);
    Unchanged(rows, 2, 0);
    ReduceEnds(rows, 2);
    assert rows[0][2..] == Identity(2)[0] && rows[1][2..] == Identity(2)[1];
    assert RightHalf(rows, 2) == Identity(2);
    LeftHalfIsProduct(a, 2);
    assert LeftHalf(rows, 2)[0][1] == TINY;
  }

  lemma TinyRows()
    ensures var a, rows := [[1.0, TINY], [0.0, 1.0]], [[1.0, TINY, 1.0, 0.0], [0.0, 1.0, 0.0, 1.0]];
            Square(a, 2) && Augment(a, 2) == rows && PivotRow(rows, 0) == 0 && PivotRow(rows, 1) == 1
  {
    var a, rows := [[1.0, TINY], [0.0, 1.0]], [[1.0, TINY, 1.0, 0.0], [0.0, 1.0, 0.0, 1.0]];
    var w := Augment(a, 2);
    assert Identity(2)[0] == [1.0, 0.0] && Identity(2)[1] == [0.0, 1.0];
    assert w[0] == rows[0] && w[1] == rows[1];
    assert w == rows;
    assert Below(rows, 0, 0) == [1.0, 0.0];
  }

  // A turn whose pivot is in place and 1 and whose factors are all skipped changes nothing.
  lemma UnitTurn(work: Matrix, n: nat, pivot: nat)
    requires Shape(work, n, 2 * n) && pivot < n && PivotRow(work, pivot) == pivot && work[pivot][pivot] == 1.0
    requires forall i :: 0 <= i < n && i != pivot ==> IsClose(work[i][pivot])
    ensures !Stuck(work, n, pivot) && Turn(work, n, pivot) == work
  {
    NormalizedRows(work, n, pivot);
    assert ScaleRow(work[pivot], 1.0) == work[pivot];
    assert Normalized(work, n, pivot) == work;
  }

  lemma Unchanged(work: Matrix, n: nat, pivot: nat)
    requires Shape(work, n, 2 * n) && pivot < n && !Stuck(work, n, pivot) && Turn(work, n, pivot) == work
    ensures Reduce(work, n, pivot) == Reduce(work, n, pivot + 1)
  {
    hide Turn, Stuck;
  }

  // A determinant within the tolerance is reported as 0.
  lemma TinyDeterminantFails()
    ensures Square([[TINY]], 1) && Det([[TINY]], 1) == TINY && Elimination([[TINY]], 1, 0) == 0.0
  {
    var a := [[TINY]];
    DetOfCleared(a, 1);
    assert Det(Minor(a, 1, 0), 0) == 1.0;
    assert PivotRow(a, 0) == 0;
  }
}
