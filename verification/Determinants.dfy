/**
  The determinant of a square matrix by expansion along its first column, and the row laws that
  justify elimination.  This is the reference definition for matrix_math_tool.py.

  The determinant is linear in each row; two equal neighbouring rows make it 0, because all terms
  of the expansion but two vanish and those two cancel; so exchanging neighbours changes its sign.
  A distant row is brought up by exchanges of neighbours, and adding a multiple of one row to
  another adds a determinant with two equal rows.
 */
module Determinants {
  import opened Vectors

  type Matrix = seq<Vector>

  ghost predicate Shape(m: Matrix, rows: nat, columns: nat) {
    |m| == rows && forall i :: 0 <= i < rows ==> |m[i]| == columns
  }

  ghost predicate Square(m: Matrix, n: nat) {
    Shape(m, n, n)
  }

  // The matrix without row i and without its first column.
  function Minor(m: Matrix, n: nat, i: nat): (r: Matrix)
    requires Square(m, n) && i < n
    ensures Square(r, n - 1)
    ensures forall k :: 0 <= k < n - 1 ==> r[k] == (if k < i then m[k] else m[k + 1])[1..]
  {
    seq(n - 1, k requires 0 <= k < n - 1 => (if k < i then m[k] else m[k + 1])[1..])
  }

  function Sign(i: nat): real {
    if i % 2 == 0 then 1.0 else -1.0
  }

  function Det(m: Matrix, n: nat): real
    requires Square(m, n)
    decreases n, n + 2
  {
    if n == 0 then 1.0 else Expansion(m, n, n)
  }

  function Cofactor(m: Matrix, n: nat, i: nat): real
    requires Square(m, n) && i < n
    decreases n, 0
  {
    Sign(i) * Det(Minor(m, n, i), n - 1)
  }

  // The first `count` terms of the expansion.
  function Expansion(m: Matrix, n: nat, count: nat): real
    requires Square(m, n) && n > 0 && count <= n
    decreases n, count + 1
  {
    if count == 0 then 0.0
    else AddProduct(Expansion(m, n, count - 1), m[count - 1][0], Cofactor(m, n, count - 1))
  }

  // ---------- linearity in each row ----------

  lemma MinorOfUpdate(m: Matrix, n: nat, r: nat, w: Vector, i: nat)
    requires Square(m, n) && r < n && i < n && |w| == n
    ensures Square(m[r := w], n)
    ensures i == r ==> Minor(m[r := w], n, i) == Minor(m, n, i)
    ensures i < r ==> Minor(m[r := w], n, i) == Minor(m, n, i)[r - 1 := w[1..]]
    ensures r < i ==> Minor(m[r := w], n, i) == Minor(m, n, i)[r := w[1..]]
  {
  }

  lemma {:induction false} DetIsLinear(m: Matrix, n: nat, r: nat, u: Vector, f: real, v: Vector)
    requires Square(m, n) && r < n && |u| == n && |v| == n
    ensures Square(m[r := AddScaled(u, f, v)], n) && Square(m[r := u], n) && Square(m[r := v], n)
    ensures LinearAt(Det(m[r := AddScaled(u, f, v)], n), Det(m[r := u], n), f, Det(m[r := v], n))
    decreases n, n + 2
  {
    ExpansionIsLinear(m, n, r, u, f, v, n);
  }

  lemma {:induction false} ExpansionIsLinear(m: Matrix, n: nat, r: nat, u: Vector, f: real, v: Vector, count: nat)
    requires Square(m, n) && r < n && |u| == n && |v| == n && count <= n
    ensures Square(m[r := AddScaled(u, f, v)], n) && Square(m[r := u], n) && Square(m[r := v], n)
    ensures LinearAt(Expansion(m[r := AddScaled(u, f, v)], n, count),
                     Expansion(m[r := u], n, count), f, Expansion(m[r := v], n, count))
    decreases n, count + 1
  {
    var mu, mv, mw := m[r := u], m[r := v], m[r := AddScaled(u, f, v)];
    if count == 0 {
      assert Expansion(mu, n, 0) == Expansion(mv, n, 0) == Expansion(mw, n, 0) == 0.0;
    } else {
      var i := count - 1;
      assert i == r ==> LinearAt(mw[i][0], mu[i][0], f, mv[i][0]);
      hide LinearAt, Cofactor, AddScaled;
      ExpansionIsLinear(m, n, r, u, f, v, i);
      CofactorIsLinear(m, n, r, u, f, v, i);
      ExpansionStep(mu, n, count);
      ExpansionStep(mv, n, count);
      ExpansionStep(mw, n, count);
      hide Expansion;
      TermIsLinear(Expansion(mw, n, i), Expansion(mu, n, i), Expansion(mv, n, i),
                   Expansion(mw, n, count), Expansion(mu, n, count), Expansion(mv, n, count), f,
                   mw[i][0], mu[i][0], mv[i][0], Cofactor(mw, n, i), Cofactor(mu, n, i), Cofactor(mv, n, i), i == r);
    }
  }

  lemma ExpansionStep(m: Matrix, n: nat, count: nat)
    requires Square(m, n) && 0 < count <= n
    ensures LinearAt(Expansion(m, n, count), Expansion(m, n, count - 1), m[count - 1][0], Cofactor(m, n, count - 1))
  {
    hide Cofactor, AddProduct;
    AddProductIs(Expansion(m, n, count - 1), m[count - 1][0], Cofactor(m, n, count - 1));
  }

  lemma CofactorIsLinear(m: Matrix, n: nat, r: nat, u: Vector, f: real, v: Vector, i: nat)
    requires Square(m, n) && r < n && |u| == n && |v| == n && i < n
    ensures Square(m[r := AddScaled(u, f, v)], n) && Square(m[r := u], n) && Square(m[r := v], n)
    ensures i == r ==>
              && Cofactor(m[r := AddScaled(u, f, v)], n, i) == Cofactor(m[r := u], n, i) == Cofactor(m[r := v], n, i)
    ensures i != r ==>
              LinearAt(Cofactor(m[r := AddScaled(u, f, v)], n, i), Cofactor(m[r := u], n, i), f, Cofactor(m[r := v], n, i))
    decreases n, 0
  {
    var w := AddScaled(u, f, v);
    MinorOfUpdate(m, n, r, u, i);
    MinorOfUpdate(m, n, r, v, i);
    MinorOfUpdate(m, n, r, w, i);
    if i != r {
      var minor, k := Minor(m, n, i), if i < r then r - 1 else r;
      TailAddScaled(u, f, v);
      DetIsLinear(minor, n - 1, k, u[1..], f, v[1..]);
    }
  }

  // ---------- equal rows ----------

  lemma {:induction false} AdjacentEqual(m: Matrix, n: nat, r: nat)
    requires Square(m, n) && r + 1 < n && m[r] == m[r + 1]
    ensures Det(m, n) == 0.0
    decreases n, n + 2
  {
    AdjacentExpansion(m, n, r, n);
    hide Cofactor, Expansion;
  }

  // One term still waits for its opposite.
  ghost predicate Pending(sum: real, lead: real, cofactor: real, open: bool) {
    sum == if open then lead * cofactor else 0.0
  }

  // All terms but two vanish, and those two cancel.
  lemma {:induction false} AdjacentExpansion(m: Matrix, n: nat, r: nat, count: nat)
    requires Square(m, n) && r + 1 < n && m[r] == m[r + 1] && count <= n
    ensures Pending(Expansion(m, n, count), m[r][0], Cofactor(m, n, r), count == r + 1)
    decreases n, count + 1
  {
    hide *;
    SquareRows(m, n);
    ExpansionStart(m, n);
    if count > 0 {
      var i := count - 1;
      AdjacentExpansion(m, n, r, i);
      AdjacentCofactors(m, n, r, i);
      ExpansionStep(m, n, count);
      TwoTermsCancel(Expansion(m, n, count), Expansion(m, n, i), m[i][0], Cofactor(m, n, i), m[r][0], Cofactor(m, n, r),
                     count == r + 1, i == r + 1);
    } else {
      NothingPending(m[r][0], Cofactor(m, n, r));
    }
  }

  lemma SquareRows(m: Matrix, n: nat)
    requires Square(m, n)
    ensures |m| == n && forall i :: 0 <= i < n ==> |m[i]| == n
  {
  }

  lemma ExpansionStart(m: Matrix, n: nat)
    requires Square(m, n) && n > 0
    ensures Expansion(m, n, 0) == 0.0
  {
  }

  lemma AdjacentCofactors(m: Matrix, n: nat, r: nat, i: nat)
    requires Square(m, n) && r + 1 < n && m[r] == m[r + 1] && i < n
    ensures i == r + 1 ==> Cofactor(m, n, i) == -Cofactor(m, n, r)
    ensures i != r && i != r + 1 ==> Cofactor(m, n, i) == 0.0
    decreases n, 0
  {
    hide Sign, Det;
    if i == r + 1 {
      assert Minor(m, n, i) == Minor(m, n, r);
      SignAlternates(r);
    } else if i != r {
      TimesZero(Sign(i));
      AdjacentEqual(Minor(m, n, i), n - 1, if i < r then r - 1 else r);
    }
  }

  lemma TimesZero(s: real)
    ensures s * 0.0 == 0.0
  {
  }

  lemma SignAlternates(i: nat)
    ensures Sign(i + 1) == -Sign(i)
  {
  }

  lemma NothingPending(lead: real, cofactor: real)
    ensures Pending(0.0, lead, cofactor, false)
  {
  }

  lemma TwoTermsCancel(next: real, total: real, here: real, cofactor: real, lead: real, first: real, opens: bool, closes: bool)
    requires LinearAt(next, total, here, cofactor) && !(opens && closes)
    requires Pending(total, lead, first, closes)
    requires opens ==> here == lead && cofactor == first
    requires closes ==> here == lead && cofactor == -first
    requires !opens && !closes ==> cofactor == 0.0
    ensures Pending(next, lead, first, opens)
  {
    if closes {
      assert lead * -first == -(lead * first);
    }
  }

  // Two slots that vanish when equal change sign when exchanged.
  lemma SwapFromEqual(m: Matrix, n: nat, a: nat, b: nat)
    requires Square(m, n) && a < b < n
    requires forall k: Matrix :: Square(k, n) && k[a] == k[b] ==> Det(k, n) == 0.0
    ensures Square(m[a := m[b]][b := m[a]], n)
    ensures Det(m[a := m[b]][b := m[a]], n) == -Det(m, n)
  {
    var u, v := m[a], m[b];
    var s := AddScaled(u, 1.0, v);
    var both := m[a := s][b := s];
    var us, vs := m[a := u][b := s], m[a := v][b := s];
    assert both == us[a := s] && us == us[a := u] && vs == us[a := v];
    DetIsLinear(us, n, a, u, 1.0, v);
    var uu, uv := m[a := u][b := u], m[a := u][b := v];
    assert us == uu[b := s] && uu == uu[b := u] && uv == uu[b := v];
    DetIsLinear(uu, n, b, u, 1.0, v);
    var vu, vv := m[a := v][b := u], m[a := v][b := v];
    assert vs == vu[b := s] && vu == vu[b := u] && vv == vu[b := v];
    DetIsLinear(vu, n, b, u, 1.0, v);
    assert uv == m;
    assert Det(both, n) == 0.0 && Det(uu, n) == 0.0 && Det(vv, n) == 0.0;
  }

  lemma AdjacentSwap(m: Matrix, n: nat, r: nat)
    requires Square(m, n) && r + 1 < n
    ensures Square(m[r := m[r + 1]][r + 1 := m[r]], n)
    ensures Det(m[r := m[r + 1]][r + 1 := m[r]], n) == -Det(m, n)
  {
    forall k: Matrix | Square(k, n) && k[r] == k[r + 1] ensures Det(k, n) == 0.0 {
      AdjacentEqual(k, n, r);
    }
    SwapFromEqual(m, n, r, r + 1);
  }

  // The first row equal to any later one.
  lemma {:induction false} EqualToFirst(m: Matrix, n: nat, j: nat)
    requires Square(m, n) && 0 < j < n && m[0] == m[j]
    ensures Det(m, n) == 0.0
    decreases j
  {
    if j == 1 {
      AdjacentEqual(m, n, 0);
    } else {
      AdjacentSwap(m, n, j - 1);
      EqualToFirst(m[j - 1 := m[j]][j := m[j - 1]], n, j - 1);
    }
  }

  // ---------- the row laws used by elimination ----------

  function SwapRows(m: Matrix, a: nat, b: nat): (r: Matrix)
    requires a < |m| && b < |m|
    ensures |r| == |m|
  {
    m[a := m[b]][b := m[a]]
  }

  lemma SwapWithFirst(m: Matrix, n: nat, j: nat)
    requires Square(m, n) && 0 < j < n
    ensures Square(SwapRows(m, 0, j), n)
    ensures Det(SwapRows(m, 0, j), n) == -Det(m, n)
  {
    forall k: Matrix | Square(k, n) && k[0] == k[j] ensures Det(k, n) == 0.0 {
      EqualToFirst(k, n, j);
    }
    SwapFromEqual(m, n, 0, j);
  }

  lemma AddFirst(m: Matrix, n: nat, j: nat, f: real)
    requires Square(m, n) && 0 < j < n
    ensures Square(m[j := AddScaled(m[j], f, m[0])], n)
    ensures Det(m[j := AddScaled(m[j], f, m[0])], n) == Det(m, n)
  {
    DetIsLinear(m, n, j, m[j], f, m[0]);
    assert m[j := m[j]] == m;
    EqualToFirst(m[j := m[0]], n, j);
    assert f * 0.0 == 0.0;
  }

  // With a first column that is zero from row 1 on, only the first term remains.
  lemma {:induction false} FirstColumnCleared(m: Matrix, n: nat, count: nat)
    requires Square(m, n) && n > 0 && count <= n
    requires forall i :: 0 < i < n ==> m[i][0] == 0.0
    ensures Expansion(m, n, count) == if count == 0 then 0.0 else m[0][0] * Det(Minor(m, n, 0), n - 1)
  {
    if count > 1 {
      FirstColumnCleared(m, n, count - 1);
      hide Cofactor, AddProduct, Minor, Det;
      AddProductIs(Expansion(m, n, count - 1), m[count - 1][0], Cofactor(m, n, count - 1));
    } else if count == 1 {
      assert Cofactor(m, n, 0) == Det(Minor(m, n, 0), n - 1);
      hide Cofactor;
      assert Expansion(m, n, 0) == 0.0;
    }
  }

  lemma DetOfCleared(m: Matrix, n: nat)
    requires Square(m, n) && n > 0 && forall i :: 0 < i < n ==> m[i][0] == 0.0
    ensures Det(m, n) == m[0][0] * Det(Minor(m, n, 0), n - 1)
  {
    FirstColumnCleared(m, n, n);
    hide Expansion, Minor;
  }
}
