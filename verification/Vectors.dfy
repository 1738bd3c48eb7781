/**
  Vectors of exact reals and sums of products, shared by the determinant, matrix and regression
  models.

  A sum grows by one product at a time, through `AddProduct`, and every equation that holds a
  product is named by a small predicate.  Inductions over sums then pass such equations on as they
  are, and only the lemmas about a single term multiply out.
 */
module Vectors {
  type Vector = seq<real>

  function AddScaled(u: Vector, f: real, v: Vector): (r: Vector)
    requires |u| == |v|
    ensures |r| == |u| && forall i :: 0 <= i < |r| ==> r[i] == u[i] + f * v[i]
  {
    seq(|u|, i requires 0 <= i < |u| => u[i] + f * v[i])
  }

  lemma TailAddScaled(u: Vector, f: real, v: Vector)
    requires |u| == |v| && |u| > 0
    ensures AddScaled(u, f, v)[1..] == AddScaled(u[1..], f, v[1..])
  {
    var w, t := AddScaled(u, f, v)[1..], AddScaled(u[1..], f, v[1..]);
    forall i | 0 <= i < |t| ensures w[i] == t[i] {
      assert u[1..][i] == u[i + 1] && v[1..][i] == v[i + 1];
    }
  }

  function AddProduct(total: real, x: real, y: real): real {
    total + x * y
  }

  ghost predicate LinearAt(sum: real, a: real, f: real, b: real) {
    sum == a + f * b
  }

  lemma AddProductIs(total: real, x: real, y: real)
    ensures LinearAt(AddProduct(total, x, y), total, x, y)
    ensures x == 0.0 || y == 0.0 ==> AddProduct(total, x, y) == total
  {
  }

  lemma TermIsLinear(tw: real, tu: real, tv: real, sw: real, su: real, sv: real, f: real,
                     cw: real, cu: real, cv: real, kw: real, ku: real, kv: real, atRow: bool)
    requires LinearAt(tw, tu, f, tv)
    requires LinearAt(sw, tw, cw, kw) && LinearAt(su, tu, cu, ku) && LinearAt(sv, tv, cv, kv)
    requires atRow ==> LinearAt(cw, cu, f, cv) && kw == ku == kv
    requires !atRow ==> cw == cu == cv && LinearAt(kw, ku, f, kv)
    ensures LinearAt(sw, su, f, sv)
  {
    if atRow {
      assert (cu + f * cv) * kw == cu * kw + f * (cv * kw);
    } else {
      assert cw * (ku + f * kv) == cw * ku + f * (cw * kv);
    }
    assert f * (tv + cv * kv) == f * tv + f * (cv * kv);
  }

  function Dot(u: Vector, v: Vector): real
    requires |u| == |v|
  {
    if u == [] then 0.0 else AddProduct(Dot(u[..|u| - 1], v[..|v| - 1]), u[|u| - 1], v[|v| - 1])
  }

  lemma {:induction false} DotLinear(u: Vector, f: real, v: Vector, w: Vector)
    requires |u| == |v| == |w|
    ensures LinearAt(Dot(AddScaled(u, f, v), w), Dot(u, w), f, Dot(v, w))
  {
    if u != [] {
      var n := |u| - 1;
      var s := AddScaled(u, f, v);
      InitAddScaled(u, f, v);
      DotLinear(u[..n], f, v[..n], w[..n]);
      DotStep(s, w);
      DotStep(u, w);
      DotStep(v, w);
      assert LinearAt(s[n], u[n], f, v[n]);
      hide *;
      TermIsLinear(Dot(s[..n], w[..n]), Dot(u[..n], w[..n]), Dot(v[..n], w[..n]), Dot(s, w), Dot(u, w), Dot(v, w), f,
                   s[n], u[n], v[n], w[n], w[n], w[n], true);
    } else {
      assert AddScaled(u, f, v) == [];
    }
  }

  lemma InitAddScaled(u: Vector, f: real, v: Vector)
    requires |u| == |v| && u != []
    ensures AddScaled(u, f, v)[..|u| - 1] == AddScaled(u[..|u| - 1], f, v[..|v| - 1])
  {
    var n := |u| - 1;
    var w, t := AddScaled(u, f, v)[..n], AddScaled(u[..n], f, v[..n]);
    forall i | 0 <= i < n ensures w[i] == t[i] {
      assert u[..n][i] == u[i] && v[..n][i] == v[i];
    }
  }

  lemma DotStep(u: Vector, v: Vector)
    requires |u| == |v| && u != []
    ensures LinearAt(Dot(u, v), Dot(u[..|u| - 1], v[..|v| - 1]), u[|u| - 1], v[|v| - 1])
  {
    hide AddProduct;
    AddProductIs(Dot(u[..|u| - 1], v[..|v| - 1]), u[|u| - 1], v[|v| - 1]);
  }

  // Changing one pair of entries changes one product.
  lemma {:induction false} DotUpdate(u: Vector, v: Vector, p: nat, a: real, b: real)
    requires |u| == |v| && p < |u|
    ensures Replaced(Dot(u[p := a], v[p := b]), a, b, Dot(u, v), u[p], v[p])
  {
    hide *;
    var n := |u| - 1;
    var u', v' := u[p := a], v[p := b];
    DotStep(u, v);
    DotStep(u', v');
    if p < n {
      DotUpdate(u[..n], v[..n], p, a, b);
      assert u'[..n] == u[..n][p := a] && v'[..n] == v[..n][p := b];
      ReplacedBefore(Dot(u'[..n], v'[..n]), Dot(u', v'), a, b, Dot(u[..n], v[..n]), Dot(u, v), u[p], v[p], u[n], v[n]);
    } else {
      assert u'[..n] == u[..n] && v'[..n] == v[..n];
      ReplacedLast(Dot(u', v'), a, b, Dot(u, v), u[p], v[p], Dot(u[..n], v[..n]));
    }
  }

  ghost predicate Replaced(next: real, a: real, b: real, sum: real, x: real, y: real) {
    next - a * b == sum - x * y
  }

  lemma ReplacedBefore(next: real, next': real, a: real, b: real, sum: real, sum': real, x: real, y: real, u: real, v: real)
    requires Replaced(next, a, b, sum, x, y) && LinearAt(next', next, u, v) && LinearAt(sum', sum, u, v)
    ensures Replaced(next', a, b, sum', x, y)
  {
  }

  lemma ReplacedLast(next: real, a: real, b: real, sum: real, x: real, y: real, rest: real)
    requires LinearAt(next, rest, a, b) && LinearAt(sum, rest, x, y)
    ensures Replaced(next, a, b, sum, x, y)
  {
  }

  lemma ReplacedSame(next: real, a: real, b: real, sum: real, x: real, y: real)
    requires Replaced(next, a, b, sum, x, y) && a * b == x * y
    ensures next == sum
  {
  }

  lemma SameSum(s: real, t: real, a: real, f: real, b: real)
    requires LinearAt(s, a, f, b) && LinearAt(t, a, f, b)
    ensures s == t
  {
  }

  lemma {:induction false} DotZero(u: Vector, v: Vector)
    requires |u| == |v| && forall i :: 0 <= i < |v| ==> v[i] == 0.0
    ensures Dot(u, v) == 0.0
  {
    hide AddProduct;
    if u != [] {
      var n := |u| - 1;
      AddProductIs(Dot(u[..n], v[..n]), u[n], v[n]);
      DotZero(u[..n], v[..n]);
    }
  }

  lemma {:induction false} DotCommutes(u: Vector, v: Vector)
    requires |u| == |v|
    ensures Dot(u, v) == Dot(v, u)
  {
    hide AddProduct;
    if u != [] {
      var n := |u| - 1;
      DotCommutes(u[..n], v[..n]);
      AddProductCommutes(Dot(u[..n], v[..n]), u[n], v[n]);
    }
  }

  lemma AddProductCommutes(total: real, x: real, y: real)
    ensures AddProduct(total, x, y) == AddProduct(total, y, x)
  {
  }
}
