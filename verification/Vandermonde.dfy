/**
  Vandermonde matrices and `invert_vdm`, the fast inverter of fec.c.  The method
  computes `VdmResult`; `VdmResultIsInverse` says exactly when that is the inverse.
 */
module Vandermonde {
  import opened Sequences
  import opened Galois
  import opened GaloisTables
  import opened LinearAlgebra
  import opened Polynomials

  ghost function VdmMatrix(ps: Vec, k: nat): (m: Mat)
    ensures IsMat(m, |ps|, k) && forall i :: 0 <= i < |ps| ==> m[i] == PowerRow(ps[i], k)
  {
    seq(|ps|, i requires 0 <= i < |ps| => PowerRow(ps[i], k))
  }

  /** A square Vandermonde matrix with distinct points is nonsingular. */
  lemma VandermondeNonsingular(ps: Vec)
    requires Distinct(ps)
    ensures Nonsingular(VdmMatrix(ps, |ps|), |ps|)
  {
    var k := |ps|;
    var m := VdmMatrix(ps, k);
    forall x: Vec | |x| == k && MatVec(m, x) == Zeros(k)
      ensures x == Zeros(k)
    {
      forall i | 0 <= i < k
        ensures Eval(x, ps[i]) == 0
      {
        DotPowerRow(ps[i], x);
        assert MatVec(m, x)[i] == 0;
      }
      TooManyRoots(x, ps);
    }
  }

  // ----- what the code computes -----

  /**
    The coefficients the code builds for the product of (x + p).  Its loop never
    writes the newest constant term, which therefore stays zero.
   */
  ghost function CodePoly(ps: Vec): (c: Vec)
    requires |ps| >= 1
    ensures |c| == |ps| + 1
  {
    var n := |ps| - 1;
    if n == 0 then [ps[0], 1] else MulLinear(CodePoly(ps[..n]), ps[n])[0 := 0]
  }

  /** Column `row` of the result: the scaled quotient of c by (x + ps[row]). */
  ghost function VdmColumn(c: Vec, p: gf): (v: Vec)
    requires |c| > 0
    ensures |v| == |c| - 1
  {
    var b := Quotient(c, p);
    Scale(Inv(Eval(b, p)), b)
  }

  ghost function VdmResult(ps: Vec): (w: Mat)
    requires |ps| >= 1
    ensures IsMat(w, |ps|, |ps|)
    ensures forall r :: 0 <= r < |ps| ==> Column(w, |ps|, r) == VdmColumn(CodePoly(ps), ps[r])
  {
    var k := |ps|;
    var w := seq(k, col requires 0 <= col < k =>
      seq(k, row requires 0 <= row < k => VdmColumn(CodePoly(ps), ps[row])[col]));
    assert forall r :: 0 <= r < k ==> Column(w, k, r) == VdmColumn(CodePoly(ps), ps[r]);
    w
  }

  // ----- when it is right -----

  lemma WithoutMember(ps: Vec, j: nat, r: nat)
    requires Distinct(ps) && j < |ps| && r < |ps|
    ensures ps[j] in Without(ps, r) <==> j != r
  {
    if j < r {
      assert Without(ps, r)[j] == ps[j];
    } else if r < j {
      assert Without(ps, r)[j - 1] == ps[j];
    }
  }

  /** The quotient by (x + ps[r]) is the product of the other factors. */
  lemma QuotientIsLagrange(ps: Vec, c: Vec, r: nat)
    requires Distinct(ps) && r < |ps| && |c| == |ps| + 1
    requires forall i :: 1 <= i <= |ps| ==> c[i] == ProdPoly(ps)[i]
    ensures Quotient(c, ps[r]) == ProdPoly(Without(ps, r))
    ensures Eval(Quotient(c, ps[r]), ps[r]) != 0
  {
    hide Eval, ProdPoly, MulLinear, Distinct, Quotient;
    ProdPolyFactor(ps, r);
    QuotientOfMultiple(c, ProdPoly(Without(ps, r)), ps[r]);
    ProdPolyRoots(Without(ps, r), ps[r]);
    WithoutMember(ps, r, r);
  }

  /** The Lagrange basis: the quotient vanishes at every point but its own. */
  lemma LagrangeColumn(ps: Vec, c: Vec, j: nat, r: nat)
    requires Distinct(ps) && j < |ps| && r < |ps| && |c| == |ps| + 1
    requires forall i :: 1 <= i <= |ps| ==> c[i] == ProdPoly(ps)[i]
    ensures Dot(PowerRow(ps[j], |ps|), VdmColumn(c, ps[r])) == if j == r then 1 else 0
  {
    hide Mul, Inv, ProdPoly, Eval, Dot, PowerRow, Without, Distinct, Quotient, Scale;
    QuotientIsLagrange(ps, c, r);
    var b := Quotient(c, ps[r]);
    var t := Eval(b, ps[r]);
    DotPowerRow(ps[j], VdmColumn(c, ps[r]));
    EvalScale(Inv(t), b, ps[j]);
    ProdPolyRoots(Without(ps, r), ps[j]);
    WithoutMember(ps, j, r);
    MulInv(t);
    MulZero(Inv(t));
  }

  lemma LagrangeEntry(ps: Vec, j: nat, r: nat)
    requires |ps| >= 1 && Distinct(ps) && j < |ps| && r < |ps|
    requires forall i :: 1 <= i <= |ps| ==> CodePoly(ps)[i] == ProdPoly(ps)[i]
    ensures VecMat(VdmMatrix(ps, |ps|)[j], VdmResult(ps), |ps|)[r] == if j == r then 1 else 0
  {
    hide Dot, CodePoly, VdmColumn, ProdPoly, PowerRow, VdmResult, VdmMatrix;
    LagrangeColumn(ps, CodePoly(ps), j, r);
  }

  lemma RightWhenCoefficientsRight(ps: Vec)
    requires |ps| >= 1 && Distinct(ps)
    requires forall i :: 1 <= i <= |ps| ==> CodePoly(ps)[i] == ProdPoly(ps)[i]
    ensures IsInverse(VdmMatrix(ps, |ps|), VdmResult(ps), |ps|)
  {
    hide Dot, CodePoly, VdmColumn, ProdPoly, Nonsingular, VecMat, VdmResult, VdmMatrix, PowerRow, Distinct;
    hide IsInverse, MatMul;
    var k := |ps|;
    var v, w := VdmMatrix(ps, k), VdmResult(ps);
    forall j | 0 <= j < k
      ensures MatMul(v, w, k)[j] == Unit(k, j)
    {
      forall r | 0 <= r < k
        ensures MatMul(v, w, k)[j][r] == Unit(k, j)[r]
      {
        LagrangeEntry(ps, j, r);
      }
    }
    assert MatMul(v, w, k) == Identity(k);
    RightInverseIsInverse(v, w, k);
  }

  /** With a zero among the first two points the skipped constant term is zero anyway. */
  lemma {:induction false} CodePolyRight(ps: Vec)
    requires |ps| >= 2 && (ps[0] == 0 || ps[1] == 0)
    ensures CodePoly(ps) == ProdPoly(ps) && ProdPoly(ps)[0] == 0
  {
    hide Add, Mul, MulLinear;
    var n := |ps| - 1;
    var a := ps[n];
    CodePolyFirst(ps[..1]);
    if n > 1 { CodePolyRight(ps[..n]); }
    var q := ProdPoly(ps[..n]);
    assert CodePoly(ps[..n]) == q;
    MulLinearAt(q, a, 0);
    MulZero(a); MulZero(q[0]); AddZero(0);
    if n == 1 { assert q[0] == ps[0]; }
    assert MulLinear(q, a)[0] == 0;
  }

  lemma CodePolyFirst(ps: Vec)
    requires |ps| == 1
    ensures CodePoly(ps) == ProdPoly(ps) == [ps[0], 1]
  {
    hide Add, Mul, MulLinear;
    assert ps[..0] == [];
    MulLinearAt([1], ps[0], 0);
    MulLinearAt([1], ps[0], 1);
    MulOne(ps[0]);
    AddZero(ps[0]);
    AddZero(1);
    assert ProdPoly(ps) == MulLinear([1], ps[0]);
  }

  /** Otherwise the second-highest computed coefficient is off by ps[0]*ps[1]. */
  lemma {:induction false} CodePolyOff(ps: Vec)
    requires |ps| >= 2
    ensures CodePoly(ps)[|ps|] == 1
    ensures CodePoly(ps)[|ps| - 1] == ProdPoly(ps)[|ps| - 1]
    ensures Add(CodePoly(ps)[|ps| - 2], Mul(ps[1], ps[0])) == ProdPoly(ps)[|ps| - 2]
  {
    hide Add, Mul, MulLinear;
    var n := |ps| - 1;
    var a := ps[n];
    var c, q := CodePoly(ps[..n]), ProdPoly(ps[..n]);
    MulLinearAt(q, a, n + 1); MulLinearAt(q, a, n); MulLinearAt(q, a, n - 1);
    MulLinearAt(c, a, n + 1); MulLinearAt(c, a, n); MulLinearAt(c, a, n - 1);
    AddZero(1);
    if n == 1 {
      CodePolyFirst(ps[..1]);
      AddZero(Mul(a, ps[0]));
    } else {
      CodePolyOff(ps[..n]);
      var e := Mul(ps[1], ps[0]);
      AddAssoc(c[n - 2], Mul(a, c[n - 1]), e);
      AddComm(Mul(a, c[n - 1]), e);
      AddAssoc(c[n - 2], e, Mul(a, c[n - 1]));
    }
  }

  /** With two points the skipped coefficient is never read. */
  lemma CodePolyTwo(ps: Vec)
    requires |ps| == 2
    ensures forall i :: 1 <= i <= 2 ==> CodePoly(ps)[i] == ProdPoly(ps)[i]
  {
    CodePolyOff(ps);
  }

  /** If the result were the inverse, its first column would be the true Lagrange column. */
  lemma WrongWhenCoefficientsWrong(ps: Vec)
    requires |ps| >= 3 && Distinct(ps) && ps[0] != 0 && ps[1] != 0
    ensures !IsInverse(VdmMatrix(ps, |ps|), VdmResult(ps), |ps|)
  {
    hide Dot, CodePoly, VdmColumn, Mul, Nonsingular, ProdPoly, VdmMatrix, VdmResult, MatMul, PowerRow;
    var k := |ps|;
    var v, w := VdmMatrix(ps, k), VdmResult(ps);
    if MatMul(v, w, k) == Identity(k) {
      var c, d := CodePoly(ps), ProdPoly(ps);
      var x, y := VdmColumn(c, ps[0]), VdmColumn(d, ps[0]);
      assert Column(w, k, 0) == x;
      forall i | 0 <= i < k
        ensures MatVec(v, x)[i] == MatVec(v, y)[i]
      {
        LagrangeColumn(ps, d, i, 0);
        MatMulColumn(v, w, k, 0);
        assert Column(MatMul(v, w, k), k, 0)[i] == Unit(k, i)[0];
      }
      VandermondeNonsingular(ps);
      NonsingularInjective(v, x, y, k);
      CodePolyOff(ps);
      QuotientIsLagrange(ps, d, 0);
      QuotientsDiffer(c, d, ps[0], Mul(ps[1], ps[0]));
      MulNonzero(ps[1], ps[0]);
    }
  }

  /** The top three coefficients of two monic polynomials decide whether their columns agree. */
  lemma QuotientsDiffer(c: Vec, d: Vec, a: gf, e: gf)
    requires |c| == |d| >= 4
    requires var k := |c| - 1; c[k] == d[k] == 1 && c[k - 1] == d[k - 1] && Add(c[k - 2], e) == d[k - 2]
    requires VdmColumn(c, a) == VdmColumn(d, a)
    requires Eval(Quotient(d, a), a) != 0
    ensures e == 0
  {
    hide Add, Mul, Inv, Eval, Quotient;
    var k := |c| - 1;
    var b, b' := Quotient(c, a), Quotient(d, a);
    var s, s' := Inv(Eval(b, a)), Inv(Eval(b', a));
    TopCoefficients(c, a);
    TopCoefficients(d, a);
    var u, u' := VdmColumn(c, a), VdmColumn(d, a);
    assert u[k - 1] == Mul(s, 1) && u'[k - 1] == Mul(s', 1);
    MulOne(s); MulOne(s');
    assert s == s';
    MulInv(Eval(b', a));
    assert u[k - 3] == Mul(s, b[k - 3]) && u'[k - 3] == Mul(s, b'[k - 3]);
    MulCancel(s, b[k - 3], b'[k - 3]);
    // b[k-3] = c[k-2] + a*b[k-2], and b[k-2] is the same on both sides
    var y := Mul(a, b[k - 2]);
    AddCancel(c[k - 2], y); AddCancel(d[k - 2], y);
    assert c[k - 2] == d[k - 2];
    AddComm(c[k - 2], e); AddCancel(e, c[k - 2]); AddSelf(c[k - 2]);
  }

  lemma MulCancel(s: gf, a: gf, b: gf)
    requires s != 0 && Mul(s, a) == Mul(s, b)
    ensures a == b
  {
    hide Mul, Inv;
    MulInv(s);
    MulAssoc(Inv(s), s, a); MulAssoc(Inv(s), s, b);
    MulOne(a); MulOne(b);
  }

  lemma TopCoefficients(c: Vec, a: gf)
    requires |c| >= 4 && c[|c| - 1] == 1
    ensures var k := |c| - 1; var b := Quotient(c, a);
      && b[k - 1] == 1
      && b[k - 2] == Add(c[k - 1], Mul(a, b[k - 1]))
      && b[k - 3] == Add(c[k - 2], Mul(a, b[k - 2]))
  {
    hide Add, Mul;
    var k := |c| - 1;
    assert c[k..][1..] == [];
    assert c[k - 1..][1..] == c[k..];
    assert c[k - 2..][1..] == c[k - 1..];
    assert Eval(c[k..], a) == Add(1, Mul(a, Eval([], a)));
    MulZero(a);
    AddZero(1);
  }

  /**
    `invert_vdm` inverts a Vandermonde matrix with distinct points exactly when the matrix
    has at most two rows or one of its first two points is zero.
   */
  lemma VdmResultIsInverse(ps: Vec)
    requires |ps| >= 2 && Distinct(ps)
    ensures IsInverse(VdmMatrix(ps, |ps|), VdmResult(ps), |ps|)
       <==> |ps| == 2 || ps[0] == 0 || ps[1] == 0
  {
    hide CodePoly, ProdPoly, IsInverse, VdmMatrix, VdmResult;
    if |ps| == 2 {
      CodePolyTwo(ps);
      RightWhenCoefficientsRight(ps);
    } else if ps[0] == 0 || ps[1] == 0 {
      CodePolyRight(ps);
      RightWhenCoefficientsRight(ps);
    } else {
      WrongWhenCoefficientsWrong(ps);
    }
  }

  // ----- the inverter -----

  /**
    After i + 1 points the last i + 1 cells hold the coefficients below the leading one,
    which is implicit; the other cells are still zero.
   */
  ghost predicate Coefficients(c: Vec, ps: Vec, i: nat)
    requires i < |ps| && |c| == |ps|
  {
    var r := CodePoly(ps[..i + 1]);
    && (forall m :: 0 <= m <= i ==> r[m] == c[|ps| - 1 - i + m])
    && r[i + 1] == 1
    && (forall m :: 0 <= m < |ps| - 1 - i ==> c[m] == 0)
  }

  /** One round of the construction loop, for the i-th point p. */
  ghost function Extend(c: Vec, i: nat, p: gf): (d: Vec)
    requires 1 <= i < |c|
    ensures |d| == |c|
  {
    var k := |c|;
    seq(k, m requires 0 <= m < k =>
      if m < k - i then c[m] else if m < k - 1 then Add(c[m], Mul(p, c[m + 1])) else Add(c[m], p))
  }

  lemma ExtendAt(c: Vec, i: nat, p: gf)
    requires 1 <= i < |c|
    ensures var k, d := |c|, Extend(c, i, p);
      && (forall m :: 0 <= m < k - i ==> d[m] == c[m])
      && (forall m :: k - i <= m < k - 1 ==> d[m] == Add(c[m], Mul(p, c[m + 1])))
      && d[k - 1] == Add(c[k - 1], p)
  {}

  lemma ExtendStep(c: Vec, ps: Vec, i: nat)
    requires |c| == |ps| && 1 <= i < |ps| && Coefficients(c, ps, i - 1)
    ensures Coefficients(Extend(c, i, ps[i]), ps, i)
  {
    hide Add, Mul, MulLinear;
    assert ps[..i + 1][..i] == ps[..i];
    var q, p := CodePoly(ps[..i]), ps[i];
    var d := Extend(c, i, p);
    var r := CodePoly(ps[..i + 1]);
    assert r == MulLinear(q, p)[0 := 0];
    AddZero(1);
    MulOne(p);
    MulLinearAt(q, p, i + 1);
    forall m | 0 <= m <= i
      ensures r[m] == d[|ps| - 1 - i + m]
    {
      MulLinearAt(q, p, m);
    }
  }

  method ExtendPoly(t: Tables, c: array<gf>, i: nat, p: gf)
    requires Valid(t) && 1 <= i < c.Length
    modifies c
    ensures c[..] == Extend(old(c[..]), i, p)
  {
    hide Add, Mul, Valid, Extend;
    var k := c.Length;
    ExtendAt(c[..], i, p);
    ghost var d := Extend(c[..], i, p);
    var j := k - i;
    while j < k - 1
      invariant k - i <= j <= k - 1
      invariant forall m :: 0 <= m < j ==> c[m] == d[m]
      invariant forall m :: j <= m < k ==> c[m] == old(c[m])
    {
      var x := GfMul(t, p, c[j + 1]);
      c[j] := Add(c[j], x);
      j := j + 1;
    }
    c[k - 1] := Add(c[k - 1], p);
  }

  /** The coefficients of the product of (x + p) over all points. */
  method BuildPoly(t: Tables, p: array<gf>) returns (c: array<gf>)
    requires Valid(t) && p.Length >= 1
    ensures fresh(c) && c.Length == p.Length
    ensures c[..] + [1] == CodePoly(p[..])
  {
    hide Valid, CodePoly, Extend;
    var k := p.Length;
    c := new gf[k](_ => 0);
    c[k - 1] := p[0];
    ghost var ps := p[..];
    FirstCoefficients(c[..], ps);
    var i := 1;
    while i < k
      invariant 1 <= i <= k && p[..] == ps
      invariant Coefficients(c[..], ps, i - 1)
    {
      ExtendStep(c[..], ps, i);
      ExtendPoly(t, c, i, p[i]);
      i := i + 1;
    }
    assert ps[..k] == ps;
    assert c[..] + [1] == CodePoly(ps);
  }

  lemma FirstCoefficients(c: Vec, ps: Vec)
    requires |c| == |ps| >= 1 && c[|c| - 1] == ps[0]
    requires forall m :: 0 <= m < |c| - 1 ==> c[m] == 0
    ensures Coefficients(c, ps, 0)
  {
    assert CodePoly(ps[..1]) == [ps[0], 1];
  }

  /** Synthetic division of the polynomial by (x + xx), and the quotient's value at xx. */
  method SyntheticDivision(t: Tables, c: array<gf>, b: array<gf>, xx: gf, ghost poly: Vec) returns (value: gf)
    requires Valid(t) && b != c && b.Length == c.Length >= 1
    requires |poly| == c.Length + 1 && poly == c[..] + [1]
    modifies b
    ensures b[..] == Quotient(poly, xx)
    ensures value == Eval(Quotient(poly, xx), xx)
  {
    hide Add, Mul, Valid, Eval;
    var k := c.Length;
    value := 1;
    b[k - 1] := 1;
    ghost var q := Quotient(poly, xx);
    var i := k - 1;
    EvalStep(poly, k, xx);
    EvalStep(q, k - 1, xx);
    MulZero(xx); AddZero(1);
    while i > 0
      invariant 0 <= i <= k - 1
      invariant forall m :: i <= m < k ==> b[m] == q[m]
      invariant value == Eval(q[i..], xx)
    {
      i := i - 1;
      EvalStep(poly, i + 1, xx);
      EvalStep(q, i, xx);
      var x := GfMul(t, xx, b[i + 1]);
      b[i] := Add(c[i + 1], x);
      var y := GfMul(t, xx, value);
      AddComm(y, b[i]);
      value := Add(y, b[i]);
    }
    assert q[0..] == q;
  }

  lemma EvalStep(c: Vec, i: nat, y: gf)
    requires i < |c|
    ensures Eval(c[i..], y) == Add(c[i], Mul(y, Eval(c[i + 1..], y)))
    ensures i + 1 == |c| ==> Eval(c[i + 1..], y) == 0
  {
    hide Add, Mul;
    assert c[i..][1..] == c[i + 1..];
  }

  /** Replaces the Vandermonde matrix in the first k rows of src; only its second column is read. */
  method InvertVdm(t: Tables, src: array2<gf>, ghost ps: Vec)
    requires Valid(t) && |ps| == src.Length1 >= 1 && src.Length0 >= src.Length1
    requires forall i, j :: 0 <= i < |ps| && 0 <= j < |ps| ==> src[i, j] == Pow(ps[i], j)
    modifies src
    ensures |ps| == 1 ==> src[0, 0] == 1
    ensures |ps| >= 2 ==> forall i, j :: 0 <= i < |ps| && 0 <= j < |ps| ==> src[i, j] == VdmResult(ps)[i][j]
    ensures forall i, j :: |ps| <= i < src.Length0 && 0 <= j < |ps| ==> src[i, j] == old(src[i, j])
  {
    hide Add, Mul, Valid, Eval, CodePoly, Inv, MulLinear;
    var k := src.Length1;
    if k == 1 {
      return;
    }
    var p := new gf[k];
    var i := 0;
    while i < k
      invariant 0 <= i <= k
      invariant forall m :: 0 <= m < i ==> p[m] == ps[m]
      invariant forall i, j :: 0 <= i < src.Length0 && 0 <= j < k ==> src[i, j] == old(src[i, j])
    {
      PowOne(ps[i]);
      p[i] := src[i, 1];
      i := i + 1;
    }
    assert p[..] == ps;
    var c := BuildPoly(t, p);
    var b := new gf[k];
    var row := 0;
    while row < k
      invariant 0 <= row <= k
      invariant p[..] == ps && c[..] + [1] == CodePoly(ps)
      invariant forall i, j :: 0 <= i < k && 0 <= j < row ==> src[i, j] == VdmColumn(CodePoly(ps), ps[j])[i]
      invariant forall i, j :: k <= i < src.Length0 && 0 <= j < k ==> src[i, j] == old(src[i, j])
    {
      var value := SyntheticDivision(t, c, b, p[row], CodePoly(ps));
      var inv := GfInverse(t, value);
      WriteColumn(t, src, row, inv, b, k);
      row := row + 1;
    }
    forall i, j | 0 <= i < k && 0 <= j < k
      ensures src[i, j] == VdmResult(ps)[i][j]
    {
      assert Column(VdmResult(ps), k, j)[i] == VdmResult(ps)[i][j];
    }
  }

  lemma PowOne(a: gf)
    ensures Pow(a, 1) == a
  {
    assert Pow(a, 1) == Mul(a, Pow(a, 0));
    MulOne(a);
  }

  /** Stores the scaled quotient in one column of the first k rows. */
  method WriteColumn(t: Tables, src: array2<gf>, row: nat, inv: gf, b: array<gf>, k: nat)
    requires Valid(t) && k <= src.Length0 && row < src.Length1 && b.Length == k
    modifies src
    ensures forall i :: 0 <= i < k ==> src[i, row] == Scale(inv, b[..])[i]
    ensures forall i, j :: 0 <= i < src.Length0 && 0 <= j < src.Length1 && (j != row || i >= k) ==>
      src[i, j] == old(src[i, j])
  {
    hide Mul, Valid;
    var col := 0;
    while col < k
      invariant 0 <= col <= k
      invariant forall i :: 0 <= i < col ==> src[i, row] == Mul(inv, b[i])
      invariant forall i, j :: 0 <= i < src.Length0 && 0 <= j < src.Length1 && (j != row || i >= col) ==>
        src[i, j] == old(src[i, j])
    {
      var x := GfMul(t, inv, b[col]);
      src[col, row] := x;
      col := col + 1;
    }
  }
}
