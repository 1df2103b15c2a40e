/**
  Vectors and matrices over GF(2^8), as sequences.  This is the reference against
  which the in-place algorithms of fec.c are proved.
 */
module LinearAlgebra {
  import opened Galois

  type Vec = seq<gf>
  type Mat = seq<seq<gf>>

  predicate IsMat(m: Mat, rows: nat, cols: nat) {
    |m| == rows && forall i :: 0 <= i < rows ==> |m[i]| == cols
  }

  function Zeros(k: nat): (v: Vec)
    ensures |v| == k && forall i :: 0 <= i < k ==> v[i] == 0
  {
    seq(k, _ => 0)
  }

  function Unit(k: nat, p: nat): (v: Vec)
    ensures |v| == k && forall i :: 0 <= i < k ==> v[i] == if i == p then 1 else 0
  {
    seq(k, i => if i == p then 1 else 0)
  }

  function Identity(k: nat): (m: Mat)
    ensures IsMat(m, k, k) && forall i :: 0 <= i < k ==> m[i] == Unit(k, i)
  {
    seq(k, i requires 0 <= i => Unit(k, i))
  }

  function VAdd(u: Vec, v: Vec): (w: Vec)
    requires |u| == |v|
    ensures |w| == |u| && forall i :: 0 <= i < |w| ==> w[i] == Add(u[i], v[i])
  {
    seq(|u|, i requires 0 <= i < |u| => Add(u[i], v[i]))
  }

  ghost function Scale(c: gf, v: Vec): (w: Vec)
    ensures |w| == |v| && forall i :: 0 <= i < |w| ==> w[i] == Mul(c, v[i])
  {
    seq(|v|, i requires 0 <= i < |v| => Mul(c, v[i]))
  }

  // ----- inner products -----

  /** The inner product of the first n entries, summed from the left. */
  ghost function DotN(u: Vec, v: Vec, n: nat): gf
    requires n <= |u| && n <= |v|
  {
    if n == 0 then 0 else Add(DotN(u, v, n - 1), Mul(u[n - 1], v[n - 1]))
  }

  ghost function Dot(u: Vec, v: Vec): gf
    requires |u| == |v|
  {
    DotN(u, v, |u|)
  }

  lemma {:induction false} DotComm(u: Vec, v: Vec, n: nat)
    requires n <= |u| && n <= |v|
    ensures DotN(u, v, n) == DotN(v, u, n)
  {
    hide Add, Mul;
    if n > 0 {
      DotComm(u, v, n - 1);
      MulComm(u[n - 1], v[n - 1]);
    }
  }

  lemma {:induction false} DotZero(u: Vec, v: Vec, n: nat)
    requires n <= |u| && n <= |v|
    requires forall i :: 0 <= i < n ==> v[i] == 0
    ensures DotN(u, v, n) == 0 && DotN(v, u, n) == 0
  {
    hide Add, Mul;
    if n > 0 {
      DotZero(u, v, n - 1);
      MulZero(u[n - 1]);
      AddZero(0);
    }
  }

  lemma {:induction false} DotAdd(u: Vec, v: Vec, w: Vec, n: nat)
    requires n <= |u| && n <= |v| && |v| == |w|
    ensures DotN(u, VAdd(v, w), n) == Add(DotN(u, v, n), DotN(u, w, n))
    ensures DotN(VAdd(v, w), u, n) == Add(DotN(v, u, n), DotN(w, u, n))
  {
    hide Add, Mul;
    if n == 0 {
      AddZero(0);
    } else {
      var m := n - 1;
      DotAdd(u, v, w, m);
      MulDistr(u[m], v[m], w[m]);
      AddExchange(DotN(u, v, m), DotN(u, w, m), Mul(u[m], v[m]), Mul(u[m], w[m]));
      AddExchange(DotN(v, u, m), DotN(w, u, m), Mul(v[m], u[m]), Mul(w[m], u[m]));
    }
  }

  lemma {:induction false} DotScale(u: Vec, c: gf, v: Vec, n: nat)
    requires n <= |u| && n <= |v|
    ensures DotN(u, Scale(c, v), n) == Mul(c, DotN(u, v, n))
    ensures DotN(Scale(c, v), u, n) == Mul(c, DotN(v, u, n))
  {
    hide Add, Mul;
    if n == 0 {
      MulZero(c);
    } else {
      var m := n - 1;
      DotScale(u, c, v, m);
      MulDistr(c, DotN(u, v, m), Mul(u[m], v[m]));
      MulDistr(c, DotN(v, u, m), Mul(v[m], u[m]));
      MulComm(u[m], v[m]);
      MulComm(u[m], Mul(c, v[m]));
      MulAssoc(c, v[m], u[m]);
    }
  }

  lemma {:induction false} DotUnit(k: nat, p: nat, v: Vec, n: nat)
    requires n <= k && n <= |v|
    ensures DotN(Unit(k, p), v, n) == if p < n then v[p] else 0
  {
    hide Add, Mul;
    if n > 0 {
      var m := n - 1;
      DotUnit(k, p, v, m);
      MulOne(v[m]); MulZero(v[m]);
      AddZero(v[m]); AddZero(DotN(Unit(k, p), v, m));
    }
  }

  /** Replacing one entry of the right-hand vector. */
  lemma {:induction false} DotUpdate(a: Vec, v: Vec, p: nat, t: gf, n: nat)
    requires n <= |a| && n <= |v| && p < |v|
    ensures DotN(a, v[p := t], n)
         == if p < n then Add(DotN(a, v, n), Mul(a[p], Add(v[p], t))) else DotN(a, v, n)
  {
    hide Add, Mul;
    if n > 0 {
      var m := n - 1;
      DotUpdate(a, v, p, t, m);
      var d := DotN(a, v, m);
      if p == m {
        // d + a*t  ==  (d + a*v) + a*(v + t)
        MulDistr(a[p], v[p], t);
        var x, y := Mul(a[p], v[p]), Mul(a[p], t);
        AddAssoc(Add(d, x), x, y);
        AddCancel(d, x);
      } else if p < m {
        var x, y := Mul(a[m], v[m]), Mul(a[p], Add(v[p], t));
        AddAssoc(d, x, y); AddComm(x, y); AddAssoc(d, y, x);
      }
    }
  }

  // ----- matrices -----

  ghost function MatVec(m: Mat, x: Vec): (y: Vec)
    requires IsMat(m, |m|, |x|)
    ensures |y| == |m| && forall i :: 0 <= i < |m| ==> y[i] == Dot(m[i], x)
  {
    seq(|m|, i requires 0 <= i < |m| => Dot(m[i], x))
  }

  function Column(m: Mat, k: nat, j: nat): (c: Vec)
    requires IsMat(m, |m|, k) && j < k
    ensures |c| == |m| && forall i :: 0 <= i < |m| ==> c[i] == m[i][j]
  {
    seq(|m|, i requires 0 <= i < |m| => m[i][j])
  }

  /** The row vector u times the first n rows of m. */
  ghost function VecMatN(u: Vec, m: Mat, cols: nat, n: nat): (w: Vec)
    requires n <= |u| && n <= |m| && IsMat(m, |m|, cols)
    ensures |w| == cols && forall j :: 0 <= j < cols ==> w[j] == DotN(u, Column(m, cols, j), n)
  {
    seq(cols, j requires 0 <= j < cols => DotN(u, Column(m, cols, j), n))
  }

  ghost function VecMat(u: Vec, m: Mat, cols: nat): (w: Vec)
    requires |u| == |m| && IsMat(m, |m|, cols)
    ensures |w| == cols && forall j :: 0 <= j < cols ==> w[j] == Dot(u, Column(m, cols, j))
  {
    VecMatN(u, m, cols, |u|)
  }

  ghost function MatMul(a: Mat, b: Mat, cols: nat): (c: Mat)
    requires IsMat(a, |a|, |b|) && IsMat(b, |b|, cols)
    ensures IsMat(c, |a|, cols) && forall i :: 0 <= i < |a| ==> c[i] == VecMat(a[i], b, cols)
  {
    seq(|a|, i requires 0 <= i < |a| => VecMat(a[i], b, cols))
  }

  lemma VecMatStep(u: Vec, m: Mat, cols: nat, n: nat)
    requires n < |u| && n < |m| && IsMat(m, |m|, cols)
    ensures VecMatN(u, m, cols, n + 1) == VAdd(VecMatN(u, m, cols, n), Scale(u[n], m[n]))
  {
    hide Add, Mul;
    var w, w' := VecMatN(u, m, cols, n + 1), VAdd(VecMatN(u, m, cols, n), Scale(u[n], m[n]));
    forall j | 0 <= j < cols
      ensures w[j] == w'[j]
    {
      assert Column(m, cols, j)[n] == m[n][j];
    }
  }

  /** (u*m)*x == u*(m*x), restricted to the first n rows of m. */
  lemma {:induction false} DotAssocN(u: Vec, m: Mat, x: Vec, n: nat)
    requires n <= |u| && n <= |m| && IsMat(m, |m|, |x|)
    ensures DotN(u, MatVec(m, x), n) == Dot(VecMatN(u, m, |x|, n), x)
  {
    hide Add, Mul, MatVec, VecMatN, VAdd, Scale;
    if n == 0 {
      DotZero(x, VecMatN(u, m, |x|, 0), |x|);
    } else {
      DotAssocN(u, m, x, n - 1);
      VecMatStep(u, m, |x|, n - 1);
      DotAdd(x, VecMatN(u, m, |x|, n - 1), Scale(u[n - 1], m[n - 1]), |x|);
      DotScale(x, u[n - 1], m[n - 1], |x|);
    }
  }

  lemma DotAssoc(u: Vec, m: Mat, x: Vec)
    requires |u| == |m| && IsMat(m, |m|, |x|)
    ensures Dot(u, MatVec(m, x)) == Dot(VecMat(u, m, |x|), x)
  {
    DotAssocN(u, m, x, |u|);
  }

  lemma MatVecAssoc(a: Mat, b: Mat, x: Vec)
    requires IsMat(a, |a|, |b|) && IsMat(b, |b|, |x|)
    ensures MatVec(a, MatVec(b, x)) == MatVec(MatMul(a, b, |x|), x)
  {
    var l, r := MatVec(a, MatVec(b, x)), MatVec(MatMul(a, b, |x|), x);
    forall i | 0 <= i < |a|
      ensures l[i] == r[i]
    {
      DotAssoc(a[i], b, x);
    }
  }

  lemma MatVecIdentity(x: Vec)
    ensures MatVec(Identity(|x|), x) == x
  {
    forall i | 0 <= i < |x|
      ensures MatVec(Identity(|x|), x)[i] == x[i]
    {
      DotUnit(|x|, i, x, |x|);
    }
  }

  lemma MatVecZeros(m: Mat, k: nat)
    requires IsMat(m, |m|, k)
    ensures MatVec(m, Zeros(k)) == Zeros(|m|)
  {
    forall i | 0 <= i < |m|
      ensures MatVec(m, Zeros(k))[i] == 0
    {
      DotZero(m[i], Zeros(k), k);
    }
  }

  lemma MatVecAdd(m: Mat, x: Vec, y: Vec)
    requires |x| == |y| && IsMat(m, |m|, |x|)
    ensures MatVec(m, VAdd(x, y)) == VAdd(MatVec(m, x), MatVec(m, y))
  {
    hide Add, Mul;
    forall i | 0 <= i < |m|
      ensures MatVec(m, VAdd(x, y))[i] == Add(Dot(m[i], x), Dot(m[i], y))
    {
      DotAdd(m[i], x, y, |x|);
    }
  }

  /** A column of a product is the left factor applied to that column. */
  lemma MatMulColumn(a: Mat, b: Mat, cols: nat, j: nat)
    requires IsMat(a, |a|, |b|) && IsMat(b, |b|, cols) && j < cols
    ensures Column(MatMul(a, b, cols), cols, j) == MatVec(a, Column(b, cols, j))
  {}

  /** Picking out a column: m applied to a unit vector. */
  lemma MatVecUnit(m: Mat, k: nat, j: nat)
    requires IsMat(m, |m|, k) && j < k
    ensures MatVec(m, Unit(k, j)) == Column(m, k, j)
  {
    forall i | 0 <= i < |m|
      ensures MatVec(m, Unit(k, j))[i] == m[i][j]
    {
      DotComm(m[i], Unit(k, j), k);
      DotUnit(k, j, m[i], k);
    }
  }

  // ----- inverses -----

  /** No vector but zero is sent to zero. */
  ghost predicate Nonsingular(m: Mat, k: nat)
    requires IsMat(m, k, k)
  {
    forall x: Vec :: |x| == k && MatVec(m, x) == Zeros(k) ==> x == Zeros(k)
  }

  ghost predicate IsInverse(m: Mat, w: Mat, k: nat)
    requires IsMat(m, k, k) && IsMat(w, k, k)
  {
    MatMul(m, w, k) == Identity(k) && MatMul(w, m, k) == Identity(k)
  }

  lemma InverseMeansNonsingular(m: Mat, w: Mat, k: nat)
    requires IsMat(m, k, k) && IsMat(w, k, k) && MatMul(w, m, k) == Identity(k)
    ensures Nonsingular(m, k)
  {
    forall x: Vec | |x| == k && MatVec(m, x) == Zeros(k)
      ensures x == Zeros(k)
    {
      MatVecAssoc(w, m, x);
      MatVecIdentity(x);
      MatVecZeros(w, k);
    }
  }

  /** A nonsingular matrix is injective. */
  lemma NonsingularInjective(m: Mat, x: Vec, y: Vec, k: nat)
    requires IsMat(m, k, k) && Nonsingular(m, k) && |x| == |y| == k
    requires MatVec(m, x) == MatVec(m, y)
    ensures x == y
  {
    hide Add, Mul;
    MatVecAdd(m, x, y);
    forall i | 0 <= i < k
      ensures MatVec(m, VAdd(x, y))[i] == 0
    {
      AddSelf(MatVec(m, x)[i]);
    }
    assert MatVec(m, VAdd(x, y)) == Zeros(k);
    assert VAdd(x, y) == Zeros(k);
    forall i | 0 <= i < k
      ensures x[i] == y[i]
    {
      assert VAdd(x, y)[i] == 0;
      AddCancel(x[i], y[i]);
    }
  }

  /** Matrices agreeing on every column are equal. */
  lemma ColumnsDetermine(a: Mat, b: Mat, k: nat)
    requires IsMat(a, k, k) && IsMat(b, k, k)
    requires forall j :: 0 <= j < k ==> Column(a, k, j) == Column(b, k, j)
    ensures a == b
  {
    forall i | 0 <= i < k
      ensures a[i] == b[i]
    {
      forall j | 0 <= j < k
        ensures a[i][j] == b[i][j]
      {
        assert Column(a, k, j)[i] == Column(b, k, j)[i];
      }
    }
  }

  // ----- one-sided inverses -----

  ghost function Elements(n: nat): (s: set<gf>)
    requires n <= 256
    ensures forall x: gf :: x as int < n ==> x in s
  {
    if n == 0 then {} else Elements(n - 1) + {(n - 1) as gf}
  }

  ghost function Field(): (s: set<gf>)
    ensures forall x: gf :: x in s
  {
    Elements(256)
  }

  /** The vectors of `r` with one more element. */
  ghost function Extended(r: set<Vec>): set<Vec> {
    set v, x | v in r && x in Field() :: v + [x]
  }

  lemma ExtendedHas(r: set<Vec>, u: Vec, x: gf)
    ensures u + [x] in Extended(r) <==> u in r
  {
    hide Field;
    if u + [x] in Extended(r) {
      var v, y :| v in r && y in Field() && v + [y] == u + [x];
      assert (v + [y])[..|v|] == v && (u + [x])[..|u|] == u;
    }
  }

  /** All vectors of a length: finitely many. */
  ghost function Vectors(k: nat): set<Vec> {
    if k == 0 then {[]} else Extended(Vectors(k - 1))
  }

  lemma {:induction false} VectorsAre(k: nat, v: Vec)
    ensures v in Vectors(k) <==> |v| == k
  {
    hide Field;
    if k > 0 {
      if |v| > 0 {
        var u := v[..|v| - 1];
        assert v == u + [v[|v| - 1]];
        VectorsAre(k - 1, u);
        ExtendedHas(Vectors(k - 1), u, v[|v| - 1]);
      }
    }
  }

  ghost function Images(w: Mat, k: nat, s: set<Vec>): (r: set<Vec>)
    requires IsMat(w, k, k) && forall y :: y in s ==> |y| == k
  {
    set y | y in s :: MatVec(w, y)
  }

  /** An injective matrix maps a set to one of the same size. */
  lemma {:induction false} ImagesSize(w: Mat, k: nat, s: set<Vec>)
    requires IsMat(w, k, k) && forall y :: y in s ==> |y| == k
    requires forall y: Vec, y': Vec :: |y| == |y'| == k && MatVec(w, y) == MatVec(w, y') ==> y == y'
    ensures |Images(w, k, s)| == |s|
  {
    hide MatVec;
    if s != {} {
      var y :| y in s;
      var rest := s - {y};
      ImagesSize(w, k, rest);
      assert MatVec(w, y) !in Images(w, k, rest);
      assert Images(w, k, s) == Images(w, k, rest) + {MatVec(w, y)};
    }
  }

  lemma SameSize<T>(a: set<T>, b: set<T>)
    requires a <= b && |a| == |b|
    ensures a == b
  {
    assert b == a + (b - a);
    assert |b| == |a| + |b - a|;
  }

  /** A matrix with a left inverse reaches every vector, because there are only finitely many. */
  lemma InjectiveReaches(m: Mat, w: Mat, k: nat, x: Vec) returns (y: Vec)
    requires IsMat(m, k, k) && IsMat(w, k, k) && MatMul(m, w, k) == Identity(k) && |x| == k
    ensures |y| == k && MatVec(w, y) == x
  {
    hide MatVec, MatMul, Identity, Vectors, Images;
    forall y: Vec, y': Vec | |y| == |y'| == k && MatVec(w, y) == MatVec(w, y') ensures y == y' {
      Undone(m, w, k, y);
      Undone(m, w, k, y');
    }
    var all := Vectors(k);
    forall v: Vec ensures v in all <==> |v| == k { VectorsAre(k, v); }
    ImagesSize(w, k, all);
    ImagesAre(w, k, all);
    SameSize(Images(w, k, all), all);
    y :| y in all && MatVec(w, y) == x;
  }

  lemma ImagesAre(w: Mat, k: nat, s: set<Vec>)
    requires IsMat(w, k, k) && forall y :: y in s ==> |y| == k
    ensures forall x :: x in Images(w, k, s) ==> |x| == k && exists y :: y in s && MatVec(w, y) == x
  {
    hide MatVec;
  }

  lemma Undone(m: Mat, w: Mat, k: nat, y: Vec)
    requires IsMat(m, k, k) && IsMat(w, k, k) && MatMul(m, w, k) == Identity(k) && |y| == k
    ensures MatVec(m, MatVec(w, y)) == y
  {
    hide MatVec, MatMul, Identity;
    MatVecAssoc(m, w, y);
    MatVecIdentity(y);
  }

  /** An inverse on one side is an inverse. */
  lemma RightInverseIsInverse(m: Mat, w: Mat, k: nat)
    requires IsMat(m, k, k) && IsMat(w, k, k) && MatMul(m, w, k) == Identity(k)
    ensures IsInverse(m, w, k)
  {
    hide Dot, MatMul, MatVec, Unit, Identity;
    var wm := MatMul(w, m, k);
    forall j | 0 <= j < k
      ensures Column(wm, k, j) == Column(Identity(k), k, j)
    {
      var y := InjectiveReaches(m, w, k, Unit(k, j));
      Undone(m, w, k, y);
      MatVecUnit(m, k, j);
      MatMulColumn(w, m, k, j);
      assert Unit(k, j) == Column(Identity(k), k, j);
    }
    ColumnsDetermine(wm, Identity(k), k);
  }

  /** The relation y = m*x is the relation x = w*y: w is the inverse of m. */
  lemma SolvesMeansInverse(m: Mat, w: Mat, k: nat)
    requires IsMat(m, k, k) && IsMat(w, k, k)
    requires forall x: Vec, y: Vec :: |x| == |y| == k ==> (y == MatVec(m, x) <==> x == MatVec(w, y))
    ensures IsInverse(m, w, k)
  {
    forall j | 0 <= j < k
      ensures Column(MatMul(m, w, k), k, j) == Column(Identity(k), k, j)
      ensures Column(MatMul(w, m, k), k, j) == Column(Identity(k), k, j)
    {
      var e := Unit(k, j);
      assert e == Column(Identity(k), k, j);
      MatVecUnit(w, k, j);
      MatVecUnit(m, k, j);
      MatMulColumn(m, w, k, j);
      MatMulColumn(w, m, k, j);
      assert e == MatVec(m, MatVec(w, e));
      assert e == MatVec(w, MatVec(m, e));
    }
    ColumnsDetermine(MatMul(m, w, k), Identity(k), k);
    ColumnsDetermine(MatMul(w, m, k), Identity(k), k);
  }
}
