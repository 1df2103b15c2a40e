/**
  The code that fec.c implements, as a matrix: n rows, the first k of them the identity,
  any k of them independent.
 */
module FecCode {
  import opened Sequences
  import opened Galois
  import opened GaloisTables
  import opened LinearAlgebra
  import opened Polynomials
  import opened Vandermonde

  /** The evaluation points: zero, then the powers of the generator. */
  ghost function Points(n: nat): (ps: Vec)
    ensures |ps| == n && forall i :: 0 <= i < n ==> ps[i] == if i == 0 then 0 else Exp(i - 1)
  {
    seq(n, i requires 0 <= i => if i == 0 then 0 else Exp(i - 1))
  }

  lemma PointsDistinct(n: nat)
    requires n <= GF_SIZE + 1
    ensures Distinct(Points(n))
  {
    hide Exp;
    forall i, j | 0 <= i < j < n
      ensures Points(n)[i] != Points(n)[j]
    {
      ExpNonzero(j - 1);
      if i > 0 && Exp(i - 1) == Exp(j - 1) { ExpInjective(i - 1, j - 1); }
    }
  }

  /** The inverse of the top k rows of the Vandermonde matrix. */
  ghost function TopInverse(k: nat): (w: Mat)
    requires k >= 1
    ensures IsMat(w, k, k)
  {
    VdmResult(Points(k))
  }

  lemma TopInverseIsInverse(k: nat)
    requires 1 <= k <= GF_SIZE + 1
    ensures IsInverse(VdmMatrix(Points(k), k), TopInverse(k), k)
  {
    hide IsInverse, CodePoly, ProdPoly, VdmResult;
    PointsDistinct(k);
    if k == 1 {
      CodePolyFirst(Points(1));
      RightWhenCoefficientsRight(Points(1));
    } else {
      VdmResultIsInverse(Points(k));
    }
  }

  lemma TopInverseOne()
    ensures TopInverse(1) == [[1]]
  {
    hide Mul, Add, Dot, VdmMatrix;
    var v, w := VdmMatrix(Points(1), 1), TopInverse(1);
    TopInverseIsInverse(1);
    var one := PowerRow(0, 1);
    assert one == [1];
    assert v[0] == [1];
    assert MatMul(v, w, 1)[0][0] == 1;
    assert Column(w, 1, 0) == [w[0][0]];
    DotOne(w[0][0]);
    assert w[0] == [1];
  }

  lemma DotOne(a: gf)
    ensures Dot([1], [a]) == a
  {
    hide Mul, Add;
    assert DotN([1], [a], 1) == Add(DotN([1], [a], 0), Mul(1, a));
    MulOne(a);
    AddZero(a);
  }

  /** The encoding matrix: Vandermonde rows times the inverse of the top block. */
  ghost function EncMatrix(k: nat, n: nat): (m: Mat)
    requires 1 <= k
    ensures IsMat(m, n, k)
  {
    MatMul(VdmMatrix(Points(n), k), TopInverse(k), k)
  }

  /** The code is systematic: its top block is the identity. */
  lemma EncMatrixTop(k: nat, n: nat, i: nat)
    requires 1 <= k <= n <= GF_SIZE + 1 && i < k
    ensures EncMatrix(k, n)[i] == Unit(k, i)
  {
    hide VecMat, VdmResult, TopInverse;
    TopInverseIsInverse(k);
    assert MatMul(VdmMatrix(Points(k), k), TopInverse(k), k)[i] == Unit(k, i);
    assert Points(n)[i] == Points(k)[i];
  }

  /** The rows of the encoding matrix with the given indices. */
  ghost function Selected(k: nat, n: nat, index: seq<nat>): (g: Mat)
    requires 1 <= k && forall i :: 0 <= i < |index| ==> index[i] < n
    ensures IsMat(g, |index|, k) && forall i :: 0 <= i < |index| ==> g[i] == EncMatrix(k, n)[index[i]]
  {
    var m := EncMatrix(k, n);
    seq(|index|, i requires 0 <= i < |index| => m[index[i]])
  }

  /** Row i of the selection applied to x is the Vandermonde row applied to W*x. */
  lemma SelectedRow(k: nat, n: nat, index: seq<nat>, i: nat, x: Vec)
    requires 1 <= k && |x| == k && i < |index| && forall i :: 0 <= i < |index| ==> index[i] < n
    ensures Dot(Selected(k, n, index)[i], x) == Dot(PowerRow(Points(n)[index[i]], k), MatVec(TopInverse(k), x))
  {
    hide Dot, VecMat, TopInverse, PowerRow, MatVec;
    DotAssoc(PowerRow(Points(n)[index[i]], k), TopInverse(k), x);
  }

  /** The selected Vandermonde rows send W*x to zero when the selected encoding rows send x to zero. */
  lemma SelectedKernel(k: nat, n: nat, index: seq<nat>, ps: Vec, x: Vec)
    requires 1 <= k && |index| == |ps| == |x| == k
    requires forall i :: 0 <= i < k ==> index[i] < n && ps[i] == Points(n)[index[i]]
    requires MatVec(Selected(k, n, index), x) == Zeros(k)
    ensures MatVec(VdmMatrix(ps, k), MatVec(TopInverse(k), x)) == Zeros(k)
  {
    hide Dot, TopInverse, PowerRow, VdmMatrix, EncMatrix, Points, Selected;
    var z := MatVec(TopInverse(k), x);
    forall i | 0 <= i < k
      ensures MatVec(VdmMatrix(ps, k), z)[i] == 0
    {
      SelectedRow(k, n, index, i, x);
      assert MatVec(Selected(k, n, index), x)[i] == 0;
    }
  }

  /** Any k rows of the encoding matrix with distinct indices are independent. */
  lemma SelectedNonsingular(k: nat, n: nat, index: seq<nat>)
    requires 1 <= k <= n <= GF_SIZE + 1 && |index| == k && Distinct(index)
    requires forall i :: 0 <= i < k ==> index[i] < n
    ensures Nonsingular(Selected(k, n, index), k)
  {
    hide TopInverse, VdmMatrix, EncMatrix, MatVec, Distinct, Selected;
    var ps := seq(k, i requires 0 <= i < k => Points(n)[index[i]]);
    SelectedPointsDistinct(n, index, ps);
    VandermondeNonsingular(ps);
    TopInverseNonsingular(k);
    forall x: Vec | |x| == k && MatVec(Selected(k, n, index), x) == Zeros(k)
      ensures x == Zeros(k)
    {
      SelectedKernel(k, n, index, ps, x);
      assert MatVec(TopInverse(k), x) == Zeros(k);
    }
  }

  lemma SelectedPointsDistinct(n: nat, index: seq<nat>, ps: Vec)
    requires n <= GF_SIZE + 1 && Distinct(index) && |ps| == |index|
    requires forall i :: 0 <= i < |index| ==> index[i] < n && ps[i] == Points(n)[index[i]]
    ensures Distinct(ps)
  {
    hide Points;
    PointsDistinct(n);
    forall i, j | 0 <= i < j < |ps|
      ensures ps[i] != ps[j]
    {
      if index[i] < index[j] { assert Points(n)[index[i]] != Points(n)[index[j]]; }
      else { assert Points(n)[index[j]] != Points(n)[index[i]]; }
    }
  }

  lemma TopInverseNonsingular(k: nat)
    requires 1 <= k <= GF_SIZE + 1
    ensures Nonsingular(TopInverse(k), k)
  {
    hide TopInverse, VdmMatrix, Nonsingular, MatMul;
    TopInverseIsInverse(k);
    InverseMeansNonsingular(TopInverse(k), VdmMatrix(Points(k), k), k);
  }

  /** Repeated rows cannot be part of an invertible selection. */
  lemma RepeatedNotInvertible(k: nat, n: nat, index: seq<nat>, w: Mat)
    requires 1 <= k && |index| == k && IsMat(w, k, k)
    requires forall i :: 0 <= i < k ==> index[i] < n
    requires IsInverse(Selected(k, n, index), w, k)
    ensures Distinct(index)
  {
    hide EncMatrix, VecMat;
    var g := Selected(k, n, index);
    forall i, j | 0 <= i < j < k
      ensures index[i] != index[j]
    {
      assert MatMul(g, w, k)[i] == Unit(k, i) && MatMul(g, w, k)[j] == Unit(k, j);
      assert Unit(k, i)[i] != Unit(k, j)[i];
    }
  }

  // ----- packets -----

  /** Packet j of the code for the k source packets in the rows of source. */
  ghost function Encoded(k: nat, n: nat, source: Mat, sz: nat, j: nat): (p: Vec)
    requires 1 <= k && j < n && IsMat(source, k, sz)
    ensures |p| == sz
  {
    VecMat(EncMatrix(k, n)[j], source, sz)
  }

  lemma VecMatUnit(k: nat, i: nat, m: Mat, cols: nat)
    requires i < k && IsMat(m, k, cols)
    ensures VecMat(Unit(k, i), m, cols) == m[i]
  {
    hide Dot;
    forall p | 0 <= p < cols
      ensures VecMat(Unit(k, i), m, cols)[p] == m[i][p]
    {
      DotUnit(k, i, Column(m, cols, p), k);
      DotIsDotN(Unit(k, i), Column(m, cols, p));
    }
  }

  lemma DotIsDotN(u: Vec, v: Vec)
    requires |u| == |v|
    ensures Dot(u, v) == DotN(u, v, |u|)
  {}

  /** The first k packets are the source packets themselves. */
  lemma EncodedSource(k: nat, n: nat, source: Mat, sz: nat, j: nat)
    requires 1 <= k <= n <= GF_SIZE + 1 && j < k && IsMat(source, k, sz)
    ensures Encoded(k, n, source, sz, j) == source[j]
  {
    hide VecMat, EncMatrix;
    EncMatrixTop(k, n, j);
    VecMatUnit(k, j, source, sz);
  }

  lemma VecMatAssoc(u: Vec, g: Mat, s: Mat, k: nat, cols: nat)
    requires |u| == |g| && IsMat(g, |g|, k) && IsMat(s, k, cols)
    ensures VecMat(u, MatMul(g, s, cols), cols) == VecMat(VecMat(u, g, k), s, cols)
  {
    hide Dot, MatMul;
    var l, r := VecMat(u, MatMul(g, s, cols), cols), VecMat(VecMat(u, g, k), s, cols);
    forall p | 0 <= p < cols
      ensures l[p] == r[p]
    {
      MatMulColumn(g, s, cols, p);
      DotAssoc(u, g, Column(s, cols, p));
    }
  }

  /** Applying the inverse of the selected rows to the received packets gives the source. */
  lemma DecodeRecovers(k: nat, n: nat, index: seq<nat>, w: Mat, source: Mat, sz: nat, received: Mat, row: nat)
    requires 1 <= k && |index| == k && IsMat(w, k, k) && row < k
    requires IsMat(source, k, sz) && IsMat(received, k, sz)
    requires forall i :: 0 <= i < k ==> index[i] < n
    requires IsInverse(Selected(k, n, index), w, k)
    requires forall i :: 0 <= i < k ==> received[i] == Encoded(k, n, source, sz, index[i])
    ensures VecMat(w[row], received, sz) == source[row]
  {
    hide VecMat, EncMatrix;
    var g := Selected(k, n, index);
    assert received == MatMul(g, source, sz);
    VecMatAssoc(w[row], g, source, k, sz);
    assert MatMul(w, g, k)[row] == Unit(k, row);
    VecMatUnit(k, row, source, sz);
  }
}
