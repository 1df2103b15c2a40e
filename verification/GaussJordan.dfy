/**
  `invert_mat`, the in-place Gauss-Jordan inverter of fec.c.

  The matrix being reduced is read as a system of equations in which some inputs and
  outputs have been exchanged: after pivoting on column j, the j-th unknown has moved to
  the output side and the j-th (row-swapped) right-hand side to the input side.
  `Exchanged` states that this mixed system still has the solutions of y = A*x.
 */
module GaussJordan {
  import opened Galois
  import opened GaloisTables
  import opened LinearAlgebra

  // ----- one pivot, on sequences -----

  function SwapAt<T>(v: seq<T>, r: nat, c: nat): (w: seq<T>)
    requires r < |v| && c < |v|
    ensures |w| == |v|
  {
    v[r := v[c]][c := v[r]]
  }

  function SwapRows(s: Mat, r: nat, c: nat): (s': Mat)
    requires r < |s| && c < |s|
    ensures |s'| == |s|
  {
    SwapAt(s, r, c)
  }

  /** The pivot row, divided by the pivot after the pivot itself is replaced by one. */
  ghost function PivotRow(row: Vec, i: nat): (p: Vec)
    requires i < |row|
    ensures |p| == |row|
  {
    Scale(Inv(row[i]), row[i := 1])
  }

  /** Another row, with a multiple of the pivot row added to its entries outside column i. */
  ghost function ReduceRow(row: Vec, p: Vec, i: nat): (r: Vec)
    requires i < |row| == |p|
    ensures |r| == |row|
  {
    VAdd(row[i := 0], Scale(row[i], p))
  }

  ghost function Pivot(s: Mat, k: nat, i: nat): (s': Mat)
    requires IsMat(s, k, k) && i < k
    ensures IsMat(s', k, k)
  {
    var p := PivotRow(s[i], i);
    seq(k, r requires 0 <= r < k => if r == i then p else ReduceRow(s[r], p, i))
  }

  /** The equation of the pivot row, solved for its unknown. */
  lemma PivotRowSolves(row: Vec, u: Vec, i: nat, w: gf)
    requires i < |row| == |u| && row[i] != 0
    ensures w == Dot(row, u) <==> u[i] == Dot(PivotRow(row, i), u[i := w])
  {
    hide Add, Mul, Inv;
    var c := row[i];
    var k := |u|;
    var v := u[i := w];
    var p := PivotRow(row, i);
    // rest = the equation without the pivot term
    var rest := DotN(row[i := 0], u, k);
    DotPart(row, u, i, c);
    DotPart(row[i := 1], v, i, 1);
    assert row[i := 1][i := 0] == row[i := 0];
    assert row[i := c] == row;
    DotSkip(row[i := 0], u, i, w);
    DotScale(v, Inv(c), row[i := 1], k);
    assert Dot(p, v) == Mul(Inv(c), Add(rest, Mul(1, w)));
    MulOne(w);
    assert Dot(row, u) == Add(rest, Mul(c, u[i]));
    SolveTerm(rest, c, u[i], w);
  }

  /** w = rest + c*x is x = (rest + w)/c. */
  lemma SolveTerm(rest: gf, c: gf, x: gf, w: gf)
    requires c != 0
    ensures w == Add(rest, Mul(c, x)) <==> x == Mul(Inv(c), Add(rest, w))
  {
    hide Add, Mul, Inv;
    MulInv(c);
    if w == Add(rest, Mul(c, x)) {
      AddComm(rest, Mul(c, x)); AddComm(rest, w); AddCancel(Mul(c, x), rest);
      MulAssoc(Inv(c), c, x); MulOne(x);
    }
    if x == Mul(Inv(c), Add(rest, w)) {
      MulAssoc(c, Inv(c), Add(rest, w)); MulOne(Add(rest, w));
      AddComm(rest, w); AddComm(rest, Add(w, rest)); AddCancel(w, rest);
    }
  }

  /** Splitting one term off an inner product. */
  lemma DotPart(row: Vec, u: Vec, i: nat, c: gf)
    requires i < |row| == |u| && row[i] == c
    ensures Dot(row, u) == Add(Dot(row[i := 0], u), Mul(c, u[i]))
  {
    hide Add, Mul;
    var k := |u|;
    var z := row[i := 0];
    assert z[i := c] == row;
    DotComm(row, u, k); DotComm(z, u, k);
    DotUpdate(u, z, i, c, k);
    AddZero(c);
    MulComm(u[i], c);
  }

  /** An entry with coefficient zero does not matter. */
  lemma DotSkip(row: Vec, u: Vec, i: nat, w: gf)
    requires i < |row| == |u| && row[i] == 0
    ensures Dot(row, u[i := w]) == Dot(row, u)
  {
    hide Add, Mul;
    DotUpdate(row, u, i, w, |u|);
    MulZero(Add(u[i], w));
    AddZero(Dot(row, u));
  }

  /** Given the pivot equation, every other equation keeps its right-hand side. */
  lemma ReduceRowKeeps(row: Vec, p: Vec, u: Vec, i: nat, w: gf)
    requires i < |row| == |u| == |p|
    requires u[i] == Dot(p, u[i := w])
    ensures Dot(ReduceRow(row, p, i), u[i := w]) == Dot(row, u)
  {
    hide Add, Mul;
    var k := |u|;
    var v := u[i := w];
    DotAdd(v, row[i := 0], Scale(row[i], p), k);
    DotScale(v, row[i], p, k);
    DotSkip(row[i := 0], u, i, w);
    DotPart(row, u, i, row[i]);
  }

  /** Exchanging the i-th input with the i-th output. */
  lemma PivotExchanges(s: Mat, k: nat, i: nat, u: Vec, w: Vec)
    requires IsMat(s, k, k) && i < k && |u| == |w| == k && s[i][i] != 0
    ensures w == MatVec(s, u) <==> w[i := u[i]] == MatVec(Pivot(s, k, i), u[i := w[i]])
  {
    hide Dot, PivotRow, ReduceRow, MatVec, Mul, Add;
    var s', u', w' := Pivot(s, k, i), u[i := w[i]], w[i := u[i]];
    var p := PivotRow(s[i], i);
    PivotRowSolves(s[i], u, i, w[i]);
    if w[i] == Dot(s[i], u) {
      forall r | 0 <= r < k && r != i
        ensures Dot(s'[r], u') == Dot(s[r], u)
      {
        ReduceRowKeeps(s[r], p, u, i, w[i]);
      }
      assert forall r :: 0 <= r < k && r != i ==> MatVec(s', u')[r] == MatVec(s, u)[r];
      assert MatVec(s', u')[i] == u[i] && MatVec(s, u)[i] == w[i];
      if w == MatVec(s, u) { assert w' == MatVec(s', u'); }
      if w' == MatVec(s', u') { assert w == MatVec(s, u); }
    } else {
      assert MatVec(s', u')[i] != w'[i];
      assert MatVec(s, u)[i] != w[i];
    }
  }

  // ----- the mixed system -----

  /** Entry j comes from `now` for exchanged columns and from `before` otherwise. */
  ghost function Mix(before: Vec, now: Vec, done: set<nat>): (u: Vec)
    requires |before| == |now|
    ensures |u| == |before| && forall j :: 0 <= j < |u| ==> u[j] == if j in done then now[j] else before[j]
  {
    seq(|before|, j requires 0 <= j < |before| => if j in done then now[j] else before[j])
  }

  /** The row swaps made so far, applied to a vector. */
  ghost function Permute(y: Vec, swaps: seq<(nat, nat)>): (z: Vec)
    requires forall i :: 0 <= i < |swaps| ==> swaps[i].0 < |y| && swaps[i].1 < |y|
    ensures |z| == |y|
    decreases |swaps|
  {
    if |swaps| == 0 then y
    else
      var n := |swaps| - 1;
      SwapAt(Permute(y, swaps[..n]), swaps[n].0, swaps[n].1)
  }

  predicate SwapsBelow(swaps: seq<(nat, nat)>, k: nat) {
    forall i :: 0 <= i < |swaps| ==> swaps[i].0 < k && swaps[i].1 < k
  }

  ghost predicate SameSolution(a: Mat, s: Mat, k: nat, done: set<nat>, swaps: seq<(nat, nat)>, x: Vec, y: Vec)
    requires IsMat(a, k, k) && IsMat(s, k, k) && SwapsBelow(swaps, k) && |x| == |y| == k
  {
    var z := Permute(y, swaps);
    y == MatVec(a, x) <==> Mix(z, x, done) == MatVec(s, Mix(x, z, done))
  }

  /** The mixed system s has exactly the solutions of y = a*x. */
  ghost predicate Exchanged(a: Mat, s: Mat, k: nat, done: set<nat>, swaps: seq<(nat, nat)>)
    requires IsMat(a, k, k) && IsMat(s, k, k) && SwapsBelow(swaps, k)
  {
    forall x: Vec, y: Vec :: |x| == |y| == k ==> SameSolution(a, s, k, done, swaps, x, y)
  }

  lemma ExchangedInitially(a: Mat, k: nat)
    requires IsMat(a, k, k)
    ensures Exchanged(a, a, k, {}, [])
  {
    forall x: Vec, y: Vec | |x| == |y| == k
      ensures SameSolution(a, a, k, {}, [], x, y)
    {
      assert Mix(y, x, {}) == y && Mix(x, y, {}) == x;
    }
  }

  /** Swapping two rows that are not yet exchanged. */
  lemma SwapKeepsExchanged(a: Mat, s: Mat, k: nat, done: set<nat>, swaps: seq<(nat, nat)>, r: nat, c: nat)
    requires IsMat(a, k, k) && IsMat(s, k, k) && SwapsBelow(swaps, k)
    requires r < k && c < k && r !in done && c !in done
    requires Exchanged(a, s, k, done, swaps)
    ensures Exchanged(a, SwapRows(s, r, c), k, done, swaps + [(r, c)])
  {
    hide Dot, Permute;
    forall x: Vec, y: Vec | |x| == |y| == k
      ensures SameSolution(a, SwapRows(s, r, c), k, done, swaps + [(r, c)], x, y)
    {
      assert SameSolution(a, s, k, done, swaps, x, y);
      var z := Permute(y, swaps);
      PermuteSnoc(y, swaps, r, c);
      SwapSystem(s, k, Mix(x, z, done), Mix(z, x, done), r, c);
      assert Mix(x, SwapAt(z, r, c), done) == Mix(x, z, done);
      assert Mix(SwapAt(z, r, c), x, done) == SwapAt(Mix(z, x, done), r, c);
    }
  }

  lemma PermuteSnoc(y: Vec, swaps: seq<(nat, nat)>, r: nat, c: nat)
    requires SwapsBelow(swaps, |y|) && r < |y| && c < |y|
    ensures Permute(y, swaps + [(r, c)]) == SwapAt(Permute(y, swaps), r, c)
  {
    assert (swaps + [(r, c)])[..|swaps|] == swaps;
  }

  lemma SwapSystem(s: Mat, k: nat, u: Vec, w: Vec, r: nat, c: nat)
    requires IsMat(s, k, k) && |u| == |w| == k && r < k && c < k
    ensures w == MatVec(s, u) <==> SwapAt(w, r, c) == MatVec(SwapRows(s, r, c), u)
  {
    hide Dot;
    assert MatVec(SwapRows(s, r, c), u) == SwapAt(MatVec(s, u), r, c);
    assert SwapAt(SwapAt(w, r, c), r, c) == w;
    assert SwapAt(SwapAt(MatVec(s, u), r, c), r, c) == MatVec(s, u);
  }

  lemma PivotKeepsExchanged(a: Mat, s: Mat, k: nat, done: set<nat>, swaps: seq<(nat, nat)>, i: nat)
    requires IsMat(a, k, k) && IsMat(s, k, k) && SwapsBelow(swaps, k)
    requires i < k && i !in done && s[i][i] != 0
    requires Exchanged(a, s, k, done, swaps)
    ensures Exchanged(a, Pivot(s, k, i), k, done + {i}, swaps)
  {
    hide MatVec, Permute, Pivot;
    forall x: Vec, y: Vec | |x| == |y| == k
      ensures SameSolution(a, Pivot(s, k, i), k, done + {i}, swaps, x, y)
    {
      assert SameSolution(a, s, k, done, swaps, x, y);
      var z := Permute(y, swaps);
      var u, w := Mix(x, z, done), Mix(z, x, done);
      PivotExchanges(s, k, i, u, w);
      assert Mix(x, z, done + {i}) == u[i := w[i]];
      assert Mix(z, x, done + {i}) == w[i := u[i]];
    }
  }

  /** Nothing is left to pivot on: every remaining entry is zero. */
  predicate NoPivot(s: Mat, k: nat, done: set<nat>)
    requires IsMat(s, k, k)
  {
    forall r, c :: 0 <= r < k && 0 <= c < k && r !in done && c !in done ==> s[r][c] == 0
  }

  /** Then the original matrix sends some nonzero vector to zero. */
  lemma NoPivotMeansSingular(a: Mat, s: Mat, k: nat, done: set<nat>, swaps: seq<(nat, nat)>, j: nat)
    requires IsMat(a, k, k) && IsMat(s, k, k) && SwapsBelow(swaps, k)
    requires Exchanged(a, s, k, done, swaps) && NoPivot(s, k, done)
    requires j < k && j !in done
    ensures !Nonsingular(a, k)
  {
    hide Dot, Permute, MatVec;
    var y := Zeros(k);
    PermuteZeros(k, swaps);
    var x := Mix(Unit(k, j), Column(s, k, j), done);
    assert SameSolution(a, s, k, done, swaps, x, y);
    assert Mix(x, y, done) == Unit(k, j);
    MatVecUnit(s, k, j);
    assert Mix(y, x, done) == Column(s, k, j);
    assert MatVec(a, x) == Zeros(k);
    assert x[j] != Zeros(k)[j];
  }

  lemma {:induction false} PermuteZeros(k: nat, swaps: seq<(nat, nat)>)
    requires SwapsBelow(swaps, k)
    ensures Permute(Zeros(k), swaps) == Zeros(k)
    decreases |swaps|
  {
    if |swaps| > 0 { PermuteZeros(k, swaps[..|swaps| - 1]); }
  }

  // ----- unscrambling the columns -----

  function SwapColumns(s: Mat, k: nat, r: nat, c: nat): (s': Mat)
    requires IsMat(s, k, k) && r < k && c < k
    ensures IsMat(s', k, k)
  {
    seq(k, i requires 0 <= i < k => SwapAt(s[i], r, c))
  }

  /** Undoes the row swaps on the columns, last swap first. */
  ghost function Unscramble(s: Mat, k: nat, swaps: seq<(nat, nat)>): (s': Mat)
    requires IsMat(s, k, k) && SwapsBelow(swaps, k)
    ensures IsMat(s', k, k)
    decreases |swaps|
  {
    if |swaps| == 0 then s
    else
      var n := |swaps| - 1;
      Unscramble(SwapColumns(s, k, swaps[n].0, swaps[n].1), k, swaps[..n])
  }

  lemma DotSwap(row: Vec, y: Vec, r: nat, c: nat)
    requires |row| == |y| && r < |y| && c < |y|
    ensures Dot(SwapAt(row, r, c), y) == Dot(row, SwapAt(y, r, c))
  {
    hide Add, Mul;
    if r == c {
      assert SwapAt(row, r, c) == row && SwapAt(y, r, c) == y;
    } else {
      var row0 := row[r := 0][c := 0];
      var y' := SwapAt(y, r, c);
      var row' := SwapAt(row, r, c);
      DotPart(row', y, r, row[c]);
      DotPart(row'[r := 0], y, c, row[r]);
      DotPart(row, y', c, row[c]);
      DotPart(row[c := 0], y', r, row[r]);
      assert row'[r := 0][c := 0] == row0 == row[c := 0][r := 0];
      DotSkip(row0, y, r, y[c]);
      DotSkip(row0, y[r := y[c]], c, y[r]);
      var d := Dot(row0, y);
      var e, f := Mul(row[c], y[r]), Mul(row[r], y[c]);
      AddAssoc(d, e, f); AddComm(e, f); AddAssoc(d, f, e);
    }
  }

  lemma {:induction false} UnscrambleMatVec(s: Mat, k: nat, swaps: seq<(nat, nat)>, y: Vec)
    requires IsMat(s, k, k) && SwapsBelow(swaps, k) && |y| == k
    ensures MatVec(Unscramble(s, k, swaps), y) == MatVec(s, Permute(y, swaps))
    decreases |swaps|
  {
    hide Dot, SwapAt;
    if |swaps| > 0 {
      var n := |swaps| - 1;
      var r, c := swaps[n].0, swaps[n].1;
      var s' := SwapColumns(s, k, r, c);
      UnscrambleMatVec(s', k, swaps[..n], y);
      var z := Permute(y, swaps[..n]);
      forall i | 0 <= i < k
        ensures MatVec(s', z)[i] == MatVec(s, SwapAt(z, r, c))[i]
      {
        DotSwap(s[i], z, r, c);
      }
    }
  }

  /** Once every column is exchanged, unscrambling yields the inverse. */
  lemma AllExchangedMeansInverse(a: Mat, s: Mat, k: nat, done: set<nat>, swaps: seq<(nat, nat)>)
    requires IsMat(a, k, k) && IsMat(s, k, k) && SwapsBelow(swaps, k)
    requires Exchanged(a, s, k, done, swaps)
    requires forall j: nat :: j < k ==> j in done
    ensures IsInverse(a, Unscramble(s, k, swaps), k)
  {
    hide Dot, MatVec, Permute, Unscramble, IsInverse;
    var w := Unscramble(s, k, swaps);
    forall x: Vec, y: Vec | |x| == |y| == k
      ensures y == MatVec(a, x) <==> x == MatVec(w, y)
    {
      assert SameSolution(a, s, k, done, swaps, x, y);
      var z := Permute(y, swaps);
      assert Mix(z, x, done) == x && Mix(x, z, done) == z;
      UnscrambleMatVec(s, k, swaps, y);
    }
    SolvesMeansInverse(a, w, k);
  }

  // ----- the in-place method -----

  /** The contents of a matrix buffer. */
  ghost function Rows(src: array2<gf>): (m: Mat)
    reads src
    ensures IsMat(m, src.Length0, src.Length1)
    ensures forall i, j :: 0 <= i < src.Length0 && 0 <= j < src.Length1 ==> m[i][j] == src[i, j]
  {
    seq(src.Length0, i requires 0 <= i < src.Length0 reads src =>
      seq(src.Length1, j requires 0 <= j < src.Length1 reads src => src[i, j]))
  }

  lemma RowsEqual(m: Mat, m': Mat, k: nat)
    requires IsMat(m, k, k) && IsMat(m', k, k)
    requires forall i, j :: 0 <= i < k && 0 <= j < k ==> m[i][j] == m'[i][j]
    ensures m == m'
  {
    forall i | 0 <= i < k
      ensures m[i] == m'[i]
    {}
  }

  /** Looks for a nonzero entry outside the used rows and columns, first on the diagonal. */
  method FindPivot(src: array2<gf>, ipiv: array<nat>, col: nat) returns (found: bool, irow: nat, icol: nat)
    requires src.Length0 == src.Length1 == ipiv.Length && col < ipiv.Length
    requires forall i :: 0 <= i < ipiv.Length ==> ipiv[i] <= 1
    ensures found ==> irow < ipiv.Length && icol < ipiv.Length && ipiv[irow] == ipiv[icol] == 0 && src[irow, icol] != 0
    ensures !found ==> forall r, c ::
      0 <= r < ipiv.Length && 0 <= c < ipiv.Length && ipiv[r] == 0 && ipiv[c] == 0 ==> src[r, c] == 0
  {
    var k := ipiv.Length;
    if ipiv[col] != 1 && src[col, col] != 0 {
      return true, col, col;
    }
    var row := 0;
    while row < k
      invariant 0 <= row <= k
      invariant forall r, c :: 0 <= r < row && 0 <= c < k && ipiv[r] == 0 && ipiv[c] == 0 ==> src[r, c] == 0
    {
      if ipiv[row] != 1 {
        var ix := 0;
        while ix < k
          invariant 0 <= ix <= k
          invariant forall c :: 0 <= c < ix && ipiv[c] == 0 ==> src[row, c] == 0
        {
          if ipiv[ix] == 0 && src[row, ix] != 0 {
            return true, row, ix;
          }
          ix := ix + 1;
        }
      }
      row := row + 1;
    }
    return false, 0, 0;
  }

  method SwapRowsInPlace(src: array2<gf>, r: nat, c: nat)
    requires src.Length0 == src.Length1 && r < src.Length0 && c < src.Length0
    modifies src
    ensures Rows(src) == SwapRows(old(Rows(src)), r, c)
  {
    var k := src.Length0;
    ghost var s := Rows(src);
    if r != c {
      var ix := 0;
      while ix < k
        invariant 0 <= ix <= k
        invariant forall j :: 0 <= j < ix ==> src[r, j] == s[c][j] && src[c, j] == s[r][j]
        invariant forall i, j :: 0 <= i < k && 0 <= j < k && ((i != r && i != c) || j >= ix) ==> src[i, j] == s[i][j]
      {
        src[r, ix], src[c, ix] := src[c, ix], src[r, ix];
        ix := ix + 1;
      }
    }
    RowsEqual(Rows(src), SwapRows(s, r, c), k);
  }

  /** Divides the pivot row by the pivot. */
  method NormalizeRow(t: Tables, src: array2<gf>, i: nat)
    requires Valid(t) && src.Length0 == src.Length1 && i < src.Length0 && src[i, i] != 0
    modifies src
    ensures Rows(src) == old(Rows(src))[i := PivotRow(old(Rows(src))[i], i)]
  {
    hide Valid, Mul, Inv;
    var k := src.Length0;
    ghost var s := Rows(src);
    ghost var p := PivotRow(s[i], i);
    var c := src[i, i];
    if c != 1 {
      c := GfInverse(t, c);
      src[i, i] := 1;
      var ix := 0;
      while ix < k
        invariant 0 <= ix <= k
        invariant forall j :: 0 <= j < ix ==> src[i, j] == p[j]
        invariant forall j :: ix <= j < k ==> src[i, j] == s[i][i := 1][j]
        invariant forall r, j :: 0 <= r < k && 0 <= j < k && r != i ==> src[r, j] == s[r][j]
      {
        var x := GfMul(t, c, src[i, ix]);
        src[i, ix] := x;
        ix := ix + 1;
      }
    } else {
      InvOne();
      forall j | 0 <= j < k
        ensures p[j] == s[i][j]
      {
        MulOne(s[i][j]);
      }
    }
    RowsEqual(Rows(src), s[i := p], k);
  }

  lemma InvOne()
    ensures Inv(1) == 1
  {
    MulInv(1);
    MulOne(Inv(1));
  }

  /** Adds c times row `from` to row `to`; nothing happens when c is zero. */
  method AddMulRow(t: Tables, src: array2<gf>, to: nat, from: nat, c: gf)
    requires Valid(t) && to < src.Length0 && from < src.Length0 && to != from
    modifies src
    ensures Rows(src) == old(Rows(src))[to := VAdd(old(Rows(src))[to], Scale(c, old(Rows(src))[from]))]
  {
    hide Valid, Mul, Add;
    var k := src.Length1;
    ghost var s := Rows(src);
    ghost var sum := VAdd(s[to], Scale(c, s[from]));
    if c != 0 {
      var ix := 0;
      while ix < k
        invariant 0 <= ix <= k
        invariant forall j :: 0 <= j < ix ==> src[to, j] == sum[j]
        invariant forall i, j :: 0 <= i < src.Length0 && 0 <= j < k && (i != to || j >= ix) ==> src[i, j] == s[i][j]
      {
        var x := GfMul(t, c, src[from, ix]);
        src[to, ix] := Add(src[to, ix], x);
        ix := ix + 1;
      }
    } else {
      forall j | 0 <= j < k
        ensures sum[j] == s[to][j]
      {
        MulZero(s[from][j]);
        AddZero(s[to][j]);
      }
    }
    forall i | 0 <= i < src.Length0
      ensures Rows(src)[i] == s[to := sum][i]
    {}
  }

  /** Clears column i from the other rows, unless the pivot row is a unit row. */
  method Eliminate(t: Tables, src: array2<gf>, i: nat)
    requires Valid(t) && src.Length0 == src.Length1 && i < src.Length0
    modifies src
    ensures Rows(src)[i] == old(Rows(src))[i]
    ensures forall r :: 0 <= r < src.Length0 && r != i ==>
      Rows(src)[r] == ReduceRow(old(Rows(src))[r], old(Rows(src))[i], i)
  {
    hide Valid, Mul, Add, VAdd, Scale;
    var k := src.Length0;
    ghost var s := Rows(src);
    var unit := IsUnitRow(src, i);
    if unit {
      forall r | 0 <= r < k
        ensures ReduceRow(s[r], s[i], i) == s[r]
      {
        ReduceByUnit(s[r], i);
      }
      return;
    }
    var ix := 0;
    while ix < k
      invariant 0 <= ix <= k
      invariant Rows(src)[i] == s[i]
      invariant forall r :: 0 <= r < ix && r != i ==> Rows(src)[r] == ReduceRow(s[r], s[i], i)
      invariant forall r :: ix <= r < k ==> Rows(src)[r] == s[r]
    {
      if ix != i {
        var c := src[ix, i];
        assert c == Rows(src)[ix][i];
        ClearEntry(src, ix, i);
        AddMulRow(t, src, ix, i, c);
      }
      ix := ix + 1;
    }
  }

  method ClearEntry(src: array2<gf>, r: nat, i: nat)
    requires r < src.Length0 && i < src.Length1
    modifies src
    ensures Rows(src) == old(Rows(src))[r := old(Rows(src))[r][i := 0]]
  {
    ghost var s := Rows(src);
    src[r, i] := 0;
    forall q | 0 <= q < src.Length0
      ensures Rows(src)[q] == s[r := s[r][i := 0]][q]
    {}
  }

  /** The comparison with the identity row. */
  method IsUnitRow(src: array2<gf>, i: nat) returns (unit: bool)
    requires i < src.Length0 == src.Length1
    ensures unit <==> Rows(src)[i] == Unit(src.Length0, i)
  {
    var ix := 0;
    while ix < src.Length1
      invariant 0 <= ix <= src.Length1
      invariant forall j :: 0 <= j < ix ==> src[i, j] == if j == i then 1 else 0
    {
      if src[i, ix] != (if ix == i then 1 else 0) {
        assert Rows(src)[i][ix] != Unit(src.Length0, i)[ix];
        return false;
      }
      ix := ix + 1;
    }
    assert Rows(src)[i] == Unit(src.Length0, i);
    return true;
  }

  lemma ReduceByUnit(row: Vec, i: nat)
    requires i < |row|
    ensures ReduceRow(row, Unit(|row|, i), i) == row
  {
    hide Add, Mul;
    forall j | 0 <= j < |row|
      ensures ReduceRow(row, Unit(|row|, i), i)[j] == row[j]
    {
      MulOne(row[i]); MulZero(row[i]); AddZero(row[j]);
    }
  }

  method SwapColumnsInPlace(src: array2<gf>, r: nat, c: nat)
    requires src.Length0 == src.Length1 && r < src.Length0 && c < src.Length0
    modifies src
    ensures Rows(src) == SwapColumns(old(Rows(src)), src.Length0, r, c)
  {
    var k := src.Length0;
    ghost var s := Rows(src);
    if r != c {
      var row := 0;
      while row < k
        invariant 0 <= row <= k
        invariant forall i, j :: 0 <= i < row && 0 <= j < k ==> src[i, j] == SwapAt(s[i], r, c)[j]
        invariant forall i, j :: row <= i < k && 0 <= j < k ==> src[i, j] == s[i][j]
      {
        src[row, r], src[row, c] := src[row, c], src[row, r];
        row := row + 1;
      }
    }
    RowsEqual(Rows(src), SwapColumns(s, k, r, c), k);
  }

  lemma FreshBelow(s: set<nat>, n: nat) returns (j: nat)
    requires |s| < n
    ensures j < n && j !in s
  {
    if n - 1 in s {
      j := FreshBelow(s - {n - 1}, n - 1);
    } else {
      j := n - 1;
    }
  }

  /** One round of the outer loop on column icol, after the row swap. */
  method PivotInPlace(t: Tables, src: array2<gf>, i: nat)
    requires Valid(t) && src.Length0 == src.Length1 && i < src.Length0 && src[i, i] != 0
    modifies src
    ensures Rows(src) == Pivot(old(Rows(src)), src.Length0, i)
  {
    hide Valid, PivotRow, ReduceRow;
    NormalizeRow(t, src, i);
    Eliminate(t, src, i);
    forall r | 0 <= r < src.Length0
      ensures Rows(src)[r] == Pivot(old(Rows(src)), src.Length0, i)[r]
    {}
  }

  /** Swap and pivot together. */
  lemma RoundKeepsExchanged(a: Mat, s: Mat, k: nat, done: set<nat>, swaps: seq<(nat, nat)>, r: nat, c: nat)
    requires IsMat(a, k, k) && IsMat(s, k, k) && SwapsBelow(swaps, k)
    requires r < k && c < k && r !in done && c !in done && s[r][c] != 0
    requires Exchanged(a, s, k, done, swaps)
    ensures SwapRows(s, r, c)[c][c] != 0
    ensures Exchanged(a, Pivot(SwapRows(s, r, c), k, c), k, done + {c}, swaps + [(r, c)])
  {
    hide Exchanged, Pivot;
    SwapKeepsExchanged(a, s, k, done, swaps, r, c);
    PivotKeepsExchanged(a, SwapRows(s, r, c), k, done, swaps + [(r, c)], c);
  }

  /** The final loop: undoes the recorded row swaps on the columns, in reverse. */
  method UnscrambleInPlace(src: array2<gf>, indxr: array<nat>, indxc: array<nat>, ghost swaps: seq<(nat, nat)>)
    requires src.Length0 == src.Length1 == indxr.Length == indxc.Length == |swaps|
    requires SwapsBelow(swaps, |swaps|)
    requires forall i :: 0 <= i < |swaps| ==> swaps[i] == (indxr[i], indxc[i])
    modifies src
    ensures Rows(src) == Unscramble(old(Rows(src)), |swaps|, swaps)
  {
    hide Unscramble, SwapColumns;
    var k := src.Length0;
    ghost var s := Rows(src);
    assert swaps[..k] == swaps;
    var col := k;
    while col > 0
      invariant 0 <= col <= k
      invariant Unscramble(Rows(src), k, swaps[..col]) == Unscramble(s, k, swaps)
    {
      col := col - 1;
      UnscrambleLast(Rows(src), k, swaps, col);
      SwapColumnsInPlace(src, indxr[col], indxc[col]);
    }
    UnscrambleNone(Rows(src), k, swaps);
  }

  /** Reduces the whole matrix, recording the row swaps; fails when no pivot is left. */
  method Reduce(t: Tables, src: array2<gf>, indxr: array<nat>, indxc: array<nat>)
    returns (error: nat, ghost swaps: seq<(nat, nat)>)
    requires Valid(t) && src.Length0 == src.Length1 == indxr.Length == indxc.Length
    requires indxr != indxc
    modifies src, indxr, indxc
    ensures error == 0 || error == 1
    ensures error == 1 ==> !Nonsingular(old(Rows(src)), src.Length0)
    ensures error == 0 ==>
      && |swaps| == src.Length0 && SwapsBelow(swaps, |swaps|)
      && (forall i :: 0 <= i < |swaps| ==> swaps[i] == (indxr[i], indxc[i]))
      && IsInverse(old(Rows(src)), Unscramble(Rows(src), |swaps|, swaps), |swaps|)
  {
    hide Valid, Pivot, Exchanged, Nonsingular, IsInverse, SwapRows, Permute, Unscramble, NoPivot, Rows, Inv, Mul, Ix;
    hide Elem;
    var k := src.Length0;
    ghost var a := Rows(src);
    var ipiv := new nat[k](_ => 0);
    ghost var done: set<nat> := {};
    swaps := [];
    ExchangedInitially(a, k);
    var col := 0;
    while col < k
      invariant 0 <= col <= k && |swaps| == col == |done|
      invariant forall i :: 0 <= i < k ==> ipiv[i] == if i in done then 1 else 0
      invariant forall i :: i in done ==> i < k
      invariant forall i :: 0 <= i < col ==> swaps[i] == (indxr[i], indxc[i])
      invariant SwapsBelow(swaps, k)
      invariant Exchanged(a, Rows(src), k, done, swaps)
    {
      var found, irow, icol := FindPivot(src, ipiv, col);
      if !found {
        ghost var j := FreshBelow(done, k);
        NothingFound(src, ipiv, done);
        NoPivotMeansSingular(a, Rows(src), k, done, swaps, j);
        return 1, swaps;
      }
      ipiv[icol] := ipiv[icol] + 1;
      RoundKeepsExchanged(a, Rows(src), k, done, swaps, irow, icol);
      SwapRowsInPlace(src, irow, icol);
      indxr[col], indxc[col] := irow, icol;
      PivotInPlace(t, src, icol);
      swaps, done, col := swaps + [(irow, icol)], done + {icol}, col + 1;
    }
    Pigeonhole(done, k);
    AllExchangedMeansInverse(a, Rows(src), k, done, swaps);
    return 0, swaps;
  }

  lemma NothingFound(src: array2<gf>, ipiv: array<nat>, done: set<nat>)
    requires src.Length0 == src.Length1 == ipiv.Length
    requires forall i :: 0 <= i < ipiv.Length ==> ipiv[i] == if i in done then 1 else 0
    requires forall r, c ::
      0 <= r < ipiv.Length && 0 <= c < ipiv.Length && ipiv[r] == 0 && ipiv[c] == 0 ==> src[r, c] == 0
    ensures NoPivot(Rows(src), ipiv.Length, done)
  {}

  /**
    Replaces a square matrix by its inverse and returns 0, or returns 1 when there is none.
    Every matrix is accepted.
   */
  method InvertMat(t: Tables, src: array2<gf>) returns (error: nat)
    requires Valid(t) && src.Length0 == src.Length1
    modifies src
    ensures error == 0 || error == 1
    ensures error == 0 <==> Nonsingular(old(Rows(src)), src.Length0)
    ensures error == 0 ==> IsInverse(old(Rows(src)), Rows(src), src.Length0)
  {
    hide Valid, Nonsingular, IsInverse, Unscramble;
    var k := src.Length0;
    ghost var a := Rows(src);
    var indxr, indxc := new nat[k], new nat[k];
    ghost var swaps;
    error, swaps := Reduce(t, src, indxr, indxc);
    if error == 0 {
      UnscrambleInPlace(src, indxr, indxc, swaps);
      InverseNonsingular(a, Rows(src), k);
    }
  }

  lemma UnscrambleLast(s: Mat, k: nat, swaps: seq<(nat, nat)>, n: nat)
    requires IsMat(s, k, k) && SwapsBelow(swaps, k) && n < |swaps|
    ensures Unscramble(s, k, swaps[..n + 1]) == Unscramble(SwapColumns(s, k, swaps[n].0, swaps[n].1), k, swaps[..n])
  {
    assert swaps[..n + 1][..n] == swaps[..n];
  }

  lemma UnscrambleNone(s: Mat, k: nat, swaps: seq<(nat, nat)>)
    requires IsMat(s, k, k) && SwapsBelow(swaps, k)
    ensures Unscramble(s, k, swaps[..0]) == s
  {}

  lemma InverseNonsingular(a: Mat, w: Mat, k: nat)
    requires IsMat(a, k, k) && IsMat(w, k, k) && IsInverse(a, w, k)
    ensures Nonsingular(a, k)
  {
    hide Nonsingular;
    InverseMeansNonsingular(a, w, k);
  }
}
