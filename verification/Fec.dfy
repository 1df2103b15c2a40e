/**
  The encoder and decoder of fec.c: `fec_new`, `fec_encode`, `fec_encode_linear`,
  `shuffle`, `build_decode_matrix` and `fec_decode`.
 */
module Fec {
  import opened Sequences
  import opened Galois
  import opened GaloisTables
  import opened LinearAlgebra
  import opened Polynomials
  import opened Vandermonde
  import opened GaussJordan
  import opened FecCode

  /** A code descriptor. */
  class FecParms {
    const k: nat
    const n: nat
    const enc_matrix: array2<gf>

    constructor (k: nat, n: nat, m: array2<gf>)
      ensures this.k == k && this.n == n && enc_matrix == m
    {
      this.k, this.n, enc_matrix := k, n, m;
    }

    ghost predicate Valid()
      reads enc_matrix
    {
      && 1 <= k <= n <= GF_SIZE + 1
      && enc_matrix.Length0 == n && enc_matrix.Length1 == k
      && Rows(enc_matrix) == EncMatrix(k, n)
    }
  }

  // ----- building the encoding matrix -----

  lemma {:induction false} PowExp(r: nat, c: nat)
    ensures Pow(Exp(r), c) == Exp(r * c)
  {
    hide Exp, Mul;
    if c == 0 {
      ExpStarts();
    } else {
      PowExp(r, c - 1);
      MulExp(r, r * (c - 1));
      assert r + r * (c - 1) == r * c;
    }
  }

  lemma PowZero(c: nat)
    ensures Pow(0, c) == if c == 0 then 1 else 0
  {
    if c > 0 { MulZero(Pow(0, c - 1)); }
  }

  /** The power table read at row * col reduced: the power of row's point. */
  method TablePower(t: Tables, row: nat, col: nat) returns (x: gf)
    requires Valid(t)
    ensures x == Pow(Exp(row), col)
  {
    hide Exp, Pow, Product, Inv, Log;
    var m := ModNN(row * col);
    PowExp(row, col);
    ExpMod(row * col);
    x := t.exp[m];
  }

  /** Fills row i with the powers of the i-th evaluation point. */
  method FillVandermonde(t: Tables, tmp_m: array2<gf>)
    requires Valid(t) && 1 <= tmp_m.Length1 <= tmp_m.Length0 <= GF_SIZE + 1
    modifies tmp_m
    ensures forall i, j :: 0 <= i < tmp_m.Length0 && 0 <= j < tmp_m.Length1 ==>
      tmp_m[i, j] == Pow(Points(tmp_m.Length0)[i], j)
  {
    hide Exp, Pow, Valid;
    var n, k := tmp_m.Length0, tmp_m.Length1;
    tmp_m[0, 0] := 1;
    PowZero(0);
    var col := 1;
    while col < k
      invariant 1 <= col <= k
      invariant forall j :: 0 <= j < col ==> tmp_m[0, j] == Pow(0, j)
    {
      PowZero(col);
      tmp_m[0, col] := 0;
      col := col + 1;
    }
    var row := 0;
    while row < n - 1
      invariant 0 <= row <= n - 1
      invariant forall j :: 0 <= j < k ==> tmp_m[0, j] == Pow(0, j)
      invariant forall i, j :: 1 <= i <= row && 0 <= j < k ==> tmp_m[i, j] == Pow(Exp(i - 1), j)
    {
      col := 0;
      while col < k
        invariant 0 <= col <= k
        invariant forall j :: 0 <= j < k ==> tmp_m[0, j] == Pow(0, j)
        invariant forall i, j :: 1 <= i <= row && 0 <= j < k ==> tmp_m[i, j] == Pow(Exp(i - 1), j)
        invariant forall j :: 0 <= j < col ==> tmp_m[row + 1, j] == Pow(Exp(row), j)
      {
        var x := TablePower(t, row, col);
        tmp_m[row + 1, col] := x;
        col := col + 1;
      }
      row := row + 1;
    }
  }

  /** Rows ofs.. of a times the matrix in the top of b, into the same rows of c. */
  method MatMulRows(t: Tables, a: array2<gf>, b: array2<gf>, ghost bm: Mat, c: array2<gf>, ofs: nat)
    requires Valid(t) && c != a && c != b
    requires ofs <= a.Length0 == c.Length0 && c.Length1 == b.Length1
    requires IsMat(bm, a.Length1, b.Length1) && a.Length1 <= b.Length0
    requires forall i, j :: 0 <= i < a.Length1 && 0 <= j < b.Length1 ==> b[i, j] == bm[i][j]
    modifies c
    ensures forall i, j :: ofs <= i < c.Length0 && 0 <= j < c.Length1 ==>
      c[i, j] == VecMat(Rows(a)[i], bm, b.Length1)[j]
  {
    hide Mul, Add, Valid, VecMat;
    var m := b.Length1;
    var row := ofs;
    while row < c.Length0
      invariant ofs <= row <= c.Length0
      invariant forall i, j :: ofs <= i < row && 0 <= j < m ==> c[i, j] == VecMat(Rows(a)[i], bm, m)[j]
    {
      var col := 0;
      while col < m
        invariant 0 <= col <= m
        invariant forall i, j :: ofs <= i < row && 0 <= j < m ==> c[i, j] == VecMat(Rows(a)[i], bm, m)[j]
        invariant forall j :: 0 <= j < col ==> c[row, j] == VecMat(Rows(a)[row], bm, m)[j]
      {
        var acc := MatMulEntry(t, a, row, b, bm, col);
        c[row, col] := acc;
        col := col + 1;
      }
      row := row + 1;
    }
  }

  method MatMulEntry(t: Tables, a: array2<gf>, row: nat, b: array2<gf>, ghost bm: Mat, col: nat) returns (acc: gf)
    requires Valid(t) && row < a.Length0 && col < b.Length1
    requires IsMat(bm, a.Length1, b.Length1) && a.Length1 <= b.Length0
    requires forall i, j :: 0 <= i < a.Length1 && 0 <= j < b.Length1 ==> b[i, j] == bm[i][j]
    ensures acc == VecMat(Rows(a)[row], bm, b.Length1)[col]
  {
    hide Mul, Add, Valid;
    ghost var u, v := Rows(a)[row], Column(bm, b.Length1, col);
    acc := 0;
    var i := 0;
    while i < a.Length1
      invariant 0 <= i <= a.Length1
      invariant acc == DotN(u, v, i)
    {
      var x := GfMul(t, a[row, i], b[i, col]);
      acc := Add(acc, x);
      i := i + 1;
    }
  }

  /** Sets the top square block to the identity. */
  method IdentityTop(m: array2<gf>)
    requires m.Length1 <= m.Length0
    modifies m
    ensures forall i, j :: 0 <= i < m.Length1 && 0 <= j < m.Length1 ==> m[i, j] == Unit(m.Length1, i)[j]
    ensures forall i, j :: m.Length1 <= i < m.Length0 && 0 <= j < m.Length1 ==> m[i, j] == old(m[i, j])
  {
    var k := m.Length1;
    forall i, j | 0 <= i < k && 0 <= j < k { m[i, j] := 0; }
    var col := 0;
    while col < k
      invariant 0 <= col <= k
      invariant forall i, j :: 0 <= i < k && 0 <= j < k ==> m[i, j] == if i == j && i < col then 1 else 0
      invariant forall i, j :: k <= i < m.Length0 && 0 <= j < k ==> m[i, j] == old(m[i, j])
    {
      m[col, col] := 1;
      col := col + 1;
    }
  }

  /** The matrix built from the identity and the product rows is the encoding matrix. */
  lemma EncodingComplete(k: nat, n: nat, v: Mat, m: Mat)
    requires 1 <= k <= n <= GF_SIZE + 1 && IsMat(v, n, k) && IsMat(m, n, k)
    requires forall i, j :: k <= i < n && 0 <= j < k ==> v[i][j] == Pow(Points(n)[i], j)
    requires forall i, j :: 0 <= i < k && 0 <= j < k ==> m[i][j] == Unit(k, i)[j]
    requires forall i, j :: k <= i < n && 0 <= j < k ==> m[i][j] == VecMat(v[i], TopInverse(k), k)[j]
    ensures m == EncMatrix(k, n)
  {
    hide VecMat, TopInverse, Points, Pow;
    forall i | 0 <= i < n
      ensures m[i] == EncMatrix(k, n)[i]
    {
      if i < k {
        EncMatrixTop(k, n, i);
        assert m[i] == Unit(k, i);
      } else {
        assert v[i] == PowerRow(Points(n)[i], k);
        assert m[i] == VecMat(v[i], TopInverse(k), k);
      }
    }
  }

  /** A new code, or null for parameters the field cannot support. */
  method FecNew(t: Tables, k: nat, n: nat) returns (code: FecParms?)
    requires Valid(t) && k >= 1
    ensures code == null <==> k > n || n > GF_SIZE + 1
    ensures code != null ==> fresh(code) && fresh(code.enc_matrix) && code.k == k && code.n == n && code.Valid()
  {
    hide Valid, Mul, Exp, VdmResult, Pow, VecMat, Points, EncMatrix, Rows;
    if k > GF_SIZE + 1 || n > GF_SIZE + 1 || k > n {
      return null;
    }
    var enc := new gf[n, k];
    var tmp_m := new gf[n, k];
    FillVandermonde(t, tmp_m);
    ghost var ps := Points(k);
    assert forall i :: 0 <= i < k ==> ps[i] == Points(n)[i];
    InvertVdm(t, tmp_m, ps);
    if k == 1 { TopInverseOne(); }
    MatMulRows(t, tmp_m, tmp_m, TopInverse(k), enc, k);
    IdentityTop(enc);
    EncodingComplete(k, n, Rows(tmp_m), Rows(enc));
    code := new FecParms(k, n, enc);
  }

  // ----- packets -----

  ghost predicate Sized(bufs: seq<array<gf>>, sz: nat) {
    forall i :: 0 <= i < |bufs| ==> bufs[i].Length == sz
  }

  /** The contents of the packet buffers. */
  ghost function Contents(bufs: seq<array<gf>>, sz: nat): (m: Mat)
    requires Sized(bufs, sz)
    reads bufs
    ensures IsMat(m, |bufs|, sz) && forall i :: 0 <= i < |bufs| ==> m[i] == bufs[i][..]
  {
    seq(|bufs|, i requires 0 <= i < |bufs| reads bufs => bufs[i][..])
  }

  /** Adds c times src[ofs..] to dst, sixteen entries at a time. */
  method AddMul1(t: Tables, dst: array<gf>, src: array<gf>, ofs: nat, c: gf)
    requires Valid(t) && dst != src && ofs + dst.Length <= src.Length
    modifies dst
    ensures dst[..] == VAdd(old(dst[..]), Scale(c, src[ofs..ofs + dst.Length]))
  {
    hide Valid, Mul, Add;
    var sz := dst.Length;
    ghost var sum := VAdd(dst[..], Scale(c, src[ofs..ofs + sz]));
    var i := 0;
    while i + 15 < sz
      invariant 0 <= i <= sz
      invariant forall j :: 0 <= j < i ==> dst[j] == sum[j]
      invariant forall j :: i <= j < sz ==> dst[j] == old(dst[j])
    {
      var lim := i + 16;
      while i < lim
        invariant lim - 16 <= i <= lim <= sz
        invariant forall j :: 0 <= j < i ==> dst[j] == sum[j]
        invariant forall j :: i <= j < sz ==> dst[j] == old(dst[j])
      {
        var x := GfMul(t, c, src[ofs + i]);
        dst[i] := Add(dst[i], x);
        i := i + 1;
      }
    }
    while i < sz
      invariant 0 <= i <= sz
      invariant forall j :: 0 <= j < i ==> dst[j] == sum[j]
      invariant forall j :: i <= j < sz ==> dst[j] == old(dst[j])
    {
      var x := GfMul(t, c, src[ofs + i]);
      dst[i] := Add(dst[i], x);
      i := i + 1;
    }
  }

  /** The macro: no work for a zero coefficient. */
  method AddMul(t: Tables, dst: array<gf>, src: array<gf>, ofs: nat, c: gf)
    requires Valid(t) && dst != src && ofs + dst.Length <= src.Length
    modifies dst
    ensures dst[..] == VAdd(old(dst[..]), Scale(c, src[ofs..ofs + dst.Length]))
  {
    hide Valid, Mul, Add;
    if c != 0 {
      AddMul1(t, dst, src, ofs, c);
    } else {
      ghost var s := src[ofs..ofs + dst.Length];
      forall j | 0 <= j < dst.Length
        ensures dst[j] == VAdd(dst[..], Scale(c, s))[j]
      {
        MulZero(s[j]);
        AddZero(dst[j]);
      }
      assert dst[..] == VAdd(dst[..], Scale(c, s));
    }
  }

  method Clear(dst: array<gf>)
    modifies dst
    ensures dst[..] == Zeros(dst.Length)
  {
    forall i | 0 <= i < dst.Length { dst[i] := 0; }
  }

  lemma VecMatNone(u: Vec, m: Mat, cols: nat)
    requires IsMat(m, |m|, cols)
    ensures VecMatN(u, m, cols, 0) == Zeros(cols)
  {}

  /** Row vector p times the packets: the accumulation loop shared by encoder and decoder. */
  method Combine(t: Tables, dst: array<gf>, pkts: seq<array<gf>>, p: Vec)
    requires Valid(t) && |p| == |pkts| && dst !in pkts && Sized(pkts, dst.Length)
    modifies dst
    ensures dst[..] == VecMat(p, Contents(pkts, dst.Length), dst.Length)
  {
    hide Valid, Mul, Add, VecMatN, Contents, Scale, VAdd;
    var sz := dst.Length;
    ghost var m := Contents(pkts, sz);
    Clear(dst);
    VecMatNone(p, m, sz);
    var i := 0;
    while i < |p|
      invariant 0 <= i <= |p| && Contents(pkts, sz) == m
      invariant dst[..] == VecMatN(p, m, sz, i)
    {
      VecMatStep(p, m, sz, i);
      assert pkts[i][0..0 + sz] == pkts[i][..] == m[i];
      AddMul(t, dst, pkts[i], 0, p[i]);
      i := i + 1;
    }
  }

  /** One row of a matrix buffer, as passed to the accumulation loop. */
  method RowOf(m: array2<gf>, i: nat) returns (row: Vec)
    requires i < m.Length0
    ensures row == Rows(m)[i]
  {
    row := seq(m.Length1, j requires 0 <= j < m.Length1 reads m => m[i, j]);
  }

  method Copy(dst: array<gf>, src: array<gf>, ofs: nat)
    requires dst != src && ofs + dst.Length <= src.Length
    modifies dst
    ensures dst[..] == src[ofs..ofs + dst.Length]
  {
    forall i | 0 <= i < dst.Length { dst[i] := src[ofs + i]; }
  }

  /** Computes packet `index` from the k source packets; an invalid index leaves the buffer alone. */
  method FecEncode(t: Tables, code: FecParms, src: seq<array<gf>>, fec: array<gf>, index: nat)
    requires Valid(t) && code.Valid() && |src| == code.k
    requires fec !in src && Sized(src, fec.Length)
    modifies fec
    ensures index < code.n ==> fec[..] == Encoded(code.k, code.n, Contents(src, fec.Length), fec.Length, index)
    ensures index >= code.n ==> fec[..] == old(fec[..])
  {
    hide Valid, EncMatrix, VecMat, Contents, Rows;
    ghost var source := Contents(src, fec.Length);
    if index < code.k {
      EncodedSource(code.k, code.n, source, fec.Length, index);
      assert src[index][0..0 + fec.Length] == src[index][..] == source[index];
      Copy(fec, src[index], 0);
    } else if index < code.n {
      var p := RowOf(code.enc_matrix, index);
      Combine(t, fec, src, p);
    }
  }

  /** The k packets lying one after another in a linear buffer. */
  ghost function Slices(buf: Vec, k: nat, sz: nat): (m: Mat)
    requires k * sz <= |buf|
    ensures IsMat(m, k, sz)
    ensures forall i :: 0 <= i < k ==> 0 <= i * sz <= i * sz + sz <= |buf| && m[i] == buf[i * sz..i * sz + sz]
  {
    SliceBounds(k, sz);
    seq(k, i requires 0 <= i < k => buf[i * sz..i * sz + sz])
  }

  lemma SliceBounds(k: nat, sz: nat)
    ensures forall i :: 0 <= i < k ==> 0 <= i * sz <= i * sz + sz <= k * sz
  {
    forall i | 0 <= i < k
      ensures 0 <= i * sz <= i * sz + sz <= k * sz
    {
      assert (k - 1 - i) * sz >= 0;
      assert i * sz + sz + (k - 1 - i) * sz == k * sz;
    }
  }

  lemma SliceAt(buf: Vec, k: nat, sz: nat, i: nat)
    requires k * sz <= |buf| && i < k
    ensures 0 <= i * sz <= i * sz + sz <= |buf|
    ensures Slices(buf, k, sz)[i] == buf[i * sz..i * sz + sz]
  {
    hide Slices;
    var m := Slices(buf, k, sz);
    assert |m[i]| == sz;
  }

  /** Adds c times the i-th packet of the linear buffer that starts at ofs. */
  method AddSlice(t: Tables, dst: array<gf>, src: array<gf>, ofs: nat, k: nat, i: nat, c: gf)
    requires Valid(t) && dst != src && ofs + k * dst.Length <= src.Length && i < k
    modifies dst
    ensures dst[..] == VAdd(old(dst[..]), Scale(c, Slices(src[ofs..], k, dst.Length)[i]))
  {
    hide Valid, Mul, Add, Slices, Scale, VAdd;
    var at := i * dst.Length;
    SliceAt(src[ofs..], k, dst.Length, i);
    AddMul(t, dst, src, ofs + at, c);
    assert src[ofs..][at..at + dst.Length] == src[ofs + at..ofs + at + dst.Length];
  }

  /** Copies the i-th packet of the linear buffer that starts at ofs. */
  method CopySlice(dst: array<gf>, src: array<gf>, ofs: nat, k: nat, i: nat)
    requires dst != src && ofs + k * dst.Length <= src.Length && i < k
    modifies dst
    ensures dst[..] == Slices(src[ofs..], k, dst.Length)[i]
  {
    hide Slices;
    var at := i * dst.Length;
    SliceAt(src[ofs..], k, dst.Length, i);
    Copy(dst, src, ofs + at);
    assert src[ofs..][at..at + dst.Length] == src[ofs + at..ofs + at + dst.Length];
  }

  /** The same from a linear buffer, starting at ofs. */
  method FecEncodeLinear(t: Tables, code: FecParms, src: array<gf>, ofs: nat, fec: array<gf>, index: nat)
    requires Valid(t) && code.Valid() && src != fec && ofs + code.k * fec.Length <= src.Length
    modifies fec
    ensures index < code.n ==>
      fec[..] == Encoded(code.k, code.n, Slices(src[ofs..], code.k, fec.Length), fec.Length, index)
    ensures index >= code.n ==> fec[..] == old(fec[..])
  {
    hide Valid, EncMatrix, Slices, Mul, Add, VecMatN, Rows;
    var k := code.k;
    ghost var sz := fec.Length;
    ghost var source := Slices(src[ofs..], k, sz);
    if index < k {
      EncodedSource(k, code.n, source, sz, index);
      CopySlice(fec, src, ofs, k, index);
    } else if index < code.n {
      var p := RowOf(code.enc_matrix, index);
      Clear(fec);
      VecMatNone(p, source, sz);
      var i := 0;
      while i < k
        invariant 0 <= i <= k
        invariant fec[..] == VecMatN(p, source, sz, i)
      {
        VecMatStep(p, source, sz, i);
        AddSlice(t, fec, src, ofs, k, i, p[i]);
        i := i + 1;
      }
    }
  }

  // ----- shuffling -----

  /** Packets paired with their indices. */
  function Pairs<T>(pkt: seq<T>, index: seq<nat>): (ps: seq<(T, nat)>)
    requires |pkt| == |index|
    ensures |ps| == |pkt| && forall i :: 0 <= i < |ps| ==> ps[i] == (pkt[i], index[i])
  {
    seq(|pkt|, i requires 0 <= i < |pkt| => (pkt[i], index[i]))
  }

  ghost function AtHome(index: seq<nat>): nat {
    if |index| == 0 then 0
    else AtHome(index[..|index| - 1]) + if index[|index| - 1] == |index| - 1 then 1 else 0
  }

  lemma {:induction false} AtHomeBound(index: seq<nat>)
    ensures AtHome(index) <= |index|
  {
    if |index| > 0 { AtHomeBound(index[..|index| - 1]); }
  }

  /** Changing one entry changes the number of packets at home accordingly. */
  lemma {:induction false} AtHomeUpdate(index: seq<nat>, i: nat, v: nat)
    requires i < |index|
    ensures AtHome(index[i := v]) == AtHome(index) - (if index[i] == i then 1 else 0) + (if v == i then 1 else 0)
  {
    var n := |index| - 1;
    if i < n {
      assert index[i := v][..n] == index[..n][i := v];
      AtHomeUpdate(index[..n], i, v);
    } else {
      assert index[i := v][..n] == index[..n];
    }
  }

  /** A value below k occurs twice. */
  ghost predicate Repeats(index: seq<nat>) {
    exists i, j :: 0 <= i < j < |index| && index[i] == index[j] < |index|
  }

  lemma RepeatsMultiset(s: seq<nat>, s': seq<nat>)
    requires Permutation(s, s') && Repeats(s)
    ensures Repeats(s')
  {
    var i, j :| 0 <= i < j < |s| && s[i] == s[j] < |s|;
    var v := s[i];
    CountTwice(s, i, j);
    MultisetSize(s, s');
    TwoOccurrences(s', v);
  }

  lemma MultisetSize<T>(s: seq<T>, s': seq<T>)
    requires multiset(s) == multiset(s')
    ensures |s| == |s'|
  {
    assert |multiset(s)| == |s| && |multiset(s')| == |s'|;
  }

  lemma CountTwice<T>(s: seq<T>, i: nat, j: nat)
    requires i < j < |s| && s[i] == s[j]
    ensures multiset(s)[s[i]] >= 2
  {
    assert s == s[..j] + [s[j]] + s[j + 1..];
    assert s[..j][i] == s[i];
    assert multiset(s) == multiset(s[..j]) + multiset([s[j]]) + multiset(s[j + 1..]);
    assert s[i] in multiset(s[..j]);
  }

  lemma {:induction false} TwoOccurrences<T>(s: seq<T>, v: T)
    requires multiset(s)[v] >= 2
    ensures exists i, j :: 0 <= i < j < |s| && s[i] == s[j] == v
  {
    var i :| 0 <= i < |s| && s[i] == v;
    var rest := s[..i] + s[i + 1..];
    assert s == s[..i] + [v] + s[i + 1..];
    assert multiset(s) == multiset(rest) + multiset([v]);
    assert v in multiset(rest);
    var j :| 0 <= j < |rest| && rest[j] == v;
    if j < i { assert s[j] == v; } else { assert s[j + 1] == v; }
  }

  lemma PairsMember<T>(pkt: seq<T>, index: seq<nat>, pkt': seq<T>, index': seq<nat>, i: nat) returns (j: nat)
    requires |pkt| == |index| && |pkt'| == |index'| && i < |pkt'|
    requires multiset(Pairs(pkt, index)) == multiset(Pairs(pkt', index'))
    ensures j < |index| && pkt[j] == pkt'[i] && index[j] == index'[i]
  {
    hide Pairs;
    var p := Pairs(pkt', index')[i];
    assert p in multiset(Pairs(pkt', index'));
    assert p in Pairs(pkt, index);
    j :| 0 <= j < |pkt| && Pairs(pkt, index)[j] == p;
  }

  ghost predicate Permutation<T>(s: seq<T>, s': seq<T>) {
    multiset(s) == multiset(s')
  }

  lemma PermutationRefl<T>(s: seq<T>)
    ensures Permutation(s, s)
  {}

  lemma PermutationTrans<T>(a: seq<T>, b: seq<T>, c: seq<T>)
    ensures Permutation(a, b) && Permutation(b, c) ==> Permutation(a, c)
    ensures Permutation(a, b) <==> Permutation(b, a)
  {}

  lemma SwapMultiset<T>(s: seq<T>, i: nat, c: nat)
    requires i < |s| && c < |s|
    ensures multiset(s[i := s[c]][c := s[i]]) == multiset(s)
  {}

  /** Swaps two packets with their indices, so that one more packet is at home. */
  method BringHome(pkt: array<array<gf>>, index: array<nat>, i: nat, c: nat)
    requires pkt.Length == index.Length && i < index.Length && c < index.Length
    requires index[i] == c && i != c && index[c] != c
    modifies pkt, index
    ensures multiset(Pairs(pkt[..], index[..])) == multiset(Pairs(old(pkt[..]), old(index[..])))
    ensures Permutation(index[..], old(index[..])) && Permutation(pkt[..], old(pkt[..]))
    ensures index[..] == old(index[..])[i := old(index[c])][c := c]
    ensures old(AtHome(index[..])) < AtHome(index[..]) <= index.Length
  {
    hide Pairs;
    ghost var s, p := index[..], pkt[..];
    index[i], index[c] := index[c], index[i];
    pkt[i], pkt[c] := pkt[c], pkt[i];
    assert index[..] == s[i := s[c]][c := s[i]] && pkt[..] == p[i := p[c]][c := p[i]];
    SwapMultiset(s, i, c);
    SwapMultiset(p, i, c);
    SwapMultiset(Pairs(p, s), i, c);
    assert Pairs(pkt[..], index[..]) == Pairs(p, s)[i := Pairs(p, s)[c]][c := Pairs(p, s)[i]];
    AtHomeUpdate(s, i, s[c]);
    AtHomeUpdate(s[i := s[c]], c, s[i]);
    AtHomeBound(index[..]);
  }

  /** Every source packet is at its own position. */
  predicate InPlace(index: seq<nat>) {
    forall i :: 0 <= i < |index| && index[i] < |index| ==> index[i] == i
  }

  /**
    Moves every source packet to its own position.  Fails exactly when two packets claim the
    same position below k.
   */
  method Shuffle(pkt: array<array<gf>>, index: array<nat>, k: nat) returns (error: nat)
    requires pkt.Length == index.Length == k
    modifies pkt, index
    ensures error == 0 || error == 1
    ensures error == 1 <==> Repeats(old(index[..]))
    ensures multiset(Pairs(pkt[..], index[..])) == multiset(Pairs(old(pkt[..]), old(index[..])))
    ensures Permutation(index[..], old(index[..]))
    ensures Permutation(pkt[..], old(pkt[..]))
    ensures error == 0 ==> InPlace(index[..])
    ensures old(InPlace(index[..])) ==> index[..] == old(index[..])
  {
    hide Pairs, Repeats, AtHome, Permutation;
    AtHomeBound(index[..]);
    ghost var index0, pkt0 := index[..], pkt[..];
    ghost var pairs0 := Pairs(pkt0, index0);
    PermutationRefl(index0);
    PermutationRefl(pkt0);
    var i := 0;
    while i < k
      invariant 0 <= i <= k
      invariant multiset(Pairs(pkt[..], index[..])) == multiset(pairs0)
      invariant Permutation(index[..], index0) && Permutation(pkt[..], pkt0)
      invariant AtHome(index[..]) <= k
      invariant forall j :: 0 <= j < i ==> index[j] >= k || index[j] == j
      invariant InPlace(index0) ==> index[..] == index0
      decreases k - AtHome(index[..]), k - i
    {
      if index[i] >= k || index[i] == i {
        i := i + 1;
      } else {
        var c := index[i];
        assert !InPlace(index[..]) by { assert index[..][i] == c; }
        if index[c] == c {
          TwiceRepeats(index[..], i, c);
          RepeatsMultiset(index[..], index0);
          return 1;
        }
        ghost var index1, pkt1 := index[..], pkt[..];
        BringHome(pkt, index, i, c);
        PermutationTrans(index[..], index1, index0);
        PermutationTrans(pkt[..], pkt1, pkt0);
      }
    }
    AtHomeNoRepeats(index[..]);
    PermutationTrans(index0, index[..], index0);
    if Repeats(index0) {
      RepeatsMultiset(index0, index[..]);
    }
    return 0;
  }

  lemma TwiceRepeats(s: seq<nat>, i: nat, c: nat)
    requires i < |s| && c < |s| && i != c && s[i] == s[c] == c
    ensures Repeats(s)
  {
    if i < c { assert s[i] == s[c]; } else { assert s[c] == s[i]; }
  }

  lemma AtHomeNoRepeats(s: seq<nat>)
    requires forall i :: 0 <= i < |s| ==> s[i] >= |s| || s[i] == i
    ensures !Repeats(s)
  {}

  // ----- decoding -----

  /** The received rows of the encoding matrix, inverted; fails for an invalid index or a singular matrix. */
  method BuildDecodeMatrix(t: Tables, code: FecParms, index: array<nat>) returns (matrix: array2?<gf>)
    requires Valid(t) && code.Valid() && index.Length == code.k
    requires forall i :: 0 <= i < code.k && index[i] < code.k ==> index[i] == i
    ensures matrix == null ==>
      (exists i :: 0 <= i < code.k && index[i] >= code.n) || !Nonsingular(Selected(code.k, code.n, index[..]), code.k)
    ensures matrix != null ==>
      && fresh(matrix) && matrix.Length0 == matrix.Length1 == code.k
      && (forall i :: 0 <= i < code.k ==> index[i] < code.n)
      && IsInverse(Selected(code.k, code.n, index[..]), Rows(matrix), code.k)
  {
    hide Valid, EncMatrix, Nonsingular, IsInverse;
    var k := code.k;
    matrix := new gf[k, k];
    var i := 0;
    while i < k
      invariant 0 <= i <= k
      invariant forall r :: 0 <= r < i ==> index[r] < code.n
      invariant forall r, j :: 0 <= r < i && 0 <= j < k ==> matrix[r, j] == EncMatrix(k, code.n)[index[r]][j]
    {
      if index[i] < k {
        EncMatrixTop(k, code.n, i);
        forall j | 0 <= j < k { matrix[i, j] := 0; }
        matrix[i, i] := 1;
      } else if index[i] < code.n {
        forall j | 0 <= j < k { matrix[i, j] := code.enc_matrix[index[i], j]; }
      } else {
        assert index[..][i] >= code.n;
        return null;
      }
      i := i + 1;
    }
    ghost var g := Selected(k, code.n, index[..]);
    RowsEqual(Rows(matrix), g, k);
    var error := InvertMat(t, matrix);
    if error != 0 {
      matrix := null;
    }
  }

  /** The received packets are the encodings of the source at the given indices. */
  ghost predicate Encodings(k: nat, n: nat, source: Mat, sz: nat, index: seq<nat>, received: Mat)
    requires 1 <= k && IsMat(source, k, sz)
  {
    && |received| == |index|
    && forall i :: 0 <= i < |index| ==> index[i] < n && received[i] == Encoded(k, n, source, sz, index[i])
  }

  ghost predicate ValidIndices(index: seq<nat>, n: nat) {
    Distinct(index) && forall i :: 0 <= i < |index| ==> index[i] < n
  }

  /** A fresh buffer with the decoded packet for every position whose packet is redundant. */
  method DecodeRows(t: Tables, k: nat, m_dec: array2<gf>, pkt: seq<array<gf>>, index: seq<nat>, sz: nat)
    returns (new_pkt: seq<array<gf>>)
    requires Valid(t) && |pkt| == |index| == k == m_dec.Length0 == m_dec.Length1 && Sized(pkt, sz)
    ensures |new_pkt| == k && Sized(new_pkt, sz)
    ensures forall r :: 0 <= r < k && index[r] >= k ==>
      fresh(new_pkt[r]) && new_pkt[r][..] == VecMat(Rows(m_dec)[r], Contents(pkt, sz), sz)
  {
    hide Valid, Mul, Add, VecMat, Contents, Rows;
    ghost var received := Contents(pkt, sz);
    new_pkt := [];
    var row := 0;
    while row < k
      invariant 0 <= row <= k == |pkt| && |new_pkt| == row && Sized(new_pkt, sz)
      invariant forall r :: 0 <= r < row && index[r] >= k ==>
        fresh(new_pkt[r]) && new_pkt[r][..] == VecMat(Rows(m_dec)[r], received, sz)
    {
      if index[row] >= k {
        var p := RowOf(m_dec, row);
        var buf := new gf[sz];
        Combine(t, buf, pkt, p);
        new_pkt := new_pkt + [buf];
      } else {
        new_pkt := new_pkt + [pkt[row]];
      }
      row := row + 1;
    }
  }

  /** Copies the decoded packets over the redundant ones. */
  method StoreRows(k: nat, pkt: seq<array<gf>>, new_pkt: seq<array<gf>>, index: seq<nat>, sz: nat)
    requires |pkt| == |new_pkt| == |index| == k && Sized(pkt, sz) && Sized(new_pkt, sz) && Distinct(pkt)
    requires forall r, i :: 0 <= r < k && 0 <= i < k && index[r] >= k ==> new_pkt[r] != pkt[i]
    modifies pkt
    ensures forall r :: 0 <= r < k ==> pkt[r][..] == old(if index[r] >= k then new_pkt[r][..] else pkt[r][..])
  {
    var row := 0;
    while row < k
      invariant 0 <= row <= k
      invariant forall r :: 0 <= r < row ==> pkt[r][..] == old(if index[r] >= k then new_pkt[r][..] else pkt[r][..])
      invariant forall r :: row <= r < k ==> pkt[r][..] == old(pkt[r][..])
      invariant forall r :: 0 <= r < k && index[r] >= k ==> new_pkt[r][..] == old(new_pkt[r][..])
    {
      if index[row] >= k {
        assert new_pkt[row][0..0 + sz] == new_pkt[row][..];
        Copy(pkt[row], new_pkt[row], 0);
      }
      row := row + 1;
    }
  }

  /** Both decoding loops: redundant packets are replaced, source packets stay. */
  method DecodeInPlace(t: Tables, k: nat, m_dec: array2<gf>, pkt: seq<array<gf>>, index: seq<nat>, sz: nat)
    requires Valid(t) && |pkt| == |index| == k == m_dec.Length0 == m_dec.Length1
    requires Sized(pkt, sz) && Distinct(pkt)
    modifies pkt
    ensures forall r :: 0 <= r < k && index[r] >= k ==>
      Contents(pkt, sz)[r] == VecMat(old(Rows(m_dec))[r], old(Contents(pkt, sz)), sz)
    ensures forall r :: 0 <= r < k && index[r] < k ==> Contents(pkt, sz)[r] == old(Contents(pkt, sz))[r]
  {
    hide Valid, VecMat, Contents, Rows, Distinct;
    ghost var received := Contents(pkt, sz);
    var new_pkt := DecodeRows(t, k, m_dec, pkt, index, sz);
    StoreRows(k, pkt, new_pkt, index, sz);
    forall r | 0 <= r < k
      ensures Contents(pkt, sz)[r] == if index[r] >= k then VecMat(old(Rows(m_dec))[r], received, sz) else received[r]
    {
      assert received[r] == old(pkt[r][..]);
      assert Contents(pkt, sz)[r] == pkt[r][..];
    }
  }

  lemma PermutationIndices(s: seq<nat>, s': seq<nat>, n: nat)
    requires Permutation(s, s') || Permutation(s', s)
    requires ValidIndices(s, n)
    ensures ValidIndices(s', n)
  {
    MultisetSize(s, s');
    forall i | 0 <= i < |s'|
      ensures s'[i] < n
    {
      assert s'[i] in multiset(s');
      assert s'[i] in s;
    }
    forall i, j | 0 <= i < j < |s'|
      ensures s'[i] != s'[j]
    {
      if s'[i] == s'[j] {
        CountTwice(s', i, j);
        TwoOccurrences(s, s'[i]);
      }
    }
  }

  /** Packet p is among the received ones, under index v. */
  ghost predicate Holds(index: seq<nat>, received: Mat, v: nat, p: Vec)
    requires |index| == |received|
  {
    exists j :: 0 <= j < |index| && index[j] == v && received[j] == p
  }

  /** Every packet of the second batch occurs in the first under the same index. */
  ghost predicate IncludedIn(index: seq<nat>, received: Mat, index': seq<nat>, received': Mat)
    requires |index| == |received| && |index'| == |received'|
  {
    forall i :: 0 <= i < |index'| ==> Holds(index, received, index'[i], received'[i])
  }

  /** Shuffling keeps every packet with its index. */
  lemma ShuffledIncluded(pkt: seq<array<gf>>, index: seq<nat>, pkt': seq<array<gf>>, index': seq<nat>, sz: nat)
    requires |pkt| == |index| && |pkt'| == |index'| && Sized(pkt, sz) && Sized(pkt', sz)
    requires multiset(Pairs(pkt, index)) == multiset(Pairs(pkt', index'))
    ensures IncludedIn(index, Contents(pkt, sz), index', Contents(pkt', sz))
  {
    hide Pairs, Contents;
    var a, b := Contents(pkt, sz), Contents(pkt', sz);
    forall i | 0 <= i < |index'|
      ensures Holds(index, a, index'[i], b[i])
    {
      var j := PairsMember(pkt, index, pkt', index', i);
      assert a[j] == pkt[j][..] == b[i];
    }
  }

  /** What the decoder stores is the source, whatever the source was. */
  lemma StoredIsSource(k: nat, n: nat, source: Mat, sz: nat, index: seq<nat>, received: Mat, w: Mat, stored: Mat)
    requires 1 <= k <= n <= GF_SIZE + 1 && IsMat(source, k, sz) && |index| == k
    requires IsMat(received, k, sz) && IsMat(stored, k, sz) && IsMat(w, k, k)
    requires Encodings(k, n, source, sz, index, received)
    requires forall i :: 0 <= i < k && index[i] < k ==> index[i] == i
    requires IsInverse(Selected(k, n, index), w, k)
    requires forall r :: 0 <= r < k ==> stored[r] == if index[r] >= k then VecMat(w[r], received, sz) else received[r]
    ensures stored == source
  {
    hide Encoded, VecMat, Selected, IsInverse;
    forall r | 0 <= r < k
      ensures stored[r] == source[r]
    {
      if index[r] >= k {
        DecodeRecovers(k, n, index, w, source, sz, received, r);
      } else {
        EncodedSource(k, n, source, sz, r);
      }
    }
  }

  /** Whatever source the received packets encode, the stored packets are that source. */
  ghost predicate Recovers(k: nat, n: nat, sz: nat, index: seq<nat>, received: Mat, stored: Mat)
    requires 1 <= k
  {
    forall source: Mat :: IsMat(source, k, sz) && Encodings(k, n, source, sz, index, received) ==> stored == source
  }

  lemma StoredRecovers(k: nat, n: nat, sz: nat, index: seq<nat>, received: Mat, index': seq<nat>, received': Mat,
                       w: Mat, stored: Mat)
    requires 1 <= k <= n <= GF_SIZE + 1 && |index| == |received| && |index'| == |received'| == k
    requires IncludedIn(index, received, index', received')
    requires IsMat(received', k, sz) && IsMat(stored, k, sz) && IsMat(w, k, k)
    requires forall i :: 0 <= i < k ==> index'[i] < n
    requires forall i :: 0 <= i < k && index'[i] < k ==> index'[i] == i
    requires IsInverse(Selected(k, n, index'), w, k)
    requires forall r :: 0 <= r < k && index'[r] >= k ==> stored[r] == VecMat(w[r], received', sz)
    requires forall r :: 0 <= r < k && index'[r] < k ==> stored[r] == received'[r]
    ensures Recovers(k, n, sz, index, received, stored)
  {
    hide Encoded, VecMat, Selected, IsInverse;
    forall source: Mat | IsMat(source, k, sz) && Encodings(k, n, source, sz, index, received)
      ensures stored == source
    {
      StoredIsSource(k, n, source, sz, index', received', w, stored);
    }
  }

  lemma RepeatsNotValid(index: seq<nat>, n: nat)
    requires Repeats(index)
    ensures !ValidIndices(index, n)
  {}

  lemma PermutationBuffers(s: seq<array<gf>>, s': seq<array<gf>>, sz: nat)
    requires Permutation(s', s) && Sized(s, sz) && Distinct(s)
    ensures Sized(s', sz) && Distinct(s')
    ensures forall x :: x in s' <==> x in s
  {
    forall x: array<gf>
      ensures x in s' <==> x in s
    {
      assert x in s <==> x in multiset(s);
      assert x in s' <==> x in multiset(s');
    }
    forall i | 0 <= i < |s'|
      ensures s'[i].Length == sz
    {
      assert s'[i] in s;
    }
    forall i, j | 0 <= i < j < |s'|
      ensures s'[i] != s'[j]
    {
      if s'[i] == s'[j] {
        CountTwice(s', i, j);
        TwoOccurrences(s, s'[i]);
      }
    }
  }

  /**
    Decodes k received packets in place.  Succeeds exactly when the indices are distinct and
    below n, and then leaves the source packets in order, whichever packets arrived.  The caller's
    indices are left alone exactly when every source packet was at its own position.
   */
  method FecDecode(t: Tables, code: FecParms, pkt: array<array<gf>>, index: array<nat>, sz: nat) returns (error: nat)
    requires Valid(t) && code.Valid() && pkt.Length == index.Length == code.k
    requires Sized(pkt[..], sz) && Distinct(pkt[..])
    requires pkt as object !in pkt[..] && index as object !in pkt[..] && index as object != pkt
    requires code.enc_matrix as object !in pkt[..]
    modifies pkt, index, pkt[..]
    ensures error == 0 || error == 1
    ensures error == 0 <==> ValidIndices(old(index[..]), code.n)
    ensures Permutation(pkt[..], old(pkt[..])) && Sized(pkt[..], sz) && Permutation(index[..], old(index[..]))
    ensures error == 0 ==> InPlace(index[..]) && (index[..] == old(index[..]) <==> InPlace(old(index[..])))
    ensures error == 0 ==>
      Recovers(code.k, code.n, sz, old(index[..]), old(Contents(pkt[..], sz)), Contents(pkt[..], sz))
  {
    hide Valid, EncMatrix, Selected, Nonsingular, IsInverse, Contents, Rows, Pairs, Permutation, Repeats, Recovers;
    hide IncludedIn, VecMat;
    ghost var k, n, pkt0, index0 := code.k, code.n, pkt[..], index[..];
    error := Shuffle(pkt, index, code.k);
    PermutationBuffers(pkt0, pkt[..], sz);
    if error != 0 {
      RepeatsNotValid(index0, n);
      return;
    }
    ghost var index1 := index[..];
    var m_dec := BuildDecodeMatrix(t, code, index);
    if m_dec == null {
      if ValidIndices(index0, n) {
        PermutationIndices(index0, index1, n);
        SelectedNonsingular(k, n, index1);
      }
      return 1;
    }
    ghost var w, received := Rows(m_dec), Contents(pkt[..], sz);
    RepeatedNotInvertible(k, n, index1, w);
    PermutationIndices(index1, index0, n);
    ShuffledIncluded(pkt0, index0, pkt[..], index1, sz);
    ghost var pkt1 := pkt[..];
    assert forall i :: 0 <= i < |pkt1| ==> pkt1[i] in pkt0;
    DecodeInPlace(t, code.k, m_dec, pkt[..], index[..], sz);
    StoredRecovers(k, n, sz, index0, old(Contents(pkt[..], sz)), index1, received, w, Contents(pkt[..], sz));
    return 0;
  }

  /** Two source packets that arrive in the wrong order: the caller's indices change too. */
  method DecodeSwapped(t: Tables, code: FecParms, pkt: array<array<gf>>, index: array<nat>, sz: nat)
    returns (error: nat)
    requires Valid(t) && code.Valid() && pkt.Length == index.Length == code.k == 2 && index[..] == [1, 0]
    requires Sized(pkt[..], sz) && Distinct(pkt[..])
    requires pkt as object !in pkt[..] && index as object !in pkt[..] && index as object != pkt
    requires code.enc_matrix as object !in pkt[..]
    modifies pkt, index, pkt[..]
    ensures error == 0 && index[..] == [0, 1]
  {
    hide Valid, EncMatrix, Contents, Recovers;
    error := FecDecode(t, code, pkt, index, sz);
    PermutationIndices([1, 0], index[..], 2);
  }
}
