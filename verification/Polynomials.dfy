/**
  Polynomials over GF(2^8), as coefficient sequences with the constant term first,
  and what synthetic division by a root computes.
 */
module Polynomials {
  import opened Sequences
  import opened Galois
  import opened LinearAlgebra

  /** Horner evaluation. */
  ghost function Eval(c: Vec, y: gf): gf {
    if |c| == 0 then 0 else Add(c[0], Mul(y, Eval(c[1..], y)))
  }

  lemma {:induction false} EvalAdd(c: Vec, d: Vec, y: gf)
    requires |c| == |d|
    ensures Eval(VAdd(c, d), y) == Add(Eval(c, y), Eval(d, y))
  {
    hide Add, Mul;
    if |c| == 0 {
      AddZero(0);
    } else {
      assert VAdd(c, d)[1..] == VAdd(c[1..], d[1..]);
      EvalAdd(c[1..], d[1..], y);
      MulDistr(y, Eval(c[1..], y), Eval(d[1..], y));
      AddExchange(c[0], d[0], Mul(y, Eval(c[1..], y)), Mul(y, Eval(d[1..], y)));
    }
  }

  lemma {:induction false} EvalScale(a: gf, c: Vec, y: gf)
    ensures Eval(Scale(a, c), y) == Mul(a, Eval(c, y))
  {
    hide Add, Mul;
    if |c| == 0 {
      MulZero(a);
    } else {
      assert Scale(a, c)[1..] == Scale(a, c[1..]);
      EvalScale(a, c[1..], y);
      var e := Eval(c[1..], y);
      MulDistr(a, c[0], Mul(y, e));
      MulAssoc(a, y, e); MulComm(a, y); MulAssoc(y, a, e);
    }
  }

  lemma {:induction false} EvalPadded(c: Vec, y: gf)
    ensures Eval(c + [0], y) == Eval(c, y)
  {
    hide Add, Mul;
    if |c| == 0 {
      var zero: Vec := [0];
      assert zero[1..] == [];
      assert c + [0] == [0];
      MulZero(y);
      AddZero(0);
    } else {
      assert (c + [0])[1..] == c[1..] + [0];
      EvalPadded(c[1..], y);
    }
  }

  /** The polynomial q times (x + a). */
  ghost function MulLinear(q: Vec, a: gf): (r: Vec)
    ensures |r| == |q| + 1
  {
    VAdd([0] + q, Scale(a, q) + [0])
  }

  lemma MulLinearAt(q: Vec, a: gf, i: nat)
    requires i <= |q|
    ensures MulLinear(q, a)[i] == Add(if i > 0 then q[i - 1] else 0, if i < |q| then Mul(a, q[i]) else 0)
  {}

  lemma EvalMulLinear(q: Vec, a: gf, y: gf)
    ensures Eval(MulLinear(q, a), y) == Mul(Add(y, a), Eval(q, y))
  {
    hide Add, Mul;
    EvalAdd([0] + q, Scale(a, q) + [0], y);
    EvalPadded(Scale(a, q), y);
    EvalScale(a, q, y);
    assert ([0] + q)[1..] == q;
    AddZero(Mul(y, Eval(q, y)));
    MulDistr(Eval(q, y), y, a);
  }

  lemma MulLinearCommute(q: Vec, a: gf, b: gf)
    ensures MulLinear(MulLinear(q, a), b) == MulLinear(MulLinear(q, b), a)
  {
    hide Add, Mul, MulLinear;
    var l, r := MulLinear(MulLinear(q, a), b), MulLinear(MulLinear(q, b), a);
    forall i | 0 <= i < |l|
      ensures l[i] == r[i]
    {
      MulLinearAt(MulLinear(q, a), b, i);
      MulLinearAt(MulLinear(q, b), a, i);
      var q2 := if i > 1 then q[i - 2] else 0;
      var q1 := if 0 < i <= |q| then q[i - 1] else 0;
      var q0 := if i < |q| then q[i] else 0;
      MulZero(a); MulZero(b); AddZero(0);
      if i > 0 { MulLinearAt(q, a, i - 1); MulLinearAt(q, b, i - 1); }
      if i <= |q| { MulLinearAt(q, a, i); MulLinearAt(q, b, i); }
      CommuteTerm(q2, q1, q0, a, b);
    }
  }

  lemma CommuteTerm(q2: gf, q1: gf, q0: gf, a: gf, b: gf)
    ensures Add(Add(q2, Mul(a, q1)), Mul(b, Add(q1, Mul(a, q0)))) ==
      Add(Add(q2, Mul(b, q1)), Mul(a, Add(q1, Mul(b, q0))))
  {
    hide Add, Mul;
    MulDistr(b, q1, Mul(a, q0)); MulDistr(a, q1, Mul(b, q0));
    MulAssoc(b, a, q0); MulAssoc(a, b, q0); MulComm(a, b);
    var x, y, z := Mul(a, q1), Mul(b, q1), Mul(Mul(a, b), q0);
    AddAssoc(q2, x, Add(y, z)); AddAssoc(q2, y, Add(x, z));
    AddAssoc(x, y, z); AddAssoc(y, x, z); AddComm(x, y);
  }

  // ----- the product of linear factors -----

  ghost function ProdPoly(ps: Vec): (c: Vec)
    ensures |c| == |ps| + 1 && c[|ps|] == 1
  {
    if |ps| == 0 then [1]
    else
      var n := |ps| - 1;
      var q := ProdPoly(ps[..n]);
      MulLinearAt(q, ps[n], n + 1);
      AddZero(q[n]);
      MulLinear(q, ps[n])
  }

  lemma {:induction false} ProdPolyRoots(ps: Vec, y: gf)
    ensures Eval(ProdPoly(ps), y) == 0 <==> y in ps
  {
    hide Add, Mul, MulLinear;
    if |ps| == 0 {
      var one: Vec := [1];
      assert one[1..] == [];
      assert Eval([1], y) == Add(1, Mul(y, Eval([], y)));
      MulZero(y);
      AddZero(1);
    } else {
      var n := |ps| - 1;
      ProdPolyRoots(ps[..n], y);
      var q := ProdPoly(ps[..n]);
      EvalMulLinear(q, ps[n], y);
      MulNonzero(Add(y, ps[n]), Eval(q, y));
      AddCancel(y, ps[n]);
      assert ps == ps[..n] + [ps[n]];
    }
  }

  function Without(ps: Vec, r: nat): (qs: Vec)
    requires r < |ps|
    ensures |qs| == |ps| - 1
  {
    ps[..r] + ps[r + 1..]
  }

  /** Any factor can be taken out. */
  lemma {:induction false} ProdPolyFactor(ps: Vec, r: nat)
    requires r < |ps|
    ensures ProdPoly(ps) == MulLinear(ProdPoly(Without(ps, r)), ps[r])
  {
    hide Add, Mul, MulLinear;
    var n := |ps| - 1;
    if r == n {
      assert Without(ps, r) == ps[..n];
    } else {
      ProdPolyFactor(ps[..n], r);
      MulLinearCommute(ProdPoly(Without(ps[..n], r)), ps[r], ps[n]);
      assert Without(ps, r)[..n - 1] == Without(ps[..n], r);
      assert Without(ps, r)[n - 1] == ps[n];
    }
  }

  // ----- synthetic division -----

  /** The quotient of c by (x + a): its coefficients are the partial Horner values. */
  ghost function Quotient(c: Vec, a: gf): (q: Vec)
    requires |c| > 0
    ensures |q| == |c| - 1 && forall i :: 0 <= i < |q| ==> q[i] == Eval(c[i + 1..], a)
  {
    seq(|c| - 1, i requires 0 <= i < |c| - 1 => Eval(c[i + 1..], a))
  }

  /** Dividing a multiple of (x + a) gives back the factor; the constant term is not read. */
  lemma {:induction false} QuotientAt(c: Vec, q: Vec, a: gf, i: nat)
    requires |c| == |q| + 1 && i < |q|
    requires forall j :: 1 <= j <= |q| ==> c[j] == MulLinear(q, a)[j]
    ensures Eval(c[i + 1..], a) == q[i]
    decreases |q| - i
  {
    hide Add, Mul, MulLinear;
    MulLinearAt(q, a, i + 1);
    assert c[i + 1..][1..] == c[i + 2..];
    if i + 1 < |q| {
      QuotientAt(c, q, a, i + 1);
      AddCancel(q[i], Mul(a, q[i + 1]));
    } else {
      MulZero(a);
      AddZero(q[i]);
    }
  }

  lemma QuotientOfMultiple(c: Vec, q: Vec, a: gf)
    requires |c| == |q| + 1
    requires forall j :: 1 <= j <= |q| ==> c[j] == MulLinear(q, a)[j]
    ensures Quotient(c, a) == q
  {
    hide Add, Mul, MulLinear;
    forall i | 0 <= i < |q|
      ensures Quotient(c, a)[i] == q[i]
    {
      QuotientAt(c, q, a, i);
    }
  }

  /** A polynomial vanishing at a is a multiple of (x + a). */
  lemma FactorAtRoot(c: Vec, a: gf)
    requires |c| > 0 && Eval(c, a) == 0
    ensures c == MulLinear(Quotient(c, a), a)
  {
    hide Add, Mul, MulLinear;
    var q := Quotient(c, a);
    var m := MulLinear(q, a);
    forall i | 0 <= i < |c|
      ensures m[i] == c[i]
    {
      MulLinearAt(q, a, i);
      var e := Eval(c[i + 1..], a);
      assert c[i..][1..] == c[i + 1..];
      assert Eval(c[i..], a) == Add(c[i], Mul(a, e));
      MulZero(a);
      AddCancel(c[i], Mul(a, e));
      if i == 0 { assert c[0..] == c; AddZero(Mul(a, e)); }
    }
  }

  /** A polynomial with as many distinct roots as coefficients is zero. */
  lemma {:induction false} TooManyRoots(c: Vec, ps: Vec)
    requires |c| <= |ps| && Distinct(ps)
    requires forall i :: 0 <= i < |ps| ==> Eval(c, ps[i]) == 0
    ensures c == Zeros(|c|)
    decreases |c|
  {
    hide Add, Mul, MulLinear;
    if |c| > 0 {
      var n := |ps| - 1;
      var a := ps[n];
      FactorAtRoot(c, a);
      var q := Quotient(c, a);
      forall i | 0 <= i < n
        ensures Eval(q, ps[i]) == 0
      {
        EvalMulLinear(q, a, ps[i]);
        MulNonzero(Add(ps[i], a), Eval(q, ps[i]));
        AddCancel(ps[i], a);
      }
      TooManyRoots(q, ps[..n]);
      forall i | 0 <= i < |c|
        ensures c[i] == 0
      {
        MulLinearAt(q, a, i);
        MulZero(a);
        AddZero(0);
      }
    }
  }

  // ----- powers -----

  ghost function Pow(a: gf, n: nat): gf {
    if n == 0 then 1 else Mul(a, Pow(a, n - 1))
  }

  ghost function PowerRow(y: gf, k: nat): (v: Vec)
    ensures |v| == k && forall j :: 0 <= j < k ==> v[j] == Pow(y, j)
  {
    seq(k, j requires 0 <= j => Pow(y, j))
  }

  lemma {:induction false} DotPowerRowN(y: gf, c: Vec, n: nat)
    requires n <= |c|
    ensures Add(DotN(PowerRow(y, |c|), c, n), Mul(Pow(y, n), Eval(c[n..], y))) == Eval(c, y)
  {
    hide Add, Mul;
    if n == 0 {
      assert c[0..] == c;
      MulOne(Eval(c, y));
      AddZero(Eval(c, y));
    } else {
      var m := n - 1;
      DotPowerRowN(y, c, m);
      assert c[m..][1..] == c[n..];
      var p, e := Pow(y, m), Eval(c[n..], y);
      MulDistr(p, c[m], Mul(y, e));
      MulAssoc(p, y, e); MulComm(p, y);
      AddAssoc(DotN(PowerRow(y, |c|), c, m), Mul(p, c[m]), Mul(Pow(y, n), e));
    }
  }

  /** A row of powers times a coefficient vector evaluates the polynomial. */
  lemma DotPowerRow(y: gf, c: Vec)
    ensures Dot(PowerRow(y, |c|), c) == Eval(c, y)
  {
    hide Add, Mul;
    DotPowerRowN(y, c, |c|);
    MulZero(Pow(y, |c|));
    AddZero(DotN(PowerRow(y, |c|), c, |c|));
  }
}
