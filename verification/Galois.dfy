/**
  The field GF(2^8) that the erasure code computes in.  An element is a byte,
  addition is exclusive or, and multiplication is multiplication of polynomials
  over GF(2) modulo 1 + x^2 + x^3 + x^4 + x^8.  `Mul` is defined through
  discrete logarithms, as the source's tables are; `MulIsPolynomialProduct`
  connects it with the independent shift-and-add definition `PolyMul`.
 */
module Galois {

  type gf = bv8

  // GF_SIZE in the source: the order of the multiplicative group.
  const GF_SIZE: nat := 255

  /** Addition, which is also subtraction: exclusive or. */
  function Add(a: gf, b: gf): gf { a ^ b }

  lemma AddZero(a: gf)
    ensures Add(a, 0) == a && Add(0, a) == a
  {}

  lemma AddSelf(a: gf)
    ensures Add(a, a) == 0
  {}

  lemma AddComm(a: gf, b: gf)
    ensures Add(a, b) == Add(b, a)
  {}

  lemma AddAssoc(a: gf, b: gf, c: gf)
    ensures Add(Add(a, b), c) == Add(a, Add(b, c))
  {}

  /** Sums of pairs can be regrouped. */
  lemma AddExchange(a: gf, b: gf, c: gf, d: gf)
    ensures Add(Add(a, b), Add(c, d)) == Add(Add(a, c), Add(b, d))
  {
    hide Add;
    AddAssoc(a, b, Add(c, d));
    AddAssoc(b, c, d);
    AddComm(b, c);
    AddAssoc(c, b, d);
    AddAssoc(a, c, Add(b, d));
  }

  lemma AddCancel(a: gf, b: gf)
    ensures Add(Add(a, b), b) == a
    ensures Add(a, b) == 0 <==> a == b
  {}

  // ----- powers of the generator -----

  /** Multiplication by x: shift left, reducing when x^8 appears. */
  function XTime(v: gf): gf {
    if v >= 0x80 then 0x1D ^ ((v ^ 0x80) << 1) else v << 1
  }

  /** The n-th power of the generator x. */
  function Exp(n: nat): gf {
    if n == 0 then 1 else XTime(Exp(n - 1))
  }

  lemma XTimeLinear(a: gf, b: gf)
    ensures XTime(Add(a, b)) == Add(XTime(a), XTime(b))
  {
    if a >= 0x80 {
      if b >= 0x80 { assert a ^ b < 0x80; } else { assert a ^ b >= 0x80; }
    } else {
      if b >= 0x80 { assert a ^ b >= 0x80; } else { assert a ^ b < 0x80; }
    }
  }

  lemma XTimeInjective(a: gf, b: gf)
    ensures XTime(a) == XTime(b) ==> a == b
    ensures XTime(a) == 0 ==> a == 0
  {}

  lemma {:induction false} ExpNonzero(n: nat)
    ensures Exp(n) != 0
  {
    if n > 0 {
      ExpNonzero(n - 1);
      XTimeInjective(Exp(n - 1), 0);
    }
  }

  function X4(v: gf): gf { XTime(XTime(XTime(XTime(v)))) }

  function X16(v: gf): gf { X4(X4(X4(X4(v)))) }

  /** None of v, x*v, x^2*v, x^3*v is one. */
  predicate Avoids4(v: gf) {
    v != 1 && XTime(v) != 1 && XTime(XTime(v)) != 1 && XTime(XTime(XTime(v))) != 1
  }

  predicate Avoids16(v: gf) {
    Avoids4(v) && Avoids4(X4(v)) && Avoids4(X4(X4(v))) && Avoids4(X4(X4(X4(v))))
  }

  lemma Exp4(n: nat)
    ensures Exp(n + 4) == X4(Exp(n))
    ensures Avoids4(Exp(n)) ==> forall m :: n <= m < n + 4 ==> Exp(m) != 1
  {
    assert Exp(n + 1) == XTime(Exp(n));
    assert Exp(n + 2) == XTime(Exp(n + 1));
    assert Exp(n + 3) == XTime(Exp(n + 2));
    assert Exp(n + 4) == XTime(Exp(n + 3));
    if Avoids4(Exp(n)) {
      forall m | n <= m < n + 4
        ensures Exp(m) != 1
      {
        assert m == n || m == n + 1 || m == n + 2 || m == n + 3;
      }
    }
  }

  lemma Exp16(n: nat)
    ensures Exp(n + 16) == X16(Exp(n))
    ensures Avoids16(Exp(n)) ==> forall m :: n <= m < n + 16 ==> Exp(m) != 1
  {
    Exp4(n); Exp4(n + 4); Exp4(n + 8); Exp4(n + 12);
  }

  // The orbit of x under sixteen-fold steps, computed.
  lemma Orbit1()
    ensures X16(0x02) == 0x98 && Avoids16(0x02)
    ensures X16(0x98) == 0x27 && Avoids16(0x98)
    ensures X16(0x27) == 0x8c && Avoids16(0x27)
    ensures X16(0x8c) == 0xbe && Avoids16(0x8c)
  {}

  lemma Orbit2()
    ensures X16(0xbe) == 0xe7 && Avoids16(0xbe)
    ensures X16(0xe7) == 0xaf && Avoids16(0xe7)
    ensures X16(0xaf) == 0x1f && Avoids16(0xaf)
    ensures X16(0x1f) == 0x17 && Avoids16(0x1f)
  {}

  lemma Orbit3()
    ensures X16(0x17) == 0x4d && Avoids16(0x17)
    ensures X16(0x4d) == 0xd1 && Avoids16(0x4d)
    ensures X16(0xd1) == 0xdb && Avoids16(0xd1)
    ensures X16(0xdb) == 0x19 && Avoids16(0xdb)
  {}

  lemma Orbit4()
    ensures X16(0x19) == 0xa2 && Avoids16(0x19)
    ensures X16(0xa2) == 0x24 && Avoids16(0xa2)
    ensures X16(0x24) == 0x58 && Avoids16(0x24)
    ensures Avoids4(0x58) && Avoids4(X4(0x58)) && Avoids4(X4(X4(0x58)))
    ensures X4(X4(X4(0x58))) == 0x47
    ensures XTime(0x47) == 0x8e && XTime(0x8e) == 1
  {}

  lemma ExpStarts()
    ensures Exp(0) == 1 && Exp(1) == 2
  {
    assert Exp(1) == XTime(Exp(0));
  }

  lemma ExpFirstHalf()
    ensures Exp(129) == 0x17
    ensures forall m :: 1 <= m < 129 ==> Exp(m) != 1
  {
    ExpStarts();
    Orbit1();
    Exp16(1); Exp16(17); Exp16(33); Exp16(49);
    Orbit2();
    Exp16(65); Exp16(81); Exp16(97); Exp16(113);
  }

  /** The generator is primitive: its 255th power is the first to return to one. */
  lemma ExpPrimitive()
    ensures Exp(GF_SIZE) == 1
    ensures forall m :: 1 <= m < GF_SIZE ==> Exp(m) != 1
  {
    ExpFirstHalf();
    Orbit3();
    Exp16(129); Exp16(145); Exp16(161); Exp16(177);
    Orbit4();
    Exp16(193); Exp16(209); Exp16(225);
    Exp4(241); Exp4(245); Exp4(249);
    assert Exp(254) == XTime(Exp(253));
    assert Exp(255) == XTime(Exp(254));
  }

  // ----- logarithms -----

  lemma {:induction false} ExpCancel(i: nat, j: nat)
    requires i <= j && Exp(i) == Exp(j)
    ensures Exp(j - i) == 1
  {
    if i > 0 {
      XTimeInjective(Exp(i - 1), Exp(j - 1));
      ExpCancel(i - 1, j - 1);
    }
  }

  lemma ExpInjective(i: nat, j: nat)
    requires i < GF_SIZE && j < GF_SIZE && Exp(i) == Exp(j)
    ensures i == j
  {
    ExpPrimitive();
    if i < j {
      ExpCancel(i, j);
    } else if j < i {
      ExpCancel(j, i);
    }
  }

  lemma {:induction false} ExpPeriodic(n: nat)
    ensures Exp(n + GF_SIZE) == Exp(n)
  {
    if n == 0 {
      ExpPrimitive();
    } else {
      ExpPeriodic(n - 1);
      assert Exp(n + GF_SIZE) == XTime(Exp(n - 1 + GF_SIZE));
    }
  }

  lemma {:induction false} ExpMod(n: nat)
    ensures Exp(n % GF_SIZE) == Exp(n)
  {
    if n >= GF_SIZE {
      ExpMod(n - GF_SIZE);
      ExpPeriodic(n - GF_SIZE);
      assert (n - GF_SIZE) % GF_SIZE == n % GF_SIZE;
    }
  }

  /** A set of n distinct naturals below n is the whole range. */
  lemma {:induction false} Pigeonhole(s: set<nat>, n: nat)
    requires forall v :: v in s ==> v < n
    ensures |s| <= n
    ensures |s| == n ==> forall v: nat :: v < n ==> v in s
  {
    if n > 0 {
      var t := s - {n - 1};
      Pigeonhole(t, n - 1);
      if n - 1 in s {
        assert s == t + {n - 1};
      } else {
        assert s == t;
      }
    }
  }

  /** The first n powers of the generator, as numbers. */
  ghost function Powers(n: nat): (s: set<nat>)
    requires n <= GF_SIZE
  {
    if n == 0 then {} else Powers(n - 1) + {Ix(Exp(n - 1))}
  }

  /** An element as a table index. */
  function Ix(a: gf): (i: nat)
    ensures i < 256 && (i == 0 <==> a == 0)
  {
    a as nat
  }

  lemma IxInjective(a: gf, b: gf)
    ensures Ix(a) == Ix(b) ==> a == b
  {}

  lemma IxSucc(a: gf)
    requires a != 0xff
    ensures Ix(a + 1) == Ix(a) + 1
    ensures Ix(0xff) == 255
  {}

  /** The element with a given table index. */
  ghost function Elem(i: nat): (a: gf)
    requires i < 256
    ensures Ix(a) == i
  {
    if i == 0 then 0
    else
      IxSucc(Elem(i - 1));
      Elem(i - 1) + 1
  }

  lemma ElemIx(a: gf)
    ensures Elem(Ix(a)) == a
  {
    hide Ix, Elem;
    IxInjective(Elem(Ix(a)), a);
  }

  lemma {:induction false} PowersMember(n: nat, v: nat) returns (i: nat)
    requires n <= GF_SIZE && v in Powers(n)
    ensures i < n && v == Ix(Exp(i))
  {
    if v == Ix(Exp(n - 1)) {
      i := n - 1;
    } else {
      i := PowersMember(n - 1, v);
    }
  }

  lemma {:induction false} PowersSize(n: nat)
    requires n <= GF_SIZE
    ensures |Powers(n)| == n && 0 !in Powers(n)
    ensures forall v :: v in Powers(n) ==> v < 256
  {
    hide Exp, Ix;
    if n > 0 {
      PowersSize(n - 1);
      ExpNonzero(n - 1);
      if Ix(Exp(n - 1)) in Powers(n - 1) {
        var i := PowersMember(n - 1, Ix(Exp(n - 1)));
        IxInjective(Exp(i), Exp(n - 1));
        ExpInjective(i, n - 1);
      }
    }
  }

  lemma ExpSurjective(a: gf)
    requires a != 0
    ensures exists i: nat :: i < GF_SIZE && Exp(i) == a
  {
    hide Exp, Powers, Ix;
    PowersSize(GF_SIZE);
    var s := Powers(GF_SIZE) + {0};
    assert |s| == 256;
    Pigeonhole(s, 256);
    assert Ix(a) in s;
    var i := PowersMember(GF_SIZE, Ix(a));
    IxInjective(Exp(i), a);
  }

  /** The discrete logarithm, below 255. */
  ghost function Log(a: gf): (i: nat)
    requires a != 0
    ensures i < GF_SIZE && Exp(i) == a
  {
    ExpSurjective(a);
    var i: nat :| i < GF_SIZE && Exp(i) == a;
    i
  }

  // ----- multiplication -----

  ghost function Mul(a: gf, b: gf): gf {
    if a == 0 || b == 0 then 0 else Exp(Log(a) + Log(b))
  }

  ghost function Inv(a: gf): gf {
    if a == 0 then 0 else Exp(GF_SIZE - Log(a))
  }

  lemma LogExp(i: nat)
    ensures Exp(i) != 0 && Log(Exp(i)) == i % GF_SIZE
  {
    hide Exp;
    ExpNonzero(i);
    ExpMod(i);
    ExpInjective(Log(Exp(i)), i % GF_SIZE);
  }

  lemma ModSum(i: nat, j: nat)
    ensures (i % GF_SIZE + j % GF_SIZE) % GF_SIZE == (i + j) % GF_SIZE
  {
    var q := i / GF_SIZE + j / GF_SIZE;
    assert i + j == i % GF_SIZE + j % GF_SIZE + GF_SIZE * q;
  }

  lemma MulExp(i: nat, j: nat)
    ensures Mul(Exp(i), Exp(j)) == Exp(i + j)
  {
    hide Exp;
    LogExp(i);
    LogExp(j);
    ExpMod(i % GF_SIZE + j % GF_SIZE);
    ExpMod(i + j);
    ModSum(i, j);
  }

  lemma MulZero(a: gf)
    ensures Mul(a, 0) == 0 && Mul(0, a) == 0
  {}

  lemma MulOne(a: gf)
    ensures Mul(1, a) == a && Mul(a, 1) == a
  {
    ExpStarts();
    if a != 0 {
      MulExp(0, Log(a));
      MulExp(Log(a), 0);
    }
  }

  lemma MulNonzero(a: gf, b: gf)
    ensures Mul(a, b) == 0 <==> a == 0 || b == 0
  {
    if a != 0 && b != 0 {
      ExpNonzero(Log(a) + Log(b));
    }
  }

  lemma MulComm(a: gf, b: gf)
    ensures Mul(a, b) == Mul(b, a)
  {}

  lemma MulAssoc(a: gf, b: gf, c: gf)
    ensures Mul(Mul(a, b), c) == Mul(a, Mul(b, c))
  {
    if a != 0 && b != 0 && c != 0 {
      MulExp(Log(a) + Log(b), Log(c));
      MulExp(Log(a), Log(b) + Log(c));
    }
  }

  lemma MulInv(a: gf)
    requires a != 0
    ensures Mul(a, Inv(a)) == 1 && Mul(Inv(a), a) == 1 && Inv(a) != 0
  {
    ExpPrimitive();
    MulExp(Log(a), GF_SIZE - Log(a));
    MulExp(GF_SIZE - Log(a), Log(a));
    ExpNonzero(GF_SIZE - Log(a));
  }

  /** Multiplication by the i-th power of x is i-fold shifting, hence linear. */
  lemma {:induction false} MulExpLinear(i: nat, a: gf, b: gf)
    ensures Mul(Exp(i), Add(a, b)) == Add(Mul(Exp(i), a), Mul(Exp(i), b))
  {
    hide Add, Mul, XTime;
    if i == 0 {
      ExpStarts();
      MulOne(a); MulOne(b); MulOne(Add(a, b));
    } else {
      MulExpLinear(i - 1, a, b);
      MulXTime(i - 1, a); MulXTime(i - 1, b); MulXTime(i - 1, Add(a, b));
      XTimeLinear(Mul(Exp(i - 1), a), Mul(Exp(i - 1), b));
    }
  }

  lemma MulXTime(i: nat, a: gf)
    ensures Mul(Exp(i + 1), a) == XTime(Mul(Exp(i), a))
  {
    hide XTime;
    ExpNonzero(i);
    ExpNonzero(i + 1);
    if a != 0 {
      MulExp(i, Log(a));
      MulExp(i + 1, Log(a));
      assert Exp(i + 1 + Log(a)) == XTime(Exp(i + Log(a)));
    } else {
      XTimeZero();
    }
  }

  lemma XTimeZero()
    ensures XTime(0) == 0
  {}

  lemma MulDistr(a: gf, b: gf, c: gf)
    ensures Mul(a, Add(b, c)) == Add(Mul(a, b), Mul(a, c))
    ensures Mul(Add(b, c), a) == Add(Mul(b, a), Mul(c, a))
  {
    hide Mul, Add;
    if a != 0 {
      MulExpLinear(Log(a), b, c);
    } else {
      MulZero(b); MulZero(c); MulZero(Add(b, c)); AddZero(0);
    }
    MulComm(Add(b, c), a); MulComm(b, a); MulComm(c, a);
  }

  // ----- the reference multiplication -----

  function Add8(a: gf, b: gf, c: gf, d: gf, e: gf, f: gf, g: gf, h: gf): gf {
    Add(Add(Add(Add(Add(Add(Add(a, b), c), d), e), f), g), h)
  }

  function Term(bit: bool, v: gf): gf { if bit then v else 0 }

  /** Shift-and-add multiplication modulo the field polynomial. */
  function PolyMul(a: gf, b: gf): gf {
    var b1 := XTime(b);
    var b2 := XTime(b1);
    var b3 := XTime(b2);
    var b4 := XTime(b3);
    var b5 := XTime(b4);
    var b6 := XTime(b5);
    var b7 := XTime(b6);
    Add8(Term(a & 1 != 0, b), Term(a & 2 != 0, b1), Term(a & 4 != 0, b2), Term(a & 8 != 0, b3),
         Term(a & 16 != 0, b4), Term(a & 32 != 0, b5), Term(a & 64 != 0, b6), Term(a & 128 != 0, b7))
  }

  lemma Bits(a: gf)
    ensures a == Add8(a & 1, a & 2, a & 4, a & 8, a & 16, a & 32, a & 64, a & 128)
  {}

  lemma BitCases(a: gf)
    ensures (a & 1 == 0 || a & 1 == 1) && (a & 2 == 0 || a & 2 == 2)
    ensures (a & 4 == 0 || a & 4 == 4) && (a & 8 == 0 || a & 8 == 8)
    ensures (a & 16 == 0 || a & 16 == 16) && (a & 32 == 0 || a & 32 == 32)
    ensures (a & 64 == 0 || a & 64 == 64) && (a & 128 == 0 || a & 128 == 128)
  {}

  lemma MulBit(bit: gf, i: nat, a: gf, b: gf)
    requires Exp(i) == bit && (a & bit == 0 || a & bit == bit)
    ensures Mul(a & bit, b) == Term(a & bit != 0, Mul(Exp(i), b))
  {
    hide Mul;
    ExpNonzero(i);
    MulZero(b);
  }

  lemma ExpBits()
    ensures Exp(0) == 1 && Exp(1) == 2 && Exp(2) == 4 && Exp(3) == 8
    ensures Exp(4) == 16 && Exp(5) == 32 && Exp(6) == 64 && Exp(7) == 128
  {
    assert Exp(1) == XTime(Exp(0));
    assert Exp(2) == XTime(Exp(1));
    assert Exp(3) == XTime(Exp(2));
    assert Exp(4) == XTime(Exp(3));
    assert Exp(5) == XTime(Exp(4));
    assert Exp(6) == XTime(Exp(5));
    assert Exp(7) == XTime(Exp(6));
  }

  lemma MulAdd8(a: gf, b: gf, c: gf, d: gf, e: gf, f: gf, g: gf, h: gf, v: gf)
    ensures Mul(Add8(a, b, c, d, e, f, g, h), v)
         == Add8(Mul(a, v), Mul(b, v), Mul(c, v), Mul(d, v), Mul(e, v), Mul(f, v), Mul(g, v), Mul(h, v))
  {
    hide Mul, Add;
    var ab := Add(a, b);
    var ac := Add(ab, c);
    var ad := Add(ac, d);
    var ae := Add(ad, e);
    var af := Add(ae, f);
    var ag := Add(af, g);
    MulDistr(v, a, b); MulDistr(v, ab, c); MulDistr(v, ac, d); MulDistr(v, ad, e);
    MulDistr(v, ae, f); MulDistr(v, af, g); MulDistr(v, ag, h);
  }

  /** The product by logarithms is the product of polynomials modulo the field polynomial. */
  lemma MulIsPolynomialProduct(a: gf, b: gf)
    ensures Mul(a, b) == PolyMul(a, b)
  {
    hide Mul, Add, Add8, XTime, Exp, Term;
    Bits(a);
    BitCases(a);
    MulAdd8(a & 1, a & 2, a & 4, a & 8, a & 16, a & 32, a & 64, a & 128, b);
    ExpBits();
    MulBit(1, 0, a, b); MulBit(2, 1, a, b); MulBit(4, 2, a, b); MulBit(8, 3, a, b);
    MulBit(16, 4, a, b); MulBit(32, 5, a, b); MulBit(64, 6, a, b); MulBit(128, 7, a, b);
    MulOne(b);
    MulXTime(0, b); MulXTime(1, b); MulXTime(2, b); MulXTime(3, b);
    MulXTime(4, b); MulXTime(5, b); MulXTime(6, b);
  }
}
