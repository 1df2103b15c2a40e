/**
  The lookup tables of fec.c: `gf_exp`, `gf_log`, `inverse` and `gf_mul_table`.
  The loops fill arrays in place, as the source does; once `InitFec` has run the
  tables never change, so it hands them on as the immutable value `Tables`.
 */
module GaloisTables {
  import opened Galois

  const GF_BITS: nat := 8

  datatype Tables = Tables(exp: seq<gf>, log: seq<nat>, inverse: seq<gf>, mul: seq<seq<gf>>)

  /** The product of the elements with table indices i and j. */
  ghost function Product(i: nat, j: nat): gf
    requires i < 256 && j < 256
  {
    Mul(Elem(i), Elem(j))
  }

  /** Every table holds what the field says it should. */
  ghost predicate Valid(t: Tables) {
    && |t.exp| == 2 * GF_SIZE
    && |t.log| == |t.inverse| == |t.mul| == 256
    && (forall i :: 0 <= i < 2 * GF_SIZE ==> t.exp[i] == Exp(i))
    && (forall i :: 0 <= i < 256 ==> |t.mul[i]| == 256)
    && (forall i :: 1 <= i < 256 ==> t.log[i] == Log(Elem(i)))
    && (forall i :: 0 <= i < 256 ==> t.inverse[i] == Inv(Elem(i)))
    && (forall i, j :: 0 <= i < 256 && 0 <= j < 256 ==> t.mul[i][j] == Product(i, j))
  }

  /** x % GF_SIZE without a division. */
  method ModNN(n: nat) returns (r: nat)
    ensures r == n % GF_SIZE
  {
    var x := n;
    while x >= GF_SIZE
      invariant 0 <= x && x % GF_SIZE == n % GF_SIZE
    {
      ModStep(x);
      x := x - GF_SIZE;
      x := x / 256 + x % 256;
    }
    r := x;
  }

  lemma ModStep(x: nat)
    requires x >= GF_SIZE
    ensures ((x - GF_SIZE) / 256 + (x - GF_SIZE) % 256) % GF_SIZE == x % GF_SIZE
  {
    var y := x - GF_SIZE;
    AddMultiple(y / 256 + y % 256, y / 256 + 1);
  }

  lemma {:induction false} AddMultiple(a: nat, b: nat)
    ensures (a + GF_SIZE * b) % GF_SIZE == a % GF_SIZE
  {
    if b > 0 { AddMultiple(a, b - 1); }
  }

  // The coefficients of the field polynomial, constant term first.
  const POLY := "101110001"

  /** The coefficients below index i, as a byte. */
  ghost function PolyPrefix(i: nat): gf
    requires i <= 8
  {
    if i == 0 then 0 else if POLY[i - 1] == '1' then Add(PolyPrefix(i - 1), Exp(i - 1)) else PolyPrefix(i - 1)
  }

  lemma PolyPrefixStep(i: nat)
    requires i < 8
    ensures PolyPrefix(i + 1) == if POLY[i] == '1' then Add(PolyPrefix(i), Exp(i)) else PolyPrefix(i)
    ensures PolyPrefix(0) == 0
  {}

  lemma PolyPrefixAll()
    ensures PolyPrefix(8) == 0x1D == Exp(8)
  {
    ExpBits();
    assert Exp(8) == XTime(Exp(7));
    assert PolyPrefix(1) == 1;
    assert PolyPrefix(2) == 1;
    assert PolyPrefix(3) == 5;
    assert PolyPrefix(4) == 13;
    assert PolyPrefix(5) == 29;
    assert PolyPrefix(6) == 29;
    assert PolyPrefix(7) == 29;
  }

  lemma ExpShift(i: nat)
    requires i < 7
    ensures Exp(i + 1) == Exp(i) << 1
  {
    ExpBits();
    assert i == 0 || i == 1 || i == 2 || i == 3 || i == 4 || i == 5 || i == 6;
  }

  lemma ExpIxInjective(i: nat, j: nat)
    requires i < GF_SIZE && j < GF_SIZE && Ix(Exp(i)) == Ix(Exp(j))
    ensures i == j
  {
    hide Exp, Ix;
    IxInjective(Exp(i), Exp(j));
    ExpInjective(i, j);
  }

  /** Fills the exponent, logarithm and inverse tables. */
  method GenerateGf(gf_exp: array<gf>, gf_log: array<nat>, inverse: array<gf>)
    requires gf_exp != inverse && gf_log as object != gf_exp as object && gf_log as object != inverse as object
    requires gf_exp.Length == 2 * GF_SIZE && gf_log.Length == 256 && inverse.Length == 256
    modifies gf_exp, gf_log, inverse
    ensures forall i :: 0 <= i < 2 * GF_SIZE ==> gf_exp[i] == Exp(i)
    ensures gf_log[0] == GF_SIZE && forall i :: 1 <= i < 256 ==> gf_log[i] == Log(Elem(i))
    ensures forall i :: 0 <= i < 256 ==> inverse[i] == Inv(Elem(i))
  {
    hide Exp, Ix, Elem, Log, Inv;
    FirstPowers(gf_exp, gf_log);
    RemainingPowers(gf_exp, gf_log);
    LogTable(gf_log);
    gf_log[0] := GF_SIZE;
    ExtendPowers(gf_exp);
    FillInverse(gf_exp, gf_log, inverse);
  }

  /** The powers below GF_BITS are shifted bits; the next one is the polynomial itself. */
  method FirstPowers(gf_exp: array<gf>, gf_log: array<nat>)
    requires gf_log as object != gf_exp as object
    requires gf_exp.Length == 2 * GF_SIZE && gf_log.Length == 256
    modifies gf_exp, gf_log
    ensures forall i :: 0 <= i <= GF_BITS ==> gf_exp[i] == Exp(i) && gf_log[Ix(Exp(i))] == i
  {
    hide Exp, Ix, Add, PolyPrefix;
    var mask: gf := 1;
    gf_exp[GF_BITS] := 0;
    PolyPrefixStep(0);
    ExpBits();
    var i := 0;
    while i < GF_BITS
      invariant 0 <= i <= GF_BITS
      invariant i < GF_BITS ==> mask == Exp(i)
      invariant gf_exp[GF_BITS] == PolyPrefix(i)
      invariant forall j :: 0 <= j < i ==> gf_exp[j] == Exp(j) && gf_log[Ix(Exp(j))] == j
    {
      gf_exp[i] := mask;
      PreserveLogs(i);
      gf_log[Ix(gf_exp[i])] := i;
      PolyPrefixStep(i);
      if POLY[i] == '1' {
        gf_exp[GF_BITS] := Add(gf_exp[GF_BITS], mask);
      }
      if i + 1 < GF_BITS { ExpShift(i); }
      mask, i := mask << 1, i + 1;
    }
    PolyPrefixAll();
    PreserveLogs(GF_BITS);
    gf_log[Ix(gf_exp[GF_BITS])] := GF_BITS;
  }

  /** Writing the logarithm of a new power leaves the earlier ones alone. */
  lemma PreserveLogs(i: nat)
    requires i < GF_SIZE
    ensures forall j: nat :: j < i ==> Ix(Exp(j)) != Ix(Exp(i))
  {
    hide Exp, Ix;
    forall j: nat | j < i
      ensures Ix(Exp(j)) != Ix(Exp(i))
    {
      if Ix(Exp(j)) == Ix(Exp(i)) { ExpIxInjective(j, i); }
    }
  }

  /** One more shift; a bit leaving at the top is replaced by the polynomial's low terms. */
  function Next(prev: gf, low: gf, mask: gf): gf {
    if prev >= mask then Add(low, Add(prev, mask) << 1) else prev << 1
  }

  lemma NextPower(i: nat)
    ensures Exp(i + 1) == Next(Exp(i), 0x1D, 0x80)
  {}

  method RemainingPowers(gf_exp: array<gf>, gf_log: array<nat>)
    requires gf_log as object != gf_exp as object
    requires gf_exp.Length == 2 * GF_SIZE && gf_log.Length == 256
    requires forall i :: 0 <= i <= GF_BITS ==> gf_exp[i] == Exp(i) && gf_log[Ix(Exp(i))] == i
    modifies gf_exp, gf_log
    ensures forall i :: 0 <= i < GF_SIZE ==> gf_exp[i] == Exp(i) && gf_log[Ix(Exp(i))] == i
  {
    hide XTime, Ix, Add, Exp, Next;
    var mask: gf := 0x80;
    PolyPrefixAll();
    var i := GF_BITS + 1;
    while i < GF_SIZE
      invariant GF_BITS < i <= GF_SIZE
      invariant gf_exp[GF_BITS] == 0x1D
      invariant forall j :: 0 <= j < i ==> gf_exp[j] == Exp(j) && gf_log[Ix(Exp(j))] == j
    {
      NextPower(i - 1);
      gf_exp[i] := Next(gf_exp[i - 1], gf_exp[GF_BITS], mask);
      PreserveLogs(i);
      gf_log[Ix(gf_exp[i])] := i;
      i := i + 1;
    }
  }

  lemma LogTable(gf_log: array<nat>)
    requires gf_log.Length == 256
    requires forall i :: 0 <= i < GF_SIZE ==> gf_log[Ix(Exp(i))] == i
    ensures forall i :: 1 <= i < 256 ==> gf_log[i] == Log(Elem(i))
  {
    hide Exp, Ix, Elem;
    forall i | 1 <= i < 256
      ensures gf_log[i] == Log(Elem(i))
    {
      assert Ix(Exp(Log(Elem(i)))) == i;
    }
  }

  method ExtendPowers(gf_exp: array<gf>)
    requires gf_exp.Length == 2 * GF_SIZE
    requires forall i :: 0 <= i < GF_SIZE ==> gf_exp[i] == Exp(i)
    modifies gf_exp
    ensures forall i :: 0 <= i < 2 * GF_SIZE ==> gf_exp[i] == Exp(i)
  {
    hide Exp;
    var i := 0;
    while i < GF_SIZE
      invariant 0 <= i <= GF_SIZE
      invariant forall j :: 0 <= j < i + GF_SIZE ==> gf_exp[j] == Exp(j)
    {
      ExpPeriodic(i);
      gf_exp[i + GF_SIZE] := gf_exp[i];
      i := i + 1;
    }
  }

  method FillInverse(gf_exp: array<gf>, gf_log: array<nat>, inverse: array<gf>)
    requires gf_exp != inverse && gf_log as object != gf_exp as object && gf_log as object != inverse as object
    requires gf_exp.Length == 2 * GF_SIZE && gf_log.Length == 256 && inverse.Length == 256
    requires forall i :: 0 <= i < 2 * GF_SIZE ==> gf_exp[i] == Exp(i)
    requires gf_log[0] == GF_SIZE && forall i :: 1 <= i < 256 ==> gf_log[i] == Log(Elem(i))
    modifies inverse
    ensures forall i :: 0 <= i < 256 ==> inverse[i] == Inv(Elem(i))
  {
    hide Exp, Ix, Elem;
    inverse[0] := 0;
    inverse[1] := 1;
    var i := 2;
    InvSmall();
    while i <= GF_SIZE
      invariant 2 <= i <= GF_SIZE + 1
      invariant forall j :: 0 <= j < i ==> inverse[j] == Inv(Elem(j))
    {
      assert Ix(Elem(i)) == i;
      assert gf_log[i] == Log(Elem(i));
      inverse[i] := gf_exp[GF_SIZE - gf_log[i]];
      i := i + 1;
    }
  }

  lemma InvSmall()
    ensures Inv(Elem(0)) == 0 && Inv(Elem(1)) == 1
  {
    IxInjective(Elem(1), 1);
    ExpPrimitive();
    LogExp(0);
  }

  /** The product of two elements, by way of their logarithms. */
  lemma LogProduct(i: nat, j: nat)
    requires 1 <= i < 256 && 1 <= j < 256
    ensures Product(i, j) == Exp((Log(Elem(i)) + Log(Elem(j))) % GF_SIZE)
  {
    hide Exp, Elem, Ix;
    assert Ix(Elem(i)) == i && Ix(Elem(j)) == j;
    ExpMod(Log(Elem(i)) + Log(Elem(j)));
  }

  lemma ProductZero(i: nat)
    requires i < 256
    ensures Product(0, i) == 0 == Product(i, 0)
  {
    hide Elem, Ix;
    assert Ix(Elem(0)) == 0;
  }

  method InitMulTable(gf_exp: seq<gf>, gf_log: seq<nat>, mul: array2<gf>)
    requires |gf_exp| == 2 * GF_SIZE && |gf_log| == 256 && mul.Length0 == mul.Length1 == 256
    requires forall i :: 0 <= i < 2 * GF_SIZE ==> gf_exp[i] == Exp(i)
    requires gf_log[0] == GF_SIZE && forall i :: 1 <= i < 256 ==> gf_log[i] == Log(Elem(i))
    modifies mul
    ensures forall i, j :: 0 <= i < 256 && 0 <= j < 256 ==> mul[i, j] == Product(i, j)
  {
    hide Exp, Product, Elem, Log;
    var i := 0;
    while i < GF_SIZE + 1
      invariant 0 <= i <= 256
      invariant forall x, y :: 1 <= x < i && 1 <= y < 256 ==> mul[x, y] == Product(x, y)
    {
      var j := 0;
      while j < GF_SIZE + 1
        invariant 0 <= j <= 256
        invariant forall x, y :: 1 <= x < i && 1 <= y < 256 ==> mul[x, y] == Product(x, y)
        invariant forall y :: 1 <= i && 1 <= y < j ==> mul[i, y] == Product(i, y)
      {
        var m := ModNN(gf_log[i] + gf_log[j]);
        if 1 <= i && 1 <= j {
          LogProduct(i, j);
        }
        mul[i, j] := gf_exp[m];
        j := j + 1;
      }
      i := i + 1;
    }
    var j := 0;
    while j < GF_SIZE + 1
      invariant 0 <= j <= 256
      invariant forall x, y :: 1 <= x < 256 && 1 <= y < 256 ==> mul[x, y] == Product(x, y)
      invariant forall y :: 0 <= y < j ==> mul[0, y] == 0 == mul[y, 0]
    {
      mul[j, 0] := 0;
      mul[0, j] := mul[j, 0];
      j := j + 1;
    }
    forall x, y | 0 <= x < 256 && 0 <= y < 256
      ensures mul[x, y] == Product(x, y)
    {
      ProductZero(x);
      ProductZero(y);
    }
  }

  /** Builds all tables, once. */
  method InitFec() returns (t: Tables)
    ensures Valid(t)
  {
    hide Exp, Ix, Elem, Mul, Log, Inv;
    var gf_exp, gf_log, inverse := new gf[2 * GF_SIZE], new nat[256], new gf[256];
    GenerateGf(gf_exp, gf_log, inverse);
    var mul := new gf[256, 256];
    InitMulTable(gf_exp[..], gf_log[..], mul);
    var rows := [];
    var i := 0;
    while i < 256
      invariant 0 <= i <= 256 && |rows| == i
      invariant forall x :: 0 <= x < i ==> |rows[x]| == 256
      invariant forall x, y :: 0 <= x < i && 0 <= y < 256 ==> rows[x][y] == mul[x, y]
    {
      var row := seq(256, j requires 0 <= j < 256 reads mul => mul[i, j]);
      rows := rows + [row];
      i := i + 1;
    }
    t := Tables(gf_exp[..], gf_log[..], inverse[..], rows);
  }

  /** One lookup in the table of inverses. */
  method GfInverse(t: Tables, x: gf) returns (m: gf)
    requires Valid(t)
    ensures m == Inv(x)
  {
    hide Ix, Elem, Mul, Inv, Log, Exp;
    ElemIx(x);
    m := t.inverse[Ix(x)];
  }

  /** gf_mul: one table lookup. */
  method GfMul(t: Tables, x: gf, y: gf) returns (m: gf)
    requires Valid(t)
    ensures m == Mul(x, y)
  {
    hide Ix, Elem, Mul, Inv, Log, Exp;
    ElemIx(x);
    ElemIx(y);
    m := t.mul[Ix(x)][Ix(y)];
  }
}
