/**
  The CRC of crc32.c as bit-serial division by the reversed polynomial 0xedb88320.
 */
module Crc32Bits {

  const POLY: bv32 := 0xedb88320

  function Xor(a: bv32, b: bv32): bv32 { a ^ b }

  function Half(a: bv32): bv32 { a >> 1 }

  predicate Odd(a: bv32) { a & 1 == 1 }

  /** One bit shifted out. */
  function Bit(v: bv32): bv32 {
    if Odd(v) then Xor(Half(v), POLY) else Half(v)
  }

  function Bits8(v: bv32): bv32 {
    Bit(Bit(Bit(Bit(Bit(Bit(Bit(Bit(v))))))))
  }

  // ----- laws of exclusive or -----

  lemma XorComm(a: bv32, b: bv32)
    ensures Xor(a, b) == Xor(b, a)
  {}

  lemma XorAssoc(a: bv32, b: bv32, c: bv32)
    ensures Xor(Xor(a, b), c) == Xor(a, Xor(b, c))
  {}

  lemma XorCancel(a: bv32, b: bv32, p: bv32)
    ensures Xor(Xor(a, p), Xor(b, p)) == Xor(a, b)
  {
    XorSelf(p, b);
    hide Xor;
    XorAssoc(a, p, Xor(b, p));
    XorComm(b, p);
    XorAssoc(p, p, b);
  }

  lemma XorSelf(p: bv32, b: bv32)
    ensures Xor(Xor(p, p), b) == b
  {}

  lemma HalfXor(a: bv32, b: bv32)
    ensures Half(Xor(a, b)) == Xor(Half(a), Half(b))
  {}

  lemma OddXor(a: bv32, b: bv32)
    ensures Odd(Xor(a, b)) <==> Odd(a) != Odd(b)
  {}

  // ----- the division is linear and loses nothing -----

  lemma BitLinear(a: bv32, b: bv32)
    ensures Bit(Xor(a, b)) == Xor(Bit(a), Bit(b))
  {
    hide Xor, Half, Odd;
    HalfXor(a, b);
    OddXor(a, b);
    XorCancel(Half(a), Half(b), POLY);
    XorAssoc(Half(a), Half(b), POLY);
    XorComm(Half(b), POLY);
    XorAssoc(Half(a), POLY, Half(b));
  }

  lemma Bits8Linear(a: bv32, b: bv32)
    ensures Bits8(Xor(a, b)) == Xor(Bits8(a), Bits8(b))
  {
    hide Xor, Bit;
    var a1, b1 := Bit(a), Bit(b);
    var a2, b2 := Bit(a1), Bit(b1);
    var a3, b3 := Bit(a2), Bit(b2);
    var a4, b4 := Bit(a3), Bit(b3);
    BitLinear(a, b);
    BitLinear(a1, b1);
    BitLinear(a2, b2);
    BitLinear(a3, b3);
    var a5, b5 := Bit(a4), Bit(b4);
    var a6, b6 := Bit(a5), Bit(b5);
    var a7, b7 := Bit(a6), Bit(b6);
    BitLinear(a4, b4);
    BitLinear(a5, b5);
    BitLinear(a6, b6);
    BitLinear(a7, b7);
  }

  lemma BitInjective(a: bv32, b: bv32)
    requires Bit(a) == Bit(b)
    ensures a == b
  {}

  lemma Bits8Injective(a: bv32, b: bv32)
    requires Bits8(a) == Bits8(b)
    ensures a == b
  {
    hide Bit;
    var a1, b1 := Bit(a), Bit(b);
    var a2, b2 := Bit(a1), Bit(b1);
    var a3, b3 := Bit(a2), Bit(b2);
    var a4, b4 := Bit(a3), Bit(b3);
    var a5, b5 := Bit(a4), Bit(b4);
    var a6, b6 := Bit(a5), Bit(b5);
    var a7, b7 := Bit(a6), Bit(b6);
    BitInjective(a7, b7);
    BitInjective(a6, b6);
    BitInjective(a5, b5);
    BitInjective(a4, b4);
    BitInjective(a3, b3);
    BitInjective(a2, b2);
    BitInjective(a1, b1);
    BitInjective(a, b);
  }

  /** Bits that are only shifted along. */
  lemma Bits8Shift(w: bv32)
    requires w < 0x1000000
    ensures Bits8(w << 8) == w
  {}

  lemma LowByte(x: bv32)
    ensures x == Xor(x & 0xff, (x >> 8) << 8) && (x >> 8) < 0x1000000
  {}

  /** Eight bits are a table entry and a shift. */
  lemma Bits8Split(x: bv32)
    ensures Bits8(x) == Xor(Bits8(x & 0xff), x >> 8)
  {
    hide Xor, Bits8;
    LowByte(x);
    Bits8Linear(x & 0xff, (x >> 8) << 8);
    Bits8Shift(x >> 8);
  }
}
