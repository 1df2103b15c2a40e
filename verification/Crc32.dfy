/**
  The CRC of crc32.h: the loop over the table computes bit-serial division, goes on over
  concatenated buffers, and tells apart buffers that differ only within four consecutive bytes.
 */
module Crc32 {
  import opened Crc32Bits
  import opened Crc32Table

  /** The state after shifting in one byte. */
  function Feed(val: bv32, s: bv8): bv32 {
    Bits8(val ^ (s as bv32))
  }

  /** The state after a whole buffer. */
  function Crc(val: bv32, data: seq<bv8>): bv32 {
    if |data| == 0 then val else Feed(Crc(val, data[..|data| - 1]), data[|data| - 1])
  }

  lemma {:induction false} CrcConcat(val: bv32, a: seq<bv8>, b: seq<bv8>)
    ensures Crc(val, a + b) == Crc(Crc(val, a), b)
  {
    hide Feed;
    if |b| == 0 {
      assert a + b == a;
    } else {
      var n := |b| - 1;
      assert (a + b)[..|a| + n] == a + b[..n];
      CrcConcat(val, a, b[..n]);
    }
  }

  // ----- the usual check value -----

  lemma CheckSteps0()
    ensures Feed(0xffffffff, 0x31) == 0x7c231048
    ensures Feed(0x7c231048, 0x32) == 0xb0acbb32
    ensures Feed(0xb0acbb32, 0x33) == 0x77b79c2d
  {}

  lemma CheckSteps3()
    ensures Feed(0x77b79c2d, 0x34) == 0x641c1f5c
    ensures Feed(0x641c1f5c, 0x35) == 0x340ac5e3
    ensures Feed(0x340ac5e3, 0x36) == 0xf68d2c9e
  {}

  lemma CheckSteps6()
    ensures Feed(0xf68d2c9e, 0x37) == 0xaffc9660
    ensures Feed(0xaffc9660, 0x38) == 0x651f2550
    ensures Feed(0x651f2550, 0x39) == 0x340bc6d9
  {}

  lemma CrcNext(val: bv32, data: seq<bv8>, b: bv8)
    ensures Crc(val, data + [b]) == Feed(Crc(val, data), b)
  {
    hide Feed;
    assert (data + [b])[..|data|] == data;
  }

  /** The digits from 1 to 9: 0xcbf43926, of which the final complement is not taken here. */
  lemma CheckValue()
    ensures Crc(0xffffffff, [0x31, 0x32, 0x33, 0x34, 0x35, 0x36, 0x37, 0x38, 0x39]) == 0x340bc6d9
  {
    hide Feed, Crc;
    var d: seq<bv8> := [0x31, 0x32, 0x33, 0x34, 0x35, 0x36, 0x37, 0x38, 0x39];
    CheckSteps0();
    CheckSteps3();
    CheckSteps6();
    CrcNothing();
    CrcNext(0xffffffff, d[..0], d[0]);
    assert d[..1] == d[..0] + [d[0]];
    CrcNext(0xffffffff, d[..1], d[1]);
    assert d[..2] == d[..1] + [d[1]];
    CrcNext(0xffffffff, d[..2], d[2]);
    assert d[..3] == d[..2] + [d[2]];
    CrcNext(0xffffffff, d[..3], d[3]);
    assert d[..4] == d[..3] + [d[3]];
    CrcNext(0xffffffff, d[..4], d[4]);
    assert d[..5] == d[..4] + [d[4]];
    CrcNext(0xffffffff, d[..5], d[5]);
    assert d[..6] == d[..5] + [d[5]];
    CrcNext(0xffffffff, d[..6], d[6]);
    assert d[..7] == d[..6] + [d[6]];
    CrcNext(0xffffffff, d[..7], d[7]);
    assert d[..8] == d[..7] + [d[7]];
    CrcNext(0xffffffff, d[..8], d[8]);
    assert d[..9] == d[..8] + [d[8]];
    assert d[..0] == [] && d[..9] == d;
  }

  lemma CrcNothing()
    ensures Crc(0xffffffff, []) == 0xffffffff
  {}

  // ----- the loop over the table -----

  lemma TableStep(val: bv32, s: bv8)
    ensures Xor(Table(((val ^ (s as bv32)) & 0xff) as bv8), val >> 8) == Feed(val, s)
  {
    var x := val ^ (s as bv32);
    var i := (x & 0xff) as bv8;
    LowIndex(val, s);
    hide Xor, Bits8, Table;
    Bits8Split(x);
    TableIsBitSerial(i);
  }

  lemma LowIndex(val: bv32, s: bv8)
    ensures var x := val ^ (s as bv32);
      x & 0xff < 0x100 && ((x & 0xff) as bv8) as bv32 == x & 0xff && x >> 8 == val >> 8
  {}

  /** crc32(): the table-driven loop computes the bit-serial CRC of the buffer. */
  method Compute(seed: bv32, ss: seq<bv8>) returns (val: bv32)
    ensures val == Crc(seed, ss)
  {
    hide Xor, Feed, Table;
    val := seed;
    var i := 0;
    while i < |ss|
      invariant i <= |ss| && val == Crc(seed, ss[..i])
    {
      TableStep(val, ss[i]);
      assert ss[..i + 1][..i] == ss[..i];
      val := Xor(Table(((val ^ (ss[i] as bv32)) & 0xff) as bv8), val >> 8);
      i := i + 1;
    }
    assert ss[..i] == ss;
  }

  // ----- bursts of at most four bytes -----

  lemma FeedInjective(a: bv32, b: bv32, s: bv8)
    requires Feed(a, s) == Feed(b, s)
    ensures a == b
  {
    XorInjective(a, b, s as bv32);
    hide Bits8;
    Bits8Injective(a ^ (s as bv32), b ^ (s as bv32));
  }

  lemma XorInjective(a: bv32, b: bv32, c: bv32)
    ensures a ^ c == b ^ c ==> a == b
  {}

  /** A difference in the state never goes away while the input is the same. */
  lemma {:induction false} SameTail(a: bv32, b: bv32, data: seq<bv8>)
    requires Crc(a, data) == Crc(b, data)
    ensures a == b
  {
    hide Feed;
    if |data| > 0 {
      var n := |data| - 1;
      FeedInjective(Crc(a, data[..n]), Crc(b, data[..n]), data[n]);
      SameTail(a, b, data[..n]);
    }
  }

  /** Input behind eight steps is input eight places higher before them. */
  lemma Pull(u: bv32, b: bv32)
    requires b < 0x1000000
    ensures Xor(Bits8(u), b) == Bits8(Xor(u, b << 8))
  {
    hide Xor, Bits8;
    Bits8Linear(u, b << 8);
    Bits8Shift(b);
  }

  /** Four bytes laid over the state. */
  function LayBytes(v: bv32, a: bv8, b: bv8, c: bv8, d: bv8): bv32 {
    Xor(Xor(Xor(Xor(v, a as bv32), (b as bv32) << 8), ((c as bv32) << 8) << 8), (((d as bv32) << 8) << 8) << 8)
  }

  function Lay(v: bv32, x: seq<bv8>): bv32
    requires |x| == 4
  {
    LayBytes(v, x[0], x[1], x[2], x[3])
  }

  function Small(b: bv8): (w: bv32)
    ensures w < 0x100 && (w << 8) < 0x10000 && ((w << 8) << 8) < 0x1000000
  {
    b as bv32
  }

  lemma FeedXor(v: bv32, b: bv8)
    ensures Feed(v, b) == Bits8(Xor(v, Small(b)))
  {}

  /** Feeding four bytes is thirty-two steps from the state with the bytes laid over it. */
  lemma FourBytes(v: bv32, x: seq<bv8>)
    requires |x| == 4
    ensures Crc(v, x) == Bits8(Bits8(Bits8(Bits8(Lay(v, x)))))
  {
    var a, b, c, d := Small(x[0]), Small(x[1]), Small(x[2]), Small(x[3]);
    assert Lay(v, x) == Xor(Xor(Xor(Xor(v, a), b << 8), (c << 8) << 8), ((d << 8) << 8) << 8);
    FeedChain(v, x);
    hide Xor, Bits8, Feed, Small, Lay, Crc;
    FeedXor(v, x[0]);
    FeedXor(Feed(v, x[0]), x[1]);
    FeedXor(Feed(Feed(v, x[0]), x[1]), x[2]);
    FeedXor(Feed(Feed(Feed(v, x[0]), x[1]), x[2]), x[3]);
    var u0 := Xor(v, a);
    Pull(u0, b);
    var u1 := Xor(u0, b << 8);
    Pull(Bits8(u1), c);
    Pull(u1, c << 8);
    var u2 := Xor(u1, (c << 8) << 8);
    Pull(Bits8(Bits8(u2)), d);
    Pull(Bits8(u2), d << 8);
    Pull(u2, (d << 8) << 8);
  }

  lemma FeedChain(v: bv32, x: seq<bv8>)
    requires |x| == 4
    ensures Crc(v, x) == Feed(Feed(Feed(Feed(v, x[0]), x[1]), x[2]), x[3])
  {
    hide Feed;
    assert x[..3][..2] == x[..2] && x[..2][..1] == x[..1] && x[..1][..0] == [];
    assert Crc(v, x[..1]) == Feed(v, x[0]);
    assert Crc(v, x[..2]) == Feed(Crc(v, x[..1]), x[1]);
    assert Crc(v, x[..3]) == Feed(Crc(v, x[..2]), x[2]);
  }

  lemma LayInjective(v: bv32, x: seq<bv8>, y: seq<bv8>)
    requires |x| == |y| == 4 && Lay(v, x) == Lay(v, y)
    ensures x == y
  {
    hide LayBytes;
    BytesInjective(v, x[0], x[1], x[2], x[3], y[0], y[1], y[2], y[3]);
  }

  /** Four bytes in one word, and back. */
  function Word(a: bv8, b: bv8, c: bv8, d: bv8): bv32 {
    Xor(Xor(Xor(a as bv32, (b as bv32) << 8), ((c as bv32) << 8) << 8), (((d as bv32) << 8) << 8) << 8)
  }

  lemma WordBytes(a: bv8, b: bv8, c: bv8, d: bv8)
    ensures Word(a, b, c, d) & 0xff == a as bv32 && (Word(a, b, c, d) >> 8) & 0xff == b as bv32
    ensures (Word(a, b, c, d) >> 16) & 0xff == c as bv32 && (Word(a, b, c, d) >> 24) & 0xff == d as bv32
  {}

  lemma LayWord(v: bv32, a: bv8, b: bv8, c: bv8, d: bv8)
    ensures LayBytes(v, a, b, c, d) == Xor(v, Word(a, b, c, d))
  {
    hide Xor;
    XorFour(v, a as bv32, (b as bv32) << 8, ((c as bv32) << 8) << 8, (((d as bv32) << 8) << 8) << 8);
  }

  lemma XorFour(v: bv32, p: bv32, q: bv32, r: bv32, s: bv32)
    ensures Xor(Xor(Xor(Xor(v, p), q), r), s) == Xor(v, Xor(Xor(Xor(p, q), r), s))
  {
    hide Xor;
    XorAssoc(v, p, q);
    XorAssoc(v, Xor(p, q), r);
    XorAssoc(v, Xor(Xor(p, q), r), s);
  }

  lemma SameByte(a: bv8, b: bv8)
    requires a as bv32 == b as bv32
    ensures a == b
  {}

  lemma XorCancelLeft(v: bv32, p: bv32, q: bv32)
    ensures Xor(v, p) == Xor(v, q) ==> p == q
  {}

  lemma BytesInjective(v: bv32, a: bv8, b: bv8, c: bv8, d: bv8, a': bv8, b': bv8, c': bv8, d': bv8)
    requires LayBytes(v, a, b, c, d) == LayBytes(v, a', b', c', d')
    ensures a == a' && b == b' && c == c' && d == d'
  {
    hide LayBytes, Word, Xor;
    LayWord(v, a, b, c, d);
    LayWord(v, a', b', c', d');
    XorCancelLeft(v, Word(a, b, c, d), Word(a', b', c', d'));
    WordBytes(a, b, c, d);
    WordBytes(a', b', c', d');
    SameByte(a, a');
    SameByte(b, b');
    SameByte(c, c');
    SameByte(d, d');
  }

  /** From one state, different strings of at most four bytes lead to different states. */
  lemma {:induction false} BurstApart(v: bv32, x: seq<bv8>, y: seq<bv8>)
    requires |x| == |y| <= 4 && Crc(v, x) == Crc(v, y)
    ensures x == y
    decreases 4 - |x|
  {
    hide Feed, Lay, Bits8;
    if |x| == 4 {
      FourBytes(v, x);
      FourBytes(v, y);
      Bits8Injective(Bits8(Bits8(Bits8(Lay(v, x)))), Bits8(Bits8(Bits8(Lay(v, y)))));
      Bits8Injective(Bits8(Bits8(Lay(v, x))), Bits8(Bits8(Lay(v, y))));
      Bits8Injective(Bits8(Lay(v, x)), Bits8(Lay(v, y)));
      Bits8Injective(Lay(v, x), Lay(v, y));
      LayInjective(v, x, y);
    } else {
      assert (x + [0])[..|x|] == x && (y + [0])[..|y|] == y;
      BurstApart(v, x + [0], y + [0]);
    }
  }

  /** A buffer altered only within four consecutive bytes has another CRC. */
  lemma BurstDetected(val: bv32, p: seq<bv8>, x: seq<bv8>, y: seq<bv8>, q: seq<bv8>)
    requires |x| == |y| <= 4 && x != y
    ensures Crc(val, p + x + q) != Crc(val, p + y + q)
  {
    hide Crc;
    CrcConcat(val, p + x, q);
    CrcConcat(val, p + y, q);
    CrcConcat(val, p, x);
    CrcConcat(val, p, y);
    if Crc(val, p + x + q) == Crc(val, p + y + q) {
      SameTail(Crc(val, p + x), Crc(val, p + y), q);
      BurstApart(Crc(val, p), x, y);
      assert false;
    }
  }
}
