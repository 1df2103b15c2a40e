/**
  The device an image is received to: its size, its bad blocks, and which of the writes and
  erasures fail.  The blocks of an image go to the good erase blocks one after another.
 */
module FlashDevice {

  /** Writes and erasures are numbered from 0; a file has no end, no bad blocks and cannot be erased. */
  datatype Device = Device(erasesize: nat, size: nat, file_mode: bool, bad: set<nat>,
                           write_fails: nat -> bool, erase_fails: nat -> bool)

  // ----- room -----

  /** The first offset from ofs on, in steps of an erase block, that is not a bad block of the device. */
  function NextGood(d: Device, ofs: nat): (r: nat)
    requires d.erasesize > 0
    ensures r >= ofs
    decreases d.size - ofs
  {
    if ofs < d.size && ofs in d.bad then NextGood(d, ofs + d.erasesize) else ofs
  }

  predicate Aligned(e: nat, x: int)
    requires e > 0
  {
    x % e == 0
  }

  lemma AlignedStep(e: nat, x: int)
    requires e > 0
    ensures Aligned(e, x + e) <==> Aligned(e, x)
    ensures Aligned(e, 0)
  {
    Remainder(e, x / e, x % e);
    Remainder(e, x / e + 1, x % e);
    assert e * (x / e + 1) == e * (x / e) + e;
    Remainder(e, 0, 0);
  }

  lemma AlignedApart(e: nat, x: int, y: int)
    requires e > 0 && Aligned(e, x) && Aligned(e, y) && x < y
    ensures x + e <= y
  {
    var p, q := x / e, y / e;
    assert x == e * p && y == e * q;
    if y < x + e {
      assert e * (q - p) == y - x;
      SmallProduct(e, q - p);
    }
  }

  lemma Remainder(e: nat, q: int, r: int)
    requires e > 0 && 0 <= r < e
    ensures (e * q + r) % e == r
  {
    var x := e * q + r;
    var p := x / e;
    assert e * p + x % e == e * q + r;
    assert e * (p - q) == r - x % e;
    SmallProduct(e, p - q);
  }

  lemma SmallProduct(e: int, d: int)
    requires e > 0 && -e < e * d < e
    ensures d == 0
  {}

  /** It is no bad block, and all that were passed over are; there is nothing to pass over behind the end. */
  lemma {:induction false} NextGoodIs(d: Device, ofs: nat)
    requires d.erasesize > 0 && Aligned(d.erasesize, ofs)
    ensures Aligned(d.erasesize, NextGood(d, ofs)) && (NextGood(d, ofs) < d.size ==> NextGood(d, ofs) !in d.bad)
    ensures NextGood(d, ofs) == ofs || NextGood(d, ofs) < d.size + d.erasesize
    ensures forall o: nat :: ofs <= o < NextGood(d, ofs) && Aligned(d.erasesize, o) ==> o in d.bad
    decreases d.size - ofs
  {
    hide Aligned;
    var e := d.erasesize;
    if ofs < d.size && ofs in d.bad {
      AlignedStep(e, ofs);
      NextGoodIs(d, ofs + e);
      forall o: nat | ofs <= o < NextGood(d, ofs) && Aligned(e, o) ensures o in d.bad {
        if o != ofs { AlignedApart(e, ofs, o); }
      }
    }
  }

  /** The place number i, and what lies behind the first i places. */
  function Place(d: Device, i: nat): nat
    requires d.erasesize > 0
    decreases i, 1
  {
    if d.file_mode then EndOf(d, i) else NextGood(d, EndOf(d, i))
  }

  function EndOf(d: Device, i: nat): nat
    requires d.erasesize > 0
    decreases i, 0
  {
    if i == 0 then 0 else Place(d, i - 1) + d.erasesize
  }

  lemma EndNext(d: Device, n: nat)
    requires d.erasesize > 0
    ensures Place(d, n) == if d.file_mode then EndOf(d, n) else NextGood(d, EndOf(d, n))
    ensures EndOf(d, n + 1) == Place(d, n) + d.erasesize && EndOf(d, 0) == 0
  {}

  lemma PlaceNext(d: Device, n: nat)
    requires d.erasesize > 0 && Aligned(d.erasesize, EndOf(d, n))
    ensures EndOf(d, n) <= Place(d, n) && EndOf(d, n + 1) == Place(d, n) + d.erasesize
    ensures Aligned(d.erasesize, Place(d, n))
    ensures Aligned(d.erasesize, EndOf(d, n + 1))
    ensures !d.file_mode && Place(d, n) < d.size ==> Place(d, n) !in d.bad
    ensures forall o: nat :: EndOf(d, n) <= o < Place(d, n) && Aligned(d.erasesize, o) ==> !d.file_mode && o in d.bad
  {
    hide Aligned, NextGood;
    if !d.file_mode { NextGoodIs(d, EndOf(d, n)); }
    AlignedStep(d.erasesize, Place(d, n));
  }

  /** The first places, in order; what lies between them is bad. */
  lemma PlacesAre(d: Device, base: seq<nat>)
    requires d.erasesize > 0 && forall b :: 0 <= b < |base| ==> base[b] == Place(d, b)
    ensures Aligned(d.erasesize, EndOf(d, |base|))
    ensures forall b :: 0 <= b < |base| ==> Aligned(d.erasesize, base[b]) && base[b] + d.erasesize <= EndOf(d, |base|)
    ensures forall b, c :: 0 <= b < c < |base| ==> base[b] < base[c]
    ensures !d.file_mode ==> forall b :: 0 <= b < |base| && base[b] < d.size ==> base[b] !in d.bad
    ensures forall o: nat :: o < EndOf(d, |base|) && Aligned(d.erasesize, o) ==>
      o in base || (!d.file_mode && o in d.bad)
  {
    hide Aligned, NextGood, Place, EndOf;
    PlacesAscend(d, base);
    PlacesCover(d, base);
  }

  lemma {:induction false} PlacesAscend(d: Device, base: seq<nat>)
    requires d.erasesize > 0 && forall b :: 0 <= b < |base| ==> base[b] == Place(d, b)
    ensures Aligned(d.erasesize, EndOf(d, |base|))
    ensures forall b :: 0 <= b < |base| ==> Aligned(d.erasesize, base[b]) && base[b] + d.erasesize <= EndOf(d, |base|)
    ensures forall b, c :: 0 <= b < c < |base| ==> base[b] < base[c]
    ensures !d.file_mode ==> forall b :: 0 <= b < |base| && base[b] < d.size ==> base[b] !in d.bad
    decreases |base|
  {
    if base == [] {
      AlignedStep(d.erasesize, 0);
    } else {
      hide Aligned, NextGood, Place, EndOf;
      var n := |base| - 1;
      PlacesAscend(d, base[..n]);
      PlaceNext(d, n);
    }
  }

  lemma {:induction false} PlacesCover(d: Device, base: seq<nat>)
    requires d.erasesize > 0 && forall b :: 0 <= b < |base| ==> base[b] == Place(d, b)
    ensures forall o: nat :: o < EndOf(d, |base|) && Aligned(d.erasesize, o) ==>
      o in base || (!d.file_mode && o in d.bad)
    decreases |base|
  {
    if base != [] {
      hide Aligned, NextGood, Place, EndOf;
      var e, n := d.erasesize, |base| - 1;
      PlacesAscend(d, base[..n]);
      PlacesCover(d, base[..n]);
      PlaceNext(d, n);
      assert base == base[..n] + [base[n]];
      forall o: nat | o < EndOf(d, n + 1) && Aligned(e, o) ensures o in base || (!d.file_mode && o in d.bad) {
        if base[n] < o { AlignedApart(e, base[n], o); }
      }
    }
  }

  /** The device has room for nr blocks; a file always has. */
  predicate Room(d: Device, nr: nat)
    requires d.erasesize > 0
  {
    d.file_mode || forall i :: 0 <= i < nr ==> EndOf(d, i) < d.size
  }

  lemma RoomNext(d: Device, i: nat, nr: nat)
    requires d.erasesize > 0
    ensures Room(d, 0)
    ensures Room(d, i) && (d.file_mode || EndOf(d, i) < d.size) ==> Room(d, i + 1)
    ensures !d.file_mode && EndOf(d, i) >= d.size && i < nr ==> !Room(d, nr)
  {}

  lemma RoomIs(d: Device, base: seq<nat>)
    requires d.erasesize > 0 && Room(d, |base|) && forall b :: 0 <= b < |base| ==> base[b] == Place(d, b)
    ensures !d.file_mode ==> forall b :: 0 <= b < |base| - 1 ==> base[b] + d.erasesize < d.size
  {
    forall b | 0 <= b < |base| - 1 ensures !d.file_mode ==> base[b] + d.erasesize < d.size {
      assert EndOf(d, b + 1) == base[b] + d.erasesize;
    }
  }

  ghost function BadBelow(d: Device, m: nat): set<nat> {
    set x | x in d.bad && x < m
  }

  /** Every erase block skipped is a bad one. */
  lemma {:induction false} SkippedAreBad(d: Device, ofs: nat)
    requires d.erasesize > 0
    ensures NextGood(d, ofs) + d.erasesize * |BadBelow(d, ofs)| <= ofs + d.erasesize * |BadBelow(d, NextGood(d, ofs))|
    decreases d.size - ofs
  {
    if ofs < d.size && ofs in d.bad {
      SkippedAreBad(d, ofs + d.erasesize);
      Grows(BadBelow(d, ofs) + {ofs}, BadBelow(d, ofs + d.erasesize));
      MulMono(d.erasesize, |BadBelow(d, ofs)| + 1, |BadBelow(d, ofs + d.erasesize)|);
    }
  }

  lemma {:induction false} EndBound(d: Device, i: nat)
    requires d.erasesize > 0
    ensures EndOf(d, i) <= d.erasesize * (i + |BadBelow(d, EndOf(d, i))|)
  {
    if i > 0 {
      EndBound(d, i - 1);
      SkippedAreBad(d, EndOf(d, i - 1));
      Grows(BadBelow(d, Place(d, i - 1)), BadBelow(d, EndOf(d, i)));
      MulMono(d.erasesize, |BadBelow(d, Place(d, i - 1))|, |BadBelow(d, EndOf(d, i))|);
      EndSum(d.erasesize, i, |BadBelow(d, EndOf(d, i - 1))|, |BadBelow(d, EndOf(d, i))|);
    }
  }

  /** If the device can hold that many blocks besides the bad ones, all places lie on it. */
  lemma RoomEnough(d: Device, nr: nat)
    requires d.erasesize > 0 && d.erasesize * (nr + |d.bad|) <= d.size
    ensures Room(d, nr) && forall i :: 0 <= i < nr ==> Place(d, i) < d.size
  {
    forall i | 0 <= i < nr ensures EndOf(d, i) < d.size && Place(d, i) < d.size {
      EndBound(d, i + 1);
      Grows(BadBelow(d, EndOf(d, i + 1)), d.bad);
      MulMono(d.erasesize, i + 1 + |BadBelow(d, EndOf(d, i + 1))|, nr + |d.bad|);
    }
  }

  lemma Grows<T>(a: set<T>, b: set<T>)
    requires a <= b
    ensures |a| <= |b|
  {
    assert b == a + (b - a);
  }

  lemma MulMono(e: nat, m: nat, n: nat)
    requires m <= n
    ensures e * m <= e * n
  {}

  lemma EndSum(e: nat, i: nat, m: nat, n: nat)
    requires i >= 1
    ensures e * (i - 1 + m) == e * i - e + e * m && e * (i + n) == e * i + e * n
  {}

  // ----- failures -----

  /** How many of the first n writes fail. */
  function Fails(d: Device, n: nat): (m: nat)
    ensures m <= n
  {
    if n == 0 then 0 else Fails(d, n - 1) + if d.write_fails(n - 1) then 1 else 0
  }

  lemma {:induction false} FailsMono(d: Device, m: nat, n: nat)
    requires m <= n
    ensures Fails(d, m) <= Fails(d, n)
    ensures m < n && d.write_fails(m) ==> Fails(d, m) < Fails(d, n)
    decreases n - m
  {
    if m < n { FailsMono(d, m + 1, n); }
  }

  /**
    Failed write number r, on a device with nr blocks, cannot be made up for: there is no erasing,
    or no good place left.
   */
  predicate Hopeless(d: Device, r: nat, nr: nat)
    requires d.erasesize > 0
  {
    d.file_mode || d.erase_fails(r) || Place(d, nr + r) >= d.size
  }

  /** All failures among the first n writes can be made up for. */
  predicate Recoverable(d: Device, nr: nat, n: nat)
    requires d.erasesize > 0
  {
    forall r :: 0 <= r < Fails(d, n) ==> !Hopeless(d, r, nr)
  }

  /** With erasures that work and room for the failures too, they can. */
  lemma SpareBlocks(d: Device, nr: nat, n: nat)
    requires d.erasesize > 0 && !d.file_mode && d.erasesize * (nr + Fails(d, n) + |d.bad|) <= d.size
    requires forall r :: 0 <= r < Fails(d, n) ==> !d.erase_fails(r)
    ensures Room(d, nr) && Recoverable(d, nr, n)
  {
    RoomEnough(d, nr + Fails(d, n));
    forall r | 0 <= r < Fails(d, n) ensures !Hopeless(d, r, nr) { assert Place(d, nr + r) < d.size; }
  }
}
