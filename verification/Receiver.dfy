/**
  The receive loop and the reassembly of recv_image.c, for every device and every network: any
  write may fail and leave anything behind, any erasure may fail, any block may be bad, and the
  packets are whatever arrives.
 */
module Receiver {
  import opened Galois
  import opened GaloisTables
  import opened LinearAlgebra
  import opened FecCode
  import opened Multicast
  import opened FlashDevice
  import opened Reception
  import Fec
  import Crc32

  datatype Status = Receiving | Complete | Aborted

  // ----- the packet count -----

  /** The packets that count, over all blocks. */
  function Total(blocks: seq<EraseBlock>, k: nat): nat {
    if |blocks| == 0 then 0 else Total(blocks[..|blocks| - 1], k) + Taken(blocks[|blocks| - 1], k)
  }

  lemma {:induction false} TotalUpdate(blocks: seq<EraseBlock>, k: nat, b: nat, eb: EraseBlock)
    requires b < |blocks|
    ensures Total(blocks[b := eb], k) == Total(blocks, k) - Taken(blocks[b], k) + Taken(eb, k)
  {
    var n := |blocks| - 1;
    if b < n {
      assert blocks[b := eb][..n] == blocks[..n][b := eb];
      TotalUpdate(blocks[..n], k, b, eb);
    } else {
      assert blocks[b := eb][..n] == blocks[..n];
    }
  }

  ghost predicate Full(blocks: seq<EraseBlock>, k: nat) {
    forall b :: 0 <= b < |blocks| ==> blocks[b].nr_pkts >= k
  }

  lemma FullSplit(blocks: seq<EraseBlock>, k: nat)
    requires |blocks| > 0
    ensures Full(blocks, k) <==> Full(blocks[..|blocks| - 1], k) && blocks[|blocks| - 1].nr_pkts >= k
  {
    var n := |blocks| - 1;
    assert forall b :: 0 <= b < n ==> blocks[..n][b] == blocks[b];
  }

  /** The count reaches its maximum only when every block is complete. */
  lemma {:induction false} TotalFull(blocks: seq<EraseBlock>, k: nat)
    ensures Total(blocks, k) <= |blocks| * k
    ensures Total(blocks, k) == |blocks| * k <==> Full(blocks, k)
  {
    hide Full;
    if |blocks| > 0 {
      var n := |blocks| - 1;
      TotalFull(blocks[..n], k);
      FullSplit(blocks, k);
      assert |blocks| * k == n * k + k;
    } else {
      NoneFull(k);
      assert |blocks| * k == 0;
    }
  }

  lemma NoneFull(k: nat)
    ensures Full([], k)
  {}

  // ----- the invariant -----

  /** Every block has its own erase block on the device, below mtdoffset. */
  ghost predicate Placed(base: seq<nat>, erasesize: nat, mtdoffset: nat) {
    && erasesize > 0 && mtdoffset % erasesize == 0
    && (forall b :: 0 <= b < |base| ==> base[b] % erasesize == 0 && base[b] + erasesize <= mtdoffset)
    && (forall b, c :: 0 <= b < |base| && 0 <= c < |base| && b != c ==>
          base[b] + erasesize <= base[c] || base[c] + erasesize <= base[b])
  }

  ghost predicate BlocksOk(s: Stream, f: Flash, blocks: seq<EraseBlock>, base: seq<nat>, except: int)
    requires ValidStream(s) && |blocks| == |base| <= |s.sources|
  {
    forall b :: 0 <= b < |blocks| && b != except ==> BlockOk(s, f, blocks[b], base[b], b)
  }

  lemma DivisionUnique(e: nat, q: nat, r: nat, q': nat, r': nat)
    requires e * q + r == e * q' + r' && r < e && r' < e
    ensures r == r'
  {
    if q < q' {
      MulGap(e, q, q');
    } else if q' < q {
      MulGap(e, q', q);
    }
  }

  lemma MulGap(e: nat, q: nat, q': nat)
    requires q < q'
    ensures e * q + e <= e * q'
  {
    assert e * q' == e * (q + 1) + e * (q' - q - 1);
    assert e * (q + 1) == e * q + e;
  }

  lemma ModOffset(e: nat, q: nat, r: nat)
    requires r < e
    ensures (e * q + r) % e == r
  {
    var x := e * q + r;
    DivisionUnique(e, q, r, x / e, x % e);
  }

  lemma AlignedNext(m: nat, e: nat)
    requires e > 0 && m % e == 0
    ensures (m + e) % e == 0
  {
    var q := m / e;
    assert m + e == e * (q + 1) + 0;
    ModOffset(e, q + 1, 0);
  }

  /** Rounding an offset inside an erase block down to the block. */
  lemma RoundDown(base: nat, r: nat, e: nat)
    requires e > 0 && base % e == 0 && r < e
    ensures base + r - (base + r) % e == base
  {
    var q := base / e;
    assert base == e * q;
    ModOffset(e, q, r);
  }

  /** Moving one block to the next free place. */
  lemma PlacedMove(base: seq<nat>, e: nat, m: nat, b: nat, m': nat)
    requires Placed(base, e, m) && b < |base| && m <= m' && m' % e == 0
    ensures Placed(base[b := m'], e, m' + e)
  {
    AlignedNext(m', e);
  }

  lemma PlacedAdd(base: seq<nat>, e: nat, m: nat, m': nat)
    requires Placed(base, e, m) && m <= m' && m' % e == 0
    ensures Placed(base + [m'], e, m' + e)
  {
    AlignedNext(m', e);
  }

  /** A change confined to block b's place leaves the other blocks intact. */
  lemma OthersIntact(s: Stream, f: Flash, f': Flash, blocks: seq<EraseBlock>, base: seq<nat>, e: nat, m: nat,
                     b: nat, ofs: nat, len: nat)
    requires ValidStream(s) && |blocks| == |base| <= |s.sources| && b < |blocks|
    requires BlockGeometry(e, s.k) && Placed(base, e, m)
    requires BlocksOk(s, f, blocks, base, b) && SameOutside(f, f', ofs, len)
    requires base[b] <= ofs && ofs + len <= base[b] + e
    ensures BlocksOk(s, f', blocks, base, b)
  {
    hide Holding, Flushed, SameOutside, BlockGeometry;
    forall c | 0 <= c < |blocks| && c != b
      ensures BlockOk(s, f', blocks[c], base[c], c)
    {
      FlushedWithin(e, s.k, Taken(blocks[c], s.k));
      HoldingElsewhere(s, f, f', blocks[c], base[c], c, Taken(blocks[c], s.k), ofs, len, e);
    }
  }

  lemma StoreOutside(f: Flash, ofs: nat, d: seq<gf>, len: nat)
    requires |d| <= len
    ensures SameOutside(f, Store(f, ofs, d), ofs, len)
  {
    hide Store;
  }

  /** The packets a block has recorded. */
  function Indices(eb: EraseBlock, k: nat): seq<nat>
    requires |eb.pkt_indices| == k
  {
    eb.pkt_indices[..Taken(eb, k)]
  }

  lemma IndicesCount(eb: EraseBlock, k: nat)
    requires |eb.pkt_indices| == k
    ensures |Indices(eb, k)| < k <==> eb.nr_pkts < k
    ensures eb.nr_pkts < k ==> |Indices(eb, k)| == eb.nr_pkts
  {}

  ghost predicate Shape(blocks: seq<EraseBlock>, k: nat) {
    forall b :: 0 <= b < |blocks| ==> |blocks[b].pkt_indices| == k
  }

  /** The packets recorded, block by block. */
  function Lists(blocks: seq<EraseBlock>, k: nat): (r: seq<seq<nat>>)
    requires Shape(blocks, k)
    ensures |r| == |blocks| && forall b :: 0 <= b < |blocks| ==> r[b] == Indices(blocks[b], k)
  {
    seq(|blocks|, b requires 0 <= b < |blocks| => Indices(blocks[b], k))
  }

  lemma ListsSame(before: seq<EraseBlock>, after: seq<EraseBlock>, k: nat)
    requires Shape(before, k) && Shape(after, k) && |before| == |after|
    requires forall b :: 0 <= b < |before| ==> Indices(after[b], k) == Indices(before[b], k)
    ensures Lists(after, k) == Lists(before, k)
  {}

  lemma ListsUpdate(before: seq<EraseBlock>, after: seq<EraseBlock>, k: nat, b: nat)
    requires Shape(before, k) && Shape(after, k) && |before| == |after| && b < |before|
    requires forall c :: 0 <= c < |before| && c != b ==> after[c] == before[c]
    ensures Lists(after, k) == Lists(before, k)[b := Indices(after[b], k)]
  {
    hide Indices;
  }

  lemma DoneIs(blocks: seq<EraseBlock>, k: nat, writes: nat, failed: nat)
    requires Shape(blocks, k)
    ensures Done(Progress(Lists(blocks, k), writes, failed), k) <==> Full(blocks, k)
  {
    hide Indices;
    forall b | 0 <= b < |blocks|
      ensures |Indices(blocks[b], k)| >= k <==> blocks[b].nr_pkts >= k
    {
      IndicesCount(blocks[b], k);
    }
    if Done(Progress(Lists(blocks, k), writes, failed), k) {
      forall b | 0 <= b < |blocks| ensures blocks[b].nr_pkts >= k { assert |Lists(blocks, k)[b]| >= k; }
    }
  }

  lemma CrcIs(p: Packet)
    ensures CrcOk(p) <==> Crc32.Crc(0xffffffff, p.data) == p.hdr.thiscrc
  {}

  /** The first packet sets up the blocks. */
  predicate Fits(d: Device, input: seq<Packet>, nr: nat)
    requires d.erasesize > 0
  {
    |input| > 0 && d.erasesize == input[0].hdr.blocksize && Room(d, nr)
  }

  /** How the loop ends, having looked at `seen` packets. */
  ghost predicate Ends(d: Device, k: nat, input: seq<Packet>, seen: nat, nr: nat, status: Status)
    requires d.erasesize > 0 && seen <= |input|
  {
    match status
    case Receiving =>
      seen == |input| && (|input| > 0 ==> Fits(d, input, nr)) && Handled(d, k, input, seen, nr)
    case Complete =>
      && Fits(d, input, nr) && seen > 0 && Handled(d, k, input, seen - 1, nr)
      && !Foreign(input[seen - 1], input[0].hdr.totcrc, nr)
      && After(d, k, input[..seen], nr).Going? && Done(After(d, k, input[..seen], nr).progress, k)
    case Aborted =>
      |input| > 0 && (
        if seen == 0 then !Fits(d, input, nr)
        else
          && Fits(d, input, nr) && Handled(d, k, input, seen - 1, nr)
          && (Foreign(input[seen - 1], input[0].hdr.totcrc, nr) || After(d, k, input[..seen], nr).GivenUp?))
  }

  lemma AfterNothing(d: Device, k: nat, input: seq<Packet>, nr: nat)
    requires d.erasesize > 0
    ensures After(d, k, input[..0], nr) == Going(Begin(nr))
  {}

  lemma BlocksUpdate(s: Stream, f: Flash, blocks: seq<EraseBlock>, base: seq<nat>, b: nat, eb: EraseBlock)
    requires ValidStream(s) && |blocks| == |base| <= |s.sources| && b < |blocks|
    requires BlocksOk(s, f, blocks, base, b)
    ensures BlocksOk(s, f, blocks[b := eb], base, b)
    ensures BlockOk(s, f, eb, base[b], b) ==> BlocksOk(s, f, blocks[b := eb], base, -1)
  {
    hide BlockOk;
  }

  lemma BlocksMove(s: Stream, f: Flash, blocks: seq<EraseBlock>, base: seq<nat>, b: nat, eb: EraseBlock, ofs: nat)
    requires ValidStream(s) && |blocks| == |base| <= |s.sources| && b < |blocks|
    requires BlocksOk(s, f, blocks, base, b) && BlockOk(s, f, eb, ofs, b)
    ensures BlocksOk(s, f, blocks[b := eb], base[b := ofs], -1)
  {
    hide BlockOk;
  }

  lemma BlocksAdd(s: Stream, f: Flash, blocks: seq<EraseBlock>, base: seq<nat>, eb: EraseBlock, ofs: nat)
    requires ValidStream(s) && |blocks| == |base| < |s.sources|
    requires BlocksOk(s, f, blocks, base, -1) && BlockOk(s, f, eb, ofs, |blocks|)
    ensures BlocksOk(s, f, blocks + [eb], base + [ofs], -1)
  {
    hide BlockOk;
  }

  lemma BlocksNone(s: Stream, f: Flash)
    requires ValidStream(s)
    ensures BlocksOk(s, f, [], [], -1)
  {}

  lemma BlocksSplit(s: Stream, f: Flash, blocks: seq<EraseBlock>, base: seq<nat>, b: nat)
    requires ValidStream(s) && |blocks| == |base| <= |s.sources| && b < |blocks|
    requires BlocksOk(s, f, blocks, base, -1)
    ensures BlocksOk(s, f, blocks, base, b) && BlockOk(s, f, blocks[b], base[b], b)
  {
    hide BlockOk;
  }

  // ----- the receiver -----

  class Receiver {
    const k: nat // pkts_per_block
    const dev: Device
    var blocks: seq<EraseBlock>
    var flash: Flash
    var total_pkts: nat
    var mtdoffset: nat
    var image_crc: bv32
    var writes: nat // so far
    var erases: nat // to make up for failed writes
    ghost var base: seq<nat>

    constructor (k: nat, dev: Device)
      ensures this.k == k && this.dev == dev && Unused()
    {
      this.k, this.dev := k, dev;
      blocks, base, flash, total_pkts, mtdoffset, image_crc := [], [], map[], 0, 0, 0;
      writes, erases := 0, 0;
    }

    /** Before the first packet. */
    ghost predicate Unused()
      reads this
    {
      blocks == [] && base == [] && total_pkts == 0 && mtdoffset == 0 && writes == 0 && erases == 0
    }

    /** Everything but block `except` is as it should be; -1 excepts nothing. */
    ghost predicate ValidExcept(s: Stream, except: int)
      reads this
    {
      && ValidStream(s) && s.k == k && BlockGeometry(dev.erasesize, k)
      && |blocks| == |base| == |s.sources|
      && Placed(base, dev.erasesize, mtdoffset)
      && BlocksOk(s, flash, blocks, base, except)
      && total_pkts == Total(blocks, k)
      && mtdoffset == EndOf(dev, |blocks| + erases)
    }

    ghost predicate Valid(s: Stream)
      reads this
    {
      ValidExcept(s, -1)
    }

    // ----- the device -----

    /** A write; when it fails, any part of the range may hold anything. */
    method PWrite(ofs: nat, data: seq<gf>) returns (ok: bool)
      modifies this`flash, this`writes
      ensures ok <==> !dev.write_fails(old(writes))
      ensures ok ==> flash == Store(old(flash), ofs, data)
      ensures writes == old(writes) + 1
      ensures SameOutside(old(flash), flash, ofs, |data|)
    {
      var junk: seq<gf> := *;
      ok := !dev.write_fails(writes);
      writes := writes + 1;
      if ok {
        StoreOutside(flash, ofs, data, |data|);
        flash := Store(flash, ofs, data);
      } else {
        if |junk| <= |data| {
          StoreOutside(flash, ofs, junk, |data|);
          flash := Store(flash, ofs, junk);
        }
      }
    }

    method MemErase(start: nat, len: nat) returns (ok: bool)
      modifies this`flash, this`erases
      ensures ok <==> !dev.erase_fails(old(erases))
      ensures erases == old(erases) + 1
      ensures SameOutside(old(flash), flash, start, len)
    {
      ok := !dev.erase_fails(erases);
      erases := erases + 1;
      if ok {
        var blank := seq(len, _ => 0xff);
        StoreOutside(flash, start, blank, len);
        flash := Store(flash, start, blank);
      }
    }

    /** Behind the end of the device the request is refused, and the block does not count as bad. */
    method IsBadBlock(ofs: nat) returns (isBad: bool)
      ensures isBad <==> ofs < dev.size && ofs in dev.bad
    {
      isBad := ofs < dev.size && ofs in dev.bad;
    }

    // ----- placing the blocks -----

    /**
      Sets up the block table from the first packet; fails for a foreign erase size or for lack of
      room.  No block is put on a bad erase block, and no good one is passed over.
     */
    method Start(hdr: Header, ghost s: Stream) returns (ok: bool)
      requires ValidStream(s) && s.k == k && BlockGeometry(dev.erasesize, k)
      requires hdr.nr_blocks == |s.sources| && Unused()
      modifies this`blocks, this`base, this`mtdoffset, this`image_crc
      ensures ok <==> dev.erasesize == hdr.blocksize && Room(dev, hdr.nr_blocks)
      ensures ok ==> Valid(s) && image_crc == hdr.totcrc
      ensures ok ==> |base| == |blocks| && forall b :: 0 <= b < |blocks| ==> base[b] == Place(dev, b)
      ensures ok ==> forall b :: 0 <= b < |base| ==> base[b] % dev.erasesize == 0
      ensures ok ==> forall b, c :: 0 <= b < c < |base| ==> base[b] < base[c]
      ensures ok ==> |base| > 0 && mtdoffset == base[|base| - 1] + dev.erasesize
      ensures ok && !dev.file_mode ==> forall b :: 0 <= b < |base| && base[b] < dev.size ==> base[b] !in dev.bad
      ensures ok ==> forall o: nat :: o < mtdoffset && o % dev.erasesize == 0 ==>
        o in base || (!dev.file_mode && o in dev.bad)
      ensures ok && !dev.file_mode ==> forall b :: 0 <= b < |base| - 1 ==> base[b] + dev.erasesize < dev.size
      ensures !ok && dev.erasesize == hdr.blocksize ==>
        !dev.file_mode && |blocks| < hdr.nr_blocks && mtdoffset >= dev.size
      ensures ok ==> forall b :: 0 <= b < |blocks| ==> blocks[b].nr_pkts == 0 && |blocks[b].pkt_indices| == k
    {
      hide BlockGeometry, Placed, BlocksOk, Total, NextGood, Room, Place;
      if dev.erasesize != hdr.blocksize {
        return false;
      }
      image_crc := hdr.totcrc;
      ok := PlaceBlocks(hdr.nr_blocks, s);
      if ok {
        GeometryFacts(dev.erasesize, k);
        PlacesAre(dev, base);
        RoomIs(dev, base);
      }
    }

    method PlaceBlocks(nr_blocks: nat, ghost s: Stream) returns (ok: bool)
      requires ValidStream(s) && s.k == k && BlockGeometry(dev.erasesize, k)
      requires nr_blocks == |s.sources| && Unused()
      modifies this`blocks, this`base, this`mtdoffset
      ensures ok <==> Room(dev, nr_blocks)
      ensures ok ==> Valid(s) && forall b :: 0 <= b < |blocks| ==> base[b] == Place(dev, b)
      ensures !ok ==> !dev.file_mode && |blocks| < nr_blocks && mtdoffset >= dev.size
      ensures ok ==> forall b :: 0 <= b < |blocks| ==> blocks[b].nr_pkts == 0 && |blocks[b].pkt_indices| == k
    {
      hide BlockOk, BlockGeometry, Placed, BlocksOk, Total, NextGood, Full, Room, Place, EndOf;
      PlacedNowhere(dev.erasesize, k);
      BlocksNone(s, flash);
      TotalFull(blocks, k);
      RoomNext(dev, 0, nr_blocks);
      EndNext(dev, 0);
      var i := 0;
      while i < nr_blocks
        invariant 0 <= i <= nr_blocks == |s.sources|
        invariant |blocks| == |base| == i
        invariant Placed(base, dev.erasesize, mtdoffset)
        invariant BlocksOk(s, flash, blocks, base, -1)
        invariant total_pkts == Total(blocks, k)
        invariant mtdoffset == EndOf(dev, i)
        invariant forall b :: 0 <= b < i ==> base[b] == Place(dev, b)
        invariant Room(dev, i)
        invariant forall b :: 0 <= b < |blocks| ==> blocks[b].nr_pkts == 0 && |blocks[b].pkt_indices| == k
      {
        RoomNext(dev, i, nr_blocks);
        EndNext(dev, i);
        if !dev.file_mode {
          if mtdoffset >= dev.size {
            return false;
          }
          SkipBadBlocks();
        }
        AddBlock(s);
        i := i + 1;
      }
      return true;
    }

    /** Places one more empty block at mtdoffset. */
    method AddBlock(ghost s: Stream)
      requires ValidStream(s) && s.k == k && |blocks| == |base| < |s.sources|
      requires Placed(base, dev.erasesize, mtdoffset) && BlocksOk(s, flash, blocks, base, -1)
      requires total_pkts == Total(blocks, k)
      modifies this`blocks, this`base, this`mtdoffset
      ensures base == old(base) + [old(mtdoffset)] && mtdoffset == old(mtdoffset) + dev.erasesize
      ensures |blocks| == old(|blocks|) + 1 && blocks[..old(|blocks|)] == old(blocks)
      ensures var eb := blocks[old(|blocks|)]; eb.nr_pkts == 0 && |eb.pkt_indices| == k
      ensures Placed(base, dev.erasesize, mtdoffset) && BlocksOk(s, flash, blocks, base, -1)
      ensures total_pkts == Total(blocks, k)
    {
      hide BlockOk, Placed, BlocksOk;
      var eb := EraseBlock(mtdoffset, seq(WBUF_SIZE, _ => 0), 0, 0, seq(k, _ => 0), 0);
      EmptyBlockOk(s, flash, eb, mtdoffset, |blocks|);
      PlacedAligned(base, dev.erasesize, mtdoffset);
      PlacedAdd(base, dev.erasesize, mtdoffset, mtdoffset);
      assert (blocks + [eb])[..|blocks|] == blocks;
      BlocksAdd(s, flash, blocks, base, eb, mtdoffset);
      blocks, base := blocks + [eb], base + [mtdoffset];
      mtdoffset := mtdoffset + dev.erasesize;
    }

    /** Moves mtdoffset past bad blocks. */
    method SkipBadBlocks()
      requires Placed(base, dev.erasesize, mtdoffset)
      modifies this`mtdoffset
      ensures Placed(base, dev.erasesize, mtdoffset) && mtdoffset == NextGood(dev, old(mtdoffset))
    {
      var isBad := IsBadBlock(mtdoffset);
      while isBad
        invariant Placed(base, dev.erasesize, mtdoffset) && NextGood(dev, mtdoffset) == NextGood(dev, old(mtdoffset))
        invariant isBad <==> mtdoffset < dev.size && mtdoffset in dev.bad
        decreases dev.size - mtdoffset
      {
        AlignedNext(mtdoffset, dev.erasesize);
        mtdoffset := mtdoffset + dev.erasesize;
        isBad := IsBadBlock(mtdoffset);
      }
    }

    /** After a failed write: erase the old place and start over at the next good one. */
    method Relocate(b: nat, ghost s: Stream) returns (ok: bool)
      requires b < |blocks| && ValidExcept(s, b) && !dev.file_mode
      requires base[b] <= blocks[b].flash_offset < base[b] + dev.erasesize
      requires blocks[b].nr_pkts <= k && |blocks[b].wbuf| == WBUF_SIZE && |blocks[b].pkt_indices| == k
      modifies this`blocks, this`base, this`flash, this`total_pkts, this`mtdoffset, this`erases
      ensures ok <==> !old(Hopeless(dev, erases, |blocks|))
      ensures ok ==> base == old(base)[b := old(Place(dev, |blocks| + erases))] && erases == old(erases) + 1
      ensures ok ==> old(mtdoffset) <= base[b] < dev.size && base[b] % dev.erasesize == 0 && base[b] !in dev.bad
      ensures ok ==> !dev.erase_fails(old(erases)) && mtdoffset == base[b] + dev.erasesize
      ensures ok ==> forall o: nat :: old(mtdoffset) <= o < base[b] && o % dev.erasesize == 0 ==> o in dev.bad
      ensures !ok && !dev.erase_fails(old(erases)) ==>
        forall o: nat :: old(mtdoffset) <= o < dev.size && o % dev.erasesize == 0 ==> o in dev.bad
      ensures ok ==> Valid(s) && blocks == old(blocks)[b := blocks[b]]
      ensures ok ==> blocks[b].nr_pkts == 0 && blocks[b].wbuf_ofs == 0 && |blocks[b].pkt_indices| == k
    {
      hide BlockOk, BlockGeometry, Placed, SameOutside, BlocksOk, Total, NextGood;
      var eb := blocks[b];
      var start := eb.flash_offset - eb.flash_offset % dev.erasesize;
      PlacedAt(base, dev.erasesize, mtdoffset, b);
      RoundDown(base[b], eb.flash_offset - base[b], dev.erasesize);
      PlacedAligned(base, dev.erasesize, mtdoffset);
      NextGoodIs(dev, mtdoffset);
      ghost var f := flash;
      var erased := MemErase(start, dev.erasesize);
      if !erased || mtdoffset >= dev.size {
        return false;
      }
      OthersIntact(s, f, flash, blocks, base, dev.erasesize, mtdoffset, b, start, dev.erasesize);
      SkipBadBlocks();
      if mtdoffset >= dev.size {
        return false;
      }
      MoveBlock(b, s);
      return true;
    }

    /** Places the block, empty, at mtdoffset. */
    method MoveBlock(b: nat, ghost s: Stream)
      requires ValidStream(s) && s.k == k && |blocks| == |base| <= |s.sources| && b < |blocks|
      requires Placed(base, dev.erasesize, mtdoffset) && BlocksOk(s, flash, blocks, base, b)
      requires total_pkts == Total(blocks, k) && blocks[b].nr_pkts <= k
      requires |blocks[b].wbuf| == WBUF_SIZE && |blocks[b].pkt_indices| == k
      modifies this`blocks, this`base, this`total_pkts, this`mtdoffset
      ensures base == old(base)[b := old(mtdoffset)] && mtdoffset == old(mtdoffset) + dev.erasesize
      ensures |blocks| == old(|blocks|) && blocks == old(blocks)[b := blocks[b]]
      ensures blocks[b].nr_pkts == 0 && blocks[b].wbuf_ofs == 0 && |blocks[b].pkt_indices| == k
      ensures Placed(base, dev.erasesize, mtdoffset) && BlocksOk(s, flash, blocks, base, -1)
      ensures total_pkts == Total(blocks, k)
    {
      hide BlockOk, Placed, BlocksOk, Total;
      var eb := blocks[b];
      var eb' := eb.(flash_offset := mtdoffset, nr_pkts := 0, wbuf_ofs := 0);
      EmptyBlockOk(s, flash, eb', mtdoffset, b);
      TotalUpdate(blocks, k, b, eb');
      PlacedAligned(base, dev.erasesize, mtdoffset);
      PlacedMove(base, dev.erasesize, mtdoffset, b, mtdoffset);
      BlocksMove(s, flash, blocks, base, b, eb', mtdoffset);
      total_pkts := total_pkts - eb.nr_pkts;
      blocks, base := blocks[b := eb'], base[b := mtdoffset];
      mtdoffset := mtdoffset + dev.erasesize;
    }

    // ----- the receive loop -----

    /** Block b holds m packets and can take packet j; the other blocks are as they should be. */
    ghost predicate Ready(s: Stream, b: nat, m: nat, j: nat)
      reads this
    {
      && ValidExcept(s, b) && b < |blocks|
      && Holding(s, flash, blocks[b], base[b], b, m)
      && blocks[b].nr_pkts == m < k && |blocks[b].pkt_indices| == k
      && j < s.n && j !in blocks[b].pkt_indices[..m]
    }

    /** Records packet j and stores its data: in the write buffer, or by writing a full buffer out. */
    method TryStore(b: nat, j: nat, data: seq<gf>, ghost s: Stream) returns (written: bool)
      requires b < |blocks| && Ready(s, b, blocks[b].nr_pkts, j) && data == PacketData(s, b, j)
      modifies this`blocks, this`flash, this`total_pkts, this`writes
      ensures written <==> !(Due(old(blocks[b].nr_pkts)) && dev.write_fails(old(writes)))
      ensures writes == old(writes) + if Due(old(blocks[b].nr_pkts)) then 1 else 0
      ensures ValidExcept(s, b) && blocks == old(blocks)[b := blocks[b]]
      ensures var m := old(blocks[b].nr_pkts);
        blocks[b].nr_pkts == m + 1 && blocks[b].pkt_indices == old(blocks[b].pkt_indices)[m := j]
      ensures written ==> Holding(s, flash, blocks[b], base[b], b, blocks[b].nr_pkts)
      ensures !written ==> |blocks[b].wbuf| == WBUF_SIZE && base[b] <= blocks[b].flash_offset < base[b] + dev.erasesize
    {
      hide BlockGeometry, Placed, SameOutside, Holding, PacketData, Append, Spill, Filled, Store, Total, Flushed;
      hide BlocksOk, Due;
      var eb := blocks[b];
      var m := eb.nr_pkts;
      HoldingShape(s, flash, eb, base[b], b, m, dev.erasesize);
      NotIn(eb.pkt_indices, m, j);
      TotalNext(blocks, k, b, m);
      total_pkts := total_pkts + 1;
      if eb.wbuf_ofs + PKT_SIZE < WBUF_SIZE {
        AppendHolds(s, flash, eb, base[b], b, m, j);
        var eb' := Append(Record(eb, m, j), data);
        BlocksUpdate(s, flash, blocks, base, b, eb');
        blocks := blocks[b := eb'];
        return true;
      }
      var w := Filled(eb, data);
      SpillHolds(s, flash, eb, base[b], b, m, j);
      ghost var f := flash;
      written := PWrite(eb.flash_offset, w);
      OthersIntact(s, f, flash, blocks, base, dev.erasesize, mtdoffset, b, eb.flash_offset, WBUF_SIZE);
      var eb' := if written then Spill(Record(eb, m, j), data) else Record(eb, m, j);
      BlocksUpdate(s, flash, blocks, base, b, eb');
      blocks := blocks[b := eb'];
    }

    /** Stores a packet; if the write fails the block starts over, with this packet as its first, where it can. */
    method Accept(b: nat, p: Packet, ghost s: Stream) returns (ok: bool)
      requires Valid(s) && b < |blocks| && blocks[b].nr_pkts < k
      requires p.hdr.pkt_nr < s.n && p.data == PacketData(s, b, p.hdr.pkt_nr) && p.hdr.block_crc == s.crcs[b]
      requires |blocks[b].pkt_indices| == k && p.hdr.pkt_nr !in Indices(blocks[b], k)
      modifies this`blocks, this`base, this`flash, this`total_pkts, this`mtdoffset, this`writes, this`erases
      ensures var failed := old(Due(blocks[b].nr_pkts) && dev.write_fails(writes));
        && (ok <==> !(failed && old(Hopeless(dev, erases, |blocks|))))
        && (ok ==> erases == old(erases) + (if failed then 1 else 0)
                   && writes == old(writes) + (if Due(old(blocks[b].nr_pkts)) then 1 else 0))
        && (ok ==> |blocks| == old(|blocks|) && |blocks[b].pkt_indices| == k
                   && Indices(blocks[b], k) == (if failed then [] else old(Indices(blocks[b], k))) + [p.hdr.pkt_nr])
      ensures ok ==> Valid(s) && |blocks| == old(|blocks|)
      ensures ok ==> forall c :: 0 <= c < |blocks| && c != b ==> blocks[c] == old(blocks[c])
      ensures ok ==> 1 <= blocks[b].nr_pkts <= k
    {
      hide BlockGeometry, Holding, PacketData, BlocksOk, ValidExcept, Total;
      ReadyFirst(s, b, p.hdr.pkt_nr);
      ghost var m := blocks[b].nr_pkts;
      var written := TryStore(b, p.hdr.pkt_nr, p.data, s);
      if !written {
        if dev.file_mode {
          return false;
        }
        var moved := Relocate(b, s);
        if !moved {
          return false;
        }
        ReadyFirst(s, b, p.hdr.pkt_nr);
        m := 0;
        written := TryStore(b, p.hdr.pkt_nr, p.data, s);
      }
      assert Indices(blocks[b], k) == blocks[b].pkt_indices[..m] + [p.hdr.pkt_nr];
      Finish(b, p.hdr.block_crc, s);
      return true;
    }

    lemma ReadyFirst(s: Stream, b: nat, j: nat)
      requires Valid(s) && b < |blocks| && blocks[b].nr_pkts < k && j < s.n
      requires |blocks[b].pkt_indices| == k && j !in Indices(blocks[b], k)
      ensures Ready(s, b, blocks[b].nr_pkts, j)
    {
      hide BlocksOk, Holding, Placed, BlockGeometry;
      BlocksSplit(s, flash, blocks, base, b);
    }

    /** A complete block remembers the CRC it must have. */
    method Finish(b: nat, crc: bv32, ghost s: Stream)
      requires b < |blocks| && ValidExcept(s, b) && blocks[b].nr_pkts <= k && crc == s.crcs[b]
      requires Holding(s, flash, blocks[b], base[b], b, blocks[b].nr_pkts)
      modifies this`blocks
      ensures Valid(s)
      ensures blocks == old(blocks)[b := old(blocks[b]).(crc := blocks[b].crc)]
    {
      hide BlockGeometry, Placed, Holding, Total, BlocksOk;
      if blocks[b].nr_pkts == k {
        HoldingCrc(s, flash, blocks[b], base[b], b, k, crc);
        TotalUpdate(blocks, k, b, blocks[b].(crc := crc));
        BlocksUpdate(s, flash, blocks, base, b, blocks[b].(crc := crc));
        blocks := blocks[b := blocks[b].(crc := crc)];
      } else {
        BlocksUpdate(s, flash, blocks, base, b, blocks[b]);
        assert blocks[b := blocks[b]] == blocks;
      }
    }

    ghost predicate AllComplete()
      reads this
    {
      Full(blocks, k)
    }

    ghost predicate Shaped()
      reads this
    {
      Shape(blocks, k)
    }

    /** Scans the recorded packets of a block. */
    method IsDuplicate(b: nat, j: nat) returns (dup: bool)
      requires b < |blocks| && |blocks[b].pkt_indices| == k
      ensures dup <==> j in Indices(blocks[b], k)
    {
      var i := 0;
      while i < Taken(blocks[b], k)
        invariant 0 <= i <= Taken(blocks[b], k)
        invariant j !in blocks[b].pkt_indices[..i]
      {
        if blocks[b].pkt_indices[i] == j {
          assert Indices(blocks[b], k)[i] == j;
          return true;
        }
        i := i + 1;
      }
      return false;
    }

    /** A packet for a block that is already complete is only counted. */
    method CountSurplus(b: nat, ghost s: Stream)
      requires Valid(s) && b < |blocks| && blocks[b].nr_pkts >= k && |blocks[b].pkt_indices| == k
      modifies this`blocks
      ensures Valid(s) && blocks == old(blocks)[b := old(blocks[b]).(nr_pkts := old(blocks[b].nr_pkts) + 1)]
      ensures !old(AllComplete()) ==> !AllComplete()
      ensures |blocks[b].pkt_indices| == k == |Indices(blocks[b], k)|
      ensures Indices(blocks[b], k) == old(Indices(blocks[b], k))
    {
      hide BlocksOk, BlockOk, Placed, BlockGeometry;
      BlocksSplit(s, flash, blocks, base, b);
      SurplusOk(s, flash, blocks[b], base[b], b);
      var eb := blocks[b].(nr_pkts := blocks[b].nr_pkts + 1);
      TotalUpdate(blocks, k, b, eb);
      BlocksUpdate(s, flash, blocks, base, b, eb);
      ghost var before := blocks;
      blocks := blocks[b := eb];
      assert forall c :: 0 <= c < |before| ==> (before[c].nr_pkts >= k <==> blocks[c].nr_pkts >= k);
    }

    /** The packet count tells whether all blocks are complete. */
    lemma ValidCount(s: Stream)
      requires Valid(s)
      ensures total_pkts == |blocks| * k <==> AllComplete()
      ensures ValidStream(s) && |blocks| == |s.sources| && s.k == k
    {
      hide BlocksOk, Placed, BlockGeometry;
      TotalFull(blocks, k);
    }

    /** How far the reception has got. */
    ghost function Got(): Progress
      requires Shaped()
      reads this
    {
      Progress(Lists(blocks, k), writes, erases)
    }

    /** One round of the receive loop, after the first packet has set up the blocks. */
    method Handle(p: Packet, ghost s: Stream) returns (status: Status)
      requires Valid(s) && Shaped() && Genuine(s, p)
      modifies this`blocks, this`base, this`flash, this`total_pkts, this`mtdoffset, this`writes, this`erases
      ensures status == Aborted <==> Foreign(p, image_crc, old(|blocks|)) || Step(dev, k, old(Got()), p).GivenUp?
      ensures p.hdr.totcrc != image_crc || p.hdr.block_nr >= old(|blocks|) ==> status == Aborted
      ensures status != Aborted ==> Valid(s) && |blocks| == old(|blocks|) && Shaped()
      ensures status != Aborted ==> Step(dev, k, old(Got()), p) == Going(Got())
      ensures status == Complete ==> AllComplete()
      ensures status == Receiving && !old(AllComplete()) ==> !AllComplete()
    {
      hide BlockGeometry, Placed, Holding, PacketData, BlocksOk, ValidExcept, Total, Indices, AllComplete, CrcOk;
      hide Due, Hopeless;
      ghost var before := blocks;
      GeometryOf(s);
      if image_crc != p.hdr.totcrc {
        return Aborted;
      }
      var b := p.hdr.block_nr;
      if b >= |blocks| {
        return Aborted;
      }
      var dup := IsDuplicate(b, p.hdr.pkt_nr);
      if dup {
        return Receiving;
      }
      IndicesCount(blocks[b], k);
      if blocks[b].nr_pkts >= k {
        CountSurplus(b, s);
        ListsSame(before, blocks, k);
        return Receiving;
      }
      var crc := Crc32.Compute(0xffffffff, p.data);
      CrcIs(p);
      if crc != p.hdr.thiscrc {
        return Receiving;
      }
      status := Take(b, p, s);
    }

    lemma GeometryOf(s: Stream)
      requires Valid(s)
      ensures dev.erasesize > 0
    {}

    /** Stores a new sound packet, and ends the loop with the last one. */
    method Take(b: nat, p: Packet, ghost s: Stream) returns (status: Status)
      requires Valid(s) && Shaped() && b == p.hdr.block_nr < |blocks| && blocks[b].nr_pkts < k
      requires p.hdr.pkt_nr < s.n && p.data == PacketData(s, b, p.hdr.pkt_nr) && p.hdr.block_crc == s.crcs[b]
      requires Wanted(Indices(blocks[b], k), p, k)
      modifies this`blocks, this`base, this`flash, this`total_pkts, this`mtdoffset, this`writes, this`erases
      ensures status == Aborted <==> Step(dev, k, old(Got()), p).GivenUp?
      ensures status != Aborted ==> Valid(s) && |blocks| == old(|blocks|) && Shaped()
      ensures status != Aborted ==> Step(dev, k, old(Got()), p) == Going(Got())
      ensures status == Complete ==> AllComplete()
      ensures status == Receiving ==> !AllComplete()
    {
      hide BlockGeometry, Holding, PacketData, BlocksOk, ValidExcept, Total, Indices, Due, Hopeless, CrcOk;
      ghost var before, g := blocks, Got();
      GeometryOf(s);
      IndicesCount(blocks[b], k);
      ValidCount(s);
      var ok := Accept(b, p, s);
      if !ok {
        return Aborted;
      }
      ListsUpdate(before, blocks, k, b);
      StepIs(dev, k, g, p, Got());
      ValidCount(s);
      if blocks[b].nr_pkts == k && total_pkts == |blocks| * k {
        return Complete;
      }
      return Receiving;
    }

    /** After setting up, no block has any packet. */
    lemma NothingYet(s: Stream)
      requires Valid(s) && forall b :: 0 <= b < |blocks| ==> blocks[b].nr_pkts == 0 && |blocks[b].pkt_indices| == k
      ensures Shaped() && !AllComplete() && Got() == Begin(|blocks|).(writes := writes, failed := erases)
    {
      hide BlocksOk, Placed;
      GeometryFacts(dev.erasesize, k);
      assert blocks[0].nr_pkts < k;
    }

    /**
      The whole receive loop, for every sequence of packets and every device: it ends as it does on
      values, with the packets recorded that are recorded there.
     */
    method Receive(input: seq<Packet>, ghost s: Stream) returns (status: Status, seen: nat)
      requires ValidStream(s) && s.k == k && BlockGeometry(dev.erasesize, k)
      requires forall i :: 0 <= i < |input| ==> Genuine(s, input[i])
      requires |input| > 0 ==> input[0].hdr.nr_blocks == |s.sources|
      requires Unused()
      modifies this
      ensures dev.erasesize > 0 && seen <= |input| && Ends(dev, k, input, seen, |s.sources|, status)
      ensures status != Aborted && |input| > 0 ==> input[0].hdr.blocksize == dev.erasesize
      ensures status != Aborted ==> forall i :: 0 <= i < seen ==>
        input[i].hdr.totcrc == input[0].hdr.totcrc && input[i].hdr.block_nr < |s.sources|
      ensures status == Complete ==> 0 < seen && Valid(s) && Shaped() && AllComplete()
      ensures status == Receiving && |input| > 0 ==> Valid(s) && Shaped() && !AllComplete()
      ensures status != Aborted && |input| > 0 ==> After(dev, k, input[..seen], |s.sources|) == Going(Got())
    {
      hide BlockGeometry, Genuine, BlocksOk, Placed, Total, Full, Room, EndOf, Place, NextGood, ValidExcept, Indices;
      hide Step, Done;
      GeometryFacts(dev.erasesize, k);
      ghost var nr := |s.sources|;
      seen := 0;
      status := Receiving;
      while seen < |input|
        invariant 0 <= seen <= |input| && status == Receiving
        invariant seen == 0 ==> Unused()
        invariant seen > 0 ==> Fits(dev, input, nr)
        invariant seen > 0 ==> Valid(s) && Shaped() && !AllComplete() && image_crc == input[0].hdr.totcrc
        invariant seen > 0 ==> After(dev, k, input[..seen], nr) == Going(Got())
        invariant Handled(dev, k, input, seen, nr)
        invariant forall i :: 0 <= i < seen ==>
          input[i].hdr.totcrc == input[0].hdr.totcrc && input[i].hdr.block_nr < nr
      {
        var p := input[seen];
        if seen == 0 {
          var ok := Start(p.hdr, s);
          if !ok {
            return Aborted, seen;
          }
          NothingYet(s);
          AfterNothing(dev, k, input, nr);
        }
        assert input[..seen + 1][..seen] == input[..seen];
        BlockCount(this, s);
        status := Handle(p, s);
        seen := seen + 1;
        if status == Aborted {
          return;
        }
        BlockCount(this, s);
        DoneIs(blocks, k, writes, erases);
        if status == Complete {
          return;
        }
      }
    }
  }

  lemma PlacedNowhere(e: nat, k: nat)
    requires BlockGeometry(e, k)
    ensures Placed([], e, 0) && e > 0
  {}

  lemma PlacedAligned(base: seq<nat>, e: nat, m: nat)
    requires Placed(base, e, m)
    ensures e > 0 && m % e == 0
  {}

  lemma PlacedAt(base: seq<nat>, e: nat, m: nat, b: nat)
    requires Placed(base, e, m) && b < |base|
    ensures e > 0 && base[b] % e == 0
  {}

  lemma EmptyBlockOk(s: Stream, f: Flash, eb: EraseBlock, base: nat, b: nat)
    requires ValidStream(s) && b < |s.sources|
    requires |eb.wbuf| == WBUF_SIZE && |eb.pkt_indices| == s.k && eb.flash_offset == base
    requires eb.wbuf_ofs == 0 && eb.nr_pkts == 0
    ensures BlockOk(s, f, eb, base, b)
  {
    HoldingNothing(s, f, eb, base, b);
  }

  lemma BlockCount(rx: Receiver, s: Stream)
    requires rx.Valid(s)
    ensures ValidStream(s) && |rx.blocks| == |s.sources|
  {}

  lemma GeometryFacts(e: nat, k: nat)
    requires BlockGeometry(e, k)
    ensures e > 0 && k >= 1
  {
    FlushedWithin(e, k, 0);
  }

  /** Before the last packet a whole buffer still fits. */
  lemma FlushRoom(e: nat, k: nat, m: nat)
    requires BlockGeometry(e, k) && m < k
    ensures Flushed(m) + WBUF_SIZE <= e
  {
    FlushedWithin(e, k, m);
    var q, q' := PKT_SIZE * m / WBUF_SIZE, e / WBUF_SIZE;
    assert WBUF_SIZE * q < WBUF_SIZE * q';
  }

  /** The write pointers of an incomplete block: the next flush stays inside its erase block. */
  lemma HoldingShape(s: Stream, f: Flash, eb: EraseBlock, base: nat, b: nat, m: nat, e: nat)
    requires ValidStream(s) && b < |s.sources| && Holding(s, f, eb, base, b, m) && m < s.k
    requires BlockGeometry(e, s.k)
    ensures |eb.wbuf| == WBUF_SIZE && |eb.pkt_indices| == s.k && eb.wbuf_ofs < WBUF_SIZE
    ensures Due(m) <==> eb.wbuf_ofs + PKT_SIZE >= WBUF_SIZE
    ensures base <= eb.flash_offset < base + e
    ensures eb.flash_offset + WBUF_SIZE <= base + e
  {
    hide BlockGeometry, Flushed, Pending, HoldsBytes, ValidPrefix, Stored;
    FlushRoom(e, s.k, m);
    PositionsSum(m);
  }

  lemma NotIn(indices: seq<nat>, m: nat, j: nat)
    requires m <= |indices| && j !in indices[..m]
    ensures forall i :: 0 <= i < m ==> indices[i] != j
  {
    forall i | 0 <= i < m
      ensures indices[i] != j
    {
      assert indices[..m][i] == indices[i];
    }
  }

  /** Whatever happens to the data, recording the packet counts one more. */
  lemma TotalNext(blocks: seq<EraseBlock>, k: nat, b: nat, m: nat)
    requires b < |blocks| && m < k && blocks[b].nr_pkts == m
    ensures forall eb: EraseBlock :: eb.nr_pkts == m + 1 ==> Total(blocks[b := eb], k) == Total(blocks, k) + 1
  {
    forall eb: EraseBlock | eb.nr_pkts == m + 1
      ensures Total(blocks[b := eb], k) == Total(blocks, k) + 1
    {
      TotalUpdate(blocks, k, b, eb);
    }
  }

  lemma HoldingCrc(s: Stream, f: Flash, eb: EraseBlock, base: nat, b: nat, m: nat, crc: bv32)
    requires ValidStream(s) && b < |s.sources| && Holding(s, f, eb, base, b, m)
    ensures Holding(s, f, eb.(crc := crc), base, b, m)
  {}

  lemma SurplusOk(s: Stream, f: Flash, eb: EraseBlock, base: nat, b: nat)
    requires ValidStream(s) && b < |s.sources| && BlockOk(s, f, eb, base, b) && eb.nr_pkts >= s.k
    ensures BlockOk(s, f, eb.(nr_pkts := eb.nr_pkts + 1), base, b)
  {}
}
