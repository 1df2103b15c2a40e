/**
  The packets of the multicast image protocol and the state of one erase block at the
  receiver (mcast_image.h, recv_image.c).
 */
module Multicast {
  import opened Sequences
  import opened Galois
  import opened LinearAlgebra
  import opened FecCode
  import Crc32

  const PKT_SIZE: nat := 2820
  const WBUF_SIZE: nat := 4096

  datatype Header = Header(totcrc: bv32, nr_blocks: nat, blocksize: nat, block_crc: bv32,
                           block_nr: nat, pkt_nr: nat, nr_pkts: nat, thiscrc: bv32)

  datatype Packet = Packet(hdr: Header, data: seq<gf>)

  /**
    What is being sent: k data packets out of n per block, the k source packets of every
    block, the CRC of every block and the CRC of the image.
   */
  datatype Stream = Stream(k: nat, n: nat, sources: seq<Mat>, crcs: seq<bv32>, totcrc: bv32)

  ghost predicate ValidStream(s: Stream) {
    && 1 <= s.k <= s.n <= GF_SIZE + 1
    && |s.sources| == |s.crcs| >= 1
    && forall b :: 0 <= b < |s.sources| ==> IsMat(s.sources[b], s.k, PKT_SIZE)
  }

  ghost function PacketData(s: Stream, b: nat, j: nat): (d: Vec)
    requires ValidStream(s) && b < |s.sources| && j < s.n
    ensures |d| == PKT_SIZE
  {
    Encoded(s.k, s.n, s.sources[b], PKT_SIZE, j)
  }

  /** A packet whose data passes its CRC was sent by the server; any other packet is arbitrary. */
  ghost predicate Genuine(s: Stream, p: Packet)
    requires ValidStream(s)
  {
    && |p.data| == PKT_SIZE
    && (Crc32.Crc(0xffffffff, p.data) == p.hdr.thiscrc ==>
          && p.hdr.block_nr < |s.sources|
          && p.hdr.pkt_nr < s.n
          && p.data == PacketData(s, p.hdr.block_nr, p.hdr.pkt_nr)
          && p.hdr.block_crc == s.crcs[p.hdr.block_nr])
  }

  // ----- one erase block -----

  datatype EraseBlock = EraseBlock(flash_offset: nat, wbuf: seq<gf>, wbuf_ofs: nat, nr_pkts: nat,
                                   pkt_indices: seq<nat>, crc: bv32)

  type Flash = map<nat, gf>

  predicate Written(f: Flash, ofs: nat, len: nat) {
    forall i :: ofs <= i < ofs + len ==> i in f
  }

  function Read(f: Flash, ofs: nat, len: nat): (d: seq<gf>)
    requires Written(f, ofs, len)
    ensures |d| == len && forall i :: 0 <= i < len ==> d[i] == f[ofs + i]
  {
    seq(len, i requires 0 <= i < len => f[ofs + i])
  }

  /** The flash after storing d at ofs. */
  function Store(f: Flash, ofs: nat, d: seq<gf>): (f': Flash)
    ensures forall i: nat :: i in f' <==> i in f || ofs <= i < ofs + |d|
    ensures forall i :: i in f' ==> f'[i] == if ofs <= i < ofs + |d| then d[i - ofs] else f[i]
  {
    f + map i: nat | ofs <= i < ofs + |d| && Within(i, ofs, |d|) :: d[i - ofs]
  }

  predicate Within(i: nat, ofs: nat, len: nat) {
    ofs <= i < ofs + len
  }

  /** Outside the len bytes at ofs the two devices agree. */
  ghost predicate SameOutside(f: Flash, f': Flash, ofs: nat, len: nat) {
    forall i: nat :: !(ofs <= i < ofs + len) ==> (i in f <==> i in f') && (i in f ==> f'[i] == f[i])
  }

  /** The data of the packets with the given indices, one after another. */
  ghost function Stored(s: Stream, b: nat, indices: seq<nat>): (d: seq<gf>)
    requires ValidStream(s) && b < |s.sources| && forall i :: 0 <= i < |indices| ==> indices[i] < s.n
    ensures |d| == PKT_SIZE * |indices|
  {
    if |indices| == 0 then []
    else
      var n := |indices| - 1;
      Stored(s, b, indices[..n]) + PacketData(s, b, indices[n])
  }

  /** Packets that count: those after the k-th are only counted as surplus. */
  function Taken(eb: EraseBlock, k: nat): nat {
    if eb.nr_pkts < k then eb.nr_pkts else k
  }

  function Flushed(m: nat): nat { WBUF_SIZE * (PKT_SIZE * m / WBUF_SIZE) }

  function Pending(m: nat): nat { PKT_SIZE * m % WBUF_SIZE }

  /** The positions of the write pointers after m packets. */
  predicate Positions(eb: EraseBlock, base: nat, m: nat) {
    eb.flash_offset == base + Flushed(m) && eb.wbuf_ofs == Pending(m)
  }

  /** The bytes received so far: those on flash, then those in the write buffer. */
  ghost predicate Holding(s: Stream, f: Flash, eb: EraseBlock, base: nat, b: nat, m: nat)
    requires ValidStream(s) && b < |s.sources|
  {
    && Counters(s, eb, base, m)
    && HoldsBytes(f, base, Flushed(m), eb.wbuf[..Pending(m)], Stored(s, b, eb.pkt_indices[..m]))
  }

  ghost predicate Counters(s: Stream, eb: EraseBlock, base: nat, m: nat) {
    && |eb.wbuf| == WBUF_SIZE && |eb.pkt_indices| == s.k
    && m <= s.k && Positions(eb, base, m)
    && ValidPrefix(eb.pkt_indices, m, s.n)
  }

  /** len bytes at base, followed by tail, are d. */
  ghost predicate HoldsBytes(f: Flash, base: nat, len: nat, tail: seq<gf>, d: seq<gf>) {
    Written(f, base, len) && Read(f, base, len) + tail == d
  }

  ghost predicate ValidPrefix(indices: seq<nat>, m: nat, n: nat)
    requires m <= |indices|
  {
    Distinct(indices[..m]) && forall i :: 0 <= i < m ==> indices[i] < n
  }

  ghost predicate BlockOk(s: Stream, f: Flash, eb: EraseBlock, base: nat, b: nat)
    requires ValidStream(s) && b < |s.sources|
  {
    && Holding(s, f, eb, base, b, Taken(eb, s.k))
    && (eb.nr_pkts >= s.k ==> eb.crc == s.crcs[b])
  }

  // ----- arithmetic of the write buffer -----

  lemma PositionsSum(m: nat)
    ensures Flushed(m) + Pending(m) == PKT_SIZE * m && Pending(m) < WBUF_SIZE
    ensures Flushed(0) == 0 && Pending(0) == 0
  {}

  lemma PositionsNext(m: nat)
    ensures Pending(m) + PKT_SIZE < WBUF_SIZE ==>
      Flushed(m + 1) == Flushed(m) && Pending(m + 1) == Pending(m) + PKT_SIZE
    ensures Pending(m) + PKT_SIZE >= WBUF_SIZE ==>
      Flushed(m + 1) == Flushed(m) + WBUF_SIZE && Pending(m + 1) == Pending(m) + PKT_SIZE - WBUF_SIZE
  {}

  /** k is the number of packets needed to hold an erase block, and whole buffers fill a block. */
  predicate BlockGeometry(erasesize: nat, k: nat) {
    erasesize > 0 && erasesize % WBUF_SIZE == 0 && k == (erasesize + PKT_SIZE - 1) / PKT_SIZE
  }

  /** Until the last packet there is still room to flush; with it exactly erasesize bytes are on flash. */
  lemma FlushedWithin(erasesize: nat, k: nat, m: nat)
    requires BlockGeometry(erasesize, k) && m <= k
    ensures Flushed(m) <= erasesize
    ensures m < k ==> Flushed(m) < erasesize
    ensures m == k ==> Flushed(m) == erasesize
    ensures k >= 1 && PKT_SIZE * k >= erasesize
  {
    var e := erasesize / WBUF_SIZE;
    assert erasesize == WBUF_SIZE * e;
    assert erasesize <= PKT_SIZE * k < erasesize + PKT_SIZE;
    if m < k {
      assert PKT_SIZE * m <= PKT_SIZE * (k - 1) < erasesize;
    }
  }

  // ----- what a step does to a block -----

  lemma StoredNext(s: Stream, b: nat, indices: seq<nat>, j: nat)
    requires ValidStream(s) && b < |s.sources| && j < s.n && forall i :: 0 <= i < |indices| ==> indices[i] < s.n
    ensures Stored(s, b, indices + [j]) == Stored(s, b, indices) + PacketData(s, b, j)
  {
    hide PacketData;
    assert (indices + [j])[..|indices|] == indices;
  }

  /** The block after recording index j as packet number m. */
  function Record(eb: EraseBlock, m: nat, j: nat): EraseBlock
    requires m < |eb.pkt_indices|
  {
    eb.(pkt_indices := eb.pkt_indices[m := j], nr_pkts := m + 1)
  }

  function Overwrite(w: seq<gf>, ofs: nat, d: seq<gf>): (w': seq<gf>)
    requires ofs + |d| <= |w|
    ensures |w'| == |w|
  {
    w[..ofs] + d + w[ofs + |d|..]
  }

  /** A new packet that does not fill the write buffer. */
  function Append(eb: EraseBlock, d: seq<gf>): (eb': EraseBlock)
    requires eb.wbuf_ofs + |d| <= |eb.wbuf|
    ensures eb'.nr_pkts == eb.nr_pkts && eb'.pkt_indices == eb.pkt_indices
  {
    eb.(wbuf := Overwrite(eb.wbuf, eb.wbuf_ofs, d), wbuf_ofs := eb.wbuf_ofs + |d|)
  }

  /** The write buffer, filled up with the head of the packet. */
  function Filled(eb: EraseBlock, d: seq<gf>): (w: seq<gf>)
    requires |eb.wbuf| == WBUF_SIZE && eb.wbuf_ofs <= WBUF_SIZE <= eb.wbuf_ofs + |d|
    ensures |w| == WBUF_SIZE
  {
    eb.wbuf[..eb.wbuf_ofs] + d[..WBUF_SIZE - eb.wbuf_ofs]
  }

  /** The block once that buffer is on flash: the rest of the packet starts the next buffer. */
  function Spill(eb: EraseBlock, d: seq<gf>): (eb': EraseBlock)
    requires |eb.wbuf| == WBUF_SIZE && eb.wbuf_ofs <= WBUF_SIZE <= eb.wbuf_ofs + |d| && |d| <= WBUF_SIZE
    ensures eb'.nr_pkts == eb.nr_pkts && eb'.pkt_indices == eb.pkt_indices
  {
    var fits := WBUF_SIZE - eb.wbuf_ofs;
    eb.(wbuf := Overwrite(Filled(eb, d), 0, d[fits..]),
        flash_offset := eb.flash_offset + WBUF_SIZE, wbuf_ofs := |d| - fits)
  }

  lemma PrefixExtend(indices: seq<nat>, m: nat, n: nat, j: nat)
    requires m < |indices| && ValidPrefix(indices, m, n) && j < n
    requires forall i :: 0 <= i < m ==> indices[i] != j
    ensures ValidPrefix(indices[m := j], m + 1, n)
    ensures indices[m := j][..m + 1] == indices[..m] + [j]
  {
    var s := indices[m := j][..m + 1];
    assert s == indices[..m] + [j];
    forall p, q | 0 <= p < q < |s|
      ensures s[p] != s[q]
    {
      if q < m { assert indices[..m][p] != indices[..m][q]; }
    }
  }

  lemma AppendHolds(s: Stream, f: Flash, eb: EraseBlock, base: nat, b: nat, m: nat, j: nat)
    requires ValidStream(s) && b < |s.sources| && j < s.n && m < s.k
    requires Holding(s, f, eb, base, b, m) && forall i :: 0 <= i < m ==> eb.pkt_indices[i] != j
    requires eb.wbuf_ofs + PKT_SIZE < WBUF_SIZE
    ensures Holding(s, f, Append(Record(eb, m, j), PacketData(s, b, j)), base, b, m + 1)
  {
    hide PacketData, Flushed, Pending, ValidPrefix, Stored, Distinct;
    var d := PacketData(s, b, j);
    var eb' := Append(Record(eb, m, j), d);
    PositionsNext(m);
    PrefixExtend(eb.pkt_indices, m, s.n, j);
    StoredPrefix(s, eb.pkt_indices, m);
    StoredNext(s, b, eb.pkt_indices[..m], j);
    assert eb'.wbuf[..Pending(m + 1)] == eb.wbuf[..Pending(m)] + d;
    assert Read(f, base, Flushed(m)) + eb'.wbuf[..Pending(m + 1)]
        == Read(f, base, Flushed(m)) + eb.wbuf[..Pending(m)] + d;
  }

  lemma StoredPrefix(s: Stream, indices: seq<nat>, m: nat)
    requires m <= |indices| && ValidPrefix(indices, m, s.n)
    ensures forall i :: 0 <= i < |indices[..m]| ==> indices[..m][i] < s.n
  {}

  lemma ReadStore(f: Flash, base: nat, len: nat, w: seq<gf>)
    requires Written(f, base, len)
    ensures Written(Store(f, base + len, w), base, len + |w|)
    ensures Read(Store(f, base + len, w), base, len + |w|) == Read(f, base, len) + w
  {
    hide Store;
    var f' := Store(f, base + len, w);
    assert Written(f', base, len + |w|);
    var l, r := Read(f', base, len + |w|), Read(f, base, len) + w;
    forall i | 0 <= i < len + |w|
      ensures l[i] == r[i]
    {}
  }

  lemma SpillBytes(f: Flash, base: nat, len: nat, tail: seq<gf>, d: seq<gf>, fits: nat, all: seq<gf>)
    requires HoldsBytes(f, base, len, tail, all) && fits <= |d|
    ensures HoldsBytes(Store(f, base + len, tail + d[..fits]), base, len + |tail| + fits, d[fits..], all + d)
  {
    hide Store, Read, Written;
    ReadStore(f, base, len, tail + d[..fits]);
    var o := Read(f, base, len);
    assert o + (tail + d[..fits]) + d[fits..] == (o + tail) + d;
  }

  lemma SpillHolds(s: Stream, f: Flash, eb: EraseBlock, base: nat, b: nat, m: nat, j: nat)
    requires ValidStream(s) && b < |s.sources| && j < s.n && m < s.k
    requires Holding(s, f, eb, base, b, m) && forall i :: 0 <= i < m ==> eb.pkt_indices[i] != j
    requires eb.wbuf_ofs <= WBUF_SIZE <= eb.wbuf_ofs + PKT_SIZE
    ensures var d := PacketData(s, b, j);
      Holding(s, Store(f, eb.flash_offset, Filled(eb, d)), Spill(Record(eb, m, j), d), base, b, m + 1)
  {
    hide PacketData, Flushed, Pending, ValidPrefix, Stored, Distinct, Store, HoldsBytes;
    var d := PacketData(s, b, j);
    var eb' := Spill(Record(eb, m, j), d);
    var fits := WBUF_SIZE - eb.wbuf_ofs;
    PositionsSum(m);
    PositionsNext(m);
    PrefixExtend(eb.pkt_indices, m, s.n, j);
    StoredPrefix(s, eb.pkt_indices, m);
    StoredNext(s, b, eb.pkt_indices[..m], j);
    SpillBytes(f, base, Flushed(m), eb.wbuf[..Pending(m)], d, fits, Stored(s, b, eb.pkt_indices[..m]));
    assert eb'.wbuf[..Pending(m + 1)] == d[fits..];
  }

  /** Changes elsewhere on the flash do not concern a block. */
  lemma HoldingElsewhere(s: Stream, f: Flash, f': Flash, eb: EraseBlock, base: nat, b: nat, m: nat, ofs: nat,
                         len: nat, erasesize: nat)
    requires ValidStream(s) && b < |s.sources| && Holding(s, f, eb, base, b, m)
    requires SameOutside(f, f', ofs, len) && Flushed(m) <= erasesize
    requires ofs + len <= base || base + erasesize <= ofs
    ensures Holding(s, f', eb, base, b, m)
  {
    hide Flushed, Pending, ValidPrefix, Stored;
    assert Read(f, base, Flushed(m)) == Read(f', base, Flushed(m));
  }

  lemma HoldingNothing(s: Stream, f: Flash, eb: EraseBlock, base: nat, b: nat)
    requires ValidStream(s) && b < |s.sources|
    requires |eb.wbuf| == WBUF_SIZE && |eb.pkt_indices| == s.k && eb.flash_offset == base && eb.wbuf_ofs == 0
    ensures Holding(s, f, eb, base, b, 0)
  {
    PositionsSum(0);
  }
}
