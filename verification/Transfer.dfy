/**
  Both ends of the transfer: serve_image.c cutting an image into packets, and the second
  phase of recv_image.c putting the blocks back together.
 */
module Transfer {
  import opened Sequences
  import opened Galois
  import opened GaloisTables
  import opened LinearAlgebra
  import opened FecCode
  import opened Multicast
  import opened Fec
  import opened FlashDevice
  import opened Reception
  import opened Receiver
  import Crc32

  // ----- bytes and packets -----

  /** The rows of a matrix, one after another. */
  function Flatten(m: Mat): seq<gf> {
    if |m| == 0 then [] else Flatten(m[..|m| - 1]) + m[|m| - 1]
  }

  lemma {:induction false} FlattenSlices(buf: seq<gf>, k: nat)
    requires k * PKT_SIZE <= |buf|
    ensures Flatten(Slices(buf, k, PKT_SIZE)) == buf[..k * PKT_SIZE]
  {
    if k > 0 {
      FlattenSlices(buf, k - 1);
      var m := Slices(buf, k, PKT_SIZE);
      assert m[..k - 1] == Slices(buf, k - 1, PKT_SIZE);
    }
  }

  /** The i-th packet within the stored bytes. */
  lemma {:induction false} StoredSlice(s: Stream, b: nat, indices: seq<nat>, i: nat)
    requires ValidStream(s) && b < |s.sources| && i < |indices|
    requires forall j :: 0 <= j < |indices| ==> indices[j] < s.n
    ensures Stored(s, b, indices)[PKT_SIZE * i..PKT_SIZE * i + PKT_SIZE] == PacketData(s, b, indices[i])
  {
    hide PacketData;
    var n := |indices| - 1;
    if i < n {
      StoredSlice(s, b, indices[..n], i);
    }
  }

  // ----- reassembly -----

  /** With all k packets, exactly an erase block is on flash and the rest in the write buffer. */
  lemma CompleteBytes(s: Stream, f: Flash, eb: EraseBlock, base: nat, b: nat, e: nat)
    requires ValidStream(s) && b < |s.sources| && BlockGeometry(e, s.k) && Holding(s, f, eb, base, b, s.k)
    ensures |eb.pkt_indices| == s.k && ValidIndices(eb.pkt_indices, s.n)
    ensures eb.flash_offset == base + e && Written(f, base, e) && eb.wbuf_ofs <= |eb.wbuf|
    ensures Read(f, base, e) + eb.wbuf[..eb.wbuf_ofs] == Stored(s, b, eb.pkt_indices)
  {
    hide Stored, Distinct, BlockGeometry, Read, Written, Flushed, Pending;
    FlushedWithin(e, s.k, s.k);
    PositionsSum(s.k);
    assert eb.pkt_indices[..s.k] == eb.pkt_indices;
  }

  /** Reads the packets of a complete block back from flash and write buffer. */
  method ReadBack(rx: Receiver, b: nat, ghost s: Stream) returns (eb_buf: seq<gf>)
    requires rx.Valid(s) && b < |rx.blocks| && rx.blocks[b].nr_pkts >= rx.k
    ensures |rx.blocks[b].pkt_indices| == rx.k && ValidIndices(rx.blocks[b].pkt_indices, s.n)
    ensures eb_buf == Stored(s, b, rx.blocks[b].pkt_indices)
  {
    hide Stored, BlocksOk, Placed, Holding, BlockGeometry, ValidIndices, Read, Written;
    var eb := rx.blocks[b];
    BlocksSplit(s, rx.flash, rx.blocks, rx.base, b);
    CompleteBytes(s, rx.flash, eb, rx.base[b], b, rx.dev.erasesize);
    eb_buf := Read(rx.flash, eb.flash_offset - rx.dev.erasesize, rx.dev.erasesize) + eb.wbuf[..eb.wbuf_ofs];
  }

  /** Cuts a buffer into separate packets. */
  method CutPackets(eb_buf: seq<gf>, k: nat) returns (bufs: seq<array<gf>>)
    requires |eb_buf| == PKT_SIZE * k
    ensures |bufs| == k && Sized(bufs, PKT_SIZE) && Distinct(bufs)
    ensures forall i :: 0 <= i < k ==> fresh(bufs[i]) && bufs[i][..] == eb_buf[PKT_SIZE * i..PKT_SIZE * i + PKT_SIZE]
  {
    bufs := [];
    var i := 0;
    while i < k
      invariant 0 <= i <= k && |bufs| == i && Sized(bufs, PKT_SIZE) && Distinct(bufs)
      invariant forall j :: 0 <= j < i ==>
        fresh(bufs[j]) && bufs[j][..] == eb_buf[PKT_SIZE * j..PKT_SIZE * j + PKT_SIZE]
    {
      var p := new gf[PKT_SIZE](j requires 0 <= j < PKT_SIZE => eb_buf[PKT_SIZE * i + j]);
      assert p[..] == eb_buf[PKT_SIZE * i..PKT_SIZE * i + PKT_SIZE];
      bufs := bufs + [p];
      i := i + 1;
    }
  }

  /** The decoded packets, one after another. */
  method JoinPackets(bufs: seq<array<gf>>) returns (d: seq<gf>)
    requires Sized(bufs, PKT_SIZE)
    ensures d == Flatten(Contents(bufs, PKT_SIZE))
  {
    d := [];
    ghost var m := Contents(bufs, PKT_SIZE);
    var i := 0;
    while i < |bufs|
      invariant 0 <= i <= |bufs|
      invariant d == Flatten(m[..i])
    {
      assert m[..i + 1][..i] == m[..i];
      d := d + bufs[i][..];
      i := i + 1;
    }
    assert m[..|bufs|] == m;
  }

  /** Decodes packets that encode a source. */
  method DecodePackets(t: Tables, code: FecParms, eb_buf: seq<gf>, indices: seq<nat>, ghost source: Mat)
    returns (error: nat, decode_buf: seq<gf>)
    requires GaloisTables.Valid(t) && code.Valid() && |indices| == code.k && |eb_buf| == PKT_SIZE * code.k
    requires IsMat(source, code.k, PKT_SIZE) && ValidIndices(indices, code.n)
    requires forall i :: 0 <= i < code.k ==>
      eb_buf[PKT_SIZE * i..PKT_SIZE * i + PKT_SIZE] == Encoded(code.k, code.n, source, PKT_SIZE, indices[i])
    ensures error == 0 && decode_buf == Flatten(source)
  {
    hide GaloisTables.Valid, EncMatrix, Encoded, Contents, Flatten, Distinct;
    var k := code.k;
    var bufs := CutPackets(eb_buf, k);
    var pkt := new array<gf>[k](i requires 0 <= i < k => bufs[i]);
    var index := new nat[k](i requires 0 <= i < k => indices[i]);
    assert pkt[..] == bufs && index[..] == indices;
    ghost var received := Contents(bufs, PKT_SIZE);
    assert Encodings(k, code.n, source, PKT_SIZE, indices, received);
    error := FecDecode(t, code, pkt, index, PKT_SIZE);
    assert Contents(pkt[..], PKT_SIZE) == source;
    decode_buf := JoinPackets(pkt[..]);
  }

  /** Decodes one complete block: decoding never fails and yields the server's packets. */
  method DecodeBlock(t: Tables, code: FecParms, rx: Receiver, b: nat, ghost s: Stream)
    returns (error: nat, decode_buf: seq<gf>)
    requires GaloisTables.Valid(t) && code.Valid() && code.k == rx.k && code.n == s.n
    requires rx.Valid(s) && b < |rx.blocks| && rx.blocks[b].nr_pkts >= rx.k
    ensures error == 0 && decode_buf == Flatten(s.sources[b])
  {
    hide GaloisTables.Valid, BlocksOk, Placed, BlockGeometry, Stored, EncMatrix, Encoded, Flatten, Distinct;
    var eb_buf := ReadBack(rx, b, s);
    var indices := rx.blocks[b].pkt_indices;
    forall i | 0 <= i < rx.k
      ensures eb_buf[PKT_SIZE * i..PKT_SIZE * i + PKT_SIZE] == Encoded(rx.k, s.n, s.sources[b], PKT_SIZE, indices[i])
    {
      StoredSlice(s, b, indices, i);
    }
    error, decode_buf := DecodePackets(t, code, eb_buf, indices, s.sources[b]);
  }

  // ----- the server -----

  /** nr whole erase blocks, to be sent as k data packets and n packets in all per block. */
  datatype Image = Image(bytes: seq<gf>, erasesize: nat, k: nat, n: nat, nr: nat)

  ghost predicate ValidImage(img: Image) {
    && img.erasesize > 0 && img.k == PacketsPerBlock(img.erasesize) && img.n <= GF_SIZE + 1 && img.k <= img.n
    && img.nr >= 1 && |img.bytes| == img.erasesize * img.nr
  }

  function PacketsPerBlock(erasesize: nat): nat { (erasesize + PKT_SIZE - 1) / PKT_SIZE }

  lemma BlockBounds(e: nat, b: nat, nr: nat)
    requires b < nr
    ensures e * b + e <= e * nr
    ensures b + 1 < nr ==> e * b + e + e <= e * nr
  {
    MulGap(e, b, nr);
    if b + 1 < nr {
      MulGap(e, b + 1, nr);
      assert e * (b + 1) == e * b + e;
    }
  }

  /** The packets of a block take less than one packet more than the block itself. */
  lemma PacketBytes(e: nat, k: nat)
    requires e > 0 && k == PacketsPerBlock(e)
    ensures e <= k * PKT_SIZE < e + PKT_SIZE && k >= 1
    ensures PKT_SIZE <= 2 * e ==> k * PKT_SIZE <= e + e
  {}

  /** Block b of the image. */
  ghost function ImageBlock(img: Image, b: nat): (d: seq<gf>)
    requires ValidImage(img) && b < img.nr
    ensures |d| == img.erasesize
  {
    BlockBounds(img.erasesize, b, img.nr);
    img.bytes[img.erasesize * b..img.erasesize * b + img.erasesize]
  }

  /** The first len bytes, with zeros where there are none. */
  ghost function Padded(bytes: seq<gf>, len: nat): (d: seq<gf>)
    ensures |d| == len
  {
    if len <= |bytes| then bytes[..len] else bytes + Zeros(len - |bytes|)
  }

  /**
    The bytes the packets of block b are cut from: they run on into the next block, and into zeros
    behind the image.
   */
  ghost function SourceBytes(img: Image, b: nat): (d: seq<gf>)
    requires ValidImage(img) && b < img.nr
    ensures |d| == img.k * PKT_SIZE >= img.erasesize && d[..img.erasesize] == ImageBlock(img, b)
  {
    BlockBounds(img.erasesize, b, img.nr);
    PacketBytes(img.erasesize, img.k);
    Padded(img.bytes[img.erasesize * b..], img.k * PKT_SIZE)
  }

  /** Encoding block b does not read behind the image; the last block has a padded copy of its own. */
  predicate Inside(img: Image, b: nat) {
    b + 1 >= img.nr || img.erasesize * b + img.k * PKT_SIZE <= |img.bytes|
  }

  /** Blocks of at least half a packet are enough for that. */
  lemma HalfPacketInside(img: Image, b: nat)
    requires ValidImage(img) && b < img.nr && PKT_SIZE <= 2 * img.erasesize
    ensures Inside(img, b)
  {
    BlockBounds(img.erasesize, b, img.nr);
    PacketBytes(img.erasesize, img.k);
  }

  ghost function SourcePackets(img: Image, b: nat): (m: Mat)
    requires ValidImage(img) && b < img.nr
    ensures IsMat(m, img.k, PKT_SIZE)
  {
    Slices(SourceBytes(img, b), img.k, PKT_SIZE)
  }

  ghost function BlockCrc(img: Image, b: nat): bv32
    requires ValidImage(img) && b < img.nr
  {
    Crc32.Crc(0xffffffff, ImageBlock(img, b))
  }

  /** What the server sends for the image. */
  ghost function StreamOf(img: Image): (s: Stream)
    requires ValidImage(img)
    ensures ValidStream(s) && s.k == img.k && s.n == img.n && |s.sources| == img.nr
  {
    PacketBytes(img.erasesize, img.k);
    Stream(img.k, img.n,
      seq(img.nr, b requires 0 <= b < img.nr => SourcePackets(img, b)),
      seq(img.nr, b requires 0 <= b < img.nr => BlockCrc(img, b)),
      Crc32.Crc(0xffffffff, img.bytes))
  }

  /** The first erasesize bytes of the packets of a block are the block. */
  lemma SourceIsBlock(img: Image, b: nat)
    requires ValidImage(img) && b < img.nr
    ensures var d := Flatten(StreamOf(img).sources[b]);
      |d| >= img.erasesize && d[..img.erasesize] == ImageBlock(img, b)
  {
    hide ValidImage, SourceBytes, ImageBlock;
    var buf := SourceBytes(img, b);
    FlattenSlices(buf, img.k);
    assert buf[..img.k * PKT_SIZE] == buf;
  }

  /** Odd blocks are sent from the first packet up, even ones from the last packet down. */
  function ActualPkt(block_nr: nat, pkt_nr: nat, total: nat): (j: nat)
    requires pkt_nr < total
    ensures j < total
  {
    if block_nr % 2 == 1 then pkt_nr else total - 1 - pkt_nr
  }

  /** Packet j of block b, as the server sends it. */
  ghost predicate Sent(img: Image, p: Packet, b: nat, j: nat)
    requires ValidImage(img)
  {
    && b < img.nr && j < img.n
    && p.data == PacketData(StreamOf(img), b, j) && CrcOk(p)
    && p.hdr.block_nr == b && p.hdr.pkt_nr == j && p.hdr.block_crc == BlockCrc(img, b)
    && p.hdr.totcrc == StreamOf(img).totcrc && p.hdr.nr_blocks == img.nr
    && p.hdr.blocksize == img.erasesize && p.hdr.nr_pkts == img.n
  }

  lemma SentIsGenuine(img: Image, p: Packet, b: nat, j: nat)
    requires ValidImage(img) && Sent(img, p, b, j)
    ensures Genuine(StreamOf(img), p)
  {
    hide ValidImage, BlockCrc, SourcePackets, PacketData;
  }

  class Server {
    const k: nat
    const n: nat
    const nr_blocks: nat
    const erasesize: nat
    const image: array<gf>
    const last_block: array<gf>
    const block_crcs: seq<bv32>
    const totcrc: bv32
    const code: FecParms

    constructor (code: FecParms, nr_blocks: nat, erasesize: nat, image: array<gf>, last_block: array<gf>,
                 block_crcs: seq<bv32>, totcrc: bv32)
      ensures this.k == code.k && this.n == code.n && this.nr_blocks == nr_blocks && this.erasesize == erasesize
      ensures this.image == image && this.last_block == last_block && this.block_crcs == block_crcs
      ensures this.totcrc == totcrc && this.code == code
    {
      this.k, this.n, this.nr_blocks, this.erasesize := code.k, code.n, nr_blocks, erasesize;
      this.image, this.last_block := image, last_block;
      this.block_crcs, this.totcrc, this.code := block_crcs, totcrc, code;
    }

    ghost predicate Valid(img: Image)
      reads image, last_block, code.enc_matrix
    {
      && ValidImage(img) && img == Image(image[..], erasesize, k, n, nr_blocks)
      && last_block[..] == SourceBytes(img, nr_blocks - 1)
      && |block_crcs| == nr_blocks && (forall b :: 0 <= b < nr_blocks ==> block_crcs[b] == BlockCrc(img, b))
      && totcrc == Crc32.Crc(0xffffffff, image[..])
      && code.Valid() && code.k == k && code.n == n
    }

    /** Builds and sends packet number pkt_nr of the cycle for one block. */
    method SendPacket(t: Tables, block_nr: nat, pkt_nr: nat, ghost img: Image) returns (p: Packet)
      requires GaloisTables.Valid(t) && Valid(img) && block_nr < nr_blocks && pkt_nr < n && Inside(img, block_nr)
      ensures Sent(img, p, block_nr, ActualPkt(block_nr, pkt_nr, n))
      ensures p.hdr.block_nr == block_nr && p.hdr.pkt_nr == if block_nr % 2 == 1 then pkt_nr else n - 1 - pkt_nr
    {
      hide GaloisTables.Valid, EncMatrix, Slices, ValidImage, SourceBytes, BlockCrc, ImageBlock;
      var actualpkt := ActualPkt(block_nr, pkt_nr, n);
      var fec := new gf[PKT_SIZE];
      ghost var buf := SourceBytes(img, block_nr);
      if block_nr == nr_blocks - 1 {
        assert last_block[0..] == last_block[..] == buf;
        FecEncodeLinear(t, code, last_block, 0, fec, actualpkt);
      } else {
        var ofs := erasesize * block_nr;
        RunsOn(img, block_nr);
        FecEncodeLinear(t, code, image, ofs, fec, actualpkt);
        SlicesPrefix(image[ofs..], buf, k);
      }
      var data := fec[..];
      var thiscrc := Crc32.Compute(0xffffffff, data);
      p := Packet(Header(totcrc, nr_blocks, erasesize, block_crcs[block_nr], block_nr, actualpkt, n, thiscrc), data);
    }
  }

  /** What is in a packet, with all names spelt out: CRCs, and in a data packet a piece of the image. */
  lemma SentMeans(img: Image, p: Packet, b: nat, j: nat, ofs: nat)
    requires ValidImage(img) && Sent(img, p, b, j) && ofs == img.erasesize * b
    ensures p.hdr.block_nr == b && p.hdr.pkt_nr == j && p.hdr.nr_blocks == img.nr && p.hdr.nr_pkts == img.n
    ensures p.hdr.blocksize == img.erasesize && p.hdr.totcrc == Crc32.Crc(0xffffffff, img.bytes)
    ensures |p.data| == PKT_SIZE && p.hdr.thiscrc == Crc32.Crc(0xffffffff, p.data)
    ensures ofs + img.erasesize <= |img.bytes|
    ensures p.hdr.block_crc == Crc32.Crc(0xffffffff, img.bytes[ofs..ofs + img.erasesize])
    ensures j < img.k ==> forall x :: 0 <= x < PKT_SIZE ==>
      p.data[x] == if ofs + PKT_SIZE * j + x < |img.bytes| then img.bytes[ofs + PKT_SIZE * j + x] else 0
  {
    hide Crc32.Crc, SourcePackets, PacketData;
    BlockBounds(img.erasesize, b, img.nr);
    if j < img.k { DataPacket(img, b, j, ofs); }
  }

  lemma DataPacket(img: Image, b: nat, j: nat, ofs: nat)
    requires ValidImage(img) && b < img.nr && j < img.k && ofs == img.erasesize * b
    ensures forall x :: 0 <= x < PKT_SIZE ==>
      PacketData(StreamOf(img), b, j)[x] ==
        if ofs + PKT_SIZE * j + x < |img.bytes| then img.bytes[ofs + PKT_SIZE * j + x] else 0
  {
    hide Encoded, SourceBytes, PacketsPerBlock, BlockCrc;
    PacketIs(img, b, j);
    SourceByte(img, b, ofs);
    MulMono(PKT_SIZE, j + 1, img.k);
  }

  lemma PacketIs(img: Image, b: nat, j: nat)
    requires ValidImage(img) && b < img.nr && j < img.k
    ensures PKT_SIZE * j + PKT_SIZE <= img.k * PKT_SIZE
    ensures PacketData(StreamOf(img), b, j) == SourceBytes(img, b)[PKT_SIZE * j..PKT_SIZE * j + PKT_SIZE]
  {
    hide Encoded, SourceBytes, PacketsPerBlock, BlockCrc;
    MulMono(PKT_SIZE, j + 1, img.k);
    AtLeastOnePacket(img);
    EncodedSource(img.k, img.n, SourcePackets(img, b), PKT_SIZE, j);
  }

  lemma AtLeastOnePacket(img: Image)
    requires ValidImage(img)
    ensures img.k >= 1
  {
    PacketBytes(img.erasesize, img.k);
  }

  lemma SourceByte(img: Image, b: nat, ofs: nat)
    requires ValidImage(img) && b < img.nr && ofs == img.erasesize * b
    ensures forall y :: 0 <= y < img.k * PKT_SIZE ==>
      SourceBytes(img, b)[y] == if ofs + y < |img.bytes| then img.bytes[ofs + y] else 0
  {
    BlockBounds(img.erasesize, b, img.nr);
  }

  /** A block that is not the last is encoded from the image itself, beyond its own end. */
  lemma RunsOn(img: Image, b: nat)
    requires ValidImage(img) && b < img.nr - 1 && Inside(img, b)
    ensures img.erasesize * b + img.k * PKT_SIZE <= |img.bytes|
    ensures SourceBytes(img, b) == img.bytes[img.erasesize * b..][..img.k * PKT_SIZE]
  {}

  lemma SlicesPrefix(buf: seq<gf>, d: seq<gf>, k: nat)
    requires k * PKT_SIZE <= |buf| && d == buf[..k * PKT_SIZE]
    ensures Slices(buf, k, PKT_SIZE) == Slices(d, k, PKT_SIZE)
  {
    forall i | 0 <= i < k
      ensures Slices(buf, k, PKT_SIZE)[i] == Slices(d, k, PKT_SIZE)[i]
    {}
  }

  /** Half as many redundant packets again as data packets. */
  method NewServer(t: Tables, image: array<gf>, erasesize: nat) returns (srv: Server?, ghost img: Image)
    requires GaloisTables.Valid(t) && erasesize > 0
    ensures srv == null <==>
      PacketsPerBlock(erasesize) * 3 / 2 > GF_SIZE + 1 || image.Length % erasesize != 0 || image.Length == 0
    ensures srv != null ==> fresh(srv) && srv.Valid(img) && img.bytes == image[..] && img.erasesize == erasesize
    ensures srv != null ==> srv.k == (erasesize + 2819) / 2820 && srv.n == srv.k * 3 / 2
    ensures srv != null ==> erasesize * srv.nr_blocks == image.Length
  {
    hide GaloisTables.Valid, EncMatrix, BlockCrc, SourceBytes, Crc32.Crc, ValidImage;
    var pkts_per_block := (erasesize + PKT_SIZE - 1) / PKT_SIZE;
    var total_pkts_per_block := pkts_per_block * 3 / 2;
    var nr := image.Length / erasesize;
    img := Image(image[..], erasesize, pkts_per_block, total_pkts_per_block, nr);
    var code := FecNew(t, pkts_per_block, total_pkts_per_block);
    RedundancyFits(erasesize);
    // nothing can be mapped from an empty file
    if code == null || image.Length % erasesize != 0 || image.Length == 0 {
      return null, img;
    }
    WholeImage(img);
    srv := Prepare(code, image, erasesize, nr, img);
  }

  /** The padded last block and the CRCs. */
  method Prepare(code: FecParms, image: array<gf>, erasesize: nat, nr: nat, ghost img: Image) returns (srv: Server)
    requires ValidImage(img) && code.Valid() && img == Image(image[..], erasesize, code.k, code.n, nr)
    ensures fresh(srv) && srv.Valid(img)
  {
    hide EncMatrix, BlockCrc, SourceBytes, Crc32.Crc, ValidImage;
    AtLeastOne(img);
    var last_block := PadLastBlock(image, img, code.k, erasesize, nr);
    var crcs := BlockCrcs(image, erasesize, nr, img);
    var totcrc := Crc32.Compute(0xffffffff, image[..]);
    srv := new Server(code, nr, erasesize, image, last_block, crcs, totcrc);
  }

  lemma AtLeastOne(img: Image)
    requires ValidImage(img)
    ensures img.nr >= 1
  {}

  lemma RedundancyFits(e: nat)
    requires e > 0
    ensures var k := PacketsPerBlock(e); 1 <= k <= k * 3 / 2
  {
    PacketBytes(e, PacketsPerBlock(e));
  }

  lemma WholeImage(img: Image)
    requires var len := |img.bytes|;
      img.erasesize > 0 && len % img.erasesize == 0 && len > 0 && img.nr == len / img.erasesize
    requires img.k == PacketsPerBlock(img.erasesize) && img.k <= img.n <= GF_SIZE + 1
    ensures ValidImage(img)
  {
    var nr := img.nr;
    assert |img.bytes| == img.erasesize * nr;
    assert nr != 0;
  }

  method BlockCrcs(image: array<gf>, erasesize: nat, nr: nat, ghost img: Image) returns (crcs: seq<bv32>)
    requires ValidImage(img) && image[..] == img.bytes && erasesize == img.erasesize && nr == img.nr
    ensures |crcs| == nr && forall b :: 0 <= b < nr ==> crcs[b] == BlockCrc(img, b)
  {
    hide ValidImage, BlockCrc;
    crcs := [];
    var b := 0;
    while b < nr
      invariant 0 <= b <= nr && |crcs| == b
      invariant forall c :: 0 <= c < b ==> crcs[c] == BlockCrc(img, c)
    {
      ImageInside(img, b);
      var c := BlockCrcOf(image, erasesize * b, erasesize, img, b);
      crcs := crcs + [c];
      b := b + 1;
    }
  }

  lemma ImageInside(img: Image, b: nat)
    requires ValidImage(img) && b < img.nr
    ensures img.erasesize * b + img.erasesize <= |img.bytes|
  {
    BlockBounds(img.erasesize, b, img.nr);
  }

  method BlockCrcOf(image: array<gf>, ofs: nat, e: nat, ghost img: Image, ghost b: nat) returns (c: bv32)
    requires ValidImage(img) && b < img.nr && image[..] == img.bytes && e == img.erasesize
    requires ofs == img.erasesize * b && ofs + e <= image.Length
    ensures c == BlockCrc(img, b)
  {
    hide ValidImage, Crc32.Crc;
    assert image[ofs..ofs + e] == ImageBlock(img, b);
    c := Crc32.Compute(0xffffffff, image[ofs..ofs + e]);
  }

  lemma LastBlock(img: Image)
    requires ValidImage(img)
    ensures var ofs := img.erasesize * (img.nr - 1);
      ofs + img.erasesize <= |img.bytes| && img.erasesize <= img.k * PKT_SIZE
      && SourceBytes(img, img.nr - 1) == img.bytes[ofs..ofs + img.erasesize] + Zeros(img.k * PKT_SIZE - img.erasesize)
  {
    var ofs := img.erasesize * (img.nr - 1);
    BlockBounds(img.erasesize, img.nr - 1, img.nr);
    PacketBytes(img.erasesize, img.k);
    assert img.erasesize * img.nr == ofs + img.erasesize;
    assert img.bytes[ofs..] == img.bytes[ofs..ofs + img.erasesize];
    assert img.bytes[ofs..] + Zeros(0) == img.bytes[ofs..];
  }

  /** The padded copy of the last block. */
  method PadLastBlock(image: array<gf>, ghost img: Image, k: nat, e: nat, nr: nat) returns (last_block: array<gf>)
    requires ValidImage(img) && image[..] == img.bytes && k == img.k && e == img.erasesize && nr == img.nr
    ensures fresh(last_block) && last_block[..] == SourceBytes(img, nr - 1)
  {
    hide SourceBytes, Zeros, ValidImage;
    AtLeastOne(img);
    LastBlock(img);
    var ofs := e * (nr - 1);
    last_block := PaddedCopy(image, ofs, e, k * PKT_SIZE);
  }

  method PaddedCopy(image: array<gf>, ofs: nat, e: nat, len: nat) returns (last_block: array<gf>)
    requires ofs + e <= image.Length && e <= len
    ensures fresh(last_block) && last_block[..] == image[ofs..ofs + e] + Zeros(len - e)
  {
    last_block := new gf[len];
    forall i | 0 <= i < e { last_block[i] := image[ofs + i]; }
    forall i | e <= i < len { last_block[i] := 0; }
  }

  // ----- one cycle of the server -----

  /** Every round of a cycle sends one packet of each block. */
  method SendCycle(t: Tables, srv: Server, ghost img: Image) returns (sent: seq<seq<Packet>>)
    requires GaloisTables.Valid(t) && srv.Valid(img) && forall b :: 0 <= b < srv.nr_blocks ==> Inside(img, b)
    ensures |sent| == srv.n
    ensures forall i :: 0 <= i < srv.n ==> RoundSent(img, sent[i], i, srv.nr_blocks)
    ensures forall i :: 0 <= i < srv.n ==> |sent[i]| == srv.nr_blocks
    ensures forall i, b :: 0 <= i < srv.n && 0 <= b < srv.nr_blocks ==>
      sent[i][b].hdr.block_nr == b && sent[i][b].hdr.pkt_nr == if b % 2 == 1 then i else srv.n - 1 - i
  {
    hide GaloisTables.Valid, Sent, EncMatrix, ValidImage, RoundSent;
    sent := [];
    var pkt_nr := 0;
    while pkt_nr < srv.n
      invariant 0 <= pkt_nr <= srv.n && |sent| == pkt_nr
      invariant forall i :: 0 <= i < pkt_nr ==> RoundSent(img, sent[i], i, srv.nr_blocks)
    {
      var round := [];
      var block_nr := 0;
      EmptyRound(srv, img, pkt_nr);
      while block_nr < srv.nr_blocks
        invariant 0 <= block_nr <= srv.nr_blocks && RoundSent(img, round, pkt_nr, block_nr)
      {
        var p := srv.SendPacket(t, block_nr, pkt_nr, img);
        RoundGrows(img, round, p, pkt_nr, block_nr);
        round := round + [p];
        block_nr := block_nr + 1;
      }
      sent := sent + [round];
      pkt_nr := pkt_nr + 1;
    }
    forall i, b | 0 <= i < srv.n && 0 <= b < srv.nr_blocks
      ensures |sent[i]| == srv.nr_blocks
      ensures sent[i][b].hdr.block_nr == b && sent[i][b].hdr.pkt_nr == if b % 2 == 1 then i else srv.n - 1 - i
    {
      assert RoundSent(img, sent[i], i, srv.nr_blocks);
      RoundNumbers(img, sent[i], i, srv.nr_blocks, b);
    }
    forall i | 0 <= i < srv.n ensures |sent[i]| == srv.nr_blocks {
      assert RoundSent(img, sent[i], i, srv.nr_blocks);
      RoundLength(img, sent[i], i, srv.nr_blocks);
    }
  }

  lemma RoundLength(img: Image, round: seq<Packet>, i: nat, blocks: nat)
    requires RoundSent(img, round, i, blocks)
    ensures |round| == blocks
  {}

  /** In round i odd blocks send packet i and even ones packet n - 1 - i. */
  lemma RoundNumbers(img: Image, round: seq<Packet>, i: nat, blocks: nat, b: nat)
    requires RoundSent(img, round, i, blocks) && b < blocks
    ensures |round| == blocks && round[b].hdr.block_nr == b
    ensures round[b].hdr.pkt_nr == if b % 2 == 1 then i else img.n - 1 - i
    ensures b + 1 < blocks ==> round[b].hdr.pkt_nr + round[b + 1].hdr.pkt_nr == img.n - 1
  {
    hide ValidImage, PacketData, BlockCrc, CrcOk;
    assert Sent(img, round[b], b, ActualPkt(b, i, img.n));
    if b + 1 < blocks { assert Sent(img, round[b + 1], b + 1, ActualPkt(b + 1, i, img.n)); }
  }

  ghost predicate RoundSent(img: Image, round: seq<Packet>, pkt_nr: nat, blocks: nat) {
    && ValidImage(img) && |round| == blocks && pkt_nr < img.n
    && forall b :: 0 <= b < blocks ==> Sent(img, round[b], b, ActualPkt(b, pkt_nr, img.n))
  }

  lemma EmptyRound(srv: Server, img: Image, pkt_nr: nat)
    requires srv.Valid(img) && pkt_nr < srv.n
    ensures RoundSent(img, [], pkt_nr, 0)
  {}

  lemma RoundGrows(img: Image, round: seq<Packet>, p: Packet, pkt_nr: nat, b: nat)
    requires RoundSent(img, round, pkt_nr, b) && ValidImage(img) && Sent(img, p, b, ActualPkt(b, pkt_nr, img.n))
    ensures RoundSent(img, round + [p], pkt_nr, b + 1)
  {
    hide Sent, ValidImage;
  }

  /** In one cycle every packet of every block is sent, in exactly one round. */
  lemma CycleSendsEachOnce(img: Image, sent: seq<seq<Packet>>, b: nat, j: nat) returns (i: nat)
    requires ValidImage(img) && |sent| == img.n && b < img.nr && j < img.n
    requires forall i :: 0 <= i < img.n ==> RoundSent(img, sent[i], i, img.nr)
    ensures i < img.n && b < |sent[i]| && Sent(img, sent[i][b], b, j) && i == if b % 2 == 1 then j else img.n - 1 - j
    ensures forall i' :: 0 <= i' < img.n && i' != i ==> b < |sent[i']| && sent[i'][b].hdr.pkt_nr != j
  {
    hide ValidImage, BlockCrc, PacketData;
    i := if b % 2 == 1 then j else img.n - 1 - j;
    assert RoundSent(img, sent[i], i, img.nr);
    forall i' | 0 <= i' < img.n && i' != i
      ensures b < |sent[i']| && sent[i'][b].hdr.pkt_nr != j
    {
      assert RoundSent(img, sent[i'], i', img.nr);
      assert Sent(img, sent[i'][b], b, ActualPkt(b, i', img.n));
    }
  }

  // ----- end to end -----

  /** The decoded block passes the final CRC comparison. */
  lemma CrcAgrees(rx: Receiver, s: Stream, img: Image, b: nat)
    requires ValidImage(img) && s == StreamOf(img) && rx.Valid(s) && rx.dev.erasesize == img.erasesize
    requires b < |rx.blocks| && rx.blocks[b].nr_pkts >= rx.k
    ensures rx.blocks[b].crc == BlockCrc(img, b)
  {
    hide BlocksOk, Placed, BlockGeometry, Holding, BlockCrc, SourcePackets;
    BlocksSplit(s, rx.flash, rx.blocks, rx.base, b);
  }

  /** The blocks of an image, one after another. */
  function Joined(blocks: seq<seq<gf>>): seq<gf> {
    if |blocks| == 0 then [] else Joined(blocks[..|blocks| - 1]) + blocks[|blocks| - 1]
  }

  lemma {:induction false} JoinedImage(img: Image, blocks: seq<seq<gf>>)
    requires ValidImage(img) && |blocks| <= img.nr
    requires forall b :: 0 <= b < |blocks| ==> blocks[b] == ImageBlock(img, b)
    ensures img.erasesize * |blocks| <= |img.bytes| && Joined(blocks) == img.bytes[..img.erasesize * |blocks|]
  {
    hide ValidImage;
    if |blocks| > 0 {
      var b := |blocks| - 1;
      JoinedImage(img, blocks[..b]);
      NextBlock(img, b);
    } else {
      assert img.erasesize * |blocks| == 0;
    }
  }

  lemma NextBlock(img: Image, b: nat)
    requires ValidImage(img) && b < img.nr
    ensures img.erasesize * (b + 1) <= |img.bytes| && img.erasesize * b <= |img.bytes|
    ensures img.bytes[..img.erasesize * (b + 1)] == img.bytes[..img.erasesize * b] + ImageBlock(img, b)
  {
    ImageInside(img, b);
    assert img.erasesize * (b + 1) == img.erasesize * b + img.erasesize;
  }

  /** How the loop ends, without naming the packet it ends with. */
  lemma EndsMeans(d: Device, k: nat, input: seq<Packet>, seen: nat, nr: nat, status: Status)
    requires d.erasesize > 0 && k >= 1 && nr >= 1 && seen <= |input| && Ends(d, k, input, seen, nr, status)
    ensures status == Aborted ==> Refused(d, input, nr) || !Recoverable(d, nr, |input|)
    ensures !Refused(d, input, nr) && Sufficient(d, k, input, nr) ==> status == Complete
  {
    hide After, Room, Recoverable, Ample, Done;
    if Recoverable(d, nr, |input|) {
      GoesOn(d, k, input[..seen], nr, |input|);
      if status == Aborted && seen > 0 { assert input[seen - 1] in input; }
      if status == Receiving && Ample(input, k, nr, Fails(d, |input|) + 1) {
        Completes(d, k, input, nr);
        NotDone(d, k, input, nr);
      }
    }
  }

  /** Before the first packet, and as long as the loop goes on, something is missing. */
  lemma NotDone(d: Device, k: nat, input: seq<Packet>, nr: nat)
    requires d.erasesize > 0 && k >= 1 && nr >= 1 && Handled(d, k, input, |input|, nr)
    ensures var run := After(d, k, input, nr);
      run.Going? && !Done(run.progress, k)
  {
    hide Step;
    if |input| == 0 {
      assert |After(d, k, input, nr).progress.taken[0]| == 0;
    } else {
      assert StillGoing(d, k, input, |input| - 1, nr);
      assert input[..|input|] == input;
    }
  }

  /**
    Receives and decodes an image.  For every loss, duplication and reordering of the packets
    and every pattern of failed writes: if the loop completes, every block is the server's.  It gives
    up only for its headers, for lack of room, or on a failed write that cannot be made up for; and
    it completes if the packets suffice for every block once more often than writes fail.
   */
  method ReceiveImage(t: Tables, rx: Receiver, input: seq<Packet>, ghost img: Image)
    returns (status: Status, decoded: seq<seq<gf>>)
    requires GaloisTables.Valid(t) && ValidImage(img) && rx.k == img.k && rx.dev.erasesize == img.erasesize
    requires rx.dev.erasesize % WBUF_SIZE == 0 && rx.Unused()
    requires forall i :: 0 <= i < |input| ==> Genuine(StreamOf(img), input[i])
    requires |input| > 0 ==> input[0].hdr.nr_blocks == img.nr && input[0].hdr.nr_pkts == img.n
    modifies rx
    ensures status == Complete ==> |decoded| == img.nr && forall b :: 0 <= b < img.nr ==>
      decoded[b] == ImageBlock(img, b)
    ensures status == Complete ==> Joined(decoded) == img.bytes
    ensures exists seen :: 0 <= seen <= |input| && Ends(rx.dev, rx.k, input, seen, img.nr, status)
    ensures status == Aborted ==> Refused(rx.dev, input, img.nr) || !Recoverable(rx.dev, img.nr, |input|)
    ensures !Refused(rx.dev, input, img.nr) && Sufficient(rx.dev, rx.k, input, img.nr) ==> status == Complete
  {
    hide GaloisTables.Valid, Genuine, BlocksOk, Placed, SourcePackets, BlockCrc, ImageBlock, Ends, Refused;
    hide Recoverable, Sufficient;
    decoded := [];
    ghost var s := StreamOf(img);
    PacketBytes(img.erasesize, img.k);
    var seen;
    status, seen := rx.Receive(input, s);
    EndsMeans(rx.dev, rx.k, input, seen, img.nr, status);
    if status != Complete {
      return;
    }
    ValidParts(rx, s);
    var code := FecNew(t, rx.k, input[0].hdr.nr_pkts);
    decoded := DecodeAll(t, code, rx, img);
    JoinedImage(img, decoded);
    assert img.bytes[..img.erasesize * img.nr] == img.bytes;
  }

  lemma ValidParts(rx: Receiver, s: Stream)
    requires rx.Valid(s)
    ensures ValidStream(s) && |rx.blocks| == |s.sources| && rx.k == s.k
  {}

  /** Decodes all blocks; no decoding fails and every CRC agrees. */
  method DecodeAll(t: Tables, code: FecParms, rx: Receiver, ghost img: Image) returns (decoded: seq<seq<gf>>)
    requires GaloisTables.Valid(t) && code.Valid() && code.k == rx.k && code.n == img.n
    requires ValidImage(img) && rx.dev.erasesize == img.erasesize
    requires rx.Valid(StreamOf(img)) && rx.AllComplete() && |rx.blocks| == img.nr
    ensures |decoded| == img.nr && forall b :: 0 <= b < img.nr ==> decoded[b] == ImageBlock(img, b)
  {
    hide *;
    decoded := [];
    var b := 0;
    while b < |rx.blocks|
      invariant 0 <= b <= |rx.blocks| && |decoded| == b
      invariant forall c :: 0 <= c < b ==> decoded[c] == ImageBlock(img, c)
    {
      Completed(rx, b);
      var d := DecodeOne(t, code, rx, b, img);
      decoded := decoded + [d];
      b := b + 1;
    }
  }

  lemma Completed(rx: Receiver, b: nat)
    requires rx.AllComplete() && b < |rx.blocks|
    ensures rx.blocks[b].nr_pkts >= rx.k
  {}

  /** The two checks of the source, neither of which fails. */
  method DecodeOne(t: Tables, code: FecParms, rx: Receiver, b: nat, ghost img: Image) returns (d: seq<gf>)
    requires GaloisTables.Valid(t) && code.Valid() && code.k == rx.k && code.n == img.n
    requires ValidImage(img) && rx.dev.erasesize == img.erasesize
    requires rx.Valid(StreamOf(img)) && b < |rx.blocks| == img.nr && rx.blocks[b].nr_pkts >= rx.k
    ensures d == ImageBlock(img, b)
  {
    hide GaloisTables.Valid, BlocksOk, Placed, BlockGeometry, SourcePackets, ImageBlock, EncMatrix, SourceBytes;
    ghost var s := StreamOf(img);
    var error, decode_buf := DecodeBlock(t, code, rx, b, s);
    SourceIsBlock(img, b);
    CrcAgrees(rx, s, img, b);
    d := decode_buf[..rx.dev.erasesize];
    var crc := Crc32.Compute(0xffffffff, d);
    if error != 0 || crc != rx.blocks[b].crc {
      assert false; // the source gives up here
    }
  }

  // ----- from the server to the receiver -----

  /** What arrives: for every pick the packet sent in that round for that block. */
  function Arriving(sent: seq<seq<Packet>>, picks: seq<(nat, nat)>): (input: seq<Packet>)
    requires forall r :: r in picks ==> r.0 < |sent| && r.1 < |sent[r.0]|
    ensures |input| == |picks|
  {
    seq(|picks|, i requires 0 <= i < |picks| => assert picks[i] in picks; sent[picks[i].0][picks[i].1])
  }

  /** Packets from at least k different rounds arrive for block b. */
  ghost predicate EnoughRounds(picks: seq<(nat, nat)>, b: nat, k: nat) {
    exists rounds: seq<nat> :: |rounds| == k && Distinct(rounds) && forall i :: 0 <= i < k ==> (rounds[i], b) in picks
  }

  /** In c parts of what arrives, one after another, packets from k rounds each. */
  ghost predicate EnoughRoundsTimes(picks: seq<(nat, nat)>, b: nat, k: nat, c: nat) {
    exists cuts: seq<nat> :: RoundParts(picks, b, k, cuts) && |cuts| == c + 1
  }

  ghost predicate RoundParts(picks: seq<(nat, nat)>, b: nat, k: nat, cuts: seq<nat>) {
    && (forall i :: 0 <= i < |cuts| ==> cuts[i] <= |picks|)
    && (forall i :: 0 <= i < |cuts| - 1 ==> RoundPart(picks, b, k, cuts[i], cuts[i + 1]))
  }

  ghost predicate RoundPart(picks: seq<(nat, nat)>, b: nat, k: nat, x: nat, y: nat) {
    x <= y <= |picks| && EnoughRounds(picks[x..y], b, k)
  }

  ghost predicate AmpleRounds(picks: seq<(nat, nat)>, k: nat, nr: nat, c: nat) {
    forall b :: 0 <= b < nr ==> EnoughRoundsTimes(picks, b, k, c)
  }

  /** Failed writes can be made up for, and enough packets arrive once more often than writes fail. */
  ghost predicate SufficientRounds(d: Device, k: nat, picks: seq<(nat, nat)>, nr: nat)
    requires d.erasesize > 0
  {
    Recoverable(d, nr, |picks|) && AmpleRounds(picks, k, nr, Fails(d, |picks|) + 1)
  }

  ghost predicate CycleSent(img: Image, sent: seq<seq<Packet>>) {
    ValidImage(img) && |sent| == img.n && forall i :: 0 <= i < img.n ==> RoundSent(img, sent[i], i, img.nr)
  }

  /** Every packet that arrives is one of the server's, with the server's headers. */
  lemma ArrivingGenuine(img: Image, sent: seq<seq<Packet>>, picks: seq<(nat, nat)>, i: nat)
    requires CycleSent(img, sent) && i < |picks| && forall r :: r in picks ==> r.0 < |sent| && r.1 < |sent[r.0]|
    ensures var p := Arriving(sent, picks)[i];
      && Genuine(StreamOf(img), p)
      && p.hdr.nr_blocks == img.nr && p.hdr.nr_pkts == img.n && p.hdr.blocksize == img.erasesize
      && p.hdr.totcrc == StreamOf(img).totcrc && p.hdr.block_nr < img.nr
  {
    hide ValidImage, Genuine, BlockCrc, PacketData;
    var r := picks[i];
    assert r in picks;
    assert RoundSent(img, sent[r.0], r.0, img.nr);
    SentIsGenuine(img, sent[r.0][r.1], r.1, ActualPkt(r.1, r.0, img.n));
  }

  /** Different rounds bring different packets. */
  lemma RoundsAreOffers(img: Image, sent: seq<seq<Packet>>, picks: seq<(nat, nat)>, b: nat)
    requires CycleSent(img, sent) && b < img.nr && forall r :: r in picks ==> r.0 < |sent| && r.1 < |sent[r.0]|
    requires EnoughRounds(picks, b, img.k)
    ensures Enough(Arriving(sent, picks), b, img.k)
  {
    hide ValidImage, Sent, RoundSent, Offered, Arriving;
    var rounds: seq<nat> :| |rounds| == img.k && Distinct(rounds)
      && forall i :: 0 <= i < img.k ==> (rounds[i], b) in picks;
    var js := seq(img.k, i requires 0 <= i < img.k => assert (rounds[i], b) in picks; sent[rounds[i]][b].hdr.pkt_nr);
    forall i | 0 <= i < img.k ensures Offered(Arriving(sent, picks), b, js[i]) {
      RoundOffers(img, sent, picks, rounds[i], b);
    }
    forall i, i' | 0 <= i < i' < img.k ensures js[i] != js[i'] {
      assert (rounds[i], b) in picks && (rounds[i'], b) in picks;
      RoundsDiffer(img, sent, b, rounds[i], rounds[i']);
    }
    EnoughBy(Arriving(sent, picks), b, img.k, js);
  }

  lemma EnoughBy(input: seq<Packet>, b: nat, k: nat, js: seq<nat>)
    requires |js| == k && Distinct(js) && forall i :: 0 <= i < k ==> Offered(input, b, js[i])
    ensures Enough(input, b, k)
  {
    hide Offered;
  }

  /** Part by part. */
  lemma RoundsAmple(img: Image, sent: seq<seq<Packet>>, picks: seq<(nat, nat)>, c: nat)
    requires CycleSent(img, sent) && (forall r :: r in picks ==> r.0 < |sent| && r.1 < |sent[r.0]|)
    requires AmpleRounds(picks, img.k, img.nr, c)
    ensures Ample(Arriving(sent, picks), img.k, img.nr, c)
  {
    hide ValidImage, Sent, RoundSent, Arriving, Enough, EnoughRounds, CycleSent;
    var input := Arriving(sent, picks);
    forall b | 0 <= b < img.nr ensures EnoughTimes(input, b, img.k, c) {
      assert EnoughRoundsTimes(picks, b, img.k, c);
      var cuts: seq<nat> :| RoundParts(picks, b, img.k, cuts) && |cuts| == c + 1;
      forall i | 0 <= i < |cuts| - 1 ensures EnoughPart(input, b, img.k, cuts[i], cuts[i + 1]) {
        assert RoundPart(picks, b, img.k, cuts[i], cuts[i + 1]);
        PartOffers(img, sent, picks, b, cuts[i], cuts[i + 1]);
      }
      assert EnoughParts(input, b, img.k, cuts);
    }
  }

  lemma PartOffers(img: Image, sent: seq<seq<Packet>>, picks: seq<(nat, nat)>, b: nat, x: nat, y: nat)
    requires CycleSent(img, sent) && b < img.nr && (forall r :: r in picks ==> r.0 < |sent| && r.1 < |sent[r.0]|)
    requires RoundPart(picks, b, img.k, x, y)
    ensures EnoughPart(Arriving(sent, picks), b, img.k, x, y)
  {
    hide ValidImage, Sent, RoundSent, Enough, EnoughRounds, CycleSent;
    var part := picks[x..y];
    forall r | r in part ensures r in picks {}
    RoundsAreOffers(img, sent, part, b);
    assert Arriving(sent, picks)[x..y] == Arriving(sent, part);
  }

  lemma RoundOffers(img: Image, sent: seq<seq<Packet>>, picks: seq<(nat, nat)>, round: nat, b: nat)
    requires CycleSent(img, sent) && b < img.nr && forall r :: r in picks ==> r.0 < |sent| && r.1 < |sent[r.0]|
    requires (round, b) in picks
    ensures Offered(Arriving(sent, picks), b, sent[round][b].hdr.pkt_nr)
  {
    hide ValidImage, BlockCrc, PacketData, CrcOk;
    var i :| 0 <= i < |picks| && picks[i] == (round, b);
    assert RoundSent(img, sent[round], round, img.nr);
    assert Arriving(sent, picks)[i] == sent[round][b];
  }

  lemma RoundsDiffer(img: Image, sent: seq<seq<Packet>>, b: nat, r: nat, r': nat)
    requires CycleSent(img, sent) && b < img.nr && r < img.n && r' < img.n && r != r'
    ensures b < |sent[r]| && b < |sent[r']| && sent[r][b].hdr.pkt_nr != sent[r'][b].hdr.pkt_nr
  {
    hide ValidImage, PacketData, BlockCrc;
    assert RoundSent(img, sent[r], r, img.nr);
    assert Sent(img, sent[r][b], b, ActualPkt(b, r, img.n));
    var i := CycleSendsEachOnce(img, sent, b, sent[r][b].hdr.pkt_nr);
    assert i == r;
  }

  /**
    The whole transfer: of the packets of a cycle those with the given rounds and blocks arrive, in
    that order, some of them again and others not at all; a further cycle only sends the same
    packets again.  Whatever is lost, the receiver ends with the image as long as its device has room,
    failed writes can be made up for, and packets from k rounds arrive for every block, once more
    often than writes fail.
   */
  method TransferImage(t: Tables, srv: Server, rx: Receiver, picks: seq<(nat, nat)>, ghost img: Image)
    returns (status: Status, decoded: seq<seq<gf>>)
    requires GaloisTables.Valid(t) && srv.Valid(img) && rx.k == srv.k && rx.dev.erasesize == srv.erasesize
    requires rx.dev.erasesize % WBUF_SIZE == 0 && rx.Unused()
    requires forall r :: r in picks ==> r.0 < srv.n && r.1 < srv.nr_blocks
    modifies rx
    ensures status == Complete ==> Joined(decoded) == img.bytes
    ensures status == Aborted ==> !Room(rx.dev, srv.nr_blocks) || !Recoverable(rx.dev, srv.nr_blocks, |picks|)
    ensures Room(rx.dev, srv.nr_blocks) && SufficientRounds(rx.dev, srv.k, picks, srv.nr_blocks) ==> status == Complete
  {
    hide GaloisTables.Valid, Genuine, Ample, AmpleRounds, ImageBlock, RoundSent, Arriving, Sent, EncMatrix, Refused;
    hide Recoverable, Room, Ends;
    forall b | 0 <= b < srv.nr_blocks ensures Inside(img, b) { HalfPacketInside(img, b); }
    var sent := SendCycle(t, srv, img);
    CycleShape(srv, img, sent);
    assert forall r :: r in picks ==> r.0 < |sent| && r.1 < |sent[r.0]|;
    var input := Arriving(sent, picks);
    forall i | 0 <= i < |input| ensures Genuine(StreamOf(img), input[i]) { ArrivingGenuine(img, sent, picks, i); }
    NotRefused(img, sent, picks, rx.dev);
    status, decoded := ReceiveImage(t, rx, input, img);
    if AmpleRounds(picks, srv.k, srv.nr_blocks, Fails(rx.dev, |picks|) + 1) {
      RoundsAmple(img, sent, picks, Fails(rx.dev, |picks|) + 1);
    }
  }

  lemma CycleShape(srv: Server, img: Image, sent: seq<seq<Packet>>)
    requires srv.Valid(img) && |sent| == srv.n && forall i :: 0 <= i < srv.n ==>
      RoundSent(img, sent[i], i, srv.nr_blocks)
    ensures CycleSent(img, sent) && forall i :: 0 <= i < srv.n ==> |sent[i]| == srv.nr_blocks
  {}

  /** The server's headers are never refused. */
  lemma NotRefused(img: Image, sent: seq<seq<Packet>>, picks: seq<(nat, nat)>, d: Device)
    requires CycleSent(img, sent) && forall r :: r in picks ==> r.0 < |sent| && r.1 < |sent[r.0]|
    requires d.erasesize == img.erasesize > 0
    ensures var input := Arriving(sent, picks);
      && (|input| > 0 ==> input[0].hdr.nr_blocks == img.nr && input[0].hdr.nr_pkts == img.n)
      && (Refused(d, input, img.nr) <==> |input| > 0 && !Room(d, img.nr))
  {
    hide ValidImage, Genuine, RoundSent, Room;
    var input := Arriving(sent, picks);
    forall i | 0 <= i < |input|
      ensures !Foreign(input[i], StreamOf(img).totcrc, img.nr)
    {
      ArrivingGenuine(img, sent, picks, i);
    }
    if |input| > 0 {
      ArrivingGenuine(img, sent, picks, 0);
    }
  }
}
