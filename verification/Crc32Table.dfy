/**
  The table of crc32.c, sixteen rows of sixteen, and why it is right: entry i is what eight steps
  of the bit-serial division make of i.
 */
module Crc32Table {
  import opened Crc32Bits

  function Row0(l: bv8): bv32 {
    if l == 0 then 0x00000000 else if l == 1 then 0x77073096 else
    if l == 2 then 0xee0e612c else if l == 3 then 0x990951ba else
    if l == 4 then 0x076dc419 else if l == 5 then 0x706af48f else
    if l == 6 then 0xe963a535 else if l == 7 then 0x9e6495a3 else
    if l == 8 then 0x0edb8832 else if l == 9 then 0x79dcb8a4 else
    if l == 10 then 0xe0d5e91e else if l == 11 then 0x97d2d988 else
    if l == 12 then 0x09b64c2b else if l == 13 then 0x7eb17cbd else
    if l == 14 then 0xe7b82d07 else 0x90bf1d91
  }

  function Row1(l: bv8): bv32 {
    if l == 0 then 0x1db71064 else if l == 1 then 0x6ab020f2 else
    if l == 2 then 0xf3b97148 else if l == 3 then 0x84be41de else
    if l == 4 then 0x1adad47d else if l == 5 then 0x6ddde4eb else
    if l == 6 then 0xf4d4b551 else if l == 7 then 0x83d385c7 else
    if l == 8 then 0x136c9856 else if l == 9 then 0x646ba8c0 else
    if l == 10 then 0xfd62f97a else if l == 11 then 0x8a65c9ec else
    if l == 12 then 0x14015c4f else if l == 13 then 0x63066cd9 else
    if l == 14 then 0xfa0f3d63 else 0x8d080df5
  }

  function Row2(l: bv8): bv32 {
    if l == 0 then 0x3b6e20c8 else if l == 1 then 0x4c69105e else
    if l == 2 then 0xd56041e4 else if l == 3 then 0xa2677172 else
    if l == 4 then 0x3c03e4d1 else if l == 5 then 0x4b04d447 else
    if l == 6 then 0xd20d85fd else if l == 7 then 0xa50ab56b else
    if l == 8 then 0x35b5a8fa else if l == 9 then 0x42b2986c else
    if l == 10 then 0xdbbbc9d6 else if l == 11 then 0xacbcf940 else
    if l == 12 then 0x32d86ce3 else if l == 13 then 0x45df5c75 else
    if l == 14 then 0xdcd60dcf else 0xabd13d59
  }

  function Row3(l: bv8): bv32 {
    if l == 0 then 0x26d930ac else if l == 1 then 0x51de003a else
    if l == 2 then 0xc8d75180 else if l == 3 then 0xbfd06116 else
    if l == 4 then 0x21b4f4b5 else if l == 5 then 0x56b3c423 else
    if l == 6 then 0xcfba9599 else if l == 7 then 0xb8bda50f else
    if l == 8 then 0x2802b89e else if l == 9 then 0x5f058808 else
    if l == 10 then 0xc60cd9b2 else if l == 11 then 0xb10be924 else
    if l == 12 then 0x2f6f7c87 else if l == 13 then 0x58684c11 else
    if l == 14 then 0xc1611dab else 0xb6662d3d
  }

  function Row4(l: bv8): bv32 {
    if l == 0 then 0x76dc4190 else if l == 1 then 0x01db7106 else
    if l == 2 then 0x98d220bc else if l == 3 then 0xefd5102a else
    if l == 4 then 0x71b18589 else if l == 5 then 0x06b6b51f else
    if l == 6 then 0x9fbfe4a5 else if l == 7 then 0xe8b8d433 else
    if l == 8 then 0x7807c9a2 else if l == 9 then 0x0f00f934 else
    if l == 10 then 0x9609a88e else if l == 11 then 0xe10e9818 else
    if l == 12 then 0x7f6a0dbb else if l == 13 then 0x086d3d2d else
    if l == 14 then 0x91646c97 else 0xe6635c01
  }

  function Row5(l: bv8): bv32 {
    if l == 0 then 0x6b6b51f4 else if l == 1 then 0x1c6c6162 else
    if l == 2 then 0x856530d8 else if l == 3 then 0xf262004e else
    if l == 4 then 0x6c0695ed else if l == 5 then 0x1b01a57b else
    if l == 6 then 0x8208f4c1 else if l == 7 then 0xf50fc457 else
    if l == 8 then 0x65b0d9c6 else if l == 9 then 0x12b7e950 else
    if l == 10 then 0x8bbeb8ea else if l == 11 then 0xfcb9887c else
    if l == 12 then 0x62dd1ddf else if l == 13 then 0x15da2d49 else
    if l == 14 then 0x8cd37cf3 else 0xfbd44c65
  }

  function Row6(l: bv8): bv32 {
    if l == 0 then 0x4db26158 else if l == 1 then 0x3ab551ce else
    if l == 2 then 0xa3bc0074 else if l == 3 then 0xd4bb30e2 else
    if l == 4 then 0x4adfa541 else if l == 5 then 0x3dd895d7 else
    if l == 6 then 0xa4d1c46d else if l == 7 then 0xd3d6f4fb else
    if l == 8 then 0x4369e96a else if l == 9 then 0x346ed9fc else
    if l == 10 then 0xad678846 else if l == 11 then 0xda60b8d0 else
    if l == 12 then 0x44042d73 else if l == 13 then 0x33031de5 else
    if l == 14 then 0xaa0a4c5f else 0xdd0d7cc9
  }

  function Row7(l: bv8): bv32 {
    if l == 0 then 0x5005713c else if l == 1 then 0x270241aa else
    if l == 2 then 0xbe0b1010 else if l == 3 then 0xc90c2086 else
    if l == 4 then 0x5768b525 else if l == 5 then 0x206f85b3 else
    if l == 6 then 0xb966d409 else if l == 7 then 0xce61e49f else
    if l == 8 then 0x5edef90e else if l == 9 then 0x29d9c998 else
    if l == 10 then 0xb0d09822 else if l == 11 then 0xc7d7a8b4 else
    if l == 12 then 0x59b33d17 else if l == 13 then 0x2eb40d81 else
    if l == 14 then 0xb7bd5c3b else 0xc0ba6cad
  }

  function Row8(l: bv8): bv32 {
    if l == 0 then 0xedb88320 else if l == 1 then 0x9abfb3b6 else
    if l == 2 then 0x03b6e20c else if l == 3 then 0x74b1d29a else
    if l == 4 then 0xead54739 else if l == 5 then 0x9dd277af else
    if l == 6 then 0x04db2615 else if l == 7 then 0x73dc1683 else
    if l == 8 then 0xe3630b12 else if l == 9 then 0x94643b84 else
    if l == 10 then 0x0d6d6a3e else if l == 11 then 0x7a6a5aa8 else
    if l == 12 then 0xe40ecf0b else if l == 13 then 0x9309ff9d else
    if l == 14 then 0x0a00ae27 else 0x7d079eb1
  }

  function Row9(l: bv8): bv32 {
    if l == 0 then 0xf00f9344 else if l == 1 then 0x8708a3d2 else
    if l == 2 then 0x1e01f268 else if l == 3 then 0x6906c2fe else
    if l == 4 then 0xf762575d else if l == 5 then 0x806567cb else
    if l == 6 then 0x196c3671 else if l == 7 then 0x6e6b06e7 else
    if l == 8 then 0xfed41b76 else if l == 9 then 0x89d32be0 else
    if l == 10 then 0x10da7a5a else if l == 11 then 0x67dd4acc else
    if l == 12 then 0xf9b9df6f else if l == 13 then 0x8ebeeff9 else
    if l == 14 then 0x17b7be43 else 0x60b08ed5
  }

  function RowA(l: bv8): bv32 {
    if l == 0 then 0xd6d6a3e8 else if l == 1 then 0xa1d1937e else
    if l == 2 then 0x38d8c2c4 else if l == 3 then 0x4fdff252 else
    if l == 4 then 0xd1bb67f1 else if l == 5 then 0xa6bc5767 else
    if l == 6 then 0x3fb506dd else if l == 7 then 0x48b2364b else
    if l == 8 then 0xd80d2bda else if l == 9 then 0xaf0a1b4c else
    if l == 10 then 0x36034af6 else if l == 11 then 0x41047a60 else
    if l == 12 then 0xdf60efc3 else if l == 13 then 0xa867df55 else
    if l == 14 then 0x316e8eef else 0x4669be79
  }

  function RowB(l: bv8): bv32 {
    if l == 0 then 0xcb61b38c else if l == 1 then 0xbc66831a else
    if l == 2 then 0x256fd2a0 else if l == 3 then 0x5268e236 else
    if l == 4 then 0xcc0c7795 else if l == 5 then 0xbb0b4703 else
    if l == 6 then 0x220216b9 else if l == 7 then 0x5505262f else
    if l == 8 then 0xc5ba3bbe else if l == 9 then 0xb2bd0b28 else
    if l == 10 then 0x2bb45a92 else if l == 11 then 0x5cb36a04 else
    if l == 12 then 0xc2d7ffa7 else if l == 13 then 0xb5d0cf31 else
    if l == 14 then 0x2cd99e8b else 0x5bdeae1d
  }

  function RowC(l: bv8): bv32 {
    if l == 0 then 0x9b64c2b0 else if l == 1 then 0xec63f226 else
    if l == 2 then 0x756aa39c else if l == 3 then 0x026d930a else
    if l == 4 then 0x9c0906a9 else if l == 5 then 0xeb0e363f else
    if l == 6 then 0x72076785 else if l == 7 then 0x05005713 else
    if l == 8 then 0x95bf4a82 else if l == 9 then 0xe2b87a14 else
    if l == 10 then 0x7bb12bae else if l == 11 then 0x0cb61b38 else
    if l == 12 then 0x92d28e9b else if l == 13 then 0xe5d5be0d else
    if l == 14 then 0x7cdcefb7 else 0x0bdbdf21
  }

  function RowD(l: bv8): bv32 {
    if l == 0 then 0x86d3d2d4 else if l == 1 then 0xf1d4e242 else
    if l == 2 then 0x68ddb3f8 else if l == 3 then 0x1fda836e else
    if l == 4 then 0x81be16cd else if l == 5 then 0xf6b9265b else
    if l == 6 then 0x6fb077e1 else if l == 7 then 0x18b74777 else
    if l == 8 then 0x88085ae6 else if l == 9 then 0xff0f6a70 else
    if l == 10 then 0x66063bca else if l == 11 then 0x11010b5c else
    if l == 12 then 0x8f659eff else if l == 13 then 0xf862ae69 else
    if l == 14 then 0x616bffd3 else 0x166ccf45
  }

  function RowE(l: bv8): bv32 {
    if l == 0 then 0xa00ae278 else if l == 1 then 0xd70dd2ee else
    if l == 2 then 0x4e048354 else if l == 3 then 0x3903b3c2 else
    if l == 4 then 0xa7672661 else if l == 5 then 0xd06016f7 else
    if l == 6 then 0x4969474d else if l == 7 then 0x3e6e77db else
    if l == 8 then 0xaed16a4a else if l == 9 then 0xd9d65adc else
    if l == 10 then 0x40df0b66 else if l == 11 then 0x37d83bf0 else
    if l == 12 then 0xa9bcae53 else if l == 13 then 0xdebb9ec5 else
    if l == 14 then 0x47b2cf7f else 0x30b5ffe9
  }

  function RowF(l: bv8): bv32 {
    if l == 0 then 0xbdbdf21c else if l == 1 then 0xcabac28a else
    if l == 2 then 0x53b39330 else if l == 3 then 0x24b4a3a6 else
    if l == 4 then 0xbad03605 else if l == 5 then 0xcdd70693 else
    if l == 6 then 0x54de5729 else if l == 7 then 0x23d967bf else
    if l == 8 then 0xb3667a2e else if l == 9 then 0xc4614ab8 else
    if l == 10 then 0x5d681b02 else if l == 11 then 0x2a6f2b94 else
    if l == 12 then 0xb40bbe37 else if l == 13 then 0xc30c8ea1 else
    if l == 14 then 0x5a05df1b else 0x2d02ef8d
  }

  /** Row h of the table. */
  function RowAt(h: bv8, l: bv8): bv32 {
    if h == 0 then Row0(l) else
    if h == 1 then Row1(l) else
    if h == 2 then Row2(l) else
    if h == 3 then Row3(l) else
    if h == 4 then Row4(l) else
    if h == 5 then Row5(l) else
    if h == 6 then Row6(l) else
    if h == 7 then Row7(l) else
    if h == 8 then Row8(l) else
    if h == 9 then Row9(l) else
    if h == 10 then RowA(l) else
    if h == 11 then RowB(l) else
    if h == 12 then RowC(l) else
    if h == 13 then RowD(l) else
    if h == 14 then RowE(l) else
    RowF(l)
  }

  /** crc32_table[i]. */
  function Table(i: bv8): bv32 {
    RowAt(i >> 4, i & 0xf)
  }

  // The first row by evaluation, four entries at a time.

  lemma Values0()
    ensures Bits8(0) == 0x00000000 && Bits8(1) == 0x77073096 && Bits8(2) == 0xee0e612c && Bits8(3) == 0x990951ba
  {}

  lemma Values4()
    ensures Bits8(4) == 0x076dc419 && Bits8(5) == 0x706af48f && Bits8(6) == 0xe963a535 && Bits8(7) == 0x9e6495a3
  {}

  lemma Values8()
    ensures Bits8(8) == 0x0edb8832 && Bits8(9) == 0x79dcb8a4 && Bits8(10) == 0xe0d5e91e && Bits8(11) == 0x97d2d988
  {}

  lemma Values12()
    ensures Bits8(12) == 0x09b64c2b && Bits8(13) == 0x7eb17cbd && Bits8(14) == 0xe7b82d07 && Bits8(15) == 0x90bf1d91
  {}

  lemma Row0Is(l: bv8)
    requires l < 16
    ensures Row0(l) == Bits8(l as bv32)
  {
    hide Bits8;
    Values0();
    Values4();
    Values8();
    Values12();
  }

  // Every other row is the first one, with the row's first entry added to every entry.

  lemma Row1Is(l: bv8)
    requires l < 16
    ensures Row1(l) == Xor(Row0(l), Row1(0)) && Row1(0) == Bits8(0x10)
  {}

  lemma Row2Is(l: bv8)
    requires l < 16
    ensures Row2(l) == Xor(Row0(l), Row2(0)) && Row2(0) == Bits8(0x20)
  {}

  lemma Row3Is(l: bv8)
    requires l < 16
    ensures Row3(l) == Xor(Row0(l), Row3(0)) && Row3(0) == Bits8(0x30)
  {}

  lemma Row4Is(l: bv8)
    requires l < 16
    ensures Row4(l) == Xor(Row0(l), Row4(0)) && Row4(0) == Bits8(0x40)
  {}

  lemma Row5Is(l: bv8)
    requires l < 16
    ensures Row5(l) == Xor(Row0(l), Row5(0)) && Row5(0) == Bits8(0x50)
  {}

  lemma Row6Is(l: bv8)
    requires l < 16
    ensures Row6(l) == Xor(Row0(l), Row6(0)) && Row6(0) == Bits8(0x60)
  {}

  lemma Row7Is(l: bv8)
    requires l < 16
    ensures Row7(l) == Xor(Row0(l), Row7(0)) && Row7(0) == Bits8(0x70)
  {}

  lemma Row8Is(l: bv8)
    requires l < 16
    ensures Row8(l) == Xor(Row0(l), Row8(0)) && Row8(0) == Bits8(0x80)
  {}

  lemma Row9Is(l: bv8)
    requires l < 16
    ensures Row9(l) == Xor(Row0(l), Row9(0)) && Row9(0) == Bits8(0x90)
  {}

  lemma RowAIs(l: bv8)
    requires l < 16
    ensures RowA(l) == Xor(Row0(l), RowA(0)) && RowA(0) == Bits8(0xa0)
  {}

  lemma RowBIs(l: bv8)
    requires l < 16
    ensures RowB(l) == Xor(Row0(l), RowB(0)) && RowB(0) == Bits8(0xb0)
  {}

  lemma RowCIs(l: bv8)
    requires l < 16
    ensures RowC(l) == Xor(Row0(l), RowC(0)) && RowC(0) == Bits8(0xc0)
  {}

  lemma RowDIs(l: bv8)
    requires l < 16
    ensures RowD(l) == Xor(Row0(l), RowD(0)) && RowD(0) == Bits8(0xd0)
  {}

  lemma RowEIs(l: bv8)
    requires l < 16
    ensures RowE(l) == Xor(Row0(l), RowE(0)) && RowE(0) == Bits8(0xe0)
  {}

  lemma RowFIs(l: bv8)
    requires l < 16
    ensures RowF(l) == Xor(Row0(l), RowF(0)) && RowF(0) == Bits8(0xf0)
  {}

  lemma RowIs(h: bv8, l: bv8)
    requires h < 16 && l < 16
    ensures RowAt(h, l) == Xor(Row0(l), Bits8(h as bv32 << 4))
  {
    hide Xor, Bits8, Row0, Row1, Row2, Row3, Row4, Row5, Row6, Row7, Row8, Row9, RowA, RowB, RowC, RowD, RowE, RowF;
    if h == 0 {
      FirstRow(l);
    } else if h == 1 {
      Row1Is(l);
    } else if h == 2 {
      Row2Is(l);
    } else if h == 3 {
      Row3Is(l);
    } else if h == 4 {
      Row4Is(l);
    } else if h == 5 {
      Row5Is(l);
    } else if h == 6 {
      Row6Is(l);
    } else if h == 7 {
      Row7Is(l);
    } else if h == 8 {
      Row8Is(l);
    } else if h == 9 {
      Row9Is(l);
    } else if h == 10 {
      RowAIs(l);
    } else if h == 11 {
      RowBIs(l);
    } else if h == 12 {
      RowCIs(l);
    } else if h == 13 {
      RowDIs(l);
    } else if h == 14 {
      RowEIs(l);
    } else {
      RowFIs(l);
    }
  }

  lemma FirstRow(l: bv8)
    ensures Row0(l) == Xor(Row0(l), Bits8(0))
  {
    Values0();
    hide Bits8, Row0;
  }

  /** The high and the low half of a byte. */
  lemma Halves(i: bv8)
    ensures i >> 4 < 16 && i & 0xf < 16 && i as bv32 == Xor((i & 0xf) as bv32, (i >> 4) as bv32 << 4)
  {}

  /** Every entry of the table is right. */
  lemma TableIsBitSerial(i: bv8)
    ensures Table(i) == Bits8(i as bv32)
  {
    hide Xor, Bits8, RowAt, Row0;
    var h, l := i >> 4, i & 0xf;
    Halves(i);
    Row0Is(l);
    RowIs(h, l);
    Bits8Linear(l as bv32, h as bv32 << 4);
  }
}
