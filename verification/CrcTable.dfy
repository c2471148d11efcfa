/** The feedback table of the CRC, and why each of its 256 words is right. */
module CrcTable {

  import opened Words

  /** Eight shift/xor steps: `WORDS.EightShifts(c)` written out. */
  function EightShifts(c: bv32): bv32 {
    Shift(Shift(Shift(Shift(Shift(Shift(Shift(Shift(c))))))))
  }

  // The 256 words of the table, in order, sixteen to a row.
  const ROW_0: seq<bv32> := [
    0x00000000, 0x77073096, 0xee0e612c, 0x990951ba, 0x076dc419, 0x706af48f, 0xe963a535, 0x9e6495a3,
    0x0edb8832, 0x79dcb8a4, 0xe0d5e91e, 0x97d2d988, 0x09b64c2b, 0x7eb17cbd, 0xe7b82d07, 0x90bf1d91
  ]
  const ROW_1: seq<bv32> := [
    0x1db71064, 0x6ab020f2, 0xf3b97148, 0x84be41de, 0x1adad47d, 0x6ddde4eb, 0xf4d4b551, 0x83d385c7,
    0x136c9856, 0x646ba8c0, 0xfd62f97a, 0x8a65c9ec, 0x14015c4f, 0x63066cd9, 0xfa0f3d63, 0x8d080df5
  ]
  const ROW_2: seq<bv32> := [
    0x3b6e20c8, 0x4c69105e, 0xd56041e4, 0xa2677172, 0x3c03e4d1, 0x4b04d447, 0xd20d85fd, 0xa50ab56b,
    0x35b5a8fa, 0x42b2986c, 0xdbbbc9d6, 0xacbcf940, 0x32d86ce3, 0x45df5c75, 0xdcd60dcf, 0xabd13d59
  ]
  const ROW_3: seq<bv32> := [
    0x26d930ac, 0x51de003a, 0xc8d75180, 0xbfd06116, 0x21b4f4b5, 0x56b3c423, 0xcfba9599, 0xb8bda50f,
    0x2802b89e, 0x5f058808, 0xc60cd9b2, 0xb10be924, 0x2f6f7c87, 0x58684c11, 0xc1611dab, 0xb6662d3d
  ]
  const ROW_4: seq<bv32> := [
    0x76dc4190, 0x01db7106, 0x98d220bc, 0xefd5102a, 0x71b18589, 0x06b6b51f, 0x9fbfe4a5, 0xe8b8d433,
    0x7807c9a2, 0x0f00f934, 0x9609a88e, 0xe10e9818, 0x7f6a0dbb, 0x086d3d2d, 0x91646c97, 0xe6635c01
  ]
  const ROW_5: seq<bv32> := [
    0x6b6b51f4, 0x1c6c6162, 0x856530d8, 0xf262004e, 0x6c0695ed, 0x1b01a57b, 0x8208f4c1, 0xf50fc457,
    0x65b0d9c6, 0x12b7e950, 0x8bbeb8ea, 0xfcb9887c, 0x62dd1ddf, 0x15da2d49, 0x8cd37cf3, 0xfbd44c65
  ]
  const ROW_6: seq<bv32> := [
    0x4db26158, 0x3ab551ce, 0xa3bc0074, 0xd4bb30e2, 0x4adfa541, 0x3dd895d7, 0xa4d1c46d, 0xd3d6f4fb,
    0x4369e96a, 0x346ed9fc, 0xad678846, 0xda60b8d0, 0x44042d73, 0x33031de5, 0xaa0a4c5f, 0xdd0d7cc9
  ]
  const ROW_7: seq<bv32> := [
    0x5005713c, 0x270241aa, 0xbe0b1010, 0xc90c2086, 0x5768b525, 0x206f85b3, 0xb966d409, 0xce61e49f,
    0x5edef90e, 0x29d9c998, 0xb0d09822, 0xc7d7a8b4, 0x59b33d17, 0x2eb40d81, 0xb7bd5c3b, 0xc0ba6cad
  ]
  const ROW_8: seq<bv32> := [
    0xedb88320, 0x9abfb3b6, 0x03b6e20c, 0x74b1d29a, 0xead54739, 0x9dd277af, 0x04db2615, 0x73dc1683,
    0xe3630b12, 0x94643b84, 0x0d6d6a3e, 0x7a6a5aa8, 0xe40ecf0b, 0x9309ff9d, 0x0a00ae27, 0x7d079eb1
  ]
  const ROW_9: seq<bv32> := [
    0xf00f9344, 0x8708a3d2, 0x1e01f268, 0x6906c2fe, 0xf762575d, 0x806567cb, 0x196c3671, 0x6e6b06e7,
    0xfed41b76, 0x89d32be0, 0x10da7a5a, 0x67dd4acc, 0xf9b9df6f, 0x8ebeeff9, 0x17b7be43, 0x60b08ed5
  ]
  const ROW_A: seq<bv32> := [
    0xd6d6a3e8, 0xa1d1937e, 0x38d8c2c4, 0x4fdff252, 0xd1bb67f1, 0xa6bc5767, 0x3fb506dd, 0x48b2364b,
    0xd80d2bda, 0xaf0a1b4c, 0x36034af6, 0x41047a60, 0xdf60efc3, 0xa867df55, 0x316e8eef, 0x4669be79
  ]
  const ROW_B: seq<bv32> := [
    0xcb61b38c, 0xbc66831a, 0x256fd2a0, 0x5268e236, 0xcc0c7795, 0xbb0b4703, 0x220216b9, 0x5505262f,
    0xc5ba3bbe, 0xb2bd0b28, 0x2bb45a92, 0x5cb36a04, 0xc2d7ffa7, 0xb5d0cf31, 0x2cd99e8b, 0x5bdeae1d
  ]
  const ROW_C: seq<bv32> := [
    0x9b64c2b0, 0xec63f226, 0x756aa39c, 0x026d930a, 0x9c0906a9, 0xeb0e363f, 0x72076785, 0x05005713,
    0x95bf4a82, 0xe2b87a14, 0x7bb12bae, 0x0cb61b38, 0x92d28e9b, 0xe5d5be0d, 0x7cdcefb7, 0x0bdbdf21
  ]
  const ROW_D: seq<bv32> := [
    0x86d3d2d4, 0xf1d4e242, 0x68ddb3f8, 0x1fda836e, 0x81be16cd, 0xf6b9265b, 0x6fb077e1, 0x18b74777,
    0x88085ae6, 0xff0f6a70, 0x66063bca, 0x11010b5c, 0x8f659eff, 0xf862ae69, 0x616bffd3, 0x166ccf45
  ]
  const ROW_E: seq<bv32> := [
    0xa00ae278, 0xd70dd2ee, 0x4e048354, 0x3903b3c2, 0xa7672661, 0xd06016f7, 0x4969474d, 0x3e6e77db,
    0xaed16a4a, 0xd9d65adc, 0x40df0b66, 0x37d83bf0, 0xa9bcae53, 0xdebb9ec5, 0x47b2cf7f, 0x30b5ffe9
  ]
  const ROW_F: seq<bv32> := [
    0xbdbdf21c, 0xcabac28a, 0x53b39330, 0x24b4a3a6, 0xbad03605, 0xcdd70693, 0x54de5729, 0x23d967bf,
    0xb3667a2e, 0xc4614ab8, 0x5d681b02, 0x2a6f2b94, 0xb40bbe37, 0xc30c8ea1, 0x5a05df1b, 0x2d02ef8d
  ]

  const ROWS: seq<seq<bv32>> := [
    ROW_0, ROW_1, ROW_2, ROW_3, ROW_4, ROW_5, ROW_6, ROW_7,
    ROW_8, ROW_9, ROW_A, ROW_B, ROW_C, ROW_D, ROW_E, ROW_F
  ]

  function Flatten(rows: seq<seq<bv32>>): seq<bv32> {
    if rows == [] then [] else rows[0] + Flatten(rows[1..])
  }

  const CRC32_TAB: seq<bv32> := Flatten(ROWS)

  lemma {:induction false} FlattenLength(rows: seq<seq<bv32>>)
    requires forall r :: r in rows ==> |r| == 16
    ensures |Flatten(rows)| == 16 * |rows|
  {
    if rows != [] {
      FlattenLength(rows[1..]);
    }
  }

  lemma {:induction false} FlattenAt(rows: seq<seq<bv32>>, r: nat, j: nat)
    requires forall r :: r in rows ==> |r| == 16
    requires r < |rows| && j < 16
    ensures 16 * r + j < |Flatten(rows)|
    ensures Flatten(rows)[16 * r + j] == rows[r][j]
  {
    FlattenLength(rows);
    if r > 0 {
      FlattenAt(rows[1..], r - 1, j);
    }
  }

  lemma Nibbles(x: bv32)
    requires x < 256
    ensures 0 <= (x >> 4) as int < 16 && 0 <= (x & 15) as int < 16
    ensures x as int == 16 * ((x >> 4) as int) + (x & 15) as int
  {
  }

  // Row r lists eight shifts of 16 * r, ..., 16 * r + 15: checked word by word.

  lemma Row0(x: bv32)
    requires x < 256 && x >> 4 == 0x0
    ensures |ROW_0| == 16 && (x & 15) as int < 16 && ROW_0[(x & 15) as int] == EightShifts(x)
  {
    if x == 0x00 {} else if x == 0x01 {} else if x == 0x02 {} else if x == 0x03 {}
    else if x == 0x04 {} else if x == 0x05 {} else if x == 0x06 {} else if x == 0x07 {}
    else if x == 0x08 {} else if x == 0x09 {} else if x == 0x0A {} else if x == 0x0B {}
    else if x == 0x0C {} else if x == 0x0D {} else if x == 0x0E {} else if x == 0x0F {}
  }

  lemma Row1(x: bv32)
    requires x < 256 && x >> 4 == 0x1
    ensures |ROW_1| == 16 && (x & 15) as int < 16 && ROW_1[(x & 15) as int] == EightShifts(x)
  {
    if x == 0x10 {} else if x == 0x11 {} else if x == 0x12 {} else if x == 0x13 {}
    else if x == 0x14 {} else if x == 0x15 {} else if x == 0x16 {} else if x == 0x17 {}
    else if x == 0x18 {} else if x == 0x19 {} else if x == 0x1A {} else if x == 0x1B {}
    else if x == 0x1C {} else if x == 0x1D {} else if x == 0x1E {} else if x == 0x1F {}
  }

  lemma Row2(x: bv32)
    requires x < 256 && x >> 4 == 0x2
    ensures |ROW_2| == 16 && (x & 15) as int < 16 && ROW_2[(x & 15) as int] == EightShifts(x)
  {
    if x == 0x20 {} else if x == 0x21 {} else if x == 0x22 {} else if x == 0x23 {}
    else if x == 0x24 {} else if x == 0x25 {} else if x == 0x26 {} else if x == 0x27 {}
    else if x == 0x28 {} else if x == 0x29 {} else if x == 0x2A {} else if x == 0x2B {}
    else if x == 0x2C {} else if x == 0x2D {} else if x == 0x2E {} else if x == 0x2F {}
  }

  lemma Row3(x: bv32)
    requires x < 256 && x >> 4 == 0x3
    ensures |ROW_3| == 16 && (x & 15) as int < 16 && ROW_3[(x & 15) as int] == EightShifts(x)
  {
    if x == 0x30 {} else if x == 0x31 {} else if x == 0x32 {} else if x == 0x33 {}
    else if x == 0x34 {} else if x == 0x35 {} else if x == 0x36 {} else if x == 0x37 {}
    else if x == 0x38 {} else if x == 0x39 {} else if x == 0x3A {} else if x == 0x3B {}
    else if x == 0x3C {} else if x == 0x3D {} else if x == 0x3E {} else if x == 0x3F {}
  }

  lemma Row4(x: bv32)
    requires x < 256 && x >> 4 == 0x4
    ensures |ROW_4| == 16 && (x & 15) as int < 16 && ROW_4[(x & 15) as int] == EightShifts(x)
  {
    if x == 0x40 {} else if x == 0x41 {} else if x == 0x42 {} else if x == 0x43 {}
    else if x == 0x44 {} else if x == 0x45 {} else if x == 0x46 {} else if x == 0x47 {}
    else if x == 0x48 {} else if x == 0x49 {} else if x == 0x4A {} else if x == 0x4B {}
    else if x == 0x4C {} else if x == 0x4D {} else if x == 0x4E {} else if x == 0x4F {}
  }

  lemma Row5(x: bv32)
    requires x < 256 && x >> 4 == 0x5
    ensures |ROW_5| == 16 && (x & 15) as int < 16 && ROW_5[(x & 15) as int] == EightShifts(x)
  {
    if x == 0x50 {} else if x == 0x51 {} else if x == 0x52 {} else if x == 0x53 {}
    else if x == 0x54 {} else if x == 0x55 {} else if x == 0x56 {} else if x == 0x57 {}
    else if x == 0x58 {} else if x == 0x59 {} else if x == 0x5A {} else if x == 0x5B {}
    else if x == 0x5C {} else if x == 0x5D {} else if x == 0x5E {} else if x == 0x5F {}
  }

  lemma Row6(x: bv32)
    requires x < 256 && x >> 4 == 0x6
    ensures |ROW_6| == 16 && (x & 15) as int < 16 && ROW_6[(x & 15) as int] == EightShifts(x)
  {
    if x == 0x60 {} else if x == 0x61 {} else if x == 0x62 {} else if x == 0x63 {}
    else if x == 0x64 {} else if x == 0x65 {} else if x == 0x66 {} else if x == 0x67 {}
    else if x == 0x68 {} else if x == 0x69 {} else if x == 0x6A {} else if x == 0x6B {}
    else if x == 0x6C {} else if x == 0x6D {} else if x == 0x6E {} else if x == 0x6F {}
  }

  lemma Row7(x: bv32)
    requires x < 256 && x >> 4 == 0x7
    ensures |ROW_7| == 16 && (x & 15) as int < 16 && ROW_7[(x & 15) as int] == EightShifts(x)
  {
    if x == 0x70 {} else if x == 0x71 {} else if x == 0x72 {} else if x == 0x73 {}
    else if x == 0x74 {} else if x == 0x75 {} else if x == 0x76 {} else if x == 0x77 {}
    else if x == 0x78 {} else if x == 0x79 {} else if x == 0x7A {} else if x == 0x7B {}
    else if x == 0x7C {} else if x == 0x7D {} else if x == 0x7E {} else if x == 0x7F {}
  }

  lemma Row8(x: bv32)
    requires x < 256 && x >> 4 == 0x8
    ensures |ROW_8| == 16 && (x & 15) as int < 16 && ROW_8[(x & 15) as int] == EightShifts(x)
  {
    if x == 0x80 {} else if x == 0x81 {} else if x == 0x82 {} else if x == 0x83 {}
    else if x == 0x84 {} else if x == 0x85 {} else if x == 0x86 {} else if x == 0x87 {}
    else if x == 0x88 {} else if x == 0x89 {} else if x == 0x8A {} else if x == 0x8B {}
    else if x == 0x8C {} else if x == 0x8D {} else if x == 0x8E {} else if x == 0x8F {}
  }

  lemma Row9(x: bv32)
    requires x < 256 && x >> 4 == 0x9
    ensures |ROW_9| == 16 && (x & 15) as int < 16 && ROW_9[(x & 15) as int] == EightShifts(x)
  {
    if x == 0x90 {} else if x == 0x91 {} else if x == 0x92 {} else if x == 0x93 {}
    else if x == 0x94 {} else if x == 0x95 {} else if x == 0x96 {} else if x == 0x97 {}
    else if x == 0x98 {} else if x == 0x99 {} else if x == 0x9A {} else if x == 0x9B {}
    else if x == 0x9C {} else if x == 0x9D {} else if x == 0x9E {} else if x == 0x9F {}
  }

  lemma RowA(x: bv32)
    requires x < 256 && x >> 4 == 0xA
    ensures |ROW_A| == 16 && (x & 15) as int < 16 && ROW_A[(x & 15) as int] == EightShifts(x)
  {
    if x == 0xA0 {} else if x == 0xA1 {} else if x == 0xA2 {} else if x == 0xA3 {}
    else if x == 0xA4 {} else if x == 0xA5 {} else if x == 0xA6 {} else if x == 0xA7 {}
    else if x == 0xA8 {} else if x == 0xA9 {} else if x == 0xAA {} else if x == 0xAB {}
    else if x == 0xAC {} else if x == 0xAD {} else if x == 0xAE {} else if x == 0xAF {}
  }

  lemma RowB(x: bv32)
    requires x < 256 && x >> 4 == 0xB
    ensures |ROW_B| == 16 && (x & 15) as int < 16 && ROW_B[(x & 15) as int] == EightShifts(x)
  {
    if x == 0xB0 {} else if x == 0xB1 {} else if x == 0xB2 {} else if x == 0xB3 {}
    else if x == 0xB4 {} else if x == 0xB5 {} else if x == 0xB6 {} else if x == 0xB7 {}
    else if x == 0xB8 {} else if x == 0xB9 {} else if x == 0xBA {} else if x == 0xBB {}
    else if x == 0xBC {} else if x == 0xBD {} else if x == 0xBE {} else if x == 0xBF {}
  }

  lemma RowC(x: bv32)
    requires x < 256 && x >> 4 == 0xC
    ensures |ROW_C| == 16 && (x & 15) as int < 16 && ROW_C[(x & 15) as int] == EightShifts(x)
  {
    if x == 0xC0 {} else if x == 0xC1 {} else if x == 0xC2 {} else if x == 0xC3 {}
    else if x == 0xC4 {} else if x == 0xC5 {} else if x == 0xC6 {} else if x == 0xC7 {}
    else if x == 0xC8 {} else if x == 0xC9 {} else if x == 0xCA {} else if x == 0xCB {}
    else if x == 0xCC {} else if x == 0xCD {} else if x == 0xCE {} else if x == 0xCF {}
  }

  lemma RowD(x: bv32)
    requires x < 256 && x >> 4 == 0xD
    ensures |ROW_D| == 16 && (x & 15) as int < 16 && ROW_D[(x & 15) as int] == EightShifts(x)
  {
    if x == 0xD0 {} else if x == 0xD1 {} else if x == 0xD2 {} else if x == 0xD3 {}
    else if x == 0xD4 {} else if x == 0xD5 {} else if x == 0xD6 {} else if x == 0xD7 {}
    else if x == 0xD8 {} else if x == 0xD9 {} else if x == 0xDA {} else if x == 0xDB {}
    else if x == 0xDC {} else if x == 0xDD {} else if x == 0xDE {} else if x == 0xDF {}
  }

  lemma RowE(x: bv32)
    requires x < 256 && x >> 4 == 0xE
    ensures |ROW_E| == 16 && (x & 15) as int < 16 && ROW_E[(x & 15) as int] == EightShifts(x)
  {
    if x == 0xE0 {} else if x == 0xE1 {} else if x == 0xE2 {} else if x == 0xE3 {}
    else if x == 0xE4 {} else if x == 0xE5 {} else if x == 0xE6 {} else if x == 0xE7 {}
    else if x == 0xE8 {} else if x == 0xE9 {} else if x == 0xEA {} else if x == 0xEB {}
    else if x == 0xEC {} else if x == 0xED {} else if x == 0xEE {} else if x == 0xEF {}
  }

  lemma RowF(x: bv32)
    requires x < 256 && x >> 4 == 0xF
    ensures |ROW_F| == 16 && (x & 15) as int < 16 && ROW_F[(x & 15) as int] == EightShifts(x)
  {
    if x == 0xF0 {} else if x == 0xF1 {} else if x == 0xF2 {} else if x == 0xF3 {}
    else if x == 0xF4 {} else if x == 0xF5 {} else if x == 0xF6 {} else if x == 0xF7 {}
    else if x == 0xF8 {} else if x == 0xF9 {} else if x == 0xFA {} else if x == 0xFB {}
    else if x == 0xFC {} else if x == 0xFD {} else if x == 0xFE {} else if x == 0xFF {}
  }

  lemma RowAt(x: bv32)
    requires x < 256
    ensures |ROWS| == 16 && (x >> 4) as int < 16 && |ROWS[(x >> 4) as int]| == 16 && (x & 15) as int < 16
    ensures ROWS[(x >> 4) as int][(x & 15) as int] == EightShifts(x)
  {
    if x >> 4 == 0x0 { Row0(x); } else if x >> 4 == 0x1 { Row1(x); }
    else if x >> 4 == 0x2 { Row2(x); } else if x >> 4 == 0x3 { Row3(x); }
    else if x >> 4 == 0x4 { Row4(x); } else if x >> 4 == 0x5 { Row5(x); }
    else if x >> 4 == 0x6 { Row6(x); } else if x >> 4 == 0x7 { Row7(x); }
    else if x >> 4 == 0x8 { Row8(x); } else if x >> 4 == 0x9 { Row9(x); }
    else if x >> 4 == 0xA { RowA(x); } else if x >> 4 == 0xB { RowB(x); }
    else if x >> 4 == 0xC { RowC(x); } else if x >> 4 == 0xD { RowD(x); }
    else if x >> 4 == 0xE { RowE(x); } else if x >> 4 == 0xF { RowF(x); }
  }

  lemma RowLengths()
    ensures |ROWS| == 16
    ensures forall r :: r in ROWS ==> |r| == 16
  {
    Row0(0x00); Row1(0x10); Row2(0x20); Row3(0x30); Row4(0x40); Row5(0x50); Row6(0x60); Row7(0x70);
    Row8(0x80); Row9(0x90); RowA(0xA0); RowB(0xB0); RowC(0xC0); RowD(0xD0); RowE(0xE0); RowF(0xF0);
    assert forall k :: 0 <= k < 16 ==> |ROWS[k]| == 16;
  }

  lemma FlattenLookup(rows: seq<seq<bv32>>, x: bv32, word: bv32)
    requires forall r :: r in rows ==> |r| == 16
    requires |rows| == 16 && x < 256
    requires (x >> 4) as int < 16 && (x & 15) as int < 16
    requires rows[(x >> 4) as int][(x & 15) as int] == word
    ensures |Flatten(rows)| == 256 && 0 <= x as int < 256
    ensures Flatten(rows)[x as int] == word
  {
    Nibbles(x);
    FlattenLength(rows);
    FlattenAt(rows, (x >> 4) as int, (x & 15) as int);
  }

  /** Every word of the table is its index after eight shift/xor steps. */
  lemma TableEntry(x: bv32)
    requires x < 256
    ensures |CRC32_TAB| == 256 && 0 <= x as int < 256
    ensures CRC32_TAB[x as int] == EightShifts(x)
  {
    RowAt(x);
    RowLengths();
    FlattenLookup(ROWS, x, EightShifts(x));
  }
}
