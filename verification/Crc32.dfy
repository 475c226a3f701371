/** crc32.cpp: the table-driven CRC-32 of hstore against polynomial division one bit at a time. */
module Crc32 {

  // ---------------------------------------------------------------------------------------------
  // The definition
  // ---------------------------------------------------------------------------------------------

  /** One step of division by the reflected AUTODIN II polynomial. */
  function Shift(c: bv32): bv32 {
    if c & 1 == 1 then (c >> 1) ^ 0xEDB88320 else c >> 1
  }

  function Xor(a: bv32, b: bv32): bv32 { a ^ b }
  function Half(r: bv32): bv32 { r >> 1 }

  /** Feeds the lowest bit of r into the register. */
  function FeedBit(c: bv32, r: bv32): bv32 {
    Shift(Xor(c, r & 1))
  }

  /** Feeds the lowest n bits of r, lowest first. */
  function FeedBits(c: bv32, r: bv32, n: nat): bv32
    decreases n
  {
    if n == 0 then c else FeedBits(FeedBit(c, r), Half(r), n - 1)
  }

  /** The register after all bits of the buffer. */
  function Register(buf: seq<bv8>): bv32 {
    if buf == [] then 0xFFFFFFFF
    else FeedBits(Register(buf[..|buf| - 1]), buf[|buf| - 1] as bv32, 8)
  }

  // ---------------------------------------------------------------------------------------------
  // The table
  // ---------------------------------------------------------------------------------------------

  function Row0(i: bv32): bv32 {
    match i
    case 0x00 => 0x00000000 case 0x01 => 0x77073096 case 0x02 => 0xee0e612c case 0x03 => 0x990951ba
    case 0x04 => 0x076dc419 case 0x05 => 0x706af48f case 0x06 => 0xe963a535 case 0x07 => 0x9e6495a3
    case 0x08 => 0x0edb8832 case 0x09 => 0x79dcb8a4 case 0x0A => 0xe0d5e91e case 0x0B => 0x97d2d988
    case 0x0C => 0x09b64c2b case 0x0D => 0x7eb17cbd case 0x0E => 0xe7b82d07 case 0x0F => 0x90bf1d91
    case _ => 0
  }

  function Row1(i: bv32): bv32 {
    match i
    case 0x10 => 0x1db71064 case 0x11 => 0x6ab020f2 case 0x12 => 0xf3b97148 case 0x13 => 0x84be41de
    case 0x14 => 0x1adad47d case 0x15 => 0x6ddde4eb case 0x16 => 0xf4d4b551 case 0x17 => 0x83d385c7
    case 0x18 => 0x136c9856 case 0x19 => 0x646ba8c0 case 0x1A => 0xfd62f97a case 0x1B => 0x8a65c9ec
    case 0x1C => 0x14015c4f case 0x1D => 0x63066cd9 case 0x1E => 0xfa0f3d63 case 0x1F => 0x8d080df5
    case _ => 0
  }

  function Row2(i: bv32): bv32 {
    match i
    case 0x20 => 0x3b6e20c8 case 0x21 => 0x4c69105e case 0x22 => 0xd56041e4 case 0x23 => 0xa2677172
    case 0x24 => 0x3c03e4d1 case 0x25 => 0x4b04d447 case 0x26 => 0xd20d85fd case 0x27 => 0xa50ab56b
    case 0x28 => 0x35b5a8fa case 0x29 => 0x42b2986c case 0x2A => 0xdbbbc9d6 case 0x2B => 0xacbcf940
    case 0x2C => 0x32d86ce3 case 0x2D => 0x45df5c75 case 0x2E => 0xdcd60dcf case 0x2F => 0xabd13d59
    case _ => 0
  }

  function Row3(i: bv32): bv32 {
    match i
    case 0x30 => 0x26d930ac case 0x31 => 0x51de003a case 0x32 => 0xc8d75180 case 0x33 => 0xbfd06116
    case 0x34 => 0x21b4f4b5 case 0x35 => 0x56b3c423 case 0x36 => 0xcfba9599 case 0x37 => 0xb8bda50f
    case 0x38 => 0x2802b89e case 0x39 => 0x5f058808 case 0x3A => 0xc60cd9b2 case 0x3B => 0xb10be924
    case 0x3C => 0x2f6f7c87 case 0x3D => 0x58684c11 case 0x3E => 0xc1611dab case 0x3F => 0xb6662d3d
    case _ => 0
  }

  function Row4(i: bv32): bv32 {
    match i
    case 0x40 => 0x76dc4190 case 0x41 => 0x01db7106 case 0x42 => 0x98d220bc case 0x43 => 0xefd5102a
    case 0x44 => 0x71b18589 case 0x45 => 0x06b6b51f case 0x46 => 0x9fbfe4a5 case 0x47 => 0xe8b8d433
    case 0x48 => 0x7807c9a2 case 0x49 => 0x0f00f934 case 0x4A => 0x9609a88e case 0x4B => 0xe10e9818
    case 0x4C => 0x7f6a0dbb case 0x4D => 0x086d3d2d case 0x4E => 0x91646c97 case 0x4F => 0xe6635c01
    case _ => 0
  }

  function Row5(i: bv32): bv32 {
    match i
    case 0x50 => 0x6b6b51f4 case 0x51 => 0x1c6c6162 case 0x52 => 0x856530d8 case 0x53 => 0xf262004e
    case 0x54 => 0x6c0695ed case 0x55 => 0x1b01a57b case 0x56 => 0x8208f4c1 case 0x57 => 0xf50fc457
    case 0x58 => 0x65b0d9c6 case 0x59 => 0x12b7e950 case 0x5A => 0x8bbeb8ea case 0x5B => 0xfcb9887c
    case 0x5C => 0x62dd1ddf case 0x5D => 0x15da2d49 case 0x5E => 0x8cd37cf3 case 0x5F => 0xfbd44c65
    case _ => 0
  }

  function Row6(i: bv32): bv32 {
    match i
    case 0x60 => 0x4db26158 case 0x61 => 0x3ab551ce case 0x62 => 0xa3bc0074 case 0x63 => 0xd4bb30e2
    case 0x64 => 0x4adfa541 case 0x65 => 0x3dd895d7 case 0x66 => 0xa4d1c46d case 0x67 => 0xd3d6f4fb
    case 0x68 => 0x4369e96a case 0x69 => 0x346ed9fc case 0x6A => 0xad678846 case 0x6B => 0xda60b8d0
    case 0x6C => 0x44042d73 case 0x6D => 0x33031de5 case 0x6E => 0xaa0a4c5f case 0x6F => 0xdd0d7cc9
    case _ => 0
  }

  function Row7(i: bv32): bv32 {
    match i
    case 0x70 => 0x5005713c case 0x71 => 0x270241aa case 0x72 => 0xbe0b1010 case 0x73 => 0xc90c2086
    case 0x74 => 0x5768b525 case 0x75 => 0x206f85b3 case 0x76 => 0xb966d409 case 0x77 => 0xce61e49f
    case 0x78 => 0x5edef90e case 0x79 => 0x29d9c998 case 0x7A => 0xb0d09822 case 0x7B => 0xc7d7a8b4
    case 0x7C => 0x59b33d17 case 0x7D => 0x2eb40d81 case 0x7E => 0xb7bd5c3b case 0x7F => 0xc0ba6cad
    case _ => 0
  }

  function Row8(i: bv32): bv32 {
    match i
    case 0x80 => 0xedb88320 case 0x81 => 0x9abfb3b6 case 0x82 => 0x03b6e20c case 0x83 => 0x74b1d29a
    case 0x84 => 0xead54739 case 0x85 => 0x9dd277af case 0x86 => 0x04db2615 case 0x87 => 0x73dc1683
    case 0x88 => 0xe3630b12 case 0x89 => 0x94643b84 case 0x8A => 0x0d6d6a3e case 0x8B => 0x7a6a5aa8
    case 0x8C => 0xe40ecf0b case 0x8D => 0x9309ff9d case 0x8E => 0x0a00ae27 case 0x8F => 0x7d079eb1
    case _ => 0
  }

  function Row9(i: bv32): bv32 {
    match i
    case 0x90 => 0xf00f9344 case 0x91 => 0x8708a3d2 case 0x92 => 0x1e01f268 case 0x93 => 0x6906c2fe
    case 0x94 => 0xf762575d case 0x95 => 0x806567cb case 0x96 => 0x196c3671 case 0x97 => 0x6e6b06e7
    case 0x98 => 0xfed41b76 case 0x99 => 0x89d32be0 case 0x9A => 0x10da7a5a case 0x9B => 0x67dd4acc
    case 0x9C => 0xf9b9df6f case 0x9D => 0x8ebeeff9 case 0x9E => 0x17b7be43 case 0x9F => 0x60b08ed5
    case _ => 0
  }

  function RowA(i: bv32): bv32 {
    match i
    case 0xA0 => 0xd6d6a3e8 case 0xA1 => 0xa1d1937e case 0xA2 => 0x38d8c2c4 case 0xA3 => 0x4fdff252
    case 0xA4 => 0xd1bb67f1 case 0xA5 => 0xa6bc5767 case 0xA6 => 0x3fb506dd case 0xA7 => 0x48b2364b
    case 0xA8 => 0xd80d2bda case 0xA9 => 0xaf0a1b4c case 0xAA => 0x36034af6 case 0xAB => 0x41047a60
    case 0xAC => 0xdf60efc3 case 0xAD => 0xa867df55 case 0xAE => 0x316e8eef case 0xAF => 0x4669be79
    case _ => 0
  }

  function RowB(i: bv32): bv32 {
    match i
    case 0xB0 => 0xcb61b38c case 0xB1 => 0xbc66831a case 0xB2 => 0x256fd2a0 case 0xB3 => 0x5268e236
    case 0xB4 => 0xcc0c7795 case 0xB5 => 0xbb0b4703 case 0xB6 => 0x220216b9 case 0xB7 => 0x5505262f
    case 0xB8 => 0xc5ba3bbe case 0xB9 => 0xb2bd0b28 case 0xBA => 0x2bb45a92 case 0xBB => 0x5cb36a04
    case 0xBC => 0xc2d7ffa7 case 0xBD => 0xb5d0cf31 case 0xBE => 0x2cd99e8b case 0xBF => 0x5bdeae1d
    case _ => 0
  }

  function RowC(i: bv32): bv32 {
    match i
    case 0xC0 => 0x9b64c2b0 case 0xC1 => 0xec63f226 case 0xC2 => 0x756aa39c case 0xC3 => 0x026d930a
    case 0xC4 => 0x9c0906a9 case 0xC5 => 0xeb0e363f case 0xC6 => 0x72076785 case 0xC7 => 0x05005713
    case 0xC8 => 0x95bf4a82 case 0xC9 => 0xe2b87a14 case 0xCA => 0x7bb12bae case 0xCB => 0x0cb61b38
    case 0xCC => 0x92d28e9b case 0xCD => 0xe5d5be0d case 0xCE => 0x7cdcefb7 case 0xCF => 0x0bdbdf21
    case _ => 0
  }

  function RowD(i: bv32): bv32 {
    match i
    case 0xD0 => 0x86d3d2d4 case 0xD1 => 0xf1d4e242 case 0xD2 => 0x68ddb3f8 case 0xD3 => 0x1fda836e
    case 0xD4 => 0x81be16cd case 0xD5 => 0xf6b9265b case 0xD6 => 0x6fb077e1 case 0xD7 => 0x18b74777
    case 0xD8 => 0x88085ae6 case 0xD9 => 0xff0f6a70 case 0xDA => 0x66063bca case 0xDB => 0x11010b5c
    case 0xDC => 0x8f659eff case 0xDD => 0xf862ae69 case 0xDE => 0x616bffd3 case 0xDF => 0x166ccf45
    case _ => 0
  }

  function RowE(i: bv32): bv32 {
    match i
    case 0xE0 => 0xa00ae278 case 0xE1 => 0xd70dd2ee case 0xE2 => 0x4e048354 case 0xE3 => 0x3903b3c2
    case 0xE4 => 0xa7672661 case 0xE5 => 0xd06016f7 case 0xE6 => 0x4969474d case 0xE7 => 0x3e6e77db
    case 0xE8 => 0xaed16a4a case 0xE9 => 0xd9d65adc case 0xEA => 0x40df0b66 case 0xEB => 0x37d83bf0
    case 0xEC => 0xa9bcae53 case 0xED => 0xdebb9ec5 case 0xEE => 0x47b2cf7f case 0xEF => 0x30b5ffe9
    case _ => 0
  }

  function RowF(i: bv32): bv32 {
    match i
    case 0xF0 => 0xbdbdf21c case 0xF1 => 0xcabac28a case 0xF2 => 0x53b39330 case 0xF3 => 0x24b4a3a6
    case 0xF4 => 0xbad03605 case 0xF5 => 0xcdd70693 case 0xF6 => 0x54de5729 case 0xF7 => 0x23d967bf
    case 0xF8 => 0xb3667a2e case 0xF9 => 0xc4614ab8 case 0xFA => 0x5d681b02 case 0xFB => 0x2a6f2b94
    case 0xFC => 0xb40bbe37 case 0xFD => 0xc30c8ea1 case 0xFE => 0x5a05df1b case 0xFF => 0x2d02ef8d
    case _ => 0
  }

  /** crc32tab. */
  function Table(i: bv32): bv32 {
    if i <= 0x7F then
      if i <= 0x3F then
        if i <= 0x1F then (if i <= 0x0F then Row0(i) else Row1(i)) else (if i <= 0x2F then Row2(i) else Row3(i))
      else
        if i <= 0x5F then (if i <= 0x4F then Row4(i) else Row5(i)) else (if i <= 0x6F then Row6(i) else Row7(i))
    else
      if i <= 0xBF then
        if i <= 0x9F then (if i <= 0x8F then Row8(i) else Row9(i)) else (if i <= 0xAF then RowA(i) else RowB(i))
      else
        if i <= 0xDF then (if i <= 0xCF then RowC(i) else RowD(i)) else (if i <= 0xEF then RowE(i) else RowF(i))
  }

  function Shift2(c: bv32): bv32 { Shift(Shift(c)) }
  function Shift4(c: bv32): bv32 { Shift2(Shift2(c)) }
  function Shift8(c: bv32): bv32 { Shift4(Shift4(c)) }

  lemma CheckRow0(i: bv32)
    requires 0x00 <= i <= 0x0F
    ensures Row0(i) == Shift8(i)
  {
  }

  lemma CheckRow1(i: bv32)
    requires 0x10 <= i <= 0x1F
    ensures Row1(i) == Shift8(i)
  {
  }

  lemma CheckRow2(i: bv32)
    requires 0x20 <= i <= 0x2F
    ensures Row2(i) == Shift8(i)
  {
  }

  lemma CheckRow3(i: bv32)
    requires 0x30 <= i <= 0x3F
    ensures Row3(i) == Shift8(i)
  {
  }

  lemma CheckRow4(i: bv32)
    requires 0x40 <= i <= 0x4F
    ensures Row4(i) == Shift8(i)
  {
  }

  lemma CheckRow5(i: bv32)
    requires 0x50 <= i <= 0x5F
    ensures Row5(i) == Shift8(i)
  {
  }

  lemma CheckRow6(i: bv32)
    requires 0x60 <= i <= 0x6F
    ensures Row6(i) == Shift8(i)
  {
  }

  lemma CheckRow7(i: bv32)
    requires 0x70 <= i <= 0x7F
    ensures Row7(i) == Shift8(i)
  {
  }

  lemma CheckRow8(i: bv32)
    requires 0x80 <= i <= 0x8F
    ensures Row8(i) == Shift8(i)
  {
  }

  lemma CheckRow9(i: bv32)
    requires 0x90 <= i <= 0x9F
    ensures Row9(i) == Shift8(i)
  {
  }

  lemma CheckRowA(i: bv32)
    requires 0xA0 <= i <= 0xAF
    ensures RowA(i) == Shift8(i)
  {
  }

  lemma CheckRowB(i: bv32)
    requires 0xB0 <= i <= 0xBF
    ensures RowB(i) == Shift8(i)
  {
  }

  lemma CheckRowC(i: bv32)
    requires 0xC0 <= i <= 0xCF
    ensures RowC(i) == Shift8(i)
  {
  }

  lemma CheckRowD(i: bv32)
    requires 0xD0 <= i <= 0xDF
    ensures RowD(i) == Shift8(i)
  {
  }

  lemma CheckRowE(i: bv32)
    requires 0xE0 <= i <= 0xEF
    ensures RowE(i) == Shift8(i)
  {
  }

  lemma CheckRowF(i: bv32)
    requires 0xF0 <= i <= 0xFF
    ensures RowF(i) == Shift8(i)
  {
  }

  /** Every table entry is its index after eight steps. */
  lemma TableAgrees(i: bv32)
    requires i <= 0xFF
    ensures Table(i) == Shift8(i)
  {
    hide Shift8;
    if i <= 0x7F {
      if i <= 0x0F { CheckRow0(i); } else if i <= 0x1F { CheckRow1(i); }
      else if i <= 0x2F { CheckRow2(i); } else if i <= 0x3F { CheckRow3(i); }
      else if i <= 0x4F { CheckRow4(i); } else if i <= 0x5F { CheckRow5(i); }
      else if i <= 0x6F { CheckRow6(i); } else { CheckRow7(i); }
    } else {
      if i <= 0x8F { CheckRow8(i); } else if i <= 0x9F { CheckRow9(i); }
      else if i <= 0xAF { CheckRowA(i); } else if i <= 0xBF { CheckRowB(i); }
      else if i <= 0xCF { CheckRowC(i); } else if i <= 0xDF { CheckRowD(i); }
      else if i <= 0xEF { CheckRowE(i); } else { CheckRowF(i); }
    }
  }

  // ---------------------------------------------------------------------------------------------
  // Linearity
  // ---------------------------------------------------------------------------------------------

  lemma XorHalf(x: bv32, y: bv32)
    ensures (x ^ y) >> 1 == (x >> 1) ^ (y >> 1)
  {
  }

  lemma XorSwap(a: bv32, b: bv32, p: bv32)
    ensures (a ^ p) ^ (b ^ p) == a ^ b
    ensures (a ^ p) ^ b == (a ^ b) ^ p
  {
  }

  lemma XorCommutes(x: bv32, y: bv32)
    ensures x ^ y == y ^ x
  {
  }

  lemma LowBit(x: bv32)
    ensures x & 1 == 0 || x & 1 == 1
  {
  }

  lemma ShiftOdd(c: bv32, h: bv32)
    requires c & 1 == 1 && h == c >> 1
    ensures Shift(c) == h ^ 0xEDB88320
  {
  }

  lemma ShiftEven(c: bv32, h: bv32)
    requires c & 1 == 0 && h == c >> 1
    ensures Shift(c) == h
  {
  }

  lemma ShiftOddOdd(x: bv32, y: bv32, z: bv32)
    requires z == x ^ y && x & 1 == 1 && y & 1 == 1
    ensures Shift(z) == Shift(x) ^ Shift(y)
  {
    hide Shift;
    assert z & 1 == 0;
    ShiftOdd(x, x >> 1);
    ShiftOdd(y, y >> 1);
    ShiftEven(z, z >> 1);
    XorHalf(x, y);
    XorSwap(x >> 1, y >> 1, 0xEDB88320);
  }

  lemma ShiftOddEven(x: bv32, y: bv32, z: bv32)
    requires z == x ^ y && x & 1 == 1 && y & 1 == 0
    ensures Shift(z) == Shift(x) ^ Shift(y)
  {
    hide Shift;
    assert z & 1 == 1;
    ShiftOdd(x, x >> 1);
    ShiftEven(y, y >> 1);
    ShiftOdd(z, z >> 1);
    XorHalf(x, y);
    XorSwap(x >> 1, y >> 1, 0xEDB88320);
  }

  lemma ShiftEvenEven(x: bv32, y: bv32, z: bv32)
    requires z == x ^ y && x & 1 == 0 && y & 1 == 0
    ensures Shift(z) == Shift(x) ^ Shift(y)
  {
    hide Shift;
    assert z & 1 == 0;
    ShiftEven(x, x >> 1);
    ShiftEven(y, y >> 1);
    ShiftEven(z, z >> 1);
    XorHalf(x, y);
  }

  /** A step is linear over xor. */
  lemma ShiftXor(x: bv32, y: bv32)
    ensures Shift(Xor(x, y)) == Xor(Shift(x), Shift(y))
  {
    hide Shift;
    LowBit(x);
    LowBit(y);
    var z := x ^ y;
    if x & 1 == 1 && y & 1 == 1 {
      ShiftOddOdd(x, y, z);
    } else if x & 1 == 1 {
      ShiftOddEven(x, y, z);
    } else if y & 1 == 1 {
      XorCommutes(x, y);
      XorCommutes(Shift(x), Shift(y));
      ShiftOddEven(y, x, z);
    } else {
      ShiftEvenEven(x, y, z);
    }
  }

  /** Eight steps are linear over xor. */
  lemma Shift8Xor(x: bv32, y: bv32)
    ensures Shift8(Xor(x, y)) == Xor(Shift8(x), Shift8(y))
  {
    hide Shift;
    hide Xor;
    ShiftXor(x, y);
    var x1, y1 := Shift(x), Shift(y);
    ShiftXor(x1, y1);
    var x2, y2 := Shift(x1), Shift(y1);
    ShiftXor(x2, y2);
    var x3, y3 := Shift(x2), Shift(y2);
    ShiftXor(x3, y3);
    var x4, y4 := Shift(x3), Shift(y3);
    ShiftXor(x4, y4);
    var x5, y5 := Shift(x4), Shift(y4);
    ShiftXor(x5, y5);
    var x6, y6 := Shift(x5), Shift(y5);
    ShiftXor(x6, y6);
    var x7, y7 := Shift(x6), Shift(y6);
    ShiftXor(x7, y7);
  }

  lemma HighBytes(z: bv32)
    requires z & 0xFF == 0
    ensures Shift8(z) == z >> 8
  {
  }

  lemma SplitLow(x: bv32, a: bv32, b: bv32)
    requires a == x & 0xFFFFFF00 && b == x & 0xFF
    ensures x == Xor(a, b) && a & 0xFF == 0 && a >> 8 == x >> 8 && b <= 0xFF
  {
  }

  /** Eight steps at once: move three bytes down and look the fourth up. */
  lemma StepByTable(x: bv32)
    ensures Shift8(x) == Xor(x >> 8, Table(x & 0xFF))
  {
    hide Shift8;
    hide Table;
    hide Xor;
    var a, b := x & 0xFFFFFF00, x & 0xFF;
    SplitLow(x, a, b);
    Shift8Xor(a, b);
    HighBytes(a);
    TableAgrees(b);
  }

  // ---------------------------------------------------------------------------------------------
  // Bit by bit
  // ---------------------------------------------------------------------------------------------

  lemma SplitBit(r: bv32, low: bv32, rest: bv32)
    requires low == r & 1 && rest == r & 0xFFFFFFFE
    ensures r == Xor(low, rest) && rest & 1 == 0 && rest >> 1 == Half(r)
  {
  }

  lemma XorAssociative(a: bv32, b: bv32, c: bv32)
    ensures Xor(Xor(a, b), c) == Xor(a, Xor(b, c))
  {
  }

  /** Bits that wait outside the register may as well already lie in it. */
  lemma FeedAhead(c: bv32, r: bv32)
    ensures Shift(Xor(c, r)) == Xor(FeedBit(c, r), Half(r))
  {
    hide Shift;
    hide Xor;
    hide Half;
    var low, rest := r & 1, r & 0xFFFFFFFE;
    SplitBit(r, low, rest);
    XorAssociative(c, low, rest);
    ShiftXor(Xor(c, low), rest);
    ShiftEven(rest, Half(r));
  }

  function ShiftN(c: bv32, n: nat): bv32
    decreases n
  {
    if n == 0 then c else ShiftN(Shift(c), n - 1)
  }

  function Rest(r: bv32, n: nat): bv32
    decreases n
  {
    if n == 0 then r else Rest(Half(r), n - 1)
  }

  lemma {:induction false} FeedAllAhead(c: bv32, r: bv32, n: nat)
    ensures ShiftN(Xor(c, r), n) == Xor(FeedBits(c, r, n), Rest(r, n))
    decreases n
  {
    hide Shift;
    hide FeedBit;
    hide Xor;
    hide Half;
    if 0 < n {
      FeedAhead(c, r);
      FeedAllAhead(FeedBit(c, r), Half(r), n - 1);
    }
  }

  lemma RestOfByte(r: bv32)
    requires r <= 0xFF
    ensures Rest(r, 8) == 0
  {
    EightHalves(r);
    assert Half(Half(Half(Half(Half(Half(Half(Half(r)))))))) == 0;
  }

  lemma EightHalves(r: bv32)
    ensures Rest(r, 8) == Half(Half(Half(Half(Half(Half(Half(Half(r))))))))
  {
    hide Half;
    var r2 := Half(Half(r));
    var r4 := Half(Half(r2));
    var r6 := Half(Half(r4));
    assert Rest(r, 8) == Rest(r2, 6);
    assert Rest(r2, 6) == Rest(r4, 4);
    assert Rest(r4, 4) == Rest(r6, 2);
    assert Rest(r6, 2) == Rest(Half(Half(r6)), 0);
  }

  lemma EightShifts(c: bv32)
    ensures ShiftN(c, 8) == Shift8(c)
  {
    hide Shift;
    var c2 := Shift2(c);
    var c4 := Shift2(c2);
    var c6 := Shift2(c4);
    assert ShiftN(c, 8) == ShiftN(c2, 6);
    assert ShiftN(c2, 6) == ShiftN(c4, 4);
    assert ShiftN(c4, 4) == ShiftN(c6, 2);
    assert ShiftN(c6, 2) == ShiftN(Shift2(c6), 0);
  }

  /** Feeding a byte bit by bit is one look-up. */
  lemma FeedByte(c: bv32, b: bv8)
    ensures FeedBits(c, b as bv32, 8) == Xor(c >> 8, Table(Xor(c, b as bv32) & 0xFF))
  {
    hide FeedBits;
    hide Table;
    hide Shift8;
    hide ShiftN;
    hide Rest;
    hide Xor;
    var r: bv32 := b as bv32;
    var x := Xor(c, r);
    FeedAllAhead(c, r, 8);
    ByteIn(c, b, r, x);
    RestOfByte(r);
    EightShifts(x);
    StepByTable(x);
    XorZero(FeedBits(c, r, 8));
  }

  lemma XorZero(x: bv32)
    ensures Xor(x, 0) == x
  {
  }

  lemma ByteIn(c: bv32, b: bv8, r: bv32, x: bv32)
    requires r == b as bv32 && x == Xor(c, r)
    ensures r <= 0xFF && x >> 8 == c >> 8
  {
  }

  /** crc32_sz. */
  method Crc32Sz(buf: seq<bv8>) returns (r: bv32)
    ensures r == !Register(buf)
  {
    hide Table;
    hide FeedBits;
    hide Xor;
    var crc: bv32 := 0xFFFFFFFF;
    for p := 0 to |buf|
      invariant crc == Register(buf[..p])
    {
      FeedByte(crc, buf[p]);
      assert buf[..p + 1][..p] == buf[..p];
      crc := Xor(crc >> 8, Table(Xor(crc, buf[p] as bv32) & 0xFF));
    }
    assert buf[..|buf|] == buf;
    r := !crc;
  }

  // ---------------------------------------------------------------------------------------------
  // What the checksum tells apart
  // ---------------------------------------------------------------------------------------------

  /** The register after more bytes. */
  function FeedAll(c: bv32, bs: seq<bv8>): bv32 {
    if bs == [] then c else FeedBits(FeedAll(c, bs[..|bs| - 1]), bs[|bs| - 1] as bv32, 8)
  }

  lemma {:induction false} RegisterIsFed(bs: seq<bv8>)
    ensures Register(bs) == FeedAll(0xFFFFFFFF, bs)
  {
    hide FeedBits;
    if bs != [] { RegisterIsFed(bs[..|bs| - 1]); }
  }

  lemma {:induction false} FeedMore(c: bv32, x: seq<bv8>, y: seq<bv8>)
    ensures FeedAll(c, x + y) == FeedAll(FeedAll(c, x), y)
    decreases |y|
  {
    hide FeedBits;
    if y == [] {
      assert x + y == x;
    } else {
      FeedMore(c, x, y[..|y| - 1]);
      assert (x + y)[..|x + y| - 1] == x + y[..|y| - 1];
    }
  }

  /** Feeding a byte bit by bit is eight steps on the register with the byte in it. */
  lemma ByteFed(c: bv32, b: bv8)
    ensures FeedBits(c, b as bv32, 8) == Shift8(Xor(c, b as bv32))
  {
    hide FeedBits;
    hide Table;
    hide Shift8;
    hide Xor;
    FeedByte(c, b);
    StepByTable(Xor(c, b as bv32));
    ByteIn(c, b, b as bv32, Xor(c, b as bv32));
  }

  lemma ShiftToZero(z: bv32)
    requires Shift(z) == 0
    ensures z == 0
  {
  }

  lemma EqualByXor(x: bv32, y: bv32)
    ensures Xor(x, x) == 0 && (Xor(x, y) == 0 ==> x == y)
  {
  }

  /** Eight steps lose nothing. */
  lemma Shift8Injective(x: bv32, y: bv32)
    requires Shift8(x) == Shift8(y)
    ensures x == y
  {
    hide Shift;
    hide Xor;
    Shift8Xor(x, y);
    EqualByXor(Shift8(x), Shift8(y));
    EqualByXor(x, y);
    var z := Xor(x, y);
    var z1 := Shift(z);
    var z2 := Shift(z1);
    var z3 := Shift(z2);
    var z4 := Shift(z3);
    var z5 := Shift(z4);
    var z6 := Shift(z5);
    var z7 := Shift(z6);
    ShiftToZero(z7);
    ShiftToZero(z6);
    ShiftToZero(z5);
    ShiftToZero(z4);
    ShiftToZero(z3);
    ShiftToZero(z2);
    ShiftToZero(z1);
    ShiftToZero(z);
  }

  function Up(w: bv32): bv32 { w << 8 }

  /** Up to four bytes as one word, the first lowest. */
  function Packed(bs: seq<bv8>): bv32
    requires |bs| <= 4
  {
    if bs == [] then 0 else Xor(bs[0] as bv32, Up(Packed(bs[1..])))
  }

  /** A word of at most n bytes. */
  predicate OfBytes(w: bv32, n: nat) {
    if n == 0 then w == 0 else if n == 1 then w <= 0xFF else if n == 2 then w <= 0xFFFF
    else if n == 3 then w <= 0xFFFFFF else true
  }

  lemma OneByteMore(w: bv32, b: bv8, n: nat)
    requires OfBytes(w, n)
    ensures OfBytes(Xor(b as bv32, Up(w)), n + 1)
  {
  }

  lemma {:induction false} PackedBytes(bs: seq<bv8>)
    requires |bs| <= 4
    ensures OfBytes(Packed(bs), |bs|)
  {
    hide Xor;
    hide Up;
    if bs != [] {
      PackedBytes(bs[1..]);
      hide OfBytes;
      OneByteMore(Packed(bs[1..]), bs[0], |bs| - 1);
    }
  }

  lemma FewBytes(w: bv32, n: nat)
    requires OfBytes(w, n) && n <= 3
    ensures w <= 0xFFFFFF
  {
  }

  lemma ApartWords(a: bv8, v: bv32, b: bv8, w: bv32)
    requires v <= 0xFFFFFF && w <= 0xFFFFFF && Xor(a as bv32, Up(v)) == Xor(b as bv32, Up(w))
    ensures a == b && v == w
  {
  }

  lemma {:induction false} PackedInjective(x: seq<bv8>, y: seq<bv8>)
    requires |x| == |y| <= 4 && Packed(x) == Packed(y)
    ensures x == y
    decreases |x|
  {
    hide Xor;
    hide Up;
    hide OfBytes;
    if x != [] {
      PackedBytes(x[1..]);
      PackedBytes(y[1..]);
      FewBytes(Packed(x[1..]), |x| - 1);
      FewBytes(Packed(y[1..]), |x| - 1);
      ApartWords(x[0], Packed(x[1..]), y[0], Packed(y[1..]));
      PackedInjective(x[1..], y[1..]);
      assert x == [x[0]] + x[1..] && y == [y[0]] + y[1..];
    }
  }

  function StepBytes(c: bv32, n: nat): bv32
    decreases n
  {
    if n == 0 then c else StepBytes(Shift8(c), n - 1)
  }

  lemma MovedDown(w: bv32)
    requires w <= 0xFFFFFF
    ensures Shift8(Up(w)) == w
  {
    HighBytes(w << 8);
  }

  /** Three bytes waiting behind one may as well already lie in the register. */
  lemma FedAhead(c: bv32, b: bv32, w: bv32)
    requires w <= 0xFFFFFF
    ensures Shift8(Xor(c, Xor(b, Up(w)))) == Xor(Shift8(Xor(c, b)), w)
  {
    hide Shift8;
    hide Xor;
    hide Up;
    XorAssociative(c, b, Up(w));
    Shift8Xor(Xor(c, b), Up(w));
    MovedDown(w);
  }

  /** Four bytes may be put into the register at once. */
  lemma {:induction false} FedAtOnce(c: bv32, bs: seq<bv8>)
    requires |bs| <= 4
    ensures FeedAll(c, bs) == StepBytes(Xor(c, Packed(bs)), |bs|)
    decreases |bs|
  {
    hide FeedBits;
    hide Shift8;
    hide Xor;
    hide Up;
    hide OfBytes;
    if bs == [] {
      XorZero(c);
    } else {
      var t := bs[1..];
      PackedBytes(t);
      FewBytes(Packed(t), |t|);
      FedAhead(c, bs[0] as bv32, Packed(t));
      var c1 := FedFirst(c, bs);
      FedAtOnce(c1, t);
    }
  }

  lemma FedFirst(c: bv32, bs: seq<bv8>) returns (c1: bv32)
    requires bs != []
    ensures c1 == Shift8(Xor(c, bs[0] as bv32)) && FeedAll(c, bs) == FeedAll(c1, bs[1..])
  {
    hide FeedBits;
    hide Shift8;
    hide Xor;
    assert bs == [bs[0]] + bs[1..];
    FeedMore(c, [bs[0]], bs[1..]);
    FedOne(c, bs[0]);
    ByteFed(c, bs[0]);
    c1 := FeedAll(c, [bs[0]]);
  }

  lemma FedOne(c: bv32, b: bv8)
    ensures FeedAll(c, [b]) == FeedBits(c, b as bv32, 8)
  {
    hide FeedBits;
    assert [b][..0] == [];
  }

  lemma {:induction false} StepBytesInjective(x: bv32, y: bv32, n: nat)
    requires StepBytes(x, n) == StepBytes(y, n)
    ensures x == y
    decreases n
  {
    hide Shift8;
    if 0 < n {
      StepBytesInjective(Shift8(x), Shift8(y), n - 1);
      Shift8Injective(x, y);
    }
  }

  lemma XorInjective(c: bv32, x: bv32, y: bv32)
    requires Xor(c, x) == Xor(c, y) || Xor(x, c) == Xor(y, c)
    ensures x == y
  {
  }

  lemma {:induction false} FeedAllInjective(c: bv32, d: bv32, bs: seq<bv8>)
    requires FeedAll(c, bs) == FeedAll(d, bs)
    ensures c == d
    decreases |bs|
  {
    hide FeedBits;
    hide Shift8;
    hide Xor;
    if bs != [] {
      var init, b := bs[..|bs| - 1], bs[|bs| - 1];
      var c1, d1 := FeedAll(c, init), FeedAll(d, init);
      ByteFed(c1, b);
      ByteFed(d1, b);
      Shift8Injective(Xor(c1, b as bv32), Xor(d1, b as bv32));
      XorInjective(b as bv32, c1, d1);
      FeedAllInjective(c, d, init);
    }
  }

  /** Two buffers of one length that differ only within four successive bytes never have the same checksum. */
  lemma BurstDetected(before: seq<bv8>, x: seq<bv8>, y: seq<bv8>, after: seq<bv8>)
    requires |x| == |y| <= 4 && x != y
    ensures !Register(before + x + after) != !Register(before + y + after)
  {
    hide FeedAll;
    hide StepBytes;
    hide Packed;
    hide Xor;
    RegisterIsFed(before + x + after);
    RegisterIsFed(before + y + after);
    if Register(before + x + after) == Register(before + y + after) {
      var c: bv32 := 0xFFFFFFFF;
      FeedMore(c, before + x, after);
      FeedMore(c, before + y, after);
      FeedAllInjective(FeedAll(c, before + x), FeedAll(c, before + y), after);
      FeedMore(c, before, x);
      FeedMore(c, before, y);
      var d := FeedAll(c, before);
      FedAtOnce(d, x);
      FedAtOnce(d, y);
      StepBytesInjective(Xor(d, Packed(x)), Xor(d, Packed(y)), |x|);
      XorInjective(d, Packed(x), Packed(y));
      PackedInjective(x, y);
    }
    NotInjective(Register(before + x + after), Register(before + y + after));
  }

  lemma NotInjective(x: bv32, y: bv32)
    ensures !x == !y ==> x == y
  {
  }

  const DIGITS: seq<bv8> := [0x31, 0x32, 0x33, 0x34, 0x35, 0x36, 0x37, 0x38, 0x39]

  lemma FedTo(bs: seq<bv8>, k: nat, c: bv32, next: bv32)
    requires k < |bs| && Register(bs[..k]) == c
    requires Xor(c >> 8, Table(Xor(c, bs[k] as bv32) & 0xFF)) == next
    ensures Register(bs[..k + 1]) == next
  {
    hide FeedBits;
    hide Table;
    hide Xor;
    FeedByte(c, bs[k]);
    RegisterOfMore(bs, k);
  }

  lemma RegisterOfMore(bs: seq<bv8>, k: nat)
    requires k < |bs|
    ensures Register(bs[..k + 1]) == FeedBits(Register(bs[..k]), bs[k] as bv32, 8)
  {
    hide FeedBits;
    assert bs[..k + 1][..k] == bs[..k];
  }

  lemma FirstDigits()
    ensures Register(DIGITS[..5]) == 0x340AC5E3
  {
    hide Register;
    EmptyRegister();
    assert DIGITS[..0] == [];
    FedTo(DIGITS, 0, 0xFFFFFFFF, 0x7C231048);
    FedTo(DIGITS, 1, 0x7C231048, 0xB0ACBB32);
    FedTo(DIGITS, 2, 0xB0ACBB32, 0x77B79C2D);
    FedTo(DIGITS, 3, 0x77B79C2D, 0x641C1F5C);
    FedTo(DIGITS, 4, 0x641C1F5C, 0x340AC5E3);
  }

  /** The checksum of the digits 1 to 9 is the check value of CRC-32. */
  lemma CheckValue()
    ensures !Register(DIGITS) == 0xCBF43926
  {
    hide Register;
    FirstDigits();
    assert DIGITS[..9] == DIGITS;
    FedTo(DIGITS, 5, 0x340AC5E3, 0xF68D2C9E);
    FedTo(DIGITS, 6, 0xF68D2C9E, 0xAFFC9660);
    FedTo(DIGITS, 7, 0xAFFC9660, 0x651F2550);
    FedTo(DIGITS, 8, 0x651F2550, 0x340BC6D9);
  }

  lemma EmptyRegister()
    ensures Register([]) == 0xFFFFFFFF
  {
  }
}
