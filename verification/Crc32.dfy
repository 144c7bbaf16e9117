/**
  The checksum of MPEG-TS sections: the table-driven loop computes the
  bit-serial CRC of Annex A of ISO/IEC 13818-1, and a section followed by its
  checksum always checks.
 */
module Crc32 {
  const POLYNOMIAL: bv32 := 0x04C11DB7
  const ALL_ONES: bv32 := 0xFFFF_FFFF

  function Xor(x: bv32, y: bv32): bv32 {
    x ^ y
  }

  function Twice(x: bv32): bv32 {
    x << 1
  }

  function Top(x: bv32): bool {
    x & 0x8000_0000 != 0
  }

  function Bit(b: bv8, mask: bv8): bool {
    b & mask != 0
  }

  /** A byte in the top bits of a word. */
  function AtTop(b: bv8): bv32 {
    (b as bv32) << 24
  }

  // ------------------------------------------------------- bit by bit

  /** Annex A: one message bit enters the register. */
  function Step(crc: bv32, bit: bool): bv32 {
    if Top(crc) != bit then Xor(Twice(crc), POLYNOMIAL) else Twice(crc)
  }

  /** The bits of a byte, most significant first. */
  function Bits(b: bv8): seq<bool> {
    [Bit(b, 0x80), Bit(b, 0x40), Bit(b, 0x20), Bit(b, 0x10), Bit(b, 8), Bit(b, 4), Bit(b, 2), Bit(b, 1)]
  }

  function MessageBits(src: seq<bv8>): seq<bool> {
    if src == [] then [] else MessageBits(src[..|src| - 1]) + Bits(src[|src| - 1])
  }

  function Serial(crc: bv32, bits: seq<bool>): bv32
    decreases |bits|
  {
    if bits == [] then crc else Serial(Step(crc, bits[0]), bits[1..])
  }

  /** The checksum of Annex A: the register, first all ones, after the whole message. */
  function AnnexA(src: seq<bv8>): bv32 {
    Serial(ALL_ONES, MessageBits(src))
  }

  // ------------------------------------------------------- byte by byte

  function CrcRow0(j: bv8): bv32 {
    if j == 0 then 0x00000000 else if j == 1 then 0x04c11db7 else if j == 2 then 0x09823b6e else if j == 3 then 0x0d4326d9
    else if j == 4 then 0x130476dc else if j == 5 then 0x17c56b6b else if j == 6 then 0x1a864db2 else if j == 7 then 0x1e475005
    else if j == 8 then 0x2608edb8 else if j == 9 then 0x22c9f00f else if j == 10 then 0x2f8ad6d6 else if j == 11 then 0x2b4bcb61
    else if j == 12 then 0x350c9b64 else if j == 13 then 0x31cd86d3 else if j == 14 then 0x3c8ea00a else 0x384fbdbd
  }

  function CrcRow1(j: bv8): bv32 {
    if j == 16 then 0x4c11db70 else if j == 17 then 0x48d0c6c7 else if j == 18 then 0x4593e01e else if j == 19 then 0x4152fda9
    else if j == 20 then 0x5f15adac else if j == 21 then 0x5bd4b01b else if j == 22 then 0x569796c2 else if j == 23 then 0x52568b75
    else if j == 24 then 0x6a1936c8 else if j == 25 then 0x6ed82b7f else if j == 26 then 0x639b0da6 else if j == 27 then 0x675a1011
    else if j == 28 then 0x791d4014 else if j == 29 then 0x7ddc5da3 else if j == 30 then 0x709f7b7a else 0x745e66cd
  }

  function CrcRow2(j: bv8): bv32 {
    if j == 32 then 0x9823b6e0 else if j == 33 then 0x9ce2ab57 else if j == 34 then 0x91a18d8e else if j == 35 then 0x95609039
    else if j == 36 then 0x8b27c03c else if j == 37 then 0x8fe6dd8b else if j == 38 then 0x82a5fb52 else if j == 39 then 0x8664e6e5
    else if j == 40 then 0xbe2b5b58 else if j == 41 then 0xbaea46ef else if j == 42 then 0xb7a96036 else if j == 43 then 0xb3687d81
    else if j == 44 then 0xad2f2d84 else if j == 45 then 0xa9ee3033 else if j == 46 then 0xa4ad16ea else 0xa06c0b5d
  }

  function CrcRow3(j: bv8): bv32 {
    if j == 48 then 0xd4326d90 else if j == 49 then 0xd0f37027 else if j == 50 then 0xddb056fe else if j == 51 then 0xd9714b49
    else if j == 52 then 0xc7361b4c else if j == 53 then 0xc3f706fb else if j == 54 then 0xceb42022 else if j == 55 then 0xca753d95
    else if j == 56 then 0xf23a8028 else if j == 57 then 0xf6fb9d9f else if j == 58 then 0xfbb8bb46 else if j == 59 then 0xff79a6f1
    else if j == 60 then 0xe13ef6f4 else if j == 61 then 0xe5ffeb43 else if j == 62 then 0xe8bccd9a else 0xec7dd02d
  }

  function CrcRow4(j: bv8): bv32 {
    if j == 64 then 0x34867077 else if j == 65 then 0x30476dc0 else if j == 66 then 0x3d044b19 else if j == 67 then 0x39c556ae
    else if j == 68 then 0x278206ab else if j == 69 then 0x23431b1c else if j == 70 then 0x2e003dc5 else if j == 71 then 0x2ac12072
    else if j == 72 then 0x128e9dcf else if j == 73 then 0x164f8078 else if j == 74 then 0x1b0ca6a1 else if j == 75 then 0x1fcdbb16
    else if j == 76 then 0x018aeb13 else if j == 77 then 0x054bf6a4 else if j == 78 then 0x0808d07d else 0x0cc9cdca
  }

  function CrcRow5(j: bv8): bv32 {
    if j == 80 then 0x7897ab07 else if j == 81 then 0x7c56b6b0 else if j == 82 then 0x71159069 else if j == 83 then 0x75d48dde
    else if j == 84 then 0x6b93dddb else if j == 85 then 0x6f52c06c else if j == 86 then 0x6211e6b5 else if j == 87 then 0x66d0fb02
    else if j == 88 then 0x5e9f46bf else if j == 89 then 0x5a5e5b08 else if j == 90 then 0x571d7dd1 else if j == 91 then 0x53dc6066
    else if j == 92 then 0x4d9b3063 else if j == 93 then 0x495a2dd4 else if j == 94 then 0x44190b0d else 0x40d816ba
  }

  function CrcRow6(j: bv8): bv32 {
    if j == 96 then 0xaca5c697 else if j == 97 then 0xa864db20 else if j == 98 then 0xa527fdf9 else if j == 99 then 0xa1e6e04e
    else if j == 100 then 0xbfa1b04b else if j == 101 then 0xbb60adfc else if j == 102 then 0xb6238b25 else if j == 103 then 0xb2e29692
    else if j == 104 then 0x8aad2b2f else if j == 105 then 0x8e6c3698 else if j == 106 then 0x832f1041 else if j == 107 then 0x87ee0df6
    else if j == 108 then 0x99a95df3 else if j == 109 then 0x9d684044 else if j == 110 then 0x902b669d else 0x94ea7b2a
  }

  function CrcRow7(j: bv8): bv32 {
    if j == 112 then 0xe0b41de7 else if j == 113 then 0xe4750050 else if j == 114 then 0xe9362689 else if j == 115 then 0xedf73b3e
    else if j == 116 then 0xf3b06b3b else if j == 117 then 0xf771768c else if j == 118 then 0xfa325055 else if j == 119 then 0xfef34de2
    else if j == 120 then 0xc6bcf05f else if j == 121 then 0xc27dede8 else if j == 122 then 0xcf3ecb31 else if j == 123 then 0xcbffd686
    else if j == 124 then 0xd5b88683 else if j == 125 then 0xd1799b34 else if j == 126 then 0xdc3abded else 0xd8fba05a
  }

  function CrcRow8(j: bv8): bv32 {
    if j == 128 then 0x690ce0ee else if j == 129 then 0x6dcdfd59 else if j == 130 then 0x608edb80 else if j == 131 then 0x644fc637
    else if j == 132 then 0x7a089632 else if j == 133 then 0x7ec98b85 else if j == 134 then 0x738aad5c else if j == 135 then 0x774bb0eb
    else if j == 136 then 0x4f040d56 else if j == 137 then 0x4bc510e1 else if j == 138 then 0x46863638 else if j == 139 then 0x42472b8f
    else if j == 140 then 0x5c007b8a else if j == 141 then 0x58c1663d else if j == 142 then 0x558240e4 else 0x51435d53
  }

  function CrcRow9(j: bv8): bv32 {
    if j == 144 then 0x251d3b9e else if j == 145 then 0x21dc2629 else if j == 146 then 0x2c9f00f0 else if j == 147 then 0x285e1d47
    else if j == 148 then 0x36194d42 else if j == 149 then 0x32d850f5 else if j == 150 then 0x3f9b762c else if j == 151 then 0x3b5a6b9b
    else if j == 152 then 0x0315d626 else if j == 153 then 0x07d4cb91 else if j == 154 then 0x0a97ed48 else if j == 155 then 0x0e56f0ff
    else if j == 156 then 0x1011a0fa else if j == 157 then 0x14d0bd4d else if j == 158 then 0x19939b94 else 0x1d528623
  }

  function CrcRow10(j: bv8): bv32 {
    if j == 160 then 0xf12f560e else if j == 161 then 0xf5ee4bb9 else if j == 162 then 0xf8ad6d60 else if j == 163 then 0xfc6c70d7
    else if j == 164 then 0xe22b20d2 else if j == 165 then 0xe6ea3d65 else if j == 166 then 0xeba91bbc else if j == 167 then 0xef68060b
    else if j == 168 then 0xd727bbb6 else if j == 169 then 0xd3e6a601 else if j == 170 then 0xdea580d8 else if j == 171 then 0xda649d6f
    else if j == 172 then 0xc423cd6a else if j == 173 then 0xc0e2d0dd else if j == 174 then 0xcda1f604 else 0xc960ebb3
  }

  function CrcRow11(j: bv8): bv32 {
    if j == 176 then 0xbd3e8d7e else if j == 177 then 0xb9ff90c9 else if j == 178 then 0xb4bcb610 else if j == 179 then 0xb07daba7
    else if j == 180 then 0xae3afba2 else if j == 181 then 0xaafbe615 else if j == 182 then 0xa7b8c0cc else if j == 183 then 0xa379dd7b
    else if j == 184 then 0x9b3660c6 else if j == 185 then 0x9ff77d71 else if j == 186 then 0x92b45ba8 else if j == 187 then 0x9675461f
    else if j == 188 then 0x8832161a else if j == 189 then 0x8cf30bad else if j == 190 then 0x81b02d74 else 0x857130c3
  }

  function CrcRow12(j: bv8): bv32 {
    if j == 192 then 0x5d8a9099 else if j == 193 then 0x594b8d2e else if j == 194 then 0x5408abf7 else if j == 195 then 0x50c9b640
    else if j == 196 then 0x4e8ee645 else if j == 197 then 0x4a4ffbf2 else if j == 198 then 0x470cdd2b else if j == 199 then 0x43cdc09c
    else if j == 200 then 0x7b827d21 else if j == 201 then 0x7f436096 else if j == 202 then 0x7200464f else if j == 203 then 0x76c15bf8
    else if j == 204 then 0x68860bfd else if j == 205 then 0x6c47164a else if j == 206 then 0x61043093 else 0x65c52d24
  }

  function CrcRow13(j: bv8): bv32 {
    if j == 208 then 0x119b4be9 else if j == 209 then 0x155a565e else if j == 210 then 0x18197087 else if j == 211 then 0x1cd86d30
    else if j == 212 then 0x029f3d35 else if j == 213 then 0x065e2082 else if j == 214 then 0x0b1d065b else if j == 215 then 0x0fdc1bec
    else if j == 216 then 0x3793a651 else if j == 217 then 0x3352bbe6 else if j == 218 then 0x3e119d3f else if j == 219 then 0x3ad08088
    else if j == 220 then 0x2497d08d else if j == 221 then 0x2056cd3a else if j == 222 then 0x2d15ebe3 else 0x29d4f654
  }

  function CrcRow14(j: bv8): bv32 {
    if j == 224 then 0xc5a92679 else if j == 225 then 0xc1683bce else if j == 226 then 0xcc2b1d17 else if j == 227 then 0xc8ea00a0
    else if j == 228 then 0xd6ad50a5 else if j == 229 then 0xd26c4d12 else if j == 230 then 0xdf2f6bcb else if j == 231 then 0xdbee767c
    else if j == 232 then 0xe3a1cbc1 else if j == 233 then 0xe760d676 else if j == 234 then 0xea23f0af else if j == 235 then 0xeee2ed18
    else if j == 236 then 0xf0a5bd1d else if j == 237 then 0xf464a0aa else if j == 238 then 0xf9278673 else 0xfde69bc4
  }

  function CrcRow15(j: bv8): bv32 {
    if j == 240 then 0x89b8fd09 else if j == 241 then 0x8d79e0be else if j == 242 then 0x803ac667 else if j == 243 then 0x84fbdbd0
    else if j == 244 then 0x9abc8bd5 else if j == 245 then 0x9e7d9662 else if j == 246 then 0x933eb0bb else if j == 247 then 0x97ffad0c
    else if j == 248 then 0xafb010b1 else if j == 249 then 0xab710d06 else if j == 250 then 0xa6322bdf else if j == 251 then 0xa2f33668
    else if j == 252 then 0xbcb4666d else if j == 253 then 0xb8757bda else if j == 254 then 0xb5365d03 else 0xb1f740b4
  }

  /** The source's table of 256 words. */
  function CrcTable(j: bv8): bv32 {
    if j < 16 then CrcRow0(j)
    else if j < 32 then CrcRow1(j)
    else if j < 48 then CrcRow2(j)
    else if j < 64 then CrcRow3(j)
    else if j < 80 then CrcRow4(j)
    else if j < 96 then CrcRow5(j)
    else if j < 112 then CrcRow6(j)
    else if j < 128 then CrcRow7(j)
    else if j < 144 then CrcRow8(j)
    else if j < 160 then CrcRow9(j)
    else if j < 176 then CrcRow10(j)
    else if j < 192 then CrcRow11(j)
    else if j < 208 then CrcRow12(j)
    else if j < 224 then CrcRow13(j)
    else if j < 240 then CrcRow14(j)
    else CrcRow15(j)
  }

  function TableIndex(crc: bv32, b: bv8): bv8 {
    (crc >> 24) as bv8 ^ b
  }

  function NextByte(crc: bv32): bv32 {
    crc << 8
  }

  /** `GenCrc32`. */
  method GenCrc32(src: seq<bv8>) returns (crc32: bv32)
    ensures crc32 == AnnexA(src)
  {
    hide CrcTable, Serial, AnnexA, Bits, Xor, NextByte, TableIndex;
    crc32 := ALL_ONES;
    EmptyMessage();
    for i := 0 to |src|
      invariant crc32 == AnnexA(src[..i])
    {
      OneMoreByte(src, i);
      ByteEnters(crc32, src[i]);
      var j := TableIndex(crc32, src[i]);
      crc32 := Xor(NextByte(crc32), CrcTable(j));
    }
    assert src[..|src|] == src;
  }

  lemma EmptyMessage()
    ensures AnnexA([]) == ALL_ONES
  {
  }

  lemma OneMoreByte(src: seq<bv8>, i: nat)
    requires i < |src|
    ensures AnnexA(src[..i + 1]) == Serial(AnnexA(src[..i]), Bits(src[i]))
  {
    assert src[..i + 1][..i] == src[..i];
    SerialConcat(ALL_ONES, MessageBits(src[..i]), Bits(src[i]));
  }

  lemma {:induction false} SerialConcat(crc: bv32, a: seq<bool>, b: seq<bool>)
    ensures Serial(crc, a + b) == Serial(Serial(crc, a), b)
    decreases |a|
  {
    if a == [] {
      assert a + b == b;
    } else {
      SerialConcat(Step(crc, a[0]), a[1..], b);
      assert (a + b)[1..] == a[1..] + b;
    }
  }

  // ------------------------------------- the register as a linear machine

  function Shift(crc: bv32): bv32 {
    Step(crc, false)
  }

  function Shift8(crc: bv32): bv32 {
    Shift(Shift(Shift(Shift(Shift(Shift(Shift(Shift(crc))))))))
  }

  lemma XorShift(x: bv32, y: bv32)
    ensures Twice(Xor(x, y)) == Xor(Twice(x), Twice(y)) && Top(Xor(x, y)) == (Top(x) != Top(y))
  {
    XorShiftBits(x, y);
  }

  lemma XorShiftBits(x: bv32, y: bv32)
    ensures (x ^ y) << 1 == (x << 1) ^ (y << 1)
    ensures ((x ^ y) & 0x8000_0000 != 0) == ((x & 0x8000_0000 != 0) != (y & 0x8000_0000 != 0))
  {
  }

  lemma XorRearrange(a: bv32, b: bv32, p: bv32)
    ensures Xor(Xor(a, p), b) == Xor(Xor(a, b), p) && Xor(a, Xor(b, p)) == Xor(Xor(a, b), p)
    ensures Xor(Xor(a, p), Xor(b, p)) == Xor(a, b)
  {
    calc {
      Xor(Xor(a, p), b);
      Xor(a ^ p, b);
      (a ^ p) ^ b;
      { XorBits(a, b, p); }
      (a ^ b) ^ p;
      Xor(a ^ b, p);
      Xor(Xor(a, b), p);
    }
    calc {
      Xor(a, Xor(b, p));
      Xor(a, b ^ p);
      a ^ (b ^ p);
      { XorBits(a, b, p); }
      (a ^ b) ^ p;
      Xor(a ^ b, p);
      Xor(Xor(a, b), p);
    }
    calc {
      Xor(Xor(a, p), Xor(b, p));
      Xor(a ^ p, b ^ p);
      (a ^ p) ^ (b ^ p);
      { XorBits(a, b, p); }
      a ^ b;
      Xor(a, b);
    }
  }

  lemma XorBits(a: bv32, b: bv32, p: bv32)
    ensures (a ^ p) ^ b == (a ^ b) ^ p && a ^ (b ^ p) == (a ^ b) ^ p && (a ^ p) ^ (b ^ p) == a ^ b
  {
  }

  lemma XorUnits(a: bv32, b: bv32)
    ensures Xor(a, b) == Xor(b, a) && Xor(a, 0) == a
  {
  }

  lemma ShiftLinear(x: bv32, y: bv32)
    ensures Shift(Xor(x, y)) == Xor(Shift(x), Shift(y))
  {
    hide Xor, Twice, Top;
    XorShift(x, y);
    XorRearrange(Twice(x), Twice(y), POLYNOMIAL);
  }

  lemma Shift8Linear(x: bv32, y: bv32)
    ensures Shift8(Xor(x, y)) == Xor(Shift8(x), Shift8(y))
  {
    hide Shift, Xor;
    ShiftLinear(x, y);
    var x1, y1 := Shift(x), Shift(y);
    ShiftLinear(x1, y1);
    var x2, y2 := Shift(x1), Shift(y1);
    ShiftLinear(x2, y2);
    var x3, y3 := Shift(x2), Shift(y2);
    ShiftLinear(x3, y3);
    var x4, y4 := Shift(x3), Shift(y3);
    ShiftLinear(x4, y4);
    var x5, y5 := Shift(x4), Shift(y4);
    ShiftLinear(x5, y5);
    var x6, y6 := Shift(x5), Shift(y5);
    ShiftLinear(x6, y6);
    ShiftLinear(Shift(x6), Shift(y6));
  }

  /** Adding a word to the register and shifting feeds in the word's top bit and keeps the others waiting. */
  lemma Peel(crc: bv32, v: bv32)
    ensures Shift(Xor(crc, v)) == Xor(Step(crc, Top(v)), Twice(v))
  {
    hide Xor, Twice, Top;
    XorShift(crc, v);
    XorRearrange(Twice(crc), Twice(v), POLYNOMIAL);
  }

  /** The register after `n` bits, with a word whose remaining bits wait to enter. */
  function Enter(crc: bv32, v: bv32, n: nat): bv32
    decreases n
  {
    if n == 0 then crc else Enter(Step(crc, Top(v)), Twice(v), n - 1)
  }

  function ShiftN(crc: bv32, n: nat): bv32
    decreases n
  {
    if n == 0 then crc else ShiftN(Shift(crc), n - 1)
  }

  function TwiceN(v: bv32, n: nat): bv32
    decreases n
  {
    if n == 0 then v else TwiceN(Twice(v), n - 1)
  }

  lemma {:induction false} ShiftEnters(crc: bv32, v: bv32, n: nat)
    ensures ShiftN(Xor(crc, v), n) == Xor(Enter(crc, v, n), TwiceN(v, n))
    decreases n
  {
    hide Shift, Xor, Step, Twice, Top;
    if n > 0 {
      Peel(crc, v);
      ShiftEnters(Step(crc, Top(v)), Twice(v), n - 1);
    }
  }

  /** The bits of a byte at the top of a word leave it in order, and then nothing is left. */
  lemma WaitingBits(b: bv8)
    ensures var v := AtTop(b);
            && Top(v) == Bit(b, 0x80) && Top(Twice(v)) == Bit(b, 0x40)
            && Top(Twice(Twice(v))) == Bit(b, 0x20) && Top(Twice(Twice(Twice(v)))) == Bit(b, 0x10)
  {
  }

  lemma LaterBits(b: bv8)
    ensures var v := Twice(Twice(Twice(Twice(AtTop(b)))));
            && Top(v) == Bit(b, 8) && Top(Twice(v)) == Bit(b, 4)
            && Top(Twice(Twice(v))) == Bit(b, 2) && Top(Twice(Twice(Twice(v)))) == Bit(b, 1)
            && Twice(Twice(Twice(Twice(v)))) == 0
  {
  }

  function HighBits(b: bv8): seq<bool> {
    [Bit(b, 0x80), Bit(b, 0x40), Bit(b, 0x20), Bit(b, 0x10)]
  }

  function LowerBits(b: bv8): seq<bool> {
    [Bit(b, 8), Bit(b, 4), Bit(b, 2), Bit(b, 1)]
  }

  lemma HighBitsEnter(crc: bv32, b: bv8)
    ensures Serial(crc, HighBits(b)) == Enter(crc, AtTop(b), 4)
  {
    hide Step, Twice, Top, Bit, AtTop, Serial, Enter;
    WaitingBits(b);
    SerialFour(crc, Bit(b, 0x80), Bit(b, 0x40), Bit(b, 0x20), Bit(b, 0x10));
    EnterFour(crc, AtTop(b));
  }

  lemma LowerBitsEnter(crc: bv32, b: bv8)
    ensures Serial(crc, LowerBits(b)) == Enter(crc, TwiceN(AtTop(b), 4), 4) && TwiceN(TwiceN(AtTop(b), 4), 4) == 0
  {
    hide Step, Twice, Top, Bit, AtTop, Serial, Enter, TwiceN;
    LaterBits(b);
    SerialFour(crc, Bit(b, 8), Bit(b, 4), Bit(b, 2), Bit(b, 1));
    EnterFour(crc, AtTop(b));
    EnterFour(crc, TwiceN(AtTop(b), 4));
  }

  /** Eight bits entering one by one is eight shifts after adding the byte at the top. */
  lemma SerialByte(crc: bv32, b: bv8)
    ensures Serial(crc, Bits(b)) == Shift8(Xor(crc, AtTop(b)))
  {
    hide Shift, Xor, AtTop, Serial, Enter, ShiftN, TwiceN, HighBits, LowerBits, Bits, Twice;
    var v := AtTop(b);
    var c := Enter(crc, v, 4);
    var w := TwiceN(v, 4);
    BitsSplit(b);
    SerialConcat(crc, HighBits(b), LowerBits(b));
    HighBitsEnter(crc, b);
    LowerBitsEnter(c, b);
    ShiftEnters(crc, v, 4);
    ShiftEnters(c, w, 4);
    ShiftFour(Xor(crc, v));
    ShiftFour(Xor(c, w));
    XorUnits(Enter(c, w, 4), 0);
  }

  lemma BitsSplit(b: bv8)
    ensures Bits(b) == HighBits(b) + LowerBits(b)
  {
  }

  lemma SerialTwo(crc: bv32, b1: bool, b0: bool)
    ensures Serial(crc, [b1, b0]) == Step(Step(crc, b1), b0)
  {
    hide Step;
    assert [b1, b0][1..] == [b0];
    assert [b0][1..] == [];
    assert Serial(Step(crc, b1), [b0]) == Step(Step(crc, b1), b0);
  }

  lemma SerialFour(crc: bv32, b3: bool, b2: bool, b1: bool, b0: bool)
    ensures Serial(crc, [b3, b2, b1, b0]) == Step(Step(Step(Step(crc, b3), b2), b1), b0)
  {
    hide Step, Serial;
    SerialTwo(crc, b3, b2);
    SerialTwo(Step(Step(crc, b3), b2), b1, b0);
    SerialConcat(crc, [b3, b2], [b1, b0]);
    assert [b3, b2, b1, b0] == [b3, b2] + [b1, b0];
  }

  lemma EnterFour(crc: bv32, v: bv32)
    ensures Enter(crc, v, 4) ==
            Step(Step(Step(Step(crc, Top(v)), Top(Twice(v))), Top(Twice(Twice(v)))), Top(Twice(Twice(Twice(v)))))
    ensures TwiceN(v, 4) == Twice(Twice(Twice(Twice(v))))
  {
    hide Step, Top, Twice;
  }

  lemma ShiftFour(crc: bv32)
    ensures ShiftN(crc, 4) == Shift(Shift(Shift(Shift(crc))))
  {
    hide Shift;
  }

  // ---------------------------------------------------------- one table step

  /** The low 24 bits just move up. */
  lemma LowBits(crc: bv32)
    ensures Shift8(Low(crc)) == NextByte(crc)
  {
    hide Shift, Twice, Top, Low, NextByte;
    var v := Low(crc);
    LowStaysLow(crc);
    LowStillLow(crc);
    LowMoved(crc);
    var v4 := Twice(Twice(Twice(Twice(v))));
    PlainShift(v);
    PlainShift(Twice(v));
    PlainShift(Twice(Twice(v)));
    PlainShift(Twice(Twice(Twice(v))));
    PlainShift(v4);
    PlainShift(Twice(v4));
    PlainShift(Twice(Twice(v4)));
    PlainShift(Twice(Twice(Twice(v4))));
  }

  lemma PlainShift(v: bv32)
    requires !Top(v)
    ensures Shift(v) == Twice(v)
  {
  }

  lemma LowStaysLow(crc: bv32)
    ensures var v := Low(crc);
            !Top(v) && !Top(Twice(v)) && !Top(Twice(Twice(v))) && !Top(Twice(Twice(Twice(v))))
  {
  }

  lemma LowStillLow(crc: bv32)
    ensures var v := Twice(Twice(Twice(Twice(Low(crc)))));
            !Top(v) && !Top(Twice(v)) && !Top(Twice(Twice(v))) && !Top(Twice(Twice(Twice(v))))
  {
  }

  lemma LowMoved(crc: bv32)
    ensures Twice(Twice(Twice(Twice(Twice(Twice(Twice(Twice(Low(crc))))))))) == NextByte(crc)
  {
  }

  function Low(crc: bv32): bv32 {
    crc & 0x00ff_ffff
  }

  lemma SplitWord(crc: bv32, b: bv8)
    ensures Xor(crc, AtTop(b)) == Xor(AtTop(TableIndex(crc, b)), Low(crc))
  {
    calc {
      Xor(crc, AtTop(b));
      crc ^ ((b as bv32) << 24);
      { SplitBits(crc, b); }
      ((((crc >> 24) as bv8 ^ b) as bv32) << 24) ^ (crc & 0x00ff_ffff);
      ((TableIndex(crc, b) as bv32) << 24) ^ (crc & 0x00ff_ffff);
      AtTop(TableIndex(crc, b)) ^ Low(crc);
      Xor(AtTop(TableIndex(crc, b)), Low(crc));
    }
  }

  lemma SplitBits(crc: bv32, b: bv8)
    ensures crc ^ ((b as bv32) << 24) == ((((crc >> 24) as bv8 ^ b) as bv32) << 24) ^ (crc & 0x00ff_ffff)
  {
  }

  /** One step of the table-driven loop is eight steps of Annex A. */
  lemma ByteEnters(crc: bv32, b: bv8)
    ensures Serial(crc, Bits(b)) == Xor(NextByte(crc), CrcTable(TableIndex(crc, b)))
  {
    hide Shift8, CrcTable, Serial, Bits, Xor, AtTop, Low, TableIndex, NextByte;
    var j := TableIndex(crc, b);
    SerialByte(crc, b);
    SplitWord(crc, b);
    Shift8Linear(AtTop(j), Low(crc));
    LowBits(crc);
    TableRight(j);
    XorUnits(NextByte(crc), CrcTable(j));
  }

  /** Every entry of the table is the register after eight shifts of its index. */
  lemma TableRight(j: bv8)
    ensures CrcTable(j) == Shift8(AtTop(j))
  {
    hide Shift8, AtTop, CrcRow0, CrcRow1, CrcRow2, CrcRow3, CrcRow4, CrcRow5, CrcRow6, CrcRow7, CrcRow8, CrcRow9, CrcRow10, CrcRow11, CrcRow12, CrcRow13, CrcRow14, CrcRow15;
    if j < 16 { RowRight0(j); }
    else if j < 32 { RowRight1(j); }
    else if j < 48 { RowRight2(j); }
    else if j < 64 { RowRight3(j); }
    else if j < 80 { RowRight4(j); }
    else if j < 96 { RowRight5(j); }
    else if j < 112 { RowRight6(j); }
    else if j < 128 { RowRight7(j); }
    else if j < 144 { RowRight8(j); }
    else if j < 160 { RowRight9(j); }
    else if j < 176 { RowRight10(j); }
    else if j < 192 { RowRight11(j); }
    else if j < 208 { RowRight12(j); }
    else if j < 224 { RowRight13(j); }
    else if j < 240 { RowRight14(j); }
    else { RowRight15(j); }
  }

  lemma RowRight0(j: bv8)
    requires j < 16
    ensures CrcRow0(j) == Shift8(AtTop(j))
  {
  }

  lemma RowRight1(j: bv8)
    requires 16 <= j < 32
    ensures CrcRow1(j) == Shift8(AtTop(j))
  {
  }

  lemma RowRight2(j: bv8)
    requires 32 <= j < 48
    ensures CrcRow2(j) == Shift8(AtTop(j))
  {
  }

  lemma RowRight3(j: bv8)
    requires 48 <= j < 64
    ensures CrcRow3(j) == Shift8(AtTop(j))
  {
  }

  lemma RowRight4(j: bv8)
    requires 64 <= j < 80
    ensures CrcRow4(j) == Shift8(AtTop(j))
  {
  }

  lemma RowRight5(j: bv8)
    requires 80 <= j < 96
    ensures CrcRow5(j) == Shift8(AtTop(j))
  {
  }

  lemma RowRight6(j: bv8)
    requires 96 <= j < 112
    ensures CrcRow6(j) == Shift8(AtTop(j))
  {
  }

  lemma RowRight7(j: bv8)
    requires 112 <= j < 128
    ensures CrcRow7(j) == Shift8(AtTop(j))
  {
  }

  lemma RowRight8(j: bv8)
    requires 128 <= j < 144
    ensures CrcRow8(j) == Shift8(AtTop(j))
  {
  }

  lemma RowRight9(j: bv8)
    requires 144 <= j < 160
    ensures CrcRow9(j) == Shift8(AtTop(j))
  {
  }

  lemma RowRight10(j: bv8)
    requires 160 <= j < 176
    ensures CrcRow10(j) == Shift8(AtTop(j))
  {
  }

  lemma RowRight11(j: bv8)
    requires 176 <= j < 192
    ensures CrcRow11(j) == Shift8(AtTop(j))
  {
  }

  lemma RowRight12(j: bv8)
    requires 192 <= j < 208
    ensures CrcRow12(j) == Shift8(AtTop(j))
  {
  }

  lemma RowRight13(j: bv8)
    requires 208 <= j < 224
    ensures CrcRow13(j) == Shift8(AtTop(j))
  {
  }

  lemma RowRight14(j: bv8)
    requires 224 <= j < 240
    ensures CrcRow14(j) == Shift8(AtTop(j))
  {
  }

  lemma RowRight15(j: bv8)
    requires 240 <= j
    ensures CrcRow15(j) == Shift8(AtTop(j))
  {
  }

  // ------------------------------------------------------ checking a section

  /** The four bytes of a checksum, most significant first. */
  function CrcBytes(crc: bv32): (s: seq<bv8>)
    ensures |s| == 4
  {
    [(crc >> 24) as bv8, ((crc >> 16) & 0xff) as bv8, ((crc >> 8) & 0xff) as bv8, (crc & 0xff) as bv8]
  }

  lemma OwnTopIndex(crc: bv32)
    ensures TableIndex(crc, (crc >> 24) as bv8) == 0
  {
  }

  /** A register that is fed its own top byte only moves up. */
  lemma EnterOwnTop(crc: bv32)
    ensures Serial(crc, Bits((crc >> 24) as bv8)) == NextByte(crc)
  {
    hide Serial, Bits, NextByte, TableIndex, Xor;
    ByteEnters(crc, (crc >> 24) as bv8);
    OwnTopIndex(crc);
    assert CrcTable(0) == 0;
    XorUnits(NextByte(crc), 0);
  }

  lemma TopsInTurn(crc: bv32)
    ensures CrcBytes(crc) == [(crc >> 24) as bv8, (NextByte(crc) >> 24) as bv8,
                              (NextByte(NextByte(crc)) >> 24) as bv8, (NextByte(NextByte(NextByte(crc))) >> 24) as bv8]
    ensures NextByte(NextByte(NextByte(NextByte(crc)))) == 0
  {
  }

  lemma MessageBitsFour(src: seq<bv8>, a: bv8, b: bv8, c: bv8, d: bv8)
    ensures MessageBits(src + [a, b, c, d]) == MessageBits(src) + Bits(a) + Bits(b) + Bits(c) + Bits(d)
  {
    hide Bits;
    assert (src + [a, b, c, d])[..|src| + 3] == src + [a, b, c];
    assert (src + [a, b, c])[..|src| + 2] == src + [a, b];
    assert (src + [a, b])[..|src| + 1] == src + [a];
    assert (src + [a])[..|src|] == src;
    assert MessageBits(src + [a]) == MessageBits(src) + Bits(a);
    assert MessageBits(src + [a, b]) == MessageBits(src + [a]) + Bits(b);
    assert MessageBits(src + [a, b, c]) == MessageBits(src + [a, b]) + Bits(c);
  }

  /** Main theorem. Whatever the section, its bytes followed by its checksum leave the register at zero. */
  lemma SectionChecks(src: seq<bv8>)
    ensures AnnexA(src + CrcBytes(AnnexA(src))) == 0
  {
    hide Bits, Serial, MessageBits, NextByte, CrcBytes;
    var c0 := AnnexA(src);
    var c1 := NextByte(c0);
    var c2 := NextByte(c1);
    var c3 := NextByte(c2);
    var b0, b1, b2, b3 := (c0 >> 24) as bv8, (c1 >> 24) as bv8, (c2 >> 24) as bv8, (c3 >> 24) as bv8;
    TopsInTurn(c0);
    MessageBitsFour(src, b0, b1, b2, b3);
    var m := MessageBits(src);
    SerialConcat(ALL_ONES, m, Bits(b0));
    SerialConcat(ALL_ONES, m + Bits(b0), Bits(b1));
    SerialConcat(ALL_ONES, m + Bits(b0) + Bits(b1), Bits(b2));
    SerialConcat(ALL_ONES, m + Bits(b0) + Bits(b1) + Bits(b2), Bits(b3));
    EnterOwnTop(c0);
    EnterOwnTop(c1);
    EnterOwnTop(c2);
    EnterOwnTop(c3);
  }
}
