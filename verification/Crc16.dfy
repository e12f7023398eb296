/** The CRC-16/XMODEM checksum of crc16/main.go.

    Three descriptions of it meet here: the source's table-driven loop over 16-bit words, a
    bit-serial register, and schoolbook long division by x^16 + x^12 + x^5 + 1. */
module Crc16 {
  import opened Bits

  // ----- Bit-serial register -----

  /** x^12 + x^5 + 1, the polynomial below its leading term. */
  const POLYNOMIAL: seq<bool> :=
    [false, false, false, true, false, false, false, false, false, false, true, false, false, false, false, true]

  function Reduce(carry: bool, r: seq<bool>): (r': seq<bool>)
    requires |r| == 16
    ensures |r'| == 16
  {
    if carry then Xor(r, POLYNOMIAL) else r
  }

  /** Multiply the register by x modulo the polynomial. */
  function Shift(r: seq<bool>): (r': seq<bool>)
    requires |r| == 16
    ensures |r'| == 16
  {
    Reduce(r[0], r[1..] + [false])
  }

  function ShiftBy(r: seq<bool>, n: nat): (r': seq<bool>)
    requires |r| == 16
    ensures |r'| == 16
    decreases n
  {
    if n == 0 then r else ShiftBy(Shift(r), n - 1)
  }

  /** Feed one message bit into the top of the register. */
  function FeedBit(r: seq<bool>, bit: bool): (r': seq<bool>)
    requires |r| == 16
    ensures |r'| == 16
  {
    Shift(r[0 := r[0] != bit])
  }

  function Feed(r: seq<bool>, bits: seq<bool>): (r': seq<bool>)
    requires |r| == 16
    ensures |r'| == 16
    decreases |bits|
  {
    if bits == [] then r else Feed(FeedBit(r, bits[0]), bits[1..])
  }

  /** The bit-serial checksum of a bit string. */
  function Crc(bits: seq<bool>): (r: seq<bool>)
    ensures |r| == 16
  {
    Feed(Zeros(16), bits)
  }

  // ----- Long division -----

  /** Bring down one more bit of the dividend and subtract the divisor if it goes in. */
  function BringDown(r: seq<bool>, bit: bool): (r': seq<bool>)
    requires |r| == 16
    ensures |r'| == 16
  {
    Reduce(r[0], r[1..] + [bit])
  }

  function Remainder(r: seq<bool>, dividend: seq<bool>): (r': seq<bool>)
    requires |r| == 16
    ensures |r'| == 16
    decreases |dividend|
  {
    if dividend == [] then r else Remainder(BringDown(r, dividend[0]), dividend[1..])
  }

  // ----- Linearity -----

  lemma ReduceLinear(c: bool, a: seq<bool>, d: bool, b: seq<bool>)
    requires |a| == |b| == 16
    ensures Reduce(c != d, Xor(a, b)) == Xor(Reduce(c, a), Reduce(d, b))
  {
  }

  lemma ShiftLinear(a: seq<bool>, b: seq<bool>)
    requires |a| == |b| == 16
    ensures Shift(Xor(a, b)) == Xor(Shift(a), Shift(b))
  {
    assert Xor(a, b)[1..] + [false] == Xor(a[1..] + [false], b[1..] + [false]);
    ReduceLinear(a[0], a[1..] + [false], b[0], b[1..] + [false]);
  }

  lemma {:induction false} ShiftByLinear(a: seq<bool>, b: seq<bool>, n: nat)
    requires |a| == |b| == 16
    ensures ShiftBy(Xor(a, b), n) == Xor(ShiftBy(a, n), ShiftBy(b, n))
    decreases n
  {
    if n > 0 {
      ShiftLinear(a, b);
      ShiftByLinear(Shift(a), Shift(b), n - 1);
    }
  }

  lemma FeedBitLinear(a: seq<bool>, b: seq<bool>, x: bool, y: bool)
    requires |a| == |b| == 16
    ensures FeedBit(Xor(a, b), x != y) == Xor(FeedBit(a, x), FeedBit(b, y))
  {
    var a', b' := a[0 := a[0] != x], b[0 := b[0] != y];
    assert Xor(a, b)[0 := Xor(a, b)[0] != (x != y)] == Xor(a', b');
    ShiftLinear(a', b');
  }

  /** The register is linear in its contents and in the bits fed to it. */
  lemma {:induction false} FeedLinear(a: seq<bool>, b: seq<bool>, x: seq<bool>, y: seq<bool>)
    requires |a| == |b| == 16 && |x| == |y|
    ensures Feed(Xor(a, b), Xor(x, y)) == Xor(Feed(a, x), Feed(b, y))
    decreases |x|
  {
    if x != [] {
      FeedBitLinear(a, b, x[0], y[0]);
      assert Xor(x, y)[1..] == Xor(x[1..], y[1..]);
      FeedLinear(FeedBit(a, x[0]), FeedBit(b, y[0]), x[1..], y[1..]);
    }
  }

  lemma CrcLinear(x: seq<bool>, y: seq<bool>)
    requires |x| == |y|
    ensures Crc(Xor(x, y)) == Xor(Crc(x), Crc(y))
  {
    assert Xor(Zeros(16), Zeros(16)) == Zeros(16);
    FeedLinear(Zeros(16), Zeros(16), x, y);
  }

  lemma {:induction false} FeedConcat(r: seq<bool>, a: seq<bool>, b: seq<bool>)
    requires |r| == 16
    ensures Feed(r, a + b) == Feed(Feed(r, a), b)
    decreases |a|
  {
    if a == [] {
      assert a + b == b;
    } else {
      FeedConcat(FeedBit(r, a[0]), a[1..], b);
      assert (a + b)[1..] == a[1..] + b;
    }
  }

  // ----- The register divides -----

  /** Bringing a bit down and then multiplying by x^16 is feeding the bit into the multiplied register. */
  lemma BringDownThenShift(r: seq<bool>, bit: bool)
    requires |r| == 16
    ensures ShiftBy(BringDown(r, bit), 16) == FeedBit(ShiftBy(r, 16), bit)
  {
    hide Shift, ShiftBy, FeedBit, BringDown;
    BringDownIsXor(r, bit);
    ShiftByLinear(Shift(r), Zeros(15) + [bit], 16);
    ShiftByShift(r, 16);
    BottomToTop(bit);
    FeedIsXor(ShiftBy(r, 16), bit);
  }

  lemma BringDownIsXor(r: seq<bool>, bit: bool)
    requires |r| == 16
    ensures BringDown(r, bit) == Xor(Shift(r), Zeros(15) + [bit])
  {
  }

  lemma FeedIsXor(r: seq<bool>, bit: bool)
    requires |r| == 16
    ensures FeedBit(r, bit) == Xor(Shift(r), Shift([bit] + Zeros(15)))
  {
    assert r[0 := r[0] != bit] == Xor(r, [bit] + Zeros(15));
    ShiftLinear(r, [bit] + Zeros(15));
  }

  lemma BottomToTop(bit: bool)
    ensures ShiftBy(Zeros(15) + [bit], 16) == Shift([bit] + Zeros(15))
  {
    Climb(Zeros(15), [bit]);
    ShiftByShift(Zeros(15) + [bit], 15);
  }

  lemma {:induction false} ShiftByShift(r: seq<bool>, n: nat)
    requires |r| == 16
    ensures ShiftBy(Shift(r), n) == Shift(ShiftBy(r, n))
    decreases n
  {
    if n > 0 {
      ShiftByShift(Shift(r), n - 1);
    }
  }

  /** Bits climb through the zeros above them without ever meeting the polynomial. */
  lemma {:induction false} Climb(above: seq<bool>, low: seq<bool>)
    requires |above| + |low| == 16 && above == Zeros(|above|)
    ensures ShiftBy(above + low, |above|) == low + above
    decreases |above|
  {
    if above == [] {
      assert above + low == low + above;
    } else {
      var n := |above|;
      assert Shift(above + low) == Zeros(n - 1) + (low + [false]);
      Climb(Zeros(n - 1), low + [false]);
      assert low + [false] + Zeros(n - 1) == low + above;
    }
  }

  lemma {:induction false} FeedIsRemainder(r: seq<bool>, bits: seq<bool>)
    requires |r| == 16
    ensures Feed(ShiftBy(r, 16), bits) == ShiftBy(Remainder(r, bits), 16)
    decreases |bits|
  {
    if bits != [] {
      BringDownThenShift(r, bits[0]);
      FeedIsRemainder(BringDown(r, bits[0]), bits[1..]);
    }
  }

  lemma {:induction false} RemainderConcat(r: seq<bool>, a: seq<bool>, b: seq<bool>)
    requires |r| == 16
    ensures Remainder(r, a + b) == Remainder(Remainder(r, a), b)
    decreases |a|
  {
    if a == [] {
      assert a + b == b;
    } else {
      RemainderConcat(BringDown(r, a[0]), a[1..], b);
      assert (a + b)[1..] == a[1..] + b;
    }
  }

  lemma {:induction false} RemainderOfZeros(r: seq<bool>, n: nat)
    requires |r| == 16
    ensures Remainder(r, Zeros(n)) == ShiftBy(r, n)
    decreases n
  {
    if n > 0 {
      assert Zeros(n)[1..] == Zeros(n - 1);
      RemainderOfZeros(Shift(r), n - 1);
    }
  }

  lemma {:induction false} ShiftZeros(n: nat)
    ensures ShiftBy(Zeros(16), n) == Zeros(16)
  {
    if n > 0 {
      assert Shift(Zeros(16)) == Zeros(16);
      ShiftZeros(n - 1);
    }
  }

  /** The checksum is the remainder of the message, followed by sixteen zero bits, on long division
      by x^16 + x^12 + x^5 + 1. */
  lemma CrcIsRemainder(bits: seq<bool>)
    ensures Crc(bits) == Remainder(Zeros(16), bits + Zeros(16))
  {
    ShiftZeros(16);
    FeedIsRemainder(Zeros(16), bits);
    RemainderConcat(Zeros(16), bits, Zeros(16));
    RemainderOfZeros(Remainder(Zeros(16), bits), 16);
  }

  // ----- The table -----

  /** crc16tab[8 * k + j], row by row. */
  function TableRow(k: byte): (row: seq<bv16>)
    ensures |row| == 8
  {
    match k
    case 0 => [0x0000, 0x1021, 0x2042, 0x3063, 0x4084, 0x50a5, 0x60c6, 0x70e7]
    case 1 => [0x8108, 0x9129, 0xa14a, 0xb16b, 0xc18c, 0xd1ad, 0xe1ce, 0xf1ef]
    case 2 => [0x1231, 0x0210, 0x3273, 0x2252, 0x52b5, 0x4294, 0x72f7, 0x62d6]
    case 3 => [0x9339, 0x8318, 0xb37b, 0xa35a, 0xd3bd, 0xc39c, 0xf3ff, 0xe3de]
    case 4 => [0x2462, 0x3443, 0x0420, 0x1401, 0x64e6, 0x74c7, 0x44a4, 0x5485]
    case 5 => [0xa56a, 0xb54b, 0x8528, 0x9509, 0xe5ee, 0xf5cf, 0xc5ac, 0xd58d]
    case 6 => [0x3653, 0x2672, 0x1611, 0x0630, 0x76d7, 0x66f6, 0x5695, 0x46b4]
    case 7 => [0xb75b, 0xa77a, 0x9719, 0x8738, 0xf7df, 0xe7fe, 0xd79d, 0xc7bc]
    case 8 => [0x48c4, 0x58e5, 0x6886, 0x78a7, 0x0840, 0x1861, 0x2802, 0x3823]
    case 9 => [0xc9cc, 0xd9ed, 0xe98e, 0xf9af, 0x8948, 0x9969, 0xa90a, 0xb92b]
    case 10 => [0x5af5, 0x4ad4, 0x7ab7, 0x6a96, 0x1a71, 0x0a50, 0x3a33, 0x2a12]
    case 11 => [0xdbfd, 0xcbdc, 0xfbbf, 0xeb9e, 0x9b79, 0x8b58, 0xbb3b, 0xab1a]
    case 12 => [0x6ca6, 0x7c87, 0x4ce4, 0x5cc5, 0x2c22, 0x3c03, 0x0c60, 0x1c41]
    case 13 => [0xedae, 0xfd8f, 0xcdec, 0xddcd, 0xad2a, 0xbd0b, 0x8d68, 0x9d49]
    case 14 => [0x7e97, 0x6eb6, 0x5ed5, 0x4ef4, 0x3e13, 0x2e32, 0x1e51, 0x0e70]
    case 15 => [0xff9f, 0xefbe, 0xdfdd, 0xcffc, 0xbf1b, 0xaf3a, 0x9f59, 0x8f78]
    case 16 => [0x9188, 0x81a9, 0xb1ca, 0xa1eb, 0xd10c, 0xc12d, 0xf14e, 0xe16f]
    case 17 => [0x1080, 0x00a1, 0x30c2, 0x20e3, 0x5004, 0x4025, 0x7046, 0x6067]
    case 18 => [0x83b9, 0x9398, 0xa3fb, 0xb3da, 0xc33d, 0xd31c, 0xe37f, 0xf35e]
    case 19 => [0x02b1, 0x1290, 0x22f3, 0x32d2, 0x4235, 0x5214, 0x6277, 0x7256]
    case 20 => [0xb5ea, 0xa5cb, 0x95a8, 0x8589, 0xf56e, 0xe54f, 0xd52c, 0xc50d]
    case 21 => [0x34e2, 0x24c3, 0x14a0, 0x0481, 0x7466, 0x6447, 0x5424, 0x4405]
    case 22 => [0xa7db, 0xb7fa, 0x8799, 0x97b8, 0xe75f, 0xf77e, 0xc71d, 0xd73c]
    case 23 => [0x26d3, 0x36f2, 0x0691, 0x16b0, 0x6657, 0x7676, 0x4615, 0x5634]
    case 24 => [0xd94c, 0xc96d, 0xf90e, 0xe92f, 0x99c8, 0x89e9, 0xb98a, 0xa9ab]
    case 25 => [0x5844, 0x4865, 0x7806, 0x6827, 0x18c0, 0x08e1, 0x3882, 0x28a3]
    case 26 => [0xcb7d, 0xdb5c, 0xeb3f, 0xfb1e, 0x8bf9, 0x9bd8, 0xabbb, 0xbb9a]
    case 27 => [0x4a75, 0x5a54, 0x6a37, 0x7a16, 0x0af1, 0x1ad0, 0x2ab3, 0x3a92]
    case 28 => [0xfd2e, 0xed0f, 0xdd6c, 0xcd4d, 0xbdaa, 0xad8b, 0x9de8, 0x8dc9]
    case 29 => [0x7c26, 0x6c07, 0x5c64, 0x4c45, 0x3ca2, 0x2c83, 0x1ce0, 0x0cc1]
    case 30 => [0xef1f, 0xff3e, 0xcf5d, 0xdf7c, 0xaf9b, 0xbfba, 0x8fd9, 0x9ff8]
    case _ => [0x6e17, 0x7e36, 0x4e55, 0x5e74, 0x2e93, 0x3eb2, 0x0ed1, 0x1ef0]
  }

  function Crc16Tab(i: byte): bv16 {
    TableRow(i >> 3)[(i & 7) as int]
  }

  // ----- Sixteen-bit words -----

  function HighByte(w: bv16): byte {
    ((w >> 8) & 0xff) as byte
  }

  function LowByte(w: bv16): byte {
    (w & 0xff) as byte
  }

  function WordBits(w: bv16): (bits: seq<bool>)
    ensures |bits| == 16
  {
    ByteBits(HighByte(w)) + ByteBits(LowByte(w))
  }

  /** crc16tab's generator on a word: one shift modulo 0x1021. */
  function ShiftWord(w: bv16): bv16 {
    if w & 0x8000 != 0 then (w << 1) ^ 0x1021 else w << 1
  }

  function ShiftWord8(w: bv16): bv16 {
    var w := ShiftWord(w); var w := ShiftWord(w); var w := ShiftWord(w); var w := ShiftWord(w);
    var w := ShiftWord(w); var w := ShiftWord(w); var w := ShiftWord(w); ShiftWord(w)
  }

  lemma TableFirstRow(i: byte)
    requires i < 8
    ensures Crc16Tab(i) == ShiftWord8((i as bv16) << 8)
  {
  }

  lemma TableFirstPart(i: byte)
    requires 8 <= i < 32
    ensures Crc16Tab(i) == ShiftWord8((i as bv16) << 8)
  {
  }

  lemma TableSecondPart(i: byte)
    requires 32 <= i < 64
    ensures Crc16Tab(i) == ShiftWord8((i as bv16) << 8)
  {
  }

  lemma TableThirdPart(i: byte)
    requires 64 <= i < 96
    ensures Crc16Tab(i) == ShiftWord8((i as bv16) << 8)
  {
  }

  lemma TableFourthPart(i: byte)
    requires 96 <= i < 128
    ensures Crc16Tab(i) == ShiftWord8((i as bv16) << 8)
  {
  }

  lemma TableFifthPart(i: byte)
    requires 128 <= i < 160
    ensures Crc16Tab(i) == ShiftWord8((i as bv16) << 8)
  {
  }

  lemma TableSixthPart(i: byte)
    requires 160 <= i < 192
    ensures Crc16Tab(i) == ShiftWord8((i as bv16) << 8)
  {
  }

  lemma TableSeventhPart(i: byte)
    requires 192 <= i < 224
    ensures Crc16Tab(i) == ShiftWord8((i as bv16) << 8)
  {
  }

  lemma TableEighthPart(i: byte)
    requires 224 <= i
    ensures Crc16Tab(i) == ShiftWord8((i as bv16) << 8)
  {
  }

  /** Each of the 256 table entries is its index, divided bit by bit. */
  lemma TableEntry(i: byte)
    ensures WordBits(Crc16Tab(i)) == ShiftBy(ByteBits(i) + Zeros(8), 8)
  {
    assert Crc16Tab(i) == ShiftWord8((i as bv16) << 8) by {
      hide Crc16Tab, ShiftWord8;
      if i < 8 { TableFirstRow(i); }
      else if i < 32 { TableFirstPart(i); }
      else if i < 64 { TableSecondPart(i); }
      else if i < 96 { TableThirdPart(i); }
      else if i < 128 { TableFourthPart(i); }
      else if i < 160 { TableFifthPart(i); }
      else if i < 192 { TableSixthPart(i); }
      else if i < 224 { TableSeventhPart(i); }
      else { TableEighthPart(i); }
    }
    hide Crc16Tab, ShiftWord, Shift, WordBits;
    Shift8Bits((i as bv16) << 8);
    ByteAtTop(i);
  }

  lemma ByteAtTop(b: byte)
    ensures WordBits((b as bv16) << 8) == ByteBits(b) + Zeros(8)
  {
  }

  lemma HighUp1(w: bv16)
    ensures HighByte(w << 1) == (HighByte(w) << 1) | (LowByte(w) >> 7)
    ensures LowByte(w << 1) == LowByte(w) << 1
  {
  }

  lemma ByteUp1(b: byte, bit: byte)
    requires bit <= 1
    ensures ByteBits((b << 1) | bit) == ByteBits(b)[1..] + [bit == 1]
  {
  }

  lemma TopBit(b: byte)
    ensures b >> 7 <= 1 && (b >> 7 == 1) == ByteBits(b)[0]
  {
  }

  lemma WordUp1(w: bv16)
    ensures WordBits(w << 1) == WordBits(w)[1..] + [false]
  {
    hide ByteBits, HighByte, LowByte;
    HighByteUp1(w);
    LowByteUp1(w);
    JoinUp1(ByteBits(HighByte(w)), ByteBits(LowByte(w)), ByteBits(HighByte(w << 1)), ByteBits(LowByte(w << 1)));
  }

  lemma HighByteUp1(w: bv16)
    ensures ByteBits(HighByte(w << 1)) == ByteBits(HighByte(w))[1..] + [ByteBits(LowByte(w))[0]]
  {
    hide ByteBits, HighByte, LowByte;
    HighUp1(w);
    TopBit(LowByte(w));
    ByteUp1(HighByte(w), LowByte(w) >> 7);
  }

  lemma LowByteUp1(w: bv16)
    ensures ByteBits(LowByte(w << 1)) == ByteBits(LowByte(w))[1..] + [false]
  {
    hide ByteBits, HighByte, LowByte;
    HighUp1(w);
    ByteUp0(LowByte(w));
  }

  lemma ByteUp0(b: byte)
    ensures ByteBits(b << 1) == ByteBits(b)[1..] + [false]
  {
  }

  lemma JoinUp1(h: seq<bool>, l: seq<bool>, h': seq<bool>, l': seq<bool>)
    requires |h| == |l| == 8 && h' == h[1..] + [l[0]] && l' == l[1..] + [false]
    ensures h' + l' == (h + l)[1..] + [false]
  {
  }

  lemma WordUp8(w: bv16)
    ensures WordBits(w << 8) == WordBits(w)[8..] + Zeros(8)
  {
  }

  lemma WordBytesXor(a: bv16, b: bv16)
    ensures HighByte(a ^ b) == HighByte(a) ^ HighByte(b)
    ensures LowByte(a ^ b) == LowByte(a) ^ LowByte(b)
  {
  }

  lemma WordXorBits(a: bv16, b: bv16)
    ensures WordBits(a ^ b) == Xor(WordBits(a), WordBits(b))
  {
    hide ByteBits, HighByte, LowByte;
    WordBytesXor(a, b);
    ByteXorBits(HighByte(a), HighByte(b));
    ByteXorBits(LowByte(a), LowByte(b));
    hide Xor;
    XorConcat(ByteBits(HighByte(a)), ByteBits(HighByte(b)), ByteBits(LowByte(a)), ByteBits(LowByte(b)));
  }

  lemma ShiftWordBits(w: bv16)
    ensures WordBits(ShiftWord(w)) == Shift(WordBits(w))
  {
    WordUp1(w);
    WordXorBits(w << 1, 0x1021);
    assert WordBits(0x1021) == POLYNOMIAL;
  }

  lemma Shift8Bits(w: bv16)
    ensures WordBits(ShiftWord8(w)) == ShiftBy(WordBits(w), 8)
  {
    var w1 := ShiftWord(w);
    var w2 := ShiftWord(w1);
    var w3 := ShiftWord(w2);
    var w4 := ShiftWord(w3);
    var w5 := ShiftWord(w4);
    var w6 := ShiftWord(w5);
    var w7 := ShiftWord(w6);
    hide ShiftWord, WordBits, Shift;
    ShiftWordBits(w);
    ShiftWordBits(w1);
    ShiftWordBits(w2);
    ShiftWordBits(w3);
    ShiftWordBits(w4);
    ShiftWordBits(w5);
    ShiftWordBits(w6);
    ShiftWordBits(w7);
    assert ShiftBy(WordBits(w), 8) == ShiftBy(WordBits(w4), 4);
  }

  /** The index at which the loop looks a byte up. */
  function TableIndex(crc: bv16, b: byte): byte {
    (((crc >> 8) ^ (b as bv16)) & 0x00ff) as byte
  }

  lemma TableIndexIsXor(crc: bv16, b: byte)
    ensures TableIndex(crc, b) == HighByte(crc) ^ b
  {
  }

  lemma TableIndexBits(crc: bv16, b: byte)
    ensures ByteBits(TableIndex(crc, b)) == Xor(WordBits(crc)[..8], ByteBits(b))
  {
    hide ByteBits, HighByte, LowByte, TableIndex;
    TableIndexIsXor(crc, b);
    ByteXorBits(HighByte(crc), b);
  }

  /** Feeding up to sixteen bits one by one is adding them at the top and shifting that often. */
  lemma {:induction false} FeedAtTop(r: seq<bool>, bits: seq<bool>)
    requires |r| == 16 && |bits| <= 16
    ensures Feed(r, bits) == ShiftBy(Xor(r, bits + Zeros(16 - |bits|)), |bits|)
    decreases |bits|
  {
    var pad := Zeros(16 - |bits|);
    if bits == [] {
      assert Xor(r, bits + pad) == r;
    } else {
      var rest := bits[1..];
      FeedAtTop(FeedBit(r, bits[0]), rest);
      FeedIsXor(r, bits[0]);
      assert Shift([false] + rest + pad) == rest + Zeros(16 - |rest|);
      ShiftLinear([bits[0]] + Zeros(15), [false] + rest + pad);
      assert Xor([bits[0]] + Zeros(15), [false] + rest + pad) == bits + pad;
      ShiftLinear(r, bits + pad);
      XorAssociative(Shift(r), Shift([bits[0]] + Zeros(15)), rest + Zeros(16 - |rest|));
    }
  }

  lemma XorAssociative(a: seq<bool>, b: seq<bool>, c: seq<bool>)
    requires |a| == |b| == |c|
    ensures Xor(Xor(a, b), c) == Xor(a, Xor(b, c))
  {
  }

  /** One turn of the table-driven loop feeds eight bits. */
  function TableStep(crc: bv16, b: byte): bv16 {
    ((crc << 8) & 0xffff) ^ Crc16Tab(TableIndex(crc, b))
  }

  lemma TableStepWord(crc: bv16, b: byte)
    ensures TableStep(crc, b) == (crc << 8) ^ Crc16Tab(TableIndex(crc, b))
  {
    hide Crc16Tab, TableIndex;
  }

  /** Feeding eight bits: the upper half of the register leaves through the table, the lower half
      moves up. */
  lemma FeedEight(word: seq<bool>, bits: seq<bool>)
    requires |word| == 16 && |bits| == 8
    ensures Feed(word, bits) == Xor(word[8..] + Zeros(8), ShiftBy(Xor(word[..8], bits) + Zeros(8), 8))
  {
    hide Shift, ShiftBy, Feed;
    var index := Xor(word[..8], bits);
    FeedAtTop(word, bits);
    Climb(Zeros(8), word[8..]);
    ShiftByLinear(Zeros(8) + word[8..], index + Zeros(8), 8);
    assert Xor(word, bits + Zeros(8)) == Xor(Zeros(8) + word[8..], index + Zeros(8));
  }

  lemma TableStepBits(crc: bv16, b: byte)
    ensures WordBits(TableStep(crc, b)) == Xor(WordBits(crc)[8..] + Zeros(8), WordBits(Crc16Tab(TableIndex(crc, b))))
  {
    hide ByteBits, WordBits, Crc16Tab, TableIndex, TableStep, Shift, ShiftBy, Feed, Xor, HighByte, LowByte;
    TableStepWord(crc, b);
    WordXorBits(crc << 8, Crc16Tab(TableIndex(crc, b)));
    WordUp8(crc);
  }

  lemma FeedThroughTable(crc: bv16, b: byte)
    ensures Xor(WordBits(crc)[8..] + Zeros(8), WordBits(Crc16Tab(TableIndex(crc, b)))) == Feed(WordBits(crc), ByteBits(b))
  {
    hide ByteBits, WordBits, Crc16Tab, TableIndex, TableStep, Shift, ShiftBy, Feed, Xor, HighByte, LowByte;
    var i := TableIndex(crc, b);
    TableEntry(i);
    TableIndexBits(crc, b);
    FeedEight(WordBits(crc), ByteBits(b));
  }

  lemma TableStepFeedsByte(crc: bv16, b: byte)
    ensures WordBits(TableStep(crc, b)) == Feed(WordBits(crc), ByteBits(b))
  {
    hide ByteBits, WordBits, Crc16Tab, TableIndex, TableStep, Shift, ShiftBy, Feed, Xor, HighByte, LowByte;
    TableStepBits(crc, b);
    FeedThroughTable(crc, b);
  }

  // ----- crc16/main.go -----

  /** The word that the loop has accumulated: read as bits, the checksum of the data. */
  ghost predicate IsChecksum(crc: bv16, data: seq<byte>) {
    WordBits(crc) == Crc(Unpack(ByteBits, data))
  }

  /** The two checksum bytes of the data: the remainder, low byte first. */
  function ChecksumBytes(data: seq<byte>): (out: seq<byte>)
    ensures |out| == 2
    ensures ByteBits(out[1]) + ByteBits(out[0]) == Crc(Unpack(ByteBits, data))
  {
    var crc := Crc(Unpack(ByteBits, data));
    BitsToByteRoundTrip(crc[8..]);
    BitsToByteRoundTrip(crc[..8]);
    [BitsToByte(crc[8..]), BitsToByte(crc[..8])]
  }

  method Checksum(data: seq<byte>) returns (out: seq<byte>)
    ensures out == ChecksumBytes(data)
  {
    hide ByteBits, BitsToByte;
    var crc: bv16 := 0;
    ZeroWord();
    assert data[..0] == [];
    for n := 0 to |data|
      invariant IsChecksum(crc, data[..n])
    {
      NextByte(crc, data, n);
      crc := TableStep(crc, data[n]);
    }
    assert data[..|data|] == data;
    out := [LowByte(crc), HighByte(crc)];
    ByteBitsRoundTrip(LowByte(crc));
    ByteBitsRoundTrip(HighByte(crc));
    assert WordBits(crc)[8..] == ByteBits(LowByte(crc)) && WordBits(crc)[..8] == ByteBits(HighByte(crc));
  }

  /** Validate accepts exactly the two bytes of the checksum. */
  method Validate(data: seq<byte>, expected: seq<byte>) returns (ok: bool)
    ensures ok <==> expected == ChecksumBytes(data)
  {
    var actual := Checksum(data);
    ok := actual == expected;
  }

  lemma ZeroWord()
    ensures IsChecksum(0, [])
  {
  }

  lemma NextByte(crc: bv16, data: seq<byte>, n: nat)
    requires n < |data| && IsChecksum(crc, data[..n])
    ensures IsChecksum(TableStep(crc, data[n]), data[..n + 1])
  {
    hide ByteBits, WordBits, TableStep;
    TableStepFeedsByte(crc, data[n]);
    assert data[..n + 1] == data[..n] + [data[n]];
    UnpackConcat(ByteBits, data[..n], [data[n]]);
    assert Unpack(ByteBits, [data[n]]) == ByteBits(data[n]);
    FeedConcat(Zeros(16), Unpack(ByteBits, data[..n]), ByteBits(data[n]));
  }

  // ----- Linearity -----

  function XorBytes(a: seq<byte>, b: seq<byte>): (c: seq<byte>)
    requires |a| == |b|
    ensures |c| == |a|
  {
    if a == [] then [] else [a[0] ^ b[0]] + XorBytes(a[1..], b[1..])
  }

  lemma UnpackBytesLength(a: seq<byte>)
    ensures |Unpack(ByteBits, a)| == 8 * |a|
  {
    BytesAreSymbols();
    hide Symbols;
    UnpackLength(ByteBits, BitsToByte, 8, a);
  }

  lemma {:induction false} XorBytesBits(a: seq<byte>, b: seq<byte>)
    requires |a| == |b|
    ensures |Unpack(ByteBits, a)| == |Unpack(ByteBits, b)|
    ensures Unpack(ByteBits, XorBytes(a, b)) == Xor(Unpack(ByteBits, a), Unpack(ByteBits, b))
    decreases |a|
  {
    hide ByteBits, Xor;
    UnpackBytesLength(a);
    UnpackBytesLength(b);
    if a != [] {
      XorBytesBits(a[1..], b[1..]);
      ByteXorBits(a[0], b[0]);
      UnpackFirst(a);
      UnpackFirst(b);
      UnpackFirst(XorBytes(a, b));
      XorBytesFirst(a, b);
      XorConcat(ByteBits(a[0]), ByteBits(b[0]), Unpack(ByteBits, a[1..]), Unpack(ByteBits, b[1..]));
    } else {
      XorOfNone();
    }
  }

  lemma XorOfNone()
    ensures Xor([], []) == []
  {
  }

  lemma UnpackFirst(a: seq<byte>)
    requires a != []
    ensures Unpack(ByteBits, a) == ByteBits(a[0]) + Unpack(ByteBits, a[1..])
  {
    hide ByteBits;
  }

  lemma XorBytesFirst(a: seq<byte>, b: seq<byte>)
    requires |a| == |b| && a != []
    ensures XorBytes(a, b)[0] == a[0] ^ b[0] && XorBytes(a, b)[1..] == XorBytes(a[1..], b[1..])
  {
  }

  lemma SameByteBits(a: byte, b: byte)
    requires ByteBits(a) == ByteBits(b)
    ensures a == b
  {
    ByteBitsRoundTrip(a);
    ByteBitsRoundTrip(b);
    hide ByteBits, BitsToByte;
  }

  /** The checksum of the bytewise exclusive or of two inputs of equal length is the exclusive or of
      their checksums. */
  lemma ChecksumLinear(a: seq<byte>, b: seq<byte>)
    requires |a| == |b|
    ensures ChecksumBytes(XorBytes(a, b)) == XorBytes(ChecksumBytes(a), ChecksumBytes(b))
  {
    hide ChecksumBytes, ByteBits, Crc, Xor, XorBytes;
    XorBytesBits(a, b);
    CrcLinear(Unpack(ByteBits, a), Unpack(ByteBits, b));
    LinearPair(ChecksumBytes(a), ChecksumBytes(b), ChecksumBytes(XorBytes(a, b)));
  }

  lemma LinearPair(x: seq<byte>, y: seq<byte>, z: seq<byte>)
    requires |x| == |y| == |z| == 2
    requires ByteBits(z[1]) + ByteBits(z[0]) == Xor(ByteBits(x[1]) + ByteBits(x[0]), ByteBits(y[1]) + ByteBits(y[0]))
    ensures z == XorBytes(x, y)
  {
    hide ByteBits, Xor, XorBytes;
    Halves(ByteBits(x[1]), ByteBits(x[0]), ByteBits(y[1]), ByteBits(y[0]), ByteBits(z[1]), ByteBits(z[0]));
    ByteFromXor(x[0], y[0], z[0]);
    ByteFromXor(x[1], y[1], z[1]);
    XorPair(x, y, z);
  }

  lemma Halves(a1: seq<bool>, a0: seq<bool>, b1: seq<bool>, b0: seq<bool>, c1: seq<bool>, c0: seq<bool>)
    requires |a1| == |b1| == |c1| && |a0| == |b0| == |c0|
    requires c1 + c0 == Xor(a1 + a0, b1 + b0)
    ensures c1 == Xor(a1, b1) && c0 == Xor(a0, b0)
  {
    XorConcat(a1, b1, a0, b0);
    hide Xor;
    assert (c1 + c0)[..|c1|] == c1 && (c1 + c0)[|c1|..] == c0;
    assert (Xor(a1, b1) + Xor(a0, b0))[..|c1|] == Xor(a1, b1) && (Xor(a1, b1) + Xor(a0, b0))[|c1|..] == Xor(a0, b0);
  }

  lemma ByteFromXor(x: byte, y: byte, z: byte)
    requires ByteBits(z) == Xor(ByteBits(x), ByteBits(y))
    ensures z == x ^ y
  {
    hide ByteBits, Xor;
    ByteXorBits(x, y);
    SameByteBits(z, x ^ y);
  }

  lemma XorPair(x: seq<byte>, y: seq<byte>, z: seq<byte>)
    requires |x| == |y| == |z| == 2 && z[0] == x[0] ^ y[0] && z[1] == x[1] ^ y[1]
    ensures z == XorBytes(x, y)
  {
    assert x[1..][1..] == [] && y[1..][1..] == [];
  }
}
