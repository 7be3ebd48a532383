/**
 * The CRC-16 of the serial link. The table-driven computation is the bit-by-bit one with
 * the reflected polynomial 0x8408, and no change within sixteen consecutive bits escapes it.
 */
module Crc16 {
  /** One of sixteen values. */
  function Pick(j: bv8, x0: bv16, x1: bv16, x2: bv16, x3: bv16, x4: bv16, x5: bv16, x6: bv16, x7: bv16,
                x8: bv16, x9: bv16, xA: bv16, xB: bv16, xC: bv16, xD: bv16, xE: bv16, xF: bv16): bv16
  {
    if j == 0 then x0 else if j == 1 then x1 else if j == 2 then x2 else if j == 3 then x3
    else if j == 4 then x4 else if j == 5 then x5 else if j == 6 then x6 else if j == 7 then x7
    else if j == 8 then x8 else if j == 9 then x9 else if j == 10 then xA else if j == 11 then xB
    else if j == 12 then xC else if j == 13 then xD else if j == 14 then xE else xF
  }

  function Row0(j: bv8): bv16 {
    Pick(j, 0x0000, 0x1189, 0x2312, 0x329B, 0x4624, 0x57AD, 0x6536, 0x74BF,
            0x8C48, 0x9DC1, 0xAF5A, 0xBED3, 0xCA6C, 0xDBE5, 0xE97E, 0xF8F7)
  }

  function Row1(j: bv8): bv16 {
    Pick(j, 0x1081, 0x0108, 0x3393, 0x221A, 0x56A5, 0x472C, 0x75B7, 0x643E,
            0x9CC9, 0x8D40, 0xBFDB, 0xAE52, 0xDAED, 0xCB64, 0xF9FF, 0xE876)
  }

  function Row2(j: bv8): bv16 {
    Pick(j, 0x2102, 0x308B, 0x0210, 0x1399, 0x6726, 0x76AF, 0x4434, 0x55BD,
            0xAD4A, 0xBCC3, 0x8E58, 0x9FD1, 0xEB6E, 0xFAE7, 0xC87C, 0xD9F5)
  }

  function Row3(j: bv8): bv16 {
    Pick(j, 0x3183, 0x200A, 0x1291, 0x0318, 0x77A7, 0x662E, 0x54B5, 0x453C,
            0xBDCB, 0xAC42, 0x9ED9, 0x8F50, 0xFBEF, 0xEA66, 0xD8FD, 0xC974)
  }

  function Row4(j: bv8): bv16 {
    Pick(j, 0x4204, 0x538D, 0x6116, 0x709F, 0x0420, 0x15A9, 0x2732, 0x36BB,
            0xCE4C, 0xDFC5, 0xED5E, 0xFCD7, 0x8868, 0x99E1, 0xAB7A, 0xBAF3)
  }

  function Row5(j: bv8): bv16 {
    Pick(j, 0x5285, 0x430C, 0x7197, 0x601E, 0x14A1, 0x0528, 0x37B3, 0x263A,
            0xDECD, 0xCF44, 0xFDDF, 0xEC56, 0x98E9, 0x8960, 0xBBFB, 0xAA72)
  }

  function Row6(j: bv8): bv16 {
    Pick(j, 0x6306, 0x728F, 0x4014, 0x519D, 0x2522, 0x34AB, 0x0630, 0x17B9,
            0xEF4E, 0xFEC7, 0xCC5C, 0xDDD5, 0xA96A, 0xB8E3, 0x8A78, 0x9BF1)
  }

  function Row7(j: bv8): bv16 {
    Pick(j, 0x7387, 0x620E, 0x5095, 0x411C, 0x35A3, 0x242A, 0x16B1, 0x0738,
            0xFFCF, 0xEE46, 0xDCDD, 0xCD54, 0xB9EB, 0xA862, 0x9AF9, 0x8B70)
  }

  function Row8(j: bv8): bv16 {
    Pick(j, 0x8408, 0x9581, 0xA71A, 0xB693, 0xC22C, 0xD3A5, 0xE13E, 0xF0B7,
            0x0840, 0x19C9, 0x2B52, 0x3ADB, 0x4E64, 0x5FED, 0x6D76, 0x7CFF)
  }

  function Row9(j: bv8): bv16 {
    Pick(j, 0x9489, 0x8500, 0xB79B, 0xA612, 0xD2AD, 0xC324, 0xF1BF, 0xE036,
            0x18C1, 0x0948, 0x3BD3, 0x2A5A, 0x5EE5, 0x4F6C, 0x7DF7, 0x6C7E)
  }

  function RowA(j: bv8): bv16 {
    Pick(j, 0xA50A, 0xB483, 0x8618, 0x9791, 0xE32E, 0xF2A7, 0xC03C, 0xD1B5,
            0x2942, 0x38CB, 0x0A50, 0x1BD9, 0x6F66, 0x7EEF, 0x4C74, 0x5DFD)
  }

  function RowB(j: bv8): bv16 {
    Pick(j, 0xB58B, 0xA402, 0x9699, 0x8710, 0xF3AF, 0xE226, 0xD0BD, 0xC134,
            0x39C3, 0x284A, 0x1AD1, 0x0B58, 0x7FE7, 0x6E6E, 0x5CF5, 0x4D7C)
  }

  function RowC(j: bv8): bv16 {
    Pick(j, 0xC60C, 0xD785, 0xE51E, 0xF497, 0x8028, 0x91A1, 0xA33A, 0xB2B3,
            0x4A44, 0x5BCD, 0x6956, 0x78DF, 0x0C60, 0x1DE9, 0x2F72, 0x3EFB)
  }

  function RowD(j: bv8): bv16 {
    Pick(j, 0xD68D, 0xC704, 0xF59F, 0xE416, 0x90A9, 0x8120, 0xB3BB, 0xA232,
            0x5AC5, 0x4B4C, 0x79D7, 0x685E, 0x1CE1, 0x0D68, 0x3FF3, 0x2E7A)
  }

  function RowE(j: bv8): bv16 {
    Pick(j, 0xE70E, 0xF687, 0xC41C, 0xD595, 0xA12A, 0xB0A3, 0x8238, 0x93B1,
            0x6B46, 0x7ACF, 0x4854, 0x59DD, 0x2D62, 0x3CEB, 0x0E70, 0x1FF9)
  }

  function RowF(j: bv8): bv16 {
    Pick(j, 0xF78F, 0xE606, 0xD49D, 0xC514, 0xB1AB, 0xA022, 0x92B9, 0x8330,
            0x7BC7, 0x6A4E, 0x58D5, 0x495C, 0x3DE3, 0x2C6A, 0x1EF1, 0x0F78)
  }

  function HighNibble(i: bv8): (h: nat)
    ensures h < 16
  {
    (i >> 4) as nat
  }

  function LowNibble(i: bv8): (j: bv8)
    ensures j < 16
  {
    i & 0x0F
  }

  /** The j-th entry of row h. */
  function RowAt(h: nat, j: bv8): bv16 {
    if h == 0 then Row0(j) else if h == 1 then Row1(j) else if h == 2 then Row2(j) else if h == 3 then Row3(j)
    else if h == 4 then Row4(j) else if h == 5 then Row5(j) else if h == 6 then Row6(j) else if h == 7 then Row7(j)
    else if h == 8 then Row8(j) else if h == 9 then Row9(j) else if h == 10 then RowA(j) else if h == 11 then RowB(j)
    else if h == 12 then RowC(j) else if h == 13 then RowD(j) else if h == 14 then RowE(j) else RowF(j)
  }

  /** crc16[i] */
  function Table(i: bv8): bv16 {
    RowAt(HighNibble(i), LowNibble(i))
  }

  /** One step of the shift register. */
  function Shift(x: bv16): bv16 {
    if x & 1 == 1 then (x >> 1) ^ 0x8408 else x >> 1
  }

  function Shift8(x: bv16): bv16 {
    Shift(Shift(Shift(Shift(Shift(Shift(Shift(Shift(x))))))))
  }

  function Xor(x: bv16, y: bv16): bv16 {
    x ^ y
  }

  lemma XorParts(x: bv16, y: bv16)
    ensures (x ^ y) & 1 == (x & 1) ^ (y & 1)
    ensures (x ^ y) >> 1 == (x >> 1) ^ (y >> 1)
    ensures x & 1 == 0 || x & 1 == 1
  {
  }

  lemma XorCancels(a: bv16, b: bv16, p: bv16)
    ensures a ^ b ^ p == (a ^ p) ^ b == a ^ (b ^ p)
    ensures (a ^ p) ^ (b ^ p) == a ^ b
  {
  }

  /** The register is linear over exclusive or. */
  lemma ShiftLinear(x: bv16, y: bv16)
    ensures Shift(Xor(x, y)) == Xor(Shift(x), Shift(y))
  {
    XorParts(x, y);
    XorParts(y, x);
    XorCancels(x >> 1, y >> 1, 0x8408);
  }

  // ---------------------------------------------------------------- the computation

  /** One step of AJ_CRC16_Compute. */
  function Step(crc: bv16, b: bv8): bv16 {
    Table(((crc ^ b as bv16) & 0xFF) as bv8) ^ (crc >> 8)
  }

  function Crc(crc: bv16, buffer: seq<bv8>): bv16
    decreases |buffer|
  {
    if buffer == [] then crc else Crc(Step(crc, buffer[0]), buffer[1..])
  }

  /** The same register fed one bit at a time. */
  function Feed(crc: bv16, bits: seq<bool>): bv16
    decreases |bits|
  {
    if bits == [] then crc else Feed(Shift(Xor(crc, Bit(bits[0]))), bits[1..])
  }

  function Bit(b: bool): bv16 {
    if b then 1 else 0
  }

  /** The n low bits of r, lowest first. */
  function LowBits(r: bv16, n: nat): (bits: seq<bool>)
    ensures |bits| == n
    decreases n
  {
    if n == 0 then [] else [r & 1 == 1] + LowBits(r >> 1, n - 1)
  }

  function BitsOf(b: bv8): (bits: seq<bool>)
    ensures |bits| == 8
  {
    LowBits(b as bv16, 8)
  }

  /** The bits of a buffer in transmission order, low bit first. */
  function Bits(buffer: seq<bv8>): (r: seq<bool>)
    ensures |r| == 8 * |buffer|
  {
    if buffer == [] then [] else BitsOf(buffer[0]) + Bits(buffer[1..])
  }

  /** AJ_CRC16_Compute. */
  method Compute(buffer: seq<bv8>, runningCrc: bv16) returns (crc: bv16)
    ensures crc == Crc(runningCrc, buffer)
  {
    hide Table;
    crc := runningCrc;
    for i := 0 to |buffer|
      invariant Crc(runningCrc, buffer) == Crc(crc, buffer[i..])
    {
      crc := Step(crc, buffer[i]);
      assert buffer[i..][1..] == buffer[i + 1..];
    }
  }

  /** The running CRC may be carried from buffer to buffer. */
  lemma {:induction false} CrcAppend(crc: bv16, a: seq<bv8>, b: seq<bv8>)
    ensures Crc(crc, a + b) == Crc(Crc(crc, a), b)
    decreases |a|
  {
    hide Step;
    if a == [] {
      assert a + b == b;
    } else {
      assert (a + b)[1..] == a[1..] + b;
      CrcAppend(Step(crc, a[0]), a[1..], b);
    }
  }

  // ---------------------------------------------------------------- table = bit by bit

  function Wide(j: bv8): bv16 {
    j as bv16
  }

  /** The index at which row h begins. */
  function Start(h: nat): bv16 {
    if h == 0 then 0x00 else if h == 1 then 0x10 else if h == 2 then 0x20 else if h == 3 then 0x30
    else if h == 4 then 0x40 else if h == 5 then 0x50 else if h == 6 then 0x60 else if h == 7 then 0x70
    else if h == 8 then 0x80 else if h == 9 then 0x90 else if h == 10 then 0xA0 else if h == 11 then 0xB0
    else if h == 12 then 0xC0 else if h == 13 then 0xD0 else if h == 14 then 0xE0 else 0xF0
  }

  lemma Row0IsShifted(j: bv8)
    requires j < 16
    ensures Row0(j) == Shift8(Wide(j))
  {
  }

  lemma Row1IsLinear(j: bv8)
    requires j < 16
    ensures Row1(j) == Xor(Row1(0), Row0(j))
  {
  }

  lemma Row2IsLinear(j: bv8)
    requires j < 16
    ensures Row2(j) == Xor(Row2(0), Row0(j))
  {
  }

  lemma Row3IsLinear(j: bv8)
    requires j < 16
    ensures Row3(j) == Xor(Row3(0), Row0(j))
  {
  }

  lemma Row4IsLinear(j: bv8)
    requires j < 16
    ensures Row4(j) == Xor(Row4(0), Row0(j))
  {
  }

  lemma Row5IsLinear(j: bv8)
    requires j < 16
    ensures Row5(j) == Xor(Row5(0), Row0(j))
  {
  }

  lemma Row6IsLinear(j: bv8)
    requires j < 16
    ensures Row6(j) == Xor(Row6(0), Row0(j))
  {
  }

  lemma Row7IsLinear(j: bv8)
    requires j < 16
    ensures Row7(j) == Xor(Row7(0), Row0(j))
  {
  }

  lemma Row8IsLinear(j: bv8)
    requires j < 16
    ensures Row8(j) == Xor(Row8(0), Row0(j))
  {
  }

  lemma Row9IsLinear(j: bv8)
    requires j < 16
    ensures Row9(j) == Xor(Row9(0), Row0(j))
  {
  }

  lemma RowAIsLinear(j: bv8)
    requires j < 16
    ensures RowA(j) == Xor(RowA(0), Row0(j))
  {
  }

  lemma RowBIsLinear(j: bv8)
    requires j < 16
    ensures RowB(j) == Xor(RowB(0), Row0(j))
  {
  }

  lemma RowCIsLinear(j: bv8)
    requires j < 16
    ensures RowC(j) == Xor(RowC(0), Row0(j))
  {
  }

  lemma RowDIsLinear(j: bv8)
    requires j < 16
    ensures RowD(j) == Xor(RowD(0), Row0(j))
  {
  }

  lemma RowEIsLinear(j: bv8)
    requires j < 16
    ensures RowE(j) == Xor(RowE(0), Row0(j))
  {
  }

  lemma RowFIsLinear(j: bv8)
    requires j < 16
    ensures RowF(j) == Xor(RowF(0), Row0(j))
  {
  }

  lemma RowStartsAreShifted()
    ensures Row1(0) == Shift8(0x10)
    ensures Row2(0) == Shift8(0x20)
    ensures Row3(0) == Shift8(0x30)
    ensures Row4(0) == Shift8(0x40)
    ensures Row5(0) == Shift8(0x50)
    ensures Row6(0) == Shift8(0x60)
    ensures Row7(0) == Shift8(0x70)
    ensures Row8(0) == Shift8(0x80)
    ensures Row9(0) == Shift8(0x90)
    ensures RowA(0) == Shift8(0xA0)
    ensures RowB(0) == Shift8(0xB0)
    ensures RowC(0) == Shift8(0xC0)
    ensures RowD(0) == Shift8(0xD0)
    ensures RowE(0) == Shift8(0xE0)
    ensures RowF(0) == Shift8(0xF0)
  {
  }

  lemma RowShifts(first: bv16, at: bv16, base: bv16, j: bv8)
    requires j < 16 && first == Shift8(base) && at == Xor(first, Row0(j))
    ensures at == Shift8(Xor(base, Wide(j)))
  {
    hide Shift8, Xor, Row0, Wide;
    Row0IsShifted(j);
    Shift8Linear(base, Wide(j));
  }

  /** Row h holds the indexes that begin at its start, shifted. */
  lemma RowAtIsShifted(h: nat, j: bv8)
    requires h < 16 && j < 16
    ensures RowAt(h, j) == Shift8(Xor(Start(h), Wide(j)))
  {
    hide Shift8, Xor, Wide, Row0, Row1, Row2, Row3, Row4, Row5, Row6, Row7, Row8, Row9, RowA, RowB, RowC, RowD, RowE, RowF;
    RowStartsAreShifted();
    match h
    case 0 => Row0IsShifted(j); ZeroXor(Wide(j));
    case 1 => Row1IsLinear(j); RowShifts(Row1(0), Row1(j), 0x10, j);
    case 2 => Row2IsLinear(j); RowShifts(Row2(0), Row2(j), 0x20, j);
    case 3 => Row3IsLinear(j); RowShifts(Row3(0), Row3(j), 0x30, j);
    case 4 => Row4IsLinear(j); RowShifts(Row4(0), Row4(j), 0x40, j);
    case 5 => Row5IsLinear(j); RowShifts(Row5(0), Row5(j), 0x50, j);
    case 6 => Row6IsLinear(j); RowShifts(Row6(0), Row6(j), 0x60, j);
    case 7 => Row7IsLinear(j); RowShifts(Row7(0), Row7(j), 0x70, j);
    case 8 => Row8IsLinear(j); RowShifts(Row8(0), Row8(j), 0x80, j);
    case 9 => Row9IsLinear(j); RowShifts(Row9(0), Row9(j), 0x90, j);
    case 10 => RowAIsLinear(j); RowShifts(RowA(0), RowA(j), 0xA0, j);
    case 11 => RowBIsLinear(j); RowShifts(RowB(0), RowB(j), 0xB0, j);
    case 12 => RowCIsLinear(j); RowShifts(RowC(0), RowC(j), 0xC0, j);
    case 13 => RowDIsLinear(j); RowShifts(RowD(0), RowD(j), 0xD0, j);
    case 14 => RowEIsLinear(j); RowShifts(RowE(0), RowE(j), 0xE0, j);
    case _ => RowFIsLinear(j); RowShifts(RowF(0), RowF(j), 0xF0, j);
  }

  lemma IndexParts(b: bv8)
    ensures Xor(Start(HighNibble(b)), Wide(LowNibble(b))) == Wide(b)
  {
  }

  /** Every entry of the table is its index shifted eight times. */
  lemma TableIsShifted(b: bv8)
    ensures Table(b) == Shift8(b as bv16)
  {
    hide Shift8, Xor, RowAt, HighNibble, LowNibble, Start;
    IndexParts(b);
    RowAtIsShifted(HighNibble(b), LowNibble(b));
  }

  lemma Peel(x: bv16, r: bv16)
    ensures Xor(x, r) == Xor(Xor(x, r & 1), (r >> 1) << 1)
  {
  }

  lemma EvenShift(r: bv16)
    ensures Shift((r >> 1) << 1) == r >> 1
  {
  }

  /** Bits of r above the lowest wait in the register for their turn. */
  lemma ShiftPeels(x: bv16, r: bv16)
    ensures Shift(Xor(x, r)) == Xor(Shift(Xor(x, r & 1)), r >> 1)
  {
    hide Xor, Shift;
    Peel(x, r);
    EvenShift(r);
    ShiftLinear(Xor(x, r & 1), (r >> 1) << 1);
  }

  lemma HighByteFalls(h: bv16)
    requires h & 0xFF == 0
    ensures Shift8(h) == h >> 8
  {
  }

  lemma Shift8Linear(x: bv16, y: bv16)
    ensures Shift8(Xor(x, y)) == Xor(Shift8(x), Shift8(y))
  {
    hide Shift, Xor;
    var x1, y1 := Shift(x), Shift(y);
    var x2, y2 := Shift(x1), Shift(y1);
    var x3, y3 := Shift(x2), Shift(y2);
    var x4, y4 := Shift(x3), Shift(y3);
    var x5, y5 := Shift(x4), Shift(y4);
    var x6, y6 := Shift(x5), Shift(y5);
    var x7, y7 := Shift(x6), Shift(y6);
    ShiftLinear(x, y);
    ShiftLinear(x1, y1);
    ShiftLinear(x2, y2);
    ShiftLinear(x3, y3);
    ShiftLinear(x4, y4);
    ShiftLinear(x5, y5);
    ShiftLinear(x6, y6);
    ShiftLinear(x7, y7);
  }

  function LowByte(crc: bv16, b: bv8): bv8 {
    ((crc ^ b as bv16) & 0xFF) as bv8
  }

  function HighByte(crc: bv16, b: bv8): bv16 {
    (crc ^ b as bv16) & 0xFF00
  }

  lemma Halves(crc: bv16, b: bv8)
    ensures Xor(crc, b as bv16) == Xor(LowByte(crc, b) as bv16, HighByte(crc, b))
    ensures HighByte(crc, b) & 0xFF == 0
  {
  }

  lemma StepHalves(crc: bv16, b: bv8)
    ensures Step(crc, b) == Xor(Table(LowByte(crc, b)), HighByte(crc, b) >> 8)
  {
    hide Table;
  }

  lemma StepIsShifted(crc: bv16, b: bv8)
    ensures Step(crc, b) == Shift8(Xor(crc, b as bv16))
  {
    hide Shift8, Table, Xor, Step, LowByte, HighByte;
    Halves(crc, b);
    StepHalves(crc, b);
    TableIsShifted(LowByte(crc, b));
    HighByteFalls(HighByte(crc, b));
    Shift8Linear(LowByte(crc, b) as bv16, HighByte(crc, b));
  }

  function Shifts(x: bv16, n: nat): bv16
    decreases n
  {
    if n == 0 then x else Shifts(Shift(x), n - 1)
  }

  function Drop(r: bv16, n: nat): bv16
    decreases n
  {
    if n == 0 then r else Drop(r >> 1, n - 1)
  }

  lemma LowBit(r: bv16)
    ensures Bit(r & 1 == 1) == r & 1
  {
  }

  /** Loading a word at once or feeding it bit by bit leaves the same register. */
  lemma {:induction false} FeedWord(x: bv16, r: bv16, n: nat)
    ensures Shifts(Xor(x, r), n) == Xor(Feed(x, LowBits(r, n)), Drop(r, n))
    decreases n
  {
    hide Shift, Xor, Bit;
    if n > 0 {
      var bits := LowBits(r, n);
      LowBit(r);
      assert bits[1..] == LowBits(r >> 1, n - 1);
      ShiftPeels(x, r);
      FeedWord(Shift(Xor(x, r & 1)), r >> 1, n - 1);
    }
  }

  lemma ByteDrops(b: bv8)
    ensures Drop(b as bv16, 8) == 0
    ensures forall x: bv16 :: Xor(x, 0) == x
  {
    var r := b as bv16;
    assert Drop(r, 8) == Drop(r >> 1, 7);
    assert Drop(r >> 1, 7) == Drop(r >> 1 >> 1, 6);
    assert Drop(r >> 1 >> 1, 6) == Drop(r >> 1 >> 1 >> 1, 5);
    assert Drop(r >> 1 >> 1 >> 1, 5) == Drop(r >> 1 >> 1 >> 1 >> 1, 4);
    assert Drop(r >> 1 >> 1 >> 1 >> 1, 4) == Drop(r >> 1 >> 1 >> 1 >> 1 >> 1, 3);
    assert Drop(r >> 1 >> 1 >> 1 >> 1 >> 1, 3) == r >> 1 >> 1 >> 1 >> 1 >> 1 >> 1 >> 1 >> 1;
  }

  lemma EightShifts(x: bv16)
    ensures Shifts(x, 8) == Shift8(x)
  {
    hide Shift;
    var x4 := Shift(Shift(Shift(Shift(x))));
    assert Shifts(x, 8) == Shifts(x4, 4);
    assert Shifts(x4, 4) == Shift8(x);
  }

  /** One table step is eight steps of the register, low bit first. */
  lemma StepIsBitwise(crc: bv16, b: bv8)
    ensures Step(crc, b) == Feed(crc, BitsOf(b))
  {
    hide Shift, Shift8, Step, Xor, Table, Drop, Shifts, Feed;
    StepIsShifted(crc, b);
    EightShifts(Xor(crc, b as bv16));
    FeedWord(crc, b as bv16, 8);
    ByteDrops(b);
  }

  lemma {:induction false} FeedAppend(crc: bv16, a: seq<bool>, b: seq<bool>)
    ensures Feed(crc, a + b) == Feed(Feed(crc, a), b)
    decreases |a|
  {
    hide Shift, Xor, Bit;
    if a == [] {
      assert a + b == b;
    } else {
      assert (a + b)[1..] == a[1..] + b;
      FeedAppend(Shift(Xor(crc, Bit(a[0]))), a[1..], b);
    }
  }

  /** The table-driven CRC of every buffer is the bit-by-bit CRC. */
  lemma {:induction false} CrcIsBitwise(crc: bv16, buffer: seq<bv8>)
    ensures Crc(crc, buffer) == Feed(crc, Bits(buffer))
    decreases |buffer|
  {
    hide Step, BitsOf, Feed;
    if buffer == [] {
      assert Feed(crc, []) == crc by { FeedNothing(crc); }
    } else {
      StepIsBitwise(crc, buffer[0]);
      CrcIsBitwise(Step(crc, buffer[0]), buffer[1..]);
      FeedAppend(crc, BitsOf(buffer[0]), Bits(buffer[1..]));
    }
  }

  lemma FeedNothing(crc: bv16)
    ensures Feed(crc, []) == crc
  {
  }

  // ---------------------------------------------------------------- error detection

  /** The register that Shift brought to y. */
  function Unshift(y: bv16): bv16 {
    if y & 0x8000 == 0 then y << 1 else ((y ^ 0x8408) << 1) | 1
  }

  lemma ShiftInverts(x: bv16)
    ensures Unshift(Shift(x)) == x
  {
  }

  lemma XorInverts(x: bv16, y: bv16)
    ensures Xor(Xor(x, y), y) == x
  {
  }

  /** Registers that differ stay different under the same input. */
  lemma {:induction false} FeedInjective(x: bv16, y: bv16, bits: seq<bool>)
    requires Feed(x, bits) == Feed(y, bits)
    ensures x == y
    decreases |bits|
  {
    hide Shift, Unshift, Xor, Bit;
    if bits != [] {
      var e := Bit(bits[0]);
      FeedInjective(Shift(Xor(x, e)), Shift(Xor(y, e)), bits[1..]);
      ShiftInverts(Xor(x, e));
      ShiftInverts(Xor(y, e));
      XorInverts(x, e);
      XorInverts(y, e);
    }
  }

  /** The n low bits set. */
  function Mask(n: nat): bv16 {
    if n == 0 then 0 else Wider(Mask(n - 1))
  }

  lemma MaskStep(a: bv16, b: bv16)
    requires a & b == a
    ensures Wider(a) & Wider(b) == Wider(a)
  {
  }

  lemma {:induction false} MaskGrows(n: nat)
    ensures Mask(n) & Mask(n + 1) == Mask(n)
  {
    if n > 0 {
      MaskGrows(n - 1);
      MaskStep(Mask(n - 1), Mask(n));
    }
  }

  lemma {:induction false} MaskTop(n: nat)
    requires n <= 15
    ensures TopClear(Mask(n))
    decreases 15 - n
  {
    if n == 15 {
      assert Mask(5) == 0x1F;
      assert Mask(10) == 0x3FF;
      assert Mask(15) == 0x7FFF;
    } else {
      MaskGrows(n);
      MaskTop(n + 1);
    }
  }

  predicate Even(d: bv16) {
    d & 1 == 0
  }

  /** The mask of one more low bit. */
  function Wider(m: bv16): bv16 {
    (m << 1) | 1
  }

  predicate TopClear(m: bv16) {
    m & 0x8000 == 0
  }

  /** Only bits of m are set in d. */
  predicate Within(d: bv16, m: bv16) {
    d & m == d
  }

  lemma LowShift(d: bv16, m: bv16)
    requires TopClear(m) && Within(Shift(d), m)
    ensures Even(d) && Within(d, Wider(m))
  {
  }

  lemma XorAssociative(a: bv16, b: bv16, c: bv16)
    ensures Xor(a, Xor(b, c)) == Xor(Xor(a, b), c)
  {
  }

  lemma XorCommutes(a: bv16, b: bv16)
    ensures Xor(a, b) == Xor(b, a)
  {
  }

  lemma XorSwap(x: bv16, y: bv16, p: bv16, q: bv16)
    ensures Xor(Xor(x, p), Xor(y, q)) == Xor(Xor(x, y), Xor(p, q))
  {
    hide Xor;
    XorAssociative(x, p, Xor(y, q));
    XorAssociative(p, y, q);
    XorCommutes(p, y);
    XorAssociative(y, p, q);
    XorAssociative(x, y, Xor(p, q));
  }

  lemma XorZero(x: bv16, y: bv16)
    ensures Xor(x, y) == 0 <==> x == y
  {
    hide Xor;
    XorInverts(x, y);
    ZeroXor(y);
    XorSelf(x);
  }

  lemma XorSelf(x: bv16)
    ensures Xor(x, x) == 0
  {
  }

  lemma XorOne(d: bv16)
    ensures Xor(d, 0) == d
    ensures Xor(d, 1) & 1 == 0 ==> d & 1 == 1 && d & 0xFFFE == Xor(d, 1)
  {
  }

  lemma OddWithin(d: bv16, m: bv16)
    requires d & 1 == 1 && Within(d & 0xFFFE, m) && m & 1 == 1
    ensures Within(d, m) && d != 0
  {
  }

  lemma LowSwap(d: bv16, e: bv16, m: bv16)
    requires e == 0 || e == 1
    requires Even(Xor(d, e)) && Within(Xor(d, e), m) && !Even(m)
    ensures Within(d, m)
    ensures d == 0 ==> e == 0
  {
    hide Xor, Within;
    XorOne(d);
    if e == 1 {
      OddWithin(d, m);
    }
  }

  lemma BitXor(a: bool, b: bool)
    ensures Xor(Bit(a), Bit(b)) == 0 || Xor(Bit(a), Bit(b)) == 1
    ensures Xor(Bit(a), Bit(b)) == 0 ==> a == b
  {
  }

  lemma MaskLow(n: nat)
    ensures Mask(n + 1) == Wider(Mask(n))
    ensures !Even(Mask(n + 1))
  {
  }

  /** Registers that one input bit brings within n low bits of each other were within n + 1. */
  lemma MeetStep(x: bv16, y: bv16, p: bool, q: bool, n: nat)
    requires n <= 15
    requires Within(Xor(Shift(Xor(x, Bit(p))), Shift(Xor(y, Bit(q)))), Mask(n))
    ensures Within(Xor(x, y), Mask(n + 1))
    ensures x == y ==> p == q
  {
    hide Shift, Xor, Bit, Mask, Within, Even, Wider, TopClear;
    var a, b := Xor(x, Bit(p)), Xor(y, Bit(q));
    var e := Xor(Bit(p), Bit(q));
    MaskTop(n);
    MaskLow(n);
    ShiftLinear(a, b);
    LowShift(Xor(a, b), Mask(n));
    XorSwap(x, y, Bit(p), Bit(q));
    BitXor(p, q);
    LowSwap(Xor(x, y), e, Mask(n + 1));
    XorZero(x, y);
  }

  /** At most sixteen bits that bring two registers together started from registers that differ only that low. */
  lemma {:induction false} FeedMeets(x: bv16, y: bv16, u: seq<bool>, v: seq<bool>)
    requires |u| == |v| <= 16
    requires Feed(x, u) == Feed(y, v)
    ensures Within(Xor(x, y), Mask(|u|))
    ensures x == y ==> u == v
    decreases |u|
  {
    hide Shift, Xor, Bit, Within, Mask;
    if u == [] {
      XorZero(x, y);
      WithinNothing(Mask(0));
    } else {
      FeedMeets(Shift(Xor(x, Bit(u[0]))), Shift(Xor(y, Bit(v[0]))), u[1..], v[1..]);
      MeetStep(x, y, u[0], v[0], |u| - 1);
      if x == y {
        assert u == [u[0]] + u[1..] && v == [v[0]] + v[1..];
      }
    }
  }

  lemma WithinNothing(m: bv16)
    ensures Within(0, m)
  {
  }

  /** An error burst of at most sixteen consecutive bits, anywhere in a message of any length, changes the CRC. */
  lemma BurstDetected(crc: bv16, p: seq<bool>, u: seq<bool>, v: seq<bool>, s: seq<bool>)
    requires |u| == |v| <= 16 && u != v
    ensures Feed(crc, p + u + s) != Feed(crc, p + v + s)
  {
    hide Feed, Mask;
    FeedAppend(crc, p + u, s);
    FeedAppend(crc, p, u);
    FeedAppend(crc, p + v, s);
    FeedAppend(crc, p, v);
    var x := Feed(crc, p);
    if Feed(crc, p + u + s) == Feed(crc, p + v + s) {
      FeedInjective(Feed(x, u), Feed(x, v), s);
      FeedMeets(x, x, u, v);
    }
  }

  lemma {:induction false} BitsAppend(a: seq<bv8>, b: seq<bv8>)
    ensures Bits(a + b) == Bits(a) + Bits(b)
  {
    hide BitsOf;
    if a == [] {
      assert a + b == b;
    } else {
      assert (a + b)[1..] == a[1..] + b;
      BitsAppend(a[1..], b);
    }
  }

  lemma ByteOfBits(a: bv8, b: bv8)
    requires BitsOf(a) == BitsOf(b)
    ensures a == b
  {
    hide Shift, Xor, Feed;
    FeedWord(0, a as bv16, 8);
    FeedWord(0, b as bv16, 8);
    ByteDrops(a);
    ByteDrops(b);
    ShiftsInjective(Xor(0, a as bv16), Xor(0, b as bv16), 8);
    ZeroXor(a as bv16);
    ZeroXor(b as bv16);
    assert a as bv16 == b as bv16;
  }

  lemma ZeroXor(a: bv16)
    ensures Xor(0, a) == a
  {
  }

  lemma {:induction false} ShiftsInjective(x: bv16, y: bv16, n: nat)
    requires Shifts(x, n) == Shifts(y, n)
    ensures x == y
    decreases n
  {
    hide Shift, Unshift;
    if n > 0 {
      ShiftsInjective(Shift(x), Shift(y), n - 1);
      ShiftInverts(x);
      ShiftInverts(y);
    }
  }

  lemma {:induction false} BitsInjective(a: seq<bv8>, b: seq<bv8>)
    requires Bits(a) == Bits(b)
    ensures a == b
  {
    hide BitsOf;
    if a != [] && b != [] {
      var x, y := BitsOf(a[0]), BitsOf(b[0]);
      assert Bits(a)[..8] == x && Bits(b)[..8] == y;
      assert Bits(a)[8..] == Bits(a[1..]) && Bits(b)[8..] == Bits(b[1..]);
      ByteOfBits(a[0], b[0]);
      BitsInjective(a[1..], b[1..]);
      assert a == [a[0]] + a[1..] && b == [b[0]] + b[1..];
    }
  }

  /** Two messages that differ only within two adjacent bytes have different CRCs. */
  lemma TwoBytesDetected(crc: bv16, p: seq<bv8>, u: seq<bv8>, v: seq<bv8>, s: seq<bv8>)
    requires |u| == |v| <= 2 && u != v
    ensures Crc(crc, p + u + s) != Crc(crc, p + v + s)
  {
    hide Feed, Bits, Crc;
    CrcIsBitwise(crc, p + u + s);
    CrcIsBitwise(crc, p + v + s);
    BitsAppend(p + u, s);
    BitsAppend(p, u);
    BitsAppend(p + v, s);
    BitsAppend(p, v);
    if Bits(u) == Bits(v) {
      BitsInjective(u, v);
    }
    BurstDetected(crc, Bits(p), Bits(u), Bits(v), Bits(s));
  }

  // ---------------------------------------------------------------- the two bytes on the wire

  const REV: seq<bv8> := [0x0, 0x8, 0x4, 0xC, 0x2, 0xA, 0x6, 0xE, 0x1, 0x9, 0x5, 0xD, 0x3, 0xB, 0x7, 0xF]

  function ReverseNibble(n: bv8): (r: bv8)
    requires n < 16
    ensures r < 16
  {
    REV[n as int]
  }

  function ReverseByte(b: bv8): bv8 {
    (ReverseNibble(b & 0xF) << 4) | ReverseNibble(b >> 4)
  }

  function LowHalf(crc: bv16): bv8 {
    (crc & 0xFF) as bv8
  }

  function HighHalf(crc: bv16): bv8 {
    (crc >> 8) as bv8
  }

  /** The CRC as it is sent: low byte first, each byte with its bits reversed. */
  function Trailer(crc: bv16): (t: seq<bv8>)
    ensures |t| == 2
  {
    [ReverseByte(LowHalf(crc)), ReverseByte(HighHalf(crc))]
  }

  lemma NibbleTwice(n: bv8)
    requires n < 16
    ensures ReverseNibble(ReverseNibble(n)) == n
  {
  }

  lemma Nibbles(h: bv8, l: bv8)
    requires h < 16 && l < 16
    ensures ((h << 4) | l) & 0xF == l && ((h << 4) | l) >> 4 == h
  {
  }

  lemma OfNibbles(b: bv8)
    ensures ((b >> 4) << 4) | (b & 0xF) == b
  {
  }

  lemma ReverseTwice(b: bv8)
    ensures ReverseByte(ReverseByte(b)) == b
  {
    hide ReverseNibble;
    NibbleTwice(b & 0xF);
    NibbleTwice(b >> 4);
    Nibbles(ReverseNibble(b & 0xF), ReverseNibble(b >> 4));
    OfNibbles(b);
  }

  lemma OfHalves(c: bv16, d: bv16)
    requires LowHalf(c) == LowHalf(d) && HighHalf(c) == HighHalf(d)
    ensures c == d
  {
  }

  /** Different CRCs are sent as different bytes. */
  lemma TrailerInjective(c: bv16, d: bv16)
    requires Trailer(c) == Trailer(d)
    ensures c == d
  {
    hide ReverseByte, LowHalf, HighHalf;
    assert Trailer(c)[0] == Trailer(d)[0] && Trailer(c)[1] == Trailer(d)[1];
    ReverseTwice(LowHalf(c));
    ReverseTwice(LowHalf(d));
    ReverseTwice(HighHalf(c));
    ReverseTwice(HighHalf(d));
    OfHalves(c, d);
  }

  /** AJ_CRC16_Complete. */
  method Complete(crc: bv16, crcBlock: array<bv8>)
    requires crcBlock.Length >= 2
    modifies crcBlock
    ensures crcBlock[..2] == Trailer(crc)
    ensures crcBlock[2..] == old(crcBlock[2..])
  {
    hide ReverseNibble;
    NibblesOfHalves(crc);
    crcBlock[0] := (ReverseNibble((crc & 0xF) as bv8) << 4) | ReverseNibble(((crc >> 4) & 0xF) as bv8);
    crcBlock[1] := (ReverseNibble(((crc >> 8) & 0xF) as bv8) << 4) | ReverseNibble((crc >> 12) as bv8);
  }

  lemma NibblesOfHalves(crc: bv16)
    ensures crc & 0xF < 16 && (crc >> 4) & 0xF < 16 && (crc >> 8) & 0xF < 16 && crc >> 12 < 16
    ensures LowHalf(crc) & 0xF == (crc & 0xF) as bv8 && LowHalf(crc) >> 4 == ((crc >> 4) & 0xF) as bv8
    ensures HighHalf(crc) & 0xF == ((crc >> 8) & 0xF) as bv8 && HighHalf(crc) >> 4 == (crc >> 12) as bv8
  {
  }

  // ---------------------------------------------------------------- damage next to the trailer

  function XorByte(x: bv8, y: bv8): bv8 {
    x ^ y
  }

  lemma ShiftedHigh(d: bv16)
    requires 0 < d < 0x100
    ensures HighHalf(Shift8(d)) != 0
  {
  }

  lemma TableHigh(d: bv8)
    requires d != 0
    ensures HighHalf(Table(d)) != 0
  {
    hide Table, Shift8, HighHalf;
    TableIsShifted(d);
    ShiftedHigh(d as bv16);
  }

  lemma HighOfStep(t: bv16, h: bv16)
    ensures HighHalf(Xor(t, h >> 8)) == HighHalf(t)
  {
  }

  lemma StepHigh(crc: bv16, b: bv8)
    ensures HighHalf(Step(crc, b)) == HighHalf(Table(LowByte(crc, b)))
  {
    hide Table, Xor, Step, LowByte, HighHalf;
    StepHalves(crc, b);
    HighOfStep(Table(LowByte(crc, b)), HighByte(crc, b));
  }

  lemma HighOfXor(x: bv16, y: bv16)
    requires HighHalf(x) == HighHalf(y)
    ensures HighHalf(Xor(x, y)) == 0
  {
  }

  lemma LowDiffers(crc: bv16, b: bv8, c: bv8)
    requires b != c
    ensures XorByte(LowByte(crc, b), LowByte(crc, c)) != 0
  {
  }

  lemma XorWidens(x: bv8, y: bv8)
    ensures XorByte(x, y) as bv16 == Xor(x as bv16, y as bv16)
  {
  }

  lemma TableLinear(x: bv8, y: bv8)
    ensures Table(XorByte(x, y)) == Xor(Table(x), Table(y))
  {
    hide Table, Xor, XorByte, Shift8;
    TableIsShifted(x);
    TableIsShifted(y);
    TableIsShifted(XorByte(x, y));
    XorWidens(x, y);
    Shift8Linear(x as bv16, y as bv16);
  }

  /** The last byte fed always shows in the high half of the register. */
  lemma LastByteShows(crc: bv16, b: bv8, c: bv8)
    requires b != c
    ensures HighHalf(Step(crc, b)) != HighHalf(Step(crc, c))
  {
    hide Table, Xor, XorByte, Step, LowByte, HighHalf;
    var x, y := LowByte(crc, b), LowByte(crc, c);
    StepHigh(crc, b);
    StepHigh(crc, c);
    LowDiffers(crc, b, c);
    TableLinear(x, y);
    TableHigh(XorByte(x, y));
    if HighHalf(Table(x)) == HighHalf(Table(y)) {
      HighOfXor(Table(x), Table(y));
    }
  }
}
