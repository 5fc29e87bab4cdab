/**
 CRC-8 with the polynomial x^8 + x^2 + x + 1: the bitwise form of crc8.c, the table-driven form
 of crc8.py, and which alterations of a checksummed message are always noticed.
 */
module Crc {
  import opened Tables

  type Bytes = seq<bv8>

  // ----- The checksum -----

  /** One shift of the 8-bit register. */
  function BitStep(x: bv8): bv8 {
    if x & 0x80 != 0 then (x << 1) ^ 0x07 else x << 1
  }

  /** k shifts. */
  function Shifts(x: bv8, k: nat): bv8 {
    if k == 0 then x else BitStep(Shifts(x, k - 1))
  }

  /** Eight shifts: the checksum of the single byte x. */
  function ByteCrc(x: bv8): bv8 {
    BitStep(BitStep(BitStep(BitStep(BitStep(BitStep(BitStep(BitStep(x))))))))
  }

  /** The checksum of a message. */
  function Crc(msg: Bytes): bv8 {
    if msg == [] then 0 else ByteCrc(Crc(msg[..|msg| - 1]) ^ msg[|msg| - 1])
  }

  lemma EightShifts(x: bv8)
    ensures Shifts(x, 8) == ByteCrc(x)
  {
    hide BitStep;
    assert Shifts(x, 2) == BitStep(BitStep(Shifts(x, 0)));
    assert Shifts(x, 4) == BitStep(BitStep(Shifts(x, 2)));
    assert Shifts(x, 6) == BitStep(BitStep(Shifts(x, 4)));
    assert Shifts(x, 8) == BitStep(BitStep(Shifts(x, 6)));
  }

  lemma CrcAppend(msg: Bytes, b: bv8)
    ensures Crc(msg + [b]) == ByteCrc(Crc(msg) ^ b)
  {
  }

  /** The 32-bit accumulator holds the register in its second byte: it stays below 2^16 with a low byte of zero. */
  ghost predicate Holds(crc: bv32, x: bv8) {
    crc == (x as bv32) << 8
  }

  lemma HoldsRange(crc: bv32, x: bv8)
    requires Holds(crc, x)
    ensures crc & 0xffff_00ff == 0 && (crc >> 8) as bv8 == x
  {
  }

  lemma HoldsStep(crc: bv32, x: bv8)
    requires Holds(crc, x)
    ensures Holds((if crc & 0x8000 != 0 then crc ^ (0x1070 << 3) else crc) << 1, BitStep(x))
  {
  }

  lemma HoldsXor(crc: bv32, x: bv8, b: bv8)
    requires Holds(crc, x)
    ensures Holds(crc ^ ((b as bv32) << 8), x ^ b)
  {
  }

  /** crc8 of crc8.c. */
  method Crc8(data: Bytes) returns (r: bv8)
    ensures r == Crc(data)
  {
    var crc: bv32 := 0;
    var j := |data|;
    while j != 0
      invariant 0 <= j <= |data|
      invariant Holds(crc, Crc(data[..|data| - j]))
      invariant crc & 0xffff_00ff == 0
    {
      ghost var k := |data| - j;
      HoldsXor(crc, Crc(data[..k]), data[k]);
      crc := crc ^ ((data[|data| - j] as bv32) << 8);
      ghost var x := Crc(data[..k]) ^ data[k];
      var i := 8;
      while i != 0
        invariant 0 <= i <= 8
        invariant Holds(crc, Shifts(x, 8 - i))
      {
        HoldsStep(crc, Shifts(x, 8 - i));
        if crc & 0x8000 != 0 {
          crc := crc ^ (0x1070 << 3);
        }
        crc := crc << 1;
        i := i - 1;
      }
      EightShifts(x);
      CrcAppend(data[..k], data[k]);
      assert data[..k + 1] == data[..k] + [data[k]];
      HoldsRange(crc, Crc(data[..k + 1]));
      j := j - 1;
    }
    assert data[..|data|] == data;
    HoldsRange(crc, Crc(data));
    r := (crc >> 8) as bv8;
  }

  // ----- The table-driven form -----

  /** crcTable of crc8.py, sixteen entries a row. */
  function CrcTable(i: bv8): bv8 {
    var k := i & 0x0f;
    match i >> 4
    case 0x0 => Pick(k, 0x00, 0x07, 0x0e, 0x09, 0x1c, 0x1b, 0x12, 0x15, 0x38, 0x3f, 0x36, 0x31, 0x24, 0x23, 0x2a, 0x2d)
    case 0x1 => Pick(k, 0x70, 0x77, 0x7e, 0x79, 0x6c, 0x6b, 0x62, 0x65, 0x48, 0x4f, 0x46, 0x41, 0x54, 0x53, 0x5a, 0x5d)
    case 0x2 => Pick(k, 0xe0, 0xe7, 0xee, 0xe9, 0xfc, 0xfb, 0xf2, 0xf5, 0xd8, 0xdf, 0xd6, 0xd1, 0xc4, 0xc3, 0xca, 0xcd)
    case 0x3 => Pick(k, 0x90, 0x97, 0x9e, 0x99, 0x8c, 0x8b, 0x82, 0x85, 0xa8, 0xaf, 0xa6, 0xa1, 0xb4, 0xb3, 0xba, 0xbd)
    case 0x4 => Pick(k, 0xc7, 0xc0, 0xc9, 0xce, 0xdb, 0xdc, 0xd5, 0xd2, 0xff, 0xf8, 0xf1, 0xf6, 0xe3, 0xe4, 0xed, 0xea)
    case 0x5 => Pick(k, 0xb7, 0xb0, 0xb9, 0xbe, 0xab, 0xac, 0xa5, 0xa2, 0x8f, 0x88, 0x81, 0x86, 0x93, 0x94, 0x9d, 0x9a)
    case 0x6 => Pick(k, 0x27, 0x20, 0x29, 0x2e, 0x3b, 0x3c, 0x35, 0x32, 0x1f, 0x18, 0x11, 0x16, 0x03, 0x04, 0x0d, 0x0a)
    case 0x7 => Pick(k, 0x57, 0x50, 0x59, 0x5e, 0x4b, 0x4c, 0x45, 0x42, 0x6f, 0x68, 0x61, 0x66, 0x73, 0x74, 0x7d, 0x7a)
    case 0x8 => Pick(k, 0x89, 0x8e, 0x87, 0x80, 0x95, 0x92, 0x9b, 0x9c, 0xb1, 0xb6, 0xbf, 0xb8, 0xad, 0xaa, 0xa3, 0xa4)
    case 0x9 => Pick(k, 0xf9, 0xfe, 0xf7, 0xf0, 0xe5, 0xe2, 0xeb, 0xec, 0xc1, 0xc6, 0xcf, 0xc8, 0xdd, 0xda, 0xd3, 0xd4)
    case 0xa => Pick(k, 0x69, 0x6e, 0x67, 0x60, 0x75, 0x72, 0x7b, 0x7c, 0x51, 0x56, 0x5f, 0x58, 0x4d, 0x4a, 0x43, 0x44)
    case 0xb => Pick(k, 0x19, 0x1e, 0x17, 0x10, 0x05, 0x02, 0x0b, 0x0c, 0x21, 0x26, 0x2f, 0x28, 0x3d, 0x3a, 0x33, 0x34)
    case 0xc => Pick(k, 0x4e, 0x49, 0x40, 0x47, 0x52, 0x55, 0x5c, 0x5b, 0x76, 0x71, 0x78, 0x7f, 0x6a, 0x6d, 0x64, 0x63)
    case 0xd => Pick(k, 0x3e, 0x39, 0x30, 0x37, 0x22, 0x25, 0x2c, 0x2b, 0x06, 0x01, 0x08, 0x0f, 0x1a, 0x1d, 0x14, 0x13)
    case 0xe => Pick(k, 0xae, 0xa9, 0xa0, 0xa7, 0xb2, 0xb5, 0xbc, 0xbb, 0x96, 0x91, 0x98, 0x9f, 0x8a, 0x8d, 0x84, 0x83)
    case _ => Pick(k, 0xde, 0xd9, 0xd0, 0xd7, 0xc2, 0xc5, 0xcc, 0xcb, 0xe6, 0xe1, 0xe8, 0xef, 0xfa, 0xfd, 0xf4, 0xf3)
  }

  lemma LowRows(i: bv8)
    requires i < 0x80
    ensures CrcTable(i) == ByteCrc(i)
  {
  }

  lemma HighRows(i: bv8)
    requires i >= 0x80
    ensures CrcTable(i) == ByteCrc(i)
  {
  }

  /** Every entry of the table is the checksum of its index. */
  lemma TableIsByteCrc(i: bv8)
    ensures CrcTable(i) == ByteCrc(i)
  {
    hide CrcTable, ByteCrc;
    if i < 0x80 {
      LowRows(i);
    } else {
      HighRows(i);
    }
  }

  /** The table entry that the Python loop takes for the byte b. */
  function PythonNext(runningCRC: bv8, b: bv8): bv8 {
    CrcTable((runningCRC & 0xff) ^ (b & 0xff))
  }

  lemma PythonIndex(x: bv8, y: bv8)
    ensures (x & 0xff) ^ (y & 0xff) == x ^ y
  {
  }

  lemma PythonStep(m: Bytes, b: bv8)
    ensures PythonNext(Crc(m), b) == Crc(m + [b])
  {
    hide CrcTable, ByteCrc, Crc;
    PythonIndex(Crc(m), b);
    TableIsByteCrc(Crc(m) ^ b);
    CrcAppend(m, b);
  }

  /** crc8.crc8 of crc8.py; the characters of the message are taken as bytes. */
  method PythonCrc8(msg: Bytes) returns (runningCRC: bv8)
    ensures runningCRC == Crc(msg)
  {
    runningCRC := 0;
    assert Crc([]) == 0;
    hide Crc, PythonNext;
    for k := 0 to |msg|
      invariant runningCRC == Crc(msg[..k])
    {
      assert msg[..k + 1] == msg[..k] + [msg[k]];
      PythonStep(msg[..k], msg[k]);
      runningCRC := PythonNext(runningCRC, msg[k]);
    }
    assert msg[..|msg|] == msg;
  }

  // ----- Linearity -----

  function XorByte(x: bv8, y: bv8): bv8 {
    x ^ y
  }

  /** The bytewise exclusive or of two messages of the same length. */
  function Xor(m: Bytes, e: Bytes): (r: Bytes)
    requires |m| == |e|
    ensures |r| == |m|
  {
    seq(|m|, i requires 0 <= i < |m| => XorByte(m[i], e[i]))
  }

  lemma ShiftXor(x: bv8, y: bv8)
    ensures (x ^ y) << 1 == (x << 1) ^ (y << 1)
    ensures (x ^ y) & 0x80 == (x & 0x80) ^ (y & 0x80)
  {
  }

  lemma TopBit(x: bv8)
    ensures x & 0x80 == 0 || x & 0x80 == 0x80
  {
  }

  lemma Regroup(a: bv8, b: bv8)
    ensures (a ^ 0x07) ^ (b ^ 0x07) == a ^ b
    ensures (a ^ 0x07) ^ b == (a ^ b) ^ 0x07 == a ^ (b ^ 0x07)
  {
  }

  lemma BitStepXor(x: bv8, y: bv8)
    ensures BitStep(XorByte(x, y)) == XorByte(BitStep(x), BitStep(y))
  {
    ShiftXor(x, y);
    TopBit(x);
    TopBit(y);
    Regroup(x << 1, y << 1);
  }

  lemma {:induction false} ShiftsXor(x: bv8, y: bv8, k: nat)
    ensures Shifts(XorByte(x, y), k) == XorByte(Shifts(x, k), Shifts(y, k))
  {
    hide BitStep, XorByte;
    if k > 0 {
      ShiftsXor(x, y, k - 1);
      BitStepXor(Shifts(x, k - 1), Shifts(y, k - 1));
    }
  }

  lemma ByteCrcXor(x: bv8, y: bv8)
    ensures ByteCrc(XorByte(x, y)) == XorByte(ByteCrc(x), ByteCrc(y))
  {
    hide ByteCrc, XorByte;
    EightShifts(x);
    EightShifts(y);
    EightShifts(XorByte(x, y));
    ShiftsXor(x, y, 8);
  }

  lemma XorAssoc(a: bv8, b: bv8, c: bv8)
    ensures XorByte(XorByte(a, b), c) == XorByte(a, XorByte(b, c))
  {
  }

  lemma XorCommutes(a: bv8, b: bv8)
    ensures XorByte(a, b) == XorByte(b, a)
  {
  }

  lemma XorSwap(c: bv8, d: bv8, m: bv8, e: bv8)
    ensures XorByte(XorByte(c, d), XorByte(m, e)) == XorByte(XorByte(c, m), XorByte(d, e))
  {
    hide XorByte;
    XorAssoc(c, d, XorByte(m, e));
    XorAssoc(d, m, e);
    XorCommutes(d, m);
    XorAssoc(m, d, e);
    XorAssoc(c, m, XorByte(d, e));
  }

  lemma CrcLast(msg: Bytes)
    requires msg != []
    ensures Crc(msg) == ByteCrc(XorByte(Crc(msg[..|msg| - 1]), msg[|msg| - 1]))
  {
  }

  lemma XorInit(m: Bytes, e: Bytes)
    requires |m| == |e| > 0
    ensures Xor(m, e)[..|m| - 1] == Xor(m[..|m| - 1], e[..|m| - 1])
    ensures Xor(m, e)[|m| - 1] == XorByte(m[|m| - 1], e[|m| - 1])
  {
  }

  /** The checksum is linear. */
  lemma {:induction false} CrcXor(m: Bytes, e: Bytes)
    requires |m| == |e|
    ensures Crc(Xor(m, e)) == XorByte(Crc(m), Crc(e))
  {
    if m != [] {
      hide XorByte, ByteCrc, Xor, Crc;
      var n := |m| - 1;
      CrcXor(m[..n], e[..n]);
      XorInit(m, e);
      CrcLast(m);
      CrcLast(e);
      CrcLast(Xor(m, e));
      var c, d := Crc(m[..n]), Crc(e[..n]);
      XorSwap(c, d, m[n], e[n]);
      ByteCrcXor(XorByte(c, m[n]), XorByte(d, e[n]));
    }
  }

  // ----- Checksummed messages -----

  /** A message followed by its checksum. */
  function Checked(msg: Bytes): Bytes {
    msg + [Crc(msg)]
  }

  /** The checksum of a checksummed message is zero, and of no other continuation of the message. */
  lemma CheckedIsClean(msg: Bytes, b: bv8)
    ensures Crc(msg + [b]) == 0 <==> msg + [b] == Checked(msg)
  {
    CrcAppend(msg, b);
    ByteCrcInjective(Crc(msg) ^ b);
    assert Crc(msg) ^ b == 0 <==> b == Crc(msg);
    assert (msg + [b])[|msg|] == b && Checked(msg)[|msg|] == Crc(msg);
  }

  /** Eight shifts lose nothing. */
  lemma ByteCrcInjective(x: bv8)
    ensures ByteCrc(x) == 0 <==> x == 0
  {
  }

  lemma BitStepNonZero(x: bv8)
    ensures BitStep(x) == 0 <==> x == 0
  {
  }

  lemma {:induction false} ShiftsNonZero(x: bv8, k: nat)
    ensures Shifts(x, k) == 0 <==> x == 0
  {
    hide BitStep;
    if k > 0 {
      ShiftsNonZero(x, k - 1);
      BitStepNonZero(Shifts(x, k - 1));
    }
  }

  /** The same for a whole received text. */
  lemma WholeIsClean(data: Bytes)
    requires data != []
    ensures Crc(data) == 0 <==> data == Checked(data[..|data| - 1])
  {
    hide Crc, Checked;
    CheckedIsClean(data[..|data| - 1], data[|data| - 1]);
    assert data == data[..|data| - 1] + [data[|data| - 1]];
  }

  /** crc_data of crc8.c: the message and its checksum are copied to position start of buf. */
  method CrcData(data: Bytes, buf: array<bv8>, start: nat) returns (len: nat)
    requires start + |data| < buf.Length
    modifies buf
    ensures len == |data| + 1 && buf[start..start + len] == Checked(data)
    ensures buf[..start] == old(buf[..start]) && buf[start + len..] == old(buf[start + len..])
  {
    var crcVal := Crc8(data);
    forall i | 0 <= i < |data| {
      buf[start + i] := data[i];
    }
    buf[start + |data|] := crcVal;
    len := |data| + 1;
  }

  /** What reverse_crc_data does: return a value, or copy a number of bytes that is not a length. */
  datatype Reversal = Returns(ret: int) | BadCopy(count: int)

  /**
   reverse_crc_data of crc8.c: 0 and the message without its checksum, or -1 and an untouched buffer. Without
   a buffer it answers -1. The checksum of no bytes is zero, so with a buffer an empty message goes on to a
   copy of -1 bytes.
   */
  method ReverseCrcData(data: Bytes, buf: array?<bv8>) returns (r: Reversal)
    requires buf != null ==> |data| <= buf.Length + 1
    modifies buf
    ensures buf == null ==> r == Returns(-1)
    ensures r.BadCopy? <==> buf != null && data == []
    ensures r.BadCopy? ==> r.count == -1
    ensures r == Returns(0) <==> buf != null && data != [] && data == Checked(data[..|data| - 1])
    ensures r == Returns(0) ==> buf[..|data| - 1] == data[..|data| - 1] && buf[|data| - 1..] == old(buf[|data| - 1..])
    ensures r.Returns? && r.ret != 0 ==> r.ret == -1 && (buf != null ==> buf[..] == old(buf[..]))
  {
    r := Returns(-1);
    if buf == null {
      return;
    }
    if data != [] {
      WholeIsClean(data);
    }
    var crcVal := Crc8(data);
    if crcVal == 0 {
      var count := |data| - 1;
      if count < 0 {
        return BadCopy(count);
      }
      forall i | 0 <= i < count {
        buf[i] := data[i];
      }
      r := Returns(0);
    }
  }

  // ----- Alterations that are always noticed -----

  /** Bit i of a byte, the most significant first. */
  function BitMask(i: int): bv8 {
    match i
    case 0 => 0x80 case 1 => 0x40 case 2 => 0x20 case 3 => 0x10
    case 4 => 0x08 case 5 => 0x04 case 6 => 0x02 case _ => 0x01
  }

  /** Bit i of a message, counted from the front. */
  predicate Bit(e: Bytes, i: nat)
    requires i < 8 * |e|
  {
    e[i / 8] & BitMask(i % 8) != 0
  }

  /** The number of bits set in a byte. */
  function BitCount(x: bv8): nat {
    (if x & 0x80 != 0 then 1 else 0) + (if x & 0x40 != 0 then 1 else 0) +
    (if x & 0x20 != 0 then 1 else 0) + (if x & 0x10 != 0 then 1 else 0) +
    (if x & 0x08 != 0 then 1 else 0) + (if x & 0x04 != 0 then 1 else 0) +
    (if x & 0x02 != 0 then 1 else 0) + (if x & 0x01 != 0 then 1 else 0)
  }

  function TotalBits(e: Bytes): nat {
    if e == [] then 0 else TotalBits(e[..|e| - 1]) + BitCount(e[|e| - 1])
  }

  function Fold4(x: bv8): bv8 {
    XorByte(x, x >> 4)
  }

  function Fold2(x: bv8): bv8 {
    XorByte(x, x >> 2)
  }

  function Fold1(x: bv8): bv8 {
    XorByte(x, x >> 1) & 1
  }

  /** Whether an odd number of bits is set. */
  function Parity(x: bv8): bv8 {
    Fold1(Fold2(Fold4(x)))
  }

  lemma ShiftRightXor(x: bv8, y: bv8)
    ensures XorByte(x, y) >> 4 == XorByte(x >> 4, y >> 4)
    ensures XorByte(x, y) >> 2 == XorByte(x >> 2, y >> 2)
    ensures XorByte(x, y) >> 1 == XorByte(x >> 1, y >> 1)
    ensures XorByte(x, y) & 1 == XorByte(x & 1, y & 1)
  {
  }

  lemma Fold4Xor(x: bv8, y: bv8)
    ensures Fold4(XorByte(x, y)) == XorByte(Fold4(x), Fold4(y))
  {
    hide XorByte;
    ShiftRightXor(x, y);
    XorSwap(x, y, x >> 4, y >> 4);
  }

  lemma Fold2Xor(x: bv8, y: bv8)
    ensures Fold2(XorByte(x, y)) == XorByte(Fold2(x), Fold2(y))
  {
    hide XorByte;
    ShiftRightXor(x, y);
    XorSwap(x, y, x >> 2, y >> 2);
  }

  lemma Fold1Xor(x: bv8, y: bv8)
    ensures Fold1(XorByte(x, y)) == XorByte(Fold1(x), Fold1(y))
  {
  }

  lemma ParityStep(x: bv8)
    ensures Parity(BitStep(x)) == Parity(x)
  {
  }

  lemma {:induction false} ParityShifts(x: bv8, k: nat)
    ensures Parity(Shifts(x, k)) == Parity(x)
  {
    hide BitStep, Parity;
    if k > 0 {
      ParityShifts(x, k - 1);
      ParityStep(Shifts(x, k - 1));
    }
  }

  lemma ParityByteCrc(x: bv8)
    ensures Parity(ByteCrc(x)) == Parity(x)
  {
  }

  lemma ParityXor(x: bv8, y: bv8)
    ensures Parity(XorByte(x, y)) == XorByte(Parity(x), Parity(y))
  {
    hide Fold4, Fold2, Fold1, XorByte;
    Fold4Xor(x, y);
    Fold2Xor(Fold4(x), Fold4(y));
    Fold1Xor(Fold2(Fold4(x)), Fold2(Fold4(y)));
  }

  lemma ParityIsBitCount(x: bv8)
    ensures Parity(x) == if BitCount(x) % 2 == 1 then 1 else 0
  {
  }

  lemma ParityValues(x: bv8)
    ensures Parity(x) == 0 || Parity(x) == 1
    ensures Parity(0) == 0
  {
  }

  lemma XorBits(x: bv8, y: bv8)
    requires (x == 0 || x == 1) && (y == 0 || y == 1)
    ensures XorByte(x, y) == if x == y then 0 else 1
  {
  }

  /** The parity of the checksum is the parity of the message. */
  lemma {:induction false} CrcParity(e: Bytes)
    ensures Parity(Crc(e)) == if TotalBits(e) % 2 == 1 then 1 else 0
  {
    hide Parity, XorByte, ByteCrc, BitCount;
    ParityValues(0);
    if e != [] {
      var n := |e| - 1;
      CrcParity(e[..n]);
      CrcLast(e);
      var c, b := Crc(e[..n]), e[n];
      ParityByteCrc(XorByte(c, b));
      ParityXor(c, b);
      ParityIsBitCount(b);
      ParityValues(b);
      ParityValues(c);
      XorBits(Parity(c), Parity(b));
    }
  }

  /** A checksummed message with an odd number of its bits flipped is rejected. */
  lemma OddFlipsDetected(msg: Bytes, e: Bytes)
    requires |e| == |msg| + 1 && TotalBits(e) % 2 == 1
    ensures Crc(Xor(Checked(msg), e)) != 0
  {
    hide Parity, XorByte, TotalBits;
    AlteredChecksum(msg, e);
    CrcParity(e);
    ParityValues(0);
  }

  /** The checksum of an altered checksummed message is that of the alteration. */
  lemma AlteredChecksum(msg: Bytes, e: Bytes)
    requires |e| == |msg| + 1
    ensures Crc(Xor(Checked(msg), e)) == Crc(e)
  {
    CrcXor(Checked(msg), e);
    CheckedIsClean(msg, Crc(msg));
    var c := Crc(e);
    assert XorByte(0, c) == c;
  }

  // ----- Bursts -----

  /** All set bits of e lie within eight consecutive positions from s on. */
  predicate BurstAt(e: Bytes, s: nat) {
    forall i: nat :: i < 8 * |e| && Bit(e, i) ==> s <= i < s + 8
  }

  /** e is not zero, and its bits lie within eight consecutive positions. */
  ghost predicate IsBurst(e: Bytes) {
    && (exists i: nat :: i < 8 * |e| && Bit(e, i))
    && (exists s: nat :: s < 8 * |e| && BurstAt(e, s))
  }

  lemma NoBits(x: bv8)
    requires forall i :: 0 <= i < 8 ==> x & BitMask(i) == 0
    ensures x == 0
  {
    assert x & BitMask(0) == 0 && x & BitMask(1) == 0 && x & BitMask(2) == 0 && x & BitMask(3) == 0;
    assert x & BitMask(4) == 0 && x & BitMask(5) == 0 && x & BitMask(6) == 0 && x & BitMask(7) == 0;
  }

  lemma BitOfByte(e: Bytes, q: nat, i: nat)
    requires q < |e| && i < 8
    ensures 8 * q + i < 8 * |e|
    ensures Bit(e, 8 * q + i) <==> e[q] & BitMask(i) != 0
  {
  }

  /** Leading zero bytes do not change the register, trailing ones do not clear it. */
  lemma {:induction false} LeadingZeros(e: Bytes, n: nat)
    requires n <= |e| && forall k :: 0 <= k < n ==> e[k] == 0
    ensures Crc(e[..n]) == 0
  {
    if n > 0 {
      LeadingZeros(e, n - 1);
      assert e[..n][..n - 1] == e[..n - 1];
      CrcLast(e[..n]);
      ByteCrcInjective(0);
    }
  }

  lemma {:induction false} TrailingZeros(e: Bytes, n: nat, m: nat)
    requires n <= m <= |e| && (forall k :: n <= k < m ==> e[k] == 0) && Crc(e[..n]) != 0
    ensures Crc(e[..m]) != 0
    decreases m
  {
    if n < m {
      TrailingZeros(e, n, m - 1);
      assert e[..m][..m - 1] == e[..m - 1];
      CrcLast(e[..m]);
      var c := Crc(e[..m - 1]);
      assert XorByte(c, 0) == c;
      ByteCrcInjective(c);
    }
  }

  /** The bits of a byte before position r. */
  function FrontBits(r: nat): bv8 {
    match r
    case 0 => 0x00 case 1 => 0x80 case 2 => 0xc0 case 3 => 0xe0
    case 4 => 0xf0 case 5 => 0xf8 case 6 => 0xfc case _ => 0xfe
  }

  lemma FrontClear(x: bv8, r: nat)
    requires r < 8 && forall i :: 0 <= i < r ==> x & BitMask(i) == 0
    ensures x & FrontBits(r) == 0
  {
    assert r > 0 ==> x & BitMask(0) == 0;
    assert r > 1 ==> x & BitMask(1) == 0;
    assert r > 2 ==> x & BitMask(2) == 0;
    assert r > 3 ==> x & BitMask(3) == 0;
    assert r > 4 ==> x & BitMask(4) == 0;
    assert r > 5 ==> x & BitMask(5) == 0;
    assert r > 6 ==> x & BitMask(6) == 0;
  }

  lemma BackClear(x: bv8, r: nat)
    requires r < 8 && forall i :: r <= i < 8 ==> x & BitMask(i) == 0
    ensures x & !FrontBits(r) == 0
  {
    assert r < 1 ==> x & BitMask(0) == 0;
    assert r < 2 ==> x & BitMask(1) == 0;
    assert r < 3 ==> x & BitMask(2) == 0;
    assert r < 4 ==> x & BitMask(3) == 0;
    assert r < 5 ==> x & BitMask(4) == 0;
    assert r < 6 ==> x & BitMask(5) == 0;
    assert r < 7 ==> x & BitMask(6) == 0;
    assert x & BitMask(7) == 0;
  }

  /** A pattern of at most eight bits across a byte border does not cancel in the register. */
  lemma TwoBytes(a: bv8, b: bv8, r: nat)
    requires r < 8 && a & FrontBits(r) == 0 && b & !FrontBits(r) == 0
    requires ByteCrc(a) == b
    ensures a == 0 && b == 0
  {
  }

  /** A byte of a burst: none of its bits outside the window is set. */
  lemma BurstByte(e: Bytes, s: nat, q: nat)
    requires BurstAt(e, s) && q < |e|
    ensures forall i :: 0 <= i < 8 && (8 * q + i < s || 8 * q + i >= s + 8) ==> e[q] & BitMask(i) == 0
  {
    forall i | 0 <= i < 8 && (8 * q + i < s || 8 * q + i >= s + 8)
      ensures e[q] & BitMask(i) == 0
    {
      BitOfByte(e, q, i);
    }
  }

  lemma OutsideBurst(e: Bytes, s: nat, q: nat)
    requires BurstAt(e, s) && q < |e| && (q < s / 8 || q > s / 8 + 1)
    ensures e[q] == 0
  {
    BurstByte(e, s, q);
    NoBits(e[q]);
  }

  lemma FirstByte(e: Bytes, q: nat)
    requires q < |e| && forall k :: 0 <= k < q ==> e[k] == 0
    ensures Crc(e[..q + 1]) == ByteCrc(e[q])
  {
    hide ByteCrc;
    LeadingZeros(e, q);
    assert e[..q + 1][..q] == e[..q];
    CrcLast(e[..q + 1]);
    XorZero(e[q]);
  }

  lemma XorZero(x: bv8)
    ensures XorByte(0, x) == x == XorByte(x, 0)
  {
  }

  /** The two bytes under the window of a burst do not cancel in the register. */
  lemma BurstPair(e: Bytes, s: nat)
    requires BurstAt(e, s) && s / 8 + 1 < |e|
    requires e[s / 8] != 0 || e[s / 8 + 1] != 0
    ensures ByteCrc(e[s / 8]) != e[s / 8 + 1]
  {
    var q, r, a, b := s / 8, s % 8, e[s / 8], e[s / 8 + 1];
    hide ByteCrc, BurstAt;
    BurstByte(e, s, q);
    BurstByte(e, s, q + 1);
    FrontClear(a, r);
    BackClear(b, r);
    hide BitMask, FrontBits;
    if ByteCrc(a) == b {
      TwoBytes(a, b, r);
    }
  }

  /** The register after the one or two bytes of the burst is not zero. */
  lemma BurstRegister(e: Bytes, s: nat, n: nat)
    requires s < 8 * |e| && BurstAt(e, s)
    requires n == if s / 8 + 1 < |e| then s / 8 + 2 else s / 8 + 1
    requires e[s / 8] != 0 || (s / 8 + 1 < |e| && e[s / 8 + 1] != 0)
    ensures Crc(e[..n]) != 0
  {
    hide BitMask, BurstAt, ByteCrc, Crc, XorByte;
    var q := s / 8;
    forall k | 0 <= k < q
      ensures e[k] == 0
    {
      OutsideBurst(e, s, k);
    }
    FirstByte(e, q);
    ByteCrcInjective(e[q]);
    if q + 1 < |e| {
      assert e[..q + 2][..q + 1] == e[..q + 1];
      CrcLast(e[..q + 2]);
      ByteCrcInjective(XorByte(ByteCrc(e[q]), e[q + 1]));
      BurstPair(e, s);
      XorCancels(ByteCrc(e[q]), e[q + 1]);
    }
  }

  lemma XorCancels(x: bv8, y: bv8)
    ensures XorByte(x, y) == 0 <==> x == y
  {
  }

  /** A checksummed message altered by any pattern within eight consecutive bits is rejected. */
  lemma BurstDetected(msg: Bytes, e: Bytes)
    requires |e| == |msg| + 1 && IsBurst(e)
    ensures Crc(Xor(Checked(msg), e)) != 0
  {
    hide BitMask, Crc, BurstAt, Checked, Xor;
    AlteredChecksum(msg, e);
    var i: nat :| i < 8 * |e| && Bit(e, i);
    var s: nat :| s < 8 * |e| && BurstAt(e, s);
    var q := s / 8;
    var n := if q + 1 < |e| then q + 2 else q + 1;
    assert e[i / 8] != 0;
    if i / 8 < q || i / 8 > q + 1 {
      OutsideBurst(e, s, i / 8);
    }
    BurstRegister(e, s, n);
    forall k | n <= k < |e|
      ensures e[k] == 0
    {
      OutsideBurst(e, s, k);
    }
    TrailingZeros(e, n, |e|);
    assert e[..|e|] == e;
  }

  // ----- The reversal in crc8.py -----

  datatype Reversed = Nothing | Payload(msg: Bytes)

  /** crc8.reverse_crc8_data of crc8.py: the test is negated there. */
  method PythonReverse(msg: Bytes) returns (r: Reversed)
    ensures r == PythonReversed(msg)
  {
    var crc := PythonCrc8(msg);
    var integrity := crc == 0;
    if !integrity {
      r := Payload(if msg == [] then [] else msg[..|msg| - 1]);
    } else {
      r := Nothing;
    }
  }

  /** What crc8.reverse_crc8_data answers. */
  function PythonReversed(msg: Bytes): Reversed {
    if Crc(msg) == 0 then Nothing else Payload(if msg == [] then [] else msg[..|msg| - 1])
  }

  /** So it gives back the payload of msg + [b] exactly when b is not the checksum of msg. */
  lemma PythonReverseInverted(msg: Bytes, b: bv8)
    ensures PythonReversed(msg + [b]) == Payload(msg) <==> b != Crc(msg)
    ensures PythonReversed(Checked(msg)) == Nothing
  {
    CheckedIsClean(msg, b);
    CheckedIsClean(msg, Crc(msg));
    var m := msg + [b];
    assert m[..|m| - 1] == msg && m[|msg|] == b && Checked(msg)[|msg|] == Crc(msg);
  }
}
