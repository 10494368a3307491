// The table-driven Modbus CRC-16 of ModbusRTUTemplate::crc16, its loop, and a
// proof that its table holds the remainders of the standard reflected CRC-16
// with polynomial 0xA001 (section 6.2.2 of "MODBUS over Serial Line
// Specification and Implementation Guide V1.02").

module Crc16 {
  import opened Common

  // The 257-entry `_auchCRC` table. Entry i packs the classic `auchCRCHi[i]`
  // (high byte) and `auchCRCLo[i]` (low byte). It is written as sixteen rows of
  // sixteen entries plus the trailing zero entry.
  const Row0: seq<bv16> := [
    0x0000, 0xC1C0, 0x81C1, 0x4001, 0x01C3, 0xC003, 0x8002, 0x41C2,
    0x01C6, 0xC006, 0x8007, 0x41C7, 0x0005, 0xC1C5, 0x81C4, 0x4004]
  const Row1: seq<bv16> := [
    0x01CC, 0xC00C, 0x800D, 0x41CD, 0x000F, 0xC1CF, 0x81CE, 0x400E,
    0x000A, 0xC1CA, 0x81CB, 0x400B, 0x01C9, 0xC009, 0x8008, 0x41C8]
  const Row2: seq<bv16> := [
    0x01D8, 0xC018, 0x8019, 0x41D9, 0x001B, 0xC1DB, 0x81DA, 0x401A,
    0x001E, 0xC1DE, 0x81DF, 0x401F, 0x01DD, 0xC01D, 0x801C, 0x41DC]
  const Row3: seq<bv16> := [
    0x0014, 0xC1D4, 0x81D5, 0x4015, 0x01D7, 0xC017, 0x8016, 0x41D6,
    0x01D2, 0xC012, 0x8013, 0x41D3, 0x0011, 0xC1D1, 0x81D0, 0x4010]
  const Row4: seq<bv16> := [
    0x01F0, 0xC030, 0x8031, 0x41F1, 0x0033, 0xC1F3, 0x81F2, 0x4032,
    0x0036, 0xC1F6, 0x81F7, 0x4037, 0x01F5, 0xC035, 0x8034, 0x41F4]
  const Row5: seq<bv16> := [
    0x003C, 0xC1FC, 0x81FD, 0x403D, 0x01FF, 0xC03F, 0x803E, 0x41FE,
    0x01FA, 0xC03A, 0x803B, 0x41FB, 0x0039, 0xC1F9, 0x81F8, 0x4038]
  const Row6: seq<bv16> := [
    0x0028, 0xC1E8, 0x81E9, 0x4029, 0x01EB, 0xC02B, 0x802A, 0x41EA,
    0x01EE, 0xC02E, 0x802F, 0x41EF, 0x002D, 0xC1ED, 0x81EC, 0x402C]
  const Row7: seq<bv16> := [
    0x01E4, 0xC024, 0x8025, 0x41E5, 0x0027, 0xC1E7, 0x81E6, 0x4026,
    0x0022, 0xC1E2, 0x81E3, 0x4023, 0x01E1, 0xC021, 0x8020, 0x41E0]
  const Row8: seq<bv16> := [
    0x01A0, 0xC060, 0x8061, 0x41A1, 0x0063, 0xC1A3, 0x81A2, 0x4062,
    0x0066, 0xC1A6, 0x81A7, 0x4067, 0x01A5, 0xC065, 0x8064, 0x41A4]
  const Row9: seq<bv16> := [
    0x006C, 0xC1AC, 0x81AD, 0x406D, 0x01AF, 0xC06F, 0x806E, 0x41AE,
    0x01AA, 0xC06A, 0x806B, 0x41AB, 0x0069, 0xC1A9, 0x81A8, 0x4068]
  const RowA: seq<bv16> := [
    0x0078, 0xC1B8, 0x81B9, 0x4079, 0x01BB, 0xC07B, 0x807A, 0x41BA,
    0x01BE, 0xC07E, 0x807F, 0x41BF, 0x007D, 0xC1BD, 0x81BC, 0x407C]
  const RowB: seq<bv16> := [
    0x01B4, 0xC074, 0x8075, 0x41B5, 0x0077, 0xC1B7, 0x81B6, 0x4076,
    0x0072, 0xC1B2, 0x81B3, 0x4073, 0x01B1, 0xC071, 0x8070, 0x41B0]
  const RowC: seq<bv16> := [
    0x0050, 0xC190, 0x8191, 0x4051, 0x0193, 0xC053, 0x8052, 0x4192,
    0x0196, 0xC056, 0x8057, 0x4197, 0x0055, 0xC195, 0x8194, 0x4054]
  const RowD: seq<bv16> := [
    0x019C, 0xC05C, 0x805D, 0x419D, 0x005F, 0xC19F, 0x819E, 0x405E,
    0x005A, 0xC19A, 0x819B, 0x405B, 0x0199, 0xC059, 0x8058, 0x4198]
  const RowE: seq<bv16> := [
    0x0188, 0xC048, 0x8049, 0x4189, 0x004B, 0xC18B, 0x818A, 0x404A,
    0x004E, 0xC18E, 0x818F, 0x404F, 0x018D, 0xC04D, 0x804C, 0x418C]
  const RowF: seq<bv16> := [
    0x0044, 0xC184, 0x8185, 0x4045, 0x0187, 0xC047, 0x8046, 0x4186,
    0x0182, 0xC042, 0x8043, 0x4183, 0x0041, 0xC181, 0x8180, 0x4040]

  /** The sixteen rows, in order. */
  const Rows: seq<seq<bv16>> :=
    [Row0, Row1, Row2, Row3, Row4, Row5, Row6, Row7, Row8, Row9, RowA, RowB, RowC, RowD, RowE, RowF]

  /** The rows laid end to end. */
  function Concat(rows: seq<seq<bv16>>): (s: seq<bv16>)
    decreases |rows|
  {
    if rows == [] then [] else rows[0] + Concat(rows[1..])
  }

  /** `_auchCRC`: the sixteen rows followed by the unused 257th entry, 0x0000. */
  const Table: seq<bv16> := Concat(Rows) + [0x0000]

  /** Entry `k` of row `j` of a table made of rows of sixteen entries. */
  lemma {:induction false} ConcatAt(rows: seq<seq<bv16>>, j: nat, k: nat)
    requires forall r | r in rows :: |r| == 16
    requires j < |rows| && k < 16
    ensures |Concat(rows)| == 16 * |rows|
    ensures Concat(rows)[16 * j + k] == rows[j][k]
  {
    if j == 0 {
      ConcatLength(rows[1..]);
    } else {
      ConcatAt(rows[1..], j - 1, k);
    }
  }

  /** A table made of rows of sixteen entries has sixteen entries per row. */
  lemma {:induction false} ConcatLength(rows: seq<seq<bv16>>)
    requires forall r | r in rows :: |r| == 16
    ensures |Concat(rows)| == 16 * |rows|
  {
    if rows != [] {
      ConcatLength(rows[1..]);
    }
  }

  /** `_auchCRC` has 257 entries and entry `16 * j + k` is entry `k` of row `j`. */
  lemma TableAt(j: nat, k: nat)
    requires j < 16 && k < 16
    ensures |Table| == 257
    ensures Table[16 * j + k] == Rows[j][k]
  {
    RowLengths();
    ghost var c := Concat(Rows);
    ConcatAt(Rows, j, k);
    assert |c| == 256;
    assert Table == c + [0x0000];
    assert Table[16 * j + k] == c[16 * j + k];
  }

  /** Each of the sixteen rows has sixteen entries. */
  lemma RowLengths()
    ensures |Rows| == 16 && forall r | r in Rows :: |r| == 16
  {
  }

  /** The word at index `i` of `_auchCRC`, `pgm_read_word(_auchCRC + i)`. */
  function ReadWord(i: nat): bv16
    requires i <= 0xFF
  {
    TableAt(i / 16, i % 16);
    Table[i]
  }

  /** `highByte(v)` */
  function HighByte(v: bv16): byte { (v >> 8) as byte }

  /** `lowByte(v)` */
  function LowByte(v: bv16): byte { (v & 0xFF) as byte }

  /** The pair of `uint8_t` locals `CRCHi`, `CRCLo` that the loop updates. */
  datatype Reg = Reg(hi: byte, lo: byte)

  /** Both halves start at 0xFF. */
  const Start: Reg := Reg(0xFF, 0xFF)

  /**
   * The table index `CRCHi ^ b`. Because it is a `uint8_t` it never reaches the
   * table's last entry, 256.
   */
  function TableIndex(hi: byte, b: byte): (i: nat)
    ensures i <= 0xFF
  {
    (hi ^ b) as int
  }

  /** One iteration of the loop: fold byte `b` into the register. */
  function Step(r: Reg, b: byte): Reg {
    var val := ReadWord(TableIndex(r.hi, b));
    Reg(r.lo ^ HighByte(val), LowByte(val))
  }

  /** The register after folding `bs`, first byte first, into `r`. */
  function Fold(r: Reg, bs: seq<byte>): Reg
    decreases |bs|
  {
    if bs == [] then r else Step(Fold(r, bs[..|bs| - 1]), bs[|bs| - 1])
  }

  /** Folding one more byte is one more step. */
  lemma FoldSnoc(r: Reg, bs: seq<byte>, b: byte)
    ensures Fold(r, bs + [b]) == Step(Fold(r, bs), b)
  {
    assert (bs + [b])[..|bs|] == bs;
  }

  /**
   * One turn of the loop of ComputeCrc16: if (hi, lo) is the register after the
   * address and the first `k - 1` bytes of `frame` (after the address alone when
   * `k` is 0), then looking up `val` and updating the pair gives the register
   * after `k` bytes.
   */
  lemma FoldNext(address: byte, frame: seq<byte>, k: nat, hi: byte, lo: byte, val: bv16)
    requires k <= |frame|
    requires if k == 0 then Reg(hi, lo) == Start
             else Reg(hi, lo) == Fold(Start, [address] + frame[..k - 1])
    requires val == ReadWord(TableIndex(hi, if k == 0 then address else frame[k - 1]))
    ensures Reg(lo ^ HighByte(val), LowByte(val)) == Fold(Start, [address] + frame[..k])
  {
    if k == 0 {
      assert [address] + frame[..0] == [] + [address];
      FoldSnoc(Start, [], address);
    } else {
      assert [address] + frame[..k] == ([address] + frame[..k - 1]) + [frame[k - 1]];
      FoldSnoc(Start, [address] + frame[..k - 1], frame[k - 1]);
    }
  }

  /** `(CRCHi << 8) | CRCLo`: `CRCHi` becomes the high byte and `CRCLo` the low byte. */
  function Pack(r: Reg): (v: bv16)
    ensures HighByte(v) == r.hi && LowByte(v) == r.lo
  {
    (r.hi as bv16 << 8) | r.lo as bv16
  }

  /**
   * The value `crc16(address, frame, n)` returns: the fold, from 0xFF/0xFF, of the
   * address byte followed by the first `n` bytes of `frame`.
   */
  function Crc(address: byte, frame: seq<byte>, n: nat): bv16
    requires n <= |frame|
  {
    Pack(Fold(Start, [address] + frame[..n]))
  }

  /**
   * ModbusRTUTemplate::crc16. The first two statements fold the address; the
   * loop then folds `pduLen` bytes of `frame`, counting `pduLen` down while the
   * pointer `p` walks forward.
   */
  method ComputeCrc16(address: byte, frame: seq<byte>, pduLen: uint8) returns (crc: bv16)
    requires pduLen <= |frame|
    ensures crc == Crc(address, frame, pduLen)
  {
    var i: byte := 0xFF ^ address;
    var val := ReadWord(i as int);
    var crcHi: byte := 0xFF ^ HighByte(val);
    var crcLo: byte := LowByte(val);
    FoldNext(address, frame, 0, 0xFF, 0xFF, val);
    var remaining: uint8 := pduLen;
    var p: nat := 0;
    while remaining > 0
      invariant p + remaining == pduLen
      invariant Reg(crcHi, crcLo) == Fold(Start, [address] + frame[..p])
    {
      i := crcHi ^ frame[p];
      val := ReadWord(i as int);
      FoldNext(address, frame, p + 1, crcHi, crcLo, val);
      crcHi := crcLo ^ HighByte(val);
      crcLo := LowByte(val);
      p := p + 1;
      remaining := remaining - 1;
    }
    crc := (crcHi as bv16 << 8) | crcLo as bv16;
  }

  /** `crc16` reads only the first `n` bytes of the frame: what lies beyond does not matter. */
  lemma CrcReadsOnlyPrefix(address: byte, f: seq<byte>, g: seq<byte>, n: nat)
    requires n <= |f| && n <= |g| && f[..n] == g[..n]
    ensures Crc(address, f, n) == Crc(address, g, n)
  {
  }

  // ----- The bit-serial CRC-16/MODBUS shift, an independent reference for the table -----

  /** The reflected generator polynomial x^16 + x^15 + x^2 + 1. */
  const Poly: bv16 := 0xA001

  /**
   * One shift of the bit-serial algorithm: shift right and xor the polynomial
   * when the bit shifted out was 1 (`0 - (r & 1)` is all ones exactly then).
   */
  function ShiftOnce(r: bv16): bv16 { (r >> 1) ^ (Poly & (0 - (r & 1))) }

  /** Two shifts. */
  function Shift2(r: bv16): bv16 { ShiftOnce(ShiftOnce(r)) }

  /** Four shifts. */
  function Shift4(r: bv16): bv16 { Shift2(Shift2(r)) }

  /** Eight shifts: the register after one byte has been xored in. */
  function Shift8(r: bv16): bv16 { Shift4(Shift4(r)) }

  /** The two bytes of `v` exchanged. */
  function Swap(v: bv16): bv16 { (v << 8) | (v >> 8) }

  /** Row by row, sixteen entries at a time: each word is the remainder of its index. */
  lemma TableRow0(x: byte)
    requires x < 0x10
    ensures ReadWord(x as int) == Swap(Shift8(x as bv16))
  {
    TableAt(0, x as int - 0x00);
    assert Rows[0] == Row0;
    if x == 0x00 { assert Row0[0] == Swap(Shift8(0x00)); }
    else if x == 0x01 { assert Row0[1] == Swap(Shift8(0x01)); }
    else if x == 0x02 { assert Row0[2] == Swap(Shift8(0x02)); }
    else if x == 0x03 { assert Row0[3] == Swap(Shift8(0x03)); }
    else if x == 0x04 { assert Row0[4] == Swap(Shift8(0x04)); }
    else if x == 0x05 { assert Row0[5] == Swap(Shift8(0x05)); }
    else if x == 0x06 { assert Row0[6] == Swap(Shift8(0x06)); }
    else if x == 0x07 { assert Row0[7] == Swap(Shift8(0x07)); }
    else if x == 0x08 { assert Row0[8] == Swap(Shift8(0x08)); }
    else if x == 0x09 { assert Row0[9] == Swap(Shift8(0x09)); }
    else if x == 0x0A { assert Row0[10] == Swap(Shift8(0x0A)); }
    else if x == 0x0B { assert Row0[11] == Swap(Shift8(0x0B)); }
    else if x == 0x0C { assert Row0[12] == Swap(Shift8(0x0C)); }
    else if x == 0x0D { assert Row0[13] == Swap(Shift8(0x0D)); }
    else if x == 0x0E { assert Row0[14] == Swap(Shift8(0x0E)); }
    else { assert x == 0x0F; assert Row0[15] == Swap(Shift8(0x0F)); }
  }
  lemma TableRow1(x: byte)
    requires 0x10 <= x < 0x20
    ensures ReadWord(x as int) == Swap(Shift8(x as bv16))
  {
    TableAt(1, x as int - 0x10);
    assert Rows[1] == Row1;
    if x == 0x10 { assert Row1[0] == Swap(Shift8(0x10)); }
    else if x == 0x11 { assert Row1[1] == Swap(Shift8(0x11)); }
    else if x == 0x12 { assert Row1[2] == Swap(Shift8(0x12)); }
    else if x == 0x13 { assert Row1[3] == Swap(Shift8(0x13)); }
    else if x == 0x14 { assert Row1[4] == Swap(Shift8(0x14)); }
    else if x == 0x15 { assert Row1[5] == Swap(Shift8(0x15)); }
    else if x == 0x16 { assert Row1[6] == Swap(Shift8(0x16)); }
    else if x == 0x17 { assert Row1[7] == Swap(Shift8(0x17)); }
    else if x == 0x18 { assert Row1[8] == Swap(Shift8(0x18)); }
    else if x == 0x19 { assert Row1[9] == Swap(Shift8(0x19)); }
    else if x == 0x1A { assert Row1[10] == Swap(Shift8(0x1A)); }
    else if x == 0x1B { assert Row1[11] == Swap(Shift8(0x1B)); }
    else if x == 0x1C { assert Row1[12] == Swap(Shift8(0x1C)); }
    else if x == 0x1D { assert Row1[13] == Swap(Shift8(0x1D)); }
    else if x == 0x1E { assert Row1[14] == Swap(Shift8(0x1E)); }
    else { assert x == 0x1F; assert Row1[15] == Swap(Shift8(0x1F)); }
  }
  lemma TableRow2(x: byte)
    requires 0x20 <= x < 0x30
    ensures ReadWord(x as int) == Swap(Shift8(x as bv16))
  {
    TableAt(2, x as int - 0x20);
    assert Rows[2] == Row2;
    if x == 0x20 { assert Row2[0] == Swap(Shift8(0x20)); }
    else if x == 0x21 { assert Row2[1] == Swap(Shift8(0x21)); }
    else if x == 0x22 { assert Row2[2] == Swap(Shift8(0x22)); }
    else if x == 0x23 { assert Row2[3] == Swap(Shift8(0x23)); }
    else if x == 0x24 { assert Row2[4] == Swap(Shift8(0x24)); }
    else if x == 0x25 { assert Row2[5] == Swap(Shift8(0x25)); }
    else if x == 0x26 { assert Row2[6] == Swap(Shift8(0x26)); }
    else if x == 0x27 { assert Row2[7] == Swap(Shift8(0x27)); }
    else if x == 0x28 { assert Row2[8] == Swap(Shift8(0x28)); }
    else if x == 0x29 { assert Row2[9] == Swap(Shift8(0x29)); }
    else if x == 0x2A { assert Row2[10] == Swap(Shift8(0x2A)); }
    else if x == 0x2B { assert Row2[11] == Swap(Shift8(0x2B)); }
    else if x == 0x2C { assert Row2[12] == Swap(Shift8(0x2C)); }
    else if x == 0x2D { assert Row2[13] == Swap(Shift8(0x2D)); }
    else if x == 0x2E { assert Row2[14] == Swap(Shift8(0x2E)); }
    else { assert x == 0x2F; assert Row2[15] == Swap(Shift8(0x2F)); }
  }
  lemma TableRow3(x: byte)
    requires 0x30 <= x < 0x40
    ensures ReadWord(x as int) == Swap(Shift8(x as bv16))
  {
    TableAt(3, x as int - 0x30);
    assert Rows[3] == Row3;
    if x == 0x30 { assert Row3[0] == Swap(Shift8(0x30)); }
    else if x == 0x31 { assert Row3[1] == Swap(Shift8(0x31)); }
    else if x == 0x32 { assert Row3[2] == Swap(Shift8(0x32)); }
    else if x == 0x33 { assert Row3[3] == Swap(Shift8(0x33)); }
    else if x == 0x34 { assert Row3[4] == Swap(Shift8(0x34)); }
    else if x == 0x35 { assert Row3[5] == Swap(Shift8(0x35)); }
    else if x == 0x36 { assert Row3[6] == Swap(Shift8(0x36)); }
    else if x == 0x37 { assert Row3[7] == Swap(Shift8(0x37)); }
    else if x == 0x38 { assert Row3[8] == Swap(Shift8(0x38)); }
    else if x == 0x39 { assert Row3[9] == Swap(Shift8(0x39)); }
    else if x == 0x3A { assert Row3[10] == Swap(Shift8(0x3A)); }
    else if x == 0x3B { assert Row3[11] == Swap(Shift8(0x3B)); }
    else if x == 0x3C { assert Row3[12] == Swap(Shift8(0x3C)); }
    else if x == 0x3D { assert Row3[13] == Swap(Shift8(0x3D)); }
    else if x == 0x3E { assert Row3[14] == Swap(Shift8(0x3E)); }
    else { assert x == 0x3F; assert Row3[15] == Swap(Shift8(0x3F)); }
  }
  lemma TableRow4(x: byte)
    requires 0x40 <= x < 0x50
    ensures ReadWord(x as int) == Swap(Shift8(x as bv16))
  {
    TableAt(4, x as int - 0x40);
    assert Rows[4] == Row4;
    if x == 0x40 { assert Row4[0] == Swap(Shift8(0x40)); }
    else if x == 0x41 { assert Row4[1] == Swap(Shift8(0x41)); }
    else if x == 0x42 { assert Row4[2] == Swap(Shift8(0x42)); }
    else if x == 0x43 { assert Row4[3] == Swap(Shift8(0x43)); }
    else if x == 0x44 { assert Row4[4] == Swap(Shift8(0x44)); }
    else if x == 0x45 { assert Row4[5] == Swap(Shift8(0x45)); }
    else if x == 0x46 { assert Row4[6] == Swap(Shift8(0x46)); }
    else if x == 0x47 { assert Row4[7] == Swap(Shift8(0x47)); }
    else if x == 0x48 { assert Row4[8] == Swap(Shift8(0x48)); }
    else if x == 0x49 { assert Row4[9] == Swap(Shift8(0x49)); }
    else if x == 0x4A { assert Row4[10] == Swap(Shift8(0x4A)); }
    else if x == 0x4B { assert Row4[11] == Swap(Shift8(0x4B)); }
    else if x == 0x4C { assert Row4[12] == Swap(Shift8(0x4C)); }
    else if x == 0x4D { assert Row4[13] == Swap(Shift8(0x4D)); }
    else if x == 0x4E { assert Row4[14] == Swap(Shift8(0x4E)); }
    else { assert x == 0x4F; assert Row4[15] == Swap(Shift8(0x4F)); }
  }
  lemma TableRow5(x: byte)
    requires 0x50 <= x < 0x60
    ensures ReadWord(x as int) == Swap(Shift8(x as bv16))
  {
    TableAt(5, x as int - 0x50);
    assert Rows[5] == Row5;
    if x == 0x50 { assert Row5[0] == Swap(Shift8(0x50)); }
    else if x == 0x51 { assert Row5[1] == Swap(Shift8(0x51)); }
    else if x == 0x52 { assert Row5[2] == Swap(Shift8(0x52)); }
    else if x == 0x53 { assert Row5[3] == Swap(Shift8(0x53)); }
    else if x == 0x54 { assert Row5[4] == Swap(Shift8(0x54)); }
    else if x == 0x55 { assert Row5[5] == Swap(Shift8(0x55)); }
    else if x == 0x56 { assert Row5[6] == Swap(Shift8(0x56)); }
    else if x == 0x57 { assert Row5[7] == Swap(Shift8(0x57)); }
    else if x == 0x58 { assert Row5[8] == Swap(Shift8(0x58)); }
    else if x == 0x59 { assert Row5[9] == Swap(Shift8(0x59)); }
    else if x == 0x5A { assert Row5[10] == Swap(Shift8(0x5A)); }
    else if x == 0x5B { assert Row5[11] == Swap(Shift8(0x5B)); }
    else if x == 0x5C { assert Row5[12] == Swap(Shift8(0x5C)); }
    else if x == 0x5D { assert Row5[13] == Swap(Shift8(0x5D)); }
    else if x == 0x5E { assert Row5[14] == Swap(Shift8(0x5E)); }
    else { assert x == 0x5F; assert Row5[15] == Swap(Shift8(0x5F)); }
  }
  lemma TableRow6(x: byte)
    requires 0x60 <= x < 0x70
    ensures ReadWord(x as int) == Swap(Shift8(x as bv16))
  {
    TableAt(6, x as int - 0x60);
    assert Rows[6] == Row6;
    if x == 0x60 { assert Row6[0] == Swap(Shift8(0x60)); }
    else if x == 0x61 { assert Row6[1] == Swap(Shift8(0x61)); }
    else if x == 0x62 { assert Row6[2] == Swap(Shift8(0x62)); }
    else if x == 0x63 { assert Row6[3] == Swap(Shift8(0x63)); }
    else if x == 0x64 { assert Row6[4] == Swap(Shift8(0x64)); }
    else if x == 0x65 { assert Row6[5] == Swap(Shift8(0x65)); }
    else if x == 0x66 { assert Row6[6] == Swap(Shift8(0x66)); }
    else if x == 0x67 { assert Row6[7] == Swap(Shift8(0x67)); }
    else if x == 0x68 { assert Row6[8] == Swap(Shift8(0x68)); }
    else if x == 0x69 { assert Row6[9] == Swap(Shift8(0x69)); }
    else if x == 0x6A { assert Row6[10] == Swap(Shift8(0x6A)); }
    else if x == 0x6B { assert Row6[11] == Swap(Shift8(0x6B)); }
    else if x == 0x6C { assert Row6[12] == Swap(Shift8(0x6C)); }
    else if x == 0x6D { assert Row6[13] == Swap(Shift8(0x6D)); }
    else if x == 0x6E { assert Row6[14] == Swap(Shift8(0x6E)); }
    else { assert x == 0x6F; assert Row6[15] == Swap(Shift8(0x6F)); }
  }
  lemma TableRow7(x: byte)
    requires 0x70 <= x < 0x80
    ensures ReadWord(x as int) == Swap(Shift8(x as bv16))
  {
    TableAt(7, x as int - 0x70);
    assert Rows[7] == Row7;
    if x == 0x70 { assert Row7[0] == Swap(Shift8(0x70)); }
    else if x == 0x71 { assert Row7[1] == Swap(Shift8(0x71)); }
    else if x == 0x72 { assert Row7[2] == Swap(Shift8(0x72)); }
    else if x == 0x73 { assert Row7[3] == Swap(Shift8(0x73)); }
    else if x == 0x74 { assert Row7[4] == Swap(Shift8(0x74)); }
    else if x == 0x75 { assert Row7[5] == Swap(Shift8(0x75)); }
    else if x == 0x76 { assert Row7[6] == Swap(Shift8(0x76)); }
    else if x == 0x77 { assert Row7[7] == Swap(Shift8(0x77)); }
    else if x == 0x78 { assert Row7[8] == Swap(Shift8(0x78)); }
    else if x == 0x79 { assert Row7[9] == Swap(Shift8(0x79)); }
    else if x == 0x7A { assert Row7[10] == Swap(Shift8(0x7A)); }
    else if x == 0x7B { assert Row7[11] == Swap(Shift8(0x7B)); }
    else if x == 0x7C { assert Row7[12] == Swap(Shift8(0x7C)); }
    else if x == 0x7D { assert Row7[13] == Swap(Shift8(0x7D)); }
    else if x == 0x7E { assert Row7[14] == Swap(Shift8(0x7E)); }
    else { assert x == 0x7F; assert Row7[15] == Swap(Shift8(0x7F)); }
  }
  lemma TableRow8(x: byte)
    requires 0x80 <= x < 0x90
    ensures ReadWord(x as int) == Swap(Shift8(x as bv16))
  {
    TableAt(8, x as int - 0x80);
    assert Rows[8] == Row8;
    if x == 0x80 { assert Row8[0] == Swap(Shift8(0x80)); }
    else if x == 0x81 { assert Row8[1] == Swap(Shift8(0x81)); }
    else if x == 0x82 { assert Row8[2] == Swap(Shift8(0x82)); }
    else if x == 0x83 { assert Row8[3] == Swap(Shift8(0x83)); }
    else if x == 0x84 { assert Row8[4] == Swap(Shift8(0x84)); }
    else if x == 0x85 { assert Row8[5] == Swap(Shift8(0x85)); }
    else if x == 0x86 { assert Row8[6] == Swap(Shift8(0x86)); }
    else if x == 0x87 { assert Row8[7] == Swap(Shift8(0x87)); }
    else if x == 0x88 { assert Row8[8] == Swap(Shift8(0x88)); }
    else if x == 0x89 { assert Row8[9] == Swap(Shift8(0x89)); }
    else if x == 0x8A { assert Row8[10] == Swap(Shift8(0x8A)); }
    else if x == 0x8B { assert Row8[11] == Swap(Shift8(0x8B)); }
    else if x == 0x8C { assert Row8[12] == Swap(Shift8(0x8C)); }
    else if x == 0x8D { assert Row8[13] == Swap(Shift8(0x8D)); }
    else if x == 0x8E { assert Row8[14] == Swap(Shift8(0x8E)); }
    else { assert x == 0x8F; assert Row8[15] == Swap(Shift8(0x8F)); }
  }
  lemma TableRow9(x: byte)
    requires 0x90 <= x < 0xA0
    ensures ReadWord(x as int) == Swap(Shift8(x as bv16))
  {
    TableAt(9, x as int - 0x90);
    assert Rows[9] == Row9;
    if x == 0x90 { assert Row9[0] == Swap(Shift8(0x90)); }
    else if x == 0x91 { assert Row9[1] == Swap(Shift8(0x91)); }
    else if x == 0x92 { assert Row9[2] == Swap(Shift8(0x92)); }
    else if x == 0x93 { assert Row9[3] == Swap(Shift8(0x93)); }
    else if x == 0x94 { assert Row9[4] == Swap(Shift8(0x94)); }
    else if x == 0x95 { assert Row9[5] == Swap(Shift8(0x95)); }
    else if x == 0x96 { assert Row9[6] == Swap(Shift8(0x96)); }
    else if x == 0x97 { assert Row9[7] == Swap(Shift8(0x97)); }
    else if x == 0x98 { assert Row9[8] == Swap(Shift8(0x98)); }
    else if x == 0x99 { assert Row9[9] == Swap(Shift8(0x99)); }
    else if x == 0x9A { assert Row9[10] == Swap(Shift8(0x9A)); }
    else if x == 0x9B { assert Row9[11] == Swap(Shift8(0x9B)); }
    else if x == 0x9C { assert Row9[12] == Swap(Shift8(0x9C)); }
    else if x == 0x9D { assert Row9[13] == Swap(Shift8(0x9D)); }
    else if x == 0x9E { assert Row9[14] == Swap(Shift8(0x9E)); }
    else { assert x == 0x9F; assert Row9[15] == Swap(Shift8(0x9F)); }
  }
  lemma TableRowA(x: byte)
    requires 0xA0 <= x < 0xB0
    ensures ReadWord(x as int) == Swap(Shift8(x as bv16))
  {
    TableAt(10, x as int - 0xA0);
    assert Rows[10] == RowA;
    if x == 0xA0 { assert RowA[0] == Swap(Shift8(0xA0)); }
    else if x == 0xA1 { assert RowA[1] == Swap(Shift8(0xA1)); }
    else if x == 0xA2 { assert RowA[2] == Swap(Shift8(0xA2)); }
    else if x == 0xA3 { assert RowA[3] == Swap(Shift8(0xA3)); }
    else if x == 0xA4 { assert RowA[4] == Swap(Shift8(0xA4)); }
    else if x == 0xA5 { assert RowA[5] == Swap(Shift8(0xA5)); }
    else if x == 0xA6 { assert RowA[6] == Swap(Shift8(0xA6)); }
    else if x == 0xA7 { assert RowA[7] == Swap(Shift8(0xA7)); }
    else if x == 0xA8 { assert RowA[8] == Swap(Shift8(0xA8)); }
    else if x == 0xA9 { assert RowA[9] == Swap(Shift8(0xA9)); }
    else if x == 0xAA { assert RowA[10] == Swap(Shift8(0xAA)); }
    else if x == 0xAB { assert RowA[11] == Swap(Shift8(0xAB)); }
    else if x == 0xAC { assert RowA[12] == Swap(Shift8(0xAC)); }
    else if x == 0xAD { assert RowA[13] == Swap(Shift8(0xAD)); }
    else if x == 0xAE { assert RowA[14] == Swap(Shift8(0xAE)); }
    else { assert x == 0xAF; assert RowA[15] == Swap(Shift8(0xAF)); }
  }
  lemma TableRowB(x: byte)
    requires 0xB0 <= x < 0xC0
    ensures ReadWord(x as int) == Swap(Shift8(x as bv16))
  {
    TableAt(11, x as int - 0xB0);
    assert Rows[11] == RowB;
    if x == 0xB0 { assert RowB[0] == Swap(Shift8(0xB0)); }
    else if x == 0xB1 { assert RowB[1] == Swap(Shift8(0xB1)); }
    else if x == 0xB2 { assert RowB[2] == Swap(Shift8(0xB2)); }
    else if x == 0xB3 { assert RowB[3] == Swap(Shift8(0xB3)); }
    else if x == 0xB4 { assert RowB[4] == Swap(Shift8(0xB4)); }
    else if x == 0xB5 { assert RowB[5] == Swap(Shift8(0xB5)); }
    else if x == 0xB6 { assert RowB[6] == Swap(Shift8(0xB6)); }
    else if x == 0xB7 { assert RowB[7] == Swap(Shift8(0xB7)); }
    else if x == 0xB8 { assert RowB[8] == Swap(Shift8(0xB8)); }
    else if x == 0xB9 { assert RowB[9] == Swap(Shift8(0xB9)); }
    else if x == 0xBA { assert RowB[10] == Swap(Shift8(0xBA)); }
    else if x == 0xBB { assert RowB[11] == Swap(Shift8(0xBB)); }
    else if x == 0xBC { assert RowB[12] == Swap(Shift8(0xBC)); }
    else if x == 0xBD { assert RowB[13] == Swap(Shift8(0xBD)); }
    else if x == 0xBE { assert RowB[14] == Swap(Shift8(0xBE)); }
    else { assert x == 0xBF; assert RowB[15] == Swap(Shift8(0xBF)); }
  }
  lemma TableRowC(x: byte)
    requires 0xC0 <= x < 0xD0
    ensures ReadWord(x as int) == Swap(Shift8(x as bv16))
  {
    TableAt(12, x as int - 0xC0);
    assert Rows[12] == RowC;
    if x == 0xC0 { assert RowC[0] == Swap(Shift8(0xC0)); }
    else if x == 0xC1 { assert RowC[1] == Swap(Shift8(0xC1)); }
    else if x == 0xC2 { assert RowC[2] == Swap(Shift8(0xC2)); }
    else if x == 0xC3 { assert RowC[3] == Swap(Shift8(0xC3)); }
    else if x == 0xC4 { assert RowC[4] == Swap(Shift8(0xC4)); }
    else if x == 0xC5 { assert RowC[5] == Swap(Shift8(0xC5)); }
    else if x == 0xC6 { assert RowC[6] == Swap(Shift8(0xC6)); }
    else if x == 0xC7 { assert RowC[7] == Swap(Shift8(0xC7)); }
    else if x == 0xC8 { assert RowC[8] == Swap(Shift8(0xC8)); }
    else if x == 0xC9 { assert RowC[9] == Swap(Shift8(0xC9)); }
    else if x == 0xCA { assert RowC[10] == Swap(Shift8(0xCA)); }
    else if x == 0xCB { assert RowC[11] == Swap(Shift8(0xCB)); }
    else if x == 0xCC { assert RowC[12] == Swap(Shift8(0xCC)); }
    else if x == 0xCD { assert RowC[13] == Swap(Shift8(0xCD)); }
    else if x == 0xCE { assert RowC[14] == Swap(Shift8(0xCE)); }
    else { assert x == 0xCF; assert RowC[15] == Swap(Shift8(0xCF)); }
  }
  lemma TableRowD(x: byte)
    requires 0xD0 <= x < 0xE0
    ensures ReadWord(x as int) == Swap(Shift8(x as bv16))
  {
    TableAt(13, x as int - 0xD0);
    assert Rows[13] == RowD;
    if x == 0xD0 { assert RowD[0] == Swap(Shift8(0xD0)); }
    else if x == 0xD1 { assert RowD[1] == Swap(Shift8(0xD1)); }
    else if x == 0xD2 { assert RowD[2] == Swap(Shift8(0xD2)); }
    else if x == 0xD3 { assert RowD[3] == Swap(Shift8(0xD3)); }
    else if x == 0xD4 { assert RowD[4] == Swap(Shift8(0xD4)); }
    else if x == 0xD5 { assert RowD[5] == Swap(Shift8(0xD5)); }
    else if x == 0xD6 { assert RowD[6] == Swap(Shift8(0xD6)); }
    else if x == 0xD7 { assert RowD[7] == Swap(Shift8(0xD7)); }
    else if x == 0xD8 { assert RowD[8] == Swap(Shift8(0xD8)); }
    else if x == 0xD9 { assert RowD[9] == Swap(Shift8(0xD9)); }
    else if x == 0xDA { assert RowD[10] == Swap(Shift8(0xDA)); }
    else if x == 0xDB { assert RowD[11] == Swap(Shift8(0xDB)); }
    else if x == 0xDC { assert RowD[12] == Swap(Shift8(0xDC)); }
    else if x == 0xDD { assert RowD[13] == Swap(Shift8(0xDD)); }
    else if x == 0xDE { assert RowD[14] == Swap(Shift8(0xDE)); }
    else { assert x == 0xDF; assert RowD[15] == Swap(Shift8(0xDF)); }
  }
  lemma TableRowE(x: byte)
    requires 0xE0 <= x < 0xF0
    ensures ReadWord(x as int) == Swap(Shift8(x as bv16))
  {
    TableAt(14, x as int - 0xE0);
    assert Rows[14] == RowE;
    if x == 0xE0 { assert RowE[0] == Swap(Shift8(0xE0)); }
    else if x == 0xE1 { assert RowE[1] == Swap(Shift8(0xE1)); }
    else if x == 0xE2 { assert RowE[2] == Swap(Shift8(0xE2)); }
    else if x == 0xE3 { assert RowE[3] == Swap(Shift8(0xE3)); }
    else if x == 0xE4 { assert RowE[4] == Swap(Shift8(0xE4)); }
    else if x == 0xE5 { assert RowE[5] == Swap(Shift8(0xE5)); }
    else if x == 0xE6 { assert RowE[6] == Swap(Shift8(0xE6)); }
    else if x == 0xE7 { assert RowE[7] == Swap(Shift8(0xE7)); }
    else if x == 0xE8 { assert RowE[8] == Swap(Shift8(0xE8)); }
    else if x == 0xE9 { assert RowE[9] == Swap(Shift8(0xE9)); }
    else if x == 0xEA { assert RowE[10] == Swap(Shift8(0xEA)); }
    else if x == 0xEB { assert RowE[11] == Swap(Shift8(0xEB)); }
    else if x == 0xEC { assert RowE[12] == Swap(Shift8(0xEC)); }
    else if x == 0xED { assert RowE[13] == Swap(Shift8(0xED)); }
    else if x == 0xEE { assert RowE[14] == Swap(Shift8(0xEE)); }
    else { assert x == 0xEF; assert RowE[15] == Swap(Shift8(0xEF)); }
  }
  lemma TableRowF(x: byte)
    requires 0xF0 <= x
    ensures ReadWord(x as int) == Swap(Shift8(x as bv16))
  {
    TableAt(15, x as int - 0xF0);
    assert Rows[15] == RowF;
    if x == 0xF0 { assert RowF[0] == Swap(Shift8(0xF0)); }
    else if x == 0xF1 { assert RowF[1] == Swap(Shift8(0xF1)); }
    else if x == 0xF2 { assert RowF[2] == Swap(Shift8(0xF2)); }
    else if x == 0xF3 { assert RowF[3] == Swap(Shift8(0xF3)); }
    else if x == 0xF4 { assert RowF[4] == Swap(Shift8(0xF4)); }
    else if x == 0xF5 { assert RowF[5] == Swap(Shift8(0xF5)); }
    else if x == 0xF6 { assert RowF[6] == Swap(Shift8(0xF6)); }
    else if x == 0xF7 { assert RowF[7] == Swap(Shift8(0xF7)); }
    else if x == 0xF8 { assert RowF[8] == Swap(Shift8(0xF8)); }
    else if x == 0xF9 { assert RowF[9] == Swap(Shift8(0xF9)); }
    else if x == 0xFA { assert RowF[10] == Swap(Shift8(0xFA)); }
    else if x == 0xFB { assert RowF[11] == Swap(Shift8(0xFB)); }
    else if x == 0xFC { assert RowF[12] == Swap(Shift8(0xFC)); }
    else if x == 0xFD { assert RowF[13] == Swap(Shift8(0xFD)); }
    else if x == 0xFE { assert RowF[14] == Swap(Shift8(0xFE)); }
    else { assert x == 0xFF; assert RowF[15] == Swap(Shift8(0xFF)); }
  }

  /** Every reachable table entry is the byte-swapped eight-shift remainder of its index. */
  lemma TableIsReflectedPoly(x: byte)
    ensures ReadWord(x as int) == Swap(Shift8(x as bv16))
  {
    if x < 0x10 { TableRow0(x); }
    else if x < 0x20 { TableRow1(x); }
    else if x < 0x30 { TableRow2(x); }
    else if x < 0x40 { TableRow3(x); }
    else if x < 0x50 { TableRow4(x); }
    else if x < 0x60 { TableRow5(x); }
    else if x < 0x70 { TableRow6(x); }
    else if x < 0x80 { TableRow7(x); }
    else if x < 0x90 { TableRow8(x); }
    else if x < 0xA0 { TableRow9(x); }
    else if x < 0xB0 { TableRowA(x); }
    else if x < 0xC0 { TableRowB(x); }
    else if x < 0xD0 { TableRowC(x); }
    else if x < 0xE0 { TableRowD(x); }
    else if x < 0xF0 { TableRowE(x); }
    else { TableRowF(x); }
  }

  // ----- The table-driven fold computes the bit-serial CRC -----

  /**
   * The bit-serial CRC-16/MODBUS over `bs`, starting from register `c`: each
   * byte is xored into the low half of the register, which is then shifted
   * eight times.
   */
  function SerialFold(c: bv16, bs: seq<byte>): bv16
    decreases |bs|
  {
    if bs == [] then c else Shift8(SerialFold(c, bs[..|bs| - 1]) ^ bs[|bs| - 1] as bv16)
  }

  // The lemmas below take the values they relate as separate parameters, tied
  // together by their preconditions, rather than as nested bit-vector terms:
  // that keeps each proof obligation small for the solver.

  /**
   * Eight shifts of a register are the eight shifts of its low byte, xor its
   * high byte moved down: no bit of the high byte reaches the polynomial.
   */
  lemma ShiftSplit(x: bv16, lo: bv16, s: bv16, t: bv16)
    requires lo == x & 0xFF && s == Shift8(lo) && t == Shift8(x)
    ensures t == s ^ (x >> 8)
  {
  }

  /** The word the loop looks up is the byte-swapped eight-shift remainder of its index. */
  lemma WordIs(hi: byte, b: byte, val: bv16, s: bv16)
    requires val == ReadWord(TableIndex(hi, b)) && s == Shift8((hi ^ b) as bv16)
    ensures val == Swap(s)
  {
    TableIsReflectedPoly(hi ^ b);
  }

  /** One step of the loop, as a function of the packed register: the table is gone. */
  lemma StepTable(r: Reg, b: byte, s: bv16)
    requires ReadWord(TableIndex(r.hi, b)) == Swap(s)
    ensures Pack(Step(r, b)) == Swap(s ^ r.lo as bv16)
  {
  }

  /** One step of the loop in terms of the eight-shift remainder of the table index. */
  lemma TableStep(r: Reg, b: byte, s: bv16)
    requires s == Shift8((r.hi ^ b) as bv16)
    ensures Pack(Step(r, b)) == Swap(s ^ r.lo as bv16)
  {
    WordIs(r.hi, b, ReadWord(TableIndex(r.hi, b)), s);
    StepTable(r, b, s);
  }

  /** The table index is the low byte of the bit-serial register with `b` xored in. */
  lemma LowMatches(r: Reg, c: bv16, b: byte, x: bv16, lo: bv16)
    requires Pack(r) == Swap(c) && x == c ^ b as bv16 && lo == (r.hi ^ b) as bv16
    ensures lo == x & 0xFF
  {
  }

  /** `CRCLo` is the high byte of the bit-serial register, which the shifts move down. */
  lemma HighMatches(r: Reg, c: bv16, b: byte, x: bv16, s: bv16, t: bv16)
    requires Pack(r) == Swap(c) && x == c ^ b as bv16 && t == s ^ (x >> 8)
    ensures s ^ r.lo as bv16 == t
  {
  }

  /** `StepSerial`, with the shifted values as parameters. */
  lemma StepSerialAt(r: Reg, c: bv16, b: byte, x: bv16, lo: bv16, s: bv16, t: bv16)
    requires Pack(r) == Swap(c) && x == c ^ b as bv16 && lo == (r.hi ^ b) as bv16
    requires s == Shift8(lo) && t == Shift8(x)
    ensures Pack(Step(r, b)) == Swap(t)
  {
    LowMatches(r, c, b, x, lo);
    ShiftSplit(x, lo, s, t);
    HighMatches(r, c, b, x, s, t);
    TableStep(r, b, s);
  }

  /** One step of the table loop is one byte of the bit-serial algorithm, byte-swapped. */
  lemma StepSerial(r: Reg, c: bv16, b: byte)
    requires Pack(r) == Swap(c)
    ensures Pack(Step(r, b)) == Swap(Shift8(c ^ b as bv16))
  {
    var lo := (r.hi ^ b) as bv16;
    StepSerialAt(r, c, b, c ^ b as bv16, lo, Shift8(lo), Shift8(c ^ b as bv16));
  }

  /** The table-driven fold from 0xFF/0xFF is the bit-serial fold from 0xFFFF, byte-swapped. */
  lemma {:induction false} FoldSerial(bs: seq<byte>)
    ensures Pack(Fold(Start, bs)) == Swap(SerialFold(0xFFFF, bs))
    decreases |bs|
  {
    if bs != [] {
      FoldSerial(bs[..|bs| - 1]);
      StepSerial(Fold(Start, bs[..|bs| - 1]), SerialFold(0xFFFF, bs[..|bs| - 1]), bs[|bs| - 1]);
    }
  }

  /**
   * `crc16` returns the standard CRC-16/MODBUS of the address and the PDU, with
   * its two bytes exchanged: the high byte of the result is the low byte of the
   * standard CRC, which the Modbus line sends first.
   */
  lemma CrcIsStandard(address: byte, frame: seq<byte>, n: nat)
    requires n <= |frame|
    ensures Crc(address, frame, n) == Swap(SerialFold(0xFFFF, [address] + frame[..n]))
  {
    FoldSerial([address] + frame[..n]);
  }

  // ----- Single-byte errors are detected -----

  /** One shift loses no information. */
  lemma ShiftOnceInjective(x: bv16, y: bv16)
    ensures ShiftOnce(x) == ShiftOnce(y) ==> x == y
  {
  }

  /** Nor do two. */
  lemma Shift2Injective(x: bv16, y: bv16)
    ensures Shift2(x) == Shift2(y) ==> x == y
  {
    ShiftOnceInjective(x, y);
    ShiftOnceInjective(ShiftOnce(x), ShiftOnce(y));
  }

  /** Nor four. */
  lemma Shift4Injective(x: bv16, y: bv16)
    ensures Shift4(x) == Shift4(y) ==> x == y
  {
    Shift2Injective(x, y);
    Shift2Injective(Shift2(x), Shift2(y));
  }

  /** Nor eight. */
  lemma Shift8Injective(x: bv16, y: bv16)
    ensures Shift8(x) == Shift8(y) ==> x == y
  {
    Shift4Injective(x, y);
    Shift4Injective(Shift4(x), Shift4(y));
  }

  /**
   * Folding a byte into each of two registers leaves them different when the
   * registers agree and the bytes differ, or the registers differ and the bytes agree.
   */
  lemma FoldApart(a: bv16, b: bv16, x: byte, y: byte)
    requires (a == b && x != y) || (a != b && x == y)
    ensures Shift8(a ^ x as bv16) != Shift8(b ^ y as bv16)
  {
    XorApart(a, b, x, y);
    Shift8Injective(a ^ x as bv16, b ^ y as bv16);
  }

  /** Before the shifts: the two registers with their bytes xored in differ. */
  lemma XorApart(a: bv16, b: bv16, x: byte, y: byte)
    requires (a == b && x != y) || (a != b && x == y)
    ensures a ^ x as bv16 != b ^ y as bv16
  {
  }

  /** Folding one more byte. */
  lemma SerialFoldSnoc(c: bv16, bs: seq<byte>, b: byte)
    ensures SerialFold(c, bs + [b]) == Shift8(SerialFold(c, bs) ^ b as bv16)
  {
    assert (bs + [b])[..|bs|] == bs;
  }

  /** `FoldApart` for whole byte strings: one more byte each keeps them apart. */
  lemma SnocApart(c: bv16, p: seq<byte>, q: seq<byte>, x: byte, y: byte)
    requires (SerialFold(c, p) == SerialFold(c, q) && x != y) || (SerialFold(c, p) != SerialFold(c, q) && x == y)
    ensures SerialFold(c, p + [x]) != SerialFold(c, q + [y])
  {
    SerialFoldSnoc(c, p, x);
    SerialFoldSnoc(c, q, y);
    FoldApart(SerialFold(c, p), SerialFold(c, q), x, y);
  }

  /**
   * Two byte strings that differ in one byte and agree on everything before and
   * after it leave the bit-serial register in different states.
   */
  lemma {:induction false} SerialFoldSeparates(c: bv16, u: seq<byte>, x: byte, y: byte, w: seq<byte>)
    requires x != y
    ensures SerialFold(c, u + [x] + w) != SerialFold(c, u + [y] + w)
    decreases |w|
  {
    if w == [] {
      assert u + [x] + w == u + [x] && u + [y] + w == u + [y];
      SnocApart(c, u, u, x, y);
    } else {
      var w' := w[..|w| - 1];
      var z := w[|w| - 1];
      SerialFoldSeparates(c, u, x, y, w');
      assert u + [x] + w == (u + [x] + w') + [z];
      assert u + [y] + w == (u + [y] + w') + [z];
      SnocApart(c, u + [x] + w', u + [y] + w', z, z);
    }
  }

  /** Exchanging the bytes of a word loses nothing. */
  lemma SwapInjective(v: bv16, w: bv16)
    ensures Swap(v) == Swap(w) ==> v == w
  {
  }

  /**
   * A single corrupted byte of the PDU always changes the CRC: two PDUs of the
   * same length that differ only at index `i` never share their check value.
   */
  lemma ByteErrorDetected(address: byte, p: seq<byte>, q: seq<byte>, i: nat)
    requires |p| == |q| && i < |p| && p[i] != q[i]
    requires forall j :: 0 <= j < |p| && j != i ==> p[j] == q[j]
    ensures Crc(address, p, |p|) != Crc(address, q, |q|)
  {
    CrcIsStandard(address, p, |p|);
    CrcIsStandard(address, q, |q|);
    var u := [address] + p[..i];
    var w := p[i + 1..];
    assert p[..i] == q[..i];
    assert w == q[i + 1..];
    assert [address] + p[..|p|] == u + [p[i]] + w;
    assert [address] + q[..|q|] == u + [q[i]] + w;
    SerialFoldSeparates(0xFFFF, u, p[i], q[i], w);
    SwapInjective(SerialFold(0xFFFF, u + [p[i]] + w), SerialFold(0xFFFF, u + [q[i]] + w));
  }

  /** The register after the first three bytes of the example frame below, `01 03 00`. */
  lemma ExamplePrefix()
    ensures Fold(Start, [0x01] + [0x03, 0x00, 0x00, 0x00, 0x0A][..2]) == Reg(0x20, 0xF0)
  {
    var frame: seq<byte> := [0x03, 0x00, 0x00, 0x00, 0x0A];
    TableAt(15, 14);
    assert Rows[15] == RowF && RowF[14] == 0x8180;
    FoldNext(0x01, frame, 0, 0xFF, 0xFF, 0x8180);
    TableAt(7, 13);
    assert Rows[7] == Row7 && Row7[13] == 0xC021;
    FoldNext(0x01, frame, 1, 0x7E, 0x80, 0xC021);
    TableAt(4, 0);
    assert Rows[4] == Row4 && Row4[0] == 0x01F0;
    FoldNext(0x01, frame, 2, 0x40, 0x21, 0x01F0);
  }

  /** The register after the first five bytes, `01 03 00 00 00`. */
  lemma ExampleMiddle()
    ensures Fold(Start, [0x01] + [0x03, 0x00, 0x00, 0x00, 0x0A][..4]) == Reg(0x19, 0x84)
  {
    var frame: seq<byte> := [0x03, 0x00, 0x00, 0x00, 0x0A];
    ExamplePrefix();
    TableAt(2, 0);
    assert Rows[2] == Row2 && Row2[0] == 0x01D8;
    FoldNext(0x01, frame, 3, 0x20, 0xF0, 0x01D8);
    TableAt(15, 1);
    assert Rows[15] == RowF && RowF[1] == 0xC184;
    FoldNext(0x01, frame, 4, 0xF1, 0xD8, 0xC184);
  }

  /**
   * The frame `01 03 00 00 00 0A` (read ten holding registers from unit 1)
   * carries the check bytes `C5 CD`.
   */
  lemma ReadHoldingRegistersExample()
    ensures Crc(0x01, [0x03, 0x00, 0x00, 0x00, 0x0A], 5) == 0xC5CD
  {
    var frame: seq<byte> := [0x03, 0x00, 0x00, 0x00, 0x0A];
    ExampleMiddle();
    TableAt(1, 3);
    assert Rows[1] == Row1 && Row1[3] == 0x41CD;
    FoldNext(0x01, frame, 5, 0x19, 0x84, 0x41CD);
  }
}
