/**
CRC32C (checksum.c): the table-driven loop against the bit-at-a-time definition of
Appendix B of RFC 4960. Bytes are bv8 here and registers bv32.
 */
module Crc32c {
  import opened Bits

  /** The Castagnoli polynomial 0x1EDC6F41 with its bits in reverse order. */
  const REFLECTED: bv32 := 0x82F6_3B78

  // ---------------------------------------------------------------------
  // Bit at a time
  // ---------------------------------------------------------------------

  /** Shift one bit out of the register. */
  function Step(c: bv32): bv32 {
    if c & 1 == 1 then (c >> 1) ^ REFLECTED else c >> 1
  }

  function Steps(n: nat, c: bv32): bv32 {
    if n == 0 then c else Steps(n - 1, Step(c))
  }

  function Eight(c: bv32): bv32 {
    Steps(8, c)
  }

  /** The register after the bytes b, bit by bit. */
  function Bitwise(c: bv32, b: seq<bv8>): bv32
    decreases |b|
  {
    if b == [] then c else Bitwise(Eight(Xor(c, b[0] as bv32)), b[1..])
  }

  // ---------------------------------------------------------------------
  // The table
  // ---------------------------------------------------------------------

  const ROW_0: seq<bv32> := [
     0x0000_0000, 0xF26B_8303, 0xE13B_70F7, 0x1350_F3F4,
     0xC79A_971F, 0x35F1_141C, 0x26A1_E7E8, 0xD4CA_64EB,
     0x8AD9_58CF, 0x78B2_DBCC, 0x6BE2_2838, 0x9989_AB3B,
     0x4D43_CFD0, 0xBF28_4CD3, 0xAC78_BF27, 0x5E13_3C24]

  const ROW_1: seq<bv32> := [
     0x105E_C76F, 0xE235_446C, 0xF165_B798, 0x030E_349B,
     0xD7C4_5070, 0x25AF_D373, 0x36FF_2087, 0xC494_A384,
     0x9A87_9FA0, 0x68EC_1CA3, 0x7BBC_EF57, 0x89D7_6C54,
     0x5D1D_08BF, 0xAF76_8BBC, 0xBC26_7848, 0x4E4D_FB4B]

  const ROW_2: seq<bv32> := [
     0x20BD_8EDE, 0xD2D6_0DDD, 0xC186_FE29, 0x33ED_7D2A,
     0xE727_19C1, 0x154C_9AC2, 0x061C_6936, 0xF477_EA35,
     0xAA64_D611, 0x580F_5512, 0x4B5F_A6E6, 0xB934_25E5,
     0x6DFE_410E, 0x9F95_C20D, 0x8CC5_31F9, 0x7EAE_B2FA]

  const ROW_3: seq<bv32> := [
     0x30E3_49B1, 0xC288_CAB2, 0xD1D8_3946, 0x23B3_BA45,
     0xF779_DEAE, 0x0512_5DAD, 0x1642_AE59, 0xE429_2D5A,
     0xBA3A_117E, 0x4851_927D, 0x5B01_6189, 0xA96A_E28A,
     0x7DA0_8661, 0x8FCB_0562, 0x9C9B_F696, 0x6EF0_7595]

  const ROW_4: seq<bv32> := [
     0x417B_1DBC, 0xB310_9EBF, 0xA040_6D4B, 0x522B_EE48,
     0x86E1_8AA3, 0x748A_09A0, 0x67DA_FA54, 0x95B1_7957,
     0xCBA2_4573, 0x39C9_C670, 0x2A99_3584, 0xD8F2_B687,
     0x0C38_D26C, 0xFE53_516F, 0xED03_A29B, 0x1F68_2198]

  const ROW_5: seq<bv32> := [
     0x5125_DAD3, 0xA34E_59D0, 0xB01E_AA24, 0x4275_2927,
     0x96BF_4DCC, 0x64D4_CECF, 0x7784_3D3B, 0x85EF_BE38,
     0xDBFC_821C, 0x2997_011F, 0x3AC7_F2EB, 0xC8AC_71E8,
     0x1C66_1503, 0xEE0D_9600, 0xFD5D_65F4, 0x0F36_E6F7]

  const ROW_6: seq<bv32> := [
     0x61C6_9362, 0x93AD_1061, 0x80FD_E395, 0x7296_6096,
     0xA65C_047D, 0x5437_877E, 0x4767_748A, 0xB50C_F789,
     0xEB1F_CBAD, 0x1974_48AE, 0x0A24_BB5A, 0xF84F_3859,
     0x2C85_5CB2, 0xDEEE_DFB1, 0xCDBE_2C45, 0x3FD5_AF46]

  const ROW_7: seq<bv32> := [
     0x7198_540D, 0x83F3_D70E, 0x90A3_24FA, 0x62C8_A7F9,
     0xB602_C312, 0x4469_4011, 0x5739_B3E5, 0xA552_30E6,
     0xFB41_0CC2, 0x092A_8FC1, 0x1A7A_7C35, 0xE811_FF36,
     0x3CDB_9BDD, 0xCEB0_18DE, 0xDDE0_EB2A, 0x2F8B_6829]

  const ROW_8: seq<bv32> := [
     0x82F6_3B78, 0x709D_B87B, 0x63CD_4B8F, 0x91A6_C88C,
     0x456C_AC67, 0xB707_2F64, 0xA457_DC90, 0x563C_5F93,
     0x082F_63B7, 0xFA44_E0B4, 0xE914_1340, 0x1B7F_9043,
     0xCFB5_F4A8, 0x3DDE_77AB, 0x2E8E_845F, 0xDCE5_075C]

  const ROW_9: seq<bv32> := [
     0x92A8_FC17, 0x60C3_7F14, 0x7393_8CE0, 0x81F8_0FE3,
     0x5532_6B08, 0xA759_E80B, 0xB409_1BFF, 0x4662_98FC,
     0x1871_A4D8, 0xEA1A_27DB, 0xF94A_D42F, 0x0B21_572C,
     0xDFEB_33C7, 0x2D80_B0C4, 0x3ED0_4330, 0xCCBB_C033]

  const ROW_A: seq<bv32> := [
     0xA24B_B5A6, 0x5020_36A5, 0x4370_C551, 0xB11B_4652,
     0x65D1_22B9, 0x97BA_A1BA, 0x84EA_524E, 0x7681_D14D,
     0x2892_ED69, 0xDAF9_6E6A, 0xC9A9_9D9E, 0x3BC2_1E9D,
     0xEF08_7A76, 0x1D63_F975, 0x0E33_0A81, 0xFC58_8982]

  const ROW_B: seq<bv32> := [
     0xB215_72C9, 0x407E_F1CA, 0x532E_023E, 0xA145_813D,
     0x758F_E5D6, 0x87E4_66D5, 0x94B4_9521, 0x66DF_1622,
     0x38CC_2A06, 0xCAA7_A905, 0xD9F7_5AF1, 0x2B9C_D9F2,
     0xFF56_BD19, 0x0D3D_3E1A, 0x1E6D_CDEE, 0xEC06_4EED]

  const ROW_C: seq<bv32> := [
     0xC38D_26C4, 0x31E6_A5C7, 0x22B6_5633, 0xD0DD_D530,
     0x0417_B1DB, 0xF67C_32D8, 0xE52C_C12C, 0x1747_422F,
     0x4954_7E0B, 0xBB3F_FD08, 0xA86F_0EFC, 0x5A04_8DFF,
     0x8ECE_E914, 0x7CA5_6A17, 0x6FF5_99E3, 0x9D9E_1AE0]

  const ROW_D: seq<bv32> := [
     0xD3D3_E1AB, 0x21B8_62A8, 0x32E8_915C, 0xC083_125F,
     0x1449_76B4, 0xE622_F5B7, 0xF572_0643, 0x0719_8540,
     0x590A_B964, 0xAB61_3A67, 0xB831_C993, 0x4A5A_4A90,
     0x9E90_2E7B, 0x6CFB_AD78, 0x7FAB_5E8C, 0x8DC0_DD8F]

  const ROW_E: seq<bv32> := [
     0xE330_A81A, 0x115B_2B19, 0x020B_D8ED, 0xF060_5BEE,
     0x24AA_3F05, 0xD6C1_BC06, 0xC591_4FF2, 0x37FA_CCF1,
     0x69E9_F0D5, 0x9B82_73D6, 0x88D2_8022, 0x7AB9_0321,
     0xAE73_67CA, 0x5C18_E4C9, 0x4F48_173D, 0xBD23_943E]

  const ROW_F: seq<bv32> := [
     0xF36E_6F75, 0x0105_EC76, 0x1255_1F82, 0xE03E_9C81,
     0x34F4_F86A, 0xC69F_7B69, 0xD5CF_889D, 0x27A4_0B9E,
     0x79B7_37BA, 0x8BDC_B4B9, 0x988C_474D, 0x6AE7_C44E,
     0xBE2D_A0A5, 0x4C46_23A6, 0x5F16_D052, 0xAD7D_5351]

  /** Row h of the table crc_c, which has sixteen rows of sixteen entries. */
  function Row(h: bv8): (r: seq<bv32>)
    requires h < 16
    ensures |r| == 16
  {
    if h == 0 then ROW_0
    else if h == 1 then ROW_1
    else if h == 2 then ROW_2
    else if h == 3 then ROW_3
    else if h == 4 then ROW_4
    else if h == 5 then ROW_5
    else if h == 6 then ROW_6
    else if h == 7 then ROW_7
    else if h == 8 then ROW_8
    else if h == 9 then ROW_9
    else if h == 10 then ROW_A
    else if h == 11 then ROW_B
    else if h == 12 then ROW_C
    else if h == 13 then ROW_D
    else if h == 14 then ROW_E
    else ROW_F
  }

  /** crc_c[x] */
  function Entry(x: bv8): bv32 {
    Row(x >> 4)[(x & 15) as int]
  }

  // ---------------------------------------------------------------------
  // The table holds eight steps of every byte
  // ---------------------------------------------------------------------

  lemma OddOdd(x: bv32, y: bv32)
    requires x & 1 == 1 && y & 1 == 1
    ensures Step(x ^ y) == Step(x) ^ Step(y)
  {
  }

  lemma OddEven(x: bv32, y: bv32)
    requires x & 1 == 1 && y & 1 != 1
    ensures Step(x ^ y) == Step(x) ^ Step(y)
  {
  }

  lemma EvenOdd(x: bv32, y: bv32)
    requires x & 1 != 1 && y & 1 == 1
    ensures Step(x ^ y) == Step(x) ^ Step(y)
  {
  }

  lemma EvenEven(x: bv32, y: bv32)
    requires x & 1 != 1 && y & 1 != 1
    ensures Step(x ^ y) == Step(x) ^ Step(y)
  {
  }

  /** A step is linear over exclusive or. */
  lemma StepLinear(x: bv32, y: bv32)
    ensures Step(Xor(x, y)) == Xor(Step(x), Step(y))
  {
    hide Step;
    if x & 1 == 1 {
      if y & 1 == 1 {
        OddOdd(x, y);
      } else {
        OddEven(x, y);
      }
    } else {
      if y & 1 == 1 {
        EvenOdd(x, y);
      } else {
        EvenEven(x, y);
      }
    }
  }

  lemma {:induction false} StepsLinear(n: nat, x: bv32, y: bv32)
    ensures Steps(n, Xor(x, y)) == Xor(Steps(n, x), Steps(n, y))
  {
    hide Step, Xor;
    if n > 0 {
      StepLinear(x, y);
      StepsLinear(n - 1, Step(x), Step(y));
    }
  }

  lemma Row0Zero()
    ensures ROW_0[0] == Eight(0)
  {
  }

  lemma Row0First()
    ensures ROW_0[1] == Eight(1) && ROW_0[2] == Eight(2) && ROW_0[3] == Eight(3)
  {
  }

  lemma Row0Second()
    ensures ROW_0[4] == Eight(4) && ROW_0[5] == Eight(5) && ROW_0[6] == Eight(6) && ROW_0[7] == Eight(7)
  {
  }

  lemma Row0Third()
    ensures ROW_0[8] == Eight(8) && ROW_0[9] == Eight(9) && ROW_0[10] == Eight(10) && ROW_0[11] == Eight(11)
  {
  }

  lemma Row0Fourth()
    ensures ROW_0[12] == Eight(12) && ROW_0[13] == Eight(13) && ROW_0[14] == Eight(14) && ROW_0[15] == Eight(15)
  {
  }

  lemma Row1(l: nat)
    requires l < 16
    ensures ROW_1[l] == Xor(ROW_1[0], ROW_0[l])
  {
  }

  lemma Row2(l: nat)
    requires l < 16
    ensures ROW_2[l] == Xor(ROW_2[0], ROW_0[l])
  {
  }

  lemma Row3(l: nat)
    requires l < 16
    ensures ROW_3[l] == Xor(ROW_3[0], ROW_0[l])
  {
  }

  lemma Row4(l: nat)
    requires l < 16
    ensures ROW_4[l] == Xor(ROW_4[0], ROW_0[l])
  {
  }

  lemma Row5(l: nat)
    requires l < 16
    ensures ROW_5[l] == Xor(ROW_5[0], ROW_0[l])
  {
  }

  lemma Row6(l: nat)
    requires l < 16
    ensures ROW_6[l] == Xor(ROW_6[0], ROW_0[l])
  {
  }

  lemma Row7(l: nat)
    requires l < 16
    ensures ROW_7[l] == Xor(ROW_7[0], ROW_0[l])
  {
  }

  lemma Row8(l: nat)
    requires l < 16
    ensures ROW_8[l] == Xor(ROW_8[0], ROW_0[l])
  {
  }

  lemma Row9(l: nat)
    requires l < 16
    ensures ROW_9[l] == Xor(ROW_9[0], ROW_0[l])
  {
  }

  lemma RowA(l: nat)
    requires l < 16
    ensures ROW_A[l] == Xor(ROW_A[0], ROW_0[l])
  {
  }

  lemma RowB(l: nat)
    requires l < 16
    ensures ROW_B[l] == Xor(ROW_B[0], ROW_0[l])
  {
  }

  lemma RowC(l: nat)
    requires l < 16
    ensures ROW_C[l] == Xor(ROW_C[0], ROW_0[l])
  {
  }

  lemma RowD(l: nat)
    requires l < 16
    ensures ROW_D[l] == Xor(ROW_D[0], ROW_0[l])
  {
  }

  lemma RowE(l: nat)
    requires l < 16
    ensures ROW_E[l] == Xor(ROW_E[0], ROW_0[l])
  {
  }

  lemma RowF(l: nat)
    requires l < 16
    ensures ROW_F[l] == Xor(ROW_F[0], ROW_0[l])
  {
  }

  lemma RowHeadsLow()
    ensures ROW_0[0] == Eight(0x00)
    ensures ROW_1[0] == Eight(0x10)
    ensures ROW_2[0] == Eight(0x20)
    ensures ROW_3[0] == Eight(0x30)
  {
  }

  lemma RowHeadsMidLow()
    ensures ROW_4[0] == Eight(0x40)
    ensures ROW_5[0] == Eight(0x50)
    ensures ROW_6[0] == Eight(0x60)
    ensures ROW_7[0] == Eight(0x70)
  {
  }

  lemma RowHeadsMidHigh()
    ensures ROW_8[0] == Eight(0x80)
    ensures ROW_9[0] == Eight(0x90)
    ensures ROW_A[0] == Eight(0xA0)
    ensures ROW_B[0] == Eight(0xB0)
  {
  }

  lemma RowHeadsHigh()
    ensures ROW_C[0] == Eight(0xC0)
    ensures ROW_D[0] == Eight(0xD0)
    ensures ROW_E[0] == Eight(0xE0)
    ensures ROW_F[0] == Eight(0xF0)
  {
  }

  lemma RowHead(h: bv8)
    requires h < 16
    ensures Row(h)[0] == Eight((h << 4) as bv32)
  {
    hide Eight;
    RowHeadsLow();
    RowHeadsMidLow();
    RowHeadsMidHigh();
    RowHeadsHigh();
  }

  lemma Row0(l: bv8)
    requires l < 16
    ensures ROW_0[l as int] == Eight(l as bv32)
  {
    hide Eight;
    Row0Zero();
    Row0First();
    Row0Second();
    Row0Third();
    Row0Fourth();
    if
    case l == 0 =>
    case l == 1 =>
    case l == 2 =>
    case l == 3 =>
    case l == 4 =>
    case l == 5 =>
    case l == 6 =>
    case l == 7 =>
    case l == 8 =>
    case l == 9 =>
    case l == 10 =>
    case l == 11 =>
    case l == 12 =>
    case l == 13 =>
    case l == 14 =>
    case l == 15 =>
  }

  /** Every row is its first entry added to the first row. */
  lemma RowIsShifted(h: bv8, l: bv8)
    requires h < 16 && l < 16
    ensures Row(h)[l as int] == Xor(Row(h)[0], ROW_0[l as int])
  {
    if
    case h == 0 => assert ROW_0[0] == 0;
    case h == 1 => Row1(l as int);
    case h == 2 => Row2(l as int);
    case h == 3 => Row3(l as int);
    case h == 4 => Row4(l as int);
    case h == 5 => Row5(l as int);
    case h == 6 => Row6(l as int);
    case h == 7 => Row7(l as int);
    case h == 8 => Row8(l as int);
    case h == 9 => Row9(l as int);
    case h == 10 => RowA(l as int);
    case h == 11 => RowB(l as int);
    case h == 12 => RowC(l as int);
    case h == 13 => RowD(l as int);
    case h == 14 => RowE(l as int);
    case h == 15 => RowF(l as int);
  }

  lemma Nibbles(x: bv8)
    ensures x >> 4 < 16 && x & 15 < 16
    ensures Xor(((x >> 4) << 4) as bv32, (x & 15) as bv32) == x as bv32
  {
  }

  /** Each of the 256 entries is what eight bit steps make of its index. */
  lemma TableIsEightSteps(x: bv8)
    ensures Entry(x) == Eight(x as bv32)
  {
    hide Row, Xor, Steps;
    var h, l := x >> 4, x & 15;
    Nibbles(x);
    RowIsShifted(h, l);
    RowHead(h);
    Row0(l);
    StepsLinear(8, (h << 4) as bv32, l as bv32);
  }

  function ShiftRight(y: bv32, n: nat): bv32
    requires n <= 8
  {
    y >> n
  }

  lemma StepOfUpper(y: bv32, n: nat)
    requires n < 8 && y & 0xff == 0
    ensures Step(ShiftRight(y, n)) == ShiftRight(y, n + 1)
  {
    if
    case n == 0 =>
    case n == 1 =>
    case n == 2 =>
    case n == 3 =>
    case n == 4 =>
    case n == 5 =>
    case n == 6 =>
    case n == 7 =>
  }

  /** Steps that shift out zeros only shift. */
  lemma {:induction false} StepsOfUpper(y: bv32, n: nat)
    requires n <= 8 && y & 0xff == 0
    ensures Steps(8 - n, ShiftRight(y, n)) == ShiftRight(y, 8)
    decreases 8 - n
  {
    hide Step, ShiftRight;
    if n < 8 {
      StepOfUpper(y, n);
      StepsOfUpper(y, n + 1);
    }
  }

  function LowByte(x: bv32): bv8 {
    (x & 0xff) as bv8
  }

  function Upper(x: bv32): bv32 {
    x & 0xffff_ff00
  }

  lemma UpperAndLower(x: bv32)
    ensures Xor(Upper(x), LowByte(x) as bv32) == x
    ensures ShiftRight(Upper(x), 0) == Upper(x) && ShiftRight(Upper(x), 8) == ShiftRight(x, 8)
    ensures Upper(x) & 0xff == 0
  {
  }

  lemma ByteBelow(c: bv32, d: bv8)
    ensures ShiftRight(Xor(c, d as bv32), 8) == ShiftRight(c, 8)
  {
  }

  /** The macro CRC32C. */
  function TableStep(c: bv32, d: bv8): bv32 {
    Xor(ShiftRight(c, 8), Entry(LowByte(Xor(c, d as bv32))))
  }

  /** The table-driven step is eight bit steps. */
  lemma TableStepIsEightSteps(c: bv32, d: bv8)
    ensures TableStep(c, d) == Eight(Xor(c, d as bv32))
  {
    hide Xor, Steps, Entry, ShiftRight, LowByte, Upper;
    var x := Xor(c, d as bv32);
    ByteBelow(c, d);
    UpperAndLower(x);
    TableIsEightSteps(LowByte(x));
    StepsOfUpper(Upper(x), 0);
    StepsLinear(8, Upper(x), LowByte(x) as bv32);
  }

  // ---------------------------------------------------------------------
  // The loop and the stored bytes
  // ---------------------------------------------------------------------

  /** The register after the bytes b, byte by byte through the table. */
  lemma {:induction false} BitwiseAppend(c: bv32, b: seq<bv8>, d: bv8)
    ensures Bitwise(c, b + [d]) == TableStep(Bitwise(c, b), d)
    decreases |b|
  {
    hide Xor, Eight, TableStep;
    if b == [] {
      assert ([d])[1..] == [] && b + [d] == [d];
      TableStepIsEightSteps(c, d);
    } else {
      assert (b + [d])[1..] == b[1..] + [d];
      BitwiseAppend(Eight(Xor(c, b[0] as bv32)), b[1..], d);
    }
  }

  function Not(v: bv32): bv32 {
    !v
  }

  /** The CRC32C of a message: all ones at the start, complemented at the end. */
  function Crc(b: seq<bv8>): bv32 {
    Not(Bitwise(0xffff_ffff, b))
  }

  /** The bytes that htonl(v) has in memory. */
  function NetworkBytes(v: bv32): (r: seq<bv8>)
    ensures |r| == 4
  {
    [LowByte(v >> 24), LowByte(v >> 16), LowByte(v >> 8), LowByte(v)]
  }

  /** The four bytes of v, lowest first. */
  function BytesUp(v: bv32): (r: seq<bv8>)
    ensures |r| == 4
  {
    [LowByte(v), LowByte(v >> 8), LowByte(v >> 16), LowByte(v >> 24)]
  }

  function Swapped(v: bv32): bv32 {
    (((v & 0xff) << 24) | (((v >> 8) & 0xff) << 16)) | ((((v >> 16) & 0xff) << 8) | ((v >> 24) & 0xff))
  }

  lemma SwappedBytes(v: bv32)
    ensures NetworkBytes(Swapped(v)) == BytesUp(v)
  {
  }

  /** sctp_crc32c; the result is the four bytes of the returned __be32 in memory. */
  method SctpCrc32c(buf: array<bv8>, len: nat) returns (stored: seq<bv8>)
    requires len <= buf.Length
    ensures stored == BytesUp(Crc(buf[..len]))
  {
    hide TableStep, NetworkBytes, BytesUp, Swapped;
    var crc: bv32 := 0xffff_ffff;
    var i := 0;
    while i < len
      invariant i <= len && crc == Bitwise(0xffff_ffff, buf[..i])
    {
      BitwiseAppend(0xffff_ffff, buf[..i], buf[i]);
      assert buf[..i + 1] == buf[..i] + [buf[i]];
      crc := TableStep(crc, buf[i]);
      i := i + 1;
    }
    crc := !crc;
    SwappedBytes(crc);
    crc := Swapped(crc);
    stored := NetworkBytes(crc);
  }

  // ---------------------------------------------------------------------
  // The register of Appendix B, most significant bit first
  // ---------------------------------------------------------------------

  const POLYNOMIAL: bv32 := 0x1EDC_6F41

  /** One step of the division that the RFC describes. */
  function MsbStep(r: bv32): bv32 {
    if r & 0x8000_0000 != 0 then (r << 1) ^ POLYNOMIAL else r << 1
  }

  function MsbSteps(n: nat, r: bv32): bv32 {
    if n == 0 then r else MsbSteps(n - 1, MsbStep(r))
  }

  /** The bits of a byte in reverse order. */
  function Mirror8(d: bv8): bv8 {
    var a := ((d >> 1) & 0x55) | ((d & 0x55) << 1);
    var b := ((a >> 2) & 0x33) | ((a & 0x33) << 2);
    (b >> 4) | (b << 4)
  }

  /** The bits of a word in reverse order. */
  function Mirror(x: bv32): bv32 {
    var a := ((x >> 1) & 0x5555_5555) | ((x & 0x5555_5555) << 1);
    var b := ((a >> 2) & 0x3333_3333) | ((a & 0x3333_3333) << 2);
    var c := ((b >> 4) & 0x0f0f_0f0f) | ((b & 0x0f0f_0f0f) << 4);
    var e := ((c >> 8) & 0x00ff_00ff) | ((c & 0x00ff_00ff) << 8);
    (e >> 16) | (e << 16)
  }

  /** Message bytes enter at the top, lowest bit first. */
  function MsbRegister(r: bv32, b: seq<bv8>): bv32
    decreases |b|
  {
    if b == [] then r else MsbRegister(MsbSteps(8, Xor(r, AtTop(b[0]))), b[1..])
  }

  function AtTop(d: bv8): bv32 {
    (Mirror8(d) as bv32) << 24
  }

  predicate LowBit(c: bv32) {
    c & 1 == 1
  }

  predicate TopBit(r: bv32) {
    r & 0x8000_0000 != 0
  }

  function Half(c: bv32): bv32 {
    c >> 1
  }

  function Double(r: bv32): bv32 {
    r << 1
  }

  lemma StepParts(c: bv32)
    ensures Step(c) == if LowBit(c) then Xor(Half(c), REFLECTED) else Half(c)
    ensures MsbStep(c) == if TopBit(c) then Xor(Double(c), POLYNOMIAL) else Double(c)
  {
  }

  lemma MirrorTop(c: bv32)
    ensures TopBit(Mirror(c)) <==> LowBit(c)
  {
  }

  lemma MirrorShiftBits(c: bv32)
    ensures Mirror(c >> 1) == Mirror(c) << 1
  {
  }

  lemma MirrorShift(c: bv32)
    ensures Mirror(Half(c)) == Double(Mirror(c))
  {
    hide Mirror;
    MirrorShiftBits(c);
  }

  lemma MirrorPolynomialBits(x: bv32)
    ensures Mirror(x ^ REFLECTED) == Mirror(x) ^ POLYNOMIAL
  {
  }

  lemma MirrorPolynomial(x: bv32)
    ensures Mirror(Xor(x, REFLECTED)) == Xor(Mirror(x), POLYNOMIAL)
  {
    hide Mirror;
    MirrorPolynomialBits(x);
  }

  lemma MirrorStep(c: bv32)
    ensures Mirror(Step(c)) == MsbStep(Mirror(c))
  {
    hide Mirror, Step, MsbStep, LowBit, TopBit, Half, Double, Xor;
    MirrorTop(c);
    MirrorShift(c);
    MirrorPolynomial(Half(c));
    StepParts(c);
    StepParts(Mirror(c));
  }

  lemma {:induction false} MirrorSteps(n: nat, c: bv32)
    ensures Mirror(Steps(n, c)) == MsbSteps(n, Mirror(c))
  {
    hide Step, MsbStep, Mirror;
    if n > 0 {
      MirrorStep(c);
      MirrorSteps(n - 1, Step(c));
    }
  }

  lemma MirrorXor(c: bv32, d: bv8)
    ensures Mirror(Xor(c, d as bv32)) == Xor(Mirror(c), AtTop(d))
  {
  }

  /** The code's register is the RFC's, mirrored. */
  lemma {:induction false} RegistersMirror(c: bv32, b: seq<bv8>)
    ensures Mirror(Bitwise(c, b)) == MsbRegister(Mirror(c), b)
    decreases |b|
  {
    hide Xor, Steps, MsbSteps, Mirror, AtTop;
    if b != [] {
      MirrorXor(c, b[0]);
      MirrorSteps(8, Xor(c, b[0] as bv32));
      RegistersMirror(Eight(Xor(c, b[0] as bv32)), b[1..]);
    }
  }

  /** The four bytes of r, highest first, each with its bits mirrored. */
  function MirroredBytesDown(r: bv32): seq<bv8> {
    [Mirror8(LowByte(r >> 24)), Mirror8(LowByte(r >> 16)), Mirror8(LowByte(r >> 8)), Mirror8(LowByte(r))]
  }

  lemma MirrorBytes(v: bv32)
    ensures BytesUp(v) == MirroredBytesDown(Mirror(v))
  {
  }

  lemma MirrorOnes()
    ensures Mirror(0xffff_ffff) == 0xffff_ffff
  {
  }

  lemma MirrorNotBits(v: bv32)
    ensures Mirror(!v) == !Mirror(v)
  {
  }

  lemma MirrorNot(v: bv32)
    ensures Mirror(Not(v)) == Not(Mirror(v))
  {
    hide Mirror;
    MirrorNotBits(v);
  }

  /** The stored bytes are, from the top down, the bytes of the RFC's complemented
      remainder, each with its bits mirrored. */
  lemma StoredAsTheRfcRequires(b: seq<bv8>)
    ensures BytesUp(Crc(b)) == MirroredBytesDown(Not(MsbRegister(0xffff_ffff, b)))
  {
    hide Not, Mirror, MirroredBytesDown, MsbRegister, Bitwise, BytesUp;
    RegistersMirror(0xffff_ffff, b);
    MirrorOnes();
    MirrorNot(Bitwise(0xffff_ffff, b));
    MirrorBytes(Crc(b));
  }

  // ---------------------------------------------------------------------
  // A changed byte is always noticed
  // ---------------------------------------------------------------------

  /** The step backwards. */
  function Unstep(c: bv32): bv32 {
    if c & 0x8000_0000 != 0 then ((c ^ REFLECTED) << 1) | 1 else c << 1
  }

  function Unsteps(n: nat, c: bv32): bv32 {
    if n == 0 then c else Unstep(Unsteps(n - 1, c))
  }

  lemma StepInverse(c: bv32)
    ensures Unstep(Step(c)) == c
  {
  }

  lemma {:induction false} StepsInverse(n: nat, c: bv32)
    ensures Unsteps(n, Steps(n, c)) == c
  {
    hide Step, Unstep;
    if n > 0 {
      StepsInverse(n - 1, Step(c));
      StepInverse(c);
    }
  }

  lemma XorInjective(a: bv32, b: bv32, x: bv32)
    requires Xor(a, x) == Xor(b, x)
    ensures a == b
  {
  }

  lemma ByteInjective(c: bv32, d: bv8, d': bv8)
    requires Xor(c, d as bv32) == Xor(c, d' as bv32)
    ensures d == d'
  {
  }

  /** Different registers stay different whatever follows. */
  lemma {:induction false} RegistersStayApart(c: bv32, c': bv32, b: seq<bv8>)
    requires c != c'
    ensures Bitwise(c, b) != Bitwise(c', b)
    decreases |b|
  {
    hide Xor, Steps, Unsteps;
    if b != [] {
      var x, x' := Xor(c, b[0] as bv32), Xor(c', b[0] as bv32);
      if Eight(x) == Eight(x') {
        StepsInverse(8, x);
        StepsInverse(8, x');
        XorInjective(c, c', b[0] as bv32);
        assert false;
      }
      RegistersStayApart(Eight(x), Eight(x'), b[1..]);
    }
  }

  /** A message with one byte changed has a different checksum. */
  lemma {:induction false} ChangedByteIsDetected(c: bv32, before: seq<bv8>, d: bv8, d': bv8, after: seq<bv8>)
    requires d != d'
    ensures Bitwise(c, before + [d] + after) != Bitwise(c, before + [d'] + after)
    decreases |before|
  {
    hide Xor, Steps, Unsteps;
    var m, m' := before + [d] + after, before + [d'] + after;
    if before == [] {
      assert m[1..] == after && m'[1..] == after;
      var x, x' := Xor(c, d as bv32), Xor(c, d' as bv32);
      if Eight(x) == Eight(x') {
        StepsInverse(8, x);
        StepsInverse(8, x');
        ByteInjective(c, d, d');
        assert false;
      }
      RegistersStayApart(Eight(x), Eight(x'), after);
    } else {
      assert m[1..] == before[1..] + [d] + after && m'[1..] == before[1..] + [d'] + after;
      ChangedByteIsDetected(Eight(Xor(c, before[0] as bv32)), before[1..], d, d', after);
    }
  }
}
