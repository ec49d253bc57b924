/** The literal tables of FastCRC_tables.h, and the check values documented beside the functions. */
module FastCrcTables {
  import opened FastCrc

  /** A row of 256 entries by those for one bit each; the others are sums of these. */
  datatype Row = Row(b0: bv32, b1: bv32, b2: bv32, b3: bv32, b4: bv32, b5: bv32, b6: bv32, b7: bv32)

  function If(on: bool, x: bv32): bv32 {
    if on then x else 0
  }

  function Sum(a: bv32, b: bv32, c: bv32, d: bv32): bv32 {
    Xor(Xor(a, b), Xor(c, d))
  }

  function Entry(r: Row, i: bv32): bv32 {
    Xor(Sum(If(i & 1 != 0, r.b0), If(i & 2 != 0, r.b1), If(i & 4 != 0, r.b2), If(i & 8 != 0, r.b3)),
        Sum(If(i & 16 != 0, r.b4), If(i & 32 != 0, r.b5), If(i & 64 != 0, r.b6), If(i & 128 != 0, r.b7)))
  }

  /** The table's entries for single bits are these. */
  predicate RowIs(c: Crc, row: nat, r: Row) {
    && Table(c, row, 1) == r.b0 && Table(c, row, 2) == r.b1 && Table(c, row, 4) == r.b2 && Table(c, row, 8) == r.b3
    && Table(c, row, 16) == r.b4 && Table(c, row, 32) == r.b5 && Table(c, row, 64) == r.b6
    && Table(c, row, 128) == r.b7
  }

  lemma {:induction false} TableLinear(c: Crc, row: nat, a: bv32, b: bv32)
    ensures Table(c, row, Xor(a, b)) == Xor(Table(c, row, a), Table(c, row, b))
  {
    hide Shift, Xor;
    if row == 0 {
      ShiftLinear(c, a, b);
    } else {
      TableLinear(c, row - 1, a, b);
      ShiftLinear(c, Table(c, row - 1, a), Table(c, row - 1, b));
    }
  }

  lemma {:induction false} TableZero(c: Crc, row: nat)
    ensures Table(c, row, 0) == 0
  {
    hide Table;
    TableLinear(c, row, 0, 0);
    XorZero(0);
    XorZero(Table(c, row, 0));
  }

  lemma {:induction false} TableIf(c: Crc, row: nat, on: bool, x: bv32)
    ensures Table(c, row, If(on, x)) == If(on, Table(c, row, x))
  {
    hide Table;
    TableZero(c, row);
  }

  lemma {:induction false} TableSum(c: Crc, row: nat, a: bv32, b: bv32, d: bv32, e: bv32)
    ensures Table(c, row, Sum(a, b, d, e))
      == Sum(Table(c, row, a), Table(c, row, b), Table(c, row, d), Table(c, row, e))
  {
    hide Table, Xor;
    TableLinear(c, row, Xor(a, b), Xor(d, e));
    TableLinear(c, row, a, b);
    TableLinear(c, row, d, e);
  }

  const UNITS := Row(1, 2, 4, 8, 16, 32, 64, 128)

  lemma {:induction false} ByteIsSum(i: bv32)
    requires i & 0xff == i
    ensures Entry(UNITS, i) == i
  {
  }

  /** Eight entries of a row say all 256. */
  lemma {:induction false} RowSays(c: Crc, row: nat, r: Row, i: bv32)
    requires RowIs(c, row, r) && i & 0xff == i
    ensures Table(c, row, i) == Entry(r, i)
  {
    hide Table, Xor, Sum, If;
    ByteIsSum(i);
    TableIf(c, row, i & 1 != 0, 1);
    TableIf(c, row, i & 2 != 0, 2);
    TableIf(c, row, i & 4 != 0, 4);
    TableIf(c, row, i & 8 != 0, 8);
    TableIf(c, row, i & 16 != 0, 16);
    TableIf(c, row, i & 32 != 0, 32);
    TableIf(c, row, i & 64 != 0, 64);
    TableIf(c, row, i & 128 != 0, 128);
    var low := Sum(If(i & 1 != 0, 1), If(i & 2 != 0, 2), If(i & 4 != 0, 4), If(i & 8 != 0, 8));
    var high := Sum(If(i & 16 != 0, 16), If(i & 32 != 0, 32), If(i & 64 != 0, 64), If(i & 128 != 0, 128));
    TableLinear(c, row, low, high);
    TableSum(c, row, If(i & 1 != 0, 1), If(i & 2 != 0, 2), If(i & 4 != 0, 4), If(i & 8 != 0, 8));
    TableSum(c, row, If(i & 16 != 0, 16), If(i & 32 != 0, 32), If(i & 64 != 0, 64), If(i & 128 != 0, 128));
  }

  // ----- evaluating a step

  /** Division on a register whose bits are reversed. */
  function Down(p: bv32, s: bv32): bv32 {
    Xor(s >> 1, If(s & 1 != 0, p))
  }

  function DownFour(p: bv32, s: bv32): bv32 {
    Down(p, Down(p, Down(p, Down(p, s))))
  }

  function DownByte(p: bv32, s: bv32): bv32 {
    DownFour(p, DownFour(p, s))
  }

  lemma {:induction false} GateReversed(p: bv32, r: bv32)
    ensures BitReverse(Gate(p, r)) == If(BitReverse(r) & 1 != 0, BitReverse(p))
    ensures BitReverse(r << 1) == BitReverse(r) >> 1
  {
  }

  lemma {:induction false} DivideReversed(p: bv32, r: bv32)
    ensures BitReverse(Divide(p, r)) == Down(BitReverse(p), BitReverse(r))
  {
    hide BitReverse, Xor, Gate;
    GateReversed(p, r);
    BitReverseLinear(r << 1, Gate(p, r));
  }

  lemma {:induction false} FourReversed(p: bv32, r: bv32)
    ensures BitReverse(DivideFour(p, r)) == DownFour(BitReverse(p), BitReverse(r))
  {
    hide BitReverse, Divide, Down;
    DivideReversed(p, r);
    DivideReversed(p, Divide(p, r));
    DivideReversed(p, DivideTwo(p, r));
    DivideReversed(p, Divide(p, DivideTwo(p, r)));
  }

  lemma {:induction false} ShiftReflected(c: Crc, s: bv32)
    requires c.reflected
    ensures Shift(c, s) == DownByte(BitReverse(Poly(c)), s)
  {
    hide BitReverse, DivideFour, DownFour, Poly;
    var p, r := Poly(c), BitReverse(s);
    FourReversed(p, r);
    FourReversed(p, DivideFour(p, r));
    BitReverseTwice(s);
  }

  lemma {:induction false} RowStep(c: Crc, row: nat, i: bv32)
    ensures Table(c, row + 1, i) == Shift(c, Table(c, row, i)) && Table(c, 0, i) == Shift(c, i)
  {
    hide Shift;
  }

  /** What the step makes of eight values. */
  predicate Steps(c: Crc, from: Row, to: Row) {
    && Shift(c, from.b0) == to.b0 && Shift(c, from.b1) == to.b1 && Shift(c, from.b2) == to.b2
    && Shift(c, from.b3) == to.b3 && Shift(c, from.b4) == to.b4 && Shift(c, from.b5) == to.b5
    && Shift(c, from.b6) == to.b6 && Shift(c, from.b7) == to.b7
  }

  lemma {:induction false} FirstRow(c: Crc, r: Row)
    requires Steps(c, UNITS, r)
    ensures RowIs(c, 0, r)
  {
    hide Shift;
  }

  lemma {:induction false} NextRow(c: Crc, row: nat, from: Row, to: Row)
    requires RowIs(c, row, from) && Steps(c, from, to)
    ensures RowIs(c, row + 1, to)
  {
    hide Shift, Table;
    RowStep(c, row, 1);
    RowStep(c, row, 2);
    RowStep(c, row, 4);
    RowStep(c, row, 8);
    RowStep(c, row, 16);
    RowStep(c, row, 32);
    RowStep(c, row, 64);
    RowStep(c, row, 128);
  }

  /** The step of a reflected CRC, on its reversed polynomial. */
  predicate StepsDown(p: bv32, from: Row, to: Row) {
    && DownByte(p, from.b0) == to.b0 && DownByte(p, from.b1) == to.b1 && DownByte(p, from.b2) == to.b2
    && DownByte(p, from.b3) == to.b3 && DownByte(p, from.b4) == to.b4 && DownByte(p, from.b5) == to.b5
    && DownByte(p, from.b6) == to.b6 && DownByte(p, from.b7) == to.b7
  }

  lemma {:induction false} ReflectedSteps(c: Crc, from: Row, to: Row)
    requires c.reflected && StepsDown(BitReverse(Poly(c)), from, to)
    ensures Steps(c, from, to)
  {
    hide Shift, DownByte, BitReverse, Poly;
    ShiftReflected(c, from.b0);
    ShiftReflected(c, from.b1);
    ShiftReflected(c, from.b2);
    ShiftReflected(c, from.b3);
    ShiftReflected(c, from.b4);
    ShiftReflected(c, from.b5);
    ShiftReflected(c, from.b6);
    ShiftReflected(c, from.b7);
  }

  /** The step of a CRC that is not reflected, on its left-aligned polynomial. */
  function UpByte(p: bv32, s: bv32): bv32 {
    Rev32(DivideByte(p, Rev32(s)))
  }

  predicate StepsUp(p: bv32, from: Row, to: Row) {
    && UpByte(p, from.b0) == to.b0 && UpByte(p, from.b1) == to.b1 && UpByte(p, from.b2) == to.b2
    && UpByte(p, from.b3) == to.b3 && UpByte(p, from.b4) == to.b4 && UpByte(p, from.b5) == to.b5
    && UpByte(p, from.b6) == to.b6 && UpByte(p, from.b7) == to.b7
  }

  lemma {:induction false} ShiftSwapped(c: Crc, s: bv32)
    requires !c.reflected
    ensures Shift(c, s) == UpByte(Poly(c), s)
  {
    hide DivideByte, Rev32, Poly;
  }

  lemma {:induction false} SwappedSteps(c: Crc, from: Row, to: Row)
    requires !c.reflected && StepsUp(Poly(c), from, to)
    ensures Steps(c, from, to)
  {
    hide DivideByte, Rev32, Poly;
  }

  // ----- the tables

  const CRC7_0 := Row(0x12, 0x24, 0x48, 0x90, 0x32, 0x64, 0xc8, 0x82)
  const SMBUS_0 := Row(0x07, 0x0e, 0x1c, 0x38, 0x70, 0xe0, 0xc7, 0x89)
  const MAXIM_0 := Row(0x5e, 0xbc, 0x61, 0xc2, 0x9d, 0x23, 0x46, 0x8c)
  const CCITT_0 := Row(0x2110, 0x4220, 0x8440, 0x0881, 0x3112, 0x6224, 0xc448, 0x8891)
  const CCITT_1 := Row(0x3133, 0x6266, 0xc4cc, 0xa989, 0x7303, 0xe606, 0xcc0d, 0x981b)
  const CCITT_2 := Row(0x3037, 0x606e, 0xc0dc, 0xa1a9, 0x6343, 0xc686, 0xad1d, 0x5a3b)
  const CCITT_3 := Row(0xb476, 0x68ed, 0xf1ca, 0xc385, 0xa71b, 0x4e37, 0x9c6e, 0x38dd)
  const KERMIT_0 := Row(0x1189, 0x2312, 0x4624, 0x8c48, 0x1081, 0x2102, 0x4204, 0x8408)
  const KERMIT_1 := Row(0x19d8, 0x33b0, 0x6760, 0xcec0, 0x9591, 0x2333, 0x4666, 0x8ccc)
  const KERMIT_2 := Row(0x5adc, 0xb5b8, 0x6361, 0xc6c2, 0x8595, 0x033b, 0x0676, 0x0cec)
  const KERMIT_3 := Row(0x1cbb, 0x3976, 0x72ec, 0xe5d8, 0xc3a1, 0x8f53, 0x16b7, 0x2d6e)
  const MODBUS_0 := Row(0xc0c1, 0xc181, 0xc301, 0xc601, 0xcc01, 0xd801, 0xf001, 0xa001)
  const MODBUS_1 := Row(0x9001, 0x6001, 0xc002, 0xc007, 0xc00d, 0xc019, 0xc031, 0xc061)
  const MODBUS_2 := Row(0xc051, 0xc0a1, 0xc141, 0xc281, 0xc501, 0xca01, 0xd401, 0xe801)
  const MODBUS_3 := Row(0xfc01, 0xb801, 0x3001, 0x6002, 0xc004, 0xc00b, 0xc015, 0xc029)
  const CRC32_0 :=
    Row(0x77073096, 0xee0e612c, 0x076dc419, 0x0edb8832, 0x1db71064, 0x3b6e20c8, 0x76dc4190, 0xedb88320)
  const CRC32_1 :=
    Row(0x191b3141, 0x32366282, 0x646cc504, 0xc8d98a08, 0x4ac21251, 0x958424a2, 0xf0794f05, 0x3b83984b)
  const CRC32_2 :=
    Row(0x01c26a37, 0x0384d46e, 0x0709a8dc, 0x0e1351b8, 0x1c26a370, 0x384d46e0, 0x709a8dc0, 0xe1351b80)
  const CRC32_3 :=
    Row(0xb8bc6765, 0xaa09c88b, 0x8f629757, 0xc5b428ef, 0x5019579f, 0xa032af3e, 0x9b14583d, 0xed59b63b)
  const CKSUM_0 :=
    Row(0xb71dc104, 0x6e3b8209, 0xdc760413, 0xb8ed0826, 0x70db114c, 0xe0b62398, 0x77708634, 0xeee00c69)
  const CKSUM_1 :=
    Row(0xdcc119d2, 0x0f9ef2a0, 0xa9212445, 0x5243488a, 0x139b5110, 0x2636a320, 0x4c6c4641, 0x98d88c82)
  const CKSUM_2 :=
    Row(0x87acd801, 0x0e59b103, 0x1cb26207, 0x3864c50e, 0x70c88a1d, 0xe090153b, 0xc0212b76, 0x804356ec)
  const CKSUM_3 :=
    Row(0xb79a6ddc, 0xd9281abc, 0x054cf57c, 0x0a98eaf9, 0xa32d14f7, 0xf146e9ea, 0x559013d1, 0x1d3de6a6)

  lemma {:induction false} Crc7Aligned()
    ensures Poly(CRC7) == 0x12000000
  {
  }

  lemma {:induction false} Crc7Step0()
    ensures StepsUp(0x12000000, UNITS, CRC7_0)
  {
  }

  lemma {:induction false} Crc7Table()
    ensures RowIs(CRC7, 0, CRC7_0)
  {
    hide Shift, Table, RowIs, Steps, StepsDown, StepsUp, BitReverse, Poly;
    Crc7Aligned();
    Crc7Step0();
    SwappedSteps(CRC7, UNITS, CRC7_0);
    FirstRow(CRC7, CRC7_0);
  }

  lemma {:induction false} SmbusAligned()
    ensures Poly(SMBUS) == 0x07000000
  {
  }

  lemma {:induction false} SmbusStep0()
    ensures StepsUp(0x07000000, UNITS, SMBUS_0)
  {
  }

  lemma {:induction false} SmbusTable()
    ensures RowIs(SMBUS, 0, SMBUS_0)
  {
    hide Shift, Table, RowIs, Steps, StepsDown, StepsUp, BitReverse, Poly;
    SmbusAligned();
    SmbusStep0();
    SwappedSteps(SMBUS, UNITS, SMBUS_0);
    FirstRow(SMBUS, SMBUS_0);
  }

  lemma {:induction false} MaximReversed()
    ensures BitReverse(Poly(MAXIM)) == 0x8c
  {
  }

  lemma {:induction false} MaximStep0()
    ensures StepsDown(0x8c, UNITS, MAXIM_0)
  {
  }

  lemma {:induction false} MaximTable()
    ensures RowIs(MAXIM, 0, MAXIM_0)
  {
    hide Shift, Table, RowIs, Steps, StepsDown, StepsUp, BitReverse, Poly;
    MaximReversed();
    MaximStep0();
    ReflectedSteps(MAXIM, UNITS, MAXIM_0);
    FirstRow(MAXIM, MAXIM_0);
  }

  lemma {:induction false} CcittAligned(c: Crc)
    requires c.width == 16 && c.poly == 0x1021 && !c.reflected
    ensures Poly(c) == 0x10210000
  {
  }

  lemma {:induction false} CcittStep0()
    ensures StepsUp(0x10210000, UNITS, CCITT_0)
  {
  }

  lemma {:induction false} CcittStep1()
    ensures StepsUp(0x10210000, CCITT_0, CCITT_1)
  {
  }

  lemma {:induction false} CcittStep2()
    ensures StepsUp(0x10210000, CCITT_1, CCITT_2)
  {
  }

  lemma {:induction false} CcittStep3()
    ensures StepsUp(0x10210000, CCITT_2, CCITT_3)
  {
  }

  lemma {:induction false} CcittTable(c: Crc)
    requires c.width == 16 && c.poly == 0x1021 && !c.reflected
    ensures RowIs(c, 0, CCITT_0) && RowIs(c, 1, CCITT_1)
    ensures RowIs(c, 2, CCITT_2) && RowIs(c, 3, CCITT_3)
  {
    hide Shift, Table, RowIs, Steps, StepsDown, StepsUp, BitReverse, Poly;
    CcittAligned(c);
    CcittStep0();
    SwappedSteps(c, UNITS, CCITT_0);
    FirstRow(c, CCITT_0);
    CcittStep1();
    SwappedSteps(c, CCITT_0, CCITT_1);
    NextRow(c, 0, CCITT_0, CCITT_1);
    CcittStep2();
    SwappedSteps(c, CCITT_1, CCITT_2);
    NextRow(c, 1, CCITT_1, CCITT_2);
    CcittStep3();
    SwappedSteps(c, CCITT_2, CCITT_3);
    NextRow(c, 2, CCITT_2, CCITT_3);
  }

  lemma {:induction false} KermitReversed(c: Crc)
    requires c.width == 16 && c.poly == 0x1021 && c.reflected
    ensures BitReverse(Poly(c)) == 0x8408
  {
  }

  lemma {:induction false} KermitStep0()
    ensures StepsDown(0x8408, UNITS, KERMIT_0)
  {
  }

  lemma {:induction false} KermitStep1()
    ensures StepsDown(0x8408, KERMIT_0, KERMIT_1)
  {
  }

  lemma {:induction false} KermitStep2()
    ensures StepsDown(0x8408, KERMIT_1, KERMIT_2)
  {
  }

  lemma {:induction false} KermitStep3()
    ensures StepsDown(0x8408, KERMIT_2, KERMIT_3)
  {
  }

  lemma {:induction false} KermitTable(c: Crc)
    requires c.width == 16 && c.poly == 0x1021 && c.reflected
    ensures RowIs(c, 0, KERMIT_0) && RowIs(c, 1, KERMIT_1)
    ensures RowIs(c, 2, KERMIT_2) && RowIs(c, 3, KERMIT_3)
  {
    hide Shift, Table, RowIs, Steps, StepsDown, StepsUp, BitReverse, Poly;
    KermitReversed(c);
    KermitStep0();
    ReflectedSteps(c, UNITS, KERMIT_0);
    FirstRow(c, KERMIT_0);
    KermitStep1();
    ReflectedSteps(c, KERMIT_0, KERMIT_1);
    NextRow(c, 0, KERMIT_0, KERMIT_1);
    KermitStep2();
    ReflectedSteps(c, KERMIT_1, KERMIT_2);
    NextRow(c, 1, KERMIT_1, KERMIT_2);
    KermitStep3();
    ReflectedSteps(c, KERMIT_2, KERMIT_3);
    NextRow(c, 2, KERMIT_2, KERMIT_3);
  }

  lemma {:induction false} ModbusReversed()
    ensures BitReverse(Poly(MODBUS)) == 0xa001
  {
  }

  lemma {:induction false} ModbusStep0()
    ensures StepsDown(0xa001, UNITS, MODBUS_0)
  {
  }

  lemma {:induction false} ModbusStep1()
    ensures StepsDown(0xa001, MODBUS_0, MODBUS_1)
  {
  }

  lemma {:induction false} ModbusStep2()
    ensures StepsDown(0xa001, MODBUS_1, MODBUS_2)
  {
  }

  lemma {:induction false} ModbusStep3()
    ensures StepsDown(0xa001, MODBUS_2, MODBUS_3)
  {
  }

  lemma {:induction false} ModbusTable()
    ensures RowIs(MODBUS, 0, MODBUS_0) && RowIs(MODBUS, 1, MODBUS_1)
    ensures RowIs(MODBUS, 2, MODBUS_2) && RowIs(MODBUS, 3, MODBUS_3)
  {
    hide Shift, Table, RowIs, Steps, StepsDown, StepsUp, BitReverse, Poly;
    ModbusReversed();
    ModbusStep0();
    ReflectedSteps(MODBUS, UNITS, MODBUS_0);
    FirstRow(MODBUS, MODBUS_0);
    ModbusStep1();
    ReflectedSteps(MODBUS, MODBUS_0, MODBUS_1);
    NextRow(MODBUS, 0, MODBUS_0, MODBUS_1);
    ModbusStep2();
    ReflectedSteps(MODBUS, MODBUS_1, MODBUS_2);
    NextRow(MODBUS, 1, MODBUS_1, MODBUS_2);
    ModbusStep3();
    ReflectedSteps(MODBUS, MODBUS_2, MODBUS_3);
    NextRow(MODBUS, 2, MODBUS_2, MODBUS_3);
  }

  lemma {:induction false} Crc32Reversed()
    ensures BitReverse(Poly(CRC32)) == 0xedb88320
  {
  }

  lemma {:induction false} Crc32Step0()
    ensures StepsDown(0xedb88320, UNITS, CRC32_0)
  {
  }

  lemma {:induction false} Crc32Step1()
    ensures StepsDown(0xedb88320, CRC32_0, CRC32_1)
  {
  }

  lemma {:induction false} Crc32Step2()
    ensures StepsDown(0xedb88320, CRC32_1, CRC32_2)
  {
  }

  lemma {:induction false} Crc32Step3()
    ensures StepsDown(0xedb88320, CRC32_2, CRC32_3)
  {
  }

  lemma {:induction false} Crc32Table()
    ensures RowIs(CRC32, 0, CRC32_0) && RowIs(CRC32, 1, CRC32_1)
    ensures RowIs(CRC32, 2, CRC32_2) && RowIs(CRC32, 3, CRC32_3)
  {
    hide Shift, Table, RowIs, Steps, StepsDown, StepsUp, BitReverse, Poly;
    Crc32Reversed();
    Crc32Step0();
    ReflectedSteps(CRC32, UNITS, CRC32_0);
    FirstRow(CRC32, CRC32_0);
    Crc32Step1();
    ReflectedSteps(CRC32, CRC32_0, CRC32_1);
    NextRow(CRC32, 0, CRC32_0, CRC32_1);
    Crc32Step2();
    ReflectedSteps(CRC32, CRC32_1, CRC32_2);
    NextRow(CRC32, 1, CRC32_1, CRC32_2);
    Crc32Step3();
    ReflectedSteps(CRC32, CRC32_2, CRC32_3);
    NextRow(CRC32, 2, CRC32_2, CRC32_3);
  }

  lemma {:induction false} CksumAligned()
    ensures Poly(CKSUM) == 0x04c11db7
  {
  }

  lemma {:induction false} CksumStep0()
    ensures StepsUp(0x04c11db7, UNITS, CKSUM_0)
  {
  }

  lemma {:induction false} CksumStep1()
    ensures StepsUp(0x04c11db7, CKSUM_0, CKSUM_1)
  {
  }

  lemma {:induction false} CksumStep2()
    ensures StepsUp(0x04c11db7, CKSUM_1, CKSUM_2)
  {
  }

  lemma {:induction false} CksumStep3()
    ensures StepsUp(0x04c11db7, CKSUM_2, CKSUM_3)
  {
  }

  lemma {:induction false} CksumTable()
    ensures RowIs(CKSUM, 0, CKSUM_0) && RowIs(CKSUM, 1, CKSUM_1)
    ensures RowIs(CKSUM, 2, CKSUM_2) && RowIs(CKSUM, 3, CKSUM_3)
  {
    hide Shift, Table, RowIs, Steps, StepsDown, StepsUp, BitReverse, Poly;
    CksumAligned();
    CksumStep0();
    SwappedSteps(CKSUM, UNITS, CKSUM_0);
    FirstRow(CKSUM, CKSUM_0);
    CksumStep1();
    SwappedSteps(CKSUM, CKSUM_0, CKSUM_1);
    NextRow(CKSUM, 0, CKSUM_0, CKSUM_1);
    CksumStep2();
    SwappedSteps(CKSUM, CKSUM_1, CKSUM_2);
    NextRow(CKSUM, 1, CKSUM_1, CKSUM_2);
    CksumStep3();
    SwappedSteps(CKSUM, CKSUM_2, CKSUM_3);
    NextRow(CKSUM, 2, CKSUM_2, CKSUM_3);
  }

  // ----- the check values

  /** "123456789". */
  const CHECK: seq<bv8> := [0x31, 0x32, 0x33, 0x34, 0x35, 0x36, 0x37, 0x38, 0x39]

  /** The values that enter a step for each of the first eight characters, `s` having been the register. */
  function Entering(s: bv32, to: Row): Row {
    Row(Xor(s, 0x31), Xor(to.b0, 0x32), Xor(to.b1, 0x33), Xor(to.b2, 0x34), Xor(to.b3, 0x35), Xor(to.b4, 0x36),
        Xor(to.b5, 0x37), Xor(to.b6, 0x38))
  }

  lemma {:induction false} CheckFolds(c: Crc, s: bv32, to: Row, last: bv32)
    requires Steps(c, Entering(s, to), to) && Shift(c, Xor(to.b7, 0x39)) == last
    ensures Fold(c, s, CHECK) == last
  {
    hide Shift, Xor, Fold, Wide;
    CheckCharacters();
    FoldStep(c, s, 0);
    FoldStep(c, to.b0, 1);
    FoldStep(c, to.b1, 2);
    FoldStep(c, to.b2, 3);
    FoldStep(c, to.b3, 4);
    FoldStep(c, to.b4, 5);
    FoldStep(c, to.b5, 6);
    FoldStep(c, to.b6, 7);
    FoldStep(c, to.b7, 8);
    assert CHECK[0..] == CHECK && CHECK[9..] == [];
    NoFold(c, last);
  }

  lemma {:induction false} CheckCharacters()
    ensures Wide(CHECK[0]) == 0x31 && Wide(CHECK[1]) == 0x32 && Wide(CHECK[2]) == 0x33 && Wide(CHECK[3]) == 0x34
    ensures Wide(CHECK[4]) == 0x35 && Wide(CHECK[5]) == 0x36 && Wide(CHECK[6]) == 0x37 && Wide(CHECK[7]) == 0x38
    ensures Wide(CHECK[8]) == 0x39
  {
  }

  lemma {:induction false} FoldStep(c: Crc, s: bv32, k: nat)
    requires k < 9
    ensures Fold(c, s, CHECK[k..]) == Fold(c, Shift(c, Xor(s, Wide(CHECK[k]))), CHECK[k + 1..])
  {
    hide Shift, Xor;
    assert CHECK[k..][0] == CHECK[k] && CHECK[k..][1..] == CHECK[k + 1..];
  }

  lemma {:induction false} NoFold(c: Crc, s: bv32)
    ensures Fold(c, s, []) == s
  {
  }

  /** The textbook CRC of the check text, from the register the bytes leave. */
  lemma {:induction false} CheckIs(c: Crc, s: bv32, to: Row, last: bv32)
    requires Steps(c, Entering(s, to), to) && Shift(c, Xor(to.b7, 0x39)) == last && Flip(c, s) == Start(c)
    ensures Textbook(c, CHECK) == Output(c, Flip(c, last))
  {
    hide Shift, Steps, Flip, Output, Poly, Fold, Remainder, MessageBits, Entering, Xor;
    CheckFolds(c, s, to, last);
    FoldDivides(c, s, CHECK);
  }

  const CRC7_CHECK := Row(0x44, 0xf2, 0x58, 0x74, 0xda, 0xf6, 0x58, 0xac)

  lemma {:induction false} Crc7CheckSteps()
    ensures StepsUp(0x12000000, Entering(0x00, CRC7_CHECK), CRC7_CHECK)
    ensures UpByte(0x12000000, Xor(CRC7_CHECK.b7, 0x39)) == 0xea
  {
  }

  lemma {:induction false} Crc7Check()
    ensures Textbook(Crc(7, 0x09, 0x00, false, 0x00), CHECK) == 0x75
  {
    hide Textbook, Shift, Steps, StepsDown, StepsUp, BitReverse, Entering, Xor;
    Crc7Aligned();
    Crc7CheckSteps();
    SwappedSteps(CRC7, Entering(0x00, CRC7_CHECK), CRC7_CHECK);
    ShiftSwapped(CRC7, Xor(CRC7_CHECK.b7, 0x39));
    Crc7Ends();
    CheckIs(CRC7, 0x00, CRC7_CHECK, 0xea);
  }

  lemma {:induction false} Crc7Ends()
    ensures Flip(CRC7, 0x00) == Start(CRC7) && Output(CRC7, Flip(CRC7, 0xea)) == 0x75
  {
  }

  const SMBUS_CHECK := Row(0x97, 0x72, 0xc0, 0xc2, 0xcb, 0xfd, 0x78, 0xc7)

  lemma {:induction false} SmbusCheckSteps()
    ensures StepsUp(0x07000000, Entering(0x00, SMBUS_CHECK), SMBUS_CHECK)
    ensures UpByte(0x07000000, Xor(SMBUS_CHECK.b7, 0x39)) == 0xf4
  {
  }

  lemma {:induction false} SmbusCheck()
    ensures Textbook(Crc(8, 0x07, 0x00, false, 0x00), CHECK) == 0xf4
  {
    hide Textbook, Shift, Steps, StepsDown, StepsUp, BitReverse, Entering, Xor;
    SmbusAligned();
    SmbusCheckSteps();
    SwappedSteps(SMBUS, Entering(0x00, SMBUS_CHECK), SMBUS_CHECK);
    ShiftSwapped(SMBUS, Xor(SMBUS_CHECK.b7, 0x39));
    SmbusEnds();
    CheckIs(SMBUS, 0x00, SMBUS_CHECK, 0xf4);
  }

  lemma {:induction false} SmbusEnds()
    ensures Flip(SMBUS, 0x00) == Start(SMBUS) && Output(SMBUS, Flip(SMBUS, 0xf4)) == 0xf4
  {
  }

  const MAXIM_CHECK := Row(0xe0, 0xeb, 0x95, 0xf1, 0xab, 0xec, 0x77, 0x07)

  lemma {:induction false} MaximCheckSteps()
    ensures StepsDown(0x8c, Entering(0x00, MAXIM_CHECK), MAXIM_CHECK)
    ensures DownByte(0x8c, Xor(MAXIM_CHECK.b7, 0x39)) == 0xa1
  {
  }

  lemma {:induction false} MaximCheck()
    ensures Textbook(Crc(8, 0x31, 0x00, true, 0x00), CHECK) == 0xa1
  {
    hide Textbook, Shift, Steps, StepsDown, StepsUp, BitReverse, Entering, Xor;
    MaximReversed();
    MaximCheckSteps();
    ReflectedSteps(MAXIM, Entering(0x00, MAXIM_CHECK), MAXIM_CHECK);
    ShiftReflected(MAXIM, Xor(MAXIM_CHECK.b7, 0x39));
    MaximEnds();
    CheckIs(MAXIM, 0x00, MAXIM_CHECK, 0xa1);
  }

  lemma {:induction false} MaximEnds()
    ensures Flip(MAXIM, 0x00) == Start(MAXIM) && Output(MAXIM, Flip(MAXIM, 0xa1)) == 0xa1
  {
  }

  const CCITT_CHECK := Row(0x82c7, 0xba3d, 0xce5b, 0x4953, 0x6045, 0xf42e, 0x1877, 0x2ba1)

  lemma {:induction false} CcittCheckSteps()
    ensures StepsUp(0x10210000, Entering(0xffff, CCITT_CHECK), CCITT_CHECK)
    ensures UpByte(0x10210000, Xor(CCITT_CHECK.b7, 0x39)) == 0xb129
  {
  }

  lemma {:induction false} CcittCheck()
    ensures Textbook(Crc(16, 0x1021, 0xffff, false, 0x0000), CHECK) == 0x29b1
  {
    hide Textbook, Shift, Steps, StepsDown, StepsUp, BitReverse, Entering, Xor;
    CcittAligned(CCITT);
    CcittCheckSteps();
    SwappedSteps(CCITT, Entering(0xffff, CCITT_CHECK), CCITT_CHECK);
    ShiftSwapped(CCITT, Xor(CCITT_CHECK.b7, 0x39));
    CcittEnds();
    CheckIs(CCITT, 0xffff, CCITT_CHECK, 0xb129);
  }

  lemma {:induction false} CcittEnds()
    ensures Flip(CCITT, 0xffff) == Start(CCITT) && Output(CCITT, Flip(CCITT, 0xb129)) == 0x29b1
  {
  }

  const MCRF4XX_CHECK := Row(0x200a, 0xbdeb, 0x5a78, 0x8832, 0x7437, 0x11fd, 0x6947, 0x8b19)

  lemma {:induction false} Mcrf4xxCheckSteps()
    ensures StepsDown(0x8408, Entering(0x0000, MCRF4XX_CHECK), MCRF4XX_CHECK)
    ensures DownByte(0x8408, Xor(MCRF4XX_CHECK.b7, 0x39)) == 0x2189
  {
  }

  lemma {:induction false} Mcrf4xxCheck()
    ensures Textbook(Crc(16, 0x1021, 0x0000, true, 0x0000), CHECK) == 0x2189
  {
    hide Textbook, Shift, Steps, StepsDown, StepsUp, BitReverse, Entering, Xor;
    KermitReversed(MCRF4XX);
    Mcrf4xxCheckSteps();
    ReflectedSteps(MCRF4XX, Entering(0x0000, MCRF4XX_CHECK), MCRF4XX_CHECK);
    ShiftReflected(MCRF4XX, Xor(MCRF4XX_CHECK.b7, 0x39));
    Mcrf4xxEnds();
    CheckIs(MCRF4XX, 0x0000, MCRF4XX_CHECK, 0x2189);
  }

  lemma {:induction false} Mcrf4xxEnds()
    ensures Flip(MCRF4XX, 0x0000) == Start(MCRF4XX) && Output(MCRF4XX, Flip(MCRF4XX, 0x2189)) == 0x2189
  {
  }

  const MODBUS_CHECK := Row(0x947e, 0xf595, 0x7a75, 0x30ba, 0xa471, 0x32e4, 0x9d73, 0x37dd)

  lemma {:induction false} ModbusCheckSteps()
    ensures StepsDown(0xa001, Entering(0xffff, MODBUS_CHECK), MODBUS_CHECK)
    ensures DownByte(0xa001, Xor(MODBUS_CHECK.b7, 0x39)) == 0x4b37
  {
  }

  lemma {:induction false} ModbusCheck()
    ensures Textbook(Crc(16, 0x8005, 0xffff, true, 0x0000), CHECK) == 0x4b37
  {
    hide Textbook, Shift, Steps, StepsDown, StepsUp, BitReverse, Entering, Xor;
    ModbusReversed();
    ModbusCheckSteps();
    ReflectedSteps(MODBUS, Entering(0xffff, MODBUS_CHECK), MODBUS_CHECK);
    ShiftReflected(MODBUS, Xor(MODBUS_CHECK.b7, 0x39));
    ModbusEnds();
    CheckIs(MODBUS, 0xffff, MODBUS_CHECK, 0x4b37);
  }

  lemma {:induction false} ModbusEnds()
    ensures Flip(MODBUS, 0xffff) == Start(MODBUS) && Output(MODBUS, Flip(MODBUS, 0x4b37)) == 0x4b37
  {
  }

  const KERMIT_CHECK := Row(0x200a, 0xbdeb, 0x5a78, 0x8832, 0x7437, 0x11fd, 0x6947, 0x8b19)

  lemma {:induction false} KermitCheckSteps()
    ensures StepsDown(0x8408, Entering(0x0000, KERMIT_CHECK), KERMIT_CHECK)
    ensures DownByte(0x8408, Xor(KERMIT_CHECK.b7, 0x39)) == 0x2189
  {
  }

  lemma {:induction false} KermitCheck()
    ensures Textbook(Crc(16, 0x1021, 0x0000, true, 0x0000), CHECK) == 0x2189
  {
    hide Textbook, Shift, Steps, StepsDown, StepsUp, BitReverse, Entering, Xor;
    KermitReversed(KERMIT);
    KermitCheckSteps();
    ReflectedSteps(KERMIT, Entering(0x0000, KERMIT_CHECK), KERMIT_CHECK);
    ShiftReflected(KERMIT, Xor(KERMIT_CHECK.b7, 0x39));
    KermitEnds();
    CheckIs(KERMIT, 0x0000, KERMIT_CHECK, 0x2189);
  }

  lemma {:induction false} KermitEnds()
    ensures Flip(KERMIT, 0x0000) == Start(KERMIT) && Output(KERMIT, Flip(KERMIT, 0x2189)) == 0x2189
  {
  }

  const XMODEM_CHECK := Row(0x7226, 0xb520, 0x5297, 0x89d7, 0x6c54, 0xe420, 0xd686, 0x1590)

  lemma {:induction false} XmodemCheckSteps()
    ensures StepsUp(0x10210000, Entering(0x0000, XMODEM_CHECK), XMODEM_CHECK)
    ensures UpByte(0x10210000, Xor(XMODEM_CHECK.b7, 0x39)) == 0xc331
  {
  }

  lemma {:induction false} XmodemCheck()
    ensures Textbook(Crc(16, 0x1021, 0x0000, false, 0x0000), CHECK) == 0x31c3
  {
    hide Textbook, Shift, Steps, StepsDown, StepsUp, BitReverse, Entering, Xor;
    CcittAligned(XMODEM);
    XmodemCheckSteps();
    SwappedSteps(XMODEM, Entering(0x0000, XMODEM_CHECK), XMODEM_CHECK);
    ShiftSwapped(XMODEM, Xor(XMODEM_CHECK.b7, 0x39));
    XmodemEnds();
    CheckIs(XMODEM, 0x0000, XMODEM_CHECK, 0xc331);
  }

  lemma {:induction false} XmodemEnds()
    ensures Flip(XMODEM, 0x0000) == Start(XMODEM) && Output(XMODEM, Flip(XMODEM, 0xc331)) == 0x31c3
  {
  }

  const X25_CHECK := Row(0x2f8d, 0x4d53, 0x634b, 0x8b13, 0x44bf, 0x198d, 0x1ac8, 0xf795)

  lemma {:induction false} X25CheckSteps()
    ensures StepsDown(0x8408, Entering(0xffff, X25_CHECK), X25_CHECK)
    ensures DownByte(0x8408, Xor(X25_CHECK.b7, 0x39)) == 0x6f91
  {
  }

  lemma {:induction false} X25Check()
    ensures Textbook(Crc(16, 0x1021, 0xffff, true, 0xffff), CHECK) == 0x906e
  {
    hide Textbook, Shift, Steps, StepsDown, StepsUp, BitReverse, Entering, Xor;
    KermitReversed(FastCrc.X25);
    X25CheckSteps();
    ReflectedSteps(FastCrc.X25, Entering(0xffff, X25_CHECK), X25_CHECK);
    ShiftReflected(FastCrc.X25, Xor(X25_CHECK.b7, 0x39));
    X25Ends();
    CheckIs(FastCrc.X25, 0xffff, X25_CHECK, 0x6f91);
  }

  lemma {:induction false} X25Ends()
    ensures Flip(FastCrc.X25, 0xffff) == Start(FastCrc.X25) && Output(FastCrc.X25, Flip(FastCrc.X25, 0x6f91)) == 0x906e
  {
  }

  const CRC32_CHECK := 
    Row(0x7c231048, 0xb0acbb32, 0x77b79c2d, 0x641c1f5c, 0x340ac5e3, 0xf68d2c9e, 0xaffc9660, 0x651f2550)

  lemma {:induction false} Crc32CheckSteps()
    ensures StepsDown(0xedb88320, Entering(0xffffffff, CRC32_CHECK), CRC32_CHECK)
    ensures DownByte(0xedb88320, Xor(CRC32_CHECK.b7, 0x39)) == 0x340bc6d9
  {
  }

  lemma {:induction false} Crc32Check()
    ensures Textbook(Crc(32, 0x04c11db7, 0xffffffff, true, 0xffffffff), CHECK) == 0xcbf43926
  {
    hide Textbook, Shift, Steps, StepsDown, StepsUp, BitReverse, Entering, Xor;
    Crc32Reversed();
    Crc32CheckSteps();
    ReflectedSteps(CRC32, Entering(0xffffffff, CRC32_CHECK), CRC32_CHECK);
    ShiftReflected(CRC32, Xor(CRC32_CHECK.b7, 0x39));
    Crc32Ends();
    CheckIs(CRC32, 0xffffffff, CRC32_CHECK, 0x340bc6d9);
  }

  lemma {:induction false} Crc32Ends()
    ensures Flip(CRC32, 0xffffffff) == Start(CRC32) && Output(CRC32, Flip(CRC32, 0x340bc6d9)) == 0xcbf43926
  {
  }

  const CKSUM_CHECK := 
    Row(0x2770f3d0, 0x173a5b3f, 0x648c366e, 0xd1199161, 0xdb0c8afa, 0xfdd08ae2, 0x82dd8e8c, 0xa279e720)

  lemma {:induction false} CksumCheckSteps()
    ensures StepsUp(0x04c11db7, Entering(0x00000000, CKSUM_CHECK), CKSUM_CHECK)
    ensures UpByte(0x04c11db7, Xor(CKSUM_CHECK.b7, 0x39)) == 0x7f89a189
  {
  }

  lemma {:induction false} CksumCheck()
    ensures Textbook(Crc(32, 0x04c11db7, 0x00000000, false, 0xffffffff), CHECK) == 0x765e7680
  {
    hide Textbook, Shift, Steps, StepsDown, StepsUp, BitReverse, Entering, Xor;
    CksumAligned();
    CksumCheckSteps();
    SwappedSteps(CKSUM, Entering(0x00000000, CKSUM_CHECK), CKSUM_CHECK);
    ShiftSwapped(CKSUM, Xor(CKSUM_CHECK.b7, 0x39));
    CksumEnds();
    CheckIs(CKSUM, 0x00000000, CKSUM_CHECK, 0x7f89a189);
  }

  lemma {:induction false} CksumEnds()
    ensures Flip(CKSUM, 0x00000000) == Start(CKSUM) && Output(CKSUM, Flip(CKSUM, 0x7f89a189)) == 0x765e7680
  {
  }

  /** What mcrf4xx would give from the start value documented for it; the code starts it from 0. */
  lemma {:induction false} Mcrf4xxDocumented()
    ensures Textbook(Crc(16, 0x1021, 0xffff, true, 0x0000), CHECK) == 0x6f91
  {
    hide Textbook, Shift, Steps, StepsDown, BitReverse, Entering, Xor;
    var c := Crc(16, 0x1021, 0xffff, true, 0x0000);
    KermitReversed(c);
    X25CheckSteps();
    ReflectedSteps(c, Entering(0xffff, X25_CHECK), X25_CHECK);
    ShiftReflected(c, Xor(X25_CHECK.b7, 0x39));
    Mcrf4xxDocumentedEnds(c);
    CheckIs(c, 0xffff, X25_CHECK, 0x6f91);
  }

  lemma {:induction false} Mcrf4xxDocumentedEnds(c: Crc)
    requires c == Crc(16, 0x1021, 0xffff, true, 0x0000)
    ensures Flip(c, 0xffff) == Start(c) && Output(c, Flip(c, 0x6f91)) == 0x6f91
  {
  }
}
