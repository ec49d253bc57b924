/** CRC arithmetic (FastCRCsw.cpp, FastCRC_tables.h): bit-serial division, the tables, and what CRCs detect. */
module FastCrc {

  // ----- words

  function Xor(a: bv32, b: bv32): bv32 { a ^ b }

  lemma {:induction false} XorAssoc(a: bv32, b: bv32, c: bv32)
    ensures Xor(Xor(a, b), c) == Xor(a, Xor(b, c))
  {
  }

  lemma {:induction false} XorComm(a: bv32, b: bv32)
    ensures Xor(a, b) == Xor(b, a)
  {
  }

  lemma {:induction false} XorZero(a: bv32)
    ensures Xor(a, a) == 0 && Xor(a, 0) == a && Xor(0, a) == a
  {
  }

  lemma {:induction false} XorSwap(a: bv32, b: bv32, c: bv32, d: bv32)
    ensures Xor(Xor(a, b), Xor(c, d)) == Xor(Xor(a, c), Xor(b, d))
  {
    hide Xor;
    XorAssoc(a, b, Xor(c, d));
    XorAssoc(b, c, d);
    XorAssoc(c, b, d);
    XorComm(b, c);
    XorAssoc(a, c, Xor(b, d));
  }

  lemma {:induction false} XorCancels(a: bv32, b: bv32)
    ensures Xor(a, b) == 0 <==> a == b
    ensures Xor(Xor(a, b), b) == a
  {
    hide Xor;
    XorAssoc(a, b, b);
    XorZero(b);
    XorZero(a);
  }

  lemma {:induction false} XorIs(a: bv32, b: bv32)
    ensures Xor(a, b) == a ^ b
  {
  }

  function Rev16(value: bv32): bv32 {
    (value >> 8) | ((value & 0xff) << 8)
  }

  function Rev32(value: bv32): bv32 {
    var v := (value >> 16) | ((value & 0xffff) << 16);
    ((v >> 8) & 0xff00ff) | ((v & 0xff00ff) << 8)
  }

  /** The 32 bits in reverse order. */
  function BitReverse(x: bv32): bv32 {
    ((x & 0x1) << 31) | ((x & 0x2) << 29) | ((x & 0x4) << 27) | ((x & 0x8) << 25)
    | ((x & 0x10) << 23) | ((x & 0x20) << 21) | ((x & 0x40) << 19) | ((x & 0x80) << 17)
    | ((x & 0x100) << 15) | ((x & 0x200) << 13) | ((x & 0x400) << 11) | ((x & 0x800) << 9)
    | ((x & 0x1000) << 7) | ((x & 0x2000) << 5) | ((x & 0x4000) << 3) | ((x & 0x8000) << 1)
    | ((x >> 1) & 0x8000) | ((x >> 3) & 0x4000) | ((x >> 5) & 0x2000) | ((x >> 7) & 0x1000)
    | ((x >> 9) & 0x800) | ((x >> 11) & 0x400) | ((x >> 13) & 0x200) | ((x >> 15) & 0x100)
    | ((x >> 17) & 0x80) | ((x >> 19) & 0x40) | ((x >> 21) & 0x20) | ((x >> 23) & 0x10)
    | ((x >> 25) & 0x8) | ((x >> 27) & 0x4) | ((x >> 29) & 0x2) | ((x >> 31) & 0x1)
  }

  // ----- division, one bit at a time

  function Gate(poly: bv32, r: bv32): bv32 {
    if r & 0x80000000 != 0 then poly else 0
  }

  /**
   * One division step without input: the register, left-aligned, moves up and the polynomial goes in
   * for the bit lost.
   */
  function Divide(poly: bv32, r: bv32): bv32 {
    Xor(r << 1, Gate(poly, r))
  }

  function TopBit(bit: bool): bv32 {
    if bit then 0x80000000 else 0
  }

  /** Bit-serial division of a message by the polynomial, starting with `r` in the register. */
  function Remainder(poly: bv32, r: bv32, bits: seq<bool>): bv32
    decreases |bits|
  {
    if bits == [] then r else Remainder(poly, Divide(poly, Xor(r, TopBit(bits[0]))), bits[1..])
  }

  lemma {:induction false} GateLinear(p: bv32, a: bv32, b: bv32)
    ensures Gate(p, Xor(a, b)) == Xor(Gate(p, a), Gate(p, b))
  {
  }

  lemma {:induction false} DivideLinear(p: bv32, a: bv32, b: bv32)
    ensures Divide(p, Xor(a, b)) == Xor(Divide(p, a), Divide(p, b))
  {
    hide Gate, Xor;
    GateLinear(p, a, b);
    XorIs(a, b);
    XorIs(a << 1, b << 1);
    XorSwap(a << 1, b << 1, Gate(p, a), Gate(p, b));
  }

  lemma {:induction false} RemainderAppend(p: bv32, r: bv32, a: seq<bool>, b: seq<bool>)
    ensures Remainder(p, r, a + b) == Remainder(p, Remainder(p, r, a), b)
    decreases |a|
  {
    hide Divide, Xor, TopBit;
    if a == [] {
      assert a + b == b;
    } else {
      assert (a + b)[1..] == a[1..] + b;
      RemainderAppend(p, Divide(p, Xor(r, TopBit(a[0]))), a[1..], b);
    }
  }

  function XorBits(a: seq<bool>, b: seq<bool>): (r: seq<bool>)
    requires |a| == |b|
    ensures |r| == |a|
  {
    seq(|a|, i requires 0 <= i < |a| => a[i] != b[i])
  }

  /** Division is linear in the register and the message together. */
  lemma {:induction false} RemainderLinear(p: bv32, r: bv32, s: bv32, a: seq<bool>, b: seq<bool>)
    requires |a| == |b|
    ensures Remainder(p, Xor(r, s), XorBits(a, b)) == Xor(Remainder(p, r, a), Remainder(p, s, b))
    decreases |a|
  {
    hide Divide, Xor, TopBit;
    if a != [] {
      assert XorBits(a, b)[1..] == XorBits(a[1..], b[1..]);
      var x, y := Xor(r, TopBit(a[0])), Xor(s, TopBit(b[0]));
      TopBitLinear(a[0], b[0]);
      XorSwap(r, s, TopBit(a[0]), TopBit(b[0]));
      DivideLinear(p, x, y);
      RemainderLinear(p, Divide(p, x), Divide(p, y), a[1..], b[1..]);
    }
  }

  lemma {:induction false} TopBitLinear(a: bool, b: bool)
    ensures TopBit(a != b) == Xor(TopBit(a), TopBit(b))
  {
  }

  // ----- preloading a short message into the register

  function Load(bits: seq<bool>): bv32 {
    if bits == [] then 0 else Push(bits[0], Load(bits[1..]))
  }

  function Push(bit: bool, l: bv32): bv32 {
    Xor(TopBit(bit), Half(l))
  }

  function Half(l: bv32): bv32 { l >> 1 }

  function DivideTimes(poly: bv32, n: nat, r: bv32): bv32 {
    if n == 0 then r else DivideTimes(poly, n - 1, Divide(poly, r))
  }

  /** The mask of the upper `n` bits. */
  function Upper(n: nat): bv32 {
    if n == 0 then 0 else Grow(Upper(n - 1))
  }

  function Grow(mask: bv32): bv32 { 0x80000000 | (mask >> 1) }

  predicate Within(r: bv32, mask: bv32) { r & mask == r }

  lemma {:induction false} UpperValues()
    ensures Upper(7) == 0xfe000000 && Upper(8) == 0xff000000 && Upper(16) == 0xffff0000 && Upper(32) == 0xffffffff
    ensures forall n | 0 <= n < 32 :: Upper(n) & 1 == 0
  {
    assert Upper(1) == 0x80000000 && Upper(2) == 0xc0000000 && Upper(3) == 0xe0000000 && Upper(4) == 0xf0000000;
    assert Upper(5) == 0xf8000000 && Upper(6) == 0xfc000000 && Upper(7) == 0xfe000000 && Upper(8) == 0xff000000;
    assert Upper(9) == 0xff800000 && Upper(10) == 0xffc00000 && Upper(11) == 0xffe00000 && Upper(12) == 0xfff00000;
    assert Upper(13) == 0xfff80000 && Upper(14) == 0xfffc0000 && Upper(15) == 0xfffe0000 && Upper(16) == 0xffff0000;
    assert Upper(17) == 0xffff8000 && Upper(18) == 0xffffc000 && Upper(19) == 0xffffe000 && Upper(20) == 0xfffff000;
    assert Upper(21) == 0xfffff800 && Upper(22) == 0xfffffc00 && Upper(23) == 0xfffffe00 && Upper(24) == 0xffffff00;
    assert Upper(25) == 0xffffff80 && Upper(26) == 0xffffffc0 && Upper(27) == 0xffffffe0 && Upper(28) == 0xfffffff0;
    assert Upper(29) == 0xfffffff8 && Upper(30) == 0xfffffffc && Upper(31) == 0xfffffffe && Upper(32) == 0xffffffff;
  }

  lemma {:induction false} LoadWithin(bits: seq<bool>)
    ensures Within(Load(bits), Upper(|bits|))
    decreases |bits|
  {
    hide Push, Within, Grow;
    ZeroWithin();
    if bits != [] {
      LoadWithin(bits[1..]);
      LoadStep(bits[0], Load(bits[1..]), Upper(|bits| - 1));
    }
  }

  lemma {:induction false} ZeroWithin()
    ensures Within(0, 0)
  {
  }

  lemma {:induction false} LoadStep(b: bool, l: bv32, m: bv32)
    requires Within(l, m)
    ensures Within(Push(b, l), Grow(m))
  {
    if b {
    } else {
    }
  }

  lemma {:induction false} DivideDoubles(p: bv32, l: bv32)
    requires l & 1 == 0
    ensures Divide(p, Half(l)) == l
  {
  }

  /** Up to 32 message bits may as well be in the register from the start. */
  lemma {:induction false} Preload(p: bv32, r: bv32, bits: seq<bool>)
    requires |bits| <= 32
    ensures Remainder(p, r, bits) == DivideTimes(p, |bits|, Xor(r, Load(bits)))
    decreases |bits|
  {
    hide Divide, Xor, TopBit, Half;
    if bits == [] {
      XorZero(r);
    } else {
      var rest, l := bits[1..], Load(bits[1..]);
      var x := Xor(r, TopBit(bits[0]));
      Preload(p, Divide(p, x), rest);
      LoadEven(rest);
      DivideDoubles(p, l);
      DivideLinear(p, x, Half(l));
      XorAssoc(r, TopBit(bits[0]), Half(l));
    }
  }

  lemma {:induction false} LoadEven(bits: seq<bool>)
    requires |bits| < 32
    ensures Load(bits) & 1 == 0
  {
    LoadWithin(bits);
    UpperValues();
    EvenWithin(Load(bits), Upper(|bits|));
  }

  lemma {:induction false} EvenWithin(l: bv32, m: bv32)
    requires Within(l, m) && m & 1 == 0
    ensures l & 1 == 0
  {
  }

  lemma {:induction false} LoadZero(bits: seq<bool>)
    requires |bits| <= 32 && Load(bits) == 0
    ensures forall i | 0 <= i < |bits| :: !bits[i]
    decreases |bits|
  {
    if bits != [] {
      LoadEven(bits[1..]);
      LoadZeroStep(bits[0], Load(bits[1..]));
      LoadZero(bits[1..]);
      forall i | 0 <= i < |bits| ensures !bits[i] {
        if i > 0 {
          assert bits[i] == bits[1..][i - 1];
        }
      }
    }
  }

  lemma {:induction false} LoadZeroStep(b: bool, l: bv32)
    requires l & 1 == 0 && Push(b, l) == 0
    ensures !b && l == 0
  {
  }

  // ----- the parameters

  /** The catalogue's parameters of a CRC; `poly`, `init` and `xorOut` are `width` bits wide. */
  datatype Crc = Crc(width: nat, poly: bv32, init: bv32, reflected: bool, xorOut: bv32)

  const CRC7 := Crc(7, 0x09, 0, false, 0)
  const SMBUS := Crc(8, 0x07, 0, false, 0)
  const MAXIM := Crc(8, 0x31, 0, true, 0)
  const CCITT := Crc(16, 0x1021, 0xffff, false, 0)
  const MCRF4XX := Crc(16, 0x1021, 0, true, 0)
  const MODBUS := Crc(16, 0x8005, 0xffff, true, 0)
  const KERMIT := Crc(16, 0x1021, 0, true, 0)
  const XMODEM := Crc(16, 0x1021, 0, false, 0)
  const X25 := Crc(16, 0x1021, 0xffff, true, 0xffff)
  const CRC32 := Crc(32, 0x04c11db7, 0xffffffff, true, 0xffffffff)
  const CKSUM := Crc(32, 0x04c11db7, 0, false, 0xffffffff)

  /** `x` of `width` bits, moved to the top of a word. */
  function LeftAlign(width: nat, x: bv32): bv32 {
    if width == 7 then x << 25 else if width == 8 then x << 24 else if width == 16 then x << 16 else x
  }

  function RightAlign(width: nat, x: bv32): bv32 {
    if width == 7 then x >> 25 else if width == 8 then x >> 24 else if width == 16 then x >> 16 else x
  }

  function Mask(width: nat): bv32 {
    if width == 7 then 0xfe000000 else if width == 8 then 0xff000000 else if width == 16 then 0xffff0000 else 0xffffffff
  }

  /** The widths of the library, and a polynomial with a constant term. */
  predicate Valid(c: Crc) {
    (c.width == 7 || c.width == 8 || c.width == 16 || c.width == 32) && c.poly & 1 == 1
  }

  function Poly(c: Crc): bv32 { LeftAlign(c.width, c.poly) }

  /** The bits of a byte in the order they are sent. */
  function Bits(reflected: bool, b: bv8): (r: seq<bool>)
    ensures |r| == 8
  {
    if reflected then
      [BitAt(b, 1), BitAt(b, 2), BitAt(b, 4), BitAt(b, 8), BitAt(b, 16), BitAt(b, 32), BitAt(b, 64), BitAt(b, 128)]
    else
      [BitAt(b, 128), BitAt(b, 64), BitAt(b, 32), BitAt(b, 16), BitAt(b, 8), BitAt(b, 4), BitAt(b, 2), BitAt(b, 1)]
  }

  predicate BitAt(b: bv8, mask: bv8) { b & mask != 0 }

  function MessageBits(reflected: bool, data: seq<bv8>): (r: seq<bool>)
    ensures |r| == 8 * |data|
  {
    if data == [] then [] else Bits(reflected, data[0]) + MessageBits(reflected, data[1..])
  }

  /** What the register is turned into at the end. */
  function Output(c: Crc, r: bv32): bv32 {
    Xor(if c.reflected then BitReverse(r) else RightAlign(c.width, r), c.xorOut)
  }

  function Start(c: Crc): bv32 { LeftAlign(c.width, c.init) }

  /** The textbook CRC of a message: the remainder of bit-serial division. */
  function Textbook(c: Crc, data: seq<bv8>): bv32 {
    Output(c, Remainder(Poly(c), Start(c), MessageBits(c.reflected, data)))
  }

  // ----- the stored register and its tables

  /** Between the left-aligned register and the one the code stores: all bits or all bytes reversed. */
  function Flip(c: Crc, x: bv32): bv32 {
    if c.reflected then BitReverse(x) else Rev32(x)
  }

  function DivideTwo(poly: bv32, r: bv32): bv32 {
    Divide(poly, Divide(poly, r))
  }

  function DivideFour(poly: bv32, r: bv32): bv32 {
    DivideTwo(poly, DivideTwo(poly, r))
  }

  /** Eight division steps. */
  function DivideByte(poly: bv32, r: bv32): bv32 {
    DivideFour(poly, DivideFour(poly, r))
  }

  /** The stored register after a zero byte. */
  function Shift(c: Crc, s: bv32): bv32 {
    Flip(c, DivideByte(Poly(c), Flip(c, s)))
  }

  /** Row 0 is the byte table; each further row is a zero-byte step of the one before. */
  function Table(c: Crc, row: nat, i: bv32): bv32 {
    if row == 0 then Shift(c, i) else Shift(c, Table(c, row - 1, i))
  }

  function Wide(b: bv8): bv32 { b as bv32 }

  /** One byte into the stored register. */
  function Feed(c: Crc, s: bv32, b: bv8): bv32 {
    Shift(c, Xor(s, Wide(b)))
  }

  function Fold(c: Crc, s: bv32, data: seq<bv8>): bv32
    decreases |data|
  {
    if data == [] then s else Fold(c, Feed(c, s, data[0]), data[1..])
  }

  lemma {:induction false} FlipLinear(c: Crc, a: bv32, b: bv32)
    ensures Flip(c, Xor(a, b)) == Xor(Flip(c, a), Flip(c, b))
  {
    hide BitReverse, Rev32, Xor;
    if c.reflected {
      BitReverseLinear(a, b);
    } else {
      Rev32Linear(a, b);
    }
  }

  lemma {:induction false} BitReverseLinear(a: bv32, b: bv32)
    ensures BitReverse(Xor(a, b)) == Xor(BitReverse(a), BitReverse(b))
  {
  }

  lemma {:induction false} Rev32Linear(a: bv32, b: bv32)
    ensures Rev32(Xor(a, b)) == Xor(Rev32(a), Rev32(b))
  {
  }

  lemma {:induction false} BitReverseTwice(x: bv32)
    ensures BitReverse(BitReverse(x)) == x
  {
  }

  lemma {:induction false} Rev32Twice(x: bv32)
    ensures Rev32(Rev32(x)) == x
  {
  }

  lemma {:induction false} FlipTwice(c: Crc, x: bv32)
    ensures Flip(c, Flip(c, x)) == x
  {
    hide BitReverse, Rev32;
    BitReverseTwice(x);
    Rev32Twice(x);
  }

  lemma {:induction false} BitReverseShift(x: bv32)
    ensures BitReverse(x >> 8) == BitReverse(x) << 8
    ensures BitReverse(x & 0xffffff00) & 0xff000000 == 0
  {
  }

  lemma {:induction false} Rev32Shift(x: bv32)
    ensures Rev32(x >> 8) == Rev32(x) << 8
    ensures Rev32(x & 0xffffff00) & 0xff000000 == 0
  {
  }

  lemma {:induction false} FlipShift(c: Crc, x: bv32)
    ensures Flip(c, x >> 8) == Flip(c, x) << 8
    ensures Flip(c, x & 0xffffff00) & 0xff000000 == 0
  {
    hide BitReverse, Rev32;
    BitReverseShift(x);
    Rev32Shift(x);
  }

  lemma {:induction false} DivideTimesLinear(p: bv32, n: nat, a: bv32, b: bv32)
    ensures DivideTimes(p, n, Xor(a, b)) == Xor(DivideTimes(p, n, a), DivideTimes(p, n, b))
  {
    hide Divide, Xor;
    if n > 0 {
      DivideLinear(p, a, b);
      DivideTimesLinear(p, n - 1, Divide(p, a), Divide(p, b));
    }
  }

  lemma {:induction false} DivideByteLinear(p: bv32, a: bv32, b: bv32)
    ensures DivideByte(p, Xor(a, b)) == Xor(DivideByte(p, a), DivideByte(p, b))
  {
    hide Divide, DivideByte, DivideTimes, Xor;
    DivideTimesLinear(p, 8, a, b);
    DivideTimesEight(p, a);
    DivideTimesEight(p, b);
    DivideTimesEight(p, Xor(a, b));
  }

  lemma {:induction false} DivideTimesEight(p: bv32, r: bv32)
    ensures DivideTimes(p, 8, r) == DivideByte(p, r)
  {
    hide Divide;
    DivideTimesFour(p, 4, r);
    DivideTimesFour(p, 0, DivideFour(p, r));
  }

  lemma {:induction false} DivideTimesFour(p: bv32, n: nat, r: bv32)
    ensures DivideTimes(p, n + 4, r) == DivideTimes(p, n, DivideFour(p, r))
  {
    hide Divide;
    DivideTimesTwo(p, n + 2, r);
    DivideTimesTwo(p, n, DivideTwo(p, r));
  }

  lemma {:induction false} DivideTimesTwo(p: bv32, n: nat, r: bv32)
    ensures DivideTimes(p, n + 2, r) == DivideTimes(p, n, DivideTwo(p, r))
  {
    hide Divide;
  }

  lemma {:induction false} DivideByteShifts(p: bv32, r: bv32)
    requires r & 0xff000000 == 0
    ensures DivideByte(p, r) == r << 8
  {
  }

  lemma {:induction false} ShiftLinear(c: Crc, a: bv32, b: bv32)
    ensures Shift(c, Xor(a, b)) == Xor(Shift(c, a), Shift(c, b))
  {
    hide Flip, DivideByte, Xor, Poly;
    var p := Poly(c);
    FlipLinear(c, a, b);
    DivideByteLinear(p, Flip(c, a), Flip(c, b));
    FlipLinear(c, DivideByte(p, Flip(c, a)), DivideByte(p, Flip(c, b)));
  }

  lemma {:induction false} ShiftPlain(c: Crc, s: bv32)
    requires s & 0xff == 0
    ensures Shift(c, s) == s >> 8
  {
    hide Flip, DivideByte;
    assert s & 0xffffff00 == s;
    FlipShift(c, s);
    DivideByteShifts(Poly(c), Flip(c, s));
    FlipTwice(c, s >> 8);
  }

  lemma {:induction false} LowByte(s: bv32)
    ensures s == Xor(s & 0xffffff00, s & 0xff) && (s & 0xffffff00) & 0xff == 0 && (s & 0xffffff00) >> 8 == s >> 8
  {
  }

  lemma {:induction false} ShiftSplit(c: Crc, high: bv32, low: bv32)
    requires high & 0xff == 0
    ensures Shift(c, Xor(high, low)) == Xor(high >> 8, Shift(c, low))
  {
    hide Shift, Xor;
    ShiftLinear(c, high, low);
    ShiftPlain(c, high);
  }

  /** A zero-byte step as the code makes it: the register moved down, and the entry for the byte that leaves. */
  function ZeroStep(c: Crc, s: bv32): bv32 {
    Xor(s >> 8, Table(c, 0, s & 0xff))
  }

  lemma {:induction false} ShiftByTable(c: Crc, s: bv32)
    ensures Shift(c, s) == ZeroStep(c, s)
  {
    hide Shift, Xor;
    LowByte(s);
    ShiftSplit(c, s & 0xffffff00, s & 0xff);
  }

  /** Each row of the slicing tables is one zero-byte step of the row before, made with the first row. */
  lemma {:induction false} TableRows(c: Crc, row: nat, i: bv32)
    ensures Table(c, row + 1, i) == ZeroStep(c, Table(c, row, i))
  {
    hide Shift, ZeroStep;
    ShiftByTable(c, Table(c, row, i));
  }

  // ----- four bytes at a time

  /** The little-endian word of four bytes. */
  function Word(b0: bv8, b1: bv8, b2: bv8, b3: bv8): bv32 {
    Xor(Xor(Xor(Wide(b0), Wide(b1) << 8), Wide(b2) << 16), Wide(b3) << 24)
  }

  function ShiftTwo(c: Crc, s: bv32): bv32 { Shift(c, Shift(c, s)) }

  function ShiftFour(c: Crc, s: bv32): bv32 { ShiftTwo(c, ShiftTwo(c, s)) }

  lemma {:induction false} ShiftTwoLinear(c: Crc, a: bv32, b: bv32)
    ensures ShiftTwo(c, Xor(a, b)) == Xor(ShiftTwo(c, a), ShiftTwo(c, b))
  {
    hide Shift, Xor;
    ShiftLinear(c, a, b);
    ShiftLinear(c, Shift(c, a), Shift(c, b));
  }

  lemma {:induction false} ShiftFourLinear(c: Crc, a: bv32, b: bv32)
    ensures ShiftFour(c, Xor(a, b)) == Xor(ShiftFour(c, a), ShiftFour(c, b))
  {
    hide ShiftTwo, Xor;
    ShiftTwoLinear(c, a, b);
    ShiftTwoLinear(c, ShiftTwo(c, a), ShiftTwo(c, b));
  }

  lemma {:induction false} ByteMoves(c: Crc, b: bv32)
    requires b & 0xff == b
    ensures Shift(c, b << 8) == b
    ensures Shift(c, b << 16) == b << 8
    ensures Shift(c, b << 24) == b << 16
  {
    hide Shift;
    ByteShifts(b);
    ShiftPlain(c, b << 8);
    ShiftPlain(c, b << 16);
    ShiftPlain(c, b << 24);
  }

  lemma {:induction false} ByteShifts(b: bv32)
    requires b & 0xff == b
    ensures (b << 8) >> 8 == b && (b << 16) >> 8 == b << 8 && (b << 24) >> 8 == b << 16
    ensures (b << 8) & 0xff == 0 && (b << 16) & 0xff == 0 && (b << 24) & 0xff == 0
  {
  }

  /** Four byte steps are a four-byte shift of the register with the whole word put in first. */
  lemma {:induction false} FourFeeds(c: Crc, s: bv32, b0: bv8, b1: bv8, b2: bv8, b3: bv8)
    ensures Feed(c, Feed(c, Feed(c, Feed(c, s, b0), b1), b2), b3) == ShiftFour(c, Xor(s, Word(b0, b1, b2, b3)))
  {
    hide Shift, Xor, Wide, ShiftFour;
    WideFits(b1);
    WideFits(b2);
    WideFits(b3);
    Absorb(c, s, Wide(b0), Wide(b1), Wide(b2), Wide(b3));
  }

  lemma {:induction false} WideFits(b: bv8)
    ensures Wide(b) & 0xff == Wide(b)
  {
  }

  lemma {:induction false} Absorb(c: Crc, s: bv32, w0: bv32, w1: bv32, w2: bv32, w3: bv32)
    requires w1 & 0xff == w1 && w2 & 0xff == w2 && w3 & 0xff == w3
    ensures Shift(c, Xor(Shift(c, Xor(Shift(c, Xor(Shift(c, Xor(s, w0)), w1)), w2)), w3))
         == ShiftFour(c, Xor(s, Xor(Xor(Xor(w0, w1 << 8), w2 << 16), w3 << 24)))
  {
    hide Shift, Xor;
    ByteMoves(c, w1);
    ByteMoves(c, w2);
    ByteMoves(c, w3);
    var x0 := Xor(s, w0);
    var x1 := Xor(x0, w1 << 8);
    var x2 := Xor(x1, w2 << 16);
    ShiftLinear(c, x0, w1 << 8);
    ShiftLinear(c, x1, w2 << 16);
    ShiftLinear(c, Shift(c, x1), w2 << 8);
    ShiftLinear(c, x2, w3 << 24);
    ShiftLinear(c, Shift(c, x2), w3 << 16);
    ShiftLinear(c, Shift(c, Shift(c, x2)), w3 << 8);
    XorAssoc(s, w0, w1 << 8);
    XorAssoc(s, Xor(w0, w1 << 8), w2 << 16);
    XorAssoc(s, Xor(Xor(w0, w1 << 8), w2 << 16), w3 << 24);
  }

  /** The four table reads of the word step. */
  function Lookup(c: Crc, i3: bv32, i2: bv32, i1: bv32, i0: bv32): bv32 {
    Xor(Xor(Xor(Table(c, 3, i3), Table(c, 2, i2)), Table(c, 1, i1)), Table(c, 0, i0))
  }

  /** Byte `k` of a word, the lowest first. */
  function ByteOf(w: bv32, k: nat): bv32 {
    if k == 0 then w & 0xff else if k == 1 then (w >> 8) & 0xff else if k == 2 then (w >> 16) & 0xff else w >> 24
  }

  function Joined(i3: bv32, i2: bv32, i1: bv32, i0: bv32): bv32 {
    Xor(Xor(Xor(i3, i2 << 8), i1 << 16), i0 << 24)
  }

  lemma {:induction false} WordBytes(w: bv32)
    ensures Joined(ByteOf(w, 0), ByteOf(w, 1), ByteOf(w, 2), ByteOf(w, 3)) == w
  {
  }

  lemma {:induction false} TableFour(c: Crc, i: bv32)
    ensures Table(c, 0, i) == Shift(c, i) && Table(c, 1, i) == ShiftTwo(c, i)
    ensures Table(c, 2, i) == Shift(c, ShiftTwo(c, i)) && Table(c, 3, i) == ShiftFour(c, i)
  {
    hide Shift;
    TableStep(c, 0, i);
    TableStep(c, 1, i);
    TableStep(c, 2, i);
  }

  lemma {:induction false} TableStep(c: Crc, row: nat, i: bv32)
    ensures Table(c, row + 1, i) == Shift(c, Table(c, row, i))
  {
    hide Shift;
  }

  /** Slicing: a four-byte shift is four table reads, one for each byte of the word. */
  lemma {:induction false} SliceByFour(c: Crc, w: bv32)
    ensures ShiftFour(c, w) == Lookup(c, ByteOf(w, 0), ByteOf(w, 1), ByteOf(w, 2), ByteOf(w, 3))
  {
    hide ShiftFour, Xor, Lookup, ByteOf, Joined;
    WordBytes(w);
    ByteRange(w, 1);
    ByteRange(w, 2);
    ByteRange(w, 3);
    LookupIs(c, ByteOf(w, 0), ByteOf(w, 1), ByteOf(w, 2), ByteOf(w, 3));
  }

  lemma {:induction false} ByteRange(w: bv32, k: nat)
    ensures ByteOf(w, k) & 0xff == ByteOf(w, k)
  {
  }

  lemma {:induction false} LookupIs(c: Crc, i3: bv32, i2: bv32, i1: bv32, i0: bv32)
    requires i2 & 0xff == i2 && i1 & 0xff == i1 && i0 & 0xff == i0
    ensures ShiftFour(c, Joined(i3, i2, i1, i0)) == Lookup(c, i3, i2, i1, i0)
  {
    hide Shift, Xor, Table;
    ShiftFourLinear(c, Xor(Xor(i3, i2 << 8), i1 << 16), i0 << 24);
    ShiftFourLinear(c, Xor(i3, i2 << 8), i1 << 16);
    ShiftFourLinear(c, i3, i2 << 8);
    TableFour(c, i3);
    TableFour(c, i2);
    TableFour(c, i1);
    TableFour(c, i0);
    ByteMoves(c, i2);
    ByteMoves(c, i1);
    ByteMoves(c, i0);
  }

  /** The step over one word of the input is four steps over its bytes. */
  lemma {:induction false} WordStep(c: Crc, s: bv32, b0: bv8, b1: bv8, b2: bv8, b3: bv8)
    ensures
      var w := Xor(s, Word(b0, b1, b2, b3));
      Lookup(c, ByteOf(w, 0), ByteOf(w, 1), ByteOf(w, 2), ByteOf(w, 3))
      == Feed(c, Feed(c, Feed(c, Feed(c, s, b0), b1), b2), b3)
  {
    hide ShiftFour, Xor, Lookup, Feed, Word, ByteOf;
    FourFeeds(c, s, b0, b1, b2, b3);
    SliceByFour(c, Xor(s, Word(b0, b1, b2, b3)));
  }

  // ----- the register's width

  /** The upper bits a register of this width may use; a 7-bit CRC also holds the bit of the byte just put in. */
  function Reach(width: nat): bv32 {
    if width == 7 then 0xff000000 else Mask(width)
  }

  lemma {:induction false} DivideWithin(width: nat, p: bv32, r: bv32)
    requires Within(p, Mask(width)) && Within(r, Reach(width))
    ensures Within(Divide(p, r), Mask(width)) && Within(Divide(p, r), Reach(width))
  {
  }

  lemma {:induction false} DivideTimesWithin(width: nat, p: bv32, n: nat, r: bv32)
    requires Within(p, Mask(width)) && Within(r, if n == 0 then Mask(width) else Reach(width))
    ensures Within(DivideTimes(p, n, r), Mask(width))
    decreases n
  {
    hide Divide, Within, Mask, Reach;
    if n > 0 {
      DivideWithin(width, p, r);
      DivideTimesWithin(width, p, n - 1, Divide(p, r));
    }
  }

  lemma {:induction false} PolyWithin(c: Crc)
    ensures c.width == 7 || c.width == 8 || c.width == 16 || c.width == 32 ==> Within(Poly(c), Mask(c.width))
  {
  }

  /** A stored register of this CRC. */
  predicate Fits(c: Crc, s: bv32) {
    Within(Flip(c, s), Reach(c.width))
  }

  lemma {:induction false} XorWithin(a: bv32, b: bv32, m: bv32)
    requires Within(a, m) && Within(b, m)
    ensures Within(Xor(a, b), m)
  {
  }

  lemma {:induction false} ShiftFits(c: Crc, s: bv32)
    requires Valid(c) && Fits(c, s)
    ensures Fits(c, Shift(c, s)) && Within(Flip(c, Shift(c, s)), Mask(c.width))
  {
    hide Flip, Within, Mask, Reach, DivideByte, DivideTimes, Poly;
    var r := Flip(c, s);
    PolyWithin(c);
    DivideTimesWithin(c.width, Poly(c), 8, r);
    DivideTimesEight(Poly(c), r);
    FlipTwice(c, DivideByte(Poly(c), r));
    MaskReach(c.width, DivideByte(Poly(c), r));
  }

  lemma {:induction false} MaskReach(width: nat, r: bv32)
    requires Within(r, Mask(width))
    ensures Within(r, Reach(width))
  {
  }

  lemma {:induction false} ByteFits(c: Crc, b: bv8)
    requires Valid(c)
    ensures Fits(c, Wide(b))
  {
  }

  lemma {:induction false} FeedFits(c: Crc, s: bv32, b: bv8)
    requires Valid(c) && Fits(c, s)
    ensures Fits(c, Feed(c, s, b)) && Within(Flip(c, Feed(c, s, b)), Mask(c.width))
  {
    hide Shift, Xor, Wide, Within, Flip;
    ByteFits(c, b);
    FlipLinear(c, s, Wide(b));
    XorWithin(Flip(c, s), Flip(c, Wide(b)), Reach(c.width));
    ShiftFits(c, Xor(s, Wide(b)));
  }

  lemma {:induction false} FoldFits(c: Crc, s: bv32, data: seq<bv8>)
    requires Valid(c) && Fits(c, s)
    ensures Fits(c, Fold(c, s, data))
    decreases |data|
  {
    hide Feed, Fits;
    if data != [] {
      FeedFits(c, s, data[0]);
      FoldFits(c, Feed(c, s, data[0]), data[1..]);
    }
  }

  lemma {:induction false} Fits16(c: Crc, s: bv32)
    requires c.width == 16
    ensures Fits(c, s) <==> s & 0xffff == s
  {
    hide Flip;
    LowHalf(c, s);
    FlipTwice(c, s);
    FlipTwice(c, s & 0xffff);
  }

  lemma {:induction false} LowHalf(c: Crc, s: bv32)
    ensures Flip(c, s & 0xffff) == Flip(c, s) & 0xffff0000
  {
    hide Rev32, BitReverse;
    LowHalfReversed(s);
    LowHalfSwapped(s);
  }

  lemma {:induction false} LowHalfReversed(s: bv32)
    ensures BitReverse(s & 0xffff) == BitReverse(s) & 0xffff0000
  {
  }

  lemma {:induction false} LowHalfSwapped(s: bv32)
    ensures Rev32(s & 0xffff) == Rev32(s) & 0xffff0000
  {
  }

  // ----- the stored register against bit-serial division

  lemma {:induction false} LoadsByte(c: Crc, b: bv8)
    ensures Load(Bits(c.reflected, b)) == Flip(c, Wide(b))
  {
    var s := Bits(c.reflected, b);
    LoadEight(s);
    EightBits(c, b);
  }

  function Eight(b0: bool, b1: bool, b2: bool, b3: bool, b4: bool, b5: bool, b6: bool, b7: bool): bv32 {
    (if b0 then 0x80000000 else 0) | (if b1 then 0x40000000 else 0) | (if b2 then 0x20000000 else 0)
    | (if b3 then 0x10000000 else 0) | (if b4 then 0x08000000 else 0) | (if b5 then 0x04000000 else 0)
    | (if b6 then 0x02000000 else 0) | (if b7 then 0x01000000 else 0)
  }

  lemma {:induction false} LoadFrom(s: seq<bool>, i: nat)
    requires i < |s|
    ensures Load(s[i..]) == Push(s[i], Load(s[i + 1..]))
  {
    hide Push;
    assert s[i..][1..] == s[i + 1..];
  }

  lemma {:induction false} LoadEight(s: seq<bool>)
    requires |s| == 8
    ensures Load(s) == Eight(s[0], s[1], s[2], s[3], s[4], s[5], s[6], s[7])
  {
    hide Push, Eight, Load;
    LoadFrom(s, 0);
    LoadFrom(s, 1);
    LoadFrom(s, 2);
    LoadFrom(s, 3);
    LoadFrom(s, 4);
    LoadFrom(s, 5);
    LoadFrom(s, 6);
    LoadFrom(s, 7);
    assert s[0..] == s && s[8..] == [];
    LoadNothing();
    LoadedEight(s[0], s[1], s[2], s[3], s[4], s[5], s[6], s[7]);
  }

  lemma {:induction false} LoadNothing()
    ensures Load([]) == 0
  {
  }

  lemma {:induction false} LoadedEight(b0: bool, b1: bool, b2: bool, b3: bool, b4: bool, b5: bool, b6: bool, b7: bool)
    ensures Push(b0, Push(b1, Push(b2, Push(b3, Push(b4, Push(b5, Push(b6, Push(b7, 0))))))))
         == Eight(b0, b1, b2, b3, b4, b5, b6, b7)
  {
  }

  lemma {:induction false} EightBits(c: Crc, b: bv8)
    ensures
      var s := Bits(c.reflected, b);
      Eight(s[0], s[1], s[2], s[3], s[4], s[5], s[6], s[7]) == Flip(c, Wide(b))
  {
    hide Eight, BitReverse, Rev32, Wide, BitAt;
    EightReversed(b);
    EightSwapped(b);
  }

  lemma {:induction false} EightReversed(b: bv8)
    ensures Eight(BitAt(b, 1), BitAt(b, 2), BitAt(b, 4), BitAt(b, 8),
                  BitAt(b, 16), BitAt(b, 32), BitAt(b, 64), BitAt(b, 128))
         == BitReverse(Wide(b))
  {
  }

  lemma {:induction false} EightSwapped(b: bv8)
    ensures Eight(BitAt(b, 128), BitAt(b, 64), BitAt(b, 32), BitAt(b, 16),
                  BitAt(b, 8), BitAt(b, 4), BitAt(b, 2), BitAt(b, 1))
         == Rev32(Wide(b))
  {
  }

  /** A byte step on the stored register is eight division steps that take in the byte's bits. */
  lemma {:induction false} FeedDivides(c: Crc, s: bv32, b: bv8)
    ensures Flip(c, Feed(c, s, b)) == Remainder(Poly(c), Flip(c, s), Bits(c.reflected, b))
  {
    hide Flip, Xor, Wide, DivideByte, DivideTimes, Poly, Load, Bits, Remainder;
    var x := Xor(s, Wide(b));
    FlipTwice(c, DivideByte(Poly(c), Flip(c, x)));
    FlipLinear(c, s, Wide(b));
    LoadsByte(c, b);
    Preload(Poly(c), Flip(c, s), Bits(c.reflected, b));
    DivideTimesEight(Poly(c), Flip(c, x));
  }

  /** Over a whole message, the stored register is the dividing register with its bits or bytes reversed. */
  lemma {:induction false} FoldDivides(c: Crc, s: bv32, data: seq<bv8>)
    ensures Flip(c, Fold(c, s, data)) == Remainder(Poly(c), Flip(c, s), MessageBits(c.reflected, data))
    decreases |data|
  {
    hide Flip, Feed, Poly, Bits, Remainder;
    if data == [] {
      NothingDivides(Poly(c), Flip(c, s));
    } else {
      var s1 := Feed(c, s, data[0]);
      FeedDivides(c, s, data[0]);
      FoldDivides(c, s1, data[1..]);
      RemainderAppend(Poly(c), Flip(c, s), Bits(c.reflected, data[0]), MessageBits(c.reflected, data[1..]));
    }
  }

  lemma {:induction false} NothingDivides(p: bv32, r: bv32)
    ensures Remainder(p, r, []) == r
  {
  }

  // ----- what holds of every CRC

  /** Feeding a message in pieces is feeding it at once. */
  lemma {:induction false} FoldAppend(c: Crc, s: bv32, a: seq<bv8>, b: seq<bv8>)
    ensures Fold(c, s, a + b) == Fold(c, Fold(c, s, a), b)
    decreases |a|
  {
    hide Feed;
    if a == [] {
      assert a + b == b;
    } else {
      assert (a + b)[0] == a[0] && (a + b)[1..] == a[1..] + b;
      FoldAppend(c, Feed(c, s, a[0]), a[1..], b);
    }
  }

  lemma {:induction false} RemainderWithin(c: Crc, r: bv32, bits: seq<bool>)
    requires Valid(c) && Within(r, Mask(c.width))
    ensures Within(Remainder(Poly(c), r, bits), Mask(c.width))
    decreases |bits|
  {
    hide Divide, Xor, TopBit, Within, Mask, Poly, Reach;
    if bits != [] {
      var x := Xor(r, TopBit(bits[0]));
      TopWithin(c.width, bits[0]);
      XorWithin(r, TopBit(bits[0]), Mask(c.width));
      MaskReach(c.width, x);
      PolyWithin(c);
      DivideWithin(c.width, Poly(c), x);
      RemainderWithin(c, Divide(Poly(c), x), bits[1..]);
    }
  }

  lemma {:induction false} TopWithin(width: nat, b: bool)
    ensures Within(TopBit(b), Mask(width))
  {
  }

  lemma {:induction false} StartWithin(c: Crc)
    requires Valid(c)
    ensures Within(Start(c), Mask(c.width))
  {
  }

  lemma {:induction false} OutputDistinct(c: Crc, r: bv32, s: bv32)
    requires Valid(c) && Within(r, Mask(c.width)) && Within(s, Mask(c.width)) && r != s
    ensures Output(c, r) != Output(c, s)
  {
    hide BitReverse, Xor;
    var x := if c.reflected then BitReverse(r) else RightAlign(c.width, r);
    var y := if c.reflected then BitReverse(s) else RightAlign(c.width, s);
    if c.reflected {
      BitReverseTwice(r);
      BitReverseTwice(s);
    } else {
      AlignDistinct(c.width, r, s);
    }
    XorCancels(x, c.xorOut);
    XorCancels(y, c.xorOut);
  }

  lemma {:induction false} AlignDistinct(width: nat, r: bv32, s: bv32)
    requires Within(r, Mask(width)) && Within(s, Mask(width)) && r != s
    ensures RightAlign(width, r) != RightAlign(width, s)
  {
  }

  // ----- bursts

  /** A division step loses nothing: only the zero register becomes zero. */
  lemma {:induction false} DivideKeepsNonzero(c: Crc, r: bv32)
    requires Valid(c) && Within(r, Mask(c.width)) && r != 0
    ensures Divide(Poly(c), r) != 0 && Within(Divide(Poly(c), r), Mask(c.width))
  {
    hide Divide, Within, Poly, Mask, Reach;
    PolyWithin(c);
    MaskReach(c.width, r);
    DivideWithin(c.width, Poly(c), r);
    NonzeroStays(c, r);
  }

  lemma {:induction false} NonzeroStays(c: Crc, r: bv32)
    requires Valid(c) && Within(r, Mask(c.width)) && r != 0
    ensures Divide(Poly(c), r) != 0
  {
    if c.width == 7 {
      Nonzero(c.poly, r, 0xfe000000, 0x02000000, c.poly << 25);
    } else if c.width == 8 {
      Nonzero(c.poly, r, 0xff000000, 0x01000000, c.poly << 24);
    } else if c.width == 16 {
      Nonzero(c.poly, r, 0xffff0000, 0x00010000, c.poly << 16);
    } else {
      Nonzero(c.poly, r, 0xffffffff, 0x00000001, c.poly);
    }
  }

  lemma {:induction false} Nonzero(poly: bv32, r: bv32, mask: bv32, low: bv32, p: bv32)
    requires r & mask == r && r != 0 && p & low != 0 && (mask << 1) & low == 0
    ensures Divide(p, r) != 0
  {
  }

  lemma {:induction false} DivideTimesKeepsNonzero(c: Crc, n: nat, r: bv32)
    requires Valid(c) && Within(r, Mask(c.width)) && r != 0
    ensures DivideTimes(Poly(c), n, r) != 0 && Within(DivideTimes(Poly(c), n, r), Mask(c.width))
    decreases n
  {
    hide Divide, Within, Poly, Mask;
    if n > 0 {
      DivideKeepsNonzero(c, r);
      DivideTimesKeepsNonzero(c, n - 1, Divide(Poly(c), r));
    }
  }

  predicate AllFalse(bits: seq<bool>) { forall i | 0 <= i < |bits| :: !bits[i] }

  /** Zero bits are plain division steps. */
  lemma {:induction false} ZeroBits(p: bv32, r: bv32, bits: seq<bool>)
    requires AllFalse(bits)
    ensures Remainder(p, r, bits) == DivideTimes(p, |bits|, r)
    decreases |bits|
  {
    hide Divide, Xor;
    if bits != [] {
      XorZero(r);
      ZeroBits(p, Divide(p, r), bits[1..]);
    }
  }

  lemma {:induction false} ZeroStaysZero(p: bv32, n: nat)
    ensures DivideTimes(p, n, 0) == 0
  {
    hide Divide;
    if n > 0 {
      assert Divide(p, 0) == 0 by { DivideOfZero(p); }
      ZeroStaysZero(p, n - 1);
    }
  }

  lemma {:induction false} DivideOfZero(p: bv32)
    ensures Divide(p, 0) == 0
  {
  }

  /** A nonzero message of at most `width` bits leaves a remainder. */
  lemma {:induction false} ShortMessageRemains(c: Crc, bits: seq<bool>)
    requires Valid(c) && |bits| <= c.width && !AllFalse(bits)
    ensures Remainder(Poly(c), 0, bits) != 0 && Within(Remainder(Poly(c), 0, bits), Mask(c.width))
  {
    hide Remainder, DivideTimes, Load, Within, Poly, Mask, Upper, Xor;
    Preload(Poly(c), 0, bits);
    XorZero(Load(bits));
    if Load(bits) == 0 {
      LoadZero(bits);
    }
    LoadWithin(bits);
    UpperGrows(|bits|, c.width);
    WithinTrans(Load(bits), Upper(|bits|), Upper(c.width));
    assert Upper(c.width) == Mask(c.width) by { MaskIsUpper(c.width); }
    DivideTimesKeepsNonzero(c, |bits|, Load(bits));
  }

  lemma {:induction false} MaskIsUpper(width: nat)
    requires width == 7 || width == 8 || width == 16 || width == 32
    ensures Upper(width) == Mask(width)
  {
    UpperValues();
  }

  lemma {:induction false} UpperGrows(m: nat, n: nat)
    requires m <= n
    ensures Within(Upper(m), Upper(n))
    decreases m
  {
    hide Within, Grow;
    if m == 0 {
      ZeroWithinAny(Upper(n));
    } else {
      UpperGrows(m - 1, n - 1);
      UpperStep(Upper(m - 1), Upper(n - 1));
    }
  }

  lemma {:induction false} ZeroWithinAny(m: bv32)
    ensures Within(0, m)
  {
  }

  lemma {:induction false} UpperStep(a: bv32, b: bv32)
    requires Within(a, b)
    ensures Within(Grow(a), Grow(b))
  {
  }

  lemma {:induction false} WithinTrans(a: bv32, b: bv32, m: bv32)
    requires Within(a, b) && Within(b, m)
    ensures Within(a, m)
  {
  }

  predicate FalseOutside(bits: seq<bool>, k: nat, width: nat) {
    forall i | 0 <= i < |bits| && !(k <= i < k + width) :: !bits[i]
  }

  lemma {:induction false} TrueInside(bits: seq<bool>, k: nat, width: nat) returns (j: nat)
    requires !AllFalse(bits) && FalseOutside(bits, k, width)
    ensures k <= j < k + width && j < |bits| && bits[j]
  {
    j :| 0 <= j < |bits| && bits[j];
  }

  lemma {:induction false} TrueWithin(bits: seq<bool>, k: nat, e: nat, j: nat)
    requires k <= j < e <= |bits| && bits[j]
    ensures !AllFalse(bits[k..e])
  {
    assert bits[k..e][j - k];
  }

  lemma {:induction false} BurstParts(bits: seq<bool>, k: nat, width: nat)
      returns (before: seq<bool>, window: seq<bool>, after: seq<bool>)
    requires !AllFalse(bits) && FalseOutside(bits, k, width)
    ensures bits == before + (window + after)
    ensures AllFalse(before) && AllFalse(after) && !AllFalse(window) && |window| <= width
  {
    hide AllFalse, FalseOutside;
    var j := TrueInside(bits, k, width);
    var e := if k + width <= |bits| then k + width else |bits|;
    before, window, after := bits[..k], bits[k..e], bits[e..];
    Sandwich(bits, k, e);
    TrueWithin(bits, k, e, j);
    OutsideFalse(bits, k, width, 0, k);
    OutsideFalse(bits, k, width, e, |bits|);
    assert bits[0..k] == before && bits[e..|bits|] == after;
  }

  lemma {:induction false} Sandwich(bits: seq<bool>, k: nat, e: nat)
    requires k <= e <= |bits|
    ensures bits == bits[..k] + (bits[k..e] + bits[e..])
  {
  }

  lemma {:induction false} OutsideFalse(bits: seq<bool>, k: nat, width: nat, from: nat, to: nat)
    requires FalseOutside(bits, k, width) && from <= to <= |bits| && (to <= k || k + width <= from || from == to)
    ensures AllFalse(bits[from..to])
  {
    forall i | 0 <= i < to - from ensures !bits[from..to][i] {
      assert bits[from..to][i] == bits[from + i];
    }
  }

  /** Difference bits that are zero outside `width` consecutive places, but not zero, leave a remainder. */
  lemma {:induction false} BurstRemains(c: Crc, bits: seq<bool>, k: nat)
    requires Valid(c) && !AllFalse(bits) && FalseOutside(bits, k, c.width)
    ensures Remainder(Poly(c), 0, bits) != 0
  {
    hide Remainder, DivideTimes, Within, Poly, Mask, Xor, Valid, AllFalse, FalseOutside;
    var p := Poly(c);
    var before, window, after := BurstParts(bits, k, c.width);
    ZeroBits(p, 0, before);
    ZeroStaysZero(p, |before|);
    RemainderAppend(p, 0, before, window + after);
    ShortMessageRemains(c, window);
    RemainderAppend(p, 0, window, after);
    ZeroBits(p, Remainder(p, 0, window), after);
    DivideTimesKeepsNonzero(c, |after|, Remainder(p, 0, window));
  }

  lemma {:induction false} BitsDistinct(reflected: bool, x: bv8, y: bv8)
    requires x != y
    ensures Bits(reflected, x) != Bits(reflected, y)
  {
    if Bits(reflected, x) == Bits(reflected, y) {
      BitsDetermine(reflected, x, y);
    }
  }

  lemma {:induction false} BitsDetermine(reflected: bool, x: bv8, y: bv8)
    requires Bits(reflected, x) == Bits(reflected, y)
    ensures x == y
  {
    hide BitAt;
    var s, t := Bits(reflected, x), Bits(reflected, y);
    assert s[0] == t[0] && s[1] == t[1] && s[2] == t[2] && s[3] == t[3];
    assert s[4] == t[4] && s[5] == t[5] && s[6] == t[6] && s[7] == t[7];
    SameBits(x, y);
  }

  lemma {:induction false} SameBits(x: bv8, y: bv8)
    requires BitAt(x, 1) == BitAt(y, 1) && BitAt(x, 2) == BitAt(y, 2)
    requires BitAt(x, 4) == BitAt(y, 4) && BitAt(x, 8) == BitAt(y, 8)
    requires BitAt(x, 16) == BitAt(y, 16) && BitAt(x, 32) == BitAt(y, 32)
    requires BitAt(x, 64) == BitAt(y, 64) && BitAt(x, 128) == BitAt(y, 128)
    ensures x == y
  {
  }

  lemma {:induction false} MessageBitsDistinct(reflected: bool, a: seq<bv8>, b: seq<bv8>)
    requires |a| == |b| && a != b
    ensures MessageBits(reflected, a) != MessageBits(reflected, b)
    decreases |a|
  {
    hide Bits;
    var s, t := MessageBits(reflected, a), MessageBits(reflected, b);
    assert s[..8] == Bits(reflected, a[0]) && s[8..] == MessageBits(reflected, a[1..]);
    assert t[..8] == Bits(reflected, b[0]) && t[8..] == MessageBits(reflected, b[1..]);
    if a[0] != b[0] {
      BitsDistinct(reflected, a[0], b[0]);
    } else {
      assert a == [a[0]] + a[1..] && b == [b[0]] + b[1..];
      MessageBitsDistinct(reflected, a[1..], b[1..]);
    }
  }

  lemma {:induction false} SameWhereZero(s: seq<bool>, t: seq<bool>)
    requires |s| == |t|
    ensures AllFalse(XorBits(s, t)) ==> s == t
  {
    if AllFalse(XorBits(s, t)) {
      forall i | 0 <= i < |s| ensures s[i] == t[i] {
        assert !XorBits(s, t)[i];
      }
    }
  }

  /**
   * Burst detection: two messages of the same length that differ, in the order their bits are sent,
   * only inside `width` consecutive places have different CRCs.
   */
  lemma {:induction false} BurstDetected(c: Crc, a: seq<bv8>, b: seq<bv8>, k: nat)
    requires Valid(c) && |a| == |b| && a != b
    requires
      var s, t := MessageBits(c.reflected, a), MessageBits(c.reflected, b);
      forall i | 0 <= i < |s| && !(k <= i < k + c.width) :: s[i] == t[i]
    ensures Textbook(c, a) != Textbook(c, b)
  {
    hide Remainder, Within, Poly, Mask, Xor, Valid, MessageBits, Output, Start;
    var s, t := MessageBits(c.reflected, a), MessageBits(c.reflected, b);
    MessageBitsDistinct(c.reflected, a, b);
    var d := XorBits(s, t);
    SameWhereZero(s, t);
    BurstRemains(c, d, k);
    RemainderLinear(Poly(c), Start(c), Start(c), s, t);
    XorZero(Start(c));
    var r, q := Remainder(Poly(c), Start(c), s), Remainder(Poly(c), Start(c), t);
    XorCancels(r, q);
    StartWithin(c);
    RemainderWithin(c, Start(c), s);
    RemainderWithin(c, Start(c), t);
    OutputDistinct(c, r, q);
  }

  /** Every CRC of the library detects bursts of its width: all their polynomials have a constant term. */
  lemma {:induction false} LibraryDetectsBursts(c: Crc, a: seq<bv8>, b: seq<bv8>, k: nat)
    requires c == CRC7 || c == SMBUS || c == MAXIM || c == CCITT || c == MCRF4XX || c == MODBUS || c == KERMIT
          || c == XMODEM || c == X25 || c == CRC32 || c == CKSUM
    requires |a| == |b| && a != b
    requires
      var s, t := MessageBits(c.reflected, a), MessageBits(c.reflected, b);
      forall i | 0 <= i < |s| && !(k <= i < k + c.width) :: s[i] == t[i]
    ensures Textbook(c, a) != Textbook(c, b)
  {
    hide Textbook, MessageBits;
    BurstDetected(c, a, b, k);
  }

  // ----- linearity over whole messages

  function XorBytes(a: seq<bv8>, b: seq<bv8>): (r: seq<bv8>)
    requires |a| == |b|
    ensures |r| == |a|
  {
    seq(|a|, i requires 0 <= i < |a| => a[i] ^ b[i])
  }

  lemma {:induction false} XorOfBits(reflected: bool, x: bv8, y: bv8)
    ensures Bits(reflected, x ^ y) == XorBits(Bits(reflected, x), Bits(reflected, y))
  {
    hide BitAt, Bits, XorBits;
    var s, t, u := Bits(reflected, x), Bits(reflected, y), Bits(reflected, x ^ y);
    forall i | 0 <= i < 8 ensures u[i] == (s[i] != t[i]) {
      BitsAt(reflected, x, i);
      BitsAt(reflected, y, i);
      BitsAt(reflected, x ^ y, i);
      BitXor(x, y, PlaceMask(reflected, i));
    }
    XorBitsIs(s, t, u);
  }

  /** The mask of the bit that is sent as number `i`. */
  function PlaceMask(reflected: bool, i: nat): (m: bv8)
    requires i < 8
    ensures m == 1 || m == 2 || m == 4 || m == 8 || m == 16 || m == 32 || m == 64 || m == 128
  {
    var k := if reflected then i else 7 - i;
    if k == 0 then 1 else if k == 1 then 2 else if k == 2 then 4 else if k == 3 then 8
    else if k == 4 then 16 else if k == 5 then 32 else if k == 6 then 64 else 128
  }

  lemma {:induction false} BitsAt(reflected: bool, b: bv8, i: nat)
    requires i < 8
    ensures Bits(reflected, b)[i] == BitAt(b, PlaceMask(reflected, i))
  {
    hide BitAt;
  }

  lemma {:induction false} XorBitsIs(s: seq<bool>, t: seq<bool>, u: seq<bool>)
    requires |s| == |t| == |u| && forall i | 0 <= i < |u| :: u[i] == (s[i] != t[i])
    ensures u == XorBits(s, t)
  {
  }

  lemma {:induction false} BitXor(x: bv8, y: bv8, mask: bv8)
    requires mask == 1 || mask == 2 || mask == 4 || mask == 8 || mask == 16 || mask == 32 || mask == 64 || mask == 128
    ensures BitAt(x ^ y, mask) == (BitAt(x, mask) != BitAt(y, mask))
  {
  }

  lemma {:induction false} XorOfMessages(reflected: bool, a: seq<bv8>, b: seq<bv8>)
    requires |a| == |b|
    ensures MessageBits(reflected, XorBytes(a, b)) == XorBits(MessageBits(reflected, a), MessageBits(reflected, b))
    decreases |a|
  {
    hide Bits, XorBits;
    if a == [] {
      assert XorBytes(a, b) == [];
      NoBits();
    } else {
      XorBytesUnfold(a, b);
      XorOfBits(reflected, a[0], b[0]);
      XorOfMessages(reflected, a[1..], b[1..]);
      XorBitsAppend(Bits(reflected, a[0]), Bits(reflected, b[0]),
                    MessageBits(reflected, a[1..]), MessageBits(reflected, b[1..]));
    }
  }

  lemma {:induction false} NoBits()
    ensures XorBits([], []) == []
  {
  }

  lemma {:induction false} XorBytesUnfold(a: seq<bv8>, b: seq<bv8>)
    requires |a| == |b| > 0
    ensures XorBytes(a, b)[0] == a[0] ^ b[0] && XorBytes(a, b)[1..] == XorBytes(a[1..], b[1..])
  {
  }

  lemma {:induction false} XorBitsAppend(a: seq<bool>, b: seq<bool>, c: seq<bool>, d: seq<bool>)
    requires |a| == |b| && |c| == |d|
    ensures XorBits(a + c, b + d) == XorBits(a, b) + XorBits(c, d)
  {
  }

  lemma {:induction false} OutputLinear(c: Crc, r: bv32, s: bv32, t: bv32)
    ensures Output(c, Xor(Xor(r, s), t)) == Xor(Xor(Output(c, r), Output(c, s)), Output(c, t))
  {
    hide Xor, BitReverse, RightAlign;
    var x, y, z, o := Read(c, r), Read(c, s), Read(c, t), c.xorOut;
    ReadLinear(c, Xor(r, s), t);
    ReadLinear(c, r, s);
    XorSwap(x, o, y, o);
    XorZero(o);
    XorZero(Xor(x, y));
    XorAssoc(Xor(x, y), z, o);
  }

  function Read(c: Crc, r: bv32): bv32 {
    if c.reflected then BitReverse(r) else RightAlign(c.width, r)
  }

  lemma {:induction false} ReadLinear(c: Crc, r: bv32, s: bv32)
    ensures Read(c, Xor(r, s)) == Xor(Read(c, r), Read(c, s))
  {
    hide Xor, BitReverse, RightAlign;
    BitReverseLinear(r, s);
    RightAlignLinear(c.width, r, s);
  }

  lemma {:induction false} RightAlignLinear(width: nat, r: bv32, s: bv32)
    ensures RightAlign(width, Xor(r, s)) == Xor(RightAlign(width, r), RightAlign(width, s))
  {
    hide Xor;
    if width == 7 {
      Xor25(r, s);
    } else if width == 8 {
      Xor24(r, s);
    } else if width == 16 {
      hide RightAlign;
      Xor16(r, s, Xor(r, s));
      RightAlign16(r);
      RightAlign16(s);
      RightAlign16(Xor(r, s));
    }
  }

  lemma {:induction false} RightAlign16(x: bv32)
    ensures RightAlign(16, x) == x >> 16
  {
  }

  lemma {:induction false} Xor25(r: bv32, s: bv32)
    ensures Xor(r, s) >> 25 == Xor(r >> 25, s >> 25)
  {
    hide Xor;
    XorIs(r, s);
    XorIs(r >> 25, s >> 25);
  }

  lemma {:induction false} Xor24(r: bv32, s: bv32)
    ensures Xor(r, s) >> 24 == Xor(r >> 24, s >> 24)
  {
    hide Xor;
    XorIs(r, s);
    XorIs(r >> 24, s >> 24);
  }

  lemma {:induction false} Xor16(r: bv32, s: bv32, t: bv32)
    requires t == Xor(r, s)
    ensures t >> 16 == Xor(r >> 16, s >> 16)
  {
    hide Xor;
    XorIs(r, s);
    XorIs(r >> 16, s >> 16);
  }

  /** CRCs of messages of one length are affine under XOR, whatever the start value and the final XOR. */
  lemma {:induction false} CrcAffine(c: Crc, a: seq<bv8>, b: seq<bv8>, d: seq<bv8>)
    requires |a| == |b| == |d|
    ensures Textbook(c, XorBytes(XorBytes(a, b), d)) == Xor(Xor(Textbook(c, a), Textbook(c, b)), Textbook(c, d))
  {
    hide Remainder, Xor, Output, MessageBits, Poly, Start;
    var p, r := Poly(c), Start(c);
    var s, t, u := MessageBits(c.reflected, a), MessageBits(c.reflected, b), MessageBits(c.reflected, d);
    XorOfMessages(c.reflected, a, b);
    XorOfMessages(c.reflected, XorBytes(a, b), d);
    XorZero(r);
    RemainderLinear(p, r, r, s, t);
    RemainderLinear(p, 0, r, XorBits(s, t), u);
    OutputLinear(c, Remainder(p, r, s), Remainder(p, r, t), Remainder(p, r, u));
  }

  // ----- residues

  function Complement(x: bv32): bv32 { Xor(x, 0xffffffff) }

  function LittleEndian4(x: bv32): seq<bv8> {
    [(x & 0xff) as bv8, ((x >> 8) & 0xff) as bv8, ((x >> 16) & 0xff) as bv8, (x >> 24) as bv8]
  }

  function LittleEndian2(x: bv32): seq<bv8> {
    [(x & 0xff) as bv8, ((x >> 8) & 0xff) as bv8]
  }

  const CRC32_RESIDUE: bv32 := 0xdebb20e3
  const X25_RESIDUE: bv32 := 0xf0b8

  /**
   * Whatever the message and the seed, the little-endian CRC behind it leaves the register of
   * crc32 at one constant (appendix C of RFC 1662).
   */
  lemma {:induction false} Crc32Residue(s: bv32, data: seq<bv8>)
    ensures Fold(CRC32, s, data + LittleEndian4(Complement(Fold(CRC32, s, data)))) == CRC32_RESIDUE
  {
    hide Feed, Xor, Shift, Complement, LittleEndian4;
    var r := Fold(CRC32, s, data);
    var w := Complement(r);
    FoldAppend(CRC32, s, data, LittleEndian4(w));
    FoldWord(CRC32, r, w);
    ComplementAway(r);
    OnesShiftedFour();
  }

  lemma {:induction false} ComplementAway(r: bv32)
    ensures Xor(r, Complement(r)) == 0xffffffff
  {
    hide Xor;
    XorAssoc(r, r, 0xffffffff);
    XorZero(r);
    XorZero(0xffffffff);
  }

  lemma {:induction false} OnesShiftedFour()
    ensures ShiftFour(CRC32, 0xffffffff) == CRC32_RESIDUE
  {
    hide DivideByte, Flip, Poly;
    PolyValues();
    FlipValues();
    ShiftTwoDivides(CRC32, 0xffffffff);
    ShiftTwoDivides(CRC32, ShiftTwo(CRC32, 0xffffffff));
    FlipTwice(CRC32, DivideByte(Poly(CRC32), DivideByte(Poly(CRC32), Flip(CRC32, 0xffffffff))));
    OnesDivided32();
  }

  lemma {:induction false} ShiftTwoDivides(c: Crc, s: bv32)
    ensures ShiftTwo(c, s) == Flip(c, DivideByte(Poly(c), DivideByte(Poly(c), Flip(c, s))))
  {
    hide Flip, DivideByte, Poly;
    FlipTwice(c, DivideByte(Poly(c), Flip(c, s)));
  }

  lemma {:induction false} PolyValues()
    ensures Poly(CRC32) == 0x04c11db7 && Poly(X25) == 0x10210000
  {
  }

  lemma {:induction false} FlipValues()
    ensures Flip(CRC32, 0xffffffff) == 0xffffffff && Flip(CRC32, 0xc704dd7b) == CRC32_RESIDUE
    ensures Flip(X25, 0xffff) == 0xffff0000 && Flip(X25, 0x1d0f0000) == X25_RESIDUE
  {
  }

  lemma {:induction false} OnesDivided32()
    ensures
      DivideByte(0x04c11db7, DivideByte(0x04c11db7, DivideByte(0x04c11db7, DivideByte(0x04c11db7, 0xffffffff))))
      == 0xc704dd7b
  {
    assert DivideByte(0x04c11db7, 0xffffffff) == 0x4e08bfb4;
    assert DivideByte(0x04c11db7, 0x4e08bfb4) == 0x00b7647d;
    assert DivideByte(0x04c11db7, 0x00b7647d) == 0xb7647d00;
    assert DivideByte(0x04c11db7, 0xb7647d00) == 0xc704dd7b;
  }

  lemma {:induction false} FoldWord(c: Crc, s: bv32, w: bv32)
    ensures Fold(c, s, LittleEndian4(w)) == ShiftFour(c, Xor(s, w))
  {
    hide Feed, Xor, ShiftFour, Word;
    var b := LittleEndian4(w);
    FoldFour(c, s, b);
    FourFeeds(c, s, b[0], b[1], b[2], b[3]);
    WordOfBytes(w);
  }

  lemma {:induction false} WordOfBytes(w: bv32)
    ensures Word((w & 0xff) as bv8, ((w >> 8) & 0xff) as bv8, ((w >> 16) & 0xff) as bv8, (w >> 24) as bv8) == w
  {
  }

  lemma {:induction false} FoldFour(c: Crc, s: bv32, b: seq<bv8>)
    requires |b| == 4
    ensures Fold(c, s, b) == Feed(c, Feed(c, Feed(c, Feed(c, s, b[0]), b[1]), b[2]), b[3])
  {
    hide Feed;
    FoldTwo(c, s, b[..2]);
    FoldTwo(c, Fold(c, s, b[..2]), b[2..]);
    FoldAppend(c, s, b[..2], b[2..]);
    assert b[..2] + b[2..] == b;
  }

  lemma {:induction false} FoldTwo(c: Crc, s: bv32, b: seq<bv8>)
    requires |b| == 2
    ensures Fold(c, s, b) == Feed(c, Feed(c, s, b[0]), b[1])
  {
    hide Feed;
    assert b[1..] == [b[1]] && b[1..][1..] == [];
    assert Fold(c, Feed(c, s, b[0]), b[1..]) == Fold(c, Feed(c, Feed(c, s, b[0]), b[1]), []);
  }

  /** The same for x25 with its two bytes. */
  lemma {:induction false} X25Residue(s: bv32, data: seq<bv8>)
    requires s & 0xffff == s
    ensures Fold(X25, s, data + LittleEndian2(Xor(Fold(X25, s, data), 0xffff))) == X25_RESIDUE
  {
    hide Feed, Xor, Shift, LittleEndian2, Fits, Fold;
    var r := Fold(X25, s, data);
    var w := Xor(r, 0xffff);
    FoldAppend(X25, s, data, LittleEndian2(w));
    Fits16(X25, s);
    FoldFits(X25, s, data);
    Fits16(X25, r);
    HalfAway(r);
    FoldHalf(X25, r, w);
    OnesShiftedTwo();
  }

  lemma {:induction false} HalfAway(r: bv32)
    requires r & 0xffff == r
    ensures Xor(r, Xor(r, 0xffff)) == 0xffff && Xor(r, 0xffff) & 0xffff == Xor(r, 0xffff)
  {
    XorAssoc(r, r, 0xffff);
  }

  lemma {:induction false} OnesShiftedTwo()
    ensures ShiftTwo(X25, 0xffff) == X25_RESIDUE
  {
    hide DivideByte, Flip, Poly;
    PolyValues();
    FlipValues();
    ShiftTwoDivides(X25, 0xffff);
    OnesDivided16();
  }

  lemma {:induction false} OnesDivided16()
    ensures DivideByte(0x10210000, DivideByte(0x10210000, 0xffff0000)) == 0x1d0f0000
  {
    assert DivideByte(0x10210000, 0xffff0000) == 0xe1f00000;
    assert DivideByte(0x10210000, 0xe1f00000) == 0x1d0f0000;
  }

  function Pair(w0: bv32, w1: bv32): bv32 { Xor(w0, w1 << 8) }

  lemma {:induction false} FoldHalf(c: Crc, s: bv32, w: bv32)
    requires w & 0xffff == w
    ensures Fold(c, s, LittleEndian2(w)) == ShiftTwo(c, Xor(s, w))
  {
    hide Feed, Xor, ShiftTwo, Pair, Wide, Fold;
    var b := LittleEndian2(w);
    FoldTwo(c, s, b);
    HalfFeeds(c, s, b[0], b[1]);
    HalfBytes(w);
  }

  lemma {:induction false} HalfBytes(w: bv32)
    requires w & 0xffff == w
    ensures Pair(Wide((w & 0xff) as bv8), Wide(((w >> 8) & 0xff) as bv8)) == w
  {
  }

  lemma {:induction false} HalfFeeds(c: Crc, s: bv32, b0: bv8, b1: bv8)
    ensures Feed(c, Feed(c, s, b0), b1) == ShiftTwo(c, Xor(s, Pair(Wide(b0), Wide(b1))))
  {
    hide Shift, Xor, Wide, ShiftTwo, Pair;
    WideFits(b1);
    HalfAbsorb(c, s, Wide(b0), Wide(b1));
  }

  lemma {:induction false} HalfAbsorb(c: Crc, s: bv32, w0: bv32, w1: bv32)
    requires w1 & 0xff == w1
    ensures Shift(c, Xor(Shift(c, Xor(s, w0)), w1)) == ShiftTwo(c, Xor(s, Pair(w0, w1)))
  {
    hide Shift, Xor;
    ByteMoves(c, w1);
    ShiftLinear(c, Xor(s, w0), w1 << 8);
    XorAssoc(s, w0, w1 << 8);
  }
}
