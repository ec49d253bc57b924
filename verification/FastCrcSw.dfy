/** The update functions of FastCRCsw.cpp: alignment prologue, sixteen bytes at a time, byte tail. */
module FastCrcSw {
  import opened FastCrc

  type uint8 = x: bv32 | x & 0xff == x

  type uint16 = x: bv32 | x & 0xffff == x

  /** A 32-bit value assigned to a uint16_t. */
  function Truncate(x: bv32): uint16 { x & 0xffff }

  /** The byte step of the 32-bit functions. */
  function ByteStep(c: Crc, crc: bv32, b: bv8): bv32 {
    Xor(crc >> 8, Table(c, 0, Xor(crc & 0xff, Wide(b))))
  }

  /** crc_n4d, with the word read from the buffer. */
  function Slice32(c: Crc, crc: bv32, data: bv32): bv32 {
    var x := Xor(crc, data);
    Lookup(c, ByteOf(x, 0), ByteOf(x, 1), ByteOf(x, 2), ByteOf(x, 3))
  }

  /** crcsm_n4d, the word step with one 256-entry table. */
  function Small32(c: Crc, crc: bv32, data: bv32): bv32 {
    ZeroStep(c, ZeroStep(c, ZeroStep(c, ZeroStep(c, Xor(crc, data)))))
  }

  /** crc_n4 on a 16-bit register: the upper two bytes are the data's own. */
  function Slice16(c: Crc, crc: uint16, data: bv32): uint16 {
    var x := Truncate(Xor(crc, data));
    Truncate(Lookup(c, x & 0xff, (x >> 8) & 0xff, (data >> 16) & 0xff, data >> 24))
  }

  /** A little-endian 32-bit load. */
  function WordAt(data: seq<bv8>, i: nat): bv32
    requires i + 4 <= |data|
  {
    Word(data[i], data[i + 1], data[i + 2], data[i + 3])
  }

  function FourFed(c: Crc, s: bv32, data: seq<bv8>, i: nat): bv32
    requires i + 4 <= |data|
  {
    Feed(c, Feed(c, Feed(c, Feed(c, s, data[i]), data[i + 1]), data[i + 2]), data[i + 3])
  }

  lemma {:induction false} ByteStepFeeds(c: Crc, crc: bv32, b: bv8)
    ensures ByteStep(c, crc, b) == Feed(c, crc, b)
  {
    hide Shift, Xor, Wide, Table;
    ShiftByTable(c, Xor(crc, Wide(b)));
    ByteEnters(crc, b);
  }

  lemma {:induction false} ByteEnters(crc: bv32, b: bv8)
    ensures Xor(crc, Wide(b)) >> 8 == crc >> 8
    ensures Xor(crc, Wide(b)) & 0xff == Xor(crc & 0xff, Wide(b))
  {
  }

  lemma {:induction false} Slice32Feeds(c: Crc, s: bv32, data: seq<bv8>, i: nat)
    requires i + 4 <= |data|
    ensures Slice32(c, s, WordAt(data, i)) == FourFed(c, s, data, i)
  {
    hide Lookup, Xor, Feed, Word, ByteOf;
    WordStep(c, s, data[i], data[i + 1], data[i + 2], data[i + 3]);
  }

  lemma {:induction false} Small32Feeds(c: Crc, s: bv32, data: seq<bv8>, i: nat)
    requires i + 4 <= |data|
    ensures Small32(c, s, WordAt(data, i)) == FourFed(c, s, data, i)
  {
    hide Shift, Xor, Feed, Word, ZeroStep;
    var w := Xor(s, WordAt(data, i));
    FourFeeds(c, s, data[i], data[i + 1], data[i + 2], data[i + 3]);
    ShiftByTable(c, w);
    ShiftByTable(c, Shift(c, w));
    ShiftByTable(c, Shift(c, Shift(c, w)));
    ShiftByTable(c, Shift(c, Shift(c, Shift(c, w))));
  }

  lemma {:induction false} Slice16Bytes(crc: uint16, data: bv32)
    ensures
      var w := Xor(crc, data);
      var x := Truncate(w);
      && x & 0xff == ByteOf(w, 0) && (x >> 8) & 0xff == ByteOf(w, 1)
      && (data >> 16) & 0xff == ByteOf(w, 2) && data >> 24 == ByteOf(w, 3)
  {
    hide Xor;
    LowerBytes(Xor(crc, data));
    UpperBytes(crc, data);
  }

  lemma {:induction false} LowerBytes(w: bv32)
    ensures Truncate(w) & 0xff == ByteOf(w, 0) && (Truncate(w) >> 8) & 0xff == ByteOf(w, 1)
  {
  }

  lemma {:induction false} UpperBytes(crc: uint16, data: bv32)
    ensures (data >> 16) & 0xff == ByteOf(Xor(crc, data), 2) && data >> 24 == ByteOf(Xor(crc, data), 3)
  {
  }

  /** The 16-bit register steps over a word as a 32-bit one with its upper half clear would. */
  lemma {:induction false} Slice16Feeds(c: Crc, s: uint16, data: seq<bv8>, i: nat)
    requires Valid(c) && c.width == 16 && i + 4 <= |data|
    ensures Slice16(c, s, WordAt(data, i)) == FourFed(c, s, data, i)
  {
    hide Lookup, Xor, Feed, Word, ByteOf, Fits, Truncate, Valid;
    Slice16Bytes(s, WordAt(data, i));
    WordStep(c, s, data[i], data[i + 1], data[i + 2], data[i + 3]);
    FedFits(c, s, data, i);
    TruncateFits(FourFed(c, s, data, i));
  }

  lemma {:induction false} TruncateFits(x: bv32)
    requires x & 0xffff == x
    ensures Truncate(x) == x
  {
  }

  lemma {:induction false} FedFits(c: Crc, s: uint16, data: seq<bv8>, i: nat)
    requires Valid(c) && c.width == 16 && i + 4 <= |data|
    ensures FourFed(c, s, data, i) & 0xffff == FourFed(c, s, data, i)
  {
    hide Feed, Fits, Valid;
    FeedFits16(c, s, data[i]);
    FeedFits16(c, Feed(c, s, data[i]), data[i + 1]);
    FeedFits16(c, Feed(c, Feed(c, s, data[i]), data[i + 1]), data[i + 2]);
    FeedFits16(c, Feed(c, Feed(c, Feed(c, s, data[i]), data[i + 1]), data[i + 2]), data[i + 3]);
  }

  lemma {:induction false} FeedFits16(c: Crc, s: uint16, b: bv8)
    requires Valid(c) && c.width == 16
    ensures Feed(c, s, b) & 0xffff == Feed(c, s, b)
  {
    hide Feed, Fits, Valid;
    Fits16(c, s);
    FeedFits(c, s, b);
    Fits16(c, Feed(c, s, b));
  }

  /** What is left of the buffer after one byte, and after one word. */
  lemma {:induction false} FoldByte(c: Crc, s: bv32, data: seq<bv8>, i: nat)
    requires i < |data|
    ensures Fold(c, s, data[i..]) == Fold(c, Feed(c, s, data[i]), data[i + 1..])
  {
    hide Feed;
    assert data[i..][1..] == data[i + 1..];
  }

  lemma {:induction false} FoldWordAt(c: Crc, s: bv32, data: seq<bv8>, i: nat)
    requires i + 4 <= |data|
    ensures Fold(c, s, data[i..]) == Fold(c, FourFed(c, s, data, i), data[i + 4..])
  {
    hide Feed, Fold;
    var s1 := Feed(c, s, data[i]);
    var s2 := Feed(c, s1, data[i + 1]);
    var s3 := Feed(c, s2, data[i + 2]);
    FoldByte(c, s, data, i);
    FoldByte(c, s1, data, i + 1);
    FoldByte(c, s2, data, i + 2);
    FoldByte(c, s3, data, i + 3);
  }

  lemma {:induction false} FoldNothing(c: Crc, s: bv32)
    ensures Fold(c, s, []) == s
  {
  }

  /**
   * The body of crc32_upd and cksum_upd, for a buffer at any address: the register ends as it would
   * after feeding the bytes one by one. `bigTables` is the library's compile-time choice.
   */
  method Update32(c: Crc, seed: bv32, data: seq<bv8>, addr: nat, bigTables: bool) returns (crc: bv32)
    ensures crc == Fold(c, seed, data)
  {
    hide Feed, Fold, ByteStep, Slice32, Small32, WordAt, FourFed;
    crc := seed;
    var i: nat, len: nat := 0, |data|;
    assert data[0..] == data;
    while (addr + i) % 4 != 0 && len > 0
      decreases len
      invariant i + len == |data|
      invariant Fold(c, crc, data[i..]) == Fold(c, seed, data)
    {
      FoldByte(c, crc, data, i);
      ByteStepFeeds(c, crc, data[i]);
      crc := ByteStep(c, crc, data[i]);
      i, len := i + 1, len - 1;
    }
    while len >= 16
      invariant i + len == |data|
      invariant Fold(c, crc, data[i..]) == Fold(c, seed, data)
    {
      len := len - 16;
      crc := WordUpdate32(c, crc, data, i, bigTables);
      crc := WordUpdate32(c, crc, data, i + 4, bigTables);
      crc := WordUpdate32(c, crc, data, i + 8, bigTables);
      crc := WordUpdate32(c, crc, data, i + 12, bigTables);
      i := i + 16;
    }
    while len > 0
      invariant i + len == |data|
      invariant Fold(c, crc, data[i..]) == Fold(c, seed, data)
    {
      FoldByte(c, crc, data, i);
      ByteStepFeeds(c, crc, data[i]);
      crc := ByteStep(c, crc, data[i]);
      i, len := i + 1, len - 1;
    }
    FoldNothing(c, crc);
    assert data[i..] == [];
  }

  /** One word step on the word at offset `i`. */
  method WordUpdate32(c: Crc, crc: bv32, data: seq<bv8>, i: nat, bigTables: bool) returns (next: bv32)
    requires i + 4 <= |data|
    ensures Fold(c, next, data[i + 4..]) == Fold(c, crc, data[i..])
  {
    hide Feed, Fold, Slice32, Small32, WordAt, FourFed;
    FoldWordAt(c, crc, data, i);
    if bigTables {
      Slice32Feeds(c, crc, data, i);
      next := Slice32(c, crc, WordAt(data, i));
    } else {
      Small32Feeds(c, crc, data, i);
      next := Small32(c, crc, WordAt(data, i));
    }
  }

  /** The body that the six 16-bit functions share but for their table. */
  method Update16(c: Crc, seed: uint16, data: seq<bv8>, addr: nat) returns (crc: uint16)
    requires Valid(c) && c.width == 16
    ensures crc == Fold(c, seed, data)
  {
    hide Feed, Fold, ByteStep, Slice16, WordAt, FourFed, Truncate, Valid;
    crc := seed;
    var i: nat, len: nat := 0, |data|;
    assert data[0..] == data;
    while (addr + i) % 4 != 0 && len > 0
      decreases len
      invariant i + len == |data|
      invariant Fold(c, crc, data[i..]) == Fold(c, seed, data)
    {
      crc := ByteUpdate16(c, crc, data, i);
      i, len := i + 1, len - 1;
    }
    while len >= 16
      invariant i + len == |data|
      invariant Fold(c, crc, data[i..]) == Fold(c, seed, data)
    {
      len := len - 16;
      crc := WordUpdate16(c, crc, data, i);
      crc := WordUpdate16(c, crc, data, i + 4);
      crc := WordUpdate16(c, crc, data, i + 8);
      crc := WordUpdate16(c, crc, data, i + 12);
      i := i + 16;
    }
    while len > 0
      invariant i + len == |data|
      invariant Fold(c, crc, data[i..]) == Fold(c, seed, data)
    {
      crc := ByteUpdate16(c, crc, data, i);
      i, len := i + 1, len - 1;
    }
    FoldNothing(c, crc);
    assert data[i..] == [];
  }

  method ByteUpdate16(c: Crc, crc: uint16, data: seq<bv8>, i: nat) returns (next: uint16)
    requires Valid(c) && c.width == 16 && i < |data|
    ensures Fold(c, next, data[i + 1..]) == Fold(c, crc, data[i..])
  {
    hide Feed, Fold, ByteStep, Truncate, Valid;
    FoldByte(c, crc, data, i);
    ByteStepFeeds(c, crc, data[i]);
    FeedFits16(c, crc, data[i]);
    TruncateFits(Feed(c, crc, data[i]));
    next := Truncate(ByteStep(c, crc, data[i]));
  }

  method WordUpdate16(c: Crc, crc: uint16, data: seq<bv8>, i: nat) returns (next: uint16)
    requires Valid(c) && c.width == 16 && i + 4 <= |data|
    ensures Fold(c, next, data[i + 4..]) == Fold(c, crc, data[i..])
  {
    hide Feed, Fold, Slice16, WordAt, FourFed, Valid;
    FoldWordAt(c, crc, data, i);
    Slice16Feeds(c, crc, data, i);
    next := Slice16(c, crc, WordAt(data, i));
  }

  /** The body of crc7_upd, smbus_upd and maxim_upd. */
  method Update8(c: Crc, seed: uint8, data: seq<bv8>) returns (crc: uint8)
    requires Valid(c) && c.width <= 8
    ensures crc == Fold(c, seed, data)
  {
    hide Feed, Fold, Table, Valid;
    crc := seed;
    var i: nat, len: nat := 0, |data|;
    assert data[0..] == data;
    while len > 0
      invariant i + len == |data|
      invariant Fold(c, crc, data[i..]) == Fold(c, seed, data)
    {
      FoldByte(c, crc, data, i);
      TableFeeds8(c, crc, data[i]);
      crc := Table(c, 0, Xor(crc, Wide(data[i])));
      i, len := i + 1, len - 1;
    }
    FoldNothing(c, crc);
    assert data[i..] == [];
  }

  lemma {:induction false} TableFeeds8(c: Crc, s: uint8, b: bv8)
    requires Valid(c) && c.width <= 8
    ensures Table(c, 0, Xor(s, Wide(b))) == Feed(c, s, b)
    ensures Feed(c, s, b) & 0xff == Feed(c, s, b)
  {
    hide Shift, Xor, Wide, Fits;
    Fits8(c, s);
    FeedFits(c, s, b);
    Fits8(c, Feed(c, s, b));
  }

  lemma {:induction false} Fits8(c: Crc, s: bv32)
    requires Valid(c) && c.width <= 8
    ensures Fits(c, s) <==> s & 0xff == s
  {
    hide Flip;
    LowByteFlips(c, s);
    FlipTwice(c, s);
    FlipTwice(c, s & 0xff);
  }

  lemma {:induction false} LowByteFlips(c: Crc, s: bv32)
    ensures Flip(c, s & 0xff) == Flip(c, s) & 0xff000000
  {
    hide Rev32, BitReverse;
    LowByteReversed(s);
    LowByteSwapped(s);
  }

  lemma {:induction false} LowByteReversed(s: bv32)
    ensures BitReverse(s & 0xff) == BitReverse(s) & 0xff000000
  {
  }

  lemma {:induction false} LowByteSwapped(s: bv32)
    ensures Rev32(s & 0xff) == Rev32(s) & 0xff000000
  {
  }

  // ----- the functions the library offers

  /** The CRC after `data` when the register started at the stored value `s`. */
  function Continued(c: Crc, s: bv32, data: seq<bv8>): bv32 {
    Output(c, Remainder(Poly(c), Flip(c, s), MessageBits(c.reflected, data)))
  }

  class FastCRC32 {
    var seed: bv32

    method Crc32Upd(data: seq<bv8>, addr: nat, bigTables: bool) returns (crc: bv32)
      modifies this
      ensures seed == Fold(CRC32, old(seed), data)
      ensures crc == Continued(Crc(32, 0x04c11db7, 0xffffffff, true, 0xffffffff), old(seed), data)
    {
      hide Fold, Continued;
      var r := Update32(CRC32, seed, data, addr, bigTables);
      FoldDivides(CRC32, seed, data);
      Crc32Output(CRC32, seed, r, data);
      seed := r;
      crc := Complement(r);
    }

    /** The textbook CRC-32 of section 3.2.9 of IEEE 802.3. */
    method Crc32(data: seq<bv8>, addr: nat, bigTables: bool) returns (crc: bv32)
      modifies this
      ensures crc == Textbook(Crc(32, 0x04c11db7, 0xffffffff, true, 0xffffffff), data)
      ensures seed == Fold(CRC32, 0xffffffff, data)
    {
      hide Fold, Continued, Textbook;
      seed := 0xffffffff;
      crc := Crc32Upd(data, addr, bigTables);
      Starts(CRC32, 0xffffffff, data);
    }

    method CksumUpd(data: seq<bv8>, addr: nat, bigTables: bool) returns (crc: bv32)
      modifies this
      ensures seed == Fold(CKSUM, old(seed), data)
      ensures crc == Continued(Crc(32, 0x04c11db7, 0, false, 0xffffffff), old(seed), data)
    {
      hide Fold, Continued;
      var r := Update32(CKSUM, seed, data, addr, bigTables);
      CksumOutput(seed, r, data);
      seed := r;
      crc := Complement(Rev32(r));
    }

    method Cksum(data: seq<bv8>, addr: nat, bigTables: bool) returns (crc: bv32)
      modifies this
      ensures crc == Textbook(Crc(32, 0x04c11db7, 0, false, 0xffffffff), data)
      ensures seed == Fold(CKSUM, 0, data)
    {
      hide Fold, Continued, Textbook;
      seed := 0;
      crc := CksumUpd(data, addr, bigTables);
      Starts(CKSUM, 0, data);
    }
  }

  class FastCRC16 {
    var seed: uint16

    method CcittUpd(data: seq<bv8>, addr: nat) returns (crc: uint16)
      modifies this
      ensures seed == Fold(CCITT, old(seed), data)
      ensures crc == Continued(Crc(16, 0x1021, 0xffff, false, 0), old(seed), data)
    {
      hide Fold, Continued;
      var r := Update16(CCITT, seed, data, addr);
      SwappedOutput(CCITT, seed, r, data);
      seed := r;
      crc := Rev16(r);
    }

    method Ccitt(data: seq<bv8>, addr: nat) returns (crc: uint16)
      modifies this
      ensures crc == Textbook(Crc(16, 0x1021, 0xffff, false, 0), data)
      ensures seed == Fold(CCITT, 0xffff, data)
    {
      hide Fold, Continued, Textbook;
      seed := 0xffff;
      crc := CcittUpd(data, addr);
      Starts(CCITT, 0xffff, data);
    }

    method Mcrf4xxUpd(data: seq<bv8>, addr: nat) returns (crc: uint16)
      modifies this
      ensures seed == Fold(MCRF4XX, old(seed), data)
      ensures crc == Continued(Crc(16, 0x1021, 0, true, 0), old(seed), data)
    {
      hide Fold, Continued;
      var r := Update16(MCRF4XX, seed, data, addr);
      PlainOutput(MCRF4XX, seed, r, data);
      seed := r;
      crc := r;
    }

    method Mcrf4xx(data: seq<bv8>, addr: nat) returns (crc: uint16)
      modifies this
      ensures crc == Textbook(Crc(16, 0x1021, 0, true, 0), data)
      ensures seed == Fold(MCRF4XX, 0, data)
    {
      hide Fold, Continued, Textbook;
      seed := 0;
      crc := Mcrf4xxUpd(data, addr);
      Starts(MCRF4XX, 0, data);
    }

    method ModbusUpd(data: seq<bv8>, addr: nat) returns (crc: uint16)
      modifies this
      ensures seed == Fold(MODBUS, old(seed), data)
      ensures crc == Continued(Crc(16, 0x8005, 0xffff, true, 0), old(seed), data)
    {
      hide Fold, Continued;
      var r := Update16(MODBUS, seed, data, addr);
      PlainOutput(MODBUS, seed, r, data);
      seed := r;
      crc := r;
    }

    method Modbus(data: seq<bv8>, addr: nat) returns (crc: uint16)
      modifies this
      ensures crc == Textbook(Crc(16, 0x8005, 0xffff, true, 0), data)
      ensures seed == Fold(MODBUS, 0xffff, data)
    {
      hide Fold, Continued, Textbook;
      seed := 0xffff;
      crc := ModbusUpd(data, addr);
      Starts(MODBUS, 0xffff, data);
    }

    method KermitUpd(data: seq<bv8>, addr: nat) returns (crc: uint16)
      modifies this
      ensures seed == Fold(KERMIT, old(seed), data)
      ensures crc == Continued(Crc(16, 0x1021, 0, true, 0), old(seed), data)
    {
      hide Fold, Continued;
      var r := Update16(KERMIT, seed, data, addr);
      PlainOutput(KERMIT, seed, r, data);
      seed := r;
      crc := r;
    }

    method Kermit(data: seq<bv8>, addr: nat) returns (crc: uint16)
      modifies this
      ensures crc == Textbook(Crc(16, 0x1021, 0, true, 0), data)
      ensures seed == Fold(KERMIT, 0, data)
    {
      hide Fold, Continued, Textbook;
      seed := 0;
      crc := KermitUpd(data, addr);
      Starts(KERMIT, 0, data);
    }

    method XmodemUpd(data: seq<bv8>, addr: nat) returns (crc: uint16)
      modifies this
      ensures seed == Fold(XMODEM, old(seed), data)
      ensures crc == Continued(Crc(16, 0x1021, 0, false, 0), old(seed), data)
    {
      hide Fold, Continued;
      var r := Update16(XMODEM, seed, data, addr);
      SwappedOutput(XMODEM, seed, r, data);
      seed := r;
      crc := Rev16(r);
    }

    method Xmodem(data: seq<bv8>, addr: nat) returns (crc: uint16)
      modifies this
      ensures crc == Textbook(Crc(16, 0x1021, 0, false, 0), data)
      ensures seed == Fold(XMODEM, 0, data)
    {
      hide Fold, Continued, Textbook;
      seed := 0;
      crc := XmodemUpd(data, addr);
      Starts(XMODEM, 0, data);
    }

    method X25Upd(data: seq<bv8>, addr: nat) returns (crc: uint16)
      modifies this
      ensures seed == Fold(FastCrc.X25, old(seed), data)
      ensures crc == Continued(Crc(16, 0x1021, 0xffff, true, 0xffff), old(seed), data)
    {
      hide Fold, Continued;
      var r := Update16(FastCrc.X25, seed, data, addr);
      X25Output(seed, r, data);
      seed := r;
      crc := Truncate(Complement(r));
    }

    method X25(data: seq<bv8>, addr: nat) returns (crc: uint16)
      modifies this
      ensures crc == Textbook(Crc(16, 0x1021, 0xffff, true, 0xffff), data)
      ensures seed == Fold(FastCrc.X25, 0xffff, data)
    {
      hide Fold, Continued, Textbook;
      seed := 0xffff;
      crc := X25Upd(data, addr);
      Starts(FastCrc.X25, 0xffff, data);
    }
  }

  class FastCRC7 {
    var seed: uint8

    method Crc7Upd(data: seq<bv8>) returns (crc: uint8)
      modifies this
      ensures seed == Fold(CRC7, old(seed), data)
      ensures crc == Continued(Crc(7, 0x09, 0, false, 0), old(seed), data)
    {
      hide Fold, Continued;
      var r := Update8(CRC7, seed, data);
      ByteOutput(CRC7, seed, r, data);
      seed := r;
      crc := r >> 1;
    }

    method Crc7(data: seq<bv8>) returns (crc: uint8)
      modifies this
      ensures crc == Textbook(Crc(7, 0x09, 0, false, 0), data)
      ensures seed == Fold(CRC7, 0, data)
    {
      hide Fold, Continued, Textbook;
      seed := 0;
      crc := Crc7Upd(data);
      Starts(CRC7, 0, data);
    }
  }

  class FastCRC8 {
    var seed: uint8

    method SmbusUpd(data: seq<bv8>) returns (crc: uint8)
      modifies this
      ensures seed == Fold(SMBUS, old(seed), data)
      ensures crc == Continued(Crc(8, 0x07, 0, false, 0), old(seed), data)
    {
      hide Fold, Continued;
      crc := Update8(SMBUS, seed, data);
      ByteOutput(SMBUS, seed, crc, data);
      seed := crc;
    }

    method Smbus(data: seq<bv8>) returns (crc: uint8)
      modifies this
      ensures crc == Textbook(Crc(8, 0x07, 0, false, 0), data)
      ensures seed == Fold(SMBUS, 0, data)
    {
      hide Fold, Continued, Textbook;
      seed := 0;
      crc := SmbusUpd(data);
      Starts(SMBUS, 0, data);
    }

    method MaximUpd(data: seq<bv8>) returns (crc: uint8)
      modifies this
      ensures seed == Fold(MAXIM, old(seed), data)
      ensures crc == Continued(Crc(8, 0x31, 0, true, 0), old(seed), data)
    {
      hide Fold, Continued;
      crc := Update8(MAXIM, seed, data);
      PlainOutput(MAXIM, seed, crc, data);
      seed := crc;
    }

    method Maxim(data: seq<bv8>) returns (crc: uint8)
      modifies this
      ensures crc == Textbook(Crc(8, 0x31, 0, true, 0), data)
      ensures seed == Fold(MAXIM, 0, data)
    {
      hide Fold, Continued, Textbook;
      seed := 0;
      crc := MaximUpd(data);
      Starts(MAXIM, 0, data);
    }
  }

  lemma {:induction false} Crc32Output(c: Crc, s: bv32, r: bv32, data: seq<bv8>)
    requires c == CRC32 && r == Fold(c, s, data)
    ensures Complement(r) == Continued(c, s, data)
  {
    hide Fold, Remainder, MessageBits, BitReverse, Xor;
    FoldDivides(c, s, data);
    BitReverseTwice(r);
  }

  lemma {:induction false} CksumOutput(s: bv32, r: bv32, data: seq<bv8>)
    requires r == Fold(CKSUM, s, data)
    ensures Complement(Rev32(r)) == Continued(CKSUM, s, data)
  {
    hide Fold, Remainder, MessageBits, Rev32, Xor;
    FoldDivides(CKSUM, s, data);
  }

  /** A stored seed that is the start of the textbook division makes the textbook CRC. */
  lemma {:induction false} Starts(c: Crc, s: bv32, data: seq<bv8>)
    requires Flip(c, s) == Start(c)
    ensures Continued(c, s, data) == Textbook(c, data)
  {
    hide Remainder, MessageBits, Flip, Output, Poly;
  }

  /** Reflected CRCs without a final XOR hand out the stored register. */
  lemma {:induction false} PlainOutput(c: Crc, s: bv32, r: bv32, data: seq<bv8>)
    requires c.reflected && c.xorOut == 0 && r == Fold(c, s, data)
    ensures r == Continued(c, s, data)
  {
    hide Fold, Remainder, MessageBits, BitReverse, Xor, Poly;
    FoldDivides(c, s, data);
    BitReverseTwice(r);
    XorZero(r);
  }

  /** The register of a 16-bit CRC that sends its upper bits first, with its two bytes put back in order. */
  lemma {:induction false} SwappedOutput(c: Crc, s: bv32, r: uint16, data: seq<bv8>)
    requires (c == CCITT || c == XMODEM) && r == Fold(c, s, data)
    ensures Rev16(r) == Continued(c, s, data) && Rev16(r) & 0xffff == Rev16(r)
  {
    hide Fold, Remainder, MessageBits, Rev32, Rev16, Output, Poly;
    FoldDivides(c, s, data);
    HalfReversed(r);
    UpperHalfOutput(c, Rev32(r));
  }

  lemma {:induction false} UpperHalfOutput(c: Crc, x: bv32)
    requires c == CCITT || c == XMODEM
    ensures Output(c, x) == x >> 16
  {
    hide Xor;
    XorZero(x >> 16);
  }

  lemma {:induction false} HalfReversed(r: uint16)
    ensures Rev32(r) >> 16 == Rev16(r) && Rev16(r) & 0xffff == Rev16(r)
  {
  }

  lemma {:induction false} X25Output(s: bv32, r: uint16, data: seq<bv8>)
    requires r == Fold(FastCrc.X25, s, data)
    ensures Truncate(Complement(r)) == Continued(FastCrc.X25, s, data)
  {
    hide Fold, Remainder, MessageBits, BitReverse, Poly, Xor;
    FoldDivides(FastCrc.X25, s, data);
    BitReverseTwice(r);
    HalfComplement(r);
  }

  lemma {:induction false} HalfComplement(r: uint16)
    ensures Truncate(Complement(r)) == Xor(r, 0xffff)
  {
  }

  lemma {:induction false} ByteOutput(c: Crc, s: bv32, r: uint8, data: seq<bv8>)
    requires (c == CRC7 || c == SMBUS) && r == Fold(c, s, data)
    ensures (if c == CRC7 then r >> 1 else r) == Continued(c, s, data) && (r >> 1) & 0xff == r >> 1
  {
    hide Fold, Remainder, MessageBits, Rev32, Xor, Poly;
    FoldDivides(c, s, data);
    ByteReversed(r);
    XorZero(r >> 1);
    XorZero(r);
  }

  lemma {:induction false} ByteReversed(r: uint8)
    ensures Rev32(r) >> 25 == r >> 1 && Rev32(r) >> 24 == r && (r >> 1) & 0xff == r >> 1
  {
  }

  /** Updating over two buffers one after the other gives the CRC of both together. */
  lemma {:induction false} ChunksContinue(c: Crc, s: bv32, a: seq<bv8>, b: seq<bv8>)
    ensures Continued(c, Fold(c, s, a), b) == Continued(c, s, a + b)
  {
    hide Fold, Remainder, MessageBits, Flip, Output, Poly;
    FoldDivides(c, Fold(c, s, a), b);
    FoldDivides(c, s, a + b);
    FoldAppend(c, s, a, b);
  }
}
