/** Strings written for an ASCII target (writer.h): escaped as \uXXXX and surrogate pairs, and read back. */
module AsciiStrings {
  import opened Bytes
  import opened Encodings
  import opened Events
  import opened Options
  import opened Scanner
  import opened Writer
  import opened RoundTrip

  function HexText(n: nat): Text
    requires n <= 0xFFFF
  {
    [HexDigit(n / 4096), HexDigit(n / 256 % 16), HexDigit(n / 16 % 16), HexDigit(n % 16)]
  }

  const UNICODE: Text := [BACKSLASH, 117]

  function Lead(cp: nat): (r: nat)
    requires 0x10000 <= cp <= 0x10FFFF
    ensures 0xD800 <= r <= 0xDBFF
  {
    (cp - 0x10000) / 1024 + 0xD800
  }

  function Trail(cp: nat): (r: nat)
    requires 0x10000 <= cp <= 0x10FFFF
    ensures 0xDC00 <= r <= 0xDFFF
  {
    (cp - 0x10000) % 1024 + 0xDC00
  }

  /** The escape of a scalar value: one code unit or a surrogate pair. */
  function UnicodeText(cp: nat): Text
    requires Scalar(cp)
  {
    if cp <= 0xFFFF then UNICODE + HexText(cp) else UNICODE + HexText(Lead(cp)) + (UNICODE + HexText(Trail(cp)))
  }

  /** The inside of a literal from byte `i` on; nothing when a sequence does not decode. */
  function AsciiFrom(s: Text, i: nat): Option<Text>
    requires i <= |s|
    decreases |s| - i
  {
    if i == |s| then Some([])
    else if s[i] >= 0x80 then
      DecodeExact(s, i);
      var d := Decode(s, i);
      if !d.ok then None else Prepended(UnicodeText(d.codepoint), AsciiFrom(s, d.next))
    else Prepended(EscapeByte(s[i]), AsciiFrom(s, i + 1))
  }

  function Prepended(a: Text, r: Option<Text>): Option<Text> {
    if r.None? then None else Some(a + r.value)
  }

  /** A literal for an ASCII target. */
  function AsciiQuoted(s: Text): Option<Text> {
    var inside := AsciiFrom(s, 0);
    if inside.None? then None else Some([QUOTE] + inside.value + [QUOTE])
  }

  /** A string can be written for an ASCII target exactly when it is valid UTF-8. */
  lemma {:induction false} AsciiWrites(s: Text, i: nat)
    requires i <= |s|
    ensures AsciiFrom(s, i).Some? <==> DecodeAll(s, i).0
    decreases |s| - i
  {
    hide Decode, UnicodeText, EscapeByte, Encode;
    if i < |s| {
      DecodeExact(s, i);
      var d := Decode(s, i);
      if s[i] < 0x80 {
        AsciiByte(s, i);
      }
      if d.ok {
        AsciiWrites(s, d.next);
      }
    }
  }

  lemma {:induction false} AsciiByte(s: Text, i: nat)
    requires i < |s| && s[i] < 0x80
    ensures Decode(s, i).ok && Decode(s, i).next == i + 1
  {
  }

  /** What is ASCII is written as for any other target. */
  lemma {:induction false} AsciiAsUsual(s: Text, i: nat)
    requires i <= |s| && forall k | i <= k < |s| :: s[k] < 0x80
    ensures AsciiFrom(s, i) == Some(EscapeFrom(s, i))
    decreases |s| - i
  {
    hide EscapeByte;
    if i < |s| {
      AsciiAsUsual(s, i + 1);
    }
  }

  predicate AllAscii(s: Text) {
    forall i | 0 <= i < |s| :: s[i] < 0x80
  }

  lemma {:induction false} UnitIsAscii(cp: nat)
    requires Scalar(cp)
    ensures AllAscii(UnicodeText(cp)) && |UnicodeText(cp)| <= 12
  {
  }

  lemma {:induction false} EscapeIsAscii(c: byte)
    requires c < 0x80
    ensures AllAscii(EscapeByte(c)) && |EscapeByte(c)| <= 6
  {
  }

  lemma {:induction false} AsciiAppend(a: Text, b: Text)
    requires AllAscii(a) && AllAscii(b)
    ensures AllAscii(a + b)
  {
  }

  /** The output is ASCII, and at most twelve bytes for each byte of the string. */
  lemma {:induction false} AsciiOutput(s: Text, i: nat)
    requires i <= |s| && AsciiFrom(s, i).Some?
    ensures AllAscii(AsciiFrom(s, i).value) && |AsciiFrom(s, i).value| <= 12 * (|s| - i)
    decreases |s| - i
  {
    hide Decode, UnicodeText, EscapeByte, Encode, AllAscii;
    if i == |s| {
      NothingIsAscii();
    } else if s[i] >= 0x80 {
      DecodeExact(s, i);
      var d := Decode(s, i);
      UnitIsAscii(d.codepoint);
      AsciiOutput(s, d.next);
      AsciiAppend(UnicodeText(d.codepoint), AsciiFrom(s, d.next).value);
    } else {
      EscapeIsAscii(s[i]);
      AsciiOutput(s, i + 1);
      AsciiAppend(EscapeByte(s[i]), AsciiFrom(s, i + 1).value);
    }
  }

  lemma {:induction false} NothingIsAscii()
    ensures AllAscii([])
  {
  }

  /** For a Unicode target at most six bytes for each byte of the string. */
  lemma {:induction false} UnicodeOutput(s: Text, i: nat)
    requires i <= |s|
    ensures |EscapeFrom(s, i)| <= 6 * (|s| - i)
    decreases |s| - i
  {
    if i < |s| {
      UnicodeOutput(s, i + 1);
    }
  }

  // ----- reading it back

  lemma {:induction false} HexTextReads(src: Text, pos: nat, n: nat)
    requires n <= 0xFFFF && StandsAt(src, pos, HexText(n))
    ensures Hex4(src, pos) == Some(n)
  {
    hide Hex4;
    var t := HexText(n);
    FirstAt(src, pos, t, 0);
    FirstAt(src, pos, t, 1);
    FirstAt(src, pos, t, 2);
    FirstAt(src, pos, t, 3);
    HexFour(src, pos, n / 4096, n / 256 % 16, n / 16 % 16, n % 16);
    HexDigits(n);
  }

  lemma {:induction false} HexDigits(n: nat)
    ensures ((n / 4096 * 16 + n / 256 % 16) * 16 + n / 16 % 16) * 16 + n % 16 == n
  {
    var a, b := n / 16, n / 256;
    assert a / 16 == b && b / 16 == n / 4096;
    assert a == b * 16 + a % 16 && b == n / 4096 * 16 + b % 16;
  }

  lemma {:induction false} PairJoins(cp: nat)
    requires 0x10000 <= cp <= 0x10FFFF
    ensures (Lead(cp) - 0xD800) * 1024 + (Trail(cp) - 0xDC00) + 0x10000 == cp
  {
  }

  lemma {:induction false} UnicodeReads(src: Text, pos: nat, cp: nat)
    requires Scalar(cp) && StandsAt(src, pos, UnicodeText(cp))
    ensures At(src, pos) == BACKSLASH && At(src, pos + 1) == 117
    ensures UnicodeEscape(src, pos + 2) == Some((cp, pos + |UnicodeText(cp)|))
  {
    hide Hex4, StandsAt, HexText, Lead, Trail;
    if cp <= 0xFFFF {
      StandsAtSplit(src, pos, UNICODE, HexText(cp));
      HexTextReads(src, pos + 2, cp);
      FirstAt(src, pos, UNICODE, 0);
      FirstAt(src, pos, UNICODE, 1);
      FourLong(cp);
    } else {
      var high, low := UNICODE + HexText(Lead(cp)), UNICODE + HexText(Trail(cp));
      FourLong(Lead(cp));
      FourLong(Trail(cp));
      StandsAtSplit(src, pos, high, low);
      StandsAtSplit(src, pos, UNICODE, HexText(Lead(cp)));
      StandsAtSplit(src, pos + 6, UNICODE, HexText(Trail(cp)));
      HexTextReads(src, pos + 2, Lead(cp));
      HexTextReads(src, pos + 8, Trail(cp));
      FirstAt(src, pos, UNICODE, 0);
      FirstAt(src, pos, UNICODE, 1);
      FirstAt(src, pos + 6, UNICODE, 0);
      FirstAt(src, pos + 6, UNICODE, 1);
      PairJoins(cp);
    }
  }

  lemma {:induction false} FourLong(n: nat)
    requires n <= 0xFFFF
    ensures |HexText(n)| == 4
  {
  }

  lemma {:induction false} UnicodeTaken(env: Env, cp: nat)
    requires Scalar(cp)
    ensures TakenAs(env, UnicodeText(cp), Encode(cp))
  {
    hide UnicodeText, UnicodeEscape, Encode;
    forall pos: nat, out: Text | StandsAt(env.src, pos, UnicodeText(cp))
      ensures StringBody(env, pos, out) == StringBody(env, pos + |UnicodeText(cp)|, out + Encode(cp))
    {
      UnicodeReads(env.src, pos, cp);
      assert StringUnit(env, pos) == Unit(Encode(cp), pos + |UnicodeText(cp)|);
    }
  }

  lemma {:induction false} AsciiPieces(env: Env, s: Text, i: nat) returns (pieces: seq<Piece>)
    requires i <= |s| && AsciiFrom(s, i).Some?
    ensures MadeOf(env, pieces, AsciiFrom(s, i).value, s[i..])
    decreases |s| - i
  {
    hide MadeOf, EscapeByte, TakenAs, Encode, Decode, UnicodeText;
    if i == |s| {
      NothingMade(env);
      pieces := [];
    } else if s[i] >= 0x80 {
      DecodeExact(s, i);
      var d := Decode(s, i);
      var rest := AsciiPieces(env, s, d.next);
      UnicodeTaken(env, d.codepoint);
      var p := Piece(UnicodeText(d.codepoint), s[i..d.next]);
      MadeOfCons(env, p, rest, AsciiFrom(s, d.next).value, s[d.next..]);
      assert s[i..] == s[i..d.next] + s[d.next..];
      pieces := [p] + rest;
    } else {
      var rest := AsciiPieces(env, s, i + 1);
      ByteTaken(env, s[i]);
      var p := Piece(EscapeByte(s[i]), [s[i]]);
      MadeOfCons(env, p, rest, AsciiFrom(s, i + 1).value, s[i + 1..]);
      assert s[i..] == [s[i]] + s[i + 1..];
      pieces := [p] + rest;
    }
  }

  /** Whatever its settings, the reader gets the original bytes back from the escaped literal. */
  lemma {:induction false} AsciiStringReads(env: Env, pos: nat, s: Text)
    requires AsciiQuoted(s).Some? && StandsAt(env.src, pos, AsciiQuoted(s).value)
    ensures At(env.src, pos) == QUOTE
    ensures StringBody(env, pos + 1, []) == Some((pos + |AsciiQuoted(s).value|, s))
  {
    hide MadeOf, AsciiFrom, StringBody, StandsAt;
    var text := AsciiFrom(s, 0).value;
    TextAssoc([QUOTE], text, [QUOTE]);
    StandsAtSplit(env.src, pos, [QUOTE], text + [QUOTE]);
    FirstAt(env.src, pos, [QUOTE], 0);
    var pieces := AsciiPieces(env, s, 0);
    assert s[0..] == s;
    MadeOfReads(env, pieces, text, s, pos + 1);
  }

  // ----- the room for a literal

  /** The inside of a literal for an ASCII target, as far as the bytes from `i` on decode. */
  function AsciiPut(s: Text, i: nat): Text
    requires i <= |s|
    decreases |s| - i
  {
    if i == |s| then []
    else if s[i] >= 0x80 then
      DecodeExact(s, i);
      var d := Decode(s, i);
      if !d.ok then [] else UnicodeText(d.codepoint) + AsciiPut(s, d.next)
    else EscapeByte(s[i]) + AsciiPut(s, i + 1)
  }

  /** All the bytes WriteString puts for a string: its literal, or what comes before the place where it gives up. */
  function PutText(s: Text, supportUnicode: bool): Text {
    if supportUnicode then Quoted(s)
    else [QUOTE] + AsciiPut(s, 0) + (if AsciiQuoted(s).Some? then [QUOTE] else [])
  }

  /** Strings short enough for that sum not to wrap. */
  predicate Roomy(length: nat, supportUnicode: bool) {
    2 + length * EscapeRoom(supportUnicode) < SIZE_TYPE_LIMIT
  }

  lemma {:induction false} AsciiPutIs(s: Text, i: nat)
    requires i <= |s|
    ensures AsciiFrom(s, i).Some? ==> AsciiFrom(s, i).value == AsciiPut(s, i)
    ensures |AsciiPut(s, i)| <= 12 * (|s| - i)
    decreases |s| - i
  {
    hide Decode, UnicodeText, EscapeByte, Encode;
    if i < |s| && s[i] >= 0x80 {
      DecodeExact(s, i);
      var d := Decode(s, i);
      if d.ok {
        UnitIsAscii(d.codepoint);
        AsciiPutIs(s, d.next);
      }
    } else if i < |s| {
      EscapeShort(s[i]);
      AsciiPutIs(s, i + 1);
    }
  }

  lemma {:induction false} PutTextIs(s: Text)
    ensures AsciiQuoted(s).Some? ==> AsciiQuoted(s).value == PutText(s, false)
    ensures |PutText(s, false)| <= 2 + 12 * |s|
  {
    hide AsciiFrom, AsciiPut;
    AsciiPutIs(s, 0);
  }

  /** No string needs more than what is reserved for it, as long as the sum does not wrap. */
  lemma {:induction false} RoomyFits(s: Text, supportUnicode: bool)
    requires Roomy(|s|, supportUnicode)
    ensures |PutText(s, supportUnicode)| <= Reserved(|s|, supportUnicode)
  {
    hide EscapeFrom, AsciiPut, AsciiQuoted;
    UnicodeOutput(s, 0);
    PutTextIs(s);
  }

  /** The longest strings to write: every byte a control character without a letter of its own. */
  function Controls(n: nat): (s: Text)
    ensures |s| == n
  {
    seq(n, _ => 1)
  }

  lemma {:induction false} ControlsPut(n: nat, i: nat)
    requires i <= n
    ensures AsciiFrom(Controls(n), i).Some?
    ensures |EscapeFrom(Controls(n), i)| == |AsciiPut(Controls(n), i)| == 6 * (n - i)
    decreases n - i
  {
    if i < n {
      ControlsPut(n, i + 1);
    }
  }

  lemma {:induction false} ControlsText(n: nat, supportUnicode: bool)
    ensures AsciiQuoted(Controls(n)).Some? && |PutText(Controls(n), supportUnicode)| == 2 + 6 * n
  {
    hide AsciiFrom, AsciiPut, EscapeFrom;
    ControlsPut(n, 0);
  }

  /** A sum that wraps leaves less than control characters need, for either target. */
  lemma {:induction false} WrapLeavesLess(n: nat, supportUnicode: bool)
    requires n < SIZE_TYPE_LIMIT && !Roomy(n, supportUnicode)
    ensures Reserved(n, supportUnicode) < 2 + 6 * n
  {
    var sum := 2 + n * EscapeRoom(supportUnicode);
    var k := sum / SIZE_TYPE_LIMIT;
    assert sum == k * SIZE_TYPE_LIMIT + Reserved(n, supportUnicode) && k >= 1;
  }

  /**
   * What is reserved suffices for every string of a length exactly when the 32-bit sum does not
   * wrap; leaving out the strings that cannot be written for an ASCII target makes no difference.
   */
  lemma {:induction false} ReservationSuffices(n: nat, supportUnicode: bool)
    requires n < SIZE_TYPE_LIMIT
    ensures Roomy(n, supportUnicode) <==>
      forall s: Text | |s| == n :: |PutText(s, supportUnicode)| <= Reserved(n, supportUnicode)
    ensures Roomy(n, supportUnicode) <==>
      forall s: Text | |s| == n && (supportUnicode || AsciiQuoted(s).Some?) ::
        |PutText(s, supportUnicode)| <= Reserved(n, supportUnicode)
  {
    hide PutText, AsciiQuoted, Reserved, Roomy, Controls;
    if Roomy(n, supportUnicode) {
      forall s: Text | |s| == n ensures |PutText(s, supportUnicode)| <= Reserved(n, supportUnicode) {
        RoomyFits(s, supportUnicode);
      }
    } else {
      ControlsText(n, supportUnicode);
      WrapLeavesLess(n, supportUnicode);
      assert |PutText(Controls(n), supportUnicode)| > Reserved(n, supportUnicode);
    }
  }

  /** The shortest strings that overrun: for a Unicode target 4 bytes are reserved, for an ASCII target 10. */
  lemma {:induction false} LiteralsOverrun()
    ensures Reserved(715827883, true) == 4 && |PutText(Controls(715827883), true)| == 4294967300
    ensures Reserved(357913942, false) == 10 && |PutText(Controls(357913942), false)| == 2147483654
    ensures forall n: nat | n < 715827883 :: Roomy(n, true)
    ensures forall n: nat | n < 357913942 :: Roomy(n, false)
  {
    hide PutText, Controls, AsciiQuoted;
    ControlsText(715827883, true);
    ControlsText(357913942, false);
  }

  // ----- the loop

  /** A string buffer behind a reservation: its puts check nothing but an assertion. */
  class StringBuffer {
    var bytes: Text
    const reserved: nat
    /** Every put so far has stayed inside what was reserved. */
    var within: bool

    predicate Valid()
      reads this
    {
      within == (|bytes| <= reserved)
    }

    constructor PutReserve(count: nat)
      ensures Valid() && bytes == [] && reserved == count
    {
      bytes, reserved, within := [], count, true;
    }

    method PutUnsafe(c: byte)
      requires Valid()
      modifies this
      ensures Valid() && bytes == old(bytes) + [c]
    {
      within := within && |bytes| < reserved;
      bytes := bytes + [c];
    }

    method PutAll(text: Text)
      requires Valid()
      modifies this
      ensures Valid() && bytes == old(bytes) + text
    {
      for k := 0 to |text|
        invariant Valid() && bytes == old(bytes) + text[..k]
      {
        PutUnsafe(text[k]);
      }
      assert text[..|text|] == text;
    }
  }

  /**
   * WriteString for either target: it puts the literal, and fails only for an ASCII target and bytes
   * that do not decode. `within` tells whether every put stayed inside what was reserved at the
   * start, as they all do when the 32-bit sum did not wrap.
   */
  method WriteString(s: Text, supportUnicode: bool) returns (ok: bool, out: Text, within: bool)
    requires |s| < SIZE_TYPE_LIMIT
    ensures supportUnicode ==> ok && out == Quoted(s)
    ensures !supportUnicode ==> AsciiQuoted(s) == if ok then Some(out) else None
    ensures out == PutText(s, supportUnicode)
    ensures within == (|out| <= Reserved(|s|, supportUnicode))
    ensures Roomy(|s|, supportUnicode) ==> within
  {
    hide EscapeFrom, AsciiFrom, AsciiPut, AsciiQuoted, Quoted, PutText, Left, Decode, UnicodeText, EscapeByte, Encode,
      Reserved, Roomy;
    if Roomy(|s|, supportUnicode) {
      RoomyFits(s, supportUnicode);
    }
    var os := new StringBuffer.PutReserve(Reserved(|s|, supportUnicode));
    os.PutUnsafe(QUOTE);
    var i: nat := 0;
    assert os.bytes + Left(s, 0, supportUnicode) == [QUOTE] + Left(s, 0, supportUnicode);
    while i < |s|
      invariant i <= |s| && os.Valid()
      invariant os.bytes + Left(s, i, supportUnicode) == [QUOTE] + Left(s, 0, supportUnicode)
      invariant supportUnicode || AsciiFrom(s, 0).Some? == AsciiFrom(s, i).Some?
    {
      ghost var before := os.bytes;
      if !supportUnicode && s[i] >= 0x80 {
        DecodeExact(s, i);
        var d := Decode(s, i);
        LeftUnicode(s, i, before);
        if !d.ok {
          NothingMore(s, os.bytes);
          return false, os.bytes, os.within;
        }
        os.PutAll(UnicodeText(d.codepoint));
        i := d.next;
      } else {
        LeftByte(s, i, supportUnicode, before);
        os.PutAll(EscapeByte(s[i]));
        i := i + 1;
      }
    }
    LeftNothing(s, supportUnicode);
    LiteralPut(s, supportUnicode, os.bytes);
    os.PutUnsafe(QUOTE);
    ok, out, within := true, os.bytes, os.within;
  }

  /** What is still to be put from byte `i` on. */
  function Left(s: Text, i: nat, supportUnicode: bool): Text
    requires i <= |s|
  {
    if supportUnicode then EscapeFrom(s, i) else AsciiPut(s, i)
  }

  lemma {:induction false} LeftNothing(s: Text, supportUnicode: bool)
    ensures Left(s, |s|, supportUnicode) == [] && AsciiFrom(s, |s|) == Some([])
  {
  }

  lemma {:induction false} LiteralPut(s: Text, supportUnicode: bool, before: Text)
    requires before + [] == [QUOTE] + Left(s, 0, supportUnicode)
    requires supportUnicode || AsciiFrom(s, 0).Some?
    ensures before + [QUOTE] == PutText(s, supportUnicode)
    ensures if supportUnicode then before + [QUOTE] == Quoted(s) else AsciiQuoted(s) == Some(before + [QUOTE])
  {
    hide EscapeFrom, AsciiFrom, AsciiPut;
    AsciiPutIs(s, 0);
    assert before + [] == before;
  }

  lemma {:induction false} NothingMore(s: Text, before: Text)
    requires before + [] == [QUOTE] + Left(s, 0, false) && AsciiFrom(s, 0).None?
    ensures before == PutText(s, false) && AsciiQuoted(s) == None
  {
    hide AsciiFrom, AsciiPut;
    assert before + [] == before;
    assert before == before + [];
  }

  lemma {:induction false} LeftUnicode(s: Text, i: nat, before: Text)
    requires i < |s| && s[i] >= 0x80
    ensures
      var d := Decode(s, i);
      if !d.ok then AsciiFrom(s, i) == None && Left(s, i, false) == []
      else
        && i < d.next <= |s| && Scalar(d.codepoint)
        && AsciiFrom(s, i).Some? == AsciiFrom(s, d.next).Some?
        && before + Left(s, i, false) == before + UnicodeText(d.codepoint) + Left(s, d.next, false)
  {
    hide Decode, UnicodeText, Encode;
    DecodeExact(s, i);
    var d := Decode(s, i);
    if d.ok {
      TextAssoc(before, UnicodeText(d.codepoint), AsciiPut(s, d.next));
    }
  }

  lemma {:induction false} LeftByte(s: Text, i: nat, supportUnicode: bool, before: Text)
    requires i < |s| && (supportUnicode || s[i] < 0x80)
    ensures supportUnicode || AsciiFrom(s, i).Some? == AsciiFrom(s, i + 1).Some?
    ensures before + Left(s, i, supportUnicode) == before + EscapeByte(s[i]) + Left(s, i + 1, supportUnicode)
  {
    hide EscapeByte;
    TextAssoc(before, EscapeByte(s[i]), Left(s, i + 1, supportUnicode));
  }

  lemma {:induction false} EscapeShort(c: byte)
    ensures |EscapeByte(c)| <= 6
  {
  }
}
