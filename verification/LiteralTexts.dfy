/** String literals: the reader takes exactly those of the grammar, as the bytes they stand for (reader.h). */
module LiteralTexts {
  import opened Bytes
  import opened Encodings
  import opened Events
  import opened Options
  import opened Scanner
  import opened Grammar

  /** The reader's grammar, by its flags; `inRange` stands for the numbers it does not refuse. */
  function Reads(f: Flags, inRange: Numeral -> bool): Profile {
    Profile(f.comments, f.trailingCommas, f.validateEncoding, f.nanAndInf, false, inRange)
  }

  // ----- hexadecimal digits

  lemma {:induction false} NibbleReads(n: Nibble)
    requires n.value < 16
    ensures HexValue(NibbleText(n)) == n.value
  {
  }

  lemma {:induction false} NibbleTaken(c: byte) returns (n: Nibble)
    requires HexValue(c) >= 0
    ensures n.value < 16 && NibbleText(n) == c
  {
    n := Nibble(HexValue(c), 65 <= c <= 70);
  }

  /** Four digits stand at `pos`. */
  predicate HexAt(s: Text, pos: nat, h: Hex) {
    && ValidHex(h) && pos + 4 <= |s|
    && s[pos] == NibbleText(h.a) && s[pos + 1] == NibbleText(h.b) && s[pos + 2] == NibbleText(h.c)
    && s[pos + 3] == NibbleText(h.d)
  }

  lemma {:induction false} HexStands(s: Text, pos: nat, h: Hex)
    requires ValidHex(h)
    ensures HexAt(s, pos, h) <==> StandsAt(s, pos, HexText(h))
  {
    StandsAtSlice(s, pos, HexText(h));
    if HexAt(s, pos, h) {
      assert s[pos..pos + 4] == HexText(h);
    }
  }

  lemma {:induction false} HexReads(s: Text, pos: nat, h: Hex)
    requires HexAt(s, pos, h)
    ensures Hex4(s, pos) == Some(HexNumber(h)) && HexNumber(h) <= 0xFFFF
  {
    hide HexValue, NibbleText;
    NibbleReads(h.a);
    NibbleReads(h.b);
    NibbleReads(h.c);
    NibbleReads(h.d);
    var n1 := h.a.value;
    var n2 := n1 * 16 + h.b.value;
    var n3 := n2 * 16 + h.c.value;
    assert HexFrom(s, pos, 4, 0) == HexFrom(s, pos + 1, 3, n1);
    assert HexFrom(s, pos + 1, 3, n1) == HexFrom(s, pos + 2, 2, n2);
    assert HexFrom(s, pos + 2, 2, n2) == HexFrom(s, pos + 3, 1, n3);
    assert HexFrom(s, pos + 3, 1, n3) == HexFrom(s, pos + 4, 0, n3 * 16 + h.d.value);
  }

  lemma {:induction false} HexTaken(s: Text, pos: nat) returns (h: Hex)
    requires Hex4(s, pos).Some?
    ensures HexAt(s, pos, h) && Hex4(s, pos) == Some(HexNumber(h)) && HexNumber(h) <= 0xFFFF
  {
    hide HexValue, NibbleText;
    HexDigits(s, pos);
    var a := NibbleTaken(s[pos]);
    var b := NibbleTaken(s[pos + 1]);
    var c := NibbleTaken(s[pos + 2]);
    var d := NibbleTaken(s[pos + 3]);
    h := Hex(a, b, c, d);
    HexReads(s, pos, h);
  }

  lemma {:induction false} HexDigits(s: Text, pos: nat)
    requires Hex4(s, pos).Some?
    ensures pos + 4 <= |s| && forall k | pos <= k < pos + 4 :: HexValue(s[k]) >= 0
  {
    var n1 := HexValue(At(s, pos));
    assert n1 >= 0;
    assert HexFrom(s, pos, 4, 0) == HexFrom(s, pos + 1, 3, n1);
    var n2 := n1 * 16 + HexValue(At(s, pos + 1));
    assert HexValue(At(s, pos + 1)) >= 0;
    assert HexFrom(s, pos + 1, 3, n1) == HexFrom(s, pos + 2, 2, n2);
    var n3 := n2 * 16 + HexValue(At(s, pos + 2));
    assert HexValue(At(s, pos + 2)) >= 0;
    assert HexFrom(s, pos + 2, 2, n2) == HexFrom(s, pos + 3, 1, n3);
    assert HexValue(At(s, pos + 3)) >= 0;
  }

  // ----- characters

  lemma {:induction false} PlainReads(env: Env, p: Profile, pos: nat, bytes: Text)
    requires p.utf8 == env.flags.validateEncoding
    requires ValidCharacter(p, Plain(bytes)) && StandsAt(env.src, pos, bytes)
    ensures StringUnit(env, pos) == Unit(bytes, pos + |bytes|)
  {
    hide Validate, Rfc3629;
    FirstAt(env.src, pos, bytes, 0);
    if p.utf8 {
      SequenceReads(env.src, pos, bytes);
    } else {
      assert bytes == [bytes[0]];
    }
  }

  lemma {:induction false} SequenceReads(s: Text, pos: nat, bytes: Text)
    requires Rfc3629(bytes) && StandsAt(s, pos, bytes)
    ensures Validate(s, pos) == Validated(true, bytes, pos + |bytes|)
  {
    hide Decode, Encode, Rfc3629;
    GrammarIsEncodings(bytes);
    var cp: nat :| Scalar(cp) && Encode(cp) == bytes;
    DecodeInvertsEncode(s, pos, cp);
    StandsAtSlice(s, pos, bytes);
    ValidateAgrees(s, pos);
    ValidateCopies(s, pos);
  }

  lemma {:induction false} CodeReads(env: Env, p: Profile, pos: nat, unit: Hex)
    requires !p.loneHigh && ValidCharacter(p, Code(unit)) && StandsAt(env.src, pos, CharacterText(Code(unit)))
    ensures StringUnit(env, pos) == Unit(CharacterBytes(Code(unit)), pos + 6)
  {
    hide StandsAt, Hex4, Encode, HexNumber;
    StandsAtSplit(env.src, pos, [0x5C, 0x75], HexText(unit));
    FirstAt(env.src, pos, [0x5C, 0x75], 0);
    FirstAt(env.src, pos, [0x5C, 0x75], 1);
    HexStands(env.src, pos + 2, unit);
    HexReads(env.src, pos + 2, unit);
  }

  lemma {:induction false} PairReads(env: Env, p: Profile, pos: nat, high: Hex, low: Hex)
    requires ValidCharacter(p, Pair(high, low)) && StandsAt(env.src, pos, CharacterText(Pair(high, low)))
    ensures StringUnit(env, pos) == Unit(CharacterBytes(Pair(high, low)), pos + 12)
  {
    hide StandsAt, Hex4, Encode, HexNumber;
    var u: Text := [0x5C, 0x75];
    StandsAtSplit(env.src, pos, u + HexText(high) + u, HexText(low));
    StandsAtSplit(env.src, pos, u + HexText(high), u);
    StandsAtSplit(env.src, pos, u, HexText(high));
    FirstAt(env.src, pos, u, 0);
    FirstAt(env.src, pos, u, 1);
    FirstAt(env.src, pos + 6, u, 0);
    FirstAt(env.src, pos + 6, u, 1);
    HexStands(env.src, pos + 2, high);
    HexReads(env.src, pos + 2, high);
    HexStands(env.src, pos + 8, low);
    HexReads(env.src, pos + 8, low);
  }

  /** Every character of the grammar is read as the bytes it stands for. */
  lemma {:induction false} CharacterReads(env: Env, p: Profile, pos: nat, c: Character)
    requires !p.loneHigh && p.utf8 == env.flags.validateEncoding
    requires ValidCharacter(p, c) && StandsAt(env.src, pos, CharacterText(c))
    ensures StringUnit(env, pos) == Unit(CharacterBytes(c), pos + |CharacterText(c)|)
  {
    hide StringUnit;
    match c {
      case Plain(bytes) => PlainReads(env, p, pos, bytes);
      case Short(letter) => ShortReads(env, pos, letter);
      case Code(unit) => CodeReads(env, p, pos, unit);
      case Pair(high, low) => PairReads(env, p, pos, high, low);
    }
  }

  lemma {:induction false} ShortReads(env: Env, pos: nat, letter: byte)
    requires letter in {0x22, 0x5C, 0x2F, 0x62, 0x66, 0x6E, 0x72, 0x74} && StandsAt(env.src, pos, [0x5C, letter])
    ensures StringUnit(env, pos) == Unit(CharacterBytes(Short(letter)), pos + 2)
  {
    FirstAt(env.src, pos, [0x5C, letter], 0);
    FirstAt(env.src, pos, [0x5C, letter], 1);
  }

  /** And what is read is a character of the grammar. */
  lemma {:induction false} CharacterTaken(env: Env, p: Profile, pos: nat) returns (c: Character)
    requires p.utf8 == env.flags.validateEncoding && StringUnit(env, pos).Unit?
    ensures ValidCharacter(p, c) && StandsAt(env.src, pos, CharacterText(c))
    ensures StringUnit(env, pos) == Unit(CharacterBytes(c), pos + |CharacterText(c)|)
  {
    hide Validate, Rfc3629, UnicodeEscape, Encode;
    var s := env.src;
    if At(s, pos) == 0x5C {
      var e := At(s, pos + 1);
      if e == 0x75 {
        c := EscapeTaken(p, s, pos);
      } else {
        c := Short(e);
        TwoStand(s, pos, e);
      }
    } else {
      c := Plain(StringUnit(env, pos).bytes);
      if p.utf8 {
        ValidateCopies(s, pos);
      }
      StandsAtSlice(s, pos, CharacterText(c));
      assert s[pos..pos + |CharacterText(c)|] == CharacterText(c);
    }
  }

  lemma {:induction false} TwoStand(s: Text, pos: nat, e: byte)
    requires At(s, pos) == 0x5C && At(s, pos + 1) == e != 0
    ensures StandsAt(s, pos, [0x5C, e])
  {
    StandsAtSlice(s, pos, [0x5C, e]);
    assert s[pos..pos + 2] == [0x5C, e];
  }

  /** An escape of one code unit or of a pair. */
  lemma {:induction false} EscapeTaken(p: Profile, s: Text, pos: nat) returns (c: Character)
    requires At(s, pos) == 0x5C && At(s, pos + 1) == 0x75 && UnicodeEscape(s, pos + 2).Some?
    ensures ValidCharacter(p, c) && StandsAt(s, pos, CharacterText(c))
    ensures UnicodeEscape(s, pos + 2).value.1 == pos + |CharacterText(c)|
    ensures Encode(UnicodeEscape(s, pos + 2).value.0) == CharacterBytes(c)
  {
    hide StandsAt, Hex4, HexNumber, HexText, HexAt, Encode, ValidHex, NibbleText;
    var u: Text := [0x5C, 0x75];
    TwoStand(s, pos, 0x75);
    var high := HexTaken(s, pos + 2);
    HexValid(s, pos + 2, high);
    StandsAtSplit(s, pos, u, HexText(high));
    if 0xD800 <= HexNumber(high) < 0xDC00 {
      var low := HexTaken(s, pos + 8);
      HexValid(s, pos + 8, low);
      TwoStand(s, pos + 6, 0x75);
      StandsAtSplit(s, pos, u + HexText(high), u);
      StandsAtSplit(s, pos, u + HexText(high) + u, HexText(low));
      c := Pair(high, low);
    } else {
      c := Code(high);
    }
  }

  lemma {:induction false} HexValid(s: Text, pos: nat, h: Hex)
    requires HexAt(s, pos, h)
    ensures ValidHex(h) && StandsAt(s, pos, HexText(h)) && |HexText(h)| == 4
  {
    HexStands(s, pos, h);
  }

  // ----- literals

  lemma {:induction false} CharactersCons(c: Character, cs: seq<Character>)
    ensures CharactersText([c] + cs) == CharacterText(c) + CharactersText(cs)
    ensures CharactersBytes([c] + cs) == CharacterBytes(c) + CharactersBytes(cs)
  {
    assert ([c] + cs)[1..] == cs;
  }

  lemma {:induction false} BodyReads(env: Env, p: Profile, pos: nat, cs: seq<Character>, out: Text)
    requires !p.loneHigh && p.utf8 == env.flags.validateEncoding
    requires ValidCharacters(p, cs) && StandsAt(env.src, pos, CharactersText(cs) + [0x22])
    ensures StringBody(env, pos, out) == Some((pos + |CharactersText(cs)| + 1, out + CharactersBytes(cs)))
    decreases |cs|
  {
    hide StringUnit, StandsAt, CharacterText, CharacterBytes, ValidCharacter;
    if cs == [] {
      QuoteEnds(env, pos);
      assert CharactersText(cs) + [0x22] == [0x22] && out + CharactersBytes(cs) == out;
    } else {
      assert [cs[0]] + cs[1..] == cs;
      CharactersCons(cs[0], cs[1..]);
      var rest := CharactersText(cs[1..]) + [0x22];
      assert CharactersText(cs) + [0x22] == CharacterText(cs[0]) + rest;
      StandsAtSplit(env.src, pos, CharacterText(cs[0]), rest);
      CharacterReads(env, p, pos, cs[0]);
      BodyReads(env, p, pos + |CharacterText(cs[0])|, cs[1..], out + CharacterBytes(cs[0]));
      assert out + CharacterBytes(cs[0]) + CharactersBytes(cs[1..])
        == out + (CharacterBytes(cs[0]) + CharactersBytes(cs[1..]));
    }
  }

  lemma {:induction false} QuoteEnds(env: Env, pos: nat)
    ensures StandsAt(env.src, pos, [0x22]) <==> At(env.src, pos) == 0x22
    ensures At(env.src, pos) == 0x22 ==> StringUnit(env, pos) == EndOfString
    ensures StringUnit(env, pos) == EndOfString ==> At(env.src, pos) == 0x22
  {
    if At(env.src, pos) == 0x22 {
      assert StandsAt(env.src, pos + 1, []);
      assert [0x22][1..] == [];
    }
    if StandsAt(env.src, pos, [0x22]) {
      FirstAt(env.src, pos, [0x22], 0);
    }
  }

  lemma {:induction false} BodyTaken(env: Env, p: Profile, pos: nat, out: Text) returns (cs: seq<Character>)
    requires p.utf8 == env.flags.validateEncoding && StringBody(env, pos, out).Some?
    ensures ValidCharacters(p, cs) && StandsAt(env.src, pos, CharactersText(cs) + [0x22])
    ensures StringBody(env, pos, out) == Some((pos + |CharactersText(cs)| + 1, out + CharactersBytes(cs)))
    decreases |env.src| - pos
  {
    hide StringUnit, StandsAt, CharacterText, CharacterBytes, ValidCharacter;
    match StringUnit(env, pos) {
      case Unit(bytes, next) =>
        var c := CharacterTaken(env, p, pos);
        var rest := BodyTaken(env, p, next, out + bytes);
        cs := [c] + rest;
        CharactersCons(c, rest);
        StandsAtSplit(env.src, pos, CharacterText(c), CharactersText(rest) + [0x22]);
        assert CharactersText(cs) + [0x22] == CharacterText(c) + (CharactersText(rest) + [0x22]);
        assert out + bytes + CharactersBytes(rest) == out + (bytes + CharactersBytes(rest));
      case EndOfString =>
        cs := [];
        QuoteEnds(env, pos);
        assert CharactersText([]) + [0x22] == [0x22] && out + CharactersBytes([]) == out;
      case Bad =>
    }
  }

  /** A literal of the grammar is read as the bytes it stands for. */
  lemma {:induction false} LiteralReads(env: Env, p: Profile, pos: nat, cs: seq<Character>)
    requires !p.loneHigh && p.utf8 == env.flags.validateEncoding
    requires ValidCharacters(p, cs) && StandsAt(env.src, pos, Literal(cs))
    ensures At(env.src, pos) == 0x22
    ensures StringBody(env, pos + 1, []) == Some((pos + |Literal(cs)|, CharactersBytes(cs)))
  {
    hide StandsAt, StringBody, CharactersText, CharactersBytes;
    assert Literal(cs) == [0x22] + (CharactersText(cs) + [0x22]);
    StandsAtSplit(env.src, pos, [0x22], CharactersText(cs) + [0x22]);
    QuoteEnds(env, pos);
    BodyReads(env, p, pos + 1, cs, []);
    assert [] + CharactersBytes(cs) == CharactersBytes(cs);
  }

  /** And a literal that is read is one of the grammar. */
  lemma {:induction false} LiteralTaken(env: Env, p: Profile, pos: nat) returns (cs: seq<Character>)
    requires p.utf8 == env.flags.validateEncoding
    requires At(env.src, pos) == 0x22 && StringBody(env, pos + 1, []).Some?
    ensures ValidCharacters(p, cs) && StandsAt(env.src, pos, Literal(cs))
    ensures StringBody(env, pos + 1, []) == Some((pos + |Literal(cs)|, CharactersBytes(cs)))
  {
    hide StandsAt, StringBody, CharactersText, CharactersBytes;
    cs := BodyTaken(env, p, pos + 1, []);
    QuoteEnds(env, pos);
    StandsAtSplit(env.src, pos, [0x22], CharactersText(cs) + [0x22]);
    assert Literal(cs) == [0x22] + (CharactersText(cs) + [0x22]);
    assert [] + CharactersBytes(cs) == CharactersBytes(cs);
  }
}
