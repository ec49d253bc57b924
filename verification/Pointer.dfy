/** JSON pointers (pointer.h): parsing, printing, and how the two undo each other. */
module Pointer {
  import opened Bytes
  import opened Encodings
  import opened Events
  import opened Options

  // ----- characters

  /** Everything but the unreserved characters of section 2.3 of RFC 3986. */
  predicate NeedPercentEncode(c: byte) {
    !(48 <= c <= 57 || 65 <= c <= 90 || 97 <= c <= 122 || c == MINUS || c == DOT || c == 95 || c == TILDE)
  }

  /** One %XY triplet. */
  function PercentByte(s: Text, i: nat): Option<byte> {
    if i + 3 <= |s| && s[i] == PERCENT && HexValue(s[i + 1]) >= 0 && HexValue(s[i + 2]) >= 0 then
      Some(16 * HexValue(s[i + 1]) + HexValue(s[i + 2]))
    else None
  }

  /** The bytes of up to `n` triplets from `i` on. */
  function PercentBytes(s: Text, i: nat, n: nat): (r: Text)
    ensures |r| <= n
    ensures i <= |s| ==> i + 3 * |r| <= |s|
    decreases n
  {
    var b := PercentByte(s, i);
    if n == 0 || b.None? then [] else [b.value] + PercentBytes(s, i + 3, n - 1)
  }

  function PercentText(bytes: Text): Text {
    if bytes == [] then []
    else [PERCENT, HexDigit(bytes[0] / 16), HexDigit(bytes[0] % 16)] + PercentText(bytes[1..])
  }

  // ----- parsing

  datatype ErrorCode =
    | TokenMustBeginWithSolidus
    | InvalidEscape
    | InvalidPercentEncoding
    | CharacterMustPercentEncode

  /** What one round of the name loop takes: bytes for the name, or an error with its offset. */
  datatype Unit = Piece(bytes: Text, next: nat) | Broken(code: ErrorCode, offset: nat)

  /** A character of a name, escapes resolved; `next` is behind the character `c` was read from. */
  function Unescape(s: Text, c: byte, next: nat): Unit {
    if c != TILDE then Piece([c], next)
    else if next < |s| && s[next] == 48 then Piece([TILDE], next + 1)
    else if next < |s| && s[next] == 49 then Piece([SLASH], next + 1)
    else Broken(InvalidEscape, next)
  }

  /** A percent-encoded UTF-8 sequence: its bytes must validate and come from well-formed triplets. */
  function PercentSequence(s: Text, i: nat): Option<Text> {
    var b := PercentBytes(s, i, 4);
    var v := Validate(b, 0);
    if v.ok && v.next <= |b| then Some(v.copied) else None
  }

  function TakeUnit(s: Text, uri: bool, i: nat): Unit
    requires i < |s|
  {
    var c := s[i];
    if uri && c == PERCENT then
      var p := PercentSequence(s, i);
      if p.None? then Broken(InvalidPercentEncoding, i)
      else if |p.value| == 1 then Unescape(s, p.value[0], i + 3)
      else Piece(p.value, i + 3 * |p.value|)
    else if uri && NeedPercentEncode(c) then Broken(CharacterMustPercentEncode, i)
    else Unescape(s, c, i + 1)
  }

  lemma {:induction false} UnitAdvances(s: Text, uri: bool, i: nat)
    requires i < |s|
    ensures
      var u := TakeUnit(s, uri, i);
      u.Piece? ==> i < u.next <= |s| && 1 <= |u.bytes| <= u.next - i
  {
    NothingValidates();
    if uri && s[i] == PERCENT && PercentSequence(s, i).Some? {
      ValidateCopies(PercentBytes(s, i, 4), 0);
    }
  }

  lemma {:induction false} NothingValidates()
    ensures Validate([], 0).next == 1
  {
  }

  datatype NameResult = Name(name: Text, end: nat) | NameError(code: ErrorCode, offset: nat)

  /** A name from `i` up to the next solidus or the end. */
  function ParseName(s: Text, uri: bool, i: nat): (r: NameResult)
    requires i <= |s|
    ensures r.Name? ==> i <= r.end <= |s| && |r.name| <= r.end - i && (r.end == |s| || s[r.end] == SLASH)
    decreases |s| - i
  {
    if i == |s| || s[i] == SLASH then Name([], i)
    else
      UnitAdvances(s, uri, i);
      var u := TakeUnit(s, uri, i);
      if u.Broken? then NameError(u.code, u.offset)
      else
        var rest := ParseName(s, uri, u.next);
        if rest.NameError? then rest else Name(u.bytes + rest.name, rest.end)
  }

  const INVALID_INDEX := 0xFFFF_FFFF

  predicate AllDigits(s: Text) {
    forall i | 0 <= i < |s| :: IsDigit(s[i])
  }

  /** The number of a digit string in 32-bit arithmetic, given up at the first digit that makes it smaller. */
  function IndexFrom(name: Text, j: nat, n: nat): nat
    requires j <= |name| && AllDigits(name)
    decreases |name| - j
  {
    if j == |name| then n
    else
      var m := (n * 10 + (name[j] - 48)) % SIZE_TYPE_LIMIT;
      if m < n then INVALID_INDEX else IndexFrom(name, j + 1, m)
  }

  /** As much of a name as the 32-bit length field says it has. */
  function Cut(name: Text): (r: Text)
    ensures r <= name
  {
    name[..|name| % SIZE_TYPE_LIMIT]
  }

  /** The array index a name stands for, or the invalid index. */
  function IndexOf(name: Text): nat {
    var cut := Cut(name);
    if cut == [] || !AllDigits(name) || (|cut| > 1 && cut[0] == ZERO) then INVALID_INDEX
    else IndexFrom(cut, 0, 0)
  }

  /** The number decimal digits say. */
  function Number(digits: Text): int {
    if digits == [] then 0 else Number(digits[..|digits| - 1]) * 10 + digits[|digits| - 1] as int - 48
  }

  /** Decimal digits without a superfluous zero. */
  predicate Numeral(name: Text) {
    name != [] && (forall i | 0 <= i < |name| :: 48 <= name[i] <= 57) && (|name| > 1 ==> name[0] != 48)
  }

  lemma {:induction false} NumberGrows(digits: Text, j: nat)
    requires j <= |digits| && AllDigits(digits)
    ensures 0 <= Number(digits[..j]) <= Number(digits)
  {
    if j == |digits| {
      assert digits[..j] == digits;
      NumberNatural(digits);
    } else {
      var init := digits[..|digits| - 1];
      assert init[..j] == digits[..j];
      NumberGrows(init, j);
    }
  }

  lemma {:induction false} NumberNatural(digits: Text)
    requires AllDigits(digits)
    ensures Number(digits) >= 0
  {
    if digits != [] {
      NumberNatural(digits[..|digits| - 1]);
    }
  }

  lemma {:induction false} FirstDigit(name: Text)
    requires AllDigits(name)
    ensures name != [] ==> IndexFrom(name, 0, 0) == IndexFrom(name, 1, name[0] as int - 48)
    ensures forall n :: IndexFrom(name, |name|, n) == n
  {
  }

  lemma {:induction false} IndexCounts(name: Text, j: nat)
    requires j <= |name| && AllDigits(name) && Number(name) < SIZE_TYPE_LIMIT
    ensures Number(name[..j]) >= 0 && IndexFrom(name, j, Number(name[..j])) == Number(name)
    decreases |name| - j
  {
    hide Number, IndexFrom;
    NumberGrows(name, j);
    if j == |name| {
      assert name[..j] == name;
      FirstDigit(name);
    } else {
      NumberGrows(name, j + 1);
      NextDigit(name, j);
      IndexCounts(name, j + 1);
    }
  }

  lemma {:induction false} NextDigit(name: Text, j: nat)
    requires j < |name| && AllDigits(name) && Number(name[..j]) >= 0
    ensures
      var m := Number(name[..j + 1]);
      && m == Number(name[..j]) * 10 + name[j] as int - 48
      && (m < SIZE_TYPE_LIMIT ==> IndexFrom(name, j, Number(name[..j])) == IndexFrom(name, j + 1, m))
  {
    hide IndexFrom;
    assert name[..j + 1][..j] == name[..j] && name[..j + 1][j] == name[j];
    IndexStep(name, j, Number(name[..j]));
  }

  lemma {:induction false} IndexStep(name: Text, j: nat, n: nat)
    requires j < |name| && AllDigits(name)
    ensures
      var m := n * 10 + name[j] as int - 48;
      m < SIZE_TYPE_LIMIT ==> IndexFrom(name, j, n) == IndexFrom(name, j + 1, m)
  {
  }

  lemma {:induction false} IndexRange(name: Text, j: nat, n: nat)
    requires j <= |name| && AllDigits(name) && n < SIZE_TYPE_LIMIT
    ensures IndexFrom(name, j, n) < SIZE_TYPE_LIMIT
    decreases |name| - j
  {
    if j < |name| {
      IndexRange(name, j + 1, (n * 10 + (name[j] - 48)) % SIZE_TYPE_LIMIT);
    }
  }

  /** A numeral is the index it says exactly when 32 bits hold it, and other names are no indices. */
  lemma {:induction false} IndexIs(name: Text)
    requires |name| < SIZE_TYPE_LIMIT
    ensures !Numeral(name) ==> IndexOf(name) == 0xFFFF_FFFF
    ensures Numeral(name) ==> (IndexOf(name) == Number(name) <==> Number(name) < 0x1_0000_0000)
  {
    hide IndexFrom;
    assert Cut(name) == name;
    if Numeral(name) {
      IndexRange(name, 0, 0);
      if Number(name) < SIZE_TYPE_LIMIT {
        IndexCounts(name, 0);
        assert name[..0] == [];
      }
    }
  }

  lemma {:induction false} ZeroDigit(name: Text, j: nat, n: nat)
    requires j < |name| && AllDigits(name) && name[j] == 48 && n < SIZE_TYPE_LIMIT
    ensures IndexFrom(name, j, n)
      == (var m := 10 * n % SIZE_TYPE_LIMIT; if m < n then INVALID_INDEX else IndexFrom(name, j + 1, m))
  {
  }

  /** The wrap check sees only some wraps: "10000000000" becomes the index 1410065408. */
  lemma {:induction false} WrappedIndex(name: Text)
    requires |name| == 11 && name[0] == 49 && forall k | 0 < k < 11 :: name[k] == 48
    ensures IndexOf(name) == 1410065408
  {
    hide IndexFrom;
    assert Cut(name) == name && AllDigits(name);
    FirstDigit(name);
    ZeroDigit(name, 1, 1);
    ZeroDigit(name, 2, 10);
    ZeroDigit(name, 3, 100);
    ZeroDigit(name, 4, 1000);
    ZeroDigit(name, 5, 10000);
    ZeroDigit(name, 6, 100000);
    ZeroDigit(name, 7, 1000000);
    ZeroDigit(name, 8, 10000000);
    ZeroDigit(name, 9, 100000000);
    ZeroDigit(name, 10, 1000000000);
  }

  datatype Token = Token(name: Text, index: nat)

  datatype ParseResult = Tokens(tokens: seq<Token>) | ParseError(code: ErrorCode, offset: nat)

  /** The tokens from `i` on, where a solidus stands or the text ends. */
  function ParseTokens(s: Text, uri: bool, i: nat): ParseResult
    requires i <= |s|
    decreases |s| - i
  {
    if i == |s| then Tokens([])
    else
      var n := ParseName(s, uri, i + 1);
      if n.NameError? then ParseError(n.code, n.offset)
      else
        var rest := ParseTokens(s, uri, n.end);
        if rest.ParseError? then rest else Tokens([Token(n.name, IndexOf(n.name))] + rest.tokens)
  }

  function Parse(s: Text): ParseResult {
    var uri := At(s, 0) == HASH;
    var i := if uri then 1 else 0;
    if i < |s| && s[i] != SLASH then ParseError(TokenMustBeginWithSolidus, i)
    else ParseTokens(s, uri, i)
  }

  /** Tildes of `[lo, hi)` are all followed by 0 or 1. */
  predicate Tildes(s: Text, lo: nat, hi: nat) {
    forall k | lo <= k < hi <= |s| && s[k] == 0x7E :: k + 1 < |s| && (s[k + 1] == 0x30 || s[k + 1] == 0x31)
  }

  lemma {:induction false} PlainNameAccepts(s: Text, i: nat)
    requires i <= |s|
    ensures
      var n := ParseName(s, false, i);
      if n.Name? then Tildes(s, i, n.end) else !Tildes(s, i, |s|)
    decreases |s| - i
  {
    if i < |s| && s[i] != SLASH {
      UnitAdvances(s, false, i);
      var u := TakeUnit(s, false, i);
      if u.Piece? {
        PlainNameAccepts(s, u.next);
      } else {
        assert s[i] == 0x7E;
      }
    }
  }

  lemma {:induction false} PlainTokensAccept(s: Text, i: nat)
    requires i <= |s| && (i < |s| ==> s[i] == SLASH)
    ensures ParseTokens(s, false, i).Tokens? <==> Tildes(s, i, |s|)
    decreases |s| - i
  {
    hide ParseName, IndexOf;
    if i < |s| {
      PlainNameAccepts(s, i + 1);
      var n := ParseName(s, false, i + 1);
      if n.Name? {
        PlainTokensAccept(s, n.end);
      }
    }
  }

  /**
   * The grammar of section 3 of RFC 6901: a plain text is a pointer exactly when it is empty or starts
   * with a solidus and each tilde in it is followed by 0 or 1.
   */
  lemma {:induction false} PlainAccepts(s: Text)
    requires s == [] || s[0] != 0x23
    ensures Parse(s).Tokens? <==> (s == [] || s[0] == 0x2F) && Tildes(s, 0, |s|)
  {
    if s == [] || s[0] == SLASH {
      PlainTokensAccept(s, 0);
    }
  }

  // ----- printing

  /** A token's length as the 32-bit field holds it. */
  function Length(t: Token): nat { |t.name| % SIZE_TYPE_LIMIT }

  /** The text of a name's characters from `j` to `len`; nothing when a sequence does not validate. */
  function PrintName(uri: bool, name: Text, j: nat, len: nat): Option<Text>
    requires len <= |name|
    decreases len - j
  {
    if j >= len then Some([])
    else
      var c := name[j];
      if c == TILDE then Prepend([TILDE, 48], PrintName(uri, name, j + 1, len))
      else if c == SLASH then Prepend([TILDE, 49], PrintName(uri, name, j + 1, len))
      else if uri && NeedPercentEncode(c) then
        var v := Validate(name, j);
        if !v.ok || v.next <= j then None
        else Prepend(PercentText(v.copied), PrintName(uri, name, v.next, len))
      else Prepend([c], PrintName(uri, name, j + 1, len))
  }

  function Prepend(a: Text, b: Option<Text>): Option<Text> {
    if b.None? then None else Some(a + b.value)
  }

  function PrintTokens(uri: bool, tokens: seq<Token>): Option<Text> {
    if tokens == [] then Some([])
    else
      var n := PrintName(uri, tokens[0].name, 0, Length(tokens[0]));
      if n.None? then None else Prepend([SLASH] + n.value, PrintTokens(uri, tokens[1..]))
  }

  /** Stringify, in both representations. */
  function Stringify(uri: bool, tokens: seq<Token>): Option<Text> {
    Prepend(if uri then [HASH] else [], PrintTokens(uri, tokens))
  }

  /** The characters section 2.3 of RFC 3986 leaves unreserved, without the tilde. */
  predicate Unreserved(c: byte) {
    48 <= c <= 57 || 65 <= c <= 90 || 97 <= c <= 122 || c == 45 || c == 46 || c == 95
  }

  predicate AllUnreserved(name: Text, j: nat)
    decreases |name| - j
  {
    j < |name| ==> Unreserved(name[j]) && AllUnreserved(name, j + 1)
  }

  /** A name stands in a fragment as it is exactly when all its characters are unreserved; others make it longer. */
  lemma {:induction false} NameInFragment(name: Text, j: nat)
    requires j <= |name|
    ensures
      var p := PrintName(true, name, j, |name|);
      && (AllUnreserved(name, j) ==> p == Some(name[j..]))
      && (p.Some? ==> |p.value| >= |name| - j && (!AllUnreserved(name, j) ==> |p.value| > |name| - j))
    decreases |name| - j
  {
    if j < |name| {
      var c := name[j];
      if c != TILDE && c != SLASH && NeedPercentEncode(c) {
        ValidateCopies(name, j);
        var v := Validate(name, j);
        if v.ok && v.next > j {
          assert v.next <= |name|;
          NameInFragment(name, v.next);
          PercentLonger(v.copied);
          assert !AllUnreserved(name, j);
        }
      } else {
        NameInFragment(name, j + 1);
        assert name[j..] == [c] + name[j + 1..];
      }
    } else {
      assert name[j..] == [];
    }
  }

  lemma {:induction false} PercentLonger(b: Text)
    ensures |PercentText(b)| == 3 * |b|
  {
    if b != [] {
      PercentLonger(b[1..]);
    }
  }

  /** Names whose length the 32-bit field can hold. */
  predicate ShortNames(tokens: seq<Token>) {
    forall k | 0 <= k < |tokens| :: |tokens[k].name| < SIZE_TYPE_LIMIT
  }

  // ----- the plain representation

  /** The plain text of the first `len` characters. */
  function Escaped(name: Text): Text {
    if name == [] then []
    else
      (if name[0] == TILDE then [TILDE, 48] else if name[0] == SLASH then [TILDE, 49] else [name[0]])
      + Escaped(name[1..])
  }

  lemma {:induction false} PlainNamePrints(name: Text, j: nat, len: nat)
    requires j <= len <= |name|
    ensures PrintName(false, name, j, len) == Some(Escaped(name[j..len]))
    decreases len - j
  {
    if j < len {
      PlainNamePrints(name, j + 1, len);
      assert name[j..len][1..] == name[j + 1..len];
    }
  }

  lemma {:induction false} PlainNameParsed(s: Text, i: nat)
    requires i <= |s| && ParseName(s, false, i).Name?
    ensures s[i..ParseName(s, false, i).end] == Escaped(ParseName(s, false, i).name)
    decreases |s| - i
  {
    if i < |s| && s[i] != SLASH {
      UnitAdvances(s, false, i);
      var u := TakeUnit(s, false, i);
      var rest := ParseName(s, false, u.next);
      PlainNameParsed(s, u.next);
      assert (u.bytes + rest.name)[1..] == rest.name;
      assert s[i..rest.end] == s[i..u.next] + s[u.next..rest.end];
      PlainUnit(s, i);
    }
  }

  lemma {:induction false} PlainUnit(s: Text, i: nat)
    requires i < |s| && s[i] != SLASH && TakeUnit(s, false, i).Piece?
    ensures
      var u := TakeUnit(s, false, i);
      |u.bytes| == 1 && i < u.next <= |s|
      && s[i..u.next]
        == (if u.bytes[0] == TILDE then [TILDE, 48] else if u.bytes[0] == SLASH then [TILDE, 49] else [u.bytes[0]])
  {
    var u := TakeUnit(s, false, i);
    if s[i] == TILDE {
      assert s[i..u.next] == [s[i], s[i + 1]];
    } else {
      assert s[i..u.next] == [s[i]];
    }
  }

  /** The plain text of a token list with its names at full length. */
  function FullText(tokens: seq<Token>): Text {
    if tokens == [] then [] else [SLASH] + Escaped(tokens[0].name) + FullText(tokens[1..])
  }

  lemma {:induction false} PlainTokensParsed(s: Text, i: nat)
    requires i <= |s| && (i < |s| ==> s[i] == SLASH)
    requires ParseTokens(s, false, i).Tokens?
    ensures s[i..] == FullText(ParseTokens(s, false, i).tokens)
    decreases |s| - i
  {
    hide ParseName, Escaped, IndexOf;
    if i < |s| {
      var n := ParseName(s, false, i + 1);
      PlainNameParsed(s, i + 1);
      PlainTokensParsed(s, n.end);
      var rest := ParseTokens(s, false, n.end).tokens;
      assert ([Token(n.name, IndexOf(n.name))] + rest)[1..] == rest;
      assert s[i..] == [SLASH] + s[i + 1..n.end] + s[n.end..];
    }
  }

  lemma {:induction false} EscapedPrefix(name: Text, len: nat)
    requires len <= |name|
    ensures |Escaped(name[..len])| <= |Escaped(name)|
    ensures len < |name| ==> |Escaped(name[..len])| < |Escaped(name)|
    decreases len
  {
    if len > 0 {
      assert name[..len][1..] == name[1..][..len - 1];
      EscapedPrefix(name[1..], len - 1);
    }
  }

  /** Printed text falls short of the full text exactly when a name is longer than its length field can say. */
  lemma {:induction false} PlainTokensPrint(tokens: seq<Token>)
    ensures
      var p := PrintTokens(false, tokens);
      p.Some? && |p.value| <= |FullText(tokens)| && (p.value == FullText(tokens) <==> ShortNames(tokens))
      && (!ShortNames(tokens) ==> |p.value| < |FullText(tokens)|)
    decreases |tokens|
  {
    if tokens != [] {
      var t, rest := tokens[0], tokens[1..];
      PlainTokensPrint(rest);
      PlainNamePrints(t.name, 0, Length(t));
      EscapedPrefix(t.name, Length(t));
      assert t.name[0..Length(t)] == t.name[..Length(t)];
      if |t.name| < SIZE_TYPE_LIMIT {
        assert Length(t) == |t.name| && t.name[..Length(t)] == t.name;
        ShortTail(tokens);
      } else {
        assert Length(t) < SIZE_TYPE_LIMIT <= |t.name|;
        assert !ShortNames(tokens);
      }
    }
  }

  lemma {:induction false} ShortTail(tokens: seq<Token>)
    requires tokens != [] && |tokens[0].name| < SIZE_TYPE_LIMIT
    ensures ShortNames(tokens) <==> ShortNames(tokens[1..])
  {
    forall k | 0 < k < |tokens| ensures tokens[k] == tokens[1..][k - 1] {
    }
    if ShortNames(tokens[1..]) {
      forall k | 0 <= k < |tokens| ensures |tokens[k].name| < SIZE_TYPE_LIMIT {
        if k > 0 {
          assert tokens[k] == tokens[1..][k - 1];
        }
      }
    }
  }

  /**
   * Printing an accepted plain pointer reproduces its source exactly, as long as the source's names
   * are shorter than the 32-bit length field can hold, and never otherwise.
   */
  lemma {:induction false} PrintUndoesParse(s: Text)
    requires At(s, 0) != HASH && Parse(s).Tokens?
    ensures Stringify(false, Parse(s).tokens) == Some(s) <==> ShortNames(Parse(s).tokens)
    ensures |s| < SIZE_TYPE_LIMIT ==> Stringify(false, Parse(s).tokens) == Some(s)
  {
    var tokens := Parse(s).tokens;
    PlainTokensParsed(s, 0);
    PlainTokensPrint(tokens);
    assert s[0..] == s;
    assert [] + PrintTokens(false, tokens).value == PrintTokens(false, tokens).value;
    if |s| < SIZE_TYPE_LIMIT {
      NamesShort(tokens);
    }
  }

  /** A solidus and a name of 2^32 letters. */
  function LongSource(): (s: Text)
    ensures |s| == SIZE_TYPE_LIMIT + 1
  {
    [SLASH] + seq(SIZE_TYPE_LIMIT, _ => 97)
  }

  lemma {:induction false} LettersParsed(s: Text, i: nat)
    requires i <= |s| && forall k | i <= k < |s| :: s[k] == 97
    ensures ParseName(s, false, i) == Name(s[i..], |s|)
    decreases |s| - i
  {
    if i < |s| {
      LettersParsed(s, i + 1);
      assert TakeUnit(s, false, i) == Piece([s[i]], i + 1);
      assert s[i..] == [s[i]] + s[i + 1..];
    }
  }

  /** The length field of that name is 0, so the pointer prints as a lone solidus. */
  lemma {:induction false} LongNamePrintsShort()
    ensures
      var r := Parse(LongSource());
      && r.Tokens? && |r.tokens| == 1 && |r.tokens[0].name| == SIZE_TYPE_LIMIT && Length(r.tokens[0]) == 0
      && Stringify(false, r.tokens) == Some([SLASH]) != Some(LongSource())
  {
    hide IndexOf, ParseName;
    var s := LongSource();
    LettersParsed(s, 1);
    var t := Token(s[1..], IndexOf(s[1..]));
    assert ParseTokens(s, false, |s|) == Tokens([]);
    assert [t] + [] == [t];
    assert ParseTokens(s, false, 0) == Tokens([t]);
    LoneSolidus(t);
    assert |[SLASH]| != |s|;
  }

  lemma {:induction false} LoneSolidus(t: Token)
    requires Length(t) == 0
    ensures Stringify(false, [t]) == Some([SLASH])
  {
    assert PrintName(false, t.name, 0, 0) == Some([]);
    assert [t][1..] == [];
    assert PrintTokens(false, []) == Some([]);
    assert [SLASH] + [] + [] == [SLASH] && [] + [SLASH] == [SLASH];
  }

  lemma {:induction false} EscapedLonger(name: Text)
    ensures |Escaped(name)| >= |name|
    decreases |name|
  {
    if name != [] {
      EscapedLonger(name[1..]);
    }
  }

  lemma {:induction false} NamesShort(tokens: seq<Token>)
    ensures |FullText(tokens)| < SIZE_TYPE_LIMIT ==> ShortNames(tokens)
    decreases |tokens|
  {
    if tokens != [] && |FullText(tokens)| < SIZE_TYPE_LIMIT {
      EscapedLonger(tokens[0].name);
      NamesShort(tokens[1..]);
      ShortTail(tokens);
    }
  }

  // ----- reading printed text, in either representation

  /** A sequence of the RFC grammar validates wherever it stands. */
  lemma {:induction false} SequenceStands(b: Text, p: nat, unit: Text)
    requires Rfc3629(unit) && StandsAt(b, p, unit)
    ensures Validate(b, p) == Validated(true, unit, p + |unit|)
  {
    hide Validate, Decode, Encode;
    StandsAtSlice(b, p, unit);
    FirstAt(b, p, unit, 0);
    GrammarWidth(unit);
    DecodeExact(b, p);
    ValidateAgrees(b, p);
    ValidateCopies(b, p);
  }

  lemma {:induction false} HexPair(b: byte)
    ensures HexValue(HexDigit(b / 16)) == b / 16 && HexValue(HexDigit(b % 16)) == b % 16 && 16 * (b / 16) + b % 16 == b
  {
  }

  lemma {:induction false} PercentReads(u: Text, p: nat, bytes: Text, n: nat)
    requires StandsAt(u, p, PercentText(bytes)) && |bytes| <= n
    ensures StandsAt(PercentBytes(u, p, n), 0, bytes)
    decreases n
  {
    var got := PercentBytes(u, p, n);
    if bytes != [] {
      var triplet := [PERCENT, HexDigit(bytes[0] / 16), HexDigit(bytes[0] % 16)];
      StandsAtSplit(u, p, triplet, PercentText(bytes[1..]));
      FirstAt(u, p, triplet, 0);
      FirstAt(u, p, triplet, 1);
      FirstAt(u, p, triplet, 2);
      HexPair(bytes[0]);
      PercentReads(u, p + 3, bytes[1..], n - 1);
      var rest := PercentBytes(u, p + 3, n - 1);
      assert got == [bytes[0]] + rest;
      StandsAtSlice(rest, 0, bytes[1..]);
      StandsAtSlice(got, 0, bytes);
      assert got[0..|bytes|] == [bytes[0]] + rest[0..|bytes| - 1];
      assert bytes == [bytes[0]] + bytes[1..];
    }
  }

  lemma {:induction false} PercentSequenceReads(u: Text, p: nat, unit: Text)
    requires Rfc3629(unit) && StandsAt(u, p, PercentText(unit))
    ensures PercentSequence(u, p) == Some(unit)
  {
    PercentReads(u, p, unit, 4);
    SequenceStands(PercentBytes(u, p, 4), 0, unit);
  }

  lemma {:induction false} PercentTextLength(bytes: Text)
    ensures |PercentText(bytes)| == 3 * |bytes|
    ensures bytes != [] ==> PercentText(bytes)[0] == PERCENT
  {
    if bytes != [] {
      PercentTextLength(bytes[1..]);
    }
  }

  /** The characters one round of the printing loop deals with: the text it puts and where it goes on. */
  datatype Step = Step(text: Text, next: nat) | Stuck

  function PrintStep(uri: bool, name: Text, j: nat): Step
    requires j < |name|
  {
    var c := name[j];
    if c == TILDE then Step([TILDE, 48], j + 1)
    else if c == SLASH then Step([TILDE, 49], j + 1)
    else if uri && NeedPercentEncode(c) then
      var v := Validate(name, j);
      if v.ok then Step(PercentText(v.copied), v.next) else Stuck
    else Step([c], j + 1)
  }

  lemma {:induction false} PrintSteps(uri: bool, name: Text, j: nat)
    requires j < |name|
    ensures
      var p := PrintStep(uri, name, j);
      && (p.Step? ==> j < p.next <= |name|)
      && PrintName(uri, name, j, |name|)
         == (if p.Stuck? then None else Prepend(p.text, PrintName(uri, name, p.next, |name|)))
  {
    hide Validate, PercentText;
    ValidateCopies(name, j);
  }

  /** The parser's round undoes the printer's. */
  lemma {:induction false} StepReads(uri: bool, u: Text, p: nat, name: Text, j: nat)
    requires j < |name| && PrintStep(uri, name, j).Step? && StandsAt(u, p, PrintStep(uri, name, j).text)
    ensures
      var t := PrintStep(uri, name, j);
      && t.text != [] && t.text[0] != SLASH && j < t.next <= |name|
      && p < |u| && u[p] == t.text[0]
      && TakeUnit(u, uri, p) == Piece(name[j..t.next], p + |t.text|)
  {
    hide Validate, PercentText, PercentSequence, StandsAt, Rfc3629;
    var c := name[j];
    var t := PrintStep(uri, name, j);
    if c == TILDE || c == SLASH {
      FirstAt(u, p, t.text, 0);
      FirstAt(u, p, t.text, 1);
      assert name[j..j + 1] == [c];
    } else if uri && NeedPercentEncode(c) {
      ValidateCopies(name, j);
      var unit := Validate(name, j).copied;
      PercentTextLength(unit);
      FirstAt(u, p, t.text, 0);
      PercentSequenceReads(u, p, unit);
      assert unit[0] == c;
    } else {
      FirstAt(u, p, t.text, 0);
      assert name[j..j + 1] == [c];
    }
  }

  lemma {:induction false} NameReads(uri: bool, u: Text, p: nat, name: Text, j: nat)
    requires j <= |name| && PrintName(uri, name, j, |name|).Some?
    requires StandsAt(u, p, PrintName(uri, name, j, |name|).value)
    requires
      var end := p + |PrintName(uri, name, j, |name|).value|;
      end == |u| || u[end] == SLASH
    ensures ParseName(u, uri, p) == Name(name[j..], p + |PrintName(uri, name, j, |name|).value|)
    decreases |name| - j
  {
    hide PrintStep, TakeUnit, StandsAt, PrintName, ParseName;
    if j == |name| {
      PrintDone(uri, name);
      NameDone(u, uri, p);
    } else {
      PrintSteps(uri, name, j);
      var t := PrintStep(uri, name, j);
      var rest := PrintName(uri, name, t.next, |name|).value;
      StandsAtSplit(u, p, t.text, rest);
      StepReads(uri, u, p, name, j);
      NameReads(uri, u, p + |t.text|, name, t.next);
      UnitParsed(u, uri, p);
      assert name[j..] == name[j..t.next] + name[t.next..];
    }
  }

  lemma {:induction false} PrintDone(uri: bool, name: Text)
    ensures PrintName(uri, name, |name|, |name|) == Some([])
  {
  }

  lemma {:induction false} NameDone(u: Text, uri: bool, p: nat)
    requires p == |u| || (p < |u| && u[p] == SLASH)
    ensures ParseName(u, uri, p) == Name([], p)
  {
  }

  lemma {:induction false} UnitParsed(s: Text, uri: bool, i: nat)
    requires i < |s| && s[i] != SLASH && TakeUnit(s, uri, i).Piece? && TakeUnit(s, uri, i).next <= |s|
    ensures
      var u := TakeUnit(s, uri, i);
      ParseName(s, uri, i) ==
        (var rest := ParseName(s, uri, u.next);
         if rest.NameError? then rest else Name(u.bytes + rest.name, rest.end))
  {
    hide TakeUnit;
    UnitAdvances(s, uri, i);
  }

  /** Tokens as the parser makes them. */
  predicate Indexed(tokens: seq<Token>) {
    forall k | 0 <= k < |tokens| :: tokens[k].index == IndexOf(tokens[k].name)
  }

  lemma {:induction false} ParsedIndexed(s: Text, uri: bool, i: nat)
    requires i <= |s| && ParseTokens(s, uri, i).Tokens?
    ensures Indexed(ParseTokens(s, uri, i).tokens)
    decreases |s| - i
  {
    hide IndexOf, ParseName;
    if i < |s| {
      ParsedIndexed(s, uri, ParseName(s, uri, i + 1).end);
    }
  }

  lemma {:induction false} PrintedStart(uri: bool, tokens: seq<Token>)
    requires tokens != [] && PrintTokens(uri, tokens).Some?
    ensures
      var text := PrintTokens(uri, tokens).value;
      text != [] && text[0] == SLASH
  {
  }

  lemma {:induction false} TokensRead(uri: bool, u: Text, p: nat, tokens: seq<Token>)
    requires ShortNames(tokens) && Indexed(tokens) && PrintTokens(uri, tokens).Some?
    requires StandsAt(u, p, PrintTokens(uri, tokens).value) && p + |PrintTokens(uri, tokens).value| == |u|
    ensures ParseTokens(u, uri, p) == Tokens(tokens)
    decreases |tokens|
  {
    hide PrintName, ParseName, IndexOf, StandsAt;
    if tokens != [] {
      var t, rest := tokens[0], tokens[1..];
      var n, r := PrintName(uri, t.name, 0, |t.name|).value, PrintTokens(uri, rest).value;
      assert PrintTokens(uri, tokens).value == [SLASH] + n + r;
      assert [SLASH] + n + r == [SLASH] + (n + r);
      StandsAtSplit(u, p, [SLASH], n + r);
      StandsAtSplit(u, p + 1, n, r);
      if rest != [] {
        PrintedStart(uri, rest);
        FirstAt(u, p + 1 + |n|, r, 0);
      }
      NameReads(uri, u, p + 1, t.name, 0);
      assert t.name[0..] == t.name;
      TokensRead(uri, u, p + 1 + |n|, rest);
      assert [t] + rest == tokens;
    }
  }

  /** A name printed up to its length field is the text of a beginning of it, not much longer than the field says. */
  lemma {:induction false} PrintCut(uri: bool, name: Text, j: nat, len: nat) returns (e: nat)
    requires j <= |name| && len <= |name| && j <= len + 3 && PrintName(uri, name, j, len).Some?
    ensures j <= e <= |name| && len <= e <= len + 3
    ensures PrintName(uri, name[..e], j, e) == PrintName(uri, name, j, len)
    decreases |name| - j
  {
    hide Validate, PercentText, Rfc3629, StandsAt;
    e := j;
    if j < len {
      PrintSteps(uri, name, j);
      var p := PrintStep(uri, name, j);
      CutStep(uri, name, j, |name|);
      e := PrintCut(uri, name, p.next, len);
      CutStep(uri, name, j, e);
      PrintSteps(uri, name[..e], j);
    }
  }

  lemma {:induction false} CutStep(uri: bool, name: Text, j: nat, e: nat)
    requires j < e <= |name| && PrintStep(uri, name, j).Step? && PrintStep(uri, name, j).next <= e
    ensures PrintStep(uri, name[..e], j) == PrintStep(uri, name, j)
    ensures PrintStep(uri, name, j).next <= j + 4
  {
    hide Validate, PercentText, Rfc3629;
    if uri && NeedPercentEncode(name[j]) {
      var v := Validate(name, j);
      ValidateCopies(name, j);
      if v.ok {
        GrammarWidth(v.copied);
        StandsAtSlice(name[..e], j, v.copied);
        assert name[..e][j..v.next] == name[j..v.next];
        SequenceStands(name[..e], j, v.copied);
      }
    }
  }

  /** What is printed is parsed to names hardly longer than the length fields say. */
  lemma {:induction false} CutTokensRead(uri: bool, u: Text, p: nat, tokens: seq<Token>)
    requires PrintTokens(uri, tokens).Some?
    requires StandsAt(u, p, PrintTokens(uri, tokens).value) && p + |PrintTokens(uri, tokens).value| == |u|
    ensures
      var r := ParseTokens(u, uri, p);
      r.Tokens? && |r.tokens| == |tokens| && forall k | 0 <= k < |tokens| :: |r.tokens[k].name| <= Length(tokens[k]) + 3
    decreases |tokens|
  {
    hide PrintName, ParseName, IndexOf, StandsAt;
    if tokens != [] {
      var t, rest := tokens[0], tokens[1..];
      var n, r := PrintName(uri, t.name, 0, Length(t)).value, PrintTokens(uri, rest).value;
      assert PrintTokens(uri, tokens).value == [SLASH] + n + r;
      assert [SLASH] + n + r == [SLASH] + (n + r);
      StandsAtSplit(u, p, [SLASH], n + r);
      StandsAtSplit(u, p + 1, n, r);
      if rest != [] {
        PrintedStart(uri, rest);
        FirstAt(u, p + 1 + |n|, r, 0);
      }
      var e := PrintCut(uri, t.name, 0, Length(t));
      NameReads(uri, u, p + 1, t.name[..e], 0);
      CutTokensRead(uri, u, p + 1 + |n|, rest);
    }
  }

  /**
   * Parsing undoes printing exactly when the names are short: whatever source a pointer was parsed
   * from, each text it prints is parsed back to the same names and indices if and only if the 32-bit
   * length fields can say how long the names are.
   */
  lemma {:induction false} ParseUndoesPrint(s: Text, uri: bool)
    requires Parse(s).Tokens? && Stringify(uri, Parse(s).tokens).Some?
    ensures Parse(Stringify(uri, Parse(s).tokens).value) == Parse(s) <==> ShortNames(Parse(s).tokens)
  {
    hide PrintTokens, ParseTokens, StandsAt;
    var tokens := Parse(s).tokens;
    ParsedIndexed(s, At(s, 0) == HASH, if At(s, 0) == HASH then 1 else 0);
    var text := PrintTokens(uri, tokens).value;
    var u := Stringify(uri, tokens).value;
    var start := if uri then 1 else 0;
    assert u[start..] == text;
    StandsAtSlice(u, start, text);
    assert u[start..start + |text|] == text;
    if tokens != [] {
      PrintedStart(uri, tokens);
      assert u[start] == SLASH;
    } else {
      NoTokens(uri);
    }
    if ShortNames(tokens) {
      TokensRead(uri, u, start, tokens);
    } else {
      CutTokensRead(uri, u, start, tokens);
      var k :| 0 <= k < |tokens| && |tokens[k].name| >= SIZE_TYPE_LIMIT;
      LongerThanSaid(tokens[k]);
    }
  }

  lemma {:induction false} LongerThanSaid(t: Token)
    requires |t.name| >= SIZE_TYPE_LIMIT
    ensures Length(t) + 3 < |t.name|
  {
  }

  lemma {:induction false} NoTokens(uri: bool)
    ensures PrintTokens(uri, []) == Some([])
  {
  }

  // ----- which pointers have a URI fragment

  /** A name has a fragment text exactly when it is valid UTF-8. */
  lemma {:induction false} UriNamePrints(name: Text, j: nat)
    requires j <= |name|
    ensures PrintName(true, name, j, |name|).Some? <==> DecodeAll(name, j).0
    decreases |name| - j
  {
    hide Validate, Decode, PercentText, Encode, Rfc3629;
    if j < |name| {
      PrintSteps(true, name, j);
      DecodeExact(name, j);
      ValidateAgrees(name, j);
      if name[j] < 0x80 {
        AsciiDecodes(name, j);
      }
      if Decode(name, j).ok {
        UriNamePrints(name, Decode(name, j).next);
      }
    }
  }

  lemma {:induction false} AsciiDecodes(s: Text, j: nat)
    requires j < |s| && s[j] < 0x80
    ensures Decode(s, j).ok && Decode(s, j).next == j + 1
  {
  }

  /** A step over a beginning of a name is one over the name. */
  lemma {:induction false} StepOnward(uri: bool, name: Text, j: nat, e: nat)
    requires j < e <= |name| && PrintStep(uri, name[..e], j).Step?
    ensures PrintStep(uri, name, j) == PrintStep(uri, name[..e], j) && j < PrintStep(uri, name, j).next <= e
  {
    hide Validate, PercentText, Rfc3629;
    ValidateCopies(name[..e], j);
    if uri && NeedPercentEncode(name[j]) && name[j] != TILDE && name[j] != SLASH {
      var v := Validate(name[..e], j);
      assert name[..e][j..v.next] == name[j..v.next];
      StandsAtSlice(name, j, v.copied);
      SequenceStands(name, j, v.copied);
    }
  }

  /** If a beginning of a name prints to its end, the name prints up to any place inside it. */
  lemma {:induction false} PrintsOnward(uri: bool, name: Text, j: nat, len: nat, e: nat)
    requires j <= e && len <= e <= |name| && PrintName(uri, name[..e], j, e).Some?
    ensures PrintName(uri, name, j, len).Some?
    decreases e - j
  {
    hide Validate, PercentText, Rfc3629;
    if j < len {
      PrintSteps(uri, name[..e], j);
      StepOnward(uri, name, j, e);
      PrintsOnward(uri, name, PrintStep(uri, name, j).next, len, e);
    }
  }

  /** The part of a name that its length field counts, up to the end of a sequence it may cut, is valid UTF-8. */
  ghost predicate ValidAsCounted(t: Token) {
    exists e: nat :: Length(t) <= e <= |t.name| && e <= Length(t) + 3 && ValidUtf8(t.name[..e])
  }

  lemma {:induction false} CountedPrints(t: Token)
    ensures PrintName(true, t.name, 0, Length(t)).Some? <==> ValidAsCounted(t)
  {
    hide PrintName, ValidUtf8;
    if PrintName(true, t.name, 0, Length(t)).Some? {
      var e := PrintCut(true, t.name, 0, Length(t));
      PrintedValid(t.name[..e]);
      assert |t.name[..e]| == e;
    }
    if ValidAsCounted(t) {
      var e: nat :| Length(t) <= e <= |t.name| && e <= Length(t) + 3 && ValidUtf8(t.name[..e]);
      PrintedValid(t.name[..e]);
      PrintsOnward(true, t.name, 0, Length(t), e);
    }
  }

  lemma {:induction false} PrintedValid(name: Text)
    ensures PrintName(true, name, 0, |name|).Some? <==> ValidUtf8(name)
  {
    UriNamePrints(name, 0);
  }

  /** Of a short name that part is all of it. */
  lemma {:induction false} ShortCounted(t: Token)
    requires |t.name| < SIZE_TYPE_LIMIT
    ensures ValidAsCounted(t) <==> ValidUtf8(t.name)
  {
    hide ValidUtf8;
    assert t.name[..|t.name|] == t.name;
  }

  /**
   * The URI fragment can be printed exactly when every name is valid UTF-8, as far as its length field
   * counts; of names shorter than 2^32 bytes that is all.
   */
  lemma {:induction false} UriPrints(tokens: seq<Token>)
    ensures Stringify(true, tokens).Some? <==> forall k | 0 <= k < |tokens| :: ValidAsCounted(tokens[k])
    ensures ShortNames(tokens) ==>
      (Stringify(true, tokens).Some? <==> forall k | 0 <= k < |tokens| :: ValidUtf8(tokens[k].name))
  {
    hide ValidAsCounted, ValidUtf8;
    UriTokensPrint(tokens);
    if ShortNames(tokens) {
      forall k | 0 <= k < |tokens| ensures ValidAsCounted(tokens[k]) <==> ValidUtf8(tokens[k].name) {
        ShortCounted(tokens[k]);
      }
    }
  }

  lemma {:induction false} UriTokensPrint(tokens: seq<Token>)
    ensures PrintTokens(true, tokens).Some? <==> forall k | 0 <= k < |tokens| :: ValidAsCounted(tokens[k])
    decreases |tokens|
  {
    hide PrintName, ValidAsCounted;
    if tokens != [] {
      var rest := tokens[1..];
      CountedPrints(tokens[0]);
      UriTokensPrint(rest);
      forall k | 0 < k < |tokens| ensures tokens[k] == rest[k - 1] {
      }
      if forall k | 0 <= k < |rest| :: ValidAsCounted(rest[k]) {
        forall k | 0 < k < |tokens| ensures ValidAsCounted(tokens[k]) {
          assert tokens[k] == rest[k - 1];
        }
      }
    }
  }

  /** What a fragment source decodes to is valid UTF-8, so accepted fragments can be printed again. */
  lemma {:induction false} FragmentNameValid(s: Text, i: nat)
    requires i <= |s| && ParseName(s, true, i).Name?
    ensures ValidUtf8(ParseName(s, true, i).name)
    decreases |s| - i
  {
    hide DecodeAll, ValidUtf8, PercentSequence, Rfc3629;
    if i == |s| || s[i] == SLASH {
      EmptyValid();
    } else {
      UnitAdvances(s, true, i);
      var u := TakeUnit(s, true, i);
      FragmentNameValid(s, u.next);
      FragmentUnit(s, i);
      ValidPrepend(u.bytes, ParseName(s, true, u.next).name);
    }
  }

  lemma {:induction false} EmptyValid()
    ensures ValidUtf8([])
  {
  }

  lemma {:induction false} FragmentUnit(s: Text, i: nat)
    requires i < |s| && TakeUnit(s, true, i).Piece?
    ensures Rfc3629(TakeUnit(s, true, i).bytes)
  {
    hide Validate, PercentBytes, Rfc3629;
    NothingValidates();
    SingleByte([TILDE]);
    SingleByte([SLASH]);
    SingleByte([s[i]]);
    var p := PercentSequence(s, i);
    if s[i] == PERCENT {
      ValidateCopies(PercentBytes(s, i, 4), 0);
      if |p.value| == 1 {
        SingleByte(p.value);
        assert p.value == [p.value[0]];
      }
    }
  }

  lemma {:induction false} SingleByte(b: Text)
    ensures |b| == 1 ==> (Rfc3629(b) <==> b[0] < 0x80)
  {
  }

  lemma {:induction false} ValidPrepend(unit: Text, rest: Text)
    requires Rfc3629(unit) && ValidUtf8(rest)
    ensures ValidUtf8(unit + rest)
  {
    hide Rfc3629, Encode, ValidUtf8, Width;
    GrammarIsEncodings(unit);
    ValidExactlyEncodings(rest);
    var cp: nat :| Scalar(cp) && Encode(cp) == unit;
    var cps: seq<nat> :| AllScalar(cps) && EncodeAll(cps) == rest;
    assert ([cp] + cps)[1..] == cps;
    assert AllScalar([cp] + cps) && EncodeAll([cp] + cps) == unit + rest;
    ValidExactlyEncodings(unit + rest);
  }

  lemma {:induction false} FragmentTokensValid(s: Text, i: nat)
    requires i <= |s| && ParseTokens(s, true, i).Tokens?
    ensures forall k | 0 <= k < |ParseTokens(s, true, i).tokens| :: ValidUtf8(ParseTokens(s, true, i).tokens[k].name)
    decreases |s| - i
  {
    hide ParseName, ValidUtf8, IndexOf;
    if i < |s| {
      FragmentNameValid(s, i + 1);
      FragmentTokensValid(s, ParseName(s, true, i + 1).end);
    }
  }

  /** An accepted fragment prints as a fragment that parses to the same pointer exactly when its names are short. */
  lemma {:induction false} FragmentRoundTrip(s: Text)
    requires At(s, 0) == HASH && Parse(s).Tokens?
    ensures
      var u := Stringify(true, Parse(s).tokens);
      u.Some? && Parse(u.value) == Parse(s) <==> ShortNames(Parse(s).tokens)
  {
    hide ParseTokens, Stringify, ShortNames;
    if ShortNames(Parse(s).tokens) {
      FragmentTokensValid(s, 1);
      UriPrints(Parse(s).tokens);
    }
    if Stringify(true, Parse(s).tokens).Some? {
      ParseUndoesPrint(s, true);
    }
  }
}
