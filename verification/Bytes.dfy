/** Byte strings and the input stream discipline shared by the JSON engine. */
module Bytes {

  type byte = x: int | 0 <= x < 256

  type Text = seq<byte>

  const NUL: byte := 0
  const TAB: byte := 9
  const NEWLINE: byte := 10
  const CARRIAGE_RETURN: byte := 13
  const SPACE: byte := 32
  const QUOTE: byte := 34
  const HASH: byte := 35
  const PERCENT: byte := 37
  const STAR: byte := 42
  const PLUS: byte := 43
  const COMMA: byte := 44
  const MINUS: byte := 45
  const DOT: byte := 46
  const SLASH: byte := 47
  const ZERO: byte := 48
  const NINE: byte := 57
  const COLON: byte := 58
  const LEFT_BRACKET: byte := 91
  const BACKSLASH: byte := 92
  const RIGHT_BRACKET: byte := 93
  const LEFT_BRACE: byte := 123
  const RIGHT_BRACE: byte := 125
  const TILDE: byte := 126

  /** Peek of a string stream: the text is followed by NUL characters. */
  function At(s: Text, i: nat): byte {
    if i < |s| then s[i] else NUL
  }

  predicate IsDigit(c: byte) {
    ZERO <= c <= NINE
  }

  predicate IsWhitespace(c: byte) {
    c == SPACE || c == NEWLINE || c == CARRIAGE_RETURN || c == TAB
  }

  /** Value of a hexadecimal digit of either case, or -1. */
  function HexValue(c: byte): int {
    if 48 <= c <= 57 then c - 48
    else if 65 <= c <= 70 then c - 65 + 10
    else if 97 <= c <= 102 then c - 97 + 10
    else -1
  }

  /** The upper-case digits both printers use. */
  function HexDigit(n: nat): byte
    requires n < 16
  {
    if n < 10 then 48 + n else 65 + (n - 10)
  }

  /** `t` stands in `s` at position `pos`. */
  predicate StandsAt(s: Text, pos: nat, t: Text): (b: bool)
    ensures b ==> pos + |t| <= |s|
    decreases |t|
  {
    if t == [] then pos <= |s| else pos < |s| && s[pos] == t[0] && StandsAt(s, pos + 1, t[1..])
  }

  lemma {:induction false} StandsAtSlice(s: Text, pos: nat, t: Text)
    ensures StandsAt(s, pos, t) <==> pos + |t| <= |s| && s[pos..pos + |t|] == t
    decreases |t|
  {
    if t != [] {
      StandsAtSlice(s, pos + 1, t[1..]);
      if pos + |t| <= |s| {
        assert s[pos..pos + |t|] == [s[pos]] + s[pos + 1..pos + 1 + |t[1..]|];
        assert t == [t[0]] + t[1..];
        if s[pos..pos + |t|] == t {
          assert s[pos..pos + |t|][1..] == t[1..];
        }
      }
    }
  }

  lemma {:induction false} StandsAtSplit(s: Text, pos: nat, a: Text, b: Text)
    ensures StandsAt(s, pos, a + b) <==> StandsAt(s, pos, a) && StandsAt(s, pos + |a|, b)
    decreases |a|
  {
    if a == [] {
      assert a + b == b;
    } else {
      assert (a + b)[1..] == a[1..] + b;
      StandsAtSplit(s, pos + 1, a[1..], b);
    }
  }

  lemma {:induction false} FirstAt(s: Text, pos: nat, t: Text, k: nat)
    requires StandsAt(s, pos, t) && k < |t|
    ensures pos + k < |s| && s[pos + k] == t[k]
    decreases |t|
  {
    if k > 0 {
      FirstAt(s, pos + 1, t[1..], k - 1);
    }
  }
}
