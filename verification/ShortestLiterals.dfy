/** String literals as the writer puts them are in the grammar, and none of it is shorter (writer.h). */
module ShortestLiterals {
  import opened Bytes
  import opened Encodings
  import opened Writer
  import opened Options
  import G = Grammar

  /** The character of the grammar the writer puts for a byte: as short as there is, its digits upper-case. */
  function Canonical(c: byte): G.Character {
    if c == 0x22 || c == 0x5C then G.Short(c)
    else if c == 0x08 then G.Short(0x62)
    else if c == 0x09 then G.Short(0x74)
    else if c == 0x0A then G.Short(0x6E)
    else if c == 0x0C then G.Short(0x66)
    else if c == 0x0D then G.Short(0x72)
    else if c < 0x20 then
      G.Code(G.Hex(G.Nibble(0, true), G.Nibble(0, true), G.Nibble(c / 16, true), G.Nibble(c % 16, true)))
    else G.Plain([c])
  }

  function CanonicalFrom(s: Text, i: nat): seq<G.Character>
    requires i <= |s|
    decreases |s| - i
  {
    if i == |s| then [] else [Canonical(s[i])] + CanonicalFrom(s, i + 1)
  }

  lemma {:induction false} ByteSpells(c: byte)
    ensures EscapeByte(c) == G.CharacterText(Canonical(c)) && G.CharacterBytes(Canonical(c)) == [c]
  {
    if Canonical(c).Code? {
      NibbleSpells(c / 16);
      NibbleSpells(c % 16);
      NibbleSpells(0);
    }
  }

  lemma {:induction false} NibbleSpells(n: nat)
    requires n < 16
    ensures G.NibbleText(G.Nibble(n, true)) == HexDigit(n)
  {
  }

  lemma {:induction false} EscapesSpell(s: Text, i: nat)
    requires i <= |s|
    ensures EscapeFrom(s, i) == G.CharactersText(CanonicalFrom(s, i))
    ensures G.CharactersBytes(CanonicalFrom(s, i)) == s[i..]
    decreases |s| - i
  {
    hide EscapeByte, Canonical, G.CharacterText, G.CharacterBytes, G.CharactersText, G.CharactersBytes;
    if i == |s| {
      NothingSpells(s);
    } else {
      ByteSpells(s[i]);
      EscapesSpell(s, i + 1);
      ConsSpells(Canonical(s[i]), CanonicalFrom(s, i + 1));
      assert s[i..] == [s[i]] + s[i + 1..];
    }
  }

  lemma {:induction false} ConsSpells(c: G.Character, cs: seq<G.Character>)
    ensures G.CharactersText([c] + cs) == G.CharacterText(c) + G.CharactersText(cs)
    ensures G.CharactersBytes([c] + cs) == G.CharacterBytes(c) + G.CharactersBytes(cs)
  {
    assert ([c] + cs)[1..] == cs;
  }

  lemma {:induction false} NothingSpells(s: Text)
    ensures G.CharactersText([]) == [] && G.CharactersBytes([]) == [] && s[|s|..] == []
  {
  }

  /** The writer's literal, spelled in the grammar. */
  lemma {:induction false} QuotedSpells(s: Text)
    ensures Quoted(s) == G.Literal(CanonicalFrom(s, 0)) && G.CharactersBytes(CanonicalFrom(s, 0)) == s
  {
    EscapesSpell(s, 0);
    assert s[0..] == s;
  }

  // ----- length

  lemma {:induction false} EscapeShifts(a: Text, b: Text, j: nat)
    requires j <= |b|
    ensures EscapeFrom(a + b, |a| + j) == EscapeFrom(b, j)
    decreases |b| - j
  {
    if j < |b| {
      EscapeShifts(a, b, j + 1);
    }
  }

  lemma {:induction false} EscapeAppend(a: Text, b: Text, i: nat)
    requires i <= |a|
    ensures EscapeFrom(a + b, i) == EscapeFrom(a, i) + EscapeFrom(b, 0)
    decreases |a| - i
  {
    hide EscapeByte;
    if i == |a| {
      EscapeShifts(a, b, 0);
    } else {
      EscapeAppend(a, b, i + 1);
      assert EscapeByte(a[i]) + (EscapeFrom(a, i + 1) + EscapeFrom(b, 0))
        == EscapeByte(a[i]) + EscapeFrom(a, i + 1) + EscapeFrom(b, 0);
    }
  }

  lemma {:induction false} OneEscaped(c: byte)
    ensures EscapeFrom([c], 0) == EscapeByte(c)
  {
    assert EscapeFrom([c], 1) == [];
    assert EscapeByte(c) + [] == EscapeByte(c);
  }

  lemma {:induction false} HighEscaped(s: Text, i: nat)
    requires i <= |s| && forall k | i <= k < |s| :: s[k] >= 0x80
    ensures |EscapeFrom(s, i)| == |s| - i
    decreases |s| - i
  {
    if i < |s| {
      HighEscaped(s, i + 1);
    }
  }

  /** No character of the grammar is shorter than what the writer puts for its bytes. */
  lemma {:induction false} CharacterNoShorter(p: G.Profile, c: G.Character)
    requires G.ValidCharacter(p, c)
    ensures |EscapeFrom(G.CharacterBytes(c), 0)| <= |G.CharacterText(c)|
  {
    hide EscapeFrom;
    var b := G.CharacterBytes(c);
    if |b| == 1 {
      OneEscaped(b[0]);
      assert b == [b[0]];
    } else {
      match c {
        case Plain(bytes) => HighEscaped(b, 0);
        case Short(letter) =>
        case Code(unit) => HighEscaped(b, 0);
        case Pair(high, low) => HighEscaped(b, 0);
      }
    }
  }

  lemma {:induction false} CharactersNoShorter(p: G.Profile, cs: seq<G.Character>)
    requires G.ValidCharacters(p, cs)
    ensures |EscapeFrom(G.CharactersBytes(cs), 0)| <= |G.CharactersText(cs)|
  {
    hide EscapeFrom, G.CharacterText, G.CharacterBytes, G.ValidCharacter;
    if cs == [] {
      NothingEscaped();
    } else {
      CharacterNoShorter(p, cs[0]);
      CharactersNoShorter(p, cs[1..]);
      EscapeAppend(G.CharacterBytes(cs[0]), G.CharactersBytes(cs[1..]), 0);
    }
  }

  lemma {:induction false} NothingEscaped()
    ensures EscapeFrom([], 0) == []
  {
  }

  /** Of all literals that stand for the same bytes, under whatever flags, the writer puts a shortest. */
  lemma {:induction false} QuotedIsShortest(p: G.Profile, cs: seq<G.Character>)
    requires G.ValidCharacters(p, cs)
    ensures |Quoted(G.CharactersBytes(cs))| <= |G.Literal(cs)|
  {
    CharactersNoShorter(p, cs);
  }
}
