/** UTF-8 as the reader, the writer and the pointer code use it (encodings.h). */
module Encodings {
  import opened Bytes

  datatype Decoded = Decoded(ok: bool, codepoint: nat, next: nat)

  datatype Validated = Validated(ok: bool, copied: Text, next: nat)

  /** Unicode scalar values: every code point that is not a surrogate. */
  predicate Scalar(cp: nat) {
    cp <= 0x10FFFF && !(0xD800 <= cp <= 0xDFFF)
  }

  function Encode(cp: nat): (s: Text)
    requires cp <= 0x10FFFF
    ensures 1 <= |s| <= 4
  {
    if cp <= 0x7F then [cp]
    else if cp <= 0x7FF then [0xC0 + cp / 64, 0x80 + cp % 64]
    else if cp <= 0xFFFF then [0xE0 + cp / 4096, 0x80 + cp / 64 % 64, 0x80 + cp % 64]
    else [0xF0 + cp / 262144, 0x80 + cp / 4096 % 64, 0x80 + cp / 64 % 64, 0x80 + cp % 64]
  }

  /** The character classes of the automaton; the three continuation classes are single bits. */
  function GetRange(c: byte): bv8 {
    if c <= 0x7F then 0
    else if c <= 0x8F then 0x10
    else if c <= 0x9F then 0x40
    else if c <= 0xBF then 0x20
    else if c <= 0xC1 then 8
    else if c <= 0xDF then 2
    else if c == 0xE0 then 10
    else if c == 0xED then 4
    else if c <= 0xEF then 3
    else if c == 0xF0 then 11
    else if c <= 0xF3 then 6
    else if c == 0xF4 then 5
    else 8
  }

  predicate Trans(c: byte, mask: bv8) {
    GetRange(c) & mask != 0
  }

  /** The masks a lead byte of class `t` imposes on the bytes that follow it; empty when none may follow. */
  function Masks(t: bv8): seq<bv8> {
    if t == 2 then [0x70]
    else if t == 3 then [0x70, 0x70]
    else if t == 4 then [0x50, 0x70]
    else if t == 5 then [0x10, 0x70, 0x70]
    else if t == 6 then [0x70, 0x70, 0x70]
    else if t == 10 then [0x20, 0x70]
    else if t == 11 then [0x60, 0x70, 0x70]
    else []
  }

  /** The bits of the lead byte that the shift of 0xFF by the class leaves. */
  function LeadBits(t: bv8, c: byte): nat {
    if t == 2 then c % 64
    else if t == 3 then c % 32
    else if t == 4 then c % 16
    else if t == 5 then c % 8
    else if t == 6 then c % 4
    else 0
  }

  /** Takes one byte per mask, shifting its six low bits in, and never stops early. */
  function DecodeTail(s: Text, pos: nat, masks: seq<bv8>, cp: nat, ok: bool): Decoded
    decreases |masks|
  {
    if masks == [] then Decoded(ok, cp, pos)
    else
      var c := At(s, pos);
      DecodeTail(s, pos + 1, masks[1..], cp * 64 + c % 64, ok && Trans(c, masks[0]))
  }

  function Decode(s: Text, pos: nat): Decoded {
    var c := At(s, pos);
    if c < 0x80 then Decoded(true, c, pos + 1)
    else
      var t := GetRange(c);
      if Masks(t) == [] then Decoded(false, 0, pos + 1)
      else DecodeTail(s, pos + 1, Masks(t), LeadBits(t, c), true)
  }

  function ValidateTail(s: Text, pos: nat, masks: seq<bv8>, out: Text, ok: bool): Validated
    decreases |masks|
  {
    if masks == [] then Validated(ok, out, pos)
    else
      var c := At(s, pos);
      ValidateTail(s, pos + 1, masks[1..], out + [c], ok && Trans(c, masks[0]))
  }

  function Validate(s: Text, pos: nat): Validated {
    var c := At(s, pos);
    if c < 0x80 then Validated(true, [c], pos + 1)
    else
      var t := GetRange(c);
      if Masks(t) == [] then Validated(false, [c], pos + 1)
      else ValidateTail(s, pos + 1, Masks(t), [c], true)
  }

  /** The byte sequences of section 4 of RFC 3629, one alternative per line of its grammar. */
  predicate Rfc3629(s: Text) {
    || (|s| == 1 && s[0] <= 0x7F)
    || (|s| == 2 && 0xC2 <= s[0] <= 0xDF && Tail(s[1]))
    || (|s| == 3 && s[0] == 0xE0 && 0xA0 <= s[1] <= 0xBF && Tail(s[2]))
    || (|s| == 3 && 0xE1 <= s[0] <= 0xEC && Tail(s[1]) && Tail(s[2]))
    || (|s| == 3 && s[0] == 0xED && 0x80 <= s[1] <= 0x9F && Tail(s[2]))
    || (|s| == 3 && 0xEE <= s[0] <= 0xEF && Tail(s[1]) && Tail(s[2]))
    || (|s| == 4 && s[0] == 0xF0 && 0x90 <= s[1] <= 0xBF && Tail(s[2]) && Tail(s[3]))
    || (|s| == 4 && 0xF1 <= s[0] <= 0xF3 && Tail(s[1]) && Tail(s[2]) && Tail(s[3]))
    || (|s| == 4 && s[0] == 0xF4 && 0x80 <= s[1] <= 0x8F && Tail(s[2]) && Tail(s[3]))
  }

  predicate Tail(c: byte) {
    0x80 <= c <= 0xBF
  }

  /** What each mask lets through, as byte ranges. */
  lemma {:induction false} TransRanges(c: byte)
    ensures Trans(c, 0x70) <==> Tail(c)
    ensures Trans(c, 0x50) <==> 0x80 <= c <= 0x9F
    ensures Trans(c, 0x10) <==> 0x80 <= c <= 0x8F
    ensures Trans(c, 0x20) <==> 0xA0 <= c <= 0xBF
    ensures Trans(c, 0x60) <==> 0x90 <= c <= 0xBF
  {
  }

  /** The number of bytes a decoding attempt takes depends on the lead byte alone. */
  function Width(c: byte): (n: nat)
    ensures 1 <= n <= 4
  {
    1 + |Masks(GetRange(c))|
  }

  lemma {:induction false} DecodeUnfolded(s: Text, pos: nat)
    requires At(s, pos) >= 0x80
    ensures
      var c := At(s, pos);
      var c1 := At(s, pos + 1);
      var c2 := At(s, pos + 2);
      var c3 := At(s, pos + 3);
      var m := Masks(GetRange(c));
      var l := LeadBits(GetRange(c), c);
      Decode(s, pos) ==
      if |m| == 0 then Decoded(false, 0, pos + 1)
      else if |m| == 1 then Decoded(Trans(c1, m[0]), l * 64 + c1 % 64, pos + 2)
      else if |m| == 2 then Decoded(Trans(c1, m[0]) && Trans(c2, m[1]), (l * 64 + c1 % 64) * 64 + c2 % 64, pos + 3)
      else Decoded(Trans(c1, m[0]) && Trans(c2, m[1]) && Trans(c3, m[2]),
                   ((l * 64 + c1 % 64) * 64 + c2 % 64) * 64 + c3 % 64, pos + 4)
  {
    var c := At(s, pos);
    var m := Masks(GetRange(c));
    var l := LeadBits(GetRange(c), c);
    if |m| >= 1 {
      var cp1 := l * 64 + At(s, pos + 1) % 64;
      var ok1 := Trans(At(s, pos + 1), m[0]);
      assert Decode(s, pos) == DecodeTail(s, pos + 2, m[1..], cp1, ok1);
      if |m| >= 2 {
        assert m[1..][1..] == m[2..];
        var cp2 := cp1 * 64 + At(s, pos + 2) % 64;
        var ok2 := ok1 && Trans(At(s, pos + 2), m[1]);
        assert DecodeTail(s, pos + 2, m[1..], cp1, ok1) == DecodeTail(s, pos + 3, m[2..], cp2, ok2);
        if |m| >= 3 {
          assert m[2..][1..] == [];
          var cp3 := cp2 * 64 + At(s, pos + 3) % 64;
          assert DecodeTail(s, pos + 3, m[2..], cp2, ok2)
              == DecodeTail(s, pos + 4, [], cp3, ok2 && Trans(At(s, pos + 3), m[2]));
        }
      }
    }
  }

  /** The six-bit digits of a code point, most significant first, are what the shifts and masks extract. */
  lemma {:induction false} SixBitDigits(a: nat, x: nat, y: nat, z: nat)
    requires x < 64 && y < 64 && z < 64
    ensures
      var two := a * 64 + z;
      two / 64 == a && two % 64 == z
    ensures
      var three := (a * 64 + y) * 64 + z;
      three / 4096 == a && three / 64 % 64 == y && three % 64 == z
    ensures
      var four := ((a * 64 + x) * 64 + y) * 64 + z;
      four / 262144 == a && four / 4096 % 64 == x && four / 64 % 64 == y && four % 64 == z
  {
    var two := a * 64 + z;
    var three := (a * 64 + y) * 64 + z;
    var four := ((a * 64 + x) * 64 + y) * 64 + z;
    assert three / 64 == a * 64 + y;
    assert four / 64 == (a * 64 + x) * 64 + y;
    assert four / 4096 == a * 64 + x;
  }

  /** Lead byte classes as ranges, and the bits they keep as an offset from the range's prefix. */
  lemma {:induction false} LeadClass(c: byte)
    requires c >= 0x80
    ensures
      var t := GetRange(c);
      var m := Masks(t);
      var l := LeadBits(t, c);
      && (|m| == 1 <==> 0xC2 <= c <= 0xDF) && (|m| == 1 ==> m == [0x70] && l == c - 0xC0)
      && (|m| == 2 <==> 0xE0 <= c <= 0xEF)
      && (|m| == 2 ==> m == [if c == 0xE0 then 0x20 else if c == 0xED then 0x50 else 0x70, 0x70] && l == c - 0xE0)
      && (|m| == 3 <==> 0xF0 <= c <= 0xF4)
      && (|m| == 3 ==> m == [if c == 0xF0 then 0x60 else if c == 0xF4 then 0x10 else 0x70, 0x70, 0x70] && l == c - 0xF0)
      && |m| <= 3
  {
  }

  lemma {:induction false} TailBits(c: byte)
    requires Tail(c)
    ensures c % 64 == c - 0x80
  {
  }

  /**
   * Decoding accepts exactly the sequences of the RFC grammar. What it accepts is the
   * encoding of the scalar value it reports, and it always takes as many bytes as the lead byte says.
   */
  lemma {:induction false} DecodeExact(s: Text, pos: nat)
    requires pos < |s|
    ensures
      var d := Decode(s, pos);
      && d.next == pos + Width(s[pos])
      && (d.ok <==> d.next <= |s| && Rfc3629(s[pos..d.next]))
      && (d.ok ==> Scalar(d.codepoint) && Encode(d.codepoint) == s[pos..d.next])
  {
    if s[pos] >= 0x80 {
      DecodeVerdict(s, pos);
      if Decode(s, pos).ok {
        DecodeValue(s, pos);
      }
    }
  }

  lemma {:induction false} DecodeVerdict(s: Text, pos: nat)
    requires pos < |s| && s[pos] >= 0x80
    ensures
      var d := Decode(s, pos);
      && d.next == pos + Width(s[pos])
      && (d.ok <==> d.next <= |s| && Rfc3629(s[pos..d.next]))
  {
    DecodeUnfolded(s, pos);
    LeadClass(s[pos]);
    TransRanges(At(s, pos + 1));
    TransRanges(At(s, pos + 2));
    TransRanges(At(s, pos + 3));
  }

  lemma {:induction false} DecodeValue(s: Text, pos: nat)
    requires pos < |s| && s[pos] >= 0x80
    requires Decode(s, pos).ok && Decode(s, pos).next == pos + Width(s[pos]) <= |s|
    requires Rfc3629(s[pos..pos + Width(s[pos])])
    ensures
      var d := Decode(s, pos);
      Scalar(d.codepoint) && Encode(d.codepoint) == s[pos..d.next]
  {
    hide Decode, Encode;
    DecodeUnfolded(s, pos);
    LeadClass(s[pos]);
    var n := Width(s[pos]);
    var t := s[pos..pos + n];
    if n == 2 {
      assert t == [t[0], t[1]];
      Join2(t[0], t[1]);
    } else if n == 3 {
      assert t == [t[0], t[1], t[2]];
      Join3(t[0], t[1], t[2]);
    } else {
      assert t == [t[0], t[1], t[2], t[3]];
      Join4(t[0], t[1], t[2], t[3]);
    }
  }

  lemma {:induction false} Join2(c: byte, z: byte)
    requires Rfc3629([c, z])
    ensures
      var cp := (c - 0xC0) * 64 + z % 64;
      0x80 <= cp <= 0x7FF && Encode(cp) == [c, z]
  {
    TailBits(z);
    SixBitDigits(c - 0xC0, 0, 0, z % 64);
  }

  lemma {:induction false} Join3(c: byte, y: byte, z: byte)
    requires Rfc3629([c, y, z])
    ensures
      var cp := ((c - 0xE0) * 64 + y % 64) * 64 + z % 64;
      0x800 <= cp <= 0xFFFF && Scalar(cp) && Encode(cp) == [c, y, z]
  {
    TailBits(y);
    TailBits(z);
    SixBitDigits(c - 0xE0, 0, y % 64, z % 64);
  }

  lemma {:induction false} Join4(c: byte, x: byte, y: byte, z: byte)
    requires Rfc3629([c, x, y, z])
    ensures
      var cp := (((c - 0xF0) * 64 + x % 64) * 64 + y % 64) * 64 + z % 64;
      0x10000 <= cp <= 0x10FFFF && Encode(cp) == [c, x, y, z]
  {
    TailBits(x);
    TailBits(y);
    TailBits(z);
    SixBitDigits(c - 0xF0, x % 64, y % 64, z % 64);
  }

  /** Encodings obey the grammar, and no two scalar values share one. */
  lemma {:induction false} EncodeGrammar(cp: nat)
    requires Scalar(cp)
    ensures Rfc3629(Encode(cp))
  {
  }

  lemma {:induction false} EncodeInjective(a: nat, b: nat)
    requires Scalar(a) && Scalar(b) && Encode(a) == Encode(b)
    ensures a == b
  {
    SixBitSum(a);
    SixBitSum(b);
    var e := Encode(a);
    var f := Encode(b);
    assert e[0] == f[0];
    if |e| == 2 {
      assert e[1] == f[1];
    } else if |e| == 3 {
      assert e[1] == f[1] && e[2] == f[2];
    } else if |e| == 4 {
      assert e[1] == f[1] && e[2] == f[2] && e[3] == f[3];
    }
  }

  lemma {:induction false} SixBitSum(cp: nat)
    ensures cp == (cp / 64) * 64 + cp % 64
    ensures cp / 64 == (cp / 4096) * 64 + cp / 64 % 64
    ensures cp / 4096 == (cp / 262144) * 64 + cp / 4096 % 64
  {
    assert cp / 64 / 64 == cp / 4096;
    assert cp / 4096 / 64 == cp / 262144;
  }

  lemma {:induction false} GrammarWidth(t: Text)
    requires Rfc3629(t)
    ensures |t| == Width(t[0])
  {
  }

  /** The converse: every scalar value is recovered from its encoding, wherever that stands. */
  lemma {:induction false} DecodeInvertsEncode(s: Text, pos: nat, cp: nat)
    requires Scalar(cp)
    requires StandsAt(s, pos, Encode(cp))
    ensures Decode(s, pos) == Decoded(true, cp, pos + |Encode(cp)|)
  {
    var e := Encode(cp);
    StandsAtSlice(s, pos, e);
    assert s[pos] == e[0];
    EncodeGrammar(cp);
    GrammarWidth(e);
    DecodeExact(s, pos);
    EncodeInjective(cp, Decode(s, pos).codepoint);
  }

  /** Section 4 of RFC 3629 and the encoder describe the same set of byte sequences. */
  lemma {:induction false} GrammarIsEncodings(s: Text)
    ensures Rfc3629(s) <==> exists cp: nat :: Scalar(cp) && Encode(cp) == s
  {
    if Rfc3629(s) {
      GrammarWidth(s);
      DecodeExact(s, 0);
      assert s[0..|s|] == s;
    }
    if cp: nat :| Scalar(cp) && Encode(cp) == s {
      EncodeGrammar(cp);
    }
  }

  /** Validation gives the decoder's verdict at the decoder's position and copies what it took. */
  lemma {:induction false} ValidateAgrees(s: Text, pos: nat)
    ensures Validate(s, pos).ok == Decode(s, pos).ok
    ensures Validate(s, pos).next == Decode(s, pos).next
    ensures Validate(s, pos).copied == seq(Width(At(s, pos)), (k: nat) => At(s, pos + k))
  {
    var c := At(s, pos);
    var t := GetRange(c);
    if c >= 0x80 && Masks(t) != [] {
      TailsAgree(s, pos, pos + 1, Masks(t), LeadBits(t, c), [c], true);
    }
  }

  lemma {:induction false} TailsAgree(s: Text, start: nat, pos: nat, masks: seq<bv8>, cp: nat, out: Text, ok: bool)
    requires start + |out| == pos
    requires out == seq(|out|, (k: nat) => At(s, start + k))
    ensures
      var v := ValidateTail(s, pos, masks, out, ok);
      var d := DecodeTail(s, pos, masks, cp, ok);
      && v.ok == d.ok && v.next == d.next == pos + |masks|
      && v.copied == seq(|out| + |masks|, (k: nat) => At(s, start + k))
    decreases |masks|
  {
    if masks != [] {
      var c := At(s, pos);
      TailsAgree(s, start, pos + 1, masks[1..], cp * 64 + c % 64, out + [c], ok && Trans(c, masks[0]));
    }
  }

  /** Validation, when it succeeds inside a text, copies the bytes it passed unchanged. */
  lemma {:induction false} ValidateCopies(s: Text, pos: nat)
    requires pos < |s|
    ensures Validate(s, pos).ok ==>
      var v := Validate(s, pos);
      pos < v.next <= |s| && v.copied == s[pos..v.next] && Rfc3629(v.copied)
  {
    ValidateAgrees(s, pos);
    DecodeExact(s, pos);
  }

  // ----- whole strings

  predicate AllScalar(cps: seq<nat>) {
    forall i | 0 <= i < |cps| :: Scalar(cps[i])
  }

  /** The scalar values of a text, or nothing when some position does not decode. */
  function DecodeAll(s: Text, pos: nat): (r: (bool, seq<nat>))
    requires pos <= |s|
    ensures r.0 ==> AllScalar(r.1)
    decreases |s| - pos
  {
    if pos == |s| then (true, [])
    else
      DecodeExact(s, pos);
      var d := Decode(s, pos);
      if !d.ok then (false, [])
      else
        var rest := DecodeAll(s, d.next);
        (rest.0, [d.codepoint] + rest.1)
  }

  predicate ValidUtf8(s: Text) {
    DecodeAll(s, 0).0
  }

  function EncodeAll(cps: seq<nat>): Text
    requires AllScalar(cps)
  {
    if cps == [] then [] else Encode(cps[0]) + EncodeAll(cps[1..])
  }

  /** A text that decodes is the encoding of what it decodes to. */
  lemma {:induction false} EncodeInvertsDecodeAll(s: Text, pos: nat)
    requires pos <= |s|
    requires DecodeAll(s, pos).0
    ensures EncodeAll(DecodeAll(s, pos).1) == s[pos..]
    decreases |s| - pos
  {
    if pos < |s| {
      DecodeExact(s, pos);
      var d := Decode(s, pos);
      EncodeInvertsDecodeAll(s, d.next);
      assert s[pos..] == s[pos..d.next] + s[d.next..];
    }
  }

  /** Every sequence of scalar values is read back from its encoding, so decoding is unambiguous. */
  lemma {:induction false} DecodeInvertsEncodeAll(s: Text, pos: nat, cps: seq<nat>)
    requires AllScalar(cps)
    requires pos <= |s| && s[pos..] == EncodeAll(cps)
    ensures DecodeAll(s, pos) == (true, cps)
    decreases |cps|
  {
    hide Decode, Encode, StandsAt;
    if cps != [] {
      var e := Encode(cps[0]);
      assert s[pos..pos + |e|] == s[pos..][..|e|] == e;
      StandsAtSlice(s, pos, e);
      DecodeInvertsEncode(s, pos, cps[0]);
      assert s[pos + |e|..] == s[pos..][|e|..] == EncodeAll(cps[1..]);
      DecodeInvertsEncodeAll(s, pos + |e|, cps[1..]);
      assert [cps[0]] + cps[1..] == cps;
      assert pos < |s| && Decode(s, pos) == Decoded(true, cps[0], pos + |e|);
    }
  }

  lemma {:induction false} ValidExactlyEncodings(s: Text)
    ensures ValidUtf8(s) <==> exists cps: seq<nat> :: AllScalar(cps) && EncodeAll(cps) == s
  {
    assert s[0..] == s;
    if ValidUtf8(s) {
      EncodeInvertsDecodeAll(s, 0);
    }
    if cps: seq<nat> :| AllScalar(cps) && EncodeAll(cps) == s {
      DecodeInvertsEncodeAll(s, 0, cps);
    }
  }
}
