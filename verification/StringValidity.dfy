/** When the strings that the validating reader reads are valid UTF-8 (reader.h with kParseValidateEncodingFlag). */
module StringValidity {
  import opened Bytes
  import opened Encodings
  import opened Events
  import opened Options
  import opened Scanner

  /** The unit at `pos` is a \u escape of a low surrogate that no high surrogate precedes. */
  predicate LoneTrail(env: Env, pos: nat) {
    At(env.src, pos) == BACKSLASH && At(env.src, pos + 1) == 117
    && Hex4(env.src, pos + 2).Some? && 0xDC00 <= Hex4(env.src, pos + 2).value <= 0xDFFF
  }

  /** No unit of the literal from `pos` on is a lone low surrogate. */
  predicate Paired(env: Env, pos: nat)
    decreases |env.src| - pos
  {
    match StringUnit(env, pos)
    case Unit(_, next) => !LoneTrail(env, pos) && Paired(env, next)
    case _ => true
  }

  /** The bytes the string loop puts out from `pos` on. */
  function Inside(env: Env, pos: nat): Text
    decreases |env.src| - pos
  {
    match StringUnit(env, pos)
    case Unit(bytes, next) => bytes + Inside(env, next)
    case _ => []
  }

  lemma {:induction false} BodyIsInside(env: Env, pos: nat, out: Text)
    requires StringBody(env, pos, out).Some?
    ensures StringBody(env, pos, out).value.1 == out + Inside(env, pos)
    decreases |env.src| - pos
  {
    hide StringUnit;
    match StringUnit(env, pos) {
      case Unit(bytes, next) =>
        BodyIsInside(env, next, out + bytes);
        assert out + bytes + Inside(env, next) == out + (bytes + Inside(env, next));
      case EndOfString =>
        assert out + [] == out;
      case Bad =>
    }
  }

  /** A valid beginning does not matter for the validity of the whole. */
  lemma {:induction false} ValidBeginning(unit: Text, rest: Text)
    requires Rfc3629(unit)
    ensures ValidUtf8(unit + rest) <==> ValidUtf8(rest)
  {
    hide Decode, Encode, Rfc3629, Width;
    var s := unit + rest;
    UnitDecodes(unit, rest);
    assert s[0..] == s && s[|unit|..] == rest;
    SuffixDecodes(s, |unit|, 0);
  }

  lemma {:induction false} UnitDecodes(unit: Text, rest: Text)
    requires Rfc3629(unit)
    ensures unit != [] && Decode(unit + rest, 0).ok && Decode(unit + rest, 0).next == |unit|
  {
    hide Decode, Encode;
    var s := unit + rest;
    GrammarWidth(unit);
    assert s[0] == unit[0] && s[0..|unit|] == unit;
    DecodeExact(s, 0);
  }

  /** Decoding from a position on is decoding what stands from there on. */
  lemma {:induction false} SuffixDecodes(s: Text, k: nat, i: nat)
    requires k + i <= |s|
    ensures DecodeAll(s, k + i).0 == DecodeAll(s[k..], i).0
    decreases |s| - (k + i)
  {
    hide Decode, Encode, Rfc3629;
    if k + i < |s| {
      var t := s[k..];
      DecodeExact(s, k + i);
      DecodeExact(t, i);
      assert t[i] == s[k + i];
      var d, e := Decode(s, k + i), Decode(t, i);
      assert d.next == k + e.next;
      if d.next <= |s| {
        assert s[k + i..d.next] == t[i..e.next];
        SuffixDecodes(s, k, e.next);
      }
    }
  }

  /** The three bytes put out for a surrogate are no UTF-8, whatever follows them. */
  lemma {:induction false} SurrogateInvalid(cp: nat, rest: Text)
    requires 0xDC00 <= cp <= 0xDFFF
    ensures !ValidUtf8(Encode(cp) + rest)
  {
    var u := Encode(cp);
    var s := u + rest;
    SurrogateBytes(cp);
    assert s[0] == 0xED && s[1] == u[1] && s[0..3] == u;
    hide Decode, Encode;
    DecodeExact(s, 0);
    LeadClass(0xED);
  }

  lemma {:induction false} SurrogateBytes(cp: nat)
    requires 0xDC00 <= cp <= 0xDFFF
    ensures |Encode(cp)| == 3 && Encode(cp)[0] == 0xED && Encode(cp)[1] >= 0xB0 && !Rfc3629(Encode(cp))
      && Width(0xED) == 3
  {
    assert cp / 4096 == 13 && cp / 64 >= 0x370 && cp / 64 <= 0x37F;
    assert cp / 64 % 64 == cp / 64 - 0x340;
    LeadClass(0xED);
  }

  /** Each unit of a validating reader is valid UTF-8 unless it is a lone low surrogate. */
  lemma {:induction false} UnitValid(env: Env, pos: nat)
    requires env.flags.validateEncoding && StringUnit(env, pos).Unit?
    ensures !LoneTrail(env, pos) ==> Rfc3629(StringUnit(env, pos).bytes)
    ensures LoneTrail(env, pos) ==> exists cp :: 0xDC00 <= cp <= 0xDFFF && StringUnit(env, pos).bytes == Encode(cp)
  {
    hide Validate, Encode, Hex4, Rfc3629;
    var c, e := At(env.src, pos), At(env.src, pos + 1);
    if c == BACKSLASH {
      if Unescape(e) != 0 {
        SingleValid(Unescape(e));
      } else {
        var h := Hex4(env.src, pos + 2).value;
        var cp := UnicodeEscape(env.src, pos + 2).value.0;
        if LoneTrail(env, pos) {
          assert cp == h;
        } else {
          ScalarEscape(env.src, pos + 2);
          EncodeGrammar(cp);
        }
      }
    } else {
      ValidateCopies(env.src, pos);
    }
  }

  lemma {:induction false} SingleValid(c: byte)
    requires c < 0x80
    ensures Rfc3629([c])
  {
  }

  lemma {:induction false} ScalarEscape(s: Text, pos: nat)
    requires UnicodeEscape(s, pos).Some? && !(0xDC00 <= Hex4(s, pos).value <= 0xDFFF)
    ensures Scalar(UnicodeEscape(s, pos).value.0)
  {
    hide Hex4;
  }

  lemma {:induction false} InsideValid(env: Env, pos: nat)
    requires env.flags.validateEncoding
    ensures ValidUtf8(Inside(env, pos)) <==> Paired(env, pos)
    decreases |env.src| - pos
  {
    hide StringUnit, ValidUtf8, Rfc3629, LoneTrail, Encode;
    match StringUnit(env, pos) {
      case Unit(bytes, next) =>
        UnitValid(env, pos);
        InsideValid(env, next);
        if LoneTrail(env, pos) {
          var cp :| 0xDC00 <= cp <= 0xDFFF && bytes == Encode(cp);
          SurrogateInvalid(cp, Inside(env, next));
        } else {
          ValidBeginning(bytes, Inside(env, next));
        }
      case _ =>
        NothingValid();
    }
  }

  lemma {:induction false} NothingValid()
    ensures ValidUtf8([])
  {
  }

  /**
   * A string that the validating reader accepts is valid UTF-8 exactly when its literal escapes no
   * low surrogate without a high one before it; validation does not look at escapes.
   */
  lemma {:induction false} AcceptedStringValid(env: Env, pos: nat)
    requires env.flags.validateEncoding && StringBody(env, pos, []).Some?
    ensures ValidUtf8(StringBody(env, pos, []).value.1) <==> Paired(env, pos)
  {
    hide StringBody, ValidUtf8, Paired;
    BodyIsInside(env, pos, []);
    assert [] + Inside(env, pos) == Inside(env, pos);
    InsideValid(env, pos);
  }

  /** The literal "\uDC00" is accepted, and its string is not UTF-8. */
  lemma {:induction false} LoneTrailAccepted(env: Env)
    requires env.flags.validateEncoding
    requires env.src == [QUOTE, BACKSLASH, 117, 68, 67, 48, 48, QUOTE]
    ensures StringBody(env, 1, []) == Some((8, Encode(0xDC00))) && !ValidUtf8(Encode(0xDC00))
  {
    hide Encode;
    var s := env.src;
    assert HexFrom(s, 6, 1, 0xDC0) == HexFrom(s, 7, 0, 0xDC00);
    assert HexFrom(s, 5, 2, 0xDC) == HexFrom(s, 6, 1, 0xDC0);
    assert HexFrom(s, 4, 3, 0xD) == HexFrom(s, 5, 2, 0xDC);
    assert Hex4(s, 3) == Some(0xDC00);
    assert StringUnit(env, 1) == Unit(Encode(0xDC00), 7);
    assert StringUnit(env, 7) == EndOfString;
    assert StringBody(env, 7, Encode(0xDC00)) == Some((8, Encode(0xDC00)));
    assert [] + Encode(0xDC00) == Encode(0xDC00);
    SurrogateInvalid(0xDC00, []);
    assert Encode(0xDC00) + [] == Encode(0xDC00);
  }
}
