/** GenericReader (reader.h): both parsers as they run, over one stream position, handler and stack. */
module ReaderImpl {
  import opened Bytes
  import opened Encodings
  import opened Events
  import opened Scanner
  import opened RecursiveReader
  import opened StringStack
  import opened IterativeReader
  import S = StackedReader
  import opened Options
  import opened ExponentRange

  newtype int32 = x: int | -0x8000_0000 <= x < 0x8000_0000
  newtype uint32 = x: int | 0 <= x < 0x1_0000_0000
  newtype uint64 = x: int | 0 <= x < 0x1_0000_0000_0000_0000

  class GenericReader {
    const env: Env
    var pos: nat
    var events: seq<Event>
    var failed: bool
    /**
     * An int of a number left its range, or the 32-bit length of a string became 0, so that the string
     * is looked for behind the stack. What the code does then is undefined; the model stops the parse.
     */
    var overflow: bool
    /** The bytes of `stack_`: cells of frames, and strings while they are read. */
    var stack: Text

    constructor (env: Env, start: nat)
      requires start <= |env.src| && !env.strict
      ensures this.env == env && pos == start && Valid()
    {
      this.env := env;
      pos := start;
      events, failed, overflow, stack := [], false, false, [];
    }

    /** Only a text with a fraction of more than 214748055 digits, or a longer string, can make that happen. */
    predicate Valid()
      reads this
    {
      !env.strict && pos <= |env.src| && (overflow ==> failed && |env.src| > 214748055)
    }

    /** What the run amounts to so far. */
    function Result(): Outcome
      reads this
    {
      if failed then Failed(events) else Parsed(pos, events)
    }

    function Peek(): byte
      reads this
    {
      At(env.src, pos)
    }

    /** Consume: takes the next character if it is the expected one. */
    method Consume(wanted: byte) returns (taken: bool)
      requires Valid() && wanted != NUL
      modifies this`pos
      ensures Valid()
      ensures taken == (At(env.src, old(pos)) == wanted)
      ensures pos == if taken then old(pos) + 1 else old(pos)
    {
      taken := Peek() == wanted;
      if taken {
        pos := pos + 1;
      }
    }

    /** Calls the handler, which may stop the parse. */
    method Send(e: Event)
      modifies this`events, this`failed
      ensures events == old(events) + [e]
      ensures failed == !env.handler(events)
    {
      events := events + [e];
      failed := !env.handler(events);
    }

    // ----- whitespace and comments

    predicate IsBlank(c: byte) { c == 0x20 || c == 0x09 || c == 0x0A || c == 0x0D }

    /** From `from` on, `pos` is the first place where no whitespace stands. */
    predicate FirstSolid(s: Text, from: nat, pos: nat) {
      && from <= pos <= |s| && (forall k | from <= k < pos :: IsBlank(s[k]))
      && (pos < |s| ==> !IsBlank(s[pos]))
    }

    method SkipWs()
      requires Valid()
      modifies this`pos
      ensures Valid() && pos == SkipWhitespace(env.src, old(pos))
      ensures FirstSolid(env.src, old(pos), pos)
    {
      while IsWhitespace(Peek())
        invariant Valid() && old(pos) <= pos
        invariant SkipWhitespace(env.src, pos) == SkipWhitespace(env.src, old(pos))
        invariant forall k | old(pos) <= k < pos :: IsBlank(env.src[k])
        decreases |env.src| - pos
      {
        pos := pos + 1;
      }
    }

    method SkipWsAndComments()
      requires Valid() && !failed
      modifies this`pos, this`failed
      ensures Valid()
      ensures failed == SkipWhitespaceAndComments(env, old(pos)).None?
      ensures !failed ==> SkipWhitespaceAndComments(env, old(pos)) == Some(pos)
    {
      hide SkipBlockComment, SkipLineComment, SkipWhitespace, FirstSolid;
      SkipWs();
      if env.flags.comments {
        var slash := Consume(SLASH);
        while slash
          invariant Valid() && !failed
          invariant slash ==> pos >= 1 && At(env.src, pos - 1) == SLASH
          invariant !slash ==> Peek() != SLASH
          invariant SkipComments(env.src, if slash then pos - 1 else pos) == SkipWhitespaceAndComments(env, old(pos))
          decreases |env.src| - pos, slash
        {
          var star := Consume(STAR);
          if star {
            TakeBlockComment();
            if failed {
              return;
            }
          } else {
            var second := Consume(SLASH);
            if second {
              TakeLineComment();
            } else {
              failed := true;
              return;
            }
          }
          SkipWs();
          slash := Consume(SLASH);
        }
      }
    }

    method TakeBlockComment()
      requires Valid() && !failed
      modifies this`pos, this`failed
      ensures Valid() && pos >= old(pos)
      ensures failed == SkipBlockComment(env.src, old(pos)).None?
      ensures !failed ==> SkipBlockComment(env.src, old(pos)) == Some(pos)
    {
      while true
        invariant Valid() && !failed && pos >= old(pos)
        invariant SkipBlockComment(env.src, pos) == SkipBlockComment(env.src, old(pos))
        decreases |env.src| - pos
      {
        if Peek() == NUL {
          failed := true;
          return;
        }
        var star := Consume(STAR);
        if star {
          var slash := Consume(SLASH);
          if slash {
            return;
          }
        } else {
          pos := pos + 1;
        }
      }
    }

    method TakeLineComment()
      requires Valid()
      modifies this`pos
      ensures Valid() && pos == SkipLineComment(env.src, old(pos))
    {
      while Peek() != NUL
        invariant Valid()
        invariant SkipLineComment(env.src, pos) == SkipLineComment(env.src, old(pos))
        decreases |env.src| - pos
      {
        var c := Peek();
        pos := pos + 1;
        if c == NEWLINE {
          return;
        }
      }
    }

    // ----- strings

    /** One round of the loop of ParseHex4. */
    method TakeHexDigit(codepoint: uint32) returns (next: uint32)
      requires Valid() && !failed && codepoint < 4096
      modifies this`pos, this`failed
      ensures Valid() && failed == (HexValue(At(env.src, old(pos))) < 0)
      ensures !failed ==> pos == old(pos) + 1 && next as int == codepoint as int * 16 + HexValue(At(env.src, old(pos)))
    {
      var c := Peek();
      next := codepoint * 16 + c as uint32;
      if 48 <= c <= 57 {
        next := next - 48;
      } else if 65 <= c <= 70 {
        next := next - (65 - 10);
      } else if 97 <= c <= 102 {
        next := next - (97 - 10);
      } else {
        failed := true;
        return;
      }
      pos := pos + 1;
    }

    method ParseHex4() returns (codepoint: uint32)
      requires Valid() && !failed
      modifies this`pos, this`failed
      ensures Valid() && failed == Hex4(env.src, old(pos)).None?
      ensures !failed ==> pos == old(pos) + 4 && Hex4(env.src, old(pos)) == Some(codepoint as int)
    {
      codepoint := 0;
      var i := 0;
      while i < 4
        invariant 0 <= i <= 4 && Valid() && !failed && pos == old(pos) + i
        invariant codepoint as int < HexLimit(i)
        invariant HexFrom(env.src, pos, 4 - i, codepoint as int) == Hex4(env.src, old(pos))
      {
        codepoint := TakeHexDigit(codepoint);
        if failed {
          return;
        }
        i := i + 1;
      }
    }

    /** The `\u` branch of the string loop, from behind the `u`. */
    method ParseUnicodeEscape() returns (codepoint: uint32)
      requires Valid() && !failed
      modifies this`pos, this`failed
      ensures Valid() && failed == UnicodeEscape(env.src, old(pos)).None?
      ensures !failed ==> UnicodeEscape(env.src, old(pos)) == Some((codepoint as int, pos))
    {
      codepoint := ParseHex4();
      if failed {
        return;
      }
      if 0xD800 <= codepoint <= 0xDBFF {
        var b := Consume(BACKSLASH);
        if b {
          b := Consume(117);
        }
        if !b {
          failed := true;
          return;
        }
        var codepoint2 := ParseHex4();
        if failed {
          return;
        }
        if codepoint2 < 0xDC00 || codepoint2 > 0xDFFF {
          failed := true;
          return;
        }
        codepoint := (codepoint - 0xD800) * 1024 + (codepoint2 - 0xDC00) + 0x10000;
      }
    }

    /** One turn of the string loop: the closing quote, or some bytes onto the output stream. */
    method TakeStringUnit(out0: Text) returns (out: Text, done: bool)
      requires Valid() && !failed
      modifies this`pos, this`failed
      ensures Valid()
      ensures
        match StringUnit(env, old(pos))
        case Bad => failed
        case EndOfString => !failed && done && pos == old(pos) + 1 && out == out0
        case Unit(bytes, next) => !failed && !done && pos == next && out == out0 + bytes
    {
      out, done := out0, false;
      var c := Peek();
      if c == BACKSLASH {
        pos := pos + 1;
        var e := Peek();
        if Unescape(e) != 0 {
          pos := pos + 1;
          out := out + [Unescape(e)];
        } else if e == 117 {
          pos := pos + 1;
          var codepoint := ParseUnicodeEscape();
          if !failed {
            out := out + Encode(codepoint as int);
          }
        } else {
          failed := true;
        }
      } else if c == QUOTE {
        pos := pos + 1;
        done := true;
      } else if c < 0x20 {
        failed := true;
      } else if env.flags.validateEncoding {
        ValidateCopies(env.src, pos);
        var v := Validate(env.src, pos);
        if v.ok {
          pos, out := v.next, out + v.copied;
        } else {
          failed := true;
        }
      } else {
        out := out + [c];
        pos := pos + 1;
      }
    }

    /** The string behind its opening quote, decoded onto the output stream. */
    method ParseStringToStream() returns (out: Text)
      requires Valid() && !failed
      modifies this`pos, this`failed
      ensures Valid() && failed == StringBody(env, old(pos), []).None?
      ensures !failed ==> StringBody(env, old(pos), []) == Some((pos, out))
    {
      out := [];
      var done := false;
      while !done
        invariant Valid() && !failed
        invariant StringBody(env, old(pos), []) == if done then Some((pos, out)) else StringBody(env, pos, out)
        decreases |env.src| - pos, !done
      {
        out, done := TakeStringUnit(out);
        if failed {
          return;
        }
      }
    }

    /** Pop of a StackStream: takes the last `length` bytes off the stack. */
    method Pop(length: uint32) returns (str: Text)
      requires length as int <= |stack|
      modifies this`stack
      ensures stack == old(stack)[..|old(stack)| - length as int] && str == old(stack)[|old(stack)| - length as int..]
    {
      str := stack[|stack| - length as int..];
      stack := stack[..|stack| - length as int];
    }

    /** The bytes go onto the stack with a NUL, and as many as their 32-bit length says come off again. */
    method PushAndPop(bytes: Text) returns (str: Option<Text>)
      modifies this`stack
      ensures stack == old(stack) + LeftOver(bytes) && str == Reported(bytes)
    {
      stack := stack + bytes + [NUL];
      var length: uint32 := ((|bytes| + 1) % 0x1_0000_0000) as uint32;
      PushedString(old(stack), bytes);
      var popped := Pop(length);
      str := if length == 0 then None else Some(popped[..length - 1]);
    }

    /** The string, or the name of a member, at `pos`. */
    method ParseString(isKey: bool)
      requires Valid() && !failed && Peek() == QUOTE
      modifies this`pos, this`failed, this`overflow, this`events, this`stack
      ensures Valid()
      ensures Result() == RecursiveReader.ParseString(env, old(pos), old(events), isKey)
      ensures !failed ==> stack == old(stack) + S.LiteralLeft(env, old(pos))
    {
      hide StringBody, Reported, LeftOver;
      pos := pos + 1;
      var bytes := ParseStringToStream();
      if failed {
        return;
      }
      var str := PushAndPop(bytes);
      if str.None? {
        S.BodyNoLonger(env, old(pos) + 1, []);
        ReportedIs(bytes);
        overflow, failed := true, true;
        return;
      }
      Send(if isKey then Key(str.value) else String(str.value));
    }

    lemma {:induction false} PushedString(stack: Text, bytes: Text)
      ensures
        var all, n := stack + bytes + [NUL], Length32(|bytes|);
        && n <= |bytes| + 1 && all[..|all| - n] == stack + LeftOver(bytes)
        && (n > 0 ==> Reported(bytes) == Some(all[|all| - n..][..n - 1]))
    {
      var all, n := stack + bytes + [NUL], Length32(|bytes|);
      assert all == stack + (bytes + [NUL]);
      if n > 0 {
        assert all[|all| - n..][..n - 1] == bytes[PopStart(bytes)..];
      }
    }

    // ----- numbers

    /** The 32-bit loop: digits go into `i` while the result provably fits the 32-bit event. */
    method ReadInt32(minus: bool) returns (i: uint32, significantDigit: nat, use64bit: bool)
      requires Valid() && IsDigit(Peek()) && Peek() != ZERO
      modifies this`pos
      ensures Valid() && pos == old(pos) + 1 + significantDigit
      ensures forall k | old(pos) <= k < pos :: IsDigit(At(env.src, k))
      ensures i as int == DigitsValue(env.src, old(pos), pos)
      ensures i as int <= if minus then INT32_MAGNITUDE else UINT32_MAX
      ensures use64bit ==>
        IsDigit(Peek()) && i as int * 10 + Digit(Peek()) > if minus then INT32_MAGNITUDE else UINT32_MAX
      ensures !use64bit ==> !IsDigit(Peek())
    {
      var limit: uint32 := if minus then 214748364 else 429496729;
      var last: byte := if minus then 56 else 53;
      i := Digit(Peek()) as uint32;
      pos := pos + 1;
      significantDigit, use64bit := 0, false;
      assert DigitsValue(env.src, old(pos), old(pos)) == 0;
      while IsDigit(Peek())
        invariant Valid() && pos == old(pos) + 1 + significantDigit
        invariant forall k | old(pos) <= k < pos :: IsDigit(At(env.src, k))
        invariant i as int == DigitsValue(env.src, old(pos), pos)
        invariant i as int <= if minus then INT32_MAGNITUDE else UINT32_MAX
        invariant !use64bit
        decreases |env.src| - pos
      {
        if i >= limit {
          if i != limit || Peek() > last {
            use64bit := true;
            break;
          }
        }
        i := i * 10 + Digit(Peek()) as uint32;
        pos := pos + 1;
        significantDigit := significantDigit + 1;
      }
    }

    /** The 64-bit loop, going on from where the 32-bit one stopped. */
    method ReadInt64(minus: bool, ghost start: nat, first: uint64, significant: nat)
      returns (i64: uint64, significantDigit: nat, useDouble: bool)
      requires Valid() && start < pos && pos == start + 1 + significant
      requires forall k | start <= k < pos :: IsDigit(At(env.src, k))
      requires first as int == DigitsValue(env.src, start, pos)
      requires first as int <= if minus then INT32_MAGNITUDE else UINT32_MAX
      modifies this`pos
      ensures Valid() && old(pos) <= pos == start + 1 + significantDigit
      ensures forall k | start <= k < pos :: IsDigit(At(env.src, k))
      ensures i64 as int == DigitsValue(env.src, start, pos)
      ensures i64 as int <= if minus then INT64_MAGNITUDE else UINT64_MAX
      ensures useDouble ==>
        IsDigit(Peek()) && i64 as int * 10 + Digit(Peek()) > if minus then INT64_MAGNITUDE else UINT64_MAX
      ensures !useDouble ==> !IsDigit(Peek())
    {
      var limit: uint64 := if minus then 0x0CCC_CCCC_CCCC_CCCC else 0x1999_9999_9999_9999;
      var last: byte := if minus then 56 else 53;
      i64, significantDigit, useDouble := first, significant, false;
      while IsDigit(Peek())
        invariant Valid() && old(pos) <= pos == start + 1 + significantDigit
        invariant forall k | start <= k < pos :: IsDigit(At(env.src, k))
        invariant i64 as int == DigitsValue(env.src, start, pos)
        invariant i64 as int <= if minus then INT64_MAGNITUDE else UINT64_MAX
        invariant !useDouble
        decreases |env.src| - pos
      {
        if i64 >= limit {
          if i64 != limit || Peek() > last {
            useDouble := true;
            break;
          }
        }
        i64 := i64 * 10 + Digit(Peek()) as uint64;
        pos := pos + 1;
        significantDigit := significantDigit + 1;
      }
    }

    /** Takes digits without looking at their value. */
    method TakeDigits()
      requires Valid()
      modifies this`pos
      ensures Valid() && pos == DigitsEnd(env.src, old(pos))
    {
      while IsDigit(Peek())
        invariant Valid() && DigitsEnd(env.src, pos) == DigitsEnd(env.src, old(pos))
        decreases |env.src| - pos
      {
        pos := pos + 1;
      }
    }

    /**
     * The integer part of a number that starts with a non-zero digit. The accumulators never wrap,
     * what they hold is the number the digits denote, and `useDouble` is set for exactly the
     * magnitudes no 64-bit event can carry; 32-bit accumulation serves exactly the 32-bit events.
     */
    method ReadInteger(minus: bool)
        returns (i: uint32, i64: uint64, use64bit: bool, useDouble: bool, significantDigit: nat)
      requires Valid() && IsDigit(Peek()) && Peek() != ZERO
      modifies this`pos
      ensures Valid() && pos == DigitsEnd(env.src, old(pos)) && pos > old(pos)
      ensures
        var magnitude := DigitsValue(env.src, old(pos), pos);
        && (useDouble <==> Oversized(minus, magnitude))
        && (use64bit <==> magnitude > if minus then INT32_MAGNITUDE else UINT32_MAX)
        && (!use64bit ==> i as int == magnitude)
        && (use64bit && !useDouble ==> i64 as int == magnitude)
      ensures !useDouble ==> significantDigit == pos - old(pos) - 1
      ensures useDouble ==> significantDigit >= 17
    {
      ghost var start := pos;
      i, significantDigit, use64bit := ReadInt32(minus);
      i64, useDouble := 0, false;
      DigitsEndIs(env.src, pos, DigitsEnd(env.src, pos));
      ghost var whole := DigitsEnd(env.src, pos);
      DigitsEndIs(env.src, start, whole);
      if use64bit {
        assert DigitsValue(env.src, start, pos + 1) == i as int * 10 + Digit(Peek());
        DigitsValueGrows(env.src, start, pos + 1, whole);
        i64, significantDigit, useDouble := ReadInt64(minus, start, i as uint64, significantDigit);
        DigitsEndIs(env.src, start, DigitsEnd(env.src, pos));
        if useDouble {
          assert DigitsValue(env.src, start, pos + 1) == i64 as int * 10 + Digit(Peek());
          DigitsValueGrows(env.src, start, pos + 1, whole);
          ManyDigits(env.src, start, pos);
          TakeDigits();
        }
      }
    }

    lemma {:induction false} ManyDigits(s: Text, start: nat, here: nat)
      requires start <= here
      requires forall k | start <= k < here :: IsDigit(At(s, k))
      requires DigitsValue(s, start, here) >= 0x0CCC_CCCC_CCCC_CCCC
      ensures here - start >= 18
    {
      DigitsValueBound(s, start, here);
      assert Pow10(17) == 100_000_000_000_000_000 by {
        assert Pow10(9) == 1_000_000_000;
      }
      if here - start <= 17 {
        Pow10Grows(here - start, 17);
      }
    }

    /** One more digit's worth off the exponent, if an int can say so. */
    method TakeOff(expFrac: int32, ghost digits: nat) returns (r: int32)
      requires Valid() && !failed && |env.src| >= digits >= -(expFrac as int)
      modifies this`failed, this`overflow
      ensures Valid()
      ensures
        if expFrac as int == INT_MIN then failed && overflow
        else !failed && overflow == old(overflow) && r == expFrac - 1
    {
      r := expFrac;
      if expFrac as int == INT_MIN {
        overflow, failed := true, true;
      } else {
        r := expFrac - 1;
      }
    }

    /** Fraction digits into the 64-bit significand, while it stays below 2^53. */
    method TakeFastFraction(i64_0: uint64, significant: nat, ghost e: nat)
      returns (i64: uint64, expFrac: int32, significantDigit: nat)
      requires Valid() && !failed && e == DigitsEnd(env.src, pos)
      modifies this`pos, this`failed, this`overflow
      ensures Valid() && old(pos) <= pos <= e == DigitsEnd(env.src, pos)
      ensures
        var all := FastFraction(env.src, old(pos), e, i64_0 as int, significant);
        if failed then overflow && all < INT_MIN
        else
          && overflow == old(overflow) && expFrac <= 0 && -(expFrac as int) <= pos - old(pos)
          && all == expFrac as int + SlowFraction(env.src, pos, e, i64 > 0, significantDigit)
    {
      i64, expFrac, significantDigit := i64_0, 0, significant;
      while IsDigit(Peek()) && i64 <= 0x1F_FFFF_FFFF_FFFF
        invariant Valid() && !failed && overflow == old(overflow) && old(pos) <= pos <= e == DigitsEnd(env.src, pos)
        invariant expFrac <= 0 && -(expFrac as int) <= pos - old(pos)
        invariant FastFraction(env.src, old(pos), e, i64_0 as int, significant)
               == expFrac as int + FastFraction(env.src, pos, e, i64 as int, significantDigit)
        decreases |env.src| - pos
      {
        ghost var before := expFrac;
        expFrac := TakeOff(expFrac, pos);
        if failed {
          return;
        }
        i64 := i64 * 10 + Digit(Peek()) as uint64;
        pos := pos + 1;
        if i64 != 0 {
          significantDigit := significantDigit + 1;
        }
      }
    }

    /** Fraction digits into the double; only whether it is positive matters to the count. */
    method TakeSlowFraction(d0: real, significant: nat, expFrac0: int32, ghost e: nat) returns (expFrac: int32)
      requires Valid() && !failed && e == DigitsEnd(env.src, pos) && d0 >= 0.0
      requires expFrac0 <= 0 && -(expFrac0 as int) <= pos
      modifies this`pos, this`failed, this`overflow
      ensures Valid()
      ensures
        var all := expFrac0 as int + SlowFraction(env.src, old(pos), e, d0 > 0.0, significant);
        if failed then overflow && all < INT_MIN
        else pos == e && overflow == old(overflow) && expFrac as int == all
    {
      var d, significantDigit := d0, significant;
      expFrac := expFrac0;
      while IsDigit(Peek())
        invariant Valid() && !failed && overflow == old(overflow)
        invariant old(pos) <= pos <= e == DigitsEnd(env.src, pos) && d >= 0.0
        invariant expFrac <= 0 && -(expFrac as int) <= pos
        invariant expFrac0 as int + SlowFraction(env.src, old(pos), e, d0 > 0.0, significant)
               == expFrac as int + SlowFraction(env.src, pos, e, d > 0.0, significantDigit)
        decreases |env.src| - pos
      {
        if significantDigit < 17 {
          expFrac := TakeOff(expFrac, pos);
          if failed {
            return;
          }
          d := d * 10.0 + Digit(Peek()) as real;
          if d > 0.0 {
            significantDigit := significantDigit + 1;
          }
        }
        pos := pos + 1;
      }
    }

    /** The fraction: how many digits the significand takes in, with the double only tested for being positive. */
    method ReadFraction(useDouble0: bool, i64_0: uint64, significant: nat) returns (expFrac: int32, useDouble: bool)
      requires Valid() && !failed && !overflow
      requires useDouble0 ==> significant >= 17
      modifies this`pos, this`failed, this`overflow
      ensures Valid()
      ensures
        var part := Fraction(env.src, old(pos), i64_0 as int, useDouble0, significant);
        && failed == (part.NoPart? || part.adjust < INT_MIN)
        && overflow == (part.Part? && part.adjust < INT_MIN)
        && (!failed ==> part == Part(pos, expFrac as int) && useDouble == (useDouble0 || pos > old(pos)))
      ensures !failed ==> -|env.src| <= expFrac as int <= 0
    {
      expFrac, useDouble := 0, useDouble0;
      var dot := Consume(DOT);
      if dot {
        if !IsDigit(Peek()) {
          failed := true;
          return;
        }
        ghost var e := DigitsEnd(env.src, pos);
        var d: real := 1.0;
        var significantDigit := significant;
        if useDouble {
          DroppedDigits(env.src, pos, e, significantDigit);
        } else {
          var i64;
          i64, expFrac, significantDigit := TakeFastFraction(i64_0, significant, e);
          if failed {
            return;
          }
          d := i64 as int as real;
          useDouble := true;
        }
        expFrac := TakeSlowFraction(d, significantDigit, expFrac, e);
      }
    }

    lemma {:induction false} DroppedDigits(s: Text, i: nat, hi: nat, significant: nat)
      requires i <= hi && significant >= 17
      requires forall k | i <= k < hi :: IsDigit(At(s, k))
      ensures SlowFraction(s, i, hi, true, significant) == 0
      decreases hi - i
    {
      if i < hi {
        DroppedDigits(s, i + 1, hi, significant);
      }
    }

    /** Where the loop for a negative exponent stops; the division truncates. */
    function MaxExp(expFrac: int32): (r: int32)
      requires expFrac <= 0
      ensures r as int == NegativeLimit(expFrac as int) && 0 <= r <= 214748363
    {
      var n := expFrac + 2147483639;
      if n >= 0 then n / 10 else -((-n) / 10)
    }

    /**
     * The digits of a negative exponent, all taken however many there are. The value stops growing
     * early enough for itself to stay inside a 32-bit int, and for its sum with the fraction's
     * adjustment exactly as `NegativeSumFits` says.
     */
    method TakeNegativeExponent(expFrac: int32) returns (exp: int32)
      requires Valid() && IsDigit(Peek()) && expFrac <= 0
      modifies this`pos
      ensures Valid() && pos == DigitsEnd(env.src, old(pos))
      ensures exp as int == 0 - NegativeExponent(env.src, old(pos), pos, expFrac as int)
      ensures expFrac as int >= LEAST_FOR_NEGATIVE ==> IsInt(exp as int + expFrac as int)
    {
      ghost var start, end := pos, DigitsEnd(env.src, pos);
      NegativeFits(env.src, start, end, expFrac as int);
      var maxExp := MaxExp(expFrac);
      exp := Digit(Peek()) as int32;
      pos := pos + 1;
      hide NegativeLimit, NegativeExponent;
      while IsDigit(Peek())
        invariant Valid() && start < pos <= end == DigitsEnd(env.src, pos) && 0 <= exp
        invariant NegativeExponent(env.src, start, end, expFrac as int)
               == CutOff(env.src, pos, end, exp as int, maxExp as int)
        invariant pos < end ==> exp <= maxExp || exp <= 9
        decreases |env.src| - pos
      {
        exp := exp * 10 + Digit(Peek()) as int32;
        pos := pos + 1;
        if exp > maxExp {
          TakeDigits();
        }
      }
      exp := -exp;
    }

    /**
     * The digits of a positive exponent, refused as soon as they exceed the range of a double. The
     * multiplication comes before the comparison, so with a long fraction it can leave int.
     */
    method TakePositiveExponent(expFrac: int32) returns (exp: int32)
      requires Valid() && !failed && !overflow && IsDigit(Peek()) && -|env.src| <= expFrac as int <= 0
      modifies this`pos, this`failed, this`overflow
      ensures Valid()
      ensures
        var e := DigitsEnd(env.src, old(pos));
        var run := PositiveExponent(env.src, old(pos), e, expFrac as int);
        && overflow == run.Overflow? && failed == !run.Value?
        && (!failed ==> 0 <= exp && pos == e && run == Value(exp as int))
      ensures
        var e := DigitsEnd(env.src, old(pos));
        var value := DigitsValue(env.src, old(pos), e);
        && (overflow ==> expFrac as int < LEAST_FOR_POSITIVE)
        && (!overflow ==> failed == (value > 308 - expFrac as int) && (!failed ==> exp as int == value))
    {
      ghost var start, end := pos, DigitsEnd(env.src, pos);
      PositiveExact(env.src, start, end, expFrac as int);
      exp := Digit(Peek()) as int32;
      pos := pos + 1;
      if expFrac < 308 - 0x7FFF_FFFF {
        overflow, failed := true, true;
        return;
      }
      var maxExp := 308 - expFrac;
      while IsDigit(Peek())
        invariant Valid() && !failed && !overflow && start < pos <= end == DigitsEnd(env.src, pos)
        invariant 0 <= exp <= maxExp
        invariant PositiveExponent(env.src, start, end, expFrac as int)
               == PositiveFrom(env.src, pos, end, exp as int, maxExp as int)
        decreases |env.src| - pos
      {
        if exp as int * 10 + Digit(Peek()) > INT_MAX {
          overflow, failed := true, true;
          return;
        }
        exp := exp * 10 + Digit(Peek()) as int32;
        pos := pos + 1;
        if exp > maxExp {
          failed := true;
          return;
        }
      }
    }

    /** The exponent, and its sum with the fraction's adjustment, both as ints. */
    method ReadExponent(expFrac: int32) returns (p: int32, present: bool)
      requires Valid() && !failed && !overflow && -|env.src| <= expFrac as int <= 0
      modifies this`pos, this`failed, this`overflow
      ensures Valid()
      ensures
        var run := Exponent(env.src, old(pos), expFrac as int);
        && failed == !run.ExponentEnd? && overflow == run.ExponentOverflow?
        && (!failed ==> run == ExponentEnd(pos) && present == (pos > old(pos)))
      ensures overflow ==> expFrac as int < LEAST_FOR_POSITIVE
    {
      hide NegativeExponent, PositiveExponent, DigitsValue, DigitsEnd;
      p := expFrac;
      var expMinus;
      present, expMinus := ExponentSign();
      if present {
        if !IsDigit(Peek()) {
          failed := true;
          return;
        }
        p := SumExponent(expMinus, expFrac);
      }
    }

    /** The letter of an exponent and its sign. */
    method ExponentSign() returns (present: bool, expMinus: bool)
      requires Valid()
      modifies this`pos
      ensures Valid() && present == (At(env.src, old(pos)) == 101 || At(env.src, old(pos)) == 69)
      ensures if present then pos == ExponentDigits(env.src, old(pos)) else pos == old(pos)
      ensures present ==> expMinus == (At(env.src, old(pos) + 1) == MINUS)
    {
      expMinus := false;
      present := Consume(101);
      if !present {
        present := Consume(69);
      }
      if present {
        var plus := Consume(PLUS);
        if !plus {
          expMinus := Consume(MINUS);
        }
      }
    }

    /** The exponent's digits, and their sum with the fraction's adjustment. */
    method SumExponent(expMinus: bool, expFrac: int32) returns (p: int32)
      requires Valid() && !failed && !overflow && IsDigit(Peek()) && -|env.src| <= expFrac as int <= 0
      modifies this`pos, this`failed, this`overflow
      ensures Valid()
      ensures
        var e := DigitsEnd(env.src, old(pos));
        && (expMinus ==>
              failed == overflow == (expFrac as int - NegativeExponent(env.src, old(pos), e, expFrac as int) < INT_MIN))
        && (!expMinus ==>
              var run := PositiveExponent(env.src, old(pos), e, expFrac as int);
              overflow == run.Overflow? && failed == !run.Value?)
        && (!failed ==> pos == e)
      ensures overflow ==> expFrac as int < LEAST_FOR_POSITIVE
    {
      hide NegativeExponent, PositiveExponent, DigitsValue;
      var exp: int32;
      p := 0;
      if expMinus {
        exp := TakeNegativeExponent(expFrac);
      } else {
        exp := TakePositiveExponent(expFrac);
        if failed {
          return;
        }
      }
      if exp as int + expFrac as int < INT_MIN {
        overflow, failed := true, true;
        return;
      }
      p := exp + expFrac;
    }

    /** The letters of NaN and the infinities, after the sign. */
    method ReadSpecial()
      requires Valid() && !failed && env.flags.nanAndInf && (Peek() == 73 || Peek() == 78)
      modifies this`pos, this`failed
      ensures Valid()
      ensures
        var head := NumberHead(env, old(pos));
        && failed == head.NoHead?
        && (!failed ==> head == Head(pos, 0, true))
    {
      var useNanOrInf := false;
      var t := Consume(78);
      if t {
        t := Consume(97);
        if t {
          t := Consume(78);
          useNanOrInf := t;
        }
      } else {
        t := Consume(73);
        t := Consume(110);
        if t {
          t := Consume(102);
        }
        if t {
          useNanOrInf := true;
          if Peek() == 105 {
            var full := Inity();
            if !full {
              failed := true;
              return;
            }
          }
        }
      }
      if !useNanOrInf {
        failed := true;
      }
    }

    method Inity() returns (full: bool)
      requires Valid() && Peek() == 105
      modifies this`pos
      ensures Valid()
      ensures
        var s := env.src;
        var p := old(pos);
        full == (At(s, p + 1) == 110 && At(s, p + 2) == 105 && At(s, p + 3) == 116 && At(s, p + 4) == 121)
      ensures full ==> pos == old(pos) + 5
    {
      pos := pos + 1;
      full := Consume(110);
      if full {
        full := Consume(105);
      }
      if full {
        full := Consume(116);
      }
      if full {
        full := Consume(121);
      }
    }

    method ParseNumber()
      requires Valid() && !failed
      modifies this`pos, this`failed, this`overflow, this`events
      ensures Valid()
      ensures Result() == RecursiveReader.ParseNumber(env, old(pos), old(events))
    {
      var start := pos;
      var minus := Consume(MINUS);
      ghost var body := pos;
      var i: uint32, i64: uint64 := 0, 0;
      var use64bit, useDouble, useNanOrInf, significantDigit := false, false, false, 0;
      if Peek() == ZERO {
        pos := pos + 1;
      } else if IsDigit(Peek()) {
        i, i64, use64bit, useDouble, significantDigit := ReadInteger(minus);
      } else if env.flags.nanAndInf && (Peek() == 73 || Peek() == 78) {
        ReadSpecial();
        if failed {
          return;
        }
        useNanOrInf := true;
      } else {
        failed := true;
        return;
      }
      ghost var head := NumberHead(env, body);
      assert head == Head(pos, head.magnitude, useNanOrInf);
      FinishNumber(start, head, minus, i, i64, use64bit, useDouble, useNanOrInf, significantDigit);
    }

    /** Fraction and exponent, from behind the integer part. */
    method FinishNumber(start: nat, ghost head: Head, minus: bool, i: uint32, i64: uint64, use64bit: bool,
                        oversized: bool, useNanOrInf: bool, significantDigit: nat)
      requires Valid() && !failed && start < pos
      requires head.Head? && head.next == pos && IntegerRead(head, minus, i, i64, use64bit, oversized, useNanOrInf)
      requires oversized ==> significantDigit >= 17
      modifies this`pos, this`failed, this`overflow, this`events
      ensures Valid()
      ensures forall significant: nat | oversized || significant == significantDigit ::
        var n := NumberRest(env, start, minus, head, significant);
        Result() ==
          if n.None? then Failed(old(events))
          else RecursiveReader.Send(env, old(events), n.value.0, n.value.1)
    {
      var expFrac, useDouble := ReadFraction(oversized, if use64bit then i64 else i as uint64, significantDigit);
      if failed {
        return;
      }
      var p, hasExp := ReadExponent(expFrac);
      if failed {
        return;
      }
      SendNumber(start, head, minus, i, i64, use64bit, useDouble || hasExp, useNanOrInf);
    }

    /** What the integer part left in the accumulators. */
    ghost predicate IntegerRead(head: Head, minus: bool, i: uint32, i64: uint64, use64bit: bool, oversized: bool,
                                useNanOrInf: bool)
      requires head.Head?
    {
      && head.special == useNanOrInf
      && oversized == Oversized(minus, head.magnitude)
      && use64bit == (head.magnitude > if minus then INT32_MAGNITUDE else UINT32_MAX)
      && (!use64bit ==> i as int == head.magnitude)
      && (use64bit && !oversized ==> i64 as int == head.magnitude)
    }

    method SendNumber(start: nat, ghost head: Head, minus: bool, i: uint32, i64: uint64, use64bit: bool,
                      useDouble: bool, useNanOrInf: bool)
      requires Valid() && !failed && head.Head? && start < head.next <= pos
      requires useDouble == (Oversized(minus, head.magnitude) || pos > head.next)
      requires IntegerRead(head, minus, i, i64, use64bit, Oversized(minus, head.magnitude), useNanOrInf)
      modifies this`failed, this`events
      ensures
        var n := NumberEvent(env, start, minus, head, pos);
        Result() ==
          if n.None? then Failed(old(events))
          else RecursiveReader.Send(env, old(events), n.value.0, n.value.1)
    {
      if useDouble {
        if env.tooBig(env.src[start..pos]) {
          failed := true;
          return;
        }
        Send(Double(env.src[start..pos]));
      } else if useNanOrInf {
        Send(Double(env.src[start..pos]));
      } else if use64bit {
        Send(if minus then Int64(-(i64 as int)) else Uint64(i64 as int));
      } else {
        Send(if minus then Int(-(i as int)) else Uint(i as int));
      }
    }

    // ----- the recursive parser

    /** ParseNull, ParseTrue and ParseFalse: the letters of the word one after the other. */
    method ParseLiteral(word: Text, e: Event)
      requires Valid() && !failed && NUL !in word
      modifies this`pos, this`failed, this`overflow, this`events
      ensures Valid()
      ensures Result() == RecursiveReader.ParseLiteral(env, old(pos), old(events), word, e)
    {
      var i := 0;
      while i < |word|
        invariant 0 <= i <= |word| && Valid() && pos == old(pos) + i && !failed && events == old(events)
        invariant StandsAt(env.src, old(pos), word) == StandsAt(env.src, pos, word[i..])
      {
        var taken := Consume(word[i]);
        if !taken {
          failed := true;
          return;
        }
        i := i + 1;
      }
      Send(e);
    }

    method ParseValue()
      requires Valid() && !failed
      modifies this`pos, this`failed, this`overflow, this`events, this`stack
      ensures Valid()
      ensures Result() == RecursiveReader.ParseValue(env, old(pos), old(events))
      ensures !failed && At(env.src, old(pos)) != LEFT_BRACE && At(env.src, old(pos)) != LEFT_BRACKET ==>
        stack == old(stack) + S.LiteralLeft(env, old(pos))
      decreases |env.src| - pos, 1
    {
      var c := Peek();
      if c == 110 {
        ParseLiteral(NULL_WORD, Null);
      } else if c == 116 {
        ParseLiteral(TRUE_WORD, Bool(true));
      } else if c == 102 {
        ParseLiteral(FALSE_WORD, Bool(false));
      } else if c == QUOTE {
        ParseString(false);
      } else if c == LEFT_BRACE {
        ParseObject();
      } else if c == LEFT_BRACKET {
        ParseArray();
      } else {
        ParseNumber();
      }
    }

    method ParseObject()
      requires Valid() && !failed && Peek() == LEFT_BRACE
      modifies this`pos, this`failed, this`overflow, this`events, this`stack
      ensures Valid()
      ensures Result() == RecursiveReader.ParseObject(env, old(pos), old(events))
      decreases |env.src| - pos, 0
    {
      pos := pos + 1;
      Send(StartObject);
      if failed {
        return;
      }
      SkipWsAndComments();
      if failed {
        return;
      }
      var close := Consume(RIGHT_BRACE);
      if close {
        Send(EndObject(0));
        return;
      }
      var memberCount: uint32, done := 0, false;
      while !done
        invariant Valid() && !failed && pos > old(pos)
        invariant RecursiveReader.ParseObject(env, old(pos), old(events))
               == if done then Parsed(pos, events)
                 else RecursiveReader.ParseMembers(env, pos, events, memberCount as int)
        decreases |env.src| - pos, !done
      {
        memberCount := ParseMember(memberCount);
        if failed {
          return;
        }
        done := SeparateMembers(memberCount);
        if failed {
          return;
        }
      }
    }

    /** One turn of the loop up to behind the member's value, and the count that includes it. */
    method ParseMember(count: uint32) returns (memberCount: uint32)
      requires Valid() && !failed
      modifies this`pos, this`failed, this`overflow, this`events, this`stack
      ensures Valid() && (!failed ==> pos > old(pos))
      ensures RecursiveReader.ParseMembers(env, old(pos), old(events), count as int)
           == if failed then Failed(events) else RecursiveReader.AfterMember(env, pos, events, memberCount as int)
      decreases |env.src| - pos, 2
    {
      memberCount := if count == 0xFFFF_FFFF then 0 else count + 1;
      ParseMemberName();
      if failed {
        return;
      }
      ParseMemberValue();
      assert Increment(count as int) == memberCount as int;
    }

    method ParseMemberValue()
      requires Valid() && !failed
      modifies this`pos, this`failed, this`overflow, this`events, this`stack
      ensures Valid() && (!failed ==> pos > old(pos))
      ensures forall count: nat ::
        (RecursiveReader.ParseMemberValue(env, old(pos), old(events), count)
         == if failed then Failed(events) else RecursiveReader.AfterMember(env, pos, events, Increment(count)))
      decreases |env.src| - pos, 2
    {
      SkipWsAndComments();
      if failed {
        return;
      }
      ParseValue();
      if failed {
        return;
      }
      SkipWsAndComments();
    }

    /** Behind a member: a comma, a closing brace, or both where trailing commas are allowed. */
    method SeparateMembers(memberCount: uint32) returns (done: bool)
      requires Valid() && !failed
      modifies this`pos, this`failed, this`overflow, this`events, this`stack
      ensures Valid() && (!failed ==> pos > old(pos))
      ensures RecursiveReader.AfterMember(env, old(pos), old(events), memberCount as int)
           == if failed then Failed(events)
              else if done then Parsed(pos, events)
              else RecursiveReader.ParseMembers(env, pos, events, memberCount as int)
    {
      done := false;
      if Peek() == COMMA {
        pos := pos + 1;
        SkipWsAndComments();
        if failed {
          return;
        }
      } else if Peek() == RIGHT_BRACE {
        pos := pos + 1;
        Send(EndObject(memberCount as int));
        done := true;
        return;
      } else {
        failed := true;
        return;
      }
      if env.flags.trailingCommas && Peek() == RIGHT_BRACE {
        Send(EndObject(memberCount as int));
        pos := pos + 1;
        done := true;
      }
    }

    method ParseMemberName()
      requires Valid() && !failed
      modifies this`pos, this`failed, this`overflow, this`events, this`stack
      ensures Valid()
      ensures Result() == RecursiveReader.ParseMemberName(env, old(pos), old(events))
    {
      if Peek() != QUOTE {
        failed := true;
        return;
      }
      ParseString(true);
      if failed {
        return;
      }
      SkipWsAndComments();
      if failed {
        return;
      }
      var colon := Consume(COLON);
      if !colon {
        failed := true;
      }
    }

    method ParseArray()
      requires Valid() && !failed && Peek() == LEFT_BRACKET
      modifies this`pos, this`failed, this`overflow, this`events, this`stack
      ensures Valid()
      ensures Result() == RecursiveReader.ParseArray(env, old(pos), old(events))
      decreases |env.src| - pos, 0
    {
      pos := pos + 1;
      Send(StartArray);
      if failed {
        return;
      }
      SkipWsAndComments();
      if failed {
        return;
      }
      var close := Consume(RIGHT_BRACKET);
      if close {
        Send(EndArray(0));
        return;
      }
      var elementCount: uint32, done := 0, false;
      while !done
        invariant Valid() && !failed && pos > old(pos)
        invariant RecursiveReader.ParseArray(env, old(pos), old(events))
               == if done then Parsed(pos, events)
                 else RecursiveReader.ParseElements(env, pos, events, elementCount as int)
        decreases |env.src| - pos, !done
      {
        elementCount := ParseElement(elementCount);
        if failed {
          return;
        }
        done := SeparateElements(elementCount);
        if failed {
          return;
        }
      }
    }

    method ParseElement(count: uint32) returns (elementCount: uint32)
      requires Valid() && !failed
      modifies this`pos, this`failed, this`overflow, this`events, this`stack
      ensures Valid() && (!failed ==> pos > old(pos))
      ensures RecursiveReader.ParseElements(env, old(pos), old(events), count as int)
           == if failed then Failed(events) else RecursiveReader.AfterElement(env, pos, events, elementCount as int)
      decreases |env.src| - pos, 2
    {
      elementCount := if count == 0xFFFF_FFFF then 0 else count + 1;
      ParseValue();
      if failed {
        return;
      }
      assert Increment(count as int) == elementCount as int;
      SkipWsAndComments();
    }

    /** Behind an element: a comma, a closing bracket, or both where trailing commas are allowed. */
    method SeparateElements(elementCount: uint32) returns (done: bool)
      requires Valid() && !failed
      modifies this`pos, this`failed, this`overflow, this`events, this`stack
      ensures Valid() && (!failed ==> pos > old(pos))
      ensures RecursiveReader.AfterElement(env, old(pos), old(events), elementCount as int)
           == if failed then Failed(events)
              else if done then Parsed(pos, events)
              else RecursiveReader.ParseElements(env, pos, events, elementCount as int)
    {
      done := false;
      var comma := Consume(COMMA);
      if comma {
        SkipWsAndComments();
        if failed {
          return;
        }
      } else {
        var end := Consume(RIGHT_BRACKET);
        if end {
          Send(EndArray(elementCount as int));
          done := true;
        } else {
          failed := true;
        }
        return;
      }
      if env.flags.trailingCommas && Peek() == RIGHT_BRACKET {
        Send(EndArray(elementCount as int));
        pos := pos + 1;
        done := true;
      }
    }

    /** Parse without the iterative flag. */
    method Parse()
      requires Valid()
      modifies this
      ensures Valid()
      ensures Result() == RecursiveReader.Parse(env, old(pos))
    {
      failed, overflow, events := false, false, [];
      SkipWsAndComments();
      if failed {
        return;
      }
      if Peek() == NUL {
        failed := true;
        return;
      }
      ParseValue();
      if failed {
        return;
      }
      if !env.flags.stopWhenDone {
        SkipWsAndComments();
        if failed {
          return;
        }
        if Peek() != NUL {
          failed := true;
        }
      }
    }

    // ----- the automaton

    /** What a transition that returned state `d` amounts to. */
    function Configuration(d: State): S.Config
      reads this
    {
      if d == ErrorState && failed then S.Stopped(events) else S.Running(d, stack, pos, events)
    }

    /** Push and Pop of a SizeType. */
    method PushCell(n: uint32)
      modifies this`stack
      ensures stack == old(stack) + S.Cell(n as int)
    {
      stack := stack + S.Cell(n as int);
    }

    method PopCell() returns (n: uint32)
      requires |stack| >= 4
      modifies this`stack
      ensures stack == old(stack)[..|old(stack)| - 4] && n as int == S.CellValue(old(stack)[|old(stack)| - 4..])
    {
      n := S.CellValue(stack[|stack| - 4..]) as uint32;
      stack := stack[..|stack| - 4];
    }

    method Open(src: State, dst: State) returns (d: State)
      requires Valid() && !failed && Peek() != NUL
      requires dst == ObjectInitialState || dst == ArrayInitialState
      modifies this
      ensures Valid() && (failed ==> d == ErrorState)
      ensures
        var e := if dst == ObjectInitialState then StartObject else StartArray;
        Configuration(d) == S.Advance(RecursiveReader.Send(env, old(events), e, old(pos) + 1), dst,
                                      old(stack) + S.Cell(S.StateCode(ReturnState(src))) + S.Cell(0))
    {
      var n := src;
      if src == ArrayInitialState || src == ElementDelimiterState {
        n := ElementState;
      } else if src == KeyValueDelimiterState {
        n := MemberValueState;
      }
      PushCell(S.StateCode(n) as uint32);
      PushCell(0);
      Send(if dst == ObjectInitialState then StartObject else StartArray);
      if failed {
        return ErrorState;
      }
      pos := pos + 1;
      return dst;
    }

    /** The two pops assert that the stack holds a cell. */
    method CloseContainer(last: bool, isObject: bool) returns (n: State)
      requires Valid() && !failed && Peek() != NUL
      modifies this
      ensures Valid() && (failed ==> n == ErrorState)
      ensures Configuration(n) == S.Close(env, old(stack), old(pos), old(events), last, isObject)
    {
      if |stack| < 8 {
        failed := true;
        return ErrorState;
      }
      PopTwo(stack);
      var c := PopCell();
      if last {
        c := if c == 0xFFFF_FFFF then 0 else c + 1;
      }
      var code := PopCell();
      Send(if isObject then EndObject(c as int) else EndArray(c as int));
      if failed {
        return ErrorState;
      }
      pos := pos + 1;
      var state := S.StateOf(code as int);
      if state.None? {
        failed := true;
        return ErrorState;
      }
      n := state.value;
      if n == StartState {
        n := FinishState;
      }
    }

    lemma {:induction false} PopTwo(stack: Text)
      requires |stack| >= 8
      ensures
        var n, once := |stack|, stack[..|stack| - 4];
        once[|once| - 4..] == stack[n - 8..n - 4] && once[..|once| - 4] == stack[..n - 8]
    {
    }

    /** One transition, in place. */
    method Transit(src: State, dst: State) returns (d: State)
      requires Valid() && !failed && Peek() != NUL
      requires dst == Predict(src, Tokenize(Peek()))
      modifies this
      ensures Valid() && (failed ==> d == ErrorState)
      ensures Configuration(d) == S.Transit(env, src, dst, old(stack), old(pos), old(events))
      ensures !failed ==> pos > old(pos)
    {
      S.TransitMoves(env, src, stack, pos, events);
      hide RecursiveReader.ParseString, RecursiveReader.ParseValue, S.Close, S.LiteralLeft, S.Cell, S.CellValue;
      if dst == ErrorState {
        failed := true;
        d := ErrorState;
      } else if dst == ObjectInitialState || dst == ArrayInitialState {
        d := Open(src, dst);
      } else if dst == MemberKeyState {
        ParseString(true);
        d := if failed then ErrorState else dst;
      } else if dst == KeyValueDelimiterState {
        pos := pos + 1;
        d := dst;
      } else if dst == MemberValueState || dst == ElementState {
        ParseValue();
        d := if failed then ErrorState else dst;
      } else if dst == MemberDelimiterState || dst == ElementDelimiterState {
        d := CountPart(dst);
      } else if dst == ObjectFinishState {
        if !env.flags.trailingCommas && src == MemberDelimiterState {
          failed := true;
          d := ErrorState;
        } else {
          d := CloseContainer(src == MemberValueState, true);
        }
      } else if dst == ArrayFinishState {
        if !env.flags.trailingCommas && src == ElementDelimiterState {
          failed := true;
          d := ErrorState;
        } else {
          d := CloseContainer(src == ElementState, false);
        }
      } else {
        ParseValue();
        d := if failed then ErrorState else FinishState;
      }
    }

    /** A comma: the count on top of the stack, which asserts that it holds one, goes up. */
    method CountPart(dst: State) returns (d: State)
      requires Valid() && !failed && Peek() != NUL && dst != ErrorState
      modifies this
      ensures Valid() && failed == (|old(stack)| < 4) && d == (if failed then ErrorState else dst)
      ensures events == old(events)
      ensures !failed ==>
        var s, n := old(stack), |old(stack)|;
        pos == old(pos) + 1 && stack == s[..n - 4] + S.Cell(Increment(S.CellValue(s[n - 4..])))
    {
      hide S.Cell, S.CellValue;
      if |stack| < 4 {
        failed := true;
        return ErrorState;
      }
      pos := pos + 1;
      var c := PopCell();
      PushCell(if c == 0xFFFF_FFFF then 0 else c + 1);
      d := dst;
    }

    method IterativeParse()
      requires Valid()
      modifies this
      ensures Valid()
      ensures Result() == S.IterativeParse(env, old(pos))
    {
      failed, overflow, events, stack := false, false, [], [];
      var state := StartState;
      SkipWsAndComments();
      if failed {
        return;
      }
      while Peek() != NUL
        invariant Valid() && !failed
        invariant S.Loop(env, state, stack, pos, events) == S.IterativeParse(env, old(pos))
        decreases |env.src| - pos
      {
        var n := Predict(state, Tokenize(Peek()));
        var d := Transit(state, n);
        if d == ErrorState {
          S.ErrorStays(env, stack, pos, events);
          failed := true;
          return;
        }
        state := d;
        if env.flags.stopWhenDone && state == FinishState {
          return;
        }
        SkipWsAndComments();
        if failed {
          return;
        }
      }
      if state != FinishState {
        failed := true;
      }
    }
  }
}
