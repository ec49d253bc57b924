/** The lexical layer of the reader (reader.h): what both parsers do between and inside tokens. */
module Scanner {
  import opened Bytes
  import opened Encodings
  import opened Events
  import opened Options

  // ----- whitespace and comments

  function SkipWhitespace(s: Text, pos: nat): (r: nat)
    ensures pos <= r && (pos <= |s| ==> r <= |s|)
    decreases |s| - pos
  {
    if pos < |s| && IsWhitespace(s[pos]) then SkipWhitespace(s, pos + 1) else pos
  }

  /** From just after the opening of a block comment to just after its end; nothing at the end of input. */
  function SkipBlockComment(s: Text, pos: nat): (r: Option<nat>)
    ensures r.Some? ==> pos < r.value <= |s|
    decreases |s| - pos
  {
    if At(s, pos) == NUL then None
    else if At(s, pos) == STAR then
      if At(s, pos + 1) == SLASH then Some(pos + 2) else SkipBlockComment(s, pos + 1)
    else SkipBlockComment(s, pos + 1)
  }

  /** To just after the line feed, or to the NUL that ends the input. */
  function SkipLineComment(s: Text, pos: nat): (r: nat)
    ensures pos <= r && (pos <= |s| ==> r <= |s|)
    decreases |s| - pos
  {
    if At(s, pos) == NUL then pos
    else if At(s, pos) == NEWLINE then pos + 1
    else SkipLineComment(s, pos + 1)
  }

  function SkipComments(s: Text, pos: nat): (r: Option<nat>)
    requires pos <= |s|
    ensures r.Some? ==> pos <= r.value <= |s|
    decreases |s| - pos
  {
    if At(s, pos) != SLASH then Some(pos)
    else if At(s, pos + 1) == STAR then
      var e := SkipBlockComment(s, pos + 2);
      if e.None? then None else SkipComments(s, SkipWhitespace(s, e.value))
    else if At(s, pos + 1) == SLASH then
      SkipComments(s, SkipWhitespace(s, SkipLineComment(s, pos + 2)))
    else None
  }

  function SkipWhitespaceAndComments(env: Env, pos: nat): (r: Option<nat>)
    requires pos <= |env.src|
    ensures r.Some? ==> pos <= r.value <= |env.src|
  {
    var p := SkipWhitespace(env.src, pos);
    if env.flags.comments then SkipComments(env.src, p) else Some(p)
  }

  // ----- strings

  /** The reader's one-character escapes; 0 for a character that has none. */
  function Unescape(c: byte): byte {
    if c == QUOTE then QUOTE
    else if c == SLASH then SLASH
    else if c == BACKSLASH then BACKSLASH
    else if c == 98 then 8
    else if c == 102 then 12
    else if c == 110 then 10
    else if c == 114 then 13
    else if c == 116 then 9
    else 0
  }

  /** Four hexadecimal digits. */
  function Hex4(s: Text, pos: nat): (r: Option<nat>)
    ensures r.Some? ==> pos + 4 <= |s| && r.value <= 0xFFFF
  {
    HexFrom(s, pos, 4, 0)
  }

  /** `more` further digits behind the value `acc` of the digits already read. */
  function HexFrom(s: Text, pos: nat, more: nat, acc: nat): (r: Option<nat>)
    requires more <= 4 && acc < HexLimit(4 - more)
    ensures r.Some? ==> r.value <= 0xFFFF && (more > 0 ==> pos + more <= |s|)
    decreases more
  {
    if more == 0 then Some(acc)
    else
      var d := HexValue(At(s, pos));
      if d < 0 then None else HexFrom(s, pos + 1, more - 1, acc * 16 + d)
  }

  /** Values of this many hexadecimal digits stay below this limit. */
  function HexLimit(digits: nat): nat {
    if digits == 0 then 1
    else if digits == 1 then 16
    else if digits == 2 then 256
    else if digits == 3 then 4096
    else 65536
  }

  /** A `\u` escape from just after the `u`: one code unit, or a surrogate pair. */
  function UnicodeEscape(s: Text, pos: nat): (r: Option<(nat, nat)>)
    ensures r.Some? ==> r.value.0 <= 0x10FFFF && pos < r.value.1 <= |s|
  {
    var h := Hex4(s, pos);
    if h.None? then None
    else if 0xD800 <= h.value <= 0xDBFF then
      if At(s, pos + 4) != BACKSLASH || At(s, pos + 5) != 117 then None
      else
        var l := Hex4(s, pos + 6);
        if l.None? || l.value < 0xDC00 || l.value > 0xDFFF then None
        else Some(((h.value - 0xD800) * 1024 + (l.value - 0xDC00) + 0x10000, pos + 10))
    else Some((h.value, pos + 4))
  }

  /** One turn of the string loop: bytes put out, the closing quote, or an error. */
  datatype Unit = Bad | EndOfString | Unit(bytes: Text, next: nat)

  function StringUnit(env: Env, pos: nat): (r: Unit)
    ensures r.Unit? ==> pos < r.next <= |env.src|
    ensures r.EndOfString? ==> pos < |env.src|
  {
    var s := env.src;
    var c := At(s, pos);
    if c == BACKSLASH then
      var e := At(s, pos + 1);
      if Unescape(e) != 0 then Unit([Unescape(e)], pos + 2)
      else if e == 117 then
        var u := UnicodeEscape(s, pos + 2);
        if u.None? then Bad else Unit(Encode(u.value.0), u.value.1)
      else Bad
    else if c == QUOTE then EndOfString
    else if c < 0x20 then Bad
    else if env.flags.validateEncoding then
      ValidateCopies(s, pos);
      var v := Validate(s, pos);
      if v.ok then Unit(v.copied, v.next) else Bad
    else Unit([c], pos + 1)
  }

  /** The string body from `pos` to just after its closing quote, decoded behind `out`. */
  function StringBody(env: Env, pos: nat, out: Text): (r: Option<(nat, Text)>)
    ensures r.Some? ==> pos < r.value.0 <= |env.src|
    decreases |env.src| - pos
  {
    match StringUnit(env, pos)
    case Bad => None
    case EndOfString => Some((pos + 1, out))
    case Unit(bytes, next) => StringBody(env, next, out + bytes)
  }

  // ----- numbers

  const INT32_MAGNITUDE := 0x8000_0000
  const UINT32_MAX := 0xFFFF_FFFF
  const INT64_MAGNITUDE := 0x8000_0000_0000_0000
  const UINT64_MAX := 0xFFFF_FFFF_FFFF_FFFF
  const FAST_PATH_MAX := 0x1F_FFFF_FFFF_FFFF

  /** End of the digits that start at `pos`. */
  function DigitsEnd(s: Text, pos: nat): (r: nat)
    ensures pos <= r && (pos <= |s| ==> r <= |s|)
    ensures forall k | pos <= k < r :: IsDigit(At(s, k))
    ensures !IsDigit(At(s, r))
    decreases |s| - pos
  {
    if pos < |s| && IsDigit(s[pos]) then DigitsEnd(s, pos + 1) else pos
  }

  function Digit(c: byte): nat
    requires IsDigit(c)
  {
    c as int - ZERO as int
  }

  /** The number the decimal digits in `[lo, hi)` denote. */
  function DigitsValue(s: Text, lo: nat, hi: nat): nat
    requires lo <= hi
    requires forall k | lo <= k < hi :: IsDigit(At(s, k))
    decreases hi - lo
  {
    if lo == hi then 0 else DigitsValue(s, lo, hi - 1) * 10 + Digit(At(s, hi - 1))
  }

  /** An integer of this sign and magnitude has no 64-bit event and must become a double. */
  predicate Oversized(minus: bool, magnitude: nat) {
    magnitude > if minus then INT64_MAGNITUDE else UINT64_MAX
  }

  /** The event for an integer that has one. */
  function IntegerEvent(minus: bool, magnitude: nat): Event
    requires !Oversized(minus, magnitude)
  {
    if minus then
      if magnitude <= INT32_MAGNITUDE then Int(0 - magnitude) else Int64(0 - magnitude)
    else if magnitude <= UINT32_MAX then Uint(magnitude)
    else Uint64(magnitude)
  }

  /** Sign-free start of a number: where it ends, its magnitude, and whether it is NaN or an infinity. */
  datatype Head = NoHead | Head(next: nat, magnitude: nat, special: bool)

  function NumberHead(env: Env, pos: nat): (r: Head)
    ensures r.Head? ==> pos < r.next <= |env.src|
  {
    var s := env.src;
    if At(s, pos) == ZERO then Head(pos + 1, 0, false)
    else if IsDigit(At(s, pos)) then
      var e := DigitsEnd(s, pos);
      Head(e, DigitsValue(s, pos, e), false)
    else if env.flags.nanAndInf && At(s, pos) == 78 then
      if At(s, pos + 1) == 97 && At(s, pos + 2) == 78 then Head(pos + 3, 0, true) else NoHead
    else if env.flags.nanAndInf && At(s, pos) == 73 then
      if At(s, pos + 1) == 110 && At(s, pos + 2) == 102 then
        if At(s, pos + 3) != 105 then Head(pos + 3, 0, true)
        else if At(s, pos + 4) == 110 && At(s, pos + 5) == 105 && At(s, pos + 6) == 116 && At(s, pos + 7) == 121
        then Head(pos + 8, 0, true)
        else NoHead
      else NoHead
    else NoHead
  }

  /** The exponent adjustment of the fraction digits in `[i, hi)` read into a 64-bit significand. */
  function FastFraction(s: Text, i: nat, hi: nat, significand: nat, significant: nat): (r: int)
    requires i <= hi
    requires forall k | i <= k < hi :: IsDigit(At(s, k))
    ensures i - hi <= r <= 0
    decreases hi - i
  {
    if i == hi then 0
    else if significand > FAST_PATH_MAX then SlowFraction(s, i, hi, true, significant)
    else
      var next := significand * 10 + Digit(At(s, i));
      FastFraction(s, i + 1, hi, next, if next != 0 then significant + 1 else significant) - 1
  }

  /** The same once the significand is a double: digits past the seventeenth significant one are dropped. */
  function SlowFraction(s: Text, i: nat, hi: nat, positive: bool, significant: nat): (r: int)
    requires i <= hi
    requires forall k | i <= k < hi :: IsDigit(At(s, k))
    ensures i - hi <= r <= 0
    decreases hi - i
  {
    if i == hi then 0
    else if significant >= 17 then SlowFraction(s, i + 1, hi, positive, significant)
    else
      var p := positive || At(s, i) != ZERO;
      SlowFraction(s, i + 1, hi, p, if p then significant + 1 else significant) - 1
  }

  datatype Part = NoPart | Part(next: nat, adjust: int)

  /** An optional fraction: where it ends and the power of ten it takes from the significand. */
  function Fraction(s: Text, pos: nat, magnitude: nat, oversized: bool, significant: nat): (r: Part)
    requires pos <= |s|
    ensures r.Part? ==> pos <= r.next <= |s| && pos - r.next <= r.adjust <= 0
  {
    if At(s, pos) != DOT then Part(pos, 0)
    else if !IsDigit(At(s, pos + 1)) then NoPart
    else
      var e := DigitsEnd(s, pos + 1);
      Part(e, if oversized then 0 else FastFraction(s, pos + 1, e, magnitude, significant))
  }

  // ----- exponents, in 32-bit int arithmetic

  const INT_MIN := -0x8000_0000
  const INT_MAX := 0x7FFF_FFFF

  /** Division by ten as in C++, towards zero. */
  function Tenth(n: int): int {
    if n >= 0 then n / 10 else -((-n) / 10)
  }

  /** The least value at which the loop for a negative exponent gives up taking digits in. */
  function NegativeLimit(adjust: int): int {
    Tenth(adjust + 2147483639)
  }

  /** What that loop leaves, `exp` being the value of the digits before `i`. */
  function CutOff(s: Text, i: nat, hi: nat, exp: nat, limit: int): nat
    requires i <= hi
    requires forall k | i <= k < hi :: IsDigit(At(s, k))
    decreases hi - i
  {
    if i == hi then exp
    else
      var e := exp * 10 + Digit(At(s, i));
      if e > limit then e else CutOff(s, i + 1, hi, e, limit)
  }

  /** The magnitude the reader has of a negative exponent; its first digit is not compared with the limit. */
  function NegativeExponent(s: Text, lo: nat, hi: nat, adjust: int): nat
    requires lo < hi
    requires forall k | lo <= k < hi :: IsDigit(At(s, k))
  {
    CutOff(s, lo + 1, hi, Digit(At(s, lo)), NegativeLimit(adjust))
  }

  /** How the loop for a positive exponent ends. */
  datatype PositiveRun = Value(exp: nat) | TooBig | Overflow

  function PositiveFrom(s: Text, i: nat, hi: nat, exp: nat, limit: int): PositiveRun
    requires i <= hi
    requires forall k | i <= k < hi :: IsDigit(At(s, k))
    decreases hi - i
  {
    if i == hi then Value(exp)
    else
      var e := exp * 10 + Digit(At(s, i));
      if e > INT_MAX then Overflow
      else if e > limit then TooBig
      else PositiveFrom(s, i + 1, hi, e, limit)
  }

  function PositiveExponent(s: Text, lo: nat, hi: nat, adjust: int): PositiveRun
    requires lo < hi
    requires forall k | lo <= k < hi :: IsDigit(At(s, k))
  {
    if 308 - adjust > INT_MAX then Overflow else PositiveFrom(s, lo + 1, hi, Digit(At(s, lo)), 308 - adjust)
  }

  /** How an optional exponent ends: its end, an error, or an operation on ints that leaves their range. */
  datatype ExponentRun = ExponentEnd(next: nat) | ExponentError | ExponentOverflow

  function Exponent(s: Text, pos: nat, adjust: int): (r: ExponentRun)
    requires pos <= |s|
    ensures r.ExponentEnd? ==> pos <= r.next <= |s|
  {
    if At(s, pos) != 101 && At(s, pos) != 69 then ExponentEnd(pos)
    else
      var p := ExponentDigits(s, pos);
      if !IsDigit(At(s, p)) then ExponentError
      else
        var e := DigitsEnd(s, p);
        if At(s, pos + 1) == MINUS then
          if adjust - NegativeExponent(s, p, e, adjust) < INT_MIN then ExponentOverflow else ExponentEnd(e)
        else
          match PositiveExponent(s, p, e, adjust)
          case Value(_) => ExponentEnd(e)
          case TooBig => ExponentError
          case Overflow => ExponentOverflow
  }

  /** Where the digits of an exponent start, behind its letter and sign. */
  function ExponentDigits(s: Text, pos: nat): (r: nat)
    ensures pos < r
  {
    if At(s, pos + 1) == MINUS || At(s, pos + 1) == PLUS then pos + 2 else pos + 1
  }

  /** A whole number: its event and where it ends; nothing either when an int leaves its range on the way. */
  function NumberAt(env: Env, pos: nat): (r: Option<(Event, nat)>)
    ensures r.Some? ==> pos < r.value.1 <= |env.src|
  {
    var s := env.src;
    var minus := At(s, pos) == MINUS;
    var start := if minus then pos + 1 else pos;
    var head := NumberHead(env, start);
    if head.NoHead? then None
    else NumberRest(env, pos, minus, head, if head.special then 0 else head.next - start - 1)
  }

  /** Fraction, exponent and event of the number that started at `pos`. */
  function NumberRest(env: Env, pos: nat, minus: bool, head: Head, significant: nat): (r: Option<(Event, nat)>)
    requires head.Head? && pos < head.next <= |env.src|
    ensures r.Some? ==> pos < r.value.1 <= |env.src|
  {
    var oversized := Oversized(minus, head.magnitude);
    var frac := Fraction(env.src, head.next, head.magnitude, oversized, significant);
    if frac.NoPart? || frac.adjust < INT_MIN then None
    else
      var exp := Exponent(env.src, frac.next, frac.adjust);
      if !exp.ExponentEnd? then None else NumberEvent(env, pos, minus, head, exp.next)
  }

  /** The event of the number in `[pos, end)`: an integer's own, or a double. */
  function NumberEvent(env: Env, pos: nat, minus: bool, head: Head, end: nat): (r: Option<(Event, nat)>)
    requires head.Head? && pos < head.next <= end <= |env.src|
    ensures r.Some? ==> r.value.1 == end
  {
    if Oversized(minus, head.magnitude) || end > head.next then
      if env.tooBig(env.src[pos..end]) then None else Some((Double(env.src[pos..end]), end))
    else if head.special then Some((Double(env.src[pos..end]), end))
    else Some((IntegerEvent(minus, head.magnitude), end))
  }

  // ----- facts about digits

  lemma {:induction false} DigitsEndIs(s: Text, pos: nat, e: nat)
    requires pos <= e && !IsDigit(At(s, e))
    requires forall k | pos <= k < e :: IsDigit(At(s, k))
    ensures DigitsEnd(s, pos) == e
    decreases e - pos
  {
    if pos < e {
      assert IsDigit(At(s, pos));
      DigitsEndIs(s, pos + 1, e);
    }
  }

  /** More digits never make a number smaller. */
  lemma {:induction false} DigitsValueGrows(s: Text, lo: nat, mid: nat, hi: nat)
    requires lo <= mid <= hi
    requires forall k | lo <= k < hi :: IsDigit(At(s, k))
    ensures DigitsValue(s, lo, mid) <= DigitsValue(s, lo, hi)
    decreases hi - mid
  {
    if mid < hi {
      DigitsValueGrows(s, lo, mid, hi - 1);
    }
  }

  function Pow10(n: nat): (r: nat)
    ensures r > 0
  {
    if n == 0 then 1 else 10 * Pow10(n - 1)
  }

  lemma {:induction false} DigitsValueBound(s: Text, lo: nat, hi: nat)
    requires lo <= hi
    requires forall k | lo <= k < hi :: IsDigit(At(s, k))
    ensures DigitsValue(s, lo, hi) < Pow10(hi - lo)
    decreases hi - lo
  {
    if lo < hi {
      DigitsValueBound(s, lo, hi - 1);
    }
  }

  lemma {:induction false} Pow10Grows(m: nat, n: nat)
    requires m <= n
    ensures Pow10(m) <= Pow10(n)
    decreases n - m
  {
    if m < n {
      Pow10Grows(m, n - 1);
    }
  }
}
