/** Integers from text to value: exact whenever a 64-bit type holds them, a double otherwise. */
module IntegerParsing {
  import opened Bytes
  import opened Events
  import opened Options
  import opened Scanner
  import opened Document

  /**
   * An optional minus and decimal digits without a superfluous zero stand in `[pos, end)`, and nothing
   * of a number behind them.
   */
  predicate IntegerStands(s: Text, pos: nat, end: nat) {
    var start := if At(s, pos) == MINUS then pos + 1 else pos;
    && start < end <= |s|
    && (forall k | start <= k < end :: IsDigit(At(s, k)))
    && (At(s, start) == ZERO ==> end == start + 1)
    && !IsDigit(At(s, end)) && At(s, end) != DOT && At(s, end) != 101 && At(s, end) != 69
  }

  /** The integer the text says. */
  function Meaning(s: Text, pos: nat, end: nat): int
    requires IntegerStands(s, pos, end)
  {
    if At(s, pos) == MINUS then 0 - DigitsValue(s, pos + 1, end) else DigitsValue(s, pos, end)
  }

  /** Whether one of the 64-bit types the reader uses for this sign holds the number. */
  predicate Holds64(negative: bool, n: int) {
    if negative then InInt64(n) else InUint64(n)
  }

  /**
   * An integer text is read as exactly the number it says when int64 (with a minus) or uint64 holds
   * that number, and the value built of it has the four range flags it should have. It is read as a
   * double exactly when they do not, or as an error when the double would be too big.
   */
  lemma {:induction false} IntegersExact(env: Env, pos: nat, end: nat)
    requires IntegerStands(env.src, pos, end)
    ensures
      var n, negative := Meaning(env.src, pos, end), At(env.src, pos) == MINUS;
      var r := NumberAt(env, pos);
      if Holds64(negative, n) then
        && r.Some? && r.value.1 == end && ScalarEvent(r.value.0)
        && ScalarValue(r.value.0) == NumberValue(Number(n, InInt(n), InUint(n), InInt64(n), InUint64(n)))
      else
        r == if env.tooBig(env.src[pos..end]) then None else Some((Double(env.src[pos..end]), end))
  {
    hide DigitsValue, NumberEvent;
    var negative := At(env.src, pos) == MINUS;
    var start := if negative then pos + 1 else pos;
    var m := DigitsValue(env.src, start, end);
    HeadIs(env, start, end);
    RestIs(env, pos, negative, Head(end, m, false), end - start - 1);
    EventIs(env, pos, negative, m, end);
  }

  lemma {:induction false} HeadIs(env: Env, start: nat, end: nat)
    requires start < end <= |env.src| && !IsDigit(At(env.src, end))
    requires forall k | start <= k < end :: IsDigit(At(env.src, k))
    requires At(env.src, start) == ZERO ==> end == start + 1
    ensures NumberHead(env, start) == Head(end, DigitsValue(env.src, start, end), false)
  {
    assert IsDigit(At(env.src, start));
    if At(env.src, start) == ZERO {
      assert DigitsValue(env.src, start, start) == 0;
      assert DigitsValue(env.src, start, end) == Digit(At(env.src, start));
    } else {
      DigitsEndIs(env.src, start, end);
    }
  }

  lemma {:induction false} RestIs(env: Env, pos: nat, negative: bool, head: Head, significant: nat)
    requires head.Head? && pos < head.next <= |env.src|
    requires At(env.src, head.next) != DOT && At(env.src, head.next) != 101 && At(env.src, head.next) != 69
    ensures NumberRest(env, pos, negative, head, significant) == NumberEvent(env, pos, negative, head, head.next)
  {
  }

  lemma {:induction false} EventIs(env: Env, pos: nat, negative: bool, m: nat, end: nat)
    requires pos < end <= |env.src|
    ensures
      var n := if negative then 0 - m else m;
      var r := NumberEvent(env, pos, negative, Head(end, m, false), end);
      if Holds64(negative, n) then
        && r.Some? && r.value.1 == end && ScalarEvent(r.value.0)
        && ScalarValue(r.value.0) == NumberValue(Number(n, InInt(n), InUint(n), InInt64(n), InUint64(n)))
      else
        r == if env.tooBig(env.src[pos..end]) then None else Some((Double(env.src[pos..end]), end))
  {
    hide HighBitsClear;
    var n := if negative then 0 - m else m;
    ConstructorsCanonical(n);
  }
}
