/** The exponent arithmetic of numbers (reader.h): for which fractions it stays inside 32-bit ints. */
module ExponentRange {
  import opened Bytes
  import opened Events
  import opened Scanner
  import opened Options

  predicate DigitString(s: Text) {
    s != [] && forall k | 0 <= k < |s| :: IsDigit(At(s, k))
  }

  predicate IsInt(n: int) { INT_MIN <= n <= INT_MAX }

  // ----- negative exponents

  /** The least fraction adjustment for which the cut-off keeps the sum inside int. */
  const LEAST_FOR_NEGATIVE := -2147483549

  lemma {:induction false} CutOffBound(s: Text, i: nat, hi: nat, exp: nat, limit: int)
    requires i <= hi && forall k | i <= k < hi :: IsDigit(At(s, k))
    ensures CutOff(s, i, hi, exp, limit) <= if exp > limit then exp * 10 + 9 else limit * 10 + 9
    decreases hi - i
  {
    if i < hi {
      var e := exp * 10 + Digit(At(s, i));
      if e <= limit {
        CutOffBound(s, i + 1, hi, e, limit);
      }
    }
  }

  /**
   * What is left of a negative exponent: the value of its digits up to a place behind the second one
   * at most, which is their end or the first place where the value exceeds the limit.
   */
  lemma {:induction false} CutOffIs(s: Text, lo: nat, i: nat, hi: nat, limit: int) returns (p: nat)
    requires lo < i <= hi && forall k | lo <= k < hi :: IsDigit(At(s, k))
    ensures i <= p <= hi && CutOff(s, i, hi, DigitsValue(s, lo, i), limit) == DigitsValue(s, lo, p)
    ensures p == hi || (p > i && DigitsValue(s, lo, p) > limit)
    ensures forall q | i < q < p :: DigitsValue(s, lo, q) <= limit
    decreases hi - i
  {
    p := i;
    if i < hi {
      p := i + 1;
      if DigitsValue(s, lo, i + 1) <= limit {
        p := CutOffIs(s, lo, i + 1, hi, limit);
      }
    }
  }

  lemma {:induction false} NegativeExponentIs(s: Text, lo: nat, hi: nat, adjust: int) returns (p: nat)
    requires lo < hi && forall k | lo <= k < hi :: IsDigit(At(s, k))
    ensures lo < p <= hi && NegativeExponent(s, lo, hi, adjust) == DigitsValue(s, lo, p)
    ensures p == hi || DigitsValue(s, lo, p) > NegativeLimit(adjust)
    ensures forall q | lo + 1 < q < p :: DigitsValue(s, lo, q) <= NegativeLimit(adjust)
  {
    assert DigitsValue(s, lo, lo + 1) == DigitsValue(s, lo, lo) * 10 + Digit(At(s, lo));
    p := CutOffIs(s, lo, lo + 1, hi, NegativeLimit(adjust));
  }

  /** The accumulator itself never leaves int, and the sum stays inside it from the least adjustment on. */
  lemma {:induction false} NegativeFits(s: Text, lo: nat, hi: nat, adjust: int)
    requires lo < hi && forall k | lo <= k < hi :: IsDigit(At(s, k))
    requires INT_MIN <= adjust <= 0
    ensures NegativeExponent(s, lo, hi, adjust) <= INT_MAX
    ensures adjust >= LEAST_FOR_NEGATIVE ==> IsInt(adjust - NegativeExponent(s, lo, hi, adjust))
  {
    CutOffBound(s, lo + 1, hi, Digit(At(s, lo)), NegativeLimit(adjust));
  }

  const NINETY_NINE: Text := [57, 57]

  /** Below the least adjustment the digits 99 leave 99: the limit is less than their first digit's successor. */
  lemma {:induction false} NinetyNine(adjust: int)
    requires INT_MIN <= adjust < LEAST_FOR_NEGATIVE
    ensures DigitString(NINETY_NINE) && NegativeExponent(NINETY_NINE, 0, 2, adjust) == 99
    ensures adjust - 99 < INT_MIN
  {
    assert NegativeLimit(adjust) <= 8;
    assert CutOff(NINETY_NINE, 1, 2, 9, NegativeLimit(adjust)) == 99;
  }

  /** The cut-off keeps exp + expFrac inside int for every digit string exactly from the least adjustment on. */
  lemma {:induction false} NegativeSumFits(adjust: int)
    requires INT_MIN <= adjust <= 0
    ensures adjust >= LEAST_FOR_NEGATIVE <==>
      forall s: Text | DigitString(s) :: IsInt(adjust - NegativeExponent(s, 0, |s|, adjust))
  {
    hide NegativeExponent;
    if adjust >= LEAST_FOR_NEGATIVE {
      forall s: Text | DigitString(s) ensures IsInt(adjust - NegativeExponent(s, 0, |s|, adjust)) {
        Digits(s);
        NegativeFits(s, 0, |s|, adjust);
      }
    } else {
      NinetyNine(adjust);
      assert !IsInt(adjust - NegativeExponent(NINETY_NINE, 0, |NINETY_NINE|, adjust));
    }
  }

  lemma {:induction false} Digits(s: Text)
    requires DigitString(s)
    ensures s != [] && forall k | 0 <= k < |s| :: IsDigit(At(s, k))
  {
  }

  // ----- positive exponents

  /** The least fraction adjustment for which the loop's multiplication never overflows. */
  const LEAST_FOR_POSITIVE := -214748055

  lemma {:induction false} PositiveFromExact(s: Text, lo: nat, i: nat, hi: nat, limit: int)
    requires lo < i <= hi && forall k | lo <= k < hi :: IsDigit(At(s, k))
    requires DigitsValue(s, lo, i) <= limit
    ensures
      var run := PositiveFrom(s, i, hi, DigitsValue(s, lo, i), limit);
      && (run.Overflow? ==> limit >= 214748364)
      && (!run.Overflow? ==> run == if DigitsValue(s, lo, hi) > limit then TooBig else Value(DigitsValue(s, lo, hi)))
    decreases hi - i
  {
    if i < hi {
      var e := DigitsValue(s, lo, i + 1);
      if e > limit {
        DigitsValueGrows(s, lo, i + 1, hi);
      } else if e <= INT_MAX {
        PositiveFromExact(s, lo, i + 1, hi, limit);
      }
    }
  }

  /** Unless it overflows, the loop refuses exactly the exponents above 308 - expFrac, and has the others exactly. */
  lemma {:induction false} PositiveExact(s: Text, lo: nat, hi: nat, adjust: int)
    requires lo < hi && forall k | lo <= k < hi :: IsDigit(At(s, k))
    requires adjust <= 0
    ensures
      var run, value := PositiveExponent(s, lo, hi, adjust), DigitsValue(s, lo, hi);
      && (run.Overflow? ==> adjust < LEAST_FOR_POSITIVE)
      && (!run.Overflow? ==> run == if value > 308 - adjust then TooBig else Value(value))
  {
    assert DigitsValue(s, lo, lo + 1) == DigitsValue(s, lo, lo) * 10 + Digit(At(s, lo));
    PositiveFromExact(s, lo, lo + 1, hi, 308 - adjust);
  }

  /** 2147483648 */
  const BEYOND_INT: Text := [50, 49, 52, 55, 52, 56, 51, 54, 52, 56]

  lemma {:induction false} BeyondInt(s: Text, lo: nat, adjust: int)
    requires StandsAt(s, lo, BEYOND_INT) && adjust < LEAST_FOR_POSITIVE
    ensures forall k | lo <= k < lo + 10 :: IsDigit(At(s, k))
    ensures PositiveExponent(s, lo, lo + 10, adjust).Overflow?
  {
    forall k: nat | k < 10 ensures At(s, lo + k) == BEYOND_INT[k] {
      FirstAt(s, lo, BEYOND_INT, k);
    }
    assert forall k | lo <= k < lo + 10 :: At(s, k) == BEYOND_INT[k - lo];
    BeyondFrom(s, lo, 308 - adjust);
  }

  lemma {:induction false} BeyondFrom(s: Text, lo: nat, limit: int)
    requires limit >= 214748364 && forall k | lo <= k < lo + 10 :: At(s, k) == BEYOND_INT[k - lo]
    ensures PositiveFrom(s, lo + 1, lo + 10, 2, limit) == Overflow
  {
    var hi := lo + 10;
    assert PositiveFrom(s, lo + 9, hi, 214748364, limit) == Overflow;
    assert PositiveFrom(s, lo + 8, hi, 21474836, limit) == Overflow;
    assert PositiveFrom(s, lo + 7, hi, 2147483, limit) == Overflow;
    assert PositiveFrom(s, lo + 6, hi, 214748, limit) == Overflow;
    assert PositiveFrom(s, lo + 5, hi, 21474, limit) == Overflow;
    assert PositiveFrom(s, lo + 4, hi, 2147, limit) == Overflow;
    assert PositiveFrom(s, lo + 3, hi, 214, limit) == Overflow;
    assert PositiveFrom(s, lo + 2, hi, 21, limit) == Overflow;
    assert PositiveFrom(s, lo + 1, hi, 2, limit) == Overflow;
  }

  /** The loop never leaves int, whatever the digits, exactly when 308 - expFrac is below 214748364. */
  lemma {:induction false} PositiveNeverOverflows(adjust: int)
    requires adjust <= 0
    ensures 308 - adjust < 214748364 <==>
      forall s: Text | DigitString(s) :: !PositiveExponent(s, 0, |s|, adjust).Overflow?
  {
    hide PositiveExponent;
    if adjust >= LEAST_FOR_POSITIVE {
      forall s: Text | DigitString(s) ensures !PositiveExponent(s, 0, |s|, adjust).Overflow? {
        Digits(s);
        PositiveExact(s, 0, |s|, adjust);
      }
    } else {
      StandsAtSlice(BEYOND_INT, 0, BEYOND_INT);
      BeyondInt(BEYOND_INT, 0, adjust);
      assert DigitString(BEYOND_INT);
      assert PositiveExponent(BEYOND_INT, 0, |BEYOND_INT|, adjust).Overflow?;
    }
  }

  /** From that adjustment on no exponent of either sign leaves int. */
  lemma {:induction false} NoOverflow(s: Text, pos: nat, adjust: int)
    requires pos <= |s| && LEAST_FOR_POSITIVE <= adjust <= 0
    ensures !Exponent(s, pos, adjust).ExponentOverflow?
  {
    hide NegativeExponent, PositiveExponent;
    var p := ExponentDigits(s, pos);
    var e := DigitsEnd(s, p);
    if IsDigit(At(s, p)) {
      assert p < e;
      NegativeFits(s, p, e, adjust);
      PositiveExact(s, p, e, adjust);
    }
  }

  // ----- the fraction's adjustment, seen from the text

  /** A fraction part: a point and `n` digits. */
  predicate FractionOf(s: Text, n: nat) {
    |s| == n + 1 && s[0] == DOT && forall k | 1 <= k < n + 1 :: IsDigit(s[k])
  }

  function Zeros(n: nat): (s: Text)
    ensures s != [] && FractionOf(s, n)
  {
    [DOT] + seq(n, _ => ZERO)
  }

  lemma {:induction false} ZerosTaken(s: Text, i: nat, hi: nat)
    requires i <= hi && forall k | i <= k < hi :: At(s, k) == ZERO
    ensures FastFraction(s, i, hi, 0, 0) == i - hi
    decreases hi - i
  {
    if i < hi {
      ZerosTaken(s, i + 1, hi);
    }
  }

  lemma {:induction false} FractionSize(s: Text, n: nat, magnitude: nat, oversized: bool, significant: nat)
    requires n > 0 && FractionOf(s, n)
    ensures
      var f := Fraction(s, 0, magnitude, oversized, significant);
      f.Part? && f.next == n + 1 && 0 - n <= f.adjust <= 0
  {
    assert !IsDigit(At(s, n + 1));
    DigitsEndIs(s, 1, n + 1);
  }

  lemma {:induction false} ZerosAdjust(n: nat)
    requires n > 0
    ensures Fraction(Zeros(n), 0, 0, false, 0) == Part(n + 1, 0 - n)
  {
    var s := Zeros(n);
    FractionSize(s, n, 0, false, 0);
    ZerosTaken(s, 1, n + 1);
  }

  /**
   * A fraction of `n` digits adjusts the exponent by at most `n`, whatever integer it follows, and
   * that is the best bound: zeros behind a zero adjust it by all of `n`.
   */
  lemma {:induction false} AdjustmentBound(n: nat, bound: nat)
    requires n > 0
    ensures n <= bound <==>
      forall s: Text, magnitude: nat, oversized: bool, significant: nat | s != [] && FractionOf(s, n) ::
        var f := Fraction(s, 0, magnitude, oversized, significant);
        f.Part? && f.adjust >= 0 - bound
  {
    hide Fraction, Zeros, FractionOf;
    if n <= bound {
      forall s: Text, magnitude: nat, oversized: bool, significant: nat | FractionOf(s, n)
        ensures
          var f := Fraction(s, 0, magnitude, oversized, significant);
          f.Part? && f.adjust >= 0 - bound
      {
        FractionSize(s, n, magnitude, oversized, significant);
      }
    } else {
      ZerosAdjust(n);
      assert FractionOf(Zeros(n), n) && Fraction(Zeros(n), 0, 0, false, 0).adjust < 0 - bound;
    }
  }

  /** e2147483648 */
  const EXPONENT_BEYOND: Text := [101] + BEYOND_INT

  lemma {:induction false} ExponentBeyond(adjust: int)
    requires adjust < LEAST_FOR_POSITIVE
    ensures Exponent(EXPONENT_BEYOND, 0, adjust).ExponentOverflow?
  {
    hide PositiveExponent;
    var s := EXPONENT_BEYOND;
    assert s[1..] == BEYOND_INT;
    StandsAtSlice(s, 1, BEYOND_INT);
    BeyondInt(s, 1, adjust);
    DigitsEndIs(s, 1, 11);
  }

  /** Behind this fraction no exponent, whatever its text, makes an int overflow. */
  ghost predicate SafeFraction(f: Text, magnitude: nat, oversized: bool, significant: nat)
    requires f != []
  {
    var p := Fraction(f, 0, magnitude, oversized, significant);
    p.Part? && p.adjust >= INT_MIN && forall e: Text :: !Exponent(e, 0, p.adjust).ExponentOverflow?
  }

  /**
   * The condition on the text: numbers with fractions of `n` digits never make an int overflow,
   * whatever integers and exponents they have, exactly when `n` is at most 214748055.
   */
  lemma {:induction false} FractionsWithoutOverflow(n: nat)
    requires n > 0
    ensures n <= 214748055 <==>
      forall f: Text, magnitude: nat, oversized: bool, significant: nat | f != [] && FractionOf(f, n) ::
        SafeFraction(f, magnitude, oversized, significant)
  {
    hide Fraction, Zeros, FractionOf, Exponent;
    if n <= 214748055 {
      forall f: Text, magnitude: nat, oversized: bool, significant: nat | f != [] && FractionOf(f, n)
        ensures SafeFraction(f, magnitude, oversized, significant)
      {
        FractionSize(f, n, magnitude, oversized, significant);
        var adjust := Fraction(f, 0, magnitude, oversized, significant).adjust;
        forall e: Text ensures !Exponent(e, 0, adjust).ExponentOverflow? {
          NoOverflow(e, 0, adjust);
        }
      }
    } else {
      ZerosAdjust(n);
      ExponentBeyond(0 - n);
      assert Zeros(n) != [] && !SafeFraction(Zeros(n), 0, false, 0);
    }
  }
}
