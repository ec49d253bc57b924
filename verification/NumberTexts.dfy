/** Numbers: the reader takes those of the grammar that are in range, as what they say (reader.h). */
module NumberTexts {
  import opened Bytes
  import opened Events
  import opened Options
  import opened Scanner
  import opened Grammar
  import ExponentRange

  // ----- digits

  function Figure(c: byte): digit
    requires IsDigit(c)
  {
    c as int - 0x30
  }

  lemma {:induction false} DigitsRead(s: Text, pos: nat, ds: seq<digit>)
    requires StandsAt(s, pos, DigitsText(ds))
    ensures forall k | pos <= k < pos + |ds| :: IsDigit(At(s, k)) && Figure(At(s, k)) == ds[k - pos]
    ensures DigitsValue(s, pos, pos + |ds|) == DecimalValue(ds)
    decreases |ds|
  {
    if ds != [] {
      var init, last := ds[..|ds| - 1], ds[|ds| - 1];
      assert DigitsText(ds) == DigitsText(init) + [0x30 + last as int];
      StandsAtSplit(s, pos, DigitsText(init), [0x30 + last as int]);
      DigitsRead(s, pos, init);
      FirstAt(s, pos + |init|, [0x30 + last as int], 0);
    }
  }

  lemma {:induction false} DigitsTaken(s: Text, lo: nat, hi: nat) returns (ds: seq<digit>)
    requires lo <= hi <= |s| && forall k | lo <= k < hi :: IsDigit(At(s, k))
    ensures |ds| == hi - lo && StandsAt(s, lo, DigitsText(ds)) && DigitsValue(s, lo, hi) == DecimalValue(ds)
    decreases hi - lo
  {
    ds := [];
    if lo < hi {
      var init := DigitsTaken(s, lo, hi - 1);
      var last := Figure(At(s, hi - 1));
      ds := init + [last];
      assert DigitsText(ds) == DigitsText(init) + [s[hi - 1]];
      assert StandsAt(s, hi - 1, [s[hi - 1]]);
      StandsAtSplit(s, lo, DigitsText(init), [s[hi - 1]]);
      DigitsRead(s, lo, ds);
    }
  }

  // ----- the integer part, or the word in its place

  function Magnitude(n: Numeral): nat {
    if n.lead.Whole? then DecimalValue(n.lead.digits) else 0
  }

  /** The digits behind the first, as the reader counts them. */
  function Significant(n: Numeral): nat {
    if n.lead.Whole? && n.lead.digits != [] then |n.lead.digits| - 1 else 0
  }

  predicate ValidLead(nanAndInf: bool, lead: Lead) {
    match lead
    case Whole(ds) => ds != [] && (ds[0] == 0 ==> |ds| == 1)
    case _ => nanAndInf
  }

  /** The reader, wanting as much as it can get, ends the integer part before this character. */
  predicate LeadStops(lead: Lead, c: byte) {
    match lead
    case Whole(ds) => ds == [0] || !IsDigit(c)
    case Inf => c != 0x69
    case _ => true
  }

  lemma {:induction false} LeadReads(env: Env, pos: nat, lead: Lead)
    requires ValidLead(env.flags.nanAndInf, lead) && StandsAt(env.src, pos, LeadText(lead))
    requires LeadStops(lead, At(env.src, pos + |LeadText(lead)|))
    ensures NumberHead(env, pos)
      == Head(pos + |LeadText(lead)|, if lead.Whole? then DecimalValue(lead.digits) else 0, !lead.Whole?)
    ensures At(env.src, pos) != MINUS
  {
    match lead {
      case Whole(ds) => WholeReads(env, pos, ds);
      case NaN => WordReads(env.src, pos, LeadText(NaN));
      case Inf => WordReads(env.src, pos, LeadText(Inf));
      case Infinity => WordReads(env.src, pos, LeadText(Infinity));
    }
  }

  lemma {:induction false} WholeReads(env: Env, pos: nat, ds: seq<digit>)
    requires ds != [] && (ds[0] == 0 ==> |ds| == 1) && StandsAt(env.src, pos, DigitsText(ds))
    requires ds == [0] || !IsDigit(At(env.src, pos + |ds|))
    ensures NumberHead(env, pos) == Head(pos + |ds|, DecimalValue(ds), false) && IsDigit(At(env.src, pos))
  {
    DigitsRead(env.src, pos, ds);
    assert IsDigit(At(env.src, pos)) && Figure(At(env.src, pos)) == ds[pos - pos];
    if ds[0] == 0 {
      assert ds == [0];
      assert DecimalValue(ds) == 0;
    } else {
      DigitsEndIs(env.src, pos, pos + |ds|);
    }
  }

  lemma {:induction false} WordReads(s: Text, pos: nat, word: Text)
    requires |word| <= 8 && StandsAt(s, pos, word)
    ensures forall k | pos <= k < pos + |word| :: At(s, k) == word[k - pos]
  {
    forall k | pos <= k < pos + |word| ensures At(s, k) == word[k - pos] {
      FirstAt(s, pos, word, k - pos);
    }
  }

  lemma {:induction false} LeadTaken(env: Env, pos: nat) returns (lead: Lead)
    requires NumberHead(env, pos).Head?
    ensures ValidLead(env.flags.nanAndInf, lead) && StandsAt(env.src, pos, LeadText(lead))
    ensures NumberHead(env, pos).next == pos + |LeadText(lead)|
    ensures LeadStops(lead, At(env.src, pos + |LeadText(lead)|))
  {
    var s, e := env.src, NumberHead(env, pos).next;
    if IsDigit(At(s, pos)) {
      var ds := DigitsTaken(s, pos, e);
      lead := Whole(ds);
    } else {
      lead := if At(s, pos) == 0x4E then NaN else if e == pos + 3 then Inf else Infinity;
      WordStands(s, pos, LeadText(lead));
    }
  }

  lemma {:induction false} WordStands(s: Text, pos: nat, word: Text)
    requires word != [] && forall k | pos <= k < pos + |word| :: At(s, k) == word[k - pos] != 0
    ensures StandsAt(s, pos, word)
  {
    var last := pos + |word| - 1;
    assert At(s, last) != 0;
    StandsAtSlice(s, pos, word);
    forall k | 0 <= k < |word| ensures s[pos..pos + |word|][k] == word[k] {
      assert At(s, pos + k) == word[pos + k - pos];
    }
    assert s[pos..pos + |word|] == word;
  }

  // ----- the fraction

  /** The power of ten that the fraction takes from the significand, as the reader counts it. */
  function FractionPower(n: Numeral): int {
    var f := Fraction(FractionText(n.fraction), 0, Magnitude(n), Oversized(n.minus, Magnitude(n)), Significant(n));
    if f.Part? then f.adjust else 0
  }

  lemma {:induction false} FastMoves(s: Text, i: nat, t: Text, j: nat, ds: Text, significand: nat, significant: nat)
    requires StandsAt(s, i, ds) && StandsAt(t, j, ds)
    requires forall k | i <= k < i + |ds| :: IsDigit(At(s, k))
    requires forall k | j <= k < j + |ds| :: IsDigit(At(t, k))
    ensures
      FastFraction(s, i, i + |ds|, significand, significant) == FastFraction(t, j, j + |ds|, significand, significant)
    decreases |ds|
  {
    if ds != [] {
      if significand > FAST_PATH_MAX {
        SlowMoves(s, i, t, j, ds, true, significant);
      } else {
        var next := significand * 10 + Digit(At(s, i));
        FastMoves(s, i + 1, t, j + 1, ds[1..], next, if next != 0 then significant + 1 else significant);
      }
    }
  }

  lemma {:induction false} SlowMoves(s: Text, i: nat, t: Text, j: nat, ds: Text, positive: bool, significant: nat)
    requires StandsAt(s, i, ds) && StandsAt(t, j, ds)
    requires forall k | i <= k < i + |ds| :: IsDigit(At(s, k))
    requires forall k | j <= k < j + |ds| :: IsDigit(At(t, k))
    ensures SlowFraction(s, i, i + |ds|, positive, significant) == SlowFraction(t, j, j + |ds|, positive, significant)
    decreases |ds|
  {
    if ds != [] {
      var p := positive || At(s, i) != ZERO;
      SlowMoves(s, i + 1, t, j + 1, ds[1..], positive, significant);
      SlowMoves(s, i + 1, t, j + 1, ds[1..], p, if p then significant + 1 else significant);
    }
  }

  predicate FractionStops(fraction: seq<digit>, c: byte) {
    if fraction == [] then c != 0x2E else !IsDigit(c)
  }

  lemma {:induction false} FractionReads(s: Text, pos: nat, n: Numeral)
    requires StandsAt(s, pos, FractionText(n.fraction))
    requires FractionStops(n.fraction, At(s, pos + |FractionText(n.fraction)|))
    ensures Fraction(s, pos, Magnitude(n), Oversized(n.minus, Magnitude(n)), Significant(n))
      == Part(pos + |FractionText(n.fraction)|, FractionPower(n))
    ensures 0 - |n.fraction| <= FractionPower(n) <= 0
  {
    hide FastFraction, SlowFraction;
    var ds, t := n.fraction, FractionText(n.fraction);
    if ds != [] {
      StandsAtSplit(s, pos, [0x2E], DigitsText(ds));
      FirstAt(s, pos, [0x2E], 0);
      DigitsRead(s, pos + 1, ds);
      DigitsEndIs(s, pos + 1, pos + 1 + |ds|);
      assert IsDigit(At(s, pos + 1));
      StandsAtSlice(t, 1, DigitsText(ds));
      assert t[1..1 + |ds|] == DigitsText(ds);
      DigitsRead(t, 1, ds);
      DigitsEndIs(t, 1, 1 + |ds|);
      FastMoves(s, pos + 1, t, 1, DigitsText(ds), Magnitude(n), Significant(n));
    }
  }

  lemma {:induction false} FractionTaken(s: Text, pos: nat, magnitude: nat, oversized: bool, significant: nat)
      returns (ds: seq<digit>)
    requires pos <= |s| && Fraction(s, pos, magnitude, oversized, significant).Part?
    ensures StandsAt(s, pos, FractionText(ds))
    ensures Fraction(s, pos, magnitude, oversized, significant).next == pos + |FractionText(ds)|
    ensures FractionStops(ds, At(s, pos + |FractionText(ds)|))
  {
    ds := [];
    if At(s, pos) == 0x2E {
      var e := DigitsEnd(s, pos + 1);
      assert IsDigit(At(s, pos + 1));
      ds := DigitsTaken(s, pos + 1, e);
      assert e > pos + 1;
      WordStands(s, pos, [0x2E]);
      StandsAtSplit(s, pos, [0x2E], DigitsText(ds));
    }
  }

  // ----- the exponent

  /** An exponent the reader does not refuse: a negative one, or one of at most 308 with the fraction's share. */
  predicate PowerFits(power: Option<Power>, adjust: int) {
    power.None? || power.value.sign == Minus || DecimalValue(power.value.digits) <= 308 - adjust
  }

  predicate PowerStops(power: Option<Power>, c: byte) {
    if power.None? then c != 0x65 && c != 0x45 else !IsDigit(c)
  }

  /** Where the digits of an exponent start. */
  lemma {:induction false} PowerStarts(s: Text, pos: nat, power: Power)
    requires StandsAt(s, pos, PowerText(Some(power))) && power.digits != []
    ensures At(s, pos) == 0x65 || At(s, pos) == 0x45
    ensures
      var p := ExponentDigits(s, pos);
      && p == pos + 1 + |SignText(power.sign)| && StandsAt(s, p, DigitsText(power.digits))
      && (At(s, pos + 1) == MINUS <==> power.sign == Minus)
  {
    hide StandsAt;
    var letter: Text := [if power.upper then 0x45 else 0x65];
    var sign, digits := SignText(power.sign), DigitsText(power.digits);
    StandsAtSplit(s, pos, letter + sign, digits);
    StandsAtSplit(s, pos, letter, sign);
    FirstAt(s, pos, letter, 0);
    if power.sign == NoSign {
      DigitsRead(s, pos + 1, power.digits);
      assert IsDigit(At(s, pos + 1));
    } else {
      FirstAt(s, pos + 1, sign, 0);
    }
  }

  lemma {:induction false} PowerReads(s: Text, pos: nat, power: Option<Power>, adjust: int)
    requires StandsAt(s, pos, PowerText(power)) && (power.Some? ==> power.value.digits != [])
    requires PowerStops(power, At(s, pos + |PowerText(power)|)) && -214748055 <= adjust <= 0
    ensures Exponent(s, pos, adjust)
      == if PowerFits(power, adjust) then ExponentEnd(pos + |PowerText(power)|) else ExponentError
  {
    hide StandsAt, NegativeExponent, PositiveExponent, ExponentDigits;
    ExponentRange.NoOverflow(s, pos, adjust);
    if power.Some? {
      var ds := power.value.digits;
      PowerStarts(s, pos, power.value);
      var p := ExponentDigits(s, pos);
      DigitsRead(s, p, ds);
      DigitsEndIs(s, p, p + |ds|);
      assert IsDigit(At(s, p));
      ExponentRange.PositiveExact(s, p, p + |ds|, adjust);
    }
  }

  lemma {:induction false} PowerTaken(s: Text, pos: nat, adjust: int) returns (power: Option<Power>)
    requires pos <= |s| && Exponent(s, pos, adjust).ExponentEnd?
    ensures StandsAt(s, pos, PowerText(power)) && (power.Some? ==> power.value.digits != [])
    ensures Exponent(s, pos, adjust).next == pos + |PowerText(power)|
    ensures PowerStops(power, At(s, pos + |PowerText(power)|))
  {
    hide NegativeExponent, PositiveExponent, StandsAt, SignText, ExponentDigits, DigitsText;
    power := None;
    if At(s, pos) == 0x65 || At(s, pos) == 0x45 {
      var p := ExponentDigits(s, pos);
      var e := DigitsEnd(s, p);
      assert IsDigit(At(s, p)) && e > p;
      var ds := DigitsTaken(s, p, e);
      var sign := SignTaken(s, pos);
      var letter: Text := [At(s, pos)];
      OneStands(s, pos, At(s, pos));
      StandsAtSplit(s, pos, letter, SignText(sign));
      StandsAtSplit(s, pos, letter + SignText(sign), DigitsText(ds));
      power := Some(Power(At(s, pos) == 0x45, sign, ds));
    } else {
      NothingStandsHere(s, pos);
    }
  }

  lemma {:induction false} NothingStandsHere(s: Text, pos: nat)
    requires pos <= |s|
    ensures StandsAt(s, pos, PowerText(None))
  {
  }

  lemma {:induction false} SignTaken(s: Text, pos: nat) returns (sign: Sign)
    requires pos < |s|
    ensures StandsAt(s, pos + 1, SignText(sign)) && ExponentDigits(s, pos) == pos + 1 + |SignText(sign)|
  {
    sign := if At(s, pos + 1) == MINUS then Minus else if At(s, pos + 1) == PLUS then Plus else NoSign;
    if sign != NoSign {
      OneStands(s, pos + 1, At(s, pos + 1));
    }
  }

  // ----- whole numbers

  /**
   * The numbers the reader does not refuse: integers that 64 bits hold and the words of their own; of
   * the others those whose double does not overflow and whose exponent fits.
   */
  predicate InRange(tooBig: Text -> bool, n: Numeral) {
    Holds(n) || (!n.lead.Whole? && n.fraction == [] && n.power.None?)
    || (!tooBig(NumeralText(n)) && PowerFits(n.power, FractionPower(n)))
  }

  /** A numeral of the grammar, but for its range. */
  predicate Shaped(nanAndInf: bool, n: Numeral) {
    ValidLead(nanAndInf, n.lead) && (n.power.Some? ==> n.power.value.digits != [])
  }

  /** The reader ends the number before this character. */
  predicate Stops(n: Numeral, c: byte) {
    && PowerStops(n.power, c) && (n.power.None? ==> FractionStops(n.fraction, c))
    && (n.power.None? && n.fraction == [] ==> LeadStops(n.lead, c))
  }

  /** Where the parts of a numeral stand. */
  ghost predicate Parts(s: Text, pos: nat, n: Numeral, start: nat, mid: nat, last: nat, end: nat) {
    && start == pos + (if n.minus then 1 else 0) && (n.minus ==> At(s, pos) == MINUS)
    && mid == start + |LeadText(n.lead)| && StandsAt(s, start, LeadText(n.lead))
    && last == mid + |FractionText(n.fraction)| && StandsAt(s, mid, FractionText(n.fraction))
    && end == last + |PowerText(n.power)| && StandsAt(s, last, PowerText(n.power))
  }

  lemma {:induction false} PartsStand(s: Text, pos: nat, n: Numeral, start: nat, mid: nat, last: nat, end: nat)
    ensures Parts(s, pos, n, start, mid, last, end) ==>
      StandsAt(s, pos, NumeralText(n)) && end == pos + |NumeralText(n)|
    ensures
      StandsAt(s, pos, NumeralText(n)) && end == pos + |NumeralText(n)| && last == end - |PowerText(n.power)|
      && mid == last - |FractionText(n.fraction)| && start == mid - |LeadText(n.lead)|
      ==> Parts(s, pos, n, start, mid, last, end)
  {
    hide LeadText, FractionText, PowerText, StandsAt;
    var sign: Text := if n.minus then [0x2D] else [];
    StandsAtSplit(s, pos, sign + LeadText(n.lead) + FractionText(n.fraction), PowerText(n.power));
    StandsAtSplit(s, pos, sign + LeadText(n.lead), FractionText(n.fraction));
    StandsAtSplit(s, pos, sign, LeadText(n.lead));
    if n.minus {
      OneStands(s, pos, 0x2D);
    } else {
      NothingStands(s, pos, LeadText(n.lead));
    }
  }

  lemma {:induction false} OneStands(s: Text, pos: nat, c: byte)
    requires c != 0
    ensures StandsAt(s, pos, [c]) <==> At(s, pos) == c
  {
    if At(s, pos) == c {
      WordStands(s, pos, [c]);
    }
  }

  lemma {:induction false} NothingStands(s: Text, pos: nat, t: Text)
    ensures StandsAt(s, pos, t) ==> StandsAt(s, pos, [])
  {
  }

  /** The first characters of the parts behind. */
  lemma {:induction false} PartsStart(s: Text, pos: nat, n: Numeral, start: nat, mid: nat, last: nat, end: nat)
    requires Parts(s, pos, n, start, mid, last, end) && Stops(n, At(s, end))
    ensures LeadStops(n.lead, At(s, mid)) && FractionStops(n.fraction, At(s, last))
  {
    if n.power.Some? {
      FirstAt(s, last, PowerText(n.power), 0);
    }
    if n.fraction != [] {
      FirstAt(s, mid, FractionText(n.fraction), 0);
    }
  }

  /** A numeral is read as what it says if it is in range, and refused if it is not. */
  lemma {:induction false} NumeralReads(env: Env, pos: nat, n: Numeral)
    requires Shaped(env.flags.nanAndInf, n) && StandsAt(env.src, pos, NumeralText(n))
    requires Stops(n, At(env.src, pos + |NumeralText(n)|)) && |n.fraction| <= 214748055
    ensures NumberAt(env, pos)
      == if InRange(env.tooBig, n) then Some((NumeralEvent(n), pos + |NumeralText(n)|)) else None
  {
    hide StandsAt, NumberHead, LeadText, FractionText, PowerText, FractionPower, Fraction, Exponent;
    var s, end := env.src, pos + |NumeralText(n)|;
    var last := end - |PowerText(n.power)|;
    var mid := last - |FractionText(n.fraction)|;
    var start := mid - |LeadText(n.lead)|;
    PartsStand(s, pos, n, start, mid, last, end);
    PartsStart(s, pos, n, start, mid, last, end);
    LeadReads(env, start, n.lead);
    FractionReads(s, mid, n);
    PowerReads(s, last, n.power, FractionPower(n));
    LeadLength(n.lead);
    EventIs(env, pos, n, mid, end);
    assert NumberHead(env, start) == Head(mid, Magnitude(n), !n.lead.Whole?);
    assert Significant(n) == if !n.lead.Whole? then 0 else mid - start - 1;
  }

  lemma {:induction false} LeadLength(lead: Lead)
    ensures lead.Whole? ==> |LeadText(lead)| == |lead.digits|
    ensures !lead.Whole? ==> |LeadText(lead)| > 0
  {
  }

  /** The event, the exponent being in order. */
  lemma {:induction false} EventIs(env: Env, pos: nat, n: Numeral, mid: nat, end: nat)
    requires StandsAt(env.src, pos, NumeralText(n)) && end == pos + |NumeralText(n)|
    requires pos < mid == end - |PowerText(n.power)| - |FractionText(n.fraction)|
    requires n.power.Some? ==> n.power.value.digits != []
    ensures PowerFits(n.power, FractionPower(n)) ==>
      NumberEvent(env, pos, n.minus, Head(mid, Magnitude(n), !n.lead.Whole?), end)
        == if InRange(env.tooBig, n) then Some((NumeralEvent(n), end)) else None
    ensures !PowerFits(n.power, FractionPower(n)) ==> !InRange(env.tooBig, n)
  {
    hide FractionPower, NumeralText, DecimalValue;
    StandsAtSlice(env.src, pos, NumeralText(n));
    assert env.src[pos..end] == NumeralText(n);
    assert end > mid <==> n.fraction != [] || n.power.Some?;
  }

  /** And what is read is a numeral. */
  lemma {:induction false} NumeralTaken(env: Env, pos: nat) returns (n: Numeral)
    requires NumberAt(env, pos).Some?
    ensures Shaped(env.flags.nanAndInf, n) && StandsAt(env.src, pos, NumeralText(n))
    ensures Stops(n, At(env.src, pos + |NumeralText(n)|))
    ensures NumberAt(env, pos).value.1 == pos + |NumeralText(n)|
  {
    hide StandsAt, NumberHead, LeadText, FractionText, PowerText, Fraction, Exponent;
    var s := env.src;
    var minus := At(s, pos) == MINUS;
    var start := if minus then pos + 1 else pos;
    var lead := LeadTaken(env, start);
    var head := NumberHead(env, start);
    var oversized := Oversized(minus, head.magnitude);
    var significant := if head.special then 0 else head.next - start - 1;
    var frac := Fraction(s, head.next, head.magnitude, oversized, significant);
    var fraction := FractionTaken(s, head.next, head.magnitude, oversized, significant);
    var power := PowerTaken(s, frac.next, frac.adjust);
    n := Numeral(minus, lead, fraction, power);
    var end := frac.next + |PowerText(power)|;
    PartsStand(s, pos, n, start, head.next, frac.next, end);
    PartsEnd(n, s, head.next, frac.next, end);
  }

  lemma {:induction false} PartsEnd(n: Numeral, s: Text, mid: nat, last: nat, end: nat)
    requires last == mid + |FractionText(n.fraction)| && end == last + |PowerText(n.power)|
    requires LeadStops(n.lead, At(s, mid)) && FractionStops(n.fraction, At(s, last)) && PowerStops(n.power, At(s, end))
    ensures Stops(n, At(s, end))
  {
  }
}
