/** The texts the parsers accept are those of the grammar, and the events sent are what they say (reader.h). */
module AcceptedTexts {
  import opened Bytes
  import opened Events
  import opened Options
  import opened Scanner
  import opened StringStack
  import opened RecursiveReader
  import opened Grammar
  import opened GapTexts
  import opened LiteralTexts
  import opened NumberTexts
  import StackedReader

  /** The grammar of the reader with these settings. */
  function Mine(env: Env): Profile {
    Reads(env.flags, n => InRange(env.tooBig, n))
  }

  /** No fraction is so long that an int overflows. */
  predicate ShortFractions(s: Text) {
    forall i: nat | i < |s| && s[i] == 0x2E :: DigitsEnd(s, i + 1) <= i + 1 + 214748055
  }

  /** A handler that never stops the parse, and a text short enough for the counts and for int. */
  ghost predicate Ready(env: Env) {
    (forall es :: env.handler(es)) && |env.src| < SIZE_TYPE_LIMIT && ShortFractions(env.src)
  }

  /** Characters that may stand behind a value. */
  predicate EndsValue(c: byte) {
    c in {0x20, 0x09, 0x0A, 0x0D, 0x2C, 0x2F, 0x5D, 0x7D, 0}
  }

  /** Characters a value may start with. */
  predicate StartsValue(c: byte) {
    Solid(c) && c !in {0x5D, 0x7D, 0x2C, 0x3A, 0}
  }

  lemma {:induction false} Sends(env: Env, events: seq<Event>, e: Event, pos: nat)
    requires Ready(env)
    ensures Send(env, events, e, pos) == Parsed(pos, events + [e])
  {
  }

  lemma {:induction false} GapEnds(p: Profile, s: Text, pos: nat, g: Gap)
    requires ValidGap(p, g) && StandsAt(s, pos, GapText(g)) && EndsValue(At(s, pos + |GapText(g)|))
    ensures EndsValue(At(s, pos))
  {
    if g != [] {
      FirstAt(s, pos, GapText(g), 0);
    }
  }

  lemma {:induction false} SpellingStarts(p: Profile, v: Json)
    requires Valid(p, v)
    ensures Spelling(v) != [] && StartsValue(Spelling(v)[0])
  {
    hide NumeralText, ValidNumeral, GapText, ElementsText, MembersText;
    match v {
      case Number(n) =>
        NumberStarts(p, n);
      case _ =>
    }
  }

  lemma {:induction false} FourStand(s: Text, pos: nat, a: Text, b: Text, c: Text, d: Text)
    ensures StandsAt(s, pos, a + (b + (c + d))) <==>
      && StandsAt(s, pos, a) && StandsAt(s, pos + |a|, b) && StandsAt(s, pos + |a| + |b|, c)
      && StandsAt(s, pos + |a| + |b| + |c|, d)
  {
    hide StandsAt;
    StandsAtSplit(s, pos, a, b + (c + d));
    StandsAtSplit(s, pos + |a|, b, c + d);
    StandsAtSplit(s, pos + |a| + |b|, c, d);
  }

  // ----- scalars

  lemma {:induction false} WordIs(env: Env, pos: nat, word: Text, e: Event, events: seq<Event>)
    requires Ready(env)
    ensures ParseLiteral(env, pos, events, word, e)
      == if StandsAt(env.src, pos, word) then Parsed(pos + |word|, events + [e]) else Failed(events)
  {
  }

  /** Words, literals and numbers. */
  predicate Scalar(v: Json) {
    v.NullWord? || v.FalseWord? || v.TrueWord? || v.Number? || v.Letters?
  }

  lemma {:induction false} LettersReads(env: Env, pos: nat, cs: seq<Character>, events: seq<Event>, isKey: bool)
    requires Ready(env) && ValidCharacters(Mine(env), cs) && StandsAt(env.src, pos, Literal(cs))
    ensures ParseString(env, pos, events, isKey)
      == Parsed(pos + |Literal(cs)|,
                events + [if isKey then Key(CharactersBytes(cs)) else String(CharactersBytes(cs))])
    ensures At(env.src, pos) == QUOTE
  {
    hide StandsAt, StringBody, Reported, CharactersBytes, CharactersText;
    LiteralReads(env, Mine(env), pos, cs);
    StackedReader.BodyNoLonger(env, pos + 1, []);
    StandsAtSlice(env.src, pos, Literal(cs));
    StringIntact(CharactersBytes(cs));
    Sends(env, events, if isKey then Key(CharactersBytes(cs)) else String(CharactersBytes(cs)), pos + |Literal(cs)|);
  }

  lemma {:induction false} LettersTaken(env: Env, pos: nat, events: seq<Event>, isKey: bool)
      returns (cs: seq<Character>)
    requires Ready(env) && At(env.src, pos) == QUOTE && ParseString(env, pos, events, isKey).Parsed?
    ensures ValidCharacters(Mine(env), cs) && StandsAt(env.src, pos, Literal(cs))
    ensures ParseString(env, pos, events, isKey)
      == Parsed(pos + |Literal(cs)|,
                events + [if isKey then Key(CharactersBytes(cs)) else String(CharactersBytes(cs))])
  {
    hide StandsAt, StringBody, Reported, CharactersBytes, CharactersText, Literal;
    cs := LiteralTaken(env, Mine(env), pos);
    LettersReads(env, pos, cs, events, isKey);
  }

  lemma {:induction false} FractionShort(env: Env, pos: nat, n: Numeral)
    requires Ready(env) && StandsAt(env.src, pos, NumeralText(n)) && Stops(n, At(env.src, pos + |NumeralText(n)|))
    ensures |n.fraction| <= 214748055
  {
    hide StandsAt, LeadText, PowerText;
    if n.fraction != [] {
      var s, end := env.src, pos + |NumeralText(n)|;
      var last := end - |PowerText(n.power)|;
      var mid := last - |FractionText(n.fraction)|;
      PartsStand(s, pos, n, mid - |LeadText(n.lead)|, mid, last, end);
      PartsStart(s, pos, n, mid - |LeadText(n.lead)|, mid, last, end);
      StandsAtSplit(s, mid, [0x2E], DigitsText(n.fraction));
      FirstAt(s, mid, [0x2E], 0);
      DigitsRead(s, mid + 1, n.fraction);
      DigitsEndIs(s, mid + 1, last);
    }
  }

  lemma {:induction false} NumberStops(nanAndInf: bool, n: Numeral, c: byte)
    requires EndsValue(c) && Shaped(nanAndInf, n)
    ensures Stops(n, c)
  {
  }

  lemma {:induction false} NumberReads(env: Env, pos: nat, n: Numeral, events: seq<Event>)
    requires Ready(env) && ValidNumeral(Mine(env), n) && StandsAt(env.src, pos, NumeralText(n))
    requires EndsValue(At(env.src, pos + |NumeralText(n)|))
    ensures ParseNumber(env, pos, events) == Parsed(pos + |NumeralText(n)|, events + [NumeralEvent(n)])
  {
    hide StandsAt, NumeralText, NumberAt, InRange, Stops, NumeralEvent;
    NumberStops(env.flags.nanAndInf, n, At(env.src, pos + |NumeralText(n)|));
    FractionShort(env, pos, n);
    NumeralReads(env, pos, n);
    Sends(env, events, NumeralEvent(n), pos + |NumeralText(n)|);
  }

  lemma {:induction false} NumberTaken(env: Env, pos: nat, events: seq<Event>) returns (n: Numeral)
    requires Ready(env) && ParseNumber(env, pos, events).Parsed?
    ensures ValidNumeral(Mine(env), n) && StandsAt(env.src, pos, NumeralText(n))
    ensures ParseNumber(env, pos, events) == Parsed(pos + |NumeralText(n)|, events + [NumeralEvent(n)])
  {
    hide StandsAt, NumeralText, NumberAt, InRange, Stops, NumeralEvent;
    n := NumeralTaken(env, pos);
    FractionShort(env, pos, n);
    NumeralReads(env, pos, n);
    Sends(env, events, NumeralEvent(n), pos + |NumeralText(n)|);
  }

  /** What a number starts with leads to no other branch. */
  lemma {:induction false} NumberStarts(p: Profile, n: Numeral)
    requires ValidNumeral(p, n)
    ensures NumeralText(n) != []
    ensures NumeralText(n)[0] !in {LEFT_BRACE, LEFT_BRACKET, QUOTE, 110, 116, 102} && StartsValue(NumeralText(n)[0])
  {
    if n.lead.Whole? {
      assert DigitsText(n.lead.digits)[0] == 0x30 + n.lead.digits[0] as int;
    }
  }

  lemma {:induction false} ScalarReads(env: Env, pos: nat, v: Json, events: seq<Event>)
    requires Ready(env) && Scalar(v) && Valid(Mine(env), v) && StandsAt(env.src, pos, Spelling(v))
    requires EndsValue(At(env.src, pos + |Spelling(v)|))
    ensures ParseValue(env, pos, events) == Parsed(pos + |Spelling(v)|, events + Says(v))
  {
    hide StandsAt, ParseObject, ParseArray, ParseNumber, ParseString, ValidNumeral, NumeralText, Literal;
    hide ParseLiteral, NumeralEvent, CharactersBytes;
    match v {
      case NullWord =>
        FirstAt(env.src, pos, Spelling(v), 0);
        WordIs(env, pos, NULL_WORD, Null, events);
      case TrueWord =>
        FirstAt(env.src, pos, Spelling(v), 0);
        WordIs(env, pos, TRUE_WORD, Bool(true), events);
      case FalseWord =>
        FirstAt(env.src, pos, Spelling(v), 0);
        WordIs(env, pos, FALSE_WORD, Bool(false), events);
      case Number(n) =>
        NumberStarts(Mine(env), n);
        FirstAt(env.src, pos, NumeralText(n), 0);
        NumberReads(env, pos, n, events);
      case Letters(cs) =>
        LettersReads(env, pos, cs, events, false);
    }
  }

  lemma {:induction false} ScalarTaken(env: Env, pos: nat, events: seq<Event>) returns (v: Json)
    requires Ready(env) && pos <= |env.src| && ParseScalar(env, pos, events).Parsed?
    ensures Scalar(v) && Valid(Mine(env), v) && StandsAt(env.src, pos, Spelling(v))
    ensures ParseScalar(env, pos, events) == Parsed(pos + |Spelling(v)|, events + Says(v))
  {
    hide StandsAt, ParseNumber, ParseString, ValidNumeral, NumeralText, Literal, ParseLiteral, NumeralEvent;
    hide CharactersBytes;
    WordIs(env, pos, NULL_WORD, Null, events);
    WordIs(env, pos, TRUE_WORD, Bool(true), events);
    WordIs(env, pos, FALSE_WORD, Bool(false), events);
    var c := At(env.src, pos);
    if c == 110 {
      v := NullWord;
    } else if c == 116 {
      v := TrueWord;
    } else if c == 102 {
      v := FalseWord;
    } else if c == QUOTE {
      var cs := LettersTaken(env, pos, events, false);
      v := Letters(cs);
    } else {
      var n := NumberTaken(env, pos, events);
      v := Number(n);
    }
  }

  /** At the end of the input there is no value. */
  lemma {:induction false} NoValue(env: Env, pos: nat, events: seq<Event>)
    requires pos <= |env.src| && At(env.src, pos) == 0
    ensures ParseValue(env, pos, events).Failed?
  {
  }

  // ----- what is in the grammar is read

  lemma {:induction false} ValueReads(env: Env, pos: nat, v: Json, events: seq<Event>)
    requires Ready(env) && Valid(Mine(env), v) && StandsAt(env.src, pos, Spelling(v))
    requires EndsValue(At(env.src, pos + |Spelling(v)|))
    ensures ParseValue(env, pos, events) == Parsed(pos + |Spelling(v)|, events + Says(v))
    decreases v, 2
  {
    hide StandsAt, ParseObject, ParseArray;
    match v {
      case EmptyArray(g) => EmptyReads(env, pos, v, g, events);
      case EmptyObject(g) => EmptyReads(env, pos, v, g, events);
      case Array(es) => ArrayReads(env, pos, es, events);
      case Object(ms) => ObjectReads(env, pos, ms, events);
      case _ => ScalarReads(env, pos, v, events);
    }
  }

  lemma {:induction false} EmptyReads(env: Env, pos: nat, v: Json, g: Gap, events: seq<Event>)
    requires Ready(env) && ValidGap(Mine(env), g) && (v == EmptyArray(g) || v == EmptyObject(g))
    requires StandsAt(env.src, pos, Spelling(v))
    ensures ParseValue(env, pos, events) == Parsed(pos + |Spelling(v)|, events + Says(v))
  {
    hide StandsAt, SkipWhitespaceAndComments, ParseElements, ParseMembers, GapText;
    var open: Text := if v.EmptyArray? then [0x5B] else [0x7B];
    var close: Text := if v.EmptyArray? then [0x5D] else [0x7D];
    StandsAtSplit(env.src, pos, open + GapText(g), close);
    StandsAtSplit(env.src, pos, open, GapText(g));
    FirstAt(env.src, pos, open, 0);
    var q := pos + 1 + |GapText(g)|;
    FirstAt(env.src, q, close, 0);
    GapPassed(env, Mine(env), pos + 1, g);
    var start := if v.EmptyArray? then StartArray else StartObject;
    var end := if v.EmptyArray? then EndArray(0) else EndObject(0);
    Sends(env, events, start, pos + 1);
    Sends(env, events + [start], end, q + 1);
    assert events + [start] + [end] == events + [start, end];
  }

  lemma {:induction false} ArrayReads(env: Env, pos: nat, es: Elements, events: seq<Event>)
    requires Ready(env) && ValidElements(Mine(env), es) && StandsAt(env.src, pos, [0x5B] + ElementsText(es))
    ensures ParseValue(env, pos, events) == Parsed(pos + |Spelling(Array(es))|, events + Says(Array(es)))
    decreases es, 3
  {
    hide StandsAt, SkipWhitespaceAndComments, ParseElements, ElementsText, ElementsSay, CountElements;
    StandsAtSplit(env.src, pos, [0x5B], ElementsText(es));
    FirstAt(env.src, pos, [0x5B], 0);
    ElementsRead(env, pos + 1, es, events + [StartArray], 0);
    Sends(env, events, StartArray, pos + 1);
    EventsAssoc(events, [StartArray], ElementsSay(es), [EndArray(CountElements(es))]);
  }

  lemma {:induction false} EventsAssoc(a: seq<Event>, b: seq<Event>, c: seq<Event>, d: seq<Event>)
    ensures a + b + c + d == a + (b + c + d) && a + b + c == a + (b + c)
  {
  }

  /** An element up to the comma or bracket behind it. */
  lemma {:induction false} ElementReads(env: Env, pos: nat, before: Gap, value: Json, after: Gap, tail: Text,
                                        events: seq<Event>, count: nat)
    requires Ready(env) && ValidGap(Mine(env), before) && Valid(Mine(env), value) && ValidGap(Mine(env), after)
    requires StandsAt(env.src, pos, GapText(before) + (Spelling(value) + (GapText(after) + tail)))
    requires tail != [] && (tail[0] == 0x2C || tail[0] == 0x5D) && count < pos
    ensures
      var w := pos + |GapText(before)|;
      var q := w + |Spelling(value)| + |GapText(after)|;
      && SkipWhitespaceAndComments(env, pos) == Some(w) && At(env.src, w) != RIGHT_BRACKET && w <= |env.src|
      && q < |env.src| && At(env.src, q) == tail[0] && StandsAt(env.src, q, tail) && count + 1 < q
      && ParseElements(env, w, events, count) == AfterElement(env, q, events + Says(value), count + 1)
    decreases value, 3
  {
    hide StandsAt, SkipWhitespaceAndComments, Spelling, GapText, Says, ParseValue, AfterElement;
    var w := pos + |GapText(before)|;
    var v := w + |Spelling(value)|;
    var q := v + |GapText(after)|;
    FourStand(env.src, pos, GapText(before), Spelling(value), GapText(after), tail);
    FirstAt(env.src, q, tail, 0);
    SpellingStarts(Mine(env), value);
    FirstAt(env.src, w, Spelling(value), 0);
    GapPassed(env, Mine(env), pos, before);
    GapEnds(Mine(env), env.src, v, after);
    ValueReads(env, w, value, events);
    GapPassed(env, Mine(env), v, after);
  }

  lemma {:induction false} ElementsRead(env: Env, pos: nat, es: Elements, events: seq<Event>, count: nat)
    requires Ready(env) && ValidElements(Mine(env), es) && StandsAt(env.src, pos, ElementsText(es)) && count < pos
    ensures
      var w := pos + |GapText(es.before)|;
      && SkipWhitespaceAndComments(env, pos) == Some(w) && w <= |env.src| && At(env.src, w) != RIGHT_BRACKET
      && ParseElements(env, w, events, count)
           == Parsed(pos + |ElementsText(es)|, events + ElementsSay(es) + [EndArray(count + CountElements(es))])
    decreases es, 2
  {
    hide StandsAt, SkipWhitespaceAndComments, Spelling, GapText, Says, ParseElements, AfterElement;
    match es {
      case LastElement(before, value, after, trailing) =>
        var tail := TrailingText(trailing) + [0x5D];
        ElementReads(env, pos, before, value, after, tail, events, count);
        var q := pos + |GapText(before)| + |Spelling(value)| + |GapText(after)|;
        LastReads(env, q, trailing, events + Says(value), count + 1);
      case Element(before, value, after, more) =>
        var tail := [0x2C] + ElementsText(more);
        ElementReads(env, pos, before, value, after, tail, events, count);
        var q := pos + |GapText(before)| + |Spelling(value)| + |GapText(after)|;
        StandsAtSplit(env.src, q, [0x2C], ElementsText(more));
        ElementsRead(env, q + 1, more, events + Says(value), count + 1);
        CommaReads(env, q, events + Says(value), count + 1);
        EventsAssoc(events, Says(value), ElementsSay(more), [EndArray(count + CountElements(es))]);
    }
  }

  /** Behind the last element: the bracket, perhaps behind a comma. */
  lemma {:induction false} LastReads(env: Env, q: nat, trailing: Option<Gap>, events: seq<Event>, count: nat)
    requires Ready(env) && ValidTrailing(Mine(env), trailing) && q <= |env.src|
    requires StandsAt(env.src, q, TrailingText(trailing) + [0x5D])
    ensures AfterElement(env, q, events, count)
      == Parsed(q + |TrailingText(trailing)| + 1, events + [EndArray(count)])
  {
    hide StandsAt, SkipWhitespaceAndComments, GapText, ParseElements;
    var e := q + |TrailingText(trailing)|;
    StandsAtSplit(env.src, q, TrailingText(trailing), [0x5D]);
    FirstAt(env.src, e, [0x5D], 0);
    Sends(env, events, EndArray(count), e + 1);
    if trailing.Some? {
      StandsAtSplit(env.src, q, [0x2C], GapText(trailing.value));
      FirstAt(env.src, q, [0x2C], 0);
      GapPassed(env, Mine(env), q + 1, trailing.value);
    }
  }

  lemma {:induction false} ObjectReads(env: Env, pos: nat, ms: Members, events: seq<Event>)
    requires Ready(env) && ValidMembers(Mine(env), ms) && StandsAt(env.src, pos, [0x7B] + MembersText(ms))
    ensures ParseValue(env, pos, events) == Parsed(pos + |Spelling(Object(ms))|, events + Says(Object(ms)))
    decreases ms, 3
  {
    hide StandsAt, SkipWhitespaceAndComments, ParseMembers, MembersText, MembersSay, CountMembers;
    StandsAtSplit(env.src, pos, [0x7B], MembersText(ms));
    FirstAt(env.src, pos, [0x7B], 0);
    MembersRead(env, pos + 1, ms, events + [StartObject], 0);
    Sends(env, events, StartObject, pos + 1);
    EventsAssoc(events, [StartObject], MembersSay(ms), [EndObject(CountMembers(ms))]);
  }

  /** A member's name, up to behind the colon and the gap that follows it. */
  lemma {:induction false} NameReads(env: Env, pos: nat, name: seq<Character>, named: Gap, colon: Gap,
                                     events: seq<Event>)
    requires Ready(env) && ValidCharacters(Mine(env), name) && ValidGap(Mine(env), named) && ValidGap(Mine(env), colon)
    requires StandsAt(env.src, pos, NameText(name, named, colon)) && pos <= |env.src|
    requires Solid(At(env.src, pos + |NameText(name, named, colon)|))
    ensures At(env.src, pos) == QUOTE
    ensures
      var p := pos + |NameText(name, named, colon)| - |GapText(colon)|;
      && ParseMemberName(env, pos, events) == Parsed(p, events + [Key(CharactersBytes(name))])
      && p <= |env.src| && SkipWhitespaceAndComments(env, p) == Some(pos + |NameText(name, named, colon)|)
  {
    hide StandsAt, SkipWhitespaceAndComments, GapText, ParseString, Literal, CharactersBytes;
    var m := pos + |Literal(name)|;
    var c := m + |GapText(named)|;
    FourStand(env.src, pos, Literal(name), GapText(named), [0x3A], GapText(colon));
    LettersReads(env, pos, name, events, true);
    FirstAt(env.src, c, [0x3A], 0);
    GapPassed(env, Mine(env), m, named);
    GapPassed(env, Mine(env), c + 1, colon);
  }

  lemma {:induction false} FiveStand(s: Text, pos: nat, a: Text, n: Text, b: Text, c: Text, d: Text)
    ensures StandsAt(s, pos, a + (n + (b + (c + d)))) <==>
      && StandsAt(s, pos, a) && StandsAt(s, pos + |a|, n) && StandsAt(s, pos + |a| + |n|, b)
      && StandsAt(s, pos + |a| + |n| + |b|, c) && StandsAt(s, pos + |a| + |n| + |b| + |c|, d)
  {
    hide StandsAt;
    StandsAtSplit(s, pos, a, n + (b + (c + d)));
    FourStand(s, pos + |a|, n, b, c, d);
  }

  /** A member up to the comma or brace behind it. */
  lemma {:induction false} MemberReads(env: Env, pos: nat, before: Gap, name: seq<Character>, named: Gap, colon: Gap,
                                       value: Json, after: Gap, tail: Text, events: seq<Event>, count: nat)
    requires Ready(env) && ValidGap(Mine(env), before) && Valid(Mine(env), value) && ValidGap(Mine(env), after)
    requires ValidCharacters(Mine(env), name) && ValidGap(Mine(env), named) && ValidGap(Mine(env), colon)
    requires StandsAt(env.src, pos, GapText(before)
      + (NameText(name, named, colon) + (Spelling(value) + (GapText(after) + tail))))
    requires tail != [] && (tail[0] == 0x2C || tail[0] == 0x7D) && count < pos
    ensures
      var w := pos + |GapText(before)|;
      var q := w + |NameText(name, named, colon)| + |Spelling(value)| + |GapText(after)|;
      && SkipWhitespaceAndComments(env, pos) == Some(w) && At(env.src, w) != RIGHT_BRACE && w <= |env.src|
      && q < |env.src| && At(env.src, q) == tail[0] && StandsAt(env.src, q, tail) && count + 1 < q
      && ParseMembers(env, w, events, count)
           == AfterMember(env, q, events + [Key(CharactersBytes(name))] + Says(value), count + 1)
    decreases value, 3
  {
    hide StandsAt, SkipWhitespaceAndComments, Spelling, GapText, Says, ParseValue, AfterMember, NameText;
    hide ParseMemberName, CharactersBytes;
    var w := pos + |GapText(before)|;
    var u := w + |NameText(name, named, colon)|;
    var v := u + |Spelling(value)|;
    var q := v + |GapText(after)|;
    FiveStand(env.src, pos, GapText(before), NameText(name, named, colon), Spelling(value), GapText(after), tail);
    FirstAt(env.src, q, tail, 0);
    SpellingStarts(Mine(env), value);
    FirstAt(env.src, u, Spelling(value), 0);
    NameReads(env, w, name, named, colon, events);
    GapPassed(env, Mine(env), pos, before);
    GapEnds(Mine(env), env.src, v, after);
    ValueReads(env, u, value, events + [Key(CharactersBytes(name))]);
    GapPassed(env, Mine(env), v, after);
  }

  lemma {:induction false} MembersRead(env: Env, pos: nat, ms: Members, events: seq<Event>, count: nat)
    requires Ready(env) && ValidMembers(Mine(env), ms) && StandsAt(env.src, pos, MembersText(ms)) && count < pos
    ensures
      var w := pos + |GapText(ms.before)|;
      && SkipWhitespaceAndComments(env, pos) == Some(w) && w <= |env.src| && At(env.src, w) != RIGHT_BRACE
      && ParseMembers(env, w, events, count)
           == Parsed(pos + |MembersText(ms)|, events + MembersSay(ms) + [EndObject(count + CountMembers(ms))])
    decreases ms, 2
  {
    hide StandsAt, SkipWhitespaceAndComments, Spelling, GapText, Says, ParseMembers, NameText, CharactersBytes;
    hide AfterMember;
    match ms {
      case LastMember(before, name, named, colon, value, after, trailing) =>
        var tail := TrailingText(trailing) + [0x7D];
        MemberReads(env, pos, before, name, named, colon, value, after, tail, events, count);
        var q := pos + |GapText(before)| + |NameText(name, named, colon)| + |Spelling(value)| + |GapText(after)|;
        var key := [Key(CharactersBytes(name))];
        LastMemberReads(env, q, trailing, events + key + Says(value), count + 1);
        EventsAssoc(events, key, Says(value), []);
      case Member(before, name, named, colon, value, after, more) =>
        var tail := [0x2C] + MembersText(more);
        MemberReads(env, pos, before, name, named, colon, value, after, tail, events, count);
        var q := pos + |GapText(before)| + |NameText(name, named, colon)| + |Spelling(value)| + |GapText(after)|;
        var key := [Key(CharactersBytes(name))];
        StandsAtSplit(env.src, q, [0x2C], MembersText(more));
        MembersRead(env, q + 1, more, events + key + Says(value), count + 1);
        CommaReads(env, q, events + key + Says(value), count + 1);
        EventsAssoc(events, key, Says(value), MembersSay(more));
    }
  }

  /** A comma that does not trail. */
  lemma {:induction false} CommaReads(env: Env, q: nat, events: seq<Event>, count: nat)
    requires q < |env.src| && At(env.src, q) == COMMA && SkipWhitespaceAndComments(env, q + 1).Some?
    ensures
      var w := SkipWhitespaceAndComments(env, q + 1).value;
      && (At(env.src, w) != RIGHT_BRACE ==>
            AfterMember(env, q, events, count) == ParseMembers(env, w, events, count))
      && (At(env.src, w) != RIGHT_BRACKET ==>
            AfterElement(env, q, events, count) == ParseElements(env, w, events, count))
  {
    hide SkipWhitespaceAndComments, ParseMembers, ParseElements;
  }

  lemma {:induction false} LastMemberReads(env: Env, q: nat, trailing: Option<Gap>, events: seq<Event>, count: nat)
    requires Ready(env) && ValidTrailing(Mine(env), trailing) && q <= |env.src|
    requires StandsAt(env.src, q, TrailingText(trailing) + [0x7D])
    ensures AfterMember(env, q, events, count)
      == Parsed(q + |TrailingText(trailing)| + 1, events + [EndObject(count)])
  {
    hide StandsAt, SkipWhitespaceAndComments, GapText, ParseMembers;
    var e := q + |TrailingText(trailing)|;
    StandsAtSplit(env.src, q, TrailingText(trailing), [0x7D]);
    FirstAt(env.src, e, [0x7D], 0);
    Sends(env, events, EndObject(count), e + 1);
    if trailing.Some? {
      StandsAtSplit(env.src, q, [0x2C], GapText(trailing.value));
      FirstAt(env.src, q, [0x2C], 0);
      GapPassed(env, Mine(env), q + 1, trailing.value);
    }
  }

  // ----- what is read is in the grammar

  lemma {:induction false} ValueTaken(env: Env, pos: nat, events: seq<Event>) returns (v: Json)
    requires Ready(env) && pos <= |env.src| && ParseValue(env, pos, events).Parsed?
    ensures Valid(Mine(env), v) && StandsAt(env.src, pos, Spelling(v))
    ensures ParseValue(env, pos, events) == Parsed(pos + |Spelling(v)|, events + Says(v))
    decreases |env.src| - pos, 3
  {
    hide StandsAt, ParseObject, ParseArray, ParseScalar, Spelling, Says, Valid;
    if At(env.src, pos) == LEFT_BRACE {
      v := ObjectTaken(env, pos, events);
    } else if At(env.src, pos) == LEFT_BRACKET {
      v := ArrayTaken(env, pos, events);
    } else {
      v := ScalarTaken(env, pos, events);
    }
  }

  lemma {:induction false} OpeningStands(s: Text, pos: nat, c: byte, rest: Text)
    requires At(s, pos) == c != 0
    ensures StandsAt(s, pos, [c] + rest) <==> StandsAt(s, pos + 1, rest)
  {
    StandsAtSplit(s, pos, [c], rest);
    OneStands(s, pos, c);
  }

  lemma {:induction false} EmptyStands(s: Text, pos: nat, v: Json, g: Gap)
    requires v == EmptyArray(g) || v == EmptyObject(g)
    requires At(s, pos) == (if v.EmptyArray? then 0x5B else 0x7B) && StandsAt(s, pos + 1, GapText(g))
    requires At(s, pos + 1 + |GapText(g)|) == if v.EmptyArray? then 0x5D else 0x7D
    ensures StandsAt(s, pos, Spelling(v)) && |Spelling(v)| == |GapText(g)| + 2
  {
    hide StandsAt, GapText;
    var open: byte := if v.EmptyArray? then 0x5B else 0x7B;
    var close: byte := if v.EmptyArray? then 0x5D else 0x7D;
    OpeningStands(s, pos, open, GapText(g));
    OneStands(s, pos + 1 + |GapText(g)|, close);
    StandsAtSplit(s, pos, [open] + GapText(g), [close]);
  }

  lemma {:induction false} ArrayTaken(env: Env, pos: nat, events: seq<Event>) returns (v: Json)
    requires Ready(env) && At(env.src, pos) == LEFT_BRACKET && pos <= |env.src| && ParseArray(env, pos, events).Parsed?
    ensures Valid(Mine(env), v) && StandsAt(env.src, pos, Spelling(v))
    ensures ParseArray(env, pos, events) == Parsed(pos + |Spelling(v)|, events + Says(v))
    decreases |env.src| - pos, 0
  {
    hide StandsAt, SkipWhitespaceAndComments, ParseElements, GapText, ElementsText, ElementsSay, CountElements;
    Sends(env, events, StartArray, pos + 1);
    var w := SkipWhitespaceAndComments(env, pos + 1).value;
    if At(env.src, w) == RIGHT_BRACKET {
      var g := GapTaken(env, Mine(env), pos + 1);
      v := EmptyArray(g);
      EmptyStands(env.src, pos, v, g);
      Sends(env, events + [StartArray], EndArray(0), w + 1);
      assert events + [StartArray] + [EndArray(0)] == events + [StartArray, EndArray(0)];
    } else {
      NoElements(env, w, events + [StartArray], 0);
      var g := GapTaken(env, Mine(env), pos + 1);
      var es := ElementsTaken(env, pos + 1, g, events + [StartArray], 0);
      v := Array(es);
      OpeningStands(env.src, pos, 0x5B, ElementsText(es));
      EventsAssoc(events, [StartArray], ElementsSay(es), [EndArray(CountElements(es))]);
    }
  }

  lemma {:induction false} NoElements(env: Env, w: nat, events: seq<Event>, count: nat)
    requires w <= |env.src| && ParseElements(env, w, events, count).Parsed?
    ensures At(env.src, w) != 0
  {
    if At(env.src, w) == 0 {
      NoValue(env, w, events);
    }
  }

  /** From an element, the gap in front of it having been skipped. */
  lemma {:induction false} ElementsTaken(env: Env, pos: nat, before: Gap, events: seq<Event>, count: nat)
      returns (es: Elements)
    requires Ready(env) && ValidGap(Mine(env), before) && StandsAt(env.src, pos, GapText(before)) && count < pos
    requires pos + |GapText(before)| <= |env.src|
    requires ParseElements(env, pos + |GapText(before)|, events, count).Parsed?
    ensures ValidElements(Mine(env), es) && StandsAt(env.src, pos, ElementsText(es)) && es.before == before
    ensures ParseElements(env, pos + |GapText(before)|, events, count)
      == Parsed(pos + |ElementsText(es)|, events + ElementsSay(es) + [EndArray(count + CountElements(es))])
    decreases |env.src| - pos - |GapText(before)|, 4
  {
    hide StandsAt, SkipWhitespaceAndComments, GapText, ParseElements, ParseValue, Spelling, Says, Valid, AfterElement;
    var w := pos + |GapText(before)|;
    ElementsUnfold(env, w, events, count);
    var value := ValueTaken(env, w, events);
    var v := w + |Spelling(value)|;
    SpellingStarts(Mine(env), value);
    var q := SkipWhitespaceAndComments(env, v).value;
    var after := GapBefore(env, v, q, events + Says(value), count + 1);
    var last, trailing, more := BehindElement(env, q, events + Says(value), count + 1);
    if last {
      es := LastElement(before, value, after, trailing);
      FourStand(env.src, pos, GapText(before), Spelling(value), GapText(after), TrailingText(trailing) + [0x5D]);
    } else {
      es := Element(before, value, after, more);
      FourStand(env.src, pos, GapText(before), Spelling(value), GapText(after), [0x2C] + ElementsText(more));
      EventsAssoc(events, Says(value), ElementsSay(more), [EndArray(count + CountElements(es))]);
    }
  }

  lemma {:induction false} GapBefore(env: Env, v: nat, q: nat, events: seq<Event>, count: nat) returns (g: Gap)
    requires Ready(env) && v <= |env.src| && SkipWhitespaceAndComments(env, v) == Some(q) && q <= |env.src|
    requires AfterElement(env, q, events, count).Parsed?
    ensures ValidGap(Mine(env), g) && StandsAt(env.src, v, GapText(g)) && q == v + |GapText(g)|
  {
    hide StandsAt, SkipWhitespaceAndComments, GapText, AfterElement;
    AfterUnfold(env, q, events, count);
    g := GapTaken(env, Mine(env), v);
  }

  /** Behind an element: the end of the array, perhaps behind a comma, or more elements. */
  lemma {:induction false} BehindElement(env: Env, q: nat, events: seq<Event>, count: nat)
      returns (last: bool, trailing: Option<Gap>, more: Elements)
    requires Ready(env) && q <= |env.src| && count < q && AfterElement(env, q, events, count).Parsed?
    ensures last ==>
      && ValidTrailing(Mine(env), trailing) && StandsAt(env.src, q, TrailingText(trailing) + [0x5D])
      && AfterElement(env, q, events, count) == Parsed(q + |TrailingText(trailing)| + 1, events + [EndArray(count)])
    ensures !last ==>
      && ValidElements(Mine(env), more) && StandsAt(env.src, q, [0x2C] + ElementsText(more))
      && AfterElement(env, q, events, count)
           == Parsed(q + 1 + |ElementsText(more)|, events + ElementsSay(more) + [EndArray(count + CountElements(more))])
    decreases |env.src| - q, 4
  {
    hide StandsAt, SkipWhitespaceAndComments, GapText, ParseElements, AfterElement, ElementsText, ValidElements;
    hide ElementsSay, CountElements;
    AfterUnfold(env, q, events, count);
    last, trailing, more := true, None, LastElement([], NullWord, [], None);
    if At(env.src, q) == 0x2C {
      var w2 := SkipWhitespaceAndComments(env, q + 1).value;
      if env.flags.trailingCommas && At(env.src, w2) == RIGHT_BRACKET {
        var g := GapTaken(env, Mine(env), q + 1);
        trailing := Some(g);
        OpeningStands(env.src, q, 0x2C, GapText(g));
        OneStands(env.src, w2, 0x5D);
        StandsAtSplit(env.src, q, TrailingText(trailing), [0x5D]);
      } else {
        NoElements(env, w2, events, count);
        var g := GapTaken(env, Mine(env), q + 1);
        last := false;
        more := ElementsTaken(env, q + 1, g, events, count);
        OpeningStands(env.src, q, 0x2C, ElementsText(more));
      }
    } else {
      OneStands(env.src, q, 0x5D);
      assert TrailingText(None) + [0x5D] == [0x5D];
    }
  }

  lemma {:induction false} ElementsUnfold(env: Env, w: nat, events: seq<Event>, count: nat)
    requires w <= |env.src| < SIZE_TYPE_LIMIT && count < w && ParseElements(env, w, events, count).Parsed?
    ensures
      var v := ParseValue(env, w, events);
      && v.Parsed? && v.pos <= |env.src| && SkipWhitespaceAndComments(env, v.pos).Some?
      && ParseElements(env, w, events, count)
           == AfterElement(env, SkipWhitespaceAndComments(env, v.pos).value, v.events, count + 1)
  {
    hide ParseValue, SkipWhitespaceAndComments, AfterElement;
  }

  lemma {:induction false} AfterUnfold(env: Env, q: nat, events: seq<Event>, count: nat)
    requires Ready(env) && q <= |env.src| && AfterElement(env, q, events, count).Parsed?
    ensures At(env.src, q) == 0x2C || At(env.src, q) == 0x5D
    ensures At(env.src, q) == 0x2C ==>
      var w := SkipWhitespaceAndComments(env, q + 1);
      && q < |env.src| && w.Some?
      && AfterElement(env, q, events, count)
           == if env.flags.trailingCommas && At(env.src, w.value) == RIGHT_BRACKET
              then Parsed(w.value + 1, events + [EndArray(count)])
              else ParseElements(env, w.value, events, count)
    ensures At(env.src, q) == 0x5D ==> AfterElement(env, q, events, count) == Parsed(q + 1, events + [EndArray(count)])
  {
    hide ParseElements, SkipWhitespaceAndComments;
  }

  lemma {:induction false} ObjectTaken(env: Env, pos: nat, events: seq<Event>) returns (v: Json)
    requires Ready(env) && At(env.src, pos) == LEFT_BRACE && pos <= |env.src| && ParseObject(env, pos, events).Parsed?
    ensures Valid(Mine(env), v) && StandsAt(env.src, pos, Spelling(v))
    ensures ParseObject(env, pos, events) == Parsed(pos + |Spelling(v)|, events + Says(v))
    decreases |env.src| - pos, 0
  {
    hide StandsAt, SkipWhitespaceAndComments, ParseMembers, GapText, MembersText, MembersSay, CountMembers;
    Sends(env, events, StartObject, pos + 1);
    var w := SkipWhitespaceAndComments(env, pos + 1).value;
    if At(env.src, w) == RIGHT_BRACE {
      var g := GapTaken(env, Mine(env), pos + 1);
      v := EmptyObject(g);
      EmptyStands(env.src, pos, v, g);
      Sends(env, events + [StartObject], EndObject(0), w + 1);
      assert events + [StartObject] + [EndObject(0)] == events + [StartObject, EndObject(0)];
    } else {
      NoMembers(env, w, events + [StartObject], 0);
      var g := GapTaken(env, Mine(env), pos + 1);
      var ms := MembersTaken(env, pos + 1, g, events + [StartObject], 0);
      v := Object(ms);
      OpeningStands(env.src, pos, 0x7B, MembersText(ms));
      EventsAssoc(events, [StartObject], MembersSay(ms), [EndObject(CountMembers(ms))]);
    }
  }

  lemma {:induction false} NoMembers(env: Env, w: nat, events: seq<Event>, count: nat)
    requires w <= |env.src| && ParseMembers(env, w, events, count).Parsed?
    ensures At(env.src, w) != 0
  {
  }

  /** A member's name and colon, with the gap behind it. */
  lemma {:induction false} NameTaken(env: Env, pos: nat, events: seq<Event>)
      returns (name: seq<Character>, named: Gap, colon: Gap)
    requires Ready(env) && pos <= |env.src| && ParseMemberName(env, pos, events).Parsed?
    requires SkipWhitespaceAndComments(env, ParseMemberName(env, pos, events).pos).Some?
    requires At(env.src, SkipWhitespaceAndComments(env, ParseMemberName(env, pos, events).pos).value) != 0
    ensures ValidCharacters(Mine(env), name) && ValidGap(Mine(env), named) && ValidGap(Mine(env), colon)
    ensures StandsAt(env.src, pos, NameText(name, named, colon))
    ensures ParseMemberName(env, pos, events).events == events + [Key(CharactersBytes(name))]
    ensures SkipWhitespaceAndComments(env, ParseMemberName(env, pos, events).pos)
      == Some(pos + |NameText(name, named, colon)|)
    ensures pos + |NameText(name, named, colon)| > pos
  {
    hide StandsAt, SkipWhitespaceAndComments, GapText, ParseString, Literal, CharactersBytes, ValidCharacters;
    name := LettersTaken(env, pos, events, true);
    var m := pos + |Literal(name)|;
    named := GapTaken(env, Mine(env), m);
    var c := m + |GapText(named)|;
    colon := GapTaken(env, Mine(env), c + 1);
    OneStands(env.src, c, 0x3A);
    FourStand(env.src, pos, Literal(name), GapText(named), [0x3A], GapText(colon));
  }

  lemma {:induction false} MembersTaken(env: Env, pos: nat, before: Gap, events: seq<Event>, count: nat)
      returns (ms: Members)
    requires Ready(env) && ValidGap(Mine(env), before) && StandsAt(env.src, pos, GapText(before)) && count < pos
    requires pos + |GapText(before)| <= |env.src|
    requires ParseMembers(env, pos + |GapText(before)|, events, count).Parsed?
    ensures ValidMembers(Mine(env), ms) && StandsAt(env.src, pos, MembersText(ms)) && ms.before == before
    ensures ParseMembers(env, pos + |GapText(before)|, events, count)
      == Parsed(pos + |MembersText(ms)|, events + MembersSay(ms) + [EndObject(count + CountMembers(ms))])
    decreases |env.src| - pos - |GapText(before)|, 4
  {
    hide StandsAt, SkipWhitespaceAndComments, GapText, ParseMembers, ParseValue, Spelling, Says, Valid, AfterMember;
    hide ParseMemberName, NameText, CharactersBytes, ValidCharacters;
    var w := pos + |GapText(before)|;
    MembersUnfold(env, w, events, count);
    var u := SkipWhitespaceAndComments(env, ParseMemberName(env, w, events).pos).value;
    NoValueThere(env, u, ParseMemberName(env, w, events).events);
    var name, named, colon := NameTaken(env, w, events);
    var key := [Key(CharactersBytes(name))];
    var value := ValueTaken(env, u, events + key);
    var v := u + |Spelling(value)|;
    SpellingStarts(Mine(env), value);
    var q := SkipWhitespaceAndComments(env, v).value;
    var after := GapBeforeMember(env, v, q, events + key + Says(value), count + 1);
    var nameText := NameText(name, named, colon);
    var last, trailing, more := BehindMember(env, q, events + key + Says(value), count + 1);
    if last {
      ms := LastMember(before, name, named, colon, value, after, trailing);
      FiveStand(env.src, pos, GapText(before), nameText, Spelling(value), GapText(after),
                TrailingText(trailing) + [0x7D]);
      EventsAssoc(events, key, Says(value), []);
    } else {
      ms := Member(before, name, named, colon, value, after, more);
      FiveStand(env.src, pos, GapText(before), nameText, Spelling(value), GapText(after), [0x2C] + MembersText(more));
      EventsAssoc(events, key, Says(value), MembersSay(more));
    }
  }

  lemma {:induction false} GapBeforeMember(env: Env, v: nat, q: nat, events: seq<Event>, count: nat)
      returns (g: Gap)
    requires Ready(env) && v <= |env.src| && SkipWhitespaceAndComments(env, v) == Some(q) && q <= |env.src|
    requires AfterMember(env, q, events, count).Parsed?
    ensures ValidGap(Mine(env), g) && StandsAt(env.src, v, GapText(g)) && q == v + |GapText(g)|
  {
    hide StandsAt, SkipWhitespaceAndComments, GapText, AfterMember;
    AfterMemberUnfold(env, q, events, count);
    g := GapTaken(env, Mine(env), v);
  }

  /** Behind a member: the end of the object, perhaps behind a comma, or more members. */
  lemma {:induction false} BehindMember(env: Env, q: nat, events: seq<Event>, count: nat)
      returns (last: bool, trailing: Option<Gap>, more: Members)
    requires Ready(env) && q <= |env.src| && count < q && AfterMember(env, q, events, count).Parsed?
    ensures last ==>
      && ValidTrailing(Mine(env), trailing) && StandsAt(env.src, q, TrailingText(trailing) + [0x7D])
      && AfterMember(env, q, events, count) == Parsed(q + |TrailingText(trailing)| + 1, events + [EndObject(count)])
    ensures !last ==>
      && ValidMembers(Mine(env), more) && StandsAt(env.src, q, [0x2C] + MembersText(more))
      && AfterMember(env, q, events, count)
           == Parsed(q + 1 + |MembersText(more)|, events + MembersSay(more) + [EndObject(count + CountMembers(more))])
    decreases |env.src| - q, 4
  {
    hide StandsAt, SkipWhitespaceAndComments, GapText, ParseMembers, AfterMember, MembersText, ValidMembers;
    hide MembersSay, CountMembers;
    AfterMemberUnfold(env, q, events, count);
    last, trailing, more := true, None, LastMember([], [], [], [], NullWord, [], None);
    if At(env.src, q) == 0x2C {
      var w2 := SkipWhitespaceAndComments(env, q + 1).value;
      if env.flags.trailingCommas && At(env.src, w2) == RIGHT_BRACE {
        var g := GapTaken(env, Mine(env), q + 1);
        trailing := Some(g);
        OpeningStands(env.src, q, 0x2C, GapText(g));
        OneStands(env.src, w2, 0x7D);
        StandsAtSplit(env.src, q, TrailingText(trailing), [0x7D]);
      } else {
        NoMembers(env, w2, events, count);
        var g := GapTaken(env, Mine(env), q + 1);
        last := false;
        more := MembersTaken(env, q + 1, g, events, count);
        OpeningStands(env.src, q, 0x2C, MembersText(more));
      }
    } else {
      OneStands(env.src, q, 0x7D);
      assert TrailingText(None) + [0x7D] == [0x7D];
    }
  }

  lemma {:induction false} NoValueThere(env: Env, pos: nat, events: seq<Event>)
    requires pos <= |env.src| && ParseValue(env, pos, events).Parsed?
    ensures At(env.src, pos) != 0
  {
    if At(env.src, pos) == 0 {
      NoValue(env, pos, events);
    }
  }

  lemma {:induction false} MembersUnfold(env: Env, w: nat, events: seq<Event>, count: nat)
    requires w <= |env.src| < SIZE_TYPE_LIMIT && count < w && ParseMembers(env, w, events, count).Parsed?
    ensures
      var n := ParseMemberName(env, w, events);
      && n.Parsed? && n.pos <= |env.src| && SkipWhitespaceAndComments(env, n.pos).Some?
      && var v := ParseValue(env, SkipWhitespaceAndComments(env, n.pos).value, n.events);
      && v.Parsed? && v.pos <= |env.src| && SkipWhitespaceAndComments(env, v.pos).Some?
      && ParseMembers(env, w, events, count)
           == AfterMember(env, SkipWhitespaceAndComments(env, v.pos).value, v.events, count + 1)
  {
    hide ParseValue, SkipWhitespaceAndComments, AfterMember, ParseMemberName;
  }

  lemma {:induction false} AfterMemberUnfold(env: Env, q: nat, events: seq<Event>, count: nat)
    requires Ready(env) && q <= |env.src| && AfterMember(env, q, events, count).Parsed?
    ensures At(env.src, q) == 0x2C || At(env.src, q) == 0x7D
    ensures At(env.src, q) == 0x2C ==>
      var w := SkipWhitespaceAndComments(env, q + 1);
      && q < |env.src| && w.Some?
      && AfterMember(env, q, events, count)
           == if env.flags.trailingCommas && At(env.src, w.value) == RIGHT_BRACE
              then Parsed(w.value + 1, events + [EndObject(count)])
              else ParseMembers(env, w.value, events, count)
    ensures At(env.src, q) == 0x7D ==> AfterMember(env, q, events, count) == Parsed(q + 1, events + [EndObject(count)])
  {
    hide ParseMembers, SkipWhitespaceAndComments;
  }

  // ----- whole texts

  /** The text from `pos` on, up to the end of the input or a NUL, has this derivation. */
  ghost predicate Derives(env: Env, pos: nat, d: JsonText) {
    && ValidText(Mine(env), d) && StandsAt(env.src, pos, TextOf(d))
    && At(env.src, pos + |TextOf(d)|) == 0
  }

  lemma {:induction false} TextReads(env: Env, pos: nat, d: JsonText)
    requires Ready(env) && !env.flags.stopWhenDone && pos <= |env.src| && Derives(env, pos, d)
    ensures Parse(env, pos) == Parsed(pos + |TextOf(d)|, Says(d.value))
  {
    hide StandsAt, SkipWhitespaceAndComments, GapText, ParseValue, Spelling, Says, Valid, UnendedText;
    var s, p := env.src, Mine(env);
    var tail := GapText(d.after) + UnendedText(d.unended);
    var w := pos + |GapText(d.before)|;
    var v := w + |Spelling(d.value)|;
    StandsAtSplit(s, pos, GapText(d.before), Spelling(d.value) + tail);
    StandsAtSplit(s, w, Spelling(d.value), tail);
    SpellingStarts(p, d.value);
    FirstAt(s, w, Spelling(d.value), 0);
    GapPassed(env, p, pos, d.before);
    TailEnds(p, s, v, d.after, d.unended);
    ValueReads(env, w, d.value, []);
    TailPassed(env, p, v, d.after, d.unended);
    assert [] + Says(d.value) == Says(d.value);
  }

  lemma {:induction false} TailEnds(p: Profile, s: Text, pos: nat, g: Gap, unended: Option<Text>)
    requires ValidGap(p, g) && StandsAt(s, pos, GapText(g) + UnendedText(unended))
    requires At(s, pos + |GapText(g) + UnendedText(unended)|) == 0
    ensures EndsValue(At(s, pos))
  {
    StandsAtSplit(s, pos, GapText(g), UnendedText(unended));
    if unended.Some? {
      FirstAt(s, pos + |GapText(g)|, UnendedText(unended), 0);
    }
    GapEnds(p, s, pos, g);
  }

  lemma {:induction false} TextTaken(env: Env, pos: nat) returns (d: JsonText)
    requires Ready(env) && !env.flags.stopWhenDone && pos <= |env.src| && Parse(env, pos).Parsed?
    ensures Derives(env, pos, d)
  {
    hide StandsAt, SkipWhitespaceAndComments, GapText, ParseValue, Spelling, Says, Valid, UnendedText;
    var s, p := env.src, Mine(env);
    var before := GapTaken(env, p, pos);
    var w := pos + |GapText(before)|;
    var value := ValueTaken(env, w, []);
    var v := w + |Spelling(value)|;
    var after, unended := TailTaken(env, p, v);
    var tail := GapText(after) + UnendedText(unended);
    StandsAtSplit(s, w, Spelling(value), tail);
    StandsAtSplit(s, pos, GapText(before), Spelling(value) + tail);
    d := JsonText(before, value, after, unended);
  }

  /**
   * Under all flags but the one that stops at the end of the root, a text is accepted if and only if
   * the grammar derives it, and by any of its derivations the events are what it says and the parse
   * ends at its end.
   */
  lemma {:induction false} AcceptsExactly(env: Env, pos: nat)
    requires Ready(env) && !env.flags.stopWhenDone && pos <= |env.src|
    ensures Parse(env, pos).Parsed? <==> exists d :: Derives(env, pos, d)
    ensures forall d :: Derives(env, pos, d) ==> Parse(env, pos) == Parsed(pos + |TextOf(d)|, Says(d.value))
  {
    hide Parse, Derives, TextOf, Says;
    if Parse(env, pos).Parsed? {
      var d := TextTaken(env, pos);
    }
    forall d | Derives(env, pos, d) ensures Parse(env, pos) == Parsed(pos + |TextOf(d)|, Says(d.value)) {
      TextReads(env, pos, d);
    }
  }

  /** The table-driven parser accepts the same, with the same events. */
  lemma {:induction false} AutomatonAcceptsExactly(env: Env, pos: nat)
    requires Ready(env) && !env.strict && !env.flags.stopWhenDone && pos <= |env.src|
    ensures StackedReader.IterativeParse(env, pos).Parsed? <==> exists d :: Derives(env, pos, d)
    ensures forall d ::
      Derives(env, pos, d) ==> StackedReader.IterativeParse(env, pos) == Parsed(pos + |TextOf(d)|, Says(d.value))
  {
    hide Parse, Derives, TextOf, Says;
    AcceptsExactly(env, pos);
    StackedReader.ShortTextsCounted(env, pos);
    StackedReader.ParsersAgree(env, pos);
  }

  /** A value with a gap in front of it stands at `pos`. */
  ghost predicate ValueStands(env: Env, pos: nat, before: Gap, v: Json) {
    ValidGap(Mine(env), before) && Valid(Mine(env), v) && StandsAt(env.src, pos, GapText(before) + Spelling(v))
  }

  /** With the flag that stops at the end of the root, what is behind the value does not matter if it can end one. */
  lemma {:induction false} StopsBehindValue(env: Env, pos: nat)
    requires Ready(env) && env.flags.stopWhenDone && pos <= |env.src|
    ensures Parse(env, pos).Parsed? ==>
      exists before, v :: ValueStands(env, pos, before, v)
        && Parse(env, pos) == Parsed(pos + |GapText(before) + Spelling(v)|, Says(v))
    ensures forall before, v ::
      ValueStands(env, pos, before, v) && EndsValue(At(env.src, pos + |GapText(before) + Spelling(v)|)) ==>
        Parse(env, pos) == Parsed(pos + |GapText(before) + Spelling(v)|, Says(v))
  {
    hide StandsAt, SkipWhitespaceAndComments, GapText, ParseValue, Spelling, Says, Valid;
    var s, p := env.src, Mine(env);
    if Parse(env, pos).Parsed? {
      var before := GapTaken(env, p, pos);
      var w := pos + |GapText(before)|;
      var v := ValueTaken(env, w, []);
      StandsAtSplit(s, pos, GapText(before), Spelling(v));
      assert ValueStands(env, pos, before, v) && [] + Says(v) == Says(v);
    }
    forall before, v |
      ValueStands(env, pos, before, v) && EndsValue(At(s, pos + |GapText(before) + Spelling(v)|))
      ensures Parse(env, pos) == Parsed(pos + |GapText(before) + Spelling(v)|, Says(v))
    {
      StandsAtSplit(s, pos, GapText(before), Spelling(v));
      SpellingStarts(p, v);
      FirstAt(s, pos + |GapText(before)|, Spelling(v), 0);
      GapPassed(env, p, pos, before);
      ValueReads(env, pos + |GapText(before)|, v, []);
      assert [] + Says(v) == Says(v);
    }
  }

  // ----- RFC 8259

  /** The flags under which the reader reads JSON without extensions and checks its encoding. */
  const PLAIN := Flags(false, false, false, true, false)

  lemma {:induction false} GapWeaker(p: Profile, q: Profile, g: Gap)
    requires p.comments == q.comments == false && ValidGap(p, g)
    ensures ValidGap(q, g)
  {
    forall i | 0 <= i < |g| ensures ValidSpace(q, g[i]) {
      assert ValidSpace(p, g[i]);
    }
  }

  lemma {:induction false} CharactersWeaker(p: Profile, q: Profile, cs: seq<Character>)
    requires p.utf8 == q.utf8 && (p.loneHigh ==> q.loneHigh) && ValidCharacters(p, cs)
    ensures ValidCharacters(q, cs)
  {
    forall i | 0 <= i < |cs| ensures ValidCharacter(q, cs[i]) {
      assert ValidCharacter(p, cs[i]);
    }
  }

  /** A grammar that differs by allowing more escapes and numbers. */
  ghost predicate Weaker(p: Profile, q: Profile) {
    q == RFC && p.(loneHigh := true, inRange := RFC.inRange) == RFC
  }

  lemma {:induction false} ValidWeaker(p: Profile, q: Profile, v: Json)
    requires Weaker(p, q) && Valid(p, v)
    ensures Valid(q, v)
  {
    match v {
      case Letters(cs) => CharactersWeaker(p, q, cs);
      case EmptyArray(g) => GapWeaker(p, q, g);
      case EmptyObject(g) => GapWeaker(p, q, g);
      case Array(es) => ElementsWeaker(p, q, es);
      case Object(ms) => MembersWeaker(p, q, ms);
      case _ =>
    }
  }

  lemma {:induction false} ElementsWeaker(p: Profile, q: Profile, es: Elements)
    requires Weaker(p, q) && ValidElements(p, es)
    ensures ValidElements(q, es)
  {
    hide ValidGap, Valid;
    GapWeaker(p, q, es.before);
    ValidWeaker(p, q, es.value);
    GapWeaker(p, q, es.after);
    if es.Element? {
      ElementsWeaker(p, q, es.more);
    }
  }

  lemma {:induction false} MembersWeaker(p: Profile, q: Profile, ms: Members)
    requires Weaker(p, q) && ValidMembers(p, ms)
    ensures ValidMembers(q, ms)
  {
    hide ValidGap, Valid, ValidCharacters;
    GapWeaker(p, q, ms.before);
    CharactersWeaker(p, q, ms.name);
    GapWeaker(p, q, ms.named);
    GapWeaker(p, q, ms.colon);
    ValidWeaker(p, q, ms.value);
    GapWeaker(p, q, ms.after);
    if ms.Member? {
      MembersWeaker(p, q, ms.more);
    }
  }

  /** What the reader accepts to the end without extensions, checking the encoding, is JSON. */
  lemma {:induction false} AcceptedIsJson(env: Env)
    requires Ready(env) && env.flags == PLAIN && Parse(env, 0).Parsed? && Parse(env, 0).pos == |env.src|
    ensures Rfc8259(env.src)
  {
    hide Parse, StandsAt, Valid, ValidGap, TextOf;
    var d := TextTaken(env, 0);
    TextReads(env, 0, d);
    StandsAtSlice(env.src, 0, TextOf(d));
    assert env.src[0..|env.src|] == env.src;
    var p := Mine(env);
    GapWeaker(p, RFC, d.before);
    ValidWeaker(p, RFC, d.value);
    GapWeaker(p, RFC, d.after);
    assert ValidText(RFC, d);
  }

  /** The text "\uD800" in quotes. */
  const LONE_HIGH: Text := [0x22, 0x5C, 0x75, 0x44, 0x38, 0x30, 0x30, 0x22]

  /** A high surrogate escaped alone is JSON by its grammar, and the reader refuses it. */
  lemma {:induction false} LoneHighRefused(env: Env)
    requires env.src == LONE_HIGH
    ensures Rfc8259(LONE_HIGH) && Parse(env, 0).Failed?
  {
    hide StringBody, UnicodeEscape, ParseObject, ParseArray, ParseNumber, ParseLiteral, Rfc8259;
    LoneHighIsJson();
    LoneHighBad(env);
    assert ParseString(env, 0, [], false).Failed?;
    assert SkipWhitespaceAndComments(env, 0) == Some(0);
    assert ParseValue(env, 0, []) == ParseString(env, 0, [], false);
  }

  lemma {:induction false} LoneHighBad(env: Env)
    requires env.src == LONE_HIGH
    ensures StringBody(env, 1, []).None?
  {
    LoneHighEscape(env.src);
    assert StringUnit(env, 1) == Bad;
  }

  lemma {:induction false} LoneHighEscape(s: Text)
    requires s == LONE_HIGH
    ensures UnicodeEscape(s, 3).None?
  {
    assert HexFrom(s, 6, 1, 0xD80) == HexFrom(s, 7, 0, 0xD800);
    assert HexFrom(s, 5, 2, 0xD8) == HexFrom(s, 6, 1, 0xD80);
    assert HexFrom(s, 4, 3, 0xD) == HexFrom(s, 5, 2, 0xD8);
    assert Hex4(s, 3) == Some(0xD800);
  }

  lemma {:induction false} LoneHighIsJson()
    ensures Rfc8259(LONE_HIGH)
  {
    var unit := Hex(Nibble(13, true), Nibble(8, true), Nibble(0, true), Nibble(0, true));
    var cs := [Code(unit)];
    var d := JsonText([], Letters(cs), [], None);
    assert HexText(unit) == [0x44, 0x38, 0x30, 0x30];
    CharactersCons(Code(unit), []);
    assert [Code(unit)] + [] == cs;
    assert CharactersText(cs) == [0x5C, 0x75, 0x44, 0x38, 0x30, 0x30];
    assert TextOf(d) == LONE_HIGH;
    assert ValidText(RFC, d);
  }
}
