/** A handler that stops the parse: the reader sends it what it would send any other, up to the event it refuses. */
module Handlers {
  import opened Bytes
  import opened Events
  import opened Options
  import opened Encodings
  import opened Scanner
  import opened StringStack
  import opened RecursiveReader

  /** The same parse with a handler that accepts everything. */
  function Willing(env: Env): Env {
    env.(handler := _ => true)
  }

  /** A parse cut off at the first event from the `from`-th on that the handler refuses. */
  function Heeded(handler: seq<Event> -> bool, from: nat, o: Outcome): Outcome
    requires from <= |o.events|
    decreases |o.events| - from
  {
    if from == |o.events| then o
    else if !handler(o.events[..from + 1]) then Failed(o.events[..from + 1])
    else Heeded(handler, from + 1, o)
  }

  /** With the handler, a parsing function does what it does with a willing one, cut off. */
  ghost predicate Heeds(env: Env, events: seq<Event>, mine: Outcome, willing: Outcome) {
    && |events| <= |willing.events| && willing.events[..|events|] == events
    && mine == Heeded(env.handler, |events|, willing)
  }

  /** What comes later does not matter to a cut before it. */
  lemma {:induction false} HeededLater(handler: seq<Event> -> bool, from: nat, o: Outcome, later: Outcome)
    requires o.Parsed? && from <= |o.events| <= |later.events| && later.events[..|o.events|] == o.events
    ensures Heeded(handler, from, later)
      == (var h := Heeded(handler, from, o); if h.Failed? then h else Heeded(handler, |o.events|, later))
    decreases |o.events| - from
  {
    if from < |o.events| {
      assert later.events[..from + 1] == o.events[..from + 1];
      HeededLater(handler, from + 1, o, later);
    }
  }

  lemma {:induction false} HeededKeeps(handler: seq<Event> -> bool, from: nat, o: Outcome)
    requires from <= |o.events|
    ensures var h := Heeded(handler, from, o); h.Parsed? ==> h == o
    decreases |o.events| - from
  {
    if from < |o.events| {
      HeededKeeps(handler, from + 1, o);
    }
  }

  /** Two parsing functions one after the other. */
  lemma {:induction false} HeedsThen(env: Env, events: seq<Event>, mine: Outcome, willing: Outcome, mine2: Outcome,
                                     willing2: Outcome)
    requires Heeds(env, events, mine, willing)
    requires willing.Parsed? && |willing2.events| >= |willing.events|
    requires willing2.events[..|willing.events|] == willing.events
    requires mine.Parsed? ==> Heeds(env, willing.events, mine2, willing2)
    ensures Heeds(env, events, if mine.Failed? then mine else mine2, willing2)
  {
    HeededLater(env.handler, |events|, willing, willing2);
    HeededKeeps(env.handler, |events|, willing);
    assert willing2.events[..|events|] == willing.events[..|events|];
  }

  // ----- scanning does not ask the handler

  lemma {:induction false} SameSkip(env: Env, pos: nat)
    requires pos <= |env.src|
    ensures SkipWhitespaceAndComments(Willing(env), pos) == SkipWhitespaceAndComments(env, pos)
  {
  }

  lemma {:induction false} SameUnit(env: Env, pos: nat)
    ensures StringUnit(Willing(env), pos) == StringUnit(env, pos)
  {
    hide Validate, UnicodeEscape, Encode;
  }

  lemma {:induction false} SameBody(env: Env, pos: nat, out: Text)
    ensures StringBody(Willing(env), pos, out) == StringBody(env, pos, out)
    decreases |env.src| - pos
  {
    hide StringUnit;
    SameUnit(env, pos);
    match StringUnit(env, pos) {
      case Unit(bytes, next) => SameBody(env, next, out + bytes);
      case _ =>
    }
  }

  lemma {:induction false} SameNumber(env: Env, pos: nat)
    ensures NumberAt(Willing(env), pos) == NumberAt(env, pos)
  {
    hide Fraction, Exponent, DigitsEnd, DigitsValue;
    var start := if At(env.src, pos) == MINUS then pos + 1 else pos;
    assert NumberHead(Willing(env), start) == NumberHead(env, start);
  }

  // ----- scalars

  lemma {:induction false} SendHeeds(env: Env, events: seq<Event>, e: Event, pos: nat)
    ensures Heeds(env, events, Send(env, events, e, pos), Send(Willing(env), events, e, pos))
    ensures Send(Willing(env), events, e, pos) == Parsed(pos, events + [e])
  {
    var all := events + [e];
    assert all[..|events|] == events && all[..|events| + 1] == all;
  }

  /** Where no event is sent nothing can be refused. */
  lemma {:induction false} StillHeeds(env: Env, o: Outcome)
    ensures Heeds(env, o.events, o, o)
  {
    assert o.events[..|o.events|] == o.events;
  }

  lemma {:induction false} StringHeeds(env: Env, pos: nat, events: seq<Event>, isKey: bool)
    ensures Heeds(env, events, ParseString(env, pos, events, isKey), ParseString(Willing(env), pos, events, isKey))
  {
    hide StringBody, Reported;
    SameBody(env, pos + 1, []);
    StillHeeds(env, Failed(events));
    var b := StringBody(env, pos + 1, []);
    if b.Some? && Reported(b.value.1).Some? {
      var str := Reported(b.value.1).value;
      SendHeeds(env, events, if isKey then Key(str) else String(str), b.value.0);
    }
  }

  lemma {:induction false} ScalarHeeds(env: Env, pos: nat, events: seq<Event>)
    requires pos <= |env.src|
    ensures Heeds(env, events, ParseScalar(env, pos, events), ParseScalar(Willing(env), pos, events))
  {
    hide ParseString, NumberAt, Heeds, Send, StandsAt;
    StillHeeds(env, Failed(events));
    SendHeeds(env, events, Null, pos + |NULL_WORD|);
    SendHeeds(env, events, Bool(true), pos + |TRUE_WORD|);
    SendHeeds(env, events, Bool(false), pos + |FALSE_WORD|);
    StringHeeds(env, pos, events, false);
    SameNumber(env, pos);
    var n := NumberAt(env, pos);
    if n.Some? {
      SendHeeds(env, events, n.value.0, n.value.1);
    }
  }

  // ----- containers

  /** What follows an event or a part of the text heeds the handler if it does once that part was accepted. */
  lemma {:induction false} Followed(env: Env, events: seq<Event>, mine: Outcome, willing: Outcome, mine2: Outcome,
                                    willing2: Outcome)
    requires Heeds(env, events, mine, willing)
    requires willing.Failed? ==> willing2 == willing
    requires mine.Failed? ==> mine2 == mine
    requires willing.Parsed? ==>
      |willing2.events| >= |willing.events| && willing2.events[..|willing.events|] == willing.events
    requires willing.Parsed? && mine == willing ==> Heeds(env, willing.events, mine2, willing2)
    ensures Heeds(env, events, mine2, willing2)
  {
    HeededKeeps(env.handler, |events|, willing);
    if willing.Parsed? {
      HeedsThen(env, events, mine, willing, mine2, willing2);
    }
  }

  /** Events are only ever added. */
  ghost predicate Adds(events: seq<Event>, o: Outcome) {
    |events| <= |o.events| && o.events[..|events|] == events
  }

  lemma {:induction false} AddsTwice(a: seq<Event>, o: Outcome, p: Outcome)
    requires Adds(a, o) && Adds(o.events, p)
    ensures Adds(a, p)
  {
    assert p.events[..|a|] == p.events[..|o.events|][..|a|];
  }

  lemma {:induction false} HeedsAdds(env: Env, events: seq<Event>, mine: Outcome, willing: Outcome)
    requires Heeds(env, events, mine, willing)
    ensures Adds(events, willing)
  {
  }

  lemma {:induction false} ValueHeeds(env: Env, pos: nat, events: seq<Event>)
    requires pos <= |env.src|
    ensures Heeds(env, events, ParseValue(env, pos, events), ParseValue(Willing(env), pos, events))
    decreases |env.src| - pos, 1
  {
    hide ParseScalar, ParseObject, ParseArray, Heeds;
    if At(env.src, pos) == LEFT_BRACE {
      ObjectHeeds(env, pos, events);
    } else if At(env.src, pos) == LEFT_BRACKET {
      ArrayHeeds(env, pos, events);
    } else {
      ScalarHeeds(env, pos, events);
    }
  }

  lemma {:induction false} ArrayHeeds(env: Env, pos: nat, events: seq<Event>)
    requires At(env.src, pos) == LEFT_BRACKET && pos <= |env.src|
    ensures Heeds(env, events, ParseArray(env, pos, events), ParseArray(Willing(env), pos, events))
    decreases |env.src| - pos, 0
  {
    hide SkipWhitespaceAndComments, ParseElements, Heeds;
    var first := events + [StartArray];
    SendHeeds(env, events, StartArray, pos + 1);
    SameSkip(env, pos + 1);
    var w := SkipWhitespaceAndComments(env, pos + 1);
    StillHeeds(env, Failed(first));
    if w.Some? {
      SendHeeds(env, first, EndArray(0), w.value + 1);
      if At(env.src, w.value) != RIGHT_BRACKET {
        ElementsHeed(env, w.value, first, 0);
      }
    }
    var mine, willing := ParseArray(env, pos, events), ParseArray(Willing(env), pos, events);
    var rest := if w.None? then Failed(first)
                else if At(env.src, w.value) == RIGHT_BRACKET then Send(env, first, EndArray(0), w.value + 1)
                else ParseElements(env, w.value, first, 0);
    HeedsAdds(env, first, rest, willing);
    Followed(env, events, Send(env, events, StartArray, pos + 1), Parsed(pos + 1, first), mine, willing);
  }

  lemma {:induction false} ElementsHeed(env: Env, pos: nat, events: seq<Event>, count: nat)
    requires pos <= |env.src|
    ensures Heeds(env, events, ParseElements(env, pos, events, count), ParseElements(Willing(env), pos, events, count))
    decreases |env.src| - pos, 2
  {
    hide SkipWhitespaceAndComments, ParseValue, AfterElement, Heeds;
    ValueHeeds(env, pos, events);
    var v, u := ParseValue(env, pos, events), ParseValue(Willing(env), pos, events);
    var mine, willing := ParseElements(env, pos, events, count), ParseElements(Willing(env), pos, events, count);
    if u.Parsed? {
      SameSkip(env, u.pos);
      var w := SkipWhitespaceAndComments(env, u.pos);
      StillHeeds(env, Failed(u.events));
      if w.Some? {
        AfterHeeds(env, w.value, u.events, Increment(count));
        HeedsAdds(env, u.events, AfterElement(env, w.value, u.events, Increment(count)), willing);
      } else {
        HeedsAdds(env, u.events, Failed(u.events), willing);
      }
    }
    Followed(env, events, v, u, mine, willing);
  }

  lemma {:induction false} AfterHeeds(env: Env, pos: nat, events: seq<Event>, count: nat)
    requires pos <= |env.src|
    ensures Heeds(env, events, AfterElement(env, pos, events, count), AfterElement(Willing(env), pos, events, count))
    decreases |env.src| - pos, 3
  {
    hide SkipWhitespaceAndComments, ParseElements, Heeds, Send;
    StillHeeds(env, Failed(events));
    if At(env.src, pos) == COMMA {
      SameSkip(env, pos + 1);
      var w := SkipWhitespaceAndComments(env, pos + 1);
      if w.Some? {
        SendHeeds(env, events, EndArray(count), w.value + 1);
        if !(env.flags.trailingCommas && At(env.src, w.value) == RIGHT_BRACKET) {
          ElementsHeed(env, w.value, events, count);
        }
      }
    } else {
      SendHeeds(env, events, EndArray(count), pos + 1);
    }
  }

  lemma {:induction false} ObjectHeeds(env: Env, pos: nat, events: seq<Event>)
    requires At(env.src, pos) == LEFT_BRACE && pos <= |env.src|
    ensures Heeds(env, events, ParseObject(env, pos, events), ParseObject(Willing(env), pos, events))
    decreases |env.src| - pos, 0
  {
    hide SkipWhitespaceAndComments, ParseMembers, Heeds;
    var first := events + [StartObject];
    SendHeeds(env, events, StartObject, pos + 1);
    SameSkip(env, pos + 1);
    var w := SkipWhitespaceAndComments(env, pos + 1);
    StillHeeds(env, Failed(first));
    if w.Some? {
      SendHeeds(env, first, EndObject(0), w.value + 1);
      if At(env.src, w.value) != RIGHT_BRACE {
        MembersHeed(env, w.value, first, 0);
      }
    }
    var mine, willing := ParseObject(env, pos, events), ParseObject(Willing(env), pos, events);
    var rest := if w.None? then Failed(first)
                else if At(env.src, w.value) == RIGHT_BRACE then Send(env, first, EndObject(0), w.value + 1)
                else ParseMembers(env, w.value, first, 0);
    HeedsAdds(env, first, rest, willing);
    Followed(env, events, Send(env, events, StartObject, pos + 1), Parsed(pos + 1, first), mine, willing);
  }

  lemma {:induction false} NameHeeds(env: Env, pos: nat, events: seq<Event>)
    requires pos <= |env.src|
    ensures Heeds(env, events, ParseMemberName(env, pos, events), ParseMemberName(Willing(env), pos, events))
  {
    hide SkipWhitespaceAndComments, ParseString, Heeds;
    StillHeeds(env, Failed(events));
    if At(env.src, pos) == QUOTE {
      StringHeeds(env, pos, events, true);
      var k, u := ParseString(env, pos, events, true), ParseString(Willing(env), pos, events, true);
      var mine, willing := ParseMemberName(env, pos, events), ParseMemberName(Willing(env), pos, events);
      if u.Parsed? {
        SameSkip(env, u.pos);
        StillHeeds(env, willing);
        HeedsAdds(env, u.events, willing, willing);
      }
      Followed(env, events, k, u, mine, willing);
    }
  }

  lemma {:induction false} MembersHeed(env: Env, pos: nat, events: seq<Event>, count: nat)
    requires pos <= |env.src|
    ensures Heeds(env, events, ParseMembers(env, pos, events, count), ParseMembers(Willing(env), pos, events, count))
    decreases |env.src| - pos, 2
  {
    hide ParseMemberName, ParseMemberValue, Heeds;
    NameHeeds(env, pos, events);
    var n, u := ParseMemberName(env, pos, events), ParseMemberName(Willing(env), pos, events);
    var mine, willing := ParseMembers(env, pos, events, count), ParseMembers(Willing(env), pos, events, count);
    if u.Parsed? {
      MemberValueHeeds(env, u.pos, u.events, count);
      HeedsAdds(env, u.events, ParseMemberValue(env, u.pos, u.events, count), willing);
    }
    Followed(env, events, n, u, mine, willing);
  }

  lemma {:induction false} MemberValueHeeds(env: Env, pos: nat, events: seq<Event>, count: nat)
    requires pos <= |env.src|
    ensures
      Heeds(env, events, ParseMemberValue(env, pos, events, count), ParseMemberValue(Willing(env), pos, events, count))
    decreases |env.src| - pos, 4
  {
    hide SkipWhitespaceAndComments, ParseValue, AfterMember, Heeds;
    StillHeeds(env, Failed(events));
    SameSkip(env, pos);
    var w := SkipWhitespaceAndComments(env, pos);
    if w.Some? {
      ValueHeeds(env, w.value, events);
      var v, u := ParseValue(env, w.value, events), ParseValue(Willing(env), w.value, events);
      var mine := ParseMemberValue(env, pos, events, count);
      var willing := ParseMemberValue(Willing(env), pos, events, count);
      if u.Parsed? {
        SameSkip(env, u.pos);
        var w2 := SkipWhitespaceAndComments(env, u.pos);
        StillHeeds(env, Failed(u.events));
        if w2.Some? {
          AfterMemberHeeds(env, w2.value, u.events, Increment(count));
          HeedsAdds(env, u.events, AfterMember(env, w2.value, u.events, Increment(count)), willing);
        } else {
          HeedsAdds(env, u.events, Failed(u.events), willing);
        }
      }
      Followed(env, events, v, u, mine, willing);
    }
  }

  lemma {:induction false} AfterMemberHeeds(env: Env, pos: nat, events: seq<Event>, count: nat)
    requires pos <= |env.src|
    ensures Heeds(env, events, AfterMember(env, pos, events, count), AfterMember(Willing(env), pos, events, count))
    decreases |env.src| - pos, 3
  {
    hide SkipWhitespaceAndComments, ParseMembers, Heeds, Send;
    StillHeeds(env, Failed(events));
    if At(env.src, pos) == COMMA {
      SameSkip(env, pos + 1);
      var w := SkipWhitespaceAndComments(env, pos + 1);
      if w.Some? {
        SendHeeds(env, events, EndObject(count), w.value + 1);
        if !(env.flags.trailingCommas && At(env.src, w.value) == RIGHT_BRACE) {
          MembersHeed(env, w.value, events, count);
        }
      }
    } else {
      SendHeeds(env, events, EndObject(count), pos + 1);
    }
  }

  /**
   * Whatever the handler does, a parse is the parse with a handler that accepts everything, cut off
   * behind the first event the handler refuses.
   */
  lemma {:induction false} ParseHeeds(env: Env, pos: nat)
    requires pos <= |env.src|
    ensures Parse(env, pos) == Heeded(env.handler, 0, Parse(Willing(env), pos))
  {
    hide SkipWhitespaceAndComments, ParseValue, Heeds, Finish;
    SameSkip(env, pos);
    var w := SkipWhitespaceAndComments(env, pos);
    StillHeeds(env, Failed([]));
    if w.Some? && At(env.src, w.value) != NUL {
      ValueHeeds(env, w.value, []);
      var v, u := ParseValue(env, w.value, []), ParseValue(Willing(env), w.value, []);
      if u.Parsed? {
        FinishHeeds(env, u.pos, u.events);
        HeedsAdds(env, u.events, Finish(env, u.pos, u.events), Finish(Willing(env), u.pos, u.events));
      }
      Followed(env, [], v, u, Parse(env, pos), Parse(Willing(env), pos));
    }
    HeedsIs(env, Parse(env, pos), Parse(Willing(env), pos));
  }

  lemma {:induction false} HeedsIs(env: Env, mine: Outcome, willing: Outcome)
    requires Heeds(env, [], mine, willing)
    ensures mine == Heeded(env.handler, 0, willing)
  {
  }

  lemma {:induction false} FinishHeeds(env: Env, pos: nat, events: seq<Event>)
    requires pos <= |env.src|
    ensures Heeds(env, events, Finish(env, pos, events), Finish(Willing(env), pos, events))
  {
    hide SkipWhitespaceAndComments, Heeds;
    SameSkip(env, pos);
    StillHeeds(env, Finish(env, pos, events));
  }

  /** The first refusal, counted from the start: none, or the event at which the parse ends. */
  lemma {:induction false} HeededIs(handler: seq<Event> -> bool, from: nat, o: Outcome)
    requires from <= |o.events|
    ensures (forall k | from < k <= |o.events| :: handler(o.events[..k])) ==> Heeded(handler, from, o) == o
    ensures forall k | from < k <= |o.events| && !handler(o.events[..k])
              && (forall j | from < j < k :: handler(o.events[..j])) ::
      Heeded(handler, from, o) == Failed(o.events[..k])
    decreases |o.events| - from
  {
    if from < |o.events| && handler(o.events[..from + 1]) {
      HeededIs(handler, from + 1, o);
    }
  }
}
