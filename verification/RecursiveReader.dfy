/** The recursive-descent parser (reader.h) as functions of the input position and the event history. */
module RecursiveReader {
  import opened Bytes
  import opened Events
  import opened Scanner
  import opened StringStack
  import opened Options

  /** Sends one event: the parse goes on from `pos` unless the handler stops it. */
  function Send(env: Env, events: seq<Event>, e: Event, pos: nat): (r: Outcome)
    ensures r.events == events + [e]
    ensures r.Parsed? ==> r.pos == pos
  {
    if env.handler(events + [e]) then Parsed(pos, events + [e]) else Failed(events + [e])
  }

  function ParseLiteral(env: Env, pos: nat, events: seq<Event>, word: Text, e: Event): Outcome {
    if StandsAt(env.src, pos, word) then Send(env, events, e, pos + |word|) else Failed(events)
  }

  const NULL_WORD: Text := [110, 117, 108, 108]
  const TRUE_WORD: Text := [116, 114, 117, 101]
  const FALSE_WORD: Text := [102, 97, 108, 115, 101]

  /**
   * A string from its opening quote; `isKey` tells which of the two events it sends. What it sends is
   * what the reader's stack gives back of the bytes; the parse stops where that lies behind the stack.
   */
  function ParseString(env: Env, pos: nat, events: seq<Event>, isKey: bool): (r: Outcome)
    ensures r.Parsed? ==> pos < r.pos <= |env.src|
  {
    var b := StringBody(env, pos + 1, []);
    if b.None? || (env.strict && |b.value.1| >= STRING_LIMIT) then Failed(events)
    else
      var str := Reported(b.value.1);
      if str.None? then Failed(events)
      else Send(env, events, if isKey then Key(str.value) else String(str.value), b.value.0)
  }

  function ParseNumber(env: Env, pos: nat, events: seq<Event>): (r: Outcome)
    ensures r.Parsed? ==> pos < r.pos <= |env.src|
  {
    var n := NumberAt(env, pos);
    if n.None? then Failed(events) else Send(env, events, n.value.0, n.value.1)
  }

  function ParseValue(env: Env, pos: nat, events: seq<Event>): (r: Outcome)
    requires pos <= |env.src|
    ensures r.Parsed? ==> pos < r.pos <= |env.src|
    decreases |env.src| - pos, 1
  {
    var c := At(env.src, pos);
    if c == LEFT_BRACE then ParseObject(env, pos, events)
    else if c == LEFT_BRACKET then ParseArray(env, pos, events)
    else ParseScalar(env, pos, events)
  }

  /** The values without parts: literals, strings and numbers. */
  function ParseScalar(env: Env, pos: nat, events: seq<Event>): (r: Outcome)
    requires pos <= |env.src|
    ensures r.Parsed? ==> pos < r.pos <= |env.src|
  {
    var c := At(env.src, pos);
    if c == 110 then ParseLiteral(env, pos, events, NULL_WORD, Null)
    else if c == 116 then ParseLiteral(env, pos, events, TRUE_WORD, Bool(true))
    else if c == 102 then ParseLiteral(env, pos, events, FALSE_WORD, Bool(false))
    else if c == QUOTE then ParseString(env, pos, events, false)
    else ParseNumber(env, pos, events)
  }

  function ParseObject(env: Env, pos: nat, events: seq<Event>): (r: Outcome)
    requires At(env.src, pos) == LEFT_BRACE
    ensures r.Parsed? ==> pos < r.pos <= |env.src|
    decreases |env.src| - pos, 0
  {
    var s := Send(env, events, StartObject, pos + 1);
    if s.Failed? then s
    else
      var w := SkipWhitespaceAndComments(env, pos + 1);
      if w.None? then Failed(s.events)
      else if At(env.src, w.value) == RIGHT_BRACE then Send(env, s.events, EndObject(0), w.value + 1)
      else ParseMembers(env, w.value, s.events, 0)
  }

  /** The loop of ParseObject, standing where a member name must start. */
  function ParseMembers(env: Env, pos: nat, events: seq<Event>, memberCount: nat): (r: Outcome)
    requires pos <= |env.src|
    ensures r.Parsed? ==> pos < r.pos <= |env.src|
    decreases |env.src| - pos, 2
  {
    var name := ParseMemberName(env, pos, events);
    if name.Failed? then name else ParseMemberValue(env, name.pos, name.events, memberCount)
  }

  /** The start of a member: its name and the colon. */
  function ParseMemberName(env: Env, pos: nat, events: seq<Event>): (r: Outcome)
    requires pos <= |env.src|
    ensures r.Parsed? ==> pos < r.pos <= |env.src|
  {
    if At(env.src, pos) != QUOTE then Failed(events)
    else
      var key := ParseString(env, pos, events, true);
      if key.Failed? then key
      else
        var w := SkipWhitespaceAndComments(env, key.pos);
        if w.None? || At(env.src, w.value) != COLON then Failed(key.events) else Parsed(w.value + 1, key.events)
  }

  /** The rest of a member, from behind the colon. */
  function ParseMemberValue(env: Env, pos: nat, events: seq<Event>, memberCount: nat): (r: Outcome)
    requires pos <= |env.src|
    ensures r.Parsed? ==> pos < r.pos <= |env.src|
    decreases |env.src| - pos, 4
  {
    var w2 := SkipWhitespaceAndComments(env, pos);
    if w2.None? then Failed(events)
    else
      var v := ParseValue(env, w2.value, events);
      if v.Failed? then v
      else
        var w3 := SkipWhitespaceAndComments(env, v.pos);
        if w3.None? then Failed(v.events)
        else AfterMember(env, w3.value, v.events, Increment(memberCount))
  }

  /** Behind a member: a comma and more, or the end of the object. */
  function AfterMember(env: Env, pos: nat, events: seq<Event>, memberCount: nat): (r: Outcome)
    requires pos <= |env.src|
    ensures r.Parsed? ==> pos < r.pos <= |env.src|
    decreases |env.src| - pos, 3
  {
    if At(env.src, pos) == COMMA then
      var w := SkipWhitespaceAndComments(env, pos + 1);
      if w.None? then Failed(events)
      else if env.flags.trailingCommas && At(env.src, w.value) == RIGHT_BRACE then
        Send(env, events, EndObject(memberCount), w.value + 1)
      else ParseMembers(env, w.value, events, memberCount)
    else if At(env.src, pos) == RIGHT_BRACE then Send(env, events, EndObject(memberCount), pos + 1)
    else Failed(events)
  }

  function ParseArray(env: Env, pos: nat, events: seq<Event>): (r: Outcome)
    requires At(env.src, pos) == LEFT_BRACKET
    ensures r.Parsed? ==> pos < r.pos <= |env.src|
    decreases |env.src| - pos, 0
  {
    var s := Send(env, events, StartArray, pos + 1);
    if s.Failed? then s
    else
      var w := SkipWhitespaceAndComments(env, pos + 1);
      if w.None? then Failed(s.events)
      else if At(env.src, w.value) == RIGHT_BRACKET then Send(env, s.events, EndArray(0), w.value + 1)
      else ParseElements(env, w.value, s.events, 0)
  }

  /** The loop of ParseArray, standing where an element must start. */
  function ParseElements(env: Env, pos: nat, events: seq<Event>, elementCount: nat): (r: Outcome)
    requires pos <= |env.src|
    ensures r.Parsed? ==> pos < r.pos <= |env.src|
    decreases |env.src| - pos, 2
  {
    var v := ParseValue(env, pos, events);
    if v.Failed? then v
    else
      var w := SkipWhitespaceAndComments(env, v.pos);
      if w.None? then Failed(v.events)
      else AfterElement(env, w.value, v.events, Increment(elementCount))
  }

  /** Behind an element: a comma and more, or the end of the array. */
  function AfterElement(env: Env, pos: nat, events: seq<Event>, elementCount: nat): (r: Outcome)
    requires pos <= |env.src|
    ensures r.Parsed? ==> pos < r.pos <= |env.src|
    decreases |env.src| - pos, 3
  {
    if At(env.src, pos) == COMMA then
      var w := SkipWhitespaceAndComments(env, pos + 1);
      if w.None? then Failed(events)
      else if env.flags.trailingCommas && At(env.src, w.value) == RIGHT_BRACKET then
        Send(env, events, EndArray(elementCount), w.value + 1)
      else ParseElements(env, w.value, events, elementCount)
    else if At(env.src, pos) == RIGHT_BRACKET then Send(env, events, EndArray(elementCount), pos + 1)
    else Failed(events)
  }

  /** A whole text from position `pos` (Parse without the iterative flag). */
  function Parse(env: Env, pos: nat): (r: Outcome)
    requires pos <= |env.src|
    ensures r.Parsed? ==> pos < r.pos <= |env.src|
  {
    var w := SkipWhitespaceAndComments(env, pos);
    if w.None? || At(env.src, w.value) == NUL then Failed([])
    else
      var v := ParseValue(env, w.value, []);
      if v.Failed? then v else Finish(env, v.pos, v.events)
  }

  /** Behind the root value: the end of the input, unless the caller asked to stop there. */
  function Finish(env: Env, pos: nat, events: seq<Event>): (r: Outcome)
    requires pos <= |env.src|
    ensures r.Parsed? ==> pos <= r.pos <= |env.src|
  {
    if env.flags.stopWhenDone then Parsed(pos, events)
    else
      var w := SkipWhitespaceAndComments(env, pos);
      if w.None? || At(env.src, w.value) != NUL then Failed(events) else Parsed(w.value, events)
  }
}
