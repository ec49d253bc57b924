/** What an accepted parse sends is a well-formed event tree, so the document can always be built from it. */
module ReaderTrees {
  import opened Bytes
  import opened Events
  import opened Scanner
  import opened StringStack
  import opened RecursiveReader
  import opened Document
  import opened Options

  /** A number of parts as the 32-bit count has it. */
  function Count(n: nat): (r: nat)
    ensures r < SIZE_TYPE_LIMIT
    ensures Increment(r) == (n + 1) % SIZE_TYPE_LIMIT
    ensures n < SIZE_TYPE_LIMIT ==> r == n
  {
    n % SIZE_TYPE_LIMIT
  }

  /** What the reader sends for a tree: its events, with the counts as the 32-bit fields have them. */
  function Sent(t: EventTree): seq<Event>
    decreases t, 0
  {
    match t
    case Leaf(e) => [e]
    case ArrayTree(parts) => [StartArray] + SentParts(parts) + [EndArray(Count(|parts|))]
    case ObjectTree(fields) => [StartObject] + SentFields(fields) + [EndObject(Count(|fields|))]
  }

  function SentParts(parts: seq<EventTree>): seq<Event>
    decreases parts, 1
  {
    if parts == [] then [] else SentParts(parts[..|parts| - 1]) + Sent(parts[|parts| - 1])
  }

  function SentFields(fields: seq<Field>): seq<Event>
    decreases fields, 1
  {
    if fields == [] then []
    else
      var f := fields[|fields| - 1];
      SentFields(fields[..|fields| - 1]) + [Key(f.key)] + Sent(f.tree)
  }

  /** Scalars in range, and no container with more than `limit` parts. */
  predicate Bounded(limit: nat, t: EventTree) {
    match t
    case Leaf(e) => ScalarEvent(e)
    case ArrayTree(parts) => |parts| <= limit && forall i | 0 <= i < |parts| :: Bounded(limit, parts[i])
    case ObjectTree(fields) => |fields| <= limit && forall i | 0 <= i < |fields| :: Bounded(limit, fields[i].tree)
  }

  lemma {:induction false} NumberIsScalar(env: Env, pos: nat)
    ensures
      var n := NumberAt(env, pos);
      n.Some? ==> ScalarEvent(n.value.0)
  {
  }

  lemma {:induction false} ScalarDenotes(env: Env, pos: nat, events: seq<Event>) returns (t: EventTree)
    requires pos <= |env.src| && ParseScalar(env, pos, events).Parsed?
    ensures Bounded(|env.src|, t) && ParseScalar(env, pos, events).events == events + Sent(t)
  {
    NumberIsScalar(env, pos);
    var r := ParseScalar(env, pos, events);
    t := Leaf(r.events[|events|]);
  }

  /** A parsed value sends the events of one tree, whatever was sent before it. */
  lemma {:induction false} ValueDenotes(env: Env, pos: nat, events: seq<Event>) returns (t: EventTree)
    requires pos <= |env.src|
    requires ParseValue(env, pos, events).Parsed?
    ensures Bounded(|env.src|, t) && ParseValue(env, pos, events).events == events + Sent(t)
    decreases |env.src| - pos, 1
  {
    if At(env.src, pos) == LEFT_BRACE {
      var w := SkipWhitespaceAndComments(env, pos + 1);
      if At(env.src, w.value) == RIGHT_BRACE {
        t := ObjectTree([]);
      } else {
        assert events + [StartObject] + SentFields([]) == events + [StartObject];
        t := MembersDenote(env, w.value, events, []);
      }
    } else if At(env.src, pos) == LEFT_BRACKET {
      var w := SkipWhitespaceAndComments(env, pos + 1);
      if At(env.src, w.value) == RIGHT_BRACKET {
        t := ArrayTree([]);
      } else {
        assert events + [StartArray] + SentParts([]) == events + [StartArray];
        t := ElementsDenote(env, w.value, events, []);
      }
    } else {
      t := ScalarDenotes(env, pos, events);
    }
  }

  lemma {:induction false} ElementsDenote(env: Env, pos: nat, base: seq<Event>, done: seq<EventTree>)
      returns (t: EventTree)
    requires |done| < pos <= |env.src|
    requires Bounded(|env.src|, ArrayTree(done))
    requires ParseElements(env, pos, base + [StartArray] + SentParts(done), Count(|done|)).Parsed?
    ensures Bounded(|env.src|, t)
    ensures ParseElements(env, pos, base + [StartArray] + SentParts(done), Count(|done|)).events == base + Sent(t)
    decreases |env.src| - pos, 2
  {
    var events := base + [StartArray] + SentParts(done);
    var part := ValueDenotes(env, pos, events);
    PartAppended(base, done, part);
    var v := ParseValue(env, pos, events);
    var w := SkipWhitespaceAndComments(env, v.pos);
    t := AfterElementDenotes(env, w.value, base, done + [part]);
  }

  lemma {:induction false} PartAppended(base: seq<Event>, done: seq<EventTree>, part: EventTree)
    ensures base + [StartArray] + SentParts(done) + Sent(part) == base + [StartArray] + SentParts(done + [part])
  {
    assert (done + [part])[..|done|] == done;
  }

  lemma {:induction false} FieldAppended(base: seq<Event>, done: seq<Field>, f: Field)
    ensures base + [StartObject] + SentFields(done) + [Key(f.key)] + Sent(f.tree)
         == base + [StartObject] + SentFields(done + [f])
  {
    assert (done + [f])[..|done|] == done;
  }

  lemma {:induction false} AfterElementDenotes(env: Env, pos: nat, base: seq<Event>, more: seq<EventTree>)
      returns (t: EventTree)
    requires |more| <= pos <= |env.src|
    requires Bounded(|env.src|, ArrayTree(more))
    requires AfterElement(env, pos, base + [StartArray] + SentParts(more), Count(|more|)).Parsed?
    ensures Bounded(|env.src|, t)
    ensures AfterElement(env, pos, base + [StartArray] + SentParts(more), Count(|more|)).events == base + Sent(t)
    decreases |env.src| - pos, 3
  {
    var events := base + [StartArray] + SentParts(more);
    if At(env.src, pos) == COMMA {
      var w := SkipWhitespaceAndComments(env, pos + 1);
      if !(env.flags.trailingCommas && At(env.src, w.value) == RIGHT_BRACKET) {
        t := ElementsDenote(env, w.value, base, more);
        return;
      }
    }
    t := ArrayTree(more);
    assert base + Sent(t) == events + [EndArray(Count(|more|))];
  }

  lemma {:induction false} MembersDenote(env: Env, pos: nat, base: seq<Event>, done: seq<Field>) returns (t: EventTree)
    requires |done| < pos <= |env.src|
    requires Bounded(|env.src|, ObjectTree(done))
    requires ParseMembers(env, pos, base + [StartObject] + SentFields(done), Count(|done|)).Parsed?
    ensures Bounded(|env.src|, t)
    ensures ParseMembers(env, pos, base + [StartObject] + SentFields(done), Count(|done|)).events == base + Sent(t)
    decreases |env.src| - pos, 2
  {
    var events := base + [StartObject] + SentFields(done);
    var name := ParseMemberName(env, pos, events);
    var key := NameSendsKey(env, pos, events);
    t := MemberValueDenotes(env, name.pos, base, done, key);
  }

  lemma {:induction false} NameSendsKey(env: Env, pos: nat, events: seq<Event>) returns (key: Text)
    requires pos <= |env.src| && ParseMemberName(env, pos, events).Parsed?
    ensures ParseMemberName(env, pos, events).events == events + [Key(key)]
  {
    key := Reported(StringBody(env, pos + 1, []).value.1).value;
  }

  lemma {:induction false} MemberValueDenotes(env: Env, pos: nat, base: seq<Event>, done: seq<Field>, key: Text)
      returns (t: EventTree)
    requires |done| < pos <= |env.src|
    requires Bounded(|env.src|, ObjectTree(done))
    requires ParseMemberValue(env, pos, base + [StartObject] + SentFields(done) + [Key(key)], Count(|done|)).Parsed?
    ensures Bounded(|env.src|, t)
    ensures ParseMemberValue(env, pos, base + [StartObject] + SentFields(done) + [Key(key)], Count(|done|)).events
         == base + Sent(t)
    decreases |env.src| - pos, 2
  {
    var events := base + [StartObject] + SentFields(done) + [Key(key)];
    var w := SkipWhitespaceAndComments(env, pos);
    var tree := ValueDenotes(env, w.value, events);
    var f := Field(key, tree);
    FieldAppended(base, done, f);
    var v := ParseValue(env, w.value, events);
    var w2 := SkipWhitespaceAndComments(env, v.pos);
    t := AfterMemberDenotes(env, w2.value, base, done + [f]);
  }

  lemma {:induction false} AfterMemberDenotes(env: Env, pos: nat, base: seq<Event>, more: seq<Field>)
      returns (t: EventTree)
    requires |more| <= pos <= |env.src|
    requires Bounded(|env.src|, ObjectTree(more))
    requires AfterMember(env, pos, base + [StartObject] + SentFields(more), Count(|more|)).Parsed?
    ensures Bounded(|env.src|, t)
    ensures AfterMember(env, pos, base + [StartObject] + SentFields(more), Count(|more|)).events == base + Sent(t)
    decreases |env.src| - pos, 3
  {
    var events := base + [StartObject] + SentFields(more);
    if At(env.src, pos) == COMMA {
      var w := SkipWhitespaceAndComments(env, pos + 1);
      if !(env.flags.trailingCommas && At(env.src, w.value) == RIGHT_BRACE) {
        t := MembersDenote(env, w.value, base, more);
        return;
      }
    }
    t := ObjectTree(more);
    assert base + Sent(t) == events + [EndObject(Count(|more|))];
  }

  // ----- what the document makes of it

  lemma {:induction false} BoundedWellFormed(limit: nat, t: EventTree)
    requires limit < SIZE_TYPE_LIMIT && Bounded(limit, t)
    ensures WellFormedTree(t)
  {
    match t {
      case Leaf(e) =>
      case ArrayTree(parts) =>
        forall i | 0 <= i < |parts| ensures WellFormedTree(parts[i]) {
          BoundedWellFormed(limit, parts[i]);
        }
      case ObjectTree(fields) =>
        forall i | 0 <= i < |fields| ensures WellFormedTree(fields[i].tree) {
          BoundedWellFormed(limit, fields[i].tree);
        }
    }
  }

  /** Where no count wraps, what is sent are the tree's own events. */
  lemma {:induction false} SentAsIs(t: EventTree)
    requires WellFormedTree(t)
    ensures Sent(t) == Flatten(t)
    decreases t, 0
  {
    match t {
      case Leaf(e) =>
      case ArrayTree(parts) => PartsAsIs(parts);
      case ObjectTree(fields) => FieldsAsIs(fields);
    }
  }

  lemma {:induction false} PartsAsIs(parts: seq<EventTree>)
    requires forall i | 0 <= i < |parts| :: WellFormedTree(parts[i])
    ensures SentParts(parts) == FlattenParts(parts)
    decreases parts, 1
  {
    if parts != [] {
      PartsAsIs(parts[..|parts| - 1]);
      SentAsIs(parts[|parts| - 1]);
    }
  }

  lemma {:induction false} FieldsAsIs(fields: seq<Field>)
    requires forall i | 0 <= i < |fields| :: WellFormedTree(fields[i].tree)
    ensures SentFields(fields) == FlattenFields(fields)
    decreases fields, 1
  {
    if fields != [] {
      FieldsAsIs(fields[..|fields| - 1]);
      SentAsIs(fields[|fields| - 1].tree);
    }
  }

  /** By how much a handler call changes the height of the document's stack. */
  function Rise(e: Event): int {
    match e
    case EndObject(n) => -2 * n
    case EndArray(n) => 0 - n
    case _ => 1
  }

  function RiseAll(es: seq<Event>): int {
    if es == [] then 0 else RiseAll(es[..|es| - 1]) + Rise(es[|es| - 1])
  }

  lemma {:induction false} RiseAppend(a: seq<Event>, b: seq<Event>)
    ensures RiseAll(a + b) == RiseAll(a) + RiseAll(b)
    decreases |b|
  {
    if b == [] {
      assert a + b == a;
    } else {
      assert (a + b)[..|a + b| - 1] == a + b[..|b| - 1];
      RiseAppend(a, b[..|b| - 1]);
    }
  }

  lemma {:induction false} RiseOne(e: Event)
    ensures RiseAll([e]) == Rise(e)
  {
    assert [e][..0] == [];
  }

  lemma {:induction false} HandleRises(stack: seq<Value>, es: seq<Event>)
    ensures HandleAll(stack, es).Some? ==> |HandleAll(stack, es).value| == |stack| + RiseAll(es)
    decreases |es|
  {
    if es != [] {
      HandleRises(stack, es[..|es| - 1]);
      var s := HandleAll(stack, es[..|es| - 1]);
      if s.Some? {
        HandleRise(s.value, es[|es| - 1]);
      }
    }
  }

  lemma {:induction false} HandleRise(stack: seq<Value>, e: Event)
    ensures Handle(stack, e).Some? ==> |Handle(stack, e).value| == |stack| + Rise(e)
  {
  }

  /** A tree's events raise the stack by one value exactly when no count wraps, and by more otherwise. */
  lemma {:induction false} SentRises(limit: nat, t: EventTree)
    requires Bounded(limit, t)
    ensures RiseAll(Sent(t)) >= 1
    ensures RiseAll(Sent(t)) == 1 <==> WellFormedTree(t)
    decreases t, 0
  {
    match t {
      case Leaf(e) =>
        RiseOne(e);
      case ArrayTree(parts) =>
        PartsRise(limit, parts);
        BracketsRise(StartArray, SentParts(parts), EndArray(Count(|parts|)));
      case ObjectTree(fields) =>
        FieldsRise(limit, fields);
        BracketsRise(StartObject, SentFields(fields), EndObject(Count(|fields|)));
    }
  }

  lemma {:induction false} BracketsRise(open: Event, es: seq<Event>, close: Event)
    ensures RiseAll([open] + es + [close]) == Rise(open) + RiseAll(es) + Rise(close)
  {
    RiseOne(open);
    RiseOne(close);
    RiseAppend([open], es);
    RiseAppend([open] + es, [close]);
  }

  lemma {:induction false} PartsRise(limit: nat, parts: seq<EventTree>)
    requires forall i | 0 <= i < |parts| :: Bounded(limit, parts[i])
    ensures RiseAll(SentParts(parts)) >= |parts|
    ensures RiseAll(SentParts(parts)) == |parts| <==> forall i | 0 <= i < |parts| :: WellFormedTree(parts[i])
    decreases parts, 1
  {
    hide Bounded, WellFormedTree, Sent;
    if parts != [] {
      var init, last := parts[..|parts| - 1], parts[|parts| - 1];
      PartsRise(limit, init);
      SentRises(limit, last);
      RiseAppend(SentParts(init), Sent(last));
      if forall i | 0 <= i < |init| :: WellFormedTree(init[i]) {
        forall i | 0 <= i < |parts| - 1 ensures WellFormedTree(parts[i]) {
          assert parts[i] == init[i];
        }
      }
      forall i | 0 <= i < |init| ensures init[i] == parts[i] {
      }
    }
  }

  lemma {:induction false} FieldsRise(limit: nat, fields: seq<Field>)
    requires forall i | 0 <= i < |fields| :: Bounded(limit, fields[i].tree)
    ensures RiseAll(SentFields(fields)) >= 2 * |fields|
    ensures RiseAll(SentFields(fields)) == 2 * |fields|
      <==> forall i | 0 <= i < |fields| :: WellFormedTree(fields[i].tree)
    decreases fields, 1
  {
    hide Bounded, WellFormedTree, Sent;
    if fields != [] {
      var init, last := fields[..|fields| - 1], fields[|fields| - 1];
      FieldsRise(limit, init);
      SentRises(limit, last.tree);
      RiseOne(Key(last.key));
      RiseAppend(SentFields(init), [Key(last.key)]);
      RiseAppend(SentFields(init) + [Key(last.key)], Sent(last.tree));
      if forall i | 0 <= i < |init| :: WellFormedTree(init[i].tree) {
        forall i | 0 <= i < |fields| - 1 ensures WellFormedTree(fields[i].tree) {
          assert fields[i] == init[i];
        }
      }
      forall i | 0 <= i < |init| ensures init[i] == fields[i] {
      }
    }
  }

  /**
   * Parsing into a document: the events of an accepted text are those of a tree, and they leave
   * exactly one value on the document's stack, the tree's, if and only if every container of the tree
   * has fewer than 2^32 parts, as in any text of less than 4 GiB.
   */
  lemma {:induction false} AcceptedTextBuildsOneValue(env: Env, pos: nat) returns (t: EventTree)
    requires pos <= |env.src| && Parse(env, pos).Parsed?
    ensures Bounded(|env.src|, t) && Parse(env, pos).events == Sent(t)
    ensures WellFormedTree(t) <==> exists v :: HandleAll([], Parse(env, pos).events) == Some([v])
    ensures WellFormedTree(t) ==>
      Parse(env, pos).events == Flatten(t) && HandleAll([], Parse(env, pos).events) == Some([Denote(t)])
    ensures |env.src| < SIZE_TYPE_LIMIT ==> WellFormedTree(t)
  {
    hide Sent, Flatten, HandleAll, WellFormedTree, Bounded, Denote;
    var w := SkipWhitespaceAndComments(env, pos);
    t := ValueDenotes(env, w.value, []);
    assert [] + Sent(t) == Sent(t);
    if |env.src| < SIZE_TYPE_LIMIT {
      BoundedWellFormed(|env.src|, t);
    }
    SentRises(|env.src|, t);
    HandleRises([], Sent(t));
    if WellFormedTree(t) {
      SentAsIs(t);
      HandlersBuild([], t);
      assert [] + [Denote(t)] == [Denote(t)];
    }
  }

  // ----- a text that builds more than one value

  /** An array of `n` zeros. */
  function ZerosText(n: nat): (s: Text)
    requires n > 0
    ensures |s| == 2 * n + 1 && s[0] == LEFT_BRACKET && s[2 * n] == RIGHT_BRACKET
    ensures forall i | 0 <= i < n :: s[2 * i + 1] == ZERO
    ensures forall i | 0 < i < n :: s[2 * i] == COMMA
  {
    seq(2 * n + 1, k =>
      if k == 0 then LEFT_BRACKET else if k == 2 * n then RIGHT_BRACKET else if k % 2 == 1 then ZERO else COMMA)
  }

  function Zeros(n: nat): (es: seq<Event>)
    ensures |es| == n
  {
    seq(n, _ => Uint(0))
  }

  lemma {:induction false} Solid(env: Env, pos: nat)
    requires pos <= |env.src| && !IsWhitespace(At(env.src, pos)) && At(env.src, pos) != SLASH
    ensures SkipWhitespaceAndComments(env, pos) == Some(pos)
  {
  }

  lemma {:induction false} ZeroReads(env: Env, pos: nat, events: seq<Event>)
    requires pos + 1 < |env.src| && env.src[pos] == ZERO && env.src[pos + 1] in {COMMA, RIGHT_BRACKET}
    requires forall es :: env.handler(es)
    ensures ParseValue(env, pos, events) == Parsed(pos + 1, events + [Uint(0)])
  {
    hide ParseObject, ParseArray;
    assert NumberAt(env, pos) == Some((Uint(0), pos + 1));
    assert env.handler(events + [Uint(0)]);
  }

  /** One round of the element loop. */
  lemma {:induction false} ZeroStep(env: Env, pos: nat, events: seq<Event>, count: nat)
    requires pos + 1 < |env.src| && env.src[pos] == ZERO && forall es :: env.handler(es)
    requires env.src[pos + 1] == COMMA ==> pos + 2 < |env.src| && env.src[pos + 2] == ZERO
    requires env.src[pos + 1] in {COMMA, RIGHT_BRACKET}
    ensures ParseElements(env, pos, events, count) ==
      if env.src[pos + 1] == COMMA then ParseElements(env, pos + 2, events + [Uint(0)], Increment(count))
      else Parsed(pos + 2, events + [Uint(0)] + [EndArray(Increment(count))])
  {
    hide ParseValue, SkipWhitespaceAndComments;
    ZeroReads(env, pos, events);
    Solid(env, pos + 1);
    if env.src[pos + 1] == COMMA {
      Solid(env, pos + 2);
    } else {
      assert env.handler(events + [Uint(0)] + [EndArray(Increment(count))]);
    }
  }

  /** From element `i` on. */
  lemma {:induction false} ZerosRead(env: Env, n: nat, i: nat, events: seq<Event>)
    requires i < n && env.src == ZerosText(n) && forall es :: env.handler(es)
    ensures ParseElements(env, 2 * i + 1, events, Count(i))
         == Parsed(2 * n + 1, events + Zeros(n - i) + [EndArray(Count(n))])
    decreases n - i
  {
    hide ParseElements, Zeros, ZerosText;
    OneZero(events, n - i);
    if i + 1 < n {
      assert env.src[2 * (i + 1)] == COMMA && env.src[2 * (i + 1) + 1] == ZERO;
      ZerosRead(env, n, i + 1, events + [Uint(0)]);
    }
    ZeroStep(env, 2 * i + 1, events, Count(i));
  }

  lemma {:induction false} OneZero(events: seq<Event>, m: nat)
    requires m > 0
    ensures events + Zeros(m) == events + [Uint(0)] + Zeros(m - 1)
    ensures Zeros(0) == [] && events + [Uint(0)] + [] == events + [Uint(0)]
  {
  }

  /** The text is accepted, with its count as the 32-bit field has it. */
  lemma {:induction false} ZerosParse(env: Env, n: nat)
    requires n > 0 && env.src == ZerosText(n) && forall es :: env.handler(es)
    ensures Parse(env, 0) == Parsed(2 * n + 1, [StartArray] + Zeros(n) + [EndArray(Count(n))])
  {
    hide SkipWhitespaceAndComments, ParseElements, Zeros;
    Solid(env, 0);
    assert env.src[2 * 0 + 1] == ZERO;
    Solid(env, 1);
    Solid(env, 2 * n + 1);
    assert env.handler([] + [StartArray]) && [] + [StartArray] == [StartArray];
    ZerosRead(env, n, 0, [StartArray]);
    var all := [StartArray] + Zeros(n) + [EndArray(Count(n))];
    assert ParseElements(env, 1, [StartArray], 0) == Parsed(2 * n + 1, all);
    assert ParseArray(env, 0, []) == Parsed(2 * n + 1, all);
    assert ParseValue(env, 0, []) == Parsed(2 * n + 1, all);
  }

  lemma {:induction false} ZerosPile(stack: seq<Value>, n: nat)
    ensures HandleAll(stack, Zeros(n)).Some? && |HandleAll(stack, Zeros(n)).value| == |stack| + n
    ensures HandleAll(stack, Zeros(n)).value[..|stack|] == stack
    decreases n
  {
    if n > 0 {
      assert Zeros(n)[..n - 1] == Zeros(n - 1);
      ZerosPile(stack, n - 1);
    }
  }

  /** What the handlers leave: one value for each multiple of 2^32 elements more. */
  lemma {:induction false} ZerosLeave(n: nat)
    requires n > 0
    ensures
      var s := HandleAll([], [StartArray] + Zeros(n) + [EndArray(Count(n))]);
      s.Some? && |s.value| == n - Count(n) + 1
  {
    hide Zeros;
    ZerosPile([ArrayValue([])], n);
    Bracketed([], StartArray, Zeros(n), EndArray(Count(n)));
    assert [] + [ArrayValue([])] == [ArrayValue([])];
  }

  /** An array of 2^32 zeros is accepted with the count 0, and leaves 2^32 + 1 values on the document's stack. */
  lemma {:induction false} ManyZerosBuildMany(env: Env)
    requires env.src == ZerosText(SIZE_TYPE_LIMIT) && forall es :: env.handler(es)
    ensures
      var r := Parse(env, 0);
      && r.Parsed? && r.events == [StartArray] + Zeros(SIZE_TYPE_LIMIT) + [EndArray(0)]
      && HandleAll([], r.events).Some? && |HandleAll([], r.events).value| == SIZE_TYPE_LIMIT + 1
  {
    hide Parse, HandleAll, Zeros, ZerosText;
    ZerosParse(env, SIZE_TYPE_LIMIT);
    ZerosLeave(SIZE_TYPE_LIMIT);
  }
}
