/** The document (document.h): values, the handlers that build them on a stack, and Accept. */
module Document {
  import opened Bytes
  import opened Events
  import opened Scanner
  import opened Options

  // ----- numbers and their range flags

  /** A stored integer with the four flags that say which getters may be used on it. */
  datatype Number = Number(value: int, isInt: bool, isUint: bool, isInt64: bool, isUint64: bool)

  predicate InInt(n: int) { -INT32_MAGNITUDE <= n < INT32_MAGNITUDE }

  predicate InUint(n: int) { 0 <= n <= UINT32_MAX }

  predicate InInt64(n: int) { -INT64_MAGNITUDE <= n < INT64_MAGNITUDE }

  predicate InUint64(n: int) { 0 <= n <= UINT64_MAX }

  /** `u & mask` for the masks of the constructors, which keep every bit from `bit` up. */
  predicate HighBitsClear(u: nat, bit: nat) {
    u / Power2(bit) == 0
  }

  function Power2(n: nat): (r: nat)
    ensures r > 0
  {
    if n == 0 then 1 else 2 * Power2(n - 1)
  }

  function OfInt(i: int): Number
    requires InInt(i)
  {
    Number(i, true, i >= 0, true, i >= 0)
  }

  function OfUint(u: int): Number
    requires InUint(u)
  {
    Number(u, HighBitsClear(u, 31), true, true, true)
  }

  function OfInt64(i64: int): Number
    requires InInt64(i64)
  {
    if i64 >= 0 then Number(i64, HighBitsClear(i64, 31), HighBitsClear(i64, 32), true, true)
    else Number(i64, i64 >= -INT32_MAGNITUDE, false, true, false)
  }

  function OfUint64(u64: int): Number
    requires InUint64(u64)
  {
    Number(u64, HighBitsClear(u64, 31), HighBitsClear(u64, 32), HighBitsClear(u64, 63), true)
  }

  /** The flags hold exactly for the ranges that contain the value. */
  predicate Canonical(n: Number) {
    && n.isInt == InInt(n.value) && n.isUint == InUint(n.value)
    && n.isInt64 == InInt64(n.value) && n.isUint64 == InUint64(n.value)
    && (InInt64(n.value) || InUint64(n.value))
  }

  lemma {:induction false} Powers()
    ensures Power2(31) == INT32_MAGNITUDE && Power2(32) == UINT32_MAX + 1 && Power2(63) == INT64_MAGNITUDE
  {
    assert Power2(10) == 1024;
    assert Power2(20) == 1024 * Power2(10);
    assert Power2(30) == 1024 * Power2(20);
    assert Power2(40) == 1024 * Power2(30);
    assert Power2(50) == 1024 * Power2(40);
    assert Power2(60) == 1024 * Power2(50);
  }

  /** Whichever constructor stores it, a number gets exactly the flags of the ranges it lies in. */
  lemma {:induction false} ConstructorsCanonical(n: int)
    ensures InInt(n) ==> Canonical(OfInt(n))
    ensures InUint(n) ==> Canonical(OfUint(n))
    ensures InInt64(n) ==> Canonical(OfInt64(n))
    ensures InUint64(n) ==> Canonical(OfUint64(n))
    ensures InInt(n) <==> -0x8000_0000 <= n <= 0x7FFF_FFFF
    ensures InUint(n) <==> 0 <= n <= 0xFFFF_FFFF
    ensures InInt64(n) <==> -0x8000_0000_0000_0000 <= n <= 0x7FFF_FFFF_FFFF_FFFF
    ensures InUint64(n) <==> 0 <= n <= 0xFFFF_FFFF_FFFF_FFFF
  {
    hide HighBitsClear;
    if n >= 0 {
      MaskTests(n);
    }
  }

  /** What the mask tests of the constructors find out. */
  lemma {:induction false} MaskTests(u: nat)
    ensures HighBitsClear(u, 31) <==> u < INT32_MAGNITUDE
    ensures HighBitsClear(u, 32) <==> u <= UINT32_MAX
    ensures HighBitsClear(u, 63) <==> u < INT64_MAGNITUDE
  {
    hide Power2;
    Powers();
  }

  lemma {:induction false} CanonicalUnique(a: Number, b: Number)
    requires Canonical(a) && Canonical(b) && a.value == b.value
    ensures a == b
  {
  }

  // ----- values

  datatype Value =
    | NullValue
    | BoolValue(b: bool)
    | NumberValue(n: Number)
    | DoubleValue(text: Text)
    | StringValue(s: Text)
    | ArrayValue(elements: seq<Value>)
    | ObjectValue(members: seq<Member>)

  datatype Member = Member(name: Text, value: Value)

  /** Event streams with their nesting made explicit. */
  datatype EventTree =
    | Leaf(e: Event)
    | ArrayTree(parts: seq<EventTree>)
    | ObjectTree(fields: seq<Field>)

  datatype Field = Field(key: Text, tree: EventTree)

  /** The events of a leaf: a scalar inside the range of its type. */
  predicate ScalarEvent(e: Event) {
    match e
    case Null | Bool(_) | Double(_) | String(_) => true
    case Int(i) => InInt(i)
    case Uint(u) => InUint(u)
    case Int64(i) => InInt64(i)
    case Uint64(u) => InUint64(u)
    case _ => false
  }

  predicate WellFormedTree(t: EventTree) {
    match t
    case Leaf(e) => ScalarEvent(e)
    case ArrayTree(parts) => |parts| < SIZE_TYPE_LIMIT && forall i | 0 <= i < |parts| :: WellFormedTree(parts[i])
    case ObjectTree(fields) =>
      |fields| < SIZE_TYPE_LIMIT && forall i | 0 <= i < |fields| :: WellFormedTree(fields[i].tree)
  }

  function Flatten(t: EventTree): seq<Event>
    decreases t, 0
  {
    match t
    case Leaf(e) => [e]
    case ArrayTree(parts) => [StartArray] + FlattenParts(parts) + [EndArray(|parts|)]
    case ObjectTree(fields) => [StartObject] + FlattenFields(fields) + [EndObject(|fields|)]
  }

  function FlattenParts(parts: seq<EventTree>): seq<Event>
    decreases parts, 1
  {
    if parts == [] then []
    else FlattenParts(parts[..|parts| - 1]) + Flatten(parts[|parts| - 1])
  }

  function FlattenFields(fields: seq<Field>): seq<Event>
    decreases fields, 1
  {
    if fields == [] then []
    else
      var f := fields[|fields| - 1];
      FlattenFields(fields[..|fields| - 1]) + [Key(f.key)] + Flatten(f.tree)
  }

  // ----- the handlers

  function ScalarValue(e: Event): Value
    requires ScalarEvent(e)
  {
    match e
    case Null => NullValue
    case Bool(b) => BoolValue(b)
    case Int(i) => NumberValue(OfInt(i))
    case Uint(u) => NumberValue(OfUint(u))
    case Int64(i) => NumberValue(OfInt64(i))
    case Uint64(u) => NumberValue(OfUint64(u))
    case Double(text) => DoubleValue(text)
    case String(s) => StringValue(s)
  }

  /** The value an event tree denotes. */
  function Denote(t: EventTree): Value
    requires WellFormedTree(t)
  {
    match t
    case Leaf(e) => ScalarValue(e)
    case ArrayTree(parts) =>
      ArrayValue(seq(|parts|, i requires 0 <= i < |parts| => Denote(parts[i])))
    case ObjectTree(fields) =>
      ObjectValue(seq(|fields|, i requires 0 <= i < |fields| => Member(fields[i].key, Denote(fields[i].tree))))
  }

  /** Stack slots read as name and value pairs, names being strings. */
  predicate PairsUp(slots: seq<Value>) {
    && |slots| % 2 == 0
    && forall i | 0 <= i < |slots| / 2 :: slots[2 * i].StringValue?
  }

  function Pairs(slots: seq<Value>): (r: seq<Member>)
    requires PairsUp(slots)
    ensures |r| == |slots| / 2
  {
    seq(|slots| / 2, i requires 0 <= i < |slots| / 2 => Member(slots[2 * i].s, slots[2 * i + 1]))
  }

  /** One handler call on the document's stack; nothing when it would pop more than the stack holds. */
  function Handle(stack: seq<Value>, e: Event): Option<seq<Value>> {
    match e
    case StartObject => Some(stack + [ObjectValue([])])
    case StartArray => Some(stack + [ArrayValue([])])
    case Key(s) => Some(stack + [StringValue(s)])
    case EndObject(n) =>
      if |stack| < 2 * n + 1 then None
      else
        var k := |stack| - 2 * n;
        if PairsUp(stack[k..]) then Some(stack[..k - 1] + [ObjectValue(Pairs(stack[k..]))]) else None
    case EndArray(n) =>
      if |stack| < n + 1 then None
      else
        var k := |stack| - n;
        Some(stack[..k - 1] + [ArrayValue(stack[k..])])
    case _ => if ScalarEvent(e) then Some(stack + [ScalarValue(e)]) else None
  }

  function HandleAll(stack: seq<Value>, es: seq<Event>): Option<seq<Value>> {
    if es == [] then Some(stack)
    else
      var s := HandleAll(stack, es[..|es| - 1]);
      if s.None? then None else Handle(s.value, es[|es| - 1])
  }

  lemma {:induction false} HandleAllAppend(stack: seq<Value>, a: seq<Event>, b: seq<Event>)
    ensures HandleAll(stack, a + b)
         == (var s := HandleAll(stack, a); if s.None? then None else HandleAll(s.value, b))
    decreases |b|
  {
    if b == [] {
      assert a + b == a;
    } else {
      var c := a + b;
      assert c[..|c| - 1] == a + b[..|b| - 1];
      HandleAllAppend(stack, a, b[..|b| - 1]);
    }
  }

  /**
   * The stack machine builds exactly the value the events denote, on top of an untouched stack:
   * it never pops below the container being closed, whatever lies below.
   */
  lemma {:induction false} HandlersBuild(stack: seq<Value>, t: EventTree)
    requires WellFormedTree(t)
    ensures HandleAll(stack, Flatten(t)) == Some(stack + [Denote(t)])
    decreases t, 0
  {
    match t {
      case Leaf(e) =>
        OneEvent(stack, e);
      case ArrayTree(parts) =>
        PartsBuild(stack + [ArrayValue([])], parts);
        ArrayBuilds(stack, parts);
      case ObjectTree(fields) =>
        FieldsBuild(stack + [ObjectValue([])], fields);
        ObjectBuilds(stack, fields);
    }
  }

  lemma {:induction false} ArrayBuilds(stack: seq<Value>, parts: seq<EventTree>)
    requires forall i | 0 <= i < |parts| :: WellFormedTree(parts[i])
    requires HandleAll(stack + [ArrayValue([])], FlattenParts(parts))
      == Some(stack + [ArrayValue([])] + Denotations(parts))
    ensures HandleAll(stack, [StartArray] + FlattenParts(parts) + [EndArray(|parts|)])
         == Some(stack + [ArrayValue(Denotations(parts))])
  {
    ArrayCloses(stack, Denotations(parts));
    Bracketed(stack, StartArray, FlattenParts(parts), EndArray(|parts|));
  }

  lemma {:induction false} ObjectBuilds(stack: seq<Value>, fields: seq<Field>)
    requires WellFormedTree(ObjectTree(fields))
    requires HandleAll(stack + [ObjectValue([])], FlattenFields(fields))
      == Some(stack + [ObjectValue([])] + Slots(fields))
    ensures HandleAll(stack, [StartObject] + FlattenFields(fields) + [EndObject(|fields|)])
         == Some(stack + [Denote(ObjectTree(fields))])
  {
    ObjectCloses(stack, Slots(fields));
    PairsOfSlots(fields);
    Bracketed(stack, StartObject, FlattenFields(fields), EndObject(|fields|));
  }

  lemma {:induction false} PairsOfSlots(fields: seq<Field>)
    requires WellFormedTree(ObjectTree(fields))
    ensures ObjectValue(Pairs(Slots(fields))) == Denote(ObjectTree(fields))
  {
    var slots := Slots(fields);
    var members := Denote(ObjectTree(fields)).members;
    forall i | 0 <= i < |fields| ensures Pairs(slots)[i] == members[i] {
      assert slots[2 * i] == StringValue(fields[i].key);
      assert slots[2 * i + 1] == Denote(fields[i].tree);
    }
    assert Pairs(slots) == members;
  }

  lemma {:induction false} ArrayCloses(stack: seq<Value>, values: seq<Value>)
    ensures Handle(stack + [ArrayValue([])] + values, EndArray(|values|)) == Some(stack + [ArrayValue(values)])
  {
    var full := stack + [ArrayValue([])] + values;
    assert full[|full| - |values|..] == values;
    assert full[..|full| - |values| - 1] == stack;
  }

  lemma {:induction false} ObjectCloses(stack: seq<Value>, slots: seq<Value>)
    requires PairsUp(slots)
    ensures Handle(stack + [ObjectValue([])] + slots, EndObject(|slots| / 2))
      == Some(stack + [ObjectValue(Pairs(slots))])
  {
    var full := stack + [ObjectValue([])] + slots;
    assert full[|full| - 2 * (|slots| / 2)..] == slots;
    assert full[..|full| - |slots| - 1] == stack;
  }

  lemma {:induction false} Bracketed(stack: seq<Value>, open: Event, es: seq<Event>, close: Event)
    ensures HandleAll(stack, [open] + es + [close]) ==
      (var s1 := Handle(stack, open);
       if s1.None? then None
       else
         var s2 := HandleAll(s1.value, es);
         if s2.None? then None else Handle(s2.value, close))
  {
    OneEvent(stack, open);
    HandleAllAppend(stack, [open], es);
    HandleAllAppend(stack, [open] + es, [close]);
    var s := HandleAll(stack, [open] + es);
    if s.Some? {
      OneEvent(s.value, close);
    }
  }

  lemma {:induction false} OneEvent(stack: seq<Value>, e: Event)
    ensures HandleAll(stack, [e]) == Handle(stack, e)
  {
    assert [e][..0] == [];
    assert HandleAll(stack, []) == Some(stack);
  }

  function Denotations(parts: seq<EventTree>): (r: seq<Value>)
    requires forall i | 0 <= i < |parts| :: WellFormedTree(parts[i])
    ensures |r| == |parts|
  {
    seq(|parts|, i requires 0 <= i < |parts| => Denote(parts[i]))
  }

  /** The stack slots of an object's members: names at even places, values at odd ones. */
  function Slots(fields: seq<Field>): (r: seq<Value>)
    requires forall i | 0 <= i < |fields| :: WellFormedTree(fields[i].tree)
    ensures |r| == 2 * |fields| && PairsUp(r)
  {
    seq(2 * |fields|, i requires 0 <= i < 2 * |fields| =>
      if i % 2 == 0 then StringValue(fields[i / 2].key) else Denote(fields[i / 2].tree))
  }

  lemma {:induction false} PartsBuild(stack: seq<Value>, parts: seq<EventTree>)
    requires forall i | 0 <= i < |parts| :: WellFormedTree(parts[i])
    ensures HandleAll(stack, FlattenParts(parts)) == Some(stack + Denotations(parts))
    decreases parts, 1
  {
    hide Handle, HandleAll, Denote, Flatten, WellFormedTree, Denotations;
    if parts == [] {
      NothingDenoted(stack);
    } else {
      var init, last := parts[..|parts| - 1], parts[|parts| - 1];
      PartsBuild(stack, init);
      HandlersBuild(stack + Denotations(init), last);
      HandleAllAppend(stack, FlattenParts(init), Flatten(last));
      LastDenotation(parts);
      assert stack + Denotations(init) + [Denote(last)] == stack + (Denotations(init) + [Denote(last)]);
    }
  }

  lemma {:induction false} NothingDenoted(stack: seq<Value>)
    ensures HandleAll(stack, FlattenParts([])) == Some(stack + Denotations([]))
  {
    assert stack + Denotations([]) == stack;
  }

  lemma {:induction false} LastDenotation(parts: seq<EventTree>)
    requires parts != [] && forall i | 0 <= i < |parts| :: WellFormedTree(parts[i])
    ensures Denotations(parts) == Denotations(parts[..|parts| - 1]) + [Denote(parts[|parts| - 1])]
  {
    hide Denote, WellFormedTree;
  }

  lemma {:induction false} FieldsBuild(stack: seq<Value>, fields: seq<Field>)
    requires forall i | 0 <= i < |fields| :: WellFormedTree(fields[i].tree)
    ensures HandleAll(stack, FlattenFields(fields)) == Some(stack + Slots(fields))
    decreases fields, 1
  {
    hide Handle, HandleAll, Denote, Flatten, WellFormedTree, Slots;
    if fields == [] {
      NothingSlotted(stack);
    } else {
      var init, last := fields[..|fields| - 1], fields[|fields| - 1];
      FieldsBuild(stack, init);
      HandlersBuild(stack + Slots(init) + [StringValue(last.key)], last.tree);
      FieldAppends(stack, FlattenFields(init), last, Slots(init));
      LastSlots(fields);
      assert stack + Slots(init) + [StringValue(last.key)] + [Denote(last.tree)]
          == stack + (Slots(init) + [StringValue(last.key), Denote(last.tree)]);
    }
  }

  lemma {:induction false} NothingSlotted(stack: seq<Value>)
    ensures HandleAll(stack, FlattenFields([])) == Some(stack + Slots([]))
  {
    assert stack + Slots([]) == stack;
  }

  lemma {:induction false} FieldAppends(stack: seq<Value>, es: seq<Event>, last: Field, slots: seq<Value>)
    requires HandleAll(stack, es) == Some(stack + slots)
    ensures HandleAll(stack, es + [Key(last.key)] + Flatten(last.tree))
         == HandleAll(stack + slots + [StringValue(last.key)], Flatten(last.tree))
  {
    OneEvent(stack + slots, Key(last.key));
    HandleAllAppend(stack, es, [Key(last.key)]);
    HandleAllAppend(stack, es + [Key(last.key)], Flatten(last.tree));
  }

  lemma {:induction false} LastSlots(fields: seq<Field>)
    requires fields != [] && forall i | 0 <= i < |fields| :: WellFormedTree(fields[i].tree)
    ensures
      var last := fields[|fields| - 1];
      Slots(fields) == Slots(fields[..|fields| - 1]) + [StringValue(last.key), Denote(last.tree)]
  {
    hide Denote, WellFormedTree;
  }

  // ----- Accept

  /** The integer event Accept sends for a number: the first getter in its order that applies. */
  function NumberEventOf(n: Number): Event {
    if n.isInt then Int(n.value)
    else if n.isUint then Uint(n.value)
    else if n.isInt64 then Int64(n.value)
    else Uint64(n.value)
  }

  function AcceptTree(v: Value): EventTree {
    match v
    case NullValue => Leaf(Null)
    case BoolValue(b) => Leaf(Bool(b))
    case NumberValue(n) => Leaf(NumberEventOf(n))
    case DoubleValue(text) => Leaf(Double(text))
    case StringValue(s) => Leaf(String(s))
    case ArrayValue(elements) => ArrayTree(seq(|elements|, i requires 0 <= i < |elements| => AcceptTree(elements[i])))
    case ObjectValue(members) =>
      ObjectTree(seq(|members|, i requires 0 <= i < |members| => Field(members[i].name, AcceptTree(members[i].value))))
  }

  /** Values as the document can hold them: canonical numbers, 32-bit sizes and string lengths. */
  predicate WellFormed(v: Value) {
    match v
    case NumberValue(n) => Canonical(n)
    case StringValue(s) => |s| < SIZE_TYPE_LIMIT
    case ArrayValue(elements) =>
      |elements| < SIZE_TYPE_LIMIT && forall i | 0 <= i < |elements| :: WellFormed(elements[i])
    case ObjectValue(members) =>
      |members| < SIZE_TYPE_LIMIT
      && forall i | 0 <= i < |members| :: |members[i].name| < SIZE_TYPE_LIMIT && WellFormed(members[i].value)
    case _ => true
  }

  /** Accept replayed into a document is a deep copy: the same value comes out, flags included. */
  lemma {:induction false} AcceptCopies(v: Value)
    requires WellFormed(v)
    ensures WellFormedTree(AcceptTree(v))
    ensures Denote(AcceptTree(v)) == v
  {
    match v {
      case NumberValue(n) =>
        ConstructorsCanonical(n.value);
      case ArrayValue(elements) =>
        forall i | 0 <= i < |elements|
          ensures WellFormedTree(AcceptTree(elements[i])) && Denote(AcceptTree(elements[i])) == elements[i]
        {
          AcceptCopies(elements[i]);
        }
        assert Denote(AcceptTree(v)).elements == elements;
      case ObjectValue(members) =>
        forall i | 0 <= i < |members|
          ensures WellFormedTree(AcceptTree(members[i].value))
            && Denote(AcceptTree(members[i].value)) == members[i].value
        {
          AcceptCopies(members[i].value);
        }
        assert Denote(AcceptTree(v)).members == members;
      case _ =>
    }
  }

  lemma {:induction false} DeepCopy(v: Value)
    requires WellFormed(v)
    ensures HandleAll([], Flatten(AcceptTree(v))) == Some([v])
  {
    AcceptCopies(v);
    HandlersBuild([], AcceptTree(v));
    assert [] + [v] == [v];
  }
}
