/** The two writers (writer.h, prettywriter.h): their step on each event, and the text of a value. */
module Writer {
  import opened Bytes
  import opened Events
  import opened Document
  import opened Options

  // ----- tokens

  const NULL_TEXT: Text := [110, 117, 108, 108]
  const TRUE_TEXT: Text := [116, 114, 117, 101]
  const FALSE_TEXT: Text := [102, 97, 108, 115, 101]

  /** Canonical decimal digits of a natural number. */
  function Digits(n: nat): (s: Text)
    ensures |s| >= 1
  {
    if n < 10 then [48 + n] else Digits(n / 10) + [48 + n % 10]
  }

  function Decimal(n: int): Text {
    if n < 0 then [MINUS] + Digits(-n) else Digits(n)
  }

  /** The letter behind the backslash for a byte the writer escapes, or 0. */
  function EscapeLetter(c: byte): byte {
    if c == QUOTE then QUOTE
    else if c == BACKSLASH then BACKSLASH
    else if c == 8 then 98
    else if c == 9 then 116
    else if c == 10 then 110
    else if c == 12 then 102
    else if c == 13 then 114
    else if c < 0x20 then 117
    else 0
  }

  function EscapeByte(c: byte): Text {
    var e := EscapeLetter(c);
    if e == 0 then [c]
    else if e == 117 then [BACKSLASH, 117, 48, 48, HexDigit(c / 16), HexDigit(c % 16)]
    else [BACKSLASH, e]
  }

  function EscapeFrom(s: Text, i: nat): Text
    requires i <= |s|
    decreases |s| - i
  {
    if i == |s| then [] else EscapeByte(s[i]) + EscapeFrom(s, i + 1)
  }

  /** A string literal, as WriteString puts it for a Unicode target. */
  function Quoted(s: Text): Text {
    [QUOTE] + EscapeFrom(s, 0) + [QUOTE]
  }

  // ----- the room for literals

  /** The bytes reserved for each character: room for one \uXXXX, or for two. */
  function EscapeRoom(supportUnicode: bool): nat {
    if supportUnicode then 6 else 12
  }

  /** What is reserved for a literal; the sum is one of 32-bit words. */
  function Reserved(length: nat, supportUnicode: bool): nat {
    (2 + length * EscapeRoom(supportUnicode)) % SIZE_TYPE_LIMIT
  }

  /** A literal is no longer than what is reserved for it. */
  predicate LiteralFits(s: Text) {
    |Quoted(s)| <= Reserved(|s|, true)
  }

  predicate LiteralsFit(v: Value) {
    match v
    case StringValue(s) => LiteralFits(s)
    case ArrayValue(elements) => forall i | 0 <= i < |elements| :: LiteralsFit(elements[i])
    case ObjectValue(members) => forall i | 0 <= i < |members| :: MemberFits(members[i])
    case _ => true
  }

  predicate MemberFits(m: Member) {
    LiteralFits(m.name) && LiteralsFit(m.value)
  }

  /** A literal that fits is short enough for the reader. */
  lemma {:induction false} FittingShort(s: Text)
    requires LiteralFits(s)
    ensures |s| < STRING_LIMIT
  {
    hide EscapeFrom, Reserved;
    EscapeNoShorter(s, 0);
    ReservedBound(|s|);
  }

  lemma {:induction false} ReservedBound(n: nat)
    ensures Reserved(n, true) < SIZE_TYPE_LIMIT
  {
  }

  lemma {:induction false} EscapeNoShorter(s: Text, i: nat)
    requires i <= |s|
    ensures |EscapeFrom(s, i)| >= |s| - i
    decreases |s| - i
  {
    if i < |s| {
      EscapeNoShorter(s, i + 1);
    }
  }

  // ----- layout

  /** Compact output, or indented output with its two array formats. */
  datatype Style = Compact | Pretty(indentChar: byte, indentCharCount: nat, singleLineArray: bool)

  predicate ValidStyle(style: Style) {
    style.Pretty? ==> IsWhitespace(style.indentChar)
  }

  function Indent(style: Style, depth: nat): Text {
    match style
    case Compact => []
    case Pretty(c, n, _) => seq(depth * n, _ => c)
  }

  function LineBreak(style: Style, depth: nat): Text {
    if style.Compact? then [] else [NEWLINE] + Indent(style, depth)
  }

  /** One nesting level: how many values it has seen, names and values counted alike in an object. */
  datatype Level = Level(valueCount: nat, inArray: bool)

  /** What is put before the next value of a level, `depth` levels being open. */
  function PrefixText(style: Style, level: Level, depth: nat): Text {
    if level.inArray then
      var comma := if level.valueCount > 0 then [COMMA] else [];
      match style
      case Compact => comma
      case Pretty(_, _, singleLine) =>
        if singleLine then comma + (if level.valueCount > 0 then [SPACE] else [])
        else comma + LineBreak(style, depth)
    else if level.valueCount % 2 == 1 then
      if style.Compact? then [COLON] else [COLON, SPACE]
    else (if level.valueCount > 0 then [COMMA] else []) + LineBreak(style, depth)
  }

  /** What is put before a closing bracket, `depth` levels being left open. */
  function CloseText(style: Style, level: Level, depth: nat): Text {
    if level.valueCount == 0 || (level.inArray && style.Pretty? && style.singleLineArray) then []
    else LineBreak(style, depth)
  }

  // ----- the writer as a machine on events

  datatype WriterState = WriterState(out: Text, levels: seq<Level>, hasRoot: bool)

  const INITIAL := WriterState([], [], false)

  /** Prefix: separators, the level's count, and the single root. */
  function Prefix(style: Style, w: WriterState): WriterState {
    if w.levels == [] then w.(hasRoot := true)
    else
      var top := w.levels[|w.levels| - 1];
      w.(out := w.out + PrefixText(style, top, |w.levels|),
         levels := w.levels[|w.levels| - 1 := top.(valueCount := top.valueCount + 1)])
  }

  /** The assertions of Prefix: one root only, and names at the even places of an object. */
  predicate PrefixAllowed(w: WriterState, isString: bool) {
    if w.levels == [] then !w.hasRoot
    else
      var top := w.levels[|w.levels| - 1];
      top.inArray || top.valueCount % 2 == 1 || isString
  }

  function ScalarText(e: Event): Text {
    match e
    case Null => NULL_TEXT
    case Bool(b) => if b then TRUE_TEXT else FALSE_TEXT
    case Int(i) => Decimal(i)
    case Uint(u) => Decimal(u)
    case Int64(i) => Decimal(i)
    case Uint64(u) => Decimal(u)
    case Double(text) => text
    case String(s) => Quoted(s)
    case Key(s) => Quoted(s)
    case _ => []
  }

  /** The end of a container: its level must be on top, and an object must not end behind a name. */
  function CloseLevel(style: Style, w: WriterState, isArray: bool): Option<WriterState> {
    if w.levels == [] then None
    else
      var top := w.levels[|w.levels| - 1];
      var rest := w.levels[..|w.levels| - 1];
      if top.inArray == isArray && (isArray || top.valueCount % 2 == 0) then
        var bracket := if isArray then RIGHT_BRACKET else RIGHT_BRACE;
        Some(w.(out := w.out + CloseText(style, top, |rest|) + [bracket], levels := rest))
      else None
  }

  /** One handler call on a writer; nothing when it breaks one of the writer's assertions. */
  function Step(style: Style, w: WriterState, e: Event): Option<WriterState> {
    match e
    case StartObject | StartArray =>
      if !PrefixAllowed(w, false) then None
      else
        var p := Prefix(style, w);
        Some(p.(out := p.out + [if e.StartArray? then LEFT_BRACKET else LEFT_BRACE],
                levels := p.levels + [Level(0, e.StartArray?)]))
    case EndObject(_) => CloseLevel(style, w, false)
    case EndArray(_) => CloseLevel(style, w, true)
    case _ =>
      if !PrefixAllowed(w, e.String? || e.Key?) then None
      else
        var p := Prefix(style, w);
        Some(p.(out := p.out + ScalarText(e)))
  }

  function Run(style: Style, w: WriterState, es: seq<Event>): Option<WriterState> {
    if es == [] then Some(w)
    else
      var s := Run(style, w, es[..|es| - 1]);
      if s.None? then None else Step(style, s.value, es[|es| - 1])
  }

  lemma {:induction false} RunAppend(style: Style, w: WriterState, a: seq<Event>, b: seq<Event>)
    ensures Run(style, w, a + b)
         == (var s := Run(style, w, a); if s.None? then None else Run(style, s.value, b))
    decreases |b|
  {
    hide Step;
    if b == [] {
      assert a + b == a;
    } else {
      var c := a + b;
      assert c[..|c| - 1] == a + b[..|b| - 1];
      RunAppend(style, w, a, b[..|b| - 1]);
    }
  }

  lemma {:induction false} RunOne(style: Style, w: WriterState, e: Event)
    ensures Run(style, w, [e]) == Step(style, w, e)
  {
    assert [e][..0] == [];
    assert Run(style, w, []) == Some(w);
  }

  // ----- the text of a value

  /** The text of an event tree, `depth` levels being open around it. */
  function Print(style: Style, t: EventTree, depth: nat): (s: Text)
    decreases t, 0
  {
    match t
    case Leaf(e) => ScalarText(e)
    case ArrayTree(parts) => [LEFT_BRACKET] + PrintParts(style, parts, 0, depth)
    case ObjectTree(fields) => [LEFT_BRACE] + PrintFields(style, fields, 0, depth)
  }

  /** The rest of an array from part `i` on, closing bracket included. */
  function PrintParts(style: Style, parts: seq<EventTree>, i: nat, depth: nat): Text
    requires i <= |parts|
    decreases parts, |parts| - i
  {
    if i == |parts| then CloseText(style, Level(i, true), depth) + [RIGHT_BRACKET]
    else
      PrefixText(style, Level(i, true), depth + 1) + Print(style, parts[i], depth + 1)
      + PrintParts(style, parts, i + 1, depth)
  }

  /** The rest of an object from member `i` on, closing brace included. */
  function PrintFields(style: Style, fields: seq<Field>, i: nat, depth: nat): Text
    requires i <= |fields|
    decreases fields, |fields| - i
  {
    if i == |fields| then CloseText(style, Level(2 * i, false), depth) + [RIGHT_BRACE]
    else
      PrefixText(style, Level(2 * i, false), depth + 1) + Quoted(fields[i].key)
      + PrefixText(style, Level(2 * i + 1, false), depth + 1) + Print(style, fields[i].tree, depth + 1)
      + PrintFields(style, fields, i + 1, depth)
  }

  /** A scalar event that is a leaf of a tree, so neither a name nor a bracket. */
  predicate Printable(t: EventTree) {
    match t
    case Leaf(e) => ScalarEvent(e)
    case ArrayTree(parts) => forall i | 0 <= i < |parts| :: Printable(parts[i])
    case ObjectTree(fields) => forall i | 0 <= i < |fields| :: Printable(fields[i].tree)
  }

  /**
   * A writer driven by a tree's events never breaks an assertion, appends exactly the tree's text
   * behind the separator its place calls for, and is back at its level one value further.
   */
  lemma {:induction false} WriterPrints(style: Style, w: WriterState, t: EventTree)
    requires Printable(t)
    requires PrefixAllowed(w, t.Leaf? && t.e.String?)
    ensures
      var p := Prefix(style, w);
      Run(style, w, Flatten(t)) == Some(p.(out := p.out + Print(style, t, |w.levels|)))
    decreases t, 0
  {
    match t {
      case Leaf(e) =>
        RunOne(style, w, e);
      case ArrayTree(parts) =>
        ArrayWrites(style, w, parts);
      case ObjectTree(fields) =>
        ObjectWrites(style, w, fields);
    }
  }

  /** FlattenParts cut at part `i`. */
  function PartsFrom(parts: seq<EventTree>, i: nat): seq<Event>
    requires i <= |parts|
    decreases |parts| - i
  {
    if i == |parts| then [] else Flatten(parts[i]) + PartsFrom(parts, i + 1)
  }

  lemma {:induction false} PartsFromStart(parts: seq<EventTree>, i: nat)
    requires i <= |parts|
    ensures FlattenParts(parts[..i]) + PartsFrom(parts, i) == FlattenParts(parts)
    decreases |parts| - i
  {
    if i == |parts| {
      assert parts[..i] == parts;
    } else {
      assert parts[..i + 1][..i] == parts[..i];
      PartsFromStart(parts, i + 1);
    }
  }

  function FieldsFrom(fields: seq<Field>, i: nat): seq<Event>
    requires i <= |fields|
    decreases |fields| - i
  {
    if i == |fields| then [] else [Key(fields[i].key)] + Flatten(fields[i].tree) + FieldsFrom(fields, i + 1)
  }

  lemma {:induction false} FieldsFromStart(fields: seq<Field>, i: nat)
    requires i <= |fields|
    ensures FlattenFields(fields[..i]) + FieldsFrom(fields, i) == FlattenFields(fields)
    decreases |fields| - i
  {
    if i == |fields| {
      assert fields[..i] == fields;
    } else {
      assert fields[..i + 1][..i] == fields[..i];
      FieldsFromStart(fields, i + 1);
    }
  }

  lemma {:induction false} ArrayWrites(style: Style, w: WriterState, parts: seq<EventTree>)
    requires Printable(ArrayTree(parts))
    requires PrefixAllowed(w, false)
    ensures
      var p := Prefix(style, w);
      Run(style, w, Flatten(ArrayTree(parts))) == Some(p.(out := p.out + Print(style, ArrayTree(parts), |w.levels|)))
    decreases parts, |parts| + 2
  {
    var rest := PartsFrom(parts, 0) + [EndArray(|parts|)];
    var open := LevelOpens(style, w, StartArray);
    PartsWrite(style, open, Prefix(style, w).levels, parts, 0, |parts|);
    Chain(style, w, [StartArray], rest, open, Run(style, open, rest));
    ArrayFlat(parts);
    Assoc(Prefix(style, w).out, [LEFT_BRACKET], PrintParts(style, parts, 0, |w.levels|));
  }

  lemma {:induction false} LevelOpens(style: Style, w: WriterState, e: Event) returns (open: WriterState)
    requires e.StartArray? || e.StartObject?
    requires PrefixAllowed(w, false)
    ensures Run(style, w, [e]) == Some(open)
    ensures
      var p := Prefix(style, w);
      open == WriterState(p.out + [if e.StartArray? then LEFT_BRACKET else LEFT_BRACE],
                          p.levels + [Level(0, e.StartArray?)], p.hasRoot)
  {
    RunOne(style, w, e);
    open := Step(style, w, e).value;
  }

  lemma {:induction false} ArrayFlat(parts: seq<EventTree>)
    ensures Flatten(ArrayTree(parts)) == [StartArray] + (PartsFrom(parts, 0) + [EndArray(|parts|)])
  {
    PartsFromStart(parts, 0);
    assert parts[..0] == [] && FlattenParts([]) == [];
  }

  lemma {:induction false} ObjectFlat(fields: seq<Field>)
    ensures Flatten(ObjectTree(fields)) == [StartObject] + (FieldsFrom(fields, 0) + [EndObject(|fields|)])
  {
    FieldsFromStart(fields, 0);
    assert fields[..0] == [] && FlattenFields([]) == [];
  }

  /** Two runs one after the other. */
  lemma {:induction false} Chain(style: Style, w: WriterState, a: seq<Event>, b: seq<Event>, mid: WriterState,
                                 end: Option<WriterState>)
    requires Run(style, w, a) == Some(mid) && Run(style, mid, b) == end
    ensures Run(style, w, a + b) == end
  {
    hide Step;
    RunAppend(style, w, a, b);
  }

  lemma {:induction false} Assoc(a: Text, b: Text, c: Text)
    ensures (a + b) + c == a + (b + c)
  {
  }

  lemma {:induction false} Assoc3(out: Text, a: Text, b: Text, c: Text)
    ensures out + a + b + c == out + (a + b + c)
  {
  }

  lemma {:induction false} PartsWrite(style: Style, w: WriterState, outer: seq<Level>, parts: seq<EventTree>, i: nat,
                                      n: nat)
    requires i <= |parts| && forall k | 0 <= k < |parts| :: Printable(parts[k])
    requires w.levels == outer + [Level(i, true)]
    ensures Run(style, w, PartsFrom(parts, i) + [EndArray(n)])
         == Some(w.(out := w.out + PrintParts(style, parts, i, |outer|), levels := outer))
    decreases parts, |parts| - i
  {
    hide Step, Print, PrefixText, CloseText, Flatten, Printable;
    if i == |parts| {
      assert PartsFrom(parts, i) + [EndArray(n)] == [EndArray(n)];
      LevelCloses(style, w, outer, Level(i, true), EndArray(n));
    } else {
      var rest := PartsFrom(parts, i + 1) + [EndArray(n)];
      var next := PartWritten(style, w, outer, parts, i);
      assert PartsFrom(parts, i) + [EndArray(n)] == Flatten(parts[i]) + rest;
      PartsWrite(style, next, outer, parts, i + 1, n);
      Chain(style, w, Flatten(parts[i]), rest, next, Run(style, next, rest));
      Assoc3(w.out, PrefixText(style, Level(i, true), |outer| + 1), Print(style, parts[i], |outer| + 1),
             PrintParts(style, parts, i + 1, |outer|));
    }
  }

  lemma {:induction false} PartWritten(style: Style, w: WriterState, outer: seq<Level>, parts: seq<EventTree>, i: nat)
      returns (next: WriterState)
    requires i < |parts| && Printable(parts[i])
    requires w.levels == outer + [Level(i, true)]
    ensures Run(style, w, Flatten(parts[i])) == Some(next)
    ensures next
      == WriterState(w.out + PrefixText(style, Level(i, true), |outer| + 1) + Print(style, parts[i], |outer| + 1),
                     outer + [Level(i + 1, true)], w.hasRoot)
    decreases parts, 0
  {
    hide Step, Print, PrefixText, Run, Flatten;
    WriterPrints(style, w, parts[i]);
    var p := Prefix(style, w);
    next := p.(out := p.out + Print(style, parts[i], |outer| + 1));
    assert w.levels[|w.levels| - 1] == Level(i, true);
    assert next.levels == outer + [Level(i + 1, true)];
  }

  lemma {:induction false} LevelCloses(style: Style, w: WriterState, outer: seq<Level>, top: Level, e: Event)
    requires w.levels == outer + [top]
    requires if top.inArray then e.EndArray? else e.EndObject? && top.valueCount % 2 == 0
    ensures
      var bracket := if top.inArray then RIGHT_BRACKET else RIGHT_BRACE;
      Run(style, w, [e]) == Some(w.(out := w.out + (CloseText(style, top, |outer|) + [bracket]), levels := outer))
  {
    RunOne(style, w, e);
    assert w.levels[|w.levels| - 1] == top;
    assert w.levels[..|w.levels| - 1] == outer;
    Assoc(w.out, CloseText(style, top, |outer|), [if top.inArray then RIGHT_BRACKET else RIGHT_BRACE]);
  }

  lemma {:induction false} ObjectWrites(style: Style, w: WriterState, fields: seq<Field>)
    requires Printable(ObjectTree(fields))
    requires PrefixAllowed(w, false)
    ensures
      var p := Prefix(style, w);
      Run(style, w, Flatten(ObjectTree(fields)))
        == Some(p.(out := p.out + Print(style, ObjectTree(fields), |w.levels|)))
    decreases fields, |fields| + 2
  {
    var rest := FieldsFrom(fields, 0) + [EndObject(|fields|)];
    var open := LevelOpens(style, w, StartObject);
    FieldsWrite(style, open, Prefix(style, w).levels, fields, 0, |fields|);
    Chain(style, w, [StartObject], rest, open, Run(style, open, rest));
    ObjectFlat(fields);
    Assoc(Prefix(style, w).out, [LEFT_BRACE], PrintFields(style, fields, 0, |w.levels|));
  }

  lemma {:induction false} FieldsWrite(style: Style, w: WriterState, outer: seq<Level>, fields: seq<Field>, i: nat,
                                       n: nat)
    requires i <= |fields| && forall k | 0 <= k < |fields| :: Printable(fields[k].tree)
    requires w.levels == outer + [Level(2 * i, false)]
    ensures Run(style, w, FieldsFrom(fields, i) + [EndObject(n)])
         == Some(w.(out := w.out + PrintFields(style, fields, i, |outer|), levels := outer))
    decreases fields, |fields| - i
  {
    hide Step, Print, PrefixText, CloseText, Flatten, Quoted, Printable;
    if i == |fields| {
      assert FieldsFrom(fields, i) + [EndObject(n)] == [EndObject(n)];
      LevelCloses(style, w, outer, Level(2 * i, false), EndObject(n));
    } else {
      var f := fields[i];
      var rest := FieldsFrom(fields, i + 1) + [EndObject(n)];
      var next := FieldWritten(style, w, outer, fields, i);
      assert FieldsFrom(fields, i) + [EndObject(n)] == ([Key(f.key)] + Flatten(f.tree)) + rest;
      FieldsWrite(style, next, outer, fields, i + 1, n);
      Chain(style, w, [Key(f.key)] + Flatten(f.tree), rest, next, Run(style, next, rest));
      Assoc5(w.out, PrefixText(style, Level(2 * i, false), |outer| + 1), Quoted(f.key),
             PrefixText(style, Level(2 * i + 1, false), |outer| + 1), Print(style, f.tree, |outer| + 1),
             PrintFields(style, fields, i + 1, |outer|));
    }
  }

  lemma {:induction false} Assoc5(out: Text, a: Text, b: Text, c: Text, d: Text, e: Text)
    ensures out + a + b + c + d + e == out + (a + b + c + d + e)
  {
  }

  lemma {:induction false} FieldWritten(style: Style, w: WriterState, outer: seq<Level>, fields: seq<Field>, i: nat)
      returns (next: WriterState)
    requires i < |fields| && Printable(fields[i].tree)
    requires w.levels == outer + [Level(2 * i, false)]
    ensures Run(style, w, [Key(fields[i].key)] + Flatten(fields[i].tree)) == Some(next)
    ensures next == WriterState(w.out + PrefixText(style, Level(2 * i, false), |outer| + 1) + Quoted(fields[i].key)
                                + PrefixText(style, Level(2 * i + 1, false), |outer| + 1)
                                + Print(style, fields[i].tree, |outer| + 1),
                                outer + [Level(2 * (i + 1), false)], w.hasRoot)
    decreases fields, 0
  {
    hide Step, Print, PrefixText, Run, Flatten, Quoted;
    var f := fields[i];
    var named := FieldNamed(style, w, outer, i, f.key);
    assert named.levels[|named.levels| - 1] == Level(2 * i + 1, false);
    WriterPrints(style, named, f.tree);
    var p := Prefix(style, named);
    next := p.(out := p.out + Print(style, f.tree, |outer| + 1));
    assert next.levels == outer + [Level(2 * (i + 1), false)];
    Chain(style, w, [Key(f.key)], Flatten(f.tree), named, Some(next));
  }

  lemma {:induction false} FieldNamed(style: Style, w: WriterState, outer: seq<Level>, i: nat, key: Text)
      returns (named: WriterState)
    requires w.levels == outer + [Level(2 * i, false)]
    ensures Run(style, w, [Key(key)]) == Some(named)
    ensures named.levels == outer + [Level(2 * i + 1, false)]
    ensures named
      == w.(out := w.out + PrefixText(style, Level(2 * i, false), |outer| + 1) + Quoted(key), levels := named.levels)
  {
    RunOne(style, w, Key(key));
    var p := Prefix(style, w);
    named := p.(out := p.out + Quoted(key));
  }

  /** Accept into a fresh writer puts out exactly the value's text. */
  lemma {:induction false} RootPrints(style: Style, t: EventTree)
    requires Printable(t)
    ensures Run(style, INITIAL, Flatten(t)) == Some(WriterState(Print(style, t, 0), [], true))
  {
    WriterPrints(style, INITIAL, t);
    assert [] + Print(style, t, 0) == Print(style, t, 0);
  }
}
