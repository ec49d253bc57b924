/** The two writers agree: indented output without its layout is the compact output. */
module Layout {
  import opened Bytes
  import opened Events
  import opened Document
  import opened Writer

  /** Where a scan over JSON text stands: outside a string, inside one, or behind a backslash in one. */
  datatype Mode = Outside | Inside | Escaped

  function After(mode: Mode, c: byte): Mode {
    match mode
    case Outside => if c == QUOTE then Inside else Outside
    case Inside => if c == QUOTE then Outside else if c == BACKSLASH then Escaped else Inside
    case Escaped => Inside
  }

  predicate IsLayout(mode: Mode, c: byte) { mode == Outside && IsWhitespace(c) }

  function Scan(mode: Mode, s: Text): Mode
    decreases |s|
  {
    if s == [] then mode else Scan(After(mode, s[0]), s[1..])
  }

  /** The text without the whitespace outside its strings. */
  function Strip(mode: Mode, s: Text): Text
    decreases |s|
  {
    if s == [] then []
    else (if IsLayout(mode, s[0]) then [] else [s[0]]) + Strip(After(mode, s[0]), s[1..])
  }

  lemma {:induction false} ScanAppend(mode: Mode, a: Text, b: Text)
    ensures Scan(mode, a + b) == Scan(Scan(mode, a), b)
    ensures Strip(mode, a + b) == Strip(mode, a) + Strip(Scan(mode, a), b)
    decreases |a|
  {
    hide After, IsLayout;
    if a == [] {
      assert a + b == b;
    } else {
      assert (a + b)[0] == a[0] && (a + b)[1..] == a[1..] + b;
      ScanAppend(After(mode, a[0]), a[1..], b);
    }
  }

  /** A text that starts and ends outside strings, and what is left of it. */
  ghost predicate Leaves(s: Text, left: Text) {
    Scan(Outside, s) == Outside && Strip(Outside, s) == left
  }

  lemma {:induction false} LeavesAppend(a: Text, x: Text, b: Text, y: Text)
    requires Leaves(a, x) && Leaves(b, y)
    ensures Leaves(a + b, x + y)
  {
    ScanAppend(Outside, a, b);
  }

  lemma {:induction false} LayoutVanishes(s: Text)
    requires forall i | 0 <= i < |s| :: IsWhitespace(s[i])
    ensures Leaves(s, [])
  {
    if s != [] {
      LayoutVanishes(s[1..]);
    }
  }

  predicate Plain(s: Text) {
    forall i | 0 <= i < |s| :: !IsWhitespace(s[i]) && s[i] != QUOTE
  }

  lemma {:induction false} PlainStays(s: Text)
    requires Plain(s)
    ensures Leaves(s, s)
  {
    if s != [] {
      PlainStays(s[1..]);
    }
  }

  // ----- tokens

  lemma {:induction false} PairStays(c: byte)
    ensures Scan(Inside, [BACKSLASH, c]) == Inside && Strip(Inside, [BACKSLASH, c]) == [BACKSLASH, c]
  {
    var s: Text := [BACKSLASH, c];
    assert s[1..] == [c] && s[1..][1..] == [];
    assert Scan(Escaped, [c]) == Scan(Inside, []) && Strip(Escaped, [c]) == [c] + Strip(Inside, []);
  }

  lemma {:induction false} EscapeStays(c: byte)
    ensures Scan(Inside, EscapeByte(c)) == Inside && Strip(Inside, EscapeByte(c)) == EscapeByte(c)
  {
    hide Scan, Strip;
    var e := EscapeByte(c);
    if |e| == 1 {
      InsideStays(e);
    } else {
      PairStays(e[1]);
      InsideStays(e[2..]);
      ScanAppend(Inside, e[..2], e[2..]);
      assert e[..2] + e[2..] == e && e[..2] == [BACKSLASH, e[1]];
    }
  }

  lemma {:induction false} InsideStays(s: Text)
    requires forall i | 0 <= i < |s| :: s[i] != QUOTE && s[i] != BACKSLASH
    ensures Scan(Inside, s) == Inside && Strip(Inside, s) == s
  {
    if s != [] {
      InsideStays(s[1..]);
    }
  }

  lemma {:induction false} EscapesStay(s: Text, i: nat)
    requires i <= |s|
    ensures Scan(Inside, EscapeFrom(s, i)) == Inside && Strip(Inside, EscapeFrom(s, i)) == EscapeFrom(s, i)
    decreases |s| - i
  {
    hide EscapeByte;
    if i < |s| {
      EscapeStays(s[i]);
      EscapesStay(s, i + 1);
      ScanAppend(Inside, EscapeByte(s[i]), EscapeFrom(s, i + 1));
    }
  }

  lemma {:induction false} QuotedStays(s: Text)
    ensures Leaves(Quoted(s), Quoted(s))
  {
    EscapesStay(s, 0);
    ScanAppend(Outside, [QUOTE], EscapeFrom(s, 0));
    ScanAppend(Outside, [QUOTE] + EscapeFrom(s, 0), [QUOTE]);
    assert Scan(Outside, [QUOTE]) == Inside && Scan(Inside, [QUOTE]) == Outside;
  }

  lemma {:induction false} DigitsPlain(n: nat)
    ensures Plain(Digits(n))
  {
    if n >= 10 {
      DigitsPlain(n / 10);
    }
  }

  lemma {:induction false} DecimalStays(n: int)
    ensures Leaves(Decimal(n), Decimal(n))
  {
    DigitsPlain(if n < 0 then 0 - n else n);
    PlainStays(Decimal(n));
  }

  /** Trees whose doubles are written without quotes or whitespace, as number texts are. */
  predicate PlainDoubles(t: EventTree) {
    match t
    case Leaf(e) => e.Double? ==> Plain(e.text)
    case ArrayTree(parts) => forall i | 0 <= i < |parts| :: PlainDoubles(parts[i])
    case ObjectTree(fields) => forall i | 0 <= i < |fields| :: PlainDoubles(fields[i].tree)
  }

  lemma {:induction false} ScalarStays(e: Event)
    requires e.Double? ==> Plain(e.text)
    ensures Leaves(ScalarText(e), ScalarText(e))
  {
    match e {
      case Int(n) => DecimalStays(n);
      case Uint(n) => DecimalStays(n);
      case Int64(n) => DecimalStays(n);
      case Uint64(n) => DecimalStays(n);
      case String(s) => QuotedStays(s);
      case Key(s) => QuotedStays(s);
      case _ => PlainStays(ScalarText(e));
    }
  }

  // ----- separators

  lemma {:induction false} BreakVanishes(style: Style, depth: nat)
    requires ValidStyle(style)
    ensures Leaves(LineBreak(style, depth), [])
  {
    LayoutVanishes(LineBreak(style, depth));
  }

  lemma {:induction false} PrefixStrips(style: Style, level: Level, depth: nat)
    requires ValidStyle(style)
    ensures Leaves(PrefixText(style, level, depth), PrefixText(Compact, level, 0))
  {
    hide Leaves, LineBreak;
    var comma := if level.valueCount > 0 then [COMMA] else [];
    NoBreak();
    assert comma + [] == comma;
    if level.inArray {
      CommaStrips(style, comma, depth);
    } else if level.valueCount % 2 == 1 {
      ColonStrips();
    } else {
      CommaStrips(style, comma, depth);
    }
  }

  lemma {:induction false} NoBreak()
    ensures LineBreak(Compact, 0) == []
  {
  }

  lemma {:induction false} CommaStrips(style: Style, comma: Text, depth: nat)
    requires ValidStyle(style) && (comma == [COMMA] || comma == [])
    ensures Leaves(comma, comma) && Leaves(comma + [SPACE], comma) && Leaves(comma + LineBreak(style, depth), comma)
    ensures Leaves(comma + [], comma)
  {
    hide Leaves, LineBreak;
    PlainStays(comma);
    LayoutVanishes([SPACE]);
    BreakVanishes(style, depth);
    LeavesAppend(comma, comma, [SPACE], []);
    LeavesAppend(comma, comma, LineBreak(style, depth), []);
    assert comma + [] == comma;
  }

  lemma {:induction false} ColonStrips()
    ensures Leaves([COLON], [COLON]) && Leaves([COLON, SPACE], [COLON])
  {
    hide Leaves;
    PlainStays([COLON]);
    LayoutVanishes([SPACE]);
    LeavesAppend([COLON], [COLON], [SPACE], []);
    assert [COLON] + [SPACE] == [COLON, SPACE] && [COLON] + [] == [COLON];
  }

  lemma {:induction false} CloseStrips(style: Style, level: Level, depth: nat, bracket: byte)
    requires ValidStyle(style) && (bracket == RIGHT_BRACKET || bracket == RIGHT_BRACE)
    ensures Leaves(CloseText(style, level, depth) + [bracket], CloseText(Compact, level, 0) + [bracket])
  {
    BreakVanishes(style, depth);
    LayoutVanishes([]);
    PlainStays([bracket]);
    LeavesAppend(CloseText(style, level, depth), [], [bracket], [bracket]);
    assert LineBreak(Compact, 0) == [];
  }

  // ----- trees

  lemma {:induction false} PrintStrips(style: Style, t: EventTree, depth: nat, flat: nat)
    requires ValidStyle(style) && PlainDoubles(t)
    ensures Leaves(Print(style, t, depth), Print(Compact, t, flat))
    decreases t, 0
  {
    hide Leaves;
    PlainStays([LEFT_BRACKET]);
    PlainStays([LEFT_BRACE]);
    match t {
      case Leaf(e) => ScalarStays(e);
      case ArrayTree(parts) =>
        PartsStrip(style, parts, 0, depth, flat);
        LeavesAppend([LEFT_BRACKET], [LEFT_BRACKET],
                     PrintParts(style, parts, 0, depth), PrintParts(Compact, parts, 0, flat));
      case ObjectTree(fields) =>
        FieldsStrip(style, fields, 0, depth, flat);
        LeavesAppend([LEFT_BRACE], [LEFT_BRACE],
                     PrintFields(style, fields, 0, depth), PrintFields(Compact, fields, 0, flat));
    }
  }

  lemma {:induction false} CompactDepth(level: Level, depth: nat)
    ensures PrefixText(Compact, level, depth) == PrefixText(Compact, level, 0)
    ensures CloseText(Compact, level, depth) == CloseText(Compact, level, 0)
  {
  }

  lemma {:induction false} PartsStrip(style: Style, parts: seq<EventTree>, i: nat, depth: nat, flat: nat)
    requires ValidStyle(style) && i <= |parts| && forall k | 0 <= k < |parts| :: PlainDoubles(parts[k])
    ensures Leaves(PrintParts(style, parts, i, depth), PrintParts(Compact, parts, i, flat))
    decreases parts, |parts| - i
  {
    hide Leaves, Print, PrefixText, CloseText, PlainDoubles;
    if i == |parts| {
      CompactDepth(Level(i, true), flat);
      CloseStrips(style, Level(i, true), depth, RIGHT_BRACKET);
    } else {
      var level := Level(i, true);
      CompactDepth(level, flat + 1);
      PrefixStrips(style, level, depth + 1);
      PrintStrips(style, parts[i], depth + 1, flat + 1);
      PartsStrip(style, parts, i + 1, depth, flat);
      var p, q := PrefixText(style, level, depth + 1), PrefixText(Compact, level, 0);
      var v, w := Print(style, parts[i], depth + 1), Print(Compact, parts[i], flat + 1);
      LeavesAppend(p, q, v, w);
      LeavesAppend(p + v, q + w, PrintParts(style, parts, i + 1, depth), PrintParts(Compact, parts, i + 1, flat));
    }
  }

  lemma {:induction false} FieldsStrip(style: Style, fields: seq<Field>, i: nat, depth: nat, flat: nat)
    requires ValidStyle(style) && i <= |fields| && forall k | 0 <= k < |fields| :: PlainDoubles(fields[k].tree)
    ensures Leaves(PrintFields(style, fields, i, depth), PrintFields(Compact, fields, i, flat))
    decreases fields, |fields| - i
  {
    hide Leaves, Print, PrefixText, CloseText, PlainDoubles, Quoted;
    if i == |fields| {
      CompactDepth(Level(2 * i, false), flat);
      CloseStrips(style, Level(2 * i, false), depth, RIGHT_BRACE);
    } else {
      var name, value := Level(2 * i, false), Level(2 * i + 1, false);
      var key := Quoted(fields[i].key);
      CompactDepth(name, flat + 1);
      CompactDepth(value, flat + 1);
      PrefixStrips(style, name, depth + 1);
      PrefixStrips(style, value, depth + 1);
      QuotedStays(fields[i].key);
      PrintStrips(style, fields[i].tree, depth + 1, flat + 1);
      FieldsStrip(style, fields, i + 1, depth, flat);
      var p, q := PrefixText(style, name, depth + 1), PrefixText(Compact, name, 0);
      var c, d := PrefixText(style, value, depth + 1), PrefixText(Compact, value, 0);
      var v, w := Print(style, fields[i].tree, depth + 1), Print(Compact, fields[i].tree, flat + 1);
      LeavesAppend(p, q, key, key);
      LeavesAppend(p + key, q + key, c, d);
      LeavesAppend(p + key + c, q + key + d, v, w);
      LeavesAppend(p + key + c + v, q + key + d + w,
                   PrintFields(style, fields, i + 1, depth), PrintFields(Compact, fields, i + 1, flat));
    }
  }

  /**
   * Deleting the whitespace outside strings from what the indenting writer puts out leaves the compact
   * writer's output.
   */
  lemma {:induction false} PrettyStripsToCompact(style: Style, t: EventTree)
    requires ValidStyle(style) && Printable(t) && PlainDoubles(t)
    ensures
      var pretty, compact := Run(style, INITIAL, Flatten(t)), Run(Compact, INITIAL, Flatten(t));
      pretty.Some? && compact.Some? && Strip(Outside, pretty.value.out) == compact.value.out
  {
    RootPrints(style, t);
    RootPrints(Compact, t);
    PrintStrips(style, t, 0, 0);
  }
}
