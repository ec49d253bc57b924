/** Where the indenting writer breaks lines and how far it indents, said of the text alone (prettywriter.h). */
module Indentation {
  import opened Bytes
  import opened Events
  import opened Document
  import opened Writer
  import opened Layout

  // ----- a scan of JSON text

  /** Where a scan stands: in or out of a string, the brackets open, and the last character that is no layout. */
  datatype Place = Place(mode: Mode, open: seq<byte>, last: byte)

  const START := Place(Outside, [], 0)

  predicate Opening(c: byte) { c == 91 || c == 123 }

  predicate Closing(c: byte) { c == 93 || c == 125 }

  /** The place behind a character that is no layout; a character of a string counts as a quote. */
  function Next(p: Place, c: byte): Place {
    if p.mode != Outside then Place(After(p.mode, c), p.open, 34)
    else if Opening(c) then Place(Outside, p.open + [c], c)
    else if Closing(c) && p.open != [] then Place(Outside, p.open[..|p.open| - 1], c)
    else Place(After(Outside, c), p.open, c)
  }

  function Walk(p: Place, s: Text): Place
    decreases |s|
  {
    if s == [] then p else Walk(Next(p, s[0]), s[1..])
  }

  // ----- the layout called for

  /** A line feed and `n` indentation characters for each level. */
  function Line(c: byte, n: nat, depth: nat): Text {
    [10] + seq(n * depth, _ => c)
  }

  /**
   * The layout between the last character and the next one, both outside strings: a space behind a
   * colon; a new line behind an opening bracket, behind a comma and before a closing bracket, indented
   * by the brackets open around what follows; but nothing inside empty brackets, and in an array that
   * is to stay on one line just a space behind a comma.
   */
  function Between(style: Style, p: Place, next: byte): Text
    requires style.Pretty?
  {
    var inArray := p.open != [] && p.open[|p.open| - 1] == 91;
    var depth := if Closing(next) && p.open != [] then |p.open| - 1 else |p.open|;
    if p.last == 58 then [32]
    else if Opening(p.last) && Closing(next) then []
    else if Opening(p.last) || p.last == 44 || Closing(next) then
      if inArray && style.singleLineArray then (if p.last == 44 then [32] else [])
      else Line(style.indentChar, style.indentCharCount, depth)
    else []
  }

  /** A text without layout, with the layout it calls for. */
  function Format(style: Style, p: Place, s: Text): Text
    requires style.Pretty?
    decreases |s|
  {
    if s == [] then []
    else (if p.mode == Outside then Between(style, p, s[0]) else []) + [s[0]] + Format(style, Next(p, s[0]), s[1..])
  }

  lemma {:induction false} FormatAppend(style: Style, p: Place, a: Text, b: Text)
    requires style.Pretty?
    ensures Format(style, p, a + b) == Format(style, p, a) + Format(style, Walk(p, a), b)
    ensures Walk(p, a + b) == Walk(Walk(p, a), b)
    decreases |a|
  {
    hide Between, Next;
    if a == [] {
      assert a + b == b;
    } else {
      assert (a + b)[1..] == a[1..] + b;
      FormatAppend(style, Next(p, a[0]), a[1..], b);
    }
  }

  // ----- pieces of a text

  /** From here `compact` is laid out as `pretty`, and leaves the scan at `q`. */
  ghost predicate Becomes(style: Style, p: Place, compact: Text, pretty: Text, q: Place)
    requires style.Pretty?
  {
    Format(style, p, compact) == pretty && Walk(p, compact) == q
  }

  lemma {:induction false} BecomesAppend(style: Style, p: Place, a: Text, x: Text, q: Place, b: Text, y: Text, r: Place)
    requires style.Pretty? && Becomes(style, p, a, x, q) && Becomes(style, q, b, y, r)
    ensures Becomes(style, p, a + b, x + y, r)
  {
    FormatAppend(style, p, a, b);
  }

  lemma {:induction false} OneBecomes(style: Style, p: Place, c: byte)
    requires style.Pretty? && p.mode == Outside
    ensures Becomes(style, p, [c], Between(style, p, c) + [c], Next(p, c))
  {
    assert [c][1..] == [];
    assert Format(style, Next(p, c), []) == [] && Walk(Next(p, c), []) == Next(p, c);
    assert Between(style, p, c) + [c] + [] == Between(style, p, c) + [c];
  }

  /** A value ended here: the next thing is a comma, a closing bracket or the end. */
  predicate Ended(c: byte) {
    !Opening(c) && c != 44 && c != 58
  }

  /** What is put before a value or a name at this place. */
  function Before(style: Style, p: Place): Text
    requires style.Pretty?
  {
    Between(style, p, 34)
  }

  /** A value or name is laid out as itself, but for what is put before it. */
  ghost predicate Stays(style: Style, p: Place, compact: Text, pretty: Text)
    requires style.Pretty?
  {
    var q := Walk(p, compact);
    && Format(style, p, compact) == Before(style, p) + pretty
    && q.mode == Outside && q.open == p.open && Ended(q.last)
  }

  /** Characters of numbers and words. */
  predicate Bare(s: Text) {
    forall i | 0 <= i < |s| :: Ended(s[i]) && !Closing(s[i]) && s[i] != 34
  }

  lemma {:induction false} BareWalks(style: Style, p: Place, s: Text)
    requires style.Pretty? && p.mode == Outside && Ended(p.last) && Bare(s)
    ensures Format(style, p, s) == s && Walk(p, s).mode == Outside && Walk(p, s).open == p.open
    ensures Ended(Walk(p, s).last)
    decreases |s|
  {
    if s != [] {
      BareWalks(style, Next(p, s[0]), s[1..]);
    }
  }

  lemma {:induction false} BareStays(style: Style, p: Place, s: Text)
    requires style.Pretty? && p.mode == Outside && Bare(s) && s != []
    ensures Stays(style, p, s, s)
  {
    BareWalks(style, Next(p, s[0]), s[1..]);
    assert [s[0]] + s[1..] == s;
    assert Between(style, p, s[0]) == Before(style, p);
  }

  lemma {:induction false} InsideWalks(style: Style, p: Place, s: Text)
    requires style.Pretty? && p.mode != Outside && p.last == 34 && Scan(p.mode, s) == Inside && StaysInside(p.mode, s)
    ensures Format(style, p, s) == s && Walk(p, s) == Place(Inside, p.open, 34)
    decreases |s|
  {
    if s != [] {
      InsideWalks(style, Next(p, s[0]), s[1..]);
    }
  }

  /** The scan does not leave the string. */
  predicate StaysInside(mode: Mode, s: Text)
    decreases |s|
  {
    mode != Outside && (s != [] ==> StaysInside(After(mode, s[0]), s[1..]))
  }

  lemma {:induction false} StaysAppend(mode: Mode, a: Text, b: Text)
    requires StaysInside(mode, a) && StaysInside(Scan(mode, a), b)
    ensures StaysInside(mode, a + b)
    decreases |a|
  {
    if a == [] {
      assert a + b == b;
    } else {
      assert (a + b)[1..] == a[1..] + b;
      StaysAppend(After(mode, a[0]), a[1..], b);
    }
  }

  lemma {:induction false} EscapeInside(c: byte)
    ensures StaysInside(Inside, EscapeByte(c))
  {
    var e := EscapeByte(c);
    if |e| == 1 {
      assert e[1..] == [];
    } else {
      PlainInside(e[2..]);
      assert e[1..][1..] == e[2..];
      assert StaysInside(Escaped, e[1..]);
    }
  }

  lemma {:induction false} PlainInside(s: Text)
    requires forall i | 0 <= i < |s| :: s[i] != QUOTE && s[i] != BACKSLASH
    ensures StaysInside(Inside, s)
    decreases |s|
  {
    if s != [] {
      PlainInside(s[1..]);
    }
  }

  lemma {:induction false} EscapesInside(s: Text, i: nat)
    requires i <= |s|
    ensures StaysInside(Inside, EscapeFrom(s, i))
    decreases |s| - i
  {
    hide EscapeByte;
    if i < |s| {
      EscapesInside(s, i + 1);
      EscapeInside(s[i]);
      EscapeStays(s[i]);
      StaysAppend(Inside, EscapeByte(s[i]), EscapeFrom(s, i + 1));
    }
  }

  lemma {:induction false} QuotedBecomes(style: Style, p: Place, s: Text)
    requires style.Pretty? && p.mode == Outside
    ensures Stays(style, p, Quoted(s), Quoted(s))
  {
    hide Format, Walk, Between, EscapeFrom, Scan;
    var inside := EscapeFrom(s, 0);
    var q := Place(Inside, p.open, 34);
    OneBecomes(style, p, 34);
    assert Next(p, 34) == Place(After(Outside, 34), p.open, 34);
    EscapesInside(s, 0);
    EscapesStay(s, 0);
    InsideWalks(style, q, inside);
    BecomesAppend(style, p, [34], Between(style, p, 34) + [34], q, inside, inside, q);
    ClosingQuote(style, q);
    var r := Place(Outside, p.open, 34);
    BecomesAppend(style, p, [34] + inside, Between(style, p, 34) + [34] + inside, q, [34], [34], r);
    assert Between(style, p, 34) + [34] + inside + [34] == Before(style, p) + Quoted(s);
  }

  lemma {:induction false} ClosingQuote(style: Style, q: Place)
    requires style.Pretty? && q.mode == Inside
    ensures Becomes(style, q, [34], [34], Place(Outside, q.open, 34))
  {
    var r := Next(q, 34);
    assert [34][1..] == [];
    assert Format(style, r, []) == [] && Walk(r, []) == r;
  }

  // ----- trees

  /** Trees whose doubles are written with such characters, as number texts are. */
  predicate BareDoubles(t: EventTree) {
    match t
    case Leaf(e) => e.Double? ==> Bare(e.text) && e.text != []
    case ArrayTree(parts) => forall i | 0 <= i < |parts| :: BareDoubles(parts[i])
    case ObjectTree(fields) => forall i | 0 <= i < |fields| :: BareDoubles(fields[i].tree)
  }

  lemma {:induction false} DigitsBare(n: nat)
    ensures Bare(Digits(n))
  {
    if n >= 10 {
      DigitsBare(n / 10);
    }
  }

  lemma {:induction false} ScalarBecomes(style: Style, p: Place, e: Event)
    requires style.Pretty? && p.mode == Outside && ScalarEvent(e) && (e.Double? ==> Bare(e.text) && e.text != [])
    ensures Stays(style, p, ScalarText(e), ScalarText(e))
  {
    if e.String? {
      QuotedBecomes(style, p, e.str);
    } else {
      if e.Int? || e.Uint? || e.Int64? || e.Uint64? {
        var n := if e.Int? then e.i else if e.Uint? then e.u else if e.Int64? then e.i64 else e.u64;
        DigitsBare(if n < 0 then -n else n);
      }
      BareStays(style, p, ScalarText(e));
    }
  }

  /** A separator character and what follows it up to the next value or name. */
  lemma {:induction false} SeparatorBecomes(style: Style, p: Place, c: byte)
    requires style.Pretty? && p.mode == Outside && Ended(p.last) && (c == 44 || c == 58)
    ensures Becomes(style, p, [c], [c], Place(Outside, p.open, c))
  {
    OneBecomes(style, p, c);
    assert [] + [c] == [c];
  }

  lemma {:induction false} PrintBecomes(style: Style, t: EventTree, p: Place, flat: nat)
    requires style.Pretty? && p.mode == Outside && Printable(t) && BareDoubles(t)
    ensures Stays(style, p, Print(Compact, t, flat), Print(style, t, |p.open|))
    decreases t, 0
  {
    hide Format, Walk, Between, Becomes;
    match t {
      case Leaf(e) => ScalarBecomes(style, p, e);
      case ArrayTree(parts) =>
        var q := Place(Outside, p.open + [91], 91);
        OpenBecomes(style, p, 91);
        PartsBecome(style, parts, 0, p.open, q, flat);
        Opened(style, p, 91, q, PrintParts(Compact, parts, 0, flat), PrintParts(style, parts, 0, |p.open|));
      case ObjectTree(fields) =>
        var q := Place(Outside, p.open + [123], 123);
        OpenBecomes(style, p, 123);
        FieldsBecome(style, fields, 0, p.open, q, flat);
        Opened(style, p, 123, q, PrintFields(Compact, fields, 0, flat), PrintFields(style, fields, 0, |p.open|));
    }
  }

  lemma {:induction false} OpenBecomes(style: Style, p: Place, c: byte)
    requires style.Pretty? && p.mode == Outside && Opening(c)
    ensures Becomes(style, p, [c], Before(style, p) + [c], Place(Outside, p.open + [c], c))
  {
    OneBecomes(style, p, c);
  }

  /** The rest of a container, which ends behind its closing bracket. */
  ghost predicate Closes(style: Style, q: Place, outer: seq<byte>, compact: Text, pretty: Text)
    requires style.Pretty?
  {
    var r := Walk(q, compact);
    Format(style, q, compact) == pretty && r.mode == Outside && r.open == outer && Ended(r.last)
  }

  lemma {:induction false} Opened(style: Style, p: Place, c: byte, q: Place, compact: Text, pretty: Text)
    requires style.Pretty? && Becomes(style, p, [c], Before(style, p) + [c], q)
    requires Closes(style, q, p.open, compact, pretty)
    ensures Stays(style, p, [c] + compact, [c] + pretty)
  {
    BecomesAppend(style, p, [c], Before(style, p) + [c], q, compact, pretty, Walk(q, compact));
    assert Before(style, p) + [c] + pretty == Before(style, p) + ([c] + pretty);
  }

  /** A piece and the rest of the container behind it. */
  lemma {:induction false} ClosesAfter(style: Style, p: Place, a: Text, x: Text, q: Place, outer: seq<byte>, b: Text,
                                       y: Text)
    requires style.Pretty? && Becomes(style, p, a, x, q) && Closes(style, q, outer, b, y)
    ensures Closes(style, p, outer, a + b, x + y)
  {
    BecomesAppend(style, p, a, x, q, b, y, Walk(q, b));
  }

  lemma {:induction false} LineIs(style: Style, depth: nat)
    requires style.Pretty?
    ensures LineBreak(style, depth) == Line(style.indentChar, style.indentCharCount, depth)
  {
    assert depth * style.indentCharCount == style.indentCharCount * depth;
  }

  /** A container's end is laid out as CloseText says. */
  lemma {:induction false} CloseBecomes(style: Style, q: Place, outer: seq<byte>, level: Level)
    requires style.Pretty? && q.mode == Outside && q.open == outer + [if level.inArray then 91 else 123]
    requires if level.valueCount == 0 then q.last == q.open[|outer|] else Ended(q.last)
    ensures
      var bracket := if level.inArray then RIGHT_BRACKET else RIGHT_BRACE;
      Closes(style, q, outer, CloseText(Compact, level, 0) + [bracket], CloseText(style, level, |outer|) + [bracket])
  {
    var bracket := if level.inArray then RIGHT_BRACKET else RIGHT_BRACE;
    OneBecomes(style, q, bracket);
    LineIs(style, |outer|);
    assert CloseText(Compact, level, 0) + [bracket] == [bracket];
    assert q.open[..|outer|] == outer;
  }

  /** What comes before a value or name is laid out as PrefixText says. */
  lemma {:induction false} PrefixBecomes(style: Style, q: Place, outer: seq<byte>, level: Level) returns (r: Place)
    requires style.Pretty? && q.mode == Outside && q.open == outer + [if level.inArray then 91 else 123]
    requires if level.valueCount == 0 then q.last == q.open[|outer|] else Ended(q.last)
    ensures r.mode == Outside && r.open == q.open
    ensures
      var compact := PrefixText(Compact, level, 0);
      exists x :: Becomes(style, q, compact, x, r) && x + Before(style, r) == PrefixText(style, level, |outer| + 1)
  {
    var compact := PrefixText(Compact, level, 0);
    LineIs(style, |outer| + 1);
    assert LineBreak(Compact, 0) == [];
    if level.valueCount == 0 {
      r := q;
      assert compact == [];
      assert Becomes(style, q, [], [], r);
      assert [] + Before(style, r) == PrefixText(style, level, |outer| + 1);
    } else {
      var c := if level.inArray || level.valueCount % 2 == 0 then 44 else 58;
      r := Place(Outside, q.open, c);
      SeparatorBecomes(style, q, c);
      assert compact == [c];
      assert Becomes(style, q, [c], [c], r);
      assert [c] + Before(style, r) == PrefixText(style, level, |outer| + 1);
    }
  }

  /** A separator and the value or name behind it. */
  lemma {:induction false} PieceBecomes(style: Style, q: Place, outer: seq<byte>, level: Level, compact: Text,
                                        pretty: Text, r: Place) returns (end: Place)
    requires style.Pretty? && r.mode == Outside && r.open == q.open
    requires
      exists x :: Becomes(style, q, PrefixText(Compact, level, 0), x, r)
                  && x + Before(style, r) == PrefixText(style, level, |outer| + 1)
    requires Stays(style, r, compact, pretty)
    ensures end.mode == Outside && end.open == q.open && Ended(end.last)
    ensures
      Becomes(style, q, PrefixText(Compact, level, 0) + compact, PrefixText(style, level, |outer| + 1) + pretty, end)
  {
    hide Format, Walk, Before, PrefixText;
    var x :| Becomes(style, q, PrefixText(Compact, level, 0), x, r)
             && x + Before(style, r) == PrefixText(style, level, |outer| + 1);
    end := Walk(r, compact);
    BecomesAppend(style, q, PrefixText(Compact, level, 0), x, r, compact, Before(style, r) + pretty, end);
    assert x + (Before(style, r) + pretty) == x + Before(style, r) + pretty;
  }

  lemma {:induction false} PartsBecome(style: Style, parts: seq<EventTree>, i: nat, outer: seq<byte>, q: Place,
                                       flat: nat)
    requires style.Pretty? && i <= |parts|
    requires forall k | 0 <= k < |parts| :: Printable(parts[k]) && BareDoubles(parts[k])
    requires q.mode == Outside && q.open == outer + [91] && if i == 0 then q.last == 91 else Ended(q.last)
    ensures Closes(style, q, outer, PrintParts(Compact, parts, i, flat), PrintParts(style, parts, i, |outer|))
    decreases parts, |parts| - i
  {
    hide Becomes, Closes, Stays, Print, PrefixText, CloseText, Printable, BareDoubles;
    var level := Level(i, true);
    CompactDepth(level, flat);
    CompactDepth(level, flat + 1);
    if i == |parts| {
      CloseBecomes(style, q, outer, level);
    } else {
      var r := PrefixBecomes(style, q, outer, level);
      PrintBecomes(style, parts[i], r, flat + 1);
      var v, w := Print(Compact, parts[i], flat + 1), Print(style, parts[i], |outer| + 1);
      var end := PieceBecomes(style, q, outer, level, v, w, r);
      PartsBecome(style, parts, i + 1, outer, end, flat);
      ClosesAfter(style, q, PrefixText(Compact, level, 0) + v, PrefixText(style, level, |outer| + 1) + w, end, outer,
                  PrintParts(Compact, parts, i + 1, flat), PrintParts(style, parts, i + 1, |outer|));
    }
  }

  lemma {:induction false} FieldsBecome(style: Style, fields: seq<Field>, i: nat, outer: seq<byte>, q: Place,
                                        flat: nat)
    requires style.Pretty? && i <= |fields|
    requires forall k | 0 <= k < |fields| :: Printable(fields[k].tree) && BareDoubles(fields[k].tree)
    requires q.mode == Outside && q.open == outer + [123] && if i == 0 then q.last == 123 else Ended(q.last)
    ensures Closes(style, q, outer, PrintFields(Compact, fields, i, flat), PrintFields(style, fields, i, |outer|))
    decreases fields, |fields| - i
  {
    hide Becomes, Closes, Stays, Print, PrefixText, CloseText, Printable, BareDoubles, Quoted;
    var name, value := Level(2 * i, false), Level(2 * i + 1, false);
    CompactDepth(name, flat);
    CompactDepth(name, flat + 1);
    CompactDepth(value, flat + 1);
    if i == |fields| {
      CloseBecomes(style, q, outer, name);
    } else {
      var key := Quoted(fields[i].key);
      var r := PrefixBecomes(style, q, outer, name);
      QuotedBecomes(style, r, fields[i].key);
      var mid := PieceBecomes(style, q, outer, name, key, key, r);
      var u := PrefixBecomes(style, mid, outer, value);
      PrintBecomes(style, fields[i].tree, u, flat + 1);
      var v, w := Print(Compact, fields[i].tree, flat + 1), Print(style, fields[i].tree, |outer| + 1);
      var end := PieceBecomes(style, mid, outer, value, v, w, u);
      FieldsBecome(style, fields, i + 1, outer, end, flat);
      var a, x := PrefixText(Compact, name, 0) + key, PrefixText(style, name, |outer| + 1) + key;
      var b, y := PrefixText(Compact, value, 0) + v, PrefixText(style, value, |outer| + 1) + w;
      ClosesAfter(style, mid, b, y, end, outer, PrintFields(Compact, fields, i + 1, flat),
                  PrintFields(style, fields, i + 1, |outer|));
      ClosesAfter(style, q, a, x, mid, outer, b + PrintFields(Compact, fields, i + 1, flat),
                  y + PrintFields(style, fields, i + 1, |outer|));
      FieldsAssoc(PrefixText(Compact, name, 0), key, PrefixText(Compact, value, 0), v,
                  PrintFields(Compact, fields, i + 1, flat));
      FieldsAssoc(PrefixText(style, name, |outer| + 1), key, PrefixText(style, value, |outer| + 1), w,
                  PrintFields(style, fields, i + 1, |outer|));
    }
  }

  lemma {:induction false} FieldsAssoc(a: Text, b: Text, c: Text, d: Text, e: Text)
    ensures (a + b) + ((c + d) + e) == a + b + c + d + e
  {
  }

  /** The indenting writer's text is the compact writer's with exactly the layout called for. */
  lemma {:induction false} PrettyIsFormatted(style: Style, t: EventTree)
    requires style.Pretty? && Printable(t) && BareDoubles(t)
    ensures
      var pretty, compact := Run(style, INITIAL, Flatten(t)), Run(Compact, INITIAL, Flatten(t));
      pretty.Some? && compact.Some? && pretty.value.out == Format(style, START, compact.value.out)
  {
    hide Run, Flatten, Print, Format, Walk, Before;
    RootPrints(style, t);
    RootPrints(Compact, t);
    PrintBecomes(style, t, START, 0);
    NothingBefore(style);
    assert [] + Print(style, t, 0) == Print(style, t, 0);
  }

  lemma {:induction false} NothingBefore(style: Style)
    requires style.Pretty?
    ensures Before(style, START) == []
  {
  }

  // ----- line feeds and indentation, read off the indented text

  /** The place behind any character: layout changes nothing. */
  function Step(p: Place, c: byte): Place {
    if p.mode == Outside && IsWhitespace(c) then p else Next(p, c)
  }

  function ScanTo(p: Place, s: Text): Place
    decreases |s|
  {
    if s == [] then p else ScanTo(Step(p, s[0]), s[1..])
  }

  /** How many times `c` stands at the start. */
  function Leading(s: Text, c: byte): (n: nat)
    ensures n <= |s|
  {
    if s == [] || s[0] != c then 0 else 1 + Leading(s[1..], c)
  }

  /**
   * Behind this line feed stand `n` characters `c` for each bracket that is open around what comes
   * then, which is no layout.
   */
  predicate IndentedBehind(p: Place, s: Text, c: byte, n: nat) {
    var k := Leading(s, c);
    && k < |s| && !IsWhitespace(s[k])
    && k == n * (if Closing(s[k]) && p.open != [] then |p.open| - 1 else |p.open|)
  }

  /** All line feeds outside strings are indented so. */
  predicate Indented(p: Place, s: Text, c: byte, n: nat)
    decreases |s|
  {
    s != [] ==>
      (p.mode == Outside && s[0] == 10 ==> IndentedBehind(p, s[1..], c, n)) && Indented(Step(p, s[0]), s[1..], c, n)
  }

  /** No layout outside strings. */
  predicate Dense(p: Place, s: Text)
    decreases |s|
  {
    s != [] ==> !(p.mode == Outside && IsWhitespace(s[0])) && Dense(Next(p, s[0]), s[1..])
  }

  lemma {:induction false} FormatIndented(style: Style, p: Place, s: Text)
    requires style.Pretty? && ValidStyle(style) && style.indentChar != 10 && Dense(p, s)
    ensures Indented(p, Format(style, p, s), style.indentChar, style.indentCharCount)
    decreases |s|
  {
    if s != [] {
      var rest := Format(style, Next(p, s[0]), s[1..]);
      FormatIndented(style, Next(p, s[0]), s[1..]);
      assert ([s[0]] + rest)[1..] == rest;
      if p.mode == Outside {
        BetweenIndented(style, p, s[0], rest);
        var b := Between(style, p, s[0]);
        assert b + [s[0]] + rest == b + ([s[0]] + rest);
      } else {
        assert [] + [s[0]] + rest == [s[0]] + rest;
      }
    }
  }

  lemma {:induction false} BetweenIndented(style: Style, p: Place, next: byte, rest: Text)
    requires style.Pretty? && ValidStyle(style) && style.indentChar != 10 && p.mode == Outside && !IsWhitespace(next)
    requires Indented(p, [next] + rest, style.indentChar, style.indentCharCount)
    ensures
      Indented(p, Between(style, p, next) + ([next] + rest), style.indentChar, style.indentCharCount)
  {
    hide Indented;
    var b, tail := Between(style, p, next), [next] + rest;
    var c, n := style.indentChar, style.indentCharCount;
    if b == [] {
      assert b + tail == tail;
    } else if b == [32] {
      BlankIndented(p, 32, tail, c, n);
    } else {
      var depth := if Closing(next) && p.open != [] then |p.open| - 1 else |p.open|;
      var run: Text := seq(n * depth, _ => c);
      assert b == [10] + run;
      RunIndented(p, c, n, n * depth, next, rest);
      assert b + tail == [10] + (run + tail);
      LineIndented(p, run + tail, c, n);
    }
  }

  lemma {:induction false} BlankIndented(p: Place, blank: byte, s: Text, c: byte, n: nat)
    requires p.mode == Outside && IsWhitespace(blank) && blank != 10 && Indented(p, s, c, n)
    ensures Indented(p, [blank] + s, c, n)
  {
    assert ([blank] + s)[1..] == s;
  }

  lemma {:induction false} LineIndented(p: Place, s: Text, c: byte, n: nat)
    requires p.mode == Outside && Indented(p, s, c, n) && IndentedBehind(p, s, c, n)
    ensures Indented(p, [10] + s, c, n)
  {
    assert ([10] + s)[1..] == s;
  }

  /** A run of indentation characters and what follows it. */
  lemma {:induction false} RunIndented(p: Place, c: byte, n: nat, k: nat, next: byte, rest: Text)
    requires p.mode == Outside && IsWhitespace(c) && c != 10 && !IsWhitespace(next)
    requires Indented(p, [next] + rest, c, n)
    ensures
      var run: Text := seq(k, _ => c);
      var s := run + ([next] + rest);
      Indented(p, s, c, n) && Leading(s, c) == k && s[k] == next
    decreases k
  {
    var run: Text := seq(k, _ => c);
    var s := run + ([next] + rest);
    if k == 0 {
      assert s == [next] + rest;
    } else {
      var shorter: Text := seq(k - 1, _ => c);
      RunIndented(p, c, n, k - 1, next, rest);
      assert s == [c] + (shorter + ([next] + rest));
      assert s[1..] == shorter + ([next] + rest);
      BlankIndented(p, c, shorter + ([next] + rest), c, n);
    }
  }

  /** What is left of a text without its layout has none. */
  lemma {:induction false} StrippedDense(p: Place, s: Text)
    requires Strip(p.mode, s) == s
    ensures Dense(p, s)
    decreases |s|
  {
    if s != [] {
      StripShorter(After(p.mode, s[0]), s[1..]);
      assert !IsLayout(p.mode, s[0]);
      StrippedDense(Next(p, s[0]), s[1..]);
    }
  }

  lemma {:induction false} StripShorter(mode: Mode, s: Text)
    ensures |Strip(mode, s)| <= |s|
    decreases |s|
  {
    if s != [] {
      StripShorter(After(mode, s[0]), s[1..]);
    }
  }

  /**
   * In the indented text every line feed outside strings is followed by as many indentation
   * characters as the style has for each bracket open around what comes then.
   */
  lemma {:induction false} LinesIndented(style: Style, t: EventTree)
    requires style.Pretty? && ValidStyle(style) && style.indentChar != 10
    requires Printable(t) && BareDoubles(t) && PlainDoubles(t)
    ensures
      var pretty := Run(style, INITIAL, Flatten(t));
      pretty.Some? && Indented(START, pretty.value.out, style.indentChar, style.indentCharCount)
  {
    hide Run, Flatten, Print, Format, Indented, Dense, Strip;
    PrettyIsFormatted(style, t);
    RootPrints(Compact, t);
    CompactDense(t);
    FormatIndented(style, START, Print(Compact, t, 0));
  }

  lemma {:induction false} CompactDense(t: EventTree)
    requires PlainDoubles(t)
    ensures Dense(START, Print(Compact, t, 0))
  {
    hide Print, Strip, Scan, Dense;
    PrintStrips(Compact, t, 0, 0);
    StrippedDense(START, Print(Compact, t, 0));
  }
}
