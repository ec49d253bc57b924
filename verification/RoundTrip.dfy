/** Printing and then parsing is the identity, for both writers, both parsers and every parse flag. */
module RoundTrip {
  import opened Bytes
  import opened Encodings
  import opened Events
  import opened Scanner
  import opened StringStack
  import opened RecursiveReader
  import StackedReader
  import opened Document
  import opened Writer
  import opened Options

  /** A handler that never stops the parse, as the document's handlers never do. */
  ghost predicate Accepting(env: Env) {
    forall es :: env.handler(es)
  }

  predicate CleanText(env: Env, s: Text) {
    |s| < STRING_LIMIT && (env.flags.validateEncoding ==> ValidUtf8(s))
  }

  /** Trees without doubles whose strings the reader's settings let through. */
  predicate Readable(env: Env, t: EventTree) {
    match t
    case Leaf(e) => ScalarEvent(e) && !e.Double? && (e.String? ==> CleanText(env, e.str))
    case ArrayTree(parts) => |parts| < SIZE_TYPE_LIMIT && forall i | 0 <= i < |parts| :: Readable(env, parts[i])
    case ObjectTree(fields) =>
      |fields| < SIZE_TYPE_LIMIT
      && forall i | 0 <= i < |fields| :: CleanText(env, fields[i].key) && Readable(env, fields[i].tree)
  }

  /** The event the reader sends for the text of a scalar event. */
  function Reread(e: Event): Event {
    if !ScalarEvent(e) then e
    else
      match e
      case Int(i) => IntegerEvent(i < 0, Magnitude(i))
      case Uint(u) => IntegerEvent(false, u)
      case Int64(i) => IntegerEvent(i < 0, Magnitude(i))
      case Uint64(u) => IntegerEvent(false, u)
      case _ => e
  }

  function Magnitude(n: int): nat {
    if n < 0 then -n else n
  }

  function RereadTree(t: EventTree): EventTree {
    match t
    case Leaf(e) => Leaf(Reread(e))
    case ArrayTree(parts) => ArrayTree(seq(|parts|, i requires 0 <= i < |parts| => RereadTree(parts[i])))
    case ObjectTree(fields) =>
      ObjectTree(seq(|fields|, i requires 0 <= i < |fields| => Field(fields[i].key, RereadTree(fields[i].tree))))
  }

  lemma {:induction false} ReadableWellFormed(env: Env, t: EventTree)
    requires Readable(env, t)
    ensures WellFormedTree(t) && Printable(t)
  {
    match t {
      case Leaf(e) =>
      case ArrayTree(parts) =>
        forall i | 0 <= i < |parts| ensures WellFormedTree(parts[i]) && Printable(parts[i]) {
          ReadableWellFormed(env, parts[i]);
        }
      case ObjectTree(fields) =>
        forall i | 0 <= i < |fields| ensures WellFormedTree(fields[i].tree) && Printable(fields[i].tree) {
          ReadableWellFormed(env, fields[i].tree);
        }
    }
  }

  /** What is reread denotes the same value: number events may differ in width, never in the number stored. */
  lemma {:induction false} RereadDenotes(t: EventTree)
    requires WellFormedTree(t)
    ensures WellFormedTree(RereadTree(t)) && Denote(RereadTree(t)) == Denote(t)
  {
    match t {
      case Leaf(e) =>
        RereadScalar(e);
      case ArrayTree(parts) =>
        var r := RereadTree(t).parts;
        forall i | 0 <= i < |parts| ensures WellFormedTree(r[i]) && Denote(r[i]) == Denote(parts[i]) {
          RereadDenotes(parts[i]);
        }
        assert Denote(RereadTree(t)).elements == Denote(t).elements;
      case ObjectTree(fields) =>
        var r := RereadTree(t).fields;
        forall i | 0 <= i < |fields| ensures WellFormedTree(r[i].tree) && Denote(r[i].tree) == Denote(fields[i].tree) {
          RereadDenotes(fields[i].tree);
        }
        assert Denote(RereadTree(t)).members == Denote(t).members;
    }
  }

  lemma {:induction false} RereadScalar(e: Event)
    requires ScalarEvent(e)
    ensures ScalarEvent(Reread(e)) && ScalarValue(Reread(e)) == ScalarValue(e)
  {
    if e.Int? || e.Uint? || e.Int64? || e.Uint64? {
      var n := if e.Int? then e.i else if e.Uint? then e.u else if e.Int64? then e.i64 else e.u64;
      ConstructorsCanonical(n);
      CanonicalUnique(ScalarValue(Reread(e)).n, ScalarValue(e).n);
    }
  }

  // ----- whitespace

  predicate AllWhitespace(s: Text) {
    forall i | 0 <= i < |s| :: IsWhitespace(s[i])
  }

  /** Characters that end the skipping of whitespace and comments. */
  predicate Solid(c: byte) {
    !IsWhitespace(c) && c != SLASH
  }

  lemma {:induction false} SkipsWhitespace(s: Text, pos: nat, ws: Text)
    requires StandsAt(s, pos, ws) && AllWhitespace(ws) && !IsWhitespace(At(s, pos + |ws|))
    ensures SkipWhitespace(s, pos) == pos + |ws|
    decreases |ws|
  {
    if ws != [] {
      SkipsWhitespace(s, pos + 1, ws[1..]);
    }
  }

  lemma {:induction false} SkipsTo(env: Env, pos: nat, ws: Text)
    requires StandsAt(env.src, pos, ws) && AllWhitespace(ws) && Solid(At(env.src, pos + |ws|))
    ensures SkipWhitespaceAndComments(env, pos) == Some(pos + |ws|)
  {
    SkipsWhitespace(env.src, pos, ws);
  }

  // ----- strings

  /** Wherever `text` stands inside a string, the reader's loop takes it as a unit and puts out `bytes`. */
  ghost predicate TakenAs(env: Env, text: Text, bytes: Text) {
    forall pos: nat, out: Text :: StandsAt(env.src, pos, text) ==>
      StringBody(env, pos, out) == StringBody(env, pos + |text|, out + bytes)
  }

  /** A literal's inside, cut into pieces the reader takes one by one. */
  datatype Piece = Piece(text: Text, bytes: Text)

  function PiecesText(pieces: seq<Piece>): Text {
    if pieces == [] then [QUOTE] else pieces[0].text + PiecesText(pieces[1..])
  }

  function PiecesBytes(pieces: seq<Piece>): Text {
    if pieces == [] then [] else pieces[0].bytes + PiecesBytes(pieces[1..])
  }

  lemma {:induction false} PiecesRead(env: Env, pieces: seq<Piece>, pos: nat, out: Text)
    requires forall k | 0 <= k < |pieces| :: TakenAs(env, pieces[k].text, pieces[k].bytes)
    requires StandsAt(env.src, pos, PiecesText(pieces))
    ensures StringBody(env, pos, out) == Some((pos + |PiecesText(pieces)|, out + PiecesBytes(pieces)))
    decreases |pieces|
  {
    hide PiecesText, PiecesBytes, StringBody, StandsAt;
    if pieces == [] {
      NoPieces(env, pos, out);
    } else {
      var p, rest := pieces[0], pieces[1..];
      PiecesCons(p, rest);
      assert [p] + rest == pieces;
      StandsAtSplit(env.src, pos, p.text, PiecesText(rest));
      assert TakenAs(env, p.text, p.bytes);
      PiecesRead(env, rest, pos + |p.text|, out + p.bytes);
      TextAssoc(out, p.bytes, PiecesBytes(rest));
    }
  }

  lemma {:induction false} NoPieces(env: Env, pos: nat, out: Text)
    requires StandsAt(env.src, pos, PiecesText([]))
    ensures StringBody(env, pos, out) == Some((pos + |PiecesText([])|, out + PiecesBytes([])))
  {
    FirstAt(env.src, pos, [QUOTE], 0);
    assert StringUnit(env, pos) == EndOfString;
    assert out + [] == out;
  }

  lemma {:induction false} TextAssoc(a: Text, b: Text, c: Text)
    ensures (a + b) + c == a + (b + c)
  {
  }

  /** Pieces that the reader takes and that make up this text and these bytes. */
  ghost predicate MadeOf(env: Env, pieces: seq<Piece>, text: Text, bytes: Text) {
    && PiecesText(pieces) == text + [QUOTE] && PiecesBytes(pieces) == bytes
    && forall k | 0 <= k < |pieces| :: TakenAs(env, pieces[k].text, pieces[k].bytes)
  }

  lemma {:induction false} MadeOfCons(env: Env, p: Piece, rest: seq<Piece>, text: Text, bytes: Text)
    requires TakenAs(env, p.text, p.bytes) && MadeOf(env, rest, text, bytes)
    ensures MadeOf(env, [p] + rest, p.text + text, p.bytes + bytes)
  {
    PiecesCons(p, rest);
    TextAssoc(p.text, text, [QUOTE]);
  }

  lemma {:induction false} NothingMade(env: Env)
    ensures MadeOf(env, [], [], [])
  {
  }

  /**
   * The escaped text of `s` from byte `i`, cut into single bytes, or into whole sequences when the
   * reader validates.
   */
  lemma {:induction false} PiecesOf(env: Env, s: Text, i: nat) returns (pieces: seq<Piece>)
    requires i <= |s| && (env.flags.validateEncoding ==> DecodeAll(s, i).0)
    ensures MadeOf(env, pieces, EscapeFrom(s, i), s[i..])
    decreases |s| - i
  {
    hide MadeOf, EscapeByte, EscapeFrom, TakenAs, Encode, Decode, DecodeAll;
    if i == |s| {
      NothingMade(env);
      EscapeNothing(s);
      pieces := [];
    } else if env.flags.validateEncoding && s[i] >= 0x80 {
      DecodeAllNext(s, i);
      var d := Decode(s, i);
      var unit := s[i..d.next];
      var rest := PiecesOf(env, s, d.next);
      SequenceTaken(env, unit, d.codepoint);
      MadeOfCons(env, Piece(unit, unit), rest, EscapeFrom(s, d.next), s[d.next..]);
      CopiedBytes(s, i, d.next);
      assert s[i..] == unit + s[d.next..];
      pieces := [Piece(unit, unit)] + rest;
    } else {
      if env.flags.validateEncoding {
        DecodeAllNext(s, i);
      }
      var rest := PiecesOf(env, s, i + 1);
      ByteTaken(env, s[i]);
      EscapeUnfold(s, i);
      MadeOfCons(env, Piece(EscapeByte(s[i]), [s[i]]), rest, EscapeFrom(s, i + 1), s[i + 1..]);
      assert s[i..] == [s[i]] + s[i + 1..];
      pieces := [Piece(EscapeByte(s[i]), [s[i]])] + rest;
    }
  }

  lemma {:induction false} EscapeNothing(s: Text)
    ensures EscapeFrom(s, |s|) == [] && s[|s|..] == []
  {
  }

  lemma {:induction false} EscapeUnfold(s: Text, i: nat)
    requires i < |s|
    ensures EscapeFrom(s, i) == EscapeByte(s[i]) + EscapeFrom(s, i + 1)
  {
    hide EscapeByte;
  }

  /** The first sequence of a text that decodes, and the rest. */
  lemma {:induction false} DecodeAllNext(s: Text, i: nat)
    requires i < |s| && DecodeAll(s, i).0
    ensures
      var d := Decode(s, i);
      && i < d.next <= |s| && DecodeAll(s, d.next).0 && Scalar(d.codepoint)
      && Rfc3629(s[i..d.next]) && Encode(d.codepoint) == s[i..d.next]
      && (s[i] < 0x80 ==> d.next == i + 1)
  {
    hide Encode, Rfc3629;
    DecodeExact(s, i);
  }

  lemma {:induction false} PiecesCons(p: Piece, rest: seq<Piece>)
    ensures PiecesText([p] + rest) == p.text + PiecesText(rest)
    ensures PiecesBytes([p] + rest) == p.bytes + PiecesBytes(rest)
  {
    assert ([p] + rest)[1..] == rest;
  }

  lemma {:induction false} ByteTaken(env: Env, c: byte)
    requires c < 0x80 || !env.flags.validateEncoding
    ensures TakenAs(env, EscapeByte(c), [c])
  {
    forall pos: nat, out: Text | StandsAt(env.src, pos, EscapeByte(c))
      ensures StringBody(env, pos, out) == StringBody(env, pos + |EscapeByte(c)|, out + [c])
    {
      EscapeReads(env, pos, c);
    }
  }

  lemma {:induction false} SequenceTaken(env: Env, unit: Text, cp: nat)
    requires env.flags.validateEncoding && Scalar(cp) && unit == Encode(cp) && unit[0] >= 0x80
    ensures TakenAs(env, unit, unit)
  {
    hide Validate, Encode, StandsAt;
    forall pos: nat, out: Text | StandsAt(env.src, pos, unit)
      ensures StringBody(env, pos, out) == StringBody(env, pos + |unit|, out + unit)
    {
      SequenceValidates(env.src, pos, unit, cp);
      assert StringUnit(env, pos) == Unit(unit, pos + |unit|);
    }
  }

  lemma {:induction false} StringReads(env: Env, pos: nat, s: Text)
    requires StandsAt(env.src, pos, Quoted(s)) && CleanText(env, s)
    ensures At(env.src, pos) == QUOTE
    ensures StringBody(env, pos + 1, []) == Some((pos + |Quoted(s)|, s))
  {
    hide MadeOf, EscapeFrom, StringBody, StandsAt, DecodeAll;
    var inside := EscapeFrom(s, 0) + [QUOTE];
    TextAssoc([QUOTE], EscapeFrom(s, 0), [QUOTE]);
    StandsAtSplit(env.src, pos, [QUOTE], inside);
    FirstAt(env.src, pos, [QUOTE], 0);
    var pieces := PiecesOf(env, s, 0);
    assert s[0..] == s;
    MadeOfReads(env, pieces, EscapeFrom(s, 0), s, pos + 1);
  }

  /** A literal made of pieces is read as their bytes. */
  lemma {:induction false} MadeOfReads(env: Env, pieces: seq<Piece>, text: Text, bytes: Text, pos: nat)
    requires MadeOf(env, pieces, text, bytes) && StandsAt(env.src, pos, text + [QUOTE])
    ensures StringBody(env, pos, []) == Some((pos + |text| + 1, bytes))
  {
    hide StringBody, StandsAt, PiecesText, PiecesBytes, TakenAs;
    PiecesRead(env, pieces, pos, []);
    assert [] + bytes == bytes;
  }

  lemma {:induction false} EscapeReads(env: Env, pos: nat, c: byte)
    requires StandsAt(env.src, pos, EscapeByte(c))
    requires c < 0x80 || !env.flags.validateEncoding
    ensures StringUnit(env, pos) == Unit([c], pos + |EscapeByte(c)|)
  {
    var e := EscapeByte(c);
    FirstAt(env.src, pos, e, 0);
    if |e| == 1 {
      assert e[0] == c;
    } else {
      FirstAt(env.src, pos, e, 1);
      if |e| == 6 {
        ControlReads(env.src, pos, c);
      }
    }
  }

  lemma {:induction false} ControlReads(s: Text, pos: nat, c: byte)
    requires c < 0x20 && EscapeLetter(c) == 117 && StandsAt(s, pos, EscapeByte(c))
    ensures UnicodeEscape(s, pos + 2) == Some((c as nat, pos + 6))
    ensures Encode(c) == [c]
  {
    var e := EscapeByte(c);
    FirstAt(s, pos, e, 2);
    FirstAt(s, pos, e, 3);
    FirstAt(s, pos, e, 4);
    FirstAt(s, pos, e, 5);
    HexFour(s, pos + 2, 0, 0, c / 16, c % 16);
  }

  /** Four printed digits read back as the number they spell. */
  lemma {:induction false} HexFour(s: Text, pos: nat, a: nat, b: nat, c: nat, d: nat)
    requires a < 16 && b < 16 && c < 16 && d < 16
    requires At(s, pos) == HexDigit(a) && At(s, pos + 1) == HexDigit(b)
    requires At(s, pos + 2) == HexDigit(c) && At(s, pos + 3) == HexDigit(d)
    ensures Hex4(s, pos) == Some(((a * 16 + b) * 16 + c) * 16 + d)
  {
    assert HexFrom(s, pos, 4, 0) == HexFrom(s, pos + 1, 3, a);
    assert HexFrom(s, pos + 1, 3, a) == HexFrom(s, pos + 2, 2, a * 16 + b);
    assert HexFrom(s, pos + 2, 2, a * 16 + b) == HexFrom(s, pos + 3, 1, (a * 16 + b) * 16 + c);
    assert HexFrom(s, pos + 3, 1, (a * 16 + b) * 16 + c) == HexFrom(s, pos + 4, 0, ((a * 16 + b) * 16 + c) * 16 + d);
  }

  lemma {:induction false} SequenceValidates(src: Text, pos: nat, unit: Text, cp: nat)
    requires Scalar(cp) && unit == Encode(cp) && unit[0] >= 0x80 && StandsAt(src, pos, unit)
    ensures Validate(src, pos) == Validated(true, unit, pos + |unit|)
    ensures At(src, pos) >= 0x80
  {
    FirstAt(src, pos, unit, 0);
    StandsAtSlice(src, pos, unit);
    DecodeInvertsEncode(src, pos, cp);
    ValidateAgrees(src, pos);
    ValidateCopies(src, pos);
  }

  lemma {:induction false} CopiedBytes(s: Text, i: nat, j: nat)
    requires i < j <= |s| && Rfc3629(s[i..j]) && s[i] >= 0x80
    ensures EscapeFrom(s, i) == s[i..j] + EscapeFrom(s, j)
  {
    var u := s[i..j];
    assert u[0] == s[i];
    forall k | i <= k < j ensures s[k] >= 0x80 {
      assert u[k - i] == s[k];
      assert k - i == 0 || k - i == 1 || k - i == 2 || k - i == 3;
    }
    HighRun(s, i, j);
  }

  lemma {:induction false} HighRun(s: Text, i: nat, j: nat)
    requires i <= j <= |s| && forall k | i <= k < j :: s[k] >= 0x80
    ensures EscapeFrom(s, i) == s[i..j] + EscapeFrom(s, j)
    decreases j - i
  {
    hide EscapeFrom;
    if i < j {
      HighRun(s, i + 1, j);
      HighByte(s, i);
      var rest := EscapeFrom(s, j);
      assert s[i..j] + rest == [s[i]] + (s[i + 1..j] + rest);
    }
  }

  lemma {:induction false} HighByte(s: Text, i: nat)
    requires i < |s| && s[i] >= 0x80
    ensures EscapeFrom(s, i) == [s[i]] + EscapeFrom(s, i + 1)
  {
    assert EscapeByte(s[i]) == [s[i]];
  }

  // ----- integers

  /** Characters that end an integer. */
  predicate EndsNumber(c: byte) {
    !IsDigit(c) && c != DOT && c != 101 && c != 69
  }

  lemma {:induction false} DigitsStand(s: Text, pos: nat, n: nat)
    requires StandsAt(s, pos, Digits(n))
    ensures forall k | pos <= k < pos + |Digits(n)| :: IsDigit(At(s, k))
    ensures DigitsValue(s, pos, pos + |Digits(n)|) == n
    ensures At(s, pos) == ZERO <==> n == 0
    ensures n == 0 ==> |Digits(n)| == 1
    decreases n
  {
    if n < 10 {
      FirstAt(s, pos, Digits(n), 0);
      assert DigitsValue(s, pos, pos) == 0;
    } else {
      var init := Digits(n / 10);
      StandsAtSplit(s, pos, init, [48 + n % 10]);
      DigitsStand(s, pos, n / 10);
      FirstAt(s, pos + |init|, [48 + n % 10], 0);
    }
  }

  lemma {:induction false} DecimalReads(env: Env, pos: nat, n: int)
    requires StandsAt(env.src, pos, Decimal(n)) && EndsNumber(At(env.src, pos + |Decimal(n)|))
    requires InInt64(n) || InUint64(n)
    ensures NumberAt(env, pos) == Some((IntegerEvent(n < 0, Magnitude(n)), pos + |Decimal(n)|))
  {
    var m := Magnitude(n);
    var start := if n < 0 then pos + 1 else pos;
    if n < 0 {
      StandsAtSplit(env.src, pos, [MINUS], Digits(m));
      FirstAt(env.src, pos, [MINUS], 0);
    }
    DigitsStand(env.src, start, m);
    if n >= 0 {
      assert IsDigit(At(env.src, pos));
    }
    var end := start + |Digits(m)|;
    if m != 0 {
      DigitsEndIs(env.src, start, end);
    }
    assert NumberHead(env, start) == Head(end, m, false);
  }

  // ----- scalars

  /** Characters that may follow a value inside a printed text. */
  predicate Delimiter(c: byte) {
    c == NUL || c == COMMA || c == RIGHT_BRACKET || c == RIGHT_BRACE || IsWhitespace(c)
  }

  /** A printed value starts with none of the characters its surroundings look for. */
  predicate StartsValue(c: byte) {
    Solid(c) && c != RIGHT_BRACKET && c != RIGHT_BRACE && c != COMMA && c != NUL
  }

  lemma {:induction false} DigitsStart(n: nat)
    ensures IsDigit(Digits(n)[0])
    decreases n
  {
    if n >= 10 {
      DigitsStart(n / 10);
    }
  }

  lemma {:induction false} PrintStarts(env: Env, style: Style, t: EventTree, depth: nat)
    requires Readable(env, t)
    ensures Print(style, t, depth) != [] && StartsValue(Print(style, t, depth)[0])
  {
    if t.Leaf? {
      match t.e {
        case Int(n) => DigitsStart(Magnitude(n));
        case Uint(n) => DigitsStart(n);
        case Int64(n) => DigitsStart(Magnitude(n));
        case Uint64(n) => DigitsStart(n);
        case _ =>
      }
    }
  }

  lemma {:induction false} ScalarReads(env: Env, pos: nat, e: Event, events: seq<Event>)
    requires Accepting(env) && ScalarEvent(e) && !e.Double? && (e.String? ==> CleanText(env, e.str))
    requires StandsAt(env.src, pos, ScalarText(e)) && Delimiter(At(env.src, pos + |ScalarText(e)|))
    ensures ParseValue(env, pos, events) == Parsed(pos + |ScalarText(e)|, events + [Reread(e)])
  {
    hide NumberAt, StringBody, IntegerEvent, ValidUtf8, Reported;
    match e {
      case Null => FirstAt(env.src, pos, NULL_TEXT, 0);
      case Bool(b) => FirstAt(env.src, pos, if b then TRUE_TEXT else FALSE_TEXT, 0);
      case String(s) =>
        StringReads(env, pos, s);
        StringIntact(s);
      case Int(n) => IntegerReads(env, pos, n, events);
      case Uint(n) => IntegerReads(env, pos, n, events);
      case Int64(n) => IntegerReads(env, pos, n, events);
      case Uint64(n) => IntegerReads(env, pos, n, events);
    }
  }

  lemma {:induction false} IntegerReads(env: Env, pos: nat, n: int, events: seq<Event>)
    requires Accepting(env) && (InInt64(n) || InUint64(n))
    requires StandsAt(env.src, pos, Decimal(n)) && Delimiter(At(env.src, pos + |Decimal(n)|))
    ensures ParseValue(env, pos, events)
         == Parsed(pos + |Decimal(n)|, events + [IntegerEvent(n < 0, Magnitude(n))])
  {
    DecimalReads(env, pos, n);
    DigitsStart(Magnitude(n));
    FirstAt(env.src, pos, Decimal(n), 0);
    assert env.handler(events + [IntegerEvent(n < 0, Magnitude(n))]);
  }

  // ----- separators

  /** The whitespace a separator holds behind its comma or colon, if it has one. */
  function Gap(style: Style, level: Level, depth: nat): Text {
    var p := PrefixText(style, level, depth);
    if p != [] && (p[0] == COMMA || p[0] == COLON) then p[1..] else p
  }

  lemma {:induction false} BreakIsWhitespace(style: Style, depth: nat)
    requires ValidStyle(style)
    ensures AllWhitespace(LineBreak(style, depth))
  {
  }

  /** First values have no separator character, later ones a comma, object values a colon. */
  lemma {:induction false} PrefixShape(style: Style, level: Level, depth: nat)
    requires ValidStyle(style)
    ensures
      var p := PrefixText(style, level, depth);
      && AllWhitespace(Gap(style, level, depth))
      && (level.valueCount == 0 ==> p == Gap(style, level, depth))
      && (level.valueCount > 0 ==>
            p == [if level.inArray || level.valueCount % 2 == 0 then COMMA else COLON] + Gap(style, level, depth))
  {
    BreakIsWhitespace(style, depth);
  }

  lemma {:induction false} CloseIsWhitespace(style: Style, level: Level, depth: nat)
    requires ValidStyle(style)
    ensures AllWhitespace(CloseText(style, level, depth))
  {
    BreakIsWhitespace(style, depth);
  }

  // ----- containers, with their parts as texts that are known to be read

  /** Wherever `text` stands delimited, the reader parses it as a value and sends `sent`. */
  ghost predicate Reads(env: Env, text: Text, sent: seq<Event>) {
    forall pos: nat, events: seq<Event> ::
      StandsAt(env.src, pos, text) && Delimiter(At(env.src, pos + |text|)) ==>
        ParseValue(env, pos, events) == Parsed(pos + |text|, events + sent)
  }

  /** An element: the whitespace before it, its text, and the events it is read as. */
  datatype Item = Item(gap: Text, text: Text, sent: seq<Event>)

  ghost predicate ItemReads(env: Env, item: Item) {
    AllWhitespace(item.gap) && item.text != [] && StartsValue(item.text[0]) && Reads(env, item.text, item.sent)
  }

  /** The text of an array from element `i` on, separators and closing bracket included. */
  function ItemsText(items: seq<Item>, i: nat, close: Text): Text
    requires i <= |items|
    decreases |items| - i
  {
    if i == |items| then close + [RIGHT_BRACKET]
    else (if i > 0 then [COMMA] else []) + items[i].gap + items[i].text + ItemsText(items, i + 1, close)
  }

  function ItemsEvents(items: seq<Item>, i: nat): seq<Event>
    requires i <= |items|
    decreases |items| - i
  {
    if i == |items| then [EndArray(|items|)] else items[i].sent + ItemsEvents(items, i + 1)
  }

  /** The array parser from behind the opening bracket. */
  function ArrayBody(env: Env, pos: nat, events: seq<Event>): Outcome
    requires pos <= |env.src|
  {
    var w := SkipWhitespaceAndComments(env, pos);
    if w.None? then Failed(events)
    else if At(env.src, w.value) == RIGHT_BRACKET then Send(env, events, EndArray(0), w.value + 1)
    else ParseElements(env, w.value, events, 0)
  }

  /** Behind an element: skip, and then a comma with the next element or the closing bracket. */
  function BehindElement(env: Env, pos: nat, events: seq<Event>, count: nat): Outcome
    requires pos <= |env.src|
  {
    var w := SkipWhitespaceAndComments(env, pos);
    if w.None? then Failed(events) else AfterElement(env, w.value, events, count)
  }

  /** Whitespace, a text, the rest: skipping stops at the text. */
  lemma {:induction false} TextReached(env: Env, pos: nat, gap: Text, text: Text, rest: Text)
    requires StandsAt(env.src, pos, gap + text + rest)
    requires AllWhitespace(gap) && text != [] && Solid(text[0])
    ensures
      var p := pos + |gap|;
      && p <= |env.src| && SkipWhitespaceAndComments(env, pos) == Some(p)
      && StandsAt(env.src, p, text) && At(env.src, p) == text[0]
      && StandsAt(env.src, p + |text|, rest)
  {
    StandsAtSplit(env.src, pos, gap + text, rest);
    StandsAtSplit(env.src, pos, gap, text);
    FirstAt(env.src, pos + |gap|, text, 0);
    SkipsTo(env, pos, gap);
  }

  lemma {:induction false} EndReads(env: Env, pos: nat, close: Text, events: seq<Event>, i: nat)
    requires Accepting(env) && AllWhitespace(close) && StandsAt(env.src, pos, close + [RIGHT_BRACKET])
    ensures BehindElement(env, pos, events, i) == Parsed(pos + |close| + 1, events + [EndArray(i)])
    ensures i == 0 ==> ArrayBody(env, pos, events) == Parsed(pos + |close| + 1, events + [EndArray(i)])
  {
    assert close + [RIGHT_BRACKET] + [] == close + [RIGHT_BRACKET];
    TextReached(env, pos, close, [RIGHT_BRACKET], []);
    assert env.handler(events + [EndArray(i)]);
  }

  lemma {:induction false} CommaReads(env: Env, pos: nat, gap: Text, text: Text, rest: Text, events: seq<Event>, i: nat)
    requires AllWhitespace(gap) && text != [] && StartsValue(text[0])
    requires StandsAt(env.src, pos, [COMMA] + gap + text + rest)
    ensures StandsAt(env.src, pos + 1 + |gap|, text) && StandsAt(env.src, pos + 1 + |gap| + |text|, rest)
    ensures BehindElement(env, pos, events, i) == ParseElements(env, pos + 1 + |gap|, events, i)
  {
    hide StandsAt, SkipWhitespaceAndComments, ParseElements, ParseMembers;
    assert [COMMA] + gap + text + rest == [COMMA] + (gap + text + rest);
    StandsAtSplit(env.src, pos, [COMMA], gap + text + rest);
    FirstAt(env.src, pos, [COMMA], 0);
    TextReached(env, pos + 1, gap, text, rest);
    EmptyStands(env.src, pos);
    SkipsTo(env, pos, []);
  }

  lemma {:induction false} FirstReads(env: Env, pos: nat, gap: Text, text: Text, rest: Text, events: seq<Event>)
    requires AllWhitespace(gap) && text != [] && StartsValue(text[0])
    requires StandsAt(env.src, pos, gap + text + rest)
    ensures StandsAt(env.src, pos + |gap|, text) && StandsAt(env.src, pos + |gap| + |text|, rest)
    ensures ArrayBody(env, pos, events) == ParseElements(env, pos + |gap|, events, 0)
  {
    TextReached(env, pos, gap, text, rest);
  }

  /** One element, with the loop going on behind it. */
  lemma {:induction false} ElementReads(env: Env, pos: nat, item: Item, rest: Text, events: seq<Event>, i: nat)
    requires ItemReads(env, item) && i + 1 < SIZE_TYPE_LIMIT
    requires StandsAt(env.src, pos, item.text) && StandsAt(env.src, pos + |item.text|, rest)
    requires rest != [] && Delimiter(rest[0])
    ensures ParseElements(env, pos, events, i) == BehindElement(env, pos + |item.text|, events + item.sent, i + 1)
  {
    hide ParseValue, AfterElement, SkipWhitespaceAndComments;
    FirstAt(env.src, pos + |item.text|, rest, 0);
    assert ParseValue(env, pos, events) == Parsed(pos + |item.text|, events + item.sent);
  }

  lemma {:induction false} RestDelimits(items: seq<Item>, i: nat, close: Text)
    requires 0 < i <= |items| && AllWhitespace(close)
    ensures ItemsText(items, i, close) != [] && Delimiter(ItemsText(items, i, close)[0])
  {
    if i == |items| && close != [] {
      assert ItemsText(items, i, close)[0] == close[0];
    }
  }

  lemma {:induction false} AppendAssoc(a: seq<Event>, b: seq<Event>, c: seq<Event>)
    ensures (a + b) + c == a + (b + c)
  {
  }

  lemma {:induction false} ItemsUnfold(items: seq<Item>, i: nat, close: Text)
    requires i < |items|
    ensures
      var item, rest := items[i], ItemsText(items, i + 1, close);
      var sep := if i > 0 then [COMMA] else [];
      && ItemsText(items, i, close) == sep + item.gap + item.text + rest
      && |ItemsText(items, i, close)| == |sep| + |item.gap| + |item.text| + |rest|
      && ItemsEvents(items, i) == item.sent + ItemsEvents(items, i + 1)
  {
  }

  lemma {:induction false} ItemsEnd(items: seq<Item>, close: Text)
    ensures ItemsText(items, |items|, close) == close + [RIGHT_BRACKET]
    ensures ItemsEvents(items, |items|) == [EndArray(|items|)]
  {
  }

  /** The element loop from behind element `i - 1` on. */
  lemma {:induction false} ItemsRead(env: Env, items: seq<Item>, i: nat, close: Text, pos: nat, events: seq<Event>)
    requires Accepting(env) && AllWhitespace(close) && |items| < SIZE_TYPE_LIMIT
    requires forall k | 0 <= k < |items| :: ItemReads(env, items[k])
    requires 0 < i <= |items|
    requires StandsAt(env.src, pos, ItemsText(items, i, close))
    ensures BehindElement(env, pos, events, i)
         == Parsed(pos + |ItemsText(items, i, close)|, events + ItemsEvents(items, i))
    decreases |items| - i
  {
    hide ItemsText, ItemsEvents, BehindElement, ParseElements, StandsAt, Reads;
    if i == |items| {
      ItemsEnd(items, close);
      EndReads(env, pos, close, events, i);
    } else {
      var item, rest := items[i], ItemsText(items, i + 1, close);
      ItemsUnfold(items, i, close);
      CommaReads(env, pos, item.gap, item.text, rest, events, i);
      RestDelimits(items, i + 1, close);
      ElementReads(env, pos + 1 + |item.gap|, item, rest, events, i);
      ItemsRead(env, items, i + 1, close, pos + 1 + |item.gap| + |item.text|, events + item.sent);
      AppendAssoc(events, item.sent, ItemsEvents(items, i + 1));
    }
  }

  /** A whole array whose elements are read is read. */
  lemma {:induction false} ArrayTextReads(env: Env, items: seq<Item>, close: Text)
    requires Accepting(env) && AllWhitespace(close) && |items| < SIZE_TYPE_LIMIT
    requires forall k | 0 <= k < |items| :: ItemReads(env, items[k])
    ensures Reads(env, [LEFT_BRACKET] + ItemsText(items, 0, close), [StartArray] + ItemsEvents(items, 0))
  {
    hide ParseValue, ArrayBody;
    var body := ItemsText(items, 0, close);
    var text := [LEFT_BRACKET] + body;
    forall pos: nat, events: seq<Event> | StandsAt(env.src, pos, text)
      ensures ParseValue(env, pos, events) == Parsed(pos + |text|, events + ([StartArray] + ItemsEvents(items, 0)))
    {
      StandsAtSplit(env.src, pos, [LEFT_BRACKET], body);
      FirstAt(env.src, pos, [LEFT_BRACKET], 0);
      ArrayBodyReads(env, items, close, pos + 1, events + [StartArray]);
      ArrayStep(env, pos, events);
      AppendAssoc(events, [StartArray], ItemsEvents(items, 0));
    }
  }

  lemma {:induction false} ArrayStep(env: Env, pos: nat, events: seq<Event>)
    requires Accepting(env) && At(env.src, pos) == LEFT_BRACKET
    ensures ParseValue(env, pos, events) == ArrayBody(env, pos + 1, events + [StartArray])
  {
    assert env.handler(events + [StartArray]);
  }

  lemma {:induction false} ArrayBodyReads(env: Env, items: seq<Item>, close: Text, pos: nat, events: seq<Event>)
    requires Accepting(env) && AllWhitespace(close) && |items| < SIZE_TYPE_LIMIT
    requires forall k | 0 <= k < |items| :: ItemReads(env, items[k])
    requires StandsAt(env.src, pos, ItemsText(items, 0, close))
    ensures ArrayBody(env, pos, events) == Parsed(pos + |ItemsText(items, 0, close)|, events + ItemsEvents(items, 0))
  {
    hide ItemsText, ItemsEvents, BehindElement, ArrayBody, ParseElements, StandsAt, Reads;
    if items == [] {
      ItemsEnd(items, close);
      EndReads(env, pos, close, events, 0);
    } else {
      var item, rest := items[0], ItemsText(items, 1, close);
      ItemsUnfold(items, 0, close);
      assert [] + item.gap + item.text + rest == item.gap + item.text + rest;
      FirstReads(env, pos, item.gap, item.text, rest, events);
      RestDelimits(items, 1, close);
      ElementReads(env, pos + |item.gap|, item, rest, events, 0);
      ItemsRead(env, items, 1, close, pos + |item.gap| + |item.text|, events + item.sent);
      AppendAssoc(events, item.sent, ItemsEvents(items, 1));
    }
  }

  // ----- objects

  /** A member: whitespace, name, whitespace behind the colon, the value's text and its events. */
  datatype Entry = Entry(gap: Text, key: Text, colonGap: Text, text: Text, sent: seq<Event>)

  ghost predicate EntryReads(env: Env, entry: Entry) {
    && AllWhitespace(entry.gap) && AllWhitespace(entry.colonGap) && CleanText(env, entry.key)
    && entry.text != [] && StartsValue(entry.text[0]) && Reads(env, entry.text, entry.sent)
  }

  function EntriesText(entries: seq<Entry>, i: nat, close: Text): Text
    requires i <= |entries|
    decreases |entries| - i
  {
    if i == |entries| then close + [RIGHT_BRACE]
    else
      (if i > 0 then [COMMA] else []) + entries[i].gap + Quoted(entries[i].key)
      + ([COLON] + entries[i].colonGap + entries[i].text + EntriesText(entries, i + 1, close))
  }

  function EntriesEvents(entries: seq<Entry>, i: nat): seq<Event>
    requires i <= |entries|
    decreases |entries| - i
  {
    if i == |entries| then [EndObject(|entries|)]
    else [Key(entries[i].key)] + entries[i].sent + EntriesEvents(entries, i + 1)
  }

  function ObjectBody(env: Env, pos: nat, events: seq<Event>): Outcome
    requires pos <= |env.src|
  {
    var w := SkipWhitespaceAndComments(env, pos);
    if w.None? then Failed(events)
    else if At(env.src, w.value) == RIGHT_BRACE then Send(env, events, EndObject(0), w.value + 1)
    else ParseMembers(env, w.value, events, 0)
  }

  function BehindMember(env: Env, pos: nat, events: seq<Event>, count: nat): Outcome
    requires pos <= |env.src|
  {
    var w := SkipWhitespaceAndComments(env, pos);
    if w.None? then Failed(events) else AfterMember(env, w.value, events, count)
  }

  lemma {:induction false} ObjectEndReads(env: Env, pos: nat, close: Text, events: seq<Event>, i: nat)
    requires Accepting(env) && AllWhitespace(close) && StandsAt(env.src, pos, close + [RIGHT_BRACE])
    ensures BehindMember(env, pos, events, i) == Parsed(pos + |close| + 1, events + [EndObject(i)])
    ensures i == 0 ==> ObjectBody(env, pos, events) == Parsed(pos + |close| + 1, events + [EndObject(i)])
  {
    assert close + [RIGHT_BRACE] + [] == close + [RIGHT_BRACE];
    TextReached(env, pos, close, [RIGHT_BRACE], []);
    assert env.handler(events + [EndObject(i)]);
  }

  lemma {:induction false} MemberCommaReads(env: Env, pos: nat, gap: Text, text: Text, rest: Text,
                                            events: seq<Event>, i: nat)
    requires AllWhitespace(gap) && text != [] && StartsValue(text[0])
    requires StandsAt(env.src, pos, [COMMA] + gap + text + rest)
    ensures StandsAt(env.src, pos + 1 + |gap|, text) && StandsAt(env.src, pos + 1 + |gap| + |text|, rest)
    ensures BehindMember(env, pos, events, i) == ParseMembers(env, pos + 1 + |gap|, events, i)
  {
    hide StandsAt, SkipWhitespaceAndComments, ParseElements, ParseMembers;
    assert [COMMA] + gap + text + rest == [COMMA] + (gap + text + rest);
    StandsAtSplit(env.src, pos, [COMMA], gap + text + rest);
    FirstAt(env.src, pos, [COMMA], 0);
    TextReached(env, pos + 1, gap, text, rest);
    EmptyStands(env.src, pos);
    SkipsTo(env, pos, []);
  }

  lemma {:induction false} FirstMemberReads(env: Env, pos: nat, gap: Text, text: Text, rest: Text, events: seq<Event>)
    requires AllWhitespace(gap) && text != [] && StartsValue(text[0])
    requires StandsAt(env.src, pos, gap + text + rest)
    ensures StandsAt(env.src, pos + |gap|, text) && StandsAt(env.src, pos + |gap| + |text|, rest)
    ensures ObjectBody(env, pos, events) == ParseMembers(env, pos + |gap|, events, 0)
  {
    TextReached(env, pos, gap, text, rest);
  }

  lemma {:induction false} QuotedShape(s: Text)
    ensures Quoted(s) != [] && Quoted(s)[0] == QUOTE && StartsValue(QUOTE)
  {
  }

  lemma {:induction false} NameReads(env: Env, pos: nat, key: Text, rest: Text, events: seq<Event>)
    requires Accepting(env) && CleanText(env, key)
    requires StandsAt(env.src, pos, Quoted(key)) && StandsAt(env.src, pos + |Quoted(key)|, [COLON] + rest)
    ensures StandsAt(env.src, pos + |Quoted(key)| + 1, rest)
    ensures ParseMemberName(env, pos, events) == Parsed(pos + |Quoted(key)| + 1, events + [Key(key)])
  {
    hide StringBody, StandsAt, Quoted, Reported;
    var p := pos + |Quoted(key)|;
    StringReads(env, pos, key);
    StringIntact(key);
    StandsAtSplit(env.src, p, [COLON], rest);
    FirstAt(env.src, p, [COLON], 0);
    EmptyStands(env.src, p);
    SkipsTo(env, p, []);
    assert env.handler(events + [Key(key)]);
  }

  lemma {:induction false} EmptyStands(s: Text, p: nat)
    requires p <= |s|
    ensures StandsAt(s, p, [])
  {
  }

  /** One member, with the loop going on behind it. */
  lemma {:induction false} MemberReads(env: Env, pos: nat, entry: Entry, rest: Text, events: seq<Event>, i: nat)
    requires Accepting(env) && EntryReads(env, entry) && i + 1 < SIZE_TYPE_LIMIT
    requires StandsAt(env.src, pos, Quoted(entry.key))
    requires StandsAt(env.src, pos + |Quoted(entry.key)|, [COLON] + entry.colonGap + entry.text + rest)
    requires rest != [] && Delimiter(rest[0])
    ensures
      var next := pos + |Quoted(entry.key)| + 1 + |entry.colonGap| + |entry.text|;
      && StandsAt(env.src, next, rest)
      && ParseMembers(env, pos, events, i) == BehindMember(env, next, events + [Key(entry.key)] + entry.sent, i + 1)
  {
    hide ParseValue, AfterMember, SkipWhitespaceAndComments, ParseMemberName, Quoted, StandsAt;
    var tail := entry.colonGap + entry.text + rest;
    assert [COLON] + entry.colonGap + entry.text + rest == [COLON] + tail;
    NameReads(env, pos, entry.key, tail, events);
    var p := pos + |Quoted(entry.key)| + 1;
    TextReached(env, p, entry.colonGap, entry.text, rest);
    var v := p + |entry.colonGap|;
    FirstAt(env.src, v + |entry.text|, rest, 0);
    assert ParseValue(env, v, events + [Key(entry.key)])
      == Parsed(v + |entry.text|, events + [Key(entry.key)] + entry.sent);
  }

  lemma {:induction false} EntriesDelimit(entries: seq<Entry>, i: nat, close: Text)
    requires 0 < i <= |entries| && AllWhitespace(close)
    ensures EntriesText(entries, i, close) != [] && Delimiter(EntriesText(entries, i, close)[0])
  {
    if i == |entries| && close != [] {
      assert EntriesText(entries, i, close)[0] == close[0];
    }
  }

  lemma {:induction false} EntriesUnfold(entries: seq<Entry>, i: nat, close: Text)
    requires i < |entries|
    ensures
      var e, rest := entries[i], EntriesText(entries, i + 1, close);
      var sep := if i > 0 then [COMMA] else [];
      && EntriesText(entries, i, close) == sep + e.gap + Quoted(e.key) + ([COLON] + e.colonGap + e.text + rest)
      && |EntriesText(entries, i, close)| == |sep| + |e.gap| + |Quoted(e.key)| + 1 + |e.colonGap| + |e.text| + |rest|
      && EntriesEvents(entries, i) == [Key(e.key)] + e.sent + EntriesEvents(entries, i + 1)
  {
  }

  lemma {:induction false} EntriesEnd(entries: seq<Entry>, close: Text)
    ensures EntriesText(entries, |entries|, close) == close + [RIGHT_BRACE]
    ensures EntriesEvents(entries, |entries|) == [EndObject(|entries|)]
  {
  }

  lemma {:induction false} AppendAssoc4(a: seq<Event>, b: seq<Event>, c: seq<Event>, d: seq<Event>)
    ensures a + b + c + d == a + (b + c + d)
  {
  }

  /** The member loop from behind member `i - 1` on. */
  lemma {:induction false} EntriesRead(env: Env, entries: seq<Entry>, i: nat, close: Text, pos: nat, events: seq<Event>)
    requires Accepting(env) && AllWhitespace(close) && |entries| < SIZE_TYPE_LIMIT
    requires forall k | 0 <= k < |entries| :: EntryReads(env, entries[k])
    requires 0 < i <= |entries|
    requires StandsAt(env.src, pos, EntriesText(entries, i, close))
    ensures BehindMember(env, pos, events, i)
         == Parsed(pos + |EntriesText(entries, i, close)|, events + EntriesEvents(entries, i))
    decreases |entries| - i
  {
    hide EntriesText, EntriesEvents, BehindMember, ParseMembers, Quoted, StandsAt, Reads;
    if i == |entries| {
      EntriesEnd(entries, close);
      ObjectEndReads(env, pos, close, events, i);
    } else {
      var e, rest := entries[i], EntriesText(entries, i + 1, close);
      var tail := [COLON] + e.colonGap + e.text + rest;
      EntriesUnfold(entries, i, close);
      QuotedShape(e.key);
      MemberCommaReads(env, pos, e.gap, Quoted(e.key), tail, events, i);
      EntriesDelimit(entries, i + 1, close);
      var p := pos + 1 + |e.gap|;
      MemberReads(env, p, e, rest, events, i);
      EntriesRead(env, entries, i + 1, close, p + |Quoted(e.key)| + 1 + |e.colonGap| + |e.text|,
                  events + [Key(e.key)] + e.sent);
      AppendAssoc4(events, [Key(e.key)], e.sent, EntriesEvents(entries, i + 1));
    }
  }

  lemma {:induction false} ObjectBodyReads(env: Env, entries: seq<Entry>, close: Text, pos: nat, events: seq<Event>)
    requires Accepting(env) && AllWhitespace(close) && |entries| < SIZE_TYPE_LIMIT
    requires forall k | 0 <= k < |entries| :: EntryReads(env, entries[k])
    requires StandsAt(env.src, pos, EntriesText(entries, 0, close))
    ensures ObjectBody(env, pos, events)
      == Parsed(pos + |EntriesText(entries, 0, close)|, events + EntriesEvents(entries, 0))
  {
    hide EntriesText, EntriesEvents, BehindMember, ObjectBody, ParseMembers, Quoted, StandsAt, Reads;
    if entries == [] {
      EntriesEnd(entries, close);
      ObjectEndReads(env, pos, close, events, 0);
    } else {
      var e, rest := entries[0], EntriesText(entries, 1, close);
      var tail := [COLON] + e.colonGap + e.text + rest;
      EntriesUnfold(entries, 0, close);
      assert [] + e.gap + Quoted(e.key) + tail == e.gap + Quoted(e.key) + tail;
      QuotedShape(e.key);
      FirstMemberReads(env, pos, e.gap, Quoted(e.key), tail, events);
      EntriesDelimit(entries, 1, close);
      var p := pos + |e.gap|;
      MemberReads(env, p, e, rest, events, 0);
      EntriesRead(env, entries, 1, close, p + |Quoted(e.key)| + 1 + |e.colonGap| + |e.text|,
                  events + [Key(e.key)] + e.sent);
      AppendAssoc4(events, [Key(e.key)], e.sent, EntriesEvents(entries, 1));
    }
  }

  lemma {:induction false} ObjectStep(env: Env, pos: nat, events: seq<Event>)
    requires Accepting(env) && At(env.src, pos) == LEFT_BRACE
    ensures ParseValue(env, pos, events) == ObjectBody(env, pos + 1, events + [StartObject])
  {
    assert env.handler(events + [StartObject]);
  }

  /** A whole object whose names are clean and whose values are read is read. */
  lemma {:induction false} ObjectTextReads(env: Env, entries: seq<Entry>, close: Text)
    requires Accepting(env) && AllWhitespace(close) && |entries| < SIZE_TYPE_LIMIT
    requires forall k | 0 <= k < |entries| :: EntryReads(env, entries[k])
    ensures Reads(env, [LEFT_BRACE] + EntriesText(entries, 0, close), [StartObject] + EntriesEvents(entries, 0))
  {
    hide ParseValue, ObjectBody, EntriesText, EntriesEvents;
    var body := EntriesText(entries, 0, close);
    var text := [LEFT_BRACE] + body;
    forall pos: nat, events: seq<Event> | StandsAt(env.src, pos, text)
      ensures ParseValue(env, pos, events) == Parsed(pos + |text|, events + ([StartObject] + EntriesEvents(entries, 0)))
    {
      StandsAtSplit(env.src, pos, [LEFT_BRACE], body);
      FirstAt(env.src, pos, [LEFT_BRACE], 0);
      ObjectBodyReads(env, entries, close, pos + 1, events + [StartObject]);
      ObjectStep(env, pos, events);
      AppendAssoc(events, [StartObject], EntriesEvents(entries, 0));
    }
  }

  // ----- printed trees

  function ItemsOf(style: Style, parts: seq<EventTree>, depth: nat): (r: seq<Item>)
    ensures |r| == |parts|
  {
    seq(|parts|, i requires 0 <= i < |parts| =>
      Item(Gap(style, Level(i, true), depth + 1), Print(style, parts[i], depth + 1), Flatten(RereadTree(parts[i]))))
  }

  function EntriesOf(style: Style, fields: seq<Field>, depth: nat): (r: seq<Entry>)
    ensures |r| == |fields|
  {
    seq(|fields|, i requires 0 <= i < |fields| =>
      Entry(Gap(style, Level(2 * i, false), depth + 1), fields[i].key, Gap(style, Level(2 * i + 1, false), depth + 1),
            Print(style, fields[i].tree, depth + 1), Flatten(RereadTree(fields[i].tree))))
  }

  lemma {:induction false} PartsAsItems(style: Style, parts: seq<EventTree>, i: nat, depth: nat)
    requires ValidStyle(style) && i <= |parts|
    ensures PrintParts(style, parts, i, depth)
         == ItemsText(ItemsOf(style, parts, depth), i, CloseText(style, Level(|parts|, true), depth))
    decreases |parts| - i
  {
    hide Print, PrefixText, CloseText, Gap, RereadTree, Flatten;
    if i < |parts| {
      PartsAsItems(style, parts, i + 1, depth);
      PrefixShape(style, Level(i, true), depth + 1);
      if i == 0 {
        assert [] + Gap(style, Level(i, true), depth + 1) == Gap(style, Level(i, true), depth + 1);
      }
    }
  }

  lemma {:induction false} FieldsAsEntries(style: Style, fields: seq<Field>, i: nat, depth: nat)
    requires ValidStyle(style) && i <= |fields|
    ensures PrintFields(style, fields, i, depth)
         == EntriesText(EntriesOf(style, fields, depth), i, CloseText(style, Level(2 * |fields|, false), depth))
    decreases |fields| - i
  {
    hide EntriesText, PrintFields;
    var entries, close := EntriesOf(style, fields, depth), CloseText(style, Level(2 * |fields|, false), depth);
    if i == |fields| {
      EntriesEnd(entries, close);
      FieldsEnd(style, fields, depth);
    } else {
      FieldsAsEntries(style, fields, i + 1, depth);
      EntriesUnfold(entries, i, close);
      FieldAsEntry(style, fields, i, depth, EntriesText(entries, i + 1, close));
    }
  }

  lemma {:induction false} FieldsEnd(style: Style, fields: seq<Field>, depth: nat)
    ensures PrintFields(style, fields, |fields|, depth)
      == CloseText(style, Level(2 * |fields|, false), depth) + [RIGHT_BRACE]
  {
    hide CloseText;
  }

  lemma {:induction false} FieldAsEntry(style: Style, fields: seq<Field>, i: nat, depth: nat, rest: Text)
    requires ValidStyle(style) && i < |fields| && rest == PrintFields(style, fields, i + 1, depth)
    ensures
      var e := EntriesOf(style, fields, depth)[i];
      var sep := if i > 0 then [COMMA] else [];
      PrintFields(style, fields, i, depth) == sep + e.gap + Quoted(e.key) + ([COLON] + e.colonGap + e.text + rest)
  {
    hide Print, PrefixText, CloseText, Gap, RereadTree, Flatten, Quoted;
    PrefixShape(style, Level(2 * i, false), depth + 1);
    PrefixShape(style, Level(2 * i + 1, false), depth + 1);
    var e := EntriesOf(style, fields, depth)[i];
    if i == 0 {
      assert [] + e.gap == e.gap;
    }
    var sep := if i > 0 then [COMMA] else [];
    Regroup(sep + e.gap + Quoted(e.key), [COLON] + e.colonGap, e.text, rest);
  }

  lemma {:induction false} Regroup(a: Text, b: Text, c: Text, d: Text)
    ensures a + b + c + d == a + (b + c + d)
  {
  }

  lemma {:induction false} ItemsFlatten(style: Style, parts: seq<EventTree>, i: nat, depth: nat)
    requires i <= |parts|
    ensures ItemsEvents(ItemsOf(style, parts, depth), i)
         == PartsFrom(RereadTree(ArrayTree(parts)).parts, i) + [EndArray(|parts|)]
    decreases |parts| - i
  {
    hide Print, Gap, Flatten;
    if i < |parts| {
      ItemsFlatten(style, parts, i + 1, depth);
    }
  }

  lemma {:induction false} EntriesFlatten(style: Style, fields: seq<Field>, i: nat, depth: nat)
    requires i <= |fields|
    ensures EntriesEvents(EntriesOf(style, fields, depth), i)
         == FieldsFrom(RereadTree(ObjectTree(fields)).fields, i) + [EndObject(|fields|)]
    decreases |fields| - i
  {
    hide Print, Gap, Flatten;
    if i < |fields| {
      EntriesFlatten(style, fields, i + 1, depth);
    }
  }

  /** Wherever the text of a readable tree stands delimited, it is parsed and its events are sent. */
  lemma {:induction false} TreeReads(env: Env, style: Style, t: EventTree, depth: nat)
    requires Accepting(env) && ValidStyle(style) && Readable(env, t)
    ensures Reads(env, Print(style, t, depth), Flatten(RereadTree(t)))
    decreases t
  {
    hide Reads, ItemReads, EntryReads, ItemsOf, EntriesOf;
    match t {
      case Leaf(e) =>
        LeafReads(env, e);
      case ArrayTree(parts) =>
        forall i | 0 <= i < |parts| ensures ItemReads(env, ItemsOf(style, parts, depth)[i]) {
          TreeReads(env, style, parts[i], depth + 1);
          PartReads(env, style, parts, i, depth);
        }
        ArrayTreeReads(env, style, parts, depth);
      case ObjectTree(fields) =>
        forall i | 0 <= i < |fields| ensures EntryReads(env, EntriesOf(style, fields, depth)[i]) {
          TreeReads(env, style, fields[i].tree, depth + 1);
          FieldReads(env, style, fields, i, depth);
        }
        ObjectTreeReads(env, style, fields, depth);
    }
  }

  lemma {:induction false} PartReads(env: Env, style: Style, parts: seq<EventTree>, i: nat, depth: nat)
    requires ValidStyle(style) && i < |parts| && Readable(env, parts[i])
    requires Reads(env, Print(style, parts[i], depth + 1), Flatten(RereadTree(parts[i])))
    ensures ItemReads(env, ItemsOf(style, parts, depth)[i])
  {
    hide Reads, Print, RereadTree, Flatten, Readable, PrefixText, Gap;
    PrintStarts(env, style, parts[i], depth + 1);
    PrefixShape(style, Level(i, true), depth + 1);
  }

  lemma {:induction false} FieldReads(env: Env, style: Style, fields: seq<Field>, i: nat, depth: nat)
    requires ValidStyle(style) && i < |fields| && Readable(env, fields[i].tree) && CleanText(env, fields[i].key)
    requires Reads(env, Print(style, fields[i].tree, depth + 1), Flatten(RereadTree(fields[i].tree)))
    ensures EntryReads(env, EntriesOf(style, fields, depth)[i])
  {
    hide Reads, Print, RereadTree, Flatten, Readable, PrefixText, Gap;
    PrintStarts(env, style, fields[i].tree, depth + 1);
    PrefixShape(style, Level(2 * i, false), depth + 1);
    PrefixShape(style, Level(2 * i + 1, false), depth + 1);
  }

  lemma {:induction false} LeafReads(env: Env, e: Event)
    requires Accepting(env) && ScalarEvent(e) && !e.Double? && (e.String? ==> CleanText(env, e.str))
    ensures Reads(env, ScalarText(e), [Reread(e)])
  {
    hide ScalarText, Reread, ParseValue;
    forall pos: nat, events: seq<Event>
      | StandsAt(env.src, pos, ScalarText(e)) && Delimiter(At(env.src, pos + |ScalarText(e)|))
      ensures ParseValue(env, pos, events) == Parsed(pos + |ScalarText(e)|, events + [Reread(e)])
    {
      ScalarReads(env, pos, e, events);
    }
  }

  lemma {:induction false} ArrayTreeReads(env: Env, style: Style, parts: seq<EventTree>, depth: nat)
    requires Accepting(env) && ValidStyle(style) && |parts| < SIZE_TYPE_LIMIT
    requires forall i | 0 <= i < |parts| :: ItemReads(env, ItemsOf(style, parts, depth)[i])
    ensures Reads(env, Print(style, ArrayTree(parts), depth), Flatten(RereadTree(ArrayTree(parts))))
  {
    hide Reads, ItemReads, ItemsOf, ItemsText, ItemsEvents, CloseText;
    PartsAsItems(style, parts, 0, depth);
    ItemsFlatten(style, parts, 0, depth);
    ArrayFlat(RereadTree(ArrayTree(parts)).parts);
    CloseIsWhitespace(style, Level(|parts|, true), depth);
    ArrayTextReads(env, ItemsOf(style, parts, depth), CloseText(style, Level(|parts|, true), depth));
  }

  lemma {:induction false} ObjectTreeReads(env: Env, style: Style, fields: seq<Field>, depth: nat)
    requires Accepting(env) && ValidStyle(style) && |fields| < SIZE_TYPE_LIMIT
    requires forall i | 0 <= i < |fields| :: EntryReads(env, EntriesOf(style, fields, depth)[i])
    ensures Reads(env, Print(style, ObjectTree(fields), depth), Flatten(RereadTree(ObjectTree(fields))))
  {
    hide Reads, EntryReads, EntriesOf, EntriesText, EntriesEvents, CloseText;
    FieldsAsEntries(style, fields, 0, depth);
    EntriesFlatten(style, fields, 0, depth);
    ObjectFlat(RereadTree(ObjectTree(fields)).fields);
    CloseIsWhitespace(style, Level(2 * |fields|, false), depth);
    ObjectTextReads(env, EntriesOf(style, fields, depth), CloseText(style, Level(2 * |fields|, false), depth));
  }

  // ----- whole documents

  /** The whole text of a readable tree parses to its end and sends the tree's events. */
  lemma {:induction false} TextParses(env: Env, style: Style, t: EventTree)
    requires Accepting(env) && ValidStyle(style) && Readable(env, t)
    requires env.src == Print(style, t, 0)
    ensures Parse(env, 0) == Parsed(|env.src|, Flatten(RereadTree(t)))
  {
    hide Print, RereadTree, Flatten, ParseValue, Readable;
    TreeReads(env, style, t, 0);
    PrintStarts(env, style, t, 0);
    StandsAtSlice(env.src, 0, env.src);
    EmptyStands(env.src, 0);
    EmptyStands(env.src, |env.src|);
    SkipsTo(env, 0, []);
    SkipsTo(env, |env.src|, []);
    assert ParseValue(env, 0, []) == Parsed(|env.src|, [] + Flatten(RereadTree(t)));
    assert [] + Flatten(RereadTree(t)) == Flatten(RereadTree(t));
  }

  /** Values the round trip is promised for: no doubles, and UTF-8 strings where the reader validates. */
  predicate Clean(validate: bool, v: Value) {
    match v
    case DoubleValue(_) => false
    case StringValue(s) => CleanBytes(validate, s)
    case ArrayValue(elements) => forall i | 0 <= i < |elements| :: Clean(validate, elements[i])
    case ObjectValue(members) =>
      forall i | 0 <= i < |members| :: CleanBytes(validate, members[i].name) && Clean(validate, members[i].value)
    case _ => true
  }

  predicate CleanBytes(validate: bool, s: Text) {
    validate ==> ValidUtf8(s)
  }

  lemma {:induction false} CleanReadable(env: Env, v: Value)
    requires WellFormed(v) && Clean(env.flags.validateEncoding, v) && LiteralsFit(v)
    ensures Readable(env, AcceptTree(v))
  {
    hide LiteralFits;
    match v {
      case NumberValue(n) =>
      case StringValue(s) =>
        FittingShort(s);
      case ArrayValue(elements) =>
        forall i | 0 <= i < |elements| ensures Readable(env, AcceptTree(elements[i])) {
          CleanReadable(env, elements[i]);
        }
      case ObjectValue(members) =>
        forall i | 0 <= i < |members|
          ensures CleanText(env, members[i].name) && Readable(env, AcceptTree(members[i].value))
        {
          FittingShort(members[i].name);
          CleanReadable(env, members[i].value);
        }
      case _ =>
    }
  }

  /**
   * Printing then parsing is the identity. Whatever the style and the flags, what a writer puts out
   * for `v` without overrunning a reservation is accepted to its end by the recursive and the
   * iterative parser alike, and the events they send make the document hold exactly `v`, number flags
   * included.
   */
  lemma {:induction false} PrintedTextReadsBack(env: Env, style: Style, v: Value) returns (events: seq<Event>)
    requires Accepting(env) && ValidStyle(style) && !env.strict
    requires WellFormed(v) && Clean(env.flags.validateEncoding, v) && LiteralsFit(v)
    requires Run(style, INITIAL, Flatten(AcceptTree(v))) == Some(WriterState(env.src, [], true))
    ensures Parse(env, 0) == StackedReader.IterativeParse(env, 0) == Parsed(|env.src|, events)
    ensures HandleAll([], events) == Some([v])
  {
    hide AcceptTree, RereadTree, Flatten, Print, Run, Readable, Printable, WellFormedTree, WellFormed, Clean, Denote,
      HandleAll, Parse, StackedReader.IterativeParse, LiteralsFit;
    var t := AcceptTree(v);
    var strict := StackedReader.Strict(env);
    CleanReadable(env, v);
    CleanReadable(strict, v);
    ReadableWellFormed(env, t);
    RootPrints(style, t);
    TextParses(env, style, t);
    TextParses(strict, style, t);
    StackedReader.ParsersAgree(env, 0);
    events := Flatten(RereadTree(t));
    RereadDenotes(t);
    AcceptCopies(v);
    HandlersBuild([], RereadTree(t));
    assert [] + [v] == [v];
  }

  /** A writer never gets stuck on a document's value, so the premise above can always be met. */
  lemma {:induction false} EveryValuePrints(style: Style, v: Value)
    requires WellFormed(v)
    ensures Run(style, INITIAL, Flatten(AcceptTree(v))) == Some(WriterState(Print(style, AcceptTree(v), 0), [], true))
  {
    AcceptCopies(v);
    WellFormedPrintable(AcceptTree(v));
    RootPrints(style, AcceptTree(v));
  }

  lemma {:induction false} WellFormedPrintable(t: EventTree)
    requires WellFormedTree(t)
    ensures Printable(t)
  {
    match t {
      case Leaf(e) =>
      case ArrayTree(parts) =>
        forall i | 0 <= i < |parts| ensures Printable(parts[i]) {
          WellFormedPrintable(parts[i]);
        }
      case ObjectTree(fields) =>
        forall i | 0 <= i < |fields| ensures Printable(fields[i].tree) {
          WellFormedPrintable(fields[i].tree);
        }
    }
  }
}
