/**
 * The table-driven parser on the stack it has (reader.h): one stack of bytes, on which the 32-bit cells
 * of its frames lie among what strings leave behind; and when it agrees with the recursive parser.
 */
module StackedReader {
  import opened Bytes
  import opened Encodings
  import opened Events
  import opened Scanner
  import opened StringStack
  import R = RecursiveReader
  import A = IterativeReader
  import ReaderEquivalence
  import opened Options

  // ----- cells

  /** A SizeType on the stack, lowest byte first. */
  function Cell(n: nat): (b: Text)
    requires n < SIZE_TYPE_LIMIT
    ensures |b| == 4
  {
    [n % 256, n / 256 % 256, n / 0x1_0000 % 256, n / 0x100_0000]
  }

  function CellValue(b: Text): (n: nat)
    requires |b| == 4
    ensures n < SIZE_TYPE_LIMIT
  {
    var b0: int, b1: int, b2: int, b3: int := b[0], b[1], b[2], b[3];
    b0 + 256 * b1 + 0x1_0000 * b2 + 0x100_0000 * b3
  }

  lemma {:induction false} CellReads(n: nat)
    requires n < SIZE_TYPE_LIMIT
    ensures CellValue(Cell(n)) == n
  {
    var a, b := n / 256, n / 0x1_0000;
    assert n == 256 * a + n % 256 && a == 256 * (a / 256) + a % 256 && b == 256 * (b / 256) + b % 256;
    assert a / 256 == b && b / 256 == n / 0x100_0000;
  }

  /** The enumerators of IterativeParsingState. */
  function StateCode(s: A.State): (n: nat)
    ensures n < 14
  {
    match s
    case FinishState => 0
    case ErrorState => 1
    case StartState => 2
    case ObjectInitialState => 3
    case MemberKeyState => 4
    case MemberValueState => 5
    case ObjectFinishState => 6
    case ArrayInitialState => 7
    case ElementState => 8
    case ArrayFinishState => 9
    case ValueState => 10
    case ElementDelimiterState => 11
    case MemberDelimiterState => 12
    case KeyValueDelimiterState => 13
  }

  /** The state a cell stands for; nothing for a number outside the enumeration. */
  function StateOf(n: nat): Option<A.State> {
    if n == 0 then Some(A.FinishState)
    else if n == 1 then Some(A.ErrorState)
    else if n == 2 then Some(A.StartState)
    else if n == 3 then Some(A.ObjectInitialState)
    else if n == 4 then Some(A.MemberKeyState)
    else if n == 5 then Some(A.MemberValueState)
    else if n == 6 then Some(A.ObjectFinishState)
    else if n == 7 then Some(A.ArrayInitialState)
    else if n == 8 then Some(A.ElementState)
    else if n == 9 then Some(A.ArrayFinishState)
    else if n == 10 then Some(A.ValueState)
    else if n == 11 then Some(A.ElementDelimiterState)
    else if n == 12 then Some(A.MemberDelimiterState)
    else if n == 13 then Some(A.KeyValueDelimiterState)
    else None
  }

  lemma {:induction false} StateReads(s: A.State)
    ensures StateOf(StateCode(s)) == Some(s)
  {
  }

  // ----- the automaton

  /** A configuration of the automaton, or the history at the point where it stopped. */
  datatype Config =
    | Running(state: A.State, stack: Text, pos: nat, events: seq<Event>)
    | Stopped(events: seq<Event>)

  function Advance(r: Outcome, state: A.State, stack: Text): Config {
    match r
    case Parsed(pos, events) => Running(state, stack, pos, events)
    case Failed(events) => Stopped(events)
  }

  /** What parsing a string at `pos` leaves on the stack; other scalars leave nothing. */
  function LiteralLeft(env: Env, pos: nat): Text {
    if At(env.src, pos) != QUOTE then []
    else
      var b := StringBody(env, pos + 1, []);
      if b.None? then [] else LeftOver(b.value.1)
  }

  /**
   * Closing a container: its count and the state to return to are whatever the upper two cells say. A
   * state that is none would be looked up outside the table; there is no saying what the code does
   * then, and the automaton stops.
   */
  function Close(env: Env, stack: Text, pos: nat, events: seq<Event>, last: bool, isObject: bool): Config {
    if |stack| < 8 then Stopped(events)
    else
      var n := |stack|;
      var c := CellValue(stack[n - 4..]);
      var count := if last then Increment(c) else c;
      var s := R.Send(env, events, if isObject then EndObject(count) else EndArray(count), pos + 1);
      var state := StateOf(CellValue(stack[n - 8..n - 4]));
      if s.Failed? || state.None? then Stopped(s.events)
      else Running(if state.value.StartState? then A.FinishState else state.value, stack[..n - 8], s.pos, s.events)
  }

  /** One transition into the predicted state `dst`. */
  function Transit(env: Env, src: A.State, dst: A.State, stack: Text, pos: nat, events: seq<Event>): Config
    requires pos <= |env.src|
    requires dst == A.Predict(src, A.Tokenize(At(env.src, pos)))
  {
    if dst.ErrorState? then Stopped(events)
    else if dst.ObjectInitialState? || dst.ArrayInitialState? then
      Advance(R.Send(env, events, if dst.ObjectInitialState? then StartObject else StartArray, pos + 1), dst,
              stack + Cell(StateCode(A.ReturnState(src))) + Cell(0))
    else if dst.MemberKeyState? then Advance(R.ParseString(env, pos, events, true), dst, stack + LiteralLeft(env, pos))
    else if dst.KeyValueDelimiterState? then Running(dst, stack, pos + 1, events)
    else if dst.MemberValueState? || dst.ElementState? then
      Advance(R.ParseValue(env, pos, events), dst, stack + LiteralLeft(env, pos))
    else if dst.MemberDelimiterState? || dst.ElementDelimiterState? then
      if |stack| < 4 then Stopped(events)
      else
        var n := |stack|;
        Running(dst, stack[..n - 4] + Cell(Increment(CellValue(stack[n - 4..]))), pos + 1, events)
    else if dst.ObjectFinishState? then
      if !env.flags.trailingCommas && src.MemberDelimiterState? then Stopped(events)
      else Close(env, stack, pos, events, src.MemberValueState?, true)
    else if dst.ArrayFinishState? then
      if !env.flags.trailingCommas && src.ElementDelimiterState? then Stopped(events)
      else Close(env, stack, pos, events, src.ElementState?, false)
    else Advance(R.ParseValue(env, pos, events), A.FinishState, stack + LiteralLeft(env, pos))
  }

  lemma {:induction false} TransitMoves(env: Env, src: A.State, stack: Text, pos: nat, events: seq<Event>)
    requires pos < |env.src|
    ensures
      var c := Transit(env, src, A.Predict(src, A.Tokenize(At(env.src, pos))), stack, pos, events);
      c.Running? ==> pos < c.pos <= |env.src|
  {
  }

  /** The main loop, with whitespace before `pos` already skipped. */
  function Loop(env: Env, state: A.State, stack: Text, pos: nat, events: seq<Event>): (r: Outcome)
    requires pos <= |env.src|
    decreases |env.src| - pos, 0
  {
    if At(env.src, pos) == NUL then
      if state.FinishState? then Parsed(pos, events) else Failed(events)
    else
      TransitMoves(env, state, stack, pos, events);
      match Transit(env, state, A.Predict(state, A.Tokenize(At(env.src, pos))), stack, pos, events)
      case Stopped(evs) => Failed(evs)
      case Running(st, stk, p, evs) => Continue(env, st, stk, p, evs)
  }

  /** Behind a transition: stop at a finished root when asked to, else skip and go on. */
  function Continue(env: Env, state: A.State, stack: Text, pos: nat, events: seq<Event>): (r: Outcome)
    requires pos <= |env.src|
    decreases |env.src| - pos, 1
  {
    if env.flags.stopWhenDone && state.FinishState? then Parsed(pos, events)
    else
      var w := SkipWhitespaceAndComments(env, pos);
      if w.None? then Failed(events) else Loop(env, state, stack, w.value, events)
  }

  function IterativeParse(env: Env, pos: nat): Outcome
    requires pos <= |env.src|
  {
    var w := SkipWhitespaceAndComments(env, pos);
    if w.None? then Failed([]) else Loop(env, A.StartState, [], w.value, [])
  }

  /** The error state is left no more. */
  lemma {:induction false} ErrorStays(env: Env, stack: Text, pos: nat, events: seq<Event>)
    requires pos <= |env.src|
    ensures Continue(env, A.ErrorState, stack, pos, events) == Failed(events)
  {
  }

  // ----- the frames among the bytes

  predicate CountsFit(frames: seq<A.Frame>) {
    forall i | 0 <= i < |frames| :: frames[i].count < SIZE_TYPE_LIMIT
  }

  function FrameCells(f: A.Frame): (b: Text)
    requires f.count < SIZE_TYPE_LIMIT
    ensures |b| == 8
  {
    Cell(StateCode(f.state)) + Cell(f.count)
  }

  /** The bytes of a stack of frames. */
  function Cells(frames: seq<A.Frame>): (b: Text)
    requires CountsFit(frames)
    ensures |b| == 8 * |frames|
  {
    if frames == [] then [] else Cells(frames[..|frames| - 1]) + FrameCells(frames[|frames| - 1])
  }

  lemma {:induction false} CellsPush(frames: seq<A.Frame>, f: A.Frame)
    requires CountsFit(frames) && f.count < SIZE_TYPE_LIMIT
    ensures CountsFit(frames + [f]) && Cells(frames + [f]) == Cells(frames) + FrameCells(f)
  {
    var more := frames + [f];
    assert more[..|more| - 1] == frames;
  }

  lemma {:induction false} TopCells(frames: seq<A.Frame>)
    requires CountsFit(frames) && frames != []
    ensures
      var b, f, init := Cells(frames), frames[|frames| - 1], frames[..|frames| - 1];
      && |b| >= 8 && CountsFit(init) && b[..|b| - 8] == Cells(init)
      && b[..|b| - 4] == Cells(init) + Cell(StateCode(f.state))
      && CellValue(b[|b| - 4..]) == f.count
      && StateOf(CellValue(b[|b| - 8..|b| - 4])) == Some(f.state)
  {
    hide Cell, CellValue, StateOf, StateCode;
    var b, f := Cells(frames), frames[|frames| - 1];
    assert b[|b| - 4..] == Cell(f.count);
    assert b[|b| - 8..|b| - 4] == Cell(StateCode(f.state));
    CellReads(f.count);
    CellReads(StateCode(f.state));
    StateReads(f.state);
  }

  /** A configuration of the automaton with frames, as one with bytes. */
  function Lifted(c: A.Config): Config
    requires c.Running? ==> CountsFit(c.stack)
  {
    match c
    case Running(state, frames, pos, events) => Running(state, Cells(frames), pos, events)
    case Rejected(events) => Stopped(events)
  }

  lemma {:induction false} CloseSimulated(env: Env, frames: seq<A.Frame>, pos: nat, events: seq<Event>, last: bool,
                                          isObject: bool)
    requires CountsFit(frames) && frames != []
    ensures
      var c := A.Close(env, frames, pos, events, last, isObject);
      && (c.Running? ==> CountsFit(c.stack))
      && Close(env, Cells(frames), pos, events, last, isObject) == Lifted(c)
  {
    hide Cell, CellValue, StateOf, StateCode, Cells;
    TopCells(frames);
  }

  lemma {:induction false} CommaSimulated(frames: seq<A.Frame>)
    requires CountsFit(frames) && frames != []
    ensures
      var top := frames[|frames| - 1];
      var more := frames[|frames| - 1 := top.(count := Increment(top.count))];
      var b := Cells(frames);
      && CountsFit(more) && |b| >= 8
      && Cells(more) == b[..|b| - 4] + Cell(Increment(CellValue(b[|b| - 4..])))
  {
    hide Cell, CellValue, StateOf, StateCode, Cells;
    TopCells(frames);
    var top, init := frames[|frames| - 1], frames[..|frames| - 1];
    var f := top.(count := Increment(top.count));
    assert frames[|frames| - 1 := f] == init + [f];
    CellsPush(init, f);
    assert Cells(init) + (Cell(StateCode(f.state)) + Cell(f.count))
      == Cells(init) + Cell(StateCode(f.state)) + Cell(f.count);
  }

  /** The string that a transition parses at `pos`, if any, leaves nothing behind. */
  predicate LeavesNothing(env: Env, pos: nat) {
    LiteralLeft(env, pos) == []
  }

  /** The transitions of the two automata correspond, unless a string leaves something behind. */
  lemma {:induction false} TransitSimulated(env: Env, src: A.State, frames: seq<A.Frame>, pos: nat, events: seq<Event>)
    requires pos < |env.src| && A.Resting(src, frames) && CountsFit(frames)
    ensures
      var dst := A.Predict(src, A.Tokenize(At(env.src, pos)));
      var c := A.Transit(env, src, dst, frames, pos, events);
      && (c.Running? ==> CountsFit(c.stack))
      && (LeavesNothing(env, pos) || c.Rejected? ==>
            Transit(env, src, dst, Cells(frames), pos, events) == Lifted(c))
  {
    hide R.ParseValue, R.ParseString, Cells, Cell, A.Close, Close, StateCode, LiteralLeft;
    var dst := A.Predict(src, A.Tokenize(At(env.src, pos)));
    if dst.ObjectInitialState? || dst.ArrayInitialState? {
      var f := A.Frame(A.ReturnState(src), 0);
      CellsPush(frames, f);
      assert Cells(frames) + (Cell(StateCode(f.state)) + Cell(0)) == Cells(frames) + Cell(StateCode(f.state)) + Cell(0);
    } else if dst.MemberDelimiterState? || dst.ElementDelimiterState? {
      CommaSimulated(frames);
      NotAQuote(env, pos);
    } else if dst.ObjectFinishState? || dst.ArrayFinishState? {
      var last := if dst.ObjectFinishState? then src.MemberValueState? else src.ElementState?;
      CloseSimulated(env, frames, pos, events, last, dst.ObjectFinishState?);
    } else {
      assert Cells(frames) + [] == Cells(frames);
    }
  }

  lemma {:induction false} NotAQuote(env: Env, pos: nat)
    ensures At(env.src, pos) != QUOTE ==> LeavesNothing(env, pos)
  {
  }

  // ----- when no string is too long

  function Strict(env: Env): Env {
    env.(strict := true)
  }

  /**
   * No string that the recursive parse meets is too long for the reader's stack: stopping at such
   * strings makes no difference.
   */
  ghost predicate StringsCounted(env: Env, pos: nat)
    requires pos <= |env.src|
  {
    R.Parse(Strict(env), pos) == R.Parse(env, pos)
  }

  lemma {:induction false} StrictBody(env: Env, pos: nat, out: Text)
    ensures StringBody(Strict(env), pos, out) == StringBody(env, pos, out)
    decreases |env.src| - pos
  {
    hide StringUnit;
    StrictUnit(env, pos);
    match StringUnit(env, pos) {
      case Unit(bytes, next) => StrictBody(env, next, out + bytes);
      case _ =>
    }
  }

  lemma {:induction false} StrictUnit(env: Env, pos: nat)
    ensures StringUnit(Strict(env), pos) == StringUnit(env, pos)
  {
    hide Validate, UnicodeEscape, Encode;
  }

  /** The literal at `pos` is too long, though not so long that nothing is reported of it. */
  predicate Overlong(env: Env, pos: nat) {
    var b := StringBody(env, pos + 1, []);
    b.Some? && |b.value.1| >= STRING_LIMIT && Reported(b.value.1).Some?
  }

  predicate OverlongString(env: Env, pos: nat) {
    At(env.src, pos) == QUOTE && Overlong(env, pos)
  }

  /** A strict parse of a string differs by stopping before an event is sent, and only for an overlong one. */
  lemma {:induction false} StrictString(env: Env, pos: nat, events: seq<Event>, isKey: bool)
    requires !env.strict
    ensures
      var s, r := R.ParseString(Strict(env), pos, events, isKey), R.ParseString(env, pos, events, isKey);
      if Overlong(env, pos) then s == Failed(events) && |r.events| == |events| + 1 else s == r
    ensures R.ParseString(env, pos, events, isKey).Parsed? && !Overlong(env, pos) && At(env.src, pos) == QUOTE ==>
      LeavesNothing(env, pos)
    ensures |R.ParseString(env, pos, events, isKey).events| >= |events|
  {
    hide StringBody, Reported, LeftOver;
    StrictBody(env, pos + 1, []);
    var b := StringBody(env, pos + 1, []);
    if b.Some? {
      StringIntact(b.value.1);
    }
  }

  lemma {:induction false} StrictNumber(env: Env, pos: nat, events: seq<Event>)
    ensures R.ParseNumber(Strict(env), pos, events) == R.ParseNumber(env, pos, events)
    ensures |R.ParseNumber(env, pos, events).events| >= |events|
  {
    hide NumberAt;
    StrictNumberAt(env, pos);
  }

  lemma {:induction false} StrictNumberAt(env: Env, pos: nat)
    ensures NumberAt(Strict(env), pos) == NumberAt(env, pos)
  {
    hide NumberHead, NumberRest;
    var minus := At(env.src, pos) == MINUS;
    var start := if minus then pos + 1 else pos;
    StrictHead(env, start);
    var head := NumberHead(env, start);
    if head.Head? {
      StrictRest(env, pos, minus, head, if head.special then 0 else head.next - start - 1);
    }
  }

  lemma {:induction false} StrictHead(env: Env, pos: nat)
    ensures NumberHead(Strict(env), pos) == NumberHead(env, pos)
  {
  }

  lemma {:induction false} StrictRest(env: Env, pos: nat, minus: bool, head: Head, significant: nat)
    requires head.Head? && pos < head.next <= |env.src|
    ensures NumberRest(Strict(env), pos, minus, head, significant) == NumberRest(env, pos, minus, head, significant)
  {
    hide Fraction, Exponent;
  }

  /** The same for a scalar. */
  lemma {:induction false} StrictScalar(env: Env, pos: nat, events: seq<Event>)
    requires !env.strict && pos <= |env.src|
    requires At(env.src, pos) != LEFT_BRACE && At(env.src, pos) != LEFT_BRACKET
    ensures
      var s, r := R.ParseValue(Strict(env), pos, events), R.ParseValue(env, pos, events);
      if OverlongString(env, pos) then s == Failed(events) && |r.events| == |events| + 1 else s == r
    ensures
      var r := R.ParseValue(env, pos, events);
      |r.events| >= |events| && (r.Parsed? && !OverlongString(env, pos) ==> LeavesNothing(env, pos))
  {
    hide R.ParseString, R.ParseNumber, Overlong, LiteralLeft;
    StrictString(env, pos, events, false);
    StrictNumber(env, pos, events);
    NotAQuote(env, pos);
  }

  /** A strict transition differs only by stopping at an overlong string, before an event is sent. */
  lemma {:induction false} StrictTransit(env: Env, src: A.State, frames: seq<A.Frame>, pos: nat, events: seq<Event>)
    requires !env.strict && pos < |env.src| && A.Resting(src, frames)
    ensures
      var dst := A.Predict(src, A.Tokenize(At(env.src, pos)));
      var s, r := A.Transit(Strict(env), src, dst, frames, pos, events), A.Transit(env, src, dst, frames, pos, events);
      && |r.events| >= |events|
      && (s == r || (s == A.Rejected(events) && |r.events| == |events| + 1 && OverlongString(env, pos)))
      && (s == r && r.Running? ==> LeavesNothing(env, pos))
  {
    hide R.ParseString, R.ParseValue, Overlong, LiteralLeft, A.Close;
    var dst := A.Predict(src, A.Tokenize(At(env.src, pos)));
    NotAQuote(env, pos);
    if dst.MemberKeyState? {
      StrictString(env, pos, events, true);
    } else if At(env.src, pos) != LEFT_BRACE && At(env.src, pos) != LEFT_BRACKET {
      StrictScalar(env, pos, events);
      StrictClose(env, frames, pos, events);
    }
  }

  lemma {:induction false} StrictClose(env: Env, frames: seq<A.Frame>, pos: nat, events: seq<Event>)
    ensures forall last, isObject | frames != [] ::
      A.Close(Strict(env), frames, pos, events, last, isObject) == A.Close(env, frames, pos, events, last, isObject)
      && |A.Close(env, frames, pos, events, last, isObject).events| == |events| + 1
  {
  }

  lemma {:induction false} StrictSkip(env: Env, pos: nat)
    requires pos <= |env.src|
    ensures SkipWhitespaceAndComments(Strict(env), pos) == SkipWhitespaceAndComments(env, pos)
  {
  }

  /** The events of a run are behind those it started with. */
  lemma {:induction false} LoopGrows(env: Env, state: A.State, frames: seq<A.Frame>, pos: nat, events: seq<Event>)
    requires !env.strict && pos <= |env.src| && A.Resting(state, frames)
    ensures |A.Loop(env, state, frames, pos, events).events| >= |events|
    decreases |env.src| - pos, 0
  {
    hide A.Transit, A.Predict, SkipWhitespaceAndComments;
    if At(env.src, pos) != NUL {
      A.TransitKeepsResting(env, state, frames, pos, events);
      StrictTransit(env, state, frames, pos, events);
      var c := A.Transit(env, state, A.Predict(state, A.Tokenize(At(env.src, pos))), frames, pos, events);
      if c.Running? {
        ContinueGrows(env, c.state, c.stack, c.pos, c.events);
      }
    }
  }

  lemma {:induction false} ContinueGrows(env: Env, state: A.State, frames: seq<A.Frame>, pos: nat, events: seq<Event>)
    requires !env.strict && pos <= |env.src| && A.Resting(state, frames)
    ensures |A.Continue(env, state, frames, pos, events).events| >= |events|
    decreases |env.src| - pos, 1
  {
    hide A.Loop, SkipWhitespaceAndComments;
    var w := SkipWhitespaceAndComments(env, pos);
    if w.Some? {
      LoopGrows(env, state, frames, w.value, events);
    }
  }

  /**
   * As long as stopping at overlong strings makes no difference, the automaton on bytes does what the
   * one on frames does.
   */
  lemma {:induction false} LoopSimulated(env: Env, state: A.State, frames: seq<A.Frame>, pos: nat, events: seq<Event>)
    requires !env.strict && pos <= |env.src| && A.Resting(state, frames) && CountsFit(frames)
    requires A.Loop(Strict(env), state, frames, pos, events) == A.Loop(env, state, frames, pos, events)
    ensures Loop(env, state, Cells(frames), pos, events) == A.Loop(env, state, frames, pos, events)
    decreases |env.src| - pos, 0
  {
    hide A.Transit, Transit, A.Predict, SkipWhitespaceAndComments, Cells, LeavesNothing, Overlong, A.Continue, Continue;
    if At(env.src, pos) != NUL {
      A.TransitKeepsResting(env, state, frames, pos, events);
      A.TransitKeepsResting(Strict(env), state, frames, pos, events);
      StrictTransit(env, state, frames, pos, events);
      TransitSimulated(env, state, frames, pos, events);
      TransitMoves(env, state, Cells(frames), pos, events);
      var dst := A.Predict(state, A.Tokenize(At(env.src, pos)));
      var c := A.Transit(env, state, dst, frames, pos, events);
      if c.Running? {
        ContinueGrows(env, c.state, c.stack, c.pos, c.events);
        if A.Transit(Strict(env), state, dst, frames, pos, events) == c {
          ContinueSimulated(env, c.state, c.stack, c.pos, c.events);
        }
      }
    }
  }

  lemma {:induction false} ContinueSimulated(env: Env, state: A.State, frames: seq<A.Frame>, pos: nat,
                                             events: seq<Event>)
    requires !env.strict && pos <= |env.src| && A.Resting(state, frames) && CountsFit(frames)
    requires A.Continue(Strict(env), state, frames, pos, events) == A.Continue(env, state, frames, pos, events)
    ensures Continue(env, state, Cells(frames), pos, events) == A.Continue(env, state, frames, pos, events)
    decreases |env.src| - pos, 1
  {
    hide A.Loop, Loop, SkipWhitespaceAndComments, Cells;
    StrictSkip(env, pos);
    var w := SkipWhitespaceAndComments(env, pos);
    if w.Some? && !(env.flags.stopWhenDone && state.FinishState?) {
      LoopSimulated(env, state, frames, w.value, events);
    }
  }

  /**
   * The two parsers of the code agree: verdict, events with their counts and the position reached, for
   * every text, start position, setting, handler and double conversion, as long as the parse meets no
   * string that is too long for the reader's stack.
   */
  lemma {:induction false} ParsersAgree(env: Env, pos: nat)
    requires !env.strict && pos <= |env.src| && StringsCounted(env, pos)
    ensures IterativeParse(env, pos) == R.Parse(env, pos)
  {
    hide A.Loop, Loop, R.Parse, SkipWhitespaceAndComments;
    ReaderEquivalence.FramesAgree(env, pos);
    ReaderEquivalence.FramesAgree(Strict(env), pos);
    StrictSkip(env, pos);
    var w := SkipWhitespaceAndComments(env, pos);
    if w.Some? {
      LoopSimulated(env, A.StartState, [], w.value, []);
    }
  }

  /** Where the root is no container the stack is never read, and the parsers agree whatever its length. */
  lemma {:induction false} ScalarRootsAgree(env: Env, pos: nat)
    requires pos <= |env.src|
    requires
      var w := SkipWhitespaceAndComments(env, pos);
      w.Some? && At(env.src, w.value) !in {LEFT_BRACE, LEFT_BRACKET}
    ensures IterativeParse(env, pos) == R.Parse(env, pos)
  {
    hide R.ParseValue, SkipWhitespaceAndComments, LiteralLeft;
    var w := SkipWhitespaceAndComments(env, pos).value;
    if At(env.src, w) in {NUL, RIGHT_BRACE, RIGHT_BRACKET, COMMA, COLON} {
      ReaderEquivalence.NotAValue(env, w, []);
    } else {
      var v := R.ParseValue(env, w, []);
      if v.Parsed? {
        FinishedIgnoresStack(env, LiteralLeft(env, w), v.pos, v.events);
        assert [] + LiteralLeft(env, w) == LiteralLeft(env, w);
      }
    }
  }

  lemma {:induction false} FinishedIgnoresStack(env: Env, stack: Text, pos: nat, events: seq<Event>)
    requires pos <= |env.src|
    ensures Continue(env, A.FinishState, stack, pos, events) == R.Finish(env, pos, events)
  {
    hide SkipWhitespaceAndComments;
  }

  // ----- texts without overlong strings

  /** Every literal of the text, from whichever quote it is read, is short enough for the reader's stack. */
  ghost predicate ShortLiterals(env: Env) {
    forall p: nat | p < |env.src| && env.src[p] == QUOTE ::
      var b := StringBody(env, p + 1, []);
      b.Some? ==> |b.value.1| < STRING_LIMIT
  }

  lemma {:induction false} LoopStrict(env: Env, state: A.State, frames: seq<A.Frame>, pos: nat, events: seq<Event>)
    requires !env.strict && ShortLiterals(env) && pos <= |env.src| && A.Resting(state, frames)
    ensures A.Loop(Strict(env), state, frames, pos, events) == A.Loop(env, state, frames, pos, events)
    decreases |env.src| - pos, 0
  {
    hide A.Transit, A.Predict, SkipWhitespaceAndComments, ShortLiterals, A.Continue;
    if At(env.src, pos) != NUL {
      A.TransitKeepsResting(env, state, frames, pos, events);
      A.TransitKeepsResting(Strict(env), state, frames, pos, events);
      StrictTransit(env, state, frames, pos, events);
      NoneOverlong(env, pos);
      var c := A.Transit(env, state, A.Predict(state, A.Tokenize(At(env.src, pos))), frames, pos, events);
      if c.Running? {
        ContinueStrict(env, c.state, c.stack, c.pos, c.events);
      }
    }
  }

  lemma {:induction false} NoneOverlong(env: Env, pos: nat)
    requires ShortLiterals(env) && At(env.src, pos) != NUL
    ensures !OverlongString(env, pos)
  {
  }

  lemma {:induction false} ContinueStrict(env: Env, state: A.State, frames: seq<A.Frame>, pos: nat, events: seq<Event>)
    requires !env.strict && ShortLiterals(env) && pos <= |env.src| && A.Resting(state, frames)
    ensures A.Continue(Strict(env), state, frames, pos, events) == A.Continue(env, state, frames, pos, events)
    decreases |env.src| - pos, 1
  {
    hide A.Loop, SkipWhitespaceAndComments, ShortLiterals;
    StrictSkip(env, pos);
    var w := SkipWhitespaceAndComments(env, pos);
    if w.Some? {
      LoopStrict(env, state, frames, w.value, events);
    }
  }

  /** A text whose literals are short has no string that is too long for the reader. */
  lemma {:induction false} ShortLiteralsCounted(env: Env, pos: nat)
    requires !env.strict && pos <= |env.src| && ShortLiterals(env)
    ensures StringsCounted(env, pos)
  {
    hide A.Loop, R.Parse, SkipWhitespaceAndComments, ShortLiterals;
    ReaderEquivalence.FramesAgree(env, pos);
    ReaderEquivalence.FramesAgree(Strict(env), pos);
    StrictSkip(env, pos);
    var w := SkipWhitespaceAndComments(env, pos);
    if w.Some? {
      LoopStrict(env, A.StartState, [], w.value, []);
    }
  }

  /** The bytes of a string are no more than the characters of its literal. */
  lemma {:induction false} BodyNoLonger(env: Env, pos: nat, out: Text)
    requires StringBody(env, pos, out).Some?
    ensures |StringBody(env, pos, out).value.1| <= |out| + (StringBody(env, pos, out).value.0 - pos)
    decreases |env.src| - pos
  {
    hide StringUnit;
    UnitNoLonger(env, pos);
    match StringUnit(env, pos) {
      case Unit(bytes, next) => BodyNoLonger(env, next, out + bytes);
      case _ =>
    }
  }

  lemma {:induction false} UnitNoLonger(env: Env, pos: nat)
    ensures StringUnit(env, pos).Unit? ==> |StringUnit(env, pos).bytes| <= StringUnit(env, pos).next - pos
  {
    hide Validate, Hex4;
    if pos < |env.src| {
      ValidateCopies(env.src, pos);
    }
  }

  /** So the parsers agree on every text of less than 4 GiB. */
  lemma {:induction false} ShortTextsCounted(env: Env, pos: nat)
    requires !env.strict && pos <= |env.src| < SIZE_TYPE_LIMIT
    ensures StringsCounted(env, pos)
  {
    hide StringBody, StringsCounted;
    forall p: nat | p < |env.src| && env.src[p] == QUOTE
      ensures
        var b := StringBody(env, p + 1, []);
        b.Some? ==> |b.value.1| < STRING_LIMIT
    {
      if StringBody(env, p + 1, []).Some? {
        BodyNoLonger(env, p + 1, []);
      }
    }
    ShortLiteralsCounted(env, pos);
  }

  // ----- texts with one

  /** An array of one literal of `n` letters. */
  function LettersText(n: nat): (s: Text)
    ensures |s| == n + 4 && s[0] == LEFT_BRACKET && s[1] == QUOTE && s[n + 2] == QUOTE && s[n + 3] == RIGHT_BRACKET
    ensures forall k | 2 <= k < n + 2 :: s[k] == 97
  {
    [LEFT_BRACKET, QUOTE] + Letters(n) + [QUOTE, RIGHT_BRACKET]
  }

  lemma {:induction false} LettersRead(env: Env, n: nat, k: nat)
    requires env.src == LettersText(n) && k <= n
    ensures StringBody(env, 2 + k, Letters(k)) == Some((n + 3, Letters(n)))
    decreases n - k
  {
    hide LettersText;
    if k < n {
      LetterUnit(env, 2 + k);
      assert Letters(k) + [97] == Letters(k + 1);
      LettersRead(env, n, k + 1);
    }
  }

  lemma {:induction false} LetterUnit(env: Env, pos: nat)
    requires pos < |env.src| && env.src[pos] == 97
    ensures StringUnit(env, pos) == Unit([97], pos + 1)
  {
    if env.flags.validateEncoding {
      ValidateCopies(env.src, pos);
      assert env.src[pos..pos + 1] == [97];
    }
  }

  lemma {:induction false} Stays(env: Env, pos: nat)
    requires pos <= |env.src| && !IsWhitespace(At(env.src, pos)) && At(env.src, pos) != SLASH
    ensures SkipWhitespaceAndComments(env, pos) == Some(pos)
  {
  }

  /** The string event of the literal, as the reader reports it. */
  function LettersEvent(n: nat): Event
    requires Reported(Letters(n)).Some?
  {
    String(Reported(Letters(n)).value)
  }

  lemma {:induction false} LettersValue(env: Env, n: nat, events: seq<Event>)
    requires env.src == LettersText(n) && (forall es :: env.handler(es)) && (env.strict ==> n < STRING_LIMIT)
    requires Reported(Letters(n)).Some?
    ensures R.ParseValue(env, 1, events) == Parsed(n + 3, events + [LettersEvent(n)])
    ensures LiteralLeft(env, 1) == LeftOver(Letters(n))
  {
    hide StringBody, Reported, LeftOver, LettersText;
    LettersRead(env, n, 0);
    assert Letters(0) == [];
    assert env.handler(events + [LettersEvent(n)]);
  }

  /** The recursive parser accepts the text. */
  lemma {:induction false} LettersParse(env: Env, n: nat)
    requires env.src == LettersText(n) && (forall es :: env.handler(es)) && (env.strict ==> n < STRING_LIMIT)
    requires Reported(Letters(n)).Some?
    ensures R.Parse(env, 0) == Parsed(n + 4, [StartArray] + [LettersEvent(n)] + [EndArray(1)])
  {
    hide Reported, LettersText, SkipWhitespaceAndComments, R.ParseString, LettersEvent;
    Stays(env, 0);
    Stays(env, 1);
    Stays(env, n + 3);
    Stays(env, n + 4);
    LettersValue(env, n, [StartArray]);
    var e := [StartArray] + [LettersEvent(n)];
    assert env.handler([] + [StartArray]) && env.handler(e + [EndArray(1)]);
    assert [] + [StartArray] == [StartArray];
    assert R.AfterElement(env, n + 3, e, 1) == Parsed(n + 4, e + [EndArray(1)]);
    assert R.ParseElements(env, 1, [StartArray], 0) == Parsed(n + 4, e + [EndArray(1)]);
    assert R.ParseArray(env, 0, []) == Parsed(n + 4, e + [EndArray(1)]);
  }

  /** The automaton takes four of the letters for the count. */
  lemma {:induction false} LettersStop(env: Env, n: nat)
    requires env.src == LettersText(n) && (forall es :: env.handler(es)) && !env.strict
    requires n >= SIZE_TYPE_LIMIT && Reported(Letters(n)).Some?
    ensures IterativeParse(env, 0) == Failed([StartArray] + [LettersEvent(n)] + [EndArray(0x6161_6162)])
  {
    hide Reported, LeftOver, LettersText, SkipWhitespaceAndComments, R.ParseValue, LettersEvent;
    hide LiteralLeft, Cell, CellValue, StateOf, Close;
    Stays(env, 0);
    Stays(env, 1);
    Stays(env, n + 3);
    LettersValue(env, n, [StartArray]);
    var e := [StartArray] + [LettersEvent(n)];
    var frame := [] + Cell(StateCode(A.StartState)) + Cell(0);
    assert env.handler([] + [StartArray]);
    assert [] + [StartArray] == [StartArray];
    LettersClose(env, n, frame + LeftOver(Letters(n)), e);
    assert Loop(env, A.ElementState, frame + LeftOver(Letters(n)), n + 3, e) == Failed(e + [EndArray(0x6161_6162)]);
    assert Continue(env, A.ElementState, frame + LeftOver(Letters(n)), n + 3, e) == Failed(e + [EndArray(0x6161_6162)]);
    assert Loop(env, A.ArrayInitialState, frame, 1, [StartArray]) == Failed(e + [EndArray(0x6161_6162)]);
    assert Continue(env, A.ArrayInitialState, frame, 1, [StartArray]) == Failed(e + [EndArray(0x6161_6162)]);
    assert Loop(env, A.StartState, [], 0, []) == Failed(e + [EndArray(0x6161_6162)]);
  }

  lemma {:induction false} LettersClose(env: Env, n: nat, stack: Text, events: seq<Event>)
    requires forall es :: env.handler(es)
    requires n >= SIZE_TYPE_LIMIT && |stack| >= |LeftOver(Letters(n))|
    requires stack[|stack| - |LeftOver(Letters(n))|..] == LeftOver(Letters(n)) && Reported(Letters(n)).Some?
    ensures Close(env, stack, n + 3, events, true, false) == Stopped(events + [EndArray(0x6161_6162)])
  {
    ReportedIs(Letters(n));
    var j, m := LeftOver(Letters(n)), |stack|;
    assert |j| >= 8 && forall k | 0 <= k < |j| :: j[k] == 97;
    assert stack[m - 4..] == j[|j| - 4..] == [97, 97, 97, 97];
    assert stack[m - 8..m - 4] == j[|j| - 8..|j| - 4] == [97, 97, 97, 97];
    assert CellValue([97, 97, 97, 97]) == 0x6161_6161;
    assert env.handler(events + [EndArray(0x6161_6162)]);
  }

  /**
   * Where the condition fails the parsers can differ: on an array of one literal of `n` letters they
   * agree exactly when its length can be counted. (Of lengths that are 2^32 - 1 beyond a multiple of
   * 2^32 nothing is reported that lies on the stack.)
   */
  lemma {:induction false} LettersAgree(env: Env, n: nat)
    requires env.src == LettersText(n) && (forall es :: env.handler(es)) && !env.strict
    requires n % SIZE_TYPE_LIMIT != STRING_LIMIT
    ensures IterativeParse(env, 0) == R.Parse(env, 0) <==> n < STRING_LIMIT
  {
    hide LettersText, R.Parse, IterativeParse, Reported;
    ReportedIs(Letters(n));
    LettersParse(env, n);
    if n < STRING_LIMIT {
      LettersParse(Strict(env), n);
      ParsersAgree(env, 0);
    } else {
      LettersStop(env, n);
    }
  }
}
