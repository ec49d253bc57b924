/**
 * The table-driven parser (reader.h) as a pushdown automaton over one-character tokens, with a stack for
 * its frames alone.
 */
module IterativeReader {
  import opened Bytes
  import opened Events
  import opened Scanner
  import opened RecursiveReader
  import opened Options

  datatype State =
    | FinishState
    | ErrorState
    | StartState
    | ObjectInitialState
    | MemberKeyState
    | MemberValueState
    | ObjectFinishState
    | ArrayInitialState
    | ElementState
    | ArrayFinishState
    | ValueState
    | ElementDelimiterState
    | MemberDelimiterState
    | KeyValueDelimiterState

  datatype Token =
    | LeftBracketToken
    | RightBracketToken
    | LeftCurlyBracketToken
    | RightCurlyBracketToken
    | CommaToken
    | ColonToken
    | StringToken
    | FalseToken
    | TrueToken
    | NullToken
    | NumberToken

  function Tokenize(c: byte): Token {
    if c == LEFT_BRACKET then LeftBracketToken
    else if c == RIGHT_BRACKET then RightBracketToken
    else if c == LEFT_BRACE then LeftCurlyBracketToken
    else if c == RIGHT_BRACE then RightCurlyBracketToken
    else if c == COMMA then CommaToken
    else if c == COLON then ColonToken
    else if c == QUOTE then StringToken
    else if c == 102 then FalseToken
    else if c == 116 then TrueToken
    else if c == 110 then NullToken
    else NumberToken
  }

  /** The transition table, current state by lookahead token. */
  function Predict(state: State, token: Token): State {
    match state
    case StartState => OpeningOr(token, ValueState)
    case ObjectInitialState | MemberDelimiterState =>
      if token.RightCurlyBracketToken? then ObjectFinishState
      else if token.StringToken? then MemberKeyState
      else ErrorState
    case MemberKeyState => if token.ColonToken? then KeyValueDelimiterState else ErrorState
    case MemberValueState =>
      if token.RightCurlyBracketToken? then ObjectFinishState
      else if token.CommaToken? then MemberDelimiterState
      else ErrorState
    case ArrayInitialState | ElementDelimiterState =>
      if token.RightBracketToken? then ArrayFinishState else OpeningOr(token, ElementState)
    case ElementState =>
      if token.RightBracketToken? then ArrayFinishState
      else if token.CommaToken? then ElementDelimiterState
      else ErrorState
    case KeyValueDelimiterState => OpeningOr(token, MemberValueState)
    case _ => ErrorState
  }

  /** The part common to the rows that expect a value: brackets open, scalars lead to `scalar`. */
  function OpeningOr(token: Token, scalar: State): State {
    match token
    case LeftBracketToken => ArrayInitialState
    case LeftCurlyBracketToken => ObjectInitialState
    case StringToken | FalseToken | TrueToken | NullToken | NumberToken => scalar
    case _ => ErrorState
  }

  /** Two stack cells: the state to return to, and the commas seen in the container. */
  datatype Frame = Frame(state: State, count: nat)

  /** A configuration of the automaton, or the history at the point where it gave up. */
  datatype Config =
    | Running(state: State, stack: seq<Frame>, pos: nat, events: seq<Event>)
    | Rejected(events: seq<Event>)

  /** The state a container returns to, from the state it is opened in. */
  function ReturnState(src: State): State {
    match src
    case ArrayInitialState | ElementDelimiterState => ElementState
    case KeyValueDelimiterState => MemberValueState
    case _ => src
  }

  function Advance(r: Outcome, state: State, stack: seq<Frame>): Config {
    match r
    case Parsed(pos, events) => Running(state, stack, pos, events)
    case Failed(events) => Rejected(events)
  }

  /** Closing a container: the count is the commas, plus one for a last element behind no comma. */
  function Close(env: Env, stack: seq<Frame>, pos: nat, events: seq<Event>, last: bool, isObject: bool): Config
    requires stack != []
  {
    var top := stack[|stack| - 1];
    var count := if last then Increment(top.count) else top.count;
    var state := if top.state.StartState? then FinishState else top.state;
    Advance(Send(env, events, if isObject then EndObject(count) else EndArray(count), pos + 1),
            state, stack[..|stack| - 1])
  }

  /** One transition into the predicted state `dst`. */
  function Transit(env: Env, src: State, dst: State, stack: seq<Frame>, pos: nat, events: seq<Event>): Config
    requires pos <= |env.src|
    requires Scoped(src, stack)
    requires dst == Predict(src, Tokenize(At(env.src, pos)))
  {
    if dst.ErrorState? then Rejected(events)
    else if dst.ObjectInitialState? || dst.ArrayInitialState? then
      Advance(Send(env, events, if dst.ObjectInitialState? then StartObject else StartArray, pos + 1), dst,
              stack + [Frame(ReturnState(src), 0)])
    else if dst.MemberKeyState? then Advance(ParseString(env, pos, events, true), dst, stack)
    else if dst.KeyValueDelimiterState? then Running(dst, stack, pos + 1, events)
    else if dst.MemberValueState? || dst.ElementState? then Advance(ParseValue(env, pos, events), dst, stack)
    else if dst.MemberDelimiterState? || dst.ElementDelimiterState? then
      var top := stack[|stack| - 1];
      Running(dst, stack[|stack| - 1 := top.(count := Increment(top.count))], pos + 1, events)
    else if dst.ObjectFinishState? then
      if !env.flags.trailingCommas && src.MemberDelimiterState? then Rejected(events)
      else Close(env, stack, pos, events, src.MemberValueState?, true)
    else if dst.ArrayFinishState? then
      if !env.flags.trailingCommas && src.ElementDelimiterState? then Rejected(events)
      else Close(env, stack, pos, events, src.ElementState?, false)
    else Advance(ParseValue(env, pos, events), FinishState, stack)
  }

  /** A state inside a container has the container's frame below it. */
  predicate Scoped(state: State, stack: seq<Frame>) {
    state.StartState? || state.FinishState? || stack != []
  }

  predicate ScopedStack(stack: seq<Frame>) {
    forall i | 0 <= i < |stack| ::
      if i == 0 then stack[i].state.StartState? else stack[i].state.ElementState? || stack[i].state.MemberValueState?
  }

  /** The states the automaton can be in between transitions. */
  predicate Resting(state: State, stack: seq<Frame>) {
    && ScopedStack(stack)
    && !state.ErrorState? && !state.ObjectFinishState? && !state.ArrayFinishState? && !state.ValueState?
    && (state.StartState? || state.FinishState? <==> stack == [])
  }

  /** The frame a container pushes, and what is left when it is popped, keep the stack in order. */
  lemma {:induction false} PushKeepsScope(src: State, stack: seq<Frame>)
    requires Resting(src, stack)
    requires src.StartState? || src.ArrayInitialState? || src.ElementDelimiterState? || src.KeyValueDelimiterState?
    ensures ScopedStack(stack + [Frame(ReturnState(src), 0)])
  {
  }

  lemma {:induction false} PopKeepsResting(stack: seq<Frame>)
    requires ScopedStack(stack) && stack != []
    ensures
      var top := stack[|stack| - 1].state;
      Resting(if top.StartState? then FinishState else top, stack[..|stack| - 1])
  {
  }

  /** Every transition moves forward and leaves the automaton in a resting configuration. */
  lemma {:induction false} TransitKeepsResting(env: Env, src: State, stack: seq<Frame>, pos: nat, events: seq<Event>)
    requires pos < |env.src| && At(env.src, pos) != NUL
    requires Resting(src, stack)
    ensures
      var c := Transit(env, src, Predict(src, Tokenize(At(env.src, pos))), stack, pos, events);
      c.Running? ==> pos < c.pos <= |env.src| && Resting(c.state, c.stack)
  {
    var dst := Predict(src, Tokenize(At(env.src, pos)));
    if dst.ObjectInitialState? || dst.ArrayInitialState? {
      PushKeepsScope(src, stack);
    } else if dst.ObjectFinishState? || dst.ArrayFinishState? {
      PopKeepsResting(stack);
    } else if dst.MemberDelimiterState? || dst.ElementDelimiterState? {
      CommaKeepsScope(stack);
    }
  }

  lemma {:induction false} CommaKeepsScope(stack: seq<Frame>)
    requires ScopedStack(stack) && stack != []
    ensures
      var top := stack[|stack| - 1];
      ScopedStack(stack[|stack| - 1 := top.(count := Increment(top.count))])
  {
  }

  /** The main loop, with whitespace before `pos` already skipped. */
  function Loop(env: Env, state: State, stack: seq<Frame>, pos: nat, events: seq<Event>): (r: Outcome)
    requires pos <= |env.src|
    requires Resting(state, stack)
    decreases |env.src| - pos, 0
  {
    if At(env.src, pos) == NUL then
      if state.FinishState? then Parsed(pos, events) else Failed(events)
    else
      TransitKeepsResting(env, state, stack, pos, events);
      match Transit(env, state, Predict(state, Tokenize(At(env.src, pos))), stack, pos, events)
      case Rejected(evs) => Failed(evs)
      case Running(st, stk, p, evs) => Continue(env, st, stk, p, evs)
  }

  /** Behind a transition: stop at a finished root when asked to, else skip and go on. */
  function Continue(env: Env, state: State, stack: seq<Frame>, pos: nat, events: seq<Event>): (r: Outcome)
    requires pos <= |env.src|
    requires Resting(state, stack)
    decreases |env.src| - pos, 1
  {
    if env.flags.stopWhenDone && state.FinishState? then Parsed(pos, events)
    else
      var w := SkipWhitespaceAndComments(env, pos);
      if w.None? then Failed(events) else Loop(env, state, stack, w.value, events)
  }

  function IterativeParse(env: Env, pos: nat): Outcome
    requires pos <= |env.src|
  {
    var w := SkipWhitespaceAndComments(env, pos);
    if w.None? then Failed([]) else Loop(env, StartState, [], w.value, [])
  }
}
