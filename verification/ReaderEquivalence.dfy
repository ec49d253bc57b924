/** The automaton, with a stack for its frames alone, agrees with the recursive parser on every input and setting. */
module ReaderEquivalence {
  import opened Bytes
  import opened Events
  import opened Scanner
  import opened RecursiveReader
  import opened IterativeReader

  /** The states that wait for a value, and the state each reaches once it has one. */
  predicate AwaitsValue(state: State) {
    state.StartState? || state.ArrayInitialState? || state.ElementDelimiterState? || state.KeyValueDelimiterState?
  }

  function AfterValue(state: State): State
    requires AwaitsValue(state)
  {
    match state
    case StartState => FinishState
    case KeyValueDelimiterState => MemberValueState
    case _ => ElementState
  }

  /** The automaton's run from behind a value, given how the recursive parser came through that value. */
  function Resume(env: Env, r: Outcome, state: State, stack: seq<Frame>): Outcome
    requires r.Parsed? ==> r.pos <= |env.src|
    requires Resting(state, stack)
  {
    match r
    case Parsed(pos, events) => Continue(env, state, stack, pos, events)
    case Failed(events) => Failed(events)
  }

  /** A closing bracket never starts a value, nor does a comma, a colon or the end of input. */
  lemma {:induction false} NotAValue(env: Env, pos: nat, events: seq<Event>)
    requires pos <= |env.src|
    requires At(env.src, pos) in {NUL, RIGHT_BRACE, RIGHT_BRACKET, COMMA, COLON}
    ensures ParseValue(env, pos, events) == Failed(events)
  {
  }

  /**
   * Simulation: where a value is due, running the automaton amounts to parsing the value recursively
   * and running the automaton on from behind it.
   */
  lemma {:induction false} ValueSimulation(env: Env, state: State, stack: seq<Frame>, pos: nat, events: seq<Event>)
    requires pos <= |env.src|
    requires AwaitsValue(state) && Resting(state, stack)
    requires At(env.src, pos) == RIGHT_BRACKET ==>
               !state.ArrayInitialState? && !(state.ElementDelimiterState? && env.flags.trailingCommas)
    ensures Resting(AfterValue(state), stack)
    ensures Loop(env, state, stack, pos, events)
         == Resume(env, ParseValue(env, pos, events), AfterValue(state), stack)
    decreases |env.src| - pos, 1
  {
    hide ParseObject, ParseArray, ParseString, ParseNumber, ParseLiteral;
    var c := At(env.src, pos);
    if c == LEFT_BRACE {
      ObjectSimulation(env, state, stack, pos, events);
    } else if c == LEFT_BRACKET {
      ArraySimulation(env, state, stack, pos, events);
    } else if c in {NUL, RIGHT_BRACE, RIGHT_BRACKET, COMMA, COLON} {
      NotAValue(env, pos, events);
    }
  }

  /** The count the automaton closes a container with, from the commas on its stack. */
  function ClosingCount(state: State, commas: nat): nat {
    if state.MemberValueState? || state.ElementState? then Increment(commas) else commas
  }

  /** A closing bracket pops the container's frame and goes on behind the container. */
  lemma {:induction false} CloseSimulation(env: Env, outer: State, state: State, stack: seq<Frame>, pos: nat,
                                           events: seq<Event>, commas: nat, isObject: bool)
    requires pos < |env.src|
    requires AwaitsValue(outer) && Resting(outer, stack)
    requires isObject ==> env.src[pos] == RIGHT_BRACE
    requires isObject ==> state in {ObjectInitialState, MemberValueState, MemberDelimiterState}
    requires !isObject ==> env.src[pos] == RIGHT_BRACKET
    requires !isObject ==> state in {ArrayInitialState, ElementState, ElementDelimiterState}
    requires state.MemberDelimiterState? || state.ElementDelimiterState? ==> env.flags.trailingCommas
    ensures Resting(state, stack + [Frame(ReturnState(outer), commas)])
    ensures
      var n := ClosingCount(state, commas);
      Loop(env, state, stack + [Frame(ReturnState(outer), commas)], pos, events)
      == Resume(env, Send(env, events, if isObject then EndObject(n) else EndArray(n), pos + 1),
                AfterValue(outer), stack)
  {
    hide ParseValue, ParseString, SkipWhitespaceAndComments;
    var inner := stack + [Frame(ReturnState(outer), commas)];
    assert inner[..|inner| - 1] == stack;
    assert inner[|inner| - 1] == Frame(ReturnState(outer), commas);
    var dst := Predict(state, Tokenize(env.src[pos]));
    var n := ClosingCount(state, commas);
    var r := Send(env, events, if isObject then EndObject(n) else EndArray(n), pos + 1);
    assert Transit(env, state, dst, inner, pos, events) == Advance(r, AfterValue(outer), stack);
  }

  /** A comma counts one more part. */
  lemma {:induction false} CommaSimulation(env: Env, outer: State, state: State, stack: seq<Frame>, pos: nat,
                                           events: seq<Event>, commas: nat)
    requires pos < |env.src| && env.src[pos] == COMMA
    requires AwaitsValue(outer) && Resting(outer, stack)
    requires state.MemberValueState? || state.ElementState?
    ensures
      var next := if state.MemberValueState? then MemberDelimiterState else ElementDelimiterState;
      && Resting(state, stack + [Frame(ReturnState(outer), commas)])
      && Resting(next, stack + [Frame(ReturnState(outer), Increment(commas))])
      && Loop(env, state, stack + [Frame(ReturnState(outer), commas)], pos, events)
      == Continue(env, next, stack + [Frame(ReturnState(outer), Increment(commas))], pos + 1, events)
  {
    hide ParseValue, ParseString, SkipWhitespaceAndComments, Continue;
    var inner := stack + [Frame(ReturnState(outer), commas)];
    var next := stack + [Frame(ReturnState(outer), Increment(commas))];
    assert inner[|inner| - 1 := inner[|inner| - 1].(count := Increment(commas))] == next;
  }

  /** The name of a member and its colon take the automaton through two transitions. */
  lemma {:induction false} NameSimulation(env: Env, state: State, stack: seq<Frame>, pos: nat, events: seq<Event>)
    requires pos <= |env.src|
    requires Resting(state, stack)
    requires state.ObjectInitialState? || state.MemberDelimiterState?
    requires At(env.src, pos) == RIGHT_BRACE ==> state.MemberDelimiterState? && !env.flags.trailingCommas
    ensures Resting(KeyValueDelimiterState, stack)
    ensures Loop(env, state, stack, pos, events)
         == Resume(env, ParseMemberName(env, pos, events), KeyValueDelimiterState, stack)
  {
    hide ParseString, ParseValue, SkipWhitespaceAndComments;
    if At(env.src, pos) == QUOTE {
      var key := ParseString(env, pos, events, true);
      assert Loop(env, state, stack, pos, events) == Resume(env, key, MemberKeyState, stack);
      if key.Parsed? {
        var w := SkipWhitespaceAndComments(env, key.pos);
        if w.Some? {
          ColonSimulation(env, stack, w.value, key.events);
        }
      }
    } else {
      MissingNameSimulation(env, state, stack, pos, events);
    }
  }

  lemma {:induction false} MissingNameSimulation(env: Env, state: State, stack: seq<Frame>, pos: nat,
                                                 events: seq<Event>)
    requires pos <= |env.src| && At(env.src, pos) != QUOTE
    requires Resting(state, stack)
    requires state.ObjectInitialState? || state.MemberDelimiterState?
    requires At(env.src, pos) == RIGHT_BRACE ==> state.MemberDelimiterState? && !env.flags.trailingCommas
    ensures Loop(env, state, stack, pos, events) == Failed(events)
  {
  }

  lemma {:induction false} ColonSimulation(env: Env, stack: seq<Frame>, pos: nat, events: seq<Event>)
    requires pos <= |env.src|
    requires Resting(MemberKeyState, stack)
    ensures Resting(KeyValueDelimiterState, stack)
    ensures Loop(env, MemberKeyState, stack, pos, events)
         == if At(env.src, pos) == COLON then Continue(env, KeyValueDelimiterState, stack, pos + 1, events)
            else Failed(events)
  {
  }

  /** An opening bracket pushes a frame and goes on inside the container. */
  lemma {:induction false} OpenSimulation(env: Env, state: State, stack: seq<Frame>, pos: nat, events: seq<Event>)
    requires AwaitsValue(state) && Resting(state, stack)
    requires At(env.src, pos) == LEFT_BRACE || At(env.src, pos) == LEFT_BRACKET
    ensures
      var isObject := At(env.src, pos) == LEFT_BRACE;
      var s := Send(env, events, if isObject then StartObject else StartArray, pos + 1);
      var inner := if isObject then ObjectInitialState else ArrayInitialState;
      Resting(inner, stack + [Frame(ReturnState(state), 0)])
      && Loop(env, state, stack, pos, events)
      == if s.Failed? then Failed(s.events)
         else Continue(env, inner, stack + [Frame(ReturnState(state), 0)], pos + 1, s.events)
  {
    hide ParseValue, ParseString, SkipWhitespaceAndComments, Continue;
  }

  /** Behind a part there must be a comma or the closing bracket. */
  lemma {:induction false} SeparatorMissing(env: Env, state: State, stack: seq<Frame>, pos: nat, events: seq<Event>)
    requires pos <= |env.src| && Resting(state, stack)
    requires state.MemberValueState? || state.ElementState?
    requires At(env.src, pos) != COMMA
    requires At(env.src, pos) != if state.MemberValueState? then RIGHT_BRACE else RIGHT_BRACKET
    ensures Loop(env, state, stack, pos, events) == Failed(events)
  {
    hide ParseValue, ParseString, SkipWhitespaceAndComments, Continue;
  }

  lemma {:induction false} ObjectSimulation(env: Env, state: State, stack: seq<Frame>, pos: nat, events: seq<Event>)
    requires AwaitsValue(state) && Resting(state, stack)
    requires At(env.src, pos) == LEFT_BRACE
    ensures Loop(env, state, stack, pos, events)
         == Resume(env, ParseObject(env, pos, events), AfterValue(state), stack)
    decreases |env.src| - pos, 0
  {
    hide ParseMembers, SkipWhitespaceAndComments, Loop;
    OpenSimulation(env, state, stack, pos, events);
    var s := Send(env, events, StartObject, pos + 1);
    if s.Parsed? {
      var w := SkipWhitespaceAndComments(env, pos + 1);
      if w.Some? {
        if At(env.src, w.value) == RIGHT_BRACE {
          CloseSimulation(env, state, ObjectInitialState, stack, w.value, s.events, 0, true);
        } else {
          MembersSimulation(env, state, ObjectInitialState, stack, w.value, s.events, 0);
        }
      }
    }
  }

  lemma {:induction false} MembersSimulation(env: Env, outer: State, state: State, stack: seq<Frame>, pos: nat,
                                             events: seq<Event>, memberCount: nat)
    requires pos <= |env.src|
    requires AwaitsValue(outer) && Resting(outer, stack)
    requires state.ObjectInitialState? || state.MemberDelimiterState?
    requires At(env.src, pos) == RIGHT_BRACE ==> state.MemberDelimiterState? && !env.flags.trailingCommas
    ensures Resting(state, stack + [Frame(ReturnState(outer), memberCount)])
    ensures Loop(env, state, stack + [Frame(ReturnState(outer), memberCount)], pos, events)
         == Resume(env, ParseMembers(env, pos, events, memberCount), AfterValue(outer), stack)
    decreases |env.src| - pos, 2
  {
    hide ParseMemberName, ParseMemberValue, Loop;
    var inner := stack + [Frame(ReturnState(outer), memberCount)];
    NameSimulation(env, state, inner, pos, events);
    var name := ParseMemberName(env, pos, events);
    if name.Parsed? {
      MemberValueSimulation(env, outer, stack, name.pos, name.events, memberCount);
    }
  }

  lemma {:induction false} MemberValueSimulation(env: Env, outer: State, stack: seq<Frame>, pos: nat,
                                                 events: seq<Event>, memberCount: nat)
    requires pos <= |env.src|
    requires AwaitsValue(outer) && Resting(outer, stack)
    ensures Resting(KeyValueDelimiterState, stack + [Frame(ReturnState(outer), memberCount)])
    ensures Continue(env, KeyValueDelimiterState, stack + [Frame(ReturnState(outer), memberCount)], pos, events)
         == Resume(env, ParseMemberValue(env, pos, events, memberCount), AfterValue(outer), stack)
    decreases |env.src| - pos, 4
  {
    hide ParseValue, AfterMember, SkipWhitespaceAndComments;
    var inner := stack + [Frame(ReturnState(outer), memberCount)];
    var w2 := SkipWhitespaceAndComments(env, pos);
    if w2.Some? {
      ValueSimulation(env, KeyValueDelimiterState, inner, w2.value, events);
      var v := ParseValue(env, w2.value, events);
      if v.Parsed? {
        var w3 := SkipWhitespaceAndComments(env, v.pos);
        if w3.Some? {
          AfterMemberSimulation(env, outer, stack, w3.value, v.events, memberCount);
        }
      }
    }
  }

  lemma {:induction false} AfterMemberSimulation(env: Env, outer: State, stack: seq<Frame>, pos: nat,
                                                 events: seq<Event>, commas: nat)
    requires pos <= |env.src|
    requires AwaitsValue(outer) && Resting(outer, stack)
    ensures Resting(MemberValueState, stack + [Frame(ReturnState(outer), commas)])
    ensures Loop(env, MemberValueState, stack + [Frame(ReturnState(outer), commas)], pos, events)
         == Resume(env, AfterMember(env, pos, events, Increment(commas)), AfterValue(outer), stack)
    decreases |env.src| - pos, 3
  {
    hide ParseMembers, SkipWhitespaceAndComments, Loop;
    if At(env.src, pos) == COMMA {
      CommaSimulation(env, outer, MemberValueState, stack, pos, events, commas);
      var w := SkipWhitespaceAndComments(env, pos + 1);
      if w.Some? {
        if env.flags.trailingCommas && At(env.src, w.value) == RIGHT_BRACE {
          CloseSimulation(env, outer, MemberDelimiterState, stack, w.value, events, Increment(commas), true);
        } else {
          MembersSimulation(env, outer, MemberDelimiterState, stack, w.value, events, Increment(commas));
        }
      }
    } else if At(env.src, pos) == RIGHT_BRACE {
      CloseSimulation(env, outer, MemberValueState, stack, pos, events, commas, true);
    } else {
      SeparatorMissing(env, MemberValueState, stack + [Frame(ReturnState(outer), commas)], pos, events);
    }
  }

  lemma {:induction false} ArraySimulation(env: Env, state: State, stack: seq<Frame>, pos: nat, events: seq<Event>)
    requires AwaitsValue(state) && Resting(state, stack)
    requires At(env.src, pos) == LEFT_BRACKET
    ensures Loop(env, state, stack, pos, events)
         == Resume(env, ParseArray(env, pos, events), AfterValue(state), stack)
    decreases |env.src| - pos, 0
  {
    hide ParseElements, SkipWhitespaceAndComments, Loop;
    OpenSimulation(env, state, stack, pos, events);
    var s := Send(env, events, StartArray, pos + 1);
    if s.Parsed? {
      var w := SkipWhitespaceAndComments(env, pos + 1);
      if w.Some? {
        if At(env.src, w.value) == RIGHT_BRACKET {
          CloseSimulation(env, state, ArrayInitialState, stack, w.value, s.events, 0, false);
        } else {
          ElementsSimulation(env, state, ArrayInitialState, stack, w.value, s.events, 0);
        }
      }
    }
  }

  lemma {:induction false} ElementsSimulation(env: Env, outer: State, state: State, stack: seq<Frame>, pos: nat,
                                              events: seq<Event>, elementCount: nat)
    requires pos <= |env.src|
    requires AwaitsValue(outer) && Resting(outer, stack)
    requires state.ArrayInitialState? || state.ElementDelimiterState?
    requires At(env.src, pos) == RIGHT_BRACKET ==> state.ElementDelimiterState? && !env.flags.trailingCommas
    ensures Resting(state, stack + [Frame(ReturnState(outer), elementCount)])
    ensures Loop(env, state, stack + [Frame(ReturnState(outer), elementCount)], pos, events)
         == Resume(env, ParseElements(env, pos, events, elementCount), AfterValue(outer), stack)
    decreases |env.src| - pos, 2
  {
    hide ParseValue, AfterElement, SkipWhitespaceAndComments;
    var inner := stack + [Frame(ReturnState(outer), elementCount)];
    ValueSimulation(env, state, inner, pos, events);
    var v := ParseValue(env, pos, events);
    if v.Parsed? {
      var w := SkipWhitespaceAndComments(env, v.pos);
      if w.Some? {
        AfterElementSimulation(env, outer, stack, w.value, v.events, elementCount);
      }
    }
  }

  lemma {:induction false} AfterElementSimulation(env: Env, outer: State, stack: seq<Frame>, pos: nat,
                                                  events: seq<Event>, commas: nat)
    requires pos <= |env.src|
    requires AwaitsValue(outer) && Resting(outer, stack)
    ensures Resting(ElementState, stack + [Frame(ReturnState(outer), commas)])
    ensures Loop(env, ElementState, stack + [Frame(ReturnState(outer), commas)], pos, events)
         == Resume(env, AfterElement(env, pos, events, Increment(commas)), AfterValue(outer), stack)
    decreases |env.src| - pos, 3
  {
    hide ParseElements, SkipWhitespaceAndComments, Loop;
    if At(env.src, pos) == COMMA {
      CommaSimulation(env, outer, ElementState, stack, pos, events, commas);
      var w := SkipWhitespaceAndComments(env, pos + 1);
      if w.Some? {
        if env.flags.trailingCommas && At(env.src, w.value) == RIGHT_BRACKET {
          CloseSimulation(env, outer, ElementDelimiterState, stack, w.value, events, Increment(commas), false);
        } else {
          ElementsSimulation(env, outer, ElementDelimiterState, stack, w.value, events, Increment(commas));
        }
      }
    } else if At(env.src, pos) == RIGHT_BRACKET {
      CloseSimulation(env, outer, ElementState, stack, pos, events, commas, false);
    } else {
      SeparatorMissing(env, ElementState, stack + [Frame(ReturnState(outer), commas)], pos, events);
    }
  }

  /** Behind the root the automaton accepts exactly where the recursive parser does. */
  lemma {:induction false} RootSimulation(env: Env, pos: nat, events: seq<Event>)
    requires pos <= |env.src|
    ensures Continue(env, FinishState, [], pos, events) == Finish(env, pos, events)
  {
  }

  /**
   * With a stack for its frames alone the automaton equals the recursive parser as a function:
   * verdict, events with their counts and the position reached, for every text, start position,
   * setting, handler and double conversion.
   */
  lemma {:induction false} FramesAgree(env: Env, pos: nat)
    requires pos <= |env.src|
    ensures IterativeParse(env, pos) == Parse(env, pos)
  {
    var w := SkipWhitespaceAndComments(env, pos);
    if w.Some? {
      ValueSimulation(env, StartState, [], w.value, []);
      var v := ParseValue(env, w.value, []);
      if v.Parsed? {
        RootSimulation(env, v.pos, v.events);
      }
      if At(env.src, w.value) == NUL {
        NotAValue(env, w.value, []);
      }
    }
  }
}
