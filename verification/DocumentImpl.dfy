/** The document object: its handlers on a stack, ParseStream, and values copied through text. */
module DocumentImpl {
  import opened Bytes
  import opened Events
  import opened Options
  import opened Document
  import opened Writer
  import StackedReader
  import RecursiveReader
  import ReaderImpl
  import WriterImpl
  import ReaderTrees
  import RoundTrip

  class GenericDocument {
    /** The values under construction, and the document's own value. */
    var stack: seq<Value>
    var root: Value

    constructor ()
      ensures stack == [] && root == NullValue
    {
      stack, root := [], NullValue;
    }

    method Push(v: Value)
      modifies this`stack
      ensures stack == old(stack) + [v]
    {
      stack := stack + [v];
    }

    method Pop(n: nat) returns (values: seq<Value>)
      requires n <= |stack|
      modifies this`stack
      ensures stack == old(stack)[..|old(stack)| - n] && values == old(stack)[|old(stack)| - n..]
    {
      values := stack[|stack| - n..];
      stack := stack[..|stack| - n];
    }

    /** Null, Bool, the number handlers and String. */
    method Scalar(e: Event)
      requires ScalarEvent(e)
      modifies this`stack
      ensures Handle(old(stack), e) == Some(stack)
    {
      Push(ScalarValue(e));
    }

    method Key(name: Text)
      modifies this`stack
      ensures Handle(old(stack), Event.Key(name)) == Some(stack)
    {
      Push(StringValue(name));
    }

    method StartObject()
      modifies this`stack
      ensures Handle(old(stack), Event.StartObject) == Some(stack)
    {
      Push(ObjectValue([]));
    }

    /** Takes the members off the stack, a name and a value each, and stores them in the object below. */
    method EndObject(memberCount: nat)
      requires Handle(stack, Event.EndObject(memberCount)).Some?
      modifies this`stack
      ensures Handle(old(stack), Event.EndObject(memberCount)) == Some(stack)
    {
      var slots := Pop(2 * memberCount);
      var members: seq<Member> := [];
      for i := 0 to memberCount
        invariant members == Pairs(slots)[..i]
      {
        members := members + [Member(slots[2 * i].s, slots[2 * i + 1])];
      }
      assert members == Pairs(slots);
      stack := stack[|stack| - 1 := ObjectValue(members)];
      assert stack == old(stack)[..|old(stack)| - 2 * memberCount - 1] + [ObjectValue(members)];
    }

    method StartArray()
      modifies this`stack
      ensures Handle(old(stack), Event.StartArray) == Some(stack)
    {
      Push(ArrayValue([]));
    }

    method EndArray(elementCount: nat)
      requires Handle(stack, Event.EndArray(elementCount)).Some?
      modifies this`stack
      ensures Handle(old(stack), Event.EndArray(elementCount)) == Some(stack)
    {
      var elements := Pop(elementCount);
      stack := stack[|stack| - 1 := ArrayValue(elements)];
      assert stack == old(stack)[..|old(stack)| - elementCount - 1] + [ArrayValue(elements)];
    }

    /** One call of the reader on its handler. */
    method Send(e: Event)
      requires Handle(stack, e).Some?
      modifies this`stack
      ensures Handle(old(stack), e) == Some(stack)
    {
      match e {
        case StartObject => StartObject();
        case EndObject(n) => EndObject(n);
        case StartArray => StartArray();
        case EndArray(n) => EndArray(n);
        case Key(s) => Key(s);
        case _ => Scalar(e);
      }
    }

    /** All the calls of an accepted parse. */
    method SendAll(events: seq<Event>)
      requires HandleAll(stack, events).Some?
      modifies this`stack
      ensures HandleAll(old(stack), events) == Some(stack)
    {
      hide Handle;
      for i := 0 to |events|
        invariant HandleAll(old(stack), events[..i]) == Some(stack)
      {
        PrefixHandled(old(stack), events, i + 1);
        assert events[..i + 1][..i] == events[..i];
        Send(events[i]);
      }
      assert events[..|events|] == events;
    }

    /**
     * ParseStream: when the text is accepted, exactly one value is left on the stack and becomes the
     * document's; the stack is empty afterwards in any case. Every text of less than 4 GiB will do; of
     * a longer one the assertion of a single root must hold.
     */
    method ParseStream(env: Env, iterative: bool) returns (ok: bool)
      requires stack == [] && !env.strict
      requires Parsing(env, iterative).Parsed? ==> |env.src| < SIZE_TYPE_LIMIT || BuildsOne(env, iterative)
      modifies this
      ensures ok == Parsing(env, iterative).Parsed? && stack == []
      ensures
        if ok then HandleAll([], Parsing(env, iterative).events) == Some([root])
        else root == old(root)
    {
      hide HandleAll;
      var reader := new ReaderImpl.GenericReader(env, 0);
      if iterative {
        reader.IterativeParse();
      } else {
        reader.Parse();
      }
      ok := !reader.failed;
      if ok {
        if |env.src| < SIZE_TYPE_LIMIT {
          ShortTextsBuildOne(env, iterative);
        }
        SendAll(reader.events);
        var values := Pop(1);
        root := values[0];
      }
    }
  }

  /** The parse of a whole text, by the parser chosen. */
  function Parsing(env: Env, iterative: bool): Outcome {
    if iterative then StackedReader.IterativeParse(env, 0) else RecursiveReader.Parse(env, 0)
  }

  /** The handlers leave one value for the text. */
  ghost predicate BuildsOne(env: Env, iterative: bool) {
    exists v :: HandleAll([], Parsing(env, iterative).events) == Some([v])
  }

  lemma {:induction false} PrefixHandled(stack: seq<Value>, events: seq<Event>, i: nat)
    requires i <= |events| && HandleAll(stack, events).Some?
    ensures HandleAll(stack, events[..i]).Some?
    ensures i > 0 ==>
      HandleAll(stack, events[..i - 1]).Some? && Handle(HandleAll(stack, events[..i - 1]).value, events[i - 1]).Some?
    decreases |events| - i
  {
    hide Handle;
    if i < |events| {
      PrefixHandled(stack, events, i + 1);
      assert events[..i + 1][..i] == events[..i];
    } else {
      assert events[..i] == events;
    }
    if i > 0 {
      assert events[..i][..i - 1] == events[..i - 1];
    }
  }

  /** They do for every accepted text of less than 4 GiB. */
  lemma {:induction false} ShortTextsBuildOne(env: Env, iterative: bool)
    requires !env.strict && |env.src| < SIZE_TYPE_LIMIT && Parsing(env, iterative).Parsed?
    ensures BuildsOne(env, iterative)
  {
    StackedReader.ShortTextsCounted(env, 0);
    StackedReader.ParsersAgree(env, 0);
    var t := ReaderTrees.AcceptedTextBuildsOneValue(env, 0);
  }

  /**
   * A value written by either writer and parsed by either parser comes back as it was, exactly as long
   * as the writer stays inside what it reserves; what it leaves otherwise is not parsed here.
   */
  method CopyThroughText(v: Value, style: Style, flags: Flags, tooBig: Text -> bool, iterative: bool)
      returns (within: bool, w: Value)
    requires WellFormed(v) && RoundTrip.Clean(flags.validateEncoding, v) && ValidStyle(style)
    ensures within == LiteralsFit(v)
    ensures within ==> w == v
  {
    hide HandleAll, Run, Print, Flatten, AcceptTree, LiteralsFit;
    var writer := new WriterImpl.JsonWriter(style);
    writer.Accept(v);
    within, w := writer.within, NullValue;
    if !within {
      return;
    }
    var env := Env(writer.os, flags, es => true, tooBig, false);
    RoundTrip.EveryValuePrints(style, v);
    assert [] + Print(style, AcceptTree(v), 0) == Print(style, AcceptTree(v), 0);
    ghost var events := RoundTrip.PrintedTextReadsBack(env, style, v);
    var document := new GenericDocument();
    var ok := document.ParseStream(env, iterative);
    w := document.root;
  }
}
