/** The writer objects: Prefix, the level stack and the output, and Accept driving them. */
module WriterImpl {
  import opened Bytes
  import opened Events
  import opened Options
  import opened Document
  import opened Writer
  import AsciiStrings

  /** The bytes of a string or of a member's name. */
  function StringOf(e: Event): Text {
    if e.String? then e.str else if e.Key? then e.key else []
  }

  /** The first `n` elements fit. */
  predicate ElementsFit(elements: seq<Value>, n: nat)
    requires n <= |elements|
  {
    forall i | 0 <= i < n :: LiteralsFit(elements[i])
  }

  predicate MembersFit(members: seq<Member>, n: nat)
    requires n <= |members|
  {
    forall i | 0 <= i < n :: MemberFits(members[i])
  }

  lemma {:induction false} FitsByElement(elements: seq<Value>, n: nat)
    requires n < |elements|
    ensures ElementsFit(elements, n + 1) <==> ElementsFit(elements, n) && LiteralsFit(elements[n])
  {
    hide LiteralsFit;
  }

  lemma {:induction false} ElementsFitEnds(elements: seq<Value>)
    ensures ElementsFit(elements, 0)
    ensures ElementsFit(elements, |elements|) <==> LiteralsFit(ArrayValue(elements))
  {
  }

  lemma {:induction false} FitsByMember(members: seq<Member>, n: nat)
    requires n < |members|
    ensures MembersFit(members, n + 1) <==> MembersFit(members, n) && MemberFits(members[n])
  {
    hide MemberFits;
  }

  lemma {:induction false} MembersFitEnds(members: seq<Member>)
    ensures MembersFit(members, 0)
    ensures MembersFit(members, |members|) <==> LiteralsFit(ObjectValue(members))
  {
  }

  /** Strings and names for whose reservation the 32-bit sum does not wrap. */
  predicate Roomy(v: Value) {
    match v
    case StringValue(s) => AsciiStrings.Roomy(|s|, true)
    case ArrayValue(elements) => forall i | 0 <= i < |elements| :: Roomy(elements[i])
    case ObjectValue(members) =>
      forall i | 0 <= i < |members| :: AsciiStrings.Roomy(|members[i].name|, true) && Roomy(members[i].value)
    case _ => true
  }

  /** Values whose strings have fewer than 715827883 bytes each never overrun a reservation. */
  lemma {:induction false} RoomyLiteralsFit(v: Value)
    requires Roomy(v)
    ensures LiteralsFit(v)
  {
    hide AsciiStrings.Roomy, LiteralFits;
    match v {
      case StringValue(s) =>
        RoomyLiteralFits(s);
      case ArrayValue(elements) =>
        forall i | 0 <= i < |elements| ensures LiteralsFit(elements[i]) {
          RoomyLiteralsFit(elements[i]);
        }
      case ObjectValue(members) =>
        forall i | 0 <= i < |members| ensures MemberFits(members[i]) {
          RoomyLiteralFits(members[i].name);
          RoomyLiteralsFit(members[i].value);
        }
      case _ =>
    }
  }

  /** A document can hold a string of 715827883 control characters, whose literal overruns its reservation. */
  lemma {:induction false} LongLiteralOverruns()
    ensures
      var v := StringValue(AsciiStrings.Controls(715827883));
      WellFormed(v) && !Roomy(v) && !LiteralsFit(v)
  {
    hide AsciiStrings.Controls, Quoted;
    AsciiStrings.LiteralsOverrun();
  }

  lemma {:induction false} RoomyLiteralFits(s: Text)
    requires AsciiStrings.Roomy(|s|, true)
    ensures LiteralFits(s)
  {
    hide Quoted, Reserved;
    AsciiStrings.RoomyFits(s, true);
  }

  /** A writer for a Unicode target, with the layout of Writer or of PrettyWriter. */
  class JsonWriter {
    const style: Style
    var os: Text
    var levelStack: seq<Level>
    var hasRoot: bool
    /** Every string so far was put inside what was reserved for it. */
    var within: bool

    constructor (style: Style)
      ensures this.style == style && State() == INITIAL && within
    {
      this.style := style;
      os, levelStack, hasRoot, within := [], [], false, true;
    }

    function State(): WriterState
      reads this
    {
      WriterState(os, levelStack, hasRoot)
    }

    method Put(text: Text)
      modifies this`os
      ensures os == old(os) + text
    {
      os := os + text;
    }

    method WriteIndent()
      modifies this`os
      ensures os == old(os) + Indent(style, |levelStack|)
      ensures style.Pretty? ==> os == old(os) + seq(style.indentCharCount * |levelStack|, _ => style.indentChar)
    {
      if style.Pretty? {
        var count := |levelStack| * style.indentCharCount;
        for k := 0 to count
          invariant os == old(os) + seq(k, _ => style.indentChar)
        {
          os := os + [style.indentChar];
        }
      }
    }

    method BreakLine()
      modifies this`os
      ensures os == old(os) + LineBreak(style, |levelStack|)
    {
      if style.Pretty? {
        Put([NEWLINE]);
        WriteIndent();
      }
    }

    /** The separator, line break and indentation a level asks for before its next value. */
    method PutSeparator(level: Level)
      modifies this`os
      ensures os == old(os) + PrefixText(style, level, |levelStack|)
    {
      if level.inArray {
        if level.valueCount > 0 {
          Put([COMMA]);
          if style.Pretty? && style.singleLineArray {
            Put([SPACE]);
          }
        }
        if style.Pretty? && !style.singleLineArray {
          BreakLine();
        }
      } else if level.valueCount % 2 == 1 {
        Put([COLON]);
        if style.Pretty? {
          Put([SPACE]);
        }
      } else {
        if level.valueCount > 0 {
          Put([COMMA]);
        }
        BreakLine();
      }
      PrefixPut(style, level, |levelStack|, old(os), os);
    }

    /** Prefix of Writer and PrettyPrefix of PrettyWriter. */
    method PutPrefix(ghost isString: bool)
      requires PrefixAllowed(State(), isString)
      modifies this`os, this`levelStack, this`hasRoot
      ensures State() == Prefix(style, old(State()))
    {
      hide PrefixText;
      if |levelStack| != 0 {
        var level := levelStack[|levelStack| - 1];
        PutSeparator(level);
        levelStack := levelStack[|levelStack| - 1 := level.(valueCount := level.valueCount + 1)];
      } else {
        hasRoot := true;
      }
    }

    /** A scalar, with the text its writing function puts. */
    method Scalar(e: Event)
      requires ScalarEvent(e) || e.Key?
      requires Step(style, State(), e).Some?
      requires |StringOf(e)| < SIZE_TYPE_LIMIT
      modifies this
      ensures Step(style, old(State()), e) == Some(State())
      ensures within == (old(within) && (e.String? || e.Key? ==> LiteralFits(StringOf(e))))
    {
      PutPrefix(e.String? || e.Key?);
      if e.String? || e.Key? {
        var ok, text, inside := AsciiStrings.WriteString(StringOf(e), true);
        Put(text);
        within := within && inside;
      } else {
        Put(ScalarText(e));
      }
    }

    method Start(isArray: bool)
      requires PrefixAllowed(State(), false)
      modifies this`os, this`levelStack, this`hasRoot
      ensures Step(style, old(State()), if isArray then StartArray else StartObject) == Some(State())
      ensures
        var p := Prefix(style, old(State()));
        && os == p.out + [if isArray then LEFT_BRACKET else LEFT_BRACE]
        && levelStack == p.levels + [Level(0, isArray)] && hasRoot == p.hasRoot
    {
      PutPrefix(false);
      levelStack := levelStack + [Level(0, isArray)];
      Put([if isArray then LEFT_BRACKET else LEFT_BRACE]);
    }

    method End(isArray: bool)
      requires CloseLevel(style, State(), isArray).Some?
      modifies this`os, this`levelStack
      ensures CloseLevel(style, old(State()), isArray) == Some(State())
    {
      var level := levelStack[|levelStack| - 1];
      levelStack := levelStack[..|levelStack| - 1];
      if level.valueCount != 0 && !(isArray && style.Pretty? && style.singleLineArray) {
        BreakLine();
      }
      Put([if isArray then RIGHT_BRACKET else RIGHT_BRACE]);
      Assoc(old(os), CloseText(style, level, |levelStack|), [if isArray then RIGHT_BRACKET else RIGHT_BRACE]);
      assert old(os) + [] == old(os);
    }

    /** The end of a container of which as many values were written as the top level says. */
    method EndTop(ghost outer: seq<Level>, ghost top: Level, isArray: bool)
      requires levelStack == outer + [top] && top.inArray == isArray && (isArray || top.valueCount % 2 == 0)
      modifies this`os, this`levelStack
      ensures levelStack == outer
      ensures os
        == old(os) + (CloseText(style, top, |outer|) + [if isArray then RIGHT_BRACKET else RIGHT_BRACE])
    {
      hide CloseText;
      LastLevel(outer, top);
      Assoc(os, CloseText(style, top, |outer|), [if isArray then RIGHT_BRACKET else RIGHT_BRACE]);
      End(isArray);
    }

    /**
     * Accept with this writer as the handler: none of the assertions on levels and roots is broken
     * on the way, the value's text is appended behind its separator, and the puts stay inside what
     * is reserved for strings exactly when every literal fits its reservation.
     */
    method Accept(v: Value)
      requires WellFormed(v) && PrefixAllowed(State(), v.StringValue?)
      modifies this
      ensures
        var p := Prefix(style, old(State()));
        State() == p.(out := p.out + Print(style, AcceptTree(v), |old(levelStack)|))
      ensures within == (old(within) && LiteralsFit(v))
      decreases v, 0
    {
      AcceptCopies(v);
      match v {
        case ArrayValue(elements) => AcceptArray(elements);
        case ObjectValue(members) => AcceptObject(members);
        case NullValue => Scalar(Null);
        case BoolValue(b) => Scalar(Bool(b));
        case NumberValue(n) => Scalar(NumberEventOf(n));
        case DoubleValue(text) => Scalar(Double(text));
        case StringValue(s) => Scalar(String(s));
      }
    }

    method AcceptArray(elements: seq<Value>)
      requires WellFormed(ArrayValue(elements)) && PrefixAllowed(State(), false)
      modifies this
      ensures
        var p := Prefix(style, old(State()));
        State() == p.(out := p.out + Print(style, AcceptTree(ArrayValue(elements)), |old(levelStack)|))
      ensures within == (old(within) && LiteralsFit(ArrayValue(elements)))
      decreases elements, |elements| + 2
    {
      hide Print, PrefixText, CloseText, AcceptTree, WellFormed, PrintParts, LiteralsFit, Step, Prefix, PrefixAllowed;
      ghost var depth := |levelStack|;
      ghost var start := Prefix(style, State());
      PrefixDepth(style, State());
      ArrayParts(style, elements, depth);
      ghost var parts := AcceptTree(ArrayValue(elements)).parts;
      Start(true);
      Assoc(start.out, [LEFT_BRACKET], PrintParts(style, parts, 0, depth));
      AcceptElements(elements, start.levels);
      PartsEnd(style, parts, depth);
      EndTop(start.levels, Level(|elements|, true), true);
    }

    /** The elements of an array that is open as the top level. */
    method AcceptElements(elements: seq<Value>, ghost outer: seq<Level>)
      requires WellFormed(ArrayValue(elements)) && levelStack == outer + [Level(0, true)]
      modifies this
      ensures levelStack == outer + [Level(|elements|, true)] && hasRoot == old(hasRoot)
      ensures
        var parts := AcceptTree(ArrayValue(elements)).parts;
        |parts| == |elements|
        && os + PrintParts(style, parts, |parts|, |outer|) == old(os) + PrintParts(style, parts, 0, |outer|)
      ensures within == (old(within) && LiteralsFit(ArrayValue(elements)))
      decreases elements, |elements| + 1
    {
      hide Print, PrefixText, CloseText, AcceptTree, WellFormed, PrintParts, LiteralsFit, ElementsFit;
      ElementsFitEnds(elements);
      ArrayParts(style, elements, |outer|);
      ghost var parts := AcceptTree(ArrayValue(elements)).parts;
      var i := 0;
      while i < |elements|
        invariant i <= |elements| && levelStack == outer + [Level(i, true)] && hasRoot == old(hasRoot)
        invariant os + PrintParts(style, parts, i, |outer|) == old(os) + PrintParts(style, parts, 0, |outer|)
        invariant within == (old(within) && ElementsFit(elements, i))
      {
        ElementPart(elements, i);
        ghost var before := os;
        AcceptElement(elements, i, outer);
        PartsUnfold(style, parts, i, |outer|, before);
        FitsByElement(elements, i);
        i := i + 1;
      }
    }

    /** One element of an array that is open as the top level. */
    method AcceptElement(elements: seq<Value>, i: nat, ghost outer: seq<Level>)
      requires i < |elements| && WellFormed(elements[i]) && levelStack == outer + [Level(i, true)]
      modifies this
      ensures levelStack == outer + [Level(i + 1, true)] && hasRoot == old(hasRoot)
      ensures os == old(os) + PrefixText(style, Level(i, true), |outer| + 1)
                  + Print(style, AcceptTree(elements[i]), |outer| + 1)
      ensures within == (old(within) && LiteralsFit(elements[i]))
      decreases elements, 0
    {
      hide Print, PrefixText, AcceptTree, WellFormed, LiteralsFit;
      LastLevel(outer, Level(i, true));
      Accept(elements[i]);
      assert levelStack == outer + [Level(i + 1, true)];
    }

    method AcceptObject(members: seq<Member>)
      requires WellFormed(ObjectValue(members)) && PrefixAllowed(State(), false)
      modifies this
      ensures
        var p := Prefix(style, old(State()));
        State() == p.(out := p.out + Print(style, AcceptTree(ObjectValue(members)), |old(levelStack)|))
      ensures within == (old(within) && LiteralsFit(ObjectValue(members)))
      decreases members, |members| + 2
    {
      hide Print, PrefixText, CloseText, AcceptTree, WellFormed, PrintFields, LiteralsFit, Step, Prefix, PrefixAllowed;
      ghost var depth := |levelStack|;
      ghost var start := Prefix(style, State());
      PrefixDepth(style, State());
      ObjectFields(style, members, depth);
      ghost var fields := AcceptTree(ObjectValue(members)).fields;
      Start(false);
      Assoc(start.out, [LEFT_BRACE], PrintFields(style, fields, 0, depth));
      AcceptMembers(members, start.levels);
      FieldsEnd(style, fields, depth);
      EndTop(start.levels, Level(2 * |members|, false), false);
    }

    /** The members of an object that is open as the top level. */
    method AcceptMembers(members: seq<Member>, ghost outer: seq<Level>)
      requires WellFormed(ObjectValue(members)) && levelStack == outer + [Level(0, false)]
      modifies this
      ensures levelStack == outer + [Level(2 * |members|, false)] && hasRoot == old(hasRoot)
      ensures
        var fields := AcceptTree(ObjectValue(members)).fields;
        |fields| == |members|
        && os + PrintFields(style, fields, |fields|, |outer|) == old(os) + PrintFields(style, fields, 0, |outer|)
      ensures within == (old(within) && LiteralsFit(ObjectValue(members)))
      decreases members, |members| + 1
    {
      hide Print, PrefixText, CloseText, AcceptTree, WellFormed, PrintFields, Quoted;
      hide LiteralsFit, MembersFit, MemberFits;
      MembersFitEnds(members);
      ObjectFields(style, members, |outer|);
      ghost var fields := AcceptTree(ObjectValue(members)).fields;
      var i := 0;
      while i < |members|
        invariant i <= |members| && levelStack == outer + [Level(2 * i, false)] && hasRoot == old(hasRoot)
        invariant os + PrintFields(style, fields, i, |outer|) == old(os) + PrintFields(style, fields, 0, |outer|)
        invariant within == (old(within) && MembersFit(members, i))
      {
        MemberField(members, i);
        ghost var before := os;
        AcceptMember(members, i, outer);
        FieldsUnfold(style, fields, i, |outer|, before);
        FitsByMember(members, i);
        i := i + 1;
      }
    }

    /** One member of an object that is open as the top level: its name, then its value. */
    method AcceptMember(members: seq<Member>, i: nat, ghost outer: seq<Level>)
      requires i < |members| && |members[i].name| < SIZE_TYPE_LIMIT && WellFormed(members[i].value)
      requires levelStack == outer + [Level(2 * i, false)]
      modifies this
      ensures levelStack == outer + [Level(2 * (i + 1), false)] && hasRoot == old(hasRoot)
      ensures os == old(os) + PrefixText(style, Level(2 * i, false), |outer| + 1) + Quoted(members[i].name)
                  + PrefixText(style, Level(2 * i + 1, false), |outer| + 1)
                  + Print(style, AcceptTree(members[i].value), |outer| + 1)
      ensures within == (old(within) && MemberFits(members[i]))
      decreases members, 0
    {
      hide Print, PrefixText, AcceptTree, WellFormed, Quoted, LiteralFits, LiteralsFit;
      LastLevel(outer, Level(2 * i, false));
      Scalar(Key(members[i].name));
      assert levelStack == outer + [Level(2 * i + 1, false)];
      LastLevel(outer, Level(2 * i + 1, false));
      Accept(members[i].value);
      assert levelStack == outer + [Level(2 * (i + 1), false)];
    }
  }

  lemma {:induction false} LastLevel(outer: seq<Level>, top: Level)
    ensures
      var s := outer + [top];
      s[|s| - 1] == top && s[..|s| - 1] == outer
  {
  }

  lemma {:induction false} PrefixDepth(style: Style, w: WriterState)
    ensures |Prefix(style, w).levels| == |w.levels|
  {
    hide PrefixText;
  }

  lemma {:induction false} PrefixPut(style: Style, level: Level, depth: nat, before: Text, after: Text)
    requires
      if level.inArray then
        var comma := if level.valueCount > 0 then [COMMA] else [];
        match style
        case Compact => after == before + comma
        case Pretty(_, _, singleLine) =>
          if singleLine then after == before + comma + (if level.valueCount > 0 then [SPACE] else [])
          else after == before + comma + LineBreak(style, depth)
      else if level.valueCount % 2 == 1 then
        after == before + [COLON] + (if style.Pretty? then [SPACE] else [])
      else after == before + (if level.valueCount > 0 then [COMMA] else []) + LineBreak(style, depth)
    ensures after == before + PrefixText(style, level, depth)
  {
  }

  lemma {:induction false} ArrayParts(style: Style, elements: seq<Value>, depth: nat)
    ensures
      var t := AcceptTree(ArrayValue(elements));
      && t.ArrayTree? && |t.parts| == |elements|
      && Print(style, t, depth) == [LEFT_BRACKET] + PrintParts(style, t.parts, 0, depth)
  {
    hide PrintParts;
  }

  lemma {:induction false} ObjectFields(style: Style, members: seq<Member>, depth: nat)
    ensures
      var t := AcceptTree(ObjectValue(members));
      && t.ObjectTree? && |t.fields| == |members|
      && Print(style, t, depth) == [LEFT_BRACE] + PrintFields(style, t.fields, 0, depth)
  {
    hide PrintFields;
  }

  lemma {:induction false} ElementPart(elements: seq<Value>, i: nat)
    requires WellFormed(ArrayValue(elements)) && i < |elements|
    ensures WellFormed(elements[i]) && AcceptTree(ArrayValue(elements)).parts[i] == AcceptTree(elements[i])
  {
  }

  lemma {:induction false} MemberField(members: seq<Member>, i: nat)
    requires WellFormed(ObjectValue(members)) && i < |members|
    ensures |members[i].name| < SIZE_TYPE_LIMIT && WellFormed(members[i].value)
    ensures AcceptTree(ObjectValue(members)).fields[i] == Field(members[i].name, AcceptTree(members[i].value))
  {
  }

  lemma {:induction false} PartsUnfold(style: Style, parts: seq<EventTree>, i: nat, depth: nat, before: Text)
    requires i < |parts|
    ensures before + PrintParts(style, parts, i, depth)
         == before + PrefixText(style, Level(i, true), depth + 1) + Print(style, parts[i], depth + 1)
          + PrintParts(style, parts, i + 1, depth)
  {
    hide PrefixText, Print;
    Assoc3(before, PrefixText(style, Level(i, true), depth + 1), Print(style, parts[i], depth + 1),
           PrintParts(style, parts, i + 1, depth));
  }

  lemma {:induction false} PartsEnd(style: Style, parts: seq<EventTree>, depth: nat)
    ensures PrintParts(style, parts, |parts|, depth) == CloseText(style, Level(|parts|, true), depth) + [RIGHT_BRACKET]
  {
    hide CloseText;
  }

  lemma {:induction false} FieldsUnfold(style: Style, fields: seq<Field>, i: nat, depth: nat, before: Text)
    requires i < |fields|
    ensures before + PrintFields(style, fields, i, depth)
         == before + PrefixText(style, Level(2 * i, false), depth + 1) + Quoted(fields[i].key)
          + PrefixText(style, Level(2 * i + 1, false), depth + 1) + Print(style, fields[i].tree, depth + 1)
          + PrintFields(style, fields, i + 1, depth)
  {
    hide PrefixText, Print, Quoted;
    Assoc5(before, PrefixText(style, Level(2 * i, false), depth + 1), Quoted(fields[i].key),
           PrefixText(style, Level(2 * i + 1, false), depth + 1), Print(style, fields[i].tree, depth + 1),
           PrintFields(style, fields, i + 1, depth));
  }

  lemma {:induction false} FieldsEnd(style: Style, fields: seq<Field>, depth: nat)
    ensures PrintFields(style, fields, |fields|, depth)
      == CloseText(style, Level(2 * |fields|, false), depth) + [RIGHT_BRACE]
  {
    hide CloseText;
  }
}
