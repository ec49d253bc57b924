/** The pointer object: parsing into its two buffers with moving cursors, and printing from them. */
module PointerImpl {
  import opened Bytes
  import opened Encodings
  import opened Events
  import P = Pointer
  import opened Options

  /** A token as stored: where its name starts in the name buffer, its 32-bit length and its index. */
  datatype Record = Record(start: nat, length: nat, index: nat)

  function SlashCount(s: Text, i: nat): nat
    requires i <= |s|
    decreases |s| - i
  {
    if i == |s| then 0 else (if s[i] == SLASH then 1 else 0) + SlashCount(s, i + 1)
  }

  lemma {:induction false} NoSlashes(s: Text, i: nat, j: nat)
    requires i <= j <= |s| && forall k | i <= k < j :: s[k] != SLASH
    ensures SlashCount(s, i) == SlashCount(s, j)
    decreases j - i
  {
    if i < j {
      NoSlashes(s, i + 1, j);
    }
  }

  lemma {:induction false} PercentNoSlashes(s: Text, i: nat, n: nat)
    requires i <= |s|
    ensures forall k | i <= k < i + 3 * |P.PercentBytes(s, i, n)| :: s[k] != SLASH
    decreases n
  {
    if n > 0 && P.PercentByte(s, i).Some? {
      PercentNoSlashes(s, i + 3, n - 1);
    }
  }

  /** One round of the name loop passes no solidus but the one it starts at, if any. */
  lemma {:induction false} UnitNoSlashes(s: Text, uri: bool, i: nat)
    requires i < |s| && s[i] != SLASH && P.TakeUnit(s, uri, i).Piece?
    ensures i < P.TakeUnit(s, uri, i).next <= |s|
    ensures SlashCount(s, i) == SlashCount(s, P.TakeUnit(s, uri, i).next)
  {
    hide Validate, SlashCount;
    P.UnitAdvances(s, uri, i);
    PercentNoSlashes(s, i, 4);
    P.NothingValidates();
    if P.PercentBytes(s, i, 4) != [] {
      ValidateCopies(P.PercentBytes(s, i, 4), 0);
    }
    NoSlashes(s, i, P.TakeUnit(s, uri, i).next);
  }

  /** The bytes a validation attempt puts out, successful or not. */
  lemma {:induction false} AttemptWidth(b: Text)
    ensures |Validate(b, 0).copied| <= 4
    ensures b == [] ==> |Validate(b, 0).copied| == 1
  {
    ValidateAgrees(b, 0);
  }

  /** The tokens that records make of a name buffer. */
  function ContentsOf(buffer: Text, records: seq<Record>): seq<P.Token>
    requires forall k | 0 <= k < |records| :: records[k].start + records[k].length <= |buffer|
  {
    seq(|records|, k requires 0 <= k < |records| =>
      P.Token(buffer[records[k].start..records[k].start + records[k].length], records[k].index))
  }

  /** Tokens with their names as long as their length fields say. */
  function CutTokens(tokens: seq<P.Token>): (r: seq<P.Token>)
    ensures |r| == |tokens|
  {
    seq(|tokens|, k requires 0 <= k < |tokens| => P.Token(P.Cut(tokens[k].name), tokens[k].index))
  }

  lemma {:induction false} ShortUncut(tokens: seq<P.Token>)
    requires P.ShortNames(tokens)
    ensures CutTokens(tokens) == tokens
  {
    forall k | 0 <= k < |tokens| ensures CutTokens(tokens)[k] == tokens[k] {
      assert P.Cut(tokens[k].name) == tokens[k].name;
    }
  }

  function NamePrepend(written: Text, n: P.NameResult): P.NameResult {
    if n.NameError? then n else P.Name(written + n.name, n.end)
  }

  lemma {:induction false} NamePrependTwice(a: Text, b: Text, n: P.NameResult)
    ensures NamePrepend(a, NamePrepend(b, n)) == NamePrepend(a + b, n)
  {
    if n.Name? {
      assert (a + b) + n.name == a + (b + n.name);
    }
  }

  /** Puts bytes at the cursor and moves it. */
  method Put(buffer: array<byte>, at: nat, bytes: Text) returns (next: nat)
    requires at + |bytes| <= buffer.Length
    modifies buffer
    ensures next == at + |bytes|
    ensures buffer[..at] == old(buffer[..at]) && buffer[at..next] == bytes
  {
    next := at;
    for k := 0 to |bytes|
      invariant next == at + k
      invariant buffer[..at] == old(buffer[..at]) && buffer[at..next] == bytes[..k]
    {
      buffer[next] := bytes[k];
      next := next + 1;
    }
  }

  lemma {:induction false} DigitsAppend(a: Text, b: Text)
    ensures P.AllDigits(a + b) == (P.AllDigits(a) && P.AllDigits(b))
  {
    assert forall k | 0 <= k < |a| :: a[k] == (a + b)[k];
    assert forall k | 0 <= k < |b| :: b[k] == (a + b)[|a| + k];
  }

  lemma {:induction false} LongSequence(b: Text)
    ensures |Validate(b, 0).copied| >= 1
    ensures |Validate(b, 0).copied| > 1 ==> !P.AllDigits(Validate(b, 0).copied)
  {
    ValidateAgrees(b, 0);
    if |Validate(b, 0).copied| > 1 {
      assert Validate(b, 0).copied[0] == At(b, 0) >= 0x80;
    }
  }

  /** One round of the name loop, from the character at `i`, writing at `name`. */
  method TakeUnit(source: Text, uri: bool, from: nat, buffer: array<byte>, at: nat)
      returns (failed: Option<P.ErrorCode>, i: nat, name: nat, digits: bool)
    requires from < |source| == buffer.Length && at + (if uri then 2 else 1) <= from
    modifies buffer
    ensures at <= name <= buffer.Length && buffer[..at] == old(buffer[..at])
    ensures
      match P.TakeUnit(source, uri, from)
      case Broken(code, offset) => failed == Some(code) && i == offset
      case Piece(bytes, next) =>
        failed == None && i == next && name == at + |bytes| && buffer[at..name] == bytes && digits == P.AllDigits(bytes)
  {
    hide Validate;
    i, name, failed, digits := from, at, None, false;
    var c := source[i];
    if uri && c == PERCENT {
      var b := P.PercentBytes(source, i, 4);
      var v := Validate(b, 0);
      AttemptWidth(b);
      LongSequence(b);
      name := Put(buffer, at, v.copied);
      if !v.ok || v.next > |b| {
        failed := Some(P.InvalidPercentEncoding);
        return;
      }
      if |v.copied| == 1 {
        c := v.copied[0];
        i := i + 2;
      } else {
        i := i + 3 * |v.copied|;
        digits := false;
        return;
      }
    } else if uri && P.NeedPercentEncode(c) {
      failed := Some(P.CharacterMustPercentEncode);
      return;
    }
    i := i + 1;
    if c == TILDE {
      if i < |source| && source[i] == 48 {
        c := TILDE;
      } else if i < |source| && source[i] == 49 {
        c := SLASH;
      } else {
        failed := Some(P.InvalidEscape);
        return;
      }
      i := i + 1;
    }
    digits := IsDigit(c);
    name := Put(buffer, at, [c]);
  }

  /**
   * The name loop: reads a name from `from` on and writes it at `start`. It stays inside the buffer
   * because the cursor never overtakes the source.
   */
  method TakeName(source: Text, uri: bool, from: nat, buffer: array<byte>, start: nat)
      returns (failed: Option<P.ErrorCode>, i: nat, name: nat, isNumber: bool)
    requires from <= |source| == buffer.Length && start + (if uri then 2 else 1) <= from
    modifies buffer
    ensures start <= name <= buffer.Length && buffer[..start] == old(buffer[..start])
    ensures
      match P.ParseName(source, uri, from)
      case NameError(code, offset) => failed == Some(code) && i == offset
      case Name(text, end) =>
        failed == None && i == end && name == start + |text| && buffer[start..name] == text
        && isNumber == P.AllDigits(text) && name + (if uri then 2 else 1) <= i
        && SlashCount(source, i) == SlashCount(source, from)
  {
    hide P.TakeUnit, SlashCount;
    i, name, isNumber := from, start, true;
    failed := None;
    ghost var result := P.ParseName(source, uri, from);
    ghost var written: Text := [];
    assert NamePrepend([], result) == result;
    while i < |source| && source[i] != SLASH
      invariant from <= i <= |source|
      invariant failed == None && name == start + |written| && name + (if uri then 2 else 1) <= i
      invariant buffer[..start] == old(buffer[..start]) && buffer[start..name] == written
      invariant isNumber == P.AllDigits(written)
      invariant result == NamePrepend(written, P.ParseName(source, uri, i))
      invariant SlashCount(source, i) == SlashCount(source, from)
      decreases |source| - i
    {
      ghost var before := buffer[..name];
      P.UnitAdvances(source, uri, i);
      ghost var u := P.TakeUnit(source, uri, i);
      UnitResult(source, uri, i, written);
      var at, digits := name, true;
      failed, i, name, digits := TakeUnit(source, uri, i, buffer, at);
      Preserved(before, buffer[..], start, at);
      if failed != None {
        return;
      }
      DigitsAppend(written, u.bytes);
      isNumber := isNumber && digits;
      written := written + u.bytes;
    }
  }

  lemma {:induction false} Preserved(before: Text, after: Text, start: nat, at: nat)
    requires start <= at == |before| <= |after| && after[..at] == before
    ensures after[..start] == before[..start] && after[start..at] == before[start..]
  {
    assert after[..start] == after[..at][..start];
    assert after[start..at] == after[..at][start..];
  }

  /** How the name's result changes hands over one round. */
  lemma {:induction false} UnitResult(source: Text, uri: bool, i: nat, written: Text)
    requires i < |source| && source[i] != SLASH
    ensures
      var r := NamePrepend(written, P.ParseName(source, uri, i));
      match P.TakeUnit(source, uri, i)
      case Broken(code, offset) => r == P.NameError(code, offset)
      case Piece(bytes, next) =>
        i < next <= |source| && r == NamePrepend(written + bytes, P.ParseName(source, uri, next))
        && SlashCount(source, i) == SlashCount(source, next)
  {
    hide P.TakeUnit, SlashCount;
    P.UnitAdvances(source, uri, i);
    var u := P.TakeUnit(source, uri, i);
    if u.Piece? {
      UnitNoSlashes(source, uri, i);
      NamePrependTwice(written, u.bytes, P.ParseName(source, uri, u.next));
    }
  }

  /** The number of a digit string, as the conversion loop computes it. */
  method ToIndex(name: Text, isDigits: bool) returns (index: nat)
    requires isDigits == P.AllDigits(name)
    ensures index == P.IndexOf(name)
  {
    var cut := P.Cut(name);
    var isNumber := isDigits;
    if |cut| == 0 {
      isNumber := false;
    }
    if isNumber && |cut| > 1 && cut[0] == ZERO {
      isNumber := false;
    }
    var n: nat := 0;
    if isNumber {
      assert P.AllDigits(cut);
      var j := 0;
      while j < |cut|
        invariant j <= |cut|
        invariant P.IndexFrom(cut, 0, 0) == P.IndexFrom(cut, j, n)
      {
        var m := (n * 10 + (cut[j] - 48)) % SIZE_TYPE_LIMIT;
        if m < n {
          isNumber := false;
          break;
        }
        n := m;
        j := j + 1;
      }
    }
    index := if isNumber then n else P.INVALID_INDEX;
  }

  method CountSlashes(source: Text) returns (n: nat)
    ensures n == SlashCount(source, 0)
  {
    n := 0;
    var i := 0;
    while i < |source|
      invariant i <= |source| && n + SlashCount(source, i) == SlashCount(source, 0)
    {
      if source[i] == SLASH {
        n := n + 1;
      }
      i := i + 1;
    }
  }

  function TokensPrepend(done: seq<P.Token>, r: P.ParseResult): P.ParseResult {
    if r.ParseError? then r else P.Tokens(done + r.tokens)
  }

  lemma {:induction false} TokenResult(source: Text, uri: bool, i: nat, done: seq<P.Token>)
    requires i < |source|
    ensures
      var r := TokensPrepend(done, P.ParseTokens(source, uri, i));
      match P.ParseName(source, uri, i + 1)
      case NameError(code, offset) => r == P.ParseError(code, offset)
      case Name(text, end) =>
        r == TokensPrepend(done + [P.Token(text, P.IndexOf(text))], P.ParseTokens(source, uri, end))
  {
    hide P.IndexOf, P.ParseName;
    var n := P.ParseName(source, uri, i + 1);
    if n.Name? {
      var rest := P.ParseTokens(source, uri, n.end);
      var t := P.Token(n.name, P.IndexOf(n.name));
      if rest.Tokens? {
        assert done + ([t] + rest.tokens) == done + [t] + rest.tokens;
      }
    }
  }

  /** The records cover names that were written before the cursor, one behind the other. */
  ghost predicate Recorded(buffer: Text, records: seq<Record>, tokens: seq<P.Token>, name: nat) {
    && |records| == |tokens| && name <= |buffer|
    && forall k | 0 <= k < |records| ::
      && records[k].start + |tokens[k].name| <= name
      && buffer[records[k].start..records[k].start + |tokens[k].name|] == tokens[k].name
      && records[k].length == P.Length(tokens[k]) && records[k].index == tokens[k].index
  }

  lemma {:induction false} RecordedSize(buffer: Text, records: seq<Record>, tokens: seq<P.Token>, name: nat)
    requires Recorded(buffer, records, tokens, name)
    ensures |records| == |tokens| && name <= |buffer|
  {
  }

  lemma {:induction false} RecordedAdd(buffer: Text, records: seq<Record>, tokens: seq<P.Token>, at: nat, t: P.Token,
                                       name: nat)
    requires Recorded(buffer, records, tokens, at)
    requires at + |t.name| < name <= |buffer| && buffer[at..at + |t.name|] == t.name
    ensures Recorded(buffer, records + [Record(at, P.Length(t), t.index)], tokens + [t], name)
  {
  }

  lemma {:induction false} NothingRecorded(buffer: Text, records: seq<Record>)
    requires records == []
    ensures Recorded(buffer, records, [], 0)
  {
  }

  lemma {:induction false} SlashEnd(source: Text)
    ensures SlashCount(source, |source|) == 0
  {
  }

  lemma {:induction false} RecordedStays(before: Text, after: Text, records: seq<Record>, tokens: seq<P.Token>,
                                         name: nat)
    requires Recorded(before, records, tokens, name) && |after| == |before| && after[..name] == before[..name]
    ensures Recorded(after, records, tokens, name)
  {
    forall k | 0 <= k < |records|
      ensures after[records[k].start..records[k].start + |tokens[k].name|] == tokens[k].name
    {
      var a, b := records[k].start, records[k].start + |tokens[k].name|;
      assert after[a..b] == after[..name][a..b] == before[..name][a..b] == before[a..b];
    }
  }

  lemma {:induction false} RecordedContents(buffer: Text, records: seq<Record>, tokens: seq<P.Token>, name: nat)
    requires Recorded(buffer, records, tokens, name)
    ensures forall k | 0 <= k < |records| ::
      records[k].start + records[k].length <= |buffer| && records[k].length < SIZE_TYPE_LIMIT
    ensures ContentsOf(buffer, records) == CutTokens(tokens)
  {
    forall k | 0 <= k < |records|
      ensures records[k].start + records[k].length <= |buffer| && records[k].length < SIZE_TYPE_LIMIT
      ensures buffer[records[k].start..records[k].start + records[k].length] == P.Cut(tokens[k].name)
    {
      CutStands(buffer, records[k].start, tokens[k].name, records[k].length);
    }
  }

  lemma {:induction false} CutStands(buffer: Text, a: nat, name: Text, n: nat)
    requires a + |name| <= |buffer| && buffer[a..a + |name|] == name && n == |name| % SIZE_TYPE_LIMIT
    ensures n <= |name| && n < SIZE_TYPE_LIMIT && buffer[a..a + n] == P.Cut(name)
  {
    assert buffer[a..a + n] == buffer[a..a + |name|][..n];
  }

  lemma {:induction false} TokensEnd(source: Text, uri: bool)
    ensures P.ParseTokens(source, uri, |source|) == P.Tokens([])
  {
  }

  /** One round of the token loop: a solidus, a name with its terminator, and the token's record. */
  method TakeToken(source: Text, uri: bool, from: nat, names: array<byte>, recs: array<Record>, token: nat, at: nat,
                   ghost done: seq<P.Token>)
      returns (failed: Option<P.ErrorCode>, i: nat, name: nat)
    requires from < |source| == names.Length && source[from] == SLASH && at + (if uri then 1 else 0) <= from
    requires token + SlashCount(source, from) == recs.Length && Recorded(names[..], recs[..token], done, at)
    modifies names, recs
    ensures
      match P.ParseName(source, uri, from + 1)
      case NameError(code, offset) => failed == Some(code) && i == offset
      case Name(text, end) =>
        failed == None && i == end && name + (if uri then 1 else 0) <= i
        && token + 1 + SlashCount(source, i) == recs.Length
        && Recorded(names[..], recs[..token + 1], done + [P.Token(text, P.IndexOf(text))], name)
  {
    hide P.ParseName, P.IndexOf, Recorded;
    RecordedSize(names[..], recs[..token], done, at);
    ghost var before, olds := names[..], recs[..token];
    var isNumber;
    failed, i, name, isNumber := TakeName(source, uri, from + 1, names, at);
    if failed != None {
      return;
    }
    var text := names[at..name];
    var index := ToIndex(text, isNumber);
    names[name] := NUL;
    assert names[..at] == before[..at] && names[at..name] == text;
    RecordedStays(before, names[..], olds, done, at);
    RecordedAdd(names[..], olds, done, at, P.Token(text, index), name + 1);
    recs[token] := Record(at, P.Length(P.Token(text, index)), index);
    assert recs[..token + 1] == olds + [recs[token]];
    name := name + 1;
  }

  class GenericPointer {
    var nameBuffer: array<byte>
    var records: array<Record>
    var tokenCount: nat
    var error: Option<P.ErrorCode>
    var errorOffset: nat

    /** The records of a valid pointer lie inside its buffers. */
    ghost predicate Valid()
      reads this, nameBuffer, records
    {
      && error == None && tokenCount == records.Length
      && forall k | 0 <= k < tokenCount ::
        records[k].start + records[k].length <= nameBuffer.Length && records[k].length < SIZE_TYPE_LIMIT
    }

    ghost function Contents(): seq<P.Token>
      requires Valid()
      reads this, nameBuffer, records
    {
      ContentsOf(nameBuffer[..], records[..])
    }

    /**
     * Parses a source into fresh buffers: as many records as the source has solidi, and a name buffer
     * as long as the source. Both are filled without ever writing outside them.
     */
    constructor (source: Text)
      ensures
        match P.Parse(source)
        case Tokens(tokens) =>
          Valid() && Contents() == CutTokens(tokens) && (P.ShortNames(tokens) ==> Contents() == tokens)
        case ParseError(code, offset) => error == Some(code) && errorOffset == offset && tokenCount == 0
    {
      hide P.ParseName, P.IndexOf, P.ParseTokens, Recorded, ContentsOf, CutTokens, SlashCount;
      var count := CountSlashes(source);
      var recs := new Record[count](_ => Record(0, 0, 0));
      var names := new byte[|source|](_ => NUL);
      var i := 0;
      var uri := false;
      var err: Option<P.ErrorCode> := None;
      if At(source, 0) == HASH {
        uri := true;
        i := 1;
      }
      var token: nat, name: nat := 0, 0;
      ghost var done: seq<P.Token> := [];
      if i != |source| && source[i] != SLASH {
        err := Some(P.TokenMustBeginWithSolidus);
      } else {
        NoSlashes(source, 0, i);
        NothingRecorded(names[..], recs[..token]);
        SlashEnd(source);
        ghost var result := P.ParseTokens(source, uri, i);
        assert TokensPrepend([], result) == result;
        while i < |source|
          invariant i <= |source| && (i < |source| ==> source[i] == SLASH)
          invariant err == None && token == |done| && token + SlashCount(source, i) == count
          invariant name + (if uri then 1 else 0) <= i && names.Length == |source| && recs.Length == count
          invariant Recorded(names[..], recs[..token], done, name)
          invariant fresh(names) && fresh(recs)
          invariant result == TokensPrepend(done, P.ParseTokens(source, uri, i))
          decreases |source| - i
        {
          TokenResult(source, uri, i, done);
          ghost var parsed := P.ParseName(source, uri, i + 1);
          err, i, name := TakeToken(source, uri, i, names, recs, token, name, done);
          if err != None {
            assert result == P.ParseError(err.value, i);
            break;
          }
          token := token + 1;
          done := done + [P.Token(parsed.name, P.IndexOf(parsed.name))];
        }
      }
      TokensEnd(source, uri);
      assert done + [] == done;
      if err == None {
        assert recs[..token] == recs[..];
        RecordedContents(names[..], recs[..], done, name);
        if P.ShortNames(done) {
          ShortUncut(done);
        }
        nameBuffer, records, tokenCount := names, recs, count;
      } else {
        nameBuffer, records, tokenCount := new byte[0], new Record[0], 0;
      }
      error, errorOffset := err, i;
    }

    /** Puts the pointer's text; `ok` is false when a name cannot be put into a URI fragment. */
    method Stringify(uri: bool) returns (ok: bool, os: Text)
      requires Valid()
      ensures P.Stringify(uri, Contents()) == if ok then Some(os) else None
    {
      hide P.PrintName, ContentsOf;
      ok, os := true, if uri then [HASH] else [];
      ghost var tokens := Contents();
      ghost var head := os;
      ContentsShort(nameBuffer[..], records[..]);
      assert tokens[0..] == tokens;
      var t := 0;
      while t < tokenCount
        invariant t <= tokenCount && |tokens| == tokenCount
        invariant P.Stringify(uri, tokens) == P.Prepend(os, P.PrintTokens(uri, tokens[t..]))
      {
        var name := nameBuffer[records[t].start..records[t].start + records[t].length];
        RecordName(nameBuffer[..], records[..], t);
        assert tokens[t].name == name && tokens[t..][1..] == tokens[t + 1..];
        var put;
        ok, put := PutName(uri, name);
        if !ok {
          return;
        }
        PrependTwice(os, [SLASH] + put, P.PrintTokens(uri, tokens[t + 1..]));
        os := os + ([SLASH] + put);
        t := t + 1;
      }
      assert tokens[t..] == [] && os + [] == os;
    }
  }

  lemma {:induction false} PrependTwice(a: Text, b: Text, r: Option<Text>)
    ensures P.Prepend(a, P.Prepend(b, r)) == P.Prepend(a + b, r)
  {
    if r.Some? {
      assert a + (b + r.value) == a + b + r.value;
    }
  }

  lemma {:induction false} ContentsShort(buffer: Text, records: seq<Record>)
    requires forall k | 0 <= k < |records| ::
      records[k].start + records[k].length <= |buffer| && records[k].length < SIZE_TYPE_LIMIT
    ensures |ContentsOf(buffer, records)| == |records|
  {
  }

  lemma {:induction false} RecordName(buffer: Text, records: seq<Record>, t: nat)
    requires t < |records| && forall k | 0 <= k < |records| ::
      records[k].start + records[k].length <= |buffer| && records[k].length < SIZE_TYPE_LIMIT
    ensures
      var token := ContentsOf(buffer, records)[t];
      token.name == buffer[records[t].start..records[t].start + records[t].length] && P.Length(token) == |token.name|
  {
  }

  /** The character loop of Stringify over one name. */
  method PutName(uri: bool, name: Text) returns (ok: bool, os: Text)
    ensures P.PrintName(uri, name, 0, |name|) == if ok then Some(os) else None
  {
    hide P.PrintStep, P.PrintName;
    ok, os := true, [];
    var j: nat := 0;
    Unprepended(P.PrintName(uri, name, 0, |name|));
    while j < |name|
      invariant j <= |name|
      invariant P.PrintName(uri, name, 0, |name|) == P.Prepend(os, P.PrintName(uri, name, j, |name|))
    {
      P.PrintSteps(uri, name, j);
      StepIs(uri, name, j);
      ghost var step := P.PrintStep(uri, name, j);
      ghost var before := os;
      var c := name[j];
      if c == TILDE {
        os := os + [TILDE, 48];
        j := j + 1;
      } else if c == SLASH {
        os := os + [TILDE, 49];
        j := j + 1;
      } else if uri && P.NeedPercentEncode(c) {
        var v := Validate(name, j);
        if !v.ok {
          ok := false;
          return;
        }
        os := os + P.PercentText(v.copied);
        j := v.next;
      } else {
        os := os + [c];
        j := j + 1;
      }
      PrependTwice(before, step.text, P.PrintName(uri, name, j, |name|));
    }
    NameEnd(uri, name);
    assert os + [] == os;
  }

  lemma {:induction false} Unprepended(r: Option<Text>)
    ensures P.Prepend([], r) == r
  {
    if r.Some? {
      assert [] + r.value == r.value;
    }
  }

  lemma {:induction false} NameEnd(uri: bool, name: Text)
    ensures P.PrintName(uri, name, |name|, |name|) == Some([])
  {
  }

  lemma {:induction false} StepIs(uri: bool, name: Text, j: nat)
    requires j < |name|
    ensures
      var c := name[j];
      P.PrintStep(uri, name, j)
      == if c == TILDE then P.Step([TILDE, 48], j + 1)
         else if c == SLASH then P.Step([TILDE, 49], j + 1)
         else if uri && P.NeedPercentEncode(c) then
           (var v := Validate(name, j); if v.ok then P.Step(P.PercentText(v.copied), v.next) else P.Stuck)
         else P.Step([c], j + 1)
  {
    hide Validate, P.PercentText;
  }
}
