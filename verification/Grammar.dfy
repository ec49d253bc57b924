/**
 * The grammar of JSON texts (sections 2 to 7 of RFC 8259) with the reader's extensions, as derivations: what
 * each spells and which events it means. It shares no definition with the reader but those of UTF-8.
 */
module Grammar {
  import opened Bytes
  import opened Encodings
  import opened Events
  import opened Options

  /**
   * What a grammar allows: the extensions the parse flags name, unescaped characters that must be
   * UTF-8, escapes of a high surrogate that stand alone, and which numbers are in range.
   */
  datatype Profile = Profile(
    comments: bool,
    trailingCommas: bool,
    utf8: bool,
    nanAndInf: bool,
    loneHigh: bool,
    inRange: Numeral -> bool)

  /** JSON as RFC 8259 has it. */
  const RFC := Profile(false, false, true, false, true, _ => true)

  // ----- insignificant whitespace

  /** A whitespace character, a block comment or a line comment. */
  datatype Space = Blank(c: byte) | Block(body: Text) | Line(body: Text)

  type Gap = seq<Space>

  function SpaceText(s: Space): Text {
    match s
    case Blank(c) => [c]
    case Block(body) => [0x2F, 0x2A] + body + [0x2A, 0x2F]
    case Line(body) => [0x2F, 0x2F] + body + [0x0A]
  }

  predicate BlockBody(body: Text) {
    && (forall i | 0 <= i < |body| :: body[i] != 0)
    && forall i | 0 <= i < |body| - 1 :: !(body[i] == 0x2A && body[i + 1] == 0x2F)
  }

  predicate LineBody(body: Text) {
    forall i | 0 <= i < |body| :: body[i] != 0 && body[i] != 0x0A
  }

  predicate ValidSpace(p: Profile, s: Space) {
    match s
    case Blank(c) => c == 0x20 || c == 0x09 || c == 0x0A || c == 0x0D
    case Block(body) => p.comments && BlockBody(body)
    case Line(body) => p.comments && LineBody(body)
  }

  function GapText(g: Gap): Text {
    if g == [] then [] else SpaceText(g[0]) + GapText(g[1..])
  }

  predicate ValidGap(p: Profile, g: Gap) {
    forall i | 0 <= i < |g| :: ValidSpace(p, g[i])
  }

  // ----- numbers

  type digit = x: int | 0 <= x < 10

  datatype Lead = Whole(digits: seq<digit>) | NaN | Inf | Infinity

  datatype Power = Power(upper: bool, sign: Sign, digits: seq<digit>)

  datatype Sign = NoSign | Plus | Minus

  /** `[ minus ] int [ frac ] [ exp ]`, where the extensions put a word for the integer part. */
  datatype Numeral = Numeral(minus: bool, lead: Lead, fraction: seq<digit>, power: Option<Power>)

  function DigitsText(ds: seq<digit>): (t: Text)
    ensures |t| == |ds|
  {
    seq(|ds|, i requires 0 <= i < |ds| => 0x30 + ds[i] as int)
  }

  function LeadText(h: Lead): Text {
    match h
    case Whole(ds) => DigitsText(ds)
    case NaN => [0x4E, 0x61, 0x4E]
    case Inf => [0x49, 0x6E, 0x66]
    case Infinity => [0x49, 0x6E, 0x66, 0x69, 0x6E, 0x69, 0x74, 0x79]
  }

  function FractionText(fraction: seq<digit>): Text {
    if fraction == [] then [] else [0x2E] + DigitsText(fraction)
  }

  function SignText(s: Sign): Text {
    if s == Plus then [0x2B] else if s == Minus then [0x2D] else []
  }

  function PowerText(power: Option<Power>): Text {
    if power.None? then []
    else
      [if power.value.upper then 0x45 else 0x65] + SignText(power.value.sign) + DigitsText(power.value.digits)
  }

  function NumeralText(n: Numeral): Text {
    (if n.minus then [0x2D] else []) + LeadText(n.lead) + FractionText(n.fraction) + PowerText(n.power)
  }

  predicate ValidNumeral(p: Profile, n: Numeral) {
    && (match n.lead
        case Whole(ds) => ds != [] && (ds[0] == 0 ==> |ds| == 1)
        case _ => p.nanAndInf)
    && (n.power.Some? ==> n.power.value.digits != [])
    && p.inRange(n)
  }

  /** The number decimal digits say. */
  function DecimalValue(ds: seq<digit>): (r: nat) {
    if ds == [] then 0 else 10 * DecimalValue(ds[..|ds| - 1]) + ds[|ds| - 1]
  }

  /** Just digits, with or without a minus. */
  predicate Integral(n: Numeral) {
    n.lead.Whole? && n.fraction == [] && n.power.None?
  }

  /** An integer that a 64-bit type holds: with a minus a signed one, without an unsigned one. */
  predicate Holds(n: Numeral) {
    Integral(n) && DecimalValue(n.lead.digits) < if n.minus then 0x8000_0000_0000_0001 else 0x1_0000_0000_0000_0000
  }

  /** An integer is its value, in 32 bits where they hold it; anything else is the double of these characters. */
  function NumeralEvent(n: Numeral): Event {
    if Holds(n) then
      var v := DecimalValue(n.lead.digits);
      if n.minus then (if v <= 0x8000_0000 then Int(0 - v) else Int64(0 - v))
      else if v < 0x1_0000_0000 then Uint(v)
      else Uint64(v)
    else Double(NumeralText(n))
  }

  // ----- strings

  /** A hexadecimal digit in one of its two cases. */
  datatype Nibble = Nibble(value: nat, upper: bool)

  datatype Hex = Hex(a: Nibble, b: Nibble, c: Nibble, d: Nibble)

  const LOWER: Text := [0x30, 0x31, 0x32, 0x33, 0x34, 0x35, 0x36, 0x37, 0x38, 0x39, 0x61, 0x62, 0x63, 0x64, 0x65, 0x66]
  const UPPER: Text := [0x30, 0x31, 0x32, 0x33, 0x34, 0x35, 0x36, 0x37, 0x38, 0x39, 0x41, 0x42, 0x43, 0x44, 0x45, 0x46]

  predicate ValidHex(h: Hex) {
    h.a.value < 16 && h.b.value < 16 && h.c.value < 16 && h.d.value < 16
  }

  function NibbleText(n: Nibble): byte
    requires n.value < 16
  {
    if n.upper then UPPER[n.value] else LOWER[n.value]
  }

  function HexText(h: Hex): (t: Text)
    ensures |t| == 4
  {
    if ValidHex(h) then [NibbleText(h.a), NibbleText(h.b), NibbleText(h.c), NibbleText(h.d)] else [0, 0, 0, 0]
  }

  function HexNumber(h: Hex): nat {
    0x1000 * h.a.value + 0x100 * h.b.value + 0x10 * h.c.value + h.d.value
  }

  /** An unescaped character, a short escape, an escaped code unit, or two that are a surrogate pair. */
  datatype Character = Plain(bytes: Text) | Short(letter: byte) | Code(unit: Hex) | Pair(high: Hex, low: Hex)

  function CharacterText(c: Character): Text {
    match c
    case Plain(bytes) => bytes
    case Short(letter) => [0x5C, letter]
    case Code(unit) => [0x5C, 0x75] + HexText(unit)
    case Pair(high, low) => [0x5C, 0x75] + HexText(high) + [0x5C, 0x75] + HexText(low)
  }

  predicate ValidCharacter(p: Profile, c: Character) {
    match c
    case Plain(bytes) =>
      && (if p.utf8 then Rfc3629(bytes) else |bytes| == 1)
      && bytes != [] && bytes[0] >= 0x20 && bytes[0] != 0x22 && bytes[0] != 0x5C
    case Short(letter) => letter in {0x22, 0x5C, 0x2F, 0x62, 0x66, 0x6E, 0x72, 0x74}
    case Code(unit) => ValidHex(unit) && (p.loneHigh || !(0xD800 <= HexNumber(unit) < 0xDC00))
    case Pair(high, low) =>
      ValidHex(high) && ValidHex(low) && 0xD800 <= HexNumber(high) < 0xDC00 && 0xDC00 <= HexNumber(low) < 0xE000
  }

  /** The bytes a character stands for. */
  function CharacterBytes(c: Character): Text {
    match c
    case Plain(bytes) => bytes
    case Short(letter) =>
      [if letter == 0x62 then 0x08
       else if letter == 0x66 then 0x0C
       else if letter == 0x6E then 0x0A
       else if letter == 0x72 then 0x0D
       else if letter == 0x74 then 0x09
       else letter]
    case Code(unit) => if HexNumber(unit) < 0x1_0000 then Encode(HexNumber(unit)) else []
    case Pair(high, low) =>
      if 0xD800 <= HexNumber(high) < 0xDC00 && 0xDC00 <= HexNumber(low) < 0xE000 then
        Encode(0x1_0000 + 0x400 * (HexNumber(high) - 0xD800) + (HexNumber(low) - 0xDC00))
      else []
  }

  function CharactersText(cs: seq<Character>): Text {
    if cs == [] then [] else CharacterText(cs[0]) + CharactersText(cs[1..])
  }

  function CharactersBytes(cs: seq<Character>): Text {
    if cs == [] then [] else CharacterBytes(cs[0]) + CharactersBytes(cs[1..])
  }

  predicate ValidCharacters(p: Profile, cs: seq<Character>) {
    forall i | 0 <= i < |cs| :: ValidCharacter(p, cs[i])
  }

  function Literal(cs: seq<Character>): Text {
    [0x22] + CharactersText(cs) + [0x22]
  }

  // ----- values

  datatype Json =
    | NullWord
    | FalseWord
    | TrueWord
    | Number(n: Numeral)
    | Letters(cs: seq<Character>)
    | EmptyArray(inside: Gap)
    | Array(elements: Elements)
    | EmptyObject(inside: Gap)
    | Object(members: Members)

  /** An element with the whitespace around it, and the next ones; behind the last a comma may trail. */
  datatype Elements =
    | LastElement(before: Gap, value: Json, after: Gap, trailing: Option<Gap>)
    | Element(before: Gap, value: Json, after: Gap, more: Elements)

  datatype Members =
    | LastMember(before: Gap, name: seq<Character>, named: Gap, colon: Gap, value: Json, after: Gap,
                 trailing: Option<Gap>)
    | Member(before: Gap, name: seq<Character>, named: Gap, colon: Gap, value: Json, after: Gap, more: Members)

  function Spelling(v: Json): Text {
    match v
    case NullWord => [0x6E, 0x75, 0x6C, 0x6C]
    case FalseWord => [0x66, 0x61, 0x6C, 0x73, 0x65]
    case TrueWord => [0x74, 0x72, 0x75, 0x65]
    case Number(n) => NumeralText(n)
    case Letters(cs) => Literal(cs)
    case EmptyArray(inside) => [0x5B] + GapText(inside) + [0x5D]
    case Array(elements) => [0x5B] + ElementsText(elements)
    case EmptyObject(inside) => [0x7B] + GapText(inside) + [0x7D]
    case Object(members) => [0x7B] + MembersText(members)
  }

  function TrailingText(trailing: Option<Gap>): Text {
    if trailing.None? then [] else [0x2C] + GapText(trailing.value)
  }

  /** The elements and the closing bracket. */
  function ElementsText(es: Elements): Text {
    match es
    case LastElement(before, value, after, trailing) =>
      GapText(before) + (Spelling(value) + (GapText(after) + (TrailingText(trailing) + [0x5D])))
    case Element(before, value, after, more) =>
      GapText(before) + (Spelling(value) + (GapText(after) + ([0x2C] + ElementsText(more))))
  }

  function NameText(name: seq<Character>, named: Gap, colon: Gap): Text {
    Literal(name) + (GapText(named) + ([0x3A] + GapText(colon)))
  }

  function MembersText(ms: Members): Text {
    match ms
    case LastMember(before, name, named, colon, value, after, trailing) =>
      GapText(before)
      + (NameText(name, named, colon) + (Spelling(value) + (GapText(after) + (TrailingText(trailing) + [0x7D]))))
    case Member(before, name, named, colon, value, after, more) =>
      GapText(before)
      + (NameText(name, named, colon) + (Spelling(value) + (GapText(after) + ([0x2C] + MembersText(more)))))
  }

  predicate ValidTrailing(p: Profile, trailing: Option<Gap>) {
    trailing.Some? ==> p.trailingCommas && ValidGap(p, trailing.value)
  }

  predicate Valid(p: Profile, v: Json) {
    match v
    case Number(n) => ValidNumeral(p, n)
    case Letters(cs) => ValidCharacters(p, cs)
    case EmptyArray(inside) => ValidGap(p, inside)
    case EmptyObject(inside) => ValidGap(p, inside)
    case Array(elements) => ValidElements(p, elements)
    case Object(members) => ValidMembers(p, members)
    case _ => true
  }

  predicate ValidElements(p: Profile, es: Elements) {
    && ValidGap(p, es.before) && Valid(p, es.value) && ValidGap(p, es.after)
    && match es
       case LastElement(_, _, _, trailing) => ValidTrailing(p, trailing)
       case Element(_, _, _, more) => ValidElements(p, more)
  }

  predicate ValidMembers(p: Profile, ms: Members) {
    && ValidGap(p, ms.before) && ValidCharacters(p, ms.name) && ValidGap(p, ms.named) && ValidGap(p, ms.colon)
    && Valid(p, ms.value) && ValidGap(p, ms.after)
    && match ms
       case LastMember(_, _, _, _, _, _, trailing) => ValidTrailing(p, trailing)
       case Member(_, _, _, _, _, _, more) => ValidMembers(p, more)
  }

  function CountElements(es: Elements): nat {
    match es
    case LastElement(_, _, _, _) => 1
    case Element(_, _, _, more) => 1 + CountElements(more)
  }

  function CountMembers(ms: Members): nat {
    match ms
    case LastMember(_, _, _, _, _, _, _) => 1
    case Member(_, _, _, _, _, _, more) => 1 + CountMembers(more)
  }

  /** The events a value means. */
  function Says(v: Json): seq<Event> {
    match v
    case NullWord => [Null]
    case FalseWord => [Bool(false)]
    case TrueWord => [Bool(true)]
    case Number(n) => [NumeralEvent(n)]
    case Letters(cs) => [String(CharactersBytes(cs))]
    case EmptyArray(_) => [StartArray, EndArray(0)]
    case Array(elements) => [StartArray] + ElementsSay(elements) + [EndArray(CountElements(elements))]
    case EmptyObject(_) => [StartObject, EndObject(0)]
    case Object(members) => [StartObject] + MembersSay(members) + [EndObject(CountMembers(members))]
  }

  function ElementsSay(es: Elements): seq<Event> {
    match es
    case LastElement(_, value, _, _) => Says(value)
    case Element(_, value, _, more) => Says(value) + ElementsSay(more)
  }

  function MembersSay(ms: Members): seq<Event> {
    match ms
    case LastMember(_, name, _, _, value, _, _) => [Key(CharactersBytes(name))] + Says(value)
    case Member(_, name, _, _, value, _, more) => [Key(CharactersBytes(name))] + Says(value) + MembersSay(more)
  }

  // ----- texts

  /** A value with the whitespace around it; a line comment at the end of the input need not be ended. */
  datatype JsonText = JsonText(before: Gap, value: Json, after: Gap, unended: Option<Text>)

  function UnendedText(unended: Option<Text>): Text {
    if unended.None? then [] else [0x2F, 0x2F] + unended.value
  }

  function TextOf(d: JsonText): Text {
    GapText(d.before) + (Spelling(d.value) + (GapText(d.after) + UnendedText(d.unended)))
  }

  predicate ValidText(p: Profile, d: JsonText) {
    && ValidGap(p, d.before) && Valid(p, d.value) && ValidGap(p, d.after)
    && (d.unended.Some? ==> p.comments && LineBody(d.unended.value))
  }

  /** A JSON text. */
  ghost predicate Rfc8259(text: Text) {
    exists d :: ValidText(RFC, d) && TextOf(d) == text
  }
}
