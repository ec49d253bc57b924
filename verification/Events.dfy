/** The handler interface between the reader, the writers and the document, and the reader's settings. */
module Events {
  import opened Bytes
  import opened Options

  /** SAX events; a double carries the characters of its number. */
  datatype Event =
    | Null
    | Bool(b: bool)
    | Int(i: int)
    | Uint(u: int)
    | Int64(i64: int)
    | Uint64(u64: int)
    | Double(text: Text)
    | String(str: Text)
    | Key(key: Text)
    | StartObject
    | EndObject(memberCount: nat)
    | StartArray
    | EndArray(elementCount: nat)

  /** Parse flags (kParseCommentsFlag, kParseTrailingCommasFlag and so on). */
  datatype Flags = Flags(
    comments: bool,
    trailingCommas: bool,
    stopWhenDone: bool,
    validateEncoding: bool,
    nanAndInf: bool)

  /**
   * Everything a parse depends on. `handler` says, from the history of events ending with the one
   * just sent, whether the handler lets the parse go on. `tooBig` is the conversion of a number's
   * characters to a double, of which only the overflow verdict is used. The code is not `strict`: a
   * strict parse stops at a string that is too long for the reader, which serves to say that a text
   * has none.
   */
  datatype Env = Env(
    src: Text,
    flags: Flags,
    handler: seq<Event> -> bool,
    tooBig: Text -> bool,
    strict: bool)

  /** Outcome of a parsing function: the new position and history, or the history at the error. */
  datatype Outcome = Parsed(pos: nat, events: seq<Event>) | Failed(events: seq<Event>)

  const SIZE_TYPE_LIMIT := 0x1_0000_0000

  /** From this many bytes on the 32-bit length of a string on the reader's stack, its NUL included, wraps. */
  const STRING_LIMIT := 0xFFFF_FFFF

  /** `++count` on a 32-bit SizeType. */
  function Increment(count: nat): nat {
    (count + 1) % SIZE_TYPE_LIMIT
  }
}
