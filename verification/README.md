# Verification of the Livox driver's data engines

This project models, in Dafny 4.11, the parts of the Livox ROS driver and SDK that all configuration
and packet data pass through, and proves what they are for:

- the JSON engine of the SDK's rapidjson copy: the recursive and the table-driven reader, the compact
  and the indenting writer, the document with its handlers, JSON pointers, UTF-8 and the pool allocator;
- the software CRC engine (FastCRC), with its slicing tables and unrolled loops;
- the hand-off of packets from the SDK's threads to the publishing thread, with the ring buffer between them;
- the socket tables of the device manager in configuration mode.

All files verify together (`dafny verify dfyconfig.toml`).

## How the model is laid out

Code that changes things step by step is modelled by classes and loops, each proved equal to a
specification function or stating outright what it promises; the properties are lemmas about those
functions.

| area | specification and theorems | imperative form |
|---|---|---|
| UTF-8 | `Bytes`, `Encodings` | |
| grammar | `Grammar`, `GapTexts`, `LiteralTexts`, `NumberTexts`, `AcceptedTexts` | |
| reader | `Scanner`, `ExponentRange`, `RecursiveReader`, `IterativeReader`, `StringStack`, `StackedReader`, `ReaderEquivalence`, `ReaderTrees`, `IntegerParsing`, `StringValidity`, `Handlers` | `ReaderImpl` |
| document | `Events`, `Document` | `DocumentImpl` |
| writers | `Writer`, `RoundTrip`, `Layout`, `Indentation`, `ShortestLiterals`, `AsciiStrings` | `WriterImpl`, `AsciiStrings` |
| pointers | `Pointer`, `PointerTree` | `PointerImpl`, `PointerTree` |
| pool allocator | `PoolAllocator` | `PoolAllocator` |
| CRC | `FastCrc`, `FastCrcTables` | `FastCrcSw` |
| hand-off | `Handoff` | `PacketQueue` |
| sockets | `DeviceManager` | `DeviceManager` |

Conventions. Bytes are integers from 0 to 255, and an input is followed by NUL characters as a string
stream is. A handler is any predicate on the history of events, so it may stop a parse at any event for
any reason. The conversion of a number's characters to a double is a parameter of which only the overflow
verdict matters. Registers are 32-bit vectors; a 16-bit register is one whose upper half is clear, and
every assignment to a `uint16_t` is written as a truncation. The base allocator and the operating
system's sockets are parameters.

## What the proofs found

- A text is accepted exactly if the grammar of RFC 8259, with the extensions the flags name and any bytes for
  characters unless the encoding is checked, derives it and its numbers are in range, but for a high surrogate
  escaped alone, which the RFC's grammar allows and the reader refuses (`AcceptedTexts.AcceptsExactly`,
  `AcceptedTexts.LoneHighRefused`).
- A lone low surrogate escape such as `\uDC00` is accepted even with the validation flag, and the string
  is then not UTF-8. `StringValidity.AcceptedStringValid` says exactly when an accepted string is valid.
- A literal is reserved 2 + 6n bytes (2 + 12n for an ASCII target) in 32-bit arithmetic, which wraps from
  715827883 (357913942) bytes on; the unchecked puts stay inside what is reserved for every string of a
  length exactly when the sum does not wrap (`AsciiStrings.ReservationSuffices`).
- The cut-off for negative exponents keeps `exp + expFrac` inside int exactly while `expFrac` is at least
  -2147483549. The loop for positive exponents multiplies before it compares and leaves int as soon as
  `expFrac` is below -214748055. Seen from the text: fractions of n digits make no int overflow, whatever
  else the number says, exactly when n is at most 214748055 (`ExponentRange.FractionsWithoutOverflow`).
- A string of 2^32 - 1 bytes or more makes the reader's 32-bit length wrap: what is reported is not what was
  read, and the rest stays on the stack (`StringStack.StringIntact`). The recursive parser goes on; the
  automaton takes the rest for its frames, so the two agree on texts whose parse meets no such string
  (`StackedReader.ParsersAgree`), and `StackedReader.LettersAgree` gives texts on which they do not.
- The handlers leave one value for an accepted text exactly when no container has 2^32 parts or more
  (`ReaderTrees.AcceptedTextBuildsOneValue`); `ReaderTrees.ManyZerosBuildMany` is a text that does.
- Putting then getting through a JSON pointer fails exactly when a "-" token meets an array, and Set loses
  values off its path exactly when it turns an array into an object; `PointerTree.DashNotFound` and
  `PointerTree.ArrayLost` are such cases.
- Printing a plain pointer reproduces its source, and each printed text parses back to the same pointer,
  exactly when no name reaches 2^32 characters, the range of the length field; `Pointer.LongNamePrintsShort`
  is a pointer that does not.
- `mcrf4xx` starts from 0 although its comment documents 0xFFFF (`FastCRCsw.cpp:243-244`); the model
  follows the code, and it then computes what `kermit` computes. The documented check value holds for the
  documented start only (`FastCrcTables.Mcrf4xxDocumented`).
- The wrap check of pointer indices sees only some wraps (`Pointer.IndexIs`, `Pointer.WrappedIndex`).
- The hand-off loses a wake-up exactly when a lidar starts to sample while packets wait in its queue, nobody
  is about to signal and the consumer has passed it or is waiting; `Handoff.LateSwitchHappens` is such a run.
- Without a started detection thread a teardown leaves the detection sockets open; after a successful
  start there always is one, and `DeviceManager.FailedStartLeaks` is a start that fails in between.
- A start tried again without a teardown, which the SDK does not do for what did not start
  (`livox_lidar_sdk.cpp:108-111`), overwrites the detection sockets without closing them, while the command
  channel of the detection key keeps the old socket (`DeviceManager.RetryLoses`).
- The pool allocator takes its sums of sizes as words without a check; the pool stays sound exactly when they
  do not wrap (`PoolAllocator.MemoryPoolAllocator.Malloc`, `PoolAllocator.WrappedSizeGranted`).
- The queues never hold more than their size exactly when no lidar has two writers
  (`Handoff.CapacityNeedsSingleWriters`); two writers can fill any queue one beyond it.
- Each discovery opens another broadcast socket for every configured lidar of three types, so their number
  grows with the square of the discoveries (`DeviceManager.DeviceManager.DiscoverAll`).

## Model

| member | source | states |
|---|---|---|
| `Encodings.DecodeExact` | sdk/livox_sdk/3rdparty/rapidjson/encodings.h:148-211 | Decoding accepts exactly the byte sequences of section 4 of RFC 3629, always takes as many bytes as the lead byte says, and what it accepts is the encoding of the scalar value it reports. |
| `Encodings.DecodeInvertsEncode` | sdk/livox_sdk/3rdparty/rapidjson/encodings.h:108-211 | Wherever the encoding of a scalar value stands, decoding gives that value back and ends right behind it. |
| `Encodings.EncodeInjective` | sdk/livox_sdk/3rdparty/rapidjson/encodings.h:108-125 | Different scalar values have different encodings. |
| `Encodings.GrammarIsEncodings` | sdk/livox_sdk/3rdparty/rapidjson/encodings.h:108-125 | The sequences of the RFC grammar are exactly the encodings of scalar values. |
| `Encodings.ValidateAgrees` | sdk/livox_sdk/3rdparty/rapidjson/encodings.h:148-266 | Validation and decoding give the same verdict and stop at the same place on every input. |
| `Encodings.ValidateCopies` | sdk/livox_sdk/3rdparty/rapidjson/encodings.h:214-266 | A sequence that validates is copied byte for byte and is one sequence of the grammar. |
| `Encodings.EncodeInvertsDecodeAll` | sdk/livox_sdk/3rdparty/rapidjson/encodings.h:108-211 | A whole text that decodes is the encoding of what it decodes to. |
| `Encodings.DecodeInvertsEncodeAll` | sdk/livox_sdk/3rdparty/rapidjson/encodings.h:108-211 | Every sequence of scalar values is read back from its encoding, so decoding whole texts is unambiguous. |
| `Encodings.ValidExactlyEncodings` | sdk/livox_sdk/3rdparty/rapidjson/encodings.h:148-211 | A text is valid exactly when it is the encoding of some sequence of scalar values. |
| `ReaderEquivalence.ValueSimulation` | sdk/livox_sdk/3rdparty/rapidjson/reader.h:1872-1896 | Where a value is due, running the automaton over its stack amounts to parsing the value recursively and running on from behind it, on any stack and in any of the four states that wait for a value. |
| `ReaderEquivalence.CloseSimulation` | sdk/livox_sdk/3rdparty/rapidjson/reader.h:2269-2327 | A closing bracket pops the container's frame, sends its count (commas plus one, or the commas alone behind a trailing comma) and resumes the outer container. |
| `ReaderEquivalence.CommaSimulation` | sdk/livox_sdk/3rdparty/rapidjson/reader.h:2262-2267 | A comma counts one more part in the frame on top of the stack. |
| `ReaderEquivalence.MembersSimulation` | sdk/livox_sdk/3rdparty/rapidjson/reader.h:798-866 | The member loop of the recursive parser and the automaton inside an object agree from any member on, counts included. |
| `ReaderEquivalence.ElementsSimulation` | sdk/livox_sdk/3rdparty/rapidjson/reader.h:869-913 | The same for the elements of an array. |
| `ReaderEquivalence.FramesAgree` | sdk/livox_sdk/3rdparty/rapidjson/reader.h:2401-2433 | With a stack for its frames alone, the automaton equals the recursive parser as a function: same verdict, same events with their counts, same end position, for every text, start position, combination of flags, handler and double conversion. |
| `StringStack.StringIntact` | sdk/livox_sdk/3rdparty/rapidjson/reader.h:990-1046 | The string a reader reports is the bytes it read, and its stack is as before, each if and only if there are fewer than 2^32 - 1 bytes. |
| `StringStack.ReportedIs` | sdk/livox_sdk/3rdparty/rapidjson/reader.h:990-1046 | What is reported of n bytes are the last n mod 2^32, unless that is 2^32 - 1, when the string is looked for behind the stack; what stays on the stack is a multiple of 2^32 bytes. |
| `StringStack.LettersLost` | sdk/livox_sdk/3rdparty/rapidjson/reader.h:990-1046 | 2^32 letters are reported as the empty string, and all of them stay on the stack. |
| `StackedReader.LoopSimulated` | sdk/livox_sdk/3rdparty/rapidjson/reader.h:2401-2433 | The automaton on the one stack of bytes, where 32-bit cells of frames lie among what strings leave, does what the automaton on frames does, from any configuration from which no overlong string is met. |
| `StackedReader.ParsersAgree` | sdk/livox_sdk/3rdparty/rapidjson/reader.h:2401-2433 | The two parsers of the code are equal, as above, on every text of which the parse meets no string of 2^32 - 1 bytes or more. |
| `StackedReader.ScalarRootsAgree` | sdk/livox_sdk/3rdparty/rapidjson/reader.h:2401-2433 | Where the root is no container they agree whatever the length of a string. |
| `StackedReader.ShortLiteralsCounted` | sdk/livox_sdk/3rdparty/rapidjson/reader.h:990-1046 | That is so for a text whose literals, from whichever quote they are read, have fewer bytes. |
| `StackedReader.ShortTextsCounted` | sdk/livox_sdk/3rdparty/rapidjson/reader.h:990-1046 | It is so for every text of less than 4 GiB. |
| `StackedReader.LettersAgree` | sdk/livox_sdk/3rdparty/rapidjson/reader.h:2262-2327 | On an array of one literal of n letters the parsers agree if and only if n is less than 2^32 - 1: of a longer one the automaton takes four letters for the count. (Lengths of 2^32 - 1 beyond a multiple of 2^32, of which nothing is reported that lies on the stack, are left out.) |
| `IterativeReader.TransitKeepsResting` | sdk/livox_sdk/3rdparty/rapidjson/reader.h:2192-2350 | Every transition that does not fail moves the input on and leaves a stack that fits the new state, so the frames popped at a closing bracket are always there. |
| `GapTexts.SkipsToFirst` | sdk/livox_sdk/3rdparty/rapidjson/reader.h:290-301 | Whitespace is skipped up to a position if and only if that is the first whose byte is none of 0x20, 0x09, 0x0A and 0x0D. |
| `GapTexts.TailPassed` | sdk/livox_sdk/3rdparty/rapidjson/reader.h:770-794 | Whitespace and comments as the grammar has them are skipped, a line comment at the end of the input included. |
| `GapTexts.TailTaken` | sdk/livox_sdk/3rdparty/rapidjson/reader.h:770-794 | Whatever is skipped is such whitespace and comments. |
| `LiteralTexts.CharacterReads` | sdk/livox_sdk/3rdparty/rapidjson/reader.h:1072-1128 | Every character of the grammar, plain, escaped by a letter, as a code unit or as a surrogate pair, is read as the bytes it stands for. |
| `LiteralTexts.CharacterTaken` | sdk/livox_sdk/3rdparty/rapidjson/reader.h:1072-1128 | Whatever is read as one is a character of the grammar. |
| `LiteralTexts.LiteralReads` | sdk/livox_sdk/3rdparty/rapidjson/reader.h:1058-1129 | A literal of the grammar is read to its end as the bytes it stands for. |
| `LiteralTexts.LiteralTaken` | sdk/livox_sdk/3rdparty/rapidjson/reader.h:1058-1129 | A literal that is read is one of the grammar. |
| `NumberTexts.NumeralReads` | sdk/livox_sdk/3rdparty/rapidjson/reader.h:1584-1868 | A numeral of the grammar is read to its end as what it says, an integer in the narrowest type of its sign or the double of its characters, if it is in range, and refused if it is not. |
| `NumberTexts.NumeralTaken` | sdk/livox_sdk/3rdparty/rapidjson/reader.h:1584-1868 | A number that is read is a numeral of the grammar, as long as it can be. |
| `AcceptedTexts.ValueReads` | sdk/livox_sdk/3rdparty/rapidjson/reader.h:1872-1896 | A value of the grammar that stands in the text is read to its end, and the events sent are those it says. |
| `AcceptedTexts.ValueTaken` | sdk/livox_sdk/3rdparty/rapidjson/reader.h:1872-1896 | A value that is read is one of the grammar. |
| `AcceptedTexts.AcceptsExactly` | sdk/livox_sdk/3rdparty/rapidjson/reader.h:615-646 | Under every combination of flags but the one that stops at the root: a text, up to a NUL if it holds one, is accepted if and only if the grammar derives it, the numbers being in range; the events are what any of its derivations says, and the parse ends at its end. (For texts of less than 4 GiB whose fractions have at most 214748055 digits.) |
| `AcceptedTexts.AutomatonAcceptsExactly` | sdk/livox_sdk/3rdparty/rapidjson/reader.h:2401-2433 | The same for the table-driven parser. |
| `AcceptedTexts.StopsBehindValue` | sdk/livox_sdk/3rdparty/rapidjson/reader.h:630-646 | With the flag that stops at the root, what is accepted starts with a value of the grammar, and such a value is accepted whatever follows the character behind it. |
| `AcceptedTexts.AcceptedIsJson` | sdk/livox_sdk/3rdparty/rapidjson/reader.h:615-646 | Without extensions and with the encoding checked, whatever is accepted to its end is a JSON text by RFC 8259. |
| `AcceptedTexts.LoneHighRefused` | sdk/livox_sdk/3rdparty/rapidjson/reader.h:1089-1108 | A high surrogate escaped alone is JSON by the grammar of RFC 8259, and refused. |
| `Handlers.ParseHeeds` | sdk/livox_sdk/3rdparty/rapidjson/reader.h:615-646 | With any handler, a parse is the parse with one that accepts everything, cut off at the first event refused. |
| `Handlers.HeededIs` | sdk/livox_sdk/3rdparty/rapidjson/reader.h:615-646 | Cut off means: nothing changes if no event is refused, and else the parse fails with the events up to the first that is. |
| `ReaderImpl.GenericReader.SkipWs` | sdk/livox_sdk/3rdparty/rapidjson/reader.h:290-301 | The whitespace loop stops at the first byte that is none of 0x20, 0x09, 0x0A and 0x0D. |
| `ReaderImpl.GenericReader.SkipWsAndComments` | sdk/livox_sdk/3rdparty/rapidjson/reader.h:770-794 | With the comments flag, block and line comments are skipped as well, and an unfinished comment fails. |
| `ReaderImpl.GenericReader.ParseHex4` | sdk/livox_sdk/3rdparty/rapidjson/reader.h:967-987 | Four hexadecimal digits of either case give the number they spell; the accumulator stays below 2^16. |
| `ReaderImpl.GenericReader.ParseUnicodeEscape` | sdk/livox_sdk/3rdparty/rapidjson/reader.h:1089-1108 | A high surrogate must be followed by an escaped low one and the pair is joined; any other code unit stands for itself. |
| `ReaderImpl.GenericReader.TakeStringUnit` | sdk/livox_sdk/3rdparty/rapidjson/reader.h:1072-1128 | One turn of the string loop: an escape, the closing quote, an error, or a byte or validated sequence copied. |
| `ReaderImpl.GenericReader.ParseStringToStream` | sdk/livox_sdk/3rdparty/rapidjson/reader.h:1058-1129 | The loop puts out exactly the string's bytes and ends behind the closing quote. |
| `ReaderImpl.GenericReader.ParseString` | sdk/livox_sdk/3rdparty/rapidjson/reader.h:1020-1051 | The bytes go onto the stack and as many as their 32-bit length says come off: the event and what stays on the stack are those of the specification. |
| `ReaderImpl.GenericReader.ReadInt32` | sdk/livox_sdk/3rdparty/rapidjson/reader.h:1610-1635 | The 32-bit accumulator never wraps; it leaves the loop before the digit that would make it exceed the range of its sign. |
| `ReaderImpl.GenericReader.ReadInt64` | sdk/livox_sdk/3rdparty/rapidjson/reader.h:1666-1701 | The 64-bit accumulator never wraps, and a double is asked for exactly when the next digit leaves the range. |
| `ReaderImpl.GenericReader.ReadInteger` | sdk/livox_sdk/3rdparty/rapidjson/reader.h:1601-1708 | Over all digits: the accumulators hold the exact magnitude, 64 bits are used exactly when 32 do not hold it, a double exactly when 64 do not. |
| `ReaderImpl.GenericReader.TakeNegativeExponent` | sdk/livox_sdk/3rdparty/rapidjson/reader.h:1770-1788 | The digits of a negative exponent, all taken: what is left of their value is the specification's cut-off value, in a 32-bit int throughout, and its sum with the fraction's adjustment stays inside int from -2147483549 on. |
| `ReaderImpl.GenericReader.TakePositiveExponent` | sdk/livox_sdk/3rdparty/rapidjson/reader.h:1789-1799 | In a 32-bit int: the multiplication leaves int exactly when the specification's run overflows, never for an adjustment of -214748055 or more; otherwise the exponent is exact and refused exactly when it exceeds 308 - expFrac. |
| `ReaderImpl.GenericReader.ReadExponent` | sdk/livox_sdk/3rdparty/rapidjson/reader.h:1754-1801 | Letter, sign, digits and the sum with the adjustment, all in 32-bit ints: an overflow is noticed exactly where the specification has one, and there is none for an adjustment of -214748055 or more. |
| `ExponentRange.NegativeExponentIs` | sdk/livox_sdk/3rdparty/rapidjson/reader.h:1770-1788 | What is left of a negative exponent is the value of its digits up to their end or to the first place behind the first digit where it exceeds the limit. |
| `ExponentRange.NegativeSumFits` | sdk/livox_sdk/3rdparty/rapidjson/reader.h:1770-1788 | The cut-off keeps exp + expFrac inside int for every digit string if and only if expFrac is at least -2147483549. |
| `ExponentRange.NinetyNine` | sdk/livox_sdk/3rdparty/rapidjson/reader.h:1770-1788 | For every smaller expFrac the digits 99 leave 99, and the sum underflows. |
| `ExponentRange.PositiveExact` | sdk/livox_sdk/3rdparty/rapidjson/reader.h:1789-1799 | Unless it overflows, the loop has the exponent exactly and refuses exactly those above 308 - expFrac. |
| `ExponentRange.PositiveNeverOverflows` | sdk/livox_sdk/3rdparty/rapidjson/reader.h:1789-1799 | The multiplication before the comparison never leaves int, whatever the digits, if and only if 308 - expFrac is below 214748364. |
| `ExponentRange.BeyondInt` | sdk/livox_sdk/3rdparty/rapidjson/reader.h:1789-1799 | Beyond that the exponent 2147483648 overflows. |
| `ExponentRange.AdjustmentBound` | sdk/livox_sdk/3rdparty/rapidjson/reader.h:1710-1752 | A fraction of n digits has an expFrac of -n at least, and zeros behind a zero reach it. |
| `ExponentRange.FractionsWithoutOverflow` | sdk/livox_sdk/3rdparty/rapidjson/reader.h:1710-1799 | The condition on the text: numbers with n fraction digits make no int overflow, whatever their integers and exponents, if and only if n is at most 214748055. |
| `ReaderImpl.GenericReader.ParseNumber` | sdk/livox_sdk/3rdparty/rapidjson/reader.h:1584-1868 | The whole number parser sends the integer or double event the specification gives for the text, or fails where it does. |
| `ReaderImpl.GenericReader.ParseObject` | sdk/livox_sdk/3rdparty/rapidjson/reader.h:798-866 | The object parser does what the recursive specification does, with a 32-bit member count. |
| `ReaderImpl.GenericReader.ParseArray` | sdk/livox_sdk/3rdparty/rapidjson/reader.h:869-913 | The array parser does what the recursive specification does, with a 32-bit element count. |
| `ReaderImpl.GenericReader.Parse` | sdk/livox_sdk/3rdparty/rapidjson/reader.h:615-646 | The recursive parser as a whole: verdict, events and position. |
| `ReaderImpl.GenericReader.Transit` | sdk/livox_sdk/3rdparty/rapidjson/reader.h:2192-2350 | One transition of the automaton changes state, byte stack, position and events as its specification says. |
| `ReaderImpl.GenericReader.IterativeParse` | sdk/livox_sdk/3rdparty/rapidjson/reader.h:2401-2433 | The loop of the automaton gives the outcome of its specification on a stack of bytes. |
| `IntegerParsing.IntegersExact` | sdk/livox_sdk/3rdparty/rapidjson/reader.h:1598-1708 | An integer text is read as exactly the number it says whenever int64 (with a minus) or uint64 holds it, and the value built of it has exactly the flags of the ranges that contain it; otherwise it is a double, or an error if that is too big. |
| `StringValidity.AcceptedStringValid` | sdk/livox_sdk/3rdparty/rapidjson/reader.h:1079-1127 | With the validation flag, the bytes of an accepted literal are valid UTF-8 exactly when it escapes no low surrogate without a high one before it. |
| `StringValidity.LoneTrailAccepted` | sdk/livox_sdk/3rdparty/rapidjson/reader.h:1089-1108 | The literal "\uDC00" is accepted under validation, and its three bytes are not UTF-8. |
| `Document.ConstructorsCanonical` | sdk/livox_sdk/3rdparty/rapidjson/document.h:858-899 | Whichever constructor stores an integer, its Int, Uint, Int64 and Uint64 flags hold exactly for the ranges that contain it. |
| `Document.HandlersBuild` | sdk/livox_sdk/3rdparty/rapidjson/document.h:2926-3000 | On any stack, the events of a tree leave the stack as it was with the value they denote on top: no handler pops below the container it closes, and each count matches the values pushed since its start. |
| `Document.AcceptCopies` | sdk/livox_sdk/3rdparty/rapidjson/document.h:2286-2331 | The events Accept sends denote the value itself, number flags included. |
| `Document.DeepCopy` | sdk/livox_sdk/3rdparty/rapidjson/document.h:2286-2331 | Accept into an empty document leaves exactly a copy of the value. |
| `ReaderTrees.ValueDenotes` | sdk/livox_sdk/3rdparty/rapidjson/reader.h:1872-1896 | An accepted value sends the events of some tree with balanced brackets and numbers in range, its counts as 32-bit fields have them. |
| `ReaderTrees.AcceptedTextBuildsOneValue` | sdk/livox_sdk/3rdparty/rapidjson/document.h:2738-2750 | For every accepted text: exactly one value is left on the document's stack, the one the events denote, if and only if every container has fewer than 2^32 parts, as in every text of less than 4 GiB. |
| `ReaderTrees.ManyZerosBuildMany` | sdk/livox_sdk/3rdparty/rapidjson/document.h:2995-3000 | An array of 2^32 zeros is accepted with the count 0, and the handlers leave 2^32 + 1 values. |
| `ReaderTrees.SentRises` | sdk/livox_sdk/3rdparty/rapidjson/document.h:2982-3000 | The events of a tree raise the stack by one value exactly when no count wraps, and by more otherwise. |
| `DocumentImpl.GenericDocument.EndObject` | sdk/livox_sdk/3rdparty/rapidjson/document.h:2982-2988 | Members are taken off the stack two slots each and become the object below, in order. |
| `DocumentImpl.GenericDocument.EndArray` | sdk/livox_sdk/3rdparty/rapidjson/document.h:2995-3000 | Elements are taken off the stack and become the array below, in order. |
| `DocumentImpl.GenericDocument.SendAll` | sdk/livox_sdk/3rdparty/rapidjson/document.h:2926-3000 | The handlers run over a whole event sequence as the stack machine says. |
| `DocumentImpl.GenericDocument.ParseStream` | sdk/livox_sdk/3rdparty/rapidjson/document.h:2738-2750 | When the text is accepted the single value on the stack becomes the root and the stack is empty; otherwise the root is unchanged. It asks nothing of texts below 4 GiB, and of longer ones the single root the code asserts. |
| `DocumentImpl.CopyThroughText` | sdk/livox_sdk/3rdparty/rapidjson/document.h:2286-2331 | A value written by either writer and parsed by either parser, with all the objects involved, comes back as it was, as long as every literal fits its reservation; whether they do is returned. |
| `Writer.WriterPrints` | sdk/livox_sdk/3rdparty/rapidjson/writer.h:255-301 | Driven by a tree's events, a writer in any state that allows a value never breaks one of its assertions, appends exactly the separator and the tree's text, and is back at its level one value further. |
| `Writer.RootPrints` | sdk/livox_sdk/3rdparty/rapidjson/writer.h:560-579 | A fresh writer puts out exactly the text of the tree and counts it as its one root. |
| `WriterImpl.JsonWriter.PutPrefix` | sdk/livox_sdk/3rdparty/rapidjson/prettywriter.h:263-303 | Separator, line break and indentation before a value, for the compact writer and both array formats of the indenting one. |
| `WriterImpl.JsonWriter.WriteIndent` | sdk/livox_sdk/3rdparty/rapidjson/prettywriter.h:305-311 | The indentation character, as many times as there are open levels times the count for one level. |
| `WriterImpl.JsonWriter.End` | sdk/livox_sdk/3rdparty/rapidjson/writer.h:271-301 | A closing bracket pops its level and is preceded by a line break exactly when the container is not empty and not on a single line. |
| `WriterImpl.JsonWriter.Accept` | sdk/livox_sdk/3rdparty/rapidjson/document.h:2286-2331 | Accept with a writer as the handler appends the value's text and breaks none of the assertions on levels and roots; its puts stay inside what is reserved for strings exactly when every literal of the value fits its reservation. |
| `WriterImpl.RoomyLiteralsFit` | sdk/livox_sdk/3rdparty/rapidjson/writer.h:458-461 | Every literal fits in a value whose strings and names have fewer than 715827883 bytes each. |
| `WriterImpl.LongLiteralOverruns` | sdk/livox_sdk/3rdparty/rapidjson/writer.h:458-461 | A string of 715827883 control characters, which a document can hold, does not fit. |
| `ShortestLiterals.QuotedSpells` | sdk/livox_sdk/3rdparty/rapidjson/writer.h:437-520 | What is written for a string is a literal of the grammar that stands for its bytes, with letter escapes where there are any and upper-case digits. |
| `ShortestLiterals.QuotedIsShortest` | sdk/livox_sdk/3rdparty/rapidjson/writer.h:437-520 | No literal of the grammar that stands for the same bytes is shorter. |
| `Indentation.PrettyIsFormatted` | sdk/livox_sdk/3rdparty/rapidjson/prettywriter.h:163-311 | For every tree and indenting style, the indented text is the compact one with a layout read off the brackets alone: a new line behind an opening bracket and a comma and before a closing bracket, none in empty brackets or in arrays kept on a line, a space behind a colon. |
| `Indentation.LinesIndented` | sdk/livox_sdk/3rdparty/rapidjson/prettywriter.h:305-311 | In it every line feed outside strings is followed by exactly n indentation characters for each bracket open around what comes next, n being the count for one level. |
| `Layout.PrettyStripsToCompact` | sdk/livox_sdk/3rdparty/rapidjson/prettywriter.h:163-234 | For every tree, indentation and array format, deleting the whitespace outside strings from the indenting writer's output leaves the compact writer's output. |
| `Layout.QuotedStays` | sdk/livox_sdk/3rdparty/rapidjson/writer.h:437-520 | Nothing inside a written string is taken for layout. |
| `RoundTrip.StringReads` | sdk/livox_sdk/3rdparty/rapidjson/reader.h:1058-1129 | A written literal is read back as the original bytes, with or without validation. |
| `RoundTrip.DecimalReads` | sdk/livox_sdk/3rdparty/rapidjson/reader.h:1601-1708 | A printed integer is read back as the same number. |
| `RoundTrip.ArrayTextReads` | sdk/livox_sdk/3rdparty/rapidjson/reader.h:869-913 | An array whose elements are read, with any whitespace between them, is read with its element count. |
| `RoundTrip.ObjectTextReads` | sdk/livox_sdk/3rdparty/rapidjson/reader.h:798-866 | An object whose names and values are read is read with its member count. |
| `RoundTrip.TreeReads` | sdk/livox_sdk/3rdparty/rapidjson/reader.h:1872-1896 | Wherever the printed text of a tree stands delimited, at any depth, the reader sends the tree's events and stops behind it. |
| `RoundTrip.PrintedTextReadsBack` | sdk/livox_sdk/3rdparty/rapidjson/document.h:2738-2750 | Printing then parsing is the identity: for every value without doubles whose literals fit their reservations, every style and every setting of the flags, both parsers accept the writer's output to its end and the document then holds exactly that value. |
| `RoundTrip.EveryValuePrints` | sdk/livox_sdk/3rdparty/rapidjson/document.h:2286-2331 | Every value of a document is printed by both writers without breaking an assertion on levels or roots. |
| `AsciiStrings.AsciiWrites` | sdk/livox_sdk/3rdparty/rapidjson/writer.h:465-496 | A string can be written for an ASCII target exactly when it is valid UTF-8. |
| `AsciiStrings.AsciiAsUsual` | sdk/livox_sdk/3rdparty/rapidjson/writer.h:458-496 | A string that is ASCII is written as for any other target. |
| `AsciiStrings.AsciiOutput` | sdk/livox_sdk/3rdparty/rapidjson/writer.h:458-496 | The escaped output is ASCII throughout and has at most twelve bytes for each byte. |
| `AsciiStrings.UnicodeOutput` | sdk/livox_sdk/3rdparty/rapidjson/writer.h:458-520 | For a Unicode target there are at most six bytes for each byte. |
| `AsciiStrings.ReservationSuffices` | sdk/livox_sdk/3rdparty/rapidjson/writer.h:458-461 | For every length below 2^32: the 2 + 6n or 2 + 12n bytes reserved in 32-bit arithmetic suffice for every string of that length if and only if the sum does not wrap, for either target. |
| `AsciiStrings.LiteralsOverrun` | sdk/livox_sdk/3rdparty/rapidjson/writer.h:458-461 | The shortest strings that overrun: 715827883 control characters with 4 bytes reserved, 357913942 of them with 10 for an ASCII target. |
| `AsciiStrings.AsciiStringReads` | sdk/livox_sdk/3rdparty/rapidjson/reader.h:1079-1108 | Whatever its settings, the reader recovers the original bytes from escapes and surrogate pairs. |
| `AsciiStrings.WriteString` | sdk/livox_sdk/3rdparty/rapidjson/writer.h:437-520 | The loop puts out the literal, and fails exactly for an ASCII target and bytes that do not decode; its unchecked puts stay inside what is reserved exactly when what is put is no longer than the 32-bit sum, and always when that sum does not wrap. |
| `Pointer.PrintUndoesParse` | sdk/livox_sdk/3rdparty/rapidjson/pointer.h:1013-1179 | For every accepted plain source, printing reproduces it exactly if and only if its names are shorter than the 32-bit length field can say, as they are in any source below 4 GiB. |
| `Pointer.LongNamePrintsShort` | sdk/livox_sdk/3rdparty/rapidjson/pointer.h:1013-1179 | The source of a solidus and 2^32 letters is accepted with a length field of 0 and prints as a lone solidus. |
| `Pointer.ParseUndoesPrint` | sdk/livox_sdk/3rdparty/rapidjson/pointer.h:1013-1179 | Whatever source a pointer came from, each of the two texts it prints parses back to the same names and indices if and only if the 32-bit length fields can say how long its names are. |
| `Pointer.UriPrints` | sdk/livox_sdk/3rdparty/rapidjson/pointer.h:1151-1179 | The URI fragment can be printed exactly when every name is valid UTF-8 as far as its 32-bit length field counts, a sequence cut there included; of names shorter than 2^32 bytes that is all. |
| `Pointer.FragmentRoundTrip` | sdk/livox_sdk/3rdparty/rapidjson/pointer.h:1013-1179 | An accepted fragment prints as a fragment that parses to the same pointer, if and only if its names are shorter than 2^32 bytes. |
| `Pointer.StepReads` | sdk/livox_sdk/3rdparty/rapidjson/pointer.h:1050-1103 | One round of the parsing loop undoes one round of the printing loop: escapes, unreserved characters and percent-encoded sequences. |
| `Pointer.PlainAccepts` | sdk/livox_sdk/3rdparty/rapidjson/pointer.h:1013-1142 | The grammar of section 3 of RFC 6901: a plain text is a pointer if and only if it is empty or starts with a solidus, and each tilde is followed by 0 or 1. |
| `Pointer.IndexIs` | sdk/livox_sdk/3rdparty/rapidjson/pointer.h:1100-1126 | A name is the index it says if and only if it is a decimal numeral without superfluous zeros that 32 bits hold; other names than numerals have the invalid index. |
| `Pointer.WrappedIndex` | sdk/livox_sdk/3rdparty/rapidjson/pointer.h:1112-1124 | The numeral 10000000000 becomes the index 1410065408. |
| `Pointer.NameInFragment` | sdk/livox_sdk/3rdparty/rapidjson/pointer.h:1151-1179 | A name stands in a fragment as it is exactly when all its characters are unreserved by section 2.3 of RFC 3986 and no tilde; others make it longer. |
| `Pointer.PercentSequenceReads` | sdk/livox_sdk/3rdparty/rapidjson/pointer.h:1187-1252 | A percent-encoded UTF-8 sequence is decoded to its bytes, whatever follows it. |
| `PointerImpl.TakeUnit` | sdk/livox_sdk/3rdparty/rapidjson/pointer.h:1050-1103 | One round of the name loop, writing at a cursor: bytes, next position, digit test and the three errors with their offsets. |
| `PointerImpl.TakeName` | sdk/livox_sdk/3rdparty/rapidjson/pointer.h:1043-1107 | The name loop writes the decoded name behind the cursor and stays inside the buffer. |
| `PointerImpl.ToIndex` | sdk/livox_sdk/3rdparty/rapidjson/pointer.h:1109-1126 | The conversion loop with its 32-bit wrap test computes the index of a name, or that it has none. |
| `PointerImpl.TakeToken` | sdk/livox_sdk/3rdparty/rapidjson/pointer.h:1043-1128 | One token: its name with terminator and its record, with every earlier record intact. |
| `PointerImpl.GenericPointer.constructor` | sdk/livox_sdk/3rdparty/rapidjson/pointer.h:1013-1142 | Parsing fills one record for each solidus and a name buffer as long as the source without writing outside either; tokens, error code and offset are those of the specification. |
| `PointerImpl.GenericPointer.Stringify` | sdk/livox_sdk/3rdparty/rapidjson/pointer.h:1151-1179 | The printing loops over the stored records put out the pointer's text or fail where it has none. |
| `PointerTree.PutGet` | sdk/livox_sdk/3rdparty/rapidjson/pointer.h:539-585 | After Set the pointer resolves to the value set, if and only if no "-" token meets an array on its way. |
| `PointerTree.DashNotFound` | sdk/livox_sdk/3rdparty/rapidjson/pointer.h:545-549 | After a Set through "/-" on an array, which appends, Get through "/-" finds nothing. |
| `PointerTree.GetPut` | sdk/livox_sdk/3rdparty/rapidjson/pointer.h:622-649 | Setting what a pointer already resolves to changes nothing. |
| `PointerTree.PutPut` | sdk/livox_sdk/3rdparty/rapidjson/pointer.h:539-585 | Of two Sets through one pointer the second wins, if and only if no "-" token meets an array; else both values are appended. |
| `PointerTree.PutFrame` | sdk/livox_sdk/3rdparty/rapidjson/pointer.h:539-585 | For names shorter than 2^32 bytes: a location that resolved before and lies off the path keeps its value, if and only if no array leading to both is turned into an object; in that case it no longer resolves. |
| `PointerTree.ArrayLost` | sdk/livox_sdk/3rdparty/rapidjson/pointer.h:551-556 | Set through "/a" on an array makes an object of it, and "/0" no longer resolves. |
| `PointerTree.PutExtends` | sdk/livox_sdk/3rdparty/rapidjson/pointer.h:558-565 | An array on the path keeps its other elements; if it was too short it is extended with nulls up to the index and no further. |
| `PointerTree.PutInside` | sdk/livox_sdk/3rdparty/rapidjson/pointer.h:539-585 | On the path itself, Set through a longer pointer is Set inside the value there. |
| `PointerTree.MadeIffNowhere` | sdk/livox_sdk/3rdparty/rapidjson/pointer.h:545-580 | A place has to be appended exactly when the token does not resolve. |
| `PointerTree.Resolve` | sdk/livox_sdk/3rdparty/rapidjson/pointer.h:622-649 | The Get loop returns the value, or the index of the first token that does not resolve. |
| `PointerTree.Create` | sdk/livox_sdk/3rdparty/rapidjson/pointer.h:539-585 | The Create loop makes the place; a write there is the whole of Set, and the flag tells whether Get resolved before. |
| `PointerTree.Set` | sdk/livox_sdk/3rdparty/rapidjson/pointer.h:781-784 | Set leaves the root that the lens laws speak of. |
| `PoolAllocator.BumpSound` | sdk/livox_sdk/3rdparty/rapidjson/allocators.h:208-220 | A block cut off the top of the head chunk is disjoint from every live block and inside its chunk at an offset that is a multiple of 8. |
| `PoolAllocator.GrowSound` | sdk/livox_sdk/3rdparty/rapidjson/allocators.h:236-245 | Growing the last block in place reaches into no other block. |
| `PoolAllocator.LastBlock` | sdk/livox_sdk/3rdparty/rapidjson/allocators.h:234-241 | The address test recognises exactly the block that ends at the top of the head chunk. |
| `PoolAllocator.AddChunkSound` | sdk/livox_sdk/3rdparty/rapidjson/allocators.h:268-281 | A chunk apart from all others keeps every live block housed. |
| `PoolAllocator.MemoryPoolAllocator.Malloc` | sdk/livox_sdk/3rdparty/rapidjson/allocators.h:208-220 | Returns null exactly for size zero or when a chunk was needed and not given; otherwise a new live block at the top of the head chunk, by whose aligned size the total in use grows, as the capacity does by what a new chunk has. The pool stays sound if and only if no sum of sizes wraps at 2^64, for every size a word can hold. |
| `PoolAllocator.WrappedSizeGranted` | sdk/livox_sdk/3rdparty/rapidjson/allocators.h:208-220 | In any pool in use, one size wraps to the empty head chunk: it is granted without room for it. |
| `PoolAllocator.MemoryPoolAllocator.Realloc` | sdk/livox_sdk/3rdparty/rapidjson/allocators.h:223-254 | A null pointer is an allocation; a block is kept when it need not grow, grows in place when it is the last one with room behind it, and moves otherwise, keeping its bytes up to the smaller size as all other blocks keep theirs. The total in use grows by nothing, by the difference, or by the new block. Null comes back exactly for size zero or when a chunk was needed and not given; the pool stays sound, and other blocks keep their bytes, when no sum on the way taken wraps, and soundness only then. |
| `PoolAllocator.MemoryPoolAllocator.Clear` | sdk/livox_sdk/3rdparty/rapidjson/allocators.h:178-186 | Gives back exactly the chunks the allocator got itself; the user's buffer stays as the only chunk, emptied; nothing is in use then. |
| `PoolAllocator.MemoryPoolAllocator.AddChunk` | sdk/livox_sdk/3rdparty/rapidjson/allocators.h:268-281 | A new head chunk in front of the list; the user's buffer stays last, and the pool stays sound exactly when the length with the header does not wrap. |
| `PoolAllocator.MemoryPoolAllocator.Size` | sdk/livox_sdk/3rdparty/rapidjson/allocators.h:201-205 | The sum of the bytes in use over the chunk list. |
| `PoolAllocator.MemoryPoolAllocator.Capacity` | sdk/livox_sdk/3rdparty/rapidjson/allocators.h:191-196 | The sum of the capacities over the chunk list. |
| `FastCrc.ShiftByTable` | sdk/livox_sdk/3rdparty/FastCRC/FastCRCsw.cpp:179-181 | The byte step of the code (register moved down, table entry of the byte that leaves) is eight division steps on the reversed register. |
| `FastCrc.TableRows` | sdk/livox_sdk/3rdparty/FastCRC/FastCRC_tables.h:1006-1263 | The further rows of the slicing tables: each is a zero-byte step, made with the first row, of the row before. |
| `FastCrcTables.RowSays` | sdk/livox_sdk/3rdparty/FastCRC/FastCRC_tables.h:48-1589 | Eight entries of a row, those for single bits, say all 256. |
| `FastCrcTables.Crc7Table` | sdk/livox_sdk/3rdparty/FastCRC/FastCRC_tables.h:48-81 | The entries for single bits of every row of the crc7 table are the literals of the file. |
| `FastCrcTables.SmbusTable` | sdk/livox_sdk/3rdparty/FastCRC/FastCRC_tables.h:83-116 | The entries for single bits of every row of the smbus table are the literals of the file. |
| `FastCrcTables.MaximTable` | sdk/livox_sdk/3rdparty/FastCRC/FastCRC_tables.h:118-151 | The entries for single bits of every row of the maxim table are the literals of the file. |
| `FastCrcTables.CcittTable` | sdk/livox_sdk/3rdparty/FastCRC/FastCRC_tables.h:153-282 | The entries for single bits of every row of the ccitt and xmodem table are the literals of the file. |
| `FastCrcTables.KermitTable` | sdk/livox_sdk/3rdparty/FastCRC/FastCRC_tables.h:546-675 | The entries for single bits of every row of the kermit, mcrf4xx and x25 table are the literals of the file. |
| `FastCrcTables.ModbusTable` | sdk/livox_sdk/3rdparty/FastCRC/FastCRC_tables.h:415-544 | The entries for single bits of every row of the modbus table are the literals of the file. |
| `FastCrcTables.Crc32Table` | sdk/livox_sdk/3rdparty/FastCRC/FastCRC_tables.h:1006-1263 | The entries for single bits of every row of the crc32 table are the literals of the file. |
| `FastCrcTables.CksumTable` | sdk/livox_sdk/3rdparty/FastCRC/FastCRC_tables.h:1332-1589 | The entries for single bits of every row of the cksum table are the literals of the file. |
| `FastCrcTables.Crc7Check` | sdk/livox_sdk/3rdparty/FastCRC/FastCRCsw.cpp:98 | The CRC of "123456789" is the documented check value, 0x75. |
| `FastCrcTables.SmbusCheck` | sdk/livox_sdk/3rdparty/FastCRC/FastCRCsw.cpp:128 | The CRC of "123456789" is the documented check value, 0xF4. |
| `FastCrcTables.MaximCheck` | sdk/livox_sdk/3rdparty/FastCRC/FastCRCsw.cpp:151 | The CRC of "123456789" is the documented check value, 0xA1. |
| `FastCrcTables.CcittCheck` | sdk/livox_sdk/3rdparty/FastCRC/FastCRCsw.cpp:202 | The CRC of "123456789" is the documented check value, 0x29B1. |
| `FastCrcTables.Mcrf4xxCheck` | sdk/livox_sdk/3rdparty/FastCRC/FastCRCsw.cpp:241-246 | From the seed 0 of the code the CRC of "123456789" is 0x2189. |
| `FastCrcTables.Mcrf4xxDocumented` | sdk/livox_sdk/3rdparty/FastCRC/FastCRCsw.cpp:243 | From the documented start 0xFFFF it would be the documented check value, 0x6F91. |
| `FastCrcTables.ModbusCheck` | sdk/livox_sdk/3rdparty/FastCRC/FastCRCsw.cpp:283 | The CRC of "123456789" is the documented check value, 0x4B37. |
| `FastCrcTables.KermitCheck` | sdk/livox_sdk/3rdparty/FastCRC/FastCRCsw.cpp:323 | The CRC of "123456789" is the documented check value, 0x2189. |
| `FastCrcTables.XmodemCheck` | sdk/livox_sdk/3rdparty/FastCRC/FastCRCsw.cpp:365 | The CRC of "123456789" is the documented check value, 0x31C3. |
| `FastCrcTables.X25Check` | sdk/livox_sdk/3rdparty/FastCRC/FastCRCsw.cpp:407 | The CRC of "123456789" is the documented check value, 0x906E. |
| `FastCrcTables.Crc32Check` | sdk/livox_sdk/3rdparty/FastCRC/FastCRCsw.cpp:483 | The CRC of "123456789" is the documented check value, 0xCBF43926. |
| `FastCrcTables.CksumCheck` | sdk/livox_sdk/3rdparty/FastCRC/FastCRCsw.cpp:536 | The CRC of "123456789" is the documented check value, 0x765E7680. |
| `FastCrc.SliceByFour` | sdk/livox_sdk/3rdparty/FastCRC/FastCRCsw.cpp:421-425 | Four table reads, one for each byte of the word, are a four-byte shift of the register. |
| `FastCrc.WordStep` | sdk/livox_sdk/3rdparty/FastCRC/FastCRCsw.cpp:421-425 | The step over one word is four steps over its bytes, lowest first. |
| `FastCrc.FeedDivides` | sdk/livox_sdk/3rdparty/FastCRC/FastCRCsw.cpp:179-181 | A byte step on the stored register is bit-serial division taking in the byte's bits in their order. |
| `FastCrc.FoldDivides` | sdk/livox_sdk/3rdparty/FastCRC/FastCRCsw.cpp:173-204 | Over a whole message and from any seed, the stored register is the dividing register with its bits (reflected CRCs) or bytes (the others) reversed. |
| `FastCrc.FoldAppend` | sdk/livox_sdk/3rdparty/FastCRC/FastCRCsw.cpp:445-480 | Feeding a message in pieces is feeding it at once. |
| `FastCrc.BurstDetected` | sdk/livox_sdk/3rdparty/FastCRC/FastCRCsw.cpp:445-486 | Two messages of one length that differ only inside as many consecutive bits as the CRC is wide have different CRCs, for every polynomial with a constant term. |
| `FastCrc.LibraryDetectsBursts` | sdk/livox_sdk/3rdparty/FastCRC/FastCRCsw.cpp:376-486 | The same for each of the library's CRCs. |
| `FastCrc.DivideKeepsNonzero` | sdk/livox_sdk/3rdparty/FastCRC/FastCRCsw.cpp:173-204 | A division step loses nothing: only the zero register becomes zero. |
| `FastCrc.CrcAffine` | sdk/livox_sdk/3rdparty/FastCRC/FastCRCsw.cpp:445-486 | CRCs of three messages of one length add up under XOR to the CRC of their XOR, whatever the start value and final XOR. |
| `FastCrc.Crc32Residue` | sdk/livox_sdk/3rdparty/FastCRC/FastCRCsw.cpp:445-486 | The little-endian CRC-32 behind a message leaves the register at 0xDEBB20E3, whatever the message and the seed. |
| `FastCrc.X25Residue` | sdk/livox_sdk/3rdparty/FastCRC/FastCRCsw.cpp:376-410 | The little-endian x25 CRC behind a message leaves the register at 0xF0B8. |
| `FastCrcSw.Slice16Feeds` | sdk/livox_sdk/3rdparty/FastCRC/FastCRCsw.cpp:161-165 | The 16-bit word step, which takes the upper two bytes from the data alone, is four byte steps. |
| `FastCrcSw.Slice32Feeds` | sdk/livox_sdk/3rdparty/FastCRC/FastCRCsw.cpp:421-425 | The 32-bit word step with the slicing tables is four byte steps. |
| `FastCrcSw.Small32Feeds` | sdk/livox_sdk/3rdparty/FastCRC/FastCRCsw.cpp:427-431 | So is the word step with the single table. |
| `FastCrcSw.Update32` | sdk/livox_sdk/3rdparty/FastCRC/FastCRCsw.cpp:445-480 | Alignment prologue, sixteen bytes at a time and byte tail leave the register that feeding byte by byte leaves, at any address and length, with either table size. |
| `FastCrcSw.Update16` | sdk/livox_sdk/3rdparty/FastCRC/FastCRCsw.cpp:173-204 | The same for the 16-bit functions. |
| `FastCrcSw.Update8` | sdk/livox_sdk/3rdparty/FastCRC/FastCRCsw.cpp:85-94 | The same for the 7- and 8-bit functions. |
| `FastCrcSw.FastCRC7.Crc7Upd` | sdk/livox_sdk/3rdparty/FastCRC/FastCRCsw.cpp:85-94 | Continues the CRC-7 from any seed: result and new seed are those of bit-serial division. |
| `FastCrcSw.FastCRC8.SmbusUpd` | sdk/livox_sdk/3rdparty/FastCRC/FastCRCsw.cpp:115-124 | Continues the CRC-8 from any seed: result and new seed are those of bit-serial division. |
| `FastCrcSw.FastCRC8.MaximUpd` | sdk/livox_sdk/3rdparty/FastCRC/FastCRCsw.cpp:139-148 | Continues the MAXIM from any seed: result and new seed are those of bit-serial division. |
| `FastCrcSw.FastCRC16.Ccitt` | sdk/livox_sdk/3rdparty/FastCRC/FastCRCsw.cpp:200-205 | The result is the textbook CRC with polynomial 0x1021, start 0xFFFF, bits sent highest first. |
| `FastCrcSw.FastCRC16.Mcrf4xx` | sdk/livox_sdk/3rdparty/FastCRC/FastCRCsw.cpp:241-246 | The result is the textbook CRC with polynomial 0x1021, reflected, from the seed 0 the code sets (its comment documents 0xFFFF). |
| `FastCrcSw.FastCRC16.Modbus` | sdk/livox_sdk/3rdparty/FastCRC/FastCRCsw.cpp:281-286 | The result is the textbook CRC with polynomial 0x8005, start 0xFFFF, reflected. |
| `FastCrcSw.FastCRC16.Kermit` | sdk/livox_sdk/3rdparty/FastCRC/FastCRCsw.cpp:321-327 | The result is the textbook CRC with polynomial 0x1021, start 0, reflected. |
| `FastCrcSw.FastCRC16.Xmodem` | sdk/livox_sdk/3rdparty/FastCRC/FastCRCsw.cpp:363-368 | The result is the textbook CRC with polynomial 0x1021, start 0, bits sent highest first. |
| `FastCrcSw.FastCRC16.X25` | sdk/livox_sdk/3rdparty/FastCRC/FastCRCsw.cpp:405-410 | The result is the textbook CRC with polynomial 0x1021, start 0xFFFF, reflected, complemented. |
| `FastCrcSw.FastCRC16.CcittUpd` | sdk/livox_sdk/3rdparty/FastCRC/FastCRCsw.cpp:173-199 | Continues from any seed; the byte-swapped register comes out in textbook order. |
| `FastCrcSw.FastCRC16.XmodemUpd` | sdk/livox_sdk/3rdparty/FastCRC/FastCRCsw.cpp:335-361 | Continues from any seed; the byte-swapped register comes out in textbook order. |
| `FastCrcSw.FastCRC16.X25Upd` | sdk/livox_sdk/3rdparty/FastCRC/FastCRCsw.cpp:376-403 | Continues from any seed and complements the result. |
| `FastCrcSw.FastCRC32.Crc32Upd` | sdk/livox_sdk/3rdparty/FastCRC/FastCRCsw.cpp:445-480 | Continues from any seed and complements the result. |
| `FastCrcSw.FastCRC32.Crc32` | sdk/livox_sdk/3rdparty/FastCRC/FastCRCsw.cpp:481-486 | The result is the textbook CRC-32 of section 3.2.9 of IEEE 802.3. |
| `FastCrcSw.FastCRC32.CksumUpd` | sdk/livox_sdk/3rdparty/FastCRC/FastCRCsw.cpp:499-532 | Continues from any seed; the byte-swapped register comes out in textbook order, complemented. |
| `FastCrcSw.FastCRC32.Cksum` | sdk/livox_sdk/3rdparty/FastCRC/FastCRCsw.cpp:534-539 | The result is the textbook CRC-32/POSIX without the length. |
| `FastCrcSw.ChunksContinue` | sdk/livox_sdk/3rdparty/FastCRC/FastCRCsw.cpp:445-480 | Updating over two buffers one after the other gives the CRC of both together. |
| `Handoff.StepKeepsGood` | src/livox_ros/src/lds.cpp:170-196 | Every step of every producer and of the consumer keeps: accepted packets are popped or queued, once and in order; the semaphore plus pending signals never exceeds the number of producers. |
| `Handoff.WakeUpKept` | src/livox_ros/src/lddc.cpp:118-184 | No lost wake-up, exactly: before exit, a step keeps every packet of a sampling lidar seen to (count positive, consumer not yet past, or a producer still to signal), unless it switches a lidar with unseen packets to sampling, and such a step never does. |
| `Handoff.RunLosesNone` | src/livox_ros/src/lddc.cpp:118-184 | Along every run and interleaving without such a late switch no wake-up is lost. |
| `Handoff.RunKeepsGood` | src/livox_ros/src/lds.cpp:99-123 | Along every run, whatever the interleaving, packets stay in order and the semaphore bounded. |
| `Handoff.BlockedMeansDrained` | src/livox_ros/src/lddc.cpp:118-138 | When the consumer is blocked and no producer is in mid hand-over, every sampling lidar is drained and all it had accepted was popped. |
| `Handoff.LateSwitchHappens` | src/livox_ros/src/call_back/livox_lidar_callback.cpp:91-93 | A run that ends with a packet queued, the consumer blocked and the lidar about to start sampling. |
| `Handoff.CapacityKept` | src/livox_ros/src/lds.cpp:184-196 | A step from a state in which each lidar has one writer at a time keeps every queue within its size. |
| `Handoff.RunKeepsCapacity` | src/livox_ros/src/lds.cpp:184-196 | Along every run in which each lidar has one writer at a time, no queue ever holds more than its size. |
| `Handoff.CapacityNeedsSingleWriters` | src/livox_ros/src/lds.cpp:184-196 | For every size above 0, the runs that keep to an assignment of producers to lidars never take a queue beyond its size if and only if no lidar has two writers. |
| `Handoff.TwoWritersOverfill` | src/livox_ros/src/lds.cpp:184-196 | Two writers of one lidar can fill its queue one beyond its size, whatever the size. |
| `Handoff.ConsumerReturns` | src/livox_ros/src/lddc.cpp:162-184 | Each step of the awake consumer brings it nearer to waiting again, a push takes it two steps further away, and no other step matters. |
| `Handoff.ConsumerReachesWaiting` | src/livox_ros/src/lddc.cpp:118-184 | Left alone, the awake consumer reaches the semaphore again within its distance. |
| `Handoff.AwakeRunsEnd` | src/livox_ros/src/lddc.cpp:118-184 | In every interleaving without a push a consumer that is awake has fewer steps than its distance and can always take the next one, so it comes back. |
| `Handoff.OneProducerFlag` | src/livox_ros/src/comm/semaphore.cpp:29-39 | With one producer the semaphore never exceeds one. |
| `PacketQueue.MaskIsRemainder` | src/livox_ros/src/comm/ldq.cpp:86-105 | Masking an index with size minus one is the remainder by the size, for every power of two. |
| `PacketQueue.WrapKeepsSlot` | src/livox_ros/src/comm/ldq.cpp:107-109 | Wrapping an index at 32 bits does not change its slot. |
| `PacketQueue.PowerTest` | src/livox_ros/src/comm/ldq.h:35-37 | The test by bits tells exactly the powers of two. |
| `PacketQueue.RoundupPowerOf2` | src/livox_ros/src/comm/ldq.h:39-49 | The least power of two not below the size, or the largest one a word holds. |
| `PacketQueue.LidarDataQueue.Init` | src/livox_ros/src/comm/ldq.cpp:33-61 | An empty queue of the size asked for, rounded up to a power of two. |
| `PacketQueue.LidarDataQueue.PushAny` | src/livox_ros/src/comm/ldq.cpp:136-148 | Appends to the queue's contents, through wrapping indices and the mask. |
| `PacketQueue.LidarDataQueue.Pop` | src/livox_ros/src/comm/ldq.cpp:86-118 | Takes the oldest packet off the contents, or reports that there is none. |
| `PacketQueue.LidarDataQueue.IsFull` | src/livox_ros/src/comm/ldq.cpp:128-130 | Full exactly when the contents fill the storage. |
| `PacketQueue.PushLidarData` | src/livox_ros/src/lds.cpp:170-196 | Undisturbed: appends unless full, sets the queue up before the first packet, and leaves the semaphore positive either way. |
| `PacketQueue.PollLidar` | src/livox_ros/src/lddc.cpp:162-231 | Undisturbed: empties the queue and publishes what it held in order but for packets without points. |
| `DeviceManager.ChannelAccounted` | sdk/livox_sdk/sdk_core/device_manager.cpp:350-413 | Adding a channel keeps every open socket accounted for: one owner for each or lost, data and command sets partitioning the vector, an open socket for every channel, command channels among the channels. |
| `DeviceManager.ChannelAgrees` | sdk/livox_sdk/sdk_core/device_manager.cpp:350-413 | Adding a channel keeps tables in agreement that were: besides, no two keys share a socket, every socket of the vector has a key, and a command channel has the socket of its key; broadcast sockets have no key. |
| `DeviceManager.CommandAgrees` | sdk/livox_sdk/sdk_core/device_manager.cpp:357-363 | Reusing an existing channel for commands keeps its sockets accounted for, and agreement where there was agreement. |
| `DeviceManager.DeviceManager.CreateCmdSocketAndAddDelegate` | sdk/livox_sdk/sdk_core/device_manager.cpp:350-385 | Makes or reuses the channel of a key for commands: success means that the command channel is there, no other channel is made, and a new one has a command socket; the open sockets are always accounted for. |
| `DeviceManager.DeviceManager.CreateDataSocketAndAddDelegate` | sdk/livox_sdk/sdk_core/device_manager.cpp:387-413 | The same for data, with a data socket. |
| `DeviceManager.DeviceManager.CreateDataChannel` | sdk/livox_sdk/sdk_core/device_manager.cpp:288-304 | On success the channels for points, IMU and debug points (port 44332) are there, with data sockets if new; others are never made. |
| `DeviceManager.DeviceManager.CreateCommandChannel` | sdk/livox_sdk/sdk_core/device_manager.cpp:306-348 | On success the command channels for commands (of a master SDK), pushed messages, faults (port 42867, of a PA) and the log (if enabled) are there, with command sockets if new; others are never made, and tables that agree still do, as they do after a failure. |
| `DeviceManager.DeviceManager.CreateChannels` | sdk/livox_sdk/sdk_core/device_manager.cpp:246-257 | Over all configurations: on success exactly the data and command channels due to them have been added. |
| `DeviceManager.DeviceManager.CreateDetectionChannel` | sdk/livox_sdk/sdk_core/device_manager.cpp:261-286 | The two detection sockets, or a failure, in both cases with every socket accounted for; sockets of an earlier start are overwritten and lost, exactly those whose turn came, and the command channel of an earlier start keeps its socket. |
| `DeviceManager.DeviceManager.Init` | sdk/livox_sdk/sdk_core/device_manager.cpp:116-180 | From any state without a detection thread: a successful start leaves both detection sockets open and the thread started, with exactly the channels due; of several configurations of one lidar or type the last counts; what is lost is exactly the detection sockets overwritten; started from emptied tables, the tables agree. |
| `DeviceManager.DeviceManager.Discover` | sdk/livox_sdk/sdk_core/device_manager.cpp:541-567 | A discovery, successful or not, only ever adds channels due and closes nothing; known lidars and unknown types change nothing; a successful one opens a broadcast socket for every configured lidar whose type has one. |
| `DeviceManager.DeviceManager.DiscoverAll` | sdk/livox_sdk/sdk_core/device_manager.cpp:541-567 | n discovered lidars of such a type open n * b + n * (n + 1) / 2 broadcast sockets, b being the number configured before. |
| `DeviceManager.DeviceManager.CommandSocket` | sdk/livox_sdk/sdk_core/device_manager.cpp:783-817 | A socket is found exactly when the lidar is configured and its port has a command channel, and it is that channel's. |
| `DeviceManager.DeviceManager.SendingSocket` | sdk/livox_sdk/sdk_core/device_manager.cpp:772-804 | A command goes through the command channel of the lidar if it has one, and through the detection socket exactly if not; always through an open one. |
| `DeviceManager.DeviceManager.Destory` | sdk/livox_sdk/sdk_core/device_manager.cpp:819-912 | Closes every owned socket once, the detection sockets only if the detection thread had been started; then nothing but what was lost stays open, and otherwise the detection sockets too. |
| `DeviceManager.FailedStartLeaks` | sdk/livox_sdk/sdk_core/device_manager.cpp:116-180 | A start whose first data socket is refused fails with both detection sockets open, and the teardown leaves them open. |
| `DeviceManager.StartedCommands` | sdk/livox_sdk/sdk_core/device_manager.cpp:772-795 | After a start of a master SDK each configured lidar is commanded through the channel of its own host and command port, with a command or data socket that is not the detection socket, unless the port is that of detection. |
| `DeviceManager.RetryLoses` | sdk/livox_sdk/sdk_core/device_manager.cpp:116-286 | A start tried again after such a failure, whatever its configuration, loses both detection sockets of the first try, and a command channel still sends through one of them. |
| `DeviceManager.DeviceManager.Restart` | sdk/livox_sdk/sdk_core/device_manager.cpp:116-180 | A running manager torn down can be started again, with agreeing tables and nothing lost. |
| `DeviceManager.DestoryTwice` | sdk/livox_sdk/sdk_core/device_manager.cpp:819-912 | Torn down twice, a started manager has closed each of its sockets exactly once. |

## Left out

- Doubles: their parsing, printing and range tests; only the choice of a double over an integer is modelled, and the round trip is for values without doubles.
- Error codes and offsets of rejected JSON, on which the two parsers differ legitimately.
- SIMD scanning, in-situ parsing, numbers as strings, raw values, `IterativeParseNext`, other encodings than UTF-8.
- Packing of values into 16 bytes, short strings, capacities of member and element arrays, and the allocator traffic of the document.
- RoundTrip.PrintedTextReadsBack: integer printing is canonical decimal, as the digit tables of `internal/itoa.h` are not part of this model.
- WriterImpl.JsonWriter.PutPrefix: the two writer classes are one class with a style, since they differ only in layout.
- DocumentImpl.GenericDocument.ParseStream: the handlers are called after the parse instead of in between, and only for an accepted text, since a rejected one clears the stack.
- StackedReader.ParsersAgree: on texts with overlong strings inside containers the parsers can still agree by chance, when the bytes left behind look like the frame; of these only the family of `LettersAgree` is decided.
- ReaderImpl.GenericReader.ParseNumber: what the code does behind an int overflow is undefined, and so is a string looked for behind the stack and a popped state that is none; the model stops there, and `overflow` records the first two.
- WriterImpl.JsonWriter.Accept: the output takes every byte, also those beyond a reservation; `within` records whether there were any.
- PointerTree.Create: trees are values and the loop keeps the root and the path to the place, so updating in place and pointers into the tree are not captured; nor is `Erase`.
- PointerTree.PutFrame: for names the 32-bit length field can hold; longer ones that are no indices may count as the same member as one that is.
- PointerImpl.GenericPointer.Stringify: a name is cut to its length field before it is validated, while the code's validation reads on behind it; the two differ only for names of 2^32 bytes and more.
- AcceptedTexts.AcceptsExactly: texts of 4 GiB and more, whose strings and counts wrap, and fractions behind which an int can overflow; what the reader does with these is said by `StringStack`, `ReaderTrees` and `ExponentRange`.
- NumberTexts.NumeralReads: whether a double overflows is a parameter, and the fraction's share in the limit for exponents is counted as the code counts it.
- PoolAllocator.MemoryPoolAllocator.Realloc: once a sum of sizes has wrapped the pool is unsound, and nothing is claimed of later calls.
- FastCrcTables.RowSays: of each table the literals for single bits are compared; that the file's other entries are their sums is not.
- FastCrcSw.Update32: table reads are by value; the reads of `unsigned long` through a table of 32-bit entries are not modelled.
- The hardware CRC (`FastCRChw.cpp`).
- Handoff.WakeUpKept: transfer format 2 is excluded, since its publisher returns without popping; after exit is requested nothing is claimed.
- PacketQueue.PushLidarData: one thread at a time; interleavings are the subject of `Handoff`, where a push and a pop are single steps.
- Shutdown of the poll threads, message contents, the cache of indices and frames with several lidars.
- DeviceManager.DeviceManager.Init: a start while the detection thread runs is excluded, as the SDK refuses it.
- Of the device manager, threads, event loops, logging and command handlers are left out, and a key is a pair of host and port instead of their text.
- View mode of the device manager, upgrade and configuration commands, configuration files, launch files and samples.
