# sml-reader core in Dafny

This project models the decoding core of `sml-reader`. It is a reader for
the Smart Message Language (SML) that electricity meters send over an
optical serial interface. The core has four stages:

1. **Framing.** The receive loop `read_serial_data` buffers bytes one read at
   a time. It waits for the start sequence `1B 1B 1B 1B 01 01 01 01` and
   captures the message body up to the next escape sequence `1B 1B 1B 1B`.
   Then it collects a four-byte footer that begins with `1A`
   (module `Framing`).
2. **Decoding.** `parse_sml_bytestream` cuts the fill bytes that the footer
   announces. It then reads type-length (TL) fields, one per iteration, and
   builds the message tree: lists, octet strings, signed and unsigned
   integers, booleans and end-of-message markers.
   - `get_field_length` reads a field's length, including the two-byte
     extended TL form (module `TypeLength`).
   - Big-endian integer payloads are in module `BigEndian`.
   - The tree under construction is held through a cursor
     (modules `Tree` and `Decoder`).
3. **Tree queries.** `SML_Structure` classifies each list as "File",
   "Message", "MessageBody", a body type such as "GetList.Response", or
   "Unknown". It finds the first list response in document order, and it
   finds the list that holds a given OBIS identifier (module `Queries`).
4. **Extraction.** `extract_obis_response_data` walks the value list of a
   list response. It produces one row per entry of the OBIS registry: a
   description, an internal name, the unit looked up from its unit code, and
   the value, scaled, decoded or hex-formatted (modules `Extract`, `Obis`,
   `ObisUnits`, `Hex`).

## How the model is built

- **The tree.** It is an immutable `Node` datatype. `SML_Structure` objects
  hold a mutable parent pointer. The model replaces the node those pointers
  reach with a zipper, `Cursor(rootChildren, open)`, where `open` is the path
  of lists still being filled.
  - `returnSelfOrParent` becomes `Tree.Ascend`.
  - `GetRoot` rebuilds the tree from the zipper.
  - Classification needs a node's ancestors. `Queries` therefore works on
    root paths (`seq<Node>`) instead of parent pointers.
- **The decode loop.** `Decoder.Run` runs one `DecodeStep` per loop
  iteration. Its outcome is one of four:
  - `Complete`: the body is used up.
  - `Partial`: an `IndexError` was caught, and the tree is kept as it was.
  - `Failed`: an exception escaped.
  - `Diverges`: an iteration changed nothing, so the Python loop would spin
    forever.

  At the root, with the counter empty, a zero-length signed integer `50` or
  the extended octet string `80 00` causes `Diverges`.
- **The nesting counter.** The code keeps a counter `LISTS` that it documents
  as "only relevant for debug output". The model includes it, because
  popping its last entry raises `IndexError` and so ends decoding early.
  `Scenarios.CounterStopsEarly` shows this on `71 62 01 62 02`: the second
  integer is never read.
- **The encoder.** `Encoder` is the model's own inverse of the decoder. It
  is not part of the source. It states the round trip for every tree whose
  list arities match their children and whose encoding keeps the nesting
  counter from running dry.
- **Python exceptions in extraction.** `Extract` models each one as an
  `ExtractError`:
  - an end-of-message node or an integer where a list is expected gives
    `AttributeError`;
  - a short list gives `IndexError`;
  - `10 ** bytes`, or `bytes * float` after a negative scaler, gives
    `TypeError`.

  Scaled numbers are exact: the pair `Number(m, e)` stands for `m * 10^e`.
- **UTF-8 decoding.** It is a function parameter, `utf8`, that returns
  `None` when the bytes are not valid UTF-8.

### Behaviour worth noting

- **An arity overflow stops the reader.** An overflow, or an unknown type
  such as bits `0x10`, `0x20` or `0x30`, raises an exception that
  `parse_sml_bytestream` does not catch. It escapes `read_serial_data` and
  ends the reader, so no later message is read (`Decoder.Failed`).
- **A truncated body keeps its partial tree.** An `IndexError` is caught,
  and the partially built tree becomes the current tree. The tree of the
  previous message is not kept (`Decoder.Partial`).
- **Arity is checked only after a leaf.** The arity check runs only after a
  leaf or an end-of-message is appended. `AddStructure` does not check. A
  list opened with length 0 is never closed by the ascent.
- **Extended lengths lose one.** `get_field_length` subtracts one for the
  second TL byte of every extended field. This includes list lengths: an
  extended list TL pair announces one child fewer than its nibbles say.
- **Extended octet strings.** The extended form `80 00` gives length -1, and
  the decoder then stays at the same position.
- **END_SEQ is unused.** The constant for the end sequence
  `1B 1B 1B 1B 1A` is never used. A footer is recognised only by its leading
  `1A` after the escape sequence that ends the body.

## Model

| member | source | states |
|---|---|---|
| TypeLength.GetFieldLength | sml/__init__.py:221-233 | It fails (an `IndexError`) exactly when an extended TL byte is the last byte of the message. Otherwise it returns the position of the last TL byte, one after `pos` for the extended form. The length lies in -1..254, and the length counted from that last byte reaches the end of the field. |
| TypeLength.TLRoundTrip | sml/__init__.py:221-233 | Every type and every length in -1..254 that is written as a one- or two-byte TL field reads back as the same type and length. The reader ends on the last TL byte. |
| TypeLength.ExtendedExample | sml/__init__.py:226-233 | The extended TL pair `82 34` gives length 0x24 - 1 = 35, one less for the extra TL byte, and it ends on the second byte. |
| BigEndian.Unsigned | sml/__init__.py:288-289 | An unsigned big-endian payload of k bytes denotes a value below 256^k. |
| BigEndian.Signed | sml/__init__.py:280-281 | A signed big-endian payload lies in the two's-complement range of its width. It is negative exactly when its first byte has the top bit set. An empty payload is 0. |
| BigEndian.UnsignedRoundTrip | sml/__init__.py:288-289 | Every value below 256^k, written in k bytes, reads back as itself. |
| BigEndian.SignedRoundTrip | sml/__init__.py:280-281 | Every value that fits k bytes in two's complement reads back as itself. |
| Tree.Ascend | sml/__init__.py:121-126 | At the root the climb does nothing. When it succeeds, it never deepens the cursor. |
| Tree.AscendStops | sml/__init__.py:121-126 | The climb passes only lists that are exactly full, and it stops at a list with room left, or at the root. Lists nearer the root than its stopping point are untouched. A cursor on a list with room stays where it is. |
| Tree.AscendFails | sml/__init__.py:121-126 | The climb raises an overflow exactly when some list on the climbed stretch holds more children than its declared length. |
| Tree.AscendKeepsTree | sml/__init__.py:121-126 | Climbing moves only the cursor. The tree seen from the root is unchanged. |
| Tree.AddStructure | sml/__init__.py:128-131 | The new empty list of the given length becomes the cursor. All lists above it stay open, and the lists already at the root are kept. |
| Tree.AddStructureAppends | sml/__init__.py:128-131 | Seen from the root, the new list is the last child of the list that was open, and the cursor is on it. |
| Tree.AddLeaf | sml/__init__.py:121-147 | A leaf added at the root is appended, and no error can occur. A leaf added to a list that already holds its declared number of children raises the overflow exception. A leaf that leaves room in its list keeps the cursor on that list. No addition opens a list. |
| Tree.AddLeafAppends | sml/__init__.py:133-147 | Seen from the root, a leaf added without error is the last child of the list that was open when it was added. |
| Tree.GetRoot | sml/__init__.py:149-152 | The root is a list with no declared length. |
| Tree.CursorOnRightmostPath | sml/__init__.py:149-152 | The list under the cursor is reached from the root by following last children, as many steps as the cursor is deep. |
| Tree.AddLeafKeepsWf | sml/__init__.py:121-147 | After a successful leaf insertion, two things hold. Every finished list holds exactly its declared number of children, all the way down. Every open list holds fewer than that, or nothing yet. |
| Tree.AddStructureKeepsWf | sml/__init__.py:128-131 | Opening a list preserves that invariant. |
| Tree.AscendKeepsWf | sml/__init__.py:121-126 | A successful climb after an insertion restores that invariant. |
| Decoder.StripFill | sml/__init__.py:239-243 | The body loses exactly its last `footer[1]` bytes. It becomes empty when the body has no more bytes than that, and what remains is a prefix of the body. |
| Decoder.Decrement | sml/__init__.py:255 | The innermost counter entry goes down by one and every other entry stays. The measure never grows, and it shrinks while that entry is still positive. |
| Decoder.CountDown | sml/__init__.py:252-255 | The counter raises `IndexError` exactly when its only entry has run out. A live innermost entry is decremented in place. A spent innermost entry is dropped and the one below it is decremented. An empty counter stays empty, and the measure decreases otherwise. |
| Decoder.LeafNode | sml/__init__.py:271-292 | A leaf field becomes a leaf node of the matching kind, and it keeps the field's length. Type 0 gives an octet string holding the payload. Type 5 gives a signed integer holding the payload read as signed big-endian. Type 6 gives an unsigned integer holding the payload read as unsigned big-endian. |
| Decoder.DecodeStep | sml/__init__.py:247-304 | An iteration never moves the position back. It stays at the same position only on a leaf TL byte whose field spans zero bytes. |
| Decoder.IndexErrorCases | sml/__init__.py:252-306 | An iteration raises `IndexError` exactly when the counter runs dry, a two-byte TL field is cut off, or a boolean has no value byte. |
| Decoder.RaisedCases | sml/__init__.py:121-126 | An uncaught exception comes from type bits 1, 2 or 3, or from the arity check, and from nothing else. |
| Decoder.EndOfMessageStep | sml/__init__.py:257-262 | A `00` byte appends an end-of-message marker, resets the counter to empty and advances by one byte. |
| Decoder.ListStep | sml/__init__.py:263-269 | A list TL field opens a list of the decoded length, pushes that length on the counter, and moves past the TL bytes. |
| Decoder.PayloadBytes | sml/__init__.py:271-292 | A leaf's payload is the bytes after its TL bytes up to the end of the field, cut short at the end of the body. |
| Decoder.LeafStep | sml/__init__.py:270-292 | An octet-string or integer field appends its leaf and moves past the whole field, unless the arity check raises. |
| Decoder.BoolStep | sml/__init__.py:293-302 | A boolean reads one value byte after its TL bytes and adds nothing to the tree. |
| Decoder.FieldAdvances | sml/__init__.py:247-304 | No field moves the position backwards. |
| Decoder.StepProgress | sml/__init__.py:247-304 | Every iteration that does not loop forever makes progress in the order used for termination. |
| Decoder.StuckRepeats | sml/__init__.py:247-304 | An iteration that leaves the position unchanged, at the root and with an empty counter, repeats forever. |
| Decoder.StepKeepsWf | sml/__init__.py:247-304 | Every iteration keeps the tree invariant. Finished lists hold exactly their declared number of children, and open lists hold fewer, or nothing yet. |
| Decoder.RunKeepsWf | sml/__init__.py:245-308 | The loop runs until the body is used up or an exception ends it. When it starts from a tree with that invariant and ends, completely or after a caught `IndexError`, the tree it keeps has the invariant too. |
| Decoder.Decode | sml/__init__.py:236-308 | A decoded body keeps its tree only with that invariant. When the footer announces at least as many fill bytes as the body holds, the body is cut to nothing and the result is the empty root. |
| Decoder.DispatchLeaf | sml/__init__.py:270-292 | A non-zero byte with leaf type bits is read as a leaf. |
| Decoder.DispatchList | sml/__init__.py:263-269 | A non-zero byte with list type bits is read as a list. |
| Encoder.RoundTrip | sml/__init__.py:236-308 | Any sequence of well-formed nodes, encoded and decoded from a fresh root, decodes completely to the same nodes under the root. |
| Encoder.DecodeRoundTrip | sml/__init__.py:236-308 | The same holds for a body followed by any fill bytes that the footer announces. |
| Encoder.RunFields | sml/__init__.py:247-304 | Decoding the encoding of a field sequence gives what inserting those fields one by one into the tree gives. |
| Encoder.FirstField | sml/__init__.py:247-304 | One iteration consumes exactly the encoding of the first field and leaves the rest to decode. |
| Encoder.ApplyNode | sml/__init__.py:121-147 | Inserting a node's fields one by one appends the whole node to the open list, then climbs. |
| Encoder.ApplyAtRoot | sml/__init__.py:128-152 | At the root, inserting the fields of well-formed nodes appends exactly those nodes and leaves no list open. |
| Queries.Classify | sml/__init__.py:204-214 | A list is classed "File" exactly when it is the root. It is classed "MessageBody" only when it has two children, an unsigned integer tag followed by a list. A named body class always carries a tag from the body-type table. |
| Queries.TypeStringNames | sml/__init__.py:204-214 | The printed class is "MessageBody" exactly for the message-body class, and "GetList.Response" exactly for the body class of tag 0x0701. |
| Queries.BodyNamesDistinct | sml/__init__.py:85-107 | No body-type name is one of the generic classes, and only tag 0x0701 is named "GetList.Response". |
| Queries.GetListResponseClass | sml/__init__.py:204-214 | `GetStructureTypeString` prints "GetList.Response" exactly for a list response. A list is a list response exactly when all of these hold: it is below the root; it neither ends a message nor has the body shape; its parent is a "MessageBody"; and its parent's tag is 0x0701. |
| Queries.ResponseIsSecondChild | sml/__init__.py:177-181 | A list response is always the second child of its parent. |
| Queries.FindResponse | sml/__init__.py:183-191 | A hit is a path below the starting list, and it ends in a "MessageBody". |
| Queries.Preorder | sml/__init__.py:183-191 | The document-order enumeration lists only real paths that lie strictly below the starting list. |
| Queries.FirstResponse | sml/__init__.py:183-191 | It returns a listed path classed "GetList.Response", or nothing when none is. |
| Queries.FindIsFirst | sml/__init__.py:183-191 | The recursive search returns the parent of the first list response in document order, and nothing exactly when there is none. |
| Queries.GetListResponse | sml/__init__.py:177-181 | The result is the first list response in document order below the starting list, or nothing when there is none. |
| Queries.ObisFind | sml/__init__.py:194-202 | A hit is a list that holds an octet string equal to the code. |
| Queries.FirstHolder | sml/__init__.py:194-202 | It finds something exactly when some octet string equals the code, and what it finds holds such an octet string. |
| Queries.ObisFindIsFirst | sml/__init__.py:194-202 | The search returns the holder of the first octet string equal to the code in document order. |
| Obis.BytesToString | obis/__init__.py:188-192 | The result is empty exactly when no registry entry has the identifier, and otherwise it is the description of a matching entry. |
| Obis.BytesToStringRegistered | obis/__init__.py:188-192 | Every registered identifier maps to its own entry's description. |
| Obis.RegistryPatterns | obis/__init__.py:94-185 | The registry has 15 entries, each identifier is 6 bytes long, and no identifier repeats. |
| Obis.RegistryEntries | obis/__init__.py:94-185 | The keys are distinct, every type is one of string, counter, gauge or binary, and every description is non-empty. |
| Obis.RegistryOrder | obis/__init__.py:94-185 | Iteration starts with manufacturer, serial and server id, in the dictionary's insertion order. |
| ObisUnits.GetUnitFromCode | obis/__init__.py:195-198 | A unit symbol is returned exactly for the codes in the unit table. |
| ObisUnits.UnitExamples | obis/__init__.py:24-92 | Code 27 is "W", 30 is "Wh" and 255 is "count". Codes 0, 58, 59 and 66-69 have no symbol. |
| Hex.Hexlify | utils/__init__.py:2-5 | Empty input gives "". Otherwise the text is 3n-1 characters long. |
| Hex.HexlifyAlphabet | utils/__init__.py:2-5 | The text holds only lower-case hex digits and spaces. |
| Hex.HexlifyTokens | utils/__init__.py:2-5 | Byte i appears as its two hex digits at offset 3i, followed by a space unless it is the last byte. |
| Hex.HexlifyRoundTrip | utils/__init__.py:2-5 | Parsing the formatted text gives back the bytes. |
| Hex.HexlifyInjective | utils/__init__.py:2-5 | Different byte strings format differently. |
| Extract.ChildrenOf | sml/__init__.py:352-355 | Reading `.children` succeeds exactly on lists, and otherwise raises `AttributeError`. |
| Extract.ChildAt | sml/__init__.py:352-367 | Indexing a child succeeds exactly on a list that long, and it returns that child. |
| Extract.DataOf | sml/__init__.py:356-369 | Reading `.data` succeeds exactly on octet strings and integers. |
| Extract.Repeat | sml/__init__.py:365-366 | Repeating bytes n times gives n copies laid end to end. |
| Extract.Scale | sml/__init__.py:365-366 | An integer value with scaler e is the exact number value·10^e. Bytes with a negative scaler raise `TypeError`. Bytes with a scaler e ≥ 0 give exactly those bytes repeated 10^e times. |
| Extract.UnitOf | sml/__init__.py:367 | An integer unit code maps to its table symbol. Bytes give no unit. |
| Extract.ReadRow | sml/__init__.py:358-369 | Only gauges and counters carry a unit, and strings and binaries give text. The reading of each kind is stated in terms of the row's children. A gauge or counter gives child 5 scaled by child 4, in the unit that child 3 names. Child 4 being bytes, or negative with bytes in child 5, raises `TypeError`. A binary gives child 5 in hex. A string gives child 5 decoded as UTF-8, or "" when decoding fails. For a string or a binary, an integer in child 5 raises `AttributeError`. A missing or non-leaf child raises the error that accessing it raises. |
| Extract.ReadNumber | sml/__init__.py:365-367 | Child 4 is read first, then child 5, then child 3, and the first failing access decides the error. Bytes in child 4 raise `TypeError`, and so does a negative child 4 with bytes in child 5. Otherwise the value is child 5 scaled by 10^child 4: an exact number, or repeated bytes. The unit is looked up from child 3. |
| Extract.ReadString | sml/__init__.py:358-363 | Bytes in child 5 give their UTF-8 text, or "" when they are not valid UTF-8. An integer there raises `AttributeError`, and a failed access raises its error. |
| Extract.ReadBinary | sml/__init__.py:368-369 | Bytes in child 5 give their hex text. An integer there raises `AttributeError`, and a failed access raises its error. |
| Extract.ValueEntryReads | sml/__init__.py:355-369 | A value-list entry of the usual shape holds a name, a unit code, a scaler and a value. Such an entry matches a pattern exactly when its name equals it. An integer value reads as value·10^scaler in the unit of the code for a gauge or counter, and raises `AttributeError` for a string or binary. Bytes read as their hex text for a binary, and as their UTF-8 text or "" for a string. |
| Extract.Scan | sml/__init__.py:355-369 | When no row of the value list matches the pattern, the scan returns the reading it started with. |
| Extract.RowMatches | sml/__init__.py:355-357 | A row matches exactly when it is a list whose first child is an octet string equal to the identifier. |
| Extract.LastMatch | sml/__init__.py:355-357 | It gives the last row in the range that matches the identifier, or nothing when no row matches. |
| Extract.ScanLastWins | sml/__init__.py:351-369 | The scan over the value list fails exactly when some row raises. Otherwise the reading is the last matching row's, or nothing when no row matches. |
| Extract.ExtractEntry | sml/__init__.py:370-376 | A row copies the registry entry's key, description, internal name and type. |
| Extract.EntryFromLastMatch | sml/__init__.py:349-377 | A successful row has a value list at child 4. Its value and unit are those of the last matching row, or absent when no row matches. Non-numeric types have no unit. |
| Extract.ExtractFrom | sml/__init__.py:351-377 | The extraction succeeds exactly when no entry raises. Then there is one row per entry, and row k is the extraction for entry k. When the first entry raises, the whole extraction raises. |
| Extract.ExtractObisResponseData | sml/__init__.py:349-377 | The result succeeds exactly when no registry entry raises, so a response without a value list at child 4 raises. A successful result has one row per registry entry, in registry order. Row k carries entry k's key, description, name and type, and the unit and value that `ExtractEntry` reads for entry k from the value list. |
| Framing.Step | sml/__init__.py:318-346 | A frame is emitted only while a body is held, and it carries that body. A body is captured only when the buffer ends with the escape sequence. |
| Framing.InitInv | sml/__init__.py:315-317 | The initial state satisfies the receive invariant. |
| Framing.StepKeepsInv | sml/__init__.py:318-346 | Each read keeps the invariant. The two flags are never both set. Before a start, the buffer holds no start sequence. While a body is being captured, the buffer holds no escape sequence. While a body is held, the buffer is never an emitted footer, and the held body followed by the escape sequence contains the escape only at its end. |
| Framing.FlagsExclusive | sml/__init__.py:323-337 | A start and a held body never coexist. |
| Framing.StartResets | sml/__init__.py:323-330 | A start sequence anywhere in the buffer, before a start, clears the buffer and begins a body. |
| Framing.BodyEscapeOnlyAtEnd | sml/__init__.py:331-337 | A captured body followed by the escape sequence contains the escape sequence only at its end. |
| Framing.FooterEmitted | sml/__init__.py:338-346 | A frame is emitted exactly when a body is held, the buffer has reached four bytes beginning with 1A, and no start sequence intervenes. The footer is those four bytes, and the receiver returns to waiting. |
| Framing.EmptyReadIsIdle | sml/__init__.py:319-322 | A read that times out with no byte changes nothing. |
| Framing.Feed | sml/__init__.py:318-346 | Reading a stream one byte at a time emits at most one frame per byte. |
| Framing.FeedKeepsInv | sml/__init__.py:318-346 | The invariant holds after any byte stream. |
| Framing.FeedConcat | sml/__init__.py:318-346 | Feeding two streams one after the other is feeding their concatenation. |
| Framing.Transmission | sml/__init__.py:318-346 | Consider a start sequence, then a body, then the escape sequence, then a four-byte footer starting with 1A. The body followed by the escape sequence must contain that sequence only at its end: no escape sequence inside the body, and no trailing 1B bytes that would complete one early. Under that condition the stream yields exactly one frame, with that body and that footer. |
| Scenarios.ClosedList | sml/__init__.py:247-292 | `72 62 01 62 02` decodes to one list of two unsigned integers, closed at the root. |
| Scenarios.CounterStopsEarly | sml/__init__.py:252-255 | `71 62 01 62 02` stops with `IndexError` before reading the second integer. |
| Scenarios.ZeroLengthStalls | sml/__init__.py:278-284 | `50` never advances the position, so the loop never ends. |
| Scenarios.UnknownTypeRaises | sml/__init__.py:303-304 | `10` raises the unknown-field-type exception at position 0. |
| Scenarios.FillBytesCut | sml/__init__.py:239-243 | Two fill bytes announced in the footer are cut off before decoding. |
| Scenarios.ListResponseFound | sml/__init__.py:177-191 | In a file holding one message whose body has tag 0x0701, the list response is found. |
| Scenarios.ObisFound | sml/__init__.py:194-202 | The identifier search finds the holder of a present code and nothing for an absent one. |
| Scenarios.PowerReading | sml/__init__.py:364-376 | A value-list row for the current active power, with unit code 27, scaler -1 and value 1234, yields 1234·10^-1 W with the registry's description and name. |

## Left out

- Serial I/O: opening the port, the baud rate and the 2-second timeout. A read is a chunk of at most one byte, and an empty chunk is a timeout.
- Threading, the lock around decoding and the shared global `SML_RAW_DATA`: decoding returns its tree as a value.
- Logging, `__repr__`, `RecursiveDump`, `RecursiveLog` and `log_with_indent`: they only produce text.
- The CRC checksum in the footer: the code reads it and never checks it.
- Floating point: a negative scaler gives a Python float. The model keeps the exact decimal pair. So the `OverflowError` that `value * scaler` raises, when the integer value lies beyond the float range, is not modelled.
- Extract.ReadString: UTF-8 decoding is a parameter, not a model of UTF-8.
- Extract.Scale: `MemoryError` is not modelled. Python can raise it when repeating bytes a huge number of times, or when computing `10 ** e` for a huge positive scaler, even with an integer value.
- The consumers of the extracted data: the HTTP API, the MQTT publisher, the debug dumpers and the command line.
- Encoder.RoundTrip: it is stated only for trees whose list lengths are 1..254 and match their children, and whose encoding never pops the nesting counter's last entry. Other trees are not guaranteed to decode back, as `Scenarios.CounterStopsEarly` shows.
- Queries.Classify: its own contract states the root class, the "MessageBody" shape and that named classes have known tags, not the full classification. The full characterisation of "GetList.Response" is `Queries.GetListResponseClass`.
