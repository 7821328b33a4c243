# JSON values, base64, schema maps and parse budgets of lonejson: a verified model

lonejson is a C library for JSON. This project models four of its components in
Dafny, in the form the code has (classes whose methods update their fields, loops
over buffers, recursive descent), and proves what they promise.

- **JSON values.** `Grammar` is RFC 8259 as trees that keep every whitespace byte,
  with the text of each tree. `Scanner` says what one pass over a text does, byte
  by byte, with the status of every failure; `StringProofs` and `GrammarProofs`
  show that it accepts exactly the grammar within the limits, and that a text has
  one tree. `Cursor` is the byte cursor (pushback, lookahead, refill, spans and the
  byte counters) and reads the same text whatever the chunks. `Visitor` and
  `PathVisitor` are the two visitors, `PathStack` the segments and key buffers of
  the second, and `Trace` the walk over a tree that their events must be. A trace
  is compared in a normal form with one byte per chunk, so that it does not matter
  where texts are cut. `Transcoder` writes compact or pretty text; `Rewriting`
  shows that this is the same tree with other whitespace, `Agreement` that visitor
  and transcoder accept and mean the same, and `JsonValue` stores a compact text
  all or nothing. Six files say the same without these definitions: `Escapes` what
  strings stand for, by tables; `Rendering` the events written back as the text;
  `Location` the paths by a stack over the events; `Measures` the limits and the
  failures; `Layout` the pretty form as a formatter over bytes; and
  `NumberSpelling` numbers as an automaton.
- **Base64.** `Base64` defines encoding and decoding on groups of 24 bits (RFC 4648,
  sections 3.2, 4 and 5) and proves the two round trips; `Base64Codec` is the loops
  of the program, `Base64Stream` the field decoded as its bytes arrive, and
  `Base64Tables` what texts they write and read, by the two tables and by bits.
- **Schema maps and budget.** `Schema` is the depth-first analysis of a graph of
  maps, `SchemaProofs` its meaning on the graph, `MapCache` the direct-mapped cache
  of answers, `Ledger` the budget of parse allocations, `Ownership` what a value owns
  by itself and when the analysis is right about it, `Adoption` the walk that counts
  the blocks a value already owns, `RequiredFields` the cached mask and its
  population count, `FieldLookup` lookups with a hint.
- **Strings.** `Spool` is the value with a memory prefix and a spill file,
  `DirectString` the strings decoded into fixed or growing destinations.

Where the program fails to meet a property on all inputs, an input is given and the
exact condition is proved:

- a number stays inside its storage for all texts exactly while the successor of the
  number limit is a size (`StorageSuffices`);
- the frames of the path stack are allocated exactly while their total size is a size
  or the capacity wraps to zero (`DepthIsAllocatable`), and in the latter case the two
  visitors disagree exactly when a first entry is reached (`StackFails`);
- a text the visitor accepts is transcoded exactly when its numbers fit the
  transcoder's buffer (`TokensFit`) and, in the pretty form, every level that holds an
  entry can be indented (`NodeFits`);
- encoding a decoded base64 text gives it back exactly for zero trailing bits
  (`Canonical`), and the encoder's loop ends exactly for inputs below the largest size;
- hinted lookups equal linear search for every hint exactly with distinct non-empty
  keys, and for every sequence of lookups exactly without a `HintedRepetition`;
- a map is said to allocate exactly when some value of it owns a block, unless the
  answer rests on a cycle alone (`ReachesOwner`, `ReachesCycle`);
- a string that fits the budget can be refused, and is appended exactly when the
  doubled capacity fits (`GrowthAllowed`).

`hide` statements in proofs keep the verifier from unfolding what a step does not
need. The limits of the visitor are numbers with zero for "none", as in the program.

## Model

| member | source | states |
|---|---|---|
| `NumberCheck.IsValidJsonNumber` | src/impl/22_parser_engine.h:807-854 | The number check answers yes exactly when some well-formed number tree (RFC 8259, section 6) has this text. |
| `NumberCheck.SplitsExactlyNumbers` | src/impl/22_parser_engine.h:807-854 | The positions where the check moves from one part of a number to the next exist exactly for the texts of well-formed number trees. |
| `NumberSpellings.NumbersAreRead` | src/impl/22_parser_engine.h:807-854 | A token is the text of a well-formed number tree exactly when an automaton over its characters accepts it. |
| `StringProofs.CharsSound` | src/impl/13_json_value_visit.h:257-518 | String content the scan accepts is the text of a well-formed string with paired surrogates whose decoded length keeps the limit. |
| `StringProofs.CharsComplete` | src/impl/13_json_value_visit.h:257-518 | Every well-formed string with paired surrogates that keeps the limits is accepted, and read as that string. |
| `GrammarProofs.NodeSound` | src/impl/13_json_value_visit.h:723-755 | A value the scan accepts is the text of a well-formed tree within the depth, string, key, number and total limits. |
| `GrammarProofs.NodeComplete` | src/impl/13_json_value_visit.h:723-755 | Every well-formed tree within the limits, standing in the text, is accepted and read as that tree. |
| `GrammarProofs.BodySound` | src/impl/13_json_value_visit.h:619-721 | What follows an opening bracket, when accepted, is the text of well-formed entries and the closing bracket. |
| `GrammarProofs.BodyComplete` | src/impl/13_json_value_visit.h:619-721 | Well-formed entries and their closing bracket are accepted and read as those entries. |
| `GrammarProofs.DocumentComplete` | src/impl/13_json_value_visit.h:1424-1516 | Every text of a well-formed document within the limits is accepted whole. |
| `GrammarProofs.AcceptsExactlyTheGrammar` | src/impl/13_json_value_visit.h:1424-1516 | A pass over a text succeeds exactly when the text is one JSON value with whitespace around it that keeps every limit. |
| `GrammarProofs.GrammarIsUnambiguous` | src/impl/13_json_value_visit.h:1424-1516 | A text has at most one tree, so the events of an accepted text are determined. |
| `StringProofs.Utf8RoundTrip` | src/impl/20_parser_map.h:402-442 | The encoding of a code point determines it, its first byte tells its length, and the others are continuation bytes. |
| `Cursors.Cursor.OpenBuffer` | src/impl/11_json_value_io.h:93-110 | A cursor over a buffer starts at position 0 of its text with nothing pushed back. |
| `Cursors.Cursor.OpenReader` | src/impl/11_json_value_io.h:93-114 | A cursor over a reader starts at position 0 of its chunks joined, whatever the chunks. |
| `Cursors.Cursor.Refill` | src/impl/11_json_value_io.h:169-277 | A refill delivers the next byte of the joined chunks, or the end of the input, and keeps the stream offset exact. |
| `Cursors.Cursor.Getc` | src/impl/11_json_value_io.h:279-323 | Reads the byte at the position, from the pushback slot, the buffer or a refill; the end of the text and the total limit are told apart exactly. |
| `Cursors.Cursor.GetcLookahead` | src/impl/11_json_value_io.h:325-363 | The same read without the check of the total limit. |
| `Cursors.Cursor.Ungetc` | src/impl/11_json_value_io.h:365-374 | Pushing the last byte back steps the position and the byte count back by one. |
| `Cursors.Cursor.PeekNonspace` | src/impl/11_json_value_io.h:407-418 | Stops at the first byte that is not whitespace, or at the first failure on the way, and leaves that byte pushed back. |
| `Cursors.Cursor.NextOffset` | src/impl/11_json_value_io.h:385-399 | For every valid source state the offset is the number of bytes fetched, for buffers and refilled input alike. |
| `Cursors.Cursor.LastOffset` | src/impl/11_json_value_io.h:401-405 | The offset of the last byte fetched. |
| `Cursors.Cursor.PlainSpan` | src/impl/13_json_value_visit.h:169-199 | The bytes at hand are the next bytes of the text; there are none while a byte is pushed back. |
| `Cursors.Cursor.CountSpan` | src/impl/13_json_value_visit.h:212-217 | Counting a span fails exactly when it would pass the total limit. |
| `Cursors.Cursor.AdvanceSpan` | src/impl/13_json_value_visit.h:302-306 | Stepping over a counted span keeps the byte count equal to the position. |
| `Cursors.Cursor.LeavePushback` | src/impl/13_json_value_visit.h:1500-1505 | A byte left pushed back is the byte of the source at the offset reported with it. |
| `Cursors.PlainPrefix` | src/impl/13_json_value_visit.h:286-293 | The plain bytes a span starts with, and no fewer. |
| `Visitors.EffectiveLimits` | src/impl/13_json_value_visit.h:1448-1467 | The limits in force: those given, or the defaults where a limit is absent; never absent but for the total. |
| `Visitors.Utf8Append` | src/impl/20_parser_map.h:402-442 | Appends the UTF-8 form of a code point exactly when it is one and it fits with the slack the scratch keeps. |
| `Visitors.ReadHex4` | src/impl/13_json_value_visit.h:434-450 | Four hex digits give their value; any other input fails as the scan says. |
| `Visitors.ReadLowHalf` | src/impl/13_json_value_visit.h:451-485 | After a high surrogate only a low one is accepted, and the two make their code point (which one, see Escapes.VisitedPair). |
| `Visitors.ReadUnicode` | src/impl/13_json_value_visit.h:429-497 | A unicode escape yields the UTF-8 bytes of its code point or pair (see Escapes.DecodedIsMeant); the scratch of six bytes always suffices. |
| `Visitors.ReadEscape` | src/impl/13_json_value_visit.h:378-516 | An escape yields the bytes it stands for, or fails as the scan says. |
| `Visitors.StorageSufficesExactly` | src/impl/13_json_value_visit.h:520-580 | No number in any text is stored outside its storage exactly when the successor of the number limit is a size, or the total limit is no more than the 256 bytes at hand. |
| `Visitors.NumberStaysInsideExactly` | src/impl/13_json_value_visit.h:520-580 | One number, up to its end, is stored inside its storage exactly when the successor of the limit is a size or the number has at most 256 bytes. |
| `Visitors.LongNumberOverruns` | src/impl/13_json_value_visit.h:520-580 | At the largest number limit a text of 257 digits, which the grammar has and every limit allows, is stored outside its storage. |
| `Visitors.ReadNumber` | src/impl/13_json_value_visit.h:520-580 | For every limit: a byte is stored outside the storage exactly when the number overruns it; otherwise exactly the run of number bytes is collected, or the number or total limit fails at the byte that passes it. |
| `Visitors.ReadWord` | src/impl/13_json_value_visit.h:599-612 | Accepts exactly the remaining bytes of a literal. |
| `Visitors.Visitor.Gather` | src/impl/13_json_value_visit.h:233-250 | Bytes put through the 256-byte buffer come out in order, none lost and none twice. |
| `Visitors.Visitor.VisitPlainChunk` | src/impl/13_json_value_visit.h:201-252 | Fails exactly when the run passes the total or the text limit; otherwise what is reported and what is still buffered are the bytes before and the run. |
| `Visitors.Visitor.VisitSpans` | src/impl/13_json_value_visit.h:285-315 | The fast path over plain spans leads to the same answer as reading byte by byte, with the bytes passed on in order. |
| `Visitors.Visitor.VisitStringByte` | src/impl/13_json_value_visit.h:316-516 | One byte or escape: the decoded bytes so far and the answer to come stay in step with the scan. |
| `Visitors.Visitor.VisitString` | src/impl/13_json_value_visit.h:257-518 | A string or key is accepted exactly as the scan says, and its begin, decoded bytes and end are reported. |
| `Visitors.Visitor.VisitNumber` | src/impl/13_json_value_visit.h:520-597 | Within limits that suffice for the storage, a number is accepted exactly as the scan says and reported as one token. |
| `Visitors.Visitor.VisitLiteral` | src/impl/13_json_value_visit.h:599-617 | A literal is accepted exactly as the scan says and reported as its value. |
| `Visitors.Visitor.VisitArray` | src/impl/13_json_value_visit.h:619-661 | An array is accepted exactly as the scan says, at depths below the limit, and its walk is reported; the depth is restored. |
| `Visitors.Visitor.VisitObject` | src/impl/13_json_value_visit.h:663-721 | The same for an object, keys decoded and reported before their values. |
| `Visitors.Visitor.VisitValue` | src/impl/13_json_value_visit.h:723-755 | A value is accepted exactly as the scan says, its walk is reported, and the recursion ends because bytes are consumed. |
| `Visitors.VisitCursor` | src/impl/13_json_value_visit.h:1424-1516 | For every text, chunking and limits under which no number overruns its storage: success exactly for one JSON value within the limits; the events, chunks joined, are the walk of its only tree; a failure has the status of the first rule broken; on success the byte count and the next offset equal the length of the text. |
| `Visitors.AnswerIsUnique` | src/impl/13_json_value_visit.h:1424-1516 | Two visits of one text end alike and report the same trace up to where texts are cut into chunks. |
| `Escapes.DecodedIsMeant` | src/impl/13_json_value_visit.h:378-516 | What a string with paired surrogates is decoded to is what it stands for: said with a table of hex digits, the bytes of the short escapes and the bit patterns of UTF-8 (RFC 3629, section 3). |
| `Escapes.MeaningIsDecoded` | src/impl/13_json_value_visit.h:378-516 | And it stands for nothing else. |
| `Escapes.VisitedString` | src/impl/13_json_value_visit.h:257-518 | An accepted visit of a string reports exactly the bytes the string stands for. |
| `Escapes.VisitedPair` | src/impl/13_json_value_visit.h:451-497 | For every code point from 10000 to 10FFFF (hex): the two escapes whose digits spell its surrogates are reported as its UTF-8 bytes. |
| `Escapes.VisitedUnicode` | src/impl/13_json_value_visit.h:429-497 | For every other code point: the escape whose digits, in either case, spell it is reported as its UTF-8 bytes. |
| `Escapes.VisitedShort` | src/impl/13_json_value_visit.h:378-428 | The eight short escapes are reported as the bytes 34, 92, 47, 8, 12, 10, 13 and 9. |
| `Renderings.VisitedEventsSpellTheText` | src/impl/13_json_value_visit.h:257-755 | The events of an accepted visit, written back with commas and colons, are the text without whitespace and string contents; where nothing is escaped, with them: every byte but whitespace, in order. |
| `Renderings.RenderFlat` | src/impl/13_json_value_visit.h:125-146 | Where texts are cut into chunks makes no difference to what is written back. |
| `Measures.WithinMeans` | src/impl/13_json_value_visit.h:257-721 | A tree keeps the limits of the scan exactly when its nesting, its longest number, decoded string and decoded key do, and its surrogates are paired. |
| `Measures.DocumentAgrees` | src/impl/13_json_value_visit.h:1424-1516 | Within the total limit, a pass that does not overflow ends as the pass without any limits does. |
| `Measures.VisitAnswers` | src/impl/30_api.h:16-27 | Success exactly for the texts of trees within the limits given, 64 levels, 1048576, 256 and 65536 bytes standing for absent ones; a text within the total limit is refused as no JSON only if it is none, so JSON that passes another limit overflows. |
| `PathStacks.CapacityIsAllocatedExactly` | src/impl/13_json_value_visit.h:1474-1479 | Every frame and segment of the path capacity is allocated exactly when the depth limit is the largest size, where the capacity wraps to zero, or its successor times the size of a frame is a size. |
| `PathStacks.NothingAllocated` | src/impl/13_json_value_visit.h:1474-1479 | At the depth limit 2^61 - 1 both blocks are empty though the capacity is not. |
| `PathStacks.FormatDecimal` | src/impl/00_prelude.h:135-155 | Writes the decimal digits of a size, at most twenty, and a terminator; a text too long for the output leaves it alone. |
| `Trace.DecimalInjective` | src/impl/00_prelude.h:135-155 | Different indices have different path segments. |
| `PathStacks.FrameChangeKeeps` | src/impl/13_json_value_visit.h:71-123 | A frame that changes its own buffers only keeps all frames in order: no heap block shared, none leaked. |
| `PathStacks.FrameChangePath` | src/impl/13_json_value_visit.h:71-123 | When the key of the current frame grows, moves or is overwritten, every segment already pushed still points at live bytes and spells the same text. |
| `PathStacks.PathStack.BeginKey` | src/impl/13_json_value_visit.h:852-862 | A new key starts empty, in the frame's buffer, and the location is unchanged. |
| `PathStacks.PathStack.KeyAppend` | src/impl/13_json_value_visit.h:71-123 | Appends decoded bytes to the key, moving it to a larger block when needed; the location and the entry counters are unchanged. |
| `PathStacks.GrowCapacity` | src/impl/13_json_value_visit.h:92-100 | Doubling reaches the needed capacity without passing the size type. |
| `PathStacks.PathStack.PushKey` | src/impl/13_json_value_visit.h:1215-1231 | Pushes the key as the next segment, exactly when there is room. |
| `PathStacks.PathStack.PushIndex` | src/impl/13_json_value_visit.h:1233-1256 | Pushes the decimal entry counter as the next segment, exactly when there is room. |
| `PathStacks.PathStack.Pop` | src/impl/13_json_value_visit.h:1258-1262 | Removes the last segment and gives back the container's entry counter as it was. |
| `PathStacks.PathStack.CountEntry` | src/impl/13_json_value_visit.h:1315-1317 | Counts one more entry of the current array and changes nothing else. |
| `PathStacks.PathStack.Close` | src/impl/13_json_value_visit.h:1506-1512 | Freeing the frames' keys leaves no heap block. |
| `PathVisitors.PathVisitor.EmitChunk` | src/impl/13_json_value_visit.h:125-146 | Part of a text is reported at the current location; part of a key also joins the collected key. |
| `PathVisitors.PathVisitor.VisitPlainChunk` | src/impl/13_json_value_visit.h:757-816 | As without locations, with the key collected in step. |
| `PathVisitors.PathVisitor.VisitString` | src/impl/13_json_value_visit.h:818-1097 | A string is reported at its location; after a key the collected key is the decoded one, whatever the key limit. |
| `PathVisitors.PathVisitor.VisitNumber` | src/impl/13_json_value_visit.h:1099-1188 | Within limits that suffice for the storage, a number is reported at its location. |
| `PathVisitors.PathVisitor.VisitLiteral` | src/impl/13_json_value_visit.h:1190-1209 | A literal is reported at its location. |
| `PathVisitors.PathVisitor.Push` | src/impl/13_json_value_visit.h:1215-1256 | Goes one level down exactly when there is room; without room the error for a bad path stack is returned and the stack is as it was. |
| `PathVisitors.RoomForAll` | src/impl/13_json_value_visit.h:1264-1343 | There is room for an entry at every depth the limit allows, unless the depth limit is the largest size and there is none at all. |
| `PathVisitors.PathVisitor.VisitEntry` | src/impl/13_json_value_visit.h:1297-1318 | The value of an entry is visited one segment deeper, under its key or index, and the location is restored; without frames an entry fails after its key. |
| `PathVisitors.PathVisitor.VisitArray` | src/impl/13_json_value_visit.h:1264-1320 | Every entry of an array is reported under its index; the path depth equals the depth throughout; without frames the first entry reached is an error. |
| `PathVisitors.PathVisitor.VisitObject` | src/impl/13_json_value_visit.h:1322-1388 | Keys are reported at the object, values under their keys; without frames the first key and colon read are an error. |
| `PathVisitors.PathVisitor.VisitValue` | src/impl/13_json_value_visit.h:1390-1422 | A value is accepted exactly as the scan says and its walk is reported from its true location. |
| `PathVisitors.VisitCursorWithPaths` | src/impl/13_json_value_visit.h:1424-1516 | As without paths, every event at its true location, for all limits under which the frames are allocated and no number overruns its storage; at the largest depth limit the path-stack error is returned exactly when a first entry is reached; afterwards the stack is empty and no key block is left on the heap. |
| `Trace.FlatErased` | src/impl/13_json_value_visit.h:757-1422 | Joining chunks and erasing locations can be done in either order. |
| `Trace.ErasedWalk` | src/impl/13_json_value_visit.h:757-1422 | The walk with locations, locations erased, is the walk without. |
| `PathVisitors.ErasedPathsAgree` | src/impl/13_json_value_visit.h:257-755 | The fast form without paths and the form with paths end with the same status and, locations erased, report the same trace; they disagree, and the path-stack error is returned, exactly when the depth limit is the largest size and the first entry of a container is reached. |
| `PathVisitors.OneEntryIsRefused` | src/impl/13_json_value_visit.h:1233-1242 | At the largest depth limit an array of one number, which the grammar has and all limits allow, ends in the path-stack error. |
| `Locations.DecimalSpells` | src/impl/00_prelude.h:135-155 | The segment of an index is its decimal text: digits that spell it, without a leading zero. |
| `Locations.EventsArePlaced` | src/impl/13_json_value_visit.h:757-1422 | In the joined trace of an accepted visit every event is at the path that the events before it lead to: the keys and counts of the open containers, kept on a stack of the events alone. |
| `Transcoders.Transcoder.EmitIndent` | src/impl/11_json_value_io.h:61-91 | Writes a newline and after it exactly two spaces per level for any level up to half the size type, and reports overflow exactly beyond. |
| `Transcoders.Transcoder.TranscodeEscape` | src/impl/12_json_value_parse.h:98-143 | An escape is copied byte for byte, or fails as the scan says. |
| `Transcoders.Transcoder.CopySpan` | src/impl/12_json_value_parse.h:16-74 | The span fast path copies plain bytes and stays in step with the scan. |
| `Transcoders.Transcoder.TranscodeString` | src/impl/12_json_value_parse.h:5-147 | A string is accepted exactly as the scan without pairing and string limits says, and copied unchanged. |
| `Transcoders.Transcoder.ReadToken` | src/impl/12_json_value_parse.h:149-201 | Collects exactly the run of number bytes through a buffer that doubles, and overflows exactly for a run of more than 2^63 bytes, where doubling wraps to zero. |
| `Transcoders.Transcoder.TranscodeNumber` | src/impl/12_json_value_parse.h:149-216 | A number is copied exactly when it fits the buffer and is well formed; a failure has the status of the first rule broken. |
| `Transcoders.Transcoder.TranscodeLiteral` | src/impl/12_json_value_parse.h:218-243 | A literal is copied exactly when it is spelled right. |
| `Transcoders.Transcoder.TranscodeKey` | src/impl/12_json_value_parse.h:347-375 | A key is copied and followed by a colon, in the pretty form with a space. |
| `Transcoders.RoomToIndent` | src/impl/11_json_value_io.h:67-70 | An entry has room in the transcoder's rules exactly when its break can be written. |
| `Transcoders.Transcoder.TranscodeArray` | src/impl/12_json_value_parse.h:245-299 | An array is written in its new layout, or fails with the status of what comes first in the text: a byte that breaks the grammar, or an entry that cannot be indented. |
| `Transcoders.Transcoder.TranscodeObject` | src/impl/12_json_value_parse.h:301-383 | The same for an object. |
| `Transcoders.Transcoder.TranscodeValue` | src/impl/12_json_value_parse.h:385-417 | The same for any value, and the recursion ends because bytes are consumed. |
| `Transcoders.TranscodeCursor` | src/impl/13_json_value_visit.h:1539-1569 | For every text and chunking: success exactly when the text is one JSON value (surrogates unchecked) whose numbers fit the buffer and, in the pretty form, whose entries can all be indented; the output is the text of the same tree in the new layout; every failure, compact or pretty, has the status of the first rule broken. |
| `Rewriting.TranscodeRulesMean` | src/impl/12_json_value_parse.h:149-383 | The transcoder's rules, said of the tree: every number has at most 2^63 bytes and, in the pretty form, every level that holds an entry can be indented. |
| `Rewriting.ShortTextFits` | src/impl/12_json_value_parse.h:149-201 | In a text of at most 2^63 bytes every number fits the buffer. |
| `Rewriting.RelayoutTwice` | src/impl/12_json_value_parse.h:245-383 | Of two layouts only the last counts. |
| `Rewriting.RelayoutWalk` | src/impl/12_json_value_parse.h:245-383 | A new layout has the same walk. |
| `Rewriting.RelayoutWellFormed` | src/impl/12_json_value_parse.h:245-383 | A new layout of a well-formed tree is well formed. |
| `Rewriting.CompactIsStripped` | src/impl/12_json_value_parse.h:5-383 | The compact text of a document is its text with the whitespace outside strings deleted. |
| `Rewriting.OutputAccepted` | src/impl/12_json_value_parse.h:5-383 | The written text is accepted under the same limits but the one on its length, and has the same walk. |
| `Transcoders.CompactDeletesOnlyWhitespace` | src/impl/13_json_value_visit.h:1539-1569 | Compact output is the input with the whitespace outside strings deleted and nothing else changed. |
| `Transcoders.LastTranscodingCounts` | src/impl/13_json_value_visit.h:1539-1569 | Transcoding an output succeeds exactly when transcoding the original does, with the same result: compact after pretty is compact, pretty after compact is pretty. |
| `Transcoders.CompactIsIdempotent` | src/impl/13_json_value_visit.h:1539-1569 | Compacting a compact text succeeds and changes nothing. |
| `Layouts.PrettyIsFormatted` | src/impl/11_json_value_io.h:61-91 | Pretty output is what a formatter makes of the input without its whitespace, knowing only whether it is in a string, how many brackets are open and whether one was just opened: a newline and two spaces per level after an opener, after a comma and before a closer, nothing inside empty brackets, a space after a colon, nothing else. |
| `Measures.RefusedIsNoJson` | src/impl/13_json_value_visit.h:1539-1569 | The transcoder refuses as no JSON only what is none; a text it has no room for overflows. |
| `Agreement.VisitedTextTranscodesExactly` | src/impl/13_json_value_visit.h:1539-1569 | A text the visitor accepts is transcoded exactly when its numbers fit the buffer and, for the pretty form, its entries can be indented. |
| `Agreement.LongNumberIsNotTranscoded` | src/impl/12_json_value_parse.h:149-201 | A number of 2^63 + 1 digits, which the grammar has, is not transcoded. |
| `Agreement.DeepEntryIsNotIndented` | src/impl/11_json_value_io.h:67-70 | From a base level of half the size type on, an entry cannot be indented. |
| `Agreement.VisitedTextTranscodes` | src/impl/13_json_value_visit.h:1539-1569 | So it is when the text or the number limit is at most 2^63 bytes and, for the pretty form, the level leaves room for the depth limit. |
| `Agreement.RewrittenTextVisitsAlike` | src/impl/13_json_value_visit.h:1539-1569 | Visiting the written text without a total limit succeeds and reports the same joined events. |
| `JsonValues.JsonValue.Append` | src/impl/11_json_value_io.h:13-49 | The buffer sink appends exactly the bytes it is given, growing its block; without memory for that nothing changes. |
| `JsonValues.JsonValue.SetBuffer` | src/impl/14_json_value_api.h:66-112 | Storing a text is all or nothing: success exactly for one JSON value whose numbers fit the buffer, given memory, the content then being its compact form and the limits kept; on failure nothing changes and the status is that of the first rule broken; a missing buffer with a length is refused. |
| `JsonValues.StoredTextIsStable` | src/impl/14_json_value_api.h:66-112 | What a value holds is stored again unchanged. |
| `Base64.DecodeEncode` | src/impl/09_base64.h:108-174 | For each variant every encoding is well formed and decodes to what was encoded. |
| `Base64.EncodeDecode` | src/impl/09_base64.h:230-378 | Encoding a decoded text gives it back exactly when the bits that decoding drops are zero. |
| `Base64.DroppedBitsAreLost` | src/impl/09_base64.h:230-378 | A well-formed text that does not come back: its dropped bits are not zero. |
| `Base64.EncodeLength` | src/impl/09_base64.h:67-106 | The length of an encoding is the computed one. |
| `Base64Tables.EncodedByTable` | src/impl/09_base64.h:1-174 | For each variant: character i of an encoding is the entry of its table (RFC 4648, sections 4 and 5) at bits 6i to 6i + 5 of the input, zeros added at the end, and the padded variants fill up the last four with equals signs. |
| `Base64Tables.WellFormedByTable` | src/impl/09_base64.h:230-303 | The texts the check accepts are those of characters in the table of the variant, with its padding and length. |
| `Base64Tables.DecodedByTable` | src/impl/09_base64.h:313-378 | Bit i of a decoding is bit i of the table positions of the text, and bits left over are dropped. |
| `Base64Codec.EncodedLen` | src/impl/09_base64.h:67-106 | The computed length is exact, overflow is reported exactly when it is not a size, and the additions never wrap. |
| `Base64Codec.EmitQuad` | src/impl/09_base64.h:108-136 | A group of one to three bytes gives the characters of its 24 bits and the padding of the variant. |
| `Base64Codec.TestWrapsExactly` | src/impl/09_base64.h:157-165 | The loop's test passes with fewer than three bytes left exactly for an input of the largest size. |
| `Base64Codec.EncodeSink` | src/impl/09_base64.h:138-174 | For every input below the largest size, emits the encoding of the whole input, of exactly the computed length. |
| `Base64Codec.EncodeBuffer` | src/impl/09_base64.h:194-228 | Encodes into a buffer when it is large enough, never beyond its capacity, and reports the length needed. |
| `Base64Codec.Check` | src/impl/09_base64.h:230-303 | Accepts exactly the texts with the alphabet, padding and length of the variant, and counts the bytes they decode to. |
| `Base64Codec.DecodeEmit` | src/impl/09_base64.h:313-332 | A group of four values gives the leading bytes of its 24 bits. |
| `Base64Codec.DecodeSink` | src/impl/09_base64.h:334-378 | Accepts exactly the well-formed texts and emits exactly their decoding. |
| `Base64Codec.DecodeBuffer` | src/impl/09_base64.h:397-427 | Decodes into a buffer when it is large enough and reports the length needed. |
| `Base64Stream.QuartetStream.AppendChar` | src/impl/20_parser.h:491-540 | A character is refused only when no continuation of the field is well formed; otherwise whole quartets are decoded and the rest waits. |
| `Base64Stream.QuartetStream.Append` | src/impl/20_parser.h:542-573 | The same for a chunk. |
| `Base64Stream.QuartetStream.Finish` | src/impl/20_parser.h:623-651 | The field ends well exactly when the one-shot decoder accepts it, with the same bytes. |
| `Base64Stream.DecodeChunks` | src/impl/20_parser.h:491-651 | For any chunks the streamed field is accepted exactly when the one-shot standard decoder accepts the chunks joined, with the same bytes. |
| `Schemas.StackContains` | src/impl/20_parser_map.h:95-105 | Finds a map among the frames exactly when it is there. |
| `Schemas.AnalyzeWithStack` | src/impl/20_parser_map.h:117-233 | The recursive analysis ends on every finite schema, cyclic or not, and computes its specification below any stack. |
| `Schemas.AnalyzeField` | src/impl/20_parser_map.h:137-231 | One field: valid, allocating and examined for adoption as its kind, storage, flags and submap say. |
| `SchemaProofs.ValidMeans` | src/impl/20_parser_map.h:117-237 | A map is valid exactly when every map reachable through object and object-array fields has only fields that are in order. |
| `SchemaProofs.MayAllocateMeans` | src/impl/20_parser_map.h:117-237 | A valid map may allocate exactly when a reachable field owns memory or a cycle is reachable. |
| `SchemaProofs.AncestorsIrrelevant` | src/impl/20_parser_map.h:182-230 | Whether a submap of a valid map may allocate does not depend on the ancestors that lead to it. |
| `SchemaProofs.AdoptBitIsFresh` | src/impl/20_parser_map.h:226-231 | A field's bit in the adopt mask says what a fresh analysis of its submap says. |
| `SchemaProofs.AnalysisDependsOnReachable` | src/impl/20_parser_map.h:117-237 | Two schemas in which every map reachable from a map is the same have the same analysis of it, whatever else differs. |
| `SchemaProofs.OwnContentsAreNotEnough` | src/impl/20_parser_map.h:117-237 | A map and its cookie unchanged, a change in its submap changes its analysis. |
| `SchemaProofs.FieldOkMeans` | src/impl/20_parser_map.h:137-166 | A field is in order exactly when it takes some bytes by its kind and storage, all of them and those of its presence field are bytes of the structure, and its flags agree. |
| `SchemaProofs.NestedFieldsInside` | src/impl/20_parser_map.h:137-166 | In a valid map every field, at any depth of embedded objects, lies inside the outermost structure. |
| `Ownerships.MayNotAllocateOwnsNothing` | src/impl/20_parser_map.h:117-237 | In a valid map that may not allocate, no value of its type owns a block anywhere: every structure and element is entered, whatever the analysis says of it. |
| `Ownerships.MayAllocateExactly` | src/impl/20_parser_map.h:117-237 | Where no structure lies inside itself, some value of a valid map owns a block exactly when a field that owns memory is reached; so the answer that a map may allocate is exact except when it rests on a cycle alone. |
| `Ownerships.CycleOwnsNothing` | src/impl/20_parser_map.h:107-115 | A map with a fixed array of itself is said to allocate, and no value of it owns anything. |
| `Ownerships.OwningFieldOwns` | src/impl/20_parser_map.h:168-225 | Each field said to own memory by its kind and storage has a value that owns a block. |
| `MapCaches.UnchangedAgrees` | src/impl/20_parser_map.h:882-943 | When all maps reachable from a cacheable map have the contents first seen with its address and cookie, what was first seen is what a fresh analysis says. |
| `MapCaches.MapCache.Slot` | src/impl/20_parser_map.h:882-907 | A slot that holds another map or cookie is emptied before use; all slots stay correct. |
| `MapCaches.MapCache.CachedAnalysis` | src/impl/20_parser_map.h:913-943 | Whatever was asked before, the combined answer is a fresh analysis; a missing map has the empty one. |
| `MapCaches.MapCache.LayoutIsValid` | src/impl/20_parser_map.h:945-966 | The cached layout answer is that of a fresh analysis. |
| `MapCaches.MapCache.MayAllocate` | src/impl/20_parser_map.h:968-993 | The cached may-allocate answer is that of a fresh analysis. |
| `MapCaches.MapCache.AdoptMask` | src/impl/20_parser_map.h:995-1020 | The cached adopt mask is that of a fresh analysis. |
| `Adoptions.NothingOutsideMask` | src/impl/20_parser_map.h:1198-1229 | A field outside a valid map's mask holds nothing to adopt. |
| `Adoptions.MaskBitMeans` | src/impl/20_parser_map.h:117-237 | Besides the objects whose maps may allocate, the mask of a valid map has exactly the fields in which the walk may find something. |
| `Adoptions.WalkIsOwned` | src/impl/20_parser_map.h:1096-1235 | For every typed value of a valid map the walk attempts exactly the pointers the value owns, in order, said of the value alone: every pointer, both parts of a JSON value, items that are owned, all strings, all structures and elements. |
| `Adoptions.AdoptsExactly` | src/impl/20_parser_map.h:1080-1094 | With a limit set, a list of pointers is refused exactly when the blocks of some beginning of it, counted for their sizes, exceed the limit; otherwise each of them is this parser's and counted for its size, and no other block is changed. |
| `Adoptions.LowestBit` | src/impl/20_parser_map.h:1022-1030 | The index of the lowest set bit. |
| `Adoptions.Adopter.AdoptValue` | src/impl/20_parser_map.h:1096-1191 | The blocks under a field, for a typed value all that it owns, are adopted in order up to the first that does not fit. |
| `Adoptions.Adopter.AdoptScan` | src/impl/20_parser_map.h:1220-1229 | The scan of every field adopts its specification's list of blocks in order. |
| `Adoptions.Adopter.AdoptMasked` | src/impl/20_parser_map.h:1206-1219 | The walk over the mask leaves the budget exactly as the scan of every field does. |
| `Adoptions.Adopter.AdoptMapWithMask` | src/impl/20_parser_map.h:1198-1235 | For a valid map the mask-driven walk attempts the same blocks in the same order as the full scan, with the same outcome. For a typed value these are the blocks it owns: with a limit set the walk fails exactly when some beginning of them exceeds it, and otherwise counts each for its size and changes no other block. |
| `RequiredFields.PopcountIsBitCount` | src/impl/20_parser_map.h:1-12 | The population count by masks, shifts and one multiplication is the number of set bits, for every word. |
| `RequiredFields.CountWord` | src/impl/20_parser_map.h:46-51 | The bits of the required mask are as many as the required fields. |
| `RequiredFields.MaskCache.RequiredMask` | src/impl/20_parser_map.h:30-53 | The mask, cached or not, has exactly the bits of the required fields. |
| `RequiredFields.MaskCache.RequiredCount` | src/impl/20_parser_map.h:55-65 | The count, by mask or by loop, is the number of required fields. |
| `FieldLookups.MatchesMeansEqual` | src/impl/20_parser_map.h:444-461 | Comparing length, first, last and middle bytes is comparing keys. |
| `FieldLookups.Frame.FindField` | src/impl/20_parser_map.h:472-499 | A lookup finds the hinted field when its key matches, else the first field with the key, and moves the hint behind it. |
| `FieldLookups.HintsAreSafeExactlyForDistinctKeys` | src/impl/20_parser_map.h:472-499 | Over every hint and key, hinted lookups answer what linear search does exactly when no two fields share a non-empty key. |
| `FieldLookups.LookupsAreSafeExactly` | src/impl/20_parser_map.h:472-499 | Over every sequence of lookups on a fresh frame they do exactly when no repeated non-empty key stands right behind the first field with some key. |
| `FieldLookups.TwoEqualKeysDisagree` | src/impl/20_parser_map.h:472-499 | With two fields of one key the second lookup of it finds the second field, where a linear search finds the first. |
| `FieldLookups.DistinctKeysAreSafe` | src/impl/20_parser_map.h:472-499 | With distinct non-empty keys every sequence of lookups answers what linear searches do. |
| `Ledgers.TotalUpdate` | src/impl/00_prelude.h:1115-1134 | Changing one block changes the counted total by exactly the difference, and no block counts more than the total. |
| `Ledgers.Ledger.GrowthIsExact` | src/impl/00_prelude.h:1048-1080 | The clamps to zero are never taken; growing is allowed exactly when the new total keeps the limit. |
| `Ledgers.Ledger.NoteResize` | src/impl/00_prelude.h:1115-1134 | Recounting a block keeps the live count equal to the sum over this parser's blocks. |
| `Ledgers.Ledger.NoteRelease` | src/impl/00_prelude.h:1136-1152 | Releasing a block takes off what it counted for, and its tag. |
| `Ledgers.Ledger.MallocParse` | src/impl/00_prelude.h:1154-1164 | Refused exactly when the limit or the allocator forbids it, and then nothing changes; the count otherwise grows by the size. |
| `Ledgers.Ledger.ReallocParse` | src/impl/00_prelude.h:1166-1178 | Refused likewise with nothing changed; the block counts for its new size afterwards. |
| `Ledgers.Ledger.FreeParse` | src/impl/00_prelude.h:1195-1198 | Freeing gives back exactly what the block counted for. |
| `Ledgers.Ledger.TryAdopt` | src/impl/00_prelude.h:1097-1113 | A block from before the parse is counted exactly when it fits the limit; otherwise nothing changes. |
| `Spools.Spooled.Append` | src/impl/00_prelude.h:1922-1991 | An append that succeeds adds its bytes at the end, prefix first, and leaves the read cursor; refused by the limit or for lack of memory it changes nothing; when the file fails, size and contents stay and the prefix and the file hold the bytes already stored. |
| `Spools.Spooled.Read` | src/impl/00_prelude.h:2092-2142 | Reads return consecutive slices of all appended bytes, never empty before the end, with the end reported exactly at the size. |
| `Spools.Spooled.Rewind` | src/impl/00_prelude.h:2072-2090 | The next read starts over. |
| `Spools.Spooled.WriteToSink` | src/impl/00_prelude.h:2144-2182 | Writes everything once and in order without moving the value's own cursor. |
| `DirectStrings.StartFixed` | src/impl/20_parser.h:289-361 | A string is staged exactly when the destination must be kept and is not empty: in the scratch or token buffer if one is large enough, else in a block the budget counts, refused exactly when the budget or the allocator refuses it; nothing is written yet. |
| `DirectStrings.FixedString.Append` | src/impl/20_parser.h:727-756 | Holds the first bytes that fit; overflow is reported exactly when the input is longer and the policy is to fail; a staged destination is untouched. |
| `DirectStrings.FixedString.Finish` | src/impl/20_parser.h:785-837 | The destination holds the first bytes that fit and a terminator, the rest of a staged one unchanged; truncation is reported exactly when the input was longer and the policy asks for it; an owned stage is freed and no longer counted. |
| `DirectStrings.FixedString.Abort` | src/impl/20_parser.h:757-783 | A staged destination is as it was before the string, and an owned stage is freed and no longer counted. |
| `DirectStrings.NextCapacity` | src/impl/20_parser.h:684-699 | The loop computes the first doubled capacity that suffices, clamped: at least what is required, a size, and within the limit. |
| `DirectStrings.DoubledIsLess` | src/impl/20_parser.h:684-699 | Doubling stays below twice what is required, and a size. |
| `DirectStrings.FittingStringRefused` | src/impl/20_parser.h:684-707 | A string that would fit the budget and is refused, because the doubled capacity does not. |
| `DirectStrings.RefusedStringIsLarge` | src/impl/20_parser.h:684-707 | A string the budget refuses needs more than half of what the budget leaves it. |
| `DirectStrings.StartDynamic` | src/impl/20_parser.h:363-420 | Starting overflows exactly when no budget is left, and otherwise fails exactly when the allocator has no memory, with nothing changed; else the block is the longest of at most 64 bytes that the string limit and the budget have room for, and is charged. |
| `DirectStrings.DynamicString.Append` | src/impl/20_parser.h:664-726 | Succeeds exactly when the string keeps its limit and either fits its block or the doubled capacity fits the budget and is granted; then all bytes are appended, otherwise nothing changes, with the status saying which. |
| `DirectStrings.DynamicString.Finish` | src/impl/20_parser.h:785-837 | Hands over the whole concatenation, terminated, and frees the old string. |
| `DirectStrings.DynamicString.Abort` | src/impl/20_parser.h:757-783 | Frees the block and takes it off the budget. |

## Left out

- FILE*, descriptors, paths, temporary files and their errors: a source is a byte string or a list of chunks, a spill file a byte string. A reader delivers non-empty chunks until its end; an empty delivery ends the input.
- Callbacks and sinks: they succeed, and all callbacks of a visitor are present. Allocation succeeds in the visitors and the transcoder; in the budget, the strings and the stores it is a parameter.
- The header in front of an owned block: a block has the size asked for. That the header's own size, added to a request close to the size type's maximum, can wrap is not modelled.
- Error messages, line and column numbers, errno, locks, statistics and the parse modes of a value handle.
- Bytes from 0x80 up inside strings are passed on unchecked, as the program does; the grammar is on bytes.
- Sizes are integers, and the size type's maximum appears where a branch, a sum or a product depends on it. The bit operations that put disjoint bits together are additions, and a mask of fields is the set of its bits, except in the population count, which is on 64-bit words. The sizes of a frame and a segment are those of a platform with eight-byte pointers.
- The number buffer of the visitors is an array of its storage; the 256-byte buffer for plain bytes, the number buffer of the transcoder and the block of a sink are sequences with their capacities, and the buffers of the path stack are named entries of a memory map, so freeing and reuse are explicit but addresses are not.
- Visitors.VisitCursor: the cursor is fresh (no byte pushed back by an earlier pass), a text is no longer than the size type's maximum, and the events delivered before a failure are not described; the status is. What the program does once a number has overrun its storage is not defined.
- PathVisitors.VisitCursorWithPaths: depth limits at which frames are missing from the block are excluded, because the program then reads past it; the condition is exact.
- Transcoders.TranscodeCursor: what is written before a failure is not described, and the sink's calls are joined. In the pretty form the base level is below the size type's maximum; at it the level of the first entries would wrap to zero, and a root that holds an entry would fail at its closing bracket.
- JsonValues.JsonValue.SetBuffer: the new content reaches the sink in one piece and the text is shorter than the size type's maximum. A missing buffer of length zero is excluded: that call passes the argument check, the cursor then has neither buffer nor reader, and the program reads from a file handle that is null, so it does not return.
- Base64Codec.EncodeSink: an input of the largest size is excluded, for which the loop would not end; the condition is exact. Invalid variants are outside the type.
- MapCaches.MapCache.CachedAnalysis: all maps reachable from a map that carries its own address have the contents they had when its address and cookie were first seen; its own contents alone would not do. Maps without their own address are analysed afresh each time. A missing map has the empty mask here and the full one in a fresh analysis.
- Adoptions.Adopter.AdoptMapWithMask: maps are valid and values have the shape their maps describe. For an invalid map the mask stops at its first bad field and the two walks may differ.
- Ownerships.MayNotAllocateOwnsNothing: a typed value holds pointers where the kinds of its fields have them; fixed arrays own no items, and an array stream, which keeps nothing between parses that the walk looks at, holds none. A structure that lies inside itself has no value.
- RequiredFields.MaskCache.RequiredMask: the map at an address does not change while a parser lives, and one shifted left is written as repeated doubling.
- Ledgers.Ledger.ReallocParse: one parse from a start without blocks tagged by this parser; no other parser takes over a counted block. Reallocating to zero keeps the block and counts nothing for it, as in the program. A moved block keeps its identity.
- Spools.Spooled.Append: the variant that asks the parse budget before it grows the prefix is not modelled. A file fails by storing less than it is given; a failure after that, to restore its read position, is not modelled. Sizes do not wrap.
- DirectStrings.DynamicString.Append: an input of about the size type's maximum is outside the model.
- DirectStrings.StartFixed: the errors for a string outside an object or a field that is not active are not modelled.
- The parser engine, serializer, array streams, rewriting, event streams, multipart, writer, pull parser, and the per-kind initialisation, reset and cleanup of fields: not part of this model.
- Array growth, the parser's workspace and token bounds, and restarting a parser on a stream: easy next to what is modelled, or outside its invariants.
