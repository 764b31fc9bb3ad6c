# Verification models for the Haxe repository

Dafny models of the parts of the repository whose correctness is least obvious from reading them, with
machine-checked proofs. `dafny verify dfyconfig.toml` checks the whole project.

## What is modelled

**The object-size walker** (`BitArray`, `Rle`, `ColorLog`, `HeapGraph`, `ObjSize`, `Header`).
`c_objsize` measures a heap graph without a visited set: it paints visited headers blue, logs the old
colours in a run-length code, walks the graph again and repaints. The heap is a finite map from block
identities to tag and fields, with one header word per block; the log is a growable array of bytes. The
main result is the contract of `CObjsize`: the measures are right and every header is as before, bit for
bit. It needs that no involved block is blue at the start, that `scan` and `reach` are finite lists of
blocks, and that there are no more blocks than a C `int` can count, because `repeat_count` is one. A lemma
shows the need for the first: with one blue block among them the restoring reads outnumber the writes. The
log is also proved against colour sequences alone, and the walk against a definition of depth-first order
that does not recurse.

**The XML event parser** (`XmlMachine`, `XmlSteps`, `XmlGrammar`, `XmlTheorems`, `XmlDocuments`). `do_parse_xml` is a loop
over eighteen states with transitions that do not consume, lookahead, and recursion through shared
pointers. `XmlMachine` has it as a step function and, in its own imperative form, as methods proved
against that function. `XmlGrammar` prints documents; the theorems show that the parser accepts exactly
what is printed and sends exactly its events. `XmlDocuments` spells out single constructs and what they
send. The comment at line 367 of the source promises `done()` for
every closed node; the code sends it for self-closed tags only. The model follows the code, and a lemma
gives exactly the documents for which the comment is true.

**Codecs and text structures.** `Utf8` is the OCaml UTF-8 module over 31-bit code points (RFC 2279).
`UnicodeString` is the Haxe UTF-8 validator against the grammar of RFC 3629, and `Utf16` the code point
slicing of UTF-16 strings, ill-formed ones included. `Html` is escaping and unescaping. `StringBuffer` and
`WinArgs` are the chunked C buffer and the quoting of Windows command lines, proved against the splitting
rules of the MSVC run-time library. `Base64` has the 63-bit accumulator that is shifted but never masked.
`Rbuffer` is the rope buffer, with leaves that are shared between buffers. `Wrappers`, `Sequences` and
`Powers` hold what several of these use.

## Peculiarities of the code that the model keeps

- `wordalign` computes `al % n`, not `n % al`, so it aligns nothing. The colour log only ever asks for
  multiples of 64 bytes, for which it is harmless.
- `done()` is not sent for a tag that has a closing tag.
- `*line` counts a newline only when the parser advances to it, so it misses one that is the first parsed
  character, and one right behind a `![` that opens no CDATA section.
- `Base64.decode_string` never looks at the last character of a string of length 1 mod 4, so an invalid one
  there raises nothing.
- The growth loop of `buffer_append_new` no longer ends once the total length reaches 2^30: the shifted
  chunk length wraps and then stays at zero. The buffer methods require less, or room in the newest chunk.
- `UTF8.look` masks seven bits of each continuation byte, not six. On valid strings that makes no
  difference; the model keeps the seven.
- `utf16CodePointAt` takes whatever follows a leading surrogate for its partner.

## Model

| member | source | states |
|---|---|---|
| `ObjSize.Walker.CObjsize` | libs/objsize/c_objsize.c:423-503 | For every finite heap with no involved block blue: every header word comes back bit for bit and the log is closed; `headers` is the size of the set reachable from `v` without entering a `scan` block, `data` the number of its words, counted as pairs of a block and a place in it, `depth` the depth of the depth-first tree, `reached` is 1 exactly when a `reach` block is in the set |
| `ObjSize.Walker.CRecObjsize` | libs/objsize/c_objsize.c:352-393 | The form with postponed siblings and `goto` makes exactly the visits of plain recursive depth-first search, in its order, and paints, logs and counts each of them once |
| `ObjSize.Walker.RecEnter` | libs/objsize/c_objsize.c:358-390 | One round up to the `goto`: what it did and what it leaves pending together are the recursive walk of the block |
| `ObjSize.Walker.RecWalk` | libs/objsize/c_objsize.c:325-349 | The field loop enters block fields one field late and loses or repeats none |
| `ObjSize.Walker.RestoreColors` | libs/objsize/c_objsize.c:396-420 | The second walk, with "blue" for "not visited", makes the visits of the walk that sees everything not blue as visited, and repaints each from the log |
| `ObjSize.Walker.RestoreWalk` | libs/objsize/c_objsize.c:325-349 | The same field loop with the opposite test |
| `ObjSize.Walker.PaintScan` | libs/objsize/c_objsize.c:435-444 | Paints and logs each distinct `scan` block once, repetitions in the list included |
| `ObjSize.Walker.RestoreScan` | libs/objsize/c_objsize.c:463-471 | Takes one colour per distinct `scan` block from the log, in the order they were logged |
| `ObjSize.Walker.FindReached` | libs/objsize/c_objsize.c:473-480 | True exactly when some block of the list is blue |
| `ObjSize.Walker.MarkPhase` | libs/objsize/c_objsize.c:429-459 | After painting and flushing: both sets blue, the log that of all their colours in order, and the three measures |
| `ObjSize.Walker.RestorePhase` | libs/objsize/c_objsize.c:461-486 | Reading the log back restores the `scan` blocks first, then the measured ones, and consumes it |
| `ObjSize.RegionIsTheWalk` | libs/objsize/c_objsize.c:449-452 | The visited blocks are exactly the reachable region, each visited once |
| `ObjSize.RegionIsLeast` | libs/objsize/c_objsize.c:325-393 | The region is the least set that holds the block of `v` and, with each block of tag below 251, every block of the heap its fields point to, the excluded ones apart |
| `ObjSize.RegionDepthIsGreatest` | libs/objsize/c_objsize.c:370-370 | `depth` is the greatest depth in the depth-first order of the region, and 0 for an empty region |
| `ObjSize.MarkingWalk` | libs/objsize/c_objsize.c:435-452 | Painting the `scan` blocks first cuts the walk at exactly those blocks |
| `ObjSize.RestoringWalk` | libs/objsize/c_objsize.c:463-485 | With the `scan` blocks restored, the restoring walk still makes the visits of the marking walk in the same order |
| `ObjSize.AfterReadsRepaint` | libs/objsize/c_objsize.c:402-404 | A log that yields the old colours in visiting order repaints exactly the visited blocks with them |
| `ObjSize.Run.ReadBack` | libs/objsize/c_objsize.c:459-486 | The flushed log yields the colours of the `scan` blocks, then those of the walk, and nothing more |
| `ObjSize.Run.MarkEnd` | libs/objsize/c_objsize.c:446-459 | The whole state the marking walk leaves: painted region, log, number, total size and depth |
| `ObjSize.ReadsMatchWritesIff` | libs/objsize/c_objsize.c:435-485 | With any blocks blue at the start the restoring walk reads at least as many colours as were logged, and as many if and only if no `scan` block and no block of the region was blue |
| `ObjSize.EmptyLogRefuses` | libs/objsize/c_objsize.c:133-140 | A log that has yielded everything fails the assertion of the next read |
| `ObjSize.Walker.Store` | libs/objsize/c_objsize.c:380-381 | Painting a header changes its colour and no other bit of any header |
| `ObjSize.AfterDistinctVisits` | libs/objsize/c_objsize.c:368-378 | Counting per visit is counting per block, because no block is visited twice |
| `HeapGraph.WalkVisitsReachable` | libs/objsize/c_objsize.c:325-393 | Depth-first search visits a block if and only if a path avoiding the blue blocks leads to it |
| `HeapGraph.WalkPostponed` | libs/objsize/c_objsize.c:336-349 | Entering a field only when the next block field is met yields the same visits in the same order |
| `HeapGraph.ComplementWalk` | libs/objsize/c_objsize.c:321-323 | With the visited blocks blue, and any others the walk cannot meet, the walk that enters blue blocks repeats the walk that entered the others |
| `HeapGraph.WalkIsDepthFirst` | libs/objsize/c_objsize.c:352-393 | Each visit is a child of an earlier one, into its first unvisited field, when everything opened since is complete |
| `HeapGraph.DepthFirstIsTheWalk` | libs/objsize/c_objsize.c:352-393 | Those rules determine the visit sequence: a sequence meets them if and only if it is the walk |
| `HeapGraph.WalkDistinct` | libs/objsize/c_objsize.c:318-323 | No block is visited twice, in cyclic and shared graphs too |
| `HeapGraph.TotalSizeOfSet` | libs/objsize/c_objsize.c:368-368 | A total over a set of blocks does not depend on the order of adding |
| `HeapGraph.TotalSizeCounts` | libs/objsize/c_objsize.c:364-368 | A total of sizes over a set is the number of words of its blocks, strings and floats included |
| `HeapGraph.ListIsChain` | libs/objsize/c_objsize.c:435-444 | A list is a chain of cells, element in the first field and next cell in the second |
| `Header.PaintedColor` | libs/objsize/c_objsize.c:26-27 | The colour painted is the colour read |
| `Header.PaintingKeepsTheRest` | libs/objsize/c_objsize.c:26-27 | Painting leaves size and tag bits alone |
| `Header.PaintingBack` | libs/objsize/c_objsize.c:26-27 | Painting the old colour back gives the old header word |
| `Header.PaintedBits` | libs/objsize/c_objsize.c:26-32 | The four colours as the bits 0, 0x100, 0x200 and 0x300 of the header |
| `Header.PaintedAs` | libs/objsize/c_objsize.c:26-27 | A painted header shows the colour and keeps the rest |
| `Header.SameHeaders` | libs/objsize/c_objsize.c:26-27 | Headers that show the same colours and the same rest are the same words |
| `Rle.RoundTrip` | libs/objsize/c_objsize.c:179-303 | Writing any sequence of non-blue colours, flushing and reading as many gives the sequence back, passes every assertion, and ends with nothing pending and the log consumed |
| `Rle.RepeatTokensClosedForm` | libs/objsize/c_objsize.c:179-208 | The chunks of a repeat count n: n / 32768 of order 15, one for each set bit from 14 to 5 of the rest, at most one short count |
| `Rle.RepeatTokensConserve` | libs/objsize/c_objsize.c:179-208 | The chunks add up to the count, and each order and count fits its field |
| `Rle.OrderFromIsHighestBit` | libs/objsize/c_objsize.c:183-188 | The search stops at the highest set bit, capped at order 15 |
| `Rle.ReadBackTokens` | libs/objsize/c_objsize.c:254-280 | Any list of valid tokens reads back as the colours it stands for |
| `Rle.IntBitsRoundTrip` | libs/objsize/c_objsize.c:143-167 | The lowest-first bits of an integer below 2^w spell it again |
| `Rle.TokenFormat` | libs/objsize/c_objsize.c:179-303 | The format of the log, bit by bit: two bits of a colour, or blue with four bits of an order or five of a count |
| `Rle.RepeatsAreCounted` | libs/objsize/c_objsize.c:237-242 | A colour that goes on is counted and writes nothing |
| `Rle.RunIsOneLiteral` | libs/objsize/c_objsize.c:237-250 | A run of a new colour costs two bits behind the pending repeats, until it ends |
| `ColorLog.Log.WriteBit` | libs/objsize/c_objsize.c:117-130 | Appends one bit to the bits written so far, across a doubling of the capacity |
| `ColorLog.Log.ReadBit` | libs/objsize/c_objsize.c:133-140 | The next written bit, with the index moved by one |
| `ColorLog.Log.WriteInt` | libs/objsize/c_objsize.c:143-152 | Appends the low `width` bits; the final `arg == 0` assertion holds |
| `ColorLog.Log.ReadInt` | libs/objsize/c_objsize.c:155-167 | The value the next `width` bits spell, by shifting in from the top |
| `ColorLog.Log.RleWriteRepeats` | libs/objsize/c_objsize.c:179-208 | Turns the pending count into its chunks in the log; both loops end |
| `ColorLog.Log.WriteChunk` | libs/objsize/c_objsize.c:183-194 | One chunk of the highest order that fits |
| `ColorLog.Log.RleWriteFlush` | libs/objsize/c_objsize.c:211-219 | Leaves no repeats pending |
| `ColorLog.Log.WriteColor` | libs/objsize/c_objsize.c:237-297 | The log after one more colour |
| `ColorLog.Log.ReadColor` | libs/objsize/c_objsize.c:253-305 | The next colour and the reader after it; the recursion ends after one marker |
| `ColorLog.Log.ReadRepeatCount` | libs/objsize/c_objsize.c:264-271 | The count behind a blue marker |
| `ColorLog.CapacityIsAllocated` | libs/objsize/c_objsize.c:98-126 | The bytes allocated always hold exactly the capacity in bits |
| `BitArray.WordAlignAlignsOnlyTheAligned` | libs/objsize/bitarray.h:20-32 | The rounding, written with its remainder the wrong way round, aligns a size if and only if it was aligned |
| `BitArray.SizeBytesCovers` | libs/objsize/bitarray.h:20-38 | Exactly for which bit counts the allocation is large enough |
| `BitArray.WordAlignIs` | libs/objsize/bitarray.h:20-32 | Of all sizes the rounding changes only 3, to 6 |
| `BitArray.Get` | libs/objsize/bitarray.h:62-65 | The bit at a position |
| `BitArray.Set` | libs/objsize/bitarray.h:67-79 | Changes one bit and no other |
| `BitArray.Init` | libs/objsize/bitarray.h:81-97 | Sets exactly the first bits to the value, whole bytes first |
| `BitArray.MaskIsShift` | libs/objsize/bitarray.h:59-65 | Bit `k` of a byte is the one of weight 2^k |
| `BitArray.StoreChangesOneBit` | libs/objsize/bitarray.h:59-79 | Masking one byte changes one bit of the whole array |
| `BitArray.GrowKeepsBits` | libs/objsize/bitarray.h:53-56 | Reallocation keeps the bits of the old bytes |
| `XmlTheorems.ParsesExactlyTheDocuments` | std/cpp/NativeXmlImport.cpp:89-384 | `parse_xml` returns normally if and only if the text, after a byte order mark, is a printed document; the grammar spells its characters out one by one |
| `XmlTheorems.PrintedDocumentParses` | std/cpp/NativeXmlImport.cpp:89-384 | On a printed document the events are exactly its preorder trace, the empty `pcdata` of childless content included |
| `XmlGrammar.IsNameChar` | std/cpp/NativeXmlImport.cpp:85-87 | The characters of names, spelled out one by one, are those the parser takes |
| `XmlGrammar.IsBlank` | std/cpp/NativeXmlImport.cpp:103-113 | So is white space |
| `XmlGrammar.SameLetter` | std/cpp/NativeXmlImport.cpp:297-301 | Two characters are alike for the closing tag if they are equal or the two cases of a letter of the alphabet |
| `XmlMachine.BomLength` | std/cpp/NativeXmlImport.cpp:380-382 | The three characters EF BB BF are skipped, and nothing else |
| `XmlDocuments.TextAlone` | std/cpp/NativeXmlImport.cpp:337-345 | A text without markup is one `pcdata`, the empty text too |
| `XmlDocuments.CommentEvents` | std/cpp/NativeXmlImport.cpp:308-313 | A comment in a text is one `comment`, and the text around it as it is; without any text an empty one follows |
| `XmlDocuments.HeaderEvents` | std/cpp/NativeXmlImport.cpp:324-330 | The same for a header, which is sent as a comment with its question marks |
| `XmlDocuments.DocTypeEvents` | std/cpp/NativeXmlImport.cpp:315-323 | The same for a DOCTYPE |
| `XmlDocuments.CDataEvents` | std/cpp/NativeXmlImport.cpp:133-141 | A section is one `cdata`, and counts as content |
| `XmlDocuments.LeafEvents` | std/cpp/NativeXmlImport.cpp:207-263 | A childless tag sends its name with exactly the attributes written in it, each with the text between its quotes, and `done` |
| `XmlDocuments.WrappedDocument` | std/cpp/NativeXmlImport.cpp:265-307 | Tags put around any document put one event before its events and nothing behind them |
| `XmlDocuments.BracketsCloseIff` | std/cpp/NativeXmlImport.cpp:315-323 | The text of a DOCTYPE has as many closing brackets as opening ones, and at each `>` in it not as many |
| `XmlMachine.FailingSendsNothing` | std/cpp/NativeXmlImport.cpp:89-347 | A pass that ends in an error has sent no event |
| `XmlTheorems.NestedStopsAtClosingTag` | std/cpp/NativeXmlImport.cpp:265-307 | A nested call that returns has parsed content and then a closing tag with its parent's name up to ASCII case, and stops on its `>` |
| `XmlTheorems.TagEvents` | std/cpp/NativeXmlImport.cpp:207-281 | `xml` is sent for every tag, `done` only for tags closed by themselves |
| `XmlTheorems.DoneForEveryNodeIff` | std/cpp/NativeXmlImport.cpp:366-367 | "`done` when a node is closed" of a parsed document holds if and only if it has no closing tag |
| `XmlTheorems.DoneMissing` | std/cpp/NativeXmlImport.cpp:366-367 | `"<a></a>"`: the events are `xml` and an empty `pcdata`, and no `done` |
| `XmlTheorems.FailurePoint` | std/cpp/NativeXmlImport.cpp:146-154 | An error names the position where its pass began, or two characters on behind a `![` |
| `XmlTheorems.LineMisses` | std/cpp/NativeXmlImport.cpp:333-346 | For every text and outcome: the newlines up to where the parser stops are the reported line, plus one if the first parsed character is a newline, plus one if a newline stands right behind a `![` that opens no CDATA section |
| `XmlTheorems.LineIsRightIff` | std/cpp/NativeXmlImport.cpp:333-346 | The line is right if and only if the text begins with no newline and no such `![` is met |
| `XmlTheorems.LineIsRight` | std/cpp/NativeXmlImport.cpp:333-346 | It is right for every text with no newline first and none behind a `![` anywhere |
| `XmlTheorems.LeadingNewlineMissed` | std/cpp/NativeXmlImport.cpp:333-346 | `"\n<a"`: the error one newline down is reported with none |
| `XmlTheorems.NewlineInOpeningMissed` | std/cpp/NativeXmlImport.cpp:146-154 | `"<![\n"`: the same for an opening |
| `XmlTheorems.BreaksBehindFronts` | std/cpp/NativeXmlImport.cpp:146-154 | The parser breaks at a `![` if and only if complete content and unclosed tags stand before it, and it opens no CDATA section |
| `XmlTheorems.AcceptFront` | std/cpp/NativeXmlImport.cpp:101-347 | Content and unclosed tags of any depth are read up to the `![` that breaks the run |
| `XmlTheorems.AcceptContent` | std/cpp/NativeXmlImport.cpp:101-347 | Content of any kind and depth is read to its end, in any activation, with its trace sent |
| `XmlTheorems.FindContent` | std/cpp/NativeXmlImport.cpp:101-347 | An activation that does not fail at the start of a pass has read printed content, or content and unclosed tags up to a `![` that breaks it: the grammar misses nothing the machine accepts |
| `XmlMachine.Parser.DoParseXml` | std/cpp/NativeXmlImport.cpp:89-347 | The loop with its `continue`s and its recursion ends on every input, never reads past the terminator, and computes the outcome of the step function; `line` has counted each newline passed behind the start position once, over all levels |
| `XmlMachine.Parser.Turn` | std/cpp/NativeXmlImport.cpp:101-336 | Each turn advances or lowers the rank of (state, next, is `p` at `start`) |
| `XmlMachine.Parser.Pass` | std/cpp/NativeXmlImport.cpp:102-332 | One pass through the switch follows the step function, on exceptions too |
| `XmlMachine.Parser.Children` | std/cpp/NativeXmlImport.cpp:265-271 | The caller goes on at the `>` the nested call stopped at |
| `XmlMachine.Parser.ParseXml` | std/cpp/NativeXmlImport.cpp:376-384 | Skips a byte order mark and parses |
| `XmlMachine.Activation.Switch` | std/cpp/NativeXmlImport.cpp:102-332 | The fields after one pass are those of the step function |
| `XmlMachine.Activation.Finish` | std/cpp/NativeXmlImport.cpp:337-346 | At the terminator only the outermost call between nodes or in text succeeds |
| `XmlMachine.NoNewlineSkipped` | std/cpp/NativeXmlImport.cpp:139-139 | No lookahead jumps over a newline, so counting at the advance alone misses none |
| `XmlMachine.Body` | std/cpp/NativeXmlImport.cpp:102-332 | Every step that stays on its character lowers the rank, and every step that moves stays inside the string |
| `XmlSteps.RunAttr` | std/cpp/NativeXmlImport.cpp:219-263 | An attribute with white space around `=` is read whole, with the value between its quotes |
| `XmlSteps.RunDocType` | std/cpp/NativeXmlImport.cpp:315-323 | A DOCTYPE ends at the first `>` at bracket depth zero |
| `XmlSteps.RunComment` | std/cpp/NativeXmlImport.cpp:308-313 | A comment ends at the first `-->` |
| `Utf8.ValidIffEncoded` | libs/extlib-leftovers/uTF8.ml:184-213 | `validate` accepts exactly the concatenations of encodings of 31-bit code points, and each valid string decodes in one way only, the one `iter` yields |
| `Utf8.Cursor` | libs/extlib-leftovers/uTF8.ml:26-95 | At every character boundary `look` gives the code point, `next` the next boundary, and `prev` undoes `next` |
| `Utf8.MoveSpans` | libs/extlib-leftovers/uTF8.ml:97-103 | `move` by any signed number of characters lands on the right boundary; before the first one is -1 |
| `Utf8.AgreesWithCodePoints` | libs/extlib-leftovers/uTF8.ml:105-178 | `length`, `nth`, `get`, `last` and `iter` agree with the code point sequence, with an exception for exactly the indices out of range |
| `Utf8.CompareOrdersCodePoints` | libs/extlib-leftovers/uTF8.ml:180-180 | `compare` is negative, zero or positive exactly when the code points come before, are equal to, or come after the others in lexicographic order, a proper beginning coming first |
| `Utf8.CompareByCodePoints` | libs/extlib-leftovers/uTF8.ml:180-180 | The bytes compare as the code points do |
| `Utf8.SearchHead` | libs/extlib-leftovers/uTF8.ml:72-76 | On any bytes: the first head byte from a position on, or the end |
| `Utf8.SearchHeadBackward` | libs/extlib-leftovers/uTF8.ml:89-93 | On any bytes: the last head byte up to a position, or -1 |
| `Utf8.LookKeepsSevenBits` | libs/extlib-leftovers/uTF8.ml:29-31 | Reading two bytes takes six bits of the second, or adds 64, exactly when its seventh bit is set where the first byte leaves it clear |
| `Utf8.RefusesBadHeads` | libs/extlib-leftovers/uTF8.ml:78-87 | A byte that begins no character is refused |
| `Utf8.Tabulate` | libs/extlib-leftovers/uTF8.ml:151-154 | The code points `init` asks its function for, in order |
| `Utf8.EncodeForm` | libs/extlib-leftovers/uTF8.ml:119-149 | Each encoding is a head byte that announces its length, then six bits a byte |
| `Utf8.Buffer.AddUchar` | libs/extlib-leftovers/uTF8.ml:119-149 | Appends the encoding |
| `Utf8.Init` | libs/extlib-leftovers/uTF8.ml:151-154 | The encoding of the tabulated code points |
| `WinArgs.LineSplitsBack` | libs/extc/process_stubs.c:288-330 | Splitting the quoted line by the MSVC rules gives back program and arguments if and only if the program name holds no quote; for readers that do and do not take `""` inside quotes as a quote |
| `WinArgs.CommandLineSplitsBack` | libs/extc/process_stubs.c:288-330 | The same for the NUL-terminated string passed on: it splits back if and only if the program name holds no quote and no string holds a NUL |
| `WinArgs.CommandLine` | libs/extc/process_stubs.c:275-330 | The loop over the arguments writes the quoted line and a terminator |
| `WinArgs.AppendQuoted` | libs/extc/process_stubs.c:291-328 | Each argument is quoted with its held-back backslashes doubled where a quote follows |
| `WinArgs.AppendNext` | libs/extc/process_stubs.c:299-321 | One character: what is written and how many backslashes are then held back |
| `WinArgs.RawLineSplitsBack` | libs/extc/process_stubs.c:277-286 | Between the first two quotes the reader finds the shell, and between the quote behind `/C` and the last one the command, if and only if the name of the shell holds no quote |
| `WinArgs.RawCommandSplitsBack` | libs/extc/process_stubs.c:277-286 | The same for the terminated string: nor may a string hold a NUL |
| `WinArgs.RawCommandLine` | libs/extc/process_stubs.c:277-286 | A raw command goes behind the shell and `/C`, between quotes |
| `WinArgs.WinArgReadsBack` | std/haxe/SysTools.hx:34-104 | Whatever the argument, `quoteWinArg` gives text that is read as exactly that one argument, before anything that starts with a blank |
| `WinArgs.WinArgForm` | std/haxe/SysTools.hx:46-90 | Quotes are put around exactly the empty arguments, those with a blank, and those whose first slash is not in front; of the others exactly those without a quote in them stay as they are |
| `WinArgs.QuoteWinArg` | std/haxe/SysTools.hx:46-105 | The method with its loops computes the quoted form, escaped on demand |
| `WinArgs.EscapesUndone` | std/haxe/SysTools.hx:92-101 | Dropping the carets gives back what was escaped |
| `WinArgs.EscapedCharacter` | std/haxe/SysTools.hx:9-11 | Each of the fifteen metacharacters gets a caret, no other character does |
| `WinArgs.EscapedAppend` | std/haxe/SysTools.hx:92-101 | Characters are escaped one by one |
| `WinArgs.MetaBehindCaret` | std/haxe/SysTools.hx:92-101 | Every metacharacter of the escaped text, apart from the carets, stands behind a caret |
| `StringBuffer.Buffer.AppendSub` | libs/extc/process_stubs.c:109-129 | Appends to the contents, filling the newest chunk before a new one is made |
| `StringBuffer.Buffer.AppendNew` | libs/extc/process_stubs.c:94-107 | Adds a chunk behind the contents; where the growth loop with its 32-bit shifts ends at all, it ends without overflow and leaves a chunk length |
| `StringBuffer.GrowthEndsIff` | libs/extc/process_stubs.c:97-98 | From any chunk length the growth loop comes to an end if and only if the total is below 2^30, however often it doubles and wraps |
| `StringBuffer.GrowthHangs` | libs/extc/process_stubs.c:97-98 | At a total of 2^30 with chunks of 16 it never ends |
| `StringBuffer.Buffer.AppendStr` | libs/extc/process_stubs.c:131-135 | Appends a C string up to its terminator |
| `StringBuffer.CString` | libs/extc/process_stubs.c:131-135 | The beginning of a string up to its first NUL |
| `StringBuffer.Buffer.AppendChar` | libs/extc/process_stubs.c:147-156 | Appends one character |
| `StringBuffer.Buffer.ToString` | libs/extc/process_stubs.c:158-174 | The concatenation of all appends and a terminator, filled in from the end |
| `Base64.RoundTripIffInjective` | libs/extlib-leftovers/base64.ml:38-131 | Every byte string comes back from encoding and decoding if and only if the table spells no two values alike |
| `Base64.RoundTrip` | libs/extlib-leftovers/base64.ml:123-131 | With an injective table and the decoding table made from it, decoding undoes encoding |
| `Base64.DefaultTableRoundTrip` | libs/extlib-leftovers/base64.ml:31-46 | The standard alphabet is such a table |
| `Base64.DefaultTable` | libs/extlib-leftovers/base64.ml:31-36 | The default table, in the order it is printed in |
| `Base64.EncodeString` | libs/extlib-leftovers/base64.ml:123-126 | The characters of the bits cut into sixes, the last piece filled up with zeros |
| `Base64.EncodedByThrees` | libs/extlib-leftovers/base64.ml:52-67 | Encoding by arithmetic: each three bytes spelled as four sextets, one or two last bytes as two or three, filled with zeros |
| `Base64.Encoder.Write` | libs/extlib-leftovers/base64.ml:58-67 | The wrapping accumulator loses nothing: characters out and pending bits together are the bits in |
| `Base64.Encoder.Flush` | libs/extlib-leftovers/base64.ml:52-57 | The pending bits and zeros make the last character |
| `Base64.DecodeString` | libs/extlib-leftovers/base64.ml:128-130 | The bytes of the bits of the characters that are needed, or the error, and never the end of the input |
| `Base64.DecodedByFours` | libs/extlib-leftovers/base64.ml:82-94 | Decoding by arithmetic: each four characters as three bytes, bits of the last ones that fill no byte dropped |
| `Base64.InvalidCharIff` | libs/extlib-leftovers/base64.ml:128-130 | `Invalid_char` is raised if and only if a refused character occurs other than as the last one of a length 1 mod 4 |
| `Base64.Decoder.Fetch` | libs/extlib-leftovers/base64.ml:82-94 | The next eight bits, reading as many characters as that takes |
| `Base64.Input` | libs/extlib-leftovers/base64.ml:96-107 | Bytes until enough or until the input ends; the end is an error only before the first byte |
| `Base64.MakeDecodingTable` | libs/extlib-leftovers/base64.ml:38-44 | The decoding table maps each character to its last place, or -1 |
| `Base64.ShiftIn` | libs/extlib-leftovers/base64.ml:60-60 | Shifting into 63 bits that wrap keeps the pending bits |
| `Base64.ChunksUnique` | libs/extlib-leftovers/base64.ml:62-65 | Pieces are determined by their bits, so the encoding is the only one with the bits of the string |
| `Rbuffer.Run` | libs/extlib-leftovers/rbuffer.ml:41-181 | After any sequence of calls on any number of buffers, with self-appends and shared ropes, each buffer stands for the plain concatenation |
| `Rbuffer.PerformCall` | libs/extlib-leftovers/rbuffer.ml:41-181 | A call on one buffer has its meaning on strings and leaves all other buffers as they were, whatever they share |
| `Rbuffer.Buffer.AddBuffer` | libs/extlib-leftovers/rbuffer.ml:177-181 | Appends the other buffer's string, the buffer itself included |
| `Rbuffer.Buffer.MoveBufferToRope` | libs/extlib-leftovers/rbuffer.ml:116-130 | Moves the bytes into the rope without changing the string |
| `Rbuffer.Buffer.Alloc` | libs/extlib-leftovers/rbuffer.ml:140-163 | The room given out is the end of the string, in all three cases |
| `Rbuffer.Buffer.SafeAddSubstring` | libs/extlib-leftovers/rbuffer.ml:165-167 | Appends the substring |
| `Rbuffer.Buffer.AddSubstring` | libs/extlib-leftovers/rbuffer.ml:169-172 | Appends if the range is valid, and refuses exactly the others |
| `Rbuffer.Buffer.AddString` | libs/extlib-leftovers/rbuffer.ml:174-175 | Appends the string |
| `Rbuffer.Buffer.AddChar` | libs/extlib-leftovers/rbuffer.ml:132-136 | Appends the character |
| `Rbuffer.Buffer.Sub` | libs/extlib-leftovers/rbuffer.ml:94-108 | The slice of the string, or an exception for exactly the bad ranges |
| `Rbuffer.Buffer.Nth` | libs/extlib-leftovers/rbuffer.ml:110-113 | The character of the string, or an exception for exactly the bad indices |
| `Rbuffer.Buffer.Length` | libs/extlib-leftovers/rbuffer.ml:53-54 | The length of the string |
| `Rbuffer.Buffer.UnsafeContents` | libs/extlib-leftovers/rbuffer.ml:66-74 | The string, unless it is longer than a string can be |
| `Rbuffer.BlitSubrope` | libs/extlib-leftovers/rbuffer.ml:78-92 | Copies the slice of the rope; the assertion at the leaves never fails |
| `Rbuffer.BlitRope` | libs/extlib-leftovers/rbuffer.ml:57-63 | Copies the text of the rope |
| `Rbuffer.RopeNth` | libs/extlib-leftovers/rbuffer.ml:28-33 | The character of the text |
| `Rbuffer.Buffer.Reset` | libs/extlib-leftovers/rbuffer.ml:47-49 | The empty string again |
| `Html.RoundTrip` | std/StringTools.hx:158-204 | Unescaping undoes escaping for every string, with and without quotes |
| `Html.PassUndoes` | std/StringTools.hx:193-204 | While ampersands are escaped, one pass takes back one entity and touches nothing else |
| `Html.ReplaceStep` | std/StringTools.hx:193-204 | Split and join replace the leftmost occurrences |
| `Html.JoinUndoesSplit` | std/StringTools.hx:193-204 | Joining with the delimiter undoes splitting |
| `Html.HtmlEscape` | std/StringTools.hx:158-177 | The loop writes an entity for each active character and the others as they are; no angle bracket is left, and no quote where quotes are escaped |
| `Html.EscapedCharacter` | std/StringTools.hx:158-177 | The entity of each escaped character, and every other character unchanged |
| `Html.EscapedAppend` | std/StringTools.hx:158-177 | Characters are escaped one by one |
| `Html.AmpersandsBeginEntities` | std/StringTools.hx:147-157 | Every ampersand of the escaped string begins one of the five entities |
| `Html.NoMarkup` | std/StringTools.hx:147-157 | The escaped string holds no angle brackets, and no quotes where they are escaped too |
| `UnicodeString.Validate` | std/UnicodeString.hx:48-111 | True exactly for UTF8-octets of section 4 of RFC 3629, surrogates excluded by the packed comparison |
| `UnicodeString.OctetsIffScalars` | std/UnicodeString.hx:41-113 | That grammar spells exactly the UTF-8 of Unicode scalar values |
| `UnicodeString.AgainstUtf8` | std/UnicodeString.hx:41-113 | Of what `UTF8.validate` accepts, the strings with only scalar values, and no others |
| `Utf16.SubstrUnits` | std/UnicodeString.hx:305-360 | On any string: the code point slice the documentation describes, each code point whole; for a negative `len` what the code does |
| `Utf16.SubstrToEnd` | std/UnicodeString.hx:305-326 | What stands before the position, from the end if it is negative, and the slice make the whole; a position before the start gives all, one past the end nothing |
| `Utf16.SubstrOfLength` | std/UnicodeString.hx:305-334 | With a length the slice is a beginning of that one, as long as asked for or else all of it; and what the code does with a negative length |
| `Utf16.SubstringUnits` | std/UnicodeString.hx:362-418 | The same for `substring`, with its clamping and its swap |
| `Utf16.SubstringBetween` | std/UnicodeString.hx:362-391 | What stands before, the slice and what stands behind make the whole; the indices may be swapped, negative ones are 0, and those past the end are the end |
| `Utf16.SubstringToEnd` | std/UnicodeString.hx:362-391 | The same without an end |
| `Utf16.Scan` | std/UnicodeString.hx:335-359 | The loop both share: from a code point on, at most so many |
| `Utf16.CharCodeAt` | std/UnicodeString.hx:167-188 | The value of the code point at a code point index, null for exactly the others |
| `Utf16.Length` | std/UnicodeString.hx:420-426 | The number of code points of any string |
| `Utf16.StepOver` | std/StringTools.hx:633-643 | A code point is stepped over whole, by its value alone, whatever is read past the end |
| `Utf16.LeadingTakesNext` | std/StringTools.hx:633-643 | In any string a leading surrogate and the unit behind it are one code point above the first plane, every other unit is one by itself |
| `Utf16.PiecesOfText` | std/StringTools.hx:633-643 | In well-formed text the code points read are the encoded ones |
| `Utf16.SlicesOfText` | std/UnicodeString.hx:305-418 | On well-formed text the slices are the encodings of the slices of the code point sequence |
| `Utf16.ReadsBackIff` | std/StringTools.hx:633-643 | Encoding the values read gives every code point of a string back if and only if it is well-formed |

## Left out

- OCaml memory: page tables, young and old heaps, atomic stores and infix pointers; a block is in the heap or not, and has one colour.
- `DUMP` and `DBG` output, the `NULL` case of the `headers` pointer of `c_objsize`, and failing allocation.
- `c_objsize` when an involved block is blue at the start: the restoring walk then reads more colours than were logged (`ObjSize.ReadsMatchWritesIff`), and what a log that is used up does depends on assertions being compiled in.
- The text of XML error messages, and the order and the special fields of attribute objects; attributes are a map.
- XML text behind an embedded NUL: the parser sees a C string.
- `UTF8.out_of_range` and `UTF8.compare_index`: one comparison and one subtraction.
- `SysTools.quoteUnixArg`: one replacement between single quotes.
- Process creation, pipes and environment lookup around the command line; the shell's name is a parameter.
- Freeing the chunks in `buffer_to_string`: the model does not say that the buffer is gone.
- The meaning of an escaped newline to the Windows shell; `Unescaped` only drops carets.
- WinArgs.CommandLine: is stated for lines below 2^30 characters; from there on the growth loop of the buffer ends only where the newest chunk has room.
- WinArgs.RawCommandLine: the same bound, for the same reason.
- WinArgs.AppendQuoted: the same bound on the total.
- WinArgs.AppendNext: the same bound on the total.
- StringBuffer.Buffer.AppendNew: is stated for totals at which the growth loop ends; a method that does not end has no result to state.
- StringBuffer.Buffer.AppendSub: totals from 2^30 on only where the text fits the newest chunk, and none above the largest `int`.
- StringBuffer.Buffer.AppendStr: the same bound.
- StringBuffer.Buffer.AppendChar: the same bound.
- Base64.DecodeString: takes decoding tables with entries from -1 to 63, as the interface describes them; other entries would spill into other bits.
- `str_encode` and `str_decode` of base64.ml, which differ only in the string type, and the channel type of extlib; a channel is what has been read or written.
- `Rbuffer.add_channel`, `output_buffer` and `print`: input and output.
- Html.HtmlEscape: works on code points, so unpaired surrogates of UTF-16 targets are not covered; `split` is the leftmost splitting all targets share.
- `UnicodeString.indexOf` and `lastIndexOf`: the restart after a partial match does not back up, so `aab` is not found in `aaab`; they are not part of this model.
- `UnicodeString.charAt`, which is `charCodeAt` and a conversion, and the RawNative branch of `validate`, which throws.
- `multiArray.ml`, `UInt`, `Lambda`, `DateTools`, the PHP polyfills and the `ilib` tools: plain data conversion that would add only easy members.
- zlib, mbedtls and pcre2 stubs: foreign calls whose behaviour is not in the repository.
