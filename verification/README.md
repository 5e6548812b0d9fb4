# Verified models of the vendor test suite

Dafny models of the parts of the test suite that carry the most state, branching or
arithmetic, with proofs of what they guarantee. Each file is one module; the modules of one
component build on each other in the order given here.

**Shared** (`Options`, `Counting`). Optional values, and occurrences in lists.

**Coverage files** (`GcovIo`, `GcdaCursor`, `GcdaWalk`, `GcdaFile`, `GcdaTermination`,
`GcdaFormat`, `GcdaNesting`, `GcdaParser`). The reader keeps a refilling window over a file
of 32-bit words and seeks with 32-bit byte offsets; the parser walks tagged records on top
of it. The reader is proved indistinguishable from an unbuffered cursor for every script of
reads and synchronisations. The parser is proved to return the identifiers of the function
records for every written file, in both byte orders, cut anywhere behind the header or
followed by a zero word and anything else. Record ends wrap modulo 2^30 words, so the record
loop can run for ever; it ends exactly when no position is visited twice. Files are below
2^30 words (4 GB): from that size on the result of a synchronisation depends on what happens
to be buffered, which is proved as an equivalence. File offsets are taken to be 64 bits wide
in the C library.

**Framed messages** (`Text`, `Framing`, `FramedSocket`). A decimal byte count, a newline and
the body, sent and received with short reads and writes. Bytes are modelled as characters.
A message survives exactly if its length and one more fit a signed 32-bit integer and its
header left in one piece; the header is written by a single call whose count is not looked at.

**C++ type names** (`CppTypeText`, `CppTypePrinter`). The printer for interface variables,
whose text is balanced and determines the type exactly for unambiguous names.

**Test lists** (`Tokens`, `TestListParser`, `TestListFormat`). Files of test specifiers and
their parsers, with the round trip from specifiers to files and back.

**Library paths** (`LibraryPath`). The scan from a type name to the path of a translation
library.

**Test results** (`TestResults`, `TestResultObject`). Six lists of records, with
conservation over every history of operations and merges.

**Agent sessions** (`AgentSession`, `AgentHandler`). Runner, agent and driver sessions as a
transition system over reliable channels; every interleaving keeps responses matched to
commands. The agent's handler object, which calls drivers synchronously, is proved to make
one of these runs.

**Registries** (`HandleRegistry`, `MemoryRegistry`), **native data** (`NativeData`) and
**shell relay** (`ShellRelay`). Handle and memory tables, the conversion of variable
specifications to native values, and shell commands from the host to the driver and back.

Where the code disagrees with its documentation, or does what its callers would not expect,
the models follow the code and say exactly when it matters:

- `removeRecord` documents a flag that keeps requested records; the code ignores it. The
  requested list is kept exactly if it holds no record of the name
  (`TestResults.RemovalDropsRequested`, `TestResultObject.TestResult.RemoveRecord`).
- Reporting records that were not executed adds them again each time it is called, unless
  nothing is missing (`TestResults.ReportTwiceIff`).
- Class results and merges can put two records of one name among the executed, exactly if
  the history executes a name twice (`TestResults.UniqueIffExecutedOnce`).
- A shell command without a driver gets no response although the session goes on, while any
  other relayed command without a driver ends the session
  (`AgentSession.SkippedIffNoClient`); neither can happen once a driver client is set.
- A shell driver drops commands it does not know without answering, which leaves the agent
  waiting for ever (`AgentSession.AnsweredIffReacts`, `AgentSession.StrandedForever`).
- A response the shell driver could not send leaves the agent waiting, unless the connection is
  gone (`ShellRelay.BlockedIff`).
- A registered memory descriptor is taken over even if the registry owns it already, and is
  then freed twice (`MemoryRegistry.FreedOnceIffFresh`).

## Model

| member | source | states |
|---|---|---|
| GcovIo.SwapReversesBytes | drivers/hal/libcodecoverage/GcdaFile.h:79-85 | the two-step bit swap reverses the four bytes of a word, is its own inverse, and fixes zero only as zero |
| GcovIo.TagMaskIsOnes | drivers/hal/libcodecoverage/gcov_basic_io.h:36-36 | the mask of a non-zero tag is its lowest set bit and everything below it; halved, one bit per trailing zero |
| GcovIo.TagDepth | drivers/hal/libcodecoverage/GcdaParser.cpp:74-81 | the depth of a non-zero tag lies in 1..4, so it indexes the four-entry tag stack |
| GcovIo.SubtagMeaning | drivers/hal/libcodecoverage/gcov_basic_io.h:39-41 | the subtag test holds if and only if the subtag has exactly eight fewer trailing zeros and agrees with the tag above the tag's lowest set bit |
| GcovIo.AgreeOutsideMeaning | drivers/hal/libcodecoverage/gcov_basic_io.h:41-41 | the exclusive-or form of the agreement test means equality of the words outside the mask |
| GcdaCursor.WindowTest | drivers/hal/libcodecoverage/GcdaFile.cpp:60-61 | the unsigned comparison holds if and only if the target lies in the buffered window |
| GcdaCursor.ByteOffsetLanding | drivers/hal/libcodecoverage/GcdaFile.cpp:64-65 | shifting a word position to a 32-bit byte offset and back drops its top two bits |
| GcdaCursor.SyncIgnoresBufferIff | drivers/hal/libcodecoverage/GcdaFile.cpp:56-67 | synchronising is independent of the buffered window for all windows and targets if and only if the file has fewer than 2^30 words |
| GcdaFile.GcdaFile.Open | drivers/hal/libcodecoverage/GcdaFile.cpp:29-41 | opening succeeds once and leaves an unswapped reader without error at position zero |
| GcdaFile.GcdaFile.Close | drivers/hal/libcodecoverage/GcdaFile.cpp:43-54 | closing keeps the error code and the byte order and returns the error code |
| GcdaFile.GcdaFile.Allocate | drivers/hal/libcodecoverage/GcdaFile.cpp:91-99 | the buffer grows to twice its size plus the request and keeps its contents |
| GcdaFile.GcdaFile.Compact | drivers/hal/libcodecoverage/GcdaFile.cpp:108-111 | sliding the unread words to the front does not move the cursor |
| GcdaFile.GcdaFile.Fill | drivers/hal/libcodecoverage/GcdaFile.cpp:115-118 | a refill is short only at the end of the file and keeps the window equal to the file |
| GcdaFile.GcdaFile.Refill | drivers/hal/libcodecoverage/GcdaFile.cpp:107-124 | after a refill the requested words are buffered if and only if the file still has them |
| GcdaFile.GcdaFile.ReadWords | drivers/hal/libcodecoverage/GcdaFile.cpp:101-128 | reading any number of words for which the byte count of the buffer fits 32 bits is the read of the unbuffered cursor, including the loss of buffered words after a request beyond the end |
| GcdaFile.GcdaFile.ReadUnsigned | drivers/hal/libcodecoverage/GcdaFile.cpp:84-89 | the decoded word at the cursor, or zero without moving at the end of the file |
| GcdaFile.GcdaFile.Sync | drivers/hal/libcodecoverage/GcdaFile.cpp:56-67 | moving inside the window and seeking are the same move of the unbuffered cursor, for all 32-bit arguments |
| GcdaFile.GcdaFile.MoveTo | drivers/hal/libcodecoverage/GcdaFile.cpp:60-66 | both branches leave the window equal to the file and the cursor at the target modulo 2^30 |
| GcdaFile.GcdaFile.Magic | drivers/hal/libcodecoverage/GcdaFile.cpp:130-139 | the byte-order flag is set exactly for the swapped magic |
| GcdaFile.GcdaFile.PositionIsAbs | drivers/hal/libcodecoverage/GcdaFile.h:69-71 | the 32-bit position never wraps: it is the position of the unbuffered cursor |
| GcdaFile.GcdaFile.Replay | drivers/hal/libcodecoverage/GcdaFile.cpp:56-128 | every script of reads and synchronisations observes the same words and positions as the unbuffered cursor |
| GcdaWalk.CoverageIgnoresByteOrder | drivers/hal/libcodecoverage/GcdaFile.cpp:130-139 | byte-swapping every word of any file changes neither the result nor whether parsing ends |
| GcdaWalk.SwappedMagic | drivers/hal/libcodecoverage/GcdaParser.cpp:29-42 | swapping a file flips the byte order it announces, and a file without magic stays without |
| GcdaWalk.TagsNonZero | drivers/hal/libcodecoverage/GcdaParser.cpp:66-91 | every tag a walk meets is a non-zero word of the file, so its depth is defined |
| GcdaWalk.VisitsIffTag | drivers/hal/libcodecoverage/GcdaParser.cpp:69-70 | the loop goes on at a position exactly if the word there is not zero, and the end of the file reads as zero |
| GcdaTermination.HaltsIffNoRevisit | drivers/hal/libcodecoverage/GcdaParser.cpp:66-114 | the record loop ends if and only if no position is visited twice, and if and only if it ends within one iteration more than the file has words |
| GcdaTermination.BudgetSuffices | drivers/hal/libcodecoverage/GcdaParser.cpp:66-114 | beyond one iteration more than the file has words, further iterations change nothing |
| GcdaTermination.RevisitNeverHalts | drivers/hal/libcodecoverage/GcdaParser.cpp:66-114 | after a repeated position every later iteration takes place |
| GcdaTermination.FittingRecordsHalt | drivers/hal/libcodecoverage/GcdaParser.cpp:66-114 | if no record met ends beyond the limit, positions rise and the loop ends within the remaining words |
| GcdaTermination.LoopingFileNeverHalts | drivers/hal/libcodecoverage/GcdaParser.cpp:66-114 | a five-word file whose record length wraps to its own start is parsed for ever |
| GcdaFormat.WalkReadsRecords | drivers/hal/libcodecoverage/GcdaParser.cpp:66-114 | walking written records, cut anywhere or ended by a zero tag, collects the identifiers of the function records present and ends |
| GcdaFormat.ParseInvertsWrite | drivers/hal/libcodecoverage/GcdaParser.cpp:117-128 | parsing inverts writing in both byte orders for files cut anywhere behind the header, and for files whose records are followed by a zero word and anything at all |
| GcdaFormat.WrittenFileParses | drivers/hal/libcodecoverage/GcdaParser.cpp:117-128 | on such a file the unbounded loop ends and leaves exactly these identifiers |
| GcdaFormat.ExpectedIgnoresRest | drivers/hal/libcodecoverage/GcdaParser.cpp:69-70 | what follows the zero word has no influence on the identifiers |
| GcdaFormat.ExpectedComplete | drivers/hal/libcodecoverage/GcdaParser.h:51-60 | in a complete file the identifiers are exactly the second payload words, in order, if and only if no function record has a payload of one word |
| GcdaFormat.SmallFileParses | drivers/hal/libcodecoverage/GcdaParser.cpp:53-128 | a file of eight words, written out with its magic and function tag, parses to its identifier |
| GcdaNesting.MeasureDepth | drivers/hal/libcodecoverage/GcdaParser.cpp:74-81 | the mask loop ends with depth four minus the number of whole zero bytes at the low end, and calls a tag invalid exactly if its trailing zeros do not fill whole bytes |
| GcdaNesting.CheckTag | drivers/hal/libcodecoverage/GcdaParser.cpp:84-91 | a tag is judged against the tag met immediately before it, which the stack holds at its depth |
| GcdaNesting.DiagnoseNext | drivers/hal/libcodecoverage/GcdaParser.cpp:84-91 | the reports for a longer walk are those for the shorter one and the report for the new tag against its predecessor |
| GcdaNesting.DiagnoseMeaning | drivers/hal/libcodecoverage/GcdaParser.cpp:74-91 | a tag is reported as invalid exactly if its trailing zeros do not fill whole bytes, and as wrongly nested exactly if it has fewer whole zero bytes than its predecessor without lying one byte below it and agreeing with it above its lowest set bit |
| GcdaNesting.ReportsAfter | drivers/hal/libcodecoverage/GcdaParser.cpp:66-91 | after any walk exactly the misaligned tags are reported as invalid and exactly those misnested under their predecessor as wrongly nested |
| GcdaNesting.SilentIffWellNested | drivers/hal/libcodecoverage/GcdaParser.cpp:66-91 | nothing is reported if and only if every tag is aligned and every deeper tag lies right below its predecessor |
| GcdaNesting.CountersBelowFunction | drivers/hal/libcodecoverage/gcov_basic_io.h:50-57 | a function record followed by its counters is silent; counters under another function's prefix are reported |
| GcdaParser.GcdaRawCoverageParser.TagFunction | drivers/hal/libcodecoverage/GcdaParser.h:51-60 | a non-empty function record contributes the word behind the first payload word, zero beyond the end |
| GcdaParser.GcdaRawCoverageParser.ReadHeader | drivers/hal/libcodecoverage/GcdaParser.cpp:67-73 | tag, length and payload position of a record, also when the file ends behind the tag |
| GcdaParser.GcdaRawCoverageParser.CheckNesting | drivers/hal/libcodecoverage/GcdaParser.cpp:74-91 | the mask loop and the stack of tags report exactly what the tag calls for, with every stack access in bounds |
| GcdaParser.GcdaRawCoverageParser.Payload | drivers/hal/libcodecoverage/GcdaParser.cpp:93-107 | whatever a record handler read, the reader ends up behind the record |
| GcdaParser.GcdaRawCoverageParser.ParseRecord | drivers/hal/libcodecoverage/GcdaParser.cpp:66-114 | one iteration is one step of the walk over the decoded words, and what it reports on nesting is what its tag calls for after the tags met before |
| GcdaParser.GcdaRawCoverageParser.ParseBodyAtMost | drivers/hal/libcodecoverage/GcdaParser.cpp:66-114 | on any file the first iterations of the loop collect the identifiers and tags of the walk, wherever buffer refills fall |
| GcdaParser.GcdaRawCoverageParser.ParseBody | drivers/hal/libcodecoverage/GcdaParser.cpp:53-115 | where the walk ends, the unbounded loop behind the stamp collects its identifiers, meets its tags and reports each tag that is invalid or wrongly nested under its predecessor |
| GcdaParser.GcdaRawCoverageParser.ParseMagic | drivers/hal/libcodecoverage/GcdaParser.cpp:29-51 | a file is accepted exactly if its first word is the magic in either byte order, which is then the order of the reader; otherwise it is closed |
| GcdaParser.GcdaRawCoverageParser.Parse | drivers/hal/libcodecoverage/GcdaParser.cpp:117-128 | on every file whose walk ends the result is the coverage of its words and the reports are those for its tags; empty when the file cannot be opened or is no coverage file |
| GcdaParser.GcdaRawCoverageParser.ParseAtMost | drivers/hal/libcodecoverage/GcdaParser.cpp:117-128 | on every file, also where the loop runs for ever, the identifiers of any number of first iterations and whether the loop has ended |
| Text.AtoiOfDecimal | drivers/libdrivercomm/VtsDriverCommUtil.cpp:136-136 | reading back a decimal header gives the number written |
| Framing.ReceiveAfterHeader | drivers/libdrivercomm/VtsDriverCommUtil.cpp:116-153 | a written header leads to the body length it encodes; lengths of 2^31 - 1 and more leave defined behaviour |
| Framing.ReceiveSigned | drivers/libdrivercomm/VtsDriverCommUtil.cpp:116-153 | what a header with any number and either terminator leads to: a body, a failure, a refusal without memory, or undefined behaviour |
| Framing.SentShort | drivers/libdrivercomm/VtsDriverCommUtil.cpp:88-107 | the bytes of a short message, written out |
| Framing.RoundTripIff | drivers/libdrivercomm/VtsDriverCommUtil.cpp:83-154 | a message comes back as sent, with every later byte left in place, if and only if its length and one more fit a signed 32-bit integer |
| Framing.TornHeaderIff | drivers/libdrivercomm/VtsDriverCommUtil.cpp:88-95 | the message is received if and only if its header left completely |
| Framing.MessageBehindHeader | drivers/libdrivercomm/VtsDriverCommUtil.cpp:119-134 | whatever precedes a received body ends in a line terminator or fills the header buffer |
| Framing.StreamRoundTrip | drivers/libdrivercomm/VtsDriverCommUtil.cpp:83-154 | every list of messages is recovered from one stream, in order, with no byte crossing from one message into another |
| Framing.PyIntOfDecimal | runners/host/tcp_client/vts_tcp_client.py:755-756 | the host reads back every decimal header |
| Framing.PyReceiveCounts | runners/host/tcp_client/vts_tcp_client.py:754-758 | the host takes as many bytes as the header says, or what there is when the stream ends before |
| Framing.EndsInteroperate | runners/host/tcp_client/vts_tcp_client.py:740-758 | host and device write the same bytes and receive each other's messages |
| FramedSocket.VtsDriverCommUtil.VtsSocketSendBytes | drivers/libdrivercomm/VtsDriverCommUtil.cpp:83-108 | for every schedule of short writes a successful send writes the part of the header that the first write takes and the whole body; without a failing write the send succeeds |
| FramedSocket.VtsDriverCommUtil.VtsSocketRecvBytes | drivers/libdrivercomm/VtsDriverCommUtil.cpp:110-154 | for every schedule of short reads the loops compute the reference decoding of the stream and leave exactly the rest; lengths of -2 and below give an empty string and leave the bytes behind the header |
| FramedSocket.VtsDriverCommUtil.RecvHeader | drivers/libdrivercomm/VtsDriverCommUtil.cpp:116-134 | the header is everything before the first terminator, which is consumed, or the first 128 bytes if none of them is one |
| FramedSocket.VtsDriverCommUtil.RecvBody | drivers/libdrivercomm/VtsDriverCommUtil.cpp:143-153 | short reads collect exactly the announced bytes, or fail at the end of the stream |
| FramedSocket.VtsDriverCommUtil.VtsSocketRecvMessage | drivers/libdrivercomm/VtsDriverCommUtil.cpp:171-185 | a received message counts if and only if it is not empty and can be parsed |
| FramedSocket.Transfer | drivers/libdrivercomm/VtsDriverCommUtil.cpp:83-185 | for every list of messages, every interleaving of sends and receives and every schedule of short reads and writes, if all sends succeed and headers leave whole, exactly the list arrives; it arrives whenever each write takes at least eleven bytes or all it is given |
| CppTypeText.InjectiveIffUnambiguous | compilation_tools/vtsc/VtsCompilerUtils.cpp:156-345 | for any set of names the text determines the type, its dimensions and its references, for all types over the names, if and only if no name reads like a larger type or like a type followed by dimensions |
| CppTypeText.TextDetermines | compilation_tools/vtsc/VtsCompilerUtils.cpp:156-345 | over unambiguous names two types that print alike are equal, read from the right end of the text |
| CppTypeText.ArgsDetermine | compilation_tools/vtsc/VtsCompilerUtils.cpp:207-213 | over unambiguous names what stands between the brackets determines the element and the dimensions, also negative ones |
| CppTypeText.CleanNamesUnambiguous | compilation_tools/vtsc/VtsCompilerUtils.cpp:156-345 | names without brackets and commas that do not end like a reference are unambiguous |
| CppTypeText.TextKeepsDepth | compilation_tools/vtsc/VtsCompilerUtils.cpp:192-216 | a printed type keeps the bracket depth of its surroundings |
| CppTypeText.DimsReadBack | compilation_tools/vtsc/VtsCompilerUtils.cpp:208-213 | cut at its commas the text of dimensions has one part per dimension, which reads as its number |
| Text.AtoiOfSigned | compilation_tools/vtsc/VtsCompilerUtils.cpp:210-210 | a printed size reads back as the number |
| CppTypePrinter.GetCppVariableType | compilation_tools/vtsc/VtsCompilerUtils.cpp:156-345 | the printer returns the text of the shape of the message with the const decoration of its kind, and nothing exactly where the original exits |
| CppTypePrinter.UnwindArray | compilation_tools/vtsc/VtsCompilerUtils.cpp:200-206 | the loop ends at the element type under all nested arrays with their declared sizes outermost first |
| CppTypePrinter.PrintSizes | compilation_tools/vtsc/VtsCompilerUtils.cpp:208-213 | the loop lists the signed sizes separated by commas |
| CppTypePrinter.PrintArray | compilation_tools/vtsc/VtsCompilerUtils.cpp:198-215 | nested arrays print as one array type with the declared sizes, whatever the numbers of elements |
| CppTypePrinter.UnwindRef | compilation_tools/vtsc/VtsCompilerUtils.cpp:319-325 | the loop ends at the target of a chain of references with its length |
| CppTypePrinter.PrintRef | compilation_tools/vtsc/VtsCompilerUtils.cpp:317-333 | a chain of references prints its target with one star each |
| CppTypePrinter.RefShape | compilation_tools/vtsc/VtsCompilerUtils.cpp:319-331 | counting references in a loop gives the shape of the nested references |
| CppTypePrinter.PrintElement | compilation_tools/vtsc/VtsCompilerUtils.cpp:192-197 | vectors and queues print their first element inside their template |
| CppTypePrinter.PrintInterface | compilation_tools/vtsc/VtsCompilerUtils.cpp:258-286 | callbacks and interfaces print a strong pointer to their type, and need one |
| CppTypePrinter.SizesReadBack | compilation_tools/vtsc/VtsCompilerUtils.cpp:198-215 | arrays in arrays, whatever further elements stand at each level, print their element once and behind it parts that read as the declared sizes, outermost first |
| CppTypePrinter.FifteenIntegers | compilation_tools/vtsc/VtsCompilerUtils.cpp:198-215 | the text of an array of fifteen integers, written out |
| CppTypePrinter.PrintedAround | compilation_tools/vtsc/VtsCompilerUtils.cpp:192-197 | vectors and queues print their template around the text of their first element, whatever follows it |
| CppTypePrinter.PrintedReference | compilation_tools/vtsc/VtsCompilerUtils.cpp:317-333 | a reference prints the text of its target and one star, with const or without |
| CppTypePrinter.PrintedPointers | compilation_tools/vtsc/VtsCompilerUtils.cpp:258-286 | callbacks and interfaces print alike, and only with a predefined type |
| CppTypePrinter.ConstText | compilation_tools/vtsc/VtsCompilerUtils.cpp:340-344 | what const adds: nothing to void and references, a prefix to pointers, a prefix and an ampersand to all else |
| CppTypePrinter.IntegersKeepNames | compilation_tools/vtsc/VtsCompilerUtils.cpp:120-154 | integer scalars print under their own names |
| CppTypePrinter.RenamedNumbers | compilation_tools/vtsc/VtsCompilerUtils.cpp:120-154 | booleans and floating-point scalars print as the C++ types |
| CppTypePrinter.RenamedPointers | compilation_tools/vtsc/VtsCompilerUtils.cpp:120-154 | pointer scalars and strings print as the C++ types |
| CppTypePrinter.FixedTexts | compilation_tools/vtsc/VtsCompilerUtils.cpp:160-163 | void and pointers print one fixed text, unknown types none |
| CppTypePrinter.StringText | compilation_tools/vtsc/VtsCompilerUtils.cpp:174-178 | the text of a string, written out |
| CppTypePrinter.HandleText | compilation_tools/vtsc/VtsCompilerUtils.cpp:270-274 | the text of a handle, written out |
| CppTypePrinter.MemoryText | compilation_tools/vtsc/VtsCompilerUtils.cpp:292-296 | the text of a memory object, written out |
| CppTypePrinter.NamesInOrder | compilation_tools/vtsc/VtsCompilerUtils.cpp:179-256 | a predefined name counts only for a type without values, and comes before the type's own names |
| CppTypePrinter.PrintedAlikeIffSameShape | compilation_tools/vtsc/VtsCompilerUtils.cpp:156-345 | messages over unambiguous names print alike if and only if they have the same shape, dimensions and names |
| CppTypePrinter.PrintsApartIffUnambiguous | compilation_tools/vtsc/VtsCompilerUtils.cpp:156-345 | for any set of names the printed text determines the type of every message over them if and only if the names are unambiguous |
| CppTypePrinter.ShapesAreTypes | compilation_tools/vtsc/VtsCompilerUtils.cpp:198-215 | every message that prints describes a type in which arrays are flattened and only arrays have dimensions |
| CppTypePrinter.MessageDescribes | compilation_tools/vtsc/VtsCompilerUtils.cpp:156-345 | every such type is described by a message |
| CppTypePrinter.PrintedBalanced | compilation_tools/vtsc/VtsCompilerUtils.cpp:156-345 | with or without const, printed types have balanced brackets |
| CppTypePrinter.UncleanNamesCollide | compilation_tools/vtsc/VtsCompilerUtils.cpp:164-168 | a predefined name with brackets can print like a vector |
| TestListParser.ParseTestFile | runners/host/config_parser.py:187-210 | the in-place loop computes the entries of the stripped non-blank lines of the text of a file |
| TestListParser.OpenByLast | runners/host/config_parser.py:203-203 | exactly a colon or a comma at its end leaves an entry open |
| TestListParser.EntriesSound | runners/host/config_parser.py:198-207 | for any file the entries together are the stripped non-blank lines together, none is empty, and only the last may end in a colon or comma |
| TestListParser.ParseOneTestSpecifier | runners/host/config_parser.py:145-184 | a specifier is accepted exactly as the reference says, with its error cases |
| TestListParser.ParseTestList | runners/host/config_parser.py:111-124 | a list is accepted if all its specifiers are, and keeps their order |
| TestListFormat.ParseOfRender | runners/host/config_parser.py:161-184 | parsing inverts writing for every specifier that can be written |
| TestListFormat.ParsedIsValid | runners/host/config_parser.py:161-184 | whatever is accepted can be written and reads back the same |
| TestListFormat.PaddingIgnored | runners/host/config_parser.py:172-183 | white space around the names of test cases changes nothing |
| TestListFormat.AcceptedIff | runners/host/config_parser.py:161-184 | a text is accepted as a specifier if and only if it is its class alone, or the class, a colon and its cases separated by commas with any white space around each; every other text is refused |
| TestListFormat.ListAcceptedIff | runners/host/config_parser.py:111-124 | a list is accepted if and only if every text is, and stands for the same specifiers in order |
| TestListFormat.StripPadding | runners/host/config_parser.py:200-200 | white space around a line is irrelevant |
| TestListFormat.PiecesOfFile | runners/host/config_parser.py:197-202 | splitting the text of a file into lines, stripping them and dropping blank ones gives back exactly the pieces laid out, with or without a line break at the end |
| TestListFormat.FileRoundTrip | runners/host/config_parser.py:111-207 | the text of a file that holds specifiers with line breaks only behind colons and commas, all-space lines anywhere and white space around every piece is read back to the specifiers |
| TestListFormat.WritableIff | runners/host/config_parser.py:197-207 | a specifier can be laid out on lines if and only if its text has no line break and no white space at its ends |
| LibraryPath.SharedLibPath | drivers/resource/resource_manager/VtsResourceManager.cpp:674-715 | the scan ends and yields the path of the components before the first version, for every string |
| LibraryPath.ReplaceVersion | drivers/resource/resource_manager/VtsResourceManager.cpp:695-705 | the version replaces the last separator, with a dot for its underscore and without its letter |
| LibraryPath.VersionParts | drivers/resource/resource_manager/VtsResourceManager.cpp:683-683 | a version component is a letter, digits, an underscore and digits |
| LibraryPath.FailsIffNoVersion | drivers/resource/resource_manager/VtsResourceManager.cpp:712-713 | loading fails if and only if no component ended by a double colon is a version |
| LibraryPath.ScanFindsLibrary | drivers/resource/resource_manager/VtsResourceManager.cpp:674-715 | every name made of package components, a version and a tail leads to base, components joined by dots, version and suffix |
| LibraryPath.EmptiesIgnored | drivers/resource/resource_manager/VtsResourceManager.cpp:686-691 | empty components change nothing wherever they stand |
| LibraryPath.KnownPath | drivers/resource/resource_manager/VtsResourceManager.cpp:678-715 | the path of a known library, written out |
| LibraryPath.PathsDistinct | drivers/resource/resource_manager/VtsResourceManager.cpp:678-715 | for components without dots paths are equal if and only if package and version are |
| LibraryPath.PathsEqualIff | drivers/resource/resource_manager/VtsResourceManager.cpp:678-715 | whatever the components contain, paths are equal if and only if the dotted packages and the versions are |
| LibraryPath.DotsCollide | drivers/resource/resource_manager/VtsResourceManager.cpp:706-708 | a component with a dot shares its path with two components |
| TestResults.AlwaysConserved | runners/host/records.py:247-423 | after every history of requests, additions, removals, class results, reports and merges the outcome lists hold exactly the executed and the reported records |
| TestResults.ConservedMultisets | runners/host/records.py:247-423 | the same as an equation between multisets |
| TestResults.RemoveConserves | runners/host/records.py:337-361 | removing a test case from all lists keeps the balance |
| TestResults.FileConserves | runners/host/records.py:373-381 | filing an executed record keeps the balance |
| TestResults.ReportConserves | runners/host/records.py:325-335 | reporting missing records keeps the balance |
| TestResults.MergeConserves | runners/host/records.py:262-290 | merging two results keeps the balance |
| TestResults.ListsFollowHistory | runners/host/records.py:247-423 | after any history each of the lists holds, in order, exactly what happened puts there: records enter the lists of their outcome, additions and removals drop a name, reports add the missing ones to the errors, and a merge puts each list behind its namesake |
| TestResults.AddIsExclusive | runners/host/records.py:363-381 | after an addition the record is the only one of its name in any list: once executed, once in the list of its outcome, no longer requested |
| TestResults.ExecutedOnce | runners/host/records.py:337-381 | under additions and removals alone full names stay unique among executed records and nothing is reported |
| TestResults.ExactlyOneBucket | runners/host/records.py:363-381 | under additions and removals alone each executed record is in exactly one outcome list, exactly once |
| TestResults.ClassesRepeat | runners/host/records.py:398-410 | class results can put two records of one name among the executed |
| TestResults.FileUniqueIff | runners/host/records.py:373-410 | filing a record, as an addition or a class result, keeps executed names unique if and only if they were and none is the record's |
| TestResults.MergeUniqueIff | runners/host/records.py:262-290 | merging keeps executed names unique if and only if both sides' are and they share none |
| TestResults.UniqueIffExecutedOnce | runners/host/records.py:247-423 | after any history at all executed names are unique if and only if the history, read by its names alone, executes none twice |
| TestResults.ExecutionsCount | runners/host/records.py:247-423 | the number of executed records of a name follows from the history alone |
| TestResults.ReportRepeats | runners/host/records.py:325-335 | a second report adds the same records again |
| TestResults.ReportTwiceIff | runners/host/records.py:325-335 | a second report changes nothing if and only if nothing is missing |
| TestResults.NothingMissingIff | runners/host/records.py:308-323 | nothing is missing if and only if every requested record has an executed namesake |
| TestResults.MissingMeaning | runners/host/records.py:308-323 | exactly the requested records without an executed namesake are missing |
| TestResults.MissingConcat | runners/host/records.py:308-323 | missing records keep their order and number |
| TestResults.WithoutSameIff | runners/host/records.py:354-361 | removal leaves a list as it is if and only if it holds no record of the name |
| TestResults.RemovalDropsRequested | runners/host/records.py:337-361 | a requested record is dropped although the documented default keeps it |
| TestResultObject.MatchingIndices | runners/host/records.py:355-358 | the indices of the records of one test case, ascending |
| TestResultObject.DeleteMatching | runners/host/records.py:354-361 | deleting by index from the end is an order-preserving filter |
| TestResultObject.TestResult.RemoveRecord | runners/host/records.py:337-361 | all six lists are filtered, whatever the flag says; the requested list stays as it is if and only if it holds no record of the name |
| TestResultObject.TestResult.AddRecord | runners/host/records.py:363-381 | the record replaces all records of its name and enters the list of its outcome |
| TestResultObject.TestResult.GetNonExecutedRecords | runners/host/records.py:308-323 | the nested loops find the requested records whose name was not executed, in order |
| TestResultObject.TestResult.ReportNonExecutedRecord | runners/host/records.py:325-335 | the missing records are appended to the errors |
| TestResultObject.TestResult.PassClass | runners/host/records.py:398-410 | the class record is executed and passed |
| TestResultObject.TestResult.SkipClass | runners/host/records.py:412-423 | the class record is executed and skipped |
| TestResultObject.TestResult.Plus | runners/host/records.py:247-291 | the right operand reports first; every list is concatenated; differing module names raise an error; the smaller timestamp is kept; also for the sum of a result with itself |
| TestResultObject.EarlierIsSmallest | runners/host/records.py:279-283 | the timestamp kept is one of those given and at most both |
| AgentSession.AlwaysInv | agents/hal/AgentRequestHandler.cpp:547-583 | in every interleaving the responses are those of the commands read, except skipped ones and the one under way, and only the session waited for carries a message, for that command |
| AgentSession.StepKeepsInv | agents/hal/AgentRequestHandler.cpp:547-583 | every step of runner, agent and driver keeps the invariant |
| AgentSession.LaunchKeepsInv | agents/hal/AgentRequestHandler.cpp:102-287 | handling a launch, with its fresh session and the wait for a HAL driver's load reply, keeps the invariant |
| AgentSession.RelayKeepsInv | agents/hal/AgentRequestHandler.cpp:289-545 | handling any other command, relayed to the client's session or not, keeps the invariant |
| AgentSession.AnswerKeepsInv | agents/hal/AgentRequestHandler.cpp:69-98 | a command the agent answers itself keeps the invariant |
| AgentSession.SendKeepsInv | agents/hal/AgentRequestHandler.cpp:289-545 | a command sent on to a driver keeps the invariant |
| AgentSession.SkipKeepsInv | agents/hal/AgentRequestHandler.cpp:289-301 | a command without a driver keeps the invariant |
| AgentSession.ServeKeepsInv | drivers/hal/server/SocketServer.cpp:104-236 | a driver serving a request, by a reply or by closing, keeps the invariant |
| AgentSession.ReceiveKeepsInv | agents/hal/SocketClientToDriver.cpp:69-224 | receiving a reply, or finding the driver gone, keeps the invariant |
| AgentSession.ClientStays | agents/hal/AgentRequestHandler.cpp:275-277 | a set driver client stays set, and from then on no command is skipped |
| AgentSession.ClientIsLastLaunch | agents/hal/AgentRequestHandler.cpp:228-277 | after any run the client is the session of the launch that completed last; nothing else changes it |
| AgentSession.RelayReachesClient | agents/hal/AgentRequestHandler.cpp:289-545 | a relayed command goes to the client's session alone, as the request it stands for, and its reply is awaited there |
| AgentSession.RelayedAs | agents/hal/SocketClientToDriver.cpp:69-224 | which request each command is relayed as; no two commands share one, and none is the load request of a launch |
| AgentSession.SkippedIffNoClient | agents/hal/AgentRequestHandler.cpp:289-301 | a command read gets no response if and only if it is relayed and there is no client, and ends the session if and only if it is not a shell command besides |
| AgentSession.OneResponseEach | agents/hal/AgentRequestHandler.cpp:547-583 | from the moment a client is set, in every continuation each command read gets exactly one response before the next is read |
| AgentSession.ResponsesMatch | agents/hal/AgentRequestHandler.cpp:547-583 | after every run responses are in command order, none twice, and a relayed reply belongs to the command it answers |
| AgentSession.AnsweredIffReacts | drivers/hal/server/SocketServer.cpp:104-236 | once served, a request lets the agent go on if and only if the driver replies to it or closes on it |
| AgentSession.HalNeverStrands | drivers/hal/server/SocketServer.cpp:104-236 | waiting on a HAL driver always ends with the driver's next step |
| AgentSession.OpenWithoutShellCommands | drivers/hal/server/SocketServer.cpp:104-236 | in every run without shell commands no driver session is closed |
| AgentSession.ClosedIffServedShell | drivers/hal/server/SocketServer.cpp:104-236 | after any run a driver session is closed if and only if it is that of a HAL driver which served a shell command |
| AgentSession.LostIffServedShell | agents/hal/SocketClientToDriver.cpp:69-224 | after any run a relayed command is written to a driver that has gone if and only if the client is a HAL driver that has served a shell command before |
| AgentSession.StrandedForever | drivers/shell/ShellDriver.cpp:156-169 | an agent waiting on a shell driver that dropped its request stays waiting in every continuation |
| AgentSession.ShellDriverStrands | drivers/shell/ShellDriver.cpp:166-169 | launching a shell driver and calling an API reaches that state |
| AgentHandler.AgentRequestHandler.ProcessOneCommand | agents/hal/AgentRequestHandler.cpp:547-583 | the in-place handler reads one command and, where a driver is needed, sends, lets it serve and receives, exactly as these steps of the transition system do; true is returned exactly if a command was read and the session goes on |
| AgentHandler.AgentRequestHandler.LaunchDriverService | agents/hal/AgentRequestHandler.cpp:102-287 | a launch leaves the state of handling it, serving the load request and receiving its reply; a start that fails only responds |
| AgentHandler.AgentRequestHandler.RelayToDriver | agents/hal/AgentRequestHandler.cpp:289-545 | a relayed command leaves the state of handling it, serving it and receiving its reply; without a client there is no response |
| AgentHandler.AgentRequestHandler.Call | agents/hal/SocketClientToDriver.cpp:69-224 | one request is sent and one reply awaited; a closed driver yields a response without a reply, a silent one leaves the handler waiting |
| AgentHandler.SynchronousIsRun | agents/hal/AgentRequestHandler.cpp:547-583 | whatever the handler does in one command is a run of the transition system, so all guarantees about runs hold for it |
| AgentHandler.HalCommandAnswered | agents/hal/AgentRequestHandler.cpp:547-583 | with a HAL driver as client every command, of any kind, adds exactly one response, for that command and with no other command's reply, and leaves the handler ready, the client set and the invariant intact |
| AgentHandler.LaunchSetsClient | agents/hal/AgentRequestHandler.cpp:228-280 | launching a driver makes its fresh session the client, responds once and leaves the handler ready |
| AgentHandler.LaunchThenCall | agents/hal/AgentRequestHandler.cpp:547-583 | a session that launches a HAL driver and sends any further command answers both and skips nothing |
| HandleRegistry.VtsHidlHandleDriver.Insert | drivers/resource/hidl_handle_driver/VtsHidlHandleDriver.cpp:72-82 | a new handle gets the number of slots as identifier, which was never used before |
| HandleRegistry.VtsHidlHandleDriver.FindHandle | drivers/resource/hidl_handle_driver/VtsHidlHandleDriver.cpp:154-171 | lookup returns the object of the slot and empties the slot on release |
| HandleRegistry.VtsHidlHandleDriver.UnregisterHidlHandle | drivers/resource/hidl_handle_driver/VtsHidlHandleDriver.cpp:84-90 | unregistering frees the object of the slot, or fails for an empty or unknown one |
| HandleRegistry.FreedAsOftenAsTaken | drivers/resource/hidl_handle_driver/VtsHidlHandleDriver.cpp:38-171 | over any run and destruction each address is freed exactly as often as it was handed in |
| HandleRegistry.FreedOnceIffFresh | drivers/resource/hidl_handle_driver/VtsHidlHandleDriver.cpp:38-171 | no object is freed twice if and only if no address was handed in twice |
| HandleRegistry.UnregisteredNeverFound | drivers/resource/hidl_handle_driver/VtsHidlHandleDriver.cpp:84-171 | an unregistered identifier fails every later lookup |
| HandleRegistry.SlotKeepsObject | drivers/resource/hidl_handle_driver/VtsHidlHandleDriver.cpp:135-171 | identifiers are never reused: after any run a slot is empty if it was unregistered and otherwise holds its object |
| HandleRegistry.RegisteredIsFound | drivers/resource/hidl_handle_driver/VtsHidlHandleDriver.cpp:72-171 | a registered object is found under the next identifier until that is unregistered, whatever else happens |
| MemoryRegistry.VtsHidlMemoryDriver.Insert | drivers/resource/hidl_memory_driver/VtsHidlMemoryDriver.cpp:71-76 | an entry gets the size of the table as identifier, and its descriptor is owned from then on |
| MemoryRegistry.VtsHidlMemoryDriver.Allocate | drivers/resource/hidl_memory_driver/VtsHidlMemoryDriver.cpp:41-60 | a new region gets a new identifier, a failed allocation none; a region that cannot be mapped gets an identifier without a region |
| MemoryRegistry.VtsHidlMemoryDriver.RegisterHidlMemory | drivers/resource/hidl_memory_driver/VtsHidlMemoryDriver.cpp:62-77 | a registered descriptor is taken over with its region, or freed at once when it cannot be mapped |
| MemoryRegistry.VtsHidlMemoryDriver.FindMemory | drivers/resource/hidl_memory_driver/VtsHidlMemoryDriver.cpp:153-165 | lookup returns the entry of the identifier, or nothing |
| MemoryRegistry.VtsHidlMemoryDriver.GetHidlMemoryAddress | drivers/resource/hidl_memory_driver/VtsHidlMemoryDriver.cpp:144-151 | the address of a descriptor the registry still owns is given out |
| MemoryRegistry.VtsHidlMemoryDriver.UpdateBytes | drivers/resource/hidl_memory_driver/VtsHidlMemoryDriver.cpp:109-117 | bytes are overwritten in the region of the identifier |
| MemoryRegistry.VtsHidlMemoryDriver.ReadBytes | drivers/resource/hidl_memory_driver/VtsHidlMemoryDriver.cpp:119-127 | bytes are read from the region of the identifier |
| MemoryRegistry.RegionsHoldLastWrites | drivers/resource/hidl_memory_driver/VtsHidlMemoryDriver.cpp:41-165 | after every legal run each byte of a region is the last one written there through any identifier, as the actions alone tell |
| MemoryRegistry.ReadSeesLastWrites | drivers/resource/hidl_memory_driver/VtsHidlMemoryDriver.cpp:119-127 | after every legal run a read through any mapped identifier sees the last writes to its region, where region and writes follow from the actions alone |
| MemoryRegistry.TableFollowsActions | drivers/resource/hidl_memory_driver/VtsHidlMemoryDriver.cpp:41-77 | after every legal run the table gives each identifier the region its action gave it, and there are as many regions and identifiers as the actions made |
| MemoryRegistry.AllocationIsFresh | drivers/resource/hidl_memory_driver/VtsHidlMemoryDriver.cpp:41-60 | a new allocation shares its region with no earlier identifier and holds its bytes |
| MemoryRegistry.RegistrationShares | drivers/resource/hidl_memory_driver/VtsHidlMemoryDriver.cpp:62-77 | a registered identifier reads the region it was mapped to, like every other identifier of that region |
| MemoryRegistry.WriteIsLocal | drivers/resource/hidl_memory_driver/VtsHidlMemoryDriver.cpp:109-117 | a write leaves every other region and all lengths alone |
| MemoryRegistry.AlwaysWellFormed | drivers/resource/hidl_memory_driver/VtsHidlMemoryDriver.cpp:41-77 | after every legal run mapped identifiers have regions that exist |
| MemoryRegistry.FreedOnceIffFresh | drivers/resource/hidl_memory_driver/VtsHidlMemoryDriver.cpp:36-77 | over any run and destruction no descriptor is freed twice if and only if no address was taken over twice |
| MemoryRegistry.OwnAddressFreedTwice | drivers/resource/hidl_memory_driver/VtsHidlMemoryDriver.cpp:62-77 | registering an address the registry gave out itself frees that descriptor twice, whether or not it maps |
| NativeData.GetPythonData | runners/host/tcp_client/vts_tcp_client.py:266-338 | the recursive conversion with its loops computes the reference conversion |
| NativeData.ConvertFields | runners/host/tcp_client/vts_tcp_client.py:295-307 | the loop over struct or union fields builds the dictionary of keys and converted values |
| NativeData.ConvertElements | runners/host/tcp_client/vts_tcp_client.py:324-328 | the loop over elements builds the list of converted values |
| NativeData.SucceedsIffSupported | runners/host/tcp_client/vts_tcp_client.py:266-338 | conversion succeeds if and only if every node below has a supported type and every scalar names a known field |
| NativeData.ConversionMirrors | runners/host/tcp_client/vts_tcp_client.py:266-338 | at every depth the data mirrors the tree: scalars are the values set for their type names or their defaults, lists keep length and order, keys carry the last field that uses them |
| NativeData.LosslessIffDistinct | runners/host/tcp_client/vts_tcp_client.py:294-321 | no field is lost if and only if no two fields have the same key |
| NativeData.LosslessIffNamesApart | runners/host/tcp_client/vts_tcp_client.py:266-338 | no field is lost at any depth if and only if at every record below explicit names are distinct and none is a generated key in use |
| NativeData.NamesApartIffDistinct | runners/host/tcp_client/vts_tcp_client.py:298-305 | keys are distinct if and only if explicit names are distinct and none is a generated key in use |
| NativeData.KeyMeaning | runners/host/tcp_client/vts_tcp_client.py:298-305 | a named field has its name as key, an unnamed one a fixed word and its position counted from one |
| NativeData.ListKeepsOrder | runners/host/tcp_client/vts_tcp_client.py:322-328 | lists keep length and order |
| ShellRelay.ExecuteBatch | drivers/shell/ShellDriver.cpp:137-181 | a batch yields one entry of each kind per command, entry i for command i, and counts non-zero exit codes |
| ShellRelay.ServeBatch | drivers/shell/ShellDriver.cpp:163-181 | one pass of the loop: results go out or not, and failed commands and a failed send are counted |
| ShellRelay.HandleShellCommandConnection | drivers/shell/ShellDriver.cpp:151-198 | each batch before the exit message is executed in order, up to the one with which the connection went, and its results go out if they can be sent; the status is minus the failed commands, sends and close, or -1 without an exit message or a connection |
| ShellRelay.FailuresCount | drivers/shell/ShellDriver.cpp:163-181 | the failures counted are the failed commands of the whole session, numbered through, and the responses that did not arrive |
| ShellRelay.FailedCommandsCount | drivers/shell/ShellDriver.cpp:170-175 | failed commands are as many as there are positions with a non-zero exit code |
| ShellRelay.CreateSystemControlResponse | agents/hal/AgentRequestHandler.cpp:415-444 | the agent copies all lists and translates the code |
| ShellRelay.ExecuteShellCommand | agents/hal/AgentRequestHandler.cpp:386-413 | the agent passes on the driver's reply, or answers with a failure when its call failed |
| ShellRelay.HostResult | runners/host/tcp_client/vts_tcp_client.py:452-474 | the host takes the lists of a successful response; otherwise no output, one error text, the single exit code -1, and the error recorded |
| ShellRelay.RelayBatch | agents/hal/AgentRequestHandler.cpp:386-413 | the agent passes on results, answers with a failure exactly if the connection is gone, and gives no answer exactly if it waits for a response that stayed unsent on an open connection |
| ShellRelay.BlockedIff | agents/hal/SocketClientToDriver.cpp:147-161 | a batch is never answered if and only if the first response that did not arrive, its own or an earlier one, left the connection open |
| ShellRelay.RunSession | runners/host/tcp_client/vts_tcp_client.py:435-474 | end to end, for every list of batches: batch b gives n outputs, errors and exit codes with entry i from the execution of its command i if and only if every response up to its own could be sent; it gives the agent's failure behind a lost connection, and no answer if and only if an unsent response left the connection open; nothing is executed behind the first response that did not arrive |
| ShellRelay.NumberedInOrder | drivers/shell/ShellDriver.cpp:151-181 | executions are numbered through the session in the order of batches and commands |

## Left out

- Protocol buffer serialisation, sockets, processes, shells, dynamic loading and the binder: only the bytes or status values they produce appear, as parameters.
- FMQ queues, the callback server, database client, configuration tables, loggers and measurement code: thin wrappers or foreign libraries that would only add easy members.
- Strings, string arrays and counters in coverage files: no parser reads them; the multi-word reads they use are covered by the reader's read operation.
- The uninitialised state of a coverage reader before its first open is taken to be a closed file.
- Partial words at the end of a coverage file are modelled only as a number of trailing bytes, which never surface.
- GcdaFile.GcdaFile.ReadWords: leaves out requests that need a buffer of 2^30 words or more, whose byte count wraps in the original.
- GcdaFile.GcdaFile.Replay: its scripts read at most 2^26 words at a time, so that every state of the reader can serve every request.
- GcdaParser.GcdaRawCoverageParser.Parse: is stated for files whose walk ends, because the original does not return on any other; ParseAtMost covers the iterations on those.
- The growing read buffer is a sequence field that is reassigned, not memory updated in place.
- Retries after timeouts on the host and the log output of all programs.
- FramedSocket.VtsDriverCommUtil.VtsSocketRecvBytes: is not stated where the original leaves defined behaviour: lengths of -1 and of 2^31 - 1 and more, and a full header buffer of digits. Memory for lengths below that is taken to be available.
- AgentHandler.AgentRequestHandler.ProcessOneCommand: shows a handler blocked on a silent driver as one left waiting; all relay handlers share one method, response contents beyond the request they carry are not modelled, and probe connections that only check for a running driver are not sessions.
- AgentHandler.AgentRequestHandler.LaunchDriverService: takes the outcome of forking, polling and connecting as a parameter.
- AgentHandler.AgentRequestHandler.RelayToDriver: stands for all eight relay handlers, without the contents of their responses.
- AgentHandler.AgentRequestHandler.Call: lets the driver serve inside the call, and carries request numbers instead of contents.
- AgentSession.OneResponseEach: takes it that writing to a driver that has gone fails without ending the agent by a signal; when that happens is proved (AgentSession.LostIffServedShell).
- AgentHandler.HalCommandAnswered: takes the same for granted.
- ShellRelay.RunSession: takes the same for granted behind a lost connection; a host that gets no answer is shown after its last timeout.
- FramedSocket.Transfer: starts a receive when a whole message is there; a receive that starts earlier waits, and sees the same bytes in other portions, which the schedules of short reads cover.
- TestResultObject.TestResult.ReportNonExecutedRecord: does not model the times and the error text set on each reported record.
- Test records carry identity and names; the outcome enters as an argument when a record is added, and the times, details and tables of a record are not modelled.
- Handle payloads and the use of a handle outside the lock; the claims are about the registry.
- MemoryRegistry.VtsHidlMemoryDriver.UpdateBytes: is stated for writes inside a mapped region, because the original copies unchecked and anything else overwrites foreign memory or follows a null pointer.
- MemoryRegistry.VtsHidlMemoryDriver.ReadBytes: is stated for reads inside a mapped region, for the same reason.
- NativeData.SucceedsIffSupported: does not model scalar type names that happen to name another attribute of the message class.
- Regions of memory shared with processes that are not modelled can change at any time.
