# Verified model of async2

async2 is a SourceMod extension that gives game-server scripts HTTP and WebSocket clients, JSON,
HJSON and MessagePack, reference-counted data trees, linked lists, an LRU cache and a clock. This
project models the parts of it that carry the most state and branching, in Dafny, and proves what
they are for. Nothing here was executed; every statement is checked by the Dafny verifier only
(`dafny verify dfyconfig.toml`).

How it is laid out:

| files | what they hold |
|---|---|
| `ByteStrings`, `DataNodes`, `Ascii`, `Libc`, `LibcWitness`, `Cells`, `Limits` | bytes, trees in memory (`Node`, with iteration order) and their content (`Value`), characters, the C library calls as a parameter and something that meets what is assumed of them, script cells |
| `MsgPackCodec`, `MsgPackStreams`, `MsgPackRoundTrip`, `MsgPackLimits`, `MsgPackBudgets`, `MsgPackSettled`, `MsgPackNormalForm`, `MsgPackFormats`, `MsgPackReads`, `MsgPackOnly` | MessagePack as functions, the writer and reader that work in place, their laws, and the formats of the specification, which the reader accepts exactly |
| `JsonText`, `JsonWriter`, `HjsonSyntax`, `HjsonScanners`, `HjsonReader`, `HjsonTokens`, `HjsonRoundTrip`, `JsonLayout` | the JSON printer, the HJSON parser with its scalar and vector scanners, the round trip, and the two layouts |
| `HjsonBlanks`, `HjsonStrings`, `HjsonMultiline`, `HjsonBare`, `HjsonNumbers`, `HjsonStructure` | which texts the HJSON parser accepts and what they are, by a grammar of their own |
| `RefCounts`, `RefReach`, `RefSlots`, `RefHeap`, `RefCycles`, `RefAcyclic` | reference counting of data trees: the accounts, who reaches whom, the map a container's slots stand for, the operations, what cycles do, and which operations close none |
| `HttpProtocol`, `HttpFacets`, `HttpInvariant`, `HttpRuns`, `HttpCauses`, `HttpOrders`, `HttpEventLoop` | HTTP requests between the game thread and the event thread: the steps, what every run keeps, where each step takes a request and why, the order of queues, and the callbacks |
| `WsReassembly`, `WsProtocol`, `WsInvariant`, `WsEffects`, `WsRuns`, `WsCauses`, `WsDelivery`, `WsEventLoop` | messages put together from chunks, one WebSocket connection as a state machine, its invariant and its runs, what each step tells and why, what its runs deliver, and its callbacks with their loops |
| `Handles`, `HandleManager` | script handles and the index of each plugin's handles |
| `RecyclingLists`, `ListOrder`, `LinkedLists` | the linked list as a sequence, the order its callers see, and as a ring of nodes |
| `RecencyCaches`, `CacheAnswers`, `LruCaches`, `IntLruCaches`, `LongKeys` | the meaning of the LRU cache, its answers by the history, its two forms, and keys too long for it |
| `BlockPools`, `PoolSizes`, `FixedPools` | the block allocator in every interleaving, its sizes and order, and its threaded free lists |
| `AnchoredClock` | the clock |

Imperative code is modelled by classes and methods with loops. Each method is proved against a
function of the old state, and the laws are proved about those functions, over all inputs or over
every run of a state machine. A run is a sequence of states in which each follows from the one
before by one step that is possible there; steps of different threads interleave freely.

Conventions. The C library's `snprintf` and `strtod` are the fields of a record `Libc.Calls`; the
theorems about text assume `Libc.Contract` of it: `%g` prints well-formed decimals, 17 significant
digits determine a double, and neither the plus sign of an exponent nor a trailing `.0` changes what
`strtod` reads. `LibcWitness.ContractCanBeMet` shows that the contract can be met. Doubles are their
64 bits. curl results, timer firings, clock readings and the scheduler are parameters or free choices
of the step. Where the code and its comments disagree the model follows the code.

Three properties one might expect are false of the code, and each is proved with its exact condition:

- The expiry check of the caches keeps elapsed time in one 32-bit cell. An expired entry is taken for
  fresh at exactly the ages that `RecencyCaches.ExpiryIsExact` gives as intervals, the first of which
  begins at 2^31 ms.
- Putting objects into each other is rejected only for an object and itself.
  `RefCycles.LoseTwo` leaks two objects by operations the code accepts, `RefCycles.CycleIsNeverFreed`
  shows that they stay, `RefReach.NoneLostIffCyclesReachable` says in which heaps nothing is lost, and
  `RefAcyclic.AcyclicExactly` and `RefAcyclic.NothingIsLost` say by which calls nothing ever is.
- A string-keyed cache forgets a key it evicts if and only if the key is shorter than 256 bytes
  (`LongKeys.ForgottenIfItFits`); for every longer key `LongKeys.LongKeyIsMistaken` gives a run after
  which another key's entry is found under it, and `LongKeys.OtherForgottenIfCut` says which live key
  is forgotten in its place.

The caches hold the list as the value of `RecyclingLists.List` and call its operations as functions;
that the ring of nodes computes exactly those is what `LinkedLists` proves.

Assumptions about use, all stated as preconditions or as the enabling condition of a step: a
request identity is not reused in a run and a completion callback does not close or execute its own
request; curl reports only handles it was given; a connection is connected once; a block is given to
Free by somebody who holds it; the list is not pushed to when the id it would draw is live, which
`RecyclingLists.IdsNeverShared` shows cannot happen before 2^32 - 1 fresh ids are drawn and
`RecyclingLists.WrapSharesOne` shows can happen right after; the entry limit of a cache is from 0 to
2^31 - 2.

## Model

| member | source | states |
|---|---|---|
| `MsgPackStreams.Writer.WriteU16` | src/msgpack/msgpack_serialize.cpp:11-14 | appends the two bytes that `Get16` reads back |
| `MsgPackStreams.Writer.WriteU32` | src/msgpack/msgpack_serialize.cpp:16-21 | appends the four bytes that `Get32` reads back |
| `MsgPackStreams.Writer.WriteU64` | src/msgpack/msgpack_serialize.cpp:23-26 | the two 32-bit halves append the eight bytes that `Get64` reads back |
| `MsgPackStreams.Writer.WriteStr` | src/msgpack/msgpack_serialize.cpp:38-52 | appends the string in its shortest header form |
| `MsgPackStreams.Writer.WriteInt` | src/msgpack/msgpack_serialize.cpp:54-88 | appends the integer in its shortest form, for every 64-bit value |
| `MsgPackStreams.Writer.WriteMapHeader` | src/msgpack/msgpack_serialize.cpp:90-100 | appends the shortest map header for the count |
| `MsgPackStreams.Writer.SerializeNode` | src/msgpack/msgpack_serialize.cpp:102-175 | what the writer held is kept and the tree's bytes follow it, for every tree |
| `MsgPackStreams.MsgPackSerialize` | src/msgpack/msgpack_serialize.cpp:179-183 | returns the tree's bytes |
| `MsgPackStreams.Reader.ReadNode` | src/msgpack/msgpack_parse.cpp:136-310 | value, position and failure are those of the reading function for every input, position and depth; no byte past the end is looked at |
| `MsgPackStreams.Reader.ReadArray` | src/msgpack/msgpack_parse.cpp:123-134 | element by element, with the element limit and every failure |
| `MsgPackStreams.Reader.ReadMap` | src/msgpack/msgpack_parse.cpp:69-121 | the first key decides between object and integer map; a later key of the other kind fails; a repeated key takes the last value |
| `MsgPackStreams.MsgPackParse` | src/msgpack/msgpack_parse.cpp:312-326 | succeeds only when one node takes up the whole input |
| `MsgPackRoundTrip.ReadIntBytes` | src/msgpack/msgpack_serialize.cpp:54-88 | every 64-bit integer written anywhere is read back there, in exactly its bytes, and can serve as a map key |
| `MsgPackRoundTrip.ReadStrBytes` | src/msgpack/msgpack_serialize.cpp:38-52 | the same for every string under 2^32 bytes |
| `MsgPackRoundTrip.ReadBinBytes` | src/msgpack/msgpack_parse.cpp:136-310 | the same for every binary under 2^32 bytes |
| `MsgPackRoundTrip.ReadUndoesSerialize` | src/msgpack/msgpack_parse.cpp:69-310 | framing: a serialized tree within the limits, standing anywhere in any bytes, is read back and exactly its bytes are consumed; only an empty integer map comes back as an empty object |
| `MsgPackRoundTrip.ParseUndoesSerialize` | src/msgpack/msgpack_serialize.cpp:102-183 | parsing a serialized tree gives it back |
| `MsgPackLimits.Refuses` | src/msgpack/msgpack_parse.cpp:69-142 | a serialized tree with a node below depth 256, or a container over the element limit, anywhere in it is refused wherever it stands |
| `MsgPackLimits.ParsesExactly` | src/msgpack/msgpack_parse.cpp:312-326 | for every tree whose sizes fit 32 bits: parsed back if it is within the depth and element limits, refused if it is not |
| `MsgPackSettled.ReadSettled` | src/msgpack/msgpack_parse.cpp:69-310 | whatever the reader accepts is within its own limits, and any way to write it again takes no more bytes than were consumed plus four per float32 |
| `MsgPackNormalForm.OrdersFit` | src/msgpack/msgpack_serialize.cpp:102-175 | any iteration order of an accepted value can be written and read back to the same value |
| `MsgPackNormalForm.SomeOrder` | src/msgpack/msgpack_serialize.cpp:102-175 | every value has such an order, so the next statement is never empty |
| `MsgPackNormalForm.ReparseGivesSame` | src/msgpack/msgpack_parse.cpp:312-326 | normal form: for every accepted input, duplicate keys and oversized headers included, writing and parsing again gives the same value, in no more bytes than the input plus four per float32 |
| `MsgPackReads.ReadsInt` | src/msgpack/msgpack_parse.cpp:214-263 | every integer format, at any width and holding any number that fits it, reads as that number in 64-bit two's complement |
| `MsgPackReads.ReadsFloat` | src/msgpack/msgpack_parse.cpp:202-211 | float32 reads as its widening in five bytes, float64 as its bits in nine |
| `MsgPackReads.ReadsItem` | src/msgpack/msgpack_parse.cpp:136-310 | every item of every format of the specification but extensions, sizes padded or not, reads as what it means in exactly its bytes wherever it stands; of repeated keys the last decides |
| `MsgPackOnly.OnlyItems` | src/msgpack/msgpack_parse.cpp:136-310 | whatever is accepted is such an item within the limits: nothing truncated, no extension, no mixed keys |
| `MsgPackOnly.ParsesExactlyItems` | src/msgpack/msgpack_parse.cpp:312-326 | an input is parsed to a value if and only if it is, all of it, the bytes of an item that means the value |
| `HjsonScanners.FirstHitIs` | src/hjson/hjson_parse.cpp:121-145 | the first stop is the only position with a stop at it, or the end, and none before |
| `HjsonScanners.ScanScalar` | src/hjson/hjson_parse.cpp:121-145 | the byte loops return the first stop, for any kind of stop, buffer and length |
| `HjsonScanners.Load` | src/hjson/hjson_parse.cpp:160-244 | a 32-byte load; that it lies inside the buffer is its precondition and is proved at every use |
| `HjsonScanners.MaskFindsFirst` | src/hjson/hjson_parse.cpp:74-78 | the trailing-zero count of a comparison mask is the first lane set, and a zero mask has none |
| `HjsonScanners.MaskComplement` | src/hjson/hjson_parse.cpp:161-183 | the complement of the mask is the mask of the complemented lanes |
| `HjsonScanners.ScanVector` | src/hjson/hjson_parse.cpp:185-244 | the three comparing scanners return what the byte loop returns, for every buffer with 64 bytes of padding |
| `HjsonScanners.SkipSpacesVector` | src/hjson/hjson_parse.cpp:161-183 | so does the whitespace scanner |
| `HjsonScanners.Scan` | src/hjson/hjson_parse.cpp:261-282 | whichever set of scanners was picked, the result is the same |
| `HjsonScanners.FirstHitPadded` | src/hjson/hjson_parse.cpp:705-708 | the zero padding changes no result |
| `HjsonReader.Reader.SkipBlanks` | src/hjson/hjson_parse.cpp:295-334 | skips exactly the whitespace and comments of all three kinds at the position, unfinished comments included |
| `HjsonBlanks.SkipsExactly` | src/hjson/hjson_parse.cpp:295-334 | what is skipped from a position is exactly the longest run of blank bytes, line comments and block comments there, each comment ending where it should |
| `HjsonBlanks.SeparatorsExactly` | src/hjson/hjson_parse.cpp:336-342 | between values blanks and comments are skipped and at most one comma among them |
| `HjsonReader.Reader.ReadUnicodeEscape` | src/hjson/hjson_parse.cpp:349-382 | four hex digits encoded as UTF-8, each escape on its own, or failure |
| `HjsonStrings.EncodesUtf8` | src/hjson/hjson_parse.cpp:349-382 | the bytes made of four hex digits are those that section 3 of RFC 3629 lays out |
| `HjsonStrings.HexDigitsCount` | src/hjson/hjson_parse.cpp:349-382 | hex digits count from 0 to 15, letters in either case |
| `HjsonReader.Reader.ReadMultilineString` | src/hjson/hjson_parse.cpp:384-440 | a three-apostrophe string: indentation, carriage returns, apostrophes inside it and the last line end, or failure when it never ends |
| `HjsonMultiline.BlockIsItsLines` | src/hjson/hjson_parse.cpp:384-440 | a block of lines, each indented as far as the opening quote, reads as exactly those lines, whatever stands before and after it |
| `HjsonMultiline.MultilineExactly` | src/hjson/hjson_parse.cpp:384-440 | a three-apostrophe string ends at the next three apostrophes and is the text up to there without carriage returns, indentation and one last line end; without them it is none |
| `HjsonMultiline.StartIs` | src/hjson/hjson_parse.cpp:402-408 | its text begins behind blanks, on the next line if the first is blank |
| `HjsonMultiline.ColumnIs` | src/hjson/hjson_parse.cpp:385-391 | its indentation is how many bytes back its line begins |
| `HjsonReader.RunAtOnce` | src/hjson/hjson_parse.cpp:458-469 | copying a run without quotes, backslashes and newlines in bulk is copying it byte by byte |
| `HjsonReader.Reader.ReadQuotedTail` | src/hjson/hjson_parse.cpp:457-493 | the bulk loop reads what the byte-by-byte definition reads, or fails with it |
| `HjsonStrings.StringsExactly` | src/hjson/hjson_parse.cpp:444-493 | from a quote on, a string with some content is read if and only if one stands there: plain bytes, nine short escapes and four-digit codes between two quotes of a kind |
| `HjsonReader.Reader.ReadUnquotedKey` | src/hjson/hjson_parse.cpp:495-520 | the key up to its colon, with its inner-space rule, or failure |
| `HjsonBare.BareKeysExactly` | src/hjson/hjson_parse.cpp:495-520 | a key is read without quotes if and only if it is visible bytes without punctuators and then nothing but blanks up to its colon |
| `HjsonReader.TryParseNumber` | src/hjson/hjson_parse.cpp:532-578 | which texts are integers, which are floats and which are neither, over all byte strings |
| `HjsonNumbers.NumbersExactly` | src/hjson/hjson_parse.cpp:532-578 | a text is a number of a kind if and only if section 6 of RFC 8259 has it as one |
| `HjsonReader.TryParseKeywordOrNumber` | src/hjson/hjson_parse.cpp:580-588 | keywords before numbers |
| `HjsonNumbers.KnownExactly` | src/hjson/hjson_parse.cpp:580-588 | the three keywords, whole numbers that fit 64 bits, other numbers as the C library reads them unless infinite, and nothing else |
| `HjsonReader.Reader.ReadUnquotedValue` | src/hjson/hjson_parse.cpp:598-631 | a keyword or number ends at the first break after it, anything else runs to the end of the line; a control byte in front is skipped |
| `HjsonBare.BareExactly` | src/hjson/hjson_parse.cpp:598-631 | a value without quotes ends at the first place it can, a line end or a break behind a keyword or number, and is that keyword or number, or else the string of its bytes |
| `HjsonBare.LineIsString` | src/hjson/hjson_parse.cpp:598-631 | a line that is no keyword, number, quote, punctuator or comment is the string of its bytes without trailing blanks, in any text |
| `HjsonReader.Reader.ReadObject` | src/hjson/hjson_parse.cpp:633-656 | members with optional commas; a repeated key takes the last value; braced or not |
| `HjsonStructure.ObjectsExactly` | src/hjson/hjson_parse.cpp:633-656 | an object is read if and only if its members stand there, a key, a colon and a value each, up to its brace or, without braces, the end of the text |
| `HjsonStructure.LastDecides` | src/hjson/hjson_parse.cpp:633-656 | the last member of a key decides its value, and there are no other keys |
| `HjsonReader.Reader.ReadArray` | src/hjson/hjson_parse.cpp:658-672 | elements with optional commas, in order |
| `HjsonStructure.ArraysExactly` | src/hjson/hjson_parse.cpp:658-672 | an array is read if and only if its values stand there in order up to its bracket |
| `HjsonReader.Reader.ReadValue` | src/hjson/hjson_parse.cpp:674-688 | the value at the position or failure, for every depth; it stops |
| `HjsonStructure.ValuesByFirstByte` | src/hjson/hjson_parse.cpp:674-688 | the first byte behind blanks tells an object, an array, a string and a bare value apart; closing brackets, commas and colons begin none |
| `HjsonStructure.AcceptedIsShallow` | src/hjson/hjson_parse.cpp:674-688 | whatever is accepted has at most 257 containers one inside the other |
| `HjsonStructure.BracketsExactly` | src/hjson/hjson_parse.cpp:674-688 | arrays one inside the other are accepted exactly up to that depth |
| `HjsonReader.HjsonParse` | src/hjson/hjson_parse.cpp:694-752 | agrees with the grammar functions on every input, root braces optional, with either set of scanners |
| `HjsonStructure.TextsExactly` | src/hjson/hjson_parse.cpp:694-752 | a text is accepted if and only if, blanks aside, it is one value or members without braces and nothing more; where it could be both it is the members |
| `JsonWriter.Writer.SerializeString` | src/data/data_node.cpp:571-595 | the loop writes the escaped string that `HjsonTokens.StringUndoes` reads back |
| `JsonLayout.EscapeIsShortest` | src/data/data_node.cpp:571-595 | no way that section 7 of RFC 8259 has to write a byte is shorter than the one written |
| `LibcWitness.ContractCanBeMet` | src/data/data_node.cpp:611-637 | some printing and reading of doubles meets everything assumed of the C library |
| `JsonWriter.Writer.AppendFloat` | src/data/data_node.cpp:611-637 | the search over precisions gives the first text that reads back, tidied so that it stays a float |
| `JsonLayout.FewestDigits` | src/data/data_node.cpp:611-637 | a finite double is printed with the fewest significant digits that read back as it |
| `JsonWriter.Writer.SerializeLeaf` | src/data/data_node.cpp:597-648 | the text of a leaf; integer maps, binaries and non-finite numbers print as null |
| `JsonWriter.Writer.SerializeValue` | src/data/data_node.cpp:652-680 | what was written stays and the compact text of the tree follows, null below depth 128 |
| `JsonWriter.Writer.SerializeValuePretty` | src/data/data_node.cpp:682-727 | the same for the indented text |
| `JsonLayout.PrettyIsFormatted` | src/data/data_node.cpp:682-727 | the indented text of every tree is what a formatter that sees only brackets, commas, colons and strings makes of its compact text |
| `JsonLayout.CompactIsStripped` | src/data/data_node.cpp:652-727 | either text of every tree without its blanks outside strings is the compact text, which so has none |
| `JsonWriter.DataSerializeJson` | src/data/data_node.cpp:729-736 | the text of the tree in either layout |
| `HjsonTokens.StringUndoes` | src/hjson/hjson_parse.cpp:444-493 | every byte string written with escapes and quotes is read back, whatever follows |
| `HjsonTokens.IntUndoes` | src/hjson/hjson_parse.cpp:532-578 | every 64-bit integer's text is read back as that integer |
| `HjsonTokens.FloatUndoes` | src/hjson/hjson_parse.cpp:532-578 | every finite double's text is read back as that double, never as an integer |
| `HjsonRoundTrip.EscapeFollowsRfc8259` | src/data/data_node.cpp:571-595 | every escape written is one that section 7 of RFC 8259 defines for that byte |
| `HjsonRoundTrip.ParseUndoesPrint` | src/hjson/hjson_parse.cpp:674-688 | at the text of any tree, at any depth, in either layout and before anything that ends a value, the parser returns what the text shows and stops right after it |
| `HjsonRoundTrip.HjsonParseUndoesPrint` | src/hjson/hjson_parse.cpp:694-752 | parsing the text of any tree, any key order and either layout, gives the tree with exactly the nodes deeper than 128, integer maps, binaries and non-finite floats replaced by null |
| `HjsonRoundTrip.PrintableIsShown` | src/data/data_node.cpp:652-680 | a tree without those comes back whole, integers as integers and floats as floats |
| `HjsonRoundTrip.ShownIsPrintable` | src/data/data_node.cpp:597-650 | and only such a tree does |
| `HjsonRoundTrip.RoundTripExactly` | src/data/data_node.cpp:571-736 | parse after print is the identity on a tree if and only if it has none of the replaced nodes |
| `RefHeap.Heap.Decref` | src/data/data_node.cpp:93-128 | stops on any heap, cycles included; afterwards every count is again slots plus owners, cells only lost references or were freed, and nodes that hold each other are untouched |
| `RefReach.LiveIffHeld` | src/data/data_node.cpp:93-128 | on any heap with exact counts, a node is alive if and only if an owner or a cycle leads to it |
| `RefReach.NoneLostIffCyclesReachable` | src/data/data_node.cpp:93-128 | every live node can be reached by an owner if and only if every node on a cycle can |
| `RefReach.FreesExactly` | src/data/data_node.cpp:93-128 | on any heap, what such a step leaves alive is exactly what a remaining owner or a cycle leads to |
| `RefReach.FreesUnreachable` | src/data/data_node.cpp:93-128 | on an acyclic heap that is exactly what owners reach, and the heap stays acyclic |
| `RefReach.LiveIffReachable` | src/data/data_node.cpp:93-128 | on an acyclic heap with exact counts, a node is alive if and only if some owner reaches it |
| `RefHeap.Heap.Make` | src/data/data_node.cpp:14-91 | a new node has count one and one owner, and counts stay exact |
| `RefHeap.Heap.Incref` | src/natives_json.cpp:256-263 | one more owner, one more in the count |
| `RefHeap.Heap.Close` | src/data/data_node.cpp:93-128 | closing a handle drops one owner and frees exactly what no other owner and no cycle leads to |
| `RefHeap.Heap.MapInsert` | src/data/data_node.cpp:221-229 | the caller's reference becomes the slot's: the key looks up the value and every other key what it did, no key stands twice, an old value is dropped, a node of another kind drops the value; counts exact, frees exact |
| `RefHeap.Heap.MapErase` | src/data/data_node.cpp:231-240 | says whether the key was there; afterwards it is not, every other key looks up what it did, and exactly what that leaves unreached is freed |
| `RefSlots.MapAt` | src/data/data_node.cpp:221-240 | each slot is what its key looks up |
| `RefSlots.InsertedMap` | src/data/data_node.cpp:221-229 | an insertion changes what one key looks up and nothing else |
| `RefSlots.ErasedMap` | src/data/data_node.cpp:231-240 | an erasure takes one key away and changes nothing else |
| `RefHeap.Heap.ArrAppend` | src/natives_json.cpp:944-955 | the reference becomes the last element's |
| `RefHeap.Heap.ArrSet` | src/data/data_node.cpp:342-346 | replaces within range and drops the old element; out of range drops the value |
| `RefHeap.Heap.ArrRemove` | src/data/data_node.cpp:335-340 | removes within range, closing the gap, and frees exactly what that leaves unreached |
| `RefHeap.Heap.Clear` | src/data/data_node.cpp:247-253 | empties a container and frees exactly what that leaves unreached |
| `RefAcyclic.AcyclicIffNoCycle` | src/data/data_node.cpp:93-128 | nodes can be ranked above what they hold if and only if no node is on a cycle |
| `RefAcyclic.RewireKeepsAcyclic` | src/natives_json.cpp:786-800 | other slots for a node keep the heap acyclic if and only if no child in them reaches the node |
| `RefHeap.Heap.SetObject` | src/natives_json.cpp:786-800 | refuses only an object and itself; otherwise the key looks up the child and every other key what it did, the child's handle is closed, and whatever owners still hold keeps its slots |
| `RefCycles.LoseTwo` | src/natives_json.cpp:786-800 | make two objects, put each into the other, close both handles: every step is accepted, and two live nodes are left that nobody can reach |
| `RefCycles.CycleIsNeverFreed` | src/data/data_node.cpp:93-128 | over every run of the operations, a live node that only a cycle leads to stays alive and out of reach |
| `RefAcyclic.AcyclicExactly` | src/natives_json.cpp:786-800 | over every run from an acyclic heap, all states are acyclic if and only if no call was given a new child that reaches its parent, which can be checked before the call |
| `RefAcyclic.NothingIsLost` | src/data/data_node.cpp:93-128 | over every run of such calls, a node is alive if and only if an owner reaches it |
| `RefAcyclic.AllFreedIffNoCycle` | src/data/data_node.cpp:93-128 | in every run, once no handle is left, everything has been freed if and only if no node is on a cycle |
| `HttpEventLoop.EventLoop.FinishRequest` | src/event_loop.cpp:673-679 | the request is counted, leaves the active set and joins the done queue once |
| `HttpEventLoop.EventLoop.OnAsyncAdd` | src/event_loop.cpp:438-465 | empties the pending queue by one protocol step for each entry: closed requests are finished unsent, others go to curl |
| `HttpEventLoop.EventLoop.OnAsyncCancel` | src/event_loop.cpp:485-522 | empties the cancel queue by one protocol step for each entry; a waiting request loses its timer, one in curl its handle, any other is skipped |
| `HttpEventLoop.EventLoop.OnCurlMessage` | src/event_loop.cpp:597-680 | takes the protocol step, which retries with exactly one timer or finishes, as `HttpCauses.RetriedExactly` has it |
| `HttpEventLoop.EventLoop.OnRetryTimer` | src/event_loop.cpp:684-723 | sends again, finishes a closed request, or does nothing for a completed one |
| `HttpEventLoop.EventLoop.HttpExecute` | src/natives_http.cpp:65-88 | 0 and queued, or 2 and no change if it is unknown or already with the event thread |
| `HttpEventLoop.EventLoop.HttpClose` | src/natives_http.cpp:49-63 | 2 and no change for an unknown or already closed request; otherwise 0, and a request with the event thread is marked and cancelled, any other freed |
| `HttpEventLoop.EventLoop.OnGameFrame` | src/extension.cpp:334-356 | delivers every done request and frees each after its callback, by protocol steps |
| `HttpInvariant.StepIsSafe` | src/event_loop.cpp:438-723 | no step that can happen touches a request that has been freed |
| `HttpInvariant.StepKeeps` | src/event_loop.cpp:438-723 | every step of either thread keeps the invariant |
| `HttpRuns.AlwaysInOnePlace` | src/event_loop.cpp:438-723 | in every interleaving a request with the event thread is in exactly one of pending, curl, retry wait with exactly one timer, done or delivery, any other is in none, and the statistics equal the set sizes |
| `HttpRuns.AttemptsAreBounded` | src/http_request.cpp:170-207 | with a retry limit of zero or more, no request is sent more than limit plus one times |
| `HttpRuns.PushedAtMostOnce` | src/event_loop.cpp:597-723 | no request joins the done queue twice |
| `HttpRuns.NoCancelIsLost` | src/event_loop.cpp:485-522 | once a request's cancel entry is popped it is never again in curl, in retry wait or active: it can only be pending and closed, done or in delivery |
| `HttpCauses.MovesExactly` | src/event_loop.cpp:438-723 | over every run, each step takes each request exactly where a table of places says: sent, retried, finished, delivered or freed, and otherwise left where it is |
| `HttpCauses.RetriedExactly` | src/http_request.cpp:170-192 | over every run, an attempt that ends is retried with one timer if and only if it ended in a transport error, 429 or 5xx, nobody closed the request, and its limit is negative, or not zero and not less than the attempts so far; otherwise it is done at once |
| `HttpCauses.AttemptsAreSends` | src/event_loop.cpp:524-545 | over every run the attempts are the steps that handed the request to curl |
| `HttpCauses.KnownExactly` | src/natives_http.cpp:49-63 | over every run a request counts as closed if and only if it was marked, and keeps the limit it was made with |
| `HttpOrders.TakenInOrder` | src/event_loop.cpp:438-465 | over every run what was executed has been taken up or is pending, in order |
| `HttpOrders.CancelledInOrder` | src/event_loop.cpp:485-522 | over every run every close has had its cancel taken or it is on its way, in order |
| `HttpOrders.DeliveredInOrder` | src/extension.cpp:334-356 | over every run what has ended was delivered or waits for it, in the order it ended, and that many completions are counted |
| `WsReassembly.TakeChunk` | src/event_loop.cpp:1711-1797 | one chunk: joins the message under way, ends it, or is too big |
| `WsReassembly.DeliversMessages` | src/event_loop.cpp:1728-1799 | while no message passes the limit, what is delivered is exactly each message's chunks joined in order, typed by its first frame |
| `WsReassembly.StopsAtOverflow` | src/event_loop.cpp:1737-1753 | the first chunk over the limit stops delivery: earlier messages are out, no later one is |
| `WsReassembly.NothingTooBig` | src/event_loop.cpp:1737-1753 | the d-th message delivered was ended by a final chunk, which is named, and does not exceed the limit in force at that very chunk |
| `WsReassembly.NothingCarriedOver` | src/event_loop.cpp:2010-2015 | after a reconnect the stream is read as if it were the first |
| `WsEventLoop.Connection.PushWsClosedOnce` | src/event_loop.cpp:813-820 | a second close event is dropped |
| `WsEventLoop.Connection.WsCleanup` | src/event_loop.cpp:1984-2020 | no handle or timer is left; the connection is either kept for a reconnect or out of the table |
| `WsEventLoop.Connection.WsDisconnectOrReconnect` | src/event_loop.cpp:1860-1910 | reconnects exactly under the four conditions, otherwise closes for good |
| `WsEventLoop.Connection.ProcessWsConnect` | src/event_loop.cpp:1501-1514 | registers the connection and starts curl, or reports and unregisters |
| `WsEventLoop.Connection.ProcessWsSend` | src/event_loop.cpp:1516-1553 | a send on a connected socket that fails, other than for being asked to try again, queues one error; any other changes nothing here |
| `WsEventLoop.Connection.ProcessWsClose` | src/event_loop.cpp:1555-1603 | ends a reconnect, starts the close handshake once, or closes at once |
| `WsEventLoop.Connection.ProcessWsSetPing` | src/event_loop.cpp:1605-1638 | a connected socket's ping timer is restarted or stopped, never doubled |
| `WsEventLoop.Connection.OnConnectDone` | src/event_loop.cpp:547-595 | closed meanwhile, connected, or failed |
| `WsEventLoop.Connection.OnPollStart` | src/event_loop.cpp:1640-1659 | closed meanwhile or a poll error |
| `WsEventLoop.Connection.OnFrame` | src/event_loop.cpp:1661-1799 | one frame of any kind |
| `WsEventLoop.Connection.OnWsCloseTimeout` | src/event_loop.cpp:1802-1816 | an unanswered close ends the connection |
| `WsEventLoop.Connection.WsReconnect` | src/event_loop.cpp:1943-1960 | starts curl again, or reports, closes and unregisters |
| `WsEventLoop.Connection.OnWsReconnectTimer` | src/event_loop.cpp:1962-1982 | starts again, or closes for good |
| `WsEventLoop.Connection.OnAsyncWsOp` | src/event_loop.cpp:1481-1499 | the loop empties the queue of operations as a run of protocol steps, one for each operation in order, and keeps the invariant |
| `WsEventLoop.Connection.OnWsPollActivity` | src/event_loop.cpp:1640-1799 | the whole callback with its frame loop and early returns is a run of protocol steps, a frame is read only while curl handle and poll handle are in place and all are unless the connection went down or its handle was closed, and the invariant is kept, whatever the game thread writes between frames |
| `WsEventLoop.Connection.GameWrite` | src/natives_ws.cpp:153-258 | what the game thread writes by itself, the closed mark, the ping interval and the reconnect limit, is one protocol step each and keeps the invariant |
| `WsInvariant.StepKeeps` | src/event_loop.cpp:1501-2020 | every step keeps the invariant that ties phase, handles, timers, table entry and queued events together |
| `WsRuns.ClosedAtMostOnce` | src/event_loop.cpp:813-820 | over every run at most one close event is queued, and from then on the connection is out of the table, no handle or timer refers to it, and no callback for it can come |
| `WsRuns.ClosedIsFinal` | src/event_loop.cpp:1984-2020 | after the close event no step changes anything but three fields the game thread writes |
| `WsRuns.NothingLeaked` | src/event_loop.cpp:1827-2020 | in every state of every run, of the curl handles, poll handles and timers of each kind made so far all but the one in use have been given back; after the close event, all |
| `WsRuns.PingFollowsInterval` | src/event_loop.cpp:1605-1638 | over every run, while the connection stands it has a ping timer if and only if the interval last applied, on connecting or from the queue, is positive |
| `WsRuns.CountIsBegun` | src/event_loop.cpp:1860-1910 | over every run the counter is the number of reconnects begun in the run since the connection last stood |
| `WsRuns.ReconnectsAreBounded` | src/event_loop.cpp:1860-1866 | over every run, in which the game thread may change the limit at any time, a reconnect begins only under a limit other than zero, and a positive one is not less than the reconnects begun since the connection last stood, this one included |
| `WsRuns.NeverMoreThanSet` | src/natives_ws.cpp:252-258 | while every limit set is from 0 to some number, there are never more reconnects in a row than that number |
| `WsCauses.TellsExactly` | src/event_loop.cpp:1501-2020 | over every run each step queues exactly the events, leads to exactly the phase and keeps exactly the settings that a table gives by the connection's fields and the reconnects counted from the run |
| `WsCauses.StandsExactly` | src/event_loop.cpp:547-595 | over every run a connection comes to stand, and says so, if and only if curl reports success and the handle is not closed; a failure is reported with its code and takes it down |
| `WsCauses.ErrsExactly` | src/event_loop.cpp:1501-1982 | over every run an error is reported if and only if something failed with its code while the handle was open, or a read failed |
| `WsCauses.ClosesExactly` | src/event_loop.cpp:813-820 | over every run a close event is queued exactly by the step that closes the connection, with the code of the close frame or 0 |
| `WsDelivery.QueuesReassembled` | src/event_loop.cpp:1711-1799 | over every run, while no message is over its limit, the messages queued for the game thread are those queued before the last reconnect and then exactly the messages that the chunks read since make |
| `WsDelivery.QueuesUpToOverflow` | src/event_loop.cpp:1737-1753 | from the first chunk over the limit on, those completed before it are all there are, no chunk is taken any more and the connection is closed |
| `WsDelivery.QueuesAccepted` | src/event_loop.cpp:1661-1799 | over every run, the messages queued since the last reconnect are what the receive loop delivers for the chunks read since, so that the `WsReassembly` rows hold of every run |
| `WsDelivery.QueuesEverySession` | src/event_loop.cpp:1711-1799 | over a whole run with any number of reconnects, the messages queued are those each session completed, session by session |
| `WsDelivery.QueuedWithinLimit` | src/event_loop.cpp:1737-1753 | over every run, a step that queues a message read a final chunk, queues exactly one, and it does not exceed the limit in force at that chunk |
| `HandleManager.Manager.Probe` | src/handle_manager.cpp:82-90 | the probing loop stops and returns the first free id from the cursor on, wrap-around and skipped zero included, or 0 |
| `HandleManager.Manager.CreateHandle` | src/handle_manager.cpp:71-97 | returns 0 exactly when all 2^32 - 1 ids are in use, otherwise an unused nonzero one, which it enters in both tables |
| `HandleManager.Manager.RemoveFromPluginSet` | src/handle_manager.cpp:99-106 | the id leaves the plugin's set, and an emptied set is not kept |
| `HandleManager.Manager.FreeHandle` | src/handle_manager.cpp:108-116 | the handle leaves both tables; an unknown one changes nothing |
| `HandleManager.Manager.MarkHandleClosed` | src/handle_manager.cpp:118-123 | only the mark changes |
| `HandleManager.Manager.TransferHandle` | src/handle_manager.cpp:125-142 | succeeds exactly for an open known handle, which then belongs to the new owner in both tables |
| `HandleManager.Manager.TakePluginHandles` | src/handle_manager.cpp:144-161 | returns each of the plugin's handles exactly once, now without an owner, and forgets the plugin |
| `HandleManager.Manager.CleanHandles` | src/handle_manager.cpp:14-20 | both tables are empty; the cursor stays |
| `HandleManager.Manager.GetPointer` | src/handle_manager.cpp:22-69 | the typed getters: the object of an open handle of the kind, or none |
| `Handles.CreatedIsFree` | src/handle_manager.cpp:82-90 | the id issued is 0 if and only if every nonzero id is in use, and never one in use |
| `Handles.StepKeeps` | src/handle_manager.cpp:71-161 | every operation keeps the index exact and the cursor away from 1 once anything was issued |
| `Handles.IndexAlwaysExact` | src/handle_manager.cpp:93-161 | over every run each plugin's set is exactly the live handles that name it as owner, and a plugin is listed if and only if it has one |
| `Handles.EveryOtherIdFirst` | src/handle_manager.cpp:82-92 | between two issues of the same id every other nonzero id was issued or in use when the cursor passed it |
| `Handles.StaleIsUnknown` | src/handle_manager.cpp:108-116 | after it is freed, a handle is unknown to every getter until its id is issued again |
| `Handles.MarkedIsKept` | src/handle_manager.cpp:118-123 | over every run until it is freed, a marked handle is hidden from the getters and its id is not handed out |
| `Handles.RecordExactly` | src/handle_manager.cpp:71-161 | over every run each id is exactly what its own history makes it: object, kind, owner and mark, whatever is done to others |
| `Handles.FoundExactly` | src/handle_manager.cpp:22-69 | over every run a getter finds an object if and only if it was issued under the id with that kind and neither marked nor freed since |
| `LinkedLists.InsertBefore` | src/linked_list.cpp:19-24 | four link writes turn a ring into the ring with the node before the given place |
| `LinkedLists.Unlink` | src/linked_list.cpp:26-29 | two link writes turn a ring into the ring without the node |
| `LinkedLists.LinkedList.NextId` | src/linked_list.cpp:35-44 | the oldest recycled id, or the next fresh one, skipping 0 |
| `LinkedLists.LinkedList.PushFront` | src/linked_list.cpp:46-53 | the sequence gains the pair at the front; ring and map agree |
| `LinkedLists.LinkedList.PushBack` | src/linked_list.cpp:55-62 | the same at the back |
| `LinkedLists.LinkedList.PopFront` | src/linked_list.cpp:64-73 | removes and returns the first value and queues its id, or returns 0 when empty |
| `LinkedLists.LinkedList.PopBack` | src/linked_list.cpp:75-84 | the same at the back |
| `LinkedLists.LinkedList.Remove` | src/linked_list.cpp:86-97 | removes a node by id wherever it is, or reports 0 |
| `LinkedLists.LinkedList.MoveToFront` | src/linked_list.cpp:99-104 | the pair moves to the front, the others keep their order, ids and map untouched |
| `LinkedLists.LinkedList.MoveToBack` | src/linked_list.cpp:106-111 | the same at the back |
| `LinkedLists.LinkedList.GetValue` | src/linked_list.cpp:113-116 | the value stored under the id, or 0 |
| `LinkedLists.LinkedList.SetValue` | src/linked_list.cpp:118-121 | one value changes, nothing else |
| `LinkedLists.LinkedList.First` | src/linked_list.cpp:123-125 | the first id of the sequence, or 0 |
| `LinkedLists.LinkedList.Last` | src/linked_list.cpp:127-129 | the last id of the sequence, or 0 |
| `LinkedLists.LinkedList.Next` | src/linked_list.cpp:131-135 | the id after it in the sequence, or 0 at the end or when unknown |
| `LinkedLists.LinkedList.Prev` | src/linked_list.cpp:137-141 | the id before it in the sequence, or 0 at the start or when unknown |
| `LinkedLists.LinkedList.Size` | src/linked_list.cpp:143-145 | the length of the sequence, which is below 2^32, as a cell |
| `LinkedLists.LinkedList.DeepCopy` | src/linked_list.cpp:147-156 | a new list with the same values in order, numbered from 1, sharing no node with the old one |
| `LinkedLists.LinkedList.Clear` | src/linked_list.cpp:158-169 | empties list and queue; fresh ids go on where they were |
| `RecyclingLists.NewIdIsNew` | src/linked_list.cpp:31-44 | a recycled id, or one of the first 2^32 - 1 fresh ones, is never live |
| `RecyclingLists.WrapSharesOne` | src/linked_list.cpp:41-43 | the draw after those shares an id if and only if node 1 lives |
| `RecyclingLists.IdsNeverShared` | src/linked_list.cpp:14-169 | over every run with at most 2^32 - 1 fresh ids, live ids are distinct, nonzero and apart from the queue |
| `RecyclingLists.IdsBoundedByLength` | src/linked_list.cpp:31-44 | without Clear no id exceeds the greatest length the list has had |
| `RecyclingLists.IdInRange` | sourcepawn/async2_lru.inc:67-131 | in a list kept to a limit with one push over it, no id exceeds the limit plus one, so no id as a cell is the reserved slot -1 |
| `ListOrder.NextUndoesPrevious` | src/linked_list.cpp:123-141 | next and previous are each other's inverse and zero marks the ends |
| `ListOrder.PushFrontSeen` | src/linked_list.cpp:46-53 | the new node is first, in front of what was first, with its value; nothing else changes |
| `ListOrder.PushBackSeen` | src/linked_list.cpp:55-62 | the same at the back |
| `ListOrder.PopFrontSeen` | src/linked_list.cpp:64-73 | gives the value of the first node, which is gone, and the next is first |
| `ListOrder.PopBackSeen` | src/linked_list.cpp:75-84 | the same at the back |
| `ListOrder.RemoveSeen` | src/linked_list.cpp:86-97 | the node is gone, its neighbours meet, the others keep theirs |
| `ListOrder.MoveToFrontSeen` | src/linked_list.cpp:99-104 | the node is first, its old neighbours meet, the others keep theirs, and all values stay |
| `ListOrder.MoveToBackSeen` | src/linked_list.cpp:106-111 | the same at the back |
| `ListOrder.SetValueSeen` | src/linked_list.cpp:118-121 | one value changes and no order |
| `ListOrder.RecycledInOrder` | src/linked_list.cpp:31-44 | over every run ids are used again in the order they were given back |
| `LruCaches.LruCache.constructor` | sourcepawn/async2_lru.inc:81-93 | an empty cache whose time to live is the 32-bit product |
| `LruCaches.LruCache.SetValue` | sourcepawn/async2_lru.inc:100-131 | mapping, data and list agree and mean the recency list after the write; the eviction loop stops |
| `LruCaches.LruCache.GetValue` | sourcepawn/async2_lru.inc:133-161 | hit, miss or expiry as the recency list has it, counters included |
| `LruCaches.LruCache.Has` | sourcepawn/async2_lru.inc:289-313 | presence without a touch; an expired entry goes and counts as evicted |
| `LruCaches.LruCache.Remove` | sourcepawn/async2_lru.inc:315-327 | the key leaves all three places |
| `LruCaches.LruCache.EvictExpired` | sourcepawn/async2_lru.inc:329-361 | removes exactly the expired entries while walking the list it changes, and counts them |
| `LruCaches.LruCache.EvictOldest` | sourcepawn/async2_lru.inc:375-389 | the last entry of the recency list leaves all three places, by the same step on list and data that `LongKeys` speaks of |
| `LruCaches.LruCache.Size` | sourcepawn/async2_lru.inc:363-365 | the number of entries, never above the limit |
| `IntLruCaches.IntLruCache.SetValue` | sourcepawn/async2_lru.inc:423-448 | data and list agree and mean the recency list after the write |
| `IntLruCaches.IntLruCache.GetValue` | sourcepawn/async2_lru.inc:450-473 | hit, miss or expiry as the recency list has it |
| `IntLruCaches.IntLruCache.Has` | sourcepawn/async2_lru.inc:579-597 | presence without a touch |
| `IntLruCaches.IntLruCache.Remove` | sourcepawn/async2_lru.inc:599-608 | the key leaves data and list |
| `IntLruCaches.IntLruCache.EvictExpired` | sourcepawn/async2_lru.inc:610-636 | removes exactly the expired entries and counts them |
| `IntLruCaches.IntLruCache.EvictOldest` | sourcepawn/async2_lru.inc:650-658 | the last entry of the recency list leaves data and list |
| `RecencyCaches.ExpiryIsExact` | sourcepawn/async2_lru.inc:54-62 | the 32-bit expiry check never finds an entry expired too early, and is wrong exactly at the ages from k * 2^32 + 2^31 up to (k + 1) * 2^32 plus the time to live, for k from 0 on |
| `RecencyCaches.StepKeeps` | sourcepawn/async2_lru.inc:72-389 | every operation keeps keys distinct and the size within the limit |
| `RecencyCaches.KeptExactly` | sourcepawn/async2_lru.inc:329-361 | an entry survives a sweep if and only if it has not expired |
| `RecencyCaches.EvictsLeastRecent` | sourcepawn/async2_lru.inc:124-131 | over every run the key a full cache gives up is the one whose last use, by the history of operations, is the longest ago |
| `RecencyCaches.GetGivesLastSet` | sourcepawn/async2_lru.inc:133-161 | a hit returns the value last written under the key, not removed since and younger than the time to live, unless its true age is one of those misjudged, none of which is under 2^31 ms |
| `RecencyCaches.NeverDroppedEarly` | sourcepawn/async2_lru.inc:133-361 | over every run, what a read, a look or a sweep drops for its age was last written at least the time to live before |
| `CacheAnswers.GetAnswers` | sourcepawn/async2_lru.inc:133-161 | a read hits if and only if an entry with the key stands and has not expired, and gives its value |
| `CacheAnswers.HasAnswers` | sourcepawn/async2_lru.inc:289-313 | a look answers true if and only if that holds, which is when a read at the same moment would hit |
| `CacheAnswers.KeepsExactly` | sourcepawn/async2_lru.inc:100-389 | after an operation stands what it wrote, and of what stood before exactly what it neither replaced nor removed nor found expired nor had to give up |
| `CacheAnswers.CountersTell` | sourcepawn/async2_lru.inc:100-389 | over every run hits and misses are the reads that found a fresh entry and those that did not, and every key brought in stands, was removed or is counted as evicted |
| `CacheAnswers.StandsExactly` | sourcepawn/async2_lru.inc:100-389 | over every run a key stands if and only if it was written and no operation since removed it, found it expired or needed the place of the least recently used |
| `CacheAnswers.FindsExactly` | sourcepawn/async2_lru.inc:133-313 | over every run a read hits and a look answers true if and only if that holds and the write is younger than the time to live or of an age that is misjudged |
| `LongKeys.ForgottenIfItFits` | sourcepawn/async2_lru.inc:375-389 | the mapping forgets an evicted key if and only if it is shorter than 256 bytes; a longer one goes on naming a node that has no entry |
| `LongKeys.OtherForgottenIfCut` | sourcepawn/async2_lru.inc:375-389 | of the other keys an eviction forgets exactly the one equal to the first 255 bytes of an evicted key of 256 or more, while its node and entry stay |
| `LongKeys.LongKeyIsMistaken` | sourcepawn/async2_lru.inc:100-161 | for every key of 256 bytes or more, a cache for one entry finds another key's entry under it after two more writes |
| `RecencyCaches.MissMeansOld` | sourcepawn/async2_lru.inc:100-161 | with no time to live, a key used and not removed is missing only if as many other keys as the cache holds were used after it |
| `BlockPools.StepKeeps` | src/data/data_node_pool.h:77-157 | every step of every thread can be taken safely and keeps the invariant |
| `BlockPools.EveryBlockInOnePlace` | src/data/data_node_pool.h:77-157 | in every interleaving the central list, the caches and the blocks handed out are pairwise disjoint, hold no block twice and together are the blocks ever grown |
| `BlockPools.CountersMatch` | src/data/data_node_pool.h:77-132 | every counter is the length of its list, no cache exceeds 256 (257 while a Free waits for the lock), and no pop finds an empty list |
| `BlockPools.FreeIsTotalLessHanded` | src/data/data_node_pool.h:135-142 | in every state the free blocks that Stats adds up are those grown less those handed out |
| `PoolSizes.GrowsByDoubling` | src/data/data_node_pool.h:145-157 | over every run the pool holds as many chunks as refills found it empty, of 256 blocks and twice as many each time up to 65536 |
| `PoolSizes.BatchesAre` | src/data/data_node_pool.h:77-132 | a refill ends with 128 blocks or all there were; giving back begins at 257 and ends at 129 |
| `PoolSizes.OneInside` | src/data/data_node_pool.h:77-132 | over every run at most one thread is inside the lock |
| `PoolSizes.LastFreedFirst` | src/data/data_node_pool.h:77-118 | what a thread frees last it is given first, whatever other threads do between |
| `FixedPools.FixedPool.PopFast` | src/data/data_node_pool.h:80-86 | one pop through the block's link; every threaded list stays intact |
| `FixedPools.FixedPool.StartRefill` | src/data/data_node_pool.h:88-90 | takes the lock and grows an empty pool |
| `FixedPools.FixedPool.MoveOne` | src/data/data_node_pool.h:94-102 | one block from the central list to the cache, all links intact |
| `FixedPools.FixedPool.PopSlow` | src/data/data_node_pool.h:104-108 | the pop after a refill finds a block |
| `FixedPools.FixedPool.PushBlock` | src/data/data_node_pool.h:111-118 | one push through the block's link, all links intact |
| `FixedPools.FixedPool.ReturnOne` | src/data/data_node_pool.h:123-130 | one block back to the central list, all links intact |
| `FixedPools.FixedPool.GrowPool` | src/data/data_node_pool.h:145-157 | the loop threads a whole new chunk in front of the central list |
| `FixedPools.FixedPool.Scribble` | src/data/data_node_pool.h:77-109 | whatever a caller writes into a block it holds, no list changes |
| `FixedPools.FixedPool.Alloc` | src/data/data_node_pool.h:77-109 | hands out one block that nobody held; an empty cache is left with up to 127 blocks, and the pool grows only if it is empty too |
| `FixedPools.FixedPool.Free` | src/data/data_node_pool.h:111-132 | takes back exactly that block and leaves the cache within 256, giving 128 back when it would pass that |
| `FixedPools.FixedPool.Stats` | src/data/data_node_pool.h:135-142 | total and free blocks of the state |
| `AnchoredClock.AnchoredTime.GetAnchoredTimeMs` | src/natives_utils.cpp:52-78 | one call, in all its branches |
| `AnchoredClock.LastIsAnchored` | src/natives_utils.cpp:44-78 | over every run with monotonic time not going back, the value returned is monotonic time plus the offset |
| `AnchoredClock.NeverAhead` | src/natives_utils.cpp:44-78 | the last value never exceeds monotonic time plus the offset, also between calls |
| `AnchoredClock.BackOnlyAtSnap` | src/natives_utils.cpp:60-66 | time goes back if and only if a sync finds wall time more than 500 ms behind the clock and behind the last value |
| `AnchoredClock.NonDecreasing` | src/natives_utils.cpp:52-78 | any stretch of calls without a sync below -500 ms is non-decreasing |
| `AnchoredClock.SyncIsNearWallTime` | src/natives_utils.cpp:56-72 | a sync returns wall time, or up to 500 ms more when the clock was ahead |
| `AnchoredClock.SteadyBetweenSyncs` | src/natives_utils.cpp:52-78 | between syncs the values advance exactly as monotonic time |
| `AnchoredClock.SyncsOnTime` | src/natives_utils.cpp:56-57 | the clock compares itself with wall time at the first call ten seconds or more after the last time, by monotonic time alone |
| `AnchoredClock.TimeExactly` | src/natives_utils.cpp:44-78 | the whole clock by its readings: it starts at wall time and advances as monotonic time does; at a sync it stays if up to 500 ms ahead of wall time and is set to it otherwise |

## Left out

- simdjson parsing (`DataParseJson`): foreign code; the HJSON parser is the inverse of the printer that is modelled.
- HjsonReader.Reader.ReadUnquotedValue: where a control byte is followed by nothing visible on its line, the code makes a string of a length below zero and what it then does is not defined; here that is failure.
- HjsonReader.Reader.ReadValue: the same.
- HjsonReader.HjsonParse: the same.
- HjsonReader.Reader.ReadMultilineString: the column of the opening quote is unbounded, not an int.
- HjsonReader.Reader.ReadUnquotedKey: positions are unbounded, so the narrowing of the first space's position to an int in inputs over 2 GB is not modelled.
- TCP and UDP sockets, DNS and its cache, natives that only unpack parameters, logging, crypto and URL helpers: they would only add easy members.
- Retry and reconnect delays (a power with random jitter): timers fire at any time in the model, which covers every delay.
- HTTP headers, bodies and response parsing: the result of an attempt, curl's code and the status, is a free choice of the step.
- What WebSocket sends carry, options other than the ping interval, the message size and the reconnect limit, parsing of delivered messages and close reasons: they do not touch the state modelled; a send is there with its result. The queue of operations is that of one connection, as operations on other connections do not touch it. A completion reported from inside WsInitCurl is the next step of the run.
- Iterators, version counters, DeepCopy, Merge, Equals and EstimateBytes of data trees: easy members beside the ones modelled.
- RefHeap.Heap.MapInsert: the slot is overwritten before the old child is dropped, where the code does it after; the heap afterwards is the same. Counts are unbounded, not 32-bit.
- RefHeap.Heap.ArrSet: the same order of overwriting and dropping.
- RefHeap.Heap.SetObject: an unknown handle, for which the native returns at once, is not a case here.
- Objects behind handles, and their deletion: an object is a number in `Handles`.
- LruCaches.LruCache.SetValue: covers SetString and SetJson by its type parameter; the hit, miss and eviction counters are unbounded, not 32-bit; keys of 256 bytes and more are excluded by its precondition, and `LongKeys` proves on the same insertion and eviction what becomes of them.
- LruCaches.LruCache.constructor: limits below 0, for which the eviction loop would never end, and the limit 2^31 - 1, at which the list's size no longer fits a cell, are excluded.
- LruCaches.LruCache.GetValue: covers GetString and GetJson by the type parameter.
- LinkedLists.LinkedList.PushFront: requires that the id it draws is not live; what a push does once fresh ids have wrapped onto a live node is only described by `RecyclingLists.WrapSharesOne`.
- LinkedLists.LinkedList.PushBack: the same.
- FixedPools.FixedPool.Alloc: runs while no other thread comes between; interleavings are those of its steps, in `BlockPools`. Blocks are numbered in the order they are grown, so that new memory never overlaps old is taken for granted.
- FixedPools.FixedPool.Free: the same.
- AnchoredClock.AnchoredTime.GetAnchoredTimeMs: 64-bit overflow of times is not modelled.
- Data races on memory: the steps of the two protocols and of the pool are atomic, as the locks and atomics of the code make them.
