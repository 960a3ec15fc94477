# Ikura: verified models of the bot's core algorithms

Ikura is a chat bot with its own small scripting language. This project models the parts of it that carry
state from one message to the next, or text from one form to another, and proves what they promise. Ten parts
are modelled, each on its own:

- **Robin Hood hash table** (`GrowthPolicy`, `RobinTable`, `RobinHash`, `RobinRuns`). The table is a class over
  an array of buckets; every probe, swap, backward shift and rehash is a method. A run of operations gives the
  answers of a plain finite map, for any hash function. Where the real table throws `std::length_error`, the
  model answers `LengthError`, and `RobinRuns` says exactly when that is.
- **Expression parser and printer** (`Syntax`, `Parsing`, `ParserComplete`, `ParserSound`, `Ast`,
  `ParserTheorems`, `Operators`, `Parser`). `Parsing` says what the parser accepts, `Parser` is the parser with its
  token state, and the theorems characterise exactly which trees come out and which printed trees are read back.
  `Operators` ranks the operators in a table of its own and says how the parser groups them.
- **Wait queue and thread pool** (`WaitQueue`, `ThreadPool`, `PoolRuns`). Threads are program counters; each
  locked region, atomic exchange and notification is one step, and the theorems hold in every interleaving.
- **JSON** (`Json`, `JsonRoundTrip`, `JsonReparse`, `JsonLayout`, `JsonEscapes`, `JsonGrammar`, `JsonReader`,
  `JsonWriter`).
  Functions on bytes say what is written and read, and a grammar which texts are accepted; the input with its one
  byte of push-back and the appending serialiser are proved against the functions.
- **Unicode loops** (`Utf8`, `CanonicalOrder`, `Grapheme`). UTF-8 decoding and encoding, re-encoding in place
  over the memory that is being read, canonical ordering, and the grapheme machine. Combining and boundary
  classes are parameters.
- **WebSocket frames** (`Frames`, `WebSocket`, with the byte buffer in `Bytes`). What the receive handler
  dispatches, however the stream is cut; and what is sent, masked in place.
- **Tagged binary codec of syntax trees** (`Codec`, `CodecGrammar`, `CodecRoundTrip`, `CodecShortest`, `CodecWriter`,
  `CodecReader`). A node is its class and its members in the order of writing; `Codec.Schema` lists the members
  of each class.
- **Markov model** (`Markov`, `MarkovCounts`, `MarkovModels`). Training counts, the word index, weighted sampling
  and generation. The hash of a prefix is any function; draws are parameters.
- **Casts, coercion and overloads** (`Types`, `Coercion`).
- **Rate limiter and HTTP headers** (`RateLimits`, `Headers`). Clock readings are parameters.

`Options` and `Results` hold the two outcome types the others share, and `Sequences` what they need of sums. A
method is proved against a function of its inputs or of the old state, and the lemmas say what that function means.

Some promises do not hold of the code as it stands; each is stated with its exact condition:

- A delivery that ends one byte into a frame loses that byte (`Frames.UpToDateThroughout`, `Frames.OneByteCutLosesFrame`).
- `a[:]` swallows the token after it (`ParserTheorems.WholeSliceSwallows`, `ParserTheorems.WholeSliceMustBeLast`).
- A string of 65536 bytes or more can lose its last byte when written (`CodecWriter.Writer.WriteText`, `CodecWriter.RoomForNineTooFew`).
- Coercing twice differs when a variadic function gets too few arguments (`Coercion.CoerceIsIdempotent`, `Coercion.TooFewArguments`).
- A list variable cast to another list type arrives empty (`Types.CastKeepsElements`, `Types.VariableLosesElements`).
- The distance of an overload takes a forwarded pack for one more element, while its coercion hands the pack on, so
  the two disagree on some calls (`Coercion.DistanceAgreesWithCoercion`, `Coercion.ForwardedPackRejected`). This is
  about `getFunctionOverloadDistance`: neither of the overload sets that the program has, `int` and `str`
  (source/interp/builtin.cpp:593-606), has a variadic member.

Some readings of expressions are less usual: `-f(x)` calls `-f` (`Operators.PrefixBeforeSuffix`), `a.b ^ c` is
`a.(b ^ c)` (`Operators.Grouping`), and an assignment between `?` and `:` is an error (`Operators.TernaryMiddleBranch`).

The comment above `rehash_on_extreme_load` says that it shrinks the table after erasures; with the default minimum
load factor of zero it only clears the flag, and so does the model.

## Model

| member | source | states |
|---|---|---|
| GrowthPolicy.IsPowerOfTwoMeaning | external/tsl/robin_growth_policy.h:156-158 | the and-test accepts exactly the powers of two |
| GrowthPolicy.MaskIsModulo | external/tsl/robin_growth_policy.h:107-109 | masking a hash is its remainder by the bucket count |
| GrowthPolicy.MaskInRange | external/tsl/robin_growth_policy.h:103-109 | every hash goes to a bucket that exists |
| GrowthPolicy.MaskWraps | external/tsl/robin_hash.h:1140-1152 | masking the next index and comparing it with the count wrap alike |
| GrowthPolicy.TruncatedHashAgrees | external/tsl/robin_hash.h:1307-1317 | a stored, truncated hash leads to the same bucket as the whole hash |
| GrowthPolicy.SmearRight | external/tsl/robin_growth_policy.h:148-151 | the loop fills every bit below the highest one |
| GrowthPolicy.RoundUpToPowerOfTwo | external/tsl/robin_growth_policy.h:139-154 | the least power of two at or above the request |
| RobinTable.PlaceKeepsRobin | external/tsl/robin_hash.h:1235-1238 | an entry that fits its bucket keeps distances true and gently rising |
| RobinTable.CarryOn | external/tsl/robin_hash.h:1294-1297 | an entry pushed on one bucket can still be placed |
| RobinTable.ProbeMayStop | external/tsl/robin_hash.h:1166-1177 | the distance test ends a probe only when the key is nowhere in the table |
| RobinTable.DistBound | external/tsl/robin_hash.h:1166-1175 | no distance reaches past an empty bucket, so every probe ends |
| RobinTable.ShiftMovesHole | external/tsl/robin_hash.h:1193-1203 | one backward shift moves the hole one bucket on and keeps the invariant elsewhere |
| RobinTable.HoleCloses | external/tsl/robin_hash.h:1193-1193 | a hole before an empty or well placed bucket is no hole |
| RobinTable.EntriesCount | external/tsl/robin_hash.h:1245-1245 | the number of elements is the number of full buckets |
| RobinHash.RobinHash.constructor | external/tsl/robin_hash.h:521-560 | an empty table of the least power of two of buckets |
| RobinHash.RobinHash.Find | external/tsl/robin_hash.h:1162-1178 | the bucket of the key if the map holds it, the end otherwise |
| RobinHash.RobinHash.Probe | external/tsl/robin_hash.h:1210-1222 | where the key is, or where it would be put; the loop ends |
| RobinHash.RobinHash.Insert | external/tsl/robin_hash.h:1207-1251 | adds an absent key, leaves a present one alone, and reports which and where; the buckets double exactly when they must, are refused exactly when they cannot, and are to grow next time exactly if an entry was pushed 4096 buckets or more from home |
| RobinHash.RobinHash.InsertOrAssign | external/tsl/robin_hash.h:771-779 | the map updated at the key |
| RobinHash.RobinHash.InsertValue | external/tsl/robin_hash.h:1275-1300 | the swap chain keeps the invariant and every entry, and adds one; the flag to grow is set exactly if a full bucket other than the first took an entry that far from home |
| RobinHash.RobinHash.InsertValueOnRehash | external/tsl/robin_hash.h:1335-1352 | the same for the chain used by a rehash, from the home bucket |
| RobinHash.RobinHash.RehashImpl | external/tsl/robin_hash.h:1303-1322 | same map, new bucket count; fails only where the policy throws |
| RobinHash.RobinHash.RehashOnExtremeLoad | external/tsl/robin_hash.h:1363-1381 | exactly doubles the buckets, exactly when full or flagged; the map is untouched |
| RobinHash.RobinHash.Erase | external/tsl/robin_hash.h:903-920 | removes the key and nothing else, and counts what it removed |
| RobinHash.RobinHash.EraseFromBucket | external/tsl/robin_hash.h:1180-1204 | removing one bucket's entry keeps the invariant and all others |
| RobinHash.RobinHash.ShiftBack | external/tsl/robin_hash.h:1193-1203 | the shift loop ends, around the end of the array too, and loses nothing |
| RobinHash.RobinHash.Clear | external/tsl/robin_hash.h:720-732 | the empty map, same buckets |
| RobinRuns.Perform | external/tsl/robin_hash.h:1157-1322 | each operation answers and changes the map as a finite map would, with the bucket count it leads to; it is refused exactly under the growth policy's condition, and then nothing changes |
| RobinRuns.Run | external/tsl/robin_hash.h:1157-1322 | every run from a new table answers as a plain map does, for any hash, with refusals, growth and the flag to grow exactly as for one operation |
| RobinRuns.RefusalsExplained | external/tsl/robin_growth_policy.h:114-120 | an answer within a run is a refusal exactly if the buckets then could not be doubled, or too many were asked for |
| RobinRuns.RunsBelowLimitAgree | external/tsl/robin_growth_policy.h:114-120 | while at most half the buckets that can be are there, every answer is a plain map's |
| RobinRuns.NearRunsGrowWhenHalfFull | external/tsl/robin_hash.h:1283-1290 | a run in which no entry ever sits that far from home doubles the buckets exactly when they are half full |
| RobinRuns.ModestRunsAgree | external/tsl/robin_hash.h:1275-1300 | a run with few insertions is refused nothing, however badly the keys are spread |
| Parsing.ParseRhs | source/interp/parser.cpp:405-477 | the climbing loop consumes tokens and ends |
| ParserComplete.CompleteExpr | source/interp/parser.cpp:396-485 | every normal tree is what its own tokens parse to |
| ParserSound.SoundExpr | source/interp/parser.cpp:396-485 | every successful parse is a normal tree whose tokens are those consumed |
| ParserSound.SoundRhs | source/interp/parser.cpp:405-477 | the climbing loop only grows trees that stay in normal form |
| ParserTheorems.AcceptsExactlyNormal | source/interp/parser.cpp:345-670 | a parse gives a tree and a rest if and only if the tree is normal, its tokens were read and the next token does not go on with it |
| ParserTheorems.Unambiguous | source/interp/parser.cpp:345-670 | two normal trees with the same tokens are the same tree |
| ParserTheorems.ParseUndoesPrint | source/interp/expr.cpp:664-698 | the printed tokens of a tree parse back to it if and only if it is in normal form |
| Operators.PrecedenceNormalForm | source/interp/parser.cpp:163-226 | for trees of infix operators without dots, normal form is the table of levels: `^` nests right, the rest left |
| Operators.OnlyInfixIsBinary | source/interp/parser.cpp:168-226 | the parser takes no operator between two operands that is not in the ranking |
| Operators.Grouping | source/interp/parser.cpp:405-477 | of two infix operators in a row the tighter takes the middle operand, the first of equals, and `^` always, even after a dot |
| Operators.SuffixGrouping | source/interp/parser.cpp:422-434 | a call belongs to the operand before it, a subscript too but after a dot, and a splat to all before it |
| Operators.PrefixBeforeSuffix | source/interp/parser.cpp:396-403 | prefix operators are applied before calls, subscripts and splats |
| Operators.TernaryCondition | source/interp/parser.cpp:405-447 | the condition of a ternary takes all operators before it but assignments and the pipeline |
| Operators.TernaryMiddleBranch | source/interp/parser.cpp:442-447 | the middle branch takes all but these, which are errors there |
| Operators.TernaryLastBranch | source/interp/parser.cpp:447-447 | the last branch takes every operator |
| ParserTheorems.WholeSliceSwallows | source/interp/parser.cpp:641-647 | a concrete text in which `[:]` loses the token after it |
| ParserTheorems.WholeSliceMustBeLast | source/interp/parser.cpp:641-647 | a tree with a whole slice on the left of an operator is never read back |
| Ast.EmbedPrints | source/interp/expr.cpp:664-698 | the printers write exactly the tokens of a tree without parentheses |
| Ast.EmbedStrips | source/interp/parser.cpp:438-475 | building the tree from these tokens gives the tree that was printed |
| Ast.StripIsWf | source/interp/parser.cpp:449-467 | the parser's comparison chains are flat and have an operator between operands |
| Parser.ParseExpr | source/interp/parser.cpp:479-485 | the parser with its token state builds the specified tree and leaves the specified tokens |
| Parser.ParseUnary | source/interp/parser.cpp:396-403 | the same for prefix operators |
| Parser.ParsePrimary | source/interp/parser.cpp:345-394 | the same for literals, names, parentheses and lists |
| Parser.ParseElements | source/interp/parser.cpp:490-518 | the same for list elements and arguments, trailing commas included |
| Parser.ParsePostfix | source/interp/parser.cpp:607-680 | the same for calls, subscripts, slices and splats |
| Parser.ParseRhs | source/interp/parser.cpp:405-477 | the same for the loop that updates the left operand |
| Parser.PrintAndParse | source/interp/expr.cpp:664-698 | printing and parsing returns the tree, exactly for trees in normal form |
| WaitQueue.AccountedKept | source/include/synchro.h:110-170 | queue length stays semaphore value plus deferred notifications plus operations between their two steps |
| WaitQueue.PopFindsAnItem | source/include/synchro.h:159-170 | pop never reads an empty queue |
| WaitQueue.FifoKept | source/include/synchro.h:115-170 | what was popped is a prefix of what was enqueued, and the queue is the rest |
| WaitQueue.NoLostWakeupKept | source/include/synchro.h:85-102 | while threads sleep, the value never exceeds the wake-ups made or still to be made |
| WaitQueue.InvKept | source/include/synchro.h:81-182 | every step of every thread keeps all of these |
| WaitQueue.NoThreadStuck | source/include/synchro.h:81-182 | a thread within an operation and not asleep can always go on |
| WaitQueue.SafeInEveryRun | source/include/synchro.h:81-182 | no pop of an empty queue, order, the accounting equation and the wake-up bound hold after every interleaving of any length |
| ThreadPool.PoolInvKept | source/include/async.h:180-217 | every step keeps the count of stop jobs pushed and taken, the order of the jobs, and those submitted in time before the first stop job |
| ThreadPool.PopKeeps | source/include/async.h:208-213 | a worker that takes the stop token holds it until it has pushed it back |
| PoolRuns.TakenInOrder | source/include/async.h:190-217 | every job is taken once and in order, those submitted before the shutdown before any stop job; running jobs may submit more at any time |
| ThreadPool.OneStopJob | source/include/async.h:190-217 | while the pool shuts down there is one stop job, in the queue or in hand |
| PoolRuns.PopLeavesLess | source/include/async.h:208-208 | each pop lowers jobs left plus live workers by one |
| PoolRuns.OtherStepsTire | source/include/async.h:204-217 | no other internal step leaves more to take, and each brings its threads nearer to rest |
| PoolRuns.RankFalls | source/include/async.h:204-217 | every internal step lowers one natural number |
| PoolRuns.NeverStuck | source/include/async.h:190-217 | until all workers have exited some thread can step |
| PoolRuns.InternalRunsEnd | source/include/async.h:190-217 | no run without new jobs is longer than the rank at its start |
| PoolRuns.ShutdownCompletes | source/include/async.h:190-217 | a run that can go no further has all workers gone, all jobs submitted in time taken and one stop job left, which stands alone exactly if every job was taken |
| JsonRoundTrip.EscapedCharReadsBack | external/picojson.h:571-599 | any byte, escaped or not, is read back as itself |
| JsonRoundTrip.StrReadsBack | external/picojson.h:601-606 | any byte string is read back, up to its own closing quote |
| JsonRoundTrip.IntReadsBack | external/picojson.h:980-997 | the text of a 64-bit integer is taken whole and read back |
| JsonRoundTrip.ElemsReadBack | external/picojson.h:628-650 | array elements, in both layouts |
| JsonRoundTrip.MembersReadBack | external/picojson.h:651-679 | object members, into the entries read before them |
| JsonRoundTrip.ValueReadsBack | external/picojson.h:623-686 | any value at any depth, whatever follows it |
| JsonRoundTrip.SerialisedReadsBack | external/picojson.h:571-686 | compact and pretty output parse to the same value and leave what follows unread |
| JsonLayout.SerialisesTokens | external/picojson.h:609-686 | compact output is the tokens of the value and nothing else; pretty output is the same tokens with a line for each element, member and closing bracket, two blanks a depth |
| JsonLayout.EscapesExactly | external/picojson.h:571-599 | which bytes are escaped, which of these by two characters, and that no control is left |
| JsonLayout.NoLeadingZero | external/picojson.h:529-533 | numbers are written without leading zeros |
| JsonReparse.InsertKeepsSorted | external/picojson.h:1094-1098 | assigning a key keeps an object in the order of its keys, one entry a key |
| JsonReparse.InsertIsAssignment | external/picojson.h:1094-1098 | of equal keys the last value is kept; other keys keep theirs |
| JsonReparse.ParsedIsWf | external/picojson.h:947-1010 | whatever is parsed is a value in order, with integers of 64 bits |
| JsonReparse.ReserialisedReadsBack | external/picojson.h:571-1010 | any accepted text, written out in either layout, parses to the same value |
| JsonEscapes.TextRead | external/picojson.h:780-860 | a text of Unicode scalar values, each written plainly, as a short escape or as one or two `\u` escapes (section 7 of RFC 8259), is read as its UTF-8, up to the closing quote |
| JsonEscapes.SurrogatesMustPair | external/picojson.h:785-798 | a surrogate is read exactly as the high half of a pair; alone, reversed or doubled it fails |
| JsonEscapes.AcceptsExactlyStrings | external/picojson.h:821-860 | a string is accepted if and only if it is made of bytes that stand for themselves and escapes, and is what they stand for |
| JsonGrammar.AcceptsExactlyTheGrammar | external/picojson.h:862-1010 | a value is parsed off a text if and only if the text begins with one of the grammar: RFC 8259 with line comments, stray slashes, leading zeros and 64-bit integers |
| JsonReader.Input.GetC | external/picojson.h:703-716 | hands out the bytes one after the other, -1 at the end |
| JsonReader.Input.UngetC | external/picojson.h:717-719 | takes back one byte |
| JsonReader.Input.SkipWhiteSpace | external/picojson.h:731-739 | skips white space and nothing else |
| JsonReader.Input.Expect | external/picojson.h:740-746 | consumes the byte if it comes next after white space |
| JsonReader.Input.Match | external/picojson.h:748-756 | consumes the text if it comes next |
| JsonReader.ReadCodepoint | external/picojson.h:780-819 | code units and surrogate pairs, as UTF-8 |
| JsonReader.ReadString | external/picojson.h:821-860 | the string loop does what the grammar of strings says |
| JsonReader.ReadNumber | external/picojson.h:927-945 | takes the longest run of number bytes |
| JsonReader.Input.SkipLine | external/picojson.h:871-876 | moves to the end of the line, if it ends |
| JsonReader.ReadComments | external/picojson.h:871-876 | skips comments, and a single slash, as specified |
| JsonReader.ReadArray | external/picojson.h:862-892 | the array loop, comments included |
| JsonReader.ReadMember | external/picojson.h:910-915 | one key, colon and value |
| JsonReader.ReadObject | external/picojson.h:894-925 | the object loop, comments included |
| JsonReader.Read | external/picojson.h:947-1010 | the parser reads exactly the specified value and leaves exactly the specified text |
| JsonWriter.Output.WriteStr | external/picojson.h:601-606 | appends the escaped string |
| JsonWriter.Output.Write | external/picojson.h:623-686 | appends exactly the specified text, loops and indentation included |
| JsonWriter.OneMoreElem | external/picojson.h:633-641 | a turn of the element loop adds one separator and one element |
| JsonWriter.Serialised | external/picojson.h:612-614 | the text that is written parses back to the value |
| Utf8.AcceptsExactlyTheGrammar | external/utf8proc/utf8proc.c:125-171 | the decoder accepts exactly the byte sequences of section 4 of RFC 3629 |
| Utf8.DecodesToScalar | external/utf8proc/utf8proc.c:125-171 | what it decodes is a scalar value |
| Utf8.DecodesByTable | external/utf8proc/utf8proc.c:125-171 | and it is the number that the table in section 3 of RFC 3629 gives for these bytes |
| Utf8.SizeFitsValue | external/utf8proc/utf8proc.c:125-171 | and has the shortest form for it |
| Utf8.DecodeThenEncode | external/utf8proc/utf8proc.c:177-201 | encoding what was decoded gives the bytes back |
| Utf8.EncodeThenDecode | external/utf8proc/utf8proc.c:177-201 | decoding what was encoded gives the code point back, whatever follows |
| Utf8.Reencode | external/utf8proc/utf8proc.c:685-701 | in place, the result is the encoding of the original code points: none is overwritten before it is read |
| Utf8.EncodedTextReadsBack | external/utf8proc/utf8proc.c:685-701 | decoding the re-encoded text gives the code points and boundary markers |
| Utf8.ReadTextEncodesBack | external/utf8proc/utf8proc.c:513-545 | decoding and encoding a text gives its bytes |
| CanonicalOrder.Reorder | external/utf8proc/utf8proc.c:546-564 | the back-and-forth loop ends with the canonical order of the input |
| CanonicalOrder.SwapKeepsOrdered | external/utf8proc/utf8proc.c:555-558 | a swap does not change what the order will be |
| CanonicalOrder.SwapRemovesInversion | external/utf8proc/utf8proc.c:555-559 | a swap removes exactly one inversion, so the loop ends |
| CanonicalOrder.StarterStays | external/utf8proc/utf8proc.c:555-556 | class-zero code points never move and separate what is sorted |
| CanonicalOrder.RunIsStablySorted | external/utf8proc/utf8proc.c:546-564 | each run between them becomes sorted by class, equals in order |
| CanonicalOrder.StableSortIsUnique | external/utf8proc/utf8proc.c:546-564 | and nothing else would be such a sort |
| Grapheme.StepRemembers | external/utf8proc/utf8proc.c:296-315 | the one variable keeps what the rules need of all that was seen |
| Grapheme.StateDecides | external/utf8proc/utf8proc.c:261-289 | the pair rule on that variable decides as the look-back rules GB1 to GB999 do |
| Grapheme.Breaks | external/utf8proc/utf8proc.c:480-489 | a text breaks exactly where the rules say |
| Grapheme.FlagsPairUp | external/utf8proc/utf8proc.c:302-303 | regional indicators pair up in runs of any length |
| Grapheme.JoinedEmoji | external/utf8proc/utf8proc.c:305-312 | any number of extending code points may stand before the joiner of two emoji |
| Bytes.XorTwice | source/network/websocket.cpp:367-368 | exclusive or undoes itself |
| Bytes.BitOfXor | source/network/websocket.cpp:367-368 | a bit of an exclusive or is set where the two differ |
| Bytes.BigEndianReadsBack | source/network/websocket.cpp:337-348 | network byte order is read back |
| Bytes.Buffer.Write | source/misc/buffer.cpp:83-91 | writes what there is room for and says how much |
| Bytes.Buffer.Resize | source/misc/buffer.cpp:95-109 | only expands, and keeps the contents |
| Bytes.Buffer.Grow | source/misc/buffer.cpp:93-93 | 1.6 times the capacity, rounded down |
| Frames.WirePrefix | source/network/websocket.cpp:192-242 | a frame is recognised exactly when all its bytes are there, and never differently before |
| Frames.FrameBytesRead | source/network/websocket.cpp:192-242 | the bytes of an unmasked frame by section 5.2 of RFC 6455, in any form of its length, are read as that frame, whatever follows |
| Frames.ReadIsFrame | source/network/websocket.cpp:192-242 | and what is read as a frame is such bytes |
| Frames.NonsenseIsNoFrame | source/network/websocket.cpp:192-198 | the receiver gives up on bytes if and only if they are the start of no frame |
| Frames.NonsenseDropsRest | source/network/websocket.cpp:193-198 | then all that came after the last whole frame is dropped, and nothing before |
| Frames.DrainOfPrefix | source/network/websocket.cpp:186-252 | of any prefix of a stream, the complete frames are taken and the last part is kept, unless it is one byte |
| Frames.OneMoreChunk | source/network/websocket.cpp:173-252 | one more delivery keeps the handler up to date exactly if it does not end one byte into a frame |
| Frames.UpToDateThroughout | source/network/websocket.cpp:173-252 | it is up to date throughout a stream if and only if no delivery ends one byte into a frame |
| Frames.ChunkIndependence | source/network/websocket.cpp:173-252 | then exactly the frames sent are dispatched, in order, and nothing is kept |
| Frames.OneByteCutLosesFrame | source/network/websocket.cpp:186-251 | cut one byte in, a frame is never dispatched, whatever else is |
| WebSocket.WebSocket.TakeFrames | source/network/websocket.cpp:181-251 | the loop over buffer and offset drains what is there |
| WebSocket.WebSocket.Receive | source/network/websocket.cpp:173-252 | one delivery dispatches and keeps what the specification says |
| WebSocket.WebSocket.ReceiveAll | source/network/websocket.cpp:173-252 | so do any number of deliveries |
| WebSocket.ReceiveStream | source/network/websocket.cpp:173-252 | a stream of frames in the bytes of RFC 6455 arrives as those frames, however it was cut (but one byte in) |
| WebSocket.SentFrameReadsBack | source/network/websocket.cpp:308-368 | header, key and masked payload read back as the frame, by sections 5.2 and 5.3 of RFC 6455 |
| WebSocket.MaskedTwice | source/network/websocket.cpp:367-368 | masking again unmasks |
| WebSocket.MaskedBits | source/network/websocket.cpp:367-368 | masking flips exactly the bits where the key, taken round and round, has a one |
| WebSocket.SendRaw | source/network/websocket.cpp:308-372 | what is sent is the masked frame of section 5.2 of RFC 6455 with the shortest length, and reads back as the payload given; invalid opcodes are refused |
| CodecRoundTrip.NumberReadsBack | source/include/serialise.h:66-85 | the one, three and nine byte forms of a number are told apart |
| CodecRoundTrip.TextReadsBack | source/include/serialise.h:293-305 | a string is read back with the bytes after it untouched |
| CodecRoundTrip.ReadsBack | source/interp/ser.cpp:755-796 | any tree is read back from its bytes, and what follows is untouched |
| CodecRoundTrip.WrittenApart | source/interp/ser.cpp:755-796 | two trees are written alike only if they are the same |
| CodecGrammar.DecodesExactlyTheGrammar | source/include/serialise.h:214-402 | bytes are read as a tree if and only if they are of the grammar for it, numbers in any of their forms |
| CodecShortest.DecodedFits | source/include/serialise.h:214-402 | what is read is a tree that can be written, in no more bytes than were read |
| CodecShortest.ReencodedReadsBack | source/include/serialise.h:53-402 | loading, saving and loading again changes nothing |
| CodecWriter.GrowthMovesOn | source/misc/buffer.cpp:93-93 | growing makes progress exactly from capacity 2 on |
| CodecWriter.Writer.Ensure | source/include/serialise.h:177-182 | the loop ends with room enough, and with how much |
| CodecWriter.Writer.WriteNumber | source/include/serialise.h:66-85 | no byte of a number is dropped |
| CodecWriter.Writer.WriteText | source/include/serialise.h:110-116 | a string is written whole, or without its last byte exactly under the stated condition on length and capacity |
| CodecWriter.TextRoom | source/include/serialise.h:112-115 | when the room made is one byte short |
| CodecWriter.RoomForNineTooFew | source/include/serialise.h:112-115 | a capacity at which that happens, for every long string |
| CodecWriter.LostByteIsFatal | source/include/serialise.h:293-305 | a string that lost its last byte cannot be read |
| CodecWriter.Writer.WriteNode | source/interp/ser.cpp:12-661 | a tree is appended whole, however the buffer grows |
| CodecWriter.Written | source/include/serialise.h:53-182 | from any capacity of at least 2, the whole tree is in the buffer and reads back |
| CodecReader.Span.RemovePrefix | source/include/buffer.h:83-83 | drops bytes from the front, never more than there are |
| CodecReader.Span.ReadNumber | source/include/serialise.h:254-283 | reads the specified number and leaves the specified bytes |
| CodecReader.Span.ReadText | source/include/serialise.h:293-305 | the same for strings |
| CodecReader.Span.ReadChildren | source/include/serialise.h:306-325 | the same for vectors of nodes |
| CodecReader.Span.ReadNode | source/interp/ser.cpp:755-796 | the same for expressions, statements and blocks |
| Markov.BumpCounts | source/markov/markov.cpp:449-459 | one window more raises one frequency and the total by one, and keeps one slot a word |
| Markov.WindowsCountRuns | source/markov/markov.cpp:428-436 | the window loops take a window as often as its words occur one after the other, for prefixes of one to three words |
| Markov.Select | source/markov/markov.cpp:494-511 | a draw below the total never falls off the list; it stops at the slot whose share it lies in |
| Markov.FaithfulSampling | source/markov/markov.cpp:492-512 | over all draws each word is selected exactly as often as its frequency says |
| Markov.OneWordPerDraw | source/markov/markov.cpp:494-511 | a draw below the total selects one word and no other |
| MarkovCounts.RecordOne | source/markov/markov.cpp:439-459 | the table after one window counts one lesson more |
| MarkovCounts.WindowsAreRuns | source/markov/markov.cpp:426-436 | the windows of a corpus are its runs of two to four words, each as often as it occurs |
| MarkovCounts.PrefixesOccur | source/markov/markov.cpp:428-436 | the prefixes of a corpus are exactly its runs of one to three words that a word follows |
| MarkovCounts.FrequenciesAreCounts | source/markov/markov.cpp:416-462 | for any hash function, what is stored for a hash and a word is how often the word follows the prefixes of the corpus with that hash |
| MarkovCounts.ExactUnlessCorpusCollides | source/markov/markov.cpp:437-447 | the list of a prefix counts what follows this prefix alone if and only if no other prefix of the corpus has its hash |
| MarkovModels.TaughtInBounds | source/markov/markov.cpp:416-462 | no lesson names a word outside the list, or the start marker as a successor |
| MarkovModels.MarkovModel.GetWordIndex | source/markov/markov.cpp:284-305 | known words keep their index; a new one is the end of the list; emotes are kept apart |
| MarkovModels.KeysApart | source/markov/markov.cpp:286-291 | a word and an emote never share a key, nor do two words |
| MarkovModels.PlainWordsFound | source/markov/markov.cpp:286-302 | what a seed word leads to is that word and no emote |
| MarkovModels.MarkovModel.Learn | source/markov/markov.cpp:439-459 | the locked step records one lesson |
| MarkovModels.MarkovModel.Train | source/markov/markov.cpp:426-462 | after training the table records exactly the corpus and this sentence |
| MarkovModels.MarkovModel.ProcessOne | source/markov/markov.cpp:403-462 | which messages are trained on, and that the indices spell them |
| MarkovModels.MarkovModel.GenerateOne | source/markov/markov.cpp:471-521 | the word the draw selects after the longest known suffix of at most the drawn length; the end marker if there is none |
| MarkovModels.MarkovModel.GenerateOnce | source/markov/markov.cpp:532-564 | the known seed words or the start marker, then each next word up to the end marker or fifty words: fixed by the draws |
| MarkovModels.MarkovModel.NextFollows | source/markov/markov.cpp:484-516 | a next word that is not the end was trained after a suffix of at most three words, and is a word of the list |
| MarkovModels.MarkovModel.GeneratedIsFaithful | source/markov/markov.cpp:523-571 | in a whole generation every index is in bounds and every word past the seed was trained after what precedes it |
| MarkovModels.MarkovModel.GenerateMessage | source/markov/markov.cpp:523-571 | returns the first try that is long enough or else the last, and it is faithful |
| Types.SameReflexive | source/interp/type.cpp:113-144 | sameness of types is reflexive |
| Types.SameSymmetric | source/interp/type.cpp:113-144 | and symmetric |
| Types.SameTransitive | source/interp/type.cpp:113-144 | and transitive |
| Types.SameButForVariadic | source/interp/type.cpp:113-144 | two types are the same if and only if they are equal once every variadic list is a list, at any depth |
| Types.AtomicSameIsEqual | source/interp/type.cpp:143-143 | types without parts are the same only as themselves |
| Types.CastIsTotal | source/interp/value.cpp:242-261 | a cast succeeds exactly when the distance is not -1 |
| Types.CastableAtom | source/interp/type.cpp:50-111 | a type without parts casts to itself and to generic types alone |
| Types.CastableList | source/interp/type.cpp:56-65 | exactly when a list can be cast |
| Types.CastableMap | source/interp/type.cpp:66-88 | exactly when a map can be cast |
| Types.CastableFunction | source/interp/type.cpp:89-103 | exactly when a function can be cast: argument by argument |
| Types.ListCastsRanked | source/interp/type.cpp:56-65 | a list is closest to its own type, then to a list of anything, then to generic types |
| Types.MapCastsRanked | source/interp/type.cpp:66-88 | so is a map, and the fewer of its parts are left open the closer |
| Types.CastOutcome | source/interp/value.cpp:242-261 | what a cast gives, in every case |
| Types.CastIsIdempotent | source/interp/value.cpp:242-261 | casting twice is casting once |
| Types.CastArrives | source/interp/value.cpp:242-261 | the result has the type asked for, or is unchanged for generic and function targets |
| Types.CastKeepsEntries | source/interp/value.cpp:254-255 | what becomes of the entries of a map |
| Types.FreeCastIsSame | source/interp/type.cpp:50-56 | cost zero means the same type, functions aside |
| Types.CastKeepsElements | source/interp/value.cpp:251-252 | when the elements of a list survive a cast |
| Types.VariableLosesElements | source/interp/value.cpp:251-252 | a list variable that arrives empty |
| Types.ReturnTypeIgnored | source/interp/type.cpp:89-103 | functions that differ in their result alone cost nothing to cast and are not the same |
| Types.DecayIsIdempotent | source/interp/value.cpp:263-302 | decaying twice is decaying once |
| Types.DecaySettles | source/interp/value.cpp:263-302 | decaying leaves no lvalue at any depth, and keeps the type, elements and entries behind them |
| Coercion.GetFunctionOverloadDistance | source/interp/function.cpp:164-203 | the sum of the cast costs, or -1 exactly if an argument or their number does not fit |
| Coercion.ExactIsFree | source/interp/function.cpp:164-203 | an overload that matches exactly costs nothing |
| Coercion.ExactBeatsVariadic | source/interp/function.cpp:187-199 | so no variadic overload is preferred to it |
| Coercion.CoerceTypesForFunctionCall | source/interp/function.cpp:216-285 | the specified arguments, packed and forwarded as the code does |
| Coercion.CoercedArguments | source/interp/function.cpp:236-284 | each fixed argument is in its place, cast to its parameter, and the pack holds the rest or what was forwarded, each cast to the element type |
| Coercion.CoerceIsIdempotent | source/interp/function.cpp:216-285 | coercing twice is coercing once, exactly if each fixed parameter has its argument |
| Coercion.TooFewArguments | source/interp/function.cpp:221-225 | a call for which it is not |
| Coercion.AcceptedIsCoerced | source/interp/function.cpp:164-285 | for a call that forwards no pack, a distance other than -1 and a successful coercion are the same |
| Coercion.ForwardedDistance | source/interp/function.cpp:186-202 | a forwarded pack has a distance if and only if the fixed arguments fit and the element type takes a whole list |
| Coercion.ForwardedCoercion | source/interp/function.cpp:250-275 | it coerces if and only if the fixed arguments and each of its elements fit |
| Coercion.DistanceAgreesWithCoercion | source/interp/function.cpp:164-285 | for every call, exactly when a distance other than -1 and a successful coercion are the same |
| Coercion.ForwardedPackRejected | source/interp/function.cpp:187-199 | one family of calls on which they differ: packs of numbers for a function of any numbers |
| Coercion.ChooseOverload | source/interp/builtin.cpp:662-683 | the cheapest overload that accepts, the first of equals; none only if none does |
| Coercion.RunOverloadSet | source/interp/builtin.cpp:662-691 | the overload chosen takes its arguments, but for a forwarded pack exactly if its elements fit; what could have been called is turned down only for its cost or as a pack that is no element |
| RateLimits.RateLimit.Attempt | source/include/rate.h:24-41 | grants and changes the bucket as specified |
| RateLimits.TokensConserved | source/include/rate.h:24-41 | grants and tokens left come from the start or from refills |
| RateLimits.TokensConservedExactly | source/include/rate.h:24-41 | and none is lost, while 64 bits hold them all |
| RateLimits.SpacedAttemptsGranted | source/include/rate.h:24-41 | of attempts that keep the interval as many are granted as the first of them found tokens, up to the limit |
| RateLimits.RefillsApart | source/include/rate.h:26-30 | refills are at least a period apart |
| RateLimits.GrantsBounded | source/include/rate.h:24-41 | over a run, at most the initial tokens and one limit for each period begun |
| RateLimits.GrantsApart | source/include/rate.h:35-39 | grants are at least the minimal interval apart |
| RateLimits.TwoWaits | source/include/rate.h:43-57 | after a refusal, at most two waits until next() and a retry is granted |
| RateLimits.NextIsEarliest | source/include/rate.h:43-57 | before the time that next() names, every attempt is refused |
| Headers.EmittedReadsBack | source/network/http.cpp:130-223 | the written block parses back, keys in lower case, if and only if it is printable (section 3 of RFC 7230) |
| Headers.PrefixIsIncomplete | source/network/http.cpp:183-223 | every strict prefix of it is reported as incomplete |
| Headers.ParsedIsPrintable | source/network/http.cpp:183-223 | whatever is parsed is printable |
| Headers.ParsedReadsBack | source/network/http.cpp:130-223 | a parsed block, written again, parses to itself |
| Headers.AcceptsExactly | source/network/http.cpp:183-223 | a block is accepted if and only if it is a status line, header lines with any number of spaces before the values and an empty line, and is what these say |
| Headers.LowerFolds | source/network/http.cpp:199-199 | keys that differ in ASCII case alone become equal, no others do, and no upper case is left |
| Headers.HttpHeaders.Add | source/network/http.cpp:114-128 | appends a header and keeps the expected length true |
| Headers.HttpHeaders.Bytes | source/network/http.cpp:130-143 | writes the block, in exactly the room reserved |
| Headers.ParseHeaders | source/network/http.cpp:188-223 | the view-consuming loop parses as specified |

## Left out

- Hash table: range erase, iterators, allocators, exceptions, moves, configurable load factors; the float product of the load factor is taken as half the bucket count, and a distance is an integer and not 16 bits wide.
- RobinRuns.Run: keys and values hold no references; the table itself takes any values.
- Parser: the lexer and the spacing of printed text, lambdas, `$` names, imaginary suffixes, types, statements; error messages, and the tokens left behind by a failure.
- Parser.ParsePrimary: lambdas, `$` names and imaginary suffixes have no case.
- Ast.Expr: operators keep their symbol and not their text; literals and names are their text.
- Ast.EmbedPrints: prints tokens, not characters, so `+` before `++` is not told from `++` before `+`.
- Wait queue and pool: values, not objects; one step is one locked region or one atomic operation; counters are unbounded; the futures of `run` and the jobs' own work are one step.
- PoolRuns.TakenInOrder: once the destructor has begun, jobs that are still running may submit others, but other threads may not: they would be using an object that is being destroyed.
- PoolRuns.RankFalls: spurious wake-ups are left out of what is said about termination, since a thread may wake without end; every safety property holds with them.
- Json.ParseValue: numbers other than 64-bit integers are failures here, and the original reads them as doubles; line counting is left out. A comment that the end of the text cuts off is a failure, where the original reads past the end.
- JsonReader.Read: covers numbers as Json.ParseValue does: doubles are failures.
- JsonReparse.ParsedIsWf: says nothing of texts with doubles, for the same reason.
- JsonReparse.ReserialisedReadsBack: says nothing of texts with doubles; printing a double with 17 digits is rounding, which is not modelled.
- Unicode: property tables, decomposition, composition, newline conversion, the null-terminated mode, and the stateful entry point that starts from state zero.
- Utf8.Reencode: begins after the call that normalises newlines and composes, at the loop over the code points.
- WebSocket: the handshake, ping and close handling, callbacks and message assembly; the sum of a 64-bit length and a header does not wrap around.
- Codec.Node: covers the classes that a deserialiser knows; lambdas, nested blocks and nested function definitions have no case there. Doubles are their 64 bits; enums and code points are the number on the wire.
- CodecReader.Span.ReadNumber: like Codec.DecodeNumber, fails on a number cut off by the end of the span, where the original reads past the end.
- CodecReader.Span.ReadChildren: like Codec.DecodeAll, fails when one element fails; the original keeps a null argument or statement and goes on.
- CodecReader.Span.ReadNode: has no null children, for that reason; no serialiser writes one.
- Bytes.Buffer.Grow: 1.6 is the exact fraction, not its rounding to a double.
- Markov: tokenising, emote positions, random sources, locking, reload from disk, and the spelling out of a generated message; counters are unbounded.
- MarkovModels.MarkovModel.ProcessOne: takes the words of the message, already split.
- Types.DecayEntries: keeps the entries of a map in place; key order and merging after a decay are left out.
- Coercion.CoerceTypesForFunctionCall: error messages are left out, and costs do not wrap around.
- RateLimits.GrantsBounded: needs a positive period; with a period of zero every attempt refills.
- RateLimits.RateLimit: the setters, and the duration types, which are ticks here.
- Headers: status codes, URLs, chunked bodies, and the sockets beneath.
- Sessions, console, configuration, file synchronisation, database, evaluation of expressions.
