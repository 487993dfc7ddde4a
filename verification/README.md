# Laghu in Dafny

A model of the code that Laghu itself is responsible for, and proofs about it. Laghu is a C++
server whose own layers are small, bounded and stateful: memory that is charged to budgets before
it is used, wire formats, a parser and the arithmetic of its benchmark evaluator, and state
machines around the libraries it wraps. Each module models one of these layers.

| module | layer |
|---|---|
| `Words`, `Arithmetic`, `Sequences`, `BitStrings` | machine limits, bytes, `Option`, `Result`, error codes; powers, quotients, bit strings |
| `MemoryBudget` | the tree of memory budgets and its reservations |
| `BoundedArena` | the bump allocator with generations and pins |
| `ArenaMemory` | first-fit malloc, calloc, realloc and free over the arena |
| `BoundedBuffer` | the growable FIFO byte buffer over a block source |
| `SharedBudget` | several arenas and buffers over one tree of budgets |
| `IoSlices` | the list of slices for vectored writes |
| `SlabPool` | the fixed pool with an intrusive free list |
| `BigEndian`, `Crc32c`, `BinaryEnvelope` | the `LGHU` envelope with CRC-32C |
| `Utf8`, `Protobuf`, `Otlp`, `OtlpEncoder` | the OTLP encoder |
| `OtlpBytes`, `OtlpReader` | the bytes of a request written out, and a consumer that reads them |
| `JsonGrammar`, `JsonTables`, `JsonDocument` | the evaluator's JSON parser and its flat tables |
| `Regression`, `Bootstrap` | exact parts per million and the bootstrap verdict |
| `DocumentValidator` | the validation of parsed JSON documents |
| `Lifecycle` | the dependency lifecycle with forks |
| `DnsResolver` | query slots, tokens and sockets of the resolver |

How the model relates to the code:

- An object whose methods update its fields is a class with those fields; its `Valid()` is the
  invariant, every method keeps it, and every method states its whole effect, on what it shares
  with other objects too. "For every run" is therefore a statement about every sequence of calls.
  Where calls nest, processes multiply or clients share a budget, `DnsResolver.Resolver.Run`,
  `Lifecycle.World.Run` and `SharedBudget.Run` execute an arbitrary script of calls.
- Objects that point at each other (budgets and reservations, slots and leases, processes) are
  records in sequences that name each other by index. Addresses are offsets. `std::size_t` and
  `std::uint64_t` are numbers below 2^64, with the overflow tests of the code in their place.
- Moving and destroying are methods. Where the code tests its state for a case it believes
  impossible, above all where it would call `std::terminate`, the branch is written out and proved
  dead with `assert false`.
- The environment is a parameter: the block a source offers, the answer of a hook, what the native
  resolver does during a call, the numbers of the random generator, the library's sort (some
  sorted permutation). A proof holds for every value of these parameters.
- Bytes are numbers below 256; a 32-bit checksum register is a sequence of 32 bits, least
  significant first, because its proofs are about single bits.

The contracts that the native libraries are assumed to keep: c-ares fires the callback of a query
at most once, `ares_cancel` in the socket-capacity path fires it before it returns, and
`ares_destroy` reports every socket of its channel as closed and reports nothing else; a fork
gives the child a process number that no ancestor has; a block source hands out a block of the
size it reports.

Some members state more than the code's documentation does. `BinaryEnvelope.OddFlipsRejected` and
`Crc32c.ChecksumParity` follow from the polynomial having an even number of terms, and
`OtlpReader` reads batches back by the field numbers of the OTLP definition.

## Model

| member | source | states |
|---|---|---|
| `ArenaMemory.MemoryPool.Malloc` | src/adapters/private/laghu/adapters/internal/arena_memory.hpp:36-68 | First fit: a free block is taken exactly when one is large enough, and it is the first such one; only otherwise does the arena grow. Fails exactly when nothing fits and the arena refuses. Every live payload keeps its bytes and stays live; the heap stays well formed (blocks with their headers pairwise disjoint, aligned, below the used mark; the free list acyclic, each free block on it once). The pins of the arena, and every reservation that is not its own, stay as they were. |
| `ArenaMemory.MemoryPool.FromListOrArena` | src/adapters/private/laghu/adapters/internal/arena_memory.hpp:39-68 | The part of `malloc` after synchronising: from the free list if something fits, from the arena otherwise; the exact condition for failure. |
| `ArenaMemory.Search` | src/adapters/private/laghu/adapters/internal/arena_memory.hpp:40-46 | The walk ends at the first block that is large enough, with its predecessor at hand, or at the end of a list on which nothing fits. |
| `ArenaMemory.MemoryPool.TakeFirstFit` | src/adapters/private/laghu/adapters/internal/arena_memory.hpp:47-56 | Unlinking the first fit leaves the other free blocks in their order and gives the block out with the size asked for. |
| `ArenaMemory.MemoryPool.Extend` | src/adapters/private/laghu/adapters/internal/arena_memory.hpp:57-67 | A new block lies above everything handed out so far; the read of the fresh view cannot fail. |
| `ArenaMemory.MemoryPool.Synchronize` | src/adapters/private/laghu/adapters/internal/arena_memory.hpp:25-30 | After a reset of the arena the pool starts over with no blocks. |
| `ArenaMemory.MemoryPool.Free` | src/adapters/private/laghu/adapters/internal/arena_memory.hpp:70-78 | A live block goes to the front of the free list and no other header changes; a null pointer changes nothing. |
| `ArenaMemory.MemoryPool.Calloc` | src/adapters/private/laghu/adapters/internal/arena_memory.hpp:80-86 | Refused when the product does not fit a word, and otherwise exactly when `malloc` of the product is; all requested bytes are zero and every other live payload is untouched. |
| `ArenaMemory.MemoryPool.Clear` | src/adapters/private/laghu/adapters/internal/arena_memory.hpp:84 | Zeroing inside one live block changes no other payload. |
| `ArenaMemory.MemoryPool.Realloc` | src/adapters/private/laghu/adapters/internal/arena_memory.hpp:88-104 | Null allocates, size zero frees, a fitting size stays in place, a larger one moves; a move fails exactly when nothing fits and the arena refuses; the first min(used, size) bytes survive, a failed call leaves the heap as it was, and no other live payload changes. |
| `ArenaMemory.MemoryPool.Move` | src/adapters/private/laghu/adapters/internal/arena_memory.hpp:99-103 | The move of `realloc`: new block, common prefix copied, old block freed; fails exactly when `malloc` would, and leaves the old block intact. |
| `ArenaMemory.Fill` | src/adapters/private/laghu/adapters/internal/arena_memory.hpp:84 | `memset` of zeros as one overwrite of the storage. |
| `ArenaMemory.Copy` | src/adapters/private/laghu/adapters/internal/arena_memory.hpp:101 | `memcpy` between disjoint ranges as one overwrite of the storage. |
| `ArenaMemory.AllocatedKeeps` | src/adapters/private/laghu/adapters/internal/arena_memory.hpp:36-68 | Whatever allocation does: the heap stays well formed, the block was not live and is now, and every other block keeps its header and its liveness. |
| `ArenaMemory.AllocatedKept` | src/adapters/private/laghu/adapters/internal/arena_memory.hpp:36-68 | No live payload changes by an allocation. |
| `ArenaMemory.UnlinkedWellFormed` | src/adapters/private/laghu/adapters/internal/arena_memory.hpp:47-56 | Unlinking any free block keeps the heap well formed and makes exactly that block live. |
| `ArenaMemory.PushedWellFormed` | src/adapters/private/laghu/adapters/internal/arena_memory.hpp:74-77 | Freeing a live block keeps the heap well formed and takes exactly that block out of the live ones. |
| `ArenaMemory.ExtendedWellFormed` | src/adapters/private/laghu/adapters/internal/arena_memory.hpp:57-67 | A block above the used mark is disjoint from all others. |
| `ArenaMemory.ResizedWellFormed` | src/adapters/private/laghu/adapters/internal/arena_memory.hpp:95-98 | Changing the used size within the capacity keeps the heap well formed. |
| `ArenaMemory.Apart` | src/adapters/private/laghu/adapters/internal/arena_memory.hpp:36-104 | Two live blocks never overlap. |
| `ArenaMemory.OverwrittenKept` | src/adapters/private/laghu/adapters/internal/arena_memory.hpp:84-101 | A write inside one live payload changes no other one. |
| `ArenaMemory.CopiedPrefix` | src/adapters/private/laghu/adapters/internal/arena_memory.hpp:101 | After the copy old and new payload agree on their common prefix. |
| `ArenaMemory.ReallocatedMeans` | src/adapters/private/laghu/adapters/internal/arena_memory.hpp:88-104 | What a `realloc` does to the block itself, case by case. |
| `ArenaMemory.MovedKept` | src/adapters/private/laghu/adapters/internal/arena_memory.hpp:99-103 | Allocating, copying and freeing together: the heap of the move, the common prefix in the new block, and every other payload as it was. |
| `Arithmetic.ProductFits` | src/adapters/private/laghu/adapters/internal/arena_memory.hpp:81-82 | The division test of `calloc` recognises exactly the products that fit. |
| `JsonGrammar.ParsesExactly` | bench/evaluator.cpp:141-401 | The recursive-descent grammar accepts a text exactly when it is the rendering of a well-formed document within the depth limit, and then returns that document: sound, complete and unambiguous. |
| `JsonGrammar.ValueSound` | bench/evaluator.cpp:353-401 | What is parsed is well formed, within the depth, and renders back to exactly the text consumed. |
| `JsonGrammar.ValueComplete` | bench/evaluator.cpp:353-401 | Every well-formed value within the depth is parsed back from its rendering. |
| `JsonGrammar.KidsSound` | bench/evaluator.cpp:291-349 | The same for the children of a container, with pairwise distinct keys in objects. |
| `JsonGrammar.KidsComplete` | bench/evaluator.cpp:291-349 | Children with distinct keys are parsed back from their rendering. |
| `JsonGrammar.NumbersAreDecimal` | bench/evaluator.cpp:256-273 | The numbers of the subset are the decimal texts of the 64-bit words, by repeated division, each of exactly one word. |
| `JsonGrammar.DecimalReads` | bench/evaluator.cpp:271-272 | Reading the decimal text of any number returns that number. |
| `JsonGrammar.ReadsDecimal` | bench/evaluator.cpp:271-272 | A run of digits without a leading zero is the decimal text of the number it is read as. |
| `JsonGrammar.ContainerText` | bench/evaluator.cpp:284-351 | The text of an array or object is the texts of its children joined by commas between brackets or braces. |
| `JsonTables.ParsedTablesDenote` | bench/evaluator.cpp:158-351 | The flat node, member and element tables written for a tree denote that tree, although nested entries interleave with their parent's. |
| `JsonTables.EmbeddedDenotes` | bench/evaluator.cpp:158-200 | Tables that contain a tree's entries anywhere denote it, whatever lies around them. |
| `JsonTables.OwnEntries` | bench/evaluator.cpp:163-184 | Filtering the shared table by parent gives exactly that parent's children in document order. |
| `JsonTables.KidSegment` | bench/evaluator.cpp:308-338 | The entries between two siblings' nodes are exactly those of the first one's subtree. |
| `JsonDocument.Document.Load` | bench/evaluator.cpp:141-154 | Succeeds exactly on documents of the JSON subset that fit the tables and the depth limit; the tables then denote the document's value. A document without children leaves the one node that its text spells: null, true, false, the number of a decimal text, the raw body of a string, or an empty array or object. |
| `JsonDocument.Document.ReadValue` | bench/evaluator.cpp:353-401 | Agrees with the grammar and adds exactly the entries of the value it reads. |
| `JsonDocument.Document.ReadContainer` | bench/evaluator.cpp:284-351 | Agrees with the grammar for objects and arrays, including the duplicate-key test and the table capacities. |
| `JsonDocument.Document.ReadString` | bench/evaluator.cpp:213-254 | Consumes exactly a string of the grammar and returns its raw body. |
| `JsonDocument.Document.CharacterLength` | bench/evaluator.cpp:219-251 | The length of one character or escape sequence, or nothing if it is not allowed. |
| `JsonDocument.Document.ReadNumber` | bench/evaluator.cpp:256-273 | Consumes exactly an unsigned number without leading zeros that fits a word, and returns the number whose decimal text it is. |
| `JsonDocument.FromChars` | bench/evaluator.cpp:271-272 | The conversion digit by digit in a word; refused exactly when the number does not fit. |
| `JsonDocument.NumberDenoted` | bench/evaluator.cpp:256-273 | Anywhere in a document, the number of a node is the one whose decimal text stands there. |
| `JsonDocument.Document.SkipSpace` | bench/evaluator.cpp:207-211 | Skips exactly the leading white space. |
| `JsonDocument.Document.AppendNode` | bench/evaluator.cpp:275-282 | One more node, unless the table is full. |
| `JsonDocument.Document.HasKey` | bench/evaluator.cpp:296-300 | The scan over all members finds a key exactly when the current object has it already. |
| `JsonDocument.Document.Element` | bench/evaluator.cpp:171-186 | The i-th child of an array in document order, and nothing beyond the last; nothing for a null node. |
| `JsonDocument.Document.ElementCount` | bench/evaluator.cpp:188-200 | The number of children of an array; zero for anything else, a null node included. |
| `JsonDocument.Document.Field` | bench/evaluator.cpp:158-169 | Finds a member exactly when there is a node, it is an object and it has the key, and then the unique one. |
| `JsonDocument.AcceptsExactly` | bench/evaluator.cpp:141-154 | The accepted documents, in terms of the grammar and the table capacities. |
| `Regression.RegressionPpm` | bench/evaluator.cpp:984-1030 | With a nonzero baseline, the quotient of the change for the worse times 1000000 by the baseline, rounded towards zero; nothing exactly when that exceeds the signed maximum; the extreme signed words for a zero baseline. All variables are 64-bit words, so nothing wraps. |
| `Regression.Fraction` | bench/evaluator.cpp:999-1021 | The twenty-step long division multiplies a proper fraction by a million and rounds down, exactly; the overflow test inside the loop is dead. |
| `Regression.Reduce` | bench/evaluator.cpp:1002-1016 | One step: twice the remainder plus the fraction, reduced by the divisor into a carry and a proper remainder. |
| `Regression.Doubling` | bench/evaluator.cpp:1002-1020 | Why a step is right: the product so far equals quotient times divisor plus remainder, and the quotient stays below the multiplier. |
| `Regression.WholeAndFraction` | bench/evaluator.cpp:997-1026 | Whole part and fraction together are the floor of the full product. |
| `Regression.ChangeMeans` | bench/evaluator.cpp:994-1028 | The change in parts per million, as an inequality between products. |
| `Regression.ChangeSign` | bench/evaluator.cpp:995-1028 | Only a change for the worse is positive. |
| `Regression.ParsePercentPpm` | bench/evaluator.cpp:782-823 | Reads exactly the texts of digits, optionally with a point and one to four more, whose value in parts per million fits a word; the early overflow test rejects nothing else. A number written with four places is read back as it was. |
| `Regression.PercentageMeans` | bench/evaluator.cpp:782-823 | The whole part counts 10^4, and k digits of a fraction count 10^(4 - k). |
| `Regression.ShownReads` | bench/evaluator.cpp:782-823 | Parts per million written as a percentage with four places are read back. |
| `Regression.FormExactly` | bench/evaluator.cpp:782-823 | Which texts are percentages, character by character. |
| `Regression.ReadWhole` | bench/evaluator.cpp:786-796 | The leading digits, or a proof that their value is out of range. |
| `Regression.ReadFraction` | bench/evaluator.cpp:800-817 | One to four digits padded to four. |
| `Bootstrap.SampleMean` | bench/evaluator.cpp:940-957 | The mean, rounded down, of the samples that the random numbers point at, one number per sample; fails exactly when there are no samples, too many, or the sum does not fit a word. If every sample is pointed at once, the mean of the samples. |
| `Bootstrap.SampleMax` | bench/evaluator.cpp:959-974 | The largest of the samples that the random numbers point at; the largest sample if every one is pointed at once. |
| `Bootstrap.PicksAreDraws` | bench/evaluator.cpp:948-948 | The i-th pick is the sample at the i-th random number modulo the number of samples. |
| `Bootstrap.FullDraw` | bench/evaluator.cpp:940-974 | If the random numbers point at every sample once, mean and maximum are those of the samples, in whatever order. |
| `Bootstrap.RunTrial` | bench/evaluator.cpp:1070-1085 | One resampled change: baseline first, then candidate from the generator state left behind; invalid samples and arithmetic overflow each under its exact condition. |
| `Bootstrap.RunTrials` | bench/evaluator.cpp:1067-1086 | All trials in order, or the first failure; trial t starts where t times as many numbers as there are samples have been drawn. |
| `Bootstrap.TrialsInTurn` | bench/evaluator.cpp:1067-1086 | What the t-th of any number of trials compares, in terms of the seed alone. |
| `Bootstrap.Sort` | bench/evaluator.cpp:1087 | Some ascending permutation of the trials. |
| `Bootstrap.BootstrapInterval` | bench/evaluator.cpp:1057-1092 | The two order statistics: the lower one exceeds a threshold exactly when at least 9751 of the 10000 trials do, the upper one exactly when at least 251 do. |
| `Bootstrap.Flagged` | bench/evaluator.cpp:1327-1352 | A rule is flagged exactly when at least 9751 of the 10000 trials exceed allowed plus noise; evaluation succeeds under an exact condition; a candidate that is nowhere worse is never flagged. |
| `Bootstrap.OrderStatistic` | bench/evaluator.cpp:1087-1090 | In ascending order the value at position i exceeds t exactly when all but i values do. |
| `Bootstrap.AbovePermutation` | bench/evaluator.cpp:1087 | Counting does not depend on the order. |
| `Bootstrap.StatisticBounds` | bench/evaluator.cpp:940-974 | Whatever the generator, a resampled statistic lies between the smallest and the largest sample. |
| `Bootstrap.TrialsNoWorse` | bench/evaluator.cpp:1067-1086 | If every candidate sample is at least as good as every baseline sample, no trial is positive. |
| `Bootstrap.NeverFlagged` | bench/evaluator.cpp:1057-1092 | For any generator and threshold, such a candidate has no trial above it. |
| `Protobuf.VarintSize` | src/adapters/otlp.cpp:23-27 | The number of bytes of a varint. |
| `Protobuf.Sizer.Emit` | src/adapters/otlp.cpp:29-60 | Counts exactly the bytes of a field's wire form, at every nesting level, as long as the count fits the machine word it is kept in. |
| `Protobuf.Sizer.EmitAll` | src/adapters/otlp.cpp:29-60 | The same for a sequence of fields. |
| `Protobuf.Writer.PutVarint` | src/adapters/otlp.cpp:65-74 | Appends the varint and succeeds exactly when all of it fits. |
| `Protobuf.Writer.PutDelimited` | src/adapters/otlp.cpp:78-91 | Appends tag, length and bytes, and succeeds exactly when all of it fits. |
| `Protobuf.Writer.PutFixed64` | src/adapters/otlp.cpp:92-98 | Appends tag and eight little-endian bytes, and succeeds exactly when they fit. |
| `Protobuf.Writer.PutMessage` | src/adapters/otlp.cpp:99-102 | The length written from the sizing pass is the length the writing pass then produces, so the message is a proper delimited field; a length that wrapped around is never left in a complete message, because the fields behind it do not fit. |
| `Protobuf.Writer.Emit` | src/adapters/otlp.cpp:62-107 | Appends exactly the wire form of a field tree, leaves what lies behind it, and succeeds exactly when all of it fits. |
| `Protobuf.Writer.EmitAll` | src/adapters/otlp.cpp:62-107 | The same for a sequence of fields. |
| `Protobuf.VarintRoundTrip` | src/adapters/otlp.cpp:65-74 | A varint reader undoes the writer, whatever follows. |
| `Protobuf.VarintShape` | src/adapters/otlp.cpp:65-74 | Every byte of a varint but the last has its high bit set. |
| `Protobuf.LittleEndianAt` | src/adapters/otlp.cpp:92-98 | Byte i of a fixed number is the number divided by 256^i, modulo 256. |
| `Protobuf.FieldRoundTrip` | src/adapters/otlp.cpp:62-107 | A schema-driven reader undoes the writing of one field, whatever follows. |
| `Protobuf.WireRoundTrip` | src/adapters/otlp.cpp:62-107 | Decoding the wire form of any field tree that conforms to the schema returns that tree. |
| `Otlp.Nonzero` | src/adapters/otlp.cpp:13-17 | Whether some byte is not zero. |
| `OtlpEncoder.AcceptTrace` | src/adapters/otlp.cpp:199-213 | A trace record passes exactly if both identifiers have a nonzero byte, it has a name, starts after zero and not after it ends, its counts are within its arrays, and every event has a name and a time. |
| `OtlpEncoder.AcceptMetric` | src/adapters/otlp.cpp:241-246 | A metric passes exactly if it has a name and a time and its count is within its array. |
| `OtlpEncoder.AcceptLog` | src/adapters/otlp.cpp:267-273 | A log record passes exactly if it has a body and a time, its count is within its array, and a nonzero span identifier comes with a nonzero trace identifier. |
| `OtlpEncoder.EncodeRequest` | src/adapters/otlp.cpp:158-189 | Exhaustion for too many records, too little scratch or too little room for the full encoding, and for nothing else; otherwise the output is exactly the encoding followed by what was there. The unchecked texts for the key and the value of the service name always exist. |
| `OtlpEncoder.EncodeTraces` | src/adapters/otlp.cpp:193-233 | Invalid input exactly when a count exceeds its array or a record has one of the listed faults, with the output untouched; otherwise the field tree of the batch is written. Every span that a consumer reads from the output has identifiers, a name, 0 < start <= end, and events with names and times. |
| `OtlpEncoder.EncodeMetrics` | src/adapters/otlp.cpp:235-259 | The same for metrics: every metric that a consumer reads has a name and a time. |
| `OtlpEncoder.EncodeLogs` | src/adapters/otlp.cpp:261-285 | The same for logs: every log that a consumer reads has a body and a time, and no span identifier without a trace identifier. |
| `Otlp.TracesDecode` | src/adapters/otlp.cpp:214-232 | A protobuf decoder with the OTLP schema returns exactly the field tree of every accepted batch. |
| `Otlp.MetricsDecode` | src/adapters/otlp.cpp:247-258 | The same for metrics. |
| `Otlp.LogsDecode` | src/adapters/otlp.cpp:274-284 | The same for logs. |
| `OtlpBytes.SpanWire` | src/adapters/otlp.cpp:214-232 | The bytes of a span, tag by tag. |
| `OtlpBytes.MetricWire` | src/adapters/otlp.cpp:247-258 | The bytes of a gauge metric, tag by tag. |
| `OtlpBytes.LogWire` | src/adapters/otlp.cpp:274-284 | The bytes of a log record, tag by tag. |
| `OtlpBytes.RequestWire` | src/adapters/otlp.cpp:158-189 | The bytes of a request around the bytes of its records. |
| `OtlpBytes.TracesWire` | src/adapters/otlp.cpp:193-233 | The bytes of a whole trace batch. |
| `OtlpBytes.MetricsWire` | src/adapters/otlp.cpp:235-259 | The bytes of a whole metric batch. |
| `OtlpBytes.LogsWire` | src/adapters/otlp.cpp:261-285 | The bytes of a whole log batch. |
| `Otlp.RequestBound` | src/adapters/otlp.cpp:158-189 | A request of at most 64 records of bounded size takes at most 2 MiB, so no size on the way to it wraps around. |
| `Otlp.BatchesFit` | src/adapters/otlp.cpp:193-285 | Every valid batch of at most 64 typed records, whichever their kind, has an encoding of at most 2 MiB. |
| `Otlp.TraceBound` | src/adapters/otlp.cpp:214-232 | The longest encoding of a trace record with its attributes and events. |
| `Otlp.MetricBound` | src/adapters/otlp.cpp:247-258 | The same bound for a metric. |
| `Otlp.LogBound` | src/adapters/otlp.cpp:274-284 | The same bound for a log record. |
| `OtlpReader.SpanReadsBack` | src/adapters/otlp.cpp:214-232 | A consumer that picks fields by their OTLP numbers finds every datum of a span in its field. |
| `OtlpReader.MetricReadsBack` | src/adapters/otlp.cpp:247-258 | The same for a gauge metric. |
| `OtlpReader.LogReadsBack` | src/adapters/otlp.cpp:274-284 | The same for a log record, absent identifiers included. |
| `OtlpReader.RequestReadsBack` | src/adapters/otlp.cpp:134-183 | Resource attributes with the service name first, scope, and the records in order. |
| `OtlpReader.TracesReadBack` | src/adapters/otlp.cpp:193-233 | From the bytes of a trace batch a consumer recovers metadata and records. |
| `OtlpReader.MetricsReadBack` | src/adapters/otlp.cpp:235-259 | The same for metrics. |
| `OtlpReader.LogsReadBack` | src/adapters/otlp.cpp:261-285 | The same for logs. |
| `Utf8.ValidUtf8` | src/adapters/contract/laghu/adapters/otlp.hpp:48-80 | Accepts a byte string exactly when it is a concatenation of encodings of Unicode scalar values as in section 4 of RFC 3629. |
| `Utf8.TextFrom` | src/adapters/contract/laghu/adapters/otlp.hpp:19-34 | A text within the capacity and well formed, with its bytes unchanged; which of the two errors otherwise. |
| `Utf8.UniqueDecomposition` | src/adapters/contract/laghu/adapters/otlp.hpp:48-80 | No byte string is the encoding of two scalar sequences. |
| `Utf8.WellFormedIffDecodes` | src/adapters/contract/laghu/adapters/otlp.hpp:48-80 | Being a concatenation of encodings and being decodable byte by byte are the same. |
| `Utf8.DecodeSound` | src/adapters/contract/laghu/adapters/otlp.hpp:48-80 | What is decoded encodes to exactly the bytes read. |
| `Utf8.DecodeComplete` | src/adapters/contract/laghu/adapters/otlp.hpp:48-80 | Every scalar sequence is decoded back. |
| `Utf8.Grammar` | src/adapters/contract/laghu/adapters/otlp.hpp:48-80 | A text is accepted exactly when it is a sequence of the byte patterns in the table of section 4 of RFC 3629. |
| `Utf8.AsciiWellFormed` | src/adapters/contract/laghu/adapters/otlp.hpp:48-54 | Every text of bytes below 0x80 is accepted. |
| `Crc32c.ExtendByte` | src/core/contract/laghu/core/binary_envelope.hpp:52-56 | Eight register steps of one byte. |
| `Crc32c.ExtendLoop` | src/core/contract/laghu/core/binary_envelope.hpp:49-59 | The loop computes the register defined by recursion. |
| `Crc32c.CastagnoliPair` | src/core/contract/laghu/core/binary_envelope.hpp:67-70 | The checksum of two parts is the checksum of their concatenation. |
| `Crc32c.PolynomialValue` | src/core/contract/laghu/core/binary_envelope.hpp:55-55 | The polynomial used as a bit pattern is 0x82F63B78. |
| `Crc32c.BitStepInjective` | src/core/contract/laghu/core/binary_envelope.hpp:53-56 | One shift step loses no information. |
| `Crc32c.FeedIsWord` | src/core/contract/laghu/core/binary_envelope.hpp:49-59 | Up to 32 message bits act on the register as one exclusive or followed by steps. |
| `Crc32c.ExtendIsFeed` | src/core/contract/laghu/core/binary_envelope.hpp:49-59 | The byte-wise register equals feeding the message bit by bit. |
| `Crc32c.BurstChangesRegister` | src/core/contract/laghu/core/binary_envelope.hpp:49-59 | Two messages that differ only inside 32 consecutive bits, at any position, leave different registers. |
| `Crc32c.BurstChangesChecksum` | src/core/contract/laghu/core/binary_envelope.hpp:63-65 | The same for the checksum. |
| `Crc32c.ChecksumParity` | src/core/contract/laghu/core/binary_envelope.hpp:49-65 | The checksum has the parity of the message. |
| `Crc32c.GeneratorIsCastagnoli` | src/core/contract/laghu/core/binary_envelope.hpp:55-55 | Read from the other end and with its leading term, the pattern is the Castagnoli polynomial 0x11EDC6F41. |
| `Crc32c.FeedIsRemainder` | src/core/contract/laghu/core/binary_envelope.hpp:49-59 | The register is the remainder of the message times x^32, plus the initial register shifted to its front, modulo the Castagnoli polynomial. |
| `Crc32c.RemainderIsUnique` | src/core/contract/laghu/core/binary_envelope.hpp:49-59 | Division by the generator has one quotient and one remainder. |
| `Crc32c.ChecksumIsRemainder` | src/core/contract/laghu/core/binary_envelope.hpp:63-65 | A bit string is the remainder of a message exactly when it is the complement of its checksum. |
| `BinaryEnvelope.Header` | src/core/contract/laghu/core/binary_envelope.hpp:96-119 | The sixteen header bytes. |
| `BinaryEnvelope.Encode` | src/core/contract/laghu/core/binary_envelope.hpp:81-128 | Writes exactly the encoding to the front of the output and leaves the rest; which error otherwise, with the output untouched. |
| `BinaryEnvelope.Decode` | src/core/contract/laghu/core/binary_envelope.hpp:130-210 | Returns what the decision sequence says; the rows below say what that is for every kind of damage. |
| `BinaryEnvelope.DecodeUndoesEncode` | src/core/contract/laghu/core/binary_envelope.hpp:81-210 | Every encodable envelope within the caller's maximum decodes to itself. |
| `BinaryEnvelope.EncodeUndoesDecode` | src/core/contract/laghu/core/binary_envelope.hpp:81-210 | Whatever is accepted is the encoding of what is returned: the format is canonical. |
| `BinaryEnvelope.DecodesExactly` | src/core/contract/laghu/core/binary_envelope.hpp:81-210 | Decoding returns an envelope exactly when it is encodable, small enough, and the input is its encoding. |
| `BinaryEnvelope.Layout` | src/core/contract/laghu/core/binary_envelope.hpp:97-117 | Where magic, version, kind, length, checksum and payload are, byte by byte. |
| `BinaryEnvelope.DamagedHeader` | src/core/contract/laghu/core/binary_envelope.hpp:130-203 | The first damaged field of a header decides the error: corrupt data for the magic, unsupported version, invalid input for kind zero, range or corrupt data for the length, checksum for the checksum. |
| `BinaryEnvelope.DamagedContent` | src/core/contract/laghu/core/binary_envelope.hpp:200-203 | Damage within four consecutive checksummed bytes that leaves version, length and checksum alone is reported as a checksum error, unless the kind becomes zero. |
| `BinaryEnvelope.DamagedPayload` | src/core/contract/laghu/core/binary_envelope.hpp:200-203 | Damage within four consecutive payload bytes is a checksum error, however short the payload. |
| `BinaryEnvelope.OtherLength` | src/core/contract/laghu/core/binary_envelope.hpp:133-193 | A proper prefix or an extension is corrupt data, and a payload above the maximum is out of range. |
| `BinaryEnvelope.BurstRejected` | src/core/contract/laghu/core/binary_envelope.hpp:200-203 | A change inside any 32 consecutive checksummed bits of a valid envelope is rejected, for payloads of any length. |
| `BinaryEnvelope.FourByteBurstRejected` | src/core/contract/laghu/core/binary_envelope.hpp:200-203 | A change inside any four consecutive checksummed bytes is rejected. |
| `BinaryEnvelope.OddFlipsRejected` | src/core/contract/laghu/core/binary_envelope.hpp:200-203 | Any odd number of flipped bits anywhere in the envelope, checksum field included, is rejected. |
| `BinaryEnvelope.NoPrefixNoTrailer` | src/core/contract/laghu/core/binary_envelope.hpp:186-193 | No proper prefix and no extension of a valid envelope is valid. |
| `BigEndian.EncodeLoop` | src/core/contract/laghu/core/shared_offsets.hpp:19-27 | The bytes of a number, most significant first. |
| `BigEndian.DecodeLoop` | src/core/contract/laghu/core/shared_offsets.hpp:29-41 | The number of exactly as many bytes as the width, or an error. |
| `BigEndian.EncodedAt` | src/core/contract/laghu/core/shared_offsets.hpp:19-27 | Byte i from the left is the number divided by 256^(width - 1 - i), modulo 256. |
| `BigEndian.DecodeEncode` | src/core/contract/laghu/core/shared_offsets.hpp:19-41 | Decoding undoes encoding for every value of the width. |
| `BigEndian.EncodeDecode` | src/core/contract/laghu/core/shared_offsets.hpp:19-41 | Encoding undoes decoding for every byte string. |
| `DocumentValidator.ValidateDocument` | src/adapters/structured_data.cpp:136-199 | The explicit-stack traversal terminates and returns exactly what the recursive definition returns, the first violation in document order included; with the caller's storage it passes exactly the accepted documents, aggregate limit and missing root included, and every error says what is wrong. |
| `DocumentValidator.Traverse` | src/adapters/structured_data.cpp:149-199 | The loop over the frames finds the first violation of the recursive definition, and ends. |
| `DocumentValidator.ValidateObject` | src/adapters/structured_data.cpp:93-134 | Member limit, storage, key lengths and duplicates, in this order. |
| `DocumentValidator.CollectKeys` | src/adapters/structured_data.cpp:106-124 | The keys in order, unless one is too long. |
| `DocumentValidator.Sort` | src/adapters/structured_data.cpp:126 | The keys in comparator order. |
| `DocumentValidator.HasNeighbours` | src/adapters/structured_data.cpp:127-132 | Whether two neighbours are equal. |
| `DocumentValidator.KeyLessIsOrder` | src/adapters/structured_data.cpp:80-91 | The comparator is a strict total order whose ties are exactly equal keys, as sorting requires. |
| `DocumentValidator.DuplicatesFound` | src/adapters/structured_data.cpp:126-132 | Sorting and comparing neighbours finds a duplicate exactly when two keys of the object are equal. |
| `DocumentValidator.EnterFrame` | src/adapters/structured_data.cpp:157-178 | Entering a value refuses it, finishes it, or starts on its children, as the recursive definition does. |
| `DocumentValidator.AcceptedExactly` | src/adapters/structured_data.cpp:136-199 | With the caller's storage a document passes exactly when it has a root, its values are within the aggregate limit, its depth (scalars count one) is within the nesting limit, strings and keys are within bounds, and every object is within the member limit with pairwise distinct keys. |
| `DocumentValidator.ErrorMeans` | src/adapters/structured_data.cpp:136-199 | Invalid input is reported only for an object with two equal keys, and a range error only for something too long, too many or too deep. |
| `DocumentValidator.ConformsExactly` | src/adapters/structured_data.cpp:136-199 | A value conforms exactly when everything in it is within the limits and no object has a key twice. |
| `DocumentValidator.ObjectErrorMeans` | src/adapters/structured_data.cpp:93-134 | Which error one object gets, in terms of its keys. |
| `DocumentValidator.ScratchSuffices` | src/adapters/structured_data.cpp:101-104 | With scratch storage for the member limit, as the caller provides, the storage error is never reported. |
| `MemoryBudget.BudgetTree.NewRoot` | src/core/contract/laghu/core/memory_budget.hpp:47-48 | A fresh root budget. |
| `MemoryBudget.BudgetTree.NewChild` | src/core/contract/laghu/core/memory_budget.hpp:51-54 | A child inherits the worker and is registered with its parent; the count of children cannot overflow. |
| `MemoryBudget.BudgetTree.Destroy` | src/core/contract/laghu/core/memory_budget.hpp:61-96 | A budget may go exactly when no live reservation or child hangs on it; the children count of its parent cannot underflow. |
| `MemoryBudget.BudgetTree.CheckChain` | src/core/contract/laghu/core/memory_budget.hpp:145-157 | The first budget up the chain that cannot take the bytes, and why. |
| `MemoryBudget.BudgetTree.ChargeChain` | src/core/contract/laghu/core/memory_budget.hpp:106-109 | Every budget up the chain is charged, and no other. |
| `MemoryBudget.BudgetTree.RefundChain` | src/core/contract/laghu/core/memory_budget.hpp:164-210 | Every budget up the chain is refunded; the termination branch is dead. |
| `MemoryBudget.BudgetTree.Reserve` | src/core/contract/laghu/core/memory_budget.hpp:98-111 | All or nothing along the parent chain: succeeds exactly when the worker owns the budget and every budget above can take the bytes; otherwise the lowest that cannot decides between exhaustion and overflow. Keeps the invariant that every budget's charge is the sum of the live reservations in its subtree and within its limit. |
| `MemoryBudget.BudgetTree.ReserveForAllocation` | src/core/contract/laghu/core/memory_budget.hpp:115-128 | A failed acquisition restores every charge and leaves the live reservations as they were. |
| `MemoryBudget.BudgetTree.ReleaseHandle` | src/core/contract/laghu/core/memory_budget.hpp:315-323 | Releasing a live handle refunds its whole chain; an inactive one does nothing. |
| `MemoryBudget.BudgetTree.Release` | src/core/contract/laghu/core/memory_budget.hpp:282-291 | Released by its own worker only; otherwise nothing changes. |
| `MemoryBudget.BudgetTree.MoveHandle` | src/core/contract/laghu/core/memory_budget.hpp:268-330 | The target gives back what it held and takes over the source's reservation; self-assignment changes nothing. |
| `MemoryBudget.BudgetTree.Grow` | src/core/contract/laghu/core/memory_budget.hpp:174-191 | Grows along the whole chain or not at all; the size overflow branch is dead. |
| `MemoryBudget.BudgetTree.Shrink` | src/core/contract/laghu/core/memory_budget.hpp:193-210 | Shrinks along the whole chain; the termination branch is dead. |
| `MemoryBudget.PreflightAll` | src/core/contract/laghu/core/memory_budget.hpp:145-157 | A reservation passes exactly when every budget above can take it. |
| `MemoryBudget.PreflightRefuses` | src/core/contract/laghu/core/memory_budget.hpp:145-157 | The error is that of the lowest budget on the chain that cannot take the bytes. |
| `MemoryBudget.ReserveBalances` | src/core/contract/laghu/core/memory_budget.hpp:98-111 | A charged chain and one more reservation balance for every budget of the tree. |
| `MemoryBudget.UpdateBalances` | src/core/contract/laghu/core/memory_budget.hpp:164-210 | Changing one reservation and walking its chain by the difference keeps every budget balanced. |
| `MemoryBudget.RefundFits` | src/core/contract/laghu/core/memory_budget.hpp:164-172 | Every budget above a live reservation holds at least its bytes. |
| `MemoryBudget.GrowFits` | src/core/contract/laghu/core/memory_budget.hpp:182-185 | A growth that passes the preflight cannot overflow the reservation. |
| `MemoryBudget.MoveBalances` | src/core/contract/laghu/core/memory_budget.hpp:325-330 | Moving a reservation between handles conserves every charge. |
| `MemoryBudget.HasParent` | src/core/contract/laghu/core/memory_budget.hpp:61-70 | The parent of a live budget counts at least one child, so the count cannot underflow when the child goes. |
| `SharedBudget.WithinLimit` | src/core/contract/laghu/core/memory_budget.hpp:98-210 | Arenas and buffers over one tree together hold no more than any budget above them is charged, and so no more than its limit. |
| `SharedBudget.HeldCharged` | src/core/contract/laghu/core/memory_budget.hpp:98-210 | Clients without a reservation in common hold at most what all reservations below a budget come to. |
| `SharedBudget.AllStay` | src/core/contract/laghu/core/memory_budget.hpp:98-210 | Whatever one client does, every other client of the tree and of the block source stays valid. |
| `SharedBudget.Run` | src/core/contract/laghu/core/memory_budget.hpp:98-330 | For every sequence of allocations, resets, reservations and releases by any number of arenas and buffers over one tree: all of them stay valid, and those below a budget together stay within the limit it had from the start. |
| `BitStrings.SingleBitTest` | src/core/contract/laghu/core/bounded_arena.hpp:209-211 | The bit trick accepts exactly the powers of two, on words of any width. |
| `BitStrings.PowersOfTwo` | src/core/contract/laghu/core/bounded_arena.hpp:209-211 | What the halving test accepts are the numbers 2^k. |
| `BoundedArena.IsValidAlignment` | src/core/contract/laghu/core/bounded_arena.hpp:209-211 | The test computed on the bits of a word holds exactly for the powers of two; the arena and the slab pool call it. |
| `BoundedArena.Doubled` | src/core/contract/laghu/core/bounded_arena.hpp:230-240 | The doubling loop ends between the required size and the maximum. |
| `BoundedArena.DoubledMeans` | src/core/contract/laghu/core/bounded_arena.hpp:230-236 | The result is the least doubling that is large enough, or the maximum if that is larger. |
| `BoundedArena.BoundedArena.EnsureCapacity` | src/core/contract/laghu/core/bounded_arena.hpp:221-271 | The exact condition for growing; the capacity always equals the reservation; a refusal changes neither. |
| `BoundedArena.BoundedArena.GrowthMeans` | src/core/contract/laghu/core/bounded_arena.hpp:221-271 | Growing succeeds exactly when the arena is set up, every budget above can take the growth, and there is a block to begin with. |
| `BoundedArena.BoundedArena.NextCapacity` | src/core/contract/laghu/core/bounded_arena.hpp:230-236 | The loop itself computes the doubled capacity. |
| `BoundedArena.BoundedArena.Acquire` | src/core/contract/laghu/core/bounded_arena.hpp:242-259 | The first block: nothing is left charged when the block source refuses or its block is too small. |
| `BoundedArena.BoundedArena.Expand` | src/core/contract/laghu/core/bounded_arena.hpp:265-270 | A later growth is a growth of the reservation. |
| `BoundedArena.BoundedArena.Undisturbed` | src/core/contract/laghu/core/bounded_arena.hpp:221-271 | Whatever others do to the tree, an arena whose reservation they leave alone stays valid. |
| `BoundedArena.BoundedArena.TryAllocate` | src/core/contract/laghu/core/bounded_arena.hpp:121-158 | Aligned, above everything issued in this generation, within the capacity; the exact error otherwise, with nothing changed. |
| `BoundedArena.BoundedArena.AllocationMeans` | src/core/contract/laghu/core/bounded_arena.hpp:121-158 | The errors of an allocation in their order, for the one multiple of the alignment that is next to the offset. |
| `BoundedArena.BoundedArena.Place` | src/core/contract/laghu/core/bounded_arena.hpp:144-157 | The part after rounding up: the maximum, the growth, and the view at the rounded offset. |
| `BoundedArena.Padding` | src/core/contract/laghu/core/bounded_arena.hpp:134-135 | The padding rounds the offset up to the next multiple. |
| `BoundedArena.BoundedArena.Read` | src/core/contract/laghu/core/bounded_arena.hpp:273-280 | A view reads exactly when no reset has succeeded since it was issued; a default-constructed view never does. |
| `BoundedArena.BoundedArena.Reset` | src/core/contract/laghu/core/bounded_arena.hpp:167-197 | Succeeds exactly for its worker, with the current boundary, no live pin, a generation left and a willing source; expires every view and refunds the whole capacity. |
| `BoundedArena.BoundedArena.Vacate` | src/core/contract/laghu/core/bounded_arena.hpp:191-195 | The ignored release of the reservation cannot fail. |
| `BoundedArena.BoundedArena.Pin` | src/core/contract/laghu/core/bounded_arena.hpp:109-119 | One more live pin. |
| `BoundedArena.BoundedArena.ReleasePin` | src/core/contract/laghu/core/bounded_arena.hpp:204-207 | The pin counter cannot underflow. |
| `BoundedArena.BoundedArena.MovePin` | src/core/contract/laghu/core/bounded_arena.hpp:295-303 | Moving a pin keeps the count of live pins right. |
| `BoundedBuffer.Buffer.Reserve` | src/core/contract/laghu/core/bounded_buffer.hpp:58-87 | Room for the bytes asked for with the queue unchanged, by compacting when that is enough and growing otherwise; the exact error if not, with queue, block and charge as before. |
| `BoundedBuffer.Buffer.MakeRoom` | src/core/contract/laghu/core/bounded_buffer.hpp:70-80 | Compacts when the block is large enough for what is queued and wanted, and grows otherwise. |
| `BoundedBuffer.Buffer.Commit` | src/core/contract/laghu/core/bounded_buffer.hpp:89-103 | Appends to the queue exactly the bytes written behind it. |
| `BoundedBuffer.Buffer.Consume` | src/core/contract/laghu/core/bounded_buffer.hpp:105-123 | Drops exactly the oldest bytes; an emptied buffer has all its room back. |
| `BoundedBuffer.Buffer.Compact` | src/core/contract/laghu/core/bounded_buffer.hpp:125-131 | The queue is unchanged and all free space lies behind it. |
| `BoundedBuffer.Buffer.CompactUnchecked` | src/core/contract/laghu/core/bounded_buffer.hpp:258-272 | The overlapping front-to-back copy keeps the queued bytes. |
| `BoundedBuffer.Buffer.Readable` | src/core/contract/laghu/core/bounded_buffer.hpp:44-49 | The queued bytes. |
| `BoundedBuffer.Buffer.Write` | src/core/contract/laghu/core/bounded_buffer.hpp:51-56 | Writing into the writable region leaves the queue alone. |
| `BoundedBuffer.Buffer.NextCapacity` | src/core/contract/laghu/core/bounded_buffer.hpp:159-169 | The doubling loop ends between the required size and the maximum. |
| `BoundedBuffer.Buffer.Grow` | src/core/contract/laghu/core/bounded_buffer.hpp:171-256 | The exact condition for growing; the queue survives; the bytes reserved equal the capacity; a refusal changes nothing; the test against the maximum after the loop is dead. |
| `BoundedBuffer.Buffer.GrowthMeans` | src/core/contract/laghu/core/bounded_buffer.hpp:171-256 | Growing succeeds exactly when the buffer is set up, every budget above can take the growth, and the block offered is large enough. |
| `BoundedBuffer.Buffer.FirstBlock` | src/core/contract/laghu/core/bounded_buffer.hpp:185-211 | Charged before acquired; an undersized block goes straight back and the charge with it. |
| `BoundedBuffer.Buffer.Obtain` | src/core/contract/laghu/core/bounded_buffer.hpp:187-196 | A block that is too small goes straight back; a large enough one is ready to take over. |
| `BoundedBuffer.Buffer.GiveBack` | src/core/contract/laghu/core/bounded_buffer.hpp:186-201 | Dropping the reservation restores every budget. |
| `BoundedBuffer.Buffer.Undisturbed` | src/core/contract/laghu/core/bounded_buffer.hpp:171-284 | Whatever others do to the tree and the block source, a buffer whose reservation and blocks they leave alone stays valid. |
| `BoundedBuffer.Buffer.NextBlock` | src/core/contract/laghu/core/bounded_buffer.hpp:214-255 | The larger block takes over and the old one goes back once; on failure the charge is taken back. |
| `BoundedBuffer.Buffer.SwapBlock` | src/core/contract/laghu/core/bounded_buffer.hpp:241-255 | The queue moves to the front of the new block. |
| `BoundedBuffer.Buffer.TakeBack` | src/core/contract/laghu/core/bounded_buffer.hpp:223-225 | The rollback of the charge cannot fail and restores every budget. |
| `BoundedBuffer.Buffer.ReleaseUnchecked` | src/core/contract/laghu/core/bounded_buffer.hpp:274-284 | Every block ever acquired has now been released exactly once, and the charge is refunded. |
| `BoundedBuffer.Buffer.Release` | src/core/contract/laghu/core/bounded_buffer.hpp:133-139 | The same, by the owning worker only. |
| `BoundedBuffer.MoveDown` | src/core/contract/laghu/core/bounded_buffer.hpp:263-269 | A front-to-back copy to a lower place is right in spite of the overlap. |
| `BoundedBuffer.SettledAcquired` | src/core/contract/laghu/core/bounded_buffer.hpp:186-255 | One more block: it goes straight back, or it takes over and the old one goes back; every other block stays released exactly once. |
| `MemoryBudget.BumpedBack` | src/core/contract/laghu/core/bounded_buffer.hpp:214-224 | A charge that is taken back leaves no trace in any budget. |
| `IoSlices.IoSliceList.Append` | src/core/contract/laghu/core/bounded_buffer.hpp:338-354 | Appends the bytes, skips empty slices, and keeps written bytes plus remaining slices equal to everything appended. |
| `IoSlices.IoSliceList.Consume` | src/core/contract/laghu/core/bounded_buffer.hpp:356-380 | Moves exactly the first n bytes from the remaining to the written ones; no slice becomes empty. |
| `IoSlices.IoSliceList.Skip` | src/core/contract/laghu/core/bounded_buffer.hpp:361-366 | The run of slices used up whole, and the rest of the count, which never exceeds the next slice. |
| `IoSlices.Shorten` | src/core/contract/laghu/core/bounded_buffer.hpp:367-371 | The first slice left over loses its used part; the termination branch is dead. |
| `IoSlices.ShiftDown` | src/core/contract/laghu/core/bounded_buffer.hpp:372-375 | The slices left over move to the front. |
| `IoSlices.IoSliceList.Translate` | src/os/io_slices.cpp:6-19 | The system vector spells out exactly what is left to write. |
| `IoSlices.DroppedFlatten` | src/core/contract/laghu/core/bounded_buffer.hpp:356-380 | Dropping bytes slice by slice drops them from the concatenation. |
| `SlabPool.SlabPool.Initialize` | src/core/contract/laghu/core/slab_pool.hpp:190-224 | Strings all slots together once, exactly when the layout is possible; overflow exactly when the product does not fit a word, and invalid input otherwise. |
| `SlabPool.SlabPool.TryAcquire` | src/core/contract/laghu/core/slab_pool.hpp:153-175 | Exhausted exactly when every slot is leased; otherwise a new active lease on a slot that holds the value, with every other lease's value untouched. |
| `SlabPool.SlabPool.Take` | src/core/contract/laghu/core/slab_pool.hpp:165-174 | Takes the head of the free list; both termination tests are dead. |
| `SlabPool.SlabPool.ReleaseUnchecked` | src/core/contract/laghu/core/slab_pool.hpp:238-253 | Puts the slot back at the head; no termination test can fire. |
| `SlabPool.SlabPool.Release` | src/core/contract/laghu/core/slab_pool.hpp:68-77 | Succeeds exactly for an active lease and its worker; a second release is reported and changes nothing. |
| `SlabPool.SlabPool.Drop` | src/core/contract/laghu/core/slab_pool.hpp:90-94 | The destructor releases an active lease only. |
| `SlabPool.SlabPool.Move` | src/core/contract/laghu/core/slab_pool.hpp:53-105 | The target gives its slot back and takes over the source's lease; leases and occupied slots still correspond one to one. |
| `SlabPool.SlabPool.EmptyExactlyWhenFull` | src/core/contract/laghu/core/slab_pool.hpp:160-163 | The free head is the sentinel exactly when live leases equal the capacity; the sentinel is no slot on the list. |
| `SlabPool.TakenLinked` | src/core/contract/laghu/core/slab_pool.hpp:165-172 | Taking the head leaves an acyclic chain over exactly the free slots. |
| `SlabPool.VacatedLinked` | src/core/contract/laghu/core/slab_pool.hpp:246-249 | Pushing an occupied slot leaves an acyclic chain. |
| `SlabPool.MovedHeld` | src/core/contract/laghu/core/slab_pool.hpp:96-105 | Moving a lease keeps the one-to-one correspondence. |
| `SlabPool.Strung` | src/core/contract/laghu/core/slab_pool.hpp:216-221 | The initial chain holds every slot once. |
| `Lifecycle.Registry.constructor` | src/adapters/dependency_lifecycle.cpp:44-45 | A master with an empty history. |
| `Lifecycle.Registry.Fork` | src/adapters/contract/laghu/adapters/dependency_lifecycle.hpp:78-81 | A fork copies the registry under a new process number and starts an empty history. |
| `Lifecycle.Registry.Register` | src/adapters/dependency_lifecycle.cpp:71-102 | Only while collecting and only in the master; refuses incomplete, unknown, duplicate and conflicting entries; the capacity branch is dead. |
| `Lifecycle.RoomForAll` | src/adapters/dependency_lifecycle.cpp:95-98 | Fourteen places are enough for every selection without two TLS providers. |
| `Lifecycle.Registry.Preflight` | src/adapters/dependency_lifecycle.cpp:104-146 | All hooks in order, or the ones that had succeeded undone in exact reverse; the exact calls, phase and error. |
| `Lifecycle.Registry.PreflightAll` | src/adapters/dependency_lifecycle.cpp:120-143 | Runs hooks in order up to the first failure. |
| `Lifecycle.Registry.CleanMaster` | src/adapters/dependency_lifecycle.cpp:293-303 | Every hook that had succeeded once, last first, and the failure of the highest one that fails. |
| `Lifecycle.Registry.PrepareFork` | src/adapters/dependency_lifecycle.cpp:148-183 | One thread and quiescent dependencies; the epoch is always one, so its overflow branch is dead. |
| `Lifecycle.Registry.WorkerInitialize` | src/adapters/dependency_lifecycle.cpp:185-234 | Only in a forked child with the current epoch, once; a failure is undone in exact reverse; the exact calls, phase and error. |
| `Lifecycle.Registry.StartWorker` | src/adapters/dependency_lifecycle.cpp:207-233 | The child becomes the worker; its calls, phase and failure are exactly those of the attempt. |
| `Lifecycle.Registry.InitializeAll` | src/adapters/dependency_lifecycle.cpp:208-231 | Runs worker hooks in order up to the first failure. |
| `Lifecycle.Registry.CleanWorker` | src/adapters/dependency_lifecycle.cpp:255-265 | Every worker hook that had succeeded once, last first, and the failure of the highest one that fails. |
| `Lifecycle.Registry.WorkerCleanup` | src/adapters/dependency_lifecycle.cpp:236-272 | Only in the worker process; at most once; terminal phases repeat their failure and run nothing; the transition error is dead there. |
| `Lifecycle.Registry.MasterCleanup` | src/adapters/dependency_lifecycle.cpp:274-310 | Only in the master; at most once; terminal phases run nothing. |
| `Lifecycle.Registry.PersistentFailure` | src/adapters/dependency_lifecycle.cpp:47-53 | A terminal phase always has its failure, so the missing-detail branch is dead. |
| `Lifecycle.World.Run` | src/adapters/dependency_lifecycle.cpp:71-310 | For every interleaving of calls and forks: each master's history is preflight hooks going up, then at most one reverse cleanup of those that succeeded; each child's history is the same with worker hooks; neither ever runs the other's. |
| `Lifecycle.World.Step` | src/adapters/dependency_lifecycle.cpp:71-310 | One call in one process, or one fork, keeps the invariant of every process. |
| `Lifecycle.HistoryIsLifo` | src/adapters/dependency_lifecycle.cpp:71-310 | Every reachable registry has such a history. |
| `Lifecycle.LifoMeans` | src/adapters/dependency_lifecycle.cpp:71-310 | In such a history no hook runs twice, and a cleanup runs only after its own hook succeeded, in exactly the reverse order. |
| `DnsResolver.Complete` | src/adapters/dns.cpp:190-215 | The addresses of all nodes that have one, each once and in order, if there are between one and the maximum; exhaustion exactly if there are more; a dependency error otherwise. |
| `DnsResolver.CopyAddress` | src/adapters/dns.cpp:154-172 | A node has an address exactly if it carries a long enough IPv4 or IPv6 socket address and no negative lifetime; which bytes of it the address is. |
| `DnsResolver.UsableMeans` | src/adapters/dns.cpp:199-208 | The usable addresses and the nodes they come from, as strictly increasing indices. |
| `DnsResolver.EventsMeans` | src/adapters/dns.cpp:592-617 | Events are accepted exactly when all can be attributed; the first that cannot decides the error. |
| `DnsResolver.ActiveSlotsMeans` | src/adapters/dns.cpp:647-653 | Every active slot once, the lower ones first. |
| `DnsResolver.Resolver.SocketState` | src/adapters/dns.cpp:131-152 | The scan updates, removes or adds one entry as the table function says; failure exactly when an entry would be added to a full table. |
| `DnsResolver.ReportedEntries` | src/adapters/dns.cpp:131-152 | Seen as a set of entries: one entry per descriptor is updated, removed or added, and no other is touched. |
| `DnsResolver.NeverFull` | src/adapters/dns.cpp:336-337 | As long as no channel has more sockets than the library allows it, a channel below that number finds room in the table. |
| `DnsResolver.Resolver.Report` | src/adapters/dns.cpp:131-152 | A list of reports leaves the table that the reports make of it, and marks the query exactly when one of them found the table full. |
| `DnsResolver.Resolver.AddressComplete` | src/adapters/dns.cpp:174-219 | Marks the query done, counts it off once, and keeps its outcome; during shutdown it marks the slot and does nothing else. |
| `DnsResolver.Resolver.NativeCall` | src/adapters/dns.cpp:511-512 | The whole state after a call into the library: the table after its reports, and the slot of its query with the outcome of its answer. |
| `DnsResolver.Resolver.RetireAndDeliver` | src/adapters/dns.cpp:304-321 | The slot is free and the books are balanced before the sink is called, so it may call back; the token is delivered now and never again. |
| `DnsResolver.Resolver.FailSocketCapacity` | src/adapters/dns.cpp:323-334 | Cancels, retires and delivers an exhaustion error once. |
| `DnsResolver.Resolver.Settle` | src/adapters/dns.cpp:513-517 | After a library call at most one query completes, with its own outcome or an exhaustion error. |
| `DnsResolver.Resolver.ResolveName` | src/adapters/dns.cpp:461-519 | The error of a refused request, or a token never used before, delivered with its outcome before returning if the library answered at once, with exhaustion if its sockets overflowed the table, and otherwise left pending; a free slot always exists below the limit. |
| `DnsResolver.Resolver.FindQuery` | src/adapters/dns.cpp:112-118 | Finds a token exactly when its query is pending. |
| `DnsResolver.Resolver.CancelQuery` | src/adapters/dns.cpp:521-545 | Delivers a cancellation exactly when the token is pending and the library answers; otherwise only the sockets that the library reported have changed. |
| `DnsResolver.Resolver.LookUp` | src/adapters/dns.cpp:592-617 | The query behind every event, or the first error; the query behind a registered socket is always active. |
| `DnsResolver.Resolver.ProcessSockets` | src/adapters/dns.cpp:585-636 | The first unusable event decides the error, before any query is touched; otherwise the first query that completes is delivered. |
| `DnsResolver.Resolver.Visit` | src/adapters/dns.cpp:618-634 | The first query that the library answers, or whose sockets overflow the table at its turn, is delivered with its outcome and the call ends; if there is none, the sink hears nothing, the slots are as before and the table is the one the reports make of it; hence the re-check of each query before its turn never skips one. |
| `DnsResolver.Resolver.ProcessWaits` | src/adapters/dns.cpp:638-670 | Works through every active query in slot order, up to the first that completes. |
| `DnsResolver.Resolver.Release` | src/adapters/dns.cpp:676-689 | Closes the channel of every query and with it every socket; callbacks that fire on the way only mark their slots, so nothing is delivered and the counter stays. |
| `DnsResolver.Resolver.Run` | src/adapters/dns.cpp:461-689 | Any sequence of calls with sinks that call back to any depth, destruction included, keeps the books: every token issued at most once and delivered exactly once unless still pending; a destroyed resolver delivers nothing any more. |
| `DnsResolver.Resolver.Accounts` | src/adapters/dns.cpp:461-689 | Between calls: pending are exactly the tokens issued and not delivered, they sit in the active slots, and their number is the outstanding counter, within the limit. |
| `DnsResolver.IssueBalances` | src/adapters/dns.cpp:494-495 | A new token was never issued before. |
| `DnsResolver.DeliveryBalances` | src/adapters/dns.cpp:309-334 | A delivery settles exactly one pending token. |
| `DnsResolver.RemovedEntries` | src/adapters/dns.cpp:136-139 | Moving the last entry into the gap removes exactly one entry. |

## Left out

- The wrapped libraries (OpenSSL, nghttp2, ngtcp2, nghttp3, PCRE2, zlib-ng, brotli, zstd, libmaxminddb, libidn2, libxcrypt, yyjson, c-ares): their behaviour is theirs; yyjson's result is a given value tree with a given value count.
- File, socket, clock, mapping, entropy and descriptor calls: plumbing with one-line facts.
- Error text, dependency logging, the manifest table and the JSON output of the evaluator: table lookups and formatting.
- `state_transitions.hpp`, `identifiers.hpp`, `views.hpp`, `checked_arithmetic.hpp`: used as bounded numbers and slices only.
- Physical address alignment, object lifetime in the sense of C++, memory ordering and constant-time behaviour.
- The emergency reserve and the polymorphic memory resource of the arena: thin wrappers of members that are modelled.
- ArenaMemory.MemoryPool.Free: a pointer that is not live is undefined behaviour in the code and excluded; headers are records beside the bytes, so that a client overrunning its payload is not modelled.
- BoundedBuffer.Buffer.Grow: taking a slice of a view within its bounds cannot fail here, so the branches for such a failure are not modelled.
- OtlpEncoder.EncodeMetrics: the 64 bits of the metric value are given as a number; floating point plays no part in the encoding.
- DocumentValidator.ValidateDocument: the tests for an inconsistent yyjson iterator are not modelled, because a value tree has no inconsistent iterator.
- DocumentValidator.Sort: the library's sort is replaced by one that satisfies its specification; so is `Bootstrap.Sort`.
- Lifecycle.Registry.PrepareFork: reading the live state of a dependency is not part of the recorded history.
- DnsResolver.Resolver.ResolveName: the tests on the host name and the family, and the set-up of the native channel, are given as results; nameserver text and timeouts are not modelled.
- SlabPool.SlabPool.Release: what the debug hook does on a double release is left to the caller; the report itself is modelled.
- Bootstrap.Flagged: one rule at a time; the loop over the manifest and the exit code are not modelled.
- DnsResolver.NeverFull: that c-ares keeps at most sixteen sockets for a channel is a condition of the statement, not a fact about the library.
- DnsResolver.CopyAddress: the length of a socket address and the place of the address in it are those of `sockaddr_in` and `sockaddr_in6` on Linux.
