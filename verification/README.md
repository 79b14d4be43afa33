# MILO verified model

MILO runs small WebAssembly drivers on a board (the receiver) and controls them from a host over
MILO-Link, a length-prefixed frame protocol. The receiver embeds an adapted Wasm stack. This project
models three parts of the system in Dafny 4.11 and proves what they promise; `dafny verify dfyconfig.toml`
checks all of it.

**The Wasm binary decoder.** `Leb128` states the integer grammar of section 5.2.2 of the WebAssembly Core
Specification 2.0 and the decoders it determines; `LebLoops` turns the shifts and masks of the loops into
arithmetic (`Bits` has the word operations); `Formats` and `Operators` do the same for composite formats and
operators (sections 5.4 and 5.4.1), with encoders, and `OpcodeTable` states which immediates follow which opcode;
`BinaryReader` is the cursor class with its loops, each method proved against these functions; `ReaderIterators`
has the counted and draining iterators.

**MILO-Link.** `Frames` has the frame layout, the receiver's incremental parser and the host's frame reader;
`Json` and `Results` the JSON texts in both directions; `Receiver` the authorisation gate and the dispatch loop
over any executor, `ReceiverSafety` what holds in every run of it, and `ReceiverReactions` what single frames and
streams do to it, by opcode byte and literal text; `Device` the host's interface with its queue of stray results;
`Protocol` composes host and receiver as two processes over two FIFO channels, and `Delivery` and `Threaded` prove
what every interleaving of them keeps.

**The numeric and type kernel and the linker index.** `Truncate`, `Wide128`, `Simd`, `FuncType` and `Linker`.

Executors, cryptography and the import scan are parameters: records of functions, with the contract an
executor must keep (`Blocking`, `Fifo`) stated as a predicate. Transports and ports carry their future input as a
field, so that silence, timeouts and short reads are part of every statement.

Five promises do not hold as documented or expected; each has its exact condition here:

- `read_var_s33` is documented to read a signed 33-bit integer; five-byte negatives come back 2^35 too large
  (`Leb128.ReadS33ValueIff`). Block types and heap types are not affected (`Formats.FuncTypeIff`).
- The arity error of a typed `select` is reported at the reader's own position, which is its place in the whole
  binary only if the reader's buffer begins at offset zero (`Operators.SelectArityOffsetIff`).
- `push` is documented to wait for its module's result; it returns the oldest one not yet collected
  (`Delivery.PushReturnsOwnResultIff`).
- The receiver's parser loses bytes exactly on streams with an oversized header (`Frames.ConservesIffLegal`), and
  depends on how they were split exactly if some byte lies behind the first such header
  (`Frames.SplitIndependentIffSettled`).
- When modules run beside the dispatch loop, results come in the order of the pushes except that a refusal
  overtakes whatever is still owed when it comes (`Threaded.RefusalInPlaceIff`, `Threaded.DeliveredAreDue`).

Two comments disagree with the code, which the model follows: the LEB128 readers are said to advance up to
four bytes where they read five or ten, and the host's `MAX_FRAME_LEN` is said to mirror the receiver's limit
but is never enforced when a frame is written.

## Model

| member | source | states |
|---|---|---|
| `Leb128.ReadUExact` | patches/wasmparser/src/binary_reader.rs:506-578 | the unsigned decoder accepts exactly the byte strings that section 5.2.2 of the WebAssembly Core Specification 2.0 allows for N bits, with exactly the denoted value and length |
| `Leb128.ReadSExact` | patches/wasmparser/src/binary_reader.rs:617-653 | the same for signed integers: unused top bits must equal the sign |
| `Leb128.ReadFailureIsTotal` | patches/wasmparser/src/binary_reader.rs:506-578 | a decode fails if and only if no prefix of the input is an encoding, unsigned and signed |
| `Leb128.DenoteURange` | patches/wasmparser/src/binary_reader.rs:516-537 | an N-bit encoding has at most ceil(N/7) bytes and denotes a number below 2^N |
| `Leb128.DenoteSRange` | patches/wasmparser/src/binary_reader.rs:627-653 | the signed counterpart |
| `Leb128.ReadULocal` | patches/wasmparser/src/binary_reader.rs:506-578 | an unsigned decode depends only on the bytes it consumes |
| `Leb128.ReadSLocal` | patches/wasmparser/src/binary_reader.rs:617-723 | a signed decode depends only on the bytes it consumes |
| `Leb128.ReadEncodeU` | patches/wasmparser/src/binary_reader.rs:506-578 | decoding undoes the shortest encoding, whatever follows it |
| `Leb128.ReadEncodeS` | patches/wasmparser/src/binary_reader.rs:617-723 | the signed counterpart |
| `Leb128.ReadS33ValueIff` | patches/wasmparser/src/binary_reader.rs:660-690 | `read_var_s33` returns the denoted number if and only if the bytes are not four continued ones and a fifth with the sign bit, and 2^35 more than it otherwise |
| `Leb128.ReadS33LosesSign` | patches/wasmparser/src/binary_reader.rs:660-690 | the five-byte encoding of -1 is returned as 2^35 - 1 |
| `BinaryReaders.BinaryReader.ReadVarU32` | patches/wasmparser/src/binary_reader.rs:506-514 | the fast path and the loop together are the grammar's 32-bit decoder: result, error offset and position |
| `BinaryReaders.BinaryReader.ReadVarU32Big` | patches/wasmparser/src/binary_reader.rs:516-537 | the shift-and-or loop equals the grammar's decoder from the byte already read |
| `BinaryReaders.BinaryReader.ReadVarU64` | patches/wasmparser/src/binary_reader.rs:547-555 | the 64-bit decoder |
| `BinaryReaders.BinaryReader.ReadVarU64Big` | patches/wasmparser/src/binary_reader.rs:557-578 | its loop, with its own overflow test on the last byte |
| `BinaryReaders.BinaryReader.ReadVarI32` | patches/wasmparser/src/binary_reader.rs:617-625 | fast path by a double shift, agreeing with the signed grammar |
| `BinaryReaders.BinaryReader.ReadVarI32Big` | patches/wasmparser/src/binary_reader.rs:627-653 | loop with wrapping shifts, the sign-and-unused-bits test and the final arithmetic shift |
| `BinaryReaders.BinaryReader.ReadVarS33` | patches/wasmparser/src/binary_reader.rs:660-690 | the loop returns what ReadS33 says, five-byte negatives without their sign |
| `BinaryReaders.BinaryReader.ReadVarI64` | patches/wasmparser/src/binary_reader.rs:697-723 | the 64-bit signed decoder |
| `BinaryReaders.BinaryReader.Shrink` | patches/wasmparser/src/binary_reader.rs:226-232 | the shrunk reader sees the same unread bytes at the same absolute offsets |
| `BinaryReaders.BinaryReader.Skipped` | patches/wasmparser/src/binary_reader.rs:582-590 | the reader made by `skip` covers exactly the skipped bytes at their absolute offsets |
| `BinaryReaders.BinaryReader.ReadHeapTypeAt` | patches/wasmparser/src/readers/core/types.rs:1757-1801 | a non-negative s33 is an index within limits; otherwise the original bytes are read again as an abstract type |
| `BinaryReaders.BinaryReader.ReadValTypeAt` | patches/wasmparser/src/readers/core/types.rs:1639-1726 | a value type is a one-byte code, a nullable or non-nullable reference, or a heap type |
| `BinaryReaders.BinaryReader.ReadBlockTypeAt` | patches/wasmparser/src/binary_reader.rs:801-839 | the mask tests pick the empty, value-type or s33 form as the decoder function does |
| `BinaryReaders.BinaryReader.ReadMemArgAt` | patches/wasmparser/src/binary_reader.rs:351-380 | flag bit 6 selects a memory index under multi-memory and is cleared by xor; alignment below 64; offset width by memory64 |
| `BinaryReaders.BinaryReader.ReadBrTableAt` | patches/wasmparser/src/binary_reader.rs:394-408 | count check, skipped targets and default, with the window the sub-reader covers |
| `BinaryReaders.BinaryReader.ReadOperator` | patches/wasmparser/src/binary_reader.rs:886-1140 | one operator with its immediates, consuming what the decoder function says, errors at its offsets |
| `BinaryReaders.BinaryReader.SkipConstExprAt` | patches/wasmparser/src/binary_reader.rs:1616-1623 | the loop ends because every operator consumes at least one byte, right behind `end` or at the first error |
| `Formats.FuncTypeIff` | patches/wasmparser/src/binary_reader.rs:801-839 | `FuncType(i)` in k bytes if and only if those bytes are an s33 encoding of i; never for a negative number |
| `Formats.S33SmallIsExact` | patches/wasmparser/src/binary_reader.rs:660-690 | the missing sign extension never produces a value in the `u32` range |
| `Formats.BlockTypeRoundTrip` | patches/wasmparser/src/binary_reader.rs:801-839 | reading an encoded block type gives it back, whatever follows |
| `Formats.HeapTypeRoundTrip` | patches/wasmparser/src/readers/core/types.rs:1757-1829 | reading an encoded heap type gives it back |
| `Formats.ValTypeRoundTrip` | patches/wasmparser/src/readers/core/types.rs:1639-1726 | reading an encoded value type gives it back |
| `Formats.MemArgRoundTrip` | patches/wasmparser/src/binary_reader.rs:351-380 | reading an encoded memarg gives it back under the features it is valid for |
| `Formats.IndicesRoundTrip` | patches/wasmparser/src/binary_reader.rs:394-408 | reading encoded target lists gives them back |
| `Formats.BrTableRoundTrip` | patches/wasmparser/src/binary_reader.rs:394-408 | reading an encoded branch table gives back its window, count and default |
| `Formats.MemArgForms` | patches/wasmparser/src/binary_reader.rs:351-380 | the two forms of a memarg, with and without bit 6 of the flags, give alignment, memory and offset by name |
| `Formats.ValTypeCodes` | patches/wasmparser/src/readers/core/types.rs:1639-1726 | the five one-byte value types have the codes of section 5.3.1 |
| `Formats.RefTypeCodes` | patches/wasmparser/src/readers/core/types.rs:1639-1726 | 0x63 makes a reference nullable and 0x64 does not; its heap type is a code or an index |
| `Formats.BlockTypeCodes` | patches/wasmparser/src/binary_reader.rs:801-839 | 0x40 is the empty block type and a value type stands for itself |
| `Formats.SizeWithinLimit` | patches/wasmparser/src/binary_reader.rs:319-326 | a count is read if and only if it is within its limit, and otherwise rejected where it begins |
| `Formats.BrTableTooLarge` | patches/wasmparser/src/binary_reader.rs:394-408 | more than 131072 targets are rejected where the table begins |
| `Formats.AlignmentTooLarge` | patches/wasmparser/src/binary_reader.rs:351-380 | an alignment of 64 or more is rejected where the flags begin, also behind a memory index |
| `Formats.TypeIndexWithinLimit` | patches/wasmparser/src/readers/core/types.rs:1757-1801 | a type index up to 2^20 - 1 is read, a larger one rejected |
| `Operators.DecodeOperatorLocality` | patches/wasmparser/src/binary_reader.rs:886-1140 | operator decoding depends only on the bytes it consumes |
| `Operators.OperatorRoundTrip` | patches/wasmparser/src/binary_reader.rs:886-1140 | for every operator valid at its place and every rest, decoding its encoding returns it and consumes exactly the encoding |
| `OpcodeTable.BareOpcodes` | patches/wasmparser/src/binary_reader.rs:893-1114 | the twelve control and reference opcodes listed, and 0x45 to 0xc4, are whole operators of one byte |
| `OpcodeTable.BlockOpcodes` | patches/wasmparser/src/binary_reader.rs:895-899 | the four block openers are followed by a block type |
| `OpcodeTable.IndexOpcodes` | patches/wasmparser/src/binary_reader.rs:900-1120 | the 22 opcodes listed, `call` among them, are followed by one index |
| `OpcodeTable.TwoIndexOpcodes` | patches/wasmparser/src/binary_reader.rs:910-916 | `call_indirect` and the three others listed are followed by two indices |
| `OpcodeTable.BrTableOpcode` | patches/wasmparser/src/binary_reader.rs:907-907 | `br_table` is followed by the count, the labels and the default label |
| `OpcodeTable.MemoryOpcodes` | patches/wasmparser/src/binary_reader.rs:943-965 | each load and store is followed by a memarg, and its largest alignment, as a power of two, is the number of bytes it accesses |
| `OpcodeTable.MemoryIndexOpcodes` | patches/wasmparser/src/binary_reader.rs:966-973 | `memory.size` and `memory.grow` take an index, or one zero byte without multi-memory; any other byte is rejected there |
| `OpcodeTable.CallIndirectReserved` | patches/wasmparser/src/binary_reader.rs:910-914 | without reference types any byte but zero behind the type index of `call_indirect` is rejected there |
| `OpcodeTable.IntegerConstants` | patches/wasmparser/src/binary_reader.rs:975-976 | the integer constants are followed by signed numbers of 32 and 64 bits |
| `OpcodeTable.FloatConstants` | patches/wasmparser/src/binary_reader.rs:977-978 | the float constants are followed by four and eight bytes, the lowest first |
| `OpcodeTable.TypedOpcodes` | patches/wasmparser/src/binary_reader.rs:923-931 | a typed `select` is followed by the count 1 and a value type, `ref.null` by a heap type |
| `OpcodeTable.OtherOpcodes` | patches/wasmparser/src/binary_reader.rs:1138-1138 | every opcode in none of these lists is rejected at the opcode |
| `Operators.SkipConstExprRoundTrip` | patches/wasmparser/src/binary_reader.rs:1616-1623 | skipping an encoded expression stops right behind its `end`, whatever follows |
| `Operators.SelectArityOffsetIff` | patches/wasmparser/src/binary_reader.rs:923-931 | a typed select's arity error is reported where the count ends in the whole binary if and only if the reader's buffer begins at offset zero |
| `Operators.OtherErrorsPointAhead` | patches/wasmparser/src/binary_reader.rs:886-1140 | every other error is reported among the bytes the operator was to be read from, or right behind them |
| `Operators.SelectErrorOffsetExample` | patches/wasmparser/src/binary_reader.rs:923-931 | the same two bytes at position 3 of two buffers, both reported at offset 5 |
| `ReaderIterators.BrTableWindow` | patches/wasmparser/src/binary_reader.rs:394-408 | the window of every accepted table holds exactly its `cnt` entries, at the absolute place it claims |
| `ReaderIterators.BrTableTargets.Next` | patches/wasmparser/src/binary_reader.rs:1742-1754 | one step of the iterator with its trailing-data branch |
| `ReaderIterators.BrTableTargets.NextTarget` | patches/wasmparser/src/binary_reader.rs:1742-1754 | on a table's own window neither the trailing-data branch nor a decoding error is reachable |
| `ReaderIterators.CollectTargets` | patches/wasmparser/src/binary_reader.rs:1712-1755 | collecting yields exactly the `cnt` targets checked while skipping, then nothing |
| `ReaderIterators.ReadIter` | patches/wasmparser/src/binary_reader.rs:335-349 | the count is read and limited first; the iterator starts right behind it |
| `ReaderIterators.BinaryReaderIter.Next` | patches/wasmparser/src/binary_reader.rs:1827-1839 | taken items and what remains always make up the whole run; an error ends it |
| `ReaderIterators.BinaryReaderIter.Drop` | patches/wasmparser/src/binary_reader.rs:1846-1855 | dropping terminates and leaves the reader where decoding all items would have, or behind the first failure |
| `ReaderIterators.ReadSome` | patches/wasmparser/src/binary_reader.rs:335-349 | however many items a caller takes, the reader ends at the same place; it takes as many as it asked for or as there are |
| `ReaderIterators.OpenSection` | patches/wasmparser/src/readers.rs:101-108 | the count is read first; the iterator then yields exactly the items it announces |
| `ReaderIterators.SectionItemsShape` | patches/wasmparser/src/readers.rs:190-214 | either the announced items fill the section and are yielded with nothing more, or items and one final error are; both by exact condition, and never more than `count` + 1 |
| `ReaderIterators.SectionLimitedIntoIter.Next` | patches/wasmparser/src/readers.rs:196-214 | each call yields the next of those items, and nothing ever after |
| `Json.JsonEscape` | receiver/src/lib.rs:307-321 | the character loop computes the escaping function |
| `Json.ParseEscaped` | receiver/src/lib.rs:307-321 | a string parser by section 7 of RFC 8259 reads an escaped string back exactly, for every string |
| `Json.EscapeIsStringBody` | receiver/src/lib.rs:307-321 | escaped text is a string body of that grammar: no control character, and no quote that is not escaped |
| `Json.LoadsWritten` | host/devices/device.py:86-92 | loading written text gives the value itself, for every value |
| `Results.ExecResultToJson` | receiver/src/lib.rs:337-356 | the appended text is the written JSON value of the result, for all logs and errors |
| `Results.JoinRejected` | receiver/src/lib.rs:324-330 | the loop joins the names with commas |
| `Results.RejectedImportsJson` | receiver/src/lib.rs:323-335 | the formatted text is the written JSON of a failed result naming the imports |
| `Results.StatusJsonIsWritten` | receiver/src/lib.rs:235-249 | the status format string is the written JSON of status and running flag |
| `Results.StoppedJsonIsWritten` | receiver/src/lib.rs:226-233 | so is the stop reply |
| `Results.ResultRoundTrip` | host/devices/device.py:86-92 | the host recovers exactly the logs of an ok result and exactly the error of a failed one, `unknown` where it has none |
| `Results.HostViewIff` | host/devices/device.py:37-43 | the host sees two results as equal if and only if the verdicts agree and so do the logs of ok results or the messages of failed ones, a missing message being `unknown` |
| `Results.MissingFields` | host/devices/device.py:86-92 | an empty object counts as a failed result without logs or error, and as an unknown status |
| `Results.StatusRoundTrip` | host/devices/device.py:141-149 | the host reads back exactly one of the four status names, as literal texts, and the flag |
| `Frames.FrameBuffer.OnRead` | receiver/src/main.rs:353-390 | after one read, `frame_buf` and the frames extracted are what draining the buffer and the chunk gives |
| `Frames.FrameBuffer.OnReads` | receiver/src/main.rs:353-390 | the same over any run of reads |
| `Frames.FramesArrive` | receiver/src/main.rs:361-390 | frames within the limit, laid out as `write_frame` does and split into reads in any way, come out as exactly that list with nothing left |
| `Frames.ChunkingIrrelevant` | receiver/src/main.rs:353-390 | on a stream with no byte behind its first oversized header, from any buffer, the split into reads makes no difference |
| `Frames.SplitIndependentIffSettled` | receiver/src/main.rs:353-390 | every split of a stream gives what one read gives if and only if no byte lies behind its first oversized header |
| `Frames.LastByteApart` | receiver/src/main.rs:378-382 | otherwise reading the last byte by itself leaves it in the buffer, where one read drops it |
| `Frames.ConservesIffLegal` | receiver/src/main.rs:370-388 | extracted frames written again, then `frame_buf`, are the bytes received if and only if no header met is oversized, for every split |
| `Frames.PrefixExtracts` | receiver/src/main.rs:361-390 | a prefix of a stream of frames yields the frames it completes; the residual is a strict prefix of the next one |
| `Frames.ResidualBounded` | receiver/src/main.rs:361-390 | between reads the buffer holds no complete frame and fewer than 5 + MAX_FRAME_LEN bytes |
| `Frames.OversizeDependsOnChunking` | receiver/src/main.rs:378-382 | behind an oversized header the same bytes give different frames depending on the split |
| `Frames.SerializeInjective` | receiver/src/engine/link.rs:42-49 | two frames with the same layout are the same frame, and frames cannot be confused with what follows |
| `Frames.FrameLayout` | receiver/src/engine/link.rs:42-49 | the layout is opcode, length with its highest byte first, payload |
| `Frames.Port.ReadExact` | host/core/transport.py:94-101 | the accumulation loop returns exactly the next n bytes over short reads; it times out only when no read is left, and never when there are enough non-empty ones |
| `Frames.Port.ReadFrame` | host/core/transport.py:91-116 | a frame read takes exactly its own serialisation; a timeout comes only when no read is left and loses at most the start of one; a frame that is there and for which there are reads enough is returned |
| `Receiver.AuthorizesExactlyPermitted` | receiver/src/lib.rs:129-156 | the gate lets through exactly what the policy permits, hands on exactly the carried module, and otherwise answers with the failing check's reason |
| `Receiver.LoadModule` | receiver/src/lib.rs:202-292 | the push and swap arms do what the policy-level reaction says |
| `Receiver.Dispatch` | receiver/src/lib.rs:195-303 | every opcode's arm, unknown ones included |
| `Receiver.MainLoop` | receiver/src/lib.rs:171-304 | the loop ends in the state, and writes the frames, of serving the events in order |
| `ReceiverSafety.CallLog` | receiver/src/lib.rs:195-292 | the executor receives exactly the calls the policy allows, in order |
| `ReceiverSafety.SubmittedModulesArePermitted` | receiver/src/lib.rs:129-156 | every module ever submitted came in a frame that passed the import check, and, if its opcode or the policy demands a signature, lies behind 64 bytes that verify it under the trusted key |
| `ReceiverSafety.RefusedLoad` | receiver/src/lib.rs:205-211 | a refused push or swap leaves executor, slots and call log alone and gets exactly one failed result with its reason |
| `ReceiverSafety.RefusedAreInvisible` | receiver/src/lib.rs:202-292 | under every executor the receiver ends as if refused frames had never come and only time had passed; where time alone changes nothing, as without them |
| `ReceiverSafety.SlotsHoldLastSet` | receiver/src/lib.rs:251-267 | a slot holds what it was last set to; short payloads and slots out of range change nothing |
| `ReceiverSafety.BlockingReplies` | receiver/src/lib.rs:158-162 | under a blocking executor the results written are exactly the outcomes of the pushes and swaps, one each, in order, wherever idle gaps fall |
| `ReceiverSafety.StatusReplies` | receiver/src/lib.rs:226-249 | under any executor the status replies are exactly the answers to the requests, one each, in order |
| `ReceiverSafety.OutcomeCounts` | receiver/src/lib.rs:195-292 | as many outcomes as pushes and swaps, as many answers as requests |
| `ReceiverSafety.SingleCoreBlocks` | receiver/src/engine/executor.rs:109-164 | the single-core executor keeps the blocking contract |
| `ReceiverSafety.SingleCoreOutcome` | receiver/src/engine/executor.rs:112-145 | its outcome is the logs or the error that running the module on the current slots gave, or that no hardware is available |
| `ReceiverReactions.ExecutorIsReplay` | receiver/src/lib.rs:171-304 | after any stream the executor is what the calls required by the policy make of it, each with the slots of its moment and the time before it: no call is logged and not made |
| `ReceiverReactions.SlotsAreLastSet` | receiver/src/lib.rs:251-267 | after any stream all slots are as last set |
| `ReceiverReactions.StatusAfterStop` | receiver/src/lib.rs:226-249 | a status request right behind a stop is answered with the status of the stopped executor |
| `ReceiverReactions.LoadingOpcodes` | receiver/src/lib.rs:202-292 | the four loading opcodes, which of them stop first, and which carry signatures |
| `ReceiverReactions.DiscoveryAnswered` | receiver/src/lib.rs:196-200 | a discovery frame is answered with the manifest and changes nothing |
| `ReceiverReactions.UnknownOpcodeAnswered` | receiver/src/lib.rs:294-301 | any other opcode is answered by an error naming it in two hexadecimal digits whose value it is |
| `ReceiverReactions.UnknownOpcodeSeen` | receiver/src/lib.rs:294-301 | which the host reads as a failed result with that message |
| `ReceiverReactions.SignedRefusal` | receiver/src/lib.rs:134-155 | a signed module is refused for the first check that fails, in this order and with these texts |
| `ReceiverReactions.SignedPermitted` | receiver/src/lib.rs:134-155 | it is permitted if and only if all of them pass, and is then what lies behind the first 64 bytes |
| `ReceiverReactions.UnsignedRefusal` | receiver/src/lib.rs:142-155 | an unsigned one is permitted if and only if no signature is required and its imports are valid, and refused with these texts |
| `ReceiverReactions.HardwareIsKept` | receiver/src/engine/executor.rs:109-145 | after any stream the single core has the hardware again, with what the modules run so far did to it |
| `ReceiverReactions.PushRunsOnKeptHardware` | receiver/src/engine/executor.rs:112-145 | every permitted push is run on the hardware the one before left and on the slots last set, and answered with its result |
| `ReceiverReactions.SingleCoreStatus` | receiver/src/engine/executor.rs:147-164 | idle behind a permitted push, stopped behind a stop, unchanged behind anything else, and never running |
| `Devices.RouterConserves` | host/devices/device.py:65-83 | the router hands over the first wanted frame, queues every result passing by in order, and otherwise queues none |
| `Devices.RouterReadsOn` | host/devices/device.py:65-83 | without an answer the router goes on to its deadline or the last arrival; it takes every frame up to its end and leaves the rest |
| `Devices.MiloDevice.ReadRouted` | host/devices/device.py:65-83 | the loop computes the routing function, timeouts included |
| `Devices.MiloDevice.WaitResult` | host/devices/device.py:129-133 | queue first, else the first result to arrive; returned and queued payloads stay those received, in order |
| `Devices.CallerGetsResult` | host/devices/device.py:86-92 | what a caller is given of a written result is what was executed |
| `Devices.MiloDevice.Push` | host/devices/device.py:99-127 | sends one frame, then waits for the next result, whichever that is; nothing is lost, also on a timeout |
| `Devices.MiloDevice.Request` | host/devices/device.py:135-149 | sends one request and takes the next status reply; results passing by are queued |
| `Devices.MiloDevice.Stop` | host/devices/device.py:135-139 | the parsed next status reply, a timeout, or a parse failure |
| `Devices.MiloDevice.QueryStatus` | host/devices/device.py:141-149 | the parsed status, a timeout, or a parse failure |
| `Devices.MiloDevice.SetParam` | host/devices/device.py:151-157 | one frame of two big-endian words |
| `Devices.ParamArrives` | host/devices/device.py:151-157 | the receiver stores exactly the value set, in exactly that slot, or ignores a slot it does not have |
| `Protocol.NextKeeps` | host/devices/device.py:65-166 | every step of host, receiver or channel keeps the invariant |
| `Protocol.RunKeeps` | receiver/src/lib.rs:171-304 | in every run, under every executor: delivered, queued and in-flight results are those written, in order; so are status replies; frames arrive in order |
| `Delivery.ResultsInOrder` | host/devices/device.py:129-133 | in every run under a blocking executor, calls given up included: the k-th result delivered is the outcome of the k-th push or swap sent |
| `Delivery.PushReturnsOwnResultIff` | host/devices/device.py:99-102 | a `push` called after any run is given the result of its own frame, whatever follows, if and only if as many results had been collected as pushes sent; otherwise the oldest uncollected one |
| `Delivery.PushMayReturnEarlierResult` | host/devices/device.py:99-102 | for any two frames: a push behind an uncollected one returns the other's result |
| `Delivery.StatusesInOrder` | host/devices/device.py:135-149 | under every executor: the k-th status reply taken is the answer to the k-th request sent |
| `Delivery.RequestReadsOwnReplyIff` | host/devices/device.py:135-149 | under every executor: a request made after any run reads the reply to its own frame if and only if as many status replies had been taken as requests sent; otherwise the oldest one not taken |
| `Delivery.RequestsReadOwnReplies` | host/devices/device.py:135-149 | as long as no request is given up, each reads the answer to its own frame |
| `Delivery.CallsAtOnce` | host/devices/device.py:99-149 | what a call does at once: a waiting one hands out the oldest queued result if there is one, a request always waits, and giving up changes nothing else |
| `Delivery.ReceivesAreRead` | host/devices/device.py:65-83 | receiving step by step takes the same frames, queues the same results and ends with the same answer as the router loop of the device class |
| `Delivery.NeverStuck` | host/devices/device.py:65-83 | a wait with something outstanding always has a frame to take or to serve |
| `Delivery.WaitEnds` | host/devices/device.py:65-83 | letting host and receiver move ends every such wait |
| `Threaded.NothingLost` | receiver/src/lib.rs:158-162 | results reported so far and those still owed are those of the accepted pushes, in order, for every executor that owes its results in order |
| `Threaded.WrittenPlusOwed` | receiver/src/lib.rs:195-292 | results written and results owed are, in number, the pushes and swaps served |
| `Threaded.RefusalInPlaceIff` | receiver/src/lib.rs:205-211 | after every stream, a refusal's reply takes its own place among the results if and only if the executor owes nothing when it comes |
| `Threaded.RefusalOvertakes` | receiver/src/lib.rs:205-211 | a refusal is answered before the result of a module still running |
| `Threaded.DeliveredAreDue` | receiver/src/lib.rs:158-162 | when refusals come while nothing is owed, the k-th result delivered is the one due for the k-th push or swap sent, also when modules run beside the loop |
| `Threaded.ThreadedIsFifo` | receiver/src/engine/executor_threaded.rs:52-158 | the threaded executor owes its results in order, whenever its workers end and whatever becomes of them: a hot swap loses neither module's result |
| `Threaded.PollReports` | receiver/src/engine/executor_threaded.rs:124-137 | while a worker runs a poll reports nothing; otherwise it reports the oldest result owed if there is one, and only that |
| `Threaded.SubmitStarts` | receiver/src/engine/executor_threaded.rs:77-122 | a module is started whenever there is hardware and owes its result or that its thread panicked; otherwise it owes that no hardware is available |
| `Threaded.ThreadStatus` | receiver/src/engine/executor_threaded.rs:139-158 | running names a running worker; otherwise a stop, a result read, or a result waiting shows |
| `Threaded.GapWritesOldest` | receiver/src/lib.rs:171-193 | an idle gap with no worker running writes the oldest result owed |
| `Threaded.GapsDeliverAll` | receiver/src/lib.rs:171-193 | finitely many gaps write every result owed, in order: one for each, behind the turns the running worker needs to end |
| `Linkers.PackedValue` | patches/wasmi/src/linker.rs:120-123 | shifting and or-ing two symbols is module * 2^32 + name |
| `Linkers.PackUnpack` | patches/wasmi/src/linker.rs:120-139 | packing loses nothing: both symbols come back |
| `Linkers.PackOrder` | patches/wasmi/src/linker.rs:104-109 | one comparison of keys compares modules first, then names |
| `Linkers.StringInterner.GetOrIntern` | patches/wasmi_collections/src/string_interner/detail.rs:68-109 | the symbol of a string, interning it if new; both indexes stay mirror images |
| `Linkers.CollectModule` | patches/wasmi/src/linker.rs:607-612 | iterating the ordered map and filtering lists exactly the module's entries, by ascending name symbol |
| `Linkers.LinkerInner.NewImportKey` | patches/wasmi/src/linker.rs:549-556 | the key stands for the two names; no definition changes |
| `Linkers.LinkerInner.GetImportKey` | patches/wasmi/src/linker.rs:559-564 | a key exists exactly if both names are interned |
| `Linkers.LinkerInner.GetDefinition` | patches/wasmi/src/linker.rs:626-629 | lookup equals lookup in a plain map keyed by the pair of names |
| `Linkers.LinkerInner.Insert` | patches/wasmi/src/linker.rs:578-595 | a rejected insert changes nothing and names the duplicate; an accepted one sets exactly its entry |
| `Linkers.LinkerInner.Define` | patches/wasmi/src/linker.rs:268-277 | the same through names |
| `Linkers.LinkerInner.AllowShadowing` | patches/wasmi/src/linker.rs:544-546 | toggling the flag changes no definition |
| `Linkers.LinkerInner.AliasModule` | patches/wasmi/src/linker.rs:600-617 | success copies exactly the module's entries; it fails if and only if shadowing is off and both modules share a name, having copied exactly the names interned before the first shared one |
| `FuncTypes.FillCells` | patches/wasmi_core/src/func_type.rs:140-145 | the zip loop fills exactly its half of the buffer and uses up the iterator |
| `FuncTypes.TryNewSmall` | patches/wasmi_core/src/func_type.rs:123-151 | inline exactly if the types fit the buffer; on `None` nothing has been consumed |
| `FuncTypes.New` | patches/wasmi_core/src/func_type.rs:89-115 | the two errors by their exact conditions, otherwise the one representation of the signature |
| `FuncTypes.AccessorsGiveBack` | patches/wasmi_core/src/func_type.rs:154-235 | every accessor gives back what the type was built from, in both representations, in bounds |
| `FuncTypes.EqualIffSameSignature` | patches/wasmi_core/src/func_type.rs:42-61 | derived equality holds if and only if parameters and results are equal |
| `Truncate.Gap` | patches/wasmi_core/src/value.rs:210-217 | a float below -2^k is at or below the next float below it: none lies strictly between |
| `Truncate.LowerThreshold` | patches/wasmi_core/src/value.rs:179-190 | the lower literal separates exactly at the target's minimum |
| `Truncate.ThresholdsAreRight` | patches/wasmi_core/src/value.rs:210-217 | each of the eight entries has the precision of its float and the least and greatest number of its integer type, as powers of two |
| `Truncate.ConvertsExactlyWhatFits` | patches/wasmi_core/src/value.rs:179-217 | from 24 or 53 bits to 32 or 64, signed or not: Ok with the truncated number if and only if it lies in [-2^(N-1), 2^(N-1)) or [0, 2^N); the two traps otherwise, NaN apart |
| `Truncate.SaturatingAgrees` | patches/wasmi_core/src/value.rs:193-206 | over the same types: zero for NaN, otherwise the number of the type nearest to the truncated one, which is what the trapping form returns where it succeeds |
| `Truncate.LowerLiteralsAreFloats` | patches/wasmi_core/src/value.rs:210-217 | the three gapped literals are themselves floats of their type |
| `Wide128.CombineValue` | patches/wasmi_core/src/wasm.rs:451-455 | combining is the signed high word over the unsigned low word |
| `Wide128.SplitCombine` | patches/wasmi_core/src/wasm.rs:451-462 | splitting undoes combining |
| `Wide128.CombineSplit` | patches/wasmi_core/src/wasm.rs:451-462 | combining undoes splitting |
| `Wide128.AddIsCarry` | patches/wasmi_core/src/wasm.rs:471-476 | 128-bit addition is word addition with a carry |
| `Wide128.SubIsBorrow` | patches/wasmi_core/src/wasm.rs:485-490 | 128-bit subtraction is word subtraction with a borrow |
| `Wide128.AddSubInverse` | patches/wasmi_core/src/wasm.rs:471-490 | each undoes the other |
| `Wide128.MulWideSExact` | patches/wasmi_core/src/wasm.rs:499-504 | the signed product is exact |
| `Wide128.MulWideUExact` | patches/wasmi_core/src/wasm.rs:513-518 | the unsigned product is exact |
| `Wide128.HighWordsDiffer` | patches/wasmi_core/src/wasm.rs:499-518 | both products share the low word; the high words differ by the other factor for each negative one |
| `Simd.LanesFromLanes` | patches/wasmi_core/src/simd.rs:216-235 | lanes written to a vector are the lanes read from it |
| `Simd.LoadExtends` | patches/wasmi_core/src/simd.rs:1692-1727 | every extending load equals the extend-low of the zero-padded load |
| `Simd.LoadLanes` | patches/wasmi_core/src/simd.rs:1692-1727 | the lanes of an extending load are the narrow lanes of the word, as numbers |
| `Simd.TwoByteLane` | patches/wasmi_core/src/simd.rs:216-235 | a two-byte lane has its lowest byte first and its sign in the last |
| `Simd.FourByteLane` | patches/wasmi_core/src/simd.rs:216-235 | so has a four-byte lane |
| `Simd.ExtMulLanes` | patches/wasmi_core/src/simd.rs:1075-1124 | lane i of the low and of the high product is the exact product of lanes i and of lanes i + 4 |
| `Simd.DotIsPairwiseSum` | patches/wasmi_core/src/simd.rs:1289-1298 | lane i of the dot product is the wrapping sum of lanes 2i and 2i+1 of the low and high extended products |
| `Simd.DotWrapsIff` | patches/wasmi_core/src/simd.rs:1289-1298 | the products never wrap, and their sum does if and only if all four operands are -32768 |
| `Simd.Q15ClampsIff` | patches/wasmi_core/src/simd.rs:812-819 | the result is the Q15 product rounded to nearest if and only if the operands are not both -32768, where it is clamped |
| `Simd.Bitmask` | patches/wasmi_core/src/simd.rs:1259-1282 | bit i of the mask is set if and only if lane i is negative |
| `Simd.AllTrue` | patches/wasmi_core/src/simd.rs:1235-1257 | true if and only if no lane is zero |

## Left out

- Error message texts of the decoder; errors carry only the offset they report.
- BinaryReaders.BinaryReader.ReadOperator: reports the prefixed opcodes 0xfb to 0xfe, `try_table` (0x1f) and the stack-switching `resume` forms (0xe3, 0xe4) as illegal; they are large tables of the same few immediates.
- BinaryReaders.BinaryReader.SkipConstExprAt: stops at those same opcodes.
- Name strings, UTF-8 validation and the section types built on the iterators; item decoders are a parameter.
- JSON numbers and lone surrogate escapes: no text the receiver writes contains either. The UTF-8 form of payloads is not modelled, so a payload is its text.
- Failing writes: the receiver ignores their errors, and the model's transports do not fail to write.
- Time: a deadline is a point in a port's or transport's future input at which waiting ends. Timeouts that lose part of a frame are modelled for one frame read only; the protocol assumes whole frames.
- `discover` and its retries, which discard stray frames; the protocol has no discovery requests.
- The receiver's own `read_frame` over a byte stream, and the execution part of the Pico loop.
- What a module does when it runs: running is a parameter of the executors. For the threaded executor the parameter foretells each worker's result, so that stops and slots set meanwhile are accounted for without being computed; workers end between two turns of the dispatch loop or as they start, not in the middle of a turn.
- The dual-core executor, and the `take_hardware` and `give_hardware` calls, which the dispatch loop never makes.
- The hash-based interner back end and the length-first string order of the other one; the ordered map is iterated by ascending key as its contract says.
- Defining a whole instance's exports, resolving imports and instantiating.
- NaN payloads, signed zero and rounding; floats are numbers m * 2^e with any exponent, a superset of each type's values.
- Floating-point lanes, shuffles, narrowing and the memory accesses around vector loads.
- Store functions around the 128-bit arithmetic.
