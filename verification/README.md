# AIE2 control-code assembler: model and proofs

The assembler takes a packed transaction stream for an AIE2 array, walks its ops, decides which buffer-descriptor
(BD) words need a run-time address, clears those bits in the buffer it is still walking, and emits relocation
symbols. The sections and symbols then become ELF sections, an interned symbol table and relocations. This project
models that path in Dafny and proves what it promises.

There are two levels. `ByteWalk` is the walk over bytes: every step reads the buffer as the steps before it left it.
The walkers of `TransactionPreprocessor`, loops over an `array<byte>` that they patch as they go, compute it on every
buffer on which their reads and writes stay inside. `TxnMachine` is a patching machine on decoded ops that describes
both walkers; they differ in it only in the register key space and in whether the PM-load window is counted down.
`WalkRefinement` proves that the byte-level walk is the machine's run on the ops of the untouched buffer as long as
every clear stays in its payload or reaches only bytes that are clear already, and that this is exactly when the walk
changes nothing outside the payloads. Everything else is proved about the machine, about the cleared buffer, or about
the other walkers of the same bytes.

| files | what they hold |
|---|---|
| Bytes, Symbols, TxnLayout, TxnEncode | bytes and numerals; symbols; opcodes, headers, the walk; an encoder and its round trip |
| TxnMachine, TxnRuns | the patching machine; PM window, BD index, verdicts and acceptance in closed form |
| ShimBits, ByteWalk, TransactionInput, WalkRefinement | clearing; the walk over bytes; which bytes a clear reaches; when the walk is the machine |
| TransactionPreprocessor, Metadata, Setup | the walkers, the metadata parsers and the argument setup as one class, with what they compute |
| PatchSafety, ShortChunks, Device, PatchTargets, WalkSymbols | structure and idempotence; streams whose clears spill; register-file interpreter and simulation; patches land in the right BD; every symbol of a walk |
| MetadataSites, SetupMeaning | what a tree says, and what the setup leaves behind, read off the inputs |
| Agreement, WalkAgreement | the legacy and the optimized machine on one program; the two walkers on its two buffers |
| Analyzer, Dpu | the analyzer's walkers; the DPU decoder |
| Scratchpad, Elf, Pipeline, PacketSection | the resize; writers, interning, relocations; the stages composed; the control packet's section |
| Preemption, PreemptStream | the save and restore layout; generated streams end to end |

## Assumptions

- The structures `XAie_*` and `patch_op_t` and the opcode numbers belong to the AIE driver, which is not part of this
  model. `TxnLayout` names every size, offset and number. The proofs need that opcodes differ, that fields lie inside
  their headers, and that TCT, DDR_PATCH, READ_REGS and RECORD_TIMER are CUSTOM_OP_BEGIN + 0..3, which the two walkers
  jointly imply, with MERGE_SYNC = CUSTOM_OP_BEGIN + 4 and CUSTOM_OP_NEXT = CUSTOM_OP_BEGIN + 5 behind them. The
  legacy RegOff is taken to be 64 bits wide, as that walker's map key is, and the optimized one 32.
  `ShortChunks.ShortLoadMisleads` also uses that PREEMPT modulo 4 is no opcode.
- The walkers' contracts need of a buffer only that their reads and writes stay inside it (`ByteWalk.MemorySafe`).
  The results about ops also take the stream to be well formed: its ops tile the buffer behind the header, every Size
  covers its header, a block-write carries at least one word and only whole words, and the buffer is below 4 GiB, as
  its 32-bit TxnSize says.
- MASKWRITE sets the bits of a register that are set in its mask to those of its value.
- In generated streams the driver block-writes a transfer's shim BD before its patch op and nothing in between writes
  that BD again; the register constant for the first shim BD's address word is that BD's base plus 4; the tile address
  of column c is c shifted by the configured 25 bits.

## What the proofs found

- The optimized walker never counts its PM window down, so after any LOAD_PM_START it rejects every DDR patch and
  treats every block-write as PM code; and its 32-bit keys let a block-write past 2^32 stand for a small register.
  `WalkAgreement.WalksAgree` and `WalkAgreement.WalksAccept` say for exactly which programs this matters, among those
  whose two buffers can be patched in place; `WalkAgreement.EmptyPmLoadDivides` and
  `WalkAgreement.WrappingKeyDivides` are small ones. Outside that class a spilling clear alone can divide the walkers:
  `WalkAgreement.SpillDivides` is such a program.
- Clearing a BD touches ten bytes from its start, and nothing checks that the block-write has them. A walk changes
  bytes outside the payloads exactly when the spill of some BD it clears is not clear already
  (`WalkRefinement.WalkKeepsOutside`; `PatchTargets.PatchableFromOps` reads the condition off the ops). Two streams an
  encoder can produce show what then happens: one whose patch op destroys its own header, and is accepted
  (`ShortChunks.ShortPatchDestroysItself`), and one the walker rejects for an opcode it has made itself
  (`ShortChunks.ShortLoadMisleads`).
- `resize_scratchpad` also sets the size of masked 32-bit patches, whose size field is their mask. The mask survives
  exactly under the condition of `Scratchpad.MaskSurvivesResize`; `PreemptStream.MaskLost` is a stream where it does
  not. Resizing is not idempotent (`Scratchpad.ResizeTwice`). Generated streams contain only shim patches, so neither
  bites there.
- All symbols hang on the first section in hash order and are lost with it if it is empty (`Elf.NoSymbolLost`).
  Validating the metadata enters an empty packet section when there is no packet; after the setup every symbol's
  section has bytes exactly when the metadata names no location or the packet is not empty
  (`PacketSection.PlacedExact`, `PacketSection.EmptyPacketAccepted`).
- DUMP_REGISTER takes its count from the word after its opcode and advances 1 + 2 * count words, so one with count 0
  has its counter word decoded again as an instruction. A program is decoded as meant exactly when every empty
  DUMP_REGISTER before its first unknown opcode or argument is followed by a word whose low 24 bits are 0
  (`Dpu.RoundTrip`); `Dpu.EmptyDumpLosesSymbol` is a program where a symbol is lost.
- Two symbols can share a table entry that is not theirs exactly when their joined keys collide
  (`Elf.OwnEntryExact`), which an underscore in a name makes possible (`Elf.UnderscoreCollides`); no name the
  assembler makes has one (`Pipeline.GatheredSound`).

## Model

| member | source | states |
|---|---|---|
| `TransactionPreprocessor.AieBlobTransactionInput.ProcessTxn` | src/cpp/aiebu/src/preprocessor/aie2/aie2_blob_preprocessor_input.cpp:353-471 | On any buffer it stays inside, the walker that patches while it walks leaves the bytes, the symbols and the result of the byte-level walk; where every clear stays in its payload or reaches only clear bytes, these are what the patching machine computes on the ops of the untouched buffer |
| `TransactionPreprocessor.AieBlobTransactionInput.ProcessTxnOpt` | src/cpp/aiebu/src/preprocessor/aie2/aie2_blob_preprocessor_input.cpp:474-587 | The same for the optimized headers and the window that never closes |
| `TransactionPreprocessor.AieBlobTransactionInput.ExtractSymbolFromBuffer` | src/cpp/aiebu/src/preprocessor/aie2/aie2_blob_preprocessor_input.cpp:589-614 | Header version 1.0 selects the optimized walker, anything else the legacy one |
| `TransactionPreprocessor.AieBlobTransactionInput.PatchHelper` | src/cpp/aiebu/src/preprocessor/aie2/aie2_blob_preprocessor_input.cpp:616-694 | One patch: rejected with nothing changed when the addend exceeds 32 bits, otherwise one symbol at the position and with the mask or size of the register's class, and the BD's address bits cleared only for a shim base address |
| `TransactionPreprocessor.AieBlobTransactionInput.FindClass` | src/cpp/aiebu/src/preprocessor/aie2/aie2_blob_preprocessor_input.cpp:629-673 | Searching the two loop-built BD tables for reg and for reg - 4 (wrapping) gives the class that a range and modulo-32 test gives |
| `TransactionPreprocessor.AieBlobTransactionInput.ClearShimBdAddressBits` | src/cpp/aiebu/src/preprocessor/aie2/aie2_blob_preprocessor_input.cpp:333-348 | Exactly the 46 address bits of words 1 and 2 become 0 |
| `TransactionPreprocessor.AieBlobTransactionInput.IndexChunks` | src/cpp/aiebu/src/preprocessor/aie2/aie2_blob_preprocessor_input.cpp:384-389 | The chunk loop enters, for every BD-sized chunk, its offset and its 32-bit byte length under the wrapped register key |
| `TransactionPreprocessor.AieBlobTransactionInput.BlockWriteOp` | src/cpp/aiebu/src/preprocessor/aie2/aie2_blob_preprocessor_input.cpp:369-393 | A block-write patches its own BD in PM mode and is indexed otherwise |
| `TransactionPreprocessor.AieBlobTransactionInput.DdrPatchOp` | src/cpp/aiebu/src/preprocessor/aie2/aie2_blob_preprocessor_input.cpp:428-448 | A DDR patch is rejected in a PM window or without an indexed BD, with nothing changed, else patched |
| `TransactionPreprocessor.AieBlobTransactionInput.ResizeScratchpad` | src/cpp/aiebu/src/preprocessor/aie2/aie2_blob_preprocessor_input.h:134-155 | The max loop and the update loop give every symbol of the section the largest extent and touch no other symbol |
| `TransactionPreprocessor.AieBlobTransactionInput.SetArgs` | src/cpp/aiebu/src/preprocessor/aie2/aie2_blob_preprocessor_input.h:74-167 | Buffers, PM packets, metadata, control code, every library in turn and the two resizes leave exactly the store the setup describes, or the first refusal with its section or file and its error |
| `Bytes.DecimalMeaning` | src/cpp/aiebu/src/preprocessor/aie2/aie2_blob_preprocessor_input.cpp:643-689 | A number's string is a numeral without leading zeros that, read most significant digit first, says that number |
| `Bytes.DecimalUnique` | src/cpp/aiebu/src/preprocessor/aie2/aie2_blob_preprocessor_input.cpp:643-689 | And it is the only such numeral |
| `TransactionPreprocessor.TableIsArithmetic` | src/cpp/aiebu/src/preprocessor/aie2/aie2_blob_preprocessor_input.cpp:629-635 | A table of BD addresses contains a register exactly when it is in range and 32-aligned |
| `WalkRefinement.WalkIsMachine` | src/cpp/aiebu/src/preprocessor/aie2/aie2_blob_preprocessor_input.cpp:353-471 | A walk over the buffer it is patching, if its clears are contained, has the outcome, symbols and bytes of the machine on the ops as they were |
| `WalkRefinement.WalkKeepsOutside` | src/cpp/aiebu/src/preprocessor/aie2/aie2_blob_preprocessor_input.cpp:333-348 | A walk that stays inside its buffer keeps every byte outside the block-write payloads exactly when every BD it clears is contained: its spill, if any, is clear already |
| `WalkRefinement.PatchableIsSafe` | src/cpp/aiebu/src/preprocessor/aie2/aie2_blob_preprocessor_input.cpp:353-471 | Then every read and write of the walk is inside the buffer |
| `TxnRuns.WindowInvariant` | src/cpp/aiebu/src/preprocessor/aie2/aie2_blob_preprocessor_input.cpp:361-468 | Before every op of every run the window and the PM id are those of the latest LOAD_PM_START: count - (ops since) for legacy, count + 1 for ever for optimized |
| `TxnRuns.LegacyWindowExtent` | src/cpp/aiebu/src/preprocessor/aie2/aie2_blob_preprocessor_input.cpp:413-468 | Legacy PM mode is exactly the next count ops after a LOAD_PM_START, cut by the next one |
| `TxnRuns.OptWindowExtent` | src/cpp/aiebu/src/preprocessor/aie2/aie2_blob_preprocessor_input.cpp:531-585 | Optimized PM mode is everything after the first LOAD_PM_START |
| `TxnRuns.IndexInvariant` | src/cpp/aiebu/src/preprocessor/aie2/aie2_blob_preprocessor_input.cpp:384-389 | At every step the BD map holds, for every register key, exactly what a backward scan of the stream finds |
| `TxnRuns.BackScanMeaning` | src/cpp/aiebu/src/preprocessor/aie2/aie2_blob_preprocessor_input.cpp:433-441 | The scan's result is the last block-write outside PM mode with a chunk at that register; no result means there is none |
| `TxnRuns.RunFollowsVerdicts` | src/cpp/aiebu/src/preprocessor/aie2/aie2_blob_preprocessor_input.cpp:361-469 | A run goes on exactly while every op's verdict, read off the stream alone, accepts; its symbols and cleared BDs are then those of the verdicts, in order |
| `TxnRuns.FailureIsFirstReject` | src/cpp/aiebu/src/preprocessor/aie2/aie2_blob_preprocessor_input.cpp:361-469 | A failed run reports the error of the first rejected op and leaves the symbols of the ops before it |
| `TxnRuns.ExactAcceptance` | src/cpp/aiebu/src/preprocessor/aie2/aie2_blob_preprocessor_input.cpp:361-469 | Success if and only if every opcode is known, every PM id listed, and every DDR patch is outside PM mode, has an earlier indexed BD and an addend of at most 2^32 - 1 |
| `Pipeline.AcceptanceOfBuffers` | src/cpp/aiebu/src/preprocessor/aie2/aie2_blob_preprocessor_input.cpp:353-471 | On a buffer that can be patched in place the walker's return value is success exactly under those conditions |
| `TxnMachine.OutputGrows` | src/cpp/aiebu/src/preprocessor/aie2/aie2_blob_preprocessor_input.cpp:616-694 | Symbols and clears of a run are only appended |
| `TxnMachine.PlacesAreChunks` | src/cpp/aiebu/src/preprocessor/aie2/aie2_blob_preprocessor_input.cpp:384-389 | Every indexed and every cleared BD is a chunk of a block-write already visited |
| `TransactionInput.SpillExact` | src/cpp/aiebu/src/preprocessor/aie2/aie2_blob_preprocessor_input.cpp:333-348 | Clearing any list of chunks of a well-formed buffer keeps every byte outside the payloads exactly when each chunk's spill is clear already |
| `TransactionInput.Untouched` | src/cpp/aiebu/src/preprocessor/aie2/aie2_blob_preprocessor_input.cpp:333-348 | Before op k the header and every byte from op k on are as in the input |
| `PatchTargets.PatchableFromOps` | src/cpp/aiebu/src/preprocessor/aie2/aie2_blob_preprocessor_input.cpp:333-448 | A stream's clears are contained exactly when the BD of each op that patches one, before the first rejected op, is |
| `PatchTargets.RoomyStreams` | src/cpp/aiebu/src/preprocessor/aie2/aie2_blob_preprocessor_input.cpp:333-448 | They are for any run when every block-write ends with a whole BD or at least twelve bytes of one |
| `PatchSafety.StructureKept` | src/cpp/aiebu/src/preprocessor/aie2/aie2_blob_preprocessor_input.cpp:333-348 | A buffer cleared without a change outside the payloads is well formed, with the same header, the same op offsets and the same ops but for cleared payload bytes |
| `PatchSafety.PatchingIsIdempotent` | src/cpp/aiebu/src/preprocessor/aie2/aie2_blob_preprocessor_input.cpp:353-471 | Processing the patched buffer again gives the same outcome, the same symbols and the same bytes |
| `PatchSafety.ProgramKept` | src/cpp/aiebu/src/preprocessor/aie2/aie2_blob_preprocessor_input.cpp:353-471 | The symbols and bytes are the same already when the clears have left every op where it was with only payload bytes cleared, whatever became of the padding around them |
| `PatchSafety.SameRun` | src/cpp/aiebu/src/preprocessor/aie2/aie2_blob_preprocessor_input.cpp:361-469 | The machine takes the same steps on cleared ops: no length word is ever among the cleared bytes |
| `ShortChunks.ShortPatchDestroysItself` | src/cpp/aiebu/src/preprocessor/aie2/aie2_blob_preprocessor_input.cpp:428-448 | A concrete legacy stream, accepted, and walked inside its buffer, whose patch op is turned into a block-write by its own clear: the buffer written no longer carries the program and is no longer well formed |
| `ShortChunks.ShortLoadMisleads` | src/cpp/aiebu/src/preprocessor/aie2/aie2_blob_preprocessor_input.cpp:374-382 | A concrete stream in either encoding, every op of which is acceptable and whose walk stays inside the buffer, that the walker rejects for an opcode its own clear has made |
| `ShimBits.ClearAllExact` | src/cpp/aiebu/src/preprocessor/aie2/aie2_blob_preprocessor_input.cpp:342-347 | Clearing any list of BDs leaves a byte alone exactly when each of the clears does not touch it or finds it clear |
| `ShimBits.ClearAllIdempotent` | src/cpp/aiebu/src/preprocessor/aie2/aie2_blob_preprocessor_input.cpp:342-347 | Clearing the same BDs again changes no byte |
| `PatchTargets.MeaningPreserved` | src/cpp/aiebu/src/preprocessor/aie2/aie2_blob_preprocessor_input.cpp:333-471 | Interpreting WRITE, BLOCKWRITE and MASKWRITE bit by bit, the patched stream reaches the same register file except in address bits of shim BDs its own patches name, and those can only turn off |
| `Device.Simulation` | src/cpp/aiebu/src/preprocessor/aie2/aie2_blob_preprocessor_input.cpp:333-348 | The same for any op sequence and any set of cleared chunks |
| `PatchTargets.ClearedBitsArePatchedBits` | src/cpp/aiebu/src/preprocessor/aie2/aie2_blob_preprocessor_input.cpp:428-448 | The register bits a run clears are exactly bits [31:2] of word 1 and [15:0] of word 2 of the BDs it patches |
| `PatchTargets.BaseOfWordOne` | src/cpp/aiebu/src/preprocessor/aie2/aie2_blob_preprocessor_input.cpp:433-433 | For an address classified as shim BD word 1, masking the low four bits gives that BD's base |
| `PatchTargets.ClearedForPatch` | src/cpp/aiebu/src/preprocessor/aie2/aie2_blob_preprocessor_input.cpp:433-445 | A BD is cleared for an op exactly when the op patches one, and its words 1 and 2 go to the patched register and the next |
| `PatchTargets.RightBytes` | src/cpp/aiebu/src/preprocessor/aie2/aie2_blob_preprocessor_input.cpp:433-445 | The payload bytes cleared for a DDR patch are exactly those the block-write sends to regaddr and the low half of regaddr + 4 |
| `PatchTargets.SymbolAtRegister` | src/cpp/aiebu/src/preprocessor/aie2/aie2_blob_preprocessor_input.cpp:637-692 | A DDR patch emits one symbol or none; a masked patch stands on the word sent to the named register, a shim patch on the start of its BD with the BD's length |
| `PatchTargets.SymbolInPmMode` | src/cpp/aiebu/src/preprocessor/aie2/aie2_blob_preprocessor_input.cpp:374-381 | A block-write in PM mode stands under the latest LOAD_PM_START, within its count for the legacy walker, and is always accepted; a shim BD it writes is cleared and named after that load's PM id with the BD's length, any other BD word yields one symbol "0" with that word's mask, on word 0 or word 1 of the payload |
| `PatchTargets.ShimNameOfPatch` | src/cpp/aiebu/src/preprocessor/aie2/aie2_blob_preprocessor_input.cpp:676-691 | Adding the argument offset and taking it off again in 32 bits finds the external buffer with the patch's own index; the name is the run's, that buffer's, or the index plus three |
| `PatchTargets.BdRegisters` | src/cpp/aiebu/src/preprocessor/aie2/aie2_blob_preprocessor_input.h:28-34 | The four kinds of BD word, as literal register lists: words 0 and 1 of the 48 memory-tile BDs from 0xA0000 and of the 16 shim BDs from 0x1D000 |
| `WalkSymbols.EverySymbol` | src/cpp/aiebu/src/preprocessor/aie2/aie2_blob_preprocessor_input.cpp:353-694 | On any buffer that can be patched in place, read off the untouched bytes: the walk emits one symbol for each op that patches a BD word, in order, and none else; each stands on the payload byte sent to the register named, with the mask, BD length, addend and name of its op; the walk ends at the first op that is not acceptable, with that op's error |
| `WalkSymbols.OpEmits` | src/cpp/aiebu/src/preprocessor/aie2/aie2_blob_preprocessor_input.cpp:616-694 | An accepted op emits its one symbol exactly when it is a DDR patch of a BD word or a block-write in PM mode whose second word is one |
| `WalkSymbols.RejectReason` | src/cpp/aiebu/src/preprocessor/aie2/aie2_blob_preprocessor_input.cpp:413-448 | The error of a rejected op: unlisted PM id, patch in a PM window before missing BD before addend, or unknown opcode, each with its number |
| `PatchTargets.ClassesDisjoint` | src/cpp/aiebu/src/preprocessor/aie2/aie2_blob_preprocessor_input.cpp:629-673 | No register is in two of the four classes |
| `WalkAgreement.WalksAgree` | src/cpp/aiebu/src/preprocessor/aie2/aie2_blob_preprocessor_input.cpp:353-587 | On two buffers that carry one program, one in each encoding, and can be patched in place: what the legacy walker accepts the optimized walker accepts with the same symbols, each at the same byte of the same block-write, exactly when no DDR patch follows a LOAD_PM_START, no BD block-write follows a closed window, and no patch of a BD word finds a chunk past 2^32 |
| `WalkAgreement.WalksAccept` | src/cpp/aiebu/src/preprocessor/aie2/aie2_blob_preprocessor_input.cpp:353-587 | On such buffers the optimized walker accepts, with every patch's BD also in the legacy map, exactly what the legacy walker accepts without a DDR patch after a LOAD_PM_START |
| `WalkAgreement.WalksFailAlike` | src/cpp/aiebu/src/preprocessor/aie2/aie2_blob_preprocessor_input.cpp:353-587 | On such buffers, where windows and register keys make no difference to a block-write or patch, the walkers agree on the result, its error included, and on the symbols emitted before it |
| `WalkAgreement.WalkSymbolCounts` | src/cpp/aiebu/src/preprocessor/aie2/aie2_blob_preprocessor_input.cpp:494-501 | When both accept such buffers, the optimized walker has one symbol more for each BD block-write after a closed window |
| `WalkAgreement.PatchedStillAgree` | src/cpp/aiebu/src/preprocessor/aie2/aie2_blob_preprocessor_input.cpp:353-587 | When both accept with the same symbols, the two patched buffers again carry one program |
| `WalkAgreement.RoomyProgram` | src/cpp/aiebu/src/preprocessor/aie2/aie2_blob_preprocessor_input.cpp:369-393 | A program whose block-writes end with a whole BD or at least twelve bytes of one can be patched in place in both encodings, whatever the run |
| `WalkAgreement.EncodedBothWays` | src/cpp/aiebu/src/preprocessor/aie2/aie2_blob_preprocessor_input.cpp:353-614 | A program encoded in both formats gives two well-formed buffers with exactly its ops, each selecting its own walker, which can be patched in place when its block-writes have that room |
| `WalkAgreement.EmptyPmLoadDivides` | src/cpp/aiebu/src/preprocessor/aie2/aie2_blob_preprocessor_input.cpp:531-547 | A concrete program whose encoded buffers only the legacy walker accepts: LOAD_PM_START with count 0, then a BD and its patch |
| `WalkAgreement.WrappingKeyDivides` | src/cpp/aiebu/src/preprocessor/aie2/aie2_blob_preprocessor_input.cpp:388-508 | A concrete program whose encoded buffers only the optimized walker accepts: a block-write across 2^32 |
| `WalkAgreement.SpillDivides` | src/cpp/aiebu/src/preprocessor/aie2/aie2_blob_preprocessor_input.cpp:369-410 | A concrete program to which none of those differences applies, whose encoded buffers cannot be patched in place: both walks stay inside, yet the legacy walker accepts and the optimized one rejects a MASKWRITE that the clear has turned into a WRITE |
| `Agreement.ScanUnlessWrapped` | src/cpp/aiebu/src/preprocessor/aie2/aie2_blob_preprocessor_input.cpp:388-508 | The 64-bit and the 32-bit BD map find the same chunk unless the 32-bit one finds a chunk past 2^32 |
| `TxnEncode.StreamRoundTrip` | src/cpp/aiebu/src/preprocessor/aie2/aie2_blob_preprocessor_input.cpp:474-587 | An encoded program is a well-formed stream of its encoding with exactly its ops |
| `TxnEncode.KnownIsEncoded` | src/cpp/aiebu/src/preprocessor/aie2/aie2_blob_preprocessor_input.cpp:364-466 | The opcodes a walker knows are those an op can be encoded with |
| `TxnEncode.VersionSelects` | src/cpp/aiebu/src/preprocessor/aie2/aie2_blob_preprocessor_input.cpp:608-613 | Of all versions 1.0 alone selects the optimized walker |
| `Analyzer.Transaction.Load` | src/cpp/aiebu/src/analyzer/transaction.cpp:47-62 | A section is taken, unchanged, exactly when its header's TxnSize is its size |
| `Analyzer.Transaction.CountTxn` | src/cpp/aiebu/src/analyzer/transaction.cpp:98-155 | Each counter grows by the number of ops with that opcode, on the preprocessor's own op offsets; failure exactly on an unknown opcode |
| `Analyzer.Transaction.CountTxnOpt` | src/cpp/aiebu/src/analyzer/transaction.cpp:157-210 | The same for the optimized headers |
| `Analyzer.Transaction.StringifyTxn` | src/cpp/aiebu/src/analyzer/transaction.cpp:438-497 | One line an op, at the preprocessor's own offsets; the numbers it reads with its own field reads are those of the preprocessor's op; failure exactly on an unknown opcode |
| `Analyzer.Transaction.StringifyTxnOpt` | src/cpp/aiebu/src/analyzer/transaction.cpp:499-557 | The same for the optimized headers |
| `Analyzer.Transaction.CountTxnOps` | src/cpp/aiebu/src/analyzer/transaction.cpp:212-226 | Version 1.0 headers are counted by the optimized walker |
| `Analyzer.Transaction.GetAllOps` | src/cpp/aiebu/src/analyzer/transaction.cpp:559-571 | Version 1.0 headers are listed by the optimized walker |
| `Analyzer.CountsAddUp` | src/cpp/aiebu/src/analyzer/transaction.cpp:104-106 | The counters of a walkable stream add up to NumOps |
| `Analyzer.CountIsNumber` | src/cpp/aiebu/src/analyzer/transaction.cpp:104-106 | A counter's gain is the number of ops with its opcode |
| `Analyzer.AcceptedStreamsAreKnown` | src/cpp/aiebu/src/analyzer/transaction.cpp:107-153 | Whatever the preprocessor's walker accepts, of buffers it can patch in place, the analyzer can walk, before and after patching |
| `Analyzer.AnalyzerSeesPatchedStream` | src/cpp/aiebu/src/analyzer/transaction.cpp:47-210 | On the patched section the size check, all counts and all offsets are as on the input, and the lines differ only in cleared bytes |
| `Dpu.AieBlobDpuInput.ExtractSymbolFromBuffer` | src/cpp/aiebu/src/preprocessor/aie2/aie2_blob_preprocessor_input.cpp:718-793 | The decoder's loop appends the symbols and returns the error of the walk from word 0 |
| `Dpu.AieBlobDpuInput.PatchShimBd` | src/cpp/aiebu/src/preprocessor/aie2/aie2_blob_preprocessor_input.cpp:696-716 | A known argument field adds one symbol at the word after the opcode; an unknown one is an error and adds nothing |
| `Dpu.RoundTrip` | src/cpp/aiebu/src/preprocessor/aie2/aie2_blob_preprocessor_input.cpp:729-791 | Decoding an encoded program, whose instruction lengths, opcodes and argument names are given independently of the decoder's tables, visits exactly its instruction starts, emits exactly the symbols of its shim BD writes and stops at its first unknown opcode or argument with that error, reading only words of the buffer, exactly when every empty DUMP_REGISTER before that point is followed by a count of 0 |
| `Dpu.DecodeEncoded` | src/cpp/aiebu/src/preprocessor/aie2/aie2_blob_preprocessor_input.cpp:718-793 | The same for a whole buffer of little-endian bytes, up to three bytes behind the last word being ignored |
| `Dpu.EmptyDumpLosesSymbol` | src/cpp/aiebu/src/preprocessor/aie2/aie2_blob_preprocessor_input.cpp:779-785 | A concrete program whose shim BD write is skipped, its symbol lost without an error |
| `Dpu.UnknownArgumentFirst` | src/cpp/aiebu/src/preprocessor/aie2/aie2_blob_preprocessor_input.cpp:710-712 | A concrete program whose miscounted DUMP_REGISTER does not matter, because decoding stops before it |
| `Dpu.PositionsIncrease` | src/cpp/aiebu/src/preprocessor/aie2/aie2_blob_preprocessor_input.cpp:714-715 | On any buffer positions strictly increase and every symbol comes from a visited shim write, one word after it |
| `TransactionPreprocessor.AieBlobTransactionInput.ReadMetaJson` | src/cpp/aiebu/src/preprocessor/aie2/aie2_blob_preprocessor_input.cpp:294-314 | The AIE compiler's buffers when the tree has them, else the DMA compiler's list, else nothing |
| `TransactionPreprocessor.AieBlobTransactionInput.AieCompilerParser` | src/cpp/aiebu/src/preprocessor/aie2/aie2_blob_preprocessor_input.cpp:223-248 | The first error in traversal order, or one symbol a patch location in that order, the names of first entries, and the packet's section entered when any location was looked at |
| `TransactionPreprocessor.AieBlobTransactionInput.ExtractCoalescedBuffers` | src/cpp/aiebu/src/preprocessor/aie2/aie2_blob_preprocessor_input.cpp:178-197 | The first coalesced buffer or location out of range, or their symbols in order |
| `TransactionPreprocessor.AieBlobTransactionInput.ExtractControlPacketPatch` | src/cpp/aiebu/src/preprocessor/aie2/aie2_blob_preprocessor_input.cpp:199-221 | An addend over 32 bits or the first location outside the packet or with an invalid argument, or one symbol each; looking at a location enters the packet's section, empty, when there is none |
| `TransactionPreprocessor.AieBlobTransactionInput.DmaCompilerParser` | src/cpp/aiebu/src/preprocessor/aie2/aie2_blob_preprocessor_input.cpp:252-292 | Fixed names with the control packet's on top; the first bad entry, or one symbol each |
| `MetadataSites.TreeSites` | src/cpp/aiebu/src/preprocessor/aie2/aie2_blob_preprocessor_input.cpp:178-248 | The symbols of a tree are those of its patch locations, every one once, in the order of the buffers, of their coalesced buffers and of the list; each has its buffer's argument number as name, its group's offset as addend and stands eight bytes up |
| `MetadataSites.FlatSymbols` | src/cpp/aiebu/src/preprocessor/aie2/aie2_blob_preprocessor_input.cpp:276-290 | Entry i of the flat list has a symbol with its own argument number, offset and buffer offset |
| `MetadataSites.TreeFault` | src/cpp/aiebu/src/preprocessor/aie2/aie2_blob_preprocessor_input.cpp:151-248 | A tree is accepted exactly when every group of locations is valid, and else refused with the fault of the first that is not: its place in the buffer, then its addend, then its first location outside |
| `MetadataSites.FlatFault` | src/cpp/aiebu/src/preprocessor/aie2/aie2_blob_preprocessor_input.cpp:276-290 | A flat list is accepted exactly when every entry is valid, and else refused for its first bad one, location before addend |
| `MetadataSites.NamesMeaning` | src/cpp/aiebu/src/preprocessor/aie2/aie2_blob_preprocessor_input.cpp:236-270 | Which indexes have a name after a tree of either format, and which name |
| `Metadata.AcceptedBuffers` | src/cpp/aiebu/src/preprocessor/aie2/aie2_blob_preprocessor_input.cpp:151-221 | A tree is accepted exactly when every buffer's addends fit 32 bits and its offsets, locations and argument indexes are in range |
| `Metadata.AcceptedDmaPatches` | src/cpp/aiebu/src/preprocessor/aie2/aie2_blob_preprocessor_input.cpp:276-290 | A flat list is accepted exactly when every entry is in range |
| `Metadata.DmaNamesMeaning` | src/cpp/aiebu/src/preprocessor/aie2/aie2_blob_preprocessor_input.cpp:256-270 | The control packet's index is renamed whatever was there; other indexes keep an earlier name, and 0 to 4 default to their argument number |
| `Metadata.FirstEntryDecides` | src/cpp/aiebu/src/preprocessor/aie2/aie2_blob_preprocessor_input.cpp:238-241 | The first buffer with an xrt id decides its name |
| `Metadata.LocationsValid` | src/cpp/aiebu/src/preprocessor/aie2/aie2_blob_preprocessor_input.cpp:153-176 | Every location of an accepted tree, of either format, is inside the control packet with an argument index of at most 24 |
| `Metadata.PositionInsidePacket` | src/cpp/aiebu/src/preprocessor/aie2/aie2_blob_preprocessor_input.cpp:214-219 | A symbol's eight header bytes lie in the packet exactly when its offset is at least 8; otherwise its position wraps |
| `SetupMeaning.DescribedMeaning` | src/cpp/aiebu/src/preprocessor/aie2/aie2_blob_preprocessor_input.h:81-97 | Before the control code is walked: refusal exactly for an invalid tree; else the section table key by key (code, packet, the last PM packet of each id, all else as before), the PM ids in order, the names the walk will use and the tree's symbols |
| `SetupMeaning.GatheredMeaning` | src/cpp/aiebu/src/preprocessor/aie2/aie2_blob_preprocessor_input.h:99-115 | Then the control code walked with those names and ids, and for every library "preempt" both streams for the header's number of columns: their patched bytes once, their symbols each time, or the first missing file or bad stream |
| `SetupMeaning.ResizesMeaning` | src/cpp/aiebu/src/preprocessor/aie2/aie2_blob_preprocessor_input.h:134-167 | Finally each symbol of a preemption section gets the least size that covers all transfers of its section, and no other symbol or field changes |
| `PacketSection.PlacedExact` | src/cpp/aiebu/src/preprocessor/aie2/aie2_blob_preprocessor_input.cpp:213-219 | Once the setup has accepted its inputs, every symbol's section exists with bytes exactly when the metadata names no location or the packet is not empty |
| `PacketSection.EmptyPacketAccepted` | src/cpp/aiebu/src/preprocessor/aie2/aie2_blob_preprocessor_input.cpp:153-219 | Concrete inputs, a tree and a control code without ops, that the whole setup accepts with a symbol at a wrapped position in a section that validating the tree has entered empty |
| `Scratchpad.MaxExtentIsMaximum` | src/cpp/aiebu/src/preprocessor/aie2/aie2_blob_preprocessor_input.h:136-146 | The loop's value bounds every size + addend of the section and is attained |
| `Scratchpad.ResizedCovers` | src/cpp/aiebu/src/preprocessor/aie2/aie2_blob_preprocessor_input.h:143-153 | With 32-bit fields nothing wraps and every transfer's bytes lie inside the new size |
| `Scratchpad.ResizesCommute` | src/cpp/aiebu/src/preprocessor/aie2/aie2_blob_preprocessor_input.h:165-166 | Resizing save and restore in either order gives the same symbols |
| `Scratchpad.ResizeTwice` | src/cpp/aiebu/src/preprocessor/aie2/aie2_blob_preprocessor_input.h:134-155 | A second resize changes nothing exactly when every addend of the section is 0 |
| `Scratchpad.MaskSurvivesResize` | src/cpp/aiebu/src/preprocessor/aie2/aie2_blob_preprocessor_input.h:148-154 | A masked patch keeps its mask exactly when its addend is 0 and no symbol of its section has a size + addend above the mask |
| `PreemptStream.MaskLost` | src/cpp/aiebu/src/preprocessor/aie2/aie2_blob_preprocessor_input.h:148-154 | A concrete save stream, in either encoding, accepted and patched in place, whose masked patch loses its mask to the resize |
| `Pipeline.StreamIsMachine` | src/cpp/aiebu/src/preprocessor/aie2/aie2_blob_preprocessor_input.h:99-108 | A section that can be patched in place adds to the store exactly what the machine computes on its ops |
| `Pipeline.EmittedSound` | src/cpp/aiebu/src/preprocessor/aie2/aie2_blob_preprocessor_input.cpp:616-694 | On any buffer at all, a walk's symbols have 32-bit fields, its section, and names without underscores |
| `Pipeline.MetadataNamesClean` | src/cpp/aiebu/src/preprocessor/aie2/aie2_blob_preprocessor_input.cpp:238-270 | So have the names the metadata gives, in either format |
| `Pipeline.GatheredSound` | src/cpp/aiebu/src/preprocessor/aie2/aie2_blob_preprocessor_input.h:74-114 | And so has every symbol of the whole list that the setup gathers, each in a section of the table |
| `Pipeline.ResizeCovers` | src/cpp/aiebu/src/preprocessor/aie2/aie2_blob_preprocessor_input.h:157-167 | In the final list every symbol of a preemption section covers its own transfer and is otherwise as gathered |
| `Pipeline.StoreReachesTables` | src/cpp/aiebu/src/elf/elfwriter.cpp:182-237 | For any iteration order of the sections all final symbols reach the tables when the first section in that order has bytes and none does when it is empty, the writer finds the section of each entry, and its sections are those of the table |
| `Pipeline.Assemble` | src/cpp/aiebu/src/assembler/assembler.cpp:39-53 | The whole assembler: the file has one section for each key of the final table with bytes, with those very bytes, in the order of the keys, and .ctrltext alone is text; all final symbols are written or, when the first section of its iteration order is empty, none; relocation i is that of symbol i and leads to an entry with that symbol's own name, size and section |
| `Elf.Encode` | src/cpp/aiebu/src/encoder/aie2/aie2_blob_encoder.h:19-34 | One writer a section in the order of the keys, text for the control code only, all symbols on the first |
| `Elf.SectionsCarryTable` | src/cpp/aiebu/src/elf/elfwriter.cpp:184-211 | The sections of an encoded table are its entries with bytes, each once, unchanged and in order, and only .ctrltext is text |
| `Elf.FirstSectionDecides` | src/cpp/aiebu/src/elf/elfwriter.cpp:184-218 | All symbols are kept, in order, when the first section has data, and all are lost when it is empty |
| `Elf.NoSymbolLost` | src/cpp/aiebu/src/elf/elfwriter.cpp:184-218 | Symbols survive every iteration order exactly when no section is empty |
| `Elf.ElfWriter.AddTextDataSections` | src/cpp/aiebu/src/elf/elfwriter.cpp:182-220 | Sections and symbols of the writers with data, in order |
| `Elf.ElfWriter.AddDynsymSection` | src/cpp/aiebu/src/elf/elfwriter.cpp:62-94 | The table has one entry for each distinct joined key, after the undefined symbol; each symbol's index leads to the entry of the first symbol with its key, and symbols with one key share one index |
| `Elf.ElfWriter.AddReldynSection` | src/cpp/aiebu/src/elf/elfwriter.cpp:96-116 | Relocation i carries symbol i's position, index, schema and addend |
| `Elf.ElfWriter.Process` | src/cpp/aiebu/src/elf/elfwriter.cpp:222-235 | After the whole writer each relocation leads to the entry of the first symbol with its key |
| `Elf.OwnEntryExact` | src/cpp/aiebu/src/elf/elfwriter.cpp:79-92 | Every symbol uses an entry with its own section, name and size exactly when no two keys collide |
| `Elf.InternedIsDistinct` | src/cpp/aiebu/src/elf/elfwriter.cpp:79-92 | Without collisions the entries are the distinct triples, in order of first occurrence |
| `Elf.CleanNamesCannotCollide` | src/cpp/aiebu/src/elf/elfwriter.cpp:80-81 | Names without underscores do not collide |
| `Elf.DistinctIsExact` | src/cpp/aiebu/src/elf/elfwriter.cpp:79-92 | The distinct triples are pairwise different and are exactly those of the symbols |
| `Elf.DistinctCount` | src/cpp/aiebu/src/elf/elfwriter.cpp:79-92 | Their number is that of the set of triples |
| `Elf.KeyInjective` | src/cpp/aiebu/src/elf/elfwriter.cpp:80-81 | The joined key is injective when names have no underscore, though section names may |
| `Elf.UnderscoreCollides` | src/cpp/aiebu/src/elf/elfwriter.cpp:80-81 | Two different symbols with one key when a name has an underscore |
| `Preemption.GenerateTran` | lib/src/gen-preemption.cpp:456-522 | The column-by-channel loops make transfer 2 * col + chan in turn, or nothing for a bad column range |
| `Preemption.MemTileSaveContext` | lib/src/gen-preemption.cpp:61-131 | The save address arithmetic is that of transfer 2 * col + chan |
| `Preemption.MemTileRestoreContext` | lib/src/gen-preemption.cpp:165-238 | The restore address arithmetic is the same with source and destination exchanged |
| `Preemption.PatchInOwnColumn` | lib/src/gen-preemption.cpp:128-237 | A transfer's patch names the address word of shim BD 0 or 1 of the transfer's own column and the kernel argument of its direction; different transfers have different registers |
| `Preemption.TilesMoved` | lib/src/gen-preemption.cpp:70-74 | Address a of a column's tile memory moves to or from byte a - 512K of the column's own 512K of scratch, and nothing else moves |
| `Preemption.TransfersTile` | lib/src/gen-preemption.cpp:70-74 | The transfers' scratch intervals are disjoint and tile [0, ncol * 512K) exactly |
| `Preemption.SaveThenRestore` | lib/src/gen-preemption.cpp:506-522 | Whatever happens to the tiles in between, restoring what was saved returns every byte of every tile |
| `Preemption.SaveKeepsTiles` | lib/src/gen-preemption.cpp:70-74 | Saving changes no tile and nothing of the scratch buffer past the columns |
| `PreemptStream.StreamAccepted` | src/cpp/aiebu/src/preprocessor/aie2/aie2_blob_preprocessor_input.cpp:474-587 | Every save or restore stream is accepted in either encoding with one shim symbol a transfer, and clears exactly the transfers' BDs |
| `PreemptStream.GeneratedStreamProcessed` | src/cpp/aiebu/src/preprocessor/aie2/aie2_blob_preprocessor_input.cpp:353-587 | A buffer that carries one can be patched in place, is walked inside its bounds and accepted, and comes out with exactly those BDs cleared and those symbols |
| `PreemptStream.GeneratedStreamEndToEnd` | src/cpp/aiebu/src/preprocessor/aie2/aie2_blob_preprocessor_input.h:101-166 | Both generated files through the argument setup: everything gathered before is kept, the 4 * ncol symbols all have ncol * 512K bytes with their transfers inside, and the symbols of a stream share one symbol index |

## Left out

- TransactionPreprocessor.AieBlobTransactionInput.BlockWriteOp: this branch and `DdrPatchOp` are methods that both walkers call; the program has them inline in each.
- TransactionPreprocessor.AieBlobTransactionInput.SetArgs: a vector of the section table is copied into an array, walked there and put back, since the table holds values; the state of an object whose setup was refused is not described. The search for a library file along the paths is a map from names to contents.
- TransactionPreprocessor.AieBlobTransactionInput.ReadMetaJson: starts from a parsed tree whose required keys are present; the JSON reader and its errors are left out.
- Analyzer.Transaction.CountTxn: requires every visited opcode to be below the number of counters, which the program indexes without a check; the same for `CountTxnOpt` and `CountTxnOps`.
- Analyzer.Transaction.StringifyTxn: a line is the numbers it shows; the text around them, and the fields of the poll and preempt lines, are not modelled.
- Dpu.AieBlobDpuInput.ExtractSymbolFromBuffer: requires that decoding does not reach a DUMP_REGISTER that is the buffer's last word, where the program reads past the end.
- Elf.ElfWriter.AddDynsymSection: requires the section of every entry to exist, since the program dereferences what it finds; `Pipeline.StoreReachesTables` and `PacketSection.PlacedExact` say when it does. The container is sequences of sections, entries and relocations.
- Preemption.MemTileSaveContext: only the address and register arithmetic; the driver calls around it, whose source is not shown, are the free ops of a `PreemptStream.Segment`. The same for `MemTileRestoreContext`.
- ELF byte serialisation, segments, the dynamic section and the UID: foreign code.
- Error texts: an error is its kind and its number.
- The two Col0_PHX functions and the copy generator: straight-line driver calls that no modelled loop uses.
- Command line, C API, printing and the element-wise copy of sections between stages: plumbing that would only add easy members.
- Run-time patching of the relocations: not in this repository.
