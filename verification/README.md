# ebpfkit, modelled and proved in Dafny

ebpfkit compiles byte patterns into eBPF programs without an external
toolchain, and reads the kernel's BPF ring buffer. This project models the two
and proves what they are for:

* **The filter compilers.** `Machine` is an executable semantics of the emitted
  instructions after RFC 9669: strict decoding of the opcode bytes and register
  nibbles as numbers, naming no assembler constant (section 3.1), 64-bit arithmetic
  with wrap-around and sign-extended immediates (section 4.1), jumps relative to
  the next instruction and unsigned comparison (section 4.3), zero-extending
  loads (section 5.1). Memory is a partial map, so a load of any other address
  faults, and the state remembers whether an addition ever lost its carry. Each
  compiler is a method that pushes, notes indices and patches in place as the
  source does; it is proved to produce a closed-form program, and that program,
  run on the machine, is proved to compute the declarative answer.
* **The character-class front end.** Escapes, tokens and the greedy range reader
  are proved against a local criterion for when a `-` is an operator, and
  composed with the code generator into one theorem about class text and R7. What
  each escape accepts is stated in numbers, and the texts refused as non-ASCII are
  exactly the encodings of lists of scalar values with one outside ASCII.
* **The ring-buffer consumer.** A step system interleaves the consumer's atomic
  steps with a producer that reserves, writes, commits and discards. An invariant
  over all interleavings gives in-order, exactly-once delivery across polls. The
  consumer's code is a class method run against an arbitrary schedule and proved
  to be a run of that system. With arbitrary bytes in the ring, it steps only over
  records whose header has bit 30 set or whose data it has handed out.
* **The listing.** A strict reader, written from the notation, recovers every
  instruction from its line; carrying out the statements it reads, with `<` meaning
  less and `goto +T` meaning T lines on, is running the program.

| file | content |
|---|---|
| `Assembler.dfy`, `Emit.dfy`, `Limits.dfy` | instructions, patching, limits and estimates |
| `Machine.dfy`, `Targets.dfy` | the machine; control flow of the emitted programs |
| `Literal.dfy` | literal search |
| `Alternation.dfy`, `AlternationCompiler.dfy`, `Matchers.dfy` | alternation, and how the two matchers relate |
| `CharClass.dfy`, `Utf8.dfy`, `ClassSyntax.dfy`, `CharacterClass.dfy` | character classes: code, the UTF-8 test, syntax, end to end |
| `Bits.dfy`, `RingGeometry.dfy` | masks; record lengths, headers, the double mapping |
| `RingProtocol.dfy`, `RingGuarantees.dfy`, `RingConsumer.dfy` | the step system and its invariant; guarantees; the code |
| `Listing.dfy`, `ListingReader.dfy`, `ListingMeaning.dfy` | the program listing; a reader and what its statements do; that they agree |

Where code and comments of the source differ, the model follows the code:

* `compile_char_class` tests R7 (src/compiler/codegen.rs:277-279); its comment
  about R5 pointing to a byte (src/compiler/codegen.rs:244) describes no load.
* For a pattern of more than 2041 bytes `compile_literal_search` reports the
  instruction count and 4096, not the pattern length and 1024
  (src/compiler/codegen.rs:19-25).

Some properties one might expect are false of the code. The alternation
program can answer wrongly where R5 plus an alternative's length passes 2^64, or
where R5 > R3 and an alternative is empty: `Matchers.WrongAnswers` gives the
inputs and `Matchers.RightIffSafe` the exact condition, one that a caller can
check. `create_ringbuf` accepts rings of 1 and 2 bytes, for which a header would
not fit into the two mapped copies: `RingGeometry.HeaderInside` gives the exact
bound. A class of up to 1023 bytes that parses also compiles, but not every one
of 1024 bytes does: `CharacterClass.BoundIsTight`. A listed jump with offset
0x7FFF shows a wrapped displacement (`ListingMeaning.TakenJump`), and a listed
instruction does not show fields its kind leaves unused
(`ListingMeaning.AssembleBack`); neither occurs in compiler output.

## Model

| member | source | states |
|---|---|---|
| `Assembler.RegisterPacking` | src/assembler.rs:28-43 | packing two register numbers into one byte loses neither exactly when both fit four bits |
| `Machine.ReadWord` | src/compiler/codegen.rs:35-37 | byte i of a loaded word, the least significant first, is the byte at address a + i modulo 2^64; the word is below 2^32 |
| `Machine.HaltIsFinal` | tests/unit/compiler.rs:618-654 | execution is deterministic: before its last step a run is still going, from then on its outcome is that one exit |
| `Machine.AnswerIsUnique` | tests/unit/compiler.rs:618-654 | a program started on given registers and memory has at most one answer in R0 |
| `Emit.AsI16` | src/compiler/emit.rs:4-6 | the cast to i16 is congruent modulo 2^16, and exact on the 16-bit range and only there |
| `Emit.Program.PatchMatchJump` | src/compiler/emit.rs:8-10 | replaces one slot and nothing else; the new jump lands on its target exactly when the distance fits 16 bits |
| `Emit.Program.PatchRegJump` | src/compiler/emit.rs:12-21 | the same for a register comparison |
| `Emit.Program.PatchImmJump` | src/compiler/emit.rs:23-32 | the same for an immediate comparison |
| `Literal.CompileLiteralSearch` | src/compiler/codegen.rs:18-113 | succeeds exactly up to 1024 bytes, with the exact error otherwise; the result is the closed-form program and, on every packet, searches for the pattern: it halts in budget, with R0 telling occurrence, R4 the leftmost one, no wrap and no load outside context and packet |
| `Literal.LiteralProgramSearches` | src/compiler/codegen.rs:28-112 | the closed-form program searches for its pattern on every memory and register file with a packet context |
| `Literal.LiteralRun` | src/compiler/codegen.rs:34-98 | the run for a non-empty pattern: exactly 10 steps if the packet is shorter than the pattern, else at most 10 + (m-n+1)(2n+7); leftmost occurrence; no carry lost |
| `Literal.Loop` | src/compiler/codegen.rs:50-98 | the emitted backward loop terminates, measured by the candidates left, at the first match from R4 on |
| `Literal.Iteration` | src/compiler/codegen.rs:53-93 | one candidate: the bounds jump guards all n bytes, then the comparison exits with 1 or returns to the loop head with R4 + 1, in at most 2n+7 steps |
| `Literal.Compare` | src/compiler/codegen.rs:67-78 | the unrolled comparison changes only R7 and leaves by the match or the mismatch exit according to the bytes |
| `Literal.EmptyPatternRun` | src/compiler/codegen.rs:39-43 | the empty pattern answers 1 in four steps |
| `Literal.LiteralProgram` | src/compiler/verify.rs:177-185 | the emitted length is the estimate: 4, or 14 + 2n |
| `Literal.EmitComparisons` | src/compiler/codegen.rs:67-78 | emission leaves placeholders at the noted indices and final instructions everywhere else |
| `Literal.PatchComparisons` | src/compiler/codegen.rs:105-112 | after patching no placeholder survives: the program is the closed form |
| `AlternationCompiler.CompileAlternation` | src/compiler/codegen.rs:159-233 | fails exactly when the estimate exceeds 4096; otherwise has the estimated length, is the closed-form program, and answers correctly on all registers and memories |
| `AlternationCompiler.EmitBlock` | src/compiler/codegen.rs:179-197 | appends one block with zero offsets and returns the indices of its jumps |
| `AlternationCompiler.EmitBlocks` | src/compiler/codegen.rs:176-198 | the unpatched blocks in order, with the start and jump indices of each |
| `AlternationCompiler.PatchMismatches` | src/compiler/codegen.rs:208-218 | sets exactly the mismatch offsets, each to the next block or the failure exit |
| `AlternationCompiler.PatchBounds` | src/compiler/codegen.rs:220-226 | sets exactly the bounds offsets, each to the next block or the failure exit |
| `AlternationCompiler.PatchMatches` | src/compiler/codegen.rs:228-232 | sets exactly the match offsets to the success exit, which completes the closed form |
| `Alternation.CompiledAlternates` | src/compiler/codegen.rs:160-232 | every list within the limit, shortcuts included: estimated length, and within its own length of steps R0 tells whether some alternative hits under 64-bit addressing |
| `Alternation.AltProgramAlternates` | src/compiler/codegen.rs:170-232 | the same for the block program |
| `Alternation.BlocksRun` | src/compiler/codegen.rs:176-206 | blocks are tried in order, each failing over to the next, within the remaining length |
| `Alternation.OneBlock` | src/compiler/codegen.rs:181-197 | one block leaves by its match jump exactly on a hit, keeps R3 and R5, and notes a lost carry exactly when R5 plus the length passes 2^64 |
| `Alternation.ShortcutAlternates` | src/compiler/codegen.rs:160-166 | the empty list never matches, a list with an empty alternative always does |
| `Alternation.CostIsStart` | src/compiler/verify.rs:205-219 | the summed estimate is the length of the blocks, for every suffix of the list |
| `Alternation.FlattenUpdate` | src/compiler/codegen.rs:208-230 | patching one slot of the flat program patches one slot of one block |
| `Matchers.AlternationCorrect` | src/compiler/codegen.rs:151-233 | without wrap, with only [R5, R3) readable: halts within its length, R0 = 1 exactly when some alternative stands at R5 and ends by R3, no carry lost, no other load |
| `Matchers.RightIffSafe` | src/compiler/codegen.rs:159-233 | for given R5 and R3 the answer is right on every memory if and only if no alternative wraps unnoticed (unless a fitting prefix of it is listed too) and R5 <= R3 when an alternative is empty |
| `Matchers.WrongAnswers` | src/compiler/codegen.rs:159-185 | concrete calls whose answer is wrong on some memory |
| `Matchers.MatchersAgree` | src/compiler/codegen.rs:18-233 | the search answers 1 on a packet exactly when the one-alternative matcher answers 1 at some offset of it |
| `Targets.LiteralWellTargeted` | src/compiler/codegen.rs:34-112 | every instruction is legal and every jump and fall-through lands on an instruction |
| `Targets.OneBackwardJump` | src/compiler/codegen.rs:91-93 | exactly one jump goes back, to the loop head |
| `Targets.AlternationWellTargeted` | src/compiler/codegen.rs:160-232 | every jump lands inside the program and goes forward |
| `Targets.ClassWellTargeted` | src/compiler/codegen.rs:268-298 | every jump lands inside the program and goes forward |
| `Targets.StaysInside` | src/compiler/mod.rs:23-38 | a run of a well-targeted program never leaves it |
| `Targets.ForwardHalts` | src/compiler/codegen.rs:200-298 | a well-targeted program with forward jumps only ends within its own length on every memory |
| `CharClass.CompileCharClass` | src/compiler/codegen.rs:250-299 | succeeds exactly for a non-empty list of ordered ranges within the cap, with the exact error otherwise; the program tells for every 64-bit R7 whether it is in some range, reading no memory, within its own length |
| `CharClass.ClassProgramClassifies` | src/compiler/codegen.rs:268-298 | the closed-form program classifies every R7 |
| `CharClass.RangesRun` | src/compiler/codegen.rs:273-291 | ranges are tried in order; each test falls to the next range's lower bound |
| `ClassSyntax.TokensFail` | src/compiler/verify.rs:51-90 | scanning fails exactly if some backslash after an even number of backslashes starts no known escape, and reports the first such |
| `ClassSyntax.TokensAreUnescaped` | src/compiler/verify.rs:141-155 | without a bad escape the token stream is one token for each unescaped position, in order, each read off that position alone |
| `ClassSyntax.BoundaryStep` | src/compiler/verify.rs:97-126 | the greedy scan takes a dash as operator exactly when it stands between two literals after an even number of literal-dash pairs |
| `ClassSyntax.RangesFail` | src/compiler/verify.rs:94-128 | the range reader fails exactly if two dashes are adjacent anywhere or an operator is reversed, and reports the first; the three-token skip hides neither |
| `ClassSyntax.RangesDenote` | src/compiler/verify.rs:92-128 | the ranges read cover exactly the spans of operators and the standalone tokens |
| `ClassSyntax.RangesSized` | src/compiler/verify.rs:94-128 | ranges are ordered, non-empty for non-empty input, and at most two per byte |
| `ClassSyntax.TokensToRanges` | src/compiler/verify.rs:94-128 | the loop reads the ranges of the token stream |
| `ClassSyntax.ParseCharacterClass` | src/compiler/verify.rs:130-158 | the loop parses the text; it fails on text not refused exactly at a bad escape or dash; ranges are ordered, at most two per byte, and cover exactly what the tokens denote |
| `Utf8.ValidIffEncoded` | src/compiler/verify.rs:134-137 | text passes the UTF-8 test exactly when it is the concatenated encoding (section 3 of RFC 3629) of some list of scalar values: 0 to 0x10FFFF without the surrogates |
| `Utf8.EncodingUnique` | src/compiler/verify.rs:134-137 | no text encodes two different lists |
| `ClassSyntax.RefusedIffEncodesWide` | src/compiler/verify.rs:131-139 | a text is refused exactly when it encodes a list of scalar values with one at or above 0x80 |
| `CharacterClass.CompileCharacterClass` | src/compiler/codegen.rs:135-149 | compiles exactly the parseable text within the cap, with the parser's or the cap's error; for every 64-bit R7 the program answers 1 exactly when R7 is in the class the text denotes; 1023 bytes or fewer never hit the cap |
| `CharacterClass.EscapedLiterals` | src/compiler/verify.rs:59-66 | a backslash and n, r, t is byte 0x0A, 0x0D, 0x09, and before a backslash, bracket, hyphen or dot it is that byte: the compiled class accepts it alone, and it may be the side of a range |
| `CharacterClass.EscapedSets` | src/compiler/verify.rs:67-77 | a backslash and d, s, w accepts exactly 0x30..0x39; 0x09..0x0D and 0x20; a-z, A-Z, 0-9 and underscore; none can be the side of a range |
| `CharacterClass.EscapedErrors` | src/compiler/verify.rs:51-87 | D, S, W are refused as negated, every byte not in the table as unknown, a final backslash as unterminated |
| `CharacterClass.PlainBytes` | src/compiler/verify.rs:141-155 | every other single byte accepts itself alone, a lone hyphen too |
| `CharacterClass.PlainSpan` | src/compiler/verify.rs:97-112 | byte, hyphen, byte accepts exactly the interval, or is refused as reversed |
| `CharacterClass.SpellingRoundTrip` | src/compiler/verify.rs:130-158 | every list of ordered ranges has an escaped spelling that parses back to exactly that list, unless the spelling is non-ASCII UTF-8 |
| `CharacterClass.AsciiRoundTrip` | src/compiler/verify.rs:130-158 | ordered ASCII ranges always round-trip and are never refused |
| `CharacterClass.RefusedSpelling` | src/compiler/verify.rs:134-139 | two raw bytes that form a character cannot be spelled this way |
| `CharacterClass.BoundIsTight` | src/compiler/verify.rs:72-77 | a 1024-byte class that parses and does not compile |
| `Bits.MaskPowerOfTwo` | src/loader/ringbuf.rs:183 | masking a position with ring_size - 1 is the remainder by a power-of-two ring size |
| `Bits.PowerOfTwoIff` | src/loader/ringbuf.rs:72 | the power-of-two check accepts exactly the numbers 2^k |
| `RingGeometry.RoundRecordLen` | src/loader/ringbuf.rs:247-255 | the least multiple of 8 that holds header and data, saturating at the largest one |
| `RingGeometry.RecordWithinMapping` | src/loader/ringbuf.rs:240-245 | true exactly when the slice ends within twice the ring size and that bound is itself representable |
| `RingGeometry.HeaderBits` | src/loader/ringbuf.rs:10-11 | the masks test bit 31 (0x8000_0000) and bit 30 (0x4000_0000) and keep the remainder by 2^30 |
| `RingGeometry.HeaderInside` | src/loader/ringbuf.rs:71-77 | for a power-of-two ring, all aligned headers lie within the two copies if and only if the ring has at least 4 bytes |
| `RingGeometry.MirrorSlice` | src/loader/ringbuf.rs:412-426 | a slice through the mirror is the run of ring positions modulo ring size, across the end too |
| `RingProtocol.ReadHeader` | src/loader/ringbuf.rs:183-185 | for any bytes and any aligned position the load stays within the copies and yields the header at that position |
| `RingProtocol.ReadPayload` | src/loader/ringbuf.rs:196-217 | a slice that passes the guard yields the bytes after the header, for any bytes |
| `RingProtocol.ConsumerKeepsInv` | src/loader/ringbuf.rs:175-231 | every consumer step keeps the invariant |
| `RingProtocol.ProducerKeepsInv` | src/loader/ringbuf.rs:175-231 | every enabled producer step keeps it, also while a header is loaded or a callback runs |
| `RingProtocol.GuardAccepts` | src/loader/ringbuf.rs:196-216 | the bounds guard accepts every record of the protocol |
| `RingProtocol.RunKeepsInv` | src/loader/ringbuf.rs:175-231 | every interleaving keeps the invariant |
| `RingGuarantees.DeliveryInOrder` | src/loader/ringbuf.rs:175-231 | in every interleaving, across any number of polls: delivered payloads are exactly the committed ones among the handled records, in reservation order, each once; the published position is a record boundary not past the producer |
| `RingGuarantees.RunGrows` | src/loader/ringbuf.rs:175-231 | over a run, deliveries, published positions and settled records only grow |
| `RingGuarantees.SliceStable` | src/loader/ringbuf.rs:196-225 | while a callback runs its slice keeps its bytes, because the published position is still the record's start |
| `RingGuarantees.GuardNeverRejects` | src/loader/ringbuf.rs:197-216 | in no interleaving does the bounds guard stop a poll |
| `RingGuarantees.LoadSeesStatus` | src/loader/ringbuf.rs:185-191 | the loaded header is busy exactly when the next record is busy at that moment |
| `RingGuarantees.PollEnds` | src/loader/ringbuf.rs:186-191 | the last step of a poll either saw a busy header or had handled all records below the last producer position it loaded |
| `RingGuarantees.PollMissesNothing` | src/loader/ringbuf.rs:178-231 | a whole poll in any interleaving stops before a record that was busy meanwhile, or has handled everything reserved when it began |
| `RingGuarantees.QuietPollDrains` | src/loader/ringbuf.rs:178-231 | with a quiet producer a poll ends within 3 * records + 7 steps, having delivered exactly the committed payloads up to the first busy record |
| `RingGuarantees.OneRecordArrives` | src/loader/ringbuf.rs:175-231 | from every empty ring, reserving and committing any record that fits and then polling is a legal run that delivers exactly one payload of that length |
| `RingGuarantees.AnyRun` | src/loader/ringbuf.rs:175-255 | with arbitrary bytes, headers and producer positions: slices in use stay within the copies and published positions never go back |
| `RingGuarantees.HeaderDecides` | src/loader/ringbuf.rs:186-217 | in every state, what a loaded header decides, in numbers: bit 31 ends the poll, bit 30 steps over the record, data that would pass twice the ring size ends the poll with nothing published, else exactly those bytes are handed out |
| `RingGuarantees.LoopDecides` | src/loader/ringbuf.rs:182-185 | below the limit the loop loads the four header bytes at the position, otherwise it leaves, polling again exactly if it handled a record |
| `RingGuarantees.CallbackReturns` | src/loader/ringbuf.rs:217-225 | only after the callback is the record stepped over, by header and data rounded up to 8 |
| `RingGuarantees.AdvancesRightly` | src/loader/ringbuf.rs:175-231 | over every run, corrupted bytes and positions included: the published position moves only over a record whose loaded header has bit 30 set, or whose data was handed out before as the last delivery |
| `RingGuarantees.RejectedStops` | src/loader/ringbuf.rs:205-216 | over every run: a record whose data would leave the copies ends the poll and changes neither position, deliveries nor count |
| `RingGuarantees.QuietReturns` | src/loader/ringbuf.rs:178-231 | with arbitrary bytes but a fixed producer position the consumer returns |
| `RingConsumer.RingbufConsumer.ConsumeRingRecords` | src/loader/ringbuf.rs:175-231 | one whole poll against any schedule returns, is a run of the step system with exactly one poll in it, and with an obedient producer delivers in order, exactly once, and misses nothing |
| `RingConsumer.RingbufConsumer.ConsumeRecord` | src/loader/ringbuf.rs:182-225 | one round of the inner loop is two or three consumer steps of the system, interleaved with the producer |
| `ListingMeaning.DisplayReads` | src/assembler.rs:46-121 | for every instruction, legal or not: the strict reader takes its text apart into the statement of its opcode byte, with its registers, size or operator word, signed numbers and displacement |
| `ListingMeaning.ListingReads` | src/assembler.rs:136-146 | the listing of every program, the empty one too, reads as one statement per instruction, in order, each line under its own number padded to four digits |
| `ListingMeaning.AssembleBack` | src/assembler.rs:46-121 | the statement assembles to exactly the instruction if and only if the fields the text does not show are zero |
| `ListingMeaning.ListingAssembles` | src/assembler.rs:136-146 | the same for every line of a listing |
| `ListingMeaning.ListingInjective` | src/assembler.rs:136-146 | programs without hidden fields that have equal listings are equal |
| `ListingMeaning.SayRuns` | src/assembler.rs:46-108 | carrying out the words does what the machine does: loads of one or four bytes, `=` and `+=` modulo 2^64, unsigned `==`, `!=`, `<`, `<=`, `>`, and a jump to the line that many lines on |
| `ListingMeaning.TakenJump` | src/assembler.rs:78-108 | a taken jump goes where its line says if and only if its offset is not 0x7FFF |
| `ListingMeaning.StatementsRun` | src/assembler.rs:136-146 | for every legal program without that offset, any number of statements from any state has the machine's outcome |
| `ListingMeaning.EmittedListing` | src/assembler.rs:136-146 | the listing of any compiler output reads back to exactly that program, and carrying it out is running it, from all registers, on all memories, for all numbers of steps |

## Left out

- Loading and attaching (`load_filter`, `attach_to_socket`, `attach_kernel_page_discard`): system calls, and the kernel's own verifier.
- Mapping, map information, page size, epoll and destructors of the ring buffer: foreign calls; only the geometry (ring size, mask, two copies) is kept.
- The kernel's producer: an environment with the steps Reserve, Write, Commit and Discard, which may use no byte from the published consumer position on; not code under proof.
- Weak memory: atomic loads and stores are sequentially consistent steps.
- Positions at the very top of 64 bits: the producer position stays at or below 2^64 - 2^31, so that a position plus a record length is still a 64-bit number.
- Word loads are little-endian only.
- The usize arithmetic of the estimates: lengths are unbounded naturals.
- Opcodes the listing has no notation for (calls, stores, 32-bit arithmetic) are illegal on the machine.
- The listing of a jump with offset 0x7FFF adds in 16 bits, as a release build does; a debug build panics there.
- src/loader/core_detect.rs: file probing and a small version parser, which would only add easy members.
- Error message texts and diagnostics; reasons are an enumeration.
