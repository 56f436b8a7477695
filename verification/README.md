# Lightning Jolt: models and proofs

A Dafny 4.11 project that models the parts of the Lightning Jolt repository where a small slip would go
unnoticed, and proves what each part is for.

| files | what they model |
|---|---|
| `Prelude`, `Bits` | shared types, bitwise operations and powers of two |
| `Zr`, `DoryProtocol`, `DoryCircuit`, `DoryCompleteness` | Dory-Reduce (ePrint 2020/1274, section 3): prover, exporter, witness loader and wrapper circuit, for any number of rounds |
| `Limbs`, `Montgomery`, `Montgomery32`, `FieldSum` | BN254 Montgomery multiplication in 64-bit and 32-bit words, and the reduction of partial sums |
| `AbelianGroup`, `Pippenger`, `Scatter`, `MetalMsm` | the bucket method for multi-scalar multiplication in any commutative group |
| `MleArena`, `Cse`, `Notation`, `Printers` | the polynomial arena, common subexpression elimination, and the two Lean printers with a reader |
| `Emulator`, `Tracer` | lazy tracing and replayable checkpoints over an abstract deterministic processor |
| `Words`, `Shifts`, `VirtualSequences` | RISC-V virtual instructions and inline sequences at every power-of-two width |
| `Merkle`, `Persistia` | the state-transition guest, its Merkle root, and the host that computes the root to prove |
| `AdviceTape`, `GuestHeap`, `JoltDevice` | the guest runtime: advice tape, C allocation, I/O regions and the I/O device |

`dafny verify dfyconfig.toml` checks everything.

Group elements of G1, G2 and GT are represented by their exponents: any integers, equal when congruent
modulo the group order r; the pairing multiplies exponents. Hash functions, the tick of the processor, the
library's hasher and the operators of a polynomial expression are parameters, so each theorem holds for all of
them. A panic of the host is a value (`Panic`, `None`, `HostPanic`, a false `ok`), except where a row says
what the caller must ensure.

Where the code and its documentation differ, the code is modelled:

- `trace_checkpoints` yields T / n + 1 checkpoints for a trace of T cycles; the test beside it expects the
  rounded-up quotient (tracer/src/lib.rs:906). The two agree exactly when n does not divide T
  (`Tracer.CountIsCeilingIffRagged`). The example in the comment of `trace` says that a checkpoint replays
  everything from its start on (tracer/src/lib.rs:61-69); the code replays one chunk.
- The root that `prove_block` checks binds the written pairs of blocks with equal numbers of writes, unless texts
  collide (`Merkle.SameCountBinds`). For different numbers it need not, without any collision: two roots are equal
  exactly for equal writes, or where one block goes on after the other and hides its end
  (`Merkle.RootsEqualIff`). An end is hidden by leaves that hash to the all-zero padding digest in the place of
  padding, or, after a block without writes, by a topmost text that does; `Merkle.PaddingLeafInvisible` and
  `Merkle.ZeroDigestBreaksBinding` are such cases, for every hash function that has such a leaf.
- The host hashes pairs with empty values, the guest skips them. Their roots agree when there are none, for every
  hash (`Persistia.HostAgrees`), and, unless texts collide, only then or where the empty ones come last and are
  hidden (`Persistia.HostAgreesOrHides`).
- Sub-formulae are said to be shared as top-level definitions (zklean-extractor/src/mle_ast.rs:407). They are not:
  a node that is deep enough for a definition refers to an id inserted for it a moment ago, so no lookup ever finds
  an earlier one. The pass leaves what the same pass without its table leaves, one definition for each cut point of
  the unfolded tree (`Cse.NothingShared`), and a subterm that occurs twice is defined twice
  (`Cse.RepeatedDefinedTwice`).
- `sys_alloc` does not check for the end of the address space. A new block keeps the heap in order if and only if
  it fits below the last address (`GuestHeap.AllocationSound`). Without room the request gets null, or
  the block of one of the next three requests begins inside it (`GuestHeap.WithoutRoomBlocksMeet`); four requests
  are enough from a fresh heap (`GuestHeap.FourRequests`).
- `cpu_field_sum` subtracts the modulus once for each element. The running sum is right after every element exactly
  if each element and the reduced sum before it stay below twice the modulus (`FieldSum.EveryPrefixRightIff`). A
  later element can repair a wrong sum: a single element of twice the modulus comes out as the modulus, and a zero
  after it makes the sum right again (`FieldSum.TwiceModulusWrong`). The result itself is right exactly if it is
  below the modulus and the number of carries dropped at 2^256 is a multiple of the modulus
  (`FieldSum.FoldedIsSumIff`).

## Model

| member | source | states |
|---|---|---|
| `DoryProtocol.RoundKeepsMeaning` | third-party/dory-pcs/src/reduce_and_fold.rs:1084-1200 | one Dory-Reduce round with invertible challenges keeps C, D1, D2, E1 and E2 equal to the inner products of the folded vectors |
| `DoryProtocol.ChiIsDot` | third-party/dory-pcs/src/setup.rs:306-322 | the incrementally filled chi table holds the full inner products of the generators |
| `DoryProtocol.RoundC` | onchain-verifier/circuit/dory_verifier.go:130-135 | the C update yields the inner product of the two folded vectors |
| `DoryProtocol.DStep` | onchain-verifier/circuit/dory_verifier.go:137-145 | D1 and D2 assembled from message halves and setup tables are exactly the folded vectors against the next generators |
| `DoryCircuit.ScaleRounds` | onchain-verifier/circuit/witness_loader.go:232-295 | the loader's loop fills in every exponentiation result and the running E1 point, or stops at a challenge without inverse |
| `DoryCircuit.FoldScalars` | onchain-verifier/circuit/witness_loader.go:310-335 | the natively reduced loop returns the product of all folding factors modulo r |
| `DoryCircuit.AssignWitness` | onchain-verifier/circuit/witness_loader.go:204-345 | the loader rejects exactly the wrong round count, panics exactly on a list that is too short or a challenge without inverse, and otherwise completes the assignment from the front of its lists |
| `DoryCircuit.Witness.FrontIsFirst` | onchain-verifier/circuit/witness_loader.go:204-345 | the entries the loader looks at are the first ones of every list |
| `DoryCircuit.Define` | onchain-verifier/circuit/dory_verifier.go:101-195 | the circuit's loop and final section accept exactly the assignments that satisfy the checkpoint equations, the scalar product and the four-pairing equation |
| `DoryCircuit.ChecksDetermined` | onchain-verifier/circuit/dory_verifier.go:126-167 | with other checkpoints or another public product an accepted assignment is accepted exactly if these are congruent to the old ones, every entry |
| `DoryCircuit.FinalSumDetermined` | onchain-verifier/circuit/dory_verifier.go:169-195 | with other values on the right of the pairing equation an accepted assignment is accepted exactly if their sums are congruent |
| `DoryCircuit.ZeroChallengeRejected` | onchain-verifier/circuit/dory_verifier.go:126-172 | a challenge congruent to zero is rejected |
| `DoryCompleteness.AccumulatorsMean` | onchain-verifier/circuit/dory_verifier.go:125-151 | after any number of rounds of an honest run all five accumulators are inner products |
| `DoryCompleteness.CheckpointHolds` | onchain-verifier/circuit/dory_verifier.go:147-150 | every checkpoint assertion holds for an exported and loaded honest witness |
| `DoryCompleteness.TensorFold` | third-party/dory-pcs/src/primitives/poly.rs:111-156 | folding a Lagrange basis from its top coordinate multiplies it by one factor |
| `DoryCompleteness.EvaluationAtVertex` | third-party/dory-pcs/src/primitives/poly.rs:111-156 | the opened polynomial takes the matrix entries as its values at the vertices of the cube |
| `DoryCompleteness.ScalarsFold` | onchain-verifier/circuit/dory_verifier.go:153-162 | for every n the product of the folding factors is the round-by-round fold of the 2^n basis vector |
| `DoryCompleteness.LoaderTracksE1` | third-party/dory-pcs/examples/export_witness.rs:248-252 | the loader's E1 accumulation is the exporter's |
| `DoryCompleteness.StartMeans` | third-party/dory-pcs/src/evaluation_proof.rs:131-171 | the VMV message, the commitment and the evaluation are the inner products of the starting vectors |
| `DoryCompleteness.FinalPairingHolds` | onchain-verifier/circuit/dory_verifier.go:169-195 | the four-pairing equation holds for an honest run, its G2 composites exported and its exponents loaded |
| `DoryCompleteness.HonestOpeningAccepted` | onchain-verifier/circuit/dory_verifier.go:101-195 | for every square coefficient matrix, point, generators and invertible challenges the exported and loaded opening satisfies every modelled constraint |
| `DoryCompleteness.ProveLoadAndCheck` | onchain-verifier/circuit/witness_loader.go:204-345 | prover, exporter, loader and circuit in a row accept an opening exactly if every challenge has an inverse |
| `Montgomery.Wide` | lightningjolt/src/aarch64_mont.rs:367-373 | a product plus two words fits 128 bits and is split without loss |
| `Montgomery.Row` | lightningjolt/src/aarch64_mont.rs:356-375 | one CIOS row divides exactly by 2^64, its folded top carry fits one word, and the value stays below a + p |
| `Montgomery.SubtractModulus` | lightningjolt/src/aarch64_mont.rs:379-385 | the borrow tells whether the value was below p |
| `Montgomery.MontMul4` | lightningjolt/src/aarch64_mont.rs:353-391 | for reduced a and any b the result is below p and times 2^256 congruent to a times b |
| `Montgomery.MontgomeryProductUnique` | lightningjolt/src/aarch64_mont.rs:353-391 | there is only one such result |
| `Montgomery32.FromU64Limbs` | lightningjolt/src/metal_msm.rs:32-45 | splitting limbs keeps the number |
| `Montgomery32.ToU64Limbs` | lightningjolt/src/metal_msm.rs:48-55 | joining words by shift and or keeps the number |
| `Montgomery32.Schoolbook` | lightningjolt/src/metal_msm.rs:260-279 | sixteen words hold the exact product; the rippling carry never leaves word 15 |
| `Montgomery32.Reduce` | lightningjolt/src/metal_msm.rs:281-301 | the reduction adds a multiple of p that clears the low eight words and loses no carry |
| `Montgomery32.CpuMontMul32` | lightningjolt/src/metal_msm.rs:243-324 | for a, b below p the result is the Montgomery product |
| `Montgomery32.BothRoutines` | lightningjolt/src/metal_msm.rs:243-324 | the 32-bit and the 64-bit routine return the same limbs |
| `FieldSum.CpuFieldSum` | lightningjolt/src/metal_msm.rs:327-358 | any elements are folded with one conditional subtraction each; reduced elements give their sum modulo p |
| `FieldSum.FoldedRightIff` | lightningjolt/src/metal_msm.rs:338-355 | a right sum stays right exactly for an element with which it is below twice p |
| `FieldSum.EveryPrefixRightIff` | lightningjolt/src/metal_msm.rs:337-356 | the running sum is right after every element exactly if every step stays below twice p |
| `FieldSum.FoldedIsSumIff` | lightningjolt/src/metal_msm.rs:337-357 | for any elements the result is their sum modulo p exactly if it is below p and the number of dropped carries is a multiple of p |
| `FieldSum.TwiceModulusWrong` | lightningjolt/src/metal_msm.rs:338-355 | the element 2p alone gives p and not zero; a zero after it makes the sum right again |
| `Scatter.BucketAtIsDigit` | lightningjolt/shaders/bn254_msm.metal:293-323 | the scatter kernel extracts exactly the scalar's c bits at the window, also across words and at the end |
| `Pippenger.BucketOffsets` | lightningjolt/src/metal_msm.rs:813-828 | offset b is the number of entries with a bucket below b, for every b |
| `MetalMsm.AccumulateBuckets` | lightningjolt/shaders/bn254_msm.metal:327-343 | every bucket holds the sum of the points of its slice |
| `Pippenger.ReduceBuckets` | lightningjolt/src/metal_msm.rs:886-900 | the running-sum trick computes the sum of i times bucket i |
| `Pippenger.WeightedPermutes` | lightningjolt/src/metal_msm.rs:810-811 | sorting does not change the weighted sum |
| `Pippenger.SlicesAddUp` | lightningjolt/src/metal_msm.rs:876-879 | slice sums weighted by bucket are the weighted sum of all entries |
| `MetalMsm.ProcessWindow` | lightningjolt/src/metal_msm.rs:766-880 | one window's result is the multi-scalar multiplication by the window's digits |
| `MetalMsm.CombineWindows` | lightningjolt/src/metal_msm.rs:904-922 | the doubling loop is the Horner value of the window sums |
| `MetalMsm.HornerIsMsm` | lightningjolt/src/metal_msm.rs:902-922 | the Horner value over any windows is the product with the scalars' remaining bits |
| `MetalMsm.ComputeMsm` | lightningjolt/src/metal_msm.rs:698-763 | for all points of any commutative group and all 256-bit scalars the result is the sum of scalar times point |
| `MleArena.UnaryMeans` | zklean-extractor/src/mle_ast.rs:145-148 | a unary constructor's new root is worth the operator of the old root and keeps its scope |
| `MleArena.BinaryMeans` | zklean-extractor/src/mle_ast.rs:151-156 | the same for two operands |
| `MleArena.Frame` | zklean-extractor/src/mle_ast.rs:27-33 | growing the arena changes no node's value, depth or scope |
| `Cse.Pass.RegisterNode` | zklean-extractor/src/mle_ast.rs:265-285 | the table update does what the specification of registering says |
| `Cse.FindFirst` | zklean-extractor/src/mle_ast.rs:265-271 | the table gives the first entry for a node, and none only when there is none |
| `Cse.RegisteredAgain` | zklean-extractor/src/mle_ast.rs:265-285 | a node registered again gets the same answer and changes nothing |
| `Cse.RegisterSound` | zklean-extractor/src/mle_ast.rs:265-285 | registering keeps the tables in order and the node's meaning, whatever the hash, and leaves a node below the threshold |
| `Cse.Pass.Visit` | zklean-extractor/src/mle_ast.rs:287-318 | the recursive pass does what its specification says to arena, tables and result |
| `Cse.AuxNodeSound` | zklean-extractor/src/mle_ast.rs:287-327 | a pass keeps meaning, scope and depth, in any state it may start from |
| `Cse.CommonSubexpressionElimination` | zklean-extractor/src/mle_ast.rs:263-334 | a fresh pass leaves the arena, definitions and root of the specification |
| `Cse.EliminationPreservesMeaning` | zklean-extractor/src/mle_ast.rs:226-334 | evaluating the definitions in order and then the root gives the original value in every interpretation; definition i uses earlier ones only and has exactly the threshold depth, the root less; the arena only grows |
| `Cse.NothingShared` | zklean-extractor/src/mle_ast.rs:263-334 | whatever the hash, a pass leaves what a pass without a table leaves: a definition of its own for each cut point of the unfolded tree, all different |
| `Cse.DefinedIffDeep` | zklean-extractor/src/mle_ast.rs:263-334 | a pass makes a definition exactly if the tree is at least as deep as the threshold |
| `Cse.FourthOperatorDefined` | zklean-extractor/src/mle_ast.rs:261-285 | of four operators one inside the other the fourth makes a definition, the third does not |
| `Cse.RepeatedDefinedTwice` | zklean-extractor/src/mle_ast.rs:405-409 | an operator over a subterm and itself has at least twice the definitions of the subterm, so at least two where the subterm is as deep as the threshold |
| `Notation.ReadAfterPrint` | zklean-extractor/src/mle_ast.rs:336-387 | an expression printed with few parentheses and read with standard precedence has its value in every commutative ring |
| `ClaimPrinter.ClaimReadsBack` | zklean-extractor/src/sumchecks.rs:404-458 | every printed claim expression reads back to its value in every commutative ring |
| `MlePrinter.NodeReadsBack` | zklean-extractor/src/mle_ast.rs:336-387 | every printed node without quotient or inverse reads back to its value in every commutative ring |
| `MlePrinter.PrintedText` | zklean-extractor/src/mle_ast.rs:336-387 | a text with a shared sum: parentheses around it in a product and after a minus, and nowhere else |
| `MlePrinter.FormatForLean` | zklean-extractor/src/mle_ast.rs:410-442 | the texts printed while the arena grows are the texts of the definitions and of the root |
| `MlePrinter.ExtractionReadsBack` | zklean-extractor/src/mle_ast.rs:410-442 | a reader of all printed definitions in order and then the result arrives at the value of the original polynomial |
| `Emulator.TickFaithful` | tracer/src/emulator/memory.rs:42-63 | while recording, every record holds the value from the start of the chunk and all else is untouched |
| `Emulator.TickReplays` | tracer/src/emulator/memory.rs:42-63 | a tick runs the same on a memory that has just the doublewords it touches, without leaving the capacity |
| `Emulator.TickLog` | tracer/src/emulator/memory.rs:42-63 | a tick as a log of accesses: each reads what was written last or the value from the start, at the end every doubleword holds what was written last, and the first access past the capacity panics |
| `Tracer.StepHandsOut` | tracer/src/lib.rs:630-654 | a live step hands out the next cycle of the run or finds there is none |
| `Tracer.ChunkReplays` | tracer/src/lib.rs:457-477 | a saved state replays exactly its chunk of cycles |
| `Tracer.OneChunk` | tracer/src/lib.rs:213-220 | one turn of the loop saves the next n cycles or what is left, and begins a new chunk |
| `Tracer.CheckpointsReplayRun` | tracer/src/lib.rs:202-225 | there are T / n + 1 checkpoints, checkpoint i replays the i-th n cycles also when it begins within a tick, and together they replay the run |
| `Tracer.CheckpointsReplayTrace` | tracer/src/lib.rs:202-225 | the same for tracing a halting program from its start |
| `Tracer.CountIsCeilingIffRagged` | tracer/src/lib.rs:906 | the count is the rounded-up quotient exactly when n does not divide T |
| `Tracer.OneCheckpointMore` | tracer/src/lib.rs:906 | a run of two cycles at interval one yields three checkpoints, where the test computes two |
| `Tracer.StorerTrace` | tracer/src/emulator/memory.rs:42-63 | a load in a later tick gives what was stored |
| `Tracer.FinalMemory` | tracer/src/lib.rs:630-654 | a tracer that has handed out everything holds the memory the program left |
| `Tracer.CheckpointReplay.LazyStepCycle` | tracer/src/lib.rs:457-477 | the replay's step, with its buffer and its count |
| `Tracer.CheckpointReplay.Collect` | tracer/src/lib.rs:368-381 | the iterator over a checkpoint yields exactly its replay |
| `Tracer.CheckpointingTracer.LazyStepCycle` | tracer/src/lib.rs:630-654 | the live step, with its buffer, counts, flags and the final memory |
| `Tracer.CheckpointingTracer.StartSaving` | tracer/src/lib.rs:539-553 | a snapshot is taken and recording begins |
| `Tracer.CheckpointingTracer.SaveCheckpoint` | tracer/src/lib.rs:560-595 | the previous snapshot with the recorded memory and the count is handed out, and a new chunk begins |
| `Tracer.CollectTrace` | tracer/src/lib.rs:368-381 | the lazy iterator yields the cycles of all ticks in order |
| `Tracer.TraceCheckpoints` | tracer/src/lib.rs:202-225 | the loop returns the checkpoints of the specification |
| `Tracer.TraceAndReplay` | tracer/src/lib.rs:895-913 | checkpoints collected one by one are the consecutive chunks of the trace |
| `Words.DivuAdvice` | tracer/src/instruction/divu.rs:84-109 | the unsigned asserts leave one quotient for a divisor that is not zero, and the remainder is then right |
| `Words.MulhCorrect` | tracer/src/instruction/mulh.rs:52-72 | sign corrections of the unsigned high word give the signed high word |
| `Words.NoOverflowIff` | tracer/src/instruction/div.rs:134-142 | high word equal to the sign of the low word means that the signed product fits |
| `Words.DivAdvice` | tracer/src/instruction/div.rs:130-157 | the signed asserts accept exactly the truncated quotient and the size of the remainder, including division by zero and overflow |
| `Shifts.TrailingZerosCorrect` | z3-verifier/src/virtual_sequences.rs:209-225 | the halving recursion counts trailing zeros at every power-of-two width |
| `Shifts.BitmaskCarriesAmount` | z3-verifier/src/virtual_sequences.rs:446-466 | the bitmask's trailing zeros are the shift amount modulo the width |
| `Shifts.MulhsuCorrect` | tracer/src/instruction/mulhsu.rs:52-77 | negating the unsigned product limb-wise with a carry gives the mixed-sign high word |
| `VirtualSequences.SymbolicCpu.SymbolicExec` | z3-verifier/src/virtual_sequences.rs:227-541 | an instruction keeps every register a word of the width, changes no register but its destination, and leaves a failed assert failed |
| `Words.XorBits` | z3-verifier/src/virtual_sequences.rs:526-530 | exclusive or works bit by bit |
| `Bits.AndBits` | z3-verifier/src/virtual_sequences.rs:244-248 | and works bit by bit |
| `VirtualSequences.SymbolicCpu.ExecSequence` | z3-verifier/src/virtual_sequences.rs:564-567 | running a sequence is the fold of its instructions and leaves words in all registers |
| `VirtualSequences.SymbolicCpu.Execute` | z3-verifier/src/virtual_sequences.rs:564-567 | after the inline sequence of any of the nine instructions the asserts held exactly for the right advice, rd has the RISC-V result, no other real register changed, and the next sequence may follow |
| `VirtualSequences.SequenceCorrect` | z3-verifier/src/virtual_sequences.rs:709-744 | the correctness query of each of the nine instructions, at every width, operand and advice |
| `VirtualSequences.ShiftResults` | z3-verifier/src/virtual_sequences.rs:951-1026 | the expected results of SLL, SRL and SRA: the product modulo the word size, and the unsigned and signed quotients by a power of two, rounded down |
| `VirtualSequences.HighResults` | z3-verifier/src/virtual_sequences.rs:836-871 | the expected results of MULH and MULHSU: the exact product divided by the word size, rounded down |
| `VirtualSequences.DivisionResults` | z3-verifier/src/virtual_sequences.rs:757-897 | the expected results of DIV and REM: quotient times divisor plus remainder is the dividend, the remainder is smaller than the divisor and has the sign of the dividend; a zero divisor and overflow as in the RISC-V table |
| `VirtualSequences.UnsignedResults` | z3-verifier/src/virtual_sequences.rs:776-911 | the same for DIVU and REMU |
| `VirtualSequences.TestCorrectness` | z3-verifier/src/virtual_sequences.rs:543-611 | no assignment satisfies the asserts and differs from the expected registers |
| `VirtualSequences.TestConsistency` | z3-verifier/src/virtual_sequences.rs:613-707 | two accepted runs from equal registers end in equal real registers, whatever their advice |
| `VirtualSequences.DivCorrect` | z3-verifier/src/virtual_sequences.rs:757-775 | DIV: asserts hold for exactly one advice pair, and then only rd changes, to the RISC-V quotient |
| `VirtualSequences.DivuCorrect` | z3-verifier/src/virtual_sequences.rs:776-790 | DIVU: exactly one advice word, all ones for a zero divisor, and the RISC-V quotient |
| `VirtualSequences.RemCorrect` | z3-verifier/src/virtual_sequences.rs:878-897 | REM: the same advice pair as DIV and the RISC-V remainder |
| `VirtualSequences.RemuCorrect` | z3-verifier/src/virtual_sequences.rs:898-911 | REMU: the quotient, or any advice for a zero divisor, and always the RISC-V remainder |
| `VirtualSequences.MulhSequenceCorrect` | z3-verifier/src/virtual_sequences.rs:836-853 | MULH: the high word of the signed product |
| `VirtualSequences.MulhsuSequenceCorrect` | z3-verifier/src/virtual_sequences.rs:854-871 | MULHSU: the high word of signed times unsigned |
| `VirtualSequences.SllCorrect` | z3-verifier/src/virtual_sequences.rs:951-960 | SLL: shift left by the register modulo the width |
| `VirtualSequences.SrlCorrect` | z3-verifier/src/virtual_sequences.rs:1017-1026 | SRL: logical shift right by the register modulo the width |
| `VirtualSequences.SraCorrect` | z3-verifier/src/virtual_sequences.rs:984-993 | SRA: arithmetic shift right by the register modulo the width |
| `Merkle.LeafPreimageInjective` | persistia-guest/src/lib.rs:28-57 | leaf texts of any lengths determine key and value |
| `Merkle.NodePreimageInjective` | persistia-guest/src/lib.rs:60-74 | node texts determine both children |
| `Merkle.LeafIsNotNode` | persistia-guest/src/lib.rs:28-74 | no leaf text is a node text |
| `Merkle.LeafTextIff` | persistia-guest/src/lib.rs:24-57 | the leaf text is the only text that a reader of lower-case ASCII hex takes for key and value |
| `Merkle.NodeTextIff` | persistia-guest/src/lib.rs:24-74 | the node text is the only text that the reader takes for the left and the right child |
| `Merkle.ThreeWrites` | persistia-guest/src/lib.rs:113-171 | the root of three writes, text by text: two leaves to the left, the third and padding to the right |
| `Merkle.WritesConcat` | persistia-guest/src/lib.rs:117-136 | writes are kept in order, list by list |
| `Merkle.PairUpKeepsRoot` | persistia-guest/src/lib.rs:160-166 | hashing one layer into the next keeps the recursive root |
| `Merkle.HiddenKeepsRoot` | persistia-guest/src/lib.rs:138-158 | for every hash, leaves that hash to the padding in the place of padding, or a topmost text that does after no writes, keep the root |
| `Merkle.RootsEqualIff` | persistia-guest/src/lib.rs:113-171 | if no two of the hashed texts collide, two roots are equal exactly for equal written pairs or where one block hides its end |
| `Merkle.SameCountBinds` | persistia-guest/src/lib.rs:113-171 | blocks with equal numbers of writes have equal roots exactly for equal written pairs, if no two of the hashed texts collide |
| `Merkle.RootBindsWrites` | persistia-guest/src/lib.rs:113-171 | equal roots mean equal lists of written pairs, whatever their numbers, if none of the hashed texts collide or hash to the padding |
| `Merkle.PaddingLeafInvisible` | persistia-guest/src/lib.rs:138-158 | for every hash and every block with padding left, a further write that hashes to the padding keeps the root |
| `Merkle.ZeroDigestBreaksBinding` | persistia-guest/src/lib.rs:138-158 | for every hash, a single write that hashes to the padding has the root of no writes, without any collision |
| `Persistia.Sha256Leaf` | persistia-guest/src/lib.rs:28-57 | the buffered leaf digest, failing exactly when the text exceeds 600 bytes |
| `Persistia.Sha256Node` | persistia-guest/src/lib.rs:60-74 | the buffered node digest |
| `Persistia.LeafDigests` | persistia-guest/src/lib.rs:113-136 | the running offsets find the written pairs and their digests, or fail on a bad length |
| `Persistia.MerkleInPlace` | persistia-guest/src/lib.rs:154-168 | the in-place layer loop, which overwrites what it has read, computes the recursive root |
| `Persistia.ProveBlock` | persistia-guest/src/lib.rs:90-174 | the guest accepts exactly a quorum, well-formed lengths and the root of the written pairs, which it returns |
| `Persistia.QuorumsMeetIff` | persistia-guest/src/lib.rs:103-110 | f is the largest number with 3f + 1 nodes and the quorum 2f + 1; two quorums meet in more than f nodes exactly for 3f + 1 nodes |
| `Persistia.AcceptedIff` | persistia-guest/src/lib.rs:90-174 | a flattened list of mutations is accepted exactly for its root, a quorum and writes that fit |
| `Persistia.AcceptedRootsEqualIff` | persistia-guest/src/lib.rs:90-174 | unless texts collide, two accepted runs have one root exactly if they proved the same written pairs or one hides its end |
| `Persistia.AcceptedSameCountBinds` | persistia-guest/src/lib.rs:90-174 | unless texts collide, two accepted runs with equal numbers of writes have one root exactly if they proved the same written pairs |
| `Persistia.AcceptedRunsBind` | persistia-guest/src/lib.rs:90-174 | two accepted runs with one root proved the same written pairs, whatever their numbers, unless texts collide or hash to the padding |
| `Persistia.Sha256LeafHost` | persistia-host/src/main.rs:93-106 | the host's leaf digest is the guest's |
| `Persistia.HostRoot` | persistia-host/src/main.rs:159-178 | padding to a single one bit and rebuilding lists computes the same root |
| `Persistia.HostAgrees` | persistia-host/src/main.rs:145-178 | for every hash and every list without an empty value the host's root is the guest's |
| `Persistia.HostAgreesOrHides` | persistia-host/src/main.rs:145-178 | unless texts collide, the host's root is the guest's exactly when no value is empty, or the empty ones come last and are hidden |
| `Persistia.HostAgreesIff` | persistia-host/src/main.rs:145-178 | the host's root is the guest's exactly when no value is empty, unless texts collide or hash to the padding |
| `Persistia.HostRootAcceptedIff` | persistia-host/src/main.rs:139-183 | a flattened list without empty values is accepted exactly for the host's root, a quorum, at most 64 pairs and pairs that fit |
| `Persistia.GenerateBlock` | persistia-host/src/main.rs:139-183 | flattening a list with lengths cut to one byte, and its root |
| `Persistia.GenerateAndProve` | persistia-host/src/main.rs:139-183 | host and guest in a row: the guest returns the host's root if it returns, which for lengths of one byte and no empty value is exactly with a quorum, at most 64 pairs and pairs that fit |
| `AdviceTape.ReadWritten` | jolt-sdk/src/lib.rs:443-551 | any nested value is read back unchanged and exactly its bytes are consumed |
| `AdviceTape.ReadIff` | jolt-sdk/src/lib.rs:443-551 | a tape gives a value and a rest if and only if the value has the shape and the tape is what writing it puts, and the rest |
| `AdviceTape.WrittenVector` | jolt-sdk/src/lib.rs:515-526 | the bytes of a number and a vector: little-endian, length, capacity, elements |
| `AdviceTape.EmptyVector` | jolt-sdk/src/lib.rs:527-533 | a capacity is read exactly up to isize::MAX bytes |
| `AdviceTape.Guest.AppendAdvice` | tracer/src/emulator/cpu.rs:33-35 | what is written comes after all that is still to be read |
| `AdviceTape.Guest.ReadAdvice` | tracer/src/emulator/cpu.rs:37-49 | a read takes the next bytes little-endian, or fails and moves nothing |
| `AdviceTape.Guest.ReadSlice` | jolt-sdk/src/lib.rs:363-411 | at any address and length the buffer gets the next bytes, every store is naturally aligned and inside, and it fails exactly when the tape is short |
| `AdviceTape.Guest.ReadValue` | jolt-sdk/src/lib.rs:443-551 | reading a value of any shape through the bulk read, wherever its buffers lie, gives what the tape holds and leaves the rest, or fails exactly on a tape that is too short, a capacity below the length, or one of more than isize::MAX bytes |
| `AdviceTape.Guest.WriteThenRead` | jolt-sdk/src/lib.rs:443-551 | a value written to an empty tape comes back through memory and the tape is empty again |
| `LittleEndian.PutAt` | jolt-sdk/src/lib.rs:363-411 | a filled buffer reads byte for byte, and nothing else changed |
| `LittleEndian.ByteAt` | tracer/src/emulator/cpu.rs:37-49 | byte i of a number is its digit i to the base of 256 |
| `GuestHeap.AlignUpIsNext` | jolt-platform/src/alloc.rs:37-39 | the mask computes the next multiple of sixteen |
| `GuestHeap.Bumps` | jolt-platform/src/alloc.rs:21-35 | with room the allocator moves past the new block, without it returns null or ends up at or below the block's start |
| `GuestHeap.AllocationSound` | jolt-platform/src/alloc.rs:21-35 | for every heap in order and every request with a layout, the heap with the new block is in order if and only if there is room |
| `GuestHeap.WithoutRoomBlocksMeet` | jolt-platform/src/alloc.rs:21-35 | after an allocation without room at most two more requests make the next block begin inside it |
| `GuestHeap.FourRequests` | jolt-platform/src/alloc.rs:21-35 | four requests after which the third block lies below the heap and the fourth is the first |
| `GuestHeap.Heap.Malloc` | jolt-platform/src/malloc_shim.rs:43-60 | null when the layout is refused; else the bytes and layouts of all blocks are kept, and a new aligned block apart from all live ones is added behind its header at the next multiple of sixteen exactly when there is room |
| `GuestHeap.Heap.Free` | jolt-platform/src/malloc_shim.rs:64-79 | the header rebuilds exactly the layout the block was allocated with, and the rest stays sound |
| `GuestHeap.Heap.Realloc` | jolt-platform/src/malloc_shim.rs:83-109 | exactly when there is room the block is replaced by one with the same first min(old, new) bytes and other blocks keep theirs |
| `GuestHeap.Heap.MoveBlock` | jolt-platform/src/malloc_shim.rs:101-107 | in a heap in order the copied bytes arrive, the source block is freed, and only the target's payload changed |
| `GuestHeap.Heap.Calloc` | jolt-platform/src/malloc_shim.rs:113-135 | null on overflow, zero or a refused layout; else a zeroed payload in a heap in order exactly when there is room |
| `MemoryRegions.LayoutOfAccepted` | common/src/jolt_device.rs:254-391 | for every accepted configuration the regions are aligned, consecutive, end by the start of RAM, start at a power of two below it, and advice regions are size-aligned |
| `MemoryRegions.LayoutOfConfig` | common/src/jolt_device.rs:254-391 | the sizes are the configured ones rounded up to multiples of eight, the stack ends after the program, and canary, stack and heap follow |
| `MemoryRegions.AcceptedIff` | common/src/jolt_device.rs:254-391 | a configuration gets a layout exactly if it has a program size, its rounded advice sizes are zero or powers of two, the I/O sizes and sixteen bytes fit below RAM, and program, canary, stack and heap fit in the address space |
| `Device.JoltDevice.Store` | common/src/jolt_device.rs:88-109 | a store is accepted exactly from the outputs to the end of I/O, and the device stays what its run of stores made it |
| `Device.JoltDevice.OutputLoad` | common/src/jolt_device.rs:49-86 | after any run an output address gives the last byte stored there or zero |
| `Device.JoltDevice.PanicLoad` | common/src/jolt_device.rs:50-51 | every byte of the panic word is 1 exactly if some store hit its first address |
| `Device.JoltDevice.InputLoad` | common/src/jolt_device.rs:54-76 | inputs and advice read the same after any run of stores |
| `Device.JoltDevice.OtherLoad` | common/src/jolt_device.rs:50-90 | the termination word and what lies around the regions read zero; past the last word below RAM the host panics |

## Left out

- Soundness of the wrapper and of Dory, the MiMC input hash, gnark's limb arithmetic and curve arithmetic: only the algebra of honest runs is modelled. Coefficient matrices are square; the exporter's zero-padded row coordinates are the square case with zero rows.
- JSON and hexadecimal parsing in the loader, the debug re-checks of the exporter, and the instances for 4, 7 and 9 rounds.
- The aarch64 assembly of `mont_mul_4`, Metal dispatch and buffers, conversions between GPU and arkworks points, and the shaders' curve formulas: the kernels are the scatter extraction and a sum over a slice in an abstract group.
- The library's unstable sort is replaced by an insertion sort; only that the result is a sorted permutation is used. The floating-point logarithm of the window heuristic is an integer logarithm.
- Quotients and inverses in printed polynomials, text below the level of tokens, register names, and the 128-bit and 16-bit widths of constants and variable indices.
- The processor is abstract: a tick is any bounded, deterministic run of doubleword accesses. `cycle_count` is written but never read and is not modelled; backtraces, the I/O device, `trace_to_file` and `IterChunks` are not part of the model.
- Inline sequences on 32-bit words (names ending in W) and with immediates, the 32-bit mode, and the solver queries themselves: each test's query is the lemma of its instruction.
- The registers of the inline sequences are the ones the allocator hands out first; operands are any real registers.
- SHA-256 itself, the block number and the benchmark tiers.
- GuestHeap.Heap.Malloc: arithmetic on addresses wraps as in a release build; what a write past the last address does to memory is not modelled, and after an allocation without room nothing is promised about later calls.
- GuestHeap.Heap.Realloc: without room, all that is promised is that no block in order replaces the old one.
- A guest heap too small for the capacity of an advice vector: only capacities that no allocation may have fail.
- Advice values wider than the tape's words are byte strings of any width; the host's and the guest's usize are both eight bytes.
- The trace writer, ELF decoding, RPC clients, benchmarks and scaffolding: input and output only.
