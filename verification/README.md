# Verified model of zkMemory

zkMemory proves that a RAM program's memory accesses are consistent: every read returns the last value
written to its address. This project models the deterministic consistency argument and the parts that feed
it, and proves that they do what they are for.

* **The machine** (`ByteMemory`, `Config`, `MachineSteps`, `Machine`, `MachineTraces`). A cell memory with
  unaligned two-cell accesses, a stack and registers, all sharing one address space, emitting a time-stamped
  trace. `MachineSteps` says what each instruction does to the cells, the stack depth and the trace, and the
  `StateMachine` methods compute it. In either layout, with unchecked loads and saves, the trace is clocked,
  replays to the memory, and (`MachineFlat`) every output is that of one zero-initialised flat byte array. The
  array is circular where additions wrap around: the access at its end goes on in cell 0.
* **The three stores** (`MachineSections`, `MachineStores`, `MachineLayouts`). When the sections lie apart a
  program cannot tell the shared memory from a separate stack, register file and byte array;
  `MachineLayouts.LayoutIsExact` says for which configuration arguments they do, with programs that tell the
  difference for all others.
* **What a program reads and records** (`MachineFootprints`, `MachineReadiness`, `MachineRecords`,
  `MachineEffects`). Whether a run reads a cell before writing it is decided on the program text, and so are the
  cells, the kinds and the stack depths of its trace, record by record. `MachineEffects` says in numbers what
  additions and stack instructions leave.
* **The offline check** (`NetLayout`, `Rows`, `Selectors`, `Uair`, `Polynomials`, `ConstrainGeneral`,
  `UairSoundness`, `WitnessColumns`, `WitnessOrders`, `Completeness`, `WitnessBuilder`). A column relation over a trace sorted
  by (address, time), linked to the original trace by a switching network. Every column assignment that
  satisfies it is a consistent trace (soundness), and the builder's witness satisfies it exactly when its input
  trace is consistent (completeness, as an if-and-only-if).
* **The switching network** (`BenesNetwork`, `Benes`). The router realises every permutation of 2^v wires, by a
  two-colouring walk and a recursive split into two half-size networks that write one shared buffer.
* **The online checks** (`OnlineMemory`, `HashChain`, `Nova`, `Supernova`). Folding steps that replay the trace
  against a memory vector and its commitment. SuperNova runs accept what Nova accepts, and `OfflineOnline`
  proves the online and the offline check equivalent.
* **Poseidon** (`Matrices`, `PoseidonPermutation`, `PoseidonSponge`, `PoseidonCircuit`). The native permutation
  and sponge, and the circuit that checks two partial rounds in one row through the inverse matrix. Cells that
  satisfy the gates hold exactly the native permutation and hash.
* **The Merkle path circuit** (`MerklePath`), built on the hash chip.
* `ProvableRuns` runs a program, builds the witness of its trace and says, on the program, when it satisfies
  the relation.
  `Powers`, `Permutations`, `Limbs`, `Records` and `Fields` are shared vocabulary.

`dafny verify dfyconfig.toml` checks the whole project.

## Conventions

* In `Uair` and the modules that build on it, a binary-polynomial cell is its value at X = 2, an integer below
  2^32, and a constraint is an integer equation. `ConstrainGeneral` evaluates the constraints over polynomials with
  0/1 coefficients, and `ConstrainGeneral.ConstrainRow` proves that a whole row of them holds exactly when the
  integer relation holds. Single constraints can differ: `ConstrainGeneral.HelperNeedsBoolean` has a cell on which
  S7 holds of the values and not of the polynomials, and S2 excludes it.
* The last row is exempt. A shift that reaches past the last row reads `beyond`, an arbitrary value: all results
  hold for every choice of it, and `ConstrainGeneral.RowIgnoresBeyond` shows that the other rows do not depend on it.
* Columns in `UairSoundness` are arbitrary. The lemmas there assume nothing about how they were produced, and
  in particular nothing about routing.
* A field is a record of operations with the laws `IsDomain` (a commutative ring without zero divisors), which
  `Fields.IntegersAreADomain` shows can be met. `Distinct(f, n)` says that the integers below n have different
  images, that is, that the characteristic is at least n. `FromNat` is the ring map from the naturals
  (`Fields.ImagesAdd`, `Fields.ImagesMultiply`).
* The folding circuits assign every auxiliary cell themselves, so their constraints are evaluated on the witness
  that `synthesize` assigns. The Poseidon and Merkle results instead hold for all cells that satisfy the gates.
* The pair hash of `HashChain`, `Nova` and `Supernova` is a parameter; the program's instance is
  `PoseidonSponge.HashOf` on two-word messages. Round constants and the matrices are parameters with
  mds * mds_inv = mds_inv * mds = 1 assumed; `PoseidonCircuit.SmallConfigIsValid` shows that the assumptions
  can be met.
* Addresses, values and times are naturals with their machine bounds stated where they matter (`Records.Fits`,
  `MachineSteps.RecordFits`).
* Where the test instruction set panics, the model returns the error and the run goes on from the state that the
  panic left: the records of the accesses made before it stay in the trace. `Settings.wraps` says whether the
  build's additions wrap around or panic, in sums and in the address of the second cell of an unaligned access:
  at the end of the address space that cell is cell 0 or the access fails with `AddressOverflow`. A swap with a register that lies across two cells pops the stack, reads
  the register and changes nothing more, as in the code.
* Proofs that do not need a definition `hide` it.
* `sort_by`, the ordered maps and `binary_search` are library code: the sort is an insertion sort by the same
  key, the maps are maps, and the search is a bisection loop.

## Where the code and its documentation differ

* The commitment that the Nova and SuperNova files call a Merkle root or Merkle tree is a hash chain,
  h(...h(h(x[n-1], x[n-2]), x[n-3])..., x[0]). It is defined for every length n >= 1, not only for powers of two.
* The Nova file's comment asks for an address of at most the memory size; the code demands a smaller one.
* A Nova step with zero records constrains nothing, not even the commitment (`Nova.StepHolds`), so "the step's
  constraints hold exactly when the commitment is right and the records replay" holds for non-empty steps.
* The offline check demands that a cell is written before it is read. The machine and the online checks also
  serve reads of unwritten cells, from zeros and from the initial memory. `OfflineOnline.OnlineMeans` and
  `MachineTraces.MachineTraceConsistency` say exactly where they part.
* The tail layout reserves a stack section at the end of the address space, but the machine's stack pointer
  starts at 0 in both layouts, which is where the tail layout's memory section starts
  (`MachineLayouts.StackOverMemory`). With neither a stack nor a buffer its register file starts on the last
  address of the memory section (`MachineLayouts.FileOverMemory`).
* The head layout's memory section ends with the address space. Where additions wrap around, an unaligned access
  in its last cell reaches cell 0, the first stack slot (`MachineLayouts.EndOverStack`) or, with neither a stack nor
  a buffer, the first register (`MachineLayouts.EndOverFile`).
* `NetLayout` states strict sorting from 3 variables on; it holds from 2 on, and the model proves it there.

## Model

| member | source | states |
|---|---|---|
| BenesNetwork.SwitchPair | zkmemory/src/zincplus/benes.rs:19-38 | every wire is in exactly one switch of a layer: an upper wire has its lower wire in range, a lower wire its upper one |
| BenesNetwork.FeedIsInvolution | zkmemory/src/zincplus/benes.rs:30-31 | any switch setting of a layer is its own inverse |
| BenesNetwork.SourceIsInjective | zkmemory/src/zincplus/benes.rs:14-16 | whatever the switches, different outputs carry different inputs |
| BenesNetwork.Realized | zkmemory/src/zincplus/benes.rs:3-11 | every switch setting realises a permutation |
| BenesNetwork.StateAfterReadsSource | zkmemory/src/zincplus/benes.rs:195-205 | applying layers in order moves each value along its wire path |
| BenesNetwork.OneSwitch | zkmemory/src/zincplus/benes.rs:200-204 | one switch of the in-place loop exchanges its two wires and no others |
| BenesNetwork.ApplyLayer | zkmemory/src/zincplus/benes.rs:195-205 | in-place application equals the layer's output as a value |
| Benes.Invert | zkmemory/src/zincplus/benes.rs:120-123 | the array is the two-sided inverse of the permutation |
| Benes.EntryMates | zkmemory/src/zincplus/benes.rs:124 | entry mates are a perfect matching of the inputs |
| Benes.ExitMates | zkmemory/src/zincplus/benes.rs:125-127 | exit mates are a perfect matching of the inputs |
| Benes.WalkAlongEntry | zkmemory/src/zincplus/benes.rs:136-153 | a step along an entry edge never returns to the start and meets an uncoloured wire |
| Benes.WalkAlongExit | zkmemory/src/zincplus/benes.rs:136-153 | a step along an exit edge closes the cycle with all pairs coloured apart, or meets an uncoloured wire |
| Benes.WalkStep | zkmemory/src/zincplus/benes.rs:136-153 | every walk step keeps the invariant or ends in a properly coloured cycle |
| Benes.ColorCycle | zkmemory/src/zincplus/benes.rs:134-153 | the walk ends back at its start, colours the whole cycle and keeps all pairs apart |
| Benes.ColorInputs | zkmemory/src/zincplus/benes.rs:129-154 | every input gets a colour, all entry and exit mates differ, and each cycle has colour 0 at its smallest wire |
| Benes.ColoringSeparatesPairs | zkmemory/src/zincplus/benes.rs:114-119 | the two inputs of every entry switch and of every exit switch have different colours |
| Benes.HalfIsPermutation | zkmemory/src/zincplus/benes.rs:176-186 | both sub-permutations are permutations of half the size |
| Benes.SubPermutations | zkmemory/src/zincplus/benes.rs:179-186 | the two arrays are the sub-permutations the colours determine |
| Benes.SetOuterLayer | zkmemory/src/zincplus/benes.rs:156-174 | the layer's switches follow the colours, and only upper wires of the block are written |
| Benes.SetMiddleSwitch | zkmemory/src/zincplus/benes.rs:105-111 | the base case routes its two wires and writes one switch |
| Benes.EntryHoldsInput | zkmemory/src/zincplus/benes.rs:156-162 | an input reaches its place in the half its colour chose |
| Benes.ExitChoosesHalf | zkmemory/src/zincplus/benes.rs:164-174 | an output is fed from the half that its source's colour chose |
| Benes.SplitRoutes | zkmemory/src/zincplus/benes.rs:156-188 | outer layers that follow the colours around two routed halves route the block |
| Benes.SourceReadsBlock | zkmemory/src/zincplus/benes.rs:33-38 | the inner layers never leave a half, so its switches alone decide its routing |
| Benes.HalvesKeepApart | zkmemory/src/zincplus/benes.rs:187-188 | the two recursive calls write disjoint wires of the shared layers and spare the outer ones |
| Benes.HalvesCompleteBlock | zkmemory/src/zincplus/benes.rs:156-188 | outer layers and both recursive calls together route the block |
| Benes.SplitBlock | zkmemory/src/zincplus/benes.rs:112-186 | colours, outer layers and two half-size permutations, with everything outside the block unchanged |
| Benes.RouteBlock | zkmemory/src/zincplus/benes.rs:94-189 | the block's wires come out permuted, and only its upper wires in its layers are set |
| Benes.Route | zkmemory/src/zincplus/benes.rs:66-92 | for every v and every permutation the switches realise exactly it; lower-wire entries stay false |
| Benes.NetworkPermutes | zkmemory/src/zincplus/benes.rs:66-71 | applying all layers to any input gives out[j] = in[perm[j]] |
| NetLayout.ColumnParts | zkmemory/src/zincplus/uair.rs:270-274 | a network column determines its state and payload cell |
| NetLayout.BuildShifts | zkmemory/src/zincplus/uair.rs:297-326 | the pushed list is the shift list |
| NetLayout.ShiftsSorted | zkmemory/src/zincplus/uair.rs:286-326 | the shift list is strictly sorted, and names network columns only |
| NetLayout.LookupsDeclared | zkmemory/src/zincplus/uair.rs:286-342 | every (column, shift) pair a constraint reads is in the list |
| NetLayout.DeclaredIsRead | zkmemory/src/zincplus/uair.rs:286-342 | a (column, shift) pair is in the list exactly when a constraint reads it |
| NetLayout.ColumnPlaces | zkmemory/src/zincplus/uair.rs:66-85 | every column lies where the file's column table puts it |
| NetLayout.DownIdx | zkmemory/src/zincplus/uair.rs:336-342 | the search returns the one position of a declared pair |
| Limbs.LimbsDenoteBytes | zkmemory/src/zincplus/uair.rs:600-611 | eight big-endian limbs denote the number of the 32 bytes |
| Limbs.BytesRoundTrip | zkmemory/src/zincplus/uair.rs:564-565 | fixed-width big-endian bytes give the number back |
| Limbs.BigEndian | zkmemory/src/base.rs:122-124 | byte k counts the multiples of 256^(n-1-k): the most significant comes first |
| Limbs.FirstDifferenceDecides | zkmemory/src/zincplus/uair.rs:91-98 | the first differing limb decides the order of two numbers |
| Limbs.NumberIsInjective | zkmemory/src/zincplus/uair.rs:99-101 | equal limbs are equal numbers, both ways |
| Rows.FromRecord | zkmemory/src/zincplus/uair.rs:561-579 | the limbs of a record are in range and decode to the record |
| Rows.RowOfCells | zkmemory/src/zincplus/uair.rs:581-591 | the 21 payload cells spell the row out without loss |
| Rows.CellOrder | zkmemory/src/zincplus/uair.rs:70-70 | the payload is eight address, two time, two stack-depth and eight value limbs and the instruction, in this order |
| Rows.LexOrder | zkmemory/src/zincplus/uair.rs:89-98 | comparing the first differing limb of address and time is comparing the keys |
| Selectors.SelectorMeaning | zkmemory/src/zincplus/uair.rs:419-453 | S3 to S6 force one selected limb, the first to differ, growing by slack + 1 |
| Selectors.SelectorWitness | zkmemory/src/zincplus/uair.rs:419-453 | a one-hot selector of the first difference satisfies S3 to S6 |
| Uair.PublicColumns | zkmemory/src/zincplus/uair.rs:858-873 | the public columns hold the first-row and bit-is-zero indicators at every row |
| Polynomials.IdealIsMultiples | zkmemory/src/zincplus/uair.rs:388-391 | an integer polynomial vanishes at 2 exactly when it is a multiple of X - 2 |
| Polynomials.CellOfValue | zkmemory/src/zincplus/uair.rs:58-64 | a cell of 32 bits is determined by its value at 2, a number below 2^32 |
| ConstrainGeneral.DownBp | zkmemory/src/zincplus/uair.rs:394-395 | the lookup of every shifted cell succeeds and returns that cell |
| ConstrainGeneral.CheckSelectors | zkmemory/src/zincplus/uair.rs:419-453 | the loop with its running sums, over polynomials, decides S3 to S6 of their values |
| ConstrainGeneral.SelectorConstraints | zkmemory/src/zincplus/uair.rs:419-453 | the emitted polynomial constraints on the selectors hold exactly when S3 to S6 hold of the row |
| ConstrainGeneral.SortedConstraints | zkmemory/src/zincplus/uair.rs:397-474 | the emitted polynomial constraints on the sorted trace hold exactly when S1 to S9 hold of the row |
| ConstrainGeneral.OriginalConstraints | zkmemory/src/zincplus/uair.rs:476-511 | the emitted polynomial constraints on the original trace hold exactly when O1 to O6 hold of the row |
| ConstrainGeneral.HelperNeedsBoolean | zkmemory/src/zincplus/uair.rs:459-461 | S7 alone holds of the value of the cell X and not of its polynomial |
| ConstrainGeneral.SwapConstraint | zkmemory/src/zincplus/uair.rs:527-540 | under N1, the two masked polynomial constraints of a payload cell hold exactly when N2 and N3 hold of the row |
| ConstrainGeneral.ConstrainRow | zkmemory/src/zincplus/uair.rs:371-542 | evaluating every constraint over polynomial cells decides exactly the integer row relation |
| ConstrainGeneral.RowIgnoresBeyond | zkmemory/src/zincplus/uair.rs:112-118 | no constraint of a row before the last depends on what lies past the last row |
| UairSoundness.AnchorIsConstrained | zkmemory/src/zincplus/uair.rs:112-118 | the exempt last row is no switch's anchor |
| UairSoundness.SwitchMovesCells | zkmemory/src/zincplus/uair.rs:517-541 | at an anchor, N1 to N3 exchange the two cells or pass both through |
| UairSoundness.StateFollowsLayer | zkmemory/src/zincplus/uair.rs:517-541 | the next state is this one with whole records moved by the switches |
| UairSoundness.LayerKeepsMultiset | zkmemory/src/zincplus/uair.rs:112-115 | each layer keeps the multiset of full 21-cell records |
| UairSoundness.NetworkIsPermutation | zkmemory/src/zincplus/uair.rs:517-541 | whatever the switch columns, the original rows are the sorted rows permuted, with equal multisets |
| UairSoundness.KeyIncreases | zkmemory/src/zincplus/uair.rs:95-101 | S3 to S6 make the (address, time) key strictly increase, and a_same tells whether the address stays |
| UairSoundness.ReadKeepsValue | zkmemory/src/zincplus/uair.rs:459-469 | S7 and S8 pin a read at an unchanged address to the previous value |
| UairSoundness.SortedStateIsConsistent | zkmemory/src/zincplus/uair.rs:397-474 | state 0 is sorted by key, and each read repeats its predecessor's address and value |
| UairSoundness.OriginalStateIsTimed | zkmemory/src/zincplus/uair.rs:476-511 | the last state starts at time 0 and strictly increases |
| UairSoundness.OriginalInstrIsBit | zkmemory/src/zincplus/uair.rs:410-417 | the original trace's instruction cells are 0 or 1 on all rows |
| UairSoundness.Soundness | zkmemory/src/zincplus/uair.rs:397-541 | every satisfying assignment's last state is well timed and every read returns the last earlier write |
| Records.SortedCheckIsExact | zkmemory/src/zincplus/uair.rs:99-104 | comparing neighbours in (address, time) order is exactly last-write consistency in time order |
| WitnessColumns.SelectedIncreases | zkmemory/src/zincplus/uair.rs:743-754 | neighbours in key order differ, and grow, in the selected limb |
| WitnessOrders.SortIsSorted | zkmemory/src/zincplus/uair.rs:700-704 | sorting a time-ordered trace gives strictly increasing keys |
| WitnessOrders.LinkByTime | zkmemory/src/zincplus/uair.rs:789-801 | the time lookup is a permutation that turns the sorted order into the original one |
| WitnessOrders.Pad | zkmemory/src/zincplus/uair.rs:706-723 | the padding rows, or the overflow of the 64-bit time |
| WitnessOrders.PaddedIsSorted | zkmemory/src/zincplus/uair.rs:706-708 | padding keeps the sorted order sorted |
| WitnessOrders.PaddingIsBenign | zkmemory/src/zincplus/uair.rs:625-628 | padding neither breaks nor mends consistency |
| WitnessOrders.SizeBound | zkmemory/src/zincplus/uair.rs:686-695 | the size check passes exactly below 2^16 records |
| WitnessOrders.SizeIsLeast | zkmemory/src/zincplus/uair.rs:686-697 | the row count is the least power of two, from 2^3 on, that holds the trace and one padding row |
| WitnessBuilder.CheckTimes | zkmemory/src/zincplus/uair.rs:670-684 | the loop reports the first non-increasing pair, with its kind |
| WitnessBuilder.TimeErrorIsExact | zkmemory/src/zincplus/uair.rs:670-684 | no error is reported exactly when every time grows |
| WitnessBuilder.BuildErrorIsExact | zkmemory/src/zincplus/uair.rs:630-640 | no error is reported exactly for non-empty, increasing traces that fit the size and the time domain |
| WitnessBuilder.ErrorsAreExact | zkmemory/src/zincplus/uair.rs:631-724 | which error: of an empty trace, of the first pair out of order with its kind and time, of 2^16 records, of padding past 64 bits, in this order |
| WitnessBuilder.FillSorted | zkmemory/src/zincplus/uair.rs:736-761 | the filled columns are the selector, slack and helper columns; the error arms are unreachable |
| WitnessBuilder.FillOriginal | zkmemory/src/zincplus/uair.rs:763-787 | the filled columns are the time selector and slack columns; the error arm is unreachable |
| WitnessBuilder.FillNetwork | zkmemory/src/zincplus/uair.rs:803-816 | the columns of every network state, and the rows leaving the network |
| WitnessBuilder.RoutedRows | zkmemory/src/zincplus/uair.rs:817-820 | the routed network delivers the original rows, so the last check never fails |
| WitnessBuilder.BuildPadded | zkmemory/src/zincplus/uair.rs:725-847 | assembling the witness of two padded orders always succeeds |
| WitnessBuilder.WitnessCarriesTrace | zkmemory/src/zincplus/uair.rs:803-820 | the last network state of a witness reads back as the trace |
| WitnessBuilder.PaddedWitnessProves | zkmemory/src/zincplus/uair.rs:613-628 | a padded witness is satisfied exactly by consistent traces starting at 0 |
| WitnessBuilder.PaddedTail | zkmemory/src/zincplus/uair.rs:706-723 | the rows after the trace repeat its record of the largest key as reads, one tick after the other |
| WitnessBuilder.WitnessIsIdle | zkmemory/src/zincplus/uair.rs:731-787 | what no constraint forces is zero: the last row's selectors and slacks and the switches at lower wires |
| WitnessBuilder.BuildUairTraceAnyStart | zkmemory/src/zincplus/uair.rs:657-848 | the exact error, or a witness of the least size that proves exactly the trace, with the padding and the idle cells fixed |
| WitnessBuilder.BuildUairTrace | zkmemory/src/zincplus/uair.rs:613-655 | Ok exactly for buildable traces starting at 0; the internal error never comes out; the witness has the least size, its padding is fixed, and it satisfies the relation exactly when every read returns the last write |
| Completeness.NetworkHolds | zkmemory/src/zincplus/uair.rs:803-816 | built network columns satisfy N1 to N3 on every row |
| Completeness.SelectorsHold | zkmemory/src/zincplus/uair.rs:736-761 | built selectors and slack satisfy S3 to S6 |
| Completeness.ReadConstraintsMeaning | zkmemory/src/zincplus/uair.rs:455-474 | on built columns S2 and S7 hold, and S8 and S9 say that the next record is consistent |
| Completeness.WitnessMeaning | zkmemory/src/zincplus/uair.rs:613-655 | a built witness satisfies the relation exactly when the sorted trace is consistent and time starts at 0 |
| Completeness.WitnessIsWitness | zkmemory/src/zincplus/uair.rs:803-848 | the assembled columns are such a witness |
| ByteMemory.ReadReturnsBytes | zkmemory/src/machine.rs:190-259 | an aligned or unaligned read returns the word's bytes from the address on |
| ByteMemory.WriteReplacesBytes | zkmemory/src/machine.rs:262-338 | a write replaces exactly the word's bytes from the address on |
| ByteMemory.WriteKeepsWellFormed | zkmemory/src/machine.rs:262-338 | stored keys stay word-aligned and values fit a cell |
| ByteMemory.CellsRefineBytes | zkmemory/src/machine.rs:190-352 | any sequence of overlapping reads and writes agrees with a zero-initialised flat byte array, circular where an access wraps around |
| MachineTraces.ServedByReplay | zkmemory/src/machine.rs:190-338 | a read returns the last write exactly when the replayed cell was written and holds its value |
| MachineTraces.MachineTraceConsistency | zkmemory/src/machine.rs:190-338 | a machine trace is consistent exactly when no cell is read before it is written |
| MachineTraces.MachineTraceIsBuildable | zkmemory/src/zincplus/uair.rs:642-655 | every non-empty machine trace below the size bound meets the builder's contract |
| MachineTraces.ProveRun | zkmemory/src/zincplus/uair.rs:642-655 | building succeeds on machine traces, and the witness is satisfied exactly when no cell is read before it is written |
| Machine.InsertAdds | zkmemory/src/machine.rs:862-864 | inserting a record adds it and loses none |
| Machine.InsertKeepsOrder | zkmemory/src/machine.rs:499-512 | insertion keeps a time-ordered trace ordered |
| Machine.LatestIsAppended | zkmemory/src/machine.rs:499-512 | a record later than all others is inserted at the end, so the ordered set is the log |
| Machine.NextIsAppended | zkmemory/src/machine.rs:190-338 | the next record of a clocked trace meets no equal time and goes to the end |
| Machine.JoinCells | zkmemory/src/machine.rs:218-227 | the spliced buffer is the end of one cell and the start of the next |
| Machine.SplitIntoCells | zkmemory/src/machine.rs:288-303 | the two buffers keep the untouched bytes and take the value's |
| Machine.SplicedWrite | zkmemory/src/machine.rs:288-338 | storing the two spliced cells is what an unaligned write does to the memory and the trace |
| Machine.StateMachine.constructor | zkmemory/src/machine.rs:807-833 | a new machine of either layout is valid and empty |
| Machine.StateMachine.TrackRecord | zkmemory/src/machine.rs:862-868 | the trace stays ordered by time and gains exactly the record; equal times are excluded |
| Machine.StateMachine.Read | zkmemory/src/machine.rs:190-259 | the value, the kind of access, and one record for each cell it reports, with that cell, its word and the stack depth in force; memory unchanged; at the end of the space the second cell is cell 0 or nothing changes |
| Machine.StateMachine.Write | zkmemory/src/machine.rs:262-338 | the new memory, the kind of access, and one record for each cell it reports, with that cell, its new word and the stack depth in force; at the end of the space the second cell is cell 0 or nothing changes |
| Machine.StateMachine.Push | zkmemory/src/machine.rs:363-381 | one write at the old pointer, recorded under the new depth; at full depth an error and no change |
| Machine.StateMachine.Pop | zkmemory/src/machine.rs:384-399 | one read at the new pointer, recorded under the new depth; at depth 0 an error and no change |
| Machine.StateMachine.Set | zkmemory/src/machine.rs:434-436 | a write at the register's address, whatever its index |
| Machine.StateMachine.Get | zkmemory/src/machine.rs:439-441 | a read at the register's address, whatever its index |
| Machine.StateMachine.ExecMemory | zkmemory/src/machine.rs:713-728 | checked read and write: refused outside the memory section with no change |
| Machine.StateMachine.ExecStack | zkmemory/src/machine.rs:729-734 | push and pop as instructions |
| Machine.StateMachine.ExecMov | zkmemory/src/machine.rs:735-743 | copies a register; a source across two cells is refused after it was read |
| Machine.StateMachine.ExecSwap | zkmemory/src/machine.rs:744-761 | the top of the stack and the register exchange; a register across two cells only costs the top |
| Machine.StateMachine.ExecLoad | zkmemory/src/machine.rs:762-771 | an unchecked load, from one or two cells |
| Machine.StateMachine.ExecSave | zkmemory/src/machine.rs:772-781 | an unchecked save; a register across two cells is refused after it was read |
| Machine.StateMachine.ExecAdd | zkmemory/src/machine.rs:782-797 | the sum goes to the first register; two-cell registers and overflow are refused after the reads |
| Machine.StateMachine.Exec | zkmemory/src/machine.rs:708-798 | every instruction of the set steps as modelled and keeps the machine valid |
| Machine.StateMachine.Execute | zkmemory/src/machine.rs:870-872 | every program, in either layout and with unchecked accesses, runs as modelled, and the trace stays clocked and replays to the memory |
| MachineSteps.StepKeepsGood | zkmemory/src/machine.rs:708-798 | one instruction keeps the cells aligned, the trace clocked and replaying to them, and the depth within its bound |
| MachineSteps.RunKeepsGood | zkmemory/src/machine.rs:708-798 | so does any program, from any such state |
| MachineFlat.StepIsFlat | zkmemory/src/machine.rs:708-798 | one instruction acts on the cells as on a flat byte array |
| MachineFlat.RunIsFlat | zkmemory/src/machine.rs:708-798 | in either layout, sections overlapping or not, any program shows the outputs of one zero-initialised byte array |
| MachineStores.StepInSections | zkmemory/src/machine.rs:708-798 | when the sections lie apart, one instruction acts as on a separate stack, register file and byte array |
| MachineStores.RunInSections | zkmemory/src/machine.rs:708-798 | so does any interleaving of instructions that keep to their sections |
| MachineLayouts.HeadIsApart | zkmemory/src/config.rs:133-145 | the head layout keeps the three sections apart, unless an access wraps around from the memory section into cell 0 |
| MachineLayouts.TailIsApart | zkmemory/src/config.rs:146-163 | the tail layout without a stack keeps them apart, given a buffer or no registers |
| MachineLayouts.StackOverMemory | zkmemory/src/machine.rs:820-820 | a stack over the memory section: after a push of 1, reading address 0 gives 1 instead of 0 |
| MachineLayouts.FileOverMemory | zkmemory/src/config.rs:146-163 | a register on the last memory address: write 1, save the register there, read 1 instead of 0 |
| MachineLayouts.EndReachesFirstCell | zkmemory/src/machine.rs:349-352 | in a wrapping build, writing 1 to the last address changes cell 0 |
| MachineLayouts.EndOverStack | zkmemory/src/machine.rs:349-352 | then a stack in cell 0: push 0, write 1 to the last address, pop something else |
| MachineLayouts.EndOverFile | zkmemory/src/machine.rs:349-352 | then a register in cell 0: write 1 to the last address, save the register, which no instruction set, read something else than 0 |
| MachineLayouts.LayoutIsExact | zkmemory/src/config.rs:130-163 | a configuration's machine acts as three separate stores for all programs exactly when it has no stack and either a buffer or no registers, or is laid out head first with additions that panic on overflow or one-byte words |
| MachineFootprints.StepLeaves | zkmemory/src/machine.rs:708-798 | the cells an instruction stores, and that its reads are of written cells, follow from the stored cells and the stack depth alone |
| MachineFootprints.StackIsWritten | zkmemory/src/machine.rs:363-399 | every slot below the depth was written, so a pop never reads an unwritten cell |
| MachineFootprints.RunIsClean | zkmemory/src/machine.rs:708-798 | a run without a read of an unwritten cell stores exactly the cells its program writes |
| MachineFootprints.CleanRuns | zkmemory/src/machine.rs:708-798 | in either layout, a run reads no cell before writing it exactly when its program writes each cell first |
| MachineReadiness.ReadyRuns | zkmemory/src/machine.rs:708-798 | when the sections lie apart, that is: every register is set before it is used, and both cells of every memory read were written by an earlier write or save |
| MachineEffects.SumIsExact | zkmemory/src/machine.rs:788-788 | the sum of two words, less 256^word in a wrapping build when it does not fit, else refused |
| MachineEffects.AddPutsSum | zkmemory/src/machine.rs:782-797 | on aligned registers the first becomes the sum of both words and no other cell changes, or the sum is refused and nothing changes |
| MachineEffects.PushIsRecorded | zkmemory/src/machine.rs:363-381 | the whole new state of a push: the slot at the old depth, and a write record with the new depth |
| MachineEffects.PopIsRecorded | zkmemory/src/machine.rs:384-399 | the whole new state of a pop: nothing stored, and a read record with the new depth |
| MachineEffects.OverflowIsPastEnd | zkmemory/src/machine.rs:349-352 | a checking build refuses exactly the accesses that reach past the end of the space |
| MachineRecords.StepRecords | zkmemory/src/machine.rs:708-798 | the kind, cell and stack depth of every record an instruction leaves, in order, from its addresses and the depth before it |
| MachineRecords.RunRecords | zkmemory/src/machine.rs:708-798 | so for a whole run: the trace is what the program says, up to times and values, given which sums were refused |
| MachineRecords.DepthIsBalance | zkmemory/src/machine.rs:363-399 | the depth in force is the pushes so far less the pops, those inside swaps included |
| MachineRecords.StepCounts | zkmemory/src/machine.rs:708-798 | how many records an instruction leaves follows from its addresses and the stack depth, but for one record less when a sum is refused |
| MachineRecords.RunCounts | zkmemory/src/machine.rs:708-798 | the length of a fresh run's trace is the program's count, less the sums it refused |
| MachineRecords.NothingRefused | zkmemory/src/machine.rs:782-797 | a wrapping build refuses no sum, and neither does a program without additions |
| Config.MemoryAllocation.AddFixedSection | zkmemory/src/config.rs:102-108 | the new section starts after the last one and a buffer, and has the given size |
| Config.MemoryAllocation.AddSection | zkmemory/src/config.rs:110-115 | the new section starts after the last one and a buffer, and ends where asked |
| Config.MemoryAllocation.SetOffset | zkmemory/src/config.rs:117-123 | every section moves by the offset |
| Config.NewConfig | zkmemory/src/config.rs:130-163 | both layouts keep the sections apart by the buffer, word-aligned and inside the address space, and leave less than a word of it unused |
| ProvableRuns.RunAndBuild | zkmemory/src/machine.rs:182-353 | a B256 run, in either layout and with unchecked accesses, builds exactly when it recorded 1 to 2^16 - 1 accesses; the witness is satisfied exactly when the run read no cell before writing it; from a fresh machine both the count, less the sums refused, and the condition are read off the program |
| HashChain.FoldLastTwo | zkmemory/src/nova/memory_consistency_circuit.rs:230-243 | popping two cells and pushing their hash keeps the chain |
| HashChain.MerkleTreeCommit | zkmemory/src/nova/memory_consistency_circuit.rs:223-244 | the nested loops end, never pop an empty vector and compute the hash chain for every length |
| HashChain.CommitmentBinds | zkmemory/src/nova/memory_consistency_circuit.rs:223-244 | different memories of one length with one commitment yield two colliding inputs of the pair hash |
| OnlineMemory.ReplayConcatenates | zkmemory/src/nova/memory_consistency_circuit.rs:80-182 | replaying two traces in a row is replaying their concatenation |
| OnlineMemory.LookupResult | zkmemory/src/nova/memory_consistency_circuit.rs:114-125 | the count is one exactly for addresses of cells, else zero |
| OnlineMemory.GetMemoryAddress | zkmemory/src/nova/memory_consistency_circuit.rs:259-271 | the weighted sum is the addressed cell, or zero |
| OnlineMemory.NewMemoryCellChooses | zkmemory/src/nova/memory_consistency_circuit.rs:246-257 | the expression picks the value at the address and the old cell elsewhere |
| OnlineMemory.NewMemory | zkmemory/src/nova/memory_consistency_circuit.rs:160-173 | the rebuilt memory is the old one overwritten at the address |
| OnlineMemory.AcceptedReadKeepsMemory | zkmemory/src/nova/memory_consistency_circuit.rs:145-173 | an accepted read leaves the memory as it was |
| Nova.ReadConstraints | zkmemory/src/nova/memory_consistency_circuit.rs:145-159 | the two instruction constraints say: a 0/1 instruction, and a read returns the cell |
| Nova.SynthesizeRecord | zkmemory/src/nova/memory_consistency_circuit.rs:80-182 | one record's constraints hold exactly for a right commitment and an acceptable record |
| Nova.Synthesize | zkmemory/src/nova/memory_consistency_circuit.rs:65-185 | a step's constraints hold exactly when the commitment is right and the records replay; the output is the replayed memory and its commitment |
| Nova.SmallSteps | zkmemory/src/nova/memory_consistency_circuit.rs:65-185 | from any state, a step of no record demands and changes nothing, and one of one record demands the commitment and an acceptable record |
| Nova.ChainIsOneStep | zkmemory/src/nova/memory_consistency_circuit.rs:61-185 | however a trace is cut into steps, the chain is the one step of the whole trace |
| Supernova.SynthesizeRead | zkmemory/src/supernova/memory_consistency_circuit.rs:66-138 | the read circuit's constraints, outputs and next instruction |
| Supernova.SynthesizeWrite | zkmemory/src/supernova/memory_consistency_circuit.rs:217-280 | the write circuit's constraints, outputs and next instruction |
| Supernova.ReadChecks | zkmemory/src/supernova/memory_consistency_circuit.rs:66-138 | from any state, a read circuit checks the commitment and the cell, and changes nothing |
| Supernova.WriteCommits | zkmemory/src/supernova/memory_consistency_circuit.rs:217-280 | from any state, a write circuit checks its address only, and leaves a right commitment |
| Supernova.NewCircuits | zkmemory/src/supernova/memory_consistency_circuit.rs:353-408 | a dummy read, then one circuit for each step |
| Supernova.ProgramCounterChain | zkmemory/src/supernova/memory_consistency_circuit.rs:353-408 | a run of 0/1 instructions starts at circuit 0, each circuit announces the index of the next one, and the last of a whole trace announces 2 |
| Supernova.CommitmentStaysValid | zkmemory/src/supernova/memory_consistency_circuit.rs:97-101 | the commitment is valid after every step although only reads check it |
| Supernova.CircuitIsRecord | zkmemory/src/supernova/memory_consistency_circuit.rs:66-280 | on a committed state a circuit chosen by its counter accepts, and does, what the record says |
| Supernova.RunIsReplay | zkmemory/src/supernova/memory_consistency_circuit.rs:66-280 | from a committed state a run accepts exactly the traces that replay |
| Supernova.RunEndsInReplay | zkmemory/src/supernova/memory_consistency_circuit.rs:66-280 | an accepted run ends in the replayed memory and its commitment |
| Supernova.CircuitsStateTrace | zkmemory/src/supernova/memory_consistency_circuit.rs:353-408 | the circuits built from the three vectors state the trace, access by access |
| Supernova.SupernovaIsNova | zkmemory/src/supernova/memory_consistency_circuit.rs:353-408 | a whole run accepts exactly what Nova accepts from a right commitment, with the same final state |
| OfflineOnline.RecordMirrors | zkmemory/src/nova/memory_consistency_circuit.rs:80-182 | an embedded record is accepted exactly when it writes or returns the replayed cell, and keeps the mirror |
| OfflineOnline.OnlineMeans | zkmemory/src/nova/memory_consistency_circuit.rs:80-185 | online acceptance is: every read returns what earlier writes left in the initial memory |
| OfflineOnline.OfflineIsOnline | zkmemory/src/nova/memory_consistency_circuit.rs:80-185 | for traces that write every cell first, offline consistency is online acceptance from any memory |
| OfflineOnline.OfflineImpliesOnline | zkmemory/src/zincplus/uair.rs:400-474 | what the offline check accepts replays from every memory |
| OfflineOnline.BuildAndCompare | zkmemory/src/zincplus/uair.rs:642-848 | the built witness satisfies the UAIR exactly when the Nova constraints hold on the same records |
| Matrices.InverseUndoes | poseidon/src/poseidon_hash.rs:29-30 | multiplying by a matrix and then by its left inverse gives the vector back |
| PoseidonPermutation.MixLayer | poseidon/src/poseidon_hash.rs:198-206 | the state becomes its product with the matrix, in place |
| PoseidonPermutation.FullRoundInPlace | poseidon/src/poseidon_hash.rs:208-219 | constants, S-box on every word, matrix, in place |
| PoseidonPermutation.PartialRoundInPlace | poseidon/src/poseidon_hash.rs:221-230 | constants, S-box on the first word only, matrix, in place |
| PoseidonPermutation.PermuteInPlace | poseidon/src/poseidon_hash.rs:188-241 | the three loops run the rounds of the schedule, each constant once |
| PoseidonPermutation.RoundsAreInjective | poseidon/src/poseidon_hash.rs:208-241 | any number of rounds maps different states to different states |
| PoseidonPermutation.PermuteIsInjective | poseidon/src/poseidon_hash.rs:188-241 | with an invertible matrix and an injective S-box, two states permute to the same one exactly when they are equal |
| PoseidonSponge.AbsorbOneMore | poseidon/src/poseidon_hash.rs:163-183 | absorbing one more chunk at the end is one more add and permutation |
| PoseidonSponge.SpongeStep | poseidon/src/poseidon_hash.rs:163-183 | input added to the rate words, permutation, rate words offered as output |
| PoseidonSponge.Sponge.constructor | poseidon/src/poseidon_hash.rs:111-122 | zero words and the capacity element, nothing absorbed |
| PoseidonSponge.Sponge.Absorb | poseidon/src/poseidon_hash.rs:126-142 | the absorbed words grow by the value; whole chunks are permuted in when the slots are full |
| PoseidonSponge.Sponge.FinishAbsorbing | poseidon/src/poseidon_hash.rs:145-160 | the state is the fold of all absorbed chunks |
| PoseidonSponge.Sponge.Squeeze | poseidon/src/poseidon_hash.rs:247-264 | the n-th squeeze returns word n mod R after n div R more permutations |
| PoseidonSponge.SqueezedInOrder | poseidon/src/poseidon_hash.rs:247-264 | each permutation offers its R rate words, first to last |
| PoseidonSponge.LastChunkIsFull | poseidon/src/poseidon_hash.rs:56-60 | padding fills the last chunk, so finishing never meets an empty slot |
| PoseidonSponge.Hash | poseidon/src/poseidon_hash.rs:295-303 | for every length >= 1, word 0 after folding the zero-padded chunks from the capacity |
| PoseidonSponge.HashIsLastState | poseidon/src/poseidon_hash.rs:295-303 | the hash without padding or chunks: permutation k takes in the words from k * R on, zeros after the end, starting from L * 2^64 in the capacity word |
| PoseidonCircuit.Pow5IsPower | poseidon/src/circuit.rs:89-93 | the gates' S-box is the product of five equal factors |
| PoseidonCircuit.FullGateIsRound | poseidon/src/circuit.rs:95-115 | the full-round gate holds exactly when the next row is the full round |
| PoseidonCircuit.PartialGateIsTwoRounds | poseidon/src/circuit.rs:117-160 | the gate through the inverse matrix holds exactly when the next row is two partial rounds further |
| PoseidonCircuit.RowFollowsSchedule | poseidon/src/circuit.rs:313-349 | each row performs the next one or two rounds of the native schedule |
| PoseidonCircuit.GatesForcePermute | poseidon/src/circuit.rs:313-349 | whatever the cells, gates that hold end in the native permutation of the first row |
| PoseidonCircuit.AssignedRegionHolds | poseidon/src/gadgets.rs:265-375 | the assigned rows satisfy every gate and end in the native permutation |
| PoseidonCircuit.PadAndAddIsAddInput | poseidon/src/circuit.rs:162-188 | the pad-and-add gate holds exactly when the output row takes in the input |
| PoseidonCircuit.BlocksForceAbsorb | poseidon/src/gadgets.rs:176-187 | a chain of block cells ends in the fold of the chunks |
| PoseidonCircuit.ChipForcesHash | poseidon/src/gadgets.rs:47-66 | cells that satisfy the chip hold the native hash, for every length |
| PoseidonCircuit.ChipComputesHash | poseidon/src/gadgets.rs:47-66 | every message has satisfying cells, and they end in its hash |
| MerklePath.MerkleTreeCommitFp | zkmemory/src/commitment/merkle_tree.rs:360-373 | the loop computes the root of leaf, siblings and index bits |
| MerklePath.RootFromTop | zkmemory/src/commitment/merkle_tree.rs:360-373 | the last sibling is hashed last, on the right of what lies below it exactly when its index bit is 0 |
| MerklePath.SwapGateSwaps | zkmemory/src/commitment/merkle_tree.rs:80-98 | the gate holds exactly when the bit is boolean and the pair is passed or swapped by it |
| MerklePath.PathForcesRoot | zkmemory/src/commitment/merkle_tree.rs:164-239 | any satisfying cells have boolean bits and the native root, for every path length |
| MerklePath.PathProvesCommitment | zkmemory/src/commitment/merkle_tree.rs:164-239 | on machine integers: the indices are 0 or 1 and the public root is the native commitment |
| MerklePath.AssignedPathHolds | zkmemory/src/commitment/merkle_tree.rs:164-239 | the prover's cells satisfy the circuit exactly for bit indices and the native root |
| MerklePath.RootBinds | zkmemory/src/commitment/merkle_tree.rs:360-373 | paths of one shape to one root that differ in leaf or siblings yield two colliding inputs of the pair hash |

## Left out

- Proof systems (Zinc+, Zip+, KZG, IPA, Nova and SuperNova folding, transcripts, serialisation): only the relations that the circuits state are modelled.
- Prime sampling and reduction modulo the sampled prime in the UAIR: constraints are integer equations, as the file's own argument takes them.
- The Halo2 circuits under `zkmemory/src/constraints`: the UAIR states the same goal without a random combination.
- Verkle tree and KZG commitments, `libecvrf`, the `node` service, the command-line tools and migrations.
- Concrete Poseidon round constants and matrices: they are parameters.
- Instructions after a panic: the source stops there, the model goes on.
- Different address and value widths: word size and value width agree, as in every instance.
- Machine.StateMachine.constructor: an address space that is not a whole number of cells, at least two, is excluded; every instance of the program has one. The 64-bit clock is a natural.
- MachineStores.RunInSections: its instructions use registers of the file and load and save inside the memory section; the others are covered by `MachineFlat.RunIsFlat`.
- Config.NewConfig: address types too narrow for the sections and their buffers are excluded, where the source's arithmetic would overflow.
- Underconstrained witnesses of the folding circuits: their auxiliary cells are those that `synthesize` assigns.
- Rust's fixed-size arrays and ownership: an absorbing sponge turns into a squeezing one in place.
- `CommitmentScheme` wrappers of the Merkle path: `commit`, `open` and `verify` only call the modelled root.
- PoseidonSponge.Sponge.Squeeze: a rate of zero words, for which the source's loop never ends, is excluded.
- PoseidonSponge.Hash: the empty message is excluded, on which the source panics.
