# Verified models of the serving stack's core algorithms

This project models the parts of the repository where a mistake would be hard to see by reading one
function, and proves what each of them is for. It is written in Dafny 4.11; `dafny verify dfyconfig.toml`
checks all of it.

| module | what it models |
|---|---|
| `GraphPartition`, `ClosedProgram` | the backward pass that decides what each compiler partition takes in, frees and returns, together with a copy-in/copy-out execution of the partitions, and what a whole program needs from outside |
| `MemoryPlan` | the stack-disciplined memory planning pass over generated wrapper lines |
| `PrenormGemm`, `PrenormGemmBlockM`, `FusedMhc`, `Sinkhorn`, `SinkhornLaws`, `Sums` | the split-k and block-m pre-norm GEMM kernels, the fused post-mapping GEMM, the post-mapping kernel and the Sinkhorn normalisation |
| `PortRegistry`, `PortProtocol` | the cross-process port registry, first as operations on a file, then as a step system of any number of processes that may be killed at any point |
| `ChunkPlan`, `CumemAllocator` | the chunked device allocator (ROCm path) on a driver any of whose calls may fail |
| `ApplicationRequest`, `GraphExecutor` | the per-request bookkeeping of an application graph and the executor with bounded concurrency |
| `FlatLogprobs`, `SliceLaws`, `RequestOutput`, `OutputStream` | the packed log-probability container, the merge of streamed outputs, and what whole streams merge to |
| `BadWords`, `UtilizationWindow`, `Spinloop`, `Int8Quant` | bad-word suppression, the busiest-window search, the monitor/wait loop and the per-token quantiser |

State that the program changes in place is a class or an array here, loops are loops, and each such method
is tied to a function of the old state; the lemmas are about those functions. `Outcomes` holds the two
result datatypes, `Arithmetic` the facts about products and quotients that several modules need.

## Properties that turned out not to hold as one might expect

Each of these is a statement about the code as it is, with the exact condition under which the expected
property does hold.

- A backward step of the signature pass is the liveness equation if and only if no demanded output of the
  partition is an alias of another buffer (`StepIsLivenessIff`, `AliasedOutputStaysUnmet`).
- The layout test is not applied to freed names, so a freed buffer without layout becomes an input that
  nothing returns. A run succeeds if and only if nothing freed is wanted later and every freed buffer of another
  partition has a layout (`PartitionedRunPreservesMeaning`; `LayoutlessProgramFails` is a program that fails).
- A program whose every storage is produced before it is used needs nothing from outside if and only if no partition
  uses a storage of its own under a name that it does not produce (`NothingIsUnmetIff`; `ChainRunsFromNothing` and
  `AliasedUseIsNotItsOwn` are the two sides).
- The planning pass accepts exactly the lists in which every planning and exit line has an open subgraph and one
  state is left at the end (`MemoryPlanReuse`); among them is a list whose exit precedes its entry
  (`MisbracketedListIsAccepted`).
- A successor of the entry node that has another predecessor is queued twice: it runs twice, or its second
  submission fails. When every node can be reached and no task raises, a run completes if and only if every node
  with successors becomes runnable once and no node has parallel edges (`RunApplication`; `TriangleNeverCompletes`
  and `DeadEndIsSubmittable` are the two sides), and every node runs once if and only if the graph is simple
  (`CompleteRunCounts`). After a complete run a second request on the same graph object starts nothing, because the
  waiting list is the graph's own edge list (`SecondRequestRunsNothing`).
- A port reservation counts as unreleased for a moment after its registration has been removed. Only then can two
  unreleased reservations share a port (`UnreleasedReservationsAreSafe`), and a run of two processes does so
  (`ReleaseWindowIsReal`).
- The split-k sums are the full dot products if and only if the product of splits and threads divides the reduction
  length (`SplitsAddUpIff`), the block-m sums if and only if the threads do (`VisitedIsAllIff`); the fused kernel stores
  the whole residual under the same condition on the hidden size (`EveryPositionIsVisitedIff`).
- One warp writes the outputs of a tile, so the GEMM kernels write every output if and only if a tile has at most 32
  outputs or there are at most 32 in all (`EveryOutputIsWrittenIff`, `WideTileLosesOutputs`). The fused kernel also
  rounds the number of tiles down, and needs tiles of at most 32 that divide the outputs
  (`EveryFusedOutputIsWrittenIff`, `FusedTilingsLoseOutputs`).
- Rounding the chunk size up overflows, and the chunk count divides by zero, exactly when base chunk plus
  granularity exceeds 2^64 (`PlanChunks`); the guard on the environment variable does not prevent it
  (`LargestEnvironmentChunkOverflows`).
- A failed create or map step restores handles and mappings if and only if every clean-up call succeeds. With
  an error pending from before, or a failed context call, the first handle is lost (`CreateAndMap`).
- Slicing the flat container is slicing the list if and only if the slice selects something and goes upwards,
  selects one position, or selects only empty positions (`SliceAgreesIff`, `ReversedSliceFails`).
- Grouping streamed deltas gives what the single deltas give if and only if every group can be merged by itself or
  the whole stream fails anyway (`GroupingIff`, `GroupingCanFail`); streams with log-probabilities in all or none
  of the deltas are safe (`AllOrNoneStreamIsConcatenation`).
- A token that completes a bad word gets minus infinity if and only if its logit was finite or minus infinity; plus
  infinity becomes NaN (`BlockedLogitIff`).
- Quantised codes fit eight bits if and only if `bits` is at most 8 (`CodesFitIff`), and the zero point fits
  32 bits if and only if the row's minimum is below a multiple of the scale (`ZeroPointFitsIff`); a constant
  row of 30000 does not (`ConstantRowOverflowsZeroPoint`).

## Model

| member | source | states |
|---|---|---|
| `GraphPartition.GetGraphPartitionSignature` | vllm/env_override.py:210-336 | pairs partitions and flags from the back and returns the signature of every paired partition, or the error of the last partition one of whose returned names is unknown |
| `GraphPartition.SignPartitions` | vllm/env_override.py:235-336 | the reverse loop: the names still unmet at each point are those of the specification, and every signature is the one for those names |
| `GraphPartition.PartitionSignature` | vllm/env_override.py:238-334 | one iteration computes the signature of the partition and the names unmet before it |
| `GraphPartition.CollectNames` | vllm/env_override.py:238-270 | the two node loops collect exactly the produced and the freed names |
| `GraphPartition.LayoutTestIff` | vllm/env_override.py:215-233 | a buffer counts as layout-less if and only if it has no layout and, when it is a mutation output with a real name, the real buffer has none either |
| `GraphPartition.InputNamesIff` | vllm/env_override.py:245-280 | a name is taken in if and only if some node uses its storage under a name that no node of the partition produces, or frees it as a known node that the partition does not produce |
| `GraphPartition.SignatureLists` | vllm/env_override.py:282-328 | node by node, what the five parts of a signature list: inputs, which of them are freed, outputs, the flag and the constants |
| `GraphPartition.ScheduledProgramHasLookups` | vllm/env_override.py:309-313 | on every program as the scheduler guarantees it, every returned name with storage is a known node |
| `GraphPartition.PassSignsScheduledProgram` | vllm/env_override.py:210-336 | so the pass succeeds there, and its signatures are those by which the run calls the partitions |
| `GraphPartition.StepIsLivenessIff` | vllm/env_override.py:243-334 | the new unmet set is inputs plus (unmet minus outputs) if and only if no demanded output is an alias |
| `GraphPartition.UnmetIsLiveness` | vllm/env_override.py:332-334 | when demanded names are canonical, a name is unmet before partition k exactly when some later partition or the caller demands it and no partition in between produces it |
| `GraphPartition.ReturnedIsLiveOrKept` | vllm/env_override.py:293-307 | a name is returned exactly when it is produced and live later, or is an input that is not freed |
| `GraphPartition.AliasedOutputStaysUnmet` | vllm/env_override.py:305-334 | a demanded output that is an alias stays unmet although its own partition produces it |
| `GraphPartition.PartitionedRunPreservesMeaning` | vllm/env_override.py:210-336 | from any store of allocated buffers with the unmet names, running the partitions by their signatures succeeds if and only if nothing freed is wanted later and nothing freed lacks a layout, and then every graph output has the contents the unpartitioned program gives it |
| `GraphPartition.StoredRunPreservesMeaning` | vllm/env_override.py:210-336 | the same from any partition on, when freed buffers have layouts: success if and only if nothing freed is wanted later |
| `GraphPartition.CallKeepsUnmet` | vllm/env_override.py:282-334 | one partition call turns a store that has the names unmet before it into one that has the names unmet after it, all with the right contents |
| `GraphPartition.LocalRun` | vllm/env_override.py:245-291 | inside a call no node misses a buffer it needs, and every buffer held agrees with the unpartitioned program |
| `GraphPartition.MissingStorageStops` | vllm/env_override.py:282-291 | a call stops at a node that uses a storage which is neither there nor its own product |
| `GraphPartition.FreedLiveNameFails` | vllm/env_override.py:268-291 | freeing a name that is still wanted makes the rest of the run fail, whatever the store |
| `GraphPartition.MissingStaysMissing` | vllm/env_override.py:282-291 | an unmet name absent from the store is never recovered |
| `GraphPartition.FreedLayoutlessBufferFails` | vllm/env_override.py:272-286 | a freed layout-less buffer produced elsewhere makes every run fail, since no partition returns it |
| `GraphPartition.LayoutlessProgramIsScheduled` | vllm/env_override.py:268-286 | a two-partition program whose second partition uses a layout-less buffer for the last time meets everything the scheduler guarantees, and nothing it frees is wanted later |
| `GraphPartition.LayoutlessProgramFails` | vllm/env_override.py:272-286 | that program fails for every node semantics |
| `ClosedProgram.NothingIsUnmetIff` | vllm/env_override.py:251-334 | in a program whose every storage is produced before it is used, freed or returned, or is constant or given, nothing else is unmet at the start if and only if partitions use their own storages under names they produce |
| `ClosedProgram.UnmetIsThereAtStart` | vllm/env_override.py:251-334 | the names unmet before any partition are there by then: constants, given, or produced by an earlier partition |
| `ClosedProgram.StaysUnmet` | vllm/env_override.py:332-334 | a name stays unmet over partitions that do not produce it |
| `ClosedProgram.FreesAreDeadIff` | vllm/env_override.py:268-334 | nothing freed is wanted later, in the terms of the pass, if and only if no freed name is a graph output or used or freed by a later partition |
| `ClosedProgram.ClosedProgramRunsIff` | vllm/env_override.py:210-336 | such a program runs to the end from the given buffers if and only if freed names are not used again and have layouts, with the results of the unpartitioned program |
| `ClosedProgram.ClosedProgramRunsFromNothing` | vllm/env_override.py:210-336 | a program that needs nothing from outside runs from an empty store |
| `ClosedProgram.ChainRunsFromNothing` | vllm/env_override.py:235-336 | a two-partition chain does |
| `ClosedProgram.AliasedUseIsNotItsOwn` | vllm/env_override.py:253-266 | a partition that uses its own product under an alias wants it before it is produced |
| `MemoryPlan.Wrapper.MemoryPlanReuse` | vllm/env_override.py:166-186 | succeeds if and only if the trimmed list is plannable, and then holds the trimmed lines, each planned with the state on top of the stack; the final assertion fails if and only if a subgraph is left open |
| `MemoryPlan.Wrapper.PlanLines` | vllm/env_override.py:175-184 | the planning loop stops with an error exactly when it consults or pops an empty stack, and otherwise leaves the specified stack and lines |
| `MemoryPlan.Wrapper.PlanOne` | vllm/env_override.py:178-184 | one line: planned, pushed, popped or left alone, or an index error on an empty stack |
| `MemoryPlan.Trimmed` | vllm/env_override.py:166-172 | what remains is a prefix; everything removed is a planning line of a non-output buffer, and the last remaining line is not |
| `MemoryPlan.PassesMeansDepth` | vllm/env_override.py:177-186 | the loop passes exactly when every planning and exit line has an open subgraph, and then the stack height is the nesting depth |
| `MemoryPlan.StatesAreOpenSubgraphs` | vllm/env_override.py:181-184 | the stack lists the open subgraphs, each at its own depth |
| `MemoryPlan.PlannedWithInnermostState` | vllm/env_override.py:179-184 | in a well-bracketed list each planning line gets the state of its innermost enclosing subgraph |
| `MemoryPlan.OtherLinesStay` | vllm/env_override.py:177-184 | lines that plan nothing stay as they are |
| `MemoryPlan.TrimmingKeepsBracketing` | vllm/env_override.py:166-172 | the trimmed list is well bracketed if and only if the original is |
| `MemoryPlan.WellBracketedIsPlannable` | vllm/env_override.py:166-186 | every well-bracketed list is planned without an error, final assertion included |
| `MemoryPlan.MisbracketedListIsAccepted` | vllm/env_override.py:185-186 | an exit before its entry is accepted too |
| `PrenormGemm.ThreadLoop` | vllm/_tilelang_ops.py:574-582 | one thread accumulates every n_thr-th product of its split for each output of its tile, nothing beyond the last output, and squares in the first tile only |
| `PrenormGemm.Accumulate` | vllm/_tilelang_ops.py:576-580 | one element times the matching weights is added to the outputs of the tile that exist, and to no others |
| `PrenormGemm.ThreadsCoverSlice` | vllm/_tilelang_ops.py:574-576 | the threads' partial sums add up to the sum over the slice |
| `PrenormGemm.WarpReduceSum` | vllm/_tilelang_ops.py:584-587 | the warp's values are added up |
| `PrenormGemm.WarpsCoverThreads` | vllm/_tilelang_ops.py:589-600 | the warp sums add up to the sum over all threads |
| `PrenormGemm.ReduceAcrossWarps` | vllm/_tilelang_ops.py:595-614 | warp sums, stored by lane 0 and added by one thread, are the sum over all threads |
| `PrenormGemm.GemmBlock` | vllm/_tilelang_ops.py:560-614 | one block writes the partial dot products of its tile as far as one warp has lanes and, in the first tile, its partial square sum, and changes no other cell |
| `PrenormGemm.HcPrenormGemm` | vllm/_tilelang_ops.py:537-617 | for every tile width and the blocks in any order, every written output holds its split's partial sum, the others keep their value, and every square sum is written if there are outputs; ragged last tile included |
| `PrenormGemm.EveryOutputIsWrittenIff` | vllm/_tilelang_ops.py:602-609 | every output is written if and only if a tile has at most 32 outputs or there are at most 32 outputs |
| `PrenormGemm.WideTileLosesOutputs` | vllm/_tilelang_ops.py:602-609 | with a tile of 64 the upper 32 of 64 outputs are never written |
| `PrenormGemm.TileOfOutput` | vllm/_tilelang_ops.py:553-579 | every output lies in exactly one tile of the grid |
| `PrenormGemm.SplitsAddUp` | vllm/_tilelang_ops.py:549-557 | the partial sums over the splits are the full dot product |
| `PrenormGemm.SplitsAddUpIff` | vllm/_tilelang_ops.py:549-553 | they are so for all inputs if and only if the splits divide the reduction length and the threads divide a split, that is, their product divides the length |
| `PrenormGemm.DotPicks` | vllm/_tilelang_ops.py:574-582 | the dot product with a unit row is the element it marks |
| `PrenormGemm.DotCommutes` | vllm/_tilelang_ops.py:574-582 | the dot product is symmetric |
| `PrenormGemm.DotAddsUp` | vllm/_tilelang_ops.py:574-582 | it is additive |
| `PrenormGemm.DotScales` | vllm/_tilelang_ops.py:574-582 | and homogeneous |
| `PrenormGemmBlockM.ThreadLoopM` | vllm/_tilelang_ops.py:656-672 | one thread accumulates its share for every token of its block; missing tokens and outputs contribute nothing |
| `PrenormGemmBlockM.BlockMBlock` | vllm/_tilelang_ops.py:646-709 | one block writes the outputs of its tokens and tile as far as one warp has lanes, and nothing else |
| `PrenormGemmBlockM.HcPrenormGemmBlockM` | vllm/_tilelang_ops.py:623-712 | for every tile width and the blocks in any order, every written output of every token holds its dot product, the others keep their value, and every square sum is written if there are outputs; ragged last tiles included |
| `PrenormGemmBlockM.VisitedIsAllIff` | vllm/_tilelang_ops.py:636-657 | the sums cover the whole reduction for all inputs if and only if the thread count divides its length |
| `PrenormGemmBlockM.BothKernelsAgree` | vllm/_tilelang_ops.py:537-712 | when the thread count divides the length, the block-m sums equal the full dot products and the split-k sums added up |
| `FusedMhc.PostCell` | vllm/_tilelang_ops.py:524-527 | the inner loop yields the post weight times the layer output plus the mixed past residual |
| `FusedMhc.MhcPost` | vllm/_tilelang_ops.py:503-529 | every cell of the new residual is the post-mapping: the weighted layer output where nothing is mixed in, one channel carried into another by a single mixing cell, and additive in post weights and mixing matrix |
| `FusedMhc.PostWithoutResidual` | vllm/_tilelang_ops.py:524-527 | without past residual the post-mapping is the post weight times the layer output |
| `FusedMhc.PostOfOneCell` | vllm/_tilelang_ops.py:526-527 | without post weights a single mixing cell carries one channel of the past residual into another |
| `FusedMhc.PostAddsUp` | vllm/_tilelang_ops.py:524-527 | the post-mapping is additive in post weights and mixing matrix |
| `FusedMhc.FusedThread` | vllm/_tilelang_ops.py:428-446 | one thread of the fused kernel stores the post-mapping at the positions it visits (first tile only) and accumulates its shares of the GEMM and of the squares |
| `FusedMhc.FusedBlock` | vllm/_tilelang_ops.py:396-473 | one block writes the partial outputs of its tile as far as one warp has lanes and, in the first tile, its partial square sum and its slice of the residual; nothing else |
| `FusedMhc.MhcFused` | vllm/_tilelang_ops.py:359-476 | for every configuration and the blocks in any order, every written output holds its split's partial GEMM and, if there is a tile, every split its square sum and every visited residual cell what `mhc_post_tilelang` writes, with the same three laws; everything else keeps its value |
| `FusedMhc.EveryFusedOutputIsWrittenIff` | vllm/_tilelang_ops.py:382-467 | every output is written if and only if a tile has at most 32 outputs and the tiles divide the outputs |
| `FusedMhc.FusedTilingsLoseOutputs` | vllm/_tilelang_ops.py:382-467 | tiles of 5 lose the last 4 of 24 outputs, a tile of 64 the upper 32 |
| `FusedMhc.BlockVisitsSlice` | vllm/_tilelang_ops.py:427-429 | the threads of a block visit exactly the positions of its slice |
| `FusedMhc.VisitIsUnique` | vllm/_tilelang_ops.py:413-429 | a position is visited by one thread of one split in one iteration, so each residual cell is stored once |
| `FusedMhc.EveryPositionIsVisitedIff` | vllm/_tilelang_ops.py:381-429 | every position is visited if and only if the splits divide the hidden size and the threads divide a split |
| `FusedMhc.DotOfFlattened` | vllm/_tilelang_ops.py:443-446 | a dot product of flattened matrices is the sum over positions of the sums over channels |
| `FusedMhc.FusedGemmIsGemmOfPost` | vllm/_tilelang_ops.py:443-467 | the fused outputs summed over the splits are the dot products of the weights with the flattened post-mapped residual |
| `FusedMhc.FusedSquaresAreSquaresOfPost` | vllm/_tilelang_ops.py:437-473 | the fused square sums summed over the splits are the square sum of the post-mapped residual |
| `FusedMhc.FusedIsPostThenGemm` | vllm/_tilelang_ops.py:393-617 | the fused kernel equals the post-mapping kernel followed by the split-k GEMM kernel, whatever tiling each uses |
| `Sinkhorn.Softmax` | vllm/_tilelang_ops.py:130-137 | row maxima, exponentials and row sums leave the softmax plus eps in place |
| `Sinkhorn.NormaliseRows` | vllm/_tilelang_ops.py:145-148 | every cell is divided by its row sum plus eps |
| `Sinkhorn.NormaliseColumns` | vllm/_tilelang_ops.py:139-142 | every cell is divided by its column sum plus eps |
| `Sinkhorn.SinkhornForward` | vllm/_tilelang_ops.py:126-153 | the whole in-place loop computes the specified number of rounds |
| `Sinkhorn.StepsKeepPositive` | vllm/_tilelang_ops.py:139-153 | row and column steps keep every entry positive |
| `Sinkhorn.ColumnSumAfterStep` | vllm/_tilelang_ops.py:151-153 | a column step turns the column sum c into c / (c + eps) |
| `Sinkhorn.ResultIsPositiveAndNormalised` | vllm/_tilelang_ops.py:126-157 | for all scores and repeats the result is positive and every column sum is at most 1, and 1 if and only if eps is 0 |
| `Sinkhorn.FixedPointIff` | vllm/_tilelang_ops.py:144-153 | without eps a further round changes nothing if and only if the matrix is doubly stochastic |
| `SinkhornLaws.FirstRepeat` | vllm/_tilelang_ops.py:130-142 | up to one repeat the result is a row softmax plus eps with its columns divided by their sums plus eps |
| `SinkhornLaws.NextRepeat` | vllm/_tilelang_ops.py:144-153 | every further repeat divides the rows of the result so far, and then the columns |
| `SinkhornLaws.SoftmaxIsSoftmax` | vllm/_tilelang_ops.py:130-137 | every cell is eps more than its share of its row's exponentials, shifted by the row's maximum |
| `SinkhornLaws.StepsDivide` | vllm/_tilelang_ops.py:139-153 | a step's cells, times the sums plus eps, are the cells before |
| `SinkhornLaws.RowDivisionIsUnique` | vllm/_tilelang_ops.py:145-148 | on a positive matrix these equations have one solution for rows |
| `SinkhornLaws.ColumnDivisionIsUnique` | vllm/_tilelang_ops.py:150-153 | and one for columns |
| `PortRegistry.CleanPortRegistry` | ae/figure_13_parrot.py:307-320 | exactly the entries of live processes remain, and their ports are returned unless a key is not a number |
| `PortRegistry.SelectPair` | ae/figure_13_parrot.py:388-394 | the loop selects what the specification selects |
| `PortRegistry.SelectIsFirstUsable` | ae/figure_13_parrot.py:388-400 | the selection is the first usable candidate, and there is none if and only if none is usable |
| `PortRegistry.RegistryFile.ReserveParrotPorts` | ae/figure_13_parrot.py:355-423 | writes the cleaned registry with two new entries and returns a reservation of them, or fails and leaves the file alone |
| `PortRegistry.PortReservation.Release` | ae/figure_13_parrot.py:331-348 | removes the two entries if they still belong to this process; a second release changes nothing |
| `PortRegistry.ReserveTakesFreshPorts` | ae/figure_13_parrot.py:366-418 | the ports taken differ, can be bound, are registered to the caller, belong to no live holder, and every live holder stays registered |
| `PortRegistry.ReleaseKeepsOthers` | ae/figure_13_parrot.py:339-346 | a release keeps every other holder's registration |
| `PortRegistry.ReserveReclaims` | ae/figure_13_parrot.py:310-319 | no entry of a dead process survives a reservation |
| `PortRegistry.AutomaticPairsAreNeighbours` | ae/figure_13_parrot.py:372-386 | automatically chosen pairs are neighbouring ports inside the searched range |
| `PortRegistry.CandidatesIff` | ae/figure_13_parrot.py:372-386 | the candidates are exactly the pairs with the requested ports, and otherwise ports of the searched range |
| `PortRegistry.ReserveTakesSmallest` | ae/figure_13_parrot.py:372-418 | a reservation honours the requested ports and takes the smallest free ones of the range for the others |
| `PortRegistry.ReserveFailsIff` | ae/figure_13_parrot.py:355-400 | when a reservation fails, and with which error: no free pair exactly when no eligible pair has two different ports that nobody alive has and that can be bound |
| `PortRegistry.ReserveWrites` | ae/figure_13_parrot.py:402-418 | what a reservation writes: the live entries as they were and the two new ones |
| `PortRegistry.ReleaseWrites` | ae/figure_13_parrot.py:339-346 | what a release writes: everything but the two entries, if they are its own |
| `PortProtocol.StepIsSafe` | ae/figure_13_parrot.py:331-423 | every step of any process, kills and exceptions included, keeps the invariant |
| `PortProtocol.EveryRunIsSafe` | ae/figure_13_parrot.py:331-423 | in every state of every run no two claims share a port, and every claimed port is in the file under its claimant's pid |
| `PortProtocol.UnreleasedReservationsAreSafe` | ae/figure_13_parrot.py:331-423 | in every state of every run an unreleased reservation outside its release window is registered to its process, and two unreleased reservations of live processes share a port only while one of them is in its release window |
| `PortProtocol.ReleaseWindowIsReal` | ae/figure_13_parrot.py:346-348 | a run of two processes from an empty registry ends with both holding unreleased reservations of the same ports |
| `ChunkPlan.BaseChunk` | csrc/cumem_allocator.cpp:24-42 | the chunk size from the environment is positive and fits 64 bits |
| `ChunkPlan.BaseChunkIsWhole` | csrc/cumem_allocator.cpp:24-42 | it is the setting in megabytes when that is usable, and 256 MB otherwise |
| `ChunkPlan.PlanChunks` | csrc/cumem_allocator.cpp:319-369 | divides by zero if and only if base chunk plus granularity exceeds 2^64; otherwise every chunk starts inside the allocation and is a whole chunk or the rest |
| `ChunkPlan.NextChunk` | csrc/cumem_allocator.cpp:366-368 | the 64-bit size expression does not wrap and gives the whole chunk or the rest |
| `ChunkPlan.AlignUpBounds` | csrc/cumem_allocator.cpp:319-346 | rounding up gives the next multiple when the sum does not overflow and zero when it does |
| `ChunkPlan.AlignUpIsMultiple` | csrc/cumem_allocator.cpp:319-346 | the result is a multiple of the granularity, overflow or not |
| `ChunkPlan.ChunksBefore` | csrc/cumem_allocator.cpp:354-369 | the first n chunks cover n whole chunks or everything |
| `ChunkPlan.ChunksAddUpIff` | csrc/cumem_allocator.cpp:347-369 | the chunks add up to the aligned size if and only if counting them does not overflow |
| `ChunkPlan.ChunksAreAligned` | csrc/cumem_allocator.cpp:319-369 | without overflow every chunk is a positive multiple of the granularity and they sum to the size rounded up |
| `ChunkPlan.LargestEnvironmentChunkOverflows` | csrc/cumem_allocator.cpp:34-41 | the largest chunk size that the environment guard admits overflows on a granularity of 2 MB |
| `CumemAllocator.ReleaseHandles` | csrc/cumem_allocator.cpp:228-233 | all releases are tried; the handles whose release failed remain, and the first error is reported |
| `CumemAllocator.UnmapChunks` | csrc/cumem_allocator.cpp:216-226 | unmapping visits the addresses at which the chunks were mapped, whatever the status of each call |
| `CumemAllocator.TilesAreContiguous` | csrc/cumem_allocator.cpp:160-179 | mapped chunks lie in the reserved range, do not overlap and leave no gap |
| `CumemAllocator.TilesAreChunks` | csrc/cumem_allocator.cpp:160-179 | the mapped chunks are exactly: chunk i where the earlier ones end, with its size and the i-th handle |
| `CumemAllocator.ChunksAreBacked` | csrc/cumem_allocator.cpp:150-179 | new mappings and new handles correspond one to one |
| `CumemAllocator.HandlesBackOneChunk` | csrc/cumem_allocator.cpp:160-179 | different chunks have different handles and addresses |
| `CumemAllocator.FirstFaultIsFirst` | csrc/cumem_allocator.cpp:217-233 | the error reported is that of the first call that failed |
| `CumemAllocator.UnmapRemovesTiles` | csrc/cumem_allocator.cpp:165-171 | unmapping removes exactly the chunks whose call succeeds and no older mapping |
| `CumemAllocator.Allocator.CreateChunks` | csrc/cumem_allocator.cpp:150-159 | succeeds if and only if no error is pending and no create call fails (or there is nothing to create); otherwise says which call failed, and that the handles made before are released except those whose release fails |
| `CumemAllocator.Allocator.MapChunks` | csrc/cumem_allocator.cpp:160-179 | succeeds if and only if no map call fails; otherwise says which call failed, and that the mapped chunks are unmapped and all handles released except where a clean-up call fails |
| `CumemAllocator.Allocator.MapAndGrant` | csrc/cumem_allocator.cpp:160-190 | the map loop and the access call: everything mapped and the access status in the error code, or the failing map call named, and everything restored if and only if no clean-up call fails |
| `CumemAllocator.Allocator.CreateAndMap` | csrc/cumem_allocator.cpp:150-190 | the outcome, the number of driver calls and the error code are those of the fault oracle; succeeds if and only if no error is pending and none of its calls fails, and then chunk i is mapped with the i-th new handle; a failed create or map step restores handles and mappings if and only if every clean-up call succeeds; a failed access call rolls nothing back; an error pending loses the first handle |
| `CumemAllocator.OutcomeIsDetermined` | csrc/cumem_allocator.cpp:150-190 | which calls fail and the pending error decide outcome, number of calls and error code |
| `CumemAllocator.MapRollbackIff` | csrc/cumem_allocator.cpp:165-175 | unmapping the mapped chunks and releasing all handles leaves the earlier handles and mappings if and only if none of these calls fails |
| `CumemAllocator.Allocator.UnmapAndRelease` | csrc/cumem_allocator.cpp:205-238 | every unmap and release is tried and the first error becomes the error code |
| `CumemAllocator.Allocator.RoundTrip` | csrc/cumem_allocator.cpp:150-238 | after creating and mapping, unmapping and releasing restores handles and mappings if and only if none of the unmap and release calls fails |
| `ApplicationRequest.RequestObject.constructor` | agent/app/request.py:25-37 | the entry node has finished and its successors wait with the prompt |
| `ApplicationRequest.WaitingReadyIff` | agent/app/request.py:49-59 | a waiting node passes the checks of `get_node_input` if and only if its predecessors other than the entry node have finished |
| `ApplicationRequest.RequestObject.SubmitOutput` | agent/app/request.py:73-121 | moves the node from waiting to finished and delivers its output to every successor, or fails at the assertion or lookup the specification names and leaves what had been changed before |
| `ApplicationRequest.RequestObject.DeliverTo` | agent/app/request.py:108-121 | one delivery fails and changes nothing if this output is there already; otherwise it is added, and the successor waits if all its predecessors have finished |
| `ApplicationRequest.SharedListIsHarmless` | agent/app/request.py:29-59 | although the waiting list is the entry node's edge list, the predecessor test gives the same answer |
| `ApplicationRequest.StartIsValid` | agent/app/request.py:28-38 | a new request satisfies the invariant |
| `ApplicationRequest.StartDelivers` | agent/app/request.py:28-38 | at the start exactly the entry's successors have received the prompt |
| `ApplicationRequest.WithoutRemovesFirst` | agent/app/request.py:82 | the first occurrence is removed from the waiting list |
| `ApplicationRequest.DeliverInOrder` | agent/app/request.py:107-121 | the successors that have become runnable join the end of the waiting list in the order of the edges |
| `ApplicationRequest.SubmitFailsIff` | agent/app/request.py:78-113 | when a submission fails, with which error, and what it has done by then |
| `ApplicationRequest.DeliverEffect` | agent/app/request.py:107-121 | a round of deliveries succeeds if and only if successors are distinct and none has this output, and then each successor whose predecessors have finished waits once more |
| `ApplicationRequest.SubmitEffect` | agent/app/request.py:78-121 | submitting a waiting node with an input succeeds if and only if its successors are distinct and it has none or has not finished before |
| `ApplicationRequest.SubmitConserves` | agent/app/request.py:82-121 | waiting plus finished occurrences of a node equal the times it became runnable |
| `ApplicationRequest.SubmitKeepsOrder` | agent/app/request.py:82-83 | every node finishes after all its predecessors |
| `ApplicationRequest.SubmitKeepsValid` | agent/app/request.py:73-121 | a successful submission of a ready node keeps the whole invariant |
| `ApplicationRequest.ReadyStaysReady` | agent/app/request.py:56-59 | readiness is never lost |
| `ApplicationRequest.FinishedIsBounded` | agent/app/request.py:82-121 | finished plus waiting occurrences are bounded by the graph, so the executor's loop ends |
| `GraphExecutor.Executor.ScheduleReadyNodes` | ae/parrot_graph_client.py:310-328 | keeps running nodes distinct, ready, within the limit, equal to the tasks in flight and never the exit node, and leaves no node that could still be started |
| `GraphExecutor.Executor.StartTasks` | ae/parrot_graph_client.py:322-328 | tasks in flight hand in their nodes' inputs and change nothing else |
| `GraphExecutor.Executor.FinishTask` | ae/parrot_graph_client.py:344-346 | recording one output keeps the scheduling invariant; it succeeds if and only if the node's successors are distinct and it has none or has not finished before, so always on submittable graphs |
| `GraphExecutor.Executor.FinishAll` | ae/parrot_graph_client.py:335-346 | after the tasks that finished together the running list again equals the tasks in flight; it stops early only for a task that raised or on a graph that is not submittable |
| `GraphExecutor.Executor.RunApplication` | ae/parrot_graph_client.py:307-347 | terminates for every order of completions; when it ends normally nothing runs and nothing could be started; it stops early only for a task that raised or on a graph that is not submittable; on layered graphs without raising tasks it ends normally if and only if the graph is submittable |
| `GraphExecutor.AdmitFacts` | ae/parrot_graph_client.py:310-328 | a scheduling pass extends the running list and stops at the limit or with no eligible node left |
| `GraphExecutor.AdmitTakesFirst` | ae/parrot_graph_client.py:311-328 | first come, first served: what is left out although it could start stands behind everything started |
| `GraphExecutor.FinishKeepsRunning` | ae/parrot_graph_client.py:345-346 | a finished task leaves the rest of the running list ready and waiting |
| `GraphExecutor.SubmittableSubmitSucceeds` | ae/parrot_graph_client.py:345 | on a submittable graph no submission by the executor fails |
| `GraphExecutor.CompleteRunIsSubmittable` | ae/parrot_graph_client.py:330-347 | a run on a layered graph that has completed shows that the graph is submittable |
| `GraphExecutor.SimpleIsSubmittable` | ae/parrot_graph_client.py:330-347 | simple graphs are submittable |
| `GraphExecutor.SimpleRunsAtMostOnce` | ae/parrot_graph_client.py:330-347 | at every point of every run on a simple graph a node has run at most once and is not waiting to run again |
| `GraphExecutor.CompleteRunFinishes` | ae/parrot_graph_client.py:330-347 | on a layered graph every node but the exit has finished when the loop ends normally |
| `GraphExecutor.CompleteRunCounts` | ae/parrot_graph_client.py:330-347 | each node ran once per entry edge plus once if it has another predecessor; all ran once if and only if the graph is simple |
| `GraphExecutor.SecondRequestRunsNothing` | agent/app/request.py:29 | after a complete run a second request on the same graph starts no node |
| `GraphExecutor.TriangleIsLayered` | agent/app/request.py:107-121 | the smallest graph that is not simple is a legal graph in which node 2 becomes runnable twice |
| `GraphExecutor.TriangleNeverCompletes` | agent/app/request.py:111-113 | no run on it ever completes |
| `GraphExecutor.TriangleIsNotSubmittable` | agent/app/request.py:111-113 | it is layered and not submittable |
| `GraphExecutor.DeadEndIsSubmittable` | agent/app/request.py:107-121 | a graph whose twice-queued node has no successors is not simple and still completes |
| `FlatLogprobs.Container.AppendPairsLoop` | vllm/logprobs.py:85-93 | the parallel lists grow by the given pairs and one position |
| `FlatLogprobs.Container.Append` | vllm/logprobs.py:63-72 | the view gains the dictionary, or an empty one for None |
| `FlatLogprobs.Container.AppendFast` | vllm/logprobs.py:74-93 | the view gains the dictionary of the zipped lists |
| `FlatLogprobs.Container.AppendNextPosition` | vllm/logprobs.py:175-193 | the view gains the dictionary that the list-based container would get |
| `FlatLogprobs.Container.Extend` | vllm/logprobs.py:95-98 | the view gains every position in order |
| `FlatLogprobs.Container.ExtendFrom` | vllm/logprobs.py:95-98 | extending by a container, itself included, appends its old view |
| `FlatLogprobs.Container.Len` | vllm/logprobs.py:100-102 | the length of the view |
| `FlatLogprobs.Container.GetItem` | vllm/logprobs.py:110-120 | the view's element, negative positions counted from the end, or an index error exactly outside the range |
| `FlatLogprobs.Container.GetSlice` | vllm/logprobs.py:121-133 | a fresh container whose view is the slice of the view for positive steps and single positions; fails exactly for a zero step or an empty selection |
| `FlatLogprobs.Container.Iterate` | vllm/logprobs.py:146-152 | iteration yields the view |
| `FlatLogprobs.EveryHistoryAgrees` | vllm/logprobs.py:63-152 | after any history of appends, extensions and non-empty positive-step slices, slices of slices and appends to slices included, the container stands for the list of dictionaries that the same history gives |
| `FlatLogprobs.OperationAgrees` | vllm/logprobs.py:63-133 | one operation on the container is the same operation on the list of dictionaries |
| `FlatLogprobs.AppendAddsDict` | vllm/logprobs.py:63-93 | appending pairs adds their dictionary to the view and touches nothing else, also on slices with gaps |
| `FlatLogprobs.DictOfIsDict` | vllm/logprobs.py:113-120 | a position reads as a dictionary without duplicate keys |
| `FlatLogprobs.DictOfDict` | vllm/logprobs.py:66-71 | unpacking a dictionary and reading it back gives it unchanged, order included |
| `FlatLogprobs.LastDuplicateWins` | vllm/logprobs.py:186-190 | of several pairs with one token the last wins |
| `FlatLogprobs.SliceIsValid` | vllm/logprobs.py:121-133 | a non-empty slice with a positive step is again a valid container |
| `FlatLogprobs.SliceAgrees` | vllm/logprobs.py:121-133 | its view is the slice of the view |
| `FlatLogprobs.SliceAgreesIff` | vllm/logprobs.py:121-133 | for every non-zero step, the slice succeeds, can be read and is the slice of the list if and only if it selects something and goes upwards, selects one position, or selects only empty positions |
| `FlatLogprobs.NegativeStepSliceIff` | vllm/logprobs.py:121-133 | a slice of two or more positions with a negative step is the slice of the list if and only if all selected positions are empty |
| `FlatLogprobs.ValidReadsAsView` | vllm/logprobs.py:112-120 | reading a valid container position by position gives its view |
| `FlatLogprobs.ReversedSliceFails` | vllm/logprobs.py:121-133 | reversing two one-token positions gives a container that cannot be read, and selecting nothing raises where the list gives an empty list |
| `FlatLogprobs.IndexInRange` | vllm/logprobs.py:121-128 | every index that a slice selects lies in the sequence |
| `SliceLaws.PlainSlice` | vllm/logprobs.py:121-133 | the slice a:b of a list is its elements from a up to b |
| `SliceLaws.WholeSlice` | vllm/logprobs.py:121-133 | the slice without bounds is the list, and with step -1 the list backwards |
| `SliceLaws.SliceUpwards` | vllm/logprobs.py:121-133 | with a positive step: every step-th element from the first bound on, below the second |
| `SliceLaws.SliceDownwards` | vllm/logprobs.py:121-133 | with a negative step: every step-th element downwards, above the second bound or to the start |
| `SliceLaws.NegativeBounds` | vllm/logprobs.py:121-133 | a negative bound counts from the end |
| `SliceLaws.FarBounds` | vllm/logprobs.py:121-133 | a bound beyond an end is as good as none |
| `SliceLaws.FarStarts` | vllm/logprobs.py:121-133 | a start beyond the far end selects nothing |
| `SliceLaws.NextPositionHolds` | vllm/logprobs.py:175-206 | the next position gives each token its value from its last entry, ranked by its place, the sampled one with the given rank |
| `SliceLaws.NextPositionHoldsOnly` | vllm/logprobs.py:175-206 | and holds no tokens but those within all lists |
| `SliceLaws.ZippedHolds` | vllm/logprobs.py:86-92 | `append_fast` keeps the entries that all four lists have |
| `RequestOutput.CompletionObject.Absorb` | vllm/outputs.py:154-167 | text, tokens and log-probabilities are concatenated and the rest replaced, or the assertion fails with text and tokens already extended |
| `RequestOutput.RequestObject.AddCompletion` | vllm/outputs.py:152-173 | the first completion with the index is merged or replaced, or the new one appended; the added object is unchanged |
| `RequestOutput.RequestObject.AddCompletions` | vllm/outputs.py:151-173 | the outer loop adds all completions in order |
| `RequestOutput.RequestObject.Add` | vllm/outputs.py:145-173 | the merged output, or failure exactly where the specification fails |
| `RequestOutput.MergeIsAssociative` | vllm/outputs.py:154-167 | merging a merged delta is merging its parts one after the other, failures included, unless the middle part alone lacks log-probabilities and the last part has some |
| `OutputStream.AddMerged` | vllm/outputs.py:151-173 | the same for adding a completion made of two to a list, as an if and only if |
| `RequestOutput.AddOneCommutes` | vllm/outputs.py:151-173 | completions with different indices can be added in either order once the first index is present |
| `OutputStream.AddAllSucceedsIff` | vllm/outputs.py:151-173 | a merge succeeds if and only if every completion that brings log-probabilities finds its index absent, or first present with some |
| `OutputStream.UniformIsMergeable` | vllm/outputs.py:160-162 | streams with log-probabilities in all or none of the completions of an index merge |
| `OutputStream.AddAllIsAssociative` | vllm/outputs.py:151-173 | grouping leaves the completions, their order and failure unchanged if and only if the group merges or everything fails anyway |
| `OutputStream.CombineIsAssociative` | vllm/outputs.py:145-173 | the same for whole outputs |
| `OutputStream.AddAllContents` | vllm/outputs.py:151-173 | the merge succeeds if and only if it is possible, and then per index the result is the arrival-order concatenation of text, tokens and log-probability positions, with the cumulative log-probability, finish reason and stop reason of the last arrival, the indices in order of arrival |
| `OutputStream.AddAllEnding` | vllm/outputs.py:163-167 | an index ends as its last completion does |
| `OutputStream.AddAllIndices` | vllm/outputs.py:151-173 | completions keep their places and new ones follow in order of arrival |
| `OutputStream.ReplacingKeepsLast` | vllm/outputs.py:168-173 | without aggregation nothing fails and each index holds its last completion |
| `OutputStream.CombineReplaces` | vllm/outputs.py:145-173 | the same for whole outputs, flags included |
| `RequestOutput.FoldIsOneMerge` | vllm/outputs.py:145-173 | folding a stream is one merge of all its completions; finished is the disjunction and the transfer parameters are the last |
| `OutputStream.FoldSucceedsIff` | vllm/outputs.py:145-173 | folding a stream succeeds if and only if its completions can be merged |
| `OutputStream.GroupIsItsDeltas` | vllm/outputs.py:145-173 | merging a group and adding the result is adding its deltas one by one |
| `OutputStream.GroupingIff` | vllm/outputs.py:145-173 | any split of a stream into groups folds to what the single deltas fold to, failure included, if and only if every group merges by itself or the stream fails anyway |
| `OutputStream.StreamIsConcatenation` | vllm/outputs.py:145-173 | for streams with log-probabilities in all or none per index, every grouping succeeds with the same result: per index the arrival-order concatenation and the last ending, finished as the disjunction |
| `OutputStream.AllOrNoneStreamIsConcatenation` | vllm/outputs.py:145-173 | the same for streams in which all completions have log-probabilities or none has |
| `OutputStream.GroupingCanFail` | vllm/outputs.py:160-162 | a stream of three deltas that merges one by one and fails when the last two are grouped |
| `BadWords.NoBadWordsLogitsProcessor.CheckTokenIdsBounds` | vllm/logits_process.py:106-121 | passes if and only if every token of every bad word is in the vocabulary |
| `BadWords.NoBadWordsLogitsProcessor.InitWordBias` | vllm/logits_process.py:89-104 | fills the cached bias with minus infinity exactly at the one-token words, or rejects the words and caches nothing |
| `BadWords.NoBadWordsLogitsProcessor.ScanWord` | vllm/logits_process.py:66-83 | one longer word blocks exactly the token that would complete it; an empty word has no last token |
| `BadWords.NoBadWordsLogitsProcessor.LastTokenBias` | vllm/logits_process.py:64-83 | the scan over all words blocks exactly the tokens that complete a longer word |
| `BadWords.NoBadWordsLogitsProcessor.Call` | vllm/logits_process.py:56-87 | every logit is processed as specified, with a fresh or a cached bias; says exactly when it fails, when the words are rejected and what is cached |
| `BadWords.BlockedBySomeWord` | vllm/logits_process.py:66-85 | the two biases together block exactly the tokens that complete some bad word |
| `BadWords.FiniteLogitIsBlockedIff` | vllm/logits_process.py:80-85 | a finite logit becomes minus infinity if and only if its token completes a bad word, and is otherwise unchanged |
| `BadWords.BlockedLogitIff` | vllm/logits_process.py:80-85 | what becomes of every kind of logit, infinite ones and NaN included |
| `BadWords.PermittedIff` | vllm/logits_process.py:56-87 | a generation can be produced from finite logits at every step if and only if it contains no bad word as a contiguous run |
| `BadWords.RunMeansCompletion` | vllm/logits_process.py:73-79 | where a run of a bad word ends, its last token completes it |
| `BadWords.CompletionMeansRun` | vllm/logits_process.py:73-79 | a completed bad word is a contiguous run of the generation |
| `UtilizationWindow.PrefixSums` | scripts/figure_2a_temporal_utilization.py:39-41 | the prefix list holds the sums of all prefixes |
| `UtilizationWindow.Advance` | scripts/figure_2a_temporal_utilization.py:44-45 | the right pointer stops at the first sample too far from the start |
| `UtilizationWindow.FindWindow` | scripts/figure_2a_temporal_utilization.py:36-49 | for sorted times and non-negative totals returns the latter half of the earliest window of maximum average, never divides by zero, and advances the right pointer at most once over the trace |
| `UtilizationWindow.WindowFound` | scripts/figure_2a_temporal_utilization.py:43-45 | on sorted times the pointer ends one maximal window and has not passed anything too far from the next start |
| `UtilizationWindow.BestStep` | scripts/figure_2a_temporal_utilization.py:46-48 | comparing strictly keeps the earliest best window |
| `UtilizationWindow.WindowIsUnique` | scripts/figure_2a_temporal_utilization.py:44-45 | a start has one maximal window |
| `UtilizationWindow.AverageWithinBounds` | scripts/figure_2a_temporal_utilization.py:46 | the average of a stretch lies between any bounds on its totals, whatever the rest of the trace is |
| `UtilizationWindow.AverageOfTwo` | scripts/figure_2a_temporal_utilization.py:46 | the average of two adjoining stretches is theirs weighted by length |
| `Spinloop.StepLosesNoStore` | csrc/spinloop.cpp:126-152 | every step keeps: while the waiter is about to wait or waits, the monitor is armed and the callback is true only if a store was seen |
| `Spinloop.StepCountsRounds` | csrc/spinloop.cpp:107-124 | every step keeps the counter's low bits in step with the rounds since the last clock reading |
| `Spinloop.CountStaysInStep` | csrc/spinloop.cpp:109-124 | the 32-bit wrap-around does not disturb the count |
| `Spinloop.RunKeepsInvariant` | csrc/spinloop.cpp:93-152 | both hold in every state of every interleaving with the writers |
| `Spinloop.NoLostWakeUp` | csrc/spinloop.cpp:126-152 | whenever the waiter sleeps although the callback is true, the store has been seen, so the wait can end without a timeout |
| `Spinloop.StoreIsNoticed` | csrc/spinloop.cpp:93-152 | after a store that makes the callback true, with no later store, the waiter can leave the wait at every moment and its next call returns true unless it raises |
| `Spinloop.ClockIsReadInTime` | csrc/spinloop.cpp:107-124 | with a timeout set at most 16 rounds pass between clock readings |
| `Spinloop.ClockIsReadIff` | csrc/spinloop.cpp:107-124 | it is read first of all and after every sixteenth round, and at no other time |
| `Spinloop.ResultIsJustified` | csrc/spinloop.cpp:93-146 | true is returned only when the callback was true, false only after an expired clock reading with a timeout set |
| `Int8Quant.Quantise` | vllm/_xpu_ops.py:379-406 | fails exactly when a row is empty, and otherwise quantises every row by itself |
| `Int8Quant.RoundAtMostIff` | vllm/_xpu_ops.py:398 | rounding goes to the nearest integer, ties to the even one |
| `Int8Quant.ExtremesAreElements` | vllm/_xpu_ops.py:386-387 | the row's extremes are elements of it |
| `Int8Quant.ExtremesBound` | vllm/_xpu_ops.py:386-387 | and bound all of them |
| `Int8Quant.CodeRangeIsFull` | vllm/_xpu_ops.py:384-385 | the codes use the full range of the given number of bits |
| `Int8Quant.SpanIsReached` | vllm/_xpu_ops.py:388-394 | the span is the largest magnitude, or the largest distance, in the row |
| `Int8Quant.ScaleIsLeast` | vllm/_xpu_ops.py:388-394 | the scale is the least one, from 0.00001 on, at which the code range covers the row |
| `Int8Quant.PositionInRange` | vllm/_xpu_ops.py:388-398 | before clamping, every element lies at most half a step outside the code range |
| `Int8Quant.DecodeWithinHalfScale` | vllm/_xpu_ops.py:384-401 | in both modes codes lie in [qmin, qmax] and decoding gives every element back within half a scale, despite the clamp and the rounded zero point |
| `Int8Quant.QuantiseWithinHalfScale` | vllm/_xpu_ops.py:376-406 | the same bound for every element of a matrix |
| `Int8Quant.CodeRoundTrip` | vllm/_xpu_ops.py:397-401 | encoding a decoded code gives the code back |
| `Int8Quant.CodesKeepOrder` | vllm/_xpu_ops.py:397-401 | codes keep the order of the elements |
| `Int8Quant.ZeroIsExact` | vllm/_xpu_ops.py:392-401 | a zero in the row decodes to exactly zero |
| `Int8Quant.CodesFitIff` | vllm/_xpu_ops.py:397-401 | all codes of all rows fit the 8-bit type if and only if bits is at most 8 |
| `Int8Quant.ZeroPointFitsIff` | vllm/_xpu_ops.py:395 | the zero point survives its 32-bit cast if and only if the minimum is small enough for the scale |
| `Int8Quant.ConstantRowOverflowsZeroPoint` | vllm/_xpu_ops.py:394-395 | a constant row of 30000 has a zero point too large for 32 bits |

## Assumptions

- `GraphPartition`: the mutation map is idempotent and no layout-less mutation output is its own real name
  (`Resolves`; on such an entry the layout test would not terminate). For running partitions, `Scheduled` and
  `ScheduledProgram` say what the scheduler guarantees: a buffer with storage has it under its real name; nodes are
  in dependency order; a freed name is not used after its last use; names read, freed from another partition or
  demanded as graph outputs are canonical and known; graph outputs have storage; constants are not nodes, and are
  neither written nor freed. A store holds only buffers that have storage.
- `PortProtocol`: a process that holds a claim is seen as alive by the liveness probe; each process runs one
  reservation or release at a time; replacing the file is atomic; a killed process frees the lock.
- `CumemAllocator`: the reserved range holds no older mapping, and chunk sizes are positive, which
  `ChunksAreAligned` proves of the planned ones.
- `ApplicationRequest`: edges join known nodes and none leads into the entry node (`Graph.WellFormed`);
  `add_edge` does not enforce the latter. Statements about complete runs also assume that no edge leaves the exit
  node (`Layered`).
- `Sinkhorn`: the exponential is any positive function and eps is not negative.
- Kernels: blocks run in any order but one at a time; warps have 32 lanes and the thread count is a multiple of 32.
- `RequestOutput`: the objects of the two outputs are distinct. `OutputStream`: the first delta of a group has each
  index once.
- `Spinloop`: the callback's answer depends only on the monitored memory.

## Left out

- Floating-point rounding (bf16, float32 and the cast of the scale to the input's type): arithmetic is over exact reals.
- Int8Quant.ZeroPoint: the 32-bit cast is not applied, because its result outside the range is undefined; `ZeroPointFitsIff` says when it is exact.
- Int8Quant.Quantise: assumes at least 2 bits in symmetric and 1 in asymmetric mode, since `qmax` is not a positive integer below that.
- GraphPartition.GetGraphPartitionSignature: symbolic inputs and the order inside the ordered name sets are not modelled.
- MemoryPlan.Wrapper.MemoryPlanReuse: the names of graph outputs are a parameter; what planning does to a state and the list of past states are not modelled.
- PrenormGemmBlockM.HcPrenormGemmBlockM: the outputs have no leading dimension of size 1.
- The rest of `mhc_pre_big_fuse_tilelang`, `hc_head_fuse_tilelang`, launch synchronisation and shared-memory copies: they would add only elementwise members.
- PortRegistry.RegistryFile.ReserveParrotPorts: role, run root and time stamp of an entry are not modelled; bindability and liveness are answers of the operating system, given as parameters.
- `PortProtocol`: forked children that share a pid-keyed entry, threads inside one process and pid namespaces are not modelled.
- ChunkPlan.PlanChunks: the signedness and width of the loop counters, host memory allocation and address reservation are not modelled.
- CumemAllocator.Allocator.CreateAndMap: the CUDA branch, Python callbacks and the interpreter lock are not modelled; making the context current is one call that may fail.
- GraphExecutor.Executor.RunApplication: graphs with an edge into the entry node are not covered: such a node would be queued again and its submission would iterate over the list it changes.
- GraphExecutor.Executor.RunApplication: the HTTP session, traces, node values and the exit node's text are not modelled; a task either raises or delivers an output.
- ApplicationRequest.RequestObject.SubmitOutput: text processing between nodes is not modelled, so neither are its own exceptions.
- FlatLogprobs: the methods that only raise a type error (set, delete, insert).
- BadWords: building the token sequences of words with the tokenizer, logits of more than one dimension and broadcasting of size-1 shapes.
- BadWords.NoBadWordsLogitsProcessor.Call: with a cached bias of another length the call fails, but which of several possible errors comes first is not modelled.
- Spinloop: argument parsing, processor detection and reference counts.
- Operator wrappers, launch and HTTP code, plotting, build scripts and environment probing.
