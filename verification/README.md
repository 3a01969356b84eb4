# Astraea: a verified model of its kernels

Astraea is a verification-first emulator. This project models the parts of it that decide what the guest may do and
what the graphics and worker pipelines mean, and proves them against independent, simpler definitions. All modules are
plain Dafny 4.11; `dafny verify dfyconfig.toml` checks everything.

- **Shaders.** `Rdna2`, `ShaderIr` and `ShaderProgram` turn words into a tiled program; `ShaderCfg` cuts it into basic
  blocks; `ShaderExecution` runs it block by block under a budget; `ShaderRefinement` proves that this run is the run of
  an interpreter that executes one emission at a time and knows nothing about blocks; `ShaderMachine` proves that this
  interpreter is a machine defined on the encoded words alone.
- **Seccomp.** `Seccomp` is the compiler from address ranges to a classic BPF program, `Bpf` the machine it runs on; the
  emitted program means the policy for any number of ranges.
- **Guest memory.** `MemoryPlan` is the page sweep with write-xor-execute, `GuestMemory` the access validator and the
  mutable memory, `Reservation` the granule merger. Each agrees with a per-page or per-byte definition.
- **Relocation.** `Patches`, `ImportBatch`, `RelativeBatch` and `ShaderPreparation` check everything and then write;
  `ProviderRegistry` issues tokens, and `ProviderHistory` follows them over whole histories of a process with any
  number of registries and mapping owners.
- **PM4.** `Pm4`, `PacketIr`, `Registers` and `Submission` frame a command buffer, fold its register packets, take a
  snapshot at the only draw and trace each reported value to a word of the buffer.
- **Worker protocol.** `Wire` is the codec and transport, `Session` the controller against an arbitrary worker,
  `DiagnosticRun` its composition with the shipped worker under every interleaving, `Quoting` the Windows command line.
- `Machine`, `Arithmetic`, `Sorting` and `GuestRanges` are shared by the rest. Integers are unbounded; every place where
  a 32-bit or 64-bit value would wrap is written out.

Four results correct what the code or its comments suggest.

- The relative batch assumes that a target plus eight cannot wrap (`src/execution/owned_relative_apply.cpp:120-123`). A
  canonical target may sit at 2^64 - 8, where it does wrap, and duplicates there pass the conflict test.
  `SuccessMeansRelocated` gives the exact condition under which success still means what it promises, and
  `TopmostWordCollision` an input where it does not.
- The quoting of the program path follows the rules for ordinary arguments, but the first word of a command line has no
  escapes. `CommandLineRoundTrips` gives the exact condition, `QuotedDirectoryIsMisread` an input where it fails.
- Shader preparation does not itself check that the two program registers lie inside the header. `PatchesStayInHeader`
  gives the exact condition, `UnparsedListLeavesHeader` an input where it fails, and `ParsedPatchesStayInHeader` shows
  that register lists accepted by the shader binary parser always meet it.
- Tokens are said to be valid only in their issuing registry, but the identity counter wraps. `TokensCrossExactly` gives
  the exact condition under which a token can be current elsewhere, `WrappedIdentityCrosses` the pair of registries, and
  `TokensBelongToTheirRegistry` the guarantee for up to 2^64 registries.

## Model

| member | source | states |
|---|---|---|
| `Rdna2.DecodeMatchesLength` | src/graphics/rdna2_decoder.cpp:208-504 | Decoding succeeds exactly when the whole instruction, by a length table that reads the first word only, lies in the stream; it then records its own place, and a failure names the first missing word |
| `ShaderProgram.LowerStream` | src/graphics/shader_program.cpp:11-96 | Succeeds exactly when greedy decoding tiles the words; the result covers the words once, in order, passes the layout check, and a failure names the one word where decoding is stuck |
| `ShaderProgram.StuckExcludesTiling` | src/graphics/shader_program.cpp:43-93 | A stream never both tiles and gets stuck, and it can get stuck at one word only |
| `ShaderProgram.TiledProgram` | src/graphics/shader_cfg.cpp:38-89 | Every program that stream lowering produces passes the layout check of the graph builder |
| `ShaderProgram.LoweredBranchDelta` | src/graphics/shader_cfg.cpp:92-186 | On lowered streams a branch displacement is whole words and leads to the next word plus the signed immediate |
| `ShaderProgram.LoweredMovesExecute` | src/graphics/shader_scalar_execution.cpp:112-205 | On lowered streams a scalar move names existing registers only, so executing it cannot fail |
| `ShaderIr.MoveChangesOnlyItsEffect` | src/graphics/shader_scalar_execution.cpp:112-205 | The reported write effect gives the new value of every register the move changed, and nothing else in the scalar state changed |
| `ShaderIr.ExecuteScalarOperation` | src/graphics/shader_scalar_execution.cpp:112-205 | Executes one move in place; a failing move leaves the state untouched |
| `ShaderIr.MoveRefusals` | src/graphics/shader_scalar_execution.cpp:112-205 | A 32-bit move is refused exactly for a register above 105, a 64-bit one exactly for an odd or out-of-range pair, destination first; other operations are unsupported |
| `ShaderCfg.ValidateProgramLayout` | src/graphics/shader_cfg.cpp:38-89 | Accepts exactly the programs whose emissions tile the source words, otherwise reports the first emission that does not |
| `ShaderCfg.LowerBound` | src/graphics/shader_cfg.cpp:92-186 | Binary search: everything before the result starts below the target word, everything from it on at or above |
| `ShaderCfg.ResolveBranchTarget` | src/graphics/shader_cfg.cpp:92-186 | Binary search agrees with scanning for the emission that starts at the target word; the failure says whether the displacement or the target is wrong |
| `ShaderCfg.MarkLeaders` | src/graphics/shader_cfg.cpp:207-283 | Marks exactly the leaders (entry, branch targets, successors of control operations) and resolves every branch, or reports the first branch that does not resolve |
| `ShaderCfg.CollectStarts` | src/graphics/shader_cfg.cpp:285-300 | The block starts are the leaders, in increasing order |
| `ShaderCfg.CutBlocks` | src/graphics/shader_cfg.cpp:302-328 | Blocks run from one leader to the next and every emission maps to the block that contains it |
| `ShaderCfg.LinkBlock` | src/graphics/shader_cfg.cpp:330-417 | The edges of one block are those its last emission calls for, each landing on the block that starts at the resolved target |
| `ShaderCfg.BuildControlFlowGraph` | src/graphics/shader_cfg.cpp:188-436 | Succeeds exactly on tiled programs whose branches all resolve and returns their graph; otherwise names the first layout or branch fault |
| `ShaderCfg.NoInteriorControl` | src/graphics/shader_control_execution.cpp:386-413 | In a built graph a control operation is never inside a block, so the interior-control refusal cannot occur |
| `ShaderCfg.BlocksPartition` | src/graphics/shader_cfg.cpp:302-328 | Every emission lies in exactly one block |
| `ShaderCfg.LoweredStreamGraph` | src/graphics/shader_cfg.cpp:92-186 | For lowered streams a branch resolves exactly when the next word plus the immediate starts an instruction |
| `ShaderExecution.ExecuteScalarBlock` | src/graphics/shader_control_execution.cpp:342-541 | The in-place block executor agrees with the value-level block run on result and final state, including writes kept from before a failing emission |
| `ShaderExecution.SelectionMeans` | src/graphics/shader_control_execution.cpp:85-339 | Selection on any program and graph, built or not: the edge that the last operation, the shape of the successor list and the decision call for, or the first check that fails |
| `ShaderExecution.FinishMeans` | src/graphics/shader_control_execution.cpp:440-541 | A block reports the first emission it could not execute, a failed selection, or everything its body did with the selected edge |
| `ShaderExecution.ExecuteScalarProgram` | src/graphics/shader_program_execution.cpp:28-120 | The in-place budgeted loop agrees with the value-level run on result and final state |
| `ShaderRefinement.SelectionFollowsControl` | src/graphics/shader_control_execution.cpp:85-339 | On a built graph successor selection never fails and picks the block that starts where control goes next |
| `ShaderRefinement.BudgetOnlyTruncates` | src/graphics/shader_program_execution.cpp:28-120 | More budget changes nothing once the budget sufficed, and an exhausted run is one that needs to enter more leaders than the budget |
| `ShaderRefinement.BodySimulates` | src/graphics/shader_control_execution.cpp:415-541 | From any emission of a block to its end the one-emission interpreter takes the steps of the body loop |
| `ShaderRefinement.BlockSimulates` | src/graphics/shader_control_execution.cpp:342-541 | None of the mismatch, extent, interior-control or topology refusals can occur, and the interpreter continues exactly where the block leaves off |
| `ShaderRefinement.ProgramRunRefinesInterpreter` | src/graphics/shader_program_execution.cpp:28-120 | For every built graph, entry block, state and budget the block run and the interpreter end the same way: same state, same writes in order (after a failing block, the completed writes followed by exactly that block's own), same stopping or failing emission, budget exhausted together |
| `ShaderRefinement.LoweredRunFailsOnlyOnUnsupported` | src/graphics/shader_program_execution.cpp:28-120 | A lowered stream stops early only for the budget or for an operation outside the scalar subset |
| `ShaderMachine.LoweringIsTheEncoding` | src/graphics/rdna2_decoder.cpp:208-504 | Decoding and lowering together: words become a supported operation exactly when they encode it, bit field by bit field, for every SOPP, SOP1, VOP1, VOP2 and EXP operation of the subset |
| `ShaderMachine.LengthMeans` | src/graphics/rdna2_decoder.cpp:208-504 | The length table in numbers: exports, 32-bit moves of a literal and vector words with an extension selector take two words, everything else one |
| `ShaderMachine.UnsupportedReasons` | src/graphics/rdna2_decoder.cpp:208-504 | Which words are unsupported and why; a decoded instruction is never inconsistent |
| `ShaderMachine.BranchLandsOnWord` | src/graphics/shader_cfg.cpp:92-186 | A branch of a lowered program lands on the next word plus the signed low half of its own word |
| `ShaderMachine.StepIsTheWordStep` | src/graphics/shader_control_execution.cpp:51-83 | Stepping a lowered program is stepping a machine defined on encoded words alone: 0xBF84 jumps exactly when scc is clear, 0xBF85 when set, 0xBF86 to 0xBF89 on vcc and exec, moves write what their selector denotes, and every other word is not executable |
| `ShaderMachine.InterpreterIsTheWordRun` | src/graphics/shader_program_execution.cpp:28-120 | The one-emission interpreter of a lowered program is a run of the word machine |
| `ShaderMachine.LoweredRunIsTheWordRun` | src/graphics/shader_program_execution.cpp:28-120 | Decode, lower, build the graph and run it block by block: final state and writes are those of the word machine after as many instructions as the run reports, and it ends or fails on the same word |
| `Bpf.SafeProgramsDecide` | src/execution/linux_execution.cpp:984-1006 | A program with forward in-range jumps, in-record loads and a final return always reaches a verdict |
| `Bpf.RunAfterPrefix` | src/execution/linux_execution.cpp:995-1006 | Jumps are relative: a program means the same after any prefix |
| `Seccomp.EmitRange` | src/execution/linux_execution.cpp:1110-1205 | The eleven pushed instructions of one range, with their computed jump offsets |
| `Seccomp.EmitTrailer` | src/execution/linux_execution.cpp:1207-1271 | The pushed instructions of the host policy |
| `Seccomp.EmitFilter` | src/execution/linux_execution.cpp:1014-1271 | Emits the program exactly when there is a range, the size fits and every range is valid; otherwise reports the first reason |
| `Seccomp.RangeBlockMeaning` | src/execution/linux_execution.cpp:1148-1205 | One range block traps exactly when the 64-bit instruction pointer is in the range, and otherwise falls through to whatever follows |
| `Seccomp.DenyListMeaning` | src/execution/linux_execution.cpp:1252-1271 | The deny list refuses exactly the listed numbers and allows the rest |
| `Seccomp.TrailerMeaning` | src/execution/linux_execution.cpp:1207-1271 | The trailer is the host policy: foreign architecture, x32 bit, numbers 512 to 547 and the deny list are refused |
| `Seccomp.FilterMeansPolicy` | src/execution/linux_execution.cpp:1014-1271 | For any ranges and any (ip, arch, nr) the emitted program returns TRAP exactly when ip lies in some range and the host policy otherwise |
| `Seccomp.FilterIsSafe` | src/execution/linux_execution.cpp:1014-1271 | Every jump is forward and in bounds, every load is inside the record, and the length fits the 16-bit header |
| `Seccomp.ShippedFilterSize` | src/execution/linux_execution.cpp:1051-1075 | With the shipped deny list the program has 11 n + 38 instructions, and it fits exactly up to 5954 ranges |
| `Seccomp.BuildExecutableRanges` | src/execution/linux_execution.cpp:797-813 | One range for each non-empty executable mapping, in the order of the mappings |
| `Seccomp.ExecutableRangesMembers` | src/execution/linux_execution.cpp:797-813 | Those ranges are the non-empty executable mappings and nothing else |
| `Seccomp.BuildSeccompRanges` | src/execution/linux_execution.cpp:821-878 | Every range grows by one byte, or the first one that cannot is refused |
| `Seccomp.CallSitesAreTrapped` | src/execution/linux_execution.cpp:821-861 | A two-byte call site inside executable mappings is trapped whether the kernel reports the site or site + 2 |
| `Seccomp.PrepareFilter` | src/execution/linux_execution.cpp:1380-1515 | There is a filter exactly when there are 1 to 5954 executable ranges and none reaches the last address; it traps exactly the addresses in an executable mapping or just after one, which covers every guest call site, and gives every other address the host policy |
| `Seccomp.NormalizeTrap` | src/execution/linux_execution.cpp:886-982 | A trap is accepted exactly when 0f 05 under the 64-bit architecture, or cd 80 under the 32-bit one, lies in executable mappings right before the saved instruction pointer and the kernel reports its address or its end; the site is two bytes back, number and architecture are kept, and a refusal names its address |
| `Seccomp.GuestCallsAreRaised` | src/execution/linux_execution.cpp:886-982 | Every call instruction that normalisation accepts is trapped by the filter at both reported addresses |
| `Seccomp.InterceptCall` | src/execution/linux_execution.cpp:1380-1515 | Install and normalise: a guest call is trapped and comes back with its own site, number and architecture |
| `GuestRanges.CreateRange` | include/astraea/memory/guest_address.hpp:85-109 | A range may end at 2^64 but not beyond |
| `GuestRanges.OverlapsIffShared` | include/astraea/memory/guest_address.hpp:111-123 | Two ranges overlap exactly when they share an address |
| `MemoryPlan.TouchesIsInterval` | src/execution/memory_plan.cpp:63-87 | The pages a range touches are those from its first byte's page to its last byte's page |
| `MemoryPlan.CollectBoundaries` | src/execution/memory_plan.cpp:170-185 | The sorted, deduplicated boundaries are exactly the pages where a span starts or the page after one ends |
| `MemoryPlan.CoverageConstant` | src/execution/memory_plan.cpp:187-205 | Between two boundaries every page has the same permissions and sources |
| `MemoryPlan.SpansMean` | src/execution/memory_plan.cpp:195-208 | The accumulated permissions and sources of a page are the union over everything that touches it |
| `MemoryPlan.MakeRegion` | src/execution/memory_plan.cpp:222-260 | A region of whole pages, refused exactly when it would be all 2^64 bytes |
| `MemoryPlan.Sweep` | src/execution/memory_plan.cpp:187-262 | The sweep yields regions that agree with the page definition, or the lowest page both writable and executable, or the whole-space case |
| `MemoryPlan.WholeSpaceIsOneBoundary` | src/execution/memory_plan.cpp:222-245 | The overflow exit is taken exactly when every page is claimed by the same full-size claims |
| `MemoryPlan.SweptMatches` | src/execution/memory_plan.cpp:187-262 | Swept regions form a plan that matches the page definition and has no page both writable and executable |
| `MemoryPlan.BuildExecutionMemoryPlan` | src/execution/memory_plan.cpp:106-312 | Succeeds exactly when no page is touched both by an executable mapping and by a writable mapping or the stack, not everything spans the whole space, the entry is executable and the stack pointer in the stack; regions are aligned, ordered and disjoint, cover exactly the used pages, and have exactly the permissions (stack: read and write, never execute) and the ordered sources of each page; a refusal names the first reason, a mixed page by the lowest one |
| `MemoryPlan.PageOfClaims` | src/execution/memory_plan.cpp:116-160 | What the planner accumulates for a page is what the mappings and the read-write stack that touch it say |
| `Arithmetic.PowerOfTwoMeans` | src/execution/memory_plan.cpp:53-55 | The page-size test accepts exactly the powers of two |
| `GuestMemory.AcceptedIffEveryByteAllowed` | src/execution/guest_memory.cpp:38-219 | An access is accepted exactly when guest intent and prepared plan both allow every single byte |
| `GuestMemory.VerdictsMean` | src/execution/guest_memory.cpp:27-36 | A read is accepted exactly when every byte has read permission of a mapping or the stack and of a region; a write likewise with write permission |
| `GuestMemory.GuestMemory.IntentCoverage` | src/execution/guest_memory.cpp:100-152 | How far past the cursor guest intent reaches, and whether the cursor is mapped without permission |
| `GuestMemory.GuestMemory.PlanCoverage` | src/execution/guest_memory.cpp:153-190 | The same for the prepared plan |
| `GuestMemory.GuestMemory.Validate` | src/execution/guest_memory.cpp:38-219 | The greedy multi-extent walk terminates and gives the byte-by-byte verdict, naming the first offending byte and why; the inner overflow exit is unreachable |
| `GuestMemory.GuestMemory.Read` | src/execution/guest_memory.cpp:221-247 | Returns exactly the bytes of an accepted range |
| `GuestMemory.GuestMemory.Write` | src/execution/guest_memory.cpp:249-276 | Changes exactly the bytes of an accepted range; a refused write changes nothing |
| `GuestMemory.GuestMemory.IsExactExecutable` | src/execution/guest_memory.cpp:355-388 | Image and plan both still authorise execution at the address |
| `GuestMemory.PlanGrantsIntent` | src/execution/memory_plan.cpp:106-312 | On a plan built from the image, the plan allows whatever guest intent allows |
| `GuestMemory.ValidationReducesToIntent` | src/execution/guest_memory.cpp:38-219 | On such a plan validation is decided by guest intent alone, down to the reported byte and code |
| `GuestMemory.WritableIsNotExecutable` | src/execution/memory_plan.cpp:210-221 | A byte the plan lets the guest write lies in no executable region |
| `GuestMemory.GuestWriteOwnedByPlan` | src/execution/memory_plan.cpp:318-367 | The scan answers exactly whether one writable mapping or the stack holds every byte, no mapping without write permission holds any, and the first region that holds every byte is writable and not executable |
| `GuestMemory.OwnedWritesAreAccepted` | src/execution/memory_plan.cpp:318-367 | A write owned by the plan is one the validator accepts |
| `Reservation.RoundOut` | src/execution/windows_memory.cpp:177-235 | Rounds one region out to whole granules, refused exactly when the end would pass 2^64 |
| `Reservation.Merge` | src/execution/windows_memory.cpp:237-296 | Merging touching or overlapping neighbours keeps ranges sorted and apart and covers the same granules |
| `Reservation.HullStep` | src/execution/windows_memory.cpp:254-290 | Overwriting the last range by its hull with the next one loses and adds no granule |
| `Reservation.RoundedMeansNeeded` | src/execution/windows_memory.cpp:177-235 | A granule is covered by the rounded ranges exactly when some region meets it |
| `Reservation.BuildReservationRanges` | src/execution/windows_memory.cpp:155-296 | Ranges are granularity-aligned, sorted, disjoint and non-touching, and their union is exactly the granules that meet some region; a refusal names the first region that reaches the top |
| `Patches.PatchReadsBack` | src/execution/module_graph_import_apply.cpp:113-138 | With disjoint patches every patch reads back its own bytes |
| `Patches.PermutationDisjoint` | src/execution/module_graph_import_apply.cpp:85-111 | Disjointness of patches does not depend on their order |
| `Patches.OrderDoesNotMatter` | src/execution/module_graph_import_apply.cpp:113-138 | Disjoint patches leave the same memory in any order |
| `ImportBatch.ApplyPatch` | src/execution/module_graph_import_apply.cpp:18-41 | One patch: written when allowed, memory untouched otherwise |
| `ImportBatch.CheckBatch` | src/execution/module_graph_import_apply.cpp:43-111 | No refusal means at most 256 writable, pairwise disjoint targets; a refusal is the first one in the program's order |
| `ImportBatch.ApplyBatch` | src/execution/module_graph_import_apply.cpp:43-138 | All or nothing: succeeds exactly on acceptable batches, with every patch written; otherwise memory is unchanged; the write-phase failure is unreachable |
| `ImportBatch.EncodesSource` | src/execution/module_graph_import_apply.cpp:141-220 | The byte loop accepts exactly the little-endian provider address |
| `ImportBatch.ApplyLiveBatch` | src/execution/module_graph_import_apply.cpp:141-220 | Succeeds exactly when every patch is a jump slot for a live executable provider and the batch is acceptable; otherwise memory is unchanged and the first faulty slot, or what the batch refused, is reported |
| `ImportBatch.LiveBatchMemory` | src/execution/module_graph_import_apply.cpp:141-220 | Afterwards every target holds its provider address and every other byte is unchanged |
| `ImportBatch.ExecutableBytesSurvive` | src/execution/memory_plan.cpp:210-221 | Under a planned layout no accepted batch changes a byte of executable memory |
| `ProviderRegistry.Counters.NextEpoch` | src/execution/memory_plan.cpp:21-35 | A non-zero epoch that nobody has had before, or zero exactly when all 2^64 - 2 are used up, after which every call gives zero |
| `ProviderRegistry.PrepareMemory` | src/execution/linux_memory.cpp:407-415 | A finished mapping is bound to a fresh non-zero epoch, and dropped exactly when none is left |
| `ProviderRegistry.OwnedProviderRegistry.constructor` | src/execution/module_graph_import_apply.cpp:223-229 | The k-th registry of the process gets the identity k + 1 modulo 2^64 and starts empty |
| `ProviderRegistry.RegistrationSucceeds` | src/execution/module_graph_import_apply.cpp:231-284 | Registration succeeds exactly for a key of 1 to 128 characters without NUL, a non-zero executable address, a live epoch, no shared key or address, fewer than 64 providers, and generations left; the token carries exactly these |
| `ProviderRegistry.RegistrationRefusals` | src/execution/module_graph_import_apply.cpp:240-270 | Which refusal is reported, in the order of the checks; the first active provider that shares key or address decides |
| `ProviderRegistry.RegisterSound` | src/execution/module_graph_import_apply.cpp:231-284 | Registering keeps active tokens this registry's own, in order of issue, with distinct keys and addresses |
| `ProviderRegistry.RetireSound` | src/execution/module_graph_import_apply.cpp:286-297 | Retiring keeps that, and removes exactly the given token |
| `ProviderRegistry.OwnedProviderRegistry.RegisterProvider` | src/execution/module_graph_import_apply.cpp:231-284 | The in-place registration agrees with its value-level definition and keeps the registry sound |
| `ProviderRegistry.OwnedProviderRegistry.RetireProvider` | src/execution/module_graph_import_apply.cpp:286-297 | The in-place retirement agrees with its value-level definition and keeps the registry sound |
| `ProviderRegistry.OwnedProviderRegistry.CheckCurrent` | src/execution/module_graph_import_apply.cpp:299-315 | The scan answers exactly whether the token is current |
| `ProviderHistory.RunConsistent` | src/execution/module_graph_import_apply.cpp:223-315 | Over every history of any number of registries and mapping owners: identities follow the counter, epochs of owners are apart, active tokens are those issued and not retired, active keys and addresses are unique, generations grow |
| `ProviderHistory.EpochsAreNeverReused` | src/execution/memory_plan.cpp:21-35 | Over every history epochs handed out later are larger, no two owners hold the same non-zero epoch, and every epoch held was handed out |
| `ProviderHistory.ExhaustionIsPermanent` | src/execution/memory_plan.cpp:21-35 | Once the epoch counter is used up no later event of any history yields an epoch |
| `ProviderHistory.PrepareFailsExactlyWhenExhausted` | src/execution/memory_plan.cpp:21-35 | A request for an epoch fails exactly after 2^64 - 2 of them |
| `ProviderHistory.UnheldStaysUnheld` | src/execution/linux_memory.cpp:98-148 | An epoch that no owner holds any more is never held again, through moves, resets and new mappings |
| `ProviderHistory.CurrentForOneOwner` | src/execution/module_graph_import_apply.cpp:299-315 | A token is current through at most one owner, the one that holds its epoch |
| `ProviderHistory.GenerationsAreNeverReused` | src/execution/module_graph_import_apply.cpp:231-284 | Over every history later tokens of a registry have larger generations |
| `ProviderHistory.RetiredStaysRetired` | src/execution/module_graph_import_apply.cpp:286-315 | A retired token is never current again in its registry, for any address and any epoch, whatever is registered later |
| `ProviderHistory.RetirementIsFinal` | src/execution/module_graph_import_apply.cpp:286-315 | Retiring an active token kills it for every later history |
| `ProviderHistory.StaleEpochStaysStale` | src/execution/module_graph_import_apply.cpp:299-315 | A token whose epoch no owner holds is never current again, in any registry and for any owner, later ones included |
| `ProviderHistory.TeardownKillsTokens` | src/execution/linux_memory.cpp:110-148 | Resetting an owner, or moving another mapping over it, kills every token bound to it |
| `ProviderHistory.TokensFollowTheirMapping` | src/execution/linux_memory.cpp:110-128 | A moved mapping takes its current tokens along to the new owner |
| `ProviderHistory.IdsRepeat` | src/execution/module_graph_import_apply.cpp:223-229 | Two registries share an identity exactly when their positions differ by a multiple of 2^64 |
| `ProviderHistory.ForeignTokensAreNeverCurrent` | src/execution/module_graph_import_apply.cpp:299-315 | Over every history a token issued by one registry is current in another only if their positions differ by a multiple of 2^64 |
| `ProviderHistory.TokensBelongToTheirRegistry` | include/astraea/execution/module_graph_import_apply.hpp:110-121 | With at most 2^64 registries a token is valid only in the registry that issued it |
| `ProviderHistory.TokensCrossExactly` | src/execution/module_graph_import_apply.cpp:223-315 | Some history makes a token of one registry current in another if and only if their positions differ by a multiple of 2^64 and the identity is not zero |
| `ProviderHistory.WrappedIdentityCrosses` | src/execution/module_graph_import_apply.cpp:223-229 | The concrete pair: the first registry and the one created 2^64 registries later |
| `ProviderRegistry.ApplyBoundBatch` | src/execution/module_graph_import_apply.cpp:318-367 | Either memory is untouched and the first stale token or faulty slot is reported, or every disjoint target holds its live, currently registered provider address and nothing else changed; success has an exact condition |
| `RelativeBatch.BuildRelativePatch` | src/execution/owned_relative_patch.cpp:31-88 | A patch exists exactly when load bias plus signed addend, as exact integers, fits 64 bits (R_X86_64_RELATIVE, section 4.4.1 of the System V AMD64 psABI); its bytes decode to that sum; the first problem is reported otherwise |
| `RelativeBatch.IsCanonical` | src/execution/owned_relative_apply.cpp:78-100 | Recognises exactly the patches the builder can produce |
| `RelativeBatch.NeighbourTestMeans` | src/execution/owned_relative_apply.cpp:114-128 | On sorted targets the neighbour test is an all-pairs test; it separates words except several at the topmost address, where base + 8 wraps |
| `RelativeBatch.ToleratedPermutes` | src/execution/owned_relative_apply.cpp:114-128 | The all-pairs test does not depend on the order of the targets, so sorting is harmless |
| `RelativeBatch.FindConflict` | src/execution/owned_relative_apply.cpp:114-128 | Sorting and testing decide the all-pairs test, and a reported pair really conflicts |
| `RelativeBatch.ApplyRelativeBatch` | src/execution/owned_relative_apply.cpp:39-163 | All or nothing, with an exact condition for success; with fixed mappings later write and readback failures cannot occur |
| `RelativeBatch.SuccessMeansRelocated` | src/execution/owned_relative_apply.cpp:39-163 | After success every target holds load bias plus addend if and only if no two patches give the topmost word different values |
| `RelativeBatch.OtherBytesUnchanged` | src/execution/owned_relative_apply.cpp:130-155 | Bytes outside the targets never change |
| `RelativeBatch.TopmostWordCollision` | src/execution/owned_relative_apply.cpp:119-128 | A concrete accepted batch with two patches for the topmost word, after which not both hold |
| `ShaderPreparation.ResolvePointer` | src/execution/sce_agc_shader_preparation.cpp:130-206 | Succeeds exactly when the field is in the header and is null or targets field plus raw value inside the header and the address space; the refusals for bounds and overflow are exact |
| `ShaderPreparation.RangesOverlapMeans` | src/execution/sce_agc_shader_preparation.cpp:225-250 | Two non-empty ranges overlap exactly when they share a byte or one ends past the last address |
| `ShaderPreparation.AppendPatch` | src/execution/sce_agc_shader_preparation.cpp:225-273 | Appends exactly when the longer list is free of overlaps |
| `ShaderPreparation.CheckAdmissible` | src/execution/sce_agc_shader_preparation.cpp:310-442 | No refusal exactly for admissible requests, and otherwise the first of the eight checks that fails, each with its own condition |
| `ShaderPreparation.AppendNested` | src/execution/sce_agc_shader_preparation.cpp:630-690 | The five nested pointers are appended, or the first that does not resolve or does not fit in is reported |
| `ShaderPreparation.PlanPreparation` | src/execution/sce_agc_shader_preparation.cpp:310-801 | Succeeds exactly when a plan exists, and returns it; otherwise reports the first thing wrong in the order of the planner |
| `ShaderPreparation.RefusalExcludesPlans` | src/execution/sce_agc_shader_preparation.cpp:444-801 | Every refusal of the patch stages is final: no plan exists for the request |
| `ShaderPreparation.PatchesStayInHeader` | src/execution/sce_agc_shader_preparation.cpp:444-801 | The output handle is patched last; all earlier patches lie inside the header if and only if the first two shader registers do |
| `ShaderPreparation.ParseRegisterList` | src/graphics/agc_shader_binary.cpp:138-257 | A non-empty register list is accepted exactly when it lies inside the header, with its registers in order |
| `ShaderPreparation.ParsedPatchesStayInHeader` | src/graphics/agc_shader_binary.cpp:198-217 | For shaders with a parsed register list every patch but the handle lies inside the header |
| `ShaderPreparation.UnparsedListLeavesHeader` | src/execution/sce_agc_shader_preparation.cpp:444-801 | A concrete unparsed header for which planning succeeds and two patches lie past its end |
| `ShaderPreparation.PreparedMemory` | src/execution/sce_agc_shader_preparation.cpp:444-801 | Patches are pairwise disjoint; afterwards each non-null pointer holds header base plus field offset plus raw value, the code pointer and handle are set, (hi * 2^32 + lo) * 256 is the code address, and all other bytes are unchanged |
| `ShaderPreparation.PreparationOrderIsFree` | src/execution/sce_agc_shader_preparation.cpp:444-865 | The patches may be written in any order |
| `ShaderPreparation.ApplyPreparation` | src/execution/sce_agc_shader_preparation.cpp:816-865 | Succeeds exactly when every patch is writable, with all written; otherwise names the first refused patch and memory is unchanged |
| `Pm4.HeaderFieldsRecombine` | src/graphics/pm4_type3_framing.cpp:80-107 | Type, count, opcode and control bits make up the whole header word; a packet is count + 2 words |
| `Pm4.ParseRawPacket` | src/graphics/packet.cpp:37-117 | Returns the raw words exactly for a non-empty extent inside a word-aligned buffer, and otherwise the first of its four refusals |
| `Pm4.FrameStream` | src/graphics/pm4_type3_framing.cpp:61-208 | Finds the framing if there is one; otherwise names the word where no whole type-3 packet starts; the raw-packet failure is unreachable |
| `Pm4.UniqueFraming` | src/graphics/pm4_type3_framing.cpp:77-187 | A buffer has at most one framing |
| `Pm4.StuckHasNoFraming` | src/graphics/pm4_type3_framing.cpp:91-138 | A buffer on which framing gets stuck has no framing at all |
| `Pm4.FramingTiles` | src/graphics/pm4_type3_framing.cpp:77-187 | The raw words of the frames, put end to end, are the command buffer |
| `Pm4.FramingPrefix` | src/graphics/pm4_type3_framing.cpp:77-187 | Cutting the buffer at the end of a frame cuts the framing there |
| `PacketIr.LowerSetRegister` | src/graphics/pm4_set_context_reg_ir.cpp:45-134 | Lowers a register packet to its start and values, refusing empty, malformed, control-bit and out-of-window packets in that order; a foreign opcode becomes an unsupported operation |
| `PacketIr.Lower` | src/execution/sce_agc_first_raster_submission.cpp:236-441 | Every lowered operation comes from its own opcode, and exactly the other opcodes are unsupported |
| `PacketIr.LowerDrawControl` | src/graphics/pm4_draw_control_ir.cpp:40-108 | Exactly the two-word instance packet and the three-word draw packet lower, to their operand words in order |
| `Registers.RegisterFile.Apply` | src/graphics/context_register_state.cpp:26-85 | Writes the run of registers in place and marks them initialised, leaving the others alone; refuses anything outside the window |
| `Submission.StateIsLastWrite` | src/graphics/context_register_state.cpp:69-78 | After any frames a register is initialised exactly when some frame wrote it, and holds the last value written |
| `Submission.RecordTracks` | src/execution/sce_agc_first_raster_submission.cpp:19-118 | Recording a source after a frame keeps track of the last frame that wrote the register |
| `Submission.SourceHoldsValue` | src/execution/sce_agc_first_raster_submission.cpp:54-87 | The recorded word exists exactly for initialised registers and holds the register value |
| `Submission.ProgramAddress` | src/graphics/shader_register_state.cpp:98-197 | Exactly two initialised registers with at most eight high bits give an address, (hi * 2^32 + lo) * 256 |
| `Submission.ResolveTarget` | src/graphics/color_target_state.cpp:37-110 | A colour target exists exactly when all six context registers are initialised and the base fits 64 bits |
| `Submission.PlanDraw` | src/graphics/first_raster_draw_plan.cpp:19-82 | Exactly primitive 4, one instance, three indices and initiator 2 are accepted |
| `Submission.DecideMeans` | src/execution/sce_agc_first_raster_submission.cpp:573-675 | The checks after the pass, register by register: the first that fails, or a plan whose addresses, target and draw are exactly the named registers |
| `Submission.ProvenanceIsNeverMissing` | src/execution/sce_agc_first_raster_submission.cpp:600-675 | For a snapshot taken by the pass the three missing-provenance errors are unreachable |
| `Submission.HandleFrame` | src/execution/sce_agc_first_raster_submission.cpp:216-563 | One frame: register files, sources, instances and snapshot stay exactly those of the frames seen, or the fault of the frame is reported |
| `Submission.PlanSubmission` | src/execution/sce_agc_first_raster_submission.cpp:163-732 | Succeeds exactly when the buffer has a plan: zero flag, complete framing, only supported frames, one draw preceded by an instance count, and a snapshot that passes the final checks; otherwise reports the flag, the framing, the first faulty frame, the missing draw or the snapshot check; apply and provenance errors are unreachable |
| `Submission.PlanIsUnique` | src/execution/sce_agc_first_raster_submission.cpp:163-732 | A buffer has at most one plan |
| `Submission.PlanEndsAtDraw` | src/execution/sce_agc_first_raster_submission.cpp:432-571 | The buffer cut right after the draw has the same plan |
| `Submission.PlanIsTraced` | src/execution/sce_agc_first_raster_submission.cpp:216-563 | The three register states are the folds of the register packets before the draw, and each of the eleven sources names the last packet that wrote the register and a word equal to its value |
| `Submission.PlanReadsTheBuffer` | src/execution/sce_agc_first_raster_submission.cpp:432-549 | The draw and instance sources name the words that hold the planned counts and initiator, the instances being the last ones before the draw |
| `Submission.PlanIsReadOff` | src/execution/sce_agc_first_raster_submission.cpp:676-730 | Both program addresses, the colour target and the primitive type of a plan are computed from the very words that its sources name, geometry from geometry and pixel from pixel |
| `Submission.SplitProgramResolves` | src/graphics/shader_register_state.cpp:98-197 | A code address split as shader preparation splits it resolves to itself |
| `Machine.AppendLittleEndian` | src/execution/guest_worker_wire.cpp:29-59 | The byte appenders write the little-endian bytes |
| `Machine.ReadLittleEndian` | src/execution/guest_worker_wire.cpp:61-102 | The byte readers accumulate the little-endian value |
| `Wire.PayloadLength` | src/execution/guest_worker_wire.cpp:162-185 | The payload has the size declared for its kind |
| `Wire.EncodeMessage` | src/execution/guest_worker_wire.cpp:433-479 | Valid messages, and only they, encode to their frame; the size exit is unreachable |
| `Wire.DecodeHeader` | src/execution/guest_worker_wire.cpp:359-430 | Accepts exactly the headers the encoder writes, otherwise reports the first wrong field |
| `Wire.ReadPayload` | src/execution/guest_worker_wire.cpp:510-720 | Reading fields at the fixed offsets inverts packing for every kind |
| `Wire.DecodeMessage` | src/execution/guest_worker_wire.cpp:482-732 | Accepts exactly the frames of valid messages and returns that message; every refusal is explained |
| `Wire.FrameLayout` | src/execution/guest_worker_wire.cpp:245-318 | The frame of a message is the one byte string with the magic, version, kind and size in the header and every field at its listed offset, for all nine kinds |
| `Wire.ValidCodes` | src/execution/guest_worker_wire.cpp:104-243 | Which stop, fault, termination and diagnostic codes are valid, and that a run request needs a budget |
| `Wire.InvalidFieldIsThere` | src/execution/guest_worker_wire.cpp:510-732 | A refused value is reported with its own offset: the bytes there are the reported value |
| `Wire.FrameInjective` | src/execution/guest_worker_wire.cpp:245-318 | Different messages have different frames |
| `Wire.PrefixFree` | src/execution/guest_worker_wire.cpp:245-318 | No frame begins another: equal streams starting with frames start with the same message and continue the same |
| `Wire.RoundTrip` | src/execution/guest_worker_wire.cpp:433-732 | Decoding an encoded message gives it back |
| `Wire.ReceiveMessage` | src/execution/guest_worker_process_session.cpp:546-640 | Reads exactly the first frame of a stream, and fails exactly when no valid frame starts it |
| `Wire.ReceiveAll` | src/execution/guest_worker_process_session.cpp:546-640 | Splits a stream into valid frames and a rest that starts with none |
| `Wire.StreamSplits` | src/execution/guest_worker_process_session.cpp:546-640 | Any concatenation of valid frames splits back into the same messages |
| `Wire.SendAndReceive` | src/execution/guest_worker_process_session.cpp:494-640 | Messages sent one after the other are received one by one, unchanged |
| `Session.JudgeMeans` | src/execution/guest_worker_process_session.cpp:2614-2762 | Each loop turn is taken exactly for the messages the protocol allows at that point, and limit, service and identity errors exactly for their reasons |
| `Session.CheckConfig` | src/execution/guest_worker_process_session.cpp:77-146 | The configuration check, step by step, for both platforms |
| `Session.MustContinue` | src/execution/guest_worker_process_session.cpp:2608-2782 | Any completed conversation that begins with what was heard continues with an acceptable message that the environment lets the controller act on |
| `Session.RunLoop` | src/execution/guest_worker_process_session.cpp:2608-2782 | Ends with an agreeing stop after legitimate calls and at most one event, or with the exact error of the next step and no conversation left to complete; at most maximum + 2 messages |
| `Session.RunSession` | src/execution/guest_worker_process_session.cpp:2497-2859 | Against any worker, channel and service: success exactly for a completed conversation (matching ids, bounded legitimate calls, at most one event, one agreeing stop, exit 0), with the exact messages sent, the last one terminating with cause 2 after a guest fault, 3 at a diagnostic boundary and 0 otherwise; every failure with its error and the whole trace up to it; the service only ever sees legitimate calls made before any terminal event and never more than the maximum |
| `DiagnosticRun.DiagnosticConfigIsValid` | src/app/linux_retail_diagnostic.cpp:517-545 | The shipped configuration is valid for every absolute NUL-free path and non-empty artifact |
| `DiagnosticRun.UnexpectedMessages` | src/app/linux_retail_diagnostic.cpp:386-482 | The worker exit codes 73 to 81 for failed reads and unexpected messages, and the controller errors of the handshake |
| `DiagnosticRun.ControllerKeeps` | src/execution/guest_worker_process_session.cpp:2555-2859 | Every controller step keeps the invariant of the composed system and makes progress |
| `DiagnosticRun.WorkerKeeps` | src/app/linux_retail_diagnostic.cpp:369-484 | Every worker step keeps the invariant of the composed system and makes progress |
| `DiagnosticRun.NoDeadlock` | src/app/linux_retail_diagnostic.cpp:369-484 | A reachable system that is not finished can take a step |
| `DiagnosticRun.EveryRunEndsWell` | src/app/linux_retail_diagnostic.cpp:369-484 | Over byte channels and for every interleaving: at most fourteen steps, no unexpected message or bad exit code, and the run can always go on until the diagnostic is delivered and the worker exits 0 (78 and end of stream without an analysis stack) |
| `DiagnosticRun.WorkerScriptCompletes` | src/app/linux_retail_diagnostic.cpp:369-484 | The worker's messages are a completed conversation of the session operation |
| `DiagnosticRun.RunLogs` | src/execution/guest_worker_process_session.cpp:2555-2859 | Over every run what the composed controller sent and received are prefixes of the two scripts |
| `DiagnosticRun.SessionMeetsWorker` | src/execution/guest_worker_process_session.cpp:2497-2859 | The session operation against the shipped worker returns what the composed controller ends with, and its trace is what that controller sent and received in every finished run |
| `Quoting.QuoteArgument` | src/execution/guest_worker_process_session.cpp:1898-1940 | The backslash-counting loop produces the quoted form |
| `Quoting.BuildCommandBuffer` | src/execution/guest_worker_process_session.cpp:2214-2238 | The joined, terminated command line |
| `Quoting.QuotingRoundTrips` | src/execution/guest_worker_process_session.cpp:1898-1940 | Parsing by Microsoft's C++ command-line rules gives back every quoted argument and stops right after it |
| `Quoting.ParseJoined` | src/execution/guest_worker_process_session.cpp:2214-2232 | Parsing the joined arguments gives back the list, including empty arguments and trailing backslashes |
| `Quoting.RuleWhiteSpace` | src/execution/guest_worker_process_session.cpp:1898-1940 | Spaces and tabs end an argument outside quotes and stand for themselves inside |
| `Quoting.RuleBackslashes` | src/execution/guest_worker_process_session.cpp:1898-1940 | Backslashes are literal unless a quotation mark follows |
| `Quoting.RuleOdd` | src/execution/guest_worker_process_session.cpp:1898-1940 | An odd number of backslashes before a mark: half of them and a literal mark |
| `Quoting.RuleEven` | src/execution/guest_worker_process_session.cpp:1898-1940 | An even number: half of them and a delimiter, or a literal mark for a doubled one inside quotes |
| `Quoting.RuleProgram` | src/execution/guest_worker_process_session.cpp:2214-2218 | The program-name rule: marks switch quoting and are dropped, nothing is escaped |
| `Quoting.CommandLineRoundTrips` | src/execution/guest_worker_process_session.cpp:2214-2232 | The whole command line gives back program and arguments if and only if the program has no quote and, if it contains a blank, no trailing backslash; the arguments survive whenever the program has no quote |
| `Quoting.QuotedDirectoryIsMisread` | src/execution/guest_worker_process_session.cpp:2214-2218 | A concrete program path whose last backslash arrives doubled |

## Left out

- Operating-system calls and their wrappers (mapping, signals, ptrace, sockets, spawning, job objects, deadlines): the channel is a message or byte sequence, guest memory a map from addresses to bytes, and sends, receives, service calls and the exit status are inputs.
- Host allocation failures and host-size limits: every branch that only a failed allocation or a 32-bit `size_t` reaches is absent.
- `read_c_string`, the single-patch appliers, the synthetic relocation appliers and the import-binding tables: smaller instances of the modelled batches.
- Native guest entry, signal and exception recovery, ELF loading, AGC container parsing (apart from register lists), HLE tables, report printing.
- Vector and floating-point shader operations: they decode and lower, and the scalar executor refuses them, as the code does; what they compute is not modelled.
- Raw encoding bytes kept for diagnostics in decoded instructions, and GPU memory writes of the WRITE_DATA packet.
- Planning the image of a colour target is a parameter of the submission.
- ResolveTarget: the bit fields cut out of the colour registers are not extracted, because they are plain shifts; the raw words and the base address are there.
- Page permissions are three booleans, so an invalid permission mask cannot be built and its error exit is absent; the power-of-two test by bit masking is a recursive predicate.
- UTF-8 to UTF-16 conversion of command-line arguments: arguments are strings of characters on both sides.
- Whether an executable path is absolute is an input of the session configuration.
- Counters.NextEpoch: the compare-and-swap loop is one atomic step, so contention is not modelled.
- ExecuteScalarProgram: the report of a failing block does not contain that block's own earlier writes, in the code as in the model; the final state does.
- FindConflict: which of several conflicting pairs is reported depends on the sort and is not fixed; the reported pair does conflict.
- EveryRunEndsWell: assumes that sends do not fail and that channels hold the at most three frames in flight.
