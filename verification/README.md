# Verified model of the MERLIN-V verifier, JIT, map store and namespaces

MERLIN-V loads small RISC-V programs into a host. This project models, in Dafny, the
four user-space components that decide whether and how such a program runs, and proves
what they promise.

- **The program verifier** (`tools/merlin-verifier`): an abstract interpreter over
  RV64. It decodes the text (`Decoder`), cuts it into basic blocks and links them
  (`ControlFlow`), computes a reverse postorder by depth-first search (`Graphs`) and
  dominators by the Cooper-Harvey-Kennedy iteration (`Dominators`), and runs a worklist
  of block states (`Domain`, `Transfer`, `Verify`) over tnums, ranges and pointer
  offsets (`Tnums`). `Inclusion` gives the join its meaning in terms of what a value says
  of a register, and `Discipline` the exact conditions and effects of a step. `Soundness` relates the result to the concrete machine (`Rv64`);
  `VisitLog` says what the log of an analysis determines (with `CfgUnique`, what the text
  determines of its graph), `Defined` when tracked registers are defined, `LoopGate` what
  the gating of back edges achieves (over the shape of the search, `DfsTree`), and
  `Announced` what a marked header means. `Witnesses`, `HalfDefined` and `SkippedBound`
  follow concrete texts to the verdict; `Canonical` is the decoder's other direction;
  `KernelDfs` is the kernel's explicit-stack search, shown equal to the recursive one.
- **The RV64 to x86-64 JIT** (`tools/merlin-jit-x86_64`): `Emit` is the byte emitter,
  `X86` decodes and executes the emitted subset (Intel SDM volume 2 encodings), `Jit` is
  the translator and its simulation proof, and `JitSafety` joins it to the verifier.
- **The map store and its transactions** (`tools/merlin-txn`): `MapSlots` is one slot
  table, `Replays` the meaning of a transaction on mathematical maps, `Store` the
  mutable store that refines it.
- **Namespaces** (`tools/merlin-ns`): `Namespaces`.

`Basics` holds shared vocabulary, `Words` 64-bit arithmetic and bits. All machine
integers are unbounded integers with explicit wrap-around.

## Main results

- *Soundness.* For every text `VerifyText` accepts and every run of it, the registers at
  each moment lie in the state computed for that place, accesses through a defined base
  that state tracks as a stack pointer stay in the frame, helper and kfunc ids in defined
  registers are on the allow lists, jumps other than returns go through an allowed
  kfunc's address, and no forbidden class executes (`Soundness.AcceptedIsSafe`). Where no
  join hides an uninitialised register, tracked bases are defined
  (`Defined.DefinedIsSafe`).
- *The step.* An instruction passes exactly under a condition on its fields and the
  registers, class by class (`Discipline.AccessDiscipline` and its neighbours), and the join
  loses no more than it must: it is included in every value that includes both
  (`Inclusion.JoinIsLeast`).
- *The verdict.* The analysis makes exactly the visits of a worklist machine, a unique
  log; the text is accepted exactly when that log stays within the step cap, raises no
  rejection and marks every back edge's target (`Verify.VerifyText`,
  `VisitLog.FullLogUnique`). Along it no offset computation overflows
  (`VisitLog.OffsetsNeverOverflow`).
- *Dominators.* After the fixpoint, the idom chains are exactly the dominators, and the
  iteration ends on every graph (`Dominators.ComputeDominators`).
- *Loops.* If every retreating edge is a recorded back edge, every cycle has a marked
  header and no run stays away from marked headers (`LoopGate.RunsMeetMarkedHeaders`).
  That is so exactly when every cycle uses a recorded back edge (`LoopGate.ReducibleIff`).
  A mark means that some block calls a loop helper and leads into the header
  (`Announced.MarkedIsAnnounced`); a run into a header that no path reaches around those
  blocks has made such a call (`Announced.HeaderIsPreceded`).
- *JIT.* The emitted bytes return the a0 of the text's interpretation, after the same
  helper calls, and give the caller its registers and memory back (`Jit.JitCorrect`). The
  calls made for an accepted text are those the verifier checked
  (`JitSafety.JitCallsAllowed`). A text is translated exactly when every instruction before
  its first jalr is of a listed kind (`Jit.SupportedIff`).
- *Store.* A commit is the replay of its operations on mathematical maps, up to the first
  failure (`Store.Store.Commit`, `Replays.ReplayOutcome`). Each operation code has its stated
  effect (`Replays.OperationsMean`), and whole transactions keep what their codes promise
  (`Replays.CodesKeep`, `Replays.SparedKeyKept`).
- *Namespaces.* Composition is a meet: the bottom of a chain admits exactly what every
  configuration on the chain admits (`Namespaces.ChainAdmits`).

## Where the code falls short of its own words

- A direct jump or branch to pc 0 loses its edge, since 0 also means "no successor"
  (`ControlFlow.EdgesExact` has the exact condition; it cannot happen when the text is
  loaded at a non-zero offset without wrap-around). At offset 0 acceptance is then
  unsound: a loop that pushes without end is accepted (`Witnesses.PushLoopIsAccepted`,
  `Witnesses.PushLoopLeavesFrame`).
- "sp changes only by addi sp, sp, K" is enforced except for six instruction classes
  with destination sp (`Soundness.SpDiscipline`, `Soundness.ShiftOfSpIsAccepted`).
- `reducible` is always true, and an irreducible loop is accepted with nothing to gate it
  (`Witnesses.IrreducibleIsAccepted`, `Witnesses.IrreducibleRuns`;
  `LoopGate.ReducibleIff` has the exact condition).
- The join takes an uninitialised register for bottom, so pointer provenance is not
  assured: a register set on one path only is tracked as a stack pointer on both
  (`HalfDefined.HalfDefinedIsAccepted`, `HalfDefined.HalfDefinedRuns`;
  `Defined.DefinedIsSafe` says when this cannot happen).
- "A loop header is preceded by merlin_loop_bound" is not true of runs: the block that
  makes the call need not dominate the header (`SkippedBound.SkippedBoundIsAccepted`,
  `SkippedBound.SkippedBoundRuns`; `Announced.GuardedIff` has the exact condition).
- The design asks for addi a7, x0, K right before every ecall; the code asks only that a7
  be a constant there (`Soundness.EcallDiscipline`, `SkippedBound.CallIsNotAdjacent`).
- The comment beside the jalr check names two forms; other link registers and immediates
  pass too (`Soundness.JalrDiscipline`, `Soundness.OtherJalrIsAccepted`), and the JIT,
  which relies on the first form, translates every jalr as a return
  (`JitSafety.EveryJalrReturns`).
- The decoder reads some illegal words as instructions
  (`Canonical.DecodedIsAssembledIff`, `Canonical.IllegalAddIsRead`).
- The callback entry state declares its index register's unsigned range to be [0, 0];
  callback bodies are therefore covered without the unsigned ranges
  (`Soundness.CallbackIndexRange`).
- `mulw` is translated as `mul`; the two agree exactly when the product fits 32 bits
  (`Jit.MulwExact`, `Jit.MulwIsTranslatedAsMul`).
- The header says a failed commit aborts; it keeps the effects before the failing
  operation (`Replays.AtomicIff`, `Replays.FailedCommitKeepsItsPrefix`). It also says that
  a map's version counts commits, which it does exactly when each applies one operation
  (`Replays.VersionCountsOneIff`, `Replays.TwoInsertsRaiseByTwo`), and that REPLACE_ALL
  does not use the value (`Replays.ReplaceAllUsesValue`, `Replays.ReplaceAllWitness`).
- A load may exceed a set quota exactly when the total reaches 2^64
  (`Namespaces.WrapAdmits`; `Namespaces.AdmitsIff` has the exact condition).

## Model

| member | source | states |
|---|---|---|
| Tnums.AddSound | tools/merlin-verifier/tnum.h:84-93 | the wrapped sum of members is a member of the sum tnum |
| Tnums.AddOptimal | tools/merlin-verifier/tnum.h:84-93 | each unknown bit of the sum tnum is 1 for some members and 0 for others, which the lemma returns |
| Tnums.SubSound | tools/merlin-verifier/tnum.h:95-104 | the wrapped difference of members is a member of the difference tnum |
| Tnums.SubOptimal | tools/merlin-verifier/tnum.h:95-104 | each unknown bit of the difference tnum is attained as 1 and as 0 |
| Tnums.BitwiseSound | tools/merlin-verifier/tnum.h:106-129 | and, or, xor of members are members of the corresponding tnum |
| Tnums.BitwiseOptimal | tools/merlin-verifier/tnum.h:106-129 | each unknown bit of an and, or, xor tnum is attained as 1 and as 0 |
| Tnums.ShiftSound | tools/merlin-verifier/tnum.h:131-149 | shifting a member by any amount, 64 and above included, gives a member of the shifted tnum |
| Tnums.ShiftBeyond | tools/merlin-verifier/tnum.h:131-149 | from 64 on, a left shift has every word as a member and a right shift exactly 0 |
| Tnums.ShiftOptimal | tools/merlin-verifier/tnum.h:131-149 | below 64, each unknown bit of a shifted tnum is attained as 1 and as 0 |
| Tnums.JoinLeast | tools/merlin-verifier/tnum.h:74-81 | the join of two tnums has the members of both, and is contained in every tnum that has them |
| Tnums.ScalarAddRanges | tools/merlin-verifier/tnum.h:205-243 | the overflow tests fall back to the full range exactly when an endpoint sum leaves the type |
| Tnums.ScalarAddSound | tools/merlin-verifier/tnum.h:205-243 | signed range, unsigned range and tnum contain the wrapped sum at once |
| Tnums.ScalarJoinSound | tools/merlin-verifier/tnum.h:193-203 | the joined scalar has the values of both |
| Decoder.ImmRanges | tools/merlin-verifier/decode.c:20-55 | range and alignment of every immediate the decoder produces, for every class that has one |
| Decoder.DecodeAssembled | tools/merlin-verifier/decode.c:58-242 | decoding an assembled instruction gives back operation, registers and immediate, for all RV64IM forms including shifts, M and W |
| Canonical.DecodedIsAssembledIff | tools/merlin-verifier/decode.c:58-242 | a word read as an instruction is that instruction's encoding exactly when funct7 of the register and shift forms and the fence fields have the values the encoding fixes |
| Canonical.IllegalAddIsRead | tools/merlin-verifier/decode.c:159-169 | a word with funct7 = 2 under opcode 0x33 is read as an add |
| ControlFlow.FindLeaders | tools/merlin-verifier/cfg.c:61-114 | succeeds exactly when every direct target is in the text; then marks exactly the leaders |
| ControlFlow.LeaderIff | tools/merlin-verifier/cfg.c:61-114 | an instruction is a leader exactly when it is the first, follows a branch, jal or jalr, or holds the target of a branch or jal |
| ControlFlow.CutBlocks | tools/merlin-verifier/cfg.c:118-189 | one block per leader, tiling the text, control transfers only at block ends; fails exactly above the block limit |
| ControlFlow.BlockAt | tools/merlin-verifier/cfg.c:373-380 | the first block that starts at a pc, or none |
| ControlFlow.LinkBlocks | tools/merlin-verifier/cfg.c:191-232 | successor indices of every block resolve its successor pcs |
| ControlFlow.SlotsExact | tools/merlin-verifier/cfg.c:158-232 | which offset each of the two slots leads to, by the class of the last instruction, and exactly when a slot is empty |
| ControlFlow.EdgesSound | tools/merlin-verifier/cfg.c:118-232 | each successor of a block starts where its last instruction can go |
| ControlFlow.EdgesComplete | tools/merlin-verifier/cfg.c:118-232 | each in-text next pc starts a successor block |
| ControlFlow.EdgesExact | tools/merlin-verifier/cfg.c:118-232 | a block's successors are exactly the in-text next pcs, direct targets at pc 0 excepted |
| ControlFlow.WhenZeroIsAvoided | tools/merlin-verifier/cfg.c:223-228 | no edge is lost where the text is loaded above pc 0 without wrapping; at offset 0 exactly when nothing branches or jumps to the start |
| ControlFlow.EdgeToPcZeroIsLost | tools/merlin-verifier/cfg.c:223-228 | with text offset 0 no control transfer has an edge to the first block |
| ControlFlow.FindBackEdges | tools/merlin-verifier/cfg.c:338-369 | records exactly the edges into a dominator of their source, one entry per successor slot in block order, and never overflows the table |
| ControlFlow.BuildCfg | tools/merlin-verifier/cfg.c:382-415 | succeeds exactly on buildable texts, with blocks, order, dominators and the list of back edges all as specified; on the empty text, an empty graph |
| ControlFlow.BuildableIff | tools/merlin-verifier/cfg.c:382-415 | whole words, at most 65536 of them, every branch and jal target inside the text, at most 4096 leaders |
| CfgUnique.CfgUnique | tools/merlin-verifier/cfg.c:382-415 | text and placement determine blocks, order and the set of back edges |
| Graphs.VisitAdds | tools/merlin-verifier/cfg.c:236-250 | what one recursive visit appends to the postorder: exactly the newly seen blocks, once each, the root last, each other one before some predecessor |
| Graphs.RpoVisit | tools/merlin-verifier/cfg.c:236-250 | the recursive visit on mutable arrays computes the functional search |
| Graphs.ComputeRpo | tools/merlin-verifier/cfg.c:252-265 | fills rpo with the reversed postorder and marks the reachable blocks |
| Graphs.RpoCorrect | tools/merlin-verifier/cfg.c:236-265 | rpo lists exactly the reachable blocks, without repeats, entry first, each other one after some predecessor |
| Graphs.FirstSlotFirst | tools/merlin-verifier/cfg.c:244-248 | the entry's first successor finishes before its second exactly when it does not lead to it around the entry |
| DfsTree.VisitSegmented | tools/merlin-verifier/cfg.c:236-250 | in what a visit appends, each block stands right after the blocks reached from it, and blocks before those have no edge to it |
| DfsTree.RetreatingCloses | tools/merlin-verifier/cfg.c:236-265 | an edge back in the order closes a path that goes forward in it |
| KernelDfs.ResumePush | kernel/merlin/cfg.c:188-211 | pushing the next unseen successor does not change what the rest of the search computes |
| KernelDfs.ResumePop | kernel/merlin/cfg.c:188-211 | popping a finished block does not change what the rest of the search computes |
| KernelDfs.ComputeRpoIterative | kernel/merlin/cfg.c:171-218 | the explicit-stack search gives the rpo and flags of the recursive one, pushing each reachable block exactly once |
| Dominators.Intersect | tools/merlin-verifier/cfg.c:269-278 | returns the nearest common ancestor in the idom tree |
| Dominators.NewIdom | tools/merlin-verifier/cfg.c:298-314 | the nearest common ancestor of all processed predecessors, or none |
| Dominators.MeetSlot | tools/merlin-verifier/cfg.c:303-313 | one successor slot folds its block into the common ancestor exactly when it leads to the block and is processed |
| Dominators.LossSpreads | tools/merlin-verifier/cfg.c:280-322 | a block lost from a chain within a pass is lost from every chain below it |
| Dominators.DuringStep | tools/merlin-verifier/cfg.c:296-319 | one update keeps the invariant of a pass |
| Dominators.ChangeLowers | tools/merlin-verifier/cfg.c:315-318 | an update that changes idom lowers the potential: it defines an idom or lowers its rank |
| Dominators.Pass | tools/merlin-verifier/cfg.c:294-321 | a pass that changes something lowers a potential; one that changes nothing is at the fixpoint |
| Dominators.FixpointExact | tools/merlin-verifier/cfg.c:280-322 | at the fixpoint, idom chains are exactly the dominators |
| Dominators.ComputeDominators | tools/merlin-verifier/cfg.c:280-322 | ends on every graph, with exactly the dominators of every reachable block |
| Dominators.IsDominator | tools/merlin-verifier/cfg.c:324-334 | for a reachable block, true exactly when every path from the entry passes through the candidate |
| Domain.JoinValCommutes | tools/merlin-verifier/verify.c:137-165 | the join of register values is commutative |
| Domain.JoinValAssociates | tools/merlin-verifier/verify.c:137-165 | the join of register values is associative |
| Domain.JoinValIdempotent | tools/merlin-verifier/verify.c:137-165 | the join is idempotent on well-formed values |
| Domain.JoinValExtremes | tools/merlin-verifier/verify.c:137-165 | UNINIT is the bottom and scalar top the top |
| Domain.JoinValLeast | tools/merlin-verifier/verify.c:137-165 | the join is the least upper bound in the order it defines; `Inclusion.BelowIff` says what that order is |
| Inclusion.JoinIsLeast | tools/merlin-verifier/verify.c:137-165 | the joined value includes both and is included in every value that includes both, where inclusion nests offset ranges, signed and unsigned ranges and tnum members and keeps ids |
| Inclusion.BelowIff | tools/merlin-verifier/verify.c:137-183 | the order of the analysis is that inclusion |
| Inclusion.JoinStateIsLeast | tools/merlin-verifier/verify.c:186-205 | the joined state includes both states and is included in every state that does |
| Inclusion.TnumJoinIff | tools/merlin-verifier/tnum.h:74-81 | one tnum has the members of another exactly when joining changes nothing |
| Inclusion.TopSaysNothing | tools/merlin-verifier/tnum.h:177-186 | scalar top allows every word, and no other well-formed scalar does |
| Domain.JoinStateUpper | tools/merlin-verifier/verify.c:186-205 | the joined state is above both states |
| Domain.VstateJoin | tools/merlin-verifier/verify.c:186-205 | dst becomes the join, register by register, and true is returned exactly when dst changed |
| Transfer.StepEcall | tools/merlin-verifier/verify.c:364-530 | new registers, rejections and pending loop bound of a helper call |
| Transfer.StepAddi | tools/merlin-verifier/verify.c:593-670 | new registers and rejections of addi, with the stack-pointer discipline |
| Transfer.StepInsn | tools/merlin-verifier/verify.c:349-778 | one instruction's registers, rejections (at most two) and pending bound, as three functions that the rows of `Discipline` state in terms of the instruction's fields |
| Discipline.PermittedIff | tools/merlin-verifier/decode.c:274-293 | a word is of a permitted class exactly when it reads as an instruction other than ebreak and fence.i |
| Discipline.ForbiddenWords | tools/merlin-verifier/verify.c:356-362 | rdcycle, mret, ebreak, fence.i, fadd.s and a compressed word are rejected in every state |
| Discipline.AccessDiscipline | tools/merlin-verifier/verify.c:533-590 | a load or store passes exactly when its base is a pointer, a stack-tracked base keeps all 2^(funct3 % 4) bytes in the frame, and a load does not target sp |
| Discipline.ImmDiscipline | tools/merlin-verifier/verify.c:593-682 | an immediate operation passes exactly when it spares sp or is an addi of sp that stays in the frame |
| Discipline.RegDiscipline | tools/merlin-verifier/verify.c:704-736 | a register operation passes exactly when it spares sp and not both operands are pointers |
| Discipline.OtherDiscipline | tools/merlin-verifier/verify.c:684-777 | lui, auipc and jal pass exactly when they spare sp; the classes without a check always pass |
| Discipline.AddiEffect | tools/merlin-verifier/verify.c:593-670 | the register addi leaves: a known word, the sum of a scalar, or a pointer moved by the immediate; no other register changes |
| Discipline.RegEffect | tools/merlin-verifier/verify.c:704-736 | a pointer keeps its kind with offsets within 2^30; scalars become unknown; no other register changes |
| Discipline.OtherEffect | tools/merlin-verifier/verify.c:672-777 | lui leaves its immediate, the other writes something unknown; stores, branches and jalr change no register |
| Discipline.CallEffect | tools/merlin-verifier/verify.c:364-530 | a call empties exactly the registers the calling convention does not preserve and puts slot, helper result or an unknown in a0 |
| Discipline.PendingEffect | tools/merlin-verifier/verify.c:375-500 | the loop-bound helper leaves its count pending, 2^32 - 1 if unknown; so a count that is unknown or not 0 leaves a bound pending |
| Discipline.AllowedIff | tools/merlin-verifier/verify.c:208-245 | id k of an allow list is bit k % 8 of byte k / 8; ids from 4096 on are not allowed |
| Discipline.EntryState | tools/merlin-verifier/verify.c:108-135 | the value of every register at the entry, of a program and of a callback body; the default step cap |
| Discipline.ContextLoadPasses | tools/merlin-verifier/verify.c:108-135 | a load through the context pointer passes in the entry state |
| Verify.StepSane | tools/merlin-verifier/verify.c:549-590 | a step keeps tnums well formed, pointer offsets within 2^30 + 2^11 per step, and an unrejected stack pointer in the frame |
| Verify.RegsAtSane | tools/merlin-verifier/verify.c:849-901 | the same over a whole block |
| Verify.JoinKeeps | tools/merlin-verifier/verify.c:911-919 | joining into a successor and queueing it if it grew keeps the worklist invariant |
| Verify.Worklist.Push | tools/merlin-verifier/verify.c:786-793 | appends a block unless it is queued; entries stay distinct |
| Verify.Worklist.Pop | tools/merlin-verifier/verify.c:794-799 | removes and returns the last entry, or -1 |
| Verify.QueueRoom | tools/merlin-verifier/verify.c:782-793 | the queue never holds more entries than there are blocks |
| Verify.RunBlock | tools/merlin-verifier/verify.c:853-903 | runs a block in place; stops when the step cap is passed |
| Verify.Propagate | tools/merlin-verifier/verify.c:912-919 | one offer of the worklist machine: joins the exit state into a successor and queues it if it grew, keeping the invariant |
| Verify.Iterate | tools/merlin-verifier/verify.c:844-920 | one visit of the worklist machine: new entry states, queue and marks, and the invariant that unqueued blocks are done |
| Verify.LogStep | tools/merlin-verifier/verify.c:844-920 | the machine's next visit extends the log that accounts for states, queue, marks, steps and rejections |
| Verify.Analyse | tools/merlin-verifier/verify.c:841-920 | ends with the full log of the worklist machine; with nothing rejected, the states are a post-fixpoint that replays without rejection |
| Verify.Unguarded | tools/merlin-verifier/verify.c:925-935 | the number of back edges that end at an unmarked block |
| Verify.VerifyText | tools/merlin-verifier/verify.c:801-947 | makes exactly the machine's visits, to an empty worklist or past the cap; accepts exactly when the graph is buildable and that log is clean; its states and marks are the log's; acceptance gives the certificate `Accepted` |
| Verify.Judge | tools/merlin-verifier/verify.c:831-947 | the same for a built graph, as the predicate `Judged` |
| VisitLog.FullLogUnique | tools/merlin-verifier/verify.c:841-920 | the full log of an analysis is unique |
| VisitLog.VerdictDetermined | tools/merlin-verifier/verify.c:801-947 | two outcomes for the same text, placement and configuration have the same verdict, blocks and log |
| VisitLog.CleanIsAccepted | tools/merlin-verifier/verify.c:801-947 | a clean full log over the text's graph makes the verifier accept, with that log's states |
| VisitLog.LogSane | tools/merlin-verifier/verify.c:841-920 | after any visits, accepted or not, offsets are at most 2^30 + 2^11 per step, and sp is in the frame while nothing was rejected |
| VisitLog.OffsetsNeverOverflow | tools/merlin-verifier/verify.c:551-555 | at every step of every analysis no 64-bit offset or frame-window sum overflows |
| Soundness.ExecSound | tools/merlin-verifier/verify.c:349-778 | one concrete instruction from covered registers ends in covered registers |
| Soundness.StartSound | tools/merlin-verifier/verify.c:108-135 | the concrete start registers lie in the entry state |
| Soundness.StepCovered | tools/merlin-verifier/verify.c:844-920 | a concrete step of an accepted program stays covered, within a block or along an edge, if nothing jumps to pc 0 |
| Soundness.RunCovered | tools/merlin-verifier/verify.c:801-947 | every state of every run is covered by a reachable block |
| Soundness.AcceptedIsSafe | tools/merlin-verifier/verify.c:801-947 | at every moment of every run of an accepted text the run is in a reachable block, its registers lie in the replay of that block from its computed entry state, and the next instruction is safe judged by that state: all the bytes the instruction touches, the call and the indirect jump |
| Soundness.SpAccessInFrame | tools/merlin-verifier/verify.c:533-590 | loads and stores through a defined sp keep all 2^(funct3 % 4) bytes in the frame, in concrete terms |
| Defined.RunDefined | tools/merlin-verifier/verify.c:137-165 | where no join hides an uninitialised register, registers tracked as narrow stack pointers are defined on every run |
| Defined.DefinedIsSafe | tools/merlin-verifier/verify.c:533-590 | then every access through a tracked base has all its bytes in the frame, without the proviso that the base be defined |
| HalfDefined.HalfDefinedIsAccepted | tools/merlin-verifier/verify.c:139-142 | a text with s0 set on one path only is accepted, with s0 tracked as a stack pointer at the store |
| HalfDefined.HalfDefinedRuns | tools/merlin-verifier/verify.c:139-142 | that text has a run that makes the store with s0 undefined |
| Soundness.SpDiscipline | tools/merlin-verifier/verify.c:605-660 | an unrejected instruction keeps sp stack-tracked exactly outside six unchecked classes |
| Soundness.EcallDiscipline | tools/merlin-verifier/verify.c:364-530 | an ecall passes exactly when a7 is a constant allow-listed id and, for the two helpers that take one, the id in a0 or a1 is constant and allowed |
| SkippedBound.CallIsNotAdjacent | docs/design/06-verifier.md:359 | an ecall passes although the instruction before it does not set a7 |
| Soundness.JalrDiscipline | tools/merlin-verifier/verify.c:747-773 | a jalr passes exactly through ra or an allowed kfunc slot; which of those are the two forms the code names |
| Soundness.OtherJalrIsAccepted | tools/merlin-verifier/verify.c:747-773 | jalr sp, 8(ra) passes in every state and is neither form |
| Soundness.JumpReachesIff | tools/merlin-verifier/verify.c:747-773 | a jump through a kfunc's address reaches it exactly with immediate 0 or 1 |
| Soundness.ShiftOfSpIsAccepted | tools/merlin-verifier/verify.c:775-777 | slli sp, sp, 1 is not rejected and loses sp |
| Soundness.CallbackIndexRange | tools/merlin-verifier/verify.c:117-131 | the callback's index register is covered with its unsigned range exactly when the index is 0 |
| LoopGate.CyclesAreGated | tools/merlin-verifier/verify.c:922-935 | in an accepted reducible program every cycle of reachable blocks contains a marked header |
| LoopGate.RetreatingCycle | tools/merlin-verifier/cfg.c:338-369 | an edge back in the order closes a cycle none of whose other edges is a back edge |
| LoopGate.ReducibleIff | tools/merlin-verifier/cfg.c:338-369 | every edge back in the order is a recorded back edge exactly when every cycle of reachable blocks uses a recorded back edge |
| LoopGate.RunsMeetMarkedHeaders | tools/merlin-verifier/verify.c:922-935 | within a fixed number of steps every run enters a marked header |
| Announced.MarkedIsAnnounced | tools/merlin-verifier/verify.c:905-910 | a marked header follows a block that, in its computed state, calls a loop helper |
| Announced.GuardedIff | docs/design/06-verifier.md:361 | every path to a header passes an announcing block exactly when the header is unreachable once the edges leaving those blocks are cut |
| Announced.GuardedByOneIff | docs/design/06-verifier.md:361 | with one announcing block, exactly when it is another block and dominates the header |
| Announced.HeaderIsPreceded | docs/design/06-verifier.md:361 | every run of an accepted text that enters a header so guarded has called a loop helper before |
| SkippedBound.SkippedBoundIsAccepted | tools/merlin-verifier/verify.c:905-935 | a text whose header is announced by a block that does not dominate it is accepted, and the header is not guarded |
| SkippedBound.SkippedBoundRuns | tools/merlin-verifier/verify.c:905-935 | that text has runs of every length in the loop that never make the call |
| Witnesses.RetIsAccepted | tools/merlin-verifier/verify.c:747-773 | the verifier accepts a bare return, under every configuration and wherever it is loaded |
| Witnesses.IrreducibleIsAccepted | tools/merlin-verifier/cfg.c:338-369 | the verifier accepts a three-word text with a two-entry loop; it has no back edge, and its graph is not reducible |
| Witnesses.IrreducibleRuns | tools/merlin-verifier/verify.c:922-935 | that text has runs of every length that meet no marked header |
| Witnesses.PushLoopIsAccepted | tools/merlin-verifier/cfg.c:223-228 | at text offset 0 the verifier accepts a loop that pushes for ever, in any frame that holds one round |
| Witnesses.PushLoopLeavesFrame | tools/merlin-verifier/cfg.c:223-228 | that text has runs of every length, and in every frame some store outside it |
| Emit.EmitBuf.constructor | tools/merlin-jit-x86_64/emit.c:29-37 | an empty buffer of the given capacity |
| Emit.EmitBuf.Reserve | tools/merlin-jit-x86_64/emit.c:46-59 | doubles the capacity until the bytes fit and no further; the contents stay |
| Emit.EmitBuf.EmitByte | tools/merlin-jit-x86_64/emit.c:61-66 | appends a byte |
| Emit.EmitBuf.EmitU32 | tools/merlin-jit-x86_64/emit.c:68-76 | appends the four little-endian bytes |
| Emit.EmitBuf.EmitU64 | tools/merlin-jit-x86_64/emit.c:78-84 | appends the eight little-endian bytes |
| Emit.EmitBuf.EmitBytes | tools/merlin-jit-x86_64/emit.c:86-92 | appends bytes |
| Emit.EmitBuf.Emit | tools/merlin-jit-x86_64/emit.c:95-290 | appends the bytes of one instruction |
| Emit.BytesDecode | tools/merlin-jit-x86_64/emit.c:95-290 | the bytes of each emitter decode, anywhere in the code, to the x86-64 instruction it is named after |
| X86.KnownCodes | tools/merlin-jit-x86_64/emit.c:95-290 | the full codes of the emitted instructions without a field decode to those instructions |
| X86.KnownImmediates | tools/merlin-jit-x86_64/emit.c:95-290 | the same for sub and add rsp, add rax and mov rax with an immediate |
| X86.KnownDisplacements | tools/merlin-jit-x86_64/emit.c:95-290 | the same for loads and stores of a register slot |
| Jit.Translate | tools/merlin-jit-x86_64/jit.c:214-265 | succeeds exactly on a non-empty text of whole words all supported before the first jalr, with the bytes of prologue and body |
| Jit.SupportedIff | tools/merlin-jit-x86_64/jit.c:119-212 | there is code for a text exactly when every instruction before the first jalr is addi, lui, add, sub, or, and, xor, mul, mulw, slli, srli, srai, ecall or fence |
| Jit.RunBytes | tools/merlin-jit-x86_64/emit.c:95-290 | running emitted bytes is running the instructions |
| Jit.PrologueSim | tools/merlin-jit-x86_64/jit.c:69-84 | the prologue builds the frame: zero registers, context in a0, rbx saved |
| Jit.StepSim | tools/merlin-jit-x86_64/jit.c:119-212 | the code of an instruction simulates it, under the translator's reading, on the register file in the frame |
| Jit.EpilogueSim | tools/merlin-jit-x86_64/jit.c:86-92 | the epilogue returns a0, restores rbx, rsp and the return address, and leaves the register file in the frame with regs[0] = 0 |
| Jit.JitComputes | tools/merlin-jit-x86_64/jit.c:69-266 | for every translated text, the bytes compute the interpretation that reads mulw as mul |
| Jit.JitFollows | tools/merlin-jit-x86_64/jit.c:69-266 | the bytes go through the states of that interpretation, each in the frame where the next instruction's code begins |
| Jit.JitCorrect | tools/merlin-jit-x86_64/jit.c:69-266 | same a0 and same helper calls, each with x0 = 0, as the interpreter; the frame ends with the interpreter's register file; caller's registers and memory kept, when every mulw fits |
| JitSafety.JitCallsAllowed | tools/merlin-jit-x86_64/jit.c:188-190 | every helper call that running the bytes of an accepted text makes was made at a moment of a run, with an allow-listed id where the id is defined |
| JitSafety.EveryJalrReturns | tools/merlin-jit-x86_64/jit.c:192-196 | the translator takes every jalr for a plain return, jalr sp, 8(ra) included |
| Jit.MulwAgrees | tools/merlin-jit-x86_64/jit.c:166-174 | mulw and mul of the same operands agree exactly when the product fits 32 bits |
| Jit.MulwExact | tools/merlin-jit-x86_64/jit.c:166-174 | the interpretation the emitted bytes follow goes through the text's own states exactly when every executed mulw into a register fits |
| Jit.MulwIsTranslatedAsMul | tools/merlin-jit-x86_64/jit.c:166-174 | mulw a0, a0, a0 on 0x10000: the text returns 0, running the emitted bytes returns 2^32 |
| MapSlots.SlotsMatch | tools/merlin-txn/store.h:30-42 | with unique keys, used slots and keys are equally many |
| MapSlots.FindKey | tools/merlin-txn/store.c:58-69 | finds the slot of a key exactly when the map has it |
| MapSlots.FindFree | tools/merlin-txn/store.c:103-112 | the first free slot, found exactly when the map has fewer than 256 keys |
| MapSlots.MapInsert | tools/merlin-txn/store.c:97-113 | EEXIST, ENOSPC or the map with the pair added, exactly as the mathematical map says |
| MapSlots.MapUpdate | tools/merlin-txn/store.c:115-124 | ENOENT or the key's value replaced |
| MapSlots.MapUpsert | tools/merlin-txn/store.c:126-136 | ENOSPC only for a new key in a full map; otherwise the pair is in the map |
| MapSlots.MapDelete | tools/merlin-txn/store.c:138-148 | the map without the key; ENOENT when it was not there |
| MapSlots.MapReplaceAll | tools/merlin-txn/store.c:150-163 | the first 256 pairs; keys stay unique exactly when those pairs' keys are distinct |
| Store.Store.constructor | tools/merlin-txn/store.c:18-23 | all maps dead, nothing locked |
| Store.Store.Create | tools/merlin-txn/store.c:25-38 | the lowest dead slot becomes an empty live map whose handle is returned; 0 exactly when none is dead |
| Store.Store.Destroy | tools/merlin-txn/store.c:40-45 | the map is gone, the others unchanged |
| Store.Store.FindMap | tools/merlin-txn/store.c:47-52 | true exactly for the handle of a live map |
| Store.Store.Lookup | tools/merlin-txn/store.c:58-69 | the mathematical map's value |
| Store.Store.Count | tools/merlin-txn/store.c:71-75 | the number of keys |
| Store.Store.Next | tools/merlin-txn/store.c:77-91 | the next used slot from a position on, skipping none; where the position ends up otherwise |
| Store.Store.Dump | tools/merlin-txn/merlin-txn.c:84-93 | iterating from 0 lists every pair of the map exactly once |
| Store.Txn.Begin | tools/merlin-txn/store.c:188-194 | an open, empty transaction |
| Store.Txn.Stage | tools/merlin-txn/store.c:196-223 | appends the operation or says why not; the touched table lists exactly the handles named, once each |
| Store.RoomToTouch | tools/merlin-txn/store.c:215-220 | the touched table is never full when a new handle arrives |
| Store.Txn.Abort | tools/merlin-txn/store.c:339-343 | the transaction is closed |
| Store.ConflictIff | tools/merlin-txn/store.c:233-247 | a conflict is found exactly when a touched map is locked, at the first such map |
| Store.BlockedIff | tools/merlin-txn/store.c:233-247 | a commit is held back exactly when flag bit 1 is clear and a staged operation names a locked map |
| Store.Store.FindConflict | tools/merlin-txn/store.c:236-247 | the first touched map that is locked, or 0 |
| Store.Store.SetLocks | tools/merlin-txn/store.c:249-254 | sets the flags of exactly the touched maps |
| Store.Store.ApplyOne | tools/merlin-txn/store.c:269-294 | the switch on the operation code has the effect of the operation on the mathematical map |
| Store.Store.ApplyAt | tools/merlin-txn/store.c:264-303 | one turn of the commit loop is one step of the replay |
| Store.Store.ApplyAll | tools/merlin-txn/store.c:256-304 | the loop leaves the replay of the staged operations, with its counts and result |
| Store.Store.Commit | tools/merlin-txn/store.c:225-337 | EINVAL unless open, not committed and not aborted, or EBUSY, changing nothing; otherwise the replay, closed transaction, touched maps unlocked |
| Replays.OperationsMean | tools/merlin-txn/store.c:97-163 | for each of the codes 1 to 5, exactly when the operation is applied, skipped or fails, the key set it leaves and the values it keeps; other codes fail |
| Replays.OneOperation | tools/merlin-txn/store.c:263-303 | the commit of one operation on a live map: the map, version, counts and result in each case; no other map changes |
| Replays.NoSuchMap | tools/merlin-txn/store.c:263-266 | an operation on a dead or unknown handle fails with EBADF and changes nothing |
| Replays.CodesKeep | tools/merlin-txn/store.c:256-304 | over whole transactions: updates alone keep the key set, inserts alone every pair, inserts, updates and upserts every key; deletes alone only take pairs away |
| Replays.SparedKeyKept | tools/merlin-txn/store.c:256-304 | a key that no operation on its map names keeps its value through any transaction without REPLACE_ALL on that map |
| Replays.ReplayOutcome | tools/merlin-txn/store.c:256-304 | success accounts for every operation; failure is the replay of exactly the operations before the failing one |
| Replays.ReplayAppend | tools/merlin-txn/store.c:256-304 | committing a and then b is committing a + b |
| Replays.VersionsRaised | tools/merlin-txn/store.c:296-303 | each version is raised by the operations applied to that map, modulo 2^32; other maps are unchanged |
| Replays.AppliedInTotal | tools/merlin-txn/store.c:296-303 | the applied count is the sum over the maps |
| Replays.VersionCountsOneIff | tools/merlin-txn/store.h:38 | a transaction raises a version by one exactly when one operation was applied to that map |
| Replays.TwoInsertsRaiseByTwo | tools/merlin-txn/store.c:296-303 | a transaction of two inserts raises the version by two |
| Replays.ReplaceAllUsesValue | docs/design/uapi/merlin/txn.h:57 | two REPLACE_ALL with the same key leave the same map exactly when their values are equal |
| Replays.ReplaceAllWitness | tools/merlin-txn/store.c:284-289 | two REPLACE_ALL that differ in the value leave different maps |
| Replays.AtomicIff | tools/merlin-txn/store.c:256-304 | a failing commit leaves the store unchanged exactly when the first operation that is not skipped fails |
| Replays.FailedCommitKeepsItsPrefix | tools/merlin-txn/store.c:256-304 | an insert before an unknown operation stays although the commit fails |
| Namespaces.BitGet | docs/design/uapi/merlin/namespace.h:101-106 | membership of an index; none beyond the words |
| Namespaces.LowestBit | tools/merlin-ns/ns.c:48-54 | the scan finds the lowest set bit of a non-zero word |
| Namespaces.BitsetSubset | tools/merlin-ns/ns.c:43-58 | inclusion of the sets, or the lowest offending index |
| Namespaces.MergeQuota | tools/merlin-ns/ns.c:87-109 | fails exactly where the child widens; otherwise the limit that allows what both allow |
| Namespaces.Compose | tools/merlin-ns/ns.c:62-128 | succeeds exactly when the child narrows the parent in every dimension |
| Namespaces.NarrowsIff | tools/merlin-ns/ns.c:62-109 | the condition field by field: no set gains an index, no limit set by the parent is exceeded |
| Namespaces.EffectiveFields | tools/merlin-ns/ns.c:62-128 | the composed configuration field by field: the child's flags and sets, the parent's parent id, the least limit set |
| Namespaces.Check | tools/merlin-ns/ns.c:130-185 | the first failing reason with its first offending id; acceptance exactly when the ids are permitted and the true totals of programs, maps, map memory and program memory each fit their limit |
| Namespaces.AdmitsIff | tools/merlin-ns/ns.c:130-185 | admission in terms of the fields: each total is unlimited, at most its limit, or past 2^64 by at most its limit |
| Namespaces.ComposeIsMeet | tools/merlin-ns/ns.c:62-185 | the composed namespace admits exactly what child and parent both admit |
| Namespaces.ChainAdmits | tools/merlin-ns/ns.c:62-185 | the bottom of a chain admits exactly what every configuration on it admits |
| Namespaces.AncestorsAdmit | tools/merlin-ns/ns.c:62-185 | what a descendant accepts, every ancestor accepts |
| Namespaces.ChainLimit | tools/merlin-ns/ns.c:87-126 | down a chain a limit is unset exactly when never set, and otherwise the least one set |
| Namespaces.WrapAdmits | tools/merlin-ns/ns.c:169-182 | an admitted load exceeds a set limit exactly when that total reaches 2^64; the number of maps never exceeds one |
| Namespaces.ProgramCountWraps | tools/merlin-ns/ns.c:170-172 | with 2^64 - 1 live programs and a limit of one, a further program is admitted |

## Left out

- Soundness.AcceptedIsSafe: assumes a text without a branch or jump to pc 0, because acceptance is unsound with one. With a stack budget above 2^31 bytes it says nothing of bases tracked to 2^31 bytes or more, which carry no information.
- Soundness.SpAccessInFrame: assumes a stack budget of at most 2^31 bytes, for the same reason.
- Defined.RunDefined: the condition is sufficient, not necessary: a join may hide a register on an edge that no run takes.
- JitSafety.JitCallsAllowed: is about texts run as the JIT runs them, with a stack pointer of 0, not as callback bodies, and where every mulw fits.
- Soundness.AcceptedIsSafe: in callback bodies the unsigned ranges are not claimed, because the entry state's unsigned range is wrong there.
- Verify.VerifyText: states the verdict for step caps below 0x7ffff000; above that the 32-bit rejection counter could come round to 0. It demands a non-empty text, since for an empty one the code writes to an array of size 0, and a cap below 2^32 - 1, since with that cap the step counter never passes it.
- LoopGate.CyclesAreGated: takes reducibility as a hypothesis, because the code sets its flag without checking.
- Emit.EmitBuf.EmitByte: like the other emitters, demands a buffer of non-zero capacity, because doubling 0 never ends.
- Jit.Translate: a text of 2^32 bytes or more, where the 32-bit pc would wrap, is treated as if it did not.
- Bounds of context and helper-return pointers, code after a kfunc jalr, and what the callee of a linking jal does: the verifier does not track them, and runs end at the first jalr.
- Diagnostics, summaries, instruction counters, the `verbose` and `allow_back_edges` settings, and the raw word and pc fields of a decoded instruction.
- The leader bitmap is an array of booleans; the pc of a fall-through successor is not kept after linking.
- The x86-64 memory is made of aligned 8-byte cells; a helper writes a0 only; `emit_mov_r10_imm64` (unused); mmap, mprotect and allocation failure.
- The staged operations and the touched table are sequences with the source's limits; a map record is a value in the store's array; commit time and namespace id locking.
- Loading and saving of namespace files, bit setting and clearing, the seal and attestation fields.
- The kernel's verifier, decoder and x86-64 JIT, and the Zephyr port: ports that add no new algorithm, or emit nothing for branches and memory.
- Signing, attestation, ELF handling, netlink, telemetry, command lines and kernel glue.
