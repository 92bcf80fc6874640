# Styio verification model

Styio is a stream compiler. Its code generator emits small algorithms over mutable memory: a
ledger of pulse state with sliding windows, bounded rings with deferred commits, structured
control flow lowered to basic blocks, and optional integers squeezed into 64-bit words by a
sentinel. This project models what the emitted code does and proves what it is for, together
with a few algorithms of the compiler driver, the language server and the document scripts.

Integers of the emitted code are 64-bit words that wrap (`Int64.dfy`): unsigned remainders for
ring positions, division that truncates toward zero, and the smallest word as the sentinel `@`.

| files | what they model |
|---|---|
| `PulseLayout`, `PulseSteps`, `PulseRun`, `PulseRegion`, `PulseResults` | the byte layout of the pulse ledger, one step of each kind on its words, whole runs of a pulse loop, the same code in place on two memory blocks, and what every output of a run is |
| `CursorRing`, `Residues` | a ring of words filled by a wrapping 64-bit cursor, and exactly when it still holds what was written |
| `RingSpec`, `BoundedRing` | the bounded ring with immediate and pending writes, as a state machine and in place |
| `Undef` | expressions and conditions over possibly undefined integers |
| `Flow`, `FlowLaws`, `FlowGraph`, `FlowCompile`, `FlowShape`, `FlowProof`, `FlowRange` | statements, what they do to later reads, the machine for basic blocks, the emission with its loop stack, the shape of what is emitted, the equivalence proof, and the values a range loop visits |
| `Capture`, `CaptureFree`, `CaptureProof`, `TaskFlow` | the free-variable walk over a task body, what a free use is, the captures chosen from it, and that a task body runs as the same statements do in a program |
| `Closure` | the include closure of a source package |
| `Config`, `ConfigRules`, `Getline` | the line-based configuration reader and its writer, and what the reader makes of every line |
| `TextLines`, `TextBuffer` | line starts, positions, line separators and the buffer that keeps them |
| `Uri` | percent coding of file paths |
| `Lifecycle`, `LifecycleProof`, `LifecycleRules`, `LifecycleRepo` | the document lifecycle: marking, cleaning up, validating, and its rules stated on paths and listings |

How the code is modelled: an algorithm that updates memory is a method on a class or a loop, tied
by its `ensures` to a function on values; the lemmas are about that function. Where a program may
run forever, a run carries a budget of loop rounds, and theorems quantify over all budgets.
Statements are modelled after name resolution: every name is one slot that exists before the
program starts and reads 0 until it is written.

Findings that the theorems make precise:

- Every ring position is a 64-bit cursor taken modulo the window, so a window whose length is not
  a power of two loses its order when the cursor wraps. `Intact`, `WindowIntact` and
  `NewestIntact` say exactly at which counts the ring still reads back correctly.
- The same happens at the start: a history read further back than anything was committed takes the
  position below zero. Unless the window divides 2^64 or 2^64 - 1, it can give a committed value
  where nothing is that old: with a window of 7, after three commits, four steps back lies the first
  of them (`PulseResults.StaleReadOfSeven`). For the other windows it gives 0.
- The window maximum never looks at the oldest sample of a window of two or more
  (`PulseSteps.MaxMissesOldest`); the model follows the code.
- The average is exact precisely when the true window sum fits a word, even if intermediate
  additions wrapped.
- A division is carried out before a fallback can save it (`Undef.EagerDivisionTraps`).
- A task runs as its body would outside as long as all it reads is collected and can be captured.
  The walk misses fallback operands, and list slots are not captured; `CaptureProof` says exactly
  when that matters.
- An entry of the lifecycle manifest may be filed under a family that its source does not belong to
  and still be valid; cleaning up one family can then move a waiting entry into a keep window
  (`LifecycleProof.MisfiledBreaks`).
- The configuration reader does not unescape what the writer escapes.
- A successful mark with an empty theme, and a cleanup of a document that an entry names as its
  target, lead to a repository that validation refuses. A cleanup of the last document under
  docs/review removes that directory, and validation does not finish without it
  (`LifecycleProof.EmptiedReviewBreaks`). `LifecycleProof.RunsKeepGoodExactly` gives the conditions
  before each command that are exact for whole runs.

## Model

| member | source | states |
|---|---|---|
| PulseLayout.ValueOff | src/StyioCodeGen/CodeGenPulse.cpp:19-25 | the current value is one aligned word inside the bytes of its slot |
| PulseLayout.HistPos | src/StyioCodeGen/CodeGenPulse.cpp:35-41 | the write position of the history lies inside the slot, for tracked and windowed slots |
| PulseLayout.SumOff | src/StyioCodeGen/CodeGenPulse.cpp:48-51 | the running sum lies inside a windowed slot |
| PulseLayout.CursorOff | src/StyioCodeGen/CodeGenPulse.cpp:53-56 | the cursor lies inside a windowed slot |
| PulseLayout.CountOff | src/StyioCodeGen/CodeGenPulse.cpp:58-61 | the count lies inside a windowed slot |
| PulseLayout.HistCellOff | src/StyioCodeGen/CodeGenPulse.cpp:27-33 | every cell of the history ring, up to the window length, lies inside the slot |
| PulseLayout.RingCellOff | src/StyioCodeGen/CodeGenPulse.cpp:43-46 | every cell of the sample ring lies inside the slot |
| PulseLayout.FieldsTileSlot | src/StyioCodeGen/CodeGenPulse.cpp:19-61 | the fields of a slot follow each other without gaps, in the order samples, sum, cursor, count, value, history, position |
| PulseLayout.StoreIsPut | src/StyioCodeGen/CodeGenPulse.cpp:77-91 | a store at the i-th word of a slot changes that word and no other word of any slot |
| PulseLayout.LoadIsGet | src/StyioCodeGen/CodeGenPulse.cpp:65-75 | a load at the i-th word of a placed slot is aligned, in bounds and gives that word |
| PulseLayout.TiledIsValid | src/StyioLowering/AstToStyioIR.cpp:1637-1670 | slots laid end to end are aligned, pairwise disjoint and inside the total |
| PulseLayout.BuildPulsePlan | src/StyioLowering/AstToStyioIR.cpp:1637-1670 | any list of declarations with legal windows gets a plan whose slots keep kind and window, tile the memory and never overlap |
| CursorRing.CellKeeps | src/StyioCodeGen/CodeGenPulse.cpp:258-275 | a ring cell keeps its word until a later write lands on it |
| CursorRing.CellsWhileFilling | src/StyioCodeGen/CodeGenPulse.cpp:258-275 | until n writes have happened the ring holds the writes in order, then zeroes |
| CursorRing.NotYetWrapped | src/StyioCodeGen/CodeGenPulse.cpp:193-232 | before 2^64 writes nothing inside the window is lost |
| CursorRing.LastWriteIsLast | src/StyioCodeGen/CodeGenPulse.cpp:258-275 | the last of m writes to a cell, in closed form, whether or not the cursor has wrapped |
| CursorRing.CellHolds | src/StyioCodeGen/CodeGenPulse.cpp:258-275 | for any number of writes every cell holds the last write to it, or 0 if there is none |
| CursorRing.EarlyRead | src/StyioCodeGen/CodeGenPulse.cpp:193-232 | a read further back than anything was written, within the ring, gives the write whose cell it selects, or 0 if that cell has not been written |
| CursorRing.EarlyReadIsZeroExactly | src/StyioCodeGen/CodeGenPulse.cpp:193-232 | for the histories of a length that begin with 0, such a read gives 0 exactly if it selects the first cell or one not yet written |
| CursorRing.EarlyReadsAreZeroExactly | src/StyioCodeGen/CodeGenPulse.cpp:193-232 | all such reads do so exactly for the ring lengths that divide 2^64 or 2^64 - 1 |
| CursorRing.ReadBackExact | src/StyioCodeGen/CodeGenPulse.cpp:193-232 | reading d steps back gives the d-th newest write for all histories of a length exactly if the cursor has not lost it by wrapping |
| CursorRing.CellsRotateWindow | src/StyioCodeGen/CodeGenPulse.cpp:258-275 | a full ring holds the newest n writes in order, rotated |
| CursorRing.WindowTotalExact | src/StyioCodeGen/CodeGenPulse.cpp:258-283 | the total of the ring is the total of the newest n writes for all histories of a length exactly if no cursor seam lies inside the window |
| CursorRing.RecalledWindow | src/StyioCodeGen/CodeGenPulse.cpp:341-376 | recalling k, ..., 1 steps back gives the newest k writes in order |
| CursorRing.LargestRecalledExact | src/StyioCodeGen/CodeGenPulse.cpp:341-376 | the largest recalled word is the largest of the newest k writes for all histories of a length exactly under the stated seam condition |
| PulseSteps.SumFollowsRing | src/StyioCodeGen/CodeGenPulse.cpp:258-281 | adding the new sample and subtracting the replaced cell, with wrapping, is the new ring total modulo 2^64 |
| PulseSteps.AvgRefines | src/StyioCodeGen/CodeGenPulse.cpp:235-294 | the average step on a slot that represents the samples s represents s + [x] afterwards, touches no word outside the slot, and returns the wrapped ring total divided by the window once warm |
| PulseSteps.AvgStepUndefExactly | src/StyioCodeGen/CodeGenPulse.cpp:245-293 | the step returns the sentinel if and only if the sample is undefined or fewer than n defined samples have arrived; an undefined sample leaves every word as it was |
| PulseSteps.AvgUndefExactlyWhenCold | src/StyioCodeGen/CodeGenPulse.cpp:277-286 | a warm average is never the sentinel, whatever the samples and the window |
| PulseSteps.AvgIsMeanExactly | src/StyioCodeGen/CodeGenPulse.cpp:273-286 | once warm, and with an intact window, the output is the word whose multiple by n comes nearest to the sum of the newest n samples from zero, that is their mean rounded toward zero, if and only if the sum fits a word |
| PulseSteps.AvgNeedsWindowExactly | src/StyioCodeGen/CodeGenPulse.cpp:273-286 | for all samples of a length whose window sum fits, the output is that mean if and only if no cursor seam lies inside the window |
| Int64.TruncDivExactly | src/StyioCodeGen/CodeGenPulse.cpp:285 | truncating division without division: the one multiple of the divisor that is not farther from zero than the dividend and closer to it than the divisor is long |
| PulseSteps.ScanIsLargest | src/StyioCodeGen/CodeGenPulse.cpp:341-372 | the scan up to step count - 1 gives the largest of the newest samples that far back |
| PulseSteps.MaxRefines | src/StyioCodeGen/CodeGenPulse.cpp:297-384 | the maximum step represents s + [x] afterwards, touches nothing outside the slot, and returns the scan result once warm |
| PulseSteps.MaxStepUndefExactly | src/StyioCodeGen/CodeGenPulse.cpp:304-383 | the maximum step returns the sentinel if and only if the sample is undefined or the window is cold; an undefined sample changes nothing |
| PulseSteps.MaxUndefExactlyWhenCold | src/StyioCodeGen/CodeGenPulse.cpp:376-384 | a warm maximum is never the sentinel |
| PulseSteps.MaxIsLargestOfNewest | src/StyioCodeGen/CodeGenPulse.cpp:341-376 | the warm result is the maximum of the newest max(1, n - 1) samples |
| PulseSteps.MaxMissesOldest | src/StyioCodeGen/CodeGenPulse.cpp:346-376 | for n of two or more it is the maximum of the whole window exactly if the oldest sample is not larger than the others |
| PulseSteps.OneMoreStepScansAll | src/StyioCodeGen/CodeGenPulse.cpp:341-372 | with one scan step more the result would be the maximum of all n samples |
| PulseSteps.CommitRefines | src/StyioCodeGen/CodeGenPulse.cpp:134-175 | a commit appends the committed value to the slot's history of values and keeps every word outside the slot |
| PulseSteps.ValueRefines | src/StyioCodeGen/CodeGenPulse.cpp:184-190 | the current value read from any kind of slot is the last committed one |
| PulseSteps.HistRefines | src/StyioCodeGen/CodeGenPulse.cpp:193-232 | a history read of any depth, even one that takes the position below zero, gives the last value pushed into the cell it selects, or 0 if there is none |
| PulseSteps.HistReadsValue | src/StyioCodeGen/CodeGenPulse.cpp:193-232 | after m commits a read d back, within the window, gives v_(m-d) if d is at most m and the cell is intact; for larger d it gives one of the oldest values or 0, as the selected cell says, and always the initial value or 0 if the window divides 2^64 or 2^64 - 1 |
| PulseRun.OthersKept | src/StyioCodeGen/CodeGenPulse.cpp:114-181 | a step on one slot keeps what every other slot represents |
| PulseRun.RunRefines | src/StyioCodeGen/CodeGenG.cpp:2386-2440 | a run of pulses from any ledger refines the run on one value history per slot, outputs included |
| PulseRun.EveryRunRefines | src/StyioCodeGen/CodeGenG.cpp:2386-2440 | from the zeroed ledger every run has the outputs and final words of the per-slot sequences: rings, sums, cursors, counts and histories |
| PulseRun.ReadsSeeFrameStart | src/StyioCodeGen/CodeGenPulse.cpp:184-232 | inside a pulse every state and history read, of any depth, gives what held when the pulse began, whatever the body did before |
| PulseRun.HistoryAfterLoop | src/StyioCodeGen/CodeGenPulse.cpp:193-232 | after the loop a read of any depth d goes d steps back in the values of the slot: v_(m-d) where there is one, an older cell or 0 otherwise |
| PulseRun.SpecCommitsPermute | src/StyioCodeGen/CodeGenPulse.cpp:114-181 | committing distinct slots gives the same states for every permutation of the commit list |
| PulseRun.CommitOrderIrrelevant | src/StyioCodeGen/CodeGenPulse.cpp:114-181 | committing distinct slots gives the same ledger, word for word, in any order |
| PulseResults.RunFeeds | src/StyioCodeGen/CodeGenG.cpp:2386-2440 | the per-slot run, from any states, appends exactly the defined samples that the pulses feed to a slot and the values they commit to it |
| PulseResults.LedgerAfterRun | src/StyioCodeGen/CodeGenG.cpp:2386-2440 | after every run from the zeroed ledger the words of each slot encode those two sequences |
| PulseResults.RingBeforeWarm | src/StyioCodeGen/CodeGenPulse.cpp:258-275 | after a run that fed no more than n samples, the sample ring in memory holds them in order, then zeroes |
| PulseResults.RingWhenWarm | src/StyioCodeGen/CodeGenPulse.cpp:258-275 | after a longer run it holds the newest n of them, rotated |
| PulseResults.StepOutput | src/StyioCodeGen/CodeGenG.cpp:2386-2440 | what any step of any pulse of a run returns, from the states its pulse and it begin in |
| PulseResults.AverageInRun | src/StyioCodeGen/CodeGenPulse.cpp:235-294 | every average step of every run returns the sentinel exactly when its sample is undefined or the window is not full, and once warm the mean of the newest n samples fed so far, rounded toward zero, exactly when their sum fits a word |
| PulseResults.MaximumInRun | src/StyioCodeGen/CodeGenPulse.cpp:297-384 | every maximum step of every run likewise, with the maximum of the newest max(1, n - 1) samples fed so far |
| PulseResults.ValueInRun | src/StyioCodeGen/CodeGenPulse.cpp:184-190 | every state read inside a pulse gives the last value that earlier pulses committed, or 0 |
| PulseResults.HistoryStep | src/StyioCodeGen/CodeGenPulse.cpp:193-232 | with m values committed by earlier pulses, every history read of any depth d inside a pulse gives the last value pushed into the cell 1 + d steps back, or 0 if there is none |
| PulseResults.HistoryInRun | src/StyioCodeGen/CodeGenPulse.cpp:193-232 | so, within the window, it gives v_(m-1-d) where d + 1 is at most m and the cell is intact, and where d + 1 is larger one of the oldest values or 0, as the selected cell says |
| PulseResults.HistoryAfterRun | src/StyioCodeGen/CodeGenPulse.cpp:193-232 | with m values committed in all, a read of any depth d after the loop goes d steps back: v_(m-d) where there is one, an older cell or 0 otherwise |
| PulseResults.EarlyHistoryIsZero | src/StyioCodeGen/CodeGenPulse.cpp:193-232 | reads after the loop that find nothing so old give 0 for every window that divides 2^64 or 2^64 - 1 |
| PulseResults.EarlyHistoryIsStale | src/StyioCodeGen/CodeGenPulse.cpp:193-232 | for every other window, after one commit fewer than its length a read back over the whole of it gives a committed value |
| PulseResults.StaleReadOfSeven | src/StyioCodeGen/CodeGenPulse.cpp:193-232 | a concrete run: with a window of 7 and three commits, a read four steps back gives the first committed value |
| PulseRegion.Region.constructor | src/StyioCodeGen/CodeGenG.cpp:2386-2440 | both memory blocks are fresh and the ledger is zeroed |
| PulseRegion.Region.CopyLedgerToSnap | src/StyioCodeGen/CodeGenPulse.cpp:94-103 | the snapshot equals the ledger afterwards, and only the snapshot changes |
| PulseRegion.Region.SeriesAvgStep | src/StyioCodeGen/CodeGenPulse.cpp:235-294 | the loads and stores in place leave exactly the ledger and result of the average step |
| PulseRegion.Region.SeriesMaxStep | src/StyioCodeGen/CodeGenPulse.cpp:297-384 | the stores and the scan loop in place leave exactly the ledger and result of the maximum step; the loop ends and stays in the ring |
| PulseRegion.Region.CommitSlotValue | src/StyioCodeGen/CodeGenPulse.cpp:134-175 | the stores of one commit in place |
| PulseRegion.Region.CommitEach | src/StyioCodeGen/CodeGenPulse.cpp:114-181 | the commits of a pulse in place, entries without a variable skipped |
| PulseRegion.Region.StateSnapLoad | src/StyioCodeGen/CodeGenPulse.cpp:184-190 | a state read goes to the snapshot |
| PulseRegion.Region.StateHistLoad | src/StyioCodeGen/CodeGenPulse.cpp:193-232 | a history read goes to the snapshot one step further back inside a pulse, to the ledger after the loop |
| PulseRegion.Region.RunPulse | src/StyioCodeGen/CodeGenG.cpp:2386-2440 | copy, body and commits in place are one iteration of the run |
| PulseRegion.Region.RunAll | src/StyioCodeGen/CodeGenG.cpp:2386-2440 | the whole loop in place is the run that the refinement theorem is about |
| RingSpec.WriteExact | src/StyioCodeGen/CodeGenG.cpp:1365-1373 | a direct write appends to the committed log, exactly until the head wraps |
| RingSpec.WritePendingExact | src/StyioCodeGen/CodeGenG.cpp:1347-1363 | a pending write leaves the committed log alone and appends to the waiting values, exactly until the count wraps |
| RingSpec.ReplayMirrors | src/StyioCodeGen/CodeGenG.cpp:1272-1299 | the commit loop from index i on appends the waiting values from i on |
| RingSpec.CommitKeeps | src/StyioCodeGen/CodeGenG.cpp:1237-1303 | a commit makes all waiting values part of the log, for any pending count, although only the newest cap of them are replayed |
| RingSpec.CommitExact | src/StyioCodeGen/CodeGenG.cpp:1237-1303 | the commit keeps the relation to the log if and only if the head does not wrap |
| RingSpec.CommitHead | src/StyioCodeGen/CodeGenG.cpp:1258-1302 | the head advances by the smaller of count and capacity, and nothing is pending afterwards |
| RingSpec.ReadRefines | src/StyioCodeGen/CodeGenG.cpp:532-555 | a read of depth 1 to cap gives the d-th newest committed value, or 0 if there are fewer |
| RingSpec.ReadTouchesWrittenCell | src/StyioCodeGen/CodeGenG.cpp:532-555 | no depth, guarded or not, loads a cell that was never written |
| RingSpec.RunRefines | src/StyioCodeGen/CodeGenG.cpp:1330-1374 | every interleaving of direct writes, pending writes and commits refines a plain log with a waiting list |
| RingSpec.EveryRunReads | src/StyioCodeGen/CodeGenG.cpp:1460-1483 | from the initialized ring, after any interleaving with fewer than 2^64 - 1 writes, a guarded read is the d-th newest value of the plain log |
| RingSpec.WrapLosesHistory | src/StyioCodeGen/CodeGenG.cpp:1365-1373 | one write more and the head is 0: every value written was 1, and a read of any depth gives 0 |
| RingSpec.CommitReadsLikeDirectWrites | src/StyioCodeGen/CodeGenG.cpp:1258-1302 | for any pending count, every read after the commit equals the read after applying all pending writes directly |
| RingSpec.CommitNamesPointwise | src/StyioCodeGen/CodeGenG.cpp:1306-1319 | committing a list of rings commits each named ring once and leaves the others |
| RingSpec.CommitNamesOrderIrrelevant | src/StyioCodeGen/CodeGenG.cpp:1306-1319 | the order in which the unordered map lists the rings does not matter |
| BoundedRing.RingSlots.constructor | src/StyioCodeGen/CodeGenG.cpp:1460-1483 | the slots of a new ring in place: first cell written, head 1, nothing pending |
| BoundedRing.RingSlots.WriteNow | src/StyioCodeGen/CodeGenG.cpp:1365-1373 | a direct write in place |
| BoundedRing.RingSlots.WriteLater | src/StyioCodeGen/CodeGenG.cpp:1347-1363 | a pending write in place; the ring's own cells and head do not change |
| BoundedRing.RingSlots.CommitPending | src/StyioCodeGen/CodeGenG.cpp:1237-1303 | the commit loop in place |
| BoundedRing.RingSlots.ReadBack | src/StyioCodeGen/CodeGenG.cpp:532-555 | the guarded read in place |
| Undef.BinExact | src/StyioCodeGen/CodeGenG.cpp:919-1062 | for one arithmetic operation on any two words, the word result decodes to the optional-integer result exactly if the division is legal and the exact result is in range and not the sentinel |
| Undef.BinMeans | src/StyioCodeGen/CodeGenG.cpp:919-1062 | what the machine computes for each operation: sums, differences and products modulo 2^64, a quotient rounded toward zero, a remainder with the sign of the dividend; no result exactly for a zero divisor and for the one quotient that does not fit |
| Int64.WrapExactly | src/StyioCodeGen/CodeGenG.cpp:919-1062 | a wrapped result is the one word that differs from the exact one by a multiple of 2^64 |
| Undef.CompareExact | src/StyioCodeGen/CodeGenG.cpp:1065-1153 | comparing words is comparing optional integers with undefined as the least |
| Undef.CompareMeans | src/StyioCodeGen/CodeGenG.cpp:1065-1153 | the six comparisons by the sign of the difference |
| Undef.ConnectivesMean | src/StyioCodeGen/CodeGenG.cpp:1193-1226 | negation and the connectives, both operands counting; a word is true unless it is 0 |
| Undef.SelectionsMean | src/StyioCodeGen/CodeGenG.cpp:2953-3068 | a fallback gives the first defined value, a wave merge the one its condition chooses, a guard and a probe their base or undefined |
| Undef.SentinelHomomorphism | src/StyioCodeGen/CodeGenG.cpp:2953-3068 | for every tree of arithmetic, fallback, wave merge, guard and probe that meets these conditions at its nodes, evaluation in words is the encoding of evaluation over optional integers |
| Undef.ConditionHomomorphism | src/StyioCodeGen/CodeGenG.cpp:1193-1226 | the same for conditions, an undefined operand counting as true |
| Undef.EagerDivisionTraps | src/StyioCodeGen/CodeGenG.cpp:2960-2992 | an undefined dividend is divided before the fallback looks at it, so a divisor of 0 or -1 is undefined behaviour |
| Flow.FlushIsAnyOrder | src/StyioCodeGen/CodeGenG.cpp:1306-1319 | the commit at the end of a loop body is the same for every listing of the rings |
| FlowLaws.BindSetsVariable | src/StyioCodeGen/CodeGenG.cpp:1330-1431 | a binding of a name without a ring: the next read of it gives the value, and nothing else changes |
| FlowLaws.BindWritesRing | src/StyioCodeGen/CodeGenG.cpp:1347-1373 | a binding of a ring appends to what is committed, or, as a pending write, to what waits; no other name changes |
| FlowLaws.RefReadsRing | src/StyioCodeGen/CodeGenG.cpp:532-555 | a read of a ring gives the d-th newest committed value, or 0, whatever waits |
| FlowLaws.NextReadOfRing | src/StyioCodeGen/CodeGenG.cpp:1347-1373 | a direct write is seen by the next read, a pending one is not |
| FlowLaws.BodyIsRingRun | src/StyioCodeGen/CodeGenG.cpp:1347-1373 | a body that writes to a ring, directly and pending in any order, is a run of the ring |
| FlowLaws.RoundCommits | src/StyioCodeGen/CodeGenG.cpp:2334-2376 | when such a body has ended, all that waited is committed behind what was written directly, and reads see it |
| FlowLaws.ContinueCommitsNothing | src/StyioCodeGen/CodeGenG.cpp:2934-2951 | a round that continue ends commits nothing |
| FlowLaws.BranchTaken | src/StyioCodeGen/CodeGenG.cpp:2682-2718 | a branch runs the arm its condition chooses, and nothing without an else arm |
| FlowLaws.RoundEnds | src/StyioCodeGen/CodeGenG.cpp:2334-2376 | how a loop goes on after a round: break ends it, continue of depth 1 starts the next round, a deeper one and a return leave it |
| FlowLaws.WhileEndsFalse | src/StyioCodeGen/CodeGenG.cpp:2334-2376 | a while loop whose body never breaks ends with its condition false |
| FlowLaws.NowhereToGo | src/StyioCodeGen/CodeGenG.cpp:2934-2951 | a break or continue that names no loop does nothing |
| FlowCompile.Builder.EmitBlock | src/StyioCodeGen/CodeGenG.cpp:2186-2200 | the emission of a block in place stops behind a terminator and leaves the loop stack as it was |
| FlowCompile.Builder.EmitStmt | src/StyioCodeGen/CodeGenG.cpp:2934-2951 | every statement emitted in place, breaks and continues to the frame they name; the loop stack is balanced |
| FlowCompile.Builder.EmitIf | src/StyioCodeGen/CodeGenG.cpp:2682-2718 | a one-armed branch in place |
| FlowCompile.Builder.EmitIfElse | src/StyioCodeGen/CodeGenG.cpp:2682-2718 | a two-armed branch in place |
| FlowCompile.Builder.EmitInfinite | src/StyioCodeGen/CodeGenG.cpp:2334-2376 | an infinite loop in place, with its frame pushed and popped |
| FlowCompile.Builder.EmitWhile | src/StyioCodeGen/CodeGenG.cpp:2334-2376 | a while loop in place |
| FlowCompile.Builder.EmitRangeFor | src/StyioCodeGen/CodeGenG.cpp:2623-2679 | a range loop in place, with its hidden position and step block |
| FlowCompile.Builder.EmitMain | src/StyioCodeGen/CodeGenG.cpp:2215-2275 | the program's block graph in place |
| FlowShape.CompiledGraphIsWellFormed | src/StyioCodeGen/CodeGenG.cpp:2186-2200 | every block of every compiled program has exactly one terminator, at its end, and every branch goes to an existing block |
| FlowProof.SimStmt | src/StyioCodeGen/CodeGenG.cpp:2186-2200 | from the insertion point, the blocks of any statement run to the place, store and outcome of the structured statement |
| FlowProof.SimIf | src/StyioCodeGen/CodeGenG.cpp:2682-2718 | the blocks of a branch simulate it, also when an arm leaves |
| FlowProof.SimInfinite | src/StyioCodeGen/CodeGenG.cpp:2334-2376 | the blocks of an infinite loop simulate it for any number of rounds |
| FlowProof.SimWhile | src/StyioCodeGen/CodeGenG.cpp:2334-2376 | the blocks of a while loop simulate it; break and continue land at the right frame |
| FlowProof.SimRange | src/StyioCodeGen/CodeGenG.cpp:2623-2679 | the blocks of a range loop simulate it from any position; the body cannot disturb the hidden position |
| FlowProof.SimMain | src/StyioCodeGen/CodeGenG.cpp:2215-2275 | with a sufficient budget the graph ends with the program's result, otherwise it is still running after more steps than rounds |
| FlowProof.CompiledProgramIsEquivalent | src/StyioCodeGen/CodeGenG.cpp:2215-2275 | for every program and store, the block graph ends with a result if and only if the structured program does, and it is the same result and store; one diverges exactly if the other does |
| FlowRange.RangeVisitsProgression | src/StyioCodeGen/CodeGenG.cpp:2644-2674 | if the position after the last value fits a word, the loop runs its body for exactly start, start + step, ... up to the inclusive end, for every body, even one that assigns the loop variable |
| FlowRange.UpwardValues | src/StyioCodeGen/CodeGenG.cpp:2644-2674 | upwards the progression is exactly the words from start to the inclusive end in strides of step |
| FlowRange.DownwardValues | src/StyioCodeGen/CodeGenG.cpp:2644-2674 | downwards the same; with a step of 0 it is empty |
| FlowRange.RangeVisitsProgressionExactly | src/StyioCodeGen/CodeGenG.cpp:2644-2674 | it does so for all bodies, stores and budgets if and only if that position fits |
| FlowRange.WrappedLoopGoesOn | src/StyioCodeGen/CodeGenG.cpp:2648-2674 | otherwise a loop around an empty body is still running after a round for every value |
| FlowRange.StopsAfterLastExactly | src/StyioCodeGen/CodeGenG.cpp:2648-2674 | after the last value the header stops if and only if that position fits |
| FlowRange.VisitRange | src/StyioCodeGen/CodeGenG.cpp:2644-2674 | the loop around an empty body ends and visits floor((end - start) / step) + 1 values when the sign fits, none for step 0 |
| Capture.CollectFreeRefs | src/StyioCodeGen/CodeGenIO.cpp:105-222 | the walk that mutates both sets adds exactly the free references and ends with exactly the bound names (`CaptureFree` says what these are) |
| Capture.CollectRangeRefs | src/StyioCodeGen/CodeGenIO.cpp:181-189 | the operands of a range loop thread the bound names, its body sees the loop variable too |
| Capture.CollectMatchRefs | src/StyioCodeGen/CodeGenIO.cpp:195-203 | arms and default of a match are walked with the names that the scrutinee binds |
| Capture.CollectSeqRefs | src/StyioCodeGen/CodeGenIO.cpp:86-102 | one pass over a statement list threads the bound names through it |
| Capture.CollectBlockRefs | src/StyioCodeGen/CodeGenIO.cpp:79-103 | what a block binds does not escape it |
| Capture.CollectArmRefs | src/StyioCodeGen/CodeGenIO.cpp:195-203 | each arm is walked with the names bound before the match |
| CaptureFree.RefsAreFreeUses | src/StyioCodeGen/CodeGenIO.cpp:79-222 | for every node: the walk collects exactly the names not bound before that have a use with no earlier definition in a block still open, and ends with exactly those bound before or defined outside all blocks |
| CaptureFree.TaskCollectsFreeUses | src/StyioCodeGen/CodeGenIO.cpp:79-222 | so the names collected for a task are exactly those with a free use in its body |
| CaptureProof.Coincide | src/StyioCodeGen/CodeGenIO.cpp:105-222 | two environments that give the same value for every name a node may read run any node to the same result and output and to environments that still agree, through blocks, branches, loops, fallbacks and rebinding |
| CaptureProof.CoincideSeq | src/StyioCodeGen/CodeGenIO.cpp:79-103 | the same for every list of statements |
| CaptureProof.CoincideLoop | src/StyioCodeGen/CodeGenIO.cpp:169-173 | the same for loops with and without a condition, for any number of rounds |
| CaptureProof.SelectCaptures | src/StyioCodeGen/CodeGenIO.cpp:494-531 | for any listing of the two maps the captures are exactly the collected names whose slot can be copied, each once, a mutable slot hiding a named value |
| CaptureProof.TaskRunsAlike | src/StyioCodeGen/CodeGenIO.cpp:481-531 | any body runs in the task exactly as in the enclosing scope if each outer variable it may read is collected and can be captured, or holds 0 |
| CaptureProof.TasksRunAlikeExactly | src/StyioCodeGen/CodeGenIO.cpp:481-531 | for every set of variables: the bodies that read only collected names among them run alike, for every body and budget, if and only if each of these variables of the enclosing function can be captured or holds 0 |
| CaptureProof.WalkCollects | src/StyioCodeGen/CodeGenIO.cpp:105-222 | the walk collects every read of a node without fallbacks, initializers and matches without arms |
| CaptureProof.WalkCollectsOnlyReads | src/StyioCodeGen/CodeGenIO.cpp:105-222 | in such a node every name other than a variable or a flow target is collected exactly if a run may read it |
| CaptureProof.HiddenNameIsLost | src/StyioCodeGen/CodeGenIO.cpp:481-531 | a body whose result depends on a name that is not collected runs differently in the task, even if the name could have been captured |
| CaptureProof.FallbackIsNotCollected | src/StyioCodeGen/CodeGenIO.cpp:105-222 | a name that stands only in a fallback is read but not collected, and the task runs differently |
| CaptureProof.ListSlotIsLost | src/StyioCodeGen/CodeGenIO.cpp:499-507 | a collected name whose slot holds a list is not captured, and the task reads 0 instead of the list |
| CaptureProof.InitializerHidesName | src/StyioCodeGen/CodeGenIO.cpp:119-130 | what an initializer would bind hides an outer name from the walk although no initializer is run, and the task runs differently |
| CaptureProof.ScrutineeHidesName | src/StyioCodeGen/CodeGenIO.cpp:195-203 | so does what the scrutinee of a match without arms would bind |
| TaskFlow.ExprRunsAlike | src/StyioCodeGen/CodeGenG.cpp:919-1062 | arithmetic and fallbacks of a task body have the values that expressions have in the program |
| TaskFlow.CondRunsAlike | src/StyioCodeGen/CodeGenG.cpp:1193-1226 | so do conditions |
| TaskFlow.StmtRunsAlike | src/StyioCodeGen/CodeGenG.cpp:2186-2200 | bindings, blocks, branches, the three loops, break, continue and return without rings run in a task as in the program: the same variables, the same end, the same number of rounds |
| TaskFlow.SeqRunsAlike | src/StyioCodeGen/CodeGenG.cpp:2186-2200 | so does every list of them |
| TaskFlow.MatchRunsFirstArm | src/StyioCodeGen/CodeGenG.cpp:4507-4554 | a match runs the body of the first arm with the key, or the default |
| TaskFlow.ForEachEchoes | src/StyioCodeGen/CodeGenG.cpp:2379-2500 | a loop over a list visits its elements in order, and its variable is gone afterwards |
| TaskFlow.WritesInOrder | src/StyioCodeGen/CodeGenIO.cpp:340-348 | several values are written from left to right |
| Closure.CollectClosure | src/main.cpp:1999-2054 | the growing worklist ends; it succeeds if and only if no file reachable from the roots is missing, unreadable or has an unresolved include, then returns exactly the reachable files; a failure names such a reachable file and its fault |
| Closure.QueueIncludes | src/main.cpp:2027-2050 | all followed includes of one file are visited or queued, and it fails exactly on an unresolved one that is neither the generated header nor of LLVM |
| Closure.IncludesExactly | src/main.cpp:2027-2050 | a file includes what the lookup finds for its targets, and the template in place of the generated header that the lookup does not find |
| Closure.BrokenExactly | src/main.cpp:2013-2050 | a file stops the walk exactly if it is missing, unreadable, or has a target that the lookup does not find, other than the generated header and the headers of LLVM |
| Closure.ClosedHoldsChain | src/main.cpp:1999-2054 | a set with the roots that is closed under inclusion holds every reachable file |
| Config.TrimCopy | src/main.cpp:579-590 | the two cursors cut off exactly the surrounding whitespace |
| Config.TrimFixed | src/main.cpp:579-590 | trimming changes nothing exactly if the text is empty or has no space at either end |
| ConfigRules.TrimExactly | src/main.cpp:579-590 | trimming gives exactly what stands between the spaces |
| Config.StripInlineComment | src/main.cpp:592-620 | the flag loop cuts at the first number sign outside quotes, honouring escapes |
| ConfigRules.CommentIsCut | src/main.cpp:592-620 | a number sign behind bare characters and closed quotes begins a comment, whatever follows |
| ConfigRules.UnclosedQuoteIsKept | src/main.cpp:592-620 | behind a quote that is not closed nothing is a comment; a backslash inside quotes takes the next character with it |
| ConfigRules.EveryLine | src/main.cpp:592-620 | every line is a row of bare characters and closed quotes, and then nothing, a comment or an unclosed quote |
| ConfigRules.StripExactly | src/main.cpp:592-620 | so stripping cuts off exactly the comment behind such a row, and nothing else |
| Config.ParseConfigScalar | src/main.cpp:622-650 | quoted and bare values and the three ways to be malformed |
| ConfigRules.ScalarExactly | src/main.cpp:622-650 | what stands between the spaces is taken without its quotes if it begins and ends with the same one, and otherwise as it is; empty, a lone quote and a bare value with spaces are the three mistakes |
| Config.TomlEscape | src/main.cpp:1082-1109 | the switch loop builds the escaped text |
| Config.EscapeStaysInside | src/main.cpp:592-620 | an escaped value is one line, is never cut by the comment scan inside quotes and leaves the scan inside them |
| Config.EscapeIsIdentityExactly | src/main.cpp:1082-1109 | escaping is the identity exactly on texts without the five escaped characters |
| Config.EscapeInjective | src/main.cpp:1082-1109 | different values are written differently |
| ConfigRules.UnescapeEscape | src/main.cpp:1082-1109 | a reader that undoes the five escapes gets the original back |
| Config.SplitLine | src/main.cpp:1503-1525 | one line in place: blank, section header, malformed header, or an assignment split at the first equals sign |
| ConfigRules.LineExactly | src/main.cpp:1503-1525 | which line is ignored, a header, a malformed header or an assignment, and of what |
| Config.FieldReadsBack | src/main.cpp:1503-1525 | a written field with a well-formed key reads back as that key and the quoted value, whatever the value contains |
| ConfigRules.FieldWithComment | src/main.cpp:1503-1525 | it still does with any comment behind it |
| Config.QuoteIsKept | src/main.cpp:622-650 | the reader applied to a quoted escaped value yields exactly the escaped value |
| Config.ReadManifest | src/main.cpp:1500-1561 | the reader loop over a whole file: settings in order with their section, or the first error with its line number; values nobody wants are not parsed |
| ConfigRules.ReadsFirstTrouble | src/main.cpp:1500-1561 | the reader stops with the first malformed header or wanted value that does not parse and names its line; without one it returns every wanted setting under the header before it |
| Config.ManifestRoundTrip | src/main.cpp:2729-2743 | any document of sections, blank lines and fields written out and read back gives the escaped values, and the originals exactly if no wanted value has an escaped character |
| Getline.LinesOfUnlines | src/main.cpp:1503-1504 | splitting text made of newline-terminated lines gives those lines |
| TextBuffer.Buffer.FromText | src/StyioIDE/Common.cpp:79-82 | a buffer made from a text has its line starts |
| TextBuffer.Buffer.Reset | src/StyioIDE/Common.cpp:84-88 | so has one that is reset, whatever it held |
| TextBuffer.Buffer.RebuildLineStarts | src/StyioIDE/Common.cpp:67-77 | the loop in place collects 0 and one past each newline |
| TextBuffer.Buffer.PositionOf | src/StyioIDE/Common.cpp:90-103 | the lookup gives the position reached by walking over the characters one by one, offsets past the end clamped, default buffers included |
| TextBuffer.Buffer.OffsetOf | src/StyioIDE/Common.cpp:105-116 | the offset of any position, clamped into the text |
| TextBuffer.Buffer.BuildLineSeps | src/StyioIDE/Common.cpp:118-136 | the separators are those of the text's lines |
| TextBuffer.ReadFile | src/main.cpp:151-160 | reading by lines gives the text with its last line ended, and the same separators as the buffer built from the same bytes |
| TextLines.LineStartsShape | src/StyioIDE/Common.cpp:67-77 | the line starts increase strictly from 0 and are exactly the offsets past a newline |
| TextLines.PositionIsWalk | src/StyioIDE/Common.cpp:90-103 | search in the line starts and walking over the characters agree for every offset |
| TextLines.OffsetOfPosition | src/StyioIDE/Common.cpp:90-116 | the offset of the position of o is the smaller of o and the size, for every text and offset |
| TextLines.PositionOfOffsetExactly | src/StyioIDE/Common.cpp:90-116 | the position of the offset of p is p exactly if p lies on a line |
| TextLines.OffsetIsFirstNotBefore | src/StyioIDE/Common.cpp:105-116 | for every position on one of the lines, even past the end of its line, the offset is the first one the position does not lie behind, or the size |
| TextLines.LinesPastTheEnd | src/StyioIDE/Common.cpp:105-116 | a line past the last one counts as the last one |
| TextLines.PositionsIncrease | src/StyioIDE/Common.cpp:90-103 | positions increase strictly with the offset |
| TextLines.SepsAreLineStarts | src/StyioIDE/Common.cpp:118-136 | the separators are the line starts with the length up to the next one; only an empty last line has none |
| TextLines.SepsAgreeWithLines | src/main.cpp:151-160 | the buffer's separators and the index built line by line are the same list |
| TextLines.SepsCutLines | src/main.cpp:151-160 | every separator cuts its line out of the text that was read |
| TextLines.UnlinesOfLines | src/main.cpp:151-160 | reading by lines changes nothing but a missing final newline |
| Uri.PercentEncode | src/StyioIDE/Common.cpp:52-63 | the encoder loop |
| Uri.PercentDecode | src/StyioIDE/Common.cpp:12-50 | the decoder loop, with incomplete and malformed escapes left as they are |
| Uri.EncodeExactly | src/StyioIDE/Common.cpp:52-63 | exactly letters, digits and / . - _ ~ stand for themselves; other bytes are written as a percent sign and two upper-case digits |
| Uri.DecodeExactly | src/StyioIDE/Common.cpp:12-50 | a percent sign with two digits of either case is one byte; without them it is read on its own; a plus sign is a space, any other byte itself |
| Uri.DecodeEncode | src/StyioIDE/Common.cpp:12-63 | decoding undoes encoding for every byte string, although it also maps plus to space |
| Uri.EncodeDecodeExactly | src/StyioIDE/Common.cpp:12-63 | encoding undoes decoding exactly on strings of plain bytes and needed upper-case escapes |
| Uri.UriFromPath | src/StyioIDE/Common.cpp:152-160 | the URI of the rooted normalized path |
| Uri.PathFromUri | src/StyioIDE/Common.cpp:138-150 | the decoded rooted path of a file URI, anything else as it is |
| Uri.UriExactly | src/StyioIDE/Common.cpp:152-160 | a URI is the file scheme and a canonical path that begins with a slash and decodes to the normalized path |
| Uri.PathExactly | src/StyioIDE/Common.cpp:138-150 | without the scheme the text is the path; behind it an empty path stays empty and any other begins with a slash |
| Uri.PathRoundTrip | src/StyioIDE/Common.cpp:138-160 | a path comes back normalized and rooted, so every normalized absolute path comes back unchanged |
| Uri.UriRoundTrip | src/StyioIDE/Common.cpp:138-160 | a file URI of a normalized path comes back unchanged exactly if its coding is canonical |
| LifecycleProof.PrefixIsTop | scripts/docs-lifecycle.py:221-238 | in a listing sorted in falling order the first k names are those with fewer than k names above them |
| LifecycleProof.TopShrinks | scripts/docs-lifecycle.py:221-238 | removing other names never evicts a name from the newest k |
| LifecycleProof.TopUnchanged | scripts/docs-lifecycle.py:221-238 | removing names outside the newest k leaves the newest k as they are |
| LifecycleProof.KeptStays | scripts/docs-lifecycle.py:221-238 | a kept document that still exists stays kept, whatever else was deleted |
| LifecycleRules.DateForm | scripts/docs-lifecycle.py:21 | a date is four, two and two digits with dashes between them |
| LifecycleRules.HistoryExactly | scripts/docs-lifecycle.py:169-175 | the history is the dated markdown files directly under docs/history |
| LifecycleRules.ReviewExactly | scripts/docs-lifecycle.py:169-175 | the dated reviews are the markdown files at any depth under a dated directory of docs/review |
| LifecycleRules.ArchivedInPlace | scripts/docs-lifecycle.py:178-183 | a filed document keeps its place under docs inside the archive |
| LifecycleRules.HistoryWindow | scripts/docs-lifecycle.py:194-225 | the history keeps the documents of the first names in the falling list of all its names, as many as its window says |
| LifecycleRules.ReviewWindow | scripts/docs-lifecycle.py:203-237 | the reviews keep the files directly in the first directories of the falling list of dated ones, as many as their own window says |
| LifecycleProof.MarkKeepsValidExactly | scripts/docs-lifecycle.py:469-512 | from any valid repository a successful mark leads to a valid one exactly if there are a theme and a target and no file stands at the archive path |
| LifecycleRules.MarkExactly | scripts/docs-lifecycle.py:469-512 | each reason to refuse a mark, in order, on the document, the entries, the value and the targets; otherwise the one entry that is added, waiting unless a window holds the document |
| LifecycleProof.RemoveEmptyExactly | scripts/docs-lifecycle.py:559-567 | removing empty parents removes exactly the directories, docs and the root apart, that lead to nothing but the given one |
| LifecycleProof.OneMoreGone | scripts/docs-lifecycle.py:559-567 | removing one more file takes the tree that is left of some removals to the tree that is left of these and that one, so the order of removals does not matter |
| LifecycleProof.CleanupRemovesPending | scripts/docs-lifecycle.py:581-637 | from any valid repository a cleanup fails only on a link conflict and then changes nothing; otherwise exactly the chosen pending sources disappear, with exactly the directories that hold nothing else, and their entries are archived |
| LifecycleProof.LinkBlocksCleanup | scripts/docs-lifecycle.py:515-556 | a link from a markdown document under docs, outside the archive, not an index and not going itself, to a source about to go blocks the cleanup, and nothing changes |
| LifecycleProof.CleanupLeavesNoLink | scripts/docs-lifecycle.py:515-556 | only such a link does, and after a successful cleanup no such document links to a removed one |
| LifecycleProof.CleanupRemovesExactly | scripts/docs-lifecycle.py:581-637 | a document disappears exactly if an entry of the chosen family waits for it |
| LifecycleProof.CleanupArchives | scripts/docs-lifecycle.py:581-637 | the entries of removed documents say archived and the day; every other entry and all else about these stay |
| LifecycleProof.CleanupKeepsValidExactly | scripts/docs-lifecycle.py:581-637 | from any valid repository a successful cleanup leads to a valid one exactly if, before it, no source is a document that a summarized entry points to, docs/review leads to something else than sources, and no entry that goes on waiting would be among the newest of its family without the sources |
| LifecycleProof.FiledCleanupKeepsValidExactly | scripts/docs-lifecycle.py:581-637 | if all families are cleaned up, or the chosen entries lie in the directory of the chosen family, the last condition always holds and the first two, both on the repository before, are exact |
| LifecycleProof.HistoryWindowUnchangedExactly | scripts/docs-lifecycle.py:581-637 | a cleanup of any valid repository leaves the keep window of the history as it was exactly if it removes no note in the window |
| LifecycleProof.FiledHistoryStaysOut | scripts/docs-lifecycle.py:581-637 | it removes none if the history notes to be removed are filed as such |
| LifecycleProof.StepKeepsGoodExactly | scripts/docs-lifecycle.py:469-637 | one command leads from a valid repository to a valid one exactly if it fails or meets the conditions beforehand |
| LifecycleProof.RunsKeepGoodExactly | scripts/docs-lifecycle.py:469-637 | a run of marks and cleanups, failing or not, from any valid repository goes through valid repositories only if and only if each command meets these conditions where it is given |
| LifecycleProof.FiledRunsKeepGoodExactly | scripts/docs-lifecycle.py:469-637 | in a run that starts with every entry filed under the family of its source, such as one from an empty manifest, the conditions without the one on windows are exact |
| LifecycleProof.EmptyThemeBreaks | scripts/docs-lifecycle.py:469-512 | a concrete mark with an empty theme succeeds and breaks validity |
| LifecycleProof.OwnTargetBreaks | scripts/docs-lifecycle.py:581-637 | a concrete entry that is its own target breaks validity at the next cleanup |
| LifecycleProof.MisfiledBreaks | scripts/docs-lifecycle.py:581-637 | for any two history notes of which the newer is filed as a dated review: a cleanup of the reviews from a valid repository removes no target, leaves docs/review, and breaks validity because the older note moves into the window |
| LifecycleProof.TwoDatesExist | scripts/docs-lifecycle.py:221-238 | there are two such notes |
| LifecycleProof.EmptiedReviewBreaks | scripts/docs-lifecycle.py:581-637 | a concrete repository whose only reviewed document is cleaned up loses docs/review, without which validation does not finish |
| LifecycleRepo.Repository.RunValidate | scripts/docs-lifecycle.py:654-734 | the error list is empty exactly if the repository is valid; without docs/review it does not finish |
| LifecycleRepo.Repository.ValidateEntry | scripts/docs-lifecycle.py:672-717 | the complaints about one entry are none exactly if the entry is in order |
| LifecycleRepo.Repository.ValidateTargets | scripts/docs-lifecycle.py:640-651 | the complaints about targets are none exactly if every target is an existing active markdown document |
| LifecycleRules.DefectsAreRefused | scripts/docs-lifecycle.py:672-717 | every single defect makes an entry that is in order one that is not |
| LifecycleRules.RepositoryDefectsAreRefused | scripts/docs-lifecycle.py:654-734 | so do a wrong header, a stale ledger, a missing docs/review and a second entry for a document |
| LifecycleRepo.Repository.RunMark | scripts/docs-lifecycle.py:469-512 | marking in place: the first failing check in order and nothing changed, or the new entry |
| LifecycleRepo.Repository.RemoveEmptyParents | scripts/docs-lifecycle.py:559-567 | the upward loop in place |
| LifecycleRepo.Repository.FindDirectLinks | scripts/docs-lifecycle.py:545-556 | the loop over the documents finds exactly the links from active ones to sources about to go |
| LifecycleRepo.Repository.LinksToSources | scripts/docs-lifecycle.py:552-556 | the loop over the links of one document |
| LifecycleRepo.Repository.CleanEntry | scripts/docs-lifecycle.py:601-630 | one entry of a cleanup in place |
| LifecycleRepo.Repository.RunCleanup | scripts/docs-lifecycle.py:581-637 | cleaning up in place, including what an error part of the way leaves behind; a link from an active document to a source about to go gives the link conflict and changes nothing |

## Left out

- The LLVM objects, optimization passes, JIT execution, native extern blocks and type lookup.
- Runtime helpers that are only declared for the emitted code: lists, dictionaries, matrices, strings and the task scheduler.
- File, stdin and zipped stream loops, snapshot files, and their scopes and owned temporaries.
- Pulse: slots whose input is not a plain word (strings are parsed first), reads without a plan, which give 0, history reads on accumulators, and pulse loops whose body ends in a terminator. Windows are between 1 and 2^31 - 1.
- Pulse: what a cursor of 2^64 and more has overwritten is described exactly, not repaired; `PulseSteps.HistRefines` covers every read, and the mean and maximum theorems carry the condition.
- RingSpec.EveryRunReads: stops one write before the head would wrap; `RingSpec.WrapLosesHistory` shows what happens then.
- Undef.SentinelHomomorphism: covers integers; the float, string and matrix branches, powers, self-assignment and the mixed-type logical select are not modelled.
- Flow: statements come after name resolution. Rebinding errors, shadowing between range variables and outer names, functions, match, for-each and wave dispatch are not modelled; a slot that was never written reads 0.
- Flow: the operands of a range loop are evaluated by one instruction, the commit loop of all rings at the end of a body is one instruction, and the exit code of the main function is left out. Undefined behaviour of an operand ends the run in a fault.
- CaptureProof.WalkCollects: leaves out fallbacks, initializers and matches without arms altogether; the theorems on `Reads` cover them. The parser gives an initializer only to a parameter, as a default expression (src/StyioParser/Parser.cpp:1310-1318); `CaptureProof.InitializerHidesName` and `CaptureProof.ScrutineeHidesName` are about node kinds that the walk accepts; no source program is known that puts a binding into an initializer or into the scrutinee of a match.
- Capture: types are reduced to numbers and lists, captures are not sorted by name (only field order depends on it), and task pulls, awaits and calls are not part of the walk.
- TaskFlow.StmtRunsAlike: leaves out rings, wave merges, guards and probes, which the task walk does not know, and breaks outside loops.
- Closure: the lookup of an include next to its file, under src and under the root, and the recognition of include lines are given; the file system is a finite map.
- Config: the tables of known sections and fields are given as the set of wanted settings, and the defaults filled in afterwards are left out.
- TextBuffer: offsets count bytes; character encodings are left out.
- Uri.PathRoundTrip: path normalization is a given function.
- Lifecycle: paths are lists of segments compared as such, so links, dots and case are left out, and directories named like documents, negative keep windows, a newline at the end of a date, the order of entries in the manifest, JSON, the ledger's text and the regeneration of indexes (which may itself fail, as it does once docs/review is gone) are not modelled. Files and directories form a tree: every one stands in a directory. Theme and value come stripped.
