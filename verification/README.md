# Models of four LLVM algorithms

This project models four self-contained kernels of LLVM and proves what they are for: the
Andersen-style CFL alias analysis, the BrainF example compiler, the mass distribution of the block
frequency analysis, and two searches of control-flow graphs. `dafny verify dfyconfig.toml` checks
all of it.

## The alias analysis

`CflGraph` is the graph of nodes (value, dereference level) with assignment edges and matching
reverse edges. `CflRules` states the rules of the automaton as closure conditions on two sets, facts
(from, to, state) and memory aliases, and what it means to be the least closed pair. `CflReach` and
`CflSolve` are the classes and worklist loops of the analysis, proved to end with that pair, which is
the only one of its kind (`CflRules.LeastClosedIsUnique`), and to expand every fact exactly once.
`CflWalks` characterises it independently: two nodes are related exactly when a walk the automaton
accepts joins them, the relation is symmetric, and a fact comes from a walk that reads and writes as
the suffix of its state says. `CflAttrs` is the second worklist, for
attributes, which is characterised independently too: an attribute gets to a node along accepted
walks and dereferences, and in no other way. `CflQuery` is what is kept for queries, and the queries.

The source leaves reaching the fix point as an open point and relies on symmetry without proof;
both are theorems here (`CflSolve.BuildReach`, `CflWalks.RelatedIsSymmetric`). A comment in the
source says that the alias map holds each pair once, in the order of the values; the code keeps both
directions, and the model follows the code.

## The BrainF compiler

`BrainFSource` is the language, character by character: cells modulo 256, loops matched by their
brackets. `BrainFTokens` is the sequence of coalesced symbols. `BrainFMachine` is a small instruction
set with phi nodes and the machine that runs it. `BrainFCodegen` says what each symbol adds to the
function under construction. `BrainFCompiler` is the class with the scanner's lookahead and the
recursion over loops, proved to produce exactly that function. `BrainFRuns`, `BrainFSimulation` and
`BrainFPreservation` lead to the theorems of `BrainFTheorems`: the compiled function does what the
program does, on every input, whether or not it ends. `BrainFWellFormed`, `BrainFDominance` and
`BrainFSsa` prove the static shape of the function.

The bounds check comes after each move, so the cell the head starts on is never checked. With a tape
of no cells the promise fails, for the program `+`; it holds if and only if there is a cell
(`BrainFTheorems.SafeIffTapeHasACell`).

## Block frequencies

`BfiProbability` is the scaling of 64-bit numbers by fixed-point probabilities, in 32-bit digits.
`BfiCombining`, `BfiNormalize` and `BfiDistribution` combine and scale the weights of a distribution.
`BfiMass`, `BfiDistribute`, `BfiHeaderMass` and `BfiFrequencyInfo` hand out mass without losing any.
`BfiDelivery`, `BfiHandOut` and `BfiFairness` say who gets it: every place exactly the portions that
are for it, and each portion in proportion to its weight, within an error that does not build up.
`BfiIrreducible` chooses the headers of irreducible regions. `BfiSeeding`, `BfiLoopMass` and
`BfiLoopOrder` are about the whole of a loop's computation: the full mass starts on the headers, goes
once through the nodes in order, and all of it ends up flowing back or leaving, so that the exit mass
found by subtraction is what the exits carry (`BfiFrequencyInfo.BlockFrequencyInfo.ComputeMassInLoop`).
That the order of the nodes allows this in an irreducible loop is a theorem about the choice of its
headers (`BfiLoopOrder.ChosenHeadersGoForward`). `BfiResolve` says why different nodes of a loop keep
their masses in different places.

Two promises of the source do not hold of its code in all cases, and the exact conditions are proved.
After an overflow of the sum of weights, scaling by 33 bits with rounding can exceed 32 bits: two
weights of 2^64-1 add up to 2^32, which is 0 in the 32 bits that are kept
(`BfiFailures.NormalizeFullEdges`). Of a given number of weights with a given sum, all fit if and only
if the sum is below `BfiNormalize.Threshold`. And adjusting the headers of an irreducible loop is said
to distribute the full mass among them, but a header that no mass flows back to keeps what it had
(`BfiFailures.AdjustOneSided`). The headers hold exactly the full mass if and only if those headers
held none; as every header is seeded with some mass, that means that some mass flows back to each.

## Control-flow graphs

`CfgGraph` has graphs and paths. `CfgBackedges` is the iterative depth-first search, proved equal to
the recursive one, with a stack that is always a path from the entry. `CfgBackedgesTheorems` says
what the edges it reports mean, and that it looks at each slot of each reachable block once.
`CfgReachability` is the bounded search with its dominator and loop shortcuts, proved exact unless it
gives up, which it does exactly when no set of fewer than 32 blocks is closed under what it follows;
that the blocks of a loop reach each other follows from its header and its latches.

`Wrappers` and `Sets` hold what the models share.

## Model

| member | source | states |
|---|---|---|
| CflGraph.CFLGraph.constructor | llvm/lib/Analysis/CFLGraph.h:47-47 | an empty graph is well formed |
| CflGraph.CFLGraph.AddNode | llvm/lib/Analysis/CFLGraph.h:98-104 | a node comes with all the levels above it, its attributes are added to those it has, no edge changes, and the result says whether it is new |
| CflGraph.CFLGraph.AddEdge | llvm/lib/Analysis/CFLGraph.h:112-120 | exactly one more assignment, recorded at both of its ends; the edge and reverse-edge lists keep matching |
| CflReach.ReachabilitySet.Insert | llvm/lib/Analysis/CFLAndersAliasAnalysis.cpp:153-162 | adds exactly one (from, to, state) fact to the nested table and says whether it was missing |
| CflReach.AliasMemSet.Insert | llvm/lib/Analysis/CFLAndersAliasAnalysis.cpp:190-195 | adds exactly one pair of dereferenced nodes and says whether it was missing |
| CflReach.Propagate | llvm/lib/Analysis/CFLAndersAliasAnalysis.cpp:565-572 | records a fact that follows by the rules unless its ends are equal, queues it exactly when it is new, and keeps both invariants of the search: nothing is recorded that does not follow, and every unqueued fact has had all its consequences drawn |
| CflReach.NextAssignState | llvm/lib/Analysis/CFLAndersAliasAnalysis.cpp:652-655 | draws all consequences of one fact along assignment edges |
| CflReach.NextRevAssignState | llvm/lib/Analysis/CFLAndersAliasAnalysis.cpp:656-659 | draws all consequences along reverse edges, in the states that allow them |
| CflReach.NextMemState | llvm/lib/Analysis/CFLAndersAliasAnalysis.cpp:660-665 | draws all consequences along the memory aliases recorded so far, in the states that allow them |
| CflReach.AddMemoryAlias | llvm/lib/Analysis/CFLAndersAliasAnalysis.cpp:621-643 | a new memory alias is accompanied by its own fact and by the extension of everything that already reaches its first node, so no fact expanded earlier becomes incomplete |
| CflSolve.InitializeWorkList | llvm/lib/Analysis/CFLAndersAliasAnalysis.cpp:574-595 | every assignment relates its two ends in both directions, and the list holds every fact so far exactly once |
| CflSolve.ProcessWorkListItem | llvm/lib/Analysis/CFLAndersAliasAnalysis.cpp:605-703 | after one item, that item has had all its consequences drawn, those before it still have, and just the new facts are queued, each once |
| CflSolve.BuildReach | llvm/lib/Analysis/CFLAndersAliasAnalysis.cpp:759-771 | the rounds of the worklist end, with exactly the least sets closed under the rules (the fix point the comment at line 764 asks for); the items expanded, in order, are the facts, each exactly once, and there are at most 7·n·n |
| CflSolve.AtMostSevenPerPair | llvm/lib/Analysis/CFLAndersAliasAnalysis.cpp:766-771 | facts about a graph of n nodes number at most 7·n·n, which bounds the loop |
| CflWalks.WalkIsRecorded | llvm/lib/Analysis/CFLAndersAliasAnalysis.cpp:645-703 | the ends of every walk the automaton accepts are equal or recorded, in a state that allows whatever the walk allows; dropping From == To facts loses nothing |
| CflWalks.RecordedIsWalk | llvm/lib/Analysis/CFLAndersAliasAnalysis.cpp:89-110 | every recorded fact is an accepted walk that reads and writes as the suffix of its state says: without reverse assignments for WriteOnly, without assignments for ReadOnly, without either for NoReadWrite, with both for ReadWrite; and every memory alias hangs below a walk |
| CflWalks.RelatedIffJoined | llvm/lib/Analysis/CFLAndersAliasAnalysis.cpp:605-703 | two different nodes are related in some state exactly when an accepted walk joins them |
| CflWalks.RelatedIsSymmetric | llvm/lib/Analysis/CFLAndersAliasAnalysis.cpp:616-618 | being related in some state is symmetric, as the comment relies on |
| CflWalks.MemoryAliasIsSymmetric | llvm/lib/Analysis/CFLAndersAliasAnalysis.cpp:616-618 | so is being memory aliases |
| CflWalks.BackOntoAccepted | llvm/lib/Analysis/CFLAndersAliasAnalysis.cpp:647-651 | an accepted walk turned around, with assignments and reverse assignments exchanged, is accepted |
| CflAttrs.AliasAttrMap.Add | llvm/lib/Analysis/CFLAndersAliasAnalysis.cpp:213-220 | adds attributes to one node only and says whether it gained any |
| CflAttrs.SpreadSameLevel | llvm/lib/Analysis/CFLAndersAliasAnalysis.cpp:727-732 | all nodes that reach a node get its attributes, those that gain any are queued |
| CflAttrs.SpreadBelow | llvm/lib/Analysis/CFLAndersAliasAnalysis.cpp:734-742 | the node below gets the attributes although the walk down stops at the first node that gains any |
| CflAttrs.BuildAttrMap | llvm/lib/Analysis/CFLAndersAliasAnalysis.cpp:705-749 | terminates with exactly the least attribute map that holds the initial attributes and is closed under copying along reachability and downwards; its nodes are those of the graph |
| CflAttrs.AttributeIffDescends | llvm/lib/Analysis/CFLAndersAliasAnalysis.cpp:705-749 | a node has an attribute exactly when a chain leads to it from a node that had it from the start, each step being an accepted walk or one more dereference |
| CflQuery.PopulateAttrMap | llvm/lib/Analysis/CFLAndersAliasAnalysis.cpp:340-351 | the values seen are exactly those with a node in the map, each with the attributes of its top level |
| CflQuery.PopulateAliasMap | llvm/lib/Analysis/CFLAndersAliasAnalysis.cpp:353-374 | the list of a value is sorted and holds, at unknown offsets, exactly the top-level values related to it |
| CflQuery.EqualRange | llvm/lib/Analysis/CFLAndersAliasAnalysis.cpp:532-533 | the range of a sorted list that binary search finds holds exactly the entries for one value |
| CflQuery.FunctionInfo.MayAlias | llvm/lib/Analysis/CFLAndersAliasAnalysis.cpp:490-563 | for any alias lists: an unseen value may alias anything; with attribute bit 1 or 3 on one side the answer is whether the other has any attribute; otherwise, with bit 2 or a bit from 4 on at one side, whether the other has one too; otherwise whether the list has an entry for the other value at an unknown offset, of a size of 63 bits or more, or with byte ranges that meet |
| CflQuery.FunctionInfo.DecidedByBits | llvm/lib/Analysis/CFLAndersAliasAnalysis.cpp:504-562 | the same of the answer that the lemmas below speak of |
| CflQuery.OutsideBits | llvm/lib/Analysis/AliasAnalysisSummary.cpp:8-69 | without bits 1 and 3, what is neither escaped, unknown nor a caller attribute is bit 2 or a bit from 4 on |
| CflQuery.BuildInfoFrom | llvm/lib/Analysis/CFLAndersAliasAnalysis.cpp:751-781 | the maps kept for queries represent the least sets and the least attributes of the graph |
| CflQuery.AnswerMeans | llvm/lib/Analysis/CFLAndersAliasAnalysis.cpp:500-562 | the answer is decided by the attribute bits or, failing that, is exactly whether the values are related; sizes play no part |
| CflQuery.RelatedMayAlias | llvm/lib/Analysis/CFLAndersAliasAnalysis.cpp:507-516 | related values are reported on every attribute path |
| CflQuery.JoinedMayAlias | llvm/lib/Analysis/CFLAndersAliasAnalysis.cpp:490-563 | values an accepted walk joins are never reported as not aliasing |
| CflQuery.PlainValuesAliasIffJoined | llvm/lib/Analysis/CFLAndersAliasAnalysis.cpp:518-562 | for two different values without attributes the answer is exactly whether an accepted walk joins them |
| CflQuery.AnswerIsSymmetric | llvm/lib/Analysis/CFLAndersAliasAnalysis.cpp:490-563 | the two locations may be exchanged, with any sizes |
| CflQuery.RelatedShareAttrs | llvm/lib/Analysis/CFLAndersAliasAnalysis.cpp:727-732 | related nodes end up with the same attributes |
| BrainFSource.AcceptedIffBalanced | llvm/examples/BrainF/BrainF.cpp:426-475 | a program is accepted exactly when its brackets balance, in terms of the bracket excess of its prefixes |
| BrainFSource.JudgeIsBalance | llvm/examples/BrainF/BrainF.cpp:426-475 | the error for an extra bracket is given exactly when some prefix closes more than it opens |
| BrainFTokens.RunsAreMaximal | llvm/examples/BrainF/BrainF.cpp:318-423 | no two adjacent symbols belong to the same run |
| BrainFTokens.ScanningKeepsVerdict | llvm/examples/BrainF/BrainF.cpp:318-423 | coalescing neither adds, drops nor reorders brackets |
| BrainFTokens.ClosesWhatItOpened | llvm/examples/BrainF/BrainF.cpp:292-312 | matching from an opening bracket forwards and from the stack of open loops backwards agree |
| BrainFCompiler.Absorb | llvm/examples/BrainF/BrainF.cpp:338-422 | the symbol read and the one looked ahead to stand for exactly the text consumed, and reading stops exactly when the symbol is complete |
| BrainFCompiler.BrainF.constructor | llvm/examples/BrainF/BrainF.cpp:65-190 | after the header the code is that of no symbols; nothing has been read or executed |
| BrainFCompiler.BrainF.ReadSymbols | llvm/examples/BrainF/BrainF.cpp:320-423 | reading loses and duplicates no symbol, whatever was looked ahead to before |
| BrainFCompiler.BrainF.WriteRead | llvm/examples/BrainF/BrainF.cpp:209-224 | appends the code of a read |
| BrainFCompiler.BrainF.WriteWrite | llvm/examples/BrainF/BrainF.cpp:226-244 | appends the code of a write |
| BrainFCompiler.BrainF.WriteChange | llvm/examples/BrainF/BrainF.cpp:278-290 | appends the code of a change run |
| BrainFCompiler.BrainF.WriteMove | llvm/examples/BrainF/BrainF.cpp:246-276 | appends the code of a move run, with the bounds check and its new block when asked for |
| BrainFCompiler.BrainF.WriteLoop | llvm/examples/BrainF/BrainF.cpp:292-309 | opens a loop: a jump to the test block, its unfinished phi, and the body block |
| BrainFCompiler.BrainF.WriteEndLoop | llvm/examples/BrainF/BrainF.cpp:432-462 | finishes the phi and the test of the innermost loop and continues in a block with a phi of its own |
| BrainFCompiler.BrainF.CompileLoop | llvm/examples/BrainF/BrainF.cpp:292-312 | when a loop is compiled recursively no symbol is looked ahead to, before or after, and the loops open are again those before it |
| BrainFCompiler.BrainF.CloseProgram | llvm/examples/BrainF/BrainF.cpp:469-475 | at the end of the text the code is the finished function of all symbols |
| BrainFCompiler.BrainF.ReadLoop | llvm/examples/BrainF/BrainF.cpp:192-476 | each level of the recursion consumes up to its own closing bracket with no symbol looked ahead to, or ends with the error that the whole text deserves |
| BrainFCompiler.Parse | llvm/examples/BrainF/BrainF.cpp:53-63 | for every text: the error is exactly that of the bracket discipline, and accepted text gives exactly the function the code generator specification describes |
| BrainFCodegen.HistoryOnlyGrows | llvm/examples/BrainF/BrainF.cpp:202-312 | code once emitted stays, except in the test blocks of loops that are still open |
| BrainFCodegen.FramesAreOpens | llvm/examples/BrainF/BrainF.cpp:292-312 | the recursion is always inside exactly the loops whose closing bracket has not been read |
| BrainFPreservation.AdvanceStraight | llvm/examples/BrainF/BrainF.cpp:204-290 | the code of a run does what its characters do one by one, or the checked move reports |
| BrainFPreservation.AdvanceLoop | llvm/examples/BrainF/BrainF.cpp:292-312 | at an opening bracket the test block enters the body exactly when the cell is not zero, with the head in the phi |
| BrainFPreservation.AdvanceEndLoop | llvm/examples/BrainF/BrainF.cpp:432-462 | at a closing bracket the back edge of the phi brings the head back to the same test |
| BrainFTheorems.CompiledAgrees | llvm/examples/BrainF/BrainF.cpp:192-476 | unchecked on an unbounded tape: however far either side has run, both reach a later moment with the same tape, unread input and output |
| BrainFTheorems.CompiledWritesAlike | llvm/examples/BrainF/BrainF.cpp:192-476 | whatever either side has written, the other writes as well, also when the program never ends |
| BrainFTheorems.CompiledEndsAlike | llvm/examples/BrainF/BrainF.cpp:192-476 | the compiled function returns if and only if the program ends, and then tape, head, unread input and output agree |
| BrainFTheorems.CompiledNeverFaults | llvm/examples/BrainF/BrainF.cpp:246-276 | no run reads an undefined register, leaves its blocks or, when checked on a tape of at least one cell, touches memory outside [arr, arrmax) |
| BrainFTheorems.CheckedAgreesUntilCaught | llvm/examples/BrainF/BrainF.cpp:255-274 | a checked run agrees with the program until it is caught, which happens at the first stray moment, with everything observable as it is then |
| BrainFTheorems.CheckedReportsExactly | llvm/examples/BrainF/BrainF.cpp:255-274 | the error is reported exactly when at some moment the head is off the tape with no move pending: once per coalesced run, not per character |
| BrainFTheorems.SafeIffTapeHasACell | llvm/examples/BrainF/BrainF.cpp:117-127 | the check keeps every program on its tape if and only if the tape has a cell; with none, the program "+" touches memory before any check |
| BrainFWellFormed.EmitJumps | llvm/examples/BrainF/BrainF.cpp:202-312 | the jumps of the function after a symbol are those before it and exactly the ones listed for the symbol |
| BrainFWellFormed.ClosedTestPhi | llvm/examples/BrainF/BrainF.cpp:432-443 | the finished phi of a loop test has one incoming value for each of its two different predecessors and for no other block |
| BrainFDominance.EmitDefs | llvm/examples/BrainF/BrainF.cpp:202-312 | a symbol keeps every definition where it is and adds exactly one for each new register |
| BrainFDominance.JustifiedDominates | llvm/examples/BrainF/BrainF.cpp:301-309 | availability that accounts for each use and each jump means that definitions dominate their uses on all paths |
| BrainFSsa.CompiledIsWellFormed | llvm/examples/BrainF/BrainF.cpp:192-476 | every balanced program compiles to a function in which each block ends in its only terminator, phis match predecessors one to one, jumps stay inside, registers are defined once, and definitions dominate uses on every path from the entry |
| BfiProbability.Probability | llvm/lib/Support/BranchProbability.cpp:37-47 | a fraction becomes a multiple of 2^-31 of at most 1, and exactly 1 when numerator and denominator are equal |
| BfiProbability.ProbabilityIsNearest | llvm/lib/Support/BranchProbability.cpp:37-47 | it is off by at most half of 2^-31, so no multiple of 2^-31 is nearer |
| BfiProbability.DigitsAreRight | llvm/lib/Support/BranchProbability.cpp:77-86 | the three 32-bit digits and the carry found by comparison are the whole product |
| BfiProbability.LongDivision | llvm/lib/Support/BranchProbability.cpp:92-101 | one digit of long division |
| BfiProbability.Scale | llvm/lib/Support/BranchProbability.cpp:66-106 | the digit-wise computation is the exact floor of num·n/d, saturated at 64 bits |
| BfiProbability.ScaleByProbability | llvm/lib/Analysis/BlockFrequencyInfoImpl.cpp:92-101 | a share is never more than the mass, and is all of it when the weight is all that remains |
| BfiCombining.CombineWeightsBySorting | llvm/lib/Analysis/BlockFrequencyInfoImpl.cpp:136-155 | exactly one entry per target, with the saturated true sum of its edges and their type, sorted by target |
| BfiCombining.CombineWeightsByHashing | llvm/lib/Analysis/BlockFrequencyInfoImpl.cpp:157-173 | the same, in some order |
| BfiCombining.CombinationUnique | llvm/lib/Analysis/BlockFrequencyInfoImpl.cpp:136-173 | both strategies yield the same entries |
| BfiCombining.CombineWeights | llvm/lib/Analysis/BlockFrequencyInfoImpl.cpp:175-183 | up to 128 edges by sorting, more by hashing, with the same meaning |
| BfiNormalize.RoundsHalfUp | llvm/lib/Analysis/BlockFrequencyInfoImpl.cpp:185-191 | the shift divides by the power of two, rounding half up |
| BfiNormalize.ScaledIsDivided | llvm/lib/Analysis/BlockFrequencyInfoImpl.cpp:228-241 | a scaled weight is the weight divided by the power of two, to the nearest number, halves rounded up, but not to zero |
| BfiNormalize.ShiftKeeps31 | llvm/lib/Analysis/BlockFrequencyInfoImpl.cpp:205-217 | for a sum of 33 to 64 bits the power of two d that is divided by satisfies 2^30 d <= sum < 2^31 d: exactly 31 bits are kept |
| BfiNormalize.ScaledTotalPrecise | llvm/lib/Analysis/BlockFrequencyInfoImpl.cpp:213-241 | so the scaled total is at least 2^30, but for half a unit for each weight |
| BfiNormalize.ScaledFits | llvm/lib/Analysis/BlockFrequencyInfoImpl.cpp:213-246 | without overflow, at most 2^31 scaled weights add up to at most 32 bits although none is scaled to zero |
| BfiNormalize.FitsIffBelowThreshold | llvm/lib/Analysis/BlockFrequencyInfoImpl.cpp:214-246 | after an overflow, all combined weights of a given number and sum have a scaled total that fits in 32 bits if and only if the sum is below a threshold that depends on their number |
| BfiNormalize.AboveThresholdMayNotFit | llvm/lib/Analysis/BlockFrequencyInfoImpl.cpp:237-246 | from the threshold on there are weights whose scaled total exceeds 32 bits, against the comment that rounding is safe |
| BfiNormalize.SumOfCombined | llvm/lib/Analysis/BlockFrequencyInfoImpl.cpp:219-229 | combining never increases the sum, and keeps it when nothing saturates |
| BfiNormalize.CombinedIsCombination | llvm/lib/Analysis/BlockFrequencyInfoImpl.cpp:136-173 | listing each target once with the saturated sum of its edges is what both ways of combining do |
| BfiNormalize.ScaledTotalPermuted | llvm/lib/Analysis/BlockFrequencyInfoImpl.cpp:228-244 | the scaled total does not depend on the order in which combining leaves the weights |
| BfiDistribution.BelowThresholdIsFit | llvm/lib/Analysis/BlockFrequencyInfoImpl.cpp:205-246 | edges to at most 2^31 targets normalize to a total of 32 bits, after an overflow if their combined sum is below the threshold |
| BfiFailures.FullEdgesDoNotFit | llvm/lib/Analysis/BlockFrequencyInfoImpl.cpp:214-246 | two weights of 2^64-1 normalize to a total of exactly 2^32 |
| BfiFailures.NormalizeFullEdges | llvm/lib/Analysis/BlockFrequencyInfoImpl.cpp:193-247 | a distribution with those two edges leaves normalization with a total above 32 bits that is 0 in 32 bits |
| BfiDistribution.Distribution.Add | llvm/lib/Analysis/BlockFrequencyInfoImpl.cpp:103-118 | the total is the sum of the edges modulo 2^64, and the flag says whether it has wrapped around |
| BfiDistribution.Distribution.Normalize | llvm/lib/Analysis/BlockFrequencyInfoImpl.cpp:193-247 | one positive entry of at most 32 bits per target: its saturated sum divided by a power of two, to the nearest number but not to zero; that is 1 for sums of up to 32 bits, the one that leaves 31 bits of a sum of up to 64, and 2^33 beyond; so twice the total and the number of entries is at least 2^31 if the sum had more than 32 bits; the total is the sum of the entries and fits in 32 bits for up to 2^31 targets, after an overflow if the combined sum is below the threshold |
| BfiMass.DitheringDistributer.constructor | llvm/lib/Analysis/BlockFrequencyInfoImpl.cpp:85-90 | for edges whose normalized total fits in 32 bits: leaves them normalized, and starts with the whole of their total and the whole mass |
| BfiMass.DitheringDistributer.TakeMass | llvm/lib/Analysis/BlockFrequencyInfoImpl.cpp:92-101 | what is taken is to the remaining mass as the weight is to the remaining weights, within mass/2^32 above and 1 + mass/2^32 below; both remainders go down by what is taken |
| BfiMass.PortionsAreProportional | llvm/lib/Analysis/BlockFrequencyInfoImpl.cpp:92-101 | the same of each of the portions taken for a list of weights, one after the other |
| BfiFairness.PortionsAreFair | llvm/lib/Analysis/BlockFrequencyInfoImpl.cpp:92-101 | the errors do not build up: the portion of the j-th weight differs from its exact share of the whole mass by at most j times 1 + mass/2^32 |
| BfiMass.PortionsAddUp | llvm/lib/Analysis/BlockFrequencyInfoImpl.cpp:92-101 | the portions taken for all weights add up to exactly the mass |
| BfiMass.GetHeaderIndex | llvm/include/llvm/Analysis/BlockFrequencyInfoImpl.h:233-239 | the position of a header among the headers of its loop |
| BfiDistribute.DepositAdds | llvm/lib/Analysis/BlockFrequencyInfoImpl.cpp:412-432 | a portion is added to the total of all masses exactly when its place does not saturate |
| BfiDistribute.DepositAllAdds | llvm/lib/Analysis/BlockFrequencyInfoImpl.cpp:409-433 | so are all portions together, and none saturates if the sum of all masses fits |
| BfiDelivery.DepositAllDelivers | llvm/lib/Analysis/BlockFrequencyInfoImpl.cpp:409-433 | each node's place, each header's back-edge mass and the exits to each node grow by exactly the portions of the edges that lead there, up to 2^64-1 for the first two, and nothing else changes |
| BfiFrequencyInfo.BlockFrequencyInfo.Credit | llvm/lib/Analysis/BlockFrequencyInfoImpl.cpp:412-432 | a portion raises the successor's own place or the back-edge mass of the header by itself, up to 2^64-1, or is added to the exits to the successor, and nothing else changes |
| BfiFrequencyInfo.BlockFrequencyInfo.DepositEach | llvm/lib/Analysis/BlockFrequencyInfoImpl.cpp:409-433 | at the end no weight remains and, if there was any, no mass |
| BfiFrequencyInfo.BlockFrequencyInfo.DistributeMass | llvm/lib/Analysis/BlockFrequencyInfoImpl.cpp:400-433 | the edges are normalized; each weight's portion is proportional to it; every place, header and exit grows by exactly the portions that are for it; the portions add up to the source mass, all masses together grow by exactly it if and only if no place saturates, and no node's mass goes down |
| BfiFrequencyInfo.BlockFrequencyInfo.SeedHeaders | llvm/include/llvm/Analysis/BlockFrequencyInfoImpl.h:1098-1106 | before propagation each header of an irreducible loop holds an equal share of what those before it have left of 2^64-1: together exactly that mass, and each of them some; no other mass changes |
| BfiSeeding.SeedsArePositive | llvm/include/llvm/Analysis/BlockFrequencyInfoImpl.h:1098-1106 | however many headers fit in 32 bits, rounding the probabilities leaves none of them without mass |
| BfiHeaderMass.AssignAllTotal | llvm/lib/Analysis/BlockFrequencyInfoImpl.cpp:791-798 | the headers end up with the portions and with what headers without a weight had |
| BfiHeaderMass.HeadersHoldFullMass | llvm/lib/Analysis/BlockFrequencyInfoImpl.cpp:765-799 | the headers hold exactly the full mass if and only if every header without back-edge mass held none; where all held some, if and only if some mass flows back to each |
| BfiFrequencyInfo.BlockFrequencyInfo.AdjustLoopHeaderMass | llvm/lib/Analysis/BlockFrequencyInfoImpl.cpp:765-799 | each header that some mass flows back to gets, in place of its mass, a portion of 2^64-1 in proportion to that mass; the others keep theirs; the headers hold exactly the full mass if and only if every header without back-edge mass held none; no other mass changes |
| BfiHandOut.NormalizedBackWeights | llvm/lib/Analysis/BlockFrequencyInfoImpl.cpp:774-788 | there is one weight for each header that some mass flows back to: that mass divided by the power of two that its total calls for, to the nearest number but not to zero |
| BfiHandOut.PortionsHandedOut | llvm/lib/Analysis/BlockFrequencyInfoImpl.cpp:790-798 | assigning the portions gives each of these headers its own and leaves all other masses alone |
| BfiFailures.IdleHeaderIsExtra | llvm/lib/Analysis/BlockFrequencyInfoImpl.cpp:775-798 | with back-edge mass for the first of two headers only, the second keeps its unit beside the full mass of the first |
| BfiFailures.AdjustOneSided | llvm/lib/Analysis/BlockFrequencyInfoImpl.cpp:765-799 | seeding and adjusting such headers leaves them with more than the full mass |
| BfiLoopMass.BackWeightsFit | llvm/lib/Analysis/BlockFrequencyInfoImpl.cpp:774-788 | back-edge masses that add up to at most the full mass normalize to 32 bits |
| BfiLoopMass.DepositAllInFlight | llvm/lib/Analysis/BlockFrequencyInfoImpl.cpp:409-433 | portions add to the mass on its way through a loop no more than they are, and exactly that if each goes to a node still to come, back or out |
| BfiFrequencyInfo.BlockFrequencyInfo.PropagateMass | llvm/include/llvm/Analysis/BlockFrequencyInfoImpl.h:1201-1225 | distributes the mass of a node over its edges as above, and passes all of it on to the nodes still to come, back or out, if the edges lead there |
| BfiFrequencyInfo.BlockFrequencyInfo.PropagateAll | llvm/include/llvm/Analysis/BlockFrequencyInfoImpl.h:1107-1118 | one pass over the nodes never lets more than the full mass through, and exactly it if all edges lead forward |
| BfiFrequencyInfo.BlockFrequencyInfo.ExitMass | llvm/lib/Analysis/BlockFrequencyInfoImpl.cpp:356-361 | the full mass less what flows back |
| BfiFrequencyInfo.BlockFrequencyInfo.ComputeMassInLoop | llvm/include/llvm/Analysis/BlockFrequencyInfoImpl.h:1093-1121 | the whole computation, for one header or several: if all edges lead forward, what flows back and what leaves add up to exactly the full mass, and the exit mass found by subtraction is what the exits carry; several headers end up with exactly the full mass if and only if some mass flows back to each |
| BfiResolve.ResolvedSlotsDiffer | llvm/include/llvm/Analysis/BlockFrequencyInfoImpl.h:273-309 | nodes that represent themselves or the loop they are packaged into keep their masses in different places |
| BfiResolve.ResolvedNodesAreDistinct | llvm/include/llvm/Analysis/BlockFrequencyInfoImpl.h:273-309 | so do all nodes of a list of such nodes, which is what distributing mass in a loop needs |
| BfiResolve.MassIsKept | llvm/include/llvm/Analysis/BlockFrequencyInfoImpl.h:298-318 | a node's mass is that of a packaged loop it is a header of, the outer one of two, and its own if there is none |
| BfiResolve.HeadersShareOneMass | llvm/include/llvm/Analysis/BlockFrequencyInfoImpl.h:298-318 | all headers of a packaged loop that is not itself packaged share one mass, that of the loop |
| BfiIrreducible.IrreducibleGraph.AddEdge | llvm/lib/Analysis/BlockFrequencyInfoImpl.cpp:614-626 | exactly one more edge, at the end of the successors of the one node and at the front of the predecessors of the other, or none towards headers of the enclosing loop or out of the graph |
| BfiIrreducible.FindEntries | llvm/lib/Analysis/BlockFrequencyInfoImpl.cpp:649-667 | marks and collects exactly the blocks entered from outside the component |
| BfiIrreducible.AddExtraHeaders | llvm/lib/Analysis/BlockFrequencyInfoImpl.cpp:676-706 | adds exactly the blocks with a predecessor that is neither before them nor an entry; the rest are the others |
| BfiIrreducible.FindIrreducibleHeaders | llvm/lib/Analysis/BlockFrequencyInfoImpl.cpp:644-709 | given two entries: headers and others are strictly sorted, partition the component, and the headers are exactly the entries and the extra headers |
| BfiIrreducible.HeaderIff | llvm/lib/Analysis/BlockFrequencyInfoImpl.cpp:651-700 | in terms of edges: a header is a block of the component with a predecessor outside, or with one that is not before it, lies inside and has all its own predecessors inside |
| BfiIrreducible.EveryCycleHasAHeader | llvm/lib/Analysis/BlockFrequencyInfoImpl.cpp:639-643 | every cycle inside the component passes through a header |
| BfiIrreducible.PredecessorsComeFirst | llvm/lib/Analysis/BlockFrequencyInfoImpl.cpp:674-708 | with the headers first and the others in order, each of the others comes after all its predecessors |
| BfiLoopOrder.ChosenHeadersGoForward | llvm/include/llvm/Analysis/BlockFrequencyInfoImpl.h:1107-1109 | so in an irreducible loop every edge to one of the others leads forward, and one pass over its nodes is enough |
| CfgBackedges.FindFunctionBackedges | llvm/lib/Analysis/CFG.cpp:27-66 | the iterative search with its explicit stack reports exactly what the recursive depth-first search reports, and looks at the same slots, in the same order |
| CfgBackedges.ScanSuccessors | llvm/lib/Analysis/CFG.cpp:45-55 | looks at the successor slots one after the other from where it left off, up to the first unvisited block, without changing the outcome of the search; blocks in InStack are those on the stack |
| CfgBackedges.StackIsPath | llvm/lib/Analysis/CFG.cpp:33-65 | the blocks on the stack, as every round leaves it, are a path from the entry |
| CfgBackedges.Visit | llvm/lib/Analysis/CFG.cpp:40-65 | one round goes down or up, keeps the stack a path from the entry without repetitions and InStack equal to its blocks, and leaves the outcome of the search unchanged |
| CfgBackedgesTheorems.ReachableFinished | llvm/lib/Analysis/CFG.cpp:40-65 | the blocks finished, and those visited, are exactly the ones the entry reaches |
| CfgBackedgesTheorems.EveryCycleIsCut | llvm/lib/Analysis/CFG.cpp:22-26 | without the reported edges the reachable part of the graph has no cycle |
| CfgBackedgesTheorems.ReportedEdgesCloseCycles | llvm/lib/Analysis/CFG.cpp:52-54 | every reported edge runs between reachable blocks and closes a cycle |
| CfgBackedgesTheorems.ReportsIffCyclic | llvm/lib/Analysis/CFG.cpp:22-26 | something is reported if and only if the entry reaches a cycle |
| CfgBackedgesTheorems.ReportedOncePerSlot | llvm/lib/Analysis/CFG.cpp:46-54 | an edge is reported as often as its source names its target |
| CfgBackedgesTheorems.EachSlotOnce | llvm/lib/Analysis/CFG.cpp:45-47 | the slots examined are exactly those of the blocks the entry reaches, each of them once |
| CfgReachability.GetOutermostLoop | llvm/lib/Analysis/CFG.cpp:113-120 | the loop without a parent that the parents of the innermost loop around a block lead to, and none for a block in no loop |
| CfgReachability.LoopContainsBoth | llvm/lib/Analysis/CFG.cpp:123-128 | whether two blocks share their outermost loop |
| CfgReachability.ExitsAre | llvm/include/llvm/Analysis/LoopInfoImpl.h:63-75 | the exit blocks are exactly the targets outside the loop of edges that leave it |
| CfgReachability.GetExitBlocks | llvm/include/llvm/Analysis/LoopInfoImpl.h:63-75 | appends the exit blocks in order |
| CfgReachability.DominatorReaches | llvm/lib/Analysis/CFG.cpp:133-149 | the dominance shortcut is right for a stop block the entry reaches |
| CfgReachability.LoopReaches | llvm/include/llvm/Analysis/LoopInfoImpl.h:350-400 | in a natural loop, given by a header that dominates its latches and blocks that get to a latch without passing the header, each block reaches each in at least one step |
| CfgReachability.SharedLoopReaches | llvm/lib/Analysis/CFG.cpp:123-151 | the loop shortcut is right: two blocks with the same outermost loop reach each other |
| CfgReachability.ExhaustedIsExact | llvm/lib/Analysis/CFG.cpp:159-171 | a search that has run dry, skipping from loops to their exits, has missed nothing |
| CfgReachability.SpaceIsLeast | llvm/lib/Analysis/CFG.cpp:140-168 | the blocks the search can visit are the least set that holds the start blocks and is closed under edges from members in no loop and edges out of the outermost loops of the other members |
| CfgReachability.SpaceHasReasons | llvm/lib/Analysis/CFG.cpp:159-166 | every other block of it has an edge from a member in no loop, or from a block of an outermost loop it shares with a member and the target does not |
| CfgReachability.NeedsManyIff | llvm/lib/Analysis/CFG.cpp:136-157 | every set closed in this way has at least 32 blocks if and only if the search space has |
| CfgReachability.Round | llvm/lib/Analysis/CFG.cpp:142-167 | one round settles the answer rightly, gives up at the limit, or makes progress |
| CfgReachability.IsPotentiallyReachableFromMany | llvm/lib/Analysis/CFG.cpp:130-172 | true exactly when a worklist block reaches the stop block, or when every set that holds the worklist and is closed under following edges, skipping loops, has at least 32 blocks |
| CfgReachability.IsPotentiallyReachable | llvm/lib/Analysis/CFG.cpp:174-184 | the same for one block |
| CfgReachability.IsInstructionReachable | llvm/lib/Analysis/CFG.cpp:186-236 | for instructions: true exactly when the second can follow the first, when only the first is in the entry block, or when the block search gave up |
| CfgReachability.StartBlocksReach | llvm/lib/Analysis/CFG.cpp:193-227 | starting from the successors of a shared block means going around at least once |

## Left out

- Building the alias graph from instructions and callee summaries: the analysis is proved for every well-formed graph.
- Summaries for callers (external relations and attributes), caching of functions, and the choice of the function to ask: an interprocedural layer around the analysis.
- The claim that read-only and write-only states mirror each other: dropping facts with equal ends breaks it on assignment cycles, and nothing here relies on it.
- CflQuery.FunctionInfo.MayAlias: offsets and sizes are mathematical integers, so the unguarded 64-bit addition of an offset and a size is not modelled; no list the analysis builds reaches it.
- Field offsets of edges: the graph has them and the analysis ignores them, here as in the source.
- Pointer order and hash order: tables are iterated in an arbitrary order, and the results do not depend on it.
- Library sorting and searching: sorting is written out as insertion sort, and the position of a header is searched for from the front.
- BrainFTheorems.CompiledAgrees: addresses and the sums of coalesced runs are mathematical integers, without the 32-bit wrap-around of the emitted constants.
- Heap details of the BrainF program: an allocation that fails, and what the allocator does with the tape after it has been freed; the text of the error message, which is a count of messages.
- LLVM types, names and metadata of the emitted function, and the drivers that run it.
- BfiFrequencyInfo.BlockFrequencyInfo.DistributeMass: requires what the source asserts, that the normalized total fits in 32 bits; what happens to the mass when a total is truncated is not modelled.
- BfiFrequencyInfo.BlockFrequencyInfo.ComputeMassInLoop: the edges of each node are given as the distribution gets them; a natural loop that is abandoned for an irreducible back edge, and is computed anew later, is not modelled. That its nodes keep their mass in different places is required, and follows for nodes that represent themselves (BfiResolve).
- Frequencies as floating-point numbers: loop scales, unwrapping of loops, and the final conversion to integers.
- Building distributions from branch weights, the order in which loops are visited, and setting a loop's package mark.
- Finding strongly connected components: the component is given, as are the dominator tree and the loop forest of the searches, which are assumed to describe the graph.
- Critical edges and successor numbers, the remaining small functions of the control-flow file.
