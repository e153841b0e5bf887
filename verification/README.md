# A verified model of Poche's algorithms

Poche is a card game whose repository holds, beside the game, a set of algorithms that do not depend
on its rules. This project models seven of them in Dafny and proves what they are for:

- the **finite formal dialect**: a typed expression-graph builder, its lowering to stack code, and the
  stack interpreter, against what the graph itself means (`DialectTypes`, `Building`, `Lowering`, `Evaluation`,
  `Denotation`, `DialectSoundness`);
- the **explicit-state checker**: breadth-first exploration with a predecessor tree, compressed sparse
  rows, Tarjan's algorithm, lassos, the progress rank and the universal-termination verdict (`Digraph`,
  `CompressedRows`, `StrongComponents`, `Explorer`, `Liveness`);
- the **private chunked transfer**: chunk arithmetic, sender with acknowledgement credit, in-order
  receiver, the restart-safe receiver, and both ends over a lossy network with forgeries and crashes
  (`Transfer`, `DurableTransfer`, `TransferNetwork`, `TransferLink`);
- the **canonical records and the hash-linked shuffle transcript** of the mental-poker prototype
  (`Wire`, `Records`, `Transcript`, `Audit`);
- the **dense finite-domain encodings** (`FiniteDomains`, `UniqueCards`);
- the **return accounting** of the training loop and the batch it produces (`Returns`, `Episode`, `Batches`);
- the **bounded session room** and its backward worklist (`BackwardReach`, `Session`).

`Wrappers`, `Arithmetic`, `Sequences`, `Counting`, `Octets` and `StandardDeck` hold what several modules share.

Code that changes state in the repository is a class or a loop here, proved against a specification
function or predicate; the lemmas then say what that specification means. What the code cannot see is a
parameter: the game is a finite list of legal actions per state and a partial step; the hash, the cipher
and the proof library are functions; the network, the disk and crashes are event sequences chosen by an
adversary. Three assumptions are made about those parameters, each written as a predicate. `Transfer.Honest`
says what an ideal authenticated cipher gives one session, and `Transfer.HonestIsPossible` exhibits such a
cipher for every source. `Transcript.Distinguishes` says that the hash tells apart the strings two compared
runs actually hash; injectivity on all strings is not assumed, because no fixed-length hash has it. `Session.Legible` says that
printed lines hold no newline and tell what they print apart.

What the proofs brought out:

- The dialect builder accepts comparing enumerations of more than 2^31 variants, and the interpreter then
  refuses a large ordinal. `DialectSoundness.WideComparisonFails` shows it for every such enumeration and
  `DialectSoundness.WideInputFails` for every program that compares an input of one;
  `DialectSoundness.OnlyOrdinalsCanFail` shows that no other runtime check can ever fail on exact inputs.
- The sender never retransmits an outstanding chunk, and may only be repositioned with nothing outstanding.
  An outstanding chunk that can no longer be acknowledged therefore forbids repositioning for good, and the
  transfer with it if a chunk the receiver still needs is gone. `TransferLink.CompletableExact` says of
  every state of both ends and the network, with the receiver up or down, whether the transfer can still
  complete, and `TransferLink.QuietLink` that a sender ahead of its receiver completes only after repositioning.
- `UniqueCards` fits its 128-bit code exactly up to twenty-four cards (`UniqueCards.FitsExactly`),
  although its constructor admits fifty-two.
- Removing a transfer directory is not atomic. `DurableTransfer.ResumeExact` therefore speaks about every
  disk, not only those a clean run leaves: whatever survives a removal that was cut short is either refused
  or resumed to exactly the chunks it holds.

## Model

| member | source | states |
|---|---|---|
| `Digraph.ClosedUnderReach` | crates/poche-check/src/liveness.rs:292-324 | a vertex set closed under edges contains everything reachable from it; the graph fact under every search here |
| `CompressedRows.FromGraph` | crates/poche-check/src/liveness.rs:340-365 | row `s` is exactly the in-order targets of the kept edges leaving `s`, plus the injected target last; an absent source or injected endpoint is the error, in the source's order |
| `CompressedRows.RowPicksEdges` | crates/poche-check/src/liveness.rs:346-386 | a row picks out, in edge-list order, exactly the edges leaving its state and lists their targets; the removed state's row is empty |
| `CompressedRows.RowEndsInjected` | crates/poche-check/src/liveness.rs:388-393 | the injected edge comes last, in the row of its source alone |
| `CompressedRows.FromCountsAndEdges` | crates/poche-check/src/liveness.rs:367-393 | offsets and targets built by counting and placing store exactly those rows |
| `CompressedRows.Boundaries` | crates/poche-check/src/liveness.rs:373-378 | offsets start at zero and advance by each row's count |
| `CompressedRows.PlaceStep` | crates/poche-check/src/liveness.rs:379-387 | writing one target at its row's cursor keeps every row a prefix of what it must hold |
| `CompressedRows.PlaceRest` | crates/poche-check/src/liveness.rs:388-393 | after all kept edges the injected target fills the one slot left |
| `CompressedRows.CountedRows` | crates/poche-check/src/liveness.rs:346-363 | the per-source counts are the row lengths |
| `StrongComponents.StronglyConnectedComponents` | crates/poche-check/src/liveness.rs:426-448 | every state is assigned; two states share a component iff each reaches the other; `sizes` are the component cardinalities; an edge leaving a component goes to a smaller number |
| `StrongComponents.Tarjan.Visit` | crates/poche-check/src/liveness.rs:462-493 | visiting an unseen state keeps the stack invariant, sees everything reachable, and leaves it either assigned to a closed component or anchored on the stack by its low link |
| `StrongComponents.Tarjan.PopComponent` | crates/poche-check/src/liveness.rs:479-491 | pops exactly the stack down to the root into one new component |
| `StrongComponents.ScanVisited` | crates/poche-check/src/liveness.rs:468-472 | after a recursive visit the smaller low link still names a stacked state reachable from this one |
| `StrongComponents.ScanStacked` | crates/poche-check/src/liveness.rs:473-475 | a successor on the stack lowers the low link to its index |
| `StrongComponents.NoEscape` | crates/poche-check/src/liveness.rs:478-492 | no edge leads out of a closing component except to assigned states |
| `StrongComponents.BackToRoot` | crates/poche-check/src/liveness.rs:478-492 | every state above the root on the stack leads back to the root |
| `StrongComponents.ClosedExact` | crates/poche-check/src/liveness.rs:478-492 | the popped states are exactly the states mutually reachable with the root |
| `StrongComponents.LeaveClosed` | crates/poche-check/src/liveness.rs:478-493 | a low link equal to the index closes the component and restores the caller's stack |
| `StrongComponents.LeaveStacked` | crates/poche-check/src/liveness.rs:478-493 | a lower low link leaves the state on the stack, anchored below |
| `Explorer.ExploreWithConfig` | crates/poche-check/src/lib.rs:281-374 | whatever it returns, graph, limit stop or error, is the state of the search machine after some number of steps, and says why it stopped there; a stop at the limit has recorded at least that many states, and the finished ones are counted exactly |
| `Explorer.InsertState` | crates/poche-check/src/lib.rs:500-516 | columns grow by one row under the next 32-bit identifier, or the identifiers are exhausted |
| `Explorer.InsertInitial` | crates/poche-check/src/lib.rs:288-303 | the initial states are recorded first, at depth zero, without predecessors |
| `Explorer.AfterSound` | crates/poche-check/src/lib.rs:305-350 | every step keeps: predecessor tree, distinct states, layered depths, every tried action recorded, edges in order, counters conserved |
| `Explorer.StepSound` | crates/poche-check/src/lib.rs:309-350 | one tried action or one finished state keeps all of it |
| `Explorer.ExhaustiveIsExact` | crates/poche-check/src/lib.rs:281-374 | without a limit stop, states are the reachable set without repeats, depths true shortest distances, edges every state, legal action and successor in order |
| `Explorer.EdgePosition` | crates/poche-check/src/lib.rs:309-350 | edges lie state by state and action by action: where each one stands in the list |
| `Explorer.DepthIsShortest` | crates/poche-check/src/lib.rs:309-350 | at every step of every search, limited or not, a recorded depth is the length of a shortest run to its state |
| `Explorer.TransitionsConserved` | crates/poche-check/src/lib.rs:314-364 | transitions plus initial states equal duplicate hits plus states, limited or not; the maximum depth is attained |
| `Explorer.LimitedIsPrefix` | crates/poche-check/src/lib.rs:320-331 | states, depths, predecessors and edges of a limited exploration are prefixes of the full ones |
| `Explorer.LimitMisses` | crates/poche-check/src/lib.rs:320-331 | an exploration stopped by its limit has missed a reachable state |
| `Explorer.FailureIsReal` | crates/poche-check/src/lib.rs:311-319 | an error names a reachable state whose advertised action fails, or more than 2^32 distinct states are reachable |
| `Explorer.Reconstruct` | crates/poche-check/src/lib.rs:457-479 | the cursor walk returns the tree path to its target, and nothing only for an unknown target |
| `Explorer.TraceIsRun` | crates/poche-check/src/lib.rs:457-479 | a tree path is a run of the system, as long as the recorded depth |
| `Explorer.ShortestTrace` | crates/poche-check/src/lib.rs:168-186 | for every known target, of a limited search too, the trace replays to it and no run reaches it in fewer actions |
| `Explorer.TraceThroughEdge` | crates/poche-check/src/lib.rs:191-199 | for a recorded edge, a shortest run to its source followed by exactly that edge |
| `Explorer.ShortestCounterexample` | crates/poche-check/src/lib.rs:388-455 | no result means every reachable state satisfies the invariant; a result is a run whose last state alone violates it, no longer than any violating run |
| `Explorer.NewestIsShortest` | crates/poche-check/src/lib.rs:427-449 | when only the newest state violates, its tree path is a shortest violation |
| `Explorer.FinishedStates` | crates/poche-check/src/lib.rs:352-363 | counts the finished states |
| `Explorer.CountFinishedMeans` | crates/poche-check/src/lib.rs:352-363 | the count is the number of recorded states that are finished |
| `Liveness.Analyze` | crates/poche-check/src/liveness.rs:160-246 | for every graph, injection and removal: the reported deadlocks, bad terminals, component counts, rank violations, greatest rank and lasso are exactly those of the modified graph, and no error arises when the endpoints exist |
| `Liveness.BuildLasso` | crates/poche-check/src/liveness.rs:248-290 | never fails on a cyclic unfinished component; its prefix is a shortest run to the entry and its cycle a closed walk of adjacency edges |
| `Liveness.PathWithinComponent` | crates/poche-check/src/liveness.rs:292-324 | the search inside a component returns a path from start to target along its edges |
| `Liveness.ReturnExists` | crates/poche-check/src/liveness.rs:321-323 | the search cannot run dry: a strong component contains a return path |
| `Liveness.FollowBack` | crates/poche-check/src/liveness.rs:303-312 | the predecessor walk yields that path in order |
| `Liveness.InsideComponent` | crates/poche-check/src/liveness.rs:314-319 | paths between members of one component never leave it |
| `Liveness.CycleIffCyclic` | crates/poche-check/src/liveness.rs:196-206 | a state lies on a cycle iff its component has two members or a self-loop |
| `Liveness.CycleThrough` | crates/poche-check/src/liveness.rs:258-276 | a closed walk through the entry, by self-loop or by an internal successor and a path back |
| `Liveness.InternalSuccessor` | crates/poche-check/src/liveness.rs:262-270 | an entry without self-loop has a successor in its cyclic component |
| `Liveness.FindAction` | crates/poche-check/src/liveness.rs:326-332 | the action of the first recorded edge between two states, nothing iff there is none |
| `Liveness.Survey` | crates/poche-check/src/liveness.rs:166-195 | deadlocks, bad terminals and the edges that break the progress rank are listed exactly and in order, with the greatest rank |
| `Liveness.ListingsMean` | crates/poche-check/src/liveness.rs:166-185 | a state is reported as a deadlock iff it is unfinished without successor, and as a bad terminal iff it is finished and its row is not itself alone or no absorbing edge keeps it in place |
| `Liveness.FaultsListed` | crates/poche-check/src/liveness.rs:186-200 | the rank violations listed are exactly the edges that do not fit, each with the action of its first recorded edge |
| `Liveness.RankIsStepsLeft` | crates/poche-check/src/liveness.rs:118-200 | with no deadlock and absorbing finished states, no edge breaks the rank iff the rank is the number of steps left before finishing, on every path from every state |
| `Liveness.RankRulesOutCycles` | crates/poche-check/src/liveness.rs:186-204 | a rank that counts down along every edge excludes unfinished cycles by itself |
| `Liveness.RankEvidence` | crates/poche-check/src/liveness.rs:160-246 | a report without rank violations has no unfinished cyclic component and no lasso; with a clean survey it certifies the rank as steps left |
| `Liveness.Classify` | crates/poche-check/src/liveness.rs:196-218 | which components are cyclic and which contain an unfinished state |
| `Liveness.CyclicComponentsMean` | crates/poche-check/src/liveness.rs:205-224 | the components counted as cyclic are those with a state on a cycle, the unfinished ones among them those with an unfinished member |
| `Liveness.CleanIsInevitable` | crates/poche-check/src/liveness.rs:236-244 | without unfinished deadlocks and cycles every maximal path finishes |
| `Liveness.InevitableIsClean` | crates/poche-check/src/liveness.rs:236-244 | if finished states absorb and all is reachable, inevitability rules both out |
| `Liveness.VerdictIsExact` | crates/poche-check/src/liveness.rs:236-244 | with no bad terminal and everything reached, the verdict is true iff every maximal path reaches a finished state |
| `Liveness.UnmodifiedVerdict` | crates/poche-check/src/liveness.rs:72-74 | the same for the graph as explored, where reachability holds by construction |
| `Liveness.SystemVerdict` | crates/poche-check/src/liveness.rs:72-74 | explore then analyze: the verdict speaks about all maximal runs of the system itself |
| `Liveness.InevitableIffFinishes` | crates/poche-check/src/liveness.rs:72-74 | runs of the system and paths of its exact graph finish together |
| `Liveness.AnalyzeWithNonterminalStutter` | crates/poche-check/src/liveness.rs:82-97 | an injected unfinished self-loop always refutes termination with a lasso |
| `Liveness.AnalyzeWithNonterminalDeadlock` | crates/poche-check/src/liveness.rs:103-116 | removing a state's successors reports exactly that extra deadlock |
| `Building.GraphBuilder.AddConstant` | crates/poche-formal/src/lib.rs:598-616 | accepted iff the type accepts the value; the graph stays well typed, and like every refusal of the builder this one leaves it alone and names its reason |
| `Building.GraphBuilder.AddInput` | crates/poche-formal/src/lib.rs:621-644 | accepted iff the name is nonempty and not declared with another type; the reason says which |
| `Building.GraphBuilder.AddEnumeration` | crates/poche-formal/src/lib.rs:649-665 | accepted iff the variant belongs to the schema |
| `Building.GraphBuilder.AddEnumerationOrdinal` | crates/poche-formal/src/lib.rs:670-694 | typed by the schema's ordinal range, refused when it does not fit 32 bits |
| `Building.GraphBuilder.AddRecord` | crates/poche-formal/src/lib.rs:699-728 | field count and field types must match the schema exactly; the reason is a wrong count or the first field at fault |
| `Building.GraphBuilder.AddField` | crates/poche-formal/src/lib.rs:733-755 | projects a declared field of a record |
| `Building.GraphBuilder.AddArray` | crates/poche-formal/src/lib.rs:760-786 | all elements have the element type; the reason is that of the first that is absent or has another |
| `Building.GraphBuilder.AddIndex` | crates/poche-formal/src/lib.rs:791-824 | accepted only when the index type lies wholly inside the array; the reason is the first check to fail, array before index |
| `Building.GraphBuilder.AddEqual` | crates/poche-formal/src/lib.rs:829-839 | both sides have one type |
| `Building.GraphBuilder.AddLess` | crates/poche-formal/src/lib.rs:844-854 | both sides have one ordered type |
| `Building.GraphBuilder.AddLessEqual` | crates/poche-formal/src/lib.rs:859-869 | both sides have one ordered type |
| `Building.GraphBuilder.AddNot` | crates/poche-formal/src/lib.rs:874-881 | the operand is boolean |
| `Building.GraphBuilder.AddAll` | crates/poche-formal/src/lib.rs:886-893 | all operands are boolean |
| `Building.GraphBuilder.AddAny` | crates/poche-formal/src/lib.rs:898-903 | all operands are boolean |
| `Building.GraphBuilder.AddSelect` | crates/poche-formal/src/lib.rs:908-933 | boolean condition, branches of one type |
| `Building.GraphBuilder.AddSum` | crates/poche-formal/src/lib.rs:938-961 | the result range is the sum of the ranges, refused at the first operand that is absent, no integer, or takes the lower or the upper bound out of 32 bits |
| `Building.SumOrder` | crates/poche-formal/src/lib.rs:938-961 | summed lower bounds never exceed summed upper bounds, so the range is a range |
| `DialectTypes.AcceptsExactly` | crates/poche-formal/src/lib.rs:226-246 | every type is finite: it accepts exactly the values a separate enumeration of the type lists |
| `DialectTypes.BlankIsAllSpace` | crates/poche-formal/src/lib.rs:1515-1521 | names are refused exactly when they are white space alone |
| `DialectTypes.TotalLaws` | crates/poche-formal/src/lib.rs:1480-1495 | totals are sums: zero for none, an integer for itself, added up over joined lists |
| `Lowering.Lower` | crates/poche-formal/src/lib.rs:991-1045 | the worklist terminates and returns the recursive postorder code of the root, its type, and exactly the inputs it reads with the origin of their first use; only an absent root fails |
| `Lowering.OneOpPerTreeNode` | crates/poche-formal/src/lib.rs:995-1026 | one operation per node of the unfolded tree |
| `Lowering.OpsComeFromNodes` | crates/poche-formal/src/lib.rs:1004-1026 | every operation is the one selected for some node it was compiled for and carries that node's origin |
| `Lowering.LoadsIffReads` | crates/poche-formal/src/lib.rs:1004-1009 | an input is loaded iff the root leads to a node that reads it |
| `Lowering.FirstOriginsMeaning` | crates/poche-formal/src/lib.rs:1004-1009 | the recorded origin of an input is that of its first load |
| `Lowering.LoweredShape` | crates/poche-formal/src/lib.rs:1028-1044 | collected inputs are exactly those read, at their declared types |
| `Evaluation.Evaluator.Interpret` | crates/poche-formal/src/lib.rs:1365-1502 | one operation changes the stack by its meaning, or fails at its origin and instruction for the first of its checks that is violated |
| `Evaluation.Evaluator.CheckedSum` | crates/poche-formal/src/lib.rs:1480-1495 | fails iff a partial sum leaves 32 bits, an operand is no integer, or the total leaves its range; the reason is the first of these met, in operand order |
| `Evaluation.Evaluator.Booleans` | crates/poche-formal/src/lib.rs:1344-1350 | the boolean operands in order, failing iff one is not boolean |
| `Evaluation.Evaluator.PopN` | crates/poche-formal/src/lib.rs:1331-1342 | takes the topmost values in push order, failing iff too few |
| `Evaluation.ExecutedWithin` | crates/poche-formal/src/lib.rs:1365-1498 | on any program and stack, what the interpreter lets through keeps the bounds written in the operation, for sums, ordinals, arrays, projections and inputs |
| `Evaluation.Run` | crates/poche-formal/src/lib.rs:1281-1290 | runs the list in order; the outcome is the final stack, or reason, origin and position of the first refused operation |
| `Evaluation.CheckInputs` | crates/poche-formal/src/lib.rs:1249-1274 | no fault iff the inputs are exactly the declared names with accepted values; otherwise the fault of the first faulty name in order, where it is first read, or an undeclared input when the declared ones are in order |
| `Evaluation.PrecedesMeans` | crates/poche-formal/src/lib.rs:1255-1266 | names are taken in lexicographic order |
| `Evaluation.Evaluate` | crates/poche-formal/src/lib.rs:1249-1311 | succeeds iff inputs are exact, the code runs through, and one value of the output type is left; otherwise the diagnostic is that of the first of these to be violated |
| `DialectSoundness.SumWithin` | crates/poche-formal/src/lib.rs:945-957 | every partial sum of accepted operands stays inside the running interval bounds |
| `DialectSoundness.SumRangeTight` | crates/poche-formal/src/lib.rs:945-957 | the inferred range is attained at both ends |
| `DialectSoundness.AdmissibleFine` | crates/poche-formal/src/lib.rs:598-961 | an admissible node's operator is defined on accepted operands and its result is of the node's type |
| `DialectSoundness.OperatorDenotes` | crates/poche-formal/src/lib.rs:1175-1213 | for each of the sixteen node kinds, the operation the lowering selects, applied to the operands in the order it lists them, gives what the node means |
| `DialectSoundness.ComputedIsDenoted` | crates/poche-formal/src/lib.rs:550-573 | so the values the lowered operators compute are the values of the graph |
| `DialectSoundness.RanksOkIffFit` | crates/poche-formal/src/lib.rs:1352-1363 | the ordinals the interpreter requires to fit are those of the comparisons the node leads to |
| `DialectSoundness.CompileMeans` | crates/poche-formal/src/lib.rs:991-1045 | from any stack, the code of a node pushes exactly the value the graph has there, read off its nodes and named operands without reference to the operations, and is refused iff some comparison it leads to does not fit 32 bits |
| `DialectSoundness.LoweringPreservesMeaning` | crates/poche-formal/src/lib.rs:991-1311 | for every builder graph, root and exact inputs, lowered code from the empty stack leaves exactly the value `Denotation.Denote` reads off the graph at the root, which its type accepts |
| `DialectSoundness.ComparisonMeans` | crates/poche-formal/src/lib.rs:1352-1363 | the sides of a typed comparison are always two integers or two variant numbers, and the graph answers as they compare |
| `DialectSoundness.LoweredComparison` | crates/poche-formal/src/lib.rs:1446-1458 | so does the lowered code: it leaves true exactly when the two numbers compare that way |
| `DialectSoundness.OnlyOrdinalsCanFail` | crates/poche-formal/src/lib.rs:1275-1310 | the evaluator's success test is met iff every compared ordinal fits, and a failure is reported as an ordinal too wide at a comparison of the program; with narrow comparisons there is none |
| `DialectSoundness.NarrowNeverFails` | crates/poche-formal/src/lib.rs:1352-1363 | comparing integers and enumerations of at most 2^31 variants never fails |
| `DialectSoundness.WideComparisonFails` | crates/poche-formal/src/lib.rs:1116-1132 | for every enumeration of more than 2^31 variants the builder accepts a comparison that the interpreter refuses on the last variant |
| `DialectSoundness.WideInputFails` | crates/poche-formal/src/lib.rs:1352-1363 | a program that anywhere compares an input of such an enumeration fails on some exact inputs |
| `Transfer.ChunkArithmetic` | crates/poche-protocol/src/device_cooperation.rs:418-434 | the ceiling-division count is exact: chunks below it are nonempty, cuts end at the data's end, the count fits 32 bits |
| `Transfer.SlicesCover` | crates/poche-capture/src/transfer.rs:113-124 | the slices joined are the source |
| `Transfer.DescriptorFor` | crates/poche-capture/src/transfer.rs:677-704 | succeeds iff identifier, length and chunk size are in bounds; the descriptor is then valid for the bytes |
| `Transfer.HonestIsPossible` | crates/poche-capture/src/transfer.rs:544-603 | an ideal cipher exists for every described source |
| `Transfer.Sender.Open` | crates/poche-capture/src/transfer.rs:71-101 | opened iff descriptor, expiry, credit, length and hash are good |
| `Transfer.Sender.Next` | crates/poche-capture/src/transfer.rs:103-139 | one emission is the step of the sender machine; `EveryEmissionSealed` says how what it emits is sealed |
| `Transfer.Sender.AcknowledgeChunk` | crates/poche-capture/src/transfer.rs:141-151 | one acknowledgement is the step of the sender machine |
| `Transfer.Sender.Resume` | crates/poche-capture/src/transfer.rs:153-159 | repositions only with nothing outstanding and inside the count |
| `Transfer.Sender.CancelTransfer` | crates/poche-capture/src/transfer.rs:161-165 | erases bytes and outstanding hashes |
| `Transfer.NextExact` | crates/poche-capture/src/transfer.rs:103-139 | a live sender with credit emits exactly its next sealed slice, is done exactly at the count, and otherwise changes nothing |
| `Transfer.AcknowledgeExact` | crates/poche-capture/src/transfer.rs:141-151 | counts iff it names an outstanding chunk by the hash of what was sent, and returns one credit |
| `Transfer.SenderSafe` | crates/poche-capture/src/transfer.rs:103-165 | over every run unacknowledged chunks stay within credit and are remembered by the hash sent |
| `Transfer.EveryEmissionSealed` | crates/poche-capture/src/transfer.rs:544-580 | over every run each emitted chunk is the slice with its number, sealed under the nonce of transfer, request and number and bound to descriptor, request, number and length |
| `Transfer.NoncesNeverRepeat` | crates/poche-capture/src/transfer.rs:662-674 | for a derivation that tells its inputs apart, no nonce of a run seals two different chunks |
| `Transfer.NoncesApart` | crates/poche-capture/src/transfer.rs:662-674 | two sessions share a nonce iff they agree on transfer, request and chunk number |
| `Transfer.OpensOnlySealed` | crates/poche-capture/src/transfer.rs:582-605 | opening uses the nonce and binding of the chunk's own number, so that only what was sealed there opens |
| `Transfer.Receiver.AcceptChunk` | crates/poche-capture/src/transfer.rs:412-442 | one delivery is the step of the receiver machine |
| `Transfer.Receiver.FinishTransfer` | crates/poche-capture/src/transfer.rs:444-459 | one finish is the step of the receiver machine |
| `Transfer.Receiver.CancelTransfer` | crates/poche-capture/src/transfer.rs:461-465 | erases bytes and hashes |
| `Transfer.AcceptExact` | crates/poche-capture/src/transfer.rs:412-442 | whatever is offered, exactly the next sealed slice is taken, and anything else changes nothing |
| `Transfer.DuplicateExact` | crates/poche-capture/src/transfer.rs:421-427 | a redelivery is recognised by its hash and changes nothing; another ciphertext under its number conflicts |
| `Transfer.RefusalMeans` | crates/poche-capture/src/transfer.rs:412-427 | why a chunk as sent is refused: cancelled, complete, expired, or too early, in that order |
| `Transfer.FinishExact` | crates/poche-capture/src/transfer.rs:444-459 | succeeds iff open with every chunk, returning exactly the source |
| `Transfer.FinishChecksContent` | crates/poche-capture/src/transfer.rs:444-459 | whatever the cipher is worth, what is handed over has the promised length and hash |
| `Transfer.ReceiveSafe` | crates/poche-capture/src/transfer.rs:412-465 | over every schedule of deliveries, forgeries, finishes and cancels, an open receiver holds exactly the source up to its next chunk |
| `Transfer.ReceiveProgress` | crates/poche-capture/src/transfer.rs:428-441 | among arbitrary other deliveries it advances exactly with the sealed slices in order |
| `Transfer.InOrderCompletes` | crates/poche-capture/src/transfer.rs:412-459 | if the sealed slices occur in order in a timely schedule, finishing returns the source |
| `Transfer.RoundsDeliver` | crates/poche-capture/src/transfer.rs:103-159 | from any position of a sender that is not ahead of its receiver, fresh, resumed or rewound, emit, accept and acknowledge rounds complete the transfer; chunks the receiver has are recognised |
| `TransferLink.LinkSafe` | crates/poche-capture/src/transfer.rs:103-442 | over every run of both ends and a network that delivers, repeats, reorders, loses and forges chunks and acknowledgements, with crashes, restarts and failing retention at the receiver, both ends stay safe and the network carries only what was sent |
| `TransferLink.StartIsSound` | crates/poche-capture/src/transfer.rs:71-101 | a fresh sender, an empty network and any receiver with its directory in place, up or down, meet the invariant and can complete without repositioning |
| `TransferLink.EventMoves` | crates/poche-capture/src/transfer.rs:103-442 | emitting, delivering, acknowledging, losing and repositioning do to the two positions and the outstanding chunks exactly what the abstract move does |
| `TransferLink.ForgeriesHarmless` | crates/poche-capture/src/transfer.rs:412-442 | forged chunks and acknowledgements keep both ends safe whatever they carry, and change nothing unless they carry the hash of what was sent under their number |
| `TransferLink.UpAndDownMoves` | crates/poche-capture/src/transfer.rs:268-330 | a crash moves nothing, and coming up again from the directory, in time, restores the receiver where it was |
| `TransferNetwork.BrokenStays` | crates/poche-capture/src/transfer.rs:103-151 | a missing chunk that is neither deliverable nor still to be sent stays missing under every event except repositioning |
| `TransferNetwork.StuckStays` | crates/poche-capture/src/transfer.rs:153-159 | an outstanding chunk that can no longer be acknowledged stays outstanding, so repositioning is refused from then on |
| `TransferNetwork.CanCompleteExact` | crates/poche-capture/src/transfer.rs:103-159 | from any position the receiver can still be completed iff the rest is on its way with enough credit, or everything outstanding can still be acknowledged; without repositioning iff the former |
| `TransferLink.CompletableExact` | crates/poche-capture/src/transfer.rs:103-459 | the same for the two ends themselves: some continuation hands over the source iff that condition holds of what is retained, outstanding and still carried, whether the receiver is up or down |
| `TransferLink.QuietLink` | crates/poche-capture/src/transfer.rs:153-159 | with nothing outstanding and an empty network, a sender completes as it stands iff it is not ahead of the receiver, and always after repositioning |
| `DurableTransfer.DurableReceiver.CreateIn` | crates/poche-capture/src/transfer.rs:222-263 | never overwrites a directory; a published one is empty with its checkpoint |
| `DurableTransfer.CreateExact` | crates/poche-capture/src/transfer.rs:222-263 | a directory is created exactly for a good session where none is, with its descriptor, request and expiry; the errors in order |
| `DurableTransfer.DurableReceiver.ResumeIn` | crates/poche-capture/src/transfer.rs:268-330 | the replay loop and the gap scan compute the specified result on every disk |
| `DurableTransfer.DurableReceiver.AcceptChunk` | crates/poche-capture/src/transfer.rs:338-359 | a chunk is retained after it is taken; if it cannot be, the receiver is cancelled |
| `DurableTransfer.DurableReceiver.FinishTransfer` | crates/poche-capture/src/transfer.rs:363-369 | bytes are returned only after the directory is gone |
| `DurableTransfer.DurableReceiver.CancelTransfer` | crates/poche-capture/src/transfer.rs:372-378 | memory is erased, then the directory |
| `DurableTransfer.ReplayExact` | crates/poche-capture/src/transfer.rs:296-325 | replay from any point succeeds iff the remaining files are the sent ciphertext without a gap, in time |
| `DurableTransfer.ResumeExact` | crates/poche-capture/src/transfer.rs:268-330 | for every disk, resume succeeds iff the checkpoint matches and the files are a contiguous prefix as sent; the result is the receiver that took those chunks uninterrupted |
| `DurableTransfer.OtherSessionRefused` | crates/poche-capture/src/transfer.rs:268-295 | a directory is refused as another session's exactly when its schema, descriptor, request or expiry differ |
| `DurableTransfer.GapRefused` | crates/poche-capture/src/transfer.rs:320-325 | a gap after good chunks is refused as out of order |
| `DurableTransfer.AdvanceKeeps` | crates/poche-capture/src/transfer.rs:222-378 | what every step keeps, crashes and interrupted removals included |
| `DurableTransfer.RunFaithful` | crates/poche-capture/src/transfer.rs:222-378 | over every run retained files are what was sent and an open receiver holds exactly the chunks on disk |
| `DurableTransfer.CrashThenRestart` | crates/poche-capture/src/transfer.rs:268-330 | a crash and a timely restart change nothing for an open receiver |
| `DurableTransfer.AlwaysResumable` | crates/poche-capture/src/transfer.rs:268-330 | while no removal is cut short, whatever is on disk can be resumed in time |
| `DurableTransfer.PublishesSource` | crates/poche-capture/src/transfer.rs:363-369 | whatever happened before, published bytes are the source |
| `Wire.BigEndianExact` | crates/poche-crypto-prototype/src/lib.rs:1260-1266 | big-endian digits and numbers in range correspond one to one |
| `Wire.FirstIsMostSignificant` | crates/poche-crypto-prototype/src/lib.rs:1260-1266 | the first byte of a length is the most significant |
| `Wire.BeforeMeans` | crates/poche-crypto-prototype/src/lib.rs:190-197 | players are ordered by their first differing byte, or by which identity ends first |
| `Wire.TextIsEncoded` | crates/poche-crypto-prototype/src/lib.rs:1326-1331 | accepted text is the encoding of some sequence of Unicode scalar values |
| `Wire.EncodedIsText` | crates/poche-crypto-prototype/src/lib.rs:1326-1331 | and every such encoding is accepted |
| `Wire.BoundedExact` | crates/poche-crypto-prototype/src/lib.rs:1298-1308 | a bounded read succeeds with a value and a rest iff the input is that frame followed by that rest |
| `Wire.ExactExact` | crates/poche-crypto-prototype/src/lib.rs:1310-1324 | the same for exact-length fields |
| `Wire.PlayerExact` | crates/poche-crypto-prototype/src/lib.rs:1326-1331 | the same for player identities |
| `Wire.LengthExact` | crates/poche-crypto-prototype/src/lib.rs:1290-1296 | the same for lengths |
| `Wire.FramesSplit` | crates/poche-crypto-prototype/src/lib.rs:1255-1258 | equally many frames determine their contents and what follows |
| `Wire.NewPlayerReads` | crates/poche-crypto-prototype/src/lib.rs:118-124 | an identity is accepted iff its printed frame reads back, and then as itself, whatever follows |
| `Wire.Cursor.TakeNext` | crates/poche-crypto-prototype/src/lib.rs:1277-1284 | returns the head and advances, or fails when too short |
| `Wire.Cursor.NextBounded` | crates/poche-crypto-prototype/src/lib.rs:1298-1308 | the cursor's bounded read |
| `Wire.Cursor.NextExact` | crates/poche-crypto-prototype/src/lib.rs:1310-1324 | the cursor's exact read, with the length error |
| `Wire.Cursor.NextPlayer` | crates/poche-crypto-prototype/src/lib.rs:1326-1331 | the cursor's identity read |
| `Records.KeyFromBytes` | crates/poche-crypto-prototype/src/lib.rs:329-340 | the key reader, with every error in order |
| `Records.ShuffleFromBytes` | crates/poche-crypto-prototype/src/lib.rs:510-526 | the shuffle reader, deriving the record's hash |
| `Records.ShareFromBytes` | crates/poche-crypto-prototype/src/lib.rs:770-783 | the reveal-share reader |
| `Records.RevealFromBytes` | crates/poche-crypto-prototype/src/lib.rs:983-1005 | the nested reveal reader and its loop over shares |
| `Records.PrintReveal` | crates/poche-crypto-prototype/src/lib.rs:965-975 | the printing loop computes the canonical bytes |
| `Records.Layouts` | crates/poche-crypto-prototype/src/lib.rs:316-322 | the printed form of every record, field by field |
| `Records.KeyExact` | crates/poche-crypto-prototype/src/lib.rs:316-340 | bytes read as a key record iff they are that well-shaped record printed; both round trips at once |
| `Records.ShuffleExact` | crates/poche-crypto-prototype/src/lib.rs:495-526 | the same, and the digest is the hash of the printed bytes |
| `Records.ShareExact` | crates/poche-crypto-prototype/src/lib.rs:755-783 | the same for reveal shares |
| `Records.SharesExact` | crates/poche-crypto-prototype/src/lib.rs:993-998 | the share loop inverts printing of any number of shares |
| `Records.RevealExact` | crates/poche-crypto-prototype/src/lib.rs:965-1005 | the same for public reveals of one to fifty-one shares |
| `Transcript.FreezeContext` | crates/poche-crypto-prototype/src/lib.rs:179-223 | bounds, roster order, and the canonical bytes built by the loop |
| `Transcript.ContextAccepted` | crates/poche-crypto-prototype/src/lib.rs:179-223 | frozen iff the room name has 1 to 128 bytes and 2 to 51 players are in strictly increasing order; every field and the canonical bytes spelled out |
| `Transcript.AscendingDistinct` | crates/poche-crypto-prototype/src/lib.rs:193-197 | strictly increasing neighbours make all players distinct |
| `Transcript.ContextCommits` | crates/poche-crypto-prototype/src/lib.rs:199-211 | the canonical bytes determine room, session, epoch, round and roster |
| `Transcript.VerifyRoster` | crates/poche-crypto-prototype/src/lib.rs:413-451 | the loop returns the first fault in order, or the roster with the digest of context and all keys |
| `Transcript.RosterAccepted` | crates/poche-crypto-prototype/src/lib.rs:413-451 | accepted iff every player contributed in order a key and a proof of their sizes that decode, and the library verifies ownership in this context |
| `Transcript.VerifyShuffleTranscript` | crates/poche-crypto-prototype/src/lib.rs:632-681 | the loop returns the first fault in order, or the last deck and digest |
| `Transcript.TranscriptAccepted` | crates/poche-crypto-prototype/src/lib.rs:632-681 | accepted iff the roster is not empty and every player contributed in order a record linked to the one before, hashed right, with artifacts that decode and a shuffle proof the library verifies against the deck before |
| `Transcript.ChainAgrees` | crates/poche-crypto-prototype/src/lib.rs:650-675 | equal digests at one position force equal records up to it and equal genesis digests |
| `Transcript.DigestCommits` | crates/poche-crypto-prototype/src/lib.rs:632-681 | under one roster, equal final digests mean equal transcripts |
| `Transcript.KeysCommit` | crates/poche-crypto-prototype/src/lib.rs:424-443 | equal roster inputs mean equal key records |
| `Transcript.RunCommits` | crates/poche-crypto-prototype/src/lib.rs:1170-1213 | equal final digests mean equal runs: context, roster, keys and shuffles, whatever the rosters and lengths |
| `Transcript.CreateShuffleTranscript` | crates/poche-crypto-prototype/src/lib.rs:562-624 | succeeds iff every deck and proof has its size and verifies; what it returns, the independent verifier accepts with the same deck |
| `Audit.ValidateAssignments` | crates/poche-crypto-prototype/src/lib.rs:697-714 | accepted iff holders are in the roster and positions distinct; over fifty-two is refused at once, rightly |
| `Audit.VerifyRevealSet` | crates/poche-crypto-prototype/src/lib.rs:825-863 | the first share fault in order, or all tokens with the digest of context, transcript, position and printed shares |
| `Audit.SharesAccepted` | crates/poche-crypto-prototype/src/lib.rs:825-863 | shares are accepted iff every player contributed one in order, for this position, with artifacts that decode and a proof the library verifies |
| `Audit.RevealSetCommits` | crates/poche-crypto-prototype/src/lib.rs:838-862 | equal digests of verified reveal sets mean the same context, transcript, position and shares, whatever the rosters |
| `Audit.VerifyPublicReveal` | crates/poche-crypto-prototype/src/lib.rs:1037-1053 | digest, shares and opened card must all agree |
| `Audit.RevealAccepted` | crates/poche-crypto-prototype/src/lib.rs:1037-1053 | a reveal shows its card iff its digest is that of position, card and shares, everyone contributed, and the tokens open the position to that card |
| `Audit.RevealCommits` | crates/poche-crypto-prototype/src/lib.rs:1154-1170 | two accepted reveals with one evidence digest are the same reveal, whatever the rosters and decks |
| `Audit.AuditCompleteRound` | crates/poche-crypto-prototype/src/lib.rs:1061-1092 | succeeds iff fifty-two genuine reveals have distinct positions and cards; the result is a permutation of the deck by position; failures name the first fault |
| `Audit.EverythingFilled` | crates/poche-crypto-prototype/src/lib.rs:1081-1091 | after fifty-two faultless entries the closing checks cannot fail |
| `FiniteDomains.Enumerate` | crates/poche-domain/src/lib.rs:33-37 | a lawful domain is listed completely, once, in code order |
| `FiniteDomains.BitWidthIsLeast` | crates/poche-domain/src/lib.rs:41-44 | the width is the least that holds every code |
| `FiniteDomains.BoundedLawful` | crates/poche-domain/src/lib.rs:125-141 | lawful for every pair of bounds, empty and full included |
| `FiniteDomains.BoundedOrder` | crates/poche-domain/src/lib.rs:125-141 | codes grow with the values, from zero |
| `FiniteDomains.OptionalLawful` | crates/poche-domain/src/lib.rs:458-474 | lawful if the element is |
| `FiniteDomains.OptionalOrder` | crates/poche-domain/src/lib.rs:458-474 | absence comes first, then the values in their order |
| `FiniteDomains.PairLawful` | crates/poche-domain/src/lib.rs:480-500 | lawful if the factors are, zero cardinalities included |
| `FiniteDomains.PairOrder` | crates/poche-domain/src/lib.rs:480-500 | pairs are ordered by their first component, then by their second |
| `FiniteDomains.ArrayLawful` | crates/poche-domain/src/lib.rs:506-533 | lawful for every length if the element is |
| `FiniteDomains.ArrayOrder` | crates/poche-domain/src/lib.rs:506-533 | arrays are ordered by their first difference |
| `FiniteDomains.FoldArray` | crates/poche-domain/src/lib.rs:513-517 | the fold computes the code without leaving 128 bits |
| `FiniteDomains.UnfoldArray` | crates/poche-domain/src/lib.rs:519-533 | the digit loop decodes exactly as specified |
| `FiniteDomains.ArrayStaysInRange` | crates/poche-domain/src/lib.rs:506-517 | every intermediate code fits when the cardinality does |
| `FiniteDomains.FromValues` | crates/poche-domain/src/lib.rs:557-570 | the loop computes the membership mask |
| `FiniteDomains.MaskExact` | crates/poche-domain/src/lib.rs:557-576 | a mask contains exactly the values it was made from |
| `FiniteDomains.HasBitMeans` | crates/poche-domain/src/lib.rs:557-576 | bit e of a mask is its binary digit of weight two to the e |
| `FiniteDomains.MembersDetermine` | crates/poche-domain/src/lib.rs:574-576 | sets with the same members have the same mask |
| `FiniteDomains.MaskRoundTrip` | crates/poche-domain/src/lib.rs:579-601 | every mask below the cardinality is the mask of a set of values |
| `FiniteDomains.SetLawful` | crates/poche-domain/src/lib.rs:579-601 | the mask codec is lawful and fits 128 bits below 128 values |
| `UniqueCards.NewUniqueCards` | crates/poche-domain/src/lib.rs:800-816 | accepted iff at most fifty-two and distinct |
| `UniqueCards.EncodeCards` | crates/poche-domain/src/lib.rs:831-843 | the loop over the shrinking deck computes the rank |
| `UniqueCards.DecodeCards` | crates/poche-domain/src/lib.rs:845-866 | the digit and removal loops compute the unranked cards, refusing larger codes |
| `UniqueCards.RankThenUnrank` | crates/poche-domain/src/lib.rs:825-866 | ranks are below 52 * 51 * ... and unrank to their cards |
| `UniqueCards.UnrankThenRank` | crates/poche-domain/src/lib.rs:825-866 | every smaller code unranks to distinct cards of that rank |
| `UniqueCards.RankIsLexicographic` | crates/poche-domain/src/lib.rs:831-843 | the code is the lexicographic rank: the smaller card at the first difference has the smaller code, which with the bijection fixes every code |
| `UniqueCards.CardsLawful` | crates/poche-domain/src/lib.rs:825-866 | the codec is lawful for every length up to the deck |
| `UniqueCards.Cardinality` | crates/poche-domain/src/lib.rs:826-829 | the product loop computes 52 * 51 * ..., which `RankThenUnrank` and `UnrankThenRank` show to be the exact number of codes |
| `UniqueCards.FitsExactly` | crates/poche-domain/src/lib.rs:826-829 | the cardinality is below 2^128 iff there are at most twenty-four cards |
| `UniqueCards.CodesStayInRange` | crates/poche-domain/src/lib.rs:831-843 | then every intermediate code fits too |
| `Returns.GeneralizedAdvantageEstimate` | crates/poche-burn/src/math.rs:58-78 | the reverse loop computes the recurrence at every row |
| `Returns.AdvantageIsSum` | crates/poche-burn/src/math.rs:61-69 | the recurrence equals the forward sum of weighted temporal differences |
| `Returns.WeightMeans` | crates/poche-burn/src/math.rs:61-69 | where nothing in between is terminal a later row counts with one discount per unit of clamped decision time and one trace factor per row |
| `Returns.TerminalCuts` | crates/poche-burn/src/math.rs:62-66 | nothing after a terminal row counts |
| `Returns.ReturnIsDiscounted` | crates/poche-burn/src/math.rs:58-78 | with full traces each return is the sum of rewards from its row on, each discounted by the clamped distances before it |
| `Episode.CollectRows` | crates/poche-burn/src/training.rs:228-298 | the pending loop yields, per learning seat, exactly the transitions the turns determine; it fails iff the turns end before a terminal step |
| `Episode.Decide` | crates/poche-burn/src/training.rs:236-273 | a decision completes the seat's pending transition and opens the next |
| `Episode.PayOut` | crates/poche-burn/src/training.rs:277-282 | every open transition is paid and aged by one, saturating |
| `Episode.Flush` | crates/poche-burn/src/training.rs:283-297 | at the end each open transition becomes a terminal row |
| `Episode.EpisodePartition` | crates/poche-burn/src/training.rs:228-298 | a row for exactly each decision, joined end to end, only the last terminal, each valuing the next |
| `Episode.RewardsConserved` | crates/poche-burn/src/training.rs:277-282 | row rewards sum to all the seat was paid from its first decision on |
| `Episode.DistancesAddUp` | crates/poche-burn/src/training.rs:277-282 | the recorded distances of a seat's transitions sum to the turns between its decisions, as long as no single gap exceeds 32 bits |
| `Episode.EpisodeReturn` | crates/poche-burn/src/training.rs:228-336 | for every episode, with full traces each return is the discounted sum of everything the seat is paid from that decision on; the discount counts the turns between as long as no gap exceeds 2^31 - 1 |
| `Batches.CollectEpisode` | crates/poche-burn/src/training.rs:219-338 | the columns are those of both seats' decisions in turn, each with what was seen and chosen there and with its advantage and return; it fails iff the turns do not end, no learning seat decided, or a recorded choice was masked |
| `Batches.FlatReadsBack` | crates/poche-burn/src/training.rs:300-337 | rows written to flat columns are read back, row by row |
| `Batches.ShapedIsFlat` | crates/poche-burn/src/learner.rs:38-48 | columns that pass the shape check are exactly those of the rows read from them |
| `Batches.Validate` | crates/poche-burn/src/learner.rs:38-65 | accepted iff there is a row, the columns fit and every chosen action is allowed; the error says which failed |
| `Batches.SelectRows` | crates/poche-burn/src/learner.rs:71-99 | copies exactly the rows numbered, in order and with repetitions; refuses an invalid batch and empty or out-of-range selections |
| `Batches.SelectionIsValid` | crates/poche-burn/src/learner.rs:71-99 | a minibatch of a valid batch is valid and its rows are the chosen ones |
| `BackwardReach.EveryStateReachesTerminal` | crates/poche-check/src/session.rs:835-861 | for every edge list, true iff every state has a path of accepted state-changing edges to a terminal state |
| `BackwardReach.Invert` | crates/poche-check/src/session.rs:846-851 | incoming lists are exactly the reversed moves |
| `BackwardReach.TargetsExact` | crates/poche-check/src/session.rs:846-851 | the moves of a state are its accepted edges that lead elsewhere |
| `BackwardReach.UnmarkedStay` | crates/poche-check/src/session.rs:852-860 | at the fixpoint marked states are exactly those that can finish |
| `Session.StepInductive` | crates/poche-check/src/session.rs:306-488 | every attempt keeps the safety invariant and its strengthening; `TransitionMeans` says what each does |
| `Session.ReachableIsSafe` | crates/poche-check/src/session.rs:764-785 | every reachable state satisfies every state demand of the checker |
| `Session.EdgeChecked` | crates/poche-check/src/session.rs:786-806 | every attempt satisfies every edge demand: outsiders denied, paused games still, denials no-ops, closure absorbing |
| `Session.EdgesChecked` | crates/poche-check/src/session.rs:786-806 | so does every edge of the explored graph |
| `Session.TransitionMeans` | crates/poche-check/src/session.rs:306-488 | an attempt is accepted iff it is authorised, and then each part of the room becomes what the attempts that touch it say; read by field, where the source is written by attempt |
| `Session.EdgesMean` | crates/poche-check/src/session.rs:594-631 | so does every edge of the explored graph |
| `Session.VisibleWasGranted` | crates/poche-check/src/session.rs:426-465 | over every run a hand is visible only if the spectator asked for it, its owner granted it after, and nobody took it back or closed the room since |
| `Session.ReadyWasDeclared` | crates/poche-check/src/session.rs:318-332 | over every run a seat is ready only if it declared so and nothing since undid that |
| `Session.StartedWhenReady` | crates/poche-check/src/session.rs:357-373 | over every run the game has started only if the countdown ran out with both seats ready and connected |
| `Session.EverythingIsAttempted` | crates/poche-check/src/session.rs:257-288 | every attempt by everybody but the clock is tried, and the countdown's end |
| `Session.FewStates` | crates/poche-check/src/session.rs:608-614 | safe states are too few to exhaust the identifiers |
| `Session.ExploreSession` | crates/poche-check/src/session.rs:594-653 | exploration never fails, is exact, and tries every attempt from every state; every state it finds is safe; the counts and the hash are those of this graph |
| `Session.Measure` | crates/poche-check/src/session.rs:632-644 | the counts are those of accepted and denied attempts and terminal states; accepted and denied together are every attempt of every state |
| `Session.HashGraph` | crates/poche-check/src/session.rs:655-674 | the hash is taken of the scope and one line a state and an edge, in order |
| `Session.HashCommits` | crates/poche-check/src/session.rs:655-674 | graphs with one hash have the same states and edges, when lines hold no newline and tell their contents apart |
| `Session.CheckSessionSafety` | crates/poche-check/src/session.rs:764-809 | on any graph: nothing is returned exactly when some state or edge fails its demand, the number of demands otherwise |
| `Session.DemandsMet` | crates/poche-check/src/session.rs:764-809 | on the explored graph no state demand and no edge demand fails |
| `Session.MayIdleForever` | crates/poche-check/src/session.rs:696-697 | termination is not unconditional: idling forever is a run that never ends |
| `Session.OnwardExact` | crates/poche-check/src/session.rs:403-482 | an open room can always reconnect its host, who can always close it |
| `Session.EveryStateFinishes` | crates/poche-check/src/session.rs:835-861 | every state of the explored graph has a terminal path |
| `Session.FirstWitness` | crates/poche-check/src/session.rs:733-752 | the first match in discovery order comes with a shortest run to it; there is none iff no reachable state matches |
| `Session.PauseReachable` | crates/poche-check/src/session.rs:720-730 | a paused state is reachable, so that witness exists |
| `Session.GrantReachable` | crates/poche-check/src/session.rs:720-730 | a state with a granted hand is reachable |
| `Session.CheckSession` | crates/poche-check/src/session.rs:714-762 | the report: exact measurements and hash, every state and edge demand met, the termination flag true to all runs, a terminal path from every state, and for each of the three claims known to be false a witness exists and the one reported is shortest |

## Left out

- Explorer.ExploreWithConfig: asks that the initial states be distinct, as the two prepared games are; the source would record a repeated one twice.
- Explorer.ExploreWithConfig: the checked increment of the 32-bit depth is not modelled, since depths stay below the number of 32-bit identifiers.
- Liveness.Analyze: the rank, a number computed from one game's phases, is a parameter without an upper bound.
- Liveness.BuildLasso: the source's error exits for missing predecessors, successors or return paths are shown unreachable and the values are indexed directly.
- Lowering.Lower: the error exits for absent children and undeclared inputs cannot occur for a graph made by the builder and are not written out.
- Batches.CollectEpisode: how a policy infers values and samples an action is not modelled; what it saw and chose is given per turn.
- Batches.Validate: the check for finite floating-point numbers has no counterpart over reals.
- Returns.GeneralizedAdvantageEstimate: arithmetic is over reals, so floating-point rounding is not modelled.
- Session.ExploreSession: the breadth-first loop is the explorer's, run on the room as a transition system; how a state or an edge is printed is a parameter.
- Session.CheckSession: the scope name and the listed fairness assumptions, constant texts of the report, are left out.
- TransferLink.CompletableExact: cancelling the sender, cancelling or finishing the receiver early, and forgeries that carry the hash of something sent are not among the continuations; `LinkSafe` covers the last.
- Game rules behind the explored system: states, legal actions and steps are parameters.
- The names, variants and fields of dialect schemas: their constructors only check nonempty distinct names.
- Diagnostic message text: the reason and the origin are kept, the wording is not.
- Cryptographic internals, randomness, key zeroization and key wrapping: hashes, ciphers and proof checks are parameters.
- Key generation, share creation, private deals and the public round projection: thin calls into the proof library.
- Files, JSON checkpoints, temporary directories and read failures: the checkpoint directory is a map with atomic publication of one chunk, a failing publication, removals cut short, and crashes.
- The checkpoint directory's name, a truncated hash of transfer and request: each pair has its own slot.
- MicroPartition and the other fixed micro-scope enumerations: tiny finite tables.
- Native model-checker runners, conformance comparisons, coverage ledgers, user interface and command line.
