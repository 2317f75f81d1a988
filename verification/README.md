# Taskit in Dafny

A model of the parts of taskit that decide something hard: the crate-graph algorithms, the resumable
`flow auto` run, the scanners that read Rust source and test output, the day arithmetic and the cache hash,
and the pipeline runner. Each module follows one part of the code and proves what that part is for, for
all inputs and all histories. `dafny verify dfyconfig.toml` checks the project.

## What is modelled

**Crate graphs.** `Graphs` defines paths, reachability and cycles over finite edge sets.
`DepGraphReport` and `Rings` are the dependency report: adjacency, the breadth-first walk that leaves out
one neighbour, the edge filter, the layer peeling, the rings and the verdicts. `TransitiveReduction` and
`Layering` say what they compute. `TopoSort` is Kahn's algorithm over hash maps and a queue, tied to
`KahnOrder`, a function of the names and the dependency edges alone. `Propagation` and `Discovery` build
and apply the affected-crate rules; `AffectedCrates` goes from changed files to affected crates.

**`flow auto`.** `FlowModel` states one run as a fixed program of sixteen effects over the branch contents,
the checked-out branch, a half-done merge, whether the working tree is dirty, the saved state and a log of
events. Any effect may stop the run, which covers errors and a process that dies between two effects; people
may commit, edit, switch branches and abort or conclude merges between runs. CI reads the working tree, so
its pass counts for a commit only if the tree was clean and CI did not rewrite it. `FlowAuto` is the run as
an object that changes in place and returns early. `FlowSafety` holds what every history keeps, `FlowContents` what a successful run leaves
behind and when a run completes, `FlowLimits` where the promises end and exactly when the next run is safe.
`FlowAnswers` says by the outcomes alone when a run returns without error, when it pushes and what it counts;
`FlowSpelled` writes out the world it leaves for every place it may stop at.

**Scanners.** `CommentScanner` is the byte scanner for the first comment marker against a reader that takes
one byte at a time; `LineScanner` the two line scanners against the same reader extended by block comments;
`TodoMarkers` is the marker test on a comment body; `MaskLiterals` and `Utf8` are the masking of string
literals, which `MaskedStrings` compares with the reader. `SpelledCode`, `SpelledLines` and `MaskedPieces`
spell Rust tokens, lines and literals without regard to how they are read, and say what the scanners make of
them. `Ansi`, `Nextest`, `NextestRoundTrip` and `MarkCounts` are the reading of test counts. A byte is written
as the character with its code.

**Days and hashes.** `Calendar` is the day number of a date with division that truncates; `CacheHash` the
master hash over the cache directory, with the hash function as a parameter.

**Pipelines and text.** `PipelineModel` and `Pipeline` are the step runner, the command log and the sinks;
`XmlEscape` the four replacements. `Names` is dictionary order and sorting, `Bytes` substring search.

## What came out false, and when it holds

- The edge filter keeps reachability on every acyclic graph, on some graphs with cycles, and not on others,
  where it can drop every edge (`TransitiveReduction.CyclicGraphLosesEverything`). It does if and only if no
  cycle branches and a vertex that points at two vertices of one cycle also points at one strictly above them
  (`TransitiveReduction.KeepsReachabilityExactly`). Minimality holds on every graph.
- The verdict "critical" is never given on an acyclic graph (`Rings.AcyclicHasNoCritical`), and otherwise
  exactly on the edges `Rings.CriticalExactly` names. A score of 100 does not mean no bad edge, and a graph
  without edges scores 0 (`Rings.PerfectScoreExactly`).
- Rules derived from dependencies hold package names while changes are told by directory, so commands run on
  the right packages, for all changes and dependencies, if and only if every crate of which a file can change
  without touching all crates is named like its directory (`AffectedCrates.NamesDecide`).
- Single-pass propagation is exact from every starting set if and only if chained rules are matched by a
  single rule (`Propagation.OnePassExactly`); the condition in the code's comment is sufficient.
- A successful `flow auto` run does not always promote what is on develop. Removing the state file may fail
  silently; the next run then resumes at the finish and succeeds without promoting new commits
  (`FlowLimits.QuietRemovalFailureSkipsPromotion`, exact condition in `FlowContents.OkRunPromotesExactly`).
- Interrupted `flow auto` runs do not always end like one uninterrupted run: a run that dies after the state
  file is removed, and before it returns, is followed by a whole second round. `FlowContents` says for every
  history what the branches hold and exactly when that differs (`InterruptedRunsGoRound`,
  `InterruptedEqualsUninterruptedExactly`, and the input in `DyingAfterRemovalShows`).
- "Main only receives what CI passed" is false in general and needs three things of people and one of CI:
  nobody leaves release while the saved phase is `CiGate`, nobody changes it at `Finishing`, nobody resumes
  before CI has passed with uncommitted edits, and CI does not pass on files it rewrote itself.
  `FlowSafety.EveryHistoryIsSafe` assumes them, `FlowLimits.RunIsSafeExactly` says for every world and every
  outcome exactly which run is safe, and `FlowLimits.EditedFixIsNotMerged` is an input: CI fails, somebody edits
  a file and resumes, CI passes on the edit, and main receives the commits without it.
- A run cannot get past a merge that was left with conflicts; `FlowContents.CalmRunCompletesExactly` says
  exactly which states complete.
- `extract_todo_fixme_comment` stops at a marker in a comment that closes on its line, so its flag can differ
  from the reader's; `LineScanner.ExtractTodoFixmeComment` says exactly when. `LineScanner.FlagIsLost` gives a
  family of such lines and `LineScanner.EarlyReturnLosesFlag` one of them.
- The masker of string literals knows neither raw strings nor character literals. It blanks exactly the
  reader's string bytes if and only if every double quote belongs to a plain string
  (`MaskedStrings.MasksStringsExactly`).
- The cache check fails open twice: an update of a directory that cannot be listed records the empty hash, and
  everything verifies from then on; and where the master file lies in the directory, deleting the directory
  deletes it too, and a missing master file verifies (`CacheHash.VerifyAfterUpdate`,
  `CacheHash.DeletedDirectoryVerifies`).
- Decoration before the total of a test summary may change it: the counts come back if and only if directly
  before the total there is nothing but zeros, perhaps behind a plus sign (`NextestRoundTrip.LineRoundTrips`).

Where the code and its comments differ the model follows the code: the master hash file is said to lie
outside the directory it covers but lies inside it, and stays out of the hash only because its name is no
json name; the flow state is said to be in `.taskit-state.json` but is in `target/taskit/state.json`.

## Model

| member | source | states |
|---|---|---|
| DepGraphReport.BuildAdjacency | xtask/scripts/depgraph-report.py:246-248 | the adjacency map holds exactly the listed edges; a key error exactly on an undeclared tail |
| DepGraphReport.ReachableWithout | xtask/scripts/depgraph-report.py:251-260 | the walk ends and visits exactly the vertices met by walks that set out through a neighbour other than the one left out, whatever order sets are iterated in |
| DepGraphReport.Reduce | xtask/scripts/depgraph-report.py:263 | the kept edges, in listed order, are those whose head has no such detour |
| TransitiveReduction.KeepsReachabilityExactly | xtask/scripts/depgraph-report.py:246-263 | on any graph the kept edges reach exactly what all edges reach if and only if no vertex on a cycle has two successors, and a vertex pointing at two vertices that reach each other also points at one that reaches them and is not reached back |
| TransitiveReduction.ReductionKeepsReachability | xtask/scripts/depgraph-report.py:246-263 | on an acyclic graph the kept edges reach exactly what all edges reach |
| TransitiveReduction.ReductionIsMinimal | xtask/scripts/depgraph-report.py:251-263 | on every graph, dropping a kept edge loses the pair it joins |
| TransitiveReduction.ReductionIsLeast | xtask/scripts/depgraph-report.py:246-263 | every graph with the reachability of an acyclic graph contains its kept edges, so they are the unique transitive reduction |
| TransitiveReduction.CyclicGraphLosesEverything | xtask/scripts/depgraph-report.py:251-263 | a concrete cyclic graph keeps no edge |
| DepGraphReport.PeelLayers | xtask/scripts/depgraph-report.py:266-282 | peeling ends in a layering: edges fall, each layered non-leaf points one layer down, each unlayered vertex points at an unlayered one; a key error exactly on an undeclared end of a kept edge |
| Layering.UnlayeredReachCycle | xtask/scripts/depgraph-report.py:275-282 | on any graph the vertices left without a layer are exactly those that reach a cycle of the kept edges |
| Layering.LayerIsLongestPath | xtask/scripts/depgraph-report.py:275-282 | a layer is the length of the longest path of kept edges from the vertex |
| Layering.LayerSurvivesReduction | xtask/scripts/depgraph-report.py:263-282 | on an acyclic graph every vertex gets a layer, and it is the longest-path length in the unreduced graph |
| Rings.RingsFollowLayers | xtask/scripts/depgraph-report.py:291-297 | rings never fall as layers rise, leaves are in ring 0 and the top layer in ring 3 |
| Rings.RingIsNearest | xtask/scripts/depgraph-report.py:296 | the ring is the nearest one to the layer's proportional place among four, the even one on a tie |
| Rings.MaxLayer | xtask/scripts/depgraph-report.py:284 | the largest layer, 0 when there is none |
| Rings.VerdictsByRing | xtask/scripts/depgraph-report.py:401-421 | the five verdicts by the difference of the rings of both ends |
| Rings.CriticalExactly | xtask/scripts/depgraph-report.py:401-429 | an edge is critical exactly when its tail reaches a cycle of kept edges, its head does not, and its head is not innermost |
| Rings.AcyclicHasNoCritical | xtask/scripts/depgraph-report.py:401-429 | no kept edge of an acyclic graph is critical |
| Rings.MakeReport | xtask/scripts/depgraph-report.py:246-447 | the report end to end: kept edges, layering, the verdict of each edge by the rings of its ends, no critical verdict on an acyclic graph, and the score: a hundred times the share of edges into the next ring inwards, to the nearest whole number, the even one on a tie; a key error exactly when the tail of an edge or the head of a kept edge is undeclared |
| Rings.PerfectScoreExactly | xtask/scripts/depgraph-report.py:447 | the score is 100 exactly when there is a good edge and at most one edge in 200 is bad |
| TopoSort.CountLinks | crates/taskit-init/src/plan.rs:480-495 | in-degrees and dependents count the in-workspace dependencies of all members, repetitions included |
| TopoSort.Release | crates/taskit-init/src/plan.rs:511-519 | each listed dependent loses one waiting link per listing, never going below zero, and those left with none are released once each |
| TopoSort.TopoSortMembers | crates/taskit-init/src/plan.rs:477-526 | no name twice, dependencies first, exactly the members that cannot reach a dependency cycle, those ready earlier first and those ready together by name, and equal to an order fixed by names and edges alone |
| KahnOrder.OrderIsTopological | crates/taskit-init/src/plan.rs:497-526 | that order has no repeats, puts dependencies first and leaves out exactly the names that reach a cycle |
| KahnOrder.OrderIsFirstCome | crates/taskit-init/src/plan.rs:497-523 | of two names the one that became ready earlier comes first; those that became ready together are in dictionary order |
| Names.LessExactly | crates/taskit-init/src/plan.rs:502-523 | dictionary order by the first differing character |
| KahnOrder.AcyclicOrdersEverything | crates/taskit-init/src/plan.rs:497-526 | on an acyclic workspace the order is a permutation of the names |
| TopoSort.OrderIgnoresArrangement | crates/taskit-init/src/plan.rs:497-523 | any permutation of the member list gives the same order, and no hash-map order enters it |
| Propagation.ApplyPropagation | crates/taskit-engine/src/affected.rs:44-55 | the crates after one pass are the starting ones and the dependents of every entry whose source is one of them |
| Propagation.OnePassExactly | crates/taskit-engine/src/affected.rs:39-55 | one pass gives the full affected set from every start if and only if chained rules are matched by one rule |
| Propagation.AffectedIsLeast | crates/taskit-engine/src/affected.rs:39-55 | the affected set is the least closed set holding the starting crates |
| Propagation.NoSourceIsDependent | crates/taskit-engine/src/affected.rs:39-43 | the condition in the comment is sufficient and makes the pass idempotent |
| Propagation.OneStepDistributes | crates/taskit-engine/src/affected.rs:44-55 | a pass over a union is the union of the passes |
| Propagation.OnePassMissesChain | crates/taskit-engine/src/affected.rs:39-55 | two chained rules make one pass miss a crate |
| Discovery.DerivePropagation | crates/taskit-engine/src/discovery.rs:40-61 | strictly sorted sources with non-empty, strictly sorted dependents whose pairs are exactly the edges between known crates |
| Discovery.InferPropagation | crates/taskit-init/src/plan.rs:408-426 | strictly sorted sources, each with its non-empty dependents in the order of the members, each member as often as it lists the source; the pairs are exactly the listed dependencies reversed |
| Discovery.BothTablesAgreeExactly | crates/taskit-init/src/plan.rs:357-402 | both tables hold the same pairs if and only if every listed dependency is a member |
| AffectedCrates.Detect | crates/taskit-engine/src/affected.rs:17-37 | a directory is affected exactly if some changed file is it, a slash and anything, slashes included; any name if it is a dependent of an entry whose source is such a directory |
| AffectedCrates.ContainsExactly | crates/taskit-engine/src/affected.rs:29 | the prefix test holds exactly if the file lies anywhere below the directory |
| AffectedCrates.DetectDerived | crates/taskit-engine/src/config.rs:40-54 | with rules derived from the packages' dependencies, the touched directories and the packages that depend on a package of that name |
| AffectedCrates.DetectPackages | crates/taskit-engine/src/fmt.rs:12-24 | the packages commands run on: each affected name through the first crate in that directory, or as it is |
| AffectedCrates.NamesDecide | crates/taskit-engine/src/affected.rs:17-66 | for all changed files and dependencies commands run on exactly the touched packages and their direct dependents if and only if every crate that stands apart, having a file that leaves another crate untouched, is named like its directory |
| AffectedCrates.DerivedPassExactly | crates/taskit-engine/src/affected.rs:39-55 | over derived rules one pass finds all indirect dependents from every change if and only if each package also lists what its dependencies depend on |
| FlowAuto.Workspace.CheckoutBranch | crates/taskit-engine/src/flow.rs:212-223 | moves to the branch, or changes nothing but perhaps leaves files half written |
| FlowAuto.Workspace.MergeWithResolution | crates/taskit-engine/src/flow.rs:137-190 | adds the other branch's contents and counts the conflicts, or stops, perhaps leaving conflicts or half-written files behind |
| FlowAuto.Workspace.PushBranches | crates/taskit-engine/src/flow.rs:229-249 | records a push of the current contents exactly if a push is wanted, the run is real and the push works; otherwise records nothing |
| FlowAuto.Workspace.SaveState | crates/taskit-engine/src/flow_state_store.rs:19-30 | replaces the saved state as a whole, or leaves it; the log notes where a round begins |
| FlowAuto.Workspace.ClearState | crates/taskit-engine/src/flow_state_store.rs:33-38 | removes the saved state; a failed removal is not an error |
| FlowAuto.Workspace.AutoWithCi | crates/taskit-engine/src/flow.rs:462-635 | the run in place equals the program of effects from the saved phase on and keeps the safety invariant when CI reads the commit alone; it returns without error exactly if every place from the start on lets it pass; it pushes exactly if that is on, and never when it is off; it reports the conflicts of the merges at or behind its start |
| FlowAnswers.RunReturnsExactly | crates/taskit-engine/src/flow.rs:490-635 | by the outcomes alone: a run returns without error exactly if every place from its start on lets it pass, no merge is half done and, starting afresh, develop is ready |
| FlowAnswers.RunPushesExactly | crates/taskit-engine/src/flow.rs:608-616 | with the push off no run pushes, whatever happens to it; a real run without error has pushed what the branches hold at its end exactly if the push is on |
| FlowAnswers.HistoryPushesOnlyWhenAsked | crates/taskit-engine/src/flow.rs:608-616 | nothing is pushed in any history whose real runs have the push off |
| FlowAnswers.ConflictsAreSummed | crates/taskit-engine/src/flow.rs:507-606 | the conflicts counted are the sum over the merges at or behind the start |
| FlowAnswers.FailedStepsAreCisOwn | crates/taskit-engine/src/flow.rs:490-591 | a state file names failed steps only as it was found or as this run's CI failed |
| FlowSpelled.RunIsSpelled | crates/taskit-engine/src/flow.rs:490-635 | for every place a real run may stop at, the contents of each branch, the checked-out branch, the saved state, the half-done merge and the working tree it leaves, written out |
| FlowSafety.EveryHistoryIsSafe | crates/taskit-engine/src/flow.rs:490-622 | over every history of interrupted runs and permitted work between them (no leaving release at the gate, no changing it at the finish, no resuming with edits before CI has passed, no CI that passes on its own rewriting): main only receives release contents that CI passed since the last promotion, saved Finishing implies such a pass, saved CiGate implies release is checked out, and a wanted push precedes the clearing |
| FlowSafety.RunKeeps | crates/taskit-engine/src/flow.rs:490-635 | one run, cut off at any effect, keeps that invariant if CI reads the commit alone |
| FlowSafety.DryRunKeeps | crates/taskit-engine/src/flow.rs:500-622 | a dry run changes nothing, and no CI passes in it |
| FlowSafety.FailedCiEndsTheRun | crates/taskit-engine/src/flow.rs:543-576 | a run whose CI fails ends with an error and main and develop as they were; having reached CI it stays on release at the CI gate, with the failed steps once recorded |
| FlowContents.OkRunContents | crates/taskit-engine/src/flow.rs:490-635 | a run without error leaves contents written out as unions of the starting contents, by the phase it resumed at, release within main within develop, on develop |
| FlowContents.OkRunPromotesExactly | crates/taskit-engine/src/flow.rs:490-635 | such a run brings develop into main if and only if it began at the promotion or main and release already held it |
| FlowContents.InterruptedRunsGoRound | crates/taskit-engine/src/flow.rs:480-635 | from a clean start, after any runs, dry or not, able to read the state or not, each cut off anywhere, and any editing, switching, aborting and concluding of merges, a run without error leaves the branches as one uninterrupted round would from the contents at which the last round began |
| FlowContents.InterruptedEqualsUninterruptedExactly | crates/taskit-engine/src/flow.rs:480-635 | that equals one uninterrupted run from the start if and only if develop was, when the last round began, what it had been at the start, or main and release held nothing that staging and develop lacked; in any case each branch from the starting develop through staging, release and main to develop holds the one before, with develop checked out |
| FlowContents.FirstRoundEqualsUninterrupted | crates/taskit-engine/src/flow.rs:480-635 | so it does whenever the state was readable throughout and had not been cleared before |
| FlowContents.DyingAfterRemovalExactly | crates/taskit-engine/src/flow.rs:618-634 | a run that dies between the removal of the state file and its return, and the run after it, leave what one run leaves if and only if main and release held nothing that staging and develop lacked |
| FlowContents.DyingAfterRemovalShows | crates/taskit-engine/src/flow.rs:618-634 | a commit that only main has makes the two differ |
| FlowContents.CalmRunCompletesExactly | crates/taskit-engine/src/flow.rs:490-635 | a run in which everything works, conflicts being resolved, and CI passes completes and clears the state if and only if no merge is half done and, starting afresh, develop is checked out with nothing uncommitted |
| FlowLimits.RunIsSafeExactly | crates/taskit-engine/src/flow.rs:490-622 | from any world with a safe past, whatever is saved, checked out or edited and whatever the outcomes, the next run is safe if and only if it is a dry one, does not get as far as the merge into main, or CI covers what it merges: had passed it before at the gate or the finish, or reads the commit of release alone |
| FlowLimits.SwitchingAwayAtCiGateExactly | crates/taskit-engine/src/flow.rs:539-544 | after leaving release at the CI gate the next run, whatever its outcomes, is safe if and only if release had already been tested, the run is a dry one, or it does not get as far as the merge into main; if it cannot read the state, CI must not pass on its own rewriting instead |
| FlowLimits.ChangingReleaseAtFinishingExactly | crates/taskit-engine/src/flow.rs:593-602 | after changing release at the finish the next run, whatever its outcomes, is safe if and only if the changed contents had been tested, or one of the same exceptions holds |
| FlowLimits.EditingBeforeCiExactly | crates/taskit-engine/src/flow.rs:490-576 | after an uncommitted edit while promoting or at the CI gate the next run, whatever its outcomes, is safe if and only if release had already been tested at the gate, the run is a dry one, or it does not get as far as the merge into main |
| FlowLimits.EditedFixIsNotMerged | crates/taskit-types/src/flow_state.rs:49-55 | a fix edited in but not committed passes CI, and main receives release without it |
| FlowLimits.QuietRemovalFailureSkipsPromotion | crates/taskit-engine/src/flow_state_store.rs:33-38 | after an unreported removal failure the next run succeeds without promoting new commits |
| CommentScanner.FindCommentMarkers | crates/taskit-engine/src/health.rs:387-465 | ends, stays in range, and returns exactly the marker the byte-by-byte reader first meets in code, by its kind |
| SpelledCode.LineCommentIsFound | crates/taskit-engine/src/health.rs:387-465 | behind any well-separated code bytes, strings with escapes, raw strings with any number of hashes, character literals of every form and lifetimes, the marker of a line comment is found where they end |
| SpelledCode.BlockCommentIsFound | crates/taskit-engine/src/health.rs:387-465 | the same for a block comment |
| SpelledCode.NoCommentIsFound | crates/taskit-engine/src/health.rs:387-465 | such tokens alone have no marker, whatever they contain |
| CommentScanner.RawCloses | crates/taskit-engine/src/health.rs:396-416 | the substring search for a quote and n hashes finds exactly where the reader leaves the raw string |
| CommentScanner.SkipString | crates/taskit-engine/src/health.rs:420-432 | the two-byte escape jump stays in step with the reader |
| CommentScanner.SkipEscape | crates/taskit-engine/src/health.rs:436-449 | escapes with and without braces stay in step with the reader |
| LineScanner.CodePortion | crates/taskit-engine/src/health.rs:603-634 | returns exactly the bytes the reader takes as code, and the reader's flag |
| LineScanner.ExtractTodoFixmeComment | crates/taskit-engine/src/health.rs:474-516 | returns the marker of the first comment that has one; the flag is the reader's unless a comment closed on the line had a marker |
| SpelledLines.LineIsRead | crates/taskit-engine/src/health.rs:474-634 | a line spelled as tokens and comments in turn gives its code, its comments with their ends, and the flag of its end |
| SpelledLines.ContinuedLineIsRead | crates/taskit-engine/src/health.rs:480-493 | the same for a line that begins in a comment |
| SpelledLines.SpelledLineIsScanned | crates/taskit-engine/src/health.rs:474-516 | on a spelled line the marker scan finds the marker of the first comment that has one, and leaves the flag up exactly if the line ends in an open comment and no closed one had a marker |
| LineScanner.FlagIsLost | crates/taskit-engine/src/health.rs:482-503 | on every line made of a closed comment with a marker and an opened comment the two flags differ |
| LineScanner.EarlyReturnLosesFlag | crates/taskit-engine/src/health.rs:482-539 | a line on which they differ under the source's own marker test |
| TodoMarkers.MarkerExactly | crates/taskit-engine/src/health.rs:530-539 | the marker of a body is m if and only if the body is m between white space, decoration and white space in front and white space behind, m starts with a keyword and does not end in white space |
| TodoMarkers.SpaceCharsAreUnicode | crates/taskit-engine/src/health.rs:531-538 | the bytes trimmed are the UTF-8 of Unicode white space |
| LineScanner.CutsAreBetweenCharacters | crates/taskit-engine/src/health.rs:406-516 | every slice the scanners take of valid UTF-8 falls between characters, the one after a raw string's opening quote included |
| MaskLiterals.MaskStringLiterals | crates/taskit-engine/src/health.rs:638-664 | blanks the literals in place; on valid UTF-8 the fallback to the empty string is never taken |
| MaskLiterals.MaskedByte | crates/taskit-engine/src/health.rs:641-662 | a byte is kept exactly when it is outside every literal |
| MaskLiterals.NoQuoteLeft | crates/taskit-engine/src/health.rs:641-662 | no double quote is left |
| MaskLiterals.MaskingTwice | crates/taskit-engine/src/health.rs:638-664 | masking is idempotent |
| MaskLiterals.MaskedIsValid | crates/taskit-engine/src/health.rs:638-664 | valid UTF-8 stays valid although an escape may jump into a character |
| MaskedPieces.PiecesAreMasked | crates/taskit-engine/src/health.rs:638-664 | of text spelled as literals with escapes and what stands between them, the literals with their quotes are blanked and nothing else |
| MaskedPieces.OpenLiteralIsMasked | crates/taskit-engine/src/health.rs:645-656 | a literal that does not end on the line is blanked to its end |
| MaskedStrings.MasksStringsExactly | crates/taskit-engine/src/health.rs:638-664 | the blanked bytes are the ones the comment reader takes as string literals if and only if every double quote is part of one |
| MaskedStrings.MaskedTextExactly | crates/taskit-engine/src/health.rs:638-664 | then the text has blanks there and is unchanged elsewhere |
| MaskedStrings.RawStringIsMasked | crates/taskit-engine/src/health.rs:638-664 | a raw string always puts the two out of step |
| Ansi.StripAnsi | crates/taskit-engine/src/health.rs:740-761 | the loop computes the stripped text |
| Ansi.NoEscapeLeft | crates/taskit-engine/src/health.rs:740-761 | no escape character is left |
| Ansi.StrippingTwice | crates/taskit-engine/src/health.rs:740-761 | stripping is idempotent |
| Ansi.StripUndoesDecoration | crates/taskit-engine/src/health.rs:734-761 | control sequences of section 5.4 of ECMA-48 put in anywhere are removed and nothing else is |
| Ansi.LoneEscapeDropped | crates/taskit-engine/src/health.rs:743-758 | an escape that begins no control sequence is dropped alone |
| Ansi.UnfinishedSequenceDropped | crates/taskit-engine/src/health.rs:745-753 | a control sequence without a final byte takes the rest of the text with it |
| Nextest.TryParseSummaryLine | crates/taskit-engine/src/health.rs:787-829 | the loop files the counts by label as the summary function says |
| Nextest.ParseNextestSummary | crates/taskit-engine/src/health.rs:766-785 | the last summary line wins, otherwise the status marks are counted |
| MarkCounts.MarksAreCounted | crates/taskit-engine/src/health.rs:774-784 | an output without the words of a summary, put together from texts without marks and the three marks, with control sequences anywhere, gives the number of each mark under its kind and their sum as the total |
| NextestRoundTrip.LineRoundTrips | crates/taskit-engine/src/health.rs:787-829 | counts printed in any segment order, behind any prefix without the marker, parse back to the same counts if and only if the prefix leaves the total its value |
| NextestRoundTrip.NoPassedNoSummary | crates/taskit-engine/src/health.rs:818-829 | a printed line that counts no passed tests is no summary |
| NextestRoundTrip.CountsUpTo64Bits | crates/taskit-engine/src/health.rs:793-810 | a printed count is read exactly up to 64 bits |
| NextestRoundTrip.OutputRoundTrips | crates/taskit-engine/src/health.rs:766-829 | with such a prefix the same through whole outputs with other lines around and control sequences anywhere |
| Calendar.NextDayIsOneMore | crates/taskit-engine/src/telemetry.rs:208-216 | the next calendar date has exactly one day more, negative years included |
| Calendar.EpochIsZero | crates/taskit-engine/src/telemetry.rs:206-216 | 1970-01-01 is day 0 |
| Calendar.DaysFollowDates | crates/taskit-engine/src/telemetry.rs:208-216 | day numbers are strictly increasing and injective on valid dates |
| Calendar.DifferenceCountsSteps | crates/taskit-engine/src/telemetry.rs:208-216 | a number is n larger if and only if the date is n calendar steps later |
| Calendar.FourCenturies | crates/taskit-engine/src/telemetry.rs:210-216 | 400 years add 146097 days |
| Calendar.Eras | crates/taskit-engine/src/telemetry.rs:210-215 | the truncating era is the floor of the year over 400 |
| CacheHash.Compute | crates/taskit-engine/src/cache/mod.rs:73-96 | the digest depends on the readable json files alone, not on the order of listing; what cannot be listed has the empty hash |
| CacheHash.DigestIsSpelled | crates/taskit-engine/src/cache/mod.rs:73-96 | the digest hashes the rows that list every covered file with the hash of its content, in strictly ascending order |
| CacheHash.FramedSpelled | crates/taskit-engine/src/cache/mod.rs:88-94 | one row is the name, a NUL, the content hash and a NUL |
| CacheHash.FramedIsInjective | crates/taskit-engine/src/cache/mod.rs:88-94 | the NUL-framed encoding loses nothing |
| CacheHash.SameDigestExactly | crates/taskit-engine/src/cache/mod.rs:73-96 | two directories have the same digest if and only if they have the same readable json files and contents |
| CacheHash.CacheDir.Update | crates/taskit-engine/src/cache/mod.rs:46-53 | records the digest, the empty one of a directory that cannot be listed; does nothing without a directory; a failed write leaves the old master file or a broken one |
| CacheHash.CacheDir.Verify | crates/taskit-engine/src/cache/mod.rs:56-67 | unreadable exactly for a broken master file; positive exactly for a missing one, an empty recorded hash, or the hash the directory has now |
| CacheHash.CacheDir.Change | crates/taskit-engine/src/cache/mod.rs:17-18 | a master file inside the directory goes with it |
| CacheHash.VerifiesExactly | crates/taskit-engine/src/cache/mod.rs:56-96 | a recorded hash verifies if and only if it was taken of a directory that could not be listed, or the directory can be listed and has the same readable json files and contents |
| CacheHash.VerifyAfterUpdate | crates/taskit-engine/src/cache/mod.rs:46-96 | update, any change to the files or the directory with or without removal of the master file, and verification of one directory: positive if and only if the master file is missing by then, as when its directory was deleted, or the update could not list the directory, or it can be listed and has the same readable json files and contents |
| CacheHash.ChangedFileDiffers | crates/taskit-engine/src/cache/mod.rs:46-96 | changing the contents of one such file after an update makes verification fail |
| CacheHash.DeletedDirectoryVerifies | crates/taskit-engine/src/cache/mod.rs:17-60 | after an update the shipped cache directory is deleted as a whole, and verification succeeds |
| CacheHash.MasterFileIsNotCovered | crates/taskit-engine/src/cache/mod.rs:17-18 | a master file without a json name never enters the hash |
| CacheHash.MasterNameIsNotJson | crates/taskit-engine/src/cache/mod.rs:18 | the master file's name is no json name |
| CacheHash.IsJsonExactly | crates/taskit-engine/src/cache/mod.rs:79-85 | a path is covered exactly if it is a directory or nothing, a non-empty stem without slashes, and `.json` |
| Pipeline.Ctx.CommandCaptureFinish | crates/taskit-engine/src/ctx.rs:224-231 | of a log that grew from a start the records since that start; none past its end |
| Pipeline.RunBody | crates/taskit-engine/src/ci.rs:29-50 | a wrapped step puts exactly the commands it recorded into its sink |
| Pipeline.DrainStepContext | crates/taskit-engine/src/step.rs:217-221 | the context is handed out once: the sink is left empty |
| Pipeline.Run | crates/taskit-engine/src/step.rs:150-214 | the loop over heap sinks and the shared log computes the step-by-step progress |
| PipelineModel.ResultsAreAccounted | crates/taskit-engine/src/step.rs:150-214 | a step is skipped exactly when an earlier one failed as a gate or under fail-fast; the run passed exactly when no result is a failure |
| PipelineModel.OneResultPerStep | crates/taskit-engine/src/step.rs:156-206 | every step has one result, in order |
| PipelineModel.ResultTells | crates/taskit-engine/src/step.rs:156-206 | a step that ran did so on the log its predecessors left, and its result has its body's error, status and commands; a skipped one leaves the log alone |
| PipelineModel.RunStepsFormPrefix | crates/taskit-engine/src/step.rs:157-171 | the steps that run form a prefix |
| PipelineModel.SlicesMakeUpLog | crates/taskit-engine/src/ci.rs:29-50 | the command slices of the results make up exactly what the run added to the log |
| Pipeline.RunFromConfig | crates/taskit-engine/src/ci.rs:85-121 | one command with an unknown first word and nothing runs: one failed result with the name, gate and message of the first such step; otherwise one result per step with its name, gate and reproduction, skipped exactly behind a failed gate or a failure under fail-fast, passed exactly if none failed |
| Pipeline.KnownExactly | crates/taskit-engine/src/ci.rs:129-160 | a command is known exactly if it is white space, one of the ten words, and nothing or white space and anything |
| Pipeline.PlainWordIsQuoted | crates/taskit-engine/src/ci.rs:155-159 | an unknown word without quotes, backslashes and control characters is quoted as it is |
| XmlEscape.EscapedIsSubstituted | crates/taskit-output/src/formatter.rs:409-414 | the four replacements are one simultaneous substitution |
| XmlEscape.EscapedInPlace | crates/taskit-output/src/formatter.rs:409-414 | wherever a character stands it becomes `&amp;`, `&lt;`, `&gt;`, `&quot;` or stays |
| XmlEscape.RoundTrip | crates/taskit-output/src/formatter.rs:409-414 | unescaping the predefined entities of section 4.6 of XML 1.0 gives every text back |
| XmlEscape.AmpersandMustGoFirst | crates/taskit-output/src/formatter.rs:409-414 | replacing the ampersand last would escape the entity that stands for an angle bracket |
| XmlEscape.NoMarkupLeft | crates/taskit-output/src/formatter.rs:409-414 | no angle bracket or double quote is left |

## Left out

- Rings.RingOf: quotients are exact here; the script rounds floating-point quotients, which could only
  differ where a quotient is within rounding error of a half.
- The stable sort of the report's action items, the remedies, and all drawing.
- FlowAuto.Workspace.CheckoutBranch: git is taken to refuse a checkout while a merge is unfinished, also when
  all its conflicts are already staged.
- FlowAuto.Workspace.AutoWithCi: branch names, the recorded merge commit, messages and telemetry are not
  modelled; nothing reads the names back from the saved state.
- FlowContents.InterruptedRunsGoRound: assumes nobody commits meanwhile.
- FlowSafety.EveryHistoryIsSafe: files below `.ctx/`, which the check for a clean tree ignores, and files git
  ignores are taken not to matter to CI; people and a run do not work at the same time.
- `flow promote`, `flow sync` and `flow guard`: they run no CI and keep no state.
- Nextest.ParseNextestSummary: the sum of the marks counted is not limited to the machine's word.
- Calendar.NextDayIsOneMore: 64-bit overflow for years beyond about 25 quadrillion is not modelled.
- Reading telemetry files (`load_window`): a filter by day number and a library sort.
- CacheHash.SameDigestExactly: the hash function is required to tell apart the texts it is compared on;
  file names that are not valid UTF-8 are not modelled, nor is the JSON form of the master file.
- Pipeline.RunFromConfig: the message for an unknown command writes every character from 128 up as it is; the
  original escapes the unprintable ones.
- Pipeline.Run: durations, diagnostics sinks and progress messages are not modelled; a step body is a
  function of the command log it finds.
- Running git, cargo and other tools, configuration parsing, the terminal dashboard, report writers and
  scaffolding.
