# Models and proofs for the support code and the RSU geometry of CAFE

This project models, in Dafny, the parts of the repository in which an algorithm or a protocol has to be right, and
proves what they promise: dependency sorting and cycle enumeration, the search for configuration paths, the worker
protocol of the test runner, patch text, shell-like pipelines, the placement and linking of roadside units (RSUs), and a
few smaller algorithms. `dafny verify dfyconfig.toml` checks all of it.

| file | models |
|---|---|
| `Graphs.dfy`, `TopSort.dfy`, `CycleFinder.dfy` | `bindings/python/topsort.py` (and `is_rotated` of `rad_util.py`) |
| `PathTrails.dfy`, `PathEdges.dfy`, `PathRepeats.dfy`, `PathGather.dfy` | `StaticInformation` in `utils/print-introspected-doxygen.cc` |
| `TestRunner.dfy`, `TestReports.dfy`, `TestTally.dfy` | the worker threads, queues, collection loop and exit code of `test.py` |
| `PatchText.dfy`, `PatchPrinted.dfy`, `PatchReading.dfy`, `PatchSet.dfy` | the patch classes and the parser of `utils/check-style.py` |
| `ShellSyntax.dfy`, `ShellGrammar.dfy`, `ShellMeaning.dfy`, `ShellRun.dfy` | `Pipeline.parse` and `Pipeline.run` of `waf-tools/shellcmd.py` |
| `RsuPlacement.dfy`, `RsuRoad.dfy`, `RsuLinks.dfy` | `scratch/scene1.cc` and `scratch/scene.cc` |
| `BitStrings.dfy`, `Permutations.dfy` | `int2bin`, `bin2int`, `binary_range`, `permutations` of `bindings/python/rad_util.py` |
| `Timeline.dfy`, `Bench.dfy` | the window queries of `utils/grid.py`, the event counting of `utils/bench-simulator.cc` |
| `Basics.dfy` | helpers that several modules share |

Choices that hold throughout:

- Dictionaries and sets are iterated in an arbitrary order, so the results hold for every order.
- An exception or a failed assertion of the original is a value of the result (`None`, `CycleError`, `Raised`,
  `raised`, `ok == false`), not a precondition.
- Loops of the original are loops here. Long nested loops are cut into one method per loop, and the ghost parameters of
  such a method say how far the loops around it have got. Recursive functions whose unfolding a proof does not need are
  hidden in it with `hide`.
- Processes, return codes, event times and random values are parameters. Exact reals stand for doubles, and a square
  root is a nonnegative value given with its square.

Where the code differs from what its comments or its name suggest, the model follows the code:

- The comment in `topsort` and `topsort_levels_core` says that everything left in `num_parents` has a child. What is
  left is everything downstream of a cycle, so the comment is right exactly for lists of pairs in which every vertex
  downstream of a cycle is somebody's parent (`TopSort.WhenHeldBackHaveChildren`, and a list for which it is wrong in
  `TopSort.HeldBackWithoutChildren`).
- A patch is not always read back as it was printed: a removed line that starts with `-- ` and an added line that
  starts with `++ ` print like file headers. `PatchText.RoundTrip` has the exact condition.
- A chunk's content lines go to the chunk that was started last, even after the header of a new patch
  (`PatchReading.ContentAfterFileHeader`).
- The parser of pipelines accepts an operator as a command name at the start of a command or as a file name, and a
  redirect without a file name at the very end. `ShellGrammar.AcceptedExactly` has the grammar of what it accepts, and
  `ShellGrammar.DroppedRedirect` says when such a last redirect is as good as absent.
- `Pipeline.run` returns at the first group that stops the list. This is POSIX behaviour exactly for lists that do not
  use both `&&` and `||` (`ShellRun.PipelinesThatAgreeWithPosix`).
- A negative `--jobs` value leaves the test runner without workers, and then it waits for ever if there is anything to
  do (`TestRunner.DeadlockExactlyWithoutWorkers`).
- `Uniquefy` sorts and shortens a copy of the list it is given, so entries that were recorded twice stay. When
  names are single pieces, that happens exactly where the search follows two equal edges out of one type
  (`PathRepeats.RepeatsExactlyAtDoubledEdges`), as it does for the aggregation that is registered twice
  (`PathRepeats.RegisteredTwiceRecordedTwice`).
- Units on both sides of the script's own road, without deviation, leave a point at its end that no unit reaches
  (`RsuRoad.OwnRoadIsNotCovered`); `RsuRoad.RoadCoverageExactly` says when the whole road is reached.
- `get_ranges` returns nothing when neither end of the window lies in a range, even if ranges lie between them.
- `binary_range(0)` is empty, and `int2bin(i, 0)` neither truncates nor raises.

## Model

| member | source | states |
|---|---|---|
| `Graphs.ParentsWithinMakeCycle` | bindings/python/topsort.py:108-111 | in a finite set of vertices each of which has a parent in the set, every vertex is on a cycle or downstream of one |
| `Graphs.DepthIsUnique` | bindings/python/topsort.py:203-224 | a vertex has at most one depth, and no walk into it is longer than that |
| `TopSort.BuildTables` | bindings/python/topsort.py:77-90 | the two tables hold, for every vertex named, its number of parents with multiplicity and its children in list order |
| `TopSort.Parentless` | bindings/python/topsort.py:93 | exactly the vertices with count 0, each once, in some order |
| `TopSort.NextChild` | bindings/python/topsort.py:100-103 | a child about to be knocked down has a positive count, and when that becomes 0 all its parents are out |
| `TopSort.KnockDown` | bindings/python/topsort.py:99-106 | the inner loop lowers each child's count by its multiplicity, appends exactly those that reach 0, and keeps parents before children; no lookup fails |
| `TopSort.HeldBack` | bindings/python/topsort.py:108-111 | when no parentless vertex is left, what is not in the answer is exactly what is downstream of a cycle, and there is such a vertex exactly when the graph is cyclic |
| `TopSort.WhenHeldBackHaveChildren` | bindings/python/topsort.py:108-111 | everything in the error's first table has a child in its second one exactly when every vertex downstream of a cycle is a parent in some pair |
| `TopSort.HeldBackWithoutChildren` | bindings/python/topsort.py:108-111 | a list of pairs for which the comment is wrong |
| `TopSort.TopSort` | bindings/python/topsort.py:61-112 | CycleError exactly when the pairs, with repeats and self-loops, contain a directed cycle; otherwise every vertex once and parents first; the error carries the sortable part, and for the vertices downstream of cycles their remaining counts and children |
| `TopSort.LiveParentMeansLongerWalk` | bindings/python/topsort.py:205 | after k levels a vertex has a live parent exactly when a walk of k+1 arcs leads into it |
| `TopSort.OneLevelDeeper` | bindings/python/topsort.py:203-212 | the k-th list of parentless vertices is the set of vertices of depth k |
| `TopSort.TakeOutLevel` | bindings/python/topsort.py:217-224 | taking a level out leaves the tables of the remaining graph; no lookup fails |
| `TopSort.TopSortLevelsCore` | bindings/python/topsort.py:174-232 | for tables that describe a graph, isolated items included: the k-th level is exactly the set of vertices whose longest incoming walk has k arcs, each once and never empty; it raises exactly when the graph is cyclic, after yielding everything that is not downstream of a cycle, and the error carries the remaining counts and children of what is |
| `TopSort.TopSortLevels` | bindings/python/topsort.py:114-172 | the same for a list of pairs |
| `CycleFinder.IsRotated` | bindings/python/rad_util.py:735-775 | true exactly for rotations; IndexError exactly on two empty sequences |
| `CycleFinder.RecordCycle` | bindings/python/topsort.py:367-378 | the cycle is in the list up to rotation afterwards, and the list stays free of rotated copies |
| `CycleFinder.ExpandPath` | bindings/python/topsort.py:362-385 | after the loop over the children every simple path is finished or has a prefix on the stack, and the stack weighs one path less |
| `CycleFinder.ExploreFrom` | bindings/python/topsort.py:351-385 | the stack empties, and then the cycles closed by all simple paths from the root are recorded; visited nodes are reachable from a root |
| `CycleFinder.PathMeetsCycle` | bindings/python/topsort.py:367-369 | a fully explored root from which a simple cycle can be reached has had that cycle recorded |
| `CycleFinder.EveryCycleRecorded` | bindings/python/topsort.py:346-349 | passing over visited keys loses no cycle |
| `CycleFinder.FindCycles` | bindings/python/topsort.py:235-385 | terminates; yields only simple cycles, no two of them rotations of each other, and every simple cycle up to rotation |
| `PathGather.StaticInformation.GetCurrentPath` | utils/print-introspected-doxygen.cc:330-340 | the steps of the current path, each after a slash |
| `PathGather.StaticInformation.RecordOutput` | utils/print-introspected-doxygen.cc:343-348 | appends the type with the current path |
| `PathGather.StaticInformation.HasAlreadyBeenProcessed` | utils/print-introspected-doxygen.cc:351-363 | true exactly for the types on the ancestor stack |
| `PathGather.StaticInformation.Follow` | utils/print-introspected-doxygen.cc:451-455 | following one edge adds exactly the entries of that edge and restores both stacks |
| `PathGather.StaticInformation.GatherAttributes` | utils/print-introspected-doxygen.cc:431-470 | the attribute loop takes the pointer edges that do not lead to plain objects and the container edges, in order; which edges these are is in `PathEdges.AttributeEdgeAt` |
| `PathGather.StaticInformation.GatherChildren` | utils/print-introspected-doxygen.cc:471-483 | the loop over registered types takes the edges to children, in order |
| `PathGather.StaticInformation.GatherAggregates` | utils/print-introspected-doxygen.cc:484-504 | the aggregation loop takes the edges in both directions, in order |
| `PathGather.StaticInformation.DoGather` | utils/print-introspected-doxygen.cc:422-505 | terminates, restores both stacks, and appends one entry for each trail that repeats no type and meets no ancestor, in depth-first order; told by the database alone, an entry is appended exactly when it is the end of a way along attribute pointers, container items (`/[i]`), registered children and aggregations (`$`) that meets no type twice |
| `PathGather.StaticInformation.Gather` | utils/print-introspected-doxygen.cc:413-419 | what DoGather records stays, whatever the deduplicated copy is, and from outside it is told by the database alone; from an empty list, and with names that are single pieces, it has no repeats exactly when no doubled edge is met |
| `PathGather.UniquefiedIsTheSet` | utils/print-introspected-doxygen.cc:396-402 | the copy that is dropped has the same entries, each once and in ascending order |
| `PathTrails.TrailsAreTheRepetitionFreeOnes` | utils/print-introspected-doxygen.cc:426-504 | the trails met are exactly those edge sequences on which no type comes twice and no ancestor comes at all, the empty one included |
| `PathTrails.TrailsAscend` | utils/print-introspected-doxygen.cc:426-504 | trails are met in strictly ascending order of their edge numbers, so none is met twice |
| `PathTrails.EntryThroughEdge` | utils/print-introspected-doxygen.cc:451-455 | pushing an edge's step on the path makes the entry of the longer trail |
| `PathEdges.EdgesExactly` | utils/print-introspected-doxygen.cc:431-504 | a step leads out of a type in exactly four ways: a pointer attribute to something other than a plain object, a container attribute (`name/[i]`), a registered child (`$name`), an aggregation in either direction (`$name`) |
| `PathEdges.AttributeEdgeAt` | utils/print-introspected-doxygen.cc:431-470 | each pointer or container attribute has its one edge, after those of the attributes before it |
| `PathEdges.ChildEdgeAt` | utils/print-introspected-doxygen.cc:471-483 | each registered child has its one edge, after those of the attributes and of the children registered before it |
| `PathEdges.AggregateEdgeAt` | utils/print-introspected-doxygen.cc:484-504 | each aggregation of the type has its one edge to the other type, last of all and in order |
| `PathEdges.EntriesAreVisited` | utils/print-introspected-doxygen.cc:422-505 | an entry is among those recorded exactly when some way through the database leads to it |
| `PathEdges.ContainerIsRecorded` | utils/print-introspected-doxygen.cc:459-468 | what a container attribute holds is recorded below the attribute and the index |
| `PathRepeats.RenderIsInjective` | utils/print-introspected-doxygen.cc:330-340 | steps whose names are single pieces can be read back from the text of a path |
| `PathRepeats.DoubledEdgeRepeats` | utils/print-introspected-doxygen.cc:422-505 | whatever the names are, an entry is recorded twice where two equal edges are followed |
| `PathRepeats.RepeatsExactlyAtDoubledEdges` | utils/print-introspected-doxygen.cc:422-505 | when names are single pieces and equal steps out of a type lead to one type: an entry is recorded twice exactly when some trail that is met ends at a type with two equal edges to a type that is neither on the trail nor an ancestor |
| `PathRepeats.RegisteredTwiceRecordedTwice` | utils/print-introspected-doxygen.cc:539-541 | a type that is aggregated twice with another one is recorded twice |
| `PathRepeats.ParallelEdgesRepeatEntries` | utils/print-introspected-doxygen.cc:539-541 | of two different equal edges, each gives a trail of its own with the same entry |
| `TestRunner.EveryActionIsProgress` | test.py:984-1052 | every action of every thread, and the interrupt, lowers a measure |
| `TestRunner.StepKeepsInv` | test.py:984-1052 | every action keeps the invariant: each dispatched job is in exactly one place, break tokens come after all jobs, reports are truthful, the main thread's phases come in order |
| `TestRunner.InvHolds` | test.py:1428-1431 | the invariant holds after every run, whatever the interleaving |
| `TestRunner.BreaksAreTakenLast` | test.py:1701-1704 | when a worker has taken a break token there is no job left in the input queue and none to be dispatched |
| `TestRunner.RunsAreBounded` | test.py:1723-1724 | no run is longer than 7 times the jobs plus 4 times the workers plus 1 |
| `TestRunner.NoDeadlock` | test.py:1723-1863 | with a worker, or without jobs, a reachable state in which nobody can move is the end |
| `TestRunner.EveryFullRunFinishes` | test.py:1723-1863 | a run that cannot go on has collected every job exactly once, emptied both queues and joined every thread |
| `TestRunner.DeadlockExactlyWithoutWorkers` | test.py:1417-1431 | the protocol can get stuck before the end exactly when there are jobs and no workers |
| `TestRunner.NothingStartsAfterInterrupt` | test.py:998-1001 | once the interrupt flag is set, the number of jobs with a real result or on the way to one never changes again |
| `TestReports.ReportsAreMade` | test.py:984-1052 | a report is with a worker, in the output queue or collected exactly when an action has made it: the flag test, the skip test, or a process that ended with its code |
| `TestReports.CollectedAreMade` | test.py:1723-1757 | after a finished run the collected reports are exactly those that the run has made |
| `TestReports.FinishMakesReport` | test.py:1026-1033 | every process that ends makes a report with its return code |
| `TestReports.CollectedInOrder` | test.py:1045-1052 | reports are collected in the order in which workers put them |
| `TestReports.TakenInOrder` | test.py:984-996 | workers take jobs in the order in which they were dispatched, and break tokens after them |
| `TestTally.CollectResults` | test.py:1716-1757 | every counter is the number of reports with its verdict, and its list holds their names in order, with the reason for skipped ones |
| `TestTally.VerdictsAddUp` | test.py:1723-1757 | passed, failed, crashed, valgrind, skipped and interrupted reports together are all reports |
| `TestTally.SelectIsExact` | test.py:1725-1757 | a report is counted under a verdict exactly when it has it |
| `TestTally.SuccessJobByJob` | test.py:1946-1949 | when every job is reported once, success of all reports is success of every job |
| `TestTally.TallyOfRun` | test.py:1716-1949 | over any run that ends the counters and the interrupted jobs add up to the jobs, the exit code is 0 exactly when every dispatched job passed or was skipped, and one interrupted job makes it 1 |
| `TestTally.VerdictsOfJobs` | test.py:1723-1757 | the reports with a verdict are as many as the jobs that the run gave it |
| `TestTally.NamesOfRun` | test.py:1735-1757 | the lists hold the names of exactly these jobs, with the reason for skipped ones |
| `TestTally.SuccessOfRun` | test.py:1946-1949 | the reports are a success exactly when nobody was interrupted and every process of the run returned 0 |
| `TestTally.TallyAtTheEnd` | test.py:1716-1949 | the collection loop and the exit code after any finished run, told by the actions of the run: each counter and list of names is that of the jobs whose processes returned 0, 1, 2 or anything else, or that were skipped, with the interrupted jobs they add up to the jobs, and the exit code is 0 exactly when no job was interrupted and every process returned 0 |
| `PatchText.DecimalIsRead` | utils/check-style.py:303-304 | a printed number consists of digits, has no leading zero and is read as that number |
| `PatchText.DigitsInOrder` | utils/check-style.py:303-304 | how the ten digits and a negative number are printed |
| `PatchText.HeaderIsMatched` | utils/check-style.py:373 | a printed chunk header matches its pattern with its four numbers in order, whatever follows it |
| `PatchText.ContentIsRead` | utils/check-style.py:221-226 | a printed line that has no line end in it and does not look like a file header is recognised as itself |
| `PatchText.ClassesArePrintable` | utils/check-style.py:380-413 | what a line is recognised as never contains a line end and never looks like a file header |
| `PatchText.WrittenIsSplit` | utils/check-style.py:379 | text written line by line is handed out line by line |
| `PatchText.PatchsetIsReadBack` | utils/check-style.py:370-414 | reading printed patches after anything else appends exactly them |
| `PatchText.RoundTrip` | utils/check-style.py:297-306 | parsing what is printed gives the same patches exactly when there is no line end in names and lines, no negative position, no removed line starting with `-- ` and no added line starting with `++ ` |
| `PatchText.PutTogether` | utils/check-style.py:370-414 | well-formed lines, from any point on, are what some printable patches print |
| `PatchText.PrintedPatchesAreWellFormed` | utils/check-style.py:359-368 | printed patches are well-formed text, with right chunk counts |
| `PatchText.TextRoundTrip` | utils/check-style.py:359-414 | a text can be parsed and printing the result reproduces it, exactly when it is well-formed with right chunk counts |
| `PatchReading.UnrecognisedExactly` | utils/check-style.py:380-413 | a line matches no pattern exactly when it has none of the three marks in front and is no chunk header |
| `PatchReading.ParsedLineByLine` | utils/check-style.py:370-414 | for any lines: an exception exactly at a line without pattern, a `+++` or chunk header before any file header, or a content line before any chunk header; without one, a patch for each file header with its names, a chunk of it for each chunk header after that, and each content line in the chunk started last, with nothing more anywhere |
| `PatchReading.ContentAfterFileHeader` | utils/check-style.py:380-412 | content after a new file header goes to the chunk before it |
| `PatchSet.PatchChunk.AddLine` | utils/check-style.py:258-264 | appends the line to the chunk's value |
| `PatchSet.PatchChunk.Side` | utils/check-style.py:265-284 | the source lines, or the destination lines, all of them and in order |
| `PatchPrinted.SideLengths` | utils/check-style.py:285-296 | the counts of the chunk header are the lengths of the two sides |
| `PatchPrinted.SideExactly` | utils/check-style.py:265-284 | a side holds the lines that are not only on the other side and no others, in their order |
| `PatchPrinted.ChunkIsPrinted` | utils/check-style.py:213-226 | the printed header is `@@ -p,m +q,n @@` with the numbers of source and destination lines, and each line has its mark in front |
| `PatchPrinted.HeaderCounts` | utils/check-style.py:373 | the printed header is read as source position, number of source lines, destination position, number of destination lines |
| `PatchPrinted.WellFormedCounts` | utils/check-style.py:303-304 | so are the chunk headers of well-formed text |
| `PatchPrinted.OneLineAdded` | utils/check-style.py:297-306 | a chunk with one line on both sides and one added, as it is printed |
| `PatchSet.PatchChunk.Write` | utils/check-style.py:297-306 | appends the printed lines of the chunk's value to the file, a header with the two positions and counts first |
| `PatchSet.PatchObject.AddChunk` | utils/check-style.py:324-330 | appends the chunk and changes nothing else |
| `PatchSet.PatchObject.Write` | utils/check-style.py:359-368 | appends `--- ` with the source name, `+++ ` with the destination name, and the printed chunks to the file |
| `PatchSet.StartChunk` | utils/check-style.py:390-394 | the new chunk becomes the last one of the current patch and the current one; all other objects keep their places and values |
| `PatchSet.AddContent` | utils/check-style.py:395-412 | a content line goes to the current chunk and to no other |
| `PatchSet.ParsePatchset` | utils/check-style.py:370-414 | raises exactly when some line matches no pattern or comes before the header it belongs to, and otherwise builds fresh objects that hold exactly the patches read, with every line where it belongs |
| `ShellSyntax.VariableIsMatched` | waf-tools/shellcmd.py:24 | key=value with a word as key and a value without white space is matched as these two |
| `ShellSyntax.AssignmentExactly` | waf-tools/shellcmd.py:24 | a token is an assignment exactly when it is a word, an equals sign and a value without white space, perhaps with a line end |
| `ShellSyntax.SetVariableKeeps` | waf-tools/shellcmd.py:139-141 | assignments keep the keys of the environment distinct, and add exactly the one that is assigned |
| `ShellSyntax.LastValueStays` | waf-tools/shellcmd.py:139-141 | the assigned key has the value assigned last, every other key the one it had, and the keys keep their order |
| `ShellSyntax.StepIsSound` | waf-tools/shellcmd.py:138-199 | every accepted token keeps the parsed part well-formed |
| `ShellSyntax.ParsedIsWellFormed` | waf-tools/shellcmd.py:121-201 | every accepted token list is parsed to a well-formed pipeline |
| `ShellSyntax.Alternation` | waf-tools/shellcmd.py:164-177 | in a well-formed pipeline operands and operators alternate, a command's output is a pipe exactly when a Pipe node follows, and a directory change is followed by And or by nothing |
| `ShellSyntax.CommandIsRead` | waf-tools/shellcmd.py:138-199 | the tokens of a command with its variables, arguments and redirects lead back to it |
| `ShellSyntax.RenderedIsParsed` | waf-tools/shellcmd.py:121-201 | parsing the token rendering of a pipeline returns it exactly when it is well-formed, so the well-formed pipelines are the possible results |
| `ShellGrammar.LineIsRead` | waf-tools/shellcmd.py:121-201 | every grammatical line is accepted, and whether a command could go on after it is seen from its derivation |
| `ShellGrammar.LineOf` | waf-tools/shellcmd.py:121-201 | every accepted token list has a derivation |
| `ShellGrammar.AcceptedExactly` | waf-tools/shellcmd.py:121-201 | the accepted token lists are exactly those of the grammar: commands with assignments, arguments and at most one redirect of each stream, a pipe only behind a free output, directory changes followed by `&&` or nothing, perhaps a redirect without a file at the end |
| `ShellGrammar.DroppedRedirect` | waf-tools/shellcmd.py:154-201 | a redirect as the last token makes no difference exactly after a line that ends in a command with all its files, and after what cannot be continued to anything acceptable |
| `ShellMeaning.ParsedAsMeant` | waf-tools/shellcmd.py:121-201 | a grammatical line is parsed to what it means, whatever the order of its items: the name and all words as arguments, each redirect's file, the pipe and `2>&1`, the last value of each variable, and the operators between commands |
| `ShellMeaning.AcceptedAsMeant` | waf-tools/shellcmd.py:121-201 | whatever is accepted is the meaning of a grammatical line with these tokens |
| `ShellMeaning.AssignedValues` | waf-tools/shellcmd.py:139-151 | after any assignments each key has the value of the last one to it |
| `ShellMeaning.FileBeforeArgument` | waf-tools/shellcmd.py:154-199 | an argument behind a redirect is still an argument |
| `ShellMeaning.ErrorsToOutputThenDirectory` | waf-tools/shellcmd.py:154-182 | `2>&1`, `&&` and `cd` in one line |
| `ShellSyntax.Pipeline.CommitCommand` | waf-tools/shellcmd.py:101-104 | moves the current command to the pipeline, or fails if there is none |
| `ShellSyntax.Pipeline.Parse` | waf-tools/shellcmd.py:121-201 | the six-state loop fails exactly when some token or the end is not accepted, and otherwise leaves the parsed pipeline |
| `ShellRun.ExecPipedCommands` | waf-tools/shellcmd.py:203-212 | the status of a group is always that of its last command |
| `ShellRun.LaunchCommand` | waf-tools/shellcmd.py:242-291 | opens exactly the files of the command's redirects that are used and launches it with them, in its directory |
| `ShellRun.CloseFiles` | waf-tools/shellcmd.py:301-304 | closes all files on the list but the null device |
| `ShellRun.Run` | waf-tools/shellcmd.py:214-346 | launches exactly the commands, and returns exactly the status, of right-nested short-circuit evaluation; read off positions, a command is launched exactly when every group before it passes on, by status 0 to `&&` and by another one to `\|\|`, with its own name, arguments, variables, redirects and directory; opens exactly the files of what is launched and has closed every one, once, at a normal return |
| `ShellRun.EvaluationByPosition` | waf-tools/shellcmd.py:214-346 | the launches and the status of short-circuit evaluation, told by the positions of the nodes |
| `ShellRun.RestIsRun` | waf-tools/shellcmd.py:312-346 | what follows `&&` is run exactly after status 0, and what follows `\|\|` exactly after another one |
| `ShellRun.AndLists` | waf-tools/shellcmd.py:330-346 | a list with `&&` only returns 0 exactly when the last command of every group does |
| `ShellRun.OrLists` | waf-tools/shellcmd.py:312-330 | a list with `\|\|` only returns 0 exactly when the last command of some group does |
| `ShellRun.FilesAreOpened` | waf-tools/shellcmd.py:255-291 | a file is opened exactly when some launch reads it, or writes it and it is not the null device |
| `ShellRun.UniformListsAgree` | waf-tools/shellcmd.py:312-346 | with only `&&` or only `\|\|`, status and launches are those of left-associative evaluation (POSIX.1-2017, XCU section 2.9.3) |
| `ShellRun.AgreementWithPosix` | waf-tools/shellcmd.py:312-346 | run and POSIX agree for all return codes exactly when only one of the two operators occurs |
| `ShellRun.PipelinesThatAgreeWithPosix` | waf-tools/shellcmd.py:214-346 | the same, for parsed pipelines without directory changes |
| `RsuPlacement.PlaceUnits` | scratch/scene1.cc:86-96 | terminates, and places units at exactly the multiples of the spacing that fit on the road, on one edge, alternating edges or the middle line |
| `RsuPlacement.WithoutSpacingNoEnd` | scratch/scene1.cc:91-96 | with a spacing that is not positive the loop condition holds for ever |
| `RsuPlacement.Deploy` | scratch/scene1.cc:64-96 | an unknown strategy is an error; for the others the k-th unit is at k times the spacing and on the edge or edges the strategy names, there is none exactly on a road of negative length, and one more would not fit |
| `RsuPlacement.SpacingWithoutDeviation` | scratch/scene1.cc:23-33 | each spacing less its deviation is a root of the square in its formula |
| `RsuPlacement.BothSideSpacing` | scratch/scene1.cc:23-29 | without deviation the both-side spacing is the radius plus the half spacing of one side, and it is below or above that with the sign of the deviation |
| `RsuPlacement.CrossPair` | scratch/scene1.cc:27-29 | two units on opposite edges at most that far apart reach every point of the road between them |
| `RsuPlacement.StraightPair` | scratch/scene1.cc:23-33 | two units on one line reach every point between them up to the far edge |
| `RsuPlacement.GapIsNotReached` | scratch/scene1.cc:23-33 | with a positive deviation there is a point between the first two units that no unit reaches |
| `RsuPlacement.CoverageExactly` | scratch/scene1.cc:64-96 | for all three strategies, every point of the road strip between the first and the last unit is within the radius of some unit exactly when the deviation is not positive or there is only one unit |
| `RsuRoad.SpacingIsPositive` | scratch/scene1.cc:23-33 | with a deviation of zero or more the spacing is positive, so the loop ends |
| `RsuRoad.RoadCoverageExactly` | scratch/scene1.cc:64-96 | every point of the road is reached exactly when the strip between first and last unit is and the end of the road is: by the last unit, whose half spacing must not be shorter than the rest of the road, or for units on both sides by the last two together |
| `RsuRoad.OnlyLastUnitAtEnd` | scratch/scene1.cc:64-96 | when units on both sides are at least the radius less a half spacing apart, as they are without deviation, only the last unit counts at the end |
| `RsuRoad.OwnRoadIsNotCovered` | scratch/scene1.cc:38-96 | on the script's road, with units on both sides and no deviation, the 11 units cover the strip but leave the far corner of the road unreached |
| `RsuLinks.DeployCross` | scratch/scene.cc:126-152 | as many layers as the range holds, and 4 times that plus 1 units on different spots: the centre, and by number those along +x, -x, +y and -y at multiples of the spacing |
| `RsuLinks.PlaceByNumber` | scratch/scene.cc:135-152 | where a unit stands, by its number |
| `RsuLinks.PlacesDiffer` | scratch/scene.cc:135-152 | no two units stand on one spot |
| `RsuLinks.WithinRange` | scratch/scene.cc:131-152 | no unit is further out than the range |
| `RsuLinks.SpacingApart` | scratch/scene.cc:135-152 | a unit and the next one inwards are exactly the spacing apart |
| `RsuLinks.InstallLinks` | scratch/scene.cc:197-207 | the index arithmetic installs exactly the links from the centre to the first unit of each arm, unless they are disabled, and from each unit to the next one on its arm |
| `RsuLinks.LinksExactly` | scratch/scene.cc:197-207 | which pairs of units are linked |
| `RsuLinks.LinksByNumber` | scratch/scene.cc:197-207 | which pairs of units are linked, by their numbers |
| `RsuLinks.SpanningTree` | scratch/scene.cc:197-207 | with the centre, the links connect all 4L+1 units and are one fewer than these, each one spacing long |
| `RsuLinks.FourArms` | scratch/scene.cc:200-206 | without the centre, two units are connected exactly when they are on the same arm, the centre is isolated, and there are 4(L-1) links |
| `BitStrings.TableSpells` | bindings/python/rad_util.py:91-94 | each entry of the hexadecimal table spells its digit |
| `BitStrings.FittedBits` | bindings/python/rad_util.py:98-105 | for a positive width truncation fails exactly when a one would be lost, and otherwise truncation and padding keep the value |
| `BitStrings.IntToBinSpells` | bindings/python/rad_util.py:74-105 | for a positive width the error comes exactly from 2^n on, and otherwise the n bits spell the number |
| `BitStrings.WidthZeroKeepsAll` | bindings/python/rad_util.py:100-102 | with width 0 nothing is truncated and no error is raised |
| `BitStrings.BitsRoundTrip` | bindings/python/rad_util.py:74-130 | a nonempty bit string is rebuilt from its value and length |
| `BitStrings.Increment` | bindings/python/rad_util.py:649-659 | the toggle array is a ripple carry: the bits count up by one and the carry out is in the last toggle |
| `BitStrings.BinaryRange` | bindings/python/rad_util.py:632-660 | for a positive width 2^bits strings, the k-th of them spelling k in that width; none for width 0 |
| `Permutations.Permute` | bindings/python/rad_util.py:310-326 | the recursion with its two loops lists every insertion of the first item into every list for the rest |
| `Permutations.ListedInOrder` | bindings/python/rad_util.py:310-326 | the order of the lists: list by list for the rest, the first item from front to back |
| `Permutations.ExactlyTheRearrangements` | bindings/python/rad_util.py:310-326 | a list is in the result exactly when it is a rearrangement of the input |
| `Permutations.CountIsFactorial` | bindings/python/rad_util.py:310-326 | there are n! lists, and one for the empty list |
| `Permutations.DistinctItemsDistinctLists` | bindings/python/rad_util.py:310-326 | with distinct items no list comes twice |
| `Timeline.TimelineDataRange.Search` | utils/grid.py:105-122 | finds a range that holds the key; for sorted ranges, which may touch, -1 means that none does |
| `Timeline.TimelineDataRange.GetRanges` | utils/grid.py:136-152 | for any ranges and window, the slice between what the two searches find; for sorted ranges, when the answer is everything that overlaps the window and nothing that does not meet it; when the ranges are also disjoint, when it is exactly what meets the window; in both cases always when both ends are held, and empty when neither is; for a reversed window at most a range that holds both ends |
| `Timeline.TimelineEvent.Search` | utils/grid.py:201-218 | for sorted events an event at the key if there is one, and otherwise the place between earlier and later ones; without ties the number of events before the key |
| `Timeline.TimelineEvent.GetEvents` | utils/grid.py:226-235 | for any events, the slice between what the searches find; for sorted ones all events inside the window, at least one at each end that has any, and the first event after it exactly when none is at its end; without ties exactly the events of the window before that one |
| `Bench.Benchmark.Callback` | utils/bench-simulator.cc:133-145 | reschedules itself and is counted until the total is reached |
| `Bench.Benchmark.RunBench` | utils/bench-simulator.cc:97-131 | in any event order the run ends; with a positive population the count is the total, after population plus total callbacks |

## Left out

- ns-3 scenarios, bindings and waf tools other than the files above are not part of this model.
- Printing, XML and HTML output, option parsing, `shlex` and real file and process handling in `test.py` and
  `shellcmd.py`: tokens, lines and return codes are given.
- The main loop that decides which suites and examples are dispatched in `test.py`: the list of jobs is given. Each
  dispatch site raises `jobs` and `total_tests` together, so one number stands for both. The progress line and the
  sorting of the name lists are not modelled.
- Failing launches and failing `open` calls in `Pipeline.run`, its verbose output, and the copying of the parent's
  environment: a launch carries only the variables set on the command line.
- Pipelines with directory changes are run in the model, but are not compared with POSIX.
- TestRunner.EveryFullRunFinishes: says nothing about fairness or time, because a run is any interleaving and only full ones reach the end.
- PatchSet.ParsePatchset: lines of a chunk are values, not objects with `append_to_line`, so the whitespace correction that changes them later is not modelled; a line without a kind, for which writing raises, cannot occur.
- ShellSyntax.Pipeline.Parse: the command under construction is a value in a field, not a separate object; nothing else refers to it before it is committed.
- PathGather.StaticInformation.DoGather: the TypeId database is given by functions, and every type that can be reached must be registered in it.
- RsuPlacement.Deploy: needs a positive spacing, because the original loop does not end otherwise (`RsuPlacement.WithoutSpacingNoEnd`); heights (all zero) are omitted.
- RsuRoad.RoadCoverageExactly: for units on both sides, how wide the last two discs are at the end of the road is given by two more square roots.
- PathRepeats.RepeatsExactlyAtDoubledEdges: two attributes of one name that lead to different types, or names with a slash, can make further entries coincide; that is excluded by `Named`.
- PathGather.StaticInformation.Gather: the order by which the copy is sorted is any total order of the entries.
- RsuPlacement.CoverageExactly: exact reals, not doubles, and a radius larger than the road width, as the square roots of the original need.
- RsuLinks.InstallLinks: needs at least one layer, because the original indexes the first unit of each arm.
- Timeline.TimelineDataRange.GetRanges: for ranges that overlap each other, or are not sorted, only that the answer is the slice between what the two searches find; `get_ranges_bounds`, `get_events_bounds`, `get_bounds` and drawing are left out.
- Bench.Benchmark.RunBench: counters are unbounded, not 32 bits wide, and the queue is empty at the start; times are not measured.
- TopSort.TopSortLevels: the generator is run to its end, so what a consumer does between two levels is not modelled.
- CycleFinder.FindCycles: the generator is run to its end in the same way.
- `gcf`, `lcm`, `reduce_fraction`, `gray_encode`, `find_common_fixes` and the statistics scripts would only add easy members.
