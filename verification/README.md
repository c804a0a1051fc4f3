# Open|SpeedShop command line: dispatcher, reader, and table logic

A Dafny model of the parts of `libopenss-cli` whose correctness cannot be read off one function.

| files | what they model |
|---|---|
| `DispatchModel`, `DispatchInvariants`, `DispatchTheorems`, `DispatchProgress`, `DispatchAwaited`, `DispatchLaws`, `CommandPool` | the worker pool that executes commands (`SS_Cmd_Control.cxx`): a transition system with one step for each region between taking and releasing `Cmd_EXT_Lock`, the invariants every step keeps, what holds over all runs, when the workers finish everything at hand, what a waiting producer can rely on, what each region does to workers, queue and producer, and a class whose methods are those regions |
| `InputList`, `InputSweep`, `ReaderHandshake`, `InputDelivery`, `InputFairness`, `CommandReader` | command input (`Commander.cxx`): the linked list of input sources of a window, the round-robin choice of a window, the sleep/wake handshake between the reader and the threads that add input, what becomes of every line, and how long a window can be passed over |
| `HeaderWrap`, `HeaderRows`, `HeaderPrint` | word-wrap of column headers (`CommandObject.cxx`): a counting pass allocates rows for a printing pass that breaks the text differently; when the two agree, and what the rows show |
| `ThreadSets`, `ThreadMerge`, `ThreadFilter` | compression of thread descriptions to ranges, target lists built from them, and the filter that applies target lists (`SS_ThreadInfo.cxx`, `SS_Compare.cxx`, `SS_Cmd_Execution.cxx`) |
| `ViewJoin`, `ViewCells`, `ViewMerge` | the merge of k views on their right-most column, and where each value stands in it (`SS_Compare.cxx`) |
| `SampleDeviation`, `IntervalSlices` | the sample-deviation formula (`SS_CommandResult.cxx`) and the slicing of an experiment into time intervals (`SS_Cmd_Execution.cxx`) |

Threads interleave one step at a time on sequentially consistent memory. A command is named by its
place in submission order, and the histories `dispatched` and `purged` are kept beside the
variables of the program. Which sleeper a condition-variable signal wakes is a parameter of the step
and is quantified over. `Experiment::getCanonicalName` and the answer of `Isa_SS_Command` are
parameters too.

## What turned out to be false, and when exactly it holds

- **Exclusion after `Wait_For_Previous_Cmds`.** The wait always returns to a worker that is alone.
  It stays alone until it releases or ends if and only if, at the return, the gate is closed or
  nobody else could be given a command (`DispatchTheorems.ExclusionIff`, condition `Breakable`).
  Commands that call `SafeToDoNextCmd` at most once are always safe (`DispatchTheorems.Exclusion`).
  `expCreate` calls it twice, once through `Q_Lock` (`SS_Cmd_Execution.cxx:2175`,
  `SS_Exp.hxx:557-563`) and once directly (`SS_Cmd_Execution.cxx:2222`); a second release can open
  the gate that a newer command closed, and `DispatchTheorems.SecondReleaseBreaksExclusion` gives the
  run in which a third command then joins a waiter that had returned.
- **The quiescence wait cannot deadlock.** Two workers inside `Wait_For_Previous_Cmds` at once stay
  there for good. Otherwise every schedule of the workers' own steps ends, with everything at hand
  finished (`DispatchProgress.EveryScheduleDrainsIff`, an equivalence). If commands wait only before
  they release, and release at most once, no reachable state is stuck (`AlwaysDrains`). Both
  conditions are needed: `WaitAfterReleaseDeadlocks` breaks the first, and `SecondReleaseDeadlocks`
  the second, as the two releases of `expCreate` do when two later commands wait.
- **A producer that waits is roused.** Some continuation rouses it if and only if it is not stranded (a command
  is queued or in hand) and either no two workers are inside the quiescence wait, or somebody acts
  outside it, or somebody is about to be given a command (`DispatchProgress.CanRouseIff`); without a
  mutual wait every schedule of the workers rouses it. So two things defeat it: a purge from an
  interrupt (`Commander.cxx:2474-2484`), after which hope is left exactly under the condition of
  `OutsidePurgeLeavesHopeIff`, and the deadlock above, which holds the producer up for good although
  a command is queued (`DeadlockHoldsProducer`).
- **A serialized command has finished when the producer is roused.** When the end of a command rouses
  a producer that waits for its own, that one is still in hand if and only if it was not purged and
  the command that ended does not have the newest ticket, which is what the code tests a moment later
  to reopen the gate (`DispatchAwaited.RousedTooEarlyIff`). Without early release it has always
  finished (`DispatchTheorems.Serial`); `RousedTooEarly` is a run with one in which it has not.
- **`Print_Header` never indexes past its rows.** True of all its rows but for one case: it indexes
  an empty vector exactly when every header other than the last is empty
  (`HeaderPrint.PrintHeader`).
- **The two passes need the same number of rows.** They do on every header in which no word whose break
  is forced follows skipped blanks; if the first such word does not fit the width, the counting pass
  has counted the blanks before it as a fragment and an empty row may be printed
  (`HeaderRows.PassesAgree`). If it is a single character whose successor does not fit, either can
  happen: `FittingWordsCanDisagree` is a text whose words all fit and on which they differ.
- **Process ids are merged to ranges.** Not those of processes without thread ids: a missing thread id
  is described by -1, which counts as an id, so such processes get one entry each
  (`ThreadMerge.MissingIdsCount`, `ThreadFilter.SerialProcessesAreListedSingly`).
- **A cluster's target list selects the cluster.** It does if and only if no thread outside the
  cluster agrees with one inside on host, process and every id the outside thread has
  (`ThreadFilter.RoundTripIff`); threads that all have both ids are always safe.
- **Compression repeats nothing and loses nothing.** Exactly, unless no field is merged and an input
  equals its predecessor, which is then dropped (`ThreadSets.CompressionIsExact`).
- **The merged table is the full outer join.** If and only if the first view's keys are distinct;
  repeats inside later views do no harm (`ViewJoin.MergeIsOuterJoinIff`).
- **Percentages tile the experiment.** If and only if no slice collapses; a span of one hundred time
  units is exactly what it takes for whole percentages never to collapse
  (`IntervalSlices.PercentagesTileIff`, `HundredIsExact`).

Two comments in the source say something else than its code. The filter's says that each list of a target
must match; the code lets a thread without a rank or a thread id pass that list
(`SS_Cmd_Execution.cxx:653-655`, `724`, `738`). `Break_At`'s says that leading blanks are ignored for
the length, but a forced break is placed `columnsize` after the blanks' start
(`CommandObject.cxx:385-386`, `424`).

## Model

| member | source | states |
|---|---|---|
| DispatchInvariants.StepKeepsCounters | libopenss-cli/SS_Cmd_Control.cxx:855-900 | every step keeps EXT_Allocated the number of live workers, EXT_Free the number asleep or woken but not resumed, and both within the limit |
| DispatchInvariants.StepKeepsTickets | libopenss-cli/SS_Cmd_Control.cxx:891-898 | every step keeps tickets distinct and equal to the place of the command in dispatch order |
| DispatchInvariants.StepKeepsGate | libopenss-cli/SS_Cmd_Control.cxx:964-968 | every step keeps: a closed gate implies that the newest command is in hand and has not opened it, so its end will |
| DispatchInvariants.StepKeepsWork | libopenss-cli/SS_Cmd_Control.cxx:834-839 | every step keeps: an open gate, queued work and a sleeper imply a worker already on its way to the queue |
| DispatchInvariants.StepKeepsQuiescence | libopenss-cli/SS_Cmd_Control.cxx:861-875 | every step keeps: somebody blocked in the quiescence wait implies Cmd_Waiting and EXT_Allocated > EXT_Free + 1 |
| DispatchInvariants.StepKeepsBackPressure | libopenss-cli/SS_Cmd_Control.cxx:957-962 | every step keeps the producer's wait flag true exactly while it waits, and the queue bounded by where it is |
| DispatchInvariants.StepKeepsHistory | libopenss-cli/SS_Cmd_Control.cxx:802-807 | every step keeps: dispatched then queued commands are all submitted ones in order without the purged, which have all failed or been aborted |
| DispatchInvariants.StepKeepsInv | libopenss-cli/SS_Cmd_Control.cxx:845-976 | all the invariants together are kept by every step |
| DispatchTheorems.NoStrandedWork | libopenss-cli/SS_Cmd_Control.cxx:859-874 | in every reachable state queued work implies a worker that is not asleep and whose next look for work, if made now, dispatches the head of the queue |
| DispatchTheorems.WaitReturnsIffSolo | libopenss-cli/SS_Cmd_Control.cxx:762-769 | the quiescence wait returns exactly when nobody else holds a command or is about to look for one |
| DispatchTheorems.NoLostQuiescence | libopenss-cli/SS_Cmd_Control.cxx:861-875 | in every reachable state a worker blocked unsignalled in the wait has another worker, not free, to wait for |
| DispatchTheorems.RunKeepsExclusion | libopenss-cli/SS_Cmd_Control.cxx:747-785 | from a state that is not breakable, no run dispatches anything until the lone worker releases or ends |
| DispatchTheorems.Intrude | libopenss-cli/SS_Cmd_Control.cxx:1018-1036 | from every breakable state there is a run in which another worker gets a command beside the lone one |
| DispatchTheorems.ExclusionIff | libopenss-cli/SS_Cmd_Control.cxx:747-785 | after the wait returns, exclusion holds in every continuation if and only if the state is not breakable |
| DispatchTheorems.OneUnreleased | libopenss-cli/SS_Cmd_Control.cxx:891-898 | with one release per command, at most one command is unreleased, its ticket is Cmds_Executed, and the gate is closed exactly while it exists |
| DispatchTheorems.Exclusion | libopenss-cli/SS_Cmd_Control.cxx:747-785 | in every run with one release per command, a command that has returned from the wait unreleased stays alone until it releases or ends |
| DispatchTheorems.Serial | libopenss-cli/SS_Cmd_Control.cxx:964-968 | without early release at most one command is in hand at any time, and a producer roused from a full drain finds none (the exact condition with early release is DispatchAwaited.RousedTooEarlyIff) |
| DispatchTheorems.RousedTooEarly | libopenss-cli/SS_Cmd_Control.cxx:957-962 | with one early release there is a run in which the producer is roused while the command it waited for is in hand |
| DispatchTheorems.Conservation | libopenss-cli/SS_Cmd_Control.cxx:891-898 | every submitted command is in exactly one of waiting, dispatched and purged, order is submission order, and tickets are dispatch positions |
| DispatchTheorems.HistoryGrows | libopenss-cli/CommandObject.cxx:275-293 | runs only extend the dispatch history and the purged set, and a command in error or aborted stays as it is |
| DispatchTheorems.Bounds | libopenss-cli/SS_Cmd_Control.cxx:1085-1092 | counters and limit in order, and never more than 2*MAX+1 commands queued, 2*MAX while the producer reads |
| DispatchTheorems.StrandedForever | libopenss-cli/SS_Cmd_Control.cxx:1059-1092 | a producer that waits with nothing queued and nothing in hand does so in every continuation |
| DispatchTheorems.OutsidePurgeCanStrand | libopenss-cli/Commander.cxx:2474-2484 | for every limit some run from the start ends in a stranded producer |
| DispatchTheorems.SecondReleaseBreaksExclusion | libopenss-cli/SS_Cmd_Execution.cxx:2175-2222 | for every limit of two or more, a run with a second release in which a third command joins a waiter that had returned unreleased |
| DispatchProgress.MutualWaitIsForever | libopenss-cli/SS_Cmd_Control.cxx:762-769 | two workers inside the quiescence wait stay there in every continuation |
| DispatchProgress.PlainRunIsBounded | libopenss-cli/SS_Cmd_Control.cxx:855-971 | every run of the workers' own steps is no longer than a number read off the state, and makes no mutual wait |
| DispatchProgress.RestIsDrained | libopenss-cli/SS_Cmd_Control.cxx:855-971 | without a mutual wait, workers that can take no step have finished everything queued and in hand |
| DispatchProgress.EveryScheduleDrainsIff | libopenss-cli/SS_Cmd_Control.cxx:747-785 | every schedule of the workers' own steps ends, and every one that cannot go on has finished everything, if and only if no two workers are inside the wait |
| DispatchProgress.CanDrainIff | libopenss-cli/SS_Cmd_Control.cxx:747-785 | whatever steps are allowed, the commands at hand can all be finished if and only if no two workers are inside the wait |
| DispatchProgress.AlwaysDrains | libopenss-cli/SS_Cmd_Control.cxx:747-785 | if commands wait only before they release, and release once, then from every reachable state every schedule of the workers' own steps ends, with everything finished and the producer not left waiting |
| DispatchProgress.CanRouseIff | libopenss-cli/SS_Cmd_Control.cxx:957-962 | a waiting producer can still be roused if and only if it is not stranded and there is no mutual wait, or somebody acts, or somebody is about to; without a mutual wait every schedule rouses it exactly when it is not stranded |
| DispatchProgress.OutsidePurgeLeavesHopeIff | libopenss-cli/Commander.cxx:2474-2484 | after a purge from outside a waiting producer can still be roused exactly when a command is in hand and there is no mutual wait or somebody is outside it |
| DispatchProgress.DeadlockHoldsProducer | libopenss-cli/SS_Cmd_Execution.cxx:2175-2222 | for every limit of two or more, a run without an outside purge after which the producer waits in every continuation with its command queued |
| DispatchProgress.WaitAfterReleaseDeadlocks | libopenss-cli/SS_Cmd_Control.cxx:824-843 | for every limit of two or more, a run with single releases that ends in a mutual wait |
| DispatchProgress.SecondReleaseDeadlocks | libopenss-cli/SS_Cmd_Execution.cxx:2175-2222 | for every limit of two or more, a run in which all waits precede releases that ends in a mutual wait, because one command releases twice |
| DispatchAwaited.StepKeepsAwaited | libopenss-cli/SS_Cmd_Control.cxx:1059-1065 | every step keeps: the command a drained producer waits for is queued, purged, or held by the worker with the newest ticket |
| DispatchAwaited.RousedTooEarlyIff | libopenss-cli/SS_Cmd_Control.cxx:957-968 | in every run, when a command's end rouses a producer that waits for its own command, that one is still in hand exactly when it was not purged and the ended one is not the newest |
| DispatchLaws.SubmitCalls | libopenss-cli/SS_Cmd_Control.cxx:1018-1036 | a new command goes last; with the gate open it wakes a sleeper exactly if there is one, and creates a worker exactly if nobody is free and the limit allows it; nobody else moves |
| DispatchLaws.ReleaseWakes | libopenss-cli/SS_Cmd_Control.cxx:833-839 | an early release wakes a sleeper exactly if there is one and work for it |
| DispatchLaws.LookTakesIff | libopenss-cli/SS_Cmd_Control.cxx:859-898 | a worker that looks takes the head of the queue exactly if there is one and the gate is open or opened by the end of the newest command; otherwise it sleeps |
| DispatchLaws.WaiterIsNotifiedIff | libopenss-cli/SS_Cmd_Control.cxx:863-869 | a worker blocked in the quiescence wait is signalled by exactly the step that leaves it alone |
| DispatchLaws.WaitFlagInTime | libopenss-cli/SS_Cmd_Control.cxx:762-769 | in every run Cmd_Waiting is set exactly while somebody is inside the quiescence wait |
| DispatchLaws.PurgeAborts | libopenss-cli/SS_Cmd_Control.cxx:802-807 | a purge makes every queued command aborted unless it is in error, and changes no other status |
| DispatchLaws.ParksIff | libopenss-cli/SS_Cmd_Control.cxx:1059-1092 | the producer stops exactly for a command that must finish first, and when more than twice the limit is queued; it then waits for an empty queue, or for the limit |
| DispatchLaws.RousedIff | libopenss-cli/SS_Cmd_Control.cxx:957-962 | the end of a command rouses a waiting producer exactly if no more is queued than it waits for |
| DispatchLaws.RousedInTime | libopenss-cli/SS_Cmd_Control.cxx:957-962 | in every run: exactly when the queue is empty, if it waits for its command, and exactly when at most the limit is queued, if it stopped for the backlog |
| DispatchLaws.BacklogFallsToLimit | libopenss-cli/SS_Cmd_Control.cxx:1085-1092 | without early release and purge, a producer that stopped for the backlog is roused with exactly the limit queued |
| CommandPool.CommandPool.ExecuteCmd | libopenss-cli/SS_Cmd_Control.cxx:993-1097 | the submission step; keeps the invariants, stops the producer exactly for a drain or more than 2*MAX queued, and with the gate open and a sleeper somebody is on the way |
| CommandPool.CommandPool.LookForWork | libopenss-cli/SS_Cmd_Control.cxx:855-900 | goes to sleep, signalling a waiter if it is the last, or takes the head of the queue with the next ticket and closes the gate |
| CommandPool.CommandPool.WorkerStarts | libopenss-cli/SS_Cmd_Control.cxx:851-900 | a new worker's first region is the Begin step and keeps the invariants |
| CommandPool.CommandPool.WorkerResumes | libopenss-cli/SS_Cmd_Control.cxx:874-900 | a woken worker's region is the Resume step and keeps the invariants |
| CommandPool.CommandPool.TestStatus | libopenss-cli/SS_Cmd_Control.cxx:902-907 | the command runs exactly if it is not in error or aborted |
| CommandPool.CommandPool.SafeToDoNextCmd | libopenss-cli/SS_Cmd_Control.cxx:824-843 | the Release step; keeps the invariants, and queued work with a sleeper has somebody on the way afterwards |
| CommandPool.CommandPool.TestQuiescence | libopenss-cli/SS_Cmd_Control.cxx:762-769 | one pass of the wait loop: block with Cmd_Waiting set, or return |
| CommandPool.CommandPool.WaitForPreviousCmds | libopenss-cli/SS_Cmd_Control.cxx:747-785 | returns running exactly if every other worker is asleep or woken, and keeps the invariants |
| CommandPool.CommandPool.WaiterResumes | libopenss-cli/SS_Cmd_Control.cxx:766-769 | a signalled waiter returns running exactly if every other worker is free |
| CommandPool.CommandPool.CommandDone | libopenss-cli/SS_Cmd_Control.cxx:909-971 | the Finish step; keeps the invariants, rouses a waiting producer exactly if no more is queued than it waits for, and never leaves one waiting with nothing queued or in hand that was not before |
| CommandPool.CommandPool.ProducerResumes | libopenss-cli/SS_Cmd_Control.cxx:1085-1097 | a roused producer finds no more commands queued than it waited for, at most MAX |
| CommandPool.CommandPool.PurgeDispatchQueue | libopenss-cli/SS_Cmd_Control.cxx:787-822 | empties the queue in every reachable state; each command that was queued is afterwards purged and aborted, unless it was in error, and no other status changes |
| CommandPool.CommandPool.MarkStatus | libopenss-cli/CommandObject.cxx:275-293 | changes one status, never out of error or aborted |
| CommandPool.QueueNamesCommands | libopenss-cli/SS_Cmd_Control.cxx:1019 | in every state with the history invariant the queue names only submitted commands, as the purge assumes |
| InputList.InputSource.OfObject | libopenss-cli/Commander.cxx:183-198 | a source holding one line |
| InputList.InputSource.OfFile | libopenss-cli/Commander.cxx:159-182 | a source holding the strings of a file before the first empty one |
| InputList.InputSource.OfBuffer | libopenss-cli/Commander.cxx:199-214 | a source holding a caller's text up to its first NUL, nothing if that is empty |
| InputList.InputSource.GetNextLine | libopenss-cli/Commander.cxx:244-287 | returns and removes the first line the source has left, and nothing exactly when it has none |
| InputList.InputSource.Refill | libopenss-cli/Commander.cxx:246-272 | after a read of the file the buffer holds its next line, and an empty one means there was none |
| InputList.InputWindow.AppendInputSource | libopenss-cli/Commander.cxx:598-617 | the flat sequence of lines grows by the source's lines at the end, however long the chain is |
| InputList.InputWindow.LinkLast | libopenss-cli/Commander.cxx:607-611 | the walk to the end links the source there: the chain is the old one and then the source |
| InputList.InputWindow.PushInputSource | libopenss-cli/Commander.cxx:620-634 | the flat sequence grows by the source's lines at the front |
| InputList.InputWindow.PopInputSource | libopenss-cli/Commander.cxx:769-777 | the first source and its lines leave, the rest stays |
| InputList.InputWindow.ReadCommand | libopenss-cli/Commander.cxx:779-828 | returns and removes the head of the flat sequence, nothing exactly when it is empty, after dropping any number of exhausted sources |
| InputSweep.SweepVisitsEachOnce | libopenss-cli/Commander.cxx:2660-2687 | with n distinct windows, n calls in a row choose each window exactly once and return to the first |
| InputSweep.WindowList.SelectInputWindow | libopenss-cli/Commander.cxx:2640-2699 | the next older window with wrap-around, the newest if the last one is gone, and the last one itself inside a complex statement |
| InputSweep.SelectGoesBack | libopenss-cli/Commander.cxx:2662-2680 | the window chosen is the one added just before the last one, or the newest after the oldest |
| ReaderHandshake.StepKeepsTouring | libopenss-cli/Commander.cxx:2752-2768 | every step keeps the windows tried a prefix of one tour, complete when the sweep returns to its first window and not before |
| ReaderHandshake.ProducerKeepsWatch | libopenss-cli/Commander.cxx:574-594 | no step of a producer leaves input behind a sleeping or locked reader without a producer that has yet to signal |
| ReaderHandshake.StepKeepsInv | libopenss-cli/Commander.cxx:2747-2858 | the whole handshake invariant is kept by every step, spurious wake-ups included |
| ReaderHandshake.NoLostInput | libopenss-cli/Commander.cxx:2773-2796 | in every run, while the reader sleeps the flag is set and every swept window with input has a pending producer, two of whose steps wake the reader |
| ReaderHandshake.ComplexReadsOneWindow | libopenss-cli/Commander.cxx:2634-2639 | inside a complex statement a read never takes a line from another window |
| ReaderHandshake.QuietReaderReturns | libopenss-cli/Commander.cxx:2754-2858 | with producers quiet, a reader that is not asleep ends with a line, and does not sleep, whenever a swept window holds a command |
| ReaderHandshake.WokenReaderReturns | libopenss-cli/Commander.cxx:574-594 | the signal of the last busy producer makes a sleeping reader return a line when a swept window holds a command |
| InputDelivery.LinesKeepOrder | libopenss-cli/Commander.cxx:598-617 | in every run of appends, the lines read from a window and those still waiting are, in order, what was there and what was added |
| InputDelivery.LinesAreConserved | libopenss-cli/Commander.cxx:598-634 | with lines pushed in front as well, no line is lost or read twice |
| InputDelivery.ReturnsTheCommands | libopenss-cli/Commander.cxx:2845-2858 | in every run the reader returns exactly the commands among the lines it reads, in the order it reads them |
| InputFairness.BoundedBypass | libopenss-cli/Commander.cxx:2634-2680 | while a window holds input and none of it is read, fewer calls of the reader begin than there are choices up to that window, at most the number of windows |
| InputFairness.RunKeepsFlag | libopenss-cli/Commander.cxx:2810-2858 | unless a wait ended by itself, the flag is set exactly while the reader sweeps under the lock or sleeps |
| InputFairness.ProducersCallInTime | libopenss-cli/Commander.cxx:574-594 | in every such run a producer goes for the lock exactly if the reader sweeps under it or sleeps |
| CommandReader.CommandReader.constructor | libopenss-cli/Commander.cxx:118-125 | the initial state of the handshake, which satisfies its invariant |
| CommandReader.CommandReader.BeginReadLine | libopenss-cli/Commander.cxx:2742-2746 | entering the reader is the Call step |
| CommandReader.CommandReader.ReadWindow | libopenss-cli/Commander.cxx:2754-2768 | the Read step; keeps the invariant, and a sweep that ends has tried every window it had to |
| CommandReader.CommandReader.WaitForInput | libopenss-cli/Commander.cxx:2775-2792 | once the reader sleeps, every window of the sweep is empty or some producer's own next steps wake it |
| CommandReader.CommandReader.ReturnLine | libopenss-cli/Commander.cxx:2854-2858 | returns the line found, with flag and lock released only if the lock was held |
| CommandReader.CommandReader.AddInput | libopenss-cli/Commander.cxx:598-634 | the lines are added, none is lost, and if the reader sleeps some producer's own next steps wake it |
| CommandReader.CommandReader.TestLooking | libopenss-cli/Commander.cxx:578 | the unlocked test: go on to the lock exactly when the flag is set |
| CommandReader.CommandReader.WakeUpReader | libopenss-cli/Commander.cxx:580-593 | a sleeping reader is signalled, and the invariant is kept |
| HeaderPrint.FindBreak | libopenss-cli/CommandObject.cxx:394-430 | the loops of Break_At compute the break that the lemmas are about |
| HeaderPrint.CountPartitions | libopenss-cli/CommandObject.cxx:444-457 | one for text that fits, otherwise the number of slices that cut it up |
| HeaderWrap.FittingText | libopenss-cli/CommandObject.cxx:403-429 | text that fits the width after its leading blanks is never broken |
| HeaderWrap.NextScanMonotone | libopenss-cli/CommandObject.cxx:394-430 | from a later position that is not blank, the next break is no earlier |
| HeaderWrap.ForcedIsEarliest | libopenss-cli/CommandObject.cxx:424 | a forced break is no later than any break made from further on |
| HeaderWrap.CutsAtMostCount | libopenss-cli/CommandObject.cxx:448-455 | starting no earlier, the printing loop makes no more fragments than the counting loop |
| HeaderWrap.SecondPassFits | libopenss-cli/CommandObject.cxx:517-535 | for every text and width the printing pass needs no more rows than the counting pass counted |
| HeaderWrap.FragmentShape | libopenss-cli/CommandObject.cxx:414-425 | a fragment is one longer than the width exactly when its first word does not fit or is one character whose successor does not fit; otherwise it fits and ends with a word |
| HeaderWrap.CutsCover | libopenss-cli/CommandObject.cxx:515-532 | fragments are consecutive slices to the end of the text, with only blanks in the gaps, and no longer than the width plus one |
| HeaderWrap.WrappingKeepsContent | libopenss-cli/CommandObject.cxx:515-532 | the fragments together have exactly the characters of the text that are not blank, in order |
| HeaderRows.CountIsNumberOfSlices | libopenss-cli/CommandObject.cxx:448-455 | what is counted are non-empty consecutive slices that cut up the whole text |
| HeaderRows.BreakFromBlanks | libopenss-cli/CommandObject.cxx:394-430 | from blanks the counting loop breaks where the printing loop does, before a word that does not fit, or at the width from the blanks after a single character |
| HeaderRows.FragmentIsGreedy | libopenss-cli/CommandObject.cxx:414-427 | a fragment whose break is not forced takes as many words as fit |
| HeaderRows.PassesAgree | libopenss-cli/CommandObject.cxx:444-535 | the passes agree if no forced word follows skipped blanks, and the first counts too many if the first such word does not fit |
| HeaderRows.NoneForcedIsUnforced | libopenss-cli/CommandObject.cxx:515-532 | the condition holds for every text in which no word after a blank is forced, so for text without blanks |
| HeaderRows.FittingWordsCanDisagree | libopenss-cli/CommandObject.cxx:394-457 | a text whose words all fit and on which the passes differ |
| HeaderPrint.MaxBreaks | libopenss-cli/CommandObject.cxx:485-499 | the row count is the largest over the headers that are not empty, and zero exactly when all are empty |
| HeaderPrint.NextFragment | libopenss-cli/CommandObject.cxx:519-532 | one round of the printing loop yields its first fragment and leaves the rest |
| HeaderPrint.AddColumn | libopenss-cli/CommandObject.cxx:507-536 | within the rows counted, every row gets exactly one entry of the column, fragments first and empty strings after |
| HeaderPrint.SecondPass | libopenss-cli/CommandObject.cxx:504-543 | every row has exactly one entry per column, the last header on the first row only |
| HeaderPrint.PrintHeader | libopenss-cli/CommandObject.cxx:479-559 | headers as given, rewritten rows, or an index into an empty row vector, the last exactly when all headers but the last are empty; rewritten rows show each header's text in its column, in cells at most one too wide, the last header on the first row only; the last row is not blank where the passes agree |
| ThreadSets.LessTotal | libopenss-cli/SS_ThreadInfo.cxx:39-45 | of any two descriptions exactly one is less, or they are equal |
| ThreadSets.LessTransitive | libopenss-cli/SS_ThreadInfo.cxx:39-45 | the order is transitive |
| ThreadSets.SortedSorts | libopenss-cli/SS_ThreadInfo.cxx:116-117 | the sorted sequence is in order and a permutation of its input |
| ThreadSets.ScanOneAdds | libopenss-cli/SS_ThreadInfo.cxx:156-206 | one more input adds exactly itself to what the ranges list, unless nothing is merged and it repeats the one before |
| ThreadSets.CompressionIsExact | libopenss-cli/SS_ThreadInfo.cxx:111-210 | the ranges list the sorted input exactly, if and only if it is not the case that nothing is merged and an input repeats; always the same set |
| ThreadSets.CompressionIsTight | libopenss-cli/SS_ThreadInfo.cxx:156-206 | for distinct input no two neighbouring ranges of an entry could be merged |
| ThreadMerge.MergedField | libopenss-cli/SS_ThreadInfo.cxx:124-140 | ranks are merged if two inputs have one, otherwise thread ids, otherwise process ids; hosts count if two are named |
| ThreadMerge.EntriesAreApart | libopenss-cli/SS_ThreadInfo.cxx:156-206 | whatever the inputs, no two neighbouring entries agree on all but the merged field |
| ThreadMerge.ThreadsOfOneProcess | libopenss-cli/SS_ThreadInfo.cxx:111-210 | threads that agree on the rest make one entry that lists exactly their thread ids |
| ThreadMerge.RanksOfOneThread | libopenss-cli/SS_ThreadInfo.cxx:111-210 | ranks that agree on the rest make one entry that lists exactly the ranks |
| ThreadMerge.PlainProcesses | libopenss-cli/SS_ThreadInfo.cxx:111-210 | processes with neither that agree on the rest make one entry that lists exactly their ids |
| ThreadMerge.MissingIdsCount | libopenss-cli/SS_ThreadInfo.cxx:76-89 | processes described with -1 for a missing thread id get an entry each |
| ThreadSets.ChooseField | libopenss-cli/SS_ThreadInfo.cxx:124-140 | the one field merged, in agreement with MergedField, and whether hosts count |
| ThreadSets.CompressThreadInfo | libopenss-cli/SS_ThreadInfo.cxx:111-210 | leaves its input sorted in place and returns the ranges that the lemmas are about |
| ThreadFilter.ListsAreIndependent | libopenss-cli/SS_Cmd_Execution.cxx:724-776 | a target includes what each of its four lists alone includes, and an empty list asks for nothing |
| ThreadFilter.OneListSelects | libopenss-cli/SS_Cmd_Execution.cxx:714-776 | a target with one list selects exactly the threads that some range of it contains, and those without such an id |
| ThreadFilter.FewerListsSelectMore | libopenss-cli/SS_Cmd_Execution.cxx:648-656 | dropping a list or adding a target never loses a thread |
| ThreadFilter.SpansAreInclusive | libopenss-cli/SS_Cmd_Execution.cxx:531-607 | a span has both its ends and nothing outside, and from a name to itself it is that name |
| ThreadFilter.AnyNumWithin | libopenss-cli/SS_Cmd_Execution.cxx:531-579 | some range of the list contains the number |
| ThreadFilter.AnyHostWithin | libopenss-cli/SS_Cmd_Execution.cxx:591-607 | some range of the list contains the host name, in canonical form |
| ThreadFilter.IncludeThread | libopenss-cli/SS_Cmd_Execution.cxx:705-779 | a target includes a thread exactly if each list it gives matches, a thread without the id passing |
| ThreadFilter.FilterThreadGroup | libopenss-cli/SS_Cmd_Execution.cxx:667-797 | keeps exactly the threads that some target includes, all without targets or lists; with a single list exactly those in it, and those without such an id |
| ThreadFilter.BuildTargets | libopenss-cli/SS_Compare.cxx:2767-2798 | one target for each entry, a point for a range of one value and a range otherwise |
| ThreadFilter.TargetMatchesAlike | libopenss-cli/SS_Compare.cxx:2767-2798 | an entry's target includes a thread exactly when a thread the entry lists agrees with it |
| ThreadFilter.TargetsSelectAlike | libopenss-cli/SS_Compare.cxx:2762-2803 | the target list of a compressed sequence selects exactly the threads that some input agrees with |
| ThreadFilter.SelectCluster | libopenss-cli/SS_Compare.cxx:2762-2803 | compress, build targets, filter: keeps the threads selected by the cluster's targets |
| ThreadFilter.ClusterTargetsSelect | libopenss-cli/SS_Compare.cxx:2762-2803 | a cluster's targets select exactly the threads that agree with a member on host, process and the ids they have |
| ThreadFilter.RoundTripIff | libopenss-cli/SS_Compare.cxx:2762-2803 | filtering gives the cluster back if and only if no thread outside it agrees with one inside |
| ThreadFilter.FullIdsRoundTrip | libopenss-cli/SS_Cmd_Execution.cxx:667-797 | threads that all have both ids and differ in their descriptions always come back exactly |
| ThreadFilter.SerialProcessesAreListedSingly | libopenss-cli/SS_Compare.cxx:2762-2803 | a cluster of processes without thread ids gets one target for each, never a range of process ids |
| ThreadFilter.SerialThreadIsShadowed | libopenss-cli/SS_Cmd_Execution.cxx:724-736 | a thread without a rank is selected along with a ranked one of the same process |
| ViewJoin.MasterIsFirstOccurrences | libopenss-cli/SS_Compare.cxx:675-767 | the master holds every key once, in order of first appearance over all views |
| ViewJoin.MergedIsJoined | libopenss-cli/SS_Compare.cxx:873-935 | row by row the merge has the cells of the join, each view in its own block |
| ViewJoin.MergeIsOuterJoinIff | libopenss-cli/SS_Compare.cxx:659-803 | the merged table is the full outer join if and only if the first view's keys are distinct |
| ViewJoin.RowsAreEquallyWide | libopenss-cli/SS_Compare.cxx:873-939 | every merged row is as wide as all views together |
| ViewCells.MergedShowsCells | libopenss-cli/SS_Compare.cxx:873-935 | with distinct keys in the first view, each value stands in the row of its key, in its view's columns, at its own column, and everything else is a place holder |
| ViewCells.MergedShowsRows | libopenss-cli/SS_Compare.cxx:873-935 | whatever the keys, the first view's rows come first, in order, with their values; a later view's values stand on the last row of their key, place holders everywhere else |
| ViewCells.MergedShowsKeys | libopenss-cli/SS_Compare.cxx:675-767 | every key of every view has exactly one row, and of two rows the upper one's key appears first |
| ViewCells.PickedEntry | libopenss-cli/SS_Compare.cxx:766-776 | of entries with the same key in one view the first counts, or with less restrictive comparisons the last |
| ViewMerge.MasterIndex | libopenss-cli/SS_Compare.cxx:744-762 | finds a key's last index or appends the key, and keeps the map faithful to the vector |
| ViewMerge.InitMaster | libopenss-cli/SS_Compare.cxx:675-692 | the master starts with the first view's keys in order |
| ViewMerge.AddView | libopenss-cli/SS_Compare.cxx:722-778 | extends the master by unseen keys, maps each row index to the data the view contributes there, and reports a repeated key exactly when there is one and the restriction is on |
| ViewMerge.BuildMaps | libopenss-cli/SS_Compare.cxx:675-803 | the maps of all views still hold after later views extended the master |
| ViewMerge.EmitRow | libopenss-cli/SS_Compare.cxx:873-939 | one output row, the first view's rows being read in step with the master |
| ViewMerge.Merge | libopenss-cli/SS_Compare.cxx:659-939 | the loops together produce the merged table, whose cells and keys stand as ViewCells says, and report a repeat exactly when some later view has one |
| SampleDeviation.SpreadExpands | libopenss-cli/SS_CommandResult.cxx:250 | the squared distances from any point, from the sum, the sum of squares and the count |
| SampleDeviation.StdDevIsSampleDeviation | libopenss-cli/SS_CommandResult.cxx:162-258 | for any two or more samples there is a result, the root of the sample variance about the mean, which is never negative and zero exactly for equal samples |
| SampleDeviation.DeviationOfDurations | libopenss-cli/SS_CommandResult.cxx:184-258 | totals of whole durations give a duration, the root of their sample variance |
| SampleDeviation.DeviationOfIntervals | libopenss-cli/SS_CommandResult.cxx:184-258 | totals of intervals give an interval |
| SampleDeviation.DeviationOfIntegers | libopenss-cli/SS_CommandResult.cxx:184-258 | totals of integers give a float |
| SampleDeviation.DeviationOfFloats | libopenss-cli/SS_CommandResult.cxx:184-258 | totals of floats give a float |
| SampleDeviation.DeviationOfUints | libopenss-cli/SS_CommandResult.cxx:184-258 | totals of unsigned integers give a float |
| SampleDeviation.StdDevExistsIff | libopenss-cli/SS_CommandResult.cxx:246-258 | for any inputs there is a result exactly when C > 1 and C*B >= A*A |
| IntervalSlices.Offset | libopenss-cli/SS_Cmd_Execution.cxx:905-940 | the fall-through switches scale to nanoseconds |
| IntervalSlices.Bounds | libopenss-cli/SS_Cmd_Execution.cxx:877-940 | start and end of one interval, 100 percent being the end exactly |
| IntervalSlices.ParseIntervalSpecification | libopenss-cli/SS_Cmd_Execution.cxx:828-967 | a soft error exactly for a bad unit or a slice that collapses, and then the whole of time; otherwise one slice for each entry, none empty |
| IntervalSlices.UnitNames | libopenss-cli/SS_Cmd_Execution.cxx:845-870 | the five unit names in either letter case, nothing else, and milliseconds without one |
| IntervalSlices.UnitsAreWorth | libopenss-cli/SS_Cmd_Execution.cxx:905-922 | a second is a thousand milliseconds, and so on down to one nanosecond |
| IntervalSlices.FractionsAreCut | libopenss-cli/SS_Cmd_Execution.cxx:913-940 | fractional offsets scale alike and lose less than a nanosecond |
| IntervalSlices.NegativeOffsetsMirror | libopenss-cli/SS_Cmd_Execution.cxx:913-940 | offsets before the beginning are cut off toward it as those after it are |
| IntervalSlices.PercentageIsPortion | libopenss-cli/SS_Cmd_Execution.cxx:897-904 | a percentage is that part of the span, less than a nanosecond being lost, and 100 is the end exactly |
| IntervalSlices.CutsTile | libopenss-cli/SS_Cmd_Execution.cxx:961 | slices between rising cuts, the last one closed, hold every time exactly once and no other |
| IntervalSlices.PercentagesTileIff | libopenss-cli/SS_Cmd_Execution.cxx:882-961 | adjacent percentages from 0 to 100 tile the experiment if and only if no slice collapses |
| IntervalSlices.HundredIsExact | libopenss-cli/SS_Cmd_Execution.cxx:897-904 | every list of adjacent rising whole percentages tiles the experiment if and only if its span is at least 100 |

## Left out

- Dispatcher: shut-down, failure to create a thread, and a record command run on the main thread, which is not a counted worker; `OPENSS_MAX_ASYNC_COMMANDS` is at least one and does not change; one producer, woken only by a signal.
- CommandPool.CommandPool.MarkStatus: does not model the status passed on to the input line, because it only feeds the display.
- A running command is taken to be able to end by itself, although it can block on an experiment that another command has locked (`SS_Exp.hxx:575-580`); what is proved about finishing rests on that.
- Weak memory, and spurious wake-ups of the dispatcher; the reader's spurious wake-ups are modelled.
- InputList.InputSource.GetNextLine: does not model a line too long for the buffer, nor call-backs and recording; a file is the list of strings its reads yield.
- InputList.InputWindow.ReadCommand: does not model the unlocked test for an empty list before the lock, where the line object is not yet set; the test is one atomic look at the list, as in the handshake.
- ReaderHandshake.NoLostInput: the windows do not change while the program runs, and some window is asynchronous, so that the reader waits instead of ending the input; the assertion that a complex statement's window can still receive input is taken to pass.
- InputSweep.WindowList.SelectInputWindow: requires a non-empty list, which the code dereferences and then asserts.
- HeaderPrint.PrintHeader: does not model negative column widths, for which the scan does not advance, nor headers that are not strings, which read as empty; printing itself is left out.
- ThreadSets.CompressThreadInfo: starts from an empty output vector, as its only caller does; with entries in it the source goes on from the first one. The sorting algorithm is modelled by its effect; integer widths are not modelled.
- ThreadFilter.FilterThreadGroup: returns the kept threads instead of overwriting its argument, does not model the empty group, whose first thread the source dereferences, or database errors, which empty the result.
- ThreadFilter.SelectCluster: does not model the file list of a target, which the filter ignores.
- ViewMerge.Merge: requires rows as wide as their headers announce, which the source asserts for the first view only; keys are compared by a strict total order; place holders carry no type, and the search for those types, which walks past the end of a view that has entries and no rows (`SS_Compare.cxx:820-841`), is left out.
- ViewMerge.EmitRow: does not model the difference column.
- The end lines and the error for views without columns in the comparison.
- SampleDeviation.StdDevIsSampleDeviation: is over exact reals, so rounding and the square root itself are not modelled; the result is what stands under the root.
- IntervalSlices.ParseIntervalSpecification: uses exact reals for fractions and unbounded integers for times.
- `SS_Watcher`, rank-range texts, saved views, option tables, help, list reports and metric conversions.
