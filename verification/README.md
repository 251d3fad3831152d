# Verified model of the Simo simulation core

Simo is a discrete-event simulation library in C++. This project models, in Dafny 4.11, the parts of
it whose correctness is hardest to see from one function body, and proves what they promise.

- **The scheduler.** `BucketIndex`, `HeapModel`, `HeapRuns` and `RadixHeap` cover the radix heap of
  pending times: sixty-five buckets, a bucket index computed from an exclusive or, cached minima and the
  redistribution inside `pop`. `Agenda` and `AgendaRuns` are a reference scheduler that looks at every
  pending time and knows nothing of heaps. `Machine` is the event loop on heap and agenda as values,
  whatever order the heap is in, and `MachineRuns` says exactly when its runs are those of the reference,
  and what holds over any sequence of requests and runs. `Context` is the class with the task map and the
  heap changed in place; each method is proved to do what the machine does.
- **Two clients of the scheduler.** `Ports`, `PingPong` and `PingPongRuns` run the ping and pong modules
  over one-slot ports, end to end through the heap. `Statistics`, `Collector` and `CollectorRuns` prove
  that a collector reports what was counted between its two scheduled tasks.
- **The parameter trie.** `TrieModel` states its operations on lists of name segments; `ParameterTrie` is
  the tree of nodes changed in place.
- **The string codecs of the vendored command-line header.** `StringEscape`, `BinaryEscape` and
  `OptionResults`: what the printer escapes, the parser and the option give back. `EscapeLaws`,
  `BinaryLaws` and `OptionLaws` pin each of them down on literal characters, so that no other codec fits.

A task is data. What it does is an arbitrary function from the task, the time and the user state to a new
user state and the calls to `schedule_at` it makes, in order. The assertions of the source (a horizon
after the current time, a target after the current time) are preconditions. A time addition that wraps
would trip the second of them, so no run that meets the preconditions contains one.

## Where the code and its documentation differ

- `Context.h` lines 50-54 allow scheduling for any future time between runs, and the code asserts no more.
  A heap that gets a value below its head is out of order, and `Contexts.Context.RunAt` departs from the
  reference scheduler exactly when the heap is out of order and something is due. The condition to check
  before the request is in `MachineRuns.BetweenRunsIff` (for every horizon) and `MachineRuns.BetweenRunsOnce`
  (for one); `ContextExamples.MissedEvent` is a concrete run. A run ends, and map and heap agree, in any case.
- `Context.h` lines 82-83 promise that `run` ends at the current time plus the delta. That holds, whatever
  the tasks do, exactly when something is pending for that time or later: `AgendaRuns.ClockAtHorizonIff`.
  Otherwise the clock may stay at the last tick: `ContextExamples.ClockStaysAtThree`.
- A visit of a parameter trie names parameters in a form that does not always lead back to them:
  `TrieModel.VisitNameIff`. Composing a subtree lookup with a lookup is not always the joined lookup:
  `TrieModel.SubtrieFindIff`.
- A trie copy of an unset parameter counts as set and loses its validator (`Parameter.h` lines 132-134), so a
  copy finds what the original finds exactly where that is set and has no validator (`TrieModel.CopyFindIff`),
  and always passes validation (`TrieModel.CopyValidates`); `TrieModel.CopyOfUnset` is a trie that does not.
- Without `force`, binary escaping returns a printable string that already looks escaped as it is, and
  extraction then strips it: `BinaryEscape.BinaryRoundTripIff`, with `BinaryEscape.LooksEscapedExample`.

## Model

| member | source | states |
|---|---|---|
| BucketIndex.XorIsMachineXor | include/Simo/core/internal/RadixHeap.h:46 | the exclusive or on numbers used in the model is the one on 64-bit machine words |
| BucketIndex.IndexIsDistance | include/Simo/core/internal/RadixHeap.h:45-49 | sixty-four minus the leading zeroes of the exclusive or is the number of halvings after which the two words meet |
| BucketIndex.ShrDivides | include/Simo/core/internal/RadixHeap.h:45-49 | the right shift used for the index divides by a power of two |
| BucketIndex.IndexIsLeastAgreement | include/Simo/core/internal/RadixHeap.h:45-49 | two words agree after a right shift by k exactly when their index is at most k |
| BucketIndex.IndexZeroIff | include/Simo/core/internal/RadixHeap.h:45-49 | bucket zero holds the head and its copies, and nothing else |
| BucketIndex.IndexUltrametric | include/Simo/core/internal/RadixHeap.h:45-49 | the index is symmetric and never exceeds both legs of a detour |
| BucketIndex.IndexMonotone | include/Simo/core/internal/RadixHeap.h:45-49 | above the head a larger value never has a smaller index |
| BucketIndex.IndexShrinks | include/Simo/core/internal/RadixHeap.h:45-49 | members of one bucket are strictly closer to each other than to the head |
| BucketIndex.IndexStable | include/Simo/core/internal/RadixHeap.h:45-49 | moving the head to a nearer value leaves the index of everything farther unchanged |
| HeapModel.EmptyIsValid | include/Simo/core/internal/RadixHeap.h:27-29 | the constructed heap satisfies the radix invariant and holds nothing |
| HeapModel.PushLaws | src/core/RadixHeap.cc:20-30 | pushing any value, in order or not, keeps the radix invariant, adds one copy of the value and leaves the head in place unless the heap was empty |
| HeapModel.PushKeepsOrderIff | src/core/RadixHeap.cc:20-30 | the head stays the minimum exactly when the heap was empty or the value is no smaller than the head |
| HeapModel.DealFiles | src/core/RadixHeap.cc:45-58 | redistribution sends every value of the bucket strictly lower, the new head and its copies to bucket zero, and refiles nothing else |
| HeapModel.DealKeeps | src/core/RadixHeap.cc:45-58 | redistribution loses and duplicates no value |
| HeapModel.PopLaws | src/core/RadixHeap.cc:34-59 | every pop, whatever was pushed before, keeps the radix invariant and removes exactly one copy of the head |
| HeapModel.PopHeadBelow | src/core/RadixHeap.cc:34-59 | a value not below the old head is not below the new head, even in a heap out of order |
| HeapModel.PopKeepsOrder | src/core/RadixHeap.cc:34-59 | in an ordered heap the next head is the least of what remains |
| HeapModel.PopPaysMoves | src/core/RadixHeap.cc:45-58 | every value a pop moves lowers the weighted bucket sum by at least one |
| RadixHeaps.RadixHeap.constructor | include/Simo/core/internal/RadixHeap.h:27-29 | starts empty with all-ones minima |
| RadixHeaps.RadixHeap.Push | src/core/RadixHeap.cc:20-30 | the in-place push computes the specified heap, with no precondition on the value |
| RadixHeaps.RadixHeap.Peek | src/core/RadixHeap.cc:32 | reads the head of bucket zero |
| RadixHeaps.RadixHeap.Pop | src/core/RadixHeap.cc:34-59 | the in-place pop computes the specified heap and accounts for every move |
| RadixHeaps.RadixHeap.FindNonEmpty | src/core/RadixHeap.cc:46-50 | finds the lowest bucket that holds anything |
| RadixHeaps.RadixHeap.Redistribute | src/core/RadixHeap.cc:51-58 | the loop that writes the buckets while reading one of them deals it out as specified, and never writes the one it reads |
| RadixHeaps.RadixHeap.Size | src/core/RadixHeap.cc:63 | the size field is the number of values in all buckets |
| HeapRuns.MovesArePaidFor | src/core/RadixHeap.cc:20-59 | over any run from any valid heap, moves made plus moves still possible are paid for by sixty-four a push |
| HeapRuns.AmortisedBound | src/core/RadixHeap.cc:20-59 | over any run from the empty heap, all pops together move at most sixty-four values per push |
| HeapRuns.HeadIsLeastIff | src/core/RadixHeap.cc:32 | peek is the minimum exactly when the heap is in order |
| HeapRuns.RunRefinesSorted | src/core/RadixHeap.cc:20-59 | with pushes no smaller than the minimum, any run pops what a sorted bag pops and ends with the same contents |
| HeapRuns.PopsRise | src/core/RadixHeap.cc:20-59 | popped values never decrease until the heap is refilled after running empty |
| Agendas.TickLaws | src/core/Context.cc:63-70 | a tick leaves only strictly later times pending, so the loop makes progress towards the horizon |
| Agendas.ExecuteAllWithout | src/core/Context.cc:66-69 | tasks never touch the list of their own tick, so it may stay in the map while they run |
| Agendas.ExecuteAllBalances | src/core/Context.cc:64-69 | while a tick runs, each time's requests are what ran, then what is left of the tick, then what is pending, in order |
| Agendas.RunKeeps | src/core/Context.cc:47-74 | a run conserves tasks time by time and in order, keeps the trace in time order and only extends it |
| AgendaRuns.RunEnds | src/core/Context.cc:55-73 | events in queue is reported exactly when something later is pending, with the clock at the horizon; stopped exactly when nothing is, with the clock at the last tick |
| AgendaRuns.ClockAfterRun | src/core/Context.cc:55-73 | after a run the clock stands at the horizon exactly when something is left for later or was requested for the horizon itself |
| AgendaRuns.ClockAtHorizonIff | include/Simo/core/Context.h:82-83 | before a run: the clock will reach the horizon whatever the tasks do exactly when something is pending for the horizon or later |
| AgendaRuns.OneTaskAtThree | include/Simo/core/Context.h:82-83 | one task at 3, run to 10, ends at 3 |
| AgendaRuns.RunDoesWhatIsDue | src/core/Context.cc:56-71 | after a run every request due has run, in request order at each time, and nothing else has |
| AgendaRuns.OrderDetermines | src/core/Context.cc:56-71 | a time-ordered list of events is fixed by its tasks at each time |
| AgendaRuns.TraceIsTheOrdering | src/core/Context.cc:56-71 | the trace is the one ordering of all due requests by time and then by request |
| AgendaRuns.TasksConserved | src/core/Context.cc:64-86 | requests ever made are the disjoint union of executed and pending ones, each executed at its own time |
| AgendaRuns.RunSplits | src/core/Context.cc:41-74 | running to one horizon and then to a later one is running to the later one: same trace, agenda, clock and status |
| AgendaRuns.RunReplays | src/core/Context.cc:66-68 | the user state is what executing the trace event by event makes of the first one |
| AgendaRuns.RunLogs | src/core/Context.cc:66-68 | a run files every request of every task it executes, in order, and none of its own |
| Machines.PushAgrees | src/core/Context.cc:79-86 | filing a new time keeps the heap holding each pending time exactly once, and keeps it in order exactly under the stated bound |
| Machines.PopAgrees | src/core/Context.cc:69-70 | clearing a list and popping its time keep map and heap in agreement |
| Machines.PopProgress | src/core/Context.cc:56-71 | a pop either leaves fewer times below the head or moves the head towards the horizon, even out of order |
| Machines.TasksKeepHead | src/core/Context.cc:66-68 | while the tasks of a tick run, their time stays at the head and every push they cause keeps the heap's order as it was |
| Machines.RunTickLaws | src/core/Context.cc:63-70 | one iteration is a tick of the reference scheduler at the head, keeps an ordered heap in order, and makes progress, so the loop ends |
| MachineRuns.OrderedFollows | src/core/Context.cc:56-73 | from a heap in order the loop gives the trace, agenda, clock, user state and status of the reference scheduler, for every task behaviour |
| MachineRuns.LoopStartsAtHead | src/core/Context.cc:56-68 | the first task a run executes is one of the head's time |
| MachineRuns.FollowsIff | src/core/Context.cc:56-73 | a run is that of the reference scheduler exactly when the heap is in order or nothing is due |
| MachineRuns.ScheduleKeepsOrderIff | src/core/Context.cc:76-87 | a request keeps the heap in order exactly when nothing is pending or its target is no earlier than the earliest pending time |
| MachineRuns.BetweenRunsOnce | src/core/Context.cc:76-87 | after a request between runs, a run to a given horizon is that of the reference scheduler exactly when nothing was pending, the target is no earlier than the earliest pending time, or it lies beyond the horizon |
| MachineRuns.BetweenRunsIff | include/Simo/core/Context.h:50-54 | no horizon tells the two apart exactly when nothing was pending or the target is no earlier than the earliest pending time |
| MachineRuns.PostKeeps | src/core/Context.cc:76-87 | a request after everything that ran keeps a reachable state well formed |
| MachineRuns.EveryReachableState | src/core/Context.cc:41-87 | over any sequence of requests and runs, every state has map and heap in agreement, heap in order, tasks conserved and trace in time order exactly as long as each request meets the bound, and each call then does what the reference scheduler does |
| Contexts.LoadedOneMore | src/core/Context.cc:27-35 | ascending pushes during the load all meet the order the heap needs |
| Contexts.SetUpAllKeeps | src/core/Context.cc:21-26 | initialization may schedule for any time and yields a well-formed state |
| Contexts.SetUpAllIsInTurn | src/core/Context.cc:21-26 | modules are set up in order, each with the user state the one before left, and all their requests are made |
| Contexts.Context.constructor | src/core/Context.cc:14 | a new context is empty, at time zero, and reachable |
| Contexts.Context.Initialize | src/core/Context.cc:16-39 | every module is set up even after a failure, success means that each of them succeeded, the heap is loaded in order from the map's keys, the state tells success from failure, and reachability is kept |
| Contexts.Context.ScheduleAt | src/core/Context.cc:76-87 | appends the task at its time and files the time as the machine does, keeps the heap in order exactly under the condition the source does not check, and then keeps reachability |
| Contexts.Context.ScheduleIn | src/core/Context.cc:94-97 | the same relative to the current time |
| Contexts.Context.ExecuteTask | src/core/Context.cc:66-68 | running a task takes map, heap and user state where the machine goes |
| Contexts.Context.RunTickAtHead | src/core/Context.cc:63-70 | one iteration of the loop is one tick of the machine |
| Contexts.Context.MainLoop | src/core/Context.cc:56-73 | the loop ends, in order or not, where the machine's loop ends |
| Contexts.Context.RunAt | src/core/Context.cc:47-74 | initialization if due, refused without running exactly when some module fails; otherwise trace, agenda, clock, user state and status are those of the reference scheduler if and only if the heap was in order or nothing was due |
| Contexts.Context.Run | src/core/Context.cc:41-45 | all of that for the current time plus the delta |
| ContextExamples.MissedEvent | include/Simo/core/Context.h:50-54 | a run to 7 that skips a task scheduled for 5, after a legal call |
| ContextExamples.MissedByReference | include/Simo/core/Context.h:50-54 | the reference scheduler runs that task |
| ContextExamples.ClockStaysAtThree | include/Simo/core/Context.h:82-83 | a run of 10 that ends at 3 |
| Ports.OutPort.Send | include/Simo/port/Port.h:95-106 | fills the slot and reports whether a message was replaced |
| Ports.OutPort.Connect | include/Simo/port/Port.h:343-355 | links both ports, or reports failure and changes nothing |
| Ports.InPort.Peek | include/Simo/port/Port.h:157-163 | sees the connected slot, and nothing when unconnected or empty |
| Ports.InPort.Clear | include/Simo/port/Port.h:165-169 | empties the connected slot and keeps the wiring |
| Ports.BidirectionalPort.Connect | include/Simo/port/Port.h:476-485 | each side reads the slot of the other, and no message in flight is lost |
| PingPong.PingModule.UpdateState | tests/collection/PingPongCollection.cc:82-90 | will send at the start or when a PONG is waiting, takes only a PONG from the slot, reschedules itself; and is the step function of the model |
| PingPong.PingModule.TrySend | tests/collection/PingPongCollection.cc:92-100 | if it is to send: one PING, one more counted, the start over; otherwise nothing changes |
| PingPong.PongModule.UpdateState | tests/collection/PingPongCollection.cc:108-116 | will send when a PING is waiting and takes only that |
| PingPong.PongModule.TrySend | tests/collection/PingPongCollection.cc:118-125 | if it is to send: one PONG and one more counted; otherwise nothing changes |
| PingPong.RunTask | tests/collection/PingPongCollection.cc:64-65 | dispatching a scheduled callback has exactly the effect the scheduler model runs with |
| PingPongRuns.SendTicksCounts | tests/collection/PingPongCollection.cc:65 | the number of send ticks counted is the number of k with half a period plus k periods within the horizon |
| PingPongRuns.UpdatesStep | tests/collection/PingPongCollection.cc:82-116 | the k-th pair of updates, in either module order, hands the turn over with at most one message in flight throughout |
| PingPongRuns.SendsStep | tests/collection/PingPongCollection.cc:92-125 | the k-th pair of sends, in either module order, sends one message from the module whose turn it is |
| PingPongRuns.RunFromUpdate | tests/collection/PingPongCollection.cc:80-126 | from any update tick, a run adds one message per send tick, alternating, with at most one in flight after every task |
| PingPongRuns.Simulate | tests/collection/PingPongCollection.cc:48-126 | on the real scheduler, for any period of at least two, either order and any horizon: ping has sent half the send ticks rounded up, pong half rounded down, never two messages in flight |
| PingPong.ConnectModules | tests/collection/CollectionTest.cc:82 | wiring the two modules' ports connects the system and changes nothing else |
| PingPongRuns.CountedByModules | tests/collection/PingPongCollection.cc:80-126 | the module objects, handed the tasks of such a run in its order, have counted half the send ticks rounded up and half rounded down |
| Statistics.Count.ComputeDelta | src/statistics/Count.cc:70-76 | a fresh counter of the same name holding the difference |
| Statistics.Count.AssignFrom | src/statistics/Count.cc:78-82 | takes name and value over |
| Statistics.StatMapper.Add | include/Simo/statistics/StatMapper.h:35 | registers a counter with a copy of its own that no other counter aliases |
| Statistics.StatMapper.Assign | include/Simo/statistics/StatMapper.h:37-41 | every saved copy takes the present value and no live counter changes |
| Statistics.StatMapper.ComputeDiff | include/Simo/statistics/StatMapper.h:43-49 | counter by counter the change since the last assignment, in fresh counters, leaving both sides alone |
| Statistics.ReportWindows | include/Simo/statistics/StatMapper.h:37-49 | with counters changing arbitrarily, then reported, then assigned, window after window: every report after the first is exactly what changed in its window, and the reports of any counter add up to its last value less the first one saved |
| Statistics.AddUpMore | include/Simo/statistics/StatMapper.h:43-49 | one more window extends the sum to its own end |
| Collector.Collector.Collect | include/Simo/module/core/Collector.h:66-73 | only the first call registers statistics, with their values at that moment |
| Collector.Collector.OpenWindow | include/Simo/module/core/Collector.h:75-80 | the saved values are the present ones |
| Collector.Collector.CloseWindow | include/Simo/module/core/Collector.h:82-92 | for each statistic of each module, in order: a report named after the module and the statistic that holds its value now less the one saved, and nothing but zero when it is the first to look |
| Collector.FlatAt | include/Simo/module/core/Collector.h:66-73 | the statistic at a place of the mapper, and its owner, are those of the module and index that the place counts to |
| Collector.Collector.NameAfterModules | src/statistics/StatMapper.cc:26-32 | puts the name of the right module in front of each reported name and changes no value |
| CollectorRuns.WindowInTrace | include/Simo/module/core/Collector.h:52-53 | a run past the end executes exactly one opening and one closing, in that order, with only application tasks around them |
| CollectorRuns.CountersAddUp | include/Simo/module/core/Collector.h:75-92 | along a trace a counter is its earlier value plus the net changes of the tasks executed in between |
| CollectorRuns.CollectorReportsTheWindow | include/Simo/module/core/Collector.h:66-92 | for every application behaviour and every start before end, the one report holds for each counter the net change made by the tasks executed between opening and closing |
| CollectorRuns.OneWindowFromSetup | include/Simo/module/core/Collector.h:52-53 | initializing one collector among other modules requests exactly one opening and one closing |
| CollectorRuns.PerformTask | include/Simo/module/core/Collector.h:75-92 | the collector object and the counters do, task by task, what the run above assumes |
| CollectorRuns.ReportedByCollector | include/Simo/module/core/Collector.h:66-92 | so the object, handed the tasks of a run in its order, reports that net change |
| TrieModel.FindIsLookup | include/Simo/parameter/ParameterTrie.h:74-83 | finding a name is looking its segments up in a flat map |
| TrieModel.AddThenFind | include/Simo/parameter/ParameterTrie.h:148-161 | adding changes what is found exactly at the names with the same segments |
| TrieModel.JoinSegmentsIff | include/Simo/parameter/ParameterTrie.h:36-44 | segments of a joined name are those of its halves exactly when the first is not empty and does not end in a separator |
| TrieModel.SubtrieFindIff | include/Simo/parameter/ParameterTrie.h:93-103 | for every trie and suffix a lookup below a subtree is the joined lookup, a missing subtree meaning a missing parameter, exactly under that condition |
| TrieModel.OverlayFind | include/Simo/parameter/ParameterTrie.h:51-59 | assignment takes a copy of the source where it has a parameter and keeps the old target elsewhere |
| TrieModel.CopyFindIff | include/Simo/parameter/Parameter.h:132-134 | a copy finds what the original finds exactly where that is nothing, or set and without a validator |
| TrieModel.CopyValidates | include/Simo/parameter/Parameter.h:122-134 | every parameter of a copy is set and without a validator, so it passes validation whatever the original holds |
| TrieModel.CopyOfUnset | include/Simo/parameter/Parameter.h:132-134 | a trie that fails validation and whose copy passes |
| TrieModel.NameForNames | include/Simo/parameter/ParameterTrie.h:36-44 | every list of separator-free segments, empty ones included, has a name |
| TrieModel.AllIsEveryFind | include/Simo/parameter/ParameterTrie.h:109-119 | the check of all parameters holds exactly when it holds of every parameter some name finds |
| TrieModel.CheckIff | src/module/Module.cc:29-31 | a trie passes its check exactly when every parameter some name finds is set and accepted by its validator whenever it has one |
| TrieModel.RejectedByValidator | include/Simo/parameter/Parameter.h:122-129 | a set parameter that its validator rejects fails the check |
| TrieModel.VisitNameIff | include/Simo/parameter/ParameterTrie.h:136-140 | the name a visit reports leads back to its parameter's segments exactly when the parameter is at the root or its first and last segments are not empty |
| TrieModel.VisitedNameFinds | include/Simo/parameter/ParameterTrie.h:124-143 | finding such a reported name gives the visited parameter |
| TrieModel.VisitFinds | include/Simo/parameter/ParameterTrie.h:128-143 | a visit reports each such parameter under a name that finds it, and hands it over unless it is unset |
| TrieModel.VisitCounts | include/Simo/parameter/ParameterTrie.h:124-143 | a visit makes one report for each stored parameter |
| TrieModel.SegmentsExample | include/Simo/parameter/ParameterTrie.h:36-44 | segments lie between slashes, inner empty ones count and one at the end does not |
| ParameterTries.ParameterTrie.AddGeneric | include/Simo/parameter/ParameterTrie.h:148-161 | the in-place addition makes of the tree of nodes what the value-level addition says, keeps every segment free of separators, and only touches that tree |
| ParameterTries.ParameterTrie.Find | include/Simo/parameter/ParameterTrie.h:74-83 | reads what the value-level lookup says |
| ParameterTries.ParameterTrie.GetSubtrie | include/Simo/parameter/ParameterTrie.h:93-103 | returns a node of the same tree that stands for the subtree, or nothing |
| ParameterTries.ParameterTrie.All | include/Simo/parameter/ParameterTrie.h:107-119 | stopping at the first failure gives the same answer |
| ParameterTries.ParameterTrie.VisitImpl | include/Simo/parameter/ParameterTrie.h:128-143 | in whatever order children come, every stored parameter is reported exactly once, unset ones without a value |
| ParameterTries.ParameterTrie.Visit | include/Simo/parameter/ParameterTrie.h:121-126 | the same from the root, with the empty name |
| ParameterTries.ParameterTrie.Check | src/module/Module.cc:29-31 | the check of all parameters, answered for what names find |
| ParameterTries.ParameterTrie.Assign | include/Simo/parameter/ParameterTrie.h:51-59 | recursive in-place copying makes of the target the overlay, and leaves the source alone |
| ParameterTries.ParameterTrie.AssignSelf | include/Simo/parameter/ParameterTrie.h:51-59 | assigning a trie to itself replaces every parameter by its copy |
| ParameterTries.ParameterTrie.Copy | include/Simo/parameter/ParameterTrie.h:49 | a copy-constructed trie is the overlay on an empty one, in nodes of its own |
| StringEscape.AddEscapedCharacters | src/SimoSim/CLI11.hpp:924-937 | the loop computes the escaped form |
| StringEscape.HexSequence | src/SimoSim/CLI11.hpp:997-1006 | the weighted loop reads the hexadecimal number, or rejects a non-digit |
| StringEscape.ReadSequence | src/SimoSim/CLI11.hpp:984-1031 | each escape sequence is decoded or rejected as specified, lengths included |
| StringEscape.RemoveEscapedCharacters | src/SimoSim/CLI11.hpp:979-1037 | the loop computes the unescaped form or fails |
| StringEscape.UnescapeEscaped | src/SimoSim/CLI11.hpp:924-1037 | removing escapes undoes adding them, for every string |
| StringEscape.NoBackslashNoEscape | src/SimoSim/CLI11.hpp:1287-1289 | skipping the removal when there is no backslash is safe |
| EscapeLaws.EscapedConcat | src/SimoSim/CLI11.hpp:924-937 | escaping goes character by character |
| EscapeLaws.ShortForms | src/SimoSim/CLI11.hpp:915-931 | what each of the seven characters is escaped to |
| EscapeLaws.OtherCharacters | src/SimoSim/CLI11.hpp:932-934 | every other character is copied |
| EscapeLaws.PlainCharacters | src/SimoSim/CLI11.hpp:1032-1034 | outside a sequence every character stands for itself |
| EscapeLaws.ShortSequences | src/SimoSim/CLI11.hpp:988-1028 | what each of the seven two-character sequences and the one with a zero stands for, wherever it occurs |
| EscapeLaws.OtherSequences | src/SimoSim/CLI11.hpp:985-1031 | any other character after a backslash, or none, is an error |
| EscapeLaws.UnicodeSequences | src/SimoSim/CLI11.hpp:991-1025 | four or eight digits stand for the bytes of the code point they write, or are an error if it has none |
| EscapeLaws.BrokenUnicode | src/SimoSim/CLI11.hpp:991-1025 | too few digits, or another character among them, is an error |
| EscapeLaws.HexDigits | src/SimoSim/CLI11.hpp:939-951 | the value of a digit of either case is its place among the sixteen, and nothing else is a digit |
| EscapeLaws.HexPositional | src/SimoSim/CLI11.hpp:997-1006 | the first digit weighs a power of sixteen |
| EscapeLaws.CodepointIsUtf8 | src/SimoSim/CLI11.hpp:955-977 | a surrogate is an error, a number beyond the last code point writes nothing, any other is written so that a decoder after section 3 of RFC 3629 reads it back |
| BinaryEscape.ReplaceOne | src/SimoSim/CLI11.hpp:1190-1194 | each replacement of a quote leaves fewer quotes, so the search from the start ends |
| BinaryEscape.BinaryEscapeString | src/SimoSim/CLI11.hpp:1161-1201 | the two passes and the wrapping compute the specified form |
| BinaryEscape.EscapeTest | src/SimoSim/CLI11.hpp:1230-1243 | a sequence read near the end never runs into the closing |
| BinaryEscape.ExtractBinaryString | src/SimoSim/CLI11.hpp:1211-1248 | the loop decodes what lies between opening and closing, and leaves other strings alone |
| BinaryEscape.PassesDecode | src/SimoSim/CLI11.hpp:1161-1248 | decoding undoes both passes together, although each rewrites what the other may have written |
| BinaryEscape.BinaryRoundTripIff | src/SimoSim/CLI11.hpp:1161-1248 | extraction undoes escaping for every byte string exactly when it was forced, or changed something, or the string does not look escaped itself |
| BinaryEscape.LooksEscapedExample | src/SimoSim/CLI11.hpp:1161-1248 | a string that is escaped to itself and extracted to nothing |
| BinaryLaws.BodyMore | src/SimoSim/CLI11.hpp:1161-1194 | a byte is copied if printable, no single quote and no x after a backslash; any other becomes a backslash, a small x and two lower-case digits |
| BinaryLaws.BodyPrintable | src/SimoSim/CLI11.hpp:1161-1194 | what is written is printable and free of single quotes |
| BinaryLaws.FirstPassUnchangedIff | src/SimoSim/CLI11.hpp:1161-1188 | the first pass changes nothing exactly when everything is printable and no backslash comes before an x |
| BinaryLaws.EscapedIs | src/SimoSim/CLI11.hpp:1188-1200 | the body is wrapped in literal opening and closing if forced or if anything needed escaping |
| BinaryLaws.LooksEscapedIff | src/SimoSim/CLI11.hpp:1203-1209 | which strings look escaped |
| BinaryLaws.ExtractedIs | src/SimoSim/CLI11.hpp:1211-1226 | what is enclosed is decoded, with or without single quotes; any other string is left alone |
| BinaryLaws.DecodedPair | src/SimoSim/CLI11.hpp:1230-1243 | an x and digits of either case after a backslash are read as one byte |
| BinaryLaws.DecodedOther | src/SimoSim/CLI11.hpp:1230-1246 | anything else is copied |
| OptionResults.HandleSecondaryArray | src/SimoSim/CLI11.hpp:1262-1272 | the loop doubles every character of a bracketed string |
| OptionResults.ProcessQuotedString | src/SimoSim/CLI11.hpp:1274-1301 | the branches compute the specified processing, errors included |
| OptionResults.Undouble | src/SimoSim/CLI11.hpp:6946-6956 | the loop over pairs recovers the undoubled string or gives up |
| OptionResults.AddResultTo | src/SimoSim/CLI11.hpp:6934-6993 | appends the specified results and counts them |
| OptionResults.ProtectedIsOneResult | src/SimoSim/CLI11.hpp:6938-6959 | a string protected against being read as an array arrives whole, whatever the option takes |
| OptionLaws.JoinedResults | src/SimoSim/CLI11.hpp:6976-6991 | words joined by the delimiter are added as exactly those words, in order, and delimiters that follow each other or stand at an end add nothing |
| OptionLaws.SingleResult | src/SimoSim/CLI11.hpp:6976-6991 | a string without the delimiter is one result |
| OptionLaws.ArrayResults | src/SimoSim/CLI11.hpp:6960-6975 | an array adds the results of its non-empty elements one after the other |
| OptionLaws.ArrayOfWords | src/SimoSim/CLI11.hpp:6960-6975 | an array of plain words adds those words |
| OptionLaws.UndoubledIff | src/SimoSim/CLI11.hpp:6944-6956 | what undoubling accepts, a string of odd length included, and what it recovers |
| OptionLaws.DoubleBracketsResult | src/SimoSim/CLI11.hpp:6938-6959 | a doubly bracketed string of doubled characters is one result |
| OptionLaws.SecondaryArrayIs | src/SimoSim/CLI11.hpp:1262-1272 | protection doubles what is bracketed and leaves the rest alone |
| OptionLaws.NotQuotedIff | src/SimoSim/CLI11.hpp:1274-1301 | exactly which strings count as quoted; the others come back unchanged |
| OptionLaws.StringQuoted | src/SimoSim/CLI11.hpp:1285-1293 | between string quotes escapes are removed, a broken one is an error, protection is optional |
| OptionLaws.LiteralQuoted | src/SimoSim/CLI11.hpp:1294-1299 | between literal quotes or backticks the string is taken as it is, protection is optional |
| OptionLaws.BinaryQuoted | src/SimoSim/CLI11.hpp:1279-1284 | a binary form is decoded whatever the quotes are, protection is optional |
| OptionResults.QuotedRoundTripIff | src/SimoSim/CLI11.hpp:1274-1301 | for every string: escaped, quoted, processed with protection and added, it arrives as exactly itself if and only if the option has no delimiter, or the string lacks it, or is bracketed |
| OptionResults.BinaryRoundTripThroughOption | src/SimoSim/CLI11.hpp:1161-1301 | the same for the forced binary form of every byte string, without a delimiter |

## Left out

- The rest of the vendored command-line header: application parsing, help, configuration files, validators.
- Collections loaded from shared libraries, logging, serialisation, the command-line tool: foreign calls and input or output.
- Callback and contract ports, run-time type casts, the text of initialization failures, reconnecting a connected port, `receive`.
- Contexts.Context.Initialize: calling it a second time, and a module whose set-up depends on anything but the user state.
- Removing modules from a context.
- Contexts.Context.RunAt: the loop of the source is split into methods for one task, one tick and the loop itself, in the order of the source.
- Statistics.Count.Increase: counters are unbounded integers, so overflow of the signed 64-bit value, undefined in the source, does not occur.
- Collector.Collector.CloseWindow: the writing of the file is not modelled; the mappers of all modules are one mapper over their statistics in order.
- CollectorRuns.CollectorReportsTheWindow: an application task changes counters by a net amount per counter; the single increments inside a task are not told apart.
- ParameterTries.ParameterTrie.Assign: assigning to a trie a part of itself, or to a part of it the whole, is excluded; assigning a trie to itself is `AssignSelf`.
- Typed lookup in the trie: a parameter's type is not modelled, so the cast that follows a lookup is not either.
- StringEscape.RemoveEscapedCharacters: the texts of the exceptions; every failure is the same missing value.
- PingPongRuns.Simulate: modules that are not connected, or have different periods. Horizons less than one period below 2^64 are excluded, although in some of them no task that runs would reschedule itself past 2^64.
- OptionResults.AddResultTo: `split_up` is not modelled; the contract holds for every splitter that makes no piece longer than its argument.
