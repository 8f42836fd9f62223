# Verified models of DiscoPoP

DiscoPoP finds parallelism in sequential programs. A profiler records memory accesses and derives
data dependencies from them, an explorer weighs the program graph, hotspot detection times regions,
and a server drives the builds. This project models the parts of that whose correctness is not
evident from any single function, and proves what they guarantee. Check it with
`dafny verify dfyconfig.toml`.

## The chunked dependency analysis

`Accesses.dfy`, `SequentialAnalysis.dfy`, `Chunks.dfy`, `Deduplication.dfy`, `ChunkIndependence.dfy`, `OpenReads.dfy`, `WriteDependencies.dfy`,
`QueueWorkers.dfy`, `AccessQueues.dfy`, `QueueSteps.dfy`, `Pipeline.dfy`, `Shutdown.dfy`

`AnalyzeSingleAccess` reads and updates a shadow that knows, for every address, the latest read not
yet consumed and the latest write, and reports RAW, WAR, WAW and INIT dependencies.
`ReportsAreDependencies` says what these are in terms of the trace alone, for every trace: a read is
*open* at a write if no write but those marked to be skipped lies between; a write depends on the
open read (WAR), or else on the latest write (WAW).

The parallel profiler cuts the trace into chunks. A first-queue worker analyses a chunk on an empty
local shadow and defers every access up to and including the first write of its address. Up to 4096 of
them, or where at least 1024 of the first 4096 are repeats, it hands on each once; otherwise those
after the first 4096 unchanged (`EntriesExactly`). The second-queue worker replays the deferred accesses on a shadow that it
carries along, then stores the chunk's exit state of every address it deferred an access to.

- *RAW and INIT.* Exit states are stored as they are (`PerfectShadow.hpp:169-175`), and a chunk that
  only reads an address has 0 for its last write. Storing that 0 erases the write that is carried. So
  the chunked run does not always report what the sequential run does: a write at 5, a read at 6 and
  a read at 7 of one address, in three chunks, lose RAW(7, 5) (`ReadOnlyChunkLosesTheWrite`).
  `SameRawAndInitExactly` gives the exact condition, for every trace and every cut: an access is
  *forgotten* if it asks for a write while the latest chunk before it that touches the address only
  reads it, and a write precedes that chunk. The runs agree if and only if each forgotten access is
  covered up by another one with its LID, a read of the same write that is not forgotten, or a first
  write. If nothing is forgotten they agree, and a merge that leaves the carried write alone where
  the exit value is 0 (`GuardedSameRawAndInit`) would always make them agree.
- *WAR and WAW.* These depend on the read that is open, and the chunked run can have another one:
  a chunk's first write of an address does not close the read before it (R@5, W@6, W@7 in one chunk
  gives WAR(7, 5) for WAW(7, 6), `DeferredWriteKeepsTheRead`), dropping repeats changes which deferred
  read is the latest (R@5, R@6, R@5, W@7 gives WAR(7, 6) for WAR(7, 5), `DroppedRepeatIsNotLatest`), and a chunk that has only skipped writes of an address, as every declaration is
  recorded (`dp_decl.cpp:72`), knows nothing of an earlier read (R@5 | skipped W@6, W@7 gives WAW(7, 6)
  for WAR(7, 5), `SkippedWriteHidesTheRead`). `SameWarOrWawExactly` says at which accesses the two runs
  differ, for every trace, skip markers included, and every cut; `SameWarAndWawExactly` when the whole
  runs agree, and `SameReportsExactly` when they agree on everything. With LIDs from 2 up: a write that
  has an earlier write always gets exactly one of the two; a WAW is one of the sequential run, and a
  write with a WAR there has one, exactly where skipped writes do not hide the read; so always in a trace without skip markers
  (`UnmarkedWarAndWaw`). The source of a WAR
  is always an earlier read of the address.
- *Every schedule.* `Pipeline` is a state machine of the profiled thread, any number of workers, the
  consumer, both queues and the lock of the first queue. In every reachable state the chunks are, from
  the consumer back to the first queue, in push order, and each has one owner; when the consumer
  exits, everything is merged; and when all threads have joined, the global table holds exactly the
  chunked run's dependencies, whatever the schedule.
- *Shutdown.* `FirstAccessQueue::Get` waits for room in the second queue while it holds the lock of the
  first (`runtimeFunctionsTypes.hpp:324-345`), and the consumer asks for that lock before it exits or
  goes on (`access_queue_workers.cpp:227`). A schedule that deadlocks exists if and only if there are
  more chunks than the second queue holds (`DeadlockReachableExactly`). Apart from that state, a
  waiting worker can always be given room (`CircularWaitExactly`). Also, a worker reads the flag after
  a `Get` that may be older than the last push (`access_queue_workers.cpp:82`, `:148-151`), so in every
  configuration all workers may leave before the last chunk (`EveryConfigurationCanStrand`).

`QueueWorkers` is the imperative code of the workers, each method proved against the functions the
theorems are about. `AccessQueues` is that of the queues, and `QueueSteps` shows that its methods are
the steps of `Pipeline`: each is called where a step is enabled and leaves the queues as the step does.

## The recorder of reported basic blocks

`ReportedBBs.dfy`: an open-addressing table with linear probing, at most half full. It behaves as a
set for every mixing function, and growing keeps that.

## Hotspot detection

`RegionTimes.dfy`: with recursion, the runtime adds up the time in which a region is active at least
once. `RegionKeys.dfy`: printing and parsing a region key is a round trip for exactly the keys whose
path holds no colon-separated integer directly followed by LOOP or FUNCTION. `Text.dfy` says what is
printed for an integer and which texts are read as one.

`CsIdTable.dfy`, `RunMerging.dfy`, `MergingHazards.dfy`: of the rows of a table that name an id the last
one counts, as rows are appended (`ParseCsId`). Merging renders the runs of separate builds in
one id space, to be re-read with the same file mapping. Where no mapped path is misleading, a run that
was collected from a build comes back as it was if and only if none of the loops it measures has a
name (`RenderMergedAnalysisInput`): rows are parsed with a name for loops too, but written without
one (`NamedLoopIsLost`). In general a run comes back if its regions are *proper*, and where no mapped
path is misleading only then; a run of one region comes back, whatever the mapping, if and only if its
name *stands*: the key parsed from it prints as that name, both before and after it is written and
read back (`OneRegionComesBackExactly`). With a misleading path, say `a:5:LOOP:b`, a region is taken for one of
another file and lost (`MisleadingPathIsLost`); but not every one does harm, since a region of
`a:5:FUNCTION:b` comes back where `a` is mapped as well (`MisleadingPathMayComeBack`).

## The explorer, the AST filter and the server

`Recursion.dfy`, `Workload.dfy`, `WorkloadMeaning.dfy`, `WorkloadCache.dfy`, `MixedWorkloads.dfy`: the
workload of a loop is the sum over its children, by whether they are units whose block is named
`for.inc` or `for.cond` (`LoopWorkload`). A computation of a workload takes what is stored as given, whatever it is. From any cache, it ends if and only if no node without
a stored value that is computed on the way computes itself again (`RecursionEndsExactly`), and what is
stored on the way does not change that (`StoringOnTheWay`); the value returned, and everything stored,
is the workload with the stored values in place (`CalculateFromCache`). From a cache that is right it is
the workload computed from nothing, and the cache stays right (`RightCacheWillDo`, `RightStaysRight`). A
comment says that recursive calls count as one instruction (`utils.py:140`); the code follows them, so
the recursion of a function that calls itself ends if and only if a value for it or its unit is stored,
or calls are ignored (`RecursiveFunctionEndsExactly`, and `StoredUnitEndsRecursion`, which returns 3).
Computing with calls ignored stores its results in the same place; afterwards the cache is right if and
only if, at every unit visited, the workloads called add up to the number of calls, and at every
function visited the children add up to nothing (`CallFreeKeepsSoundExactly`).

`AstPruning.dfy`: pruning an AST dump keeps every kept node's file, and the right nodes. A reader starts
a translation unit's children from the unit's own file (`ASTGraph.py:130-140`), the filter from none;
`UnitPreservesFilesExactly` says when that does not show, `UnitOutsideKeepsTooMuch` has a unit where it
does. Of the positions of a macro its use site decides (`UseSiteDecides`). `JsoncTokens.dfy`,
`JsoncComments.dfy`: there is one way to cut a text into literals, comments and other characters
(`LexExactly`), and stripping comments commutes with it. `BuildProtocol.dfy`, `GatherData.dfy`: the build protocol of
`gather_data`, over any number of calls, with any file changed by any build, run or tool. A step is
skipped exactly where its results are there, not older than the sources, and not forced anew; a run
that fails leaves no result behind that a later call would take for current. `Descendants.dfy`: the
descendants of a process; the walk ends if and only if the process is not its own descendant.

## Model

| member | source | states |
|---|---|---|
| SequentialAnalysis.ReportsAreDependencies | profiler/rtlib/dependency_analysis.cpp:61-114 | on every trace RAW names the latest earlier write, WAR the open read, WAW the latest earlier write where no read is open, INIT a first write; skipped accesses report nothing, LIDs 0 and 1 stand for none, and every such dependency is reported |
| SequentialAnalysis.CellMeaning | profiler/rtlib/dependency_analysis.cpp:67-107 | the shadow of an address holds its latest write and its open read |
| SequentialAnalysis.ReportedIff | profiler/rtlib/dependency_analysis.cpp:61-114 | a dependency is in the table if and only if some access reports it against what it sees |
| Chunks.EntriesAreDeferred | profiler/rtlib/access_queue_workers.cpp:89-126 | with deduplication, and wherever it is given up: every entry is an access of the chunk and every address touched has an entry |
| Chunks.LocalWriteKnown | profiler/rtlib/access_queue_workers.cpp:100-138 | the local shadow knows a write of an address if and only if the chunk has written it |
| Deduplication.EntriesExactly | profiler/rtlib/access_queue_workers.cpp:109-126 | the entries are the deferred accesses, each once, in order of first occurrence, if there are at most 4096 or at least 1024 of the first 4096 are repeats; otherwise the distinct ones of the first 4096, then the rest unchanged |
| Deduplication.FirstOccurrencesMeans | profiler/rtlib/access_queue_workers.cpp:112-118 | dropping repeats keeps each access once, in order of first occurrence, and drops as many as there are repeats |
| Deduplication.AllDeferredMeans | profiler/rtlib/access_queue_workers.cpp:100-107 | an access is deferred if and only if no write of its address comes before it in the chunk |
| ChunkIndependence.DroppedReportsNothingNew | profiler/rtlib/access_queue_workers.cpp:109-118 | replaying an access that deduplication dropped would add no dependency to what the kept ones report |
| ChunkIndependence.ChunkReportsByAccess | profiler/rtlib/access_queue_workers.cpp:95-138 | one chunk reports, locally and by replay, exactly what its accesses report against what each of them sees |
| ChunkIndependence.ChunkedByAccess | profiler/rtlib/access_queue_workers.cpp:95-214 | the same for a whole chunked run: deferral, deduplication, replay and merge lose and add nothing beyond what accesses see |
| ChunkIndependence.SequentialByAccess | profiler/rtlib/dependency_analysis.cpp:61-114 | the sequential run, cut at the same places, reports what its accesses report |
| ChunkIndependence.CarriedWrite | profiler/rtlib/access_queue_workers.cpp:205-214 | the carried write is the latest one, or 0 exactly where a chunk that only read the address came last |
| ChunkIndependence.WriteSeen | profiler/rtlib/access_queue_workers.cpp:106-138 | an access sees the sequential run's last write, unless it is forgotten, and then it sees none |
| ChunkIndependence.SameRawAndInit | profiler/rtlib/access_queue_workers.cpp:192-214 | if nothing is forgotten, the RAW and INIT dependencies are those of the sequential run |
| ChunkIndependence.SameRawAndInitExactly | profiler/rtlib/access_queue_workers.cpp:192-214 | for every trace and cut they are if and only if every forgotten access is covered up by another of its LID |
| ChunkIndependence.DeduplicationIsInvisible | profiler/rtlib/access_queue_workers.cpp:109-126 | replaying the deduplicated list gives the same RAW and INIT as replaying every deferred access |
| ChunkIndependence.ReadOnlyChunkLosesTheWrite | profiler/rtlib/memory/PerfectShadow.hpp:169-175 | three accesses in three chunks whose RAW the chunked run loses |
| OpenReads.StaleMeans | profiler/rtlib/access_queue_workers.cpp:129-133 | a chunk's shadow is stale exactly where its first write of the address counts, follows a read that counts, and only skipped writes come after |
| OpenReads.ChunkOpenRead | profiler/rtlib/access_queue_workers.cpp:127-137 | the chunk has the run's read open unless its shadow is stale or it has only skipped writes after an open read |
| OpenReads.CarriedKeepsOpenRead | profiler/rtlib/access_queue_workers.cpp:205-214 | the second queue carries the read that the latest chunk touching the address had open, and it is the run's exactly unless that chunk misses it |
| OpenReads.OpenReadDiffersExactly | profiler/rtlib/access_queue_workers.cpp:95-138 | which accesses see another open read than the sequential run, for every trace and cut |
| WriteDependencies.SameWarOrWawExactly | profiler/rtlib/access_queue_workers.cpp:95-214 | an access reports the same WAR or WAW in both runs if and only if its open read does not differ, and, where it has none, its write is not forgotten |
| WriteDependencies.SameWarAndWawExactly | profiler/rtlib/access_queue_workers.cpp:95-214 | the runs agree on WAR and WAW if and only if at every differing write what either run reports is covered up in the other by a write of the same LID with the same open read, or with none and the same write, not forgotten |
| WriteDependencies.SameReportsExactly | profiler/rtlib/access_queue_workers.cpp:95-214 | they agree on everything if and only if this holds of RAW and INIT as well |
| WriteDependencies.ExactlyOneOfWarAndWaw | profiler/rtlib/dependency_analysis.cpp:102-112 | in the chunked run a write that has an earlier write gets exactly one of WAR and WAW, skip markers or not |
| WriteDependencies.ChunkedWawIsSequentialExactly | profiler/rtlib/access_queue_workers.cpp:127-137 | a WAW of the chunked run is one of the sequential run if and only if skipped writes do not hide the open read |
| WriteDependencies.SequentialWarIsKeptExactly | profiler/rtlib/access_queue_workers.cpp:127-137 | a write with a WAR in the sequential run has one in the chunked run if and only if the same |
| WriteDependencies.ChunkedWawIsSequential | profiler/rtlib/access_queue_workers.cpp:127-137 | where nothing is hidden every WAW of the chunked run is one of the sequential run |
| WriteDependencies.UnmarkedWarAndWaw | profiler/rtlib/access_queue_workers.cpp:127-137 | without skip markers every WAW of the chunked run is one of the sequential run, and every write with a WAR there has one |
| WriteDependencies.WarSourceIsEarlierRead | profiler/rtlib/dependency_analysis.cpp:97-107 | the source of every WAR of the chunked run is an earlier read of the written address |
| WriteDependencies.DeferredWriteKeepsTheRead | profiler/rtlib/access_queue_workers.cpp:129-133 | a chunk with a read and two writes that gets a WAR where the sequential run has a WAW |
| WriteDependencies.DroppedRepeatIsNotLatest | profiler/rtlib/access_queue_workers.cpp:112-118 | three reads of which the last repeats the first, and a write that is reported against the second |
| WriteDependencies.SkippedWriteHidesTheRead | profiler/rtlib/access_queue_workers.cpp:127-137 | a read in one chunk, a skipped write and a write in the next: a WAW where the sequential run has a WAR |
| QueueWorkers.PerfectShadow2.InsertToWrite | profiler/rtlib/memory/PerfectShadow.hpp:156-167 | returns the previous write, or 0, and changes only that |
| QueueWorkers.PerfectShadow2.TestInWrite | profiler/rtlib/memory/PerfectShadow.hpp:141-141 | returns the write, or 0, and changes no value although it may add a key |
| QueueWorkers.DependencyTable.AddDep | profiler/rtlib/dependency_analysis.cpp:22-37 | adds the dependency, a WAW on nothing as INIT |
| QueueWorkers.DependencyTable.MergeInto | profiler/rtlib/runtimeFunctions.cpp:146-162 | the global table becomes the union, the thread's own table empty |
| QueueWorkers.AnalyzeSingleAccess | profiler/rtlib/dependency_analysis.cpp:61-114 | updates the cell of the address and adds the dependencies as specified, and nothing else |
| QueueWorkers.SingleThreadedExecution.Access | profiler/rtlib/dependency_analysis.cpp:116-118 | the table is what the sequential analysis of the whole history reports |
| QueueWorkers.DeferAccess | profiler/rtlib/access_queue_workers.cpp:112-126 | hands an access on unless it is a repeat that is being looked for, counts it, and gives that up exactly at the 4096th if fewer than 1024 were repeats |
| QueueWorkers.ProcessChunk | profiler/rtlib/access_queue_workers.cpp:85-138 | yields the chunk's deferred accesses, deduplicated as the trial of 4096 decides, its exit state and its local reports, skipping unused slots |
| QueueWorkers.Replay | profiler/rtlib/access_queue_workers.cpp:193-200 | reports and updates as the sequential analysis does from the carried shadow |
| QueueWorkers.StoreExitState | profiler/rtlib/access_queue_workers.cpp:205-214 | replaces the carried state of exactly the addresses with an entry, by 0 where the chunk has none |
| QueueWorkers.ProcessElement | profiler/rtlib/access_queue_workers.cpp:192-214 | one element turns the carried shadow into the merged one and adds the replay's reports |
| AccessQueues.FirstAccessQueueChunk.Record | profiler/rtlib/runtimeFunctionsTypes.hpp:235-235 | fills the next slot of the buffer |
| AccessQueues.FirstAccessQueueChunk.BufferIsWhatWasRecorded | profiler/rtlib/access_queue_workers.cpp:95-98 | a worker analyses exactly what was recorded into the chunk |
| AccessQueues.PaddingIsSkipped | profiler/rtlib/access_queue_workers.cpp:95-98 | of a partly filled buffer exactly the filled part is analysed |
| AccessQueues.SecondAccessQueue.TryPush | profiler/rtlib/runtimeFunctionsTypes.hpp:274-284 | appends only while there is room, so the limit is never exceeded |
| AccessQueues.SecondAccessQueue.Get | profiler/rtlib/runtimeFunctionsTypes.hpp:289-299 | takes the front element, or none |
| AccessQueues.FirstAccessQueue.CanAcceptEntries | profiler/rtlib/runtimeFunctionsTypes.hpp:320-320 | the counter answers for the queue |
| AccessQueues.FirstAccessQueue.Get | profiler/rtlib/runtimeFunctionsTypes.hpp:330-345 | moves the front chunk to the back of the second queue: together the queues stay as they were |
| QueueSteps.MainChecksForRoom | profiler/rtlib/runtimeFunctionsTypes.hpp:320-320 | the profiled thread finds room exactly where that step is enabled |
| QueueSteps.MainPushesChunk | profiler/rtlib/runtimeFunctionsTypes.hpp:324-328 | a push leaves the queues as the step does |
| QueueSteps.WorkerTakes | profiler/rtlib/runtimeFunctionsTypes.hpp:330-338 | a worker finds nothing, or takes the front chunk and keeps the lock, as the step does |
| QueueSteps.WorkerRegisters | profiler/rtlib/runtimeFunctionsTypes.hpp:274-284 | one turn of its wait registers the chunk exactly where that step is enabled, and else changes nothing |
| QueueSteps.ConsumerTakes | profiler/rtlib/runtimeFunctionsTypes.hpp:289-299 | the consumer takes the front element or finds none, as the step does |
| QueueSteps.ConsumerAsks | profiler/rtlib/access_queue_workers.cpp:227-230 | the two questions before it leaves are the two steps, in that order |
| Pipeline.InvStep | profiler/rtlib/access_queue_workers.cpp:70-238 | every step of every thread keeps order, bounds, shutdown, ownership and the accounting of dependencies |
| Pipeline.PushOrder | profiler/rtlib/runtimeFunctionsTypes.hpp:324-345 | in every reachable state consumed, held, second queue, being registered and first queue together are the push order |
| Pipeline.OneOwner | profiler/rtlib/runtimeFunctionsTypes.hpp:330-345 | a registered chunk is published or held by exactly one worker; no other chunk is held |
| Pipeline.QueuesAreBounded | profiler/rtlib/runtimeFunctionsTypes.hpp:270-285 | the second queue keeps its limit, the first exceeds its own by at most the final chunk |
| Pipeline.ExitMeansMerged | profiler/rtlib/access_queue_workers.cpp:222-230 | when the consumer leaves, every pushed chunk has been merged, in order |
| Pipeline.ScheduleIndependence | profiler/rtlib/runtimeFunctions.cpp:146-188 | once all threads have joined, the global table is that of the chunks analysed one by one, for every schedule and number of workers |
| Pipeline.EndToEnd | profiler/rtlib/runtimeFunctions.cpp:164-188 | if nothing is forgotten its RAW and INIT are those of the sequential run |
| Pipeline.EndToEndExactly | profiler/rtlib/runtimeFunctions.cpp:164-188 | for every schedule they are if and only if every forgotten access is covered up |
| Pipeline.EndToEndTableExactly | profiler/rtlib/runtimeFunctions.cpp:146-188 | for every schedule the whole table is that of the sequential run if and only if forgotten writes and differing WAR and WAW are covered up |
| ShutdownHazards.ConsumerWaitsForRunningWorker | profiler/rtlib/access_queue_workers.cpp:193-203 | the consumer waits only for chunks that are published or that a worker is able to publish |
| ShutdownHazards.CircularWaitExactly | profiler/rtlib/runtimeFunctionsTypes.hpp:270-285 | a worker waiting for room can be given some, unless the consumer is bound to ask for the lock it holds |
| ShutdownHazards.DeadlockReachableExactly | profiler/rtlib/access_queue_workers.cpp:223-230 | some schedule reaches that deadlock if and only if there are more chunks than the second queue holds |
| ShutdownHazards.StrandedForever | profiler/rtlib/access_queue_workers.cpp:148-151 | once all workers have left with a chunk queued, the consumer never exits |
| ShutdownHazards.EveryConfigurationCanStrand | profiler/rtlib/access_queue_workers.cpp:148-151 | every configuration has a schedule that gets there |
| ReportedBBs.ProbedKeyIsAbsent | profiler/rtlib/runtimeFunctionsTypes.hpp:161-171 | a probe that meets a free slot has shown that the key is not in the table |
| ReportedBBs.InsertKeepsSound | profiler/rtlib/runtimeFunctionsTypes.hpp:163-171 | using that slot keeps every key reachable and unique and adds exactly the key |
| ReportedBBs.FreeSlotExists | profiler/rtlib/runtimeFunctionsTypes.hpp:167-169 | a table that is not full has the free slot that ends every probe |
| ReportedBBs.ReportedBBRecorder.Record | profiler/rtlib/runtimeFunctionsTypes.hpp:158-176 | the recorded set gains the execution; every probe ends |
| ReportedBBs.ReportedBBRecorder.Grow | profiler/rtlib/runtimeFunctionsTypes.hpp:208-222 | the keys stay the same, in twice as many slots |
| ReportedBBs.ReportedBBRecorder.Size | profiler/rtlib/runtimeFunctionsTypes.hpp:178-178 | the number of distinct executions recorded |
| ReportedBBs.ReportedBBRecorder.GetExecutions | profiler/rtlib/runtimeFunctionsTypes.hpp:180-190 | exactly the executions recorded |
| RegionTimes.HotspotRuntime.Start | hotspot_detection/rtlib/rtlib.c:77-99 | keeps the flag equal to the open activations and the times to the time covered |
| RegionTimes.HotspotRuntime.End | hotspot_detection/rtlib/rtlib.c:114-136 | the same when a region is left |
| RegionTimes.HotspotRuntime.InnerRegionIsNotLonger | hotspot_detection/rtlib/rtlib.c:77-136 | a region open only while another one is does not show the larger total |
| RegionTimes.NestedCoversLess | hotspot_detection/rtlib/rtlib.c:77-136 | the same of the time covered, for every ordered trace |
| Text.JoinSplit | hotspot_detection/discopop_hotspot_analyzer/region_keys.py:87-99 | splitting a text at a separator and joining the parts gives the text |
| Text.IntegersComeBack | hotspot_detection/discopop_hotspot_analyzer/region_keys.py:91-94 | a printed integer parses to itself |
| Text.DigitAt | hotspot_detection/discopop_hotspot_analyzer/region_keys.py:74-74 | the digits of a number are printed at their decimal places |
| Text.NumberOfDigits | hotspot_detection/discopop_hotspot_analyzer/region_keys.py:74-74 | with as many digits as the number has, so no leading zeros |
| Text.ParseIntExactly | hotspot_detection/discopop_hotspot_analyzer/region_keys.py:90-94 | a text is read as an integer if and only if it is a sign or none and digits, with any white space around them |
| RegionKeys.RoundTripExactly | hotspot_detection/discopop_hotspot_analyzer/region_keys.py:72-101 | deserializing undoes serializing if and only if the path is not misleading |
| RegionKeys.SerializedText | hotspot_detection/discopop_hotspot_analyzer/region_keys.py:72-75 | what is printed for a key: path, line, the word for its kind, and the name if it has one |
| RegionKeys.DeserializeExactly | hotspot_detection/discopop_hotspot_analyzer/region_keys.py:79-101 | a text is a key if and only if LOOP or FUNCTION follows an integer in it; the first such place separates path, line, kind and name |
| RegionKeys.MisledRoundTrip | hotspot_detection/discopop_hotspot_analyzer/region_keys.py:88-100 | for a misleading path a key with a shorter path comes back |
| RegionKeys.DeserializedIsNotMisleading | hotspot_detection/discopop_hotspot_analyzer/region_keys.py:87-100 | a key that was parsed never has a misleading path |
| CsIdTable.ParseCsId | hotspot_detection/discopop_hotspot_analyzer/region_keys.py:140-167 | an id is in the table if and only if some line is a row for it, and its section is what the last such line says, with no row for it after; a row has four or more fields, the second loop or func, and three integers |
| CsIdTable.FieldsConcat | hotspot_detection/discopop_hotspot_analyzer/region_keys.py:153-153 | any white space separates fields |
| CsIdTable.TableNamesAreSolid | hotspot_detection/discopop_hotspot_analyzer/region_keys.py:153-166 | no name in a parsed table holds white space |
| CsIdTable.RowFields | hotspot_detection/discopop_hotspot_analyzer/region_keys.py:335-340 | the fields of a written row: id, func or loop, line, file, and for functions the words of the name |
| CsIdTable.RowComesBack | hotspot_detection/discopop_hotspot_analyzer/region_keys.py:335-340 | a written row parses back to its id and section, up to the name |
| CsIdTable.NameComesBackExactly | hotspot_detection/discopop_hotspot_analyzer/region_keys.py:337-340 | the name comes back unless it is that of a loop or holds white space |
| CsIdTable.InvertFileMapping | hotspot_detection/discopop_hotspot_analyzer/region_keys.py:234-244 | every path of the mapping, with its lowest id |
| CsIdTable.ResolvedPathComesBack | hotspot_detection/discopop_hotspot_analyzer/region_keys.py:247-262 | the id found for a resolved path resolves to that path, placeholders included |
| CsIdTable.PlaceholderExactly | hotspot_detection/discopop_hotspot_analyzer/region_keys.py:247-262 | an unmapped id prints as file_ and its digits; the id of an unmapped path is the integer after file_, or 0 |
| CsIdTable.MergedTableComesBack | hotspot_detection/discopop_hotspot_analyzer/region_keys.py:325-340 | parsing and resolving the merged table gives each id from 1 to n its key as it is read back |
| RunMerging.CanonicalRegionKeys | hotspot_detection/discopop_hotspot_analyzer/region_keys.py:265-278 | each measured key once, and only those |
| RunMerging.CollectRun | hotspot_detection/discopop_hotspot_analyzer/region_keys.py:299-303 | the positive measurements of known ids, by region |
| RunMerging.WriteRun | hotspot_detection/discopop_hotspot_analyzer/region_keys.py:342-347 | the measurements of a run under the merged ids, the unmeasured regions left out |
| RunMerging.CollectingUndoesWriting | hotspot_detection/discopop_hotspot_analyzer/region_keys.py:299-347 | where the table gives a run's names back, collecting undoes writing |
| RunMerging.CollectedIsProperExactly | hotspot_detection/discopop_hotspot_analyzer/region_keys.py:281-306 | what is collected with a parsed table is proper if and only if no measured loop has a name |
| RunMerging.RunComesBack | hotspot_detection/discopop_hotspot_analyzer/region_keys.py:309-349 | any run whose names stand, among any others, is re-read as it was |
| RunMerging.OneRegionComesBackExactly | hotspot_detection/discopop_hotspot_analyzer/region_keys.py:309-349 | a run of one region is re-read as it was if and only if it was measured and its name stands, misleading paths or not |
| RunMerging.RunComesBackExactly | hotspot_detection/discopop_hotspot_analyzer/region_keys.py:309-349 | any run, among any others, is re-read as it was if it is proper, and only then where no mapped path is misleading |
| RunMerging.WriteMergedAnalysisInput | hotspot_detection/discopop_hotspot_analyzer/region_keys.py:309-349 | writes a row for every key, numbered from 1, and the result of every run under these ids; any run is re-read as it was if it is proper, and only then where no mapped path is misleading |
| RunMerging.RenderMergedAnalysisInput | hotspot_detection/discopop_hotspot_analyzer/region_keys.py:352-384 | collects every file, leaves out runs that measured nothing, and renders the rest, or nothing where there is nothing to merge; where no mapped path is misleading, every run comes from a file and is re-read as it was if and only if no loop that the file measures has a name |
| RunMerging.RunsAreCollected | hotspot_detection/discopop_hotspot_analyzer/region_keys.py:292-306 | every run comes from a file, and every file that measures anything gives one |
| MergingHazards.NamedLoopIsLost | hotspot_detection/discopop_hotspot_analyzer/region_keys.py:340-340 | from a row with five fields for a loop, whatever is rendered of its measurements does not come back |
| MergingHazards.MisleadingPathIsLost | hotspot_detection/discopop_hotspot_analyzer/region_keys.py:78-101 | a region in a file whose path reads like a loop of another file does not come back |
| MergingHazards.MisleadingPathMayComeBack | hotspot_detection/discopop_hotspot_analyzer/region_keys.py:78-101 | one in a file whose path reads like a function of another mapped file does |
| AstPruning.FilterChildren | profiler/scripts/filter_ast_dump.py:91-104 | the loop computes the specified pruning, dropped siblings still advancing the context |
| AstPruning.FilterAstDump | profiler/scripts/filter_ast_dump.py:114-136 | the same for every unit of a dump, with the root made to end in a slash |
| AstPruning.PruningPreservesFiles | profiler/scripts/filter_ast_dump.py:73-111 | the pruned dump resolves to the resolved dump without the nodes that are not kept: same files, same order, same nodes |
| AstPruning.UnitPreservesFilesExactly | profiler/scripts/filter_ast_dump.py:114-130 | a reader that starts from the unit's own file finds the right nodes with the right files if and only if that file is kept or missing, or the first child has one |
| AstPruning.UnitOutsideKeepsTooMuch | profiler/scripts/filter_ast_dump.py:130-130 | a unit with a file outside the project, whose child is kept though its file is not |
| AstPruning.FilteringIsIdempotent | profiler/scripts/filter_ast_dump.py:91-111 | filtering twice equals filtering once |
| AstPruning.DroppedExactly | profiler/scripts/filter_ast_dump.py:34-70 | a node is dropped if and only if it stands in an absolute path that does not continue the root; relative paths and nodes without a file are kept |
| AstPruning.UseSiteDecides | profiler/scripts/filter_ast_dump.py:34-47 | of a macro used in one file and defined in another the use decides |
| AstPruning.InheritedIsWritten | profiler/scripts/filter_ast_dump.py:73-88 | an inherited file is written into the position that counts, and only there |
| JsoncComments.StripJsoncComments | mcp_server/setup_mcp.py:102-131 | the loop yields the text of all tokens but the comments, of any cutting into tokens that is right |
| JsoncTokens.LexExactly | mcp_server/setup_mcp.py:106-131 | there is exactly one such cutting: line comments up to a newline, block comments up to their first terminator, literals up to the first quote that no backslash takes, each or up to the end of the text, and other characters that start none of these |
| JsoncTokens.TokenAtMeans | mcp_server/setup_mcp.py:108-129 | the token at every position is one of these, whatever the text |
| JsoncComments.StrippedTokens | mcp_server/setup_mcp.py:108-129 | the tokens of the output are those of the input without comments: none is left, and literals are copied verbatim |
| JsoncComments.NoCommentsLeft | mcp_server/setup_mcp.py:118-127 | exactly the tokens that are no comments stay |
| JsoncTokens.RenderLex | mcp_server/setup_mcp.py:106-131 | the tokens are the text, cut up |
| JsoncComments.StrippingIsIdempotent | mcp_server/setup_mcp.py:102-131 | stripping again changes nothing |
| BuildProtocol.LegalMeansPrepared | mcp_server/tools/gather_data.py:175-178 | the protocol's automaton allows exactly the runs of the program with a successful compile of the same settings before and no build in between |
| BuildProtocol.NothingCompiledNothingRun | mcp_server/tools/gather_data.py:1013-1016 | a legal call that compiles nothing runs nothing |
| BuildProtocol.SessionIsSafe | mcp_server/tools/gather_data.py:987-1036 | calls that keep the protocol keep it one after the other, and leave no instrumented build if their rebuilds succeed |
| GatherData.SkippedHotspotInstrumentationLeavesNothingDue | mcp_server/tools/gather_data.py:175-189 | with the hotspot instrumentation skipped, the run of each requested configuration is skipped too, or refused for a missing execute.sh |
| GatherData.Workspace.InstrumentHotspots | mcp_server/tools/gather_data.py:150-241 | with configuration, script and settings there, compiles unless not forced and the recorded configurations are those requested and some result is not older than the sources; then clears the hotspot results first, and succeeds if and only if the compile does |
| GatherData.Workspace.ProfileHotspots | mcp_server/tools/gather_data.py:244-331 | with script and settings there, runs the program unless not forced and the configuration is recorded and some result is not older than the sources; succeeds if and only if the run does and there are results; a failed run leaves no new result |
| GatherData.Workspace.AnalyzeHotspots | mcp_server/tools/gather_data.py:334-407 | needs results, and is skipped if and only if not forced and Hotspots.json is not older than the sources; a failed analysis leaves none |
| GatherData.Workspace.Instrument | mcp_server/tools/gather_data.py:410-504 | with configuration, script and settings there, compiles if and only if forced, or Data.xml or the dependencies are missing or older than the sources; both are cleared first, and it succeeds if and only if the compile does and Data.xml is there |
| GatherData.Workspace.Profile | mcp_server/tools/gather_data.py:520-598 | with script, Data.xml and settings there, runs the program if and only if forced or the dependencies are missing or older than the sources; succeeds if and only if the run does and they are there, and a failed run leaves none |
| GatherData.Workspace.DetectPatterns | mcp_server/tools/gather_data.py:601-656 | needs Data.xml and the dependencies, and is skipped if and only if not forced and the patterns are not older than the sources; a failed detection leaves none |
| GatherData.Workspace.Pipeline | mcp_server/tools/gather_data.py:820-984 | legal on every path, cancelled ones included; its steps are marked if and only if it compiled; unless cancelled it runs every hotspot configuration and each half goes on exactly as long as its steps do not fail; it succeeds if and only if the detection does or is skipped; a step that succeeded did its work, and with force none is skipped |
| GatherData.Workspace.RestorePlainBuild | mcp_server/tools/gather_data.py:674-766 | attempts one rebuild, skipped exactly if its settings, script or configuration are missing |
| GatherData.Workspace.Handle | mcp_server/tools/gather_data.py:987-1036 | the whole call keeps the protocol: it runs only what it compiled, and ends in a rebuild attempt if and only if it compiled; a call that is not refused or cancelled skips the profiler's compile exactly if not forced, with both results there and neither older than the sources, and otherwise compiles, inputs missing apart; a forced success has compiled, run and detected; invalid names and applied suggestions are refused untouched |
| GatherData.Serve | mcp_server/tools/gather_data.py:987-1036 | so does any sequence of calls |
| Descendants.DescendantsOf | mcp_server/tools/helpers.py:308-319 | returns each process whose parent chain reaches the given one, once, and nothing else |
| Descendants.ChildTable | mcp_server/tools/helpers.py:310-312 | the children of every process, in table order |
| Descendants.EndsExactly | mcp_server/tools/helpers.py:315-318 | the walk ends if and only if the process is not its own descendant |
| Workload.ProgramGraph.CalculateWorkload | explorer/discopop_explorer/utils.py:121-214 | with any values stored at the start, right or wrong, it returns the workload that takes them as given, changes none of them, and stores nothing but such workloads; with calls ignored it overwrites exactly the nodes visited |
| Workload.ProgramGraph.AddIterated | explorer/discopop_explorer/utils.py:161-211 | the sum over a loop's children, by role; what the roles are is in WorkloadMeaning |
| Workload.ProgramGraph.PerIterationWorkload | explorer/discopop_explorer/utils.py:217-247 | the sum over the body alone; a node that is no loop is refused |
| Workload.LoopWorkloadByIteration | explorer/discopop_explorer/utils.py:161-211 | iterations times the workload of one, the increments once, each condition once per iteration and one test more |
| WorkloadMeaning.LoopWorkload | explorer/discopop_explorer/utils.py:161-211 | a loop's workload: the instructions of the units with for.inc in their block, the iterations times the workloads of the other units with for.cond, one more for each of those, and the iterations times the workloads of all other children; the profiled average is taken, and the loop's own count where there is none |
| WorkloadMeaning.PlainWorkload | explorer/discopop_explorer/utils.py:130-160 | of other nodes: what is stored; a unit's instructions with each call replaced by what it calls; the sum over a function's children; nothing for a dummy |
| WorkloadMeaning.IterationWorkload | explorer/discopop_explorer/utils.py:217-247 | what an iteration adds up is the workloads of the children that are neither |
| WorkloadMeaning.ComputesMeans | explorer/discopop_explorer/utils.py:130-211 | nothing is computed below a stored value, nor for the increments of a loop, nor for calls and functions when calls are ignored; everything else is |
| WorkloadMeaning.CountingLoopWorkload | explorer/discopop_explorer/utils.py:161-211 | a loop of ten iterations with a condition of 2, an increment of 1 and a body of 5 has the workload 72 |
| Recursion.EndsExactly | explorer/discopop_explorer/utils.py:121-214 | a recursion over a graph ends if and only if no node it reaches reaches itself again, and if and only if a ranking falls with every call |
| Recursion.CutEndsAlike | explorer/discopop_explorer/utils.py:130-132 | stopping at nodes from which it ends anyway makes no difference to whether it ends |
| WorkloadCache.RecursionEndsExactly | explorer/discopop_explorer/utils.py:130-211 | with any values stored, the recursion ends if and only if no node without one that is computed on the way computes itself again |
| WorkloadCache.CalculateFromCache | explorer/discopop_explorer/utils.py:121-214 | from any cache from which the recursion ends, the value returned and everything stored is the workload that takes the stored values as given |
| WorkloadCache.StoringOnTheWay | explorer/discopop_explorer/utils.py:212-214 | what is stored during a computation changes nothing about which recursions end |
| WorkloadCache.WorkIsWorkload | explorer/discopop_explorer/utils.py:121-214 | a node's workload depends on the graph and the stored values alone |
| WorkloadCache.RightCacheWillDo | explorer/discopop_explorer/utils.py:130-132 | from a right cache the computation ends where it would from nothing, and gives the same |
| WorkloadCache.RightStaysRight | explorer/discopop_explorer/utils.py:212-214 | and the cache stays right |
| WorkloadCache.RecursiveFunctionEndsExactly | explorer/discopop_explorer/utils.py:130-153 | a function that calls itself has a workload if and only if calls are ignored or a value for it or its unit is stored |
| WorkloadCache.StoredUnitEndsRecursion | explorer/discopop_explorer/utils.py:130-153 | with its unit stored by a computation with calls ignored, 3 is returned for the function |
| MixedWorkloads.CallFreeKeepsSoundExactly | explorer/discopop_explorer/utils.py:130-132 | after a computation with calls ignored the cache is sound if and only if at every visited unit what is called adds up to the number of calls, and at every visited function the children add up to nothing |
| MixedWorkloads.MixedComputations | explorer/discopop_explorer/utils.py:130-132 | a unit of workload 7 for which 3 is returned after a computation with calls ignored |

## Left out

- Variable names in dependencies: the deduplication key has none, so dependencies are compared by sink, type and source, and the variable and memory-region fields are not modelled.
- QueueWorkers.DependencyTable.AddDep: no variable name and no memory region, for the same reason; so of QueueWorkers.AnalyzeSingleAccess.
- QueueWorkers.AnalyzeSingleAccess: as above.
- LID 0 on real accesses: 0 stands for "no access", so the results about chunks are for traces with other LIDs.
- WriteDependencies.ExactlyOneOfWarAndWaw: for LIDs from 2 up, since 1 is a sentinel too; so of WriteDependencies.ChunkedWawIsSequentialExactly and WriteDependencies.SequentialWarIsKeptExactly. The exact results have no such condition.
- `ShadowMemory` signatures and `PerfectShadow`: only `PerfectShadow2`, which the workers use, is modelled. Its `at` on a missing key is taken to give 0, as the zeroed slot behind the buckets of emhash does (`profiler/third_party/emhash/hash_table7.hpp:977-982`, `:1389`).
- Memory orderings, futures as objects, `usleep`, chunk preallocation and object lifetimes: every locked section is one step, and an unlocked read of a counter is one too.
- AccessQueues.FirstAccessQueue.Get: called with room in the second queue; a worker that waits for room while holding the lock is a state of `Pipeline`, and its two halves are `QueueSteps.WorkerTakes` and `QueueSteps.WorkerRegisters`.
- AccessQueues.SecondAccessQueue.TryPush: one turn of the waiting loop.
- Liveness of the shutdown: not promised, since the code deadlocks or strands under some schedules; what is proved is when.
- ReportedBBs.ReportedBBRecorder.Record: the bit mixing is an arbitrary function, and masking with a power of two is taken as the remainder; the counter is unbounded.
- RegionTimes.HotspotRuntime.Start: times are reals given by the caller, so clock resolution and rounding are not captured; so is `RegionTimes.HotspotRuntime.End`.
- RunMerging.WriteRun: runtimes are reals; the nine printed decimals would round them, and one below half of the last place would be re-read as 0 and dropped.
- RunMerging.CollectRun: where several measured ids have one key, which of their runtimes is kept is left open; the code keeps that of the last row.
- RunMerging.CanonicalRegionKeys: the order of the list is left open; the code sorts it, and it also sorts runs by index.
- CsIdTable.ParseCsId: works on the lines of a text; white space and digits are the ASCII ones.
- RunMerging.RunComesBackExactly: that only proper runs come back is proved where no mapped path is misleading; for misleading paths the exact condition is proved of runs of one region.
- AstPruning.FilterAstDump: decoding and encoding JSON.
- AstPruning.FilterChildren: nodes are values, so the update in place of node dictionaries, and aliasing between them, is not captured; a node's other fields are one token, and a missing and an empty `inner` are the same.
- JsoncComments.StripJsoncComments: one turn of the loop is in methods of its own, and so are the loops that skip a comment.
- GatherData.Workspace.Handle: exceptions, which end a call without the rebuild, file contents beyond existence and time, log output, messages and the suggestion count are left out; which names are valid is a parameter, and a rebuild that raises is an error like any other.
- GatherData.Serve: as GatherData.Workspace.Handle, sequences of calls that raise nothing.
- GatherData.Workspace.Pipeline: the client may cancel at any of the points where the code asks; when is arbitrary.
- Descendants.DescendantsOf: the table is a sequence of rows with distinct process ids, in the order of the dictionary; reading `/proc` is not part of this model.
- Workload.ProgramGraph.CalculateWorkload: for nodes whose recursion ends; Python's recursion limit, which stops deep recursions that would end, is left out.
- Workload.ProgramGraph.PerIterationWorkload: so is its handling of RecursionError, which leaves a child out with a warning.
- LLVM passes, pattern detectors, the task graph, the GUI and the daemon: foreign interfaces or easy members.
