# A model of dyld3 closures and of the runtime image list

dyld3 compiles the mach-o images of a process into compact closures and replays them while it loads,
initializes and unloads images. This project models the parts of that pipeline whose behaviour has a
short mathematical meaning but an intricate implementation, and proves what they are for. The code is
written in the form of the original: objects that change are classes, loops are loops with invariants,
and each method is tied to a function or a relation about which the theorems are proved. Protocols that
threads share are state machines over their steps, with theorems over every run.

* **Fixups and segments.** `RebasePatterns`, `BindPatterns`, `SelectorChains` and `DiskSegments` hold
  the encoders (narrow bit fields, 64-bit wrap-around) and the decoders; `RebaseRoundTrip`,
  `BindRoundTrip` and the second halves of the others prove that decoding undoes encoding, and exactly
  when it does.
* **Initializers.** `InitOrder` is the depth-first walk with upward links and cycles, `InitOrderProofs`
  what one walk guarantees, `InitCoverage` which images all of it covers, `InitList` the bubble-sorted
  list, `RunInitializers` the single-threaded run over that list with the theorem that joins both,
  `InitInterleaving` any number of threads with nested runs.
* **Unloading.** `Unloading` has reference counts and liveness, `Reaper` the mark phase and the
  sequential collection, `GcProtocol` the interleaved world of dlopen, dlclose and collection steps
  around the `_gcCount` counter, `GcHistory` what its runs amount to in terms of the actions alone.
  dlopen() and dlclose() are those of POSIX.1-2017, System Interfaces, chapter 3.
* **Lock-free ranges.** `ImmutableRanges`: one writer, any number of readers, one atomic access a step;
  `RangeHistory`: what the answers mean, in terms of the appends and reads made.
* **Loading and lookup.** `Loading` (the worklist of new images, `ImageNumSet`, the launch image cache),
  `InvalidateRoots` (another least fixpoint), `TopDownVisit`.
* **Containers and tables.** `Containers` (typed payloads in a growing buffer, image arrays), `ClassTable`
  (perfect-hash names and classes), `WeakDefs` (coalescing), `VersionChecks` (the fast comparison).

`ImageGraph`, `ImageLookup`, `Selection`, `MachineWords` and `Wrappers` hold what several of them share.
`dafny verify dfyconfig.toml` checks the whole project.

Where a property that the code is meant to have does not hold of the code, the code was kept and the
exact condition proved: `RebaseRoundTripExactly`, `PlainExactly` and `CoalesceExactly` (joined in
`MeaningStep` and over all runs in `MixedRun`), `SelectorRoundTrip`, `PermissionsExact`, `VisitedExactly`
with `UpwardTargetsVisited`, `OpenSafe` and `LoadSafe` (over all runs in `SafelyNestedExactly`),
`OpeningDoomed`, `LoadingDoomed`, `PatchesExactly` (by positions in `RedirectedExactly`),
`FastPathExactly` and the outcomes of `ContainerTypedBytesWriter.Append`. `StaleTarget`, `UpwardTargetMissed`, `WrappingAnswer` and
`ReplacedFirstNotPatched` show failing inputs. `immutableMemory` can answer true for a query that runs past
the end of the address space; `TrueMeansInside` says exactly that, and `WrappingAnswer` is such a run.

The comment above `garbageCollectImages` (dyld3/AllImages.cpp:1260-1261) says that the writer lock blocks
other threads during a collection; the code does not take it for the whole pass, and the model follows the
code. dlopen and dlclose do hold the recursive load lock (dyld3/APIs.cpp:904, dyld3/APIs.cpp:941), so the
interleavings that `GcProtocol` allows between threads are more than can happen; those of terminators, which
call back on the same thread, are the real ones.

## Model

| member | source | states |
|---|---|---|
| `RebasePatterns.RebasePatternBuilder.constructor` | dyld3/ClosureBuilder.cpp:1308-1311 | an empty pattern list starts at location minus one pointer |
| `RebasePatterns.RebasePatternBuilder.PushLeaps` | dyld3/ClosureBuilder.cpp:1343-1361 | skips beyond the 4-bit field become leap patterns, or one all-zero reset pattern when the next location is behind |
| `RebasePatterns.RebasePatternBuilder.Add` | dyld3/ClosureBuilder.cpp:1313-1366 | one location added in place is exactly the specified next builder state |
| `RebasePatterns.ReplayRun` | dyld3/Closure.cpp:643-647 | the contiguous locations of one repetition |
| `RebasePatterns.ReplayGroups` | dyld3/Closure.cpp:642-650 | all repetitions of one pattern, and where the cursor ends |
| `RebasePatterns.ForEachRebase` | dyld3/Closure.cpp:626-655 | the decoder loop replays the pattern list, resetting on an all-zero entry |
| `RebaseRoundTrip.AddStep` | dyld3/ClosureBuilder.cpp:1313-1366 | adding one accepted location appends exactly it to the replay if and only if the addition is safe, and then the invariant between builder and replay is kept |
| `RebaseRoundTrip.AddOutcome` | dyld3/ClosureBuilder.cpp:1315-1365 | what the replay of the new patterns is, in every branch |
| `RebaseRoundTrip.ResetOnlyBackward` | dyld3/ClosureBuilder.cpp:1344-1348 | an all-zero reset entry is emitted for a backward jump and never otherwise |
| `RebaseRoundTrip.SafeRun` | dyld3/ClosureBuilder.cpp:1303-1366 | a run of safe additions decodes to exactly its offsets |
| `RebaseRoundTrip.FaithfulRun` | dyld3/ClosureBuilder.cpp:1303-1366 | a run that decodes to its offsets had only safe additions: nothing else can go right by luck |
| `RebaseRoundTrip.PrefixRoundTrips` | dyld3/ClosureBuilder.cpp:1313-1366 | a wrong location is never repaired by later additions |
| `RebaseRoundTrip.RebaseRoundTripExactly` | dyld3/ClosureBuilder.cpp:1303-1366 | over every offset sequence decode(encode) is the identity if and only if each addition met the stated guard |
| `RebaseRoundTrip.FirstAccepted` | dyld3/ClosureBuilder.cpp:1315-1341 | which first offsets the builder takes |
| `RebaseRoundTrip.SafeByOffsets` | dyld3/ClosureBuilder.cpp:1315-1365 | the guard in terms of offsets alone, as long as no repeat count can be full |
| `RebaseRoundTrip.RebaseRoundTrip` | dyld3/ClosureBuilder.cpp:1303-1366 | for up to 2^20 offsets the round trip holds if and only if the offsets satisfy a condition on neighbours and on the first one |
| `BindPatterns.ForEachBind` | dyld3/Closure.cpp:736-752 | the decoder loop replays the patterns as (offset, target) pairs |
| `BindPatterns.BindPatternBuilder.constructor` | dyld3/ClosureBuilder.cpp:1369-1372 | no patterns, and a last location of minus one pointer |
| `BindPatterns.BindPatternBuilder.Coalesce` | dyld3/ClosureBuilder.cpp:1376-1385 | a weak rebind changes the target of the one pattern found and says whether there was one |
| `BindPatterns.BindPatternBuilder.Add` | dyld3/ClosureBuilder.cpp:1374-1422 | one bind added in place is exactly the specified next builder state |
| `BindRoundTrip.AppendStep` | dyld3/ClosureBuilder.cpp:1387-1421 | a non-coalesced bind appends exactly itself to the replay, unless it repeats the last one; gaps below a pointer wrap correctly |
| `BindRoundTrip.BindRoundTrip` | dyld3/ClosureBuilder.cpp:1374-1422 | replaying gives exactly the added list with immediately repeated pairs dropped |
| `BindRoundTrip.SmallOffsetsAccepted` | dyld3/ClosureBuilder.cpp:1374-1422 | no assertion fires for any offsets below 2^40 |
| `BindRoundTrip.CoalesceExactly` | dyld3/ClosureBuilder.cpp:1376-1385 | a coalesced rebind changes the meaning of its location and of no other, if and only if no later pattern covers the location (or the target is the same) |
| `BindRoundTrip.CoalesceSync` | dyld3/ClosureBuilder.cpp:1376-1385 | the builder stays in step with its last pattern if and only if the rebound pattern is not the last one (or keeps its target) |
| `BindRoundTrip.AppendPlaced` | dyld3/ClosureBuilder.cpp:1386-1421 | whatever target is remembered, a non-coalesced bind appends one bind at its offset, with the target of the entry it is merged into |
| `BindRoundTrip.PlainExactly` | dyld3/ClosureBuilder.cpp:1386-1421 | an ordinary addition rebinds its location and nothing else if and only if it is not merged into an entry whose target was changed |
| `BindRoundTrip.MeaningStep` | dyld3/ClosureBuilder.cpp:1374-1422 | any addition on any builder in its place, weak or not, rebinds exactly its location if and only if it meets its guard |
| `BindRoundTrip.MixedRun` | dyld3/ClosureBuilder.cpp:1374-1422 | over every mixed run all additions do what they should if and only if each meets its guard, and then each location ends with its last target |
| `BindRoundTrip.StaleTarget` | dyld3/ClosureBuilder.cpp:1376-1385 | a concrete run where the early return leaves a stale last target and a bind gets the wrong target |
| `SelectorChains.EntryFields` | dyld3/Closure.h:528-535 | index, distance and table flag share one word without disturbing each other |
| `SelectorChains.EncodeSelectorReferences` | dyld3/ClosureBuilder.cpp:2279-2317 | the encoding loop, patching the last entry when the chain goes on |
| `SelectorChains.ForEachSelectorReference` | dyld3/Closure.cpp:692-706 | the decoding loop over the untagged words |
| `SelectorChains.WordsSnoc` | dyld3/ClosureBuilder.cpp:2284-2317 | one more fixup changes at most the distance in the last word |
| `SelectorChains.AheadFails` | dyld3/Closure.cpp:692-706 | a decoder that lost count of the words never recovers |
| `SelectorChains.RepeatFails` | dyld3/ClosureBuilder.cpp:2286-2288 | a repeated offset ends its chain early, and the decoder goes wrong |
| `SelectorChains.SelectorRoundTrip` | dyld3/ClosureBuilder.cpp:2279-2317 | over every aligned fixup sequence every (offset, index, table) is recovered if and only if the first offset is above 508 and no two neighbours are equal |
| `DiskSegments.AddSegment` | dyld3/ClosureBuilder.cpp:1152-1185 | one segment appends at most three entries: file padding, VM padding, itself |
| `DiskSegments.AddSegments` | dyld3/ClosureBuilder.cpp:1144-1186 | the buffer of three entries a segment never overflows |
| `DiskSegments.ForEachDiskSegment` | dyld3/Closure.cpp:367-407 | the decoder: skip leading pages without file content, then accumulate offsets and report segments |
| `DiskSegments.WalkEncoded` | dyld3/ClosureBuilder.cpp:1152-1185 | after any number of segments the decoder stands where the last segment ended, having reported all of them |
| `DiskSegments.StartOfWalk` | dyld3/Closure.cpp:379-386 | the decoder starts exactly at the first file-backed segment |
| `DiskSegments.DiskSegmentRoundTrip` | dyld3/ClosureBuilder.cpp:1144-1186 | every segment is reported once, in order, with relative VM offset, original file offset and page-rounded sizes |
| `DiskSegments.PermissionsExact` | dyld3/Closure.h:432-436 | permissions and the later-read-only flag survive if and only if a writable segment did not already carry the reserved pattern |
| `ImageGraph.LoadedFirst` | dyld3/ClosureBuilder.cpp:701-714 | the lookup finds the first image of the number, or without one the first that overrides it, or none |
| `ImageGraph.LinksExactly` | dyld3/ClosureBuilder.cpp:1761-1789 | links of every kind lead to the image found for their number; only missing weak ones lead nowhere |
| `ImageGraph.ClosedContainsReachable` | dyld3/ClosureBuilder.cpp:1761-1789 | a set closed under downward links contains everything reachable |
| `InitOrder.FindLoadedImage` | dyld3/ClosureBuilder.cpp:701-714 | the scan finds the index the specification names |
| `InitOrder.DepthFirstRecurseSetInitInfo` | dyld3/ClosureBuilder.cpp:1761-1789 | the in-place recursion over the info array is exactly the functional walk, and terminates |
| `InitOrderProofs.VisitGood` | dyld3/ClosureBuilder.cpp:1761-1789 | a visit keeps the ordering invariant, or fails because a bad image is below |
| `InitOrderProofs.VisitLinksGood` | dyld3/ClosureBuilder.cpp:1772-1787 | so does the loop over the links of one image |
| `InitOrderProofs.TopWalkExact` | dyld3/ClosureBuilder.cpp:1796-1803 | the walk fails if and only if a bad image is below the top; otherwise it visits exactly what the top reaches by links not upward |
| `InitCoverage.VisitMet` | dyld3/ClosureBuilder.cpp:1761-1788 | a walk marks only targets of upward links of images it has entered |
| `InitCoverage.VisitDanglingExact` | dyld3/ClosureBuilder.cpp:1805-1810 | from any index on, the pass over upward targets fails if and only if it comes to a bad image, and otherwise enters and finishes exactly what the links say |
| `InitCoverage.CoveredExactly` | dyld3/ClosureBuilder.cpp:1805-1810 | an image is covered if and only if it was, or had been met, when the pass came to its index, or a later start reaches it |
| `InitCoverage.VisitedExactly` | dyld3/ClosureBuilder.cpp:1796-1810 | the visited images are exactly the covered ones |
| `InitCoverage.OrdersDistinct` | dyld3/ClosureBuilder.cpp:1761-1810 | visited images have distinct positive orders |
| `InitCoverage.DependentsFirst` | dyld3/ClosureBuilder.cpp:1761-1810 | for every link u to v not upward, v is visited, and ordered before u unless v reaches u |
| `InitCoverage.LinkedFirst` | dyld3/ClosureBuilder.cpp:1761-1789 | the same for each link of a visited image that is not upward and not missing |
| `InitCoverage.ReachableFirst` | dyld3/ClosureBuilder.cpp:1761-1810 | everything below a visited image is visited |
| `InitCoverage.TopCovered` | dyld3/ClosureBuilder.cpp:1761-1810 | everything the top reaches, and each upward target met on the way, is visited |
| `InitCoverage.UpwardTargetsLeftOut` | dyld3/ClosureBuilder.cpp:1805-1810 | an upward target of a visited image is left out if and only if the pass had gone by its index before it was met and starts at no later index that reaches it |
| `InitCoverage.UpwardTargetsVisited` | dyld3/ClosureBuilder.cpp:1805-1810 | no upward target is left out if and only if every one is met in time or reached from a later start |
| `InitCoverage.UpwardTargetMissed` | dyld3/ClosureBuilder.cpp:1805-1810 | a concrete graph where such a target with initializers is never visited |
| `InitCoverage.InvalidWhenBad` | dyld3/ClosureBuilder.cpp:1796-1815 | the image is marked invalid if and only if some covered image is bad |
| `InitList.BubblePass` | dyld3/ClosureBuilder.cpp:1829-1837 | one pass moves the largest remaining order to the end and permutes the rest |
| `InitList.BubbleSort` | dyld3/ClosureBuilder.cpp:1827-1838 | the array ends up a permutation of itself, sorted by order |
| `InitList.SortedEmits` | dyld3/ClosureBuilder.cpp:1817-1844 | the sorted list is exactly the visited images with initializers, by order |
| `InitList.EmitsUnique` | dyld3/ClosureBuilder.cpp:1817-1844 | there is only one such list |
| `InitList.ComputeInitOrder` | dyld3/ClosureBuilder.cpp:1790-1848 | the whole computation: no list exactly when the walk failed, otherwise that list |
| `ImageLookup.Locate` | dyld3/AllImages.cpp:1572-1587 | the first image that represents a number |
| `ImageLookup.LocateStable` | dyld3/AllImages.cpp:1572-1587 | images added later do not change where an image is found |
| `RunInitializers.AllImages.FindImageNum` | dyld3/AllImages.cpp:1572-1587 | the hint if it is right, otherwise the scan |
| `RunInitializers.AllImages.SwapImageState` | dyld3/AllImages.cpp:1592-1610 | compare and swap of one image state |
| `RunInitializers.AllImages.InitImage` | dyld3/AllImages.cpp:1620-1640 | one list entry: claimed, run and marked, or skipped |
| `RunInitializers.AllImages.RunInitializersBottomUp` | dyld3/AllImages.cpp:1617-1641 | the loop over the list is the specified run |
| `RunInitializers.RunAllEffect` | dyld3/AllImages.cpp:1617-1641 | every listed image that was fixed up starts once, in list order, and finds all earlier ones initialized |
| `RunInitializers.StartsExactly` | dyld3/AllImages.cpp:1617-1641 | the starts are the list entries that were fixed up, in list order, and none is left out |
| `RunInitializers.DependentsInitedFirst` | dyld3/AllImages.cpp:1617-1641 | joined with the builder: when an image starts its initializers, every downward dependent with initializers that is not in a cycle with it is initialized |
| `RunInitializers.ReachableInited` | dyld3/AllImages.cpp:1617-1641 | after the run everything with initializers below the top is initialized |
| `InitInterleaving.HistoryStep` | dyld3/AllImages.cpp:1592-1641 | no step of any thread starts an image twice or moves a state backward, under whatever number lists call it |
| `InitInterleaving.RunnersStep` | dyld3/AllImages.cpp:1592-1641 | no step lets two activations run the same image |
| `InitInterleaving.RunInv` | dyld3/AllImages.cpp:1592-1641 | both hold over every interleaving of threads and nested runs |
| `InitInterleaving.AtMostOnce` | dyld3/AllImages.cpp:1592-1641 | in every run each loaded image starts at most once, and between any two moments states only move forward |
| `InitInterleaving.FinishFinds` | dyld3/AllImages.cpp:1623-1638 | a runner that is done finds, by its hint, the image it claimed, still being initialized |
| `InitInterleaving.OneRunner` | dyld3/AllImages.cpp:1623-1638 | an image that is running belongs to one activation of one thread |
| `InitInterleaving.QuiescentInited` | dyld3/AllImages.cpp:1617-1641 | once all runs ended, every image they completed is initialized |
| `InitInterleaving.ListsInited` | dyld3/AllImages.cpp:1617-1641 | once all runs ended, for every list any run was given and every number in it, the image the lookup finds is loaded and initialized |
| `InitInterleaving.InitedByRunner` | dyld3/AllImages.cpp:1625-1637 | an image that was not initialized from the outset is initialized only after its initializers were started |
| `InitInterleaving.NeverStuck` | dyld3/AllImages.cpp:1617-1641 | an activation can always go on unless its next number is not loaded, as the lookup asserts |
| `Unloading.IncrementedCounts` | dyld3/AllImages.cpp:1008-1020 | dlopen adds one to the count of its address and changes no other |
| `Unloading.DecrementedCounts` | dyld3/AllImages.cpp:1022-1039 | dlclose takes one from a positive count and asks for a collection exactly when it was the last |
| `Unloading.RootIffCount` | dyld3/AllImages.cpp:1117-1129 | an image is a root exactly when its count is positive |
| `Unloading.LiveGrows` | dyld3/AllImages.cpp:1117-1190 | more images and more roots never make a live image dead |
| `Unloading.RemainingPlaces` | dyld3/AllImages.cpp:492-502 | the images that stay are exactly those not doomed, in their old order |
| `Reaper.Collector.MarkDirectlyDlopenedImagesAsUsed` | dyld3/AllImages.cpp:1117-1129 | marks exactly the images with a count |
| `Reaper.Collector.InUseCount` | dyld3/AllImages.cpp:1131-1139 | the number of marks |
| `Reaper.Collector.MarkDependentsOf` | dyld3/AllImages.cpp:1141-1151 | marks only dependents, and if it marks nothing all dependents were marked |
| `Reaper.Collector.MarkDependentOfInUseImages` | dyld3/AllImages.cpp:1153-1159 | one sweep keeps marks within the live images; a sweep without effect closes the marks under dependents |
| `Reaper.MarkedAreLive` | dyld3/AllImages.cpp:1169-1190 | marks that hold the roots and are closed contain every live image |
| `Reaper.Collector.GarbageCollect` | dyld3/AllImages.cpp:1169-1190 | the mark loop terminates with exactly the least set around the opened images closed under dependents, and counts the rest |
| `Reaper.Collector.DeadImages` | dyld3/AllImages.cpp:1299-1302 | the images to unload are exactly the unmarked ones |
| `Reaper.UnmarkedAreDead` | dyld3/AllImages.cpp:1299-1302 | unmarked means dead |
| `Reaper.AllImages.IncRefCount` | dyld3/AllImages.cpp:1008-1020 | the in-place update of the count list |
| `Reaper.AllImages.DropReference` | dyld3/AllImages.cpp:1022-1036 | the in-place update and whether a collection is due |
| `Reaper.AllImages.RemoveImages` | dyld3/AllImages.cpp:492-502 | exactly the named images leave the list, the others keep their order |
| `Reaper.AllImages.CollectPass` | dyld3/AllImages.cpp:1270-1311 | one pass removes exactly the dead images |
| `Reaper.AllImages.GarbageCollectImages` | dyld3/AllImages.cpp:1263-1317 | without interference: a nested request only counts up; the outermost one collects and returns the counter to zero |
| `Reaper.AllImages.DecRefCount` | dyld3/AllImages.cpp:1022-1039 | dlclose end to end |
| `GcProtocol.CounterStep` | dyld3/AllImages.cpp:1263-1317 | the counter invariant of the request protocol, step by step |
| `GcHistory.NoRequestLost` | dyld3/AllImages.cpp:1263-1317 | over every interleaving there is at most one collector, exactly while the counter is positive, and when it is zero every request was followed by a mark and that by a removal |
| `GcProtocol.RootsMarkOkStep` | dyld3/AllImages.cpp:1263-1317 | a step keeps opened images out of what a pass will remove if and only if it opens none of them |
| `GcHistory.CountsExact` | dyld3/AllImages.cpp:1008-1039 | over every run the count of an address is its balance: the opens and the loads of an uncached top, less each close that found it open |
| `GcHistory.ReferencesExact` | dyld3/AllImages.cpp:1008-1039 | over every run whose terminators open no doomed image, whatever they load, entries are unique and positive, each count is that balance, and open addresses are loaded |
| `GcHistory.OpensNestedExactly` | dyld3/AllImages.cpp:1192-1211 | that condition on runs, action by action |
| `GcHistory.RequestsExact` | dyld3/AllImages.cpp:1034-1038 | requests made and requests pending are together the closes that took a balance from one to zero; the counter holds the requests not yet taken off |
| `GcHistory.CloseRequests` | dyld3/AllImages.cpp:1022-1039 | a close adds a pending request exactly when it takes the balance from one to zero |
| `GcHistory.DoomedAtMark` | dyld3/AllImages.cpp:1280-1298 | what a collector is about to remove is what was dead when it marked |
| `GcHistory.LoadedExactly` | dyld3/AllImages.cpp:1299-1311 | what is loaded after any action, from what was loaded before it: the images of a load, less those a removal found dead at its mark |
| `GcHistory.NeverStuck` | dyld3/AllImages.cpp:1263-1317 | a pending request can be made and a running collector can go on, after every run |
| `GcProtocol.RemovalKeepsLive` | dyld3/AllImages.cpp:1299-1311 | no removal drops a live or never-unload image |
| `GcProtocol.NothingLeftOver` | dyld3/AllImages.cpp:1263-1317 | when nothing is pending every unloadable image still loaded is live |
| `GcProtocol.OpenSafe` | dyld3/AllImages.cpp:1192-1211 | a dlopen between mark and removal is harmless if and only if its image was not already doomed |
| `GcProtocol.LoadSafe` | dyld3/AllImages.cpp:1192-1211 | a load between mark and removal is harmless if and only if none of its unloadable images depends on a doomed one |
| `GcProtocol.SafelyNestedExactly` | dyld3/AllImages.cpp:1263-1317 | over every run, what passes are about to remove stays safe to remove at every moment if and only if no terminator opens or loads what leads to a doomed image |
| `GcProtocol.LoadingDoomed` | dyld3/AllImages.cpp:1280-1311 | the removal keeps every dependent of the loaded images if and only if none was doomed; the loaded images stay |
| `GcProtocol.LoadedTopLosesDependent` | dyld3/AllImages.cpp:1280-1311 | otherwise a live image is dropped: the one the loaded top keeps alive |
| `GcProtocol.OpeningDoomed` | dyld3/AllImages.cpp:1280-1311 | opening a doomed image: its count is positive, and the removal drops it all the same |
| `ImmutableRanges.StepInv` | dyld3/AllImages.cpp:277-301 | every atomic step of writer and readers keeps the table invariant, and entries once written never change |
| `ImmutableRanges.RunInv` | dyld3/AllImages.cpp:277-301 | so it holds over every interleaving |
| `ImmutableRanges.TableShape` | dyld3/AllImages.cpp:277-301 | buckets stay filled from the front, and only a full one has a successor |
| `RangeHistory.BegunExact` | dyld3/AllImages.cpp:277-301 | the ranges begun are those of the appends made: all finished but the one the writer is at |
| `RangeHistory.BucketSizes` | dyld3/AllImages.cpp:277-301 | the first bucket holds two ranges and every later one fifteen, for ever |
| `RangeHistory.AppendStored` | dyld3/AllImages.cpp:277-301 | once the writer has come back from an append its range is in the table, and stays there |
| `RangeHistory.StoredWasAppended` | dyld3/AllImages.cpp:277-301 | a slot in use holds a range that was appended |
| `RangeHistory.ReaderOf` | dyld3/AllImages.cpp:803-820 | each read keeps its own query, and answers false at once exactly when the query is outside the bounds |
| `RangeHistory.TrueMeansInside` | dyld3/AllImages.cpp:809-817 | a true answer always comes from some appended range that starts at or below the address and, with the end cut to 64 bits, ends above it |
| `ImmutableRanges.WrappingAnswer` | dyld3/AllImages.cpp:809-817 | a run with a true answer for a query that wraps and that no appended range holds |
| `RangeHistory.FalseMeansNone` | dyld3/AllImages.cpp:803-820 | a false answer within the bounds excludes every range whose append the writer had come back from before the read began |
| `RangeHistory.NeverStuck` | dyld3/AllImages.cpp:277-301 | after every run the writer can go on or start an append, reads can start, and those not answered can go on |
| `RangeHistory.AppendEnds` | dyld3/AllImages.cpp:277-301 | each step of an append brings it nearer its end, whatever readers do |
| `RangeHistory.ReadEnds` | dyld3/AllImages.cpp:803-820 | each step of a read brings it nearer its answer |
| `Loading.ImageNumSet.Add` | dyld3/Loading.cpp:82-88 | the bitmap and overflow array refine adding to a set |
| `Loading.ImageNumSet.Contains` | dyld3/Loading.cpp:90-100 | membership of exactly the numbers added |
| `Loading.FindImageExactly` | dyld3/Closure.cpp:960-993 | the last array that holds the number gives the image, the first in it; otherwise there is none |
| `Loading.OverridesPlaces` | dyld3/Loading.cpp:195-209 | the overrides are one for each overriding image of the arrays that count, in array order, and no other |
| `Loading.CollectOverrides` | dyld3/Loading.cpp:195-209 | the override list gathered from all arrays: (overridden, own number) of exactly those images, in order |
| `Loading.MapDependent` | dyld3/Loading.cpp:224-230 | a dependent number becomes the replacement of the first override of it, and stays itself when there is none |
| `Loading.Loader.LoadDependent` | dyld3/Loading.cpp:223-251 | one dependent is skipped, added or reported missing |
| `Loading.Loader.LoadDependentsOf` | dyld3/Loading.cpp:221-252 | after one image all of its mapped dependents are present |
| `Loading.Loader.CompleteAllDependents` | dyld3/Loading.cpp:188-254 | the worklist ends within capacity; on success the new images are distinct, new, reachable from the top and complete; every error is true |
| `Loading.CompleteIsLeast` | dyld3/Loading.cpp:188-254 | such a list is the least set around the top closed under mapped dependents |
| `Loading.LaunchImagesCache.Find` | dyld3/Loading.cpp:1118-1130 | a hit is the index the linear scan finds, and there is a hit exactly for a filled slot |
| `Loading.LaunchImagesCache.TryAdd` | dyld3/Loading.cpp:1132-1140 | fills the slot of the number and no other |
| `Loading.LaunchImagesCache.FindImage` | dyld3/Loading.cpp:132-148 | the cached lookup agrees with the linear scan on every number |
| `Loading.CacheStaysValid` | dyld3/Loading.cpp:127-148 | the cache stays right while images are added |
| `InvalidateRoots.ClosureBuilder.InvalidateImage` | dyld3/ClosureBuilder.cpp:1919-1933 | an image is flagged exactly if a present dependent of any kind is flagged |
| `InvalidateRoots.ClosureBuilder.InvalidatePass` | dyld3/ClosureBuilder.cpp:1918-1934 | a pass that changes nothing has reached the fixpoint |
| `InvalidateRoots.QuietPass` | dyld3/ClosureBuilder.cpp:1935-1936 | flags that no image would add to are closed under the rule |
| `InvalidateRoots.ClosureBuilder.InvalidateInitializerRoots` | dyld3/ClosureBuilder.cpp:1914-1941 | the loop terminates with the least flagged set, and reports roots exactly when something changed |
| `TopDownVisit.Visit.PushBack` | dyld3/AllImages.cpp:942 | the visited array, sized to the loaded images, always has room |
| `TopDownVisit.Visit.VisitDependent` | dyld3/AllImages.cpp:927-948 | one link: what is marked and what is descended into, overrides included |
| `TopDownVisit.Visit.VisitDependents` | dyld3/AllImages.cpp:926-948 | all links of one image lead to visited images, and nothing else is marked; the stack array overflows if and only if more than 256 dependents are new |
| `TopDownVisit.Visit.BreadthFirstRecurseDependents` | dyld3/AllImages.cpp:923-955 | the recursion terminates and leaves no visited image unexpanded |
| `TopDownVisit.Visit.RecurseInto` | dyld3/AllImages.cpp:951-954 | so does the loop over the dependents just visited |
| `TopDownVisit.EdgeExactly` | dyld3/AllImages.cpp:927-934 | an edge is a link, not upward and not a missing weak one, to the first image of its number or overriding it |
| `TopDownVisit.Visit.VisitDependentsTopDown` | dyld3/AllImages.cpp:957-968 | without overflow the handler is called on exactly the images reachable by links not upward, each after one that links to it, and once each without overrides |
| `Containers.ContainerTypedBytesWriter.Container` | dyld3/ClosureWriter.cpp:43-55 | an empty container in a fresh allocation |
| `Containers.GrownRoom` | dyld3/ClosureWriter.cpp:60-66 | growth always makes room, but for a payload as large as a full buffer |
| `Containers.ContainerTypedBytesWriter.Reserve` | dyld3/ClosureWriter.cpp:60-77 | growth keeps the content, and fails in exactly one case |
| `Containers.ContainerTypedBytesWriter.Append` | dyld3/ClosureWriter.cpp:57-87 | an accepted payload is appended and every write is in bounds; each assertion fires exactly under its stated condition |
| `Containers.HoldsSnoc` | dyld3/ClosureWriter.cpp:78-85 | the bytes after an append are the container of one more payload |
| `Containers.ForEachAttribute` | dyld3/Closure.cpp:68-87 | the iteration loop |
| `Containers.FindAttributePayload` | dyld3/Closure.cpp:98-113 | the first payload of a kind |
| `Containers.ContainerRoundTrip` | dyld3/Closure.cpp:68-87 | iterating yields exactly the appended (type, payload) list |
| `Containers.ContainerTypedBytesWriter.ImageArray` | dyld3/ClosureWriter.cpp:422-431 | an image array with room for its offsets |
| `Containers.ContainerTypedBytesWriter.AppendImage` | dyld3/ClosureWriter.cpp:433-438 | the offset recorded before the append is where the image goes |
| `Containers.ImageRecorded` | dyld3/ClosureWriter.cpp:433-438 | every recorded offset leads to its image |
| `Containers.ImageForNum` | dyld3/Closure.cpp:960-980 | without roots the i-th image has the i-th number; with roots the first image that carries the number is found |
| `ClassTable.PackedFields` | dyld3/Closure.h:257-305 | fields that share a word do not overlap, and no name target is the sentinel |
| `ClassTable.CollectedFrom` | dyld3/ClosureBuilder.cpp:1971-2007 | after any classes, each name has the name target of its first class and all its classes in order |
| `ClassTable.CollectImages` | dyld3/ClosureBuilder.cpp:1971-2007 | the loops over the images, last first, build exactly those two maps |
| `ClassTable.CountDuplicates` | dyld3/ClosureBuilder.cpp:2009-2014 | the space counted beforehand for names with several classes |
| `ClassTable.ObjCClassOpt.WriteStrings` | dyld3/ClosureBuilder.cpp:3893-3911 | used slots hold target and check byte, all other slots are empty |
| `ClassTable.ObjCClassOpt.WriteGroup` | dyld3/ClosureBuilder.cpp:3936-3960 | one name: its class in place, or a placeholder and its classes behind the others |
| `ClassTable.ObjCClassOpt.WriteClasses` | dyld3/ClosureBuilder.cpp:3923-3961 | every key finds its own slot, still empty, and the spill array is filled exactly |
| `ClassTable.ObjCClassOpt.Write` | dyld3/ClosureBuilder.cpp:3917-3962 | the whole table |
| `ClassTable.WriteClassHashTable` | dyld3/ClosureBuilder.cpp:1966-2027 | from the images to the written table; none without a name |
| `ClassTable.StringLookup` | dyld3/Closure.cpp:1377-1391 | a string is found exactly if it was stored, at its own address, whatever its check byte collides with |
| `ClassTable.ClassLookup` | dyld3/Closure.cpp:1428-1475 | a name finds exactly the classes seen under it, in order, each at its own image; an absent name finds none |
| `ClassTable.FirstTarget` | dyld3/Closure.cpp:1442-1459 | a single class may be based on the image of its name |
| `ClassTable.ObjCClassOpt.ForEachClass` | dyld3/Closure.cpp:1428-1475 | the handler gets the found classes up to the one at which it stops |
| `ClassTable.DeliveredExactly` | dyld3/Closure.cpp:1428-1475 | the handler sees addresses from the front and misses some only behind the one at which it stops |
| `ClassTable.LoadOrderPlaces` | dyld3/ClosureBuilder.cpp:1971-2007 | every class of every image read without an error is registered once, the last image first and each image in order |
| `ClassTable.ClassesSeenPlaces` | dyld3/ClosureBuilder.cpp:1971-2007 | the classes seen under a name are all that carry it, in the order seen |
| `WeakDefs.FromImageWeakDefLookup` | dyld3/MachOAnalyzerSet.cpp:486-525 | nothing is found exactly when no image is eligible; otherwise what the first eligible non-weak image defines, or the first eligible one when all are weak; one patch, in load order, for each cached eligible image other than where the definition in use before it was found |
| `WeakDefs.DefinersPlaces` | dyld3/MachOAnalyzerSet.cpp:483-502 | the definers are all eligible images, in load order |
| `WeakDefs.ChosenDefinition` | dyld3/MachOAnalyzerSet.cpp:483-525 | over every load order the first non-weak definition wins, otherwise the first |
| `WeakDefs.PatchesExactly` | dyld3/MachOAnalyzerSet.cpp:503-521 | the patches redirect exactly the other cached definitions to the final target, if and only if the first definition is never replaced or nothing up to its replacement can be patched |
| `WeakDefs.RedirectedExactly` | dyld3/MachOAnalyzerSet.cpp:503-521 | the same by positions in the load order |
| `WeakDefs.ReplacedFirstNotPatched` | dyld3/MachOAnalyzerSet.cpp:503-521 | a weak cached definition replaced by a strong cached one: the wrong one is patched, to the wrong target |
| `VersionChecks.AtLeast` | dyld3/APIs.cpp:371-395 | some version recorded for the platform asked for, a simulator of it or Mac Catalyst is not older; a set asks for its column of the table |
| `VersionChecks.FindVersionSetEquivalent` | dyld3/APIs.cpp:563-581 | the set of the last table entry not newer, in the column of the active platform |
| `VersionChecks.SetupFastPath` | dyld3/APIs.cpp:583-592 | what is stashed for the fast comparison |
| `VersionChecks.SetEquivalent` | dyld3/APIs.cpp:571-581 | comparing set equivalents is comparing versions through the lower bound |
| `VersionChecks.FastPathExactly` | dyld3/APIs.cpp:610-639 | fast and slow path agree if and only if the query is above version zero, or for the own platform, or for a set already covered |

## Left out

- RebaseRoundTrip.RebaseRoundTrip: for more than 2^20 offsets `RebaseRoundTripExactly` has the condition on
  the builder at each addition (a repeat count about to be full), not on the offsets alone.
- RebasePatterns.RebasePatternBuilder.PushLeaps: the pattern array is unbounded; for a forward step smaller
  than a pointer the wrapped distance takes on the order of 10^12 leap patterns, which would not fit in
  memory, although the replay would be right.
- RebasePatterns.RebasePatternBuilder.Add: has the assertions of the builder as its precondition; `Build`
  models a failed one as an aborted run.
- BindPatterns.BindPatternBuilder.Add: likewise; `BuildMixed` models a failed assertion as an aborted run.
- DiskSegments.DiskSegmentRoundTrip: for page-aligned, ordered, disjoint segments whose fields fit their
  widths, with file content starting at file offset 0; other layouts are not claimed.
- GcHistory.ReferencesExact: runs whose terminators open an image already doomed in the same pass are
  outside it; `RootsMarkOkStep` and `OpeningDoomed` say exactly what such an open does.
- GcProtocol.RemovalKeepsLive: so are, here, runs whose terminators load an image that depends on a doomed
  one; `LoadSafe`, `LoadingDoomed` and `LoadedTopLosesDependent` say exactly what such a load does.
- GcProtocol.NothingLeftOver: for the same runs; loads that bring in an image nothing opened are excluded too.
- GcProtocol.CounterStep: a request that would take `_gcCount` past the largest 32-bit integer is not
  modelled; reference counts are unbounded.
- Dependents of never-unload images are not roots, as in the Reaper.
- Atomic accesses are sequentially consistent; weaker orderings than the acquire and release of the code
  are not modelled. An address range with start 0 is never added.
- InitInterleaving.AtMostOnce: images are loaded while lists run, but none is unloaded.
- RunInitializers.DependentsInitedFirst: one thread, no re-entry, and listed images that start fixed up or
  initialized; `InitInterleaving` covers threads and nesting but not ordering.
- Loading.Loader.CompleteAllDependents: image arrays are well-formed and hold the top image.
- TopDownVisit.Visit.VisitDependentsTopDown: the handler never stops, and no loaded number is overridden by
  another loaded image.
- Containers.ContainerTypedBytesWriter.ImageArray: the offsets must fit the first allocation of 1 MB, which
  the code does not check; payloads are whole words and allocation never fails.
- ClassTable.WriteClassHashTable: the hash is given and tells the names apart; the multimap of dyld3/Map.h
  is a list in insertion order; fewer than 256 classes a name and at most 2^23 duplicates in all.
- ClassTable.ClassLookup: names read back from the images unchanged; overlapping memory is not modelled.
- WeakDefs.PatchesExactly: each image occurs once; searching an image for a symbol is given.
- VersionChecks.FastPathExactly: the executable records one version, of the active platform, which is one
  of the five in the table.
- Perfect-hash construction, `DyldSharedCache`, pointer authentication and mach-o parsing.
- File system, memory mapping, code signing, sandbox, dtrace, logging and notifications.
- Path search, `@rpath` expansion, interposing and path overrides.
- `forEachSkipIfExistsFile`, the must-be-missing list, JSON output and the deprecated NS* calls.
- The order of dlsym results after an early stop.
