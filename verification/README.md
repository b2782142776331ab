# A verified model of the Wi-Fi utilization service

The service captures 802.11 frames from a monitor-mode radio, turns them into rolling per-second
statistics, shares one capture session between a browser, a command line and a front panel, and can
export the beacons it sees as standalone pcapng files. This project models the parts of it whose
correctness is decided by state and by arithmetic, and proves what they promise.

`dafny verify dfyconfig.toml` checks every file.

## What is modelled

**The rolling analyzer.** `BeaconSlots` is the inference of beacon slots from reception times: an
interval of phases, narrowed by each reception. `Frames`, `HostTracking`, `Projection` and `Merge`
are the counting of frames: one batch pass, one live accumulation, and the merge of per-second
results, which are proved to agree. `Timeline` and `RollingWindow` cut a window into slices and whole
seconds. `AnalyzerLog` says what the input alone determines: which frames are retained, how far
completion has come, and what each completed second must show. `AnalyzerState` gives the fields of
the analyzer their meaning, and `Analyzer` is the object itself, with its buckets, its projection
cache, expiry, completion, snapshots and publishing, proved against that log. `AnalyzerRuns` compares
whole runs of it that differ in when snapshots and rows are asked for, and `BoundarySecond` is a run in
which the cache outlives the frames. `TargetCache` is the cache key when a target frequency is set,
`TargetSeconds` the cached seconds and windows under such a key, and `LiveWindow` the live form of the
window. `FrameFacts` and `AnalyzerFacts` say what all of this amounts to in terms of the fields of the
frames and records that came, without naming the functions that compute it. `RetryAudit` is the independent second computation of the retry counts, and `AuditReplay` runs
both over one capture.

**Beacon export.** `Bytes` and `Pcapng` read blocks as draft-ietf-opsawg-pcapng lays them out
(sections 3.1 and 4.1); `BeaconFilter` reads options, interfaces and packets (sections 3.5, 4.2 and
4.3), selects complete beacons, and shows that what it writes can be filtered again without change;
`CaptureFacts` says, byte by byte and in both directions, what is read, accepted, kept and counted.
`BeaconWriter` is the rotating writer with its limits and every failure a file operation can raise;
`BeaconExport` is the producer, the bounded queue and the worker, one atomic step at a time; and
`PacketSource` is the fan-out in front of them. File failures, lock contention and lost races are
nondeterministic choices, so the theorems hold for every pattern of them. Each one that goes wrong is
recorded in a ghost result or counter, so that the contracts also say what is certain when none does:
nothing then fails, is refused or is skipped but for the reasons stated.

**The session protocol.** `Ipc` is the framed socket, with partial sends and chunked reads; `Wire` is
the typed JSON of publications, `Publications` the types published, field by field; `Session` is the
owner process, its latest-wins channel and the broker that serialises controls. What `Session` lets
happen to publications on their way (one more behind the others or in the place of the last, the
first ones read, or lost by a failed read) is what `Ipc.Connection` proves of `Send`, `Push` and `Pull`.

**Smaller cores.** `RadioSession` borrows a radio and puts it back; `LogWriter` is the bounded log
queue; `RadioGrouping` groups BSSIDs into radios; `Sorting` is the sort that groups, receptions and
audits share, and `Wrappers` and `Rounding` hold the optional value, the rounding and the order of
times that all use.

Objects that change are classes whose methods state the new state; loops are loops with invariants;
whole runs are methods over an arbitrary sequence of events whose invariant is the theorem.

## Where the code and its description differ

* Slot inference is described as explaining all receptions with the fewest missing slots
  (`analyzer.py:1936-1942`). The loop is greedy and can skip a reception that another schedule
  explains: `BeaconSlots.PromiseFails` gives one input, and `BeaconSlots.PromiseExactly` the exact
  condition. It can be checked reception by reception: none comes less than one interval after the
  earliest phase of the slot already taken.
* The rolling projection would count a frame twice in a window that lies strictly inside one second
  (`analyzer.py:1097-1170`). `RollingWindow.SlicesCoverWindow` states when, and
  `RollingWindow.LongWindowsCount` shows that the analyzer never asks for such a window.
* Expiry can cut the boundary second without dropping its cached projection
  (`analyzer.py:1216-1236`). `Analyzer.CachedSecond` says of every reachable state exactly when the
  cached second is still what is stored, and `BoundarySecond.StaleBoundary` is a run in which it is
  not. Every row and snapshot states from where its frames are shown: from the last expiry on, or from
  earlier in that one second.
* With a target frequency, the cache key of a second leaves out BSSIDs whose definitions are too old
  to be fresh then (`analyzer.py:1199-1214`), although knowing them decides which BSSID a frame belongs
  to. `TargetSeconds.StaleRun` is a run in which a cached projection is answered, wrongly, after such a
  BSSID has expired, and `TargetCache.KeyIsExact` gives the exact condition.
* Each reporting interval infers its slots from the beacons received until shortly after its own end
  (`analyzer.py:1926-1950`), so a later interval may see the earlier ones differently.
  No reception of one list is counted twice, as the description promises (`BeaconSlots.NeverTwice`), but
  `BeaconSlots.AdjacentFails` gives receptions whose counts do not add up over two intervals;
  `BeaconSlots.AdjacentExactly` says exactly when they do.
* Closing an exported file can link its final name and then fail to remove the partial one
  (`beacon_export.py:178-196`). The complete file stays, while its packets count as skipped:
  `BeaconWriter.RotatingBeaconWriter.CloseSegment` says exactly when, and
  `BeaconExport.BeaconExport.LinkedIsSkipped` and `FilesStandAlone` cover those files too.
* The last exception handler of the export worker would drop a writer without counting it
  (`beacon_export.py:325-330`). `BeaconExport.Worker.Recover` shows that it is never needed for a
  writer: a file object whose closing was attempted counts as closed, so closing the lease a second
  time cannot fail.

## Model

| member | source | states |
|---|---|---|
| `BeaconSlots.InferenceSound` | beacon_live/analyzer.py:1955-1987 | for every sequence of observations the phases kept are exactly those that place every kept observation zero to one interval after its slot, the slots strictly increase from zero, and the ends of the phase interval cross by no more than the rounding tolerance |
| `BeaconSlots.LeastSlot` | beacon_live/analyzer.py:1960-1985 | for any tolerance: no slot above the previous one that an allowed phase explains is earlier than the slot chosen, and a phase allowed up to the tolerance explains the slot chosen |
| `BeaconSlots.SkippedIffCrowded` | beacon_live/analyzer.py:1960-1985 | for any tolerance: an observation is skipped if and only if it comes, even with the scan's rounding slack, less than one interval after the earliest phase of the slot already taken |
| `BeaconSlots.KeptAll` | beacon_live/analyzer.py:1926-1987 | for any tolerance: every observation is kept if and only if none is crowded when it is met |
| `BeaconSlots.NothingSkippedIsLeast` | beacon_live/analyzer.py:1936-1942 | when nothing is skipped, the slots chosen are pointwise no later than those of any schedule that explains the observations, so no schedule has fewer missing slots |
| `BeaconSlots.PromiseExactly` | beacon_live/analyzer.py:1936-1942 | for any tolerance: the documented minimum of missing slots is met if and only if no observation is crowded or no schedule explains the observations at all |
| `BeaconSlots.PromiseFails` | beacon_live/analyzer.py:1936-1942 | with interval 1 and receptions at 0, 1.9, 4.1 and 4.15 the loop skips the last one although slots 0, 2, 4 and 5 explain all four |
| `BeaconSlots.SpreadBeaconsKept` | beacon_live/analyzer.py:1936-1987 | for any tolerance: receptions at least one interval apart are all kept |
| `BeaconSlots.ReceivedWithinExpected` | beacon_live/analyzer.py:1988-2001 | the received slots of an interval never exceed the expected ones, and neither is negative |
| `BeaconSlots.CountsAdd` | beacon_live/analyzer.py:1988-2001 | expected and received counts of adjacent intervals add up to those of the whole |
| `BeaconSlots.ExpectedNearLength` | beacon_live/analyzer.py:1988-2001 | once the schedule has started, the expected count differs by less than one from the interval's length in beacon intervals |
| `BeaconSlots.LeastFeasible` | beacon_live/analyzer.py:1966-1985 | the candidate loop returns the first feasible slot of its range, or none |
| `BeaconSlots.AssignSlots` | beacon_live/analyzer.py:1955-1987 | the loop over the observations computes the inference the lemmas are about |
| `BeaconSlots.BeaconReceptionCounts` | beacon_live/analyzer.py:1926-2001 | received and expected counts for an interval, from any list of receptions, including none before its end |
| `BeaconSlots.AdjacentExactly` | beacon_live/analyzer.py:1926-2001 | for every input: separately computed counts of adjacent intervals add up to those of the whole if and only if nothing had been received by the first cut-off, or the phases narrowed by later receptions leave as many slots in the first interval, and as many of the earlier receptions in them, as before |
| `BeaconSlots.NeverTwice` | beacon_live/analyzer.py:1936-1942 | for every list of receptions and any two intervals, one after the other: a reception kept by the earlier computation is kept in the same slot by the later one and is not counted in both |
| `BeaconSlots.AdjacentFails` | beacon_live/analyzer.py:1926-2001 | with interval 1 and receptions at 0, 2.3 and 2.5, each of the intervals 0 to 1 and 1 to 2 receives one beacon, and so does the interval 0 to 2 |
| `BeaconSlots.AdjacentReceptionsAdd` | beacon_live/analyzer.py:1926-2001 | when no reception falls between the cut-offs of two adjacent intervals, so that both see the same receptions, their counts add up to the count of the whole interval; AdjacentExactly is the statement for every input |
| `Frames.EligibleExactly` | beacon_live/models.py:107-128 | a frame counts towards the retry ratio exactly when it is intact, unicast, its retry bit was read, and it is data or a management exchange that is retried |
| `Frames.AssociatedExactly` | beacon_live/analyzer.py:1752-1830 | a frame belongs to the first of BSSID, TA, RA, SA, DA that is a known BSSID, else to the BSSID it names |
| `Frames.ClientExactly` | beacon_live/analyzer.py:1690-1712 | a data frame shows a client exactly when the other end of its link is a unicast station that is not a known BSSID |
| `HostTracking.ObserveIsMerge` | beacon_live/host_tracking.py:23-50 | observing a frame is merging the summary of that frame alone, so both paths agree on counts, times and ties |
| `HostTracking.MergeHostAssociative` | beacon_live/host_tracking.py:39-50 | merging host summaries in order is associative, ties included |
| `HostTracking.MostRecent` | beacon_live/host_tracking.py:64-82 | the selection keeps only hosts given, and all of them when they are within the limit |
| `HostTracking.KeptOutrank` | beacon_live/host_tracking.py:64-82 | every host kept was active more recently than every host left out, ties going by address |
| `HostTracking.KeptSize` | beacon_live/host_tracking.py:64-82 | the selection keeps exactly the limit when there are more hosts |
| `Projection.ScanScope` | beacon_live/analyzer.py:1332-1354 | the live reverse scan decides the channel scope of a frame as the bisect over the filtered timeline does, for every time-ordered beacon list |
| `Projection.LatestDefinition` | beacon_live/analyzer.py:1726-1749 | the entry just before the bisect point of the filtered timeline is the latest definition no later than the frame |
| `Projection.ProjectFrames` | beacon_live/analyzer.py:1622-1723 | the batch loop computes the projection of its frames |
| `Projection.OpenSecond.Add` | beacon_live/analyzer.py:1264-1330 | one live frame updates every counter, summary, client and host of the open second as stated |
| `Projection.StreamIsBatch` | beacon_live/analyzer.py:1264-1330 | for every non-decreasing frame sequence, each frame read under any BSSIDs and scope of its own, such as those known when it came, the live accumulation is one batch pass |
| `Projection.CountsNest` | beacon_live/analyzer.py:1643-1723 | retries are among eligible frames, those among readable ones, those among all; each BSSID's summary nests likewise within the whole |
| `FrameFacts.ReadMeans` | beacon_live/analyzer.py:1264-1330 | for every frame, set of known BSSIDs and time-ordered scope: it counts as readable, eligible or a retry, belongs to a BSSID and shows a client exactly when its own fields say so; a client needs an intact data frame in scope whose link has one known BSSID and one unicast, unknown station |
| `FrameFacts.ScopeExactly` | beacon_live/analyzer.py:1726-1749 | a frame of a BSSID is in scope exactly when no target is set, or the latest definition of that BSSID no later than the frame is fresh and on the target frequency |
| `FrameFacts.ProjectionExactly` | beacon_live/analyzer.py:1622-1723 | for every sequence of frames, each read under its own BSSIDs and scope: every count of the projection is the number of frames with those field values, and its clients are exactly the stations so shown |
| `FrameFacts.SummaryExactly` | beacon_live/analyzer.py:1643-1690 | so are the counts and clients of every BSSID's summary, and a BSSID has one exactly when a counted frame belongs to it |
| `FrameFacts.TimesExactly` | beacon_live/analyzer.py:1643-1690 | a summary's first and last times are the least and greatest times of its frames |
| `FrameFacts.HostExactly` | beacon_live/host_tracking.py:23-61 | while no host was refused, exactly the stations shown have details, whose activity, last signal and vendor are those of the latest frames that tell them, the last one in a tie |
| `FrameFacts.HostCountsExactly` | beacon_live/host_tracking.py:23-61 | and a host's counters are the numbers of frames in which it plays each role |
| `FrameFacts.BatchIsSights` | beacon_live/analyzer.py:1622-1723 | the batch projection of frames under one set of BSSIDs and one scope is the case the facts above are about |
| `Merge.MergeHosts` | beacon_live/host_tracking.py:64-82 | the host merge computes the joined tables restricted to the most recent hosts, and reports whether any were left out |
| `Merge.MergeFrameProjections` | beacon_live/analyzer.py:1572-1620 | the merge loop computes the merged projection |
| `Merge.JoinAssociative` | beacon_live/analyzer.py:1572-1620 | merging projections is associative |
| `Merge.ProjectIsSummed` | beacon_live/analyzer.py:1622-1723 | a pass over frames, each read under its own BSSIDs and scope, is the merge of their single projections, up to the host cap |
| `Merge.MergedIsOnePass` | beacon_live/analyzer.py:1572-1723 | for consecutive slices whose frames are each read under BSSIDs and scope of their own, merging the slices' projections gives one pass over all frames: counts, per-BSSID summaries, first and last times and client sets always, and host details, ties included, unless there are more clients than the cap, which both then report |
| `Merge.MergedIsProject` | beacon_live/analyzer.py:1572-1723 | so it is for slices all read under the same BSSIDs and scope: the merge of their batch projections is the batch projection of all their frames |
| `Merge.LimitedExactly` | beacon_live/host_tracking.py:53-61 | host details are reported as limited exactly when there are more than 1024 clients, and are otherwise there for every client |
| `RollingWindow.SlicesCoverWindow` | beacon_live/analyzer.py:1097-1170 | leading slice, whole seconds and trailing slice hold exactly the window's frames when a second boundary lies in the window, and otherwise hold them twice |
| `RollingWindow.WindowIsOnePass` | beacon_live/analyzer.py:1097-1170 | without a target frequency: for every window that contains a second boundary, the rolling projection agrees with one pass over the stored frames of the window; in a window inside one second it sees each twice |
| `RollingWindow.TargetWindowIsOnePass` | beacon_live/analyzer.py:1097-1170 | with a target frequency: for every window that contains a second boundary, boundary slices read under the window's BSSIDs and whole seconds read under the BSSIDs with a definition merge to one pass over the window's frames, each read under the set of its slice |
| `RollingWindow.LongWindowsCount` | beacon_live/analyzer.py:1097-1170 | a window of at least one second always contains a second boundary |
| `RollingWindow.TrimmedSecondStale` | beacon_live/analyzer.py:1216-1236 | a projection of a second taken before its older part was trimmed equals one taken after if and only if the trimming removed none of its frames |
| `LiveWindow.Live.Add` | beacon_live/analyzer.py:1264-1330 | a live frame, read under the BSSIDs and scope then known, is counted into its second; every second's projection stays that of its frames, each under what was known when it came |
| `LiveWindow.Live.Learn` | beacon_live/analyzer.py:348-360 | what a beacon makes known changes how later frames are read, and nothing that was counted before |
| `LiveWindow.Live.Rolling` | beacon_live/analyzer.py:1115-1126 | merging the live seconds a window touches is one pass over the frames of those seconds, each under what was known when it came, and over exactly the window's frames when it begins and ends with a second |
| `LiveWindow.Live.Expire` | beacon_live/analyzer.py:1219-1224 | live expiry drops whole seconds only, and keeps every remaining one |
| `TargetCache.KeyIsExact` | beacon_live/analyzer.py:1189-1214 | with a target frequency, two states of the beacon table with one cache key for a second give all its frames one projection if and only if they have definitions of the same BSSIDs, or no BSSID is on the target in that second |
| `TargetCache.ExpiryKeepsKey` | beacon_live/analyzer.py:1189-1256 | expiry of beacons too old to be fresh in a second never changes that second's key, even when it drops the last definition of a BSSID |
| `TargetCache.StaleHit` | beacon_live/analyzer.py:1062-1095 | one BSSID defined long ago and one now: after the first expires the key is the same and a cached projection is wrong |
| `TargetCache.FreshByKey` | beacon_live/analyzer.py:1726-1749 | whether a BSSID is fresh at a time of the second is decided by the key's own entries |
| `TargetSeconds.KeyMeans` | beacon_live/analyzer.py:1189-1214 | two states of the beacon table have one cache key for a second exactly when every BSSID has the same definitions among those that can be fresh in it |
| `TargetSeconds.TargetAnalyzer.Beacon` | beacon_live/analyzer.py:332-376 | a beacon is put in time order among its BSSID's, unless it is older than the window; cached seconds stay as they are |
| `TargetSeconds.TargetAnalyzer.Add` | beacon_live/analyzer.py:332-376 | a frame is stored in time order and its own second leaves the cache, unless it is older than the window |
| `TargetSeconds.TargetAnalyzer.Expire` | beacon_live/analyzer.py:1216-1250 | expiry drops older beacons, frames and cached seconds; a cached second stays what it was made from, and only the second cut through may have lost frames since |
| `TargetSeconds.TargetAnalyzer.ProjectionForSecond` | beacon_live/analyzer.py:1062-1095 | with a target frequency: in every reachable state a second is answered with the projection of the frames and beacon table it was cached from, which had the present key; and with its present projection unless it is a cached second that was cut through, or whose table then had definitions of other BSSIDs while some BSSID is fresh in it |
| `TargetSeconds.TargetAnalyzer.RollingProjection` | beacon_live/analyzer.py:1097-1170 | with a target frequency: for every window of at least a second whose cached seconds are all right in that sense, the rolling projection is one pass over the window's stored frames, each read under the set of its slice |
| `TargetSeconds.StaleRun` | beacon_live/analyzer.py:1062-1095 | a run of two beacons, two frames and one expiry with a window of 60 seconds, after which a second no frame was trimmed from is answered with a projection that is wrong |
| `AnalyzerLog.FirstOpenExact` | beacon_live/analyzer.py:496-512 | a second is past its grace exactly when it is before the first open one |
| `AnalyzerLog.FrontierAdvances` | beacon_live/analyzer.py:487-512 | the completion watermark never goes back |
| `AnalyzerLog.CompletedAfterGrace` | beacon_live/analyzer.py:435-512 | apart from flush and end of capture, a second is completed only by a timestamp past its end and grace |
| `AnalyzerLog.LaterArrival` | beacon_live/analyzer.py:323-385 | a record at or after a completed window's end changes nothing that window shows: its beacons, its frames, and those of its second |
| `AnalyzerLog.SameInputSameRows` | beacon_live/analyzer.py:311-402 | two analyzers fed one input complete the same seconds with the same beacons, frames and receptions however refreshes and publications interleave, when no record had been trimmed by the time of each row |
| `AnalyzerLog.SameWindowAt` | beacon_live/analyzer.py:514-577 | rows made from one input agree on their window's beacons and frames whenever trimming had not passed the start of their windows, for streams of any length |
| `AnalyzerLog.WholeSecondShown` | beacon_live/analyzer.py:514-577 | a row whose second had not been trimmed shows all of that second's frames recorded until then |
| `AnalyzerLog.RowIsFinal` | beacon_live/analyzer.py:487-577 | given time-ordered input, a row shows what the whole input determines for its window, not only the part recorded when it was made |
| `AnalyzerState.BucketInserted` | beacon_live/analyzer.py:357-368 | after a frame is stored, every per-second bucket holds exactly the stored frames of its second, in order |
| `AnalyzerState.CacheInserted` | beacon_live/analyzer.py:357-368 | dropping the cached second of a new frame keeps every other cached projection what it was made from |
| `AnalyzerState.CacheTrimmed` | beacon_live/analyzer.py:1216-1236 | after expiry every cached projection still shows what its second held when it was made, and only the boundary second can have been made before the expiry |
| `Analyzer.CachedSecond` | beacon_live/analyzer.py:1216-1236 | in every reachable state a cached second is the fresh projection of its stored frames, except the second that expiry cut through, where it is so if and only if no frame of that second was trimmed since it was cached |
| `Analyzer.CoherentWindow` | beacon_live/analyzer.py:1097-1170 | in every reachable state: unless the second that expiry cut through was cached and has lost frames since, the rolling projection is one pass over the frames now stored for its window |
| `BoundarySecond.StaleBoundary` | beacon_live/analyzer.py:1216-1236 | a run of three records and one clock step in which that second is stale: the snapshot's window shows a frame no longer stored |
| `Analyzer.Analyzer.FramesBetween` | beacon_live/analyzer.py:1040-1060 | scanning the buckets gives the stored frames of an interval, in order |
| `Analyzer.Analyzer.ProjectionForSecond` | beacon_live/analyzer.py:1062-1095 | without a target frequency: with or without a cache hit, the projection shows the frames the second held at the cut its cache mark records, or holds now; the cache invariants are kept |
| `Analyzer.Analyzer.RollingProjection` | beacon_live/analyzer.py:1097-1170 | for every window: the projection assembled from slices and cached seconds is that of the frames from the last expiry on, or, if the second that expiry cut through is answered from the cache, from an earlier time in that very second |
| `Analyzer.Analyzer.MakeRow` | beacon_live/analyzer.py:514-577 | whatever has expired, a completed row shows the beacons, frames and receptions that the input from the last expiry on determines for its window, with the boundary second as cached; AnalyzerFacts says of such a row what that is on the records' own fields |
| `Analyzer.Analyzer.CompleteSecond` | beacon_live/analyzer.py:514-577 | exactly one row is added, for the next second, with the present cut on record; all rows and records before it stay, and the row is kept for reuse until a record comes for its window |
| `Analyzer.Analyzer.FinalizeAfterGrace` | beacon_live/analyzer.py:496-512 | exactly the seconds before the first open one are completed |
| `Analyzer.Analyzer.Ingest` | beacon_live/analyzer.py:323-385 | ingesting a record appends it to the input, as late exactly when it is older than the window before the latest one, keeps every invariant and every row and record already made; nothing is published; the snapshot, if asked for, shows exactly the recorded window before the latest record |
| `Analyzer.Analyzer.Expire` | beacon_live/analyzer.py:1216-1256 | expiry moves the cut to the window's start, drops what is older, and keeps buckets, beacon table and cache coherent |
| `Analyzer.Analyzer.Refresh` | beacon_live/analyzer.py:634-700 | for every window and state, the snapshot's beacons, window frames and current frames, reused or computed, are one pass over the input from the stated cut on |
| `Analyzer.Analyzer.ViewStates` | beacon_live/analyzer.py:634-700 | the cuts of a snapshot are those of the reused row, or all of them the last expiry, except that window frames may begin earlier within the one second that expiry cut through |
| `Analyzer.Analyzer.RefreshCurrent` | beacon_live/analyzer.py:311-321 | a refresh completes nothing and leaves no trace in the input, and its snapshot shows exactly the window before the latest record |
| `AnalyzerState.TrimmedBehind` | beacon_live/analyzer.py:634-700 | a snapshot whose window and second begin no earlier than what was trimmed does not depend on the trimming at all |
| `Analyzer.Analyzer.PublishReady` | beacon_live/analyzer.py:579-605 | rows are handed out in order and once, and exactly those before the given second |
| `Analyzer.Analyzer.PublishCaptureComplete` | beacon_live/analyzer.py:435-477 | rows are published in order, none already made is changed, the watermark moves as the end of capture requires, and the snapshot is of the last second published: the published row itself if it is the last made and no record has come for its window since, or else, from the expiry it starts with on, one pass over its window's beacons, window frames and current frames, the boundary second as cached |
| `Analyzer.Analyzer.Advance` | beacon_live/analyzer.py:400-433 | the clock step is recorded, rows before it are published and none changed, the cut is exactly the reference less the window, and the snapshot of the second before it shows beacons, window frames and current frames in one pass from that cut on, the boundary second as cached, or is the completed row |
| `Analyzer.Analyzer.Flush` | beacon_live/analyzer.py:479-485 | a flush publishes every row, through every second that has a record, changes none, and its snapshot shows beacons, window frames and current frames in one pass from the last expiry on, the boundary second as cached |
| `Analyzer.Consecutive` | beacon_live/analyzer.py:487-577 | the rows of an analyzer are one gap-free increasing run from the first record's second |
| `AnalyzerState.RowCorrect` | beacon_live/analyzer.py:514-577 | a row assembled from coherent tables shows what the input determines from the cut on |
| `AnalyzerState.ReusedRow` | beacon_live/analyzer.py:645-665 | a completed row is the snapshot of its own second |
| `Analyzer.InterleavingDoesNotShow` | beacon_live/analyzer.py:311-605 | for streams shorter than the window, two analyzers fed the same records and clock complete the same rows, beacon windows included, however snapshot refreshes and publish calls interleave |
| `Analyzer.InterleavedWindowsAgree` | beacon_live/analyzer.py:311-605 | for streams of any length they agree on the beacons and frames of every row whose window trimming had not reached |
| `AnalyzerRuns.Run` | beacon_live/analyzer.py:311-485 | any sequence of records, clock steps, checkpoints and snapshots keeps the analyzer's invariant, adds to the input exactly its records, clock steps and ends of capture, and neither changes nor takes back a row |
| `AnalyzerRuns.TwoRuns` | beacon_live/analyzer.py:311-485 | two runs of the same records, clock steps and ends of capture, with any snapshots, publications and checkpoints between them, complete the same seconds; each has the same beacons and frames in both, unless trimming had reached its window when it was made; and the rows are equal when the input is shorter than the window |
| `AnalyzerFacts.ShownBeacons` | beacon_live/analyzer.py:338-347 | a table shows a BSSID if and only if a beacon record of it, or an intact frame with type 0, subtype 8 and that BSSID, came in the window and after the cut; and of each such BSSID exactly those beacons, with their times and signals, each as often as it came, in time order |
| `AnalyzerFacts.ShownFrames` | beacon_live/analyzer.py:1040-1060 | the frames of an interval are exactly those recorded for it from the cut on, each as often as it was recorded, in time order |
| `AnalyzerFacts.RowBeacons` | beacon_live/analyzer.py:514-577 | so every row shows exactly the beacons that came, by the event that completed it, in the window up to its end and after its cut |
| `AnalyzerFacts.RowCounts` | beacon_live/analyzer.py:514-577 | and every row counts, in its second and in its window, exactly the recorded frames with those field values |
| `AnalyzerFacts.BssidPassExactly` | beacon_live/analyzer.py:1643-1690 | the counts of every BSSID in one pass over an interval are those of the recorded frames that belong to it |
| `AnalyzerFacts.LoudExactly` | beacon_live/analyzer.py:1890-1905 | a BSSID has receptions in a row if and only if its latest beacon in the window, the last to come in a tie, was within 1.1024 seconds of the end and stronger than -75 dBm |
| `AnalyzerFacts.ReceptionsExactly` | beacon_live/analyzer.py:773-800 | and they are counted over the second, at the beacon interval of 0.1024 seconds, from the times of exactly the beacons of it that came and were not trimmed |
| `AnalyzerFacts.FrontierExactly` | beacon_live/analyzer.py:487-512 | completion starts at the second of the first record, and a later second is complete if and only if an event since then is past its end and its grace of 0.1024 seconds, or closes it |
| `RetryAudit.AuditRow` | beacon_live/retry_debug.py:406-457 | every decoded frame of a row is counted once: as eligible, under one exclusion, or out of scope |
| `RetryAudit.AuditChannel` | beacon_live/retry_debug.py:239-296 | the channel row is the audit of exactly the frames in scope, accounts for every decoded frame of its second, and without a target is the audit of all of them |
| `RetryAudit.ScopedFrames` | beacon_live/retry_debug.py:241-256 | the frames kept are exactly the admitted ones, in order, and the others are counted |
| `RetryAudit.AdmittedExactly` | beacon_live/retry_debug.py:241-256 | with a target, the frames admitted are exactly those with a BSSID whose latest definition is fresh and on the target frequency when they come |
| `RetryAudit.AuditExactly` | beacon_live/retry_debug.py:406-457 | every count of an audit row is the number of frames with those field values: readable, to a group, without a retry bit, of a kind not retried, damaged, eligible, retries |
| `RetryAudit.OfBssidExactly` | beacon_live/retry_debug.py:275-312 | so is every count of a BSSID's row, over the frames that belong to it |
| `RetryAudit.AuditIsProjection` | beacon_live/retry_debug.py:406-457 | without a target, decoded, eligible and retry counts are those of the analyzer's projection; the readable count exceeds it by the damaged frames |
| `RetryAudit.BssidAuditIsSummary` | beacon_live/retry_debug.py:275-312 | for any frames and one set of known BSSIDs, a BSSID row's eligible and retry counts are those of the analyzer's summary of that BSSID, and it decodes the damaged frames besides |
| `AuditReplay.AnalyzeRetryFrames` | beacon_live/retry_debug.py:208-312 | for every capture, in any order: every second with a frame gets one audit row, and an analyzer fed the sorted frames has a row for it with the same decoded, eligible and retry counts, the same known BSSIDs with the same latest beacons, and the same counts for each BSSID |
| `AuditReplay.RowOfCapture` | beacon_live/retry_debug.py:216-230 | a row made while an ordered capture is ingested without trimming shows all the frames and beacons the whole capture holds for its second and window |
| `AuditReplay.AnalyzerRows` | beacon_live/retry_debug.py:216-230 | ingesting an ordered capture and flushing gives one such row for each second from the first to the last frame |
| `AuditReplay.BeaconIdentities` | beacon_live/retry_debug.py:392-404 | the audit's identities are exactly the BSSIDs of which the capture has an intact frame of type 0 and subtype 8 in the window before a second's end, each with the signal and elements of the last such frame |
| `AuditReplay.HeardExactly` | beacon_live/retry_debug.py:231-236 | every intact frame of type 0, subtype 8 and a BSSID in an interval has its place among the beacons heard, after the earlier ones and no others, with its own signal and elements; and nothing else was heard |
| `AuditReplay.FramesInExactly` | beacon_live/retry_debug.py:240-244 | every frame of an interval has its place among the frames of it, after the earlier ones and no others; and no other frame has |
| `AuditReplay.AuditOneSecond` | beacon_live/retry_debug.py:239-312 | the channel row counts the second's frames, and there is a row for every BSSID known or associated, counting its frames |
| `AuditReplay.AuditAgrees` | beacon_live/retry_debug.py:208-312 | any audit of a second and any row that shows the capture's second agree on every count |
| `Pcapng.ReadBlock` | beacon_live/pcapng.py:87-136 | a block accepted is a proper front of the input, and the end is reported only when nothing is left |
| `CaptureFacts.ReadExactly` | beacon_live/pcapng.py:87-136 | the reader's next step for all bytes: the end, a block with exactly its fields and what follows it, or an error, each if and only if the bytes at the front say so |
| `Pcapng.ReadExact` | beacon_live/pcapng.py:71-84 | collects exactly the bytes asked for, or all that are left, whatever the sizes of the reads |
| `Pcapng.NextBlock` | beacon_live/pcapng.py:93-136 | the next block of a stream does not depend on how its reads are cut |
| `Pcapng.IterBlocks` | beacon_live/pcapng.py:87-136 | nor do the blocks of a whole stream, or whether it is accepted |
| `Pcapng.Lossless` | beacon_live/pcapng.py:87-136 | the raw blocks read concatenate to a prefix of the input, and to all of it when the input is accepted |
| `BeaconFilter.ReadOptions` | beacon_live/pcapng.py:139-160 | the option loop accepts and yields what the recursive reading does, in either byte order |
| `CaptureFacts.OptionsExactly` | beacon_live/pcapng.py:139-160 | option bytes are accepted if and only if they are laid out as options, and read as exactly those |
| `CaptureFacts.InterfaceExactly` | beacon_live/pcapng.py:225-246 | an interface description is accepted if and only if its bytes describe one, and as exactly the link type, limit, resolution and offset they give |
| `BeaconFilter.OptionsReadBack` | beacon_live/pcapng.py:139-160 | options written with code, length and padding, with or without an end marker, read back unchanged in either byte order |
| `BeaconFilter.KeptIsBeacon` | beacon_live/pcapng.py:167-187 | a packet that is kept names an interface of its section, was captured whole within that interface's limit, and is a beacon with its fixed fields |
| `CaptureFacts.KindExactly` | beacon_live/pcapng.py:167-187 | for every packet and link type: it is a beacon if and only if, behind a well-formed radiotap header if the link has one, its first byte is 0x80 and 36 bytes are there; and it is counted as another frame, unsupported or malformed in exactly the cases stated on its bytes |
| `CaptureFacts.JudgedExactly` | beacon_live/pcapng.py:254-284 | a packet block is counted as kept, non-beacon, truncated, unsupported or malformed if and only if its bytes and its section's interfaces say so: the interface it names, the capture limit, the lengths and the options |
| `CaptureFacts.SelectExactly` | beacon_live/pcapng.py:209-284 | for every block and context, the filter keeps, drops, counts or rejects it, and changes the interfaces, exactly as stated on the block's bytes |
| `BeaconFilter.InterfaceReadsBack` | beacon_live/pcapng.py:225-246 | an interface description with both clock options reads back with its link type, limit, resolution and offset, in either byte order |
| `BeaconFilter.PacketReadsBack` | beacon_live/pcapng.py:254-284 | an enhanced packet reads back as captured: refused beyond its interface's limit, incomplete when cut, and otherwise judged by its own bytes |
| `BeaconFilter.RadiotapIsTransparent` | beacon_live/pcapng.py:167-187 | behind a well-formed radiotap header a frame is judged as if captured without one |
| `BeaconFilter.ReadIsWellFormed` | beacon_live/pcapng.py:97-136 | whatever the reader yields satisfies every rule the reader checks, so it can be read again |
| `BeaconFilter.KeptAgain` | beacon_live/pcapng.py:209-284 | a kept block, section headers made open-ended, is kept again with the same bytes and leads to the same interfaces |
| `BeaconFilter.ChainReadsBack` | beacon_live/pcapng.py:209-284 | the bytes of blocks kept in turn are read back as exactly those blocks |
| `BeaconFilter.ChainKept` | beacon_live/pcapng.py:209-284 | and filtering them again keeps them all |
| `BeaconFilter.ExportIdempotent` | beacon_live/pcapng.py:287-306 | whatever was exported, even before an error, exports again to the very same bytes |
| `BeaconFilter.FirstIsSection` | beacon_live/pcapng.py:287-306 | an accepted input is never exported to nothing |
| `BeaconFilter.SegmentStandsAlone` | beacon_live/pcapng.py:209-284 | one section context followed by packets selected under it is a capture of its own, in which every packet meets exactly the byte order and interfaces it was kept in and names one of them; exporting it changes nothing |
| `BeaconFilter.Filter.Take` | beacon_live/pcapng.py:209-284 | the filter object keeps, drops or rejects a block as selection says, changes its interfaces accordingly, and counts every packet under its one outcome and no other |
| `BeaconFilter.WriteAll` | beacon_live/pcapng.py:296-304 | bytes are written in order through partial writes, all of them to a destination that keeps taking some; a stalled one has received a prefix |
| `BeaconFilter.WriteBlocks` | beacon_live/pcapng.py:287-306 | the writing loop keeps counters that account for every packet and every byte written |
| `BeaconFilter.WriteBeacons` | beacon_live/pcapng.py:287-306 | the command writes exactly the export of its input to a destination that keeps taking bytes, accepts exactly when the input is well formed, and on a stalled destination has written a prefix |
| `PacketSource.ForwardBlock` | beacon_live/packet_source.py:22-30 | a block reaches the decoder whole, as it does unless the decoder stalls, before the exporter sees it; the exporter keeps its invariant |
| `PacketSource.ForwardPackets` | beacon_live/packet_source.py:20-30 | the decoder receives the capture unchanged: all of it when well formed, everything before the fault otherwise; only a decoder that stops taking bytes has received just a prefix |
| `BeaconWriter.PublishedStandsAlone` | beacon_live/beacon_export.py:148-196 | a published file reads back as its context and its packets, each read under exactly the interfaces it was captured under, and filtering it again returns it unchanged |
| `BeaconWriter.HeaderUnique` | beacon_live/beacon_export.py:150-151 | equal context bytes mean the same blocks and the same interfaces, so comparing bytes is enough to continue a file |
| `BeaconWriter.FirstPacket` | beacon_live/beacon_export.py:157-167 | a new file with a context and one packet selected under it stands alone |
| `BeaconWriter.NextPacket` | beacon_live/beacon_export.py:150-167 | appending a packet whose context has the open file's bytes keeps the file standing alone |
| `BeaconWriter.KeptIsNewest` | beacon_live/beacon_export.py:121-138 | retention removes the oldest files first, and no more of them than must go: the files kept are within the limits on bytes and on number, and with one more they would not be |
| `BeaconWriter.PublishedOk` | beacon_live/beacon_export.py:178-196 | publishing moves the open file's packets to the exported ones, and every published file stands alone |
| `BeaconWriter.RotatingBeaconWriter.Evict` | beacon_live/beacon_export.py:126-138 | the oldest file goes: deleted and counted, or found gone already; one changed or undeletable leaves the writer unusable, and the byte count is right in every case |
| `BeaconWriter.RotatingBeaconWriter.Budget` | beacon_live/beacon_export.py:121-142 | room is made by evicting the oldest, exactly as far as needed; unless a file operation fails or the disk is low, it succeeds exactly when the open file and the packet are within the retained bytes, and otherwise the write is refused before anything is written |
| `BeaconWriter.RotatingBeaconWriter.CloseSegment` | beacon_live/beacon_export.py:178-196 | closing publishes the open file, or fails with every packet still accounted for; an uncounted file is left under its final name if and only if the partial name could not be removed; limits stay met |
| `BeaconWriter.RotatingBeaconWriter.Maintain` | beacon_live/beacon_export.py:144-146 | a file past its rotation time is closed; nothing else changes |
| `BeaconWriter.RotatingBeaconWriter.MakeRoom` | beacon_live/beacon_export.py:149-156 | after making room, the packet fits every limit and the open file, if any, has its context; unless a file operation fails or the disk is low, it is made exactly when the packet goes into the open file or fits a file of its own, and the open file is kept exactly when the packet goes into it |
| `BeaconWriter.RotatingBeaconWriter.Write` | beacon_live/beacon_export.py:148-167 | a successful write adds exactly the packet, and afterwards open size, retained bytes and file count are all within their limits; a failed one adds nothing; and unless a file operation fails or the disk is low, it succeeds exactly when the packet goes into the open file or fits a file of its own |
| `BeaconWriter.RotatingBeaconWriter.Abort` | beacon_live/beacon_export.py:198-212 | giving up moves the open file's packets to the skipped ones; only the first closing of the lease can fail |
| `BeaconWriter.RotatingBeaconWriter.Close` | beacon_live/beacon_export.py:214-218 | closing succeeds exactly when neither the file nor the lease fails to close; then nothing is open or active; the lease is released whatever happened |
| `BeaconExport.Worker.Finish` | beacon_live/beacon_export.py:245-257 | letting go of a writer keeps its counts and its files in the worker's books |
| `BeaconExport.Worker.Recover` | beacon_live/beacon_export.py:318-330 | after any file error the writer is gone and every packet still counted, since a lease cannot fail to close twice; when only the disk is low and the file closes, no packet is given up |
| `BeaconExport.Worker.Store` | beacon_live/beacon_export.py:306-317 | a packet stored went to a writer of its own generation, opened only after the earlier one finished; it is stored whenever no file operation fails and it fits a file of its own |
| `BeaconExport.Worker.Handle` | beacon_live/beacon_export.py:295-330 | one packet taken from the queue ends in exactly one place, under any file failure, and every limit holds afterwards; a packet of a generation that has failed is skipped; a packet of a later one is skipped only when it, or an operation on the files, fails, and then its generation has failed |
| `BeaconExport.Worker.Rest` | beacon_live/beacon_export.py:286-294 | a wake-up without a packet loses nothing: an unused writer is let go when nothing is pending and export is off, and otherwise kept, with its file closed if it is past its rotation time |
| `BeaconExport.NewSection` | beacon_live/beacon_export.py:411-415 | a new section header starts a context that selects as the filter now does |
| `BeaconExport.NewInterface` | beacon_live/beacon_export.py:416-420 | an interface description extends the context as it extends the filter |
| `BeaconExport.NewPacket` | beacon_live/beacon_export.py:421-440 | a packet put on the queue was selected under exactly the context sent with it, and its size is that of both |
| `BeaconExport.BeaconExport.Offer` | beacon_live/beacon_export.py:406-451 | each beacon offered while export is requested is accepted or counted as dropped; the offer ends in an error exactly when selection fails or the context outgrows its limit, and after close or an error nothing is accepted; the byte and record bounds of the queue hold |
| `BeaconExport.BeaconExport.Enqueue` | beacon_live/beacon_export.py:421-440 | an accepted packet goes to the end of the queue with its generation and context, exactly when there is room and the lock is free; a refused one changes only the counters |
| `BeaconExport.BeaconExport.SetEnabled` | beacon_live/beacon_export.py:391-404 | a change raises the generation by exactly one and tells the worker, or leaves the control record alone and reports the error; nothing changes when closed or already so |
| `BeaconExport.BeaconExport.Process` | beacon_live/beacon_export.py:295-330 | the packet in hand is handled: skipped when its generation has failed, otherwise exported or kept in the open file unless something fails; and accepted packets leave the queue in order |
| `BeaconExport.BeaconExport.Empty` | beacon_live/beacon_export.py:286-294 | the worker leaves only when orphaned, or told to stop with nothing pending, and loses nothing unless a file operation fails |
| `BeaconExport.BeaconExport.Leave` | beacon_live/beacon_export.py:332-340 | the worker's last step lets go of the writer with every packet counted |
| `BeaconExport.BeaconExport.Run` | beacon_live/beacon_export.py:233-451 | every interleaving of offers, enabling, stopping and worker steps, with any failures, keeps the whole invariant |
| `BeaconExport.BeaconExport.ExactlyOnce` | beacon_live/beacon_export.py:233-340 | at every step each accepted packet is in exactly one of: queue, worker's hand, open file, closed files, skipped |
| `BeaconExport.BeaconExport.CountersAddUp` | beacon_live/beacon_export.py:259-271 | the published counters are the sizes of those places and add up to what was accepted |
| `BeaconExport.BeaconExport.ExportedIsFiled` | beacon_live/beacon_export.py:245-271 | what counts as exported is exactly what the published files hold |
| `BeaconExport.BeaconExport.FilesStandAlone` | beacon_live/beacon_export.py:148-196 | every file a run publishes, counted or only linked, is a capture of its own that filtering leaves unchanged, and in it every packet is read under exactly the interfaces it was captured under |
| `BeaconExport.BeaconExport.LinkedIsSkipped` | beacon_live/beacon_export.py:178-223 | what a file holds that was linked but never counted is among the skipped packets |
| `BeaconExport.BeaconExport.CleanStop` | beacon_live/beacon_export.py:286-340 | a clean stop leaves nothing queued, in hand or active, and what was accepted is exported or skipped |
| `BeaconExport.BeaconExport.NothingLost` | beacon_live/beacon_export.py:286-340 | if no file operation failed and every accepted packet fits a file of its own, a clean stop has exported exactly the packets accepted and skipped none |
| `Bytes.Long` | beacon_live/ipc.py:84-88 | the length prefix is four bytes in network order and decodes to the length; in the other order it is what a little-endian block is written with |
| `Ipc.ParseSplit` | beacon_live/ipc.py:150-172 | reading bytes in two pieces finds the same messages and the same rest as reading them at once |
| `Ipc.ParseFrames` | beacon_live/ipc.py:84-88 | whole frames followed by part of another are read as those messages and that part |
| `Ipc.PartOfFrame` | beacon_live/ipc.py:161-166 | a cut frame is never taken for a message |
| `Ipc.FramedSocket.Queue` | beacon_live/ipc.py:130-135 | a new message replaces one of which nothing was sent, or waits behind one partly sent; an oversized one changes nothing |
| `Ipc.FramedSocket.Flush` | beacon_live/ipc.py:137-148 | any partial send advances the output by what was sent; a finished message makes way for the waiting one |
| `Ipc.FramedSocket.TakeMessages` | beacon_live/ipc.py:161-168 | the inner loop takes exactly the complete messages off the buffer, or finds a bad length |
| `Ipc.FramedSocket.Receive` | beacon_live/ipc.py:150-172 | at most four reads of at most a chunk each, stopping early only when there is nothing to read, yield exactly the messages complete so far; an error yields none |
| `Ipc.Arrived` | beacon_live/ipc.py:114-172 | however the bytes were cut, the messages received are the beginning of those sent whole, and no bad length is ever met |
| `Ipc.QueuedOk` | beacon_live/ipc.py:130-135 | queueing keeps output and waiting frame those of the newest messages |
| `Ipc.CompletedOk` | beacon_live/ipc.py:145-148 | finishing a message appends it to those sent whole |
| `Ipc.Connection.Run` | beacon_live/ipc.py:114-172 | every interleaving of queueing, partial sends and chunked reads keeps the connection's invariant, and a message once started stays |
| `Ipc.Connection.Send` | beacon_live/ipc.py:130-135 | a message queued is the last still to come: behind the others, or in the place of the newest when nothing of that one was sent |
| `Ipc.Connection.Push` | beacon_live/ipc.py:137-148 | sending, however far it gets, changes nothing about which messages are still to come |
| `Ipc.Connection.Pull` | beacon_live/ipc.py:150-172 | a read takes the first of the messages still to come and delivers exactly those, or fails, delivers none and loses those it had taken |
| `Ipc.Connection.DeliveredInOrder` | beacon_live/ipc.py:114-172 | the receiver is given, whole and in order, some of the messages queued |
| `Ipc.Connection.StartedIsNotDropped` | beacon_live/ipc.py:130-148 | a message is dropped only if none of its bytes were sent, and never while it is the newest |
| `Ipc.Connection.DrainedDeliversLast` | beacon_live/ipc.py:137-172 | once the sender has drained and the receiver has read it all, the last message delivered is the last queued |
| `Wire.MakeIdempotent` | beacon_live/channel.py:56-67 | constructing from the fields of something constructed changes nothing more, for channel definitions and capture targets |
| `Wire.ChannelExactly` | beacon_live/channel.py:56-67 | a channel definition is built exactly from a positive primary frequency; that is its first centre when none is given, and only an 80+80 one without a second centre is marked incomplete and ambiguous; every other field stays as given |
| `Wire.TargetExactly` | beacon_live/capture_target.py:27-33 | a capture target is built exactly from an interface name of 1 to 15 permitted characters and no namespace, or one of permitted characters that does not start with a dot or hyphen |
| `Wire.RoundTrip` | beacon_live/ipc.py:21-81 | reading what was written gives the value back, for every value of every type of the published shape: nested records, optionals, enumerations, fixed and variadic tuples, finite numbers |
| `Wire.ReadIsTyped` | beacon_live/ipc.py:40-81 | only values of the declared type come out of the wire, defaults and both validating constructors included |
| `Wire.ReadRoundTrips` | beacon_live/ipc.py:21-81 | whatever was read, even with members missing, is written and read back unchanged |
| `Wire.OverlappingUnionFails` | beacon_live/ipc.py:44-51 | the published shape is not idle: a union of two types that accept one wire form reads back as the first |
| `Publications.PublicationRoundTrip` | beacon_live/runtime.py:40-100 | every runtime publication and every session configuration, written down field by field with all the records they hold, is read back as it was written |
| `Publications.PublicationPassedOn` | beacon_live/service.py:210-225 | whatever is read as a publication is one, and is passed on unchanged |
| `Publications.RuntimePublication` | beacon_live/runtime.py:78-100 | the record of a publication, with every record in it and their defaults, is a type whose values are read back and whose readings are its values |
| `Session.Replaced` | beacon_live/runtime.py:199-213 | a publication that replaces an unread one keeps the publications waiting in order, with nothing behind a final one |
| `Session.Requeued` | beacon_live/service.py:282-291 | so does queueing over the last unsent one |
| `Session.AheadKept` | beacon_live/runtime.py:143-247 | no step of the owner lets the broker's publication run ahead of what is still to come |
| `Session.Accepted` | beacon_live/service.py:216-225 | accepting a publication shows it as it came, under the next revision of the same session, except that a late active one cannot undo an accepted stop; what is shown has not gone back and is not ahead of what is still to come |
| `Session.Owner.Publish` | beacon_live/runtime.py:207-213 | a publication for another session, or after the end, changes nothing |
| `Session.Owner.CaptureStarted` | beacon_live/runtime.py:223-229 | only a starting session becomes running |
| `Session.Owner.Stop` | beacon_live/runtime.py:186-197 | a stop for another session, or after the end, changes nothing; otherwise the session is stopping |
| `Session.Owner.Finish` | beacon_live/runtime.py:215-221 | the end of a session is published once and is final |
| `Session.Owner.Poll` | beacon_live/service.py:282-291 | polling queues the newest publication last, and loses at most older ones nobody has read; a gone broker stops an active session |
| `Session.ServiceBroker.PollOwner` | beacon_live/service.py:210-249 | the publication only follows on, and an owner is let go only after it has ended |
| `Session.ServiceBroker.ReadOwner` | beacon_live/service.py:210-235 | reading takes the first publications waiting, some or all, and shows each in turn; after a channel error what is shown says so, and a living owner is told to stop |
| `Session.ServiceBroker.Lose` | beacon_live/service.py:210-235 | a failed read loses the publications it had taken, which are the first ones waiting, and nothing else; what is shown stays behind what is still to come |
| `Session.ServiceBroker.Reap` | beacon_live/service.py:237-249 | an owner that ended without a final publication is shown as failed, with an error; one that ended with it is let go without a change |
| `Session.ServiceBroker.StartSession` | beacon_live/service.py:167-197 | a start gives a new session id and at most one new owner, with the requested configuration and outputs, and shows it as starting; a failed one shows as failed with an error or keeps its handle |
| `Session.ServiceBroker.BeginSession` | beacon_live/service.py:122-139 | with no owner left, an acceptable request starts a new one, and fails exactly when that start does; with an owner, it attaches if and only if the session is starting or running and the request is a join, or an ensure of the same source; everything else changes nothing |
| `Session.ServiceBroker.StopSession` | beacon_live/service.py:140-150 | a stop succeeds exactly for the present session while it is active, signals the owner and shows the session as stopping; a stale session id changes nothing |
| `Session.ServiceBroker.SetOutput` | beacon_live/service.py:151-165 | an output control is obeyed exactly when it names the present session, which is active and not stopping, and asks for what the session is configured for, unless writing the control file fails; the publication never changes |
| `Session.ServiceBroker.Dispatch` | beacon_live/service.py:102-165 | every request is answered by the state reached when the owner has been read: reads always, starts, stops and controls exactly when they may be, in both directions; no request starts a second owner while the first is alive or not yet waited for |
| `Session.ServiceBroker.ShowsTheOwner` | beacon_live/service.py:210-235 | when nothing a living owner published is still to be read, clients see the phase it is in, or stopping after an accepted stop; unless a failed read lost its newest publication, and then they see an error and a phase no later than the owner's, or stopping, and the owner has been told to stop |
| `Session.ServiceBroker.Shutdown` | beacon_live/service.py:251-268 | shutdown signals a living owner and shows an unfinished session as stopping, changing nothing else of what was read |
| `Session.ServiceBroker.Run` | beacon_live/service.py:82-314 | over every run: revisions grow with every change, a phase never goes back within a session, an accepted stop is not undone, a final phase is final, an active phase has an owner handle, and there is at most one owner not yet waited for |
| `RadioSession.RadioSession.Prepare` | beacon_live/radio_session.py:353-365 | stopped at any command, only interfaces on record differ, and only in their link state; when no command fails it goes through exactly when the radio is idle and every interface is as saved, having set down just the others that were up |
| `RadioSession.RadioSession.RestoreOne` | beacon_live/radio_session.py:379-396 | an interface restored without an error has its saved mode, link state and known monitor tuning, by exactly the commands that takes; when no command fails there is an error only if the interface is gone or replaced; its last command sets its saved link state whatever failed |
| `RadioSession.RadioSession.Restore` | beacon_live/radio_session.py:367-400 | refused exactly when the radio must be idle and is in use; a failure on one interface neither stops the others nor skips its own final link-state command; when no command fails, the errors are exactly the interfaces gone or replaced |
| `RadioSession.RadioSession.Borrow` | beacon_live/radio_session.py:353-400 | after an interrupted or complete preparation, any use of the borrowed interface and a restoration, whatever reported no error is restored, and every other interface is exactly as before; when no command fails there is no error |
| `RadioSession.PausedNext` | beacon_live/radio_session.py:360-363 | an interface is on record before the command that changes it |
| `RadioSession.HandledKept` | beacon_live/radio_session.py:379-398 | restoring one interface undoes nothing of another |
| `LogWriter.StampMeans` | beacon_live/log_writer.py:231-268 | every line is an accepted record under the last metadata update accepted before it, or the session's own |
| `LogWriter.StampedExactly` | beacon_live/log_writer.py:231-268 | every beacon and statistics record accepted has its line, placed after the lines of the earlier ones and of no others, under the last metadata update before it; and there are no other lines |
| `LogWriter.StampedSplit` | beacon_live/log_writer.py:255-268 | writing records in batches gives the lines of writing them at once |
| `LogWriter.CaptureLogWriter.WriteRecords` | beacon_live/log_writer.py:255-268 | a batch is written as stamped whenever no file operation fails, and a part of it when one does |
| `LogWriter.LoggingService.Enqueue` | beacon_live/log_writer.py:578-588 | while active a record is accepted at the end of the queue exactly when there is room, and otherwise counted as sampled; while inactive nothing happens |
| `LogWriter.LoggingService.Flush` | beacon_live/log_writer.py:643-652 | a batch is handed over once and written as stamped; only after a failing file operation the queue is just emptied |
| `LogWriter.LoggingService.Stop` | beacon_live/log_writer.py:562-615 | a stop waits for everything the queue accepted; if no file operation failed the log is exactly that, in order, stamped |
| `LogWriter.LoggingService.Rotate` | beacon_live/log_writer.py:529-543 | so is the old file of a rotation, and the new one starts under the present metadata |
| `RadioGrouping.LikelySameSymmetric` | beacon_live/radio_grouping.py:68-103 | whether two BSSIDs may share a radio does not depend on their order |
| `RadioGrouping.LikelySameExactly` | beacon_live/radio_grouping.py:68-103 | two BSSIDs may share a radio if and only if they are one, or have the same first three octets and either one AP name with signals unknown or within 10 dB, or not two AP names, both signals known within the tolerance, and related addresses |
| `RadioGrouping.RelatedExactly` | beacon_live/radio_grouping.py:150-161 | addresses are related if and only if they are consecutive numbers or differ in exactly one of their twelve hexadecimal digits |
| `RadioGrouping.EstimateRadioGroups` | beacon_live/radio_grouping.py:29-65 | the loop groups the states in BSSID order, each into the first group it is compatible with, and refuses a negative tolerance |
| `RadioGrouping.GroupsPartition` | beacon_live/radio_grouping.py:29-65 | the groups hold exactly the states, any two members of a group may share a radio, and each group's first member was incompatible with every earlier group |
| `RadioGrouping.GroupsInOrder` | beacon_live/radio_grouping.py:29-65 | members and groups come in BSSID order, so a group is known by its lowest BSSID |
| `RadioGrouping.OrderDoesNotMatter` | beacon_live/radio_grouping.py:29-65 | with distinct BSSIDs the result does not depend on the order of the input |
| `RadioGrouping.SelectedIsPreferred` | beacon_live/radio_grouping.py:106-139 | the group selected is preferred to every other: by signal, then by holding a current BSSID, then by lowest BSSID |

## Left out

- BeaconSlots.LeastSlot: the phase that explains the slot chosen is allowed only up to the rounding tolerance, because the loop widens intervals by it.
- Analyzer.Analyzer.ProjectionForSecond: the analyzer object has no target frequency, and AuditReplay none either; with one, TargetSeconds has the beacon table, stored frames, expiry, cached seconds and windows, while completion, snapshots and publishing are as without.
- TargetSeconds.TargetAnalyzer.RollingProjection: the bounds of the window are arguments, and the stored frames are one sequence in time order instead of one per second.
- Analyzer.InterleavingDoesNotShow: for streams shorter than the window, because expiry during a refresh may otherwise remove what a later row would have shown; InterleavedWindowsAgree and AnalyzerRuns.TwoRuns cover longer ones row by row.
- AnalyzerRuns.TwoRuns: a run has no flush; Analyzer.Analyzer.Flush, which ends one, records the second up to which it closes.
- Analyzer: the object is the batch mode; live capture runs the streaming mode, whose seconds and windows are LiveWindow and Projection.OpenSecond, with completion, publishing and beacon handling as in the batch mode.
- LiveWindow.Live.Learn: which BSSIDs are known, and the definitions they have, are given by the caller, where the source takes them from its beacon table.
- Analyzer: history, BSSID and radio selection, percentages, local channel utilization and the texts of snapshots are not part of this model; a row holds the projections and reception counts they are computed from.
- AuditReplay.AnalyzeRetryFrames: without a target frequency; the footer BSSID, the percentages and the CSV files are left out.
- Projection: host and BSSID summaries are values; the aliasing of the source's mutable summary objects is not captured.
- Frames: addresses are six octets in canonical form; the normalisation of address text, SSID decoding and field parsing come before the model.
- Timestamps are exact, non-negative reals; floating-point rounding and clock reading are left out.
- BeaconExport.BeaconExport.Empty: the worker's reads of the control record, the queue and the pending counter are one step each, and offering holds the accounting lock for its whole step; finer interleavings inside a step are not modelled.
- BeaconExport: the report queue, forced termination after a stop that takes too long, and the list of the last 256 closed logs are not part of this model.
- BeaconWriter: directory scanning, file identity and free space are nondeterministic outcomes; file names are sequence numbers.
- BeaconFilter.WriteBeacons: the blocks are read before the first is written, where the source reads and writes in turn; the bytes are the same.
- Ipc: message bodies are opaque bytes; JSON text encoding and its errors are left out, and so is the blocking receive used once at start.
- Wire: `Path` values are text in normal form; JSON numbers are exact; a default that is a record is written as that record.
- Session: the content of publications, the file catalogue, configuration validation and the control file are reduced to what the lifecycle depends on; the owner may die at any step, also while sending.
- Session.ServiceBroker.Shutdown: signals and marks the session as stopping; its waiting loop and the final kill are separate events of a run.
- RadioSession: interfaces on one phy are tuned independently of each other, and link state does not affect tuning; the checks that a radio is idle are a nondeterministic answer.
- LogWriter: file paths, disk checks, the low-disk end marker and the CSV and JSON layouts are not part of this model.
- RadioGrouping: AP names are taken as already stripped and case-folded, and vendor texts are left out.
- Live capture, command line, HTTP, dashboards, surveys, channel tables and installation scripts are not modelled.
