# Dafny model of sysSentry

sysSentry is a framework that runs inspection tasks and reports faults. This project models eight of its
components and proves what each of them promises, for all inputs, all runs and all reachable states.

- **SOC ring scan** (`RingImage`, `RingScan`, `RingTheorems`): threads that scan memory in lock-step between
  barriers, one step at a time, with the in-place loops over 64-bit words they use. A memory fault is a scan read
  that returns something else than the memory holds. `RingNodes` is about threads that change their NUMA node.
- **HBM repair** (`HbmSection`, `HbmHandler`, `HbmCodes`) and its **BMC message** (`BmcReport`): the fields of a
  fault address, the isolation and repair of pages, the codes reported, and the text one language prints and another
  parses. What each sysfs write returns is chosen by an arbitrary function.
- **Slow-IO detectors** (`SampleStatistics`, `ThresholdLaws`, `SlidingWindow`, `Detector`, and `AvgBlockIo`): trained
  thresholds with their retraining schedule, bounded windows with cached tags, and running averages, against plain
  functions of the whole sample history. Values are reals; the standard deviation is any non-negative number whose
  square is the variance.
- **CPU lists and the CPU alarm** (`CpuList`, `PatrolList`, `CpuAlarm`): a range printer with two parsers, a sorted
  array, and a record that ends as a bitmap.
- **BMC event paging** (`QueryEvents`) against an arbitrary responder.
- **xalarm subscriptions** (`XalarmEvents`): event switches counted over connecting and disconnecting clients.
- **Period tasks** (`PeriodTask`, `PeriodLaws`): commands, timer, heartbeats and child exits as atomic steps.
- **Collector windows** (`Collector`, `CollectorThreads`): counters, period samples and the server that reads them,
  and the two threads that share a window without a lock.

`Numerals` and `PythonText` hold the digits, padding, byte order and string operations they share. Objects that the
source updates in place are classes; each method is proved against a function of the old state, and the theorems are
about those functions and about runs of steps. `dafny verify dfyconfig.toml` checks everything.

Where the code and its documentation differ the model follows the code. The windows report before they are full,
because `src/sentryPlugins/ai_block_io/sliding_window.py:74-75` and `:88-89` reset a flag that is set again just below;
`SlidingWindow.OnlyWhenFullExactly` says for which configurations they do not. The CPU list pattern accepts texts its
documentation calls invalid; `CpuList.MalformedExactly` says which.

Some properties hold only under a condition, which is proved exact and shown to matter by a failing case:

- a stop is final unless the task is marked FAILED with its child alive (`PeriodTask.StopQuiets`, failing run
  `PeriodTask.StoppedTaskRuns`);
- enabled events stay subscribed unless a registration takes over a stale descriptor (`XalarmEvents.NeededExactly`,
  failing run `XalarmEvents.StaleRun`, through the failure of `setblocking` at
  `src/services/xalarm/xalarm_transfer.py:112`, after which the connection is closed but not unregistered);
- one BMC notification is sent per request unless a device loses a repair (`HbmHandler.NotificationCount`, failing
  case `HbmHandler.TwoNotifications`);
- an event query is complete unless a page on the way is empty (`QueryEvents.CompleteExactlyWithoutEmptyPage`, failing
  case `QueryEvents.EmptyPageLoses`);
- the C parser of core lists gets through unless it reaches a token of dashes (`PatrolList.NullTokenExactly`, failing
  text `PatrolList.NullTokenExample`);
- the period thread of the collector runs on unless it looks at the window in the middle of an update
  (`CollectorThreads.PeriodThreadEndsExactly`, failing schedule `CollectorThreads.PeriodThreadCanEnd`), and the stored
  periods add up unless an update comes into the middle of a tick (`CollectorThreads.SoundExactly`, failing schedules
  `CollectorThreads.CountedTwice` and `CollectorThreads.CountsLost`);
- a task has at most one living child unless it is started while it is marked FAILED with its child alive
  (`PeriodTask.OneLivingChildExactly`, failing run `PeriodTask.TwoLivingChildren`);
- the ring scan raises no false alarm unless a thread scans a node that was not filled for it
  (`RingNodes.NoFalseAlarmExactly`). All threads but the last are bound to their cores before the first barrier opens,
  which needs all of them; the last can make its first calls earlier (`src/sentryPlugins/soc_ring_sentry/tc_ring_one.c:412-418`,
  failing case in `RingNodes.LateBinding`).

## Model

| member | source | states |
|---|---|---|
| RingImage.SpaceInit | src/sentryPlugins/soc_ring_sentry/tc_ring_one.c:227-234 | the loop turns any memory into the blank image: in every 128-byte unit a line of ones, then a line of zeros |
| RingImage.InitDataPattern | src/sentryPlugins/soc_ring_sentry/tc_ring_one.c:539-548 | exactly one word of each unit is overwritten, with the word that has only the scan bit set |
| RingImage.DataClear | src/sentryPlugins/soc_ring_sentry/tc_ring_one.c:550-558 | the same words and no others become zero |
| RingImage.ScanTestBlock | src/sentryPlugins/soc_ring_sentry/tc_ring_one.c:611-634 | true if and only if in every unit of the block the word beside the tested one is all ones and the tested word is the pattern |
| RingImage.ScanBit | src/sentryPlugins/soc_ring_sentry/tc_ring_one.c:636-664 | true if and only if every unit of the space passes, for any number of rounds and any block division of the space |
| RingImage.FillThenClear | src/sentryPlugins/soc_ring_sentry/tc_ring_one.c:539-558 | filling for a bit and clearing for the same bit gives back the image of space_init, for every bit and size |
| RingImage.ExactlyScanBit | src/sentryPlugins/soc_ring_sentry/tc_ring_one.c:605-634 | of the 512 bits of the second line of a filled unit exactly the scan bit is one |
| RingImage.PatternPasses | src/sentryPlugins/soc_ring_sentry/tc_ring_one.c:611-634 | a filled unit passes its own test |
| RingImage.AllOnesIsAll | src/sentryPlugins/soc_ring_sentry/tc_ring_one.c:615 | the word beside the tested one is compared with the 64-bit word in which every bit is set |
| RingScan.StepKeepsInv | src/sentryPlugins/soc_ring_sentry/tc_ring_one.c:560-709 | every step of every thread, and every barrier release, keeps the invariant that ties program counters, trace, flags, mutexes and memory images together |
| RingTheorems.RunKeepsInv | src/sentryPlugins/soc_ring_sentry/tc_ring_one.c:681-709 | that invariant holds in every state of every run, for any number of threads and nodes |
| RingTheorems.Lockstep | src/sentryPlugins/soc_ring_sentry/tc_ring_one.c:681-709 | all threads have passed the same sequence of barrier points, and threads blocked together are blocked at the same call site of the same issue |
| RingTheorems.NoneStranded | src/sentryPlugins/soc_ring_sentry/tc_ring_one.c:666-709 | once a thread has left the loop no thread waits at a barrier or goes back to one, and all that left did so in the same round, whatever scans failed |
| RingTheorems.NoDeadlock | src/sentryPlugins/soc_ring_sentry/tc_ring_one.c:560-709 | until all threads are done some step is enabled |
| RingTheorems.ScanIsolated | src/sentryPlugins/soc_ring_sentry/tc_ring_one.c:560-676 | while a thread scans nobody holds a node or writes its memory, all threads hold the same bit, and the scanned node carries exactly that bit's pattern |
| RingTheorems.MutualExclusion | src/sentryPlugins/soc_ring_sentry/tc_ring_one.c:560-595 | at most one thread is in the critical section of a node |
| RingTheorems.FaithfulScanPasses | src/sentryPlugins/soc_ring_sentry/tc_ring_one.c:636-664 | a scan read that returns what memory holds never takes the error branch |
| RingTheorems.NoFalseAlarm | src/sentryPlugins/soc_ring_sentry/tc_ring_one.c:611-664 | if all reads so far returned what memory holds, err_flag is zero: every alarm has a deviating read behind it |
| RingTheorems.ReadVerdict | src/sentryPlugins/soc_ring_sentry/tc_ring_one.c:619-631 | a read of the scan loop goes to the error branch exactly when its unit fails the test, one wrong word being enough, and else to the next unit |
| RingTheorems.ErrFlagCountsDeviations | src/sentryPlugins/soc_ring_sentry/tc_ring_one.c:636-664 | in every state of every run err_flag is the number of reads that returned something else than the memory held, less those whose thread has still to add its own |
| RingTheorems.ErrorExactlyOnDeviation | src/sentryPlugins/soc_ring_sentry/tc_ring_one.c:636-676 | so once no thread is in its scan part there is an error if and only if some read deviated |
| RingTheorems.CleanScanIsComplete | src/sentryPlugins/soc_ring_sentry/tc_ring_one.c:636-664 | a thread that gets past its scan without an error of its own has read every unit of its node in this issue and found it good |
| RingTheorems.SpaceRestored | src/sentryPlugins/soc_ring_sentry/tc_ring_one.c:579-595 | before an issue and after its recover part every test space is the image of space_init again, whatever scans failed in between |
| RingTheorems.ScanOrder | src/sentryPlugins/soc_ring_sentry/tc_ring_one.c:689-707 | issue 2r is on bit r mod 512 and issue 2r + 1 on one of the special bits |
| RingTheorems.DoneAfterAllLoops | src/sentryPlugins/soc_ring_sentry/tc_ring_one.c:689-709 | without an error and with a loop count L > 0 the threads that are done have done exactly 2L issues; with L = 0 none is done |
| RingTheorems.StepLowersPotential | src/sentryPlugins/soc_ring_sentry/tc_ring_one.c:560-709 | every step lowers a potential |
| RingTheorems.RunsAreBounded | src/sentryPlugins/soc_ring_sentry/tc_ring_one.c:681-709 | so with a positive loop count no run is longer than a fixed bound, and by NoDeadlock all threads end |
| RingTheorems.RunsEndAfterError | src/sentryPlugins/soc_ring_sentry/tc_ring_one.c:666-709 | for every loop count, the endless default included, no run goes on for more than a fixed number of steps after a scan has failed |
| RingTheorems.EndsInDone | src/sentryPlugins/soc_ring_sentry/tc_ring_one.c:681-709 | a run that cannot be continued has all its threads done |
| RingNodes.CallAllAt | src/sentryPlugins/soc_ring_sentry/tc_ring_one.c:560-595 | what the update or recover calls of all threads do to a node does not depend on how many threads are on it nor on their order |
| RingNodes.ScanPassesExactly | src/sentryPlugins/soc_ring_sentry/tc_ring_one.c:560-664 | with a node of its own for every call of sched_getcpu, a scan of faithful memory passes exactly when the scanned node shows the bit under test |
| RingNodes.NoFalseAlarmExactly | src/sentryPlugins/soc_ring_sentry/tc_ring_one.c:560-664 | the nodes raise no false alarm, whatever the bits, if and only if every scanned node was filled in the same issue and not left filled by an earlier one |
| RingNodes.PinnedRaisesNothing | src/sentryPlugins/soc_ring_sentry/tc_ring_one.c:418-422 | which holds for threads that stay on their nodes |
| RingNodes.LateBinding | src/sentryPlugins/soc_ring_sentry/tc_ring_one.c:412-422 | a thread that is bound to its core only after its first update call raises a false alarm exactly if no other thread is on its node |
| HbmSection.ParseFaultAddrInfo | src/sentryPlugins/hbm_online_repair/non-standard-hbm-repair.c:115-123 | the shifting loop with its casts to 32 bits computes the decoding, for any table of field lengths up to 32 |
| HbmSection.EncodeDecode | src/sentryPlugins/hbm_online_repair/non-standard-hbm-repair.c:115-123 | shifting the decoded fields back together gives the address |
| HbmSection.DecodeEncode | src/sentryPlugins/hbm_online_repair/non-standard-hbm-repair.c:115-123 | decoding what fields in their ranges encode to gives the fields: no two field tuples share an address |
| HbmSection.DecodeFits | src/sentryPlugins/hbm_online_repair/non-standard-hbm-repair.c:115-123 | every field is below two to its width |
| HbmSection.FaultAddressLossless | src/sentryPlugins/hbm_online_repair/non-standard-hbm-repair.h:73-87 | for the 13 fields of a 64-bit address: the widths total 64, every field fits, and the fields give the address back |
| HbmSection.DecodeAt | src/sentryPlugins/hbm_online_repair/non-standard-hbm-repair.c:115-123 | each field is the part of the address that starts after the widths of the fields before it |
| HbmSection.RegistersInBounds | src/sentryPlugins/hbm_online_repair/non-standard-hbm-repair.c:736-772 | every register index that the handlers of a validated request use is below reg_array_size / 4 |
| HbmSection.RequestsExist | src/sentryPlugins/hbm_online_repair/non-standard-hbm-repair.c:754-763 | requests of both kinds pass the validation |
| HbmSection.MasksMean | src/sentryPlugins/hbm_online_repair/non-standard-hbm-repair.c:736-765 | the masks as arithmetic: types are bits 0 and 1, 2 and 3, and 4 to 7 of register 0, and a request is validated exactly with bits 5, 6 and 12, module 0x28, submodule 6, and the size 20, 140 or 12 of its type |
| BmcReport.FormatIsBytes | src/sentryPlugins/hbm_online_repair/non-standard-hbm-repair.c:452-496 | the printf format prints 34 whole bytes in two-digit form: none of the fields overflows its place |
| BmcReport.BytesAreInts | src/services/syssentry/bmc_alarm.py:55-64 | the parser reads every printed byte back as its number |
| BmcReport.SignedDigits | src/services/syssentry/bmc_alarm.py:55-64 | a digit with a sign or a space beside it, as int() takes it |
| BmcReport.CollectOthers | src/services/syssentry/bmc_alarm.py:99-103 | the loop over the remaining data collects the token of each byte, and raises exactly when one is not a number |
| BmcReport.ParseHbmcReport | src/services/syssentry/bmc_alarm.py:72-107 | the code that extends one list and reverses two slices of it computes ParseReport, for every text, and raises exactly when that has no command |
| BmcReport.ReverseTokens | src/services/syssentry/bmc_alarm.py:67-68 | reversing the two slices turns big-endian row and column into little-endian ones and moves nothing else |
| BmcReport.NoticeReceived | src/services/syssentry/bmc_alarm.py:128-150 | of the messages for validated sections the service accepts exactly those with a result code it knows and an ACLS or SPPR request |
| BmcReport.TokenRoundTrip | src/services/syssentry/bmc_alarm.py:83-97 | the token of a byte stands for that byte |
| BmcReport.NoticeAccepted | src/sentryPlugins/hbm_online_repair/non-standard-hbm-repair.c:452-496 | for every flat-mode request and every result code the handler passes the message is accepted, and the command carries repair type + 7, result, isolation type, each decoded field at its place, and row and column as 4-byte little-endian numbers |
| HbmHandler.Handler.PageIsolate | src/sentryPlugins/hbm_online_repair/non-standard-hbm-repair.c:510-560 | isolation succeeds exactly when the corrupted size is known, there is room, and every offline write succeeds; else one notification with the right code is sent; the writes are one per page |
| HbmHandler.Handler.OfflineAll | src/sentryPlugins/hbm_online_repair/non-standard-hbm-repair.c:541-553 | all sixteen pages are tried even after a failure |
| HbmHandler.Handler.AfterRepair | src/sentryPlugins/hbm_online_repair/non-standard-hbm-repair.c:562-580 | a page is removed after a failed repair and brought online after a good one, and the code says which |
| HbmHandler.Handler.HbmRepair | src/sentryPlugins/hbm_online_repair/non-standard-hbm-repair.c:582-641 | the writes and the notification of one device, for ACLS and SPPR alike; -ENXIO is returned exactly when the address is not in the device |
| HbmHandler.Handler.TryDevices | src/sentryPlugins/hbm_online_repair/non-standard-hbm-repair.c:694-711 | the devices are tried in order until one has the address |
| HbmHandler.Handler.RepairHandler | src/sentryPlugins/hbm_online_repair/non-standard-hbm-repair.c:679-734 | writes and notifications of the whole handler are those of the specification Handled |
| HbmHandler.NotificationCount | src/sentryPlugins/hbm_online_repair/non-standard-hbm-repair.c:679-734 | the number of notifications is 1 plus the number of devices that accept the query and answer the repair with -ENXIO, counted over the device list and the answers: at least one for every request, exactly one if and only if no repair is lost |
| HbmHandler.TwoNotifications | src/sentryPlugins/hbm_online_repair/non-standard-hbm-repair.c:604-641 | for every request two devices and answers with which two notifications are sent |
| HbmHandler.EveryNotificationAccepted | src/sentryPlugins/hbm_online_repair/non-standard-hbm-repair.c:679-734 | every message the handler sends is accepted by the Python service |
| HbmHandler.OnlineOnlyAfterRepair | src/sentryPlugins/hbm_online_repair/non-standard-hbm-repair.c:562-641 | in every run a page is given back only after it was taken offline and after a repair write succeeded |
| HbmHandler.SuccessExactlyWhenRepaired | src/sentryPlugins/hbm_online_repair/non-standard-hbm-repair.c:621-641 | success is reported if and only if the last writes are a good repair and the good return of every page |
| HbmCodes.CodesOfAnswers | src/sentryPlugins/hbm_online_repair/non-standard-hbm-repair.c:411-421 | for every run of the handler: the BMC is told 0x94 if and only if a query or repair write was answered -ENOSPC, and 0xa0 if and only if a page was not brought back |
| HbmCodes.InvalidParamExactly | src/sentryPlugins/hbm_online_repair/non-standard-hbm-repair.c:594-734 | 0x98 if and only if a query was answered -EINVAL, a repair -EINVAL or -ENXIO, or there are HBM devices and all of them answered the query with -ENXIO |
| HbmCodes.OtherReasonExactly | src/sentryPlugins/hbm_online_repair/non-standard-hbm-repair.c:594-734 | 0x9c if and only if a device answered another error, or the isolated pages meet no directory or no HBM device |
| HbmCodes.IsolationCodes | src/sentryPlugins/hbm_online_repair/non-standard-hbm-repair.c:510-560 | 0x81 if and only if the pages, at four kilobytes each, do not fit under the threshold, and 0x82 if and only if the corrupted size is unknown or a page was not taken offline; then nothing else is sent and no device is asked |
| HbmCodes.TypeBytes | src/sentryPlugins/hbm_online_repair/non-standard-hbm-repair.c:453-496 | for every flat request and known code the first bytes sent are 7 + k for the lowest type bit k of register 0, the code, and 6 for the address types 0 and 1 or 1 for the row types |
| HbmCodes.KindAgrees | src/sentryPlugins/hbm_online_repair/non-standard-hbm-repair.c:453-601 | the BMC is told an address repair exactly if all queries and repairs of the run are the ACLS ones, and a row repair exactly if all are the SPPR ones |
| HbmCodes.AddressesOfRequest | src/sentryPlugins/hbm_online_repair/non-standard-hbm-repair.c:526-601 | devices are asked about the first page only, and every other address written is one of the one or sixteen pages of the request |
| HbmCodes.AddressSent | src/sentryPlugins/hbm_online_repair/non-standard-hbm-repair.c:470-496 | the BMC is sent the parts of the fault address at fixed bit positions, each at its place, row and column as little-endian words |
| HbmCodes.FaultAddressIs | src/sentryPlugins/hbm_online_repair/non-standard-hbm-repair.c:470-474 | the fault address is in the last two registers, the last one before the other |
| HbmCodes.AcceptedNumbers | src/services/syssentry/bmc_alarm.py:128-150 | the service accepts the numbers 0, 0x81, 0x82, 0x94, 0x98, 0x9c and 0xa0 for the types it knows, and nothing else |
| HbmCodes.SuccessExactly | src/sentryPlugins/hbm_online_repair/non-standard-hbm-repair.c:606-642 | 0 is sent if and only if a device repaired the address and every page came back |
| SampleStatistics.NSigmaBound | src/sentryPlugins/ai_block_io/threshold.py:130-135 | with parameter k > 0 at most N / (k * k) of the N training samples lie strictly above mean + k * std, and none do when the variance is zero |
| SampleStatistics.SortKeepsSamples | src/sentryPlugins/ai_block_io/threshold.py:93-95 | the quartiles are taken of the samples themselves |
| SampleStatistics.QuartilesOrdered | src/sentryPlugins/ai_block_io/threshold.py:94-96 | q1 <= q3 under linear interpolation |
| SampleStatistics.BoxplotBound | src/sentryPlugins/ai_block_io/threshold.py:91-97 | with a positive parameter the threshold is at least q3, and at most ceil((N - 1) / 4) of the N samples lie strictly above it |
| ThresholdLaws.QuartileInterpolates | src/sentryPlugins/ai_block_io/threshold.py:94-95 | a quartile is the linear interpolation at position (N - 1) k / 4 of the sorted samples |
| ThresholdLaws.AboveBoxplotExactly | src/sentryPlugins/ai_block_io/threshold.py:94-97 | a value is above the threshold if and only if it is above the upper quartile by more than the parameter times the distance of the quartiles |
| ThresholdLaws.BoxplotScales | src/sentryPlugins/ai_block_io/threshold.py:91-97 | the threshold commutes with a change of unit and zero of the samples |
| ThresholdLaws.BoxplotGrows | src/sentryPlugins/ai_block_io/threshold.py:97 | it grows with the parameter by the distance of the quartiles for each unit, from the upper quartile at zero |
| ThresholdLaws.BoxplotExample | src/sentryPlugins/ai_block_io/threshold.py:91-97 | 7 for the samples 1 to 5 and the parameter 1.5 |
| ThresholdLaws.MeanExactly | src/sentryPlugins/ai_block_io/threshold.py:133 | the mean is the one number whose deviations add up to zero |
| ThresholdLaws.NSigmaExactly | src/sentryPlugins/ai_block_io/threshold.py:130-135 | the n-sigma threshold is the one point above the mean whose squared distance from it is k * k variances |
| SlidingWindow.Window.Push | src/sentryPlugins/ai_block_io/sliding_window.py:43-50 | the window holds the last W values, the tags are a fresh tagging of them, and the verdict on the new value is returned |
| SlidingWindow.Window.Update | src/sentryPlugins/ai_block_io/sliding_window.py:52-58 | after a new threshold every cached tag is what tagging anew gives; an equal threshold changes nothing |
| SlidingWindow.TagsExactly | src/sentryPlugins/ai_block_io/sliding_window.py:34-41 | the tags that are not set are those of the values below the average limit or above no other limit |
| SlidingWindow.QuietWindow | src/sentryPlugins/ai_block_io/sliding_window.py:34-99 | a window of such values reports nothing if it asks for a tag |
| SlidingWindow.Window.NotContinuousVerdict | src/sentryPlugins/ai_block_io/sliding_window.py:70-78 | true if and only if at least T tags are set |
| SlidingWindow.Window.ContinuousVerdict | src/sentryPlugins/ai_block_io/sliding_window.py:84-99 | true if and only if T adjacent tags are set, a threshold below one asking for one tag |
| SlidingWindow.Window.MedianVerdict | src/sentryPlugins/ai_block_io/sliding_window.py:105-114 | true if and only if the median of the window is above one of the two limits |
| SlidingWindow.ContinuousImpliesNotContinuous | src/sentryPlugins/ai_block_io/sliding_window.py:70-99 | what the continuous window reports the non-continuous one reports too |
| SlidingWindow.OnlyWhenFullExactly | src/sentryPlugins/ai_block_io/sliding_window.py:70-114 | over all runs of pushes and new thresholds, every alarm comes from a full window if and only if the configuration asks for as many tags as the window is long, or the median window holds one value |
| SlidingWindow.EarlyAlarm | src/sentryPlugins/ai_block_io/sliding_window.py:74-77 | as many values above a limit as the run length, or one for a median, are an alarm in a window of any length |
| SlidingWindow.DefaultConfigurationRun | src/sentryPlugins/ai_block_io/sliding_window.py:70-78 | a run of the default configuration: six values above an absolute limit are an alarm in a window of thirty |
| SlidingWindow.MedianAboveMeansHalfAbove | src/sentryPlugins/ai_block_io/sliding_window.py:111-113 | a median above a limit means at least half the window is above it |
| Detector.TrainedAtClosedForm | src/sentryPlugins/ai_block_io/threshold.py:103-116 | with n >= N accepted samples the last training was at sample N + U * floor((n - N) / U) |
| Detector.ScheduleStep | src/sentryPlugins/ai_block_io/threshold.py:106-116 | the counter test of the program trains exactly when that schedule says so |
| Detector.AcceptedExactly | src/sentryPlugins/ai_block_io/threshold.py:103-105 | what trains are the values from one millionth on, each as often as it occurs |
| Detector.Threshold.PushLatestDataToQueue | src/sentryPlugins/ai_block_io/threshold.py:103-116 | after any number of samples the queue is the last N accepted ones, the threshold is the one computed from the N samples ending at the last training (none before N, and none ever for a queue of size zero, which is unbounded), and the observing window has it |
| Detector.SlowIoDetector.IsSlowIoEvent | src/sentryPlugins/ai_block_io/detector.py:38-68 | over every run the window, its tags and the verdict are functions of the metric values seen, the threshold being trained on a value before the window judges it |
| Detector.DetectorNeedsFullExactly | src/sentryPlugins/ai_block_io/detector.py:54-55 | with an absolute limit set, over all histories of metric values, alarms come from full windows only if and only if the configuration asks for it |
| Detector.WithoutLimitExactly | src/sentryPlugins/ai_block_io/detector.py:54-55 | without an absolute limit they do, whatever rule computes the thresholds, if and only if the configuration asks for it or no threshold arrives before the window is full |
| Detector.FixedLimitExactly | src/sentryPlugins/ai_block_io/detector.py:54-55 | with a limit set once and never trained they do if and only if the configuration asks for it |
| Detector.AbsoluteThreshold.SetThreshold | src/sentryPlugins/ai_block_io/threshold.py:36-39 | a limit set by hand, or none, is the limit of the window from then on, for the values it holds too |
| Detector.FixedDetector.IsSlowIoEvent | src/sentryPlugins/ai_block_io/detector.py:38-68 | the verdict of a detector with such a limit is that of its window on the last values |
| Detector.BoxplotRunBound | src/sentryPlugins/ai_block_io/threshold.py:91-116 | at every point of every run the box plot threshold in force lies above all but a quarter of what it was trained on |
| Detector.NSigmaRunBound | src/sentryPlugins/ai_block_io/threshold.py:130-154 | and an n-sigma threshold above all but N / (k * k) of it |
| AvgBlockIo.AbnormalWindow.AppendNewPeriod | src/sentryPlugins/avg_block_io/stage_window.py:23-28 | the oldest verdict goes, the verdict on the new value comes |
| AvgBlockIo.AbnormalWindow.IsAbnormalWindow | src/sentryPlugins/avg_block_io/stage_window.py:30-31 | true if and only if at least the threshold number of verdicts is set |
| AvgBlockIo.Key.UpdateIoAvg | src/sentryPlugins/avg_block_io/utils.py:84-92 | the average of count + 1 values, from the count or from the window size once it is reached |
| AvgBlockIo.Key.UpdateAvgAndCheckAbnormal | src/sentryPlugins/avg_block_io/utils.py:138-161 | over every run average, verdict windows and data windows are functions of the periods seen; a period is judged with the average before it, and true is returned exactly when the warm-up is over |
| AvgBlockIo.NextPeriod | src/sentryPlugins/avg_block_io/utils.py:147-153 | the window of the last W verdicts, padded with False, moves by one verdict for each period after the warm-up |
| AvgBlockIo.WarmUpMean | src/sentryPlugins/avg_block_io/utils.py:84-92 | during the warm-up the average is the exact mean |
| AvgBlockIo.AverageIgnoresFlagged | src/sentryPlugins/avg_block_io/utils.py:153-161 | the average equals that of the same run with all flagged periods deleted, and in that run none is flagged |
| AvgBlockIo.AverageBound | src/sentryPlugins/avg_block_io/utils.py:138-161 | after the warm-up the average never exceeds the greater of the warm-up mean and tot_lim |
| AvgBlockIo.BurstAlarms | src/sentryPlugins/avg_block_io/stage_window.py:30-46 | after the warm-up a burst of periods above tot_lim sets as many tags as it is long, or all tags if it is longer than the window |
| AvgBlockIo.BurstVerdicts | src/sentryPlugins/avg_block_io/utils.py:153-161 | and such a burst leaves the average as it was |
| AvgBlockIo.RelativeBurstAlarms | src/sentryPlugins/avg_block_io/stage_window.py:44-46 | a burst above the lower limit and above the multiple of the average before it leaves the average as it was and sets as many tags, whatever the total limit is |
| AvgBlockIo.UnflaggedPeriod | src/sentryPlugins/avg_block_io/stage_window.py:44-46 | a period under the total limit that is under the lower limit or under the multiple of the average sets no tag and counts one share of the average |
| AvgBlockIo.LowerAverageFlagsMore | src/sentryPlugins/avg_block_io/stage_window.py:44-46 | a lower average never clears a verdict |
| AvgBlockIo.DumpVerdicts | src/sentryPlugins/avg_block_io/stage_window.py:49-55 | a dump window looks at its own limit only |
| AvgBlockIo.DefaultWindowRun | src/sentryPlugins/avg_block_io/stage_window.py:36-46 | with the default limits a period of 35 after ten of 5 is flagged and leaves the average at 5 |
| AvgBlockIo.QuietRaisesNothing | src/sentryPlugins/avg_block_io/stage_window.py:30-46 | periods under both absolute limits raise no alarm whatever the average |
| CpuList.PrintCpuSet | src/sentryPlugins/cpu_sentry/catlib/cli_executor.c:7-42 | the printing loop prints the maximal runs of the set, and 4294967295 for the empty set |
| CpuList.RunsMembers | src/sentryPlugins/cpu_sentry/catlib/cli_executor.c:13-41 | the runs stand for exactly the members, in ascending order |
| CpuList.RunsApart | src/sentryPlugins/cpu_sentry/catlib/cli_executor.c:13-41 | two printed ranges never touch |
| CpuList.AscendingBelowMeans | src/sentryPlugins/cpu_sentry/catlib/cli_executor.c:13-41 | the reference list is strictly ascending and holds exactly the members below the bound |
| CpuList.RenderedIsValid | src/services/syssentry/sentry_config.py:114-129 | every printed text passes the validity pattern |
| CpuList.CpuFormatConvertToList | src/sentryPlugins/cpu_sentry/cpu_sentry.py:43-65 | the loop over the pieces computes ConvertToList for every text, with its early return for a reversed range |
| CpuList.PrintedSetIsRead | src/sentryPlugins/cpu_sentry/cpu_sentry.py:43-65 | for every non-empty CPU set the list read from the printed text is exactly that set in ascending order |
| CpuList.NewlineIgnored | src/sentryPlugins/cpu_sentry/cpu_sentry.py:43-65 | and so it is with the trailing newline of a sysfs file |
| CpuList.SplitScan | src/services/syssentry/sentry_config.py:125-128 | the pattern holds of a text by holding of each of its comma-separated pieces |
| CpuList.MalformedExactly | src/services/syssentry/sentry_config.py:114-129 | a valid text has a piece that is neither a number nor a range, against the documentation, if and only if one of its pieces has two dashes or more |
| CpuList.ReadOfValidText | src/sentryPlugins/cpu_sentry/cpu_sentry.py:43-65 | what is read from a valid text: nothing if a range runs backwards, else the ids of the pieces with at most one dash, in order |
| CpuList.PieceExactly | src/sentryPlugins/cpu_sentry/cpu_sentry.py:55-64 | a piece is a number exactly if it is digits, and a range exactly if it is digits, a dash, and digits |
| CpuList.TwoDashesAccepted | src/services/syssentry/sentry_config.py:115-129 | 1-10-20, which the documentation calls invalid, passes the pattern and reads as the empty list |
| PatrolList.InsertKeepsOrder | src/sentryPlugins/cpu_sentry/catlib/plugin/cpu_patrol/cpu_patrol_result.c:21-65 | the list stays strictly ascending, free of core 0 and at most 4096 long; a positive core with room left is added to the set and nothing else changes |
| PatrolList.InsertPlace | src/sentryPlugins/cpu_sentry/catlib/plugin/cpu_patrol/cpu_patrol_result.c:39-57 | storing at the first larger element is sorted insertion |
| PatrolList.CoreList.ShiftUp | src/sentryPlugins/cpu_sentry/catlib/plugin/cpu_patrol/cpu_patrol_result.c:47-52 | the in-place loop with its break at index 0 moves the elements from i on up by one and keeps the others |
| PatrolList.CoreList.ShiftAndStore | src/sentryPlugins/cpu_sentry/catlib/plugin/cpu_patrol/cpu_patrol_result.c:47-55 | so the core is inserted at its place and every other element is kept |
| PatrolList.CoreList.InsertCoreToList | src/sentryPlugins/cpu_sentry/catlib/plugin/cpu_patrol/cpu_patrol_result.c:21-65 | the array holds the sorted insertion of the core afterwards; the status is an error exactly for a negative core |
| PatrolList.TokensAreSplit | src/sentryPlugins/cpu_sentry/catlib/plugin/cpu_patrol/cpu_patrol_result.c:76-79 | the tokens of strtok_r are the non-empty pieces between separators |
| PatrolList.CoreList.ParsePatrolResult | src/sentryPlugins/cpu_sentry/catlib/plugin/cpu_patrol/cpu_patrol_result.c:70-100 | final list and status are those of the tokens one after the other; a bad range ends the parse and keeps what was inserted before it |
| PatrolList.StoppedParse | src/sentryPlugins/cpu_sentry/catlib/plugin/cpu_patrol/cpu_patrol_result.c:88-92 | tokens after a bad range have no effect |
| PatrolList.StrtolDec | src/sentryPlugins/cpu_sentry/catlib/plugin/cpu_patrol/cpu_patrol_result.c:82-87 | strtol and the cast read every printed id back |
| PatrolList.StrtolClamps | src/sentryPlugins/cpu_sentry/catlib/plugin/cpu_patrol/cpu_patrol_result.c:82-87 | a number with or without sign is read as it is, up to the limits of a 64-bit long |
| PatrolList.NumbersToken | src/sentryPlugins/cpu_sentry/catlib/plugin/cpu_patrol/cpu_patrol_result.c:80-92 | a number, with or without a dash after it, is one core; two numbers are a range unless it runs backwards or up to the greatest int |
| PatrolList.PrintedSetIsParsed | src/sentryPlugins/cpu_sentry/catlib/plugin/cpu_patrol/cpu_patrol_result.c:70-100 | for every non-empty CPU set of ids below INT_MAX the C parser makes of the printed text, from an empty list, the 4096 smallest members other than core 0, which is the whole set without core 0 when it fits |
| PatrolList.DashTokens | src/sentryPlugins/cpu_sentry/catlib/plugin/cpu_patrol/cpu_patrol_result.c:80-82 | strtok_r finds nothing in a token, and strtol gets a null pointer, exactly for a token of dashes only |
| PatrolList.NullTokenExactly | src/sentryPlugins/cpu_sentry/catlib/plugin/cpu_patrol/cpu_patrol_result.c:74-98 | the parse of a text reaches that null pointer if and only if some token is all dashes and no earlier one is a bad range |
| PatrolList.NullTokenExample | src/sentryPlugins/cpu_sentry/catlib/plugin/cpu_patrol/cpu_patrol_result.c:74-98 | the text 3,- does |
| CpuAlarm.RecordRoundTrip | src/libs/libxalarm/register_xalarm.c:469-483 | every record the library prints is read back to the same numbers if event type, socket and core are in range, and refused if not |
| CpuAlarm.OtherParamsRefused | src/libs/libxalarm/register_xalarm.c:437-445 | the library prints a record exactly for a valid type, module and destination |
| CpuAlarm.InfoInts | src/sentryPlugins/cpu_sentry/cpu_alarm.py:61-77 | the four numbers of the info text are split and read as printed, for all 16- and 32-bit values |
| CpuAlarm.CountGroups | src/sentryPlugins/cpu_sentry/cpu_alarm.py:118-127 | the groups are the sum of the quotients, and an exception is raised exactly for a zero core count or fewer threads than cores |
| CpuAlarm.GroupNumAdds | src/sentryPlugins/cpu_sentry/cpu_alarm.py:118-127 | the groups of several sockets are those of the one and those of the others |
| CpuAlarm.GetCpuInterval | src/sentryPlugins/cpu_sentry/cpu_alarm.py:97-146 | the intervals of consecutive CPUs exactly when the counts are valid and there is at least one CPU to a group; else nothing, or an exception, as the commands and counts say |
| CpuAlarm.CoreIdIsPlace | src/sentryPlugins/cpu_sentry/cpu_alarm.py:149-154 | a logical CPU is mapped if and only if its group starts below the number of CPUs, and then to its place in the group |
| CpuAlarm.CapacityExactly | src/sentryPlugins/cpu_sentry/cpu_alarm.py:173-180 | the capacity is the least whole number of bytes, in bits, that holds a group, and four bytes at least |
| CpuAlarm.UploadBitmap | src/sentryPlugins/cpu_sentry/cpu_alarm.py:173-189 | the bytes of the chunk loop and the reversal fill the capacity and are the little-endian encoding of 2 to the core id |
| CpuAlarm.BitmapEncodesCore | src/sentryPlugins/cpu_sentry/cpu_alarm.py:173-189 | for every mapped core the bytes are the little-endian encoding of 2 to the core id, which always fits the chosen capacity |
| QueryEvents.ParseSingleEvent | src/sentryPlugins/bmc_ras_sentry/src/cbmcrassentry.cpp:1121-1169 | the byte loops decode the eleven bytes of an event, and the event is invalid exactly when one of them is not a byte |
| QueryEvents.ProcessEvents | src/sentryPlugins/bmc_ras_sentry/src/cbmcrassentry.cpp:1171-1184 | the valid events of a page are reported in order |
| QueryEvents.QueryEvents | src/sentryPlugins/bmc_ras_sentry/src/cbmcrassentry.cpp:985-1040 | the loop ends against every responder, its 16-bit index never wraps, and result and reports are those of the specification Query |
| QueryEvents.PagesContiguous | src/sentryPlugins/bmc_ras_sentry/src/cbmcrassentry.cpp:985-1040 | against any responder the processed pages start at index 0, each begins where the last one ended, and none is empty |
| QueryEvents.PagesDisjoint | src/sentryPlugins/bmc_ras_sentry/src/cbmcrassentry.cpp:985-1040 | so no index is fetched twice |
| QueryEvents.EventRoundTrip | src/sentryPlugins/bmc_ras_sentry/src/cbmcrassentry.cpp:1121-1169 | decoding gives back the values the little-endian bytes encode |
| QueryEvents.NumberForms | src/sentryPlugins/bmc_ras_sentry/src/cbmcrassentry.cpp:1121-1169 | a byte is read by strtoul with or without sign and leading space; a negative number wraps around and one too large becomes the largest |
| QueryEvents.PrefixedForm | src/sentryPlugins/bmc_ras_sentry/src/cbmcrassentry.cpp:1121-1169 | and with a hexadecimal prefix |
| QueryEvents.EveryEventOnce | src/sentryPlugins/bmc_ras_sentry/src/cbmcrassentry.cpp:985-1040 | against a server of a fixed list that returns at least one event while any remain every event is reported exactly once and in order |
| QueryEvents.CompleteExactlyWithoutEmptyPage | src/sentryPlugins/bmc_ras_sentry/src/cbmcrassentry.cpp:1007-1010 | against a server that may return empty pages the query always reports success, and the list is complete if and only if no page on the way was empty |
| QueryEvents.EmptyPageLoses | src/sentryPlugins/bmc_ras_sentry/src/cbmcrassentry.cpp:1007-1010 | for any two events a responder, serving an empty page after the first, with which the query succeeds and reports only that one |
| XalarmEvents.Registry.RegisterClientEvents | src/services/xalarm/xalarm_events.py:294-317 | subscriptions, enabled events and switch writes after a registration, event by event |
| XalarmEvents.Registry.UnregisterClientEvents | src/services/xalarm/xalarm_events.py:319-345 | the same for dropping events, with the search for other subscribers |
| XalarmEvents.Registry.CloseAll | src/services/xalarm/xalarm_transfer.py:74-78 | every dead connection loses all its events and is closed |
| XalarmEvents.Registry.ClearEnabledEventsState | src/services/xalarm/xalarm_events.py:280-291 | when the service goes down no event is enabled, and subscriptions and connections stay |
| XalarmEvents.ClosedAllIsRun | src/services/xalarm/xalarm_transfer.py:74-78 | that loop is a run of enabled steps, one lost connection after the other |
| XalarmEvents.Registry.AcceptConnection | src/services/xalarm/xalarm_transfer.py:95-127 | a connection is accepted below the maximum, its message handled before it is listed, and it is closed unlisted when receiving or switching the socket mode fails |
| XalarmEvents.OffOnlyWhenUnsubscribed | src/services/xalarm/xalarm_events.py:189-345 | in every run "off" is only ever written for an event no descriptor subscribes to |
| XalarmEvents.LimitsKept | src/services/xalarm/xalarm_transfer.py:95-104 | in every run there are at most a hundred connections, and the panic and reboot events are never switched off |
| XalarmEvents.NeededExactly | src/services/xalarm/xalarm_events.py:189-345 | in every run all non-critical enabled events are subscribed at all times if and only if no registration takes over a descriptor that alone needs an enabled event left out of it |
| XalarmEvents.RunsKeepInv | src/services/xalarm/xalarm_transfer.py:95-127 | and so it is in every run in which no registering connection is closed before it is listed: descriptors that are not open then have no subscriptions |
| XalarmEvents.RegisterOverStale | src/services/xalarm/xalarm_events.py:305-317 | registering over a descriptor that was not cleaned up keeps the first property if and only if every enabled, non-critical event that only this descriptor needs is registered again |
| XalarmEvents.StaleRun | src/services/xalarm/xalarm_transfer.py:106-122 | a run in which it is lost: a registered client whose socket mode cannot be switched, and a second client on the same descriptor number |
| XalarmEvents.RegisterOutcome | src/services/xalarm/xalarm_events.py:309-317 | after a registration, repeated ids included, an event is enabled if and only if at its last occurrence the switch could be opened or was on while the event was enabled |
| XalarmEvents.UnregisterOutcome | src/services/xalarm/xalarm_events.py:331-345 | dropping events disables exactly the dropped, non-critical ones nobody else needs |
| PeriodTask.PeriodTask.Start | src/services/syssentry/cron_process.py:53-108 | the new fields and the result of a start, for every outcome of pre commands, conflict check and Popen |
| PeriodTask.PeriodTask.Handle | src/services/syssentry/cron_process.py:146-164 | one round of the timer for one task |
| PeriodTask.PeriodTask.OnstartHandle | src/services/syssentry/cron_process.py:128-139 | the start at start-up, for tasks configured so |
| PeriodTask.PeriodTasksHandle | src/services/syssentry/cron_process.py:142-164 | the timer loop handles every task once and mixes none up |
| PeriodTask.PeriodTask.TaskStop | src/services/syssentry/callbacks.py:75-95 | the three answers of the stop command and what each changes |
| PeriodTask.PeriodTask.TaskStart | src/services/syssentry/callbacks.py:98-117 | the start command, refused while the task runs |
| PeriodTask.PeriodTask.OnChildExit | src/services/syssentry/syssentry.py:521-541 | the status after the exit of the child |
| PeriodTask.PeriodTask.HbTimeoutChkInterval | src/services/syssentry/heartbeat.py:33-50 | a silent task is marked FAILED, its child is sent SIGTERM, and nothing else changes |
| PeriodTask.PeriodTask.HeartbeatReceived | src/services/syssentry/heartbeat.py:128-139 | a heartbeat counts for a running task that watches heartbeats |
| PeriodTask.StepKeepsInv | src/services/syssentry/syssentry.py:510-544 | every step keeps the invariant of process ids, statuses and launch times |
| PeriodTask.WaitingMeansDead | src/services/syssentry/cron_process.py:142-164 | in every run WAITING means the current child is dead |
| PeriodTask.LaunchesAnIntervalApart | src/services/syssentry/cron_process.py:110-119 | in every run an automatic launch attempt comes at least the interval then in force after any earlier attempt |
| PeriodTask.LaunchExactly | src/services/syssentry/cron_process.py:53-164 | a step starts a child exactly when the task is due or a start is asked for, the pre commands have succeeded, no conflict forbids it, and Popen succeeds |
| PeriodTask.QuietUntilStart | src/services/syssentry/cron_process.py:142-164 | from a quiet state no step launches the task before an explicit start |
| PeriodTask.StopQuiets | src/services/syssentry/callbacks.py:84-91 | a stop leaves the task quiet if and only if it was disabled already, RUNNING, WAITING, or its child is dead |
| PeriodTask.StoppedStaysStopped | src/services/syssentry/callbacks.py:75-95 | after a stop accepted in RUNNING or WAITING nothing launches the task before an explicit start |
| PeriodTask.StopOfFailedRelaunches | src/services/syssentry/callbacks.py:84-86 | in the remaining case, FAILED with a living child, the stop also answers success and three steps later the timer launches the task again |
| PeriodTask.StoppedTaskRuns | src/services/syssentry/heartbeat.py:41-50 | a run from the initial state in which that happens: launch, heartbeat timeout, stop, exit, launch |
| PeriodTask.OneLivingChildExactly | src/services/syssentry/callbacks.py:104-109 | in every run a task has at most one living child at all times if and only if no step started one while the current child was alive |
| PeriodTask.OverlapsExactly | src/services/syssentry/callbacks.py:104-109 | and the only such step is a start command accepted for a task that is FAILED with its child alive |
| PeriodTask.TwoLivingChildren | src/services/syssentry/heartbeat.py:41-50 | a run from the initial state with two living children: launch, heartbeat timeout, start command |
| PeriodLaws.SilentExactly | src/services/syssentry/heartbeat.py:33-50 | in every run a check marks a running task FAILED if and only if it has given a sign of life, by a launch or a heartbeat, and all of them are longer ago than its interval |
| PeriodLaws.PreDoneExactly | src/services/syssentry/cron_process.py:53-70 | in every run the pre commands count as done if and only if a start went through them and no stop has cleaned up since |
| PeriodLaws.IdleTick | src/services/syssentry/cron_process.py:146-164 | a tick that starts nothing leaves a task as it is, but for one that is not to run at start-up and was never started, which is EXITED and stays quiet |
| Collector.Cell.UpdateCounters | src/services/sentryCollector/collect_io.py:371-373 | over any interleaving the window holds the counters of the last tick and the newest ones |
| Collector.Cell.AppendPeriod | src/services/sentryCollector/collect_io.py:403-420 | a tick stores latency, dumps, queue length and operations per second, rounded to one decimal, of the period from the last tick to now; both histories are equally long, newest first, and never above max_save |
| Collector.RoundedExactly | src/services/sentryCollector/collect_io.py:445-449 | rounding gives the nearest whole number of tenths, of two equally near the even one |
| Collector.DumpMeans | src/services/sentryCollector/collect_io.py:484-493 | the dumps stored are those pending at the tick, whatever they were before |
| Collector.NextKept | src/services/sentryCollector/collect_io.py:405-420 | dropping the oldest and inserting in front keeps the newest max_save samples |
| Collector.DeltasTelescope | src/services/sentryCollector/collect_io.py:409-420 | the finish and latency deltas of all periods add up to the counters seen at the last tick |
| Collector.StoredPeriodsConsecutive | src/services/sentryCollector/collect_io.py:409-420 | each stored period begins with the counters the older one ended with |
| Collector.IopsAccount | src/services/sentryCollector/collect_io.py:452-464 | while the counters grow, the rounded operations per second of all periods add up to the operations finished over the period, with an error of at most 0.05 for each |
| Collector.LengthAccount | src/services/sentryCollector/collect_io.py:466-482 | and so do the queue lengths to the time spent over the period |
| Collector.LatencyMeans | src/services/sentryCollector/collect_io.py:435-450 | the latency stored for a period is the time spent for each operation finished in it, with an error of at most 0.05 |
| Collector.LatencyAccount | src/services/sentryCollector/collect_io.py:435-450 | and the latencies, each times the operations of its period, add up to the time spent |
| CollectorThreads.WindowLength | src/services/sentryCollector/collect_io.py:369-412 | with every access to the window a step of its own, under every schedule, the window has two entries between the operations of the threads, or three for good once the length test of an update came between a pop(0) and its insert; the update thread never fails |
| CollectorThreads.PeriodThreadEndsExactly | src/services/sentryCollector/collect_io.py:369-412 | the period thread ends exactly when its length test, its read of [-2] or its read of [0] comes between the pop and the append of an update while the window is not stuck |
| CollectorThreads.SoundExactly | src/services/sentryCollector/collect_io.py:369-412 | while the counters grow, the window holds the counters of the last tick and the newest ones, as long as the period thread lives, if and only if no append comes between the read of [-1] and the insert and no length test of an update between pop(0) and insert |
| CollectorThreads.PeriodsAddUp | src/services/sentryCollector/collect_io.py:409-421 | without such a step the stored deltas add up to the counters at the last tick, under every schedule |
| CollectorThreads.SticksOn | src/services/sentryCollector/collect_io.py:411-412 | a length test of an update between pop(0) and insert sticks the window on the counters of the tick in progress |
| CollectorThreads.StuckForGood | src/services/sentryCollector/collect_io.py:409-421 | the period thread then never ends, and every later tick stores the period since these counters again |
| CollectorThreads.UpdateAlone | src/services/sentryCollector/collect_io.py:369-371 | an update that nothing comes between |
| CollectorThreads.TickAlone | src/services/sentryCollector/collect_io.py:403-421 | a tick that nothing comes between |
| CollectorThreads.PeriodThreadCanEnd | src/services/sentryCollector/collect_io.py:403-410 | a schedule in which the thread passes its length test and then ends on the read of [-2] |
| CollectorThreads.CountedTwice | src/services/sentryCollector/collect_io.py:411-421 | a schedule that stores the period from a to b twice and leaves three entries |
| CollectorThreads.CountsLost | src/services/sentryCollector/collect_io.py:409-421 | a schedule in which what was counted from a to b is in no stored period |
| Collector.GetIoCommon | src/services/sentryCollector/collect_server.py:65-103 | the nested loops return exactly the requested disks, stages and types whose history reaches the index, and nothing for an invalid period |
| Collector.AnswerExactly | src/services/sentryCollector/collect_server.py:86-103 | an answer holds a value exactly for the disks and types asked for, the stages asked for or all, and the histories long enough, and it is the one at the index |
| Collector.PeriodIndex | src/services/sentryCollector/collect_server.py:80-85 | an accepted period is k whole periods with 1 <= k <= max_save |
| Collector.ValidPeriodExactly | src/services/sentryCollector/collect_server.py:80-85 | the periods accepted are exactly the k-fold ones with 1 <= k <= max_save |
| Collector.RequestedSample | src/services/sentryCollector/collect_server.py:96-101 | a request for k periods is answered with the four values of the sample taken k - 1 ticks before the newest if and only if that many are kept |
| Numerals.DecRoundTrip | src/sentryPlugins/cpu_sentry/catlib/cli_executor.c:27-40 | what %u prints is read back as the same number |
| Numerals.HexPadWord | src/sentryPlugins/hbm_online_repair/non-standard-hbm-repair.c:483-496 | %08x prints the four bytes of a 32-bit number, most significant first |

## Left out

- Sockets, epoll, D-Bus, systemd, pid files, popen and the reading of /proc, /sys and ipmitool output: what they return is a parameter or a step.
- Partial reads and writes of sockets: a message arrives whole.
- RingScan.Enabled: each thread is on a fixed NUMA node here; in `RingNodes`, where it may change with every call of sched_getcpu, a whole call is one step. `pthread_cancel` during a failed start, delays and alarm texts are not modelled.
- RingImage.ScanBit: the loop indices of `int` and `uint32_t` are unbounded here, so a test space of 2^31 bytes or more is not covered.
- HbmHandler.Handler.NoticeBmc: a call counts as a notification; a failing socket only loses the text.
- Recording fault addresses in flash (`write_fault_info_to_flash`) and the cache-mode path, which do not take part in the repair.
- BmcReport.IntBase16: underscores inside a Python number cannot occur in two characters; letters and digits are ASCII.
- PythonText.IntBase10: underscores between digits and non-ASCII digits are not read; no printer produces them.
- SampleStatistics.BoxplotBound: reals instead of floating point, so rounding is not covered; the same for every average and threshold.
- The parameter key `n_sigma_paramter` of the ai_block_io configuration, which does not reach the threshold class: the parameter is arbitrary here.
- AvgBlockIo.Key.UpdateAvgAndCheckAbnormal: one key and its latency and dump windows; the iops and array windows never judge, and log texts are not modelled.
- CpuList.IsValidCpuInput: the pattern over ASCII digits, as an automaton.
- PatrolList.CoreList.ParsePatrolResult: what the C code does after it passes a null pointer to strtol is undefined; the model stops there with a status of its own.
- Isolation of the parsed cores, their sysfs files and alarms.
- CpuAlarm.GetCpuInterval: the counts are given; finding them in the output of dmidecode and lscpu is not modelled.
- QueryEvents.ParseWord: bytes ORed into separate places are added.
- The alarm that a BMC event raises, and the other IPMI commands of the BMC plugin.
- XalarmEvents.Registry.DisableEvent: the outcome of the "off" write is not looked at by the code, so an event can stay on in the kernel; loading a driver and retrying is one write.
- XalarmEvents.Apply: descriptor numbers come from the kernel, which never hands out an open one; alarm texts and the id filter are not modelled.
- PeriodTask.Apply: steps are atomic and process ids are never reused; the signal handler's loop, which stops at an unknown process id, handles one exit per step. Result records, log files and oneshot tasks are left out.
- Collector.Cell.AppendPeriod: what is rounded are reals, so ties of binary floating point are not covered. Update and tick are one step each here; `CollectorThreads` takes them apart, for one window. The lock-free collector, which fills the same histories, and disk data are left out.
- Configuration readers and validators, loggers and command-line output: long chains of simple checks.
