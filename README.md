# sysrepo-plugin-os-metrics: statistics readers and threshold monitors

This project models the sequential core of the Deutsche Telekom system-metrics
plugin for sysrepo:

- the readers that turn `/proc/meminfo`, `/proc/stat`, `/proc/<tid>/{stat,io,status}`
  and the output of `df -T` / `df -i` into counters and into the leaves the plugin
  publishes under `/dt-metrics:system-metrics/...`;
- the per-process CPU-time cache behind the `cpu` leaf of every process;
- the threshold manager: how a reload of the `memory` and `filesystems`
  configuration subtrees fills the threshold tables, how the monitor threads
  are started, joined and dropped, and what a monitor loop logs poll by poll.

Each module follows one source header:

| module | file | source |
|---|---|---|
| `Globals` | globals.dfy | fixed-width integer conversions, decimal rendering, published `(path, value)` entries |
| `Stream` | stream.dfy | the `std::istream` extractions the readers use (`>>` into a word or an unsigned 64-bit number, `ignore`) |
| `MemoryStatistics` | memory_stats.dfy | src/memory_stats.h |
| `CpuStatistics` | cpu_stats.dfy | src/cpu_stats.h |
| `ProcessStatistics` | process_stats.dfy | src/process_stats.h |
| `FilesystemStatistics` | filesystem_stats.dfy | src/filesystem_stats.h |
| `MonitorConfig` | monitor_config.dfy | the two `populateConfigData` walks of src/threshold_manager.h as functions, with reference definitions |
| `ThresholdManager` | threshold_manager.dfy | `MemoryMonitoring` and `FilesystemMonitoring` of src/threshold_manager.h as classes |

Files are given as their text, and a reader is proved against a function of
that text. Each reader is also tied to a reference: the text is rendered from
well-formed lines, and a lemma shows that reading it back yields exactly the
counters or entries those lines describe. A `setXpath` call becomes one
`Entry(path, value)` in an output sequence. Unsigned 64-bit and `int`
arithmetic is written out (`ToU64`, `Sub64`, `ToInt32`) wherever the source
can wrap around.

The configuration data tree becomes the sequence of nodes that `tree_for` and
`tree_dfs` visit (`ListNode`, `Leaf`, `OtherNode`). Each `populateConfigData`
is an imperative loop over that sequence. It is proved equal to a fold
(`MemoryWalkFrom`, `FsWalkFrom`). The fold is then proved equal to a
declarative reference on configurations built from threshold entries
(`Store`, `FsReference`).

A thread handle is an id with a `joinable` flag, and a ghost set records the
ids joined so far. Replacing a joinable `std::thread` would terminate the
program, so every replacement is guarded by a proof that the old handle is no
longer joinable.

A monitor loop is a function of a trace of wait outcomes: `Timeout(sample)`
carries the usage read on that poll, and `Woken` is a notification. The
iteration order of an `unordered_map` is an `order` sequence that enumerates
its keys.

## Model

| member | source | states |
|---|---|---|
| Globals.ToU64 | src/memory_stats.h:92 | the unsigned 64-bit value congruent to an integer modulo 2^64, the integer itself when it is in range |
| Globals.Sub64 | src/memory_stats.h:92 | unsigned 64-bit subtraction: a - b when b <= a, 2^64 + a - b when it wraps |
| Globals.ToInt32 | src/cpu_stats.h:100 | the signed 32-bit value congruent to an integer modulo 2^32, the integer itself in range (the `int` accumulator) |
| Globals.NatToString | src/memory_stats.h:47 | `std::to_string` of an unsigned counter: non-empty, all digits, no leading zero |
| Globals.IntToString | src/process_stats.h:181 | `std::to_string` of a signed value: non-empty, starting with '-' exactly when negative |
| Globals.DigitsValueOfNatToString | src/memory_stats.h:47 | the printed digits read back as the number printed |
| Globals.NatToStringInjective | src/process_stats.h:181 | two different numbers never print the same |
| Globals.Prefixed | src/memory_stats.h:46-61 | every published leaf under a common path prefix, values unchanged, in order |
| Globals.LookupPrefixed | src/memory_stats.h:46-61 | looking up prefix + leaf among prefixed entries finds what leaf finds among the unprefixed ones |
| Globals.LookupAppend | src/cpu_stats.h:128-134 | a lookup in two consecutive batches of output finds the first batch's entry before the second's |
| Globals.PercentBounds | src/memory_stats.h:63-74 | a share part / whole * 100 is non-negative, and at most 100 when the part is at most the whole |
| Stream.SkipSpace | src/memory_stats.h:81 | leading white space is skipped, and what remains starts with non-space |
| Stream.ReadWord | src/memory_stats.h:81 | `>>` into a string: yields a word exactly when the stream stays good; the word is non-empty and consumed |
| Stream.ReadU64 | src/memory_stats.h:84-85 | `>>` into a 64-bit unsigned: a good stream yields a value at most 2^64 - 1 and consumes input |
| Stream.ReadNumbers | src/cpu_stats.h:143-144 | the loop reading numbers until an extraction fails returns exactly `Numbers`, each value within 64 bits |
| Stream.ReadWordOf | src/memory_stats.h:81 | on a good stream a word followed by space is read exactly; on a failed stream nothing is read |
| Stream.ReadU64Of | src/memory_stats.h:85 | a printed number followed by a non-digit is read back exactly |
| Stream.ReadU64Negative | src/process_stats.h:102 | a negative number is read as its unsigned wrap-around 2^64 - n |
| Stream.NumbersOfJoin | src/cpu_stats.h:143-144 | a line of blank-separated counters followed by a non-number reads back as exactly those counters |
| Stream.NumbersOfJoinSigned | src/process_stats.h:101-103 | blank-separated signed fields read back as their unsigned 64-bit wrap-arounds |
| Stream.NumbersStop | src/cpu_stats.h:143 | numbers stop at the first non-number token |
| Stream.IgnoreLine | src/memory_stats.h:90 | `ignore(max, '\n')` drops exactly the rest of the line and its newline |
| Stream.DropPast | src/cpu_stats.h:142 | `ignore(5, ' ')` over a prefix shorter than the count and free of the delimiter consumes the prefix and continues with the remaining count |
| MemoryStatistics.Set | src/memory_stats.h:121-131 | one assignMap lambda: exactly the named field takes the value and every other field keeps its own |
| MemoryStatistics.ReadFrom | src/memory_stats.h:81-91 | the token loop never touches swap-used and keeps every counter within 64 bits |
| MemoryStatistics.SwapUsedHasNoKey | src/memory_stats.h:121-131 | no /proc/meminfo key assigns swap-used |
| MemoryStatistics.AfterRead | src/memory_stats.h:77-93 | a read keeps every counter within 64 bits |
| MemoryStatistics.SwapUsedAfterRead | src/memory_stats.h:92 | after a read, swap-used is total - free, wrapping around 2^64 when free exceeds total |
| MemoryStatistics.KnownLine | src/memory_stats.h:81-90 | a line whose first token is one of the eleven keys, followed by a number, sets exactly that key's field and reading goes on at the next line |
| MemoryStatistics.OtherLine | src/memory_stats.h:82-90 | a line with any other first token is skipped whole |
| MemoryStatistics.KnownLabelWithoutNumber | src/memory_stats.h:84-90 | a known key not followed by a number fails the stream: nothing after it is applied |
| MemoryStatistics.ReadLines | src/memory_stats.h:77-91 | reading a rendered /proc/meminfo applies its lines in order, each known key setting its field |
| MemoryStatistics.AbsentLabelKeepsValue | src/memory_stats.h:77-91 | a field whose key appears on no line keeps its previous value |
| MemoryStatistics.LastLabelWins | src/memory_stats.h:81-88 | a field ends with the value of the last line carrying its key |
| MemoryStatistics.Leaves | src/memory_stats.h:47-74 | twelve counter leaves in source order, then usable-perc only when total != 0 and swap-free-perc only when swap total != 0 |
| MemoryStatistics.LeafNamesDistinct | src/memory_stats.h:47-73 | the fourteen leaf names are pairwise different |
| MemoryStatistics.PublishedCounters | src/memory_stats.h:47-61 | each counter leaf holds the counter divided by 1024, except the three hugepage counters, which are published as they are |
| MemoryStatistics.PublishedUsablePerc | src/memory_stats.h:63-68 | usable-perc is published, as usable / total, exactly when total != 0 |
| MemoryStatistics.PublishedSwapFreePerc | src/memory_stats.h:69-74 | swap-free-perc is published, as swap free / swap total, exactly when swap total != 0 |
| MemoryStatistics.UsagePercent | src/memory_stats.h:98 | the usage is 100 - usable / total * 100: within [0, 100] when usable <= total, and 100 when nothing is usable |
| MemoryStatistics.UsageComplementsUsablePerc | src/memory_stats.h:95-99 | the usage getUsage returns and the published usable-perc add up to 100 |
| MemoryStatistics.MemoryStats.constructor | src/memory_stats.h:117-120 | all twelve counters start at 0 |
| MemoryStatistics.MemoryStats.Assign | src/memory_stats.h:121-131 | the lambda for a field updates that member in place and no other |
| MemoryStatistics.MemoryStats.ReadMemoryStats | src/memory_stats.h:77-93 | the counters become the read of the file from the old counters |
| MemoryStatistics.MemoryStats.GetUsage | src/memory_stats.h:95-99 | re-reads the counters, then returns the usage of the new ones; needs a non-zero total, since the source divides without a guard |
| CpuStatistics.AccumulateIsWrappedSum | src/cpu_stats.h:100 | `accumulate(..., 0)` in an `int` is the sum of all values wrapped to 32 bits |
| CpuStatistics.TotalIsSum | src/cpu_stats.h:100 | the total is the wrapped sum of every value on the line, including those past the eighth, and the plain sum when it fits in an `int` |
| CpuStatistics.CoreStats.constructor | src/cpu_stats.h:35-37 | a default core has all eight counters 0 and total 1 |
| CpuStatistics.CoreStats.FromLine | src/cpu_stats.h:39-41 | a core built from a line holds that line's values |
| CpuStatistics.CoreStats.PopulateValues | src/cpu_stats.h:90-101 | positions 0-7 go to user, nice, system, idle, iowait, irq, softirq and stolen; the total is the accumulated sum |
| CpuStatistics.CpuStats.constructor | src/cpu_stats.h:117 | a fresh aggregate in its default state and no cores |
| CpuStatistics.CpuStats.ReadCpuTimes | src/cpu_stats.h:136-158 | the first line feeds the aggregate; the lines that follow it and contain "cpu" are appended as cores, in file order, after the cores already held |
| CpuStatistics.CpuStats.ReadCores | src/cpu_stats.h:147-157 | the scan appends one core per following "cpu" line and stops at the first line without it |
| CpuStatistics.ScanStep | src/cpu_stats.h:148-156 | a line containing "cpu" contributes its values as the next core |
| CpuStatistics.ScanEnd | src/cpu_stats.h:148 | the first line without "cpu" ends the scan |
| CpuStatistics.ReadWellFormed | src/cpu_stats.h:136-158 | /proc/stat rendered from an aggregate line, up to 100 core lines and a non-cpu tail reads back as exactly that aggregate and those cores |
| CpuStatistics.AggregateLineValues | src/cpu_stats.h:140-143 | "cpu " followed by the counters yields exactly the counters after `ignore(5, ' ')` |
| CpuStatistics.CoreLineValues | src/cpu_stats.h:149-153 | "cpuK" with K below 100 yields exactly its counters |
| CpuStatistics.WideCoreLineValues | src/cpu_stats.h:150-153 | for a core number of three digits, `ignore(5, ' ')` stops inside the label, so the last digit of the number is read as a first counter |
| CpuStatistics.CpuStats.SetXpathValues | src/cpu_stats.h:128-134 | the output is the aggregate's eight leaves followed by each core's, the cores in order |
| CpuStatistics.CoreLeavesLookup | src/cpu_stats.h:48-88 | each of the eight leaves of a core holds that counter's share of the core's total |
| CpuStatistics.LeafNamesDistinct | src/cpu_stats.h:59-87 | the eight leaf names are pairwise different |
| CpuStatistics.CpuPathsDiffer | src/cpu_stats.h:53-55 | paths of different cores never coincide |
| CpuStatistics.AggregatePublished | src/cpu_stats.h:128-130 | the aggregate is published under cpu-statistics with no core suffix |
| CpuStatistics.CorePublished | src/cpu_stats.h:128-134 | core i is published under `/cpu[id='i']`, i its position among the cores |
| CpuStatistics.CoresLeavesSnoc | src/cpu_stats.h:131-133 | one more core adds its leaves at the end under the next index |
| ProcessStatistics.GetCpuTimes | src/process_stats.h:85-94 | the result is `CpuTimes` of the file |
| ProcessStatistics.CpuTimesOfStat | src/process_stats.h:85-94 | for /proc/stat: None when fewer than 4 numbers follow the label, else their sum wrapped through an `int`, the plain sum when it fits |
| ProcessStatistics.CpuTimesOfValues | src/process_stats.h:91-93 | the result depends only on the numbers read: None below 4, else the wrapped sum |
| ProcessStatistics.GetProcessCpuTimes | src/process_stats.h:96-110 | the result is `ProcessTimes` of the file |
| ProcessStatistics.ProcSkip | src/process_stats.h:98-100 | skipping through the first ')' and twice at most two characters up to a blank lands on the first numeric field |
| ProcessStatistics.ProcValuesOfStat | src/process_stats.h:98-103 | the numbers read from a /proc/<tid>/stat line are its numeric fields after the state, as unsigned 64-bit values |
| ProcessStatistics.ProcessTimesOfStat | src/process_stats.h:104-109 | None with fewer than 12 numeric fields, else the fields at indices 10 and 11 as (utime, stime) |
| ProcessStatistics.CalculateCpuUsage | src/process_stats.h:112-128 | the usage is non-negative, and positive exactly when all four samples are present and both unsigned deltas are non-zero |
| ProcessStatistics.UsageOfForwardCounters | src/process_stats.h:122-127 | with counters that only grow, the usage is 100 * delta proc / delta total, at most 100 when the process used no more than the total |
| ProcessStatistics.UsageStep | src/process_stats.h:130-152 | a usage comes back exactly when both samples exist, and then the tid's cache entry becomes the new sample; the first sample of a tid gives 0; a missing sample throws and leaves the cache alone |
| ProcessStatistics.UsageStepKeepsOthers | src/process_stats.h:130-152 | no other tid's entry changes and no entry is removed |
| ProcessStatistics.TwoCalls | src/process_stats.h:130-152 | the first call for a tid returns 0, and the second returns the usage between the two samples and caches the second |
| ProcessStatistics.ProcessStats.constructor | src/process_stats.h:206 | the cache starts empty |
| ProcessStatistics.ProcessStats.GetCpuUsage | src/process_stats.h:130-152 | the returned usage and the new cache are one `UsageStep` from the old cache |
| ProcessStatistics.ReadAndSetFile | src/process_stats.h:154-172 | the entries published for one file are `FileEntries` of its text |
| ProcessStatistics.KnownCounterLine | src/process_stats.h:162-170 | a line starting with one of the seven keys and a number publishes that key's leaves, then reading goes on at the next line |
| ProcessStatistics.UnknownLine | src/process_stats.h:163-170 | a line with any other key publishes nothing |
| ProcessStatistics.KnownKeyWithoutNumber | src/process_stats.h:165-170 | a known key without a number ends the file: nothing more is published |
| ProcessStatistics.ReadFileLines | src/process_stats.h:159-171 | a rendered io or status file publishes, in line order, the leaves of its known counter lines |
| ProcessStatistics.ByteCountersInKiB | src/process_stats.h:36-68 | read_bytes and write_bytes are published divided by 1024, the other counters as they are |
| ProcessStatistics.ProcessStats.PublishProcess | src/process_stats.h:181-198 | one process publishes memory, io, status, thread-count and cpu leaves, or stops after thread-count when a CPU sample is missing |
| ProcessStatistics.ProcessStep | src/process_stats.h:180-198 | a process completes exactly when both of its CPU samples exist |
| ProcessStatistics.ProcessStats.ReadAndSetAll | src/process_stats.h:174-202 | the output, cache and completion over all processes are `ReadAll` from the old cache |
| ProcessStatistics.ReadAllKeepsCache | src/process_stats.h:174-202 | a pass never drops a cache entry and leaves the entry of every tid it does not visit unchanged |
| ProcessStatistics.ReadAllCompletes | src/process_stats.h:174-202 | when every sample exists the pass completes and caches every visited tid |
| ProcessStatistics.RealMemory | src/process_stats.h:183-184 | memory/real is rss - shared in unsigned arithmetic, the plain difference when shared <= rss |
| ProcessStatistics.ProcessPathInjective | src/process_stats.h:179-181 | different tids get different process paths |
| FilesystemStatistics.Percent | src/filesystem_stats.h:118-127 | 0 when the whole is 0, else part * 100 / whole; within [0, 100] when part <= whole |
| FilesystemStatistics.PublishedLeaf | src/filesystem_stats.h:54-75 | each of the eight statistics leaves of a filesystem holds its field under the mount point's path |
| FilesystemStatistics.StatisticsPathInjective | src/filesystem_stats.h:55-57 | different mount points get different statistics paths |
| FilesystemStatistics.Condition | src/filesystem_stats.h:100 | the loop condition consumes input whenever it lets the body run |
| FilesystemStatistics.MeasureWithoutStatvfs | src/filesystem_stats.h:100-127 | without statvfs the df figures stand, blocksize stays 1, and both percentages are 0 on a zero total |
| FilesystemStatistics.MeasureWithStatvfs | src/filesystem_stats.h:109-117 | statvfs figures replace the df ones: blocksize is f_bsize / 1024 and used = total - available, wrapping in 64 bits |
| FilesystemStatistics.PassOfLines | src/filesystem_stats.h:100-131 | one iteration turns the next df -T line and the next df -i line into one filesystem |
| FilesystemStatistics.RowsOfTables | src/filesystem_stats.h:100-132 | the i-th df -T data line is paired with the i-th df -i data line |
| FilesystemStatistics.ReadTables | src/filesystem_stats.h:88-133 | after one skipped header in each file, a read emplaces the paired rows in order |
| FilesystemStatistics.Paired | src/filesystem_stats.h:100-127 | row i is built from line i of each table |
| FilesystemStatistics.FilesystemStats.constructor | src/filesystem_stats.h:159-160 | the map starts empty |
| FilesystemStatistics.FilesystemStats.ReadFilesystemStats | src/filesystem_stats.h:88-133 | the map becomes `Read` of the old map: unchanged when df fails, else the rows emplaced |
| FilesystemStatistics.FilesystemStats.GetUsage | src/filesystem_stats.h:135-143 | re-reads, then returns the space used recorded for the mount point, None when there is none |
| FilesystemStatistics.EmplaceAllKeeps | src/filesystem_stats.h:128 | an existing mount-point entry is never replaced |
| FilesystemStatistics.EmplaceAllFirst | src/filesystem_stats.h:128 | a new mount point is recorded from its first row |
| FilesystemStatistics.EmplaceAllAbsent | src/filesystem_stats.h:128 | a mount point named by no row stays unrecorded |
| FilesystemStatistics.UsageAfterRead | src/filesystem_stats.h:128-143 | a recorded mount point keeps its old usage; the usage is None exactly when the mount point was never recorded and no row names it |
| FilesystemStatistics.UsageAfterRows | src/filesystem_stats.h:128-142 | the same for any sequence of rows |
| MonitorConfig.Pow10 | src/threshold_manager.h:116-117 | the dec64 scale is a positive power of ten |
| MonitorConfig.MemoryNodesSafe | src/threshold_manager.h:115-117 | when every "value" leaf has a key leaf before it, the walk never dereferences a missing threshold |
| MonitorConfig.MemoryPollKept | src/threshold_manager.h:120-122 | without a poll-interval leaf the poll interval is the one before the reload |
| MonitorConfig.MemoryPollLast | src/threshold_manager.h:120-122 | the poll interval is that of the last poll-interval leaf |
| MonitorConfig.MemoryPoll | src/threshold_manager.h:120-136 | after a reload the poll interval is the last poll-interval leaf's, or the previous interval when there is none |
| MonitorConfig.MemoryKeysFromNodes | src/threshold_manager.h:105-131 | every threshold the walk ends with was already there or is named by a key leaf |
| MonitorConfig.MemoryReplaces | src/threshold_manager.h:98-131 | a reload replaces the memory thresholds: each one it ends with is named by a key leaf of this configuration |
| MonitorConfig.StoreLast | src/threshold_manager.h:105-131 | a repeated threshold name keeps its last value |
| MonitorConfig.StoreAbsent | src/threshold_manager.h:105-131 | a name no entry uses keeps what it had |
| MonitorConfig.MemoryWalkJoin | src/threshold_manager.h:99-129 | walking two node sequences one after the other is walking their concatenation |
| MonitorConfig.MemoryWalkEntry | src/threshold_manager.h:103-118 | a threshold list entry commits the pending threshold, then starts a new one at 0 that its value leaf overwrites |
| MonitorConfig.MemoryWalkEntries | src/threshold_manager.h:103-132 | the threshold entries, with the final commit, store each entry's value, a later entry of the same name winning, and leave the poll interval alone |
| MonitorConfig.MemoryConfigOfEntries | src/threshold_manager.h:94-133 | the memory configuration of a poll interval and threshold entries loads exactly `Store(map[], entries)` and that interval, or the previous interval when none is given |
| MonitorConfig.FsStepKeeps | src/threshold_manager.h:230-246 | one node keeps the invariant: no collected thresholds without a pending one, and every stored mount point has thresholds |
| MonitorConfig.FsWalkKeeps | src/threshold_manager.h:217-257 | the whole walk keeps that invariant |
| MonitorConfig.FsEndFlushed | src/threshold_manager.h:258-261 | the final commit stores the current mount point exactly when it has collected a threshold |
| MonitorConfig.FsGroupsNonEmpty | src/threshold_manager.h:234-261 | every mount point in the filesystem table has a non-empty threshold map |
| MonitorConfig.FsPollKept | src/threshold_manager.h:248-250 | without a poll-interval leaf the poll value is unchanged, including across mount-point keys |
| MonitorConfig.FsPollLast | src/threshold_manager.h:215-250 | the poll value is that of the last poll-interval leaf |
| MonitorConfig.FsStepKeys | src/threshold_manager.h:230-239 | one node only brings in the mount point a mount-point key names |
| MonitorConfig.FsWalkKeys | src/threshold_manager.h:230-239 | every mount point the walk knows was known before or is named by a mount-point key |
| MonitorConfig.FsReplaces | src/threshold_manager.h:214-260 | a reload replaces the filesystem table: each mount point in it is named by a mount-point key, or is the initial empty name |
| MonitorConfig.FsWalkJoin | src/threshold_manager.h:217-257 | walking two node sequences one after the other is walking their concatenation |
| MonitorConfig.FsWalkEntry | src/threshold_manager.h:221-246 | a threshold list entry commits the pending threshold, then starts a new one at 0 that its value leaf overwrites |
| MonitorConfig.FsWalkEntries | src/threshold_manager.h:221-246 | a mount point's threshold entries collect each entry's value, a later one of the same name winning |
| MonitorConfig.StoreEmpty | src/threshold_manager.h:234 | a group's threshold map is empty exactly when it has no threshold entries |
| MonitorConfig.FsWalkGroup | src/threshold_manager.h:230-250 | a filesystem list entry stores the previous mount point if it had thresholds, then collects its own thresholds under its own or the inherited poll |
| MonitorConfig.FsWalkGroups | src/threshold_manager.h:217-261 | walking the filesystem list entries ends in `FsReference`: each mount point with thresholds, under the poll value in force |
| MonitorConfig.FsConfigOfEntries | src/threshold_manager.h:207-262 | a reload of a filesystems configuration, from the cleared table and poll 0, loads exactly `FsReference(map[], 0, entries)` |
| ThresholdManager.Join | src/threshold_manager.h:155-171 | joining leaves a handle with the same id that is no longer joinable |
| ThresholdManager.Tick | src/threshold_manager.h:87-90 | one poll logs exactly one line per configured threshold, in iteration order, each with the sampled usage |
| ThresholdManager.MemoryPolls | src/threshold_manager.h:85 | the memory loop polls once per timeout before the first wake |
| ThresholdManager.FsPolls | src/threshold_manager.h:192-198 | the filesystem loop polls once per timeout before the first wake or missing sample |
| ThresholdManager.MemoryLogLength | src/threshold_manager.h:85-91 | the memory log has one line per threshold per poll |
| ThresholdManager.MemoryLogLine | src/threshold_manager.h:85-91 | line j of poll k names the j-th threshold and carries the k-th sample |
| ThresholdManager.MemoryLogStops | src/threshold_manager.h:85 | nothing is logged after the first wake |
| ThresholdManager.FsLogLength | src/threshold_manager.h:192-203 | the filesystem log has one line per threshold per poll |
| ThresholdManager.FsLogLine | src/threshold_manager.h:192-203 | line j of poll k names the j-th threshold and carries the k-th sample |
| ThresholdManager.FsLogStops | src/threshold_manager.h:192-198 | nothing is logged after the first wake or the first missing usage sample |
| ThresholdManager.LogPoll | src/threshold_manager.h:87-90 | the loop over the thresholds logs `Tick` |
| ThresholdManager.MemoryMonitoring.constructor | src/threshold_manager.h:136-139 | poll interval 1, no thresholds, no running thread |
| ThresholdManager.MemoryMonitoring.PopulateConfigData | src/threshold_manager.h:94-133 | the thresholds and the poll interval become the walk of the nodes from a cleared map and the old interval; the thread is untouched |
| ThresholdManager.MemoryMonitoring.NotifyAndJoin | src/threshold_manager.h:69-74 | a joinable thread is joined, and the handle ends not joinable |
| ThresholdManager.MemoryMonitoring.StartThread | src/threshold_manager.h:76-81 | any running thread is joined first; the handle then holds a new joinable thread |
| ThresholdManager.MemoryMonitoring.RunFunc | src/threshold_manager.h:83-92 | the log is `MemoryLog` of the trace, and each line names a configured threshold |
| ThresholdManager.TableValidJoined | src/threshold_manager.h:157-169 | joining every handle keeps the thread table consistent |
| ThresholdManager.TableValidStarted | src/threshold_manager.h:180-184 | storing a newly started thread, with the next id, under a mount point keeps the thread table consistent |
| ThresholdManager.JoinStep | src/threshold_manager.h:157-161 | one more joined handle in the loop over the table |
| ThresholdManager.StartStateStep | src/threshold_manager.h:174-185 | one more configured mount point started keeps the loop invariant of startThreads |
| ThresholdManager.StartStateDone | src/threshold_manager.h:173-186 | at the end of startThreads the table is the old one with every configured mount point restarted |
| ThresholdManager.FilesystemMonitoring.constructor | src/threshold_manager.h:274-276 | no thresholds and no threads |
| ThresholdManager.FilesystemMonitoring.PopulateConfigData | src/threshold_manager.h:207-262 | the table becomes `FsConfig` of the nodes, from a cleared table and poll 0; the threads are untouched |
| ThresholdManager.FilesystemMonitoring.JoinOne | src/threshold_manager.h:158-160 | one handle is joined if joinable, and nothing else changes |
| ThresholdManager.FilesystemMonitoring.JoinAll | src/threshold_manager.h:157-169 | every handle ends not joinable with its id, and every joinable one is joined |
| ThresholdManager.FilesystemMonitoring.NotifyAndJoin | src/threshold_manager.h:155-162 | the same mount points keep handles, none joinable, and every running thread was joined |
| ThresholdManager.FilesystemMonitoring.StopThreads | src/threshold_manager.h:164-171 | every running thread is joined and the table is emptied |
| ThresholdManager.FilesystemMonitoring.StartOne | src/threshold_manager.h:177-184 | one mount point's running thread is joined, then replaced by a fresh joinable one; the handle replaced is asserted not joinable, as std::thread requires |
| ThresholdManager.FilesystemMonitoring.StartThreads | src/threshold_manager.h:173-186 | each configured mount point ends with exactly one fresh joinable thread, its old running one joined; unconfigured mount points keep their handles |
| ThresholdManager.FilesystemMonitoring.RunFunc | src/threshold_manager.h:188-205 | nothing is logged for an unconfigured mount point; otherwise the log is `FsLog` of the trace, each line naming one of its thresholds |

## Left out

- Threads, the condition variable, mutexes and `notify_all` are not modelled as concurrency. A handle is an id with a `joinable` flag, and the outcome of every wait is an input.
- Wait durations are not modelled. The poll interval is stored, but the model does not use it to time anything.
- The reload that runs while monitor threads read the thresholds without a lock is not modelled.
- File, `statvfs`, `prlimit`, `system("/bin/df ...")`, `openproc`/`readproc` and clock access are not modelled. Their results are parameters: file texts, a statvfs map, the `limit` of a process, an optional df output.
- A file that cannot be opened reads like an empty one.
- `setXpath` and the libyang data tree are left out. Published leaves are `(path, value)` entries in output order, and the error path of `setXpath` (a logged warning) is not modelled.
- `get_data`, `tree_for` and `tree_dfs` are not modelled. The configuration tree is the sequence of nodes the two loops visit, in depth-first order.
- Floating point is not modelled. Percentages are real numbers or exact `Share(part, whole)` values, the two-decimal formatting is not modelled, and a dec64 is the exact quotient of its integer by a power of ten.
- Logging is left out. A monitor loop's log is a `LogLine(threshold, usage)` per message, not the message text. `printValues` and `printFsConfig` are also left out.
- The `getInstance` singletons are not modelled. Each statistics reader and monitor is an ordinary object.
- The iteration order of an `unordered_map` is the `order` parameter, any sequence that enumerates the keys. `FilesystemStats::setXpathValues` (src/filesystem_stats.h:152-156) is modelled per filesystem only.
- ThresholdManager.MemoryMonitoring.RunFunc: the usage of each poll comes from the trace, not from a call of `MemoryStats::getUsage`.
- ThresholdManager.FilesystemMonitoring.RunFunc: the usage of each poll comes from the trace, not from a call of `FilesystemStats::getUsage`.
- ThresholdManager.MemoryMonitoring.PopulateConfigData requires every "value" leaf to come after some key leaf and every poll-interval leaf to hold a 32-bit unsigned value. The source dereferences a null pointer otherwise, and the schema guarantees the types.
- ThresholdManager.FilesystemMonitoring.PopulateConfigData requires that the walk never reaches a "value" leaf with no threshold pending, for the same reason. This is stated as the walk's own safety predicate.
- MonitorConfig.FsReplaces: the empty mount-point name is allowed as well, since thresholds that come before any mount-point key are stored under the initial empty name.
- The signs that `>>` into an unsigned number accepts are modelled as `strtoull` does: '-' negates modulo 2^64 and '+' is skipped. Signs inside the process stat fields are covered by `NumbersOfJoinSigned`. Command names containing ')' are excluded from `ProcValuesOfStat`, since the skip stops at the first ')'.
- FilesystemStatistics.MeasureWithoutStatvfs: when df -i has fewer lines than df -T, `inodesTotal` and `inodesUsed` are read uninitialised in the source. The model reads them as 0.
- CpuStatistics.CpuStats.ReadCpuTimes takes /proc/stat as lines of a text that ends with a newline, as the kernel writes it. When the last line contains "cpu" and has no newline, the source's `std::getline` fails without clearing the line, and the scan at src/cpu_stats.h:148-157 appends cores forever. That endless loop is not modelled.
- CpuStatistics.ReadWellFormed covers up to 100 cores. For three-digit core numbers, `WideCoreLineValues` states the shifted values instead.
- CpuStatistics.TotalIsSum states the total through a 32-bit `int` accumulator converted back to 64 bits. Platforms whose `int` is not 32 bits are not modelled.
- ProcessStatistics.ReadAndSetFile: in the source the key lookup is undefined behaviour. `getAssignMap()` returns the map by value, so at src/process_stats.h:161 the `find` and `end` iterators come from two different temporaries, and at src/process_stats.h:164 `itr->second` is called through an iterator into a destroyed temporary. The model takes the intended reading: the lambda stored under the token's key runs.
- CpuStatistics.CoreStats.PopulateValues requires at least 8 values, and CpuStatistics.CpuStats.ReadCpuTimes requires the same of every line it reads (`StatReadable`). The source indexes positions 0 to 7 with `operator[]` at src/cpu_stats.h:91-98 without a check, and that is undefined behaviour on a shorter line, so the model does not cover such lines.
- Where the description of the plugin differs from the code, the model follows the code:
  - the monitor loops only log, and no threshold is compared with the usage or notified;
  - there is no 60-second default: the filesystem poll value starts at 0 and carries over to the next mount point, and the memory poll interval starts at 1 and survives reloads;
  - `startThreads` leaves the threads of mount points no longer configured in the table;
  - a reload has no error result: it clears the old table first and fills it while walking.
