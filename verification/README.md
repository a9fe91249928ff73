# Verification model of the mmap metric store

This project models the append-only, memory-mapped metric files of prometheus-client-php-mmap and the
programs that work on them: the store that writes a file, the exporter and the aggregator that read a
directory of files, the collector that removes the files of dead processes, the text that is printed,
and the histogram of the example library. It proves what they keep, separately and together.

How the model is built:

- Bytes are `seq<byte>` or an `array<byte>` for the mapped file of a store. A stored value is 8 opaque
  bytes (`Bits`); only merging looks at numbers, through a parameter `val: Bits -> real`.
- Objects that the source updates in place are classes: `MmapMetricStore`, `CachedFile`,
  `CachedDirExporter`, `MetricDir`. Their methods are proved against functions on values, and the laws
  are proved about those functions.
- The published log of a file (the sequence of its entries) is a ghost. `WellFormed(bytes, log)` says
  that the bytes are exactly the header and the encoding of that log, followed by anything.
- Concurrency is a state machine of atomic steps (`WriterProtocol`, `ConcurrentScrape`). A 4-byte header
  access and an aligned 8-byte value access are single steps; an entry is saved in pieces of any size;
  steps are sequentially consistent, as README.md:18-25 of the repository assumes.
- The operating system is a set of parameters: which calls fail, which processes live, which files are
  old enough, for how many turns time suffices, in which order a hash map is iterated.

Files, bottom up: `bytes`, `seq_facts`, `utf8`, `raw_entry` (the codec), `log`, `scan`, `contents` (a log
as bytes, as a parse, as a map), `growth`, `mmap_file` (the store), `store_runs`, `writer`,
`writer_opening`, `reader` (the protocol), `merge`, `aggregate`, `file_name`, `process_name`, `scrape`,
`reader_scrape`, `exporter`, `agreement`, `file_order` (the readers), `conservation`, `gc`, `gc_progress`,
`gc_starvation` (the collector), `ordering`, `labels`, `series`, `render`, `page_reading`, `pages`,
`histogram`, `histogram_merge`.

Properties that turned out not to hold as stated, each with a failing case and the exact condition under
which it does hold:

- The merged map is independent of the order of the files exactly if all published samples commute
  pairwise (`FileOrder.FileOrderIff`). A worker that stores one name as a `min` and as a `max` gauge breaks
  it (`FileOrder.OrderMatters`).
- Label text does not depend on the order of labels exactly if no name has two values
  (`Labels.CanonicalIff`).
- Two keys print one series exactly if sample and labels, with the pid behind the sorted labels, are the
  same (`Series.SameSeries`). Keys are told apart as long as none without a pid has sorted labels that end
  in one called "pid" (`Series.SeriesDistinct`), and each such key does share its series with another one
  (`Series.MistakableIff`; `Series.PidLabelCollides` is an instance).
- A pid can be worked into a label text exactly if the text has no comma in front of its closing brace,
  which the exposition format allows (`Series.PidInAnyText`); `{a="b",}` is such a text
  (`Series.TrailingCommaHere`).
- The pid read from the name of a gauge file is the worker that writes it exactly if no part of the worker's
  name in front of an underscore ends in a dash and digits (`FileName.WorkerReadsBackIff`). A worker shares
  its pid with some other name exactly if its own has an underscore (`FileName.SharesPidIff`); "a-1_b" and
  "a-2_b" do (`FileName.TwoWorkersOnePid`), against which `Agreement.KeysCommute` has a hypothesis.
- The two readers part exactly on files whose scan meets bytes that are not UTF-8, whatever part of the
  file is cached (`Agreement.ReadersPart`); `Agreement.ReadersPartHere` is such a file of 32 bytes.
- Repeated passes collect everything that is due, whatever number of files each looks at, exactly if the
  cursor file can hold every name in front of a file that is due: a text without white space at its ends
  (`CollectorStarvation.CollectedIff`). A name that begins with a blank starves the files behind it
  (`CollectorStarvation.BlankNameStarves`), and so does one that is not UTF-8
  (`CollectorStarvation.RawNameStarves`). The law starts from a cursor that points to the front and asks
  that no name, with its white space trimmed, is another listed one.
- No histogram bucket exceeds the count exactly if all bounds print differently, also from "+Inf"
  (`HistogramMetric.FormatTellsIff`; `HistogramMetric.SameTextCountsTwice` is the failing case).
- `+Inf` equals the count exactly if no observation was cut off in between
  (`HistogramMerge.MergedAtEveryMoment`; `HistogramMetric.InfLags` is one that was). At an arbitrary moment
  a bucket is at most a later one exactly if no more observations were cut off between the two than lie
  between the bounds and reached the later one
  (`HistogramMerge.MergedCumulativeIff`; `HistogramMetric.NotYetCumulative` is a moment at which it is not).

## Model

| member | source | states |
|---|---|---|
| RawEntries.FromSlice | src/raw_entry.rs:15-47 | an accepted entry has all fields, padding and value inside the slice, so no accessor can fail |
| RawEntries.FromSliceMeaning | src/raw_entry.rs:15-178 | for arbitrary bytes: acceptance means three length words, fields, padding to 8 and a value within the slice; the accessors return those parts and `value()` reads at `calc_value_offset` |
| RawEntries.RoundTrip | src/raw_entry.rs:15-85 | decoding an encoded entry with any bytes behind it returns the same fields and value |
| RawEntries.Reencode | src/raw_entry.rs:15-120 | conversely, encoding the fields and value of an accepted entry gives back its bytes, except for the padding, which decoding ignores |
| RawEntries.FromSliceMonotone | src/raw_entry.rs:15-47 | whether and how an entry decodes depends only on its length words and text once it fits, so more bytes behind it change nothing |
| RawEntries.Save | src/raw_entry.rs:49-85 | `save` fails exactly if a field is too long or the room too small; otherwise it writes the encoding into its own `total_len` bytes and nothing else, and returns the value offset |
| RawEntries.EntryHere | src/raw_entry.rs:49-85 | the bytes of one small entry, literally |
| Utf8Text.EncodingHere | src/mmap_file.rs:155-159 | the bytes of one character of each length, literally |
| Utf8Text.FromUtf8Encode | src/mmap_file.rs:155-159 | text written as UTF-8 is read back, so keys survive the file |
| MetricLog.EndAligned | src/raw_entry.rs:148-154 | the end of every log, hence `used`, is a multiple of 8 |
| MetricLog.ValueAtBounds | src/raw_entry.rs:133-154 | every value is 8-aligned with its bytes between the header and `used` |
| MetricLog.PublishUsed | src/mmap_file.rs:195-197 | with the entry bytes behind the log in place, writing the `used` word alone extends the published log by exactly that record |
| MetricLog.WriteBehind | src/mmap_file.rs:186-192 | bytes written behind the end do not touch the published log |
| MetricLog.GrowKeepsFormat | src/mmap_file.rs:201-217 | a grown file holds the same log |
| MetricLog.OverwriteKeepsFormat | src/mmap_file.rs:232-241 | writing 8 bytes at a value's place changes that record's value and no other record |
| LogScan.ScanTurn | src/mmap_file.rs:145-162 | one turn of a parse loop: what it yields, where it goes on, why it stops |
| LogScan.ItemsInBounds | src/exporter.rs:227-252 | over arbitrary bytes every value offset found lies behind its length words and its 8 bytes in front of the stopping point |
| LogScan.ResumeScan | src/exporter.rs:221-253 | incremental parse law: parsing to `u` and resuming where it stopped, up to a later boundary, equals one parse of the new bytes, if the key bytes already parsed are unchanged, even after an incomplete entry |
| LogScan.ScanRests | src/exporter.rs:227-252 | nothing more is found at a stopping point |
| LogScan.ScanWellFormed | src/mmap_file.rs:141-164 | a parse of a published file from any entry boundary finds exactly the rest of the log and ends exactly at `used` |
| LogScan.LogUnique | src/mmap_file.rs:141-164 | bytes determine the log: two logs cannot have the same image |
| LogScan.CachedValue | src/exporter.rs:97-115 | an entry remembered from an earlier parse still names the key, place and current value of its record |
| LogContents.ContentsKeys | src/mmap_file.rs:160-160 | index and abstract map have exactly the keys of the log |
| LogContents.ContentsAt | src/mmap_file.rs:38-46 | each key leads to its own value, in the map and through the index |
| LogContents.ContentsOverwrite | src/mmap_file.rs:171-176 | overwriting a record is one map update |
| LogContents.IndexAppend | src/mmap_file.rs:193-197 | appending a record adds one index entry, at the offset `upsert` computes |
| Growth.PageAligned | src/mmap_file.rs:279-287 | the least multiple of the page size that is not smaller, or an overflow |
| Growth.DoubledBounds | src/mmap_file.rs:207-211 | doubling ends at no less than `needed` and, when it grows, below `2 * needed` |
| Growth.DoubledExactly | src/mmap_file.rs:207-211 | the doubled length is the length times a power of two, and no smaller one reaches what is needed |
| Growth.FewestIsOne | src/mmap_file.rs:207-211 | there is one such power, so that fixes the length |
| Growth.GrowthOverRuns | src/mmap_file.rs:201-217 | `r` growths in a run multiply the length at least by `2^r`; after one, the length is below `2 * used` plus a page |
| MmapFile.MmapMetricStore.WriteUsedHeader | src/mmap_file.rs:264-268 | writes the word, or fails without a trace if it needs more than 32 bits |
| MmapFile.MmapMetricStore.InitializeEmptyFile | src/mmap_file.rs:243-248 | leaves the image of an empty log |
| MmapFile.PreparedMeaning | src/mmap_file.rs:117-139 | what opening does to any bytes: too short a file is extended to a page, a `used` word of zero is set, another version is emptied, and everything else stays |
| MmapFile.MmapMetricStore.Open | src/mmap_file.rs:22-33 | when opening succeeds, for arbitrary files, and the bytes it leaves also when it fails; a file of this version whose `used` lies behind its end fails and keeps its bytes; the index is that of a scan; a published image is opened with exactly its log |
| MmapFile.MmapMetricStore.RebuildIndex | src/mmap_file.rs:141-164 | the index is the one obtained by scanning from the header to `used`; it fails exactly where the scan meets a bad entry |
| MmapFile.MmapMetricStore.Get | src/mmap_file.rs:35-48 | the value of the key, or zero; the out-of-bounds error cannot occur |
| MmapFile.MmapMetricStore.EnsureCapacity | src/mmap_file.rs:201-217 | grows by the fewest doublings that reach `needed`, then to the page, keeps all bytes and adds zeros; it fails exactly if a system call fails or a length overflows, and then changes nothing |
| MmapFile.MmapMetricStore.Overwrite | src/mmap_file.rs:171-176 | updates one record in place |
| MmapFile.MmapMetricStore.Append | src/mmap_file.rs:178-198 | adds one record, or fails (no room, `used` past 32 bits, a failed system call) and leaves the log as it was |
| MmapFile.MmapMetricStore.Upsert | src/mmap_file.rs:166-199 | when it succeeds; on success one map update with the value computed from the old one or zero, and one publication of the growth law; on failure the abstract map and `used` are unchanged |
| MmapFile.MmapMetricStore.Set | src/mmap_file.rs:76-78 | stores the value under the key |
| MmapFile.MmapMetricStore.Increment | src/mmap_file.rs:58-60 | adds to the old value or zero |
| MmapFile.LookupValue | src/mmap_file.rs:38-45 | every index entry is 8-aligned, inside the file and in front of `used` |
| StoreRuns.Run | src/mmap_file.rs:35-78 | store refinement: for every sequence of get, set, increment and reopen the store answers as a map with default zero; known keys can always be updated, and new ones exactly if their entry fits 32 bits and there is room or the file can grow; with the size of the file at every moment |
| StoreRuns.SizesMonotone | src/mmap_file.rs:178-217 | over any run, also with failures, `used` stays a multiple of 8 inside the file and never decreases, and the file never shrinks |
| StoreRuns.RunGrowth | src/mmap_file.rs:201-217 | a run without failures obeys the growth law: `2^r` times the first length after `r` growths, below twice `used` plus a page |
| WriterProtocol.InvStep | src/mmap_file.rs:117-217 | every atomic step of creating, initialising, growing, piecewise saving, publishing, updating, and a crash at any point keep the file consistent |
| WriterProtocol.StepMonotone | src/mmap_file.rs:178-217 | no step shortens the file or changes a published key |
| WriterProtocol.PublishedKeyBytesStay | src/mmap_file.rs:166-199 | whatever the writer does, each published entry keeps its place and its key bytes |
| WriterProtocol.ResumeAllowed | src/exporter.rs:222-227 | so the writer always meets the condition of the incremental parse law |
| WriterProtocol.ReopenImage | src/mmap_file.rs:117-139 | opening after a crash at any step finds, or creates, the image of the published log |
| WriterProtocol.Recover | src/mmap_file.rs:22-33 | `open` after a crash at any step succeeds with exactly the published entries and their last values |
| WriterOpening.HoweverOpened | src/mmap_file.rs:117-139 | however the steps of opening are cut, they leave the bytes that the store's `open` leaves and publish nothing |
| WriterOpening.OpeningEnds | src/mmap_file.rs:22-33 | and whatever a crash has left, such a run to an open store exists |
| WriterOpening.IdleCanStep | src/mmap_file.rs:166-199 | an open store can update every record, which changes bytes and log as the store's method does, and begin any new key for which the file can grow |
| WriterOpening.SavingProceeds | src/mmap_file.rs:178-198 | an entry that was begun can be saved and published, unless `used` would not fit its word |
| WriterOpening.CrashAnywhere | src/mmap_file.rs:166-199 | a crash can come at every moment and leaves bytes and log |
| WriterProtocol.OpenProceeds | src/mmap_file.rs:117-164 | the steps of opening never get stuck |
| WriterProtocol.RunKeepsInv | src/mmap_file.rs:117-217 | the invariant holds at every moment of every life of a file |
| WriterProtocol.RunMonotone | src/mmap_file.rs:178-217 | over whole lives, with crashes and reopenings, published keys and the file length only grow |
| WriterProtocol.NothingPublishedIsLost | src/mmap_file.rs:178-199 | whatever was published at any moment is in the contents recovered at any later moment |
| WriterProtocol.BeginImage | src/mmap_file.rs:178-181 | making room is the first step of saving an entry |
| WriterProtocol.PieceImage | src/mmap_file.rs:186-192 | pieces of an entry, of any size, join to the encoded entry |
| WriterProtocol.PublishImage | src/mmap_file.rs:195-198 | from a completely saved entry, publishing leaves the bytes that the store's method leaves |
| WriterProtocol.HoweverCut | src/mmap_file.rs:178-198 | however an entry is cut into pieces, making room, saving the pieces and publishing leaves the bytes that the store's method leaves |
| ConcurrentScrape.WriterKeepsInv | src/mmap_file.rs:166-248 | any writer step in the middle of a scrape keeps what the reader relies on |
| ConcurrentScrape.ReaderKeepsInv | src/exporter.rs:190-284 | so does every step of the reader |
| ConcurrentScrape.ReachableInv | src/exporter.rs:75-129 | hence every interleaving of one writer with any number of scrapes does |
| ConcurrentScrape.ScrapeOutcomes | src/exporter.rs:75-129 | for every interleaving a scrape contributes a prefix of the published keys that covers all published when it began, each value current at some moment of it; or the file was unpublished; or the error is the growth race, `used` behind the end of the mapping |
| ConcurrentScrape.OnlyPublishedBytesAreDecoded | src/exporter.rs:227-252 | no unpublished byte is ever decoded, and no decode fails |
| ConcurrentScrape.OnlyWholeValuesAreRead | src/exporter.rs:97-115 | each value read is an aligned whole value of the published log |
| Merge.OrderIndependent | src/aggregate.rs:214-240 | commuting samples give the same merged map in every order |
| FileOrder.FileOrderIff | src/aggregate.rs:166-224 | the merged map is the same for every order of the files if and only if all published samples commute |
| FileOrder.OrderMatters | src/exporter.rs:75-129 | a directory of two files, of `min` and of `max` gauges with one key, for which the two orders report different values |
| Merge.FirstFixesMeta | src/aggregate.rs:214-217 | the first sample of a key fixes its reported type and mode |
| Merge.MergedMeaning | src/aggregate.rs:229-250 | if samples commute, the merged map has exactly the sampled keys and each value is the sum, the minimum, the maximum or the one value, by type and mode |
| Aggregate.MergeFile | src/aggregate.rs:164-224 | merging one file adds the samples that its bytes hold, or fails on a bad `used` word |
| Aggregate.AggregateFiles | src/aggregate.rs:164-227 | the aggregator merges all files in order, and fails if one cannot be read |
| Aggregate.WellFormedSamples | src/aggregate.rs:172-223 | from a published file the aggregator takes exactly the log |
| FileName.StripFileSuffixNumber | src/exporter.rs:382-393 | the loop computes the specification |
| FileName.StrippedMeaning | src/aggregate.rs:151-162 | dropping is exact, both ways: a final dash with one or more digits goes, and nothing else ever does |
| FileName.TypeByName | src/aggregate.rs:109-149 | for any name with an underscore: the literal type in front gives counter, histogram and summary files without a pid, and other types are errors |
| FileName.GaugeByName | src/aggregate.rs:135-149 | for any gauge name: each literal mode gives that mode and the pid behind it, every other mode is an error |
| FileName.ShortNames | src/aggregate.rs:116-139 | names of fewer parts: a type alone will do, except for a gauge |
| ProcessName.NumberMeaning | src/gc.rs:158-158 | digits have the value n exactly if they are zeros and then n in decimal |
| ProcessName.ProcessMeaning | src/gc.rs:132-159 | for any name: the collector takes it for process n exactly if it is a type (and for a gauge a mode), the number n in decimal and perhaps a suffix, with n positive and below 2^31 |
| ProcessName.ProcessOfName | src/gc.rs:132-159 | so a process number printed into a file name of any type is the process that is probed |
| FileName.GaugeNameMeaning | src/aggregate.rs:109-149 | what the readers and the collector take from the name the registry gives a gauge file, for every mode and any worker: its mode, the worker with the numbers dropped in front of each underscore, and the process if the worker is a process number |
| FileName.PlainNameMeaning | src/gc.rs:132-159 | the same for counter and histogram files, which carry no pid |
| FileName.WorkerReadsBackIff | examples/lib.php:44-47 | the pid read back is the worker exactly if no part of its name but the last ends in a dash and digits |
| FileName.SharesPidIff | src/aggregate.rs:135-149 | some other worker has the same pid exactly if there is an underscore in the name |
| FileName.TwoWorkersOnePid | src/aggregate.rs:151-162 | two worker names with one pid |
| FileName.GaugeNameRoundTrip | examples/lib.php:63-84 | workers named by their process number read back as such, for the readers and for the collector |
| Scrape.OutcomeCases | src/exporter.rs:203-284 | each file is exactly one of contributing, inactive and errored; errored exactly if it cannot be opened, or is readable and has a bad `used` word or, from where the parse resumes, bytes that are not text; an errored file keeps no cache entry |
| QuietScrape.StepKeepsOutlook | src/exporter.rs:190-284 | on bytes that stay as they are no step of a reader changes how its scrape will end |
| QuietScrape.Rested | src/exporter.rs:75-129 | and such a scrape always ends |
| QuietScrape.AloneIsScrapeFile | src/exporter.rs:75-129 | with the outcome and the cache entry that the whole scrape of a file has in the directory model, for every cached state and arbitrary bytes |
| QuietScrape.UndisturbedRun | src/exporter.rs:75-129 | so does, in every reachable interleaving, each scrape during which the writer makes no step |
| QuietScrape.AnyoneCanStep | src/exporter.rs:75-129 | no interleaving leaves the reader stuck, and every step of the writer can come next |
| Scrape.DiscoveredExactly | src/exporter.rs:294-331 | discovery finds exactly the regular files whose names end in ".db" and can be understood, and counts exactly the unreadable entries, the ".db" names of unknown type and the regular ".db" files whose names cannot be understood |
| Scrape.DiscoveredDistinct | src/exporter.rs:294-331 | discovered files are distinct |
| Scrape.ScrapeEnds | src/exporter.rs:75-133 | dropping the failed files completes the scrape, and each errored file has been counted once |
| Exporter.CachedFile.RefreshEntries | src/exporter.rs:203-254 | the whole new state, and when it fails |
| Exporter.CachedFile.ParseFrom | src/exporter.rs:227-252 | the parse loop appends what a scan from the stopping point finds |
| Exporter.CachedFile.MergeValues | src/exporter.rs:97-129 | merges every visible entry; its two error exits are unreachable |
| Exporter.CachedDirExporter.UpdateEntry | src/exporter.rs:143-163 | one file updated, reopened, opened or dropped, others untouched |
| Exporter.CachedDirExporter.Refresh | src/exporter.rs:136-168 | the cache after `refresh`, and its error count |
| Exporter.CachedDirExporter.VisitFile | src/exporter.rs:75-129 | one turn of the file loop: what is merged and what is left of the entry |
| Exporter.CachedDirExporter.Render | src/exporter.rs:70-134 | a whole scrape, whatever was cached and in whatever order: it visits every metric file of the listing that is not an error and no other file; merged map, new cache, and an error total of the failures of the listing plus each errored file once |
| Agreement.RefreshIsExact | src/exporter.rs:203-254 | refreshing a stored file never fails and brings the cache exactly up to date from any prefix |
| Agreement.HappenKeepsInv | src/exporter.rs:136-254 | creating, replacing, renaming, deleting and writing files and looking at one file at any moment keep every cache entry a prefix of what was published in its file |
| Agreement.HistoryKeepsInv | src/exporter.rs:70-254 | so it holds at every moment of every history of a directory |
| Agreement.ExporterSeesLog | src/exporter.rs:97-129 | whatever is cached, a scrape takes from a file exactly what has been published in it |
| Agreement.AggregatorSeesLog | src/aggregate.rs:166-223 | so does the aggregator |
| Agreement.PublishedPermuted | src/aggregate.rs:105-105 | visiting files in another order permutes the samples |
| Agreement.BothReaders | src/exporter.rs:70-134 | cache agreement: after any history the exporter and the aggregator arrive at the same merged map, and the exporter reports no error |
| Agreement.ScrapeOnce | src/exporter.rs:70-134 | a scrape by the exporter object is an event of the directory's history, so the laws hold for histories driven by the object |
| Agreement.KeysCommute | src/aggregate.rs:204-217 | one type and mode per key, and one file per key and pid for `all` and `liveall`, make all samples commute |
| Agreement.ReadersPart | src/aggregate.rs:192-203 | on arbitrary bytes, with nothing or any part of the file cached, the readers part exactly where a scan meets bytes that are not text |
| Agreement.EarlierParse | src/exporter.rs:222-252 | what an earlier scrape left of a file is such a part, if its key bytes are unchanged |
| Agreement.ReadersPartHere | src/exporter.rs:233-237 | a file of 32 bytes on which they part |
| Conservation.StoreKeys | src/mmap_file.rs:166-199 | a store has exactly the keys that were incremented |
| Conservation.StoreConserves | src/mmap_file.rs:58-60 | a store holds under a key the sum of its successful increments |
| Conservation.FileConserves | src/aggregate.rs:186-223 | a file contributes that value once |
| Conservation.Conserved | src/aggregate.rs:229-240 | end to end: a merged value is the sum of all successful increments of all workers, and a key appears exactly if it was incremented |
| Conservation.RunWorker | src/mmap_file.rs:22-60 | any increments and restarts on a new file make a worker to which the law applies |
| Collector.SpacesAre | src/gc.rs:46-49 | what `trim` takes off, character by character |
| Collector.CursorReads | src/gc.rs:46-57 | a name is read back from the cursor file exactly if it has no white space at its ends |
| Collector.GoesMeaning | src/gc.rs:81-104 | a file is due exactly if it is named after a process that does not live, is old enough and can be removed |
| Collector.DbNames | src/gc.rs:29-36 | metric files are named by a final ".db" with something in front, as text and as bytes |
| Collector.MetricDir.List | src/gc.rs:29-44 | the sorted metric files, or an error if a file type cannot be told |
| Collector.MetricDir.Scan | src/gc.rs:59-110 | the loop: what is removed, what is remembered, and why it ended |
| Collector.MetricDir.Collect | src/gc.rs:9-117 | one pass: only regular files of dead processes go, and none is left once the pass has looked at every file; everything else stays, the result counts them, the cursor names the last file looked at |
| CollectorProgress.SteadyStays | src/gc.rs:46-114 | no pass moves the cursor past a file that is due, as long as the cursor can hold the names in front of it |
| CollectorProgress.PassProgress | src/gc.rs:46-114 | then, while something is due, every pass lowers the measure (files due, distance from the cursor) |
| CollectorProgress.EventuallyCollected | src/gc.rs:46-114 | and with `d` files due among `n` and `m` looked at per pass, after `d * ceil(n / m)` passes exactly those are gone |
| CollectorProgress.OnePass | src/gc.rs:9-117 | a call of the collector is one pass of that law |
| CollectorProgress.CollectAll | src/gc.rs:9-117 | so calling it that often removes exactly the regular files of dead processes, and leaves every other entry as it was |
| CollectorStarvation.StarvingRun | src/gc.rs:71-77 | where a file that is due waits behind a name the cursor cannot hold, there are runs of any length that leave it |
| CollectorStarvation.CollectedIff | src/gc.rs:46-114 | the exact condition: everything due is always collected if and only if the cursor can hold every name in front of a file that is due |
| CollectorStarvation.BlankNameStarves | src/gc.rs:46-57 | a name that begins with a blank: the file behind it is never removed |
| CollectorStarvation.RawNameStarves | src/gc.rs:71-77 | a name that is not UTF-8, which is not remembered at all |
| Ordering.CompareTransitive | src/aggregate.rs:319-330 | the string comparison is an order |
| Ordering.CompareMeaning | src/aggregate.rs:319-330 | it is dictionary order: the lesser string ends first or has the smaller character where the two part |
| Ordering.SortCanonical | src/aggregate.rs:261-261 | sorting gives one result for all arrangements if equivalent elements are equal |
| Labels.EscapeLabelValue | src/metric_key.rs:48-59 | the loop computes the escaping |
| Labels.EncodeLabels | src/metric_key.rs:22-46 | the text reads back as the labels in dictionary order of their names, those of one name in the order in which they came |
| Labels.UnescapeEscape | src/metric_key.rs:48-59 | a parser of the label grammar undoes the escaping, whatever follows |
| Labels.EncodedParses | src/metric_key.rs:22-46 | the parser recovers exactly the sorted labels, which are in dictionary order and stable |
| Labels.TwoLabels | src/mmap_file.rs:348-370 | the labels b and a print as {a="1",b="2"} |
| Labels.TextIsIdentity | src/metric_key.rs:22-46 | two label lists have the same text exactly if they are the same labels |
| Labels.CanonicalIff | src/metric_key.rs:31-31 | the text is independent of the order exactly if no name has two values |
| Labels.PhpEscapesAlike | examples/lib.php:5-12 | three replacements in this order equal the one-pass escaping |
| Series.SeriesReadsBack | src/aggregate.rs:293-317 | a printed series reads back as the sample, the original labels, then the pid |
| Series.SameSeries | src/aggregate.rs:293-317 | two keys print the same series exactly if sample and labels, with the pid behind the sorted labels, are the same |
| Series.SeriesDistinct | src/aggregate.rs:293-317 | unmistakable keys (with a pid, or with sorted labels that do not end in "pid") print the same series exactly if they are the same |
| Series.MistakableIff | src/aggregate.rs:293-317 | a key without a pid shares its series with one with a pid exactly if its sorted labels end in "pid" |
| Series.PidLabelCollides | src/aggregate.rs:293-317 | for instance one label pid without a pid, and no label with that pid |
| Series.PidInAnyText | src/exporter.rs:458-482 | for any readable label text the pid reads back exactly if there is no comma in front of the brace |
| Series.TrailingCommaHere | src/exporter.rs:458-482 | for every label a readable text with such a comma, into which no pid can be worked |
| Rendering.KeysEqual | src/aggregate.rs:319-330 | keys compare equal exactly if they are the same key |
| Rendering.KeysOrdered | src/aggregate.rs:319-330 | a key stands in front of another by family, sample, labels and pid in dictionary order, without a pid first |
| Rendering.RowOrder | src/aggregate.rs:319-330 | the comparison is a total order |
| Rendering.Render | src/aggregate.rs:259-291 | the text has a line with series and value for every entry, a HELP line for every family, and its TYPE line by the literal type of its first entry; it is the same for every order in which the merged map is iterated |
| Rendering.RenderWithErrors | src/exporter.rs:418-455 | the exporter's text is that text, with all these lines, and its error gauge |
| Rendering.RowsPrinted | src/aggregate.rs:263-289 | the sample lines are the rows, each once and in their order |
| Rendering.Grouped | src/aggregate.rs:259-291 | every entry of the merged map is printed exactly once, in the order of keys, and each family is one contiguous group behind exactly one HELP and one TYPE line |
| PageReading.PageReadsBack | src/aggregate.rs:259-291 | a page with proper names reads back, line by line, as its rows: HELP and TYPE where a family begins, and every sample with its labels, its pid and its value |
| Pages.RecordReported | src/aggregate.rs:186-223 | a page of everything published has, for every published record, a line with the series (with the pid for `all` and `liveall` gauges only) and what its samples come to |
| Pages.BothPages | src/exporter.rs:70-134 | on a quiescent directory, after any history and under the two key conditions, both pages report every published record so, and the exporter prints exactly what the aggregator prints, then its gauge with zero errors |
| HistogramMetric.NormalizeBuckets | examples/lib.php:277-303 | succeeds exactly on one or more distinct finite numbers, and sorts them strictly |
| HistogramMetric.Observe | examples/lib.php:226-249 | completes, or stops at the first failing increment: the successful increments among its calls are exactly the first `done` of the observation, and the store holds what they make of it |
| HistogramMetric.SeriesNames | examples/lib.php:226-249 | the series of a histogram by their literal names, and how they read back |
| HistogramMetric.OneIsOne | examples/lib.php:230-230 | the bytes of the increment are 1.0, and those of the default are 0.0, as binary64 |
| HistogramMetric.KeyIdentity | examples/lib.php:271-275 | two series of a histogram coincide exactly for the same labels and bound |
| HistogramMetric.BucketsCount | examples/lib.php:226-249 | each bucket counts the observations at or below its bound, `+Inf` and the count count all, the sum is their sum |
| HistogramMetric.AtEveryMoment | examples/lib.php:228-248 | also in the middle of observations, or after aborted ones, no bucket exceeds the count, and `+Inf` lags by exactly those cut off |
| HistogramMetric.NotYetCumulative | examples/lib.php:232-241 | in the middle of an observation a bucket can exceed the next one |
| HistogramMetric.InfLags | examples/lib.php:228-248 | an observation cut off behind the count leaves `+Inf` one behind |
| HistogramMetric.BucketsApart | examples/lib.php:232-241 | at every moment two buckets differ by the values between them that reached the upper one, less the observations cut off between the two |
| HistogramMetric.SameTextCountsTwice | examples/lib.php:28-34 | two increments of an observation under one text make a bucket exceed the count |
| HistogramMetric.FormatTellsIff | examples/lib.php:28-34 | no bucket ever exceeds the count if and only if all bounds print differently, also from "+Inf" |
| HistogramMerge.FamilyRun | examples/lib.php:226-249 | among the increments of all histograms in a file, those of one family are its own run |
| HistogramMerge.Serve | examples/lib.php:226-249 | a worker that serves any requests for any histograms in one file, complete or cut off, satisfies the hypotheses of the laws below |
| HistogramMerge.MergedHistogram | src/aggregate.rs:229-240 | the merge of any number of workers, whose files may hold other histograms too, keeps all of this: counts at or below each bound, growing with the bound, `+Inf` equal to the count |
| HistogramMerge.MergedAtEveryMoment | src/aggregate.rs:229-240 | at any other moment merged buckets stay below the merged count, with equality of `+Inf` exactly if nothing was cut off |
| HistogramMerge.MergedCumulativeIff | src/aggregate.rs:229-240 | at any moment a merged bucket is at most a later one exactly if no more observations were cut off between the two than lie between and reached the later one |

## Left out

- The HTTP server, its argument parsing and health endpoint (`src/bin/prometheus-mmap-exporter.rs`), and the PHP bindings (`src/php_ext.rs`): plumbing around the functions modelled here.
- `mmap`, `msync`, `flock`, `stat`, `kill`, `sysconf` and clocks: files are byte sequences with an identity that is not used twice, everything else is a parameter.
- Weak memory, the release fence, torn 8-byte values and durability on power loss: steps are atomic and sequentially consistent.
- Floating point: rounding, NaN, signed zero and the printing of numbers. Sums and comparisons are over `real`; conservation asks that each addition that was made is exact.
- The byte order of the machine: words are little-endian.
- Overflow of `usize` where a reader adds to an offset inside a mapping: offsets are bounded by the mapping there, so those errors cannot be reached on 64-bit machines.
- A failing remap of a reader: a file that can be opened can be mapped. In the store a failing remap leaves the old mapping, while the file on disk is already longer; that longer length is not tracked.
- More than one writer of a file, files edited from outside, and files of an old version that are upgraded while the aggregator reads them.
- Concurrent scrapes are modelled for one file (`ConcurrentScrape`); in the directory histories (`Agreement`) each look at one file is one step, and whole scrapes are steps as well.
- Paths: a name stands for the path of a file in the directory. A cursor file with other content than the collector writes is compared as plain text, without path normalisation.
- The discovery of the aggregator (src/aggregate.rs:87-107) ends with the first failure that the exporter's discovery would count; the laws about both readers are for listings without failures.
- The order in which the aggregator visits files is any permutation of the discovered files, of which path order is one.
- The wrappers for counters, gauges, the registry and request metrics in `examples/lib.php`: they only call the store.
- The order in which `refresh` takes the discovered files: the listing order stands for it, since no file's treatment depends on another's.
- CollectorProgress.EventuallyCollected: for fixed answers of the operating system, among them that the cursor file can be written (src/gc.rs:113 ignores a failure, after which a pass starts where the one before did); files that appear in between are not modelled.
- HistogramMerge.MergedHistogram: the text of a bound is a parameter that has to tell the bounds apart, because "%.15g" does not do so for all floats; one worker does not register two histograms of one family with different buckets or labels.
- Series.SeriesDistinct: a printed series does not contain the family, so keys that differ only in their family print the same series.
