# 1brc chunked aggregation, modelled in Dafny

This project models `main.py` from the one-billion-row challenge solution.
The program reads a measurements file of lines `<station>;<temperature>\n`.
It splits the file into `num_processors` byte ranges. Each worker
(`process_chunk`) reads the lines that begin in its range and keeps
`[min, sum, max, count]` per station. The driver (`process_file`) merges
these partial results as the workers finish. The model covers:

- **Bytes**: the file as a `seq<byte>`. `readline` becomes `NextLineEnd`, and `bytes.split` becomes `Split`.
- **Temperature**: readings as integer tenths of a degree. Parsing and formatting the `-?d+.d` form.
- **Records**: splitting one line into station and reading. A line that splits into anything other than two fields is an error.
- **Stats**: the four-slot accumulator. `Observe` is the per-reading update and `Combine` the per-station merge.
- **Partials**: the per-station map with `defaultdict` lookup, and its merge.
- **Chunk**: the worker. Alignment to the first line boundary, then the read loop (`ProcessChunk`, an imperative method proved against `ChunkResult`).
- **Planner**: the range arithmetic `chunk_size * i .. chunk_size * (i + 1)`.
- **Merge**: folding worker results into the accumulator (`MergeInto`, a loop over the stations), stopping at the first worker that raised.
- **File**: the driver (`ProcessFile`). Completion order is a permutation parameter `arrival`.

The model follows the code as written, including three behaviours a reader might not expect:

- The alignment test `read(1) != '\n'` compares bytes with a string, so it is always true. A worker whose range starts right after a newline therefore skips the whole record that begins there. `Chunk.BoundaryRecordSkipped` and `File.BoundaryRecordLost` state this.
- The last range ends at `chunk_size * n`. Records that begin in the final `size % n` bytes are never read. `File.RemainderNeverRead` states this.
- An empty file might be expected to give an empty result. The code maps the file first, and mapping a zero-length file raises. The model follows the code: `EmptyFile`.

Under those two conditions (no boundary on the first byte of a record, and no record in the remainder), the parallel run, in any completion order, gives the same outcome as a single reader of the whole file: equal totals, or both fail.

## Model

| member | source | states |
|---|---|---|
| Bytes.NextLineEnd | main.py:20 | `readline` from a position stops just past the first newline, or at end of file. It always advances when not at the end, and no newline lies before the stop. |
| Bytes.NextLineEndFromInside | main.py:17-20 | Restarting `readline` from any point of the same line, other than just after a newline, reaches the same line end. |
| Bytes.Split | main.py:25 | `bytes.split(b';')` gives one more piece than there are separators, and no piece contains one. |
| Bytes.JoinSplit | main.py:25 | Joining the pieces of a split with the separator gives back the original bytes. |
| Bytes.SplitJoin | main.py:25 | Splitting pieces that are free of the separator, after joining them, gives the pieces back. |
| Temperature.ParseTemperature | main.py:26 | An accepted field is at least three bytes of digits, `-`, `.` and the trailing newline, and a negative reading is written with a leading `-`. Its partner `FormatParseRoundTrip` shows that every formatted reading is read back. |
| Temperature.DigitsRoundTrip | main.py:26 | Reading back the decimal digits of a natural number gives that number. |
| Temperature.FormatParseRoundTrip | main.py:26 | Parsing the one-decimal text of any reading, with or without the trailing newline, gives that reading. |
| Records.ParseRecord | main.py:25-26 | A line is an error with `WrongFieldCount` exactly when it does not contain exactly one `;`. A line with one `;` succeeds exactly when its second field parses as a reading. The only other error is `NotANumber`. On success, the station is the bytes before the `;` and the reading parses from the bytes after it. |
| Records.RecordRoundTrip | main.py:25-26 | A line `station;reading\n`, with a station free of `;`, parses back to that station and reading. |
| Stats.Observe | main.py:30-36 | After one reading, the minimum and maximum bracket it and the older ones, each bound is either the reading or the old bound, the count grows by one and the sum by the reading. |
| Stats.Combine | main.py:66-72 | Merging two accumulators keeps the smaller minimum and the larger maximum, and adds the sums and the counts. The result is empty only when both are. |
| Stats.CombineNeutral | main.py:11 | The initial `[inf, 0, -inf, 0]` is an identity for the merge. |
| Stats.CombineCommutative | main.py:66-72 | The per-station merge does not depend on the order of its arguments. |
| Stats.CombineAssociative | main.py:66-72 | The per-station merge does not depend on grouping. |
| Stats.ObserveIsCombine | main.py:30-36 | Adding one reading equals merging with the accumulator of that reading alone. |
| Stats.CombineValid | main.py:66-72 | Merging preserves count >= 1 and min <= mean <= max. |
| Stats.ObserveValid | main.py:30-36 | Adding a reading preserves count >= 1 and min <= mean <= max. |
| Partials.Absorb | main.py:28-36 | Recording a reading adds its station to the keys, leaves every other station unchanged, and updates that station's entry from its default-initialised value. |
| Partials.AbsorbAll | main.py:24-36 | Folding records adds exactly the stations they mention, and leaves every other station's entry unchanged. Its partner `AbsorbAllStation` gives each station's new entry. |
| Partials.Merge | main.py:64-72 | Merging a result into the totals gives exactly the union of their stations. Its partner `MergeShape` gives each station's entry. |
| Partials.MergeShape | main.py:64-72 | Merging a result into the totals gives the union of the stations. Stations only in the totals are unchanged, and every station of the result is combined with its total or with the initial value. |
| Partials.LookupMerge | main.py:64-72 | With default lookups, each station of a merge is the combination of its two entries. |
| Partials.MergeIdentity | main.py:44 | Merging into the empty totals, or merging an empty result, changes nothing. |
| Partials.MergeCommutative | main.py:64-72 | Merging two results does not depend on their order. |
| Partials.MergeAssociative | main.py:64-72 | Merging three results does not depend on grouping. |
| Partials.AbsorbIsMerge | main.py:28-36 | Recording one reading equals merging the result of that reading alone. |
| Partials.AbsorbAllIsMerge | main.py:24-36 | Folding records into an accumulator equals merging it with the fold of those records into an empty map. |
| Partials.AbsorbAllAppend | main.py:24-36 | Folding two runs of records in turn equals folding their concatenation. |
| Partials.MergeValid | main.py:64-72 | Merging two well-formed maps gives a well-formed map. |
| Partials.AbsorbAllValid | main.py:24-36 | Folding records keeps a map well-formed. |
| Partials.MinOf | main.py:30-31 | The least reading occurs among the readings and is no greater than any of them. |
| Partials.MaxOf | main.py:32-33 | The greatest reading occurs among the readings and is no less than any of them. |
| Partials.ObserveAllSummary | main.py:24-36 | Adding readings one by one equals merging with their summary: count, sum, least and greatest. |
| Partials.AbsorbAllStation | main.py:24-36 | After folding records, a station's entry is its old entry with exactly that station's readings added. |
| Partials.PartialOfRecords | main.py:24-38 | Folding records from the empty map gives each station the summary of exactly its readings. A station is present exactly when it has a reading. |
| Chunk.ChunkBegin | main.py:17-22 | The first range starts at byte 0. Any other range starts at the first line boundary after `start - 1`, past `start` when that lies inside the file, and no newline is skipped before it. |
| Chunk.ProcessChunk | main.py:8-38 | The worker's read loop returns exactly the specification fold `ChunkResult`: the empty-file and seek errors, then parse-and-record of every line that begins before `end`. |
| Chunk.FoldLinesValid | main.py:24-36 | A successful read loop leaves every station with count >= 1 and min <= mean <= max. |
| Chunk.ChunkResultValid | main.py:8-38 | A successful worker result is well-formed. |
| Chunk.LinesFrom | main.py:24-25 | The lines read from a position are strictly increasing and lie between that position and the range end. |
| Chunk.ParseLinesAll | main.py:25-26 | Parsing a run of lines succeeds exactly when every line parses, and then gives their records in order. |
| Chunk.ParseLinesAppend | main.py:24-26 | Parsing two runs of lines in turn is parsing their concatenation. The first failure wins. |
| Chunk.FoldLinesReadsLines | main.py:24-36 | The read loop equals parsing its lines first and then folding the records. |
| Chunk.LinesAreRecordStarts | main.py:24-25 | A position is read by the loop from a line boundary exactly when a record begins there, before the range end. |
| Chunk.LinesSplit | main.py:24-25 | Reading up to a midpoint, then continuing from where the reader stopped, reads the same lines as one pass. |
| Chunk.CrossIsNextBegin | main.py:17-20 | Where one range's reader stops is where the next range's alignment lands, unless the boundary is just after a newline. |
| Chunk.AdjacentChunks | main.py:17-25 | Two adjacent ranges read between them exactly the lines of their union, when the shared boundary is not just after a newline. |
| Chunk.BoundaryRecordSkipped | main.py:17-20 | A range starting just after a newline skips the record beginning at its start. |
| Chunk.ChunkResultReadsLines | main.py:8-38 | A worker's result is the fold of the parsed records of its lines. It succeeds exactly when each of those lines parses. |
| Chunk.ChunkStationSummary | main.py:8-38 | A successful worker result gives each station the summary of exactly its readings in the range's lines. |
| Planner.PlanChunks | main.py:48-57 | There are `n` contiguous ranges from 0, each of length `size // n`. The last ends at `size - size % n`, less than `n` bytes short of the end. All ranges are empty when `size < n` and none is empty otherwise. |
| Merge.MergeFrom | main.py:60-72 | Collecting fails exactly when some worker raised. The error is then that of a worker all of whose predecessors in arrival order succeeded, i.e. the first to raise. Its partner `MergeFromAll` gives the totals on success. |
| Merge.MergeInto | main.py:64-72 | The station-by-station merge loop produces exactly the map merge of the totals and one result. |
| Merge.MergeFromAll | main.py:60-72 | Collecting results succeeds exactly when every worker succeeded, and then gives the merge of all of them. |
| Merge.MergeAllPick | main.py:60-72 | The merge of all results is any one of them merged with the rest. |
| Merge.MergeAllPermutation | main.py:60-72 | Reordering successful results does not change their merge. |
| Merge.ArrivalOrderIrrelevant | main.py:60-72 | Any two orders of the same worker results collect to the same outcome: both fail, or both succeed with equal totals. |
| Merge.MergeFromValid | main.py:60-72 | Collecting well-formed results gives well-formed totals. |
| File.ArrivalInRange | main.py:51-60 | A completion order names each of the `n` workers once, so it has length `n` and only valid worker numbers. |
| File.MultisetInOrder | main.py:60-62 | The results in completion order are a permutation of the results in worker order. |
| File.ProcessFile | main.py:41-74 | The driver returns exactly `FileResult`. Zero workers is an error. Otherwise the workers' results are collected in completion order, and the first that raised is returned as the error. |
| File.CompletionOrderIrrelevant | main.py:60-72 | Any two completion orders give the same outcome. |
| File.FileResultValid | main.py:41-74 | A successful run gives every station count >= 1 and min <= mean <= max. |
| File.PlannedEnd | main.py:49-56 | The planned ranges stop before the end of the file, but less than `n` bytes before it. |
| File.WorkersCoverLines | main.py:17-57 | With no boundary on the first byte of a record, the workers read between them, in order, exactly the lines one reader of the planned span reads. |
| File.InLinesOfWorkers | main.py:51-57 | A line read by the workers collectively is read by one of them. |
| File.WorkersDisjoint | main.py:17-57 | No line is read by two workers. |
| File.EveryRecordReadOnce | main.py:17-57 | With no boundary on the first byte of a record, each record beginning before the planned end is read by exactly one worker. |
| File.BoundaryRecordLost | main.py:17-56 | A boundary on the first byte of a record loses that record: no worker reads it. |
| File.RemainderNeverRead | main.py:49-56 | A record beginning in the last `size % n` bytes is read by no worker. |
| File.WorkersFoldLines | main.py:24-72 | Collecting the workers in order equals parsing all their lines in order and folding the records into the totals. |
| File.SplitMatchesSingleRange | main.py:41-74 | With no boundary on the first byte of a record, `n` workers in any completion order give the same outcome as one reader of the planned span. |
| File.OneWorkerReadsEveryRecord | main.py:41-74 | With one worker, the run is one read of the whole file, and that worker reads exactly the positions where records begin. |
| File.SameAsOneWorker | main.py:41-74 | When no boundary falls on the first byte of a record and no record begins in the remainder, `n` workers give the same outcome as one. |
| File.NothingBeyond | main.py:24-56 | With no record beginning past a point, reading to the end of the file reads the same lines as reading to that point. |
| File.FinalResultSummarisesRecords | main.py:41-74 | With no boundary on the first byte of a record, a successful run gives each station the count, sum, least and greatest of exactly its readings in the planned span. |

## Left out

- Processes and `as_completed`: the workers run one after another. Their completion order is the parameter `arrival`, which may be any permutation of the worker numbers.
- `open`, `mmap` and `os.path.getsize`: the file is a byte sequence given to each worker. A missing or unreadable file, and I/O errors, are not modelled.
- Floating point: readings are exact integer tenths, and sums are exact integers. Rounding of float addition over many readings is not modelled.
- Temperature.ParseTemperature: accepts only `-?digits.digit` with an optional trailing newline. Python's `float()` also accepts whitespace, `+`, exponents, `inf`/`nan` and other digit counts, which the model reports as `NotANumber`.
- `print_results` and the `__main__` block: output formatting, the mean's rounding to one decimal, and the fixed file name and worker count are not part of this model.
- `ProcessPoolExecutor(max_workers=n)` with negative `n`: the worker count is a natural number. Zero gives `NoWorkers`.
