# One Billion Row Challenge, variant V11: a verified model

`V11` in `go/main.go` summarises a file of `City;temperature` lines. It
prints, for every City in byte order, the least, mean and greatest
temperature. The work is split into four stages:

1. A `bufio.Scanner` with a custom split callback cuts the input into chunks
   of 1000 lines.
2. A pool of worker goroutines takes the chunks from a channel. Each worker:
   - splits its chunk on `\n`;
   - parses every line into a key and a fixed-point value in tenths of a
     degree;
   - folds the value into a private map. The map goes from the FNV-1a 64
     fingerprint of the key to a `ValuesV3{City, Min, Max, Sum, Count}`
     record.
3. The per-worker maps are reduced into one map.
4. The entries of that map are sorted by City and printed as
   `{a=min/mean/max, b=...}`.

This project models that pipeline sequentially and on integers only. Each
Dafny module follows one stage of the source:

| module | models |
|---|---|
| `Machine` | Go's `int32`/`int64` wrap-around (two's complement, written out with `%`) |
| `Bytes` | bytes, `bytes.IndexByte`, `bytes.SplitSeq`, newline counting, Go's bytewise string `<` |
| `Fnv` | the key fingerprint: FNV-1a 64 (IETF draft-eastlake-fnv) reinterpreted as `int64` |
| `RecordParser` | the line parser: split at the first `;`, then the sign/intPart/fracPart/decimalSeen loop |
| `PartialTable` | the per-worker table, as a class whose `entries` map the methods update |
| `Chunker` | the split callback, as a method with the source's loop and as a pure function, plus the chunk stream it produces |
| `Reducer` | the fold of the worker tables into the final table |
| `Pipeline` | workers consuming chunks under an arbitrary schedule, then the reduce |
| `Formatter` | collecting the entries, sorting them by City, and rendering the output text |
| `Challenge` | the whole of `V11` on one input: chunking, the workers, the reduce, then sorting and printing |

Some behaviours are modelled as the code has them, not as the design might
suggest:

- **Count starts at 0.** The first sighting of a key stores `Count = 0`, so
  a worker's entry for n values has `Count = n - 1`.
- **Merged Count depends on the workers.** After the reduce, `Count` is the
  number of values less the number of workers that saw the key. Min, Max and
  Sum do not depend on how chunks were spread over workers
  (`Pipeline.ScheduleIndependent`); Count does.
- **Values are not validated.** The parser checks nothing about the shape
  of the value:
  - a non-digit byte contributes `b - '0'`, computed on `uint8` and so
    wrapping;
  - a second `-` or a second `.` does not fail;
  - digits after the first fraction digit each overwrite `fracPart`.

  The only lines that fail are one without `;` (the slice `lineBytes[:-1]`
  panics) and one with an empty value (`valBytes[0]` panics). A value of
  the wrong shape is not a fatal error here, although a fail-fast design
  would make it one; the model follows the code.
- **A trailing newline can crash the last chunk.** A full chunk is cut just
  before its 1000th newline, and that newline is dropped. The chunk at end
  of input is passed on verbatim. If the input ends in `\n` and its line
  count is not a multiple of 1000, the last chunk ends in `\n`. Splitting it
  then yields an empty last line, and that line panics in the worker
  (`Pipeline.TrailingNewlineFails`). When the count is a multiple of 1000,
  the final newline is the dropped boundary and nothing fails.
- **Failure aborts the run.** A malformed line makes the worker panic. The
  model gives the run the result `None`.

## Model

| member | source | states |
|---|---|---|
| Fnv.Fnv1a64 | go/main.go:1237-1239 | the FNV-1a 64 hash of the key bytes is below 2^64 |
| Fnv.TestVectorA | go/main.go:1237-1239 | FNV-1a 64 of "a" is 0xaf63dc4c8601ec8c, the published test vector |
| Fnv.AsInt64 | go/main.go:1238 | `int64(hasher.Sum64())` is an int64 that agrees with the hash modulo 2^64 |
| Fnv.Fingerprint | go/main.go:1237-1239 | the map key `int64(hasher.Sum64())` of a key is an int64; it is `AsInt64(Fnv1a64(key))`, whose parts are stated by the two rows above |
| Bytes.IndexByte | go/main.go:1232 | the result is -1 exactly when the byte is absent; otherwise it is the index of the first occurrence |
| Bytes.Split | go/main.go:1231 | `bytes.SplitSeq` yields one piece more than there are separators, and no piece contains the separator |
| Bytes.SplitConcat | go/main.go:1231 | splitting `a + sep + b` gives the pieces of a followed by the pieces of b |
| Bytes.LessIrreflexive | go/main.go:1361 | no City is `<` itself |
| Bytes.LessTransitive | go/main.go:1361 | string `<` is transitive |
| Bytes.LessTotal | go/main.go:1361 | two different Cities are ordered one way or the other |
| RecordParser.DigitOf | go/main.go:1258 | `int32(b - '0')` is the digit for a digit byte and at least 10 (by uint8 wrap) for any other byte |
| RecordParser.ParseRecord | go/main.go:1232-1266 | the imperative parse (IndexByte, the sign test, the digit loop, then `sign*(intPart*10+fracPart)`) gives the same result as the line function in every case, errors included |
| RecordParser.ParseLine | go/main.go:1232-1265 | a line fails for a missing `;` exactly when it has none, and for an empty value exactly when its first `;` is its last byte; otherwise the key is the bytes before the first `;`, which it does not contain, and the value is read from the rest |
| RecordParser.ValueOf | go/main.go:1241-1265 | definition of the sign test, the digit loop and `sign * (intPart*10 + fracPart)` on int32; what it computes is stated by DecimalValue, DecimalValueExact, LastFractionDigitWins and FractionTail |
| RecordParser.NoSeparatorFails | go/main.go:1232-1234 | a line without `;` fails, as `lineBytes[:-1]` does |
| RecordParser.SplitsAtFirstSeparator | go/main.go:1232-1246 | the key is the bytes before the first `;` and the value all bytes after it; an empty value fails |
| RecordParser.ScanIntegerDigits | go/main.go:1253-1264 | over integer digits the loop leaves intPart at their number, wrapped to int32, with no fraction and no point seen |
| RecordParser.DecimalValue | go/main.go:1241-1265 | for `-?d+.d` the result is sign × (integer digits × 10 + fraction digit), wrapped to int32 |
| RecordParser.DecimalValueExact | go/main.go:1241-1265 | when that product fits in int32, the result is exactly ten times the decimal value |
| RecordParser.LastFractionDigitWins | go/main.go:1254-1263 | with several digits after the point, the value is as if only the last were there |
| RecordParser.FractionTail | go/main.go:1254-1263 | after the point, each digit overwrites fracPart and intPart no longer changes |
| RecordParser.ParseLines | go/main.go:1231-1266 | a chunk's lines parse exactly when every line parses; the records are then the lines' records, in order |
| RecordParser.ParseLinesAppend | go/main.go:1231-1266 | parsing two line lists back to back is parsing each and concatenating, or failure if either fails |
| RecordParser.RenderRoundTrip | go/main.go:1366-1369 | the one-decimal text of v/10 used for Min and Max parses back to v |
| PartialTable.Observed | go/main.go:1272-1288 | one observation changes only the key's entry: a new entry is `{key, v, v, v, 0}`; an existing one keeps City, widens Min/Max to cover v (each the old bound or v), adds v to Sum and 1 to Count, both wrapped |
| PartialTable.FirstSighting | go/main.go:1272-1273 | the new entry `{City: key, Min: v, Sum: v, Max: v}` (Count left at 0) is the summary of the one value v, held by one worker |
| PartialTable.LaterSighting | go/main.go:1274-1288 | a later sighting keeps City, makes Min the lesser and Max the greater of the old bound and v, and wrap-adds v to Sum and 1 to Count |
| PartialTable.ObserveAll | go/main.go:1231-1289 | definition of the worker's line loop on values: the records observed one after another, in order; ConsumeChunk is proved equal to it and ObserveAllWellKeyed states its invariant |
| PartialTable.TableOf | go/main.go:1231-1289 | definition of a worker's table built from an empty map over its records; TableOfSummarises and TableBounds state what it holds |
| PartialTable.FirstKey | go/main.go:1273 | the City kept for a fingerprint has that fingerprint and is the key of one of the records |
| PartialTable.FirstKeyIsFirst | go/main.go:1272-1273 | the kept City is the key of a record with that fingerprint before which no record has the fingerprint: the first sighting |
| PartialTable.MinOfIsLeast | go/main.go:1276-1278 | the running Min is one of the values and no value is below it |
| PartialTable.MaxOfIsGreatest | go/main.go:1285-1287 | the running Max is one of the values and no value is above it |
| PartialTable.FirstSightingSummary | go/main.go:1272-1273 | a first sighting creates the summary of one value: Min = Max = Sum = v, Count 0, City the key |
| PartialTable.LaterSightingSummary | go/main.go:1274-1288 | a later sighting turns the summary of n values into the summary of n + 1, City unchanged |
| PartialTable.SummarySnoc | go/main.go:1274-1288 | as above, stated for one summary and one more value |
| PartialTable.TableOfSummarises | go/main.go:1272-1288 | a worker's table holds exactly the fingerprints it saw, each with first City, Min, Max, wrapped Sum and Count = n - 1 |
| PartialTable.TableBounds | go/main.go:1272-1288 | after n ≥ 1 observations of a key, Min ≤ every observed value ≤ Max, both are observed values, Sum is the int64-wrapped exact total, and Count = n - 1 wrapped to int32 |
| PartialTable.ObservedWellKeyed | go/main.go:1272-1288 | an observation keeps every entry filed under its City's fingerprint, with Min ≤ Max |
| PartialTable.ObserveAllWellKeyed | go/main.go:1231-1289 | so does a whole sequence of observations |
| PartialTable.PartialTable.constructor | go/main.go:1226 | a new worker table is empty |
| PartialTable.PartialTable.Observe | go/main.go:1272-1288 | the in-place update of the entry is one observation on the table |
| PartialTable.PartialTable.ConsumeChunk | go/main.go:1231-1289 | `ok` holds exactly when every line of the chunk parses, and then the table has observed the chunk's records in order |
| Chunker.NthNewline | go/main.go:1307-1316 | the index of the K-th newline, with K - 1 newlines before it; none exactly when there are fewer than K |
| Chunker.Cut | go/main.go:1302-1324 | a token consumes 1 to len(data) bytes; no token consumes nothing; data at EOF always yields a token |
| Chunker.SplitCallback | go/main.go:1302-1324 | the callback's loop with newlineCount and lastNewlineIndex returns the same advance and token as the split function |
| Chunker.FullChunk | go/main.go:1309-1316 | with K newlines in data, the consumed bytes are the token plus one newline, and the token holds K - 1 newlines, so it splits into K lines |
| Chunker.AtEndOfInput | go/main.go:1303-1321 | at EOF, empty data gives (0, nil); data with fewer than K newlines is returned whole |
| Chunker.ShortData | go/main.go:1319-1323 | before EOF, with fewer than K newlines, nothing is consumed and no token is returned |
| Chunker.PrefixStable | go/main.go:1302-1324 | a token found before EOF stays the same however much more data arrives, so cutting the whole remaining input at once gives the scanner's chunks |
| Chunker.ChunkStream | go/main.go:1327-1332 | the scan loop collects the chunk list of the stream |
| Chunker.ChunksOf | go/main.go:1327-1332 | the chunks the scanner yields: none exactly for an empty stream, and never more chunks than bytes, since every token consumes at least one byte |
| Chunker.FullChunkSplits | go/main.go:1314-1316 | a full chunk is everything before the K-th newline; the rest starts just after that newline |
| Chunker.ChunksReassemble | go/main.go:1302-1324 | the chunks, joined with the dropped newlines, are the whole input, plus a final newline exactly when the input ends on a chunk boundary: every byte is accounted for |
| Chunker.LinesOfJoin | go/main.go:1231 | splitting the joined chunks on newlines gives the lines of all chunks in order |
| Chunker.LinesAccounted | go/main.go:1231 | the input's own lines are the lines of all chunks, plus one empty line when the input ends on a boundary |
| Chunker.ChunkSizes | go/main.go:1314-1316 | every chunk holds fewer than K newlines and every chunk but the last exactly K - 1 |
| Chunker.TrailingNewlineEmptyLine | go/main.go:1319-1321 | an input ending in a newline, with its newline count not a multiple of K, leaves an empty last line in the last chunk |
| Reducer.Merged | go/main.go:1338-1351 | the merged table's keys are those of both tables; a key in one table keeps that entry (`values[key] = val`), a key in both gets the combination |
| Reducer.Combine | go/main.go:1342-1349 | combining two entries keeps the first City, takes the lesser Min and the greater Max, and wrap-adds Sum and Count |
| Reducer.MergeAll | go/main.go:1337-1352 | the reduced table holds exactly the fingerprints held by some worker table |
| Reducer.MergeInto | go/main.go:1338-1351 | visiting the worker table's keys in whatever order the map yields gives the merged table |
| Reducer.Reduce | go/main.go:1337-1352 | the loop over the workers' tables computes the fold of all of them |
| Reducer.MergedWellKeyed | go/main.go:1339-1350 | merging keeps entries filed under their City's fingerprint with Min ≤ Max |
| Reducer.MinOfAppend | go/main.go:1342-1344 | the min of two value lists together is the min of their mins |
| Reducer.MaxOfAppend | go/main.go:1347-1349 | the max of two value lists together is the max of their maxes |
| Reducer.SumOfAppend | go/main.go:1345 | sums add |
| Reducer.SummaryCombine | go/main.go:1342-1349 | combining the summaries of two value lists is the summary of the concatenation: Sum and Count wrap-added, City kept from the first |
| Reducer.HoldersNone | go/main.go:1337-1352 | no worker holds a fingerprint exactly when no record has it |
| Reducer.MergedSummary | go/main.go:1338-1351 | folding one more worker's table into a summary of the earlier workers' records gives the summary of all of them, one more holder if the worker saw the key |
| Reducer.MergeAllSummarises | go/main.go:1337-1352 | the final table holds exactly the seen fingerprints, each entry the summary of all their values with Count = values - workers that saw the key |
| Pipeline.StartWorkers | go/main.go:1222-1227 | n fresh, empty and distinct worker tables |
| Pipeline.ChunkRecords | go/main.go:1231-1266 | definition of what one chunk yields: its newline-separated lines parsed in order, or None when one is malformed; ChunksParse states it over all chunks |
| Pipeline.WorkerRecords | go/main.go:1224-1231 | definition of the records worker w is given: those of the chunks the schedule sends to it, in the order sent; Partition states that they account for every record |
| Pipeline.WorkerLists | go/main.go:1224-1231 | one record list per worker |
| Pipeline.Outcome | go/main.go:1222-1352 | definition of the run's result: None when some chunk has a malformed line, otherwise the merge of the worker tables in worker order; its meaning is stated by RunSummarises, ScheduleIndependent and StreamRun |
| Pipeline.TablesOfWorkers | go/main.go:1337 | the worker tables are read in worker order, one per worker |
| Pipeline.Run | go/main.go:1222-1352 | workers consuming chunks under the schedule, then the reduce, give the run's outcome: `None` if any line is malformed, otherwise the merged table |
| Pipeline.Partition | go/main.go:1224-1331 | the records the workers see are, as a multiset, exactly the records of all the chunks: no line is lost or read twice |
| Pipeline.SummaryTransfer | go/main.go:1337-1352 | any split of a record multiset over workers merges to entries that summarise all the values of each fingerprint |
| Pipeline.RunSummarises | go/main.go:1272-1352 | in a successful run, a fingerprint appears exactly when some line had it; its entry has the least and greatest value, the wrapped total, and Count = lines - holders with 1 ≤ holders ≤ n; its City is one of its keys |
| Pipeline.OutcomeWellKeyed | go/main.go:1272-1352 | every entry of the reduced table is filed under its City's fingerprint and has Min ≤ Max, which the sort and output rely on |
| Pipeline.ScheduleIndependent | go/main.go:1337-1352 | for any two schedules and worker counts, success, the keys and every Min, Max and Sum agree |
| Pipeline.SingleWorkerCount | go/main.go:1273-1282 | with one worker, Count is the number of lines with the key less one |
| Pipeline.ChunksParse | go/main.go:1231-1266 | every chunk parses exactly when all their lines together parse, and the records are the same |
| Pipeline.StreamRun | go/main.go:1302-1331 | the run on the stream's chunks succeeds exactly when the chunks' lines parse, and those lines are the input's lines, less one empty line at a boundary |
| Pipeline.TrailingNewlineFails | go/main.go:1319-1321 | an input ending in a newline whose newline count is not a multiple of 1000 makes the run fail |
| Formatter.Collect | go/main.go:1354-1359 | the array holds each entry of the table once: one slot per key, in the order the map visit chose |
| Formatter.SortByCity | go/main.go:1360-1362 | the array ends up in City order and is a permutation of what it held |
| Formatter.InsertOne | go/main.go:1360-1362 | one insertion step extends the ordered prefix by one, keeps the multiset, and leaves the entries after position i untouched |
| Formatter.OrderedIsStrict | go/main.go:1360-1362 | distinct entries of a well-keyed table in City order have strictly increasing Cities |
| Formatter.SortedEntries | go/main.go:1354-1362 | the sorted array is the table's entries, each exactly once, in strictly increasing City order |
| Formatter.SortedUnique | go/main.go:1360-1362 | two strictly sorted sequences with the same elements are equal, so the unspecified map order does not show |
| Formatter.LineAt | go/main.go:1365-1372 | each entry's `City=min/mean/max` text sits at its offset in the body |
| Formatter.SeparatorAfter | go/main.go:1370-1372 | each line but the last is followed by ", ", and the last ends the body: no trailing separator |
| Formatter.Line | go/main.go:1366-1369 | definition of `City=min/mean/max` for one entry; LineFields states what it holds |
| Formatter.Output | go/main.go:1364-1374 | definition of `{`, the lines joined by `, `, then `}`; LineAt, SeparatorAfter and EmptyOutput state its layout |
| Formatter.EmptyOutput | go/main.go:1364-1374 | an empty table prints `{}` |
| Formatter.LineFields | go/main.go:1366-1369 | a line starts with its City and `=`, then Min's text, which parses back to Min |
| Formatter.Render | go/main.go:1364-1374 | the `output +=` loop builds `{`, the lines joined by ", ", then `}` |
| Formatter.Format | go/main.go:1354-1374 | the output is the rendering of the table's entries, each once, in strictly increasing City order |
| Formatter.OutputUnique | go/main.go:1354-1374 | the printed text depends only on the final table |
| Challenge.Summarise | go/main.go:1209-1375 | the whole program on one input: it fails exactly when the stream's chunked lines do not all parse, and otherwise prints the merged table's entries, each once, in strictly increasing City order |

## Left out

- I/O and environment: opening and reading the file, `log.Fatal`, timing and profiling. The input is a byte sequence parameter.
- Concurrency: goroutines, the `linesChan` channel, `sync.WaitGroup`. A `schedule` parameter assigns each chunk to a worker, and the workers run as a sequential fold. Every split of chunks over workers is covered, but not the timing of the interleaving.
- Pipeline.Run: requires at least one worker. With `runtime.NumCPU() - 1 = 0` workers the source has no reader for the channel, which is not modelled.
- Scanner buffers: the 64 KiB/1 MiB buffer, `bufio.ErrTooLong` on an oversized chunk, and the chunk copy. The model cuts the whole remaining input with `atEOF` true. `Chunker.PrefixStable` shows this gives the tokens the scanner sees.
- Floating point: the mean text `math.Round(float64(Sum)/float64(Count)*10)/100` with `%.1f` is a parameter `mean` of the formatter. This includes its division by a Count of 0.
- RecordParser.RenderTenths: the Min and Max text is the exact one-decimal form of v/10. It is not proved equal to Go's `%.1f` of `float64(v)/10`.
- Fnv.Fingerprint: `hash/fnv` is not part of this model. FNV-1a 64 is written out from its published definition.
- Pointer aliasing: the reducer stores a worker's `*ValuesV3` in the final map and may later update it through that pointer. No worker map is read after it is merged, so the model uses values.
- Formatter.SortByCity: `sort.Slice` is modelled as insertion sort. Distinct entries of a well-keyed table have distinct Cities, so every correct sort gives the same order (`Formatter.SortedUnique`).
- The dead `if err != nil` check inside the worker is not modelled, since it tests an error that has already been handled.
- Formatter.Format: the output omits the newline `fmt.Println` adds.
- Challenge.Summarise: requires at least one worker and omits the final newline, as Pipeline.Run and Formatter.Format do; the output text is returned rather than printed.
- PartialTable.PartialTable.ConsumeChunk: after a malformed line, the table is left unconstrained. The panic ends the run, so it is never read.
- Variants V1–V10, `main`, and the Python and Java programs are not part of this model.
