# wiggelen in Dafny

A model of the core of *wiggelen*, a small Python 2 library for wiggle
tracks (the UCSC text format for per-position genome annotations), with
proofs of what its operations promise.

- **Line parser** (`wiggelen/parse.py`, module `Parse`). `parse` reads one line
  and updates a state of mode, span, start and step. It classifies the line
  as NONE, REGION (with the `chrom` name) or DATA (`Data(position, span,
  value)`), or it raises `ParseError`. The state is the class `ParseState`,
  whose methods update its fields in place. Each method is proved against the
  pure step function `ParseLine`.
- **Walker** (`walk` in `wiggelen/wiggle.py`, module `Wiggle`). It turns the
  lines of a track into `(region, position, value)` records, with the span
  expanded. Without an index it reads the whole track once. With one it
  visits the regions in sorted order, jumps to each region's line, and
  stops that region at a header for another region.
- **Lock-step walk** (`walk_together`, module `Together`). It walks N walkers
  together: at each step it yields the least `(region, position)` of the
  lookaheads, with one value slot per walker. It raises when a region comes
  back after it was left. The looping method is proved equal to a recursive
  definition. That definition is proved to use every record exactly once,
  in its own slot. When every walker is strictly sorted by `(region,
  position)`, the rows come out in strictly increasing order.
- **Writer** (`write`, module `WiggleWrite`). It writes records as
  `variableStep` blocks and records the offset of each region's header.
  Reading the written text back with `walk` gives the records again, provided
  every region is clean (non-empty, with no blanks and no `=`) and `show`
  prints each value as one token that reads back as that value.
- **Reducers** (`wiggelen/merge.py`, modules `Reducers` and `Merge`). Sum, mean
  and count, and `merge`, which maps a reducer over the rows of
  `walk_together`.
- **Coverage** (`wiggelen/intervals.py`, module `Intervals`). `coverage` yields
  the maximal runs of consecutive positions; `write` renders them as BED
  lines. The runs are proved to be the unique maximal ones that cover the
  input in order.
- **Divided differences** (`wiggelen/transform.py`, module `Transform`). The
  sliding window of 2 or 3 records behind the forward, backward and central
  derivatives. The deque loop is proved equal to a slice-based reference.
  That reference gives one slope per window on evenly spaced input, and it
  reproduces the three examples of the test suite exactly.
- **Region index** (`wiggelen/index.py`, module `RegionIndex`). It maps each
  region named on a `chrom=` line to the byte offset of the last such line.

Shared pieces:

- `Text`: Python's `str.split()`, `strip()`, `find`, `int()`, `float()` and
  `'%d'`, plus the string order.
- `WigFormat`: values, the `(region, position)` order and header attribute
  dictionaries.
- `Track`: a text as its lines, and byte offsets into it.

Values are `IntValue(int)` or `FloatValue(real)`. A real is the exact value
of a decimal literal.

## Model

| member | source | states |
|---|---|---|
| Parse.ParseState.constructor | wiggelen/parse.py:34-35 | a fresh state is VARIABLE mode, span 1, start and step unset |
| Parse.ParseState.Parse | wiggelen/parse.py:38-98 | the result and the new fields are those of the step `ParseLine` on the old fields, for every line, the empty one included (IndexError) |
| Parse.ParseState.ParseVariableData | wiggelen/parse.py:45-53 | a VARIABLE data line gives a DATA result or ParseError and leaves the fields as they were |
| Parse.ParseState.ParseFixedData | wiggelen/parse.py:55-64 | a FIXED data line moves `start` on by `step` and then reads the value; with start or step unset it raises TypeError |
| Parse.ParseState.ParseVariableStep | wiggelen/parse.py:72-80 | the fields after a `variableStep` header, including those stored before a failure |
| Parse.ParseState.ParseFixedStep | wiggelen/parse.py:82-96 | the fields after a `fixedStep` header, stored in the source's order up to the first failure |
| Parse.VariableStepEffect | wiggelen/parse.py:72-80 | mode becomes VARIABLE and start and step are untouched; the result is REGION with `chrom` exactly when `chrom` is present and the span reads as an int |
| Parse.FixedStepEffect | wiggelen/parse.py:82-96 | mode becomes FIXED; REGION only with `chrom`, and then start and step are set |
| Parse.VariableStepStored | wiggelen/parse.py:76-78 | an accepted `variableStep` header stores the `span=` value, or 1 when there is none |
| Parse.FixedStepStored | wiggelen/parse.py:86-94 | a `fixedStep` header is accepted exactly when chrom, a readable start, span (default 1) and step (default `min(1, span)`) are there, and then all of them are stored |
| Parse.FixedStepDefaults | wiggelen/parse.py:86-94 | `fixedStep chrom=c start=n` gives REGION c and the state FIXED, span 1, start n, step `min(1, 1)` = 1 |
| Parse.VariableStepDefaults | wiggelen/parse.py:72-78 | `variableStep chrom=c` gives REGION c, mode VARIABLE and span 1, with start and step kept |
| Parse.IgnoredLineIsNone | wiggelen/parse.py:66-70 | `browser`, `track`, `#` lines and bare line breaks give NONE and leave the state unchanged |
| Parse.BlankLineRejected | wiggelen/parse.py:66-98 | a non-empty line of whitespace other than the exact line breaks `\n`, `\r\n` and `\r` (such as `"  \n"` or `"\t\n"`) raises ParseError, leaving the state as it was |
| Parse.MinusRejected | wiggelen/parse.py:98 | a line starting with `-` is not taken as data and raises ParseError |
| Parse.DataCarriesSpan | wiggelen/parse.py:48-61 | every DATA result carries the span held in the state, and the mode and span do not change |
| Parse.FixedDataAdvances | wiggelen/parse.py:55-64 | in FIXED mode a data line returns the old start as its position and sets start to start + step, also when the value fails to read |
| Parse.FixedRun | wiggelen/parse.py:55-64 | k value lines in FIXED mode yield the positions start + i·step for i < k, and leave start + k·step |
| Parse.FixedRecordsAt | wiggelen/parse.py:55-64 | record i of a fixed run is DATA at start + i·step with the state's span and the i-th value |
| Parse.VariableDataAccepted | wiggelen/parse.py:45-53 | a VARIABLE data line is accepted iff it has two tokens, an int position and a readable value; otherwise it raises ParseError; the state never changes |
| Parse.VariableDataTokens | wiggelen/parse.py:45-51 | a two-token VARIABLE line with an int position and a readable value gives exactly that DATA |
| Parse.VariableDataLine | wiggelen/parse.py:45-53 | `'%d %s'` text reads back as DATA for a position of 0 or more; a negative one raises ParseError |
| Parse.VariableDataNeedsTwoTokens | wiggelen/parse.py:47-53 | a VARIABLE data line with other than two tokens raises ParseError |
| Parse.VariableStepFields | wiggelen/parse.py:72-80 | a `variableStep` line whose attributes form a dictionary acts as that dictionary |
| Parse.FixedStepFields | wiggelen/parse.py:82-96 | a `fixedStep` line whose attributes form a dictionary acts as that dictionary |
| Parse.VariableStepHeaderLine | wiggelen/parse.py:72-78 | a header written from clean `key=value` pairs acts as their dictionary, a later key overriding |
| Parse.FixedStepHeaderLine | wiggelen/parse.py:82-94 | likewise for `fixedStep` |
| Parse.VariableStepMissingChrom | wiggelen/parse.py:76-80 | without `chrom` a `variableStep` header raises ParseError after setting mode VARIABLE |
| Parse.FixedStepMissingChrom | wiggelen/parse.py:86-96 | without `chrom` a `fixedStep` header raises ParseError after setting mode FIXED |
| Parse.MalformedFieldRejected | wiggelen/parse.py:73-96 | a header attribute without exactly one `=` raises ParseError and changes nothing |
| WigFormat.ParseValue | wiggelen/parse.py:51 | a value token with a `.` reads as a float, any other as an int |
| WigFormat.FieldsFailWhen | wiggelen/parse.py:74-75 | the attribute dictionary fails exactly when some token does not split into two at `=` |
| Text.ParseIntOfIntToString | wiggelen/wiggle.py:197 | `int('%d' % n)` is n for every integer |
| Wiggle.Walk | wiggelen/wiggle.py:36-104 | the records and the error of a walk are those of `WalkSpec`: one pass without an index, the sorted regions in turn with one |
| Wiggle.WalkIndexed | wiggelen/wiggle.py:48-104 | for each region in turn: jump to its line and scan until a header for another region, carrying the state over |
| Wiggle.ScanLines | wiggelen/wiggle.py:53-104 | the `for line in track` loop equals the recursive scan `Scan` |
| Wiggle.WalkLineStep | wiggelen/wiggle.py:55-104 | one line of the loop equals `WalkLine` |
| Wiggle.VariableDataStep | wiggelen/wiggle.py:84-92 | a variable data line as the loop handles it equals `VariableData` |
| Wiggle.FixedDataStep | wiggelen/wiggle.py:94-101 | a fixed data line as the loop handles it equals `FixedData` |
| Wiggle.Expand | wiggelen/wiggle.py:91-92 | the `range(span)` loop yields `Repeat` |
| Wiggle.Repeat | wiggelen/wiggle.py:91-92 | n records `(region, base + i, v)` for i < n, none when n ≤ 0 |
| Wiggle.SortRegions | wiggelen/wiggle.py:46 | the insertion loop returns `SortedKeys` of the index |
| Wiggle.SortedKeys | wiggelen/wiggle.py:46 | `sorted(idx)`: strictly increasing, and holding exactly the keys |
| Wiggle.SortedUnique | wiggelen/wiggle.py:46 | two strictly sorted lists with the same elements are equal, so the sort is unique |
| Wiggle.SkippedLine | wiggelen/wiggle.py:55-56 | `browser` and `track` lines are skipped and change nothing |
| Wiggle.DataBeforeHeader | wiggelen/wiggle.py:103-104 | a data line before any header raises |
| Wiggle.VariableDataLineExpands | wiggelen/wiggle.py:84-92 | any variable data line that splits into two tokens, a position `int()` reads as p and a value read as v, yields `(region, p + i, v)` for i below the span |
| Wiggle.VariableDataExpands | wiggelen/wiggle.py:84-92 | in particular the line `'%d %s'` renders from p and a one-token value reads back as `(region, p + i, v)` for i below the span, negative p included |
| Wiggle.TextSpanFails | wiggelen/wiggle.py:86-91 | with a span kept as text, a well-formed data line raises TypeError at `range(span)` |
| Wiggle.VariableStepKeepsSpanText | wiggelen/wiggle.py:58-64 | an explicit `span=` on `variableStep` is stored as text, not converted |
| Wiggle.VariableStepDefaultSpan | wiggelen/wiggle.py:58-64 | without `span=` the span is the int 1 and the region is `chrom` |
| Wiggle.FixedDataExpands | wiggelen/wiggle.py:94-101 | a fixed data line yields `(region, start + i, v)` for i below the span, then start moves on by step |
| Wiggle.FixedStepStarts | wiggelen/wiggle.py:70-78 | a `fixedStep` header sets region, start, step and span (default 1) |
| Wiggle.FixedStepNeedsStep | wiggelen/wiggle.py:70-80 | a `fixedStep` header without `step` raises KeyError, which the handler does not catch |
| Wiggle.HeaderNeedsChrom | wiggelen/wiggle.py:58-80 | both headers raise KeyError without `chrom` |
| Wiggle.ScanFixedBlock | wiggelen/wiggle.py:94-101 | k fixed value lines yield `FixedBlock`: span records at each of start, start + step, … |
| Wiggle.FixedBlockAppend | wiggelen/wiggle.py:94-101 | a fixed block of a + b is the block of a, then the block of b from the advanced start |
| Wiggle.FixedStepWritten | wiggelen/wiggle.py:70-78 | a `fixedStep` header in `'%d'` notation sets exactly the written fields |
| Wiggle.SpanExpansionExample | wiggelen/wiggle.py:70-101 | `fixedStep chrom=chr8 start=1 step=5 span=2` with values 11, 33, 44 yields positions 1, 2, 6, 7, 11, 12 |
| Wiggle.HeaderStartsRegion | wiggelen/wiggle.py:58-82 | a well-formed header starts its region |
| Wiggle.EmitKeepsRegion | wiggelen/wiggle.py:84-101 | data lines keep the region, and every record they yield is in it |
| Wiggle.ScanStopsAtOtherRegion | wiggelen/wiggle.py:67-82 | an indexed scan of region r stops, yielding nothing more, at a header for another region |
| Wiggle.ScanInRegion | wiggelen/wiggle.py:53-101 | an indexed scan of region r yields only records of r |
| Wiggle.WalkRegionsOrdered | wiggelen/wiggle.py:46-53 | over strictly sorted regions, with an index that points at their headers, the records come out grouped by region in sorted order, each in a visited region |
| Wiggle.IndexedWalkOrdered | wiggelen/wiggle.py:38-53 | an indexed walk yields records ordered by region, all in regions of the index |
| Together.WalkTogether | wiggelen/wiggle.py:107-164 | the lookahead loop yields the rows of `WalkTogetherSpec` and raises exactly when it does |
| Together.LeastKey | wiggelen/wiggle.py:144 | the `min` over the lookaheads that are not None equals `Least` |
| Together.Least | wiggelen/wiggle.py:139-144 | None exactly when all lookaheads are None; otherwise a key some lookahead has, and no lookahead is smaller |
| Together.SlotValues | wiggelen/wiggle.py:154-155 | the values list equals `Values` |
| Together.Values | wiggelen/wiggle.py:154-155 | one slot per walker, holding its value exactly when its lookahead has the emitted key |
| Together.AdvanceMatched | wiggelen/wiggle.py:159-164 | only the lookaheads with the emitted key advance, and the remaining records become `Consume` of them |
| Together.Consume | wiggelen/wiggle.py:159-164 | a walker drops its first record exactly when that record has the emitted key |
| Together.StepShrinks | wiggelen/wiggle.py:138-164 | each step consumes at least one record, so the loop ends |
| Together.WalkTogetherMerges | wiggelen/wiggle.py:146-150 | the walk raises exactly when the merged rows revisit a region they left; otherwise it yields all the merged rows, and it always yields a prefix of them |
| Together.ZipFollowsMerge | wiggelen/wiggle.py:146-151 | from any grouped prefix, with the `regions` set and `previous_region` as the loop keeps them, the walk yields a prefix of the merged rows, raises exactly when they would break the grouping, and yields all of them otherwise |
| Together.NotGroupedWhenRevisited | wiggelen/wiggle.py:147-149 | coming back to a region seen before, other than the last, breaks the grouping |
| Together.GroupedSnoc | wiggelen/wiggle.py:147-151 | staying in the last region or opening a new one keeps the grouping |
| Together.WalkTogetherProjects | wiggelen/wiggle.py:154-164 | without the exception, slot i over all rows is walker i's records, in order; every row has one slot per walker |
| Together.MergeProjects | wiggelen/wiggle.py:154-164 | every record appears in exactly one row, in its own walker's slot |
| Together.MergeRowKey | wiggelen/wiggle.py:144-156 | the first row's key is held by some walker, and no walker's next record is below it |
| Together.MergeWidth | wiggelen/wiggle.py:154-155 | every row has one slot per walker |
| Together.WalkTogetherSorted | wiggelen/wiggle.py:138-164 | with each walker sorted, the rows come out strictly increasing in `(region, position)` |
| Together.MergeSorted | wiggelen/wiggle.py:138-164 | the merged rows of sorted walkers are strictly increasing |
| WigFormat.KeyLessTransitive | wiggelen/wiggle.py:144 | tuple order on `(region, position)` is transitive |
| Text.LexTotal | wiggelen/wiggle.py:46 | two strings are equal or one sorts before the other |
| WiggleWrite.Write | wiggelen/wiggle.py:171-199 | the lines written and `idx` are those of the fold `WriteAll` from the track line |
| WiggleWrite.WriteRecord | wiggelen/wiggle.py:189-199 | one loop pass equals `Record`: a header and an index entry when the region changes, then the record line |
| WiggleWrite.WriteWritesLines | wiggelen/wiggle.py:180-199 | the text is the track line, then per record an optional header and one `'%d %s'` line |
| WiggleWrite.WriteAllLines | wiggelen/wiggle.py:189-199 | the loop appends exactly `WriteLines` of the records from the current region on |
| WiggleWrite.HeadersWhereRegionChanges | wiggelen/wiggle.py:190-194 | a header for r is written exactly where a record of r follows a record of another region, or the start |
| WiggleWrite.HeaderPerRegion | wiggelen/wiggle.py:189-195 | a header for r is written exactly when some record is in r |
| WiggleWrite.ChromLineDistinct | wiggelen/wiggle.py:182-197 | headers for different regions differ, and no record line or track line is a header |
| WiggleWrite.WriteIndexesRegions | wiggelen/wiggle.py:184-195 | `idx` holds exactly the regions of the records; each is the offset of the last header written for it; `size` is the length written |
| WiggleWrite.WriteAllKeepsIndex | wiggelen/wiggle.py:189-199 | the loop keeps `size` and `idx` in step with the text |
| WiggleWrite.RecordKeepsIndex | wiggelen/wiggle.py:190-199 | one record keeps that invariant, a later block overwriting the offset |
| WiggleWrite.StartIndexOk | wiggelen/wiggle.py:180-187 | after the track line the invariant holds, with an empty index |
| WiggleWrite.ChromLineRead | wiggelen/wiggle.py:192 | a written header reads as `variableStep` for its region, span 1 |
| WiggleWrite.StepLineRead | wiggelen/wiggle.py:197 | a written record line reads back as that record |
| WiggleWrite.WalkReadsWritten | wiggelen/wiggle.py:171-199 | for writable records (every region clean: non-empty, no blanks, no `=`; every value shown as one token that reads back) walking the written track without an index gives back exactly the records, with no error |
| WiggleWrite.WrittenIsLines | wiggelen/wiggle.py:182-199 | the written text splits back into exactly the strings written, each a line |
| Reducers.Count | wiggelen/merge.py:28 | the count is at most the number of slots |
| Reducers.CountBounds | wiggelen/merge.py:28 | the count is 0 exactly when no slot is defined, and the number of slots exactly when all are |
| Reducers.SumAllUndefined | wiggelen/merge.py:21 | all undefined gives 0 |
| Reducers.SumIsTotalOfDefined | wiggelen/merge.py:21 | the sum is the total of the defined values only |
| Reducers.SumAppend | wiggelen/merge.py:21 | sums of concatenated slot lists add up |
| Reducers.Mean | wiggelen/merge.py:25 | undefined exactly when there are no slots (ZeroDivisionError) |
| Reducers.MeanScales | wiggelen/merge.py:23-25 | the mean times the number of slots, the undefined ones included, is the sum |
| Merge.MergeRows | wiggelen/merge.py:46-47 | one triple per row, same region and position, same order, value the reducer on the row's slots |
| Merge.MergeItem | wiggelen/merge.py:46-47 | merged triple i is row i of `walk_together` with the reduced values |
| Merge.DefaultIsSum | wiggelen/merge.py:44 | the default reducer is the sum |
| Merge.MergedCounts | wiggelen/merge.py:28-47 | at every yielded position the count is between 1 and the number of tracks |
| Merge.MergedCountsAddUp | wiggelen/merge.py:46-47 | without the exception, the counts over all rows add up to the number of records |
| Merge.MergeCountsRecords | wiggelen/wiggle.py:154-164 | the counts of the merged rows add up to the number of input records |
| Intervals.Coverage | wiggelen/intervals.py:13-48 | the loop with the open interval as accumulator yields `Covered` |
| Intervals.Backlog | wiggelen/intervals.py:46-48 | at most the one open interval is emitted after the loop |
| Intervals.CoveredPositions | wiggelen/intervals.py:33-48 | the positions of the intervals, in order, are exactly the input keys, in order |
| Intervals.CoverFromPositions | wiggelen/intervals.py:33-48 | from any open interval, its positions and the rest of the input come out in order |
| Intervals.CoveredMaximal | wiggelen/intervals.py:36-44 | each interval has begin ≤ end, and none continues the one before it |
| Intervals.CoverFromShape | wiggelen/intervals.py:36-44 | from an open interval the output is ordered and maximal and starts with that interval's begin |
| Intervals.CoveredLength | wiggelen/intervals.py:41-44 | the sum of end − begin + 1 is the number of input records |
| Intervals.CoveredEmpty | wiggelen/intervals.py:33-48 | no intervals exactly for an empty input |
| Intervals.RunsUnique | wiggelen/intervals.py:36-44 | two ordered, maximal interval lists covering the same positions are equal |
| Intervals.CoveredIsTheRuns | wiggelen/intervals.py:36-48 | any ordered, maximal intervals covering the input keys are the coverage |
| Intervals.CoverageOneRegion | tests/test_intervals.py:19-22 | the one-region example gives `(a,1,5), (a,7,10)` |
| Intervals.CoverageTwoRegions | tests/test_intervals.py:28-31 | the two-region example gives `(a,1,2), (a,4,5), (b,6,8), (b,12,12)` |
| Intervals.Write | wiggelen/intervals.py:51-83 | the lines written are the header, then one BED line per interval |
| Intervals.BedLines | wiggelen/intervals.py:82-83 | line k renders interval k |
| Intervals.BedLineReads | wiggelen/intervals.py:83 | a BED line splits back into region, begin and end, begin written as it is |
| Intervals.BedHeaderShape | wiggelen/intervals.py:74-79 | the header starts with `track`, is one line, and is exactly `track\n` without name and description |
| Intervals.BedReadsBack | wiggelen/intervals.py:74-83 | the written text splits into the header and one line per interval, each reading back as its interval |
| Transform.QueueSize | wiggelen/transform.py:21 | the window is 3 records for central and 2 otherwise |
| Transform.Current | wiggelen/transform.py:22 | the reported record lies inside the window (0 forward, 1 otherwise) |
| Transform.Queue | wiggelen/transform.py:23-27 | the bounded deque holds the last `maxlen` records seen |
| Transform.QueueNext | wiggelen/transform.py:27 | `queue.append` on the bounded deque moves the window by one record |
| Transform.DividedDifference | wiggelen/transform.py:19-42 | the deque loop yields `Differences`, a division by zero ending it |
| Transform.ForwardDividedDifference | wiggelen/transform.py:45-66 | the forward wrapper is the loop with the forward direction |
| Transform.BackwardDividedDifference | wiggelen/transform.py:69-90 | the backward wrapper is the loop with the backward direction |
| Transform.CentralDividedDifference | wiggelen/transform.py:93-112 | the central wrapper turns on `auto_step` exactly when no step is given |
| Transform.FixedStep | wiggelen/transform.py:31-32 | an explicit step is kept; the step stays unset only when none was given |
| Transform.SecondStep | wiggelen/transform.py:31-32 | the step is set once, from the first two positions, and stays |
| Transform.DifferencesAreWindows | wiggelen/transform.py:25-39 | the loop yields a derivative for each admissible full window in order, with the step fixed from the first two positions |
| Transform.DiffFromWindowed | wiggelen/transform.py:25-39 | once the step is fixed the loop follows the windows of the reference |
| Transform.FirstRecord | wiggelen/transform.py:27-39 | the first record only fills the deque |
| Transform.SecondRecord | wiggelen/transform.py:31-39 | from the second record on the loop follows the windows with the fixed step |
| Transform.Window | wiggelen/transform.py:27 | a full window has exactly the deque size |
| Transform.DifferencesBound | wiggelen/transform.py:35-42 | at most one derivative per full window |
| Transform.RegularWindow | wiggelen/transform.py:35-38 | on one region with constant gap g no full window is skipped, with step g or with no step |
| Transform.RegularDifferences | wiggelen/transform.py:35-42 | on one region with constant gap g and no other step asked, every full window yields its slope, and no division by zero happens |
| Transform.RegularWindowed | wiggelen/transform.py:35-42 | the reference from any window on yields the remaining slopes |
| Transform.SlopeAt | wiggelen/transform.py:41-42 | slope j is (last value − first value) / (last position − first position), reported at the record `current` |
| Transform.SampleSlope | wiggelen/transform.py:41-42 | on the ten test positions, slope j is the difference of the window's end values over the window's width |
| Transform.ForwardExample | tests/test_transform.py:26-29 | forward: 9 derivatives at positions 1..9 with the listed values |
| Transform.BackwardExample | tests/test_transform.py:35-38 | backward: 9 derivatives at positions 2..10 with the listed values |
| Transform.CentralExample | tests/test_transform.py:44-47 | central: 8 derivatives at positions 2..9 with the listed values |
| RegionIndex.Index | wiggelen/index.py:12-25 | the readline loop returns `Indexed` of the track's lines |
| RegionIndex.LineEntry | wiggelen/index.py:21-23 | a line adds nothing exactly when it lacks `chrom=`; a region it adds is a non-empty token |
| RegionIndex.IndexedSpec | wiggelen/index.py:17-24 | IndexError exactly when a `chrom=` line has no token; otherwise the keys are exactly the declared regions, each at the offset of its last declaring line |
| RegionIndex.IndexFromFails | wiggelen/index.py:23 | the scan fails exactly when some remaining line has `chrom=` and no token after it |
| RegionIndex.IndexFromKeys | wiggelen/index.py:21-24 | a region is a key exactly when some line declares it |
| RegionIndex.IndexFromValues | wiggelen/index.py:24 | the offset kept is that of the last declaring line, a later one overwriting |
| RegionIndex.IndexedSeeks | wiggelen/index.py:18-24 | every offset is less than the track length, and the text there is the declaring line itself |
| RegionIndex.IndexedLine | wiggelen/index.py:24 | each key comes with its last declaring line and that line's offset |
| RegionIndex.LineEntryToken | wiggelen/index.py:23 | the key is the first token after the first `chrom=` |
| RegionIndex.VariableHeaderEntry | wiggelen/index.py:21-23 | `variableStep chrom=r` indexes r, and `variableStep chrom=` with nothing after raises |
| RegionIndex.HeaderEntry | wiggelen/index.py:21-23 | a line whose only `chrom=` is followed by r and a line break indexes r |
| RegionIndex.EmptyHeaderEntry | wiggelen/index.py:23 | `chrom=` followed directly by the line break raises IndexError |
| RegionIndex.TrackLineEntry | wiggelen/index.py:21-22 | a track line adds no entry: both `track type=wiggle_0` and the `track type=wiggle_0 name="" description=""` line `write` emits |
| Track.LinesJoin | wiggelen/index.py:17-20 | splitting joined lines at line breaks gives the lines back |
| Track.JoinLines | wiggelen/index.py:17-20 | the lines `readline` returns, joined, are the whole text |
| Track.ReadLineAt | wiggelen/index.py:18-24 | the text at a line's offset is that line |

## Left out

- Files and streams. A track is its text, or the sequence of its lines.
  `readline` and `tell` (wiggelen/index.py:18, 24) become `Lines` and
  `Offset`. `track.seek(idx[region])` (wiggelen/wiggle.py:51) becomes a jump
  to a line number. `RegionIndex.IndexedSeeks` ties a byte offset to the
  start of its line. `sys.stdin` and `sys.stdout` are not modelled.
- `write_index` (wiggelen/wiggle.py:15, 201) is not part of this model. `write`
  returns the lines and `idx` instead.
- `index(track)` takes one argument, but `walk` calls
  `index(track, force=force_index)` (wiggelen/wiggle.py:38), which would raise
  TypeError. `Wiggle.Walk` therefore takes the optional index as a parameter.
- Generators are modelled as finite sequences. An exception partway through
  is modelled as the records yielded before it plus the error: `Scanned`,
  `Walked`, `Zipped.incompatible`, `Derived.zeroDivision`.
- Floating point. `float(...)` is read exactly as a decimal literal, with an
  optional sign and exponent (`Text.ParseFloat`). So there is no rounding,
  and `inf`, `nan` and hexadecimal forms are not accepted. Sums, means and
  derivatives are exact reals.
- `'%s' % value` (wiggelen/wiggle.py:197) is the parameter `show`. The round
  trips assume it prints a token that reads back as the value (`Shows`).
- Python 2 `int()` also accepts blanks between the sign and the digits, and
  that is not modelled. Blanks around the number are modelled.
- As in the code, the `index` key is the first token after the first
  `chrom=` (wiggelen/index.py:23). That is the text between the first and the
  second `chrom=` when a line holds two.
- The `intervals.write` docstring shows begin − 1 (wiggelen/intervals.py:69-72),
  but the code writes begin unchanged (wiggelen/intervals.py:83). The model
  follows the code.
- Merge.MergedCounts: stated with `Count` applied to each row's values, not
  through `Merge.MergeWalkers(walkers, Count)`. `Merge.MergeItem` gives the
  link: that merged value is `Count` of the row.
- Mergers other than sum, mean and count are a function parameter of
  `Merge.MergeWalkers`. Loading them by name
  (wiggelen/commands.py:225-234) is not modelled.
- wiggelen/commands.py, scripts.py, plot.py and distance.py, setup.py and
  `__init__.py` fall outside the core: the command line, plotting, the
  distance measure and packaging. `fill`, `zip_` and `ReadError`, imported in
  wiggelen/__init__.py:16, do not exist in wiggelen/wiggle.py and are not
  modelled.
- tests/test_wiggle.py compares pairs against triples, so its examples are not
  stated. The examples of tests/test_transform.py and tests/test_intervals.py
  are.
