# svelte-bench run bookkeeping, modelled in Dafny

svelte-bench benchmarks successive releases of the Svelte component
compiler. Its Selenium runner (`selenium/run.js`) does the following:

- It picks the compiler versions to compare.
- It pairs every benchmark with every version, using the prebuilt
  component artifacts.
- In each browser it runs every pair a fixed number of times. The page
  runs an in-page timer that reports lifecycle timings as records.
- It folds each pair's records into a results table, as the joined error
  text plus min/median/max statistics per measurement.
- It prints a fixed-width report that highlights the best median.

This project models that bookkeeping and proves what it guarantees. The
browser is left out: the driver's answers are given to the model as
input.

Modules, one file each:

- `Versions` (versions.dfy): version selection.
  - The first five versions of `versions.json` are always kept.
  - After them, a version is kept only when no version anywhere in the
    list has the same major.minor and a higher patch, whether it comes
    before or after it.
  - A custom build is appended as the extra label `Custom`.
- `Combinations` (combinations.dfy): the benchmark × version list, read
  from a store of prebuilt artifacts. A missing artifact makes the whole
  list fail.
- `Samples` (samples.dfy): one pair's sample loop.
  - The pass counter starts at `iterations` and is decremented after each
    pass, so at least one pass always runs.
  - A script failure whose message contains "Timed out" is recorded as
    one `{error: 'Timed out'}` record.
  - Any other failure aborts the pair.
  - This module also splits the records into error and success records,
    and builds the error text `"a", "b"` that joins the error messages.
- `Analysis` (analysis.dfy): `analyse`. It takes the values of the
  records of one measurement id, sorts them by value, and returns min,
  max, and the median.
  - The median of an even count is the mean of the two middle values.
  - If there are no values, all three statistics are zero.
- `Results` (results.dfy): the results table (benchmark → version →
  entry), as the class `ResultsTable`, and one browser session's pass
  over the pairs. The session stops at the first pair that aborts.
- `Report` (report.dfy): the `column` padding and truncation, and the
  "best median" predicate of the report.

Some behaviour of the program worth knowing:

- The custom build is appended after the selected versions.
- Version selection has no upper bound: past the first five, a
  version is kept whenever no version anywhere in the list has its
  major.minor and a higher patch.
- The error text joins the message of every error record, repeats
  included.
- Statistics are computed and stored even when the pair had error
  records, so an all-error pair gets all-zero statistics
  (`OnlyErrorsEntry`).
- The report shows an entry's error text instead of its medians exactly
  when that text is non-empty.

## Model

| member | source | states |
|---|---|---|
| Versions.SelectVersions | selenium/run.js:18-25 | The loop over all versions yields exactly `Selection`, the specification of the keep rule. It tests the length of the list built so far, as the program does. |
| Versions.ResolveVersions | selenium/run.js:18-32 | The version list is the selection, followed by `Custom` exactly when a custom build is given. |
| Versions.SameLine | selenium/run.js:22 | The `other.major === version.major && other.minor === version.minor` test; it takes part in `NewerPatchesMembership` and `SelectedLinesDistinct`. |
| Versions.NewerPatches | selenium/run.js:22 | The filter of the versions anywhere in the list with the same major.minor and a higher patch; its meaning is `NewerPatchesMembership` and `NewerPatchesEmptyIff`. |
| Versions.Kept | selenium/run.js:20-24 | The keep rule for one version: among the first five, or no version anywhere in the list with the same major.minor and a higher patch; `SelectedIff` and `KeptIndicesMembership` tie it to the selection. |
| Versions.Selection | selenium/run.js:18-25 | The selected labels of the first n versions, the specification of `SelectVersions`; its meaning is `SelectedIff`, `SelectionFollowsIndices`, `SelectionGrows`, `SelectionKeepsEarliest` and `SelectionHasOnlyReleases`. |
| Versions.NewerPatchesEmptyIff | selenium/run.js:22 | The filter of versions with the same major.minor and a higher patch is empty exactly when no such version exists anywhere in the list. |
| Versions.NewerPatchesMembership | selenium/run.js:22 | A version is in the filter's result exactly when it is in the list, on the same major.minor, and has a higher patch. |
| Versions.SelectedIff | selenium/run.js:19-25 | Version j is selected exactly when it is among the first five, or no version anywhere in the list has the same major.minor and a higher patch. |
| Versions.KeptIndicesMembership | selenium/run.js:19-25 | Among the first n versions, the selected indices are exactly the positions that satisfy the keep rule. |
| Versions.SelectionFollowsIndices | selenium/run.js:19-25 | The selection lists the kept versions in file order. The indices strictly increase, and the output has one label per kept index. |
| Versions.KeptIndicesAscend | selenium/run.js:19-25 | The kept indices lie below n and strictly increase. |
| Versions.SelectionGrows | selenium/run.js:19-25 | Reading more versions only appends to the selection; nothing selected earlier changes. |
| Versions.SelectionOfEarliest | selenium/run.js:20-21 | Up to five versions are all selected, unchanged and in order. |
| Versions.SelectionKeepsEarliest | selenium/run.js:20-21 | The first min(n, 5) versions are always selected, in order and unchanged. |
| Versions.SelectionHasOnlyReleases | selenium/run.js:19-25 | The selection contains only versions from the list, never the custom label. |
| Versions.SelectedLinesDistinct | selenium/run.js:22 | After the first five, two selected versions on the same major.minor line are the same release. |
| Combinations.BuildCombinations | selenium/run.js:38-43 | The nested loops succeed exactly when every benchmark/version artifact exists. Their result is then `Table`, in benchmark-major order. |
| Combinations.Combine | selenium/run.js:41 | The object pushed for one pair: its version, benchmark, and the artifact's code and size; `RowAt` and `TableAtIndex` place it in the list. |
| Combinations.Row | selenium/run.js:39-42 | The combinations of one benchmark, in version order; its meaning is `RowAt` and `RowStep`. |
| Combinations.Table | selenium/run.js:38-43 | All combinations, benchmark by benchmark, the specification of `BuildCombinations`; its meaning is `TableLength`, `TableAtIndex`, `TableMembers` and `TableStep`. |
| Combinations.RowAt | selenium/run.js:39-42 | One benchmark's row has one combination per version, in version order, with that artifact's code and size. |
| Combinations.RowStep | selenium/run.js:39-42 | One more version appends its combination to the benchmark's row. |
| Combinations.TableStep | selenium/run.js:38-43 | One more benchmark appends its row to the list. |
| Combinations.TableLength | selenium/run.js:38-43 | There are exactly \|benchmarks\| × \|versions\| combinations. |
| Combinations.TableAtIndex | selenium/run.js:38-43 | Combination i·\|versions\| + j is benchmark i with version j. |
| Combinations.TableMembers | selenium/run.js:38-43 | Every combination pairs one of the listed benchmarks with one of the listed versions. |
| Results.ResultsTable.constructor | selenium/run.js:45-51 | The table has exactly the benchmarks. Each row has exactly the versions, and every entry starts empty. |
| Results.ResultsTable.Start | selenium/run.js:66-68 | A pair's entry is reset to hold only the artifact size. Nothing else changes. |
| Samples.IndexOf | selenium/run.js:83 | The result is -1 exactly when the text does not occur. Otherwise it is the first position where it occurs. |
| Samples.Passes | selenium/run.js:78-99 | The loop decrements the counter and tests `<= 0` afterwards. So at least one pass runs, and the last pass brings the counter to zero or below. |
| Samples.CollectMessages | selenium/run.js:76-102 | The loop succeeds exactly when none of its passes ends in an unrecognized failure. On success its messages are `Accumulate` of those passes. When it aborts, it stops at the first failing pass. |
| Samples.IsTimeout | selenium/run.js:83 | The timeout test on a script failure; its meaning is `IndexOf`, which finds the first occurrence of "Timed out" or returns -1. |
| Samples.Contribution | selenium/run.js:82-94 | What one pass contributes: its records, one `{error: 'Timed out'}` record, or an abort; `TimeoutAddsNoSamples` states the timeout case. |
| Samples.Accumulate | selenium/run.js:82-94 | The records of a run of passes, or an abort, the specification of `CollectMessages`; its meaning is `AccumulateSomeIff` and `AccumulateAppend`. |
| Samples.AccumulateSomeIff | selenium/run.js:82-94 | Accumulating answers succeeds exactly when every answer contributes. A contributing answer is a record list, a single record, or a "Timed out" script failure. |
| Samples.AccumulateAppend | selenium/run.js:90-94 | Accumulating answers concatenates each pass's records in pass order. |
| Samples.TimeoutAddsNoSamples | selenium/run.js:82-87 | A timed-out pass never aborts the loop. It adds one error record and no success record. |
| Samples.IsError | selenium/run.js:104-105 | `!!message.error`; its meaning is `ErrorsMembership` and `SuccessesMembership`. |
| Samples.Errors | selenium/run.js:104 | The error filter; its meaning is `ErrorsMembership`, `PartitionIsExact` and `ErrorsOfConcat`. |
| Samples.Successes | selenium/run.js:105 | The success filter; its meaning is `SuccessesMembership`, `PartitionIsExact` and `SuccessesOfConcat`. |
| Samples.ErrorsMembership | selenium/run.js:104 | The result holds exactly the records that have a non-empty error. |
| Samples.SuccessesMembership | selenium/run.js:105 | The result holds exactly the records that have no error or an empty one. |
| Samples.PartitionIsExact | selenium/run.js:104-105 | Errors and successes together are a permutation of the records. |
| Samples.ErrorsOfConcat | selenium/run.js:104 | Filtering the errors commutes with concatenation. |
| Samples.SuccessesOfConcat | selenium/run.js:105 | Filtering the successes commutes with concatenation. |
| Samples.Quoted | selenium/run.js:107 | Each message is wrapped in double quotes, one output per message. |
| Samples.MessageOf | selenium/run.js:107 | `error.error` of one error record; `ErrorMessages` and `ErrorTextRoundTrip` state what the joined text holds. |
| Samples.ErrorMessages | selenium/run.js:107 | There is one message per error record. |
| Samples.Join | selenium/run.js:107 | `join(', ')` of the quoted messages; `QuotedJoinRoundTrip` shows the join can be read back. |
| Samples.ErrorText | selenium/run.js:107 | The joined error text of a pair; its meaning is `ErrorTextEmptyIff` and `ErrorTextRoundTrip`. |
| Samples.ErrorTextEmptyIff | selenium/run.js:104-107 | The joined error text is empty exactly when no record is an error. |
| Samples.ErrorTextRoundTrip | selenium/run.js:107 | If no message contains a double quote, the error messages can be read back from the error text. |
| Samples.QuotedJoinRoundTrip | selenium/run.js:107 | Parsing a non-empty join of quoted messages gives back exactly those messages. |
| Results.MeasurementMap | selenium/run.js:109-112 | The statistics of every id from the success records, the specification of `MeasureAll`; `CompletedEntry` states its keys and values. |
| Results.Completed | selenium/run.js:104-112 | The entry a completed pair leaves, the specification of `Complete`; its meaning is `CompletedEntry` and `OnlyErrorsEntry`. |
| Results.Outcome | selenium/run.js:63-113 | The entry a pair leaves, completed or aborted, the specification of `RunCombination`; `ReplayEntry` shows that a session leaves exactly it. |
| Results.MeasureAll | selenium/run.js:108-112 | There is one statistics entry per measurement id. Each is `Analyse` of the success records. |
| Results.ResultsTable.Complete | selenium/run.js:104-112 | The entry keeps its size, gets the joined error text, and gets the statistics of every id. Nothing else changes. |
| Results.ResultsTable.RunCombination | selenium/run.js:63-113 | A pair's run completes exactly when its passes complete. The table afterwards is `AfterCombination`: size only if the pair aborted, the completed entry otherwise. |
| Results.SuitsPrefix | selenium/run.js:63 | A prefix of the combinations is suited by the same prefix of the answers. |
| Results.ReplayStep | selenium/run.js:63 | Running one more pair runs it on the table the shorter replay left. |
| Results.ResultsTable.RunSession | selenium/run.js:63-114 | The pairs run in order until the first abort. The table afterwards is the replay of the pairs started. The session succeeds exactly when every pair completes. |
| Results.AfterCombination | selenium/run.js:63-113 | Running a pair never adds or removes a benchmark. |
| Results.Replay | selenium/run.js:63 | Running any sequence of pairs never adds or removes a benchmark. |
| Results.CompletedEntry | selenium/run.js:104-112 | A completed entry's error text is empty exactly when there were no error records. Its statistics cover exactly the ids and are computed from the success records only. |
| Results.OnlyErrorsEntry | selenium/run.js:104-112 | A pair whose records are all errors gets a non-empty error text and all-zero statistics. |
| Results.SuccessesOfOnlyErrors | selenium/run.js:105 | Error records alone leave no success record. |
| Results.AfterCompletedCombination | selenium/run.js:63-113 | A pair that completes leaves its own entry completed. Entries completed before stay completed. |
| Results.SessionCompletesEntries | selenium/run.js:63-113 | After a session in which every pair completes, every pair's entry has a size, an error text and statistics for exactly the ids; `ReplayEntry` gives the values themselves. |
| Results.ReplayEntry | selenium/run.js:63-113 | After a session, the entry of a pair that no later pair rewrites is exactly its own outcome: its size, with its own error text and statistics when its passes complete, or the size alone on abort. |
| Results.ReplayKeepsVersions | selenium/run.js:63-68 | Running pairs the table already has leaves every benchmark's set of versions unchanged. |
| Analysis.Insert | selenium/run.js:339 | The insertion step of the sort by value; its meaning is `InsertSorted` and `InsertPermutes`. |
| Analysis.InsertSorted | selenium/run.js:339 | Inserting into an ascending list keeps it ascending. Its head is the smaller of the value and the old head. |
| Analysis.InsertPermutes | selenium/run.js:339 | Inserting adds exactly one occurrence of the value. |
| Analysis.SortedTail | selenium/run.js:339 | The tail of an ascending list is ascending. |
| Analysis.Sort | selenium/run.js:339 | The sort by value of the matching values; its meaning is `SortSpec` and `SortedUnique`. |
| Analysis.SortSpec | selenium/run.js:339 | The sort's result is ascending and is a permutation of its input. |
| Analysis.SortedUnique | selenium/run.js:339 | Two sorted permutations of the same values are equal. So sorting by value fixes the sorted values, whatever the tie order. |
| Analysis.Matches | selenium/run.js:338 | `message.type === measurement.id` for a sample record; its meaning is `MatchingValuesMembership` and `MatchingValuesEmptyIff`. |
| Analysis.MatchingValues | selenium/run.js:337-338 | There are never more values than records. |
| Analysis.MatchingValuesMembership | selenium/run.js:337-338 | A value is selected exactly when a sample of that id with that value is among the records. |
| Analysis.MatchingValuesEmptyIff | selenium/run.js:337-338 | Nothing is selected exactly when no record has the measurement's id. |
| Analysis.MatchingValuesOfConcat | selenium/run.js:337-338 | Selecting values commutes with concatenation. |
| Analysis.MatchingValuesPermutation | selenium/run.js:337-338 | Reordering the records reorders the selected values, and nothing more. |
| Analysis.Analyse | selenium/run.js:341-347 | Without matching records, all three statistics are zero. |
| Analysis.AnalyseEmpty | selenium/run.js:341-347 | Records none of which has the id give all three statistics zero. |
| Analysis.AnalyseReadsSorted | selenium/run.js:349-356 | For any sorted arrangement s of the matching values: min is s[0], max is the last element, and the median is the middle element (odd count) or the mean of the two middle elements (even count). |
| Analysis.Median | selenium/run.js:349-350 | The middle value, or the mean of the two middle values; its meaning is `AnalyseReadsSorted` and `SummaryReads`. |
| Analysis.Summarise | selenium/run.js:349-356 | min, max and median of a sorted list; its meaning is `SummaryReads`, `SummaryOrdered` and `AnalyseReadsSorted`. |
| Analysis.SortedEnds | selenium/run.js:353-354 | The first and last elements of a sorted list bound all of it. |
| Analysis.SummaryOrdered | selenium/run.js:349-356 | For an ascending list, min ≤ median ≤ max. |
| Analysis.SummaryReads | selenium/run.js:349-356 | The statistics of a non-empty list are its first element, its last element, and its middle element or the mean of its two middle elements. |
| Analysis.AnalyseOrdered | selenium/run.js:349-356 | min ≤ median ≤ max. |
| Analysis.AnalyseExtremes | selenium/run.js:349-356 | With a matching record, min and max are observed sample values, and they bound every sample of the id. |
| Analysis.AnalyseByValues | selenium/run.js:336-357 | The statistics depend only on the multiset of matching values. |
| Analysis.AnalyseIgnoresOtherRecords | selenium/run.js:337-338 | Records of other ids, and error records, do not change the statistics. |
| Analysis.AnalysePermutation | selenium/run.js:336-357 | The statistics do not depend on the order of the records. |
| Report.Substr | selenium/run.js:122 | `substr(start, length)`: within bounds it is the slice from start of at most length characters. A start at or past the end gives the empty string. |
| Report.Column | selenium/run.js:119-128 | For width ≥ 3 the result is exactly width characters. Text that fits is the space-prefixed text left-padded with spaces. Text that does not fit is " .." followed by the last width − 3 characters of the space-prefixed text. For width < 3, overflowing text gives " ..". |
| Report.Errored | selenium/run.js:140 | An entry with a non-empty error text, reported with that text instead of its medians; `Beating` and `BestIsMinimum` use it as the `!other.error` filter. |
| Report.MedianOf | selenium/run.js:145-149 | `measurements[measurement.id].median` of an entry; `Beating`, `MinMedian` and `BestIsMinimum` compare it. |
| Report.Beating | selenium/run.js:146-149 | The filter is empty exactly when no entry without errors has a strictly lower median. |
| Report.Best | selenium/run.js:146-149 | The highlight test; its meaning is `BestIsMinimum` and `SomeEntryIsBest`. |
| Report.MinMedian | selenium/run.js:146-149 | Reference minimum: it is absent exactly when every entry has errors. Otherwise it is the median of some entry without errors, and no greater than any such entry's median. |
| Report.BestIsMinimum | selenium/run.js:146-149 | An entry without errors is marked best exactly when its median equals the minimum. So all tied entries are marked. |
| Report.SomeEntryIsBest | selenium/run.js:146-149 | When some entry has no errors, at least one entry is marked best. |
| Report.SessionEntriesHaveMedians | selenium/run.js:45-113 | From the freshly built table, a session that completes every combination leaves every entry with statistics for every measurement id. |
| Report.SessionRowsReportable | selenium/run.js:139-149 | After such a session, any arrangement of one benchmark's entries meets the precondition of the best-median filter, so `data.measurements[id]` and `other.measurements[id]` are always defined. |

## Left out

- The in-page lifecycle timer (`runCode`, selenium/run.js:183-334, and
  client/run.js) runs inside the browser. Its records arrive as the
  driver's answers, which are inputs to the model.
- The WebDriver session is not modelled: browser start and quit, page
  loading as a base64 data URL, the 5-second script timeout, and
  `JSON.parse` of the answers. A failure to load a page or decode an
  answer is the `NavigationFailed` answer, and it always aborts the pair.
- `Promise.all` over browsers (selenium/run.js:54) is not modelled. It
  starts every browser's session at once, and all of them write the
  same `results[benchmark][version]` entries (lines 64-68, 107-111), so
  their writes interleave on the shared table. A browser that finishes
  first prints its report (lines 117, 139-149) from entries other
  sessions are still rewriting: it can print another browser's
  statistics, or fail on an entry just reset to `{size}` that has no
  `measurements` yet (lines 145, 149). The model runs one session alone
  on the table. The promise chaining of `sequence` (lines 177-181) is
  its strict ordering, modelled as the loop of `RunSession`.
- Sample values are IEEE doubles in the program. The model uses exact
  `real`, so the rounding of the median's `/ 2` (line 350) and of the
  comparator `a.value - b.value` (line 339), and the comparator's
  behaviour on NaN or Infinity, are not modelled.
- JavaScript `length`, `substr` and `indexOf` (lines 83, 121-125) count
  UTF-16 code units. A Dafny `string` counts Unicode scalar values, so
  `Report.Column`'s width and `Samples.IndexOf`'s position are proved in
  code points, which differ from the program's count for characters
  outside the Basic Multilingual Plane.
- The benchmark list (`fs.readdirSync('benchmarks')` filtered at
  line 15) and the measurement ids (`./measurements`, line 16) are not
  read from disk: they are the parameters `benchmarks` and `ids`.
- Command-line parsing, `versions.json` reading, and the dotted version
  strings are not modelled. Versions are numeric triples, and a selected
  version is the label `Release(v)`. The on-demand custom build
  (scripts/build-tools) is not modelled either; `Custom` is only its label.
- Console output is not modelled: chalk colours, the header line,
  `toFixed(3)`, the row layout and the timing message.
- `iterations` is an integer. A fractional or NaN value from the command
  line is not modelled.
- CollectMessages, RunCombination, RunSession: `requires` that the driver
  supplies an answer for every pass. The program asks the browser for as
  many answers as it needs.
- Analysis.Analyse sorts the matching values rather than the records.
  `SortedUnique` shows that any sort by value yields the same sorted
  values, so the statistics are the same.
- A pair whose artifact is missing makes `BuildCombinations` return
  `None`, standing for the program's startup failure in `require`.
