# Hashtag activity timeline — Dafny model

This project models the data-shaping core of a small hashtag-activity
dashboard. Python back-end scripts turn scraped Instagram posts into
per-ten-minute counts and merge several hashtags into one dataset. A React
page then lays the Instagram and WeChat counts on one timeline, adds
discrete first and second derivatives, and shows summary statistics.

The model covers:

- **Timeline** (`src/pages/Index.tsx`). Two `timestamp → count` objects
  are unified into one sorted, de-duplicated timeline. Each point carries
  `Some(count)` or the absence marker `None` per platform, and a `time`
  that is the timestamp after its first 11 characters.
- **Derivatives** (`src/pages/Index.tsx`). First and second differences
  per platform. A derivative exists only when all of its operands exist.
  The second derivative is recomputed from the raw values.
- **Stats** (`src/pages/Index.tsx`). Peak, rounded mean and peak time
  over the strictly positive counts of a series.
- **Buckets** (`src/backend/DataAnalyzer.py`). Each post timestamp is
  bucketed to ten minutes by string slicing and `int()`. The buckets are
  counted over the reversed rows and emitted in key order.
- **TagMerge** (`src/backend/Combine.py`, `combine_csv`). Per-tag
  `shortCode → timestamp` maps are merged into
  `shortCode → (joined tags, timestamp)`. The rows are written sorted by
  timestamp, either to a new CSV or as an append of only the short codes
  the CSV does not know yet.
- **TagWindow** (`src/backend/Combine.py`, `combine_json`). Per-tag count
  files are cut to their common window and summed per timestamp.
- **ReverseCsv** (`src/backend/ReverseCsv.py`). The header is split off
  and the data rows are written in reverse order.

Strings are `seq<char>`. Timestamps are ordered by `Lex.Less`, an explicit
lexicographic order in which a proper prefix sorts first. This is the
order of JavaScript's default `sort()` and of Python's `<` on `str`.
File contents are the inputs and outputs of pure functions:
- a JSON object is a sequence of pairs in file order;
- a CSV file is a sequence of rows;
- "the file does not exist" is `None`.

Two behaviours of the page worth stating plainly:
- The peak time is the first occurrence of the peak in the object's entry
  order (`find` over `Object.entries`). This is chronological only when
  the file lists its timestamps in order. `Stats.PeakTime` uses entry
  order.
- The page unifies exactly two series, Instagram and WeChat.
  `Timeline.Combine` takes those two.

Supporting modules:
- `Wrappers`: `Option` and `Result`.
- `Lex`: the string order, plus insertion into a strictly sorted
  sequence, which gives sorted de-duplication.
- `Seqs`: reversal.

## Model

| member | source | states |
|---|---|---|
| Lex.SortedDistinct | src/pages/Index.tsx:31-34 | `[...new Set(xs)].sort()`: the result is strictly ascending and holds exactly the elements of the input |
| Lex.SortedUnique | src/pages/Index.tsx:31-34 | two strictly ascending sequences with the same elements are equal, so the sorted union is unique |
| Timeline.TimeOf | src/pages/Index.tsx:42 | `timestamp.slice(11)` is the suffix of the timestamp after its first 11 characters, and empty for a shorter string |
| Timeline.Lookup | src/pages/Index.tsx:38-39 | `find` by timestamp gives a count exactly when some entry has that timestamp, and the count is that entry's |
| Timeline.LookupIsMapRead | src/pages/Index.tsx:38-45 | for an object with distinct keys, the lookup is `Some(v)` exactly when the pair `(t, v)` is in the object |
| Timeline.AllTimestamps | src/pages/Index.tsx:31-34 | the unified timeline is strictly increasing and holds exactly the keys of either series |
| Timeline.Combine | src/pages/Index.tsx:37-47 | points are strictly increasing by timestamp; a timestamp has a point iff it is a key of either series; `time` is the timestamp after 11 characters; a platform's value is present iff the timestamp is a key of that series |
| Timeline.CombineLength | src/pages/Index.tsx:31-47 | the timeline has one point per distinct key of the union of the two series |
| Timeline.CombineValues | src/pages/Index.tsx:37-46 | a point's platform value is `Some(v)` exactly when that series maps the point's timestamp to `v`; absence is never a number |
| Derivatives.FirstDerivative | src/pages/Index.tsx:56-68 | the first derivative exists iff the index is positive and the current and previous values are both present, and is then their difference |
| Derivatives.SecondDerivative | src/pages/Index.tsx:70-88 | the second derivative exists iff the index is at least 2 and the three values are all present, and is then `(c - b) - (b - a)` of the three raw values |
| Derivatives.Chart | src/pages/Index.tsx:50-97 | adding derivatives keeps the length and the time, timestamp and platform values of every point, and gives point `i` the first and second derivatives at `i` for each platform |
| Derivatives.SecondIsDifferenceOfFirsts | src/pages/Index.tsx:70-88 | at a positive index the second derivative exists iff both adjacent first derivatives exist, and equals their difference |
| Derivatives.AbsencePropagates | src/pages/Index.tsx:56-88 | a missing value removes the first and second derivatives at its own index and the next, and the second derivative two places later |
| Derivatives.FirstDerivativesTelescope | src/pages/Index.tsx:56-68 | over a run of defined first derivatives, the last value is the first value plus the sum of the derivatives |
| Stats.Positives | src/pages/Index.tsx:122-123 | `filter(val => val > 0)` keeps every positive count and nothing else, each as many times as samples carry it |
| Stats.Max | src/pages/Index.tsx:125-126 | `Math.max` of a non-empty list is one of its elements and bounds all of them |
| Stats.Peak | src/pages/Index.tsx:122-126 | there is no peak iff no count is positive; otherwise the peak is positive, is a sample's count, and is at least every count |
| Stats.Average | src/pages/Index.tsx:127-128 | there is no average iff no count is positive; otherwise it is the mean of the positive counts rounded half up |
| Stats.SumBounds | src/pages/Index.tsx:127 | a sum of counts in `(0, hi]` lies between their number and their number times `hi` |
| Stats.AverageBelowPeak | src/pages/Index.tsx:122-128 | when defined, the rounded average is at least 1 and at most the peak |
| Stats.PositivesAppend | src/pages/Index.tsx:122-123 | the positives of a concatenation are the positives of each part, in order |
| Stats.SamePositives | src/pages/Index.tsx:122-128 | two series with the same positives have the same peak and the same average |
| Stats.NonPositiveIgnored | src/pages/Index.tsx:122-128 | inserting a sample with count zero or below at any position changes neither the positives, nor the peak, nor the average |
| Stats.FindTime | src/pages/Index.tsx:131 | `find(item => item.hashtags === p)?.time` is the time of the first sample with count `p`, and `None` iff there is none |
| Stats.PeakTime | src/pages/Index.tsx:131-132 | the peak time is `''` without a peak, and otherwise the time of the first sample whose count equals the peak |
| Buckets.ParseDigits | src/backend/DataAnalyzer.py:21 | `int()` rejects the empty string and reads a run of ASCII digits as its decimal value |
| Buckets.ParseNegative | src/backend/DataAnalyzer.py:21 | `int()` reads a minus sign followed by digits as the negated decimal value |
| Buckets.Pad2Shape | src/backend/DataAnalyzer.py:23 | `f"{n:02d}"` has at least two characters and starts with `-` exactly for negative `n` |
| Buckets.Bucket | src/backend/DataAnalyzer.py:21-23 | bucketing raises iff `int()` rejects the minute field `ts[14:16]`, and the error carries that field |
| Buckets.BucketKeyShape | src/backend/DataAnalyzer.py:21-23 | a bucket key keeps `ts[:14]` and follows it with text that `int()` reads back as the minute rounded down to a multiple of 10 |
| Buckets.Slice | src/backend/DataAnalyzer.py:21-23 | Python slicing clamps to the string's length and copies the characters in range |
| Buckets.Decimal | src/backend/DataAnalyzer.py:23 | the decimal rendering of a natural number is a non-empty digit string with that value |
| Buckets.BucketMinute | src/backend/DataAnalyzer.py:22 | `minute - minute % 10` is a multiple of 10, at most the minute and within 10 of it |
| Buckets.ParsePad2 | src/backend/DataAnalyzer.py:21-23 | `int(f"{n:02d}")` gives back `n` |
| Buckets.ParseIntRange | src/backend/DataAnalyzer.py:21 | `int()` of a field of at most two characters is between -9 and 99 |
| Buckets.Pad2Width | src/backend/DataAnalyzer.py:23 | `f"{n:02d}"` of a value in 0..99 has exactly two characters |
| Buckets.BucketOfWellFormed | src/backend/DataAnalyzer.py:21-23 | a timestamp with two digits at positions 14-15 buckets to its first 15 characters followed by `0`, a 16-character key |
| Buckets.BucketIdempotent | src/backend/DataAnalyzer.py:21-23 | bucketing a bucket key gives the same key |
| Buckets.CountReverse | src/backend/DataAnalyzer.py:18 | counting the rows in reverse gives every bucket the same count |
| Buckets.Collect | src/backend/DataAnalyzer.py:18-24 | the pass over the rows succeeds iff every row buckets, and then yields every row's bucket |
| Buckets.CollectReportsLastFailure | src/backend/DataAnalyzer.py:18-21 | since the rows are visited in reverse, the error raised is the one of the last row that does not bucket |
| Buckets.CountResults | src/backend/DataAnalyzer.py:14-25 | the `Counter` loop fails exactly as the bucket pass does, and otherwise counts every bucket and nothing else |
| Buckets.SortedItems | src/backend/DataAnalyzer.py:27 | `sorted(counts.items())` has strictly ascending keys, exactly the counter's keys, and each key's count |
| Buckets.Analyze | src/backend/DataAnalyzer.py:14-27 | the analysis fails with the bucket pass's error, and otherwise emits the sorted histogram of the buckets |
| Buckets.HistogramTotal | src/backend/DataAnalyzer.py:17-27 | the counts of a histogram sum to the number of bucketed rows |
| Buckets.AnalysisCountsEveryRow | src/backend/DataAnalyzer.py:17-27 | the emitted counts sum to the number of input rows |
| Seqs.Reverse | src/backend/ReverseCsv.py:14 | the reversed list has the same length and element `i` is element `n-1-i` of the input |
| Seqs.ReverseReverse | src/backend/ReverseCsv.py:14 | reversing twice gives back the list |
| TagMerge.VisitOrigin | src/backend/Combine.py:13-14 | the nested loop visits a `(tag, shortCode, timestamp)` iff some tag's mapping holds that post under that tag |
| TagMerge.PostTimestamp | src/backend/Combine.py:14 | a tag's mapping gives a timestamp for a short code iff some post has that code, and it is that post's timestamp |
| TagMerge.Find | src/backend/Combine.py:15-16 | reading `full_ds[short_code]` succeeds iff the code was inserted, and gives an entry with that code |
| TagMerge.Upsert | src/backend/Combine.py:15-19 | one visit keeps the set of codes in insertion order, appending the code only when it is new |
| TagMerge.UpsertFind | src/backend/Combine.py:15-19 | one visit leaves other codes untouched; a known code gets `",tag"` appended and the new timestamp; a new code gets `(tag, timestamp)` |
| TagMerge.MergeVisits | src/backend/Combine.py:12-19 | after merging, no short code appears more than once (presence of every visited code is `MergeOrder` and `MergeEntry`) |
| TagMerge.Merge | src/backend/Combine.py:12-19 | `full_ds` after the loop over all tag mappings holds each short code at most once |
| TagMerge.JoinEnds | src/backend/Combine.py:16 | the joined tags start with the first tag, followed by a comma when there are more, and end with the last tag |
| TagMerge.TagsOf | src/backend/Combine.py:13-17 | a code has no tags iff no visit carries it |
| TagMerge.LastTimestamp | src/backend/Combine.py:15-17 | the kept timestamp exists iff the code was visited under some tag |
| TagMerge.LastTimestampIsLastVisit | src/backend/Combine.py:15-17 | the kept timestamp is that of a visit of the code after which the code is not visited again |
| TagMerge.MergeEntry | src/backend/Combine.py:12-19 | a code's merged row is the comma-join of the tags that visited it, in order, with the timestamp of its last visit |
| TagMerge.MergeOrder | src/backend/Combine.py:12-30 | the merged rows are in the order in which each code was first seen |
| TagMerge.OwnVisitsOf | src/backend/Combine.py:13-14 | for one tag's mapping with distinct codes, a code gets that tag once and the mapping's timestamp |
| TagMerge.VisitsByDataset | src/backend/Combine.py:12-19 | the tags and timestamp a code collects over all visits are those of the datasets that contain it |
| TagMerge.MergedRow | src/backend/Combine.py:12-30 | a code has a merged row iff some tag's mapping contains it; the row joins those tags in processing order and takes the timestamp from the last of them |
| TagMerge.Unknown | src/backend/Combine.py:48-51 | the entries to add are exactly the merged entries whose code is not already in the CSV, each as many times as it occurs among them (so once, as `full_ds` has distinct codes) |
| TagMerge.UnknownAppend | src/backend/Combine.py:48-51 | the comprehension filters piecewise: filtering a concatenation filters each part in turn, so kept entries stay in input order |
| TagMerge.InsertByTime | src/backend/Combine.py:38 | inserting into a timestamp-sorted list keeps it sorted and adds exactly that entry |
| TagMerge.SortByTimestamp | src/backend/Combine.py:38 | `sorted(..., key=timestamp)` is ascending by timestamp and a permutation of its input |
| TagMerge.InsertStable | src/backend/Combine.py:38 | insertion puts the new entry after every entry with the same timestamp |
| TagMerge.SortStable | src/backend/Combine.py:38 | the sort is stable: entries with equal timestamps keep their input order |
| TagMerge.CombineCsvOrder | src/backend/Combine.py:27-54 | rows with equal timestamps are written in the order of `full_ds`, filtered by the known codes when appending, since `sorted` is stable |
| TagMerge.CombineCsv | src/backend/Combine.py:27-60 | with no CSV, it writes the header and all merged rows sorted; with a CSV, it appends only the unknown rows sorted by timestamp, or writes nothing iff every code is known |
| TagWindow.FirstKey | src/backend/Combine.py:78-80 | `sorted(data.keys())[0]` is a key of the file and not after any key |
| TagWindow.LastKey | src/backend/Combine.py:78-81 | `sorted(data.keys())[-1]` is a key of the file and not before any key |
| TagWindow.Starts | src/backend/Combine.py:70-81 | `start_times` holds exactly the first timestamps of the existing, non-empty files |
| TagWindow.Ends | src/backend/Combine.py:70-81 | `end_times` holds exactly the last timestamps of the existing, non-empty files |
| TagWindow.Latest | src/backend/Combine.py:83 | `max(xs) if xs else None` is absent iff the list is empty, and otherwise an element not before any element |
| TagWindow.Earliest | src/backend/Combine.py:84 | `min(xs) if xs else None` is absent iff the list is empty, and otherwise an element not after any element |
| TagWindow.CommonWindow | src/backend/Combine.py:79-84 | the window has a lower bound exactly when it has an upper bound, since each non-empty file adds one start and one end |
| TagWindow.LatestStartBound | src/backend/Combine.py:70-83 | the window starts at the latest of the per-tag first timestamps, and is open below iff no file has data |
| TagWindow.EarliestEndBound | src/backend/Combine.py:70-84 | the window ends at the earliest of the per-tag last timestamps, and is open above iff no file has data |
| TagWindow.AllTallies | src/backend/Combine.py:87-93 | the pairs visited are exactly those of the existing files |
| TagWindow.AllTalliesSum | src/backend/Combine.py:87-99 | every pair of every existing file is visited once: summing the visited counts for a timestamp gives the sum of the per-file sums, so a timestamp in several files collects each file's count |
| TagWindow.Aggregate | src/backend/Combine.py:99 | the accumulated map has exactly the visited timestamps, each with the sum of its counts |
| TagWindow.Keep | src/backend/Combine.py:93-98 | the loop keeps exactly the pairs whose timestamp passes the window test |
| TagWindow.SummedItems | src/backend/Combine.py:102 | the sorted items are strictly ascending by timestamp |
| TagWindow.SummedItemsContents | src/backend/Combine.py:99-102 | each item's timestamp occurs in the input with the item's count as its sum, and every input timestamp has an item |
| TagWindow.SumAtKeep | src/backend/Combine.py:93-99 | for a timestamp that passes the window test, filtering leaves its sum unchanged |
| TagWindow.KeptContents | src/backend/Combine.py:93-102 | the output holds exactly the passing timestamps, each with the sum of all its counts |
| TagWindow.Combined | src/backend/Combine.py:86-102 | the output for either window test is strictly ascending by timestamp |
| TagWindow.CombinedContents | src/backend/Combine.py:86-102 | for either window test, the output holds exactly the timestamps of the existing files that pass it, each with the sum of its counts over all files |
| TagWindow.CombineJson | src/backend/Combine.py:64-102 | the combined output is strictly ascending by timestamp (corrected bound test, see ## Findings) |
| TagWindow.CombineJsonContents | src/backend/Combine.py:86-102 | the output holds exactly the timestamps of the existing files that lie in the window, each with the sum of its counts over all files (corrected bound test, see ## Findings) |
| TagWindow.CombineJsonFileSums | src/backend/Combine.py:86-102 | each output count is the sum over the existing files of that file's counts for the timestamp (corrected bound test, see ## Findings) |
| TagWindow.CombineJsonWithinWindow | src/backend/Combine.py:83-98 | no output timestamp is before the latest start or after the earliest end (corrected bound test, see ## Findings) |
| TagWindow.CombineJsonAsWritten | src/backend/Combine.py:95-98 | the code as written, with truthiness guards, also gives strictly ascending output |
| TagWindow.AsWrittenAgreesWithoutEmptyKeys | src/backend/Combine.py:95-98 | when no timestamp is the empty string, the truthiness guards behave like the intended bound checks |
| TagWindow.AsWrittenEscapesWindow | src/backend/Combine.py:95-98 | on the files `{"": 1}` and `{"a": 2}` the window is `["a", ""]`; the code as written outputs `"a": 2`, which lies outside it, and the corrected code outputs nothing |
| ReverseCsv.ReverseCsv | src/backend/ReverseCsv.py:4-19 | empty input writes nothing; a non-empty header is written first and unchanged with all rows; an empty header row is dropped |
| ReverseCsv.RowsReversed | src/backend/ReverseCsv.py:12-19 | after the kept header, the data rows are the input rows 1..n in reverse order, and nothing else is written |
| ReverseCsv.ReverseTwice | src/backend/ReverseCsv.py:12-19 | reversing twice with a non-empty header gives back the original rows |

## Left out

- I/O of every kind is left out. This covers:
  - the JSON imports in `Index.tsx`;
  - the CSV and JSON reads and writes, and the directory creation, in the Python scripts;
  - `tqdm` progress bars and `print`.
  The model works on the data those reads produce and the data the writes would receive.
- The rendering part of `Index.tsx` is not modelled: React state, tooltip, charts and table.
- `Date` parsing, the total period in hours and `toLocaleString` formatting are left out: they depend on the JavaScript date library, the locale and floating point.
- Stats.Average: the counts in `Index.tsx` are IEEE doubles, while the model uses exact integers. The model agrees with `Math.round(sum / n)` as long as the sum stays below 2^52. In that range the sum and `n` are exact. A half-integer quotient is exact too. Any other quotient is at least `1/(2n)` away from the nearest half-integer, while the division's rounding error stays below `1/(2n)`, so the error cannot change the rounded result.
- `Math.max()` of nothing (`-Infinity`) and the `NaN` average of nothing are modelled as `None` rather than as IEEE values.
- Key order of the JSON objects is taken as file order. JavaScript puts integer-like keys first, which timestamps never are.
- String order compares Unicode scalar values. JavaScript's `sort()` compares UTF-16 code units. The two differ only when characters above U+FFFF are compared with characters in U+E000–U+FFFF, which never happens in timestamps.
- Timeline.TimeOf: `slice(11)` counts UTF-16 code units, while the model counts characters. The two differ when a character above U+FFFF appears among the first 11 positions, which never happens in timestamps.
- Buckets.ParseInt models Python's `int()` on a slice of at most two characters:
  - surrounding ASCII whitespace (including `\x1c`–`\x1f`) is accepted;
  - an optional sign is accepted;
  - ASCII digits are accepted.
  Non-ASCII Unicode digits and whitespace, and underscores between digits, are not accepted here, although Python would accept them.
- Buckets.Analyze: a row without a `timestamp` column is not modelled. Rows are their timestamp strings.
- Buckets.Analyze: the error is the offending two-character field. Python's `ValueError` carries more text.
- TagMerge.CombineCsv: the existing CSV is the set of its `shortCode` values. The rest of its content is not modelled.
- TagWindow.CombineJson: duplicate keys inside one JSON file, which `json.load` collapses to the last, are not collapsed. A file's pairs are taken as given.
- ReverseCsv: CSV quoting and line endings are not modelled. A row is a list of fields.
- The files `ApifyTagScraper.py`, `ApifyWeiboScraper.py`, `DummyDataChina.py`, `ScrapeAndAnalyze.py` and `ClearRunFiles.py` are not part of this model: they are network, clock, randomness and file-system code.
- A classifier of stationary and inflection points is not modelled: the page has no implementation of one.

## Findings

| source | as written | input that shows it | evidently intended | confidence | as-written member | corrected member |
|---|---|---|---|---|---|---|
| src/backend/Combine.py:95-98 | `if latest_start and ts < latest_start` / `if earliest_end and ts > earliest_end` test the bounds for truthiness, so an empty-string bound is ignored | two tag files `{"": 1}` and `{"a": 2}`: the window is from `"a"` to `""`, yet `"a": 2` is output | each bound applies whenever it exists (`is not None`), so nothing outside the window is output; here the output is empty | not executed | TagWindow.CombineJsonAsWritten | TagWindow.CombineJson |
