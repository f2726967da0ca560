# spend-sense: the utilization timeline and customer selection, in Dafny

This project models the two algorithmic parts of spend-sense, a dashboard of
per-customer credit utilization.

**Customer card (front end).** `CustomerCard` turns a customer's raw
transaction records into a timeline of `(date, availableMoney, utilization)`
points. A record is kept only when it has a numeric `availableMoney` and a
string or `Date` `transactionDateTime`. Utilization is the share of the credit
limit in use, never below 0, and 0 for a limit that is not positive.
`makeBuckets` then compresses the timeline into at most 120 buckets for the
colour strip. It cuts the timeline into contiguous windows of
`ceil(len / min(maxBuckets, len))` points. Each window becomes one bucket: the
running maximum of its utilizations (starting at 0) and the date of its last
point with a numeric utilization. `colorForUtilHex` classifies a utilization
into four tiers at 0.3, 0.5 and 0.8. Here it returns an enumerated tier, not a
hex colour.

**Customer selection (back end).** `get_customers` summarises each customer's
CSV file into a transaction count, the whole days between the first and last
transaction, and the total of the positive amounts. It skips every file that
fails a threshold which is given and truthy in Python's sense. It then returns
one page of the remaining summaries and the page count.

Modules: `Options` (shared Option/Result), `Arith` (shared arithmetic helpers), `Severity` (the tiers), `Timeline`
(the mapper), `Bucketing` (`makeBuckets`), `CustomerCard` (the card's data
path), `Pagination` (Python slicing and floor division) and `CustomerSelection`
(the selection loop and `get_customers`).

Three behaviours of the code are worth knowing:

- The bucket date is the date of the last numeric point of the window, not of
  the point that reached the maximum. `Bucketing.DateIsNotOfPeak` shows a
  window where the two differ.
- String dates are passed through unchanged, not normalised to ISO-8601.
- The bucket count is 0 only when no window has a numeric point. For the
  card's own timeline this means exactly "the timeline is empty"
  (`CustomerCard.Card`).

## Model

| member | source | states |
|---|---|---|
| `Severity.Classify` | frontend/src/components/CustomerCard.jsx:16-21 | critical iff u ≥ 0.8, high iff 0.5 ≤ u < 0.8, moderate iff 0.3 ≤ u < 0.5, low iff u < 0.3; each bound belongs to the higher tier |
| `Severity.ClassifyIsHighestReached` | frontend/src/components/CustomerCard.jsx:16-21 | the tier is the highest tier whose lower bound u reaches (both directions) |
| `Severity.ClassifyMonotone` | frontend/src/components/CustomerCard.jsx:16-21 | a larger utilization never gets a lower tier |
| `Timeline.Utilization` | frontend/src/components/CustomerCard.jsx:54-62 | utilization ≥ 0; 0 when the limit is not positive; otherwise utilization × limit equals the amount used (limit − available, or 0 when available ≥ limit), so it is 0 when available ≥ limit, 1 when available is 0, and ≤ 1 when available ≥ 0 |
| `Timeline.UtilizationAntitone` | frontend/src/components/CustomerCard.jsx:54-55 | more available money never gives a higher utilization |
| `Timeline.Kept` | frontend/src/components/CustomerCard.jsx:47-51 | definition: the record is an object with a numeric `availableMoney` and a string or `Date` `transactionDateTime`; `KeptEntriesExact` proves the filter keeps exactly these |
| `Timeline.ToPoint` | frontend/src/components/CustomerCard.jsx:53-64 | definition: the point of one kept record; `TimelinePointsFromRecords` states its date, amount and utilization |
| `Timeline.KeptEntries` | frontend/src/components/CustomerCard.jsx:46-52 | the filter never lengthens the input; every record it keeps is well-formed and comes from the input |
| `Timeline.KeptEntriesExact` | frontend/src/components/CustomerCard.jsx:46-52 | a record is kept iff it is in the input and has a numeric amount and a string or `Date` timestamp |
| `Timeline.KeptEntriesAppend` | frontend/src/components/CustomerCard.jsx:46-52 | filtering distributes over concatenation, so kept records stay in input order |
| `Timeline.TimelineOf` | frontend/src/components/CustomerCard.jsx:44-65 | a non-array gives `[]`; the timeline is never longer than the input; every point's utilization is ≥ 0 |
| `Timeline.TimelineAppend` | frontend/src/components/CustomerCard.jsx:44-65 | the timeline of two runs of records is the first run's timeline followed by the second's (order preserved) |
| `Timeline.DropOneKept` | frontend/src/components/CustomerCard.jsx:46-52 | the kept records split around any one record; removing a malformed record changes nothing |
| `Timeline.DropOne` | frontend/src/components/CustomerCard.jsx:44-65 | removing a malformed record leaves the timeline unchanged; removing a well-formed one shortens it by exactly one |
| `Timeline.TimelinePointsFromRecords` | frontend/src/components/CustomerCard.jsx:53-64 | each point comes from a kept input record: string dates copied, `Date`s through the ISO serialiser, amount copied, utilization from the amount and the limit |
| `Timeline.KeptRecordsReachTimeline` | frontend/src/components/CustomerCard.jsx:44-64 | every well-formed input record appears as its point in the timeline |
| `Bucketing.Windows` | frontend/src/components/CustomerCard.jsx:28-29 | definition: the windows `points.slice(i, i + size)` for i = 0, size, 2·size, …; `WindowsPartition` and `WindowStart` state their content |
| `Bucketing.Peak` | frontend/src/components/CustomerCard.jsx:30-34 | definition: the running maximum from 0 over the numeric utilizations; `PeakIsMaximum` states it is max(0, their largest) |
| `Bucketing.Reduce` | frontend/src/components/CustomerCard.jsx:30-38 | definition: one window's bucket, or none without `any`; `ReduceSomeIff` and `DateIsNotOfPeak` state its behaviour |
| `Bucketing.Buckets` | frontend/src/components/CustomerCard.jsx:23-41 | definition: what `makeBuckets` returns, `[]` for an absent or empty input; `MakeBuckets` is proved equal to it and `BucketCount` bounds it |
| `Bucketing.WindowSize` | frontend/src/components/CustomerCard.jsx:25-26 | the window size lies between 1 and the number of points |
| `Bucketing.WindowSizeIsCeiling` | frontend/src/components/CustomerCard.jsx:25-26 | the window size is the ceiling of len / min(maxBuckets, len): (size − 1)·n < len ≤ size·n |
| `Bucketing.LastMeasured` | frontend/src/components/CustomerCard.jsx:31-36 | the point remembered as `any` always has a numeric utilization |
| `Bucketing.Bucketize` | frontend/src/components/CustomerCard.jsx:28-39 | no more buckets than windows |
| `Bucketing.ReduceWindow` | frontend/src/components/CustomerCard.jsx:30-37 | the inner loop computes the running maximum from 0 and the last numeric point, that is, the window's bucket or none |
| `Bucketing.MakeBuckets` | frontend/src/components/CustomerCard.jsx:23-41 | returns the buckets of the windows in order; `[]` for an absent or empty input; at most min(maxBuckets, len) buckets |
| `Bucketing.WindowsPartition` | frontend/src/components/CustomerCard.jsx:28-29 | the windows concatenate back to the input; each holds 1 to size points, all but the last exactly size; their count c satisfies (c − 1)·size < len ≤ c·size |
| `Bucketing.WindowStart` | frontend/src/components/CustomerCard.jsx:28-29 | window k starts at k·size, below the length, and ends size later or at the end |
| `Bucketing.BucketCount` | frontend/src/components/CustomerCard.jsx:25-29 | there are at most min(maxBuckets, len) windows and at most that many buckets |
| `Bucketing.PeakIsMaximum` | frontend/src/components/CustomerCard.jsx:30-34 | a bucket's level is ≥ 0 and ≥ every numeric utilization in the window, and is either 0 or one of them |
| `Bucketing.LastMeasuredIsLast` | frontend/src/components/CustomerCard.jsx:31-36 | no point is remembered iff no point is numeric; otherwise the remembered point is numeric and every later point is not |
| `Bucketing.ReduceSomeIff` | frontend/src/components/CustomerCard.jsx:31-38 | a window yields a bucket iff it holds a point with a numeric utilization |
| `Bucketing.DateIsNotOfPeak` | frontend/src/components/CustomerCard.jsx:34-38 | for the window (a: 0.9, b: 0.1) the bucket is 0.9 dated b: the date is the last point's, not the maximum's |
| `Bucketing.BucketizeComplete` | frontend/src/components/CustomerCard.jsx:38 | buckets and windows are equally many iff every window yields a bucket, and then bucket k is window k's |
| `CustomerCard.Samples` | frontend/src/components/CustomerCard.jsx:68 | definition: the timeline handed to `makeBuckets`, every point with its numeric utilization and date |
| `CustomerCard.Card` | frontend/src/components/CustomerCard.jsx:44-68 | the timeline is the mapper's; there is data iff the timeline is non-empty; the buckets are `makeBuckets(timeline, 120)`, at most 120 and at most one per point, and none iff there is no data; each bucket's tier is its classification |
| `CustomerCard.StripCoversTimeline` | frontend/src/components/CustomerCard.jsx:23-41 | on a non-empty timeline there is one bucket per window, 1 to 120 of them; bucket k covers points k·size up to k·size + size (or the end) and holds their maximum and the last one's date |
| `CustomerCard.WindowBuckets` | frontend/src/components/CustomerCard.jsx:28-38 | a timeline yields one bucket per window, and bucket k is the bucket of points k·size to min(k·size + size, len) − 1 |
| `CustomerCard.SliceBucket` | frontend/src/components/CustomerCard.jsx:29-38 | a non-empty stretch of timeline points reduces to the bucket of their maximum and the last one's date |
| `CustomerCard.FullWindowBucket` | frontend/src/components/CustomerCard.jsx:30-38 | a non-empty window of non-negative numeric points yields a bucket with its maximum and its last date |
| `CustomerCard.TwoPointsPerBucket` | frontend/src/components/CustomerCard.jsx:25-38 | 240 points on the 120-bucket strip give 120 buckets; bucket k is the larger of points 2k and 2k + 1, dated by 2k + 1 |
| `CustomerCard.SingleSnapshotScenarios` | frontend/src/components/CustomerCard.jsx:44-68 | a card with one well-formed record and limit 1000 has a one-point timeline and one bucket with that point's utilization and date; available 1000 gives 0 (low), available 0 gives 1 (critical), available 1500 gives 0 (low) |
| `Pagination.FloorDiv` | backend/main.py:91 | the quotient is rounded toward negative infinity for either sign of the divisor |
| `Pagination.PySlice` | backend/main.py:90 | a slice is never longer than the sequence; with 0 ≤ start ≤ end ≤ len it is `s[start..end]`; it is empty when start ≥ len, end ≤ −len, or 0 ≤ end ≤ start |
| `Pagination.PySliceBounds` | backend/main.py:90 | a negative bound down to −len counts from the end, a bound below −len acts as 0, and a bound past the end acts as len |
| `Pagination.PageData` | backend/main.py:88-90 | definition: the slice `[(page − 1)·pageSize : (page − 1)·pageSize + pageSize]`; its content is stated by `PageIsStretch` |
| `Pagination.Paginate` | backend/main.py:87-91 | the call fails with a division by zero iff pageSize is 0 |
| `Pagination.TotalPagesIsCeiling` | backend/main.py:87-91 | for pageSize ≥ 1: totalPages ≥ 0, it is 0 iff nothing was selected, and otherwise it is ceil(total / pageSize) |
| `Pagination.PageIsStretch` | backend/main.py:88-90 | for page ≥ 1: the page is the stretch of pageSize summaries from (page − 1)·pageSize, cut at the end, or empty past it; it never holds more than pageSize |
| `Pagination.PageNonEmptyIff` | backend/main.py:88-91 | a page is non-empty iff its number is at most the page count |
| `Pagination.PagesThroughPrefix` | backend/main.py:88-90 | pages 1..k concatenated are the first k·pageSize summaries, or all of them |
| `Pagination.PagesCoverAll` | backend/main.py:87-91 | pages 1..totalPages concatenated in order are exactly the selected summaries |
| `Pagination.OnExactlyOnePage` | backend/main.py:88-89 | index j falls in page q's stretch iff q = j / pageSize + 1 |
| `Pagination.FoundOnItsPage` | backend/main.py:88-91 | summary j is at position j mod pageSize of page j / pageSize + 1, and that page is within the page count |
| `CustomerSelection.Latest` | backend/main.py:61 | definition: the `max()` of the time column; `TimeBounds` states it is the attained maximum |
| `CustomerSelection.Earliest` | backend/main.py:61 | definition: the `min()` of the time column; `TimeBounds` states it is the attained minimum |
| `CustomerSelection.TimeBounds` | backend/main.py:61 | `Latest` and `Earliest` are the largest and smallest transaction times of the file |
| `CustomerSelection.DaysWindow` | backend/main.py:61 | the window is the number of whole days between the first and last transaction, ≥ 0 |
| `CustomerSelection.PositiveSpend` | backend/main.py:62 | the spend is ≥ 0 |
| `CustomerSelection.PositiveSpendAppend` | backend/main.py:62 | the spend of two runs of rows is the sum of their spends |
| `CustomerSelection.OnlyPositiveAmountsCount` | backend/main.py:62 | a zero or negative amount does not change the spend; a positive one adds exactly itself |
| `CustomerSelection.StatsOf` | backend/main.py:60-62 | a non-empty file has ≥ 1 transaction, a window ≥ 0 and a spend ≥ 0 |
| `CustomerSelection.Passes` | backend/main.py:64-69 | definition: none of the three `if <threshold> and <figure> < <threshold>` tests fires; `PassesIffAtLeast` states what that means |
| `CustomerSelection.SummaryOf` | backend/main.py:71-85 | definition: the first row's id, `creditLimit` (default 0) and `acqCountry` (default ""), and every row's time, available money and amount |
| `CustomerSelection.Selected` | backend/main.py:54-85 | definition: the summaries of the non-empty files that pass, in file order; `SelectedMembers` and `SelectedAppend` state its content and order |
| `CustomerSelection.PassesIffAtLeast` | backend/main.py:64-69 | since the figures are non-negative, passing the truthiness tests is the same as meeting each threshold with a missing one read as 0; a threshold of None or 0 imposes nothing (both directions) |
| `CustomerSelection.SelectCustomers` | backend/main.py:54-85 | the loop returns the summaries of the non-empty files that pass the thresholds, in file order |
| `CustomerSelection.GetCustomers` | backend/main.py:46-96 | the response is the requested page of the selected summaries and the page count; it fails iff pageSize is 0 |
| `CustomerSelection.SelectedAppend` | backend/main.py:54-85 | selecting from two runs of files gives the first run's selection followed by the second's |
| `CustomerSelection.SelectedMembers` | backend/main.py:54-85 | at most one summary per file; a summary is returned iff some non-empty file that passes yields it |
| `CustomerSelection.NoThresholdKeepsAll` | backend/main.py:57-69 | with no truthy threshold, the summary of every non-empty file is returned, whatever other files (header-only ones included) the directory holds |

## Left out

- React rendering is not modelled: the `Card` wrapper, the chart, the tooltips, the grid template, and `toFixed` and `toLocaleDateString` formatting. This is presentation only.
- The tier-to-hex mapping of `colorForUtilHex` is not modelled. The model returns the tier, and the colour is a presentation detail.
- Python floats on the back end are modelled as exact reals: `availableMoney`, `transactionAmount`, `creditLimit`, the spend total (main.py:62) and `min_spend` (main.py:50, 68). The rounding of the spend sum is not modelled. A float sum can fall on the other side of `spend < min_spend` from the exact sum, so a customer at the boundary may be selected differently.
- JavaScript numbers are modelled as exact reals. NaN, Infinity, rounding, and the `Number.isFinite` branch (which cannot fire on reals) are out. The thresholds 0.8, 0.5 and 0.3 are exact, not their nearest doubles.
- `Date.prototype.toISOString` is a foreign call. It is the parameter `toIso`, and a `Date` is modelled by its integer timestamp. An invalid `Date`, whose `toISOString` throws, is not modelled.
- A credit limit that is not a number is not modelled; the limit is a real.
- Bucketing.MakeBuckets: requires an integer `maxBuckets` ≥ 1. With 0 the window size is Infinity and the loop runs once over the whole array, giving at most one bucket. With a negative value the step is not positive and the loop never ends. The only caller passes 120.
- Bucketing.MakeBuckets: the elements of `points` are either numeric-utilization points or "anything else" (`Unmeasured`). JavaScript values are not modelled beyond that.
- frontend/src/pages/CustomerDashboard.jsx is not part of this model. It holds fetch, React state and effects, form handling and the page-button clamps.
- Python's `page ≤ 0` and negative page sizes are modelled (slice bounds wrap and clamp as Python's do). The page properties are proved only for page ≥ 1 and pageSize ≥ 1.
- CSV reading and parsing with pandas, including NaN amounts and unparseable dates, is out. Each file is a sequence of already parsed rows, in glob order. Only `creditLimit` and `acqCountry`, which main.py:72-73 reads with a default, may be missing: they are `None` in every row.
- Missing columns make the source raise, and the request fails, at different points. Every `Row` has these columns, so none of these failure paths is modelled:
  - A file without `transactionDateTime` always fails, in `read_csv` (main.py:56).
  - A file with rows but without `transactionAmount` fails at main.py:62. A header-only file is skipped at main.py:57-58 before that.
  - A file without `customerId` or `availableMoney` fails only if it passes the thresholds (main.py:71 and 78). A file that fails a threshold is skipped without error.
- A zero-byte CSV file makes `read_csv` raise at main.py:56, so the request fails. The model's empty file (`rows == []`) is a header-only file, which the source skips.
- CustomerSelection.SummaryOf: keeps the file's row order and integer-second timestamps. The source sorts the rows by time with `sort_values` and formats times with `strftime`; neither is modelled.
- Timestamps are whole seconds, so sub-second parts of the time window are out.
- FastAPI, CORS, the startup hook, `JSONResponse`, `build_index` and backend/cache_index.py are file and HTTP I/O and are not modelled.
