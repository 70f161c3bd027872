# Keepa product history analyzer, modelled in Dafny

This project models `ProductAnalyzer`, the helper class of the Keepa API
backend that answers queries over a product's price or value history. A
history is a flat `int[]` csv. Each record is `(time, value)`. When the csv
type carries shipping costs, each record is `(time, value, shipping)`.
Times are Keepa time minutes, and a value of `-1` means out of stock or
unknown. The *landing price* of a record is its value plus its shipping
cost. A negative value passes through unchanged, and a negative shipping
cost counts as 0.

The model has six modules:

- `Wrappers` holds `Option`. A Java `null` array is `None`, and a `null`
  `Boolean` result is `None`.
- `CsvFormat` defines the csv type, reduced to the two flags the analyzer
  reads (`isWithShipping` and `isPrice`). It also defines the landing price
  and the decoding of a flat csv into a sequence of `Record`s, with lemmas
  on how the flat indices used by the Java loops map to decoded records.
- `PointLookup` specifies the step-function lookups over decoded records:
  the value in force at a time, the raw price and shipping pair, and the
  closest known value.
- `ExtremeFinder` specifies the extreme finder. It turns the records into
  candidates for the window `[start, end)` and folds them into the four
  result slots.
- `Availability` specifies the out-of-stock test and the out-of-stock
  percentage of a window.
- `ProductAnalyzer` holds the operations in the shape of the Java class:
  - The pure accessors are functions.
  - The index-stepping lookups and scans are methods with `while` loops.
  - The extreme finder updates its four-slot `array<int>` in place.
  - Each method is proved against the specification functions. Lemmas
    connect the flat-index loop specifications to the record-level ones.

A csv is *well formed* when its length is a whole number of records. The
methods that loop over a csv require this. The point lookups, the stock
test and the extreme finder also handle a `null` or short csv, as the
source does.

Three behaviours of the source are easy to misread:

- The percentage query accumulates the *in-stock* time (records whose value
  is not `-1`). It returns `100 - floor(inStock * 100 / window)`, and 100
  when no in-stock time was counted. It does not accumulate the
  out-of-stock time, and a window without any in-stock record gives 100,
  not 0.
- The extreme finder adds the shipping cost to every value that is not
  exactly `-1` (`ExtremeFinder.CandidateValue`). The landing price used
  elsewhere leaves every negative value unchanged. The two differ only for
  values below `-1`, which the format does not produce.
- When `time` precedes the first record, `getClosestValueAtTime` starts from
  the first record instead of answering `-1`.

## Model

| member | source | states |
|---|---|---|
| CsvFormat.LandingPrice | src/main/java/com/keepa/api/backend/helper/ProductAnalyzer.java:126-128 | the landing price is negative exactly when the value is; a negative value passes through; otherwise it is the value plus a known shipping cost, and a negative shipping cost adds nothing |
| CsvFormat.FirstRecord | src/main/java/com/keepa/api/backend/helper/ProductAnalyzer.java:26 | a non-empty well-formed csv has a first record made of its first integers, so `csv[0]` is the first time |
| CsvFormat.LastRecord | src/main/java/com/keepa/api/backend/helper/ProductAnalyzer.java:141-143 | the last decoded record of a non-empty well-formed csv is made of its last `width` integers |
| CsvFormat.TwoRecords | src/main/java/com/keepa/api/backend/helper/ProductAnalyzer.java:20 | a well-formed csv holds at least two records exactly when its length is at least two widths (6 with shipping, 4 without) |
| CsvFormat.LastTwoRecords | src/main/java/com/keepa/api/backend/helper/ProductAnalyzer.java:98-104 | the last two decoded records are made of the last two widths of integers, which are the indices `getDeltaLast` reads |
| CsvFormat.RecordsAppend | src/main/java/com/keepa/api/backend/helper/ProductAnalyzer.java:35 | decoding a well-formed prefix and the rest separately gives the same records as decoding them together, so stepping by the record width visits the records in order |
| PointLookup.LeadCount | src/main/java/com/keepa/api/backend/helper/ProductAnalyzer.java:158-159 | the leading records counted are all dated at or before `time`, and the record after them is dated after `time` |
| PointLookup.LeadCountSorted | src/main/java/com/keepa/api/backend/helper/ProductAnalyzer.java:158-159 | on a sorted history a record is dated at or before `time` exactly when it is one of the leading records |
| PointLookup.ValueAt | src/main/java/com/keepa/api/backend/helper/ProductAnalyzer.java:162 | the value at a time before the first record, or in an empty history, is -1 |
| PointLookup.ValueAtInForce | src/main/java/com/keepa/api/backend/helper/ProductAnalyzer.java:153-171 | on a sorted history the value at `time` is the landing price of the record whose interval `[time_j, time_j+1)` contains `time`, and the last record's interval never ends |
| PointLookup.PriceAndShippingAt | src/main/java/com/keepa/api/backend/helper/ProductAnalyzer.java:191 | the pair is always two integers, and it is `[-1, -1]` before the first record |
| PointLookup.PriceAndShippingAtInForce | src/main/java/com/keepa/api/backend/helper/ProductAnalyzer.java:180-194 | on a sorted history the pair at `time` is the raw price and shipping cost of the record whose interval `[time_j, time_j+1)` contains `time` |
| PointLookup.PriceAndShippingAtLanding | src/main/java/com/keepa/api/backend/helper/ProductAnalyzer.java:180-194 | the landing price of the pair at `time` equals the value at `time` |
| PointLookup.FirstKnown | src/main/java/com/keepa/api/backend/helper/ProductAnalyzer.java:245-247 | the record found is the first from `j` on whose value is not -1, or the last record; every record skipped is out of stock |
| PointLookup.ClosestInForce | src/main/java/com/keepa/api/backend/helper/ProductAnalyzer.java:239-243 | when the record in force at `time` is not out of stock, the closest value equals the value at `time` |
| PointLookup.ClosestSkipsUnknown | src/main/java/com/keepa/api/backend/helper/ProductAnalyzer.java:239-265 | the closest value is -1 exactly when every record from the start record on is out of stock; otherwise it is the landing price of a record that is not, and every record skipped before it is out of stock |
| PointLookup.ClosestSwapReportsShipping | src/main/java/com/keepa/api/backend/helper/ProductAnalyzer.java:225-228 | an out-of-stock single record with shipping, queried before its time, is reported at its shipping cost, where its own landing price is -1 |
| PointLookup.ClosestSwapAgreesWhenKnown | src/main/java/com/keepa/api/backend/helper/ProductAnalyzer.java:225-228 | when the single record's price and shipping are both known, the swapped read gives the record's own landing price `price + shipping`, so the swap shows only for a negative price or shipping |
| ExtremeFinder.Candidates | src/main/java/com/keepa/api/backend/helper/ProductAnalyzer.java:35-80 | on a non-empty window every candidate is reported at a time inside `[from, end)`, and there is at most one candidate per record |
| ExtremeFinder.CandidateSource | src/main/java/com/keepa/api/backend/helper/ProductAnalyzer.java:41-77 | every candidate is the price of a record that is not out of stock, starts before `end`, and either starts at or after `from`, is the last record, or is followed by a record dated at or after `from` (under `AtOrAfter`, so possibly ending exactly at `from`); it is reported at the record's time, or at `from` when the record starts earlier. So `-1` records are never candidates |
| ExtremeFinder.CandidateOf | src/main/java/com/keepa/api/backend/helper/ProductAnalyzer.java:57-77 | on a sorted history every record that is not out of stock and that the rule admits is a candidate, at its own time or, when it starts earlier, at `from` |
| ExtremeFinder.Fold | src/main/java/com/keepa/api/backend/helper/ProductAnalyzer.java:47-56 | after the scan, every candidate's price lies between the minimum and maximum slots, and the slots only widen: the minimum slot never rises and the maximum slot never falls from its start |
| ExtremeFinder.FoldMinWitness | src/main/java/com/keepa/api/backend/helper/ProductAnalyzer.java:48-51 | the minimum slot either keeps its start, or holds the time and price of a candidate that lowered it, with every earlier candidate strictly higher: ties keep the earliest |
| ExtremeFinder.FoldMaxWitness | src/main/java/com/keepa/api/backend/helper/ProductAnalyzer.java:53-56 | the maximum slot either keeps its start, or holds a candidate with every earlier candidate strictly lower: ties keep the earliest |
| ExtremeFinder.WindowStart | src/main/java/com/keepa/api/backend/helper/ProductAnalyzer.java:29-30 | the clamped window start is never before `start` nor before the first record's time |
| ExtremeFinder.ExtremePoints | src/main/java/com/keepa/api/backend/helper/ProductAnalyzer.java:19-27 | all four slots are -1 for a null csv, an empty window, fewer than two records, or a first record dated after `end`; a reported minimum is always below `Integer.MAX_VALUE` |
| ExtremeFinder.ExtremesCover | src/main/java/com/keepa/api/backend/helper/ProductAnalyzer.java:38-77 | on a sorted csv passing the early checks, the price of every record that is not out of stock and that the rule admits lies between the scanned minimum and maximum, and a result is then reported; under the corrected rule `After` the records admitted are those starting before `end` whose interval `[time_j, time_j+1)` does not end at or before `start`, the last record's interval never ending, and a record replaced at its own time (the next record has the same date) still counts when that date lies in `[start, end)`, as line 47 admits it |
| ExtremeFinder.StaleRecordAtStart | src/main/java/com/keepa/api/backend/helper/ProductAnalyzer.java:63 | as written (`AtOrAfter`), the csv `[0, 10, 100, 20]` over `[100, 200)` reports the minimum 10 at time 100, although the record priced 10 ends at 100 and only 20 is in force in the window; the corrected rule reports 20 |
| ExtremeFinder.CandidateInForce | src/main/java/com/keepa/api/backend/helper/ProductAnalyzer.java:57-77 | under the corrected rule, on a non-empty window, a candidate reported at `from` for a record that starts earlier carries the price in force at `from`: the record is the last one, or the next record starts strictly after `from` |
| ExtremeFinder.FoldReportsFirst | src/main/java/com/keepa/api/backend/helper/ProductAnalyzer.java:47-77 | once the minimum slot was lowered, the slots hold the first candidate with the lowest price and the first with the highest, both at times inside the window, and the minimum is not above the maximum |
| ExtremeFinder.ExtremesWitness | src/main/java/com/keepa/api/backend/helper/ProductAnalyzer.java:29-82 | a found result reports the first extremes of the window's candidates, with both times in `[max(start, firstTime), end)` |
| Availability.OutOfStockInExactly | src/main/java/com/keepa/api/backend/helper/ProductAnalyzer.java:398-403 | on a sorted history the scan answers true exactly when some record dated strictly inside `(start, end)` is out of stock |
| Availability.OutOfStockInInterval | src/main/java/com/keepa/api/backend/helper/ProductAnalyzer.java:391-395 | the answer is null exactly when the csv is null or shorter than two records, or, without shipping, when `start >= end` |
| Availability.InStockScan | src/main/java/com/keepa/api/backend/helper/ProductAnalyzer.java:443-484 | the in-stock count only changes when the clamped window is not empty, so the final division never divides by zero |
| Availability.InStockScanBounded | src/main/java/com/keepa/api/backend/helper/ProductAnalyzer.java:443-484 | on a sorted history the scan either returns 0 early or counts an in-stock time between 0 and the window length |
| Availability.PercentOfWindow | src/main/java/com/keepa/api/backend/helper/ProductAnalyzer.java:486-487 | a positive count no larger than the window is between 0 and 100 percent of it |
| Availability.PercentageBounds | src/main/java/com/keepa/api/backend/helper/ProductAnalyzer.java:486-492 | an early return of 0, or an in-stock count no larger than the window, gives a final result in `[0, 100]` |
| Availability.ScanPercentage | src/main/java/com/keepa/api/backend/helper/ProductAnalyzer.java:443-492 | on a sorted history, the scan of a window ending by `now` never divides by an empty window and gives a result in `[0, 100]` |
| Availability.InStockTimeAfter | src/main/java/com/keepa/api/backend/helper/ProductAnalyzer.java:448-449 | on a sorted history, records dated at or after the end of the window add no in-stock time |
| Availability.ScanIsInStockTime | src/main/java/com/keepa/api/backend/helper/ProductAnalyzer.java:443-484 | on a sorted history, with the window ending by `now` and the count still 0 while the scan is before the window, a scan that does not return early adds exactly the reference in-stock time `InStockTime`: for every record that is not out of stock, the part of `[time_j, time_j+1)` inside the window, the last record's interval ending at the window's end |
| Availability.PercentageOfInStockTime | src/main/java/com/keepa/api/backend/helper/ProductAnalyzer.java:419-492 | once the early checks pass, on a sorted history, the percentage is 0 on an early return, and otherwise `100 - floor(inStockTime * 100 / window)` of the clamped window, or 100 when the in-stock time is 0 |
| Availability.PercentageInRange | src/main/java/com/keepa/api/backend/helper/ProductAnalyzer.java:419-493 | on a sorted history the percentage is -1 exactly when an early check fails, and otherwise lies in `[0, 100]` |
| ProductAnalyzer.GetLast | src/main/java/com/keepa/api/backend/helper/ProductAnalyzer.java:122-132 | the last value is -1 for a null or empty csv |
| ProductAnalyzer.GetLastTime | src/main/java/com/keepa/api/backend/helper/ProductAnalyzer.java:141-143 | the last time is -1 for a null or empty csv |
| ProductAnalyzer.GetLastPriceAndShipping | src/main/java/com/keepa/api/backend/helper/ProductAnalyzer.java:203-206 | the pair is always two integers, and it is `[-1, -1]` for a null csv or one shorter than three integers |
| ProductAnalyzer.LastAccessorsReadLastRecord | src/main/java/com/keepa/api/backend/helper/ProductAnalyzer.java:122-143 | on a well-formed non-empty csv, `getLast` is the landing price and `getLastTime` the time of the last decoded record; with shipping, `getLastPriceAndShipping` is that record's price and shipping, whose landing price is `getLast` |
| ProductAnalyzer.ValueAtLastTime | src/main/java/com/keepa/api/backend/helper/ProductAnalyzer.java:153-171 | on a sorted history the value at the last record's time is the last value |
| ProductAnalyzer.GetDeltaLastAsWritten | src/main/java/com/keepa/api/backend/helper/ProductAnalyzer.java:93-113 | the delta is 0 for a null csv or one with fewer than two records |
| ProductAnalyzer.DeltaLastIsRecordDelta | src/main/java/com/keepa/api/backend/helper/ProductAnalyzer.java:93-113 | the corrected delta is the landing price of the last record minus that of the one before, and 0 when there are fewer than two records or either is out of stock |
| ProductAnalyzer.DeltaLastAsWrittenCountsOutOfStock | src/main/java/com/keepa/api/backend/helper/ProductAnalyzer.java:95 | with shipping, an out-of-stock last record with a known shipping cost gives the negative delta `-1 - landing(previous)` where the reference delta is 0 |
| ProductAnalyzer.SkipToTime | src/main/java/com/keepa/api/backend/helper/ProductAnalyzer.java:155-159 | the search loop stops at the flat index of the first record dated after `time`, and the records before it are exactly the leading records |
| ProductAnalyzer.GetValueAtTime | src/main/java/com/keepa/api/backend/helper/ProductAnalyzer.java:153-171 | the method returns the value in force at `time` in the decoded history |
| ProductAnalyzer.GetPriceAndShippingAtTime | src/main/java/com/keepa/api/backend/helper/ProductAnalyzer.java:180-194 | the method returns the raw pair in force at `time` in the decoded history |
| ProductAnalyzer.GetClosestValueAtTime | src/main/java/com/keepa/api/backend/helper/ProductAnalyzer.java:215-266 | the method returns the value as the source computes it, including the swapped single-record read, and outside that case it returns the closest known value of the decoded history |
| ProductAnalyzer.ClosestFromWithShipping | src/main/java/com/keepa/api/backend/helper/ProductAnalyzer.java:239-253 | from the start record, the forward loop returns the landing price of the first record that is not out of stock, or of the last record |
| ProductAnalyzer.ClosestFromWithoutShipping | src/main/java/com/keepa/api/backend/helper/ProductAnalyzer.java:254-265 | the same forward loop without shipping returns the first known value from the start record, or the last value |
| ProductAnalyzer.TrackInPlace | src/main/java/com/keepa/api/backend/helper/ProductAnalyzer.java:47-56 | updating the result array in place tracks one candidate: a strictly lower price replaces the minimum and its time, a strictly higher one the maximum and its time |
| ProductAnalyzer.TrackWindow | src/main/java/com/keepa/api/backend/helper/ProductAnalyzer.java:35-80 | the loop leaves in the result array the flat-index scan of the window, started from the array's previous contents |
| ProductAnalyzer.ExtremeScanAtIsFold | src/main/java/com/keepa/api/backend/helper/ProductAnalyzer.java:35-80 | the loop over flat indices computes the fold of the decoded records' candidates |
| ProductAnalyzer.ExtremePointsOfScan | src/main/java/com/keepa/api/backend/helper/ProductAnalyzer.java:82-83 | once the early checks pass, the result is the scanned slots, or all -1 when the minimum slot is still `Integer.MAX_VALUE` |
| ProductAnalyzer.GetExtremePointsInIntervalWithTime | src/main/java/com/keepa/api/backend/helper/ProductAnalyzer.java:19-84 | the method returns `[minTime, min, maxTime, max]` of the extreme points of the window |
| ProductAnalyzer.GetLowestAndHighest | src/main/java/com/keepa/api/backend/helper/ProductAnalyzer.java:276-279 | the method returns the minimum and maximum of the extreme points over `[0, Integer.MAX_VALUE)` |
| ProductAnalyzer.GetLowestAndHighestWithTime | src/main/java/com/keepa/api/backend/helper/ProductAnalyzer.java:288-290 | the method returns the extreme points over `[0, Integer.MAX_VALUE)` with their times |
| ProductAnalyzer.LowestAndHighestBracket | src/main/java/com/keepa/api/backend/helper/ProductAnalyzer.java:276-290 | over the whole history of a sorted csv of at least two records, all dated in `[0, Integer.MAX_VALUE)`, a result is found and the lowest and highest bracket the price of every record that is not out of stock and whose price is below `Integer.MAX_VALUE` |
| ProductAnalyzer.GetOutOfStockInInterval | src/main/java/com/keepa/api/backend/helper/ProductAnalyzer.java:390-406 | the method returns the out-of-stock answer of the decoded history: null on a short csv, or, without shipping, on an empty window (`start >= end`); otherwise the answer of the scan that skips records dated at or before `start` and stops at the first dated at or after `end`, which on a sorted history is whether some record dated strictly inside `(start, end)` is out of stock (`Availability.OutOfStockInExactly`) |
| ProductAnalyzer.StockScanAtIsInStockScan | src/main/java/com/keepa/api/backend/helper/ProductAnalyzer.java:443-484 | the percentage loop over flat indices computes the in-stock scan of the decoded records |
| ProductAnalyzer.PercentageOfScan | src/main/java/com/keepa/api/backend/helper/ProductAnalyzer.java:435-484 | once the early checks pass, the loop over the clamped window computes the scan the percentage is taken of |
| ProductAnalyzer.InStockLoop | src/main/java/com/keepa/api/backend/helper/ProductAnalyzer.java:443-484 | the loop returns the flat-index scan of the clamped window, and a non-zero count only when the window is not empty |
| ProductAnalyzer.GetOutOfStockPercentageInInterval | src/main/java/com/keepa/api/backend/helper/ProductAnalyzer.java:419-493 | the method returns the out-of-stock percentage of the clamped window; on a sorted history that is -1 or lies in `[0, 100]` (`Availability.PercentageInRange`), and when no early return fires it is taken of the window's in-stock time (`Availability.PercentageOfInStockTime`) |

## Left out

- `calcWeightedMean` is not part of this model. Its day weights are
  fractional doubles and its result depends on double rounding.
- Java `int` overflow is not modelled. This covers the landing-price
  additions, `c += s` in the extreme finder, and `nextDate - date` in the
  percentage loop. Integers are unbounded, and `Integer.MAX_VALUE` is the
  constant `CsvFormat.IntMax`.
- ExtremesCover: it states that a result is reported only for a record
  whose price is below `Integer.MAX_VALUE`, because the source uses that
  value as the "no minimum yet" marker.
- LowestAndHighestBracket: it requires every record to be dated in
  `[0, Integer.MAX_VALUE)` and the bracketed record's price to be below
  `Integer.MAX_VALUE`. Without the first, a record dated below 0 and
  followed by another record dated below 0 is not a candidate (lines 57-64),
  and a record dated at or after `Integer.MAX_VALUE` stops the scan (line 38),
  so the records after it are not scanned. A price of `Integer.MAX_VALUE` or
  more never lowers the minimum slot.
- GetOutOfStockPercentageInInterval: the result lies in `[0, 100]` only on a
  history whose times never decrease. On an unsorted csv the source can
  count more in-stock time than the window holds and return a negative
  percentage.
- GetOutOfStockPercentageInInterval: the floating-point division
  `floor(count * 100 / (double) (end - start))` is modelled as integer
  division. Both operands are non-negative and far below 2^53, so the two
  agree.
- GetLast: it requires two integers when the csv carries shipping and is
  not empty. The source throws an index exception on a shorter array.
- GetLastTime: it requires a whole record when the csv is not empty. The
  source throws an index exception on a shorter array.
- GetValueAtTime, GetPriceAndShippingAtTime, GetClosestValueAtTime,
  GetExtremePointsInIntervalWithTime, GetOutOfStockInInterval and
  GetOutOfStockPercentageInInterval require a csv whose length is a whole
  number of records. On a malformed csv the source reads past the end or
  uses a partial record, which is not modelled.
- GetValueAtTime, GetPriceAndShippingAtTime and GetClosestValueAtTime: the
  branches `i > csv.length` (lines 161, 190, 222, 248 and 261) and `i < 3`
  or `i < 2` (lines 249 and 262) are unreachable on a well-formed csv, so
  the methods do not contain them.
- GetClosestValueAtTime: the two forward loops of the source are split out
  as `ClosestFromWithShipping` and `ClosestFromWithoutShipping`.
- GetExtremePointsInIntervalWithTime: its loop is split out as
  `TrackWindow`.
- GetOutOfStockPercentageInInterval: its loop is split out as
  `InStockLoop`, which reports an early `return 0` as the value
  `Returned(0)` for the caller to return.
- Properties relating a result to "the record in force" assume a history
  whose times never decrease (`Sorted`). The Keepa format promises this,
  and the source never checks it.
- The `Product.CsvType` enum is reduced to its two flags. Arrays returned
  by the source are sequences. The identity of a returned array is not
  modelled.

## Findings

| source | as written | input that shows it | evidently intended | confidence | as-written member | corrected member |
|---|---|---|---|---|---|---|
| src/main/java/com/keepa/api/backend/helper/ProductAnalyzer.java:225-228 | `getClosestValueAtTime`, on a csv with shipping that holds one record, with `time` before it, computes the landing price of `csv[2]` plus shipping `csv[1]`: price and shipping are swapped | csv `[100, -1, 5]` with shipping, time 50: returns 5 | the record's landing price `csv[1] + max(csv[2], 0)`, here -1 (out of stock) | high, not executed | PointLookup.ClosestSwapReportsShipping | PointLookup.ClosestValueAt |
| src/main/java/com/keepa/api/backend/helper/ProductAnalyzer.java:95 | `getDeltaLast` with shipping tests the last record for out of stock with `csv[length - 1]`, its shipping cost, where the previous record is tested by its price `csv[length - 5]` | csv `[100, 50, 0, 200, -1, 0]` with shipping: returns -51 | test the last price `csv[length - 2]` and return 0, as the branch without shipping does for an out-of-stock last record | medium, not executed (the method is private and has no caller in the class) | ProductAnalyzer.DeltaLastAsWrittenCountsOutOfStock | ProductAnalyzer.DeltaLastIsRecordDelta |
| src/main/java/com/keepa/api/backend/helper/ProductAnalyzer.java:63 | the extreme finder admits a record dated before `start` when the next record is dated at or after `start` (`nextDate >= start`), so a record that ends exactly at `start`, and is never in force in the window, becomes a candidate at `start` | csv `[0, 10, 100, 20]` without shipping, window `[100, 200)`: returns `[100, 10, 100, 20]` | admit it only when the next record is dated strictly after `start` (`nextDate > start`), giving `[100, 20, 100, 20]` | medium, not executed | ExtremeFinder.StaleRecordAtStart | ExtremeFinder.CandidateInForce |
