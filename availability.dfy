/**
 * Specifications of the stock queries: whether a history was out of stock
 * inside a window, and for what percentage of the window.
 */
module Availability {
  import opened Wrappers
  import opened CsvFormat

  /**
   * The scan of `getOutOfStockInInterval`: records dated at or before `start`
   * are skipped, the scan stops at the first record dated at or after `end`,
   * and it answers true at the first out-of-stock record in between.
   */
  function OutOfStockIn(rs: seq<Record>, start: int, end: int): bool
    decreases |rs|
  {
    if rs == [] then false
    else if rs[0].time <= start then OutOfStockIn(rs[1..], start, end)
    else if rs[0].time >= end then false
    else rs[0].value == -1 || OutOfStockIn(rs[1..], start, end)
  }

  /**
   * On a sorted history the scan answers true exactly when some record dated
   * strictly inside `(start, end)` is out of stock.
   */
  lemma {:induction false} OutOfStockInExactly(rs: seq<Record>, start: int, end: int)
    requires Sorted(rs)
    ensures OutOfStockIn(rs, start, end) <==>
              exists j :: 0 <= j < |rs| && start < rs[j].time < end && rs[j].value == -1
    decreases |rs|
  {
    if rs != [] {
      SortedTail(rs);
      OutOfStockInExactly(rs[1..], start, end);
      if exists j :: 0 <= j < |rs[1..]| && start < rs[1..][j].time < end && rs[1..][j].value == -1 {
        var j :| 0 <= j < |rs[1..]| && start < rs[1..][j].time < end && rs[1..][j].value == -1;
        assert rs[j + 1] == rs[1..][j];
      }
      if exists j :: 0 <= j < |rs| && start < rs[j].time < end && rs[j].value == -1 {
        var j :| 0 <= j < |rs| && start < rs[j].time < end && rs[j].value == -1;
        if j > 0 {
          assert rs[1..][j - 1] == rs[j];
        }
      }
    }
  }

  /**
   * `getOutOfStockInInterval`: null (`None`) when the csv is null or shorter
   * than two records, and, without shipping, also when `start >= end`.
   */
  function OutOfStockInInterval(csv: Option<seq<int>>, start: int, end: int, t: CsvType): (r: Option<bool>)
    ensures r.None? <==> csv.None? || |csv.value| < 2 * Width(t) || (!t.isWithShipping && start >= end)
  {
    if t.isWithShipping && (csv.None? || |csv.value| < 6) then None
    else if !t.isWithShipping && (start >= end || csv.None? || |csv.value| < 4) then None
    else Some(OutOfStockIn(Records(csv.value, t), start, end))
  }

  /** Where the percentage scan stands: still accumulating, or returned early. */
  datatype Progress = Counting(count: int) | Returned(result: int)

  function Min(a: int, b: int): int
  {
    if a < b then a else b
  }

  /**
   * The scan of `getOutOfStockPercentageInInterval` over the clamped window
   * `[start, end)`, from in-stock duration `count`; `single` says the whole
   * history is one record. An in-stock record that starts inside the window
   * adds the time until the next record (or `min(now, end)` for the last),
   * clipped to `end`. An in-stock record that starts before the window
   * returns 0 when it is the last record or lasts until `end`, and otherwise
   * sets the count to the part of its interval inside the window.
   */
  function InStockScan(rs: seq<Record>, single: bool, start: int, end: int, now: int, count: int): (p: Progress)
    ensures p.Counting? && p.count != count ==> start < end
    decreases |rs|
  {
    if rs == [] || rs[0].time >= end then Counting(count)
    else if rs[0].value == -1 then InStockScan(rs[1..], single, start, end, now, count)
    else if rs[0].time >= start then
      if single then Returned(0)
      else
        var next := if |rs| == 1 then Min(now, end) else Min(rs[1].time, end);
        InStockScan(rs[1..], single, start, end, now, count + (next - rs[0].time))
    else if |rs| == 1 || rs[1].time >= end then Returned(0)
    else InStockScan(rs[1..], single, start, end, now, if rs[1].time >= start then rs[1].time - start else count)
  }

  /**
   * The early checks of the percentage query: a price type, a non-empty
   * window, a non-empty csv whose first and last times are not -1, whose
   * first record is not after `end`, and tracking that began by `end`.
   */
  predicate HasPercentage(csv: Option<seq<int>>, start: int, end: int, t: CsvType, trackingSince: int)
  {
    t.isPrice && start < end && csv.Some? && |csv.value| >= Width(t) &&
    csv.value[|csv.value| - Width(t)] != -1 && csv.value[0] != -1 &&
    csv.value[0] <= end && trackingSince <= end
  }

  /**
   * `getOutOfStockPercentageInInterval`: -1 when the early checks fail;
   * otherwise the window is clamped to `[max(start, trackingSince),
   * min(end, now))` and the result is 0 on an early return, 100 when no
   * in-stock time was counted, and `100 - floor(count * 100 / window)`
   * when some was.
   */
  function OutOfStockPercentage(csv: Option<seq<int>>, now: int, start: int, end: int, t: CsvType,
                                trackingSince: int): (r: int)
    requires WellFormedCsv(csv, t)
  {
    if !t.isPrice || start >= end || csv.None? || |csv.value| == 0 then -1
    else
      var s := csv.value;
      if s[|s| - Width(t)] == -1 || s[0] == -1 || s[0] > end || trackingSince > end then -1
      else
        var from := if trackingSince > start then trackingSince else start;
        var to := if end > now then now else end;
        var rs := Records(s, t);
        Percentage(InStockScan(rs, |rs| == 1, from, to, now, 0), to - from)
  }

  /**
   * The final step of the percentage query: an early return stands; a
   * positive in-stock count becomes `100 - floor(count * 100 / window)`,
   * and no in-stock time at all is 100 percent out of stock.
   */
  function Percentage(p: Progress, window: int): int
    requires p.Counting? && p.count > 0 ==> window > 0
  {
    match p
    case Returned(x) => x
    case Counting(count) =>
      if count > 0 then 100 - count * 100 / window
      else if count == 0 then 100
      else count
  }

  /** The length of the part of `[a, b)` that lies inside `[from, to)`. */
  function Clipped(a: int, b: int, from: int, to: int): (d: int)
    ensures d >= 0
    ensures from <= a && b <= to && a <= b ==> d == b - a
  {
    var lo := if a > from then a else from;
    var hi := if b < to then b else to;
    if hi > lo then hi - lo else 0
  }

  /**
   * The in-stock time of a history inside the window `[from, to)`: for every
   * record that is not out of stock, the part of its interval of validity
   * `[rs[j].time, rs[j + 1].time)` inside the window, where the last
   * record's interval ends at `to`.
   */
  function InStockTime(rs: seq<Record>, from: int, to: int): (d: int)
    ensures d >= 0
    decreases |rs|
  {
    if rs == [] then 0
    else
      var next := if |rs| == 1 then to else rs[1].time;
      (if rs[0].value == -1 then 0 else Clipped(rs[0].time, next, from, to)) + InStockTime(rs[1..], from, to)
  }

  /** Records dated at or after the end of the window add no in-stock time. */
  lemma {:induction false} InStockTimeAfter(rs: seq<Record>, from: int, to: int)
    requires Sorted(rs) && (rs != [] ==> rs[0].time >= to)
    ensures InStockTime(rs, from, to) == 0
    decreases |rs|
  {
    if rs != [] {
      SortedTail(rs);
      if |rs| > 1 {
        assert rs[1..][0] == rs[1];
        assert rs[0].time <= rs[1].time;
      }
      InStockTimeAfter(rs[1..], from, to);
    }
  }

  /**
   * On a sorted history, with the window ending by `now`, a scan that does
   * not return early adds exactly the in-stock time of the window to its
   * count. The count must still be 0 while the scan is before the window.
   */
  lemma {:induction false} ScanIsInStockTime(rs: seq<Record>, single: bool, from: int, to: int, now: int, count: int)
    requires Sorted(rs) && to <= now
    requires rs != [] && rs[0].time < from ==> count == 0
    ensures var p := InStockScan(rs, single, from, to, now, count);
      p.Counting? ==> p.count == count + InStockTime(rs, from, to)
    decreases |rs|
  {
    if rs != [] {
      SortedTail(rs);
      if |rs| > 1 {
        assert rs[1..][0] == rs[1];
        assert rs[0].time <= rs[1].time;
      }
      if rs[0].time >= to {
        InStockTimeAfter(rs, from, to);
      } else if rs[0].value == -1 {
        ScanIsInStockTime(rs[1..], single, from, to, now, count);
      } else if rs[0].time >= from {
        if !single {
          var next := if |rs| == 1 then Min(now, to) else Min(rs[1].time, to);
          ScanIsInStockTime(rs[1..], single, from, to, now, count + (next - rs[0].time));
        }
      } else if |rs| > 1 && rs[1].time < to {
        ScanIsInStockTime(rs[1..], single, from, to, now, if rs[1].time >= from then rs[1].time - from else count);
      }
    }
  }

  /** An upper bound on the in-stock time counted before record `rs[0]`. */
  function Elapsed(rs: seq<Record>, start: int, end: int): int
  {
    var upTo := if rs == [] then end else Min(rs[0].time, end);
    if upTo > start then upTo - start else 0
  }

  /**
   * On a sorted history, with `end <= now`, the scan never counts more than
   * the window: it either returns 0 early or ends with a count in
   * `[0, max(0, end - start)]`.
   */
  lemma {:induction false} InStockScanBounded(rs: seq<Record>, single: bool, start: int, end: int, now: int, count: int)
    requires Sorted(rs) && end <= now
    requires 0 <= count <= Elapsed(rs, start, end)
    ensures match InStockScan(rs, single, start, end, now, count)
            case Returned(x) => x == 0
            case Counting(c) => 0 <= c <= Elapsed([], start, end)
    decreases |rs|
  {
    if rs != [] && rs[0].time < end {
      SortedTail(rs);
      if |rs| > 1 {
        assert rs[0].time <= rs[1].time;
        assert rs[1..][0] == rs[1];
      }
      if rs[0].value == -1 {
        InStockScanBounded(rs[1..], single, start, end, now, count);
      } else if rs[0].time >= start {
        if !single {
          var next := if |rs| == 1 then Min(now, end) else Min(rs[1].time, end);
          InStockScanBounded(rs[1..], single, start, end, now, count + (next - rs[0].time));
        }
      } else if |rs| > 1 && rs[1].time < end {
        InStockScanBounded(rs[1..], single, start, end, now,
                           if rs[1].time >= start then rs[1].time - start else count);
      }
    }
  }

  /** A positive count no larger than a positive window is at most 100 percent of it. */
  lemma PercentOfWindow(count: int, window: int)
    requires 0 < count <= window
    ensures 0 <= count * 100 / window <= 100
  {
    var q := count * 100 / window;
    assert window * q <= count * 100 <= window * 100;
    assert window * (q - 100) <= 0;
  }

  /** An early return of 0, or a count within the window, gives a percentage in `[0, 100]`. */
  lemma PercentageBounds(p: Progress, window: int)
    requires match p
             case Returned(x) => x == 0
             case Counting(c) => 0 <= c && (c > 0 ==> c <= window)
    ensures p.Counting? && p.count > 0 ==> window > 0
    ensures 0 <= Percentage(p, window) <= 100
  {
    if p.Counting? && p.count > 0 {
      PercentOfWindow(p.count, window);
    }
  }

  /** On a sorted history, the scan of a window that ends by `now` gives a percentage in `[0, 100]`. */
  lemma ScanPercentage(rs: seq<Record>, single: bool, start: int, end: int, now: int)
    requires Sorted(rs) && end <= now
    ensures var p := InStockScan(rs, single, start, end, now, 0);
      (p.Counting? && p.count > 0 ==> end - start > 0) && 0 <= Percentage(p, end - start) <= 100
  {
    InStockScanBounded(rs, single, start, end, now, 0);
    PercentageBounds(InStockScan(rs, single, start, end, now, 0), end - start);
  }

  /** On a sorted history the percentage is -1 (no answer) or lies within `[0, 100]`. */
  lemma PercentageInRange(csv: Option<seq<int>>, now: int, start: int, end: int, t: CsvType, trackingSince: int)
    requires WellFormedCsv(csv, t) && Sorted(History(csv, t))
    ensures var r := OutOfStockPercentage(csv, now, start, end, t, trackingSince);
      r == -1 || 0 <= r <= 100
    ensures OutOfStockPercentage(csv, now, start, end, t, trackingSince) == -1 <==>
              !HasPercentage(csv, start, end, t, trackingSince)
  {
    if t.isPrice && start < end && csv.Some? && |csv.value| > 0 {
      RecordFits(csv.value, t);
      if HasPercentage(csv, start, end, t, trackingSince) {
        var from := if trackingSince > start then trackingSince else start;
        var to := if end > now then now else end;
        var rs := Records(csv.value, t);
        ScanPercentage(rs, |rs| == 1, from, to, now);
      }
    }
  }

  /**
   * What the percentage is taken of: once the early checks pass, on a sorted
   * history, the result is 0 on an early return, and otherwise 100 minus the
   * in-stock time of the clamped window `[from, to)` in whole percent of the
   * window, or 100 when nothing was in stock.
   */
  lemma PercentageOfInStockTime(csv: Option<seq<int>>, now: int, start: int, end: int, t: CsvType, trackingSince: int)
    requires WellFormedCsv(csv, t) && Sorted(History(csv, t)) && HasPercentage(csv, start, end, t, trackingSince)
    ensures var from := if trackingSince > start then trackingSince else start;
      var to := if end > now then now else end;
      var rs := Records(csv.value, t);
      var d := InStockTime(rs, from, to);
      var r := OutOfStockPercentage(csv, now, start, end, t, trackingSince);
      InStockScan(rs, |rs| == 1, from, to, now, 0).Returned? ==> r == 0
    ensures var from := if trackingSince > start then trackingSince else start;
      var to := if end > now then now else end;
      var rs := Records(csv.value, t);
      var d := InStockTime(rs, from, to);
      var r := OutOfStockPercentage(csv, now, start, end, t, trackingSince);
      InStockScan(rs, |rs| == 1, from, to, now, 0).Counting? ==>
        (d > 0 ==> from < to && r == 100 - d * 100 / (to - from)) && (d == 0 ==> r == 100)
  {
    var from := if trackingSince > start then trackingSince else start;
    var to := if end > now then now else end;
    var rs := Records(csv.value, t);
    PercentageOfScanned(csv, now, start, end, t, trackingSince);
    InStockScanBounded(rs, |rs| == 1, from, to, now, 0);
    ScanIsInStockTime(rs, |rs| == 1, from, to, now, 0);
  }

  /** Once the early checks pass, the percentage is taken of the scan of the clamped window. */
  lemma PercentageOfScanned(csv: Option<seq<int>>, now: int, start: int, end: int, t: CsvType, trackingSince: int)
    requires WellFormedCsv(csv, t) && HasPercentage(csv, start, end, t, trackingSince)
    ensures var from := if trackingSince > start then trackingSince else start;
      var to := if end > now then now else end;
      var rs := Records(csv.value, t);
      var p := InStockScan(rs, |rs| == 1, from, to, now, 0);
      (p.Counting? && p.count > 0 ==> to - from > 0) &&
      OutOfStockPercentage(csv, now, start, end, t, trackingSince) == Percentage(p, to - from)
  {
    RecordFits(csv.value, t);
  }
}
