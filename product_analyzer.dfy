/**
 * The analyzer's operations on a Keepa history csv, in the shape of the
 * Java helper class: accessors for the last record, point lookups and the
 * interval scans, each proved against the specifications of the other
 * modules.
 */
module ProductAnalyzer {
  import opened Wrappers
  import opened CsvFormat
  import opened PointLookup
  import opened ExtremeFinder
  import opened Availability

  // ---------------------------------------------------------------------
  // Accessors for the last record
  // ---------------------------------------------------------------------

  /** `getLast`: the landing price of the last record, -1 for a null or empty csv. */
  function GetLast(csv: Option<seq<int>>, t: CsvType): (r: int)
    requires csv.Some? && t.isWithShipping && |csv.value| > 0 ==> |csv.value| >= 2
    ensures csv.None? || |csv.value| == 0 ==> r == -1
  {
    if csv.None? || |csv.value| == 0 then -1
    else if t.isWithShipping then LandingPrice(csv.value[|csv.value| - 2], csv.value[|csv.value| - 1])
    else csv.value[|csv.value| - 1]
  }

  /** `getLastTime`: the time of the last record, -1 for a null or empty csv. */
  function GetLastTime(csv: Option<seq<int>>, t: CsvType): (r: int)
    requires csv.Some? && |csv.value| > 0 ==> |csv.value| >= Width(t)
    ensures csv.None? || |csv.value| == 0 ==> r == -1
  {
    if csv.None? || |csv.value| == 0 then -1 else csv.value[|csv.value| - Width(t)]
  }

  /** `getLastPriceAndShipping`: the last `[price, shipping]` pair, `[-1, -1]` for fewer than three integers. */
  function GetLastPriceAndShipping(csv: Option<seq<int>>): (p: seq<int>)
    ensures |p| == 2
    ensures csv.None? || |csv.value| < 3 ==> p == [-1, -1]
  {
    if csv.None? || |csv.value| < 3 then [-1, -1]
    else [csv.value[|csv.value| - 2], csv.value[|csv.value| - 1]]
  }

  /**
   * On a well-formed non-empty csv the three accessors read the last decoded
   * record: its landing price, its time, and (with shipping) its price and
   * shipping cost, whose landing price is again `getLast`.
   */
  lemma LastAccessorsReadLastRecord(csv: Option<seq<int>>, t: CsvType)
    requires WellFormedCsv(csv, t) && csv.Some? && |csv.value| > 0
    ensures |csv.value| >= Width(t)
    ensures var rs := History(csv, t);
      |rs| > 0 && GetLast(csv, t) == rs[|rs| - 1].Landing() && GetLastTime(csv, t) == rs[|rs| - 1].time
    ensures t.isWithShipping ==>
      var rs := History(csv, t);
      var p := GetLastPriceAndShipping(csv);
      p == [rs[|rs| - 1].value, rs[|rs| - 1].shipping] && LandingPrice(p[0], p[1]) == GetLast(csv, t)
  {
    LastRecord(csv.value, t);
  }

  /**
   * On a sorted history the value in force at the last record's time is the
   * last value: `getValueAtTime(csv, getLastTime(csv))` is `getLast(csv)`.
   */
  lemma ValueAtLastTime(csv: Option<seq<int>>, t: CsvType)
    requires WellFormedCsv(csv, t) && Sorted(History(csv, t))
    ensures csv.Some? && |csv.value| > 0 ==> |csv.value| >= Width(t)
    ensures ValueAt(History(csv, t), GetLastTime(csv, t)) == GetLast(csv, t)
  {
    if csv.Some? && |csv.value| > 0 {
      LastAccessorsReadLastRecord(csv, t);
      var rs := History(csv, t);
      ValueAtInForce(rs, GetLastTime(csv, t), |rs| - 1);
    }
  }

  // ---------------------------------------------------------------------
  // The delta of the last change
  // ---------------------------------------------------------------------

  /**
   * The reference delta of a history: the landing price of the last record
   * minus that of the one before, 0 when there are fewer than two records or
   * either of them is out of stock.
   */
  function RecordDelta(rs: seq<Record>): int
  {
    if |rs| < 2 || rs[|rs| - 1].value == -1 || rs[|rs| - 2].value == -1 then 0
    else rs[|rs| - 1].Landing() - rs[|rs| - 2].Landing()
  }

  /**
   * `getDeltaLast` as written: with shipping, the out-of-stock test of the
   * last record reads its shipping cost (`csv[length - 1]`) where the test of
   * the record before reads its price.
   */
  function GetDeltaLastAsWritten(csv: Option<seq<int>>, t: CsvType): (d: int)
    ensures csv.None? || |csv.value| < 2 * Width(t) ==> d == 0
  {
    if t.isWithShipping then
      if csv.None? || |csv.value| < 6 || csv.value[|csv.value| - 1] == -1 || csv.value[|csv.value| - 5] == -1 then 0
      else
        LandingPrice(csv.value[|csv.value| - 2], csv.value[|csv.value| - 1]) -
        LandingPrice(csv.value[|csv.value| - 5], csv.value[|csv.value| - 4])
    else if csv.None? || |csv.value| < 4 || csv.value[|csv.value| - 1] == -1 || csv.value[|csv.value| - 3] == -1 then 0
    else csv.value[|csv.value| - 1] - csv.value[|csv.value| - 3]
  }

  /** `getDeltaLast` with the last record's out-of-stock test reading its price. */
  function DeltaLastCorrected(csv: Option<seq<int>>, t: CsvType): (d: int)
  {
    if t.isWithShipping then
      if csv.None? || |csv.value| < 6 || csv.value[|csv.value| - 2] == -1 || csv.value[|csv.value| - 5] == -1 then 0
      else
        LandingPrice(csv.value[|csv.value| - 2], csv.value[|csv.value| - 1]) -
        LandingPrice(csv.value[|csv.value| - 5], csv.value[|csv.value| - 4])
    else if csv.None? || |csv.value| < 4 || csv.value[|csv.value| - 1] == -1 || csv.value[|csv.value| - 3] == -1 then 0
    else csv.value[|csv.value| - 1] - csv.value[|csv.value| - 3]
  }

  /** The corrected delta is the reference delta of the decoded history. */
  lemma DeltaLastIsRecordDelta(csv: Option<seq<int>>, t: CsvType)
    requires WellFormedCsv(csv, t)
    ensures DeltaLastCorrected(csv, t) == RecordDelta(History(csv, t))
  {
    if csv.Some? {
      TwoRecords(csv.value, t);
      if |csv.value| >= 2 * Width(t) {
        LastTwoRecords(csv.value, t);
      }
    }
  }

  /**
   * With shipping, a last record that is out of stock but has a known
   * shipping cost passes the test as written: the delta becomes
   * `-1 - landing(previous)` instead of 0.
   */
  lemma DeltaLastAsWrittenCountsOutOfStock(t0: int, v0: int, s0: int, t1: int, s1: int)
    requires v0 >= 0 && s1 != -1
    ensures var csv := Some([t0, v0, s0, t1, -1, s1]);
      GetDeltaLastAsWritten(csv, WithShipping) == -1 - LandingPrice(v0, s0) &&
      GetDeltaLastAsWritten(csv, WithShipping) < 0 &&
      RecordDelta(History(csv, WithShipping)) == 0
  {
    var csv := Some([t0, v0, s0, t1, -1, s1]);
    DeltaLastIsRecordDelta(csv, WithShipping);
  }

  // ---------------------------------------------------------------------
  // Point lookups
  // ---------------------------------------------------------------------

  /** Stepping the search loop past a record dated at or before `time`. */
  lemma SkipRecord(s: seq<int>, t: CsvType, i: int, done: seq<Record>, time: int)
    requires 0 <= i && i + Width(t) <= |s| && s[i] <= time
    requires Records(s, t) == done + Records(s[i..], t)
    requires forall j :: 0 <= j < |done| ==> done[j].time <= time
    ensures var done' := done + [RecordAt(s[i..], t)];
      Records(s, t) == done' + Records(s[i + Width(t)..], t) &&
      forall j :: 0 <= j < |done'| ==> done'[j].time <= time
  {
    var r := RecordAt(s[i..], t);
    var rest := Records(s[i + Width(t)..], t);
    RecordsStep(s, t, i);
    assert done + ([r] + rest) == (done + [r]) + rest;
    var done' := done + [r];
    forall j | 0 <= j < |done'|
      ensures done'[j].time <= time
    {
      if j < |done| {
        assert done'[j] == done[j];
      }
    }
  }

  /**
   * Where the search loop stops: the records passed are all dated at or
   * before `time` and the next one (if any) after it, so they are the
   * leading records.
   */
  lemma SkipResult(s: seq<int>, t: CsvType, i: int, done: seq<Record>, time: int, rem: nat)
    requires 0 <= i <= |s| && |s| - i == Span(t, rem)
    requires Records(s, t) == done + Records(s[i..], t)
    requires forall j :: 0 <= j < |done| ==> done[j].time <= time
    requires done == [] <==> i == 0
    requires done != [] ==> i >= Width(t) && done[|done| - 1] == RecordAt(s[i - Width(t)..], t)
    requires i < |s| ==> s[i] > time
    ensures WellFormed(s[i..], t)
    ensures var rs := Records(s, t); var k := LeadCount(rs, time);
      Records(s[i..], t) == rs[k..] &&
      (k == 0 <==> i == 0) &&
      (k > 0 ==> i >= Width(t) && rs[k - 1] == RecordAt(s[i - Width(t)..], t))
  {
    SpanIsWellFormed(s[i..], t, rem);
    StopsAfter(s, t, i, time);
    var rs := Records(s, t);
    LeadPrefix(rs, done, Records(s[i..], t), time);
    if done != [] {
      assert rs[|done| - 1] == RecordAt(s[i - Width(t)..], t);
    }
  }

  /** The records from a flat index whose time is after `time` (or from the end) start after `time`. */
  lemma StopsAfter(s: seq<int>, t: CsvType, i: int, time: int)
    requires 0 <= i <= |s| && (i < |s| ==> i + Width(t) <= |s| && s[i] > time)
    ensures var rest := Records(s[i..], t); rest == [] || rest[0].time > time
  {
    if i < |s| {
      RecordsStep(s, t, i);
    }
  }

  /**
   * The search loop shared by the point lookups: step over whole records
   * while the record's time is not after `time`. On exit `i` is the flat
   * index of the first record dated after `time` (or the end), and the
   * records before it are exactly the leading ones.
   */
  method SkipToTime(s: seq<int>, time: int, t: CsvType) returns (i: int)
    requires WellFormed(s, t)
    ensures 0 <= i <= |s| && WellFormed(s[i..], t)
    ensures var rs := Records(s, t); var k := LeadCount(rs, time);
      Records(s[i..], t) == rs[k..] &&
      (k == 0 <==> i == 0) &&
      (k > 0 ==> i >= Width(t) && rs[k - 1] == RecordAt(s[i - Width(t)..], t))
  {
    var loopIncrement := Width(t);
    i := 0;
    ghost var done: seq<Record> := [];
    ghost var rem := WholeRecords(s, t);
    assert s[0..] == s;
    while i < |s|
      invariant 0 <= i <= |s| && |s| - i == Span(t, rem)
      invariant Records(s, t) == done + Records(s[i..], t)
      invariant forall j :: 0 <= j < |done| ==> done[j].time <= time
      invariant done == [] <==> i == 0
      invariant done != [] ==> i >= loopIncrement && done[|done| - 1] == RecordAt(s[i - loopIncrement..], t)
    {
      if s[i] > time {
        break;
      }
      SkipRecord(s, t, i, done, time);
      done := done + [RecordAt(s[i..], t)];
      i := i + loopIncrement;
      rem := rem - 1;
    }
    SkipResult(s, t, i, done, time, rem);
  }

  /** `getValueAtTime`: the landing price in force at `time`, -1 before the first record. */
  method GetValueAtTime(csv: Option<seq<int>>, time: int, t: CsvType) returns (r: int)
    requires WellFormedCsv(csv, t)
    ensures r == ValueAt(History(csv, t), time)
  {
    if csv.None? || |csv.value| == 0 {
      return -1;
    }
    var s := csv.value;
    var i := SkipToTime(s, time, t);
    if i < Width(t) {
      return -1;
    }
    if t.isWithShipping {
      var v := s[i - 2];
      var sh := s[i - 1];
      return LandingPrice(v, sh);
    }
    return s[i - 1];
  }

  /** `getPriceAndShippingAtTime`: the raw `[price, shipping]` in force at `time`, `[-1, -1]` before the first record. */
  method GetPriceAndShippingAtTime(csv: Option<seq<int>>, time: int) returns (r: seq<int>)
    requires WellFormedCsv(csv, WithShipping)
    ensures r == PriceAndShippingAt(History(csv, WithShipping), time)
  {
    if csv.None? || |csv.value| == 0 {
      return [-1, -1];
    }
    var s := csv.value;
    var i := SkipToTime(s, time, WithShipping);
    if i < 3 {
      return [-1, -1];
    }
    return [s[i - 2], s[i - 1]];
  }

  /** The record ending at flat index `i`, read the way the Java code reads it. */
  lemma RecordEndingAt(s: seq<int>, i: int, t: CsvType)
    requires Width(t) <= i <= |s|
    ensures RecordAt(s[i - Width(t)..], t).value == s[i - Width(t) + 1]
    ensures RecordAt(s[i - Width(t)..], t).Landing() ==
            if t.isWithShipping then LandingPrice(s[i - 2], s[i - 1]) else s[i - 1]
  {
  }

  /**
   * `m` is the record ending at flat index `i` of a well-formed csv, and the
   * records after it are those of `s[i..]`.
   */
  ghost predicate AtRecord(s: seq<int>, t: CsvType, rs: seq<Record>, i: int, m: int)
  {
    Width(t) <= i <= |s| && WellFormed(s[i..], t) && 0 <= m < |rs| &&
    rs[m] == RecordAt(s[i - Width(t)..], t) && Records(s[i..], t) == rs[m + 1..]
  }

  /** Stepping past an out-of-stock record that is not the last one keeps the same first known record. */
  lemma SkipUnknownRecord(s: seq<int>, t: CsvType, rs: seq<Record>, i: int, m: int)
    requires AtRecord(s, t, rs, i, m) && i < |s| && rs[m].value == -1
    ensures AtRecord(s, t, rs, i + Width(t), m + 1)
    ensures FirstKnown(rs, m) == FirstKnown(rs, m + 1)
  {
    NextRecord(s, t, i);
    assert rs[m + 2..] == rs[m + 1..][1..];
  }

  /** The scan stops at a known record, or at the last record. */
  lemma StopAtRecord(s: seq<int>, t: CsvType, rs: seq<Record>, i: int, m: int)
    requires AtRecord(s, t, rs, i, m) && (i == |s| || rs[m].value != -1)
    ensures FirstKnown(rs, m) == m
  {
    NextRecord(s, t, i);
  }

  /**
   * Where the forward scan of `getClosestValueAtTime` starts: after the
   * search loop stopped at flat index `i`, the record ending at `i` is the
   * record in force, and when `time` is before the first record (`i` is 0)
   * the scan starts after the first record instead.
   */
  lemma StartsAtRecord(s: seq<int>, t: CsvType, time: int, i: int)
    requires WellFormed(s, t) && |s| > 0
    requires 0 <= i <= |s| && WellFormed(s[i..], t)
    requires var rs := Records(s, t); var k := LeadCount(rs, time);
      Records(s[i..], t) == rs[k..] && (k == 0 <==> i == 0) &&
      (k > 0 ==> i >= Width(t) && rs[k - 1] == RecordAt(s[i - Width(t)..], t))
    requires i == 0 || i >= Width(t)
    ensures var j := if i == 0 then Width(t) else i;
      var rs := Records(s, t);
      AtRecord(s, t, rs, j, StartRecord(rs, time))
  {
    var rs := Records(s, t);
    FirstRecord(s, t);
    if i == 0 {
      NextRecord(s, t, 0);
      assert s[0..] == s;
    }
  }

  /** Outside the swapped single-record case the value as written is the closest value. */
  lemma AsWrittenOutsideSwap(csv: Option<seq<int>>, time: int, t: CsvType)
    requires WellFormedCsv(csv, t)
    ensures !(t.isWithShipping && csv.Some? && |csv.value| == 3 && csv.value[0] > time) ==>
              ClosestValueAtAsWritten(csv, time, t) == ClosestValueAt(History(csv, t), time)
  {
  }

  /**
   * `getClosestValueAtTime`: from the record in force at `time` (or the first
   * record when `time` is before it), the landing price of the first record
   * that is not out of stock, or of the last record when none is.
   */
  method GetClosestValueAtTime(csv: Option<seq<int>>, time: int, t: CsvType) returns (r: int)
    requires WellFormedCsv(csv, t)
    ensures r == ClosestValueAtAsWritten(csv, time, t)
    ensures !(t.isWithShipping && csv.Some? && |csv.value| == 3 && csv.value[0] > time) ==>
              r == ClosestValueAt(History(csv, t), time)
  {
    AsWrittenOutsideSwap(csv, time, t);
    if csv.None? || |csv.value| == 0 {
      return -1;
    }
    var s := csv.value;
    ghost var rs := Records(s, t);
    FirstRecord(s, t);
    var loopIncrement := Width(t);
    var i := SkipToTime(s, time, t);
    StartsAtRecord(s, t, time, i);
    if i < loopIncrement {
      TwoRecords(s, t);
      NextRecord(s, t, 0);
      assert s[0..] == s;
      if t.isWithShipping {
        if |s| < 4 {
          var v := s[2];
          var sh := s[1];
          return LandingPrice(v, sh);
        } else {
          i := i + 3;
        }
      } else {
        if |s| < 3 {
          return s[1];
        } else {
          i := i + 2;
        }
      }
    }
    ghost var m: int := StartRecord(rs, time);
    if t.isWithShipping {
      r := ClosestFromWithShipping(s, t, i, rs, m);
    } else {
      r := ClosestFromWithoutShipping(s, t, i, rs, m);
    }
  }

  /**
   * The second half of `getClosestValueAtTime` for a csv with shipping: from
   * the record ending at flat index `i`, the landing price of the first
   * record that is not out of stock, or of the last record when none is.
   */
  method ClosestFromWithShipping(s: seq<int>, t: CsvType, i0: int, ghost rs: seq<Record>, ghost m0: int)
    returns (r: int)
    requires t.isWithShipping && AtRecord(s, t, rs, i0, m0)
    ensures r == rs[FirstKnown(rs, m0)].Landing()
  {
    var i := i0;
    ghost var m := m0;
    RecordEndingAt(s, i, t);
    if s[i - 2] != -1 {
      var v := s[i - 2];
      var sh := s[i - 1];
      StopAtRecord(s, t, rs, i, m);
      return LandingPrice(v, sh);
    }
    while i < |s|
      invariant AtRecord(s, t, rs, i, m)
      invariant FirstKnown(rs, m0) == FirstKnown(rs, m)
    {
      RecordEndingAt(s, i, t);
      if s[i - 2] != -1 {
        break;
      }
      SkipUnknownRecord(s, t, rs, i, m);
      i := i + 3;
      m := m + 1;
    }
    RecordEndingAt(s, i, t);
    StopAtRecord(s, t, rs, i, m);
    var v := s[i - 2];
    var sh := s[i - 1];
    return LandingPrice(v, sh);
  }

  /**
   * The second half of `getClosestValueAtTime` for a csv without shipping:
   * from the record ending at flat index `i`, the value of the first record
   * that is not out of stock, or of the last record when none is.
   */
  method ClosestFromWithoutShipping(s: seq<int>, t: CsvType, i0: int, ghost rs: seq<Record>, ghost m0: int)
    returns (r: int)
    requires !t.isWithShipping && AtRecord(s, t, rs, i0, m0)
    ensures r == rs[FirstKnown(rs, m0)].Landing()
  {
    var i := i0;
    ghost var m := m0;
    RecordEndingAt(s, i, t);
    if s[i - 1] != -1 {
      StopAtRecord(s, t, rs, i, m);
      return s[i - 1];
    }
    while i < |s|
      invariant AtRecord(s, t, rs, i, m)
      invariant FirstKnown(rs, m0) == FirstKnown(rs, m)
    {
      RecordEndingAt(s, i, t);
      if s[i - 1] != -1 {
        break;
      }
      SkipUnknownRecord(s, t, rs, i, m);
      i := i + 2;
      m := m + 1;
    }
    RecordEndingAt(s, i, t);
    StopAtRecord(s, t, rs, i, m);
    return s[i - 1];
  }

  // ---------------------------------------------------------------------
  // Extremes
  // ---------------------------------------------------------------------

  /** The four result slots held in the Java array. */
  function Slots(a: array<int>): Extremes
    requires a.Length == 4
    reads a
  {
    Extremes(a[0], a[1], a[2], a[3])
  }

  /**
   * One candidate tracked in the result array: a strictly lower value
   * replaces the minimum and its time, then a strictly higher value replaces
   * the maximum and its time.
   */
  method TrackInPlace(extremeValue: array<int>, time: int, c: int)
    requires extremeValue.Length == 4
    modifies extremeValue
    ensures Slots(extremeValue) == Track(old(Slots(extremeValue)), Point(time, c))
  {
    if c < extremeValue[1] {
      extremeValue[1] := c;
      extremeValue[0] := time;
    }
    if c > extremeValue[3] {
      extremeValue[3] := c;
      extremeValue[2] := time;
    }
  }

  /**
   * One pass of the extreme loop body over the record whose value is at flat
   * index `i`: an out-of-stock record leaves the slots alone; any other
   * record is tracked at its own time when it starts in the window, and at
   * `from` when it starts earlier but is the last record or the next one
   * starts at or after `from` (or at or after `end`).
   */
  function ExtremeStepAt(s: seq<int>, t: CsvType, i: nat, from: int, end: int, e: Extremes): Extremes
    requires 1 <= i && i - 1 + Width(t) <= |s|
  {
    var adjustedIndex := if t.isWithShipping then 2 else 1;
    var c := s[i];
    var date := s[i - 1];
    var v := if t.isWithShipping then c + (if s[i + 1] < 0 then 0 else s[i + 1]) else c;
    if c == -1 then e
    else if date >= from then Track(e, Point(date, v))
    else if i == |s| - adjustedIndex || s[i + adjustedIndex] >= end || s[i + adjustedIndex] >= from then
      Track(e, Point(from, v))
    else e
  }

  /**
   * The extreme loop from the record whose value is at flat index `i` to the
   * end, or to the first record dated at or after `end`.
   */
  function ExtremeScanAt(s: seq<int>, t: CsvType, i: nat, from: int, end: int, e: Extremes): Extremes
    requires 1 <= i
    decreases |s| - i
  {
    if i - 1 + Width(t) > |s| || s[i - 1] >= end then e
    else ExtremeScanAt(s, t, i + Width(t), from, end, ExtremeStepAt(s, t, i, from, end, e))
  }

  /** Unfolding the extreme loop by one record dated before `end`. */
  lemma ExtremeScanUnfold(s: seq<int>, t: CsvType, i: nat, from: int, end: int, e: Extremes)
    requires 1 <= i && i - 1 + Width(t) <= |s| && s[i - 1] < end
    ensures ExtremeScanAt(s, t, i, from, end, e) == ExtremeScanAt(s, t, i + Width(t), from, end, ExtremeStepAt(s, t, i, from, end, e))
  {
  }

  /**
   * The record whose value is at flat index `i` of a well-formed suffix,
   * seen through the Java loop's indexing: its time, value and shipping, and
   * whether it is the last record and when the next one starts.
   */
  lemma FlatRecord(s: seq<int>, t: CsvType, i: nat)
    requires 1 <= i <= |s| && WellFormed(s[i - 1..], t)
    ensures i - 1 + Width(t) <= |s| && WellFormed(s[i - 1 + Width(t)..], t)
    ensures var rs := Records(s[i - 1..], t); var adjustedIndex := if t.isWithShipping then 2 else 1;
      rs != [] && rs[1..] == Records(s[i - 1 + Width(t)..], t) &&
      rs[0].time == s[i - 1] && rs[0].value == s[i] &&
      rs[0].shipping == (if t.isWithShipping then s[i + 1] else 0) &&
      (|rs| == 1 <==> i == |s| - adjustedIndex) &&
      (|rs| > 1 ==> rs[1].time == s[i + adjustedIndex])
  {
    var x := i - 1;
    var w := Width(t);
    NextRecord(s, t, x);
    NextRecord(s, t, x + w);
  }

  /**
   * One pass of the loop body over a record dated before `end` equals
   * folding that record's candidate (if it has one) into the slots.
   */
  lemma ExtremeStepIsCandidate(s: seq<int>, t: CsvType, i: nat, from: int, end: int, e: Extremes)
    requires 1 <= i <= |s| && WellFormed(s[i - 1..], t) && s[i - 1] < end
    ensures i - 1 + Width(t) <= |s| && WellFormed(s[i - 1 + Width(t)..], t)
    ensures Fold(Candidates(Records(s[i - 1..], t), from, end, AtOrAfter), e) ==
            Fold(Candidates(Records(s[i - 1 + Width(t)..], t), from, end, AtOrAfter), ExtremeStepAt(s, t, i, from, end, e))
  {
    StepAtIsFirstStep(s, t, i, from, end, e);
    FoldFirstCandidate(Records(s[i - 1..], t), from, end, e, AtOrAfter);
  }

  /** The loop body reads the record at flat index `i` the way the record-level step does. */
  lemma StepAtIsFirstStep(s: seq<int>, t: CsvType, i: nat, from: int, end: int, e: Extremes)
    requires 1 <= i <= |s| && WellFormed(s[i - 1..], t) && s[i - 1] < end
    ensures i - 1 + Width(t) <= |s| && WellFormed(s[i - 1 + Width(t)..], t)
    ensures var rs := Records(s[i - 1..], t);
      rs != [] && rs[1..] == Records(s[i - 1 + Width(t)..], t) && rs[0].time == s[i - 1] &&
      ExtremeStepAt(s, t, i, from, end, e) == FirstStep(rs, from, end, e, AtOrAfter)
  {
    FlatRecord(s, t, i);
    var rs := Records(s[i - 1..], t);
    var adjustedIndex := if t.isWithShipping then 2 else 1;
    assert Overlaps(rs, 0, from, end, AtOrAfter) <==>
           s[i - 1] >= from || i == |s| - adjustedIndex || s[i + adjustedIndex] >= end || s[i + adjustedIndex] >= from;
    assert CandidateValue(rs[0]) == if t.isWithShipping then s[i] + (if s[i + 1] < 0 then 0 else s[i + 1]) else s[i];
  }

  /** The loop over the flat csv computes the fold over the candidates of the decoded records. */
  lemma {:induction false} ExtremeScanAtIsFold(s: seq<int>, t: CsvType, i: nat, from: int, end: int, e: Extremes)
    requires 1 <= i <= |s| + 1 && WellFormed(s[i - 1..], t)
    ensures ExtremeScanAt(s, t, i, from, end, e) == Fold(Candidates(Records(s[i - 1..], t), from, end, AtOrAfter), e)
    decreases |s| - i
  {
    NextRecord(s, t, i - 1);
    if i - 1 < |s| && s[i - 1] < end {
      ExtremeStepIsCandidate(s, t, i, from, end, e);
      ExtremeScanAtIsFold(s, t, i + Width(t), from, end, ExtremeStepAt(s, t, i, from, end, e));
    }
  }

  /** Once the early checks pass, the result is the scanned slots, or all -1 when the minimum slot was never lowered. */
  lemma ExtremePointsOfScan(csv: Option<seq<int>>, start: int, end: int, t: CsvType)
    requires WellFormedCsv(csv, t) && Qualifies(csv, start, end, t)
    ensures var e := ExtremeScanAt(csv.value, t, 1, WindowStart(csv.value, start), end, Initial);
      ToArray(ExtremePoints(csv, start, end, t, AtOrAfter)) == if e.minValue == IntMax then [-1, -1, -1, -1] else ToArray(e)
  {
    assert csv.value[1 - 1..] == csv.value;
    ExtremeScanAtIsFold(csv.value, t, 1, WindowStart(csv.value, start), end, Initial);
  }

  /**
   * The loop of `getExtremePointsInIntervalWithTime` over the clamped window
   * `[from, end)`: it tracks every candidate into the result array.
   */
  method TrackWindow(s: seq<int>, t: CsvType, from: int, end: int, extremeValue: array<int>)
    requires WellFormed(s, t) && extremeValue.Length == 4
    modifies extremeValue
    ensures Slots(extremeValue) == ExtremeScanAt(s, t, 1, from, end, old(Slots(extremeValue)))
  {
    ghost var scan := ExtremeScanAt(s, t, 1, from, end, Slots(extremeValue));
    var loopIncrement := Width(t);
    var adjustedIndex := if t.isWithShipping then 2 else 1;
    ghost var rem := WholeRecords(s, t);
    var i := 1;
    var j := |s|;
    while i < j
      invariant 1 <= i <= |s| + 1 && |s| - (i - 1) == Span(t, rem)
      invariant scan == ExtremeScanAt(s, t, i, from, end, Slots(extremeValue))
    {
      ghost var e := Slots(extremeValue);
      var c := s[i];
      var date := s[i - 1];
      if date >= end {
        break;
      }
      ExtremeScanUnfold(s, t, i, from, end, e);
      if c != -1 {
        if t.isWithShipping {
          var sh := s[i + 1];
          c := c + (if sh < 0 then 0 else sh);
        }
        if date >= from {
          assert ExtremeStepAt(s, t, i, from, end, e) == Track(e, Point(date, c));
          TrackInPlace(extremeValue, date, c);
        } else {
          var isValid := false;
          if i == j - adjustedIndex {
            isValid := true;
          } else {
            var nextDate := s[i + adjustedIndex];
            if nextDate >= end || nextDate >= from {
              isValid := true;
            }
          }
          if isValid {
            assert ExtremeStepAt(s, t, i, from, end, e) == Track(e, Point(from, c));
            TrackInPlace(extremeValue, from, c);
          } else {
            assert ExtremeStepAt(s, t, i, from, end, e) == e;
          }
        }
      } else {
        assert ExtremeStepAt(s, t, i, from, end, e) == e;
      }
      i := i + loopIncrement;
      rem := rem - 1;
    }
  }

  /**
   * `getExtremePointsInIntervalWithTime`: `[minTime, min, maxTime, max]` of
   * the candidates of `[start, end)` under the rule as written (`AtOrAfter`),
   * all -1 when the early checks fail or nothing was found.
   */
  method GetExtremePointsInIntervalWithTime(csv: Option<seq<int>>, start: int, end: int, t: CsvType)
    returns (r: seq<int>)
    requires WellFormedCsv(csv, t)
    ensures r == ToArray(ExtremePoints(csv, start, end, t, AtOrAfter))
  {
    if csv.None? || start >= end || |csv.value| < (if t.isWithShipping then 6 else 4) {
      return [-1, -1, -1, -1];
    }
    var s := csv.value;
    var extremeValue := new int[4] [-1, IntMax, -1, -1];
    var lastTime := GetLastTime(csv, t);
    var firstTime := s[0];
    if lastTime == -1 || firstTime == -1 || firstTime > end {
      return [-1, -1, -1, -1];
    }
    var from := start;
    if firstTime > from {
      from := firstTime;
    }
    TrackWindow(s, t, from, end, extremeValue);
    ExtremePointsOfScan(csv, start, end, t);
    if extremeValue[1] == IntMax {
      return [-1, -1, -1, -1];
    }
    return extremeValue[..];
  }

  /** `getLowestAndHighest`: the lowest and highest landing price over the whole history. */
  method GetLowestAndHighest(csv: Option<seq<int>>, t: CsvType) returns (r: seq<int>)
    requires WellFormedCsv(csv, t)
    ensures var e := ExtremePoints(csv, 0, IntMax, t, AtOrAfter); r == [e.minValue, e.maxValue]
  {
    var minMax := GetExtremePointsInIntervalWithTime(csv, 0, IntMax, t);
    return [minMax[1], minMax[3]];
  }

  /** `getLowestAndHighestWithTime`: the extremes over the whole history, with their times. */
  method GetLowestAndHighestWithTime(csv: Option<seq<int>>, t: CsvType) returns (r: seq<int>)
    requires WellFormedCsv(csv, t)
    ensures r == ToArray(ExtremePoints(csv, 0, IntMax, t, AtOrAfter))
  {
    r := GetExtremePointsInIntervalWithTime(csv, 0, IntMax, t);
  }

  /**
   * Over the whole history of a sorted csv of at least two records dated in
   * `[0, Integer.MAX_VALUE)`, the lowest and highest bracket the landing
   * price of every record that is not out of stock.
   */
  lemma LowestAndHighestBracket(csv: Option<seq<int>>, t: CsvType, j: nat)
    requires WellFormedCsv(csv, t) && Sorted(History(csv, t))
    requires var rs := History(csv, t);
      |rs| >= 2 && 0 <= rs[0].time && rs[|rs| - 1].time < IntMax && j < |rs| &&
      rs[j].value != -1 && CandidateValue(rs[j]) < IntMax
    ensures var e := ExtremePoints(csv, 0, IntMax, t, AtOrAfter);
      var c := CandidateValue(History(csv, t)[j]);
      e != NoExtremes && e.minValue <= c <= e.maxValue
  {
    var s := csv.value;
    var rs := Records(s, t);
    TwoRecords(s, t);
    FirstRecord(s, t);
    LastRecord(s, t);
    assert rs[0].time <= rs[j].time <= rs[|rs| - 1].time;
    assert Qualifies(csv, 0, IntMax, t);
    ExtremesCover(csv, 0, IntMax, t, j, AtOrAfter);
    ExtremesWitness(csv, 0, IntMax, t, AtOrAfter);
  }

  // ---------------------------------------------------------------------
  // Stock
  // ---------------------------------------------------------------------

  /** `getOutOfStockInInterval`: whether an out-of-stock record is dated strictly inside `(start, end)`. */
  method GetOutOfStockInInterval(csv: Option<seq<int>>, start: int, end: int, t: CsvType) returns (r: Option<bool>)
    requires WellFormedCsv(csv, t)
    ensures r == OutOfStockInInterval(csv, start, end, t)
  {
    if t.isWithShipping {
      if csv.None? || |csv.value| < 6 {
        return None;
      }
    } else if start >= end || csv.None? || |csv.value| < 4 {
      return None;
    }
    var s := csv.value;
    var loopIncrement := Width(t);
    var i := 0;
    assert s[0..] == s;
    while i < |s|
      invariant 0 <= i <= |s| && WellFormed(s[i..], t)
      invariant OutOfStockIn(Records(s, t), start, end) == OutOfStockIn(Records(s[i..], t), start, end)
    {
      NextRecord(s, t, i);
      var date := s[i];
      if date <= start {
        i := i + loopIncrement;
        continue;
      }
      if date >= end {
        break;
      }
      if s[i + 1] == -1 {
        return Some(true);
      }
      i := i + loopIncrement;
    }
    NextRecord(s, t, i);
    return Some(false);
  }

  /**
   * One pass of the percentage loop body over the record whose value is at
   * flat index `i`, from in-stock duration `count`. An out-of-stock record
   * changes nothing. A record starting inside the window returns 0 when it
   * is the only record, and otherwise adds the time until the next record
   * (or `min(now, to)` after the last one), clipped to `to`. A record
   * starting before the window returns 0 when it is the last record or the
   * next one starts at or after `to`, and otherwise restarts the count at
   * the part of its interval inside the window.
   */
  function StockStepAt(s: seq<int>, t: CsvType, i: nat, from: int, to: int, now: int, count: int): Progress
    requires 1 <= i && i - 1 + Width(t) <= |s|
  {
    var adjustedIndex := if t.isWithShipping then 2 else 1;
    var c := s[i];
    var date := s[i - 1];
    if c == -1 then Counting(count)
    else if date >= from then
      if i == 1 && i + adjustedIndex == |s| then Returned(0)
      else
        var nextDate := if i + adjustedIndex == |s| then Min(now, to) else Min(s[i + adjustedIndex], to);
        Counting(count + (nextDate - date))
    else if i == |s| - adjustedIndex || s[i + adjustedIndex] >= to then Returned(0)
    else Counting(if s[i + adjustedIndex] >= from then s[i + adjustedIndex] - from else count)
  }

  /**
   * The percentage loop from the record whose value is at flat index `i` to
   * the end, or to the first record dated at or after `to`, or to an early
   * return.
   */
  function StockScanAt(s: seq<int>, t: CsvType, i: nat, from: int, to: int, now: int, count: int): Progress
    requires 1 <= i
    decreases |s| - i
  {
    if i - 1 + Width(t) > |s| || s[i - 1] >= to then Counting(count)
    else
      match StockStepAt(s, t, i, from, to, now, count)
      case Returned(x) => Returned(x)
      case Counting(next) => StockScanAt(s, t, i + Width(t), from, to, now, next)
  }

  /** Unfolding the percentage loop by one record dated before `to`. */
  lemma StockScanUnfold(s: seq<int>, t: CsvType, i: nat, from: int, to: int, now: int, count: int)
    requires 1 <= i && i - 1 + Width(t) <= |s| && s[i - 1] < to
    ensures var p := StockStepAt(s, t, i, from, to, now, count);
      StockScanAt(s, t, i, from, to, now, count) ==
      if p.Returned? then p else StockScanAt(s, t, i + Width(t), from, to, now, p.count)
  {
  }

  /**
   * One pass of the loop body over a record dated before `to` is one step of
   * the scan over the decoded records, where `single` says the csv holds
   * exactly one record.
   */
  lemma StockStepIsScanStep(s: seq<int>, t: CsvType, i: nat, from: int, to: int, now: int, count: int, single: bool)
    requires 1 <= i <= |s| && WellFormed(s[i - 1..], t) && s[i - 1] < to
    requires single <==> |s| == Width(t)
    ensures i - 1 + Width(t) <= |s| && WellFormed(s[i - 1 + Width(t)..], t)
    ensures var p := StockStepAt(s, t, i, from, to, now, count);
      InStockScan(Records(s[i - 1..], t), single, from, to, now, count) ==
      if p.Returned? then p else InStockScan(Records(s[i - 1 + Width(t)..], t), single, from, to, now, p.count)
  {
    FlatRecord(s, t, i);
    var x := i - 1;
    if t.isWithShipping {
      assert (|s| - x) % 3 == 0;
    } else {
      assert (|s| - x) % 2 == 0;
    }
    assert single <==> i == 1 && i + (if t.isWithShipping then 2 else 1) == |s|;
  }

  /** The loop over the flat csv computes the scan over the decoded records. */
  lemma {:induction false} StockScanAtIsInStockScan(s: seq<int>, t: CsvType, i: nat, from: int, to: int, now: int,
                                                    count: int, single: bool)
    requires 1 <= i <= |s| + 1 && WellFormed(s[i - 1..], t)
    requires single <==> |s| == Width(t)
    ensures StockScanAt(s, t, i, from, to, now, count) ==
            InStockScan(Records(s[i - 1..], t), single, from, to, now, count)
    decreases |s| - i
  {
    NextRecord(s, t, i - 1);
    if i - 1 < |s| && s[i - 1] < to {
      StockStepIsScanStep(s, t, i, from, to, now, count, single);
      var p := StockStepAt(s, t, i, from, to, now, count);
      if p.Counting? {
        StockScanAtIsInStockScan(s, t, i + Width(t), from, to, now, p.count, single);
      }
    }
  }

  /** Once the early checks pass, the loop over the flat csv computes the scan the percentage is taken of. */
  lemma PercentageOfScan(csv: Option<seq<int>>, now: int, start: int, end: int, t: CsvType, trackingSince: int)
    requires WellFormedCsv(csv, t) && HasPercentage(csv, start, end, t, trackingSince)
    ensures var from := if trackingSince > start then trackingSince else start;
      var to := if end > now then now else end;
      var rs := Records(csv.value, t);
      StockScanAt(csv.value, t, 1, from, to, now, 0) == InStockScan(rs, |rs| == 1, from, to, now, 0)
  {
    var s := csv.value;
    var w := Width(t);
    var rs := Records(s, t);
    FirstRecord(s, t);
    TwoRecords(s, t);
    if t.isWithShipping {
      assert |s| % 3 == 0;
    } else {
      assert |s| % 2 == 0;
    }
    assert |rs| == 1 <==> |s| == w;
    assert s[1 - 1..] == s;
    var from := if trackingSince > start then trackingSince else start;
    var to := if end > now then now else end;
    StockScanAtIsInStockScan(s, t, 1, from, to, now, 0, |rs| == 1);
  }

  /**
   * The loop of `getOutOfStockPercentageInInterval` over the clamped window
   * `[from, to)`: the in-stock time it counts, or the value it returns early.
   */
  method InStockLoop(s: seq<int>, t: CsvType, from: int, to: int, now: int) returns (p: Progress)
    requires WellFormed(s, t)
    ensures p == StockScanAt(s, t, 1, from, to, now, 0)
    ensures p.Counting? && p.count != 0 ==> from < to
  {
    var count := 0;
    var loopIncrement := Width(t);
    var adjustedIndex := if t.isWithShipping then 2 else 1;
    ghost var scan := StockScanAt(s, t, 1, from, to, now, 0);
    ghost var rem := WholeRecords(s, t);
    var i := 1;
    var j := |s|;
    while i < j
      invariant 1 <= i <= |s| + 1 && |s| - (i - 1) == Span(t, rem)
      invariant scan == StockScanAt(s, t, i, from, to, now, count)
      invariant count != 0 ==> from < to
    {
      ghost var before := count;
      var c := s[i];
      var date := s[i - 1];
      if date >= to {
        break;
      }
      StockScanUnfold(s, t, i, from, to, now, count);
      if c != -1 {
        if date >= from {
          if i == 1 {
            if i + adjustedIndex == j {
              assert StockStepAt(s, t, i, from, to, now, before) == Returned(0);
              return Returned(0);
            }
          }
          var nextDate;
          if i + adjustedIndex == j {
            nextDate := if now < to then now else to;
          } else {
            nextDate := s[i + adjustedIndex];
            if nextDate > to {
              nextDate := to;
            }
          }
          count := count + (nextDate - date);
          assert StockStepAt(s, t, i, from, to, now, before) == Counting(count);
        } else {
          if i == j - adjustedIndex {
            assert StockStepAt(s, t, i, from, to, now, before) == Returned(0);
            return Returned(0);
          } else {
            var nextDate := s[i + adjustedIndex];
            if nextDate >= to {
              assert StockStepAt(s, t, i, from, to, now, before) == Returned(0);
              return Returned(0);
            }
            if nextDate >= from {
              count := nextDate - from;
            }
            assert StockStepAt(s, t, i, from, to, now, before) == Counting(count);
          }
        }
      } else {
        assert StockStepAt(s, t, i, from, to, now, before) == Counting(count);
      }
      i := i + loopIncrement;
      rem := rem - 1;
    }
    return Counting(count);
  }

  /**
   * `getOutOfStockPercentageInInterval`: the share of the clamped window that
   * was not covered by in-stock records, in percent, or -1 when the early
   * checks fail.
   */
  method GetOutOfStockPercentageInInterval(csv: Option<seq<int>>, now: int, start: int, end: int, t: CsvType,
                                           trackingSince: int) returns (r: int)
    requires WellFormedCsv(csv, t)
    ensures r == OutOfStockPercentage(csv, now, start, end, t, trackingSince)
  {
    if !t.isPrice {
      return -1;
    }
    if start >= end {
      return -1;
    }
    if csv.None? || |csv.value| == 0 {
      return -1;
    }
    var s := csv.value;
    LastRecord(s, t);
    var lastTime := GetLastTime(csv, t);
    var firstTime := s[0];
    if lastTime == -1 || firstTime == -1 || firstTime > end || trackingSince > end {
      return -1;
    }
    var from := start;
    if trackingSince > from {
      from := trackingSince;
    }
    var to := end;
    if to > now {
      to := now;
    }
    var p := InStockLoop(s, t, from, to, now);
    PercentageOfScan(csv, now, start, end, t, trackingSince);
    if p.Returned? {
      return p.result;
    }
    var count := p.count;
    if count > 0 {
      count := 100 - (count * 100) / (to - from);
    } else if count == 0 {
      count := 100;
    }
    return count;
  }
}
