/**
 * Specification of the extreme finder: the lowest and highest price over a
 * half-open window `[start, end)`, each with the time it was first reached.
 */
module ExtremeFinder {
  import opened Wrappers
  import opened CsvFormat

  /** A candidate for the extremes: the time it is reported at and its price. */
  datatype Point = Point(time: int, value: int)

  /** The price a record offers to the extreme finder: its value plus its shipping cost. */
  function CandidateValue(r: Record): int
  {
    r.value + ShippingCost(r.shipping)
  }

  /**
   * How a record dated before the window is admitted, by the date of the
   * next record: `AtOrAfter` when that date is at or after `from`, as the
   * extreme finder is written, or `After` when it is strictly after `from`,
   * that is, when the record is still in force at `from`.
   */
  datatype StartRule = AtOrAfter | After

  /** Whether a next record dated `next` lets its predecessor count at `from` under `rule`. */
  predicate EndsInside(rule: StartRule, next: int, from: int)
  {
    if rule == AtOrAfter then next >= from else next > from
  }

  /**
   * Whether record `j` takes part in the scan of `[from, end)`: it starts
   * before `end`, and either starts at or after `from`, or is the last record,
   * or the next record starts at or after `end`, or the next record's date
   * admits it under `rule`: under `AtOrAfter` this includes a record that
   * ends exactly at `from`.
   */
  predicate Overlaps(rs: seq<Record>, j: nat, from: int, end: int, rule: StartRule)
    requires j < |rs|
  {
    rs[j].time < end &&
    (rs[j].time >= from || j == |rs| - 1 || rs[j + 1].time >= end || EndsInside(rule, rs[j + 1].time, from))
  }

  /**
   * The candidates, in record order, of a scan over `[from, end)` that stops at
   * the first record dated at or after `end`. A record that is not out of
   * stock is a candidate at its own time when it starts inside the window,
   * and at `from` when it starts earlier and `Overlaps` admits it: under
   * `AtOrAfter` that includes a record that ends at `from` exactly.
   */
  function Candidates(rs: seq<Record>, from: int, end: int, rule: StartRule): (ps: seq<Point>)
    ensures |ps| <= |rs|
    ensures from < end ==> forall p :: p in ps ==> from <= p.time < end
    decreases |rs|
  {
    if rs == [] || rs[0].time >= end then []
    else
      var rest := Candidates(rs[1..], from, end, rule);
      if rs[0].value == -1 then rest
      else if Overlaps(rs, 0, from, end, rule) then
        [Point(if rs[0].time >= from then rs[0].time else from, CandidateValue(rs[0]))] + rest
      else rest
  }

  /**
   * Out-of-stock records are never candidates: every candidate is the price
   * of a record that is not out of stock and that `Overlaps` admits, reported
   * at that record's time or, when it starts before the window, at `from`.
   */
  lemma {:induction false} CandidateSource(rs: seq<Record>, from: int, end: int, i: nat, rule: StartRule)
    requires i < |Candidates(rs, from, end, rule)|
    ensures exists j :: 0 <= j < |rs| && rs[j].value != -1 && Overlaps(rs, j, from, end, rule) &&
                        Candidates(rs, from, end, rule)[i] ==
                          Point(if rs[j].time >= from then rs[j].time else from, CandidateValue(rs[j]))
    decreases |rs|
  {
    var ps := Candidates(rs, from, end, rule);
    var rest := Candidates(rs[1..], from, end, rule);
    if rs[0].value != -1 && Overlaps(rs, 0, from, end, rule) && i == 0 {
      assert ps[0] == Point(if rs[0].time >= from then rs[0].time else from, CandidateValue(rs[0]));
    } else {
      var k := if rs[0].value != -1 && Overlaps(rs, 0, from, end, rule) then i - 1 else i;
      assert ps[i] == rest[k];
      CandidateSource(rs[1..], from, end, k, rule);
      var j :| 0 <= j < |rs[1..]| && rs[1..][j].value != -1 && Overlaps(rs[1..], j, from, end, rule) &&
               rest[k] == Point(if rs[1..][j].time >= from then rs[1..][j].time else from, CandidateValue(rs[1..][j]));
      assert rs[1..][j] == rs[j + 1];
      assert j + 1 < |rs[1..]| ==> rs[1..][j + 1] == rs[j + 2];
      assert Overlaps(rs, j + 1, from, end, rule);
    }
  }

  /** The four slots of the result: time and value of the minimum, time and value of the maximum. */
  datatype Extremes = Extremes(minTime: int, minValue: int, maxTime: int, maxValue: int)

  /** The slots before the scan: no minimum yet (`Integer.MAX_VALUE`), maximum -1. */
  const Initial := Extremes(-1, IntMax, -1, -1)

  /** The answer when no extreme point exists. */
  const NoExtremes := Extremes(-1, -1, -1, -1)

  /** One step of the scan; the comparisons are strict, so on a tie the earlier candidate stays. */
  function Track(e: Extremes, p: Point): Extremes
  {
    var e1 := if p.value < e.minValue then e.(minTime := p.time, minValue := p.value) else e;
    if p.value > e1.maxValue then e1.(maxTime := p.time, maxValue := p.value) else e1
  }

  /** The slots after scanning the candidates `ps` in order from `e`. */
  function Fold(ps: seq<Point>, e: Extremes): (r: Extremes)
    ensures r.minValue <= e.minValue && e.maxValue <= r.maxValue
    ensures forall p :: p in ps ==> r.minValue <= p.value <= r.maxValue
    decreases |ps|
  {
    if ps == [] then e else Fold(ps[1..], Track(e, ps[0]))
  }

  /** The slots after the first record's candidate (if it has one), before the rest. */
  function FirstStep(rs: seq<Record>, from: int, end: int, e: Extremes, rule: StartRule): Extremes
    requires rs != []
  {
    if rs[0].value != -1 && Overlaps(rs, 0, from, end, rule) then
      Track(e, Point(if rs[0].time >= from then rs[0].time else from, CandidateValue(rs[0])))
    else e
  }

  /** Folding the candidates of a history dated before `end` starts with its first record's step. */
  lemma FoldFirstCandidate(rs: seq<Record>, from: int, end: int, e: Extremes, rule: StartRule)
    requires rs != [] && rs[0].time < end
    ensures Fold(Candidates(rs, from, end, rule), e) == Fold(Candidates(rs[1..], from, end, rule), FirstStep(rs, from, end, e, rule))
  {
    var here := Candidates(rs, from, end, rule);
    var next := Candidates(rs[1..], from, end, rule);
    if here != next {
      assert here[1..] == next;
    }
  }

  /**
   * The minimum slot either keeps its start value, or holds a candidate that
   * lowered it, and every candidate before that one was strictly higher: the
   * earliest of equal minima is reported.
   */
  lemma {:induction false} FoldMinWitness(ps: seq<Point>, e: Extremes)
    ensures var r := Fold(ps, e);
      (r.minTime == e.minTime && r.minValue == e.minValue) ||
      (r.minValue < e.minValue &&
       exists m :: 0 <= m < |ps| && ps[m] == Point(r.minTime, r.minValue) &&
                   forall l :: 0 <= l < m ==> ps[l].value > r.minValue)
    decreases |ps|
  {
    if ps != [] {
      var e1 := Track(e, ps[0]);
      var r := Fold(ps, e);
      assert r == Fold(ps[1..], e1);
      FoldMinWitness(ps[1..], e1);
      if r.minTime == e1.minTime && r.minValue == e1.minValue {
        if ps[0].value < e.minValue {
          assert ps[0] == Point(r.minTime, r.minValue);
        }
      } else {
        var m :| 0 <= m < |ps[1..]| && ps[1..][m] == Point(r.minTime, r.minValue) &&
                 forall l :: 0 <= l < m ==> ps[1..][l].value > r.minValue;
        assert ps[m + 1] == ps[1..][m];
        forall l | 0 <= l < m + 1
          ensures ps[l].value > r.minValue
        {
          if l > 0 {
            assert ps[l] == ps[1..][l - 1];
          }
        }
      }
    }
  }

  /** The same for the maximum slot: the earliest of equal maxima is reported. */
  lemma {:induction false} FoldMaxWitness(ps: seq<Point>, e: Extremes)
    ensures var r := Fold(ps, e);
      (r.maxTime == e.maxTime && r.maxValue == e.maxValue) ||
      (r.maxValue > e.maxValue &&
       exists m :: 0 <= m < |ps| && ps[m] == Point(r.maxTime, r.maxValue) &&
                   forall l :: 0 <= l < m ==> ps[l].value < r.maxValue)
    decreases |ps|
  {
    if ps != [] {
      var e1 := Track(e, ps[0]);
      var r := Fold(ps, e);
      assert r == Fold(ps[1..], e1);
      FoldMaxWitness(ps[1..], e1);
      if r.maxTime == e1.maxTime && r.maxValue == e1.maxValue {
        if ps[0].value > e.maxValue {
          assert ps[0] == Point(r.maxTime, r.maxValue);
        }
      } else {
        var m :| 0 <= m < |ps[1..]| && ps[1..][m] == Point(r.maxTime, r.maxValue) &&
                 forall l :: 0 <= l < m ==> ps[1..][l].value < r.maxValue;
        assert ps[m + 1] == ps[1..][m];
        forall l | 0 <= l < m + 1
          ensures ps[l].value < r.maxValue
        {
          if l > 0 {
            assert ps[l] == ps[1..][l - 1];
          }
        }
      }
    }
  }

  /** The window start after clamping: never before the first record's time. */
  function WindowStart(s: seq<int>, start: int): (from: int)
    requires |s| > 0
    ensures from >= start && from >= s[0]
  {
    if s[0] > start then s[0] else start
  }

  /**
   * The early checks of the extreme finder pass: the csv is not null and
   * holds at least two records, the window is not empty, neither the first
   * nor the last time is -1, and the first record is not after `end`.
   */
  predicate Qualifies(csv: Option<seq<int>>, start: int, end: int, t: CsvType)
  {
    csv.Some? && start < end && |csv.value| >= 2 * Width(t) &&
    csv.value[|csv.value| - Width(t)] != -1 && csv.value[0] != -1 && csv.value[0] <= end
  }

  /** The slots after scanning every candidate of the clamped window. */
  function Scan(s: seq<int>, start: int, end: int, t: CsvType, rule: StartRule): Extremes
    requires |s| > 0
  {
    Fold(Candidates(Records(s, t), WindowStart(s, start), end, rule), Initial)
  }

  /**
   * `getExtremePointsInIntervalWithTime`: the scanned slots when the early
   * checks pass and some candidate lowered the minimum slot, all -1 otherwise.
   */
  function ExtremePoints(csv: Option<seq<int>>, start: int, end: int, t: CsvType, rule: StartRule): (r: Extremes)
    requires WellFormedCsv(csv, t)
    ensures csv.None? || start >= end || |csv.value| < 2 * Width(t) ==> r == NoExtremes
    ensures csv.Some? && |csv.value| > 0 && csv.value[0] > end ==> r == NoExtremes
    ensures r.minValue < IntMax
  {
    if !Qualifies(csv, start, end, t) then NoExtremes
    else
      var e := Scan(csv.value, start, end, t, rule);
      if e.minValue == IntMax then NoExtremes else e
  }

  /** The Java result array `[minTime, min, maxTime, max]`. */
  function ToArray(e: Extremes): (a: seq<int>)
    ensures |a| == 4
  {
    [e.minTime, e.minValue, e.maxTime, e.maxValue]
  }

  /**
   * In a sorted history, every record that is not out of stock and whose
   * interval reaches into `[from, end)` is a candidate, at its own time or,
   * when it starts earlier, at `from`.
   */
  lemma {:induction false} CandidateOf(rs: seq<Record>, from: int, end: int, j: nat, rule: StartRule)
    requires Sorted(rs) && from < end && j < |rs|
    requires rs[j].value != -1 && Overlaps(rs, j, from, end, rule)
    ensures Point(if rs[j].time >= from then rs[j].time else from, CandidateValue(rs[j])) in Candidates(rs, from, end, rule)
    decreases j
  {
    if j > 0 {
      SortedTail(rs);
      assert rs[1..][j - 1] == rs[j];
      assert j < |rs| - 1 ==> rs[1..][j] == rs[j + 1];
      CandidateOf(rs[1..], from, end, j - 1, rule);
      assert rs[0].time <= rs[j].time;
    }
  }

  /**
   * Every record of a sorted csv that is not out of stock, starts before
   * `end` and either starts at or after `start`, is the last record, or is
   * followed by a record whose date `rule` admits against `start`, is a
   * candidate. Under `After` these are the records starting before `end`
   * whose interval `[rs[j].time, rs[j + 1].time)` does not end at or before
   * `start` (the last record's never ends); a record replaced at its own time
   * still counts when that time lies in `[start, end)`. When the early checks
   * pass and the price is below `Integer.MAX_VALUE`, a result is found and the
   * price lies between the reported minimum and maximum.
   */
  lemma ExtremesCover(csv: Option<seq<int>>, start: int, end: int, t: CsvType, j: nat, rule: StartRule)
    requires WellFormedCsv(csv, t) && Sorted(History(csv, t)) && j < |History(csv, t)|
    requires var rs := History(csv, t);
      rs[j].value != -1 && rs[j].time < end &&
      (start <= rs[j].time || j == |rs| - 1 || EndsInside(rule, rs[j + 1].time, start))
    ensures Qualifies(csv, start, end, t) ==>
      var c := CandidateValue(History(csv, t)[j]);
      var e := Scan(csv.value, start, end, t, rule);
      e.minValue <= c <= e.maxValue &&
      (c < IntMax ==> ExtremePoints(csv, start, end, t, rule) == e)
  {
    if Qualifies(csv, start, end, t) {
      var s := csv.value;
      var rs := Records(s, t);
      FirstRecord(s, t);
      assert rs[0].time <= rs[j].time;
      var from := WindowStart(s, start);
      assert Overlaps(rs, j, from, end, rule);
      CandidateOf(rs, from, end, j, rule);
    }
  }

  /**
   * `e` reports extremes of the candidates `ps` inside `[from, end)`: the
   * minimum at the first candidate with the lowest price, the maximum (unless
   * it stayed -1) at the first candidate with the highest price, and the
   * minimum not above the maximum.
   */
  ghost predicate ReportsFirst(ps: seq<Point>, e: Extremes, from: int, end: int)
  {
    e.minValue <= e.maxValue &&
    from <= e.minTime < end && (e.maxValue != -1 ==> from <= e.maxTime < end) &&
    (exists m :: 0 <= m < |ps| && ps[m] == Point(e.minTime, e.minValue) &&
                 forall l :: 0 <= l < m ==> ps[l].value > e.minValue) &&
    (e.maxValue != -1 ==> exists m :: 0 <= m < |ps| && ps[m] == Point(e.maxTime, e.maxValue) &&
                                      forall l :: 0 <= l < m ==> ps[l].value < e.maxValue)
  }

  /** Scanning candidates that all lie in `[from, end)` reports first extremes once the minimum slot was lowered. */
  lemma FoldReportsFirst(ps: seq<Point>, from: int, end: int)
    requires forall p :: p in ps ==> from <= p.time < end
    requires Fold(ps, Initial).minValue < IntMax
    ensures ReportsFirst(ps, Fold(ps, Initial), from, end)
  {
    var e := Fold(ps, Initial);
    FoldMinWitness(ps, Initial);
    FoldMaxWitness(ps, Initial);
    var m :| 0 <= m < |ps| && ps[m] == Point(e.minTime, e.minValue) &&
             forall l :: 0 <= l < m ==> ps[l].value > e.minValue;
    assert ps[m] in ps;
    if e.maxValue != -1 {
      var n :| 0 <= n < |ps| && ps[n] == Point(e.maxTime, e.maxValue) &&
               forall l :: 0 <= l < n ==> ps[l].value < e.maxValue;
      assert ps[n] in ps;
    }
  }

  /**
   * A found result reports first extremes of the window's candidates, with
   * both times inside `[max(start, first time), end)`.
   */
  lemma ExtremesWitness(csv: Option<seq<int>>, start: int, end: int, t: CsvType, rule: StartRule)
    requires WellFormedCsv(csv, t) && Qualifies(csv, start, end, t)
    requires Scan(csv.value, start, end, t, rule).minValue < IntMax
    ensures ExtremePoints(csv, start, end, t, rule) == Scan(csv.value, start, end, t, rule)
    ensures ReportsFirst(Candidates(Records(csv.value, t), WindowStart(csv.value, start), end, rule),
                         ExtremePoints(csv, start, end, t, rule), WindowStart(csv.value, start), end)
  {
    var s := csv.value;
    var from := WindowStart(s, start);
    var rs := Records(s, t);
    var ps := Candidates(rs, from, end, rule);
    FirstRecord(s, t);
    assert ps != [];
    assert from < end;
    FoldReportsFirst(ps, from, end);
  }

  /**
   * As written, the scan also admits a record that ends exactly at the window
   * start: price 10 from time 0, replaced by 20 at time 100. Over `[100, 200)`
   * only 20 is ever in force, yet the minimum 10 is reported at time 100;
   * under the corrected rule the minimum is 20.
   */
  lemma StaleRecordAtStart()
    ensures History(Some([0, 10, 100, 20]), CsvType(false, true)) == [Record(0, 10, 0), Record(100, 20, 0)]
    ensures ExtremePoints(Some([0, 10, 100, 20]), 100, 200, CsvType(false, true), AtOrAfter) == Extremes(100, 10, 100, 20)
    ensures ExtremePoints(Some([0, 10, 100, 20]), 100, 200, CsvType(false, true), After) == Extremes(100, 20, 100, 20)
  {
    var s := [0, 10, 100, 20];
    var t := CsvType(false, true);
    assert s[2..][2..] == [];
    var rs := Records(s, t);
    assert rs == [Record(0, 10, 0), Record(100, 20, 0)];
    assert rs[1..] == [Record(100, 20, 0)];
    assert Candidates(rs[1..][1..], 100, 200, AtOrAfter) == [];
    assert Candidates(rs[1..][1..], 100, 200, After) == [];
    assert Candidates(rs, 100, 200, AtOrAfter) == [Point(100, 10), Point(100, 20)];
    assert Candidates(rs, 100, 200, After) == [Point(100, 20)];
  }

  /**
   * Under the corrected rule, a candidate reported at `from` for a record that
   * starts before the window carries the price in force at `from`: no later
   * record starts at or before `from`.
   */
  lemma CandidateInForce(rs: seq<Record>, from: int, end: int, i: nat)
    requires i < |Candidates(rs, from, end, After)|
    ensures exists j :: 0 <= j < |rs| && rs[j].value != -1 && rs[j].time < end &&
                        Candidates(rs, from, end, After)[i] ==
                          Point(if rs[j].time >= from then rs[j].time else from, CandidateValue(rs[j])) &&
                        (rs[j].time < from && from < end ==> j == |rs| - 1 || from < rs[j + 1].time)
  {
    CandidateSource(rs, from, end, i, After);
  }
}
