/**
 * Specifications of the point lookups over a decoded history: the value in
 * force at a time (a right-continuous step function) and the closest known
 * value, which skips runs of out-of-stock records.
 */
module PointLookup {
  import opened Wrappers
  import opened CsvFormat

  /**
   * The number of leading records whose time is not after `time`: the scan
   * stops at the first record dated after it.
   */
  function LeadCount(rs: seq<Record>, time: int): (k: nat)
    ensures k <= |rs|
    ensures forall j :: 0 <= j < k ==> rs[j].time <= time
    ensures k < |rs| ==> rs[k].time > time
  {
    if rs == [] || rs[0].time > time then 0 else 1 + LeadCount(rs[1..], time)
  }

  /** In a sorted history every record dated at or before `time` is among the leading ones. */
  lemma LeadCountSorted(rs: seq<Record>, time: int, j: int)
    requires Sorted(rs) && 0 <= j < |rs|
    ensures rs[j].time <= time <==> j < LeadCount(rs, time)
  {
  }

  /** Records known to be dated at or before `time` all count among the leading ones. */
  lemma {:induction false} LeadCountAppend(done: seq<Record>, rest: seq<Record>, time: int)
    requires forall j :: 0 <= j < |done| ==> done[j].time <= time
    ensures LeadCount(done + rest, time) == |done| + LeadCount(rest, time)
    decreases |done|
  {
    if done == [] {
      assert done + rest == rest;
    } else {
      assert (done + rest)[1..] == done[1..] + rest;
      LeadCountAppend(done[1..], rest, time);
    }
  }

  /**
   * A history split into records dated at or before `time` and a rest that
   * starts after `time`: the leading records are exactly the first part.
   */
  lemma LeadPrefix(rs: seq<Record>, done: seq<Record>, rest: seq<Record>, time: int)
    requires rs == done + rest
    requires forall j :: 0 <= j < |done| ==> done[j].time <= time
    requires rest == [] || rest[0].time > time
    ensures LeadCount(rs, time) == |done| && rs[|done|..] == rest
    ensures done != [] ==> rs[|done| - 1] == done[|done| - 1]
  {
    LeadCountAppend(done, rest, time);
  }

  /**
   * The landing value in force at `time`: that of the last leading record,
   * or -1 when `time` is before the first record (or there is none).
   */
  function ValueAt(rs: seq<Record>, time: int): (v: int)
    ensures rs == [] || time < rs[0].time ==> v == -1
  {
    var k := LeadCount(rs, time);
    if k == 0 then -1 else rs[k - 1].Landing()
  }

  /**
   * Step-function behaviour on a sorted history: the value at `time` is the
   * landing value of the record `j` whose interval `[rs[j].time, rs[j+1].time)`
   * contains `time` (the last record's interval never ends).
   */
  lemma ValueAtInForce(rs: seq<Record>, time: int, j: int)
    requires Sorted(rs) && 0 <= j < |rs|
    requires rs[j].time <= time && (j + 1 < |rs| ==> time < rs[j + 1].time)
    ensures ValueAt(rs, time) == rs[j].Landing()
  {
    LeadCountSorted(rs, time, j);
    if j + 1 < |rs| {
      LeadCountSorted(rs, time, j + 1);
    }
  }

  /** The raw `[price, shipping]` pair in force at `time`, `[-1, -1]` before the first record. */
  function PriceAndShippingAt(rs: seq<Record>, time: int): (p: seq<int>)
    ensures |p| == 2
    ensures rs == [] || time < rs[0].time ==> p == [-1, -1]
  {
    var k := LeadCount(rs, time);
    if k == 0 then [-1, -1] else [rs[k - 1].value, rs[k - 1].shipping]
  }

  /**
   * Step-function behaviour of the pair lookup on a sorted history: the pair
   * at `time` is the raw price and shipping of the record in force.
   */
  lemma PriceAndShippingAtInForce(rs: seq<Record>, time: int, j: int)
    requires Sorted(rs) && 0 <= j < |rs|
    requires rs[j].time <= time && (j + 1 < |rs| ==> time < rs[j + 1].time)
    ensures PriceAndShippingAt(rs, time) == [rs[j].value, rs[j].shipping]
  {
    LeadCountSorted(rs, time, j);
    if j + 1 < |rs| {
      LeadCountSorted(rs, time, j + 1);
    }
  }

  /** The landing price of the pair at `time` is the value at `time`. */
  lemma PriceAndShippingAtLanding(rs: seq<Record>, time: int)
    ensures var p := PriceAndShippingAt(rs, time); LandingPrice(p[0], p[1]) == ValueAt(rs, time)
  {
  }

  /**
   * The index of the first record at or after `j` whose value is not the
   * -1 sentinel, or of the last record when there is none.
   */
  function FirstKnown(rs: seq<Record>, j: nat): (m: nat)
    requires j < |rs|
    ensures j <= m < |rs|
    ensures forall l :: j <= l < m ==> rs[l].value == -1
    ensures rs[m].value != -1 || m == |rs| - 1
    decreases |rs| - j
  {
    if rs[j].value != -1 || j == |rs| - 1 then j else FirstKnown(rs, j + 1)
  }

  /** The record in force at `time`, or the first record when `time` is before it. */
  function StartRecord(rs: seq<Record>, time: int): (j: nat)
    requires rs != []
    ensures j < |rs|
  {
    var k := LeadCount(rs, time);
    if k == 0 then 0 else k - 1
  }

  /**
   * The closest known value at `time`: starting from the record in force (or
   * the first record), the landing value of the first record that is not out
   * of stock; when every later record is out of stock, the last record's value.
   */
  function ClosestValueAt(rs: seq<Record>, time: int): (v: int)
  {
    if rs == [] then -1 else rs[FirstKnown(rs, StartRecord(rs, time))].Landing()
  }

  /** When the record in force is not out of stock, the closest value is the value at `time`. */
  lemma ClosestInForce(rs: seq<Record>, time: int)
    requires LeadCount(rs, time) > 0 && rs[LeadCount(rs, time) - 1].value != -1
    ensures ClosestValueAt(rs, time) == ValueAt(rs, time)
  {
  }

  /**
   * The closest value is -1 only when no record from the start record on
   * has a known value; otherwise it is the landing value of such a record,
   * and every record skipped before it was out of stock.
   */
  lemma {:induction false} ClosestSkipsUnknown(rs: seq<Record>, time: int)
    requires rs != []
    ensures var j := StartRecord(rs, time);
      var v := ClosestValueAt(rs, time);
      (v == -1 <==> forall l :: j <= l < |rs| ==> rs[l].value == -1) &&
      (v != -1 ==> exists m :: j <= m < |rs| && rs[m].value != -1 && v == rs[m].Landing() &&
                               forall l :: j <= l < m ==> rs[l].value == -1)
  {
    var j := StartRecord(rs, time);
    var m := FirstKnown(rs, j);
    if rs[m].value == -1 {
      assert forall l :: j <= l < |rs| ==> rs[l].value == -1;
    }
  }

  /**
   * `getClosestValueAtTime` as written: on a csv with shipping that holds a
   * single record, a time before that record reads the record's price and
   * shipping in swapped order (line 226-228); everything else follows
   * `ClosestValueAt`.
   */
  function ClosestValueAtAsWritten(csv: Option<seq<int>>, time: int, t: CsvType): int
    requires WellFormedCsv(csv, t)
  {
    if t.isWithShipping && csv.Some? && |csv.value| == 3 && csv.value[0] > time then
      LandingPrice(csv.value[2], csv.value[1])
    else
      ClosestValueAt(History(csv, t), time)
  }

  /**
   * The swapped read reports an out-of-stock single record as in stock at the
   * price of its shipping cost, where the record's own landing value is -1.
   */
  lemma ClosestSwapReportsShipping(price: int, shipping: int, recordTime: int, time: int)
    requires price == -1 && shipping >= 0 && time < recordTime
    ensures ClosestValueAtAsWritten(Some([recordTime, price, shipping]), time, WithShipping) == shipping
    ensures ClosestValueAt(History(Some([recordTime, price, shipping]), WithShipping), time) == -1
  {
    var s := [recordTime, price, shipping];
    FirstRecord(s, WithShipping);
    NextRecord(s, WithShipping, 3);
    assert s[3..] == [];
  }

  /**
   * The swapped read goes unnoticed on a record whose price and shipping are
   * both known: their sum is the same either way round, so the value as
   * written is the record's landing price.
   */
  lemma ClosestSwapAgreesWhenKnown(price: int, shipping: int, recordTime: int, time: int)
    requires price >= 0 && shipping >= 0 && time < recordTime
    ensures ClosestValueAtAsWritten(Some([recordTime, price, shipping]), time, WithShipping) ==
            ClosestValueAt(History(Some([recordTime, price, shipping]), WithShipping), time) == price + shipping
  {
    var s := [recordTime, price, shipping];
    FirstRecord(s, WithShipping);
    NextRecord(s, WithShipping, 3);
    assert s[3..] == [];
  }
}
