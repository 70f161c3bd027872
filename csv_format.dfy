/**
 * The Keepa history csv format: a flat integer array of records
 * `(time, value)`, or `(time, value, shipping)` when the csv type carries
 * shipping costs. A value of -1 means "out of stock / unknown".
 */
module CsvFormat {
  import opened Wrappers

  /** Java's `Integer.MAX_VALUE`, used by the extreme finder as "no minimum yet". */
  const IntMax: int := 0x7fff_ffff

  /** The two flags of `Product.CsvType` that the analyzer reads. */
  datatype CsvType = CsvType(isWithShipping: bool, isPrice: bool)

  /** The type used by the price-and-shipping accessors, which always step by 3. */
  const WithShipping := CsvType(true, true)

  /** Number of integers per record. */
  function Width(t: CsvType): (w: nat)
    ensures w == 2 || w == 3
    ensures w == 3 <==> t.isWithShipping
  {
    if t.isWithShipping then 3 else 2
  }

  /** A shipping cost as it is added to a price: unknown (negative) counts as 0. */
  function ShippingCost(shipping: int): (c: nat)
    ensures shipping >= 0 ==> c == shipping
  {
    if shipping < 0 then 0 else shipping
  }

  /**
   * The landing price of a value and its shipping cost: a negative value
   * (the -1 sentinel) passes through unchanged, otherwise the shipping cost
   * is added with a negative shipping counting as 0.
   */
  function LandingPrice(value: int, shipping: int): (p: int)
    ensures p < 0 <==> value < 0
    ensures value < 0 ==> p == value
    ensures value >= 0 ==> value <= p && (shipping >= 0 ==> p - value == shipping)
    ensures shipping <= 0 ==> p == value
  {
    if value < 0 then value else value + ShippingCost(shipping)
  }

  /** One decoded record; a record of a csv without shipping has shipping 0. */
  datatype Record = Record(time: int, value: int, shipping: int)
  {
    function Landing(): int
    {
      LandingPrice(value, shipping)
    }
  }

  /** The length of a well-formed csv is a multiple of the record width. */
  predicate WellFormed(s: seq<int>, t: CsvType)
  {
    if t.isWithShipping then |s| % 3 == 0 else |s| % 2 == 0
  }

  /** A possibly null csv whose length, when it is not null, is a multiple of the width. */
  predicate WellFormedCsv(csv: Option<seq<int>>, t: CsvType)
  {
    csv.Some? ==> WellFormed(csv.value, t)
  }

  /** The record that starts at the head of `x`. */
  function RecordAt(x: seq<int>, t: CsvType): Record
    requires |x| >= Width(t)
  {
    Record(x[0], x[1], if t.isWithShipping then x[2] else 0)
  }

  /** The records of a flat csv, in order; a trailing partial record is dropped. */
  function Records(s: seq<int>, t: CsvType): seq<Record>
    decreases |s|
  {
    if |s| < Width(t) then [] else [RecordAt(s, t)] + Records(s[Width(t)..], t)
  }

  /** The records of a possibly null csv: `null` has none. */
  function History(csv: Option<seq<int>>, t: CsvType): seq<Record>
  {
    if csv.None? then [] else Records(csv.value, t)
  }

  /** Times never decrease from one record to a later one. */
  predicate Sorted(rs: seq<Record>)
  {
    forall a, b :: 0 <= a < b < |rs| ==> rs[a].time <= rs[b].time
  }

  /**
   * Stepping over one record of a well-formed suffix `s[x..]`: either the
   * suffix is empty, or a whole record starts at `x` and the rest is again
   * well formed.
   */
  lemma NextRecord(s: seq<int>, t: CsvType, x: int)
    requires 0 <= x <= |s| && WellFormed(s[x..], t)
    ensures x == |s| ==> Records(s[x..], t) == []
    ensures x < |s| ==> x + Width(t) <= |s| && WellFormed(s[x + Width(t)..], t)
    ensures x < |s| ==> Records(s[x..], t) == [RecordAt(s[x..], t)] + Records(s[x + Width(t)..], t)
  {
    if x < |s| {
      WellFormedStep(s, t, x);
      RecordsStep(s, t, x);
    }
  }

  /** A non-empty well-formed suffix holds a whole record, and what follows it is again well formed. */
  lemma WellFormedStep(s: seq<int>, t: CsvType, x: int)
    requires 0 <= x < |s| && WellFormed(s[x..], t)
    ensures x + Width(t) <= |s| && WellFormed(s[x + Width(t)..], t)
  {
    if t.isWithShipping {
      assert (|s| - x) % 3 == 0;
    } else {
      assert (|s| - x) % 2 == 0;
    }
  }

  /** A non-empty well-formed csv holds at least one whole record. */
  lemma RecordFits(s: seq<int>, t: CsvType)
    requires WellFormed(s, t) && |s| > 0
    ensures |s| >= Width(t)
  {
    if t.isWithShipping {
      assert |s| % 3 == 0;
    } else {
      assert |s| % 2 == 0;
    }
  }

  /** The number of integers that `n` records take up. */
  function Span(t: CsvType, n: nat): (k: nat)
    ensures n > 0 ==> k >= Width(t)
  {
    if t.isWithShipping then 3 * n else 2 * n
  }

  /** A well-formed csv is made of a whole number of records. */
  lemma WholeRecords(s: seq<int>, t: CsvType) returns (n: nat)
    requires WellFormed(s, t)
    ensures |s| == Span(t, n)
  {
    n := |s| / Width(t);
  }

  /** A whole number of records is well formed. */
  lemma SpanIsWellFormed(s: seq<int>, t: CsvType, n: nat)
    requires |s| == Span(t, n)
    ensures WellFormed(s, t)
  {
  }

  /** Decoding from any offset that still holds a whole record reads that record first. */
  lemma RecordsStep(s: seq<int>, t: CsvType, x: int)
    requires 0 <= x && x + Width(t) <= |s|
    ensures Records(s[x..], t) == [RecordAt(s[x..], t)] + Records(s[x + Width(t)..], t)
  {
    assert s[x..][Width(t)..] == s[x + Width(t)..];
  }

  /** A non-empty well-formed csv has a first record made of its first integers. */
  lemma FirstRecord(s: seq<int>, t: CsvType)
    requires WellFormed(s, t) && |s| > 0
    ensures |Records(s, t)| > 0 && Records(s, t)[0] == RecordAt(s, t)
  {
    NextRecord(s, t, 0);
    assert s[0..] == s;
  }

  /** The last record of a non-empty well-formed csv is made of its last `Width` integers. */
  lemma {:induction false} LastRecord(s: seq<int>, t: CsvType)
    requires WellFormed(s, t) && |s| > 0
    ensures |s| >= Width(t)
    ensures var rs := Records(s, t); |rs| > 0 && rs[|rs| - 1] == RecordAt(s[|s| - Width(t)..], t)
    decreases |s|
  {
    NextRecord(s, t, 0);
    assert s[0..] == s;
    var w := Width(t);
    if |s| > w {
      LastRecord(s[w..], t);
      assert s[w..][|s[w..]| - w..] == s[|s| - w..];
    } else {
      assert s[|s| - w..] == s;
    }
  }

  /** A well-formed csv has at least two records exactly when it holds two widths of integers. */
  lemma TwoRecords(s: seq<int>, t: CsvType)
    requires WellFormed(s, t)
    ensures |Records(s, t)| >= 2 <==> |s| >= 2 * Width(t)
  {
    var w := Width(t);
    NextRecord(s, t, 0);
    assert s[0..] == s;
    if |s| > 0 {
      NextRecord(s, t, w);
      assert s[w..] == s[w..][0..];
    }
  }

  /** Decoding a well-formed prefix and the rest separately gives the same records as decoding both together. */
  lemma {:induction false} RecordsAppend(a: seq<int>, b: seq<int>, t: CsvType)
    requires WellFormed(a, t)
    ensures Records(a + b, t) == Records(a, t) + Records(b, t)
    decreases |a|
  {
    if |a| == 0 {
      assert a + b == b;
    } else {
      var w := Width(t);
      NextRecord(a, t, 0);
      assert a[0..] == a;
      assert (a + b)[w..] == a[w..] + b;
      RecordsAppend(a[w..], b, t);
    }
  }

  /** Dropping the last record of a well-formed csv leaves it well formed. */
  lemma WellFormedDropLast(s: seq<int>, t: CsvType)
    requires WellFormed(s, t) && |s| >= Width(t)
    ensures WellFormed(s[..|s| - Width(t)], t)
  {
    if t.isWithShipping {
      assert (|s| - 3) % 3 == 0;
    } else {
      assert (|s| - 2) % 2 == 0;
    }
  }

  /** A csv of exactly one record decodes to that record. */
  lemma OneRecord(b: seq<int>, t: CsvType)
    requires |b| == Width(t)
    ensures Records(b, t) == [RecordAt(b, t)]
  {
    RecordsStep(b, t, 0);
    assert b[0..] == b && b[Width(t)..] == [];
  }

  /** Decoding splits at any offset whose prefix is well formed. */
  lemma RecordsSplitAt(s: seq<int>, t: CsvType, x: int)
    requires 0 <= x <= |s| && WellFormed(s[..x], t)
    ensures Records(s, t) == Records(s[..x], t) + Records(s[x..], t)
  {
    assert s == s[..x] + s[x..];
    RecordsAppend(s[..x], s[x..], t);
  }

  /** A well-formed csv of at least one record decodes as its prefix followed by its last `Width` integers. */
  lemma SplitLast(s: seq<int>, t: CsvType)
    requires WellFormed(s, t) && |s| >= Width(t)
    ensures WellFormed(s[..|s| - Width(t)], t)
    ensures Records(s, t) == Records(s[..|s| - Width(t)], t) + Records(s[|s| - Width(t)..], t)
  {
    WellFormedDropLast(s, t);
    RecordsSplitAt(s, t, |s| - Width(t));
  }

  /** A well-formed csv of at least one record is its prefix's records followed by its last record. */
  lemma DropLastRecord(s: seq<int>, t: CsvType)
    requires WellFormed(s, t) && |s| >= Width(t)
    ensures WellFormed(s[..|s| - Width(t)], t)
    ensures Records(s, t) == Records(s[..|s| - Width(t)], t) + [RecordAt(s[|s| - Width(t)..], t)]
  {
    SplitLast(s, t);
    OneRecord(s[|s| - Width(t)..], t);
  }

  /**
   * The last two records of a well-formed csv of at least two records are
   * made of its last `2 * Width` integers.
   */
  lemma LastTwoRecords(s: seq<int>, t: CsvType)
    requires WellFormed(s, t) && |s| >= 2 * Width(t)
    ensures var rs := Records(s, t);
      |rs| >= 2 && rs[|rs| - 1] == RecordAt(s[|s| - Width(t)..], t) &&
      rs[|rs| - 2] == RecordAt(s[|s| - 2 * Width(t)..], t)
  {
    var w := Width(t);
    var a := s[..|s| - w];
    DropLastRecord(s, t);
    LastRecord(a, t);
    var x := a[|a| - w..];
    var y := s[|s| - 2 * w..];
    assert x[0] == y[0] && x[1] == y[1] && x[w - 1] == y[w - 1];
    assert RecordAt(x, t) == RecordAt(y, t);
  }

  /** Dropping the first record keeps a history sorted. */
  lemma SortedTail(rs: seq<Record>)
    requires Sorted(rs) && rs != []
    ensures Sorted(rs[1..])
  {
    forall a, b | 0 <= a < b < |rs| - 1
      ensures rs[1..][a].time <= rs[1..][b].time
    {
      assert rs[1..][a] == rs[a + 1] && rs[1..][b] == rs[b + 1];
    }
  }
}
