/** The world view: yearly sums over every country row, sorting and the
    forecast extension at the fixed pivot year 2024, and the band join.
 */
module WorldChart {
  import opened JsValues
  import opened Series

  /** First aggregated year; the reducer loops while `year < 2024`. */
  const FirstYear: nat := 1960
  const EndYear: nat := 2024
  /** First forecast year (`let startYear = 2024`). */
  const Pivot: int := 2024

  /** `isNaN(+d[year]) ? 0 : +d[year]`: a missing or non-numeric cell is 0. */
  function CellNumber(row: Row, year: nat): (r: int)
    ensures r != 0 ==> exists cell :: Lookup(row, DecimalString(year)) == Some(cell) && ToNumber(cell) == Some(r)
    ensures forall cell, v :: Lookup(row, DecimalString(year)) == Some(cell) && ToNumber(cell) == Some(v) ==> r == v
  {
    match Lookup(row, DecimalString(year))
    case None => 0
    case Some(cell) =>
      match ToNumber(cell)
      case None => 0
      case Some(v) => v
  }

  /** No row holds a non-zero number for `year`. */
  predicate ColumnEmpty(rows: seq<Row>, year: nat)
  {
    rows == [] || (CellNumber(rows[0], year) == 0 && ColumnEmpty(rows[1..], year))
  }

  /** The column total over all rows. */
  function ColumnSum(rows: seq<Row>, year: nat): int
  {
    if rows == [] then 0 else CellNumber(rows[0], year) + ColumnSum(rows[1..], year)
  }

  /** Rows without a number for the year add nothing: a column no row
      fills sums to 0. */
  lemma {:induction false} EmptyColumnSumsToZero(rows: seq<Row>, year: nat)
    requires ColumnEmpty(rows, year)
    ensures ColumnSum(rows, year) == 0
  {
    if rows != [] {
      EmptyColumnSumsToZero(rows[1..], year);
    }
  }

  /** Column totals add up over a split of the rows. */
  lemma {:induction false} ColumnSumConcat(a: seq<Row>, b: seq<Row>, year: nat)
    ensures ColumnSum(a + b, year) == ColumnSum(a, year) + ColumnSum(b, year)
  {
    if a == [] {
      assert a + b == b;
    } else {
      assert (a + b)[0] == a[0] && (a + b)[1..] == a[1..] + b;
      ColumnSumConcat(a[1..], b, year);
    }
  }

  /** A row whose cell for `year` is missing or not a number does not
      change that year's total. */
  lemma NonNumericCellCountsZero(pre: seq<Row>, row: Row, post: seq<Row>, year: nat)
    requires Lookup(row, DecimalString(year)).None? || ToNumber(Lookup(row, DecimalString(year)).value).None?
    ensures ColumnSum(pre + [row] + post, year) == ColumnSum(pre + post, year)
  {
    ColumnSumConcat(pre + [row], post, year);
    ColumnSumConcat(pre, [row], year);
    ColumnSumConcat(pre, post, year);
    assert ColumnSum([row], year) == CellNumber(row, year);
  }

  /** `d3.sum` as a left-to-right loop over the rows. */
  method SumColumn(rows: seq<Row>, year: nat) returns (total: int)
    ensures total == ColumnSum(rows, year)
  {
    total := 0;
    var i := 0;
    while i < |rows|
      invariant 0 <= i <= |rows|
      invariant total == ColumnSum(rows[..i], year)
    {
      ColumnSumConcat(rows[..i], [rows[i]], year);
      assert rows[..i + 1] == rows[..i] + [rows[i]];
      total := total + CellNumber(rows[i], year);
      i := i + 1;
    }
    assert rows[..i] == rows;
  }

  /** The reducer's `while (year < 2024)` loop from `year` on. */
  function AggregateFrom(rows: seq<Row>, year: nat): (r: seq<Point>)
    requires year <= EndYear
    ensures |r| == EndYear - year
    ensures forall k :: 0 <= k < |r| ==> r[k] == Point(year + k, Some(ColumnSum(rows, year + k)))
    decreases EndYear - year
  {
    if year == EndYear then []
    else [Point(year, Some(ColumnSum(rows, year)))] + AggregateFrom(rows, year + 1)
  }

  /** One point per year 1960..2023 holding that year's column total. */
  function Aggregate(rows: seq<Row>): (r: seq<Point>)
    ensures |r| == 64
    ensures forall k :: 0 <= k < 64 ==> r[k] == Point(1960 + k, Some(ColumnSum(rows, 1960 + k)))
  {
    AggregateFrom(rows, FirstYear)
  }

  /** `processData(data, predictions)` of the world view. */
  function ProcessData(data: seq<Point>, predictions: seq<int>): (r: seq<Point>)
    ensures |r| == |data| + |predictions|
    ensures SortedByYear(r[..|data|])
    ensures multiset(r[..|data|]) == multiset(data)
    ensures forall i :: 0 <= i < |predictions| ==> r[|data| + i] == Point(Pivot + i, Some(predictions[i]))
  {
    var hist := SortByYear(data);
    var f := Forecast(Pivot, predictions);
    assert (hist + f)[..|hist|] == hist;
    assert forall i :: 0 <= i < |f| ==> (hist + f)[|hist| + i] == f[i];
    hist + f
  }

  /** The post-increment loop of lines 5-8: `year: startYear++`. */
  method AppendForecasts(processed: seq<Point>, predictions: seq<int>) returns (out: seq<Point>)
    ensures |out| == |processed| + |predictions|
    ensures out[..|processed|] == processed
    ensures forall i :: 0 <= i < |predictions| ==>
              out[|processed| + i] == Point(Pivot + i, Some(predictions[i]))
    ensures out == processed + Forecast(Pivot, predictions)
  {
    out := processed;
    var startYear := Pivot;
    var i := 0;
    while i < |predictions|
      invariant 0 <= i <= |predictions|
      invariant startYear == Pivot + i
      invariant |out| == |processed| + i
      invariant out[..|processed|] == processed
      invariant forall k :: 0 <= k < i ==> out[|processed| + k] == Point(Pivot + k, Some(predictions[k]))
    {
      out := out + [Point(startYear, Some(predictions[i]))];
      startYear := startYear + 1;
      i := i + 1;
    }
  }

  /** A series holding one point per year from 1960 on, in order. */
  ghost predicate YearlyFrom1960(s: seq<Point>)
  {
    forall i :: 0 <= i < |s| ==> s[i].year == 1960 + i
  }

  /** Processing a gap-free 1960..2023 series keeps it as it is and
      continues it with the forecasts: 1960 .. 2023 + N without a gap. */
  lemma {:induction false} ProcessYearly(a: seq<Point>, predictions: seq<int>)
    requires |a| == 64 && YearlyFrom1960(a)
    ensures ProcessData(a, predictions) == a + Forecast(Pivot, predictions)
    ensures YearlyFrom1960(ProcessData(a, predictions))
  {
    forall i, j | 0 <= i < j < |a|
      ensures a[i].year <= a[j].year
    {
    }
    SortByYearSorted(a);
    var f := Forecast(Pivot, predictions);
    var r := a + f;
    forall i | 0 <= i < |r|
      ensures r[i].year == 1960 + i
    {
      if i < 64 {
        assert r[i] == a[i];
      } else {
        assert r[i] == f[i - 64];
      }
    }
  }

  /** The aggregate followed by `processData`: one point per year
      1960 .. 2023 + N, the yearly totals first and then the forecasts. */
  lemma AggregateThenProcess(rows: seq<Row>, predictions: seq<int>)
    ensures var r := ProcessData(Aggregate(rows), predictions);
            && |r| == 64 + |predictions|
            && YearlyFrom1960(r)
            && r[..64] == Aggregate(rows)
            && r[64..] == Forecast(Pivot, predictions)
  {
    var a := Aggregate(rows);
    assert YearlyFrom1960(a);
    ProcessYearly(a, predictions);
    var r := a + Forecast(Pivot, predictions);
    assert r[..64] == a;
    assert r[64..] == Forecast(Pivot, predictions);
  }

  /** The data the world chart draws. */
  function WorldView(totalRows: seq<Row>, rows0: seq<Row>, rows15: seq<Row>, rows65: seq<Row>,
                     pAll: seq<int>, p0: seq<int>, p15: seq<int>, p65: seq<int>): (r: seq<Aligned>)
    ensures |r| == 64 + |pAll|
  {
    var total := ProcessData(Aggregate(totalRows), pAll);
    assert |total| == 64 + |pAll|;
    BandJoin(total,
             ProcessData(Aggregate(rows0), p0),
             ProcessData(Aggregate(rows15), p15),
             ProcessData(Aggregate(rows65), p65))
  }

  /** A band's value at chart index `k`: the yearly total, then its own
      forecasts, then 0 where it has fewer forecasts than the total. */
  ghost function BandAt(rows: seq<Row>, predictions: seq<int>, k: nat): int
  {
    if k < 64 then ColumnSum(rows, 1960 + k)
    else if k - 64 < |predictions| then predictions[k - 64]
    else 0
  }

  /** Yearly totals followed by forecasts hold `BandAt` of each index. */
  lemma TotalsThenForecasts(a: seq<Point>, rows: seq<Row>, predictions: seq<int>)
    requires |a| == 64
    requires forall k :: 0 <= k < 64 ==> a[k].value == Some(ColumnSum(rows, 1960 + k))
    ensures var s := a + Forecast(Pivot, predictions);
            forall k :: 0 <= k < |s| ==> s[k].value == Some(BandAt(rows, predictions, k))
  {
    var f := Forecast(Pivot, predictions);
    var s := a + f;
    forall k | 0 <= k < |s|
      ensures s[k].value == Some(BandAt(rows, predictions, k))
    {
      if k < 64 {
        assert s[k] == a[k];
      } else {
        assert s[k] == f[k - 64];
      }
    }
  }

  /** Every point of a processed band holds `BandAt` of its index. */
  lemma ProcessedBandValues(rows: seq<Row>, predictions: seq<int>)
    ensures var s := ProcessData(Aggregate(rows), predictions);
            |s| == 64 + |predictions|
            && forall k :: 0 <= k < |s| ==> s[k].value == Some(BandAt(rows, predictions, k))
  {
    var a := Aggregate(rows);
    assert YearlyFrom1960(a);
    ProcessYearly(a, predictions);
    TotalsThenForecasts(a, rows, predictions);
  }

  /** What the join reads from a band whose points hold `BandAt` of their
      index is `BandAt`, including the 0 past its end. */
  lemma DefaultedBand(s: seq<Point>, rows: seq<Row>, predictions: seq<int>, k: nat, v: int)
    requires |s| == 64 + |predictions|
    requires forall i :: 0 <= i < |s| ==> s[i].value == Some(BandAt(rows, predictions, i))
    requires Defaulted(s, k, v)
    ensures v == BandAt(rows, predictions, k)
  {
  }

  /** One record per year 1960 .. 2023 + |pAll|. */
  lemma WorldViewYears(totalRows: seq<Row>, rows0: seq<Row>, rows15: seq<Row>, rows65: seq<Row>,
                       pAll: seq<int>, p0: seq<int>, p15: seq<int>, p65: seq<int>)
    ensures var r := WorldView(totalRows, rows0, rows15, rows65, pAll, p0, p15, p65);
            |r| == 64 + |pAll| && RecordsYearlyFrom1960(r)
  {
    var t := ProcessData(Aggregate(totalRows), pAll);
    assert |t| == 64 + |pAll| && YearlyFrom1960(t) by {
      AggregateThenProcess(totalRows, pAll);
    }
    JoinYearly(t, ProcessData(Aggregate(rows0), p0), ProcessData(Aggregate(rows15), p15),
               ProcessData(Aggregate(rows65), p65));
  }

  lemma JoinYearly(t: seq<Point>, b0: seq<Point>, b15: seq<Point>, b65: seq<Point>)
    requires YearlyFrom1960(t)
    ensures RecordsYearlyFrom1960(BandJoin(t, b0, b15, b65))
  {
  }

  /** Chart records for the consecutive years 1960, 1961, ... */
  ghost predicate RecordsYearlyFrom1960(r: seq<Aligned>)
  {
    forall k :: 0 <= k < |r| ==> r[k].year == 1960 + k
  }

  /** The total of the first 64 records is the all-country sum of the year. */
  lemma WorldViewTotals(totalRows: seq<Row>, rows0: seq<Row>, rows15: seq<Row>, rows65: seq<Row>,
                        pAll: seq<int>, p0: seq<int>, p15: seq<int>, p65: seq<int>)
    ensures var r := WorldView(totalRows, rows0, rows15, rows65, pAll, p0, p15, p65);
            forall k :: 0 <= k < 64 ==> r[k].total == Some(ColumnSum(totalRows, 1960 + k))
  {
    var t := ProcessData(Aggregate(totalRows), pAll);
    var a := Aggregate(totalRows);
    assert |t| == 64 + |pAll| && t[..64] == a by {
      AggregateThenProcess(totalRows, pAll);
    }
    forall k | 0 <= k < 64
      ensures t[k].value == Some(ColumnSum(totalRows, 1960 + k))
    {
      assert t[k] == t[..64][k] == a[k];
    }
  }

  /** Every band holds its own totals and then its own forecasts, and 0
      at the indices past its forecasts. */
  lemma WorldViewBands(totalRows: seq<Row>, rows0: seq<Row>, rows15: seq<Row>, rows65: seq<Row>,
                       pAll: seq<int>, p0: seq<int>, p15: seq<int>, p65: seq<int>)
    ensures var r := WorldView(totalRows, rows0, rows15, rows65, pAll, p0, p15, p65);
            forall k :: 0 <= k < |r| ==>
              r[k].age0_14 == BandAt(rows0, p0, k)
              && r[k].age15_64 == BandAt(rows15, p15, k)
              && r[k].age65 == BandAt(rows65, p65, k)
  {
    var s0 := ProcessData(Aggregate(rows0), p0);
    var s15 := ProcessData(Aggregate(rows15), p15);
    var s65 := ProcessData(Aggregate(rows65), p65);
    var r := BandJoin(ProcessData(Aggregate(totalRows), pAll), s0, s15, s65);
    ProcessedBandValues(rows0, p0);
    ProcessedBandValues(rows15, p15);
    ProcessedBandValues(rows65, p65);
    forall k | 0 <= k < |r|
      ensures r[k].age0_14 == BandAt(rows0, p0, k)
      ensures r[k].age15_64 == BandAt(rows15, p15, k)
      ensures r[k].age65 == BandAt(rows65, p65, k)
    {
      assert Defaulted(s0, k, r[k].age0_14);
      DefaultedBand(s0, rows0, p0, k, r[k].age0_14);
      assert Defaulted(s15, k, r[k].age15_64);
      DefaultedBand(s15, rows15, p15, k, r[k].age15_64);
      assert Defaulted(s65, k, r[k].age65);
      DefaultedBand(s65, rows65, p65, k, r[k].age65);
    }
  }

  /** The cell of a single-entry row keyed by the year. */
  lemma SingleCell(year: nat, cell: string)
    ensures CellNumber([(DecimalString(year), cell)], year) == (if ToNumber(cell).None? then 0 else ToNumber(cell).value)
  {
  }

  /** How the scenario cells read. */
  lemma CellTen()
    ensures ToNumber("10") == Some(10)
  {
  }

  lemma CellBad()
    ensures ToNumber("bad") == None
  {
  }

  lemma CellTwenty()
    ensures ToNumber("20") == Some(20)
  {
  }

  /** In any year's column, three rows with cells "10", "bad" and "20"
      total 30. */
  lemma {:induction false} ScenarioBadCell(year: nat, a: Row, b: Row, c: Row)
    requires a == [(DecimalString(year), "10")]
    requires b == [(DecimalString(year), "bad")]
    requires c == [(DecimalString(year), "20")]
    ensures ColumnSum([a, b, c], year) == 30
  {
    CellTen();
    CellBad();
    CellTwenty();
    SingleCell(year, "10");
    SingleCell(year, "bad");
    SingleCell(year, "20");
    ColumnSumConcat([a], [b, c], year);
    ColumnSumConcat([b], [c], year);
    assert [a] + [b, c] == [a, b, c] && [b] + [c] == [b, c];
  }
}
