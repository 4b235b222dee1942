/** Yearly series shared by the country and world views: points, CSV rows,
    the stable sort by year, forecast extension and the positional join of
    the four population bands.
 */
module Series {
  import opened JsValues

  /** One `{year, value}` record; a value of None is NaN. */
  datatype Point = Point(year: int, value: Option<int>)

  /** One CSV row as `Object.entries` lists it: (column key, cell text). */
  type Entry = (string, string)
  type Row = seq<Entry>

  /** `row[key]`: the cell of the first entry with that key, if any. */
  function Lookup(row: Row, key: string): (r: Option<string>)
    ensures r.Some? <==> exists i :: 0 <= i < |row| && row[i].0 == key
    ensures r.Some? ==> exists i :: 0 <= i < |row| && row[i] == (key, r.value)
  {
    if row == [] then None
    else if row[0].0 == key then Some(row[0].1)
    else
      var r := Lookup(row[1..], key);
      assert r.Some? ==> exists i :: 0 <= i < |row[1..]| && row[1..][i] == (key, r.value);
      r
  }

  // ---------------------------------------------------------------------
  // Sorting by year (`Array.prototype.sort` with `(a, b) => a.year - b.year`)
  // ---------------------------------------------------------------------

  ghost predicate SortedByYear(s: seq<Point>)
  {
    forall i, j :: 0 <= i < j < |s| ==> s[i].year <= s[j].year
  }

  /** The points of `s` in the given year, in their order in `s`. */
  function InYear(s: seq<Point>, y: int): (r: seq<Point>)
    ensures |r| <= |s|
  {
    if s == [] then []
    else (if s[0].year == y then [s[0]] else []) + InYear(s[1..], y)
  }

  /** Every point of `s` is in year `y` or later. */
  ghost predicate AllFrom(s: seq<Point>, y: int)
  {
    forall k :: 0 <= k < |s| ==> y <= s[k].year
  }

  /** A lower bound on the years carries over to a permutation. */
  lemma AllFromPermutation(a: seq<Point>, b: seq<Point>, y: int)
    requires multiset(a) == multiset(b) && AllFrom(b, y)
    ensures AllFrom(a, y)
  {
    forall k | 0 <= k < |a|
      ensures y <= a[k].year
    {
      assert a[k] in multiset(b);
      var j :| 0 <= j < |b| && b[j] == a[k];
    }
  }

  /** A point no later than every point of a sorted series can lead it. */
  lemma PrependSorted(x: Point, t: seq<Point>)
    requires SortedByYear(t) && AllFrom(t, x.year)
    ensures SortedByYear([x] + t)
  {
    var r := [x] + t;
    forall i, j | 0 <= i < j < |r|
      ensures r[i].year <= r[j].year
    {
      assert r[j] == t[j - 1];
      if i > 0 {
        assert r[i] == t[i - 1];
      }
    }
  }

  /** Placing `p` in front is sorted when it is no later than the head. */
  lemma InsertFront(p: Point, s: seq<Point>)
    requires SortedByYear(s) && (s == [] || p.year <= s[0].year)
    ensures SortedByYear([p] + s)
  {
    forall k | 0 <= k < |s|
      ensures p.year <= s[k].year
    {
      if k > 0 {
        assert s[0].year <= s[k].year;
      }
    }
    PrependSorted(p, s);
  }

  /** Keeping the head in front of the insertion into the tail. */
  lemma InsertBehind(p: Point, s: seq<Point>, t: seq<Point>)
    requires SortedByYear(s) && s != [] && s[0].year < p.year
    requires SortedByYear(t) && multiset(t) == multiset(s[1..]) + multiset{p}
    ensures SortedByYear([s[0]] + t)
    ensures multiset([s[0]] + t) == multiset(s) + multiset{p}
  {
    var tail := s[1..];
    assert s == [s[0]] + tail;
    forall k | 0 <= k < |[p] + tail|
      ensures s[0].year <= ([p] + tail)[k].year
    {
      if k > 0 {
        assert ([p] + tail)[k] == s[k];
      }
    }
    AllFromPermutation(t, [p] + tail, s[0].year);
    PrependSorted(s[0], t);
  }

  /** Places `p` in front of the first point whose year is not smaller. */
  function Insert(p: Point, s: seq<Point>): (r: seq<Point>)
    requires SortedByYear(s)
    ensures SortedByYear(r)
    ensures |r| == |s| + 1
    ensures multiset(r) == multiset(s) + multiset{p}
  {
    if s == [] || p.year <= s[0].year then
      InsertFront(p, s);
      [p] + s
    else
      var t := Insert(p, s[1..]);
      InsertBehind(p, s, t);
      [s[0]] + t
  }

  /** Stable sort by ascending year. */
  function SortByYear(s: seq<Point>): (r: seq<Point>)
    ensures SortedByYear(r)
    ensures |r| == |s|
    ensures multiset(r) == multiset(s)
  {
    if s == [] then []
    else
      assert s == [s[0]] + s[1..];
      Insert(s[0], SortByYear(s[1..]))
  }

  lemma {:induction false} InYearConcat(a: seq<Point>, b: seq<Point>, y: int)
    ensures InYear(a + b, y) == InYear(a, y) + InYear(b, y)
  {
    if a != [] {
      assert (a + b)[0] == a[0] && (a + b)[1..] == a[1..] + b;
      InYearConcat(a[1..], b, y);
    } else {
      assert a + b == b;
    }
  }

  lemma InYearCons(x: Point, s: seq<Point>, y: int)
    ensures InYear([x] + s, y) == (if x.year == y then [x] else []) + InYear(s, y)
  {
    assert ([x] + s)[0] == x && ([x] + s)[1..] == s;
  }

  /** Inserting `p` adds it in front of the points of its own year and
      leaves every other year untouched. */
  lemma {:induction false} InYearInsert(p: Point, s: seq<Point>, y: int)
    requires SortedByYear(s)
    ensures InYear(Insert(p, s), y) == (if p.year == y then [p] else []) + InYear(s, y)
  {
    if s == [] || p.year <= s[0].year {
      assert Insert(p, s) == [p] + s;
      InYearCons(p, s, y);
    } else {
      var t := Insert(p, s[1..]);
      var x := InYear(s[1..], y);
      assert Insert(p, s) == [s[0]] + t;
      InYearInsert(p, s[1..], y);
      InYearCons(s[0], t, y);
      InYearCons(s[0], s[1..], y);
      assert [s[0]] + s[1..] == s;
      if p.year == y {
        assert s[0].year != y;
        assert InYear(t, y) == [p] + x;
        assert InYear(s, y) == x;
      } else {
        assert InYear(t, y) == x;
      }
    }
  }

  /** The sort is stable: within each year the points keep their order. */
  lemma {:induction false} SortByYearStable(s: seq<Point>, y: int)
    ensures InYear(SortByYear(s), y) == InYear(s, y)
  {
    if s != [] {
      SortByYearStable(s[1..], y);
      InYearInsert(s[0], SortByYear(s[1..]), y);
    }
  }

  /** A series already in year order is returned unchanged. */
  lemma {:induction false} SortByYearSorted(s: seq<Point>)
    requires SortedByYear(s)
    ensures SortByYear(s) == s
  {
    if s != [] {
      SortByYearSorted(s[1..]);
      assert SortByYear(s[1..]) == s[1..];
    }
  }

  // ---------------------------------------------------------------------
  // Forecast extension
  // ---------------------------------------------------------------------

  /** Forecast points for consecutive years starting at `first`. */
  function Forecast(first: int, predictions: seq<int>): (r: seq<Point>)
    ensures |r| == |predictions|
    ensures forall i :: 0 <= i < |r| ==> r[i] == Point(first + i, Some(predictions[i]))
    decreases predictions
  {
    if predictions == [] then []
    else [Point(first, Some(predictions[0]))] + Forecast(first + 1, predictions[1..])
  }

  /** A sorted series extended by forecasts from the year after its last
      point stays sorted, and its years continue without a gap. */
  lemma ForecastAfterSorted(h: seq<Point>, predictions: seq<int>)
    requires SortedByYear(h) && h != []
    ensures var r := h + Forecast(h[|h| - 1].year + 1, predictions);
            SortedByYear(r) && (predictions != [] ==> r[|h|].year == h[|h| - 1].year + 1)
  {
    var last := h[|h| - 1].year;
    var f := Forecast(last + 1, predictions);
    var r := h + f;
    assert forall k :: 0 <= k < |h| ==> r[k] == h[k] && r[k].year <= last;
    assert forall k :: 0 <= k < |f| ==> r[|h| + k] == f[k] && f[k].year == last + 1 + k;
    forall i, j | 0 <= i < j < |r|
      ensures r[i].year <= r[j].year
    {
      if j < |h| {
        assert r[i] == h[i] && r[j] == h[j];
      } else if i < |h| {
        assert r[j] == f[j - |h|];
      } else {
        assert r[i] == f[i - |h|] && r[j] == f[j - |h|];
      }
    }
  }

  // ---------------------------------------------------------------------
  // Positional join of the four bands
  // ---------------------------------------------------------------------

  /** One chart record; the year stays an integer (the Date is not modelled). */
  datatype Aligned = Aligned(year: int, total: Option<int>, age0_14: int, age15_64: int, age65: int)

  /** `band[i]?.value || 0`: a missing point, NaN and 0 all give 0. */
  function BandValue(band: seq<Point>, i: nat): int
  {
    if i < |band| && band[i].value.Some? then band[i].value.value else 0
  }

  /** `v` is what the join must take from `band` at index `i`: the band's
      number there, or 0 when the band is too short or holds NaN. */
  ghost predicate Defaulted(band: seq<Point>, i: nat, v: int)
  {
    if i < |band| && band[i].value.Some? then v == band[i].value.value else v == 0
  }

  /** `total.map((d, i) => ({year, total, age0_14, age15_64, age65}))`. */
  function BandJoin(total: seq<Point>, b0: seq<Point>, b15: seq<Point>, b65: seq<Point>): (r: seq<Aligned>)
    ensures |r| == |total|
    ensures forall i :: 0 <= i < |r| ==> r[i].year == total[i].year && r[i].total == total[i].value
    ensures forall i :: 0 <= i < |r| ==>
              Defaulted(b0, i, r[i].age0_14) && Defaulted(b15, i, r[i].age15_64) && Defaulted(b65, i, r[i].age65)
  {
    if total == [] then []
    else
      var rest := BandJoin(total[1..], Shift(b0), Shift(b15), Shift(b65));
      [Aligned(total[0].year, total[0].value, BandValue(b0, 0), BandValue(b15, 0), BandValue(b65, 0))] + rest
  }

  function Shift(band: seq<Point>): (r: seq<Point>)
    ensures |band| > 0 ==> |r| == |band| - 1 && forall i :: 0 <= i < |r| ==> r[i] == band[i + 1]
    ensures |band| == 0 ==> r == []
  {
    if band == [] then [] else band[1..]
  }
}
