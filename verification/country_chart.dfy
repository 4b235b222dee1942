/** The per-country series builder (`processData` of the country view) and
    the flag-code table (`isoCode`).
 */
module CountryChart {
  import opened JsValues
  import opened Series

  const NameKey := "Country Name"
  const CodeKey := "Country Code"

  // ---------------------------------------------------------------------
  // Finding the country row
  // ---------------------------------------------------------------------

  /** The row has a "Country Name" cell (reading it otherwise throws). */
  predicate Named(row: Row)
  {
    Lookup(row, NameKey).Some?
  }

  /** The row's name equals `query` once both are lower-cased. */
  predicate NameMatches(row: Row, query: string)
  {
    var n := Lookup(row, NameKey);
    n.Some? && Lower(n.value) == Lower(query)
  }

  /** Every row before position `k` has a name that does not match. */
  predicate Skipped(rows: seq<Row>, query: string, k: nat)
    requires k <= |rows|
  {
    forall j :: 0 <= j < k ==> Named(rows[j]) && !NameMatches(rows[j], query)
  }

  /** A named non-matching first row shifts every skipped prefix by one. */
  lemma SkippedShift(rows: seq<Row>, query: string, k: nat)
    requires rows != [] && Named(rows[0]) && !NameMatches(rows[0], query)
    requires k < |rows|
    ensures Skipped(rows[1..], query, k) <==> Skipped(rows, query, k + 1)
  {
    assert forall j :: 1 <= j <= k ==> rows[j] == rows[1..][j - 1];
  }

  /** `data.find(d => d["Country Name"].toLowerCase() === query.toLowerCase())`:
      the first matching row, None when no row matches, and a TypeError when
      a row examined before any match has no name cell. */
  function FindCountry(rows: seq<Row>, query: string): (r: Completion<Option<Row>>)
    ensures r == Normal(None) <==> Skipped(rows, query, |rows|)
    ensures r.Normal? && r.value.Some? ==>
              exists k :: 0 <= k < |rows| && rows[k] == r.value.value && NameMatches(rows[k], query)
                          && Skipped(rows, query, k)
    ensures r.Thrown? ==>
              r.error == TypeError
              && exists k :: 0 <= k < |rows| && !Named(rows[k]) && Skipped(rows, query, k)
  {
    if rows == [] then Normal(None)
    else if !Named(rows[0]) then
      assert Skipped(rows, query, 0);
      Thrown(TypeError)
    else if NameMatches(rows[0], query) then
      assert Skipped(rows, query, 0);
      Normal(Some(rows[0]))
    else
      var r := FindCountry(rows[1..], query);
      SkippedShift(rows, query, |rows| - 1);
      assert r.Normal? && r.value.Some? ==>
        exists k :: 0 <= k < |rows| && rows[k] == r.value.value && NameMatches(rows[k], query)
                    && Skipped(rows, query, k) by {
        if r.Normal? && r.value.Some? {
          var k :| 0 <= k < |rows| - 1 && rows[1..][k] == r.value.value && NameMatches(rows[1..][k], query)
                   && Skipped(rows[1..], query, k);
          SkippedShift(rows, query, k);
          assert rows[k + 1] == rows[1..][k];
        }
      }
      assert r.Thrown? ==>
        exists k :: 0 <= k < |rows| && !Named(rows[k]) && Skipped(rows, query, k) by {
        if r.Thrown? {
          var k :| 0 <= k < |rows| - 1 && !Named(rows[1..][k]) && Skipped(rows[1..], query, k);
          SkippedShift(rows, query, k);
          assert rows[k + 1] == rows[1..][k];
        }
      }
      r
  }

  // ---------------------------------------------------------------------
  // Projecting the row into points
  // ---------------------------------------------------------------------

  /** An entry that survives both filters: not the name or code column, and
      a key whose number is truthy (neither 0 nor NaN). */
  predicate IsYearEntry(e: Entry)
  {
    e.0 != NameKey && e.0 != CodeKey && Truthy(ToNumber(e.0))
  }

  /** No entry of the row survives the filters. */
  predicate NoneRetained(row: Row)
  {
    forall i :: 0 <= i < |row| ==> !IsYearEntry(row[i])
  }

  function EntryPoint(e: Entry): Point
    requires IsYearEntry(e)
  {
    Point(ToNumber(e.0).value, ToNumber(e.1))
  }

  /** The filter/map/filter chain over `Object.entries(countryData)`. */
  function Project(row: Row): (r: seq<Point>)
    ensures |r| <= |row|
    ensures r == [] <==> NoneRetained(row)
  {
    if row == [] then []
    else (if IsYearEntry(row[0]) then [EntryPoint(row[0])] else []) + Project(row[1..])
  }

  /** Every historical point comes from a retained entry, and so has a
      non-zero year and a key other than the name and code columns. */
  lemma {:induction false} ProjectSound(row: Row)
    ensures forall k :: 0 <= k < |Project(row)| ==>
              exists i :: 0 <= i < |row| && IsYearEntry(row[i]) && Project(row)[k] == EntryPoint(row[i])
    ensures forall k :: 0 <= k < |Project(row)| ==> Project(row)[k].year != 0
  {
    if row != [] {
      ProjectSound(row[1..]);
      var rest := Project(row[1..]);
      var head := if IsYearEntry(row[0]) then [EntryPoint(row[0])] else [];
      var r := Project(row);
      assert r == head + rest;
      forall k | 0 <= k < |r|
        ensures exists i :: 0 <= i < |row| && IsYearEntry(row[i]) && r[k] == EntryPoint(row[i])
        ensures r[k].year != 0
      {
        if k < |head| {
          assert r[k] == EntryPoint(row[0]);
          assert Truthy(ToNumber(row[0].0));
        } else {
          assert r[k] == rest[k - |head|];
          var i :| 0 <= i < |row[1..]| && IsYearEntry(row[1..][i]) && rest[k - |head|] == EntryPoint(row[1..][i]);
          assert row[1..][i] == row[i + 1];
          assert r[k] == EntryPoint(row[i + 1]);
        }
      }
    } else {
      assert Project(row) == [];
    }
  }

  /** Every retained entry appears among the historical points. */
  lemma {:induction false} ProjectComplete(row: Row)
    ensures forall i :: 0 <= i < |row| && IsYearEntry(row[i]) ==> EntryPoint(row[i]) in Project(row)
  {
    if row != [] {
      ProjectComplete(row[1..]);
      var rest := Project(row[1..]);
      var head := if IsYearEntry(row[0]) then [EntryPoint(row[0])] else [];
      assert Project(row) == head + rest;
      forall i | 0 <= i < |row| && IsYearEntry(row[i])
        ensures EntryPoint(row[i]) in Project(row)
      {
        if i > 0 {
          assert row[i] == row[1..][i - 1];
        }
      }
    }
  }

  /** The number of entries that survive both filters. */
  function RetainedCount(row: Row): nat
  {
    if row == [] then 0 else (if IsYearEntry(row[0]) then 1 else 0) + RetainedCount(row[1..])
  }

  /** The projection yields exactly one point per retained entry. */
  lemma {:induction false} ProjectCount(row: Row)
    ensures |Project(row)| == RetainedCount(row)
  {
    if row != [] {
      ProjectCount(row[1..]);
    }
  }

  /** `func_year` after the map: updated to every truthy year key in
      entry order, starting from `acc`. */
  function LastYearFrom(row: Row, acc: int): (r: int)
    ensures NoneRetained(row) ==> r == acc
    ensures !NoneRetained(row) ==> r != 0
  {
    if row == [] then acc
    else LastYearFrom(row[1..], if IsYearEntry(row[0]) then ToNumber(row[0].0).value else acc)
  }

  /** `func_year` starts at 0 and ends at 0 exactly when no entry is retained. */
  function LastYear(row: Row): (r: int)
    ensures r == 0 <==> NoneRetained(row)
  {
    LastYearFrom(row, 0)
  }

  /** `func_year` is the year of the last retained point in entry order
      (before sorting), or 0 when no entry is retained. */
  lemma {:induction false} LastYearIsLastRetained(row: Row, acc: int)
    ensures var h := Project(row);
            LastYearFrom(row, acc) == if h == [] then acc else h[|h| - 1].year
  {
    if row != [] {
      var a := if IsYearEntry(row[0]) then ToNumber(row[0].0).value else acc;
      LastYearIsLastRetained(row[1..], a);
      var rest := Project(row[1..]);
      assert LastYearFrom(row, acc) == LastYearFrom(row[1..], a);
      if IsYearEntry(row[0]) {
        assert Project(row) == [EntryPoint(row[0])] + rest;
      } else {
        assert Project(row) == rest;
      }
    }
  }

  /** The explicit exclusion of the name and code columns never removes an
      entry the year filter would keep: neither key reads as a number. */
  lemma NameAndCodeAreNaN()
    ensures ToNumber(NameKey) == None && ToNumber(CodeKey) == None
    ensures forall e: Entry :: IsYearEntry(e) <==> Truthy(ToNumber(e.0))
  {
    assert Trim(NameKey) == NameKey;
    assert Trim(CodeKey) == CodeKey;
    ToNumberOfNonNumeral(NameKey);
    ToNumberOfNonNumeral(CodeKey);
  }

  // ---------------------------------------------------------------------
  // processData
  // ---------------------------------------------------------------------

  /** Sorted historical points followed by the forecasts, which start the
      year after `func_year`. */
  function BuildSeries(row: Row, predictions: seq<int>): (r: seq<Point>)
    ensures |r| == |Project(row)| + |predictions|
    ensures SortedByYear(r[..|Project(row)|])
    ensures multiset(r[..|Project(row)|]) == multiset(Project(row))
    ensures forall i :: 0 <= i < |predictions| ==>
              r[|Project(row)| + i] == Point(LastYear(row) + 1 + i, Some(predictions[i]))
  {
    var hist := SortByYear(Project(row));
    var f := Forecast(LastYear(row) + 1, predictions);
    assert (hist + f)[..|hist|] == hist;
    assert forall i :: 0 <= i < |f| ==> (hist + f)[|hist| + i] == f[i];
    hist + f
  }

  /** `processData(countryName, data, predictions)`. */
  function ProcessData(query: string, rows: seq<Row>, predictions: seq<int>): (r: Completion<seq<Point>>)
    ensures FindCountry(rows, query) == Normal(None) ==> r == Normal([])
    ensures FindCountry(rows, query).Thrown? <==> r.Thrown?
  {
    match FindCountry(rows, query)
    case Thrown(e) => Thrown(e)
    case Normal(None) => Normal([])
    case Normal(Some(row)) => Normal(BuildSeries(row, predictions))
  }

  /** The pre-increment loop of lines 18-21: `year: ++startYear`. */
  method AppendForecasts(processed: seq<Point>, funcYear: int, predictions: seq<int>) returns (out: seq<Point>)
    ensures |out| == |processed| + |predictions|
    ensures out[..|processed|] == processed
    ensures forall i :: 0 <= i < |predictions| ==>
              out[|processed| + i] == Point(funcYear + 1 + i, Some(predictions[i]))
    ensures out == processed + Forecast(funcYear + 1, predictions)
  {
    out := processed;
    var startYear := funcYear;
    var i := 0;
    while i < |predictions|
      invariant 0 <= i <= |predictions|
      invariant startYear == funcYear + i
      invariant |out| == |processed| + i
      invariant out[..|processed|] == processed
      invariant forall k :: 0 <= k < i ==> out[|processed| + k] == Point(funcYear + 1 + k, Some(predictions[k]))
    {
      startYear := startYear + 1;
      out := out + [Point(startYear, Some(predictions[i]))];
      i := i + 1;
    }
  }

  /** No matching row: the result is empty and no forecast is appended. */
  lemma NotFoundIsEmpty(query: string, rows: seq<Row>, predictions: seq<int>)
    requires forall j :: 0 <= j < |rows| ==> Named(rows[j]) && !NameMatches(rows[j], query)
    ensures ProcessData(query, rows, predictions) == Normal([])
  {
  }

  /** The first matching row alone decides the result: rows before it (all
      other countries) and every row after it contribute nothing. */
  lemma {:induction false} FirstMatchDecides(query: string, pre: seq<Row>, row: Row, post: seq<Row>, predictions: seq<int>)
    requires forall j :: 0 <= j < |pre| ==> Named(pre[j]) && !NameMatches(pre[j], query)
    requires NameMatches(row, query)
    ensures ProcessData(query, pre + [row] + post, predictions) == Normal(BuildSeries(row, predictions))
  {
    FindAfterNonMatching(query, pre, [row] + post);
    assert pre + [row] + post == pre + ([row] + post);
  }

  lemma {:induction false} FindAfterNonMatching(query: string, pre: seq<Row>, rest: seq<Row>)
    requires forall j :: 0 <= j < |pre| ==> Named(pre[j]) && !NameMatches(pre[j], query)
    ensures FindCountry(pre + rest, query) == FindCountry(rest, query)
  {
    if pre != [] {
      assert (pre + rest)[0] == pre[0];
      assert (pre + rest)[1..] == pre[1..] + rest;
      FindAfterNonMatching(query, pre[1..], rest);
    } else {
      assert pre + rest == rest;
    }
  }

  /** Rows of other countries placed in front change nothing. */
  lemma NonMatchingRowsIgnored(query: string, pre: seq<Row>, rest: seq<Row>, predictions: seq<int>)
    requires forall j :: 0 <= j < |pre| ==> Named(pre[j]) && !NameMatches(pre[j], query)
    ensures ProcessData(query, pre + rest, predictions) == ProcessData(query, rest, predictions)
  {
    FindAfterNonMatching(query, pre, rest);
  }

  /** The lookup ignores ASCII case in the query. */
  lemma {:induction false} QueryCaseIgnored(q1: string, q2: string, rows: seq<Row>, predictions: seq<int>)
    requires Lower(q1) == Lower(q2)
    ensures ProcessData(q1, rows, predictions) == ProcessData(q2, rows, predictions)
  {
    FindCaseIgnored(q1, q2, rows);
  }

  lemma {:induction false} FindCaseIgnored(q1: string, q2: string, rows: seq<Row>)
    requires Lower(q1) == Lower(q2)
    ensures FindCountry(rows, q1) == FindCountry(rows, q2)
  {
    if rows != [] {
      FindCaseIgnored(q1, q2, rows[1..]);
    }
  }

  /** When the retained entries already come in year order (as
      `Object.entries` lists integer keys), the whole series is in year
      order and the first forecast follows the last historical year. */
  lemma ForecastsContinueHistory(row: Row, predictions: seq<int>)
    requires SortedByYear(Project(row))
    requires Project(row) != [] && predictions != []
    ensures var r := BuildSeries(row, predictions);
            var h := Project(row);
            SortedByYear(r) && r[|h|].year == h[|h| - 1].year + 1
  {
    var h := Project(row);
    SortByYearSorted(h);
    LastYearIsLastRetained(row, 0);
    ForecastAfterSorted(h, predictions);
  }

  /** With predictions, a found country never yields an empty series. */
  lemma FoundIsNotEmpty(query: string, rows: seq<Row>, predictions: seq<int>)
    requires FindCountry(rows, query).Normal? && FindCountry(rows, query).value.Some?
    requires predictions != []
    ensures ProcessData(query, rows, predictions).Normal?
    ensures |ProcessData(query, rows, predictions).value| >= |predictions|
  {
  }

  lemma CellHundred()
    ensures ToNumber("100") == Some(100)
  {
    assert Trim("100") == "100";
    assert "100"[..2] == "10" && "10"[..1] == "1";
    assert ParseDigits("100", 10) == Some(100);
  }

  lemma CellHundredTen()
    ensures ToNumber("110") == Some(110)
  {
    assert Trim("110") == "110";
    assert "110"[..2] == "11" && "11"[..1] == "1";
    assert ParseDigits("110", 10) == Some(110);
  }

  /** The historical points of the scenario row below. */
  lemma {:induction false} ScenarioProject(y: nat, row: Row)
    requires y > 0
    requires row == [(NameKey, "Foo"), (DecimalString(y), "100"), (DecimalString(y + 1), "110")]
    ensures Project(row) == [Point(y, Some(100)), Point(y + 1, Some(110))]
  {
    ToNumberOfDecimalString(y);
    ToNumberOfDecimalString(y + 1);
    CellHundred();
    CellHundredTen();
    NameAndCodeAreNaN();
    var r2 := [row[2]];
    var r1 := [row[1]] + r2;
    assert row[1..] == r1 && r1[1..] == r2 && r2[1..] == [];
    assert !IsYearEntry(row[0]) && IsYearEntry(row[1]) && IsYearEntry(row[2]);
    assert Project(r2) == [Point(y + 1, Some(110))];
    assert Project(r1) == [Point(y, Some(100)), Point(y + 1, Some(110))];
  }

  /** A row with a name and the columns of years `y` and `y + 1`, read with
      two predictions: the forecasts land on `y + 2` and `y + 3`, right
      after the last column and not at a fixed pivot year. */
  lemma {:induction false} ScenarioTwoColumns(y: nat, row: Row, predictions: seq<int>)
    requires y > 0
    requires row == [(NameKey, "Foo"), (DecimalString(y), "100"), (DecimalString(y + 1), "110")]
    requires predictions == [120, 130]
    ensures BuildSeries(row, predictions)
            == [Point(y, Some(100)), Point(y + 1, Some(110)), Point(y + 2, Some(120)), Point(y + 3, Some(130))]
  {
    var h := [Point(y, Some(100)), Point(y + 1, Some(110))];
    ScenarioProject(y, row);
    LastYearIsLastRetained(row, 0);
    SortByYearSorted(h);
    var f := Forecast(y + 2, predictions);
    assert f == [Point(y + 2, Some(120)), Point(y + 3, Some(130))];
    assert BuildSeries(row, predictions) == h + f;
  }

  // ---------------------------------------------------------------------
  // The chart records of the country view
  // ---------------------------------------------------------------------

  /** The four `processData` calls in order, then the positional join; the
      first call that throws ends the view. */
  function CountryView(query: string, totalRows: seq<Row>, rows0: seq<Row>, rows15: seq<Row>, rows65: seq<Row>,
                       pAll: seq<int>, p0: seq<int>, p15: seq<int>, p65: seq<int>): (r: Completion<seq<Aligned>>)
    ensures r.Thrown? <==>
              FindCountry(totalRows, query).Thrown? || FindCountry(rows0, query).Thrown?
              || FindCountry(rows15, query).Thrown? || FindCountry(rows65, query).Thrown?
    ensures r.Normal? ==> |r.value| == |ProcessData(query, totalRows, pAll).value|
  {
    match ProcessData(query, totalRows, pAll)
    case Thrown(e) => Thrown(e)
    case Normal(t) =>
      match ProcessData(query, rows0, p0)
      case Thrown(e) => Thrown(e)
      case Normal(s0) =>
        match ProcessData(query, rows15, p15)
        case Thrown(e) => Thrown(e)
        case Normal(s15) =>
          match ProcessData(query, rows65, p65)
          case Thrown(e) => Thrown(e)
          case Normal(s65) => Normal(BandJoin(t, s0, s15, s65))
  }

  /** A country missing from an age-band table does not stop the view: that
      band silently reads 0 in every record. */
  lemma MissingBandReadsZero(query: string, totalRows: seq<Row>, rows0: seq<Row>, rows15: seq<Row>, rows65: seq<Row>,
                             pAll: seq<int>, p0: seq<int>, p15: seq<int>, p65: seq<int>)
    requires FindCountry(rows0, query) == Normal(None)
    requires FindCountry(totalRows, query).Normal?
    requires FindCountry(rows15, query).Normal? && FindCountry(rows65, query).Normal?
    ensures CountryView(query, totalRows, rows0, rows15, rows65, pAll, p0, p15, p65).Normal?
    ensures var r := CountryView(query, totalRows, rows0, rows15, rows65, pAll, p0, p15, p65).value;
            forall k :: 0 <= k < |r| ==> r[k].age0_14 == 0
  {
    assert ProcessData(query, rows0, p0) == Normal([]);
  }

  /** A country missing from the total table gives an empty chart, whatever
      the band tables hold. */
  lemma MissingTotalIsEmpty(query: string, totalRows: seq<Row>, rows0: seq<Row>, rows15: seq<Row>, rows65: seq<Row>,
                            pAll: seq<int>, p0: seq<int>, p15: seq<int>, p65: seq<int>)
    requires FindCountry(totalRows, query) == Normal(None)
    requires FindCountry(rows0, query).Normal?
    requires FindCountry(rows15, query).Normal? && FindCountry(rows65, query).Normal?
    ensures CountryView(query, totalRows, rows0, rows15, rows65, pAll, p0, p15, p65).Normal?
    ensures CountryView(query, totalRows, rows0, rows15, rows65, pAll, p0, p15, p65).value == []
  {
  }

  // ---------------------------------------------------------------------
  // isoCode
  // ---------------------------------------------------------------------

  /** The flag-code table, keyed by lower-case country name. */
  const Codes: map<string, string> := map[
    "united states" := "us", "united kingdom" := "gb", "india" := "in",
    "china" := "cn", "russia" := "ru", "japan" := "jp", "nepal" := "np",
    "ukraine" := "ua", "indonesia" := "id", "canada" := "ca", "brazil" := "br",
    "germany" := "de", "france" := "fr", "mexico" := "mx", "nigeria" := "ng",
    "bangladesh" := "bd", "ethiopia" := "et"]

  /** A two-letter lower-case country code. */
  predicate IsCode(s: string)
  {
    |s| == 2 && 'a' <= s[0] <= 'z' && 'a' <= s[1] <= 'z'
  }

  /** `isoCode` with an own-property lookup: the listed code for a listed
      name in any case, "un" for every other name. */
  function IsoCode(name: string): (r: string)
    ensures IsCode(r)
    ensures Lower(name) !in Codes <==> r == "un"
  {
    var k := Lower(name);
    if k in Codes then Codes[k] else "un"
  }

  /** Listed names map to their code whatever their case. */
  lemma IsoCodeListed(name: string, key: string)
    requires key in Codes && Lower(name) == key
    ensures IsoCode(name) == Codes[key]
  {
  }

  /** `isoCode(s) == isoCode(s.toLowerCase())`. */
  lemma IsoCodeOfLower(name: string)
    ensures IsoCode(name) == IsoCode(Lower(name))
  {
    LowerIdempotent(name);
  }

  /** What `codes[key]` yields on a plain object literal: an own property,
      a member inherited from `Object.prototype` (a function or, for
      `__proto__`, an object; always truthy), or undefined. */
  datatype Property = OwnString(s: string) | Inherited(member: string) | Undefined

  /** Property names of `Object.prototype`. */
  const PrototypeMembers: set<string> := {
    "constructor", "hasOwnProperty", "isPrototypeOf", "propertyIsEnumerable",
    "toLocaleString", "toString", "valueOf", "__proto__", "__defineGetter__",
    "__defineSetter__", "__lookupGetter__", "__lookupSetter__"}

  function PlainObjectGet(own: map<string, string>, key: string): (r: Property)
    ensures key in own ==> r == OwnString(own[key])
    ensures key !in own ==> (r == Inherited(key) <==> key in PrototypeMembers)
    ensures key !in own && key !in PrototypeMembers ==> r == Undefined
  {
    if key in own then OwnString(own[key])
    else if key in PrototypeMembers then Inherited(key)
    else Undefined
  }

  /** `codes[countryName.toLowerCase()] || "un"` as written: the prototype
      chain is consulted before falling back to "un". */
  function IsoCodeAsWritten(name: string): (r: Property)
    ensures !r.Undefined?
    ensures Lower(name) !in PrototypeMembers ==> r == OwnString(IsoCode(name))
  {
    match PlainObjectGet(Codes, Lower(name))
    case OwnString(s) => if s != "" then OwnString(s) else OwnString("un")
    case Inherited(m) => Inherited(m)
    case Undefined => OwnString("un")
  }

  /** The two `Object.prototype` members a lower-cased name can hit. */
  predicate LowerCaseMember(k: string)
  {
    k == "constructor" || k == "__proto__"
  }

  /** Neither is a key of the table, though both are inherited. */
  lemma LowerCaseMembersUnlisted(k: string)
    requires LowerCaseMember(k)
    ensures k !in Codes && k in PrototypeMembers
  {
  }

  /** Every name that lower-cases to one of those members is unlisted, yet
      the lookup as written returns the inherited member rather than "un". */
  lemma IsoCodeAsWrittenInherited(name: string)
    requires LowerCaseMember(Lower(name))
    ensures Lower(name) !in Codes
    ensures IsoCodeAsWritten(name) == Inherited(Lower(name))
    ensures IsoCode(name) == "un"
  {
    LowerCaseMembersUnlisted(Lower(name));
  }

  /** "Constructor" is not listed, yet the lookup returns the inherited
      `Object` constructor instead of "un". */
  lemma {:induction false} IsoCodeAsWrittenConstructor(name: string)
    requires name == "Constructor"
    ensures Lower(name) !in Codes
    ensures IsoCodeAsWritten(name) == Inherited("constructor")
    ensures IsoCode(name) == "un"
  {
    var t := "constructor";
    assert |Lower(name)| == |t|;
    assert forall i :: 0 <= i < |t| ==> Lower(name)[i] == t[i];
    IsoCodeAsWrittenInherited(name);
  }
}
