# Population dashboard: series construction and hash routing in Dafny

This project models the parts of the population dashboard that have real logic:

- **Country view.** `processData` in `js/countryChart.js` finds a country's row in a CSV table. The name comparison ignores case. It turns the row's year columns into `{year, value}` points and sorts them by year. It appends the forecasts from the prediction service, starting the year after the last year column.
- **Country flag code.** `isoCode` in `js/countryChart.js` looks up the flag code for a country name.
- **World view.** In `js/worldChart.js`, a reducer sums every row's cell for each year from 1960 to 2023. `processData` sorts those yearly totals and appends forecasts from the fixed pivot year 2024.
- **Band join.** Both views combine the total series with the three age-band series (0-14, 15-64, 65+). The join is positional and uses `band[i]?.value || 0`.
- **Hash router.** `js/main.js` reads `location.hash`, picks the country view or the map, and decodes the country argument with `decodeURIComponent`.
- **Map click.** The map's click handler (`js/choroplath.js`) writes that hash with `encodeURIComponent`.

## Modules

- `JsValues` (`js_values.dfy`) covers the JavaScript semantics the core relies on:
  - `Completion`, a normal result or a thrown `TypeError` / `URIError`.
  - The unary `+` string-to-number coercion (`ToNumber`, with NaN as `None`).
  - Truthiness of numbers.
  - `toLowerCase` on ASCII letters.
  - The decimal spelling of a year key.
- `Series` (`series.dfy`) holds what both views share:
  - points and CSV rows;
  - the stable sort by year;
  - forecast extension;
  - the positional band join.
- `CountryChart` (`country_chart.dfy`) covers the country view's `processData` and `isoCode`.
- `WorldChart` (`world_chart.dfy`) covers the yearly aggregation, the world view's `processData` and the joined chart records.
- `UriComponent` (`uri_component.dfy`) implements `encodeURIComponent` and `decodeURIComponent` over UTF-8. The percent-encoding is the one in section 2.1 of RFC 3986.
- `Router` (`router.dfy`) covers:
  - `String.prototype.split` on one character;
  - dispatch on load;
  - the `hashchange` listener;
  - the hash written by the map's click handler.

A CSV row is the list of `(key, cell)` pairs in the order `Object.entries` yields them. Reading `row[key]` takes the first entry with that key. NaN is `None`, and every other number is an unbounded integer. A JavaScript exception becomes `Thrown`:

- `d["Country Name"].toLowerCase()` on a row without that column throws a TypeError.
- A malformed percent escape throws a URIError.

## Model

| member | source | states |
|---|---|---|
| CountryChart.FindCountry | js/countryChart.js:2 | The result is "not found" exactly when every row has a name and none matches the query ignoring case. A found row is the first row that matches, and every row before it is a named non-match. A TypeError happens only when an unnamed row comes before any match. |
| CountryChart.ProcessData | js/countryChart.js:1-24 | If no row matches, the result is the empty series. The call throws exactly when the row search throws. |
| CountryChart.NotFoundIsEmpty | js/countryChart.js:2-3 | When every row is a named non-match, the result is empty, with no forecast appended. |
| CountryChart.FirstMatchDecides | js/countryChart.js:2-3 | With non-matching rows before it, the first matching row alone decides the series. Rows after it are ignored. |
| CountryChart.SkippedShift | js/countryChart.js:2 | When the first row is a named non-match, a prefix of the remaining rows is skipped exactly when that prefix, one longer, of all rows is skipped. |
| CountryChart.FindAfterNonMatching | js/countryChart.js:2 | Non-matching named rows in front of the table do not change what the search returns. |
| CountryChart.NonMatchingRowsIgnored | js/countryChart.js:1-3 | Rows of other countries placed in front of the table do not change the processed series. |
| CountryChart.QueryCaseIgnored | js/countryChart.js:2 | Two queries that are equal after lower-casing give the same result. |
| CountryChart.FindCaseIgnored | js/countryChart.js:2 | Two queries that are equal after lower-casing find the same row, or throw the same error. |
| CountryChart.Project | js/countryChart.js:6-15 | The projection yields at most one point per entry, and it is empty exactly when no entry passes both filters. |
| CountryChart.ProjectCount | js/countryChart.js:6-15 | The projection yields exactly one point per retained entry: its length is the number of entries that pass both filters. |
| CountryChart.ProjectSound | js/countryChart.js:6-15 | Every historical point comes from an entry whose key is neither the name nor the code column and reads as a truthy number. So no point has year 0. |
| CountryChart.ProjectComplete | js/countryChart.js:6-15 | Every entry that passes both filters appears among the points. |
| CountryChart.NameAndCodeAreNaN | js/countryChart.js:7-15 | Neither column name reads as a number. So the explicit name/code filter only removes what the truthy-year filter would remove anyway. |
| CountryChart.LastYearIsLastRetained | js/countryChart.js:5-9 | `func_year` ends as the year of the last retained entry in entry order (before sorting), or 0 when none is retained. |
| CountryChart.LastYearFrom | js/countryChart.js:5-9 | `func_year` keeps its start value when no entry is retained, and is non-zero once any entry is retained. |
| CountryChart.LastYear | js/countryChart.js:5-9 | `func_year` starts at 0 and ends at 0 exactly when no entry is retained, so country forecasts then start at year 1. |
| CountryChart.BuildSeries | js/countryChart.js:6-21 | The historical part is a year-ordered permutation of the projected points. The forecasts follow it, at years `func_year + 1`, `func_year + 2`, and so on. |
| CountryChart.AppendForecasts | js/countryChart.js:18-21 | The pre-increment loop keeps the series and appends prediction i at year `func_year + 1 + i`. Its result is exactly the series followed by the forecast extension that `CountryChart.BuildSeries` appends. |
| CountryChart.ForecastsContinueHistory | js/countryChart.js:16-20 | When the year columns come in order, the whole series is sorted. The first forecast year is the last historical year plus one. |
| CountryChart.ScenarioProject | js/countryChart.js:6-15 | A row with a name and the cells "100" and "110" under years y and y+1 gives exactly the points (y, 100) and (y+1, 110). |
| CountryChart.ScenarioTwoColumns | js/countryChart.js:1-24 | For that row and predictions 120 and 130, the series is (y, 100), (y+1, 110), (y+2, 120), (y+3, 130). The forecasts follow the last column without a gap. |
| CountryChart.FoundIsNotEmpty | js/countryChart.js:18-23 | A found country with predictions never yields an empty series. |
| CountryChart.CountryView | js/countryChart.js:69-82 | The view throws exactly when the row search throws in one of the four tables. It has one record per point of the total series. |
| CountryChart.MissingBandReadsZero | js/countryChart.js:69-82 | A country missing from an age-band table does not make the view throw when the other three searches do not throw, and that band is 0 in every record. |
| CountryChart.MissingTotalIsEmpty | js/countryChart.js:69-82 | A country missing from the total table gives an empty chart, whatever the band tables hold. The view does not throw when the three band searches do not throw. |
| CountryChart.IsoCode | js/countryChart.js:26-47 | The result is always a two-letter lower-case code. It is "un" exactly when the lower-cased name is not in the table. This is the intended own-property lookup; the code as written is `CountryChart.IsoCodeAsWritten`. |
| CountryChart.IsoCodeListed | js/countryChart.js:27-46 | A listed name yields its table entry in any letter case. |
| CountryChart.IsoCodeOfLower | js/countryChart.js:46 | A name and its lower-cased form get the same code. |
| CountryChart.PlainObjectGet | js/countryChart.js:46 | A property read on an object literal returns the own property when there is one. Otherwise it returns the inherited member exactly when the key names an `Object.prototype` member, and undefined for every other key. |
| CountryChart.IsoCodeAsWritten | js/countryChart.js:46 | The lookup as written never yields undefined. It agrees with `IsoCode` for every name whose lower-cased form is not an `Object.prototype` member. |
| CountryChart.LowerCaseMembersUnlisted | js/countryChart.js:27-46 | "constructor" and "__proto__" are `Object.prototype` members and not keys of the table. |
| CountryChart.IsoCodeAsWrittenInherited | js/countryChart.js:46 | For every name that lower-cases to "constructor" or "__proto__", the code as written returns the inherited member, while the intended lookup gives "un". |
| CountryChart.IsoCodeAsWrittenConstructor | js/countryChart.js:46 | For the unlisted name "Constructor", the code as written returns the inherited constructor, while the intended lookup gives "un". |
| Series.Lookup | js/worldChart.js:36 | `row[key]` is present exactly when some entry has that key. Its value is the cell of such an entry. |
| Series.SortByYear | js/countryChart.js:16 | The result is ordered by year, has the same length, and is a permutation of the input. |
| Series.InsertFront | js/countryChart.js:16 | A point no later than the head of a sorted series can be placed in front of it. |
| Series.InsertBehind | js/countryChart.js:16 | Keeping an earlier head in front of a sorted insertion into the tail stays sorted and adds exactly the inserted point. |
| Series.AllFromPermutation | js/countryChart.js:16 | A lower bound on the years carries over to any permutation. |
| Series.PrependSorted | js/countryChart.js:16 | A point no later than every point of a sorted series can lead it. |
| Series.Insert | js/countryChart.js:16 | Inserting into a year-ordered series keeps it ordered and adds exactly that point. |
| Series.SortByYearStable | js/countryChart.js:16 | The sort is stable: the points of each year keep their original relative order. |
| Series.InYearInsert | js/countryChart.js:16 | Insertion puts a point ahead of the points of its own year and leaves other years untouched. |
| Series.InYearConcat | js/countryChart.js:16 | The points of one year in a concatenation are that year's points of each part, in order. |
| Series.SortByYearSorted | js/worldChart.js:3 | A series already in year order is a fixed point of the sort. |
| Series.Forecast | js/worldChart.js:5-8 | Prediction i becomes the point at year `first + i` with that value. |
| Series.ForecastAfterSorted | js/countryChart.js:16-21 | A sorted series extended from its last year plus one stays sorted, and the forecasts continue without a gap. |
| Series.BandJoin | js/countryChart.js:76-82 | There is one record per total point, with its year and total. Each band contributes its value at the same index, or 0 when the band is shorter or holds NaN there. |
| WorldChart.CellNumber | js/worldChart.js:36 | A cell under the year's decimal key that reads as a number contributes exactly that number. A non-zero contribution only ever comes from such a cell, so a missing or non-numeric cell contributes 0. |
| WorldChart.EmptyColumnSumsToZero | js/worldChart.js:36 | The column total `WorldChart.ColumnSum` is 0 when no row holds a non-zero number for the year. |
| WorldChart.SumColumn | js/worldChart.js:36 | The left-to-right sum over the rows equals the column total, where a missing or non-numeric cell counts 0. |
| WorldChart.ColumnSumConcat | js/worldChart.js:36 | Column totals add up over any split of the rows. |
| WorldChart.NonNumericCellCountsZero | js/worldChart.js:36 | A row whose cell for the year is missing or NaN leaves that year's total unchanged. |
| WorldChart.SingleCell | js/worldChart.js:36 | A row holding one cell for the year contributes that cell's number, or 0 when it is NaN. |
| WorldChart.ScenarioBadCell | js/worldChart.js:36 | In any year's column, cells "10", "bad" and "20" total 30. |
| WorldChart.AggregateFrom | js/worldChart.js:33-39 | The loop from a year up to 2024 yields one point per year, each holding that year's column total. |
| WorldChart.Aggregate | js/worldChart.js:32-40 | There are exactly 64 points, for 1960 through 2023, each holding the all-row total of its year. |
| WorldChart.ProcessData | js/worldChart.js:1-11 | The historical part is a year-ordered permutation of the input. The forecasts follow at 2024, 2025, and so on, whatever the last historical year is. |
| WorldChart.AppendForecasts | js/worldChart.js:5-8 | The post-increment loop keeps the series and appends prediction i at year 2024 + i. Its result is exactly the series followed by the forecast extension that `WorldChart.ProcessData` appends. |
| WorldChart.ProcessYearly | js/worldChart.js:1-11 | A gap-free 1960-2023 series is left in place, and the forecasts continue it year by year. |
| WorldChart.AggregateThenProcess | js/worldChart.js:32-48 | The processed aggregate is the 64 yearly totals followed by the forecasts. It has one point per year from 1960 without a gap. |
| WorldChart.TotalsThenForecasts | js/worldChart.js:32-48 | The 64 yearly totals followed by the forecasts hold, at each index, the yearly total and then the forecast. |
| WorldChart.ProcessedBandValues | js/worldChart.js:32-48 | A processed band has 64 plus N points, where N is its number of predictions. Point k holds the band's yearly total for k below 64, and its forecast after that. |
| WorldChart.DefaultedBand | js/worldChart.js:52-58 | At index k the join takes that band's yearly total, then its own forecast, then 0 past the band's end. |
| WorldChart.WorldView | js/worldChart.js:45-58 | The chart has one record per year from 1960 through 2023 plus one per total-population prediction. |
| WorldChart.WorldViewYears | js/worldChart.js:45-58 | The chart has 64 plus N records, where N is the number of total-population predictions, for consecutive years from 1960. |
| WorldChart.JoinYearly | js/worldChart.js:52-58 | The join keeps the total series' gap-free years. |
| WorldChart.WorldViewTotals | js/worldChart.js:45-58 | The total of each of the first 64 records is the all-country sum of its year. |
| WorldChart.WorldViewBands | js/worldChart.js:45-58 | Each band value is the band's own yearly total, then its own forecast, then 0 where it has fewer predictions than the total. |
| UriComponent.Utf8 | js/choroplath.js:46 | A code point encodes as 1 to 4 octets. It is a single octet exactly for ASCII, and otherwise a lead octet announcing the length followed by continuation octets. |
| UriComponent.Utf8RoundTrip | js/main.js:7 | Decoding the UTF-8 octets of a non-ASCII code point gives the code point back. |
| UriComponent.PercentByte | js/choroplath.js:46 | `%XX` with hex digits whose value is the octet. |
| UriComponent.Encode | js/choroplath.js:46 | The output is at least as long as the input and contains only unreserved characters and `%`. |
| UriComponent.EncodeHasNoSeparators | js/choroplath.js:46 | The encoded name never contains `=`, `&`, `#` or `?`. |
| UriComponent.Decode | js/main.js:7 | Decoding either succeeds or throws a URIError. |
| UriComponent.DecodePlain | js/main.js:7 | Text without `%` decodes to itself. |
| UriComponent.ReadContinuationsOfEncoded | js/main.js:7 | The escapes of continuation octets read back as those octets. |
| UriComponent.ReadPercentByte | js/main.js:7 | An escaped octet reads back as that octet, and reading resumes right after it. |
| UriComponent.DecodeEscapedAscii | js/main.js:7 | An escaped ASCII character decodes to itself. |
| UriComponent.DecodeEscapedMultiOctet | js/main.js:7 | The escaped UTF-8 octets of a non-ASCII character decode to that character. |
| UriComponent.DecodeEncodedChar | js/main.js:7 | Decoding one encoded character, followed by anything, yields that character first. |
| UriComponent.DecodeEncode | js/main.js:16 | `decodeURIComponent(encodeURIComponent(s))` is `s` for every string. |
| UriComponent.TruncatedEscapeThrows | js/main.js:7 | A lone `%`, a one-digit escape and a truncated multi-octet sequence each throw a URIError. |
| Router.Split | js/main.js:7 | `split` gives one more piece than there are separators, and no piece contains the separator. |
| Router.JoinSplit | js/main.js:7 | Joining the pieces with the separator restores the string. |
| Router.SplitAfter | js/main.js:7 | Separator-free text followed by the separator is the first piece, and the rest is split on its own. |
| Router.SplitNone | js/main.js:7 | A string without the separator is a single piece. |
| Router.SplitCountryHash | js/main.js:6-7 | For a hash with the country prefix, piece 0 is the prefix up to its `=`, and piece 1 always exists. |
| Router.FirstPiece | js/main.js:7 | Piece 0 is the text up to the first separator or the end. |
| Router.CountryArgument | js/main.js:7 | The argument is the text after the prefix up to the next `=` or the end, and it contains no `=`. |
| Router.Dispatch | js/main.js:5-11 | The map is shown exactly when the hash lacks the country prefix. Only a prefixed hash can throw, and then only a URIError. |
| Router.OnHashChange | js/main.js:13-22 | The listener picks the same view as the load-time dispatch. The listener's own line 19 clears the container exactly when it shows the map. |
| Router.ExtraEqualsDiscarded | js/main.js:16 | Anything after a second `=` in the hash is ignored. |
| Router.EmptyArgument | js/main.js:6-7 | The bare prefix selects the country view with the empty name. |
| Router.Label | js/choroplath.js:46 | The label is never empty. A non-empty feature name is kept as is, and a missing or empty name becomes "Unknown". |
| Router.ClickHash | js/choroplath.js:46 | A click always writes a hash that the router recognises as the country route. |
| Router.ClickRoundTrip | js/choroplath.js:46 | Reading back the hash a click wrote selects the country view with exactly the clicked label. |
| JsValues.ToNumber | js/countryChart.js:9-12 | An empty or all-whitespace string reads as 0. |
| JsValues.ParseDigitsSome | js/countryChart.js:9-12 | The digit parser succeeds exactly on non-empty strings made only of digits of the radix. |
| JsValues.ToNumberSigned | js/countryChart.js:11-12 | A `+` or `-` in front of a decimal numeral gives its value with that sign. |
| JsValues.ToNumberOfNonNumeral | js/countryChart.js:7-15 | Text whose trimmed form starts with neither a digit nor a sign reads as NaN. |
| JsValues.ToNumberOfDecimalString | js/worldChart.js:36 | The decimal spelling of a year reads back as that year. |
| JsValues.ParseDecimalString | js/worldChart.js:36 | Parsing the digits of a decimal spelling gives the number back. |
| JsValues.DecimalString | js/worldChart.js:36 | The decimal spelling is non-empty, all digits, and has no leading zero except for "0" itself. |
| JsValues.Lower | js/countryChart.js:2 | Lower-casing keeps the length and maps each character on its own. |
| JsValues.LowerIdempotent | js/countryChart.js:46 | Lower-casing twice is the same as lower-casing once. |

## Left out

- Fetching the CSV files and the prediction service, `Promise.all`, and `res.json()`. The tables and prediction lists are parameters.
- The predictions are given as integers, so `parseInt` on each prediction is not modelled.
- All drawing is left out: scales, axes, paths, tooltips, the legend, the flag image and the country outline (`js/countryChart.js:84-244`, `js/worldChart.js:60-197`, the rest of `js/choroplath.js`).
- `d3.timeParse("%Y")`: chart records keep the year as an integer.
- Clearing `#container` is modelled only for the listener's own line in `js/main.js:19`, as a flag on its reaction (`Router.OnHashChange`). Each view also clears the container itself before drawing (`js/countryChart.js:92-93`, `js/worldChart.js:68-69`, `js/choroplath.js:2-3`); that belongs to the DOM, which is not modelled.
- The browser's own normalisation of `location.hash` is not modelled. The hash a click writes is assumed to be the hash read back.
- JsValues.ToNumber: a numeral with a fraction, an exponent or `Infinity` reads as a number in JavaScript but as NaN (`None`) here. The year and population cells are integers. Non-integer numbers, and the float rounding above 2^53, are not modelled.
- JsValues.ToNumber: its own contract states only the empty-string case. Its meaning on numerals and on words is stated by `JsValues.ToNumberOfDecimalString`, `JsValues.ToNumberSigned` and `JsValues.ToNumberOfNonNumeral`.
- JsValues.Lower: only ASCII letters are lower-cased, not the full Unicode case mapping of `toLowerCase`.
- UriComponent.Encode: strings are sequences of Unicode scalar values. So a lone surrogate, which makes `encodeURIComponent` throw a URIError, cannot be represented.
- The order of `Object.entries` (integer-like keys first, in ascending order) is not derived. A row is given in entry order. `CountryChart.ForecastsContinueHistory` requires that order rather than deriving it.
- Routes. `js/main.js` recognises only the `#countryChart?country=` prefix. Every other hash shows the map, so `WorldChart.WorldView` is modelled but is not reachable from `Router.Dispatch`.
- A URIError from `decodeURIComponent` at load time (`js/main.js:7`) ends `init()` before line 13 runs, so after a malformed initial hash the `hashchange` listener is never installed. `Router.OnHashChange` models the listener as installed; the listener's wiring is not modelled.
- Forecast years. Country forecasts start at `func_year + 1` (`++startYear` in `js/countryChart.js:20`). World forecasts start at 2024 (`startYear++` in `js/worldChart.js:7`). For a row with columns 2020 and 2021 and two predictions, the country view places them at 2022 and 2023 (`CountryChart.ScenarioTwoColumns` with y = 2020).
- Views other than the country and world charts, with their own row lookups, are not part of this model.
- The lookup of the country outline in the map features (`js/countryChart.js:210`) belongs to drawing and is left out.

## Findings

| source | as written | input that shows it | evidently intended | confidence | as-written member | corrected member |
|---|---|---|---|---|---|---|
| js/countryChart.js:46 | `codes[name.toLowerCase()] \|\| "un"` reads the table as a plain object, so a name whose lower-cased form is an `Object.prototype` member yields an inherited function or object (truthy), not a code | `isoCode("Constructor")` gives the `Object` constructor, so the flag URL becomes `.../h80/function Object() { [native code] }.png`. Any name that lower-cases to "__proto__" behaves the same way. | "un" for every name that is not in the table, which needs an own-property lookup | high that the lookup misbehaves on those names; low practical impact because no country name collides with them; not executed | CountryChart.IsoCodeAsWrittenConstructor | CountryChart.IsoCode |
