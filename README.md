# chicagohouses — a Dafny model of `get_houses`

`chicagohouses` exposes one function, `get_houses`, over a fixed parquet
snapshot of Chicago residential parcels. It normalises its loosely typed
arguments (`__validate_args`), rejects bad ones, projects the columns,
filters the rows by community area and by build year, and returns the result
as a GeoDataFrame, a pandas DataFrame or the polars LazyFrame.

This project models that logic:

- `Text`: ASCII upper-casing of area names (`Upper`, `UpperAll`) and the
  `", ".join` of the invalid-area error message.
- `Seqs`: `Keep`, the list comprehension `[x for x in xs if p(x)]`. It is used
  both for the invalid-area list and for the frame's row filter.
- `Frames`: a parcel `Row`, a `Frame` (column names plus rows), `select`,
  `filter`, and the distinct values of the `community` column.
- `Validation`: the argument shapes (`AreasArg`, `YearArg`), the three errors,
  the specification function `Validate` and the method `ValidateArgs`.
  `ValidateArgs` follows the source statement by statement. That includes
  `year_range.extend(year_range)`, which doubles the caller's one-element list
  in place (class `IntList`). It does this before any check can fail.
- `Houses`: the pipeline of `get_houses` (`Pipeline`, `Query`, the method
  `GetHouses`) and the lemmas about which rows and columns come back.

Python's truthiness is modelled explicitly. `community_areas` is "not given"
when it is `False`, `""` or `[]`. `year_range` is "not given" when it is
`False`, `0` or `[]`. A missing argument skips normalisation, validation and
filtering.

Edge cases of the checks as the code performs them:

- The year-range length is checked before `output_type`, so a bad year range
  wins over a bad output selector.
- No check compares the two bounds. A reversed range is accepted and selects
  no rows (`Houses.ReversedRangeSelectsNothing`).
- An empty year list is falsy, so it means "no filter" rather than an error.
- The output selectors are the literal strings `"geopandas"`, `"pandas"` and
  `"polars"`.

## Model

| member | source | states |
|---|---|---|
| `Text.UpperChar` | chicagohouses/funcs.py:74 | the result is never a lower-case ASCII letter; a lower-case letter maps to its capital and any other character is unchanged |
| `Text.Upper` | chicagohouses/funcs.py:74 | `x.upper()` keeps the length and upper-cases every character in place |
| `Text.UpperIdempotent` | chicagohouses/funcs.py:52 | upper-casing an upper-cased name changes nothing |
| `Text.UpperAll` | chicagohouses/funcs.py:74 | the comprehension keeps length and order, and element i is the upper-case of input element i |
| `Text.UpperAllIdempotent` | chicagohouses/funcs.py:52 | re-upper-casing an upper-cased list changes nothing |
| `Text.Join` | chicagohouses/funcs.py:98 | `", ".join` of no names is empty, of one name is that name, and otherwise starts with the first name followed by the separator |
| `Text.JoinSeparatorAt` | chicagohouses/funcs.py:98 | the separator follows every name but the last, immediately after it |
| `Text.JoinLength` | chicagohouses/funcs.py:98 | the joined string ends where the last name ends; with `Text.JoinContains` and `Text.JoinSeparatorAt` every character is fixed |
| `Text.JoinContains` | chicagohouses/funcs.py:98 | every item of a `", ".join` occurs whole in the joined string, at a computed offset |
| `Seqs.Keep` | chicagohouses/funcs.py:94-95 | a comprehension filter keeps exactly the items that pass and never grows the list |
| `Seqs.KeepConcat` | chicagohouses/funcs.py:94-95 | filtering distributes over concatenation, so kept items stay in input order |
| `Seqs.KeepCount` | chicagohouses/funcs.py:94-95 | each kept item survives with its full multiplicity; a dropped item with none |
| `Seqs.KeepAll` | chicagohouses/funcs.py:51-54 | a filter every item passes returns the input unchanged |
| `Seqs.KeepNone` | chicagohouses/funcs.py:54 | a filter no item passes returns nothing |
| `Seqs.KeepKeep` | chicagohouses/funcs.py:51-54 | two filters applied in sequence equal one filter by their conjunction |
| `Frames.Select` | chicagohouses/funcs.py:46 | `select` yields exactly the named columns in the named order, each one a column of the frame, and keeps every row in place (row records are not narrowed, see Left out) |
| `Frames.Filter` | chicagohouses/funcs.py:52 | `filter` keeps the columns, and its rows are `Seqs.Keep` of the frame's rows: a row survives iff it passes, in the original order and with every duplicate (`Seqs.KeepConcat`, `Seqs.KeepCount`) |
| `Frames.Communities` | chicagohouses/funcs.py:89-93 | the distinct community values: a name is among them iff some row carries it |
| `Validation.ParseOutputType` | chicagohouses/funcs.py:83-85 | `output_type` is accepted iff it is "geopandas", "pandas" or "polars", each mapped to its own kind |
| `Validation.Message` | chicagohouses/funcs.py:79-98 | the year-range and output-type texts are returned exactly for their own errors; the invalid-area text is "The following are not valid community area(s): ", the `", "`-joined names, then "." |
| `Validation.MessageNamesEveryArea` | chicagohouses/funcs.py:96-98 | the invalid-area message contains every offending name, not just the first |
| `Validation.IntList.constructor` | chicagohouses/funcs.py:77 | a new list holds the given items |
| `Validation.IntList.Extend` | chicagohouses/funcs.py:78 | `extend` appends the given items to the list in place |
| `Validation.AreasGiven` | chicagohouses/funcs.py:72 | `community_areas` is falsy (no filter, no normalisation, no check) exactly when it is `False`, `""` or `[]`; the same test guards lines 51 and 88 |
| `Validation.YearsGiven` | chicagohouses/funcs.py:76 | `year_range` is falsy (no filter, no normalisation, no check) exactly when it is `False`, `0` or an empty list; the same test guards line 53 |
| `Validation.ExtendIfSingle` | chicagohouses/funcs.py:78 | `l.extend(l)` turns [y] into [y, y] and leaves any other list alone; the result has two values iff the input had one or two |
| `Validation.NormalizeAreas` | chicagohouses/funcs.py:72-74 | a falsy argument gives no filter; one name becomes a one-element upper-cased list; a list keeps length and order with each name upper-cased |
| `Validation.NormalizeYears` | chicagohouses/funcs.py:76-80 | a falsy argument gives no filter; y and [y] give (y, y); [a, b] gives (a, b); three or more values give the year-range error |
| `Validation.UnknownAreas` | chicagohouses/funcs.py:94-96 | the invalid list holds exactly the names not among the known communities, and is empty iff every name is known |
| `Validation.UnknownAreasOrderAndDuplicates` | chicagohouses/funcs.py:94-95 | the invalid names keep input order and every duplicate |
| `Validation.Validate` | chicagohouses/funcs.py:68-100 | a year-range error is reported before an output-type error, and both before unknown areas; when the first two pass and some normalised name is unknown, the error is exactly the list of unknown names; the call succeeds iff none applies, with normalised, known areas |
| `Validation.BadYearsBeforeBadOutput` | chicagohouses/funcs.py:76-85 | a three-element year range with output type "csv" gives the year-range error |
| `Validation.UnknownNameReported` | chicagohouses/funcs.py:72-98 | an unknown "Atlantis" is reported as "ATLANTIS" |
| `Validation.ValidateArgs` | chicagohouses/funcs.py:68-100 | the step-by-step validation returns what `Validate` gives on the caller's arguments, and leaves the caller's year list doubled iff it had one element |
| `Houses.Project` | chicagohouses/funcs.py:45-46 | minimal mode keeps exactly pin, addr, build_year, community, house_point in that order; full mode keeps all columns; either way the result's columns are columns of the dataset and include the five minimal ones; the rows kept are the same |
| `Houses.AreaFilter` | chicagohouses/funcs.py:52 | a row passes iff its community equals the upper-case of some requested name |
| `Houses.YearFilter` | chicagohouses/funcs.py:54 | `is_between` is inclusive: a row passes iff lower <= build_year <= upper, so a reversed range passes nothing |
| `Houses.Pipeline` | chicagohouses/funcs.py:45-54 | projection and the two optional filters give the chosen mode's columns and, for upper-case area names, exactly the rows satisfying every active predicate, in dataset order |
| `Houses.Query` | chicagohouses/funcs.py:42-65 | `get_houses` fails iff validation fails, with the same error; on success the output kind is the selected one and the columns are those of the chosen mode in the frame before materialisation |
| `Houses.NormalizedAreasAreUpper` | chicagohouses/funcs.py:52 | upper-casing the validated names a second time changes nothing |
| `Houses.QueryResult` | chicagohouses/funcs.py:42-54 | a successful call returns the chosen columns and exactly the rows whose community is among the normalised areas and whose build year is within the inclusive range |
| `Houses.ProjectionKeepsRows` | chicagohouses/funcs.py:45-54 | full and minimal mode succeed or fail together and return the same rows |
| `Houses.NoFilterKeepsEveryRow` | chicagohouses/funcs.py:51-54 | with an accepted output type, falsy area and year arguments succeed and return every row of the dataset |
| `Houses.ReversedRangeSelectsNothing` | chicagohouses/funcs.py:76-79 | with a valid output type and known areas, a two-element range with lower > upper is accepted (the call succeeds) and returns no rows |
| `Houses.SingleYearSelectsThatYear` | chicagohouses/funcs.py:76-78 | for a non-zero single year y (0 is falsy and means no filter), no area filter and every accepted output type, y behaves as [y, y]: the call succeeds and returns exactly the rows built in year y |
| `Houses.GetHouses` | chicagohouses/funcs.py:9-65 | the step-by-step pipeline returns what `Query` gives on the caller's arguments, and leaves the caller's year list doubled iff it had one element |

## Left out

- Opening the parquet file and turning `FileNotFoundError` into the `RuntimeError` raised when the data file is missing (funcs.py:34-39): file I/O. The dataset is a parameter.
- Building the GeoDataFrame, parsing the WKT points and setting EPSG:4326 (funcs.py:57-61): foreign geometry code. The output kind is only a tag. The GeoDataFrame also gains a `geometry` column next to `house_point`, which the model's column list does not show.
- `.collect().to_pandas()` and the lazy evaluation of the polars frame: the frame is an ordinary list of rows.
- The console notice printed in full mode (funcs.py:48-50): a side effect only.
- Float year bounds, and `True` passed as a year: years are integers.
- Arguments of other Python shapes, such as a tuple (a 1-tuple fails at `.extend`) or a list holding non-strings. The inputs are explicit variants.
- Null community or build-year values in the data, which polars' `is_in` and `is_between` never select. Rows carry plain strings and integers.
- Frames.Select: changes only the frame's column list. Each row record keeps all its fields, including the full-mode characteristics, where polars' `select` would narrow every row to the chosen columns. Which rows survive, and in what order, is unaffected.
- A `select` of a column missing from the file: `Frames.Select` requires the columns to exist, as the shipped file guarantees for the five minimal ones.
- `Text.Upper`: upper-cases ASCII letters only, because Python's Unicode case mapping is not modelled.
- setup.py: packaging metadata, no logic.
