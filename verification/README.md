# NCDC station coverage and observation decoding, in Dafny

This project models the data-management core of a small weather-data
analysis. The model draws on three of its notebooks:
`assignments/week02/EDA.py`, `assignments/week04/vizs.py` and, for where
the station helpers are applied, `assignments/week03/EDA 2.py`. The first
one (`assignments/week02/EDA.py`) does the following:

- It keys every station of the station catalogue as `usaf-wban`.
- It drops stations that have no coordinates.
- It builds an index of the per-station, per-year `*.op` observation files
  from their names and line counts.
- It summarises that index per station: the number of year files, the
  latest and earliest year, and the sum of observations.
- It checks that the keys are unique and inner-joins the station table,
  the year statistics and the observation sums. The joined table is then
  inner-joined with the stations a climate classification selected.

`assignments/week04/vizs.py` decodes daily observation
rows:

- It builds the date from the year and the `monthday` field.
- It pads the six-character FRSHTT field and reads the fog, rain, snow,
  hail, thunder and tornado flags from it.
- It turns the temperature code `99.9` into a missing value.

`vizs.py` also defines `getId`, which rebuilds the station key from the
numeric station and WBAN fields padded to 6 and 5 digits, and
`getStationByStnWban`, which looks up a station's category (lines 38-51).
It never calls them. The same two functions are defined again in
`assignments/week03/EDA 2.py` (lines 205-218), which applies them to the
raw observation rows: the category of each row at line 242 and the key of
each row at line 285. `Observations.DecodeRow` puts all of these per-row
steps together, whichever notebook performs them.

The category table that `getStationByStnWban` reads is `scdfc` with a
`koppen` column, as built in `assignments/week03/EDA 2.py` (lines 173-186).
In the model, the `category` of a `SelectedStation` stands for that
column.

Tables become sequences of rows or maps keyed by the station key. Python
failures become `Option` results. Text is `seq<char>`.

Modules, one per file:

- `Wrappers`: `Option`.
- `Text`: `"{:0>w}".format`, `str.split`, `str.replace`.
- `Decimal`: Python's `int()` on text and `str()` on integers.
- `Stations`: the station record, its key, and the coordinate filter.
- `YearIndex`: `*.op` file name to index entry.
- `Coverage`: the group-by statistics.
- `Joins`: the uniqueness checks and the inner joins.
- `Calendar`: the dates `datetime` accepts.
- `StationIds`: `getId` and `getStationByStnWban`.
- `ObsDates`: `getDateTimeFromRow`.
- `WeatherFlags`: the FRSHTT field.
- `Observations`: the temperature code and the whole row.

## Model

| member | source | states |
|---|---|---|
| Stations.StationKey | assignments/week02/EDA.py:46 | the key is the USAF identifier, a `-`, then the WBAN identifier, at fixed positions |
| Stations.StationKeySplits | assignments/week02/EDA.py:46 | splitting a key built from dash-free identifiers on `-` gives back exactly the two identifiers |
| Stations.WithLocation | assignments/week02/EDA.py:48 | a station survives the filter iff it is in the input and has both latitude and longitude; the table never grows |
| Stations.WithLocationCounts | assignments/week02/EDA.py:48 | the filter keeps every located row with its multiplicity and drops every row without a position |
| YearIndex.ParseOpFile | assignments/week02/EDA.py:77-83 | an entry's key is `usaf-wban` made of two dash-free parts, and its observation count is the line count minus the header |
| YearIndex.ParseOpFileName | assignments/week02/EDA.py:77-83 | the file `U-W-Y.op` of `n` lines is indexed as station `U-W`, year `Y`, `n - 1` observations |
| YearIndex.BuildIndex | assignments/week02/EDA.py:72-82 | the index exists iff every readable file's name parses; it has one entry per readable file, in walk order, each that file's parse; undecodable files are skipped |
| Coverage.StationYears | assignments/week02/EDA.py:104-110 | exactly the keys of the index; per key, `count` is the number of that key's entries, `max` and `min` are years of that key's entries, and every entry's year lies between them |
| Coverage.StationObs | assignments/week02/EDA.py:118-119 | exactly the keys of the index; per key, the sum of the observation counts of that key's entries |
| Coverage.StationObsSumsToTotal | assignments/week02/EDA.py:94 | the per-station observation sums, over all stations, add up to the total observation count of the index |
| Joins.IndexBy | assignments/week02/EDA.py:129 | indexing succeeds iff no key repeats; then every row's key maps to that row and no other key is present |
| Joins.JoinStats | assignments/week02/EDA.py:134 | the inner join keeps a key iff all three tables have it, with each table's attributes for it unchanged |
| Joins.SummarizeStations | assignments/week02/EDA.py:129-134 | defined iff the located stations have unique keys; then a key is present iff a located station and an index entry have it, and its row is that station with that key's year statistics and observation sum |
| Joins.JoinCategories | assignments/week02/EDA.py:195 | the inner join keeps a key iff both tables have it, with both rows unchanged |
| Joins.SelectStations | assignments/week02/EDA.py:190-195 | defined iff the selection keys are unique; then a key is present iff it is summarised and selected, and its row carries the category it was selected with |
| Decimal.ParseInt | assignments/week04/vizs.py:40-41 | `int()` succeeds iff the text, stripped of surrounding whitespace, is an optional sign followed by one or more digits; accepted text contains a digit |
| Decimal.ParseIntParts | assignments/week04/vizs.py:40-41 | `int()` of whitespace, an optional `+` or `-`, one or more digits and whitespace is the digits' value, negated under `-` |
| Decimal.ParseIntExample | assignments/week04/vizs.py:40-41 | `int(" -07\n")` is -7 |
| Decimal.ParseDigits | assignments/week04/vizs.py:40-41 | `int()` of a digit string is its decimal value |
| Decimal.ParseIntToString | assignments/week04/vizs.py:40-41 | `int(str(n)) == n` for every integer, negative ones included |
| Decimal.PadDecimalFixed | assignments/week04/vizs.py:42 | a number below 10^w pads to exactly w digits that write it |
| Decimal.RepadDigits | assignments/week04/vizs.py:42 | re-padding the value of a digit string to its own width gives the string back, leading zeros included |
| Text.PadLeft | assignments/week04/vizs.py:69 | the result has length `max(width, len)`, ends with the input, and only the fill character precedes it |
| Text.PadLeftIdempotent | assignments/week04/vizs.py:69 | padding an already padded field changes nothing |
| Text.SplitJoin | assignments/week02/EDA.py:77 | splitting parts that contain no separator, joined by it, gives the parts back |
| Text.RemoveAll | assignments/week02/EDA.py:77 | `replace('.op','')` never lengthens the name, and a name in which the pattern's first character does not occur comes back unchanged |
| Text.RemoveAllSuffix | assignments/week02/EDA.py:77 | removing `.op` from a dot-free stem followed by `.op` gives the stem |
| StationIds.GetId | assignments/week04/vizs.py:38-44 | a key exists iff both fields parse as integers; when they parse to `a` and `b`, the key is `a` padded to 6, `-`, and `b` padded to 5 |
| StationIds.GetIdFixedWidth | assignments/week04/vizs.py:38-44 | for a station number below 10^6 and a WBAN number below 10^5 the key has 12 characters, a `-` at position 6, and digit blocks that write the two numbers |
| StationIds.GetIdRestoresKey | assignments/week04/vizs.py:38-44 | for 6-digit and 5-digit identifiers the rebuilt key equals the catalogue key `usaf-wban`, also when the identifiers arrive as integers without leading zeros |
| StationIds.GetIdExample | assignments/week04/vizs.py:38-44 | station 725, WBAN 54 gives `000725-00054` |
| StationIds.StationCategory | assignments/week04/vizs.py:46-51 | a category exists iff the key can be built and the station was selected, and it is the category it was selected with |
| StationIds.CategoryOfStationRow | assignments/week04/vizs.py:46-51 | a row of a station's own file, with the identifiers as integers, gets that station's category, or none if it was not selected |
| Calendar.DaysInMonth | assignments/week04/vizs.py:57 | months have 28 to 31 days; February has 29 exactly in leap years; the others have at least 30 |
| Calendar.YearLength | assignments/week04/vizs.py:57 | the months add up to 366 days in a leap year and 365 otherwise |
| Calendar.GregorianLeapYears | assignments/week04/vizs.py:57 | the Gregorian rule, not the Julian one: 1900 and 2100 are not leap years and have a 28-day February; 2000 and 2016 are leap years with a 29-day February |
| ObsDates.DateFromRow | assignments/week04/vizs.py:52-59 | a date is produced iff the year, month and day parse and form a valid calendar date, and it is that date |
| ObsDates.MonthDayOfNumber | assignments/week04/vizs.py:55-56 | for a `monthday` read as an integer `MMDD`, the month is its hundreds and the day its last two digits |
| ObsDates.DateFromNumbers | assignments/week04/vizs.py:52-59 | with numeric fields, a date exists iff `(year, MMDD / 100, MMDD % 100)` is valid, and it is that date |
| ObsDates.DateRoundTrip | assignments/week04/vizs.py:52-59 | every valid date is read back from its year and its `MMDD` number |
| ObsDates.LeapDayExamples | assignments/week04/vizs.py:52-59 | February 29 gives a missing date in 2015 and a date in 2016, also from the unpadded `229` |
| WeatherFlags.PadFrshtt | assignments/week04/vizs.py:69 | the padded field has at least 6 characters, ends with the raw field, and has only `0`s before it |
| WeatherFlags.DecodeFlags | assignments/week04/vizs.py:69-75 | flag i is set iff the raw field, aligned to the right when shorter than six characters, has `1` at position i |
| WeatherFlags.DecodeEncode | assignments/week04/vizs.py:70-75 | decoding the six-character field written for a set of flags gives those flags back |
| WeatherFlags.DecodePadded | assignments/week04/vizs.py:69-75 | decoding the padded field gives the same flags as decoding the raw one |
| WeatherFlags.FlagExamples | assignments/week04/vizs.py:69-75 | `1` is only tornado; `010000` and `10000` are only rain |
| Observations.RecodeTemp | assignments/week04/vizs.py:82-84 | a reading is missing iff its token is `99.9`, and is otherwise the token unchanged |
| Observations.RecodeColumn | assignments/week04/vizs.py:82-84 | the column keeps its length, every cell except `99.9` unchanged, and no `99.9` reading is left |
| Observations.DecodeRow | assignments/week04/vizs.py:38-84 | no row is dropped. The key is `getId` of the row's station and WBAN fields and exists iff both parse. The category is `getStationByStnWban` of the same fields: it exists iff the key is that of a selected station, and it is that station's category. The date is `getDateTimeFromRow` of the row's year and `monthday`, and is valid when present. The FRSHTT field is the row's field padded to six and ending with it. Flag i is set iff the row's right-aligned field has `1` at position i. A `99.9` temperature is missing, no temperature stays `99.9`, and every other temperature is kept as it is |

## Left out

- Reading files: the directory walk, the line count and the CSV
  caches are left out. Each file becomes its name and an optional line
  count; an undecodable file has no line count and is skipped, and the
  message printed for it is not modelled. Writing and re-reading the
  caches is treated as the identity.
- The HTTP query to the classification service and the embedded map are
  left out. The service's answer is the `selections` argument of
  `Joins.SelectStations`.
- The map `scdfc` that `getStationByStnWban` reads is a parameter.
  `vizs.py` uses it without defining it.
- Floating point is left out: the scaling of latitude, longitude and
  elevation, `pd.to_numeric` and `FtoC`. The station record keeps the raw
  integer fields, and temperatures stay text.
- Plots, `describe()` and frequency tables are left out. They compute
  nothing the model uses.
- The observation-file reader of `assignments/week03/EDA 2.py` and its
  column layout are not part of this model.
- Stations.WithLocation: the station record holds latitude, longitude
  and elevation already converted, as optional integers. The source
  applies `float()` to each cell while loading the table, and a
  non-numeric cell raises a `ValueError` that aborts the load. The model
  has no such cell and does not model that failure.
- Stations.StationKey: the identifiers are modelled as text that is
  always present. The source reads the table with `dtype=object`, so an
  empty `usaf` or `wban` cell becomes NaN and is keyed as `nan-<wban>`.
  The model keys it `-<wban>`.
- StationIds.StationCategory: the `koppen` column that `getStationByStnWban`
  reads exists only in the selection table of `assignments/week03/EDA 2.py`.
  The selection table of `assignments/week02/EDA.py` (lines 181-195) has a
  `cat` column instead. There, `.koppen` would raise an `AttributeError`
  that the lookup does not catch, since it catches only `KeyError`. The
  model uses the week03 table, and `Joins.SelectStations` stands for the
  join that builds it.
- Decimal.ParseInt: covers surrounding spaces, tabs and line breaks, a
  sign, and ASCII digits. It leaves out the underscores, other Unicode
  whitespace and non-ASCII digits that Python's `int()` also accepts.
- ObsDates.DateFromRow: a year too large for `datetime` raises
  `OverflowError`, which the source does not catch. The model gives a
  missing date instead.
- YearIndex.BuildIndex: pandas pads a short row with missing values and
  fails on a long one. The model makes the whole index fail when a name
  does not give exactly three parts or its year is not an integer.
- `Coverage.StationYears`: the notebook introduces the statistics as "the
  total years recorded, max and min" (assignments/week02/EDA.py:100). The
  code computes `groupby(...).count()`, which is the number of index
  entries of a station, so two files of one station for the same year count
  twice. The model follows the code and does not promise distinct years.
- YearIndex.ParseOpFile: an empty file counts -1 observations. The
  source subtracts the header line unconditionally, and the model keeps
  that.
- Temperature columns are modelled as text, the form in which
  `replace('99.9', np.nan)` matches the code. A column that pandas had
  already read as floats would hold `99.9` as a number, which the string
  pattern does not match; that reading of the source is not modelled.
- The `print` in `getId`'s error path is left out; only the missing
  result is modelled.
