# meteo-gen in Dafny

This project models `MeteoGenerator`, the weather-data generator of meteo-gen, and proves properties of the model. The generator does four things:

- It draws a list of weather stations. Each station has a ten-digit code, a name and a city. The generator's station list is replaced by the new one.
- It draws measurements for the year 2024. Each measurement refers to one of the stations and carries 1 to 4 temperature readings, as `randint(1, 4)` draws them.
- It builds six hand-written non-conforming measurements. Each one has the sentinel `"?"` in exactly one column.
- It exports stations and measurements as CSV rows. The station export holds the stations only. The measurement export ends with the six non-conforming rows, and their exact text is stated.

The modules follow the program's structure:

- `Options` holds the `Option` type.
- `Decimal` holds Python's `str` of integers and of one-decimal floats, each with a parser.
- `Text` holds `sep.join` and `str.split`.
- `Calendar` holds Gregorian dates, `timedelta` day steps and the ISO 8601 extended calendar-date format `YYYY-MM-DD` (section 4.1.2.2 of ISO 8601:2004).
- `Records` holds stations, measurements, and entries whose fields may hold the sentinel.
- `Generation` holds the generator's state and its `generer_*` operations.
- `Export` holds the two CSV exports and a decoder for each.
- `ExportTail` states the literal text of the six non-conforming rows.

Precipitation and temperatures are floats rounded to one decimal place. The model keeps them as whole numbers of tenths: `25.3` is `253`. `Decimal.FormatTenths` writes such a value the way `str(round(x, 1))` prints it, with one exception within the drawn ranges: a temperature that rounds to negative zero, which Python prints as `-0.0`, is written `0.0`. Values of 1e16 or more, which Python prints in exponent notation, are also written in plain digits; none is drawn.

The random source and the city-name service are not modelled. Their values are inputs:

- A `StationDraw` holds what one iteration of the station loop draws.
- A `MeasurementDraw` holds what one iteration of the measurement loop draws.
- `IsStationDraw` and `IsMeasurementDraw` state the ranges the random library guarantees, such as `randint(1000000000, 9999999999)` for a code and `randint(0, 365)` for a day offset. The operations require them.

An export is modelled as the list of rows handed to `csv.DictWriter`. A row is the list of its field texts in column order.

## Model

| member | source | states |
|---|---|---|
| Generation.GenerateStations | meteo_generator.py:19-29 | The station list is replaced by exactly `count` new stations, none for a non-positive count, and the same list is returned. Every code is ten decimal digits and reads back as the drawn number. Every name is `"Station "` followed by the drawn city, and every city is the drawn city. |
| Generation.StationsReplaced | meteo_generator.py:21 | The stations before the call play no part in the result: the list is replaced, never added to. |
| Generation.MakeStation | meteo_generator.py:23-27 | A drawn code number in [1000000000, 9999999999] prints as exactly ten digits and parses back to that number. |
| Generation.MeasurementDate | meteo_generator.py:37-42 | Day offset `k` in 0..365 added to 2024-01-01 gives a valid 2024 date whose ordinal day is `k + 1`, written `YYYY-MM-DD`. |
| Generation.MeasurementDatesCoverYear | meteo_generator.py:37-42 | Each day of 2024 is the date of exactly one offset in 0..365. |
| Generation.LastOffsetIsNewYearsEve | meteo_generator.py:41-42 | Offset 365 gives 2024-12-31, because 2024 is a leap year. |
| Generation.MakeMeasurement | meteo_generator.py:39-70 | One loop iteration refers to the drawn station's code. It takes one of the types P, S, p, s and keeps the drawn precipitation, pollutant count and readings. All these values lie in their ranges. |
| Generation.DrawMeasurements | meteo_generator.py:39-72 | The loop makes exactly `count` measurements in draw order, and each refers to a station of the list. |
| Generation.GenerateMeasurements | meteo_generator.py:31-72 | An empty station list is first filled with 5 stations, and a non-empty one is left unchanged. Then exactly `count` measurements are made. Each refers to a station, has a 2024 date at the drawn offset, and has its other values in range. |
| Generation.GeneratedMeasurementsConform | meteo_generator.py:31-72 | When all existing codes have ten digits, every generated measurement conforms in every field, its station code included. |
| Generation.DefaultStationsFirst | meteo_generator.py:33-34 | Generating measurements on an empty list is the same as generating 5 stations first. |
| Generation.NonConformingEntries | meteo_generator.py:86-153 | There are six entries. The first has the sentinel as its station code. The other five carry the first station's code, or `1234567890` when there is no station. |
| Generation.NonConformingSentinels | meteo_generator.py:93-151 | Entry `k` has the sentinel in exactly one field, in the order codeStation, dateMesure, typeStation, precipitation, nbrPolluants, temperature. Only the sixth entry has no temperature list. |
| Generation.NonConformingValuesConform | meteo_generator.py:90-151 | Every field of an entry other than its sentinel is well formed: a 2024 date, a ten-digit reference code, a known type, and precipitation, pollutant count and readings in range. |
| Export.FormatReadings | meteo_generator.py:166 | `map(str, temperatures)` gives one text per reading. Each text parses back to its reading and contains neither `;` nor the sentinel. |
| Export.FlattenTemperatures | meteo_generator.py:166 | The temperature field is empty exactly when there is no reading. Export.FlattenSplits and Export.FlattenRoundTrip carry its meaning. |
| Export.FlattenSplits | meteo_generator.py:166 | Splitting the field of a non-empty list on `;` gives the formatted readings in order, one piece per reading. |
| Export.FlattenRoundTrip | meteo_generator.py:166 | Every reading list, the empty one included, is read back from its field. |
| Export.TemperatureRulesAgree | meteo_generator.py:174-175 | The join rule for non-conforming entries and the rule for generated measurements write the same text for every list. |
| Export.TemperatureCellRoundTrip | meteo_generator.py:174-177 | A list is joined and the sentinel passes through as `?`. Both read back as what was written. |
| Export.MeasurementRowIsEntryRow | meteo_generator.py:163-178 | A generated measurement is written exactly like a non-conforming entry that has no sentinel. |
| Export.EntryRowRoundTrip | meteo_generator.py:171-178 | A row of an entry whose values cannot be mistaken for `?` decodes back to the entry. |
| Export.EntryRowSentinels | meteo_generator.py:171-178 | The row holds `?` in exactly the columns of the entry's sentinel fields. |
| Export.ConformingIsUnambiguous | meteo_generator.py:95-150 | No well-formed value is written as `?`. |
| Export.ExportMeasurements | meteo_generator.py:155-178 | The export is the header in column order, then one row per measurement in input order, then the six non-conforming rows: `1 + len(mesures) + 6` rows. |
| Export.ExportMeasurementsReadsBack | meteo_generator.py:155-178 | The measurement rows decode back to the measurements, in order and without `?`. Tail row `k` decodes to entry `k` and holds `?` only in column `k` of the sentinel order. |
| Export.GeneratedExportReadsBack | meteo_generator.py:31-178 | After measurements are generated, the station export is present with one row per station. The measurement export decodes back to the generated measurements followed by the six entries. |
| Export.ExportStations | meteo_generator.py:74-84 | An empty station list writes nothing. Otherwise the header `codeStation, nomStation, villeStation` comes first, then one row per station in order. Each row is `[code, name, city]` (Export.StationRow) and decodes back to its station. |
| Records.LiftHasNoSentinel | meteo_generator.py:163-167 | A generated measurement, seen as an entry, has no sentinel field, so its export row holds no `?` column. |
| Export.StationRow | meteo_generator.py:83-84 | A station is written as three fields in header order, `codeStation, nomStation, villeStation`, and reads back as that station. |
| Decimal.NatRoundTrip | meteo_generator.py:24 | `str` of a natural number reads back as that number. |
| Decimal.TenDigits | meteo_generator.py:24 | Every integer of [1000000000, 9999999999] prints as exactly ten digits. |
| Decimal.IntRoundTrip | meteo_generator.py:50 | `str` of an integer, written into the pollutant column, reads back as that integer. |
| Decimal.TenthsRoundTrip | meteo_generator.py:166 | `str(round(x, 1))` for a value in tenths reads back as that value. |
| Decimal.FormatTenthsExamples | meteo_generator.py:98 | 25.3, 0.5, -40.0 and 100.0 print as Python prints them. |
| Decimal.ZeroPadRoundTrip | meteo_generator.py:63 | A zero-padded field of `%Y`, `%m` or `%d` has exactly its width and reads back as its number. |
| Text.SplitJoin | meteo_generator.py:166 | Splitting a `;`-joined list whose parts contain no `;` gives the list back. |
| Text.JoinSplit | meteo_generator.py:166 | Joining the pieces of a split gives the original text back. |
| Calendar.NextDay | meteo_generator.py:42 | The day after a valid date is valid. It advances the ordinal day by one within a year, and after the last day of a year it gives January 1 of the next year. |
| Calendar.AddDaysWithinYear | meteo_generator.py:42 | Adding `n` days that stay inside the year moves the ordinal day forward by exactly `n`. |
| Calendar.DayOfYearInjective | meteo_generator.py:42 | Two valid dates of one year with the same ordinal day are the same date. |
| Calendar.DateRoundTrip | meteo_generator.py:63 | Every valid date up to year 9999 reads back from its `YYYY-MM-DD` text. |
| Decimal.NatToDecimal | meteo_generator.py:24 | `str(n)` of a natural number is canonical: one or more digits with no leading zero unless the text is `0`. Decimal.CanonicalIsDecimal carries the converse. |
| Decimal.CanonicalIsDecimal | meteo_generator.py:24 | Every canonical digit string is `str` of its own value, so `str` is the only writer of canonical text. |
| Decimal.IntToDecimal | meteo_generator.py:50 | `str(i)` starts with `-` exactly for a negative integer, and is canonical for every other. Decimal.IntRoundTrip carries the read-back. |
| Decimal.FormatTenths | meteo_generator.py:166 | The text ends with a point and one digit and starts with `-` exactly for a negative value. Decimal.TenthsRoundTrip and Decimal.TenthsTextIsFormat carry its meaning. |
| Decimal.FormatTenthsIsTenthsText | meteo_generator.py:166 | Every written value has the shape Python prints for every value other than negative zero: an optional `-`, a canonical whole part, a point and one digit. The model writes no `-0.0`. |
| Decimal.TenthsTextIsFormat | meteo_generator.py:166 | Every text of that shape is the writing of the value it parses to. Together with the previous row, the writer is pinned: a zero-padded writer would differ. |
| Text.Join | meteo_generator.py:166 | A single part is written alone, and the first part is a prefix of the joined text. Text.SplitJoin carries the meaning. |
| Text.Split | meteo_generator.py:166 | Splitting gives at least one piece and no piece holds the separator. Text.JoinSplit carries the inverse. |
| Calendar.AddDays | meteo_generator.py:42 | Adding days to a valid date gives a valid date in the same year or a later one. Calendar.AddDaysWithinYear carries the exact ordinal. |
| Calendar.FormatDate | meteo_generator.py:63 | Up to year 9999 the text is ten characters with `-` at positions 4 and 7, and its three fields read back as year, month and day. |
| Generation.ReferenceCode | meteo_generator.py:91 | With no station the reference code is `1234567890`. When all station codes have ten digits, so has the reference code. |
| Export.MeasurementRow | meteo_generator.py:163-167 | The row has the six columns. Precipitation, pollutant count and temperature field read back as the measurement's values, none is `?`, and the temperature field is empty exactly when there is no reading. |
| Export.TemperatureCellText | meteo_generator.py:174-177 | The field is `?` exactly for the sentinel. A list is written empty exactly when it has no reading. |
| Export.EntryRow | meteo_generator.py:171-178 | The row has the six columns, and each sentinel field is written `?`. In the precipitation, pollutant and temperature columns `?` appears exactly for the sentinel. |
| ExportTail.NonConformingRowTexts | meteo_generator.py:93-151 | Each of the six non-conforming entries is written as its literal row, such as `2024-06-15, ?, P, 25.3, 3, 12.5;18.2`, with the reference station's code in the station column. |
| ExportTail.ExportTailText | meteo_generator.py:169-178 | The last six rows of the measurement export are exactly those literal rows, in order. |

## Left out

- The random source (Mersenne Twister, `seed=42`, reproducibility): draws are inputs, and the `Is...Draw` predicates state the ranges `random.randint`, `random.choice` and `random.uniform` promise.
- `random.uniform` and `round(x, 1)`: values are kept in tenths, so the sampling and the float rounding are not modelled.
- Decimal.FormatTenths: a temperature drawn in (-0.05, 0) by `round(random.uniform(-40, 100), 1)` (meteo_generator.py:59) rounds to `-0.0`, and the program writes `-0.0` where the model writes `0.0`. A value in tenths has no negative zero. Precipitation is drawn from [0, 50], so it never rounds to `-0.0`.
- Decimal.FormatTenths: values of 1e16 or more, which Python prints in exponent notation, are not treated specially; none comes from the drawn ranges.
- Faker's `fake.city()`: the city names are inputs of a `StationDraw`.
- File handling, UTF-8 encoding, CSV quoting and line endings: an export is its list of rows.
- `main.py`: console printing and orchestration only.
- The default counts `nombre=10` and `nombre_mesures=100` (meteo_generator.py:19, 31): every call passes its count explicitly.
- Generation.GenerateStations: Python returns the generator's own list object (meteo_generator.py:29), so a later change to one shows in the other. The value model returns an equal list and keeps no alias.
- The comment "0 à 4" at meteo_generator.py:52 is stale: the code draws `randint(1, 4)` readings, and the model follows the code.
- Calendar.AddDays: a date past year 9999 does not raise `OverflowError` as `datetime` does; offsets here stay in 2024.
- Calendar.FormatDate: years below 1000 are padded to four digits; only 2024 occurs.
- The station file: the early `return` that opens no file is `None`, and otherwise the returned rows stand for the file.
- Reading files back: the generator reads nothing, and the decoders of `Export` exist only to state the round trips.
