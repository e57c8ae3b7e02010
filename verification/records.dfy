/**
 The records the generator produces and writes out: weather stations,
 measurements, and the hand-written non-conforming measurement entries in
 which one field holds the sentinel `"?"` instead of a value.
 */
module Records {
  import opened Decimal
  import opened Calendar

  /** A weather station (`codeStation`, `nomStation`, `villeStation`). */
  datatype Station = Station(code: string, name: string, city: string)

  /**
   A measurement (`dateMesure`, `codeStation`, `typeStation`, `precipitation`,
   `nbrPolluants`, `temperature`). The date is kept as the `YYYY-MM-DD` text
   the generator stores; precipitation and temperatures are in tenths.
   */
  datatype Measurement = Measurement(
    date: string,
    code: string,
    kind: char,
    precipitation: int,
    pollutants: int,
    temperatures: seq<int>)

  /** A field of a non-conforming entry: a real value or the sentinel `"?"`. */
  datatype Cell<T> = Given(value: T) | Sentinel

  /** A measurement in which any field may be replaced by the sentinel. */
  datatype Entry = Entry(
    date: Cell<string>,
    code: Cell<string>,
    kind: Cell<char>,
    precipitation: Cell<int>,
    pollutants: Cell<int>,
    temperatures: Cell<seq<int>>)

  const FIELD_DATE := "dateMesure"
  const FIELD_CODE := "codeStation"
  const FIELD_KIND := "typeStation"
  const FIELD_PRECIPITATION := "precipitation"
  const FIELD_POLLUTANTS := "nbrPolluants"
  const FIELD_TEMPERATURE := "temperature"

  /** The measurement columns, in the order they are written. */
  const MEASUREMENT_FIELDS: seq<string> :=
    [FIELD_DATE, FIELD_CODE, FIELD_KIND, FIELD_PRECIPITATION, FIELD_POLLUTANTS, FIELD_TEMPERATURE]

  /** The station types the generator draws from; case carries no meaning downstream. */
  const KINDS: seq<char> := ['P', 'S', 'p', 's']

  /** The one year every measurement date falls in. */
  const MEASUREMENT_YEAR := 2024

  predicate IsStationCode(s: string) {
    |s| == 10 && IsDigits(s)
  }

  predicate IsMeasurementDate(s: string) {
    var d := ParseDate(s);
    d.Some? && d.value.year == MEASUREMENT_YEAR
  }

  predicate IsKind(c: char) {
    c in KINDS
  }

  /** 0.0 to 50.0 mm. */
  predicate IsPrecipitation(t: int) {
    0 <= t <= 500
  }

  predicate IsPollutantCount(n: int) {
    0 <= n <= 10
  }

  /** -40.0 to 100.0 degrees Fahrenheit. */
  predicate IsTemperature(t: int) {
    -400 <= t <= 1000
  }

  /** One to four readings, each in range. */
  predicate IsTemperatureList(ts: seq<int>) {
    1 <= |ts| <= 4 && forall i :: 0 <= i < |ts| ==> IsTemperature(ts[i])
  }

  /** Every field of `m` except the station reference is well formed. */
  predicate ValuesConform(m: Measurement) {
    && IsMeasurementDate(m.date)
    && IsKind(m.kind)
    && IsPrecipitation(m.precipitation)
    && IsPollutantCount(m.pollutants)
    && IsTemperatureList(m.temperatures)
  }

  predicate Conforms(m: Measurement) {
    IsStationCode(m.code) && ValuesConform(m)
  }

  /** `m` names the code of one of `stations`. */
  predicate References(m: Measurement, stations: seq<Station>) {
    exists j :: 0 <= j < |stations| && stations[j].code == m.code
  }

  /** Every field of `e` that is not the sentinel is well formed. */
  predicate EntryConforms(e: Entry) {
    && (e.date.Given? ==> IsMeasurementDate(e.date.value))
    && (e.code.Given? ==> IsStationCode(e.code.value))
    && (e.kind.Given? ==> IsKind(e.kind.value))
    && (e.precipitation.Given? ==> IsPrecipitation(e.precipitation.value))
    && (e.pollutants.Given? ==> IsPollutantCount(e.pollutants.value))
    && (e.temperatures.Given? ==> IsTemperatureList(e.temperatures.value))
  }

  /** A measurement seen as an entry without any sentinel. */
  function Lift(m: Measurement): (e: Entry)
    ensures Conforms(m) ==> EntryConforms(e)
  {
    Entry(Given(m.date), Given(m.code), Given(m.kind), Given(m.precipitation),
          Given(m.pollutants), Given(m.temperatures))
  }

  function SentinelNameIf(degraded: bool, name: string): seq<string> {
    if degraded then [name] else []
  }

  /** The names of the fields of `e` that hold the sentinel, in column order. */
  function SentinelFields(e: Entry): seq<string> {
    SentinelNameIf(e.date.Sentinel?, FIELD_DATE)
    + SentinelNameIf(e.code.Sentinel?, FIELD_CODE)
    + SentinelNameIf(e.kind.Sentinel?, FIELD_KIND)
    + SentinelNameIf(e.precipitation.Sentinel?, FIELD_PRECIPITATION)
    + SentinelNameIf(e.pollutants.Sentinel?, FIELD_POLLUTANTS)
    + SentinelNameIf(e.temperatures.Sentinel?, FIELD_TEMPERATURE)
  }

  /** A generated measurement, seen as an entry, has no sentinel field. */
  lemma LiftHasNoSentinel(m: Measurement)
    ensures SentinelFields(Lift(m)) == []
  {
  }
}
