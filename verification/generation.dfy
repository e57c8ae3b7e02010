/**
 The generator (`MeteoGenerator`): it holds the current station list, draws
 stations and measurements, and builds the fixed list of non-conforming
 measurement entries.

 Random draws are inputs: a `StationDraw` or `MeasurementDraw` holds what one
 loop iteration of the generator takes from the random source and from the
 city-name service, and the `Is...Draw` predicates state the ranges those
 sources guarantee.
 */
module Generation {
  import opened Options
  import opened Decimal
  import opened Calendar
  import opened Records

  /** The generator's state: the current station list. */
  datatype Generator = Generator(stations: seq<Station>)

  /** A fresh generator holds no station. */
  const INITIAL := Generator([])

  /** How many stations the measurement generator draws when none exist yet. */
  const DEFAULT_STATION_COUNT := 5

  /** The station code used by the non-conforming entries when there is no station. */
  const FALLBACK_CODE := "1234567890"

  /** Measurement dates are drawn as day offsets from this date. */
  const FIRST_DAY := Date(2024, 1, 1)

  /** The largest day offset drawn. */
  const LAST_OFFSET := 365

  /** One station draw: a code number, a city for the name, and a city. */
  datatype StationDraw = StationDraw(number: int, nameCity: string, city: string)

  predicate IsStationDraw(d: StationDraw) {
    1000000000 <= d.number <= 9999999999
  }

  /**
   One measurement draw: a day offset, the index of the chosen station, the
   index of the chosen type in `KINDS`, precipitation, pollutant count and the
   readings (their number is the drawn reading count).
   */
  datatype MeasurementDraw = MeasurementDraw(
    dayOffset: int,
    stationIndex: int,
    kindIndex: int,
    precipitation: int,
    pollutants: int,
    temperatures: seq<int>)

  predicate IsMeasurementDraw(d: MeasurementDraw, stationCount: int) {
    && 0 <= d.dayOffset <= LAST_OFFSET
    && 0 <= d.stationIndex < stationCount
    && 0 <= d.kindIndex < |KINDS|
    && IsPrecipitation(d.precipitation)
    && IsPollutantCount(d.pollutants)
    && IsTemperatureList(d.temperatures)
  }

  /** Every station of `g` has a ten-digit code. */
  predicate WellFormed(g: Generator) {
    forall i :: 0 <= i < |g.stations| ==> IsStationCode(g.stations[i].code)
  }

  function MakeStation(d: StationDraw): (s: Station)
    requires IsStationDraw(d)
    ensures IsStationCode(s.code)
    ensures ParseNat(s.code) == Some(d.number)
    ensures s.name == "Station " + d.nameCity && s.city == d.city
  {
    TenDigits(d.number);
    NatRoundTrip(d.number);
    Station(NatToDecimal(d.number), "Station " + d.nameCity, d.city)
  }

  /**
   `generer_stations(count)`: the station list is replaced by `count` new
   stations (none when `count` is not positive), which are also returned.
   */
  function GenerateStations(g: Generator, count: int, draws: seq<StationDraw>): (out: (Generator, seq<Station>))
    requires count <= |draws|
    requires forall i :: 0 <= i < count ==> IsStationDraw(draws[i])
    ensures out.0.stations == out.1
    ensures |out.1| == if count < 0 then 0 else count
    ensures WellFormed(out.0)
    ensures forall i :: 0 <= i < |out.1| ==>
      && ParseNat(out.1[i].code) == Some(draws[i].number)
      && out.1[i].name == "Station " + draws[i].nameCity
      && out.1[i].city == draws[i].city
  {
    var n := if count < 0 then 0 else count;
    var stations := seq(n, i requires 0 <= i < n => MakeStation(draws[i]));
    (Generator(stations), stations)
  }

  /** The station list is replaced, never added to: the previous stations play no part. */
  lemma StationsReplaced(g1: Generator, g2: Generator, count: int, draws: seq<StationDraw>)
    requires count <= |draws|
    requires forall i :: 0 <= i < count ==> IsStationDraw(draws[i])
    ensures GenerateStations(g1, count, draws) == GenerateStations(g2, count, draws)
  {
  }

  /** `date_debut + timedelta(days=offset)` written with `strftime('%Y-%m-%d')`. */
  function MeasurementDate(offset: int): (s: string)
    requires 0 <= offset <= LAST_OFFSET
    ensures IsMeasurementDate(s)
    ensures DayOfYear(ParseDate(s).value) == offset + 1
  {
    var d := AddDays(FIRST_DAY, offset);
    AddDaysWithinYear(FIRST_DAY, offset);
    DateRoundTrip(d);
    FormatDate(d)
  }

  /** Every day of 2024 is the date of exactly one offset, and only 2024 days occur. */
  lemma {:induction false} MeasurementDatesCoverYear(d: Date)
    requires ValidDate(d) && d.year == MEASUREMENT_YEAR
    ensures 0 <= DayOfYear(d) - 1 <= LAST_OFFSET
    ensures MeasurementDate(DayOfYear(d) - 1) == FormatDate(d)
    ensures forall k :: 0 <= k <= LAST_OFFSET && MeasurementDate(k) == FormatDate(d) ==> k == DayOfYear(d) - 1
  {
    var k := DayOfYear(d) - 1;
    AddDaysWithinYear(FIRST_DAY, k);
    DayOfYearInjective(AddDays(FIRST_DAY, k), d);
    DateRoundTrip(d);
  }

  /** The largest offset lands on the last day of the leap year 2024. */
  lemma LastOffsetIsNewYearsEve()
    ensures ParseDate(MeasurementDate(LAST_OFFSET)) == Some(Date(2024, 12, 31))
  {
    var d := ParseDate(MeasurementDate(LAST_OFFSET)).value;
    var eve := Date(2024, 12, 31);
    MonthFitsInYear(2024, 12);
    DayOfYearInjective(d, eve);
  }

  /** One iteration of the measurement loop. */
  function MakeMeasurement(stations: seq<Station>, d: MeasurementDraw): (m: Measurement)
    requires IsMeasurementDraw(d, |stations|)
    ensures ValuesConform(m)
    ensures m.code == stations[d.stationIndex].code
    ensures DayOfYear(ParseDate(m.date).value) == d.dayOffset + 1
    ensures m.kind == KINDS[d.kindIndex]
    ensures m.precipitation == d.precipitation && m.pollutants == d.pollutants
    ensures m.temperatures == d.temperatures
  {
    Measurement(
      MeasurementDate(d.dayOffset),
      stations[d.stationIndex].code,
      KINDS[d.kindIndex],
      d.precipitation,
      d.pollutants,
      d.temperatures)
  }

  /** The number of stations measurements are drawn from. */
  function StationCountFor(g: Generator): nat {
    if g.stations == [] then DEFAULT_STATION_COUNT else |g.stations|
  }

  /** The measurement loop over a fixed station list. */
  function DrawMeasurements(stations: seq<Station>, count: int, draws: seq<MeasurementDraw>): (ms: seq<Measurement>)
    requires count <= |draws|
    requires forall i :: 0 <= i < count ==> IsMeasurementDraw(draws[i], |stations|)
    ensures |ms| == if count < 0 then 0 else count
    ensures forall i :: 0 <= i < |ms| ==> ms[i] == MakeMeasurement(stations, draws[i])
    ensures forall i :: 0 <= i < |ms| ==> References(ms[i], stations)
  {
    var n := if count < 0 then 0 else count;
    var ms := seq(n, i requires 0 <= i < n => MakeMeasurement(stations, draws[i]));
    assert forall i :: 0 <= i < n ==> References(ms[i], stations) by {
      forall i | 0 <= i < n
        ensures References(ms[i], stations)
      {
        assert IsMeasurementDraw(draws[i], |stations|);
        assert stations[draws[i].stationIndex].code == ms[i].code;
      }
    }
    ms
  }

  /**
   `generer_temperatures(count)`: when the station list is empty it is first
   filled with `DEFAULT_STATION_COUNT` stations drawn from `defaults`; then
   `count` measurements are drawn, each referring to one of the stations.
   */
  function GenerateMeasurements(g: Generator, count: int, defaults: seq<StationDraw>, draws: seq<MeasurementDraw>)
    : (out: (Generator, seq<Measurement>))
    requires g.stations == [] ==> DEFAULT_STATION_COUNT <= |defaults|
    requires g.stations == [] ==> forall i :: 0 <= i < DEFAULT_STATION_COUNT ==> IsStationDraw(defaults[i])
    requires count <= |draws|
    requires forall i :: 0 <= i < count ==> IsMeasurementDraw(draws[i], StationCountFor(g))
    ensures g.stations != [] ==> out.0 == g
    ensures g.stations == [] ==> WellFormed(out.0)
    ensures |out.0.stations| == StationCountFor(g)
    ensures |out.1| == if count < 0 then 0 else count
    ensures forall i :: 0 <= i < |out.1| ==>
      && References(out.1[i], out.0.stations)
      && ValuesConform(out.1[i])
      && DayOfYear(ParseDate(out.1[i].date).value) == draws[i].dayOffset + 1
  {
    var g' := if g.stations == [] then GenerateStations(g, DEFAULT_STATION_COUNT, defaults).0 else g;
    assert |g'.stations| == StationCountFor(g);
    assert forall i :: 0 <= i < count ==> IsMeasurementDraw(draws[i], |g'.stations|);
    (g', DrawMeasurements(g'.stations, count, draws))
  }

  /** A measurement that refers to a station of a well-formed generator conforms in full. */
  lemma GeneratedMeasurementsConform(g: Generator, count: int, defaults: seq<StationDraw>, draws: seq<MeasurementDraw>)
    requires g.stations == [] ==> DEFAULT_STATION_COUNT <= |defaults|
    requires g.stations == [] ==> forall i :: 0 <= i < DEFAULT_STATION_COUNT ==> IsStationDraw(defaults[i])
    requires count <= |draws|
    requires forall i :: 0 <= i < count ==> IsMeasurementDraw(draws[i], StationCountFor(g))
    requires WellFormed(g)
    ensures WellFormed(GenerateMeasurements(g, count, defaults, draws).0)
    ensures forall m :: m in GenerateMeasurements(g, count, defaults, draws).1 ==> Conforms(m)
  {
    var out := GenerateMeasurements(g, count, defaults, draws);
    forall m | m in out.1
      ensures Conforms(m)
    {
      var i :| 0 <= i < |out.1| && out.1[i] == m;
      var j :| 0 <= j < |out.0.stations| && out.0.stations[j].code == m.code;
    }
  }

  /** The implicit default-station step is the same as generating five stations first. */
  lemma DefaultStationsFirst(g: Generator, count: int, defaults: seq<StationDraw>, draws: seq<MeasurementDraw>)
    requires g.stations == []
    requires DEFAULT_STATION_COUNT <= |defaults|
    requires forall i :: 0 <= i < DEFAULT_STATION_COUNT ==> IsStationDraw(defaults[i])
    requires count <= |draws|
    requires forall i :: 0 <= i < count ==> IsMeasurementDraw(draws[i], DEFAULT_STATION_COUNT)
    ensures GenerateMeasurements(g, count, defaults, draws)
         == GenerateMeasurements(GenerateStations(g, DEFAULT_STATION_COUNT, defaults).0, count, [], draws)
  {
  }

  /** The station code the non-conforming entries refer to. */
  function ReferenceCode(g: Generator): (code: string)
    ensures g.stations == [] ==> code == FALLBACK_CODE
    ensures WellFormed(g) ==> IsStationCode(code)
  {
    assert IsStationCode(FALLBACK_CODE);
    if g.stations != [] then g.stations[0].code else FALLBACK_CODE
  }

  /** The sentinel field of the k-th non-conforming entry. */
  const TAIL_SENTINEL_ORDER: seq<string> :=
    [FIELD_CODE, FIELD_DATE, FIELD_KIND, FIELD_PRECIPITATION, FIELD_POLLUTANTS, FIELD_TEMPERATURE]

  /**
   `generer_donnees_non_conformes`: six fixed entries, the k-th with the
   field `TAIL_SENTINEL_ORDER[k]` replaced by the sentinel; rows 2 to 6 refer
   to the first station, or to `FALLBACK_CODE` when there is none. Values in
   tenths.
   */
  function NonConformingEntries(g: Generator): (r: seq<Entry>)
    ensures |r| == |TAIL_SENTINEL_ORDER|
    ensures r[0].code.Sentinel?
    ensures forall k :: 1 <= k < |r| ==>
      r[k].code == Given(if g.stations == [] then FALLBACK_CODE else g.stations[0].code)
  {
    var ref := ReferenceCode(g);
    [ Entry(Given("2024-06-15"), Sentinel, Given('P'), Given(253), Given(3), Given([125, 182])),
      Entry(Sentinel, Given(ref), Given('S'), Given(187), Given(5), Given([221, 158, 193])),
      Entry(Given("2024-08-20"), Given(ref), Sentinel, Given(312), Given(2), Given([284, 267])),
      Entry(Given("2024-09-10"), Given(ref), Given('p'), Sentinel, Given(7), Given([169, 212, 185])),
      Entry(Given("2024-11-05"), Given(ref), Given('S'), Given(428), Sentinel, Given([83, 121])),
      Entry(Given("2024-12-01"), Given(ref), Given('P'), Given(156), Given(4), Sentinel) ]
  }

  /**
   Each non-conforming entry holds the sentinel in exactly one field, in the
   order codeStation, dateMesure, typeStation, precipitation, nbrPolluants,
   temperature; so only the sixth has no temperature list.
   */
  lemma NonConformingSentinels(g: Generator)
    ensures forall k :: 0 <= k < 6 ==> SentinelFields(NonConformingEntries(g)[k]) == [TAIL_SENTINEL_ORDER[k]]
    ensures forall k :: 0 <= k < 6 ==> (NonConformingEntries(g)[k].temperatures.Sentinel? <==> k == 5)
  {
    var r := NonConformingEntries(g);
    assert SentinelFields(r[0]) == [FIELD_CODE];
    assert SentinelFields(r[1]) == [FIELD_DATE];
    assert SentinelFields(r[2]) == [FIELD_KIND];
    assert SentinelFields(r[3]) == [FIELD_PRECIPITATION];
    assert SentinelFields(r[4]) == [FIELD_POLLUTANTS];
    assert SentinelFields(r[5]) == [FIELD_TEMPERATURE];
  }

  /** Every field of a non-conforming entry other than its sentinel is well formed. */
  lemma NonConformingValuesConform(g: Generator)
    requires g.stations == [] || IsStationCode(g.stations[0].code)
    ensures forall k :: 0 <= k < 6 ==> EntryConforms(NonConformingEntries(g)[k])
  {
    assert IsStationCode(ReferenceCode(g)) by {
      assert IsStationCode(FALLBACK_CODE);
    }
    forall k | 0 <= k < 6
      ensures EntryConforms(NonConformingEntries(g)[k])
    {
      if k == 0 {
        FixtureConforms0(g);
      } else if k == 1 {
        FixtureConforms1(g);
      } else if k == 2 {
        FixtureConforms2(g);
      } else if k == 3 {
        FixtureConforms3(g);
      } else if k == 4 {
        FixtureConforms4(g);
      } else {
        FixtureConforms5(g);
      }
    }
  }

  lemma FixtureConforms0(g: Generator)
    requires IsStationCode(ReferenceCode(g))
    ensures EntryConforms(NonConformingEntries(g)[0])
  {
    DateLiteral(6, 15, "2024-06-15");
    assert IsKind('P');
  }

  lemma FixtureConforms1(g: Generator)
    requires IsStationCode(ReferenceCode(g))
    ensures EntryConforms(NonConformingEntries(g)[1])
  {
    assert IsKind('S');
  }

  lemma FixtureConforms2(g: Generator)
    requires IsStationCode(ReferenceCode(g))
    ensures EntryConforms(NonConformingEntries(g)[2])
  {
    DateLiteral(8, 20, "2024-08-20");
  }

  lemma FixtureConforms3(g: Generator)
    requires IsStationCode(ReferenceCode(g))
    ensures EntryConforms(NonConformingEntries(g)[3])
  {
    DateLiteral(9, 10, "2024-09-10");
    assert IsKind('p');
  }

  lemma FixtureConforms4(g: Generator)
    requires IsStationCode(ReferenceCode(g))
    ensures EntryConforms(NonConformingEntries(g)[4])
  {
    DateLiteral(11, 5, "2024-11-05");
    assert IsKind('S');
  }

  lemma FixtureConforms5(g: Generator)
    requires IsStationCode(ReferenceCode(g))
    ensures EntryConforms(NonConformingEntries(g)[5])
  {
    DateLiteral(12, 1, "2024-12-01");
    assert IsKind('P');
  }

  /** `FormatDate` for a date of 2024, digit by digit. */
  lemma DateText2024(m: int, d: int)
    requires 1 <= m <= 12 && 1 <= d <= 31
    ensures FormatDate(Date(2024, m, d))
         == "2024-" + [DigitChar(m / 10), DigitChar(m % 10)] + "-" + [DigitChar(d / 10), DigitChar(d % 10)]
  {
    assert NatToDecimal(2024) == "2024";
    TwoDigitText(m);
    TwoDigitText(d);
  }

  lemma TwoDigitText(n: nat)
    requires n < 100
    ensures ZeroPad(n, 2) == [DigitChar(n / 10), DigitChar(n % 10)]
  {
    if n < 10 {
      assert DigitChar(0) == '0';
    } else {
      assert NatToDecimal(n) == NatToDecimal(n / 10) + [DigitChar(n % 10)];
    }
  }

  lemma DateLiteral(m: int, d: int, s: string)
    requires ValidDate(Date(2024, m, d))
    requires s == "2024-" + [DigitChar(m / 10), DigitChar(m % 10)] + "-" + [DigitChar(d / 10), DigitChar(d % 10)]
    ensures IsMeasurementDate(s)
  {
    DateText2024(m, d);
    DateRoundTrip(Date(2024, m, d));
  }
}
