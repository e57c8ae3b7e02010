/**
 The two exports: the station list and the measurement list as rows of text
 fields, header first, the way `csv.DictWriter` receives them. Quoting, line
 endings and the file itself are not modelled; a row is the list of its
 field texts in column order.

 Every writer has a decoder, and the lemmas show that decoding the exported
 rows gives back exactly the records that were written.
 */
module Export {
  import opened Options
  import opened Decimal
  import opened Text
  import opened Records
  import opened Generation

  type Row = seq<string>

  /** The text written for a field that holds the sentinel. */
  const SENTINEL_TEXT := "?"

  /** Temperature readings are joined with this separator. */
  const TEMPERATURE_SEPARATOR := ';'

  const STATION_HEADER: Row := ["codeStation", "nomStation", "villeStation"]

  const MEASUREMENT_HEADER: Row := MEASUREMENT_FIELDS

  /** `map(str, temperatures)`. */
  function FormatReadings(ts: seq<int>): (parts: seq<string>)
    ensures |parts| == |ts|
    ensures forall i :: 0 <= i < |parts| ==> ParseTenths(parts[i]) == Some(ts[i])
    ensures forall i :: 0 <= i < |parts| ==> TEMPERATURE_SEPARATOR !in parts[i] && parts[i] != SENTINEL_TEXT
  {
    forall t | t in ts
      ensures ParseTenths(FormatTenths(t)) == Some(t)
    {
      TenthsRoundTrip(t);
    }
    seq(|ts|, i requires 0 <= i < |ts| => FormatTenths(ts[i]))
  }

  /** The temperature field of a generated measurement: readings joined with `;`, or `''` when there are none. */
  function FlattenTemperatures(ts: seq<int>): (s: string)
    ensures s == "" <==> |ts| == 0
  {
    if |ts| > 0 then
      Join(FormatReadings(ts), TEMPERATURE_SEPARATOR)
    else ""
  }

  /** The temperature field of a non-conforming entry: a list is joined, the sentinel is written as is. */
  function TemperatureCellText(c: Cell<seq<int>>): (s: string)
    ensures s == SENTINEL_TEXT <==> c.Sentinel?
    ensures c.Given? ==> (s == "" <==> |c.value| == 0)
  {
    match c
    case Given(ts) =>
      if 0 < |ts| then
        assert 3 <= |FormatReadings(ts)[0]|;
        Join(FormatReadings(ts), TEMPERATURE_SEPARATOR)
      else ""
    case Sentinel => SENTINEL_TEXT
  }

  /** The text of a field of a non-conforming entry. */
  function CellText<T>(c: Cell<T>, render: T -> string): string {
    match c
    case Given(v) => render(v)
    case Sentinel => SENTINEL_TEXT
  }

  function Identity(s: string): string {
    s
  }

  function CharText(c: char): string {
    [c]
  }

  /** One generated measurement as a row. */
  function MeasurementRow(m: Measurement): (row: Row)
    ensures |row| == |MEASUREMENT_HEADER|
    ensures ParseTenths(row[3]) == Some(m.precipitation) && row[3] != SENTINEL_TEXT
    ensures ParseInt(row[4]) == Some(m.pollutants) && row[4] != SENTINEL_TEXT
    ensures DecodeTemperatures(row[5]) == Some(m.temperatures) && (row[5] == "" <==> |m.temperatures| == 0)
  {
    TenthsRoundTrip(m.precipitation);
    IntRoundTrip(m.pollutants);
    FlattenRoundTrip(m.temperatures);
    [ m.date,
      m.code,
      [m.kind],
      FormatTenths(m.precipitation),
      IntToDecimal(m.pollutants),
      FlattenTemperatures(m.temperatures) ]
  }

  /** One non-conforming entry as a row. */
  function EntryRow(e: Entry): (row: Row)
    ensures |row| == |MEASUREMENT_HEADER|
    ensures e.date.Sentinel? ==> row[0] == SENTINEL_TEXT
    ensures e.code.Sentinel? ==> row[1] == SENTINEL_TEXT
    ensures e.kind.Sentinel? ==> row[2] == SENTINEL_TEXT
    ensures e.precipitation.Sentinel? <==> row[3] == SENTINEL_TEXT
    ensures e.pollutants.Sentinel? <==> row[4] == SENTINEL_TEXT
    ensures e.temperatures.Sentinel? <==> row[5] == SENTINEL_TEXT
  {
    [ CellText(e.date, Identity),
      CellText(e.code, Identity),
      CellText(e.kind, CharText),
      CellText(e.precipitation, FormatTenths),
      CellText(e.pollutants, IntToDecimal),
      TemperatureCellText(e.temperatures) ]
  }

  /**
   `exporter_temperatures_csv`: the header, one row per measurement in order,
   then the six non-conforming entries.
   */
  function ExportMeasurements(g: Generator, ms: seq<Measurement>): (rows: seq<Row>)
    ensures |rows| == 1 + |ms| + 6
    ensures rows[0] == MEASUREMENT_HEADER
    ensures forall i :: 0 <= i < |ms| ==> rows[1 + i] == MeasurementRow(ms[i])
    ensures forall k :: 0 <= k < 6 ==> rows[1 + |ms| + k] == EntryRow(NonConformingEntries(g)[k])
  {
    var tail := NonConformingEntries(g);
    var body := seq(|ms|, i requires 0 <= i < |ms| => MeasurementRow(ms[i]));
    var appended := seq(|tail|, k requires 0 <= k < |tail| => EntryRow(tail[k]));
    assert |appended| == 6;
    [MEASUREMENT_HEADER] + body + appended
  }

  function StationRow(s: Station): (row: Row)
    ensures |row| == |STATION_HEADER|
    ensures DecodeStationRow(row) == Some(s)
  {
    [s.code, s.name, s.city]
  }

  /**
   `exporter_stations_csv`: nothing at all (`None`, no file is opened) when
   there is no station, otherwise the header and one row per station.
   */
  function ExportStations(g: Generator): (out: Option<seq<Row>>)
    ensures out.None? <==> g.stations == []
    ensures out.Some? ==> |out.value| == 1 + |g.stations| && out.value[0] == STATION_HEADER
    ensures out.Some? ==> forall i :: 0 <= i < |g.stations| ==> DecodeStationRow(out.value[1 + i]) == Some(g.stations[i])
  {
    if g.stations == [] then None
    else Some([STATION_HEADER] + seq(|g.stations|, i requires 0 <= i < |g.stations| => StationRow(g.stations[i])))
  }

  function DecodeStationRow(row: Row): Option<Station> {
    if |row| == 3 then Some(Station(row[0], row[1], row[2])) else None
  }

  // Decoding

  function ParseReadings(parts: seq<string>): (r: Option<seq<int>>)
    ensures r.Some? ==> |r.value| == |parts|
    decreases |parts|
  {
    if |parts| == 0 then Some([])
    else
      match (ParseTenths(parts[0]), ParseReadings(parts[1..]))
      case (Some(t), Some(rest)) => Some([t] + rest)
      case _ => None
  }

  /** Reads a temperature field: `''` is no reading, otherwise `;`-separated readings. */
  function DecodeTemperatures(s: string): Option<seq<int>> {
    if s == "" then Some([]) else ParseReadings(Split(s, TEMPERATURE_SEPARATOR))
  }

  /** Reads a field that may hold the sentinel; `None` when the text is neither. */
  function DecodeCell<T>(text: string, parse: string -> Option<T>): Option<Cell<T>> {
    if text == SENTINEL_TEXT then Some(Sentinel)
    else
      match parse(text)
      case Some(v) => Some(Given(v))
      case None => None
  }

  function ParseText(s: string): Option<string> {
    Some(s)
  }

  function ParseChar(s: string): Option<char> {
    if |s| == 1 then Some(s[0]) else None
  }

  /** Reads a measurement row back into an entry. */
  function DecodeEntryRow(row: Row): Option<Entry> {
    if |row| != 6 then None
    else
      match (DecodeCell(row[0], ParseText), DecodeCell(row[1], ParseText), DecodeCell(row[2], ParseChar),
             DecodeCell(row[3], ParseTenths), DecodeCell(row[4], ParseInt), DecodeCell(row[5], DecodeTemperatures))
      case (Some(date), Some(code), Some(kind), Some(precipitation), Some(pollutants), Some(temperatures)) =>
        Some(Entry(date, code, kind, precipitation, pollutants, temperatures))
      case _ => None
  }

  function SentinelColumnIf(row: Row, j: nat): seq<string>
    requires j < |row| && j < |MEASUREMENT_HEADER|
  {
    if row[j] == SENTINEL_TEXT then [MEASUREMENT_HEADER[j]] else []
  }

  /** The header names of the columns of a measurement row that hold the sentinel text. */
  function SentinelColumns(row: Row): seq<string>
    requires |row| == |MEASUREMENT_HEADER|
  {
    SentinelColumnIf(row, 0) + SentinelColumnIf(row, 1) + SentinelColumnIf(row, 2)
    + SentinelColumnIf(row, 3) + SentinelColumnIf(row, 4) + SentinelColumnIf(row, 5)
  }

  // Properties

  lemma {:induction false} ParseFormattedReadings(ts: seq<int>)
    ensures ParseReadings(FormatReadings(ts)) == Some(ts)
    decreases |ts|
  {
    if 0 < |ts| {
      ParseFormattedReadings(ts[1..]);
      assert FormatReadings(ts)[1..] == FormatReadings(ts[1..]);
      assert ts == [ts[0]] + ts[1..];
    }
  }

  /**
   Splitting a flattened non-empty temperature list on `;` gives the
   formatted readings in order, one piece per reading.
   */
  lemma FlattenSplits(ts: seq<int>)
    requires 0 < |ts|
    ensures Split(FlattenTemperatures(ts), TEMPERATURE_SEPARATOR) == FormatReadings(ts)
    ensures |Split(FlattenTemperatures(ts), TEMPERATURE_SEPARATOR)| == |ts|
  {
    SplitJoin(FormatReadings(ts), TEMPERATURE_SEPARATOR);
  }

  /** Every temperature list, the empty one included, reads back from its field. */
  lemma FlattenRoundTrip(ts: seq<int>)
    ensures DecodeTemperatures(FlattenTemperatures(ts)) == Some(ts)
  {
    if 0 < |ts| {
      FlattenSplits(ts);
      ParseFormattedReadings(ts);
    }
  }

  /**
   The rule for non-conforming entries (join whatever list there is) and the
   rule for generated measurements (join, or `''` for no reading) write the
   same text for every list.
   */
  lemma TemperatureRulesAgree(ts: seq<int>)
    ensures TemperatureCellText(Given(ts)) == FlattenTemperatures(ts)
  {
  }

  /** A generated measurement is written exactly as the entry without sentinel holding its values. */
  lemma MeasurementRowIsEntryRow(m: Measurement)
    ensures MeasurementRow(m) == EntryRow(Lift(m))
  {
    TemperatureRulesAgree(m.temperatures);
  }

  /** No value of `e` writes the same text as the sentinel. */
  predicate Unambiguous(e: Entry) {
    && e.date != Given(SENTINEL_TEXT)
    && e.code != Given(SENTINEL_TEXT)
    && e.kind != Given('?')
  }

  lemma ConformingIsUnambiguous(e: Entry)
    requires EntryConforms(e)
    ensures Unambiguous(e)
  {
    if e.date.Given? {
      assert |e.date.value| == 10;
    }
    if e.kind.Given? {
      assert e.kind.value in KINDS;
    }
  }

  lemma CellRoundTrip<T>(c: Cell<T>, render: T -> string, parse: string -> Option<T>)
    requires c.Given? ==> render(c.value) != SENTINEL_TEXT && parse(render(c.value)) == Some(c.value)
    ensures DecodeCell(CellText(c, render), parse) == Some(c)
  {
  }

  lemma TemperatureCellRoundTrip(c: Cell<seq<int>>)
    ensures DecodeCell(TemperatureCellText(c), DecodeTemperatures) == Some(c)
  {
    if c.Given? {
      var ts := c.value;
      TemperatureRulesAgree(ts);
      FlattenRoundTrip(ts);
      if 0 < |ts| {
        FlattenSplits(ts);
        assert Split(SENTINEL_TEXT, TEMPERATURE_SEPARATOR) == [SENTINEL_TEXT];
      }
    }
  }

  /** Each field of an unambiguous entry reads back from its text. */
  lemma EntryCellsRoundTrip(e: Entry)
    requires Unambiguous(e)
    ensures DecodeCell(EntryRow(e)[0], ParseText) == Some(e.date)
    ensures DecodeCell(EntryRow(e)[1], ParseText) == Some(e.code)
    ensures DecodeCell(EntryRow(e)[2], ParseChar) == Some(e.kind)
    ensures DecodeCell(EntryRow(e)[3], ParseTenths) == Some(e.precipitation)
    ensures DecodeCell(EntryRow(e)[4], ParseInt) == Some(e.pollutants)
    ensures DecodeCell(EntryRow(e)[5], DecodeTemperatures) == Some(e.temperatures)
  {
    CellRoundTrip(e.date, Identity, ParseText);
    CellRoundTrip(e.code, Identity, ParseText);
    CellRoundTrip(e.kind, CharText, ParseChar);
    if e.precipitation.Given? {
      TenthsRoundTrip(e.precipitation.value);
    }
    CellRoundTrip(e.precipitation, FormatTenths, ParseTenths);
    if e.pollutants.Given? {
      IntRoundTrip(e.pollutants.value);
      assert IntToDecimal(e.pollutants.value) != SENTINEL_TEXT;
    }
    CellRoundTrip(e.pollutants, IntToDecimal, ParseInt);
    TemperatureCellRoundTrip(e.temperatures);
  }

  /** An entry whose values cannot be mistaken for the sentinel reads back from its row. */
  lemma EntryRowRoundTrip(e: Entry)
    requires Unambiguous(e)
    ensures DecodeEntryRow(EntryRow(e)) == Some(e)
  {
    EntryCellsRoundTrip(e);
  }

  /** The row of an unambiguous entry holds the sentinel text exactly in the columns of its sentinel fields. */
  lemma EntryRowSentinels(e: Entry)
    requires Unambiguous(e)
    ensures SentinelColumns(EntryRow(e)) == SentinelFields(e)
  {
    var row := EntryRow(e);
    EntryCellsRoundTrip(e);
    assert row[0] == SENTINEL_TEXT <==> e.date.Sentinel?;
    assert row[1] == SENTINEL_TEXT <==> e.code.Sentinel?;
    assert row[2] == SENTINEL_TEXT <==> e.kind.Sentinel?;
    assert row[3] == SENTINEL_TEXT <==> e.precipitation.Sentinel?;
    assert row[4] == SENTINEL_TEXT <==> e.pollutants.Sentinel?;
    assert row[5] == SENTINEL_TEXT <==> e.temperatures.Sentinel?;
  }

  /**
   Reading the measurement export back: the generated measurements come back
   in order with no sentinel column, then the six non-conforming entries, the
   k-th with the sentinel text in exactly the column `TAIL_SENTINEL_ORDER[k]`.
   */
  lemma ExportMeasurementsReadsBack(g: Generator, ms: seq<Measurement>)
    requires g.stations == [] || IsStationCode(g.stations[0].code)
    requires forall i :: 0 <= i < |ms| ==> Unambiguous(Lift(ms[i]))
    ensures forall i :: 0 <= i < |ms| ==>
      && DecodeEntryRow(ExportMeasurements(g, ms)[1 + i]) == Some(Lift(ms[i]))
      && SentinelColumns(ExportMeasurements(g, ms)[1 + i]) == []
    ensures forall k :: 0 <= k < 6 ==>
      && DecodeEntryRow(ExportMeasurements(g, ms)[1 + |ms| + k]) == Some(NonConformingEntries(g)[k])
      && SentinelColumns(ExportMeasurements(g, ms)[1 + |ms| + k]) == [TAIL_SENTINEL_ORDER[k]]
  {
    var rows := ExportMeasurements(g, ms);
    forall i | 0 <= i < |ms|
      ensures DecodeEntryRow(rows[1 + i]) == Some(Lift(ms[i]))
      ensures SentinelColumns(rows[1 + i]) == []
    {
      MeasurementRowIsEntryRow(ms[i]);
      LiftHasNoSentinel(ms[i]);
      EntryRowRoundTrip(Lift(ms[i]));
      EntryRowSentinels(Lift(ms[i]));
    }
    var tail := NonConformingEntries(g);
    NonConformingSentinels(g);
    NonConformingValuesConform(g);
    forall k | 0 <= k < 6
      ensures DecodeEntryRow(rows[1 + |ms| + k]) == Some(tail[k])
      ensures SentinelColumns(rows[1 + |ms| + k]) == [TAIL_SENTINEL_ORDER[k]]
    {
      ConformingIsUnambiguous(tail[k]);
      EntryRowRoundTrip(tail[k]);
      EntryRowSentinels(tail[k]);
    }
  }

  /**
   The whole run of the generator: after measurements are generated, the
   station export is present and lists every station, and the measurement
   export reads back as the generated measurements followed by the six
   non-conforming entries.
   */
  lemma GeneratedExportReadsBack(g: Generator, count: int, defaults: seq<StationDraw>, draws: seq<MeasurementDraw>)
    requires g.stations == [] ==> DEFAULT_STATION_COUNT <= |defaults|
    requires g.stations == [] ==> forall i :: 0 <= i < DEFAULT_STATION_COUNT ==> IsStationDraw(defaults[i])
    requires count <= |draws|
    requires forall i :: 0 <= i < count ==> IsMeasurementDraw(draws[i], StationCountFor(g))
    requires WellFormed(g)
    ensures var (g', ms) := GenerateMeasurements(g, count, defaults, draws);
      && ExportStations(g').Some?
      && |ExportStations(g').value| == 1 + StationCountFor(g)
      && |ExportMeasurements(g', ms)| == 1 + |ms| + 6
      && (forall i :: 0 <= i < |ms| ==> DecodeEntryRow(ExportMeasurements(g', ms)[1 + i]) == Some(Lift(ms[i])))
      && (forall k :: 0 <= k < 6 ==>
            DecodeEntryRow(ExportMeasurements(g', ms)[1 + |ms| + k]) == Some(NonConformingEntries(g')[k]))
  {
    var (g', ms) := GenerateMeasurements(g, count, defaults, draws);
    GeneratedMeasurementsConform(g, count, defaults, draws);
    ConformingExportReadsBack(g', ms);
  }

  /** Both exports of a generator with ten-digit codes, for measurements that conform. */
  lemma ConformingExportReadsBack(g: Generator, ms: seq<Measurement>)
    requires WellFormed(g)
    requires forall m :: m in ms ==> Conforms(m)
    ensures g.stations != [] ==> ExportStations(g).Some? && |ExportStations(g).value| == 1 + |g.stations|
    ensures forall i :: 0 <= i < |ms| ==> DecodeEntryRow(ExportMeasurements(g, ms)[1 + i]) == Some(Lift(ms[i]))
    ensures forall k :: 0 <= k < 6 ==>
      DecodeEntryRow(ExportMeasurements(g, ms)[1 + |ms| + k]) == Some(NonConformingEntries(g)[k])
  {
    forall i | 0 <= i < |ms|
      ensures Unambiguous(Lift(ms[i]))
    {
      assert Conforms(ms[i]) by {
        assert ms[i] in ms;
      }
      ConformingIsUnambiguous(Lift(ms[i]));
    }
    if g.stations != [] {
      assert IsStationCode(g.stations[0].code);
    }
    ExportMeasurementsReadsBack(g, ms);
  }
}
