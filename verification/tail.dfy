/**
 The exact text of the six rows the measurement export appends: every value
 of the non-conforming entries written the way Python's `str` writes it.
 */
module ExportTail {
  import opened Options
  import opened Decimal
  import opened Text
  import opened Records
  import opened Generation
  import opened Export

  /** The six appended rows as they appear in the file, for reference code `ref`. */
  function NonConformingRowText(ref: string, k: nat): Row
    requires k < 6
  {
    [ ["2024-06-15", "?", "P", "25.3", "3", "12.5;18.2"],
      ["?", ref, "S", "18.7", "5", "22.1;15.8;19.3"],
      ["2024-08-20", ref, "?", "31.2", "2", "28.4;26.7"],
      ["2024-09-10", ref, "p", "?", "7", "16.9;21.2;18.5"],
      ["2024-11-05", ref, "S", "42.8", "?", "8.3;12.1"],
      ["2024-12-01", ref, "P", "15.6", "4", "?"] ][k]
  }

  /**
   Row `k` after the measurements is the `k`-th row of that text: the
   sentinel is written `?`, floats with one decimal and no padding, lists
   joined with `;`.
   */
  lemma ExportTailText(g: Generator, ms: seq<Measurement>)
    ensures forall k :: 0 <= k < 6 ==>
      ExportMeasurements(g, ms)[1 + |ms| + k] == NonConformingRowText(ReferenceCode(g), k)
  {
    var rows := ExportMeasurements(g, ms);
    var ref := ReferenceCode(g);
    forall k | 0 <= k < 6
      ensures rows[1 + |ms| + k] == NonConformingRowText(ref, k)
    {
      NonConformingRowTexts(g, k);
    }
  }

  /** The `k`-th non-conforming entry is written as the `k`-th row of that text. */
  lemma NonConformingRowTexts(g: Generator, k: nat)
    requires k < 6
    ensures EntryRow(NonConformingEntries(g)[k]) == NonConformingRowText(ReferenceCode(g), k)
  {
    if k == 0 {
      TailText0(g);
    } else if k == 1 {
      TailText1(g);
    } else if k == 2 {
      TailText2(g);
    } else if k == 3 {
      TailText3(g);
    } else if k == 4 {
      TailText4(g);
    } else {
      TailText5(g);
    }
  }

  lemma TailText0(g: Generator)
    ensures EntryRow(NonConformingEntries(g)[0]) == ["2024-06-15", "?", "P", "25.3", "3", "12.5;18.2"]
  {
    TailValues0();
    TailReadings0();
  }

  lemma TailText1(g: Generator)
    ensures EntryRow(NonConformingEntries(g)[1]) == ["?", ReferenceCode(g), "S", "18.7", "5", "22.1;15.8;19.3"]
  {
    TailValues1();
    TailReadings1();
  }

  lemma TailText2(g: Generator)
    ensures EntryRow(NonConformingEntries(g)[2]) == ["2024-08-20", ReferenceCode(g), "?", "31.2", "2", "28.4;26.7"]
  {
    TailValues2();
    TailReadings2();
  }

  lemma TailText3(g: Generator)
    ensures EntryRow(NonConformingEntries(g)[3]) == ["2024-09-10", ReferenceCode(g), "p", "?", "7", "16.9;21.2;18.5"]
  {
    TailValues3();
    TailReadings3();
  }

  lemma TailText4(g: Generator)
    ensures EntryRow(NonConformingEntries(g)[4]) == ["2024-11-05", ReferenceCode(g), "S", "42.8", "?", "8.3;12.1"]
  {
    TailValues4();
    TailReadings4();
  }

  lemma TailText5(g: Generator)
    ensures EntryRow(NonConformingEntries(g)[5]) == ["2024-12-01", ReferenceCode(g), "P", "15.6", "4", "?"]
  {
    TailValues5();
  }

  /** `str` of a value from 10.0 to 99.9, digit by digit. */
  lemma TenthsThreeDigits(t: int, a: char, b: char, c: char)
    requires 100 <= t < 1000
    requires a == DigitChar(t / 100) && b == DigitChar(t / 10 % 10) && c == DigitChar(t % 10)
    ensures FormatTenths(t) == [a, b, '.', c]
  {
    assert NatToDecimal(t / 10) == NatToDecimal(t / 100) + [b];
  }

  /** `str` of a value from 1.0 to 9.9, digit by digit. */
  lemma TenthsTwoDigits(t: int, b: char, c: char)
    requires 10 <= t < 100
    requires b == DigitChar(t / 10) && c == DigitChar(t % 10)
    ensures FormatTenths(t) == [b, '.', c]
  {
  }

  lemma TailValues0()
    ensures FormatTenths(253) == "25.3"
    ensures FormatReadings([125, 182]) == ["12.5", "18.2"]
  {
    TenthsThreeDigits(253, '2', '5', '3');
    TenthsThreeDigits(125, '1', '2', '5');
    TenthsThreeDigits(182, '1', '8', '2');
  }

  lemma TailValues1()
    ensures FormatTenths(187) == "18.7"
    ensures FormatReadings([221, 158, 193]) == ["22.1", "15.8", "19.3"]
  {
    TenthsThreeDigits(187, '1', '8', '7');
    TenthsThreeDigits(221, '2', '2', '1');
    TenthsThreeDigits(158, '1', '5', '8');
    TenthsThreeDigits(193, '1', '9', '3');
  }

  lemma TailValues2()
    ensures FormatTenths(312) == "31.2"
    ensures FormatReadings([284, 267]) == ["28.4", "26.7"]
  {
    TenthsThreeDigits(312, '3', '1', '2');
    TenthsThreeDigits(284, '2', '8', '4');
    TenthsThreeDigits(267, '2', '6', '7');
  }

  lemma TailValues3()
    ensures FormatReadings([169, 212, 185]) == ["16.9", "21.2", "18.5"]
  {
    TenthsThreeDigits(169, '1', '6', '9');
    TenthsThreeDigits(212, '2', '1', '2');
    TenthsThreeDigits(185, '1', '8', '5');
  }

  lemma TailValues4()
    ensures FormatTenths(428) == "42.8"
    ensures FormatReadings([83, 121]) == ["8.3", "12.1"]
  {
    TenthsThreeDigits(428, '4', '2', '8');
    TenthsTwoDigits(83, '8', '3');
    TenthsThreeDigits(121, '1', '2', '1');
  }

  lemma TailValues5()
    ensures FormatTenths(156) == "15.6"
  {
    TenthsThreeDigits(156, '1', '5', '6');
  }

  lemma JoinTwo(a: string, b: string)
    ensures Join([a, b], TEMPERATURE_SEPARATOR) == a + [TEMPERATURE_SEPARATOR] + b
  {
    assert [a, b][1..] == [b];
  }

  lemma JoinThree(a: string, b: string, c: string)
    ensures Join([a, b, c], TEMPERATURE_SEPARATOR) == a + [TEMPERATURE_SEPARATOR] + b + [TEMPERATURE_SEPARATOR] + c
  {
    assert [a, b, c][1..] == [b, c];
    JoinTwo(b, c);
  }

  lemma TailReadings0()
    ensures TemperatureCellText(Given([125, 182])) == "12.5;18.2"
  {
    TailValues0();
    JoinTwo("12.5", "18.2");
    assert "12.5" + [TEMPERATURE_SEPARATOR] + "18.2" == "12.5;18.2";
  }

  lemma TailReadings1()
    ensures TemperatureCellText(Given([221, 158, 193])) == "22.1;15.8;19.3"
  {
    TailValues1();
    JoinThree("22.1", "15.8", "19.3");
    assert "22.1" + [TEMPERATURE_SEPARATOR] + "15.8" + [TEMPERATURE_SEPARATOR] + "19.3" == "22.1;15.8;19.3";
  }

  lemma TailReadings2()
    ensures TemperatureCellText(Given([284, 267])) == "28.4;26.7"
  {
    TailValues2();
    JoinTwo("28.4", "26.7");
    assert "28.4" + [TEMPERATURE_SEPARATOR] + "26.7" == "28.4;26.7";
  }

  lemma TailReadings3()
    ensures TemperatureCellText(Given([169, 212, 185])) == "16.9;21.2;18.5"
  {
    TailValues3();
    JoinThree("16.9", "21.2", "18.5");
    assert "16.9" + [TEMPERATURE_SEPARATOR] + "21.2" + [TEMPERATURE_SEPARATOR] + "18.5" == "16.9;21.2;18.5";
  }

  lemma TailReadings4()
    ensures TemperatureCellText(Given([83, 121])) == "8.3;12.1"
  {
    TailValues4();
    JoinTwo("8.3", "12.1");
    assert "8.3" + [TEMPERATURE_SEPARATOR] + "12.1" == "8.3;12.1";
  }
}
