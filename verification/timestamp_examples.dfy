/** Consequences of the formatter round trip `Timestamp.ParseFormatted`:
    `Z` against `+00:00`, and the examples of `parse_iso8601`'s docstring. */
module TimestampExamples {
  import opened Wrappers
  import opened Text
  import opened Timestamp

  /** Text that does not start with a digit extends neither a bare sign nor
      an offset. */
  lemma NothingExtends(rest: string)
    requires rest == [] || !IsDigit(rest[0])
    ensures EndsMatch(None, rest)
    ensures forall o :: EndsMatch(Some(o), rest)
  {
    SpanDigitsOf([], rest);
    assert [] + rest == rest;
  }

  /** A bare `Z` reads as the UTC seconds of the date-time. */
  lemma ZuluReadsUtc(t: DateTime, fraction: string, rest: string)
    requires ValidDateTime(t)
    requires fraction == [] || (fraction[0] == '.' && AllDigits(fraction[1..]))
    requires rest == [] || !IsDigit(rest[0])
    ensures ParseIso8601(Render(Formatted(t, fraction, Zulu), rest)) == Success(UtcSeconds(t))
  {
    NothingExtends(rest);
    var z := Zulu;
    ParseFormatted(t, fraction, z, rest);
  }

  /** A numeric offset followed by a non-digit reads as the UTC seconds of
      the date-time minus the offset. */
  lemma NumericReads(t: DateTime, fraction: string, z: Zone, rest: string)
    requires ValidDateTime(t) && ValidZone(z) && z.Numeric?
    requires fraction == [] || (fraction[0] == '.' && AllDigits(fraction[1..]))
    requires rest == [] || !IsDigit(rest[0])
    ensures ParseIso8601(Render(Formatted(t, fraction, z), rest)) == Success(UtcSeconds(t) - OffsetSeconds(z))
  {
    ParseFormatted(t, fraction, z, rest);
  }

  /** A bare `Z` reads exactly like `+00:00` (and `-00:00`). */
  lemma ZuluIsZeroOffset(t: DateTime, fraction: string, z: Zone, rest: string)
    requires ValidDateTime(t) && ValidZone(z)
    requires z.Numeric? && z.hours == 0 && z.minutes == 0
    requires fraction == [] || (fraction[0] == '.' && AllDigits(fraction[1..]))
    requires rest == [] || !IsDigit(rest[0])
    ensures ParseIso8601(Render(Formatted(t, fraction, Zulu), rest))
         == ParseIso8601(Render(Formatted(t, fraction, z), rest))
  {
    ZuluReadsUtc(t, fraction, rest);
    NumericReads(t, fraction, z, rest);
  }

  // The docstring examples. Each is split into the digits of its fields,
  // the groups the formatter produces, the text they render to, the match of
  // that text, and the value the groups fold to; the last lemma of each puts
  // them together.

  /** Two decimal digits, the tens first. */
  lemma TwoDigits(n: nat)
    requires n < 100
    ensures Decimal(n, 2) == [DigitChar(n / 10), DigitChar(n % 10)]
  {
    assert Decimal(n / 10, 1) == [DigitChar(n / 10 % 10)];
  }

  /** Four decimal digits, the thousands first. */
  lemma FourDigits(n: nat)
    ensures Decimal(n, 4) == [DigitChar(n / 10 / 10 / 10 % 10), DigitChar(n / 10 / 10 % 10), DigitChar(n / 10 % 10), DigitChar(n % 10)]
  {
    var a := n / 10;
    var b := a / 10;
    assert Decimal(b, 2) == [DigitChar(b / 10 % 10), DigitChar(b % 10)];
    assert Decimal(a, 3) == Decimal(b, 2) + [DigitChar(a % 10)];
  }

  lemma PacificDigits()
    ensures Decimal(2015, 4) == "2015"
    ensures Decimal(3, 2) == "03"
    ensures Decimal(27, 2) == "27"
    ensures Decimal(19, 2) == "19"
    ensures Decimal(25, 2) == "25"
    ensures Decimal(23, 2) == "23"
    ensures Decimal(8, 2) == "08"
    ensures Decimal(0, 2) == "00"
  {
    FourDigits(2015);
    TwoDigits(3);
    TwoDigits(27);
    TwoDigits(19);
    TwoDigits(25);
    TwoDigits(23);
    TwoDigits(8);
    TwoDigits(0);
  }

  lemma PacificGroups()
    ensures Formatted(DateTime(2015, 3, 27, 19, 25, 23), ".000", Numeric('-', 8, 0))
         == Match("2015", "03", "27", "19", "25", "23", ".000", '-', Some(Offset("08", "00")))
  {
    PacificDigits();
  }

  lemma PacificText()
    ensures Render(Match("2015", "03", "27", "19", "25", "23", ".000", '-', Some(Offset("08", "00"))), [])
         == "2015-03-27T19:25:23.000-08:00"
  {
  }

  lemma PacificMatched()
    ensures MatchPattern("2015-03-27T19:25:23.000-08:00")
         == Some((Match("2015", "03", "27", "19", "25", "23", ".000", '-', Some(Offset("08", "00"))), []))
  {
    PacificText();
    var m := Match("2015", "03", "27", "19", "25", "23", ".000", '-', Some(Offset("08", "00")));
    MatchRender(m, []);
  }

  lemma PacificSeconds()
    ensures ValidDateTime(DateTime(2015, 3, 27, 19, 25, 23))
    ensures UtcSeconds(DateTime(2015, 3, 27, 19, 25, 23)) - OffsetSeconds(Numeric('-', 8, 0)) == 1427513123
  {
  }

  lemma PacificFolded()
    ensures FoldOffset(Formatted(DateTime(2015, 3, 27, 19, 25, 23), ".000", Numeric('-', 8, 0))) == Success(1427513123)
  {
    var t := DateTime(2015, 3, 27, 19, 25, 23);
    var z := Numeric('-', 8, 0);
    PacificSeconds();
    FoldFormatted(t, ".000", z);
  }

  /** `2015-03-27T19:25:23.000-08:00`: a fraction and a negative offset. */
  lemma DoctestPacific()
    ensures ParseIso8601("2015-03-27T19:25:23.000-08:00") == Success(1427513123)
  {
    PacificMatched();
    PacificFolded();
    PacificGroups();
  }

  lemma CentralEuropeanDigits()
    ensures Decimal(2014, 4) == "2014"
    ensures Decimal(2, 2) == "02"
    ensures Decimal(27, 2) == "27"
    ensures Decimal(15, 2) == "15"
    ensures Decimal(5, 2) == "05"
    ensures Decimal(6, 2) == "06"
    ensures Decimal(1, 2) == "01"
    ensures Decimal(0, 2) == "00"
  {
    FourDigits(2014);
    TwoDigits(2);
    TwoDigits(27);
    TwoDigits(15);
    TwoDigits(5);
    TwoDigits(6);
    TwoDigits(1);
    TwoDigits(0);
  }

  lemma CentralEuropeanGroups()
    ensures Formatted(DateTime(2014, 2, 27, 15, 5, 6), [], Numeric('+', 1, 0))
         == Match("2014", "02", "27", "15", "05", "06", [], '+', Some(Offset("01", "00")))
  {
    CentralEuropeanDigits();
  }

  lemma CentralEuropeanText()
    ensures Render(Match("2014", "02", "27", "15", "05", "06", [], '+', Some(Offset("01", "00"))), [])
         == "2014-02-27T15:05:06+01:00"
  {
  }

  lemma CentralEuropeanMatched()
    ensures MatchPattern("2014-02-27T15:05:06+01:00")
         == Some((Match("2014", "02", "27", "15", "05", "06", [], '+', Some(Offset("01", "00"))), []))
  {
    CentralEuropeanText();
    var m := Match("2014", "02", "27", "15", "05", "06", [], '+', Some(Offset("01", "00")));
    MatchRender(m, []);
  }

  lemma CentralEuropeanSeconds()
    ensures ValidDateTime(DateTime(2014, 2, 27, 15, 5, 6))
    ensures UtcSeconds(DateTime(2014, 2, 27, 15, 5, 6)) - OffsetSeconds(Numeric('+', 1, 0)) == 1393509906
  {
  }

  lemma CentralEuropeanFolded()
    ensures FoldOffset(Formatted(DateTime(2014, 2, 27, 15, 5, 6), [], Numeric('+', 1, 0))) == Success(1393509906)
  {
    var t := DateTime(2014, 2, 27, 15, 5, 6);
    var z := Numeric('+', 1, 0);
    CentralEuropeanSeconds();
    FoldFormatted(t, [], z);
  }

  /** `2014-02-27T15:05:06+01:00`: no fraction and a positive offset. */
  lemma DoctestCentralEuropean()
    ensures ParseIso8601("2014-02-27T15:05:06+01:00") == Success(1393509906)
  {
    CentralEuropeanMatched();
    CentralEuropeanFolded();
    CentralEuropeanGroups();
  }

  lemma FractionDigits()
    ensures Decimal(2008, 4) == "2008"
    ensures Decimal(9, 2) == "09"
    ensures Decimal(3, 2) == "03"
    ensures Decimal(20, 2) == "20"
    ensures Decimal(56, 2) == "56"
    ensures Decimal(35, 2) == "35"
  {
    FourDigits(2008);
    TwoDigits(9);
    TwoDigits(3);
    TwoDigits(20);
    TwoDigits(56);
    TwoDigits(35);
  }

  lemma FractionGroups()
    ensures Formatted(DateTime(2008, 9, 3, 20, 56, 35), ".450686", Zulu)
         == Match("2008", "09", "03", "20", "56", "35", ".450686", 'Z', None)
  {
    FractionDigits();
  }

  lemma FractionText()
    ensures Render(Match("2008", "09", "03", "20", "56", "35", ".450686", 'Z', None), [])
         == "2008-09-03T20:56:35.450686Z"
  {
  }

  lemma FractionMatched()
    ensures MatchPattern("2008-09-03T20:56:35.450686Z")
         == Some((Match("2008", "09", "03", "20", "56", "35", ".450686", 'Z', None), []))
  {
    FractionText();
    NothingExtends([]);
    var m := Match("2008", "09", "03", "20", "56", "35", ".450686", 'Z', None);
    MatchRender(m, []);
  }

  lemma FractionSeconds()
    ensures ValidDateTime(DateTime(2008, 9, 3, 20, 56, 35))
    ensures UtcSeconds(DateTime(2008, 9, 3, 20, 56, 35)) - OffsetSeconds(Zulu) == 1220475395
  {
  }

  lemma FractionFolded()
    ensures FoldOffset(Formatted(DateTime(2008, 9, 3, 20, 56, 35), ".450686", Zulu)) == Success(1220475395)
  {
    var t := DateTime(2008, 9, 3, 20, 56, 35);
    var z := Zulu;
    FractionSeconds();
    FoldFormatted(t, ".450686", z);
  }

  /** `2008-09-03T20:56:35.450686Z`: the microseconds are dropped, not rounded. */
  lemma DoctestFractionDropped()
    ensures ParseIso8601("2008-09-03T20:56:35.450686Z") == Success(1220475395)
  {
    FractionMatched();
    FractionFolded();
    FractionGroups();
  }

  lemma OneDigitMatched()
    ensures MatchPattern("2015-3-27T9:25:23Z")
         == Some((Match("2015", "3", "27", "9", "25", "23", "", 'Z', None), []))
  {
    var m := Match("2015", "3", "27", "9", "25", "23", "", 'Z', None);
    assert Render(m, []) == "2015-3-27T9:25:23Z";
    NothingExtends([]);
    MatchRender(m, []);
  }

  lemma OneDigitValues()
    ensures Value("2015") == 2015 && Value("3") == 3 && Value("27") == 27
    ensures Value("9") == 9 && Value("25") == 25 && Value("23") == 23
    ensures Value("00") == 0
  {
    PacificDigits();
    ValueOfDecimal(2015, 4);
    ValueOfDecimal(27, 2);
    ValueOfDecimal(25, 2);
    ValueOfDecimal(23, 2);
    ValueOfDecimal(0, 2);
  }

  lemma OneDigitSeconds()
    ensures ValidDateTime(DateTime(2015, 3, 27, 9, 25, 23))
    ensures UtcSeconds(DateTime(2015, 3, 27, 9, 25, 23)) == 1427448323
  {
  }

  lemma OneDigitFolded()
    ensures FoldOffset(Match("2015", "3", "27", "9", "25", "23", "", 'Z', None)) == Success(1427448323)
  {
    var m := Match("2015", "3", "27", "9", "25", "23", "", 'Z', None);
    OneDigitValues();
    OneDigitSeconds();
    StrptimeAccepts(m, '+', "0000", DateTime(2015, 3, 27, 9, 25, 23), 0, 0);
  }

  /** `2015-3-27T9:25:23Z`: one-digit month and hour, which `strptime` also
      reads. */
  lemma OneDigitFieldsRead()
    ensures ParseIso8601("2015-3-27T9:25:23Z") == Success(1427448323)
  {
    OneDigitMatched();
    OneDigitFolded();
  }
}
