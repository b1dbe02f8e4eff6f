/** The behaviour `tests/easy.rs` asserts, one lemma per test input,
    each stating the exact outcome the model gives.

    A successful parse is shown by naming the concrete syntax the input
    spells: the input's bytes and that syntax's text are each written out,
    and the general text lemmas then read the input back. A failure is
    shown by evaluating the parser on the input. */
module EasyTests {
  import opened Bytes
  import opened Records
  import opened Lexing
  import opened DateGrammar
  import opened TimeGrammar
  import opened DateTimeGrammar
  import opened CalendarResolver

  // ---------------------------------------------------------------------
  // Reading a whole input that is the text of a syntax

  lemma DateReadsAs(s: seq<byte>, syn: DateSyntax)
    requires syn.WellFormed() && s == syn.Text()
    ensures ParseDate(s) == Done([], syn.Meaning())
  {
    ParseDateText(syn, []);
    assert s + [] == s;
  }

  lemma TimeReadsAs(s: seq<byte>, syn: TimeSyntax)
    requires syn.WellFormed() && s == syn.Text()
    ensures ParseTime(s) == Done([], syn.Meaning())
  {
    ParseTimeText(syn, []);
    assert s + [] == s;
  }

  lemma DateTimeReadsAs(s: seq<byte>, syn: DateTimeSyntax)
    requires syn.WellFormed() && s == syn.Text()
    ensures ParseDateTime(s) == Done([], syn.Meaning())
  {
    ParseDateTimeText(syn, []);
    assert s + [] == s;
  }

  /** The test's `make_datetime`: a date-time whose offset is given in whole hours. */
  function MakeDateTime(year: int, month: nat, day: nat, hour: nat, minute: nat, second: nat, tzHours: int): (dt: DateTime)
    ensures dt.date == Date(year, month, day)
    ensures dt.time.hour == hour && dt.time.minute == minute && dt.time.second == second
    ensures dt.time.tzOffset == tzHours * 3600
  {
    DateTime(Date(year, month, day), Time(hour, minute, second, tzHours * 3600))
  }

  // ---------------------------------------------------------------------
  // easy_parse_date

  lemma DateWholeBytes()
    ensures Ascii("2015-06-26") == [50, 48, 49, 53, 45, 48, 54, 45, 50, 54]
  {
  }

  lemma DateWholeSpelling()
    ensures DateSyntax(Unsigned, 2015, 6, 26).Text() == [50, 48, 49, 53, 45, 48, 54, 45, 50, 54]
  {
  }

  lemma DateWholeText()
    ensures Ascii("2015-06-26") == DateSyntax(Unsigned, 2015, 6, 26).Text()
  {
    DateWholeBytes();
    DateWholeSpelling();
  }

  /** A well-formed date is consumed whole and its digits read verbatim. */
  lemma DateWhole()
    ensures ParseDate(Ascii("2015-06-26")) == Done([], Date(2015, 6, 26))
  {
    DateWholeText();
    DateReadsAs(Ascii("2015-06-26"), DateSyntax(Unsigned, 2015, 6, 26));
  }

  lemma DateNegativeYearBytes()
    ensures Ascii("-0333-07-11") == [45, 48, 51, 51, 51, 45, 48, 55, 45, 49, 49]
  {
  }

  lemma DateNegativeYearSpelling()
    ensures DateSyntax(MinusSign, 333, 7, 11).Text() == [45, 48, 51, 51, 51, 45, 48, 55, 45, 49, 49]
  {
  }

  lemma DateNegativeYearText()
    ensures Ascii("-0333-07-11") == DateSyntax(MinusSign, 333, 7, 11).Text()
  {
    DateNegativeYearBytes();
    DateNegativeYearSpelling();
  }

  /** A leading `-` negates the year. */
  lemma DateNegativeYear()
    ensures ParseDate(Ascii("-0333-07-11")) == Done([], Date(-333, 7, 11))
  {
    DateNegativeYearText();
    DateReadsAs(Ascii("-0333-07-11"), DateSyntax(MinusSign, 333, 7, 11));
  }

  /** A date cut off inside the year is incomplete. */
  lemma DateCutOff()
    ensures ParseDate(Ascii("201")).Incomplete?
  {
  }

  /** A wrong separator after the year is an error. */
  lemma DateWrongSeparator()
    ensures ParseDate(Ascii("2015p00p00")).Error?
  {
  }

  /** A non-digit where the year starts is an error. */
  lemma DateNotDigits()
    ensures ParseDate(Ascii("pppp")).Error?
  {
  }

  // ---------------------------------------------------------------------
  // easy_parse_time

  lemma TimeWithSecondsBytes()
    ensures Ascii("16:43:16") == [49, 54, 58, 52, 51, 58, 49, 54]
  {
  }

  lemma TimeWithSecondsSpelling()
    ensures TimeSyntax(16, 43, Some(16), NoZone).Text() == [49, 54, 58, 52, 51, 58, 49, 54]
  {
  }

  lemma TimeWithSecondsText()
    ensures Ascii("16:43:16") == TimeSyntax(16, 43, Some(16), NoZone).Text()
  {
    TimeWithSecondsBytes();
    TimeWithSecondsSpelling();
  }

  /** A time with seconds and no zone: offset 0. */
  lemma TimeWithSeconds()
    ensures ParseTime(Ascii("16:43:16")) == Done([], Time(16, 43, 16, 0))
  {
    TimeWithSecondsText();
    TimeReadsAs(Ascii("16:43:16"), TimeSyntax(16, 43, Some(16), NoZone));
  }

  lemma TimeWithoutSecondsBytes()
    ensures Ascii("16:43") == [49, 54, 58, 52, 51]
  {
  }

  lemma TimeWithoutSecondsSpelling()
    ensures TimeSyntax(16, 43, None, NoZone).Text() == [49, 54, 58, 52, 51]
  {
  }

  lemma TimeWithoutSecondsText()
    ensures Ascii("16:43") == TimeSyntax(16, 43, None, NoZone).Text()
  {
    TimeWithoutSecondsBytes();
    TimeWithoutSecondsSpelling();
  }

  /** Missing seconds read as 0. */
  lemma TimeWithoutSeconds()
    ensures ParseTime(Ascii("16:43")) == Done([], Time(16, 43, 0, 0))
  {
    TimeWithoutSecondsText();
    TimeReadsAs(Ascii("16:43"), TimeSyntax(16, 43, None, NoZone));
  }

  /** A time cut off after the hour's colon is incomplete. */
  lemma TimeCutOff()
    ensures ParseTime(Ascii("20:")).Incomplete?
  {
  }

  /** A wrong separator after the hour is an error. */
  lemma TimeWrongSeparator()
    ensures ParseTime(Ascii("20p42p16")).Error?
  {
  }

  /** A non-digit where the hour starts is an error. */
  lemma TimeNotDigits()
    ensures ParseTime(Ascii("pppp")).Error?
  {
  }

  // ---------------------------------------------------------------------
  // easy_parse_datetime_correct: each input reads, whole, as `make_datetime` of its fields

  lemma DateTimeCase0Value()
    ensures MakeDateTime(2007, 8, 31, 16, 47, 0, 0) == DateTimeSyntax(DateSyntax(Unsigned, 2007, 8, 31), TimeSyntax(16, 47, None, HoursMinutes(PlusSign, 0, 0, true))).Meaning()
  {
  }

  lemma DateTimeCase0Bytes()
    ensures Ascii("2007-08-31T16:47+00:00") == [50, 48, 48, 55, 45, 48, 56, 45, 51, 49, 84, 49, 54, 58, 52, 55, 43, 48, 48, 58, 48, 48]
  {
  }

  lemma DateTimeCase0Spelling()
    ensures DateTimeSyntax(DateSyntax(Unsigned, 2007, 8, 31), TimeSyntax(16, 47, None, HoursMinutes(PlusSign, 0, 0, true))).Text() == [50, 48, 48, 55, 45, 48, 56, 45, 51, 49, 84, 49, 54, 58, 52, 55, 43, 48, 48, 58, 48, 48]
  {
  }

  lemma DateTimeCase0Text()
    ensures Ascii("2007-08-31T16:47+00:00") == DateTimeSyntax(DateSyntax(Unsigned, 2007, 8, 31), TimeSyntax(16, 47, None, HoursMinutes(PlusSign, 0, 0, true))).Text()
  {
    DateTimeCase0Bytes();
    DateTimeCase0Spelling();
  }

  /** Extended offset `+00:00`, no seconds. */
  lemma DateTimeCase0()
    ensures ParseDateTime(Ascii("2007-08-31T16:47+00:00")) == Done([], MakeDateTime(2007, 8, 31, 16, 47, 0, 0))
  {
    DateTimeCase0Text();
    DateTimeCase0Value();
    DateTimeReadsAs(Ascii("2007-08-31T16:47+00:00"), DateTimeSyntax(DateSyntax(Unsigned, 2007, 8, 31), TimeSyntax(16, 47, None, HoursMinutes(PlusSign, 0, 0, true))));
  }

  lemma DateTimeCase1Value()
    ensures MakeDateTime(2007, 12, 24, 18, 21, 0, 0) == DateTimeSyntax(DateSyntax(Unsigned, 2007, 12, 24), TimeSyntax(18, 21, None, Utc)).Meaning()
  {
  }

  lemma DateTimeCase1Bytes()
    ensures Ascii("2007-12-24T18:21Z") == [50, 48, 48, 55, 45, 49, 50, 45, 50, 52, 84, 49, 56, 58, 50, 49, 90]
  {
  }

  lemma DateTimeCase1Spelling()
    ensures DateTimeSyntax(DateSyntax(Unsigned, 2007, 12, 24), TimeSyntax(18, 21, None, Utc)).Text() == [50, 48, 48, 55, 45, 49, 50, 45, 50, 52, 84, 49, 56, 58, 50, 49, 90]
  {
  }

  lemma DateTimeCase1Text()
    ensures Ascii("2007-12-24T18:21Z") == DateTimeSyntax(DateSyntax(Unsigned, 2007, 12, 24), TimeSyntax(18, 21, None, Utc)).Text()
  {
    DateTimeCase1Bytes();
    DateTimeCase1Spelling();
  }

  /** Zone `Z`, no seconds. */
  lemma DateTimeCase1()
    ensures ParseDateTime(Ascii("2007-12-24T18:21Z")) == Done([], MakeDateTime(2007, 12, 24, 18, 21, 0, 0))
  {
    DateTimeCase1Text();
    DateTimeCase1Value();
    DateTimeReadsAs(Ascii("2007-12-24T18:21Z"), DateTimeSyntax(DateSyntax(Unsigned, 2007, 12, 24), TimeSyntax(18, 21, None, Utc)));
  }

  lemma DateTimeCase2Value()
    ensures MakeDateTime(2008, 2, 1, 9, 0, 22, 5) == DateTimeSyntax(DateSyntax(Unsigned, 2008, 2, 1), TimeSyntax(9, 0, Some(22), Hours(PlusSign, 5))).Meaning()
  {
  }

  lemma DateTimeCase2Bytes()
    ensures Ascii("2008-02-01T09:00:22+05") == [50, 48, 48, 56, 45, 48, 50, 45, 48, 49, 84, 48, 57, 58, 48, 48, 58, 50, 50, 43, 48, 53]
  {
  }

  lemma DateTimeCase2Spelling()
    ensures DateTimeSyntax(DateSyntax(Unsigned, 2008, 2, 1), TimeSyntax(9, 0, Some(22), Hours(PlusSign, 5))).Text() == [50, 48, 48, 56, 45, 48, 50, 45, 48, 49, 84, 48, 57, 58, 48, 48, 58, 50, 50, 43, 48, 53]
  {
  }

  lemma DateTimeCase2Text()
    ensures Ascii("2008-02-01T09:00:22+05") == DateTimeSyntax(DateSyntax(Unsigned, 2008, 2, 1), TimeSyntax(9, 0, Some(22), Hours(PlusSign, 5))).Text()
  {
    DateTimeCase2Bytes();
    DateTimeCase2Spelling();
  }

  /** Hours-only offset `+05`, with seconds. */
  lemma DateTimeCase2()
    ensures ParseDateTime(Ascii("2008-02-01T09:00:22+05")) == Done([], MakeDateTime(2008, 2, 1, 9, 0, 22, 5))
  {
    DateTimeCase2Text();
    DateTimeCase2Value();
    DateTimeReadsAs(Ascii("2008-02-01T09:00:22+05"), DateTimeSyntax(DateSyntax(Unsigned, 2008, 2, 1), TimeSyntax(9, 0, Some(22), Hours(PlusSign, 5))));
  }

  lemma DateTimeCase3Value()
    ensures MakeDateTime(2009, 1, 1, 12, 0, 0, 1) == DateTimeSyntax(DateSyntax(Unsigned, 2009, 1, 1), TimeSyntax(12, 0, Some(0), HoursMinutes(PlusSign, 1, 0, true))).Meaning()
  {
  }

  lemma DateTimeCase3Bytes()
    ensures Ascii("2009-01-01T12:00:00+01:00") == [50, 48, 48, 57, 45, 48, 49, 45, 48, 49, 84, 49, 50, 58, 48, 48, 58, 48, 48, 43, 48, 49, 58, 48, 48]
  {
  }

  lemma DateTimeCase3Spelling()
    ensures DateTimeSyntax(DateSyntax(Unsigned, 2009, 1, 1), TimeSyntax(12, 0, Some(0), HoursMinutes(PlusSign, 1, 0, true))).Text() == [50, 48, 48, 57, 45, 48, 49, 45, 48, 49, 84, 49, 50, 58, 48, 48, 58, 48, 48, 43, 48, 49, 58, 48, 48]
  {
  }

  lemma DateTimeCase3Text()
    ensures Ascii("2009-01-01T12:00:00+01:00") == DateTimeSyntax(DateSyntax(Unsigned, 2009, 1, 1), TimeSyntax(12, 0, Some(0), HoursMinutes(PlusSign, 1, 0, true))).Text()
  {
    DateTimeCase3Bytes();
    DateTimeCase3Spelling();
  }

  /** Extended offset `+01:00`, with seconds. */
  lemma DateTimeCase3()
    ensures ParseDateTime(Ascii("2009-01-01T12:00:00+01:00")) == Done([], MakeDateTime(2009, 1, 1, 12, 0, 0, 1))
  {
    DateTimeCase3Text();
    DateTimeCase3Value();
    DateTimeReadsAs(Ascii("2009-01-01T12:00:00+01:00"), DateTimeSyntax(DateSyntax(Unsigned, 2009, 1, 1), TimeSyntax(12, 0, Some(0), HoursMinutes(PlusSign, 1, 0, true))));
  }

  lemma DateTimeCase4Value()
    ensures MakeDateTime(2009, 6, 30, 18, 30, 0, 2) == DateTimeSyntax(DateSyntax(Unsigned, 2009, 6, 30), TimeSyntax(18, 30, Some(0), HoursMinutes(PlusSign, 2, 0, true))).Meaning()
  {
  }

  lemma DateTimeCase4Bytes()
    ensures Ascii("2009-06-30T18:30:00+02:00") == [50, 48, 48, 57, 45, 48, 54, 45, 51, 48, 84, 49, 56, 58, 51, 48, 58, 48, 48, 43, 48, 50, 58, 48, 48]
  {
  }

  lemma DateTimeCase4Spelling()
    ensures DateTimeSyntax(DateSyntax(Unsigned, 2009, 6, 30), TimeSyntax(18, 30, Some(0), HoursMinutes(PlusSign, 2, 0, true))).Text() == [50, 48, 48, 57, 45, 48, 54, 45, 51, 48, 84, 49, 56, 58, 51, 48, 58, 48, 48, 43, 48, 50, 58, 48, 48]
  {
  }

  lemma DateTimeCase4Text()
    ensures Ascii("2009-06-30T18:30:00+02:00") == DateTimeSyntax(DateSyntax(Unsigned, 2009, 6, 30), TimeSyntax(18, 30, Some(0), HoursMinutes(PlusSign, 2, 0, true))).Text()
  {
    DateTimeCase4Bytes();
    DateTimeCase4Spelling();
  }

  /** Extended offset `+02:00`, with seconds. */
  lemma DateTimeCase4()
    ensures ParseDateTime(Ascii("2009-06-30T18:30:00+02:00")) == Done([], MakeDateTime(2009, 6, 30, 18, 30, 0, 2))
  {
    DateTimeCase4Text();
    DateTimeCase4Value();
    DateTimeReadsAs(Ascii("2009-06-30T18:30:00+02:00"), DateTimeSyntax(DateSyntax(Unsigned, 2009, 6, 30), TimeSyntax(18, 30, Some(0), HoursMinutes(PlusSign, 2, 0, true))));
  }

  lemma DateTimeCase5Value()
    ensures MakeDateTime(2015, 6, 29, 23, 7, 0, 2) == DateTimeSyntax(DateSyntax(Unsigned, 2015, 6, 29), TimeSyntax(23, 7, None, HoursMinutes(PlusSign, 2, 0, true))).Meaning()
  {
  }

  lemma DateTimeCase5Bytes()
    ensures Ascii("2015-06-29T23:07+02:00") == [50, 48, 49, 53, 45, 48, 54, 45, 50, 57, 84, 50, 51, 58, 48, 55, 43, 48, 50, 58, 48, 48]
  {
  }

  lemma DateTimeCase5Spelling()
    ensures DateTimeSyntax(DateSyntax(Unsigned, 2015, 6, 29), TimeSyntax(23, 7, None, HoursMinutes(PlusSign, 2, 0, true))).Text() == [50, 48, 49, 53, 45, 48, 54, 45, 50, 57, 84, 50, 51, 58, 48, 55, 43, 48, 50, 58, 48, 48]
  {
  }

  lemma DateTimeCase5Text()
    ensures Ascii("2015-06-29T23:07+02:00") == DateTimeSyntax(DateSyntax(Unsigned, 2015, 6, 29), TimeSyntax(23, 7, None, HoursMinutes(PlusSign, 2, 0, true))).Text()
  {
    DateTimeCase5Bytes();
    DateTimeCase5Spelling();
  }

  /** Extended offset `+02:00`, no seconds. */
  lemma DateTimeCase5()
    ensures ParseDateTime(Ascii("2015-06-29T23:07+02:00")) == Done([], MakeDateTime(2015, 6, 29, 23, 7, 0, 2))
  {
    DateTimeCase5Text();
    DateTimeCase5Value();
    DateTimeReadsAs(Ascii("2015-06-29T23:07+02:00"), DateTimeSyntax(DateSyntax(Unsigned, 2015, 6, 29), TimeSyntax(23, 7, None, HoursMinutes(PlusSign, 2, 0, true))));
  }

  lemma DateTimeCase6Value()
    ensures MakeDateTime(2015, 6, 26, 16, 43, 16, 0) == DateTimeSyntax(DateSyntax(Unsigned, 2015, 6, 26), TimeSyntax(16, 43, Some(16), NoZone)).Meaning()
  {
  }

  lemma DateTimeCase6Bytes()
    ensures Ascii("2015-06-26T16:43:16") == [50, 48, 49, 53, 45, 48, 54, 45, 50, 54, 84, 49, 54, 58, 52, 51, 58, 49, 54]
  {
  }

  lemma DateTimeCase6Spelling()
    ensures DateTimeSyntax(DateSyntax(Unsigned, 2015, 6, 26), TimeSyntax(16, 43, Some(16), NoZone)).Text() == [50, 48, 49, 53, 45, 48, 54, 45, 50, 54, 84, 49, 54, 58, 52, 51, 58, 49, 54]
  {
  }

  lemma DateTimeCase6Text()
    ensures Ascii("2015-06-26T16:43:16") == DateTimeSyntax(DateSyntax(Unsigned, 2015, 6, 26), TimeSyntax(16, 43, Some(16), NoZone)).Text()
  {
    DateTimeCase6Bytes();
    DateTimeCase6Spelling();
  }

  /** No zone: offset 0. */
  lemma DateTimeCase6()
    ensures ParseDateTime(Ascii("2015-06-26T16:43:16")) == Done([], MakeDateTime(2015, 6, 26, 16, 43, 16, 0))
  {
    DateTimeCase6Text();
    DateTimeCase6Value();
    DateTimeReadsAs(Ascii("2015-06-26T16:43:16"), DateTimeSyntax(DateSyntax(Unsigned, 2015, 6, 26), TimeSyntax(16, 43, Some(16), NoZone)));
  }

  // ---------------------------------------------------------------------
  // easy_parse_datetime_error: neither input is a success; both are in fact errors

  /** A date-time of letters only is an error. */
  lemma DateTimeNotDigits()
    ensures ParseDateTime(Ascii("ppp")).Error?
  {
  }

  /** Letters where the digits belong are an error. */
  lemma DateTimeLetters()
    ensures ParseDateTime(Ascii("dumd-di-duTmd:iu:m")).Error?
  {
    var s := Ascii("dumd-di-duTmd:iu:m");
    assert s[0] == 100;
    assert TwoDigits(s).Error?;
  }

  // ---------------------------------------------------------------------
  // easy_allows_notallowed: the grammar does no range checking

  lemma TimeUncheckedFieldsBytes()
    ensures Ascii("30:90:90") == [51, 48, 58, 57, 48, 58, 57, 48]
  {
  }

  lemma TimeUncheckedFieldsSpelling()
    ensures TimeSyntax(30, 90, Some(90), NoZone).Text() == [51, 48, 58, 57, 48, 58, 57, 48]
  {
  }

  lemma TimeUncheckedFieldsText()
    ensures Ascii("30:90:90") == TimeSyntax(30, 90, Some(90), NoZone).Text()
  {
    TimeUncheckedFieldsBytes();
    TimeUncheckedFieldsSpelling();
  }

  /** Clock fields out of range are read verbatim. */
  lemma TimeUncheckedFields()
    ensures ParseTime(Ascii("30:90:90")) == Done([], Time(30, 90, 90, 0))
  {
    TimeUncheckedFieldsText();
    TimeReadsAs(Ascii("30:90:90"), TimeSyntax(30, 90, Some(90), NoZone));
  }

  lemma DateUncheckedFieldsBytes()
    ensures Ascii("0000-20-40") == [48, 48, 48, 48, 45, 50, 48, 45, 52, 48]
  {
  }

  lemma DateUncheckedFieldsSpelling()
    ensures DateSyntax(Unsigned, 0, 20, 40).Text() == [48, 48, 48, 48, 45, 50, 48, 45, 52, 48]
  {
  }

  lemma DateUncheckedFieldsText()
    ensures Ascii("0000-20-40") == DateSyntax(Unsigned, 0, 20, 40).Text()
  {
    DateUncheckedFieldsBytes();
    DateUncheckedFieldsSpelling();
  }

  /** Month and day out of range are read verbatim. */
  lemma DateUncheckedFields()
    ensures ParseDate(Ascii("0000-20-40")) == Done([], Date(0, 20, 40))
  {
    DateUncheckedFieldsText();
    DateReadsAs(Ascii("0000-20-40"), DateSyntax(Unsigned, 0, 20, 40));
  }

  // ---------------------------------------------------------------------
  // easy_test_chrono_conversion

  lemma ChronoOutOfRangeBytes()
    ensures Ascii("0000-20-40T30:90:90Z") == [48, 48, 48, 48, 45, 50, 48, 45, 52, 48, 84, 51, 48, 58, 57, 48, 58, 57, 48, 90]
  {
  }

  lemma ChronoOutOfRangeSpelling()
    ensures DateTimeSyntax(DateSyntax(Unsigned, 0, 20, 40), TimeSyntax(30, 90, Some(90), Utc)).Text() == [48, 48, 48, 48, 45, 50, 48, 45, 52, 48, 84, 51, 48, 58, 57, 48, 58, 57, 48, 90]
  {
  }

  lemma ChronoOutOfRangeText()
    ensures Ascii("0000-20-40T30:90:90Z") == DateTimeSyntax(DateSyntax(Unsigned, 0, 20, 40), TimeSyntax(30, 90, Some(90), Utc)).Text()
  {
    ChronoOutOfRangeBytes();
    ChronoOutOfRangeSpelling();
  }

  /** Fields that are no civil date resolve to `None`. */
  lemma ChronoOutOfRange()
    ensures ParseDateTime(Ascii("0000-20-40T30:90:90Z")) == Done([], DateTime(Date(0, 20, 40), Time(30, 90, 90, 0)))
    ensures ToChrono(DateTime(Date(0, 20, 40), Time(30, 90, 90, 0))) == None
  {
    ChronoOutOfRangeText();
    DateTimeReadsAs(Ascii("0000-20-40T30:90:90Z"), DateTimeSyntax(DateSyntax(Unsigned, 0, 20, 40), TimeSyntax(30, 90, Some(90), Utc)));
  }

  /** A valid record at `+00:00` resolves to the same fields at offset 0. */
  lemma ChronoAtUtc()
    ensures ParseDateTime(Ascii("2007-08-31T16:47+00:00")) == Done([], DateTime(Date(2007, 8, 31), Time(16, 47, 0, 0)))
    ensures ToChrono(DateTime(Date(2007, 8, 31), Time(16, 47, 0, 0))) == Some(Timestamp(Date(2007, 8, 31), 16, 47, 0, 0))
  {
    DateTimeCase0Text();
    DateTimeReadsAs(Ascii("2007-08-31T16:47+00:00"), DateTimeSyntax(DateSyntax(Unsigned, 2007, 8, 31), TimeSyntax(16, 47, None, HoursMinutes(PlusSign, 0, 0, true))));
  }

  lemma ChronoWestOfUtcBytes()
    ensures Ascii("2007-08-31T16:47-09:00") == [50, 48, 48, 55, 45, 48, 56, 45, 51, 49, 84, 49, 54, 58, 52, 55, 45, 48, 57, 58, 48, 48]
  {
  }

  lemma ChronoWestOfUtcSpelling()
    ensures DateTimeSyntax(DateSyntax(Unsigned, 2007, 8, 31), TimeSyntax(16, 47, None, HoursMinutes(MinusSign, 9, 0, true))).Text() == [50, 48, 48, 55, 45, 48, 56, 45, 51, 49, 84, 49, 54, 58, 52, 55, 45, 48, 57, 58, 48, 48]
  {
  }

  lemma ChronoWestOfUtcText()
    ensures Ascii("2007-08-31T16:47-09:00") == DateTimeSyntax(DateSyntax(Unsigned, 2007, 8, 31), TimeSyntax(16, 47, None, HoursMinutes(MinusSign, 9, 0, true))).Text()
  {
    ChronoWestOfUtcBytes();
    ChronoWestOfUtcSpelling();
  }

  /** A valid record at `-09:00` resolves to the same fields at offset -9 hours. */
  lemma ChronoWestOfUtc()
    ensures ParseDateTime(Ascii("2007-08-31T16:47-09:00")) == Done([], DateTime(Date(2007, 8, 31), Time(16, 47, 0, -32400)))
    ensures ToChrono(DateTime(Date(2007, 8, 31), Time(16, 47, 0, -32400))) == Some(Timestamp(Date(2007, 8, 31), 16, 47, 0, -9 * 3600))
  {
    ChronoWestOfUtcText();
    DateTimeReadsAs(Ascii("2007-08-31T16:47-09:00"), DateTimeSyntax(DateSyntax(Unsigned, 2007, 8, 31), TimeSyntax(16, 47, None, HoursMinutes(MinusSign, 9, 0, true))));
  }

  // ---------------------------------------------------------------------
  // The two stages together

  /** Any valid timestamp with a four-digit year and a whole-minute offset,
      written out canonically, is read back whole and resolves to itself. */
  lemma ParseThenResolve(ts: Timestamp)
    requires ts.Valid() && -10000 < ts.date.year < 10000 && ts.offset % 60 == 0
    ensures ParseDateTime(FormatDateTime(ts.Record())).Done?
    ensures ParseDateTime(FormatDateTime(ts.Record())).rest == []
    ensures ToChrono(ParseDateTime(FormatDateTime(ts.Record())).value) == Some(ts)
  {
    DateTimeRoundTrip(ts.Record());
  }
}
