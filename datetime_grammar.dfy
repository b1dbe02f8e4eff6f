/** `iso8601::easy::datetime`: a date, the designator `T`, then a time. The
    outcome of either part is passed on unchanged. */
module DateTimeGrammar {
  import opened Bytes
  import opened Records
  import opened Lexing
  import DateGrammar
  import TimeGrammar

  function ParseDateTime(s: seq<byte>): ParseResult<DateTime> {
    match DateGrammar.ParseDate(s)
    case Incomplete => Incomplete
    case Error => Error
    case Done(r, d) => TimePart(r, d)
  }

  /** `T` and the time, once the date is known. */
  function TimePart(s: seq<byte>, date: Date): ParseResult<DateTime> {
    match Tag(s, Designator)
    case Incomplete => Incomplete
    case Error => Error
    case Done(r, _) =>
      match TimeGrammar.ParseTime(r)
      case Incomplete => Incomplete
      case Error => Error
      case Done(r', t) => Done(r', DateTime(date, t))
  }

  /** The concrete syntax of one date-time. */
  datatype DateTimeSyntax = DateTimeSyntax(date: DateGrammar.DateSyntax, time: TimeGrammar.TimeSyntax) {

    predicate WellFormed() {
      date.WellFormed() && time.WellFormed()
    }

    /** The bytes of the date-time, such as `2007-08-31T16:47-09:00`. */
    function Text(): seq<byte>
      requires WellFormed()
    {
      date.Text() + [Designator] + time.Text()
    }

    function Meaning(): DateTime {
      DateTime(date.Meaning(), time.Meaning())
    }
  }

  predicate Spellable(dt: DateTime) {
    DateGrammar.Spellable(dt.date) && TimeGrammar.Spellable(dt.time)
  }

  function FormatDateTime(dt: DateTime): seq<byte>
    requires Spellable(dt)
  {
    DateTimeSyntax(DateGrammar.Canonical(dt.date), TimeGrammar.Canonical(dt.time)).Text()
  }

  // ---------------------------------------------------------------------
  // Successful parses are exactly the spelt date-times

  lemma TimePartText(date: Date, time: TimeGrammar.TimeSyntax, rest: seq<byte>)
    requires time.WellFormed() && TimeGrammar.Stops(rest)
    ensures TimePart([Designator] + time.Text() + rest, date) == Done(rest, DateTime(date, time.Meaning()))
  {
    var u := time.Text() + rest;
    assert [Designator] + time.Text() + rest == [Designator] + u;
    TagText(Designator, u);
    TimeGrammar.ParseTimeText(time, rest);
    TimePartStep([Designator] + u, date);
  }

  /** A well-formed date-time text is read back as the record it spells,
      provided what follows cannot be taken for more of the time. */
  lemma ParseDateTimeText(syn: DateTimeSyntax, rest: seq<byte>)
    requires syn.WellFormed() && TimeGrammar.Stops(rest)
    ensures ParseDateTime(syn.Text() + rest) == Done(rest, syn.Meaning())
  {
    var timePart := [Designator] + syn.time.Text() + rest;
    assert syn.Text() + rest == syn.date.Text() + timePart;
    DateGrammar.ParseDateText(syn.date, timePart);
    TimePartText(syn.date.Meaning(), syn.time, rest);
  }

  /** Decoding the canonical spelling gives the record back. */
  lemma DateTimeRoundTrip(dt: DateTime)
    requires Spellable(dt)
    ensures ParseDateTime(FormatDateTime(dt)) == Done([], dt)
  {
    ParseDateTimeText(DateTimeSyntax(DateGrammar.Canonical(dt.date), TimeGrammar.Canonical(dt.time)), []);
    assert FormatDateTime(dt) + [] == FormatDateTime(dt);
  }

  /** Every successful parse consumed the text of a well-formed date-time
      whose meaning is the returned record. */
  lemma ParseDateTimeSpelt(s: seq<byte>) returns (syn: DateTimeSyntax)
    requires ParseDateTime(s).Done?
    ensures syn.WellFormed()
    ensures s == syn.Text() + ParseDateTime(s).rest && ParseDateTime(s).value == syn.Meaning()
  {
    assert DateGrammar.ParseDate(s).Done?;
    var r1 := DateGrammar.ParseDate(s).rest;
    var d := DateGrammar.ParseDate(s).value;
    ParseDateTimeStep(s);
    var date := DateGrammar.ParseDateSpelt(s);
    var time := TimePartSpelt(r1, d);
    syn := DateTimeSyntax(date, time);
    TextSplit(syn, TimePart(r1, d).rest);
  }

  /** The text of a date-time, split after the date. */
  lemma TextSplit(syn: DateTimeSyntax, rest: seq<byte>)
    requires syn.WellFormed()
    ensures syn.Text() + rest == syn.date.Text() + ([Designator] + syn.time.Text() + rest)
  {
  }

  lemma TimePartSpelt(s: seq<byte>, date: Date) returns (time: TimeGrammar.TimeSyntax)
    requires TimePart(s, date).Done?
    ensures time.WellFormed()
    ensures s == [Designator] + time.Text() + TimePart(s, date).rest
    ensures TimePart(s, date).value == DateTime(date, time.Meaning())
  {
    var r := s[1..];
    assert s == [Designator] + r;
    time := TimeGrammar.ParseTimeSpelt(r);
  }

  // ---------------------------------------------------------------------
  // Streaming: Error is final, Incomplete can still succeed

  /** A rejected input stays rejected however much input follows. */
  lemma ParseDateTimeErrorExtend(s: seq<byte>, t: seq<byte>)
    requires ParseDateTime(s).Error?
    ensures ParseDateTime(s + t).Error?
  {
    if !DateGrammar.ParseDate(s).Incomplete? {
      DateGrammar.ParseDateExtend(s, t);
      if DateGrammar.ParseDate(s).Done? {
        var r := DateGrammar.ParseDate(s).rest;
        TagExtend(r, Designator, t);
        if Tag(r, Designator).Done? {
          TimeGrammar.ParseTimeErrorExtend(r[1..], t);
          assert (r + t)[1..] == r[1..] + t;
        }
      }
    }
  }

  /** `T00:00`: the shortest time part. */
  function MidnightTail(): seq<byte> {
    [Designator] + TimeGrammar.TimeSyntax(0, 0, None, TimeGrammar.NoZone).Text()
  }

  /** A date followed directly by the end of input: `T00:00` completes it. */
  lemma TimePartCompletesEmpty(date: Date)
    ensures TimePart(MidnightTail(), date) == Done([], DateTime(date, Time(0, 0, 0, 0)))
  {
    var time := TimeGrammar.TimeSyntax(0, 0, None, TimeGrammar.NoZone);
    TimePartText(date, time, []);
    assert [Designator] + time.Text() + [] == MidnightTail();
  }

  lemma TimePartStep(s: seq<byte>, date: Date)
    requires |s| > 0 && s[0] == Designator
    ensures TimePart(s, date).Incomplete? <==> TimeGrammar.ParseTime(s[1..]).Incomplete?
    ensures TimePart(s, date).Done? <==> TimeGrammar.ParseTime(s[1..]).Done?
    ensures TimePart(s, date).Done? ==> (TimePart(s, date)
      == Done(TimeGrammar.ParseTime(s[1..]).rest, DateTime(date, TimeGrammar.ParseTime(s[1..]).value)))
  {
  }

  /** After `T`, a cut-off time is completed as the time grammar completes it. */
  lemma TimeAfterDesignatorCompletion(v: seq<byte>, date: Date) returns (w: seq<byte>)
    requires TimeGrammar.ParseTime(v).Incomplete?
    ensures TimePart([Designator] + (v + w), date).Done?
  {
    w := TimeGrammar.ParseTimeCompletes(v);
    TimePartAfter(v + w, date);
  }

  lemma TimePartAfter(v: seq<byte>, date: Date)
    ensures TimePart([Designator] + v, date).Done? <==> TimeGrammar.ParseTime(v).Done?
    ensures TimePart([Designator] + v, date).Incomplete? <==> TimeGrammar.ParseTime(v).Incomplete?
  {
    assert ([Designator] + v)[1..] == v;
  }

  /** Input that completes a cut-off time part. */
  lemma TimePartCompletion(s: seq<byte>, date: Date) returns (w: seq<byte>)
    requires TimePart(s, date).Incomplete?
    ensures TimePart(s + w, date).Done?
  {
    if s == [] {
      w := MidnightTail();
      TimePartCompletesEmpty(date);
      assert s + w == MidnightTail();
    } else {
      w := TimePartCompletionAfter(s, date);
    }
  }

  lemma TimePartCompletionAfter(s: seq<byte>, date: Date) returns (w: seq<byte>)
    requires s != [] && TimePart(s, date).Incomplete?
    ensures TimePart(s + w, date).Done?
  {
    var v := s[1..];
    assert s == [Designator] + v;
    TimePartStep(s, date);
    w := TimeAfterDesignatorCompletion(v, date);
    assert s + w == [Designator] + (v + w);
  }

  /** One step of the date-time grammar once the date has been read. */
  lemma ParseDateTimeStep(s: seq<byte>)
    requires DateGrammar.ParseDate(s).Done?
    ensures ParseDateTime(s) == TimePart(DateGrammar.ParseDate(s).rest, DateGrammar.ParseDate(s).value)
  {
  }

  /** A date that consumed its whole input, followed by `T00:00`. */
  lemma DateThenMidnight(x: seq<byte>)
    requires DateGrammar.ParseDate(x).Done? && DateGrammar.ParseDate(x).rest == []
    ensures ParseDateTime(x + MidnightTail()).Done?
  {
    var date := DateGrammar.ParseDate(x).value;
    DateGrammar.ParseDateExtend(x, MidnightTail());
    assert [] + MidnightTail() == MidnightTail();
    ParseDateTimeStep(x + MidnightTail());
    TimePartCompletesEmpty(date);
  }

  /** A date cut off before its end: complete it and append `T00:00`. */
  lemma DateCutCompletion(s: seq<byte>) returns (t: seq<byte>)
    requires DateGrammar.ParseDate(s).Incomplete?
    ensures ParseDateTime(s + t).Done?
  {
    var w := DateGrammar.ParseDateCompletes(s);
    t := w + MidnightTail();
    DateThenMidnightAfter(s, w);
  }

  lemma DateThenMidnightAfter(s: seq<byte>, w: seq<byte>)
    requires DateGrammar.ParseDate(s + w).Done? && DateGrammar.ParseDate(s + w).rest == []
    ensures ParseDateTime(s + (w + MidnightTail())).Done?
  {
    DateThenMidnight(s + w);
    ConcatAssoc(s, w, MidnightTail());
  }

  /** A whole date followed by a cut-off time part. */
  lemma TimeCutCompletion(s: seq<byte>) returns (t: seq<byte>)
    requires DateGrammar.ParseDate(s).Done?
    requires TimePart(DateGrammar.ParseDate(s).rest, DateGrammar.ParseDate(s).value).Incomplete?
    ensures ParseDateTime(s + t).Done?
  {
    var r := DateGrammar.ParseDate(s).rest;
    var date := DateGrammar.ParseDate(s).value;
    t := TimePartCompletion(r, date);
    DateGrammar.ParseDateExtend(s, t);
    ParseDateTimeStep(s + t);
  }

  /** An incomplete input is the beginning of some date-time: more input can
      turn it into a success. */
  lemma ParseDateTimeCompletes(s: seq<byte>)
    requires ParseDateTime(s).Incomplete?
    ensures exists t :: ParseDateTime(s + t).Done?
  {
    if DateGrammar.ParseDate(s).Incomplete? {
      var t := DateCutCompletion(s);
    } else {
      ParseDateTimeStep(s);
      var t := TimeCutCompletion(s);
    }
  }

  /** `Error` means exactly that no continuation of the input is a date-time. */
  lemma ParseDateTimeErrorIsFinal(s: seq<byte>)
    ensures ParseDateTime(s).Error? <==> forall t :: !ParseDateTime(s + t).Done?
  {
    if ParseDateTime(s).Error? {
      forall t ensures ParseDateTime(s + t).Error? {
        ParseDateTimeErrorExtend(s, t);
      }
    } else if ParseDateTime(s).Done? {
      assert s + [] == s;
    } else {
      ParseDateTimeCompletes(s);
    }
  }

  /** No prefix of a date-time text is an error. */
  lemma DateTimePrefixNotError(syn: DateTimeSyntax, k: nat)
    requires syn.WellFormed() && k <= |syn.Text()|
    ensures !ParseDateTime(syn.Text()[..k]).Error?
  {
    var text := syn.Text();
    var p, t := text[..k], text[k..];
    assert p + t == text;
    ParseDateTimeText(syn, []);
    assert text + [] == text;
    if ParseDateTime(p).Error? {
      ParseDateTimeErrorExtend(p, t);
    }
  }

  /** A prefix of a date-time text that stops inside the date, or before the
      time's `HH:MM` is complete, is incomplete. */
  lemma DateTimePrefixIncomplete(syn: DateTimeSyntax, k: nat)
    requires syn.WellFormed() && k < |syn.date.Text()| + 6
    ensures ParseDateTime(syn.Text()[..k]).Incomplete?
  {
    var dateText := syn.date.Text();
    var timePart := [Designator] + syn.time.Text();
    assert syn.Text() == dateText + timePart;
    if k < |dateText| {
      assert syn.Text()[..k] == dateText[..k];
      DateGrammar.DatePrefixIncomplete(syn.date, k);
    } else {
      var tail := timePart[..k - |dateText|];
      assert syn.Text()[..k] == dateText + tail;
      TimePrefixIncomplete(syn, tail, k - |dateText|);
    }
  }

  /** The date read whole, followed by a time part cut off before `HH:MM`. */
  lemma TimePrefixIncomplete(syn: DateTimeSyntax, tail: seq<byte>, j: nat)
    requires syn.WellFormed() && j < 6 && tail == ([Designator] + syn.time.Text())[..j]
    ensures ParseDateTime(syn.date.Text() + tail).Incomplete?
  {
    DateThenTimePart(syn.date, tail);
    TimePartPrefixIncomplete(syn.time, syn.date.Meaning(), j);
  }

  /** Once a whole date has been read, the rest is a time part. */
  lemma DateThenTimePart(date: DateGrammar.DateSyntax, tail: seq<byte>)
    requires date.WellFormed()
    ensures ParseDateTime(date.Text() + tail) == TimePart(tail, date.Meaning())
  {
    DateGrammar.ParseDateText(date, tail);
    ParseDateTimeStep(date.Text() + tail);
  }

  /** A time part cut off before `HH:MM` is complete is incomplete. */
  lemma TimePartPrefixIncomplete(time: TimeGrammar.TimeSyntax, date: Date, j: nat)
    requires time.WellFormed() && j < 6
    ensures TimePart(([Designator] + time.Text())[..j], date).Incomplete?
  {
    var tail := ([Designator] + time.Text())[..j];
    if tail != [] {
      var v := time.Text()[..j - 1];
      assert tail == [Designator] + v;
      TimeGrammar.TimePrefixNotError(time, j - 1);
      TimePartAfter(v, date);
    }
  }
}
