/** `iso8601::easy::date`: `[+-]?YYYY-MM-DD` read into a `Date`, digits
    returned exactly as written and never range-checked. */
module DateGrammar {
  import opened Bytes
  import opened Records
  import opened Lexing

  /** The concrete syntax of one date: which sign, and the three digit groups. */
  datatype DateSyntax = DateSyntax(sign: SignText, year: nat, month: nat, day: nat) {

    predicate WellFormed() {
      year < 10000 && month < 100 && day < 100
    }

    /** The bytes of the date, such as `-0333-07-11`. */
    function Text(): (r: seq<byte>)
      requires WellFormed()
      ensures |r| == |SignBytes(sign)| + 10
    {
      SignBytes(sign) + Digits4(year) + DateTail(month, day)
    }

    /** The record those bytes stand for. */
    function Meaning(): Date {
      Date(SignFactor(sign) * year, month, day)
    }
  }

  /** `-MM-DD`, the part after the year. */
  function DateTail(month: nat, day: nat): (r: seq<byte>)
    requires month < 100 && day < 100
    ensures |r| == 6
  {
    [Minus] + Digits2(month) + [Minus] + Digits2(day)
  }

  /** The date grammar on a byte stream. An empty input could still become a
      date, so it is incomplete. */
  function ParseDate(s: seq<byte>): ParseResult<Date> {
    if |s| == 0 then Incomplete
    else if SignOf(s[0]) == Unsigned then DateBody(s, Unsigned)
    else DateBody(s[1..], SignOf(s[0]))
  }

  /** `YYYY-MM-DD` after the sign has been read. */
  function DateBody(s: seq<byte>, sign: SignText): ParseResult<Date> {
    match FourDigits(s)
    case Incomplete => Incomplete
    case Error => Error
    case Done(r, y) => MonthDay(r, SignFactor(sign) * y)
  }

  /** `-MM-DD` once the year is known. */
  function MonthDay(s: seq<byte>, year: int): ParseResult<Date> {
    match SepTwo(s, Minus)
    case Incomplete => Incomplete
    case Error => Error
    case Done(r, m) => DayPart(r, year, m)
  }

  /** `-DD` once the year and month are known. */
  function DayPart(s: seq<byte>, year: int, month: nat): ParseResult<Date> {
    match SepTwo(s, Minus)
    case Incomplete => Incomplete
    case Error => Error
    case Done(r, d) => Done(r, Date(year, month, d))
  }

  /** The canonical spelling of a date record whose fields fit the grammar:
      a `-` only for negative years. */
  function FormatDate(d: Date): (r: seq<byte>)
    requires Spellable(d)
  {
    Canonical(d).Text()
  }

  predicate Spellable(d: Date) {
    -10000 < d.year < 10000 && d.month < 100 && d.day < 100
  }

  function Canonical(d: Date): (syn: DateSyntax)
    requires Spellable(d)
    ensures syn.WellFormed() && syn.Meaning() == d
  {
    if d.year < 0 then DateSyntax(MinusSign, -d.year, d.month, d.day)
    else DateSyntax(Unsigned, d.year, d.month, d.day)
  }

  // ---------------------------------------------------------------------
  // Successful parses are exactly the spelt dates

  lemma DayPartText(year: int, month: nat, day: nat, rest: seq<byte>)
    requires day < 100
    ensures DayPart([Minus] + Digits2(day) + rest, year, month) == Done(rest, Date(year, month, day))
  {
    SepTwoText(Minus, day, rest);
  }

  lemma MonthDayText(year: int, month: nat, day: nat, rest: seq<byte>)
    requires month < 100 && day < 100
    ensures MonthDay(DateTail(month, day) + rest, year) == Done(rest, Date(year, month, day))
  {
    var dayPart := [Minus] + Digits2(day) + rest;
    assert DateTail(month, day) + rest == [Minus] + Digits2(month) + dayPart;
    SepTwoText(Minus, month, dayPart);
    DayPartText(year, month, day, rest);
  }

  lemma DateBodyText(syn: DateSyntax, rest: seq<byte>)
    requires syn.WellFormed()
    ensures DateBody(Digits4(syn.year) + DateTail(syn.month, syn.day) + rest, syn.sign) == Done(rest, syn.Meaning())
  {
    var tail := DateTail(syn.month, syn.day) + rest;
    assert Digits4(syn.year) + DateTail(syn.month, syn.day) + rest == Digits4(syn.year) + tail;
    FourDigitsText(syn.year, tail);
    MonthDayText(SignFactor(syn.sign) * syn.year, syn.month, syn.day, rest);
  }

  /** Every well-formed date text is read back as the record it spells,
      whatever follows it; the rest is returned untouched. */
  lemma ParseDateText(syn: DateSyntax, rest: seq<byte>)
    requires syn.WellFormed()
    ensures ParseDate(syn.Text() + rest) == Done(rest, syn.Meaning())
  {
    var body := Digits4(syn.year) + DateTail(syn.month, syn.day) + rest;
    assert syn.Text() + rest == SignBytes(syn.sign) + body;
    DateBodyText(syn, rest);
    if syn.sign == Unsigned {
      assert IsDigit(body[0]);
    } else {
      assert (SignBytes(syn.sign) + body)[1..] == body;
    }
  }

  /** Decoding the canonical spelling gives the record back. */
  lemma DateRoundTrip(d: Date)
    requires Spellable(d)
    ensures ParseDate(FormatDate(d)) == Done([], d)
  {
    ParseDateText(Canonical(d), []);
    assert FormatDate(d) + [] == FormatDate(d);
  }

  lemma MonthDaySpelt(s: seq<byte>, year: int) returns (month: nat, day: nat)
    requires MonthDay(s, year).Done?
    ensures month < 100 && day < 100
    ensures s == DateTail(month, day) + MonthDay(s, year).rest
    ensures MonthDay(s, year).value == Date(year, month, day)
  {
    var r := SepTwo(s, Minus).rest;
    month, day := SepTwo(s, Minus).value, SepTwo(r, Minus).value;
    SepTwoSpelt(s, Minus);
    SepTwoSpelt(r, Minus);
  }

  lemma DateBodySpelt(s: seq<byte>, sign: SignText) returns (syn: DateSyntax)
    requires DateBody(s, sign).Done?
    ensures syn.WellFormed() && syn.sign == sign
    ensures s == Digits4(syn.year) + DateTail(syn.month, syn.day) + DateBody(s, sign).rest
    ensures DateBody(s, sign).value == syn.Meaning()
  {
    var r := FourDigits(s).rest;
    FourDigitsSpelt(s);
    var month, day := MonthDaySpelt(r, SignFactor(sign) * FourDigits(s).value);
    syn := DateSyntax(sign, FourDigits(s).value, month, day);
  }

  /** Every successful parse consumed the text of a well-formed date whose
      meaning is the returned record. */
  lemma ParseDateSpelt(s: seq<byte>) returns (syn: DateSyntax)
    requires ParseDate(s).Done?
    ensures syn.WellFormed()
    ensures s == syn.Text() + ParseDate(s).rest && ParseDate(s).value == syn.Meaning()
  {
    var sign := SignOf(s[0]);
    var body := if sign == Unsigned then s else s[1..];
    assert s == SignBytes(sign) + body;
    syn := DateBodySpelt(body, sign);
  }

  // ---------------------------------------------------------------------
  // Streaming: Error and Done are final, Incomplete can still succeed

  lemma DayPartExtend(s: seq<byte>, year: int, month: nat, t: seq<byte>)
    requires !DayPart(s, year, month).Incomplete?
    ensures DayPart(s + t, year, month) == Extended(DayPart(s, year, month), t)
  {
    SepTwoExtend(s, Minus, t);
  }

  lemma MonthDayExtend(s: seq<byte>, year: int, t: seq<byte>)
    requires !MonthDay(s, year).Incomplete?
    ensures MonthDay(s + t, year) == Extended(MonthDay(s, year), t)
  {
    SepTwoExtend(s, Minus, t);
    if SepTwo(s, Minus).Done? {
      DayPartExtend(SepTwo(s, Minus).rest, year, SepTwo(s, Minus).value, t);
    }
  }

  lemma DateBodyExtend(s: seq<byte>, sign: SignText, t: seq<byte>)
    requires !DateBody(s, sign).Incomplete?
    ensures DateBody(s + t, sign) == Extended(DateBody(s, sign), t)
  {
    FourDigitsExtend(s, t);
    if FourDigits(s).Done? {
      MonthDayExtend(FourDigits(s).rest, SignFactor(sign) * FourDigits(s).value, t);
    }
  }

  /** Reading a non-empty input is reading its body under its sign; appending
      to the input appends to the body. */
  lemma ParseDateSplit(s: seq<byte>, t: seq<byte>)
    requires |s| > 0
    ensures ParseDate(s) == DateBody(if SignOf(s[0]) == Unsigned then s else s[1..], SignOf(s[0]))
    ensures ParseDate(s + t) == DateBody((if SignOf(s[0]) == Unsigned then s else s[1..]) + t, SignOf(s[0]))
  {
    assert (s + t)[0] == s[0];
    assert (s + t)[1..] == s[1..] + t;
  }

  /** An input that was rejected, or that already holds a date, keeps that
      outcome however much input follows. */
  lemma ParseDateExtend(s: seq<byte>, t: seq<byte>)
    requires !ParseDate(s).Incomplete?
    ensures ParseDate(s + t) == Extended(ParseDate(s), t)
  {
    ParseDateSplit(s, t);
    DateBodyExtend(if SignOf(s[0]) == Unsigned then s else s[1..], SignOf(s[0]), t);
  }

  lemma DayPartCompletes(s: seq<byte>, year: int, month: nat)
    requires DayPart(s, year, month).Incomplete?
    ensures DayPart(s + CompleteSep(s, Minus), year, month).Done?
    ensures DayPart(s + CompleteSep(s, Minus), year, month).rest == []
  {
    SepTwoComplete(s, Minus);
  }

  lemma MonthDayCompletes(s: seq<byte>, year: int) returns (t: seq<byte>)
    requires MonthDay(s, year).Incomplete?
    ensures MonthDay(s + t, year).Done? && MonthDay(s + t, year).rest == []
  {
    if SepTwo(s, Minus).Incomplete? {
      var w := CompleteSep(s, Minus);
      var zero := [Minus] + Digits2(0);
      t := w + zero;
      SepTwoComplete(s, Minus);
      SepTwoExtend(s + w, Minus, zero);
      assert s + w + zero == s + (w + zero);
      DayPartText(year, SepTwo(s + w, Minus).value, 0, []);
      assert zero + [] == zero;
      assert MonthDay(s + (w + zero), year).Done?;
    } else {
      var r := SepTwo(s, Minus).rest;
      var w := CompleteSep(r, Minus);
      SepTwoExtend(s, Minus, w);
      DayPartCompletes(r, year, SepTwo(s, Minus).value);
      t := w;
    }
  }

  lemma DateBodyCompletes(s: seq<byte>, sign: SignText) returns (t: seq<byte>)
    requires DateBody(s, sign).Incomplete?
    ensures DateBody(s + t, sign).Done? && DateBody(s + t, sign).rest == []
  {
    if FourDigits(s).Incomplete? {
      var w := Zeros(4 - |s|);
      var tail := DateTail(0, 0);
      t := w + tail;
      FourDigitsComplete(s);
      FourDigitsExtend(s + w, tail);
      assert s + w + tail == s + (w + tail);
      MonthDayText(SignFactor(sign) * FourDigits(s + w).value, 0, 0, []);
      assert tail + [] == tail;
      assert DateBody(s + (w + tail), sign).Done?;
    } else {
      var r := FourDigits(s).rest;
      var year := SignFactor(sign) * FourDigits(s).value;
      t := MonthDayCompletes(r, year);
      FourDigitsExtend(s, t);
    }
  }

  /** An incomplete input is the beginning of some date: more input can turn
      it into a success. */
  lemma ParseDateCompletes(s: seq<byte>) returns (t: seq<byte>)
    requires ParseDate(s).Incomplete?
    ensures ParseDate(s + t).Done? && ParseDate(s + t).rest == []
  {
    if |s| == 0 {
      var syn := DateSyntax(Unsigned, 0, 0, 0);
      ParseDateText(syn, []);
      t := syn.Text();
      assert s + syn.Text() == syn.Text() + [];
    } else {
      var body := if SignOf(s[0]) == Unsigned then s else s[1..];
      ParseDateSplit(s, []);
      t := DateBodyCompletes(body, SignOf(s[0]));
      ParseDateSplit(s, t);
    }
  }

  /** `Error` means exactly that no continuation of the input is a date. */
  lemma ParseDateErrorIsFinal(s: seq<byte>)
    ensures ParseDate(s).Error? <==> forall t :: !ParseDate(s + t).Done?
  {
    if ParseDate(s).Error? {
      forall t ensures ParseDate(s + t).Error? {
        ParseDateExtend(s, t);
      }
    } else if ParseDate(s).Done? {
      assert s + [] == s;
    } else {
      var t := ParseDateCompletes(s);
    }
  }

  /** Every strict prefix of a date text is incomplete: never an error, and
      never a premature success. */
  lemma DatePrefixIncomplete(syn: DateSyntax, k: nat)
    requires syn.WellFormed() && k < |syn.Text()|
    ensures ParseDate(syn.Text()[..k]) == Incomplete
  {
    var text := syn.Text();
    var p, t := text[..k], text[k..];
    assert p + t == text;
    ParseDateText(syn, []);
    assert text + [] == text;
    if !ParseDate(p).Incomplete? {
      ParseDateExtend(p, t);
    }
  }
}
