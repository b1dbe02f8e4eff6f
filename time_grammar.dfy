/** `iso8601::easy::time`: `HH:MM`, an optional `:SS`, and an optional zone
    suffix `Z`, `±HH:MM`, `±HHMM` or `±HH`, read into a `Time`. No field is
    range-checked; missing seconds and a missing zone both read as 0.

    The optional parts follow the streaming rules of the combinators they
    stand for: at the end of the input an optional part is absent, a part
    that does not fit is absent and its bytes stay unconsumed, and a part
    that fits so far but is cut off makes the whole parse `Incomplete`. */
module TimeGrammar {
  import opened Bytes
  import opened Records
  import opened Lexing

  /** The time grammar on a byte stream. */
  function ParseTime(s: seq<byte>): ParseResult<Time> {
    match TwoDigits(s)
    case Incomplete => Incomplete
    case Error => Error
    case Done(r, h) => MinutePart(r, h)
  }

  /** `:MM` once the hour is known. */
  function MinutePart(s: seq<byte>, hour: nat): ParseResult<Time> {
    match SepTwo(s, Colon)
    case Incomplete => Incomplete
    case Error => Error
    case Done(r, m) => SecondPart(r, hour, m)
  }

  /** The optional seconds once hour and minute are known. */
  function SecondPart(s: seq<byte>, hour: nat, minute: nat): ParseResult<Time> {
    match OptSeconds(s)
    case Incomplete => Incomplete
    case Done(r, sec) => ZonePart(r, hour, minute, sec)
  }

  /** The optional zone once the clock fields are known. */
  function ZonePart(s: seq<byte>, hour: nat, minute: nat, second: nat): ParseResult<Time> {
    match OptZone(s)
    case Incomplete => Incomplete
    case Done(r, z) => Done(r, Time(hour, minute, second, z))
  }

  /** `:SS`, or 0 when absent. */
  function OptSeconds(s: seq<byte>): (r: ParseResult<nat>)
    ensures !r.Error?
  {
    if |s| == 0 then Done(s, 0)
    else
      match SepTwo(s, Colon)
      case Incomplete => Incomplete
      case Error => Done(s, 0)
      case Done(r, v) => Done(r, v)
  }

  /** The zone suffix as an offset in seconds east of UTC, or 0 when absent. */
  function OptZone(s: seq<byte>): (r: ParseResult<int>)
    ensures !r.Error?
  {
    if |s| == 0 then Done(s, 0)
    else if s[0] == Zulu then Done(s[1..], 0)
    else if SignOf(s[0]) == Unsigned then Done(s, 0)
    else
      match SignedOffset(s[1..], SignOf(s[0]))
      case Incomplete => Incomplete
      case Error => Done(s, 0)
      case Done(r, z) => Done(r, z)
  }

  /** `HH`, `HH:MM` or `HHMM` after the zone's sign. */
  function SignedOffset(s: seq<byte>, sign: SignText): ParseResult<int> {
    match TwoDigits(s)
    case Incomplete => Incomplete
    case Error => Error
    case Done(r, hh) =>
      match OptZoneMinutes(r)
      case Incomplete => Incomplete
      case Done(r', mm) => Done(r', SignFactor(sign) * (hh * 3600 + mm * 60))
  }

  /** The zone's minutes, `:MM` tried before `MM`, or 0 when absent. */
  function OptZoneMinutes(s: seq<byte>): (r: ParseResult<nat>)
    ensures !r.Error?
  {
    if |s| == 0 then Done(s, 0)
    else
      match SepTwo(s, Colon)
      case Incomplete => Incomplete
      case Done(r, v) => Done(r, v)
      case Error =>
        match TwoDigits(s)
        case Incomplete => Incomplete
        case Error => Done(s, 0)
        case Done(r, v) => Done(r, v)
  }

  // ---------------------------------------------------------------------
  // Concrete syntax

  /** How a zone is written. The sign of an offset is always `+` or `-`. */
  datatype ZoneSyntax =
    | NoZone
    | Utc
    | Hours(sign: SignText, hh: nat)
    | HoursMinutes(sign: SignText, hh: nat, mm: nat, colon: bool)
  {
    predicate WellFormed() {
      match this
      case NoZone => true
      case Utc => true
      case Hours(sign, hh) => sign != Unsigned && hh < 100
      case HoursMinutes(sign, hh, mm, _) => sign != Unsigned && hh < 100 && mm < 100
    }

    function Text(): seq<byte>
      requires WellFormed()
    {
      match this
      case NoZone => []
      case Utc => [Zulu]
      case Hours(sign, hh) => SignBytes(sign) + Digits2(hh)
      case HoursMinutes(sign, hh, mm, colon) =>
        SignBytes(sign) + Digits2(hh) + (if colon then [Colon] else []) + Digits2(mm)
    }

    /** The offset the zone stands for, in seconds east of UTC. */
    function Seconds(): int {
      match this
      case NoZone => 0
      case Utc => 0
      case Hours(sign, hh) => SignFactor(sign) * (hh * 3600)
      case HoursMinutes(sign, hh, mm, _) => SignFactor(sign) * (hh * 3600 + mm * 60)
    }
  }

  /** The concrete syntax of one time of day. */
  datatype TimeSyntax = TimeSyntax(hour: nat, minute: nat, second: Option<nat>, zone: ZoneSyntax) {

    predicate WellFormed() {
      hour < 100 && minute < 100 && (second.Some? ==> second.value < 100) && zone.WellFormed()
    }

    /** The bytes of the time, such as `09:00:22+05`. */
    function Text(): seq<byte>
      requires WellFormed()
    {
      Digits2(hour) + [Colon] + Digits2(minute) + SecondsText(second) + zone.Text()
    }

    function Meaning(): Time {
      Time(hour, minute, if second.Some? then second.value else 0, zone.Seconds())
    }
  }

  function SecondsText(second: Option<nat>): seq<byte>
    requires second.Some? ==> second.value < 100
  {
    if second.Some? then [Colon] + Digits2(second.value) else []
  }

  /** A time record the grammar can spell: two-digit clock fields and an
      offset of whole minutes below 100 hours. */
  predicate Spellable(t: Time) {
    t.hour < 100 && t.minute < 100 && t.second < 100
    && t.tzOffset % 60 == 0 && -360000 < t.tzOffset < 360000
  }

  /** The canonical syntax of a spellable record: seconds always written,
      `Z` for a zero offset and `±HH:MM` otherwise. */
  function Canonical(t: Time): (syn: TimeSyntax)
    requires Spellable(t)
    ensures syn.WellFormed() && syn.Meaning() == t
  {
    var magnitude := if t.tzOffset < 0 then -t.tzOffset else t.tzOffset;
    var zone := if t.tzOffset == 0 then Utc
      else HoursMinutes(if t.tzOffset < 0 then MinusSign else PlusSign, magnitude / 3600, magnitude % 3600 / 60, true);
    TimeSyntax(t.hour, t.minute, Some(t.second), zone)
  }

  function FormatTime(t: Time): seq<byte>
    requires Spellable(t)
  {
    Canonical(t).Text()
  }

  /** Whether input after a time is empty or starts with none of a digit,
      `:`, `Z`, `+` or `-`: then no optional part can take any of it. */
  predicate Stops(rest: seq<byte>) {
    rest == [] || (rest[0] != Colon && rest[0] != Zulu && SignOf(rest[0]) == Unsigned && !IsDigit(rest[0]))
  }

  // ---------------------------------------------------------------------
  // Reading a spelt time back

  lemma OptZoneMinutesAbsent(rest: seq<byte>)
    requires Stops(rest)
    ensures OptZoneMinutes(rest) == Done(rest, 0)
  {
  }

  lemma OptZoneMinutesText(mm: nat, colon: bool, rest: seq<byte>)
    requires mm < 100
    ensures OptZoneMinutes((if colon then [Colon] else []) + Digits2(mm) + rest) == Done(rest, mm)
  {
    if colon {
      SepTwoText(Colon, mm, rest);
    } else {
      assert ([] + Digits2(mm) + rest)[0] == Digits2(mm)[0];
      assert [] + Digits2(mm) + rest == Digits2(mm) + rest;
      TwoDigitsText(mm, rest);
    }
  }

  /** A signed offset `±HH` followed by its optional minutes. */
  lemma SignedZoneText(sign: SignText, hh: nat, minutes: seq<byte>, body: seq<byte>, whole: seq<byte>)
    requires sign != Unsigned && hh < 100
    requires body == Digits2(hh) + minutes
    requires whole == SignBytes(sign) + body
    ensures |whole| > 0 && SignOf(whole[0]) == sign && whole[0] != Zulu
    ensures OptZone(whole) == if SignedOffset(body, sign).Error? then Done(whole, 0) else SignedOffset(body, sign)
    ensures OptZoneMinutes(minutes).Done? ==> (SignedOffset(body, sign)
      == Done(OptZoneMinutes(minutes).rest, SignFactor(sign) * (hh * 3600 + OptZoneMinutes(minutes).value * 60)))
  {
    assert whole[1..] == body;
    TwoDigitsText(hh, minutes);
  }

  lemma OptZoneHoursText(z: ZoneSyntax, rest: seq<byte>)
    requires z.Hours? && z.WellFormed() && Stops(rest)
    ensures OptZone(z.Text() + rest) == Done(rest, z.Seconds())
  {
    var body := Digits2(z.hh) + rest;
    ConcatAssoc(SignBytes(z.sign), Digits2(z.hh), rest);
    SignedZoneText(z.sign, z.hh, rest, body, SignBytes(z.sign) + body);
    OptZoneMinutesAbsent(rest);
  }

  lemma OptZoneHoursMinutesText(z: ZoneSyntax, rest: seq<byte>)
    requires z.HoursMinutes? && z.WellFormed()
    ensures OptZone(z.Text() + rest) == Done(rest, z.Seconds())
  {
    var minutes := (if z.colon then [Colon] else []) + Digits2(z.mm) + rest;
    var body := Digits2(z.hh) + minutes;
    assert z.Text() + rest == SignBytes(z.sign) + body;
    SignedZoneText(z.sign, z.hh, minutes, body, SignBytes(z.sign) + body);
    OptZoneMinutesText(z.mm, z.colon, rest);
  }

  lemma OptZoneText(z: ZoneSyntax, rest: seq<byte>)
    requires z.WellFormed() && Stops(rest)
    ensures OptZone(z.Text() + rest) == Done(rest, z.Seconds())
  {
    match z
    case NoZone =>
      assert z.Text() + rest == rest;
    case Utc =>
      assert (z.Text() + rest)[1..] == rest;
    case Hours(_, _) =>
      OptZoneHoursText(z, rest);
    case HoursMinutes(_, _, _, _) =>
      OptZoneHoursMinutesText(z, rest);
  }

  lemma OptSecondsText(second: Option<nat>, rest: seq<byte>)
    requires second.Some? ==> second.value < 100
    requires rest == [] || rest[0] != Colon
    ensures OptSeconds(SecondsText(second) + rest) == Done(rest, if second.Some? then second.value else 0)
  {
    if second.Some? {
      SepTwoText(Colon, second.value, rest);
    } else {
      assert SecondsText(second) + rest == rest;
    }
  }

  lemma SecondPartText(syn: TimeSyntax, rest: seq<byte>)
    requires syn.WellFormed() && Stops(rest)
    ensures SecondPart(SecondsText(syn.second) + syn.zone.Text() + rest, syn.hour, syn.minute)
      == Done(rest, syn.Meaning())
  {
    var zonePart := syn.zone.Text() + rest;
    assert SecondsText(syn.second) + syn.zone.Text() + rest == SecondsText(syn.second) + zonePart;
    assert zonePart == [] || zonePart[0] != Colon by {
      if syn.zone.Text() != [] {
        assert zonePart[0] == syn.zone.Text()[0];
      }
    }
    OptSecondsText(syn.second, zonePart);
    OptZoneText(syn.zone, rest);
  }

  /** A well-formed time text is read back as the record it spells, provided
      what follows it cannot be taken for more seconds or zone. */
  lemma ParseTimeText(syn: TimeSyntax, rest: seq<byte>)
    requires syn.WellFormed() && Stops(rest)
    ensures ParseTime(syn.Text() + rest) == Done(rest, syn.Meaning())
  {
    var secondPart := SecondsText(syn.second) + syn.zone.Text() + rest;
    var minutePart := [Colon] + Digits2(syn.minute) + secondPart;
    assert syn.Text() + rest == Digits2(syn.hour) + minutePart;
    TwoDigitsText(syn.hour, minutePart);
    SepTwoText(Colon, syn.minute, secondPart);
    SecondPartText(syn, rest);
  }

  /** Decoding the canonical spelling gives the record back. */
  lemma TimeRoundTrip(t: Time)
    requires Spellable(t)
    ensures ParseTime(FormatTime(t)) == Done([], t)
  {
    ParseTimeText(Canonical(t), []);
    assert FormatTime(t) + [] == FormatTime(t);
  }

  // ---------------------------------------------------------------------
  // Every success is a spelt time

  /** The zone's minutes, when present, were written `:MM` or `MM`. */
  lemma OptZoneMinutesSpelt(r: seq<byte>) returns (present: bool, mm: nat, colon: bool)
    requires OptZoneMinutes(r).Done?
    ensures present ==> mm < 100 && OptZoneMinutes(r).value == mm
    ensures present ==> r == (if colon then [Colon] else []) + Digits2(mm) + OptZoneMinutes(r).rest
    ensures !present ==> OptZoneMinutes(r) == Done(r, 0)
  {
    if |r| == 0 || (SepTwo(r, Colon).Error? && TwoDigits(r).Error?) {
      present, mm, colon := false, 0, false;
    } else if SepTwo(r, Colon).Done? {
      present, mm, colon := true, SepTwo(r, Colon).value, true;
      SepTwoSpelt(r, Colon);
    } else {
      present, mm, colon := true, TwoDigits(r).value, false;
      TwoDigitsSpelt(r);
      assert r == [] + Digits2(mm) + OptZoneMinutes(r).rest;
    }
  }

  lemma SignedOffsetSpelt(s: seq<byte>, sign: SignText) returns (z: ZoneSyntax)
    requires sign != Unsigned && SignedOffset(s, sign).Done?
    ensures z.WellFormed() && (z.Hours? || z.HoursMinutes?)
    ensures SignBytes(sign) + s == z.Text() + SignedOffset(s, sign).rest
    ensures SignedOffset(s, sign).value == z.Seconds()
  {
    var hh := TwoDigits(s).value;
    var r := TwoDigits(s).rest;
    TwoDigitsSpelt(s);
    var rest := OptZoneMinutes(r).rest;
    var present, mm, colon := OptZoneMinutesSpelt(r);
    if present {
      z := HoursMinutes(sign, hh, mm, colon);
      assert SignBytes(sign) + s == SignBytes(sign) + Digits2(hh) + (if colon then [Colon] else []) + Digits2(mm) + rest;
    } else {
      z := Hours(sign, hh);
      assert s == Digits2(hh) + rest;
    }
  }

  lemma OptZoneSpelt(s: seq<byte>) returns (z: ZoneSyntax)
    requires OptZone(s).Done?
    ensures z.WellFormed()
    ensures s == z.Text() + OptZone(s).rest && OptZone(s).value == z.Seconds()
  {
    if |s| == 0 || (SignOf(s[0]) == Unsigned && s[0] != Zulu)
      || (SignOf(s[0]) != Unsigned && SignedOffset(s[1..], SignOf(s[0])).Error?) {
      z := NoZone;
    } else if s[0] == Zulu {
      z := Utc;
      assert s == [Zulu] + s[1..];
    } else {
      assert s == SignBytes(SignOf(s[0])) + s[1..];
      z := SignedOffsetSpelt(s[1..], SignOf(s[0]));
    }
  }

  lemma OptSecondsSpelt(s: seq<byte>) returns (second: Option<nat>)
    requires OptSeconds(s).Done?
    ensures second.Some? ==> second.value < 100
    ensures s == SecondsText(second) + OptSeconds(s).rest
    ensures OptSeconds(s).value == if second.Some? then second.value else 0
  {
    if |s| > 0 && SepTwo(s, Colon).Done? {
      second := Some(SepTwo(s, Colon).value);
      SepTwoSpelt(s, Colon);
    } else {
      second := None;
    }
  }

  lemma ZonePartSpelt(s: seq<byte>, hour: nat, minute: nat, second: nat) returns (zone: ZoneSyntax)
    requires ZonePart(s, hour, minute, second).Done?
    ensures zone.WellFormed()
    ensures s == zone.Text() + ZonePart(s, hour, minute, second).rest
    ensures ZonePart(s, hour, minute, second).value == Time(hour, minute, second, zone.Seconds())
  {
    zone := OptZoneSpelt(s);
  }

  lemma SecondPartSpelt(s: seq<byte>, hour: nat, minute: nat) returns (second: Option<nat>, zone: ZoneSyntax)
    requires SecondPart(s, hour, minute).Done?
    ensures (second.Some? ==> second.value < 100) && zone.WellFormed()
    ensures s == SecondsText(second) + zone.Text() + SecondPart(s, hour, minute).rest
    ensures SecondPart(s, hour, minute).value
      == Time(hour, minute, if second.Some? then second.value else 0, zone.Seconds())
  {
    var r, sec := OptSeconds(s).rest, OptSeconds(s).value;
    SecondPartStep(s, hour, minute);
    second := OptSecondsSpelt(s);
    zone := ZonePartSpelt(r, hour, minute, sec);
    var rest := ZonePart(r, hour, minute, sec).rest;
    ConcatAssoc(SecondsText(second), zone.Text(), rest);
  }

  lemma SecondPartStep(s: seq<byte>, hour: nat, minute: nat)
    requires OptSeconds(s).Done?
    ensures SecondPart(s, hour, minute) == ZonePart(OptSeconds(s).rest, hour, minute, OptSeconds(s).value)
  {
  }

  lemma MinutePartSpelt(s: seq<byte>, hour: nat) returns (minute: nat, second: Option<nat>, zone: ZoneSyntax)
    requires MinutePart(s, hour).Done?
    ensures minute < 100 && (second.Some? ==> second.value < 100) && zone.WellFormed()
    ensures s == [Colon] + Digits2(minute) + SecondsText(second) + zone.Text() + MinutePart(s, hour).rest
    ensures MinutePart(s, hour).value
      == Time(hour, minute, if second.Some? then second.value else 0, zone.Seconds())
  {
    var r := SepTwo(s, Colon).rest;
    minute := SepTwo(s, Colon).value;
    SepTwoSpelt(s, Colon);
    second, zone := SecondPartSpelt(r, hour, minute);
    var rest := MinutePart(s, hour).rest;
    assert s == [Colon] + Digits2(minute) + (SecondsText(second) + zone.Text() + rest);
  }

  /** Every successful parse consumed the text of a well-formed time whose
      meaning is the returned record. */
  lemma ParseTimeSpelt(s: seq<byte>) returns (syn: TimeSyntax)
    requires ParseTime(s).Done?
    ensures syn.WellFormed()
    ensures s == syn.Text() + ParseTime(s).rest && ParseTime(s).value == syn.Meaning()
  {
    var hour := TwoDigits(s).value;
    var r := TwoDigits(s).rest;
    TwoDigitsSpelt(s);
    var minute, second, zone := MinutePartSpelt(r, hour);
    syn := TimeSyntax(hour, minute, second, zone);
    var rest := ParseTime(s).rest;
    assert s == Digits2(hour) + ([Colon] + Digits2(minute) + SecondsText(second) + zone.Text() + rest);
  }

  // ---------------------------------------------------------------------
  // Streaming: Error is final, Incomplete can still succeed

  /** A rejected input stays rejected however much input follows. */
  lemma ParseTimeErrorExtend(s: seq<byte>, t: seq<byte>)
    requires ParseTime(s).Error?
    ensures ParseTime(s + t).Error?
  {
    TwoDigitsExtend(s, t);
    if TwoDigits(s).Done? {
      SepTwoExtend(TwoDigits(s).rest, Colon, t);
    }
  }

  lemma OptSecondsExtend(s: seq<byte>, t: seq<byte>)
    requires |s| > 0 && !OptSeconds(s).Incomplete?
    ensures OptSeconds(s + t) == Extended(OptSeconds(s), t)
  {
    SepTwoExtend(s, Colon, t);
  }

  lemma OptZoneMinutesCompletes(s: seq<byte>) returns (w: seq<byte>)
    requires OptZoneMinutes(s).Incomplete?
    ensures OptZoneMinutes(s + w).Done?
  {
    if SepTwo(s, Colon).Incomplete? {
      w := CompleteSep(s, Colon);
      SepTwoComplete(s, Colon);
    } else {
      w := Zeros(2 - |s|);
      SepTwoExtend(s, Colon, w);
      TwoDigitsComplete(s);
    }
  }

  lemma SignedOffsetCompletes(s: seq<byte>, sign: SignText) returns (w: seq<byte>)
    requires SignedOffset(s, sign).Incomplete?
    ensures SignedOffset(s + w, sign).Done?
  {
    if TwoDigits(s).Incomplete? {
      w := Zeros(2 - |s|);
      TwoDigitsComplete(s);
    } else {
      var r := TwoDigits(s).rest;
      w := OptZoneMinutesCompletes(r);
      TwoDigitsExtend(s, w);
    }
  }

  lemma OptZoneCompletes(s: seq<byte>) returns (w: seq<byte>)
    requires OptZone(s).Incomplete?
    ensures |s| > 0
    ensures OptZone(s + w).Done?
  {
    var body := s[1..];
    assert s == [s[0]] + body;
    w := SignedOffsetCompletes(body, SignOf(s[0]));
    OptZoneSigned(s[0], body + w);
    assert s + w == [s[0]] + (body + w);
  }

  /** The zone after a sign byte is the signed offset, or absent when that
      does not fit. */
  lemma OptZoneSigned(b: byte, body: seq<byte>)
    requires SignOf(b) != Unsigned
    ensures OptZone([b] + body).Done? <==> !SignedOffset(body, SignOf(b)).Incomplete?
  {
    assert ([b] + body)[1..] == body;
  }

  lemma SecondPartCompletes(s: seq<byte>, hour: nat, minute: nat) returns (w: seq<byte>)
    requires SecondPart(s, hour, minute).Incomplete?
    ensures SecondPart(s + w, hour, minute).Done?
  {
    if OptSeconds(s).Incomplete? {
      w := CompleteSep(s, Colon);
      SepTwoComplete(s, Colon);
      assert OptSeconds(s + w).Done? && OptSeconds(s + w).rest == [];
    } else {
      var r := OptSeconds(s).rest;
      w := OptZoneCompletes(r);
      assert |s| > 0;
      OptSecondsExtend(s, w);
    }
  }

  lemma MinutePartCompletes(s: seq<byte>, hour: nat) returns (w: seq<byte>)
    requires MinutePart(s, hour).Incomplete?
    ensures MinutePart(s + w, hour).Done?
  {
    if SepTwo(s, Colon).Incomplete? {
      w := CompleteSep(s, Colon);
      SepTwoComplete(s, Colon);
    } else {
      var r := SepTwo(s, Colon).rest;
      w := SecondPartCompletes(r, hour, SepTwo(s, Colon).value);
      SepTwoExtend(s, Colon, w);
    }
  }

  /** An incomplete input is the beginning of some time: more input can turn
      it into a success. */
  lemma ParseTimeCompletes(s: seq<byte>) returns (t: seq<byte>)
    requires ParseTime(s).Incomplete?
    ensures ParseTime(s + t).Done?
  {
    if TwoDigits(s).Incomplete? {
      var w := Zeros(2 - |s|);
      var minute := [Colon] + Digits2(0);
      TwoDigitsComplete(s);
      TwoDigitsExtend(s + w, minute);
      t := w + minute;
      assert s + w + minute == s + t;
      SepTwoText(Colon, 0, []);
      assert minute + [] == minute;
    } else {
      var r := TwoDigits(s).rest;
      t := MinutePartCompletes(r, TwoDigits(s).value);
      TwoDigitsExtend(s, t);
    }
  }

  /** `Error` means exactly that no continuation of the input is a time. */
  lemma ParseTimeErrorIsFinal(s: seq<byte>)
    ensures ParseTime(s).Error? <==> forall t :: !ParseTime(s + t).Done?
  {
    if ParseTime(s).Error? {
      forall t ensures ParseTime(s + t).Error? {
        ParseTimeErrorExtend(s, t);
      }
    } else if ParseTime(s).Done? {
      assert s + [] == s;
    } else {
      var t := ParseTimeCompletes(s);
    }
  }

  /** No prefix of a time text is an error, and one shorter than `HH:MM` is
      incomplete. */
  lemma TimePrefixNotError(syn: TimeSyntax, k: nat)
    requires syn.WellFormed() && k <= |syn.Text()|
    ensures !ParseTime(syn.Text()[..k]).Error?
    ensures k < 5 ==> ParseTime(syn.Text()[..k]).Incomplete?
  {
    var text := syn.Text();
    var p, t := text[..k], text[k..];
    assert p + t == text;
    ParseTimeText(syn, []);
    assert text + [] == text;
    if ParseTime(p).Error? {
      ParseTimeErrorExtend(p, t);
    }
  }
}
