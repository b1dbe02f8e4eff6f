# iso8601 `easy` API: a verified model

This project models the "easy" parsing API of the Rust `iso8601` crate as its
test suite `tests/easy.rs` pins it down. Four stages are modelled, each a pure
function:

- **Date grammar** (`DateGrammar.ParseDate`, `easy::date`) reads an optional
  sign, four year digits, `-MM` and `-DD` into a `Date`. The fields are taken
  verbatim and no range is checked.
- **Time grammar** (`TimeGrammar.ParseTime`, `easy::time`) reads `HH:MM`, then
  optional `:SS`, then an optional zone. The zone can be `Z`, `±HH:MM`, `±HHMM`
  or `±HH`. The result is a `Time` whose offset is in seconds east of UTC.
  Missing seconds and a missing zone both read as 0.
- **Date-time grammar** (`DateTimeGrammar.ParseDateTime`, `easy::datetime`)
  reads a date, `T` and a time.
- **Calendar resolver** (`CalendarResolver.ToChrono`, `DateTime::to_chrono`)
  accepts a record only when its fields are a real proleptic Gregorian date,
  a time of day, and an offset chrono's `FixedOffset::east` accepts. It then
  returns a timestamp carrying exactly those fields and that offset. Any
  other record gives `None`.

Every parser returns a streaming three-way result, as `nom::IResult` does:

- `Done(rest, value)` is a success that leaves `rest` unconsumed.
- `Incomplete` means the input ended while everything seen so far still fits.
- `Error` means a byte did not fit.

Optional parts (seconds, zone, zone minutes) behave as follows:

- A part that does not fit is absent, and its bytes stay unconsumed, as with
  nom's `opt!`.
- A part that fits but is cut off makes the whole parse `Incomplete`, as
  with `opt!`.
- At the end of the input an optional part is absent. This is the model's
  own rule, not `opt!`'s, which would pass the sub-parser's `Incomplete`
  through. `tests/easy.rs:25` and `tests/easy.rs:48` require it: `16:43`
  and `2015-06-26T16:43:16` are read whole.

Each grammar has a concrete-syntax datatype with `WellFormed`, `Text` and
`Meaning` members. The general lemmas prove three things about each parser:

- It reads every well-formed text back as its meaning.
- Every success consumed such a text.
- `Error` is final, and `Incomplete` can always still succeed.

Module `EasyTests` states each assertion of `tests/easy.rs` as a lemma about
the model.

Files:

- `bytes.dfy`: octets and digit spelling.
- `records.dfy`: the `Date`, `Time` and `DateTime` records.
- `lexing.dfy`: the parse result and the fixed-width tokens.
- `date_grammar.dfy`, `time_grammar.dfy` and `datetime_grammar.dfy`: the
  three grammars.
- `resolver.dfy`: the calendar stage, with day numbers and instants.
- `easy_tests.dfy`: the test vectors.

The parsers and the resolver are modelled from the behaviour `tests/easy.rs`
asserts; where those tests are silent, the model makes the choices listed
under "## Left out".

## Model

| member | source | states |
|---|---|---|
| DateGrammar.ParseDateText | tests/easy.rs:14-15 | a well-formed date text (sign, four year digits, `-MM-DD`) followed by anything is read as exactly its fields, and what follows is left unconsumed |
| DateGrammar.ParseDateSpelt | tests/easy.rs:14-15 | every successful date parse consumed the text of a well-formed date syntax, and the value is that syntax's meaning |
| DateGrammar.DateRoundTrip | tests/easy.rs:14-15 | the canonical spelling of any date with a four-digit year and two-digit month and day is read back whole as that date |
| DateGrammar.Canonical | tests/easy.rs:14-15 | the canonical syntax of a spellable date is well-formed and means that date |
| DateGrammar.DatePrefixIncomplete | tests/easy.rs:17 | every proper prefix of a well-formed date text is `Incomplete` |
| DateGrammar.ParseDateExtend | tests/easy.rs:17-19 | a decided date outcome (`Done` or `Error`) stays the same when more input is appended; `Done` keeps the extra input in its rest |
| DateGrammar.ParseDateCompletes | tests/easy.rs:17 | every `Incomplete` date input can be extended to a complete date that consumes all input |
| DateGrammar.ParseDateErrorIsFinal | tests/easy.rs:17-19 | a date input is `Error` exactly when no continuation of it parses |
| TimeGrammar.ParseTimeText | tests/easy.rs:24-25 | a well-formed time text, followed by a rest that is empty or does not start with a digit, `:`, `Z`, `+` or `-`, is read as its clock fields; missing seconds read as 0 and the zone as its offset in seconds |
| TimeGrammar.OptZoneText | tests/easy.rs:42-48 | the zone suffixes `Z`, `±HH`, `±HH:MM` and `±HHMM` read as offset `sign * (hh * 3600 + mm * 60)`, and `Z` or no suffix reads as 0 |
| TimeGrammar.ParseTimeSpelt | tests/easy.rs:24-25 | every successful time parse consumed the text of a well-formed time syntax, and the value is its meaning |
| TimeGrammar.OptZoneSpelt | tests/easy.rs:42-48 | every zone the grammar accepts was written as no zone, `Z` or a signed offset, and the offset read is that zone's seconds |
| TimeGrammar.TimeRoundTrip | tests/easy.rs:24-25 | the canonical spelling of any time with two-digit fields and a whole-minute offset under 100 hours is read back whole as that time |
| TimeGrammar.Canonical | tests/easy.rs:24-25 | the canonical syntax of a spellable time is well-formed and means that time |
| TimeGrammar.TimePrefixNotError | tests/easy.rs:27 | no prefix of a well-formed time text is an error, and a prefix shorter than `HH:MM` is `Incomplete` |
| TimeGrammar.ParseTimeErrorExtend | tests/easy.rs:28-29 | a time input that is an error stays an error whatever follows |
| TimeGrammar.ParseTimeCompletes | tests/easy.rs:27 | every `Incomplete` time input can be extended to a successful parse |
| TimeGrammar.ParseTimeErrorIsFinal | tests/easy.rs:27-29 | a time input is `Error` exactly when no continuation of it parses |
| DateTimeGrammar.ParseDateTimeText | tests/easy.rs:51-52 | a well-formed date text, `T` and a well-formed time text, followed by a rest that is empty or does not start with a digit, `:`, `Z`, `+` or `-`, is read as the date-time it spells |
| DateTimeGrammar.ParseDateTimeSpelt | tests/easy.rs:51-52 | every successful date-time parse consumed the text of a well-formed date-time syntax, and the value is its meaning |
| DateTimeGrammar.DateTimeRoundTrip | tests/easy.rs:51-52 | the canonical spelling of any spellable date-time is read back whole as that date-time |
| DateTimeGrammar.ParseDateTimeErrorExtend | tests/easy.rs:63-65 | a date-time input that is an error stays an error whatever follows |
| DateTimeGrammar.ParseDateTimeCompletes | tests/easy.rs:63-65 | every `Incomplete` date-time input has a continuation that parses |
| DateTimeGrammar.ParseDateTimeErrorIsFinal | tests/easy.rs:63-65 | a date-time input is `Error` exactly when no continuation of it parses |
| DateTimeGrammar.DateTimePrefixNotError | tests/easy.rs:63-65 | no prefix of a well-formed date-time text is an error |
| DateTimeGrammar.DateTimePrefixIncomplete | tests/easy.rs:63-65 | a prefix of a well-formed date-time text that stops inside the date, or before the time's `HH:MM` is complete, is `Incomplete` |
| CalendarResolver.DaysInMonth | tests/easy.rs:77-79 | month lengths are 28 to 31 days; February has 29 days in a leap year and 28 otherwise; April, June, September and November have 30; January, March, May, July, August, October and December have 31 |
| CalendarResolver.ToChrono | tests/easy.rs:77-91 | the result is `Some` exactly when the record is resolvable; it is then a valid timestamp whose fields and offset are those of the record |
| CalendarResolver.YearStep | tests/easy.rs:77-79 | consecutive years start as many days apart as the earlier year has under the leap rule |
| CalendarResolver.MonthsFillYear | tests/easy.rs:77-79 | the twelve month lengths add up to the year's length |
| CalendarResolver.DaysBeforeYearIncreasing | tests/easy.rs:77-79 | each year starts after all days of every earlier year |
| CalendarResolver.DaysBeforeMonthIncreasing | tests/easy.rs:77-79 | each month starts after all days of every earlier month of the same year |
| CalendarResolver.NextDay | tests/easy.rs:77-79 | the day after a valid date, rolling over month and year, is again valid below the last year |
| CalendarResolver.DayNumberNext | tests/easy.rs:84-85 | the day after a valid date has day number one more |
| CalendarResolver.DayNumberInYear | tests/easy.rs:84-85 | a valid date's day number lies within its own year's span |
| CalendarResolver.DayNumberOrder | tests/easy.rs:84-85 | an earlier valid date has a smaller day number |
| CalendarResolver.DayNumberInjective | tests/easy.rs:84-85 | two valid dates with the same day number are the same date |
| CalendarResolver.InstantDeterminesTimestamp | tests/easy.rs:85 | two valid timestamps at the same offset denote the same instant exactly when they are equal, so comparing the fields is comparing the instants |
| CalendarResolver.OffsetShiftsInstant | tests/easy.rs:90-91 | moving a timestamp's fields to another offset shifts its instant by the difference of the offsets, so the instant is unchanged only when the offsets agree |
| EasyTests.DateWhole | tests/easy.rs:14 | `2015-06-26` is read whole as year 2015, month 6, day 26 |
| EasyTests.DateNegativeYear | tests/easy.rs:15 | `-0333-07-11` is read whole as year -333, month 7, day 11 |
| EasyTests.DateCutOff | tests/easy.rs:17 | `201` is an incomplete date |
| EasyTests.DateWrongSeparator | tests/easy.rs:18 | `2015p00p00` is a date error |
| EasyTests.DateNotDigits | tests/easy.rs:19 | `pppp` is a date error |
| EasyTests.TimeWithSeconds | tests/easy.rs:24 | `16:43:16` is read whole as 16:43:16 at offset 0 |
| EasyTests.TimeWithoutSeconds | tests/easy.rs:25 | `16:43` is read whole as 16:43:00 at offset 0 |
| EasyTests.TimeCutOff | tests/easy.rs:27 | `20:` is an incomplete time |
| EasyTests.TimeWrongSeparator | tests/easy.rs:28 | `20p42p16` is a time error |
| EasyTests.TimeNotDigits | tests/easy.rs:29 | `pppp` is a time error |
| EasyTests.MakeDateTime | tests/easy.rs:34-39 | the test's date-time carries the given date and clock fields verbatim, and its offset in seconds is the given whole hours times 3600 |
| EasyTests.DateTimeCase0 | tests/easy.rs:42 | `2007-08-31T16:47+00:00` is read whole as `make_datetime` of its row |
| EasyTests.DateTimeCase1 | tests/easy.rs:43 | `2007-12-24T18:21Z` is read whole as `make_datetime` of its row |
| EasyTests.DateTimeCase2 | tests/easy.rs:44 | `2008-02-01T09:00:22+05` is read whole as `make_datetime` of its row, offset 5 hours |
| EasyTests.DateTimeCase3 | tests/easy.rs:45 | `2009-01-01T12:00:00+01:00` is read whole as `make_datetime` of its row |
| EasyTests.DateTimeCase4 | tests/easy.rs:46 | `2009-06-30T18:30:00+02:00` is read whole as `make_datetime` of its row |
| EasyTests.DateTimeCase5 | tests/easy.rs:47 | `2015-06-29T23:07+02:00` is read whole as `make_datetime` of its row |
| EasyTests.DateTimeCase6 | tests/easy.rs:48 | `2015-06-26T16:43:16` is read whole as `make_datetime` of its row, offset 0 |
| EasyTests.DateTimeNotDigits | tests/easy.rs:59 | `ppp` is a date-time error, so not a success |
| EasyTests.DateTimeLetters | tests/easy.rs:60 | `dumd-di-duTmd:iu:m` is a date-time error, so not a success |
| EasyTests.TimeUncheckedFields | tests/easy.rs:71 | `30:90:90` is read whole with exactly those fields |
| EasyTests.DateUncheckedFields | tests/easy.rs:72 | `0000-20-40` is read whole with exactly those fields |
| EasyTests.ChronoOutOfRange | tests/easy.rs:77-79 | `0000-20-40T30:90:90Z` parses, and its record resolves to `None` |
| EasyTests.ChronoAtUtc | tests/easy.rs:82-85 | `2007-08-31T16:47+00:00` resolves to 2007-08-31 16:47:00 at offset 0 |
| EasyTests.ChronoWestOfUtc | tests/easy.rs:88-91 | `2007-08-31T16:47-09:00` resolves to 2007-08-31 16:47:00 at offset -9 * 3600 |
| EasyTests.ParseThenResolve | tests/easy.rs:82-91 | a valid timestamp with a four-digit year and a whole-minute offset, written out canonically, is read back whole and resolves to itself |

## Left out

- Untested behaviour: where `tests/easy.rs` is silent, the model makes the
  choices below.
- Streaming details: the model's `Incomplete` is exact. A byte that cannot
  fit is an `Error` at once, so `2p` is an error. nom's `take!`-first digit
  groups would report `Incomplete` there. No test can tell the two apart.
- Years: a year is exactly four digits with an optional sign. Longer
  (expanded) years are left out.
- Untested forms: the no-colon zone `±HHMM` and the sign applying to the
  zone's minutes are kept as small extensions. No test exercises them.
- Hour 24: the resolver rejects hour 24, as chrono's `and_hms_opt` does.
- `nom::IResult` details: `Needed` sizes and `ErrorKind` values are not
  modelled. A three-constructor datatype stands for `IResult`.
- chrono internals: chrono's types are not modelled. The resolver returns
  an `Option` of a fields-plus-offset record.
- CalendarResolver.ToChrono: offsets that `FixedOffset::east` would refuse
  with a panic give `None` here, and `LocalResult::None` is also `None`.
- CalendarResolver.Timestamp: equality is structural. chrono compares
  `DateTime<FixedOffset>` values by instant, and
  `CalendarResolver.InstantDeterminesTimestamp` relates the two at a common
  offset. The lemmas for lines 85 and 91 therefore state field-by-field
  equality, which is stronger than instant equality.
- Year range: chrono's years are taken as -262144 to 262143. The bounds only
  decide which years resolve, and no test reaches them.
- Integer widths: `i32` and `u32` are modelled as unbounded integers. Four-
  and two-digit fields cannot overflow them, and neither can `tz_offset*3600`
  in `make_datetime` for the rows of `tests/easy.rs:42-48`, whose offsets are
  at most 5 hours.
- Bytes.Ascii: characters are mapped to their code modulo 256. That is
  exact for ASCII, which every test literal is.
- Test harness: `#[test]`, the assertion macros, `extern crate` and the
  loops over fixed tables are left out. Each table row is its own lemma.
