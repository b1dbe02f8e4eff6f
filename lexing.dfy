/** The three-way parse outcome and the fixed-width tokens every grammar is
    built from: one expected byte, two digits, four digits, and a separator
    followed by two digits.

    Each token is a streaming parser: it answers `Incomplete` only when the
    input ends while every byte seen so far still fits, and `Error` as soon as
    a byte does not fit. */
module Lexing {
  import opened Bytes

  /** `nom::IResult` as the tests use it: success with the unconsumed input,
      "need more input", or "this input can never match". */
  datatype ParseResult<+T> = Done(rest: seq<byte>, value: T) | Incomplete | Error

  /** What a decided outcome becomes once `t` is appended to the input. */
  function Extended<T>(r: ParseResult<T>, t: seq<byte>): ParseResult<T> {
    match r
    case Done(rest, v) => Done(rest + t, v)
    case _ => r
  }

  /** How a sign is written: not at all, `+` or `-`. */
  datatype SignText = Unsigned | PlusSign | MinusSign

  function SignBytes(sign: SignText): (r: seq<byte>)
    ensures |r| == if sign == Unsigned then 0 else 1
  {
    match sign
    case Unsigned => []
    case PlusSign => [Plus]
    case MinusSign => [Minus]
  }

  function SignFactor(sign: SignText): int {
    if sign == MinusSign then -1 else 1
  }

  /** The sign a leading byte spells; any other byte means no sign was written. */
  function SignOf(b: byte): (sign: SignText)
    ensures sign == MinusSign <==> b == Minus
    ensures sign == PlusSign <==> b == Plus
  {
    if b == Minus then MinusSign else if b == Plus then PlusSign else Unsigned
  }

  /** One expected byte. */
  function Tag(s: seq<byte>, c: byte): (r: ParseResult<()>)
    ensures r.Done? <==> |s| > 0 && s[0] == c
    ensures r.Done? ==> r.rest == s[1..]
    ensures r.Incomplete? <==> s == []
  {
    if |s| == 0 then Incomplete
    else if s[0] == c then Done(s[1..], ())
    else Error
  }

  /** Exactly two decimal digits. */
  function TwoDigits(s: seq<byte>): (r: ParseResult<nat>)
    ensures r.Done? ==> r.value < 100 && |s| >= 2 && r.rest == s[2..]
    ensures r.Incomplete? ==> |s| < 2
  {
    if |s| == 0 then Incomplete
    else if !IsDigit(s[0]) then Error
    else if |s| == 1 then Incomplete
    else if !IsDigit(s[1]) then Error
    else Done(s[2..], 10 * DigitValue(s[0]) + DigitValue(s[1]))
  }

  /** Exactly four decimal digits, read as one number. */
  function FourDigits(s: seq<byte>): (r: ParseResult<nat>)
    ensures r.Done? ==> r.value < 10000 && |s| >= 4 && r.rest == s[4..]
    ensures r.Incomplete? ==> |s| < 4
  {
    match TwoDigits(s)
    case Incomplete => Incomplete
    case Error => Error
    case Done(r1, hi) =>
      match TwoDigits(r1)
      case Incomplete => Incomplete
      case Error => Error
      case Done(r2, lo) => Done(r2, 100 * hi + lo)
  }

  /** A separator byte followed by two digits, such as `-06` or `:43`. */
  function SepTwo(s: seq<byte>, sep: byte): (r: ParseResult<nat>)
    ensures r.Done? ==> r.value < 100 && |s| >= 3 && r.rest == s[3..]
    ensures r.Incomplete? ==> |s| < 3
  {
    match Tag(s, sep)
    case Incomplete => Incomplete
    case Error => Error
    case Done(r1, _) =>
      match TwoDigits(r1)
      case Incomplete => Incomplete
      case Error => Error
      case Done(r2, v) => Done(r2, v)
  }

  // ---------------------------------------------------------------------
  // Spelling a value and reading it back

  /** The bytes a successful token consumed spell its value. */
  lemma TwoDigitsSpelt(s: seq<byte>)
    requires TwoDigits(s).Done?
    ensures s == Digits2(TwoDigits(s).value) + TwoDigits(s).rest
  {
    assert s == s[..2] + s[2..];
  }

  lemma FourDigitsSpelt(s: seq<byte>)
    requires FourDigits(s).Done?
    ensures s == Digits4(FourDigits(s).value) + FourDigits(s).rest
  {
    var hi := TwoDigits(s).value;
    var r1 := TwoDigits(s).rest;
    var lo := TwoDigits(r1).value;
    TwoDigitsSpelt(s);
    TwoDigitsSpelt(r1);
    var v := 100 * hi + lo;
    assert v / 100 == hi && v % 100 == lo;
  }

  lemma SepTwoSpelt(s: seq<byte>, sep: byte)
    requires SepTwo(s, sep).Done?
    ensures s == [sep] + Digits2(SepTwo(s, sep).value) + SepTwo(s, sep).rest
  {
    TwoDigitsSpelt(s[1..]);
  }

  lemma TagText(c: byte, rest: seq<byte>)
    ensures Tag([c] + rest, c) == Done(rest, ())
  {
    assert ([c] + rest)[1..] == rest;
  }

  lemma TwoDigitsText(v: nat, rest: seq<byte>)
    requires v < 100
    ensures TwoDigits(Digits2(v) + rest) == Done(rest, v)
  {
    var s := Digits2(v) + rest;
    assert s[0] == Digits2(v)[0] && s[1] == Digits2(v)[1];
    assert s[2..] == rest;
  }

  lemma FourDigitsText(v: nat, rest: seq<byte>)
    requires v < 10000
    ensures FourDigits(Digits4(v) + rest) == Done(rest, v)
  {
    var s := Digits4(v) + rest;
    assert s == Digits2(v / 100) + (Digits2(v % 100) + rest);
    TwoDigitsText(v / 100, Digits2(v % 100) + rest);
    TwoDigitsText(v % 100, rest);
  }

  lemma SepTwoText(sep: byte, v: nat, rest: seq<byte>)
    requires v < 100
    ensures SepTwo([sep] + Digits2(v) + rest, sep) == Done(rest, v)
  {
    assert [sep] + Digits2(v) + rest == [sep] + (Digits2(v) + rest);
    TagText(sep, Digits2(v) + rest);
    TwoDigitsText(v, rest);
  }

  // ---------------------------------------------------------------------
  // A decided outcome is not changed by more input

  lemma TagExtend(s: seq<byte>, c: byte, t: seq<byte>)
    requires !Tag(s, c).Incomplete?
    ensures Tag(s + t, c) == Extended(Tag(s, c), t)
  {
    if Tag(s, c).Done? {
      assert (s + t)[1..] == s[1..] + t;
    }
  }

  lemma TwoDigitsExtend(s: seq<byte>, t: seq<byte>)
    requires !TwoDigits(s).Incomplete?
    ensures TwoDigits(s + t) == Extended(TwoDigits(s), t)
  {
    var u := s + t;
    assert u[0] == s[0];
    if |s| >= 2 {
      assert u[1] == s[1];
      assert u[2..] == s[2..] + t;
    }
  }

  lemma FourDigitsExtend(s: seq<byte>, t: seq<byte>)
    requires !FourDigits(s).Incomplete?
    ensures FourDigits(s + t) == Extended(FourDigits(s), t)
  {
    TwoDigitsExtend(s, t);
    if TwoDigits(s).Done? {
      TwoDigitsExtend(TwoDigits(s).rest, t);
    }
  }

  lemma SepTwoExtend(s: seq<byte>, sep: byte, t: seq<byte>)
    requires !SepTwo(s, sep).Incomplete?
    ensures SepTwo(s + t, sep) == Extended(SepTwo(s, sep), t)
  {
    TagExtend(s, sep, t);
    if Tag(s, sep).Done? {
      assert (s + t)[1..] == s[1..] + t;
      TwoDigitsExtend(s[1..], t);
    }
  }

  // ---------------------------------------------------------------------
  // An incomplete token is completed by zero digits

  lemma TwoDigitsComplete(s: seq<byte>)
    requires TwoDigits(s).Incomplete?
    ensures TwoDigits(s + Zeros(2 - |s|)).Done?
    ensures TwoDigits(s + Zeros(2 - |s|)).rest == []
  {
    var u := s + Zeros(2 - |s|);
    assert u[0] == if |s| == 0 then Zero else s[0];
    assert u[1] == Zero;
    assert u[2..] == [];
  }

  lemma FourDigitsComplete(s: seq<byte>)
    requires FourDigits(s).Incomplete?
    ensures FourDigits(s + Zeros(4 - |s|)).Done?
    ensures FourDigits(s + Zeros(4 - |s|)).rest == []
  {
    var u := s + Zeros(4 - |s|);
    if TwoDigits(s).Incomplete? {
      assert u == (s + Zeros(2 - |s|)) + Zeros(2);
      TwoDigitsComplete(s);
      TwoDigitsExtend(s + Zeros(2 - |s|), Zeros(2));
      assert Zeros(2) == Digits2(0);
      TwoDigitsText(0, []);
      assert Zeros(2) == Digits2(0) + [];
    } else {
      var r1 := TwoDigits(s).rest;
      assert TwoDigits(r1).Incomplete?;
      TwoDigitsExtend(s, Zeros(4 - |s|));
      assert |r1| == |s| - 2;
      TwoDigitsComplete(r1);
    }
  }

  lemma SepTwoComplete(s: seq<byte>, sep: byte)
    requires SepTwo(s, sep).Incomplete?
    ensures SepTwo(s + CompleteSep(s, sep), sep).Done?
    ensures SepTwo(s + CompleteSep(s, sep), sep).rest == []
  {
    if s == [] {
      assert s + CompleteSep(s, sep) == [sep] + Digits2(0) + [];
      SepTwoText(sep, 0, []);
    } else {
      var u := s + Zeros(3 - |s|);
      assert u[0] == s[0];
      assert u[1..] == s[1..] + Zeros(2 - |s[1..]|);
      TwoDigitsComplete(s[1..]);
    }
  }

  /** The bytes that complete a truncated separator-and-two-digits token. */
  function CompleteSep(s: seq<byte>, sep: byte): (w: seq<byte>)
    requires |s| < 3
    ensures |s + w| == 3
  {
    if s == [] then [sep] + Zeros(2) else Zeros(3 - |s|)
  }
}
