/** Octets, the ASCII characters the grammars look for, and fixed-width
    decimal digit groups. */
module Bytes {

  /** One octet of input; the parsers read `&[u8]` slices. */
  type byte = b: int | 0 <= b < 256

  const Plus: byte := '+' as int
  const Minus: byte := '-' as int
  const Colon: byte := ':' as int
  const Designator: byte := 'T' as int
  const Zulu: byte := 'Z' as int
  const Zero: byte := '0' as int

  /** The bytes of an ASCII string, as `b"..."` and `str::as_bytes` give them:
      each character's code (taken modulo 256, which leaves ASCII unchanged). */
  function Ascii(s: string): (r: seq<byte>)
    ensures |r| == |s|
    ensures forall i :: 0 <= i < |s| ==> r[i] == s[i] as int % 256
  {
    seq(|s|, i requires 0 <= i < |s| => s[i] as int % 256)
  }

  predicate IsDigit(b: byte) {
    '0' as int <= b <= '9' as int
  }

  function DigitValue(b: byte): (v: nat)
    requires IsDigit(b)
    ensures v < 10
  {
    b - Zero
  }

  function DigitByte(v: nat): (b: byte)
    requires v < 10
    ensures IsDigit(b) && DigitValue(b) == v
  {
    Zero + v
  }

  /** The two-digit, zero-padded decimal spelling of `v`. */
  function Digits2(v: nat): (r: seq<byte>)
    requires v < 100
    ensures |r| == 2 && IsDigit(r[0]) && IsDigit(r[1])
    ensures 10 * DigitValue(r[0]) + DigitValue(r[1]) == v
  {
    [DigitByte(v / 10), DigitByte(v % 10)]
  }

  /** The four-digit, zero-padded decimal spelling of `v`. */
  function Digits4(v: nat): (r: seq<byte>)
    requires v < 10000
    ensures |r| == 4
  {
    Digits2(v / 100) + Digits2(v % 100)
  }

  /** `n` zero digits: the filler that completes a truncated digit group. */
  function Zeros(n: nat): (r: seq<byte>)
    ensures |r| == n
    ensures forall i :: 0 <= i < n ==> r[i] == Zero
  {
    seq(n, _ => Zero)
  }

  lemma ConcatAssoc(a: seq<byte>, b: seq<byte>, c: seq<byte>)
    ensures a + b + c == a + (b + c)
  {
  }
}
