/** Byte strings, ASCII literals and the decimal rendering `fmt.Sprintf("%d", n)`
    that the map-reply header uses. */
module Bytes {

  newtype byte = b: int | 0 <= b < 256

  type Bytes = seq<byte>

  /** The bytes of a string literal whose characters are all ASCII. */
  function Ascii(s: string): (r: Bytes)
    requires forall i :: 0 <= i < |s| ==> s[i] as int < 128
    ensures |r| == |s|
    ensures forall i :: 0 <= i < |s| ==> r[i] as int == s[i] as int
  {
    seq(|s|, i requires 0 <= i < |s| => s[i] as int as byte)
  }

  const CR: byte := 13
  const LF: byte := 10
  const CRLF: Bytes := [CR, LF]

  predicate IsDigit(b: byte) {
    '0' as byte <= b <= '9' as byte
  }

  predicate AllDigits(s: Bytes) {
    forall i :: 0 <= i < |s| ==> IsDigit(s[i])
  }

  function Digit(d: nat): (b: byte)
    requires d < 10
  {
    ('0' as int + d) as byte
  }

  /** Decimal rendering of a natural number, as Go's `%d` verb prints it:
      at least one digit and no leading zero. */
  function Decimal(n: nat): (r: Bytes)
    ensures 1 <= |r|
    ensures AllDigits(r)
    ensures r[0] == Digit(0) ==> n == 0 && |r| == 1
    decreases n
  {
    if n < 10 then [Digit(n)] else Decimal(n / 10) + [Digit(n % 10)]
  }

  /** Reads a run of decimal digits back into the number it denotes. */
  function ParseDecimal(s: Bytes): nat
    requires AllDigits(s)
  {
    if s == [] then 0
    else ParseDecimal(s[..|s| - 1]) * 10 + (s[|s| - 1] as int - '0' as int)
  }

  lemma {:induction false} DecimalRoundTrip(n: nat)
    ensures ParseDecimal(Decimal(n)) == n
    decreases n
  {
    if n >= 10 {
      var s := Decimal(n);
      assert s[..|s| - 1] == Decimal(n / 10);
      DecimalRoundTrip(n / 10);
    }
  }
}
