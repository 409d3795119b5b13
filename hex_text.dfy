/**
 * Two-digit hexadecimal text: the parsing done by `int(pair, 16)` and the
 * formatting done by the `02x` format specification, restricted to what
 * a `#RRGGBB` colour string holds (exactly two hex digits per channel).
 */
module HexText {

  datatype Option<T> = None | Some(value: T)

  predicate IsHexDigit(ch: char) {
    '0' <= ch <= '9' || 'a' <= ch <= 'f' || 'A' <= ch <= 'F'
  }

  predicate IsLowerHexDigit(ch: char) {
    '0' <= ch <= '9' || 'a' <= ch <= 'f'
  }

  /** The value of one hex digit, either case. */
  function DigitValue(ch: char): (v: nat)
    requires IsHexDigit(ch)
    ensures v < 16
  {
    if '0' <= ch <= '9' then ch as int - '0' as int
    else if 'a' <= ch <= 'f' then ch as int - 'a' as int + 10
    else ch as int - 'A' as int + 10
  }

  /** The lower-case hex digit for a value below 16. */
  function Digit(v: nat): (ch: char)
    requires v < 16
    ensures IsLowerHexDigit(ch) && DigitValue(ch) == v
  {
    if v < 10 then ('0' as int + v) as char else ('a' as int + v - 10) as char
  }

  /** Lower-cases the letters `A`-`F` and leaves every other character alone. */
  function LowerCase(ch: char): (r: char)
    ensures IsHexDigit(ch) ==> IsLowerHexDigit(r) && DigitValue(r) == DigitValue(ch)
    ensures !('A' <= ch <= 'F') ==> r == ch
  {
    if 'A' <= ch <= 'F' then (ch as int - 'A' as int + 'a' as int) as char else ch
  }

  function Lowered(s: string): (t: string)
    ensures |t| == |s|
  {
    seq(|s|, i requires 0 <= i < |s| => LowerCase(s[i]))
  }

  /** Each digit value has exactly one lower-case spelling. */
  lemma DigitOfValue(ch: char)
    requires IsHexDigit(ch)
    ensures Digit(DigitValue(ch)) == LowerCase(ch)
  {
  }

  /** `int(p, 16)` for a two-character `p`, strict form: `None` for any pair that is not two ASCII hex digits. */
  function ParseByte(p: string): (r: Option<nat>)
    requires |p| == 2
    ensures r.Some? <==> IsHexDigit(p[0]) && IsHexDigit(p[1])
    ensures r.Some? ==> r.value < 256
  {
    if IsHexDigit(p[0]) && IsHexDigit(p[1]) then Some(16 * DigitValue(p[0]) + DigitValue(p[1]))
    else None
  }

  /** `f"{n:02x}"` for `0 <= n < 256`: always two lower-case digits. */
  function FormatByte(n: nat): (p: string)
    requires n < 256
    ensures |p| == 2 && IsLowerHexDigit(p[0]) && IsLowerHexDigit(p[1])
  {
    [Digit(n / 16), Digit(n % 16)]
  }

  /** Formatting a byte and parsing it back gives the byte. */
  lemma ParseFormatByte(n: nat)
    requires n < 256
    ensures ParseByte(FormatByte(n)) == Some(n)
  {
    var p := FormatByte(n);
    assert DigitValue(p[0]) == n / 16 && DigitValue(p[1]) == n % 16;
  }

  /** Parsing a pair and formatting the value back gives the pair, lower-cased. */
  lemma FormatParseByte(p: string)
    requires |p| == 2 && ParseByte(p).Some?
    ensures FormatByte(ParseByte(p).value) == Lowered(p)
  {
    var hi, lo := DigitValue(p[0]), DigitValue(p[1]);
    var n := 16 * hi + lo;
    assert n / 16 == hi && n % 16 == lo;
    DigitOfValue(p[0]);
    DigitOfValue(p[1]);
  }
}
