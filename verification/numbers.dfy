/** The two integer conversions a book id goes through: `int.ToString()` when
    the id is stored in its document, and `Convert.ToInt32(string)` when a hit
    is turned back into an id. */
module Numbers {
  import opened Common
  import Text

  /** The range of the .NET `int` type. */
  const MinInt32: int := -0x8000_0000
  const MaxInt32: int := 0x7fff_ffff

  type Int32 = x: int | MinInt32 <= x <= MaxInt32

  predicate IsDigit(c: char) {
    '0' <= c <= '9'
  }

  predicate AllDigits(s: string) {
    forall i :: 0 <= i < |s| ==> IsDigit(s[i])
  }

  function DigitChar(d: nat): (c: char)
    requires d < 10
    ensures IsDigit(c)
  {
    ('0' as int + d) as char
  }

  function DigitValue(c: char): (d: nat)
    requires IsDigit(c)
    ensures d < 10
  {
    c as int - '0' as int
  }

  /** Decimal digits of `n`, most significant first, without leading zeros. */
  function NatToDigits(n: nat): (s: string)
    ensures |s| >= 1 && AllDigits(s)
    ensures |s| > 1 ==> s[0] != '0'
  {
    if n < 10 then [DigitChar(n)] else NatToDigits(n / 10) + [DigitChar(n % 10)]
  }

  /** The number a string of decimal digits denotes. */
  function DigitsValue(s: string): nat
    requires AllDigits(s)
  {
    if |s| == 0 then 0 else DigitsValue(s[..|s| - 1]) * 10 + DigitValue(s[|s| - 1])
  }

  /** Reading the digits of `n` back gives `n`. */
  lemma {:induction false} DigitsRoundTrip(n: nat)
    ensures DigitsValue(NatToDigits(n)) == n
  {
    if n >= 10 {
      DigitsRoundTrip(n / 10);
      var s := NatToDigits(n);
      assert s[..|s| - 1] == NatToDigits(n / 10);
    }
  }

  /** `int.ToString()`: a minus sign for negative values, then the digits of
      the magnitude. */
  function FormatInt(x: int): (s: string)
    ensures |s| >= 1
    ensures x < 0 <==> s[0] == '-'
    ensures x >= 0 ==> AllDigits(s)
    ensures x < 0 ==> AllDigits(s[1..]) && |s| >= 2
  {
    if x < 0 then "-" + NatToDigits(-x) else NatToDigits(x)
  }

  /** Why `Convert.ToInt32(string)` rejects its argument. */
  datatype ParseError =
    | FormatError    // not an optionally signed, non-empty run of digits
    | OverflowError  // the value does not fit in an `int`

  /** The white space that integer parsing skips at either end. */
  predicate IsNumberWhite(c: char) {
    c == ' ' || ('\t' <= c <= '\r')
  }

  /** An optional `+` or `-` followed by at least one digit, read without
      any bound on the magnitude. */
  function ParseSigned(t: string): Result<int, ParseError> {
    if |t| == 0 then Failure(FormatError)
    else
      var digits := if t[0] == '-' || t[0] == '+' then t[1..] else t;
      if |digits| == 0 || !AllDigits(digits) then Failure(FormatError)
      else if t[0] == '-' then Success(-(DigitsValue(digits) as int))
      else Success(DigitsValue(digits))
  }

  /** `Int32.Parse(s)` with the integer number style: optional white space,
      an optional sign, at least one digit, optional white space; a value
      outside the `int` range is an overflow. */
  function ParseInt32(s: string): Result<Int32, ParseError> {
    match ParseSigned(Text.TrimBy(s, IsNumberWhite))
    case Failure(e) => Failure(e)
    case Success(v) => if MinInt32 <= v <= MaxInt32 then Success(v) else Failure(OverflowError)
  }

  /** `Convert.ToInt32(string)`: a `null` string converts to 0. */
  function ToInt32(s: Option<string>): (r: Result<Int32, ParseError>)
    ensures s.None? ==> r == Success(0)
  {
    match s
    case None => Success(0)
    case Some(t) => ParseInt32(t)
  }

  /** A formatted `int` has no white space to trim. */
  lemma FormatHasNoWhite(x: int)
    ensures Text.TrimBy(FormatInt(x), IsNumberWhite) == FormatInt(x)
  {
    var s := FormatInt(x);
    assert !IsNumberWhite(s[0]) && !IsNumberWhite(s[|s| - 1]);
    assert Text.TrimBounds(s, IsNumberWhite, 0, |s|) && s == s[0..|s|];
    Text.TrimUnique(s, IsNumberWhite, s);
  }

  /** Formatting an `int` and parsing it back gives the same `int`. */
  lemma FormatParseRoundTrip(x: Int32)
    ensures ParseInt32(FormatInt(x)) == Success(x)
  {
    FormatHasNoWhite(x);
    FormatParseSigned(x);
  }

  /** Reading a formatted integer back, sign included, gives the integer. */
  lemma FormatParseSigned(x: int)
    ensures ParseSigned(FormatInt(x)) == Success(x)
  {
    var s := FormatInt(x);
    if x < 0 {
      DigitsRoundTrip(-x);
      assert s[1..] == NatToDigits(-x);
    } else {
      DigitsRoundTrip(x);
      assert s[0] != '+';
    }
  }

  /** Distinct ids are stored as distinct strings. */
  lemma FormatInjective(x: Int32, y: Int32)
    requires FormatInt(x) == FormatInt(y)
    ensures x == y
  {
    FormatParseRoundTrip(x);
    FormatParseRoundTrip(y);
  }
}
