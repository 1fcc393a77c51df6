/** The temperature field of a record, as integer tenths of a degree.
    The parser accepts the fixed format of the measurement file: an optional
    '-', one or more decimal digits, '.', exactly one decimal digit, and the
    newline that `readline()` leaves at the end of the line. */
module Temperature {
  import opened Bytes
  import opened Failures

  const MINUS: byte := 45  // '-'
  const DOT: byte := 46    // '.'
  const ZERO: byte := 48   // '0'

  predicate IsDigit(b: byte)
  {
    ZERO <= b <= ZERO + 9
  }

  predicate AllDigits(s: seq<byte>)
  {
    forall i | 0 <= i < |s| :: IsDigit(s[i])
  }

  function DigitValue(b: byte): nat
    requires IsDigit(b)
  {
    (b - ZERO) as nat
  }

  function DigitByte(v: nat): (b: byte)
    requires v < 10
    ensures IsDigit(b) && DigitValue(b) == v
  {
    ZERO + v as byte
  }

  /** The number written by the decimal digits `ds`, most significant first. */
  function DigitsValue(ds: seq<byte>): nat
    requires AllDigits(ds)
  {
    if ds == [] then 0
    else DigitsValue(ds[..|ds| - 1]) * 10 + DigitValue(ds[|ds| - 1])
  }

  /** The decimal digits of `n`, without leading zeros. */
  function Digits(n: nat): (ds: seq<byte>)
    ensures |ds| >= 1 && AllDigits(ds)
  {
    if n < 10 then [DigitByte(n)] else Digits(n / 10) + [DigitByte(n % 10)]
  }

  lemma {:induction false} DigitsRoundTrip(n: nat)
    ensures DigitsValue(Digits(n)) == n
  {
    if n >= 10 {
      DigitsRoundTrip(n / 10);
      var ds := Digits(n);
      assert ds[..|ds| - 1] == Digits(n / 10);
    }
  }

  /** `d+.d` without sign: the value in tenths. */
  function ParseUnsigned(f: seq<byte>): (r: Option<nat>)
    ensures r.Some? ==> |f| >= 3 && forall i | 0 <= i < |f| :: IsDigit(f[i]) || f[i] == DOT
  {
    if |f| >= 3 && f[|f| - 2] == DOT && IsDigit(f[|f| - 1]) && AllDigits(f[..|f| - 2])
    then Some(DigitsValue(f[..|f| - 2]) * 10 + DigitValue(f[|f| - 1]))
    else None
  }

  /** `float(field)` restricted to the file's format, in tenths of a degree.
      The newline that ends the line is accepted as trailing white space. */
  function ParseTemperature(field: seq<byte>): (r: Option<int>)
    ensures r.Some? ==> |field| >= 3
    ensures r.Some? ==> forall i | 0 <= i < |field| :: IsDigit(field[i]) || field[i] in {MINUS, DOT, NL}
    ensures r.Some? && r.value < 0 ==> field[0] == MINUS
  {
    var body := if |field| > 0 && field[|field| - 1] == NL then field[..|field| - 1] else field;
    if |body| > 0 && body[0] == MINUS then
      match ParseUnsigned(body[1..])
      case Some(v) => Some(-(v as int))
      case None => None
    else
      match ParseUnsigned(body)
      case Some(v) => Some(v as int)
      case None => None
  }

  /** How a temperature of `t` tenths is written in the file, e.g. -5 as "-0.5". */
  function FormatTemperature(t: int): (s: seq<byte>)
    ensures |s| >= 3 && NL !in s && SEMI !in s
  {
    var a: nat := if t < 0 then -t else t;
    var body := Digits(a / 10) + [DOT, DigitByte(a % 10)];
    assert forall i | 0 <= i < |body| :: body[i] != NL && body[i] != SEMI;
    if t < 0 then [MINUS] + body else body
  }

  lemma UnsignedRoundTrip(a: nat)
    ensures ParseUnsigned(Digits(a / 10) + [DOT, DigitByte(a % 10)]) == Some(a)
  {
    var f := Digits(a / 10) + [DOT, DigitByte(a % 10)];
    assert f[..|f| - 2] == Digits(a / 10);
    DigitsRoundTrip(a / 10);
  }

  /** Parsing a formatted temperature gives it back, with or without the
      newline that ends its line. */
  lemma FormatParseRoundTrip(t: int)
    ensures ParseTemperature(FormatTemperature(t)) == Some(t)
    ensures ParseTemperature(FormatTemperature(t) + [NL]) == Some(t)
  {
    var s := FormatTemperature(t);
    var a: nat := if t < 0 then -t else t;
    var body := Digits(a / 10) + [DOT, DigitByte(a % 10)];
    UnsignedRoundTrip(a);
    assert (s + [NL])[..|s + [NL]| - 1] == s;
    if t < 0 {
      assert s[1..] == body;
    } else {
      assert s == body && IsDigit(s[0]);
    }
  }
}
