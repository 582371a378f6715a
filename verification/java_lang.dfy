/**
  Values of the Java platform that the helpers rely on: `null` as an
  `Option`, the 32- and 64-bit integer ranges, `Integer.parseInt` /
  `Long.parseLong` on decimal text, `Integer.toString`, ASCII case folding
  as used by `toLowerCase` / `equalsIgnoreCase` on the literals the helpers
  compare against, and joining strings with a separator.
*/
module JavaLang {

  /** A Java reference that may be `null`. */
  datatype Option<+T> = None | Some(value: T) {
    function GetOr(default: T): T {
      match this
      case Some(v) => v
      case None => default
    }
  }

  const INT_MIN: int := -0x8000_0000
  const INT_MAX: int := 0x7fff_ffff
  const LONG_MIN: int := -0x8000_0000_0000_0000
  const LONG_MAX: int := 0x7fff_ffff_ffff_ffff

  predicate InInt32(x: int) { INT_MIN <= x <= INT_MAX }
  predicate InInt64(x: int) { LONG_MIN <= x <= LONG_MAX }

  /** Java `int` subtraction and addition wrap modulo 2^32. */
  function Wrap32(x: int): (r: int)
    ensures InInt32(r)
    ensures (x - r) % 0x1_0000_0000 == 0
    ensures InInt32(x) ==> r == x
  {
    var m := (x - INT_MIN) % 0x1_0000_0000;
    m + INT_MIN
  }

  // ---------------------------------------------------------------------
  // Decimal text

  predicate IsDigit(c: char) { '0' <= c <= '9' }

  predicate AllDigits(s: string) {
    forall i :: 0 <= i < |s| ==> IsDigit(s[i])
  }

  function DigitValue(c: char): nat
    requires IsDigit(c)
  {
    (c as int) - ('0' as int)
  }

  function DigitChar(d: nat): (c: char)
    requires d < 10
    ensures IsDigit(c) && DigitValue(c) == d
  {
    (('0' as int) + d) as char
  }

  /** The value of a string of decimal digits, most significant first. */
  function DigitsValue(s: string): nat
    requires AllDigits(s)
  {
    if |s| == 0 then 0 else 10 * DigitsValue(s[..|s| - 1]) + DigitValue(s[|s| - 1])
  }

  /** An optional `+` or `-` followed by at least one decimal digit. */
  predicate IsDecimalLiteral(s: string) {
    if |s| > 0 && (s[0] == '-' || s[0] == '+') then |s| > 1 && AllDigits(s[1..])
    else |s| > 0 && AllDigits(s)
  }

  /**
    The mathematical value `Integer.parseInt(s)` / `Long.parseLong(s)` would
    compute before their range check: `None` where they throw
    `NumberFormatException` for the form of the text.
  */
  function ParseDecimal(s: string): (r: Option<int>)
    ensures r.Some? <==> IsDecimalLiteral(s)
  {
    if |s| == 0 then None
    else if s[0] == '-' then
      if |s| > 1 && AllDigits(s[1..]) then Some(0 - DigitsValue(s[1..]) as int) else None
    else if s[0] == '+' then
      if |s| > 1 && AllDigits(s[1..]) then Some(DigitsValue(s[1..])) else None
    else if AllDigits(s) then Some(DigitsValue(s))
    else None
  }

  /** `Integer.parseInt(s)`, `None` standing for `NumberFormatException`. */
  function ParseInt32(s: string): (r: Option<int>)
    ensures r.Some? <==> IsDecimalLiteral(s) && InInt32(ParseDecimal(s).value)
    ensures r.Some? ==> InInt32(r.value) && r == ParseDecimal(s)
  {
    match ParseDecimal(s)
    case Some(v) => if InInt32(v) then Some(v) else None
    case None => None
  }

  /** `Long.parseLong(s)`, `None` standing for `NumberFormatException`. */
  function ParseInt64(s: string): (r: Option<int>)
    ensures r.Some? <==> IsDecimalLiteral(s) && InInt64(ParseDecimal(s).value)
    ensures r.Some? ==> InInt64(r.value) && r == ParseDecimal(s)
  {
    match ParseDecimal(s)
    case Some(v) => if InInt64(v) then Some(v) else None
    case None => None
  }

  /** The shortest decimal digits of a natural number. */
  function Digits(n: nat): (s: string)
    ensures |s| > 0 && AllDigits(s)
  {
    if n < 10 then [DigitChar(n)] else Digits(n / 10) + [DigitChar(n % 10)]
  }

  /** `Integer.toString(n)` / `Long.toString(n)`. */
  function DecimalString(n: int): string {
    if n < 0 then "-" + Digits(-n) else Digits(n)
  }

  lemma {:induction false} DigitsValueOfDigits(n: nat)
    ensures DigitsValue(Digits(n)) == n
  {
    if n >= 10 {
      var s := Digits(n);
      assert s[..|s| - 1] == Digits(n / 10);
      DigitsValueOfDigits(n / 10);
    }
  }

  /** Parsing the text `Integer.toString` produces gives the number back. */
  lemma ParseDecimalString(n: int)
    ensures ParseDecimal(DecimalString(n)) == Some(n)
  {
    var s := DecimalString(n);
    if n < 0 {
      assert s[1..] == Digits(-n);
      DigitsValueOfDigits(-n);
    } else {
      DigitsValueOfDigits(n);
    }
  }

  lemma ParseInt32String(n: int)
    requires InInt32(n)
    ensures ParseInt32(DecimalString(n)) == Some(n)
  {
    ParseDecimalString(n);
  }

  lemma ParseInt64String(n: int)
    requires InInt64(n)
    ensures ParseInt64(DecimalString(n)) == Some(n)
  {
    ParseDecimalString(n);
  }

  // ---------------------------------------------------------------------
  // Case folding and string shapes

  function LowerChar(c: char): char {
    if 'A' <= c <= 'Z' then ((c as int) - ('A' as int) + ('a' as int)) as char else c
  }

  /** `String.toLowerCase` restricted to ASCII letters. */
  function ToLower(s: string): (r: string)
    ensures |r| == |s|
    ensures forall i :: 0 <= i < |s| ==> r[i] == LowerChar(s[i])
  {
    if |s| == 0 then "" else [LowerChar(s[0])] + ToLower(s[1..])
  }

  /** `a.equalsIgnoreCase(b)` for ASCII letters. */
  predicate EqualsIgnoreCase(a: string, b: string) {
    |a| == |b| && ToLower(a) == ToLower(b)
  }

  predicate EndsWith(s: string, suffix: string) {
    |suffix| <= |s| && s[|s| - |suffix|..] == suffix
  }

  /** The parts with `sep` between neighbours, as a `for` loop appending would build it. */
  function Join(parts: seq<string>, sep: string): string {
    if |parts| == 0 then ""
    else if |parts| == 1 then parts[0]
    else parts[0] + sep + Join(parts[1..], sep)
  }
}
