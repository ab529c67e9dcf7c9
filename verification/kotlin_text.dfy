/**
 * The few Kotlin standard-library text operations the builder relies on:
 * `Int.toString()`, `String.lastIndexOf(Char)` and `String.endsWith(_, ignoreCase = true)`.
 */
module KotlinText {

  /** The character of the decimal digit `d`. */
  function DigitChar(d: nat): (c: char)
    requires d < 10
    ensures '0' <= c <= '9'
    ensures c as int - '0' as int == d
  {
    ('0' as int + d) as char
  }

  /** Decimal digits of a natural number, most significant first, without leading zeros. */
  function Digits(n: nat): (s: string)
    ensures 1 <= |s|
    ensures forall i :: 0 <= i < |s| ==> '0' <= s[i] <= '9'
    ensures 1 < |s| ==> s[0] != '0'
    decreases n
  {
    if n < 10 then [DigitChar(n)] else Digits(n / 10) + [DigitChar(n % 10)]
  }

  /** The value of a string of decimal digits (the reading direction of `Digits`). */
  function DigitsValue(s: string): int
  {
    if s == [] then 0 else DigitsValue(s[..|s| - 1]) * 10 + (s[|s| - 1] as int - '0' as int)
  }

  /** Kotlin's `Int.toString()`: an optional minus sign followed by the decimal digits. */
  function IntToString(n: int): (s: string)
    ensures 1 <= |s|
    ensures '.' !in s && '_' !in s
    ensures n >= 0 ==> '0' <= s[0] <= '9'
  {
    if n < 0 then "-" + Digits(-n) else Digits(n)
  }

  /** Reads back what `IntToString` writes. */
  function ParseInt(s: string): int
  {
    if 0 < |s| && s[0] == '-' then -DigitsValue(s[1..]) else DigitsValue(s)
  }

  lemma {:induction false} DigitsRoundTrip(n: nat)
    ensures DigitsValue(Digits(n)) == n
    decreases n
  {
    if n >= 10 {
      var s := Digits(n);
      assert s[..|s| - 1] == Digits(n / 10);
      DigitsRoundTrip(n / 10);
    }
  }

  /** Parsing the decimal rendering of any integer gives the integer back. */
  lemma IntToStringRoundTrip(n: int)
    ensures ParseInt(IntToString(n)) == n
  {
    if n < 0 {
      DigitsRoundTrip(-n);
      assert IntToString(n)[1..] == Digits(-n);
    } else {
      DigitsRoundTrip(n);
    }
  }

  /** Distinct integers have distinct decimal renderings. */
  lemma IntToStringInjective(a: int, b: int)
    requires IntToString(a) == IntToString(b)
    ensures a == b
  {
    IntToStringRoundTrip(a);
    IntToStringRoundTrip(b);
  }

  /** Kotlin's `lastIndexOf(c)`: the last position holding `c`, or -1 when there is none. */
  function LastIndexOf(s: string, c: char): (i: int)
    ensures -1 <= i < |s|
    ensures i == -1 <==> c !in s
    ensures 0 <= i ==> s[i] == c
    ensures forall j :: i < j < |s| ==> s[j] != c
  {
    if |s| == 0 then -1
    else if s[|s| - 1] == c then |s| - 1
    else LastIndexOf(s[..|s| - 1], c)
  }

  /** Upper-case mapping of the ASCII letters; every other character maps to itself. */
  function UpperAscii(c: char): char
  {
    if 'a' <= c <= 'z' then (c as int - 32) as char else c
  }

  /** Kotlin's `Char.equals(other, ignoreCase = true)`, restricted to ASCII case folding. */
  predicate CharEqualsIgnoreCase(a: char, b: char)
  {
    a == b || UpperAscii(a) == UpperAscii(b)
  }

  /** Kotlin's `endsWith(suffix, ignoreCase = true)`. */
  predicate EndsWithIgnoreCase(s: string, suffix: string)
  {
    |suffix| <= |s| &&
    forall i :: 0 <= i < |suffix| ==> CharEqualsIgnoreCase(s[|s| - |suffix| + i], suffix[i])
  }
}
