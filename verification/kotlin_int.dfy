/** Kotlin's 32-bit `Int` as far as the provider touches it: parsing with
    `String.toIntOrNull()`, printing with `Int.toString()`, and the digit
    filter `replace(Regex("[^0-9]"), "")` applied to episode badges. */
module KotlinInt {

  import opened Wrappers

  const IntMin: int := -0x8000_0000
  const IntMax: int := 0x7FFF_FFFF

  predicate InIntRange(n: int) {
    IntMin <= n <= IntMax
  }

  /** An ASCII decimal digit, the class `[0-9]`. */
  predicate IsDigit(c: char) {
    '0' <= c <= '9'
  }

  predicate AllDigits(s: string) {
    forall k :: 0 <= k < |s| ==> IsDigit(s[k])
  }

  function DigitValue(c: char): (d: nat)
    requires IsDigit(c)
    ensures d < 10
  {
    c as int - '0' as int
  }

  function DigitChar(d: nat): (c: char)
    requires d < 10
    ensures IsDigit(c) && DigitValue(c) == d
  {
    (d + '0' as int) as char
  }

  /** The number a string of decimal digits denotes, most significant first. */
  function DigitsValue(ds: string): nat
    requires AllDigits(ds)
  {
    if |ds| == 0 then 0
    else DigitsValue(ds[..|ds| - 1]) * 10 + DigitValue(ds[|ds| - 1])
  }

  /** A decimal text the parser accepts: an optional `+` or `-` sign followed
      by at least one digit. */
  predicate IsSignedDecimal(s: string) {
    || (|s| >= 1 && AllDigits(s))
    || (|s| >= 2 && (s[0] == '+' || s[0] == '-') && AllDigits(s[1..]))
  }

  /** The value of a signed decimal text, before any range check. */
  function SignedValue(s: string): int
    requires IsSignedDecimal(s)
  {
    if s[0] == '-' then -(DigitsValue(s[1..]) as int)
    else if s[0] == '+' then DigitsValue(s[1..])
    else DigitsValue(s)
  }

  /** Kotlin's `String.toIntOrNull()` in radix 10. A first character below
      '0' may only be a sign and must be followed by digits; otherwise every
      character must be a digit; a value outside the 32-bit range is null. */
  function ToIntOrNull(s: string): (r: Option<int>)
    ensures r.Some? <==> IsSignedDecimal(s) && InIntRange(SignedValue(s))
    ensures r.Some? ==> r.value == SignedValue(s)
  {
    if |s| == 0 then None
    else if s[0] < '0' then
      if |s| == 1 then None
      else if s[0] == '-' then
        if AllDigits(s[1..]) && -(DigitsValue(s[1..]) as int) >= IntMin then Some(-(DigitsValue(s[1..]) as int)) else None
      else if s[0] == '+' then
        if AllDigits(s[1..]) && DigitsValue(s[1..]) <= IntMax then Some(DigitsValue(s[1..])) else None
      else None
    else if AllDigits(s) && DigitsValue(s) <= IntMax then Some(DigitsValue(s))
    else None
  }

  /** The shortest decimal spelling of a natural number. */
  function NatToString(n: nat): (s: string)
    ensures |s| >= 1 && AllDigits(s)
    ensures |s| > 1 ==> s[0] != '0'
  {
    if n < 10 then [DigitChar(n)]
    else NatToString(n / 10) + [DigitChar(n % 10)]
  }

  /** Kotlin's `Int.toString()`: a minus sign for negative numbers, then the
      digits of the magnitude. */
  function IntToString(n: int): (s: string)
    ensures IsSignedDecimal(s) && s[0] != '+'
    ensures s[0] == '-' <==> n < 0
    ensures var d := if n < 0 then s[1..] else s;
            |d| > 1 ==> d[0] != '0'
  {
    if n < 0 then
      var d := NatToString(-n);
      assert ("-" + d)[1..] == d;
      "-" + d
    else NatToString(n)
  }

  /** Reading back the digits of `n` gives `n`. */
  lemma {:induction false} NatToStringValue(n: nat)
    ensures DigitsValue(NatToString(n)) == n
  {
    if n >= 10 {
      var s := NatToString(n);
      assert s[..|s| - 1] == NatToString(n / 10);
      NatToStringValue(n / 10);
    }
  }

  /** `toIntOrNull` inverts `toString` on every 32-bit integer. */
  lemma IntRoundTrip(n: int)
    requires InIntRange(n)
    ensures ToIntOrNull(IntToString(n)) == Some(n)
  {
    var s := IntToString(n);
    if n < 0 {
      var d := NatToString(-n);
      assert s == "-" + d && s[0] == '-' && s[1..] == d;
      NatToStringValue(-n);
      assert IsSignedDecimal(s) && SignedValue(s) == n;
    } else {
      NatToStringValue(n);
      assert IsDigit(s[0]) && IsSignedDecimal(s) && SignedValue(s) == n;
    }
  }

  /** On a digits-only text `toIntOrNull` is null exactly when the text is
      empty or its value exceeds `Int.MAX_VALUE`. */
  lemma ParseDigitsOnly(ds: string)
    requires AllDigits(ds)
    ensures ToIntOrNull(ds).None? <==> |ds| == 0 || DigitsValue(ds) > IntMax
    ensures ToIntOrNull(ds).Some? ==> ToIntOrNull(ds).value == DigitsValue(ds)
  {
  }

  /** `replace(Regex("[^0-9]"), "")`: the ASCII digits of `s`, in order. */
  function StripNonDigits(s: string): (r: string)
    ensures AllDigits(r) && |r| <= |s|
    ensures forall c :: c in r <==> c in s && IsDigit(c)
  {
    if |s| == 0 then ""
    else if IsDigit(s[0]) then [s[0]] + StripNonDigits(s[1..])
    else StripNonDigits(s[1..])
  }

  /** The digit filter works piecewise: the digits of `a + b` are those of `a`
      followed by those of `b`, so no digit is moved or dropped. */
  lemma {:induction false} StripNonDigitsAppend(a: string, b: string)
    ensures StripNonDigits(a + b) == StripNonDigits(a) + StripNonDigits(b)
  {
    if |a| > 0 {
      var t := a + b;
      assert t[0] == a[0] && t[1..] == a[1..] + b;
      StripNonDigitsAppend(a[1..], b);
      var head := if IsDigit(a[0]) then [a[0]] else [];
      assert StripNonDigits(t) == head + StripNonDigits(t[1..]);
      assert StripNonDigits(a) == head + StripNonDigits(a[1..]);
    } else {
      assert a + b == b;
    }
  }

  /** A string of digits passes the filter unchanged, so the filter is
      idempotent. */
  lemma {:induction false} StripNonDigitsKeepsDigits(s: string)
    requires AllDigits(s)
    ensures StripNonDigits(s) == s
  {
    if |s| > 0 {
      StripNonDigitsKeepsDigits(s[1..]);
    }
  }
}
