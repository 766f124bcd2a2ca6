/** `Number.parseInt(s)` with no radix, as ECMAScript defines it: leading
    whitespace is skipped, one `+` or `-` sign is taken, a `0x`/`0X` prefix
    selects base 16 and base 10 is used otherwise, and the longest run of
    digits of that base is read; an empty run gives `NaN`, modelled as None. */
module JsNumber {
  import opened Optional
  import opened Strings

  /** The value of a digit character in bases up to 36, or None. */
  function DigitValue(c: char): (r: Option<nat>)
    ensures r.Some? ==> r.value < 36
  {
    if '0' <= c <= '9' then Some(c as int - '0' as int)
    else if 'a' <= c <= 'z' then Some(c as int - 'a' as int + 10)
    else if 'A' <= c <= 'Z' then Some(c as int - 'A' as int + 10)
    else None
  }

  predicate IsDigit(c: char, radix: nat) {
    DigitValue(c).Some? && DigitValue(c).value < radix
  }

  /** Length of the longest prefix of `s` made of base-`radix` digits. */
  function DigitRun(s: string, radix: nat): (n: nat)
    ensures n <= |s|
    ensures forall i :: 0 <= i < n ==> IsDigit(s[i], radix)
    ensures n == |s| || !IsDigit(s[n], radix)
    decreases |s|
  {
    if |s| == 0 || !IsDigit(s[0], radix) then 0 else 1 + DigitRun(s[1..], radix)
  }

  /** The number written by the digit string `ds`, most significant first. */
  function DigitsValue(ds: string, radix: nat): nat
    requires forall i :: 0 <= i < |ds| ==> IsDigit(ds[i], radix)
    decreases |ds|
  {
    if |ds| == 0 then 0
    else
      var init := ds[..|ds| - 1];
      assert forall i :: 0 <= i < |init| ==> init[i] == ds[i];
      assert IsDigit(ds[|ds| - 1], radix);
      Shift(DigitsValue(init, radix), radix) + DigitValue(ds[|ds| - 1]).value
  }

  /** `a * b`, kept apart so its sign is settled once. */
  function Shift(a: nat, b: nat): nat {
    a * b
  }

  /** `s` with its leading whitespace removed (`trimStart`). */
  function TrimStart(s: string): (r: string)
    ensures |r| <= |s|
    ensures r == s[|s| - |r|..]
    ensures |r| == 0 || !IsJsSpace(r[0])
    ensures IsBlank(s[..|s| - |r|])
    decreases |s|
  {
    if |s| > 0 && IsJsSpace(s[0]) then
      var r := TrimStart(s[1..]);
      assert IsBlank(s[1..][..|s[1..]| - |r|]);
      assert s[..|s| - |r|] == [s[0]] + s[1..][..|s[1..]| - |r|];
      r
    else s
  }

  /** The magnitude part after the sign: base 16 after `0x`/`0X`, else base 10. */
  function ParseMagnitude(s: string): Option<nat>
  {
    if |s| >= 2 && s[0] == '0' && (s[1] == 'x' || s[1] == 'X') then
      var hex := s[2..];
      var n := DigitRun(hex, 16);
      if n == 0 then None else Some(DigitsValue(hex[..n], 16))
    else
      var n := DigitRun(s, 10);
      if n == 0 then None else Some(DigitsValue(s[..n], 10))
  }

  /** `Number.parseInt(s)`; None stands for `NaN`. */
  function ParseInt(s: string): Option<int> {
    ParseTrimmed(TrimStart(s))
  }

  /** The sign and the magnitude, once leading whitespace is gone. */
  function ParseTrimmed(t: string): Option<int> {
    if |t| > 0 && t[0] == '-' then
      match ParseMagnitude(t[1..])
      case None => None
      case Some(m) => Some(-(m as int))
    else if |t| > 0 && t[0] == '+' then
      match ParseMagnitude(t[1..])
      case None => None
      case Some(m) => Some(m)
    else
      match ParseMagnitude(t)
      case None => None
      case Some(m) => Some(m)
  }

  /** The decimal numeral of `n` without leading zeros (`String(n)`). */
  function DecimalString(n: nat): (r: string)
    ensures |r| > 0
    ensures forall i :: 0 <= i < |r| ==> '0' <= r[i] <= '9'
    ensures n >= 10 ==> r[0] != '0'
    decreases n
  {
    var d := ['0' + ((n % 10) as char)];
    if n < 10 then d else DecimalString(n / 10) + d
  }

  lemma {:induction false} DecimalValue(n: nat)
    ensures forall i :: 0 <= i < |DecimalString(n)| ==> IsDigit(DecimalString(n)[i], 10)
    ensures DigitsValue(DecimalString(n), 10) == n
    decreases n
  {
    var s := DecimalString(n);
    if n >= 10 {
      DecimalValue(n / 10);
      assert s[..|s| - 1] == DecimalString(n / 10);
    }
  }

  /** A digit run stops exactly at the first non-digit. */
  lemma {:induction false} DigitRunOfDigits(ds: string, rest: string, radix: nat)
    requires forall i :: 0 <= i < |ds| ==> IsDigit(ds[i], radix)
    requires |rest| == 0 || !IsDigit(rest[0], radix)
    ensures DigitRun(ds + rest, radix) == |ds|
    decreases |ds|
  {
    if |ds| > 0 {
      assert (ds + rest)[1..] == ds[1..] + rest;
      DigitRunOfDigits(ds[1..], rest, radix);
    } else {
      assert ds + rest == rest;
    }
  }

  lemma TrimStartNoSpace(s: string)
    requires |s| == 0 || !IsJsSpace(s[0])
    ensures TrimStart(s) == s
  {
  }

  /** The text after a numeral that leaves the numeral's value alone: it
      must not continue the digits, nor turn a lone `0` into a `0x` prefix. */
  predicate EndsNumeral(rest: string) {
    |rest| == 0 || (!IsDigit(rest[0], 10) && rest[0] != 'x' && rest[0] != 'X')
  }

  /** A decimal numeral followed by such text is read in base 10. */
  lemma MagnitudeOfDecimal(n: nat, rest: string)
    requires EndsNumeral(rest)
    ensures ParseMagnitude(DecimalString(n) + rest) == Some(n)
  {
    var ds := DecimalString(n);
    var s := ds + rest;
    assert !(|s| >= 2 && s[0] == '0' && (s[1] == 'x' || s[1] == 'X')) by {
      if |s| >= 2 && s[0] == '0' {
        assert s[0] == ds[0];
        assert |ds| == 1;
        assert s[1] == rest[0];
      }
    }
    DecimalValue(n);
    DigitRunOfDigits(ds, rest, 10);
    assert s[..|ds|] == ds;
  }

  /** Text that starts with neither whitespace nor a sign is read as a bare
      magnitude. */
  lemma ParseUnsigned(t: string)
    requires |t| > 0 && !IsJsSpace(t[0]) && t[0] != '-' && t[0] != '+'
    ensures ParseMagnitude(t).Some? ==> ParseInt(t) == Some(ParseMagnitude(t).value)
  {
    TrimStartNoSpace(t);
  }

  /** A numeral starts with a digit. */
  lemma DecimalFirstDigit(n: nat, rest: string)
    ensures '0' <= (DecimalString(n) + rest)[0] <= '9'
  {
    assert (DecimalString(n) + rest)[0] == DecimalString(n)[0];
  }

  /** A decimal numeral reads back as its number, whatever text of that kind
      follows it (`parseInt("12.5")` is 12). */
  lemma ParseDecimal(n: nat, rest: string)
    requires EndsNumeral(rest)
    ensures ParseInt(DecimalString(n) + rest) == Some(n)
  {
    DecimalFirstDigit(n, rest);
    ParseUnsigned(DecimalString(n) + rest);
    MagnitudeOfDecimal(n, rest);
  }

  /** A lone zero followed by `x` is a hexadecimal prefix with no digits:
      `parseInt("0x")` is `NaN`, not 0. */
  lemma ParseBareHexPrefix()
    ensures ParseInt("0x") == None
  {
    TrimStartNoSpace("0x");
  }

  /** A minus sign negates the number read. */
  lemma ParseNegative(n: nat)
    ensures ParseInt("-" + DecimalString(n)) == Some(-(n as int))
  {
    var s := "-" + DecimalString(n);
    TrimStartNoSpace(s);
    MagnitudeOfDecimal(n, "");
    assert s[1..] == DecimalString(n) + "";
  }

  /** Leading whitespace never changes the result. */
  lemma ParseSkipsLeadingSpace(c: char, s: string)
    requires IsJsSpace(c)
    ensures ParseInt([c] + s) == ParseInt(s)
  {
    assert ([c] + s)[1..] == s;
    assert TrimStart([c] + s) == TrimStart(s);
  }

  /** Text that does not start with a digit, a sign or whitespace is `NaN`. */
  lemma ParseRejectsNonNumeric(s: string)
    requires |s| > 0 && !IsJsSpace(s[0]) && s[0] != '-' && s[0] != '+' && !IsDigit(s[0], 10)
    ensures ParseInt(s) == None
  {
  }
}
