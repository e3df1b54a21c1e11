/** The two JavaScript number conversions server.js relies on: `parseFloat`
    on the digit-and-dot strings the size pattern admits, and `parseInt(s) || 0`
    on bitrate columns. Numbers are exact (see README, "Left out"). */
module JsNumbers {
  import opened Wrappers
  import opened Text

  /** The value of a digit character in bases up to 16; 16 for any other character. */
  function DigitValue(c: char): (d: nat)
    ensures d <= 16
    ensures d < 10 <==> IsDigit(c)
  {
    if '0' <= c <= '9' then c as int - '0' as int
    else if 'a' <= c <= 'f' then c as int - 'a' as int + 10
    else if 'A' <= c <= 'F' then c as int - 'A' as int + 10
    else 16
  }

  predicate IsHexDigit(c: char) {
    DigitValue(c) < 16
  }

  /** The characters of `[\d.]`. */
  predicate IsDigitOrDot(c: char) {
    IsDigit(c) || c == '.'
  }

  /** The number a string of digits denotes in base `radix`, most significant digit first. */
  function DigitsValue(ds: string, radix: nat): nat
    decreases |ds|
  {
    if ds == [] then 0 else DigitsValue(ds[..|ds| - 1], radix) * radix + DigitValue(ds[|ds| - 1])
  }

  function Pow10(k: nat): (p: nat)
    ensures p >= 1
  {
    if k == 0 then 1 else 10 * Pow10(k - 1)
  }

  /** The decimal numeral of `n`, without leading zeros: the reference
      printer against which the parsers are stated. */
  function DecimalString(n: nat): (s: string)
    ensures s != [] && All(s, IsDigit)
    ensures s[0] == '0' ==> n == 0
  {
    var last := [('0' as int + n % 10) as char];
    if n < 10 then last else DecimalString(n / 10) + last
  }

  /** The decimal numeral of an integer, with a leading `-` when negative. */
  function IntString(n: int): string {
    if n < 0 then "-" + DecimalString(-n) else DecimalString(n)
  }

  lemma {:induction false} DecimalStringValue(n: nat)
    ensures DigitsValue(DecimalString(n), 10) == n
  {
    var s := DecimalString(n);
    if n >= 10 {
      DecimalStringValue(n / 10);
      assert s[..|s| - 1] == DecimalString(n / 10);
    }
  }

  /** The value a decimal numeral denotes. */
  function DecimalValue(whole: string, fraction: string): (v: real)
    ensures v >= 0.0
  {
    DigitsValue(whole, 10) as real + DigitsValue(fraction, 10) as real / Pow10(|fraction|) as real
  }

  /** The digits after the dot that may follow the integer part. */
  function FractionDigits(afterWhole: string): string {
    if afterWhole != [] && afterWhole[0] == '.' then Span(afterWhole[1..], IsDigit).0 else []
  }

  /** `parseFloat(s)` for a string of digits and dots: the longest prefix of the
      form `digits`, `digits.`, `digits.digits` or `.digits`, or NaN (None)
      when there is none. */
  function ParseFloatPrefix(s: string): (r: Option<real>)
    requires All(s, IsDigitOrDot)
    ensures r.Some? ==> r.value >= 0.0
    ensures r.None? <==> s == [] || (s[0] == '.' && (|s| == 1 || s[1] == '.'))
  {
    var (whole, afterWhole) := Span(s, IsDigit);
    var fraction := FractionDigits(afterWhole);
    if whole == [] && fraction == [] then None
    else Some(DecimalValue(whole, fraction))
  }

  /** A numeral `whole.fraction` followed by anything that cannot extend it is read exactly. */
  lemma ParseFloatDecimal(whole: string, fraction: string, rest: string)
    requires All(whole, IsDigit) && All(fraction, IsDigit) && All(rest, IsDigitOrDot)
    requires whole != [] || fraction != []
    requires rest == [] || rest[0] == '.'
    ensures ParseFloatPrefix(whole + "." + fraction + rest) == Some(DecimalValue(whole, fraction))
  {
    var s := whole + "." + fraction + rest;
    assert All(s, IsDigitOrDot) by {
      forall i | 0 <= i < |s| ensures IsDigitOrDot(s[i]) {
        if i < |whole| { assert s[i] == whole[i]; }
        else if i == |whole| { assert s[i] == '.'; }
        else if i < |whole| + 1 + |fraction| { assert s[i] == fraction[i - |whole| - 1]; }
        else { assert s[i] == rest[i - |whole| - 1 - |fraction|]; }
      }
    }
    assert s == whole + ("." + fraction + rest);
    SpanUnique(whole, "." + fraction + rest, IsDigit);
    assert ("." + fraction + rest)[1..] == fraction + rest;
    SpanUnique(fraction, rest, IsDigit);
  }

  /** A numeral without a dot is read as the integer it denotes. */
  lemma ParseFloatWhole(whole: string)
    requires whole != [] && All(whole, IsDigit)
    ensures ParseFloatPrefix(whole) == Some(DigitsValue(whole, 10) as real)
  {
    assert All(whole, IsDigitOrDot) by {
      forall i | 0 <= i < |whole| ensures IsDigitOrDot(whole[i]) {
        assert IsDigit(whole[i]);
      }
    }
    SpanUnique(whole, [], IsDigit);
    assert whole + [] == whole;
    assert Span(whole, IsDigit) == (whole, []);
    assert ParseFloatPrefix(whole) == Some(DecimalValue(whole, []));
    DecimalValueWhole(whole);
  }

  /** A numeral without fraction digits denotes its integer part. */
  lemma DecimalValueWhole(whole: string)
    ensures DecimalValue(whole, []) == DigitsValue(whole, 10) as real
  {
    assert DigitsValue([], 10) == 0 && Pow10(0) == 1;
    var zero: real := DigitsValue([], 10) as real / Pow10(0) as real;
    assert zero == 0.0;
  }

  /** A numeral with a nonzero value has a nonzero digit. */
  lemma {:induction false} NonzeroDigit(ds: string, radix: nat)
    requires DigitsValue(ds, radix) > 0
    ensures exists i :: 0 <= i < |ds| && DigitValue(ds[i]) > 0
  {
    var init := ds[..|ds| - 1];
    if DigitValue(ds[|ds| - 1]) == 0 {
      NonzeroDigit(init, radix);
      var i :| 0 <= i < |init| && DigitValue(init[i]) > 0;
      assert ds[i] == init[i];
    }
  }

  /** parseInt's text after the white space with one leading sign dropped. */
  function Unsigned(trimmed: string): (u: string)
    ensures forall c :: c in u ==> c in trimmed
  {
    if trimmed != [] && (trimmed[0] == '-' || trimmed[0] == '+') then trimmed[1..] else trimmed
  }

  /** A `0x` or `0X` prefix, which makes parseInt read base 16. */
  predicate IsHexPrefixed(unsigned: string) {
    |unsigned| >= 2 && unsigned[0] == '0' && (unsigned[1] == 'x' || unsigned[1] == 'X')
  }

  /** The run of digits parseInt reads: hexadecimal after `0x`, decimal otherwise. */
  function LeadingDigits(unsigned: string): (ds: string)
    ensures forall c :: c in ds ==> c in unsigned
    ensures All(ds, IsHexDigit)
  {
    if IsHexPrefixed(unsigned) then
      var (ds, rest) := Span(unsigned[2..], IsHexDigit);
      assert forall i :: 0 <= i < |ds| ==> ds[i] == unsigned[2 + i];
      ds
    else
      var ds := Span(unsigned, IsDigit).0;
      assert forall i :: 0 <= i < |ds| ==> IsDigit(ds[i]) && DigitValue(ds[i]) < 10;
      ds
  }

  /** `parseInt(s) || 0`: JavaScript's parseInt without a radix (leading white
      space, one sign, a `0x`/`0X` prefix selecting base 16, then the longest run
      of digits of the base), with NaN (no digits) and zero both read as 0.
      A reading other than 0 needs a nonzero digit somewhere in the text. */
  function ParseIntOrZero(s: string): (r: int)
    ensures r != 0 ==> exists c :: c in s && 0 < DigitValue(c) < 16
  {
    var trimmed := Span(s, IsSpace).1;
    var digits := LeadingDigits(Unsigned(trimmed));
    var magnitude: int := DigitsValue(digits, if IsHexPrefixed(Unsigned(trimmed)) then 16 else 10);
    if digits == [] || magnitude == 0 then 0
    else
      NonzeroDigit(digits, if IsHexPrefixed(Unsigned(trimmed)) then 16 else 10);
      assert forall i :: 0 <= i < |digits| ==> digits[i] in s;
      if trimmed[0] == '-' then -magnitude else magnitude
  }

  /** Text with no digit of the base after the leading white space, an
      optional sign and an optional `0x`/`0X` reads as 0 (parseInt gives NaN). */
  lemma ParseIntWithoutDigits(s: string, lead: string, sign: string, prefix: string, rest: string)
    requires All(lead, IsSpace)
    requires sign == "" || sign == "-" || sign == "+"
    requires prefix == "" || prefix == "0x" || prefix == "0X"
    requires s == lead + sign + prefix + rest
    requires sign + prefix + rest == [] || !IsSpace((sign + prefix + rest)[0])
    requires sign == "" && prefix == "" && rest != [] ==> rest[0] != '-' && rest[0] != '+'
    requires rest == [] || !IsHexDigit(rest[0]) || (prefix == "" && !IsDigit(rest[0]))
    ensures ParseIntOrZero(s) == 0
  {
    var trimmed := sign + prefix + rest;
    assert s == lead + trimmed;
    SpanUnique(lead, trimmed, IsSpace);
    NoLeadingDigits(sign, prefix, rest);
  }

  /** The sign and `0x` steps of ParseIntWithoutDigits. */
  lemma NoLeadingDigits(sign: string, prefix: string, rest: string)
    requires sign == "" || sign == "-" || sign == "+"
    requires prefix == "" || prefix == "0x" || prefix == "0X"
    requires sign == "" && prefix == "" && rest != [] ==> rest[0] != '-' && rest[0] != '+'
    requires rest == [] || !IsHexDigit(rest[0]) || (prefix == "" && !IsDigit(rest[0]))
    ensures LeadingDigits(Unsigned(sign + prefix + rest)) == []
  {
    var trimmed := sign + prefix + rest;
    if sign != "" {
      assert trimmed[0] == sign[0] && trimmed[1..] == prefix + rest;
    }
    var unsigned := Unsigned(trimmed);
    assert unsigned == prefix + rest;
    if IsHexPrefixed(unsigned) {
      assert unsigned[2..] == rest;
    } else {
      assert unsigned == rest;
    }
  }

  /** parseInt of text with no leading white space whose unsigned part starts
      with a run of decimal digits (and not with `0x`) is that run's value, signed. */
  lemma ParseIntOfDecimalRun(s: string, unsigned: string, run: string, negative: bool)
    requires Span(s, IsSpace).1 == s
    requires s == if negative then "-" + unsigned else unsigned
    requires unsigned != [] && IsDigit(unsigned[0])
    requires !(|unsigned| >= 2 && unsigned[0] == '0' && (unsigned[1] == 'x' || unsigned[1] == 'X'))
    requires Span(unsigned, IsDigit).0 == run
    ensures ParseIntOrZero(s) == if negative then -(DigitsValue(run, 10) as int) else DigitsValue(run, 10)
  {
    if negative {
      assert s[1..] == unsigned;
    }
  }

  /** parseInt reads back the decimal numeral of any integer, whatever
      non-digit text follows it (a unit such as `k`, say), except that `0`
      followed by `x` or `X` starts a hexadecimal numeral. */
  lemma ParseIntDecimal(n: int, tail: string)
    requires tail == [] || (!IsDigit(tail[0]) && (n != 0 || (tail[0] != 'x' && tail[0] != 'X')))
    ensures ParseIntOrZero(IntString(n) + tail) == n
  {
    var m := if n < 0 then -n else n;
    var numeral := DecimalString(m);
    var unsigned := numeral + tail;
    var s := IntString(n) + tail;
    assert s == if n < 0 then "-" + unsigned else unsigned;
    assert Span(s, IsSpace).1 == s by {
      assert !IsSpace(s[0]);
      SpanUnique([], s, IsSpace);
      assert [] + s == s;
    }
    assert unsigned[0] == numeral[0];
    assert |unsigned| >= 2 && unsigned[0] == '0' ==> unsigned[1] == tail[0];
    SpanUnique(numeral, tail, IsDigit);
    ParseIntOfDecimalRun(s, unsigned, numeral, n < 0);
    DecimalStringValue(m);
  }

  /** A `+` sign is read and dropped: `+5` is 5. */
  lemma ParseIntPlus(n: nat, tail: string)
    requires tail == [] || (!IsDigit(tail[0]) && (n != 0 || (tail[0] != 'x' && tail[0] != 'X')))
    ensures ParseIntOrZero("+" + DecimalString(n) + tail) == n
  {
    var numeral := DecimalString(n);
    var unsigned := numeral + tail;
    var s := "+" + unsigned;
    assert "+" + DecimalString(n) + tail == s;
    assert Span(s, IsSpace).1 == s by {
      SpanUnique([], s, IsSpace);
      assert [] + s == s;
    }
    assert Unsigned(s) == unsigned;
    assert unsigned[0] == numeral[0];
    assert |unsigned| >= 2 && unsigned[0] == '0' ==> unsigned[1] == tail[0];
    SpanUnique(numeral, tail, IsDigit);
    DecimalStringValue(n);
  }

  /** After `0x` or `0X`, parseInt reads the run of hexadecimal digits in
      base 16: `0xa` is 10. */
  lemma ParseIntHex(x: char, ds: string, tail: string)
    requires x == 'x' || x == 'X'
    requires ds != [] && All(ds, IsHexDigit)
    requires tail == [] || !IsHexDigit(tail[0])
    ensures ParseIntOrZero(['0', x] + ds + tail) == DigitsValue(ds, 16)
  {
    var s := ['0', x] + ds + tail;
    assert Span(s, IsSpace).1 == s by {
      SpanUnique([], s, IsSpace);
      assert [] + s == s;
    }
    assert Unsigned(s) == s && IsHexPrefixed(s);
    assert s[2..] == ds + tail;
    SpanUnique(ds, tail, IsHexDigit);
  }
}
