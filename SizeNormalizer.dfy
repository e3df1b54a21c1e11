/** `convertToBytes`: the filesize column of the format table read as a number
    of bytes. The text must match `^([\d.]+)\s*(KiB|MiB|GiB)?$` ignoring case;
    the number is `parseFloat` of the digits and dots, multiplied by the unit's
    factor when the unit is spelt exactly `KiB`, `MiB` or `GiB`, by 1 when it is
    spelt in any other case, and left alone when there is no unit. NaN is None. */
module SizeNormalizer {
  import opened Wrappers
  import opened Text
  import opened JsNumbers

  /** ASCII lower case, the only case folding a non-Unicode `/i` pattern
      applies to these letters. */
  function LowerChar(c: char): char {
    if 'A' <= c <= 'Z' then (c as int + 32) as char else c
  }

  /** `(KiB|MiB|GiB)` under the `i` flag. */
  predicate IsUnitAnyCase(u: string) {
    && |u| == 3
    && (LowerChar(u[0]) == 'k' || LowerChar(u[0]) == 'm' || LowerChar(u[0]) == 'g')
    && LowerChar(u[1]) == 'i'
    && LowerChar(u[2]) == 'b'
  }

  /** `units[unit] || 1`: the lookup is by the exact spelling. */
  function UnitFactor(unit: string): (f: real)
    ensures f >= 1.0
    ensures f != 1.0 <==> unit == "KiB" || unit == "MiB" || unit == "GiB"
  {
    if unit == "KiB" then 1024.0
    else if unit == "MiB" then 1048576.0
    else if unit == "GiB" then 1073741824.0
    else 1.0
  }

  /** The units grow by a factor of 1024 each: 1 < 1 KiB < 1 MiB < 1 GiB. */
  lemma UnitsIncrease()
    ensures UnitFactor("KiB") == 1024.0
    ensures UnitFactor("MiB") == 1024.0 * UnitFactor("KiB")
    ensures UnitFactor("GiB") == 1024.0 * UnitFactor("MiB")
    ensures 1.0 < UnitFactor("KiB") < UnitFactor("MiB") < UnitFactor("GiB")
  {
  }

  /** The three parts a size text is made of: a run of digits and dots, white
      space, and nothing or a unit in any case. */
  ghost predicate SizeText(num: string, space: string, unit: string) {
    && num != [] && All(num, IsDigitOrDot)
    && All(space, IsSpace)
    && (unit == [] || IsUnitAnyCase(unit))
  }

  /** `value * factor`, NaN staying NaN. */
  function Scale(v: Option<real>, factor: real): (r: Option<real>)
    ensures r.Some? <==> v.Some?
    ensures v.Some? && v.value >= 0.0 && factor >= 0.0 ==> r.value >= 0.0
  {
    match v
    case None => None
    case Some(x) => Some(x * factor)
  }

  /** `convertToBytes(sizeString)`, with NaN as None. */
  function ConvertToBytes(s: string): (r: Option<real>)
    ensures r.Some? ==> r.value >= 0.0
  {
    if s == [] then None
    else
      var (num, afterNum) := Span(s, IsDigitOrDot);
      var (_, unit) := Span(afterNum, IsSpace);
      if num == [] || !(unit == [] || IsUnitAnyCase(unit)) then None
      else if unit == [] then ParseFloatPrefix(num)
      else Scale(ParseFloatPrefix(num), UnitFactor(unit))
  }

  /** A unit starts with a letter. */
  lemma UnitStart(unit: string)
    requires unit == [] || IsUnitAnyCase(unit)
    ensures unit != [] ==> !IsSpace(unit[0]) && !IsDigitOrDot(unit[0])
  {
  }

  /** A size text is read as parseFloat of its number times its unit's factor. */
  lemma ConvertAccepts(num: string, space: string, unit: string)
    requires SizeText(num, space, unit)
    ensures ConvertToBytes(num + space + unit) == Scale(ParseFloatPrefix(num), UnitFactor(unit))
  {
    var s := num + space + unit;
    assert s == num + (space + unit);
    UnitStart(unit);
    assert space + unit == [] || !IsDigitOrDot((space + unit)[0]) by {
      if space != [] { assert (space + unit)[0] == space[0] && IsSpace(space[0]); }
    }
    SpanUnique(num, space + unit, IsDigitOrDot);
    SpanUnique(space, unit, IsSpace);
    ConvertParts(s, num, space + unit, unit);
  }

  /** convertToBytes once the two runs of a size text are known. */
  lemma ConvertParts(s: string, num: string, afterNum: string, unit: string)
    requires num != [] && All(num, IsDigitOrDot) && (unit == [] || IsUnitAnyCase(unit))
    requires s != [] && Span(s, IsDigitOrDot) == (num, afterNum) && Span(afterNum, IsSpace).1 == unit
    ensures ConvertToBytes(s) == Scale(ParseFloatPrefix(num), UnitFactor(unit))
  {
    if unit == [] {
      assert UnitFactor(unit) == 1.0;
      assert ConvertToBytes(s) == ParseFloatPrefix(num);
    }
  }


  /** convertToBytes gives a number exactly for size texts whose digits and
      dots begin with a numeral. */
  lemma ConvertDefinedIff(s: string)
    ensures ConvertToBytes(s).Some? <==>
      exists num, space, unit :: SizeText(num, space, unit) && s == num + space + unit && ParseFloatPrefix(num).Some?
  {
    if ConvertToBytes(s).Some? {
      var (num, afterNum) := Span(s, IsDigitOrDot);
      var (space, unit) := Span(afterNum, IsSpace);
      assert s == num + space + unit;
      assert SizeText(num, space, unit);
    }
    if exists num, space, unit :: SizeText(num, space, unit) && s == num + space + unit && ParseFloatPrefix(num).Some? {
      var num, space, unit :| SizeText(num, space, unit) && s == num + space + unit && ParseFloatPrefix(num).Some?;
      ConvertAccepts(num, space, unit);
    }
  }

  /** A unit multiplies the bytes the number alone denotes by its factor;
      in any spelling but the three exact ones that factor is 1. */
  lemma ConvertScales(num: string, space: string, unit: string)
    requires SizeText(num, space, unit)
    ensures ConvertToBytes(num + space + unit) == Scale(ConvertToBytes(num), UnitFactor(unit))
    ensures unit != "KiB" && unit != "MiB" && unit != "GiB" ==> ConvertToBytes(num + space + unit) == ConvertToBytes(num)
  {
    ConvertAccepts(num, space, unit);
    assert SizeText(num, [], []);
    ConvertAccepts(num, [], []);
    assert num + [] + [] == num;
    var value := ParseFloatPrefix(num);
    assert ConvertToBytes(num) == value by {
      assert UnitFactor([]) == 1.0;
      if value.Some? {
        assert value.value * 1.0 == value.value;
      }
    }
  }

  /** `12.5MiB` is 13107200 bytes. */
  lemma ConvertMebibytes()
    ensures ConvertToBytes("12.5MiB") == Some(13107200.0)
  {
    assert "12.5MiB" == "12.5" + "" + "MiB";
    assert All("12.5", IsDigitOrDot);
    ConvertAccepts("12.5", "", "MiB");
    ReadTwelveAndAHalf();
  }

  lemma ReadTwelveAndAHalf()
    ensures ParseFloatPrefix("12.5") == Some(12.5)
  {
    assert "12.5" == "12" + "." + "5" + "";
    ParseFloatDecimal("12", "5", "");
    TwelveAndAHalf();
  }

  lemma TwelveAndAHalf()
    ensures DecimalValue("12", "5") == 12.5
  {
    assert DigitsValue("1", 10) == 1;
    assert DigitsValue("12", 10) == 12 by { assert "12"[..1] == "1"; }
    assert DigitsValue("5", 10) == 5;
    assert Pow10(1) == 10;
  }

  /** The number is read up to where it stops being a decimal numeral:
      `1.2.3` is 1.2 bytes. */
  lemma ConvertTwoDots()
    ensures ConvertToBytes("1.2.3") == Some(1.2)
  {
    assert "1.2.3" == "1.2.3" + "" + "";
    assert All("1.2.3", IsDigitOrDot);
    ConvertAccepts("1.2.3", "", "");
    ReadOnePointTwo();
  }

  lemma ReadOnePointTwo()
    ensures ParseFloatPrefix("1.2.3") == Some(1.2)
  {
    assert "1.2.3" == "1" + "." + "2" + ".3";
    ParseFloatDecimal("1", "2", ".3");
    OnePointTwo();
  }

  lemma OnePointTwo()
    ensures DecimalValue("1", "2") == 1.2
  {
    assert DigitsValue("1", 10) == 1;
    assert DigitsValue("2", 10) == 2;
    assert Pow10(1) == 10;
  }

  /** A lone dot is not a number. */
  lemma ConvertLoneDot()
    ensures ConvertToBytes(".").None?
  {
    assert "." == "." + "" + "";
    assert All(".", IsDigitOrDot);
    ConvertAccepts(".", "", "");
  }

  /** A lower-case unit is accepted by the pattern but not found in the table:
      `3mib` is read as 3 bytes. */
  lemma ConvertLowerCaseUnit()
    ensures ConvertToBytes("3mib") == Some(3.0)
  {
    assert SizeText("3", "", "mib");
    ConvertAccepts("3", "", "mib");
    ParseFloatWhole("3");
    assert "3" + "" + "mib" == "3mib";
  }

  /** Approximate sizes (`~`), decimal units and empty columns are not sizes. */
  lemma ConvertRejects()
    ensures ConvertToBytes("~1.2MiB").None?
    ensures ConvertToBytes("5MB").None?
    ensures ConvertToBytes("").None?
  {
    assert Span("~1.2MiB", IsDigitOrDot).0 == [];
    var (num, after) := Span("5MB", IsDigitOrDot);
    SpanUnique("5", "MB", IsDigitOrDot);
    assert "5" + "MB" == "5MB";
    SpanUnique([], "MB", IsSpace);
    assert [] + "MB" == "MB";
  }
}
