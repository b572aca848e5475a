/** How `parse` (src/util/numbers.ts) reads the plain numbers a user types: digits with
    either separator, digits alone, a leading minus, and separators merged away when
    decimals are forbidden. */
module NumberReading {
  import opened Js
  import opened Text
  import opened Numbers

  lemma {:induction false} ReplaceFirstCommaAt(a: string, b: string)
    requires ',' !in a
    ensures ReplaceFirstComma(a + "," + b) == a + "." + b
  {
    if a == "" {
      assert a + "," + b == "," + b && ("," + b)[1..] == b;
      assert a + "." + b == "." + b;
    } else {
      var s := a + "," + b;
      assert s[0] == a[0] && s[0] != ',';
      assert s[1..] == a[1..] + "," + b;
      ReplaceFirstCommaAt(a[1..], b);
      assert a + "." + b == [a[0]] + (a[1..] + "." + b);
    }
  }

  /** The characters of `whole + [sep] + fraction`: a digit or the separator. */
  lemma DecimalCharacters(s: string, whole: string, sep: char, fraction: string)
    requires AllDigits(whole) && AllDigits(fraction)
    requires s == whole + [sep] + fraction
    ensures forall i :: 0 <= i < |s| ==> (IsDigit(s[i]) && i != |whole|) || (s[i] == sep && i == |whole|)
  {
    forall i | 0 <= i < |s| ensures (IsDigit(s[i]) && i != |whole|) || (s[i] == sep && i == |whole|) {
      if i < |whole| { assert s[i] == whole[i]; }
      else if i > |whole| { assert s[i] == fraction[i - |whole| - 1]; }
    }
  }

  lemma DecimalHasOneSeparator(s: string, whole: string, sep: char, fraction: string)
    requires AllDigits(whole) && AllDigits(fraction) && IsSeparator(sep)
    requires s == whole + [sep] + fraction
    ensures Separators(s) == [sep]
  {
    SelectAppend(whole + [sep], fraction, IsSeparator);
    SelectAppend(whole, [sep], IsSeparator);
    assert All(whole, NotSeparator) && All(fraction, NotSeparator);
  }

  /** Text with no whitespace, at most one separator and no minus after its first
      character passes the default filter unchanged. */
  lemma FilterUnchanged(t: string)
    requires t != "" && All(t, NotWhitespace) && |Separators(t)| <= 1
    requires forall i :: 1 <= i < |t| ==> t[i] != '-'
    ensures Filter(Some(t), true, true) == Some(t)
  {
    assert Select(t, NotWhitespace) == t;
    assert All(t[1..], NotMinus) by {
      forall i | 0 <= i < |t| - 1 ensures t[1..][i] != '-' {
        assert t[1..][i] == t[i + 1];
      }
    }
    assert LeadingMinusOnly(t) == t;
  }

  /** What `parse` does once the filter has left a non-empty text. */
  lemma ParseOfFiltered(value: Option<string>, allowDecimals: bool, allowNegative: bool, f: string)
    requires Filter(value, allowDecimals, allowNegative) == Some(f) && f != ""
    ensures Parse(value, allowDecimals, allowNegative) == StringToNumber(ReplaceFirstComma(f))
  {
  }

  /** A leading minus adds no separator. */
  lemma MinusAddsNoSeparator(u: string)
    ensures Separators("-" + u) == Separators(u)
  {
    assert "-" + u == ['-'] + u;
    SelectCons('-', u, IsSeparator);
  }

  /** A leading minus is passed over by the comma replacement. */
  lemma MinusSkipsComma(u: string)
    ensures ReplaceFirstComma("-" + u) == "-" + ReplaceFirstComma(u)
  {
    var t := "-" + u;
    assert t[0] == '-' && t[1..] == u;
  }

  /** A leading minus is not whitespace and sits at the first position only. */
  lemma MinusFirstOnly(u: string)
    requires All(u, NotWhitespace) && forall i :: 0 <= i < |u| ==> u[i] != '-'
    ensures All("-" + u, NotWhitespace)
    ensures forall i :: 1 <= i < |"-" + u| ==> ("-" + u)[i] != '-'
  {
    var t := "-" + u;
    assert forall i :: 1 <= i < |t| ==> t[i] == u[i - 1];
  }

  /** A plain unsigned number as typed: it starts with a digit and holds no whitespace,
      no minus and at most one separator. */
  predicate Plain(u: string)
  {
    && u != "" && IsDigit(u[0]) && All(u, NotWhitespace) && |Separators(u)| <= 1
    && forall i :: 0 <= i < |u| ==> u[i] != '-'
  }

  /** A plain number passes the default filter unchanged, with or without a leading
      minus. */
  lemma FilterNegated(u: string)
    requires Plain(u)
    ensures Filter(Some(u), true, true) == Some(u)
    ensures Filter(Some("-" + u), true, true) == Some("-" + u)
  {
    FilterUnchanged(u);
    MinusAddsNoSeparator(u);
    MinusFirstOnly(u);
    FilterUnchanged("-" + u);
  }

  /** `Number()` of the comma-replaced text: a leading minus negates the reading of text
      that starts with a digit and holds no whitespace. */
  lemma ReadNegated(u: string)
    requires u != "" && IsDigit(u[0]) && All(u, NotWhitespace)
    ensures StringToNumber(ReplaceFirstComma("-" + u)) == Negate(StringToNumber(ReplaceFirstComma(u)))
  {
    var read := ReplaceFirstComma(u);
    ReplaceFirstCommaPointwise(u, 0);
    ReplaceFirstCommaPointwise(u, |u| - 1);
    MinusSkipsComma(u);
    NegativeReading("-" + read, read);
    UnsignedReading(read);
  }

  /** Negating an exact reading. */
  lemma NegateExact(negated: Option<real>, reading: Option<real>, x: real)
    requires negated == Negate(reading) && reading == Some(x)
    ensures negated == Some(-x)
  {
  }

  /** A leading minus negates the number `parse` reads from a plain number. */
  lemma ParseNegated(u: string, x: real)
    requires Plain(u) && Parse(Some(u)) == Some(x)
    ensures Parse(Some("-" + u)) == Some(-x)
  {
    FilterNegated(u);
    ParseOfFiltered(Some(u), true, true, u);
    ParseOfFiltered(Some("-" + u), true, true, "-" + u);
    ReadNegated(u);
    NegateExact(Parse(Some("-" + u)), Parse(Some(u)), x);
  }

  /** A plain decimal, digits, one separator and digits, survives the filter unchanged. */
  lemma DecimalTextUnfiltered(s: string, whole: string, sep: char, fraction: string)
    requires whole != "" && AllDigits(whole) && AllDigits(fraction) && IsSeparator(sep)
    requires s == whole + [sep] + fraction
    ensures Filter(Some(s), true, true) == Some(s)
  {
    DecimalCharacters(s, whole, sep, fraction);
    DecimalHasOneSeparator(s, whole, sep, fraction);
    FilterUnchanged(s);
  }

  /** `parse` reads digits, either separator and digits as the exact decimal. */
  lemma ParseDecimal(s: string, whole: string, sep: char, fraction: string)
    requires whole != "" && AllDigits(whole) && AllDigits(fraction) && IsSeparator(sep)
    requires s == whole + [sep] + fraction
    ensures Parse(Some(s)) == Some(DigitsValue(whole) as real + FractionValue(fraction))
  {
    DecimalTextUnfiltered(s, whole, sep, fraction);
    ParseOfFiltered(Some(s), true, true, s);
    DecimalPointed(s, whole, sep, fraction);
    DecimalReading(whole + "." + fraction, whole, fraction);
  }

  /** Digits, a separator and digits make a plain number. */
  lemma DecimalIsPlain(whole: string, sep: char, fraction: string)
    requires whole != "" && AllDigits(whole) && AllDigits(fraction) && IsSeparator(sep)
    ensures Plain(whole + [sep] + fraction)
  {
    var u := whole + [sep] + fraction;
    DecimalCharacters(u, whole, sep, fraction);
    DecimalHasOneSeparator(u, whole, sep, fraction);
    assert u[0] == whole[0];
  }

  /** `parse` reads digits alone as the integer. */
  lemma ParseInteger(digits: string)
    requires digits != "" && AllDigits(digits)
    ensures Parse(Some(digits)) == Some(DigitsValue(digits) as real)
  {
    assert All(digits, NotWhitespace) && All(digits, NotSeparator) && ',' !in digits;
    FilterUnchanged(digits);
    ParseOfFiltered(Some(digits), true, true, digits);
    UnsignedIntegerReading(digits);
    UnsignedReading(digits);
  }

  /** Digits alone make a plain number. */
  lemma IntegerIsPlain(digits: string)
    requires digits != "" && AllDigits(digits)
    ensures Plain(digits)
  {
    assert All(digits, NotWhitespace) && All(digits, NotSeparator);
  }

  /** Digits and separators only. */
  predicate DigitOrSeparator(c: char)
  {
    IsDigit(c) || IsSeparator(c)
  }

  /** Non-empty text with no minus passes the minus step unchanged, under either flag. */
  lemma MinusStepWithoutMinus(f: string, allowNegative: bool)
    requires f != "" && forall i :: 0 <= i < |f| ==> f[i] != '-'
    ensures MinusStep(f, allowNegative) == f
  {
    if allowNegative {
      assert All(f[1..], NotMinus) by {
        forall i | 0 <= i < |f| - 1 ensures f[1..][i] != '-' {
          assert f[1..][i] == f[i + 1];
        }
      }
      assert [f[0]] + f[1..] == f;
    } else {
      assert All(f, NotMinus);
    }
  }

  /** With decimals forbidden the filter leaves the digits alone, in order. */
  lemma FilterWithoutDecimals(s: string, allowNegative: bool)
    requires All(s, DigitOrSeparator) && Select(s, NotSeparator) != ""
    ensures AllDigits(Select(s, NotSeparator))
    ensures Filter(Some(s), false, allowNegative) == Some(Select(s, NotSeparator))
  {
    var digits := Select(s, NotSeparator);
    SelectKeepsAll(s, NotSeparator, DigitOrSeparator);
    assert AllDigits(digits);
    assert All(s, NotWhitespace);
    assert Select(s, NotWhitespace) == s;
    MinusStepWithoutMinus(digits, allowNegative);
  }

  /** With decimals forbidden every separator goes and the digits merge into one
      integer, under either minus flag. */
  lemma ParseWithoutDecimals(s: string, allowNegative: bool)
    requires All(s, DigitOrSeparator) && Select(s, NotSeparator) != ""
    ensures var digits := Select(s, NotSeparator);
      && AllDigits(digits)
      && Filter(Some(s), false, allowNegative) == Some(digits)
      && Parse(Some(s), false, allowNegative) == Some(DigitsValue(digits) as real)
  {
    var digits := Select(s, NotSeparator);
    FilterWithoutDecimals(s, allowNegative);
    ParseOfFiltered(Some(s), false, allowNegative, digits);
    assert ',' !in digits;
    UnsignedIntegerReading(digits);
    UnsignedReading(digits);
  }

  /** Either separator of a plain decimal reads as the point. */
  lemma DecimalPointed(s: string, whole: string, sep: char, fraction: string)
    requires AllDigits(whole) && AllDigits(fraction) && IsSeparator(sep)
    requires s == whole + [sep] + fraction
    ensures ReplaceFirstComma(s) == whole + "." + fraction
  {
    assert ',' !in whole by { assert All(whole, NotSeparator); }
    if sep == ',' {
      ReplaceFirstCommaAt(whole, fraction);
    } else {
      assert ',' !in s by {
        assert All(fraction, NotSeparator);
        forall i | 0 <= i < |s| ensures s[i] != ',' {
          if i < |whole| { assert s[i] == whole[i]; }
          else if i > |whole| { assert s[i] == fraction[i - |whole| - 1]; }
        }
      }
    }
  }

  lemma ParseDotExample(dot: string)
    requires dot == "1234.56"
    ensures Parse(Some(dot)) == Some(1234.56)
  {
    DigitsExample();
    ParseDecimal(dot, "1234", '.', "56");
  }

  lemma ParseCommaExample(comma: string)
    requires comma == "1234,56"
    ensures Parse(Some(comma)) == Some(1234.56)
  {
    DigitsExample();
    ParseDecimal(comma, "1234", ',', "56");
  }

  /** `-1234.56` keeps its minus through the filter and parses to -1234.56. */
  lemma ParseNegativeExample(negative: string)
    requires negative == "-1234.56"
    ensures Filter(Some(negative), true, true) == Some(negative)
    ensures Parse(Some(negative)) == Some(-1234.56)
  {
    var u := "1234.56";
    assert u == "1234" + ['.'] + "56";
    DigitsExample();
    DecimalIsPlain("1234", '.', "56");
    ParseDotExample(u);
    FilterNegated(u);
    ParseNegated(u, 1234.56);
    MinusLiteral(negative);
  }

  lemma MinusLiteral(negative: string)
    requires negative == "-1234.56"
    ensures negative == "-" + "1234.56"
  {
  }

  lemma ParseLettersExample(letters: string)
    requires letters == "abcde"
    ensures Parse(Some(letters)) == None
  {
    SelectFirst(letters, NotWhitespace);
    LeadingNonNumericParsesToNull(letters, true, true);
  }
}
