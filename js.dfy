/** The JavaScript semantics the form library's logic layer relies on: the values a
    field can hold, truthiness, optional arguments, thrown type errors, `.length`, the
    whitespace class of `\s` and `trim`, and the conversion done by `Number()` and by
    the relational operators. */
module Js {

  /** A field value: what `FieldData.value` may hold at run time. */
  datatype Value =
    | Undefined
    | Null
    | Bool(b: bool)
    | Num(n: real)
    | Str(s: string)
    | Arr(items: seq<Value>)

  /** An optional argument: left out or `undefined` (`Omitted`), `null` (`NullArg`),
      or given. */
  datatype Arg<T> = Omitted | NullArg | Given(value: T)

  /** The result of a call that may throw a `TypeError` (a method called on a value
      that does not have it). */
  datatype Outcome<T> = Returned(value: T) | TypeError

  /** `!!v`: `undefined`, `null`, `false`, `0` and `''` are falsy; every array is truthy. */
  predicate Truthy(v: Value): (t: bool)
    ensures !t <==> v in {Undefined, Null, Bool(false), Num(0.0), Str("")}
  {
    match v
    case Undefined => false
    case Null => false
    case Bool(b) => b
    case Num(n) => n != 0.0
    case Str(s) => s != ""
    case Arr(_) => true
  }

  /** `!!x` for a boolean parameter declared `= true`: the default applies when the
      argument is left out or `undefined`, and `null` is falsy. */
  predicate RequiredOn(x: Arg<bool>): (on: bool)
    ensures on <==> x == Omitted || x == Given(true)
  {
    match x
    case Omitted => true
    case NullArg => false
    case Given(b) => b
  }

  /** `!!x` for a numeric argument: `undefined`, `null` and `0` are falsy. */
  predicate BoundSet(x: Arg<real>): (b: bool)
    ensures b <==> ArgToNumber(x).Some? && ArgToNumber(x).value != 0.0
  {
    x.Given? && x.value != 0.0
  }

  /** `v.length`: strings and arrays have one, every other value yields `undefined`. */
  function Length(v: Value): (r: Option<nat>)
    ensures r.Some? <==> (v.Str? || v.Arr?)
    ensures v.Str? ==> r == Some(|v.s|)
    ensures v.Arr? ==> r == Some(|v.items|)
  {
    match v
    case Str(s) => Some(|s|)
    case Arr(items) => Some(|items|)
    case _ => None
  }

  datatype Option<T> = None | Some(value: T)

  /** The characters matched by `\s` and removed by `String.prototype.trim`:
      WhiteSpace and LineTerminator of ECMAScript. */
  predicate IsWhitespace(c: char): (w: bool)
    ensures w ==> !('0' <= c <= '9') && c != '.' && c != ',' && c != '-' && c != '+' && c != 'e' && c != 'E'
  {
    || c == ' ' || c == '\t' || c == '\n' || c == '\r' || c == '\U{000B}' || c == '\U{000C}'
    || c == '\U{00A0}' || c == '\U{1680}' || ('\U{2000}' <= c <= '\U{200A}')
    || c == '\U{2028}' || c == '\U{2029}' || c == '\U{202F}' || c == '\U{205F}'
    || c == '\U{3000}' || c == '\U{FEFF}'
  }

  /** `s.trim()`: drops leading and trailing whitespace. */
  function Trim(s: string): (r: string)
    ensures r == "" <==> forall i :: 0 <= i < |s| ==> IsWhitespace(s[i])
    ensures r != "" ==> !IsWhitespace(r[0]) && !IsWhitespace(r[|r| - 1])
    ensures exists a :: TrimmedAt(s, r, a)
  {
    var t := TrimStart(s);
    var r := TrimEnd(t);
    TrimBothEnds(s, t, r);
    r
  }

  lemma TrimBothEnds(s: string, t: string, r: string)
    requires |t| <= |s| && t == s[|s| - |t|..] && forall i :: 0 <= i < |s| - |t| ==> IsWhitespace(s[i])
    requires |r| <= |t| && r == t[..|r|] && forall i :: |r| <= i < |t| ==> IsWhitespace(t[i])
    ensures TrimmedAt(s, r, |s| - |t|)
  {
    var a := |s| - |t|;
    assert forall i :: a + |r| <= i < |s| ==> s[i] == t[i - a];
  }

  /** `r` is `s` from index `a` on, less a tail, and everything of `s` around it is
      whitespace. */
  predicate TrimmedAt(s: string, r: string, a: nat)
  {
    && a + |r| <= |s| && r == s[a..a + |r|]
    && (forall i :: 0 <= i < a ==> IsWhitespace(s[i]))
    && (forall i :: a + |r| <= i < |s| ==> IsWhitespace(s[i]))
  }

  function TrimStart(s: string): (r: string)
    ensures |r| <= |s| && r == s[|s| - |r|..]
    ensures forall i :: 0 <= i < |s| - |r| ==> IsWhitespace(s[i])
    ensures r == "" <==> forall i :: 0 <= i < |s| ==> IsWhitespace(s[i])
    ensures r != "" ==> !IsWhitespace(r[0])
  {
    if s == "" || !IsWhitespace(s[0]) then s else TrimStart(s[1..])
  }

  function TrimEnd(s: string): (r: string)
    ensures |r| <= |s| && r == s[..|r|]
    ensures forall i :: |r| <= i < |s| ==> IsWhitespace(s[i])
    ensures r == "" <==> forall i :: 0 <= i < |s| ==> IsWhitespace(s[i])
    ensures r != "" ==> !IsWhitespace(r[|r| - 1])
  {
    if s == "" || !IsWhitespace(s[|s| - 1]) then s else TrimEnd(s[..|s| - 1])
  }

  predicate IsDigit(c: char)
  {
    '0' <= c <= '9'
  }

  predicate AllDigits(s: string)
  {
    forall i :: 0 <= i < |s| ==> IsDigit(s[i])
  }

  function Digit(c: char): nat
    requires IsDigit(c)
  {
    c as int - '0' as int
  }

  /** The value of a run of decimal digits, most significant first. */
  function DigitsValue(s: string): nat
    requires AllDigits(s)
  {
    if s == "" then 0 else DigitsValue(s[..|s| - 1]) * 10 + Digit(s[|s| - 1])
  }

  /** The value of the digits after a decimal point: `FractionValue("56") == 0.56`. */
  function FractionValue(f: string): real
    requires AllDigits(f)
  {
    if f == "" then 0.0 else (Digit(f[0]) as real + FractionValue(f[1..])) / 10.0
  }

  /** `x` times ten to the power `e`. */
  function Shift(x: real, e: int): real
    decreases if e < 0 then -e else e
  {
    if e == 0 then x else if e > 0 then Shift(x * 10.0, e - 1) else Shift(x / 10.0, e + 1)
  }

  /** The index of the first occurrence of `c` in `s`, or `|s|`. */
  function IndexOf(s: string, c: char): (r: nat)
    ensures r <= |s|
    ensures r < |s| ==> s[r] == c
  {
    if s == "" then 0 else if s[0] == c then 0 else 1 + IndexOf(s[1..], c)
  }

  lemma {:induction false} NotIn(s: string, c: char)
    requires forall i :: 0 <= i < |s| ==> s[i] != c
    ensures IndexOf(s, c) == |s|
  {
    if s != "" { NotIn(s[1..], c); }
  }

  lemma {:induction false} FirstAt(a: string, b: string, c: char)
    requires IndexOf(a, c) == |a|
    ensures IndexOf(a + b, c) == |a| + IndexOf(b, c)
  {
    if a != "" {
      assert (a + b)[1..] == a[1..] + b;
      FirstAt(a[1..], b, c);
    } else {
      assert a + b == b;
    }
  }

  /** `Number(s)` for a string: surrounding whitespace is ignored, the empty string is 0,
      otherwise an optional sign, decimal digits with at most one `.` (at least one digit)
      and an optional exponent; anything else is NaN (`None`). */
  function StringToNumber(s: string): (r: Option<real>)
    ensures Trim(s) == "" ==> r == Some(0.0)
  {
    var t := Trim(s);
    if t == "" then Some(0.0)
    else
      var start := if t[0] == '-' || t[0] == '+' then 1 else 0;
      var magnitude := UnsignedDecimal(t[start..]);
      if t[0] == '-' then Negate(magnitude) else magnitude
  }

  function Negate(x: Option<real>): Option<real>
  {
    if x.Some? then Some(-x.value) else None
  }

  /** Mantissa with an optional exponent introduced by `e` or `E`. */
  function UnsignedDecimal(t: string): (r: Option<real>)
  {
    var e := Min(IndexOf(t, 'e'), IndexOf(t, 'E'));
    var mantissa := Mantissa(t[..e]);
    if mantissa.None? then None
    else if e == |t| then mantissa
    else
      var exponent := Exponent(t[e + 1..]);
      if exponent.None? then None else Some(Shift(mantissa.value, exponent.value))
  }

  function Min(a: nat, b: nat): nat
  {
    if a <= b then a else b
  }

  /** Digits with at most one `.`, at least one digit in all. */
  function Mantissa(m: string): (r: Option<real>)
    ensures AllDigits(m) && m != "" ==> r == Some(DigitsValue(m) as real)
  {
    var dot := IndexOf(m, '.');
    var whole := m[..dot];
    var fraction := if dot < |m| then m[dot + 1..] else "";
    assert dot == |m| ==> whole == m;
    if !AllDigits(whole) || !AllDigits(fraction) || whole + fraction == "" then None
    else Some(DigitsValue(whole) as real + FractionValue(fraction))
  }

  /** An exponent: optional sign and at least one digit. */
  function Exponent(x: string): Option<int>
  {
    var digits := if x != "" && (x[0] == '+' || x[0] == '-') then x[1..] else x;
    if digits == "" || !AllDigits(digits) then None
    else if x[0] == '-' then Some(-(DigitsValue(digits) as int))
    else Some(DigitsValue(digits) as int)
  }

  /** `Number(v)` for a field value; `None` is NaN. An array converts through its
      string form: `[]` is 0, a one-element array converts as its element's string,
      two or more elements join with `,`, which no number contains. */
  function ToNumber(v: Value): (r: Option<real>)
    ensures v.Num? ==> r == Some(v.n)
    ensures v == Null ==> r == Some(0.0)
    ensures v == Undefined ==> r == None
    ensures v.Bool? ==> r == Some(if v.b then 1.0 else 0.0)
    ensures v.Str? ==> r == StringToNumber(v.s)
    ensures v == Arr([]) ==> r == Some(0.0)
    ensures v.Arr? && |v.items| >= 2 ==> r == None
    decreases v, 0
  {
    match v
    case Undefined => None
    case Null => Some(0.0)
    case Bool(b) => Some(if b then 1.0 else 0.0)
    case Num(n) => Some(n)
    case Str(s) => StringToNumber(s)
    case Arr(items) =>
      if |items| == 0 then Some(0.0)
      else if |items| == 1 then ElementToNumber(items[0])
      else None
  }

  /** `Number(String(x))` for the single element of an array. */
  function ElementToNumber(x: Value): (r: Option<real>)
    ensures x == Undefined || x == Null ==> r == Some(0.0)
    ensures x.Bool? ==> r == None
    ensures x.Num? ==> r == Some(x.n)
    ensures x.Str? ==> r == StringToNumber(x.s)
    decreases x, 1
  {
    match x
    case Undefined => Some(0.0)
    case Null => Some(0.0)
    case Bool(_) => None
    case Num(n) => Some(n)
    case Str(s) => StringToNumber(s)
    case Arr(items) => ToNumber(x)
  }

  /** `Number(x)` for a numeric argument: `undefined` is NaN, `null` is 0. */
  function ArgToNumber(x: Arg<real>): (r: Option<real>)
    ensures x.Given? ==> r == Some(x.value)
  {
    match x
    case Omitted => None
    case NullArg => Some(0.0)
    case Given(n) => Some(n)
  }

  /** `a >= b` and `a <= b` on numbers: false whenever either side is NaN. */
  predicate AtLeast(a: Option<real>, b: Option<real>)
  {
    a.Some? && b.Some? && a.value >= b.value
  }

  predicate AtMost(a: Option<real>, b: Option<real>)
  {
    a.Some? && b.Some? && a.value <= b.value
  }

  function NatToNumber(n: Option<nat>): Option<real>
  {
    if n.Some? then Some(n.value as real) else None
  }

  /** A string that neither starts nor ends with whitespace is its own trim. */
  lemma TrimUnpadded(s: string)
    requires s != "" && !IsWhitespace(s[0]) && !IsWhitespace(s[|s| - 1])
    ensures Trim(s) == s
  {
  }

  /** An unsigned string that starts and ends with a non-blank is read by the grammar
      without trimming. */
  lemma {:induction false} UnsignedReading(s: string)
    requires s != "" && !IsWhitespace(s[0]) && !IsWhitespace(s[|s| - 1])
    requires s[0] != '-' && s[0] != '+'
    ensures StringToNumber(s) == UnsignedDecimal(s)
  {
    assert Trim(s) == s by { TrimUnpadded(s); }
    UnsignedTrimmed(s);
  }

  lemma {:induction false} UnsignedTrimmed(s: string)
    requires s != "" && Trim(s) == s
    requires s[0] != '-' && s[0] != '+'
    ensures StringToNumber(s) == UnsignedDecimal(s)
  {
    var t := Trim(s);
    var start := if t[0] == '-' || t[0] == '+' then 1 else 0;
    assert start == 0;
    assert t[start..] == s;
  }

  lemma {:induction false} NoExponentReading(s: string)
    requires forall i :: 0 <= i < |s| ==> s[i] != 'e' && s[i] != 'E'
    ensures UnsignedDecimal(s) == Mantissa(s)
  {
    NotIn(s, 'e');
    NotIn(s, 'E');
    assert s[..|s|] == s;
  }

  lemma {:induction false} MantissaReading(whole: string, fraction: string)
    requires whole != "" && AllDigits(whole) && AllDigits(fraction)
    ensures Mantissa(whole + "." + fraction)
         == Some(DigitsValue(whole) as real + FractionValue(fraction))
  {
    var m := whole + "." + fraction;
    assert IndexOf(m, '.') == |whole| by {
      NotIn(whole, '.');
      assert m == whole + ("." + fraction);
      FirstAt(whole, "." + fraction, '.');
    }
    var dot := IndexOf(m, '.');
    assert m[..dot] == whole;
    assert dot < |m| && m[dot + 1..] == fraction;
    var whole', fraction' := m[..dot], m[dot + 1..];
    assert whole' + fraction' != "";
  }

  lemma {:induction false} DecimalHasNoExponent(s: string, whole: string, fraction: string)
    requires AllDigits(whole) && AllDigits(fraction)
    requires s == whole + "." + fraction
    ensures UnsignedDecimal(s) == Mantissa(s)
  {
    forall i | 0 <= i < |s| ensures s[i] != 'e' && s[i] != 'E' {
      if i < |whole| { assert s[i] == whole[i]; }
      else if i > |whole| { assert s[i] == fraction[i - |whole| - 1]; }
    }
    NoExponentReading(s);
  }

  lemma {:induction false} DecimalIsUnsigned(s: string, whole: string, fraction: string)
    requires whole != "" && AllDigits(whole) && AllDigits(fraction)
    requires s == whole + "." + fraction
    ensures StringToNumber(s) == UnsignedDecimal(s)
  {
    assert s[0] == whole[0];
    assert s[|s| - 1] == (if fraction == "" then '.' else fraction[|fraction| - 1]);
    UnsignedReading(s);
  }

  /** `Number()` reads `whole.fraction` as the exact decimal. */
  lemma {:induction false} DecimalReading(s: string, whole: string, fraction: string)
    requires whole != "" && AllDigits(whole) && AllDigits(fraction)
    requires s == whole + "." + fraction
    ensures StringToNumber(s) == Some(DigitsValue(whole) as real + FractionValue(fraction))
  {
    UnsignedDecimalReading(s, whole, fraction);
    DecimalIsUnsigned(s, whole, fraction);
  }

  /** The grammar without its sign reads `whole.fraction` as the exact decimal. */
  lemma UnsignedDecimalReading(s: string, whole: string, fraction: string)
    requires whole != "" && AllDigits(whole) && AllDigits(fraction)
    requires s == whole + "." + fraction
    ensures UnsignedDecimal(s) == Some(DigitsValue(whole) as real + FractionValue(fraction))
  {
    MantissaReading(whole, fraction);
    DecimalHasNoExponent(s, whole, fraction);
  }

  /** The grammar without its sign reads a run of digits as the integer they spell. */
  lemma UnsignedIntegerReading(s: string)
    requires s != "" && AllDigits(s)
    ensures UnsignedDecimal(s) == Some(DigitsValue(s) as real)
  {
    forall i | 0 <= i < |s| ensures s[i] != 'e' && s[i] != 'E' {
      assert IsDigit(s[i]);
    }
    NoExponentReading(s);
  }

  /** A leading minus negates the reading of the unsigned text after it. */
  lemma {:induction false} NegativeReading(t: string, u: string)
    requires u != "" && IsDigit(u[0]) && !IsWhitespace(u[|u| - 1])
    requires t == "-" + u
    ensures StringToNumber(t) == Negate(UnsignedDecimal(u))
  {
    assert t[0] == '-' && t[|t| - 1] == u[|u| - 1];
    TrimUnpadded(t);
    assert t[1..] == u;
  }

  lemma DigitsExample()
    ensures DigitsValue("1234") == 1234 && FractionValue("56") == 0.56
  {
    assert "1234"[..3] == "123" && "123"[..2] == "12" && "12"[..1] == "1" && "1"[..0] == "";
  }

  lemma StringToNumberExample(s: string)
    requires s == "1234.56"
    ensures StringToNumber(s) == Some(1234.56)
  {
    assert "1234" + "." + "56" == s;
    DecimalReading(s, "1234", "56");
    DigitsExample();
  }

  /** A mantissa that does not start with a digit or `.` is not a number. */
  lemma MantissaLeadingNonDigit(m: string)
    requires m == "" || (!IsDigit(m[0]) && m[0] != '.')
    ensures Mantissa(m) == None
  {
    var dot := IndexOf(m, '.');
    if m != "" {
      assert dot != 0;
      assert m[..dot][0] == m[0];
    }
  }

  /** `Number()` of an unpadded string whose first character cannot begin a number (a
      letter, say) is NaN. */
  lemma LeadingNonNumericIsNaN(t: string)
    requires t != "" && Trim(t) == t
    requires !IsDigit(t[0]) && t[0] != '.' && t[0] != '+' && t[0] != '-'
    ensures StringToNumber(t) == None
  {
    UnsignedTrimmed(t);
    var e := Min(IndexOf(t, 'e'), IndexOf(t, 'E'));
    if e == 0 {
      assert t[..e] == "";
      MantissaLeadingNonDigit(t[..e]);
    } else {
      assert t[..e][0] == t[0];
      MantissaLeadingNonDigit(t[..e]);
    }
  }
}
