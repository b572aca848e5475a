/** The numeric text normaliser (src/util/numbers.ts): `filter` strips whitespace,
    decimal separators and minus signs that a number cannot hold, `parse` converts what
    remains, reading a comma as the decimal point. */
module Numbers {
  import opened Js
  import opened Text

  predicate IsSeparator(c: char) { c == '.' || c == ',' }
  predicate IsMinus(c: char) { c == '-' }
  predicate NotWhitespace(c: char) { !IsWhitespace(c) }
  predicate NotSeparator(c: char) { !IsSeparator(c) }
  predicate NotMinus(c: char) { !IsMinus(c) }

  /** The characters `filter` never removes: neither whitespace, separator nor minus. */
  predicate Significant(c: char) { !IsWhitespace(c) && !IsSeparator(c) && !IsMinus(c) }

  /** The separators of a string, in order. */
  function Separators(s: string): string
  {
    Select(s, IsSeparator)
  }

  /** `replace(/[.,](?=.*[.,])/g, '')` on a string without line terminators: removes
      every separator that another separator follows. */
  function KeepLastSeparator(s: string): (r: string)
    ensures |r| <= |s|
    ensures s != "" ==> r != "" && r[|r| - 1] == s[|s| - 1]
  {
    if s == "" then ""
    else if IsSeparator(s[0]) && Separators(s[1..]) != "" then KeepLastSeparator(s[1..])
    else [s[0]] + KeepLastSeparator(s[1..])
  }

  /** `filtered[0] + filtered.slice(1).replace(/-/g, '')`: keeps the first character and
      removes every later minus. Indexing an empty string yields `undefined`, which the
      concatenation spells out. */
  function LeadingMinusOnly(f: string): (r: string)
    ensures f != "" ==> r != "" && r[0] == f[0]
  {
    if f == "" then "undefined" else [f[0]] + Select(f[1..], NotMinus)
  }

  /** Line 15: with decimals allowed only the last separator stays, otherwise none. */
  function SeparatorStep(s: string, allowDecimals: bool): (r: string)
    ensures Subsequence(r, s)
    ensures Separators(r) == if allowDecimals then LastOnly(Separators(s)) else ""
    ensures allowDecimals && |Separators(s)| <= 1 ==> r == s
  {
    if allowDecimals then
      SeparatorStepIsSubsequence(s);
      LastSeparatorKept(s);
      assert |Separators(s)| <= 1 ==> KeepLastSeparator(s) == s by {
        if |Separators(s)| <= 1 {
          SingleSeparatorKept(s);
        }
      }
      KeepLastSeparator(s)
    else
      SelectIsSubsequence(s, NotSeparator);
      SeparatorsRemoved(s);
      Select(s, NotSeparator)
  }

  /** Line 18: with negatives allowed only a leading minus stays, otherwise none; with
      negatives allowed the first character, a minus in particular, is kept. */
  function MinusStep(f: string, allowNegative: bool): (r: string)
    ensures forall i :: 0 <= i < |r| && r[i] == '-' ==> allowNegative && i == 0
    ensures allowNegative && f != "" ==> r != "" && r[0] == f[0]
  {
    if allowNegative then
      var r := LeadingMinusOnly(f);
      assert f != "" ==> forall i :: 1 <= i < |r| ==> r[i] == Select(f[1..], NotMinus)[i - 1];
      r
    else Select(f, NotMinus)
  }

  /** `filter(value, allowDecimals, allowNegative)`; `None` stands for `null`, and so for
      a missing value. The flags have no defaults: an omitted flag is falsy. */
  function Filter(value: Option<string>, allowDecimals: bool, allowNegative: bool): (r: Option<string>)
    ensures r.None? <==> value.None? || forall i :: 0 <= i < |value.value| ==> IsWhitespace(value.value[i])
  {
    if value.None? then None
    else
      var stripped := Select(value.value, NotWhitespace);
      if stripped == "" then None
      else Some(MinusStep(SeparatorStep(stripped, allowDecimals), allowNegative))
  }

  /** `s.replace(',', '.')`: only the first comma. */
  function ReplaceFirstComma(s: string): (r: string)
    ensures |r| == |s|
    ensures ',' !in s ==> r == s
  {
    if s == "" then ""
    else if s[0] == ',' then "." + s[1..]
    else [s[0]] + ReplaceFirstComma(s[1..])
  }

  /** Each character is kept, or is a comma turned into a point. */
  lemma {:induction false} ReplaceFirstCommaPointwise(s: string, i: nat)
    requires i < |s|
    ensures ReplaceFirstComma(s)[i] == s[i] || (s[i] == ',' && ReplaceFirstComma(s)[i] == '.')
  {
    if i > 0 && s[0] != ',' {
      ReplaceFirstCommaPointwise(s[1..], i - 1);
    }
  }

  /** `parse(value, allowDecimals = true, allowNegative = true)`: `None` for `null`, for
      a value the filter empties, and for NaN. */
  function Parse(value: Option<string>, allowDecimals: bool := true, allowNegative: bool := true): (r: Option<real>)
    ensures value.None? ==> r.None?
    ensures value.Some? && (forall i :: 0 <= i < |value.value| ==> IsWhitespace(value.value[i])) ==> r.None?
    ensures Filter(value, allowDecimals, allowNegative) == Some("") ==> r.None?
  {
    var filtered := Filter(value, allowDecimals, allowNegative);
    if filtered.None? || filtered.value == "" then None
    else StringToNumber(ReplaceFirstComma(filtered.value))
  }

  // Properties of the separator step

  /** At most the last separator survives. */
  lemma {:induction false} LastSeparatorKept(s: string)
    ensures Separators(KeepLastSeparator(s)) == LastOnly(Separators(s))
  {
    if s != "" {
      LastSeparatorKept(s[1..]);
      if IsSeparator(s[0]) && Separators(s[1..]) != "" {
        SeparatorDropped(s);
      } else {
        SeparatorKept(s);
      }
    }
  }

  /** The separator kept is the last one, at its own position: every separator before it
      goes, everything from it on stays. */
  lemma KeepLastSeparatorAt(s: string, k: nat)
    requires k < |s| && IsSeparator(s[k]) && Separators(s[k + 1..]) == ""
    ensures KeepLastSeparator(s) == Select(s[..k], NotSeparator) + s[k..]
  {
    assert s[k..] == [s[k]] + s[k + 1..];
    assert s == s[..k] + s[k..];
    KeepLastSeparatorSplit(s[..k], s[k], s[k + 1..]);
  }

  lemma {:induction false} KeepLastSeparatorSplit(a: string, c: char, b: string)
    requires IsSeparator(c) && Separators(b) == ""
    ensures KeepLastSeparator(a + ([c] + b)) == Select(a, NotSeparator) + ([c] + b)
  {
    if a == "" {
      assert a + ([c] + b) == [c] + b;
      LastSeparatorFirst([c] + b);
    } else {
      var rest := a[1..] + ([c] + b);
      assert a + ([c] + b) == [a[0]] + rest;
      SeparatorAhead(a[1..], c, b);
      KeepLastSeparatorCons(a[0], rest);
      KeepLastSeparatorSplit(a[1..], c, b);
      SelectHead(a, NotSeparator);
      ConsAssociates(a[0], Select(a[1..], NotSeparator), [c] + b);
    }
  }

  lemma LastSeparatorFirst(s: string)
    requires s != "" && IsSeparator(s[0]) && Separators(s[1..]) == ""
    ensures KeepLastSeparator(s) == s
  {
    SingleSeparatorKept(s[1..]);
    assert s == [s[0]] + s[1..];
  }

  lemma SeparatorAhead(a: string, c: char, b: string)
    requires IsSeparator(c)
    ensures Separators(a + ([c] + b)) != ""
  {
    assert (a + ([c] + b))[|a|] == c;
  }

  /** One step of the separator step: a separator with another one ahead goes. */
  lemma KeepLastSeparatorCons(x: char, rest: string)
    requires Separators(rest) != ""
    ensures KeepLastSeparator([x] + rest) ==
      if IsSeparator(x) then KeepLastSeparator(rest) else [x] + KeepLastSeparator(rest)
  {
    assert ([x] + rest)[0] == x && ([x] + rest)[1..] == rest;
  }

  /** The last character alone, or nothing. */
  function LastOnly(s: string): (r: string)
    ensures |r| <= 1
  {
    if s == "" then "" else [s[|s| - 1]]
  }

  lemma SeparatorDropped(s: string)
    requires s != "" && IsSeparator(s[0]) && Separators(s[1..]) != ""
    requires Separators(KeepLastSeparator(s[1..])) == LastOnly(Separators(s[1..]))
    ensures Separators(KeepLastSeparator(s)) == LastOnly(Separators(s))
  {
    assert KeepLastSeparator(s) == KeepLastSeparator(s[1..]);
    SeparatorsCons(s);
    LastOnlyCons(s[0], Separators(s[1..]));
  }

  lemma SeparatorsCons(s: string)
    requires s != "" && IsSeparator(s[0])
    ensures Separators(s) == [s[0]] + Separators(s[1..])
  {
  }

  lemma LastOnlyCons(x: char, t: string)
    requires t != ""
    ensures LastOnly([x] + t) == LastOnly(t)
  {
    assert ([x] + t)[|t|] == t[|t| - 1];
  }

  lemma SeparatorKept(s: string)
    requires s != "" && !(IsSeparator(s[0]) && Separators(s[1..]) != "")
    requires Separators(KeepLastSeparator(s[1..])) == LastOnly(Separators(s[1..]))
    ensures Separators(KeepLastSeparator(s)) == LastOnly(Separators(s))
  {
    var rest := KeepLastSeparator(s[1..]);
    assert KeepLastSeparator(s) == [s[0]] + rest;
    SelectCons(s[0], rest, IsSeparator);
  }

  /** The separator step removes separators only. */
  lemma {:induction false} SeparatorStepKeepsOthers(s: string)
    ensures Select(KeepLastSeparator(s), NotSeparator) == Select(s, NotSeparator)
  {
    if s != "" {
      SeparatorStepKeepsOthers(s[1..]);
      if !(IsSeparator(s[0]) && Separators(s[1..]) != "") {
        assert ([s[0]] + KeepLastSeparator(s[1..]))[1..] == KeepLastSeparator(s[1..]);
      }
    }
  }

  lemma {:induction false} SeparatorStepIsSubsequence(s: string)
    ensures Subsequence(KeepLastSeparator(s), s)
  {
    if s != "" {
      SeparatorStepIsSubsequence(s[1..]);
      var r := KeepLastSeparator(s);
      if !(IsSeparator(s[0]) && Separators(s[1..]) != "") {
        assert r[0] == s[0] && r[1..] == KeepLastSeparator(s[1..]);
      }
    }
  }

  /** A string with at most one separator passes the separator step unchanged. */
  lemma {:induction false} SingleSeparatorKept(s: string)
    requires |Separators(s)| <= 1
    ensures KeepLastSeparator(s) == s
  {
    if s != "" {
      assert s == [s[0]] + s[1..];
      SelectAppend([s[0]], s[1..], IsSeparator);
      SingleSeparatorKept(s[1..]);
    }
  }

  // Properties of the whole filter

  lemma UndefinedHasNoWhitespace(u: string)
    requires u == "undefined"
    ensures All(u, NotWhitespace)
  {
  }

  lemma {:induction false} KeepLastSeparatorKeepsAll(s: string, p: char -> bool)
    requires All(s, p)
    ensures All(KeepLastSeparator(s), p)
  {
    if s != "" {
      KeepLastSeparatorKeepsAll(s[1..], p);
    }
  }

  lemma LeadingMinusOnlyKeepsAll(f: string, p: char -> bool)
    requires f != "" && All(f, p)
    ensures All(LeadingMinusOnly(f), p)
  {
    SelectKeepsAll(f[1..], NotMinus, p);
  }

  /** No whitespace is left. */
  lemma FilterRemovesWhitespace(value: Option<string>, allowDecimals: bool, allowNegative: bool)
    requires Filter(value, allowDecimals, allowNegative).Some?
    ensures All(Filter(value, allowDecimals, allowNegative).value, NotWhitespace)
  {
    var stripped := Select(value.value, NotWhitespace);
    var separated := SeparatorStep(stripped, allowDecimals);
    if allowDecimals {
      KeepLastSeparatorKeepsAll(stripped, NotWhitespace);
    } else {
      SelectKeepsAll(stripped, NotSeparator, NotWhitespace);
    }
    if !allowNegative {
      SelectKeepsAll(separated, NotMinus, NotWhitespace);
    } else if separated == "" {
      UndefinedHasNoWhitespace(LeadingMinusOnly(separated));
    } else {
      LeadingMinusOnlyKeepsAll(separated, NotWhitespace);
    }
  }

  lemma UndefinedHasNoSeparatorOrMinus(u: string)
    requires u == "undefined"
    ensures Separators(u) == "" && forall i :: 0 <= i < |u| ==> u[i] != '-'
  {
    assert All(u, NotSeparator);
  }

  lemma MinusStepKeepsSeparators(f: string, allowNegative: bool)
    ensures Separators(MinusStep(f, allowNegative)) == Separators(f)
  {
    if !allowNegative {
      SelectThenSelect(f, NotMinus, IsSeparator);
    } else if f == "" {
      UndefinedHasNoSeparatorOrMinus(LeadingMinusOnly(f));
    } else {
      assert f == [f[0]] + f[1..];
      SelectAppend([f[0]], Select(f[1..], NotMinus), IsSeparator);
      SelectAppend([f[0]], f[1..], IsSeparator);
      SelectThenSelect(f[1..], NotMinus, IsSeparator);
    }
  }

  /** With decimals allowed the only separator left is the last one of the input; without,
      none is left. */
  lemma FilterSeparators(value: Option<string>, allowDecimals: bool, allowNegative: bool)
    requires Filter(value, allowDecimals, allowNegative).Some?
    ensures var r := Filter(value, allowDecimals, allowNegative).value;
      var seps := Separators(value.value);
      Separators(r) == if allowDecimals then LastOnly(seps) else ""
  {
    var stripped := Select(value.value, NotWhitespace);
    var separated := SeparatorStep(stripped, allowDecimals);
    var r := MinusStep(separated, allowNegative);
    assert Filter(value, allowDecimals, allowNegative).value == r;
    assert Separators(r) == Separators(separated) by { MinusStepKeepsSeparators(separated, allowNegative); }
    assert Separators(stripped) == Separators(value.value) by {
      SelectThenSelect(value.value, NotWhitespace, IsSeparator);
    }
    if allowDecimals {
      LastSeparatorKept(stripped);
    } else {
      assert Separators(separated) == "" by { SeparatorsRemoved(stripped); }
    }
  }

  lemma SeparatorsRemoved(s: string)
    ensures Separators(Select(s, NotSeparator)) == ""
  {
    var r := Select(s, NotSeparator);
    assert forall i :: 0 <= i < |r| ==> !IsSeparator(r[i]);
  }

  /** With negatives allowed a minus can only be the first character; without, none is
      left. */
  lemma FilterMinus(value: Option<string>, allowDecimals: bool, allowNegative: bool)
    requires Filter(value, allowDecimals, allowNegative).Some?
    ensures var r := Filter(value, allowDecimals, allowNegative).value;
      forall i :: 0 <= i < |r| && r[i] == '-' ==> allowNegative && i == 0
  {
    var separated := SeparatorStep(Select(value.value, NotWhitespace), allowDecimals);
    assert Filter(value, allowDecimals, allowNegative).value == MinusStep(separated, allowNegative);
  }

  /** With negatives allowed, a minus that is the first non-blank character is kept as
      the first character of the result. */
  lemma FilterKeepsLeadingMinus(s: string, allowDecimals: bool)
    requires Select(s, NotWhitespace) != "" && Select(s, NotWhitespace)[0] == '-'
    ensures var r := Filter(Some(s), allowDecimals, true).value;
      r != "" && r[0] == '-'
  {
    var stripped := Select(s, NotWhitespace);
    if !allowDecimals {
      SelectFirst(stripped, NotSeparator);
    }
    assert SeparatorStep(stripped, allowDecimals)[0] == '-';
  }

  /** The input holds something besides whitespace, and all of it is separators. */
  predicate OnlySeparators(s: string)
  {
    Select(s, NotWhitespace) != "" && All(Select(s, NotWhitespace), IsSeparator)
  }

  /** The separator step leaves something, unless decimals are not allowed and there was
      nothing but separators. */
  lemma SeparatorStepNonEmpty(value: string, allowDecimals: bool)
    requires Select(value, NotWhitespace) != ""
    requires allowDecimals || !OnlySeparators(value)
    ensures SeparatorStep(Select(value, NotWhitespace), allowDecimals) != ""
  {
    var stripped := Select(value, NotWhitespace);
    if !allowDecimals {
      assert !All(stripped, IsSeparator);
    }
  }

  lemma MinusStepKeepsSignificant(f: string, allowNegative: bool)
    requires allowNegative ==> f != ""
    ensures Select(MinusStep(f, allowNegative), Significant) == Select(f, Significant)
  {
    if !allowNegative {
      SelectThenSelect(f, NotMinus, Significant);
    } else {
      assert f == [f[0]] + f[1..];
      SelectAppend([f[0]], Select(f[1..], NotMinus), Significant);
      SelectAppend([f[0]], f[1..], Significant);
      SelectThenSelect(f[1..], NotMinus, Significant);
    }
  }

  lemma SeparatorStepKeepsSignificant(s: string, allowDecimals: bool)
    ensures Select(SeparatorStep(s, allowDecimals), Significant) == Select(s, Significant)
  {
    if allowDecimals {
      SeparatorStepKeepsOthers(s);
      SelectThenSelect(KeepLastSeparator(s), NotSeparator, Significant);
      SelectThenSelect(s, NotSeparator, Significant);
    } else {
      SelectThenSelect(s, NotSeparator, Significant);
    }
  }

  /** Apart from the spelled-out `undefined`, every character that is neither whitespace,
      separator nor minus survives, in order. */
  lemma FilterKeepsSignificant(value: Option<string>, allowDecimals: bool, allowNegative: bool)
    requires Filter(value, allowDecimals, allowNegative).Some?
    requires !(!allowDecimals && allowNegative && OnlySeparators(value.value))
    ensures Select(Filter(value, allowDecimals, allowNegative).value, Significant) == Select(value.value, Significant)
  {
    var stripped := Select(value.value, NotWhitespace);
    var separated := SeparatorStep(stripped, allowDecimals);
    if allowNegative {
      SeparatorStepNonEmpty(value.value, allowDecimals);
    }
    MinusStepKeepsSignificant(separated, allowNegative);
    SeparatorStepKeepsSignificant(stripped, allowDecimals);
    SelectThenSelect(value.value, NotWhitespace, Significant);
  }

  lemma MinusStepIsSubsequence(f: string, allowNegative: bool)
    requires allowNegative ==> f != ""
    ensures Subsequence(MinusStep(f, allowNegative), f)
  {
    if !allowNegative {
      SelectIsSubsequence(f, NotMinus);
    } else {
      var r := LeadingMinusOnly(f);
      SelectIsSubsequence(f[1..], NotMinus);
      assert r[0] == f[0] && r[1..] == Select(f[1..], NotMinus);
    }
  }

  /** Apart from the spelled-out `undefined`, the result is obtained from the input by
      deleting characters. */
  lemma FilterIsSubsequence(value: Option<string>, allowDecimals: bool, allowNegative: bool)
    requires Filter(value, allowDecimals, allowNegative).Some?
    requires !(!allowDecimals && allowNegative && OnlySeparators(value.value))
    ensures Subsequence(Filter(value, allowDecimals, allowNegative).value, value.value)
  {
    var stripped := Select(value.value, NotWhitespace);
    var separated := SeparatorStep(stripped, allowDecimals);
    if allowNegative {
      SeparatorStepNonEmpty(value.value, allowDecimals);
    }
    MinusStepIsSubsequence(separated, allowNegative);
    if allowDecimals {
      SeparatorStepIsSubsequence(stripped);
    } else {
      SelectIsSubsequence(stripped, NotSeparator);
    }
    SelectIsSubsequence(value.value, NotWhitespace);
    SubsequenceTransitive(MinusStep(separated, allowNegative), separated, stripped);
    SubsequenceTransitive(MinusStep(separated, allowNegative), stripped, value.value);
  }

  // Properties of parse

  lemma UndefinedIsNaN(u: string)
    requires u == "undefined"
    ensures ReplaceFirstComma(u) == u && StringToNumber(u) == None
  {
    assert ',' !in u;
    TrimUnpadded(u);
    LeadingNonNumericIsNaN(u);
  }

  /** With decimals forbidden and negatives allowed, an input of separators alone is
      spelled `undefined` by the filter, which then parses to `null`. */
  lemma SeparatorsOnlyQuirk(value: Option<string>)
    requires value.Some? && OnlySeparators(value.value)
    ensures Filter(value, false, true) == Some("undefined")
    ensures Parse(value, false, true) == None
  {
    var stripped := Select(value.value, NotWhitespace);
    assert Select(stripped, NotSeparator) == "";
    UndefinedIsNaN("undefined");
  }

  /** The first surviving character is the first non-whitespace character, when that is
      neither a separator nor a minus. */
  lemma FilterKeepsFirst(s: string, allowDecimals: bool, allowNegative: bool)
    requires Select(s, NotWhitespace) != ""
    requires Significant(Select(s, NotWhitespace)[0])
    ensures var r := Filter(Some(s), allowDecimals, allowNegative).value;
      r != "" && r[0] == Select(s, NotWhitespace)[0]
  {
    var stripped := Select(s, NotWhitespace);
    var separated := SeparatorStep(stripped, allowDecimals);
    if !allowDecimals {
      SelectFirst(stripped, NotSeparator);
    }
    assert separated != "" && separated[0] == stripped[0];
    if !allowNegative {
      SelectFirst(separated, NotMinus);
    }
  }

  /** A value whose first non-blank character cannot begin a number (a letter, say)
      parses to `null`. */
  lemma LeadingNonNumericParsesToNull(s: string, allowDecimals: bool, allowNegative: bool)
    requires Select(s, NotWhitespace) != ""
    requires var c := Select(s, NotWhitespace)[0];
      Significant(c) && !IsDigit(c) && c != '+'
    ensures Parse(Some(s), allowDecimals, allowNegative) == None
  {
    var r := Filter(Some(s), allowDecimals, allowNegative).value;
    FilterKeepsFirst(s, allowDecimals, allowNegative);
    FilterRemovesWhitespace(Some(s), allowDecimals, allowNegative);
    LeadingNonNumericText(r);
  }

  /** The filtered text, once its comma is replaced, reads as NaN when it starts with a
      character no number starts with. */
  lemma LeadingNonNumericText(r: string)
    requires r != "" && All(r, NotWhitespace)
    requires Significant(r[0]) && !IsDigit(r[0]) && r[0] != '+'
    ensures StringToNumber(ReplaceFirstComma(r)) == None
  {
    var t := ReplaceFirstComma(r);
    ReplaceFirstCommaPointwise(r, 0);
    ReplaceFirstCommaPointwise(r, |r| - 1);
    TrimUnpadded(t);
    LeadingNonNumericIsNaN(t);
  }

  /** With decimals allowed the filter keeps the last separator of the text at its own
      position and drops every separator before it. */
  lemma FilterLastSeparatorAt(s: string, allowNegative: bool, k: nat)
    requires var stripped := Select(s, NotWhitespace);
      k < |stripped| && IsSeparator(stripped[k]) && Separators(stripped[k + 1..]) == ""
    ensures var stripped := Select(s, NotWhitespace);
      Filter(Some(s), true, allowNegative) == Some(MinusStep(Select(stripped[..k], NotSeparator) + stripped[k..], allowNegative))
  {
    KeepLastSeparatorAt(Select(s, NotWhitespace), k);
  }
}
