/** String helpers of the input fields (src/util/strings.ts): keep the characters a
    pattern allows, change case, shorten to a prefix. */
module Strings {
  import opened Js
  import opened Text

  /** The pattern argument of `filter`:
      - `NoPattern`: `undefined` or `null`;
      - `Literal(text)`: a string, which `match` turns into a non-global expression; the
        text is taken to hold no expression metacharacters, so it matches itself;
      - `CharClass(member)`: a global expression over one character class, such as
        `[0-9]*` with the `g` flag, whose matches together are the characters in the
        class. */
  datatype Pattern = NoPattern | Literal(text: string) | CharClass(member: char -> bool)

  /** A pattern object is truthy; a string pattern is truthy unless empty. */
  predicate PatternTruthy(p: Pattern): (t: bool)
    ensures !t <==> p.NoPattern? || (p.Literal? && p.text == "")
  {
    p.CharClass? || (p.Literal? && p.text != "")
  }

  /** `text` occurs in `s` at index `i`. */
  predicate OccursAt(s: string, text: string, i: int)
  {
    0 <= i && i + |text| <= |s| && s[i..i + |text|] == text
  }

  predicate Occurs(s: string, text: string)
  {
    exists i :: 0 <= i <= |s| - |text| && OccursAt(s, text, i)
  }

  /** `regex ? (value.match(regex) || []).join('') : value`. A non-global match yields
      the matched text alone, no match yields `''`; a global class match yields every
      character of the class. */
  function MatchJoin(value: string, pattern: Pattern): (r: string)
    ensures !PatternTruthy(pattern) ==> r == value
    ensures pattern.Literal? && pattern.text != "" ==> (r == pattern.text <==> Occurs(value, pattern.text))
    ensures pattern.Literal? && pattern.text != "" && !Occurs(value, pattern.text) ==> r == ""
    ensures pattern.CharClass? ==> Subsequence(r, value) && All(r, pattern.member)
  {
    match pattern
    case NoPattern => value
    case Literal(text) => if text == "" then value else if Occurs(value, text) then text else ""
    case CharClass(member) =>
      SelectIsSubsequence(value, member);
      Select(value, member)
  }

  /** `filter(value, regex)`: `None` (`null`) for an empty or missing value. */
  function Filter(value: Option<string>, pattern: Pattern): (r: Option<string>)
    ensures r.None? <==> value.None? || value.value == ""
    ensures r.Some? && !PatternTruthy(pattern) ==> r.value == value.value
    ensures r.Some? ==> r.value == MatchJoin(value.value, pattern)
  {
    if value.None? || value.value == "" then None else Some(MatchJoin(value.value, pattern))
  }

  /** A class pattern keeps every character of the class, and only those: the result
      holds as many of each character as the value holds, if it is in the class, and
      none otherwise. */
  lemma {:induction false} ClassKeepsEveryMember(value: string, member: char -> bool)
    ensures forall c :: multiset(MatchJoin(value, CharClass(member)))[c] ==
                        (if member(c) then multiset(value)[c] else 0)
  {
    if value != "" {
      ClassKeepsEveryMember(value[1..], member);
      assert value == [value[0]] + value[1..];
      assert multiset(value) == multiset([value[0]]) + multiset(value[1..]);
      if member(value[0]) {
        assert MatchJoin(value, CharClass(member)) == [value[0]] + MatchJoin(value[1..], CharClass(member));
      }
    }
  }

  /** When every character is in the class the filter changes nothing; when none is,
      nothing is left. */
  lemma ClassIdentityAndEmpty(value: string, member: char -> bool)
    ensures All(value, member) ==> MatchJoin(value, CharClass(member)) == value
    ensures (forall i :: 0 <= i < |value| ==> !member(value[i])) ==> MatchJoin(value, CharClass(member)) == ""
  {
  }

  /** A string pattern equal to the whole value returns the value. */
  lemma WholeValuePattern(value: string)
    requires value != ""
    ensures Filter(Some(value), Literal(value)) == Some(value)
  {
    assert OccursAt(value, value, 0);
  }

  /** ASCII case mapping. */
  function UpperChar(c: char): (u: char)
    ensures !('a' <= u <= 'z')
    ensures !('a' <= c <= 'z') ==> u == c
    ensures 'a' <= c <= 'z' ==> 'A' <= u <= 'Z' && LowerChar(u) == c
  {
    if 'a' <= c <= 'z' then (c as int - 32) as char else c
  }

  function LowerChar(c: char): (l: char)
    ensures !('A' <= l <= 'Z')
    ensures !('A' <= c <= 'Z') ==> l == c
    ensures 'A' <= c <= 'Z' ==> 'a' <= l <= 'z'
  {
    if 'A' <= c <= 'Z' then (c as int + 32) as char else c
  }

  function Upper(s: string): (r: string)
    ensures |r| == |s| && forall i :: 0 <= i < |s| ==> r[i] == UpperChar(s[i])
  {
    seq(|s|, i requires 0 <= i < |s| => UpperChar(s[i]))
  }

  function Lower(s: string): (r: string)
    ensures |r| == |s| && forall i :: 0 <= i < |s| ==> r[i] == LowerChar(s[i])
  {
    seq(|s|, i requires 0 <= i < |s| => LowerChar(s[i]))
  }

  /** `transform(value, type)`: upper case for `'uppercase'`, lower case for any other
      type, `None` for an empty or missing value. */
  function Transform(value: Option<string>, kind: Option<string>): (r: Option<string>)
    ensures r.None? <==> value.None? || value.value == ""
    ensures r.Some? ==> |r.value| == |value.value|
    ensures r.Some? && kind == Some("uppercase") ==> forall i :: 0 <= i < |r.value| ==> !('a' <= r.value[i] <= 'z')
    ensures r.Some? && kind != Some("uppercase") ==> forall i :: 0 <= i < |r.value| ==> !('A' <= r.value[i] <= 'Z')
    ensures r.Some? ==> forall i :: 0 <= i < |r.value| ==>
      !('a' <= value.value[i] <= 'z') && !('A' <= value.value[i] <= 'Z') ==> r.value[i] == value.value[i]
    ensures r.Some? ==> forall i :: 0 <= i < |r.value| ==> LowerChar(r.value[i]) == LowerChar(value.value[i])
  {
    if value.None? || value.value == "" then None
    else if kind == Some("uppercase") then Some(Upper(value.value))
    else Some(Lower(value.value))
  }

  /** Changing case twice the same way is changing it once, and the last change wins. */
  lemma CaseMappingIdempotent(s: string)
    ensures Upper(Upper(s)) == Upper(s) && Lower(Lower(s)) == Lower(s)
    ensures Upper(Lower(s)) == Upper(s) && Lower(Upper(s)) == Lower(s)
  {
  }

  /** Each letter maps to the same letter in the other case. */
  lemma CaseMappingPairsLetters(c: char)
    ensures 'a' <= c <= 'z' ==> LowerChar(UpperChar(c)) == c && 'A' <= UpperChar(c) <= 'Z'
    ensures 'A' <= c <= 'Z' ==> UpperChar(LowerChar(c)) == c && 'a' <= LowerChar(c) <= 'z'
  {
  }

  /** `ToIntegerOrInfinity` on a finite number: truncation toward zero. */
  function Truncate(x: real): (k: int)
    ensures 0.0 <= x ==> 0 <= k && k as real <= x < k as real + 1.0
    ensures x < 0.0 ==> k <= 0 && k as real - 1.0 < x <= k as real
  {
    if x >= 0.0 then x.Floor else -((-x).Floor)
  }

  /** The end index `slice(0, length)` uses: a negative length counts from the end, and
      the index is clamped to the string. */
  function SliceEnd(size: nat, length: real): (e: nat)
    ensures e <= size
    ensures 0 <= Truncate(length) ==> e == if Truncate(length) <= size then Truncate(length) else size
    ensures Truncate(length) < 0 ==> e == if size + Truncate(length) >= 0 then size + Truncate(length) else 0
  {
    var k := Truncate(length);
    if k < 0 then (if size + k >= 0 then size + k else 0)
    else if k <= size then k else size
  }

  /** `shorten(value, length?)`: `None` for an empty or missing value; the value itself
      for a missing or zero length; otherwise the prefix `slice(0, length)`. */
  function Shorten(value: Option<string>, length: Option<real>): (r: Option<string>)
    ensures r.None? <==> value.None? || value.value == ""
    ensures r.Some? ==> |r.value| <= |value.value| && r.value == value.value[..|r.value|]
    ensures r.Some? && (length.None? || length.value == 0.0) ==> r.value == value.value
    ensures r.Some? && length.Some? && length.value > 0.0 ==>
      |r.value| == if Truncate(length.value) <= |value.value| then Truncate(length.value) else |value.value|
  {
    if value.None? || value.value == "" then None
    else if length.None? || length.value == 0.0 then value
    else Some(value.value[..SliceEnd(|value.value|, length.value)])
  }

  /** Shortening to a positive length twice is shortening once. */
  lemma ShortenIdempotent(value: string, length: real)
    requires value != "" && length >= 1.0
    ensures Shorten(Shorten(Some(value), Some(length)), Some(length)) == Shorten(Some(value), Some(length))
  {
    var once := Shorten(Some(value), Some(length)).value;
    assert Truncate(length) >= 1;
    assert once != "";
    assert SliceEnd(|once|, length) == |once|;
    assert once[..|once|] == once;
  }

  lemma ShortenExample(value: string)
    requires value == "Some value with number 123 in it"
    ensures Shorten(Some(value), Some(10.0)) == Some("Some value")
  {
    assert Truncate(10.0) == 10;
    assert value[..10] == "Some value";
  }
}
