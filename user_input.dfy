/** The `filter` of the user-input composable (src/composables/user-input.ts): the same
    match-and-join as the string helper, without the guard on an empty value. */
module UserInput {
  import opened Js
  import opened Text
  import Strings

  /** `useUserInput().filter(value, regex)`; `None` is a `null` or `undefined` value. The
      value is not guarded: with a truthy pattern, a missing value has no `match` and
      throws, and the empty value yields `''`. */
  function Filter(value: Option<string>, pattern: Strings.Pattern): (r: Outcome<Option<string>>)
    ensures !Strings.PatternTruthy(pattern) ==> r == Returned(value)
    ensures r == TypeError <==> Strings.PatternTruthy(pattern) && value.None?
    ensures Strings.PatternTruthy(pattern) && value == Some("") ==> r == Returned(Some(""))
    ensures pattern.Literal? && pattern.text != "" && value.Some? && !Strings.Occurs(value.value, pattern.text) ==>
      r == Returned(Some(""))
    ensures pattern.CharClass? && value.Some? ==>
      r.Returned? && r.value.Some? && Subsequence(r.value.value, value.value) && All(r.value.value, pattern.member)
  {
    if !Strings.PatternTruthy(pattern) then Returned(value)
    else if value.None? then TypeError
    else Returned(Some(Strings.MatchJoin(value.value, pattern)))
  }

  /** On a non-empty value it agrees with the guarded helper. On the empty value it
      yields `''` where the helper yields `null`, and on a missing value it throws unless
      the pattern is falsy, where the helper yields `null`. */
  lemma AgreesWithGuardedFilter(value: Option<string>, pattern: Strings.Pattern)
    ensures value.Some? && value.value != "" ==> Filter(value, pattern) == Returned(Strings.Filter(value, pattern))
    ensures value == Some("") ==> Strings.Filter(value, pattern) == None && Filter(value, pattern) == Returned(Some(""))
    ensures value.None? ==> Strings.Filter(value, pattern) == None
    ensures value.None? ==> (Filter(value, pattern) == TypeError <==> Strings.PatternTruthy(pattern))
  {
  }
}
