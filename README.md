# out-of-the-vue: the form logic layer in Dafny

out-of-the-vue is a library of Vue form fields. Beneath the templates sits a small logic
layer that the fields call. This project models that layer and proves what it promises.

- **Field validators.** `required`, `minimum` and `maximum` over the length of a string,
  over a numeric amount, and over the items of an array.
  - A falsy bound (`0`, `null`) is no constraint.
  - Missing data reads as `''`, `0` or `[]`.
- **The `validate` composable.** A registry of eight predefined validations, and a fold
  that reports the failed names as an insertion-ordered set. A later pass under the same
  name removes an earlier failure.
- **The older `useUserInputValidation` composable.** A three-entry registry, requested by
  name. Its failures are reported in order, duplicates kept, with the built-in failures
  first and the custom failures after them.
- **The numeric text normaliser.** `filter` removes whitespace, every separator but the
  last (or all of them), and every minus but a leading one (or all of them). `parse` reads
  the result as a number, with the comma as the decimal point.
- **String helpers.** `filter` keeps the part of the value a pattern matches, `transform`
  changes case, and `shorten` cuts the value to a prefix. A second `filter` in the
  user-input composable has no guard on an empty value.
- **Attribute filters.** `exclude` and `include` restrict a map of attributes to the keys
  outside, or inside, a list.

## How the JavaScript is modelled

### Values and calls

Module `Js` holds the JavaScript semantics the code relies on.

- **Field values.** A field value is a `Value`: `undefined`, `null`, a boolean, a number
  (an exact `real`), a string, or an array. `Truthy` is `!!v`.
- **Optional arguments.** An optional argument is an `Arg`: omitted (or `undefined`),
  `null`, or given. It is omitted when the parameter default applies.
- **Throws.** A call that can throw is an `Outcome`: a returned value, or `TypeError`.
  Four places throw:
  - `every` on a string in the array validator;
  - `trim` on a non-string in `validateRequired`;
  - iterating a `null` list in `validate`;
  - `match` on a `null` or `undefined` value in the user-input `filter`, when the pattern
    is truthy.
- **`Number()` on a string.** `StringToNumber` trims the surrounding whitespace. The blank
  string reads as 0. It then reads an optional sign, decimal digits with at most one point,
  and an optional exponent. Anything else is NaN, written `None`.

### Stateful code

The two orchestrators work by loops that change local state, so they are methods:

- `validate` is `Validate.Validate`. Its `Set` is a duplicate-free sequence in insertion
  order, and the method is proved against the fold `Validate.Failures`.
- `processValidation` is `ValidateUserInput.ProcessValidation`. It pushes onto an array
  and is proved against `Collect`.
- `processBaseValidations` is `ValidateUserInput.ProcessBaseValidations`. It builds the
  closures that wrap each registry entry inside its loop and is proved against
  `BaseFailures`.

Each method is proved against its specification function. The properties are then proved
about that function.

### Pure code

Values that are computed without changing state are functions:

- the validators;
- the number and string helpers;
- the attribute filters.

### Where the code and its tests disagree

The model follows the code in each of these cases:

- **The number filter's flags.** `numbers.ts`'s `filter` has no defaults for its flags,
  and it is not exported. The number tests call it with the flags left out and expect the
  separators to be kept. Under the code, a missing flag is falsy.
- **The user-input composable.** Its tests expect a `null` result for an empty, `null` or
  `undefined` value, and a `transform` function. The composable has neither: it yields
  `''` for the empty value and throws on a missing one.

## Model

| member | source | states |
|---|---|---|
| Js.Truthy | src/composables/validations/base.ts:11 | `!!v`: the falsy values are exactly `undefined`, `null`, `false`, `0` and `''`; every array is truthy |
| Js.RequiredOn | src/composables/validations/base.ts:10-11 | `!!required` with the `= true` default: on iff the flag is omitted or `true`; `null` is off |
| Js.BoundSet | src/composables/validations/base.ts:23 | `!!length`: set iff the bound converts to a number other than 0, so `undefined`, `null` and `0` are unset |
| Js.IsWhitespace | src/util/numbers.ts:9 | the class `\s` holds no digit, point, comma, sign or exponent letter |
| Js.ToNumber | src/composables/validations/amount.ts:11 | the conversion of `>=` and `<=`: a number is itself, `null` and `false` are 0, `true` is 1, `undefined` is NaN, a string reads through `Number()`, `[]` is 0 and an array of two or more items is NaN |
| Js.ElementToNumber | src/composables/validations/amount.ts:11 | the single item of an array converts through its string form: `undefined` and `null` are 0, a boolean is NaN, a number is itself, a string reads through `Number()` |
| Js.Length | src/composables/validations/base.ts:23 | `.length` is defined exactly for strings and arrays, and is their size |
| Js.Trim | src/composables/validate-user-input.ts:98 | the trim is a contiguous part of the string with only whitespace around it; it is empty iff every character is whitespace, and a non-empty trim starts and ends with a non-whitespace character |
| Js.TrimUnpadded | src/composables/validate-user-input.ts:98 | a string that neither starts nor ends with whitespace is its own trim |
| Js.StringToNumber | src/util/numbers.ts:36 | `Number()` of a blank string is 0 |
| Js.DecimalReading | src/util/numbers.ts:36 | `Number()` reads `whole.fraction` (digits, a point, digits) as the exact decimal |
| Js.StringToNumberExample | src/util/numbers.ts:36 | `Number('1234.56')` is 1234.56 |
| Js.LeadingNonNumericIsNaN | src/util/numbers.ts:36-37 | an unpadded string whose first character is neither a digit, a point nor a sign is NaN, except that the source reads `Infinity` as a number (see "Weaker contracts") |
| Js.UnsignedDecimalReading | src/util/numbers.ts:36 | the unsigned number grammar reads `whole.fraction` as the exact decimal |
| Js.UnsignedIntegerReading | src/util/numbers.ts:36 | the unsigned number grammar reads a run of digits as the integer they spell |
| Js.NegativeReading | src/util/numbers.ts:36 | `Number()` of a minus followed by unpadded text that starts with a digit is the negation of what the unsigned grammar reads from that text |
| BaseValidations.GetValue | src/composables/validations/base.ts:42-44 | the value when the data and its value are truthy, `''` otherwise |
| BaseValidations.Required | src/composables/validations/base.ts:10-12 | with the flag off (`false`, `null`) anything passes; with it on, a value passes iff the data exists and the value is not `undefined`, `null`, `false` or `''` (so 0 passes) |
| BaseValidations.RequiredDefaultsToTrue | src/composables/validations/base.ts:10 | an omitted flag behaves as `true` |
| BaseValidations.Minimum | src/composables/validations/base.ts:21-24 | a falsy bound always passes; otherwise a string passes iff it is non-empty and at least the bound long, an array iff it has at least that many items, and missing data, a falsy value, a number or a boolean fails |
| BaseValidations.Maximum | src/composables/validations/base.ts:33-36 | a falsy bound always passes; otherwise a string passes iff it is non-empty and at most the bound long (so `''` fails), an array iff it has at most that many items, and missing data, a falsy value, a number or a boolean fails |
| AmountValidations.OrZero | src/composables/validations/amount.ts:11 | the value when the data and its value are truthy, the number 0 otherwise |
| AmountValidations.Amount | src/composables/validations/amount.ts:11 | the compared amount is the number itself, 0 for missing or falsy data, and `Number()` of a string |
| AmountValidations.Minimum | src/composables/validations/amount.ts:10-12 | a falsy bound always passes; otherwise a number passes iff it is at least the bound, missing data iff 0 is, a string iff it reads as a number at least the bound |
| AmountValidations.Maximum | src/composables/validations/amount.ts:21-23 | a falsy bound always passes; otherwise a number passes iff it is at most the bound, missing data iff 0 is, a string iff it reads as a number at most the bound |
| AmountValidations.NegativeBoundsAndBoundary | src/composables/validations/amount.ts:10-23 | -123 fails a minimum of -10; missing data fails a maximum of -321 and a minimum of 10; a value equal to the bound passes both |
| ArrayValidations.GetValue | src/composables/validations/array.ts:41-43 | the value when the data and its value are truthy, `[]` otherwise |
| ArrayValidations.Required | src/composables/validations/array.ts:10-13 | with the flag off anything passes; with it on, an array passes iff it is non-empty with no `undefined` or `null` entry, missing data fails, a truthy number or boolean fails (its `length` is `undefined`), and a non-empty string throws (no `every`), exactly then |
| ArrayValidations.RequiredDefaultsToTrue | src/composables/validations/array.ts:10 | an omitted flag behaves as `true` |
| ArrayValidations.Minimum | src/composables/validations/array.ts:22-24 | a falsy amount always passes; otherwise an array or a string passes iff its length is at least the amount; a truthy number or boolean fails (`undefined >= amount`); missing data passes iff the amount is at most 0 |
| ArrayValidations.Maximum | src/composables/validations/array.ts:33-35 | a falsy amount always passes; otherwise an array or a string passes iff its length is at most the amount; a truthy number or boolean fails (`undefined <= amount`); missing data passes every non-negative amount |
| Validate.AsFlag | src/composables/validate.ts:16 | `parameters[0] as boolean ?? null`: `null` iff there is no parameter, otherwise a flag that is on iff the parameter is truthy |
| Validate.AsBound | src/composables/validate.ts:20-44 | `parameters[0] as number ?? null`: `null` iff there is no parameter, otherwise the number the parameter converts to |
| Validate.First | src/composables/validate.ts:16 | `parameters[0] ?? null`: present iff the list is non-empty, and then the first element |
| Validate.Predefined | src/composables/validate.ts:13-46 | every entry's display name is its key's family (`min-*` gives `min`, `max-*` gives `max`, the two required keys give `required`) and it carries no parameters |
| Validate.PredefinedRuns | src/composables/validate.ts:13-46 | which validator each key runs: `required` and `required-array` the base and array required checks on the first parameter as a flag; `min-length`/`max-length`, `min-amount`/`max-amount` and `min-array`/`max-array` the base, amount and array minimum and maximum on the first parameter as a bound |
| Validate.Configure | src/composables/validate.test.ts:13 | `{ ...predefinedValidations[k], parameters }` keeps the name and the validator of the registry entry and sets the parameters |
| Validate.ForwardsFirstParameterOnly | src/composables/validate.ts:16-44 | a predefined validator gives the same verdict on a parameter list as on its first element alone |
| Validate.NoParameterPasses | src/composables/validate.ts:16-44 | with no parameter every predefined validator receives `null` and passes |
| Validate.Run | src/composables/validate.ts:60 | spreading the parameters, or none: a validation without parameters receives an empty list, otherwise its own |
| Validate.Position | src/composables/validate.ts:65 | the place of a member in the array `Array.from` makes of the set |
| Validate.Add | src/composables/validate.ts:62 | `Set.add`: a name already there leaves the set as it is; a new name goes at the end; no name is held twice |
| Validate.Delete | src/composables/validate.ts:62 | `Set.delete`: a name not there leaves the set as it is; otherwise exactly its entry is cut out and the others keep their order; no name is held twice |
| Validate.Failures | src/composables/validate.ts:57-63 | the fold reports at most one name per validation, and only names of validations in the list |
| Validate.Validate | src/composables/validate.ts:56-66 | the loop returns `[]` for an omitted or empty list, throws for `null`, otherwise returns the fold `Failures`; the result holds no name twice |
| Validate.FailuresStep | src/composables/validate.ts:59-63 | one more validation deletes its name on a pass, adds it on a failure, and throws on a throw |
| Validate.FailuresStayThrown | src/composables/validate.ts:59-60 | once a validator has thrown, the whole run throws |
| Validate.FailuresDistinct | src/composables/validate.ts:57-65 | the reported names are distinct |
| Validate.LastVerdictWins | src/composables/validate.ts:62 | a name is reported iff the last validation carrying it failed |
| Validate.InsertedIsReported | src/composables/validate.ts:57-65 | a name with an insertion point (a failure under it after its last pass) is reported |
| Validate.ReportedIsInserted | src/composables/validate.ts:57-65 | every reported name has an insertion point |
| Validate.FreshInsertion | src/composables/validate.ts:62 | a failing validation whose name is not in the set is that name's insertion point |
| Validate.DeleteKeepsOrder | src/composables/validate.ts:62 | `Set.delete` of a third name keeps two names in their order |
| Validate.AppendedComesLast | src/composables/validate.ts:62 | `Set.add` of a new name puts it after every name already there |
| Validate.StepKeepsOrder | src/composables/validate.ts:62 | one step of the loop keeps two reported names in their order unless it passes one of them |
| Validate.InsertionOrder | src/composables/validate.ts:57-65 | of two names, the one inserted earlier is listed earlier |
| Validate.FailuresInInsertionOrder | src/composables/validate.ts:57-65 | `Array.from(failed)` lists two reported names in the order of their insertion points, both directions |
| Validate.ThrowsIffSomeValidatorThrows | src/composables/validate.ts:59-60 | the run throws iff one of its validators throws |
| Validate.AllPassReportsNothing | src/composables/validate.ts:56-65 | when every validation passes the result is `[]` |
| Validate.UnconfiguredNeverFail | src/composables/validate.ts:16-44 | a list of predefined validations configured with `[]` or no parameters reports nothing |
| Validate.RequiredMinFiveRuns | src/composables/validate.ts:14-25 | `required` with `[true]` and `min-length` with `[5]` run the base `required` with `true` and the base `minimum` with 5 |
| Validate.RequiredRuleRuns | src/composables/validate.ts:14-17 | `required` configured with `[true]` runs the base `required` with the flag `true` |
| Validate.MinLengthRuleRuns | src/composables/validate.ts:22-25 | `min-length` configured with `[5]` runs the base `minimum` with the bound 5 |
| Validate.FailuresOfTwo | src/composables/validate.ts:57-65 | the fold over two completed validations, spelled out |
| Validate.RequiredMinFiveMissing | src/composables/validate.ts:56-66 | a `null` value against `[required true, min-length 5]` reports `['required', 'min']` |
| Validate.RequiredMinFiveShort | src/composables/validate.ts:56-66 | `'abc'` against the same list reports `['min']` |
| ValidateUserInput.ValidateRequired | src/composables/validate-user-input.ts:97-99 | a falsy value fails; a string passes iff it has a non-whitespace character; a truthy non-string throws, exactly then |
| ValidateUserInput.ValidateMinLength | src/composables/validate-user-input.ts:108-110 | passes iff the value is truthy, has a length and the bound is a number at most that length; an omitted bound fails; a string passes iff it is non-empty and long enough |
| ValidateUserInput.ValidateMaxLength | src/composables/validate-user-input.ts:119-121 | passes iff the value is truthy, has a length and the bound is a number at least that length; an omitted bound fails; a string passes iff it is non-empty and short enough |
| ValidateUserInput.Registry | src/composables/validate-user-input.ts:3-16 | three entries, `max-length`, `min-length` and `required`, in that order |
| ValidateUserInput.RegistryRuns | src/composables/validate-user-input.ts:3-16 | `max-length` runs `validateMaxLength` and `min-length` runs `validateMinLength` on the request's parameter; `required` runs `validateRequired`, which ignores it |
| ValidateUserInput.Find | src/composables/validate-user-input.ts:51 | `find` yields an entry iff one carries the name, and then the first such entry |
| ValidateUserInput.Lookup | src/composables/validate-user-input.ts:51 | a name has a registry entry iff it is one of the three, and the entry carries that name |
| ValidateUserInput.Collect | src/composables/validate-user-input.ts:71-84 | the push loop reports at most one name per validation, and only names of validations in the list |
| ValidateUserInput.Record | src/composables/validate-user-input.ts:75-80 | one step: a throw on either side is a throw; otherwise a failure pushes the name and a pass leaves the list |
| ValidateUserInput.CollectSnoc | src/composables/validate-user-input.ts:74-81 | one more validation pushes its name on a failure and throws on a throw |
| ValidateUserInput.ProcessValidation | src/composables/validate-user-input.ts:71-84 | the loop returns the fold `Collect` over the list |
| ValidateUserInput.CollectStaysThrown | src/composables/validate-user-input.ts:74-75 | once a validator has thrown, the whole run throws |
| ValidateUserInput.CollectAppend | src/composables/validate-user-input.ts:27-37 | running two lists in turn reports the failures of the first, then those of the second |
| ValidateUserInput.CollectCountsEveryFailure | src/composables/validate-user-input.ts:71-84 | the k-th reported name is the name of the k-th failing validation in list order, with nothing de-duplicated |
| ValidateUserInput.FailingIndices | src/composables/validate-user-input.ts:74-81 | exactly the indices of the failing validations, in increasing order |
| ValidateUserInput.BaseFailures | src/composables/validate-user-input.ts:46-62 | at most one name per request, and only registered names |
| ValidateUserInput.Join | src/composables/validate-user-input.ts:27-37 | `failed.push(...)` twice: a throw on either side is a throw; otherwise the first list, then the second |
| ValidateUserInput.BaseFailuresStep | src/composables/validate-user-input.ts:50-60 | one more request is skipped when unregistered, and otherwise runs its entry on the data and the requested parameter |
| ValidateUserInput.ProcessBaseValidations | src/composables/validate-user-input.ts:46-63 | the loop that builds the closures returns `BaseFailures`, the failures of the registered requests in order |
| ValidateUserInput.Validate | src/composables/validate-user-input.ts:26-38 | the built-in failures followed by the custom ones; a missing list contributes nothing; a throw on either side is a throw |
| ValidateUserInput.UnregisteredIsSkipped | src/composables/validate-user-input.ts:51-54 | a request for a name outside the registry changes nothing |
| ValidateUserInput.FailedRequestAppends | src/composables/validate-user-input.ts:50-60 | a registered request whose entry fails appends its name after the failures so far |
| ValidateUserInput.FailsTwiceReportedTwice | src/composables/validate-user-input.ts:50-62 | a failing request made twice is reported twice, since the list does not de-duplicate |
| ValidateUserInput.RequiredTwiceReportedTwice | src/composables/validate-user-input.ts:50-62 | requesting `required` twice on a blank string reports `['required', 'required']` |
| Text.Select | src/util/numbers.ts:9 | a global character replace keeps only characters that pass the test; it keeps all of them when all pass, and none iff none pass |
| Text.SelectIsSubsequence | src/util/strings.ts:12 | what a character filter keeps is obtained from the input by deleting characters |
| Text.SelectThenSelect | src/util/numbers.ts:9-18 | filtering under a stricter test after a looser one is filtering under the stricter one alone |
| Numbers.KeepLastSeparator | src/util/numbers.ts:15 | the look-ahead replace never lengthens the string and always keeps its last character |
| Numbers.KeepLastSeparatorAt | src/util/numbers.ts:15 | the separator the look-ahead replace keeps is the last one, at its own position: for a last separator at index `k`, the result is the text before `k` without its separators, then the text from `k` on unchanged (so `'1.234.56'` becomes `'1234.56'`) |
| Numbers.KeepLastSeparatorSplit | src/util/numbers.ts:15 | for `a`, then a separator, then `b` without separators, the look-ahead replace gives `a` without its separators, then that separator and `b` as they are |
| Numbers.SeparatorStep | src/util/numbers.ts:15 | the separator step only deletes characters; with decimals allowed the separator characters left, read in order, are the input's last separator character alone (its position is `Numbers.KeepLastSeparatorAt`), without decimals none; with decimals allowed, text with at most one separator passes unchanged |
| Numbers.MinusStep | src/util/numbers.ts:18 | the minus step leaves a minus only at index 0, and only with negatives allowed; with negatives allowed a non-empty input keeps its first character first, so a leading minus stays |
| Numbers.LeadingMinusOnly | src/util/numbers.ts:18 | a non-empty string keeps its first character first |
| Numbers.Filter | src/util/numbers.ts:8-21 | `null` iff the value is missing or only whitespace |
| Numbers.FilterRemovesWhitespace | src/util/numbers.ts:9 | no whitespace is left |
| Numbers.LastSeparatorKept | src/util/numbers.ts:15 | the separator characters the look-ahead replace leaves, read in order, are the input's last separator character alone (the position is `Numbers.KeepLastSeparatorAt`) |
| Numbers.SeparatorStepKeepsOthers | src/util/numbers.ts:15 | the look-ahead replace removes separators only |
| Numbers.SeparatorStepIsSubsequence | src/util/numbers.ts:15 | the look-ahead replace only deletes characters |
| Numbers.SingleSeparatorKept | src/util/numbers.ts:15 | a string with at most one separator passes the look-ahead replace unchanged |
| Numbers.MinusStepKeepsSeparators | src/util/numbers.ts:18 | the minus step leaves the separators as they are |
| Numbers.FilterSeparators | src/util/numbers.ts:15 | with decimals allowed the separator characters left, read in order, are the input's last separator character alone; without, none (the position is `Numbers.FilterLastSeparatorAt`) |
| Numbers.FilterLastSeparatorAt | src/util/numbers.ts:8-21 | with decimals allowed, when the whitespace-free text has its last separator at index `k`, the filter is the minus step applied to the text before `k` without separators followed by the text from `k` on |
| Numbers.FilterMinus | src/util/numbers.ts:18 | a minus is left only at index 0, and only with negatives allowed |
| Numbers.FilterKeepsLeadingMinus | src/util/numbers.ts:18 | with negatives allowed, a value whose first non-blank character is a minus filters to text that starts with that minus, under either decimals flag (the `'-1234.56'` case of `src/util/numbers.test.ts:26`) |
| Numbers.SeparatorStepNonEmpty | src/util/numbers.ts:15 | the separator step leaves something, unless decimals are forbidden and the input was separators only |
| Numbers.MinusStepKeepsSignificant | src/util/numbers.ts:18 | the minus step keeps every character that is neither whitespace, separator nor minus |
| Numbers.SeparatorStepKeepsSignificant | src/util/numbers.ts:15 | the separator step keeps every such character |
| Numbers.FilterKeepsSignificant | src/util/numbers.ts:9-18 | every character that is neither whitespace, separator nor minus survives, in order (outside the `undefined` case below) |
| Numbers.FilterIsSubsequence | src/util/numbers.ts:9-18 | the result is the input with characters deleted (outside the `undefined` case below) |
| Numbers.FilterKeepsFirst | src/util/numbers.ts:9-18 | a first non-blank character that is neither separator nor minus stays first |
| Numbers.ReplaceFirstComma | src/util/numbers.ts:36 | `replace(',', '.')` keeps the length, and changes nothing without a comma |
| Numbers.ReplaceFirstCommaPointwise | src/util/numbers.ts:36 | each character is kept, or is a comma turned into a point |
| Numbers.Parse | src/util/numbers.ts:30-38 | `null` for a missing or blank value, and for a value the filter empties (`'---'` with negatives forbidden); what it reads otherwise is in the `NumberReading` rows (see "Weaker contracts") |
| Numbers.UndefinedIsNaN | src/util/numbers.ts:36-37 | the spelled-out `undefined` has no comma and is NaN |
| Numbers.SeparatorsOnlyQuirk | src/util/numbers.ts:18-37 | with decimals forbidden and negatives allowed, separators alone filter to `'undefined'` and parse to `null` |
| Numbers.LeadingNonNumericParsesToNull | src/util/numbers.ts:30-38 | a value whose first non-blank character cannot begin a number (a letter, say) parses to `null`, under every flag, except `Infinity`, which the source reads as a number (see "Weaker contracts") |
| NumberReading.ReplaceFirstCommaAt | src/util/numbers.ts:36 | the first comma, and only it, becomes a point |
| NumberReading.DecimalHasOneSeparator | src/util/numbers.ts:15 | digits, one separator and digits hold that one separator |
| NumberReading.DecimalPointed | src/util/numbers.ts:36 | in digits, one separator and digits, either separator becomes the point |
| NumberReading.FilterUnchanged | src/util/numbers.ts:8-21 | non-empty text without whitespace, with at most one separator and no minus after its first character passes the default filter unchanged |
| NumberReading.FilterNegated | src/util/numbers.ts:8-21 | a plain number (a digit first, no whitespace, no minus, at most one separator) passes the default filter unchanged, with and without a leading minus |
| NumberReading.MinusSkipsComma | src/util/numbers.ts:36 | `replace(',', '.')` leaves a leading minus in place and replaces in the rest |
| NumberReading.ReadNegated | src/util/numbers.ts:36 | after the comma replacement, a leading minus negates what `Number()` reads from text that starts with a digit and holds no whitespace |
| NumberReading.ParseNegated | src/util/numbers.ts:30-38 | a leading minus negates what `parse` reads from a plain number: if it reads `u` as `x`, it reads `'-' + u` as `-x` |
| NumberReading.DecimalTextUnfiltered | src/util/numbers.ts:8-21 | digits, one separator and digits pass the filter unchanged |
| NumberReading.ParseDecimal | src/util/numbers.ts:30-38 | `whole,fraction` and `whole.fraction` both parse to the exact decimal `whole.fraction` |
| NumberReading.DecimalIsPlain | src/util/numbers.ts:30-38 | digits, one separator and digits form a plain number, so `NumberReading.ParseNegated` applies to them |
| NumberReading.ParseInteger | src/util/numbers.ts:30-38 | a run of digits parses to the integer it spells |
| NumberReading.IntegerIsPlain | src/util/numbers.ts:30-38 | a run of digits is a plain number, so `NumberReading.ParseNegated` applies to it |
| NumberReading.MinusStepWithoutMinus | src/util/numbers.ts:18 | non-empty text without a minus passes the minus step unchanged under either flag |
| NumberReading.FilterWithoutDecimals | src/util/numbers.ts:15-18 | with decimals forbidden, digits and separators filter to the digits alone, in order, under either minus flag (`filter('1,234.56', false)` is `'123456'` at `src/util/numbers.test.ts:33`) |
| NumberReading.ParseWithoutDecimals | src/util/numbers.ts:30-38 | with decimals forbidden, digits and separators parse to the integer the digits spell, so the separators are merged away (`'1,234.56'` parses to 123456) |
| NumberReading.ParseDotExample | src/util/numbers.ts:30-38 | `'1234.56'` parses to 1234.56 |
| NumberReading.ParseCommaExample | src/util/numbers.ts:30-38 | `'1234,56'` parses to 1234.56 |
| NumberReading.ParseNegativeExample | src/util/numbers.ts:30-38 | `'-1234.56'` passes the filter unchanged and parses to -1234.56 |
| NumberReading.ParseLettersExample | src/util/numbers.ts:30-38 | `'abcde'` parses to `null` |
| Strings.PatternTruthy | src/util/strings.ts:12 | `regex ?`: a pattern is falsy iff it is missing or the empty string |
| Strings.MatchJoin | src/util/strings.ts:12 | a falsy pattern returns the value; a string pattern returns itself iff it occurs and `''` otherwise; a class pattern returns a subsequence of the value made of class members only |
| Strings.Filter | src/util/strings.ts:8-13 | `null` iff the value is missing or empty; otherwise the match-and-join, which is the value itself for a falsy pattern |
| Strings.ClassKeepsEveryMember | src/util/strings.ts:12 | a class pattern keeps each character of the class as often as the value holds it, and no other |
| Strings.ClassIdentityAndEmpty | src/util/strings.ts:12 | a class every character belongs to changes nothing; one no character belongs to leaves `''` |
| Strings.WholeValuePattern | src/util/strings.ts:12 | the value used as its own pattern returns the value |
| Strings.UpperChar | src/util/strings.ts:24 | `toUpperCase` on one character: no lower-case letter results, a lower-case letter becomes the upper-case letter with the same lower case, anything else is kept |
| Strings.LowerChar | src/util/strings.ts:24 | `toLowerCase` on one character: no upper-case letter results, an upper-case letter becomes a lower-case letter, anything else is kept |
| Strings.Upper | src/util/strings.ts:24 | every character mapped to upper case, one for one |
| Strings.Lower | src/util/strings.ts:24 | every character mapped to lower case, one for one |
| Strings.Transform | src/util/strings.ts:20-25 | `null` iff the value is missing or empty; otherwise the same length, no lower-case letter for `'uppercase'`, no upper-case letter for any other type, non-letters unchanged, and each character the same letter up to case as the input's |
| Strings.CaseMappingIdempotent | src/util/strings.ts:24 | changing case twice the same way is changing it once, and the last change wins |
| Strings.CaseMappingPairsLetters | src/util/strings.ts:24 | each letter maps to the same letter in the other case and back |
| Strings.Truncate | src/util/strings.ts:39 | `ToIntegerOrInfinity` on a finite length: the integer toward zero, less than one away |
| Strings.SliceEnd | src/util/strings.ts:39 | the end index of `slice(0, length)`: truncated length clamped to the string, counted from the end when negative |
| Strings.Shorten | src/util/strings.ts:32-40 | `null` iff the value is missing or empty; always a prefix of the value; the value itself for a missing or zero length; for a positive length a prefix of min(size, length) characters |
| Strings.ShortenIdempotent | src/util/strings.ts:39 | shortening twice to the same length of at least 1 is shortening once (between 0 and 1 it is not: the first cut leaves `''`, which then gives `null`) |
| Strings.ShortenExample | src/util/strings.ts:32-40 | shortening `'Some value with number 123 in it'` to 10 gives `'Some value'` |
| UserInput.Filter | src/composables/user-input.ts:3-5 | a falsy pattern returns the value, even a missing one; with a truthy pattern a missing value throws, exactly then, and the empty value gives `''`; a string pattern that does not occur gives `''`; a class pattern gives a subsequence of class members |
| UserInput.AgreesWithGuardedFilter | src/composables/user-input.ts:3-5 | on a non-empty value it agrees with the guarded string helper; on `''` it returns `''` where the helper returns `null`; on a missing value it throws under a truthy pattern where the helper returns `null` |
| Attrs.Exclude | src/util/attrs.ts:10-23 | a missing map or list returns the map as given; otherwise exactly the keys not listed, with their values |
| Attrs.Include | src/util/attrs.ts:32-45 | a missing map or list returns the map as given; otherwise exactly the listed keys, with their values |
| Attrs.EmptyList | src/util/attrs.ts:10-45 | an empty list excludes nothing and includes nothing |
| Attrs.SplitsTheMap | src/util/attrs.ts:10-45 | for one list the two filters give disjoint maps whose union is the original |
| Attrs.Idempotent | src/util/attrs.ts:10-45 | filtering a second time by the same list changes nothing |

## Left out

### Outside the model

- The `.vue` components, templates, DOM events, focus, slots and emits are left out: they
  are interface glue.
- The debounce composable is left out: it is timer plumbing (`setTimeout`).
- `focus.ts`, `slots.ts` and `copy.ts` are not part of this model: they wrap DOM and Vue
  objects.
- Floating point is not modelled. Numbers are exact reals, so the rounding of `Number()`
  and of the comparisons, NaN and the infinities are absent, including a NaN bound or
  parameter.
- `Number()` reads hexadecimal, octal and binary literals and `Infinity`. The model reads
  each of these as NaN.
- Key order is left out. Attribute maps are maps, so the key order of the rebuilt object is
  not captured.
- Custom validators are parameters, so what they are is not modelled. Each is a function
  of the field data and its parameters, run on the data alone in the older composable.

### Patterns and text

- General regular expressions are left out. A pattern is either a string free of
  metacharacters, which a non-global `match` finds as itself, or a global character class
  such as `/[0-9]*/g`, whose matches joined are the class members of the value.
- Characters are code points. String lengths in UTF-16 code units are not modelled, and
  case mapping covers ASCII letters only.

### Weaker contracts

- Numbers.Filter: its contract states only when the result is `null`. The separator,
  minus, whitespace, order and first-character properties are the lemmas named in the
  table.
- Numbers.FilterKeepsSignificant and Numbers.FilterIsSubsequence: both exclude the one
  input where the filter spells out `undefined`, namely decimals forbidden, negatives
  allowed, and separators alone. `Numbers.SeparatorsOnlyQuirk` covers that input.
- Js.StringToNumber: its contract states only the blank case. The readings the model
  relies on are the lemmas `Js.DecimalReading`, `Js.UnsignedIntegerReading`,
  `Js.NegativeReading` and `Js.LeadingNonNumericIsNaN`.
- Numbers.Parse: its own contract states three `null` cases: a missing value, a blank
  value, and a value the filter empties. `Numbers.LeadingNonNumericParsesToNull` adds a
  fourth, a first non-blank character that cannot begin a number. A non-numeric character
  later in the value (`'12abc'`), which `Number()` reads as NaN and `parse` turns into
  `null`, is not stated. What `parse` reads from a filtered value is stated by the
  `NumberReading` lemmas: digits with either separator, digits alone, a leading minus on
  either of these, and digits and separators with decimals forbidden. Exponent forms, a
  text that the filter leaves with a minus and no digit after it, and `Infinity` are not
  stated.
- Js.LeadingNonNumericIsNaN and Numbers.LeadingNonNumericParsesToNull: `Number()` reads
  `Infinity` (after an optional sign) as a number, and the model reads it as NaN. So for a
  value that filters to text starting `Infinity` the source's `parse` returns Infinity
  where these lemmas say `null`, because the model has no infinite numbers.

### Parameters

- Validate.Predefined: the original parameters are `string | number | boolean`, and the
  model takes booleans and numbers only. The `as boolean` and `as number` casts change
  nothing at run time. The model reads a number flag by its truthiness and a boolean bound
  as 1 or 0, which is how `!` and the comparisons treat them.
- Array holes are not modelled: an array entry is a value.
- The number filter's flags have no defaults in the code. The model takes them as given
  booleans, and an omitted flag reads as `false`.
