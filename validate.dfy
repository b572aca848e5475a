/** The registry of predefined validations and the `validate` composable that folds a
    list of validations into the names of the failed ones (src/composables/validate.ts). */
module Validate {
  import opened Js
  import opened Types
  import BaseValidations
  import AmountValidations
  import ArrayValidations

  /** The keys of `predefinedValidations`. */
  datatype Key = Required | MaxLength | MinLength | MaxAmount | MinAmount | RequiredArray | MinArray | MaxArray

  function KeyText(k: Key): string
  {
    match k
    case Required => "required"
    case MaxLength => "max-length"
    case MinLength => "min-length"
    case MaxAmount => "max-amount"
    case MinAmount => "min-amount"
    case RequiredArray => "required-array"
    case MinArray => "min-array"
    case MaxArray => "max-array"
  }

  /** The display name of a key's family: keys beginning `min-` report `min`, keys
      beginning `max-` report `max`, the two `required` keys report `required`. */
  function Family(key: string): string
  {
    if |key| >= 4 && key[..4] == "min-" then "min"
    else if |key| >= 4 && key[..4] == "max-" then "max"
    else "required"
  }

  /** `parameters[0] ?? null`: the first parameter, `null` when there is none. */
  function First(parameters: seq<Param>): (p: Option<Param>)
    ensures p.Some? <==> parameters != []
    ensures p.Some? ==> p.value == parameters[0]
  {
    if parameters == [] then None else Some(parameters[0])
  }

  /** `p as boolean`: the cast changes nothing at run time, and the flag is only ever
      negated, so a number stands for its truthiness. */
  function AsFlag(p: Option<Param>): (r: Arg<bool>)
    ensures r == NullArg <==> p.None?
    ensures r.Given? ==> (r.value <==> Truthy(ParamValue(p.value)))
  {
    match p
    case None => NullArg
    case Some(PBool(b)) => Given(b)
    case Some(PNum(n)) => Given(n != 0.0)
  }

  /** `p as number`: a bound is only ever negated or compared with a number, and there a
      boolean behaves as 1 or 0. */
  function AsBound(p: Option<Param>): (r: Arg<real>)
    ensures r == NullArg <==> p.None?
    ensures r.Given? ==> ToNumber(ParamValue(p.value)) == Some(r.value)
  {
    match p
    case None => NullArg
    case Some(PNum(n)) => Given(n)
    case Some(PBool(b)) => Given(if b then 1.0 else 0.0)
  }

  /** `predefinedValidations[k]`: each entry forwards the field data and its first
      parameter (or `null`) to the validator of its family, and carries no parameters. */
  function Predefined(k: Key): (m: ValidationMethod)
    ensures m.name == Family(KeyText(k))
    ensures m.parameters == None
  {
    match k
    case Required =>
      assert KeyText(k)[..4] == "requ";
      ValidationMethod("required",
        (data, ps) => Returned(BaseValidations.Required(Some(data), AsFlag(First(ps)))), None)
    case MaxLength =>
      assert KeyText(k)[..4] == "max-";
      ValidationMethod("max",
        (data, ps) => Returned(BaseValidations.Maximum(Some(data), AsBound(First(ps)))), None)
    case MinLength =>
      assert KeyText(k)[..4] == "min-";
      ValidationMethod("min",
        (data, ps) => Returned(BaseValidations.Minimum(Some(data), AsBound(First(ps)))), None)
    case MaxAmount =>
      assert KeyText(k)[..4] == "max-";
      ValidationMethod("max",
        (data, ps) => Returned(AmountValidations.Maximum(Some(data), AsBound(First(ps)))), None)
    case MinAmount =>
      assert KeyText(k)[..4] == "min-";
      ValidationMethod("min",
        (data, ps) => Returned(AmountValidations.Minimum(Some(data), AsBound(First(ps)))), None)
    case RequiredArray =>
      assert KeyText(k)[..4] == "requ";
      ValidationMethod("required",
        (data, ps) => ArrayValidations.Required(Some(data), AsFlag(First(ps))), None)
    case MinArray =>
      assert KeyText(k)[..4] == "min-";
      ValidationMethod("min",
        (data, ps) => Returned(ArrayValidations.Minimum(Some(data), AsBound(First(ps)))), None)
    case MaxArray =>
      assert KeyText(k)[..4] == "max-";
      ValidationMethod("max",
        (data, ps) => Returned(ArrayValidations.Maximum(Some(data), AsBound(First(ps)))), None)
  }

  /** Which validator each predefined entry runs, and with which argument: the length
      keys run the string validators, the amount keys the numeric ones and the array keys
      the array ones, each on the first parameter read as a flag or a bound. */
  lemma PredefinedRuns(k: Key, data: FieldData, ps: seq<Param>)
    ensures var run := Predefined(k).validator(data, ps);
      && (k == Required ==> run == Returned(BaseValidations.Required(Some(data), AsFlag(First(ps)))))
      && (k == MaxLength ==> run == Returned(BaseValidations.Maximum(Some(data), AsBound(First(ps)))))
      && (k == MinLength ==> run == Returned(BaseValidations.Minimum(Some(data), AsBound(First(ps)))))
      && (k == MaxAmount ==> run == Returned(AmountValidations.Maximum(Some(data), AsBound(First(ps)))))
      && (k == MinAmount ==> run == Returned(AmountValidations.Minimum(Some(data), AsBound(First(ps)))))
      && (k == RequiredArray ==> run == ArrayValidations.Required(Some(data), AsFlag(First(ps))))
      && (k == MinArray ==> run == Returned(ArrayValidations.Minimum(Some(data), AsBound(First(ps)))))
      && (k == MaxArray ==> run == Returned(ArrayValidations.Maximum(Some(data), AsBound(First(ps)))))
  {
  }

  /** `{ ...predefinedValidations[k], parameters }`. */
  function Configure(k: Key, parameters: Option<seq<Param>>): (m: ValidationMethod)
    ensures m.name == Predefined(k).name && m.validator == Predefined(k).validator
    ensures m.parameters == parameters
  {
    Predefined(k).(parameters := parameters)
  }

  /** Only the first parameter reaches a predefined validator. */
  lemma ForwardsFirstParameterOnly(k: Key, data: FieldData, parameters: seq<Param>)
    requires parameters != []
    ensures Predefined(k).validator(data, parameters) == Predefined(k).validator(data, parameters[..1])
  {
  }

  /** Without a parameter every predefined validator receives `null` and passes. */
  lemma NoParameterPasses(k: Key, data: FieldData)
    ensures Predefined(k).validator(data, []) == Returned(true)
  {
  }

  /** Running one validation: `validator(data, ...(parameters || []))`. */
  function Run(data: FieldData, v: ValidationMethod): (r: Outcome<bool>)
    ensures v.parameters.None? ==> r == v.validator(data, [])
    ensures v.parameters.Some? ==> r == v.validator(data, v.parameters.value)
  {
    v.validator(data, if v.parameters.Some? then v.parameters.value else [])
  }

  predicate NoDuplicates(s: seq<string>)
  {
    forall i, j :: 0 <= i < j < |s| ==> s[i] != s[j]
  }

  /** The index of the first occurrence of `x` in `s`: in a set kept in insertion
      order, the place of `x`. */
  function Position(s: seq<string>, x: string): (p: nat)
    requires x in s
    ensures p < |s| && s[p] == x
    ensures forall q :: 0 <= q < p ==> s[q] != x
  {
    if s[0] == x then 0 else 1 + Position(s[1..], x)
  }

  /** `Set.add`: appends a name that is not yet there, and leaves the set alone
      otherwise. */
  function Add(s: seq<string>, x: string): (r: seq<string>)
    ensures x in s ==> r == s
    ensures x !in s ==> r == s + [x]
    ensures NoDuplicates(s) ==> NoDuplicates(r)
    ensures forall y :: y in r <==> y in s || y == x
  {
    if x in s then s else s + [x]
  }

  /** `Set.delete`: removes the name, keeping the order of the others. */
  function Delete(s: seq<string>, x: string): (r: seq<string>)
    ensures x !in s ==> r == s
    ensures NoDuplicates(s) && x in s ==> r == s[..Position(s, x)] + s[Position(s, x) + 1..]
    ensures NoDuplicates(s) ==> NoDuplicates(r)
    ensures forall y :: y in r <==> y in s && y != x
    ensures |r| <= |s|
  {
    if s == [] then []
    else if s[0] == x then
      var rest := Delete(s[1..], x);
      DeleteHead(s, x, rest);
      rest
    else
      var rest := Delete(s[1..], x);
      DeleteCons(s, x, rest);
      [s[0]] + rest
  }

  /** A set without duplicates loses none by dropping its first element, which is
      not among the others. */
  lemma NoDuplicatesTail(s: seq<string>)
    requires s != [] && NoDuplicates(s)
    ensures NoDuplicates(s[1..]) && s[0] !in s[1..]
  {
  }

  /** Putting a name in front of a duplicate-free set that lacks it keeps it duplicate-free. */
  lemma NoDuplicatesCons(h: string, t: seq<string>)
    requires h !in t && NoDuplicates(t)
    ensures NoDuplicates([h] + t)
  {
  }

  /** `Delete`'s promises when the first element is the deleted name. */
  lemma DeleteHead(s: seq<string>, x: string, rest: seq<string>)
    requires s != [] && s[0] == x
    requires NoDuplicates(s[1..]) ==> NoDuplicates(rest)
    requires forall y :: y in rest <==> y in s[1..] && y != x
    requires |rest| <= |s[1..]|
    requires x !in s[1..] ==> rest == s[1..]
    ensures NoDuplicates(s) ==> rest == s[..Position(s, x)] + s[Position(s, x) + 1..]
    ensures NoDuplicates(s) ==> NoDuplicates(rest)
    ensures forall y :: y in rest <==> y in s && y != x
    ensures |rest| <= |s|
  {
    if NoDuplicates(s) {
      NoDuplicatesTail(s);
      assert s[..0] + s[1..] == s[1..];
    }
  }

  /** `Delete`'s promises when the first element is kept in front of the rest. */
  lemma DeleteCons(s: seq<string>, x: string, rest: seq<string>)
    requires s != [] && s[0] != x
    requires x !in s[1..] ==> rest == s[1..]
    requires NoDuplicates(s[1..]) && x in s[1..] ==> rest == s[1..][..Position(s[1..], x)] + s[1..][Position(s[1..], x) + 1..]
    requires NoDuplicates(s[1..]) ==> NoDuplicates(rest)
    requires forall y :: y in rest <==> y in s[1..] && y != x
    requires |rest| <= |s[1..]|
    ensures x !in s ==> [s[0]] + rest == s
    ensures NoDuplicates(s) && x in s ==> [s[0]] + rest == s[..Position(s, x)] + s[Position(s, x) + 1..]
    ensures NoDuplicates(s) ==> NoDuplicates([s[0]] + rest)
    ensures forall y :: y in [s[0]] + rest <==> y in s && y != x
    ensures |[s[0]] + rest| <= |s|
  {
    assert s == [s[0]] + s[1..];
    if NoDuplicates(s) {
      NoDuplicatesTail(s);
      NoDuplicatesCons(s[0], rest);
      if x in s {
        assert x in s[1..];
        DeleteLater(s, x, rest);
      }
    }
  }

  /** Removing a name behind the first element, one step of `Delete`. */
  lemma DeleteLater(s: seq<string>, x: string, rest: seq<string>)
    requires s != [] && s[0] != x && x in s && NoDuplicates(s)
    requires rest == s[1..][..Position(s[1..], x)] + s[1..][Position(s[1..], x) + 1..]
    ensures [s[0]] + rest == s[..Position(s, x)] + s[Position(s, x) + 1..]
  {
    var p := Position(s[1..], x);
    assert Position(s, x) == 1 + p;
    assert s[..1 + p] == [s[0]] + s[1..][..p];
    assert s[2 + p..] == s[1..][p + 1..];
  }

  /** The failed names after running `vs` in order on an initially empty set: a failure
      adds the name, a pass deletes it; a validator that throws ends the run. */
  function Failures(data: FieldData, vs: seq<ValidationMethod>): (r: Outcome<seq<string>>)
    ensures r.Returned? ==> |r.value| <= |vs|
    ensures r.Returned? ==> forall n :: n in r.value ==> exists i :: 0 <= i < |vs| && vs[i].name == n
    decreases |vs|
  {
    if vs == [] then Returned([])
    else
      var last := vs[|vs| - 1];
      match Failures(data, vs[..|vs| - 1])
      case TypeError => TypeError
      case Returned(failed) =>
        match Run(data, last)
        case TypeError => TypeError
        case Returned(ok) => Returned(if ok then Delete(failed, last.name) else Add(failed, last.name))
  }

  /** `validate(data, validations = [])`. A `null` list cannot be iterated and throws. */
  method Validate(data: FieldData, validations: Arg<seq<ValidationMethod>> := Omitted)
    returns (r: Outcome<seq<string>>)
    ensures validations == Omitted || validations == Given([]) ==> r == Returned([])
    ensures validations == NullArg ==> r == TypeError
    ensures validations.Given? ==> r == Failures(data, validations.value)
    ensures r.Returned? ==> NoDuplicates(r.value)
  {
    if validations.NullArg? {
      return TypeError;
    }
    var vs := if validations.Given? then validations.value else [];
    var failed: seq<string> := [];
    for i := 0 to |vs|
      invariant Failures(data, vs[..i]) == Returned(failed)
      invariant NoDuplicates(failed)
    {
      FailuresStep(data, vs, i, failed);
      var result := vs[i].validator(data, if vs[i].parameters.Some? then vs[i].parameters.value else []);
      if result.TypeError? {
        FailuresStayThrown(data, vs, i + 1);
        return TypeError;
      }
      if result.value {
        failed := Delete(failed, vs[i].name);
      } else {
        failed := Add(failed, vs[i].name);
      }
    }
    assert vs[..|vs|] == vs;
    return Returned(failed);
  }

  /** One more validation in the fold, after a prefix that ran to completion. */
  lemma FailuresStep(data: FieldData, vs: seq<ValidationMethod>, i: nat, failed: seq<string>)
    requires i < |vs| && Failures(data, vs[..i]) == Returned(failed)
    ensures Failures(data, vs[..i + 1]) ==
      match Run(data, vs[i])
      case TypeError => TypeError
      case Returned(ok) => Returned(if ok then Delete(failed, vs[i].name) else Add(failed, vs[i].name))
  {
    assert vs[..i + 1][..i] == vs[..i];
  }

  /** Once a validator has thrown, the whole run throws. */
  lemma {:induction false} FailuresStayThrown(data: FieldData, vs: seq<ValidationMethod>, n: nat)
    requires n <= |vs|
    requires Failures(data, vs[..n]) == TypeError
    ensures Failures(data, vs) == TypeError
    decreases |vs| - n
  {
    if n < |vs| {
      assert vs[..n + 1][..n] == vs[..n];
      FailuresStayThrown(data, vs, n + 1);
    } else {
      assert vs[..n] == vs;
    }
  }

  /** The index of the last validation carrying `name`. */
  function LastIndex(vs: seq<ValidationMethod>, name: string): (r: Option<nat>)
    ensures r.Some? ==> r.value < |vs| && vs[r.value].name == name
    ensures r.Some? ==> forall j :: r.value < j < |vs| ==> vs[j].name != name
    ensures r.None? ==> forall j :: 0 <= j < |vs| ==> vs[j].name != name
  {
    if vs == [] then None
    else if vs[|vs| - 1].name == name then Some(|vs| - 1)
    else LastIndex(vs[..|vs| - 1], name)
  }

  /** The result holds no name twice. */
  lemma {:induction false} FailuresDistinct(data: FieldData, vs: seq<ValidationMethod>)
    requires Failures(data, vs).Returned?
    ensures NoDuplicates(Failures(data, vs).value)
    decreases |vs|
  {
    if vs != [] {
      FailuresDistinct(data, vs[..|vs| - 1]);
    }
  }

  /** A name is reported exactly when the last validation carrying it failed: a later
      pass under the same name cancels an earlier failure. */
  lemma {:induction false} LastVerdictWins(data: FieldData, vs: seq<ValidationMethod>, name: string)
    requires Failures(data, vs).Returned?
    ensures name in Failures(data, vs).value <==>
      LastIndex(vs, name).Some? && Run(data, vs[LastIndex(vs, name).value]) == Returned(false)
    decreases |vs|
  {
    if vs != [] {
      var init := vs[..|vs| - 1];
      LastVerdictWins(data, init, name);
      if vs[|vs| - 1].name != name {
        assert LastIndex(vs, name) == LastIndex(init, name);
        if LastIndex(init, name).Some? {
          assert vs[LastIndex(vs, name).value] == init[LastIndex(init, name).value];
        }
      }
    }
  }

  /** Index `i` is where `name` last entered the set: a failing validation under `name`
      with only failures under `name` after it, whose previous validation under `name`,
      if any, passed. */
  predicate InsertedAt(data: FieldData, vs: seq<ValidationMethod>, name: string, i: nat)
  {
    && i < |vs| && vs[i].name == name && Run(data, vs[i]) == Returned(false)
    && (forall j :: i < j < |vs| && vs[j].name == name ==> Run(data, vs[j]) == Returned(false))
    && (LastIndex(vs[..i], name).None? || Run(data, vs[LastIndex(vs[..i], name).value]) == Returned(true))
  }

  /** The last step of a run that completed. */
  lemma FailuresLast(data: FieldData, vs: seq<ValidationMethod>)
    requires vs != [] && Failures(data, vs).Returned?
    ensures Failures(data, vs[..|vs| - 1]).Returned? && Run(data, vs[|vs| - 1]).Returned?
    ensures var before, last := Failures(data, vs[..|vs| - 1]).value, vs[|vs| - 1];
      Failures(data, vs).value == if Run(data, last).value then Delete(before, last.name) else Add(before, last.name)
  {
  }

  /** An insertion point before the last validation is one of the run without it. */
  lemma InsertedInPrefix(data: FieldData, vs: seq<ValidationMethod>, name: string, i: nat)
    requires InsertedAt(data, vs, name, i) && i < |vs| - 1
    ensures InsertedAt(data, vs[..|vs| - 1], name, i)
  {
    var init := vs[..|vs| - 1];
    assert init[..i] == vs[..i];
    assert forall j :: i < j < |init| ==> init[j] == vs[j];
  }

  /** An insertion point survives a last validation under another name, or one that
      fails. */
  lemma InsertedExtends(data: FieldData, vs: seq<ValidationMethod>, name: string, i: nat)
    requires vs != [] && InsertedAt(data, vs[..|vs| - 1], name, i)
    requires vs[|vs| - 1].name != name || Run(data, vs[|vs| - 1]) == Returned(false)
    ensures InsertedAt(data, vs, name, i)
  {
    var init := vs[..|vs| - 1];
    assert init[..i] == vs[..i];
    assert forall j :: i < j < |init| ==> init[j] == vs[j];
  }

  /** A name with an insertion point is reported. */
  lemma InsertedIsReported(data: FieldData, vs: seq<ValidationMethod>, name: string, i: nat)
    requires Failures(data, vs).Returned? && InsertedAt(data, vs, name, i)
    ensures name in Failures(data, vs).value
  {
    LastVerdictWins(data, vs, name);
  }

  /** A reported name has an insertion point. */
  lemma {:induction false} ReportedIsInserted(data: FieldData, vs: seq<ValidationMethod>, name: string)
    requires Failures(data, vs).Returned? && name in Failures(data, vs).value
    ensures exists i :: InsertedAt(data, vs, name, i)
    decreases |vs|
  {
    var k := |vs| - 1;
    FailuresLast(data, vs);
    var init, last := vs[..k], vs[k];
    var before := Failures(data, init).value;
    if last.name != name || name in before {
      assert last.name == name ==> Run(data, last) == Returned(false);
      ReportedIsInserted(data, init, name);
      var i :| InsertedAt(data, init, name, i);
      InsertedExtends(data, vs, name, i);
    } else {
      FreshInsertion(data, vs);
    }
  }

  /** A failing last validation whose name was not in the set inserts it there. */
  lemma FreshInsertion(data: FieldData, vs: seq<ValidationMethod>)
    requires vs != [] && Failures(data, vs[..|vs| - 1]).Returned?
    requires Run(data, vs[|vs| - 1]) == Returned(false)
    requires vs[|vs| - 1].name !in Failures(data, vs[..|vs| - 1]).value
    ensures InsertedAt(data, vs, vs[|vs| - 1].name, |vs| - 1)
  {
    var k := |vs| - 1;
    var init, name := vs[..k], vs[k].name;
    LastVerdictWins(data, init, name);
    ThrowsIffSomeValidatorThrows(data, init);
    var m := LastIndex(init, name);
    if m.Some? {
      assert name !in Failures(data, init).value;
      assert Run(data, init[m.value]) != Returned(false);
      assert Run(data, init[m.value]) != TypeError;
      var o := Run(data, init[m.value]);
      assert o.Returned? && o.value;
      assert vs[m.value] == init[m.value];
    }
  }

  /** Appending leaves the place of the names already there. */
  lemma {:induction false} PositionAppend(s: seq<string>, c: string, x: string)
    requires x in s
    ensures Position(s + [c], x) == Position(s, x)
  {
    if s[0] != x {
      assert (s + [c])[1..] == s[1..] + [c];
      PositionAppend(s[1..], c, x);
    }
  }

  lemma PositionAppended(s: seq<string>, x: string)
    requires x !in s
    ensures Position(s + [x], x) == |s|
  {
    assert forall q :: 0 <= q < |s| ==> (s + [x])[q] == s[q];
  }

  /** Deleting a third name keeps two names in their order. */
  lemma {:induction false} DeleteKeepsOrder(s: seq<string>, x: string, a: string, b: string)
    requires a in s && b in s && a != x && b != x && Position(s, a) < Position(s, b)
    ensures a in Delete(s, x) && b in Delete(s, x)
    ensures Position(Delete(s, x), a) < Position(Delete(s, x), b)
  {
    if s[0] == x {
      DeleteKeepsOrder(s[1..], x, a, b);
    } else if s[0] != a {
      DeleteKeepsOrder(s[1..], x, a, b);
      assert Delete(s, x) == [s[0]] + Delete(s[1..], x);
    }
  }

  /** Names are reported in the order of their insertion points. */
  lemma {:induction false} InsertionOrder(data: FieldData, vs: seq<ValidationMethod>, a: string, b: string, i: nat, j: nat)
    requires Failures(data, vs).Returned?
    requires InsertedAt(data, vs, a, i) && InsertedAt(data, vs, b, j) && i < j
    ensures a in Failures(data, vs).value && b in Failures(data, vs).value
    ensures Position(Failures(data, vs).value, a) < Position(Failures(data, vs).value, b)
    decreases |vs|
  {
    var k := |vs| - 1;
    FailuresLast(data, vs);
    var init, last := vs[..k], vs[k];
    var before := Failures(data, init).value;
    InsertedInPrefix(data, vs, a, i);
    InsertedIsReported(data, init, a, i);
    if j == k {
      LastVerdictWins(data, init, b);
      AppendedComesLast(before, a, b);
    } else {
      InsertedInPrefix(data, vs, b, j);
      InsertedIsReported(data, init, b, j);
      InsertionOrder(data, init, a, b, i, j);
      StepKeepsOrder(before, last.name, Run(data, last).value, a, b);
    }
  }

  /** A name appended after another comes after it. */
  lemma AppendedComesLast(s: seq<string>, a: string, b: string)
    requires a in s && b !in s
    ensures a in Add(s, b) && b in Add(s, b) && Position(Add(s, b), a) < Position(Add(s, b), b)
  {
    PositionAppend(s, b, a);
    PositionAppended(s, b);
  }

  /** One step of the fold keeps two reported names in their order, unless it passes
      one of them. */
  lemma StepKeepsOrder(s: seq<string>, c: string, ok: bool, a: string, b: string)
    requires a in s && b in s && Position(s, a) < Position(s, b)
    requires (c == a || c == b) ==> !ok
    ensures var t := if ok then Delete(s, c) else Add(s, c);
      a in t && b in t && Position(t, a) < Position(t, b)
  {
    if ok {
      DeleteKeepsOrder(s, c, a, b);
    } else if c !in s {
      PositionAppend(s, c, a);
      PositionAppend(s, c, b);
    }
  }

  /** `Array.from(failed)` lists the failed names in insertion order: for two reported
      names, the one whose last insertion came first comes first. Every reported name
      has such an insertion point, and every insertion point belongs to a reported name. */
  lemma FailuresInInsertionOrder(data: FieldData, vs: seq<ValidationMethod>, a: string, b: string, i: nat, j: nat)
    requires Failures(data, vs).Returned? && a != b
    requires InsertedAt(data, vs, a, i) && InsertedAt(data, vs, b, j)
    ensures a in Failures(data, vs).value && b in Failures(data, vs).value
    ensures Position(Failures(data, vs).value, a) < Position(Failures(data, vs).value, b) <==> i < j
  {
    if i < j {
      InsertionOrder(data, vs, a, b, i, j);
    } else {
      assert i != j;
      InsertionOrder(data, vs, b, a, j, i);
    }
  }

  /** The run throws exactly when one of the validators throws. */
  lemma {:induction false} ThrowsIffSomeValidatorThrows(data: FieldData, vs: seq<ValidationMethod>)
    ensures Failures(data, vs) == TypeError <==> exists i :: 0 <= i < |vs| && Run(data, vs[i]) == TypeError
    decreases |vs|
  {
    if vs != [] {
      ThrowsIffSomeValidatorThrows(data, vs[..|vs| - 1]);
      SomeThrowsSplit(data, vs);
    }
  }

  predicate SomeThrows(data: FieldData, vs: seq<ValidationMethod>)
  {
    exists i :: 0 <= i < |vs| && Run(data, vs[i]) == TypeError
  }

  /** A validator of `vs` throws when one of all but the last does, or the last does. */
  lemma SomeThrowsSplit(data: FieldData, vs: seq<ValidationMethod>)
    requires vs != []
    ensures SomeThrows(data, vs) <==> SomeThrows(data, vs[..|vs| - 1]) || Run(data, vs[|vs| - 1]) == TypeError
  {
    var init := vs[..|vs| - 1];
    if exists i :: 0 <= i < |init| && Run(data, init[i]) == TypeError {
      var i :| 0 <= i < |init| && Run(data, init[i]) == TypeError;
      assert vs[i] == init[i];
    }
    if exists i :: 0 <= i < |vs| && Run(data, vs[i]) == TypeError {
      var i :| 0 <= i < |vs| && Run(data, vs[i]) == TypeError;
      if i < |init| { assert init[i] == vs[i]; }
    }
  }

  /** When every validation passes, nothing is reported; in particular predefined
      validations configured without parameters never fail. */
  lemma {:induction false} AllPassReportsNothing(data: FieldData, vs: seq<ValidationMethod>)
    requires forall i :: 0 <= i < |vs| ==> Run(data, vs[i]) == Returned(true)
    ensures Failures(data, vs) == Returned([])
    decreases |vs|
  {
    if vs != [] {
      var init := vs[..|vs| - 1];
      assert forall i :: 0 <= i < |init| ==> init[i] == vs[i];
      AllPassReportsNothing(data, init);
    }
  }

  lemma UnconfiguredNeverFail(data: FieldData, keys: seq<Key>, empty: bool)
    ensures Failures(data, seq(|keys|, i requires 0 <= i < |keys| =>
      Configure(keys[i], if empty then Some([]) else None))) == Returned([])
  {
    var vs := seq(|keys|, i requires 0 <= i < |keys| => Configure(keys[i], if empty then Some([]) else None));
    forall i | 0 <= i < |vs| ensures Run(data, vs[i]) == Returned(true) {
      NoParameterPasses(keys[i], data);
    }
    AllPassReportsNothing(data, vs);
  }

  /** The two rules of a required field at least five characters long. */
  function RequiredMinFive(): (vs: seq<ValidationMethod>)
    ensures |vs| == 2 && vs[0].name == "required" && vs[1].name == "min"
  {
    [Configure(Required, Some([PBool(true)])), Configure(MinLength, Some([PNum(5.0)]))]
  }

  /** What the two rules of `RequiredMinFive` decide about a value. */
  lemma RequiredMinFiveRuns(data: FieldData)
    ensures Run(data, RequiredMinFive()[0]) == Returned(BaseValidations.Required(Some(data), Given(true)))
    ensures Run(data, RequiredMinFive()[1]) == Returned(BaseValidations.Minimum(Some(data), Given(5.0)))
  {
    RequiredRuleRuns(data);
    MinLengthRuleRuns(data);
  }

  lemma RequiredRuleRuns(data: FieldData)
    ensures Run(data, Configure(Required, Some([PBool(true)]))) == Returned(BaseValidations.Required(Some(data), Given(true)))
  {
    var m := Configure(Required, Some([PBool(true)]));
    assert m.validator == Predefined(Required).validator;
    assert AsFlag(First([PBool(true)])) == Given(true);
  }

  lemma MinLengthRuleRuns(data: FieldData)
    ensures Run(data, Configure(MinLength, Some([PNum(5.0)]))) == Returned(BaseValidations.Minimum(Some(data), Given(5.0)))
  {
    var m := Configure(MinLength, Some([PNum(5.0)]));
    assert m.validator == Predefined(MinLength).validator;
    assert AsBound(First([PNum(5.0)])) == Given(5.0);
  }

  /** The fold over two validations that both run to completion. */
  lemma FailuresOfTwo(data: FieldData, vs: seq<ValidationMethod>, first: bool, second: bool)
    requires |vs| == 2 && Run(data, vs[0]) == Returned(first) && Run(data, vs[1]) == Returned(second)
    ensures Failures(data, vs) ==
      Returned(var once := if first then Delete([], vs[0].name) else Add([], vs[0].name);
               if second then Delete(once, vs[1].name) else Add(once, vs[1].name))
  {
    var one := vs[..1];
    assert one[..|one| - 1] == [] && one[|one| - 1] == vs[0];
    var once := if first then Delete([], vs[0].name) else Add([], vs[0].name);
    assert Failures(data, one) == Returned(once);
    assert vs[..|vs| - 1] == one && vs[|vs| - 1] == vs[1];
  }

  /** A missing value fails both rules of a required field at least five long. */
  lemma RequiredMinFiveMissing(missing: FieldData)
    requires missing == FieldData("data", Null)
    ensures Failures(missing, RequiredMinFive()) == Returned(["required", "min"])
  {
    var vs := RequiredMinFive();
    RequiredMinFiveRuns(missing);
    MissingFailsBoth(missing);
    FailuresOfTwo(missing, vs, false, false);
    AddTwice("required", "min");
  }

  lemma MissingFailsBoth(missing: FieldData)
    requires missing == FieldData("data", Null)
    ensures !BaseValidations.Required(Some(missing), Given(true))
    ensures !BaseValidations.Minimum(Some(missing), Given(5.0))
  {
  }

  /** Two different names added in turn to an empty set, in that order. */
  lemma AddTwice(a: string, b: string)
    requires a != b
    ensures Add(Add([], a), b) == [a, b]
  {
  }

  /** A three-letter value fails only the length rule. */
  lemma RequiredMinFiveShort(short: FieldData)
    requires short == FieldData("data", Str("abc"))
    ensures Failures(short, RequiredMinFive()) == Returned(["min"])
  {
    RequiredMinFiveRuns(short);
    assert BaseValidations.Required(Some(short), Given(true));
    assert !BaseValidations.Minimum(Some(short), Given(5.0));
    FailuresOfTwo(short, RequiredMinFive(), true, false);
    assert Delete([], "required") == [] && Add([], "min") == ["min"];
  }
}
