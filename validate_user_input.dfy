/** The older validation composable: a small registry of validators looked up by name,
    plus custom validators, every failure reported in order
    (src/composables/validate-user-input.ts). */
module ValidateUserInput {
  import opened Js
  import opened Types

  /** A built-in validation requested by name, with its one parameter. */
  datatype BaseValidation = BaseValidation(name: string, parameter: Arg<real>)

  /** A registry entry: the validator receives the field data and the parameter. */
  datatype Registered = Registered(name: string, validator: (FieldData, Arg<real>) -> Outcome<bool>)

  /** `validateRequired`: a truthy value that is not only whitespace. A truthy value
      that is not a string has no `trim` and throws. */
  function ValidateRequired(data: FieldData): (r: Outcome<bool>)
    ensures !Truthy(data.value) ==> r == Returned(false)
    ensures data.value.Str? ==> r == Returned(exists i :: 0 <= i < |data.value.s| && !IsWhitespace(data.value.s[i]))
    ensures r == TypeError <==> Truthy(data.value) && !data.value.Str?
  {
    if !Truthy(data.value) then Returned(false)
    else if data.value.Str? then Returned(Trim(data.value.s) != "")
    else TypeError
  }

  /** `validateMinLength`: a truthy value whose `length` is at least the bound. A value
      without a `length`, or an `undefined` bound, fails; a `null` bound compares as 0. */
  function ValidateMinLength(data: FieldData, minLength: Arg<real>): (r: bool)
    ensures r <==> (Truthy(data.value) && Length(data.value).Some? && ArgToNumber(minLength).Some? &&
      Length(data.value).value as real >= ArgToNumber(minLength).value)
    ensures minLength == Omitted ==> !r
    ensures data.value.Str? && minLength.Given? ==> (r <==> data.value.s != "" && |data.value.s| as real >= minLength.value)
  {
    Truthy(data.value) && AtLeast(NatToNumber(Length(data.value)), ArgToNumber(minLength))
  }

  /** `validateMaxLength`: a truthy value whose `length` is at most the bound. */
  function ValidateMaxLength(data: FieldData, maxLength: Arg<real>): (r: bool)
    ensures r <==> (Truthy(data.value) && Length(data.value).Some? && ArgToNumber(maxLength).Some? &&
      Length(data.value).value as real <= ArgToNumber(maxLength).value)
    ensures maxLength == Omitted ==> !r
    ensures data.value.Str? && maxLength.Given? ==> (r <==> data.value.s != "" && |data.value.s| as real <= maxLength.value)
  {
    Truthy(data.value) && AtMost(NatToNumber(Length(data.value)), ArgToNumber(maxLength))
  }

  /** The registry, in its declared order. */
  function Registry(): (r: seq<Registered>)
    ensures |r| == 3
    ensures r[0].name == "max-length" && r[1].name == "min-length" && r[2].name == "required"
  {
    [ Registered("max-length", (data, parameter) => Returned(ValidateMaxLength(data, parameter))),
      Registered("min-length", (data, parameter) => Returned(ValidateMinLength(data, parameter))),
      Registered("required", (data, parameter) => ValidateRequired(data)) ]
  }

  /** Which validator each registry entry runs: the length entries forward the request's
      parameter as the bound, and `required` ignores it. */
  lemma RegistryRuns(data: FieldData, parameter: Arg<real>)
    ensures Registry()[0].validator(data, parameter) == Returned(ValidateMaxLength(data, parameter))
    ensures Registry()[1].validator(data, parameter) == Returned(ValidateMinLength(data, parameter))
    ensures Registry()[2].validator(data, parameter) == ValidateRequired(data)
  {
  }

  /** `registry.find(item => item.name === name)`: the first entry so named. */
  function Find(entries: seq<Registered>, name: string): (r: Option<Registered>)
    ensures r.Some? <==> exists i :: 0 <= i < |entries| && entries[i].name == name
    ensures r.Some? ==> exists i :: 0 <= i < |entries| && entries[i] == r.value &&
                                 forall j :: 0 <= j < i ==> entries[j].name != name
  {
    if entries == [] then None
    else if entries[0].name == name then Some(entries[0])
    else
      var rest := Find(entries[1..], name);
      assert forall i :: 1 <= i < |entries| ==> entries[i] == entries[1..][i - 1];
      rest
  }

  predicate IsRegistered(name: string)
  {
    name == "max-length" || name == "min-length" || name == "required"
  }

  /** The registry position of a registered name. */
  function Slot(name: string): nat
  {
    if name == "max-length" then 0 else if name == "min-length" then 1 else 2
  }

  /** The registry entry for a name: the one declared under it, if any. */
  function Lookup(name: string): (r: Option<Registered>)
    ensures r.Some? <==> IsRegistered(name)
    ensures r.Some? ==> r.value == Registry()[Slot(name)] && r.value.name == name
  {
    var entries := Registry();
    assert IsRegistered(name) ==> entries[Slot(name)].name == name;
    Find(entries, name)
  }

  /** The names of the failed validations in the order they ran, duplicates kept; each
      validator receives the field data only; a validator that throws ends the run. */
  function Collect(data: FieldData, vs: seq<ValidationMethod>): (r: Outcome<seq<string>>)
    ensures r.Returned? ==> |r.value| <= |vs|
    ensures r.Returned? ==> forall n :: n in r.value ==> exists i :: 0 <= i < |vs| && vs[i].name == n
    decreases |vs|
  {
    if vs == [] then Returned([])
    else
      var last := vs[|vs| - 1];
      Record(Collect(data, vs[..|vs| - 1]), last.name, last.validator(data, []))
  }

  /** One step of the loop: a failure pushes the name, a throw ends the run. */
  function Record(failed: Outcome<seq<string>>, name: string, result: Outcome<bool>): (r: Outcome<seq<string>>)
    ensures r == TypeError <==> failed == TypeError || result == TypeError
    ensures r.Returned? ==> r.value == failed.value + (if result.value then [] else [name])
  {
    if failed.TypeError? || result.TypeError? then TypeError
    else if result.value then failed
    else Returned(failed.value + [name])
  }

  lemma CollectSnoc(data: FieldData, vs: seq<ValidationMethod>, v: ValidationMethod)
    ensures Collect(data, vs + [v]) == Record(Collect(data, vs), v.name, v.validator(data, []))
  {
    assert (vs + [v])[..|vs|] == vs;
  }

  /** `processValidation`. */
  method ProcessValidation(data: FieldData, validations: seq<ValidationMethod>) returns (r: Outcome<seq<string>>)
    ensures r == Collect(data, validations)
  {
    var failed: seq<string> := [];
    for i := 0 to |validations|
      invariant Collect(data, validations[..i]) == Returned(failed)
    {
      assert validations[..i + 1][..i] == validations[..i];
      var result := validations[i].validator(data, []);
      if result.TypeError? {
        CollectStaysThrown(data, validations, i + 1);
        return TypeError;
      }
      if result.value {
        continue;
      }
      failed := failed + [validations[i].name];
    }
    assert validations[..|validations|] == validations;
    return Returned(failed);
  }

  lemma {:induction false} CollectStaysThrown(data: FieldData, vs: seq<ValidationMethod>, n: nat)
    requires n <= |vs|
    requires Collect(data, vs[..n]) == TypeError
    ensures Collect(data, vs) == TypeError
    decreases |vs| - n
  {
    if n < |vs| {
      assert vs[..n + 1][..n] == vs[..n];
      CollectStaysThrown(data, vs, n + 1);
    } else {
      assert vs[..n] == vs;
    }
  }

  /** `a.push(...b)` after `a` was computed: a throw on either side is a throw. */
  function Join(a: Outcome<seq<string>>, b: Outcome<seq<string>>): (r: Outcome<seq<string>>)
    ensures r == TypeError <==> a == TypeError || b == TypeError
    ensures r.Returned? ==> |r.value| == |a.value| + |b.value|
    ensures r.Returned? ==> r.value[..|a.value|] == a.value && r.value[|a.value|..] == b.value
  {
    if a.TypeError? || b.TypeError? then TypeError else Returned(a.value + b.value)
  }

  /** Running two lists one after the other reports the failures of the first, then
      those of the second. */
  lemma {:induction false} CollectAppend(data: FieldData, a: seq<ValidationMethod>, b: seq<ValidationMethod>)
    ensures Collect(data, a + b) == Join(Collect(data, a), Collect(data, b))
    decreases |b|
  {
    if b == [] {
      assert a + b == a;
      if Collect(data, a).Returned? {
        assert Collect(data, a).value + [] == Collect(data, a).value;
      }
    } else {
      var init := b[..|b| - 1];
      assert (a + b)[..|a + b| - 1] == a + init;
      assert (a + b)[|a + b| - 1] == b[|b| - 1];
      CollectAppend(data, a, init);
      var last := b[|b| - 1];
      if Collect(data, a).Returned? && Collect(data, init).Returned? && last.validator(data, []).Returned? {
        assert Collect(data, a).value + Collect(data, init).value + [last.name] ==
          Collect(data, a).value + (Collect(data, init).value + [last.name]);
      }
    }
  }

  /** The failures reported are the names of the failing validations in order; so the
      same name is reported as often as validations carrying it fail. */
  lemma {:induction false} CollectCountsEveryFailure(data: FieldData, vs: seq<ValidationMethod>)
    requires Collect(data, vs).Returned?
    ensures |Collect(data, vs).value| == |FailingIndices(data, vs)|
    ensures forall k :: 0 <= k < |Collect(data, vs).value| ==>
      Collect(data, vs).value[k] == vs[FailingIndices(data, vs)[k]].name
    decreases |vs|
  {
    if vs != [] {
      var init := vs[..|vs| - 1];
      CollectCountsEveryFailure(data, init);
      assert forall i :: 0 <= i < |init| ==> init[i] == vs[i];
    }
  }

  /** The indices, in increasing order, of the validations that return false. */
  function FailingIndices(data: FieldData, vs: seq<ValidationMethod>): (r: seq<nat>)
    ensures forall k :: 0 <= k < |r| ==> r[k] < |vs| && vs[r[k]].validator(data, []) == Returned(false)
    ensures forall k, l :: 0 <= k < l < |r| ==> r[k] < r[l]
    ensures forall i :: 0 <= i < |vs| && vs[i].validator(data, []) == Returned(false) ==> i in r
    decreases |vs|
  {
    if vs == [] then []
    else
      var init := FailingIndices(data, vs[..|vs| - 1]);
      assert forall i :: 0 <= i < |vs| - 1 ==> vs[..|vs| - 1][i] == vs[i];
      if vs[|vs| - 1].validator(data, []) == Returned(false) then init + [|vs| - 1] else init
  }

  /** The failures of the requested built-in validations, independently of how the
      closures are built: an unregistered name is skipped, a registered one runs its
      validator on the field data and the requested parameter. */
  function BaseFailures(data: FieldData, bases: seq<BaseValidation>): (r: Outcome<seq<string>>)
    ensures r.Returned? ==> |r.value| <= |bases|
    ensures r.Returned? ==> forall k :: 0 <= k < |r.value| ==> IsRegistered(r.value[k])
    decreases |bases|
  {
    if bases == [] then Returned([])
    else
      var last := bases[|bases| - 1];
      var registered := Lookup(last.name);
      var failed := BaseFailures(data, bases[..|bases| - 1]);
      if registered.None? then failed
      else Record(failed, last.name, registered.value.validator(data, last.parameter))
  }

  lemma BaseFailuresStep(data: FieldData, bases: seq<BaseValidation>, i: nat)
    requires i < |bases|
    ensures var registered := Lookup(bases[i].name);
      BaseFailures(data, bases[..i + 1]) ==
        if registered.None? then BaseFailures(data, bases[..i])
        else Record(BaseFailures(data, bases[..i]), bases[i].name, registered.value.validator(data, bases[i].parameter))
  {
    assert bases[..i + 1][..i] == bases[..i];
  }

  /** `processBaseValidations`: wraps each registered request in a validator that
      ignores its arguments, then runs them. */
  method ProcessBaseValidations(data: FieldData, bases: seq<BaseValidation>) returns (r: Outcome<seq<string>>)
    ensures r == BaseFailures(data, bases)
  {
    var validations: seq<ValidationMethod> := [];
    for i := 0 to |bases|
      invariant Collect(data, validations) == BaseFailures(data, bases[..i])
    {
      BaseFailuresStep(data, bases, i);
      var validation := bases[i];
      var registered := Lookup(validation.name);
      if registered.None? {
        continue;
      }
      var found := registered.value;
      var wrapped := ValidationMethod(validation.name, (d, ps) => found.validator(data, validation.parameter), None);
      CollectSnoc(data, validations, wrapped);
      validations := validations + [wrapped];
    }
    assert bases[..|bases|] == bases;
    r := ProcessValidation(data, validations);
  }

  /** `validate(data, baseValidations?, customValidations?)`: the failed built-in
      validations first, then the failed custom ones; a missing list contributes nothing. */
  method Validate(data: FieldData, bases: Option<seq<BaseValidation>>, custom: Option<seq<ValidationMethod>>)
    returns (r: Outcome<seq<string>>)
    ensures r == Join(if bases.Some? then BaseFailures(data, bases.value) else Returned([]),
                      if custom.Some? then Collect(data, custom.value) else Returned([]))
  {
    var first: seq<string> := [];
    if bases.Some? {
      var b := ProcessBaseValidations(data, bases.value);
      if b.TypeError? {
        return TypeError;
      }
      first := b.value;
    }
    var second: seq<string> := [];
    if custom.Some? {
      var c := ProcessValidation(data, custom.value);
      if c.TypeError? {
        return TypeError;
      }
      second := c.value;
    }
    return Returned(first + second);
  }

  /** A request for a name the registry does not hold changes nothing. */
  lemma UnregisteredIsSkipped(data: FieldData, bases: seq<BaseValidation>, extra: BaseValidation)
    requires !IsRegistered(extra.name)
    ensures BaseFailures(data, bases + [extra]) == BaseFailures(data, bases)
  {
    assert (bases + [extra])[..|bases|] == bases;
  }

  /** Requesting `required` on a blank string reports it once per request, unlike the
      set-based composable. */
  lemma RequiredTwiceReportedTwice(data: FieldData, bases: seq<BaseValidation>)
    requires data.value == Str(" ")
    requires bases == [BaseValidation("required", Omitted), BaseValidation("required", Omitted)]
    ensures BaseFailures(data, bases) == Returned(["required", "required"])
  {
    RequiredOnBlank(data, bases[0]);
    FailsTwiceReportedTwice(data, bases[0]);
    assert bases == [bases[0], bases[0]];
  }

  /** A failing request made twice is reported twice. */
  lemma FailsTwiceReportedTwice(data: FieldData, b: BaseValidation)
    requires Lookup(b.name).Some? && Lookup(b.name).value.validator(data, b.parameter) == Returned(false)
    ensures BaseFailures(data, [b, b]) == Returned([b.name, b.name])
  {
    assert BaseFailures(data, []) == Returned([]);
    FailedRequestAppends(data, [], b, []);
    assert [] + [b] == [b] && [] + [b.name] == [b.name];
    FailedRequestAppends(data, [b], b, [b.name]);
    assert [b] + [b] == [b, b] && [b.name] + [b.name] == [b.name, b.name];
  }

  /** A registered request that fails appends its name to the failures so far. */
  lemma FailedRequestAppends(data: FieldData, bases: seq<BaseValidation>, b: BaseValidation, failed: seq<string>)
    requires Lookup(b.name).Some? && Lookup(b.name).value.validator(data, b.parameter) == Returned(false)
    requires BaseFailures(data, bases) == Returned(failed)
    ensures BaseFailures(data, bases + [b]) == Returned(failed + [b.name])
  {
    var more := bases + [b];
    BaseFailuresStep(data, more, |bases|);
    assert more[..|bases|] == bases && more[..|bases| + 1] == more;
  }

  /** A `required` request on a blank string fails. */
  lemma RequiredOnBlank(data: FieldData, b: BaseValidation)
    requires data.value == Str(" ") && b == BaseValidation("required", Omitted)
    ensures Lookup(b.name).Some? && Lookup(b.name).value.validator(data, b.parameter) == Returned(false)
  {
    RequiredSlot(b.name);
    BlankFails(data);
  }

  lemma RequiredSlot(name: string)
    requires name == "required"
    ensures Slot(name) == 2 && IsRegistered(name)
  {
  }

  lemma BlankFails(data: FieldData)
    requires data.value == Str(" ")
    ensures ValidateRequired(data) == Returned(false)
  {
    assert IsWhitespace(data.value.s[0]);
  }
}
