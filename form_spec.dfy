/** src/main.ts, the form-level transitions of `useForm` as functions of the
    form's state: the initial state, `handleChange` and the extra updates
    run after it, the advanced form validation, and the arguments
    `forceFormUpdate` hands to `handleChange`. */
module FormSpec {
  import opened JsValues
  import opened Arrays
  import opened Utils
  import opened SetterValue
  import opened Objects
  import opened FieldRules
  import opened Passes

  type TempErrors = map<string, seq<string>>

  /** What the form engine takes from outside a form's state: the default
      required message of the global config and the optional
      `advancedFormValidation`, which may call `setFormError` (here: returns
      the last message it set, or `None`). */
  datatype Env = Env(defaultRequiredMsg: string, advancedFormValidation: Option<Fields -> Option<string>>)

  /** The registry invariant: `fieldsConfig` and `formState.fields` have the
      same keys, and `ids` is their (common) insertion order. */
  ghost predicate WellFormed(ids: seq<string>, configs: Configs, fields: Fields) {
    && Distinct(ids)
    && (forall id :: id in configs <==> id in ids)
    && fields.Keys == configs.Keys
  }

  /** `performAdvancedFormValidation`: an error the advanced validation
      returns becomes the form error; otherwise the form error is kept, so
      nothing ever clears it. */
  function AdvancedFormValidation(env: Env, fields: Fields, formError: Option<string>): (r: Option<string>)
    ensures env.advancedFormValidation.None? ==> r == formError
    ensures r != formError ==> env.advancedFormValidation.Some? && r.Some? && r == env.advancedFormValidation.value(fields)
    ensures env.advancedFormValidation.Some? && env.advancedFormValidation.value(fields).Some?
            ==> r == env.advancedFormValidation.value(fields)
  {
    if env.advancedFormValidation.Some? && env.advancedFormValidation.value(fields).Some?
    then env.advancedFormValidation.value(fields)
    else formError
  }

  // ---------------------------------------------------------------------
  // The entry loop of handleChange

  /** The draft during the entry loop: the fields, the temporary errors and
      the ids added to `errorWasReset`. */
  datatype Applied = Applied(fields: Fields, tempErrors: TempErrors, changed: set<string>)

  /** An entry whose value is `undefined` is skipped. */
  predicate IsUndefinedEntry(sv: SetValue) {
    sv.Literal? && sv.value.Undefined?
  }

  /** `shouldSkipTouch` for `id`; a field without a config is not untouchable. */
  function SkipsTouchFor(configs: Configs, id: string, options: ChangeOptions): bool {
    ShouldSkipTouch(id in configs && configs[id].untouchable, id, options)
  }

  /** Whether `entries` has a (defined) entry for `id`. */
  predicate HasEntry(entries: seq<(string, SetValue)>, id: string) {
    exists i :: 0 <= i < |entries| && entries[i].0 == id && !IsUndefinedEntry(entries[i].1)
  }

  /** Whether `entries` has a (defined) entry for `id` that touches it. */
  predicate TouchingEntry(entries: seq<(string, SetValue)>, configs: Configs, id: string, options: ChangeOptions) {
    exists i :: 0 <= i < |entries| && entries[i].0 == id && !IsUndefinedEntry(entries[i].1)
                && !SkipsTouchFor(configs, id, options)
  }

  /** One iteration of the entry loop. The temporary error of a touching
      entry is dropped before the field is looked up. */
  function ApplyEntry(a: Applied, id: string, sv: SetValue, options: ChangeOptions, configs: Configs,
                      defaultRequiredMsg: string): Applied
  {
    if IsUndefinedEntry(sv) then a
    else
      var skip := SkipsTouchFor(configs, id, options);
      var temp := if skip then a.tempErrors else a.tempErrors - {id};
      if id !in a.fields || id !in configs then Applied(a.fields, temp, a.changed)
      else
        var f := a.fields[id];
        Applied(a.fields[id := FieldAfterValue(configs[id], f, UnwrapSetterValue(sv, f.value), skip, defaultRequiredMsg)],
                temp, a.changed + {id})
  }

  /** The draft after the entry loop over `entries`. */
  function ApplyEntries(entries: seq<(string, SetValue)>, options: ChangeOptions, configs: Configs, start: Applied,
                        defaultRequiredMsg: string): Applied
    decreases |entries|
  {
    if |entries| == 0 then start
    else
      var prev := ApplyEntries(entries[..|entries| - 1], options, configs, start, defaultRequiredMsg);
      ApplyEntry(prev, entries[|entries| - 1].0, entries[|entries| - 1].1, options, configs, defaultRequiredMsg)
  }

  /** The entry loop keeps the set of fields and leaves a field without an
      entry as it is. */
  lemma {:induction false} ApplyEntriesKeeps(entries: seq<(string, SetValue)>, options: ChangeOptions, configs: Configs,
                                             start: Applied, defaultRequiredMsg: string)
    ensures var r := ApplyEntries(entries, options, configs, start, defaultRequiredMsg);
            r.fields.Keys == start.fields.Keys
    ensures var r := ApplyEntries(entries, options, configs, start, defaultRequiredMsg);
            forall id :: id in start.fields && !HasEntry(entries, id) ==> r.fields[id] == start.fields[id]
    decreases |entries|
  {
    if |entries| > 0 {
      var n := |entries| - 1;
      var init := entries[..n];
      ApplyEntriesKeeps(init, options, configs, start, defaultRequiredMsg);
      forall id | HasEntry(init, id) ensures HasEntry(entries, id) {
        var i :| 0 <= i < n && init[i].0 == id && !IsUndefinedEntry(init[i].1);
        assert entries[i] == init[i];
      }
    }
  }

  /** The entry loop records in `errorWasReset` exactly the known fields with
      an entry. */
  lemma {:induction false} ApplyEntriesChanged(entries: seq<(string, SetValue)>, options: ChangeOptions, configs: Configs,
                                               start: Applied, defaultRequiredMsg: string)
    ensures var r := ApplyEntries(entries, options, configs, start, defaultRequiredMsg);
            forall id :: id in r.changed <==> id in start.changed || (HasEntry(entries, id) && id in start.fields && id in configs)
    decreases |entries|
  {
    if |entries| > 0 {
      var n := |entries| - 1;
      var init := entries[..n];
      ApplyEntriesChanged(init, options, configs, start, defaultRequiredMsg);
      ApplyEntriesKeeps(init, options, configs, start, defaultRequiredMsg);
      assert forall i :: 0 <= i < n ==> init[i] == entries[i];
      assert forall id :: HasEntry(entries, id) <==> HasEntry(init, id) || (entries[n].0 == id && !IsUndefinedEntry(entries[n].1));
    }
  }

  /** The entry loop drops exactly the temporary errors of touching entries
      and keeps the others as they are. */
  lemma {:induction false} ApplyEntriesTempErrors(entries: seq<(string, SetValue)>, options: ChangeOptions, configs: Configs,
                                                  start: Applied, defaultRequiredMsg: string)
    ensures var r := ApplyEntries(entries, options, configs, start, defaultRequiredMsg);
            forall id :: id in r.tempErrors <==> id in start.tempErrors && !TouchingEntry(entries, configs, id, options)
    ensures var r := ApplyEntries(entries, options, configs, start, defaultRequiredMsg);
            forall id :: id in r.tempErrors ==> r.tempErrors[id] == start.tempErrors[id]
    decreases |entries|
  {
    if |entries| > 0 {
      var n := |entries| - 1;
      var init := entries[..n];
      ApplyEntriesTempErrors(init, options, configs, start, defaultRequiredMsg);
      var prev := ApplyEntries(init, options, configs, start, defaultRequiredMsg);
      var last := entries[n];
      var r := ApplyEntries(entries, options, configs, start, defaultRequiredMsg);
      assert r.tempErrors == if IsUndefinedEntry(last.1) || SkipsTouchFor(configs, last.0, options)
                             then prev.tempErrors else prev.tempErrors - {last.0};
      forall id
        ensures TouchingEntry(entries, configs, id, options) <==>
                  TouchingEntry(init, configs, id, options)
                  || (last.0 == id && !IsUndefinedEntry(last.1) && !SkipsTouchFor(configs, id, options))
      {
        if TouchingEntry(entries, configs, id, options) {
          var i :| 0 <= i < |entries| && entries[i].0 == id && !IsUndefinedEntry(entries[i].1)
                   && !SkipsTouchFor(configs, id, options);
          if i < n { assert init[i] == entries[i]; }
        }
        if TouchingEntry(init, configs, id, options) {
          var i :| 0 <= i < n && init[i].0 == id && !IsUndefinedEntry(init[i].1) && !SkipsTouchFor(configs, id, options);
          assert entries[i] == init[i];
        }
      }
    }
  }

  /** A known field with exactly one (defined) entry ends up as
      `updateFieldStateFromValue` leaves it, applied to its original record,
      with the touch decision as `isInitialState`. */
  lemma {:induction false} ApplyEntriesOwnTurn(entries: seq<(string, SetValue)>, k: nat, options: ChangeOptions,
                                               configs: Configs, start: Applied, defaultRequiredMsg: string)
    requires DistinctKeys(entries)
    requires k < |entries| && entries[k].0 in start.fields && entries[k].0 in configs && !IsUndefinedEntry(entries[k].1)
    ensures var id := entries[k].0;
            var f := start.fields[id];
            var r := ApplyEntries(entries, options, configs, start, defaultRequiredMsg);
            id in r.fields &&
            r.fields[id] == FieldAfterValue(configs[id], f, UnwrapSetterValue(entries[k].1, f.value),
                                            SkipsTouchFor(configs, id, options), defaultRequiredMsg)
    decreases |entries|
  {
    var n := |entries| - 1;
    var init := entries[..n];
    ApplyEntriesKeeps(init, options, configs, start, defaultRequiredMsg);
    if k == n {
      assert !HasEntry(init, entries[k].0) by {
        forall i | 0 <= i < n ensures init[i].0 != entries[k].0 { assert init[i] == entries[i]; }
      }
    } else {
      assert DistinctKeys(init) by {
        forall i, j | 0 <= i < j < n ensures init[i].0 != init[j].0 { assert init[i] == entries[i] && init[j] == entries[j]; }
      }
      assert init[k] == entries[k];
      ApplyEntriesOwnTurn(init, k, options, configs, start, defaultRequiredMsg);
      assert entries[n].0 != entries[k].0;
    }
  }

  // ---------------------------------------------------------------------
  // handleChange, performExtraUpdates and the initial state

  /** The fields and the form error after `performExtraUpdates`. */
  datatype Checked = Checked(fields: Fields, formError: Option<string>)

  /** `performExtraUpdates(formState, errorWasReset)`: the derived pass, the
      validation pass and the advanced validation. */
  function ExtraUpdates(env: Env, ids: seq<string>, configs: Configs, fields: Fields, tempErrors: TempErrors,
                        formMetadata: Value, errorWasReset: Option<set<string>>, formError: Option<string>): Checked
  {
    var derived := DerivedPass(ids, configs, fields, formMetadata, env.defaultRequiredMsg);
    var reset := if errorWasReset.Some? then Some(errorWasReset.value + DerivedIds(ids, configs, fields)) else None;
    var validated := FormValidation(reset, ids, configs, derived, tempErrors, formMetadata, env.defaultRequiredMsg);
    Checked(validated, AdvancedFormValidation(env, validated, formError))
  }

  datatype ChangeOutcome = ChangeOutcome(fields: Fields, tempErrors: TempErrors, formError: Option<string>)

  /** `handleChange(entries, options)`: the entry loop, a derived pass, then
      `performExtraUpdates` with the ids the two recorded (so the derived
      pass runs twice). */
  function HandleChangeResult(env: Env, ids: seq<string>, configs: Configs, fields: Fields, tempErrors: TempErrors,
                              formError: Option<string>, formMetadata: Value,
                              entries: seq<(string, SetValue)>, options: ChangeOptions): ChangeOutcome
  {
    var applied := ApplyEntries(entries, options, configs, Applied(fields, tempErrors, {}), env.defaultRequiredMsg);
    var derived := DerivedPass(ids, configs, applied.fields, formMetadata, env.defaultRequiredMsg);
    var reset := applied.changed + DerivedIds(ids, configs, applied.fields);
    var extra := ExtraUpdates(env, ids, configs, derived, applied.tempErrors, formMetadata, Some(reset), formError);
    ChangeOutcome(extra.fields, applied.tempErrors, extra.formError)
  }

  /** The extra updates keep the set of fields, every touch flag, initial
      value and change flag. */
  lemma ExtraUpdatesKeep(env: Env, ids: seq<string>, configs: Configs, fields: Fields, tempErrors: TempErrors,
                         formMetadata: Value, errorWasReset: Option<set<string>>, formError: Option<string>)
    ensures var r := ExtraUpdates(env, ids, configs, fields, tempErrors, formMetadata, errorWasReset, formError).fields;
            r.Keys == fields.Keys
    ensures var r := ExtraUpdates(env, ids, configs, fields, tempErrors, formMetadata, errorWasReset, formError).fields;
            forall id :: id in fields ==>
              r[id].isTouched == fields[id].isTouched && r[id].initialValue == fields[id].initialValue
              && r[id].isDiffFromInitial == fields[id].isDiffFromInitial
  {
    var derived := DerivedPass(ids, configs, fields, formMetadata, env.defaultRequiredMsg);
    DerivedPassKeepsTouch(ids, configs, fields, formMetadata, env.defaultRequiredMsg);
    var reset := if errorWasReset.Some? then Some(errorWasReset.value + DerivedIds(ids, configs, fields)) else None;
    var resetFields := if reset.Some? then ResetPass(ids, configs, derived, reset.value, env.defaultRequiredMsg) else derived;
    if reset.Some? {
      ResetPassKeeps(ids, configs, derived, reset.value, env.defaultRequiredMsg);
    }
    ValidationPassKeeps(ids, configs, resetFields, tempErrors, formMetadata);
  }

  /** `handleChange` never adds or drops a field, whatever its entries. */
  lemma HandleChangeKeepsKeys(env: Env, ids: seq<string>, configs: Configs, fields: Fields, tempErrors: TempErrors,
                              formError: Option<string>, formMetadata: Value,
                              entries: seq<(string, SetValue)>, options: ChangeOptions)
    ensures HandleChangeResult(env, ids, configs, fields, tempErrors, formError, formMetadata, entries, options).fields.Keys
              == fields.Keys
  {
    var start := Applied(fields, tempErrors, {});
    var applied := ApplyEntries(entries, options, configs, start, env.defaultRequiredMsg);
    ApplyEntriesKeeps(entries, options, configs, start, env.defaultRequiredMsg);
    var derived := DerivedPass(ids, configs, applied.fields, formMetadata, env.defaultRequiredMsg);
    DerivedPassKeeps(ids, configs, applied.fields, formMetadata, env.defaultRequiredMsg);
    var reset := applied.changed + DerivedIds(ids, configs, applied.fields);
    ExtraUpdatesKeep(env, ids, configs, derived, applied.tempErrors, formMetadata, Some(reset), formError);
  }

  /** `handleChange` keeps the set of fields, and it touches exactly the
      fields that get an entry which does not skip the touch: every other
      field keeps its touch flag. */
  lemma HandleChangeTouches(env: Env, ids: seq<string>, configs: Configs, fields: Fields, tempErrors: TempErrors,
                            formError: Option<string>, formMetadata: Value,
                            entries: seq<(string, SetValue)>, options: ChangeOptions)
    requires WellFormed(ids, configs, fields) && DistinctKeys(entries)
    ensures var r := HandleChangeResult(env, ids, configs, fields, tempErrors, formError, formMetadata, entries, options);
            r.fields.Keys == fields.Keys
    ensures var r := HandleChangeResult(env, ids, configs, fields, tempErrors, formError, formMetadata, entries, options);
            forall id :: id in fields ==>
              (r.fields[id].isTouched <==> fields[id].isTouched || TouchingEntry(entries, configs, id, options))
  {
    var start := Applied(fields, tempErrors, {});
    var applied := ApplyEntries(entries, options, configs, start, env.defaultRequiredMsg);
    ApplyEntriesKeeps(entries, options, configs, start, env.defaultRequiredMsg);
    var derived := DerivedPass(ids, configs, applied.fields, formMetadata, env.defaultRequiredMsg);
    DerivedPassKeepsTouch(ids, configs, applied.fields, formMetadata, env.defaultRequiredMsg);
    var reset := applied.changed + DerivedIds(ids, configs, applied.fields);
    ExtraUpdatesKeep(env, ids, configs, derived, applied.tempErrors, formMetadata, Some(reset), formError);
    forall id | id in fields
      ensures applied.fields[id].isTouched <==> fields[id].isTouched || TouchingEntry(entries, configs, id, options)
    {
      if HasEntry(entries, id) {
        var k :| 0 <= k < |entries| && entries[k].0 == id && !IsUndefinedEntry(entries[k].1);
        ApplyEntriesOwnTurn(entries, k, options, configs, start, env.defaultRequiredMsg);
        if !SkipsTouchFor(configs, id, options) {
          assert 0 <= k < |entries| && entries[k].0 == id && !IsUndefinedEntry(entries[k].1)
                 && !SkipsTouchFor(configs, id, options);
        }
      }
    }
  }

  /** After `handleChange`, a temporary error that is still stored makes its
      field invalid, and the field's errors start with it. */
  lemma HandleChangeKeepsTempErrorsInvalid(env: Env, ids: seq<string>, configs: Configs, fields: Fields,
                                           tempErrors: TempErrors, formError: Option<string>, formMetadata: Value,
                                           entries: seq<(string, SetValue)>, options: ChangeOptions)
    requires WellFormed(ids, configs, fields)
    ensures var r := HandleChangeResult(env, ids, configs, fields, tempErrors, formError, formMetadata, entries, options);
            forall id :: id in r.tempErrors && id in fields ==>
              id in r.fields && !r.fields[id].isValid && r.fields[id].errors.Some?
              && r.tempErrors[id] <= r.fields[id].errors.value
  {
    var start := Applied(fields, tempErrors, {});
    var applied := ApplyEntries(entries, options, configs, start, env.defaultRequiredMsg);
    ApplyEntriesKeeps(entries, options, configs, start, env.defaultRequiredMsg);
    ApplyEntriesTempErrors(entries, options, configs, start, env.defaultRequiredMsg);
    var derived := DerivedPass(ids, configs, applied.fields, formMetadata, env.defaultRequiredMsg);
    DerivedPassKeeps(ids, configs, applied.fields, formMetadata, env.defaultRequiredMsg);
    var reset := applied.changed + DerivedIds(ids, configs, applied.fields);
    var derived2 := DerivedPass(ids, configs, derived, formMetadata, env.defaultRequiredMsg);
    DerivedPassKeeps(ids, configs, derived, formMetadata, env.defaultRequiredMsg);
    var reset2 := reset + DerivedIds(ids, configs, derived);
    var resetFields := ResetPass(ids, configs, derived2, reset2, env.defaultRequiredMsg);
    ResetPassKeeps(ids, configs, derived2, reset2, env.defaultRequiredMsg);
    var r := HandleChangeResult(env, ids, configs, fields, tempErrors, formError, formMetadata, entries, options);
    assert r.fields == ValidationPass(ids, configs, resetFields, applied.tempErrors, formMetadata);
    forall id | id in applied.tempErrors && id in fields
      ensures id in r.fields && !r.fields[id].isValid && r.fields[id].errors.Some?
              && applied.tempErrors[id] <= r.fields[id].errors.value
    {
      var k :| 0 <= k < |ids| && ids[k] == id;
      ValidationPassOwnTurn(ids, k, configs, resetFields, applied.tempErrors, formMetadata);
    }
  }

  /** After `handleChange`, a field with one defined entry and no derived
      `required` function holds the normalised value of that entry (the
      updater applied to the value it had), keeps its initial value, is
      touched unless the touch is skipped, and, when the value changed,
      counts as changed exactly when it differs from its initial value. */
  lemma HandleChangeSetsValue(env: Env, ids: seq<string>, configs: Configs, fields: Fields, tempErrors: TempErrors,
                              formError: Option<string>, formMetadata: Value,
                              entries: seq<(string, SetValue)>, options: ChangeOptions, k: nat)
    requires WellFormed(ids, configs, fields) && DistinctKeys(entries)
    requires k < |entries| && entries[k].0 in fields && !IsUndefinedEntry(entries[k].1)
    requires !HasDerivedRequired(configs, entries[k].0)
    ensures var id := entries[k].0;
            var nv := NormalizeFormValue(UnwrapSetterValue(entries[k].1, fields[id].value));
            var r := HandleChangeResult(env, ids, configs, fields, tempErrors, formError, formMetadata, entries, options);
            && id in r.fields
            && r.fields[id].value == nv
            && r.fields[id].initialValue == fields[id].initialValue
            && (r.fields[id].isTouched <==> fields[id].isTouched || !SkipsTouchFor(configs, id, options))
            && (!Identical(fields[id].value, nv) ==> (r.fields[id].isDiffFromInitial <==> nv != fields[id].initialValue))
  {
    var id := entries[k].0;
    var start := Applied(fields, tempErrors, {});
    var applied := ApplyEntries(entries, options, configs, start, env.defaultRequiredMsg);
    ApplyEntriesKeeps(entries, options, configs, start, env.defaultRequiredMsg);
    ApplyEntriesOwnTurn(entries, k, options, configs, start, env.defaultRequiredMsg);
    var derived := DerivedPass(ids, configs, applied.fields, formMetadata, env.defaultRequiredMsg);
    DerivedPassKeeps(ids, configs, applied.fields, formMetadata, env.defaultRequiredMsg);
    assert derived[id] == applied.fields[id];
    var reset := applied.changed + DerivedIds(ids, configs, applied.fields);
    var derived2 := DerivedPass(ids, configs, derived, formMetadata, env.defaultRequiredMsg);
    DerivedPassKeeps(ids, configs, derived, formMetadata, env.defaultRequiredMsg);
    assert derived2[id] == applied.fields[id];
    var reset2 := reset + DerivedIds(ids, configs, derived);
    var resetFields := ResetPass(ids, configs, derived2, reset2, env.defaultRequiredMsg);
    ResetPassKeeps(ids, configs, derived2, reset2, env.defaultRequiredMsg);
    ValidationPassKeeps(ids, configs, resetFields, applied.tempErrors, formMetadata);
    var r := HandleChangeResult(env, ids, configs, fields, tempErrors, formError, formMetadata, entries, options);
    assert r.fields == ValidationPass(ids, configs, resetFields, applied.tempErrors, formMetadata);
  }

  /** `!prev`, the updater of a checkbox toggle. */
  function Negate(v: Value): Value {
    Bool(!Truthy(v))
  }

  /** Toggling a touchable boolean field twice with `prev => !prev` flips its
      value and then brings it back: after the second toggle it is still
      touched but no longer counts as changed. */
  lemma HandleChangeToggleTwice(env: Env, ids: seq<string>, configs: Configs, fields: Fields, tempErrors: TempErrors,
                                formError: Option<string>, formMetadata: Value, id: string, b: bool)
    requires WellFormed(ids, configs, fields) && id in fields
    requires !configs[id].untouchable && !HasDerivedRequired(configs, id)
    requires fields[id].value == Bool(b) && fields[id].initialValue == Bool(b)
    ensures var entries := [(id, Updater(Negate))];
            var once := HandleChangeResult(env, ids, configs, fields, tempErrors, formError, formMetadata,
                                           entries, DefaultChangeOptions);
            && id in once.fields
            && once.fields[id].value == Bool(!b) && once.fields[id].isTouched && once.fields[id].isDiffFromInitial
            && var twice := HandleChangeResult(env, ids, configs, once.fields, once.tempErrors, once.formError,
                                               formMetadata, entries, DefaultChangeOptions);
               && id in twice.fields
               && twice.fields[id].value == Bool(b) && twice.fields[id].isTouched
               && !twice.fields[id].isDiffFromInitial
  {
    var entries := [(id, Updater(Negate))];
    assert !SkipsTouchFor(configs, id, DefaultChangeOptions);
    HandleChangeSetsValue(env, ids, configs, fields, tempErrors, formError, formMetadata, entries, DefaultChangeOptions, 0);
    HandleChangeKeepsKeys(env, ids, configs, fields, tempErrors, formError, formMetadata, entries, DefaultChangeOptions);
    var once := HandleChangeResult(env, ids, configs, fields, tempErrors, formError, formMetadata,
                                   entries, DefaultChangeOptions);
    HandleChangeSetsValue(env, ids, configs, once.fields, once.tempErrors, once.formError, formMetadata,
                          entries, DefaultChangeOptions, 0);
  }

  /** The fields of `getInitialState` before `performExtraUpdates`: each
      starts from its config and takes its `initialValue` on the
      initial-state path. */
  function InitialFields(ids: seq<string>, configs: Configs, defaultRequiredMsg: string): Fields
    decreases |ids|
  {
    if |ids| == 0 then map[]
    else
      var prev := InitialFields(ids[..|ids| - 1], configs, defaultRequiredMsg);
      var id := ids[|ids| - 1];
      if id in configs
      then prev[id := FieldAfterValue(configs[id], GetInitialStateFromConfig(configs[id]), configs[id].initialValue, true, defaultRequiredMsg)]
      else prev
  }

  /** One more id of `InitialFields`: a configured id gets its initial field. */
  lemma InitialFieldsSnoc(ids: seq<string>, i: nat, configs: Configs, defaultRequiredMsg: string)
    requires i < |ids|
    ensures InitialFields(ids[..i + 1], configs, defaultRequiredMsg) ==
            if ids[i] in configs
            then InitialFields(ids[..i], configs, defaultRequiredMsg)[ids[i] :=
                   FieldAfterValue(configs[ids[i]], GetInitialStateFromConfig(configs[ids[i]]), configs[ids[i]].initialValue, true, defaultRequiredMsg)]
            else InitialFields(ids[..i], configs, defaultRequiredMsg)
  {
    assert ids[..i + 1][..i] == ids[..i];
  }

  /** `InitialFields` has one field per configured id, each the initial-path
      record of its config. */
  lemma {:induction false} InitialFieldsFacts(ids: seq<string>, configs: Configs, defaultRequiredMsg: string)
    requires forall id :: id in ids ==> id in configs
    ensures forall id :: id in InitialFields(ids, configs, defaultRequiredMsg) <==> id in ids
    ensures forall id :: id in InitialFields(ids, configs, defaultRequiredMsg) ==>
              InitialFields(ids, configs, defaultRequiredMsg)[id]
                == FieldAfterValue(configs[id], GetInitialStateFromConfig(configs[id]), configs[id].initialValue, true, defaultRequiredMsg)
    decreases |ids|
  {
    if |ids| > 0 {
      var init := ids[..|ids| - 1];
      assert forall id :: id in ids <==> id in init || id == ids[|ids| - 1];
      InitialFieldsFacts(init, configs, defaultRequiredMsg);
    }
  }

  /** `getInitialState()`: no form error, no temporary errors, no forced
      validation yet. */
  function InitialChecked(env: Env, ids: seq<string>, configs: Configs, formMetadata: Value): Checked {
    ExtraUpdates(env, ids, configs, InitialFields(ids, configs, env.defaultRequiredMsg), map[], formMetadata, None, None)
  }

  /** The initial state satisfies the registry invariant. */
  lemma InitialStateWellFormed(env: Env, ids: seq<string>, configs: Configs, formMetadata: Value)
    requires Distinct(ids) && forall id :: id in configs <==> id in ids
    ensures WellFormed(ids, configs, InitialChecked(env, ids, configs, formMetadata).fields)
  {
    InitialStateUntouched(env, ids, configs, formMetadata);
  }

  /** A new form has one field per config; every field is untouched, and it
      counts as changed exactly when normalising altered its initial value. */
  lemma InitialStateUntouched(env: Env, ids: seq<string>, configs: Configs, formMetadata: Value)
    requires forall id :: id in configs <==> id in ids
    ensures var r := InitialChecked(env, ids, configs, formMetadata).fields;
            forall id :: id in r <==> id in configs
    ensures var r := InitialChecked(env, ids, configs, formMetadata).fields;
            forall id :: id in r ==>
              !r[id].isTouched && r[id].initialValue == configs[id].initialValue
              && (r[id].isDiffFromInitial <==> NormalizeFormValue(configs[id].initialValue) != configs[id].initialValue)
  {
    var fields := InitialFields(ids, configs, env.defaultRequiredMsg);
    InitialFieldsFacts(ids, configs, env.defaultRequiredMsg);
    ExtraUpdatesKeep(env, ids, configs, fields, map[], formMetadata, None, None);
    forall id | id in fields
      ensures !fields[id].isTouched && fields[id].initialValue == configs[id].initialValue
              && (fields[id].isDiffFromInitial <==> NormalizeFormValue(configs[id].initialValue) != configs[id].initialValue)
    {
      InitialPathField(configs[id], env.defaultRequiredMsg);
    }
  }

  // ---------------------------------------------------------------------
  // forceFormUpdate

  /** The argument of `forceFormUpdate`: a boolean, a list of ids, or options. */
  datatype ForceArg = FlagArg(flag: bool) | IdsArg(ids: seq<string>) | OptionsArg(options: ChangeOptions)

  /** The options `forceFormUpdate` passes on, as written: `isObject` holds
      for an array, so a list of ids is passed as the options object itself,
      and an array has neither `skipTouch` nor `touchOnly`. */
  function ForceOptionsAsWritten(arg: ForceArg): ChangeOptions {
    match arg
    case FlagArg(b) => OptionsFromFlag(b)
    case IdsArg(_) => DefaultChangeOptions
    case OptionsArg(o) => o
  }

  /** A list of ids passed as written skips nothing: a touchable field is
      touched even when its own id is in the list. */
  lemma ForceIdsAsWrittenTouches(xs: seq<string>, id: string)
    ensures !ShouldSkipTouch(false, id, ForceOptionsAsWritten(IdsArg(xs)))
  {
  }

  /** The options `forceFormUpdate` evidently means to pass: a list of ids
      stands for `{skipTouch: ids}`, as it does for `handleChange`. */
  function ForceOptions(arg: ForceArg): (o: ChangeOptions)
    ensures arg.FlagArg? ==> o == OptionsFromFlag(arg.flag)
    ensures arg.OptionsArg? ==> o == arg.options
    ensures arg.IdsArg? ==> o == ChangeOptions(SkipIds(arg.ids), None)
  {
    match arg
    case FlagArg(b) => OptionsFromFlag(b)
    case IdsArg(xs) => ChangeOptions(SkipIds(xs), None)
    case OptionsArg(o) => o
  }

  /** With the corrected options a list of ids skips the touch of exactly
      the listed (and the untouchable) fields. */
  lemma ForceIdsSkipsListed(xs: seq<string>, id: string, untouchable: bool)
    ensures ShouldSkipTouch(untouchable, id, ForceOptions(IdsArg(xs))) <==> untouchable || id in xs
  {
  }

  /** `mapObjectToObject(formState.fields, (id, { value }) => [id, value])`,
      in the fields' order. */
  function ForceEntries(ids: seq<string>, fields: Fields): (r: seq<(string, SetValue)>)
    ensures |r| == |ids| && forall i :: 0 <= i < |ids| ==> r[i].0 == ids[i]
    ensures forall i :: 0 <= i < |ids| && ids[i] in fields ==> r[i] == (ids[i], Literal(fields[ids[i]].value))
  {
    seq(|ids|, i requires 0 <= i < |ids| =>
      (ids[i], Literal(if ids[i] in fields then fields[ids[i]].value else Undefined)))
  }

  /** `forceFormUpdate(true)` touches nothing, and `forceFormUpdate(false)`
      touches every field that is not untouchable, except one whose value
      is `undefined`: its entry is skipped like any undefined entry. */
  lemma ForceFormUpdateTouch(env: Env, ids: seq<string>, configs: Configs, fields: Fields, tempErrors: TempErrors,
                             formError: Option<string>, formMetadata: Value, skip: bool)
    requires WellFormed(ids, configs, fields)
    ensures var r := HandleChangeResult(env, ids, configs, fields, tempErrors, formError, formMetadata,
                                        ForceEntries(ids, fields), ForceOptions(FlagArg(skip)));
            r.fields.Keys == fields.Keys
    ensures var r := HandleChangeResult(env, ids, configs, fields, tempErrors, formError, formMetadata,
                                        ForceEntries(ids, fields), ForceOptions(FlagArg(skip)));
            forall id :: id in fields ==>
              (r.fields[id].isTouched <==>
                 fields[id].isTouched || (!skip && !configs[id].untouchable && !fields[id].value.Undefined?))
  {
    var entries := ForceEntries(ids, fields);
    var opts := ForceOptions(FlagArg(skip));
    ForceEntriesFacts(ids, configs, fields, skip);
    HandleChangeTouches(env, ids, configs, fields, tempErrors, formError, formMetadata, entries, opts);
  }

  /** `forceFormUpdate`'s entries: one per field, in order, and an entry
      touches its field exactly when touches are not skipped, the field is
      not untouchable and its value is defined. */
  lemma ForceEntriesFacts(ids: seq<string>, configs: Configs, fields: Fields, skip: bool)
    requires WellFormed(ids, configs, fields)
    ensures DistinctKeys(ForceEntries(ids, fields))
    ensures forall id :: id in fields ==>
              (TouchingEntry(ForceEntries(ids, fields), configs, id, ForceOptions(FlagArg(skip))) <==>
                 !skip && !configs[id].untouchable && !fields[id].value.Undefined?)
  {
    var entries := ForceEntries(ids, fields);
    assert DistinctKeys(entries) by {
      forall i, j | 0 <= i < j < |entries| ensures entries[i].0 != entries[j].0 {
        assert entries[i].0 == ids[i] && entries[j].0 == ids[j];
      }
    }
    var opts := ForceOptions(FlagArg(skip));
    assert opts == OptionsFromFlag(skip);
    forall id | id in fields
      ensures TouchingEntry(entries, configs, id, opts) <==>
                !skip && !configs[id].untouchable && !fields[id].value.Undefined?
    {
      assert SkipsTouchFor(configs, id, opts) <==> skip || configs[id].untouchable;
      var k :| 0 <= k < |ids| && ids[k] == id;
      assert entries[k] == (id, Literal(fields[id].value));
      if TouchingEntry(entries, configs, id, opts) {
        var i :| 0 <= i < |entries| && entries[i].0 == id && !IsUndefinedEntry(entries[i].1)
                 && !SkipsTouchFor(configs, id, opts);
        assert entries[i] == (ids[i], Literal(fields[ids[i]].value));
      }
    }
  }
}
