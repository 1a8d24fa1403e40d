/** src/main.ts, `useForm`: the form controller. Each method is one store
    transaction; `ids` is the insertion order shared by the config map and
    the fields object. */
module FormController {
  import opened JsValues
  import opened Arrays
  import opened Utils
  import opened SetterValue
  import opened Objects
  import opened FieldRules
  import opened Passes
  import opened FormSpec
  import opened ConfigUpdate
  import opened ArrayFields

  // ---------------------------------------------------------------------
  // The config map useForm builds

  /** `record?.[id]`. */
  function LookupOption<V>(m: map<string, V>, id: string): Option<V> {
    if id in m then Some(m[id]) else None
  }

  /** The config of field `id`: its initial config with its derived config,
      its validations and its array config, where the form has them. */
  function FieldConfigFor(id: string, init: FieldInitialConfig, derived: map<string, DerivedConfig>,
                          validations: map<string, SingleOrMultiple<Validator>>,
                          arrays: map<string, Value -> string>): FieldConfig
  {
    BuildFieldConfig(init, LookupOption(derived, id), if id in validations then validations[id] else Absent,
                     LookupOption(arrays, id))
  }

  /** The `for … of objectTypedEntries(configs)` loop of `useForm`: one
      config per entry, in the entries' order. */
  method BuildFormConfig(entries: seq<(string, FieldInitialConfig)>, derived: map<string, DerivedConfig>,
                         validations: map<string, SingleOrMultiple<Validator>>, arrays: map<string, Value -> string>)
    returns (ids: seq<string>, configs: Configs)
    requires DistinctKeys(entries)
    ensures |ids| == |entries| && forall i :: 0 <= i < |entries| ==> ids[i] == entries[i].0
    ensures Distinct(ids) && forall id :: id in configs <==> id in ids
    ensures forall i :: 0 <= i < |entries| ==>
              configs[entries[i].0] == FieldConfigFor(entries[i].0, entries[i].1, derived, validations, arrays)
  {
    ids := [];
    configs := map[];
    var i := 0;
    while i < |entries|
      invariant 0 <= i <= |entries|
      invariant |ids| == i && forall j :: 0 <= j < i ==> ids[j] == entries[j].0
      invariant forall id :: id in configs <==> id in ids
      invariant forall j :: 0 <= j < i ==>
                  configs[entries[j].0] == FieldConfigFor(entries[j].0, entries[j].1, derived, validations, arrays)
    {
      var (id, initialConfig) := entries[i];
      configs := configs[id := FieldConfigFor(id, initialConfig, derived, validations, arrays)];
      ids := ids + [id];
      i := i + 1;
    }
  }

  // ---------------------------------------------------------------------
  // The loops of getInitialState, handleChange and performExtraUpdates

  /** The loop of `getInitialState` over the config map. */
  method InitialFieldStates(ids: seq<string>, configs: Configs, defaultRequiredMsg: string) returns (fields: Fields)
    ensures fields == InitialFields(ids, configs, defaultRequiredMsg)
  {
    fields := map[];
    var i := 0;
    while i < |ids|
      invariant 0 <= i <= |ids|
      invariant fields == InitialFields(ids[..i], configs, defaultRequiredMsg)
    {
      InitialFieldsSnoc(ids, i, configs, defaultRequiredMsg);
      var id := ids[i];
      if id in configs {
        var config := configs[id];
        var initial := GetInitialStateFromConfig(config);
        fields := fields[id := FieldAfterValue(config, initial, config.initialValue, true, defaultRequiredMsg)];
      }
      i := i + 1;
    }
    assert ids[..|ids|] == ids;
  }

  /** `performExtraUpdates(formState, errorWasReset)`. */
  method PerformExtraUpdates(env: Env, ids: seq<string>, configs: Configs, fields: Fields, tempErrors: TempErrors,
                             formMetadata: Value, errorWasReset: Option<set<string>>, formError: Option<string>)
    returns (c: Checked)
    ensures c == ExtraUpdates(env, ids, configs, fields, tempErrors, formMetadata, errorWasReset, formError)
  {
    var derived, reset := UpdateDerivedConfig(errorWasReset, ids, configs, fields, formMetadata, env.defaultRequiredMsg);
    var validated := PerformFormValidation(reset, ids, configs, derived, tempErrors, formMetadata, env.defaultRequiredMsg);
    c := Checked(validated, AdvancedFormValidation(env, validated, formError));
  }

  /** `getInitialState()`: every field on the initial-state path, then the
      extra updates with no visited set. */
  method GetInitialState(env: Env, ids: seq<string>, configs: Configs, formMetadata: Value) returns (c: Checked)
    ensures c == InitialChecked(env, ids, configs, formMetadata)
  {
    var initial := InitialFieldStates(ids, configs, env.defaultRequiredMsg);
    c := PerformExtraUpdates(env, ids, configs, initial, map[], formMetadata, None, None);
  }

  /** The body of `handleChange`: the entry loop, `updateDerivedConfig`
      with the ids the loop changed, then the extra updates. */
  method ChangeStep(env: Env, ids: seq<string>, configs: Configs, fields: Fields, tempErrors: TempErrors,
                    formError: Option<string>, formMetadata: Value, entries: seq<(string, SetValue)>,
                    options: ChangeOptions)
    returns (outcome: ChangeOutcome)
    ensures outcome == HandleChangeResult(env, ids, configs, fields, tempErrors, formError, formMetadata, entries, options)
    ensures outcome.fields.Keys == fields.Keys
  {
    HandleChangeKeepsKeys(env, ids, configs, fields, tempErrors, formError, formMetadata, entries, options);
    var applied := ApplyChangeEntries(entries, options, configs, fields, tempErrors, env.defaultRequiredMsg);
    var derived, errorWasReset := UpdateDerivedConfig(Some(applied.changed), ids, configs, applied.fields,
                                                      formMetadata, env.defaultRequiredMsg);
    var checked := PerformExtraUpdates(env, ids, configs, derived, applied.tempErrors, formMetadata, errorWasReset, formError);
    outcome := ChangeOutcome(checked.fields, applied.tempErrors, checked.formError);
  }

  /** The entry loop of `handleChange`. */
  method ApplyChangeEntries(entries: seq<(string, SetValue)>, options: ChangeOptions, configs: Configs,
                            fields: Fields, tempErrors: TempErrors, defaultRequiredMsg: string)
    returns (a: Applied)
    ensures a == ApplyEntries(entries, options, configs, Applied(fields, tempErrors, {}), defaultRequiredMsg)
  {
    a := Applied(fields, tempErrors, {});
    var i := 0;
    while i < |entries|
      invariant 0 <= i <= |entries|
      invariant a == ApplyEntries(entries[..i], options, configs, Applied(fields, tempErrors, {}), defaultRequiredMsg)
    {
      assert entries[..i + 1][..i] == entries[..i];
      var (id, value) := entries[i];
      if !IsUndefinedEntry(value) {
        var shouldSkipTouch := SkipsTouchFor(configs, id, options);
        var temp := a.tempErrors;
        if !shouldSkipTouch {
          temp := temp - {id};
        }
        if id in a.fields && id in configs {
          var fieldState := a.fields[id];
          var newValue := UnwrapSetterValue(value, fieldState.value);
          a := Applied(a.fields[id := FieldAfterValue(configs[id], fieldState, newValue, shouldSkipTouch, defaultRequiredMsg)],
                       temp, a.changed + {id});
        } else {
          a := a.(tempErrors := temp);
        }
      }
      i := i + 1;
    }
    assert entries[..|entries|] == entries;
  }

  // ---------------------------------------------------------------------
  // The loops of updateConfig

  /** The entry loop of `updateConfig`; it returns at the first replacing
      patch without `initialValue`. */
  method ApplyConfigUpdates(entries: seq<(string, FieldUpdate)>, mode: UpdateMode, updateUntouchedValues: bool,
                            reg: Registry)
    returns (r: Registry, error: Option<string>)
    ensures ConfigOutcome(r, error) == ApplyConfigEntries(entries, mode, updateUntouchedValues, reg)
  {
    r := reg;
    error := None;
    var i := 0;
    while i < |entries|
      invariant 0 <= i <= |entries|
      invariant ApplyConfigEntries(entries[..i], mode, updateUntouchedValues, reg) == ConfigOutcome(r, None)
    {
      assert entries[..i + 1][..i] == entries[..i];
      var (id, newConfig) := entries[i];
      match newConfig {
        case NoUpdate =>
        case Remove =>
          r := Unregistered(r, id);
        case Patch(p) =>
          if Replaces(r, id, p, mode) {
            if p.initialValue.None? {
              error := Some(MissingInitialValueMessage(id));
              ApplyConfigEntriesStaysFailed(entries, i + 1, mode, updateUntouchedValues, reg);
              return;
            }
            var config := ReplacedConfig(p, if id in r.configs then Some(r.configs[id]) else None);
            r := Registered(r, id, config, GetInitialStateFromConfig(config));
          } else if id in r.fields {
            var fieldConfig := r.configs[id];
            r := r.(configs := r.configs[id := MergedConfig(fieldConfig, p)],
                    fields := r.fields[id := MergedField(fieldConfig, r.fields[id], p, updateUntouchedValues)]);
          }
      }
      i := i + 1;
    }
    assert entries[..|entries|] == entries;
  }

  /** The excess-field loop of `updateConfig` over the fields' keys. */
  method RemoveExcessFields(snapshot: seq<string>, entries: seq<(string, FieldUpdate)>, reg: Registry)
    returns (r: Registry)
    ensures r == RemoveExcess(snapshot, entries, reg)
  {
    r := reg;
    var i := 0;
    while i < |snapshot|
      invariant 0 <= i <= |snapshot|
      invariant r == RemoveExcess(snapshot[..i], entries, reg)
    {
      assert snapshot[..i + 1][..i] == snapshot[..i];
      if !KeptByUpdate(entries, snapshot[i]) {
        r := Unregistered(r, snapshot[i]);
      }
      i := i + 1;
    }
    assert snapshot[..|snapshot|] == snapshot;
  }

  // ---------------------------------------------------------------------
  // setTemporaryError

  /** `tempErrors.set(id, singleOrMultipleToArray(error))` for each entry. */
  function WithTemporaryErrors(tempErrors: TempErrors, errors: seq<(string, SingleOrMultiple<string>)>): TempErrors
    decreases |errors|
  {
    if |errors| == 0 then tempErrors
    else
      var last := errors[|errors| - 1];
      WithTemporaryErrors(tempErrors, errors[..|errors| - 1])[last.0 := SingleOrMultipleToArray(last.1)]
  }

  /** With distinct ids, every listed id stores its own list, and every
      other stored error stays as it was. */
  lemma {:induction false} WithTemporaryErrorsFacts(tempErrors: TempErrors, errors: seq<(string, SingleOrMultiple<string>)>)
    requires DistinctKeys(errors)
    ensures forall i :: 0 <= i < |errors| ==>
              errors[i].0 in WithTemporaryErrors(tempErrors, errors)
              && WithTemporaryErrors(tempErrors, errors)[errors[i].0] == SingleOrMultipleToArray(errors[i].1)
    ensures forall id :: id in tempErrors && (forall i :: 0 <= i < |errors| ==> errors[i].0 != id) ==>
              id in WithTemporaryErrors(tempErrors, errors) && WithTemporaryErrors(tempErrors, errors)[id] == tempErrors[id]
    decreases |errors|
  {
    if |errors| > 0 {
      var n := |errors| - 1;
      var init := errors[..n];
      assert DistinctKeys(init) by {
        forall i, j | 0 <= i < j < n ensures init[i].0 != init[j].0 { assert init[i] == errors[i] && init[j] == errors[j]; }
      }
      assert forall i :: 0 <= i < n ==> init[i] == errors[i];
      WithTemporaryErrorsFacts(tempErrors, init);
    }
  }

  /** `setTemporaryError` followed by `forceFormUpdate(true)`: each listed
      field keeps the list it was given, is invalid, and shows that list at
      the head of its errors. */
  lemma SetTemporaryErrorShows(env: Env, ids: seq<string>, configs: Configs, fields: Fields, tempErrors: TempErrors,
                               formError: Option<string>, formMetadata: Value,
                               errors: seq<(string, SingleOrMultiple<string>)>)
    requires WellFormed(ids, configs, fields) && DistinctKeys(errors)
    ensures var r := HandleChangeResult(env, ids, configs, fields, WithTemporaryErrors(tempErrors, errors), formError,
                                        formMetadata, ForceEntries(ids, fields), ForceOptions(FlagArg(true)));
            forall i :: 0 <= i < |errors| && errors[i].0 in fields ==>
              && errors[i].0 in r.tempErrors && r.tempErrors[errors[i].0] == SingleOrMultipleToArray(errors[i].1)
              && errors[i].0 in r.fields && !r.fields[errors[i].0].isValid && r.fields[errors[i].0].errors.Some?
              && SingleOrMultipleToArray(errors[i].1) <= r.fields[errors[i].0].errors.value
  {
    var temp := WithTemporaryErrors(tempErrors, errors);
    var entries := ForceEntries(ids, fields);
    var options := ForceOptions(FlagArg(true));
    WithTemporaryErrorsFacts(tempErrors, errors);
    var start := Applied(fields, temp, {});
    ApplyEntriesTempErrors(entries, options, configs, start, env.defaultRequiredMsg);
    forall id ensures !TouchingEntry(entries, configs, id, options) {
      assert SkipsTouchFor(configs, id, options);
    }
    HandleChangeKeepsTempErrorsInvalid(env, ids, configs, fields, temp, formError, formMetadata, entries, options);
  }

  // ---------------------------------------------------------------------
  // touchField and untouchAll

  /** `touchField(id)` on a known untouched field touches it, unless it is
      untouchable or its value is `undefined`, and no other field's touch
      flag changes. */
  lemma TouchFieldTouches(env: Env, ids: seq<string>, configs: Configs, fields: Fields, tempErrors: TempErrors,
                          formError: Option<string>, formMetadata: Value, id: string)
    requires WellFormed(ids, configs, fields) && id in fields && !fields[id].isTouched
    ensures var r := HandleChangeResult(env, ids, configs, fields, tempErrors, formError, formMetadata,
                                        [(id, Literal(fields[id].value))], DefaultChangeOptions);
            && r.fields.Keys == fields.Keys
            && (r.fields[id].isTouched <==> !configs[id].untouchable && !fields[id].value.Undefined?)
            && forall x :: x in fields && x != id ==> r.fields[x].isTouched == fields[x].isTouched
  {
    var entries := [(id, Literal(fields[id].value))];
    HandleChangeTouches(env, ids, configs, fields, tempErrors, formError, formMetadata, entries, DefaultChangeOptions);
    forall x | x in fields
      ensures TouchingEntry(entries, configs, x, DefaultChangeOptions) <==>
                x == id && !configs[id].untouchable && !fields[id].value.Undefined?
    {
      if TouchingEntry(entries, configs, x, DefaultChangeOptions) {
        var i :| 0 <= i < |entries| && entries[i].0 == x && !IsUndefinedEntry(entries[i].1)
                 && !SkipsTouchFor(configs, x, DefaultChangeOptions);
        assert i == 0;
      }
      if x == id && !configs[id].untouchable && !fields[id].value.Undefined? {
        assert entries[0].0 == x;
      }
    }
  }

  /** `untouchAll` (a merge of `{isTouched: false}` for every field followed
      by `forceFormUpdate(true)`) keeps every field and its config's
      untouchable flag, clears the touch flag of every field that is not
      untouchable, and leaves an untouchable field's flag as it was. */
  lemma UntouchAllClearsTouch(env: Env, ids: seq<string>, configs: Configs, fields: Fields, tempErrors: TempErrors,
                              formError: Option<string>, formMetadata: Value)
    requires WellFormed(ids, configs, fields)
    ensures var o := UpdateConfigResult(Registry(ids, configs, fields), Some(UntouchAllEntries(ids)), Merge, false);
            && o.error.None? && o.registry.ids == ids && o.registry.configs == configs
    ensures var o := UpdateConfigResult(Registry(ids, configs, fields), Some(UntouchAllEntries(ids)), Merge, false);
            var r := HandleChangeResult(env, o.registry.ids, o.registry.configs, o.registry.fields, tempErrors, formError,
                                        formMetadata, ForceEntries(o.registry.ids, o.registry.fields), ForceOptions(FlagArg(true)));
            && r.fields.Keys == fields.Keys
            && forall id :: id in fields ==> r.fields[id].isTouched == (configs[id].untouchable && fields[id].isTouched)
  {
    var reg := Registry(ids, configs, fields);
    UntouchAllEntriesEffect(ids, reg);
    var o := ApplyConfigEntries(UntouchAllEntries(ids), Merge, false, reg);
    ForceFormUpdateTouch(env, o.registry.ids, o.registry.configs, o.registry.fields, tempErrors, formError, formMetadata, true);
  }

  // ---------------------------------------------------------------------
  // arrayFields

  /** The entry of an array helper sets the field to the normalised result
      of its updater: an array is never identical to the previous value, so
      the change is never skipped. */
  lemma ArrayHelperSetsValue(cfg: FieldConfig, f: FieldState, updater: Value -> Value, skip: bool,
                             defaultRequiredMsg: string)
    requires updater(f.value).Arr?
    ensures FieldAfterValue(cfg, f, UnwrapSetterValue(Updater(updater), f.value), skip, defaultRequiredMsg).value
              == NormalizeFormValue(updater(f.value))
  {
  }

  /** Whether `arrayFields` can handle field `id`: it has an `arrayConfig`. */
  predicate HasArrayConfig(configs: Configs, id: string) {
    id in configs && configs[id].arrayConfig.Some?
  }

  // ---------------------------------------------------------------------
  // The controller

  class Form {
    const env: Env
    var ids: seq<string>
    var configs: Configs
    var fields: Fields
    var tempErrors: TempErrors
    var formError: Option<string>
    var validationWasForced: nat
    var formMetadata: Value

    /** The config map and the fields have the same keys, in the order `ids`. */
    ghost predicate Valid()
      reads this
    {
      WellFormed(ids, configs, fields)
    }

    /** `useForm({...})` and `getInitialState()`. */
    constructor(env: Env, initialConfig: GetterOrValue<seq<(string, FieldInitialConfig)>>,
                derivedConfig: GetterOrValue<map<string, DerivedConfig>>,
                fieldIsValid: GetterOrValue<map<string, SingleOrMultiple<Validator>>>,
                arrayFieldsConfig: GetterOrValue<map<string, Value -> string>>,
                initialFormMetadata: GetterOrValue<Value>)
      requires DistinctKeys(UnwrapGetterOrValue(initialConfig))
      ensures Valid() && this.env == env
      ensures var entries := UnwrapGetterOrValue(initialConfig);
              && |ids| == |entries| && (forall i :: 0 <= i < |entries| ==> ids[i] == entries[i].0)
              && forall i :: 0 <= i < |entries| ==>
                   configs[entries[i].0] == FieldConfigFor(entries[i].0, entries[i].1, UnwrapGetterOrValue(derivedConfig),
                                                           UnwrapGetterOrValue(fieldIsValid), UnwrapGetterOrValue(arrayFieldsConfig))
      ensures formMetadata == UnwrapGetterOrValue(initialFormMetadata)
      ensures fields == InitialChecked(env, ids, configs, formMetadata).fields
      ensures formError == InitialChecked(env, ids, configs, formMetadata).formError
      ensures tempErrors == map[] && validationWasForced == 0
    {
      this.env := env;
      var newIds, newConfigs := BuildFormConfig(UnwrapGetterOrValue(initialConfig), UnwrapGetterOrValue(derivedConfig),
                                                UnwrapGetterOrValue(fieldIsValid), UnwrapGetterOrValue(arrayFieldsConfig));
      var metadata := UnwrapGetterOrValue(initialFormMetadata);
      var checked := GetInitialState(env, newIds, newConfigs, metadata);
      InitialStateWellFormed(env, newIds, newConfigs, metadata);
      ids := newIds;
      configs := newConfigs;
      fields := checked.fields;
      tempErrors := map[];
      formError := checked.formError;
      validationWasForced := 0;
      formMetadata := metadata;
    }

    /** `handleChange(fields, options)`. */
    method HandleChange(entries: seq<(string, SetValue)>, options: ChangeOptions)
      requires Valid()
      modifies this
      ensures Valid()
      ensures var r := HandleChangeResult(env, old(ids), old(configs), old(fields), old(tempErrors), old(formError),
                                          old(formMetadata), entries, options);
              fields == r.fields && tempErrors == r.tempErrors && formError == r.formError
      ensures ids == old(ids) && configs == old(configs)
      ensures formMetadata == old(formMetadata) && validationWasForced == old(validationWasForced)
    {
      var outcome := ChangeStep(env, ids, configs, fields, tempErrors, formError, formMetadata, entries, options);
      fields := outcome.fields;
      tempErrors := outcome.tempErrors;
      formError := outcome.formError;
    }

    /** `handleChange(id, value, options)`. */
    method HandleFieldChange(id: string, value: SetValue, options: ChangeOptions)
      requires Valid()
      modifies this
      ensures Valid()
      ensures var r := HandleChangeResult(env, old(ids), old(configs), old(fields), old(tempErrors), old(formError),
                                          old(formMetadata), [(id, value)], options);
              fields == r.fields && tempErrors == r.tempErrors && formError == r.formError
      ensures ids == old(ids) && configs == old(configs)
      ensures formMetadata == old(formMetadata) && validationWasForced == old(validationWasForced)
    {
      HandleChange([(id, value)], options);
    }

    /** `touchField(id)`: an unknown field is reported and left alone, an
      already touched one is left alone, any other gets its own value
      applied again (which touches it). */
    method TouchField(id: string)
      requires Valid()
      modifies this
      ensures Valid()
      ensures id !in old(fields) || old(fields)[id].isTouched ==>
                fields == old(fields) && tempErrors == old(tempErrors) && formError == old(formError)
      ensures id in old(fields) && !old(fields)[id].isTouched ==>
                var r := HandleChangeResult(env, old(ids), old(configs), old(fields), old(tempErrors), old(formError),
                                            old(formMetadata), [(id, Literal(old(fields)[id].value))], DefaultChangeOptions);
                fields == r.fields && tempErrors == r.tempErrors && formError == r.formError
      ensures ids == old(ids) && configs == old(configs)
      ensures formMetadata == old(formMetadata) && validationWasForced == old(validationWasForced)
    {
      if id !in fields {
        return;
      }
      var field := fields[id];
      if !field.isTouched {
        HandleFieldChange(id, Literal(field.value), DefaultChangeOptions);
      }
    }

    /** `forceFormUpdate(skipTouchOrOptions)`: every current value is applied
      again, in the fields' order. */
    method ForceFormUpdate(arg: ForceArg)
      requires Valid()
      modifies this
      ensures Valid()
      ensures var r := HandleChangeResult(env, old(ids), old(configs), old(fields), old(tempErrors), old(formError),
                                          old(formMetadata), ForceEntries(old(ids), old(fields)), ForceOptions(arg));
              fields == r.fields && tempErrors == r.tempErrors && formError == r.formError
      ensures ids == old(ids) && configs == old(configs)
      ensures formMetadata == old(formMetadata) && validationWasForced == old(validationWasForced)
    {
      HandleChange(ForceEntries(ids, fields), ForceOptions(arg));
    }

    /** `forceFormValidation(options)`: counts one forced validation, then
      force-updates with the options or, without them, touching. */
    method ForceFormValidation(options: Option<ChangeOptions>)
      requires Valid()
      modifies this
      ensures Valid()
      ensures validationWasForced == old(validationWasForced) + 1
      ensures var arg := if options.Some? then OptionsArg(options.value) else FlagArg(false);
              var r := HandleChangeResult(env, old(ids), old(configs), old(fields), old(tempErrors), old(formError),
                                          old(formMetadata), ForceEntries(old(ids), old(fields)), ForceOptions(arg));
              fields == r.fields && tempErrors == r.tempErrors && formError == r.formError
      ensures ids == old(ids) && configs == old(configs) && formMetadata == old(formMetadata)
    {
      validationWasForced := validationWasForced + 1;
      ForceFormUpdate(if options.Some? then OptionsArg(options.value) else FlagArg(false));
    }

    /** `setTemporaryError(fields)`: stores each list, then
      `forceFormUpdate(true)`. */
    method SetTemporaryError(errors: seq<(string, SingleOrMultiple<string>)>)
      requires Valid()
      modifies this
      ensures Valid()
      ensures var r := HandleChangeResult(env, old(ids), old(configs), old(fields),
                                          WithTemporaryErrors(old(tempErrors), errors), old(formError), old(formMetadata),
                                          ForceEntries(old(ids), old(fields)), ForceOptions(FlagArg(true)));
              fields == r.fields && tempErrors == r.tempErrors && formError == r.formError
      ensures ids == old(ids) && configs == old(configs)
      ensures formMetadata == old(formMetadata) && validationWasForced == old(validationWasForced)
    {
      var i := 0;
      while i < |errors|
        invariant 0 <= i <= |errors|
        invariant Valid() && ids == old(ids) && configs == old(configs) && fields == old(fields)
        invariant formError == old(formError) && formMetadata == old(formMetadata)
        invariant validationWasForced == old(validationWasForced)
        invariant tempErrors == WithTemporaryErrors(old(tempErrors), errors[..i])
      {
        assert errors[..i + 1][..i] == errors[..i];
        var (id, error) := errors[i];
        tempErrors := tempErrors[id := SingleOrMultipleToArray(error)];
        i := i + 1;
      }
      assert errors[..|errors|] == errors;
      ForceFormUpdate(FlagArg(true));
    }

    /** `updateConfig({fields, updateMode, formMetadata, updateUntouchedValues})`;
      `newFormMetadata` is `Undefined` when not given. The entry loop's
      error is returned after the metadata update and the forced update,
      which run in any case. */
    method UpdateConfig(fieldsArg: Option<seq<(string, FieldUpdate)>>, mode: UpdateMode, newFormMetadata: Value,
                        updateUntouchedValues: bool)
      returns (error: Option<string>)
      requires Valid()
      requires fieldsArg.Some? ==> DistinctKeys(fieldsArg.value)
      modifies this
      ensures Valid()
      ensures var o := UpdateConfigResult(Registry(old(ids), old(configs), old(fields)), fieldsArg, mode, updateUntouchedValues);
              error == o.error && ids == o.registry.ids && configs == o.registry.configs
      ensures formMetadata == if newFormMetadata.Undefined? then old(formMetadata) else newFormMetadata
      ensures var o := UpdateConfigResult(Registry(old(ids), old(configs), old(fields)), fieldsArg, mode, updateUntouchedValues);
              var r := HandleChangeResult(env, o.registry.ids, o.registry.configs, o.registry.fields, old(tempErrors),
                                          old(formError), formMetadata,
                                          ForceEntries(o.registry.ids, o.registry.fields), ForceOptions(FlagArg(true)));
              fields == r.fields && tempErrors == r.tempErrors && formError == r.formError
      ensures validationWasForced == old(validationWasForced)
    {
      error := UpdateRegistry(fieldsArg, mode, updateUntouchedValues);
      if !newFormMetadata.Undefined? {
        formMetadata := newFormMetadata;
      }
      ForceFormUpdate(FlagArg(true));
    }

    /** The `produceState` of `updateConfig` that changes the config map and
      the fields. */
    method UpdateRegistry(fieldsArg: Option<seq<(string, FieldUpdate)>>, mode: UpdateMode, updateUntouchedValues: bool)
      returns (error: Option<string>)
      requires Valid()
      requires fieldsArg.Some? ==> DistinctKeys(fieldsArg.value)
      modifies this
      ensures Valid()
      ensures var o := UpdateConfigResult(Registry(old(ids), old(configs), old(fields)), fieldsArg, mode, updateUntouchedValues);
              error == o.error && ids == o.registry.ids && configs == o.registry.configs && fields == o.registry.fields
      ensures tempErrors == old(tempErrors) && formError == old(formError)
      ensures formMetadata == old(formMetadata) && validationWasForced == old(validationWasForced)
    {
      UpdateConfigFacts(Registry(ids, configs, fields), fieldsArg, mode, updateUntouchedValues);
      error := None;
      if fieldsArg.Some? {
        var reg, err := ApplyConfigUpdates(fieldsArg.value, mode, updateUntouchedValues, Registry(ids, configs, fields));
        if err.None? && mode != Merge {
          reg := RemoveExcessFields(reg.ids, fieldsArg.value, reg);
        }
        ids := reg.ids;
        configs := reg.configs;
        fields := reg.fields;
        error := err;
      }
    }

    /** `untouchAll()`: the merge of `{isTouched: false}` into every field
      followed by the forced update of `updateConfig`. The configs stay as
      they are, every field that is not untouchable becomes untouched and
      nothing else about touch changes. */
    method UntouchAll()
      requires Valid()
      modifies this
      ensures Valid()
      ensures ids == old(ids) && configs == old(configs) && fields.Keys == old(fields).Keys
      ensures var o := UpdateConfigResult(Registry(old(ids), old(configs), old(fields)), Some(UntouchAllEntries(old(ids))), Merge, false);
              var r := HandleChangeResult(env, o.registry.ids, o.registry.configs, o.registry.fields, old(tempErrors),
                                          old(formError), formMetadata,
                                          ForceEntries(o.registry.ids, o.registry.fields), ForceOptions(FlagArg(true)));
              fields == r.fields && tempErrors == r.tempErrors && formError == r.formError
      ensures forall id :: id in fields ==> fields[id].isTouched == (old(configs)[id].untouchable && old(fields)[id].isTouched)
      ensures formMetadata == old(formMetadata) && validationWasForced == old(validationWasForced)
    {
      UntouchAllEntriesKeys(ids);
      UntouchAllClearsTouch(env, ids, configs, fields, tempErrors, formError, formMetadata);
      var _ := UpdateConfig(Some(UntouchAllEntries(ids)), Merge, Undefined, false);
    }

    /** `arrayFields.addItem(id, value)`. */
    method AddItem(id: string, value: Value)
      requires Valid()
      modifies this
      ensures Valid()
      ensures var r := HandleChangeResult(env, old(ids), old(configs), old(fields), old(tempErrors), old(formError),
                                          old(formMetadata), [(id, Updater(AddItemUpdater(value)))], DefaultChangeOptions);
              fields == r.fields && tempErrors == r.tempErrors && formError == r.formError
      ensures ids == old(ids) && configs == old(configs)
      ensures formMetadata == old(formMetadata) && validationWasForced == old(validationWasForced)
    {
      HandleFieldChange(id, Updater(AddItemUpdater(value)), DefaultChangeOptions);
    }

    /** `arrayFields.removeItem(id, itemId)`; without an `arrayConfig` it
      fails before any change. */
    method RemoveItem(id: string, itemId: string) returns (error: Option<string>)
      requires Valid()
      modifies this
      ensures Valid()
      ensures error.Some? <==> !HasArrayConfig(old(configs), id)
      ensures error.Some? ==> error.value == HasNoArrayConfigMessage(id)
                              && fields == old(fields) && tempErrors == old(tempErrors) && formError == old(formError)
      ensures error.None? ==>
                var r := HandleChangeResult(env, old(ids), old(configs), old(fields), old(tempErrors), old(formError),
                                            old(formMetadata),
                                            [(id, Updater(RemoveItemUpdater(old(configs)[id].arrayConfig.value, itemId)))],
                                            DefaultChangeOptions);
                fields == r.fields && tempErrors == r.tempErrors && formError == r.formError
      ensures ids == old(ids) && configs == old(configs)
      ensures formMetadata == old(formMetadata) && validationWasForced == old(validationWasForced)
    {
      if !HasArrayConfig(configs, id) {
        return Some(HasNoArrayConfigMessage(id));
      }
      HandleFieldChange(id, Updater(RemoveItemUpdater(configs[id].arrayConfig.value, itemId)), DefaultChangeOptions);
      error := None;
    }

    /** `arrayFields.toggleItem(id, itemId, value)`. */
    method ToggleItem(id: string, itemId: string, value: Value) returns (error: Option<string>)
      requires Valid()
      modifies this
      ensures Valid()
      ensures error.Some? <==> !HasArrayConfig(old(configs), id)
      ensures error.Some? ==> error.value == HasNoArrayConfigMessage(id)
                              && fields == old(fields) && tempErrors == old(tempErrors) && formError == old(formError)
      ensures error.None? ==>
                var r := HandleChangeResult(env, old(ids), old(configs), old(fields), old(tempErrors), old(formError),
                                            old(formMetadata),
                                            [(id, Updater(ToggleItemUpdater(old(configs)[id].arrayConfig.value, itemId, value)))],
                                            DefaultChangeOptions);
                fields == r.fields && tempErrors == r.tempErrors && formError == r.formError
      ensures ids == old(ids) && configs == old(configs)
      ensures formMetadata == old(formMetadata) && validationWasForced == old(validationWasForced)
    {
      if !HasArrayConfig(configs, id) {
        return Some(HasNoArrayConfigMessage(id));
      }
      HandleFieldChange(id, Updater(ToggleItemUpdater(configs[id].arrayConfig.value, itemId, value)), DefaultChangeOptions);
      error := None;
    }

    /** `arrayFields.updateItem(id, itemId, value)`. */
    method UpdateItem(id: string, itemId: string, patch: Value) returns (error: Option<string>)
      requires Valid()
      modifies this
      ensures Valid()
      ensures error.Some? <==> !HasArrayConfig(old(configs), id)
      ensures error.Some? ==> error.value == HasNoArrayConfigMessage(id)
                              && fields == old(fields) && tempErrors == old(tempErrors) && formError == old(formError)
      ensures error.None? ==>
                var r := HandleChangeResult(env, old(ids), old(configs), old(fields), old(tempErrors), old(formError),
                                            old(formMetadata),
                                            [(id, Updater(UpdateItemUpdater(old(configs)[id].arrayConfig.value, itemId, patch)))],
                                            DefaultChangeOptions);
                fields == r.fields && tempErrors == r.tempErrors && formError == r.formError
      ensures ids == old(ids) && configs == old(configs)
      ensures formMetadata == old(formMetadata) && validationWasForced == old(validationWasForced)
    {
      if !HasArrayConfig(configs, id) {
        return Some(HasNoArrayConfigMessage(id));
      }
      HandleFieldChange(id, Updater(UpdateItemUpdater(configs[id].arrayConfig.value, itemId, patch)), DefaultChangeOptions);
      error := None;
    }
  }
}
