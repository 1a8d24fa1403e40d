/** src/main.ts, `updateConfig`: the per-field config updates (replace,
    merge, remove), the removal of excess fields, and `untouchAll`. The
    field configs, the field states and their common insertion order form
    the registry. */
module ConfigUpdate {
  import opened JsValues
  import opened Arrays
  import opened Objects
  import opened FieldRules
  import opened Passes
  import opened FormSpec

  /** `UpdateFieldConfig`: `None` (and `Undefined` for `metadata`) is an
      unset property. */
  datatype FieldPatch = FieldPatch(
    replace: bool,
    value: Option<Value>,
    initialValue: Option<Value>,
    required: Option<bool>,
    isTouched: Option<bool>,
    isUntouchable: Option<bool>,
    metadata: Value,
    requiredErrorMsg: Option<RequiredErrorMsg>,
    checkIfIsEmpty: Option<Value -> bool>,
    isLoading: Option<Value -> bool>,
    derivedRequired: Option<RequiredFn>,
    simpleFieldIsValid: Option<SingleOrMultiple<Validator>>,
    fieldIsValid: Option<SingleOrMultiple<Validator>>)

  const EmptyPatch: FieldPatch :=
    FieldPatch(false, None, None, None, None, None, Undefined, None, None, None, None, None, None)

  /** One entry of `UpdateFormConfig`: unset (or `null`), `'remove'`, or a patch. */
  datatype FieldUpdate = NoUpdate | Remove | Patch(patch: FieldPatch)

  datatype UpdateMode = Merge | OverwriteAll | MergeAndRemoveExcessFields

  datatype Registry = Registry(ids: seq<string>, configs: Configs, fields: Fields)

  ghost predicate RegistryValid(reg: Registry) {
    WellFormed(reg.ids, reg.configs, reg.fields)
  }

  function MissingInitialValueMessage(id: string): string {
    "Missing \"initialValue\" for field \"" + id + "\""
  }

  /** The config a replacing patch builds: everything comes from the patch
      except `arrayConfig` and `simpleValidations`, which carry over from the
      previous config; there is no `advancedCustomValue`, no `isLoading` and
      no reset value. */
  function ReplacedConfig(p: FieldPatch, previous: Option<FieldConfig>): (c: FieldConfig)
    requires p.initialValue.Some?
    ensures c.initialValue == p.initialValue.value && c.metadata == p.metadata
    ensures c.required == (p.required == Some(true)) && c.untouchable == (p.isUntouchable == Some(true))
    ensures c.advancedCustomValue.Undefined?
    ensures c.derived == DerivedConfig(p.checkIfIsEmpty, p.derivedRequired, None, None)
    ensures previous.Some? ==> c.arrayConfig == previous.value.arrayConfig && c.simpleValidations == previous.value.simpleValidations
    ensures previous.None? ==> c.arrayConfig.None? && c.simpleValidations.Absent?
    ensures p.requiredErrorMsg.Some? ==> c.requiredErrorMsg == p.requiredErrorMsg.value
    ensures p.requiredErrorMsg.None? ==> c.requiredErrorMsg == MsgUnset
    ensures p.fieldIsValid.Some? ==> c.validations == p.fieldIsValid.value
    ensures p.fieldIsValid.None? ==> c.validations.Absent?
  {
    FieldConfig(
      initialValue := p.initialValue.value,
      required := if p.required.Some? then p.required.value else false,
      requiredErrorMsg := if p.requiredErrorMsg.Some? then p.requiredErrorMsg.value else MsgUnset,
      metadata := p.metadata,
      untouchable := if p.isUntouchable.Some? then p.isUntouchable.value else false,
      advancedCustomValue := Undefined,
      derived := DerivedConfig(p.checkIfIsEmpty, p.derivedRequired, None, None),
      validations := if p.fieldIsValid.Some? then p.fieldIsValid.value else Absent,
      simpleValidations := if previous.Some? then previous.value.simpleValidations else Absent,
      arrayConfig := if previous.Some? then previous.value.arrayConfig else None)
  }

  /** The merge of a patch into a field config: every set property
      overrides, every unset one is kept. */
  function MergedConfig(cfg: FieldConfig, p: FieldPatch): (c: FieldConfig)
    ensures c.untouchable == (if p.isUntouchable.Some? then p.isUntouchable.value else cfg.untouchable)
    ensures c.initialValue == (if p.initialValue.Some? then p.initialValue.value else cfg.initialValue)
    ensures c.arrayConfig == cfg.arrayConfig && c.advancedCustomValue == cfg.advancedCustomValue
    ensures c.derived.resetIfDerivedRequiredChangeToFalse == cfg.derived.resetIfDerivedRequiredChangeToFalse
    ensures c.required == (if p.required.Some? then p.required.value else cfg.required)
    ensures c.requiredErrorMsg == (if p.requiredErrorMsg.Some? then p.requiredErrorMsg.value else cfg.requiredErrorMsg)
    ensures c.metadata == (if p.metadata.Undefined? then cfg.metadata else p.metadata)
    ensures c.derived.checkIfIsEmpty == (if p.checkIfIsEmpty.Some? then p.checkIfIsEmpty else cfg.derived.checkIfIsEmpty)
    ensures c.derived.required == (if p.derivedRequired.Some? then p.derivedRequired else cfg.derived.required)
    ensures c.derived.isLoading == (if p.isLoading.Some? then p.isLoading else cfg.derived.isLoading)
    ensures c.validations == (if p.fieldIsValid.Some? then p.fieldIsValid.value else cfg.validations)
    ensures c.simpleValidations == (if p.simpleFieldIsValid.Some? then p.simpleFieldIsValid.value else cfg.simpleValidations)
  {
    FieldConfig(
      initialValue := if p.initialValue.Some? then p.initialValue.value else cfg.initialValue,
      required := if p.required.Some? then p.required.value else cfg.required,
      requiredErrorMsg := if p.requiredErrorMsg.Some? then p.requiredErrorMsg.value else cfg.requiredErrorMsg,
      metadata := if !p.metadata.Undefined? then p.metadata else cfg.metadata,
      untouchable := if p.isUntouchable.Some? then p.isUntouchable.value else cfg.untouchable,
      advancedCustomValue := cfg.advancedCustomValue,
      derived := DerivedConfig(
        checkIfIsEmpty := if p.checkIfIsEmpty.Some? then p.checkIfIsEmpty else cfg.derived.checkIfIsEmpty,
        required := if p.derivedRequired.Some? then p.derivedRequired else cfg.derived.required,
        resetIfDerivedRequiredChangeToFalse := cfg.derived.resetIfDerivedRequiredChangeToFalse,
        isLoading := if p.isLoading.Some? then p.isLoading else cfg.derived.isLoading),
      validations := if p.fieldIsValid.Some? then p.fieldIsValid.value else cfg.validations,
      simpleValidations := if p.simpleFieldIsValid.Some? then p.simpleFieldIsValid.value else cfg.simpleValidations,
      arrayConfig := cfg.arrayConfig)
  }

  /** A patch that sets no config property leaves the config as it is. */
  lemma MergedConfigKeepsUnset(cfg: FieldConfig, p: FieldPatch)
    requires p.initialValue.None? && p.required.None? && p.requiredErrorMsg.None? && p.metadata.Undefined?
    requires p.isUntouchable.None? && p.checkIfIsEmpty.None? && p.derivedRequired.None? && p.isLoading.None?
    requires p.fieldIsValid.None? && p.simpleFieldIsValid.None?
    ensures MergedConfig(cfg, p) == cfg
  {
  }

  /** The merge of a patch into a field state. An untouchable field (after
      the patch) ignores `isTouched`; with `updateUntouchedValues` a touched
      field ignores `value`, and an untouched one without a new `value`
      takes the new `initialValue`. Errors and validity are left to the
      forced update that follows. */
  function MergedField(cfg: FieldConfig, f: FieldState, p: FieldPatch, updateUntouchedValues: bool): (r: FieldState)
    ensures r.required == (if p.required.Some? then p.required.value else f.required)
    ensures r.initialValue == (if p.initialValue.Some? then p.initialValue.value else f.initialValue)
    ensures r.metadata == (if !p.metadata.Undefined? then p.metadata else f.metadata)
    ensures r.errors == f.errors && r.isValid == f.isValid && r.isEmpty == f.isEmpty
    ensures r.isDiffFromInitial == f.isDiffFromInitial && r.valueIsLoading == f.valueIsLoading
  {
    var touched := MergedTouch(cfg, f, p);
    FieldState(
      value := MergedValue(f, p, touched, updateUntouchedValues),
      initialValue := if p.initialValue.Some? then p.initialValue.value else f.initialValue,
      metadata := if !p.metadata.Undefined? then p.metadata else f.metadata,
      required := if p.required.Some? then p.required.value else f.required,
      isValid := f.isValid,
      errors := f.errors,
      isTouched := touched,
      isDiffFromInitial := f.isDiffFromInitial,
      isEmpty := f.isEmpty,
      valueIsLoading := f.valueIsLoading)
  }

  /** The touch flag after a merge: `isTouched` is ignored when the field is
      untouchable after the patch. */
  function MergedTouch(cfg: FieldConfig, f: FieldState, p: FieldPatch): bool {
    var untouchable := if p.isUntouchable.Some? then p.isUntouchable.value else cfg.untouchable;
    if !untouchable && p.isTouched.Some? then p.isTouched.value else f.isTouched
  }

  /** The value after a merge, given the touch flag after it. */
  function MergedValue(f: FieldState, p: FieldPatch, touched: bool, updateUntouchedValues: bool): Value {
    var valueWasChanged := p.value.Some? && !(updateUntouchedValues && touched);
    if valueWasChanged then p.value.value
    else if updateUntouchedValues && !touched && p.initialValue.Some? then p.initialValue.value
    else f.value
  }

  /** An untouchable field (after the patch) keeps its touch flag; any
      other takes the patch's `isTouched` when it is set. */
  lemma MergedFieldTouch(cfg: FieldConfig, f: FieldState, p: FieldPatch, updateUntouchedValues: bool)
    ensures MergedConfig(cfg, p).untouchable ==> MergedField(cfg, f, p, updateUntouchedValues).isTouched == f.isTouched
    ensures !MergedConfig(cfg, p).untouchable ==>
              MergedField(cfg, f, p, updateUntouchedValues).isTouched == (if p.isTouched.Some? then p.isTouched.value else f.isTouched)
  {
  }

  /** The patch's `value` is taken unless `updateUntouchedValues` protects a
      touched field; without a `value`, `updateUntouchedValues` resets an
      untouched field to the new `initialValue`; otherwise the value stays. */
  lemma MergedFieldValue(cfg: FieldConfig, f: FieldState, p: FieldPatch, updateUntouchedValues: bool)
    ensures var r := MergedField(cfg, f, p, updateUntouchedValues);
            p.value.Some? && !(updateUntouchedValues && r.isTouched) ==> r.value == p.value.value
    ensures var r := MergedField(cfg, f, p, updateUntouchedValues);
            p.value.Some? && updateUntouchedValues && r.isTouched ==> r.value == f.value
    ensures var r := MergedField(cfg, f, p, updateUntouchedValues);
            p.value.None? && updateUntouchedValues && !r.isTouched && p.initialValue.Some? ==> r.value == p.initialValue.value
    ensures var r := MergedField(cfg, f, p, updateUntouchedValues);
            p.value.None? && !(updateUntouchedValues && !r.isTouched && p.initialValue.Some?) ==> r.value == f.value
  {
  }

  /** `(x) => x !== id`. */
  function OtherThan(id: string): string -> bool {
    (x: string) => x != id
  }

  /** `ids` without `id`: the other ids, in their order. */
  function RemoveId(ids: seq<string>, id: string): (r: seq<string>)
    ensures r == Filter(ids, OtherThan(id))
    ensures forall x :: x in r <==> x in ids && x != id
    decreases |ids|
  {
    if |ids| == 0 then []
    else
      var rest := RemoveId(ids[..|ids| - 1], id);
      var last := ids[|ids| - 1];
      assert forall x :: x in ids <==> x in ids[..|ids| - 1] || x == last;
      if last == id then rest else rest + [last]
  }

  lemma {:induction false} RemoveIdDistinct(ids: seq<string>, id: string)
    requires Distinct(ids)
    ensures Distinct(RemoveId(ids, id))
    decreases |ids|
  {
    if |ids| > 0 {
      var init := ids[..|ids| - 1];
      assert Distinct(init) by {
        forall i, j | 0 <= i < j < |init| ensures init[i] != init[j] { assert init[i] == ids[i] && init[j] == ids[j]; }
      }
      RemoveIdDistinct(init, id);
      assert ids[|ids| - 1] !in init by {
        forall j | 0 <= j < |init| ensures init[j] != ids[|ids| - 1] { assert init[j] == ids[j]; }
      }
    }
  }

  /** `fieldsMap.set(id, config)` and `draft.fields[id] = state`: a new id
      goes to the end, an existing one keeps its place. */
  function Registered(reg: Registry, id: string, cfg: FieldConfig, f: FieldState): Registry {
    Registry(if id in reg.configs then reg.ids else reg.ids + [id], reg.configs[id := cfg], reg.fields[id := f])
  }

  /** `fieldsMap.delete(id)` and `delete draft.fields[id]`. */
  function Unregistered(reg: Registry, id: string): Registry {
    Registry(RemoveId(reg.ids, id), reg.configs - {id}, reg.fields - {id})
  }

  /** Whether a patch takes the replace path: a new field, `replace: true`,
      or the mode `overwriteAll`. */
  predicate Replaces(reg: Registry, id: string, p: FieldPatch, mode: UpdateMode) {
    id !in reg.configs || p.replace || mode == OverwriteAll
  }

  /** One entry of the loop; `None` when a replacing patch has no
      `initialValue`, which is reported to the form error handler and ends
      the loop. */
  function ConfigStep(reg: Registry, id: string, upd: FieldUpdate, mode: UpdateMode, updateUntouchedValues: bool)
    : Option<Registry>
  {
    match upd
    case NoUpdate => Some(reg)
    case Remove => Some(Unregistered(reg, id))
    case Patch(p) =>
      if Replaces(reg, id, p, mode) then
        if p.initialValue.None? then None
        else
          var c := ReplacedConfig(p, if id in reg.configs then Some(reg.configs[id]) else None);
          Some(Registered(reg, id, c, GetInitialStateFromConfig(c)))
      else if id !in reg.fields then Some(reg)
      else
        var cfg := reg.configs[id];
        Some(reg.(configs := reg.configs[id := MergedConfig(cfg, p)],
                  fields := reg.fields[id := MergedField(cfg, reg.fields[id], p, updateUntouchedValues)]))
  }

  /** Each step keeps the registry invariant. */
  lemma ConfigStepValid(reg: Registry, id: string, upd: FieldUpdate, mode: UpdateMode, updateUntouchedValues: bool)
    requires RegistryValid(reg)
    ensures var s := ConfigStep(reg, id, upd, mode, updateUntouchedValues);
            s.Some? ==> RegistryValid(s.value)
  {
    if upd.Remove? {
      RemoveIdDistinct(reg.ids, id);
    } else if upd.Patch? && Replaces(reg, id, upd.patch, mode) && id !in reg.configs {
      assert Distinct(reg.ids + [id]) by {
        var ids := reg.ids + [id];
        forall i, j | 0 <= i < j < |ids| ensures ids[i] != ids[j] {
          if j == |reg.ids| { assert ids[i] == reg.ids[i]; }
        }
      }
    }
  }

  datatype ConfigOutcome = ConfigOutcome(registry: Registry, error: Option<string>)

  /** The registry after the entry loop, with the message of the entry that
      ended it early. */
  function ApplyConfigEntries(entries: seq<(string, FieldUpdate)>, mode: UpdateMode, updateUntouchedValues: bool,
                              reg: Registry): ConfigOutcome
    decreases |entries|
  {
    if |entries| == 0 then ConfigOutcome(reg, None)
    else
      var prev := ApplyConfigEntries(entries[..|entries| - 1], mode, updateUntouchedValues, reg);
      var id := entries[|entries| - 1].0;
      if prev.error.Some? then prev
      else match ConfigStep(prev.registry, id, entries[|entries| - 1].1, mode, updateUntouchedValues)
        case None => ConfigOutcome(prev.registry, Some(MissingInitialValueMessage(id)))
        case Some(next) => ConfigOutcome(next, None)
  }

  /** An entry that succeeds after a prefix that succeeded extends it. */
  lemma ApplyConfigEntriesSnoc(init: seq<(string, FieldUpdate)>, e: (string, FieldUpdate), mode: UpdateMode,
                               updateUntouchedValues: bool, reg: Registry, next: Registry)
    requires ApplyConfigEntries(init, mode, updateUntouchedValues, reg).error.None?
    requires ConfigStep(ApplyConfigEntries(init, mode, updateUntouchedValues, reg).registry, e.0, e.1, mode,
                        updateUntouchedValues) == Some(next)
    ensures ApplyConfigEntries(init + [e], mode, updateUntouchedValues, reg) == ConfigOutcome(next, None)
  {
    assert (init + [e])[..|init|] == init;
  }

  /** Once an entry has ended the loop, later entries change nothing. */
  lemma {:induction false} ApplyConfigEntriesStaysFailed(entries: seq<(string, FieldUpdate)>, n: nat, mode: UpdateMode,
                                                         updateUntouchedValues: bool, reg: Registry)
    requires n <= |entries|
    requires ApplyConfigEntries(entries[..n], mode, updateUntouchedValues, reg).error.Some?
    ensures ApplyConfigEntries(entries, mode, updateUntouchedValues, reg)
              == ApplyConfigEntries(entries[..n], mode, updateUntouchedValues, reg)
    decreases |entries| - n
  {
    if n < |entries| {
      assert entries[..n + 1][..n] == entries[..n];
      ApplyConfigEntriesStaysFailed(entries, n + 1, mode, updateUntouchedValues, reg);
    } else {
      assert entries[..n] == entries;
    }
  }

  predicate Removed(entries: seq<(string, FieldUpdate)>, id: string) {
    exists i :: 0 <= i < |entries| && entries[i].0 == id && entries[i].1.Remove?
  }

  predicate Patched(entries: seq<(string, FieldUpdate)>, id: string) {
    exists i :: 0 <= i < |entries| && entries[i].0 == id && entries[i].1.Patch?
  }

  /** `!fields[id]` is false: the entry for `id` is set. */
  predicate KeptByUpdate(entries: seq<(string, FieldUpdate)>, id: string) {
    exists i :: 0 <= i < |entries| && entries[i].0 == id && !entries[i].1.NoUpdate?
  }

  /** An entry that ends the loop: a replacing patch without `initialValue`. */
  predicate MissesInitialValue(reg: Registry, entry: (string, FieldUpdate), mode: UpdateMode) {
    entry.1.Patch? && entry.1.patch.initialValue.None? && Replaces(reg, entry.0, entry.1.patch, mode)
  }

  /** The loop keeps the registry invariant. */
  lemma {:induction false} ApplyConfigEntriesValid(entries: seq<(string, FieldUpdate)>, mode: UpdateMode,
                                                   updateUntouchedValues: bool, reg: Registry)
    requires RegistryValid(reg)
    ensures RegistryValid(ApplyConfigEntries(entries, mode, updateUntouchedValues, reg).registry)
    decreases |entries|
  {
    if |entries| > 0 {
      var prev := ApplyConfigEntries(entries[..|entries| - 1], mode, updateUntouchedValues, reg);
      ApplyConfigEntriesValid(entries[..|entries| - 1], mode, updateUntouchedValues, reg);
      ConfigStepValid(prev.registry, entries[|entries| - 1].0, entries[|entries| - 1].1, mode, updateUntouchedValues);
    }
  }

  /** One step changes the configured fields at `id` only: a removal drops
      it, a patch configures it, an unset entry keeps it as it was; and the
      step fails exactly on a replacing patch without `initialValue`. */
  lemma ConfigStepKeys(reg: Registry, id: string, upd: FieldUpdate, mode: UpdateMode, updateUntouchedValues: bool)
    ensures var s := ConfigStep(reg, id, upd, mode, updateUntouchedValues);
            s.None? <==> MissesInitialValue(reg, (id, upd), mode)
    ensures var s := ConfigStep(reg, id, upd, mode, updateUntouchedValues);
            s.Some? ==> forall x :: x in s.value.configs <==>
                          if x == id then upd.Patch? || (upd.NoUpdate? && id in reg.configs) else x in reg.configs
  {
  }

  /** The prefix facts the two lemmas below share. */
  lemma EntriesPrefix(entries: seq<(string, FieldUpdate)>)
    requires DistinctKeys(entries) && |entries| > 0
    ensures DistinctKeys(entries[..|entries| - 1])
    ensures !Removed(entries[..|entries| - 1], entries[|entries| - 1].0)
    ensures !Patched(entries[..|entries| - 1], entries[|entries| - 1].0)
    ensures forall x :: Removed(entries, x) <==>
              Removed(entries[..|entries| - 1], x) || (x == entries[|entries| - 1].0 && entries[|entries| - 1].1.Remove?)
    ensures forall x :: Patched(entries, x) <==>
              Patched(entries[..|entries| - 1], x) || (x == entries[|entries| - 1].0 && entries[|entries| - 1].1.Patch?)
  {
    var n := |entries| - 1;
    var init := entries[..n];
    assert forall i :: 0 <= i < n ==> init[i] == entries[i];
    forall i | 0 <= i < n ensures init[i].0 != entries[n].0 { assert init[i] == entries[i]; }
  }

  /** With distinct entry keys, and as long as no entry ended the loop, a
      field is configured afterwards exactly when it was and is not
      removed, or it is patched (merged into or replaced). */
  lemma {:induction false} ApplyConfigEntriesKeys(entries: seq<(string, FieldUpdate)>, mode: UpdateMode,
                                                  updateUntouchedValues: bool, reg: Registry)
    requires DistinctKeys(entries)
    ensures var o := ApplyConfigEntries(entries, mode, updateUntouchedValues, reg);
            o.error.None? ==>
              forall id :: id in o.registry.configs <==> (id in reg.configs && !Removed(entries, id)) || Patched(entries, id)
    decreases |entries|
  {
    if |entries| > 0 {
      var n := |entries| - 1;
      var init := entries[..n];
      EntriesPrefix(entries);
      ApplyConfigEntriesKeys(init, mode, updateUntouchedValues, reg);
      var prev := ApplyConfigEntries(init, mode, updateUntouchedValues, reg);
      ConfigStepKeys(prev.registry, entries[n].0, entries[n].1, mode, updateUntouchedValues);
    }
  }

  /** With distinct entry keys, the loop ends early exactly when some entry
      is a replacing patch without `initialValue`. */
  lemma {:induction false} ApplyConfigEntriesError(entries: seq<(string, FieldUpdate)>, mode: UpdateMode,
                                                   updateUntouchedValues: bool, reg: Registry)
    requires DistinctKeys(entries)
    ensures ApplyConfigEntries(entries, mode, updateUntouchedValues, reg).error.Some? <==>
              exists i :: 0 <= i < |entries| && MissesInitialValue(reg, entries[i], mode)
    decreases |entries|
  {
    if |entries| > 0 {
      var n := |entries| - 1;
      var init := entries[..n];
      EntriesPrefix(entries);
      ApplyConfigEntriesError(init, mode, updateUntouchedValues, reg);
      ApplyConfigEntriesKeys(init, mode, updateUntouchedValues, reg);
      var prev := ApplyConfigEntries(init, mode, updateUntouchedValues, reg);
      ConfigStepKeys(prev.registry, entries[n].0, entries[n].1, mode, updateUntouchedValues);
      if prev.error.None? {
        assert (entries[n].0 in prev.registry.configs) == (entries[n].0 in reg.configs);
        assert MissesInitialValue(prev.registry, entries[n], mode) == MissesInitialValue(reg, entries[n], mode);
      }
      assert forall i :: 0 <= i < n ==> init[i] == entries[i];
      assert (exists i :: 0 <= i < |entries| && MissesInitialValue(reg, entries[i], mode)) <==>
             (exists i :: 0 <= i < n && MissesInitialValue(reg, init[i], mode)) || MissesInitialValue(reg, entries[n], mode);
    }
  }

  /** The `mergeAndRemoveExcessFields`/`overwriteAll` loop over the fields
      as they were after the entry loop (`snapshot`): a field whose entry is
      not set is removed. */
  function RemoveExcess(snapshot: seq<string>, entries: seq<(string, FieldUpdate)>, reg: Registry): Registry
    decreases |snapshot|
  {
    if |snapshot| == 0 then reg
    else
      var prev := RemoveExcess(snapshot[..|snapshot| - 1], entries, reg);
      var id := snapshot[|snapshot| - 1];
      if KeptByUpdate(entries, id) then prev else Unregistered(prev, id)
  }

  /** Removing the excess fields keeps the invariant and the records of the
      fields that stay, and keeps exactly the fields that are not in the
      snapshot or have a set entry. */
  lemma {:induction false} RemoveExcessFacts(snapshot: seq<string>, entries: seq<(string, FieldUpdate)>, reg: Registry)
    requires RegistryValid(reg)
    ensures RegistryValid(RemoveExcess(snapshot, entries, reg))
    ensures var r := RemoveExcess(snapshot, entries, reg);
            forall id :: id in r.configs <==> id in reg.configs && (id !in snapshot || KeptByUpdate(entries, id))
    ensures var r := RemoveExcess(snapshot, entries, reg);
            forall id :: id in r.configs ==> r.configs[id] == reg.configs[id] && r.fields[id] == reg.fields[id]
    decreases |snapshot|
  {
    if |snapshot| > 0 {
      var init := snapshot[..|snapshot| - 1];
      RemoveExcessFacts(init, entries, reg);
      var prev := RemoveExcess(init, entries, reg);
      RemoveIdDistinct(prev.ids, snapshot[|snapshot| - 1]);
      assert forall x :: x in snapshot <==> x in init || x == snapshot[|snapshot| - 1];
    }
  }

  /** `updateConfig`'s changes to the registry: the entry loop, then (in the
      two removing modes, unless the loop ended early) the excess removal. */
  function UpdateConfigResult(reg: Registry, fieldsArg: Option<seq<(string, FieldUpdate)>>, mode: UpdateMode,
                              updateUntouchedValues: bool): ConfigOutcome
  {
    if fieldsArg.None? then ConfigOutcome(reg, None)
    else
      var o := ApplyConfigEntries(fieldsArg.value, mode, updateUntouchedValues, reg);
      if o.error.None? && mode != Merge
      then ConfigOutcome(RemoveExcess(o.registry.ids, fieldsArg.value, o.registry), None)
      else o
  }

  /** `updateConfig` keeps the registry invariant; it fails exactly when a
      replacing patch lacks `initialValue`; and otherwise the fields
      afterwards are, in `merge` mode, the old ones minus the removed plus
      the patched ones, and in the two removing modes exactly the patched
      ones. */
  lemma UpdateConfigFacts(reg: Registry, fieldsArg: Option<seq<(string, FieldUpdate)>>, mode: UpdateMode,
                          updateUntouchedValues: bool)
    requires RegistryValid(reg)
    requires fieldsArg.Some? ==> DistinctKeys(fieldsArg.value)
    ensures RegistryValid(UpdateConfigResult(reg, fieldsArg, mode, updateUntouchedValues).registry)
    ensures UpdateConfigResult(reg, fieldsArg, mode, updateUntouchedValues).error.Some? <==>
              fieldsArg.Some? && exists i :: 0 <= i < |fieldsArg.value| && MissesInitialValue(reg, fieldsArg.value[i], mode)
    ensures var o := UpdateConfigResult(reg, fieldsArg, mode, updateUntouchedValues);
            o.error.None? && fieldsArg.Some? && mode == Merge ==>
              forall id :: id in o.registry.configs <==>
                           (id in reg.configs && !Removed(fieldsArg.value, id)) || Patched(fieldsArg.value, id)
    ensures var o := UpdateConfigResult(reg, fieldsArg, mode, updateUntouchedValues);
            o.error.None? && fieldsArg.Some? && mode != Merge ==>
              forall id :: id in o.registry.configs <==> Patched(fieldsArg.value, id)
  {
    if fieldsArg.Some? {
      var entries := fieldsArg.value;
      var o := ApplyConfigEntries(entries, mode, updateUntouchedValues, reg);
      ApplyConfigEntriesValid(entries, mode, updateUntouchedValues, reg);
      ApplyConfigEntriesKeys(entries, mode, updateUntouchedValues, reg);
      ApplyConfigEntriesError(entries, mode, updateUntouchedValues, reg);
      if o.error.None? && mode != Merge {
        RemoveExcessFacts(o.registry.ids, entries, o.registry);
        forall id ensures KeptByUpdate(entries, id) <==> Removed(entries, id) || Patched(entries, id) {
          if KeptByUpdate(entries, id) {
            var i :| 0 <= i < |entries| && entries[i].0 == id && !entries[i].1.NoUpdate?;
            assert entries[i].1.Remove? || entries[i].1.Patch?;
          }
        }
      }
    }
  }

  // ---------------------------------------------------------------------
  // untouchAll

  /** `untouchAll`'s merge config: `{isTouched: false}` for every field. */
  function UntouchAllEntries(ids: seq<string>): (r: seq<(string, FieldUpdate)>)
    ensures |r| == |ids|
    decreases |ids|
  {
    if |ids| == 0 then [] else UntouchAllEntries(ids[..|ids| - 1]) + [(ids[|ids| - 1], Patch(UntouchPatch))]
  }

  lemma UntouchAllEntriesSnoc(init: seq<string>, id: string)
    ensures UntouchAllEntries(init + [id]) == UntouchAllEntries(init) + [(id, Patch(UntouchPatch))]
  {
    assert (init + [id])[..|init|] == init;
  }

  /** One entry per id, in order, so the entries have distinct keys when
      the ids are distinct. */
  lemma {:induction false} UntouchAllEntriesKeys(ids: seq<string>)
    ensures forall i :: 0 <= i < |ids| ==> UntouchAllEntries(ids)[i] == (ids[i], Patch(UntouchPatch))
    decreases |ids|
  {
    if |ids| > 0 {
      UntouchAllEntriesKeys(ids[..|ids| - 1]);
      assert forall i :: 0 <= i < |ids| - 1 ==> ids[..|ids| - 1][i] == ids[i];
    }
  }

  const UntouchPatch: FieldPatch := EmptyPatch.(isTouched := Some(false))

  /** One `{isTouched: false}` merge into a configured field: the configs
      stay as they are and only that field's touch flag may change. */
  lemma UntouchStep(reg: Registry, id: string)
    requires RegistryValid(reg) && id in reg.configs
    ensures var s := ConfigStep(reg, id, Patch(UntouchPatch), Merge, false);
            && s.Some? && RegistryValid(s.value) && s.value.ids == reg.ids
            && s.value.configs == reg.configs && s.value.fields.Keys == reg.fields.Keys
            && (forall x :: x in reg.fields && x != id ==> s.value.fields[x] == reg.fields[x])
            && s.value.fields[id].isTouched == (reg.configs[id].untouchable && reg.fields[id].isTouched)
  {
    MergedFieldTouch(reg.configs[id], reg.fields[id], UntouchPatch, false);
    MergedConfigKeepsUnset(reg.configs[id], UntouchPatch);
    assert reg.configs[id := reg.configs[id]] == reg.configs;
  }

  /** `o` is `reg` after `untouchAll`'s merge of `ids`: the same fields in
      the same order and the same configs, and only the touch flags of the
      listed fields that are not untouchable cleared. */
  ghost predicate UntouchedFrom(reg: Registry, o: Registry, ids: seq<string>)
    requires RegistryValid(reg)
  {
    && RegistryValid(o) && o.ids == reg.ids
    && o.configs == reg.configs && o.fields.Keys == reg.fields.Keys
    && (forall id :: id in reg.fields ==>
          o.fields[id].isTouched == (if id in ids && !reg.configs[id].untouchable then false else reg.fields[id].isTouched))
  }

  /** A registry that differs from `prev` only in the touch flag of `id`,
      cleared unless `id` is untouchable, is `reg` untouched from one more id. */
  lemma UntouchedFromNext(reg: Registry, prev: Registry, next: Registry, init: seq<string>, id: string)
    requires RegistryValid(reg) && UntouchedFrom(reg, prev, init) && id in reg.configs && id !in init
    requires RegistryValid(next) && next.ids == prev.ids
    requires next.configs == prev.configs && next.fields.Keys == prev.fields.Keys
    requires forall x :: x in prev.fields && x != id ==> next.fields[x] == prev.fields[x]
    requires next.fields[id].isTouched == (prev.configs[id].untouchable && prev.fields[id].isTouched)
    ensures UntouchedFrom(reg, next, init + [id])
  {
    var ids := init + [id];
    forall x | x in reg.fields
      ensures next.fields[x].isTouched == (if x in ids && !reg.configs[x].untouchable then false else reg.fields[x].isTouched)
    {
      if x in ids {
        var k :| 0 <= k < |ids| && ids[k] == x;
        if k < |init| { assert init[k] == x; }
      }
      if x in init {
        var k :| 0 <= k < |init| && init[k] == x;
        assert ids[k] == x;
      }
      assert ids[|init|] == id;
      if x != id {
        assert next.fields[x] == prev.fields[x];
      }
    }
  }

  lemma UntouchedFromStep(reg: Registry, prev: Registry, init: seq<string>, id: string)
    requires RegistryValid(reg) && UntouchedFrom(reg, prev, init) && id in reg.configs && id !in init
    ensures ConfigStep(prev, id, Patch(UntouchPatch), Merge, false).Some?
    ensures UntouchedFrom(reg, ConfigStep(prev, id, Patch(UntouchPatch), Merge, false).value, init + [id])
  {
    UntouchStep(prev, id);
    UntouchedFromNext(reg, prev, ConfigStep(prev, id, Patch(UntouchPatch), Merge, false).value, init, id);
  }

  /** The last entry of `untouchAll`'s merge extends the prefix's result. */
  lemma UntouchAllLast(init: seq<string>, id: string, reg: Registry)
    requires RegistryValid(reg) && id in reg.configs && id !in init
    requires ApplyConfigEntries(UntouchAllEntries(init), Merge, false, reg).error.None?
    requires UntouchedFrom(reg, ApplyConfigEntries(UntouchAllEntries(init), Merge, false, reg).registry, init)
    ensures ApplyConfigEntries(UntouchAllEntries(init + [id]), Merge, false, reg).error.None?
    ensures UntouchedFrom(reg, ApplyConfigEntries(UntouchAllEntries(init + [id]), Merge, false, reg).registry, init + [id])
  {
    var prev := ApplyConfigEntries(UntouchAllEntries(init), Merge, false, reg);
    UntouchedFromStep(reg, prev.registry, init, id);
    var next := ConfigStep(prev.registry, id, Patch(UntouchPatch), Merge, false).value;
    UntouchAllEntriesSnoc(init, id);
    ApplyConfigEntriesSnoc(UntouchAllEntries(init), (id, Patch(UntouchPatch)), Merge, false, reg, next);
  }

  /** The merge of `untouchAll` keeps the set of fields and clears the touch
      flag of every field that is not untouchable; an untouchable field
      keeps its flag. */
  lemma {:induction false} UntouchAllEntriesEffect(ids: seq<string>, reg: Registry)
    requires RegistryValid(reg) && Distinct(ids) && forall id :: id in ids ==> id in reg.configs
    ensures ApplyConfigEntries(UntouchAllEntries(ids), Merge, false, reg).error.None?
    ensures UntouchedFrom(reg, ApplyConfigEntries(UntouchAllEntries(ids), Merge, false, reg).registry, ids)
    decreases |ids|
  {
    if |ids| > 0 {
      var n := |ids| - 1;
      var init := ids[..n];
      assert Distinct(init) && (forall id :: id in init ==> id in reg.configs) && ids[n] !in init by {
        forall i, j | 0 <= i < j < n ensures init[i] != init[j] { assert init[i] == ids[i] && init[j] == ids[j]; }
        forall j | 0 <= j < n ensures init[j] != ids[n] { assert init[j] == ids[j]; }
        assert forall id :: id in init ==> id in ids;
      }
      UntouchAllEntriesEffect(init, reg);
      UntouchAllLast(init, ids[n], reg);
      SnocSplit(ids);
    }
  }
}
