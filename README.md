# t-form form-state engine in Dafny

This project models the state engine behind `useForm` of the t-form
library (lucasols/t-form), without React, and proves properties of it.
A form is a set of fields. Each field has a config (initial value,
`required`, validators, derived rules, array settings) and a state
record (value, initial value, errors, validity, emptiness, touch flag,
diff-from-initial flag, loading flag).

The engine is modelled in three layers.

* **Per-field rules** (module `FieldRules`), written as pure functions:
  * `valueIsEmpty` and `normalizeFormValue`;
  * the required check `basicFieldValidation`;
  * `getInitialStateFromConfig`;
  * `updateFieldStateFromValue`, as the record it leaves behind;
  * the touch decision of `handleChange`;
  * the aggregate `getGenericFormState`, as a loop.
* **The passes over all fields** (module `Passes`):
  * `updateDerivedConfig`;
  * the two halves of `performFormValidation`: the reset of fields that were not visited, and then per field the temporary errors, the loading state and the validators.

  Each pass is a specification function folded over the ordered field ids. Each also has a method with the source's loop, proved to compute that function. Because the ids are ordered, a later field's validators see the fields before it already updated, as JavaScript `Map` iteration order gives.
* **The controller** (class `FormController.Form`):
  * fields: the ordered `ids`, the `configs` map, the `fields` map, the stored temporary errors, `formError`, `formMetadata` and `validationWasForced`;
  * methods: construction with the initial state, `handleChange`, `touchField`, `forceFormUpdate`, `forceFormValidation`, `setTemporaryError`, `updateConfig`, `untouchAll` and the four array helpers.

  Each method is proved against a specification function of the old state:
  * `FormSpec.HandleChangeResult` for a change transaction;
  * `ConfigUpdate.UpdateConfigResult` for the configuration update.

  The properties the library promises are proved as lemmas about those functions. The class invariant `Valid()` states that the config map and the field map have the same keys, which are exactly the distinct ids. Every method keeps it.

The pure helpers the engine uses are modelled too:
* `src/stateUtils.ts` (module `StateUtils`);
* `src/utils/arrays.ts` (`Arrays`);
* `src/utils/utils.ts` (`Utils`);
* `src/utils/unwrapSetterValue.ts` (`SetterValue`);
* `src/utils/object.ts` (`Objects`);
* the array-helper updaters (`ArrayFields`).

JavaScript values are the datatype `JsValues.Value`. `deepEqual` is `==` on it. `===` is `==` except on arrays. `normalizeFormValue` always builds a fresh array with `filter`, so an array is never identical to a stored one.

Files: `js_values.dfy`, `arrays.dfy`, `utils.dfy`, `unwrap_setter_value.dfy`, `object.dfy`, `state_utils.dfy`, `field_rules.dfy`, `passes.dfy`, `array_fields.dfy`, `form_spec.dfy`, `config_update.dfy`, `form.dfy`.

Parameters in place of outside state:
* The global configuration becomes the `FormSpec.Env` value that the form is built with. This covers the default required message and the optional `advancedFormValidation` callback. The callback is a function of the fields that may return a form error.
* Validators, `checkIfIsEmpty`, `isLoading`, derived `required` functions and `getItemId` are function-typed config entries.

## Model

| member | source | states |
|---|---|---|
| JsValues.TrimStart | src/main.ts:1206 | removes exactly a leading run of JavaScript whitespace: the result is a suffix of the input, the removed part is all whitespace, and the result does not start with whitespace |
| JsValues.TrimEnd | src/main.ts:1206 | removes exactly a trailing run of whitespace: the result is a prefix, the removed part is all whitespace, and the result does not end with whitespace |
| JsValues.Trim | src/main.ts:1206 | `String.prototype.trim`: the result starts and ends with non-whitespace, or is empty |
| JsValues.TrimIsInfix | src/main.ts:1206 | the trimmed string is a contiguous slice of the input |
| JsValues.TrimEmptyIff | src/main.ts:1216 | a string trims to `''` exactly when it is all whitespace |
| JsValues.TrimmedFixed | src/stateUtils.ts:46 | an already trimmed string is left as it is |
| JsValues.TrimIdempotent | src/stateUtils.ts:46 | trimming twice is trimming once |
| Arrays.SingleOrMultipleToArray | src/utils/arrays.ts:20-28 | an array is returned unchanged, null/undefined gives `[]`, and any other value gives `[value]` |
| Arrays.FilterMapped | src/utils/arrays.ts:1-18 | the output of `filterAndMap` is never longer than the input |
| Arrays.FilterAndMap | src/utils/arrays.ts:5-17 | the loop with its running index computes `FilterMapped` |
| Arrays.FilterMappedMembers | src/utils/arrays.ts:7-14 | a value is in the output iff `fn(arr[i], i)` produced it for some input position `i`; dropped items still count for the index |
| Arrays.FilterMappedInOrder | src/utils/arrays.ts:7-14 | the output keeps input order: its `k`-th element comes from the `k`-th kept position, the kept positions strictly increase, and every kept position appears |
| Arrays.Filter | src/main.ts:745-749 | reference definition: `array.filter(keep)`, as `filterAndMap` with a callback keeping accepted items as they are; its meaning is FilterInOrder |
| Arrays.FilterInOrder | src/main.ts:745-749 | `array.filter(keep)` is the ordered subsequence of accepted items: the `k`-th output is the item at the `k`-th kept position, kept positions strictly increase and hold accepted items, and every accepted position is kept |
| Arrays.FilterMappedKeepsAll | src/utils/arrays.ts:5-17 | when `fn` never returns false, the output has the input's length and holds `fn(arr[i], i)` at each `i` |
| Utils.KeepPrevIfUnchanged | src/utils/utils.ts:9-11 | returns the previous value when it deep-equals the new one, and the result always deep-equals the new value |
| Utils.UnwrapGetterOrValue | src/utils/utils.ts:5-7 | a getter's result for a getter, the value itself otherwise |
| SetterValue.UnwrapSetterValue | src/utils/unwrapSetterValue.ts:7-12 | an updater is applied to the current value; a plain value is returned |
| Objects.ObjectTypedEntries | src/utils/object.ts:1-3 | for an object with distinct insertion-ordered keys: no key appears twice, every entry holds a property of the object with its value, every property appears, and the entries follow insertion order |
| Objects.ObjectEntriesRoundTrip | src/utils/object.ts:1-3 | `Object.fromEntries` of the entries rebuilds the object |
| Objects.FromEntries | src/utils/object.ts:27 | reference definition: `Object.fromEntries`, assigning the entries in order; its meaning is FromEntriesLastWins |
| Objects.FromEntriesLastWins | src/utils/object.ts:27 | `Object.fromEntries` has exactly the entries' keys, and a key holds the value of its last entry |
| Objects.MapArrayToObject | src/utils/object.ts:23-28 | the keys are exactly the mapper's output keys, and on a repeated key the later item wins |
| Objects.MapObjectToObject | src/utils/object.ts:30-38 | the mapper runs once per entry, the keys are exactly its output keys, and each non-repeated key holds the mapped value |
| Objects.Pick | src/utils/object.ts:5-21 | an absent object gives `{}`; otherwise the keys are the listed keys under their (non-empty) rename, each holding `obj[key]` (the last listed key wins on a clash), and nothing else |
| Objects.PickedObject | src/utils/object.ts:16-19 | the object built by `pick`'s assignments, in key order, has exactly the picked names as keys, and each name holds the value of the last key stored under it |
| StateUtils.NormalizeValue | src/stateUtils.ts:45-47 | strings are trimmed, every other value is unchanged |
| StateUtils.GetFormValuesObj | src/stateUtils.ts:9-24 | the loop computes the all-fields extraction |
| StateUtils.GetChangedFormValuesObj | src/stateUtils.ts:26-43 | the loop computes the changed-fields extraction |
| StateUtils.ExtractValues | src/stateUtils.ts:9-43 | reference definition: both extraction loops as a fold: stop with the message of an invalid field unless invalid fields are allowed, otherwise copy the (changed) field's normalised value; its meaning is ExtractFailsIff, ExtractedKeys and ExtractedValues |
| StateUtils.ExtractLoop | src/stateUtils.ts:15-21 | the shared loop, which stops at the first invalid field, computes the extraction |
| StateUtils.ExtractStaysInvalid | src/stateUtils.ts:16-18 | once a prefix has thrown, the whole result is that same failure |
| StateUtils.ExtractFailsIff | src/stateUtils.ts:15-18 | extraction fails iff `allowInvalid` is off and some field is invalid; the message names the first invalid field. This holds for the changed-values variant too, because validity is checked before the diff filter |
| StateUtils.ExtractedKeys | src/stateUtils.ts:32-40 | on success the keys are exactly the field keys (all fields, or only those with `isDiffFromInitial`) |
| StateUtils.ExtractedValues | src/stateUtils.ts:20 | on success each included key holds its field's normalised value |
| StateUtils.ChangedValuesAreSubset | src/stateUtils.ts:38 | the changed-values result fails exactly when the all-values result fails, and each of its entries equals the all-values entry |
| StateUtils.NoChangesNoValues | src/stateUtils.ts:30-42 | with no changed field, the changed-values result is empty |
| FieldRules.BuildFieldConfig | src/main.ts:236-251 | the config copies the initial config's value, `required`, `requiredErrorMsg`, metadata, `untouchable`, custom value and `validation` (as `simpleValidations`), and takes the given `validations` and array config; `_isEmpty`/`_isLoading` take precedence over the derived config's `checkIfIsEmpty`/`isLoading`; the derived `required` and reset rule come from the derived config, and are unset without one |
| FieldRules.ValueIsEmpty | src/main.ts:1212-1218 | empty exactly for `[]`, a blank string, `null` and `undefined` (`0` and `false` are not empty) |
| FieldRules.PresentItems | src/main.ts:1208 | equals `Filter` with the present-item test, so exactly the items that are not null/undefined, in order and with their repetitions |
| FieldRules.PresentItemsFixed | src/main.ts:1208 | an array without null/undefined items is kept as it is |
| FieldRules.NormalizeFormValue | src/main.ts:1204-1210 | strings are trimmed; an array becomes `Filter` of its items with the present-item test (no null/undefined item, order kept); other values are unchanged; the value's kind is kept |
| FieldRules.NormalizeIdempotent | src/main.ts:1204-1210 | normalising twice is normalising once |
| FieldRules.BasicFieldValidation | src/main.ts:920-951 | `isEmpty` comes from `checkIfIsEmpty` when set, else from `valueIsEmpty`; invalid iff required and empty; one error (the custom message if set, else the default) iff additionally the message is not `false`, otherwise `null` |
| FieldRules.GetInitialStateFromConfig | src/main.ts:827-844 | the value is `advancedCustomValue ?? initialValue`; untouched, invalid, empty, without errors, not changed, not loading |
| FieldRules.FieldAfterValue | src/main.ts:877-918 | a non-initial call always touches, and the value always ends up as the normalised new value. The identical no-op returns the record unchanged and touched. Otherwise the value becomes the normalised value, the diff flag is recomputed, errors are the required check's errors if touched and `null` if not, validity and emptiness come from the check, and loading is cleared |
| FieldRules.ApplyValueIdempotent | src/main.ts:877-918 | applying the same value twice changes nothing more |
| FieldRules.InitialPathField | src/main.ts:291-301 | on the initial-state path a field holds its normalised initial value, untouched and without errors; it counts as changed iff normalising altered the initial value |
| FieldRules.ShouldSkipTouch | src/main.ts:391-407 | an untouchable field always skips; else `touchOnly`, when given, decides (skip iff not listed); else skip iff `skipTouch` is true or lists the id |
| FieldRules.OptionsFromFlag | src/main.ts:372 | reference definition: a boolean `b` given as options stands for `{skipTouch: b}`, with no `touchOnly`; its meaning is ShouldSkipTouch (a touchable field then skips exactly when `b` holds) and ForceOptions' boolean case |
| FieldRules.GetGenericFormState | src/main.ts:846-875 | loading iff some field is loading; changed iff some field is changed; valid iff there is no form error and every field is valid, and, with `mustBeDiffFromInitial`, some field is changed |
| Passes.DeriveField | src/main.ts:959-998 | `required` becomes the derived function's answer. The value is reset only when a reset is configured and `required` goes from true to false. Validity and emptiness follow the new required check. Errors are replaced only when touched. `isDiffFromInitial` is not recomputed |
| Passes.UpdateDerivedConfig | src/main.ts:953-1001 | the loop computes the derived pass, and the visited set gains exactly the known fields with derived `required` |
| Passes.DerivedPass | src/main.ts:953-1001 | reference definition: `updateDerivedConfig` as a fold over the config order, each field with derived `required` updated by DeriveField from the fields the earlier ids left; its meaning is DerivedPassKeeps, DerivedPassKeepsTouch and DerivedPassOwnTurn |
| Passes.DerivedPassKeeps | src/main.ts:958-1000 | the pass keeps the set of fields and leaves every field without derived `required` as it was |
| Passes.DerivedPassKeepsTouch | src/main.ts:958-1000 | the pass never changes a field's touch flag, initial value, diff flag, metadata or loading flag |
| Passes.DerivedPassOwnTurn | src/main.ts:958-1000 | a field with derived `required` is derived once, seeing the fields as the earlier ids left them |
| Passes.ResetField | src/main.ts:1018-1026 | an unvisited field's errors are recomputed only if it had errors (else stay `null`), and it is valid iff not (required and empty); nothing else changes |
| Passes.ResetPass | src/main.ts:1009-1028 | reference definition: the reset loop of `performFormValidation` as a fold, every configured field outside the visited set reset by ResetField; its meaning is ResetPassKeeps and ResetPassFacts |
| Passes.ResetPassKeeps | src/main.ts:1009-1028 | the reset keeps the set of fields, every value and touch flag, and every loading flag |
| Passes.ResetPassFacts | src/main.ts:1009-1028 | with distinct ids, exactly the configured fields outside the visited set are reset; all others are unchanged |
| Passes.ApplyValidationResult | src/main.ts:1071-1096 | a `true` result changes nothing; any other result makes the field invalid; strings and arrays are appended; `silentIfNotTouched` messages are appended only when touched |
| Passes.RunValidators | src/main.ts:1062-1098 | reference definition: the validator loop as a fold of ApplyValidationResult over the validators in order; its meaning is ValidatorsAccumulate |
| Passes.ValidatorResults | src/main.ts:1062-1069 | one result per validator |
| Passes.ValidatorResultsPrefix | src/main.ts:1062-1069 | each validator sees the field as the earlier validators left it |
| Passes.ValidatorsKeepValue | src/main.ts:1062-1098 | validators never change the value, touch, emptiness or loading flag |
| Passes.ValidatorsValidity | src/main.ts:1071-1072 | after the validators the field is valid iff it was valid and every validator returned `true` |
| Passes.ValidatorsErrors | src/main.ts:1074-1095 | the errors are the previous errors followed by all pushed messages, in validator order |
| Passes.ValidatorsErrorsSet | src/main.ts:1075-1090 | errors are non-null iff they were, or some validator pushed |
| Passes.ValidatorsAccumulate | src/main.ts:1062-1098 | the validity, error and unchanged-value facts together |
| Passes.CheckedField | src/main.ts:1043-1056 | value and touch are kept and validity is never gained; a stored temp error becomes the field's errors and makes it invalid; `isLoading` sets the loading flag and a loading field is invalid; without `isLoading` the loading flag is kept; with neither a temp error nor `isLoading` the field is unchanged |
| Passes.ValidateField | src/main.ts:1038-1098 | value and touch are kept. Validity is never gained. A stored temp error makes the field invalid and leads its errors. `isLoading` sets the loading flag, and a loading field is invalid. An empty field runs no validators; a non-empty one is the checked field after every validator of `validations` then `simpleValidations` has run |
| Passes.ValidationPass | src/main.ts:1030-1099 | reference definition: the validation loop as a fold over the config order, each field replaced by ValidateField on the fields the earlier ids left; its meaning is ValidationPassKeeps and ValidationPassOwnTurn |
| Passes.ValidationPassKeeps | src/main.ts:1030-1099 | the validation pass keeps the set of fields and every value/touch flag, and leaves unconfigured fields alone |
| Passes.ValidationPassOwnTurn | src/main.ts:1030-1099 | each configured field is validated once, with its validators seeing the earlier fields already validated |
| Passes.RunValidations | src/main.ts:1062-1098 | the validator loop computes the fold of validator results |
| Passes.ResetUnvisited | src/main.ts:1009-1028 | the reset loop computes the reset pass |
| Passes.CheckFieldState | src/main.ts:1043-1060 | the temp-error and loading steps compute their specification |
| Passes.ValidateFieldState | src/main.ts:1031-1098 | one field's validation computes `ValidateField` |
| Passes.ValidateFields | src/main.ts:1030-1099 | the loop over all fields computes the validation pass |
| Passes.FormValidation | src/main.ts:1003-1100 | reference definition: `performFormValidation`: ResetPass only when a visited set is given, then ValidationPass |
| Passes.PerformFormValidation | src/main.ts:1003-1100 | the reset (only with a visited set), then the validation pass |
| ArrayFields.AddedItems | src/main.ts:735-738 | exactly one item is appended; the rest is unchanged |
| ArrayFields.RemovedItems | src/main.ts:745-749 | equals `Filter` with the other-id test: exactly the items whose id differs, in order and with their repetitions, and none with the id |
| ArrayFields.RemoveAbsentKeeps | src/main.ts:748 | removing an id that no item has keeps the list |
| ArrayFields.ToggledItems | src/main.ts:760-771 | when some item has the id, the result is `Filter` with the other-id test and none has the id; otherwise the value is appended |
| ArrayFields.ToggleTwiceRestores | src/main.ts:760-771 | toggling an item in and then toggling it again restores the list |
| ArrayFields.PatchedItem | src/main.ts:790-794 | an object patch is spread over the item (patch keys win, others kept); any other patch replaces the item |
| ArrayFields.UpdatedItems | src/main.ts:786-796 | the length is kept, every matching item is patched, and every other item is kept |
| ArrayFields.UpdateAbsentKeeps | src/main.ts:789-795 | updating an id that no item has keeps the list |
| ArrayFields.AddItemUpdater | src/main.ts:735-738 | reference definition: the updater `addItem` passes to `handleChange`, AddedItems on the current array; its meaning is AddedItems |
| ArrayFields.RemoveItemUpdater | src/main.ts:745-749 | reference definition: the updater `removeItem` passes to `handleChange`, RemovedItems on the current array; its meaning is RemovedItems and RemoveAbsentKeeps |
| ArrayFields.ToggleItemUpdater | src/main.ts:760-771 | reference definition: the updater `toggleItem` passes to `handleChange`, ToggledItems on the current array; its meaning is ToggledItems and ToggleTwiceRestores |
| ArrayFields.UpdateItemUpdater | src/main.ts:786-796 | reference definition: the updater `updateItem` passes to `handleChange`, UpdatedItems on the current array; its meaning is UpdatedItems and UpdateAbsentKeeps |
| FormSpec.AdvancedFormValidation | src/main.ts:264-279 | an error the callback reports through `setFormError` becomes the form error; without the callback, or when the callback does not call `setFormError` (`None` here), the form error is kept, so a changed form error is always a set error |
| FormSpec.ApplyEntry | src/main.ts:385-434 | reference definition: one iteration of the entry loop: skip an undefined entry, decide the touch, drop a touching entry's temp error, skip an unknown field, else apply the unwrapped setter with FieldAfterValue and record the id |
| FormSpec.ApplyEntries | src/main.ts:384-435 | reference definition: the entry loop as a fold of ApplyEntry over the entries in order; its meaning is ApplyEntriesKeeps, ApplyEntriesChanged, ApplyEntriesTempErrors and ApplyEntriesOwnTurn |
| FormSpec.ApplyEntriesKeeps | src/main.ts:384-435 | the entry loop keeps the set of fields and leaves every field without a defined entry unchanged |
| FormSpec.ApplyEntriesChanged | src/main.ts:425-434 | `errorWasReset` receives exactly the known, configured fields with a defined entry |
| FormSpec.ApplyEntriesTempErrors | src/main.ts:409-411 | exactly the temp errors of entries that touch are dropped; the rest are kept as they were |
| FormSpec.ApplyEntriesOwnTurn | src/main.ts:413-432 | a known field with a defined entry ends as `updateFieldStateFromValue` of the unwrapped setter, with the touch decision as its `isInitialState` |
| FormSpec.ExtraUpdates | src/main.ts:309-328 | reference definition: `performExtraUpdates`: DerivedPass, FormValidation with the visited set, then AdvancedFormValidation |
| FormSpec.ExtraUpdatesKeep | src/main.ts:309-328 | the extra updates keep the fields and never change a touch flag, initial value or diff flag |
| FormSpec.HandleChangeResult | src/main.ts:357-447 | reference definition: `handleChange`: ApplyEntries, a DerivedPass, then ExtraUpdates with the recorded ids; its meaning is HandleChangeKeepsKeys, HandleChangeTouches and HandleChangeKeepsTempErrorsInvalid |
| FormSpec.HandleChangeKeepsKeys | src/main.ts:357-447 | `handleChange` never adds or drops a field |
| FormSpec.HandleChangeTouches | src/main.ts:384-435 | after `handleChange` a field is touched iff it was, or it has a defined entry that does not skip touch |
| FormSpec.HandleChangeSetsValue | src/main.ts:384-447 | after `handleChange`, a field with one defined entry and no derived `required` holds the normalised entry value (an updater applied to its previous value), keeps its initial value, is touched unless the touch is skipped, and, when the value changed, counts as changed exactly when it differs from its initial value |
| FormSpec.HandleChangeToggleTwice | tests/handleChange.test.tsx:55-76 | toggling a touchable boolean field with `prev => !prev` flips it and marks it changed; toggling again restores the value, and the field stays touched but is no longer changed |
| FormSpec.HandleChangeKeepsTempErrorsInvalid | src/main.ts:1043-1048 | after `handleChange` every stored temp error makes its field invalid and leads its errors |
| FormSpec.InitialFieldsFacts | src/main.ts:291-302 | the initial fields are exactly the ids, each as the initial-state path leaves its config's initial state |
| FormSpec.InitialFields | src/main.ts:291-302 | reference definition: the loop of `getInitialState`, each configured id in order taking its config's initial state through the initial-state path; its meaning is InitialFieldsFacts |
| FormSpec.InitialStateUntouched | src/main.ts:283-307 | the initial state has exactly the configured fields, all untouched with their config's initial value, each changed iff normalising altered its initial value |
| FormSpec.InitialStateWellFormed | src/main.ts:283-307 | the initial state keeps the registry invariant: one field state per configured field, in the config's order |
| FormSpec.InitialChecked | src/main.ts:283-307 | reference definition: `getInitialState`, InitialFields followed by ExtraUpdates with no temporary errors, no reset ids and no form error; its meaning is InitialStateWellFormed and InitialStateUntouched |
| FormSpec.ForceIdsAsWrittenTouches | src/main.ts:469-471 | as written, `forceFormUpdate(ids)` skips the touch of no touchable field, listed or not |
| FormSpec.ForceOptionsAsWritten | src/main.ts:469-471 | reference definition: the options `forceFormUpdate` passes as written, `{skipTouch: b}` for a boolean and the argument itself otherwise, so a list of ids carries neither `skipTouch` nor `touchOnly`; its meaning is ForceIdsAsWrittenTouches and the row under "## Findings" |
| FormSpec.ForceOptions | src/main.ts:461-476 | a boolean becomes `{skipTouch: b}`, an options object is passed through, and a list of ids becomes `{skipTouch: ids}` |
| FormSpec.ForceIdsSkipsListed | src/main.ts:461-476 | with the corrected options, `forceFormUpdate(ids)` skips touch exactly for the listed or untouchable fields |
| FormSpec.ForceEntries | src/main.ts:465-468 | one entry per field, in field order, holding the field's current value |
| FormSpec.ForceFormUpdateTouch | src/main.ts:461-476 | `forceFormUpdate(b)` keeps the fields; a field is touched afterwards iff it was, or `b` is false, it is touchable and its value is defined |
| FormSpec.ForceEntriesFacts | src/main.ts:461-476 | the entries `forceFormUpdate` passes to `handleChange` have distinct keys, and the one for a field touches it iff touches are not skipped, the field is touchable and its value is defined |
| ConfigUpdate.ReplacedConfig | src/main.ts:571-584 | a replacing config takes the patch's initial value, metadata, `required ?? false`, `isUntouchable ?? false`, `requiredErrorMsg` (unset when missing), `fieldIsValid` as `validations` (none when missing), `checkIfIsEmpty` and derived `required`, and carries over only `arrayConfig` and `simpleValidations` from the old config |
| ConfigUpdate.MergedConfig | src/main.ts:606-681 | each of `initialValue`, `required`, `requiredErrorMsg`, metadata, `isUntouchable`, `checkIfIsEmpty`, derived `required`, `isLoading`, `fieldIsValid` and `simpleFieldIsValid` overrides when the patch sets it and is kept otherwise; the array config, custom value and reset rule are kept |
| ConfigUpdate.MergedConfigKeepsUnset | src/main.ts:606-681 | a patch that sets no config property, such as `{isTouched: false}`, leaves the config unchanged |
| ConfigUpdate.MergedField | src/main.ts:602-681 | the merge sets `required`, the initial value and the metadata when the patch has them, and keeps errors, validity, emptiness, diff and loading flags |
| ConfigUpdate.MergedFieldTouch | src/main.ts:624-628 | `isTouched` from the patch is ignored for an untouchable field and applied otherwise |
| ConfigUpdate.MergedFieldValue | src/main.ts:630-647 | a patch value is applied unless `updateUntouchedValues` and the field is touched; a merely new initial value is copied into an untouched value under `updateUntouchedValues` |
| ConfigUpdate.RemoveId | src/main.ts:596 | equals `Filter` with the other-than test: exactly the id is removed and the other ids keep their order |
| ConfigUpdate.RemoveIdDistinct | src/main.ts:596 | removing keeps the ids distinct |
| ConfigUpdate.ConfigStep | src/main.ts:551-682 | reference definition: one entry of the `updateConfig` loop: skip an unset entry, delete on `remove`, replace (failing without `initialValue`) or merge; its meaning is ConfigStepValid and ConfigStepKeys |
| ConfigUpdate.ApplyConfigEntries | src/main.ts:551-682 | reference definition: the entry loop as a fold of ConfigStep that stops at the first failure; its meaning is ApplyConfigEntriesValid, ApplyConfigEntriesKeys and ApplyConfigEntriesError |
| ConfigUpdate.ConfigStepValid | src/main.ts:551-681 | one entry of the loop keeps the config and field maps on the same keys |
| ConfigUpdate.ApplyConfigEntriesStaysFailed | src/main.ts:562-569 | once an entry has failed, the loop's result is that failure |
| ConfigUpdate.ApplyConfigEntriesValid | src/main.ts:551-682 | the whole loop keeps config keys equal to field keys |
| ConfigUpdate.ConfigStepKeys | src/main.ts:556-604 | an entry fails iff it replaces without an `initialValue`; otherwise a removal deletes the id, a replacement or known merge keeps or adds it, and other ids are untouched |
| ConfigUpdate.ApplyConfigEntriesKeys | src/main.ts:551-682 | without an error, an id ends up configured iff it was and is not removed, or it is patched |
| ConfigUpdate.ApplyConfigEntriesError | src/main.ts:562-569 | the loop fails iff some entry replaces without an `initialValue` |
| ConfigUpdate.RemoveExcess | src/main.ts:684-694 | reference definition: the excess-removal loop over the fields after the entry loop, deleting each field whose entry is not set; its meaning is RemoveExcessFacts |
| ConfigUpdate.RemoveExcessFacts | src/main.ts:684-694 | excess removal keeps the maps consistent, keeps exactly the fields outside the snapshot or with a set entry, and leaves their configs and records unchanged |
| ConfigUpdate.UpdateConfigResult | src/main.ts:549-696 | reference definition: the registry part of `updateConfig`: ApplyConfigEntries, then RemoveExcess in the removing modes unless the loop failed; its meaning is UpdateConfigFacts |
| ConfigUpdate.UpdateConfigFacts | src/main.ts:549-694 | the maps stay consistent; error iff some entry misses its `initialValue`; under merge unnamed ids stay; under the other modes the ids become exactly the patched ones |
| ConfigUpdate.UntouchAllEntries | src/main.ts:714-718 | one entry per field |
| ConfigUpdate.UntouchAllEntriesKeys | src/main.ts:714-718 | each entry is the field's id with the patch `{isTouched: false}` |
| ConfigUpdate.UntouchedFromStep | src/main.ts:624-628 | one `{isTouched: false}` merge keeps the configs, clears the touch flag unless untouchable and changes nothing else |
| ConfigUpdate.UntouchAllEntriesEffect | src/main.ts:711-723 | the untouch merge never fails and clears the touch flag of every field that is not untouchable |
| FormController.BuildFormConfig | src/main.ts:228-257 | the loop builds one config per initial-config entry, in entry order, with distinct ids |
| FormController.InitialFieldStates | src/main.ts:291-302 | the loop computes the initial fields |
| FormController.PerformExtraUpdates | src/main.ts:309-328 | derived pass, validation, then the advanced form validator |
| FormController.GetInitialState | src/main.ts:283-307 | the initial state, as specified |
| FormController.ApplyChangeEntries | src/main.ts:384-435 | the entry loop computes the specified application of entries |
| FormController.ChangeStep | src/main.ts:357-447 | the entry loop, the derived pass and the extra updates together compute `HandleChangeResult`, which keeps the set of fields |
| FormController.ApplyConfigUpdates | src/main.ts:551-682 | the config loop computes `ApplyConfigEntries`, stopping at the first error |
| FormController.RemoveExcessFields | src/main.ts:684-694 | the excess loop computes `RemoveExcess` |
| FormController.WithTemporaryErrorsFacts | src/main.ts:516-518 | each listed id holds its list as an array and other stored temp errors are kept |
| FormController.WithTemporaryErrors | src/main.ts:516-518 | reference definition: the loop of `setTemporaryError`, each listed id in order storing its error as an array over the stored ones; its meaning is WithTemporaryErrorsFacts |
| FormController.SetTemporaryErrorShows | src/main.ts:514-523 | after `setTemporaryError`, every listed known field keeps its temp error, is invalid, and its errors start with it |
| FormController.TouchFieldTouches | src/main.ts:498-512 | `touchField` touches an untouched field unless it is untouchable or undefined, and no other field's touch changes |
| FormController.UntouchAllClearsTouch | src/main.ts:711-723 | `untouchAll` keeps the ids and the configs, and afterwards a field is touched iff it is untouchable and was touched |
| FormController.ArrayHelperSetsValue | src/main.ts:735-796 | an array helper's change always applies: the value becomes the normalised updater result |
| FormController.Form.constructor | src/main.ts:211-307 | ids and configs from the initial config in order, the initial state, no temp errors, no forced validations |
| FormController.Form.HandleChange | src/main.ts:357-447 | the new fields, temp errors and form error are `HandleChangeResult` of the old state; configs, metadata and counter are unchanged |
| FormController.Form.HandleFieldChange | src/main.ts:376-379 | the single-field form is a one-entry change |
| FormController.Form.TouchField | src/main.ts:498-512 | unknown or touched fields: no change; otherwise re-applies its own value |
| FormController.Form.ForceFormUpdate | src/main.ts:461-476 | re-applies every current value with the corrected options |
| FormController.Form.ForceFormValidation | src/main.ts:478-484 | `validationWasForced` increases by exactly one, then the options or `false` force an update |
| FormController.Form.SetTemporaryError | src/main.ts:514-523 | the loop stores each list, then `forceFormUpdate(true)` |
| FormController.Form.UpdateConfig | src/main.ts:525-709 | the new registry is `UpdateConfigResult`; the metadata is set when given; then `forceFormUpdate(true)`; the counter stays |
| FormController.Form.UpdateRegistry | src/main.ts:549-696 | the config loop and excess removal; temp errors, form error, metadata unchanged |
| FormController.Form.UntouchAll | src/main.ts:711-723 | the new fields, temporary errors and form error are those of `updateConfig` with one `{isTouched: false}` entry per field in order; ids and configs unchanged; a field is touched afterwards iff untouchable and touched before |
| FormController.Form.AddItem | src/main.ts:731-739 | a change applying the append updater |
| FormController.Form.RemoveItem | src/main.ts:740-750 | error iff the field has no `arrayConfig`, with nothing changed; otherwise a change with the remove updater |
| FormController.Form.ToggleItem | src/main.ts:751-772 | error iff no `arrayConfig`, with nothing changed; otherwise a change with the toggle updater |
| FormController.Form.UpdateItem | src/main.ts:773-797 | error iff no `arrayConfig`, with nothing changed; otherwise a change with the update updater |

## Left out

- React and the store: `useConst`, `useCallback`, `useMemo`, `useLatestValue`, `useCreateStore`, `produceState`/`batch`/`setKey`, the typed context and `useFormState`. One transaction is one method call, and subscriber notification and batching are not modelled.
- The scroll in `forceFormValidation` (`setTimeout` and `document.querySelector`) is DOM work. `console.error` is a no-op.
- The global configuration (`setGlobalConfig`) is a constructor parameter. `handleFormError` is modelled as a handler that returns without throwing:
  - `updateConfig` stops its entry loop at a missing `initialValue` and reports the message;
  - the metadata update and the forced update still run after it, as in the code once the handler returns.
- The "field not found" branches of `updateDerivedConfig` and `performFormValidation` cannot be reached while the class invariant holds (config keys equal field keys). They are therefore not modelled.
- `useDynamicForm`, `useFormWithPreTypedValues` and `getFieldConfig` only reshape config objects at the type level. `deepFreeze` and the `typeof` helpers are runtime plumbing.
- Reference identity is not modelled.
  - Utils.KeepPrevIfUnchanged: the kept reference is not observable with value semantics, so only the equal result is stated.
  - The stored temporary error list is aliased into a field's `errors`, and later validator pushes mutate that list. The model uses immutable sequences, so stored temp errors never grow.
- `===` on plain objects is taken as deep equality (`JsValues.Identical`). A fresh object equal to the stored value therefore takes the no-op branch of `updateFieldStateFromValue`, where the code recomputes the field record; for example an `isDiffFromInitial` left stale by a derived reset is refreshed by the code but not by the model. Arrays are never identical, as in the code.
- Numbers are unbounded integers: NaN, infinities and fractions are not modelled, so truthiness and equality of numbers are those of integers.
- Object key order: JavaScript lists integer-like keys first. The model uses the insertion order of `ids` for every key.
- ArrayFields.AsItems: a field value that is not an array is treated as `[]`, where the code would throw on spreading or filtering it.
- ArrayFields.PatchedItem: `SpreadProps` copies only the properties of a plain object, so the index keys of an array or string are lost on both sides of `{ ...item, ...value }`: an array patch contributes nothing, and an array or string item contributes nothing either (for `"ab"` patched with `{x: 1}` the code gives `{0: "a", 1: "b", x: 1}`, the model `{x: 1}`).
- FormController.Form.ForceFormUpdate: a list of ids is taken as the `skipTouch` list (FormSpec.ForceOptions), not passed through as the options object as the code does; the as-written behaviour is FormSpec.ForceOptionsAsWritten, described under "## Findings".
- FormController.Form.UpdateConfig and FormController.Form.UpdateRegistry require distinct keys in the given entries, as a JavaScript object's keys always are.
- The array helpers in the code throw from `invariant` when there is no `arrayConfig`. Here they return that error and change nothing. `addItem` has no check; it spreads a non-array value, which the model does as described for AsItems.
- The code, not the tests, is followed where the two differ: `resetFieldsOnChange`/`resetItselfOnChange` and `autoUpdate` are absent from the code, the option is named `updateUntouchedValues`, empty values still count as a diff, strings are trimmed, null items are filtered, a single-field `undefined` is skipped, and a replacing config takes `untouchable` only from the patch's `isUntouchable` and drops the patch's `isLoading`.

## Findings

| source | as written | input that shows it | evidently intended | confidence | as-written member | corrected member |
|---|---|---|---|---|---|---|
| src/main.ts:469-471 | `forceFormUpdate` passes `skipTouchOrOptions` through as the options when `isObject` holds, and `isObject` is true for arrays, so a list of ids becomes an options object with neither `skipTouch` nor `touchOnly` | `forceFormUpdate(["a"])` on an untouched field `a`: `a` gets touched | a list of ids is the `skipTouch` list (the parameter type `boolean \| string[] \| HandleChangeOptions`), so the listed fields are not touched | not executed | FormSpec.ForceIdsAsWrittenTouches | FormSpec.ForceIdsSkipsListed |
