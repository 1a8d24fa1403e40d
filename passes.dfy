/** src/main.ts, the two passes run after every change: `updateDerivedConfig`
    (recomputes derived `required` flags) and `performFormValidation`
    (resets, then runs the temporary errors, loading checks and validators).
    Both walk `fieldsConfig` in its insertion order, `ids`, and update
    `formState.fields` in place; here the pass returns the new fields map. */
module Passes {
  import opened JsValues
  import opened Arrays
  import opened Utils
  import opened FieldRules

  type Fields = map<string, FieldState>
  type Configs = map<string, FieldConfig>

  predicate Distinct(ids: seq<string>) {
    forall i, j :: 0 <= i < j < |ids| ==> ids[i] != ids[j]
  }

  // ---------------------------------------------------------------------
  // updateDerivedConfig

  predicate HasDerivedRequired(configs: Configs, id: string) {
    id in configs && configs[id].derived.required.Some?
  }

  /** One field's turn in `updateDerivedConfig`, with `fields` the fields as
      they are at that moment. */
  function DeriveField(cfg: FieldConfig, f: FieldState, fields: Fields, formMetadata: Value,
                       defaultRequiredMsg: string): (r: FieldState)
    requires cfg.derived.required.Some?
    ensures r.required == cfg.derived.required.value(fields, formMetadata)
    ensures r.value == (if cfg.derived.resetIfDerivedRequiredChangeToFalse.Some? && f.required && !r.required
                        then cfg.derived.resetIfDerivedRequiredChangeToFalse.value else f.value)
    ensures !r.isValid <==> r.required && r.isEmpty
    ensures r.isEmpty == IsEmptyFor(cfg, r.value)
    ensures r.isTouched ==> r.errors == BasicFieldValidation(cfg.(required := r.required), r.value, defaultRequiredMsg).errors
    ensures !r.isTouched ==> r.errors == f.errors
    ensures r.initialValue == f.initialValue && r.metadata == f.metadata && r.isTouched == f.isTouched
    ensures r.isDiffFromInitial == f.isDiffFromInitial && r.valueIsLoading == f.valueIsLoading
  {
    var newRequired := cfg.derived.required.value(fields, formMetadata);
    var reset := cfg.derived.resetIfDerivedRequiredChangeToFalse;
    var value := if reset.Some? && newRequired != f.required && !newRequired then reset.value else f.value;
    var b := BasicFieldValidation(cfg.(required := newRequired), value, defaultRequiredMsg);
    f.(value := value,
       required := newRequired,
       errors := if b.errors != f.errors && f.isTouched then b.errors else f.errors,
       isValid := b.isValid,
       isEmpty := b.isEmpty)
  }

  /** The fields after `updateDerivedConfig` has walked `ids`. A later field's
      `required` function sees the updates of the earlier ones. */
  function DerivedPass(ids: seq<string>, configs: Configs, fields: Fields, formMetadata: Value,
                       defaultRequiredMsg: string): Fields
    decreases |ids|
  {
    if |ids| == 0 then fields
    else
      var prev := DerivedPass(ids[..|ids| - 1], configs, fields, formMetadata, defaultRequiredMsg);
      var id := ids[|ids| - 1];
      if HasDerivedRequired(configs, id) && id in prev
      then prev[id := DeriveField(configs[id], prev[id], prev, formMetadata, defaultRequiredMsg)]
      else prev
  }

  /** The ids `updateDerivedConfig` adds to `errorWasReset`. */
  function DerivedIds(ids: seq<string>, configs: Configs, fields: Fields): set<string> {
    set id | id in ids && HasDerivedRequired(configs, id) && id in fields
  }

  /** `updateDerivedConfig(errorWasReset, fieldsConfig, formState)`. */
  method UpdateDerivedConfig(errorWasReset: Option<set<string>>, ids: seq<string>, configs: Configs,
                             fields: Fields, formMetadata: Value, defaultRequiredMsg: string)
    returns (newFields: Fields, newReset: Option<set<string>>)
    ensures newFields == DerivedPass(ids, configs, fields, formMetadata, defaultRequiredMsg)
    ensures newReset == if errorWasReset.Some? then Some(errorWasReset.value + DerivedIds(ids, configs, fields)) else None
  {
    newFields := fields;
    newReset := errorWasReset;
    assert DerivedIds(ids[..0], configs, fields) == {};
    var i := 0;
    while i < |ids|
      invariant 0 <= i <= |ids|
      invariant newFields == DerivedPass(ids[..i], configs, fields, formMetadata, defaultRequiredMsg)
      invariant newReset.Some? <==> errorWasReset.Some?
      invariant newReset.Some? ==> newReset.value == errorWasReset.value + DerivedIds(ids[..i], configs, fields)
    {
      var id := ids[i];
      DerivedTurn(ids, configs, fields, formMetadata, defaultRequiredMsg, i);
      if HasDerivedRequired(configs, id) && id in newFields {
        newFields := newFields[id := DeriveField(configs[id], newFields[id], newFields, formMetadata, defaultRequiredMsg)];
        if newReset.Some? {
          newReset := Some(newReset.value + {id});
        }
      }
      i := i + 1;
    }
    assert ids[..|ids|] == ids;
  }

  /** Turn `i` of `updateDerivedConfig`: the pass over one more id, and the
      ids it adds to `errorWasReset`. */
  lemma DerivedTurn(ids: seq<string>, configs: Configs, fields: Fields, formMetadata: Value,
                    defaultRequiredMsg: string, i: nat)
    requires i < |ids|
    ensures var prev := DerivedPass(ids[..i], configs, fields, formMetadata, defaultRequiredMsg);
            && prev.Keys == fields.Keys
            && DerivedPass(ids[..i + 1], configs, fields, formMetadata, defaultRequiredMsg)
               == (if HasDerivedRequired(configs, ids[i]) && ids[i] in prev
                   then prev[ids[i] := DeriveField(configs[ids[i]], prev[ids[i]], prev, formMetadata, defaultRequiredMsg)]
                   else prev)
    ensures DerivedIds(ids[..i + 1], configs, fields) ==
            DerivedIds(ids[..i], configs, fields) + (if HasDerivedRequired(configs, ids[i]) && ids[i] in fields then {ids[i]} else {})
  {
    assert ids[..i + 1][..i] == ids[..i];
    assert ids[..i + 1] == ids[..i] + [ids[i]];
    DerivedPassKeeps(ids[..i], configs, fields, formMetadata, defaultRequiredMsg);
  }

  /** The pass keeps the set of fields, and a field that has no derived
      `required` function, or is not in `ids`, is left as it is. */
  lemma {:induction false} DerivedPassKeeps(ids: seq<string>, configs: Configs, fields: Fields, formMetadata: Value,
                                            defaultRequiredMsg: string)
    ensures DerivedPass(ids, configs, fields, formMetadata, defaultRequiredMsg).Keys == fields.Keys
    ensures forall id :: id in fields && !(id in ids && HasDerivedRequired(configs, id)) ==>
              DerivedPass(ids, configs, fields, formMetadata, defaultRequiredMsg)[id] == fields[id]
    decreases |ids|
  {
    if |ids| > 0 {
      var init := ids[..|ids| - 1];
      DerivedPassKeeps(init, configs, fields, formMetadata, defaultRequiredMsg);
      assert forall id :: id in init ==> id in ids;
    }
  }

  /** The derived pass never changes a field's touch flag, initial value,
      change flag, metadata or loading flag. */
  lemma {:induction false} DerivedPassKeepsTouch(ids: seq<string>, configs: Configs, fields: Fields, formMetadata: Value,
                                                 defaultRequiredMsg: string)
    ensures DerivedPass(ids, configs, fields, formMetadata, defaultRequiredMsg).Keys == fields.Keys
    ensures var r := DerivedPass(ids, configs, fields, formMetadata, defaultRequiredMsg);
            forall id :: id in fields ==>
              && r[id].isTouched == fields[id].isTouched && r[id].initialValue == fields[id].initialValue
              && r[id].isDiffFromInitial == fields[id].isDiffFromInitial
              && r[id].metadata == fields[id].metadata && r[id].valueIsLoading == fields[id].valueIsLoading
    decreases |ids|
  {
    if |ids| > 0 {
      var init := ids[..|ids| - 1];
      DerivedPassKeepsTouch(init, configs, fields, formMetadata, defaultRequiredMsg);
      var prev := DerivedPass(init, configs, fields, formMetadata, defaultRequiredMsg);
      var id := ids[|ids| - 1];
      var r := DerivedPass(ids, configs, fields, formMetadata, defaultRequiredMsg);
      if HasDerivedRequired(configs, id) && id in prev {
        var d := DeriveField(configs[id], prev[id], prev, formMetadata, defaultRequiredMsg);
        assert r == prev[id := d];
      } else {
        assert r == prev;
      }
    }
  }

  /** The turn of the last id, when it does not occur earlier. */
  lemma DerivedPassLastTurn(ids: seq<string>, configs: Configs, fields: Fields,
                            formMetadata: Value, defaultRequiredMsg: string)
    requires |ids| > 0 && ids[|ids| - 1] in fields && HasDerivedRequired(configs, ids[|ids| - 1])
    requires ids[|ids| - 1] !in ids[..|ids| - 1]
    ensures ids[|ids| - 1] in DerivedPass(ids, configs, fields, formMetadata, defaultRequiredMsg)
    ensures var init := DerivedPass(ids[..|ids| - 1], configs, fields, formMetadata, defaultRequiredMsg);
            DerivedPass(ids, configs, fields, formMetadata, defaultRequiredMsg)[ids[|ids| - 1]]
              == DeriveField(configs[ids[|ids| - 1]], fields[ids[|ids| - 1]], init, formMetadata, defaultRequiredMsg)
  {
    DerivedPassKeeps(ids[..|ids| - 1], configs, fields, formMetadata, defaultRequiredMsg);
  }

  /** The last turn leaves every other key as the earlier turns left it. */
  lemma DerivedPassOtherKey(ids: seq<string>, configs: Configs, fields: Fields, formMetadata: Value,
                            defaultRequiredMsg: string, x: string)
    requires |ids| > 0 && x != ids[|ids| - 1]
    ensures var prev := DerivedPass(ids[..|ids| - 1], configs, fields, formMetadata, defaultRequiredMsg);
            var r := DerivedPass(ids, configs, fields, formMetadata, defaultRequiredMsg);
            (x in r <==> x in prev) && (x in prev ==> r[x] == prev[x])
  {
    var prev := DerivedPass(ids[..|ids| - 1], configs, fields, formMetadata, defaultRequiredMsg);
    var last := ids[|ids| - 1];
    if HasDerivedRequired(configs, last) && last in prev {
      var d := DeriveField(configs[last], prev[last], prev, formMetadata, defaultRequiredMsg);
      assert DerivedPass(ids, configs, fields, formMetadata, defaultRequiredMsg) == prev[last := d];
    }
  }

  /** A field that is in `ids` once is the result of its own turn, taken on
      the fields as the earlier turns left them. */
  lemma {:induction false} DerivedPassOwnTurn(ids: seq<string>, k: nat, configs: Configs, fields: Fields,
                                              formMetadata: Value, defaultRequiredMsg: string)
    requires k < |ids| && ids[k] in fields && HasDerivedRequired(configs, ids[k])
    requires forall j :: 0 <= j < |ids| && j != k ==> ids[j] != ids[k]
    ensures ids[k] in DerivedPass(ids, configs, fields, formMetadata, defaultRequiredMsg)
    ensures DerivedPass(ids, configs, fields, formMetadata, defaultRequiredMsg)[ids[k]]
              == DeriveField(configs[ids[k]], fields[ids[k]],
                             DerivedPass(ids[..k], configs, fields, formMetadata, defaultRequiredMsg),
                             formMetadata, defaultRequiredMsg)
    decreases |ids|
  {
    var n := |ids| - 1;
    var init := ids[..n];
    if k == n {
      assert ids[k] !in init by {
        forall j | 0 <= j < n ensures init[j] != ids[k] { assert init[j] == ids[j]; }
      }
      DerivedPassLastTurn(ids, configs, fields, formMetadata, defaultRequiredMsg);
    } else {
      assert init[..k] == ids[..k];
      assert init[k] == ids[k];
      assert forall j :: 0 <= j < n && j != k ==> init[j] == ids[j];
      DerivedPassOwnTurn(init, k, configs, fields, formMetadata, defaultRequiredMsg);
      DerivedPassOtherKey(ids, configs, fields, formMetadata, defaultRequiredMsg, ids[k]);
    }
  }

  // ---------------------------------------------------------------------
  // performFormValidation: the reset of fields the derived pass did not visit

  /** The reset `performFormValidation` applies to a field whose id is not in
      `errorWasReset`: errors are recomputed by the required check only when
      the field shows errors, and validity follows the field's own
      `required` flag. */
  function ResetField(cfg: FieldConfig, f: FieldState, defaultRequiredMsg: string): (r: FieldState)
    ensures r.errors.Some? ==> f.errors.Some?
    ensures f.errors.Some? ==> r.errors == BasicFieldValidation(cfg, f.value, defaultRequiredMsg).errors
    ensures r.isValid <==> !(f.required && f.isEmpty)
    ensures r == f.(errors := r.errors, isValid := r.isValid)
  {
    f.(errors := if f.errors.Some?
                 then KeepPrevIfUnchanged(BasicFieldValidation(cfg, f.value, defaultRequiredMsg).errors, f.errors)
                 else None,
       isValid := if f.required then !f.isEmpty else true)
  }

  predicate ResetApplies(configs: Configs, visited: set<string>, id: string) {
    id in configs && id !in visited
  }

  /** The fields after the reset loop over `ids`. */
  function ResetPass(ids: seq<string>, configs: Configs, fields: Fields, visited: set<string>,
                     defaultRequiredMsg: string): Fields
    decreases |ids|
  {
    if |ids| == 0 then fields
    else
      var prev := ResetPass(ids[..|ids| - 1], configs, fields, visited, defaultRequiredMsg);
      var id := ids[|ids| - 1];
      if ResetApplies(configs, visited, id) && id in prev
      then prev[id := ResetField(configs[id], prev[id], defaultRequiredMsg)]
      else prev
  }

  /** The reset keeps the set of fields, and changes no field's value, touch
      or loading flag. */
  lemma {:induction false} ResetPassKeeps(ids: seq<string>, configs: Configs, fields: Fields, visited: set<string>,
                                          defaultRequiredMsg: string)
    ensures ResetPass(ids, configs, fields, visited, defaultRequiredMsg).Keys == fields.Keys
    ensures var r := ResetPass(ids, configs, fields, visited, defaultRequiredMsg);
            forall id :: id in fields ==> SameValueAndTouch(fields[id], r[id]) && r[id].valueIsLoading == fields[id].valueIsLoading
    decreases |ids|
  {
    if |ids| > 0 {
      ResetPassKeeps(ids[..|ids| - 1], configs, fields, visited, defaultRequiredMsg);
    }
  }

  /** With distinct ids the reset is independent per field: each field of
      `ids` outside `visited` is reset once, every other field is kept. */
  lemma {:induction false} ResetPassFacts(ids: seq<string>, configs: Configs, fields: Fields, visited: set<string>,
                                          defaultRequiredMsg: string)
    requires Distinct(ids)
    ensures ResetPass(ids, configs, fields, visited, defaultRequiredMsg).Keys == fields.Keys
    ensures forall id :: id in fields ==>
              ResetPass(ids, configs, fields, visited, defaultRequiredMsg)[id] ==
                (if id in ids && ResetApplies(configs, visited, id)
                 then ResetField(configs[id], fields[id], defaultRequiredMsg) else fields[id])
    decreases |ids|
  {
    if |ids| > 0 {
      var n := |ids| - 1;
      var init := ids[..n];
      assert Distinct(init) by {
        forall i, j | 0 <= i < j < n ensures init[i] != init[j] { assert init[i] == ids[i] && init[j] == ids[j]; }
      }
      ResetPassFacts(init, configs, fields, visited, defaultRequiredMsg);
      assert ids[n] !in init by {
        forall j | 0 <= j < n ensures init[j] != ids[n] { assert init[j] == ids[j]; }
      }
      forall id | id in fields ensures id in ids <==> id in init || id == ids[n] {
        if id in ids {
          var j :| 0 <= j < |ids| && ids[j] == id;
          if j < n { assert init[j] == id; }
        }
      }
    }
  }

  // ---------------------------------------------------------------------
  // performFormValidation: validators

  function OrEmpty(errors: Option<seq<string>>): seq<string> {
    if errors.Some? then errors.value else []
  }

  /** Whether a validator result pushes messages onto the field's errors. */
  predicate Pushes(res: ValidationResult, isTouched: bool) {
    res.Msg? || res.Msgs? || (res.SilentIfNotTouched? && isTouched)
  }

  /** The messages a pushing result appends. */
  function PushedMessages(res: ValidationResult): seq<string> {
    match res
    case Msg(m) => [m]
    case Msgs(ms) => ms
    case SilentIfNotTouched(s) => SingleOrMultipleToArray(s)
    case _ => []
  }

  /** Everything `performFormValidation` may change on a field is its errors,
      its validity and its loading flag. */
  predicate SameValueAndTouch(a: FieldState, b: FieldState) {
    && a.value == b.value && a.initialValue == b.initialValue && a.metadata == b.metadata
    && a.required == b.required && a.isTouched == b.isTouched
    && a.isDiffFromInitial == b.isDiffFromInitial && a.isEmpty == b.isEmpty
  }

  /** The effect of one validator result on the field. */
  function ApplyValidationResult(f: FieldState, res: ValidationResult): (r: FieldState)
    ensures res.Valid? ==> r == f
    ensures !res.Valid? ==> !r.isValid
    ensures Pushes(res, f.isTouched) ==> r.errors == Some(OrEmpty(f.errors) + PushedMessages(res))
    ensures !Pushes(res, f.isTouched) ==> r.errors == f.errors
    ensures SameValueAndTouch(f, r) && r.valueIsLoading == f.valueIsLoading
  {
    if res.Valid? then f
    else if Pushes(res, f.isTouched) then f.(isValid := false, errors := Some(OrEmpty(f.errors) + PushedMessages(res)))
    else f.(isValid := false)
  }

  /** The argument of a validator of field `id`; `fields` holds the field's
      current record under `id`. */
  function ContextFor(f: FieldState, id: string, fields: Fields, formMetadata: Value): ValidatorContext {
    ValidatorContext(f.value, f.metadata, fields[id := f], formMetadata, id)
  }

  /** The field after the validators `vs` ran in order. */
  function RunValidators(vs: seq<Validator>, id: string, f: FieldState, fields: Fields, formMetadata: Value): FieldState
    decreases |vs|
  {
    if |vs| == 0 then f
    else
      var prev := RunValidators(vs[..|vs| - 1], id, f, fields, formMetadata);
      ApplyValidationResult(prev, vs[|vs| - 1](ContextFor(prev, id, fields, formMetadata)))
  }

  /** What each of the validators `vs` returned. */
  function ValidatorResults(vs: seq<Validator>, id: string, f: FieldState, fields: Fields, formMetadata: Value)
    : (rs: seq<ValidationResult>)
    ensures |rs| == |vs|
  {
    seq(|vs|, k requires 0 <= k < |vs| => vs[k](ContextFor(RunValidators(vs[..k], id, f, fields, formMetadata), id, fields, formMetadata)))
  }

  /** The messages the results push, in order. */
  function AllPushed(results: seq<ValidationResult>, isTouched: bool): seq<string>
    decreases |results|
  {
    if |results| == 0 then []
    else
      AllPushed(results[..|results| - 1], isTouched)
        + (if Pushes(results[|results| - 1], isTouched) then PushedMessages(results[|results| - 1]) else [])
  }

  /** The results of a prefix of the validators are a prefix of the results. */
  lemma ValidatorResultsPrefix(vs: seq<Validator>, id: string, f: FieldState, fields: Fields, formMetadata: Value)
    requires |vs| > 0
    ensures var n := |vs| - 1;
            var rs := ValidatorResults(vs, id, f, fields, formMetadata);
            && rs[..n] == ValidatorResults(vs[..n], id, f, fields, formMetadata)
            && rs[n] == vs[n](ContextFor(RunValidators(vs[..n], id, f, fields, formMetadata), id, fields, formMetadata))
  {
    var n := |vs| - 1;
    var init := vs[..n];
    var rs := ValidatorResults(vs, id, f, fields, formMetadata);
    var rsInit := ValidatorResults(init, id, f, fields, formMetadata);
    forall k | 0 <= k < n ensures rs[k] == rsInit[k] {
      assert init[..k] == vs[..k];
      assert init[k] == vs[k];
    }
  }

  lemma {:induction false} ValidatorsKeepValue(vs: seq<Validator>, id: string, f: FieldState, fields: Fields, formMetadata: Value)
    ensures var r := RunValidators(vs, id, f, fields, formMetadata);
            SameValueAndTouch(f, r) && r.valueIsLoading == f.valueIsLoading
    decreases |vs|
  {
    if |vs| > 0 {
      ValidatorsKeepValue(vs[..|vs| - 1], id, f, fields, formMetadata);
    }
  }

  lemma {:induction false} ValidatorsValidity(vs: seq<Validator>, id: string, f: FieldState, fields: Fields, formMetadata: Value)
    ensures var r := RunValidators(vs, id, f, fields, formMetadata);
            var rs := ValidatorResults(vs, id, f, fields, formMetadata);
            r.isValid <==> f.isValid && forall k :: 0 <= k < |vs| ==> rs[k].Valid?
    decreases |vs|
  {
    if |vs| > 0 {
      var n := |vs| - 1;
      ValidatorsValidity(vs[..n], id, f, fields, formMetadata);
      ValidatorResultsPrefix(vs, id, f, fields, formMetadata);
      var rs := ValidatorResults(vs, id, f, fields, formMetadata);
      assert forall k :: 0 <= k < n ==> rs[k] == rs[..n][k];
    }
  }

  lemma {:induction false} ValidatorsErrors(vs: seq<Validator>, id: string, f: FieldState, fields: Fields, formMetadata: Value)
    ensures var r := RunValidators(vs, id, f, fields, formMetadata);
            var rs := ValidatorResults(vs, id, f, fields, formMetadata);
            OrEmpty(r.errors) == OrEmpty(f.errors) + AllPushed(rs, f.isTouched)
    decreases |vs|
  {
    if |vs| > 0 {
      var n := |vs| - 1;
      ValidatorsErrors(vs[..n], id, f, fields, formMetadata);
      ValidatorsKeepValue(vs[..n], id, f, fields, formMetadata);
      ValidatorResultsPrefix(vs, id, f, fields, formMetadata);
      var prev := RunValidators(vs[..n], id, f, fields, formMetadata);
      var rs := ValidatorResults(vs, id, f, fields, formMetadata);
      var tail := if Pushes(rs[n], f.isTouched) then PushedMessages(rs[n]) else [];
      assert RunValidators(vs, id, f, fields, formMetadata) == ApplyValidationResult(prev, rs[n]);
      assert OrEmpty(ApplyValidationResult(prev, rs[n]).errors) == OrEmpty(prev.errors) + tail;
      assert AllPushed(rs, f.isTouched) == AllPushed(rs[..n], f.isTouched) + tail;
      assert OrEmpty(prev.errors) == OrEmpty(f.errors) + AllPushed(rs[..n], f.isTouched);
    }
  }

  lemma {:induction false} ValidatorsErrorsSet(vs: seq<Validator>, id: string, f: FieldState, fields: Fields, formMetadata: Value)
    ensures var r := RunValidators(vs, id, f, fields, formMetadata);
            var rs := ValidatorResults(vs, id, f, fields, formMetadata);
            r.errors.Some? <==> f.errors.Some? || exists k :: 0 <= k < |vs| && Pushes(rs[k], f.isTouched)
    decreases |vs|
  {
    if |vs| > 0 {
      var n := |vs| - 1;
      ValidatorsErrorsSet(vs[..n], id, f, fields, formMetadata);
      ValidatorsKeepValue(vs[..n], id, f, fields, formMetadata);
      ValidatorResultsPrefix(vs, id, f, fields, formMetadata);
      var rs := ValidatorResults(vs, id, f, fields, formMetadata);
      assert forall k :: 0 <= k < n ==> rs[k] == rs[..n][k];
    }
  }

  /** Validators do not stop at the first failure: the messages of all of
      them are appended to the field's errors in order, the field is valid
      only if it was and every validator returned `true`, and nothing but
      errors and validity changes. */
  lemma ValidatorsAccumulate(vs: seq<Validator>, id: string, f: FieldState, fields: Fields, formMetadata: Value)
    ensures var r := RunValidators(vs, id, f, fields, formMetadata);
            SameValueAndTouch(f, r) && r.valueIsLoading == f.valueIsLoading
    ensures var r := RunValidators(vs, id, f, fields, formMetadata);
            var rs := ValidatorResults(vs, id, f, fields, formMetadata);
            r.isValid <==> f.isValid && forall k :: 0 <= k < |vs| ==> rs[k].Valid?
    ensures var r := RunValidators(vs, id, f, fields, formMetadata);
            var rs := ValidatorResults(vs, id, f, fields, formMetadata);
            && OrEmpty(r.errors) == OrEmpty(f.errors) + AllPushed(rs, f.isTouched)
            && (r.errors.Some? <==> f.errors.Some? || exists k :: 0 <= k < |vs| && Pushes(rs[k], f.isTouched))
  {
    ValidatorsKeepValue(vs, id, f, fields, formMetadata);
    ValidatorsValidity(vs, id, f, fields, formMetadata);
    ValidatorsErrors(vs, id, f, fields, formMetadata);
    ValidatorsErrorsSet(vs, id, f, fields, formMetadata);
  }

  // ---------------------------------------------------------------------
  // performFormValidation: one field's turn and the whole pass

  /** `[...singleOrMultipleToArray(validations), ...singleOrMultipleToArray(simpleValidations)]`. */
  function Validations(cfg: FieldConfig): seq<Validator> {
    SingleOrMultipleToArray(cfg.validations) + SingleOrMultipleToArray(cfg.simpleValidations)
  }

  /** The field after the temporary error and the loading check. */
  function CheckedField(cfg: FieldConfig, id: string, f: FieldState, tempErrors: map<string, seq<string>>): (c: FieldState)
    ensures SameValueAndTouch(f, c)
    ensures c.isValid ==> f.isValid
    ensures id in tempErrors ==> !c.isValid && c.errors == Some(tempErrors[id])
    ensures cfg.derived.isLoading.Some? ==>
              c.valueIsLoading == cfg.derived.isLoading.value(f.value) && (c.valueIsLoading ==> !c.isValid)
    ensures cfg.derived.isLoading.None? ==> c.valueIsLoading == f.valueIsLoading
    ensures id !in tempErrors && cfg.derived.isLoading.None? ==> c == f
  {
    var f1 := if id in tempErrors then f.(errors := Some(tempErrors[id]), isValid := false) else f;
    if cfg.derived.isLoading.Some? then
      var isLoading := cfg.derived.isLoading.value(f1.value);
      f1.(valueIsLoading := isLoading, isValid := if isLoading then false else f1.isValid)
    else f1
  }

  /** One field's turn in the validation loop. */
  function ValidateField(cfg: FieldConfig, id: string, f: FieldState, fields: Fields,
                         tempErrors: map<string, seq<string>>, formMetadata: Value): (r: FieldState)
    ensures SameValueAndTouch(f, r)
    ensures r.isValid ==> f.isValid
    ensures id in tempErrors ==> !r.isValid && r.errors.Some? && tempErrors[id] <= r.errors.value
    ensures cfg.derived.isLoading.Some? ==>
              r.valueIsLoading == cfg.derived.isLoading.value(f.value) && (r.valueIsLoading ==> !r.isValid)
    ensures cfg.derived.isLoading.None? ==> r.valueIsLoading == f.valueIsLoading
    ensures f.isEmpty ==> r == CheckedField(cfg, id, f, tempErrors)
    ensures !f.isEmpty ==> r == RunValidators(Validations(cfg), id, CheckedField(cfg, id, f, tempErrors), fields, formMetadata)
  {
    var checked := CheckedField(cfg, id, f, tempErrors);
    if checked.isEmpty then checked
    else
      ValidatorsAccumulate(Validations(cfg), id, checked, fields, formMetadata);
      RunValidators(Validations(cfg), id, checked, fields, formMetadata)
  }

  /** The fields after the validation loop over `ids`. */
  function ValidationPass(ids: seq<string>, configs: Configs, fields: Fields,
                          tempErrors: map<string, seq<string>>, formMetadata: Value): Fields
    decreases |ids|
  {
    if |ids| == 0 then fields
    else
      var prev := ValidationPass(ids[..|ids| - 1], configs, fields, tempErrors, formMetadata);
      var id := ids[|ids| - 1];
      if id in configs && id in prev
      then prev[id := ValidateField(configs[id], id, prev[id], prev, tempErrors, formMetadata)]
      else prev
  }

  /** `performFormValidation(errorWasReset, fieldsConfig, formState, tempErrors)`. */
  function FormValidation(errorWasReset: Option<set<string>>, ids: seq<string>, configs: Configs, fields: Fields,
                          tempErrors: map<string, seq<string>>, formMetadata: Value, defaultRequiredMsg: string): Fields
  {
    var reset := if errorWasReset.Some? then ResetPass(ids, configs, fields, errorWasReset.value, defaultRequiredMsg) else fields;
    ValidationPass(ids, configs, reset, tempErrors, formMetadata)
  }

  /** The validation loop keeps the set of fields and never changes a value,
      a touch flag or an emptiness flag; a field that has no config, or is
      not in `ids`, is left as it is. */
  lemma {:induction false} ValidationPassKeeps(ids: seq<string>, configs: Configs, fields: Fields,
                                               tempErrors: map<string, seq<string>>, formMetadata: Value)
    ensures ValidationPass(ids, configs, fields, tempErrors, formMetadata).Keys == fields.Keys
    ensures forall id :: id in fields ==>
              SameValueAndTouch(fields[id], ValidationPass(ids, configs, fields, tempErrors, formMetadata)[id])
    ensures forall id :: id in fields && !(id in ids && id in configs) ==>
              ValidationPass(ids, configs, fields, tempErrors, formMetadata)[id] == fields[id]
    decreases |ids|
  {
    if |ids| > 0 {
      var init := ids[..|ids| - 1];
      ValidationPassKeeps(init, configs, fields, tempErrors, formMetadata);
      assert forall id :: id in init ==> id in ids;
    }
  }

  /** The turn of the last id, when it does not occur earlier. */
  lemma ValidationPassLastTurn(ids: seq<string>, configs: Configs, fields: Fields,
                               tempErrors: map<string, seq<string>>, formMetadata: Value)
    requires |ids| > 0 && ids[|ids| - 1] in fields && ids[|ids| - 1] in configs
    requires ids[|ids| - 1] !in ids[..|ids| - 1]
    ensures ids[|ids| - 1] in ValidationPass(ids, configs, fields, tempErrors, formMetadata)
    ensures var init := ValidationPass(ids[..|ids| - 1], configs, fields, tempErrors, formMetadata);
            ValidationPass(ids, configs, fields, tempErrors, formMetadata)[ids[|ids| - 1]]
              == ValidateField(configs[ids[|ids| - 1]], ids[|ids| - 1], fields[ids[|ids| - 1]], init, tempErrors, formMetadata)
  {
    ValidationPassKeeps(ids[..|ids| - 1], configs, fields, tempErrors, formMetadata);
  }

  /** A field that is in `ids` once is the result of its own turn, taken on
      the fields as the earlier turns left them. */
  lemma {:induction false} ValidationPassOwnTurn(ids: seq<string>, k: nat, configs: Configs, fields: Fields,
                                                 tempErrors: map<string, seq<string>>, formMetadata: Value)
    requires k < |ids| && ids[k] in fields && ids[k] in configs
    requires forall j :: 0 <= j < |ids| && j != k ==> ids[j] != ids[k]
    ensures ids[k] in ValidationPass(ids, configs, fields, tempErrors, formMetadata)
    ensures ValidationPass(ids, configs, fields, tempErrors, formMetadata)[ids[k]]
              == ValidateField(configs[ids[k]], ids[k], fields[ids[k]],
                               ValidationPass(ids[..k], configs, fields, tempErrors, formMetadata),
                               tempErrors, formMetadata)
    decreases |ids|
  {
    var n := |ids| - 1;
    var init := ids[..n];
    if k == n {
      assert ids[k] !in init by {
        forall j | 0 <= j < n ensures init[j] != ids[k] { assert init[j] == ids[j]; }
      }
      ValidationPassLastTurn(ids, configs, fields, tempErrors, formMetadata);
    } else {
      assert init[..k] == ids[..k];
      assert init[k] == ids[k];
      assert forall j :: 0 <= j < n && j != k ==> init[j] == ids[j];
      ValidationPassOwnTurn(init, k, configs, fields, tempErrors, formMetadata);
      assert ids[n] != ids[k];
    }
  }

  /** The inner `for (const validation of validations)` loop. */
  method RunValidations(vs: seq<Validator>, id: string, f: FieldState, fields: Fields, formMetadata: Value)
    returns (r: FieldState)
    ensures r == RunValidators(vs, id, f, fields, formMetadata)
  {
    r := f;
    var i := 0;
    while i < |vs|
      invariant 0 <= i <= |vs|
      invariant r == RunValidators(vs[..i], id, f, fields, formMetadata)
    {
      assert vs[..i + 1][..i] == vs[..i];
      var result := vs[i](ContextFor(r, id, fields, formMetadata));
      r := ApplyValidationResult(r, result);
      i := i + 1;
    }
    assert vs[..|vs|] == vs;
  }

  /** The first loop of `performFormValidation`. */
  method ResetUnvisited(ids: seq<string>, configs: Configs, fields: Fields, errorWasReset: set<string>,
                        defaultRequiredMsg: string)
    returns (newFields: Fields)
    ensures newFields == ResetPass(ids, configs, fields, errorWasReset, defaultRequiredMsg)
  {
    newFields := fields;
    var i := 0;
    while i < |ids|
      invariant 0 <= i <= |ids|
      invariant newFields == ResetPass(ids[..i], configs, fields, errorWasReset, defaultRequiredMsg)
    {
      assert ids[..i + 1][..i] == ids[..i];
      var id := ids[i];
      if id in configs && id in newFields && id !in errorWasReset {
        newFields := newFields[id := ResetField(configs[id], newFields[id], defaultRequiredMsg)];
      }
      i := i + 1;
    }
    assert ids[..|ids|] == ids;
  }

  /** The temporary error and the loading check of one field's turn. */
  method CheckFieldState(cfg: FieldConfig, id: string, f: FieldState, tempErrors: map<string, seq<string>>)
    returns (fieldState: FieldState)
    ensures fieldState == CheckedField(cfg, id, f, tempErrors)
  {
    fieldState := f;
    if id in tempErrors {
      fieldState := fieldState.(errors := Some(tempErrors[id]), isValid := false);
    }
    if cfg.derived.isLoading.Some? {
      var isLoading := cfg.derived.isLoading.value(fieldState.value);
      fieldState := fieldState.(valueIsLoading := isLoading);
      if isLoading {
        fieldState := fieldState.(isValid := false);
      }
    }
  }

  /** One field's turn in the second loop: the temporary error, the loading
      check, and the validators unless the field is empty. */
  method ValidateFieldState(cfg: FieldConfig, id: string, f: FieldState, fields: Fields,
                            tempErrors: map<string, seq<string>>, formMetadata: Value)
    returns (fieldState: FieldState)
    ensures fieldState == ValidateField(cfg, id, f, fields, tempErrors, formMetadata)
  {
    fieldState := CheckFieldState(cfg, id, f, tempErrors);
    if !fieldState.isEmpty {
      fieldState := RunValidations(Validations(cfg), id, fieldState, fields, formMetadata);
    }
  }

  /** The second loop of `performFormValidation`. */
  method ValidateFields(ids: seq<string>, configs: Configs, fields: Fields,
                        tempErrors: map<string, seq<string>>, formMetadata: Value)
    returns (newFields: Fields)
    ensures newFields == ValidationPass(ids, configs, fields, tempErrors, formMetadata)
  {
    newFields := fields;
    var i := 0;
    while i < |ids|
      invariant 0 <= i <= |ids|
      invariant newFields == ValidationPass(ids[..i], configs, fields, tempErrors, formMetadata)
    {
      assert ids[..i + 1][..i] == ids[..i];
      var id := ids[i];
      if id in configs && id in newFields {
        var fieldState := ValidateFieldState(configs[id], id, newFields[id], newFields, tempErrors, formMetadata);
        newFields := newFields[id := fieldState];
      }
      i := i + 1;
    }
    assert ids[..|ids|] == ids;
  }

  /** `performFormValidation(errorWasReset, fieldsConfig, formState, tempErrors)`. */
  method PerformFormValidation(errorWasReset: Option<set<string>>, ids: seq<string>, configs: Configs, fields: Fields,
                               tempErrors: map<string, seq<string>>, formMetadata: Value, defaultRequiredMsg: string)
    returns (newFields: Fields)
    ensures newFields == FormValidation(errorWasReset, ids, configs, fields, tempErrors, formMetadata, defaultRequiredMsg)
  {
    newFields := fields;
    if errorWasReset.Some? {
      newFields := ResetUnvisited(ids, configs, fields, errorWasReset.value, defaultRequiredMsg);
    }
    newFields := ValidateFields(ids, configs, newFields, tempErrors, formMetadata);
  }
}
