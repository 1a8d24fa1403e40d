/** src/main.ts, the per-field rules: the field configuration and state
    records, emptiness, value normalisation, the required check, the initial
    state of a field, the application of one value to one field, the touch
    decision of `handleChange`, and the aggregate selector. */
module FieldRules {
  import opened JsValues
  import opened Arrays
  import opened Utils

  /** `requiredErrorMsg?: string | false`: unset, disabled (`false`) or a text. */
  datatype RequiredErrorMsg = MsgUnset | MsgDisabled | MsgText(text: string)

  /** `FieldState` (src/main.ts:122-133). */
  datatype FieldState = FieldState(
    value: Value,
    initialValue: Value,
    metadata: Value,
    required: bool,
    isValid: bool,
    errors: Option<seq<string>>,
    isTouched: bool,
    isDiffFromInitial: bool,
    isEmpty: bool,
    valueIsLoading: bool)

  /** The argument a field validator receives. */
  datatype ValidatorContext = ValidatorContext(
    value: Value,
    fieldMetadata: Value,
    fields: map<string, FieldState>,
    formMetadata: Value,
    fieldId: string)

  /** What a validator returns: `true`, a string, a string array,
      `{silentInvalid: true}`, `{silentIfNotTouched: msg}`, or any other
      object (such as `{valueIsLoading: true}`). */
  datatype ValidationResult =
    | Valid
    | Msg(msg: string)
    | Msgs(msgs: seq<string>)
    | SilentInvalid
    | SilentIfNotTouched(silent: SingleOrMultiple<string>)
    | OtherInvalid

  type Validator = ValidatorContext -> ValidationResult

  /** `derived.required`: computed from all field states and the form metadata. */
  type RequiredFn = (map<string, FieldState>, Value) -> bool

  /** `FieldDerivedConfig` (src/main.ts:58-63); `None` is an unset hook. */
  datatype DerivedConfig = DerivedConfig(
    checkIfIsEmpty: Option<Value -> bool>,
    required: Option<RequiredFn>,
    resetIfDerivedRequiredChangeToFalse: Option<Value>,
    isLoading: Option<Value -> bool>)

  const NoDerivedConfig: DerivedConfig := DerivedConfig(None, None, None, None)

  /** The internal `FieldConfig` (src/main.ts:96-109). `advancedCustomValue`
      is `Undefined` when unset; `arrayConfig` holds `getItemId`. */
  datatype FieldConfig = FieldConfig(
    initialValue: Value,
    required: bool,
    requiredErrorMsg: RequiredErrorMsg,
    metadata: Value,
    untouchable: bool,
    advancedCustomValue: Value,
    derived: DerivedConfig,
    validations: SingleOrMultiple<Validator>,
    simpleValidations: SingleOrMultiple<Validator>,
    arrayConfig: Option<Value -> string>)

  /** The declarative `FieldInitialConfig` (src/main.ts:43-56). */
  datatype FieldInitialConfig = FieldInitialConfig(
    initialValue: Value,
    required: bool,
    metadata: Value,
    requiredErrorMsg: RequiredErrorMsg,
    untouchable: bool,
    advancedCustomValue: Value,
    validation: SingleOrMultiple<Validator>,
    isEmpty: Option<Value -> bool>,
    isLoading: Option<Value -> bool>)

  /** How `useForm` merges the four declarative option objects into one
      field's config: the `_isEmpty`/`_isLoading` hooks of the field take
      precedence over the derived config's, the rest is copied. */
  function BuildFieldConfig(init: FieldInitialConfig, derived: Option<DerivedConfig>,
                            validations: SingleOrMultiple<Validator>,
                            arrayConfig: Option<Value -> string>): (c: FieldConfig)
    ensures c.initialValue == init.initialValue && c.metadata == init.metadata
    ensures init.isEmpty.Some? ==> c.derived.checkIfIsEmpty == init.isEmpty
    ensures init.isEmpty.None? && derived.Some? ==> c.derived.checkIfIsEmpty == derived.value.checkIfIsEmpty
    ensures init.isLoading.Some? ==> c.derived.isLoading == init.isLoading
    ensures init.isLoading.None? && derived.Some? ==> c.derived.isLoading == derived.value.isLoading
    ensures derived.None? ==> c.derived.required.None? && c.derived.resetIfDerivedRequiredChangeToFalse.None?
    ensures derived.Some? ==> c.derived.required == derived.value.required
                              && c.derived.resetIfDerivedRequiredChangeToFalse == derived.value.resetIfDerivedRequiredChangeToFalse
    ensures c.required == init.required && c.requiredErrorMsg == init.requiredErrorMsg
    ensures c.untouchable == init.untouchable && c.advancedCustomValue == init.advancedCustomValue
    ensures c.validations == validations && c.simpleValidations == init.validation && c.arrayConfig == arrayConfig
  {
    var d := if derived.Some? then derived.value else NoDerivedConfig;
    FieldConfig(
      init.initialValue, init.required, init.requiredErrorMsg, init.metadata,
      init.untouchable, init.advancedCustomValue,
      d.(checkIfIsEmpty := if init.isEmpty.Some? then init.isEmpty else d.checkIfIsEmpty,
         isLoading := if init.isLoading.Some? then init.isLoading else d.isLoading),
      validations, init.validation, arrayConfig)
  }

  // ---------------------------------------------------------------------
  // valueIsEmpty and normalizeFormValue

  /** `valueIsEmpty`: an empty array, a blank string, `null` or `undefined`.
      `0` and `false` are not empty. */
  function ValueIsEmpty(v: Value): (r: bool)
    ensures r <==> v == Arr([]) || v.Undefined? || v.Null? || (v.Str? && AllWhitespace(v.s))
  {
    match v
    case Arr(xs) => |xs| == 0
    case Str(s) => TrimEmptyIff(s); Trim(s) == ""
    case _ => v.Undefined? || v.Null?
  }

  predicate Nullish(v: Value) {
    v.Undefined? || v.Null?
  }

  /** `(item) => item !== undefined && item !== null`. */
  predicate Present(v: Value) {
    !Nullish(v)
  }

  /** `value.filter((item) => item !== undefined && item !== null)`: exactly
      the items that are not null or undefined, in their order. */
  function PresentItems(xs: seq<Value>): (r: seq<Value>)
    ensures r == Filter(xs, Present)
    ensures |r| <= |xs|
    ensures forall i :: 0 <= i < |r| ==> !Nullish(r[i])
    ensures forall x :: x in r <==> x in xs && !Nullish(x)
    decreases |xs|
  {
    if |xs| == 0 then []
    else
      var rest := PresentItems(xs[..|xs| - 1]);
      var last := xs[|xs| - 1];
      assert forall x :: x in xs <==> x in xs[..|xs| - 1] || x == last;
      assert Present(last) == !Nullish(last);
      if Nullish(last) then rest else rest + [last]
  }

  /** A list without null or undefined items is left as it is. */
  lemma {:induction false} PresentItemsFixed(xs: seq<Value>)
    requires forall i :: 0 <= i < |xs| ==> !Nullish(xs[i])
    ensures PresentItems(xs) == xs
    decreases |xs|
  {
    if |xs| > 0 {
      var init := xs[..|xs| - 1];
      assert forall i :: 0 <= i < |init| ==> init[i] == xs[i];
      PresentItemsFixed(init);
      assert init + [xs[|xs| - 1]] == xs;
    }
  }

  /** `normalizeFormValue`: strings are trimmed, null and undefined items are
      dropped from arrays, every other value is kept. */
  function NormalizeFormValue(v: Value): (r: Value)
    ensures v.Str? <==> r.Str?
    ensures v.Str? ==> r.s == Trim(v.s) && IsTrimmed(r.s)
    ensures v.Arr? <==> r.Arr?
    ensures v.Arr? ==> r.items == Filter(v.items, Present)
    ensures v.Arr? ==> (forall i :: 0 <= i < |r.items| ==> !Nullish(r.items[i]))
                       && (forall x :: x in r.items <==> x in v.items && !Nullish(x))
    ensures !v.Str? && !v.Arr? ==> r == v
  {
    match v
    case Str(s) => Str(Trim(s))
    case Arr(xs) => Arr(PresentItems(xs))
    case _ => v
  }

  /** Normalising a normalised value changes nothing. */
  lemma NormalizeIdempotent(v: Value)
    ensures NormalizeFormValue(NormalizeFormValue(v)) == NormalizeFormValue(v)
  {
    match v
    case Str(s) => TrimIdempotent(s);
    case Arr(xs) => PresentItemsFixed(PresentItems(xs));
    case _ =>
  }

  // ---------------------------------------------------------------------
  // basicFieldValidation

  /** The `{errors, isValid, isEmpty}` record `basicFieldValidation` returns. */
  datatype BasicValidation = BasicValidation(errors: Option<seq<string>>, isValid: bool, isEmpty: bool)

  /** `fieldConfig.derived?.checkIfIsEmpty?.(value) ?? valueIsEmpty(value)`. */
  function IsEmptyFor(cfg: FieldConfig, v: Value): bool {
    if cfg.derived.checkIfIsEmpty.Some? then cfg.derived.checkIfIsEmpty.value(v) else ValueIsEmpty(v)
  }

  /** `requiredErrorMsg || defaultRequiredMsg`: an empty text falls back too. */
  function RequiredMessage(msg: RequiredErrorMsg, defaultRequiredMsg: string): string {
    if msg.MsgText? && msg.text != "" then msg.text else defaultRequiredMsg
  }

  /** `basicFieldValidation`: the required/empty check. */
  function BasicFieldValidation(cfg: FieldConfig, v: Value, defaultRequiredMsg: string): (r: BasicValidation)
    ensures r.isEmpty == IsEmptyFor(cfg, v)
    ensures !r.isValid <==> cfg.required && r.isEmpty
    ensures r.errors.Some? <==> cfg.required && r.isEmpty && cfg.requiredErrorMsg != MsgDisabled
    ensures r.errors.Some? ==> r.errors.value == [RequiredMessage(cfg.requiredErrorMsg, defaultRequiredMsg)]
    ensures r.errors.Some? ==> !r.isValid
  {
    var isEmpty := IsEmptyFor(cfg, v);
    var failed := cfg.required && isEmpty;
    var errors := if failed && cfg.requiredErrorMsg != MsgDisabled
                  then [RequiredMessage(cfg.requiredErrorMsg, defaultRequiredMsg)] else [];
    BasicValidation(if |errors| != 0 then Some(errors) else None, !failed, isEmpty)
  }

  // ---------------------------------------------------------------------
  // getInitialStateFromConfig and updateFieldStateFromValue

  /** `getInitialStateFromConfig`: a fresh field starts untouched, invalid,
      empty, unchanged, not loading and without errors, holding
      `advancedCustomValue ?? initialValue`. */
  function GetInitialStateFromConfig(cfg: FieldConfig): (r: FieldState)
    ensures r.value == (if Nullish(cfg.advancedCustomValue) then cfg.initialValue else cfg.advancedCustomValue)
    ensures r.initialValue == cfg.initialValue && r.metadata == cfg.metadata && r.required == cfg.required
    ensures !r.isTouched && !r.isValid && r.isEmpty && r.errors.None?
    ensures !r.isDiffFromInitial && !r.valueIsLoading
  {
    FieldState(
      value := if Nullish(cfg.advancedCustomValue) then cfg.initialValue else cfg.advancedCustomValue,
      initialValue := cfg.initialValue,
      metadata := cfg.metadata,
      required := cfg.required,
      isValid := false,
      errors := None,
      isTouched := false,
      isDiffFromInitial := false,
      isEmpty := true,
      valueIsLoading := false)
  }

  /** The short-circuit of `updateFieldStateFromValue`: outside the initial
      path, an identical normalised value whose required check repeats the
      field's current `{errors, isValid, isEmpty}`. */
  predicate IsNoOpUpdate(cfg: FieldConfig, f: FieldState, newValue: Value, isInitialState: bool, defaultRequiredMsg: string) {
    var nv := NormalizeFormValue(newValue);
    && !isInitialState
    && Identical(f.value, nv)
    && BasicFieldValidation(cfg, nv, defaultRequiredMsg) == BasicValidation(f.errors, f.isValid, f.isEmpty)
  }

  /** The field record after `updateFieldStateFromValue`. */
  function FieldAfterValue(cfg: FieldConfig, f: FieldState, newValue: Value, isInitialState: bool,
                           defaultRequiredMsg: string): (r: FieldState)
    ensures !isInitialState ==> r.isTouched
    ensures isInitialState ==> r.isTouched == f.isTouched
    ensures r.value == NormalizeFormValue(newValue)
    ensures IsNoOpUpdate(cfg, f, newValue, isInitialState, defaultRequiredMsg) ==> r == f.(isTouched := true)
    ensures !IsNoOpUpdate(cfg, f, newValue, isInitialState, defaultRequiredMsg) ==>
              var nv := NormalizeFormValue(newValue);
              var b := BasicFieldValidation(cfg, nv, defaultRequiredMsg);
              && r.value == nv
              && (r.isDiffFromInitial <==> nv != f.initialValue)
              && r.errors == (if r.isTouched then b.errors else None)
              && r.isValid == b.isValid && r.isEmpty == b.isEmpty
              && !r.valueIsLoading
    ensures r.initialValue == f.initialValue && r.metadata == f.metadata && r.required == f.required
  {
    var nv := NormalizeFormValue(newValue);
    var b := BasicFieldValidation(cfg, nv, defaultRequiredMsg);
    var touched := if isInitialState then f else f.(isTouched := true);
    if !isInitialState && Identical(f.value, nv) && b == BasicValidation(f.errors, f.isValid, f.isEmpty) then
      touched
    else
      touched.(
        isDiffFromInitial := nv != f.initialValue,
        value := nv,
        errors := if touched.isTouched then KeepPrevIfUnchanged(b.errors, f.errors) else None,
        isValid := b.isValid,
        isEmpty := b.isEmpty,
        valueIsLoading := false)
  }

  /** Applying the same value a second time changes nothing more. */
  lemma ApplyValueIdempotent(cfg: FieldConfig, f: FieldState, v: Value, isInitialState: bool, defaultRequiredMsg: string)
    ensures var once := FieldAfterValue(cfg, f, v, isInitialState, defaultRequiredMsg);
            FieldAfterValue(cfg, once, v, isInitialState, defaultRequiredMsg) == once
  {
    NormalizeIdempotent(v);
  }

  /** On the initial-state path the field ends up holding the normalised
      `initialValue` whatever `advancedCustomValue` says; it is untouched and
      shows no errors, and it counts as changed exactly when normalising
      altered the initial value. */
  lemma InitialPathField(cfg: FieldConfig, defaultRequiredMsg: string)
    ensures var r := FieldAfterValue(cfg, GetInitialStateFromConfig(cfg), cfg.initialValue, true, defaultRequiredMsg);
            && r.value == NormalizeFormValue(cfg.initialValue)
            && !r.isTouched && r.errors.None? && !r.valueIsLoading
            && (r.isDiffFromInitial <==> NormalizeFormValue(cfg.initialValue) != cfg.initialValue)
            && r.isValid == !(cfg.required && IsEmptyFor(cfg, r.value))
  {
  }

  // ---------------------------------------------------------------------
  // The touch decision of handleChange

  /** `skipTouch?: boolean | string[]`: unset or `false`, `true`, or a list of ids. */
  datatype SkipTouch = NoSkip | SkipAll | SkipIds(ids: seq<string>)

  /** `HandleChangeOptions`. */
  datatype ChangeOptions = ChangeOptions(skipTouch: SkipTouch, touchOnly: Option<seq<string>>)

  const DefaultChangeOptions: ChangeOptions := ChangeOptions(NoSkip, None)

  /** A boolean argument `b` stands for `{skipTouch: b}`. */
  function OptionsFromFlag(skip: bool): ChangeOptions {
    ChangeOptions(if skip then SkipAll else NoSkip, None)
  }

  /** Whether `handleChange` applies the entry for `id` without touching it. */
  function ShouldSkipTouch(untouchable: bool, id: string, options: ChangeOptions): (skip: bool)
    ensures untouchable ==> skip
    ensures !untouchable && options.touchOnly.Some? ==> (skip <==> id !in options.touchOnly.value)
    ensures !untouchable && options.touchOnly.None? ==>
              (skip <==> options.skipTouch.SkipAll? || (options.skipTouch.SkipIds? && id in options.skipTouch.ids))
  {
    var shouldSkipTouch := untouchable;
    if shouldSkipTouch then true
    else
      var afterSkip :=
        match options.skipTouch
        case NoSkip => shouldSkipTouch
        case SkipAll => true
        case SkipIds(xs) => id in xs;
      if options.touchOnly.Some? then id !in options.touchOnly.value else afterSkip
  }

  // ---------------------------------------------------------------------
  // getGenericFormState

  datatype GenericFormState = GenericFormState(someFieldIsLoading: bool, formIsValid: bool, isDiffFromInitial: bool)

  /** `getGenericFormState`: the loop with three accumulating flags.
      `formError` is `None` for `false`. */
  method GetGenericFormState(formError: Option<string>, fieldEntries: seq<(string, FieldState)>,
                             mustBeDiffFromInitial: bool)
    returns (r: GenericFormState)
    ensures r.someFieldIsLoading <==> exists i :: 0 <= i < |fieldEntries| && fieldEntries[i].1.valueIsLoading
    ensures r.isDiffFromInitial <==> exists i :: 0 <= i < |fieldEntries| && fieldEntries[i].1.isDiffFromInitial
    ensures r.formIsValid <==>
              && formError.None?
              && (forall i :: 0 <= i < |fieldEntries| ==> fieldEntries[i].1.isValid)
              && (mustBeDiffFromInitial ==> r.isDiffFromInitial)
  {
    var someFieldIsLoading := false;
    var isDiffFromInitial := false;
    var formIsValid := formError.None?;
    var i := 0;
    while i < |fieldEntries|
      invariant 0 <= i <= |fieldEntries|
      invariant someFieldIsLoading <==> exists k :: 0 <= k < i && fieldEntries[k].1.valueIsLoading
      invariant isDiffFromInitial <==> exists k :: 0 <= k < i && fieldEntries[k].1.isDiffFromInitial
      invariant formIsValid <==> formError.None? && forall k :: 0 <= k < i ==> fieldEntries[k].1.isValid
    {
      var fieldState := fieldEntries[i].1;
      if fieldState.valueIsLoading {
        someFieldIsLoading := true;
      }
      if !fieldState.isValid {
        formIsValid := false;
      }
      if fieldState.isDiffFromInitial {
        isDiffFromInitial := true;
      }
      i := i + 1;
    }
    r := GenericFormState(someFieldIsLoading,
                          if mustBeDiffFromInitial then formIsValid && isDiffFromInitial else formIsValid,
                          isDiffFromInitial);
  }
}
