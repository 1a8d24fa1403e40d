/** src/stateUtils.ts: extracting the values of a form's fields. The fields
    are given in the insertion order of `formState.fields`. */
module StateUtils {
  import opened JsValues
  import opened Objects
  import opened FieldRules

  /** The values object, or the error thrown for the first invalid field. */
  datatype Extracted = Values(values: map<string, Value>) | Invalid(message: string)

  function InvalidFieldMessage(key: string): string {
    "Field \"" + key + "\" is invalid"
  }

  /** `normalizeValue`: strings are trimmed, anything else is kept. */
  function NormalizeValue(v: Value): (r: Value)
    ensures v.Str? ==> r.Str? && r.s == Trim(v.s) && IsTrimmed(r.s)
    ensures !v.Str? ==> r == v
  {
    if v.Str? then Str(Trim(v.s)) else v
  }

  /** Whether the entry is copied: every field for `getFormValuesObj`, only
      the changed ones for `getChangedFormValuesObj`. */
  predicate Included(field: FieldState, onlyChanged: bool) {
    !onlyChanged || field.isDiffFromInitial
  }

  /** The result of both extraction loops over `fieldEntries`. */
  function ExtractValues(fieldEntries: seq<(string, FieldState)>, allowInvalid: bool, onlyChanged: bool): (r: Extracted)
    decreases |fieldEntries|
  {
    if |fieldEntries| == 0 then Values(map[])
    else
      var prev := ExtractValues(fieldEntries[..|fieldEntries| - 1], allowInvalid, onlyChanged);
      var key := fieldEntries[|fieldEntries| - 1].0;
      var field := fieldEntries[|fieldEntries| - 1].1;
      if prev.Invalid? then prev
      else if !field.isValid && !allowInvalid then Invalid(InvalidFieldMessage(key))
      else if !Included(field, onlyChanged) then prev
      else Values(prev.values[key := NormalizeValue(field.value)])
  }

  /** `getFormValuesObj(fieldsState, allowInvalid)`. */
  method GetFormValuesObj(fieldEntries: seq<(string, FieldState)>, allowInvalid: bool) returns (r: Extracted)
    ensures r == ExtractValues(fieldEntries, allowInvalid, false)
  {
    r := ExtractLoop(fieldEntries, allowInvalid, false);
  }

  /** `getChangedFormValuesObj(fieldsState, allowInvalid)`. */
  method GetChangedFormValuesObj(fieldEntries: seq<(string, FieldState)>, allowInvalid: bool) returns (r: Extracted)
    ensures r == ExtractValues(fieldEntries, allowInvalid, true)
  {
    r := ExtractLoop(fieldEntries, allowInvalid, true);
  }

  /** The `for … of objectTypedEntries(fieldsState)` loop both functions share;
      the `throw` leaves the loop at the first invalid field. */
  method ExtractLoop(fieldEntries: seq<(string, FieldState)>, allowInvalid: bool, onlyChanged: bool) returns (r: Extracted)
    ensures r == ExtractValues(fieldEntries, allowInvalid, onlyChanged)
  {
    var values: map<string, Value> := map[];
    var i := 0;
    while i < |fieldEntries|
      invariant 0 <= i <= |fieldEntries|
      invariant ExtractValues(fieldEntries[..i], allowInvalid, onlyChanged) == Values(values)
    {
      assert fieldEntries[..i + 1][..i] == fieldEntries[..i];
      var key := fieldEntries[i].0;
      var field := fieldEntries[i].1;
      if !field.isValid && !allowInvalid {
        r := Invalid(InvalidFieldMessage(key));
        ExtractStaysInvalid(fieldEntries, i + 1, allowInvalid, onlyChanged);
        return;
      }
      if Included(field, onlyChanged) {
        values := values[key := NormalizeValue(field.value)];
      }
      i := i + 1;
    }
    assert fieldEntries[..|fieldEntries|] == fieldEntries;
    r := Values(values);
  }

  /** Once an invalid field has been met, later entries change nothing. */
  lemma {:induction false} ExtractStaysInvalid(fieldEntries: seq<(string, FieldState)>, n: nat, allowInvalid: bool, onlyChanged: bool)
    requires n <= |fieldEntries|
    requires ExtractValues(fieldEntries[..n], allowInvalid, onlyChanged).Invalid?
    ensures ExtractValues(fieldEntries, allowInvalid, onlyChanged) == ExtractValues(fieldEntries[..n], allowInvalid, onlyChanged)
    decreases |fieldEntries| - n
  {
    if n < |fieldEntries| {
      var m := n + 1;
      assert fieldEntries[..m][..n] == fieldEntries[..n];
      ExtractStaysInvalid(fieldEntries, m, allowInvalid, onlyChanged);
    } else {
      assert fieldEntries[..n] == fieldEntries;
    }
  }

  /** Extraction fails exactly when invalid fields are not allowed and some
      field is invalid; the message names the FIRST invalid field. The
      validity check runs before the changed-only filter, so an unchanged
      invalid field fails `getChangedFormValuesObj` as well. */
  lemma {:induction false} ExtractFailsIff(fieldEntries: seq<(string, FieldState)>, allowInvalid: bool, onlyChanged: bool)
    ensures ExtractValues(fieldEntries, allowInvalid, onlyChanged).Invalid? <==>
              !allowInvalid && exists i :: 0 <= i < |fieldEntries| && !fieldEntries[i].1.isValid
    ensures ExtractValues(fieldEntries, allowInvalid, onlyChanged).Invalid? ==>
              exists i :: 0 <= i < |fieldEntries| && !fieldEntries[i].1.isValid
                && (forall j :: 0 <= j < i ==> fieldEntries[j].1.isValid)
                && ExtractValues(fieldEntries, allowInvalid, onlyChanged).message == InvalidFieldMessage(fieldEntries[i].0)
    decreases |fieldEntries|
  {
    if |fieldEntries| > 0 {
      var init := fieldEntries[..|fieldEntries| - 1];
      ExtractFailsIff(init, allowInvalid, onlyChanged);
      assert forall j :: 0 <= j < |init| ==> init[j] == fieldEntries[j];
    }
  }

  /** On success, the keys are those of the included entries. */
  lemma {:induction false} ExtractedKeys(fieldEntries: seq<(string, FieldState)>, allowInvalid: bool, onlyChanged: bool)
    requires ExtractValues(fieldEntries, allowInvalid, onlyChanged).Values?
    ensures var vs := ExtractValues(fieldEntries, allowInvalid, onlyChanged).values;
            forall k :: k in vs <==> exists i :: 0 <= i < |fieldEntries| && fieldEntries[i].0 == k
                                                 && Included(fieldEntries[i].1, onlyChanged)
    decreases |fieldEntries|
  {
    if |fieldEntries| > 0 {
      var n := |fieldEntries| - 1;
      var init := fieldEntries[..n];
      assert init == fieldEntries[..|fieldEntries| - 1];
      ExtractedKeys(init, allowInvalid, onlyChanged);
      var prev := ExtractValues(init, allowInvalid, onlyChanged).values;
      var last := fieldEntries[n];
      var vs := ExtractValues(fieldEntries, allowInvalid, onlyChanged).values;
      assert vs == if Included(last.1, onlyChanged) then prev[last.0 := NormalizeValue(last.1.value)] else prev;
      forall k ensures k in vs <==> exists i :: 0 <= i < |fieldEntries| && fieldEntries[i].0 == k
                                                && Included(fieldEntries[i].1, onlyChanged) {
        IncludedKeySnoc(fieldEntries, onlyChanged, k);
      }
    }
  }

  /** An entry of `fieldEntries` that is included and has key `k` is one of
      its prefix or its last entry. */
  lemma IncludedKeySnoc(fieldEntries: seq<(string, FieldState)>, onlyChanged: bool, k: string)
    requires |fieldEntries| > 0
    ensures var n := |fieldEntries| - 1;
            (exists i :: 0 <= i < |fieldEntries| && fieldEntries[i].0 == k && Included(fieldEntries[i].1, onlyChanged)) <==>
              (exists i :: 0 <= i < n && fieldEntries[..n][i].0 == k && Included(fieldEntries[..n][i].1, onlyChanged))
              || (fieldEntries[n].0 == k && Included(fieldEntries[n].1, onlyChanged))
  {
    var n := |fieldEntries| - 1;
    var init := fieldEntries[..n];
    if exists i :: 0 <= i < |fieldEntries| && fieldEntries[i].0 == k && Included(fieldEntries[i].1, onlyChanged) {
      var i :| 0 <= i < |fieldEntries| && fieldEntries[i].0 == k && Included(fieldEntries[i].1, onlyChanged);
      if i < n { assert init[i] == fieldEntries[i]; }
    }
    if exists i :: 0 <= i < n && init[i].0 == k && Included(init[i].1, onlyChanged) {
      var i :| 0 <= i < n && init[i].0 == k && Included(init[i].1, onlyChanged);
      assert fieldEntries[i] == init[i];
    }
  }

  /** On success, with distinct keys (as an object's entries have), each
      included key holds its field's normalised value. */
  lemma {:induction false} ExtractedValues(fieldEntries: seq<(string, FieldState)>, allowInvalid: bool, onlyChanged: bool)
    requires DistinctKeys(fieldEntries)
    requires ExtractValues(fieldEntries, allowInvalid, onlyChanged).Values?
    ensures var vs := ExtractValues(fieldEntries, allowInvalid, onlyChanged).values;
            forall i :: 0 <= i < |fieldEntries| && Included(fieldEntries[i].1, onlyChanged) ==>
              fieldEntries[i].0 in vs && vs[fieldEntries[i].0] == NormalizeValue(fieldEntries[i].1.value)
    decreases |fieldEntries|
  {
    if |fieldEntries| > 0 {
      var n := |fieldEntries| - 1;
      var init := fieldEntries[..n];
      assert DistinctKeys(init) by {
        forall i, j | 0 <= i < j < n ensures init[i].0 != init[j].0 {
          assert init[i] == fieldEntries[i] && init[j] == fieldEntries[j];
        }
      }
      ExtractedValues(init, allowInvalid, onlyChanged);
      var prev := ExtractValues(init, allowInvalid, onlyChanged).values;
      var vs := ExtractValues(fieldEntries, allowInvalid, onlyChanged).values;
      forall i | 0 <= i < n && Included(fieldEntries[i].1, onlyChanged)
        ensures fieldEntries[i].0 in vs && vs[fieldEntries[i].0] == NormalizeValue(fieldEntries[i].1.value)
      {
        assert init[i] == fieldEntries[i];
        assert fieldEntries[i].0 != fieldEntries[n].0;
      }
    }
  }

  /** `getChangedFormValuesObj` returns the part of `getFormValuesObj`'s
      result whose fields differ from their initial values: both fail on the
      same input, and every changed value is the same in both. */
  lemma {:induction false} ChangedValuesAreSubset(fieldEntries: seq<(string, FieldState)>, allowInvalid: bool)
    requires DistinctKeys(fieldEntries)
    ensures ExtractValues(fieldEntries, allowInvalid, true).Invalid? <==> ExtractValues(fieldEntries, allowInvalid, false).Invalid?
    ensures ExtractValues(fieldEntries, allowInvalid, true).Values? ==>
              var changed := ExtractValues(fieldEntries, allowInvalid, true).values;
              var all := ExtractValues(fieldEntries, allowInvalid, false).values;
              forall k :: k in changed ==> k in all && changed[k] == all[k]
  {
    ExtractFailsIff(fieldEntries, allowInvalid, true);
    ExtractFailsIff(fieldEntries, allowInvalid, false);
    if ExtractValues(fieldEntries, allowInvalid, true).Values? {
      var changed := ExtractValues(fieldEntries, allowInvalid, true).values;
      var all := ExtractValues(fieldEntries, allowInvalid, false).values;
      ExtractedKeys(fieldEntries, allowInvalid, true);
      ExtractedValues(fieldEntries, allowInvalid, true);
      ExtractedValues(fieldEntries, allowInvalid, false);
      forall k | k in changed ensures k in all && changed[k] == all[k] {
        var i :| 0 <= i < |fieldEntries| && fieldEntries[i].0 == k && Included(fieldEntries[i].1, true);
        assert Included(fieldEntries[i].1, false);
      }
    }
  }

  /** Without any changed field, `getChangedFormValuesObj` returns `{}` (or
      fails on an invalid field). */
  lemma {:induction false} NoChangesNoValues(fieldEntries: seq<(string, FieldState)>, allowInvalid: bool)
    requires forall i :: 0 <= i < |fieldEntries| ==> !fieldEntries[i].1.isDiffFromInitial
    ensures ExtractValues(fieldEntries, allowInvalid, true).Values? ==>
              ExtractValues(fieldEntries, allowInvalid, true).values == map[]
    decreases |fieldEntries|
  {
    if |fieldEntries| > 0 {
      var init := fieldEntries[..|fieldEntries| - 1];
      assert forall j :: 0 <= j < |init| ==> init[j] == fieldEntries[j];
      NoChangesNoValues(init, allowInvalid);
    }
  }
}
