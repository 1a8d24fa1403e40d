/** src/main.ts, `arrayFields`: the updaters `addItem`, `removeItem`,
    `toggleItem` and `updateItem` hand to `handleChange`. Items are told
    apart by the field's `arrayConfig.getItemId`. */
module ArrayFields {
  import opened JsValues
  import opened Arrays

  /** The field's current value as a list; a value that is not an array
      counts as the empty list. */
  function AsItems(v: Value): seq<Value> {
    if v.Arr? then v.items else []
  }

  /** `[...currentValue, value]`. */
  function AddedItems(items: seq<Value>, value: Value): (r: seq<Value>)
    ensures |r| == |items| + 1 && r[..|items|] == items && r[|items|] == value
  {
    items + [value]
  }

  /** `(item) => getItemId(item) !== itemId`. */
  function OtherId(getItemId: Value -> string, itemId: string): Value -> bool {
    (x: Value) => getItemId(x) != itemId
  }

  /** `array.filter((item) => getItemId(item) !== itemId)`: exactly the items
      with another id, in their order and with their repetitions. */
  function RemovedItems(items: seq<Value>, getItemId: Value -> string, itemId: string): (r: seq<Value>)
    ensures r == Filter(items, OtherId(getItemId, itemId))
    ensures |r| <= |items|
    ensures forall i :: 0 <= i < |r| ==> getItemId(r[i]) != itemId
    ensures forall x :: x in r <==> x in items && getItemId(x) != itemId
    decreases |items|
  {
    if |items| == 0 then []
    else
      var rest := RemovedItems(items[..|items| - 1], getItemId, itemId);
      var last := items[|items| - 1];
      assert forall x :: x in items <==> x in items[..|items| - 1] || x == last;
      if getItemId(last) != itemId then rest + [last] else rest
  }

  /** Removing an id no item has keeps the list as it is. */
  lemma {:induction false} RemoveAbsentKeeps(items: seq<Value>, getItemId: Value -> string, itemId: string)
    requires forall i :: 0 <= i < |items| ==> getItemId(items[i]) != itemId
    ensures RemovedItems(items, getItemId, itemId) == items
    decreases |items|
  {
    if |items| > 0 {
      var init := items[..|items| - 1];
      assert forall i :: 0 <= i < |init| ==> init[i] == items[i];
      RemoveAbsentKeeps(init, getItemId, itemId);
      assert init + [items[|items| - 1]] == items;
    }
  }

  /** `array.findIndex((item) => getItemId(item) === itemId) !== -1`. */
  predicate HasItem(items: seq<Value>, getItemId: Value -> string, itemId: string) {
    exists i :: 0 <= i < |items| && getItemId(items[i]) == itemId
  }

  /** `toggleItem`: removes the items with the id when there are any,
      otherwise appends `value`. */
  function ToggledItems(items: seq<Value>, getItemId: Value -> string, itemId: string, value: Value): (r: seq<Value>)
    ensures HasItem(items, getItemId, itemId) ==> r == Filter(items, OtherId(getItemId, itemId))
    ensures HasItem(items, getItemId, itemId) ==> !HasItem(r, getItemId, itemId)
    ensures !HasItem(items, getItemId, itemId) ==> r == items + [value]
  {
    if HasItem(items, getItemId, itemId) then RemovedItems(items, getItemId, itemId) else items + [value]
  }

  /** Toggling an item whose own id is `itemId` into a list without that id,
      and then toggling it again, gives back the original list. */
  lemma ToggleTwiceRestores(items: seq<Value>, getItemId: Value -> string, itemId: string, value: Value)
    requires !HasItem(items, getItemId, itemId) && getItemId(value) == itemId
    ensures ToggledItems(ToggledItems(items, getItemId, itemId, value), getItemId, itemId, value) == items
  {
    var once := items + [value];
    assert getItemId(once[|items|]) == itemId;
    assert RemovedItems(once, getItemId, itemId) == RemovedItems(items, getItemId, itemId) by {
      assert once[..|once| - 1] == items;
    }
    RemoveAbsentKeeps(items, getItemId, itemId);
  }

  /** `{ ...item, ...value }` for an object patch, otherwise the patch itself. */
  function PatchedItem(item: Value, patch: Value): (r: Value)
    ensures IsObject(patch) ==> r.Obj? && r.props.Keys == SpreadProps(item).Keys + SpreadProps(patch).Keys
    ensures IsObject(patch) ==> forall k :: k in SpreadProps(patch) ==> r.props[k] == SpreadProps(patch)[k]
    ensures IsObject(patch) ==> forall k :: k in SpreadProps(item) && k !in SpreadProps(patch) ==> r.props[k] == SpreadProps(item)[k]
    ensures !IsObject(patch) ==> r == patch
  {
    if IsObject(patch) then Obj(SpreadProps(item) + SpreadProps(patch)) else patch
  }

  /** `updateItem`: every item with the id is patched, the others are kept,
      and the list keeps its length and order. */
  function UpdatedItems(items: seq<Value>, getItemId: Value -> string, itemId: string, patch: Value): (r: seq<Value>)
    ensures |r| == |items|
    ensures forall i :: 0 <= i < |items| && getItemId(items[i]) == itemId ==> r[i] == PatchedItem(items[i], patch)
    ensures forall i :: 0 <= i < |items| && getItemId(items[i]) != itemId ==> r[i] == items[i]
  {
    seq(|items|, i requires 0 <= i < |items| =>
      if getItemId(items[i]) == itemId then PatchedItem(items[i], patch) else items[i])
  }

  /** Updating an id no item has changes nothing. */
  lemma UpdateAbsentKeeps(items: seq<Value>, getItemId: Value -> string, itemId: string, patch: Value)
    requires !HasItem(items, getItemId, itemId)
    ensures UpdatedItems(items, getItemId, itemId, patch) == items
  {
  }

  /** The updaters, as functions of the field's current value. */
  function AddItemUpdater(value: Value): Value -> Value {
    (current: Value) => Arr(AddedItems(AsItems(current), value))
  }

  function RemoveItemUpdater(getItemId: Value -> string, itemId: string): Value -> Value {
    (current: Value) => Arr(RemovedItems(AsItems(current), getItemId, itemId))
  }

  function ToggleItemUpdater(getItemId: Value -> string, itemId: string, value: Value): Value -> Value {
    (current: Value) => Arr(ToggledItems(AsItems(current), getItemId, itemId, value))
  }

  function UpdateItemUpdater(getItemId: Value -> string, itemId: string, patch: Value): Value -> Value {
    (current: Value) => Arr(UpdatedItems(AsItems(current), getItemId, itemId, patch))
  }

  function HasNoArrayConfigMessage(id: string): string {
    "[t-state-form] Field with id \"" + id + "\" has no arrayConfig"
  }
}
