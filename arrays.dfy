/** src/utils/arrays.ts: `filterAndMap` and `singleOrMultipleToArray`. */
module Arrays {
  import opened JsValues

  /** `T | T[] | undefined | null`: `Absent` stands for both `undefined` and `null`. */
  datatype SingleOrMultiple<T> = Absent | Single(item: T) | Multiple(items: seq<T>)

  /** `singleOrMultipleToArray`: an array is returned as it is, a missing value
      becomes the empty array and any other value a one-element array. */
  function SingleOrMultipleToArray<T>(v: SingleOrMultiple<T>): (r: seq<T>)
    ensures v.Multiple? ==> r == v.items
    ensures v.Absent? ==> r == []
    ensures v.Single? ==> r == [v.item]
  {
    match v
    case Absent => []
    case Single(x) => [x]
    case Multiple(xs) => xs
  }

  /** What `filterAndMap` returns for `arr`: for each position in order,
      `fn(item, false, i)` unless it returned `false` (here `None`). */
  function FilterMapped<T, R>(arr: seq<T>, fn: (T, nat) -> Option<R>): (r: seq<R>)
    ensures |r| <= |arr|
    decreases |arr|
  {
    if |arr| == 0 then []
    else
      var rest := FilterMapped(arr[..|arr| - 1], fn);
      match fn(arr[|arr| - 1], |arr| - 1)
      case None => rest
      case Some(x) => rest + [x]
  }

  /** The loop of `filterAndMap`, with the running index `i`. */
  method FilterAndMap<T, R>(arr: seq<T>, fn: (T, nat) -> Option<R>) returns (result: seq<R>)
    ensures result == FilterMapped(arr, fn)
  {
    result := [];
    var i := 0;
    while i < |arr|
      invariant 0 <= i <= |arr|
      invariant result == FilterMapped(arr[..i], fn)
    {
      var mappedItem := fn(arr[i], i);
      assert arr[..i + 1][..i] == arr[..i];
      if mappedItem.Some? {
        result := result + [mappedItem.value];
      }
      i := i + 1;
    }
    assert arr[..|arr|] == arr;
  }

  /** Every output is `fn` applied to some input item together with that
      item's position in the input (dropped items still count), and every
      item `fn` keeps shows up in the output. */
  lemma {:induction false} FilterMappedMembers<T, R>(arr: seq<T>, fn: (T, nat) -> Option<R>, x: R)
    ensures x in FilterMapped(arr, fn) <==> exists i :: 0 <= i < |arr| && fn(arr[i], i) == Some(x)
    decreases |arr|
  {
    if |arr| > 0 {
      var init := arr[..|arr| - 1];
      FilterMappedMembers(init, fn, x);
      if exists i :: 0 <= i < |arr| && fn(arr[i], i) == Some(x) {
        var i :| 0 <= i < |arr| && fn(arr[i], i) == Some(x);
        if i < |arr| - 1 {
          assert init[i] == arr[i];
        }
      }
      if exists i :: 0 <= i < |init| && fn(init[i], i) == Some(x) {
        var i :| 0 <= i < |init| && fn(init[i], i) == Some(x);
        assert arr[i] == init[i];
      }
    }
  }

  /** The input positions `filterAndMap` keeps, in increasing order. */
  function KeptIndices<T, R>(arr: seq<T>, fn: (T, nat) -> Option<R>): seq<nat>
    decreases |arr|
  {
    if |arr| == 0 then []
    else
      var rest := KeptIndices(arr[..|arr| - 1], fn);
      if fn(arr[|arr| - 1], |arr| - 1).Some? then rest + [|arr| - 1] else rest
  }

  /** The output keeps input order: its `k`-th element comes from the `k`-th
      kept position, the kept positions increase, and every position `fn`
      keeps is among them. */
  lemma {:induction false} FilterMappedInOrder<T, R>(arr: seq<T>, fn: (T, nat) -> Option<R>)
    ensures var r := FilterMapped(arr, fn);
            var idx := KeptIndices(arr, fn);
            && |idx| == |r|
            && (forall k :: 0 <= k < |idx| ==> idx[k] < |arr| && fn(arr[idx[k]], idx[k]) == Some(r[k]))
            && (forall k, l :: 0 <= k < l < |idx| ==> idx[k] < idx[l])
            && (forall i :: 0 <= i < |arr| && fn(arr[i], i).Some? ==> i in idx)
    decreases |arr|
  {
    if |arr| > 0 {
      var n := |arr| - 1;
      var init := arr[..n];
      FilterMappedInOrder(init, fn);
      var rest := KeptIndices(init, fn);
      forall k | 0 <= k < |rest| ensures arr[rest[k]] == init[rest[k]] {
      }
      forall i | 0 <= i < n && fn(arr[i], i).Some? ensures i in rest {
        assert init[i] == arr[i];
      }
    }
  }

  /** When `fn` never returns `false` nothing is dropped: the output has the
      input's length and holds `fn(arr[i], i)` at position `i`. */
  lemma {:induction false} FilterMappedKeepsAll<T, R>(arr: seq<T>, fn: (T, nat) -> Option<R>)
    requires forall i :: 0 <= i < |arr| ==> fn(arr[i], i).Some?
    ensures |FilterMapped(arr, fn)| == |arr|
    ensures forall i :: 0 <= i < |arr| ==> FilterMapped(arr, fn)[i] == fn(arr[i], i).value
    decreases |arr|
  {
    if |arr| > 0 {
      var init := arr[..|arr| - 1];
      forall i | 0 <= i < |init| ensures fn(init[i], i).Some? {
        assert init[i] == arr[i];
      }
      FilterMappedKeepsAll(init, fn);
      forall i | 0 <= i < |arr| - 1 ensures FilterMapped(arr, fn)[i] == fn(arr[i], i).value {
        assert init[i] == arr[i];
      }
    }
  }

  /** `keep` as a `filterAndMap` callback: an item it accepts is kept as it is. */
  function KeepWhen<T>(keep: T -> bool): (T, nat) -> Option<T> {
    (x: T, i: nat) => if keep(x) then Some(x) else None
  }

  /** `array.filter(keep)`. */
  function Filter<T>(arr: seq<T>, keep: T -> bool): seq<T> {
    FilterMapped(arr, KeepWhen(keep))
  }

  /** `array.filter(keep)` is the ordered subsequence of the accepted items:
      its `k`-th element is the item at the `k`-th kept position, the kept
      positions increase, they hold accepted items only, and every accepted
      position is kept. */
  lemma FilterInOrder<T>(arr: seq<T>, keep: T -> bool)
    ensures var r := Filter(arr, keep);
            var idx := KeptIndices(arr, KeepWhen(keep));
            && |idx| == |r|
            && (forall k :: 0 <= k < |idx| ==> idx[k] < |arr| && keep(arr[idx[k]]) && r[k] == arr[idx[k]])
            && (forall k, l :: 0 <= k < l < |idx| ==> idx[k] < idx[l])
            && (forall i :: 0 <= i < |arr| && keep(arr[i]) ==> i in idx)
  {
    FilterMappedInOrder(arr, KeepWhen(keep));
  }

  /** A non-empty sequence is its prefix followed by its last element. */
  lemma SnocSplit<T>(s: seq<T>)
    requires |s| > 0
    ensures s[..|s| - 1] + [s[|s| - 1]] == s
  {
  }
}
