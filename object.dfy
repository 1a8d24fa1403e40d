/** src/utils/object.ts: `objectTypedEntries`, `pick`, `mapArrayToObject`
    and `mapObjectToObject`. A JavaScript object is a map together with the
    insertion order of its keys. */
module Objects {
  import opened JsValues

  predicate DistinctKeys<V>(entries: seq<(string, V)>) {
    forall i, j :: 0 <= i < j < |entries| ==> entries[i].0 != entries[j].0
  }

  /** `Object.entries(obj)` for an object whose keys, in insertion order, are
      `keys`: every property of `obj` appears exactly once, with its value,
      and the entries follow the insertion order. */
  function ObjectTypedEntries<V>(keys: seq<string>, obj: map<string, V>): (r: seq<(string, V)>)
    requires forall i, j :: 0 <= i < j < |keys| ==> keys[i] != keys[j]
    requires forall k :: k in obj <==> k in keys
    ensures DistinctKeys(r)
    ensures forall i :: 0 <= i < |r| ==> r[i].0 in obj && r[i].1 == obj[r[i].0]
    ensures forall k :: k in obj ==> exists i :: 0 <= i < |r| && r[i] == (k, obj[k])
    ensures |r| == |keys| && forall i :: 0 <= i < |r| ==> r[i].0 == keys[i]
  {
    var r := seq(|keys|, i requires 0 <= i < |keys| => (keys[i], obj[keys[i]]));
    assert forall k :: k in obj ==> exists i :: 0 <= i < |r| && r[i] == (k, obj[k]) by {
      forall k | k in obj ensures exists i :: 0 <= i < |r| && r[i] == (k, obj[k]) {
        var i :| 0 <= i < |keys| && keys[i] == k;
        assert r[i] == (k, obj[k]);
      }
    }
    r
  }

  /** `Object.fromEntries(entries)`: later entries overwrite earlier ones. */
  function FromEntries<V>(entries: seq<(string, V)>): (r: map<string, V>)
    decreases |entries|
  {
    if |entries| == 0 then map[]
    else FromEntries(entries[..|entries| - 1])[entries[|entries| - 1].0 := entries[|entries| - 1].1]
  }

  /** The keys of `Object.fromEntries` are the entries' keys, and each key
      holds the value of its LAST entry. */
  lemma {:induction false} FromEntriesLastWins<V>(entries: seq<(string, V)>)
    ensures forall k :: k in FromEntries(entries) <==> exists i :: 0 <= i < |entries| && entries[i].0 == k
    ensures forall i :: 0 <= i < |entries| && (forall j :: i < j < |entries| ==> entries[j].0 != entries[i].0)
              ==> FromEntries(entries)[entries[i].0] == entries[i].1
    decreases |entries|
  {
    if |entries| > 0 {
      var init := entries[..|entries| - 1];
      FromEntriesLastWins(init);
      forall k ensures k in FromEntries(entries) <==> exists i :: 0 <= i < |entries| && entries[i].0 == k {
        if exists i :: 0 <= i < |entries| && entries[i].0 == k {
          var i :| 0 <= i < |entries| && entries[i].0 == k;
          if i < |init| { assert init[i] == entries[i]; }
        }
        if exists i :: 0 <= i < |init| && init[i].0 == k {
          var i :| 0 <= i < |init| && init[i].0 == k;
          assert entries[i] == init[i];
        }
      }
      forall i | 0 <= i < |entries| - 1 && (forall j :: i < j < |entries| ==> entries[j].0 != entries[i].0)
        ensures FromEntries(entries)[entries[i].0] == entries[i].1
      {
        assert init[i] == entries[i];
        assert forall j :: i < j < |init| ==> init[j] == entries[j];
      }
    }
  }

  /** `Object.fromEntries(Object.entries(obj))` rebuilds `obj`. */
  lemma ObjectEntriesRoundTrip<V>(keys: seq<string>, obj: map<string, V>)
    requires forall i, j :: 0 <= i < j < |keys| ==> keys[i] != keys[j]
    requires forall k :: k in obj <==> k in keys
    ensures FromEntries(ObjectTypedEntries(keys, obj)) == obj
  {
    var entries := ObjectTypedEntries(keys, obj);
    FromEntriesLastWins(entries);
    forall k | k in obj ensures k in FromEntries(entries) && FromEntries(entries)[k] == obj[k] {
      var i :| 0 <= i < |entries| && entries[i] == (k, obj[k]);
    }
  }

  /** `mapArrayToObject(items, mapper)`: one entry per item, keyed by the
      mapper; on a repeated key the later item wins. */
  function MapArrayToObject<T, O>(items: seq<T>, mapper: (T, nat) -> (string, O)): (r: map<string, O>)
    ensures forall k :: k in r <==> exists i :: 0 <= i < |items| && mapper(items[i], i).0 == k
    ensures forall i :: 0 <= i < |items| && (forall j :: i < j < |items| ==> mapper(items[j], j).0 != mapper(items[i], i).0)
              ==> r[mapper(items[i], i).0] == mapper(items[i], i).1
  {
    var entries := seq(|items|, i requires 0 <= i < |items| => mapper(items[i], i));
    assert |entries| == |items| && forall i :: 0 <= i < |items| ==> entries[i] == mapper(items[i], i);
    FromEntriesLastWins(entries);
    FromEntries(entries)
  }

  /** `mapObjectToObject(obj, mapper)`: the mapper runs once per entry of
      `obj`, and the result has exactly the keys the mapper produced. */
  function MapObjectToObject<V, O>(entries: seq<(string, V)>, mapper: (string, V) -> (string, O)): (r: map<string, O>)
    ensures forall k :: k in r <==> exists i :: 0 <= i < |entries| && mapper(entries[i].0, entries[i].1).0 == k
    ensures forall i :: 0 <= i < |entries|
              && (forall j :: i < j < |entries| ==> mapper(entries[j].0, entries[j].1).0 != mapper(entries[i].0, entries[i].1).0)
              ==> r[mapper(entries[i].0, entries[i].1).0] == mapper(entries[i].0, entries[i].1).1
  {
    var mapped := seq(|entries|, i requires 0 <= i < |entries| => mapper(entries[i].0, entries[i].1));
    assert |mapped| == |entries| && forall i :: 0 <= i < |entries| ==> mapped[i] == mapper(entries[i].0, entries[i].1);
    FromEntriesLastWins(mapped);
    FromEntries(mapped)
  }

  /** The key `pick` stores `key` under: `rename?.[key] || key`. */
  function PickedName(key: string, rename: map<string, string>): string {
    if key in rename && rename[key] != "" then rename[key] else key
  }

  /** `obj[key]`, which is `undefined` for a missing key. */
  function Lookup(obj: map<string, Value>, key: string): Value {
    if key in obj then obj[key] else Undefined
  }

  /** The assignments `pick` makes, in order: `obj[key]` under its picked name. */
  function PickEntries(obj: map<string, Value>, keys: seq<string>, rename: map<string, string>): (r: seq<(string, Value)>)
    ensures |r| == |keys|
    ensures forall i :: 0 <= i < |keys| ==> r[i] == (PickedName(keys[i], rename), Lookup(obj, keys[i]))
  {
    seq(|keys|, i requires 0 <= i < |keys| => (PickedName(keys[i], rename), Lookup(obj, keys[i])))
  }

  /** One more key picked: one more assignment into the result. */
  lemma PickEntriesStep(obj: map<string, Value>, keys: seq<string>, rename: map<string, string>, i: nat)
    requires i < |keys|
    ensures FromEntries(PickEntries(obj, keys[..i + 1], rename))
            == FromEntries(PickEntries(obj, keys[..i], rename))[PickedName(keys[i], rename) := Lookup(obj, keys[i])]
  {
    var e := PickEntries(obj, keys[..i + 1], rename);
    assert e[..i] == PickEntries(obj, keys[..i], rename);
    assert e[i] == (PickedName(keys[i], rename), Lookup(obj, keys[i]));
  }

  /** The object `pick` builds has exactly the picked names as keys, and
      each name holds the value of the last key picked under it. */
  lemma PickedObject(obj: map<string, Value>, keys: seq<string>, rename: map<string, string>)
    ensures FromEntries(PickEntries(obj, keys, rename)).Keys == set k | k in keys :: PickedName(k, rename)
    ensures forall i :: 0 <= i < |keys|
              && (forall j :: i < j < |keys| ==> PickedName(keys[j], rename) != PickedName(keys[i], rename))
              ==> FromEntries(PickEntries(obj, keys, rename))[PickedName(keys[i], rename)] == Lookup(obj, keys[i])
  {
    var entries := PickEntries(obj, keys, rename);
    var result := FromEntries(entries);
    FromEntriesLastWins(entries);
    forall x ensures x in result <==> x in set k | k in keys :: PickedName(k, rename) {
      if x in result {
        var i :| 0 <= i < |entries| && entries[i].0 == x;
        assert keys[i] in keys;
      }
      if x in set k | k in keys :: PickedName(k, rename) {
        var k :| k in keys && PickedName(k, rename) == x;
        var i :| 0 <= i < |keys| && keys[i] == k;
        assert entries[i].0 == x;
      }
    }
    forall i | 0 <= i < |keys| && (forall j :: i < j < |keys| ==> PickedName(keys[j], rename) != PickedName(keys[i], rename))
      ensures result[PickedName(keys[i], rename)] == Lookup(obj, keys[i])
    {
      assert entries[i] == (PickedName(keys[i], rename), Lookup(obj, keys[i]));
      assert forall j :: i < j < |keys| ==> entries[j].0 == PickedName(keys[j], rename);
    }
  }

  /** `pick(obj, keys, rename)`: the loop over `keys` assigning into `result`. */
  method Pick(obj: Option<map<string, Value>>, keys: seq<string>, rename: map<string, string>)
    returns (result: map<string, Value>)
    ensures obj.None? ==> result == map[]
    ensures obj.Some? ==> result.Keys == set k | k in keys :: PickedName(k, rename)
    ensures obj.Some? ==>
              forall i :: 0 <= i < |keys|
                && (forall j :: i < j < |keys| ==> PickedName(keys[j], rename) != PickedName(keys[i], rename))
                ==> result[PickedName(keys[i], rename)] == Lookup(obj.value, keys[i])
  {
    result := map[];
    if obj.None? {
      return;
    }
    var o := obj.value;
    var i := 0;
    while i < |keys|
      invariant 0 <= i <= |keys|
      invariant result == FromEntries(PickEntries(o, keys[..i], rename))
    {
      PickEntriesStep(o, keys, rename, i);
      result := result[PickedName(keys[i], rename) := Lookup(o, keys[i])];
      i := i + 1;
    }
    assert keys[..|keys|] == keys;
    PickedObject(o, keys, rename);
  }
}
