/**
 The one-to-one bidirectional map (src/BidirectionMap.ts).

 The container keeps two maps, `keyToValue` and `valueToKey`, and every
 mutation writes both. The pure functions below give the state each mutation
 leaves behind; the class `BidirectionMap` performs the same updates in place
 and is proved to agree with them. What the source promises is proved about
 the functions: a `set` on a value owned by nobody else keeps the two maps
 inverse to each other, and the two deletes always do.

 Absence is map membership throughout. The source tests `if (oldValue)`,
 `if (!value)` and `if (!key)`, which also treat a falsy key or value (0, "",
 false) as absent; that JavaScript quirk is not modelled.
 */
module OneToOne {
  import opened Common

  /** The two internal maps of one container. */
  datatype Maps<K, V> = Maps(forward: map<K, V>, reverse: map<V, K>)

  /** The state of a new or cleared container. */
  function Empty<K(==), V(==)>(): (m: Maps<K, V>)
    ensures Inverse(m) && |m.forward| == 0 && |m.reverse| == 0
  {
    Maps(map[], map[])
  }

  /** forward and reverse are inverse to each other: no key points at a value
      that does not point back, and no value points at a key that does not
      point back. */
  ghost predicate Inverse<K, V>(m: Maps<K, V>)
  {
    && (forall k :: k in m.forward ==> m.forward[k] in m.reverse && m.reverse[m.forward[k]] == k)
    && (forall v :: v in m.reverse ==> m.reverse[v] in m.forward && m.forward[m.reverse[v]] == v)
  }

  /** `set(key, value)`: drop the reverse entry of the value `key` had, then
      write both directions. A different key that owned `value` keeps its
      forward entry. */
  function Put<K(==), V(==)>(m: Maps<K, V>, key: K, value: V): (r: Maps<K, V>)
    ensures key in r.forward && r.forward[key] == value
    ensures value in r.reverse && r.reverse[value] == key
    ensures r.forward.Keys == m.forward.Keys + {key}
    ensures forall k :: k in m.forward && k != key ==> r.forward[k] == m.forward[k]
    ensures key in m.forward && m.forward[key] != value ==> m.forward[key] !in r.reverse
    ensures r.reverse.Keys <= m.reverse.Keys + {value}
    ensures forall v :: v in r.reverse && v != value ==> r.reverse[v] == m.reverse[v]
    ensures forall v :: v in m.reverse && v != value && !(key in m.forward && m.forward[key] == v) ==> v in r.reverse
  {
    var reverse := if key in m.forward then m.reverse - {m.forward[key]} else m.reverse;
    Maps(m.forward[key := value], reverse[value := key])
  }

  /** `deleteKey(key)`: NotFound and no change when `key` is absent; otherwise
      both directions of `key`'s entry are gone and nothing else changed. */
  function RemoveKey<K(==), V(==)>(m: Maps<K, V>, key: K): (s: Step<Maps<K, V>, ()>)
    ensures s.result.Err? <==> key !in m.forward
    ensures s.result.Err? ==> s.result.error == NotFound && s.after == m
    ensures s.result.Ok? ==> s.after.forward.Keys == m.forward.Keys - {key}
    ensures s.result.Ok? ==> s.after.reverse.Keys == m.reverse.Keys - {m.forward[key]}
    ensures forall k :: k in s.after.forward ==> s.after.forward[k] == m.forward[k]
    ensures forall v :: v in s.after.reverse ==> s.after.reverse[v] == m.reverse[v]
  {
    if key !in m.forward then Step(m, Err(NotFound))
    else Step(Maps(m.forward - {key}, m.reverse - {m.forward[key]}), Ok(()))
  }

  /** `deleteValue(value)`: NotFound and no change when `value` is absent;
      otherwise both directions of `value`'s entry are gone and nothing else
      changed. */
  function RemoveValue<K(==), V(==)>(m: Maps<K, V>, value: V): (s: Step<Maps<K, V>, ()>)
    ensures s.result.Err? <==> value !in m.reverse
    ensures s.result.Err? ==> s.result.error == NotFound && s.after == m
    ensures s.result.Ok? ==> s.after.reverse.Keys == m.reverse.Keys - {value}
    ensures s.result.Ok? ==> s.after.forward.Keys == m.forward.Keys - {m.reverse[value]}
    ensures forall k :: k in s.after.forward ==> s.after.forward[k] == m.forward[k]
    ensures forall v :: v in s.after.reverse ==> s.after.reverse[v] == m.reverse[v]
  {
    if value !in m.reverse then Step(m, Err(NotFound))
    else Step(Maps(m.forward - {m.reverse[value]}, m.reverse - {value}), Ok(()))
  }

  /** Two inverse maps have as many values as keys, so `size` also counts values. */
  lemma {:induction false} InverseSizes<K, V>(m: Maps<K, V>)
    ensures Inverse(m) ==> |m.forward| == |m.reverse|
    decreases |m.forward|
  {
    if Inverse(m) && m.forward != map[] {
      var k :| k in m.forward;
      var v := m.forward[k];
      var smaller := Maps(m.forward - {k}, m.reverse - {v});
      assert smaller.forward.Keys == m.forward.Keys - {k};
      assert smaller.reverse.Keys == m.reverse.Keys - {v};
      assert Inverse(smaller);
      InverseSizes(smaller);
    } else if Inverse(m) {
      assert m.reverse.Keys == {};
    }
  }

  /** `set` keeps the two maps inverse exactly when `value` is unowned or
      already owned by `key`; otherwise the old owner keeps a stale forward
      entry pointing at `value`. */
  lemma PutKeepsInverse<K, V>(m: Maps<K, V>, key: K, value: V)
    requires Inverse(m)
    ensures Inverse(Put(m, key, value)) <==> (value !in m.reverse || m.reverse[value] == key)
  {
    var r := Put(m, key, value);
    if value in m.reverse && m.reverse[value] != key {
      var owner := m.reverse[value];
      assert owner in r.forward && r.forward[owner] == value;
      assert r.reverse[value] != owner;
    }
  }

  /** Repeating a `set` changes nothing. */
  lemma PutIdempotent<K, V>(m: Maps<K, V>, key: K, value: V)
    ensures Put(Put(m, key, value), key, value) == Put(m, key, value)
  {
    var once := Put(m, key, value);
    var twice := Put(once, key, value);
    assert twice.forward == once.forward;
    assert twice.reverse == once.reverse;
  }

  /** `deleteKey` keeps the two maps inverse. */
  lemma RemoveKeyKeepsInverse<K, V>(m: Maps<K, V>, key: K)
    requires Inverse(m)
    ensures Inverse(RemoveKey(m, key).after)
  {
  }

  /** `deleteValue` keeps the two maps inverse. */
  lemma RemoveValueKeepsInverse<K, V>(m: Maps<K, V>, value: V)
    requires Inverse(m)
    ensures Inverse(RemoveValue(m, value).after)
  {
  }

  /** On inverse maps, deleting a key and deleting its value are the same operation. */
  lemma RemoveValueIsRemoveKey<K, V>(m: Maps<K, V>, key: K)
    requires Inverse(m) && key in m.forward
    ensures RemoveValue(m, m.forward[key]) == RemoveKey(m, key)
  {
  }

  /** A fresh pair added by `set` is undone by `deleteKey`. */
  lemma PutThenRemoveKey<K, V>(m: Maps<K, V>, key: K, value: V)
    requires key !in m.forward && value !in m.reverse
    ensures RemoveKey(Put(m, key, value), key) == Step(m, Ok(()))
  {
    var s := RemoveKey(Put(m, key, value), key);
    assert s.after.forward == m.forward;
    assert s.after.reverse == m.reverse;
  }

  /** The container itself: two maps updated in place. */
  class BidirectionMap<K(==), V(==)> {
    var keyToValue: map<K, V>
    var valueToKey: map<V, K>

    /** The two fields as one value, for the specifications. */
    function Model(): Maps<K, V>
      reads this
    {
      Maps(keyToValue, valueToKey)
    }

    ghost predicate Valid()
      reads this
    {
      Inverse(Model())
    }

    constructor ()
      ensures Model() == Empty() && Valid()
    {
      keyToValue := map[];
      valueToKey := map[];
    }

    method Set(key: K, value: V)
      modifies this
      ensures Model() == Put(old(Model()), key, value)
      ensures Get(key) == Some(value) && GetKey(value) == Some(key)
      ensures old(Valid()) && (value in old(valueToKey) ==> old(valueToKey)[value] == key) ==> Valid()
    {
      ghost var before := Model();
      if key in keyToValue {
        var oldValue := keyToValue[key];
        valueToKey := valueToKey - {oldValue};
      }
      keyToValue := keyToValue[key := value];
      valueToKey := valueToKey[value := key];
      if Inverse(before) {
        PutKeepsInverse(before, key, value);
      }
    }

    function Get(key: K): (r: Option<V>)
      reads this
      ensures r.Some? <==> key in keyToValue
      ensures Valid() && r.Some? ==> r.value in valueToKey && valueToKey[r.value] == key
    {
      if key in keyToValue then Some(keyToValue[key]) else None
    }

    function GetKey(value: V): (r: Option<K>)
      reads this
      ensures r.Some? <==> value in valueToKey
      ensures Valid() && r.Some? ==> r.value in keyToValue && keyToValue[r.value] == value
    {
      if value in valueToKey then Some(valueToKey[value]) else None
    }

    function HasKey(key: K): (b: bool)
      reads this
      ensures Valid() ==> (b <==> exists v :: v in valueToKey && valueToKey[v] == key)
    {
      key in keyToValue
    }

    function HasValue(value: V): (b: bool)
      reads this
      ensures Valid() ==> (b <==> exists k :: k in keyToValue && keyToValue[k] == value)
    {
      value in valueToKey
    }

    method DeleteKey(key: K) returns (r: Result<()>)
      modifies this
      ensures Step(Model(), r) == RemoveKey(old(Model()), key)
      ensures r.Ok? ==> !HasKey(key) && !HasValue(old(keyToValue)[key])
      ensures old(Valid()) ==> Valid()
    {
      if key !in keyToValue {
        return Err(NotFound);
      }
      var value := keyToValue[key];
      valueToKey := valueToKey - {value};
      keyToValue := keyToValue - {key};
      r := Ok(());
    }

    method DeleteValue(value: V) returns (r: Result<()>)
      modifies this
      ensures Step(Model(), r) == RemoveValue(old(Model()), value)
      ensures r.Ok? ==> !HasValue(value) && !HasKey(old(valueToKey)[value])
      ensures old(Valid()) ==> Valid()
    {
      if value !in valueToKey {
        return Err(NotFound);
      }
      var key := valueToKey[value];
      keyToValue := keyToValue - {key};
      valueToKey := valueToKey - {value};
      r := Ok(());
    }

    method Clear()
      modifies this
      ensures Model() == Empty() && Valid() && Size() == 0
    {
      keyToValue := map[];
      valueToKey := map[];
    }

    /** The number of keys; on a valid container also the number of values. */
    function Size(): (n: nat)
      reads this
      ensures Valid() ==> n == |valueToKey|
    {
      InverseSizes(Model());
      |keyToValue|
    }
  }

  /** The one-to-one walkthrough: two pairs in, one key deleted. */
  lemma TwoPairsThenDeleteKey()
    ensures var m := Put(Put(Empty(), "a", 1), "b", 2);
            && m.forward["a"] == 1 && m.reverse[2] == "b" && |m.forward| == 2
            && RemoveKey(m, "a").result.Ok?
            && "a" !in RemoveKey(m, "a").after.forward && 1 !in RemoveKey(m, "a").after.reverse
            && |RemoveKey(m, "a").after.forward| == 1
  {
    var m := Put(Put(Empty(), "a", 1), "b", 2);
    assert m.forward.Keys == {"a", "b"};
    var d := RemoveKey(m, "a").after;
    assert d.forward.Keys == {"b"};
  }
}
