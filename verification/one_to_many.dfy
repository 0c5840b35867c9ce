/**
 The one-to-many bidirectional map (src/BidirectionMultipleValueMap.ts).

 Each key owns an ordered list of values and each value has one owning key.
 The container keeps `keyToValue` (key to its list) and `valueToKey` (value to
 its owner). The pure functions below give the state each mutation leaves
 behind, including the partial state a failing `set` leaves; the class
 `BidirectionMultipleValueMap` performs the same updates in place and is
 proved to agree with them. The lemmas prove that a consistent container never
 reaches the "in-consistent data" throws and stays consistent, and that
 `valueSize` is the total length of the lists.

 Absence is map membership throughout. `deleteValue` tests `if (!key)`,
 which also treats a falsy owner key (0, "", false) as absent; that
 JavaScript quirk is not modelled.
 */
module OneToMany {
  import opened Common

  /** The two internal maps of one container. */
  datatype Maps<K, V> = Maps(forward: map<K, seq<V>>, reverse: map<V, K>)

  /** The state of a new or cleared container. */
  function Empty<K(==), V(==)>(): (m: Maps<K, V>)
    ensures Consistent(m) && Tidy(m) && |m.forward| == 0 && |m.reverse| == 0
  {
    Maps(map[], map[])
  }

  /** The list `key` owns, or the empty list for an absent key. */
  function ValuesOf<K, V>(m: Maps<K, V>, key: K): seq<V>
  {
    if key in m.forward then m.forward[key] else []
  }

  /** The values of a list, as a set. */
  function Elements<V(==)>(s: seq<V>): set<V>
  {
    set v | v in s
  }

  ghost predicate Distinct<V>(s: seq<V>)
  {
    forall i, j :: 0 <= i < j < |s| ==> s[i] != s[j]
  }

  /** Every listed value points back at the key that lists it. */
  ghost predicate Owned<K, V>(m: Maps<K, V>)
  {
    forall k, v :: k in m.forward && v in m.forward[k] ==> v in m.reverse && m.reverse[v] == k
  }

  /** Every value with an owner is listed under that owner. */
  ghost predicate Listed<K, V>(m: Maps<K, V>)
  {
    forall v :: v in m.reverse ==> m.reverse[v] in m.forward && v in m.forward[m.reverse[v]]
  }

  /** The two maps agree: each owned value appears exactly once, in its owner's list. */
  ghost predicate Consistent<K, V>(m: Maps<K, V>)
  {
    && Owned(m)
    && Listed(m)
    && (forall k :: k in m.forward ==> Distinct(m.forward[k]))
  }

  /** No key holds an empty list. */
  ghost predicate Tidy<K, V>(m: Maps<K, V>)
  {
    forall k :: k in m.forward ==> m.forward[k] != []
  }

  /** `Array.prototype.indexOf`: the position of the first occurrence of `x`, or -1. */
  function IndexOf<V(==)>(s: seq<V>, x: V): (i: int)
    ensures -1 <= i < |s|
    ensures i == -1 <==> x !in s
    ensures 0 <= i ==> s[i] == x && x !in s[..i]
  {
    if s == [] then -1
    else if s[0] == x then 0
    else
      var j := IndexOf(s[1..], x);
      if j == -1 then -1
      else
        assert s[..j + 1] == [s[0]] + s[1..][..j];
        j + 1
  }

  /** `splice(index, 1)`: the list without its element at `index`, the others in their order. */
  function Splice<V>(s: seq<V>, index: nat): (r: seq<V>)
    requires index < |s|
    ensures |r| == |s| - 1
    ensures forall j :: 0 <= j < index ==> r[j] == s[j]
    ensures forall j :: index <= j < |r| ==> r[j] == s[j + 1]
  {
    s[..index] + s[index + 1..]
  }

  /** Removing one element of a list without duplicates leaves exactly the
      other elements, still without duplicates. */
  lemma SpliceDistinct<V>(s: seq<V>, index: nat)
    requires index < |s| && Distinct(s)
    ensures Distinct(Splice(s, index))
    ensures forall v :: v in Splice(s, index) <==> v in s && v != s[index]
  {
    var r := Splice(s, index);
    forall v | v in s && v != s[index]
      ensures v in r
    {
      var i :| 0 <= i < |s| && s[i] == v;
      if i < index {
        assert r[i] == v;
      } else {
        assert r[i - 1] == v;
      }
    }
  }

  /** Whether `set(key, value)` does anything: it returns at once when `value`
      is already owned by `key`. */
  predicate Changes<K(==), V(==)>(m: Maps<K, V>, key: K, value: V)
  {
    !(value in m.reverse && m.reverse[value] == key)
  }

  /** `set(key, value)`, as written: append `value` to `key`'s list, then take
      it out of its previous owner's list (by `indexOf` and `splice`, leaving
      that owner's key even when its list becomes empty), then repoint the
      reverse entry. The append happens before the two integrity checks, so a
      failing check leaves it behind. */
  function Put<K(==), V(==)>(m: Maps<K, V>, key: K, value: V): (s: Step<Maps<K, V>, ()>)
    ensures !Changes(m, key, value) ==> s == Step(m, Ok(()))
    ensures Changes(m, key, value) ==>
              && s.after.forward.Keys == m.forward.Keys + {key}
              && s.after.forward[key] == ValuesOf(m, key) + [value]
    ensures forall k :: k in m.forward && k != key && !(s.result.Ok? && value in m.reverse && k == m.reverse[value]) ==>
              s.after.forward[k] == m.forward[k]
    ensures s.result.Err? <==>
              && Changes(m, key, value)
              && value in m.reverse
              && (m.reverse[value] !in m.forward || value !in m.forward[m.reverse[value]])
    ensures s.result.Err? ==> s.result.error == Inconsistent && s.after.reverse == m.reverse
    ensures s.result.Ok? ==> s.after.reverse == m.reverse[value := key]
    ensures s.result.Ok? && Changes(m, key, value) && value in m.reverse ==>
              var owner := m.reverse[value];
              var index := IndexOf(m.forward[owner], value);
              0 <= index && s.after.forward[owner] == Splice(m.forward[owner], index)
  {
    if !Changes(m, key, value) then Step(m, Ok(()))
    else
      var pushed := m.forward[key := ValuesOf(m, key) + [value]];
      if value !in m.reverse then Step(Maps(pushed, m.reverse[value := key]), Ok(()))
      else
        var owner := m.reverse[value];
        if owner !in pushed then Step(Maps(pushed, m.reverse), Err(Inconsistent))
        else
          var index := IndexOf(pushed[owner], value);
          if index == -1 then Step(Maps(pushed, m.reverse), Err(Inconsistent))
          else Step(Maps(pushed[owner := Splice(pushed[owner], index)], m.reverse[value := key]), Ok(()))
  }

  /** `deleteKey(key)`: NotFound and no change when `key` is absent; otherwise
      `key` and the reverse entries of all its values are gone, and nothing
      else changed. */
  function RemoveKey<K(==), V(==)>(m: Maps<K, V>, key: K): (s: Step<Maps<K, V>, ()>)
    ensures s.result.Err? <==> key !in m.forward
    ensures s.result.Err? ==> s.result.error == NotFound && s.after == m
    ensures s.result.Ok? ==> s.after.forward.Keys == m.forward.Keys - {key}
    ensures forall k :: k in s.after.forward ==> s.after.forward[k] == m.forward[k]
    ensures s.result.Ok? ==> forall v :: v in m.forward[key] ==> v !in s.after.reverse
    ensures forall v :: v in m.reverse && v !in ValuesOf(m, key) ==> v in s.after.reverse
    ensures forall v :: v in s.after.reverse ==> v in m.reverse && s.after.reverse[v] == m.reverse[v]
  {
    if key !in m.forward then Step(m, Err(NotFound))
    else Step(Maps(m.forward - {key}, m.reverse - Elements(m.forward[key])), Ok(()))
  }

  /** `deleteValue(value)`: NotFound when `value` is absent, Inconsistent when
      its owner does not list it, and in both cases no change. Otherwise the
      value leaves its owner's list and the reverse map, and the result is true
      exactly when that list became empty, in which case the owner's key is
      gone too. */
  function RemoveValue<K(==), V(==)>(m: Maps<K, V>, value: V): (s: Step<Maps<K, V>, bool>)
    ensures s.result == Err(NotFound) <==> value !in m.reverse
    ensures s.result == Err(Inconsistent) <==>
              value in m.reverse && (m.reverse[value] !in m.forward || value !in m.forward[m.reverse[value]])
    ensures s.result.Err? ==> s.after == m
    ensures s.result.Ok? ==> s.after.reverse.Keys == m.reverse.Keys - {value}
    ensures forall v :: v in s.after.reverse ==> s.after.reverse[v] == m.reverse[v]
    ensures s.result.Ok? ==>
              var owner := m.reverse[value];
              && (s.result.value <==> |m.forward[owner]| == 1)
              && (s.result.value <==> owner !in s.after.forward)
              && (!s.result.value ==>
                    s.after.forward[owner] == Splice(m.forward[owner], IndexOf(m.forward[owner], value)))
              && s.after.forward.Keys <= m.forward.Keys
              && forall k :: k in m.forward && k != owner ==> k in s.after.forward && s.after.forward[k] == m.forward[k]
  {
    if value !in m.reverse then Step(m, Err(NotFound))
    else
      var owner := m.reverse[value];
      if owner !in m.forward then Step(m, Err(Inconsistent))
      else
        var index := IndexOf(m.forward[owner], value);
        if index == -1 then Step(m, Err(Inconsistent))
        else
          var rest := Splice(m.forward[owner], index);
          if rest == [] then Step(Maps(m.forward - {owner}, m.reverse - {value}), Ok(true))
          else Step(Maps(m.forward[owner := rest], m.reverse - {value}), Ok(false))
  }

  /** `set` for each of `values` in order under `key`, stopping at the first
      failure. When every `set` succeeds, `key` owns all of `values`. */
  function PutAll<K(==), V(==)>(m: Maps<K, V>, key: K, values: seq<V>): (s: Step<Maps<K, V>, ()>)
    ensures values == [] ==> s == Step(m, Ok(()))
    ensures s.result.Err? ==> s.result.error == Inconsistent
    ensures s.result.Ok? ==> forall v :: v in values ==> v in s.after.reverse && s.after.reverse[v] == key
    ensures s.result.Ok? ==> forall v :: v in m.reverse && m.reverse[v] == key ==> v in s.after.reverse && s.after.reverse[v] == key
    decreases |values|
  {
    if values == [] then Step(m, Ok(()))
    else
      var first := Put(m, key, values[0]);
      if first.result.Err? then first else PutAll(first.after, key, values[1..])
  }

  /** What the constructor does with its `entries`: `PutAll` for each pair in
      order. When every `set` succeeds, the key of the last entry owns all of
      that entry's values: a later entry wins over an earlier one. */
  function Load<K(==), V(==)>(m: Maps<K, V>, entries: seq<(K, seq<V>)>): (s: Step<Maps<K, V>, ()>)
    ensures entries == [] ==> s == Step(m, Ok(()))
    ensures s.result.Err? ==> s.result.error == Inconsistent
    ensures s.result.Ok? && entries != [] ==>
              var last := entries[|entries| - 1];
              forall v :: v in last.1 ==> v in s.after.reverse && s.after.reverse[v] == last.0
    decreases |entries|
  {
    if entries == [] then Step(m, Ok(()))
    else
      var first := PutAll(m, entries[0].0, entries[0].1);
      if first.result.Err? then first else Load(first.after, entries[1..])
  }

  /** An arbitrary key of a non-empty map. */
  ghost function PickKey<K, V>(m: map<K, V>): (k: K)
    requires m != map[]
    ensures k in m
  {
    var k :| k in m; k
  }

  /** The sum of the lengths of all lists. */
  ghost function TotalLength<K, V>(forward: map<K, seq<V>>): nat
    decreases |forward|
  {
    if forward == map[] then 0
    else
      var k := PickKey(forward);
      assert (forward - {k}).Keys == forward.Keys - {k};
      |forward[k]| + TotalLength(forward - {k})
  }

  /** The sum does not depend on which key is taken first. */
  lemma {:induction false} TotalLengthRemove<K, V>(forward: map<K, seq<V>>, k: K)
    requires k in forward
    ensures TotalLength(forward) == |forward[k]| + TotalLength(forward - {k})
    decreases |forward|
  {
    var j := PickKey(forward);
    if j != k {
      assert (forward - {j}).Keys == forward.Keys - {j};
      assert (forward - {k}).Keys == forward.Keys - {k};
      TotalLengthRemove(forward - {j}, k);
      TotalLengthRemove(forward - {k}, j);
      assert forward - {j} - {k} == forward - {k} - {j};
    }
  }

  /** A list without duplicates has as many elements as it has distinct values. */
  lemma {:induction false} DistinctElements<V>(s: seq<V>)
    requires Distinct(s)
    ensures |Elements(s)| == |s|
  {
    if s != [] {
      assert Distinct(s[1..]);
      DistinctElements(s[1..]);
      assert Elements(s) == {s[0]} + Elements(s[1..]);
      assert s[0] !in Elements(s[1..]);
    }
  }

  /** Taking one key out of a consistent container, with the reverse entries of
      its values, leaves a consistent container. */
  lemma RemoveOwnerConsistent<K, V>(m: Maps<K, V>, k: K)
    requires Consistent(m) && k in m.forward
    ensures Consistent(Maps(m.forward - {k}, m.reverse - Elements(m.forward[k])))
    ensures Elements(m.forward[k]) <= m.reverse.Keys
  {
  }

  /** A consistent container without keys has no values. */
  lemma NoKeysNoValues<K, V>(m: Maps<K, V>)
    requires Consistent(m) && m.forward == map[]
    ensures m.reverse == map[]
  {
    assert m.reverse.Keys == {};
  }

  /** Taking a subset out of a finite set leaves the difference in size. */
  lemma RemoveSubsetSize<V>(all: set<V>, part: set<V>)
    requires part <= all
    ensures |all - part| == |all| - |part|
  {
    assert all == (all - part) + part;
    assert (all - part) * part == {};
  }

  /** `valueSize` is the total length of the lists of a consistent container. */
  lemma {:induction false} ValueCount<K, V>(m: Maps<K, V>)
    ensures Consistent(m) ==> |m.reverse| == TotalLength(m.forward)
    decreases |m.forward|
  {
    if Consistent(m) {
      if m.forward == map[] {
        NoKeysNoValues(m);
      } else {
        var k := PickKey(m.forward);
        var owned := Elements(m.forward[k]);
        var rest := Maps(m.forward - {k}, m.reverse - owned);
        assert rest.forward.Keys == m.forward.Keys - {k};
        RemoveOwnerConsistent(m, k);
        ValueCount(rest);
        TotalLengthRemove(m.forward, k);
        DistinctElements(m.forward[k]);
        assert rest.reverse.Keys == m.reverse.Keys - owned;
        assert |m.reverse| == |m.reverse.Keys|;
        RemoveSubsetSize(m.reverse.Keys, owned);
      }
    }
  }

  /** With no empty lists, a consistent container has keys exactly when it has values. */
  lemma KeysIffValues<K, V>(m: Maps<K, V>)
    ensures Consistent(m) && Tidy(m) ==> (|m.forward| == 0 <==> |m.reverse| == 0)
  {
    if Consistent(m) && Tidy(m) {
      if m.forward != map[] {
        var k := PickKey(m.forward);
        assert m.forward[k][0] in m.forward[k];
        assert m.forward[k][0] in m.reverse;
      } else {
        assert m.reverse.Keys == {};
      }
    }
  }

  /** On a consistent container `set` never reaches the integrity throws and
      the container stays consistent. */
  lemma PutKeepsConsistent<K, V>(m: Maps<K, V>, key: K, value: V)
    requires Consistent(m)
    ensures Put(m, key, value).result.Ok?
    ensures Consistent(Put(m, key, value).after)
  {
    var s := Put(m, key, value);
    if Changes(m, key, value) {
      assert value !in ValuesOf(m, key);
      var appended := ValuesOf(m, key) + [value];
      assert Distinct(appended);
      if value in m.reverse {
        var owner := m.reverse[value];
        var index := IndexOf(m.forward[owner], value);
        SpliceDistinct(m.forward[owner], index);
      }
    }
  }

  /** Repeating a successful `set` changes nothing. */
  lemma PutIdempotent<K, V>(m: Maps<K, V>, key: K, value: V)
    requires Put(m, key, value).result.Ok?
    ensures Put(Put(m, key, value).after, key, value) == Put(m, key, value)
  {
  }

  /** Move semantics: after `set(k1, v)` and then `set(k2, v)` with k1 != k2,
      `v` belongs to `k2` and is no longer listed under `k1`. */
  lemma PutMoves<K, V>(m: Maps<K, V>, k1: K, k2: K, value: V)
    requires Consistent(m) && k1 != k2
    ensures var first := Put(m, k1, value).after;
            var second := Put(first, k2, value).after;
            && second.reverse[value] == k2
            && k1 in second.forward && value !in second.forward[k1]
  {
    PutKeepsConsistent(m, k1, value);
    var first := Put(m, k1, value).after;
    PutKeepsConsistent(first, k2, value);
  }

  /** `set` can leave an empty list behind: moving the only value of a key
      keeps that key, so "no key holds an empty list" is not preserved. */
  lemma PutMayLeaveEmptyList()
    ensures var m := Maps(map[1 := [10]], map[10 := 1]);
            && Consistent(m) && Tidy(m)
            && Put(m, 2, 10).result.Ok?
            && Put(m, 2, 10).after.forward == map[1 := [], 2 := [10]]
            && !Tidy(Put(m, 2, 10).after)
  {
    var m := Maps(map[1 := [10]], map[10 := 1]);
    assert ValuesOf(m, 2) + [10] == [10];
    assert IndexOf([10], 10) == 0;
    assert Splice([10], 0) == [];
    var after := Put(m, 2, 10).after;
    assert after.forward == map[1 := [], 2 := [10]];
  }

  /** No rollback: when the integrity check fails, the value has already been
      appended to the new key's list and stays there. */
  lemma PutFailsAfterAppending()
    ensures var m := Maps(map[], map[10 := 1]);
            Put(m, 2, 10) == Step(Maps(map[2 := [10]], map[10 := 1]), Err(Inconsistent))
  {
    var m := Maps(map[], map[10 := 1]);
    assert ValuesOf(m, 2) + [10] == [10];
  }

  /** `deleteKey` keeps a container consistent and free of empty lists. */
  lemma RemoveKeyKeepsConsistent<K, V>(m: Maps<K, V>, key: K)
    ensures Consistent(m) ==> Consistent(RemoveKey(m, key).after)
    ensures Tidy(m) ==> Tidy(RemoveKey(m, key).after)
  {
  }

  /** On a consistent container `deleteValue` fails only with NotFound, and it
      keeps the container consistent and free of empty lists. */
  lemma RemoveValueKeepsConsistent<K, V>(m: Maps<K, V>, value: V)
    requires Consistent(m)
    ensures RemoveValue(m, value).result != Err(Inconsistent)
    ensures Consistent(RemoveValue(m, value).after)
    ensures Tidy(m) ==> Tidy(RemoveValue(m, value).after)
  {
    if value in m.reverse {
      var owner := m.reverse[value];
      SpliceDistinct(m.forward[owner], IndexOf(m.forward[owner], value));
    }
  }

  /** `set` for every value of every entry keeps a consistent container
      consistent and never fails. */
  lemma {:induction false} PutAllKeepsConsistent<K, V>(m: Maps<K, V>, key: K, values: seq<V>)
    requires Consistent(m)
    ensures PutAll(m, key, values).result.Ok?
    ensures Consistent(PutAll(m, key, values).after)
    decreases |values|
  {
    if values != [] {
      PutKeepsConsistent(m, key, values[0]);
      PutAllKeepsConsistent(Put(m, key, values[0]).after, key, values[1..]);
    }
  }

  lemma {:induction false} LoadKeepsConsistent<K, V>(m: Maps<K, V>, entries: seq<(K, seq<V>)>)
    requires Consistent(m)
    ensures Load(m, entries).result.Ok?
    ensures Consistent(Load(m, entries).after)
    decreases |entries|
  {
    if entries != [] {
      PutAllKeepsConsistent(m, entries[0].0, entries[0].1);
      LoadKeepsConsistent(PutAll(m, entries[0].0, entries[0].1).after, entries[1..]);
    }
  }

  /** The container itself: two maps updated in place. */
  class BidirectionMultipleValueMap<K(==), V(==)> {
    var keyToValue: map<K, seq<V>>
    var valueToKey: map<V, K>

    /** The two fields as one value, for the specifications. */
    function Model(): Maps<K, V>
      reads this
    {
      Maps(keyToValue, valueToKey)
    }

    ghost predicate Valid()
      reads this
    {
      Consistent(Model())
    }

    /** Built by `set(key, value)` for each value of each entry, in order; the
        source's omitted `entries` is the empty list here. */
    constructor (entries: seq<(K, seq<V>)>)
      ensures Model() == Load(Empty(), entries).after && Valid()
    {
      keyToValue := map[];
      valueToKey := map[];
      new;
      var i := 0;
      while i < |entries|
        invariant 0 <= i <= |entries|
        invariant Valid()
        invariant Load(Model(), entries[i..]) == Load(Empty(), entries)
      {
        var (key, values) := entries[i];
        ghost var start := Model();
        var j := 0;
        while j < |values|
          invariant 0 <= j <= |values|
          invariant Valid()
          invariant PutAll(Model(), key, values[j..]) == PutAll(start, key, values)
        {
          PutKeepsConsistent(Model(), key, values[j]);
          var _ := Set(key, values[j]);
          assert values[j..][1..] == values[j + 1..];
          j := j + 1;
        }
        PutAllKeepsConsistent(start, key, values);
        assert entries[i..][1..] == entries[i + 1..];
        i := i + 1;
      }
    }

    method Set(key: K, value: V) returns (r: Result<()>)
      modifies this
      ensures Step(Model(), r) == Put(old(Model()), key, value)
      ensures old(Valid()) ==> r.Ok? && Valid()
    {
      if value in valueToKey && valueToKey[value] == key {
        return Ok(());
      }
      var values := if key in keyToValue then keyToValue[key] else [];
      keyToValue := keyToValue[key := values + [value]];
      if value in valueToKey {
        var oldKey := valueToKey[value];
        if oldKey !in keyToValue {
          return Err(Inconsistent);
        }
        var oldValues := keyToValue[oldKey];
        var index := IndexOf(oldValues, value);
        if index == -1 {
          return Err(Inconsistent);
        }
        keyToValue := keyToValue[oldKey := Splice(oldValues, index)];
      }
      valueToKey := valueToKey[value := key];
      r := Ok(());
      if old(Valid()) {
        PutKeepsConsistent(old(Model()), key, value);
      }
    }

    function Get(key: K): (r: Option<seq<V>>)
      reads this
      ensures r.Some? <==> key in keyToValue
      ensures Valid() && r.Some? ==> forall v :: v in r.value ==> v in valueToKey && valueToKey[v] == key
    {
      if key in keyToValue then Some(keyToValue[key]) else None
    }

    function GetKey(value: V): (r: Option<K>)
      reads this
      ensures r.Some? <==> value in valueToKey
      ensures Valid() && r.Some? ==> r.value in keyToValue && value in keyToValue[r.value]
    {
      if value in valueToKey then Some(valueToKey[value]) else None
    }

    function HasKey(key: K): (b: bool)
      reads this
      ensures Valid() && Tidy(Model()) ==> (b <==> exists v :: v in valueToKey && valueToKey[v] == key)
    {
      assert Valid() && Tidy(Model()) && key in keyToValue ==>
        keyToValue[key][0] in valueToKey && valueToKey[keyToValue[key][0]] == key;
      key in keyToValue
    }

    function HasValue(value: V): (b: bool)
      reads this
      ensures Valid() ==> (b <==> exists k :: k in keyToValue && value in keyToValue[k])
    {
      value in valueToKey
    }

    method DeleteKey(key: K) returns (r: Result<()>)
      modifies this
      ensures Step(Model(), r) == RemoveKey(old(Model()), key)
      ensures old(Valid()) ==> Valid()
      ensures old(Tidy(Model())) ==> Tidy(Model())
    {
      if key !in keyToValue {
        return Err(NotFound);
      }
      var values := keyToValue[key];
      var i := 0;
      while i < |values|
        invariant 0 <= i <= |values|
        invariant keyToValue == old(keyToValue)
        invariant valueToKey == old(valueToKey) - Elements(values[..i])
      {
        assert Elements(values[..i + 1]) == Elements(values[..i]) + {values[i]} by {
          assert values[..i + 1] == values[..i] + [values[i]];
        }
        valueToKey := valueToKey - {values[i]};
        i := i + 1;
      }
      assert values[..i] == values;
      keyToValue := keyToValue - {key};
      r := Ok(());
      RemoveKeyKeepsConsistent(old(Model()), key);
    }

    method DeleteValue(value: V) returns (r: Result<bool>)
      modifies this
      ensures Step(Model(), r) == RemoveValue(old(Model()), value)
      ensures old(Valid()) ==> r != Err(Inconsistent) && Valid()
      ensures old(Valid() && Tidy(Model())) ==> Tidy(Model())
    {
      if value !in valueToKey {
        return Err(NotFound);
      }
      var key := valueToKey[value];
      if key !in keyToValue {
        return Err(Inconsistent);
      }
      var values := keyToValue[key];
      var index := IndexOf(values, value);
      if index == -1 {
        return Err(Inconsistent);
      }
      var rest := Splice(values, index);
      keyToValue := keyToValue[key := rest];
      valueToKey := valueToKey - {value};
      if |rest| == 0 {
        keyToValue := keyToValue - {key};
        assert keyToValue == old(keyToValue) - {key};
        r := Ok(true);
      } else {
        r := Ok(false);
      }
      if old(Valid()) {
        RemoveValueKeepsConsistent(old(Model()), value);
      }
    }

    method Clear()
      modifies this
      ensures Model() == Empty() && Valid() && Tidy(Model())
      ensures Size() == 0 && ValueSize() == 0
    {
      keyToValue := map[];
      valueToKey := map[];
    }

    /** The number of keys; with no empty lists, zero exactly when there are no values. */
    function Size(): (n: nat)
      reads this
      ensures Valid() && Tidy(Model()) ==> (n == 0 <==> |valueToKey| == 0)
    {
      KeysIffValues(Model());
      |keyToValue|
    }

    /** The number of owned values: on a valid container, the total length of the lists. */
    function ValueSize(): (n: nat)
      reads this
      ensures Valid() ==> n == TotalLength(keyToValue)
    {
      ValueCount(Model());
      |valueToKey|
    }
  }

  /** The one-to-many walkthrough: 2 moves from "a" to "b". */
  lemma MoveBetweenTwoKeys()
    ensures var m := Put(Put(Put(Empty(), "a", 1).after, "a", 2).after, "b", 2).after;
            && m.forward["a"] == [1] && m.forward["b"] == [2] && m.reverse[2] == "b"
  {
    var m1 := Put(Empty(), "a", 1).after;
    var m2 := Put(m1, "a", 2).after;
    assert m2.forward["a"] == [1, 2];
    assert IndexOf([1, 2], 2) == 1;
  }

  /** Deleting the only value of a key drops the key and reports it; deletes of
      an absent key or value fail with NotFound. */
  lemma DeleteOnlyValue()
    ensures var m := Put(Empty(), "a", 1).after;
            && RemoveValue(m, 1) == Step(Empty(), Ok(true))
            && RemoveKey(m, "b").result == Err(NotFound)
            && RemoveValue(m, 2).result == Err(NotFound)
  {
    var m := Put(Empty<string, int>(), "a", 1).after;
    assert m.forward["a"] == [1];
    assert IndexOf([1], 1) == 0;
    assert RemoveValue(m, 1).after.forward == map[];
  }
}
