/**
 * The module-level dictionary helpers of `dict_tricks.py`: inverting a dict, testing two
 * dicts for being inverses, and merging one dict into another in place.
 */
module DictTricks {
  import opened Results
  import opened Maps
  import opened Dicts

  // ---------------------------------------------------------------------------
  // Inversion
  // ---------------------------------------------------------------------------

  /** `_inv_dict_iter(d)`: the items of `d` with key and value swapped, in `d`'s order. */
  function InvDictIter<K, V>(d: Dict<K, V>): (r: seq<(V, K)>)
    requires d.Valid()
    ensures |r| == |d.order|
    ensures forall i :: 0 <= i < |r| ==> r[i].1 in d.entries && d.entries[r[i].1] == r[i].0
  {
    seq(|d.order|, i requires 0 <= i < |d.order| => (d.entries[d.order[i]], d.order[i]))
  }

  /** The swapped items have exactly the values of `d` as their first components. */
  lemma InvDictIterKeys<K, V>(d: Dict<K, V>)
    requires d.Valid()
    ensures KeysOf(InvDictIter(d)) == d.entries.Values
  {
    var r := InvDictIter(d);
    forall v | v in d.entries.Values ensures v in KeysOf(r) {
      var k :| k in d.entries && d.entries[k] == v;
      var i :| 0 <= i < |d.order| && d.order[i] == k;
      assert r[i].0 == v;
    }
  }

  /** `invert_dict(d, check)` */
  function InvertDict<K, V>(d: Dict<K, V>, check: bool): (r: Result<Dict<V, K>>)
    requires d.Valid()
    ensures r.Err? ==> r.error == ValueError && check
    ensures r.Ok? ==> r.value.Valid()
  {
    var inverted := FromPairs(InvDictIter(d));
    if check && |inverted.entries| < |d.entries| then Err(ValueError) else Ok(inverted)
  }

  /**
   * The unchecked inversion has the values of `d` as keys, and maps each of them back to a
   * key that carries it.
   */
  lemma InvertDictUnchecked<K, V>(d: Dict<K, V>)
    requires d.Valid()
    ensures InvertDict(d, false).Ok?
    ensures var r := InvertDict(d, false).value.entries;
      && r.Keys == d.entries.Values
      && |r| == |d.entries.Values|
      && (forall v :: v in r ==> r[v] in d.entries && d.entries[r[v]] == v)
  {
    var ps := InvDictIter(d);
    UpdateKeys(Empty(), ps);
    InvDictIterKeys(d);
    UpdateKeepsUndoing(Empty(), ps, d.entries);
    var r := InvertDict(d, false).value.entries;
    assert |r| == |r.Keys|;
  }

  /** A repeated value is sent to the LAST key (in insertion order) that holds it. */
  lemma InvertDictLastWins<K, V>(d: Dict<K, V>, i: nat)
    requires d.Valid() && i < |d.order|
    requires forall j :: i < j < |d.order| ==> d.entries[d.order[j]] != d.entries[d.order[i]]
    ensures InvertDict(d, false).Ok?
    ensures d.entries[d.order[i]] in InvertDict(d, false).value.entries
    ensures InvertDict(d, false).value.entries[d.entries[d.order[i]]] == d.order[i]
  {
    UpdateLastWins(Empty(), InvDictIter(d), i);
  }

  /**
   * Checked inversion raises `ValueError` exactly when a value is repeated; otherwise the
   * result undoes `d` and has as many entries.
   */
  lemma InvertDictChecked<K, V>(d: Dict<K, V>)
    requires d.Valid()
    ensures InvertDict(d, true).Err? <==> !Injective(d.entries)
    ensures InvertDict(d, true).Ok? ==>
      var r := InvertDict(d, true).value.entries;
      |r| == |d.entries| && forall k :: k in d.entries ==> d.entries[k] in r && r[d.entries[k]] == k
  {
    InvertDictUnchecked(d);
    InjectiveIffCard(d.entries);
    assert |d.entries.Keys| == |d.entries|;
    var r := InvertDict(d, false).value.entries;
    if Injective(d.entries) {
      forall k | k in d.entries ensures d.entries[k] in r && r[d.entries[k]] == k {
        assert d.entries[k] in d.entries.Values;
      }
    }
  }

  // ---------------------------------------------------------------------------
  // Inverse test
  // ---------------------------------------------------------------------------

  /**
   * `is_inverse_dict(map1, map2)`, with a missing value read as "not inverses" (see
   * `IsInverseDictAsWritten` for the code as written): equal sizes and every pair of `map1`
   * present swapped in `map2`, which is the same as the two being inverses both ways.
   */
  function IsInverseDict<K, V>(map1: map<K, V>, map2: map<V, K>): (r: bool)
    ensures r <==> Inverses(map1, map2)
    ensures |map1| != |map2| ==> !r
  {
    InversesIffOneSided(map1, map2);
    |map1| == |map2| && forall k :: k in map1 ==> map1[k] in map2 && map2[map1[k]] == k
  }

  /** Being inverses is symmetric, so the test does not depend on the order of its arguments. */
  lemma IsInverseDictSymmetric<K, V>(map1: map<K, V>, map2: map<V, K>)
    ensures IsInverseDict(map1, map2) == IsInverseDict(map2, map1)
  {
    InversesSymmetric(map1, map2);
  }

  /**
   * `all(map2[v] == k for k, v in map1.items())`: walks the items in order, stops at the
   * first mismatch, and raises `KeyError` at a value missing from `map2`.
   */
  function AllSwappedPresent<K(==), V>(items: seq<(K, V)>, map2: map<V, K>): (r: Result<bool>)
    ensures r.Err? ==> r.error == KeyError
  {
    if items == [] then Ok(true)
    else if items[0].1 !in map2 then Err(KeyError)
    else if map2[items[0].1] != items[0].0 then Ok(false)
    else AllSwappedPresent(items[1..], map2)
  }

  /** `is_inverse_dict(map1, map2)` exactly as written, `map2[v]` raising for a missing `v`. */
  function IsInverseDictAsWritten<K(==), V>(map1: Dict<K, V>, map2: map<V, K>): (r: Result<bool>)
    requires map1.Valid()
    ensures r.Err? ==> r.error == KeyError
  {
    if |map1.entries| != |map2| then Ok(false) else AllSwappedPresent(Items(map1), map2)
  }

  lemma {:induction false} AllSwappedPresentMeaning<K, V>(items: seq<(K, V)>, map2: map<V, K>)
    ensures AllSwappedPresent(items, map2) == Ok(true) <==>
      forall i :: 0 <= i < |items| ==> items[i].1 in map2 && map2[items[i].1] == items[i].0
    ensures AllSwappedPresent(items, map2).Err? ==>
      exists i :: 0 <= i < |items| && items[i].1 !in map2
  {
    if items != [] {
      AllSwappedPresentMeaning(items[1..], map2);
      assert forall i :: 1 <= i < |items| ==> items[i] == items[1..][i - 1];
      if AllSwappedPresent(items, map2).Err? && items[0].1 in map2 {
        var i :| 0 <= i < |items[1..]| && items[1..][i].1 !in map2;
        assert items[i + 1].1 !in map2;
      }
    }
  }

  /**
   * When the code as written returns, it returns the corrected answer; it raises only on
   * dicts of equal size that are not inverses.
   */
  lemma IsInverseDictAsWrittenAgrees<K, V>(map1: Dict<K, V>, map2: map<V, K>)
    requires map1.Valid()
    ensures IsInverseDictAsWritten(map1, map2).Ok? ==>
      IsInverseDictAsWritten(map1, map2).value == IsInverseDict(map1.entries, map2)
    ensures IsInverseDictAsWritten(map1, map2).Err? ==>
      |map1.entries| == |map2| && !IsInverseDict(map1.entries, map2)
  {
    var items := Items(map1);
    AllSwappedPresentMeaning(items, map2);
    if |map1.entries| == |map2| {
      if forall i :: 0 <= i < |items| ==> items[i].1 in map2 && map2[items[i].1] == items[i].0 {
        forall k | k in map1.entries ensures map1.entries[k] in map2 && map2[map1.entries[k]] == k {
          var i :| 0 <= i < |map1.order| && map1.order[i] == k;
        }
      } else {
        var i :| 0 <= i < |items| && !(items[i].1 in map2 && map2[items[i].1] == items[i].0);
        assert map1.order[i] in map1.entries;
      }
    }
  }

  /** `is_inverse_dict({1: 'a'}, {'b': 1})` raises `KeyError` instead of returning `False`. */
  lemma IsInverseDictAsWrittenRaises()
    ensures IsInverseDictAsWritten(Dict([1], map[1 := 'a']), map['b' := 1]) == Err(KeyError)
    ensures !IsInverseDict(map[1 := 'a'], map['b' := 1])
  {
    var d := Dict([1], map[1 := 'a']);
    assert Items(d) == [(1, 'a')];
    assert |map[1 := 'a']| == 1 && |map['b' := 1]| == 1;
  }

  // ---------------------------------------------------------------------------
  // In-place merging
  // ---------------------------------------------------------------------------

  /** The `Dictable` argument: a mapping, or an iterable of key-value pairs. */
  datatype Dictable<K, V> = Mapping(m: Dict<K, V>) | Pairs(pairs: seq<(K, V)>) {
    ghost predicate Valid() {
      Mapping? ==> m.Valid()
    }
  }

  /** The pairs a `Dictable` yields, in order. */
  function PairsOf<K, V>(source: Dictable<K, V>): seq<(K, V)>
    requires source.Valid()
  {
    match source
    case Mapping(m) => Items(m)
    case Pairs(pairs) => pairs
  }

  /** `setdefault` of each pair in turn: a key is written only when it is not present yet. */
  function AddNew<K, V>(d: Dict<K, V>, pairs: seq<(K, V)>): (r: Dict<K, V>)
    ensures d.Valid() ==> r.Valid()
  {
    if pairs == [] then d
    else
      var before := AddNew(d, pairs[..|pairs| - 1]);
      var last := pairs[|pairs| - 1];
      if last.0 in before.entries then before else Set(before, last.0, last.1)
  }

  /** No pair before pair `i` has its key. */
  ghost predicate FirstOf<K, V>(pairs: seq<(K, V)>, i: nat)
    requires i < |pairs|
  {
    forall j :: 0 <= j < i ==> pairs[j].0 != pairs[i].0
  }

  /**
   * Adding only new keys: present keys keep their value, the key set grows by the pairs'
   * keys, and a new key gets the value of its FIRST pair.
   */
  lemma {:induction false} AddNewMeaning<K, V>(d: Dict<K, V>, pairs: seq<(K, V)>)
    ensures AddNew(d, pairs).entries.Keys == d.entries.Keys + KeysOf(pairs)
    ensures forall k :: k in d.entries ==> AddNew(d, pairs).entries[k] == d.entries[k]
    ensures forall i :: 0 <= i < |pairs| && pairs[i].0 !in d.entries && FirstOf(pairs, i) ==>
      AddNew(d, pairs).entries[pairs[i].0] == pairs[i].1
    decreases |pairs|
  {
    if pairs != [] {
      var init := pairs[..|pairs| - 1];
      AddNewMeaning(d, init);
      assert forall i :: 0 <= i < |init| ==> init[i] == pairs[i];
      assert KeysOf(pairs) == KeysOf(init) + {pairs[|pairs| - 1].0} by {
        forall x | x in KeysOf(pairs) ensures x in KeysOf(init) + {pairs[|pairs| - 1].0} {
          var i :| 0 <= i < |pairs| && pairs[i].0 == x;
          if i < |pairs| - 1 { assert init[i] == pairs[i]; }
        }
      }
      forall i | 0 <= i < |pairs| && pairs[i].0 !in d.entries && FirstOf(pairs, i)
        ensures AddNew(d, pairs).entries[pairs[i].0] == pairs[i].1
      {
        if i == |pairs| - 1 {
          assert pairs[i].0 !in KeysOf(init);
        }
      }
    }
  }

  /** `update_new(to_update, update_from, **kwds)` */
  method UpdateNew<K, V>(toUpdate: MutableDict<K, V>, updateFrom: Dictable<K, V>, kwds: Dict<K, V>)
    requires toUpdate.data.Valid() && updateFrom.Valid() && kwds.Valid()
    modifies toUpdate
    ensures toUpdate.data == AddNew(AddNew(old(toUpdate.data), PairsOf(updateFrom)), Items(kwds))
    ensures toUpdate.data.Valid()
  {
    if updateFrom.Mapping? {
      AddNewFromMapping(toUpdate, updateFrom.m);
    } else {
      AddNewFromPairs(toUpdate, updateFrom.pairs);
    }
    AddNewFromMapping(toUpdate, kwds);
  }

  /**
   * `update_new({}, {'a': 1}, a=2)` leaves `'a'` at 1: the keywords go in last, through
   * `setdefault`, so they lose to the source's pairs.
   */
  lemma UpdateNewKeywordLoses()
    ensures var source := Mapping(Dict(['a'], map['a' := 1]));
      AddNew(AddNew(Empty(), PairsOf(source)), Items(Dict(['a'], map['a' := 2]))).entries['a'] == 1
  {
    var source := Mapping(Dict(['a'], map['a' := 1]));
    assert PairsOf(source) == [('a', 1)];
    var d := AddNew(Empty(), [('a', 1)]);
    assert AddNew(Empty<char, int>(), []) == Empty();
    assert d.entries == map['a' := 1];
    assert Items(Dict(['a'], map['a' := 2])) == [('a', 2)];
    assert AddNew(d, [('a', 2)]) == d;
  }

  /**
   * `update_new` with the keywords overruling the source, as its docstring describes: the
   * keywords are added first, so the source can only add keys that neither the dict nor
   * the keywords hold.
   */
  method UpdateNewIntended<K, V>(toUpdate: MutableDict<K, V>, updateFrom: Dictable<K, V>, kwds: Dict<K, V>)
    requires toUpdate.data.Valid() && updateFrom.Valid() && kwds.Valid()
    modifies toUpdate
    ensures toUpdate.data == AddNew(AddNew(old(toUpdate.data), Items(kwds)), PairsOf(updateFrom))
    ensures toUpdate.data.Valid()
  {
    AddNewFromMapping(toUpdate, kwds);
    if updateFrom.Mapping? {
      AddNewFromMapping(toUpdate, updateFrom.m);
    } else {
      AddNewFromPairs(toUpdate, updateFrom.pairs);
    }
  }

  /**
   * With the keywords added first, every present key keeps its value, a new key named by
   * a keyword gets the keyword's value whatever the source says, and the keys are those of
   * the dict, the keywords and the source.
   */
  lemma KeywordsOverrule<K, V>(d: Dict<K, V>, updateFrom: Dictable<K, V>, kwds: Dict<K, V>)
    requires d.Valid() && updateFrom.Valid() && kwds.Valid()
    ensures var r := AddNew(AddNew(d, Items(kwds)), PairsOf(updateFrom)).entries;
      && r.Keys == d.entries.Keys + kwds.entries.Keys + KeysOf(PairsOf(updateFrom))
      && (forall k :: k in d.entries ==> r[k] == d.entries[k])
      && (forall k :: k in kwds.entries && k !in d.entries ==> r[k] == kwds.entries[k])
  {
    AddNewItems(d, kwds);
    AddNewMeaning(AddNew(d, Items(kwds)), PairsOf(updateFrom));
  }

  /** `setdefault` of every item of a dict adds exactly its missing keys, with its values. */
  lemma AddNewItems<K, V>(d: Dict<K, V>, m: Dict<K, V>)
    requires m.Valid()
    ensures var r := AddNew(d, Items(m)).entries;
      && r.Keys == d.entries.Keys + m.entries.Keys
      && (forall k :: k in d.entries ==> r[k] == d.entries[k])
      && (forall k :: k in m.entries && k !in d.entries ==> r[k] == m.entries[k])
  {
    var items := Items(m);
    AddNewMeaning(d, items);
    assert KeysOf(items) == m.entries.Keys by {
      forall k | k in m.entries ensures k in KeysOf(items) {
        var i :| 0 <= i < |m.order| && m.order[i] == k;
        assert items[i].0 == k;
      }
    }
    forall k | k in m.entries && k !in d.entries ensures AddNew(d, items).entries[k] == m.entries[k] {
      var i :| 0 <= i < |m.order| && m.order[i] == k;
      assert items[i] == (k, m.entries[k]);
      assert FirstOf(items, i);
    }
  }

  /** `for k in m: to_update.setdefault(k, m[k])` */
  method AddNewFromMapping<K, V>(toUpdate: MutableDict<K, V>, m: Dict<K, V>)
    requires toUpdate.data.Valid() && m.Valid()
    modifies toUpdate
    ensures toUpdate.data == AddNew(old(toUpdate.data), Items(m))
  {
    var from := Items(m);
    for i := 0 to |m.order|
      invariant toUpdate.data == AddNew(old(toUpdate.data), from[..i])
    {
      var k := m.order[i];
      assert from[..i + 1][..i] == from[..i];
      var _ := toUpdate.SetDefault(k, m.entries[k]);
    }
    assert from[..|from|] == from;
  }

  /** `for k, val in pairs: if k not in to_update: to_update[k] = val` */
  method AddNewFromPairs<K, V>(toUpdate: MutableDict<K, V>, pairs: seq<(K, V)>)
    requires toUpdate.data.Valid()
    modifies toUpdate
    ensures toUpdate.data == AddNew(old(toUpdate.data), pairs)
  {
    for i := 0 to |pairs|
      invariant toUpdate.data == AddNew(old(toUpdate.data), pairs[..i])
    {
      var (k, val) := pairs[i];
      assert pairs[..i + 1][..i] == pairs[..i];
      if k !in toUpdate.data.entries {
        toUpdate.data := Set(toUpdate.data, k, val);
      }
    }
    assert pairs[..|pairs|] == pairs;
  }

  /** `m` with each of its keys that `source` holds given `source`'s value; no key added. */
  ghost function Overwrite<K, V>(m: map<K, V>, source: map<K, V>): map<K, V> {
    map k | k in m :: if k in source then source[k] else m[k]
  }

  /**
   * `for k in to_update: to_update[k] = source.get(k, to_update[k])`: assigning to keys
   * that are already present never reorders them.
   */
  method OverwriteFromMapping<K, V>(toUpdate: MutableDict<K, V>, source: map<K, V>)
    requires toUpdate.data.Valid()
    modifies toUpdate
    ensures toUpdate.data.Valid()
    ensures toUpdate.data.order == old(toUpdate.data.order)
    ensures toUpdate.data.entries == Overwrite(old(toUpdate.data.entries), source)
  {
    ghost var start := toUpdate.data;
    var keys := toUpdate.data.order;
    for i := 0 to |keys|
      invariant toUpdate.data.order == keys
      invariant toUpdate.data.Valid()
      invariant forall k :: k in toUpdate.data.entries <==> k in start.entries
      invariant forall j :: 0 <= j < i ==> toUpdate.data.entries[keys[j]] == Overwrite(start.entries, source)[keys[j]]
      invariant forall j :: i <= j < |keys| ==> toUpdate.data.entries[keys[j]] == start.entries[keys[j]]
    {
      var k := keys[i];
      var v := if k in source then source[k] else toUpdate.data.entries[k];
      toUpdate.data := Set(toUpdate.data, k, v);
    }
    forall k | k in start.entries ensures toUpdate.data.entries[k] == Overwrite(start.entries, source)[k] {
      var j :| 0 <= j < |keys| && keys[j] == k;
    }
  }

  /** `for k, val in pairs: if k in to_update: to_update[k] = val` */
  method OverwriteFromPairs<K, V>(toUpdate: MutableDict<K, V>, pairs: seq<(K, V)>)
    requires toUpdate.data.Valid()
    modifies toUpdate
    ensures toUpdate.data.Valid()
    ensures toUpdate.data.order == old(toUpdate.data.order)
    ensures toUpdate.data.entries == Overwrite(old(toUpdate.data.entries), FromPairs(pairs).entries)
  {
    ghost var start := toUpdate.data;
    for i := 0 to |pairs|
      invariant toUpdate.data.order == start.order
      invariant toUpdate.data.Valid()
      invariant toUpdate.data.entries == Overwrite(start.entries, FromPairs(pairs[..i]).entries)
    {
      var (k, val) := pairs[i];
      UpdatePrefix(Empty(), pairs, i + 1);
      OverwriteStep(start.entries, FromPairs(pairs[..i]).entries, k, val);
      if k in toUpdate.data.entries {
        toUpdate.data := Set(toUpdate.data, k, val);
      }
    }
    assert pairs[..|pairs|] == pairs;
  }

  /** `update_existing(to_update, update_from, **kwds)` */
  method UpdateExisting<K, V>(toUpdate: MutableDict<K, V>, updateFrom: Dictable<K, V>, kwds: Dict<K, V>)
    requires toUpdate.data.Valid() && updateFrom.Valid() && kwds.Valid()
    modifies toUpdate
    ensures toUpdate.data.Valid()
    ensures toUpdate.data.order == old(toUpdate.data.order)
    ensures toUpdate.data.entries ==
      Overwrite(Overwrite(old(toUpdate.data.entries), FromPairs(PairsOf(updateFrom)).entries), kwds.entries)
  {
    if updateFrom.Mapping? {
      FromItems(updateFrom.m);
      OverwriteFromMapping(toUpdate, updateFrom.m.entries);
    } else {
      OverwriteFromPairs(toUpdate, updateFrom.pairs);
    }
    OverwriteFromMapping(toUpdate, kwds.entries);
  }

  lemma OverwriteStep<K, V>(m: map<K, V>, source: map<K, V>, k: K, v: V)
    ensures Overwrite(m, source[k := v]) == if k in m then Overwrite(m, source)[k := v] else Overwrite(m, source)
  {
  }

  /** Updating only existing keys never adds one and keeps the order. */
  lemma OverwriteKeepsKeys<K, V>(m: map<K, V>, source: map<K, V>)
    ensures Overwrite(m, source).Keys == m.Keys
    ensures forall k :: k in m && k !in source ==> Overwrite(m, source)[k] == m[k]
  {
  }

  /** `Overwrite` restricted to the keys in `done`. */
  ghost function OverwriteOn<K, V>(m: map<K, V>, source: map<K, V>, done: set<K>): map<K, V> {
    map k | k in m :: if k in done && k in source then source[k] else m[k]
  }

  lemma OverwriteOnStep<K, V>(m: map<K, V>, source: map<K, V>, done: set<K>, k: K)
    requires k in m && k !in done
    ensures OverwriteOn(m, source, {}) == m
    ensures k in OverwriteOn(m, source, done) && OverwriteOn(m, source, done)[k] == m[k]
    ensures OverwriteOn(m, source, done + {k}) ==
      OverwriteOn(m, source, done)[k := if k in source then source[k] else m[k]]
  {
  }

  lemma OverwriteOnAll<K, V>(m: map<K, V>, source: map<K, V>)
    ensures OverwriteOn(m, source, m.Keys) == Overwrite(m, source)
  {
  }

  /** `pop_existing(to_update, pop_from)`, for two distinct dict objects. */
  method PopExisting<K, V>(toUpdate: MutableDict<K, V>, popFrom: MutableDict<K, V>)
    requires toUpdate != popFrom
    requires toUpdate.data.Valid() && popFrom.data.Valid()
    modifies toUpdate, popFrom
    ensures toUpdate.data.Valid() && popFrom.data.Valid()
    ensures toUpdate.data.order == old(toUpdate.data.order)
    ensures toUpdate.data.entries == Overwrite(old(toUpdate.data.entries), old(popFrom.data.entries))
    ensures popFrom.data.entries == old(popFrom.data.entries) - old(toUpdate.data.entries.Keys)
    ensures popFrom.data.order == Filter(old(popFrom.data.order), old(toUpdate.data.entries.Keys))
  {
    ghost var start := toUpdate.data;
    ghost var source := popFrom.data;
    ghost var done: set<K> := {};
    var keys := toUpdate.data.order;
    PopLoopStart(start, source);
    for i := 0 to |keys|
      invariant PopLoop(start, source, done, i, toUpdate.data, popFrom.data)
    {
      var k := keys[i];
      PopLoopStep(start, source, done, i, toUpdate.data, popFrom.data);
      var v := popFrom.Pop(k, toUpdate.data.entries[k]);
      toUpdate.data := Set(toUpdate.data, k, v);
      done := done + {k};
    }
    PopLoopEnd(start, source, done, toUpdate.data, popFrom.data);
  }

  /**
   * The state of `pop_existing` after its first `i` keys: those keys, `done`, have taken the
   * value popped from `source`; what is left of `source` is everything else, in order.
   */
  ghost predicate PopLoop<K, V>(start: Dict<K, V>, source: Dict<K, V>, done: set<K>, i: nat,
                                current: Dict<K, V>, rest: Dict<K, V>) {
    && i <= |start.order|
    && current.order == start.order && current.Valid() && rest.Valid()
    && current.entries == OverwriteOn(start.entries, source.entries, done)
    && (forall j :: 0 <= j < i ==> start.order[j] in done)
    && (forall j :: i <= j < |start.order| ==> start.order[j] !in done)
    && done <= start.entries.Keys
    && rest.entries == source.entries - done
    && rest.order == Filter(source.order, done)
  }

  lemma PopLoopStart<K, V>(start: Dict<K, V>, source: Dict<K, V>)
    requires start.Valid() && source.Valid()
    ensures PopLoop(start, source, {}, 0, start, source)
  {
    FilterNone(source.order, {});
    assert OverwriteOn(start.entries, source.entries, {}) == start.entries;
  }

  lemma PopLoopStep<K, V>(start: Dict<K, V>, source: Dict<K, V>, done: set<K>, i: nat,
                          current: Dict<K, V>, rest: Dict<K, V>)
    requires start.Valid() && source.Valid()
    requires PopLoop(start, source, done, i, current, rest) && i < |start.order|
    ensures var k := start.order[i];
      && k in current.entries
      && PopLoop(start, source, done + {k}, i + 1,
                 Set(current, k, if k in rest.entries then rest.entries[k] else current.entries[k]),
                 if k in rest.entries then Remove(rest, k) else rest)
  {
    var k := start.order[i];
    assert forall j :: i < j < |start.order| ==> start.order[j] != k by {
      assert Distinct(start.order);
    }
    OverwriteOnStep(start.entries, source.entries, done, k);
    PopStep(source, done, k, rest);
  }

  lemma PopLoopEnd<K, V>(start: Dict<K, V>, source: Dict<K, V>, done: set<K>,
                         current: Dict<K, V>, rest: Dict<K, V>)
    requires start.Valid()
    requires PopLoop(start, source, done, |start.order|, current, rest)
    ensures done == start.entries.Keys
    ensures current.entries == Overwrite(start.entries, source.entries)
  {
    OverwriteOnAll(start.entries, source.entries);
  }

  /** One step of `pop_existing` on `pop_from`: popping `k` removes it from what is left. */
  lemma PopStep<K, V>(source: Dict<K, V>, done: set<K>, k: K, current: Dict<K, V>)
    requires source.Valid()
    requires current.entries == source.entries - done
    requires current.order == Filter(source.order, done)
    requires k !in done
    ensures k in current.entries <==> k in source.entries
    ensures k in current.entries ==> current.entries[k] == source.entries[k]
    ensures var next := if k in current.entries then Remove(current, k) else current;
      next.entries == source.entries - (done + {k}) && next.order == Filter(source.order, done + {k})
  {
    FilterTwice(source.order, done, {k});
    if k in current.entries {
      PopPresent(current, k);
      assert current.entries - {k} == source.entries - (done + {k});
    } else {
      PopAbsent(source, done, k, current);
    }
  }

  lemma PopPresent<K, V>(current: Dict<K, V>, k: K)
    ensures Remove(current, k).order == Filter(current.order, {k})
    ensures Remove(current, k).entries == current.entries - {k}
  {
  }

  lemma PopAbsent<K, V>(source: Dict<K, V>, done: set<K>, k: K, current: Dict<K, V>)
    requires source.Valid()
    requires current.entries == source.entries - done
    requires current.order == Filter(source.order, done)
    requires k !in done && k !in current.entries
    ensures Filter(current.order, {k}) == current.order
    ensures current.entries == source.entries - (done + {k})
  {
    assert k !in source.order;
    FilterNone(current.order, {k});
  }

  lemma {:induction false} FilterNone<T>(s: seq<T>, drop: set<T>)
    requires forall x :: x in drop ==> x !in s
    ensures Filter(s, drop) == s
  {
    if s != [] {
      FilterNone(s[1..], drop);
      assert s == [s[0]] + s[1..];
    }
  }
}
