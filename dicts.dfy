/**
 * Python's built-in `dict` as a value: the keys in insertion order together with the
 * key-to-value mapping. Order matters to the modelled code, because building a dict from a
 * sequence of pairs keeps the LAST value written for a repeated key, and iteration follows
 * insertion order.
 */
module Dicts {
  import opened Maps

  /** No element occurs twice. */
  ghost predicate Distinct<T>(s: seq<T>) {
    forall i, j :: 0 <= i < j < |s| ==> s[i] != s[j]
  }

  /** A dict: `order` lists the keys of `entries` in insertion order. */
  datatype Dict<K, V> = Dict(order: seq<K>, entries: map<K, V>) {
    /** Every key is listed exactly once. */
    ghost predicate Valid() {
      && Distinct(order)
      && (forall k :: k in entries ==> k in order)
      && (forall i :: 0 <= i < |order| ==> order[i] in entries)
    }
  }

  /** A mutable dict object, for helpers that update their argument in place. */
  class MutableDict<K(==), V> {
    var data: Dict<K, V>

    constructor (d: Dict<K, V>)
      ensures data == d
    {
      data := d;
    }

    /** `d.setdefault(k, v)`: write `v` only when `k` is missing. */
    method SetDefault(k: K, v: V) returns (r: V)
      modifies this
      ensures r == if k in old(data.entries) then old(data.entries[k]) else v
      ensures data == if k in old(data.entries) then old(data) else Set(old(data), k, v)
    {
      if k !in data.entries {
        data := Set(data, k, v);
      }
      r := data.entries[k];
    }

    /** `d.pop(k, default)` */
    method Pop(k: K, default: V) returns (v: V)
      requires data.Valid()
      modifies this
      ensures data.Valid()
      ensures v == if k in old(data.entries) then old(data.entries[k]) else default
      ensures data == if k in old(data.entries) then Remove(old(data), k) else old(data)
    {
      if k in data.entries {
        v := data.entries[k];
        data := Remove(data, k);
      } else {
        v := default;
      }
    }
  }

  /** `{}` */
  function Empty<K, V>(): (d: Dict<K, V>)
    ensures d.Valid() && |d.entries| == 0
  {
    Dict([], map[])
  }

  /** `s` without the elements of `drop`, the rest kept in order. */
  function Filter<T>(s: seq<T>, drop: set<T>): (r: seq<T>)
    ensures forall y :: y in r ==> y in s && y !in drop
    ensures forall y :: y in s && y !in drop ==> y in r
    ensures Distinct(s) ==> Distinct(r)
  {
    if s == [] then []
    else if s[0] in drop then Filter(s[1..], drop)
    else
      var rest := Filter(s[1..], drop);
      assert Distinct(s) ==> Distinct(s[1..]) && s[0] !in s[1..];
      [s[0]] + rest
  }

  /** Filtering twice is filtering once by both sets. */
  lemma {:induction false} FilterTwice<T>(s: seq<T>, a: set<T>, b: set<T>)
    ensures Filter(Filter(s, a), b) == Filter(s, a + b)
  {
    if s != [] {
      FilterTwice(s[1..], a, b);
      if s[0] !in a {
        assert Filter(s, a) == [s[0]] + Filter(s[1..], a);
        assert Filter(s, a)[1..] == Filter(s[1..], a);
      }
    }
  }

  /** `d[k] = v`: a new key goes to the end; an existing key keeps its place. */
  function Set<K, V>(d: Dict<K, V>, k: K, v: V): (r: Dict<K, V>)
    ensures d.Valid() ==> r.Valid()
  {
    Dict(if k in d.entries then d.order else d.order + [k], d.entries[k := v])
  }

  /** `del d[k]` once `k` is known to be present. */
  function Remove<K, V>(d: Dict<K, V>, k: K): (r: Dict<K, V>)
    ensures d.Valid() ==> r.Valid()
  {
    var order := Filter(d.order, {k});
    assert forall i :: 0 <= i < |order| ==> order[i] in order;
    Dict(order, d.entries - {k})
  }

  /** `d.items()`, in insertion order. */
  function Items<K, V>(d: Dict<K, V>): (r: seq<(K, V)>)
    requires d.Valid()
    ensures |r| == |d.order|
    ensures forall i :: 0 <= i < |r| ==> r[i] == (d.order[i], d.entries[d.order[i]])
  {
    seq(|d.order|, i requires 0 <= i < |d.order| => (d.order[i], d.entries[d.order[i]]))
  }

  /** `d.update(pairs)`: the pairs are written one after another, in order. */
  function Update<K, V>(d: Dict<K, V>, pairs: seq<(K, V)>): (r: Dict<K, V>)
    ensures d.Valid() ==> r.Valid()
  {
    if pairs == [] then d
    else
      var last := pairs[|pairs| - 1];
      Set(Update(d, pairs[..|pairs| - 1]), last.0, last.1)
  }

  /** `dict(pairs)` */
  function FromPairs<K, V>(pairs: seq<(K, V)>): (r: Dict<K, V>)
    ensures r.Valid()
  {
    Update(Empty(), pairs)
  }

  /** The first components of `pairs`. */
  ghost function KeysOf<K, V>(pairs: seq<(K, V)>): set<K> {
    set i | 0 <= i < |pairs| :: pairs[i].0
  }

  /** Updating adds exactly the keys of the pairs. */
  lemma {:induction false} UpdateKeys<K, V>(d: Dict<K, V>, pairs: seq<(K, V)>)
    ensures Update(d, pairs).entries.Keys == d.entries.Keys + KeysOf(pairs)
    decreases |pairs|
  {
    if pairs != [] {
      var init := pairs[..|pairs| - 1];
      UpdateKeys(d, init);
      assert KeysOf(pairs) == KeysOf(init) + {pairs[|pairs| - 1].0} by {
        forall x | x in KeysOf(pairs) ensures x in KeysOf(init) + {pairs[|pairs| - 1].0} {
          var i :| 0 <= i < |pairs| && pairs[i].0 == x;
          if i < |pairs| - 1 { assert init[i] == pairs[i]; }
        }
        forall x | x in KeysOf(init) ensures x in KeysOf(pairs) {
          var i :| 0 <= i < |init| && init[i].0 == x;
          assert pairs[i] == init[i];
        }
      }
    }
  }

  /** Last write wins: a key gets the value of its last pair. */
  lemma {:induction false} UpdateLastWins<K, V>(d: Dict<K, V>, pairs: seq<(K, V)>, i: nat)
    requires i < |pairs|
    requires forall j :: i < j < |pairs| ==> pairs[j].0 != pairs[i].0
    ensures pairs[i].0 in Update(d, pairs).entries
    ensures Update(d, pairs).entries[pairs[i].0] == pairs[i].1
    decreases |pairs|
  {
    if i < |pairs| - 1 {
      var init := pairs[..|pairs| - 1];
      assert init[i] == pairs[i];
      UpdateLastWins(d, init, i);
    }
  }

  /** A key that no pair mentions keeps its value. */
  lemma {:induction false} UpdateUntouched<K, V>(d: Dict<K, V>, pairs: seq<(K, V)>, k: K)
    requires k !in KeysOf(pairs)
    ensures k in Update(d, pairs).entries <==> k in d.entries
    ensures k in d.entries ==> Update(d, pairs).entries[k] == d.entries[k]
    decreases |pairs|
  {
    if pairs != [] {
      var init := pairs[..|pairs| - 1];
      assert pairs[|pairs| - 1].0 in KeysOf(pairs);
      assert k !in KeysOf(init);
      UpdateUntouched(d, init, k);
    }
  }

  /** Writing pairs that the dict already holds changes nothing, not even the order. */
  lemma {:induction false} UpdateAgreeing<K, V>(d: Dict<K, V>, pairs: seq<(K, V)>)
    requires forall i :: 0 <= i < |pairs| ==> pairs[i].0 in d.entries && d.entries[pairs[i].0] == pairs[i].1
    ensures Update(d, pairs) == d
    decreases |pairs|
  {
    if pairs != [] {
      var init := pairs[..|pairs| - 1];
      assert forall i :: 0 <= i < |init| ==> init[i] == pairs[i];
      UpdateAgreeing(d, init);
      var last := pairs[|pairs| - 1];
      assert d.entries[last.0 := last.1] == d.entries;
    }
  }

  /** Writing the first `n` pairs is writing the first `n - 1` and then pair `n - 1`. */
  lemma UpdatePrefix<K, V>(d: Dict<K, V>, pairs: seq<(K, V)>, n: nat)
    requires 0 < n <= |pairs|
    ensures Update(d, pairs[..n]) == Set(Update(d, pairs[..n - 1]), pairs[n - 1].0, pairs[n - 1].1)
  {
    assert pairs[..n][..n - 1] == pairs[..n - 1];
  }

  /** Pairs whose keys follow a list of distinct keys build a dict in that order. */
  lemma {:induction false} UpdateFreshOrder<K, V>(pairs: seq<(K, V)>, order: seq<K>)
    requires |pairs| <= |order| && Distinct(order)
    requires forall i :: 0 <= i < |pairs| ==> pairs[i].0 == order[i]
    ensures Update(Empty(), pairs).order == order[..|pairs|]
    decreases |pairs|
  {
    if pairs != [] {
      var n := |pairs|;
      var init := pairs[..n - 1];
      UpdateFreshOrder(init, order);
      var u := Update(Empty(), init);
      var k := pairs[n - 1].0;
      assert k !in u.entries by {
        assert u.Valid() && u.order == order[..n - 1];
        assert forall i :: 0 <= i < n - 1 ==> order[i] != order[n - 1];
      }
      assert order[..n] == order[..n - 1] + [k];
    }
  }

  /** The items of a dict rebuild its keys. */
  lemma FromItemsKeys<K, V>(d: Dict<K, V>)
    requires d.Valid()
    ensures FromPairs(Items(d)).entries.Keys == d.entries.Keys
  {
    var items := Items(d);
    UpdateKeys(Empty(), items);
    forall k | k in d.entries ensures k in KeysOf(items) {
      var i :| 0 <= i < |d.order| && d.order[i] == k;
      assert items[i].0 == k;
    }
  }

  /** The items of a dict rebuild its values. */
  lemma FromItemsValues<K, V>(d: Dict<K, V>, k: K)
    requires d.Valid() && k in d.entries
    ensures k in FromPairs(Items(d)).entries && FromPairs(Items(d)).entries[k] == d.entries[k]
  {
    var items := Items(d);
    var i :| 0 <= i < |d.order| && d.order[i] == k;
    assert items[i] == (k, d.entries[k]);
    UpdateLastWins(Empty(), items, i);
  }

  /** Building a dict from the items of a dict gives the same dict back. */
  lemma FromItems<K, V>(d: Dict<K, V>)
    requires d.Valid()
    ensures FromPairs(Items(d)) == d
  {
    var items := Items(d);
    var u := FromPairs(items);
    UpdateFreshOrder(items, d.order);
    assert d.order[..|d.order|] == d.order;
    FromItemsKeys(d);
    forall k | k in d.entries ensures u.entries[k] == d.entries[k] {
      FromItemsValues(d, k);
    }
    assert u.entries == d.entries;
  }

  /**
   * Writing pairs that each undo an entry of `f` keeps "every entry of the dict undoes an
   * entry of `f`".
   */
  lemma {:induction false} UpdateKeepsUndoing<K, V>(b: Dict<V, K>, pairs: seq<(V, K)>, f: map<K, V>)
    requires forall v :: v in b.entries ==> b.entries[v] in f && f[b.entries[v]] == v
    requires forall i :: 0 <= i < |pairs| ==> pairs[i].1 in f && f[pairs[i].1] == pairs[i].0
    ensures forall v :: v in Update(b, pairs).entries ==>
      Update(b, pairs).entries[v] in f && f[Update(b, pairs).entries[v]] == v
    decreases |pairs|
  {
    if pairs != [] {
      var init := pairs[..|pairs| - 1];
      assert forall i :: 0 <= i < |init| ==> init[i] == pairs[i];
      UpdateKeepsUndoing(b, init, f);
    }
  }
  /** The position of the last pair with key `k`. */
  ghost function LastIndexOf<K, V>(pairs: seq<(K, V)>, k: K): (i: nat)
    requires k in KeysOf(pairs)
    ensures i < |pairs| && pairs[i].0 == k
    ensures forall j :: i < j < |pairs| ==> pairs[j].0 != k
    decreases |pairs|
  {
    var n := |pairs| - 1;
    if pairs[n].0 == k then n
    else
      assert k in KeysOf(pairs[..n]) by {
        var i :| 0 <= i < |pairs| && pairs[i].0 == k;
        assert pairs[..n][i] == pairs[i];
      }
      var i := LastIndexOf(pairs[..n], k);
      assert pairs[..n][i] == pairs[i];
      i
  }

  /** Writing pairs whose keys are all present leaves the order alone. */
  lemma {:induction false} UpdatePresentOrder<K, V>(d: Dict<K, V>, pairs: seq<(K, V)>)
    requires KeysOf(pairs) <= d.entries.Keys
    ensures Update(d, pairs).order == d.order
    decreases |pairs|
  {
    if pairs != [] {
      var init := pairs[..|pairs| - 1];
      assert KeysOf(init) <= KeysOf(pairs) by {
        forall x | x in KeysOf(init) ensures x in KeysOf(pairs) {
          var i :| 0 <= i < |init| && init[i].0 == x;
          assert pairs[i] == init[i];
        }
      }
      UpdatePresentOrder(d, init);
      UpdateKeys(d, init);
      assert pairs[|pairs| - 1].0 in KeysOf(pairs);
    }
  }

  /** Writing the same pairs a second time changes nothing. */
  lemma UpdateIdempotent<K, V>(d: Dict<K, V>, pairs: seq<(K, V)>)
    ensures Update(Update(d, pairs), pairs) == Update(d, pairs)
  {
    var once := Update(d, pairs);
    var twice := Update(once, pairs);
    UpdateKeys(d, pairs);
    UpdateKeys(once, pairs);
    UpdatePresentOrder(once, pairs);
    forall k | k in twice.entries ensures twice.entries[k] == once.entries[k] {
      if k in KeysOf(pairs) {
        var i := LastIndexOf(pairs, k);
        UpdateLastWins(d, pairs, i);
        UpdateLastWins(once, pairs, i);
      } else {
        UpdateUntouched(once, pairs, k);
      }
    }
    assert twice.entries == once.entries;
  }
}
