/**
 * `PairedDict`, one direction of a bidirectional mapping that holds a reference to the
 * dict going the other way, and `BijectiveMap`, the two directions read as one map.
 * Each method is specified by the functions of `PairOps` on the contents of the two dicts.
 */
module PairedDicts {
  import opened Results
  import opened Maps
  import opened Dicts
  import opened DictTricks
  import opened PairOps

  class PairedDict<K(==), V(==)> {
    /** The `UserDict` contents. */
    var data: Dict<K, V>
    /** `self.inverse`, `None` until set. */
    var inverse: PairedDict?<V, K>
    /** `self._formed`: while false, setting and deleting touch `self` only. */
    var formed: bool

    /** The object is not its own inverse. */
    ghost predicate Separate()
      reads this
    {
      inverse == null || inverse as object != this as object
    }

    /** `self.inverse.inverse is self`, and both objects are formed. */
    ghost predicate Paired()
      reads this, inverse
    {
      && inverse != null && inverse.inverse == this && Separate()
      && formed && inverse.formed
    }

    /** Linked, and the two hold inverse contents. */
    ghost predicate Consistent()
      reads this, inverse
    {
      Paired() && Pair(data, inverse.data).Consistent()
    }

    /**
     * `PairedDict(items)`: `self` gets the items; the inverse is built by the secret
     * constructor from the swapped items of `self`, without checking for repeated values.
     */
    constructor (items: seq<(K, V)>)
      ensures data == FromPairs(items)
      ensures fresh(inverse) && inverse.data == FromPairs(InvDictIter(data))
      ensures Paired()
    {
      data := FromPairs(items);
      formed := false;
      inverse := null;
      new;
      var partner := new PairedDict<V, K>.Secret([], this);
      inverse := partner;
      formed := true;
    }

    /**
     * `PairedDict(items, inverse=outer, __secret=True)`, called from `outer`'s constructor:
     * `self` takes `outer` as its inverse and is updated with `outer`'s swapped items.
     */
    constructor Secret(items: seq<(K, V)>, outer: PairedDict<V, K>)
      requires outer.data.Valid()
      ensures data == Update(FromPairs(items), InvDictIter(outer.data))
      ensures inverse == outer && formed
    {
      data := FromPairs(items);
      formed := false;
      inverse := outer;
      new;
      data := Update(data, InvDictIter(inverse.data));
      formed := true;
    }

    /**
     * `PairedDict(items, inverse=given)`: the inverse is a new copy of `given` updated with
     * the swapped items of `self`; then `self` is updated with the swapped items of the copy.
     */
    constructor WithInverse(items: seq<(K, V)>, given: Dict<V, K>)
      requires given.Valid()
      ensures fresh(inverse)
      ensures inverse.data == Update(given, InvDictIter(FromPairs(items)))
      ensures data == Update(FromPairs(items), InvDictIter(inverse.data))
      ensures Paired()
    {
      data := FromPairs(items);
      formed := false;
      inverse := null;
      new;
      FromItems(given);
      var partner := new PairedDict<V, K>.Secret(Items(given), this);
      inverse := partner;
      data := Update(data, InvDictIter(partner.data));
      formed := true;
    }

    /**
     * `del self[key]`. Formed: the value of `key` is removed from the inverse, then `key`
     * from `self`, with `KeyError` and no change if either is missing. Not formed: `key` is
     * removed from `self` only.
     */
    method DelItem(key: K) returns (outcome: Outcome)
      requires data.Valid() && Separate()
      requires formed ==> Paired() && inverse.data.Valid()
      modifies this, inverse
      ensures inverse == old(inverse) && formed == old(formed) && Separate()
      ensures inverse != null ==> inverse.inverse == old(inverse.inverse) && inverse.formed == old(inverse.formed)
      ensures data.Valid() && (inverse != null ==> old(inverse.data.Valid()) ==> inverse.data.Valid())
      ensures !formed ==>
        && outcome == (if key in old(data.entries) then Pass else Fail(KeyError))
        && data == (if key in old(data.entries) then Remove(old(data), key) else old(data))
        && (inverse != null ==> inverse.data == old(inverse.data))
      ensures formed ==>
        var r := PairDelete(old(Pair(data, inverse.data)), key);
        && outcome == (if r.Ok? then Pass else Fail(r.error))
        && Pair(data, inverse.data) == (if r.Ok? then r.value else old(Pair(data, inverse.data)))
      ensures old(Consistent()) ==> Consistent() && (outcome.Pass? <==> key in old(data.entries))
    {
      if formed {
        ghost var start := Pair(data, inverse.data);
        if key !in data.entries || data.entries[key] !in inverse.data.entries {
          return Fail(KeyError);
        }
        inverse.data := Remove(inverse.data, data.entries[key]);
        data := Remove(data, key);
        if start.Consistent() {
          PairDeleteConsistent(start, key);
        }
      } else {
        if key !in data.entries {
          return Fail(KeyError);
        }
        data := Remove(data, key);
      }
      outcome := Pass;
    }

    /**
     * `self[key] = value`. Formed: `key` is deleted from `self` and `value` from the
     * inverse (each only if present, each through its own dict's deletion), then the pair
     * is written both ways. Not formed: `self` only.
     */
    method SetItem(key: K, value: V) returns (outcome: Outcome)
      requires data.Valid() && Separate()
      requires formed ==> Paired() && inverse.data.Valid()
      modifies this, inverse
      ensures inverse == old(inverse) && formed == old(formed) && Separate()
      ensures inverse != null ==> inverse.inverse == old(inverse.inverse) && inverse.formed == old(inverse.formed)
      ensures data.Valid()
      ensures !formed ==>
        && outcome == Pass && data == Set(old(data), key, value)
        && (inverse != null ==> inverse.data == old(inverse.data))
      ensures formed ==> Step(outcome, Pair(data, inverse.data)) == PairSet(old(Pair(data, inverse.data)), key, value)
      ensures old(Consistent()) ==> Consistent() && outcome == Pass
    {
      if formed {
        ghost var start := Pair(data, inverse.data);
        if key in data.entries {
          outcome := DelItem(key);
          if outcome.Fail? {
            return;
          }
        }
        if value in inverse.data.entries {
          outcome := inverse.DelItem(value);
          if outcome.Fail? {
            return;
          }
        }
        inverse.data := Set(inverse.data, value, key);
        data := Set(data, key, value);
        if start.Consistent() {
          PairSetConsistent(start, key, value);
        }
      } else {
        data := Set(data, key, value);
      }
      outcome := Pass;
    }

    /**
     * `check_inverse()`: `False` without an inverse, or when the inverse's own inverse
     * differs from `self` as a mapping; otherwise the inverse test as written, whose
     * `KeyError` propagates. It passes exactly when the back link holds by value and the
     * two are inverses.
     */
    function CheckInverse(): (r: Result<bool>)
      requires data.Valid()
      reads this, inverse, if inverse != null then {inverse.inverse} else {}
      ensures r.Err? ==> r.error == KeyError
      ensures r == Ok(true) <==> && inverse != null && inverse.inverse != null
                                 && inverse.inverse.data.entries == data.entries
                                 && Inverses(data.entries, inverse.data.entries)
      ensures r.Err? ==> && inverse != null && inverse.inverse != null
                         && inverse.inverse.data.entries == data.entries
                         && |data.entries| == |inverse.data.entries|
                         && !Inverses(data.entries, inverse.data.entries)
    {
      if inverse == null || inverse.inverse == null || inverse.inverse.data.entries != data.entries then Ok(false)
      else
        IsInverseDictAsWrittenAgrees(data, inverse.data.entries);
        IsInverseDictAsWritten(data, inverse.data.entries)
    }

    /**
     * `check_inverse_strict()`: `check_inverse()`, whose `KeyError` propagates, and then
     * the back link by identity.
     */
    function CheckInverseStrict(): (r: Result<bool>)
      requires data.Valid()
      reads this, inverse, if inverse != null then {inverse.inverse} else {}
      ensures r.Err? <==> CheckInverse().Err?
      ensures r.Err? ==> r.error == KeyError
      ensures r == Ok(true) <==> inverse != null && inverse.inverse == this && Inverses(data.entries, inverse.data.entries)
    {
      match CheckInverse()
      case Err(e) => Err(e)
      case Ok(ok) => Ok(ok && inverse.inverse == this)
    }

    /**
     * `fix_me()`: if there is an inverse and `check_inverse()` says no, `self` is updated,
     * unformed, with the swapped items of the inverse. A `KeyError` from the test
     * propagates before anything changes. The inverse itself is not touched.
     */
    method FixMe() returns (outcome: Outcome)
      requires data.Valid() && Separate() && (inverse != null ==> inverse.data.Valid())
      modifies this
      ensures inverse == old(inverse) && data.Valid()
      ensures outcome.Fail? ==> outcome.error == KeyError && data == old(data) && formed == old(formed)
      ensures old(formed) ==> formed
      ensures old(inverse) == null || old(CheckInverse()) == Ok(true) ==>
        outcome == Pass && data == old(data) && formed == old(formed)
      ensures old(inverse) != null && old(CheckInverse()).Err? ==>
        outcome == Fail(KeyError) && data == old(data) && formed == old(formed)
      ensures old(inverse) != null && old(CheckInverse()) == Ok(false) ==>
        outcome == Pass && data == Update(old(data), InvDictIter(old(inverse.data))) && formed
    {
      if inverse != null {
        var check := CheckInverse();
        if check.Err? {
          return Fail(check.error);
        }
        if !check.value {
          formed := false;
          data := Update(data, InvDictIter(inverse.data));
          formed := true;
        }
      }
      outcome := Pass;
    }

    /**
     * `fix_inverse()`: create the inverse if there is none, link it back to `self`, then
     * repair as `PairOps.Fix` describes: `ValueError` when the repair fails, or the
     * `KeyError` of an inverse test that raises.
     */
    method FixInverse() returns (outcome: Outcome)
      requires data.Valid() && Separate() && (inverse != null ==> inverse.data.Valid())
      modifies this, inverse
      ensures inverse != null && inverse.inverse == this && Separate()
      ensures data.Valid() && inverse.data.Valid()
      ensures old(inverse) != null ==> inverse == old(inverse)
      ensures old(inverse) == null ==> fresh(inverse) && inverse.formed
      ensures old(formed) ==> formed
      ensures old(inverse) != null && old(inverse.formed) ==> inverse.formed
      ensures var start := Pair(old(data), if old(inverse) == null then FromPairs(InvDictIter(old(data)))
                                           else old(inverse.data));
        Step(outcome, Pair(data, inverse.data)) == Fix(start)
      ensures outcome.Pass? <==> CheckInverseStrict() == Ok(true)
      ensures outcome.Fail? ==> outcome.error == ValueError || outcome.error == KeyError
    {
      if inverse == null {
        inverse := new PairedDict<V, K>.WithInverse([], data);
      }
      inverse.inverse := this;
      outcome := FixLinked();
    }

    /** `fix_inverse()` once the inverse is linked back: its three tests, as `PairOps.Fix`. */
    method FixLinked() returns (outcome: Outcome)
      requires data.Valid() && Separate() && inverse != null && inverse.inverse == this && inverse.data.Valid()
      modifies this, inverse
      ensures inverse == old(inverse) && inverse.inverse == this
      ensures data.Valid() && inverse.data.Valid()
      ensures old(formed) ==> formed
      ensures old(inverse.formed) ==> inverse.formed
      ensures Step(outcome, Pair(data, inverse.data)) == Fix(old(Pair(data, inverse.data)))
    {
      ghost var p := Pair(data, inverse.data);
      var check := CheckInverse();
      assert check == IsInverseDictAsWritten(p.fwd, p.bwd.entries);
      if check.Err? {
        assert Fix(p) == Step(Fail(check.error), p);
        return Fail(check.error);
      }
      if !check.value {
        assert inverse.CheckInverse() == IsInverseDictAsWritten(p.bwd, p.fwd.entries);
        var fixed := inverse.FixMe();
        if fixed.Fail? {
          assert FixMeStep(p.bwd, p.fwd) == Err(KeyError);
          return fixed;
        }
        assert FixMeStep(p.bwd, p.fwd) == Ok(inverse.data);
      }
      assert Fix(p) == FixTail(p.fwd, inverse.data);
      outcome := FixFromSecondTest();
    }

    /** `fix_inverse()` from its second test on, as `PairOps.FixTail`. */
    method FixFromSecondTest() returns (outcome: Outcome)
      requires data.Valid() && Separate() && inverse != null && inverse.inverse == this && inverse.data.Valid()
      modifies this
      ensures inverse == old(inverse) && data.Valid()
      ensures old(formed) ==> formed
      ensures Step(outcome, Pair(data, inverse.data)) == FixTail(old(data), inverse.data)
    {
      var check := CheckInverse();
      assert check == IsInverseDictAsWritten(data, inverse.data.entries);
      if check.Err? {
        return Fail(check.error);
      }
      var fixedSelf := Pass;
      if !check.value {
        fixedSelf := FixMe();
      }
      check := CheckInverse();
      assert check == IsInverseDictAsWritten(data, inverse.data.entries);
      outcome := if fixedSelf.Fail? then fixedSelf
                 else if check.Err? then Fail(check.error)
                 else if check.value then Pass
                 else Fail(ValueError);
    }

    /**
     * `PairedDict.make_pairs(items)`: `ValueError` when `inverse` is given as a keyword or a
     * value is repeated; otherwise a new dict holding the items and its inverse, linked to
     * each other both ways.
     */
    static method MakePairs(items: seq<(K, V)>, inverseKeyword: bool)
      returns (r: Result<(PairedDict<K, V>, PairedDict<V, K>)>)
      ensures r.Err? ==> r.error == ValueError
      ensures r.Err? <==> inverseKeyword || !Injective(FromPairs(items).entries)
      ensures r.Ok? ==>
        && fresh(r.value.0) && fresh(r.value.1)
        && r.value.0.inverse == r.value.1 && r.value.1.inverse == r.value.0
        && r.value.0.Consistent() && r.value.0.data == FromPairs(items)
    {
      if inverseKeyword {
        return Err(ValueError);
      }
      var fwd := new PairedDict<K, V>(items);
      FixInverted(fwd.data);
      InvertedConsistent(fwd.data);
      var outcome := fwd.FixInverse();
      if outcome.Fail? {
        return Err(outcome.error);
      }
      var bwd: PairedDict<V, K> := fwd.inverse;
      r := match fwd.CheckInverseStrict()
           case Ok(strict) => if strict then Ok((fwd, bwd)) else Err(ValueError)
           case Err(e) => Err(e);
    }
  }

  /** `BijectiveMap`: a `ChainMap` over a forward `PairedDict` and its inverse. */
  class BijectiveMap<T(==)> {
    /** `self.maps[0]` */
    const fwd: PairedDict<T, T>
    /** `self.maps[1]` */
    const bwd: PairedDict<T, T>

    /** The two directions are linked to each other and hold inverse contents. */
    ghost predicate Valid()
      reads this, fwd, bwd
    {
      fwd.inverse == bwd && bwd.inverse == fwd && fwd.Consistent()
    }

    ghost function Contents(): Pair<T, T>
      reads this, fwd, bwd
    {
      Pair(fwd.data, bwd.data)
    }

    constructor Linked(forward: PairedDict<T, T>, backward: PairedDict<T, T>)
      ensures fwd == forward && bwd == backward
    {
      fwd := forward;
      bwd := backward;
    }

    /** `BijectiveMap(items)`: the two directions come from `PairedDict.make_pairs`. */
    static method Create(items: seq<(T, T)>, inverseKeyword: bool) returns (r: Result<BijectiveMap<T>>)
      ensures r.Err? ==> r.error == ValueError
      ensures r.Err? <==> inverseKeyword || !Injective(FromPairs(items).entries)
      ensures r.Ok? ==> fresh(r.value) && r.value.Valid() && r.value.fwd.data == FromPairs(items)
    {
      var pairs := PairedDict<T, T>.MakePairs(items, inverseKeyword);
      if pairs.Err? {
        return Err(pairs.error);
      }
      var m := new BijectiveMap.Linked(pairs.value.0, pairs.value.1);
      r := Ok(m);
    }

    /** `self[key]`: the forward dict first, then the backward one. */
    function Get(key: T): (r: Result<T>)
      reads this, fwd, bwd
      ensures r == ChainGet(Contents(), key)
    {
      ChainGet(Pair(fwd.data, bwd.data), key)
    }

    /** `self[key] = value`: always applied to the forward dict. */
    method SetItem(key: T, value: T) returns (outcome: Outcome)
      requires Valid()
      modifies fwd, bwd
      ensures Valid() && outcome == Pass
      ensures Contents() == PairSet(old(Contents()), key, value).state
    {
      PairSetConsistent(Contents(), key, value);
      outcome := fwd.SetItem(key, value);
    }

    /** `del self[key]`: through the forward dict if it has the key, else the backward one. */
    method DelItem(key: T) returns (outcome: Outcome)
      requires Valid()
      modifies fwd, bwd
      ensures Valid()
      ensures var r := ChainDelete(old(Contents()), key);
        && outcome == (if r.Ok? then Pass else Fail(r.error))
        && Contents() == (if r.Ok? then r.value else old(Contents()))
    {
      ChainDeleteConsistent(Contents(), key);
      if key in fwd.data.entries {
        outcome := fwd.DelItem(key);
      } else if key in bwd.data.entries {
        outcome := bwd.DelItem(key);
      } else {
        outcome := Fail(KeyError);
      }
    }
  }

  /** `make_pairs({1: 'a', 2: 'a'})` raises `ValueError`: the value `'a'` is repeated. */
  lemma MakePairsRepeated()
    ensures !Injective(FromPairs([(1, 'a'), (2, 'a')]).entries)
  {
    var ps: seq<(int, char)> := [(1, 'a'), (2, 'a')];
    assert ps[..1] == [(1, 'a')] && ps[..1][..0] == [];
    var one := Update(Empty(), ps[..1]);
    assert Update(Empty(), ps[..1][..0]) == Empty();
    assert one == Set(Empty(), 1, 'a');
    assert one.entries == map[1 := 'a'];
    var d := FromPairs(ps);
    assert d == Set(one, 2, 'a');
    assert d.entries[1] == d.entries[2];
  }
}
