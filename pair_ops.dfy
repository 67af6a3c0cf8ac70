/**
 * What a `PairedDict` and its inverse do to their contents, as functions on the two dict
 * values. The class in `paired_dict.dfy` is specified by these functions; what the class
 * docstring promises (deleting and setting keep the two sides inverse, and repairing a
 * freshly built pair ends in `ValueError` exactly when a value is repeated) is proved here
 * about them.
 */
module PairOps {
  import opened Results
  import opened Maps
  import opened Dicts
  import opened DictTricks

  /** The contents of a paired dict (`fwd`) and of its inverse (`bwd`). */
  datatype Pair<K, V> = Pair(fwd: Dict<K, V>, bwd: Dict<V, K>) {
    ghost predicate Valid() {
      fwd.Valid() && bwd.Valid()
    }

    /** Each side is the inverse of the other. */
    ghost predicate Consistent() {
      Valid() && Inverses(fwd.entries, bwd.entries)
    }
  }

  /** The same two dicts seen from the inverse. */
  function Flip<K, V>(p: Pair<K, V>): Pair<V, K> {
    Pair(p.bwd, p.fwd)
  }

  /** What a mutation left behind: its outcome and the two dicts, however far it got. */
  datatype Step<K, V> = Step(outcome: Outcome, state: Pair<K, V>)

  /**
   * `del self[key]` on a formed dict whose inverse is linked back to it: `self[key]` is
   * looked up, removed from the inverse, and then `key` is removed from `self`.
   */
  function PairDelete<K, V>(p: Pair<K, V>, key: K): (r: Result<Pair<K, V>>)
    requires p.Valid()
    ensures r.Err? ==> r.error == KeyError
    ensures r.Ok? ==> r.value.Valid()
  {
    if key !in p.fwd.entries then Err(KeyError)
    else
      var value := p.fwd.entries[key];
      if value !in p.bwd.entries then Err(KeyError)
      else Ok(Pair(Remove(p.fwd, key), Remove(p.bwd, value)))
  }

  /**
   * `self[key] = value` on a formed dict: delete `key` from `self` if present, delete
   * `value` from the inverse if present (through the inverse's own deletion), then write
   * both directions. A `KeyError` stops the sequence where it is raised.
   */
  function PairSet<K, V>(p: Pair<K, V>, key: K, value: V): (r: Step<K, V>)
    requires p.Valid()
    ensures r.state.Valid()
    ensures r.outcome.Fail? ==> r.outcome.error == KeyError
  {
    var afterKey := if key in p.fwd.entries then PairDelete(p, key) else Ok(p);
    if afterKey.Err? then Step(Fail(afterKey.error), p)
    else
      var q := afterKey.value;
      var afterValue := if value in q.bwd.entries then PairDelete(Flip(q), value) else Ok(Flip(q));
      if afterValue.Err? then Step(Fail(afterValue.error), q)
      else
        var s := Flip(afterValue.value);
        Step(Pass, Pair(Set(s.fwd, key, value), Set(s.bwd, value, key)))
  }

  /**
   * On inverse dicts, deletion fails exactly for a missing key, and removes that key from
   * one side and its value from the other, keeping them inverse.
   */
  lemma PairDeleteConsistent<K, V>(p: Pair<K, V>, key: K)
    requires p.Consistent()
    ensures PairDelete(p, key).Err? <==> key !in p.fwd.entries
    ensures PairDelete(p, key).Ok? ==>
      && PairDelete(p, key).value.Consistent()
      && PairDelete(p, key).value.fwd.entries == p.fwd.entries - {key}
      && PairDelete(p, key).value.bwd.entries == p.bwd.entries - {p.fwd.entries[key]}
  {
    if key in p.fwd.entries {
      var value := p.fwd.entries[key];
      RemovePairInverses(p.fwd.entries, p.bwd.entries, key);
      assert Remove(p.fwd, key).entries == p.fwd.entries - {key};
      assert Remove(p.bwd, value).entries == p.bwd.entries - {value};
    }
  }

  /** Taking one pair out of two inverse maps, from both sides, leaves them inverse. */
  lemma RemovePairInverses<K, V>(f: map<K, V>, b: map<V, K>, key: K)
    requires Inverses(f, b) && key in f
    ensures Inverses(f - {key}, b - {f[key]})
  {
    var value := f[key];
    forall k | k in f - {key} ensures f[k] in b - {value} && (b - {value})[f[k]] == k {
      assert b[f[k]] == k;
    }
    forall v | v in b - {value} ensures b[v] in f - {key} && (f - {key})[b[v]] == v {
      assert f[b[v]] == v;
    }
  }

  /** Adding one pair to two inverse maps that hold neither side of it keeps them inverse. */
  lemma AddPairInverses<K, V>(f: map<K, V>, b: map<V, K>, key: K, value: V)
    requires Inverses(f, b) && key !in f && value !in b
    ensures Inverses(f[key := value], b[value := key])
  {
    forall k | k in f ensures f[k] != value {
      assert f[k] in b;
    }
    forall v | v in b ensures b[v] != key {
      assert b[v] in f;
    }
  }

  /**
   * On inverse dicts, setting always succeeds, keeps them inverse, and displaces the old
   * associations: `key` now maps to `value`, the key that used to map to `value` is gone,
   * and every other key keeps its value. (The inverse side follows, being the inverse.)
   */
  lemma PairSetConsistent<K, V>(p: Pair<K, V>, key: K, value: V)
    requires p.Consistent()
    ensures PairSet(p, key, value).outcome == Pass
    ensures PairSet(p, key, value).state.Consistent()
    ensures var f := PairSet(p, key, value).state.fwd.entries;
      && key in f && f[key] == value
      && (forall k :: k != key ==> (k in f <==> k in p.fwd.entries && p.fwd.entries[k] != value))
      && (forall k :: k in f && k != key ==> f[k] == p.fwd.entries[k])
  {
    var q := if key in p.fwd.entries then PairDelete(p, key).value else p;
    DropKey(p, key);
    var r := if value in q.bwd.entries then PairDelete(Flip(q), value).value else Flip(q);
    DropKey(Flip(q), value);
    var s := Flip(r);
    assert PairSet(p, key, value) == Step(Pass, Pair(Set(s.fwd, key, value), Set(s.bwd, value, key)));
    Displace(p.fwd.entries, q.fwd.entries, q.bwd.entries, s.fwd.entries, key, value);
    AddPairInverses(s.fwd.entries, s.bwd.entries, key, value);
    SetPairEntries(s, key, value);
  }

  /** The keys left on the forward side once `key` and then `value` have been deleted. */
  lemma Displace<K, V>(f: map<K, V>, qf: map<K, V>, qb: map<V, K>, sf: map<K, V>, key: K, value: V)
    requires Inverses(qf, qb)
    requires qf == f - {key}
    requires sf == qf - (if value in qb then {qb[value]} else {})
    ensures forall k :: k != key ==> (k in sf <==> k in f && f[k] != value)
    ensures forall k :: k in sf ==> k in f && sf[k] == f[k]
  {
    forall k | k != key && k in f && f[k] == value ensures k !in sf {
      assert k in qf;
    }
  }

  /** Deleting `key` if present: afterwards `key` is gone and so is its old value's entry. */
  lemma DropKey<K, V>(p: Pair<K, V>, key: K)
    requires p.Consistent()
    ensures key in p.fwd.entries ==> PairDelete(p, key).Ok?
    ensures var q := if key in p.fwd.entries then PairDelete(p, key).value else p;
      && q.Consistent()
      && q.fwd.entries == p.fwd.entries - {key}
      && q.bwd.entries == p.bwd.entries - (if key in p.fwd.entries then {p.fwd.entries[key]} else {})
  {
    if key in p.fwd.entries {
      PairDeleteConsistent(p, key);
    } else {
      assert p.fwd.entries - {key} == p.fwd.entries;
      assert p.bwd.entries - {} == p.bwd.entries;
    }
  }

  lemma SetPairEntries<K, V>(s: Pair<K, V>, key: K, value: V)
    ensures Set(s.fwd, key, value).entries == s.fwd.entries[key := value]
    ensures Set(s.bwd, value, key).entries == s.bwd.entries[value := key]
  {
  }

  /** The mutations a user can apply to a formed paired dict. */
  datatype Mutation<K, V> = Assign(key: K, value: V) | Delete(key: K)

  /** One mutation; a deletion that raises leaves both dicts as they were. */
  function Apply<K, V>(p: Pair<K, V>, m: Mutation<K, V>): (r: Step<K, V>)
    requires p.Valid()
    ensures r.state.Valid()
  {
    match m
    case Assign(key, value) => PairSet(p, key, value)
    case Delete(key) =>
      var d := PairDelete(p, key);
      if d.Err? then Step(Fail(d.error), p) else Step(Pass, d.value)
  }

  /** A sequence of mutations, each one's error caught before the next. */
  function ApplyAll<K, V>(p: Pair<K, V>, ms: seq<Mutation<K, V>>): (r: Pair<K, V>)
    requires p.Valid()
    ensures r.Valid()
    decreases |ms|
  {
    if ms == [] then p else ApplyAll(Apply(p, ms[0]).state, ms[1..])
  }

  /** Every mutation of inverse dicts keeps them inverse; a failing one is a missing key. */
  lemma ApplyConsistent<K, V>(p: Pair<K, V>, m: Mutation<K, V>)
    requires p.Consistent()
    ensures Apply(p, m).state.Consistent()
    ensures Apply(p, m).outcome.Fail? <==> m.Delete? && m.key !in p.fwd.entries
  {
    match m
    case Assign(key, value) => PairSetConsistent(p, key, value);
    case Delete(key) => PairDeleteConsistent(p, key);
  }

  /** Dicts that start as inverses stay inverses under any sequence of mutations. */
  lemma {:induction false} ApplyAllConsistent<K, V>(p: Pair<K, V>, ms: seq<Mutation<K, V>>)
    requires p.Consistent()
    ensures ApplyAll(p, ms).Consistent()
    decreases |ms|
  {
    if ms != [] {
      ApplyConsistent(p, ms[0]);
      ApplyAllConsistent(Apply(p, ms[0]).state, ms[1..]);
    }
  }

  /**
   * `fix_me()` on `d` once its inverse `inv` is linked back to it: `check_inverse()` runs
   * the inverse test as written, so its `KeyError` propagates; when the test says no, `d`
   * is updated with the swapped items of `inv`.
   */
  function FixMeStep<K, V>(d: Dict<K, V>, inv: Dict<V, K>): (r: Result<Dict<K, V>>)
    requires d.Valid() && inv.Valid()
    ensures r.Err? ==> r.error == KeyError && |d.entries| == |inv.entries| && !Inverses(d.entries, inv.entries)
    ensures r.Ok? ==> r.value.Valid()
    ensures Inverses(d.entries, inv.entries) ==> r == Ok(d)
    ensures r.Ok? && !Inverses(d.entries, inv.entries) ==> r.value == Update(d, InvDictIter(inv))
  {
    IsInverseDictAsWrittenAgrees(d, inv.entries);
    match IsInverseDictAsWritten(d, inv.entries)
    case Err(e) => Err(e)
    case Ok(ok) => if ok then Ok(d) else Ok(Update(d, InvDictIter(inv)))
  }

  /**
   * `fix_inverse` once the two objects are linked: unless the test passes, the inverse runs
   * `fix_me`; unless the test then passes, `fwd` runs `fix_me` (which repeats the test just
   * made, so it updates); and `ValueError` if even that did not help. Every test is the
   * one written in `is_inverse_dict`, so a `KeyError` can stop the repair part-way.
   */
  function Fix<K, V>(p: Pair<K, V>): (r: Step<K, V>)
    requires p.Valid()
    ensures r.state.Valid()
    ensures r.outcome.Pass? <==> r.state.Consistent()
    ensures r.outcome.Fail? ==> r.outcome.error == ValueError || r.outcome.error == KeyError
    ensures p.Consistent() ==> r == Step(Pass, p)
  {
    IsInverseDictAsWrittenAgrees(p.fwd, p.bwd.entries);
    match IsInverseDictAsWritten(p.fwd, p.bwd.entries)
    case Err(e) => Step(Fail(e), p)
    case Ok(first) =>
      var b := if first then Ok(p.bwd) else FixMeStep(p.bwd, p.fwd);
      if b.Err? then Step(Fail(b.error), p) else FixTail(p.fwd, b.value)
  }

  /** The repair from the second test on: `fwd` runs `fix_me` unless the test passes. */
  function FixTail<K, V>(fwd: Dict<K, V>, bwd: Dict<V, K>): (r: Step<K, V>)
    requires fwd.Valid() && bwd.Valid()
    ensures r.state.Valid()
    ensures r.outcome.Pass? <==> r.state.Consistent()
    ensures r.outcome.Fail? ==> r.outcome.error == ValueError || r.outcome.error == KeyError
    ensures Inverses(fwd.entries, bwd.entries) ==> r == Step(Pass, Pair(fwd, bwd))
  {
    IsInverseDictAsWrittenAgrees(fwd, bwd.entries);
    match IsInverseDictAsWritten(fwd, bwd.entries)
    case Err(e) => Step(Fail(e), Pair(fwd, bwd))
    case Ok(second) => FixLast(if second then fwd else Update(fwd, InvDictIter(bwd)), bwd)
  }

  /** The last test of the repair: `ValueError` when it says no. */
  function FixLast<K, V>(fwd: Dict<K, V>, bwd: Dict<V, K>): (r: Step<K, V>)
    requires fwd.Valid() && bwd.Valid()
    ensures r.state == Pair(fwd, bwd)
    ensures r.outcome.Pass? <==> Inverses(fwd.entries, bwd.entries)
    ensures r.outcome.Fail? ==> r.outcome.error == ValueError || r.outcome.error == KeyError
  {
    IsInverseDictAsWrittenAgrees(fwd, bwd.entries);
    match IsInverseDictAsWritten(fwd, bwd.entries)
    case Err(e) => Step(Fail(e), Pair(fwd, bwd))
    case Ok(last) => Step(if last then Pass else Fail(ValueError), Pair(fwd, bwd))
  }

  /** The same repair with the corrected inverse test, which never raises. */
  function FixCorrected<K, V>(p: Pair<K, V>): (r: Step<K, V>)
    requires p.Valid()
    ensures r.state.Valid()
    ensures r.outcome.Pass? <==> r.state.Consistent()
    ensures r.outcome.Fail? ==> r.outcome.error == ValueError
    ensures p.Consistent() ==> r == Step(Pass, p)
  {
    IsInverseDictSymmetric(p.fwd.entries, p.bwd.entries);
    var bwd := if IsInverseDict(p.bwd.entries, p.fwd.entries) then p.bwd
               else Update(p.bwd, InvDictIter(p.fwd));
    var fwd := if IsInverseDict(p.fwd.entries, bwd.entries) then p.fwd
               else Update(p.fwd, InvDictIter(bwd));
    if IsInverseDict(fwd.entries, bwd.entries) then Step(Pass, Pair(fwd, bwd))
    else Step(Fail(ValueError), Pair(fwd, bwd))
  }

  /** Unless the repair as written stops with `KeyError`, it does what the corrected one does. */
  lemma FixAgrees<K, V>(p: Pair<K, V>)
    requires p.Valid()
    ensures Fix(p).outcome != Fail(KeyError) ==> Fix(p) == FixCorrected(p)
  {
    IsInverseDictSymmetric(p.fwd.entries, p.bwd.entries);
    IsInverseDictAsWrittenAgrees(p.fwd, p.bwd.entries);
    IsInverseDictAsWrittenAgrees(p.bwd, p.fwd.entries);
    var c := FixCorrected(p);
    var bwd := if IsInverseDict(p.bwd.entries, p.fwd.entries) then p.bwd
               else Update(p.bwd, InvDictIter(p.fwd));
    IsInverseDictAsWrittenAgrees(p.fwd, bwd.entries);
    var fwd := if IsInverseDict(p.fwd.entries, bwd.entries) then p.fwd
               else Update(p.fwd, InvDictIter(bwd));
    IsInverseDictAsWrittenAgrees(fwd, bwd.entries);
  }

  /**
   * `fwd = {1: 'a', 2: 'b'}` linked to the inverse `{'a': 1, 'c': 3}`: the first test of
   * `fix_inverse` looks up `'b'` and raises `KeyError`.
   */
  lemma FixRaises()
    ensures var p := Pair(Dict([1, 2], map[1 := 'a', 2 := 'b']), Dict(['a', 'c'], map['a' := 1, 'c' := 3]));
      Fix(p) == Step(Fail(KeyError), p)
  {
    var f := Dict([1, 2], map[1 := 'a', 2 := 'b']);
    var b := Dict(['a', 'c'], map['a' := 1, 'c' := 3]);
    assert Items(f) == [(1, 'a'), (2, 'b')];
    assert Items(f)[1..] == [(2, 'b')];
    assert IsInverseDictAsWritten(f, b.entries) == Err(KeyError);
  }

  /**
   * On the same pair the corrected repair succeeds: it ends with `{1: 'a', 2: 'b', 3: 'c'}`
   * and `{'a': 1, 'c': 3, 'b': 2}`, which are inverses.
   */
  lemma FixCorrectedRepairs()
    ensures var p := Pair(Dict([1, 2], map[1 := 'a', 2 := 'b']), Dict(['a', 'c'], map['a' := 1, 'c' := 3]));
      && FixCorrected(p).outcome == Pass
      && FixCorrected(p).state.fwd.entries == map[1 := 'a', 2 := 'b', 3 := 'c']
      && FixCorrected(p).state.bwd.entries == map['a' := 1, 'c' := 3, 'b' := 2]
  {
    var f := Dict([1, 2], map[1 := 'a', 2 := 'b']);
    var b := Dict(['a', 'c'], map['a' := 1, 'c' := 3]);
    var b2 := RaisesExampleBackward(f, b);
    var f2 := RaisesExampleForward(f, b2);
    RaisesExampleRepaired(f2, b2);
  }

  /** The two repaired dicts of the example are inverses. */
  lemma RaisesExampleRepaired(f2: Dict<int, char>, b2: Dict<char, int>)
    requires f2.entries == map[1 := 'a', 2 := 'b', 3 := 'c']
    requires b2.entries == map['a' := 1, 'c' := 3, 'b' := 2]
    ensures Inverses(f2.entries, b2.entries)
  {
  }

  /** The inverse of the example once it has run `fix_me`. */
  lemma RaisesExampleBackward(f: Dict<int, char>, b: Dict<char, int>) returns (b2: Dict<char, int>)
    requires f == Dict([1, 2], map[1 := 'a', 2 := 'b'])
    requires b == Dict(['a', 'c'], map['a' := 1, 'c' := 3])
    ensures b2 == Update(b, InvDictIter(f))
    ensures b2 == Dict(['a', 'c', 'b'], map['a' := 1, 'c' := 3, 'b' := 2])
    ensures !IsInverseDict(b.entries, f.entries)
  {
    assert 'c' in b.entries && b.entries['c'] !in f.entries;
    assert Items(f) == [(1, 'a'), (2, 'b')];
    var ps := InvDictIter(f);
    assert ps == [('a', 1), ('b', 2)];
    assert ps[..1] == [('a', 1)];
    var b1 := Update(b, ps[..1]);
    assert b1 == Set(Update(b, []), 'a', 1);
    assert b1 == b;
    b2 := Update(b, ps);
    assert b2 == Set(b1, 'b', 2);
  }

  /** The forward dict of the example once it has run `fix_me` against the repaired inverse. */
  lemma RaisesExampleForward(f: Dict<int, char>, b2: Dict<char, int>) returns (f2: Dict<int, char>)
    requires f == Dict([1, 2], map[1 := 'a', 2 := 'b'])
    requires b2 == Dict(['a', 'c', 'b'], map['a' := 1, 'c' := 3, 'b' := 2])
    ensures f2 == Update(f, InvDictIter(b2))
    ensures f2.entries == map[1 := 'a', 2 := 'b', 3 := 'c']
    ensures !IsInverseDict(f.entries, b2.entries)
  {
    assert 'c' in b2.entries && b2.entries['c'] !in f.entries;
    var qs := InvDictIter(b2);
    assert Items(b2) == [('a', 1), ('c', 3), ('b', 2)];
    assert qs == [(1, 'a'), (3, 'c'), (2, 'b')];
    assert qs[..2] == [(1, 'a'), (3, 'c')] && qs[..2][..1] == [(1, 'a')];
    assert Update(f, qs[..2][..1]) == f;
    assert Update(f, qs[..2]) == Set(f, 3, 'c');
    f2 := Update(f, qs);
    assert f2 == Set(Set(f, 3, 'c'), 2, 'b');
  }

  /** The inverse test as written never raises on two dicts that are inverses. */
  lemma ConsistentNeverRaises<K, V>(p: Pair<K, V>)
    requires p.Consistent()
    ensures IsInverseDictAsWritten(p.fwd, p.bwd.entries) == Ok(true)
    ensures IsInverseDictAsWritten(p.bwd, p.fwd.entries) == Ok(true)
  {
    IsInverseDictSymmetric(p.fwd.entries, p.bwd.entries);
    IsInverseDictAsWrittenAgrees(p.fwd, p.bwd.entries);
    IsInverseDictAsWrittenAgrees(p.bwd, p.fwd.entries);
  }

  /**
   * Dicts that start as inverses, after any sequence of sets and deletes, pass every test
   * of the repair as written: it raises nothing and changes nothing.
   */
  lemma MutatedFixPasses<K, V>(p: Pair<K, V>, ms: seq<Mutation<K, V>>)
    requires p.Consistent()
    ensures Fix(ApplyAll(p, ms)) == Step(Pass, ApplyAll(p, ms))
    ensures IsInverseDictAsWritten(ApplyAll(p, ms).fwd, ApplyAll(p, ms).bwd.entries) == Ok(true)
  {
    ApplyAllConsistent(p, ms);
    ConsistentNeverRaises(ApplyAll(p, ms));
  }

  /**
   * What `fix_me` does to `self` when it acts: no key is removed, the values of the
   * inverse become keys, and every entry either was there before or undoes an entry of
   * the inverse.
   */
  lemma FixMeOnlyAdds<K, V>(d: Dict<K, V>, b: Dict<V, K>)
    requires b.Valid()
    ensures var r := Update(d, InvDictIter(b)).entries;
      && r.Keys == d.entries.Keys + b.entries.Values
      && forall k :: k in r ==> (k in d.entries && r[k] == d.entries[k]) || (r[k] in b.entries && b.entries[r[k]] == k)
  {
    var ps := InvDictIter(b);
    UpdateKeys(d, ps);
    InvDictIterKeys(b);
    forall k | k in Update(d, ps).entries
      ensures var r := Update(d, ps).entries;
        (k in d.entries && r[k] == d.entries[k]) || (r[k] in b.entries && b.entries[r[k]] == k)
    {
      if k in KeysOf(ps) {
        var i := LastIndexOf(ps, k);
        UpdateLastWins(d, ps, i);
      } else {
        UpdateUntouched(d, ps, k);
      }
    }
  }

  /**
   * A dict paired with its unchecked inversion is inverse to it exactly when no value is
   * repeated.
   */
  lemma InvertedConsistent<K, V>(d: Dict<K, V>)
    requires d.Valid()
    ensures Pair(d, FromPairs(InvDictIter(d))).Consistent() <==> Injective(d.entries)
  {
    InvertDictChecked(d);
    InvertDictUnchecked(d);
    var b := FromPairs(InvDictIter(d)).entries;
    InversesIffOneSided(d.entries, b);
    if Injective(d.entries) {
      assert forall k :: k in d.entries ==> d.entries[k] in b && b[d.entries[k]] == k;
    }
  }

  /**
   * `fix_inverse` on a freshly built pair (`fwd` and its unchecked inversion) changes
   * neither side, and raises `ValueError` exactly when a value of `fwd` is repeated. It
   * never raises `KeyError`: with a repeated value the two sizes differ, so every inverse
   * test returns `False` before it looks anything up.
   */
  lemma FixInverted<K, V>(d: Dict<K, V>)
    requires d.Valid()
    ensures var p := Pair(d, FromPairs(InvDictIter(d)));
      Fix(p) == if Injective(d.entries) then Step(Pass, p) else Step(Fail(ValueError), p)
  {
    var b := FromPairs(InvDictIter(d));
    InvertedConsistent(d);
    if !Injective(d.entries) {
      InvertDictChecked(d);
      assert |b.entries| < |d.entries|;
      assert IsInverseDictAsWritten(d, b.entries) == Ok(false);
      assert IsInverseDictAsWritten(b, d.entries) == Ok(false);
      InvertedFixesNothing(d);
    }
  }

  /** Updating either side of a freshly built pair from the other changes nothing. */
  lemma InvertedFixesNothing<K, V>(d: Dict<K, V>)
    requires d.Valid()
    ensures var b := FromPairs(InvDictIter(d));
      Update(b, InvDictIter(d)) == b && Update(d, InvDictIter(b)) == d
  {
    var ps := InvDictIter(d);
    var b := FromPairs(ps);
    UpdateIdempotent(Empty(), ps);
    InvertDictUnchecked(d);
    var back := InvDictIter(b);
    forall i | 0 <= i < |back| ensures back[i].0 in d.entries && d.entries[back[i].0] == back[i].1 {
      assert back[i].1 == b.order[i];
    }
    UpdateAgreeing(d, back);
  }

  // ---------------------------------------------------------------------------
  // The two directions read as one map (`BijectiveMap`, a `ChainMap` of the pair)
  // ---------------------------------------------------------------------------

  /** `ChainMap.__getitem__`: the forward dict first, then the backward one. */
  function ChainGet<T>(p: Pair<T, T>, key: T): (r: Result<T>)
    ensures r.Err? <==> key !in p.fwd.entries && key !in p.bwd.entries
    ensures r.Err? ==> r.error == KeyError
  {
    if key in p.fwd.entries then Ok(p.fwd.entries[key])
    else if key in p.bwd.entries then Ok(p.bwd.entries[key])
    else Err(KeyError)
  }

  /** `BijectiveMap.__delitem__`: delete through the forward dict, else the backward one. */
  function ChainDelete<T>(p: Pair<T, T>, key: T): (r: Result<Pair<T, T>>)
    requires p.Valid()
    ensures r.Err? ==> r.error == KeyError
    ensures r.Ok? ==> r.value.Valid()
  {
    if key in p.fwd.entries then PairDelete(p, key)
    else if key in p.bwd.entries then
      var d := PairDelete(Flip(p), key);
      if d.Err? then Err(d.error) else Ok(Flip(d.value))
    else Err(KeyError)
  }

  /**
   * On inverse dicts, deleting fails exactly when the key is in neither direction. A key
   * of the forward dict loses its pair from both directions, and so does a key found only
   * in the backward dict; nothing else changes and the two stay inverse. When the key
   * spaces of the two directions are disjoint, the key is in neither direction afterwards.
   */
  lemma ChainDeleteConsistent<T>(p: Pair<T, T>, key: T)
    requires p.Consistent()
    ensures ChainDelete(p, key).Err? <==> key !in p.fwd.entries && key !in p.bwd.entries
    ensures ChainDelete(p, key).Ok? ==> ChainDelete(p, key).value.Consistent()
    ensures key in p.fwd.entries ==>
      && ChainDelete(p, key).Ok?
      && ChainDelete(p, key).value.fwd.entries == p.fwd.entries - {key}
      && ChainDelete(p, key).value.bwd.entries == p.bwd.entries - {p.fwd.entries[key]}
    ensures key !in p.fwd.entries && key in p.bwd.entries ==>
      && ChainDelete(p, key).Ok?
      && ChainDelete(p, key).value.bwd.entries == p.bwd.entries - {key}
      && ChainDelete(p, key).value.fwd.entries == p.fwd.entries - {p.bwd.entries[key]}
    ensures ChainDelete(p, key).Ok? && p.fwd.entries.Keys !! p.bwd.entries.Keys ==>
      ChainGet(ChainDelete(p, key).value, key).Err?
  {
    if key in p.fwd.entries {
      PairDeleteConsistent(p, key);
    } else if key in p.bwd.entries {
      PairDeleteConsistent(Flip(p), key);
    }
  }

  /**
   * When no key of the forward dict is also a key of the backward dict, the chained lookup
   * is symmetric: an association can be read from either end.
   */
  lemma ChainGetSymmetric<T>(p: Pair<T, T>, key1: T, key2: T)
    requires p.Consistent() && p.fwd.entries.Keys !! p.bwd.entries.Keys
    requires key1 in p.fwd.entries && p.fwd.entries[key1] == key2
    ensures ChainGet(p, key1) == Ok(key2)
    ensures ChainGet(p, key2) == Ok(key1)
  {
    assert key2 in p.bwd.entries;
  }

  /**
   * Without disjoint key spaces the chained lookup is not symmetric: in `{1: 2, 2: 3}` and
   * its inverse, `1` reads as `2` but `2` reads as `3`, not `1`.
   */
  lemma ChainGetOverlap()
    ensures var p := Pair(Dict([1, 2], map[1 := 2, 2 := 3]), Dict([2, 3], map[2 := 1, 3 := 2]));
      p.Consistent() && ChainGet(p, 1) == Ok(2) && ChainGet(p, 2) == Ok(3)
  {
    var p := Pair(Dict([1, 2], map[1 := 2, 2 := 3]), Dict([2, 3], map[2 := 1, 3 := 2]));
    assert p.fwd.Valid() && p.bwd.Valid();
  }
}
