# Bidirectional dictionaries, extended-integer modular arithmetic, argument defaults

A Dafny model of three files of the `sl_py_tools` gizmos collection.

- `dict_tricks.py`:
  - The in-place merge helpers `update_new`, `update_existing` and `pop_existing`.
  - Dict inversion: `_inv_dict_iter`, `invert_dict`, and the inverse test `is_inverse_dict`.
  - `PairedDict`: one direction of a bidirectional map. It keeps a reference to the dict going the other way. Setting or deleting an item updates both.
  - `BijectiveMap`: a `ChainMap` over a `PairedDict` and its inverse.
- `integer_tricks.py`: `mod`, `divmod_`, `gcd` and `invert` on extended integers (integers plus `inf`, `-inf` and `nan`), and what `ExtendedInt.__init__` stores.
- `arg_tricks.py`: `default`, `default_eval` and `defaults`.

Python dicts keep insertion order. That order decides which key wins when values repeat, so a dict is modelled as `Dicts.Dict`: the keys in insertion order together with the key-to-value map. `dict(pairs)` is `Dicts.FromPairs`, where the last write wins. `d.items()` is `Dicts.Items`. `d[k] = v` is `Dicts.Set`, where a new key goes to the end. `del d[k]` is `Dicts.Remove`.

## Files

| file | module | contents |
|---|---|---|
| `results.dfy` | `Results` | The Python exceptions that matter here, plus `Result`, `Outcome` and `Option` |
| `maps.dfy` | `Maps` | Injective maps and inverse maps; cardinality facts |
| `dicts.dfy` | `Dicts` | The ordered dict value, and `MutableDict` (a dict object for the in-place helpers) |
| `dict_tricks.dfy` | `DictTricks` | The module-level functions of `dict_tricks.py` |
| `pair_ops.dfy` | `PairOps` | The two contents of a paired dict and its inverse, and what each mutation and repair does to them, as functions with their lemmas |
| `paired_dict.dfy` | `PairedDicts` | The classes `PairedDict` and `BijectiveMap`, with methods specified by `PairOps` |
| `integer_tricks.dfy` | `IntegerTricks` | Extended integers |
| `arg_tricks.dfy` | `ArgTricks` | Argument defaults |

How the model is shaped:

- `PairedDict` is a class. Its fields are `data`, `inverse: PairedDict?<V, K>` and `formed`.
- `SetItem`, `DelItem`, `FixMe` and `FixInverse` are methods that change `this` and `inverse`.
- Each method's `ensures` states the new contents of both dicts as a `PairOps` function of the old contents.
- What the class docstring promises (dict_tricks.py:146-172) is proved about those functions:
  - mutations keep the two dicts inverse;
  - repairing a freshly built pair fails exactly on repeated values;
  - the inverse test as written never raises on dicts that are inverses;
  - deletion dispatch in `BijectiveMap`.
- The merge helpers are methods with loops over a `MutableDict`. Each is proved against a specification function:
  - `AddNew` for `update_new` (and for the corrected `UpdateNewIntended`; see Findings);
  - `Overwrite` for `update_existing` and `pop_existing`.

## Model

| member | source | states |
|---|---|---|
| `Maps.InjectiveIffCard` | dict_tricks.py:126-128 | A map has repeated values exactly when it has fewer distinct values than keys. This is the size test `invert_dict` relies on. |
| `Maps.InversesIffOneSided` | dict_tricks.py:139-141 | Two maps are inverses both ways exactly when they have the same size and every pair of the first appears swapped in the second. This is the one-sided test `is_inverse_dict` performs. |
| `Maps.InversesSymmetric` | dict_tricks.py:134-137 | Being inverses does not depend on which map comes first. |
| `Dicts.MutableDict.SetDefault` | dict_tricks.py:26 | `setdefault` returns the present value and changes nothing when the key is present. Otherwise it writes the value at the end of the order and returns it. |
| `Dicts.MutableDict.Pop` | dict_tricks.py:61 | `pop(k, default)` returns and removes the entry when present, keeping the others in order. Otherwise it returns the default and changes nothing. |
| `Dicts.Filter` | dict_tricks.py:61 | Dropping keys from an order keeps exactly the others, and keeps them distinct. |
| `Dicts.FilterTwice` | dict_tricks.py:61 | Dropping two sets of keys one after the other is dropping their union. |
| `Dicts.UpdateKeys` | dict_tricks.py:126 | Writing pairs into a dict adds exactly the pairs' keys. |
| `Dicts.UpdateLastWins` | dict_tricks.py:126 | A key takes the value of its last pair. |
| `Dicts.UpdateUntouched` | dict_tricks.py:126 | A key that no pair mentions keeps its presence and its value. |
| `Dicts.UpdateAgreeing` | dict_tricks.py:278 | Writing pairs the dict already holds changes nothing, not even the order. |
| `Dicts.FromItems` | dict_tricks.py:25-26 | `dict(d.items())` is `d` again, order included. So copying a mapping by iterating it is exact. |
| `Dicts.UpdateIdempotent` | dict_tricks.py:278 | Writing the same pairs a second time changes nothing. |
| `Dicts.UpdatePresentOrder` | dict_tricks.py:278 | Writing only keys that are already present leaves the insertion order alone. |
| `DictTricks.InvDictIter` | dict_tricks.py:103-110 | There is one swapped item per key of the dict, and each undoes an entry of the dict. |
| `DictTricks.InvDictIterKeys` | dict_tricks.py:103-110 | The swapped items' keys are exactly the dict's values. |
| `DictTricks.InvertDict` | dict_tricks.py:113-129 | The only error is `ValueError`, and only when checking. A result is a well-formed dict. |
| `DictTricks.InvertDictUnchecked` | dict_tricks.py:113-129 | Unchecked inversion always succeeds. Its keys are exactly the values of `d`, so its size is the number of distinct values. Every entry maps a value back to a key that holds it. |
| `DictTricks.InvertDictLastWins` | dict_tricks.py:126 | A value held by several keys goes to the last of those keys in insertion order. |
| `DictTricks.InvertDictChecked` | dict_tricks.py:127-128 | Checked inversion raises `ValueError` exactly when a value is repeated. Otherwise `r[d[k]] == k` for every key, and `len(r) == len(d)`. |
| `DictTricks.IsInverseDict` | dict_tricks.py:132-141 | True exactly when the two maps are inverses both ways. False whenever the sizes differ. It is the corrected form of the code: see Findings. |
| `DictTricks.IsInverseDictSymmetric` | dict_tricks.py:134-137 | The test gives the same answer with its arguments swapped. |
| `DictTricks.AllSwappedPresent` | dict_tricks.py:141 | The `all(...)` generator raises nothing but `KeyError`. |
| `DictTricks.AllSwappedPresentMeaning` | dict_tricks.py:141 | It yields true exactly when every item is present swapped. An error means some value is missing. |
| `DictTricks.IsInverseDictAsWritten` | dict_tricks.py:132-141 | The code as written: its only error is `KeyError`. |
| `DictTricks.IsInverseDictAsWrittenAgrees` | dict_tricks.py:132-141 | When the code as written returns, it returns the corrected answer. It raises only on maps of equal size that are not inverses. |
| `DictTricks.IsInverseDictAsWrittenRaises` | dict_tricks.py:139-141 | `is_inverse_dict({1: 'a'}, {'b': 1})` raises `KeyError`, where the intended answer is false. |
| `DictTricks.AddNewMeaning` | dict_tricks.py:17-32 | Adding only new keys never changes a present value. The key set grows by exactly the pairs' keys. A new key gets the value of its first pair. |
| `DictTricks.UpdateNew` | dict_tricks.py:17-32 | The new dict is `AddNew` of the old one with the source's pairs and then the keywords, in that order, as the code does it. |
| `DictTricks.UpdateNewKeywordLoses` | dict_tricks.py:31-32 | `update_new({}, {'a': 1}, a=2)` leaves `'a'` at 1: the keyword does not overrule the source. |
| `DictTricks.UpdateNewIntended` | dict_tricks.py:19-23 | The corrected `update_new`: the new dict is `AddNew` of the old one with the keywords and then the source's pairs. |
| `DictTricks.KeywordsOverrule` | dict_tricks.py:19-23 | With the keywords added first, present keys keep their values, and a new key named by a keyword gets the keyword's value whatever the source holds. The keys are those of the dict, the keywords and the source. |
| `DictTricks.AddNewItems` | dict_tricks.py:31-32 | `setdefault` of every item of a dict adds exactly its missing keys, each with that dict's value, and leaves present keys alone. |
| `DictTricks.AddNewFromMapping` | dict_tricks.py:24-26 | A mapping source is `setdefault` of each of its items in turn. |
| `DictTricks.AddNewFromPairs` | dict_tricks.py:27-30 | A pair source writes a pair only when its key is absent. |
| `DictTricks.OverwriteFromMapping` | dict_tricks.py:42-44 | Every existing key takes the source's value when the source has the key. The order is unchanged. |
| `DictTricks.OverwriteFromPairs` | dict_tricks.py:45-48 | Every existing key takes the value of its last pair. The order is unchanged. |
| `DictTricks.UpdateExisting` | dict_tricks.py:35-50 | The new dict is the old one overwritten on its own keys, first by the source and then by the keywords. The order is unchanged. |
| `DictTricks.OverwriteKeepsKeys` | dict_tricks.py:35-50 | Updating existing keys never adds or removes a key. Keys the source lacks keep their value. |
| `DictTricks.PopExisting` | dict_tricks.py:53-61 | `to_update` keeps its keys and order. Each shared key takes the old `pop_from` value. `pop_from` loses exactly the keys of `to_update` and keeps the rest in order. |
| `PairOps.PairDelete` | dict_tricks.py:225-232 | Formed deletion fails only with `KeyError`. Success leaves both dicts well formed. |
| `PairOps.PairDeleteConsistent` | dict_tricks.py:225-232 | On inverse dicts, deletion fails exactly when the key is absent (before any change). Otherwise it removes the key from one side and its value from the other, and the two stay inverse. |
| `PairOps.PairSet` | dict_tricks.py:234-246 | Formed assignment fails only with `KeyError`. It always leaves both dicts well formed. |
| `PairOps.PairSetConsistent` | dict_tricks.py:234-246 | On inverse dicts, `fwd[k] = v` always succeeds and keeps the dicts inverse. Afterwards `fwd[k] == v`. The key that used to map to `v` is gone, and every other key keeps its value. |
| `PairOps.ApplyConsistent` | dict_tricks.py:225-246 | On inverse dicts, any single set or delete keeps them inverse. It fails exactly for deleting an absent key. |
| `PairOps.ApplyAllConsistent` | dict_tricks.py:168-172 | Dicts that start as inverses remain inverses after any sequence of sets and deletes. |
| `PairOps.Fix` | dict_tricks.py:280-297 | The repair as written, with each test the `is_inverse_dict` of the code. It succeeds exactly when it ends with inverse dicts. Its errors are `ValueError` and the `KeyError` of a test. Dicts that are already inverses are left alone. |
| `PairOps.FixMeStep` | dict_tricks.py:268-278 | `fix_me` on contents: a `KeyError` only on equal sizes that are not inverses. Inverses are left alone. Otherwise the dict is updated with the swapped items of the other. |
| `PairOps.FixTail` | dict_tricks.py:294-297 | The repair from the second test on: the same guarantees as `Fix`, and inverses are left alone. |
| `PairOps.FixLast` | dict_tricks.py:296-297 | The last test changes nothing. It passes exactly on inverses, and otherwise raises `ValueError` or the test's `KeyError`. |
| `PairOps.FixCorrected` | dict_tricks.py:280-297 | The repair with the corrected test: its only error is `ValueError`, it succeeds exactly when it ends with inverse dicts, and inverses are left alone. |
| `PairOps.FixAgrees` | dict_tricks.py:280-297 | Unless the repair as written stops with `KeyError`, it gives the same outcome and contents as the corrected one. |
| `PairOps.FixRaises` | dict_tricks.py:292 | With `fwd = {1: 'a', 2: 'b'}` and the inverse `{'a': 1, 'c': 3}`, the first test raises `KeyError` and nothing changes. |
| `PairOps.FixCorrectedRepairs` | dict_tricks.py:292-297 | On that pair the corrected repair succeeds, with `{1: 'a', 2: 'b', 3: 'c'}` and `{'a': 1, 'c': 3, 'b': 2}`. |
| `PairOps.ConsistentNeverRaises` | dict_tricks.py:139-141 | The test as written returns true, in both directions, on dicts that are inverses. |
| `PairOps.MutatedFixPasses` | dict_tricks.py:168-172 | Inverse dicts after any sequence of sets and deletes pass the test as written, and the repair as written passes and changes nothing. |
| `PairOps.FixMeOnlyAdds` | dict_tricks.py:268-278 | Updating from the inverse removes no key, and adds exactly the inverse's values as keys. Every entry was there before or undoes an entry of the inverse. |
| `PairOps.InvertedConsistent` | dict_tricks.py:159-172 | A dict and its unchecked inversion are inverses exactly when no value repeats. |
| `PairOps.FixInverted` | dict_tricks.py:280-297 | Repairing a freshly built pair changes neither side and never raises `KeyError`. It raises `ValueError` exactly when a value repeats. |
| `PairOps.ChainGet` | dict_tricks.py:332-342 | Chained lookup fails, with `KeyError`, exactly when neither direction has the key. |
| `PairOps.ChainDelete` | dict_tricks.py:362-368 | Deletion through either direction fails only with `KeyError`, and leaves well-formed dicts. |
| `PairOps.ChainDeleteConsistent` | dict_tricks.py:362-368 | On inverse dicts, deletion fails exactly when neither direction has the key. A key of `fwd` is removed from `fwd` and its value from `bwd`; otherwise a key of `bwd` is removed from `bwd` and its value from `fwd`. Nothing else changes, and the two stay inverse. With disjoint key spaces, the key is then gone from both directions. |
| `PairOps.ChainGetSymmetric` | dict_tricks.py:335-338 | With disjoint key spaces, `fwd[k1] == k2` gives `self[k1] == k2` and `self[k2] == k1`. |
| `PairOps.ChainGetOverlap` | dict_tricks.py:335-338 | Without disjoint key spaces the symmetric reading fails: in `{1: 2, 2: 3}` and its inverse, `self[2]` is `3`, not `1`. |
| `PairedDicts.PairedDict.constructor` | dict_tricks.py:199-221 | The new dict holds the items. Its inverse is a new object holding the unchecked inversion, linked back. Both are formed. |
| `PairedDicts.PairedDict.Secret` | dict_tricks.py:203-221 | The inner construction takes `outer` as its inverse, and is updated with `outer`'s swapped items. |
| `PairedDicts.PairedDict.WithInverse` | dict_tricks.py:159-166 | With `inverse` given: the partner is a new copy of it updated with the swapped items. The dict is then updated with the partner's swapped items. The two are linked. |
| `PairedDicts.PairedDict.DelItem` | dict_tricks.py:225-232 | Formed: the new contents of both dicts are `PairDelete` of the old ones, with no change on `KeyError`. A consistent pair stays consistent. Not formed: a plain deletion from `self`. |
| `PairedDicts.PairedDict.SetItem` | dict_tricks.py:234-246 | Formed: the new contents of both dicts are `PairSet` of the old ones, including a partial change when a deletion raises. A consistent pair stays consistent and never fails. Not formed: a plain write to `self`. |
| `PairedDicts.PairedDict.CheckInverse` | dict_tricks.py:248-254 | The test as written: its only error is the `KeyError` of `is_inverse_dict`, raised only when the back link holds, the sizes agree and the two are not inverses. True exactly when there is an inverse, whose own inverse has the same contents as `self`, and the two are inverses. The back link is compared by value, not by identity. |
| `PairedDicts.PairedDict.CheckInverseStrict` | dict_tricks.py:256-258 | Raises exactly when `check_inverse` raises, and then `KeyError`. True exactly when the inverse links back to `self` itself and the two are inverses. |
| `PairedDicts.PairedDict.FixMe` | dict_tricks.py:268-278 | Nothing changes without an inverse or when the check holds. A `KeyError` from the check propagates before anything changes. Otherwise `self` is updated with the inverse's swapped items and left formed. The inverse is never touched. |
| `PairedDicts.PairedDict.FixInverse` | dict_tricks.py:280-297 | A missing inverse is created. The inverse is linked back. The outcome and contents are those of `PairOps.Fix`, the repair as written. The outcome is success exactly when the strict check then returns true. A failure is `ValueError` or a test's `KeyError`. |
| `PairedDicts.PairedDict.FixLinked` | dict_tricks.py:292-297 | Once linked, the three tests and their repairs give the outcome and contents of `PairOps.Fix`. |
| `PairedDicts.PairedDict.FixFromSecondTest` | dict_tricks.py:294-297 | From the second test on, the outcome and contents are those of `PairOps.FixTail`. |
| `PairedDicts.PairedDict.MakePairs` | dict_tricks.py:299-328 | `ValueError` exactly when `inverse` is a keyword or a value repeats. Otherwise: two new dicts linked to each other by identity, inverses of each other, the first holding the items. |
| `PairedDicts.MakePairsRepeated` | dict_tricks.py:314-328 | `make_pairs({1: 'a', 2: 'a'})` is refused: its values repeat. |
| `PairedDicts.BijectiveMap.Create` | dict_tricks.py:359-360 | Construction fails with `ValueError` exactly when `make_pairs` does. Otherwise a new, valid map whose forward direction holds the items. |
| `PairedDicts.BijectiveMap.Get` | dict_tricks.py:332-342 | Lookup is `ChainGet` on the two directions. |
| `PairedDicts.BijectiveMap.SetItem` | dict_tricks.py:344-348 | Assignment goes to `fwd`, always succeeds, keeps the map valid, and is `PairSet` on the contents. |
| `PairedDicts.BijectiveMap.DelItem` | dict_tricks.py:362-368 | Deleting is `ChainDelete` on the contents, with no change on `KeyError`. The map stays valid. |
| `IntegerTricks.FloorMod` | integer_tricks.py:49-50 | Python's integer `%`: `d * (a // d) + r == a`. The remainder is 0 or has the divisor's sign, and has smaller size. |
| `IntegerTricks.FloorDivModUnique` | integer_tricks.py:68-69 | Floor quotient and remainder are the only pair with those properties. |
| `IntegerTricks.EitherNaN` | integer_tricks.py:47 | `math.isnan(x) or math.isnan(y)`: `OverflowError` exactly when `x` is an `int` too large for a float, or `x` is not `nan` and `y` is such an `int`. Otherwise it answers whether either is `nan`. |
| `IntegerTricks.Mod` | integer_tricks.py:40-53 | `OverflowError` exactly when the first test meets an `int` too large for a float. Otherwise `ZeroDivisionError` exactly for a finite dividend and a zero divisor. No other error. |
| `IntegerTricks.ModNaN` | integer_tricks.py:47-48 | `nan` as soon as either argument is `nan`, unless the dividend is an `int` too large for a float, which raises `OverflowError` first. |
| `IntegerTricks.ModFinite` | integer_tricks.py:47-50 | A finite argument too large for a float raises `OverflowError`. Otherwise: floor modulo. The result lies in `[0, d)` for `d > 0` and in `(d, 0]` for `d < 0`, and differs from the dividend by a multiple of `d`. A zero divisor raises `ZeroDivisionError`. |
| `IntegerTricks.ModInfinite` | integer_tricks.py:47-53 | An infinite dividend gives 0. A finite dividend with an infinite divisor gives the dividend. In both cases a finite argument too large for a float raises `OverflowError` instead. |
| `IntegerTricks.DivMod` | integer_tricks.py:56-72 | `OverflowError` exactly when the first test meets an `int` too large for a float. Otherwise `ZeroDivisionError` exactly for a finite dividend and a zero divisor. |
| `IntegerTricks.DivModFinite` | integer_tricks.py:66-69 | With a non-zero divisor: success exactly when both convert to floats, else `OverflowError`. Then `q * d + r == dividend`, and `r` is `mod`'s result. |
| `IntegerTricks.DivModInfinite` | integer_tricks.py:66-72 | An infinite dividend gives `(inf, 0)` for a positive divisor and `(-inf, 0)` otherwise, whatever the dividend's sign. A finite dividend with an infinite divisor gives `(0, dividend)`. A finite argument too large for a float raises `OverflowError` instead. |
| `IntegerTricks.GcdNat` | integer_tricks.py:166 | Euclid's algorithm divides both arguments. It is zero only for `(0, 0)`. |
| `IntegerTricks.GcdNatGreatest` | integer_tricks.py:166 | Every common divisor divides it. |
| `IntegerTricks.MathGcd` | integer_tricks.py:166 | `math.gcd` is non-negative, and zero exactly for `gcd(0, 0)`. |
| `IntegerTricks.MathGcdIsGreatest` | integer_tricks.py:166 | `math.gcd` divides both arguments, and every common divisor divides it. |
| `IntegerTricks.Gcd` | integer_tricks.py:157-169 | `OverflowError` exactly when the first test meets an `int` too large for a float. Otherwise: `nan` propagates. Finite arguments give a non-negative finite result. An infinite `a` gives `b`, and a finite `a` with an infinite `b` gives `a`. |
| `IntegerTricks.GcdFinite` | integer_tricks.py:163-166 | On finite arguments: success exactly when both convert to floats, and then the greatest common divisor. |
| `IntegerTricks.Invert` | integer_tricks.py:173-191 | `OverflowError` when the first test meets an `int` too large for a float. Otherwise `nan` propagates, and a modulus of ±1 gives 0 whenever neither argument is `nan`. |
| `IntegerTricks.InvertInfinite` | integer_tricks.py:182-191 | With an infinite argument and a modulus other than ±1, a finite argument too large for a float raises `OverflowError`. Otherwise the result is `x` when `x` is ±1, and `ZeroDivisionError` for any other `x`. |
| `IntegerTricks.TooLargeOverflows` | integer_tricks.py:47 | An `int` of size at least `2**1024 - 2**970` makes `mod`, `divmod_`, `gcd` and `invert` raise `OverflowError` when it comes first, and also when it comes second after anything but `nan`. |
| `IntegerTricks.Trunc` | integer_tricks.py:119 | `int(x)` of a finite float truncates towards zero. |
| `IntegerTricks.ExtendedInt` | integer_tricks.py:117-121 | The stored value is finite exactly when `int(value)` succeeds, and then it is that integer. |
| `IntegerTricks.ExtendedIntKinds` | integer_tricks.py:117-121 | Ints, and finite floats (truncated), become finite. `inf`, `-inf` and `nan` stay as they are. |
| `ArgTricks.Default` | arg_tricks.py:7-23 | The argument when given, else the default. |
| `ArgTricks.DefaultEval` | arg_tricks.py:26-46 | The argument when given, else `default_fn()`. The function need only be callable when the argument is missing. |
| `ArgTricks.Defaults` | arg_tricks.py:49-68 | The length is the shorter of the two, as with `zip`. Element `i` is `default(optionals[i], default_vals[i])`. |
| `ArgTricks.DefaultEvalIsDefault` | arg_tricks.py:26-46 | Lazy and eager defaults agree. |
| `ArgTricks.DefaultIdempotent` | arg_tricks.py:23 | `default(default(x, d), d) == default(x, d)`. |
| `ArgTricks.DefaultsIdempotent` | arg_tricks.py:68 | Filling in an already filled-in tuple changes nothing. |

## Where the model follows the code rather than its description

- `fix_me` does not clear `self`. It only updates `self` with the swapped items of the inverse (dict_tricks.py:268-278), so keys are added or overwritten but never removed. `PairOps.FixMeOnlyAdds` states this.
- The `BijectiveMap` docstring (dict_tricks.py:335-338) says `fwd[k1] == k2` makes both `self[k1] == k2` and `self[k2] == k1`. Lookup is a `ChainMap`: `fwd` first, then `bwd`. So the claim holds only when no key of `fwd` is also a key of `bwd` (`PairOps.ChainGetSymmetric`). `PairOps.ChainGetOverlap` shows it failing otherwise.
- `PairedDict.__init__` delegates to `non_default_eval`, which is not part of this model. The constructors follow the documented net effect (dict_tricks.py:159-166), and the inner `__secret` construction is `Secret`.
  - With `inverse` omitted, the partner is built from the swapped items of `self`.
  - With `inverse` given, the partner is a copy of it, updated with the swapped items of `self`, and then `self` is updated from the partner.

- `math.isnan` and `math.isfinite` convert an `int` argument to a float, so an `int` of size at least `2**1024 - 2**970` (where rounding to a double reaches `2**1024`) raises `OverflowError` in the first test of `mod`, `divmod_`, `gcd` and `invert` (integer_tricks.py:47, 66, 163, 182). The model checks this in the code's order: the first argument, then the second unless the first is `nan` (`IntegerTricks.EitherNaN`).

## Findings

| source | as written | input that shows it | evidently intended | confidence | as-written member | corrected member |
|---|---|---|---|---|---|---|
| dict_tricks.py:139-141 | After the size test, `all(map2[v] == k for k, v in map1.items())` indexes `map2` with each value of `map1`. A value missing from `map2` raises `KeyError`. | `is_inverse_dict({1: 'a'}, {'b': 1})`: the sizes agree, and `map2['a']` raises. Through `check_inverse`, `fix_inverse` on `{1: 'a', 2: 'b'}` linked to `{'a': 1, 'c': 3}` raises at line 292. | The docstring calls it a test, so it should return `False`: the maps are not inverses. | not executed | `DictTricks.IsInverseDictAsWritten`, `DictTricks.IsInverseDictAsWrittenRaises`, `PairOps.Fix`, `PairOps.FixRaises` | `DictTricks.IsInverseDict`, `PairOps.FixCorrected`, `PairOps.FixCorrectedRepairs` |
| dict_tricks.py:19-32 | The docstring says further keywords overrule items in `update_from`, but the keywords go in last through `setdefault` (lines 31-32), so a key the source has already added keeps the source's value. | `update_new({}, {'a': 1}, a=2)` leaves `'a'` at 1. | The keyword's value, 2: keywords are added before the source. | not executed | `DictTricks.UpdateNew`, `DictTricks.UpdateNewKeywordLoses` | `DictTricks.UpdateNewIntended`, `DictTricks.KeywordsOverrule` |

The classes follow the code as written: `check_inverse` (`PairedDicts.PairedDict.CheckInverse`) and `fix_inverse` (`PairOps.Fix`) use the test that can raise. `PairOps.FixAgrees` shows that the repair as written does what the corrected one does unless it raises. `PairOps.ConsistentNeverRaises`, `PairOps.MutatedFixPasses` and `PairOps.FixInverted` show that it never raises on inverse dicts, on what the constructor without `inverse` builds, and after any sets and deletes of inverse dicts.

`UpdateNew` models `update_new` as written; `UpdateNewIntended` is the version that meets its docstring. No other member depends on either.

## Left out

- `pop_new`: it pops from `pop_from` while iterating over it (dict_tricks.py:71-73). On a real dict that raises at the next iteration step, so the code has no well-defined effect to model.
- `updated`: it is a context manager around arbitrary caller code.
- `ceil_divide`, `trunc_divide` and `round_divide` use float division. `divm`, `Export`, and the `number_like` wrappers and mixin (`eint_in`, `eint_out`, the operator wrappers) are not part of this model.
- `IntegerTricks.Invert`: the finite branch calls `gmpy2.invert`, which is not part of this model. The model takes it as the function parameter `gmpyInvert`, so nothing is claimed about its result.
- `IntegerTricks.ExtendedInt`: the input is an int or a float (a real number, `±inf` or `nan`). Strings and other objects are not modelled.
- `IntegerTricks.Mod`, `IntegerTricks.DivMod`, `IntegerTricks.Gcd` and `IntegerTricks.Invert` take extended integers only: a whole number, `±inf` or `nan`. The source's `mod` and `divmod_` also accept a finite non-integral float, as in `mod(2.5, 1) == 0.5` (integer_tricks.py:49-50). That float arithmetic is not modelled.
- Hashability and every `TypeError` are not modelled.
- The `'__secret'` keyword plumbing is replaced by the separate constructor `Secret`.
- Constructor and merge arguments are one sequence of pairs, or a mapping, standing for `*args` and `**kwds`. Keyword names are just keys of the same type.
- `PairedDicts.PairedDict.MakePairs`: the `'inverse' in kwds` test is the boolean `inverseKeyword`.
- `PairedDicts.PairedDict.SetItem` and `PairedDicts.PairedDict.DelItem` require, on a formed dict, that the inverse is set, links back, and is formed. They also require that an object is never its own inverse.
  - The code assumes the first part in its comments (dict_tricks.py:228, 238). Without an inverse, `super(PairedDict, self.inverse)` raises `TypeError` at line 230, reached directly from `__delitem__` or, for a present key, from `__setitem__` through line 240. For an absent key, `__setitem__` raises `AttributeError` at line 241. An inverse that links elsewhere updates a third object. None of these is modelled.
- `PairedDicts.PairedDict.FixInverse` requires the inverse, when set, to be a different object.
- `PairedDicts.PairedDict.FixMe` requires that the inverse, when set, is a different object. A dict that is its own inverse is not modelled.
  - After `fix_inverse`, the inverse's `formed` flag is only stated as kept or created true.
  - The old partner of a replaced inverse is not tracked.
- `DictTricks.PopExisting` requires its two dicts to be different objects. Aliasing the same dict is not modelled.
- `update`, `get`, `keys`, lengths and iteration of a formed `PairedDict` are inherited from `UserDict`/`ChainMap`. A formed `update` is a sequence of `SetItem` calls, which `PairOps.ApplyAllConsistent` covers on contents. The methods themselves are not modelled.
- `BijectiveMap.maps` can be reassigned in Python. The model keeps `fwd` and `bwd` fixed.
- `MutableMapping.__eq__`, used by `check_inverse` for its back-link test, is modelled as equality of the key-to-value maps, ignoring order. Comparing against a non-mapping is modelled as unequal.
