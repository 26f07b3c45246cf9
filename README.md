# Memoization and structural-equality assertions of zipline, in Dafny

This project models two small pieces of zipline.

**`zipline/utils/memoize.py`: the memoization helpers.**

- `lazyval` and `classlazyval` are attributes that are computed on first access and then remembered. They are remembered per instance or per class, in a table that holds its owners weakly.
- `weak_lru_cache(maxsize)` is a decorator that memoizes calls.
  - It has an unbounded variant (`maxsize=None`) and a least-recently-used one (LRU: it keeps at most `maxsize` results and drops the one used longest ago).
  - Both variants count hits and misses, and expose `cache_info` and `cache_clear`.
- The cache is built on these pieces:
  - the composite cache key;
  - `_WeakKey`, which wraps the key's elements in weak references and remembers its hash;
  - `_WeakKeyDict` and `_WeakOrderedDict`.
- `remember_last` is `weak_lru_cache(1)`.

**`zipline/testing/predicates.py`: the structural-equality assertion.**

- `assert_equal` compares two plain values. `assert_dict_equal` and `assert_list_equal` recurse into dictionaries and lists. Each difference is reported under a path of `[key]` and `[n]` pieces.
- The helpers `_s` (pluralisation) and `_fmt_path` (path rendering) are modelled too.

**Modules.**

- `Outcomes` holds `Option`, `Result` and the Python exceptions that matter here.
- `CacheKeys` holds key construction, keyword sorting and `_WeakKey`.
- `WeakDicts` holds the two weak dictionaries, as classes over a `map` and a recency `seq`.
- `Memoize` holds the two wrappers, `weak_lru_cache` and `remember_last`.
- `LazyValues` holds `lazyval` and `classlazyval`.
- `Predicates` holds the comparison as pure recursive functions. It also has methods that mirror the two loops, and the lemmas.

**Modelling choices.**

- The wrapped callable and the lazy getters are functions returning `Result`. An exception they raise is an `Err`.
- Ghost counters record how often they ran. The compute-once accounting is an invariant of every class.
- Garbage collection is an explicit step (`ObjectDied`, `OwnerDied`, `ReferentDied`). It does what the weak-reference callbacks do.

## Model

| member | source | states |
|---|---|---|
| CacheKeys.SortByName | zipline/utils/memoize.py:126 | `sorted(kwds.items())` is a permutation of the keyword pairs |
| CacheKeys.SortByNameSorted | zipline/utils/memoize.py:126 | with distinct names, the pairs come out strictly ordered by name |
| CacheKeys.SortedUnique | zipline/utils/memoize.py:126 | two name-sorted sequences of the same pairs are identical |
| CacheKeys.KeywordOrderIrrelevant | zipline/utils/memoize.py:124-126 | keyword arguments passed in different orders sort to the same sequence |
| CacheKeys.MakeKey | zipline/utils/memoize.py:124-126 | the key is the positional arguments. Only when keywords are present do the marker and the keyword pairs follow |
| CacheKeys.KeyDeterminesPositional | zipline/utils/memoize.py:144-146 | equal keys imply equal positional arguments, and that both calls did or did not pass keywords |
| CacheKeys.KeyDeterminesKeywords | zipline/utils/memoize.py:144-146 | equal keys imply equal name-sorted keyword pairs |
| CacheKeys.SameKeyIffSameArguments | zipline/utils/memoize.py:124-126 | two calls share a cache entry iff they pass the same positional arguments and the same keyword arguments in any order |
| CacheKeys.WeakKey.constructor | zipline/utils/memoize.py:183-190 | a new key holds its elements, has no dead referent and no cached hash |
| CacheKeys.WeakKey.Hash | zipline/utils/memoize.py:199-204 | a cached hash is returned without recomputing. Otherwise the hash is computed once and cached on success. An unhashable element or a dead referent raises TypeError and caches nothing |
| CacheKeys.WeakKey.ReferentDied | zipline/utils/memoize.py:192-197 | a weakly referenced element dies; the cached hash is kept |
| CacheKeys.HashSurvivesReferentDeath | zipline/utils/memoize.py:199-204 | a key hashed while alive hashes to the same value after a referent died |
| CacheKeys.UnhashedKeyLostAfterDeath | zipline/utils/memoize.py:199-204 | a key never hashed cannot be hashed once a referent it mentions died |
| WeakDicts.Lookup | zipline/utils/memoize.py:211-212 | the value is found iff the key is hashable and stored. Otherwise TypeError or KeyError |
| WeakDicts.PopResult | zipline/utils/memoize.py:227-228 | `pop` returns the stored value, else the default, else KeyError; an unhashable key gives TypeError |
| WeakDicts.Without | zipline/utils/memoize.py:227-228 | removing a key from the order keeps the other keys, their distinctness and their order, and shortens the order by one |
| WeakDicts.MovedToEndSpec | zipline/utils/memoize.py:241-247 | the moved key ends last and the order stays a permutation of distinct keys. The others keep their relative order, and with two keys or more the moved key is not at the eviction end |
| WeakDicts.Survivors | zipline/utils/memoize.py:184-187 | after an object's death, exactly the keys not referring to it remain, still distinct |
| WeakDicts.SurvivingEntries | zipline/utils/memoize.py:184-187 | after an object's death, exactly the entries whose keys do not refer to it remain, with their values |
| WeakDicts.WeakKeyDict.constructor | zipline/utils/memoize.py:207 | a new dictionary is empty |
| WeakDicts.WeakKeyDict.Get | zipline/utils/memoize.py:211-212 | `__getitem__` is the lookup |
| WeakDicts.WeakKeyDict.Set | zipline/utils/memoize.py:217-218 | a hashable key is stored with the value; an unhashable key raises TypeError and changes nothing |
| WeakDicts.WeakKeyDict.Delete | zipline/utils/memoize.py:208-209 | a stored key is removed; otherwise the lookup's error is raised and nothing changes |
| WeakDicts.WeakKeyDict.Pop | zipline/utils/memoize.py:227-228 | the result is `PopResult`, and only a stored key is removed |
| WeakDicts.WeakKeyDict.Contains | zipline/utils/memoize.py:220-225 | membership for a hashable key; TypeError otherwise |
| WeakDicts.WeakKeyDict.Len | zipline/utils/memoize.py:167 | the number of stored entries |
| WeakDicts.WeakKeyDict.Clear | zipline/utils/memoize.py:207-228 | `clear()` as inherited under Python 3. An empty dictionary stays empty. Otherwise exactly one entry is removed and TypeError is raised, because the inherited `popitem` calls the `_WeakKey` list |
| WeakDicts.WeakKeyDict.ClearAll | zipline/utils/memoize.py:172 | what `clear()` evidently means: the dictionary becomes empty |
| WeakDicts.WeakKeyDict.ObjectDied | zipline/utils/memoize.py:218 | the removal callbacks drop every entry whose key refers to the dead object |
| WeakDicts.WeakOrderedDict.constructor | zipline/utils/memoize.py:232-234 | a new ordered dictionary is empty |
| WeakDicts.WeakOrderedDict.OrderMatchesEntries | zipline/utils/memoize.py:231-234 | the recency order lists each stored key exactly once |
| WeakDicts.WeakOrderedDict.Get | zipline/utils/memoize.py:211-212 | `__getitem__` is the lookup and does not reorder |
| WeakDicts.WeakOrderedDict.Set | zipline/utils/memoize.py:217-218 | a new key is appended at the most-recent end; an existing key keeps its place; an unhashable key raises TypeError |
| WeakDicts.WeakOrderedDict.Pop | zipline/utils/memoize.py:227-228 | `PopResult`; a stored key leaves both the entries and the order |
| WeakDicts.WeakOrderedDict.PopItem | zipline/utils/memoize.py:236-239 | removes and returns the last entry, or the first with `last` false; KeyError when empty |
| WeakDicts.WeakOrderedDict.MoveToEnd | zipline/utils/memoize.py:241-247 | a stored key keeps its value and moves to the most-recent end; otherwise KeyError or TypeError and nothing changes |
| WeakDicts.WeakOrderedDict.Contains | zipline/utils/memoize.py:220-225 | membership for a hashable key; TypeError otherwise |
| WeakDicts.WeakOrderedDict.Len | zipline/utils/memoize.py:159 | the number of stored entries |
| WeakDicts.WeakOrderedDict.Clear | zipline/utils/memoize.py:172 | the dictionary and its order become empty |
| WeakDicts.WeakOrderedDict.ObjectDied | zipline/utils/memoize.py:218 | entries referring to the dead object leave the dictionary and the order |
| Memoize.StoredWithinMisses | zipline/utils/memoize.py:133-136 | every stored result came from a miss, so the size never exceeds the misses |
| Memoize.ComputedOnceAdmit | zipline/utils/memoize.py:155-158 | storing a fresh result keeps the compute-once accounting |
| Memoize.ComputedOnceRelease | zipline/utils/memoize.py:159-161 | evicting or dropping entries keeps the compute-once accounting |
| Memoize.UnboundedWrapper.constructor | zipline/utils/memoize.py:114-120 | an empty cache with both counters at zero |
| Memoize.UnboundedWrapper.Invoke | zipline/utils/memoize.py:123-136 | unhashable arguments: TypeError, nothing changes. A hit returns the stored result and counts a hit, without a call. A miss calls once, stores and counts only a returned result, and passes a raised error on |
| Memoize.UnboundedWrapper.Info | zipline/utils/memoize.py:164-167 | `(hits, misses, None, len(cache))`, with the size at most the misses |
| Memoize.UnboundedWrapper.Clear | zipline/utils/memoize.py:169-173 | as written. On an empty cache both counters are zeroed. Otherwise one entry is removed and TypeError is raised, and `hits` and `misses` are left as they were |
| Memoize.UnboundedWrapper.ClearAll | zipline/utils/memoize.py:169-173 | as intended: the cache is empty and `cache_info` reports `(0, 0, None, 0)` |
| Memoize.ClearAfterTwoCalls | zipline/utils/memoize.py:169-173 | after two different successful calls, `cache_clear` raises TypeError as written and leaves `cache_info` at `(0, 2, None, 1)`; as intended it reports `(0, 0, None, 0)` |
| Memoize.UnboundedWrapper.ObjectDied | zipline/utils/memoize.py:184-187 | the entries referring to the dead object go; the counters stay |
| Memoize.LruWrapper.constructor | zipline/utils/memoize.py:137-141 | an empty cache and order with both counters at zero |
| Memoize.LruWrapper.Invoke | zipline/utils/memoize.py:143-162 | a hit returns the stored result, counts a hit and moves the key to the most-recent end, without a call. A miss calls once; a returned result is appended and counted, and the front entry is evicted when the size exceeds `maxsize`. A raising call changes nothing, and the size stays within `maxsize` |
| Memoize.LruWrapper.Admit | zipline/utils/memoize.py:155-162 | the miss path appends the new entry and evicts exactly the least recent one when the cache outgrew `maxsize` |
| Memoize.LruWrapper.Store | zipline/utils/memoize.py:157-158 | the entry is appended at the most-recent end and `misses` grows by one |
| Memoize.LruWrapper.EvictOldest | zipline/utils/memoize.py:159-161 | the front of the order is removed and the size bound holds again |
| Memoize.LruWrapper.Info | zipline/utils/memoize.py:164-167 | `(hits, misses, maxsize, len(cache))`, with the size at most `maxsize` (at least 0) and at most the misses |
| Memoize.LruWrapper.Clear | zipline/utils/memoize.py:169-173 | the cache is empty and `cache_info` reports `(0, 0, maxsize, 0)` |
| Memoize.LruWrapper.ObjectDied | zipline/utils/memoize.py:184-187 | entries referring to the dead object leave the cache and the order; the counters stay |
| Memoize.WeakLruCache | zipline/utils/memoize.py:90-119 | `maxsize` None gives the unbounded wrapper and an integer gives the LRU one, both fresh and empty; the default is 100 |
| Memoize.RememberLast | zipline/utils/memoize.py:250 | an LRU wrapper with `maxsize` 1, hence never more than one entry |
| LazyValues.LazyVal.constructor | zipline/utils/memoize.py:41-43 | an empty cache with no getter call |
| LazyValues.LazyVal.Read | zipline/utils/memoize.py:45-52 | the result is always what the getter gives for the owner. A cached value is returned with no getter call; otherwise the getter runs once, and a value is cached while an error is passed on |
| LazyValues.LazyVal.Assign | zipline/utils/memoize.py:54-55 | assignment raises AttributeError and changes nothing |
| LazyValues.LazyVal.Delete | zipline/utils/memoize.py:57-58 | only that owner's value is forgotten, so the next read calls the getter again; KeyError when none is cached |
| LazyValues.LazyVal.OwnerDied | zipline/utils/memoize.py:43 | the weak dictionary drops the dead owner's value |
| LazyValues.ReadTwice | zipline/utils/memoize.py:27-33 | two reads agree, and the getter ran at most once over both |
| LazyValues.ClassLazyVal.constructor | zipline/utils/memoize.py:61 | an empty cache keyed by class |
| LazyValues.ClassLazyVal.Read | zipline/utils/memoize.py:86-87 | the value is read with the owner class in place of the instance |
| LazyValues.SharedAcrossInstances | zipline/utils/memoize.py:76-81 | two instances of one class see the same value, computed at most once |
| Predicates.S | zipline/testing/predicates.py:23 | the result is `word` exactly when the count is one, and `word + suffix` otherwise |
| Predicates.FmtPath | zipline/testing/predicates.py:39-41 | empty exactly for the empty path; otherwise starts with `path: _` |
| Predicates.FmtPathExtend | zipline/testing/predicates.py:41 | the rendering of an extended path is the parent's rendering followed by the new piece |
| Predicates.ConcatAppend | zipline/testing/predicates.py:41 | joining pieces distributes over appending one piece |
| Predicates.Decimal | zipline/testing/predicates.py:129 | `'%d' % n` is a non-empty string of digits, one digit exactly below ten |
| Predicates.DecimalInjective | zipline/testing/predicates.py:129 | different indices print differently |
| Predicates.KeyPieceInjective | zipline/testing/predicates.py:104 | different string or integer keys give different `[%r]` path pieces |
| Predicates.TupleKeyPieceAsWritten | zipline/testing/predicates.py:104 | as written, a tuple key of other than one element makes the piece raise TypeError, and a one-element tuple key gets its element's piece |
| Predicates.KeyPieceIntended | zipline/testing/predicates.py:104 | formatted as `'[%r]' % (k,)`, every key, tuples included, renders without error as a bracketed piece |
| Predicates.KeyPieceIntendedSound | zipline/testing/predicates.py:104 | the intended piece never raises and equals the as-written piece on string and integer keys; no tuple key's piece equals a plain key's piece |
| Predicates.Keys | zipline/testing/predicates.py:72-73 | the key set is exactly the keys of the entries |
| Predicates.LookupEntry | zipline/testing/predicates.py:99 | the looked-up value is stored under that key |
| Predicates.KeyMismatch | zipline/testing/predicates.py:74-96 | strict superset: exactly the extra keys. Strict subset: exactly the missing keys. Otherwise two disjoint non-empty parts whose union is the symmetric difference. Nouns agree in number; the location ends in `.keys()` |
| Predicates.Compare | zipline/testing/predicates.py:60-64 | a failure is never empty and lies at or below the path; with the intended message no TypeError arises |
| Predicates.CompareDicts | zipline/testing/predicates.py:67-111 | as for `Compare`, for two dictionaries |
| Predicates.CollectEntries | zipline/testing/predicates.py:98-111 | once a failure is collected the dictionary cannot pass; all failures lie under the path |
| Predicates.CompareLists | zipline/testing/predicates.py:114-123 | a length mismatch raises TypeError as written, and fails with a length record as intended |
| Predicates.CompareItems | zipline/testing/predicates.py:125-131 | failures are non-empty and under the path |
| Predicates.CompareFrom | zipline/testing/predicates.py:69-70 | a `None` path acts as the empty path, except that a list with elements raises TypeError when extending it |
| Predicates.EntryPassIffEqual | zipline/testing/predicates.py:99-108 | an entry passes iff its value equals the expected value under that key |
| Predicates.PassIffEqual | zipline/testing/predicates.py:44-131 | the assertion passes iff the values are equal in Python's sense (same keys in any order, same lengths, equal leaves) |
| Predicates.ItemsPassIffEqual | zipline/testing/predicates.py:125-131 | the list loop passes iff every remaining element is equal |
| Predicates.DictReportsEveryDifference | zipline/testing/predicates.py:98-111 | with equal key sets, every differing key is reported under its `[k]` path, and every failure lies under a differing key |
| Predicates.ItemsFirstFailure | zipline/testing/predicates.py:125-131 | a failing list loop ends with the first differing element; all before it are equal |
| Predicates.ListStopsAtFirstFailure | zipline/testing/predicates.py:125-131 | a list comparison reports only the first differing element, under its `[n]` path |
| Predicates.LengthMessageRaisesTypeError | zipline/testing/predicates.py:118-123 | as written, any length mismatch ends in TypeError |
| Predicates.LengthMessageHidesDictFailures | zipline/testing/predicates.py:99-123 | as written, a length mismatch inside a dictionary hides the other key's failure; as intended, both are reported |
| Predicates.LengthMismatchReported | zipline/testing/predicates.py:118-123 | as intended, a length mismatch is one failure naming both lengths at the path, and no comparison raises TypeError |
| Predicates.AssertEqual | zipline/testing/predicates.py:44-64 | the dispatch computes the verdict of `Compare` |
| Predicates.AssertDictEqual | zipline/testing/predicates.py:67-111 | the key check and the failure-collecting loop compute `CompareDicts` |
| Predicates.AssertListEqual | zipline/testing/predicates.py:114-131 | the length check and the element loop compute `CompareLists` |

## Left out

- The lock is not modelled, since calls are sequential. Thread interleavings between the lookup and the store are therefore not captured.
- `@wraps`, `__wrapped__` and `__repr__` are not modelled. The descriptor's `instance is None` branch is not modelled either, as it returns the descriptor itself.
- The `last` argument of `move_to_end` is not modelled, because the code ignores it.
- Garbage-collection timing is not modelled; the death of an object is an explicit step.
- `WeakKeyDictionary`'s pending-removal bookkeeping is not modelled, and `len` counts the live entries.
- A key whose referent died while the key was in a dictionary is removed by the callback at once, so a lookup of a dead key is not modelled.
- CacheKeys.WeakKey.Hash: `TupleHash` is a deterministic stand-in for CPython's tuple hash, and weak references hash like their referents. Collisions and hash randomisation are not modelled.
- The `except TypeError` of `__contains__` is kept only as its effect: wrapping a key never raises, and hashing an unhashable probe raises TypeError.
- The wrapped callable and the lazy getters are pure functions of their arguments, which makes results deterministic. Their side effects, such as the doctests' counters, appear only as ghost call counts.
- `lazyval` and `classlazyval` owners are assumed hashable and weakly referenceable. The errors `WeakKeyDictionary` raises otherwise are not modelled.
- `dispatch`, `assert_equal.register` and the optional datashape comparison are not modelled. Dispatch is a match on the value kinds.
- The `**kwargs` passed down the recursion are not modelled.
- Predicates.KeyMismatch: the message text with `%r` of key sets is not modelled, because set order is unspecified. The record carries the sets and the pluralised nouns instead.
- Predicates.Compare: a `NotEqual` record carries the two values and the path, not their `%s` rendering.
- String escapes in `repr` of keys are not modelled. A string key prints between single quotes.
- The `viewkeys` spelling used under Python 2 is not modelled.
- `zipline/utils/functional.py` (`dzip_exact`) is not part of this model. The dictionary loop visits the result's entries in insertion order and pairs each with the expected value under the same key, since the key sets are equal by then.
- Python `==` between leaves is Dafny equality.
- Python 2 is not modelled. The standard-library behaviour followed is Python 3's: `keys()` in the key-mismatch path, and the `clear` that `WeakKeyDictionary` inherits from `MutableMapping`.
- WeakDicts.WeakKeyDict.Clear: the entry removed before the TypeError is left open. The underlying dictionary pops its most recently inserted entry, but the unordered dictionary keeps no insertion order.
- Weakly referenced arguments (`Obj`) are compared and hashed by identity. In the source a weak reference compares and hashes like its live referent. So two distinct objects that compare equal and hash alike share one cache entry there, while here they are two entries.
- The comparison's dictionary keys are strings and integers (`DictKey`). Tuple keys appear only in the formatting of the `[%r]` path piece (`PieceKey`). So the comparison does not state that equal dictionaries with a two-element tuple key raise TypeError: that is stated for the piece (`Predicates.TupleKeyPieceAsWritten`). `Predicates.KeyPieceInjective` covers string and integer keys only. Keys of other types (floats, `None`, nested tuples) are not modelled.
- Assertions are assumed enabled: running under `python -O` would strip them.

## Findings

| source | as written | input that shows it | evidently intended | confidence | as-written member | corrected member |
|---|---|---|---|---|---|---|
| zipline/testing/predicates.py:118-123 | the message is `'... %d != %d\n%s' % result_len, expected_len, _fmt_path(path)`. Its `%` applies to `result_len` alone, so building the message of a failed length check raises TypeError (not enough arguments for the format string). Inside `assert_dict_equal` that TypeError escapes `except AssertionError` and discards the failures collected for other keys. | `assert_equal({'a': [1], 'b': 2}, {'a': [], 'b': 3})` | an AssertionError naming both lengths and the path; the dictionary reports it together with the `['b']` difference | not executed | Predicates.LengthMessageHidesDictFailures | Predicates.LengthMismatchReported |
| zipline/utils/memoize.py:169-173 | `cache.clear()` on the unbounded cache runs Python 3's inherited `MutableMapping.clear`. It calls `WeakKeyDictionary.popitem`, which pops one entry and then calls its `_WeakKey` list as a weak reference, raising TypeError. The counters are not reset and the other entries stay. | `f = weak_lru_cache(None)(g); f(1); f(2); f.cache_clear()` | the cache is emptied and `cache_info()` reports `(0, 0, None, 0)` | not executed | Memoize.ClearAfterTwoCalls | Memoize.UnboundedWrapper.ClearAll |
| zipline/testing/predicates.py:104 | the path piece `'[%r]' % k` spreads a tuple key over the single `%r`. A key of two elements raises TypeError, which `except AssertionError` does not catch, and a one-element tuple key prints as its element. | `assert_equal({(1, 2): 0}, {(1, 2): 0})` | every key renders as its own repr, as `'[%r]' % (k,)` does | not executed | Predicates.TupleKeyPieceAsWritten | Predicates.KeyPieceIntendedSound |
