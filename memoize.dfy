/** The memoizing call wrapper `weak_lru_cache(maxsize)` and its ready-made
    instance `remember_last` (zipline/utils/memoize.py:90-179, :250).
    Calls are sequential: the lock only matters across threads. */
module Memoize {
  import opened Outcomes
  import opened CacheKeys
  import opened WeakDicts

  /** `cache_info()`: `(hits, misses, maxsize, currsize)`. */
  datatype CacheInfo = CacheInfo(hits: nat, misses: nat, maxsize: Option<int>, currsize: nat)

  /** The size a bounded cache keeps to: `len(cache) > maxsize` triggers an
      eviction, so a negative `maxsize` keeps the cache empty. */
  function Bound(maxsize: int): nat {
    if maxsize < 0 then 0 else maxsize
  }

  /** A set whose every element occurs in a multiset is no larger than it. */
  lemma {:induction false} SetWithinMultiset(s: set<Key>, m: multiset<Key>)
    requires forall k :: k in s ==> m[k] >= 1
    ensures |s| <= |m|
    decreases |s|
  {
    if s != {} {
      var x :| x in s;
      var m' := m - multiset{x};
      forall k | k in s - {x} ensures m'[k] >= 1 {
        assert m'[k] == m[k];
      }
      SetWithinMultiset(s - {x}, m');
      assert m == m' + multiset{x};
    }
  }

  /** The compute-once accounting both wrappers keep, counted since the last
      `cache_clear`: a key's result was computed once for every time it left
      the cache (eviction or the death of an object it refers to) plus once
      more if it is stored now, and `misses` counts every computation. */
  ghost predicate ComputedOnce(entries: set<Key>, computed: multiset<Key>, released: multiset<Key>, misses: nat) {
    && misses == |computed|
    && forall k {:trigger computed[k]} {:trigger released[k]} ::
         computed[k] == released[k] + (if k in entries then 1 else 0)
  }

  /** Every stored result came from a miss since the last clear. */
  lemma StoredWithinMisses(entries: set<Key>, computed: multiset<Key>, released: multiset<Key>, misses: nat)
    requires ComputedOnce(entries, computed, released, misses)
    ensures |entries| <= misses
  {
    forall k | k in entries ensures computed[k] >= 1 {
      assert computed[k] == released[k] + 1;
    }
    SetWithinMultiset(entries, computed);
  }

  /** Storing a freshly computed result keeps the accounting. */
  lemma ComputedOnceAdmit(entries: set<Key>, computed: multiset<Key>, released: multiset<Key>, misses: nat, k: Key)
    requires ComputedOnce(entries, computed, released, misses) && k !in entries
    ensures ComputedOnce(entries + {k}, computed + multiset{k}, released, misses + 1)
  {
  }

  /** Removing stored keys, counting them as released, keeps the accounting. */
  lemma ComputedOnceRelease(entries: set<Key>, computed: multiset<Key>, released: multiset<Key>, misses: nat, gone: set<Key>)
    requires ComputedOnce(entries, computed, released, misses) && gone <= entries
    ensures ComputedOnce(entries - gone, computed, released + multiset(gone), misses)
  {
  }

  lemma SubsetCard(a: set<Key>, b: set<Key>)
    requires a <= b
    ensures |a| <= |b|
  {
    assert b == a + (b - a);
  }

  /** `weak_lru_cache(None)`: a cache without order or size limit
      (zipline/utils/memoize.py:118-136). */
  class UnboundedWrapper<V> {
    const user: Call -> Result<V>
    /** Identity of this wrapper's `kwd_mark`. */
    const marker: nat
    const cache: WeakKeyDict<V>
    var hits: nat
    var misses: nat
    /** Invocations of the wrapped callable, failed ones included. */
    ghost var userCalls: nat
    ghost var computed: multiset<Key>
    ghost var released: multiset<Key>

    ghost predicate Valid()
      reads this, cache
    {
      cache.Valid() && ComputedOnce(cache.entries.Keys, computed, released, misses)
    }

    constructor (user: Call -> Result<V>, marker: nat)
      ensures Valid() && fresh(cache)
      ensures this.user == user && this.marker == marker
      ensures cache.entries == map[] && hits == 0 && misses == 0 && userCalls == 0
    {
      this.user := user;
      this.marker := marker;
      cache := new WeakKeyDict();
      hits, misses := 0, 0;
      userCalls := 0;
      computed, released := multiset{}, multiset{};
    }

    /** `wrapper(*args, **kwds)`. A stored result is returned without calling
        the wrapped callable and counts a hit; otherwise the callable runs
        once, and only a result it returns is stored and counts a miss.
        An unhashable argument raises TypeError before anything happens. */
    method Invoke(args: seq<Arg>, kwds: Keywords) returns (r: Result<V>)
      requires Valid()
      modifies this, cache
      ensures Valid()
      ensures var key := MakeKey(marker, Call(args, kwds));
        !Hashable(key) ==>
          && r == Err(TypeError)
          && cache.entries == old(cache.entries) && hits == old(hits) && misses == old(misses)
          && userCalls == old(userCalls)
      ensures var key := MakeKey(marker, Call(args, kwds));
        Hashable(key) && key in old(cache.entries) ==>
          && r == Ok(old(cache.entries)[key])
          && cache.entries == old(cache.entries)
          && hits == old(hits) + 1 && misses == old(misses)
          && userCalls == old(userCalls)
      ensures var key := MakeKey(marker, Call(args, kwds));
        Hashable(key) && key !in old(cache.entries) ==>
          && r == user(Call(args, kwds))
          && userCalls == old(userCalls) + 1
          && hits == old(hits)
          && misses == old(misses) + (if r.Ok? then 1 else 0)
          && cache.entries == (if r.Ok? then old(cache.entries)[key := r.value] else old(cache.entries))
    {
      var key := MakeKey(marker, Call(args, kwds));
      var found := cache.Get(key);
      if found.Ok? {
        hits := hits + 1;
        return found;
      }
      if found.error != KeyError {
        return Err(found.error);
      }
      userCalls := userCalls + 1;
      r := user(Call(args, kwds));
      if r.Err? {
        return;
      }
      ComputedOnceAdmit(cache.entries.Keys, computed, released, misses, key);
      var stored := cache.Set(key, r.value);
      misses := misses + 1;
      computed := computed + multiset{key};
    }

    /** `cache_info()`; an unbounded cache reports `maxsize` as None. */
    function Info(): (info: CacheInfo)
      reads this, cache
      requires Valid()
      ensures info.hits == hits && info.misses == misses && info.maxsize == None
      ensures info.currsize == |cache.entries|
      ensures info.currsize <= info.misses
    {
      StoredWithinMisses(cache.entries.Keys, computed, released, misses);
      CacheInfo(hits, misses, None, |cache.entries|)
    }

    /** `cache_clear()` as written, over Python 3's `clear`: on an empty
        cache both counters are zeroed; otherwise `cache.clear()` removes
        one entry and raises TypeError before the counters are reset. */
    method Clear() returns (r: Result<()>)
      requires Valid()
      modifies this, cache
      ensures Valid()
      ensures old(cache.entries) == map[] ==>
        && r == Ok(()) && cache.entries == map[] && hits == 0 && misses == 0
        && Info() == CacheInfo(0, 0, None, 0)
      ensures old(cache.entries) != map[] ==>
        && r == Err(TypeError) && hits == old(hits) && misses == old(misses)
        && |cache.entries| == |old(cache.entries)| - 1
        && exists k :: k in old(cache.entries) && cache.entries == old(cache.entries) - {k}
    {
      ghost var before := cache.entries;
      r := cache.Clear();
      if r.Err? {
        ghost var k :| k in before && cache.entries == before - {k};
        ComputedOnceRelease(before.Keys, computed, released, misses, {k});
        assert cache.entries.Keys == before.Keys - {k};
        released := released + multiset{k};
        return;
      }
      hits, misses := 0, 0;
      computed, released := multiset{}, multiset{};
    }

    /** `cache_clear()` as its docstring means it: empty the cache and zero
        both counters. */
    method ClearAll()
      requires Valid()
      modifies this, cache
      ensures Valid()
      ensures cache.entries == map[] && hits == 0 && misses == 0
      ensures Info() == CacheInfo(0, 0, None, 0)
    {
      cache.ClearAll();
      hits, misses := 0, 0;
      computed, released := multiset{}, multiset{};
    }

    /** Object `o` is reclaimed: every entry whose key refers to it goes. */
    method ObjectDied(o: nat)
      requires Valid()
      modifies this, cache
      ensures Valid()
      ensures cache.entries == SurvivingEntries(old(cache.entries), o)
      ensures hits == old(hits) && misses == old(misses)
    {
      ghost var gone := set k | k in cache.entries && Mentions(k, o);
      ComputedOnceRelease(cache.entries.Keys, computed, released, misses, gone);
      cache.ObjectDied(o);
      assert cache.entries.Keys == old(cache.entries.Keys) - gone;
      released := released + multiset(gone);
    }
  }

  /** `weak_lru_cache(maxsize)` with an integer `maxsize`: a least-recently-
      used cache (zipline/utils/memoize.py:137-162). */
  class LruWrapper<V> {
    const user: Call -> Result<V>
    const marker: nat
    const maxsize: int
    const cache: WeakOrderedDict<V>
    var hits: nat
    var misses: nat
    ghost var userCalls: nat
    ghost var computed: multiset<Key>
    ghost var released: multiset<Key>

    ghost predicate Valid()
      reads this, cache
    {
      && cache.Valid()
      && |cache.entries| <= Bound(maxsize)
      && ComputedOnce(cache.entries.Keys, computed, released, misses)
    }

    constructor (user: Call -> Result<V>, marker: nat, maxsize: int)
      ensures Valid() && fresh(cache)
      ensures this.user == user && this.marker == marker && this.maxsize == maxsize
      ensures cache.entries == map[] && cache.order == [] && hits == 0 && misses == 0 && userCalls == 0
    {
      this.user := user;
      this.marker := marker;
      this.maxsize := maxsize;
      cache := new WeakOrderedDict();
      hits, misses := 0, 0;
      userCalls := 0;
      computed, released := multiset{}, multiset{};
    }

    /** `wrapper(*args, **kwds)`. A hit returns the stored result, counts a
        hit and moves the key to the most-recent end without calling the
        wrapped callable. A miss calls it once; a returned result is stored
        at the most-recent end and counts a miss, and if the cache then holds
        more than `maxsize` entries the least recent one is evicted. A call
        that raises stores nothing and counts nothing. */
    method Invoke(args: seq<Arg>, kwds: Keywords) returns (r: Result<V>)
      requires Valid()
      modifies this, cache
      ensures Valid()
      ensures var key := MakeKey(marker, Call(args, kwds));
        !Hashable(key) ==>
          && r == Err(TypeError)
          && cache.entries == old(cache.entries) && cache.order == old(cache.order)
          && hits == old(hits) && misses == old(misses) && userCalls == old(userCalls)
      ensures var key := MakeKey(marker, Call(args, kwds));
        Hashable(key) && key in old(cache.entries) ==>
          && r == Ok(old(cache.entries)[key])
          && cache.entries == old(cache.entries)
          && cache.order == MovedToEnd(old(cache.order), key)
          && hits == old(hits) + 1 && misses == old(misses)
          && userCalls == old(userCalls)
      ensures var key := MakeKey(marker, Call(args, kwds));
        Hashable(key) && key !in old(cache.entries) ==>
          && r == user(Call(args, kwds))
          && userCalls == old(userCalls) + 1
          && hits == old(hits)
          && (r.Err? ==>
                cache.entries == old(cache.entries) && cache.order == old(cache.order) && misses == old(misses))
          && (r.Ok? ==>
                var grown := old(cache.order) + [key];
                var evict := |grown| > maxsize;
                && misses == old(misses) + 1
                && cache.order == (if evict then grown[1..] else grown)
                && cache.entries == (if evict then old(cache.entries)[key := r.value] - {grown[0]}
                                     else old(cache.entries)[key := r.value]))
    {
      var key := MakeKey(marker, Call(args, kwds));
      var found := cache.Get(key);
      if found.Ok? {
        var renewed := cache.MoveToEnd(key);
        hits := hits + 1;
        return found;
      }
      if found.error != KeyError {
        return Err(found.error);
      }
      userCalls := userCalls + 1;
      r := user(Call(args, kwds));
      if r.Err? {
        return;
      }
      Admit(key, r.value);
    }

    /** The miss path after the wrapped callable returned `value`: store it
        at the most-recent end, count the miss, and evict the least recent
        entry if the cache has outgrown `maxsize`. */
    method Admit(key: Key, value: V)
      requires Valid() && Hashable(key) && key !in cache.entries
      modifies this, cache
      ensures Valid()
      ensures hits == old(hits) && misses == old(misses) + 1 && userCalls == old(userCalls)
      ensures var grown := old(cache.order) + [key];
        var evict := |grown| > maxsize;
        && cache.order == (if evict then grown[1..] else grown)
        && cache.entries == (if evict then old(cache.entries)[key := value] - {grown[0]}
                             else old(cache.entries)[key := value])
    {
      Store(key, value);
      cache.OrderMatchesEntries();
      var size := cache.Len();
      if size > maxsize {
        EvictOldest();
      }
    }

    /** Accounting and dictionary invariants, without the size bound that
        holds again once `Admit` has evicted. */
    ghost predicate Accounted()
      reads this, cache
    {
      cache.Valid() && ComputedOnce(cache.entries.Keys, computed, released, misses)
    }

    /** `cache[key] = result; misses[0] += 1` */
    method Store(key: Key, value: V)
      requires Valid() && Hashable(key) && key !in cache.entries
      modifies this, cache
      ensures Accounted() && |cache.entries| <= Bound(maxsize) + 1
      ensures hits == old(hits) && misses == old(misses) + 1 && userCalls == old(userCalls)
      ensures cache.order == old(cache.order) + [key]
      ensures cache.entries == old(cache.entries)[key := value]
    {
      ComputedOnceAdmit(cache.entries.Keys, computed, released, misses, key);
      var stored := cache.Set(key, value);
      misses := misses + 1;
      computed := computed + multiset{key};
    }

    /** `cache_popitem(False)`: evict the least recent entry. */
    method EvictOldest()
      requires Accounted() && cache.order != [] && |cache.entries| <= Bound(maxsize) + 1
      requires |cache.entries| > maxsize
      modifies this, cache
      ensures Valid()
      ensures hits == old(hits) && misses == old(misses) && userCalls == old(userCalls)
      ensures cache.order == old(cache.order)[1..]
      ensures cache.entries == old(cache.entries) - {old(cache.order)[0]}
    {
      ghost var oldest := cache.order[0];
      ComputedOnceRelease(cache.entries.Keys, computed, released, misses, {oldest});
      var evicted := cache.PopItem(false);
      assert cache.entries.Keys == old(cache.entries.Keys) - {oldest};
      released := released + multiset{oldest};
    }

    /** `cache_info()`: the cache never holds more than `maxsize` entries,
        nor more than the misses since the last clear. */
    function Info(): (info: CacheInfo)
      reads this, cache
      requires Valid()
      ensures info.hits == hits && info.misses == misses && info.maxsize == Some(maxsize)
      ensures info.currsize == |cache.entries|
      ensures info.currsize <= Bound(maxsize) && info.currsize <= info.misses
    {
      StoredWithinMisses(cache.entries.Keys, computed, released, misses);
      CacheInfo(hits, misses, Some(maxsize), |cache.entries|)
    }

    /** `cache_clear()`: empty the cache and zero both counters. */
    method Clear()
      requires Valid()
      modifies this, cache
      ensures Valid()
      ensures cache.entries == map[] && cache.order == [] && hits == 0 && misses == 0
      ensures Info() == CacheInfo(0, 0, Some(maxsize), 0)
    {
      cache.Clear();
      hits, misses := 0, 0;
      computed, released := multiset{}, multiset{};
    }

    /** Object `o` is reclaimed: every entry whose key refers to it leaves
        the cache and the recency order. */
    method ObjectDied(o: nat)
      requires Valid()
      modifies this, cache
      ensures Valid()
      ensures cache.entries == SurvivingEntries(old(cache.entries), o)
      ensures cache.order == Survivors(old(cache.order), o)
      ensures hits == old(hits) && misses == old(misses)
    {
      ghost var gone := set k | k in cache.entries && Mentions(k, o);
      ComputedOnceRelease(cache.entries.Keys, computed, released, misses, gone);
      cache.ObjectDied(o);
      assert cache.entries.Keys == old(cache.entries.Keys) - gone;
      SubsetCard(cache.entries.Keys, old(cache.entries.Keys));
      released := released + multiset(gone);
    }
  }

  /** The wrapper `weak_lru_cache(maxsize)(user)` returns: unbounded for
      `maxsize` None, least-recently-used otherwise. */
  datatype Memoized<V> = Unbounded(u: UnboundedWrapper<V>) | Bounded(b: LruWrapper<V>)

  /** `weak_lru_cache(maxsize=100)(user)`; `marker` is the identity of the
      fresh `kwd_mark` object the decorator creates. */
  method WeakLruCache<V>(user: Call -> Result<V>, marker: nat, maxsize: Option<int> := Some(100)) returns (m: Memoized<V>)
    ensures maxsize.None? ==>
      m.Unbounded? && fresh(m.u) && m.u.Valid() && m.u.user == user && m.u.Info() == CacheInfo(0, 0, None, 0)
    ensures maxsize.Some? ==>
      m.Bounded? && fresh(m.b) && m.b.Valid() && m.b.user == user && m.b.maxsize == maxsize.value
      && m.b.Info() == CacheInfo(0, 0, maxsize, 0)
  {
    if maxsize.None? {
      var u := new UnboundedWrapper(user, marker);
      m := Unbounded(u);
    } else {
      var b := new LruWrapper(user, marker, maxsize.value);
      m := Bounded(b);
    }
  }

  /** `f = weak_lru_cache(None)(user); f(x); f(y); f.cache_clear()` with
      two different arguments the callable accepts: as written, the clear
      raises TypeError, one result stays cached and the two misses stay
      counted; as intended, the cache info afterwards is all zeros. */
  method ClearAfterTwoCalls<V>(user: Call -> Result<V>, marker: nat, x: int, y: int)
    returns (r: Result<()>, asWritten: CacheInfo, intended: CacheInfo)
    requires x != y
    requires user(Call([Val(x)], [])).Ok? && user(Call([Val(y)], [])).Ok?
    ensures r == Err(TypeError)
    ensures asWritten == CacheInfo(0, 2, None, 1)
    ensures intended == CacheInfo(0, 0, None, 0)
  {
    var f := new UnboundedWrapper(user, marker);
    assert Hashable(MakeKey(marker, Call([Val(x)], [])));
    assert Hashable(MakeKey(marker, Call([Val(y)], [])));
    var fx := f.Invoke([Val(x)], []);
    assert MakeKey(marker, Call([Val(x)], [])) != MakeKey(marker, Call([Val(y)], [])) by {
      assert MakeKey(marker, Call([Val(x)], []))[0] == Pos(Val(x));
    }
    var fy := f.Invoke([Val(y)], []);
    r := f.Clear();
    asWritten := f.Info();
    f.ClearAll();
    intended := f.Info();
  }

  /** `remember_last = weak_lru_cache(1)`: keeps only the latest result. */
  method RememberLast<V>(user: Call -> Result<V>, marker: nat) returns (w: LruWrapper<V>)
    ensures fresh(w) && w.Valid() && w.user == user && w.maxsize == 1
    ensures w.Info() == CacheInfo(0, 0, Some(1), 0)
  {
    var m := WeakLruCache(user, marker, Some(1));
    w := m.b;
  }
}
