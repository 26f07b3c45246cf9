/** The dictionaries the memoizing wrappers store their entries in
    (zipline/utils/memoize.py, `_WeakKeyDict` and `_WeakOrderedDict`).
    Entries are keyed by the key's elements; the death of an object a key
    refers to weakly is an explicit step, `ObjectDied`. */
module WeakDicts {
  import opened Outcomes
  import opened CacheKeys

  predicate Distinct(s: seq<Key>) {
    forall i, j :: 0 <= i < j < |s| ==> s[i] != s[j]
  }

  /** `self.data[_WeakKey(key)]`: hashing an unhashable key raises
      TypeError, a missing key raises KeyError. */
  function Lookup<V>(m: map<Key, V>, key: Key): (r: Result<V>)
    ensures r.Ok? <==> Hashable(key) && key in m
    ensures r.Ok? ==> r.value == m[key]
    ensures r.Err? ==> r.error == (if Hashable(key) then KeyError else TypeError)
  {
    if !Hashable(key) then Err(TypeError) else if key in m then Ok(m[key]) else Err(KeyError)
  }

  /** What `pop(key[, default])` returns: the stored value; for a missing
      key the default, or KeyError without one; TypeError for an unhashable
      key whatever the default. */
  function PopResult<V>(m: map<Key, V>, key: Key, default: Option<V>): (r: Result<V>)
    ensures Hashable(key) && key in m ==> r == Ok(m[key])
    ensures !Hashable(key) ==> r == Err(TypeError)
    ensures Hashable(key) && key !in m ==> r == (if default.Some? then Ok(default.value) else Err(KeyError))
  {
    match Lookup(m, key)
    case Ok(v) => Ok(v)
    case Err(KeyError) => if default.Some? then Ok(default.value) else Err(KeyError)
    case Err(e) => Err(e)
  }

  /** The recency order with `k` taken out, the others left in their order. */
  function Without(s: seq<Key>, k: Key): (r: seq<Key>)
    ensures forall x :: x in r <==> x in s && x != k
    ensures Distinct(s) ==> Distinct(r)
    ensures k !in s ==> r == s
    ensures Distinct(s) && k in s ==> |r| == |s| - 1
  {
    if s == [] then []
    else if s[0] == k then
      assert Distinct(s) ==> k !in s[1..];
      Without(s[1..], k)
    else
      assert s == [s[0]] + s[1..];
      assert Distinct(s) ==> Distinct(s[1..]) && s[0] !in s[1..];
      assert k in s ==> k in s[1..];
      [s[0]] + Without(s[1..], k)
  }

  lemma {:induction false} WithoutAppended(s: seq<Key>, k: Key)
    ensures Without(s + [k], k) == Without(s, k)
  {
    if s != [] {
      assert (s + [k])[1..] == s[1..] + [k];
      WithoutAppended(s[1..], k);
    } else {
      assert [k][1..] == [];
    }
  }

  /** `move_to_end(key)`: the key becomes the most recent one. */
  function MovedToEnd(s: seq<Key>, k: Key): (r: seq<Key>)
  {
    Without(s, k) + [k]
  }

  /** Moving a key to the most-recent end keeps the order a permutation of
      distinct keys, leaves the other keys in their relative order, and --
      when there are at least two keys -- takes the moved key out of the
      least-recent position, where eviction would remove it. */
  lemma {:induction false} MovedToEndSpec(s: seq<Key>, k: Key)
    requires Distinct(s) && k in s
    ensures var r := MovedToEnd(s, k);
      && Distinct(r)
      && |r| == |s|
      && r[|r| - 1] == k
      && (forall x :: x in r <==> x in s)
      && Without(r, k) == Without(s, k)
      && (|s| >= 2 ==> r[0] != k)
  {
    var w := Without(s, k);
    WithoutAppended(w, k);
    assert Without(w, k) == w;
    if |s| >= 2 {
      assert |w| >= 1 && w[0] in w;
    }
  }

  /** The keys that stay after the death of object `o`: every key holding
      a weak reference to `o` goes, whatever its other elements. */
  function Survivors(s: seq<Key>, o: nat): (r: seq<Key>)
    ensures forall x :: x in r <==> x in s && !Mentions(x, o)
    ensures Distinct(s) ==> Distinct(r)
  {
    if s == [] then []
    else if Mentions(s[0], o) then Survivors(s[1..], o)
    else
      assert s == [s[0]] + s[1..];
      [s[0]] + Survivors(s[1..], o)
  }

  function SurvivingEntries<V>(m: map<Key, V>, o: nat): (r: map<Key, V>)
    ensures forall k :: k in r <==> k in m && !Mentions(k, o)
    ensures forall k :: k in r ==> r[k] == m[k]
  {
    map k | k in m && !Mentions(k, o) :: m[k]
  }

  /** A sequence of distinct keys has as many elements as its set of keys. */
  lemma {:induction false} DistinctCard(s: seq<Key>)
    requires Distinct(s)
    ensures |set x | x in s| == |s|
  {
    if s != [] {
      DistinctCard(s[1..]);
      assert (set x | x in s) == (set x | x in s[1..]) + {s[0]};
      assert s[0] !in s[1..];
    }
  }

  /** `_WeakKeyDict`: an unordered dictionary from keys to results. */
  class WeakKeyDict<V> {
    var entries: map<Key, V>

    /** Every stored key was hashed when it was stored. */
    ghost predicate Valid()
      reads this
    {
      forall k :: k in entries ==> Hashable(k)
    }

    constructor ()
      ensures Valid() && entries == map[]
    {
      entries := map[];
    }

    /** `__getitem__` */
    method Get(key: Key) returns (r: Result<V>)
      ensures r == Lookup(entries, key)
    {
      if !Hashable(key) {
        r := Err(TypeError);
      } else if key in entries {
        r := Ok(entries[key]);
      } else {
        r := Err(KeyError);
      }
    }

    /** `__setitem__` */
    method Set(key: Key, value: V) returns (r: Result<()>)
      requires Valid()
      modifies this
      ensures Valid()
      ensures r == if Hashable(key) then Ok(()) else Err(TypeError)
      ensures entries == if Hashable(key) then old(entries)[key := value] else old(entries)
    {
      if !Hashable(key) {
        return Err(TypeError);
      }
      entries := entries[key := value];
      r := Ok(());
    }

    /** `__delitem__` */
    method Delete(key: Key) returns (r: Result<()>)
      requires Valid()
      modifies this
      ensures Valid()
      ensures r == (match Lookup(old(entries), key) case Ok(_) => Ok(()) case Err(e) => Err(e))
      ensures entries == if r.Ok? then old(entries) - {key} else old(entries)
    {
      var found := Get(key);
      if found.Err? {
        return Err(found.error);
      }
      entries := entries - {key};
      r := Ok(());
    }

    /** `pop(key[, default])`: remove and return the value; a missing key
        gives the default when one is passed and raises KeyError otherwise.
        An unhashable key raises TypeError either way. */
    method Pop(key: Key, default: Option<V>) returns (r: Result<V>)
      requires Valid()
      modifies this
      ensures Valid()
      ensures r == PopResult(old(entries), key, default)
      ensures entries == if Hashable(key) && key in old(entries) then old(entries) - {key} else old(entries)
    {
      r := Get(key);
      if r.Ok? {
        entries := entries - {key};
      } else if r.error == KeyError && default.Some? {
        r := Ok(default.value);
      }
    }

    /** `__contains__`: hashing the probe can still raise TypeError. */
    method Contains(key: Key) returns (r: Result<bool>)
      ensures r == if Hashable(key) then Ok(key in entries) else Err(TypeError)
    {
      if !Hashable(key) {
        return Err(TypeError);
      }
      r := Ok(key in entries);
    }

    method Len() returns (n: nat)
      ensures n == |entries|
    {
      n := |entries|;
    }

    /** `clear()` as Python 3 runs it. Neither this class nor
        `WeakKeyDictionary` defines `clear`, so `MutableMapping.clear` calls
        `popitem` until it raises KeyError. `WeakKeyDictionary.popitem` pops
        an entry of the underlying dictionary and then calls its key as a
        weak reference; the key is a `_WeakKey` list, so that call raises
        TypeError. An empty dictionary stays empty; otherwise exactly one
        entry is gone and the TypeError escapes. */
    method Clear() returns (r: Result<()>)
      requires Valid()
      modifies this
      ensures Valid()
      ensures old(entries) == map[] ==> r == Ok(()) && entries == map[]
      ensures old(entries) != map[] ==>
        && r == Err(TypeError)
        && |entries| == |old(entries)| - 1
        && exists k :: k in old(entries) && entries == old(entries) - {k}
    {
      if entries == map[] {
        return Ok(());
      }
      var k :| k in entries;
      entries := entries - {k};
      r := Err(TypeError);
    }

    /** What `clear()` evidently means (and what Python 2's `UserDict`
        does): every entry is removed. */
    method ClearAll()
      modifies this
      ensures Valid() && entries == map[]
    {
      entries := map[];
    }

    /** The callbacks of the weak references to `o` fire: each of them
        removes the entry whose key it belongs to. */
    method ObjectDied(o: nat)
      requires Valid()
      modifies this
      ensures Valid()
      ensures entries == SurvivingEntries(old(entries), o)
    {
      entries := SurvivingEntries(entries, o);
    }
  }

  /** `_WeakOrderedDict`: the same dictionary over an `OrderedDict`, whose
      order runs from the least recently stored key to the most recent. */
  class WeakOrderedDict<V> {
    var order: seq<Key>
    var entries: map<Key, V>

    ghost predicate Valid()
      reads this
    {
      && Distinct(order)
      && (forall k :: k in order <==> k in entries)
      && (forall k :: k in entries ==> Hashable(k))
    }

    constructor ()
      ensures Valid() && order == [] && entries == map[]
    {
      order := [];
      entries := map[];
    }

    /** The order lists every stored key exactly once. */
    lemma OrderMatchesEntries()
      requires Valid()
      ensures |order| == |entries|
    {
      DistinctCard(order);
      assert (set x | x in order) == entries.Keys;
    }

    /** `__getitem__` */
    method Get(key: Key) returns (r: Result<V>)
      ensures r == Lookup(entries, key)
    {
      if !Hashable(key) {
        r := Err(TypeError);
      } else if key in entries {
        r := Ok(entries[key]);
      } else {
        r := Err(KeyError);
      }
    }

    /** `__setitem__`: a new key goes to the most-recent end; storing under
        a key already present keeps its position. */
    method Set(key: Key, value: V) returns (r: Result<()>)
      requires Valid()
      modifies this
      ensures Valid()
      ensures r == if Hashable(key) then Ok(()) else Err(TypeError)
      ensures entries == if Hashable(key) then old(entries)[key := value] else old(entries)
      ensures order == if Hashable(key) && key !in old(entries) then old(order) + [key] else old(order)
    {
      if !Hashable(key) {
        return Err(TypeError);
      }
      if key !in entries {
        order := order + [key];
      }
      entries := entries[key := value];
      r := Ok(());
    }

    /** `pop(key[, default])`, as for the unordered dictionary; the key
        also leaves the order. */
    method Pop(key: Key, default: Option<V>) returns (r: Result<V>)
      requires Valid()
      modifies this
      ensures Valid()
      ensures r == PopResult(old(entries), key, default)
      ensures entries == if Hashable(key) && key in old(entries) then old(entries) - {key} else old(entries)
      ensures order == if Hashable(key) && key in old(entries) then Without(old(order), key) else old(order)
    {
      r := Get(key);
      if r.Ok? {
        entries := entries - {key};
        order := Without(order, key);
      } else if r.error == KeyError && default.Some? {
        r := Ok(default.value);
      }
    }

    /** `popitem(last)`: remove the most recent entry, or with `last` false
        the least recent one; KeyError when the dictionary is empty. */
    method PopItem(last: bool) returns (r: Result<(Key, V)>)
      requires Valid()
      modifies this
      ensures Valid()
      ensures old(order) == [] ==> r == Err(KeyError) && order == old(order) && entries == old(entries)
      ensures old(order) != [] ==>
        var k := if last then old(order)[|old(order)| - 1] else old(order)[0];
        && r == Ok((k, old(entries)[k]))
        && entries == old(entries) - {k}
        && order == (if last then old(order)[..|old(order)| - 1] else old(order)[1..])
    {
      if order == [] {
        return Err(KeyError);
      }
      var k := if last then order[|order| - 1] else order[0];
      r := Ok((k, entries[k]));
      entries := entries - {k};
      order := if last then order[..|order| - 1] else order[1..];
      assert forall x :: x in old(order) ==> x == k || x in order;
    }

    /** `move_to_end(key)`, written as `self[key] = self.pop(key)`: KeyError
        (or TypeError) when the key is not stored; otherwise the entry keeps
        its value and becomes the most recent. */
    method MoveToEnd(key: Key) returns (r: Result<()>)
      requires Valid()
      modifies this
      ensures Valid()
      ensures r == (match Lookup(old(entries), key) case Ok(_) => Ok(()) case Err(e) => Err(e))
      ensures entries == old(entries)
      ensures order == if r.Ok? then MovedToEnd(old(order), key) else old(order)
    {
      var popped := Pop(key, None);
      if popped.Err? {
        return Err(popped.error);
      }
      r := Set(key, popped.value);
      assert entries == old(entries);
    }

    /** `__contains__` */
    method Contains(key: Key) returns (r: Result<bool>)
      ensures r == if Hashable(key) then Ok(key in entries) else Err(TypeError)
    {
      if !Hashable(key) {
        return Err(TypeError);
      }
      r := Ok(key in entries);
    }

    method Len() returns (n: nat)
      ensures n == |entries|
    {
      n := |entries|;
    }

    method Clear()
      modifies this
      ensures Valid() && order == [] && entries == map[]
    {
      order := [];
      entries := map[];
    }

    /** Weak-reference callbacks for object `o`: every entry whose key
        refers to `o` leaves both the dictionary and the order. */
    method ObjectDied(o: nat)
      requires Valid()
      modifies this
      ensures Valid()
      ensures entries == SurvivingEntries(old(entries), o)
      ensures order == Survivors(old(order), o)
    {
      entries := SurvivingEntries(entries, o);
      order := Survivors(order, o);
    }
  }
}
