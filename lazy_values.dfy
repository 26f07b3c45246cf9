/** `lazyval` and `classlazyval` (zipline/utils/memoize.py): attributes
    computed on first access and then memoized per owner, in a dictionary
    that holds its owners weakly. The getter is a function of the owner;
    an exception it raises is an `Err` result that is passed on and not
    stored. The death of an owner is an explicit step, `OwnerDied`. */
module LazyValues {
  import opened Outcomes

  /** One `lazyval` descriptor: the getter and the per-owner cache. */
  class LazyVal<Owner(==,!new), V> {
    const get: Owner -> Result<V>
    var cache: map<Owner, V>
    /** Every call of the getter, per owner. */
    ghost var getterCalls: multiset<Owner>
    /** Getter calls that raised. */
    ghost var failures: multiset<Owner>
    /** Cached values removed by `del` or by the owner's death. */
    ghost var dropped: multiset<Owner>

    /** A cached value is what the getter returned for that owner, and the
        getter ran once for each value that was ever cached plus once for
        each call that raised: never again while a value is cached. */
    ghost predicate Valid()
      reads this
    {
      && (forall o :: o in cache ==> get(o) == Ok(cache[o]))
      && (forall o :: getterCalls[o] == failures[o] + dropped[o] + (if o in cache then 1 else 0))
    }

    constructor (get: Owner -> Result<V>)
      ensures Valid()
      ensures this.get == get && cache == map[]
      ensures getterCalls == multiset{} && failures == multiset{} && dropped == multiset{}
    {
      this.get := get;
      cache := map[];
      getterCalls := multiset{};
      failures := multiset{};
      dropped := multiset{};
    }

    /** `__get__` on an instance: the cached value when there is one,
        otherwise one call of the getter, whose value is cached and whose
        exception is passed on. Either way the result is what the getter
        gives for this owner. */
    method Read(o: Owner) returns (r: Result<V>)
      requires Valid()
      modifies this
      ensures Valid()
      ensures r == get(o)
      ensures o in old(cache) ==>
        && r == Ok(old(cache)[o])
        && cache == old(cache) && getterCalls == old(getterCalls)
        && failures == old(failures) && dropped == old(dropped)
      ensures o !in old(cache) ==>
        && getterCalls == old(getterCalls) + multiset{o}
        && cache == (if r.Ok? then old(cache)[o := r.value] else old(cache))
        && failures == (if r.Ok? then old(failures) else old(failures) + multiset{o})
        && dropped == old(dropped)
    {
      if o in cache {
        return Ok(cache[o]);
      }
      r := get(o);
      getterCalls := getterCalls + multiset{o};
      if r.Ok? {
        cache := cache[o := r.value];
      } else {
        failures := failures + multiset{o};
      }
    }

    /** `__set__`: the attribute is read-only; nothing changes. */
    method Assign(o: Owner, value: V) returns (r: Result<()>)
      ensures r == Err(AttributeError)
    {
      r := Err(AttributeError);
    }

    /** `__delitem__`: forget the cached value, so that the next read calls
        the getter again; KeyError when nothing is cached for the owner. */
    method Delete(o: Owner) returns (r: Result<()>)
      requires Valid()
      modifies this
      ensures Valid()
      ensures r == if o in old(cache) then Ok(()) else Err(KeyError)
      ensures cache == old(cache) - {o}
      ensures getterCalls == old(getterCalls) && failures == old(failures)
      ensures dropped == if o in old(cache) then old(dropped) + multiset{o} else old(dropped)
    {
      if o !in cache {
        return Err(KeyError);
      }
      cache := cache - {o};
      dropped := dropped + multiset{o};
      r := Ok(());
    }

    /** The owner is collected: the weak dictionary's callback removes its
        cached value. */
    method OwnerDied(o: Owner)
      requires Valid()
      modifies this
      ensures Valid()
      ensures cache == old(cache) - {o}
      ensures getterCalls == old(getterCalls) && failures == old(failures)
      ensures dropped == if o in old(cache) then old(dropped) + multiset{o} else old(dropped)
    {
      if o in cache {
        cache := cache - {o};
        dropped := dropped + multiset{o};
      }
    }
  }

  /** Reading a lazy attribute twice gives the same result, and when the
      first read succeeded the getter ran at most once over both reads. */
  method ReadTwice<Owner(==,!new), V>(d: LazyVal<Owner, V>, o: Owner) returns (first: Result<V>, second: Result<V>)
    requires d.Valid()
    modifies d
    ensures d.Valid()
    ensures first == second == d.get(o)
    ensures first.Ok? ==> d.getterCalls[o] <= old(d.getterCalls[o]) + 1
  {
    first := d.Read(o);
    second := d.Read(o);
  }

  type ClassId = nat

  /** How the attribute is reached: through an instance of a class or
      through the class itself. */
  datatype Access = OnInstance(instance: nat, cls: ClassId) | OnClass(cls: ClassId)

  /** `classlazyval`: a `lazyval` whose owner is always the class, so all
      instances of a class share one value and one getter call. */
  class ClassLazyVal<V> {
    const inner: LazyVal<ClassId, V>

    ghost predicate Valid()
      reads this, inner
    {
      inner.Valid()
    }

    constructor (get: ClassId -> Result<V>)
      ensures Valid() && fresh(inner)
      ensures inner.get == get && inner.cache == map[] && inner.getterCalls == multiset{}
    {
      inner := new LazyVal(get);
    }

    /** `__get__(instance, owner)`: delegates with the owner class in the
        place of the instance. */
    method Read(a: Access) returns (r: Result<V>)
      requires Valid()
      modifies inner
      ensures Valid()
      ensures r == inner.get(a.cls)
      ensures a.cls in old(inner.cache) ==>
        inner.cache == old(inner.cache) && inner.getterCalls == old(inner.getterCalls)
      ensures a.cls !in old(inner.cache) ==>
        && inner.getterCalls == old(inner.getterCalls) + multiset{a.cls}
        && inner.cache == (if r.Ok? then old(inner.cache)[a.cls := r.value] else old(inner.cache))
    {
      r := inner.Read(a.cls);
    }
  }

  /** Two instances of one class read the class attribute: once the first
      read succeeded, the second is served from the cache with the same
      value and the getter is not called again. */
  method SharedAcrossInstances<V>(d: ClassLazyVal<V>, i: nat, j: nat, cls: ClassId)
    returns (first: Result<V>, second: Result<V>)
    requires d.Valid()
    modifies d.inner
    ensures d.Valid()
    ensures first == second
    ensures first.Ok? ==> d.inner.getterCalls[cls] <= old(d.inner.getterCalls[cls]) + 1
  {
    first := d.Read(OnInstance(i, cls));
    second := d.Read(OnInstance(j, cls));
  }
}
