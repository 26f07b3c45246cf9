/** The composite cache key a memoizing wrapper builds from a call's
    arguments (zipline/utils/memoize.py, `wrapper` and `_WeakKey`). */
module CacheKeys {
  import opened Outcomes

  /** A call argument as the cache sees it. */
  datatype Arg =
    | Obj(id: nat)          // an object that can be weakly referenced; equal and hashed by identity
    | Val(v: int)           // a hashable value that cannot be weakly referenced (a number, a string, a tuple)
    | Unhashable(id: nat)   // an argument whose hash raises TypeError (a list, say)

  /** One element of a key: a positional argument, the per-wrapper marker,
      or one (name, value) keyword pair. */
  datatype KeyItem =
    | Pos(arg: Arg)
    | Mark(wrapper: nat)
    | Kw(name: string, arg: Arg)

  type Key = seq<KeyItem>

  /** Keyword arguments in the order the caller wrote them. */
  type Keywords = seq<(string, Arg)>

  datatype Call = Call(args: seq<Arg>, kwds: Keywords)

  /** Python compares keyword names as strings: lexicographically by code point. */
  predicate NameLess(a: string, b: string)
    decreases |a|
  {
    if a == [] then b != []
    else b != [] && (a[0] < b[0] || (a[0] == b[0] && NameLess(a[1..], b[1..])))
  }

  lemma {:induction false} NameLessIrreflexive(a: string)
    ensures !NameLess(a, a)
    decreases |a|
  {
    if a != [] {
      NameLessIrreflexive(a[1..]);
    }
  }

  lemma {:induction false} NameLessTransitive(a: string, b: string, c: string)
    requires NameLess(a, b) && NameLess(b, c)
    ensures NameLess(a, c)
    decreases |a|
  {
    if a != [] && a[0] == b[0] && b[0] == c[0] {
      NameLessTransitive(a[1..], b[1..], c[1..]);
    }
  }

  lemma {:induction false} NameLessTotal(a: string, b: string)
    requires a != b
    ensures NameLess(a, b) || NameLess(b, a)
    decreases |a|
  {
    if a != [] && b != [] && a[0] == b[0] {
      assert a == [a[0]] + a[1..] && b == [b[0]] + b[1..];
      NameLessTotal(a[1..], b[1..]);
    }
  }

  /** Python keyword names are distinct (`**kwds` is a dict). */
  predicate DistinctNames(kw: Keywords) {
    forall i, j :: 0 <= i < j < |kw| ==> kw[i].0 != kw[j].0
  }

  ghost predicate SortedByName(kw: Keywords) {
    forall i, j :: 0 <= i < j < |kw| ==> NameLess(kw[i].0, kw[j].0)
  }

  /** Insert one pair into a name-sorted sequence. */
  function Insert(p: (string, Arg), kw: Keywords): (r: Keywords)
    ensures multiset(r) == multiset(kw) + multiset{p}
    ensures |r| == |kw| + 1
  {
    if kw == [] || NameLess(p.0, kw[0].0) then [p] + kw
    else
      assert kw == [kw[0]] + kw[1..];
      [kw[0]] + Insert(p, kw[1..])
  }

  /** `sorted(kwds.items())`: keyword pairs ordered by name (names are
      distinct, so the values never take part in the comparison). */
  function SortByName(kw: Keywords): (r: Keywords)
    ensures multiset(r) == multiset(kw)
    ensures |r| == |kw|
  {
    if kw == [] then []
    else
      assert kw == [kw[0]] + kw[1..];
      Insert(kw[0], SortByName(kw[1..]))
  }

  lemma {:induction false} InsertSorted(p: (string, Arg), kw: Keywords)
    requires SortedByName(kw)
    requires forall i :: 0 <= i < |kw| ==> kw[i].0 != p.0
    ensures SortedByName(Insert(p, kw))
  {
    if kw == [] {
    } else if NameLess(p.0, kw[0].0) {
      forall j | 0 < j < |kw| ensures NameLess(p.0, kw[j].0) {
        NameLessTransitive(p.0, kw[0].0, kw[j].0);
      }
    } else {
      NameLessTotal(p.0, kw[0].0);
      var rest := Insert(p, kw[1..]);
      InsertSorted(p, kw[1..]);
      forall x | x in rest ensures NameLess(kw[0].0, x.0) {
        assert x in multiset(rest);
        if x != p {
          var j :| 0 <= j < |kw[1..]| && kw[1..][j] == x;
          assert kw[j + 1] == x;
        }
      }
      var r := [kw[0]] + rest;
      forall i, j | 0 <= i < j < |r| ensures NameLess(r[i].0, r[j].0) {
        if i == 0 {
          assert r[j] == rest[j - 1] && rest[j - 1] in rest;
        } else {
          assert r[i] == rest[i - 1] && r[j] == rest[j - 1];
        }
      }
    }
  }

  lemma {:induction false} SortByNameSorted(kw: Keywords)
    requires DistinctNames(kw)
    ensures SortedByName(SortByName(kw))
  {
    if kw != [] {
      var rest := SortByName(kw[1..]);
      SortByNameSorted(kw[1..]);
      forall i | 0 <= i < |rest| ensures rest[i].0 != kw[0].0 {
        assert rest[i] in multiset(kw[1..]);
        var j :| 0 <= j < |kw[1..]| && kw[1..][j] == rest[i];
        assert kw[j + 1] == rest[i];
      }
      InsertSorted(kw[0], rest);
    }
  }

  /** The first pair of a name-sorted sequence is fixed by its contents. */
  lemma SortedHeadsEqual(s: Keywords, t: Keywords)
    requires SortedByName(s) && SortedByName(t)
    requires multiset(s) == multiset(t) && s != []
    ensures t != [] && s[0] == t[0]
  {
    assert s[0] in multiset(s);
    assert t[0] in multiset(t);
    if s[0] != t[0] {
      var i :| 0 <= i < |s| && s[i] == t[0];
      var j :| 0 <= j < |t| && t[j] == s[0];
      assert NameLess(s[0].0, t[0].0) && NameLess(t[0].0, s[0].0);
      NameLessTransitive(s[0].0, t[0].0, s[0].0);
      NameLessIrreflexive(s[0].0);
    }
  }

  /** Two name-sorted sequences holding the same pairs are the same sequence. */
  lemma {:induction false} SortedUnique(s: Keywords, t: Keywords)
    requires SortedByName(s) && SortedByName(t)
    requires multiset(s) == multiset(t)
    ensures s == t
  {
    if s == [] {
      assert |multiset(t)| == 0;
    } else {
      SortedHeadsEqual(s, t);
      var x := s[0];
      assert s == [x] + s[1..] && t == [x] + t[1..];
      assert multiset(s[1..]) == multiset(s) - multiset{x};
      assert multiset(t[1..]) == multiset(t) - multiset{x};
      SortedUnique(s[1..], t[1..]);
    }
  }

  /** Calls that pass the same keyword arguments in a different order sort
      them to the same sequence (zipline/utils/memoize.py:126, :146). */
  lemma KeywordOrderIrrelevant(k1: Keywords, k2: Keywords)
    requires DistinctNames(k1) && DistinctNames(k2)
    requires multiset(k1) == multiset(k2)
    ensures SortByName(k1) == SortByName(k2)
  {
    SortByNameSorted(k1);
    SortByNameSorted(k2);
    SortedUnique(SortByName(k1), SortByName(k2));
  }

  function Positional(args: seq<Arg>): (k: Key)
    ensures |k| == |args|
    ensures forall i :: 0 <= i < |args| ==> k[i] == Pos(args[i])
  {
    seq(|args|, i requires 0 <= i < |args| => Pos(args[i]))
  }

  function KeywordItems(kw: Keywords): (k: Key)
    ensures |k| == |kw|
    ensures forall i :: 0 <= i < |kw| ==> k[i] == Kw(kw[i].0, kw[i].1)
  {
    seq(|kw|, i requires 0 <= i < |kw| => Kw(kw[i].0, kw[i].1))
  }

  /** `key = args; if kwds: key += kwd_mark + tuple(sorted(kwds.items()))`:
      the positional arguments, then, only when keywords were passed, the
      wrapper's marker followed by the keyword pairs in name order. */
  function MakeKey(marker: nat, c: Call): (k: Key)
    ensures c.kwds == [] ==> k == Positional(c.args)
    ensures c.kwds != [] ==> |k| == |c.args| + 1 + |c.kwds| && k[|c.args|] == Mark(marker)
    ensures forall i :: 0 <= i < |c.args| ==> k[i] == Pos(c.args[i])
  {
    Positional(c.args) + (if c.kwds == [] then [] else [Mark(marker)] + KeywordItems(SortByName(c.kwds)))
  }

  /** The positional arguments of a call can be read back from its key. */
  lemma {:induction false} KeyDeterminesPositional(marker: nat, c1: Call, c2: Call)
    requires MakeKey(marker, c1) == MakeKey(marker, c2)
    ensures c1.args == c2.args
    ensures c1.kwds == [] <==> c2.kwds == []
  {
    var k := MakeKey(marker, c1);
    var n1, n2 := |c1.args|, |c2.args|;
    assert n1 == n2;
    forall i | 0 <= i < n1 ensures c1.args[i] == c2.args[i] {
      assert Pos(c1.args[i]) == k[i] == Pos(c2.args[i]);
    }
  }

  /** The sorted keyword pairs of a call can be read back from its key. */
  lemma {:induction false} KeyDeterminesKeywords(marker: nat, c1: Call, c2: Call)
    requires MakeKey(marker, c1) == MakeKey(marker, c2)
    requires c1.args == c2.args && c1.kwds != [] && c2.kwds != []
    ensures SortByName(c1.kwds) == SortByName(c2.kwds)
  {
    var n := |c1.args| + 1;
    var s1, s2 := SortByName(c1.kwds), SortByName(c2.kwds);
    var k1, k2 := MakeKey(marker, c1), MakeKey(marker, c2);
    assert k1[n..] == KeywordItems(s1);
    assert k2[n..] == KeywordItems(s2);
    assert |s1| == |s2|;
    forall i | 0 <= i < |s1| ensures s1[i] == s2[i] {
      assert KeywordItems(s1)[i] == KeywordItems(s2)[i];
    }
  }

  /** Two calls share one cache entry exactly when they pass the same
      positional arguments and the same keyword arguments, in any order; the
      marker keeps a keyword call apart from every positional-only call. */
  lemma {:induction false} SameKeyIffSameArguments(marker: nat, c1: Call, c2: Call)
    requires DistinctNames(c1.kwds) && DistinctNames(c2.kwds)
    ensures MakeKey(marker, c1) == MakeKey(marker, c2)
        <==> c1.args == c2.args && multiset(c1.kwds) == multiset(c2.kwds)
  {
    if MakeKey(marker, c1) == MakeKey(marker, c2) {
      KeyDeterminesPositional(marker, c1, c2);
      if c1.kwds != [] {
        KeyDeterminesKeywords(marker, c1, c2);
      }
    } else if c1.args == c2.args && multiset(c1.kwds) == multiset(c2.kwds) {
      KeywordOrderIrrelevant(c1.kwds, c2.kwds);
      assert false;
    }
  }

  predicate ArgHashable(a: Arg) {
    !a.Unhashable?
  }

  predicate ItemHashable(x: KeyItem) {
    match x
    case Pos(a) => ArgHashable(a)
    case Mark(_) => true
    case Kw(_, a) => ArgHashable(a)
  }

  /** Hashing a key hashes every element; an unhashable argument, positional
      or inside a keyword pair, makes it raise TypeError. */
  predicate Hashable(k: Key) {
    forall i :: 0 <= i < |k| ==> ItemHashable(k[i])
  }

  /** The key holds a weak reference to object `o`: only positional objects
      are weakly referenced; the marker (a plain `object()`) and the keyword
      pairs (tuples) cannot be and are held as they are. */
  predicate Mentions(k: Key, o: nat) {
    Pos(Obj(o)) in k
  }

  function StringHash(s: string): int {
    if s == [] then 0 else StringHash(s[..|s| - 1]) * 31 + (s[|s| - 1] as int)
  }

  function ArgHash(a: Arg): int
    requires ArgHashable(a)
  {
    match a
    case Obj(id) => id
    case Val(v) => v
  }

  function ItemHash(x: KeyItem): int
    requires ItemHashable(x)
  {
    match x
    case Pos(a) => ArgHash(a)
    case Mark(m) => m
    case Kw(name, a) => StringHash(name) * 1000003 + ArgHash(a)
  }

  /** `hash(tuple(self))`: a deterministic combination of the element hashes
      (a stand-in for CPython's tuple hash). */
  function TupleHash(k: Key): int
    requires Hashable(k)
  {
    if k == [] then 0x345678 else TupleHash(k[..|k| - 1]) * 1000003 + ItemHash(k[|k| - 1])
  }

  /** None of the objects the key refers to weakly has died. */
  predicate AllAlive(k: Key, dead: set<nat>) {
    forall o :: o in dead ==> !Mentions(k, o)
  }

  /** `_WeakKey`: the elements of a key, wrapped for weak observation where
      possible, with a hash that is computed on first use and then kept. A
      weak reference hashes like its referent while that lives and raises
      TypeError once it has died; the kept hash is what lets the dictionary
      still find, and remove, a key whose referent has died. */
  class WeakKey {
    const items: Key
    /** Objects referred to weakly whose referents have died. */
    var dead: set<nat>
    var hashCache: Option<int>
    /** How many times `hash(tuple(self))` has been evaluated. */
    ghost var hashComputations: nat

    ghost predicate Valid()
      reads this
    {
      hashCache.Some? ==> Hashable(items) && hashCache.value == TupleHash(items)
    }

    constructor (items: Key)
      ensures Valid()
      ensures this.items == items && dead == {} && hashCache == None && hashComputations == 0
    {
      this.items := items;
      dead := {};
      hashCache := None;
      hashComputations := 0;
    }

    /** `__hash__`: return the kept hash, or compute it once and keep it. A
        key with an unhashable element, or one whose referent has died
        before it was ever hashed, raises TypeError and keeps nothing. */
    method Hash() returns (r: Result<int>)
      requires Valid()
      modifies this
      ensures Valid() && dead == old(dead)
      ensures old(hashCache).Some? ==>
        r == Ok(old(hashCache).value) && hashCache == old(hashCache) && hashComputations == old(hashComputations)
      ensures old(hashCache).None? ==>
        && hashComputations == old(hashComputations) + 1
        && r == (if Hashable(items) && AllAlive(items, dead) then Ok(TupleHash(items)) else Err(TypeError))
        && hashCache == (if r.Ok? then Some(r.value) else None)
    {
      if hashCache.Some? {
        return Ok(hashCache.value);
      }
      hashComputations := hashComputations + 1;
      if !Hashable(items) || !AllAlive(items, dead) {
        return Err(TypeError);
      }
      var h := TupleHash(items);
      hashCache := Some(h);
      r := Ok(h);
    }

    /** Object `o` is reclaimed; the key's reference to it is now dead. */
    method ReferentDied(o: nat)
      requires Valid()
      modifies this
      ensures Valid()
      ensures dead == old(dead) + {o} && hashCache == old(hashCache)
      ensures hashComputations == old(hashComputations)
    {
      dead := dead + {o};
    }
  }

  /** A key hashed while its referents lived hashes to the same value after
      one of them died: the second hash is the kept one. */
  method HashSurvivesReferentDeath(items: Key, o: nat) returns (before: Result<int>, after: Result<int>)
    ensures before == if Hashable(items) then Ok(TupleHash(items)) else Err(TypeError)
    ensures after == before
  {
    var k := new WeakKey(items);
    before := k.Hash();
    k.ReferentDied(o);
    after := k.Hash();
  }

  /** Without the kept hash, a key whose referent has died cannot be hashed
      and so cannot be found to be removed. */
  method UnhashedKeyLostAfterDeath(items: Key, o: nat) returns (r: Result<int>)
    requires Mentions(items, o)
    ensures r == Err(TypeError)
  {
    var k := new WeakKey(items);
    k.ReferentDied(o);
    r := k.Hash();
  }
}
