/** The structural-equality assertion of zipline/testing/predicates.py:
    `assert_equal` on plain values, dictionaries and lists, reporting where
    two values differ as a path of `[key]` and `[n]` pieces. A raised
    AssertionError is a `Fail` verdict carrying one record per message line
    group; a TypeError raised while building a message is `TypeErrorRaised`. */
module Predicates {
  import opened Outcomes

  type Path = seq<string>

  /** Dictionary keys: strings and integers. */
  datatype DictKey = StrKey(s: string) | IntKey(i: int)

  /** A value under comparison. `Leaf` holds anything compared with `==`;
      a dictionary lists its entries in insertion order. */
  datatype Value<A> =
    | Leaf(atom: A)
    | Dict(entries: seq<(DictKey, Value<A>)>)
    | List(items: seq<Value<A>>)

  /** What one AssertionError message reports. Key-mismatch records carry
      the pluralised noun (`key` or `keys`) the message starts with. */
  datatype Failure<A> =
    | NotEqual(result: Value<A>, expected: Value<A>, path: Path)
    | ExtraKeys(noun: string, extra: set<DictKey>, path: Path)
    | MissingKeys(noun: string, missing: set<DictKey>, path: Path)
    | KeysOnBothSides(nounResult: string, onlyResult: set<DictKey>,
                      nounExpected: string, onlyExpected: set<DictKey>, path: Path)
    | LengthMismatch(resultLen: nat, expectedLen: nat, path: Path)

  datatype Verdict<A> = Pass | Fail(failures: seq<Failure<A>>) | TypeErrorRaised

  /** `AsWritten` follows the list-length message as the source spells it;
      `Intended` formats it as its text evidently means. */
  datatype Mode = AsWritten | Intended

  // ---------------------------------------------------------------------
  // Message pieces

  /** `_s(word, seq, suffix)`: the suffix is added exactly when the
      collection does not have one element. */
  function S(word: string, count: nat, suffix: string): (r: string)
    requires suffix != []
    ensures word <= r
    ensures count == 1 <==> r == word
    ensures count != 1 ==> r[|word|..] == suffix
  {
    word + (if count != 1 then suffix else "")
  }

  function Concat(pieces: seq<string>): (r: string)
    ensures pieces != [] ==> pieces[0] <= r
  {
    if pieces == [] then "" else pieces[0] + Concat(pieces[1..])
  }

  lemma {:induction false} ConcatAppend(pieces: seq<string>, p: string)
    ensures Concat(pieces + [p]) == Concat(pieces) + p
  {
    if pieces == [] {
      assert [p][1..] == [];
    } else {
      assert (pieces + [p])[1..] == pieces[1..] + [p];
      ConcatAppend(pieces[1..], p);
    }
  }

  const PathPrefix := "path: _"

  /** `_fmt_path`: nothing for the empty path, otherwise `path: _` and the
      pieces in order. */
  function FmtPath(path: Path): (r: string)
    ensures path == [] <==> r == ""
    ensures path != [] ==> PathPrefix <= r
  {
    if path == [] then "" else PathPrefix + Concat(path)
  }

  /** Extending a non-empty path appends the new piece to its rendering,
      so a nested failure's location reads as its parent's followed by the
      step into the child. */
  lemma FmtPathExtend(path: Path, piece: string)
    requires path != []
    ensures FmtPath(path + [piece]) == FmtPath(path) + piece
  {
    ConcatAppend(path, piece);
  }

  function DigitChar(d: nat): char
    requires d < 10
  {
    "0123456789"[d]
  }

  /** `'%d' % n` for a natural number. */
  function Decimal(n: nat): (r: string)
    ensures r != [] && (n < 10 <==> |r| == 1)
    ensures forall c :: c in r ==> '0' <= c <= '9'
    decreases n
  {
    if n < 10 then [DigitChar(n)] else Decimal(n / 10) + [DigitChar(n % 10)]
  }

  lemma DigitCharInjective(a: nat, b: nat)
    requires a < 10 && b < 10 && DigitChar(a) == DigitChar(b)
    ensures a == b
  {
  }

  /** Different numbers print differently. */
  lemma {:induction false} DecimalInjective(a: nat, b: nat)
    requires Decimal(a) == Decimal(b)
    ensures a == b
    decreases a
  {
    var da, db := Decimal(a), Decimal(b);
    if a < 10 {
      DigitCharInjective(a, b);
    } else {
      assert da[|da| - 1] == DigitChar(a % 10) && db[|db| - 1] == DigitChar(b % 10);
      DigitCharInjective(a % 10, b % 10);
      assert da[..|da| - 1] == Decimal(a / 10) && db[..|db| - 1] == Decimal(b / 10);
      DecimalInjective(a / 10, b / 10);
    }
  }

  /** `repr` of a key: a string in quotes, an integer in decimal. String
      escapes are not modelled. */
  function KeyRepr(k: DictKey): string
  {
    match k
    case StrKey(s) => "'" + s + "'"
    case IntKey(i) => if i < 0 then "-" + Decimal(-i) else Decimal(i)
  }

  /** `'[%r]' % k` */
  function KeyPiece(k: DictKey): string
  {
    "[" + KeyRepr(k) + "]"
  }

  /** `'[%d]' % n` */
  function IndexPiece(n: nat): string
  {
    "[" + Decimal(n) + "]"
  }

  /** `'.%s()' % 'keys'` */
  const KeysPiece := ".keys()"

  /** The path pieces of two different keys differ, so every failure is
      reported under a location that names its own key. */
  lemma KeyPieceInjective(k1: DictKey, k2: DictKey)
    requires KeyPiece(k1) == KeyPiece(k2)
    ensures k1 == k2
  {
    QuoteMarksStrings(k1);
    QuoteMarksStrings(k2);
    if k1.StrKey? && k2.StrKey? {
      var p1, p2 := KeyPiece(k1), KeyPiece(k2);
      assert k1.s == p1[2..|p1| - 2] && k2.s == p2[2..|p2| - 2];
    } else if k1.IntKey? && k2.IntKey? {
      IntReprInjective(k1.i, k2.i, KeyPiece(k1), KeyPiece(k2));
    }
  }

  /** A key's piece opens with a quote after the bracket exactly when the
      key is a string. */
  lemma QuoteMarksStrings(k: DictKey)
    ensures |KeyPiece(k)| > 1 && (KeyPiece(k)[1] == '\'' <==> k.StrKey?)
  {
    if k.IntKey? {
      var n: nat := if k.i < 0 then -k.i else k.i;
      assert KeyPiece(k)[1] == '-' || KeyPiece(k)[1] in Decimal(n);
    }
  }

  lemma IntReprInjective(i1: int, i2: int, p1: string, p2: string)
    requires p1 == KeyPiece(IntKey(i1)) && p2 == KeyPiece(IntKey(i2)) && p1 == p2
    ensures i1 == i2
  {
    var r1, r2 := KeyRepr(IntKey(i1)), KeyRepr(IntKey(i2));
    assert r1 == p1[1..|p1| - 1] && r2 == p2[1..|p2| - 1];
    var n1: nat := if i1 < 0 then -i1 else i1;
    var n2: nat := if i2 < 0 then -i2 else i2;
    assert r1[0] == '-' <==> i1 < 0 by { assert r1[0] in Decimal(n1) || i1 < 0; }
    assert r2[0] == '-' <==> i2 < 0 by { assert r2[0] in Decimal(n2) || i2 < 0; }
    if i1 < 0 {
      assert r1[1..] == Decimal(n1) && r2[1..] == Decimal(n2);
    }
    DecimalInjective(n1, n2);
  }

  /** A dictionary key as the path piece `'[%r]' % k` sees it: a plain
      key, or a tuple of plain keys. The comparison below takes its keys
      from `DictKey` alone; this type covers the formatting of the piece. */
  datatype PieceKey = Plain(key: DictKey) | Tuple(elems: seq<DictKey>)

  /** `'[%r]' % k` as written: `%` takes a tuple on its right as its
      argument list, so a tuple key is spread over the single `%r`. A tuple
      of other than one element raises TypeError; a one-element tuple
      renders as its element. */
  function KeyPieceAsWritten(k: PieceKey): (r: Result<string>)
  {
    match k
    case Plain(key) => Ok(KeyPiece(key))
    case Tuple(elems) => if |elems| == 1 then Ok(KeyPiece(elems[0])) else Err(TypeError)
  }

  /** The reprs of the elements, separated by `, `. */
  function JoinReprs(elems: seq<DictKey>): string
  {
    if elems == [] then ""
    else if |elems| == 1 then KeyRepr(elems[0])
    else KeyRepr(elems[0]) + ", " + JoinReprs(elems[1..])
  }

  /** `repr` of a tuple: a one-element tuple keeps its trailing comma. */
  function TupleRepr(elems: seq<DictKey>): (r: string)
    ensures |r| >= 2 && r[0] == '('
  {
    "(" + JoinReprs(elems) + (if |elems| == 1 then "," else "") + ")"
  }

  /** `'[%r]' % (k,)`: the key itself is the one argument, so every key
      renders as its own repr. */
  function KeyPieceIntended(k: PieceKey): (r: Result<string>)
    ensures r.Ok? && |r.value| >= 2 && r.value[0] == '['
  {
    match k
    case Plain(key) => Ok(KeyPiece(key))
    case Tuple(elems) => Ok("[" + TupleRepr(elems) + "]")
  }

  /** As written, a tuple key of other than one element cannot be rendered
      and raises TypeError, even when its two values are equal; a
      one-element tuple key gets the same piece as its element. */
  lemma TupleKeyPieceAsWritten(elems: seq<DictKey>, k: DictKey)
    ensures |elems| != 1 ==> KeyPieceAsWritten(Tuple(elems)) == Err(TypeError)
    ensures KeyPieceAsWritten(Tuple([k])) == KeyPieceAsWritten(Plain(k))
  {
  }

  /** Formatted as intended, a piece never raises, a plain key gets the
      piece the comparison uses (the same as written), and no tuple key's
      piece equals a plain key's piece. */
  lemma KeyPieceIntendedSound(key: PieceKey, a: DictKey, t: seq<DictKey>)
    ensures KeyPieceIntended(key).Ok?
    ensures KeyPieceIntended(Plain(a)) == KeyPieceAsWritten(Plain(a)) == Ok(KeyPiece(a))
    ensures KeyPieceIntended(Plain(a)) != KeyPieceIntended(Tuple(t))
  {
    QuoteMarksStrings(a);
    var p := KeyPiece(a);
    if a.IntKey? {
      var n: nat := if a.i < 0 then -a.i else a.i;
      assert p[1] == '-' || p[1] in Decimal(n);
    }
    assert p[1] != '(';
    assert KeyPieceIntended(Tuple(t)).value[1] == '(';
  }

  // ---------------------------------------------------------------------
  // Dictionary keys

  /** `viewkeys(d)` */
  function Keys<A>(entries: seq<(DictKey, Value<A>)>): (r: set<DictKey>)
    ensures forall k :: k in r <==> exists i :: 0 <= i < |entries| && entries[i].0 == k
  {
    set i | 0 <= i < |entries| :: entries[i].0
  }

  /** `d[k]`: the value stored under `k` (its first entry). */
  function LookupEntry<A>(entries: seq<(DictKey, Value<A>)>, k: DictKey): (r: Value<A>)
    requires k in Keys(entries)
    ensures (k, r) in entries
  {
    if entries[0].0 == k then entries[0].1
    else
      assert k in Keys(entries[1..]) by {
        var i :| 0 <= i < |entries| && entries[i].0 == k;
        assert entries[1..][i - 1].0 == k;
      }
      LookupEntry(entries[1..], k)
  }

  /** The key-mismatch message of `assert_dict_equal`, for two different
      key sets, located at `path + ('.keys()',)`. */
  function KeyMismatch<A>(rk: set<DictKey>, ek: set<DictKey>, path: Path): (f: Failure<A>)
    requires rk != ek
    ensures f.path == path + [KeysPiece]
    ensures f.ExtraKeys? <==> rk > ek
    ensures f.MissingKeys? <==> rk < ek
    ensures f.KeysOnBothSides? <==> !(rk > ek) && !(rk < ek)
    ensures f.ExtraKeys? ==> f.extra == rk - ek && f.extra != {} && f.noun == S("key", |f.extra|, "s")
    ensures f.MissingKeys? ==> f.missing == ek - rk && f.missing != {} && f.noun == S("key", |f.missing|, "s")
    ensures f.KeysOnBothSides? ==>
      && f.onlyResult * f.onlyExpected == {}
      && f.onlyResult + f.onlyExpected == (rk - ek) + (ek - rk)
      && f.onlyResult != {} && f.onlyExpected != {}
      && f.onlyResult <= rk && f.onlyExpected <= ek
      && f.nounResult == S("key", |f.onlyResult|, "s")
      && f.nounExpected == S("key", |f.onlyExpected|, "s")
  {
    var p := path + [KeysPiece];
    if rk > ek then
      var diff := rk - ek;
      ExtraKeys(S("key", |diff|, "s"), diff, p)
    else if rk < ek then
      var diff := ek - rk;
      MissingKeys(S("key", |diff|, "s"), diff, p)
    else
      var sym := (rk - ek) + (ek - rk);
      var inResult := sym - ek;
      var inExpected := sym - rk;
      assert inResult != {};
      assert inExpected != {};
      KeysOnBothSides(S("key", |inResult|, "s"), inResult, S("key", |inExpected|, "s"), inExpected, p)
  }

  // ---------------------------------------------------------------------
  // The comparison

  /** The failures all lie at or below `path`. */
  ghost predicate AllUnder<A>(failures: seq<Failure<A>>, path: Path)
  {
    forall i :: 0 <= i < |failures| ==> path <= failures[i].path
  }

  /** `assert_equal(result, expected, path)`, dispatched on the kinds of
      both values: two dictionaries, two lists, or anything else compared
      with `==`. */
  function Compare<A(==)>(r: Value<A>, e: Value<A>, path: Path, mode: Mode): (v: Verdict<A>)
    ensures v.Fail? ==> v.failures != [] && AllUnder(v.failures, path)
    ensures mode == Intended ==> !v.TypeErrorRaised?
    decreases r, 2
  {
    if r.Dict? && e.Dict? then CompareDicts(r, e, path, mode)
    else if r.List? && e.List? then CompareLists(r, e, path, mode)
    else if r == e then Pass
    else Fail([NotEqual(r, e, path)])
  }

  /** `assert_dict_equal`: different key sets give one key-mismatch
      failure; otherwise every entry is compared and all failures are
      collected. */
  function CompareDicts<A(==)>(r: Value<A>, e: Value<A>, path: Path, mode: Mode): (v: Verdict<A>)
    requires r.Dict? && e.Dict?
    ensures v.Fail? ==> v.failures != [] && AllUnder(v.failures, path)
    ensures mode == Intended ==> !v.TypeErrorRaised?
    decreases r, 1
  {
    var rk, ek := Keys(r.entries), Keys(e.entries);
    if rk != ek then
      var f := KeyMismatch(rk, ek, path);
      assert path <= f.path;
      Fail([f])
    else CollectEntries(r, e, path, mode, 0, [])
  }

  /** The loop of `assert_dict_equal` from entry `i` on, with `acc` the
      failures collected so far. An AssertionError of an entry is
      collected; a TypeError escapes `except AssertionError` and ends the
      whole comparison. */
  function CollectEntries<A(==)>(r: Value<A>, e: Value<A>, path: Path, mode: Mode, i: nat,
                                 acc: seq<Failure<A>>): (v: Verdict<A>)
    requires r.Dict? && e.Dict? && Keys(r.entries) <= Keys(e.entries) && i <= |r.entries|
    ensures AllUnder(acc, path) && v.Fail? ==> v.failures != [] && AllUnder(v.failures, path)
    ensures acc != [] ==> v != Pass
    ensures mode == Intended ==> !v.TypeErrorRaised?
    decreases r, 0, |r.entries| - i
  {
    if i == |r.entries| then
      if acc == [] then Pass else Fail(acc)
    else
      var (k, rv) := r.entries[i];
      assert k in Keys(r.entries);
      var child := path + [KeyPiece(k)];
      match Compare(rv, LookupEntry(e.entries, k), child, mode)
      case Pass => CollectEntries(r, e, path, mode, i + 1, acc)
      case Fail(fs) =>
        assert AllUnder(fs, path) by {
          forall j | 0 <= j < |fs| ensures path <= fs[j].path {
            assert child <= fs[j].path;
          }
        }
        CollectEntries(r, e, path, mode, i + 1, acc + fs)
      case TypeErrorRaised => TypeErrorRaised
  }

  /** `assert_list_equal`: a length mismatch, then the elements in index
      order up to the first failure, which propagates. As written, the
      length message raises TypeError instead of AssertionError. */
  function CompareLists<A(==)>(r: Value<A>, e: Value<A>, path: Path, mode: Mode): (v: Verdict<A>)
    requires r.List? && e.List?
    ensures v.Fail? ==> v.failures != [] && AllUnder(v.failures, path)
    ensures mode == Intended ==> !v.TypeErrorRaised?
    ensures |r.items| != |e.items| ==>
      v == if mode == AsWritten then TypeErrorRaised
           else Fail([LengthMismatch(|r.items|, |e.items|, path)])
    decreases r, 1
  {
    if |r.items| != |e.items| then
      if mode == AsWritten then TypeErrorRaised
      else Fail([LengthMismatch(|r.items|, |e.items|, path)])
    else CompareItems(r, e, path, mode, 0)
  }

  /** The loop of `assert_list_equal` from index `n` on. */
  function CompareItems<A(==)>(r: Value<A>, e: Value<A>, path: Path, mode: Mode, n: nat): (v: Verdict<A>)
    requires r.List? && e.List? && |r.items| == |e.items| && n <= |r.items|
    ensures v.Fail? ==> v.failures != [] && AllUnder(v.failures, path)
    ensures mode == Intended ==> !v.TypeErrorRaised?
    decreases r, 0, |r.items| - n
  {
    if n == |r.items| then Pass
    else
      var child := path + [IndexPiece(n)];
      var v := Compare(r.items[n], e.items[n], child, mode);
      if v.Pass? then CompareItems(r, e, path, mode, n + 1)
      else
        assert v.Fail? ==> AllUnder(v.failures, path) by {
          if v.Fail? {
            forall j | 0 <= j < |v.failures| ensures path <= v.failures[j].path {
              assert child <= v.failures[j].path;
            }
          }
        }
        v
  }

  /** `assert_equal(result, expected, path=None)` at the top level: a
      dictionary comparison treats `None` as the empty path and `_fmt_path`
      renders it as nothing, but a list comparison with elements computes
      `None + ('[0]',)`, which raises TypeError. */
  function CompareFrom<A(==)>(r: Value<A>, e: Value<A>, path: Option<Path>, mode: Mode): (v: Verdict<A>)
    ensures path.Some? ==> v == Compare(r, e, path.value, mode)
    ensures path.None? && !(r.List? && e.List?) ==> v == Compare(r, e, [], mode)
    ensures path.None? && r.List? && e.List? && |r.items| == |e.items| ==>
      v == if |r.items| == 0 then Pass else TypeErrorRaised
  {
    match path
    case Some(p) => Compare(r, e, p, mode)
    case None =>
      if r.List? && e.List? && |r.items| == |e.items| then
        if |r.items| == 0 then Pass else TypeErrorRaised
      else Compare(r, e, [], mode)
  }

  // ---------------------------------------------------------------------
  // Reference equality and the properties of the comparison

  /** Every dictionary inside the value has distinct keys, as Python
      dictionaries do. */
  ghost predicate WellFormed<A>(v: Value<A>)
    decreases v
  {
    match v
    case Leaf(_) => true
    case Dict(entries) =>
      && (forall i, j :: 0 <= i < j < |entries| ==> entries[i].0 != entries[j].0)
      && (forall i :: 0 <= i < |entries| ==> WellFormed(entries[i].1))
    case List(items) => forall i :: 0 <= i < |items| ==> WellFormed(items[i])
  }

  /** Python's `==` on these values: dictionaries are equal when they have
      the same keys and equal values under each key, in whatever order;
      lists when they have the same length and equal elements position by
      position; anything else by `==` on the leaves. */
  ghost predicate PyEq<A>(r: Value<A>, e: Value<A>)
    decreases r
  {
    match (r, e)
    case (Leaf(a), Leaf(b)) => a == b
    case (Dict(rs), Dict(es)) =>
      && Keys(rs) == Keys(es)
      && forall k :: k in Keys(rs) ==> PyEq(LookupEntry(rs, k), LookupEntry(es, k))
    case (List(rs), List(es)) =>
      |rs| == |es| && forall i :: 0 <= i < |rs| ==> PyEq(rs[i], es[i])
    case _ => false
  }

  lemma LookupWellFormed<A>(entries: seq<(DictKey, Value<A>)>, i: nat)
    requires i < |entries|
    requires forall a, b :: 0 <= a < b < |entries| ==> entries[a].0 != entries[b].0
    ensures entries[i].0 in Keys(entries) && LookupEntry(entries, entries[i].0) == entries[i].1
  {
    var k := entries[i].0;
    assert k in Keys(entries);
    var j :| 0 <= j < |entries| && entries[j] == (k, LookupEntry(entries, k));
  }

  /** The verdict on entry `j` of the result dictionary: its value
      compared with the expected value under the same key, at the key's
      path. */
  function EntryVerdict<A(==)>(r: Value<A>, e: Value<A>, path: Path, mode: Mode, j: nat): Verdict<A>
    requires r.Dict? && e.Dict? && Keys(r.entries) <= Keys(e.entries) && j < |r.entries|
  {
    assert r.entries[j].0 in Keys(r.entries);
    Compare(r.entries[j].1, LookupEntry(e.entries, r.entries[j].0), path + [KeyPiece(r.entries[j].0)], mode)
  }

  /** One round of the dictionary loop: a TypeError from entry `i` ends
      it; otherwise the loop goes on with the entry's failures added. */
  lemma CollectStep<A>(r: Value<A>, e: Value<A>, path: Path, mode: Mode, i: nat, acc: seq<Failure<A>>)
    requires r.Dict? && e.Dict? && Keys(r.entries) <= Keys(e.entries) && i < |r.entries|
    ensures var sub := EntryVerdict(r, e, path, mode, i);
      && (sub.TypeErrorRaised? ==> CollectEntries(r, e, path, mode, i, acc) == TypeErrorRaised)
      && (!sub.TypeErrorRaised? ==>
            CollectEntries(r, e, path, mode, i, acc) ==
            CollectEntries(r, e, path, mode, i + 1, if sub.Fail? then acc + sub.failures else acc))
  {
    assert r.entries[i].0 in Keys(r.entries);
  }

  /** The verdicts of all entries of the result dictionary, in its order. */
  function EntryVerdicts<A(==)>(r: Value<A>, e: Value<A>, path: Path, mode: Mode): (vs: seq<Verdict<A>>)
    requires r.Dict? && e.Dict? && Keys(r.entries) <= Keys(e.entries)
    ensures |vs| == |r.entries|
    ensures forall j :: 0 <= j < |vs| ==> vs[j] == EntryVerdict(r, e, path, mode, j)
  {
    seq(|r.entries|, j requires 0 <= j < |r.entries| => EntryVerdict(r, e, path, mode, j))
  }

  /** The dictionary loop over verdicts already known: failures are
      collected in order, a TypeError ends it. */
  function Gather<A>(subs: seq<Verdict<A>>, acc: seq<Failure<A>>): Verdict<A>
  {
    if subs == [] then (if acc == [] then Pass else Fail(acc))
    else match subs[0]
      case Pass => Gather(subs[1..], acc)
      case Fail(fs) => Gather(subs[1..], acc + fs)
      case TypeErrorRaised => TypeErrorRaised
  }

  /** `CollectEntries` is the gathering of the entries' verdicts. */
  lemma {:induction false} CollectAsGather<A>(r: Value<A>, e: Value<A>, path: Path, mode: Mode,
                                              i: nat, acc: seq<Failure<A>>)
    requires r.Dict? && e.Dict? && Keys(r.entries) <= Keys(e.entries) && i <= |r.entries|
    ensures CollectEntries(r, e, path, mode, i, acc) == Gather(EntryVerdicts(r, e, path, mode)[i..], acc)
    decreases |r.entries| - i
  {
    var vs := EntryVerdicts(r, e, path, mode);
    if i < |r.entries| {
      CollectStep(r, e, path, mode, i, acc);
      assert vs[i..][0] == vs[i] && vs[i..][1..] == vs[i + 1..];
      var sub := vs[i];
      if !sub.TypeErrorRaised? {
        CollectAsGather(r, e, path, mode, i + 1, if sub.Fail? then acc + sub.failures else acc);
      }
    }
  }

  /** The failures of all the verdicts, in order. */
  ghost function Flatten<A>(subs: seq<Verdict<A>>): seq<Failure<A>>
  {
    if subs == [] then [] else (if subs[0].Fail? then subs[0].failures else []) + Flatten(subs[1..])
  }

  /** Some verdict is a TypeError. */
  ghost predicate SomeTypeError<A>(subs: seq<Verdict<A>>)
  {
    exists j :: 0 <= j < |subs| && subs[j].TypeErrorRaised?
  }

  lemma SomeTypeErrorTail<A>(subs: seq<Verdict<A>>)
    requires subs != [] && !subs[0].TypeErrorRaised?
    ensures SomeTypeError(subs) <==> SomeTypeError(subs[1..])
  {
    if SomeTypeError(subs) {
      var j :| 0 <= j < |subs| && subs[j].TypeErrorRaised?;
      assert subs[1..][j - 1] == subs[j];
    }
    if SomeTypeError(subs[1..]) {
      var j :| 0 <= j < |subs[1..]| && subs[1..][j].TypeErrorRaised?;
      assert subs[j + 1] == subs[1..][j];
    }
  }

  /** Gathering raises TypeError exactly when some verdict is TypeError;
      otherwise it reports what was collected followed by the failures of
      every verdict, in order. */
  lemma {:induction false} GatherIsConcatenation<A>(subs: seq<Verdict<A>>, acc: seq<Failure<A>>)
    ensures Gather(subs, acc) ==
      if SomeTypeError(subs) then TypeErrorRaised
      else if acc + Flatten(subs) == [] then Pass
      else Fail(acc + Flatten(subs))
  {
    if subs == [] {
      assert acc + [] == acc;
    } else if subs[0].TypeErrorRaised? {
      assert SomeTypeError(subs) by { assert subs[0].TypeErrorRaised?; }
    } else {
      var fs := if subs[0].Fail? then subs[0].failures else [];
      assert acc + [] == acc;
      GatherIsConcatenation(subs[1..], acc + fs);
      assert (acc + fs) + Flatten(subs[1..]) == acc + Flatten(subs);
      SomeTypeErrorTail(subs);
    }
  }

  /** When no verdict is an empty failure, gathering passes exactly when
      nothing was collected and every verdict passes. */
  lemma {:induction false} GatherPassIff<A>(subs: seq<Verdict<A>>, acc: seq<Failure<A>>)
    requires forall j :: 0 <= j < |subs| && subs[j].Fail? ==> subs[j].failures != []
    ensures Gather(subs, acc) == Pass <==> acc == [] && forall j :: 0 <= j < |subs| ==> subs[j].Pass?
  {
    if subs != [] {
      assert forall j :: 0 < j < |subs| ==> subs[j] == subs[1..][j - 1];
      match subs[0]
      case Pass =>
        GatherPassIff(subs[1..], acc);
      case Fail(fs) =>
        GatherPassIff(subs[1..], acc + fs);
        assert !subs[0].Pass?;
      case TypeErrorRaised =>
        assert !subs[0].Pass?;
    }
  }

  /** Every failure of verdict `j` is among the flattened failures. */
  lemma {:induction false} FlattenIncludes<A>(subs: seq<Verdict<A>>, j: nat, f: Failure<A>)
    requires j < |subs| && subs[j].Fail? && f in subs[j].failures
    ensures f in Flatten(subs)
  {
    if j > 0 {
      assert subs[1..][j - 1] == subs[j];
      FlattenIncludes(subs[1..], j - 1, f);
    }
  }

  /** Every flattened failure is a failure of one of the verdicts. */
  lemma {:induction false} FlattenFrom<A>(subs: seq<Verdict<A>>, f: Failure<A>)
    requires f in Flatten(subs)
    ensures exists j :: 0 <= j < |subs| && subs[j].Fail? && f in subs[j].failures
  {
    if !(subs[0].Fail? && f in subs[0].failures) {
      FlattenFrom(subs[1..], f);
      var j :| 0 <= j < |subs[1..]| && subs[1..][j].Fail? && f in subs[1..][j].failures;
      assert subs[j + 1] == subs[1..][j];
    }
  }

  /** Entry `j` of a well-formed result holds the value stored under its
      key, so it passes exactly when the two dictionaries agree on that
      key. */
  lemma EntryPassIffEqual<A>(r: Value<A>, e: Value<A>, path: Path, mode: Mode, j: nat)
    requires WellFormed(r) && r.Dict? && e.Dict? && Keys(r.entries) <= Keys(e.entries) && j < |r.entries|
    ensures var k := r.entries[j].0;
      && k in Keys(r.entries)
      && (EntryVerdict(r, e, path, mode, j).Pass? <==> PyEq(LookupEntry(r.entries, k), LookupEntry(e.entries, k)))
    decreases r, 0
  {
    LookupWellFormed(r.entries, j);
    var k := r.entries[j].0;
    PassIffEqual(r.entries[j].1, LookupEntry(e.entries, k), path + [KeyPiece(k)], mode);
  }

  /** The comparison passes exactly when the values are equal, in either
      mode and under any path. */
  lemma {:induction false} PassIffEqual<A>(r: Value<A>, e: Value<A>, path: Path, mode: Mode)
    requires WellFormed(r)
    ensures Compare(r, e, path, mode) == Pass <==> PyEq(r, e)
    decreases r, 2
  {
    if r.Dict? && e.Dict? {
      if Keys(r.entries) == Keys(e.entries) {
        var vs := EntryVerdicts(r, e, path, mode);
        CollectAsGather(r, e, path, mode, 0, []);
        assert vs[0..] == vs;
        GatherPassIff(vs, []);
        if PyEq(r, e) {
          forall j | 0 <= j < |r.entries| ensures vs[j].Pass? {
            EntryPassIffEqual(r, e, path, mode, j);
          }
        } else {
          var k :| k in Keys(r.entries) && !PyEq(LookupEntry(r.entries, k), LookupEntry(e.entries, k));
          var j :| 0 <= j < |r.entries| && r.entries[j].0 == k;
          EntryPassIffEqual(r, e, path, mode, j);
        }
      }
    } else if r.List? && e.List? {
      if |r.items| == |e.items| {
        ItemsPassIffEqual(r, e, path, mode, 0);
      }
    }
  }

  /** The list loop from index `n` passes exactly when every remaining
      element equals its counterpart. */
  lemma {:induction false} ItemsPassIffEqual<A>(r: Value<A>, e: Value<A>, path: Path, mode: Mode, n: nat)
    requires WellFormed(r)
    requires r.List? && e.List? && |r.items| == |e.items| && n <= |r.items|
    ensures CompareItems(r, e, path, mode, n) == Pass <==>
      forall j :: n <= j < |r.items| ==> PyEq(r.items[j], e.items[j])
    decreases r, 0, |r.items| - n
  {
    if n < |r.items| {
      PassIffEqual(r.items[n], e.items[n], path + [IndexPiece(n)], mode);
      ItemsPassIffEqual(r, e, path, mode, n + 1);
    }
  }

  /** Some failure lies at or below path `p`. */
  ghost predicate Reported<A>(failures: seq<Failure<A>>, p: Path)
  {
    exists f :: f in failures && p <= f.path
  }

  /** `assert_dict_equal` on two dictionaries with the same keys reports,
      unless a TypeError ends it, a failure under every key whose values
      differ -- not just the first -- and nothing under any other key. */
  lemma DictReportsEveryDifference<A>(r: Value<A>, e: Value<A>, path: Path, mode: Mode)
    requires WellFormed(r) && r.Dict? && e.Dict? && Keys(r.entries) == Keys(e.entries)
    ensures var v := Compare(r, e, path, mode);
      && (v.Pass? || v.Fail? || mode == AsWritten)
      && (v.Fail? ==>
        && (forall k :: k in Keys(r.entries) && !PyEq(LookupEntry(r.entries, k), LookupEntry(e.entries, k)) ==>
              Reported(v.failures, path + [KeyPiece(k)]))
        && (forall f :: f in v.failures ==>
              exists k :: k in Keys(r.entries) && !PyEq(LookupEntry(r.entries, k), LookupEntry(e.entries, k))
                          && path + [KeyPiece(k)] <= f.path))
  {
    var v := Compare(r, e, path, mode);
    var vs := EntryVerdicts(r, e, path, mode);
    assert v == CompareDicts(r, e, path, mode);
    CollectAsGather(r, e, path, mode, 0, []);
    assert vs[0..] == vs;
    GatherIsConcatenation(vs, []);
    if v.Fail? {
      assert v.failures == Flatten(vs);
      forall k | k in Keys(r.entries) && !PyEq(LookupEntry(r.entries, k), LookupEntry(e.entries, k))
        ensures Reported(v.failures, path + [KeyPiece(k)])
      {
        var j :| 0 <= j < |r.entries| && r.entries[j].0 == k;
        EntryPassIffEqual(r, e, path, mode, j);
        var sub := vs[j];
        assert !sub.TypeErrorRaised?;
        FlattenIncludes(vs, j, sub.failures[0]);
        assert path + [KeyPiece(k)] <= sub.failures[0].path;
      }
      forall f | f in v.failures
        ensures exists k :: k in Keys(r.entries) && !PyEq(LookupEntry(r.entries, k), LookupEntry(e.entries, k))
                            && path + [KeyPiece(k)] <= f.path
      {
        FlattenFrom(vs, f);
        var j :| 0 <= j < |vs| && vs[j].Fail? && f in vs[j].failures;
        EntryPassIffEqual(r, e, path, mode, j);
        var n :| 0 <= n < |vs[j].failures| && vs[j].failures[n] == f;
        assert path + [KeyPiece(r.entries[j].0)] <= f.path;
      }
    }
  }

  /** The list loop from index `n`, when it does not pass, ends with the
      verdict of the first element that differs; the elements before it are
      equal and none after it is compared. */
  lemma {:induction false} ItemsFirstFailure<A>(r: Value<A>, e: Value<A>, path: Path, mode: Mode, n: nat)
    requires WellFormed(r)
    requires r.List? && e.List? && |r.items| == |e.items| && n <= |r.items|
    ensures var v := CompareItems(r, e, path, mode, n);
      v != Pass ==>
        exists m :: (&& n <= m < |r.items|
                     && (forall j :: n <= j < m ==> PyEq(r.items[j], e.items[j]))
                     && !PyEq(r.items[m], e.items[m])
                     && v == Compare(r.items[m], e.items[m], path + [IndexPiece(m)], mode))
    decreases |r.items| - n
  {
    if n < |r.items| {
      PassIffEqual(r.items[n], e.items[n], path + [IndexPiece(n)], mode);
      ItemsFirstFailure(r, e, path, mode, n + 1);
    }
  }

  /** `assert_list_equal` on two lists of one length stops at the first
      element that differs and reports exactly what comparing that element
      reports, under its `[n]` path. */
  lemma ListStopsAtFirstFailure<A>(r: Value<A>, e: Value<A>, path: Path, mode: Mode)
    requires WellFormed(r) && r.List? && e.List? && |r.items| == |e.items|
    ensures var v := Compare(r, e, path, mode);
      v != Pass ==>
        exists m :: (&& 0 <= m < |r.items|
                     && (forall j :: 0 <= j < m ==> PyEq(r.items[j], e.items[j]))
                     && !PyEq(r.items[m], e.items[m])
                     && v == Compare(r.items[m], e.items[m], path + [IndexPiece(m)], mode))
  {
    ItemsFirstFailure(r, e, path, mode, 0);
  }

  // ---------------------------------------------------------------------
  // The list-length message

  /** As written, the length assertion formats its message with
      `'...%d != %d\n%s' % result_len`, which binds `%` to the first length
      alone: the format string wants three values, so building the message
      raises TypeError instead of the AssertionError. Every length
      mismatch, at any depth, therefore surfaces as TypeError. */
  lemma LengthMessageRaisesTypeError<A>(r: Value<A>, e: Value<A>, path: Path)
    requires r.List? && e.List? && |r.items| != |e.items|
    ensures Compare(r, e, path, AsWritten) == TypeErrorRaised
  {
  }

  /** `{'a': [1], 'b': 2}`, compared below with `{'a': [], 'b': 3}`. */
  function ExampleResult(): Value<int>
  {
    Dict([(StrKey("a"), List([Leaf(1)])), (StrKey("b"), Leaf(2))])
  }

  function ExampleExpected(): Value<int>
  {
    Dict([(StrKey("a"), List([])), (StrKey("b"), Leaf(3))])
  }

  /** Inside a dictionary the TypeError escapes `except AssertionError`,
      so the failures already collected for other keys are lost: here the
      key `'b'` also differs, but only TypeError comes out. */
  lemma LengthMessageHidesDictFailures()
    ensures Compare(ExampleResult(), ExampleExpected(), [], AsWritten) == TypeErrorRaised
    ensures Compare(ExampleResult(), ExampleExpected(), [], Intended) ==
      Fail([LengthMismatch(1, 0, [KeyPiece(StrKey("a"))]), NotEqual(Leaf(2), Leaf(3), [KeyPiece(StrKey("b"))])])
  {
    ExampleAsWritten();
    ExampleIntended();
  }

  lemma ExampleAsWritten()
    ensures Compare(ExampleResult(), ExampleExpected(), [], AsWritten) == TypeErrorRaised
  {
    var r, e := ExampleResult(), ExampleExpected();
    SameKeys(r.entries, e.entries);
    var pa := [KeyPiece(StrKey("a"))];
    CollectStep(r, e, [], AsWritten, 0, []);
    assert EntryVerdict(r, e, [], AsWritten, 0) == Compare(List([Leaf(1)]), List([]), pa, AsWritten) == TypeErrorRaised;
    assert Compare(r, e, [], AsWritten) == CompareDicts(r, e, [], AsWritten);
  }

  lemma ExampleIntended()
    ensures Compare(ExampleResult(), ExampleExpected(), [], Intended) ==
      Fail([LengthMismatch(1, 0, [KeyPiece(StrKey("a"))]), NotEqual(Leaf(2), Leaf(3), [KeyPiece(StrKey("b"))])])
  {
    var r, e := ExampleResult(), ExampleExpected();
    SameKeys(r.entries, e.entries);
    var pa, pb := [KeyPiece(StrKey("a"))], [KeyPiece(StrKey("b"))];
    var f1, f2 := LengthMismatch(1, 0, pa), NotEqual(Leaf(2), Leaf(3), pb);
    assert [] + pa == pa && [] + pb == pb;
    CollectStep(r, e, [], Intended, 0, []);
    CollectStep(r, e, [], Intended, 1, [f1]);
    assert EntryVerdict(r, e, [], Intended, 0) == Compare(List([Leaf(1)]), List([]), pa, Intended) == Fail([f1]);
    assert EntryVerdict(r, e, [], Intended, 1) == Compare(Leaf(2), Leaf(3), pb, Intended) == Fail([f2]);
    assert [f1] + [f2] == [f1, f2];
    assert CollectEntries(r, e, [], Intended, 2, [f1, f2]) == Fail([f1, f2]);
    assert Compare(r, e, [], Intended) == CompareDicts(r, e, [], Intended);
  }

  /** Two dictionaries keyed `'a'` then `'b'` have the same keys, and a
      lookup finds each key's own entry. */
  lemma SameKeys<A>(rs: seq<(DictKey, Value<A>)>, es: seq<(DictKey, Value<A>)>)
    requires |rs| == |es| == 2
    requires rs[0].0 == es[0].0 == StrKey("a") && rs[1].0 == es[1].0 == StrKey("b")
    ensures Keys(rs) == Keys(es)
    ensures StrKey("a") in Keys(es) && LookupEntry(es, StrKey("a")) == es[0].1
    ensures StrKey("b") in Keys(es) && LookupEntry(es, StrKey("b")) == es[1].1
  {
    var ab := {StrKey("a"), StrKey("b")};
    assert Keys(rs) == ab by {
      forall k | k in Keys(rs) ensures k in ab {
        var i :| 0 <= i < |rs| && rs[i].0 == k;
      }
    }
    assert Keys(es) == ab by {
      forall k | k in Keys(es) ensures k in ab {
        var i :| 0 <= i < |es| && es[i].0 == k;
      }
    }
  }

  /** With the message formatted as intended, a length mismatch is an
      AssertionError that reports both lengths at the list's path, and no
      comparison raises TypeError. */
  lemma LengthMismatchReported<A>(r: Value<A>, e: Value<A>, path: Path)
    requires r.List? && e.List? && |r.items| != |e.items|
    ensures Compare(r, e, path, Intended) == Fail([LengthMismatch(|r.items|, |e.items|, path)])
    ensures forall r', e', p :: !Compare<A>(r', e', p, Intended).TypeErrorRaised?
  {
  }

  // ---------------------------------------------------------------------
  // The assertions as the source runs them

  /** `assert_equal`: dispatch on the kinds of both values. */
  method AssertEqual<A(==)>(r: Value<A>, e: Value<A>, path: Path, mode: Mode) returns (v: Verdict<A>)
    ensures v == Compare(r, e, path, mode)
    decreases r, 2
  {
    if r.Dict? && e.Dict? {
      v := AssertDictEqual(r, e, path, mode);
    } else if r.List? && e.List? {
      v := AssertListEqual(r, e, path, mode);
    } else if r == e {
      v := Pass;
    } else {
      v := Fail([NotEqual(r, e, path)]);
    }
  }

  /** `assert_dict_equal`: the key check, then the loop that collects the
      failure of every entry into `failures`. */
  method AssertDictEqual<A(==)>(r: Value<A>, e: Value<A>, path: Path, mode: Mode) returns (v: Verdict<A>)
    requires r.Dict? && e.Dict?
    ensures v == CompareDicts(r, e, path, mode)
    decreases r, 1
  {
    var rk, ek := Keys(r.entries), Keys(e.entries);
    if rk != ek {
      return Fail([KeyMismatch(rk, ek, path)]);
    }
    var failures: seq<Failure<A>> := [];
    var i := 0;
    while i < |r.entries|
      invariant 0 <= i <= |r.entries|
      invariant CollectEntries(r, e, path, mode, i, failures) == CollectEntries(r, e, path, mode, 0, [])
    {
      var (k, rv) := r.entries[i];
      assert k in Keys(r.entries);
      var sub := AssertEqual(rv, LookupEntry(e.entries, k), path + [KeyPiece(k)], mode);
      if sub.TypeErrorRaised? {
        return TypeErrorRaised;
      }
      if sub.Fail? {
        failures := failures + sub.failures;
      }
      i := i + 1;
    }
    v := if failures == [] then Pass else Fail(failures);
  }

  /** `assert_list_equal`: the length check, then the elements in order
      until the first one that does not pass. */
  method AssertListEqual<A(==)>(r: Value<A>, e: Value<A>, path: Path, mode: Mode) returns (v: Verdict<A>)
    requires r.List? && e.List?
    ensures v == CompareLists(r, e, path, mode)
    decreases r, 1
  {
    if |r.items| != |e.items| {
      if mode == AsWritten {
        return TypeErrorRaised;
      }
      return Fail([LengthMismatch(|r.items|, |e.items|, path)]);
    }
    var n := 0;
    while n < |r.items|
      invariant 0 <= n <= |r.items|
      invariant CompareItems(r, e, path, mode, n) == CompareItems(r, e, path, mode, 0)
    {
      var sub := AssertEqual(r.items[n], e.items[n], path + [IndexPiece(n)], mode);
      if !sub.Pass? {
        return sub;
      }
      n := n + 1;
    }
    v := Pass;
  }
}
