/**
 * The laws of the trie engine at the level of its abstract state (a View):
 * what `put` keeps, what `get`, `prefix` and `contains` then answer, and
 * where the character-array strategy departs from the `Trie` interface.
 */
module TrieLaws {
  import opened Wrappers
  import opened JavaText
  import opened Errors
  import opened TrieContract
  import opened TrieEngine

  /** `Prefixes(key, n)` holds exactly the prefixes of `key` of length at most `n`. */
  lemma {:induction false} PrefixesMeaning(key: JString, n: nat, p: JString)
    requires n <= |key|
    ensures p in Prefixes(key, n) <==> |p| <= n && p == key[..|p|]
  {
    if n > 0 {
      PrefixesMeaning(key, n - 1, p);
    }
  }

  /** Adding the prefixes of a key keeps a set of paths prefix-closed. */
  lemma PrefixesKeepClosed(paths: set<JString>, key: JString, n: nat)
    requires n <= |key| && PrefixClosed(paths)
    ensures PrefixClosed(paths + Prefixes(key, n))
  {
    forall p, c | p + [c] in paths + Prefixes(key, n)
      ensures p in paths + Prefixes(key, n)
    {
      if p + [c] !in paths {
        PrefixesMeaning(key, n, p + [c]);
        PrefixesMeaning(key, n, p);
        assert (p + [c])[..|p|] == p;
      }
    }
  }

  /** Every `put`, whether it returns or throws, leaves a consistent trie consistent. */
  lemma PutPreservesConsistent<V>(v: TrieView<V>, key: JString, value: Option<V>)
    requires Consistent(v)
    ensures Consistent(PutResult(v, key, value).1)
  {
    if key != [] {
      match FirstRejected(v.strategy, key, 0)
      case Some(f) =>
        PrefixesKeepClosed(v.paths, key, f);
        PrefixesHoldRoot(key, f);
      case None =>
        PrefixesKeepClosed(v.paths, key, |key|);
        PrefixesHoldRoot(key, |key|);
        PrefixesMeaning(key, |key|, key);
    }
  }

  /** Every operation of the engine rejects the empty key and changes nothing. */
  lemma EmptyKeyRejected<V>(v: TrieView<V>, value: Option<V>)
    ensures PutResult(v, [], value) == (Fail(EmptyKey), v)
    ensures GetResult(v, []) == Failure(EmptyKey)
    ensures PrefixResult(v, []) == Failure(EmptyKey)
    ensures ContainsResult(v, []) == Failure(EmptyKey)
  {
  }

  /** A walk along a key whose characters the strategy all accepts never throws. */
  lemma NoFaultWhenAccepted<V>(v: TrieView<V>, key: JString)
    requires FirstRejected(v.strategy, key, 0).None?
    ensures WalkFault(v, key).None?
  {
  }

  /** A `put` that returns has stored its value: `get` and `contains` of the key see it, and so does `prefix` unless the value is null. */
  lemma PutThenGet<V>(v: TrieView<V>, key: JString, value: Option<V>)
    requires PutResult(v, key, value).0 == Pass
    ensures GetResult(PutResult(v, key, value).1, key) == Success(value)
    ensures ContainsResult(PutResult(v, key, value).1, key) == Success(value.Some?)
    ensures value.Some? ==> PrefixResult(PutResult(v, key, value).1, key) == Success(value)
  {
    assert key != [] && FirstRejected(v.strategy, key, 0).None?;
    NoFaultWhenAccepted(PutResult(v, key, value).1, key);
    assert key[..|key|] == key;
  }

  /** `put(k, ..)` changes no other key's entry, whether it returns or throws. */
  lemma PutKeepsOtherEntries<V>(v: TrieView<V>, key: JString, value: Option<V>, j: JString)
    requires j != key
    ensures Lookup(PutResult(v, key, value).1.contents, j) == Lookup(v.contents, j)
  {
  }

  /** A `put` that throws stores nothing, and says which character it could not hold. */
  lemma FailedPutStoresNothing<V>(v: TrieView<V>, key: JString, value: Option<V>)
    requires PutResult(v, key, value).0.Fail?
    ensures PutResult(v, key, value).1.contents == v.contents
    ensures key == [] <==> PutResult(v, key, value).0.error == EmptyKey
    ensures key != [] ==> exists i :: 0 <= i < |key| && !Accepts(v.strategy, key[i]) &&
                                      PutResult(v, key, value).0.error == CharOutOfBounds(key[i])
  {
    if key != [] {
      var f := FirstRejected(v.strategy, key, 0).value;
      assert !Accepts(v.strategy, key[f]);
    }
  }

  /** A second `put` under the same key replaces the first one's value. */
  lemma SecondPutOverwrites<V>(v: TrieView<V>, key: JString, a: Option<V>, b: Option<V>)
    requires PutResult(v, key, a).0 == Pass
    ensures PutResult(PutResult(v, key, a).1, key, b).0 == Pass
    ensures PutResult(PutResult(v, key, a).1, key, b).1.contents == PutResult(v, key, b).1.contents
  {
    var m := v.contents;
    assert Assign(Assign(m, key, a), key, b) == Assign(m, key, b) by {
      assert Assign(Assign(m, key, a), key, b).Keys == Assign(m, key, b).Keys;
    }
  }

  /** Along a stored path, the walk reaches the path's end. */
  lemma {:induction false} ReachStored(paths: set<JString>, key: JString, i: nat)
    requires PrefixClosed(paths) && key in paths && i <= |key|
    ensures Reach(paths, key, i) == |key|
    decreases |key| - i
  {
    if i < |key| {
      PrefixClosedDown(paths, key, i + 1);
      ReachStored(paths, key, i + 1);
    }
  }

  /** `prefix(k)` is `get(k)` for a key that holds a value, and neither throws. */
  lemma PrefixOfStoredKey<V>(v: TrieView<V>, key: JString)
    requires Consistent(v) && key in v.contents
    ensures PrefixResult(v, key) == GetResult(v, key) == Success(Some(v.contents[key]))
  {
    ReachStored(v.paths, key, 0);
    TrieContract.PrefixOfStoredKey(v.contents, key);
  }

  /** A trie without a root finds nothing and never throws on a non-empty key. */
  lemma RootlessFindsNothing<V>(v: TrieView<V>, key: JString)
    requires Consistent(v) && v.paths == {} && key != []
    ensures GetResult(v, key) == Success(None)
    ensures PrefixResult(v, key) == Success(None)
    ensures ContainsResult(v, key) == Success(false)
  {
    PrefixValueMeaning(v.contents, key, |key|);
  }

  /**
   * With a hash-map strategy no walk throws, so the trie is exactly the
   * `Trie` interface over its entries, `put` included.
   */
  lemma HashedTrieMeetsInterface<V>(v: TrieView<V>, key: JString, value: Option<V>)
    requires !v.strategy.CharArrayStrategy?
    ensures GetResult(v, key) == TrieContract.Get(v.contents, key)
    ensures PrefixResult(v, key) == TrieContract.Prefix(v.contents, key)
    ensures ContainsResult(v, key) == TrieContract.ContainsKey(v.contents, key)
    ensures PutResult(v, key, value).0 == if key == [] then Fail(EmptyKey) else Pass
    ensures key != [] ==> PutResult(v, key, value).1.contents == TrieContract.Put(v.contents, key, value).value.0
  {
  }

  /** U+FFFF: the one code unit the default capacity 0xffff of a character-array node excludes. */
  const MaxChar: CodeUnit := '\U{FFFF}'

  /** The default character-array trie never stores a key that holds U+FFFF. */
  lemma DenseRejectsMaxChar<V>(v: TrieView<V>, key: JString, value: Option<V>, i: nat)
    requires v.strategy == CharArrayTrie && i < |key| && key[i] == MaxChar
    ensures PutResult(v, key, value).0.Fail?
    ensures PutResult(v, key, value).1.contents == v.contents
  {
    assert !Accepts(v.strategy, key[i]);
  }

  /** A default character-array trie with no root. */
  const EmptyDense: TrieView<int> := TrieView(CharArrayTrie, {}, map[])

  /** The same trie after `put("a", 1)`. */
  const DenseWithA: TrieView<int> := TrieView(CharArrayTrie, {[], ['a']}, map[['a'] := 1])

  /**
   * With the character-array strategy a `put` can change what `get` of
   * another key does: in an empty default trie `get("\uFFFF")` finds
   * nothing, but once `put("a", 1)` has created the root it throws,
   * because the walk now reaches a node and asks it for U+FFFF.
   */
  lemma DensePutChangesOtherGet()
    ensures GetResult(EmptyDense, [MaxChar]) == Success(None)
    ensures PutResult(EmptyDense, ['a'], Some(1)) == (Pass, DenseWithA)
    ensures GetResult(DenseWithA, [MaxChar]) == Failure(CharOutOfBounds(MaxChar))
  {
    var a: JString := ['a'];
    assert a[..0] == [] && a[..1] == a;
    assert Prefixes(a, 1) == {[], a};
    assert {} + Prefixes(a, 1) == {[], a};
    var k: JString := [MaxChar];
    assert k[..1] == k && k !in {[], a};
    assert Reach({[], a}, k, 0) == 0;
  }
}
