/**
 * The `Trie<T>` interface as a contract over the map of entries it stands
 * for. Keys are non-empty strings; a null value stored under a key makes
 * the key absent, so entries carry only non-null values.
 *
 * `AbstractTrie` implements `get`, `prefix` and `contains` (see
 * module TrieEngine). The interface also declares a `put` that returns the
 * previous value, `containsKey`, `remove`, `size` and `isEmpty`, which no
 * class implements; they are stated here as the interface's contract only.
 */
module TrieContract {
  import opened Wrappers
  import opened JavaText
  import opened Errors

  /** The value stored under `k`, or None. */
  function Lookup<V>(m: map<JString, V>, k: JString): (r: Option<V>)
    ensures r.Some? <==> k in m
    ensures r.Some? ==> r.value == m[k]
  {
    if k in m then Some(m[k]) else None
  }

  /** The entries after storing `v` under `k`; storing null removes the entry. */
  function Assign<V>(m: map<JString, V>, k: JString, v: Option<V>): (r: map<JString, V>)
    ensures Lookup(r, k) == v
    ensures forall j :: j != k ==> Lookup(r, j) == Lookup(m, j)
    ensures r.Keys == if v.Some? then m.Keys + {k} else m.Keys - {k}
  {
    if v.Some? then m[k := v.value] else m - {k}
  }

  /** The value of the longest `k[..j]` with `j <= n` that is a key of `m`. */
  function PrefixValue<V>(m: map<JString, V>, k: JString, n: nat): Option<V>
    requires n <= |k|
  {
    if k[..n] in m then Some(m[k[..n]])
    else if n == 0 then None
    else PrefixValue(m, k, n - 1)
  }

  /** The value of the longest prefix of `k`, `k` itself included, that is a key of `m`. */
  function LongestPrefix<V>(m: map<JString, V>, k: JString): Option<V> {
    PrefixValue(m, k, |k|)
  }

  /** `j` is the length of the longest prefix of `k` no longer than `n` that is a key of `m`. */
  ghost predicate LongestStoredPrefix<V>(m: map<JString, V>, k: JString, n: nat, j: nat)
    requires n <= |k|
  {
    j <= n && k[..j] in m && forall j' :: j < j' <= n ==> k[..j'] !in m
  }

  /**
   * The reference meaning of PrefixValue: it is None exactly when no
   * prefix up to length `n` is stored, and otherwise the value of the
   * longest stored one.
   */
  lemma {:induction false} PrefixValueMeaning<V>(m: map<JString, V>, k: JString, n: nat)
    requires n <= |k|
    ensures PrefixValue(m, k, n).None? <==> forall j :: 0 <= j <= n ==> k[..j] !in m
    ensures forall j: nat :: LongestStoredPrefix(m, k, n, j) ==> PrefixValue(m, k, n) == Some(m[k[..j]])
    ensures PrefixValue(m, k, n).Some? ==> exists j: nat :: LongestStoredPrefix(m, k, n, j)
  {
    if k[..n] in m {
      assert LongestStoredPrefix(m, k, n, n);
    } else if n > 0 {
      PrefixValueMeaning(m, k, n - 1);
      forall j: nat | LongestStoredPrefix(m, k, n, j)
        ensures LongestStoredPrefix(m, k, n - 1, j)
      {
      }
      if PrefixValue(m, k, n).Some? {
        var j: nat :| LongestStoredPrefix(m, k, n - 1, j);
        assert LongestStoredPrefix(m, k, n, j);
      }
    }
  }

  /** `put(key, value)` as declared: the new entries and the previous value. */
  function Put<V>(m: map<JString, V>, k: JString, v: Option<V>): Result<(map<JString, V>, Option<V>), IllegalArgument> {
    if k == [] then Failure(EmptyKey) else Success((Assign(m, k, v), Lookup(m, k)))
  }

  /** `get(key)`: the associated value, or null. */
  function Get<V>(m: map<JString, V>, k: JString): Result<Option<V>, IllegalArgument> {
    if k == [] then Failure(EmptyKey) else Success(Lookup(m, k))
  }

  /** `containsKey(key)`: whether the key has an entry. */
  function ContainsKey<V>(m: map<JString, V>, k: JString): Result<bool, IllegalArgument> {
    if k == [] then Failure(EmptyKey) else Success(k in m)
  }

  /** `prefix(key)`: the value of the longest stored prefix of the key, or null. */
  function Prefix<V>(m: map<JString, V>, k: JString): Result<Option<V>, IllegalArgument> {
    if k == [] then Failure(EmptyKey) else Success(LongestPrefix(m, k))
  }

  /** `remove(key)` as declared: the entries without the key and the removed value. */
  function Remove<V>(m: map<JString, V>, k: JString): Result<(map<JString, V>, Option<V>), IllegalArgument> {
    if k == [] then Failure(EmptyKey) else Success((m - {k}, Lookup(m, k)))
  }

  /** `size()`: the number of entries. */
  function Size<V>(m: map<JString, V>): nat {
    |m.Keys|
  }

  /** `isEmpty()`. */
  predicate IsEmpty<V>(m: map<JString, V>) {
    m == map[]
  }

  /** Every keyed operation rejects the empty key, and accepts every other key. */
  lemma EmptyKeyRejected<V>(m: map<JString, V>, k: JString, v: Option<V>)
    ensures Put(m, k, v).Failure? <==> k == []
    ensures Get(m, k).Failure? <==> k == []
    ensures ContainsKey(m, k).Failure? <==> k == []
    ensures Prefix(m, k).Failure? <==> k == []
    ensures Remove(m, k).Failure? <==> k == []
    ensures k == [] ==>
              && Put(m, k, v).error == EmptyKey && Get(m, k).error == EmptyKey
              && ContainsKey(m, k).error == EmptyKey && Prefix(m, k).error == EmptyKey
              && Remove(m, k).error == EmptyKey
  {
  }

  /** After `put(k, v)`, `get(k)` is `v`, every other key keeps its value, and the previous value is returned. */
  lemma PutThenGet<V>(m: map<JString, V>, k: JString, v: Option<V>, j: JString)
    requires k != []
    ensures Get(Put(m, k, v).value.0, k) == Success(v)
    ensures j != k ==> Get(Put(m, k, v).value.0, j) == Get(m, j)
    ensures Put(m, k, v).value.1 == Get(m, k).value
  {
  }

  /** `size()` grows by one when a new key gets a value, shrinks by one when null replaces a value, and otherwise stays. */
  lemma {:induction false} PutSize<V>(m: map<JString, V>, k: JString, v: Option<V>)
    requires k != []
    ensures Size(Put(m, k, v).value.0) ==
      if k !in m && v.Some? then Size(m) + 1
      else if k in m && v.None? then Size(m) - 1
      else Size(m)
  {
    var keys := Put(m, k, v).value.0.Keys;
    assert keys == if v.Some? then m.Keys + {k} else m.Keys - {k};
    OneKeyMore(m.Keys, k);
    if k in m && v.Some? {
      assert keys == m.Keys;
    } else if k !in m && v.None? {
      assert keys == m.Keys;
    }
  }

  /** Adding a new key adds one to a set's size, removing a present one takes one away. */
  lemma OneKeyMore(keys: set<JString>, k: JString)
    ensures k !in keys ==> |keys + {k}| == |keys| + 1
    ensures k in keys ==> |keys - {k}| == |keys| - 1
  {
  }

  /** `remove(k)` returns the removed value, leaves `k` absent and every other key untouched. */
  lemma RemoveThenGet<V>(m: map<JString, V>, k: JString, j: JString)
    requires k != []
    ensures Remove(m, k).value.1 == Lookup(m, k)
    ensures Get(Remove(m, k).value.0, k) == Success(None)
    ensures j != k ==> Get(Remove(m, k).value.0, j) == Get(m, j)
    ensures k !in m ==> Remove(m, k).value.0 == m
  {
  }

  /** `remove(k)` shrinks `size()` by exactly one when `k` had an entry, and changes nothing otherwise. */
  lemma {:induction false} RemoveSize<V>(m: map<JString, V>, k: JString)
    requires k != []
    ensures Size(Remove(m, k).value.0) == if k in m then Size(m) - 1 else Size(m)
  {
    assert Remove(m, k).value.0.Keys == m.Keys - {k};
  }

  /** `isEmpty()` holds exactly when `size()` is zero. */
  lemma {:induction false} IsEmptyIffSizeZero<V>(m: map<JString, V>)
    ensures IsEmpty(m) <==> Size(m) == 0
  {
    if Size(m) == 0 {
      assert m.Keys == {};
      assert forall k :: k !in m;
    }
  }

  /** `containsKey(k)` is `get(k) != null`. */
  lemma ContainsIffGet<V>(m: map<JString, V>, k: JString)
    requires k != []
    ensures ContainsKey(m, k) == Success(Get(m, k).value.Some?)
  {
  }

  /** For a stored key, `prefix` finds the key itself: `prefix(k) == get(k)`. */
  lemma PrefixOfStoredKey<V>(m: map<JString, V>, k: JString)
    requires k != [] && k in m
    ensures Prefix(m, k) == Get(m, k) == Success(Some(m[k]))
  {
    assert k[..|k|] == k;
  }
}
