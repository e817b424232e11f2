/**
 * The trie class `AbstractTrie` over the engine of `TrieEngine`: the root
 * reference, the ghost node graph it owns, and the four operations of the
 * `Trie` interface, each proved against the view-level result function.
 */
module AbstractTries {
  import opened Wrappers
  import opened JavaText
  import opened Errors
  import opened TrieContract
  import opened TrieEngine

  /**
   * `put(root, key, value)` and the assignment of its result to the root:
   * the next root, nodes and entries. When the inner `put` throws, the
   * root is not assigned, so the nodes created for a trie without a root
   * stay unreachable.
   */
  method Insert<V>(s: Strategy, root: Option<Node<V>>, key: JString, value: Option<V>,
                   ghost nodes0: map<JString, Node<V>>, ghost contents0: map<JString, V>, ghost owner0: map<object, JString>)
    returns (r: Outcome<IllegalArgument>, root': Option<Node<V>>,
             ghost nodes: map<JString, Node<V>>, ghost contents: map<JString, V>, ghost owner: map<object, JString>)
    requires key != []
    requires Inv(s, root, nodes0, contents0, owner0, owner0.Keys)
    modifies owner0.Keys
    ensures owner0.Keys <= owner.Keys && fresh(owner.Keys - owner0.Keys)
    ensures Inv(s, root', nodes, contents, owner, owner.Keys)
    ensures (r, TrieView(s, nodes.Keys, contents)) == PutResult(TrieView(s, nodes0.Keys, contents0), key, value)
  {
    var top, nodes1, owner1 := Plant(s, root, nodes0, contents0, owner0);
    var d;
    d, nodes, owner := Descend(s, top, key, nodes1, contents0, owner1);
    PutMatches(TrieView(s, nodes0.Keys, contents0), key, value, top, d, nodes1, nodes);
    if d.Failure? {
      if root.None? {
        Unrooted(s, contents0, owner0);
        return Fail(d.error), root, nodes0, contents0, owner0;
      }
      Kept(s, top, nodes, contents0, owner);
      return Fail(d.error), root, nodes, contents0, owner;
    }
    Settle(s, top, d.value, key, value, nodes, contents0, owner);
    r, root', contents := Pass, Some(top), Assign(contents0, key, value);
  }

  /** A trie over one node strategy (`AbstractTrie`); the root is created by the first `put`. */
  class AbstractTrie<V> {
    /** The node factory. */
    const strategy: Strategy
    /** The root node, null until the first `put`. */
    var root: Option<Node<V>>
    /** The node at each path; the root's path is []. */
    ghost var Nodes: map<JString, Node<V>>
    /** The entries: the paths whose node holds a non-null value. */
    ghost var Contents: map<JString, V>
    /** The path of the node each object belongs to. */
    ghost var Owner: map<object, JString>
    /** The objects of all nodes. */
    ghost var Repr: set<object>

    /** The abstract state. */
    ghost function View(): TrieView<V>
      reads this
    {
      TrieView(strategy, Nodes.Keys, Contents)
    }

    ghost predicate Valid()
      reads this, Repr
    {
      this !in Repr && Inv(strategy, root, Nodes, Contents, Owner, Repr)
    }

    /** A valid trie's abstract state is consistent. */
    lemma ValidConsistent()
      requires Valid()
      ensures Consistent(View())
    {
      InvConsistent(strategy, root, Nodes, Contents, Owner);
    }

    /** A trie with no root and no entries. */
    constructor (strategy: Strategy)
      ensures Valid() && fresh(Repr)
      ensures this.strategy == strategy && root.None?
      ensures View() == TrieView(strategy, {}, map[])
    {
      this.strategy := strategy;
      root := None;
      Nodes := map[];
      Contents := map[];
      Owner := map[];
      Repr := {};
    }

    /** `put(key, value)`: the root is published only when the inner `put` returns. */
    method Put(key: JString, value: Option<V>) returns (r: Outcome<IllegalArgument>)
      requires Valid()
      modifies this, Repr
      ensures Valid() && fresh(Repr - old(Repr))
      ensures (r, View()) == PutResult(old(View()), key, value)
    {
      if key == [] {
        return Fail(EmptyKey);
      }
      var root': Option<Node<V>>;
      ghost var nodes: map<JString, Node<V>>;
      ghost var contents: map<JString, V>;
      ghost var owner: map<object, JString>;
      r, root', nodes, contents, owner := Insert(strategy, root, key, value, Nodes, Contents, Owner);
      assert this !in owner.Keys;
      root, Nodes, Contents, Owner, Repr := root', nodes, contents, owner, owner.Keys;
    }

    /** `get(key)`: the value stored under `key`, unless the walk throws. */
    method Get(key: JString) returns (r: Result<Option<V>, IllegalArgument>)
      requires Valid()
      ensures r == GetResult(View(), key)
    {
      if key == [] {
        return Failure(EmptyKey);
      }
      r := GetAt(strategy, root, key, Nodes, Contents, Owner);
    }

    /** `prefix(key)`: the value of the longest stored prefix of `key`, unless the walk throws. */
    method Prefix(key: JString) returns (r: Result<Option<V>, IllegalArgument>)
      requires Valid()
      ensures r == PrefixResult(View(), key)
    {
      if key == [] {
        return Failure(EmptyKey);
      }
      r := PrefixAt(strategy, root, key, Nodes, Contents, Owner);
    }

    /** `contains(key)`: `get(key) != null`. */
    method Contains(key: JString) returns (r: Result<bool, IllegalArgument>)
      requires Valid()
      ensures r == ContainsResult(View(), key)
    {
      var g := Get(key);
      match g
      case Failure(e) => r := Failure(e);
      case Success(x) => r := Success(x.Some?);
    }
  }
}
