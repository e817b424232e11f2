/**
 * The trie engine (`AbstractTrie`), written once against the node
 * contract `TrieNode` and instantiated with one node strategy.
 *
 * The abstract state of a trie is a View: the strategy, the set of paths
 * that have a node (the root is the path []), and the entries. The entries
 * are what the `Trie` interface promises; the paths matter only for the
 * character-array strategy, whose `getNext` throws for a character at or
 * above the node capacity as soon as a walk reaches such a character.
 */
module TrieEngine {
  import opened Wrappers
  import opened JavaText
  import opened Errors
  import opened TrieContract
  import opened TrieNodeBase
  import CharArrayNodes
  import HashMapNodes
  import CharHashMapNodes

  /** The node factory a trie is built with (`CharArrayTrie`, `HashMapTrie`, `CharHashMapTrie`). */
  datatype Strategy =
    | CharArrayStrategy(capacity: CharArrayNodes.Capacity)
    | HashMapStrategy
    | CharHashMapStrategy

  /** `CharArrayTrie` creates its nodes with the default capacity. */
  const CharArrayTrie: Strategy := CharArrayStrategy(CharArrayNodes.R)

  /** Whether the strategy's nodes can hold a child for `c`. */
  predicate Accepts(s: Strategy, c: CodeUnit) {
    match s
    case CharArrayStrategy(capacity) => (c as int) < capacity
    case _ => true
  }

  /** A node of any strategy: the `TrieNode` interface as a sum of its implementations. */
  datatype Node<V> =
    | Dense(d: CharArrayNodes.CharArrayTrieNode<V>)
    | Hashed(h: HashMapNodes.HashMapTrieNode<V>)
    | CharHashed(t: CharHashMapNodes.CharHashMapTrieNode<V>)

  /** The value and size fields of a node. */
  function Base<V>(n: Node<V>): AbstractTrieNode<V> {
    match n
    case Dense(d) => d.base
    case Hashed(h) => h.base
    case CharHashed(t) => t.base
  }

  /** The object that holds a node's child links. */
  function Link<V>(n: Node<V>): object {
    match n
    case Dense(d) => d.next
    case Hashed(h) => h
    case CharHashed(t) => t
  }

  /** All mutable objects of a node. */
  function Objs<V>(n: Node<V>): set<object> {
    {Link(n), Base(n)}
  }

  /** The node was made by the strategy's factory. */
  predicate Fits<V>(s: Strategy, n: Node<V>) {
    match n
    case Dense(d) => s.CharArrayStrategy? && d.next.Length == s.capacity
    case Hashed(_) => s.HashMapStrategy?
    case CharHashed(_) => s.CharHashMapStrategy?
  }

  /** The child of `n` for `c`, if any. */
  ghost function Kid<V>(n: Node<V>, c: CodeUnit): Option<Node<V>>
    reads Link(n)
  {
    match n
    case Dense(d) =>
      if (c as int) < d.next.Length && d.next[c as int] != null then Some(Dense(d.next[c as int])) else None
    case Hashed(h) =>
      if h.GetNext(c) != null then Some(Hashed(h.GetNext(c))) else None
    case CharHashed(t) =>
      if t.GetNext(c) != null then Some(CharHashed(t.GetNext(c))) else None
  }

  /** `TrieNode.getNext(c)`: the child for `c` or null; only a character-array node can throw. */
  function NextOf<V>(n: Node<V>, c: CodeUnit): (r: Result<Option<Node<V>>, IllegalArgument>)
    reads Link(n)
    ensures r.Failure? <==> n.Dense? && (c as int) >= n.d.next.Length
    ensures r.Failure? ==> r.error == CharOutOfBounds(c)
    ensures r.Success? ==> r.value == Kid(n, c)
  {
    match n
    case Dense(d) =>
      (match d.GetNext(c)
       case Failure(e) => Failure(e)
       case Success(k) => Success(if k == null then None else Some(Dense(k))))
    case Hashed(h) =>
      var k := h.GetNext(c);
      Success(if k == null then None else Some(Hashed(k)))
    case CharHashed(t) =>
      var k := t.GetNext(c);
      Success(if k == null then None else Some(CharHashed(k)))
  }

  /** `TrieNode.setNext(c, child)` for a character the node accepts: only the link for `c` changes. */
  method SetNext<V>(n: Node<V>, c: CodeUnit, child: Node<V>)
    requires n.Dense? <==> child.Dense?
    requires n.Hashed? <==> child.Hashed?
    requires n.Dense? ==> (c as int) < n.d.next.Length
    modifies Link(n)
    ensures Kid(n, c) == Some(child)
    ensures forall c' :: c' != c ==> Kid(n, c') == old(Kid(n, c'))
  {
    match n
    case Dense(d) =>
      var _ := d.SetNext(c, child.d);
    case Hashed(h) =>
      h.SetNext(c, child.h);
    case CharHashed(t) =>
      t.SetNext(c, child.t);
  }

  /** The set of the first `n + 1` prefixes of `key`, [] included. */
  function Prefixes(key: JString, n: nat): set<JString>
    requires n <= |key|
  {
    if n == 0 then {key[..0]} else Prefixes(key, n - 1) + {key[..n]}
  }

  /** A prefix one longer is the prefix followed by the next character. */
  lemma TakeStep(key: JString, i: nat)
    requires i < |key|
    ensures key[..i] + [key[i]] == key[..i + 1]
  {
  }

  /** The empty prefix is among the prefixes of any length. */
  lemma {:induction false} PrefixesHoldRoot(key: JString, n: nat)
    requires n <= |key|
    ensures [] in Prefixes(key, n)
  {
    if n == 0 {
      assert key[..0] == [];
    } else {
      PrefixesHoldRoot(key, n - 1);
    }
  }

  /** Every non-empty path's parent is a path. */
  ghost predicate PrefixClosed(paths: set<JString>) {
    forall p, c :: p + [c] in paths ==> p in paths
  }

  /** The abstract state of a trie. */
  datatype TrieView<V> = TrieView(strategy: Strategy, paths: set<JString>, contents: map<JString, V>)

  /** What every reachable trie state satisfies. */
  ghost predicate Consistent<V>(v: TrieView<V>) {
    && PrefixClosed(v.paths)
    && v.contents.Keys <= v.paths
    && (v.paths != {} ==> [] in v.paths)
    && [] !in v.contents
  }

  /** How far a walk along `key` from `key[..i]` stays on existing paths. */
  function Reach(paths: set<JString>, key: JString, i: nat): (r: nat)
    requires i <= |key|
    ensures i <= r <= |key|
    ensures forall j :: i < j <= r ==> key[..j] in paths
    ensures r < |key| ==> key[..r + 1] !in paths
    decreases |key| - i
  {
    if i < |key| && key[..i + 1] in paths then Reach(paths, key, i + 1) else i
  }

  /** The character at which a walk along `key` throws, if any: the one right after the last existing path, if the strategy rejects it. */
  function WalkFault<V>(v: TrieView<V>, key: JString): Option<CodeUnit> {
    if v.paths == {} then None
    else
      var r := Reach(v.paths, key, 0);
      if r < |key| && !Accepts(v.strategy, key[r]) then Some(key[r]) else None
  }

  /** `get(key)`: the interface's answer, unless the walk throws first. */
  function GetResult<V>(v: TrieView<V>, key: JString): Result<Option<V>, IllegalArgument> {
    if key != [] && WalkFault(v, key).Some? then Failure(CharOutOfBounds(WalkFault(v, key).value))
    else TrieContract.Get(v.contents, key)
  }

  /** `prefix(key)`: the interface's answer, unless the walk throws first. */
  function PrefixResult<V>(v: TrieView<V>, key: JString): Result<Option<V>, IllegalArgument> {
    if key != [] && WalkFault(v, key).Some? then Failure(CharOutOfBounds(WalkFault(v, key).value))
    else TrieContract.Prefix(v.contents, key)
  }

  /** `contains(key)`: `get(key) != null`. */
  function ContainsResult<V>(v: TrieView<V>, key: JString): Result<bool, IllegalArgument> {
    match GetResult(v, key)
    case Failure(e) => Failure(e)
    case Success(x) => Success(x.Some?)
  }

  /** The index of the first character of `key` at or after `i` that the strategy rejects. */
  function FirstRejected(s: Strategy, key: JString, i: nat): (r: Option<nat>)
    requires i <= |key|
    ensures r.Some? ==> i <= r.value < |key| && !Accepts(s, key[r.value])
    ensures forall j :: i <= j < |key| && (r.None? || j < r.value) ==> Accepts(s, key[j])
    decreases |key| - i
  {
    if i == |key| then None
    else if !Accepts(s, key[i]) then Some(i)
    else FirstRejected(s, key, i + 1)
  }

  /**
   * `put(key, value)`: the empty key is rejected with nothing changed;
   * otherwise the walk creates every missing node along the key and sets
   * the value at its end. If the strategy rejects a character, the walk
   * throws there: the nodes created before it stay attached, unless the
   * trie had no root, in which case the new root is never published.
   */
  function PutResult<V>(v: TrieView<V>, key: JString, value: Option<V>): (Outcome<IllegalArgument>, TrieView<V>) {
    if key == [] then (Fail(EmptyKey), v)
    else
      match FirstRejected(v.strategy, key, 0)
      case Some(f) =>
        (Fail(CharOutOfBounds(key[f])), if v.paths == {} then v else v.(paths := v.paths + Prefixes(key, f)))
      case None =>
        (Pass, v.(paths := v.paths + Prefixes(key, |key|), contents := Assign(v.contents, key, value)))
  }

  /** Node `n` sits at path `p`: its objects are owned by `p` and it was made by the strategy's factory. */
  ghost predicate Placed<V>(s: Strategy, n: Node<V>, p: JString, owner: map<object, JString>) {
    && Fits(s, n)
    && Base(n) in owner && owner[Base(n)] == p
    && Link(n) in owner && owner[Link(n)] == p
  }

  /**
   * The nodes form a tree of the strategy's nodes whose paths are the map's
   * keys; `owner` maps every object of a node to the node's path, so no two
   * nodes share an object, and its keys are the footprint.
   */
  ghost predicate Shaped<V>(s: Strategy, nodes: map<JString, Node<V>>, owner: map<object, JString>)
    reads owner.Keys
  {
    && (forall p {:trigger nodes[p]} :: p in nodes ==> Placed(s, nodes[p], p, owner))
    && PrefixClosed(nodes.Keys)
    && (forall p, c {:trigger Kid(nodes[p], c)} :: p in nodes ==> Kid(nodes[p], c) == if p + [c] in nodes then Some(nodes[p + [c]]) else None)
  }

  /** The node values are the entries. */
  ghost predicate Holds<V>(nodes: map<JString, Node<V>>, contents: map<JString, V>, repr: set<object>)
    reads repr
  {
    && contents.Keys <= nodes.Keys
    && (forall p {:trigger nodes[p]} :: p in nodes ==> Base(nodes[p]) in repr && Base(nodes[p]).value == Lookup(contents, p))
  }

  /** Hangs the fresh, empty `child` below the node at path `p` for character `c`. */
  method Attach<V>(s: Strategy, node: Node<V>, c: CodeUnit, child: Node<V>, ghost p: JString,
                   ghost nodes: map<JString, Node<V>>, ghost contents: map<JString, V>, ghost owner: map<object, JString>)
    returns (ghost nodes': map<JString, Node<V>>, ghost owner': map<object, JString>)
    requires Shaped(s, nodes, owner) && Holds(nodes, contents, owner.Keys)
    requires p in nodes && nodes[p] == node && p + [c] !in nodes && Accepts(s, c)
    requires Fits(s, child) && Link(child) !in owner && Base(child) !in owner
    requires forall c' :: Kid(child, c') == None
    requires Base(child).value == None
    modifies Link(node)
    ensures nodes' == nodes[p + [c] := child]
    ensures owner'.Keys == owner.Keys + Objs(child)
    ensures Shaped(s, nodes', owner') && Holds(nodes', contents, owner'.Keys)
  {
    assert forall q {:trigger nodes[q]} :: q in nodes ==> Base(nodes[q]) != Link(node);
    SetNext(node, c, child);
    nodes' := nodes[p + [c] := child];
    owner' := owner[Base(child) := p + [c]][Link(child) := p + [c]];
    assert forall q :: q in nodes && q != p ==> Link(nodes[q]) != Link(node);
    forall q, c' | q in nodes'
      ensures Kid(nodes'[q], c') == if q + [c'] in nodes' then Some(nodes'[q + [c']]) else None
    {
      if q == p + [c] {
        assert q + [c'] !in nodes;
      } else if q == p {
        if c' != c {
          assert p + [c'] != p + [c] by { assert (p + [c'])[|p|] != (p + [c])[|p|]; }
        }
      } else {
        assert Kid(nodes[q], c') == old(Kid(nodes[q], c'));
        SnocInjective(q, c', p, c);
      }
    }
    forall q | q in nodes'
      ensures Base(nodes'[q]) in owner'.Keys && Base(nodes'[q]).value == Lookup(contents, q)
    {
      if q != p + [c] {
        assert Base(nodes[q]).value == old(Base(nodes[q]).value);
      }
    }
    GrowClosed(nodes.Keys, p, c);
    GrowPlaced(s, nodes, owner, p + [c], child);
  }

  /** Adding a child path of an existing path keeps a set prefix-closed. */
  lemma GrowClosed(paths: set<JString>, p: JString, c: CodeUnit)
    requires PrefixClosed(paths) && p in paths
    ensures PrefixClosed(paths + {p + [c]})
  {
    forall q, c' | q + [c'] in paths + {p + [c]}
      ensures q in paths + {p + [c]}
    {
      SnocInjective(q, c', p, c);
    }
  }

  /** Extending a path by one character is injective. */
  lemma SnocInjective(q: JString, c': CodeUnit, p: JString, c: CodeUnit)
    ensures q + [c'] == p + [c] ==> q == p && c' == c
  {
    if q + [c'] == p + [c] {
      assert (q + [c'])[..|q|] == q && (p + [c])[..|p|] == p;
      assert (q + [c'])[|q|] == c';
    }
  }

  /** A new node whose objects are not yet owned can be placed at a new path. */
  lemma GrowPlaced<V>(s: Strategy, nodes: map<JString, Node<V>>, owner: map<object, JString>, q: JString, child: Node<V>)
    requires forall p {:trigger nodes[p]} :: p in nodes ==> Placed(s, nodes[p], p, owner)
    requires q !in nodes && Fits(s, child) && Link(child) !in owner && Base(child) !in owner
    ensures forall p {:trigger nodes[q := child][p]} :: p in nodes[q := child] ==>
      Placed(s, nodes[q := child][p], p, owner[Base(child) := q][Link(child) := q])
  {
  }

  /** `createTrieNode()`: a fresh node of the strategy with no value and no children. */
  method CreateNode<V>(s: Strategy) returns (n: Node<V>)
    ensures Fits(s, n) && fresh(Objs(n))
    ensures forall c :: Kid(n, c) == None
    ensures Base(n).value == None
  {
    match s
    case CharArrayStrategy(capacity) =>
      var d := new CharArrayNodes.CharArrayTrieNode(capacity);
      n := Dense(d);
    case HashMapStrategy =>
      var h := new HashMapNodes.HashMapTrieNode();
      n := Hashed(h);
    case CharHashMapStrategy =>
      var t := new CharHashMapNodes.CharHashMapTrieNode();
      n := CharHashed(t);
  }

  /** Sets the value of the node at path `p`; the tree is untouched. */
  method Store<V>(s: Strategy, node: Node<V>, value: Option<V>, ghost p: JString,
                  ghost nodes: map<JString, Node<V>>, ghost contents: map<JString, V>, ghost owner: map<object, JString>)
    requires Shaped(s, nodes, owner) && Holds(nodes, contents, owner.Keys)
    requires p in nodes && nodes[p] == node
    modifies Base(node)
    ensures Shaped(s, nodes, owner)
    ensures Holds(nodes, Assign(contents, p, value), owner.Keys)
  {
    Base(node).SetValue(value);
    assert forall q :: q in nodes && q != p ==> Base(nodes[q]) != Base(node);
  }

  /** A trie state: no nodes without a root, the tree of nodes below the root, and the entries in their values. */
  ghost predicate Inv<V>(s: Strategy, root: Option<Node<V>>, nodes: map<JString, Node<V>>, contents: map<JString, V>,
                         owner: map<object, JString>, repr: set<object>)
    reads repr
  {
    && repr == owner.Keys
    && (root.None? ==> nodes == map[])
    && (root.Some? ==> [] in nodes && nodes[[]] == root.value)
    && Shaped(s, nodes, owner)
    && Holds(nodes, contents, repr)
    && [] !in contents
  }

  /** One turn of the loop of `put` at `key[i]`: the child of `node`, created and attached if missing. */
  method Step<V>(s: Strategy, node: Node<V>, key: JString, i: nat,
                 ghost nodes: map<JString, Node<V>>, ghost contents: map<JString, V>, ghost owner: map<object, JString>)
    returns (r: Result<Node<V>, IllegalArgument>, ghost nodes': map<JString, Node<V>>, ghost owner': map<object, JString>)
    requires Shaped(s, nodes, owner) && Holds(nodes, contents, owner.Keys)
    requires i < |key| && key[..i] in nodes && nodes[key[..i]] == node
    modifies Link(node)
    ensures Shaped(s, nodes', owner') && Holds(nodes', contents, owner'.Keys)
    ensures owner'.Keys == owner.Keys || (r.Success? && owner'.Keys == owner.Keys + Objs(r.value) && fresh(Objs(r.value)))
    ensures r.Failure? <==> !Accepts(s, key[i])
    ensures r.Failure? ==> r.error == CharOutOfBounds(key[i]) && nodes' == nodes
    ensures r.Success? ==> nodes' == nodes[key[..i + 1] := r.value]
    ensures r.Success? ==> nodes'.Keys == nodes.Keys + {key[..i + 1]}
  {
    var c := key[i];
    TakeStep(key, i);
    var next := NextOf(node, c);
    if next.Failure? {
      return Failure(next.error), nodes, owner;
    }
    if next.value.None? {
      var child := CreateNode(s);
      nodes', owner' := Attach(s, node, c, child, key[..i], nodes, contents, owner);
      r := Success(child);
    } else {
      r, nodes', owner' := Success(next.value.value), nodes, owner;
    }
  }

  /**
   * The loop of `put`: walks `key` from the root `top`, creating and
   * attaching a node wherever the path breaks, and stops at the first
   * character the strategy rejects.
   */
  method Descend<V>(s: Strategy, top: Node<V>, key: JString,
                    ghost nodes0: map<JString, Node<V>>, ghost contents: map<JString, V>, ghost owner0: map<object, JString>)
    returns (r: Result<Node<V>, IllegalArgument>, ghost nodes: map<JString, Node<V>>, ghost owner: map<object, JString>)
    requires Shaped(s, nodes0, owner0) && Holds(nodes0, contents, owner0.Keys)
    requires [] in nodes0 && nodes0[[]] == top
    modifies owner0.Keys
    ensures Shaped(s, nodes, owner) && Holds(nodes, contents, owner.Keys)
    ensures owner0.Keys <= owner.Keys && fresh(owner.Keys - owner0.Keys)
    ensures Descended(s, key, top, r, nodes0, nodes)
  {
    nodes, owner := nodes0, owner0;
    var node := top;
    var i := 0;
    AlongStart(s, key, top, nodes0);
    while i < |key|
      invariant Shaped(s, nodes, owner) && Holds(nodes, contents, owner.Keys)
      invariant owner0.Keys <= owner.Keys && fresh(owner.Keys - owner0.Keys)
      invariant Along(s, key, i, top, node, nodes0, nodes)
      decreases |key| - i
    {
      var next;
      next, nodes, owner := Advance(s, top, node, key, i, nodes0, nodes, contents, owner);
      if next.Failure? {
        return next, nodes, owner;
      }
      node := next.value;
      i := i + 1;
    }
    AlongStops(s, key, i, top, node, nodes0, nodes, Success(node));
    return Success(node), nodes, owner;
  }

  /** One turn of the loop of `put`, with the walk's progress: on to `key[..i + 1]`, or stopped at a rejected character. */
  method Advance<V>(s: Strategy, top: Node<V>, node: Node<V>, key: JString, i: nat, ghost nodes0: map<JString, Node<V>>,
                    ghost nodes: map<JString, Node<V>>, ghost contents: map<JString, V>, ghost owner: map<object, JString>)
    returns (r: Result<Node<V>, IllegalArgument>, ghost nodes': map<JString, Node<V>>, ghost owner': map<object, JString>)
    requires Shaped(s, nodes, owner) && Holds(nodes, contents, owner.Keys)
    requires Along(s, key, i, top, node, nodes0, nodes) && i < |key|
    modifies Link(node)
    ensures Shaped(s, nodes', owner') && Holds(nodes', contents, owner'.Keys)
    ensures owner'.Keys == owner.Keys || (r.Success? && owner'.Keys == owner.Keys + Objs(r.value) && fresh(Objs(r.value)))
    ensures r.Success? ==> Along(s, key, i + 1, top, r.value, nodes0, nodes')
    ensures r.Failure? ==> Descended(s, key, top, r, nodes0, nodes')
  {
    r, nodes', owner' := Step(s, node, key, i, nodes, contents, owner);
    if r.Failure? {
      AlongStops(s, key, i, top, node, nodes0, nodes, r);
    } else {
      AlongStep(s, key, i, top, node, nodes0, nodes, r.value);
    }
  }

  /** The walk of `put` has reached `key[..i]` at `node`, adding exactly the prefixes of `key[..i]`, without a rejected character. */
  ghost predicate Along<V>(s: Strategy, key: JString, i: nat, top: Node<V>, node: Node<V>,
                           nodes0: map<JString, Node<V>>, nodes: map<JString, Node<V>>) {
    && i <= |key|
    && [] in nodes && nodes[[]] == top
    && key[..i] in nodes && nodes[key[..i]] == node
    && nodes.Keys == nodes0.Keys + Prefixes(key, i)
    && FirstRejected(s, key, i) == FirstRejected(s, key, 0)
  }

  lemma AlongStart<V>(s: Strategy, key: JString, top: Node<V>, nodes0: map<JString, Node<V>>)
    requires [] in nodes0 && nodes0[[]] == top
    ensures Along(s, key, 0, top, top, nodes0, nodes0)
  {
    assert key[..0] == [];
    assert nodes0.Keys == nodes0.Keys + Prefixes(key, 0);
  }

  lemma AlongStep<V>(s: Strategy, key: JString, i: nat, top: Node<V>, node: Node<V>,
                     nodes0: map<JString, Node<V>>, nodes: map<JString, Node<V>>, next: Node<V>)
    requires Along(s, key, i, top, node, nodes0, nodes) && i < |key| && Accepts(s, key[i])
    ensures Along(s, key, i + 1, top, next, nodes0, nodes[key[..i + 1] := next])
  {
    assert key[..i + 1] != [];
    assert nodes[key[..i + 1] := next].Keys == nodes.Keys + {key[..i + 1]};
  }

  /**
   * What the walk of `put` leaves: the root in place; at the end of the key
   * its node, with every prefix of the key added; or the error for the first
   * rejected character, with the prefixes before it added.
   */
  ghost predicate Descended<V>(s: Strategy, key: JString, top: Node<V>, r: Result<Node<V>, IllegalArgument>,
                               nodes0: map<JString, Node<V>>, nodes: map<JString, Node<V>>) {
    && [] in nodes && nodes[[]] == top
    && match r
       case Success(node) =>
         && FirstRejected(s, key, 0).None? && key in nodes && nodes[key] == node
         && nodes.Keys == nodes0.Keys + Prefixes(key, |key|)
       case Failure(e) =>
         && FirstRejected(s, key, 0).Some?
         && e == CharOutOfBounds(key[FirstRejected(s, key, 0).value])
         && nodes.Keys == nodes0.Keys + Prefixes(key, FirstRejected(s, key, 0).value)
  }

  /** Where the walk of `put` stops: at the end of the key, or at the first rejected character. */
  lemma AlongStops<V>(s: Strategy, key: JString, i: nat, top: Node<V>, node: Node<V>,
                      nodes0: map<JString, Node<V>>, nodes: map<JString, Node<V>>, r: Result<Node<V>, IllegalArgument>)
    requires Along(s, key, i, top, node, nodes0, nodes)
    requires r.Success? ==> i == |key| && r.value == node
    requires r.Failure? ==> i < |key| && !Accepts(s, key[i]) && r.error == CharOutOfBounds(key[i])
    ensures Descended(s, key, top, r, nodes0, nodes)
  {
    assert i == |key| ==> key[..i] == key;
  }

  /** The start of the inner `put`: the root, or a fresh node at path [] when there is none. */
  method Plant<V>(s: Strategy, root: Option<Node<V>>,
                  ghost nodes0: map<JString, Node<V>>, ghost contents0: map<JString, V>, ghost owner0: map<object, JString>)
    returns (top: Node<V>, ghost nodes: map<JString, Node<V>>, ghost owner: map<object, JString>)
    requires Inv(s, root, nodes0, contents0, owner0, owner0.Keys)
    ensures Shaped(s, nodes, owner) && Holds(nodes, contents0, owner.Keys)
    ensures owner0.Keys <= owner.Keys && fresh(owner.Keys - owner0.Keys)
    ensures [] in nodes && nodes[[]] == top
    ensures root.Some? ==> top == root.value && nodes == nodes0 && owner == owner0
    ensures nodes.Keys == nodes0.Keys + {[]}
  {
    if root.None? {
      top := CreateNode(s);
      nodes, owner := map[[] := top], owner0[Base(top) := []][Link(top) := []];
      assert forall p, c :: p + [c] !in nodes;
    } else {
      top := root.value;
      nodes, owner := nodes0, owner0;
      assert nodes.Keys == nodes0.Keys + {[]};
    }
  }

  /** The end of the inner `put`: `node.setValue(value)` at the node of `key`, below the root `top`. */
  method Settle<V>(s: Strategy, top: Node<V>, node: Node<V>, key: JString, value: Option<V>,
                   ghost nodes: map<JString, Node<V>>, ghost contents: map<JString, V>, ghost owner: map<object, JString>)
    requires Shaped(s, nodes, owner) && Holds(nodes, contents, owner.Keys)
    requires [] in nodes && nodes[[]] == top && [] !in contents
    requires key != [] && key in nodes && nodes[key] == node
    modifies Base(node)
    ensures Inv(s, Some(top), nodes, Assign(contents, key, value), owner, owner.Keys)
  {
    Store(s, node, value, key, nodes, contents, owner);
  }

  lemma RootAbsorbed(paths: set<JString>, added: set<JString>)
    requires [] in added
    ensures paths + {[]} + added == paths + added
  {
  }

  /** What the walk of `put` leaves, from a start with the root added, is what `PutResult` describes. */
  lemma PutMatches<V>(v: TrieView<V>, key: JString, value: Option<V>, top: Node<V>, d: Result<Node<V>, IllegalArgument>,
                      nodes1: map<JString, Node<V>>, nodes: map<JString, Node<V>>)
    requires key != [] && Descended(v.strategy, key, top, d, nodes1, nodes) && nodes1.Keys == v.paths + {[]}
    ensures d.Failure? && v.paths == {} ==> PutResult(v, key, value) == (Fail(d.error), v)
    ensures d.Failure? && v.paths != {} ==> PutResult(v, key, value) == (Fail(d.error), TrieView(v.strategy, nodes.Keys, v.contents))
    ensures d.Success? ==> PutResult(v, key, value) == (Pass, TrieView(v.strategy, nodes.Keys, Assign(v.contents, key, value)))
  {
    PutOutcome(v, key, value);
    PrefixesHoldRoot(key, |key|);
    RootAbsorbed(v.paths, Prefixes(key, |key|));
    if d.Failure? && v.paths != {} {
      var f := FirstRejected(v.strategy, key, 0).value;
      PrefixesHoldRoot(key, f);
      RootAbsorbed(v.paths, Prefixes(key, f));
    }
  }

  /** A trie state after a `put` that threw below an existing root. */
  lemma Kept<V>(s: Strategy, top: Node<V>, nodes: map<JString, Node<V>>, contents: map<JString, V>, owner: map<object, JString>)
    requires Shaped(s, nodes, owner) && Holds(nodes, contents, owner.Keys)
    requires [] in nodes && nodes[[]] == top && [] !in contents
    ensures Inv(s, Some(top), nodes, contents, owner, owner.Keys)
  {
  }

  /** A trie without a root is a trie state in any heap. */
  lemma Unrooted<V>(s: Strategy, contents: map<JString, V>, owner: map<object, JString>)
    requires contents.Keys <= {}
    ensures Inv(s, None, map[], contents, owner, owner.Keys)
  {
  }

  /** The two outcomes of `PutResult` on a non-empty key, by the first rejected character. */
  lemma PutOutcome<V>(v: TrieView<V>, key: JString, value: Option<V>)
    requires key != []
    ensures FirstRejected(v.strategy, key, 0).Some? ==>
      var f := FirstRejected(v.strategy, key, 0).value;
      PutResult(v, key, value) == (Fail(CharOutOfBounds(key[f])), if v.paths == {} then v else TrieView(v.strategy, v.paths + Prefixes(key, f), v.contents))
    ensures FirstRejected(v.strategy, key, 0).None? ==>
      PutResult(v, key, value) == (Pass, TrieView(v.strategy, v.paths + Prefixes(key, |key|), Assign(v.contents, key, value)))
  {
  }

  /** The inner `get(node, key)`: the value of the node at the end of `key`, null if the walk leaves the tree. */
  method GetAt<V>(s: Strategy, root: Option<Node<V>>, key: JString,
                  ghost nodes: map<JString, Node<V>>, ghost contents: map<JString, V>, ghost owner: map<object, JString>)
    returns (r: Result<Option<V>, IllegalArgument>)
    requires key != [] && Inv(s, root, nodes, contents, owner, owner.Keys)
    ensures r == GetResult(TrieView(s, nodes.Keys, contents), key)
  {
    ghost var v := TrieView(s, nodes.Keys, contents);
    InvConsistent(s, root, nodes, contents, owner);
    WalkStart(v, key);
    var node := root;
    var index := 0;
    while node.Some?
      invariant index <= |key|
      invariant node.Some? ==> OnWalk(nodes.Keys, key, index) && nodes[key[..index]] == node.value
      invariant node.None? ==> GetResult(v, key) == Success(None)
      decreases |key| - index, node.Some?
    {
      if index == |key| {
        WalkArrives(v, key, index);
        return Success(Base(node.value).value);
      }
      var c := key[index];
      TakeStep(key, index);
      var next := NextOf(node.value, c);
      if next.Failure? {
        assert Kid(nodes[key[..index]], c) == None;
        WalkLeaves(v, key, index);
        return Failure(next.error);
      }
      if next.value.None? {
        WalkLeaves(v, key, index);
      } else {
        WalkOn(nodes.Keys, key, index);
      }
      node := next.value;
      index := index + 1;
    }
    return Success(None);
  }

  /** The inner `prefix(node, key)`: the value of the deepest node with a value along the walk of `key`. */
  method PrefixAt<V>(s: Strategy, root: Option<Node<V>>, key: JString,
                     ghost nodes: map<JString, Node<V>>, ghost contents: map<JString, V>, ghost owner: map<object, JString>)
    returns (r: Result<Option<V>, IllegalArgument>)
    requires key != [] && Inv(s, root, nodes, contents, owner, owner.Keys)
    ensures r == PrefixResult(TrieView(s, nodes.Keys, contents), key)
  {
    ghost var v := TrieView(s, nodes.Keys, contents);
    InvConsistent(s, root, nodes, contents, owner);
    WalkStart(v, key);
    var value: Option<V> := None;
    var node := root;
    var index := 0;
    while node.Some?
      invariant index <= |key|
      invariant node.Some? ==> OnWalk(nodes.Keys, key, index) && nodes[key[..index]] == node.value
      invariant node.Some? ==> value == if index == 0 then None else PrefixValue(contents, key, index - 1)
      invariant node.None? ==> PrefixResult(v, key) == Success(value)
      decreases |key| - index, node.Some?
    {
      if Base(node.value).HasValue() {
        value := Base(node.value).GetValue();
      }
      assert value == PrefixValue(contents, key, index);
      if index == |key| {
        WalkArrives(v, key, index);
        break;
      }
      var c := key[index];
      TakeStep(key, index);
      var next := NextOf(node.value, c);
      if next.Failure? {
        assert Kid(nodes[key[..index]], c) == None;
        WalkLeaves(v, key, index);
        return Failure(next.error);
      }
      if next.value.None? {
        WalkLeaves(v, key, index);
      } else {
        WalkOn(nodes.Keys, key, index);
      }
      node := next.value;
      index := index + 1;
    }
    return Success(value);
  }

  /** Every trie state is consistent. */
  lemma InvConsistent<V>(s: Strategy, root: Option<Node<V>>, nodes: map<JString, Node<V>>, contents: map<JString, V>,
                         owner: map<object, JString>)
    requires Inv(s, root, nodes, contents, owner, owner.Keys)
    ensures Consistent(TrieView(s, nodes.Keys, contents))
  {
  }

  /** A walk along `key` that has reached the existing path `key[..index]`. */
  ghost predicate OnWalk(paths: set<JString>, key: JString, index: nat) {
    index <= |key| && key[..index] in paths && Reach(paths, key, index) == Reach(paths, key, 0)
  }

  /** A walk starts at the root, or finds nothing in a trie without one. */
  lemma WalkStart<V>(v: TrieView<V>, key: JString)
    requires Consistent(v) && key != []
    ensures v.paths != {} ==> OnWalk(v.paths, key, 0)
    ensures v.paths == {} ==> WalkFault(v, key).None? && PrefixValue(v.contents, key, |key|).None? && key !in v.contents
  {
    assert key[..0] == [];
    if v.paths == {} {
      PrefixValueMeaning(v.contents, key, |key|);
    }
  }

  /** The walk moves on to the next existing path. */
  lemma WalkOn(paths: set<JString>, key: JString, index: nat)
    requires OnWalk(paths, key, index) && index < |key| && key[..index + 1] in paths
    ensures OnWalk(paths, key, index + 1)
  {
  }

  /**
   * The walk leaves the tree after `key[..index]`: it throws exactly when
   * the strategy rejects the next character, and no longer prefix of
   * `key` is stored.
   */
  lemma WalkLeaves<V>(v: TrieView<V>, key: JString, index: nat)
    requires Consistent(v) && OnWalk(v.paths, key, index)
    requires index < |key| && key[..index + 1] !in v.paths
    ensures WalkFault(v, key) == if Accepts(v.strategy, key[index]) then None else Some(key[index])
    ensures PrefixValue(v.contents, key, |key|) == PrefixValue(v.contents, key, index)
    ensures key !in v.contents
  {
    PrefixStops(v.paths, v.contents, key, index);
    if key in v.paths {
      PrefixClosedDown(v.paths, key, index + 1);
    }
  }

  /** The walk reaches the node of `key` itself. */
  lemma WalkArrives<V>(v: TrieView<V>, key: JString, index: nat)
    requires OnWalk(v.paths, key, index) && index == |key|
    ensures key[..index] == key && WalkFault(v, key).None?
  {
    assert key[..index] == key;
  }

  /** A prefix-closed set holds every prefix of its members. */
  lemma {:induction false} PrefixClosedDown(paths: set<JString>, k: JString, j: nat)
    requires PrefixClosed(paths) && k in paths && j <= |k|
    ensures k[..j] in paths
    decreases |k| - j
  {
    if j < |k| {
      PrefixClosedDown(paths, k, j + 1);
      assert k[..j + 1] == k[..j] + [k[j]];
    } else {
      assert k[..j] == k;
    }
  }

  /** Once a walk leaves a prefix-closed tree, no longer prefix of the key is stored. */
  lemma PrefixStops<V>(paths: set<JString>, contents: map<JString, V>, key: JString, index: nat)
    requires PrefixClosed(paths) && contents.Keys <= paths
    requires index < |key| && key[..index + 1] !in paths
    ensures PrefixValue(contents, key, |key|) == PrefixValue(contents, key, index)
  {
    forall j | index < j <= |key|
      ensures key[..j] !in contents
    {
      if key[..j] in paths {
        PrefixClosedDown(paths, key[..j], index + 1);
        assert key[..j][..index + 1] == key[..index + 1];
      }
    }
    PrefixValueStable(contents, key, index, |key|);
  }

  /** The longest stored prefix does not change over prefixes that are not stored. */
  lemma {:induction false} PrefixValueStable<V>(m: map<JString, V>, k: JString, n: nat, n': nat)
    requires n <= n' <= |k|
    requires forall j :: n < j <= n' ==> k[..j] !in m
    ensures PrefixValue(m, k, n') == PrefixValue(m, k, n)
    decreases n' - n
  {
    if n < n' {
      PrefixValueStable(m, k, n, n' - 1);
    }
  }
}
