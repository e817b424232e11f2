/** A node whose children sit in a `java.util.HashMap<Character, HashMapTrieNode>` (`HashMapTrieNode`), modelled as a Dafny map. */
module HashMapNodes {
  import opened Wrappers
  import opened JavaText
  import opened TrieNodeBase

  class HashMapTrieNode<V> {
    /** The inherited value and size fields. */
    const base: AbstractTrieNode<V>
    /** The children by character; any character is accepted, with no capacity bound. */
    var next: map<CodeUnit, HashMapTrieNode?<V>>

    /** A fresh node: no value, size 0, no children. */
    constructor ()
      ensures fresh(base) && base.value == None && base.size == 0
      ensures next == map[]
      ensures forall c :: GetNext(c) == null
    {
      base := new AbstractTrieNode();
      next := map[];
    }

    /** `setNext(c, n)`: afterwards `getNext(c) == n`, replacing any earlier child; every other character keeps its child. */
    method SetNext(c: CodeUnit, n: HashMapTrieNode?<V>)
      modifies this
      ensures next == old(next)[c := n]
      ensures GetNext(c) == n
      ensures forall d :: d != c ==> GetNext(d) == old(GetNext(d))
    {
      next := next[c := n];
    }

    /** `getNext(c)`: the child for `c`, or null. */
    function GetNext(c: CodeUnit): HashMapTrieNode?<V>
      reads this
    {
      if c in next then next[c] else null
    }
  }
}
