/** The state every trie node shares: its value and its size counter (`AbstractTrieNode`). */
module TrieNodeBase {
  import opened Wrappers

  /** A Java `int`. */
  newtype int32 = x: int | -0x8000_0000 <= x < 0x8000_0000

  /**
   * The value and size fields of a node. Each node strategy holds one of
   * these as its `base`, where the Java classes inherit the fields.
   */
  class AbstractTrieNode<V> {
    /** The node value; None is null, i.e. the node terminates no key. */
    var value: Option<V>
    /** The size counter. No trie operation updates it; only `setSize` does. */
    var size: int32

    /** A fresh node has no value and size 0. */
    constructor ()
      ensures value == None && size == 0
    {
      value := None;
      size := 0;
    }

    /** `setSize(n)`: afterwards `getSize() == n`; the value is untouched. */
    method SetSize(n: int32)
      modifies this
      ensures GetSize() == n && value == old(value)
    {
      size := n;
    }

    /** `getSize()`. */
    function GetSize(): int32
      reads this
    {
      size
    }

    /** `setValue(v)`: afterwards `getValue() == v`; the size is untouched. */
    method SetValue(v: Option<V>)
      modifies this
      ensures GetValue() == v && size == old(size)
    {
      value := v;
    }

    /** `getValue()`. */
    function GetValue(): Option<V>
      reads this
    {
      value
    }

    /** `hasValue()`: the value is non-null. Storing null therefore hides a node from `prefix` and `contains`. */
    predicate HasValue()
      reads this
    {
      GetValue().Some?
    }
  }
}
