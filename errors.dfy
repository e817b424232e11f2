/** The reasons for which the trie layer throws IllegalArgumentException. */
module Errors {
  import opened JavaText

  datatype IllegalArgument =
    /** `Assert.hasLength(key, ...)` failed: the key is null or "". */
    | EmptyKey
    /** `new CharArrayTrieNode(capacity)` with a capacity outside [0, 0xffff]. */
    | CapacityOutOfRange(capacity: int)
    /** `CharArrayTrieNode.getIndex(c)`: the character code is not below the node's capacity. */
    | CharOutOfBounds(c: CodeUnit)
}
