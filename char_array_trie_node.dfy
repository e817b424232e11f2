/** A node whose children sit in an array indexed by character code (`CharArrayTrieNode`). */
module CharArrayNodes {
  import opened Wrappers
  import opened JavaText
  import opened Errors
  import opened TrieNodeBase

  /** The default number of child slots. It is 0xffff, so U+FFFF itself never has a slot. */
  const R: int := 0xffff

  /** The capacities the constructor accepts. */
  type Capacity = n: int | 0 <= n <= R

  class CharArrayTrieNode<V> {
    /** The inherited value and size fields. */
    const base: AbstractTrieNode<V>
    /** The child slots; slot `i` holds the child for the character with code `i`. */
    const next: array<CharArrayTrieNode?<V>>

    /** `new CharArrayTrieNode(capacity)` for a capacity in range: no value, size 0, every slot empty. */
    constructor (capacity: Capacity)
      ensures fresh(base) && fresh(next)
      ensures next.Length == capacity
      ensures forall i :: 0 <= i < next.Length ==> next[i] == null
      ensures base.value == None && base.size == 0
    {
      base := new AbstractTrieNode();
      next := new CharArrayTrieNode?<V>[capacity](_ => null);
    }

    /** `new CharArrayTrieNode()`: the default capacity R. */
    constructor Default()
      ensures fresh(base) && fresh(next)
      ensures next.Length == R
      ensures forall i :: 0 <= i < next.Length ==> next[i] == null
      ensures base.value == None && base.size == 0
    {
      base := new AbstractTrieNode();
      next := new CharArrayTrieNode?<V>[R](_ => null);
    }

    /**
     * `new CharArrayTrieNode(capacity)` for any `int`: it throws exactly when
     * the capacity is outside [0, R].
     */
    static method Create(capacity: int) returns (r: Result<CharArrayTrieNode<V>, IllegalArgument>)
      ensures r.Failure? <==> capacity < 0 || capacity > R
      ensures r.Failure? ==> r.error == CapacityOutOfRange(capacity)
      ensures r.Success? ==> var n := r.value;
        && fresh(n) && fresh(n.base) && fresh(n.next)
        && n.next.Length == capacity
        && (forall i :: 0 <= i < n.next.Length ==> n.next[i] == null)
        && n.base.value == None && n.base.size == 0
    {
      if capacity < 0 || capacity > R {
        return Failure(CapacityOutOfRange(capacity));
      }
      var n := new CharArrayTrieNode(capacity);
      return Success(n);
    }

    /** `getIndex(c)`: a character is accepted exactly when its code is below the capacity, and its slot is its code. */
    function GetIndex(c: CodeUnit): (r: Result<nat, IllegalArgument>)
      ensures r.Success? <==> (c as int) < next.Length
      ensures r.Success? ==> r.value == c as int
      ensures r.Failure? ==> r.error == CharOutOfBounds(c)
    {
      if (c as int) >= next.Length then Failure(CharOutOfBounds(c)) else Success(c as int)
    }

    /** `getNext(c)`: the child in slot `c`, or the exception of `getIndex`. */
    function GetNext(c: CodeUnit): (r: Result<CharArrayTrieNode?<V>, IllegalArgument>)
      reads next
      ensures r.Failure? <==> (c as int) >= next.Length
      ensures r.Success? ==> r.value == next[c as int]
    {
      match GetIndex(c)
      case Failure(e) => Failure(e)
      case Success(i) => Success(next[i])
    }

    /** `setNext(c, n)`: slot `c` becomes `n` and no other slot changes; it throws for a code at or above the capacity. */
    method SetNext(c: CodeUnit, n: CharArrayTrieNode?<V>) returns (r: Outcome<IllegalArgument>)
      modifies next
      ensures r == if (c as int) < next.Length then Pass else Fail(CharOutOfBounds(c))
      ensures r.Pass? ==> GetNext(c) == Success(n)
      ensures next[..] == if r.Pass? then old(next[..])[c as int := n] else old(next[..])
    {
      match GetIndex(c)
      case Failure(e) =>
        return Fail(e);
      case Success(i) =>
        next[i] := n;
        return Pass;
    }

    /** `removeNext(c)`: slot `c` becomes empty and no other slot changes; it throws like `setNext`. */
    method RemoveNext(c: CodeUnit) returns (r: Outcome<IllegalArgument>)
      modifies next
      ensures r == if (c as int) < next.Length then Pass else Fail(CharOutOfBounds(c))
      ensures r.Pass? ==> GetNext(c) == Success(null)
      ensures next[..] == if r.Pass? then old(next[..])[c as int := null] else old(next[..])
    {
      match GetIndex(c)
      case Failure(e) =>
        return Fail(e);
      case Success(i) =>
        next[i] := null;
        return Pass;
    }
  }

  /** At the default capacity every character but U+FFFF has a slot. */
  lemma DefaultCapacityExcludesFFFF(c: CodeUnit)
    ensures (c as int) < R <==> c != '\U{FFFF}'
  {
  }
}
