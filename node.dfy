/** The storage cell of the ternary search tree (TernarySearchTree/Node.cs). */
module Nodes {

  /**
   * One character position of the key space. `LowerNode`/`HigherNode` hold sibling characters that are
   * smaller/larger than `SplitCharacter`; `EqualNode` continues with the next key position.
   * `value` is the property's private backing field; `default(TValue)` is passed in as `dflt`.
   */
  class Node<V> {
    const SplitCharacter: char
    var HigherNode: Node?<V>
    var EqualNode: Node?<V>
    var LowerNode: Node?<V>
    var HasValue: bool
    var value: V

    /** `new Node<TValue>(splitCharacter)`: no value (the backing field holds the default), no children. */
    constructor (splitCharacter: char, dflt: V)
      ensures SplitCharacter == splitCharacter
      ensures !HasValue && value == dflt
      ensures LowerNode == null && EqualNode == null && HigherNode == null
    {
      SplitCharacter := splitCharacter;
      value := dflt;
      HasValue := false;
      LowerNode, EqualNode, HigherNode := null, null, null;
    }

    /** The `Value` setter: stores the value and marks the node as holding one; the links are untouched. */
    method SetValue(v: V)
      modifies this
      ensures value == v && HasValue
      ensures LowerNode == old(LowerNode) && EqualNode == old(EqualNode) && HigherNode == old(HigherNode)
    {
      value := v;
      HasValue := true;
    }

    /** `ClearValue`: resets the value to the default and unmarks the node; the links are untouched. */
    method ClearValue(dflt: V)
      modifies this
      ensures value == dflt && !HasValue
      ensures LowerNode == old(LowerNode) && EqualNode == old(EqualNode) && HigherNode == old(HigherNode)
    {
      value := dflt;
      HasValue := false;
    }

    /** A node without children and without a value can be detached from its parent. */
    predicate CanBeRemoved()
      reads this
    {
      HigherNode == null && LowerNode == null && EqualNode == null && !HasValue
    }

    /**
     * A node without an equal child, without a value and with exactly one sibling child could be replaced
     * by that child; it is never also removable.
     */
    predicate CanBeSimplified(): (r: bool)
      reads this
      ensures r ==> !CanBeRemoved()
      ensures r ==> (LowerNode == null) != (HigherNode == null)
    {
      EqualNode == null && !HasValue && ((LowerNode == null) != (HigherNode == null))
    }
  }
}
