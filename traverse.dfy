/**
 * The second copy of the lookup and enumeration functions (TernarySearchTree/Traverse.cs). The code is
 * the same as in `Tree`; each member here is proved against the represented tree on its own and shown
 * to agree with its `Tree` counterpart.
 */
module Traverse {
  import opened Wrappers
  import opened Nodes
  import opened TernaryTree
  import opened Positions
  import opened Layout
  import Tree

  /**
   * `GetNode`: the node the walk of `key` reaches, when the whole key is consumed at a matching node
   * that holds a value; null otherwise. The walk visits at most `Height(t)` nodes.
   */
  method GetNode<V>(node: Node?<V>, key: string, ghost t: Tst<V>, ghost loc: map<Pos, Node<V>>)
    returns (r: Result<Node?<V>>, ghost visited: nat)
    requires Laid(node, t, loc)
    ensures |key| == 0 ==> r == Throw(IndexOutOfRangeException)
    ensures |key| > 0 ==> r == Ok(if LookupFrom(t, key, 0).Some? then Slot(loc, Path(t, key, 0)) else null)
    ensures r.Ok? && r.value != null ==> r.value.HasValue && LookupFrom(t, key, 0) == Some(r.value.value)
    ensures visited <= Height(t)
  {
    visited := 0;
    if |key| == 0 {
      return Throw(IndexOutOfRangeException), visited;
    }
    var currentKeyCharacterIndex := 0;
    var currentKeyCharacter := key[currentKeyCharacterIndex];
    var current := node;
    ghost var p: Pos := [];
    while current != null
      invariant currentKeyCharacterIndex < |key| && currentKeyCharacter == key[currentKeyCharacterIndex]
      invariant WalkTo(t, key, p, 0, currentKeyCharacterIndex)
      invariant current == Slot(loc, p)
      invariant visited + Height(Sub(t, p)) <= Height(t)
      decreases Height(Sub(t, p))
    {
      visited := visited + 1;
      LaidChild(node, t, loc, p, Lo);
      LaidChild(node, t, loc, p, Eq);
      LaidChild(node, t, loc, p, Hi);
      if currentKeyCharacter < current.SplitCharacter {
        WalkToSnoc(t, key, p, 0, currentKeyCharacterIndex, Lo);
        current := current.LowerNode;
        p := p + [Lo];
      } else if currentKeyCharacter > current.SplitCharacter {
        WalkToSnoc(t, key, p, 0, currentKeyCharacterIndex, Hi);
        current := current.HigherNode;
        p := p + [Hi];
      } else {
        currentKeyCharacterIndex := currentKeyCharacterIndex + 1;
        if currentKeyCharacterIndex == |key| {
          WalkToFind(t, key, p, 0, currentKeyCharacterIndex - 1);
          assert p + [] == p;
          return Ok(if current.HasValue then current else null), visited;
        }
        WalkToSnoc(t, key, p, 0, currentKeyCharacterIndex - 1, Eq);
        currentKeyCharacter := key[currentKeyCharacterIndex];
        current := current.EqualNode;
        p := p + [Eq];
      }
    }
    assert Placed(loc, t, p);
    WalkToFind(t, key, p, 0, currentKeyCharacterIndex);
    return Ok(null), visited;
  }

  /** The two copies of `GetNode` return the same for every tree and key. */
  method GetNodeAgrees<V>(root: Node?<V>, key: string, ghost t: Tst<V>, ghost loc: map<Pos, Node<V>>)
    returns (fromTree: Result<Node?<V>>, fromTraverse: Result<Node?<V>>)
    requires Laid(root, t, loc)
    ensures fromTree == fromTraverse
  {
    ghost var visited: nat;
    fromTree, visited := Tree.GetNode(root, key, t, loc);
    fromTraverse, visited := GetNode(root, key, t, loc);
  }

  /** `GetAllKeys(node, key)`: the same keys, in the same order, as `Tree.GetAllKeys`. */
  function GetAllKeys<V>(node: Node?<V>, key: string, ghost t: Tst<V>, ghost repr: set<Node<V>>): (r: seq<string>)
    requires Shape(node, t, repr)
    reads repr
    ensures r == Tree.GetAllKeys(node, key, t, repr)
    ensures node == null ==> r == []
    decreases t
  {
    if node == null then []
    else
      (if node.HasValue then [key + [node.SplitCharacter]] else []) +
      GetAllKeys(node.LowerNode, key, t.lower, repr) +
      GetAllKeys(node.EqualNode, key + [node.SplitCharacter], t.equal, repr) +
      GetAllKeys(node.HigherNode, key, t.higher, repr)
  }

  /** `GetAllValues(node)`: the same values, in the same order, as `Tree.GetAllValues`. */
  function GetAllValues<V>(node: Node?<V>, ghost t: Tst<V>, ghost repr: set<Node<V>>): (r: seq<V>)
    requires Shape(node, t, repr)
    reads repr
    ensures r == Tree.GetAllValues(node, t, repr)
    ensures node == null ==> r == []
    decreases t
  {
    if node == null then []
    else
      (if node.HasValue then [node.value] else []) +
      GetAllValues(node.LowerNode, t.lower, repr) +
      GetAllValues(node.EqualNode, t.equal, repr) +
      GetAllValues(node.HigherNode, t.higher, repr)
  }

  /** `GetAllKeyValuePairs(node, key)`: the same pairs, in the same order, as `Tree.GetAllKeyValuePairs`. */
  function GetAllKeyValuePairs<V>(node: Node?<V>, key: string, ghost t: Tst<V>, ghost repr: set<Node<V>>): (r: seq<(string, V)>)
    requires Shape(node, t, repr)
    reads repr
    ensures r == Tree.GetAllKeyValuePairs(node, key, t, repr)
    ensures node == null ==> r == []
    decreases t
  {
    if node == null then []
    else
      (if node.HasValue then [(key + [node.SplitCharacter], node.value)] else []) +
      GetAllKeyValuePairs(node.LowerNode, key, t.lower, repr) +
      GetAllKeyValuePairs(node.EqualNode, key + [node.SplitCharacter], t.equal, repr) +
      GetAllKeyValuePairs(node.HigherNode, key, t.higher, repr)
  }
}
