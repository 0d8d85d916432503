/**
 * The tree engine (TernarySearchTree/Tree.cs): lookup, node creation through the root reference,
 * enumeration and removal on the node graph, each proved against the operation on the represented tree.
 * A C# string argument here is never null; an empty key makes the first `key[0]` throw.
 */
module Tree {
  import opened Wrappers
  import opened Nodes
  import opened TernaryTree
  import opened Positions
  import opened Layout
  import opened Growth
  import opened Creation

  /**
   * `GetNode`: the node the walk of `key` reaches, when the whole key is consumed at a matching node
   * that holds a value; null otherwise. The walk visits at most `Height(t)` nodes.
   */
  method GetNode<V>(root: Node?<V>, key: string, ghost t: Tst<V>, ghost loc: map<Pos, Node<V>>)
    returns (r: Result<Node?<V>>, ghost visited: nat)
    requires Laid(root, t, loc)
    ensures |key| == 0 ==> r == Throw(IndexOutOfRangeException)
    ensures |key| > 0 ==> r == Ok(if LookupFrom(t, key, 0).Some? then Slot(loc, Path(t, key, 0)) else null)
    ensures r.Ok? && r.value != null ==> r.value.HasValue && LookupFrom(t, key, 0) == Some(r.value.value)
    ensures visited <= Height(t)
  {
    visited := 0;
    if |key| == 0 {
      return Throw(IndexOutOfRangeException), visited;
    }
    var currentKeyCharacterIndex := 0;
    var currentKeyCharacter := key[currentKeyCharacterIndex];
    var node := root;
    ghost var p: Pos := [];
    while node != null
      invariant currentKeyCharacterIndex < |key| && currentKeyCharacter == key[currentKeyCharacterIndex]
      invariant WalkTo(t, key, p, 0, currentKeyCharacterIndex)
      invariant node == Slot(loc, p)
      invariant visited + Height(Sub(t, p)) <= Height(t)
      decreases Height(Sub(t, p))
    {
      visited := visited + 1;
      LaidChild(root, t, loc, p, Lo);
      LaidChild(root, t, loc, p, Eq);
      LaidChild(root, t, loc, p, Hi);
      if currentKeyCharacter < node.SplitCharacter {
        WalkToSnoc(t, key, p, 0, currentKeyCharacterIndex, Lo);
        node := node.LowerNode;
        p := p + [Lo];
      } else if currentKeyCharacter > node.SplitCharacter {
        WalkToSnoc(t, key, p, 0, currentKeyCharacterIndex, Hi);
        node := node.HigherNode;
        p := p + [Hi];
      } else {
        currentKeyCharacterIndex := currentKeyCharacterIndex + 1;
        if currentKeyCharacterIndex == |key| {
          WalkToFind(t, key, p, 0, currentKeyCharacterIndex - 1);
          assert p + [] == p;
          return Ok(if node.HasValue then node else null), visited;
        }
        WalkToSnoc(t, key, p, 0, currentKeyCharacterIndex - 1, Eq);
        currentKeyCharacter := key[currentKeyCharacterIndex];
        node := node.EqualNode;
        p := p + [Eq];
      }
    }
    assert Placed(loc, t, p);
    WalkToFind(t, key, p, 0, currentKeyCharacterIndex);
    return Ok(null), visited;
  }

  /**
   * `CreateNodes(ref root, key)`: creates the root if it is null, fills every null link on the walk of
   * `key` with a fresh value-less node holding the current key character, and returns the node where
   * the walk ends. Existing nodes keep their positions; every node at a new position is fresh.
   */
  method CreateNodes<V>(root: Node?<V>, key: string, dflt: V, ghost t: Tst<V>, ghost loc: map<Pos, Node<V>>)
    returns (newRoot: Node?<V>, r: Result<Node<V>>, ghost t': Tst<V>, ghost loc': map<Pos, Node<V>>)
    requires Laid(root, t, loc)
    modifies loc.Values
    ensures |key| == 0 ==> r == Throw(IndexOutOfRangeException) && newRoot == root && t' == t && loc' == loc
    ensures |key| == 0 ==> unchanged(loc.Values)
    ensures |key| > 0 ==> r.Ok? && t' == Grow(t, key, 0, dflt, None) && r.value == Slot(loc', Path(t', key, 0))
    ensures Laid(newRoot, t', loc')
    ensures root != null ==> newRoot == root
    ensures forall p | p in loc :: p in loc' && loc'[p] == loc[p]
    ensures forall p | p in loc' && p !in loc :: fresh(loc'[p])
  {
    newRoot, t', loc' := root, t, loc;
    if |key| == 0 {
      return newRoot, Throw(IndexOutOfRangeException), t', loc';
    }
    var currentKeyCharacterIndex := 0;
    var currentKeyCharacter := key[currentKeyCharacterIndex];
    var node: Node<V>;
    ghost var w, made;
    node, w, made := Root(root, key, currentKeyCharacter, dflt, t, loc);
    newRoot := node;
    ghost var g := w.g;
    while true
      invariant Descending(w, node, loc, made) && w.root == newRoot && w.key == key && w.dflt == dflt && w.g == g
      invariant currentKeyCharacterIndex == w.i && currentKeyCharacter == key[w.i]
      invariant root != null ==> newRoot == root
      invariant fresh(made)
      decreases Height(Sub(g, w.p))
    {
      if currentKeyCharacter < node.SplitCharacter {
        w, made := FillLower(node, currentKeyCharacter, dflt, w, loc, made);
        node := node.LowerNode;
      } else if currentKeyCharacter > node.SplitCharacter {
        w, made := FillHigher(node, currentKeyCharacter, dflt, w, loc, made);
        node := node.HigherNode;
      } else if currentKeyCharacterIndex + 1 < |key| {
        currentKeyCharacterIndex := currentKeyCharacterIndex + 1;
        currentKeyCharacter := key[currentKeyCharacterIndex];
        w, made := FillEqual(node, currentKeyCharacter, dflt, w, loc, made);
        node := node.EqualNode;
      } else {
        DescendingEnd(w, node, loc, made);
        return newRoot, Ok(node), w.t, w.loc;
      }
    }
  }

  /** `GetAllKeys(node, key)`: the keys of the valued nodes, in pre-order, each prefixed by `key`. */
  function GetAllKeys<V>(node: Node?<V>, key: string, ghost t: Tst<V>, ghost repr: set<Node<V>>): (r: seq<string>)
    requires Shape(node, t, repr)
    reads repr
    ensures r == Keys(t, key)
    decreases t
  {
    if node == null then []
    else
      (if node.HasValue then [key + [node.SplitCharacter]] else []) +
      GetAllKeys(node.LowerNode, key, t.lower, repr) +
      GetAllKeys(node.EqualNode, key + [node.SplitCharacter], t.equal, repr) +
      GetAllKeys(node.HigherNode, key, t.higher, repr)
  }

  /** `GetAllValues(node)`: the values of the valued nodes, in the same pre-order. */
  function GetAllValues<V>(node: Node?<V>, ghost t: Tst<V>, ghost repr: set<Node<V>>): (r: seq<V>)
    requires Shape(node, t, repr)
    reads repr
    ensures r == Values(t)
    decreases t
  {
    if node == null then []
    else
      (if node.HasValue then [node.value] else []) +
      GetAllValues(node.LowerNode, t.lower, repr) +
      GetAllValues(node.EqualNode, t.equal, repr) +
      GetAllValues(node.HigherNode, t.higher, repr)
  }

  /** `GetAllKeyValuePairs(node, key)`: key/value pairs of the valued nodes, in the same pre-order. */
  function GetAllKeyValuePairs<V>(node: Node?<V>, key: string, ghost t: Tst<V>, ghost repr: set<Node<V>>): (r: seq<(string, V)>)
    requires Shape(node, t, repr)
    reads repr
    ensures r == Pairs(t, key)
    decreases t
  {
    if node == null then []
    else
      (if node.HasValue then [(key + [node.SplitCharacter], node.value)] else []) +
      GetAllKeyValuePairs(node.LowerNode, key, t.lower, repr) +
      GetAllKeyValuePairs(node.EqualNode, key + [node.SplitCharacter], t.equal, repr) +
      GetAllKeyValuePairs(node.HigherNode, key, t.higher, repr)
  }

  /**
   * `RemoveNode(node, key, keyIndex)` on the node at position `p`, as written: the subtree at `p` becomes
   * the one `Remove` computes, and the result is `Remove`'s flag. Only null links and cleared values are
   * written; no node changes position.
   */
  method RemoveNode<V>(node: Node<V>, key: string, keyIndex: nat, dflt: V,
                       ghost root: Node?<V>, ghost t: Tst<V>, ghost loc: map<Pos, Node<V>>, ghost p: Pos)
    returns (r: bool, ghost t': Tst<V>, ghost loc': map<Pos, Node<V>>)
    requires Laid(root, t, loc) && p in loc && loc[p] == node
    requires keyIndex < |key| && Safe(Sub(t, p), key, keyIndex, dflt)
    modifies loc.Values
    ensures t' == Replace(t, p, Remove(Sub(t, p), key, keyIndex, dflt).0)
    ensures r == Remove(Sub(t, p), key, keyIndex, dflt).1
    ensures Laid(root, t', loc')
    ensures p in loc' && forall q | q in loc' :: q in loc && loc'[q] == loc[q]
    decreases Sub(t, p), 1
  {
    ghost var s := Sub(t, p);
    ghost var m := s;
    ForkIsSlot(t, p);
    ReplaceSelf(t, p);
    LaidChild(root, t, loc, p, Lo);
    t', loc' := t, loc;
    var currentKeyCharacter := key[keyIndex];

    if currentKeyCharacter < node.SplitCharacter {
      var removedLower;
      removedLower, t', loc' := PruneLower(node, key, keyIndex, dflt, root, t, loc, p);
      m := Sub(t, p).(lower := if removedLower then Nil else Remove(s.lower, key, keyIndex, dflt).0);
      ReplaceAt(t, p, m);
      if removedLower {
        r := node.CanBeRemoved();
        LaidRemovable(root, t', loc', p);
        return;
      }
    }

    if currentKeyCharacter > node.SplitCharacter {
      ghost var t1 := t';
      var removedHigher;
      removedHigher, t', loc' := PruneHigher(node, key, keyIndex, dflt, root, t1, loc', p);
      ghost var m1 := m.(higher := if removedHigher then Nil else Remove(s.higher, key, keyIndex, dflt).0);
      ReplaceReplace(t, p, m, m1);
      m := m1;
      ReplaceAt(t, p, m);
      if removedHigher {
        r := node.CanBeRemoved();
        LaidRemovable(root, t', loc', p);
        return;
      }
    }

    if keyIndex < |key| - 1 {
      ghost var t1 := t';
      var removedEqual;
      removedEqual, t', loc' := PruneEqual(node, key, keyIndex, dflt, root, t1, loc', p);
      ghost var m1 := m.(equal := if removedEqual then Nil else Remove(s.equal, key, keyIndex + 1, dflt).0);
      ReplaceReplace(t, p, m, m1);
      m := m1;
      ReplaceAt(t, p, m);
      if removedEqual {
        r := node.CanBeRemoved();
        LaidRemovable(root, t', loc', p);
        return;
      }
    }

    LaidChild(root, t', loc', p, Eq);
    if !node.HasValue {
      return false, t', loc';
    }

    ClearAt(node, dflt, root, t', loc', p);
    ghost var m1 := m.(hasValue := false, value := dflt);
    ReplaceReplace(t, p, m, m1);
    t' := Replace(t', p, m1);
    ReplaceAt(t, p, m1);
    r := node.CanBeRemoved();
    LaidRemovable(root, t', loc', p);
  }

  /**
   * `RemoveNode(node.LowerNode, key, keyIndex)` and, when it returns true, `node.LowerNode = null`: one of the
   * tests of `RemoveNode` on the node at `p`. The lower subtree there becomes what `Remove` makes of it,
   * or goes when `Remove` reports it removable.
   */
  method PruneLower<V>(node: Node<V>, key: string, keyIndex: nat, dflt: V,
                      ghost root: Node?<V>, ghost t: Tst<V>, ghost loc: map<Pos, Node<V>>, ghost p: Pos)
    returns (removed: bool, ghost t': Tst<V>, ghost loc': map<Pos, Node<V>>)
    requires Laid(root, t, loc) && p in loc && loc[p] == node
    requires keyIndex < |key| && Sub(t, p).Fork? && Safe(Sub(t, p).lower, key, keyIndex, dflt)
    modifies loc.Values
    ensures removed == Remove(Sub(t, p).lower, key, keyIndex, dflt).1
    ensures t' == Replace(t, p, Sub(t, p).(lower := if removed then Nil else Remove(Sub(t, p).lower, key, keyIndex, dflt).0))
    ensures Laid(root, t', loc')
    ensures p in loc' && forall q | q in loc' :: q in loc && loc'[q] == loc[q]
    decreases Sub(t, p).lower, 2
  {
    ghost var s := Sub(t, p);
    ghost var x := Remove(s.lower, key, keyIndex, dflt).0;
    LaidChild(root, t, loc, p, Lo);
    removed, t', loc' := RemoveNode(node.LowerNode, key, keyIndex, dflt, root, t, loc, p + [Lo]);
    ChildIsSlot(t, p, Lo);
    ReplaceAt(t, p + [Lo], x);
    ForkIsSlot(t, p);
    ReplaceSelf(t, p);
    ReplaceChildOf(t, p, s, Lo, x);
    AfterChildCall(root, t', loc', p, s.(lower := x), loc);
    if removed {
      label B:
      node.LowerNode := null;
      Detach@B(Site(root, t', loc', p, Lo));
      ReplaceChildOf(t, p, s.(lower := x), Lo, Nil);
      t', loc' := Replace(t', p + [Lo], Nil), loc' - {p + [Lo]};
    }
  }

  /**
   * `RemoveNode(node.HigherNode, key, keyIndex)` and, when it returns true, `node.HigherNode = null`: one of the
   * tests of `RemoveNode` on the node at `p`. The higher subtree there becomes what `Remove` makes of it,
   * or goes when `Remove` reports it removable.
   */
  method PruneHigher<V>(node: Node<V>, key: string, keyIndex: nat, dflt: V,
                      ghost root: Node?<V>, ghost t: Tst<V>, ghost loc: map<Pos, Node<V>>, ghost p: Pos)
    returns (removed: bool, ghost t': Tst<V>, ghost loc': map<Pos, Node<V>>)
    requires Laid(root, t, loc) && p in loc && loc[p] == node
    requires keyIndex < |key| && Sub(t, p).Fork? && Safe(Sub(t, p).higher, key, keyIndex, dflt)
    modifies loc.Values
    ensures removed == Remove(Sub(t, p).higher, key, keyIndex, dflt).1
    ensures t' == Replace(t, p, Sub(t, p).(higher := if removed then Nil else Remove(Sub(t, p).higher, key, keyIndex, dflt).0))
    ensures Laid(root, t', loc')
    ensures p in loc' && forall q | q in loc' :: q in loc && loc'[q] == loc[q]
    decreases Sub(t, p).higher, 2
  {
    ghost var s := Sub(t, p);
    ghost var x := Remove(s.higher, key, keyIndex, dflt).0;
    LaidChild(root, t, loc, p, Hi);
    removed, t', loc' := RemoveNode(node.HigherNode, key, keyIndex, dflt, root, t, loc, p + [Hi]);
    ChildIsSlot(t, p, Hi);
    ReplaceAt(t, p + [Hi], x);
    ForkIsSlot(t, p);
    ReplaceSelf(t, p);
    ReplaceChildOf(t, p, s, Hi, x);
    AfterChildCall(root, t', loc', p, s.(higher := x), loc);
    if removed {
      label B:
      node.HigherNode := null;
      Detach@B(Site(root, t', loc', p, Hi));
      ReplaceChildOf(t, p, s.(higher := x), Hi, Nil);
      t', loc' := Replace(t', p + [Hi], Nil), loc' - {p + [Hi]};
    }
  }

  /**
   * `RemoveNode(node.EqualNode, key, keyIndex + 1)` and, when it returns true, `node.EqualNode = null`: one of the
   * tests of `RemoveNode` on the node at `p`. The equal subtree there becomes what `Remove` makes of it,
   * or goes when `Remove` reports it removable.
   */
  method PruneEqual<V>(node: Node<V>, key: string, keyIndex: nat, dflt: V,
                      ghost root: Node?<V>, ghost t: Tst<V>, ghost loc: map<Pos, Node<V>>, ghost p: Pos)
    returns (removed: bool, ghost t': Tst<V>, ghost loc': map<Pos, Node<V>>)
    requires Laid(root, t, loc) && p in loc && loc[p] == node
    requires keyIndex + 1 < |key| && Sub(t, p).Fork? && Safe(Sub(t, p).equal, key, keyIndex + 1, dflt)
    modifies loc.Values
    ensures removed == Remove(Sub(t, p).equal, key, keyIndex + 1, dflt).1
    ensures t' == Replace(t, p, Sub(t, p).(equal := if removed then Nil else Remove(Sub(t, p).equal, key, keyIndex + 1, dflt).0))
    ensures Laid(root, t', loc')
    ensures p in loc' && forall q | q in loc' :: q in loc && loc'[q] == loc[q]
    decreases Sub(t, p).equal, 2
  {
    ghost var s := Sub(t, p);
    ghost var x := Remove(s.equal, key, keyIndex + 1, dflt).0;
    LaidChild(root, t, loc, p, Eq);
    removed, t', loc' := RemoveNode(node.EqualNode, key, keyIndex + 1, dflt, root, t, loc, p + [Eq]);
    ChildIsSlot(t, p, Eq);
    ReplaceAt(t, p + [Eq], x);
    ForkIsSlot(t, p);
    ReplaceSelf(t, p);
    ReplaceChildOf(t, p, s, Eq, x);
    AfterChildCall(root, t', loc', p, s.(equal := x), loc);
    if removed {
      label B:
      node.EqualNode := null;
      Detach@B(Site(root, t', loc', p, Eq));
      ReplaceChildOf(t, p, s.(equal := x), Eq, Nil);
      t', loc' := Replace(t', p + [Eq], Nil), loc' - {p + [Eq]};
    }
  }

  /** `node.ClearValue()` on the node at `p`: the subtree there loses its value and nothing else changes. */
  method ClearAt<V>(node: Node<V>, dflt: V, ghost root: Node?<V>, ghost t: Tst<V>, ghost loc: map<Pos, Node<V>>, ghost p: Pos)
    requires Laid(root, t, loc) && p in loc && loc[p] == node
    modifies node
    ensures Sub(t, p).Fork? && Laid(root, Replace(t, p, Sub(t, p).(hasValue := false, value := dflt)), loc)
  {
    label C:
    node.ClearValue(dflt);
    SetFields@C(Site(root, t, loc, p, Eq));
  }

  /** After a recursive call below `p`, the node at `p` is still laid out there and mirrors `n`. */
  lemma AfterChildCall<V>(root: Node?<V>, t': Tst<V>, loc': map<Pos, Node<V>>, p: Pos, n: Tst<V>, loc: map<Pos, Node<V>>)
    requires Laid(root, t', loc') && p in loc
    requires forall r | r in loc' :: r in loc && loc'[r] == loc[r]
    requires IsSlot(t', p) && Sub(t', p) == n && n.Fork?
    ensures p in loc' && loc'[p] == loc[p]
    ensures loc'.Values <= loc.Values
  {
    assert Placed(loc', t', p);
  }
}
