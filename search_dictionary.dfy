/**
 * The public dictionary (TernarySearchTree/SearchDictionary.cs): a root reference and a count over the
 * node graph. The ghost fields name the represented tree and its layout; every operation is proved to
 * act on them as the `Dictionary` functions describe, and to keep `Count` equal to the number of values.
 */
module Facade {
  import opened Wrappers
  import opened Nodes
  import opened TernaryTree
  import opened Positions
  import opened Layout
  import opened Growth
  import opened Creation
  import opened Dictionary
  import Tree

  class SearchDictionary<V> {
    var root: Node?<V>
    var Count: int
    /** `default(TValue)`. */
    const Default: V
    ghost var T: Tst<V>
    ghost var Loc: map<Pos, Node<V>>

    /** The nodes lay out `T`, `Count` counts its values, and the tree keeps the dictionary's invariant. */
    ghost predicate Valid()
      reads this, Loc.Values
    {
      Laid(root, T, Loc) && Count == CountValues(T) && Invariant(T, Default)
    }

    /** A new dictionary: no root, no items. */
    constructor (dflt: V)
      ensures Valid() && T == Nil && Count == 0 && Default == dflt
    {
      root := null;
      Count := 0;
      Default := dflt;
      T := Nil;
      Loc := map[];
      LaidEmpty<V>();
    }

    /** The indexer's getter: the value of the node `FindNodeByKey` returns, or `KeyNotFoundException`. */
    method GetItem(key: Option<string>) returns (r: Result<V>)
      requires Valid()
      ensures r == Item(T, key)
    {
      var found := FindNodeByKey(root, key, T, Loc);
      if found.Throw? {
        return Throw(found.error);
      }
      var wildcardDictionaryNode := found.value;
      if wildcardDictionaryNode == null {
        return Throw(KeyNotFoundException(KeyNotPresent));
      }
      return Ok(wildcardDictionaryNode.value);
    }

    /** The indexer's setter: `Insert(key, value, false)`. */
    method SetItem(key: Option<string>, value: V) returns (r: Outcome)
      requires Valid()
      modifies this, Loc.Values
      ensures Valid()
      ensures var x := Inserted(old(T), key, value, false, Default);
              if x.Ok? then r == Pass && T == x.value else r == Fail(x.error) && T == old(T)
    {
      r := Insert(key, value, false);
    }

    /** `Add`: `Insert(key, value, true)`, which refuses a key that already holds a value. */
    method Add(key: Option<string>, value: V) returns (r: Outcome)
      requires Valid()
      modifies this, Loc.Values
      ensures Valid()
      ensures var x := Inserted(old(T), key, value, true, Default);
              if x.Ok? then r == Pass && T == x.value else r == Fail(x.error) && T == old(T)
    {
      r := Insert(key, value, true);
    }

    /** `ContainsKey`: a node is found and holds a value. */
    method ContainsKey(key: Option<string>) returns (r: Result<bool>)
      requires Valid()
      ensures r == Contains(T, key)
    {
      var found := FindNodeByKey(root, key, T, Loc);
      if found.Throw? {
        return Throw(found.error);
      }
      var treeWildcardDictionaryNode := found.value;
      return Ok(treeWildcardDictionaryNode != null && treeWildcardDictionaryNode.HasValue);
    }

    /** `TryGetValue`: the flag it returns and its `out` value. */
    method TryGetValue(key: Option<string>) returns (r: Result<(bool, V)>)
      requires Valid()
      ensures r == TryGet(T, key, Default)
    {
      var found := FindNodeByKey(root, key, T, Loc);
      if found.Throw? {
        return Throw(found.error);
      }
      var node := found.value;
      if node == null {
        return Ok((false, Default));
      }
      return Ok((true, node.value));
    }

    /** `Clear`: drops the root and resets the count. */
    method Clear()
      requires Valid()
      modifies this
      ensures Valid() && T == Nil && root == null && Count == 0
    {
      root := null;
      Count := 0;
      T := Nil;
      Loc := map[];
      LaidEmpty<V>();
    }

    /** `StartsWith`: the found node's value, then `GetAllValues` of its equal child. */
    method StartsWith(startOfKey: Option<string>) returns (r: Result<seq<V>>)
      requires Valid()
      ensures r == Dictionary.StartsWith(T, startOfKey)
    {
      var found := FindNodeByKey(root, startOfKey, T, Loc);
      if found.Throw? {
        return Throw(found.error);
      }
      var node := found.value;
      if node == null {
        return Ok([]);
      }
      ghost var p := Path(T, startOfKey.value, 0);
      assert Placed(Loc, T, p);
      LaidChild(root, T, Loc, p, Eq);
      LaidShape(root, T, Loc, p + [Eq]);
      return Ok([node.value] + Tree.GetAllValues(node.EqualNode, Sub(T, p + [Eq]), Loc.Values));
    }

    /**
     * `FindNodeByKey(node, key)`: the node where the whole key is consumed at a matching node, whether
     * or not it holds a value; null when the walk falls off the tree.
     */
    static method FindNodeByKey(node: Node?<V>, key: Option<string>, ghost t: Tst<V>, ghost loc: map<Pos, Node<V>>)
      returns (r: Result<Node?<V>>)
      requires Laid(node, t, loc)
      ensures Located(t, key).Throw? ==> r == Throw(Located(t, key).error)
      ensures Located(t, key).Ok? ==> r == Ok(Slot(loc, Path(t, key.value, 0)))
      ensures Located(t, key).Ok? ==> (r.value == null <==> Located(t, key).value.Nil?)
      ensures r.Ok? && r.value != null ==> Mirrors(r.value, Located(t, key).value)
    {
      if key.None? {
        return Throw(NullReferenceException);
      }
      var k := key.value;
      if |k| == 0 {
        return Throw(IndexOutOfRangeException);
      }
      var currentKeyCharacterIndex := 0;
      var currentKeyCharacter := k[currentKeyCharacterIndex];
      var current := node;
      ghost var p: Pos := [];
      while current != null
        invariant currentKeyCharacterIndex < |k| && currentKeyCharacter == k[currentKeyCharacterIndex]
        invariant WalkTo(t, k, p, 0, currentKeyCharacterIndex)
        invariant current == Slot(loc, p)
        decreases Height(Sub(t, p))
      {
        LaidChild(node, t, loc, p, Lo);
        LaidChild(node, t, loc, p, Eq);
        LaidChild(node, t, loc, p, Hi);
        if currentKeyCharacter < current.SplitCharacter {
          WalkToSnoc(t, k, p, 0, currentKeyCharacterIndex, Lo);
          current := current.LowerNode;
          p := p + [Lo];
        } else if currentKeyCharacter > current.SplitCharacter {
          WalkToSnoc(t, k, p, 0, currentKeyCharacterIndex, Hi);
          current := current.HigherNode;
          p := p + [Hi];
        } else {
          currentKeyCharacterIndex := currentKeyCharacterIndex + 1;
          if currentKeyCharacterIndex == |k| {
            WalkToFind(t, k, p, 0, currentKeyCharacterIndex - 1);
            assert p + [] == p;
            return Ok(current);
          }
          WalkToSnoc(t, k, p, 0, currentKeyCharacterIndex - 1, Eq);
          currentKeyCharacter := k[currentKeyCharacterIndex];
          current := current.EqualNode;
          p := p + [Eq];
        }
      }
      assert Placed(loc, t, p);
      WalkToFind(t, k, p, 0, currentKeyCharacterIndex);
      assert Placed(loc, t, Path(t, k, 0));
      return Ok(null);
    }

    /**
     * `Insert(key, value, checkIfKeyExists)`: checks the key, creates the root if there is none, walks
     * the key creating every missing node, and at the last character either refuses a key that holds a
     * value (when asked to) or stores the value, counting it when the node had none.
     */
    method Insert(key: Option<string>, value: V, checkIfKeyExists: bool) returns (r: Outcome)
      requires Valid()
      modifies this, Loc.Values
      ensures Valid()
      ensures var x := Inserted(old(T), key, value, checkIfKeyExists, Default);
              if x.Ok? then r == Pass && T == x.value else r == Fail(x.error) && T == old(T)
    {
      if key.None? {
        return Fail(ArgumentNullException("key"));
      }
      var k := key.value;
      if |k| == 0 {
        return Fail(ArgumentException(KeyEmpty, "key"));
      }
      var currentKeyCharacterIndex := 0;
      var currentKeyCharacter := k[currentKeyCharacterIndex];
      var current: Node<V>;
      ghost var w, made;
      current, w, made := Root(root, k, currentKeyCharacter, Default, T, Loc);
      root := current;
      current, w, made := Descend(current, k, currentKeyCharacter, Default, w, Loc, made);
      DescendingEnd(w, current, Loc, made);
      r := Store(current, k, value, checkIfKeyExists, w.loc);
    }

    /**
     * The `for (;;)` loop of `Insert` up to its last key character: from `start`, at key index 0, it fills
     * every null link on the walk of `key` with a fresh node holding the current key character and
     * returns the node where the walk ends.
     */
    static method Descend(start: Node<V>, key: string, c: char, dflt: V,
                          ghost w: Walk<V>, ghost loc: map<Pos, Node<V>>, ghost made: set<Node<V>>)
      returns (current: Node<V>, ghost w': Walk<V>, ghost made': set<Node<V>>)
      requires Descending(w, start, loc, made) && w.key == key && w.dflt == dflt && w.i == 0 && c == key[0]
      modifies loc.Values, made
      ensures Descending(w', current, loc, made') && w'.root == w.root && w'.key == key && w'.g == w.g
      ensures w'.i + 1 == |key| && key[w'.i] == current.SplitCharacter
      ensures made <= made' && fresh(made' - made)
    {
      var currentKeyCharacterIndex := 0;
      var currentKeyCharacter := c;
      var keyLengthMinusOne := |key| - 1;
      current, w', made' := start, w, made;
      while true
        invariant Descending(w', current, loc, made') && w'.root == w.root && w'.key == key && w'.dflt == dflt && w'.g == w.g
        invariant currentKeyCharacterIndex == w'.i && currentKeyCharacter == key[w'.i]
        invariant made <= made' && fresh(made' - made)
        decreases Height(Sub(w.g, w'.p))
      {
        if currentKeyCharacter < current.SplitCharacter {
          w', made' := FillLower(current, currentKeyCharacter, dflt, w', loc, made');
          current := current.LowerNode;
        } else if currentKeyCharacter > current.SplitCharacter {
          w', made' := FillHigher(current, currentKeyCharacter, dflt, w', loc, made');
          current := current.HigherNode;
        } else if currentKeyCharacterIndex < keyLengthMinusOne {
          currentKeyCharacterIndex := currentKeyCharacterIndex + 1;
          currentKeyCharacter := key[currentKeyCharacterIndex];
          w', made' := FillEqual(current, currentKeyCharacter, dflt, w', loc, made');
          current := current.EqualNode;
        } else {
          return;
        }
      }
    }

    /**
     * The last step of `Insert`, at the node `node` where the walk of `key` ends after node creation
     * (`T` is still the tree before, `loc` lays out the tree with the created nodes).
     */
    method Store(node: Node<V>, key: string, value: V, checkIfKeyExists: bool, ghost loc: map<Pos, Node<V>>)
      returns (r: Outcome)
      requires |key| > 0 && Count == CountValues(T) && Invariant(T, Default)
      requires var g := Grow(T, key, 0, Default, None);
               Laid(root, g, loc) && node == Slot(loc, Path(g, key, 0))
      modifies this, node
      ensures Valid()
      ensures var x := Inserted(old(T), Some(key), value, checkIfKeyExists, Default);
              if x.Ok? then r == Pass && T == x.value else r == Fail(x.error) && T == old(T)
    {
      ghost var g := Grow(T, key, 0, Default, None);
      ghost var p := Path(g, key, 0);
      assert Placed(loc, g, p);
      LaidChild(root, g, loc, p, Eq);
      StoreEffect(T, key, value, checkIfKeyExists, Default);
      if checkIfKeyExists && node.HasValue {
        Loc := loc;
        return Fail(ArgumentException(KeyAlreadyAdded, "key"));
      }
      if !node.HasValue {
        Count := Count + 1;
      }
      SetValueAt(node, value, root, g, loc, p);
      T := Grow(T, key, 0, Default, Some(value));
      Loc := loc;
      r := Pass;
    }
  }

  /** `node.Value = value` on the node at `p`: the subtree there receives the value and nothing else changes. */
  method SetValueAt<V>(node: Node<V>, value: V, ghost root: Node?<V>, ghost t: Tst<V>, ghost loc: map<Pos, Node<V>>, ghost p: Pos)
    requires Laid(root, t, loc) && p in loc && loc[p] == node
    modifies node
    ensures Sub(t, p).Fork? && Laid(root, Replace(t, p, Sub(t, p).(hasValue := true, value := value)), loc)
  {
    label C:
    node.SetValue(value);
    SetFields@C(Site(root, t, loc, p, Eq));
  }

  /**
   * What the last step of `Insert` finds and makes, stated on the tree after node creation: the node
   * reached holds a value exactly when the key is stored; a stored key means node creation created
   * nothing; storing the value there gives the inserted tree, changes the count as `Count` does, and
   * keeps the invariant.
   */
  lemma StoreEffect<V>(t: Tst<V>, key: string, value: V, checkIfKeyExists: bool, dflt: V)
    requires |key| > 0
    ensures var g := Grow(t, key, 0, dflt, None);
            var n := Sub(g, Path(g, key, 0));
            && n == Find(g, key, 0) && n.Fork?
            && (n.hasValue <==> Lookup(t, key).Some?)
            && (n.hasValue ==> g == t)
            && Replace(g, Path(g, key, 0), n.(hasValue := true, value := value)) == Grow(t, key, 0, dflt, Some(value))
            && CountValues(Grow(t, key, 0, dflt, Some(value))) == CountValues(t) + (if n.hasValue then 0 else 1)
            && (Invariant(t, dflt) ==> Invariant(Grow(t, key, 0, dflt, Some(value)), dflt))
  {
    var g := Grow(t, key, 0, dflt, None);
    GrowLookup(t, key, 0, dflt, None, key);
    if Lookup(t, key).Some? {
      CreateExisting(t, key, 0, dflt);
    }
    GrowPut(t, key, 0, dflt, value);
    InsertCount(t, Some(key), value, false, dflt);
    if Invariant(t, dflt) {
      InsertInvariant(t, Some(key), value, false, dflt);
    }
  }
}
