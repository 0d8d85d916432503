/**
 * The loop shared by `Tree.CreateNodes` and the dictionary's `Insert`: walking a key from the root and
 * filling every null link on the way with a fresh node. A `Walk` is the ghost state of that loop; the
 * lemmas below carry its invariant across one iteration, so that the loops only touch one node each.
 */
module Creation {
  import opened Wrappers
  import opened Nodes
  import opened TernaryTree
  import opened Positions
  import opened Layout
  import opened Growth

  /**
   * The loop is at the node at `p` of the laid-out tree `t`, with key index `i`; `g` is the tree the whole
   * walk grows `t` into.
   */
  datatype Walk<V> = Walk(root: Node?<V>, t: Tst<V>, loc: map<Pos, Node<V>>, p: Pos, key: string, i: nat, dflt: V, g: Tst<V>)

  /** One step of a walk along `d`. */
  datatype Move<V> = Move(w: Walk<V>, d: Dir)

  /** The loop invariant: the walk so far follows `p`, and growing what lies at `p` yields `g`. */
  ghost predicate Creating<V>(w: Walk<V>)
    reads w.loc.Values
  {
    && Laid(w.root, w.t, w.loc) && w.p in w.loc
    && WalkTo(w.t, w.key, w.p, 0, w.i) && w.i < |w.key|
    && Replace(w.t, w.p, Grow(Sub(w.t, w.p), w.key, w.i, w.dflt, None)) == w.g
  }

  /** The walk after following the existing link `d`. */
  function Stepped<V>(w: Walk<V>, d: Dir): Walk<V> {
    w.(p := w.p + [d], i := Next(w.i, d))
  }

  /** The walk after a fresh value-less node `f` holding the next key character fills the link `d`. */
  function Attached<V>(w: Walk<V>, d: Dir, f: Node<V>): Walk<V>
    requires Next(w.i, d) < |w.key|
  {
    w.(t := Replace(w.t, w.p + [d], Leaf(w.key[Next(w.i, d)], w.dflt)), loc := w.loc[w.p + [d] := f])
  }

  /** A walk starts at a non-null root with key index 0. */
  lemma CreatingStart<V>(root: Node<V>, t: Tst<V>, loc: map<Pos, Node<V>>, key: string, dflt: V, g: Tst<V>)
    requires Laid(root, t, loc) && |key| > 0 && g == Grow(t, key, 0, dflt, None)
    ensures Creating(Walk(root, t, loc, [], key, 0, dflt, g))
  {
    assert [] in loc && Placed(loc, t, []);
    ForkIsSlot(t, []);
  }

  /**
   * `if (root == null) root = new Node<TValue>(c);` for the first key character `c`, and the walk of
   * `key` set up at the root.
   */
  method Root<V>(root: Node?<V>, key: string, c: char, dflt: V, ghost t: Tst<V>, ghost loc: map<Pos, Node<V>>)
    returns (newRoot: Node<V>, ghost w: Walk<V>, ghost made: set<Node<V>>)
    requires Laid(root, t, loc) && |key| > 0 && c == key[0]
    ensures Descending(w, newRoot, loc, made) && w == Walk(newRoot, w.t, w.loc, [], key, 0, dflt, Grow(t, key, 0, dflt, None))
    ensures root != null ==> newRoot == root && w.t == t && w.loc == loc
    ensures fresh(made)
  {
    ghost var t', loc' := t, loc;
    made := {};
    if root == null {
      LaidNull(t, loc);
      newRoot := new Node(c, dflt);
      LaidLeaf(newRoot, c, dflt);
      GrowLeaf(key, 0, dflt, None);
      t', loc' := Leaf(c, dflt), map[[] := newRoot];
      made := {newRoot};
    } else {
      newRoot := root;
    }
    KeepsStart(loc, loc', made);
    CreatingStart(newRoot, t', loc', key, dflt, Grow(t, key, 0, dflt, None));
    w := Walk(newRoot, t', loc', [], key, 0, dflt, Grow(t, key, 0, dflt, None));
  }

  /** What the loop reads at the node at `p`: that node mirrors the subtree there and links to its children. */
  lemma CreatingAt<V>(w: Walk<V>)
    requires Creating(w)
    ensures w.i < |w.key| && Sub(w.t, w.p).Fork? && w.loc[w.p].SplitCharacter == Sub(w.t, w.p).split
    ensures w.loc[w.p].LowerNode == Slot(w.loc, w.p + [Lo])
    ensures w.loc[w.p].EqualNode == Slot(w.loc, w.p + [Eq])
    ensures w.loc[w.p].HigherNode == Slot(w.loc, w.p + [Hi])
  {
    LaidChild(w.root, w.t, w.loc, w.p, Lo);
    LaidChild(w.root, w.t, w.loc, w.p, Eq);
    LaidChild(w.root, w.t, w.loc, w.p, Hi);
    WalkToFind(w.t, w.key, w.p, 0, w.i);
  }

  /** Following an existing link keeps the invariant, and what is left to grow shrinks. */
  lemma CreatingStep<V>(w: Walk<V>, d: Dir)
    requires Creating(w) && StepTo(Sub(w.t, w.p), w.key, w.i, d) && w.p + [d] in w.loc
    ensures Creating(Stepped(w, d))
    ensures Height(Sub(w.g, w.p + [d])) < Height(Sub(w.g, w.p))
  {
    ForkIsSlot(w.t, w.p);
    AdvanceInv(w.t, w.p, w.key, w.i, w.dflt, None, d, w.g);
    WalkToSnoc(w.t, w.key, w.p, 0, w.i, d);
    var s := Sub(w.t, w.p);
    ReplaceAt(w.t, w.p, Grow(s, w.key, w.i, w.dflt, None));
    GrowStep(s, w.key, w.i, w.dflt, None, d);
    SubSnoc(w.g, w.p, d);
  }

  /** Filling the null link `d` with a fresh value-less node holding the next key character keeps the invariant. */
  twostate lemma CreatingAttach<V>(m: Move<V>)
    requires old(Creating(m.w))
    requires StepTo(Sub(m.w.t, m.w.p), m.w.key, m.w.i, m.d) && m.w.p + [m.d] !in m.w.loc
    requires Link(m.w.loc[m.w.p], m.d) != null
    requires var f := Link(m.w.loc[m.w.p], m.d);
      && !old(allocated(f)) && f.SplitCharacter == m.w.key[Next(m.w.i, m.d)] && !f.HasValue && f.value == m.w.dflt
      && f.LowerNode == null && f.EqualNode == null && f.HigherNode == null
    requires unchanged(m.w.loc.Values - {m.w.loc[m.w.p]})
    requires m.w.loc[m.w.p].HasValue == old(m.w.loc[m.w.p].HasValue) && m.w.loc[m.w.p].value == old(m.w.loc[m.w.p].value)
    requires forall e | e != m.d :: Link(m.w.loc[m.w.p], e) == old(Link(m.w.loc[m.w.p], e))
    ensures Next(m.w.i, m.d) < |m.w.key|
    ensures var w' := Attached(m.w, m.d, Link(m.w.loc[m.w.p], m.d));
      Creating(w') && StepTo(Sub(w'.t, w'.p), w'.key, w'.i, m.d) && w'.p + [m.d] in w'.loc
  {
    var Move(w, d) := m;
    var q := w.p + [d];
    var leaf := Leaf(w.key[Next(w.i, d)], w.dflt);
    Attach(Site(w.root, w.t, w.loc, w.p, d));
    assert old(Good(w.loc, w.t, w.p));
    ForkIsSlot(w.t, w.p);
    AdvanceInv(w.t, w.p, w.key, w.i, w.dflt, None, d, w.g);
    SubSnoc(w.t, w.p, d);
    ChildIsSlot(w.t, w.p, d);
    assert Placed(w.loc, w.t, q);
    AttachInv(w.t, q, w.key, Next(w.i, d), w.dflt, None);
    WalkToReplace(w.t, w.key, w.p, 0, w.i, q, leaf);
    var t' := Replace(w.t, q, leaf);
    // the walk still stands at `p`, and what it grows there is unchanged
    ReplaceInside(w.t, w.p, Sub(w.t, w.p), [d], leaf);
    ReplaceSelf(w.t, w.p);
    assert t' == Replace(w.t, w.p, Replace(Sub(w.t, w.p), [d], leaf));
    ReplaceAt(w.t, w.p, Replace(Sub(w.t, w.p), [d], leaf));
    assert Replace(Sub(w.t, w.p), [d], leaf) == WithChild(Sub(w.t, w.p), d, leaf) by {
      assert [d][1..] == [];
    }
    var s' := WithChild(Sub(w.t, w.p), d, leaf);
    assert Sub(t', w.p) == s';
    GrowStep(s', w.key, w.i, w.dflt, None, d);
    GrowStep(Sub(w.t, w.p), w.key, w.i, w.dflt, None, d);
    GrowLeaf(w.key, Next(w.i, d), w.dflt, None);
    ReplaceReplace(w.t, w.p, s', Grow(s', w.key, w.i, w.dflt, None));
  }

  /** The walk ends at a node matching the last key character: nothing is left to grow, and it is the key's node. */
  lemma CreatingEnd<V>(w: Walk<V>)
    requires Creating(w)
    requires w.i + 1 == |w.key| && Sub(w.t, w.p).Fork? && w.key[w.i] == Sub(w.t, w.p).split
    ensures w.t == w.g && Path(w.t, w.key, 0) == w.p && Find(w.t, w.key, 0) == Sub(w.t, w.p)
  {
    ForkIsSlot(w.t, w.p);
    GrowEnd(Sub(w.t, w.p), w.key, w.i, w.dflt, None);
    ReplaceSelf(w.t, w.p);
    WalkToFind(w.t, w.key, w.p, 0, w.i);
    assert w.p + [] == w.p;
  }

  /**
   * The state of the creating loop: the walk, the node it stands at, and the nodes it keeps from the
   * layout `loc` it started from; every other node it holds is one it made.
   */
  ghost predicate Descending<V>(w: Walk<V>, node: Node<V>, loc: map<Pos, Node<V>>, made: set<Node<V>>)
    reads w.loc.Values
  {
    Creating(w) && node == w.loc[w.p] && Keeps(loc, w.loc, made) && (node in loc.Values || node in made)
  }

  /** The loop returns at the node of the last key character, and the tree it has laid out is the grown one. */
  lemma DescendingEnd<V>(w: Walk<V>, node: Node<V>, loc: map<Pos, Node<V>>, made: set<Node<V>>)
    requires Descending(w, node, loc, made)
    requires w.i + 1 == |w.key| && w.key[w.i] == node.SplitCharacter
    ensures w.t == w.g && Laid(w.root, w.t, w.loc) && node == Slot(w.loc, Path(w.t, w.key, 0))
    ensures forall q | q in loc :: q in w.loc && w.loc[q] == loc[q]
    ensures forall q | q in w.loc && q !in loc :: w.loc[q] in made
  {
    CreatingAt(w);
    CreatingEnd(w);
    KeepsEnd(loc, w.loc, made);
  }

  // ---------------------------------------------------------------------------------------------------
  // Filling one link

  /**
   * `if (node.LowerNode == null) node.LowerNode = new Node<TValue>(c);` at the node where the walk stands, when the key character `c` is below its split character.
   * The returned walk stands at that child.
   */
  method FillLower<V>(node: Node<V>, c: char, dflt: V, ghost w: Walk<V>, ghost loc: map<Pos, Node<V>>, ghost made: set<Node<V>>)
    returns (ghost w': Walk<V>, ghost made': set<Node<V>>)
    requires Descending(w, node, loc, made) && dflt == w.dflt
    requires c == w.key[w.i] && c < node.SplitCharacter
    modifies node
    ensures node.LowerNode != null && Descending(w', node.LowerNode, loc, made')
    ensures w'.root == w.root && w'.key == w.key && w'.dflt == w.dflt && w'.g == w.g
    ensures w'.p == w.p + [Lo] && w'.i == w.i
    ensures Height(Sub(w.g, w'.p)) < Height(Sub(w.g, w.p))
    ensures made <= made' && fresh(made' - made)
  {
    ghost var w1 := w;
    made' := made;
    CreatingAt(w);
    if node.LowerNode == null {
      label B:
      node.LowerNode := new Node(c, dflt);
      CreatingAttach@B(Move(w, Lo));
      KeepsAttach(loc, w.loc, made, w.p + [Lo], node.LowerNode);
      w1 := Attached(w, Lo, node.LowerNode);
      made' := made + {node.LowerNode};
    }
    CreatingStep(w1, Lo);
    w' := Stepped(w1, Lo);
    KeepsStep(loc, w'.loc, made', w'.p);
  }

  /**
   * `if (node.HigherNode == null) node.HigherNode = new Node<TValue>(c);` at the node where the walk stands, when the key character `c` is above its split character.
   * The returned walk stands at that child.
   */
  method FillHigher<V>(node: Node<V>, c: char, dflt: V, ghost w: Walk<V>, ghost loc: map<Pos, Node<V>>, ghost made: set<Node<V>>)
    returns (ghost w': Walk<V>, ghost made': set<Node<V>>)
    requires Descending(w, node, loc, made) && dflt == w.dflt
    requires c == w.key[w.i] && c > node.SplitCharacter
    modifies node
    ensures node.HigherNode != null && Descending(w', node.HigherNode, loc, made')
    ensures w'.root == w.root && w'.key == w.key && w'.dflt == w.dflt && w'.g == w.g
    ensures w'.p == w.p + [Hi] && w'.i == w.i
    ensures Height(Sub(w.g, w'.p)) < Height(Sub(w.g, w.p))
    ensures made <= made' && fresh(made' - made)
  {
    ghost var w1 := w;
    made' := made;
    CreatingAt(w);
    if node.HigherNode == null {
      label B:
      node.HigherNode := new Node(c, dflt);
      CreatingAttach@B(Move(w, Hi));
      KeepsAttach(loc, w.loc, made, w.p + [Hi], node.HigherNode);
      w1 := Attached(w, Hi, node.HigherNode);
      made' := made + {node.HigherNode};
    }
    CreatingStep(w1, Hi);
    w' := Stepped(w1, Hi);
    KeepsStep(loc, w'.loc, made', w'.p);
  }

  /**
   * `if (node.EqualNode == null) node.EqualNode = new Node<TValue>(c);` at the node where the walk stands, when the key character matches and `c` is the next one.
   * The returned walk stands at that child.
   */
  method FillEqual<V>(node: Node<V>, c: char, dflt: V, ghost w: Walk<V>, ghost loc: map<Pos, Node<V>>, ghost made: set<Node<V>>)
    returns (ghost w': Walk<V>, ghost made': set<Node<V>>)
    requires Descending(w, node, loc, made) && dflt == w.dflt
    requires w.key[w.i] == node.SplitCharacter && w.i + 1 < |w.key| && c == w.key[w.i + 1]
    modifies node
    ensures node.EqualNode != null && Descending(w', node.EqualNode, loc, made')
    ensures w'.root == w.root && w'.key == w.key && w'.dflt == w.dflt && w'.g == w.g
    ensures w'.p == w.p + [Eq] && w'.i == w.i + 1
    ensures Height(Sub(w.g, w'.p)) < Height(Sub(w.g, w.p))
    ensures made <= made' && fresh(made' - made)
  {
    ghost var w1 := w;
    made' := made;
    CreatingAt(w);
    if node.EqualNode == null {
      label B:
      node.EqualNode := new Node(c, dflt);
      CreatingAttach@B(Move(w, Eq));
      KeepsAttach(loc, w.loc, made, w.p + [Eq], node.EqualNode);
      w1 := Attached(w, Eq, node.EqualNode);
      made' := made + {node.EqualNode};
    }
    CreatingStep(w1, Eq);
    w' := Stepped(w1, Eq);
    KeepsStep(loc, w'.loc, made', w'.p);
  }

  // ---------------------------------------------------------------------------------------------------
  // What a walk keeps

  /**
   * Every position laid out in `loc` keeps its node in `loc'`, and every other position of `loc'` holds
   * one of the nodes the walk `made`.
   */
  ghost predicate Keeps<V>(loc: map<Pos, Node<V>>, loc': map<Pos, Node<V>>, made: set<Node<V>>) {
    && (forall q | q in loc :: q in loc')
    && (forall q | q in loc' :: if q in loc then loc'[q] == loc[q] else loc'[q] in made)
  }

  lemma KeepsStart<V>(loc: map<Pos, Node<V>>, loc': map<Pos, Node<V>>, made: set<Node<V>>)
    requires loc' == loc || (loc == map[] && loc'.Values <= made)
    ensures Keeps(loc, loc', made)
  {
  }

  lemma KeepsAttach<V>(loc: map<Pos, Node<V>>, loc': map<Pos, Node<V>>, made: set<Node<V>>, q: Pos, f: Node<V>)
    requires Keeps(loc, loc', made) && q !in loc'
    ensures Keeps(loc, loc'[q := f], made + {f})
  {
  }

  /** The node at any position of the walk is an old one or one the walk made. */
  lemma KeepsStep<V>(loc: map<Pos, Node<V>>, loc': map<Pos, Node<V>>, made: set<Node<V>>, q: Pos)
    requires Keeps(loc, loc', made) && q in loc'
    ensures loc'[q] in loc.Values || loc'[q] in made
  {
  }

  lemma KeepsEnd<V>(loc: map<Pos, Node<V>>, loc': map<Pos, Node<V>>, made: set<Node<V>>)
    requires Keeps(loc, loc', made)
    ensures forall q | q in loc :: q in loc' && loc'[q] == loc[q]
    ensures forall q | q in loc' && q !in loc :: loc'[q] in made
  {
  }
}
