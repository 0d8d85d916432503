/**
 * How a graph of `Node` objects represents a `Tst` value. A map from positions to nodes lays the tree
 * out in the heap: it is defined exactly at the node positions, every node mirrors the fields of its
 * subtree's top, every link points at the node of the child position (or is null), and no node object
 * is used at two positions. Each mutation the library performs is a twostate lemma here, so that the
 * methods only check the one node they touch.
 */
module Layout {
  import opened Wrappers
  import opened Nodes
  import opened TernaryTree
  import opened Positions

  /** The link of `n` in direction `d`. */
  function Link<V>(n: Node<V>, d: Dir): Node?<V>
    reads n
  {
    match d
    case Lo => n.LowerNode
    case Eq => n.EqualNode
    case Hi => n.HigherNode
  }

  /** The node laid out at position `p`, or null. */
  function Slot<V>(loc: map<Pos, Node<V>>, p: Pos): Node?<V> {
    if p in loc then loc[p] else null
  }

  ghost predicate Mirrors<V>(n: Node<V>, s: Tst<V>)
    reads n
  {
    s.Fork? && n.SplitCharacter == s.split && n.HasValue == s.hasValue && n.value == s.value
  }

  /** The node at `p` mirrors its subtree and links to the nodes of the three child positions. */
  ghost predicate Good<V>(loc: map<Pos, Node<V>>, t: Tst<V>, p: Pos)
    reads loc.Values
  {
    p in loc && Mirrors(loc[p], Sub(t, p)) &&
    loc[p].LowerNode == Slot(loc, p + [Lo]) &&
    loc[p].EqualNode == Slot(loc, p + [Eq]) &&
    loc[p].HigherNode == Slot(loc, p + [Hi])
  }

  /** `loc` is defined at `p` exactly when `t` has a node there. */
  ghost predicate Placed<V>(loc: map<Pos, Node<V>>, t: Tst<V>, p: Pos) {
    p in loc <==> Sub(t, p).Fork?
  }

  /** Distinct positions hold distinct node objects. */
  ghost predicate Apart<V>(loc: map<Pos, Node<V>>, p: Pos, q: Pos) {
    p in loc && q in loc && p != q ==> loc[p] != loc[q]
  }

  /**
   * `root` and the nodes reachable from it represent `t`, laid out by `loc`. Each quantifier is guarded
   * by a named predicate, so the layout is consulted only at the positions a proof names.
   */
  ghost predicate Laid<V>(root: Node?<V>, t: Tst<V>, loc: map<Pos, Node<V>>)
    reads loc.Values
  {
    && root == Slot(loc, [])
    && (forall p {:trigger Placed(loc, t, p)} :: Placed(loc, t, p))
    && (forall p {:trigger Good(loc, t, p)} | p in loc :: Good(loc, t, p))
    && (forall p, q {:trigger Apart(loc, p, q)} :: Apart(loc, p, q))
  }

  /** The null root represents the empty tree. */
  lemma LaidEmpty<V>()
    ensures Laid<V>(null, Nil, map[])
  {
    forall p: Pos
      ensures Placed<V>(map[], Nil, p)
    {
      SubNil<V>(p);
    }
  }

  /** A fresh node as the root represents a single leaf. */
  lemma LaidLeaf<V>(f: Node<V>, c: char, dflt: V)
    requires f.SplitCharacter == c && !f.HasValue && f.value == dflt
    requires f.LowerNode == null && f.EqualNode == null && f.HigherNode == null
    ensures Laid(f, Leaf(c, dflt), map[[] := f])
  {
    var loc := map[[] := f];
    forall p: Pos
      ensures Placed(loc, Leaf(c, dflt), p)
    {
      if p != [] {
        SubNil<V>(p[1..]);
      }
    }
    assert Good(loc, Leaf(c, dflt), []);
  }

  /** Whether a child link of a laid-out node is null is whether the child subtree is empty. */
  lemma LaidChild<V>(root: Node?<V>, t: Tst<V>, loc: map<Pos, Node<V>>, p: Pos, d: Dir)
    requires Laid(root, t, loc) && p in loc
    ensures Sub(t, p).Fork? && Mirrors(loc[p], Sub(t, p))
    ensures Link(loc[p], d) == Slot(loc, p + [d])
    ensures Sub(t, p + [d]) == Child(Sub(t, p), d)
    ensures (p + [d] in loc) <==> Child(Sub(t, p), d).Fork?
  {
    assert Good(loc, t, p);
    assert Placed(loc, t, p) && Placed(loc, t, p + [d]);
    SubSnoc(t, p, d);
  }

  /** A null root represents only the empty tree. */
  lemma LaidNull<V>(t: Tst<V>, loc: map<Pos, Node<V>>)
    requires Laid(null, t, loc)
    ensures t == Nil && loc == map[]
  {
    assert [] !in loc && Placed(loc, t, []);
    forall p
      ensures p !in loc
    {
      assert Placed(loc, t, p);
      NilBelow(t, [], p);
      assert [] + p == p;
    }
    assert loc.Keys == {};
  }

  /** `CanBeRemoved` of a laid-out node is `Removable` of its subtree. */
  lemma LaidRemovable<V>(root: Node?<V>, t: Tst<V>, loc: map<Pos, Node<V>>, p: Pos)
    requires Laid(root, t, loc) && p in loc
    ensures loc[p].CanBeRemoved() == Removable(Sub(t, p))
  {
    LaidChild(root, t, loc, p, Lo);
    LaidChild(root, t, loc, p, Eq);
    LaidChild(root, t, loc, p, Hi);
  }

  /** `CanBeSimplified` of a laid-out node is `Simplifiable` of its subtree. */
  lemma LaidSimplifiable<V>(root: Node?<V>, t: Tst<V>, loc: map<Pos, Node<V>>, p: Pos)
    requires Laid(root, t, loc) && p in loc
    ensures loc[p].CanBeSimplified() == Simplifiable(Sub(t, p))
  {
    LaidChild(root, t, loc, p, Lo);
    LaidChild(root, t, loc, p, Eq);
    LaidChild(root, t, loc, p, Hi);
  }

  // ---------------------------------------------------------------------------------------------------
  // Read-only traversal

  /** The recursive view of a layout, used by the recursive enumerations. */
  ghost predicate Shape<V>(n: Node?<V>, t: Tst<V>, repr: set<Node<V>>)
    reads repr
    decreases t
  {
    match t
    case Nil => n == null
    case Fork(_, _, _, lo, eq, hi) =>
      n != null && n in repr && Mirrors(n, t) &&
      Shape(n.LowerNode, lo, repr) && Shape(n.EqualNode, eq, repr) && Shape(n.HigherNode, hi, repr)
  }

  lemma {:induction false} LaidShape<V>(root: Node?<V>, t: Tst<V>, loc: map<Pos, Node<V>>, p: Pos)
    requires Laid(root, t, loc)
    ensures Shape(Slot(loc, p), Sub(t, p), loc.Values)
    decreases Sub(t, p)
  {
    assert Placed(loc, t, p);
    if p in loc {
      LaidChild(root, t, loc, p, Lo);
      LaidChild(root, t, loc, p, Eq);
      LaidChild(root, t, loc, p, Hi);
      LaidShape(root, t, loc, p + [Lo]);
      LaidShape(root, t, loc, p + [Eq]);
      LaidShape(root, t, loc, p + [Hi]);
    }
  }

  // ---------------------------------------------------------------------------------------------------
  // Mutations

  /** The link `d` of the node at position `p` of a laid-out tree: where one mutation takes place. */
  datatype Site<V> = Site(root: Node?<V>, t: Tst<V>, loc: map<Pos, Node<V>>, p: Pos, d: Dir)

  /**
   * Filling the null link `d` of the node at `p` with a fresh node that holds no value and has no links
   * grows the represented tree by a leaf at `p + [d]`.
   */
  twostate lemma Attach<V>(s: Site<V>)
    requires old(Laid(s.root, s.t, s.loc))
    requires s.p in s.loc && s.p + [s.d] !in s.loc
    requires Link(s.loc[s.p], s.d) != null
    requires var f := Link(s.loc[s.p], s.d);
      !old(allocated(f)) && !f.HasValue && f.LowerNode == null && f.EqualNode == null && f.HigherNode == null
    requires unchanged(s.loc.Values - {s.loc[s.p]})
    requires s.loc[s.p].HasValue == old(s.loc[s.p].HasValue) && s.loc[s.p].value == old(s.loc[s.p].value)
    requires forall e | e != s.d :: Link(s.loc[s.p], e) == old(Link(s.loc[s.p], e))
    ensures var f: Node<V> := Link(s.loc[s.p], s.d);
      Laid(s.root, Replace(s.t, s.p + [s.d], Leaf(f.SplitCharacter, f.value)), s.loc[s.p + [s.d] := f])
  {
    var Site(root, t, loc, p, d) := s;
    var f: Node<V> := Link(loc[p], d);
    var q := p + [d];
    var s := Leaf(f.SplitCharacter, f.value);
    var t' := Replace(t, q, s);
    var loc' := loc[q := f];
    assert old(Good(loc, t, p));
    assert f !in loc.Values;
    SubSnoc(t, p, d);
    ChildIsSlot(t, p, d);
    forall r
      ensures Placed(loc', t', r)
      ensures r in loc ==> !IsPrefix(q, r)
    {
      assert Placed(loc, t, r);
      SubReplace(t, q, s, r);
      if IsPrefix(q, r) && r != q {
        var x := r[|q|..];
        assert r == q + x;
        assert Placed(loc, t, q);
        NilBelow(t, q, x);
        SubNil<V>(x[1..]);
      }
    }
    forall r | r in loc'
      ensures Good(loc', t', r)
    {
      SubReplace(t, q, s, r);
      if r == q {
        forall e
          ensures q + [e] !in loc'
        {
          SubSnoc(t', q, e);
          ReplaceAt(t, q, s);
          assert Placed(loc', t', q + [e]);
        }
      } else if r == p {
        assert Link(loc[p], Lo) == loc[p].LowerNode;
        assert Link(loc[p], Eq) == loc[p].EqualNode;
        assert Link(loc[p], Hi) == loc[p].HigherNode;
      } else {
        assert old(Good(loc, t, r));
        assert Apart(loc, r, p);
        assert loc[r] in loc.Values - {loc[p]};
        forall e
          ensures Slot(loc', r + [e]) == Slot(loc, r + [e])
        {
          assert (r + [e])[..|r|] == r && q[..|p|] == p;
        }
      }
    }
    forall r, r'
      ensures Apart(loc', r, r')
    {
      assert Apart(loc, r, r');
    }
  }

  /** Storing new value fields in the node at `p` replaces that node's fields in the represented tree. */
  twostate lemma SetFields<V>(s: Site<V>)
    requires old(Laid(s.root, s.t, s.loc))
    requires s.p in s.loc
    requires unchanged(s.loc.Values - {s.loc[s.p]})
    requires forall e :: Link(s.loc[s.p], e) == old(Link(s.loc[s.p], e))
    ensures Sub(s.t, s.p).Fork?
    ensures Laid(s.root, Replace(s.t, s.p, Sub(s.t, s.p).(hasValue := s.loc[s.p].HasValue, value := s.loc[s.p].value)), s.loc)
  {
    var Site(root, t, loc, p, _) := s;
    var s := Sub(t, p).(hasValue := loc[p].HasValue, value := loc[p].value);
    var t' := Replace(t, p, s);
    assert old(Good(loc, t, p));
    ForkIsSlot(t, p);
    forall r
      ensures Placed(loc, t', r)
      ensures r != p ==> SameTop(Sub(t', r), Sub(t, r))
    {
      assert Placed(loc, t, r);
      SubReplace(t, p, s, r);
      if IsPrefix(p, r) && r != p {
        var x := r[|p|..];
        assert r == p + x;
        SubAppend(t, p, x);
      }
    }
    forall r | r in loc
      ensures Good(loc, t', r)
    {
      if r == p {
        ReplaceAt(t, p, s);
        assert Link(loc[p], Lo) == loc[p].LowerNode;
        assert Link(loc[p], Eq) == loc[p].EqualNode;
        assert Link(loc[p], Hi) == loc[p].HigherNode;
      } else {
        assert old(Good(loc, t, r));
        assert Apart(loc, r, p);
        assert loc[r] in loc.Values - {loc[p]};
      }
    }
    forall r, r'
      ensures Apart(loc, r, r')
    {
      assert Apart(loc, r, r');
    }
  }

  /** Nulling the link `d` of the node at `p`, whose child is removable, drops that child from the tree. */
  twostate lemma Detach<V>(s: Site<V>)
    requires old(Laid(s.root, s.t, s.loc))
    requires s.p in s.loc && s.p + [s.d] in s.loc && Removable(Sub(s.t, s.p + [s.d]))
    requires unchanged(s.loc.Values - {s.loc[s.p]})
    requires s.loc[s.p].HasValue == old(s.loc[s.p].HasValue) && s.loc[s.p].value == old(s.loc[s.p].value)
    requires forall e :: Link(s.loc[s.p], e) == if e == s.d then null else old(Link(s.loc[s.p], e))
    ensures Laid(s.root, Replace(s.t, s.p + [s.d], Nil), s.loc - {s.p + [s.d]})
  {
    var Site(root, t, loc, p, d) := s;
    var q := p + [d];
    var t' := Replace(t, q, Nil);
    var loc' := loc - {q};
    assert old(Good(loc, t, p));
    assert old(Good(loc, t, q));
    ChildIsSlot(t, p, d);
    forall e
      ensures q + [e] !in loc
    {
      SubSnoc(t, q, e);
      assert Placed(loc, t, q + [e]);
    }
    forall r
      ensures Placed(loc', t', r)
      ensures r in loc' ==> !IsPrefix(q, r)
    {
      assert Placed(loc, t, r);
      SubReplace(t, q, Nil, r);
      if IsPrefix(q, r) {
        SubNil<V>(r[|q|..]);
        if r != q {
          var x := r[|q|..];
          assert r == (q + [x[0]]) + x[1..];
          assert Placed(loc, t, q + [x[0]]);
          NilBelow(t, q + [x[0]], x[1..]);
        }
      }
    }
    forall r | r in loc'
      ensures Good(loc', t', r)
    {
      SubReplace(t, q, Nil, r);
      if r == p {
        assert Link(loc[p], Lo) == loc[p].LowerNode;
        assert Link(loc[p], Eq) == loc[p].EqualNode;
        assert Link(loc[p], Hi) == loc[p].HigherNode;
      } else {
        assert old(Good(loc, t, r));
        assert Apart(loc, r, p);
        assert loc[r] in loc.Values - {loc[p]};
        forall e
          ensures Slot(loc', r + [e]) == Slot(loc, r + [e])
        {
          assert (r + [e])[..|r|] == r && q[..|p|] == p;
        }
      }
    }
    forall r, r'
      ensures Apart(loc', r, r')
    {
      assert Apart(loc, r, r');
    }
  }
}
