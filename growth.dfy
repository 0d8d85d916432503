/**
 * What node creation and insertion (`Grow`) do to the represented tree: the loop-invariant algebra of
 * the two iterative insertion loops, and the properties the library promises about them.
 */
module Growth {
  import opened Wrappers
  import opened TernaryTree
  import opened Positions

  // ---------------------------------------------------------------------------------------------------
  // Loop-invariant algebra

  /** One step of the insertion walk, from a node, is the same walk started at the child. */
  lemma GrowStep<V>(s: Tst<V>, key: string, i: nat, dflt: V, put: Option<V>, d: Dir)
    requires StepTo(s, key, i, d)
    ensures Grow(s, key, i, dflt, put) == WithChild(s, d, Grow(Child(s, d), key, Next(i, d), dflt, put))
  {
  }

  /** A fresh node holding the current key character grows into exactly the chain a null link grows into. */
  lemma GrowLeaf<V>(key: string, i: nat, dflt: V, put: Option<V>)
    requires i < |key|
    ensures Grow(Leaf(key[i], dflt), key, i, dflt, put) == Chain(key, i, dflt, put)
  {
  }

  /**
   * The insertion loops' invariant "the tree built so far, with the rest of the walk done from the
   * current position, is the final tree" survives one step of the walk.
   */
  lemma AdvanceInv<V>(t: Tst<V>, p: Pos, key: string, i: nat, dflt: V, put: Option<V>, d: Dir, g: Tst<V>)
    requires IsSlot(t, p) && StepTo(Sub(t, p), key, i, d)
    requires Replace(t, p, Grow(Sub(t, p), key, i, dflt, put)) == g
    ensures Next(i, d) < |key|
    ensures Replace(t, p + [d], Grow(Sub(t, p + [d]), key, Next(i, d), dflt, put)) == g
  {
    var s := Sub(t, p);
    var x := Grow(Child(s, d), key, Next(i, d), dflt, put);
    SubSnoc(t, p, d);
    GrowStep(s, key, i, dflt, put, d);
    ReplaceSelf(t, p);
    ReplaceInside(t, p, s, [d], x);
    assert Replace(s, [d], x) == WithChild(s, d, x) by {
      assert [d][1..] == [];
    }
  }

  /** Filling a null slot with a fresh node holding the current key character keeps that invariant. */
  lemma AttachInv<V>(t: Tst<V>, q: Pos, key: string, i: nat, dflt: V, put: Option<V>)
    requires IsSlot(t, q) && Sub(t, q).Nil? && i < |key|
    ensures Sub(Replace(t, q, Leaf(key[i], dflt)), q) == Leaf(key[i], dflt)
    ensures Replace(Replace(t, q, Leaf(key[i], dflt)), q, Grow(Leaf(key[i], dflt), key, i, dflt, put))
         == Replace(t, q, Grow(Sub(t, q), key, i, dflt, put))
  {
    ReplaceAt(t, q, Leaf(key[i], dflt));
    ReplaceReplace(t, q, Leaf(key[i], dflt), Grow(Leaf(key[i], dflt), key, i, dflt, put));
    GrowLeaf(key, i, dflt, put);
  }

  /** Where the key ends at an existing node, the rest of the walk only stores `put`. */
  lemma GrowEnd<V>(s: Tst<V>, key: string, i: nat, dflt: V, put: Option<V>)
    requires s.Fork? && i + 1 == |key| && key[i] == s.split
    ensures Grow(s, key, i, dflt, put) == Put(s, put)
  {
  }

  // ---------------------------------------------------------------------------------------------------
  // Lookups after insertion

  lemma {:induction false} ChainLookup<V>(key: string, i: nat, dflt: V, put: Option<V>, k: string)
    requires i < |key| && i < |k| && k[..i] == key[..i]
    ensures LookupFrom(Chain(key, i, dflt, put), k, i) == if put.Some? && k == key then put else None
    decreases |key| - i
  {
    if i + 1 < |key| {
      var n := Fork(key[i], false, dflt, Nil, Chain(key, i + 1, dflt, put), Nil);
      assert Chain(key, i, dflt, put) == n;
      if k[i] == key[i] && i + 1 < |k| {
        assert k[..i + 1] == key[..i + 1] by {
          assert k[..i + 1] == k[..i] + [k[i]];
          assert key[..i + 1] == key[..i] + [key[i]];
        }
        ChainLookup(key, i + 1, dflt, put, k);
      } else {
        assert k != key;
        assert Find(n, k, i).Nil? || Find(n, k, i) == n;
      }
    } else {
      var n := Put(Leaf(key[i], dflt), put);
      assert Chain(key, i, dflt, put) == n;
      if k[i] == key[i] && i + 1 == |k| {
        assert k == k[..i] + [k[i]] && key == key[..i] + [key[i]];
        assert Find(n, k, i) == n;
      } else {
        assert k != key;
        assert Find(n, k, i).Nil?;
      }
    }
  }

  /**
   * Insertion changes no lookup except that of the inserted key, which now yields the inserted value;
   * node creation alone (`put == None`) changes no lookup at all.
   */
  lemma {:induction false} GrowLookup<V>(t: Tst<V>, key: string, i: nat, dflt: V, put: Option<V>, k: string)
    requires i < |key| && i < |k| && k[..i] == key[..i]
    ensures LookupFrom(Grow(t, key, i, dflt, put), k, i) == if put.Some? && k == key then put else LookupFrom(t, k, i)
    decreases t
  {
    match t
    case Nil =>
      ChainLookup(key, i, dflt, put, k);
    case Fork(c, hv, v, lo, eq, hi) =>
      if key[i] < c {
        if k[i] < c {
          GrowLookup(lo, key, i, dflt, put, k);
        }
      } else if key[i] > c {
        if k[i] > c {
          GrowLookup(hi, key, i, dflt, put, k);
        }
      } else if i + 1 < |key| {
        if k[i] == c && i + 1 < |k| {
          assert k[..i + 1] == key[..i + 1] by {
            assert k[..i + 1] == k[..i] + [k[i]];
            assert key[..i + 1] == key[..i] + [key[i]];
          }
          GrowLookup(eq, key, i + 1, dflt, put, k);
        }
      } else if k[i] == c && i + 1 == |k| {
        assert k == k[..i] + [k[i]] && key == key[..i] + [key[i]];
      }
  }

  lemma {:induction false} ChainCount<V>(key: string, i: nat, dflt: V, put: Option<V>)
    requires i < |key|
    ensures CountValues(Chain(key, i, dflt, put)) == if put.Some? then 1 else 0
    decreases |key| - i
  {
    if i + 1 < |key| {
      ChainCount(key, i + 1, dflt, put);
    }
  }

  /** Insertion adds one value exactly when the key had none; node creation adds none. */
  lemma {:induction false} GrowCount<V>(t: Tst<V>, key: string, i: nat, dflt: V, put: Option<V>)
    requires i < |key|
    ensures CountValues(Grow(t, key, i, dflt, put))
         == CountValues(t) + if put.Some? && LookupFrom(t, key, i).None? then 1 else 0
    decreases t
  {
    match t
    case Nil =>
      ChainCount(key, i, dflt, put);
    case Fork(c, hv, v, lo, eq, hi) =>
      if key[i] < c {
        GrowCount(lo, key, i, dflt, put);
      } else if key[i] > c {
        GrowCount(hi, key, i, dflt, put);
      } else if i + 1 < |key| {
        GrowCount(eq, key, i + 1, dflt, put);
      }
  }

  // ---------------------------------------------------------------------------------------------------
  // Invariants kept by insertion

  lemma {:induction false} ChainOrdered<V>(key: string, i: nat, dflt: V, put: Option<V>, lo: Option<char>, hi: Option<char>)
    requires i < |key| && Within(key[i], lo, hi)
    ensures OrderedIn(Chain(key, i, dflt, put), lo, hi)
    decreases |key| - i
  {
    if i + 1 < |key| {
      ChainOrdered(key, i + 1, dflt, put, None, None);
    }
  }

  /**
   * Insertion keeps every sibling layer a binary search tree: a new lower (higher) node's character is
   * below (above) its parent's, and within all the bounds above it.
   */
  lemma {:induction false} GrowOrdered<V>(t: Tst<V>, key: string, i: nat, dflt: V, put: Option<V>, lo: Option<char>, hi: Option<char>)
    requires i < |key| && OrderedIn(t, lo, hi) && Within(key[i], lo, hi)
    ensures OrderedIn(Grow(t, key, i, dflt, put), lo, hi)
    decreases t
  {
    match t
    case Nil =>
      ChainOrdered(key, i, dflt, put, lo, hi);
    case Fork(c, hv, v, l, e, h) =>
      if key[i] < c {
        GrowOrdered(l, key, i, dflt, put, lo, Some(c));
      } else if key[i] > c {
        GrowOrdered(h, key, i, dflt, put, Some(c), hi);
      } else if i + 1 < |key| {
        GrowOrdered(e, key, i + 1, dflt, put, None, None);
      }
  }

  lemma {:induction false} ChainDefaults<V>(key: string, i: nat, dflt: V, put: Option<V>)
    requires i < |key|
    ensures Defaults(Chain(key, i, dflt, put), dflt)
    decreases |key| - i
  {
    if i + 1 < |key| {
      ChainDefaults(key, i + 1, dflt, put);
    }
  }

  /** New nodes hold the default value in their backing field, so insertion keeps `Defaults`. */
  lemma {:induction false} GrowDefaults<V>(t: Tst<V>, key: string, i: nat, dflt: V, put: Option<V>)
    requires i < |key| && Defaults(t, dflt)
    ensures Defaults(Grow(t, key, i, dflt, put), dflt)
    decreases t
  {
    match t
    case Nil =>
      ChainDefaults(key, i, dflt, put);
    case Fork(c, hv, v, lo, eq, hi) =>
      if key[i] < c {
        GrowDefaults(lo, key, i, dflt, put);
      } else if key[i] > c {
        GrowDefaults(hi, key, i, dflt, put);
      } else if i + 1 < |key| {
        GrowDefaults(eq, key, i + 1, dflt, put);
      }
  }

  // ---------------------------------------------------------------------------------------------------
  // Node creation (`put == None`)

  /** A tree of value-less nodes, each holding the default in its backing field. */
  ghost predicate NoValues<V>(t: Tst<V>, dflt: V) {
    match t
    case Nil => true
    case Fork(_, hv, v, lo, eq, hi) => !hv && v == dflt && NoValues(lo, dflt) && NoValues(eq, dflt) && NoValues(hi, dflt)
  }

  /** `g` keeps every node of `t` with its fields, and everything it adds has no value. */
  ghost predicate Extends<V>(t: Tst<V>, g: Tst<V>, dflt: V) {
    match t
    case Nil => NoValues(g, dflt)
    case Fork(c, hv, v, lo, eq, hi) =>
      g.Fork? && g.split == c && g.hasValue == hv && g.value == v &&
      Extends(lo, g.lower, dflt) && Extends(eq, g.equal, dflt) && Extends(hi, g.higher, dflt)
  }

  lemma {:induction false} ChainNoValues<V>(key: string, i: nat, dflt: V)
    requires i < |key|
    ensures NoValues(Chain(key, i, dflt, None), dflt)
    decreases |key| - i
  {
    if i + 1 < |key| {
      ChainNoValues(key, i + 1, dflt);
    }
  }

  lemma {:induction false} ExtendsSelf<V>(t: Tst<V>, dflt: V)
    ensures Extends(t, t, dflt)
    decreases t
  {
    match t
    case Nil =>
    case Fork(_, _, _, lo, eq, hi) =>
      ExtendsSelf(lo, dflt);
      ExtendsSelf(eq, dflt);
      ExtendsSelf(hi, dflt);
  }

  /** Node creation only fills null links, with value-less nodes; no existing node changes. */
  lemma {:induction false} CreateExtends<V>(t: Tst<V>, key: string, i: nat, dflt: V)
    requires i < |key|
    ensures Extends(t, Grow(t, key, i, dflt, None), dflt)
    decreases t
  {
    match t
    case Nil =>
      ChainNoValues(key, i, dflt);
    case Fork(c, hv, v, lo, eq, hi) =>
      ExtendsSelf(lo, dflt);
      ExtendsSelf(eq, dflt);
      ExtendsSelf(hi, dflt);
      if key[i] < c {
        CreateExtends(lo, key, i, dflt);
      } else if key[i] > c {
        CreateExtends(hi, key, i, dflt);
      } else if i + 1 < |key| {
        CreateExtends(eq, key, i + 1, dflt);
      }
  }

  /** Where the walk already reaches a node, node creation creates nothing. */
  lemma {:induction false} CreateExisting<V>(t: Tst<V>, key: string, i: nat, dflt: V)
    requires i < |key| && Find(t, key, i).Fork?
    ensures Grow(t, key, i, dflt, None) == t
    decreases t
  {
    match t
    case Fork(c, hv, v, lo, eq, hi) =>
      if key[i] < c {
        CreateExisting(lo, key, i, dflt);
      } else if key[i] > c {
        CreateExisting(hi, key, i, dflt);
      } else if i + 1 < |key| {
        CreateExisting(eq, key, i + 1, dflt);
      }
  }

  /** Creating the nodes of a key a second time changes nothing. */
  lemma CreateIdempotent<V>(t: Tst<V>, key: string, i: nat, dflt: V)
    requires i < |key|
    ensures Grow(Grow(t, key, i, dflt, None), key, i, dflt, None) == Grow(t, key, i, dflt, None)
  {
    CreateExisting(Grow(t, key, i, dflt, None), key, i, dflt);
  }

  // ---------------------------------------------------------------------------------------------------
  // Prefixes

  lemma {:induction false} ChainPrefixFound<V>(key: string, i: nat, dflt: V, put: Option<V>, j: nat)
    requires i < j <= |key|
    ensures Find(Chain(key, i, dflt, put), key[..j], i).Fork?
    decreases |key| - i
  {
    if i + 1 < j {
      ChainPrefixFound(key, i + 1, dflt, put, j);
    }
  }

  /**
   * After inserting a key, the walk of every non-empty prefix of it reaches a node: the lookup that does
   * not check for a value finds every such prefix, with or without a value.
   */
  lemma {:induction false} GrowPrefixFound<V>(t: Tst<V>, key: string, i: nat, dflt: V, put: Option<V>, j: nat)
    requires i < j <= |key|
    ensures Find(Grow(t, key, i, dflt, put), key[..j], i).Fork?
    decreases t
  {
    match t
    case Nil =>
      ChainPrefixFound(key, i, dflt, put, j);
    case Fork(c, hv, v, lo, eq, hi) =>
      if key[i] < c {
        GrowPrefixFound(lo, key, i, dflt, put, j);
      } else if key[i] > c {
        GrowPrefixFound(hi, key, i, dflt, put, j);
      } else if i + 1 < j {
        GrowPrefixFound(eq, key, i + 1, dflt, put, j);
      }
  }

  // ---------------------------------------------------------------------------------------------------
  // Insertion as node creation followed by setting the value

  lemma {:induction false} ChainPut<V>(key: string, i: nat, dflt: V, v: V)
    requires i < |key|
    ensures var c := Chain(key, i, dflt, None);
            Replace(c, Path(c, key, i), Put(Find(c, key, i), Some(v))) == Chain(key, i, dflt, Some(v))
    decreases |key| - i
  {
    if i + 1 < |key| {
      ChainPut(key, i + 1, dflt, v);
    }
  }

  /**
   * The dictionary's insertion is `CreateNodes` followed by setting the value of the node where the walk
   * ends: replacing that node by its valued copy gives the tree insertion describes.
   */
  lemma {:induction false} GrowPut<V>(t: Tst<V>, key: string, i: nat, dflt: V, v: V)
    requires i < |key|
    ensures var g := Grow(t, key, i, dflt, None);
            Replace(g, Path(g, key, i), Put(Find(g, key, i), Some(v))) == Grow(t, key, i, dflt, Some(v))
    decreases t
  {
    match t
    case Nil =>
      ChainPut(key, i, dflt, v);
    case Fork(c, hv, tv, lo, eq, hi) =>
      if key[i] < c {
        GrowPut(lo, key, i, dflt, v);
      } else if key[i] > c {
        GrowPut(hi, key, i, dflt, v);
      } else if i + 1 < |key| {
        GrowPut(eq, key, i + 1, dflt, v);
      }
  }
}
