/** The algebra of positions: subtrees, replacement at a slot, and walks along a position. */
module Positions {
  import opened Wrappers
  import opened TernaryTree

  lemma {:induction false} SubAppend<V>(t: Tst<V>, p: Pos, q: Pos)
    ensures Sub(t, p + q) == Sub(Sub(t, p), q)
    decreases p
  {
    if p == [] {
      assert p + q == q;
    } else {
      assert (p + q)[0] == p[0] && (p + q)[1..] == p[1..] + q;
      SubAppend(Child(t, p[0]), p[1..], q);
    }
  }

  lemma SubSnoc<V>(t: Tst<V>, p: Pos, d: Dir)
    ensures Sub(t, p + [d]) == Child(Sub(t, p), d)
  {
    SubAppend(t, p, [d]);
    assert [d][1..] == [];
  }

  lemma {:induction false} SubNil<V>(q: Pos)
    ensures Sub<V>(Nil, q) == Nil
    decreases q
  {
    if q != [] {
      SubNil<V>(q[1..]);
    }
  }

  /** Below a null link there is nothing. */
  lemma NilBelow<V>(t: Tst<V>, p: Pos, q: Pos)
    requires Sub(t, p).Nil?
    ensures Sub(t, p + q).Nil?
  {
    SubAppend(t, p, q);
    SubNil<V>(q);
  }

  /** Every node position is a slot. */
  lemma {:induction false} ForkIsSlot<V>(t: Tst<V>, p: Pos)
    requires Sub(t, p).Fork?
    ensures IsSlot(t, p)
    decreases p
  {
    if p != [] {
      if t.Nil? {
        SubNil<V>(p[1..]);
      } else {
        ForkIsSlot(Child(t, p[0]), p[1..]);
      }
    }
  }

  /** A child slot of a node is a slot. */
  lemma ChildIsSlot<V>(t: Tst<V>, p: Pos, d: Dir)
    requires Sub(t, p).Fork?
    ensures IsSlot(t, p + [d])
  {
    ForkIsSlot(t, p);
    SlotSnoc(t, p, d);
  }

  lemma {:induction false} SlotSnoc<V>(t: Tst<V>, p: Pos, d: Dir)
    requires IsSlot(t, p) && Sub(t, p).Fork?
    ensures IsSlot(t, p + [d])
    decreases p
  {
    if p == [] {
      assert [d][1..] == [];
    } else {
      assert (p + [d])[1..] == p[1..] + [d];
      SlotSnoc(Child(t, p[0]), p[1..], d);
    }
  }

  /**
   * Replacing the subtree at slot `q` changes exactly what lies at or below `q`: positions extending `q`
   * now see `s`, and every other position keeps its node's own fields (and whether it is a node).
   */
  lemma {:induction false} SubReplace<V>(t: Tst<V>, q: Pos, s: Tst<V>, r: Pos)
    requires IsSlot(t, q)
    ensures IsPrefix(q, r) ==> Sub(Replace(t, q, s), r) == Sub(s, r[|q|..])
    ensures !IsPrefix(q, r) ==> SameTop(Sub(Replace(t, q, s), r), Sub(t, r))
    ensures !IsPrefix(q, r) && !IsPrefix(r, q) ==> Sub(Replace(t, q, s), r) == Sub(t, r)
    decreases q
  {
    if q == [] {
      assert r[0..] == r;
    } else if r == [] {
      assert IsPrefix(r, q);
    } else if r[0] != q[0] {
      assert !IsPrefix(q, r) && !IsPrefix(r, q);
      assert Child(Replace(t, q, s), r[0]) == Child(t, r[0]);
    } else {
      SubReplace(Child(t, q[0]), q[1..], s, r[1..]);
      assert IsPrefix(q, r) <==> IsPrefix(q[1..], r[1..]) by {
        if |q| <= |r| {
          assert r[..|q|] == [r[0]] + r[1..][..|q| - 1];
          assert q == [q[0]] + q[1..];
        }
      }
      assert IsPrefix(r, q) <==> IsPrefix(r[1..], q[1..]) by {
        if |r| <= |q| {
          assert q[..|r|] == [q[0]] + q[1..][..|r| - 1];
          assert r == [r[0]] + r[1..];
        }
      }
      if IsPrefix(q, r) {
        assert r[|q|..] == r[1..][|q| - 1..];
      }
    }
  }

  /** What was put at a slot is found there. */
  lemma ReplaceAt<V>(t: Tst<V>, q: Pos, s: Tst<V>)
    requires IsSlot(t, q)
    ensures Sub(Replace(t, q, s), q) == s
  {
    SubReplace(t, q, s, q);
    assert q[|q|..] == [];
  }

  /** Replacing twice at the same slot keeps only the second replacement. */
  lemma {:induction false} ReplaceReplace<V>(t: Tst<V>, q: Pos, s1: Tst<V>, s2: Tst<V>)
    requires IsSlot(t, q) && (q != [] ==> s1.Fork?)
    ensures Replace(Replace(t, q, s1), q, s2) == Replace(t, q, s2)
    decreases q
  {
    if q != [] {
      ReplaceReplace(Child(t, q[0]), q[1..], s1, s2);
    }
  }

  /** Replacing inside a replaced subtree is replacing inside the replacement. */
  lemma {:induction false} ReplaceInside<V>(t: Tst<V>, p: Pos, s: Tst<V>, q: Pos, u: Tst<V>)
    requires IsSlot(t, p)
    ensures Replace(Replace(t, p, s), p + q, u) == Replace(t, p, Replace(s, q, u))
    decreases p
  {
    if p == [] {
      assert p + q == q;
    } else {
      assert (p + q)[0] == p[0] && (p + q)[1..] == p[1..] + q;
      ReplaceInside(Child(t, p[0]), p[1..], s, q, u);
    }
  }

  /** Replacing a child of a replaced node is replacing that node by one with the new child. */
  lemma ReplaceChildOf<V>(t: Tst<V>, p: Pos, n: Tst<V>, d: Dir, x: Tst<V>)
    requires IsSlot(t, p) && n.Fork?
    ensures Replace(Replace(t, p, n), p + [d], x) == Replace(t, p, WithChild(n, d, x))
    ensures IsSlot(Replace(t, p, n), p) && IsSlot(Replace(t, p, WithChild(n, d, x)), p)
    ensures Sub(Replace(t, p, WithChild(n, d, x)), p) == WithChild(n, d, x)
  {
    ReplaceInside(t, p, n, [d], x);
    assert Replace(n, [d], x) == WithChild(n, d, x) by {
      assert [d][1..] == [];
    }
    ReplaceAt(t, p, WithChild(n, d, x));
    ReplaceKeepsSlot(t, p, n);
    ReplaceKeepsSlot(t, p, WithChild(n, d, x));
  }

  /** A slot stays a slot when it is filled. */
  lemma {:induction false} ReplaceKeepsSlot<V>(t: Tst<V>, p: Pos, n: Tst<V>)
    requires IsSlot(t, p)
    ensures IsSlot(Replace(t, p, n), p)
    decreases p
  {
    if p != [] {
      ReplaceKeepsSlot(Child(t, p[0]), p[1..], n);
    }
  }

  /** Putting back what is already there changes nothing. */
  lemma {:induction false} ReplaceSelf<V>(t: Tst<V>, q: Pos)
    requires IsSlot(t, q)
    ensures Replace(t, q, Sub(t, q)) == t
    decreases q
  {
    if q != [] {
      ReplaceSelf(Child(t, q[0]), q[1..]);
      match q[0]
      case Lo =>
      case Eq =>
      case Hi =>
    }
  }

  /** The values counted after a replacement: those of the part kept plus those of the new part. */
  lemma {:induction false} CountReplace<V>(t: Tst<V>, q: Pos, s: Tst<V>)
    requires IsSlot(t, q)
    ensures CountValues(Replace(t, q, s)) + CountValues(Sub(t, q)) == CountValues(t) + CountValues(s)
    decreases q
  {
    if q != [] {
      CountReplace(Child(t, q[0]), q[1..], s);
    }
  }

  // ---------------------------------------------------------------------------------------------------
  // Walks

  /**
   * A walk that has followed `p` continues from the subtree at `p`: what it finally reaches, and the
   * links it follows, are decided from there on.
   */
  lemma {:induction false} WalkToFind<V>(t: Tst<V>, key: string, p: Pos, i0: nat, i: nat)
    requires WalkTo(t, key, p, i0, i)
    ensures i0 <= i < |key| && IsSlot(t, p)
    ensures Find(t, key, i0) == Find(Sub(t, p), key, i)
    ensures Path(t, key, i0) == p + Path(Sub(t, p), key, i)
    decreases p
  {
    if p != [] {
      WalkToFind(Child(t, p[0]), key, p[1..], Next(i0, p[0]), i);
      assert p == [p[0]] + p[1..];
    }
  }

  /** A walk extends by one more possible step. */
  lemma {:induction false} WalkToSnoc<V>(t: Tst<V>, key: string, p: Pos, i0: nat, i: nat, d: Dir)
    requires WalkTo(t, key, p, i0, i) && StepTo(Sub(t, p), key, i, d)
    ensures WalkTo(t, key, p + [d], i0, Next(i, d))
    decreases p
  {
    if p == [] {
      assert [d][1..] == [];
    } else {
      assert (p + [d])[0] == p[0] && (p + [d])[1..] == p[1..] + [d];
      WalkToSnoc(Child(t, p[0]), key, p[1..], Next(i0, p[0]), i, d);
    }
  }

  /**
   * A walk along `p` only looks at the nodes strictly above `p`; a replacement at any slot that is not
   * strictly above `p` keeps it.
   */
  lemma {:induction false} WalkToReplace<V>(t: Tst<V>, key: string, p: Pos, i0: nat, i: nat, q: Pos, s: Tst<V>)
    requires WalkTo(t, key, p, i0, i)
    requires !(IsPrefix(q, p) && q != p)
    ensures WalkTo(Replace(t, q, s), key, p, i0, i)
    decreases p
  {
    if p != [] {
      assert q != [];
      var t' := Replace(t, q, s);
      if p[0] == q[0] {
        assert IsPrefix(q[1..], p[1..]) ==> IsPrefix(q, p) by {
          if IsPrefix(q[1..], p[1..]) {
            assert p[..|q|] == [p[0]] + p[1..][..|q| - 1];
            assert q == [q[0]] + q[1..];
          }
        }
        assert q[1..] != p[1..] ==> q != p;
        WalkToReplace(Child(t, p[0]), key, p[1..], Next(i0, p[0]), i, q[1..], s);
      } else {
        assert Child(t', p[0]) == Child(t, p[0]);
      }
    }
  }
}
