/**
 * What `RemoveNode` does to the represented tree, as written (`TernaryTree.Remove`), two inputs on which
 * it goes wrong, and the removal it evidently intends (`RemoveFixed`), proved exact.
 */
module Removal {
  import opened Wrappers
  import opened TernaryTree

  /**
   * `a` is `b` with some values cleared and some subtrees cut off: the same split characters where both
   * have a node, and every value `a` holds is held by `b` at the same place.
   */
  ghost predicate Pruned<V>(a: Tst<V>, b: Tst<V>) {
    match a
    case Nil => true
    case Fork(c, hv, v, lo, eq, hi) =>
      b.Fork? && b.split == c && (hv ==> b.hasValue && b.value == v) &&
      Pruned(lo, b.lower) && Pruned(eq, b.equal) && Pruned(hi, b.higher)
  }

  lemma {:induction false} PrunedSelf<V>(t: Tst<V>)
    ensures Pruned(t, t)
  {
    match t
    case Nil =>
    case Fork(_, _, _, lo, eq, hi) =>
      PrunedSelf(lo);
      PrunedSelf(eq);
      PrunedSelf(hi);
  }

  /** A pruned tree holds no entry that the original does not hold with the same value. */
  lemma {:induction false} PrunedLookup<V>(a: Tst<V>, b: Tst<V>, k: string, i: nat)
    requires Pruned(a, b) && i < |k|
    ensures LookupFrom(a, k, i).Some? ==> LookupFrom(a, k, i) == LookupFrom(b, k, i)
    decreases a
  {
    match a
    case Nil =>
    case Fork(c, _, _, lo, eq, hi) =>
      if k[i] < c {
        PrunedLookup(lo, b.lower, k, i);
      } else if k[i] > c {
        PrunedLookup(hi, b.higher, k, i);
      } else if i + 1 < |k| {
        PrunedLookup(eq, b.equal, k, i + 1);
      }
  }

  lemma {:induction false} PrunedCount<V>(a: Tst<V>, b: Tst<V>)
    requires Pruned(a, b)
    ensures CountValues(a) <= CountValues(b)
  {
    match a
    case Nil =>
    case Fork(_, _, _, lo, eq, hi) =>
      PrunedCount(lo, b.lower);
      PrunedCount(eq, b.equal);
      PrunedCount(hi, b.higher);
  }

  lemma {:induction false} PrunedOrdered<V>(a: Tst<V>, b: Tst<V>, lo: Option<char>, hi: Option<char>)
    requires Pruned(a, b) && OrderedIn(b, lo, hi)
    ensures OrderedIn(a, lo, hi)
  {
    match a
    case Nil =>
    case Fork(c, _, _, l, e, h) =>
      PrunedOrdered(l, b.lower, lo, Some(c));
      PrunedOrdered(e, b.equal, None, None);
      PrunedOrdered(h, b.higher, Some(c), hi);
  }

  // ---------------------------------------------------------------------------------------------------
  // RemoveNode as written

  /**
   * On the node where the key ends (no sibling step applies and the key does not continue),
   * `RemoveNode` clears the node's value and returns `CanBeRemoved`, or returns false when there is no
   * value to clear.
   */
  lemma RemoveAtEnd<V>(t: Tst<V>, key: string, i: nat, dflt: V)
    requires i + 1 == |key| && t.Fork? && key[i] == t.split
    ensures Safe(t, key, i, dflt)
    ensures Remove(t, key, i, dflt) ==
      if t.hasValue then (t.(hasValue := false, value := dflt), Removable(t.(hasValue := false, value := dflt)))
      else (t, false)
  {
  }

  /** `RemoveNode` only clears values and cuts off removable nodes. */
  lemma {:induction false} RemovePrunes<V>(t: Tst<V>, key: string, i: nat, dflt: V)
    requires i < |key| && Safe(t, key, i, dflt)
    ensures Pruned(Remove(t, key, i, dflt).0, t)
    decreases t
  {
    var c := t.split;
    RemoveShape(t, key, i, dflt);
    PrunedSelf(t.lower);
    PrunedSelf(t.equal);
    PrunedSelf(t.higher);
    if key[i] < c {
      RemovePrunes(t.lower, key, i, dflt);
    }
    if key[i] > c {
      RemovePrunes(t.higher, key, i, dflt);
    }
    if i < |key| - 1 && !(key[i] < c && Remove(t.lower, key, i, dflt).1) && !(key[i] > c && Remove(t.higher, key, i, dflt).1) {
      RemovePrunes(t.equal, key, i + 1, dflt);
    }
  }

  /**
   * The node `RemoveNode` leaves behind: each child is the original, or what the call on it made of it,
   * or gone when that call returned true; its value is the original or cleared.
   */
  lemma RemoveShape<V>(t: Tst<V>, key: string, i: nat, dflt: V)
    requires i < |key| && Safe(t, key, i, dflt)
    ensures var r, c := Remove(t, key, i, dflt).0, t.split;
      var callLo := key[i] < c;
      var callHi := key[i] > c;
      var callEq := i < |key| - 1 && !(callLo && Remove(t.lower, key, i, dflt).1) && !(callHi && Remove(t.higher, key, i, dflt).1);
      && r.lower == (if !callLo then t.lower else if Remove(t.lower, key, i, dflt).1 then Nil else Remove(t.lower, key, i, dflt).0)
      && r.higher == (if !callHi then t.higher else if Remove(t.higher, key, i, dflt).1 then Nil else Remove(t.higher, key, i, dflt).0)
      && r.equal == (if !callEq then t.equal else if Remove(t.equal, key, i + 1, dflt).1 then Nil else Remove(t.equal, key, i + 1, dflt).0)
      && (r.hasValue ==> t.hasValue && r.value == t.value)
      && (key[i] == c && i + 1 == |key| ==> !r.hasValue)
  {
  }

  /** After `RemoveNode` the removed key is no longer found. */
  lemma {:induction false} RemoveClearsKey<V>(t: Tst<V>, key: string, i: nat, dflt: V)
    requires i < |key| && Safe(t, key, i, dflt)
    ensures LookupFrom(Remove(t, key, i, dflt).0, key, i) == None
    decreases t
  {
    var c := t.split;
    var r := Remove(t, key, i, dflt).0;
    RemoveShape(t, key, i, dflt);
    if key[i] < c {
      RemoveClearsKey(t.lower, key, i, dflt);
      assert Find(r, key, i) == Find(r.lower, key, i);
    } else if key[i] > c {
      RemoveClearsKey(t.higher, key, i, dflt);
      assert Find(r, key, i) == Find(r.higher, key, i);
    } else if i + 1 < |key| {
      RemoveClearsKey(t.equal, key, i + 1, dflt);
      assert Find(r, key, i) == Find(r.equal, key, i + 1);
    } else {
      assert Find(r, key, i) == r;
    }
  }

  /**
   * What the dictionary can rely on after `RemoveNode(root, key, 0)`: the key is gone, no entry appears
   * and no value changes, the count does not grow, and the sibling order is kept.
   */
  lemma RemoveEffect<V>(t: Tst<V>, key: string, dflt: V, k: string)
    requires |key| > 0 && Safe(t, key, 0, dflt)
    ensures Lookup(Remove(t, key, 0, dflt).0, key) == None
    ensures |k| > 0 && Lookup(Remove(t, key, 0, dflt).0, k).Some? ==> Lookup(Remove(t, key, 0, dflt).0, k) == Lookup(t, k)
    ensures CountValues(Remove(t, key, 0, dflt).0) <= CountValues(t)
    ensures Ordered(t) ==> Ordered(Remove(t, key, 0, dflt).0)
  {
    RemoveClearsKey(t, key, 0, dflt);
    RemovePrunes(t, key, 0, dflt);
    if |k| > 0 {
      PrunedLookup(Remove(t, key, 0, dflt).0, t, k, 0);
    }
    PrunedCount(Remove(t, key, 0, dflt).0, t);
    if Ordered(t) {
      PrunedOrdered(Remove(t, key, 0, dflt).0, t, None, None);
    }
  }

  /** The tree holding "b", "a" and "ab", inserted in that order. */
  function BAAb(): Tst<int> {
    Fork('b', true, 1, Fork('a', true, 2, Nil, Fork('b', true, 3, Nil, Nil, Nil), Nil), Nil, Nil)
  }

  /**
   * A false result of the lower call falls through to clearing the node's own value: removing "a" from
   * the tree holding "b", "a" and "ab" also removes "b".
   */
  lemma RemoveClearsOther()
    ensures BAAb() == Grow(Grow(Grow(Nil, "b", 0, 0, Some(1)), "a", 0, 0, Some(2)), "ab", 0, 0, Some(3))
    ensures Safe(BAAb(), "a", 0, 0)
    ensures Lookup(BAAb(), "b") == Some(1)
    ensures Lookup(Remove(BAAb(), "a", 0, 0).0, "b") == None
  {
  }

  /** The tree holding "a", "ab" and "ac", inserted in that order. */
  function AAbAc(): Tst<int> {
    Fork('a', true, 1, Nil, Fork('b', true, 2, Nil, Nil, Fork('c', true, 3, Nil, Nil, Nil)), Nil)
  }

  /**
   * A false result of the equal call falls through to clearing the node's own value: removing "ab"
   * from the tree holding "a", "ab" and "ac" also removes "a", which the intended removal keeps.
   */
  lemma RemoveClearsPrefix()
    ensures AAbAc() == Grow(Grow(Grow(Nil, "a", 0, 0, Some(1)), "ab", 0, 0, Some(2)), "ac", 0, 0, Some(3))
    ensures Safe(AAbAc(), "ab", 0, 0)
    ensures Lookup(AAbAc(), "a") == Some(1)
    ensures Lookup(Remove(AAbAc(), "ab", 0, 0).0, "a") == None
    ensures Lookup(RemoveFixed(AAbAc(), "ab", 0, 0).0, "a") == Some(1)
  {
  }

  /** The tree holding "b", "ab" and "abc", inserted in that order. */
  function BAbAbc(): Tst<int> {
    Fork('b', true, 1, Fork('a', false, 0, Nil, Fork('b', true, 2, Nil, Fork('c', true, 3, Nil, Nil, Nil), Nil), Nil), Nil, Nil)
  }

  /**
   * A false result of the lower call falls through to the equal call: removing "ab" from the tree
   * holding "b", "ab" and "abc" calls `RemoveNode` on the root's null equal link.
   */
  lemma RemoveUnsafe()
    ensures BAbAbc() == Grow(Grow(Grow(Nil, "b", 0, 0, Some(1)), "ab", 0, 0, Some(2)), "abc", 0, 0, Some(3))
    ensures Lookup(BAbAbc(), "ab") == Some(2)
    ensures !Remove(BAbAbc().lower, "ab", 0, 0).1 && BAbAbc().equal == Nil
    ensures !Safe(BAbAbc(), "ab", 0, 0)
  {
    assert Safe(BAbAbc().lower, "ab", 0, 0);
  }

  // ---------------------------------------------------------------------------------------------------
  // The intended removal

  /**
   * `RemoveNode` with each test final: only the branch the key character selects is taken, a false
   * result is returned as it is, and the walk stops at a null link.
   */
  function RemoveFixed<V>(t: Tst<V>, key: string, i: nat, dflt: V): (r: (Tst<V>, bool))
    requires i < |key|
    ensures r.1 ==> Removable(r.0)
    ensures t.Nil? ==> r == (Nil, false)
    ensures t.Fork? ==> r.0.Fork? && r.0.split == t.split
    decreases t
  {
    match t
    case Nil => (Nil, false)
    case Fork(c, hv, v, lo, eq, hi) =>
      if key[i] < c then
        var (lo', rm) := RemoveFixed(lo, key, i, dflt);
        if rm then (t.(lower := Nil), Removable(t.(lower := Nil))) else (t.(lower := lo'), false)
      else if key[i] > c then
        var (hi', rm) := RemoveFixed(hi, key, i, dflt);
        if rm then (t.(higher := Nil), Removable(t.(higher := Nil))) else (t.(higher := hi'), false)
      else if i + 1 < |key| then
        var (eq', rm) := RemoveFixed(eq, key, i + 1, dflt);
        if rm then (t.(equal := Nil), Removable(t.(equal := Nil))) else (t.(equal := eq'), false)
      else if !hv then (t, false)
      else (t.(hasValue := false, value := dflt), Removable(t.(hasValue := false, value := dflt)))
  }

  /** A removable node holds nothing. */
  lemma RemovableEmpty<V>(t: Tst<V>, k: string, i: nat)
    requires Removable(t) && i < |k|
    ensures LookupFrom(t, k, i) == None
  {
    assert Find(t, k, i) == Nil || Find(t, k, i) == t;
  }

  /** The intended removal removes exactly the key: every other key keeps its lookup. */
  lemma {:induction false} RemoveFixedExact<V>(t: Tst<V>, key: string, i: nat, dflt: V, k: string)
    requires i < |key| && i < |k|
    ensures LookupFrom(RemoveFixed(t, key, i, dflt).0, k, i) == if k[i..] == key[i..] then None else LookupFrom(t, k, i)
    decreases t
  {
    match t
    case Nil =>
    case Fork(c, hv, v, lo, eq, hi) =>
      var r := RemoveFixed(t, key, i, dflt).0;
      if k[i] != key[i] {
        assert k[i..][0] != key[i..][0];
      }
      if key[i] < c {
        var (lo', rm) := RemoveFixed(lo, key, i, dflt);
        assert r == if rm then t.(lower := Nil) else t.(lower := lo');
        if k[i] < c {
          RemoveFixedExact(lo, key, i, dflt, k);
          if rm {
            RemovableEmpty(lo', k, i);
          }
          assert Find(r, k, i) == Find(r.lower, k, i);
        } else {
          SameSubtreeFind(r, t, k, i);
        }
      } else if key[i] > c {
        var (hi', rm) := RemoveFixed(hi, key, i, dflt);
        assert r == if rm then t.(higher := Nil) else t.(higher := hi');
        if k[i] > c {
          RemoveFixedExact(hi, key, i, dflt, k);
          if rm {
            RemovableEmpty(hi', k, i);
          }
          assert Find(r, k, i) == Find(r.higher, k, i);
        } else {
          SameSubtreeFind(r, t, k, i);
        }
      } else if i + 1 < |key| {
        var (eq', rm) := RemoveFixed(eq, key, i + 1, dflt);
        assert r == if rm then t.(equal := Nil) else t.(equal := eq');
        if k[i] == c && i + 1 < |k| {
          RemoveFixedExact(eq, key, i + 1, dflt, k);
          if rm {
            RemovableEmpty(eq', k, i + 1);
          }
          SuffixStep(k, key, i);
          assert Find(r, k, i) == Find(r.equal, k, i + 1);
        } else {
          if k[i] == c {
            assert |k[i..]| != |key[i..]|;
          }
          SameSubtreeFind(r, t, k, i);
        }
      } else {
        assert r.lower == lo && r.equal == eq && r.higher == hi;
        if k[i] == c && i + 1 == |k| {
          assert k[i..] == [k[i]] && key[i..] == [key[i]];
          assert Find(r, k, i) == r;
        } else {
          if k[i] == c {
            assert |k[i..]| != |key[i..]|;
          }
          SameSubtreeFind(r, t, k, i);
        }
      }
  }

  /**
   * A walk that does not end at the root and does not enter the one child in which two nodes differ
   * finds the same in both.
   */
  lemma SameSubtreeFind<V>(r: Tst<V>, t: Tst<V>, k: string, i: nat)
    requires r.Fork? && t.Fork? && r.split == t.split && i < |k|
    requires k[i] < t.split ==> r.lower == t.lower
    requires k[i] > t.split ==> r.higher == t.higher
    requires k[i] == t.split && i + 1 < |k| ==> r.equal == t.equal
    requires k[i] == t.split && i + 1 == |k| ==> r.hasValue == t.hasValue && r.value == t.value
    ensures LookupFrom(r, k, i) == LookupFrom(t, k, i)
  {
  }

  /** Two suffixes agree when their first characters and the rest agree. */
  lemma SuffixStep(k: string, key: string, i: nat)
    requires i + 1 < |k| && i + 1 < |key| && k[i] == key[i]
    ensures (k[i..] == key[i..]) <==> (k[i + 1..] == key[i + 1..])
  {
    assert k[i..] == [k[i]] + k[i + 1..];
    assert key[i..] == [key[i]] + key[i + 1..];
    if k[i..] == key[i..] {
      assert k[i + 1..] == k[i..][1..] && key[i + 1..] == key[i..][1..];
    }
  }

  /** The intended removal takes away one value exactly when the key was stored. */
  lemma {:induction false} RemoveFixedCount<V>(t: Tst<V>, key: string, i: nat, dflt: V)
    requires i < |key|
    ensures CountValues(RemoveFixed(t, key, i, dflt).0) + (if LookupFrom(t, key, i).Some? then 1 else 0) == CountValues(t)
    decreases t
  {
    match t
    case Nil =>
    case Fork(c, hv, v, lo, eq, hi) =>
      if key[i] < c {
        RemoveFixedCount(lo, key, i, dflt);
        assert Find(t, key, i) == Find(lo, key, i);
      } else if key[i] > c {
        RemoveFixedCount(hi, key, i, dflt);
        assert Find(t, key, i) == Find(hi, key, i);
      } else if i + 1 < |key| {
        RemoveFixedCount(eq, key, i + 1, dflt);
        assert Find(t, key, i) == Find(eq, key, i + 1);
      }
  }

  /** The intended removal only clears a value and cuts off removable nodes. */
  lemma {:induction false} RemoveFixedPrunes<V>(t: Tst<V>, key: string, i: nat, dflt: V)
    requires i < |key|
    ensures Pruned(RemoveFixed(t, key, i, dflt).0, t)
    decreases t
  {
    match t
    case Nil =>
    case Fork(c, hv, v, lo, eq, hi) =>
      PrunedSelf(lo);
      PrunedSelf(eq);
      PrunedSelf(hi);
      if key[i] < c {
        RemoveFixedPrunes(lo, key, i, dflt);
      } else if key[i] > c {
        RemoveFixedPrunes(hi, key, i, dflt);
      } else if i + 1 < |key| {
        RemoveFixedPrunes(eq, key, i + 1, dflt);
      }
  }

  /**
   * The intended removal from the root removes exactly `key`, lowers the count by one when it was stored,
   * and keeps the sibling order.
   */
  lemma RemoveFixedEffect<V>(t: Tst<V>, key: string, dflt: V, k: string)
    requires |key| > 0 && |k| > 0
    ensures Lookup(RemoveFixed(t, key, 0, dflt).0, k) == if k == key then None else Lookup(t, k)
    ensures CountValues(RemoveFixed(t, key, 0, dflt).0) == CountValues(t) - (if Lookup(t, key).Some? then 1 else 0)
    ensures Ordered(t) ==> Ordered(RemoveFixed(t, key, 0, dflt).0)
  {
    RemoveFixedExact(t, key, 0, dflt, k);
    assert k[0..] == k && key[0..] == key;
    RemoveFixedCount(t, key, 0, dflt);
    RemoveFixedPrunes(t, key, 0, dflt);
    if Ordered(t) {
      PrunedOrdered(RemoveFixed(t, key, 0, dflt).0, t, None, None);
    }
  }

  // ---------------------------------------------------------------------------------------------------
  // Simplification (`CanBeSimplified`)

  /** The only sibling child of a simplifiable node. */
  function OnlyChild<V>(t: Tst<V>): Tst<V>
    requires Simplifiable(t)
  {
    if t.lower.Fork? then t.lower else t.higher
  }

  /** In a layer bounded by `lo` and `hi`, a key whose character at `i` lies outside the bounds reaches no node. */
  lemma {:induction false} OutsideNotFound<V>(t: Tst<V>, k: string, i: nat, lo: Option<char>, hi: Option<char>)
    requires i < |k| && OrderedIn(t, lo, hi) && !Within(k[i], lo, hi)
    ensures Find(t, k, i).Nil?
  {
    match t
    case Nil =>
    case Fork(c, _, _, l, _, h) =>
      if k[i] < c {
        OutsideNotFound(l, k, i, lo, Some(c));
      } else if k[i] > c {
        OutsideNotFound(h, k, i, Some(c), hi);
      } else {
        assert false;
      }
  }

  /**
   * A node that `CanBeSimplified` in an ordered layer can be replaced by its only sibling child without
   * changing the value any key finds.
   */
  lemma SimplifyKeepsLookups<V>(t: Tst<V>, lo: Option<char>, hi: Option<char>, k: string, i: nat)
    requires OrderedIn(t, lo, hi) && Simplifiable(t) && i < |k|
    ensures LookupFrom(OnlyChild(t), k, i) == LookupFrom(t, k, i)
  {
    var c := t.split;
    if k[i] < c {
      assert Find(t, k, i) == Find(t.lower, k, i);
      if t.higher.Fork? {
        OutsideNotFound(t.higher, k, i, Some(c), hi);
      }
    } else if k[i] > c {
      assert Find(t, k, i) == Find(t.higher, k, i);
      if t.lower.Fork? {
        OutsideNotFound(t.lower, k, i, lo, Some(c));
      }
    } else {
      if t.lower.Fork? {
        OutsideNotFound(t.lower, k, i, lo, Some(c));
      } else {
        OutsideNotFound(t.higher, k, i, Some(c), hi);
      }
      if i + 1 < |k| {
        assert Find(t, k, i) == Find(Nil, k, i + 1);
      }
    }
  }
}
