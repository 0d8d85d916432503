/**
 * What the recursive enumerations (`GetAllKeys`, `GetAllValues`, `GetAllKeyValuePairs`) yield, stated on
 * the represented tree: one item per node with a value, in pre-order, the three enumerations in step,
 * and, for a tree whose sibling layers are ordered, exactly the stored keys, each once.
 */
module Enumeration {
  import opened Wrappers
  import opened TernaryTree

  function Firsts<K, V>(s: seq<(K, V)>): (r: seq<K>)
    ensures |r| == |s| && forall i | 0 <= i < |s| :: r[i] == s[i].0
  {
    seq(|s|, i requires 0 <= i < |s| => s[i].0)
  }

  function Seconds<K, V>(s: seq<(K, V)>): (r: seq<V>)
    ensures |r| == |s| && forall i | 0 <= i < |s| :: r[i] == s[i].1
  {
    seq(|s|, i requires 0 <= i < |s| => s[i].1)
  }

  lemma SplitAppend<K, V>(a: seq<(K, V)>, b: seq<(K, V)>)
    ensures Firsts(a + b) == Firsts(a) + Firsts(b)
    ensures Seconds(a + b) == Seconds(a) + Seconds(b)
  {
    assert forall i | 0 <= i < |a + b| :: Firsts(a + b)[i] == (Firsts(a) + Firsts(b))[i];
    assert forall i | 0 <= i < |a + b| :: Seconds(a + b)[i] == (Seconds(a) + Seconds(b))[i];
  }

  ghost predicate Distinct<T>(s: seq<T>) {
    forall i, j | 0 <= i < j < |s| :: s[i] != s[j]
  }

  /** `key` is a proper prefix of `k`: `k` is `key` followed by at least one more character. */
  predicate ProperPrefix(key: string, k: string) {
    |k| > |key| && k[..|key|] == key
  }

  // ---------------------------------------------------------------------------------------------------
  // Counting and order

  /** `GetAllKeys` yields one key per node with a value. */
  lemma {:induction false} KeysCount<V>(t: Tst<V>, key: string)
    ensures |Keys(t, key)| == CountValues(t)
  {
    match t
    case Nil =>
    case Fork(c, _, _, lo, eq, hi) =>
      KeysCount(lo, key);
      KeysCount(eq, key + [c]);
      KeysCount(hi, key);
  }

  /** `GetAllValues` yields one value per node with a value. */
  lemma {:induction false} ValuesCount<V>(t: Tst<V>)
    ensures |Values(t)| == CountValues(t)
  {
    match t
    case Nil =>
    case Fork(_, _, _, lo, eq, hi) =>
      ValuesCount(lo);
      ValuesCount(eq);
      ValuesCount(hi);
  }

  /**
   * `GetAllKeyValuePairs` visits the nodes in the order of the other two enumerations: its keys are
   * `GetAllKeys`'s output and its values are `GetAllValues`'s output.
   */
  lemma PairsInStep<V>(t: Tst<V>, key: string)
    ensures Firsts(Pairs(t, key)) == Keys(t, key)
    ensures Seconds(Pairs(t, key)) == Values(t)
  {
    PairsKeys(t, key);
    PairsValues(t, key);
  }

  lemma {:induction false} PairsKeys<V>(t: Tst<V>, key: string)
    ensures Firsts(Pairs(t, key)) == Keys(t, key)
  {
    match t
    case Nil =>
    case Fork(c, hv, v, lo, eq, hi) =>
      PairsKeys(lo, key);
      PairsKeys(eq, key + [c]);
      PairsKeys(hi, key);
      var own: seq<(string, V)> := if hv then [(key + [c], v)] else [];
      var a, b, d := Pairs(lo, key), Pairs(eq, key + [c]), Pairs(hi, key);
      SplitAppend(own, a);
      SplitAppend(own + a, b);
      SplitAppend(own + a + b, d);
  }

  lemma {:induction false} PairsValues<V>(t: Tst<V>, key: string)
    ensures Seconds(Pairs(t, key)) == Values(t)
  {
    match t
    case Nil =>
    case Fork(c, hv, v, lo, eq, hi) =>
      PairsValues(lo, key);
      PairsValues(eq, key + [c]);
      PairsValues(hi, key);
      var own: seq<(string, V)> := if hv then [(key + [c], v)] else [];
      var a, b, d := Pairs(lo, key), Pairs(eq, key + [c]), Pairs(hi, key);
      SplitAppend(own, a);
      SplitAppend(own + a, b);
      SplitAppend(own + a + b, d);
  }

  /** The tree that inserting "b" and then "a" builds. */
  function BThenA(): Tst<int> {
    Grow(Grow(Nil, "b", 0, 0, Some(1)), "a", 0, 0, Some(2))
  }

  /** The enumeration is pre-order, not sorted: after inserting "b" and then "a" the keys come as "b", "a". */
  lemma KeysPreOrder()
    ensures Keys(BThenA(), []) == ["b", "a"]
    ensures Lookup(BThenA(), "a") == Some(2) && Lookup(BThenA(), "b") == Some(1)
  {
    assert BThenA() == Fork('b', true, 1, Fork('a', true, 2, Nil, Nil, Nil), Nil, Nil);
    assert [] + ['b'] == "b" && [] + ['a'] == "a";
  }

  // ---------------------------------------------------------------------------------------------------
  // Exactly the stored keys

  /**
   * Every pair enumerated under `key` in a layer bounded by `lo` and `hi` is a stored key extending `key`
   * with its value, and its character after `key` lies within the bounds.
   */
  lemma {:induction false} PairsSound<V>(t: Tst<V>, key: string, lo: Option<char>, hi: Option<char>, k: string, v: V)
    requires OrderedIn(t, lo, hi) && (k, v) in Pairs(t, key)
    ensures ProperPrefix(key, k) && Within(k[|key|], lo, hi) && LookupFrom(t, k, |key|) == Some(v)
  {
    match t
    case Fork(c, hv, tv, l, e, h) =>
      var key' := key + [c];
      if hv && (k, v) == (key', tv) {
        assert k[..|key|] == key && k[|key|] == c;
      } else if (k, v) in Pairs(l, key) {
        PairsSound(l, key, lo, Some(c), k, v);
      } else if (k, v) in Pairs(e, key') {
        PairsSound(e, key', None, None, k, v);
        assert k[..|key'|][..|key|] == k[..|key|];
        assert k[|key|] == k[..|key'|][|key|];
      } else {
        assert (k, v) in Pairs(h, key);
        PairsSound(h, key, Some(c), hi, k, v);
      }
  }

  /** Every stored key extending `key` is enumerated under `key`, with its value. */
  lemma {:induction false} PairsComplete<V>(t: Tst<V>, key: string, k: string)
    requires ProperPrefix(key, k) && LookupFrom(t, k, |key|).Some?
    ensures (k, LookupFrom(t, k, |key|).value) in Pairs(t, key)
  {
    match t
    case Fork(c, hv, tv, l, e, h) =>
      var i := |key|;
      if k[i] < c {
        PairsComplete(l, key, k);
      } else if k[i] > c {
        PairsComplete(h, key, k);
      } else if i + 1 == |k| {
        assert k == key + [c];
      } else {
        assert k[..i + 1] == key + [c];
        PairsComplete(e, key + [c], k);
      }
  }

  /** In an ordered tree, the pairs `GetAllKeyValuePairs(root, "")` yields are exactly the stored entries. */
  lemma PairsExact<V>(t: Tst<V>, k: string, v: V)
    requires Ordered(t)
    ensures (k, v) in Pairs(t, []) <==> |k| > 0 && Lookup(t, k) == Some(v)
  {
    if (k, v) in Pairs(t, []) {
      PairsSound(t, [], None, None, k, v);
    }
    if |k| > 0 && Lookup(t, k) == Some(v) {
      PairsComplete(t, [], k);
    }
  }

  /** In an ordered tree, the keys `GetAllKeys(root, "")` yields are exactly the stored keys. */
  lemma KeysExact<V>(t: Tst<V>, k: string)
    requires Ordered(t)
    ensures k in Keys(t, []) <==> |k| > 0 && Lookup(t, k).Some?
  {
    PairsInStep(t, []);
    var s := Pairs(t, []);
    if k in Keys(t, []) {
      var i :| 0 <= i < |s| && Firsts(s)[i] == k;
      PairsSound(t, [], None, None, k, s[i].1);
    }
    if |k| > 0 && Lookup(t, k).Some? {
      PairsComplete(t, [], k);
      var i :| 0 <= i < |s| && s[i] == (k, Lookup(t, k).value);
      assert Firsts(s)[i] == k;
    }
  }

  /** The keys enumerated in a layer bounded by `lo` and `hi` are pairwise different. */
  lemma {:induction false} KeysDistinctIn<V>(t: Tst<V>, key: string, lo: Option<char>, hi: Option<char>)
    requires OrderedIn(t, lo, hi)
    ensures Distinct(Keys(t, key))
  {
    match t
    case Nil =>
    case Fork(c, hv, tv, l, e, h) =>
      var key' := key + [c];
      KeysDistinctIn(l, key, lo, Some(c));
      KeysDistinctIn(e, key', None, None);
      KeysDistinctIn(h, key, Some(c), hi);
      var own: seq<string> := if hv then [key'] else [];
      var a, b, d := Keys(l, key), Keys(e, key'), Keys(h, key);
      forall k | k in a ensures ProperPrefix(key, k) && k[|key|] < c {
        KeyBounded(l, key, lo, Some(c), k);
      }
      forall k | k in b ensures ProperPrefix(key', k) {
        KeyBounded(e, key', None, None, k);
      }
      forall k | k in d ensures ProperPrefix(key, k) && k[|key|] > c {
        KeyBounded(h, key, Some(c), hi, k);
      }
      forall k | k in b ensures |k| > |key'| && k[|key|] == c {
        assert k[..|key'|][|key|] == k[|key|];
      }
      DistinctAppend(own, a);
      DistinctAppend(own + a, b);
      DistinctAppend(own + a + b, d);
  }

  /** A key enumerated under `key` extends it, and its next character lies within the layer's bounds. */
  lemma KeyBounded<V>(t: Tst<V>, key: string, lo: Option<char>, hi: Option<char>, k: string)
    requires OrderedIn(t, lo, hi) && k in Keys(t, key)
    ensures ProperPrefix(key, k) && Within(k[|key|], lo, hi)
  {
    PairsInStep(t, key);
    var s := Pairs(t, key);
    var i :| 0 <= i < |s| && Firsts(s)[i] == k;
    PairsSound(t, key, lo, hi, k, s[i].1);
  }

  lemma DistinctAppend<T>(a: seq<T>, b: seq<T>)
    requires Distinct(a) && Distinct(b) && forall x | x in a :: x !in b
    ensures Distinct(a + b)
  {
    forall i, j | 0 <= i < j < |a + b| ensures (a + b)[i] != (a + b)[j] {
      if j < |a| {
        assert (a + b)[i] == a[i] && (a + b)[j] == a[j];
      } else if i < |a| {
        assert (a + b)[i] == a[i] && (a + b)[j] == b[j - |a|];
        assert a[i] in a && b[j - |a|] in b;
      } else {
        assert (a + b)[i] == b[i - |a|] && (a + b)[j] == b[j - |a|];
      }
    }
  }

  /** `GetAllKeys(root, "")` of an ordered tree yields each key once. */
  lemma KeysDistinct<V>(t: Tst<V>)
    requires Ordered(t)
    ensures Distinct(Keys(t, []))
  {
    KeysDistinctIn(t, [], None, None);
  }
}
