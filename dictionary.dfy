/**
 * What the dictionary's operations (TernarySearchTree/SearchDictionary.cs) compute on the represented
 * tree, as written, and what they promise across calls: a stored value is read back, other keys are
 * left alone, `Count` follows the insertions, `Add` refuses exactly the stored keys. The lookup that the
 * indexer, `TryGetValue` and `StartsWith` share does not test for a value; the corrected versions of
 * those three, which test it, are proved exact.
 */
module Dictionary {
  import opened Wrappers
  import opened TernaryTree
  import opened Growth
  import opened Enumeration

  const KeyNotPresent := "The given key was not present in the dictionary."
  const KeyEmpty := "Key can not be an empty string."
  const KeyAlreadyAdded := "An item with the same key has already been added to the dictionary."

  // ---------------------------------------------------------------------------------------------------
  // The operations as written

  /**
   * `FindNodeByKey(root, key)`: reading `key[0]` throws for a null or an empty key; otherwise the node
   * where the whole key is consumed, whether or not it holds a value, or `Nil`.
   */
  function Located<V>(t: Tst<V>, key: Option<string>): (r: Result<Tst<V>>)
    ensures r.Throw? <==> key.None? || |key.value| == 0
    ensures r.Ok? ==> (r.value.Fork? && r.value.hasValue <==> Lookup(t, key.value).Some?)
  {
    if key.None? then Throw(NullReferenceException)
    else if |key.value| == 0 then Throw(IndexOutOfRangeException)
    else Ok(Find(t, key.value, 0))
  }

  /** The indexer's getter. */
  function Item<V>(t: Tst<V>, key: Option<string>): Result<V> {
    match Located(t, key)
    case Throw(e) => Throw(e)
    case Ok(n) => if n.Nil? then Throw(KeyNotFoundException(KeyNotPresent)) else Ok(n.value)
  }

  /** `TryGetValue`: the returned flag and the `out` value. */
  function TryGet<V>(t: Tst<V>, key: Option<string>, dflt: V): Result<(bool, V)> {
    match Located(t, key)
    case Throw(e) => Throw(e)
    case Ok(n) => if n.Nil? then Ok((false, dflt)) else Ok((true, n.value))
  }

  /** `ContainsKey`. */
  function Contains<V>(t: Tst<V>, key: Option<string>): Result<bool> {
    match Located(t, key)
    case Throw(e) => Throw(e)
    case Ok(n) => Ok(n.Fork? && n.hasValue)
  }

  /** `StartsWith`: the found node's value, then every value below its equal link. */
  function StartsWith<V>(t: Tst<V>, key: Option<string>): Result<seq<V>> {
    match Located(t, key)
    case Throw(e) => Throw(e)
    case Ok(n) => if n.Nil? then Ok([]) else Ok([n.value] + Values(n.equal))
  }

  /**
   * `Insert(key, value, checkIfKeyExists)`, the body of the indexer's setter (`false`) and of `Add`
   * (`true`): the argument checks, the duplicate check, and otherwise the tree with the key stored.
   */
  function Inserted<V>(t: Tst<V>, key: Option<string>, value: V, checkIfKeyExists: bool, dflt: V): (r: Result<Tst<V>>)
    ensures r.Ok? <==> key.Some? && |key.value| > 0 && !(checkIfKeyExists && Lookup(t, key.value).Some?)
    ensures r.Ok? ==> Lookup(r.value, key.value) == Some(value)
  {
    if key.None? then Throw(ArgumentNullException("key"))
    else if |key.value| == 0 then Throw(ArgumentException(KeyEmpty, "key"))
    else if checkIfKeyExists && Lookup(t, key.value).Some? then Throw(ArgumentException(KeyAlreadyAdded, "key"))
    else Ok(Grow(t, key.value, 0, dflt, Some(value)))
  }

  /** The invariant the dictionary keeps on its tree. */
  ghost predicate Invariant<V>(t: Tst<V>, dflt: V) {
    Ordered(t) && Defaults(t, dflt)
  }

  // ---------------------------------------------------------------------------------------------------
  // Insertion

  /** After a successful insertion the key is contained and reads back the inserted value. */
  lemma InsertThenGet<V>(t: Tst<V>, key: Option<string>, value: V, checkIfKeyExists: bool, dflt: V)
    requires Inserted(t, key, value, checkIfKeyExists, dflt).Ok?
    ensures var t' := Inserted(t, key, value, checkIfKeyExists, dflt).value;
            Item(t', key) == Ok(value) && Contains(t', key) == Ok(true) && TryGet(t', key, dflt) == Ok((true, value))
  {
  }

  /** Insertion changes no stored entry of another key and stores no other key. */
  lemma InsertKeepsOthers<V>(t: Tst<V>, key: Option<string>, value: V, checkIfKeyExists: bool, dflt: V, other: string)
    requires Inserted(t, key, value, checkIfKeyExists, dflt).Ok? && |other| > 0 && other != key.value
    ensures var t' := Inserted(t, key, value, checkIfKeyExists, dflt).value;
            Lookup(t', other) == Lookup(t, other) && Contains(t', Some(other)) == Contains(t, Some(other))
  {
    GrowLookup(t, key.value, 0, dflt, Some(value), other);
  }

  /** An entry the indexer can read keeps its value through an insertion of another key. */
  lemma InsertKeepsItems<V>(t: Tst<V>, key: Option<string>, value: V, checkIfKeyExists: bool, dflt: V, other: string)
    requires Inserted(t, key, value, checkIfKeyExists, dflt).Ok? && |other| > 0 && other != key.value
    requires Contains(t, Some(other)) == Ok(true)
    ensures Item(Inserted(t, key, value, checkIfKeyExists, dflt).value, Some(other)) == Item(t, Some(other))
  {
    GrowLookup(t, key.value, 0, dflt, Some(value), other);
  }

  /** The indexer's setter never refuses a non-empty key; it overwrites a stored value. */
  lemma SetAlwaysStores<V>(t: Tst<V>, key: string, value: V, dflt: V)
    requires |key| > 0
    ensures Inserted(t, Some(key), value, false, dflt).Ok?
  {
  }

  /** `Add` fails exactly for a key that is already contained, and then with the duplicate-key error. */
  lemma AddRefusesStored<V>(t: Tst<V>, key: string, value: V, dflt: V)
    requires |key| > 0
    ensures Inserted(t, Some(key), value, true, dflt).Throw? <==> Contains(t, Some(key)) == Ok(true)
    ensures Inserted(t, Some(key), value, true, dflt).Throw? ==>
              Inserted(t, Some(key), value, true, dflt).error == ArgumentException(KeyAlreadyAdded, "key")
  {
  }

  /** `Count` grows by one exactly when the inserted key was not contained. */
  lemma InsertCount<V>(t: Tst<V>, key: Option<string>, value: V, checkIfKeyExists: bool, dflt: V)
    requires Inserted(t, key, value, checkIfKeyExists, dflt).Ok?
    ensures CountValues(Inserted(t, key, value, checkIfKeyExists, dflt).value)
         == CountValues(t) + if Contains(t, key) == Ok(true) then 0 else 1
  {
    GrowCount(t, key.value, 0, dflt, Some(value));
  }

  /** Insertion keeps the sibling layers ordered and the default in value-less nodes. */
  lemma InsertInvariant<V>(t: Tst<V>, key: Option<string>, value: V, checkIfKeyExists: bool, dflt: V)
    requires Invariant(t, dflt) && Inserted(t, key, value, checkIfKeyExists, dflt).Ok?
    ensures Invariant(Inserted(t, key, value, checkIfKeyExists, dflt).value, dflt)
  {
    GrowOrdered(t, key.value, 0, dflt, Some(value), None, None);
    GrowDefaults(t, key.value, 0, dflt, Some(value));
  }

  /** After an insertion the lookup that does not test for a value reaches a node for every prefix. */
  lemma InsertPrefixesFound<V>(t: Tst<V>, key: Option<string>, value: V, checkIfKeyExists: bool, dflt: V, j: nat)
    requires Inserted(t, key, value, checkIfKeyExists, dflt).Ok? && 0 < j <= |key.value|
    ensures Item(Inserted(t, key, value, checkIfKeyExists, dflt).value, Some(key.value[..j])).Ok?
  {
    GrowPrefixFound(t, key.value, 0, dflt, Some(value), j);
  }

  // ---------------------------------------------------------------------------------------------------
  // Reading

  /** `Clear` leaves the empty tree: nothing is contained, nothing is found, nothing is counted. */
  lemma ClearedIsEmpty<V>(key: string, dflt: V)
    requires |key| > 0
    ensures Contains<V>(Nil, Some(key)) == Ok(false)
    ensures Item<V>(Nil, Some(key)) == Throw(KeyNotFoundException(KeyNotPresent))
    ensures TryGet<V>(Nil, Some(key), dflt) == Ok((false, dflt))
    ensures StartsWith<V>(Nil, Some(key)) == Ok([]) && CountValues<V>(Nil) == 0
  {
  }

  /** `TryGetValue` and the getter agree: true exactly when the getter returns, with its value. */
  lemma TryGetAgreesWithItem<V>(t: Tst<V>, key: Option<string>, dflt: V)
    ensures TryGet(t, key, dflt).Ok? <==> Item(t, key).Ok? || Item(t, key) == Throw(KeyNotFoundException(KeyNotPresent))
    ensures TryGet(t, key, dflt).Ok? && TryGet(t, key, dflt).value.0 ==> Item(t, key) == Ok(TryGet(t, key, dflt).value.1)
    ensures TryGet(t, key, dflt).Ok? && !TryGet(t, key, dflt).value.0 ==> TryGet(t, key, dflt).value.1 == dflt
    ensures TryGet(t, key, dflt).Throw? ==> Item(t, key) == Throw(TryGet(t, key, dflt).error)
  {
  }

  /** A contained key reads back its stored value through the getter and `TryGetValue`. */
  lemma ContainedReads<V>(t: Tst<V>, key: string, dflt: V)
    requires |key| > 0 && Contains(t, Some(key)) == Ok(true)
    ensures Item(t, Some(key)) == Ok(Lookup(t, key).value)
    ensures TryGet(t, Some(key), dflt) == Ok((true, Lookup(t, key).value))
  {
  }

  /** In an ordered tree, a key is contained exactly when `GetAllKeys(root, "")` yields it. */
  lemma ContainsIsEnumerated<V>(t: Tst<V>, key: string)
    requires Ordered(t) && |key| > 0
    ensures Contains(t, Some(key)) == Ok(true) <==> key in Keys(t, [])
  {
    KeysExact(t, key);
  }

  /**
   * For a key that is only a prefix of a stored key, the lookup that does not test for a value makes the
   * getter return the default, `TryGetValue` report true, and `StartsWith` yield the default first,
   * while `ContainsKey` reports false.
   */
  lemma ValuelessPrefix()
    ensures var t := Inserted(Nil, Some("ab"), 1, true, 0).value;
            Contains(t, Some("a")) == Ok(false) &&
            Item(t, Some("a")) == Ok(0) &&
            TryGet(t, Some("a"), 0) == Ok((true, 0)) &&
            StartsWith(t, Some("a")) == Ok([0, 1])
  {
    var t := Inserted(Nil, Some("ab"), 1, true, 0).value;
    assert t == Fork('a', false, 0, Nil, Fork('b', true, 1, Nil, Nil, Nil), Nil);
    assert Values(t.equal) == [1];
    assert [0] + [1] == [0, 1];
  }

  /**
   * In every tree the dictionary keeps, a key that ends at a node without a value reads as the default:
   * the getter returns it, `TryGetValue` reports true with it, and `StartsWith` yields it before the
   * values the corrected `StartsWith` yields, while `ContainsKey` reports false.
   */
  lemma ValuelessReadsDefault<V>(t: Tst<V>, key: string, dflt: V)
    requires Invariant(t, dflt) && |key| > 0
    requires Find(t, key, 0).Fork? && !Find(t, key, 0).hasValue
    ensures Contains(t, Some(key)) == Ok(false)
    ensures Item(t, Some(key)) == Ok(dflt)
    ensures TryGet(t, Some(key), dflt) == Ok((true, dflt))
    ensures StartsWith(t, Some(key)) == Ok([dflt] + StartsWithFixed(t, Some(key)).value)
  {
    FindDefaults(t, key, 0, dflt);
    var n := Find(t, key, 0);
    assert [] + Values(n.equal) == Values(n.equal);
  }

  // ---------------------------------------------------------------------------------------------------
  // The lookups corrected to test for a value

  /** The getter as its comment and the dictionary contract describe it: only a held value is found. */
  function ItemFixed<V>(t: Tst<V>, key: Option<string>): (r: Result<V>)
    ensures key.Some? && |key.value| > 0 ==> (r.Ok? <==> Contains(t, key) == Ok(true))
  {
    match Located(t, key)
    case Throw(e) => Throw(e)
    case Ok(n) => if n.Fork? && n.hasValue then Ok(n.value) else Throw(KeyNotFoundException(KeyNotPresent))
  }

  function TryGetFixed<V>(t: Tst<V>, key: Option<string>, dflt: V): (r: Result<(bool, V)>)
    ensures key.Some? && |key.value| > 0 ==> r.Ok? && (r.value.0 <==> Contains(t, key) == Ok(true))
  {
    match Located(t, key)
    case Throw(e) => Throw(e)
    case Ok(n) => if n.Fork? && n.hasValue then Ok((true, n.value)) else Ok((false, dflt))
  }

  function StartsWithFixed<V>(t: Tst<V>, key: Option<string>): Result<seq<V>> {
    match Located(t, key)
    case Throw(e) => Throw(e)
    case Ok(n) => if n.Nil? then Ok([]) else Ok((if n.hasValue then [n.value] else []) + Values(n.equal))
  }

  /** The corrected getter and `TryGetValue` read exactly the stored entries. */
  lemma FixedReadsStored<V>(t: Tst<V>, key: string, dflt: V)
    requires |key| > 0
    ensures ItemFixed(t, Some(key)) == if Lookup(t, key).Some? then Ok(Lookup(t, key).value)
                                       else Throw(KeyNotFoundException(KeyNotPresent))
    ensures TryGetFixed(t, Some(key), dflt) == if Lookup(t, key).Some? then Ok((true, Lookup(t, key).value))
                                               else Ok((false, dflt))
  {
  }

  /** The written lookups differ from the corrected ones only at a node without a value. */
  lemma WrittenAgreesAwayFromPrefixes<V>(t: Tst<V>, key: Option<string>, dflt: V)
    requires Located(t, key).Ok? ==> Located(t, key).value.Nil? || Located(t, key).value.hasValue
    ensures Item(t, key) == ItemFixed(t, key)
    ensures TryGet(t, key, dflt) == TryGetFixed(t, key, dflt)
    ensures StartsWith(t, key) == StartsWithFixed(t, key)
  {
  }

  /** The entries stored under keys that start with `prefix`, in the order `StartsWith` visits them. */
  function PrefixPairs<V>(t: Tst<V>, prefix: string): seq<(string, V)>
    requires |prefix| > 0
  {
    var n := Find(t, prefix, 0);
    if n.Nil? then [] else (if n.hasValue then [(prefix, n.value)] else []) + Pairs(n.equal, prefix)
  }

  /** The corrected `StartsWith` yields the values of `PrefixPairs`, in order. */
  lemma StartsWithFixedValues<V>(t: Tst<V>, prefix: string)
    requires |prefix| > 0
    ensures StartsWithFixed(t, Some(prefix)) == Ok(Seconds(PrefixPairs(t, prefix)))
  {
    var n := Find(t, prefix, 0);
    if n.Fork? {
      var own: seq<(string, V)> := if n.hasValue then [(prefix, n.value)] else [];
      PairsInStep(n.equal, prefix);
      SplitAppend(own, Pairs(n.equal, prefix));
      assert Seconds(own) == if n.hasValue then [n.value] else [];
    } else {
      assert Seconds<string, V>([]) == [];
    }
  }

  /** In an ordered tree, `PrefixPairs` holds exactly the stored entries whose keys start with `prefix`. */
  lemma PrefixPairsExact<V>(t: Tst<V>, prefix: string, k: string, v: V)
    requires Ordered(t) && |prefix| > 0
    ensures (k, v) in PrefixPairs(t, prefix) <==>
              |k| >= |prefix| && k[..|prefix|] == prefix && Lookup(t, k) == Some(v)
  {
    var n := Find(t, prefix, 0);
    if (k, v) in PrefixPairs(t, prefix) {
      if n.hasValue && (k, v) == (prefix, n.value) {
        assert k[..|prefix|] == prefix;
      } else {
        assert (k, v) in Pairs(n.equal, prefix);
        FoundOrdered(t, prefix, 0, None, None);
        PairsSound(n.equal, prefix, None, None, k, v);
        FindExtend(t, prefix, k, 0);
      }
    }
    if |k| >= |prefix| && k[..|prefix|] == prefix && Lookup(t, k) == Some(v) {
      if |k| == |prefix| {
        assert k == prefix;
      } else {
        FindExtend(t, prefix, k, 0);
        PairsComplete(n.equal, prefix, k);
      }
    }
  }

  /** The walk of a key that extends `prefix` passes through the node `prefix` reaches, then its equal child. */
  /** The node `Find` reaches in a tree whose value-less nodes hold the default holds it too. */
  lemma {:induction false} FindDefaults<V>(t: Tst<V>, key: string, i: nat, dflt: V)
    requires i < |key| && Defaults(t, dflt)
    ensures Defaults(Find(t, key, i), dflt)
    decreases t
  {
    match t
    case Nil =>
    case Fork(c, _, _, lo, eq, hi) =>
      if key[i] < c { FindDefaults(lo, key, i, dflt); }
      else if key[i] > c { FindDefaults(hi, key, i, dflt); }
      else if i + 1 < |key| { FindDefaults(eq, key, i + 1, dflt); }
  }

  lemma {:induction false} FindExtend<V>(t: Tst<V>, prefix: string, k: string, i: nat)
    requires i < |prefix| && ProperPrefix(prefix, k)
    ensures Find(t, k, i) == if Find(t, prefix, i).Fork? then Find(Find(t, prefix, i).equal, k, |prefix|) else Nil
    decreases t
  {
    assert k[i] == k[..|prefix|][i] == prefix[i];
    match t
    case Nil =>
    case Fork(c, _, _, lo, eq, hi) =>
      if prefix[i] < c {
        FindExtend(lo, prefix, k, i);
      } else if prefix[i] > c {
        FindExtend(hi, prefix, k, i);
      } else if i + 1 < |prefix| {
        FindExtend(eq, prefix, k, i + 1);
      }
  }

  /** The equal child of a node reached in an ordered layer starts an ordered layer. */
  lemma {:induction false} FoundOrdered<V>(t: Tst<V>, key: string, i: nat, lo: Option<char>, hi: Option<char>)
    requires i < |key| && OrderedIn(t, lo, hi) && Find(t, key, i).Fork?
    ensures OrderedIn(Find(t, key, i).equal, None, None)
    decreases t
  {
    match t
    case Fork(c, _, _, l, e, h) =>
      if key[i] < c {
        FoundOrdered(l, key, i, lo, Some(c));
      } else if key[i] > c {
        FoundOrdered(h, key, i, Some(c), hi);
      } else if i + 1 < |key| {
        FoundOrdered(e, key, i + 1, None, None);
      }
  }
}
