/**
 * The value-level view of a node graph: a ternary search tree as an inductive datatype, with the walks
 * the engine performs on it. Every heap operation of the library is specified by one of these functions.
 */
module TernaryTree {
  import opened Wrappers

  /** The three links of a node: lower sibling, equal (next key position), higher sibling. */
  datatype Dir = Lo | Eq | Hi

  /** A position in the tree: the links followed from the root. */
  type Pos = seq<Dir>

  /** A node (its split character, value flag, stored value and three children) or a null link. */
  datatype Tst<V> =
    | Nil
    | Fork(split: char, hasValue: bool, value: V, lower: Tst<V>, equal: Tst<V>, higher: Tst<V>)

  /** A freshly constructed node: no value, the default in the backing field, no children. */
  function Leaf<V>(c: char, dflt: V): Tst<V> {
    Fork(c, false, dflt, Nil, Nil, Nil)
  }

  function Child<V>(t: Tst<V>, d: Dir): Tst<V> {
    match t
    case Nil => Nil
    case Fork(_, _, _, lo, eq, hi) =>
      match d
      case Lo => lo
      case Eq => eq
      case Hi => hi
  }

  function WithChild<V>(t: Tst<V>, d: Dir, s: Tst<V>): (r: Tst<V>)
    requires t.Fork?
    ensures r.Fork? && Child(r, d) == s
  {
    match d
    case Lo => t.(lower := s)
    case Eq => t.(equal := s)
    case Hi => t.(higher := s)
  }

  /** The subtree at position `p` (`Nil` once the path leaves the tree). */
  function Sub<V>(t: Tst<V>, p: Pos): Tst<V>
    decreases p
  {
    if p == [] then t else Sub(Child(t, p[0]), p[1..])
  }

  /** `p` names a node of `t` or a null link of one of its nodes. */
  predicate IsSlot<V>(t: Tst<V>, p: Pos)
    decreases p
  {
    p == [] || (t.Fork? && IsSlot(Child(t, p[0]), p[1..]))
  }

  /** `t` with the subtree at slot `p` replaced by `s`. */
  function Replace<V>(t: Tst<V>, p: Pos, s: Tst<V>): Tst<V>
    decreases p
  {
    if p == [] then s
    else if t.Nil? then Nil
    else WithChild(t, p[0], Replace(Child(t, p[0]), p[1..], s))
  }

  ghost predicate IsPrefix<T>(a: seq<T>, b: seq<T>) {
    |a| <= |b| && b[..|a|] == a
  }

  /** Two subtrees agree on whether they are a node and, if so, on that node's own fields. */
  ghost predicate SameTop<V>(a: Tst<V>, b: Tst<V>) {
    a.Nil? == b.Nil? &&
    (a.Fork? ==> a.split == b.split && a.hasValue == b.hasValue && a.value == b.value)
  }

  // ---------------------------------------------------------------------------------------------------
  // Lookup

  /**
   * The walk of `FindNodeByKey`/`GetNode` from key index `i`: the node at which the whole key has been
   * consumed at a matching node, or `Nil` when the walk falls off the tree. Whatever it returns tests
   * the key's last character.
   */
  function Find<V>(t: Tst<V>, key: string, i: nat): (r: Tst<V>)
    requires i < |key|
    ensures r.Fork? ==> r.split == key[|key| - 1]
    decreases t
  {
    match t
    case Nil => Nil
    case Fork(c, _, _, lo, eq, hi) =>
      if key[i] < c then Find(lo, key, i)
      else if key[i] > c then Find(hi, key, i)
      else if i + 1 == |key| then t
      else Find(eq, key, i + 1)
  }

  /** The links that walk follows; it leads exactly to what `Find` returns. */
  function Path<V>(t: Tst<V>, key: string, i: nat): (p: Pos)
    requires i < |key|
    ensures Sub(t, p) == Find(t, key, i)
    decreases t
  {
    match t
    case Nil => []
    case Fork(c, _, _, lo, eq, hi) =>
      if key[i] < c then [Lo] + Path(lo, key, i)
      else if key[i] > c then [Hi] + Path(hi, key, i)
      else if i + 1 == |key| then []
      else [Eq] + Path(eq, key, i + 1)
  }

  /** One step of a walk from a node at key index `i` along link `d` is possible. */
  predicate StepTo<V>(t: Tst<V>, key: string, i: nat, d: Dir) {
    t.Fork? && i < |key| &&
    match d
    case Lo => key[i] < t.split
    case Hi => key[i] > t.split
    case Eq => key[i] == t.split && i + 1 < |key|
  }

  /** The key index after a step along `d`: only an equal step consumes a character. */
  function Next(i: nat, d: Dir): nat {
    if d == Eq then i + 1 else i
  }

  /**
   * Walking `key` from index `i0` at `t` follows exactly the links `p` and arrives with key index `i`
   * (the walk has not ended before).
   */
  predicate WalkTo<V>(t: Tst<V>, key: string, p: Pos, i0: nat, i: nat)
    decreases p
  {
    if p == [] then i0 < |key| && i == i0
    else StepTo(t, key, i0, p[0]) && WalkTo(Child(t, p[0]), key, p[1..], Next(i0, p[0]), i)
  }

  /** The value stored under `key` as `GetNode` sees it: only a node that has a value counts. */
  function LookupFrom<V>(t: Tst<V>, key: string, i: nat): Option<V>
    requires i < |key|
  {
    var n := Find(t, key, i);
    if n.Fork? && n.hasValue then Some(n.value) else None
  }

  function Lookup<V>(t: Tst<V>, key: string): Option<V>
    requires |key| > 0
  {
    LookupFrom(t, key, 0)
  }

  /** The number of nodes with a value. */
  function CountValues<V>(t: Tst<V>): nat {
    match t
    case Nil => 0
    case Fork(_, hv, _, lo, eq, hi) =>
      (if hv then 1 else 0) + CountValues(lo) + CountValues(eq) + CountValues(hi)
  }

  /** The height of the tree: a bound on the number of steps of any walk. */
  function Height<V>(t: Tst<V>): nat {
    match t
    case Nil => 0
    case Fork(_, _, _, lo, eq, hi) => 1 + Max(Height(lo), Max(Height(eq), Height(hi)))
  }

  function Max(a: nat, b: nat): nat {
    if a < b then b else a
  }

  // ---------------------------------------------------------------------------------------------------
  // Invariants of the trees the library builds

  predicate Within(c: char, lo: Option<char>, hi: Option<char>) {
    (lo.None? || lo.value < c) && (hi.None? || c < hi.value)
  }

  /**
   * Every sibling layer is a binary search tree on the split characters, all of whose characters lie
   * strictly between `lo` and `hi`; every equal child starts a new, unbounded layer.
   */
  predicate OrderedIn<V>(t: Tst<V>, lo: Option<char>, hi: Option<char>) {
    match t
    case Nil => true
    case Fork(c, _, _, l, e, h) =>
      Within(c, lo, hi) && OrderedIn(l, lo, Some(c)) && OrderedIn(h, Some(c), hi) && OrderedIn(e, None, None)
  }

  predicate Ordered<V>(t: Tst<V>) {
    OrderedIn(t, None, None)
  }

  /** A node without a value holds the default value in its backing field. */
  ghost predicate Defaults<V>(t: Tst<V>, dflt: V) {
    match t
    case Nil => true
    case Fork(_, hv, v, lo, eq, hi) =>
      (!hv ==> v == dflt) && Defaults(lo, dflt) && Defaults(eq, dflt) && Defaults(hi, dflt)
  }

  // ---------------------------------------------------------------------------------------------------
  // Node creation and insertion

  /** Marks a node as holding `put`'s value, if there is one. */
  function Put<V>(t: Tst<V>, put: Option<V>): (r: Tst<V>)
    requires t.Fork?
    ensures r.Fork? && r.split == t.split && r.lower == t.lower && r.equal == t.equal && r.higher == t.higher
    ensures put.Some? ==> r.hasValue && r.value == put.value
    ensures put.None? ==> r == t
  {
    if put.Some? then t.(hasValue := true, value := put.value) else t
  }

  /** The chain of fresh nodes created under a null link for the key characters from index `i` on. */
  function Chain<V>(key: string, i: nat, dflt: V, put: Option<V>): (r: Tst<V>)
    requires i < |key|
    ensures Find(r, key, i).Fork?
    ensures put.Some? ==> LookupFrom(r, key, i) == put
    decreases |key| - i
  {
    if i + 1 < |key| then Fork(key[i], false, dflt, Nil, Chain(key, i + 1, dflt, put), Nil)
    else Put(Leaf(key[i], dflt), put)
  }

  /**
   * The walk of `CreateNodes` (`put == None`) and of the dictionary's insertion (`put == Some(v)`) from
   * key index `i`: every missing link on the way is filled with a fresh value-less node holding the
   * current key character, and the node where the key ends receives `put`'s value. Afterwards the key's
   * lookup walk reaches a node, and that node holds the inserted value.
   */
  function Grow<V>(t: Tst<V>, key: string, i: nat, dflt: V, put: Option<V>): (r: Tst<V>)
    requires i < |key|
    ensures r.Fork?
    ensures Find(r, key, i).Fork?
    ensures put.Some? ==> LookupFrom(r, key, i) == put
    decreases t
  {
    match t
    case Nil => Chain(key, i, dflt, put)
    case Fork(c, hv, v, lo, eq, hi) =>
      if key[i] < c then t.(lower := Grow(lo, key, i, dflt, put))
      else if key[i] > c then t.(higher := Grow(hi, key, i, dflt, put))
      else if i + 1 < |key| then t.(equal := Grow(eq, key, i + 1, dflt, put))
      else Put(t, put)
  }

  // ---------------------------------------------------------------------------------------------------
  // Removal, as written

  /** `CanBeRemoved`: a node without children and without a value. */
  predicate Removable<V>(t: Tst<V>) {
    t.Fork? && t.lower.Nil? && t.equal.Nil? && t.higher.Nil? && !t.hasValue
  }

  /** `CanBeSimplified`: a node without an equal child, without a value and with exactly one sibling child. */
  predicate Simplifiable<V>(t: Tst<V>) {
    t.Fork? && t.equal.Nil? && !t.hasValue && (t.lower.Nil? != t.higher.Nil?)
  }

  /**
   * The calls of `RemoveNode` never dereference a null node: the lower (higher) call happens when the
   * key character is smaller (larger), and the equal call whenever the key continues and neither sibling
   * call returned true, even after a sibling call that returned false.
   */
  predicate Safe<V>(t: Tst<V>, key: string, i: nat, dflt: V)
    requires i < |key|
    decreases t, 0
  {
    t.Fork? &&
    (key[i] < t.split ==> Safe(t.lower, key, i, dflt)) &&
    (key[i] > t.split ==> Safe(t.higher, key, i, dflt)) &&
    (i < |key| - 1 &&
     !(key[i] < t.split && Remove(t.lower, key, i, dflt).1) &&
     !(key[i] > t.split && Remove(t.higher, key, i, dflt).1)
     ==> Safe(t.equal, key, i + 1, dflt))
  }

  /**
   * `RemoveNode` as written: the new subtree and the returned flag. A false result of the lower or
   * higher call falls through to the equal call and then to clearing this node's own value. A true
   * result always comes with a removable node.
   */
  function Remove<V>(t: Tst<V>, key: string, i: nat, dflt: V): (r: (Tst<V>, bool))
    requires i < |key| && Safe(t, key, i, dflt)
    ensures r.0.Fork? && r.0.split == t.split
    ensures r.1 ==> Removable(r.0)
    decreases t, 1
  {
    var c := t.split;
    var (lo, removeLo) := if key[i] < c then Remove(t.lower, key, i, dflt) else (t.lower, false);
    if removeLo then
      var n := t.(lower := Nil);
      (n, Removable(n))
    else
      var (hi, removeHi) := if key[i] > c then Remove(t.higher, key, i, dflt) else (t.higher, false);
      if removeHi then
        var n := t.(lower := lo, higher := Nil);
        (n, Removable(n))
      else
        var (eq, removeEq) := if i < |key| - 1 then Remove(t.equal, key, i + 1, dflt) else (t.equal, false);
        if removeEq then
          var n := Fork(c, t.hasValue, t.value, lo, Nil, hi);
          (n, Removable(n))
        else if !t.hasValue then
          (Fork(c, false, t.value, lo, eq, hi), false)
        else
          var n := Fork(c, false, dflt, lo, eq, hi);
          (n, Removable(n))
  }

  // ---------------------------------------------------------------------------------------------------
  // Enumeration (pre-order: the node itself, then lower, equal, higher)

  function Keys<V>(t: Tst<V>, key: string): seq<string> {
    match t
    case Nil => []
    case Fork(c, hv, _, lo, eq, hi) =>
      (if hv then [key + [c]] else []) + Keys(lo, key) + Keys(eq, key + [c]) + Keys(hi, key)
  }

  function Values<V>(t: Tst<V>): seq<V> {
    match t
    case Nil => []
    case Fork(_, hv, v, lo, eq, hi) =>
      (if hv then [v] else []) + Values(lo) + Values(eq) + Values(hi)
  }

  function Pairs<V>(t: Tst<V>, key: string): seq<(string, V)> {
    match t
    case Nil => []
    case Fork(c, hv, v, lo, eq, hi) =>
      (if hv then [(key + [c], v)] else []) + Pairs(lo, key) + Pairs(eq, key + [c]) + Pairs(hi, key)
  }
}
