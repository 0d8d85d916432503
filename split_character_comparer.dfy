/**
 * `SplitCharacterComparer.Compare` (TernarySearchTree/SplitCharacterComparer.cs): nodes ordered by their
 * split characters. `char.CompareTo` returns the difference of the two character codes; the `!`
 * operators only silence the compiler, so a null node makes the dereference throw.
 */
module SplitCharacterComparer {
  import opened Wrappers
  import opened Nodes
  import opened Signs

  function Compare<V>(x: Node?<V>, y: Node?<V>): (r: Result<int>)
    ensures r.Ok? <==> x != null && y != null
    ensures r.Ok? ==> (r.value < 0 <==> x.SplitCharacter < y.SplitCharacter)
    ensures r.Ok? ==> (r.value == 0 <==> x.SplitCharacter == y.SplitCharacter)
    ensures r.Ok? ==> (r.value > 0 <==> x.SplitCharacter > y.SplitCharacter)
  {
    if x == null || y == null then Throw(NullReferenceException)
    else Ok(x.SplitCharacter as int - y.SplitCharacter as int)
  }

  /** Swapping the arguments negates the sign of the result. */
  lemma Antisymmetric<V>(x: Node<V>, y: Node<V>)
    ensures Sign(Compare(x, y).value) == -Sign(Compare(y, x).value)
  {
  }

  /** The order is transitive, for both the strict and the non-strict comparison. */
  lemma Transitive<V>(x: Node<V>, y: Node<V>, z: Node<V>)
    ensures Compare(x, y).value <= 0 && Compare(y, z).value <= 0 ==> Compare(x, z).value <= 0
    ensures Compare(x, y).value < 0 && Compare(y, z).value < 0 ==> Compare(x, z).value < 0
  {
  }
}
