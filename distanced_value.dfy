/**
 * `DistancedValue<TValue>` (TernarySearchTree/DistancedValue.cs): a value with a distance, ordered by
 * distance first and then by the value's default comparer, which is a parameter here.
 */
module DistancedValues {
  import opened Signs

  /** The struct's two fields, as its primary constructor stores them. */
  datatype DistancedValue<V> = DistancedValue(Distance: int, Value: V)

  /** `int.CompareTo`: -1, 0 or 1. */
  function CompareInt(a: int, b: int): (r: int)
    ensures r == -1 || r == 0 || r == 1
    ensures (r < 0 <==> a < b) && (r == 0 <==> a == b) && (r > 0 <==> a > b)
  {
    if a < b then -1 else if a > b then 1 else 0
  }

  /** `CompareTo(other)`: the distance comparison, or the value comparison when the distances are equal. */
  function CompareTo<V>(self: DistancedValue<V>, other: DistancedValue<V>, compare: (V, V) -> int): (r: int)
    ensures self.Distance != other.Distance ==> (r < 0 <==> self.Distance < other.Distance) && r != 0
    ensures self.Distance == other.Distance ==> r == compare(self.Value, other.Value)
  {
    var compareDistance := CompareInt(self.Distance, other.Distance);
    if compareDistance != 0 then compareDistance else compare(self.Value, other.Value)
  }

  /** With a value comparer that finds `d`'s value equal to itself, `d` compares equal to itself. */
  lemma CompareToSelf<V>(d: DistancedValue<V>, compare: (V, V) -> int)
    requires compare(d.Value, d.Value) == 0
    ensures CompareTo(d, d, compare) == 0
  {
  }

  /** With a value comparer antisymmetric on the two values, swapping the operands negates the sign of `CompareTo`. */
  lemma CompareToAntisymmetric<V>(a: DistancedValue<V>, b: DistancedValue<V>, compare: (V, V) -> int)
    requires Sign(compare(a.Value, b.Value)) == -Sign(compare(b.Value, a.Value))
    ensures Sign(CompareTo(a, b, compare)) == -Sign(CompareTo(b, a, compare))
  {
  }

  /**
   * With a value comparer transitive on the three values, `CompareTo` is transitive: it is the
   * lexicographic order of (distance, value).
   */
  lemma CompareToTransitive<V>(a: DistancedValue<V>, b: DistancedValue<V>, c: DistancedValue<V>, compare: (V, V) -> int)
    requires compare(a.Value, b.Value) <= 0 && compare(b.Value, c.Value) <= 0 ==> compare(a.Value, c.Value) <= 0
    ensures CompareTo(a, b, compare) <= 0 && CompareTo(b, c, compare) <= 0 ==> CompareTo(a, c, compare) <= 0
  {
  }
}
