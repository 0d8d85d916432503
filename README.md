# TernarySearchTree in Dafny

A model of the core of TernarySearchTree, a C# string-keyed dictionary backed by a ternary search tree,
with proofs about it.

Each node of the tree holds a split character and an optional value. It has three links: a lower
sibling (smaller character), a higher sibling (larger character) and an equal child (next key
position). The dictionary owns a root reference and a `Count` of stored values. Lookup walks the key
character by character. Insertion creates the missing nodes on that walk. Removal clears a value and
detaches nodes that have become empty. The enumerations visit the valued nodes in pre-order.

The model has two levels:

- **The represented tree.** `TernaryTree.Tst` is a datatype value. On it, `Find`, `Grow`, `Remove`,
  `Keys`, `Values` and `Pairs` describe what each operation computes. `Growth`, `Enumeration`, `Removal`
  and `Dictionary` prove the properties the library promises about them.
- **The heap.** `Nodes.Node` is a class with the fields of `Node.cs`. `Layout.Laid(root, t, loc)` says
  that a graph of nodes, with a ghost map from tree positions to nodes, represents `t`. The engine
  (`Tree`, `Traverse`) and the dictionary class (`Facade.SearchDictionary`) are methods on that graph.
  Each is proved to act on the represented tree as the abstract function says.
  - `Creation` carries the invariant of the node-creating `for (;;)` loop, which `Tree.CreateNodes` and
    `SearchDictionary.Insert` share.
  - `Positions` holds the algebra of positions and subtree replacement.

Exceptions are `Result`/`Outcome` values (`Wrappers`). A C# string that may be null is an
`Option<string>`.

The smaller files are modelled one-to-one:

- the argument validators (`Argument`);
- the node comparer (`SplitCharacterComparer`);
- the distance-ordered result record (`DistancedValues`).

## Model

| member | source | states |
|---|---|---|
| Nodes.Node.constructor | TernarySearchTree/Node.cs:7-10 | a new node holds its split character, no value (the backing field holds the default) and no children |
| Nodes.Node.SetValue | TernarySearchTree/Node.cs:29-33 | the `Value` setter stores the value and marks the node valued; the three links are untouched |
| Nodes.Node.ClearValue | TernarySearchTree/Node.cs:36-40 | the value is reset to the default, the node is no longer valued; the links are untouched |
| Nodes.Node.CanBeRemoved | TernarySearchTree/Node.cs:42 | no value and no children; `Layout.LaidRemovable` ties it to `Removable` of the represented subtree |
| Nodes.Node.CanBeSimplified | TernarySearchTree/Node.cs:44 | a simplifiable node is never removable and has exactly one sibling child |
| Layout.LaidRemovable | TernarySearchTree/Node.cs:42 | `CanBeRemoved` of a laid-out node is true exactly when its subtree is a single value-less leaf |
| Layout.LaidSimplifiable | TernarySearchTree/Node.cs:44 | `CanBeSimplified` of a laid-out node is exactly `Simplifiable` of its subtree |
| Removal.SimplifyKeepsLookups | TernarySearchTree/Node.cs:44 | in an ordered layer, replacing a simplifiable node by its only sibling child changes no lookup |
| Tree.GetNode | TernarySearchTree/Tree.cs:7-44 | an empty key throws; otherwise the result is the node at the key's position when that node holds a value (so its value is the key's value), and null otherwise; the walk visits at most `Height` nodes |
| Tree.CreateNodes | TernarySearchTree/Tree.cs:46-105 | the graph afterwards lays out `Grow(t, key, None)` and the returned node is at the key's position; an existing root is kept; every old position keeps its node; every new position holds a fresh node; an empty key throws and changes nothing |
| Creation.Root | TernarySearchTree/Tree.cs:52-59 | a missing root is created as a fresh node, an existing root is kept, and the creation walk of the key starts at the root |
| Creation.FillLower | TernarySearchTree/Tree.cs:64-74 | when the key character is below the split character, the lower link is non-null afterwards, the walk stands at it, and it is an old node or a fresh one |
| Creation.FillHigher | TernarySearchTree/Tree.cs:75-85 | the same for a key character above the split character and the higher link |
| Creation.FillEqual | TernarySearchTree/Tree.cs:86-99 | on a match with the key continuing, the equal link is non-null afterwards and the walk advances one key character |
| Creation.DescendingEnd | TernarySearchTree/Tree.cs:100-103 | when the walk stops at the last key character, the laid-out tree is the grown one and the node is the key's node |
| Growth.GrowLookup | TernarySearchTree/Tree.cs:46-105 | node creation changes no lookup; the insertion walk changes only the inserted key's lookup, to the inserted value |
| Growth.GrowCount | TernarySearchTree/Tree.cs:46-105 | node creation adds no values; insertion adds one exactly when the key held none |
| Growth.GrowOrdered | TernarySearchTree/Tree.cs:64-85 | a new lower or higher node lies within all the bounds above it, so every sibling layer stays a binary search tree |
| Growth.GrowDefaults | TernarySearchTree/Tree.cs:66-95 | every value-less node, new or old, holds the default in its backing field |
| Growth.CreateExtends | TernarySearchTree/Tree.cs:46-105 | node creation keeps every existing node with its fields and only adds value-less nodes |
| Growth.CreateExisting | TernarySearchTree/Tree.cs:53-103 | where the key's walk already reaches a node, node creation creates nothing |
| Growth.CreateIdempotent | TernarySearchTree/Tree.cs:46-105 | creating a key's nodes twice gives the tree that creating them once gives |
| Growth.GrowPrefixFound | TernarySearchTree/Tree.cs:86-99 | after inserting a key, the walk of each of its non-empty prefixes reaches a node |
| Growth.GrowPut | TernarySearchTree/SearchDictionary.cs:195-286 | insertion is node creation followed by storing the value in the node where the walk ends |
| Tree.GetAllKeys | TernarySearchTree/Tree.cs:107-133 | the keys of the valued nodes below the node, in pre-order, each prefixed by the given key |
| Tree.GetAllValues | TernarySearchTree/Tree.cs:135-161 | the values of the valued nodes below the node, in the same pre-order |
| Tree.GetAllKeyValuePairs | TernarySearchTree/Tree.cs:163-189 | the key/value pairs of the valued nodes below the node, in the same pre-order |
| Enumeration.KeysCount | TernarySearchTree/Tree.cs:107-133 | one key per valued node |
| Enumeration.ValuesCount | TernarySearchTree/Tree.cs:135-161 | one value per valued node |
| Enumeration.PairsInStep | TernarySearchTree/Tree.cs:107-189 | the pairs' keys are the key enumeration and their values are the value enumeration, position by position |
| Enumeration.KeysPreOrder | TernarySearchTree/Tree.cs:114-132 | after inserting "b" and then "a", the keys come out as "b", "a": pre-order, not sorted |
| Enumeration.PairsExact | TernarySearchTree/Tree.cs:163-189 | in an ordered tree, the pairs enumerated from the root are exactly the stored entries |
| Enumeration.KeysExact | TernarySearchTree/Tree.cs:107-133 | in an ordered tree, the keys enumerated from the root are exactly the stored keys |
| Enumeration.KeysDistinct | TernarySearchTree/Tree.cs:107-133 | in an ordered tree, no key is enumerated twice |
| Tree.RemoveNode | TernarySearchTree/Tree.cs:191-220 | on a safe input, the subtree at the node becomes `Remove`'s result and the returned flag is `Remove`'s; no node moves; only links are nulled and a value cleared |
| Tree.PruneLower | TernarySearchTree/Tree.cs:195-199 | the lower subtree becomes what `Remove` makes of it, or is cut off when `Remove` reports it removable; the flag is `Remove`'s |
| Tree.PruneHigher | TernarySearchTree/Tree.cs:201-205 | the same for the higher subtree |
| Tree.PruneEqual | TernarySearchTree/Tree.cs:207-211 | the same for the equal subtree, one key character further |
| Tree.ClearAt | TernarySearchTree/Tree.cs:213-219 | clearing the node's value clears only that value in the represented tree |
| Removal.RemoveAtEnd | TernarySearchTree/Tree.cs:213-219 | at the key's last node, the value is cleared and `CanBeRemoved` is returned, or false when there was no value |
| Removal.RemoveShape | TernarySearchTree/Tree.cs:191-220 | each child afterwards is the original, what the call on it made of it, or gone; the value is the original or cleared |
| Removal.RemovePrunes | TernarySearchTree/Tree.cs:191-220 | removal only clears values and cuts off subtrees: every remaining value was there before at the same place |
| Removal.RemoveClearsKey | TernarySearchTree/Tree.cs:191-220 | after removal the key is not found |
| Removal.RemoveEffect | TernarySearchTree/Tree.cs:191-220 | from the root, the key is gone, no entry appears, no value changes, the count does not grow, and sibling order is kept |
| Removal.RemoveClearsOther | TernarySearchTree/Tree.cs:195-219 | removing "a" from the tree of "b", "a", "ab" also removes "b" |
| Removal.RemoveClearsPrefix | TernarySearchTree/Tree.cs:207-219 | removing "ab" from the tree of "a", "ab", "ac" also removes "a", which the intended removal keeps |
| Removal.RemoveUnsafe | TernarySearchTree/Tree.cs:195-211 | removing "ab" from the tree of "b", "ab", "abc" reaches the recursive call on a null equal link |
| Removal.RemoveFixed | TernarySearchTree/Tree.cs:191-220 | the intended removal keeps split characters and reports true only for a removable node; a null link stops it |
| Removal.RemoveFixedExact | TernarySearchTree/Tree.cs:191-220 | the intended removal makes the key's suffix unfound and changes no other lookup |
| Removal.RemoveFixedCount | TernarySearchTree/Tree.cs:191-220 | the intended removal takes away one value exactly when the key was stored |
| Removal.RemoveFixedPrunes | TernarySearchTree/Tree.cs:191-220 | the intended removal only clears a value and cuts off removable nodes |
| Removal.RemoveFixedEffect | TernarySearchTree/Tree.cs:191-220 | from the root, the intended removal removes exactly the key, lowers the count by one when the key was stored, and keeps sibling order |
| Traverse.GetNode | TernarySearchTree/Traverse.cs:7-44 | the same contract as `Tree.GetNode`, proved for this copy |
| Traverse.GetNodeAgrees | TernarySearchTree/Traverse.cs:7-44 | the two copies of `GetNode` return the same result for every tree and key |
| Traverse.GetAllKeys | TernarySearchTree/Traverse.cs:46-72 | the same keys in the same order as `Tree.GetAllKeys`; nothing for a null node |
| Traverse.GetAllValues | TernarySearchTree/Traverse.cs:74-100 | the same values in the same order as `Tree.GetAllValues`; nothing for a null node |
| Traverse.GetAllKeyValuePairs | TernarySearchTree/Traverse.cs:102-128 | the same pairs in the same order as `Tree.GetAllKeyValuePairs`; nothing for a null node |
| Dictionary.Located | TernarySearchTree/SearchDictionary.cs:156-193 | a null or empty key throws; otherwise the node reached holds a value exactly when the key is stored |
| Dictionary.Inserted | TernarySearchTree/SearchDictionary.cs:195-286 | insertion succeeds exactly for a non-null, non-empty key that is not refused as a duplicate; afterwards the key finds the inserted value |
| Dictionary.InsertThenGet | TernarySearchTree/SearchDictionary.cs:195-286 | after a successful insertion the key is contained and the getter and `TryGetValue` return the inserted value |
| Dictionary.InsertKeepsOthers | TernarySearchTree/SearchDictionary.cs:195-286 | insertion changes no other key's entry and stores no other key |
| Dictionary.InsertKeepsItems | TernarySearchTree/SearchDictionary.cs:195-286 | a contained key reads the same value through the getter after inserting another key |
| Dictionary.SetAlwaysStores | TernarySearchTree/SearchDictionary.cs:50-54 | the setter never refuses a non-empty key, and overwrites a stored value |
| Dictionary.AddRefusesStored | TernarySearchTree/SearchDictionary.cs:268-272 | `Add` fails exactly when the key is contained, and then with the duplicate-key `ArgumentException` |
| Dictionary.InsertCount | TernarySearchTree/SearchDictionary.cs:274-278 | the number of values grows by one exactly when the key was not contained |
| Dictionary.InsertInvariant | TernarySearchTree/SearchDictionary.cs:195-286 | insertion keeps the sibling layers ordered and the default in value-less nodes |
| Dictionary.InsertPrefixesFound | TernarySearchTree/SearchDictionary.cs:35-48 | after inserting a key, the getter returns normally for every non-empty prefix of it |
| Dictionary.ClearedIsEmpty | TernarySearchTree/SearchDictionary.cs:100-104 | after `Clear` nothing is contained, the getter throws `KeyNotFoundException`, `TryGetValue` reports false with the default, and `StartsWith` yields nothing |
| Dictionary.TryGetAgreesWithItem | TernarySearchTree/SearchDictionary.cs:84-95 | `TryGetValue` reports true exactly when the getter returns, with the getter's value; false comes with the default; both throw alike |
| Dictionary.ContainedReads | TernarySearchTree/SearchDictionary.cs:72-95 | a contained key reads back its stored value through the getter and `TryGetValue` |
| Dictionary.ContainsIsEnumerated | TernarySearchTree/SearchDictionary.cs:72-76 | in an ordered tree a key is contained exactly when the root's key enumeration yields it |
| Dictionary.ValuelessPrefix | TernarySearchTree/SearchDictionary.cs:175-181 | after adding only "ab": "a" is not contained, yet the getter returns the default, `TryGetValue` reports true, and `StartsWith("a")` yields the default first |
| Dictionary.ValuelessReadsDefault | TernarySearchTree/SearchDictionary.cs:35-48 | in every ordered tree whose value-less nodes hold the default, a key ending at a node without a value is not contained, yet the getter returns the default, `TryGetValue` reports true with it, and `StartsWith` yields it before the corrected `StartsWith`'s values |
| Dictionary.ItemFixed | TernarySearchTree/SearchDictionary.cs:35-48 | the corrected getter returns normally exactly for a contained key |
| Dictionary.TryGetFixed | TernarySearchTree/SearchDictionary.cs:84-95 | the corrected `TryGetValue` reports true exactly for a contained key |
| Dictionary.FixedReadsStored | TernarySearchTree/SearchDictionary.cs:35-95 | the corrected getter and `TryGetValue` return exactly the stored entry, or not-found |
| Dictionary.WrittenAgreesAwayFromPrefixes | TernarySearchTree/SearchDictionary.cs:175-181 | where the located node is absent or valued, the getter, `TryGetValue` and `StartsWith` as written equal the corrected ones |
| Dictionary.StartsWithFixedValues | TernarySearchTree/SearchDictionary.cs:111-126 | the corrected `StartsWith` yields the values of the entries whose keys start with the prefix, in order |
| Dictionary.PrefixPairsExact | TernarySearchTree/SearchDictionary.cs:111-126 | in an ordered tree, those entries are exactly the stored entries whose keys start with the prefix |
| Facade.SearchDictionary.constructor | TernarySearchTree/SearchDictionary.cs:16-26 | a new dictionary has no root and a zero count, and keeps its invariant |
| Facade.SearchDictionary.GetItem | TernarySearchTree/SearchDictionary.cs:35-48 | the getter returns the located node's value, throws `KeyNotFoundException` when no node is found, and throws for a null or empty key |
| Facade.SearchDictionary.SetItem | TernarySearchTree/SearchDictionary.cs:50-54 | the setter's new tree is the insertion's result or, on an error, the old one; the invariant and `Count` are kept |
| Facade.SearchDictionary.Add | TernarySearchTree/SearchDictionary.cs:62-65 | the same, with the duplicate check |
| Facade.SearchDictionary.ContainsKey | TernarySearchTree/SearchDictionary.cs:72-76 | true exactly when a node is found and holds a value |
| Facade.SearchDictionary.TryGetValue | TernarySearchTree/SearchDictionary.cs:84-95 | the flag and the out value are those of `Dictionary.TryGet` |
| Facade.SearchDictionary.Clear | TernarySearchTree/SearchDictionary.cs:100-104 | the root is null, the count is zero, and the represented tree is empty |
| Facade.SearchDictionary.StartsWith | TernarySearchTree/SearchDictionary.cs:111-154 | the located node's value, then every value below its equal link, in pre-order |
| Facade.SearchDictionary.FindNodeByKey | TernarySearchTree/SearchDictionary.cs:156-193 | a null or empty key throws; otherwise the node at the key's position, valued or not, or null exactly when the walk falls off the tree |
| Facade.SearchDictionary.Insert | TernarySearchTree/SearchDictionary.cs:195-286 | the new tree is the insertion's result, and `Count` counts its values; on a null, empty or duplicate key the error is returned and the tree is unchanged |
| Facade.SearchDictionary.Descend | TernarySearchTree/SearchDictionary.cs:225-265 | the loop stops at the node of the last key character; every node laid out on the way is old or fresh |
| Facade.SearchDictionary.Store | TernarySearchTree/SearchDictionary.cs:266-283 | refuses a valued node when checking for duplicates; otherwise stores the value, counting it when the node had none |
| Facade.SetValueAt | TernarySearchTree/SearchDictionary.cs:281 | setting the node's value sets only that value in the represented tree |
| Facade.StoreEffect | TernarySearchTree/SearchDictionary.cs:266-283 | after node creation, the key's node holds a value exactly when the key was stored; storing there gives the inserted tree, keeps the invariant and changes the count as `Count` does |
| Argument.IsNotNull | TernarySearchTree/Argument.cs:13-19 | throws `ArgumentNullException` naming the argument exactly when it is null |
| Argument.IsNotEmpty | TernarySearchTree/Argument.cs:21-27 | as written, throws the empty-string `ArgumentException` exactly when the argument is null |
| Argument.IsNotNullAndNotEmpty | TernarySearchTree/Argument.cs:7-11 | refuses exactly a null argument, always with `ArgumentNullException` |
| Argument.IsWithinRange | TernarySearchTree/Argument.cs:29-35 | throws `ArgumentOutOfRangeException` exactly when the condition is false |
| Argument.EmptyPasses | TernarySearchTree/Argument.cs:21-27 | the empty string passes the combined check, and the empty-string error is never raised |
| Argument.IsNotEmptyFixed | TernarySearchTree/Argument.cs:21-27 | the corrected check refuses exactly the empty string |
| Argument.FixedRefusesNullAndEmpty | TernarySearchTree/Argument.cs:7-27 | the corrected combined check refuses null with `ArgumentNullException`, empty with `ArgumentException`, and nothing else |
| SplitCharacterComparer.Compare | TernarySearchTree/SplitCharacterComparer.cs:7-10 | throws for a null node; otherwise the sign of the result is the order of the two split characters |
| SplitCharacterComparer.Antisymmetric | TernarySearchTree/SplitCharacterComparer.cs:7-10 | swapping the nodes negates the sign |
| SplitCharacterComparer.Transitive | TernarySearchTree/SplitCharacterComparer.cs:7-10 | the order is transitive, strict and non-strict |
| DistancedValues.CompareInt | TernarySearchTree/DistancedValue.cs:13 | `int.CompareTo` returns -1, 0 or 1, with the sign of the order |
| DistancedValues.CompareTo | TernarySearchTree/DistancedValue.cs:11-15 | different distances decide, with the distances' order; equal distances defer to the value comparer |
| DistancedValues.CompareToSelf | TernarySearchTree/DistancedValue.cs:11-15 | when the value comparer finds a value equal to itself, the distanced value compares equal to itself |
| DistancedValues.CompareToAntisymmetric | TernarySearchTree/DistancedValue.cs:11-15 | when the value comparer is antisymmetric on the two values, swapping the operands negates the sign |
| DistancedValues.CompareToTransitive | TernarySearchTree/DistancedValue.cs:11-15 | when the value comparer is transitive on the three values, `CompareTo` is transitive: it is the lexicographic order on (distance, value) |

## Left out

- SearchDictionary.cs and Tree.cs as modelled here define no `Remove`, `Keys`, `Values`, `Optimize` or fuzzy/near search. Those operations are not part of this model.
- Chain simplification during removal is not modelled. `RemoveNode` never replaces a node by its only child, and nothing in the core calls `CanBeSimplified`. `Removal.SimplifyKeepsLookups` shows that such a replacement would be sound.
- Tree.RemoveNode: requires `Safe`, the condition under which no recursive call reaches a null link. The `NullReferenceException` the code then throws is not modelled. `Removal.RemoveUnsafe` exhibits an input on which it happens.
- Tree.GetAllKeys: the C# enumerations are lazy `yield` iterators on native recursion. The model returns the whole sequence at once. The same applies to Tree.GetAllValues, Tree.GetAllKeyValuePairs, the three `Traverse` enumerations and the private copy of `GetAllValues` at SearchDictionary.cs:128-154, which is modelled as Tree.GetAllValues.
- Facade.SearchDictionary.StartsWith: C# defers the body of an iterator until the first `MoveNext`, so a null or empty prefix throws only then. The model returns the error at the call.
- Facade.SearchDictionary.Insert: `Count` is an unbounded integer, so the wrap-around of a C# `int` past 2^31 - 1 stored keys is not modelled.
- `default(TValue)` is a parameter (`dflt`, the class's `Default`). `Comparer<TValue>.Default` is the `compare` parameter of `DistancedValues.CompareTo`. Its lemmas take the comparer's properties, on the values involved, as requirements.
- Exceptions are `Result`/`Outcome` values, returned where the C# throws. Stack traces are not modelled, and neither is the partial work an exception may leave behind: `Insert` runs its creation walk before the duplicate check, but a duplicate key means that walk found every node in place and created none, so a refused `Add` leaves the tree as it was (`Facade.StoreEffect`).
- Tree.GetNode: the key is a non-null string, so the `NullReferenceException` that `key[0]` throws for a null key is not modelled. The same holds for Tree.CreateNodes, Tree.RemoveNode and Traverse.GetNode. Tree.GetAllKeys, Tree.GetAllKeyValuePairs and their `Traverse` copies do not throw on a null key, because C# `+` treats a null string as empty; that case is the empty key `[]` in the model. The dictionary facade reaches these members only with a key it has already checked.
- The `ref root` parameter of `CreateNodes` is a returned `newRoot`.
- C# `char` is a UTF-16 code unit, and the model uses Dafny's `char`. The library compares characters only by ordinal, so the model keeps that order. Surrogate pairs are not treated specially in either.
- Thread safety and concurrent mutation are not modelled. Neither are the benchmarks, the key generator, `SearchResult`/`SearchMatch` and the tests.
- SearchDictionary.cs:128-154 is a private copy of `GetAllValues` whose code is the same as Tree.cs:135-161. The model defines it once, as `Tree.GetAllValues`, and `Facade.SearchDictionary.StartsWith` calls that.
- The `Value` getter of `Node` is a plain field read of `value` and has no member of its own.
- The enumeration order is pre-order: the node itself, then lower, equal and higher. This is not ascending order, and `Enumeration.KeysPreOrder` shows the difference. The model follows the code.
- For a key that is only a prefix of stored keys, the getter returns the default value rather than throwing `KeyNotFoundException`. The model follows the code. See Findings.

## Findings

| source | as written | input that shows it | evidently intended | confidence | as-written member | corrected member |
|---|---|---|---|---|---|---|
| TernarySearchTree/Tree.cs:195-219 | when any recursive call (lower, higher or equal) returns false, control falls through to the later tests and then to `ClearValue` on the current node | insert "b", "a", "ab", then remove "a": "b" loses its value too; insert "a", "ab", "ac", then remove "ab": "a" loses its value too (`Removal.RemoveClearsPrefix`) | each character test selects one branch, whose result is returned | not executed | Removal.RemoveClearsOther | Removal.RemoveFixedEffect |
| TernarySearchTree/Tree.cs:195-211 | after a lower call that returned false, `RemoveNode(node.EqualNode, …)` runs even when the equal link is null | insert "b", "ab", "abc", then remove "ab": the root's equal link is null and is dereferenced | stop at a null link and report nothing removed | not executed | Removal.RemoveUnsafe | Removal.RemoveFixedExact |
| TernarySearchTree/SearchDictionary.cs:175-181 | `FindNodeByKey` returns the node at the end of the key whether or not it holds a value, although its comment says "if it has a value"; the getter, `TryGetValue` and `StartsWith` use it | add only "ab", then read "a": the getter returns the default, `TryGetValue` reports true, `StartsWith("a")` yields the default first, while `ContainsKey("a")` is false | only a node holding a value counts as found | not executed | Dictionary.ValuelessReadsDefault | Dictionary.FixedReadsStored |
| TernarySearchTree/Argument.cs:23 | `IsNotEmpty` tests `argument == null` | `IsNotNullAndNotEmpty("", name)` returns normally | test for the empty string, as the message says | not executed | Argument.EmptyPasses | Argument.FixedRefusesNullAndEmpty |
