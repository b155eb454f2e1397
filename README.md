# DataStructures in Dafny

This project models the core of a Java coursework repository of data structures and
algorithms. It covers nine classes:

- an AVL tree and an unbalanced binary search tree;
- an array-backed binary min-heap;
- five array sorts: insertion, cocktail shaker, merge, quick and LSD radix;
- three string searches: Knuth-Morris-Pratt, Boyer-Moore and Rabin-Karp;
- an array list and a doubly linked list;
- an open-addressing hash map with quadratic probing and tombstones;
- breadth-first search, depth-first search and Dijkstra's algorithm over an adjacency map.

Each Java class becomes a module. Each module follows its source's own form:

- Code that mutates state becomes a Dafny `class` or a method over arrays.
  - The heap, the array list and the hash map keep their `array` fields.
  - The doubly linked list is a chain of `Node` objects, each with `next` and `previous` fields.
  - The sorts work in place on an `array`.
  - The string searches and graph searches are loops with invariants.
- The trees keep their recursive logic as functions over an immutable `Tree` datatype.
  - The `AVL` and `BST` classes hold a root of that type and the `size` field.
  - Their public methods are stated against those functions.
- Exceptions become `Result`, `Option` and `Outcome` values from the `Wrappers` module. Every error path of the Java code is one of these error values, except the ones listed under "Left out" (rejected `null` arguments, and loops that never end, which become `OutOfFuel`).

Where the Java code fails at runtime or does not do what its documentation promises, the model keeps two versions:

- the behaviour as written, with a lemma or a concrete example that shows the gap;
- a corrected definition, with the documented property proved about it.

The "Findings" section lists these pairs. Two behaviours are modelled as written only:

- the stopping rule of `dijkstras`, which departs from its documentation but runs without failing (see "Left out");
- the 32-bit overflow of `quadraticProbe` (QuadraticProbingHashMap.java:303). When `index + i*i` wraps to a negative value, the next array access throws. The model reports `IndexOutOfBounds` there, and every operation that probes passes that error on. The documentation promises no other behaviour for this case, so there is no corrected version.

## Model

| member | source | states |
|---|---|---|
| AvlTree.RotateLeft | AVL.java:451-458 | The right child becomes the root. The in-order sequence and the element set are unchanged, BST order is kept, and both cached heights are recomputed correctly. |
| AvlTree.RotateRight | AVL.java:465-472 | Mirror of RotateLeft: the in-order sequence, the elements and the order are kept, and the heights are recomputed. |
| AvlTree.RotationKeepsOrder | AVL.java:451-472 | The two shapes related by a rotation hold the same elements. One is ordered exactly when the other is. |
| AvlTree.SingleRightRotation | AVL.java:97-99 | Left-left case: on a node that is two taller on the left with a left child of balance factor ≥ 0, one right rotation gives a valid AVL tree of the expected height. |
| AvlTree.SingleLeftRotation | AVL.java:104-106 | Right-right case: mirror of the left-left case. |
| AvlTree.LeftRightRotation | AVL.java:94-112 | Left-right case: rotating the left child left and then the node right gives a valid AVL tree as tall as the left child. |
| AvlTree.RightLeftRotation | AVL.java:107-110 | Right-left case: rotating the right child right and then the node left gives a valid AVL tree as tall as the right child. |
| AvlTree.FindMax | AVL.java:211-216 | The rightmost value is stored in the tree, and in an ordered tree it is the largest. |
| AvlTree.CachedHeightIsReal | AVL.java:299-301 | When every cached height is 1 + the larger child height (absent = −1), it equals the real height. |
| AvlTree.InOrderSorted | AVL.java:81-113 | The in-order sequence of an ordered tree is strictly increasing and holds exactly its elements, so there are no duplicates. |
| AvlTree.NodeCountIsSize | AVL.java:495-498 | In an ordered tree the node count is the number of distinct elements. |
| AvlInsert.RebalanceAfterInsert | AVL.java:94-112 | After the recursive insertion, the height update and rebalancing give a valid AVL tree with the same elements. A balanced node is left alone. An unbalanced one ends as tall as its taller child was. |
| AvlInsert.Insert | AVL.java:81-113 | The insertion with the intended double rotation. The result is a valid AVL tree: ordered, correct heights, every balance factor within ±1. It holds the old elements plus `x` and is at most one level taller. |
| AvlInsert.InsertPresentIsIdentity | AVL.java:81-92 | Inserting a value that is already stored returns the same tree, so no node is created. |
| AvlInsert.InsertAll | AVL.java:40-48 | Adding a collection's values one after another gives a valid AVL tree holding the old elements and those values. |
| AvlInsert.InsertAsWrittenKeepsValues | AVL.java:81-113 | When the insertion as written does not fail, its result is ordered and holds the old elements plus `x`. |
| AvlInsert.InsertAsWrittenFails | AVL.java:100-102 | On the valid tree 3(1, -) the written code fails when inserting 2. The corrected insertion gives 2(1, 3). |
| AvlInsert.InsertAsWrittenUnbalances | AVL.java:100-102 | On a valid tree of height 3, inserting 18 with the written code succeeds but leaves a tree that is not balanced. |
| AvlInsert.AttemptIsAsWritten | AVL.java:81-113 | The recursive call as written completes exactly when the written insertion does, and then returns the same tree. |
| AvlInsert.AttemptKeepsValues | AVL.java:81-113 | Whether the call completes or throws, the tree it leaves is ordered and holds the old values plus `x`. |
| AvlInsert.AttemptPresentIsIdentity | AVL.java:81-92 | Adding a stored value to a valid tree completes and returns the same tree. |
| AvlInsert.InsertAllAsWrittenAppend | AVL.java:40-48 | Adding `xs + ys` as written is adding `xs`, then `ys` if that completed. The first failure ends it. |
| AvlDelete.RebalanceAfterDelete | AVL.java:184-203 | After a deletion below, the height update and rebalancing by the child's balance factor (≥ 0 / ≤ 0) give a valid AVL tree with the same elements and the expected height. |
| AvlDelete.SplicedChildUnchanged | AVL.java:172-174 | Rebalancing the child that replaces a deleted node with at most one child returns that child unchanged. |
| AvlDelete.Delete | AVL.java:161-204 | The result is a valid AVL tree holding the old elements minus `x`, at most one level lower. A node with two children takes its predecessor, the maximum of its left subtree, which is deleted from that subtree. |
| AvlDelete.DeleteAbsentIsIdentity | AVL.java:162-164 | Deleting an absent value returns the same tree. |
| AvlQueries.Search | AVL.java:249-261 | The result is `x` only when `x` is stored. In an ordered tree every stored value is found. |
| AvlQueries.FindPredecessor | AVL.java:362-374 | The largest stored value strictly below `x`. The result is None exactly when no stored value is below `x`. |
| AvlQueries.FindMaxDeepest | AVL.java:417-435 | The result is None exactly when the tree is empty. |
| AvlQueries.MaxDeepestIsDeepestMaximum | AVL.java:417-435 | The result lies on the deepest level, and in an ordered tree it is the largest value there. |
| AvlQueries.PredecessorExamples | AVL.java:328-336 | The documented tree built from 76, 34, 90, 40, 81 is a valid AVL tree. Its predecessors are 40 for 76, 76 for 81 and none for 34. |
| AvlQueries.MaxDeepestExamples | AVL.java:385-403 | The two documented trees give 1 and 3. |
| AvlQueries.HeightIsLogarithmic | AVL.java:81-204 | For a valid AVL tree of height h, 2^((h+1)/2) ≤ number of nodes + 1. |
| Avl.AVL.constructor | AVL.java:25-27 | An empty tree with size 0. |
| Avl.AVL.FromCollection | AVL.java:40-48 | As written: it succeeds exactly when adding the values one after another with the written insertion never fails, and otherwise reports NullPointer. On success the tree is that result, in search order, holding exactly the collection's values. |
| Avl.AVL.Add | AVL.java:68-73 | As written: it passes exactly when the written insertion completes, and then the root is that result. A failure is NullPointer. Either way the root is the tree the call leaves, it holds the old values and `x` in search order, and size grows by one exactly when `x` was absent. On a valid tree that already holds `x`, nothing changes. |
| Avl.AVL.InsertNode | AVL.java:81-113 | As written: the recursive method returns the completed tree or the partial tree an exception leaves, exactly as `InsertAttempt` gives them, and counts the new leaf. |
| Avl.AVL.FromCollectionCorrected | AVL.java:40-48 | With the intended insertion: a valid AVL tree equal to the values added one after another, holding exactly those values. |
| Avl.AVL.AddCorrected | AVL.java:68-73 | With the intended insertion: the root becomes `Insert(old root, x)`, which stays valid. Size grows by one exactly when `x` was absent. |
| Avl.AVL.InsertNodeCorrected | AVL.java:81-113 | With the intended insertion: the recursive method computes `Insert` and counts the new leaf. |
| Avl.CollectionAsWrittenFails | AVL.java:40-48 | Building the tree of [3, 1, 2] as written fails: the third addition throws. |
| Avl.AVL.Remove | AVL.java:142-153 | An absent value gives NoSuchElement and nothing changes. Otherwise the value is returned, the root becomes `Delete(old root, x)` and size drops by one. |
| Avl.AVL.Get | AVL.java:231-241 | The stored value equal to `x`, or NoSuchElement. |
| Avl.AVL.Contains | AVL.java:274-281 | True exactly when `x` is stored. |
| Avl.AVL.Height | AVL.java:290-292 | As written: the real height of a non-empty tree, NullPointer on the empty tree. |
| Avl.AVL.HeightCorrected | AVL.java:285-289 | As documented: the real height, which is −1 exactly for the empty tree. |
| Avl.AVL.Clear | AVL.java:308-311 | Root empty and size 0. |
| Avl.AVL.Predecessor | AVL.java:344-354 | An absent `x` gives NoSuchElement. Otherwise the largest stored value below `x`, or None when `x` is the minimum. |
| Avl.AVL.MaxDeepestNode | AVL.java:407-410 | None exactly for the empty tree. Otherwise the largest value on the deepest level. |
| Avl.AVL.Size | AVL.java:495-498 | The number of stored values. |
| BstTree.Insert | BST.java:91-104 | The result holds the old elements plus `x`, and order is kept. |
| BstTree.InsertPresentIsIdentity | BST.java:91-104 | Adding a stored value leaves the tree unchanged. |
| BstTree.Min | BST.java:179-184 | The leftmost value is stored, and in an ordered tree it is the smallest. |
| BstTree.Delete | BST.java:152-171 | In an ordered tree the result is ordered and holds the old elements minus `x`. A node with two children takes its successor. |
| BstTree.Find | BST.java:240-252 | Returns `x` only if it is stored. In an ordered tree every stored value is found. |
| BstTree.TraversalsArePermutations | BST.java:263-342 | Pre-, in- and post-order each list every node exactly once: their multisets are the tree's values. |
| BstTree.InOrderSorted | BST.java:293-312 | In an ordered tree the in-order list is strictly increasing and holds exactly the elements. |
| BstTree.Height | BST.java:398-406 | −1 exactly for the empty tree. A tree of height h has between h+1 and 2^(h+1)−1 nodes. |
| BstTree.QueueIsLevels | BST.java:362-374 | The queue loop emits the nodes level by level, left to right. |
| BstTree.LevelOrderIsPermutation | BST.java:357-375 | Level order lists every node exactly once and starts at the root. |
| BstTree.FindLCA | BST.java:505-520 | For two stored values, the node found lies between them and holds both, and they are not both on one side of it. |
| BstTree.FindAncestor | BST.java:530-541 | Finds a result exactly when `x` is stored. The result is the path from `x`'s node up to the subtree's root. |
| BstTree.UpPathShape | BST.java:530-541 | That path starts at `x`, stays inside the tree, never repeats a value consecutively and meets the root only at its end. |
| BstTree.PathBetweenErrors | BST.java:474-480 | Both versions of `findPathBetween` fail exactly when one of the values is not stored. |
| BstTree.PathBetweenShape | BST.java:443-461 | The corrected path starts at `d1`, ends at `d2`, stays inside the tree and never repeats a value consecutively. |
| BstTree.PathBetweenAsWrittenRepeats | BST.java:486-487 | The path as written is one longer than the corrected path and repeats the common ancestor. |
| BstTree.ExampleAncestors | BST.java:450-460 | On the documented tree, the upward path search finds 10 → [10,11,12,25] and 40 → [40,37,25] in the subtree rooted at 25, and 37 → [37,25,50] from the root. |
| BstTree.PathExampleDeep | BST.java:449-460 | For 10 and 40, corrected gives [10,11,12,25,37,40] and as written gives [10,11,12,25,25,37,40]. |
| BstTree.PathExampleFromRoot | BST.java:461 | For 50 and 37 the corrected path is [50,25,37]. |
| BstTree.PathExampleSame | BST.java:462 | For 75 and 75, corrected gives [75] and as written gives [75,75]. |
| Bst.BST.constructor | BST.java:31-33 | An empty tree with size 0. |
| Bst.BST.FromCollection | BST.java:50-59 | The values of the collection added in order. The tree holds exactly those values. |
| Bst.BST.Add | BST.java:77-82 | The root becomes `Insert(old root, x)`. Size grows by one exactly when `x` was absent. |
| Bst.BST.InsertNode | BST.java:91-104 | The recursive method computes `Insert`, and the node count grows exactly when a leaf is made. |
| Bst.BST.Remove | BST.java:133-143 | An absent value gives NoSuchElement and nothing changes. Otherwise the value is returned, it is deleted and size drops by one. |
| Bst.BST.Get | BST.java:203-212 | The stored value equal to `x`, or NoSuchElement. |
| Bst.BST.Contains | BST.java:229-231 | True exactly when `x` is stored. |
| Bst.BST.Preorder | BST.java:263-282 | The list built by the recursive helper is the pre-order and a permutation of the values. |
| Bst.BST.Inorder | BST.java:293-312 | The in-order list: strictly increasing and holding exactly the elements. |
| Bst.BST.Postorder | BST.java:323-342 | The post-order, a permutation of the values. |
| Bst.BST.Levelorder | BST.java:357-375 | The queue loop's output is the level order: a permutation of the values that starts at the root. |
| Bst.BST.Height | BST.java:389-392 | The height: −1 exactly for the empty tree, and h+1 ≤ size < 2^(h+1). |
| Bst.BST.Clear | BST.java:415-418 | Root empty and size 0. |
| Bst.BST.FindPathBetween | BST.java:474-495 | As written: NoSuchElement exactly when a value is absent, otherwise the path with the ancestor twice. |
| Bst.BST.FindPathBetweenCorrected | BST.java:443-461 | As documented: the path from `d1` to `d2` through the common ancestor, which appears once. |
| Bst.BST.Size | BST.java:564-567 | The number of stored values. |
| Heap.RootIsMin | MinHeap.java:130-137 | In heap order, slot 1 is at most every slot of the heap. |
| Heap.HeapMinimum | MinHeap.java:108-137 | Slot 1 is a stored value no larger than any stored value. |
| Heap.MinHeap.constructor | MinHeap.java:32-35 | Empty, with capacity 13. |
| Heap.MinHeap.FromSeq | MinHeap.java:60-76 | Capacity 2n+1, size n, heap order, and exactly the given values. |
| Heap.MinHeap.CopyToSlots | MinHeap.java:64-71 | A new array of length 2n+1 whose slots 1..n are the data. |
| Heap.MinHeap.BuildHeap | MinHeap.java:73-75 | Down-heaping parents from n/2 to 1 makes slots 1..n a heap with the same values. |
| Heap.MinHeap.Add | MinHeap.java:87-97 | As written: on a full array (size + 1 equal to its length) the resize throws, so the result is ClassCast and the array, its slots and the size are unchanged. Otherwise Pass: the value is added to the multiset, heap order holds and the array is the same. |
| Heap.MinHeap.AddCorrected | MinHeap.java:87-97 | With the intended resize: the value is added to the multiset and heap order holds. The array doubles exactly when size + 1 was its length. |
| Heap.MinHeap.EnsureRoomCorrected | MinHeap.java:91-93 | With the intended resize: when full, the array doubles. Contents are kept either way, and slot size + 1 exists afterwards. |
| Heap.MinHeap.InsertLeaf | MinHeap.java:94-96 | Writing at slot n+1 and up-heaping gives a heap over 1..n+1 with the value added. |
| Heap.MinHeap.Remove | MinHeap.java:108-122 | An empty heap gives NoSuchElement. Otherwise the minimum is returned and removed from the multiset, heap order holds and the capacity is unchanged. |
| Heap.MinHeap.RemoveRoot | MinHeap.java:113-120 | Returns the old slot 1. Slots 1..n−1 are a heap of the old values minus it. |
| Heap.MinHeap.GetMin | MinHeap.java:130-137 | An empty heap gives NoSuchElement. Otherwise the result is the minimum of the stored values. |
| Heap.MinHeap.DownHeap | MinHeap.java:143-165 | If every parent after `start` is ordered, afterwards every parent from `start` on is, with the same values. |
| Heap.MinHeap.UpHeap | MinHeap.java:172-181 | If heap order fails at most at `index`, afterwards the whole heap is ordered, with the same values. |
| Heap.MinHeap.ResizeCorrected | MinHeap.java:186-195 | As intended: twice the length, with slots 1..size copied, so heap order and the values are kept. |
| Heap.ThirteenthAddFails | MinHeap.java:186-195 | A new heap (capacity 13) takes twelve additions; the thirteenth, as written, gives ClassCast and leaves twelve values. |
| Heap.ThirteenthAddCorrectedGrows | MinHeap.java:87-97 | With the intended resize the thirteenth addition gives thirteen values in an array of 26. |
| Heap.MinHeap.IsEmpty | MinHeap.java:202-204 | True exactly when no value is stored. |
| Heap.MinHeap.Clear | MinHeap.java:212-216 | Capacity 13 and size 0. |
| SortSpec.Swap | Sorting.java:289-293 | Exactly slots `i` and `j` exchange values. |
| SortSpec.StableIsPermutation | Sorting.java:36-189 | A stable rearrangement (per key, same order) is a permutation. |
| SortSpec.StableSortIsUnique | Sorting.java:36-189 | Two sorted stable rearrangements of one input are equal. |
| SortSpec.SwapNeighboursIsStable | Sorting.java:88-104 | Swapping two neighbours with different keys keeps stability. |
| InsertionSort.InsertionSort | Sorting.java:36-50 | Sorted by the key, stable, and a permutation of the input. |
| CocktailSort.CocktailSort | Sorting.java:75-106 | Sorted, stable, and a permutation of the input. |
| CocktailSort.ForwardPass | Sorting.java:88-95 | The pass sets up the backward pass over `start..newEnd`: everything from `newEnd` on is in final position and the array stays a stable rearrangement. If a swap happened, `newEnd` lies inside the old window. |
| CocktailSort.BackwardPass | Sorting.java:98-104 | After the backward pass everything before `newStart` is in final position. With no forward swap the array is sorted. |
| MergeSort.MergedIsSorted | Sorting.java:168-189 | Merging two sorted sequences gives a sorted sequence. |
| MergeSort.MergedIsStable | Sorting.java:177-181 | For every key, the left half's elements come before the right half's, each in its own order. |
| MergeSort.MergedHalvesAreSorted | Sorting.java:143-155 | Merging the sorted stable halves gives a sorted, stable arrangement of the whole input. |
| MergeSort.MergeSort | Sorting.java:137-157 | Sorted, stable, and a permutation of the input. |
| MergeSort.Merge | Sorting.java:168-189 | The array becomes the merge of the two halves. |
| QuickSort.Partition | Sorting.java:266-279 | The pivot lands at `id`. Keys in [first, id) are at most the pivot's, keys in (id, last] are above it, and only the range is rearranged. |
| QuickSort.Sort | Sorting.java:245-253 | The range is sorted and a rearrangement of itself, and nothing outside it changes. |
| QuickSort.QuickSort | Sorting.java:227-233 | Sorted, and a permutation of the input. |
| JavaInt.DigitSplit | Sorting.java:352-353 | Java's truncating `/` and `%` split off one decimal digit, with the digit in −9..9 carrying the number's sign. |
| RadixSort.BucketOf | Sorting.java:352-353 | The bucket index is in 0..18. |
| RadixSort.Distribute | Sorting.java:351-362 | Each bucket gets the numbers of its digit in array order. `continuing` tells whether a higher digit exists. |
| RadixSort.GatherAll | Sorting.java:364-372 | The array becomes the buckets concatenated in order, and the buckets are emptied. |
| RadixSort.PassSorts | Sorting.java:349-373 | A stable pass by the next digit extends sortedness modulo `div` to modulo `10·div`. |
| RadixSort.GatheredPermutes | Sorting.java:364-372 | A pass permutes the numbers. |
| RadixSort.LastPass | Sorting.java:349-374 | When no number has a higher digit, sorted by the low digits means sorted. |
| RadixSort.LsdRadixSort | Sorting.java:337-375 | Ascending, negatives included, and a permutation of the input. |
| MatchSpec.OccurrencesExact | PatternMatching.java:30-66 | The specified match list is strictly ascending and holds exactly the match positions. |
| MatchSpec.LongPatternNeverMatches | PatternMatching.java:37-39 | A pattern longer than the text has no occurrence. |
| MatchSpec.FailureTableUnique | PatternMatching.java:91-118 | The failure table of a pattern is determined by it. |
| Kmp.BuildFailureTable | PatternMatching.java:91-118 | Each slot `i` holds the longest proper border of `p[..i+1]`, and the table has the pattern's length. |
| Kmp.AbabacTable | PatternMatching.java:79-81 | The failure table of "ababac" is [0,0,1,2,3,0]. |
| Kmp.ShiftSkipsNothing | PatternMatching.java:50-60 | The KMP shift by the failure table skips no occurrence. |
| Kmp.Kmp | PatternMatching.java:30-66 | An empty pattern gives IllegalArgument. Otherwise the result is exactly the ascending list of occurrences. |
| BoyerMoore.BuildLastTable | PatternMatching.java:204-215 | Keys are exactly the pattern's characters, each mapped to its last index. |
| BoyerMoore.LastTableUnique | PatternMatching.java:204-215 | The last table of a pattern is determined by it. |
| BoyerMoore.OctocatTable | PatternMatching.java:188-195 | The last table of "octocat" is o→3, c→4, a→5, t→6. |
| BoyerMoore.BadCharacter | PatternMatching.java:160-171 | The bad-character shift from `text[index+m−1]` skips no occurrence. |
| BoyerMoore.BoyerMoore | PatternMatching.java:138-176 | An empty pattern gives IllegalArgument. Otherwise the result is exactly the ascending list of occurrences. |
| RabinKarp.Hash | PatternMatching.java:345-356 | The reduced loop equals the polynomial hash mod `Integer.MAX_VALUE`. |
| RabinKarp.Equal | PatternMatching.java:328-337 | True exactly when the pattern occurs at `start`. |
| RabinKarp.Roll | PatternMatching.java:309-313 | The rolling update gives the direct hash of the next window. |
| RabinKarp.MatchHashesEqual | PatternMatching.java:296-316 | An occurrence has the pattern's hash, so no occurrence is missed. |
| RabinKarp.RabinKarp | PatternMatching.java:281-317 | An empty pattern gives IllegalArgument. Otherwise the result is exactly the ascending list of occurrences. |
| RabinKarp.BunnHash | PatternMatching.java:250-254 | "bunn" hashes to 142910419. |
| RabinKarp.BunnyRoll | PatternMatching.java:261-265 | "unny" hashes to 170236090. |
| ListSpec.InsertAtIs | ArrayList.java:45-66 | Characterises insertion at `i` pointwise, in both directions. |
| ListSpec.RemoveAtIs | ArrayList.java:122-141 | Characterises removal at `i` pointwise, in both directions. |
| ListSpec.RemoveInsert | ArrayList.java:122-141 | Removing at `i` after inserting at `i` gives back the list. |
| ListSpec.InsertRemove | ArrayList.java:45-66 | Re-inserting the removed element gives back the list. |
| DynamicArray.ArrayList.constructor | ArrayList.java:28-31 | Empty, with capacity 9. |
| DynamicArray.ArrayList.AddAtIndex | ArrayList.java:45-66 | As written: IndexOutOfBounds for an index outside 0..size, and also when the shift runs past the array. Otherwise the contents are the insertion at `index`, after doubling a full array. |
| DynamicArray.ArrayList.AddAtIndexCorrected | ArrayList.java:45-66 | IndexOutOfBounds exactly for an index outside 0..size. Otherwise the insertion at `index`. |
| DynamicArray.ArrayList.AddToFront | ArrayList.java:78-90 | As written: fails exactly when one free slot remains. Otherwise the data is prepended. |
| DynamicArray.ArrayList.AddToFrontCorrected | ArrayList.java:78-90 | The data is prepended, after doubling a full array. |
| DynamicArray.ArrayList.ShiftInAsWritten | ArrayList.java:60-64 | The shift starting at slot `size` succeeds exactly when two slots are free. |
| DynamicArray.ArrayList.ShiftIn | ArrayList.java:60-64 | The shift starting at the last element inserts at `index`. |
| DynamicArray.ArrayList.AddToBack | ArrayList.java:100-109 | The data is appended. The array doubles exactly when it was full. |
| DynamicArray.ArrayList.RemoveAtIndex | ArrayList.java:122-141 | IndexOutOfBounds outside 0..size−1. Otherwise returns the element and the contents lose it, with the vacated slot nulled. |
| DynamicArray.ArrayList.RemoveFromFront | ArrayList.java:153-166 | NoSuchElement when empty. Otherwise returns the first element and the rest move down. |
| DynamicArray.ArrayList.RemoveFromBack | ArrayList.java:176-184 | NoSuchElement when empty. Otherwise returns the last element. |
| DynamicArray.ArrayList.Get | ArrayList.java:195-200 | IndexOutOfBounds exactly outside [0, size). Otherwise the element at `index`. |
| DynamicArray.ArrayList.Clear | ArrayList.java:225-228 | Empty, with capacity 9. |
| DynamicArray.ArrayList.Resize | ArrayList.java:233-242 | Twice the capacity, same contents. |
| DynamicArray.OneFreeSlot | ArrayList.java:85-87 | Eight elements in nine slots: `addToFront` as written fails, while the corrected version prepends. |
| LinkedList.LastIndexOf | DoublyLinkedList.java:270-291 | None exactly when `x` is absent. Otherwise the last index holding `x`. |
| LinkedList.DoublyLinkedList.constructor | DoublyLinkedList.java:11-15 | An empty, well-linked list. |
| LinkedList.DoublyLinkedList.AddToFront | DoublyLinkedList.java:71-84 | On any well-linked chain, even one with a stale `tail`: the data is prepended and the chain stays well linked. A non-empty list keeps its `tail`, so a valid list stays valid. |
| LinkedList.DoublyLinkedList.AddToBack | DoublyLinkedList.java:94-107 | The data is appended and the chain stays well linked. |
| LinkedList.DoublyLinkedList.NodeAt | DoublyLinkedList.java:42-52 | Walking from the nearer end reaches the node at `index`. |
| LinkedList.DoublyLinkedList.AddAtIndex | DoublyLinkedList.java:28-61 | As written: IndexOutOfBounds exactly outside 0..size. A middle index inserts at `index+1`. At `size−1` the data is appended but `tail` stays stale. |
| LinkedList.DoublyLinkedList.AddAtIndexCorrected | DoublyLinkedList.java:28-61 | IndexOutOfBounds exactly outside 0..size. Otherwise the data is inserted at `index` and the list stays valid. |
| LinkedList.DoublyLinkedList.RemoveAtIndex | DoublyLinkedList.java:120-148 | As written: IndexOutOfBounds outside the range. At either end the node is removed but the result is ClassCast. In the middle the node is unlinked and its data returned. |
| LinkedList.DoublyLinkedList.RemoveAtIndexCorrected | DoublyLinkedList.java:120-148 | The element at `index` is returned and removed. |
| LinkedList.DoublyLinkedList.RemoveFromFront | DoublyLinkedList.java:158-172 | NoSuchElement when empty. Otherwise returns the head element. `head` and `tail` become null when size was 1. |
| LinkedList.DoublyLinkedList.RemoveFromBack | DoublyLinkedList.java:182-196 | NoSuchElement when empty. Otherwise returns the tail element. `head` and `tail` become null when size was 1. |
| LinkedList.DoublyLinkedList.Get | DoublyLinkedList.java:208-231 | IndexOutOfBounds outside [0, size). Otherwise the element at `index`. |
| LinkedList.DoublyLinkedList.IsEmpty | DoublyLinkedList.java:240-242 | True exactly when there are no elements. |
| LinkedList.DoublyLinkedList.Clear | DoublyLinkedList.java:251-255 | Empty, with `head` and `tail` null. |
| LinkedList.DoublyLinkedList.RemoveLastOccurrence | DoublyLinkedList.java:270-291 | NoSuchElement when no element matches. Otherwise the match nearest the tail is removed. |
| LinkedList.DoublyLinkedList.ToArray | DoublyLinkedList.java:302-314 | A fresh array of length size listing the elements head to tail. |
| LinkedList.AddAtIndexLandsAfter | DoublyLinkedList.java:42-58 | On [1,2,3], `addAtIndex(1, 9)` as written gives [1,2,9,3]. |
| LinkedList.AddAtIndexCorrectedLandsAt | DoublyLinkedList.java:28-61 | The corrected version gives [1,9,2,3]. |
| ProbingSpec.ProbeOf | QuadraticProbingHashMap.java:299-307 | A successful probe returns a free slot: null or tombstone. It starts at `|hash % len|` if that slot is free. An empty table is Arithmetic, an int overflow into a negative index is IndexOutOfBounds, and running out of fuel is OutOfFuel. |
| ProbingSpec.MapOfPut | QuadraticProbingHashMap.java:102-116 | Storing into the key's live slot, or into a free slot when the key is absent, keeps keys unique and updates the map at the key. |
| ProbingSpec.MapOfRemove | QuadraticProbingHashMap.java:137-143 | Marking a live entry removed keeps keys unique and deletes its key from the map. |
| ProbingSpec.RebuildDone | QuadraticProbingHashMap.java:256-269 | The rebuilt table has no tombstones and the same live entries and map. |
| HashMap.QuadraticProbingHashMap.constructor | QuadraticProbingHashMap.java:55-58 | `initialCapacity` empty slots, size 0 and an empty map. |
| HashMap.QuadraticProbingHashMap.Default | QuadraticProbingHashMap.java:42-44 | 13 empty slots. |
| HashMap.QuadraticProbingHashMap.Probe | QuadraticProbingHashMap.java:299-307 | The probe loop computes `ProbeOf`. |
| HashMap.QuadraticProbingHashMap.FindSlot | QuadraticProbingHashMap.java:105-113 | The put walk stops at an empty slot or the key's live entry, and fails only when every slot is occupied by other entries. |
| HashMap.QuadraticProbingHashMap.Scan | QuadraticProbingHashMap.java:166-171 | The walk returns the first slot, in cyclic order from `start`, that holds a live entry of the key. It finds one exactly when one exists. |
| HashMap.QuadraticProbingHashMap.Put | QuadraticProbingHashMap.java:95-117 | As written. A success adds the entry to the live entries and displaces at most one live entry of the key, whose value is returned. Size grows by one exactly when nothing is displaced. An error leaves the live entries and size unchanged. On a table without tombstones nothing is displaced, and without a resize the entry goes to the probe's slot. With a resize, a failing rebuild is the error and keeps the table; otherwise, when the probe in the rebuilt table succeeds, the table is `Rebuild(old table, 2·length+1)` with the entry in the probe's slot. A failing probe, in the old table or in the rebuilt one, is the error, and the table is left as it stood before the probe. |
| HashMap.QuadraticProbingHashMap.PutProbed | QuadraticProbingHashMap.java:102-116 | The probe, the walk and the store of `put` on the current table. A failing probe is its error and changes nothing. On a table without tombstones a successful probe stores the entry in the probe's slot and returns None. In general a success adds the entry to the live entries and displaces at most one live entry of the key. |
| HashMap.QuadraticProbingHashMap.Remove | QuadraticProbingHashMap.java:128-152 | As written: a success marks a live entry of the key removed and decrements size. On a table without tombstones it always fails. |
| HashMap.QuadraticProbingHashMap.Get | QuadraticProbingHashMap.java:162-174 | Probe errors propagate. Otherwise it returns the value of the first live entry of the key met in cyclic order from the probe's slot, or NoSuchElement when there is none. It succeeds exactly when such an entry exists. With unique keys the value is the map's value for the key. |
| HashMap.QuadraticProbingHashMap.ContainsKey | QuadraticProbingHashMap.java:184-191 | Probe errors propagate. Otherwise true exactly when a live entry of the key exists. |
| HashMap.QuadraticProbingHashMap.KeySet | QuadraticProbingHashMap.java:200-208 | Exactly the keys of live entries. |
| HashMap.QuadraticProbingHashMap.Values | QuadraticProbingHashMap.java:220-228 | The values of live entries in slot order, `size` of them. |
| HashMap.QuadraticProbingHashMap.ResizeBackingTable | QuadraticProbingHashMap.java:256-269 | IllegalArgument exactly when `length < size`. Otherwise the result and the new table are those of `Rebuild(old table, length)`: each live entry, in slot order, in the slot the probe finds in the table built so far. A failing probe is the error and keeps the table. On success the table is fresh, with exactly the live entries, no tombstones, and the same map and size. |
| HashMap.QuadraticProbingHashMap.Rebuilt | QuadraticProbingHashMap.java:260-267 | The outcome and the fresh table are exactly `Rebuild(s, length)`: success with that table, or its error. |
| ProbingSpec.RebuildFrom | QuadraticProbingHashMap.java:262-267 | A successful rebuild keeps the new table's length. A failure is one of the probe's errors. |
| ProbingSpec.RebuildFromFinishes | QuadraticProbingHashMap.java:262-267 | A rebuild that succeeds from a state of the rebuild invariant ends in the finished invariant. |
| ProbingSpec.RebuildKeepsEntries | QuadraticProbingHashMap.java:256-269 | A successful rebuild into `length` empty slots has `length` slots, no tombstones and exactly the old live entries, and keeps the map when keys are unique. |
| HashMap.QuadraticProbingHashMap.Clear | QuadraticProbingHashMap.java:279-282 | 13 empty slots, size 0. |
| HashMap.QuadraticProbingHashMap.PutCorrected | QuadraticProbingHashMap.java:95-117 | The map becomes `old map[key := value]`. It returns the previous value if any, and size grows exactly for a new key. |
| HashMap.QuadraticProbingHashMap.RemoveCorrected | QuadraticProbingHashMap.java:128-152 | Succeeds exactly when the key is present. It returns its value, removes it from the map and decrements size. |
| HashMap.PutTwiceDuplicates | QuadraticProbingHashMap.java:102-116 | Putting key 1 twice as written leaves two live entries for key 1, in slots 1 and 2, and every other slot empty. |
| HashMap.FirstFromIsFirst | QuadraticProbingHashMap.java:166-171 | The slot the cyclic walk finds holds the key, and no earlier step of the walk meets a live entry of the key. Nothing is found exactly when no step does. |
| HashMap.GetAfterDuplicates | QuadraticProbingHashMap.java:162-174 | After those two puts, `get(1)` returns 10, the value of the first duplicate the walk meets. |
| HashMap.RemoveAfterPutFails | QuadraticProbingHashMap.java:133-151 | Removing a present key as written gives NoSuchElement. |
| HashMap.PutCorrectedTwiceReplaces | QuadraticProbingHashMap.java:95-117 | The corrected put replaces the value and returns the old one. |
| GraphAlgorithms.ClosedIsReachable | GraphAlgorithms.java:45-129 | A set that contains the start, is closed under edges and holds only reachable vertices is exactly the reachable set. |
| GraphAlgorithms.UnseenIs | GraphAlgorithms.java:60-65 | The neighbours enqueued are distinct and are exactly the unvisited neighbours. |
| GraphAlgorithms.EnqueueNeighbours | GraphAlgorithms.java:60-65 | The queue gains the unvisited neighbours in adjacency order, and all neighbours are marked visited when enqueued. |
| GraphAlgorithms.Bfs | GraphAlgorithms.java:45-68 | IllegalArgument exactly when start is not a vertex. Otherwise the output starts at start, has no duplicates and holds exactly the reachable vertices. |
| GraphAlgorithms.DfsVisit | GraphAlgorithms.java:119-129 | Leaves exactly the visited set and output `DfsFrom` gives: `v` first, then each unvisited neighbour explored to the end in adjacency order. The prefix is kept, new vertices are reachable from `v`, and the visited set becomes closed. |
| GraphAlgorithms.Dfs | GraphAlgorithms.java:98-108 | Same contract as Bfs. The output is also exactly the order `DfsFrom` gives from the start vertex. |
| GraphAlgorithms.DfsFollowsAdjacency | GraphAlgorithms.java:119-129 | On a four-vertex graph whose start lists 2 before 1, the search gives 0, 2, 3, 1: each branch is finished before the next neighbour. |
| GraphAlgorithms.InitialDistances | GraphAlgorithms.java:172-178 | Every vertex gets an entry: 0 for start, `Integer.MAX_VALUE` for the rest. |
| GraphAlgorithms.MinExists | GraphAlgorithms.java:181-182 | A non-empty queue has an entry of least distance. |
| GraphAlgorithms.RelaxEdges | GraphAlgorithms.java:183-190 | When `d` is `u`'s label, afterwards no edge of `u` can lower a label. Every other vertex stays settled and `u`'s label is unchanged. Labels and queued distances stay weights of walks from the source, and no queued distance is below its vertex's label. Either the pending measure shrank or nothing changed. |
| GraphAlgorithms.Complete | GraphAlgorithms.java:163-193 | When the queue empties, every path from start of weight below `MAX_VALUE` bounds its end's entry. |
| GraphAlgorithms.Dijkstras | GraphAlgorithms.java:163-193 | IllegalArgument exactly when start is not a vertex. Otherwise every vertex has an entry with start at 0. A finite entry is a path weight, and no path with weight below `MAX_VALUE` is shorter. |
| GraphAlgorithms.DistanceMeaning | GraphAlgorithms.java:132-139 | An unreachable vertex keeps `MAX_VALUE`. A finite entry is the minimum weight over all paths. |
| JavaInt.JDiv | Sorting.java:352-353 | Java's integer division by a positive divisor: the quotient has the sign of the dividend, truncating toward zero. |
| JavaInt.JRem | Sorting.java:352-353 | Java's `%` by a positive divisor: quotient times divisor plus remainder is the dividend. The remainder has the dividend's sign and a magnitude below the divisor, and on a non-negative dividend it is the Euclidean remainder. |
| JavaInt.Wrap32 | QuadraticProbingHashMap.java:304 | Java `int` overflow: the result is in the 32-bit range, equal to the exact value when that is in range, and otherwise differs from it by a multiple of 2^32. |
| RadixSort.CopyBucket | Sorting.java:367-369 | One bucket is copied into the array from `index` on, and the slots before `index` are unchanged. |
| MergeSort.MergeRest | Sorting.java:182-187 | Copying the leftover half completes the merge: the array becomes exactly the merged sequence. |
| RabinKarp.RollWindow | PatternMatching.java:309-313 | Rolling the hash of the window at `i` gives the hash of the window at `i + 1`. |
| Heap.MinHeap.SmallerChild | MinHeap.java:148-154 | The child with the smaller value. It is the right child exactly when a right child exists and is strictly smaller. |
| Bst.BST.FindMin | BST.java:179-184 | The leftmost value. It is stored in the subtree and, in an ordered tree, is its least value. |
| Bst.BST.PreorderInto | BST.java:274-282 | The recursion appends exactly the pre-order of the subtree. |
| Bst.BST.InorderInto | BST.java:304-312 | The recursion appends exactly the in-order of the subtree. |
| Bst.BST.PostorderInto | BST.java:334-342 | The recursion appends exactly the post-order of the subtree. |
| Bst.BST.LevelorderFrom | BST.java:362-374 | The queue loop yields exactly the level order, level by level and left to right. |
| Bst.BST.OfferChildren | BST.java:368-373 | The present children join the back of the queue, left first. |
| Bst.BST.AppendDownward | BST.java:490-492 | The ancestor path of the second value is appended in reverse, without its last entry. |
| Bst.InsertAll | BST.java:50-59 | Adding a collection gives its values plus the old ones, and keeps the tree ordered. |
| BstTree.AncestorPaths | BST.java:474-495 | For two stored values the common ancestor exists. The corrected path joins the two ancestor paths at it once. The as-written path repeats the ancestor. |
| HashMap.QuadraticProbingHashMap.FindLive | QuadraticProbingHashMap.java:137-149 | A found slot holds a live entry of the key. A walk from an empty slot finds nothing. |
| HashMap.QuadraticProbingHashMap.Place | QuadraticProbingHashMap.java:262-267 | A dead slot changes nothing. A live entry goes to the slot `ProbeOf` gives in the new table, and no other slot changes; a failing probe is the error and changes nothing. The step is one step of `RebuildFrom`, and it keeps the rebuild invariant. |
| HashMap.QuadraticProbingHashMap.StoreAt | QuadraticProbingHashMap.java:107-116 | Only slot `index` changes, to the new entry. The previous value is returned when the slot was live, and size grows by one otherwise. |
| ProbingSpec.ValuesUpToIs | QuadraticProbingHashMap.java:220-228 | The values list has one value per live entry, in slot order. |
| ProbingSpec.MapOfIs | QuadraticProbingHashMap.java:162-174 | With unique keys, a key is in the map exactly when a slot holds it live, and then it maps to that slot's value. |
| ProbingSpec.ProbeRevisits | QuadraticProbingHashMap.java:302-306 | The probe's first step adds 0, so from a live slot it looks at the same slot again. |
| DynamicArray.ArrayList.ShiftUpAsWritten | ArrayList.java:60-62 | As written, the shift starts at slot `size`. It succeeds exactly when slot `size + 1` exists, and then moves everything from `index` up one. On failure nothing changes. |
| DynamicArray.ArrayList.ShiftUp | ArrayList.java:60-62 | Corrected: slots `index+1 .. size` take the old slots `index .. size-1`, and no other slot changes. |
| DynamicArray.ArrayList.ShiftDown | ArrayList.java:134-136 | Slots `index .. size-2` take the old slots `index+1 .. size-1`, and no other slot changes. |
| LinkedList.DoublyLinkedList.InsertAfter | DoublyLinkedList.java:40-59 | The contents gain `data` at `k + 1` and the links hold. When `k` was the last index, `tail` is left on the old last node. |
| LinkedList.DoublyLinkedList.Unlink | DoublyLinkedList.java:143-144 | Removing an inner node drops its element from the contents and keeps the list well linked. |
| LinkedList.Bypass | DoublyLinkedList.java:143-144 | Only the two links around the node change. Every other link and every element stays. |
| LinkedList.Splice | DoublyLinkedList.java:53-58 | The new node is linked in after node `k`. Every other link and every element stays. |
| AvlQueries.BalancedTreeIsFull | AVL.java:383 | A balanced tree of height h has at least `MinNodes(h)` nodes, which grows exponentially in h, so searches take O(log n). |
| Kmp.Shift | PatternMatching.java:50-60 | Shifting by the failure table after a mismatch or a match keeps the search invariant, so no occurrence is skipped. |
| GraphAlgorithms.BfsStep | GraphAlgorithms.java:57-66 | One round of bfs keeps the loop invariant, and the dequeued vertex is new to the result. |

## Left out

Null handling:
- No Java `null` argument is modelled: null data, keys, values, patterns, texts, arrays, comparators, graphs or start vertices. The `IllegalArgumentException`s that reject them are left out because every model value is non-null.
- Heap.MinHeap.Remove: does not model nulling the vacated slot, because the heap stores `int`s. MinHeap.java:116 is not modelled.

Other behaviour:
- Avl.AVL.Remove and Bst.BST.Remove return the argument, as the source does (AVL.java:152, BST.java:142). Elements are `int`s, so the argument and the stored element are equal.
- The AVL and BST trees are immutable `Tree` values in the classes' `root` field. Updating nodes in place (`setLeft`, `setHeight`, `setData`) is modelled by building new values, so node aliasing is not captured.
- Comparators are modelled as an integer key function `key: T -> int`. A comparator that is not induced by such a key is not covered. The `CharacterComparator` is character equality.
- `Sorting.heapSort` is left out: it is a wrapper over `java.util.PriorityQueue`.
- `PatternMatching.boyerMooreGalilRule` is left out: its shift can be 0 or −1, so it need not terminate.
- `GraphAlgorithms.kruskals` is left out: it depends on `DisjointSet` and `Edge`, which are not part of this model.
- The pivot of `quickSort` comes from `java.util.Random`. `QuickSort.Sort` takes an arbitrary index in [first, last] instead.
- The `Graph`, `Vertex`, `VertexDistance` and `Edge` classes are replaced by a map from each vertex to its ordered list of (neighbour, weight) pairs. Every edge must end at a vertex, which is the `ValidGraph` precondition. Weights are non-negative (`nat`).
- The priority queue of Dijkstra's algorithm is a multiset from which an entry of least distance is taken.
- The javadoc of `dijkstras` (GraphAlgorithms.java:146-150) describes stopping once every vertex is visited as well as on an empty queue. The code stops only when the queue is empty, and `GraphAlgorithms.Dijkstras` follows the code.
- GraphAlgorithms.Dijkstras: distances are unbounded integers, so the 32-bit overflow of `dist + weight` is not modelled. The shortest-path bound is stated only for paths of weight below `Integer.MAX_VALUE`.
- GraphAlgorithms.Bfs: the exact visiting order is stated one step at a time, by `EnqueueNeighbours` (adjacency order, marked when enqueued). It is not a closed-form sequence. The whole-run contract is start-first, distinct, and exactly the reachable set.
- GraphAlgorithms.Dfs: the order is stated exactly, by `DfsFrom`, a definition with the same recursion as the helper. No independent characterisation of depth-first order is proved beyond the example in `DfsFollowsAdjacency`.
- Texts and patterns are `seq<char>`, whose elements are Unicode scalar values. Java's `CharSequence` indexes UTF-16 code units. A text with characters outside the Basic Multilingual Plane therefore has other lengths, match indices and Rabin–Karp hashes in Java, and a lone surrogate cannot be represented at all.
- Avl.AVL.Add: after an addition as written the tree is only known to be ordered with a matching count (`Sound`). It may be unbalanced or hold stale cached heights (see `AvlInsert.InsertAsWrittenUnbalances`). The operations that depend on heights and balance (`Remove`, `Height`, `HeightCorrected` and `MaxDeepestNode`) are stated only for valid trees. `Get`, `Contains`, `Predecessor`, `Size` and `Clear` need only `Sound`.
- `hashCode` is an abstract function `hash: K -> int` fixed per map.
- Tables with tombstones: the contracts of `HashMap.QuadraticProbingHashMap.Put` and `Remove` fix the slot and the outcome only on tables without tombstones. The public operations as written never create a tombstone. The constructors, `Clear` and `ResizeBackingTable` leave none, `Put` keeps their absence, and `Remove` as written fails on such a table and changes nothing. So the contracts are exact on every table these operations reach. Only `RemoveCorrected` creates tombstones.
- The probe loop of `quadraticProbe` is bounded by 2^31−1 steps. Past that bound the model reports `OutOfFuel`, where Java keeps probing.
- The walk of `put` on from the probe's slot (QuadraticProbingHashMap.java:105-113) never ends in Java when no slot is empty and none holds a live entry of the key. `HashMap.QuadraticProbingHashMap.FindSlot` reports `OutOfFuel` there instead.
- LinkedList.DoublyLinkedList.AddAtIndex: after the append at index `size − 1`, which leaves `tail` on the old last node, the list is only known to be well linked (`Linked`). `AddToFront`, `IsEmpty` and `Clear` are stated for such a list; the other operations, several of which start from `tail`, are stated only for valid lists.
- The load factor test `(size + 1.0) / length > 0.67` is the exact integer form `100·(size+1) > 67·length`.
- Rabin–Karp's `long` arithmetic is unbounded integers with explicit reduction mod 2147483647.
- Exception messages and the accessors `getRoot`, `getTable`, `getBackingArray`, `getHead` and `getTail` are not modelled. The `size()` accessors (ArrayList.java:265, DoublyLinkedList.java:350, MinHeap.java:239, QuadraticProbingHashMap.java:330) only read the `size` field, which the model's classes expose directly, so they have no member of their own.

## Findings

| source | as written | input that shows it | evidently intended | confidence | as-written member | corrected member |
|---|---|---|---|---|---|---|
| AVL.java:100-102 | In the left-right case the code rotates the right child right, then the node left. | Tree 3(1, -), insert 2: the absent right child is dereferenced. | Rotate the left child left, then the node right, giving 2(1, 3). | high, not executed | AvlInsert.InsertAsWrittenFails | AvlInsert.Insert |
| AVL.java:100-102 | Where the wrong rotations do not fail, they can leave the tree unbalanced. | Tree 20(10(5(3,-),15(12,17)),30(25,-)), insert 18. | A valid AVL tree holding 18. | high, not executed | AvlInsert.InsertAsWrittenUnbalances | AvlInsert.Insert |
| AVL.java:290-292 | `height()` returns `root.getHeight()` and dereferences a null root. | The empty tree. | −1 for the empty tree, as documented at AVL.java:285-289. | high, not executed | Avl.AVL.Height | Avl.AVL.HeightCorrected |
| BST.java:486-487 | The common ancestor is added again after `findAncestor` already added it. | `findPathBetween(10, 40)` on the documented tree gives [10,11,12,25,25,37,40]. | [10,11,12,25,37,40], as documented. | high, not executed | BstTree.PathExampleDeep | Bst.BST.FindPathBetweenCorrected |
| DoublyLinkedList.java:42-58 | The new node is linked after the node at `index`. | [1,2,3], `addAtIndex(1, 9)` gives [1,2,9,3]. | [1,9,2,3]. | high, not executed | LinkedList.AddAtIndexLandsAfter | LinkedList.DoublyLinkedList.AddAtIndexCorrected |
| DoublyLinkedList.java:125-128 | At either end, the returned element is cast to a node. | `removeAtIndex(0)` on a non-empty list throws ClassCastException after removing the head. | Return the removed element. | high, not executed | LinkedList.DoublyLinkedList.RemoveAtIndex | LinkedList.DoublyLinkedList.RemoveAtIndexCorrected |
| ArrayList.java:85-87 | The shift starts at `i = size` and writes slot `size + 1`. | Eight elements in the initial nine slots, then `addToFront(42)`: ArrayIndexOutOfBoundsException. | Shift from the last element. | high, not executed | DynamicArray.OneFreeSlot | DynamicArray.ArrayList.AddToFrontCorrected |
| ArrayList.java:60-62 | The same shift in `addAtIndex`. | Eight elements in nine slots, `addAtIndex(1, x)` fails. | Shift from the last element. | high, not executed | DynamicArray.ArrayList.AddAtIndex | DynamicArray.ArrayList.AddAtIndexCorrected |
| MinHeap.java:186-195 | `resize` casts `new Object[newCap]` to `T[]`, which fails for a `Comparable`-bounded `T` (MinHeap.java:188). | Thirteen additions to a new heap: the thirteenth throws ClassCastException. | Double the array, as MinHeap.java:79-80 documents. | high, not executed | Heap.MinHeap.Add | Heap.MinHeap.AddCorrected |
| QuadraticProbingHashMap.java:102-116 | `put` walks on from the probe's free slot, so it never meets the key's existing entry. | `put(1, 10)` then `put(1, 20)` with hash 1 in 13 slots leaves two live entries for key 1. | Replace the value and return 10. | high, not executed | HashMap.PutTwiceDuplicates | HashMap.QuadraticProbingHashMap.PutCorrected |
| QuadraticProbingHashMap.java:133-151 | `remove` starts at the probe's free slot, which holds no live entry. | `put(1, 10)` then `remove(1)` throws NoSuchElementException. | Return 10 and remove key 1. | high, not executed | HashMap.RemoveAfterPutFails | HashMap.QuadraticProbingHashMap.RemoveCorrected |
