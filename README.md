# Ordered collections and a stepped bubble sort, in Dafny

This project models the core of a small Java collections library and proves
what its operations promise.

- **`TreeSet`** is a red-black tree set of integers. The model covers:
  - insertion with `rebalanceInsert`;
  - removal with the red-black delete fixup;
  - the four entry rotations;
  - `getParent`/`getChild` search;
  - `floor`/`lower`/`ceiling`/`higher`, `first`/`last` and `pollFirst`/`pollLast`;
  - the consistency check `rebalanceVerify`;
  - the ascending and descending iterators;
  - the `DescendingTreeSet` view, with its lower/higher and floor/ceiling swaps;
  - the bounded `SubTreeSet` view (`subSet`, `headSet`, `tailSet`).
- **`TreeMap`** is an unbalanced binary search tree mapping integer keys to values:
  - `put`/`get`/`remove`, `containsKey`/`containsValue`;
  - the `*Entry`/`*Key` navigation, first/last and poll, `clear`, `size`.
- **`LinkedList`** is a doubly linked list with head and foot sentinel nodes. In the code every operation goes through a list iterator; in the model the list's operations and the iterator share the same two pointer-level steps, linking a node in and unlinking one.
- **`SortingAlgorithm` and `BubbleSort`** are a sorting driver that copies its input and then advances one `tick` at a time. Each bubble-sort tick is one bubble pass over the copy.

Files and modules:

| file | module | contents |
|---|---|---|
| `wrappers.dfy` | `Wrappers` | `Option`, `Result`, and the Java exceptions that the code throws, as values |
| `navigation.dfy` | `Navigation` | "greatest element below / least element above" specifications, and the loop invariants of `downEntry`/`upEntry` |
| `red_black_tree.dfy` | `RedBlackTree` | the red-black tree as a value: insertion, deletion, rotations, colour invariants, `rebalanceVerify` |
| `tree_set.dfy` | `TreeSets` | classes `TreeSet`, `TreeSetIterator`, `DescendingTreeSet`, `SubTreeSet` |
| `tree_map.dfy` | `TreeMaps` | the map tree as a value, class `TreeMap`, and the code as written where it departs from its documentation |
| `linked_list.dfy` | `LinkedLists` | classes `Node`, `LinkedList`, `ListIterator`: heap nodes with `prev`/`next` pointers and sentinels |
| `bubble_sort.dfy` | `BubbleSorting` | class `BubbleSort` with the in-place `sortedCopy` array; pass, stability and sortedness lemmas |

How the model is built:

- **Element types.** Elements and keys are `int`. The comparator field is never assigned in the code, so the only order in use is the natural one.
- **Trees.**
  - The tree classes keep the root of a datatype tree in a `root` field and update `root` and `size` in place.
  - Searches (`getParent`, `firstParent`, `lastParent`, `contains`, `downEntry`, `upEntry`) are `while` loops down that tree, each with its invariant.
  - Structural changes (attaching a leaf, fixups, rotations, splicing out an entry) are functions on the tree value. Their lemmas prove order, contents and the red-black colour rules.
- **Linked list.** The list is a real heap structure: node objects, `modifies` frames, and a ghost sequence `nodes` whose chain of `prev`/`next` pointers spells out the ghost `Contents`.
- **Bubble sort.** It works on an `array` in place. Each tick is proved against a function `Pass` on sequences. Sortedness, stability and permutation are proved about `Pass`.

## Model

| member | source | states |
|---|---|---|
| Navigation.DownStep | TreeSet.java:707-740 | one step of the `downEntry` walk (left when the node is above the probe, right with the node saved when it is below) keeps "the saved element is the best candidate so far and everything better lies in the current subtree" |
| Navigation.UpStep | TreeSet.java:960-994 | the mirror step of the `upEntry` walk keeps the same invariant for the least element above the probe |
| RedBlackTree.MinIsLeast | TreeSet.java:747-757 | the leftmost element, which `firstParent` leads to, is no greater than any element of an ordered tree |
| RedBlackTree.MaxIsGreatest | TreeSet.java:781-789 | the rightmost element, which `lastParent` leads to, is no smaller than any element of an ordered tree |
| RedBlackTree.OrderedIffIncreasing | TreeSet.java:1374-1386 | a tree is a search tree exactly when its in-order sequence, the iteration order, is strictly increasing |
| RedBlackTree.GetChild | TreeSet.java:1322-1329 | `getChild` answers null or a direct child of the parent that holds the requested element |
| RedBlackTree.SearchParent | TreeSet.java:765-774 | `getParent` answers null when the tree is empty or the root holds the element, and otherwise an entry of the tree |
| RedBlackTree.SearchParentFinds | TreeSet.java:765-774 | in an ordered tree an element is present exactly when it is at the root or is the matching child of the entry `getParent` returns |
| RedBlackTree.RotationKeepsInOrder | TreeSet.java:1210-1313 | each of the four rotations (LL, LR, RL, RR) on a pivot of the required shape keeps the pivot subtree's in-order sequence |
| RedBlackTree.RotateChild | TreeSet.java:1210-1229 | an entry rotation throws NullPointerException for a null pivot, IllegalArgumentException for a pivot that is not a child, and IllegalStateException for a pivot of the wrong shape; otherwise the rotated subtree hangs on the pivot's side, the parent keeps its other child, and the in-order sequence is unchanged |
| RedBlackTree.FixLeftRepairs | TreeSet.java:85-150 | the `rebalanceInsert` repair at a black grandparent whose left side has a red-red pair toward the new element (red uncle: recolour; black uncle: rotate) removes the pair below it and keeps the black height |
| RedBlackTree.FixRightRepairs | TreeSet.java:85-150 | the mirror repair for a red-red pair on the right side |
| RedBlackTree.FixPathAttachColours | TreeSet.java:85-150 | attaching a red leaf and repairing along the search path keeps black balance and black height, and leaves at most one red-red pair, at the top |
| RedBlackTree.FixPathKeepsInOrder | TreeSet.java:85-150 | the insertion repairs never change the in-order sequence |
| RedBlackTree.AttachKeys | TreeSet.java:36-59 | hanging a new leaf where the search falls off keeps the tree ordered and adds exactly the new element |
| RedBlackTree.AttachBelowParent | TreeSet.java:36-59 | for an absent element, the entry `getParent` finds has an empty slot on the side the comparison picks, and the new leaf lands in that slot |
| RedBlackTree.InsertKeepsRedBlack | TreeSet.java:85-150 | after `add` and `rebalanceInsert` the tree is a red-black tree (black root, no red-red pair, equal black heights, ordered) holding the old elements plus the new one |
| RedBlackTree.FarNephewLeftRepairs | TreeSet.java:162-241 | the delete-fixup case with a black sibling and a red far nephew (rotate at the parent, recolour) restores the black height lost on the left |
| RedBlackTree.FarNephewRightRepairs | TreeSet.java:162-241 | the mirror far-nephew case for a shortfall on the right |
| RedBlackTree.SiblingBlackLeftRepairs | TreeSet.java:162-241 | with a black sibling, the recolouring and near-nephew cases either restore the left black height or pass the shortfall one level up |
| RedBlackTree.SiblingBlackRightRepairs | TreeSet.java:162-241 | the mirror black-sibling cases for a shortfall on the right |
| RedBlackTree.FixShortLeftRepairs | TreeSet.java:162-241 | the whole delete fixup at a node whose left subtree lost one black (the red-sibling case first rotates it black) gives a tree with no red-red pair and equal black heights; it is either as high as before or reports that it is one black short |
| RedBlackTree.FixShortRightRepairs | TreeSet.java:162-241 | the mirror fixup for a right subtree one black short |
| RedBlackTree.DelColours | TreeSet.java:1154-1199 | removing an element from a tree with no red-red pair and equal black heights keeps both properties and lowers the black height by one exactly when it reports a shortfall |
| RedBlackTree.FixShortLeftKeepsInOrder | TreeSet.java:162-241 | the delete fixup for a left shortfall never changes the in-order sequence |
| RedBlackTree.SiblingBlackLeftKeepsInOrder | TreeSet.java:162-241 | the black-sibling cases on the left never change the in-order sequence |
| RedBlackTree.NearNephewLeftKeepsInOrder | TreeSet.java:162-241 | the near-nephew case on the left (rotate the sibling, then the far-nephew case) keeps the in-order sequence |
| RedBlackTree.FarNephewLeftKeepsInOrder | TreeSet.java:162-241 | the far-nephew case on the left keeps the in-order sequence |
| RedBlackTree.FixShortRightKeepsInOrder | TreeSet.java:162-241 | the delete fixup for a right shortfall never changes the in-order sequence |
| RedBlackTree.SiblingBlackRightKeepsInOrder | TreeSet.java:162-241 | the black-sibling cases on the right never change the in-order sequence |
| RedBlackTree.NearNephewRightKeepsInOrder | TreeSet.java:162-241 | the near-nephew case on the right keeps the in-order sequence |
| RedBlackTree.FarNephewRightKeepsInOrder | TreeSet.java:162-241 | the far-nephew case on the right keeps the in-order sequence |
| RedBlackTree.RejoinLeftKeys | TreeSet.java:162-241 | putting a shortened left subtree back under its parent and fixing it up keeps the tree ordered with the same elements |
| RedBlackTree.RejoinRightKeys | TreeSet.java:162-241 | the mirror statement for a shortened right subtree |
| RedBlackTree.DelKeys | TreeSet.java:1154-1199 | removal keeps the tree ordered and takes away exactly the removed element |
| RedBlackTree.PromoteKeys | TreeSet.java:1154-1199 | when the removed entry has two children, promoting its in-order predecessor keeps the tree ordered and drops exactly the removed element |
| RedBlackTree.DeleteKeepsRedBlack | TreeSet.java:274-296 | after `remove` the tree is again a red-black tree holding the old elements minus the removed one |
| RedBlackTree.VerifyHelperCorrect | TreeSet.java:809-836 | `rebalanceVerifyHelper` passes exactly on trees that are locally ordered, have no red-red pair and have equal black heights, and then it reports the black height |
| RedBlackTree.OrderedIsLocallyOrdered | TreeSet.java:809-836 | a search tree passes the helper's parent/child order test |
| RedBlackTree.RedBlackPassesVerify | TreeSet.java:794-801 | every red-black tree passes `rebalanceVerify` |
| RedBlackTree.VerifyPassMeans | TreeSet.java:794-801 | a tree that passes `rebalanceVerify` has a black root, no red-red pair, equal black heights and local order |
| RedBlackTree.LocalOrderIsWeaker | TreeSet.java:809-836 | `rebalanceVerify` compares each entry only with its children, so a tree that is not a search tree can still pass it |
| RedBlackTree.RotateRight | TreeSet.java:1210-1238 | the relinking of `rotLL`: the left child becomes the top of the subtree; RotateRightKeepsInOrder proves the in-order sequence unchanged |
| RedBlackTree.RotateLeft | TreeSet.java:1294-1313 | the relinking of `rotRR`, the mirror image; RotateLeftKeepsInOrder proves the in-order sequence unchanged |
| RedBlackTree.Rotate | TreeSet.java:1210-1313 | the four entry rotations by kind, defined only on a pivot of the shape each demands; RotationKeepsInOrder and RotateChild state what it keeps |
| RedBlackTree.Attach | TreeSet.java:36-59 | `add`'s descent and new red leaf; AttachKeys and AttachBelowParent state that it adds exactly the element, in the slot `getParent` finds |
| RedBlackTree.FixLeft | TreeSet.java:85-150 | one `rebalanceInsert` repair at a grandparent with the new element on its left; FixLeftRepairs states what it restores |
| RedBlackTree.FixRight | TreeSet.java:85-150 | the mirror repair; FixRightRepairs states what it restores |
| RedBlackTree.FixPath | TreeSet.java:85-150 | the repairs applied bottom-up along the search path; FixPathAttachColours and FixPathKeepsInOrder state what they keep |
| RedBlackTree.RebalanceInsert | TreeSet.java:85-150 | the path repairs followed by painting the root black; InsertKeepsRedBlack proves the result a red-black tree with the element added |
| RedBlackTree.Splice | TreeSet.java:1154-1199 | removing an entry with at most one child by lifting that child; DelColours and DelKeys cover it |
| RedBlackTree.FixShortLeft | TreeSet.java:162-241 | `rebalanceRemove` for a left subtree one black short; FixShortLeftRepairs and FixShortLeftKeepsInOrder state what it restores and keeps |
| RedBlackTree.FixShortRight | TreeSet.java:162-241 | the mirror fixup; FixShortRightRepairs and FixShortRightKeepsInOrder state what it restores and keeps |
| RedBlackTree.RejoinLeft | TreeSet.java:162-241 | hangs a shortened left subtree back under its parent and runs the fixup when it is short; RejoinLeftKeys states it keeps order and elements |
| RedBlackTree.RejoinRight | TreeSet.java:162-241 | the mirror of RejoinLeft; RejoinRightKeys states the same |
| RedBlackTree.Del | TreeSet.java:1154-1199 | entry removal with its fixups, reporting whether the black height dropped; DelColours and DelKeys state what it keeps and removes |
| RedBlackTree.Delete | TreeSet.java:274-296 | the tree after `remove`; DeleteKeepsRedBlack proves it a red-black tree without the element |
| RedBlackTree.VerifyHelper | TreeSet.java:809-836 | `rebalanceVerifyHelper`'s checks in the code's order; VerifyHelperCorrect states exactly when it passes and what depth it reports |
| RedBlackTree.RebalanceVerify | TreeSet.java:794-801 | `rebalanceVerify`: the red-root check, then the helper; RedBlackPassesVerify and VerifyPassMeans relate it to the red-black properties |
| TreeSets.TreeSet.constructor | TreeSet.java:20-22 | a new set is valid and empty |
| TreeSets.TreeSet.Size | TreeSet.java:405-407 | `size` is the number of elements |
| TreeSets.TreeSet.IsEmpty | TreeSet.java:414-416 | `isEmpty` holds exactly when the set has no elements |
| TreeSets.TreeSet.GetParent | TreeSet.java:765-774 | the loop returns the entry whose child slot the search for the element reaches |
| TreeSets.TreeSet.Contains | TreeSet.java:425-439 | `contains` answers exactly membership |
| TreeSets.TreeSet.Add | TreeSet.java:36-59 | `add` keeps the red-black invariant, adds the element, and returns true exactly when the element was absent |
| TreeSets.TreeSet.RemovePresent | TreeSet.java:1154-1199 | removing a present element keeps the invariant and takes away exactly that element, with size one smaller |
| TreeSets.TreeSet.Remove | TreeSet.java:274-296 | `remove` keeps the invariant, takes the element away, and returns true exactly when it was present |
| TreeSets.TreeSet.Clear | TreeSet.java:347-351 | after `clear` the set is valid and empty |
| TreeSets.TreeSet.FirstParent | TreeSet.java:747-757 | the loop stops at the parent of the leftmost entry, which holds the minimum; it returns null when the root is leftmost |
| TreeSets.TreeSet.LastParent | TreeSet.java:781-789 | the loop stops at the parent of the rightmost entry, which holds the maximum; it returns null when the root is rightmost |
| TreeSets.TreeSet.First | TreeSet.java:470-477 | `first` throws NoSuchElementException exactly on an empty set, and otherwise returns the least element |
| TreeSets.TreeSet.Last | TreeSet.java:486-493 | `last` throws NoSuchElementException exactly on an empty set, and otherwise returns the greatest element |
| TreeSets.TreeSet.DownEntry | TreeSet.java:707-740 | the walk returns the greatest element below the probe (or equal to it when inclusive), or nothing when there is none |
| TreeSets.TreeSet.UpEntry | TreeSet.java:960-994 | the walk returns the least element above the probe (or equal to it when inclusive), or nothing when there is none |
| TreeSets.TreeSet.Lower | TreeSet.java:502-505 | the greatest element strictly below, if any |
| TreeSets.TreeSet.Floor | TreeSet.java:526-529 | the greatest element at or below, if any |
| TreeSets.TreeSet.Ceiling | TreeSet.java:538-541 | the least element at or above, if any |
| TreeSets.TreeSet.Higher | TreeSet.java:514-517 | the least element strictly above, if any |
| TreeSets.TreeSet.PollFirst | TreeSet.java:359-375 | null exactly on an empty set; otherwise removes and returns the least element |
| TreeSets.TreeSet.PollLast | TreeSet.java:382-398 | null exactly on an empty set; otherwise removes and returns the greatest element |
| TreeSets.TreeSet.Iterator | TreeSet.java:544-546 | a fresh ascending iterator over this set that has yielded nothing and cannot remove yet |
| TreeSets.TreeSet.DescendingIterator | TreeSet.java:554-556 | a fresh descending iterator over this set that has yielded nothing |
| TreeSets.TreeSet.DescendingSet | TreeSet.java:549-551 | a descending view backed by this set |
| TreeSets.TreeSet.SubSet | TreeSet.java:602-604 | IllegalArgumentException exactly when the upper bound is below the lower bound; otherwise a view backed by this set with the given bounds |
| TreeSets.TreeSet.HeadSet | TreeSet.java:576-578 | on an empty set it throws NoSuchElementException (from `first`), and if every element exceeds the bound it throws IllegalArgumentException; otherwise, which is whenever some element is at or below the bound, it gives the view from the least element up to the bound |
| TreeSets.TreeSet.TailSet | TreeSet.java:624-626 | the mirror of `headSet`: a view from the bound up to the greatest element, given whenever some element is at or above the bound, with the same exceptions otherwise |
| TreeSets.AdvanceToEnd | TreeSet.java:1374-1386 | after the last element in iteration order is returned, every element has been yielded once, in order, and the iterator is exhausted |
| TreeSets.AdvanceToNext | TreeSet.java:1374-1386 | stepping to the next element by `higher` (or `lower` when descending) keeps "yielded so far is the sorted prefix and the next element is the least one not yet yielded" |
| TreeSets.TreeSetIterator.constructor | TreeSet.java:1362-1366 | a new iterator starts at `first()` (or `last()` when descending) with nothing yielded |
| TreeSets.TreeSetIterator.HasNext | TreeSet.java:1369-1371 | there is a next element exactly when some element has not been yielded |
| TreeSets.TreeSetIterator.Next | TreeSet.java:1374-1386 | when the iterator is exhausted it reports IllegalStateException and changes nothing; otherwise it returns the next element in order, appends it to the yielded sequence and arms `remove` |
| TreeSets.TreeSetIterator.Remove | TreeSet.java:1389-1395 | without a fresh `next` it reports IllegalStateException; otherwise it removes the last returned element from the set, and the iteration state is unchanged |
| TreeSets.ClampLeast | TreeSet.java:1678-1680 | the least base element above the lower bound is the least element of the window, as long as it is within the upper bound |
| TreeSets.ClampGreatest | TreeSet.java:1683-1685 | the greatest base element below the upper bound is the greatest element of the window, as long as it is within the lower bound |
| TreeSets.DescendingTreeSet.constructor | TreeSet.java:1401-1403 | a descending view backed by the given set |
| TreeSets.DescendingTreeSet.First | TreeSet.java:1411-1413 | the view's first element is the set's greatest, with NoSuchElementException on an empty set |
| TreeSets.DescendingTreeSet.Last | TreeSet.java:1416-1418 | the view's last element is the set's least, with NoSuchElementException on an empty set |
| TreeSets.DescendingTreeSet.Lower | TreeSet.java:1510-1512 | in reversed order, "lower" is the least base element strictly above the probe |
| TreeSets.DescendingTreeSet.Floor | TreeSet.java:1515-1517 | in reversed order, "floor" is the least base element at or above the probe |
| TreeSets.DescendingTreeSet.Ceiling | TreeSet.java:1520-1522 | in reversed order, "ceiling" is the greatest base element at or below the probe |
| TreeSets.DescendingTreeSet.Higher | TreeSet.java:1525-1527 | in reversed order, "higher" is the greatest base element strictly below the probe |
| TreeSets.DescendingTreeSet.PollFirst | TreeSet.java:1530-1532 | removes and returns the base set's greatest element, or null when it is empty |
| TreeSets.DescendingTreeSet.PollLast | TreeSet.java:1535-1537 | removes and returns the base set's least element, or null when it is empty |
| TreeSets.DescendingTreeSet.Iterator | TreeSet.java:1540-1542 | a fresh descending iterator over the base set |
| TreeSets.DescendingTreeSet.DescendingSet | TreeSet.java:1545-1547 | reversing the view again gives back the base set |
| TreeSets.SubTreeSet.constructor | TreeSet.java:1636-1649 | a view over the base set with the given bounds and inclusivity |
| TreeSets.SubTreeSet.InBounds | TreeSet.java:1651-1660 | an element is in bounds exactly when it is above the lower bound and below the upper bound, each bound included only when it is inclusive |
| TreeSets.SubTreeSet.Contains | TreeSet.java:1704-1709 | membership in the view is membership in the base set within the bounds |
| TreeSets.SubTreeSet.Add | TreeSet.java:1751-1757 | an out-of-bounds element gives IllegalArgumentException with the set unchanged; otherwise the element is added to the base set, and the result says whether it was new to the view |
| TreeSets.SubTreeSet.Remove | TreeSet.java:1760-1768 | an in-bounds element is taken out of the base set; the result says whether it was in the view |
| TreeSets.SubTreeSet.RemoveAsWritten | TreeSet.java:1760-1768 | as written, `remove` answers false out of bounds and otherwise adds the element through `add`, returning whether it was absent |
| TreeSets.SubTreeSet.FirstAsWritten | TreeSet.java:1678-1680 | as written, `first` is the least base element above the lower bound, even when it lies beyond the upper bound |
| TreeSets.SubTreeSet.LastAsWritten | TreeSet.java:1683-1685 | as written, `last` is the greatest base element below the upper bound, even when it lies beneath the lower bound |
| TreeSets.SubTreeSet.First | TreeSet.java:1678-1680 | null exactly when the window is empty; otherwise the least element of the window |
| TreeSets.SubTreeSet.Last | TreeSet.java:1683-1685 | null exactly when the window is empty; otherwise the greatest element of the window |
| TreeSets.SubTreeSet.Lower | TreeSet.java:1836-1845 | the greatest window element strictly below the probe, if any |
| TreeSets.SubTreeSet.Floor | TreeSet.java:1848-1857 | the greatest window element at or below the probe, if any |
| TreeSets.SubTreeSet.Ceiling | TreeSet.java:1860-1869 | the least window element at or above the probe, if any |
| TreeSets.SubTreeSet.Higher | TreeSet.java:1872-1881 | the least window element strictly above the probe, if any |
| TreeSets.SubTreeSet.FloorAsWritten | TreeSet.java:1848-1857 | as written: null for a probe at or below an exclusive upper bound that is out of bounds; `last()` above the upper bound; the base set's floor within the bounds |
| TreeSets.SubTreeSet.HigherAsWritten | TreeSet.java:1872-1881 | as written: null for a probe at or above an exclusive lower bound that is out of bounds; `first()` below the lower bound; the base set's higher within the bounds |
| TreeSets.SubTreeSet.LowerAsWritten | TreeSet.java:1836-1845 | as written: out of bounds, `last()` when the probe is at or above the upper bound and null below it; within the bounds, the base set's `lower`, which may lie beneath the lower bound |
| TreeSets.SubTreeSet.CeilingAsWritten | TreeSet.java:1860-1869 | as written: out of bounds, `first()` when the probe is at or below the lower bound and null above it; within the bounds, the base set's `ceiling`, which may lie beyond the upper bound |
| TreeSets.SubTreeSet.PollFirst | TreeSet.java:1884-1888 | the corrected `pollFirst`: null exactly when the window is empty; otherwise it removes the window's least element from the base set and returns it |
| TreeSets.SubTreeSet.PollFirstAsWritten | TreeSet.java:1884-1888 | as written: the result of `first()` as written, the least base element above the lower bound, with the base set unchanged because `remove` adds; NullPointerException when no element lies above the lower bound |
| TreeSets.SubTreeSet.PollLast | TreeSet.java:1891-1895 | the corrected `pollLast`: null exactly when the window is empty; otherwise it removes the window's greatest element from the base set and returns it |
| TreeSets.SubTreeSet.PollLastAsWritten | TreeSet.java:1891-1895 | as written: the result of `last()` as written, the greatest base element below the upper bound, with the base set unchanged; NullPointerException when no element lies below the upper bound |
| TreeSets.SubTreeSet.SubSet | TreeSet.java:1913-1919 | bounds outside this view, or reversed bounds, give IllegalArgumentException; otherwise a narrower view of the same base set |
| TreeSets.FirstEscapesRange | TreeSet.java:1678-1680 | on the set {10} with the window [5, 6], `first` as written returns 10, while the window is empty |
| TreeSets.FloorAtExclusiveBound | TreeSet.java:1848-1857 | on the set {5} with the window [0, 10), `floor(10)` as written returns null, while the window's greatest element 5 is below 10 |
| TreeSets.HigherAtExclusiveBound | TreeSet.java:1872-1881 | on the set {5} with the window (0, 10], `higher(0)` as written returns null, while the window's least element 5 is above 0 |
| TreeSets.RemoveThroughRange | TreeSet.java:1760-1768 | removing a present in-bounds element as written answers false and keeps it; the corrected removal answers true and drops it |
| TreeSets.PollThroughRange | TreeSet.java:1884-1895 | on the set {5} with the window [0, 10], `pollFirst` and `pollLast` as written return 5 and keep it in the set; the corrected `pollFirst` returns 5 and removes it |
| TreeSets.LowerEscapesRange | TreeSet.java:1836-1857 | on the set {1, 5, 20} with the window [3, 10], `lower(4)` and `floor(4)` as written return 1, outside the window; the corrected ones return null |
| TreeSets.CeilingEscapesRange | TreeSet.java:1860-1881 | on the set {1, 5, 20} with the window [3, 10], `ceiling(6)` and `higher(6)` as written return 20, outside the window; the corrected ones return null |
| TreeMaps.AsMapKeys | TreeMap.java:99-101 | the keys of the map a tree denotes are exactly the keys stored in its entries |
| TreeMaps.ChildrenWithin | TreeMap.java:151-158 | in an ordered tree, each child subtree's mappings are mappings of the whole tree, and the root entry's key maps to its value |
| TreeMaps.SearchStep | TreeMap.java:692-699 | stepping toward a key that is not at the current entry keeps order and does not change whether the key is present |
| TreeMaps.GetChildFinds | TreeMap.java:1070-1077 | `getChild` returns the child toward the key when that child holds the key, and null otherwise |
| TreeMaps.InsertSpec | TreeMap.java:168-193 | inserting keeps the tree ordered, adds the key, and maps it to the new value, with all other mappings unchanged |
| TreeMaps.InsertAddsLeaf | TreeMap.java:181-188 | a new key is hung as a fresh leaf entry |
| TreeMaps.RemoveMaxKeys | TreeMap.java:1027-1035 | detaching the rightmost entry keeps order and drops exactly its key |
| TreeMaps.RemoveMaxMap | TreeMap.java:1027-1035 | the rightmost entry is a mapping of the tree, and detaching it removes exactly that mapping |
| TreeMaps.SpliceKeys | TreeMap.java:1022-1061 | splicing out an entry (a missing child is replaced by the other; two children by the in-order predecessor) keeps order and drops exactly its key |
| TreeMaps.SpliceMap | TreeMap.java:1022-1061 | splicing out an entry removes exactly its mapping |
| TreeMaps.RemoveKeyKeys | TreeMap.java:207-227 | removing a key keeps the tree ordered and drops exactly that key |
| TreeMaps.RemoveKeyMap | TreeMap.java:207-227 | removing a key removes exactly its mapping and leaves every other mapping unchanged |
| TreeMaps.RemoveKeySpec | TreeMap.java:207-227 | the two statements above, together |
| TreeMaps.ContainsValueMeans | TreeMap.java:552-566 | the recursive `containsValueHelper` finds a value exactly when some key maps to it |
| TreeMaps.LowerEntryAsWrittenMissesKey | TreeMap.java:576-605 | as written, `lowerEntry(20)` on the keys {10, 20} (put in that order) returns null although 10 is below 20 |
| TreeMaps.PutAsWrittenFailsOnRootKey | TreeMap.java:168-193 | as written, `put(1, 2)` on {1 -> 0} throws NullPointerException; the documented result is {1 -> 2} |
| TreeMaps.RemoveAsWrittenLosesEntries | TreeMap.java:207-227 | as written, removing 5 from the keys {3, 5, 7, 10} leaves the keys {3, 5, 7} and a size of 2; removing the only key leaves a size of -1 |
| TreeMaps.LowerKeyAsWrittenFallsBack | TreeMap.java:406-409 | as written, `lowerKey(5)` on {10} returns 10 where no key is below 5 |
| TreeMaps.RemoveAsWritten | TreeMap.java:207-227 | the code's `remove`, with both size decrements, with the predecessor copied into the parent instead of the removed entry, and with the side to relink chosen by `equals`; RemoveAsWrittenLosesEntries and RemoveAsWrittenUnlinksWrongSide show what it gets wrong |
| TreeMaps.ChildToward | TreeMap.java:692-699 | the child the search for a key steps to; SearchStep states that the step keeps order and presence |
| TreeMaps.GetChild | TreeMap.java:1070-1077 | `getChild`; GetChildFinds states what it answers |
| TreeMaps.Insert | TreeMap.java:168-193 | `put`'s descent and new leaf or value replacement; InsertSpec and InsertAddsLeaf state its effect on the mappings |
| TreeMaps.MaxEntry | TreeMap.java:1027-1035 | the rightmost entry, whose key is the greatest key of the tree |
| TreeMaps.MinEntry | TreeMap.java:806-810 | the leftmost entry, whose key is the least key of the tree |
| TreeMaps.RemoveMax | TreeMap.java:1027-1035 | the tree with its rightmost entry detached; RemoveMaxKeys and RemoveMaxMap state what it removes |
| TreeMaps.Splice | TreeMap.java:1022-1061 | removal of an entry, lifting a lone child or promoting the in-order predecessor; SpliceKeys and SpliceMap state what it removes |
| TreeMaps.RemoveKey | TreeMap.java:207-227 | removal of a key from the tree; RemoveKeyKeys, RemoveKeyMap and RemoveKeySpec state what it removes and keeps |
| TreeMaps.ContainsValueHelper | TreeMap.java:552-566 | the recursive value scan; ContainsValueMeans states when it succeeds |
| TreeMaps.DownWalkAsWritten | TreeMap.java:576-605 | the `downEntry` loop as written, saving the previous parent on a right turn; LowerEntryAsWrittenMissesKey shows a key it misses |
| TreeMaps.DownEntryAsWritten | TreeMap.java:576-605 | `downEntry` as written, the walk from the root |
| TreeMaps.UpWalkAsWritten | TreeMap.java:787-816 | the `upEntry` loop as written, saving the previous parent on a left turn, with NullPointerException on an empty map; HigherEntryAsWrittenMissesKey shows a key it misses |
| TreeMaps.UpEntryAsWritten | TreeMap.java:787-816 | `upEntry` as written, the walk from the root |
| TreeMaps.HigherEntryAsWrittenMissesKey | TreeMap.java:787-816 | as written, on the keys {20, 10} (put in that order) `higherEntry(10)` and `ceilingEntry(15)` return null although 20 lies above both |
| TreeMaps.LastEntryAsWritten | TreeMap.java:386-388 | `lastEntry` as written: the root for a map of one entry, NullPointerException when `lastParent` is null for a larger map, the rightmost entry otherwise |
| TreeMaps.LastEntryAsWrittenFailsAtRoot | TreeMap.java:386-388 | as written, on the keys {10, 5} (put in that order) `lastEntry` throws NullPointerException although 10 is the greatest key |
| TreeMaps.PutAsWritten | TreeMap.java:168-193 | `put` as written, which throws NullPointerException on the root's key and on an empty tree under a nonzero size (`getParent` answers null); PutAsWrittenFailsOnRootKey shows the first |
| TreeMaps.UnlinkAsWritten | TreeMap.java:1037-1058 | the relinking step of `TreeMapEntry.remove`, choosing the left side when the left child `equals` the child, which compares only values (TreeMap.java:900-912) |
| TreeMaps.DropMaxAsWritten | TreeMap.java:1027-1035 | the predecessor search as written, unlinking the last entry through the same `equals` test |
| TreeMaps.EntryRemoveAsWritten | TreeMap.java:1022-1061 | `TreeMapEntry.remove` as written, copying the predecessor into the parent and reporting one size decrement |
| TreeMaps.RemoveBelowAsWritten | TreeMap.java:213-225 | `remove` below the root as written, through `getParent`, `getChild` and `TreeMapEntry.remove`, then the second decrement |
| TreeMaps.RemoveAsWrittenUnlinksWrongSide | TreeMap.java:900-912 | as written, on {5 -> 0, 3 -> 0, 7 -> 0} (put in that order) `remove(7)` unlinks 3: the keys left are {5, 7} and size is 1 |
| TreeMaps.PollFirstAsWritten | TreeMap.java:428-445 | `pollFirstEntry` as written, removing the leftmost entry through `rootRemove` or `TreeMapEntry.remove` and decrementing size a second time |
| TreeMaps.PollFirstBelowAsWritten | TreeMap.java:436-441 | the descent to the parent of the leftmost entry and its removal there |
| TreeMaps.PollLastAsWritten | TreeMap.java:453-470 | `pollLastEntry` as written, the mirror of PollFirstAsWritten |
| TreeMaps.PollLastBelowAsWritten | TreeMap.java:461-466 | the descent to the parent of the rightmost entry and its removal there |
| TreeMaps.PollFirstAsWrittenMiscounts | TreeMap.java:428-445 | as written, on {1 -> 0, 2 -> 0} `pollFirstEntry` returns 1 and leaves key 2 with a size of 0 |
| TreeMaps.PollLastAsWrittenUnlinksWrongSide | TreeMap.java:453-470 | as written, on {5 -> 0, 3 -> 0, 7 -> 0} (put in that order) `pollLastEntry` returns 7 but unlinks 3: the keys left are {5, 7} and size is 1 |
| TreeMaps.KeyAsWritten | TreeMap.java:406-409 | the `*Key` methods as written, falling back to the root's key; LowerKeyAsWrittenFallsBack shows it |
| TreeMaps.TreeMap.constructor | TreeMap.java:23-24 | a new map is valid and empty |
| TreeMaps.TreeMap.Size | TreeMap.java:99-101 | `size` is the number of mappings |
| TreeMaps.TreeMap.IsEmpty | TreeMap.java:108-110 | `isEmpty` holds exactly when there are no mappings |
| TreeMaps.TreeMap.GetParent | TreeMap.java:692-699 | the loop stops at the entry whose child toward the key holds it, if the key is present; it returns null for an empty map or a key at the root |
| TreeMaps.TreeMap.ContainsKey | TreeMap.java:120-128 | `containsKey` answers exactly membership of the key |
| TreeMaps.TreeMap.ContainsValue | TreeMap.java:138-140 | `containsValue` holds exactly when some key maps to the value |
| TreeMaps.TreeMap.Get | TreeMap.java:151-158 | `get` returns the key's value when the key is present, and null otherwise |
| TreeMaps.TreeMap.Put | TreeMap.java:168-193 | after `put` the key maps to the new value and nothing else changes; it returns the previous value, if any; size grows only for a new key |
| TreeMaps.TreeMap.Remove | TreeMap.java:207-227 | after `remove` the key is unmapped and nothing else changes; it returns the removed value, if any; size drops only when a mapping is removed |
| TreeMaps.TreeMap.Detach | TreeMap.java:1022-1061 | removing a present key takes away exactly its mapping and lowers size by one |
| TreeMaps.TreeMap.Clear | TreeMap.java:243-247 | after `clear` the map is valid and empty |
| TreeMaps.TreeMap.FirstParent | TreeMap.java:671-681 | the loop stops at the parent of the leftmost entry, the least key, or returns null when the root is leftmost |
| TreeMaps.TreeMap.LastParent | TreeMap.java:737-745 | the loop stops at the parent of the rightmost entry, the greatest key, or returns null when the root is rightmost |
| TreeMaps.TreeMap.FirstEntry | TreeMap.java:308-311 | null exactly on an empty map; otherwise the mapping with the least key |
| TreeMaps.TreeMap.LastEntry | TreeMap.java:386-388 | null exactly on an empty map; otherwise the mapping with the greatest key |
| TreeMaps.TreeMap.FirstKey | TreeMap.java:42-47 | NoSuchElementException exactly on an empty map; otherwise the least key |
| TreeMaps.TreeMap.LastKey | TreeMap.java:56-61 | NoSuchElementException exactly on an empty map; otherwise the greatest key |
| TreeMaps.TreeMap.PollFirstEntry | TreeMap.java:428-445 | null exactly on an empty map; otherwise removes and returns the mapping with the least key |
| TreeMaps.TreeMap.PollLastEntry | TreeMap.java:453-470 | null exactly on an empty map; otherwise removes and returns the mapping with the greatest key |
| TreeMaps.TreeMap.DownEntry | TreeMap.java:576-605 | the mapping with the greatest key below the probe (or equal to it when inclusive), or null when there is none |
| TreeMaps.TreeMap.UpEntry | TreeMap.java:787-816 | the mapping with the least key above the probe (or equal to it when inclusive), or null when there is none |
| TreeMaps.TreeMap.LowerEntry | TreeMap.java:396-398 | the mapping with the greatest key strictly below, if any |
| TreeMaps.TreeMap.FloorEntry | TreeMap.java:319-321 | the mapping with the greatest key at or below, if any |
| TreeMaps.TreeMap.CeilingEntry | TreeMap.java:259-261 | the mapping with the least key at or above, if any |
| TreeMaps.TreeMap.HigherEntry | TreeMap.java:365-367 | the mapping with the least key strictly above, if any |
| TreeMaps.TreeMap.LowerKey | TreeMap.java:406-409 | the greatest key strictly below, if any |
| TreeMaps.TreeMap.FloorKey | TreeMap.java:329-332 | the greatest key at or below, if any |
| TreeMaps.TreeMap.CeilingKey | TreeMap.java:269-272 | the least key at or above, if any |
| TreeMaps.TreeMap.HigherKey | TreeMap.java:375-378 | the least key strictly above, if any |
| LinkedLists.RemovedCount | LinkedList.java:325-334 | removing the element at an index takes exactly one copy of that element out of the list's multiset |
| LinkedLists.RemovedInserted | LinkedList.java:86-93 | removing at an index right after inserting there gives back the original list |
| LinkedLists.FirstIndex | LinkedList.java:228-242 | -1 exactly when the element is absent; otherwise a position holding it with no earlier occurrence |
| LinkedLists.LastIndex | LinkedList.java:272-286 | -1 exactly when the element is absent; otherwise a position holding it with no later occurrence |
| LinkedLists.FirstIndexAt | LinkedList.java:228-242 | a position holding the element with no earlier occurrence is the first index |
| LinkedLists.LastIndexAt | LinkedList.java:272-286 | a position holding the element with no later occurrence is the last index |
| LinkedLists.WithoutFirstTakesOne | LinkedList.java:345-358 | removing the first occurrence takes one copy of the element out of the multiset when it is present, and leaves the list unchanged otherwise |
| LinkedLists.SpliceIn | LinkedList.java:985-996 | after the four pointer writes of the iterator's `add`, the node chain spells the list with the element inserted at that position |
| LinkedLists.SpliceOut | LinkedList.java:1087-1105 | after the iterator's `remove` bypasses a node, the chain spells the list without that element |
| LinkedLists.Relink | LinkedList.java:985-996 | linking a new node between two neighbours inserts its element at that position |
| LinkedLists.Unsplice | LinkedList.java:1087-1105 | unlinking a node removes its element from that position |
| LinkedLists.Inserted | LinkedList.java:86-93 | the list with an element inserted at an index: one longer, the element at the index, the rest in order around it |
| LinkedLists.Removed | LinkedList.java:325-334 | the list without the element at an index: one shorter, the rest in order; RemovedCount and RemovedInserted relate it to the multiset and to Inserted |
| LinkedLists.WithoutFirst | LinkedList.java:345-358 | the list without the first occurrence of an element; WithoutFirstTakesOne states its effect on the multiset |
| LinkedLists.StartAsWritten | LinkedList.java:945-978 | the iterator state the constructor builds as written, armed to remove at any position above 0; StartAsWrittenArmsRemove shows it |
| LinkedLists.NextAsWritten | LinkedList.java:1025-1034 | `next` as written on the list's values |
| LinkedLists.PreviousAsWritten | LinkedList.java:1054-1065 | `previous` as written on the list's values |
| LinkedLists.AddAsWritten | LinkedList.java:985-996 | the iterator's `add` as written, which leaves `prev` before the new node; AddAsWrittenRepeats shows the repeated element |
| LinkedLists.LinkedList.constructor | LinkedList.java:29-35 | a new list has the head and foot sentinels linked to each other and no elements |
| LinkedLists.LinkedList.LinkAfter | LinkedList.java:985-996 | inserting after the node at a position inserts the element there and keeps the list valid |
| LinkedLists.LinkedList.Unlink | LinkedList.java:1087-1105 | unlinking the node at a position removes exactly that element and keeps the list valid |
| LinkedLists.LinkedList.AddAt | LinkedList.java:86-93 | for an index in 0..size the element is inserted at the index; any other index gives IndexOutOfBoundsException with the list unchanged |
| LinkedLists.LinkedList.Add | LinkedList.java:66-73 | the element is appended and the result is true |
| LinkedLists.LinkedList.AddFirst | LinkedList.java:537-542 | the element is prepended |
| LinkedLists.LinkedList.ListIteratorAt | LinkedList.java:308-314 | an iterator exists exactly for positions 0..size, starts at that position and has nothing to remove; any other index gives IndexOutOfBoundsException |
| LinkedLists.LinkedList.Get | LinkedList.java:210-216 | the element at a valid index; IndexOutOfBoundsException otherwise |
| LinkedLists.LinkedList.IndexOf | LinkedList.java:228-242 | the loop finds the first position of the element, or -1 |
| LinkedLists.LinkedList.LastIndexOf | LinkedList.java:272-286 | the backward loop finds the last position of the element, or -1 |
| LinkedLists.LinkedList.Contains | LinkedList.java:170-175 | `contains` answers exactly membership |
| LinkedLists.LinkedList.RemoveAt | LinkedList.java:325-334 | a valid index returns and removes that element; any other gives IndexOutOfBoundsException with the list unchanged |
| LinkedLists.LinkedList.RemoveElement | LinkedList.java:345-358 | the first occurrence is removed; the result says whether there was one |
| LinkedLists.LinkedList.RemoveLastOccurrence | LinkedList.java:777-784 | the last occurrence is removed; the result says whether there was one |
| LinkedLists.LinkedList.Set | LinkedList.java:422-427 | a valid index is overwritten and its old element returned; index `size` gives NoSuchElementException and any other index IndexOutOfBoundsException, each with the list unchanged |
| LinkedLists.LinkedList.Clear | LinkedList.java:154-160 | the iterate-and-remove loop leaves the list empty |
| LinkedLists.LinkedList.GetFirst | LinkedList.java:583-588 | the first element, or NoSuchElementException on an empty list |
| LinkedLists.LinkedList.GetLast | LinkedList.java:597-602 | the last element, or NoSuchElementException on an empty list |
| LinkedLists.LinkedList.PeekFirst | LinkedList.java:658-663 | the first element, or null on an empty list |
| LinkedLists.LinkedList.PeekLast | LinkedList.java:671-676 | the last element, or null on an empty list |
| LinkedLists.LinkedList.RemoveFirst | LinkedList.java:754-759 | removes and returns the first element, or gives NoSuchElementException on an empty list |
| LinkedLists.LinkedList.RemoveLast | LinkedList.java:793-798 | removes and returns the last element, or gives NoSuchElementException on an empty list |
| LinkedLists.LinkedList.PollFirst | LinkedList.java:694-699 | removes and returns the first element, or null on an empty list |
| LinkedLists.LinkedList.PollLast | LinkedList.java:707-712 | removes and returns the last element, or null on an empty list |
| LinkedLists.LinkedList.Equals | LinkedList.java:810-824 | the lock-step walk answers true exactly when both lists hold the same elements in the same order |
| LinkedLists.LinkedList.Size | LinkedList.java:434-436 | `size` is the number of elements |
| LinkedLists.LinkedList.IsEmpty | LinkedList.java:249-251 | `isEmpty` holds exactly when there are no elements |
| LinkedLists.ListIterator.Pending | LinkedList.java:1087-1105 | the element that `remove`/`set` would act on, when there is one, is a position in the list |
| LinkedLists.ListIterator.constructor | LinkedList.java:945-978 | an iterator at a position in 0..size, with nothing to remove or set |
| LinkedLists.ListIterator.HasNext | LinkedList.java:1004-1006 | true exactly when the cursor is before the end |
| LinkedLists.ListIterator.HasPrevious | LinkedList.java:1014-1016 | true exactly when the cursor is after the start |
| LinkedLists.ListIterator.NextIndex | LinkedList.java:1042-1044 | the cursor position, between 0 and size |
| LinkedLists.ListIterator.PreviousIndex | LinkedList.java:1074-1076 | one less than `nextIndex` |
| LinkedLists.ListIterator.Next | LinkedList.java:1025-1034 | returns the element after the cursor, moves past it and arms remove/set on it; at the end it gives NoSuchElementException and changes nothing |
| LinkedLists.ListIterator.Previous | LinkedList.java:1054-1065 | returns the element before the cursor, moves before it and arms remove/set on it; at the start it gives NoSuchElementException and changes nothing |
| LinkedLists.ListIterator.Add | LinkedList.java:985-996 | inserts the element at the cursor, leaves the cursor after it, and disarms remove/set |
| LinkedLists.ListIterator.Remove | LinkedList.java:1087-1105 | with nothing armed it gives IllegalStateException; otherwise it removes the element last returned, puts the cursor where that element was and disarms |
| LinkedLists.ListIterator.Set | LinkedList.java:1117-1124 | with nothing armed it gives IllegalStateException; otherwise it overwrites the element last returned |
| LinkedLists.SameRemainder | LinkedList.java:815-821 | when two iterators agree on everything before their common cursor, the walk answers whether the two lists are equal |
| LinkedLists.StepBoth | LinkedList.java:816-817 | advancing two iterators together answers whether their next elements are equal |
| LinkedLists.TakeNext | LinkedList.java:156-158 | `next` followed by `remove` at the front drops exactly the first element |
| LinkedLists.NodeData | LinkedList.java:945-978 | the data of the node at a position counted from the head sentinel, which is nothing at a sentinel |
| LinkedLists.RemoveAsWritten | LinkedList.java:1087-1105 | as written, `remove` gives IllegalStateException exactly when nothing is armed; otherwise it removes the armed node and always decrements the index |
| LinkedLists.AddAsWrittenRepeats | LinkedList.java:985-996 | as written, after `add(1)` at the start of [5] the list is [1, 5] and the index is 1, but `next()` returns 1 again instead of 5 |
| LinkedLists.RemoveAfterPreviousAsWrittenSkips | LinkedList.java:1087-1105 | as written, on [1, 2] from position 2, `previous()` and then `remove()` leave [1] with index 0, so `hasNext()` is true, yet `next()` finds nothing |
| LinkedLists.StartAsWrittenArmsRemove | LinkedList.java:945-978 | as written, an iterator made at position 1 of [7, 8] can `remove()` at once, without any `next` or `previous`, and removes 7 |
| BubbleSorting.Filter | BubbleSort.java:9 | the items of one key, in order: never more than the whole sequence, and all of that key |
| BubbleSorting.Pass | BubbleSort.java:8-14 | one bubble pass keeps the length of the sequence; PassStable, PassKeepsSuffix and PassBubblesMax state what it does to the items |
| BubbleSorting.Step | BubbleSort.java:9-13 | one compare-and-swap of neighbours, swapping only when the right key is strictly smaller; SwapKeepsFilters states that it keeps each key's order |
| BubbleSorting.FilterAppend | BubbleSort.java:8-14 | picking out the items of one key distributes over concatenation |
| BubbleSorting.SwapKeepsFilters | BubbleSort.java:9-13 | swapping two neighbours with different keys, the only swap the strict comparison allows, keeps the relative order of each key's items |
| BubbleSorting.PassStable | BubbleSort.java:6-16 | a bubble pass is stable: items with equal keys keep their relative order |
| BubbleSorting.FilterCount | SortingAlgorithm.java:23-28 | each item occurs in its key's subsequence as often as in the whole sequence |
| BubbleSorting.StableIsPermutation | SortingAlgorithm.java:23-28 | a stable rearrangement is a permutation |
| BubbleSorting.PassKeepsSuffix | BubbleSort.java:8 | a pass bounded by `m` leaves the items after `m` untouched |
| BubbleSorting.PassBubblesMax | BubbleSort.java:8-14 | after a pass up to `m`, position `m` holds a greatest key of the prefix |
| BubbleSorting.PassKeepsBound | BubbleSort.java:8-14 | a pass never moves a key above a bound that every key of the prefix respects |
| BubbleSorting.PassExtendsBubbled | BubbleSort.java:6-16 | after the pass of tick `t`, the last `t + 1` positions hold the largest keys in sorted order |
| BubbleSorting.PassBelowSettled | BubbleSort.java:6-16 | a pass keeps every key of the prefix at or below every settled key after it |
| BubbleSorting.PassKeepsSortedSuffix | BubbleSort.java:6-16 | a pass keeps the settled suffix sorted |
| BubbleSorting.BubbledAllSorted | SortingAlgorithm.java:23-28 | once every position is settled, the sequence is sorted |
| BubbleSorting.BubbleSort.constructor | SortingAlgorithm.java:9-12 | the input is copied into `data` and `sortedCopy`, and time starts at 0 |
| BubbleSorting.BubbleSort.GetTime | SortingAlgorithm.java:14-16 | the number of ticks so far |
| BubbleSorting.BubbleSort.Reset | SortingAlgorithm.java:18-21 | `sortedCopy` becomes a fresh copy of the data and time returns to 0 |
| BubbleSorting.BubbleSort.Tick | BubbleSort.java:6-16 | one bubble pass over the first `length - time` items, then `time` grows by one; the progress invariant is kept |
| BubbleSorting.BubbleSort.Sort | SortingAlgorithm.java:23-28 | ticking until `time` reaches the length returns a copy of `sortedCopy` that is sorted, a stable rearrangement of the data, and so a permutation of it |
| BubbleSorting.BubbleSort.ToArray | SortingAlgorithm.java:34-36 | a fresh array equal to `sortedCopy` |
| BubbleSorting.BubblePass | BubbleSort.java:8-14 | the `for` loop over the array does exactly one bubble pass |
| BubbleSorting.BubbleTick | BubbleSort.java:6-16 | one tick's pass keeps the progress invariant (stable with respect to the data, and the last `t` positions settled) and extends it to `t + 1` |
| BubbleSorting.CopyOf | SortingAlgorithm.java:10 | `Arrays.copyOf` gives a fresh array with the same contents |
| BubbleSorting.Bubbled0 | SortingAlgorithm.java:18-21 | before the first tick the progress invariant holds of the data itself |
| BubbleSorting.BubbledGrows | BubbleSort.java:8 | a tick whose pass is empty still extends the settled suffix |
| BubbleSorting.TickKeeps | BubbleSort.java:6-16 | on sequences, one tick's pass takes the progress invariant from `t` to `t + 1` |
| BubbleSorting.StableTrans | BubbleSort.java:6-16 | stability composes across successive passes |

## Left out

- The `Comparator`/`Comparable` parameters, and every ClassCastException path. Elements and keys are `int` under their natural order, the only order in use, since the comparator field is never assigned.
- NullPointerException paths for null elements or keys. `int` has no null. The null dereferences of the code's own walks that are modelled are the ones listed under Findings (`put` of the root's key, `lastEntry`, and `upEntry`/`downEntry` on an empty map in their as-written members).
- In-place relinking inside the two trees. The tree classes update `root` and `size` in place, but their nodes are values. Nodes are owned by exactly one parent and have no parent pointers, so the value tree is exact. Aliasing of entries is therefore not modelled.
- RedBlackTree.Delete: the deletion fixup is the intended red-black fixup (sibling red, both nephews black, near nephew red, far nephew red, on each side), not `TreeSetEntry.remove` as written.
  - As written, remove picks the removed node's side by comparing the node with itself. It therefore always treats the node as its parent's left child.
  - Adding 1, 2, 3, 4 and then removing 4 and 3 makes the fixup read the vacated slot as the sibling, and `isRed` is then called on null.
  - No counterexample member is given for this, because the code's pointer-level fixup is not modelled step by step.
- The `TreeMap(Map)` constructor, which is a bulk `putAll`.
- `printTree` and the other debugging output. Output is not modelled.
- `toArray(T[])`, the bulk `Collection` operations (`addAll`, `removeAll`, `retainAll`, `containsAll`), and `hashCode`/`toString`. They are generic library glue.
- The `TreeMap` key, value and entry views, `SubTreeMap`, `DescendingTreeMap`, the descending key set and the navigable maps. Only the core map operations are modelled.
- `SubTreeSetIterator` and the iterators of a `SubTreeSet`. The views' element navigation is modelled, but not their iteration.
- `LinkedList`'s aliases `offer*`, `push`, `pop`, `poll`, `peek`, `element`, `descendingIterator` and `removeFirstOccurrence`, which forward to the modelled operations. `subList`, `toArray()` and `toString` are left out too: an array of the generic element type would need an initial value.
- LinkedLists.LinkedList.Set: the NoSuchElementException for index `size` is modelled as written. The code reaches that index through an iterator whose `next` fails.
- TreeMaps.TreeMap.Get: on an empty map the code dereferences the null root. The model returns null, as documented.
- TreeMaps.TreeMap.LastEntry: the corrected member returns null on an empty map, as documented, and the greatest mapping otherwise. The code dereferences a null `lastParent` both on an empty map and whenever the root holds the greatest key of a larger map; LastEntryAsWritten models that (see Findings). The same empty-map dereference in the other `*Entry` navigation is modelled only in DownEntryAsWritten and UpEntryAsWritten.
- TreeMaps.TreeMap.LastKey: built on the corrected `lastEntry`, so it does not throw NullPointerException where the code does (see Findings).
- TreeMaps.TreeMap.CeilingEntry: built on the corrected `upEntry`. As written, `upEntry` saves the previous parent on a left turn and can miss the answer (see Findings).
- TreeMaps.TreeMap.HigherEntry: built on the corrected `upEntry`, like CeilingEntry (see Findings).
- TreeMaps.TreeMap.CeilingKey: built on the corrected `upEntry`, and answers null where the code falls back to the root's key (see Findings).
- TreeMaps.TreeMap.HigherKey: built on the corrected `upEntry`, and answers null where the code falls back to the root's key (see Findings).
- TreeMaps.RemoveAsWritten: a nonzero size over an empty tree, which the as-written removals can reach, is treated as an empty map; the code's `isEmpty` tests only `size` and then dereferences the null root.
- TreeMaps.PollFirstAsWritten: the same nonzero-size, empty-tree state is treated as an empty map, where `firstParent` dereferences the null root.
- TreeMaps.PollLastAsWritten: likewise, where `lastParent` dereferences the null root.
- BubbleSorting.BubbleSort: `data` is held as an immutable sequence, because nothing writes it after the constructor copies it. `sortedCopy` is the in-place array.
- `BogoSort` and the other sorting algorithms are not part of this model.
- Integers are unbounded. `size` and `time` never come near the 32-bit limit in the documented use, so overflow is not modelled.

## Findings

| source | as written | input that shows it | evidently intended | confidence | as-written member | corrected member |
|---|---|---|---|---|---|---|
| TreeMap.java:576-605 | when the walk goes right, `downEntry` saves the previous parent (`save = tmp_p`) instead of the entry it leaves | keys 10 then 20; `lowerEntry(20)` | the entry with key 10 | not executed | TreeMaps.LowerEntryAsWrittenMissesKey | TreeMaps.TreeMap.DownEntry |
| TreeMap.java:168-193 | `put` of the root's key asks `getParent`, which answers null for the root, and then calls `getChild` on that null | {1 -> 0}; `put(1, 2)` | the value replaced, giving {1 -> 2}, and 0 returned | not executed | TreeMaps.PutAsWrittenFailsOnRootKey | TreeMaps.TreeMap.Put |
| TreeMap.java:207-227 | `remove` decrements `size` both in `TreeMapEntry.remove` and in `remove`. With two children it copies the predecessor into the parent, not into the removed entry | keys 3, 5, 7, 10 (10 as root); `remove(5)`. Also {1 -> 0}; `remove(1)` | keys {3, 7, 10} with size 3; the empty map with size 0 | not executed | TreeMaps.RemoveAsWrittenLosesEntries | TreeMaps.TreeMap.Remove |
| TreeMap.java:406-409 | `lowerKey` (and `floorKey`, `ceilingKey`, `higherKey`) returns the root's key when no entry qualifies | {10 -> 0}; `lowerKey(5)` | null | not executed | TreeMaps.LowerKeyAsWrittenFallsBack | TreeMaps.TreeMap.LowerKey |
| TreeMap.java:787-816 | when the walk goes left, `upEntry` saves the previous parent (`save = tmp_p`) instead of the entry it leaves | keys 20 then 10; `higherEntry(10)`, or `ceilingEntry(15)` | the entry with key 20 | not executed | TreeMaps.HigherEntryAsWrittenMissesKey | TreeMaps.TreeMap.UpEntry |
| TreeMap.java:386-388 | `lastEntry` of a map with more than one entry asks `lastParent().getRight()`, and `lastParent` is null when the root holds the greatest key; `lastKey` inherits this | keys 10 then 5; `lastEntry()` or `lastKey()` | the entry with key 10 | not executed | TreeMaps.LastEntryAsWrittenFailsAtRoot | TreeMaps.TreeMap.LastEntry |
| TreeMap.java:900-912 | `TreeMapEntry.equals` compares only the values when they are not null, so `TreeMapEntry.remove` (TreeMap.java:1037-1058) takes a left child with an equal value for the child to unlink | {5 -> 0, 3 -> 0, 7 -> 0}, put in that order; `remove(7)` | keys {3, 5} with size 2 | not executed | TreeMaps.RemoveAsWrittenUnlinksWrongSide | TreeMaps.TreeMap.Remove |
| TreeMap.java:428-445 | `pollFirstEntry` decrements `size` after `TreeMapEntry.remove` (or `rootRemove`) has already done so | {1 -> 0, 2 -> 0}; `pollFirstEntry()` | 1 returned, leaving {2 -> 0} with size 1 | not executed | TreeMaps.PollFirstAsWrittenMiscounts | TreeMaps.TreeMap.PollFirstEntry |
| TreeMap.java:453-470 | `pollLastEntry` decrements `size` twice like `pollFirstEntry`, and its `remove` of the right child unlinks a left sibling with an equal value | {5 -> 0, 3 -> 0, 7 -> 0}, put in that order; `pollLastEntry()` | 7 returned, leaving keys {3, 5} with size 2 | not executed | TreeMaps.PollLastAsWrittenUnlinksWrongSide | TreeMaps.TreeMap.PollLastEntry |
| TreeSet.java:1678-1680 | `first` of a `SubTreeSet` is the base set's ceiling of the lower bound, even beyond the upper bound (likewise `last`) | set {10}, window [5, 6]; `first()` | null, since the window is empty | not executed | TreeSets.FirstEscapesRange | TreeSets.SubTreeSet.First |
| TreeSet.java:1848-1857 | `floor` of a probe equal to an exclusive upper bound answers null | set {5}, window [0, 10); `floor(10)` | 5 | not executed | TreeSets.FloorAtExclusiveBound | TreeSets.SubTreeSet.Floor |
| TreeSet.java:1872-1881 | `higher` of a probe equal to an exclusive lower bound answers null | set {5}, window (0, 10]; `higher(0)` | 5 | not executed | TreeSets.HigherAtExclusiveBound | TreeSets.SubTreeSet.Higher |
| TreeSet.java:1836-1845 | `lower` of a probe within the bounds is the base set's `lower`, not limited to the window | set {1, 5, 20}, window [3, 10]; `lower(4)` | null | not executed | TreeSets.LowerEscapesRange | TreeSets.SubTreeSet.Lower |
| TreeSet.java:1848-1857 | `floor` of a probe within the bounds is the base set's `floor`, not limited to the window | set {1, 5, 20}, window [3, 10]; `floor(4)` | null | not executed | TreeSets.LowerEscapesRange | TreeSets.SubTreeSet.Floor |
| TreeSet.java:1860-1869 | `ceiling` of a probe within the bounds is the base set's `ceiling`, not limited to the window | set {1, 5, 20}, window [3, 10]; `ceiling(6)` | null | not executed | TreeSets.CeilingEscapesRange | TreeSets.SubTreeSet.Ceiling |
| TreeSet.java:1872-1881 | `higher` of a probe within the bounds is the base set's `higher`, not limited to the window | set {1, 5, 20}, window [3, 10]; `higher(6)` | null | not executed | TreeSets.CeilingEscapesRange | TreeSets.SubTreeSet.Higher |
| TreeSet.java:1884-1895 | `pollFirst` and `pollLast` combine `first()`/`last()` as written with `remove` as written, which calls `add`, so nothing is ever removed; with nothing beyond the bound they pass null to `remove`, whose `inBounds` comparison dereferences it | set {5}, window [0, 10]; `pollFirst()` | 5 returned and removed | not executed | TreeSets.PollThroughRange | TreeSets.SubTreeSet.PollFirst |
| TreeSet.java:1760-1768 | `remove` on a `SubTreeSet` calls the base set's `add` | set {5}, window [0, 10]; `remove(5)` | true, with 5 removed | not executed | TreeSets.RemoveThroughRange | TreeSets.SubTreeSet.Remove |
| LinkedList.java:985-996 | the iterator's `add` does not move `prev` past the new node, so the next `next()` returns the added element | [5], iterator at 0; `add(1)`, then `next()` | 5 | not executed | LinkedLists.AddAsWrittenRepeats | LinkedLists.ListIterator.Add |
| LinkedList.java:1087-1105 | `remove` decrements the index even after `previous()`, when the cursor already stands where the removed element was; index and cursor then disagree | [1, 2], iterator at 2; `previous()`, `remove()`, then `next()` | index 1, so `hasNext()` is false, in step with `next()` finding nothing after 1 | not executed | LinkedLists.RemoveAfterPreviousAsWrittenSkips | LinkedLists.ListIterator.Remove |
| LinkedList.java:945-978 | an iterator made at a position above 0 is armed to remove the node before it | [7, 8], iterator at 1; `remove()` | IllegalStateException | not executed | LinkedLists.StartAsWrittenArmsRemove | LinkedLists.ListIterator.constructor |
