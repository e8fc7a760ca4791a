# ft::list and ft::set, modelled in Dafny

This project models two containers of the `ft` C++ container library.

**`ft::list` (List/List.hpp)** is a doubly linked list of nodes
bracketed by two sentinel nodes, `_head` and `_tail`, with a size counter
kept by hand. It is modelled as heap objects:

- `FtList.Node` has a constant `data` and mutable `prev`/`next` links;
  elements are read, never written in place (see "## Left out").
- `FtList.List` has the `head`, `tail` and `size` fields of the source.
- Two ghost fields describe a list: `Nodes` (head sentinel, element nodes,
  tail sentinel, in `next` order) and `Contents` (the values carried).
- `List.Valid()` ties the fields to them:
  - the nodes are distinct;
  - `next` and `prev` agree along `Nodes`;
  - the element nodes carry `Contents`;
  - `size == |Contents|`.
- An iterator is a node reference. Each operation that takes one also takes
  a ghost index saying where that node sits in `Nodes`.

Every operation rewires `prev`/`next` links in place, with the source's
loops as `while` loops. Each is proved against a function on `Contents`
from module `ListSpec`:

- `RemoveWhere` for `remove`/`remove_if`;
- `Collapsed`/`Uniqued` for `unique`;
- `Merged` for `merge` and `SortedMerge`;
- `MergeSorted` for `sort`;
- `Reversed` for `reverse`;
- `LexLess` for `operator<`.

Lemmas prove what those functions mean: sortedness (under `<` and under
any strict weak order `comp`), permutation, no two equal neighbours,
involution, and trichotomy of the order.

The merge sort (`MergeSort`, `SortedMerge`, `FrontBackSplit`) runs on the
`next` chain alone:

- `FtList.Chain` describes a chain ending at the tail sentinel.
- `FtList.SortedNodes` and `FtList.MergedNodes` describe the node order it
  produces.
- `sort` then rebuilds the `prev` links, as the source does.

**`ft::set` (Set/Set.hpp)** derives from a red-black tree that is not part
of this model. The tree is modelled as `FtTree.Tree`:

- its keys are a sequence, sorted and duplicate-free under the set's
  comparator (`Ordered`);
- iteration follows the sequence;
- an iterator is `At(key)` or `End` (`Pos`).

The set's own code is modelled on top of the tree in `FtSet.Set`:

- the linear scans of `lower_bound` and `upper_bound`;
- the count-then-erase of `erase(val)`;
- the advance-before-erase loop of `erase(first, last)`;
- the range `insert` loop;
- `swap` of the tree and the comparator.

The comparator is `FtTree.KeyCompare`, which is `std::less` or
`std::greater` on `int`.

## Model

| member | source | states |
|---|---|---|
| ListSpec.Equiv | List/List.hpp:394 | "neither less than the other" under `ft::less` on int is exactly equality |
| ListSpec.Repeat | List/List.hpp:284-289 | `n` copies of a value: length `n`, every position holds the value |
| ListSpec.RemoveWhereCounts | List/List.hpp:405-420 | what `remove_if` keeps holds each value not satisfying the predicate as often as the input and none that satisfies it |
| ListSpec.RemoveValueCounts | List/List.hpp:389-403 | what `remove(val)` keeps has no `val` and every other value as often as before |
| ListSpec.RemoveWhereNone | List/List.hpp:405-420 | no element left by `remove_if` satisfies the predicate |
| ListSpec.RemoveWhereAppend | List/List.hpp:405-420 | the filter works element by element: filtering a concatenation filters each part |
| ListSpec.RemoveWhereStep | List/List.hpp:409-418 | one turn of the `remove_if` walk drops the visited element exactly when the predicate holds of it |
| ListSpec.CollapsedStep | List/List.hpp:450-461 | one turn of the `unique` walk drops the visited element exactly when it is `same` as the last one kept |
| ListSpec.UniqueNoAdjacent | List/List.hpp:426-443 | after `unique()` no two neighbours are equal |
| ListSpec.UniqueMembers | List/List.hpp:426-443 | `unique()` keeps exactly the values that were there |
| ListSpec.UniqueLast | List/List.hpp:426-443 | `unique()` keeps the last value of a non-empty list last |
| ListSpec.UniqueFixpoint | List/List.hpp:426-443 | a list with no equal neighbours is left unchanged by `unique()` |
| ListSpec.UniqueIdempotent | List/List.hpp:426-443 | applying `unique()` twice is the same as once |
| ListSpec.UniqueRun | List/List.hpp:426-443 | a run of equal values collapses to its first element |
| ListSpec.UniqueAppend | List/List.hpp:426-443 | `unique()` works run by run: runs that do not touch are collapsed on their own |
| ListSpec.MergedPerm | List/List.hpp:465-500 | a merge holds every element of both lists, as often as they do |
| ListSpec.MergedSortedBy | List/List.hpp:484-500 | merging two lists sorted under a strict weak order `comp` gives a list sorted under `comp` |
| ListSpec.MergedSorted | List/List.hpp:465-482 | merging two lists sorted under `<` gives a non-decreasing list |
| ListSpec.MergedSkip | List/List.hpp:473-474 | elements of this list skipped by the inner merge loop stay in front of the rest of the merge |
| ListSpec.MergedTakeRight | List/List.hpp:475-477 | moving the head of `x` over in the merge loop leaves the merge of what remains behind it |
| ListSpec.SortedByMin | List/List.hpp:484-500 | under a strict weak order, a value the first element of a sorted list does not go before is gone before by no element of it |
| ListSpec.SortedLt | List/List.hpp:465-482 | sorted under `<` means non-decreasing |
| ListSpec.SortedByCons | List/List.hpp:484-500 | a value no element of a sorted list goes before can lead it |
| ListSpec.FrontLength | List/List.hpp:76-90 | `FrontBackSplit` of at least two nodes leaves both halves non-empty |
| ListSpec.MergeSorted | List/List.hpp:39-53 | the merge sort gives a permutation of its input |
| ListSpec.MergeSortedSortedBy | List/List.hpp:515-527 | the merge sort under a strict weak order `comp` gives a list sorted under `comp` |
| ListSpec.MergeSortedSorted | List/List.hpp:502-513 | `sort()` under `ft::Less` gives a non-decreasing list |
| ListSpec.ReversedAt | List/List.hpp:533-544 | the reversed list holds at position `i` the element at position `n - 1 - i` |
| ListSpec.ReversedTwice | List/List.hpp:533-544 | reversing twice restores the original |
| ListSpec.LexIrreflexive | List/List.hpp:567-579 | no list is less than itself |
| ListSpec.LexTransitive | List/List.hpp:567-579 | `operator<` is transitive |
| ListSpec.LexTrichotomy | List/List.hpp:567-591 | two lists are equal or exactly one is less than the other |
| ListSpec.LexDrop | List/List.hpp:570-577 | a common prefix does not decide `operator<` |
| FtList.List.constructor | List/List.hpp:97-104 | a fresh empty list with its two sentinels |
| FtList.List.Fill | List/List.hpp:110-119 | a fresh list of `n` copies of `val` |
| FtList.List.FromRange | List/List.hpp:124-135 | a fresh list holding the input range in order |
| FtList.List.Copy | List/List.hpp:141-149 | a fresh list holding the values of `x`, with `x` left as it was |
| FtList.List.CopyAssign | List/List.hpp:166-177 | `operator=` as written: a copy of `x` when `x` is another list, and an empty list when `x` is this list |
| FtList.List.CopyAssignChecked | List/List.hpp:166-177 | `operator=` guarded against self-assignment: afterwards the list holds the values `x` had, in every case |
| FtList.List.Renew | List/List.hpp:171-173 | fresh sentinels make a valid empty list |
| FtList.List.Read | List/List.hpp:148 | the walk from `begin()` to `end()` yields the contents in order |
| FtList.List.Begin | List/List.hpp:183-184 | `begin()` is the first element node, or the tail sentinel when the list is empty |
| FtList.List.End | List/List.hpp:186-187 | `end()` is the tail sentinel |
| FtList.List.Empty | List/List.hpp:211-212 | `empty()` holds exactly when there are no elements |
| FtList.List.Size | List/List.hpp:218-219 | `size()` is the number of elements |
| FtList.List.Front | List/List.hpp:232-233 | `front()` is the first element of a non-empty list |
| FtList.List.Back | List/List.hpp:242-243 | `back()` is the last element of a non-empty list |
| FtList.List.Insert | List/List.hpp:273-282 | a fresh node holding `val` goes immediately before `position`, the rest keep their order, the size grows by one, and the new node is returned |
| FtList.List.Attach | List/List.hpp:276-280 | the four link writes of `insert` put the node before `position` |
| FtList.List.InsertFill | List/List.hpp:284-289 | `n` copies of `val` go before `position`, in one run |
| FtList.List.InsertRange | List/List.hpp:291-298 | the input range goes before `position`, in order |
| FtList.List.Erase | List/List.hpp:300-311 | on a non-empty list exactly the element at `position` goes, the rest keep their order, and the next node is returned; on an empty list nothing changes and a null iterator is returned |
| FtList.List.Unlink | List/List.hpp:306-309 | the two link writes of `erase` take the node out of the chain |
| FtList.List.EraseRange | List/List.hpp:313-322 | exactly `[first, last)` goes, the rest keep their order, and `last` is returned |
| FtList.List.PushFront | List/List.hpp:261-262 | the value goes first |
| FtList.List.PushBack | List/List.hpp:267-268 | the value goes last |
| FtList.List.PopFront | List/List.hpp:264-265 | the first element goes; an empty list is left as it is |
| FtList.List.PopBack | List/List.hpp:270-271 | the last element goes; an empty list is left as it is |
| FtList.List.Clear | List/List.hpp:344-348 | every element goes, and the sentinels stay |
| FtList.List.Assign | List/List.hpp:248-254 | the contents become the input range |
| FtList.List.AssignFill | List/List.hpp:255-259 | the contents become `n` copies of `val` |
| FtList.List.Resize | List/List.hpp:331-342 | shrinking keeps the first `n` elements; growing appends copies of `val` up to `n` |
| FtList.List.SpliceOne | List/List.hpp:350-366 | the node at `i` leaves `x` and goes before `position`, both sizes change by one, and every other element keeps its place |
| FtList.List.SpliceRangeRelink | List/List.hpp:368-379 | the link writes of the range `splice` as written: an empty range crosses the two lists, and a non-empty one leaves no `next` path from `first` to `last` for `ft::distance` |
| FtList.List.Distance | List/List.hpp:381-382 | counting from `first` to `last` before any link changes gives the length of the range |
| FtList.List.SpliceRange | List/List.hpp:368-384 | corrected range `splice`: the nodes of `[first, last)` move from `x` in front of `position`, and both sizes change by the length of the range |
| FtList.List.CutRange | List/List.hpp:374-375 | taking a non-empty range out of `x` leaves `x` valid without it |
| FtList.List.AttachRange | List/List.hpp:376-379 | hanging a linked run of nodes before `position` puts its values there in order |
| FtList.List.Receive | List/List.hpp:376-383 | receiving a detached run keeps this list valid and leaves `x` untouched |
| FtList.List.SpliceAll | List/List.hpp:386-387 | all of `x` goes before `position`, and `x` ends empty, through the corrected range splice |
| FtList.List.MergeBy | List/List.hpp:484-500 | with `&x == this` nothing changes; otherwise the list becomes the merge under `comp` of both contents, and `x` ends empty, through the corrected range splice; when `comp` is a strict weak order and both lists are sorted under it, so is the result |
| FtList.List.Merge | List/List.hpp:465-482 | `merge(x)` is the merge under `ft::less`, through the corrected range splice; two non-decreasing lists give a non-decreasing list |
| FtList.List.MergeSkip | List/List.hpp:492-493 | the inner loop stops at the first element not ordered before the head of `x`, and every skipped element is ordered before it |
| FtList.List.MergeTake | List/List.hpp:494-496 | moving the head of `x` in front of `curr` keeps the merge target |
| FtList.List.MergeStep | List/List.hpp:491-497 | one turn of the outer merge loop keeps the merge target and shrinks `x` |
| FtList.List.MergeFinish | List/List.hpp:498-499 | after the loop the rest of `x` goes at the end, which completes the merge, through the corrected range splice |
| FtList.List.RemoveIf | List/List.hpp:405-420 | exactly the elements not satisfying the predicate are left, in their order |
| FtList.List.RemoveVisit | List/List.hpp:409-418 | one turn of the `remove_if` walk extends the filtered prefix by one element |
| FtList.List.Remove | List/List.hpp:389-403 | exactly the elements other than `val` are left, in their order |
| FtList.List.UniqueBy | List/List.hpp:446-463 | each element `same` as the last one kept is dropped |
| FtList.List.UniqueVisit | List/List.hpp:450-461 | one turn of the `unique` walk extends the collapsed prefix by one element |
| FtList.List.Unique | List/List.hpp:426-443 | `unique()` leaves the first element of each run of equal values |
| FtList.List.FrontBackSplit | List/List.hpp:76-90 | the chain is cut after its first `(n + 1) / 2` nodes, and both halves end at the tail sentinel |
| FtList.List.SortedMerge | List/List.hpp:55-74 | relinks two chains into one whose node order is `MergedNodes` of the two |
| FtList.List.MergeSort | List/List.hpp:39-53 | relinks a chain into the node order `SortedNodes`, which carries `MergeSorted` of its values |
| FtList.SortedNodesPerm | List/List.hpp:39-53 | the merge sort permutes the nodes |
| FtList.SortedNodesVals | List/List.hpp:39-53 | the nodes the merge sort orders carry `MergeSorted` of their values |
| FtList.MergedNodesPerm | List/List.hpp:55-74 | `SortedMerge` keeps every node of both chains |
| FtList.MergedNodesVals | List/List.hpp:55-74 | the merged nodes carry `Merged` of the two chains' values |
| FtList.List.RelinkPrev | List/List.hpp:505-512 | the pass after the merge sort makes every `prev` link agree with the `next` chain |
| FtList.List.Rehang | List/List.hpp:505-512 | after the sorted chain is hung between the sentinels, the list is valid with the sorted values |
| FtList.List.SortBy | List/List.hpp:515-527 | `sort(comp)` gives `MergeSorted` of the old contents under `comp`, a permutation, sorted under `comp` when `comp` is a strict weak order |
| FtList.List.Sort | List/List.hpp:502-513 | `sort()` gives `MergeSorted` of the old contents under `<`, a non-decreasing permutation |
| FtList.List.FlipElements | List/List.hpp:534-538 | the loop swaps `prev` and `next` of every element node |
| FtList.List.FlipLinks | List/List.hpp:534-542 | after the sentinels' links are swapped too, the links run along the reversed node order |
| FtList.FlippedLinked | List/List.hpp:533-544 | swapped links in every node make the reversed node order linked |
| FtList.List.Reverse | List/List.hpp:533-544 | the nodes and the contents are reversed, and the size is unchanged |
| FtList.List.Swap | List/List.hpp:324-329 | the two lists exchange their nodes and contents |
| FtList.SwapLists | List/List.hpp:597-599 | the free `swap` exchanges the two lists |
| FtList.Equal | List/List.hpp:551-561 | `operator==` holds exactly when both lists hold the same values in the same order |
| FtList.NotEqual | List/List.hpp:563-565 | `operator!=` holds exactly when the contents differ |
| FtList.Less | List/List.hpp:567-579 | `operator<` is the lexicographic order of the contents |
| FtList.Greater | List/List.hpp:581-583 | `operator>` is the lexicographic order with the operands exchanged |
| FtList.LessOrEqual | List/List.hpp:585-587 | `operator<=` holds exactly when less or equal |
| FtList.GreaterOrEqual | List/List.hpp:589-591 | `operator>=` holds exactly when greater or equal |
| FtTree.EquivIsEqual | Set/Set.hpp:138 | keys where neither goes before the other under the comparator are equal |
| FtTree.KeyIndex | Set/Set.hpp:129-130 | the position of a key in the iteration order |
| FtTree.IndexOf | Set/Set.hpp:103-112 | the position of an iterator |
| FtTree.OrderedIndex | Set/Set.hpp:107-108 | in an ordered tree the key at position `i` is found at position `i`, so stepping forward and back returns to it |
| FtTree.OccurrencesAtMostOne | Set/Set.hpp:132-133 | in a tree without duplicates a key is counted once or not at all |
| FtTree.LowerIndex | Set/Set.hpp:135-142 | the `lower_bound` scan stops at the first key not before `val`, and every key before it is before `val` |
| FtTree.UpperIndex | Set/Set.hpp:144-151 | the `upper_bound` scan stops at the first key after `val`, and no key before it is after `val` |
| FtTree.BoundsSpan | Set/Set.hpp:153-154 | the upper bound is the lower bound plus one when `val` is a key and equal to it otherwise |
| FtTree.PosAtInjective | Set/Set.hpp:106 | two positions of an ordered tree with the same iterator are the same |
| FtTree.Without | Set/Set.hpp:92-93 | erasing a position removes one key |
| FtTree.InsertedOrdered | Set/Set.hpp:73-74 | inserting keeps the tree ordered, adds exactly `val` to its keys, and grows it exactly when `val` was new |
| FtTree.SpliceOrdered | Set/Set.hpp:73-74 | a key placed between the smaller and the larger keys keeps the order |
| FtTree.WithoutOrdered | Set/Set.hpp:92-93 | erasing keeps the tree ordered and removes exactly that key |
| FtTree.InsertedAllKeys | Set/Set.hpp:82-90 | inserting each input in turn keeps the tree ordered, and its keys become the old keys plus the inputs |
| FtTree.InsertedAllOrdered | Set/Set.hpp:52-54 | inserting the keys of an ordered tree, in order, into an empty tree rebuilds it |
| FtTree.Tree.constructor | Set/Set.hpp:43 | the tree starts empty with the given comparator |
| FtTree.Tree.Begin | Set/Set.hpp:137 | the tree's `begin()` is `end()` exactly when there is no key, and otherwise a key that no other key goes before under the comparator |
| FtTree.Tree.Next | Set/Set.hpp:107 | `++` moves to the least key after the current one under the comparator, with no key in between, and to `end()` when no key comes after it |
| FtTree.Tree.Find | Set/Set.hpp:129-130 | the tree's `find` gives a key equivalent to `val` under the comparator, and `end()` only when every key goes before or after `val` |
| FtTree.FirstLeast | Set/Set.hpp:137 | the first key of an ordered tree is its least |
| FtTree.NextLeast | Set/Set.hpp:107 | in an ordered tree the key after position `i` is the least key greater than the one at `i` |
| FtTree.Tree.Count | Set/Set.hpp:132-133 | the tree's `count` counts the keys equivalent to `val`, at most one |
| FtTree.Tree.Insert | Set/Set.hpp:73-74 | the tree's `insert` adds `val` in order, returns an iterator to it, and reports whether it was new |
| FtTree.Tree.Erase | Set/Set.hpp:92-93 | the tree's `erase` removes the key at the iterator |
| FtTree.Tree.Clear | Set/Set.hpp:120-121 | the tree's `clear` removes every key and keeps the comparator |
| FtTree.Tree.Swap | Set/Set.hpp:116 | the tree's `swap` exchanges keys and comparators |
| FtSet.Set.constructor | Set/Set.hpp:41-44 | a fresh empty set with the given comparator |
| FtSet.Set.FromRange | Set/Set.hpp:46-50 | a fresh set holding the input range inserted in turn |
| FtSet.Set.Copy | Set/Set.hpp:52-54 | a fresh set with the same comparator and keys as `x` |
| FtSet.Set.Empty | Set/Set.hpp:67-68 | `empty()` holds exactly when the set has no key |
| FtSet.Set.Size | Set/Set.hpp:67-68 | `size()` is the number of keys |
| FtSet.Set.KeyComp | Set/Set.hpp:123-127 | `key_comp()` and `value_comp()` give the comparator the tree orders by |
| FtSet.Set.Insert | Set/Set.hpp:73-74 | `insert(val)` adds `val` in order, returns an iterator to it, and reports whether it was new |
| FtSet.Set.InsertHint | Set/Set.hpp:76-80 | `insert(position, val)` ignores `position` and behaves as `insert(val).first` |
| FtSet.Set.InsertRange | Set/Set.hpp:82-90 | `insert(first, last)` inserts each input in turn |
| FtSet.Set.EraseAt | Set/Set.hpp:92-93 | `erase(position)` removes the key at `position` |
| FtSet.Set.EraseKey | Set/Set.hpp:95-101 | `erase(val)` returns `count(val)`; at 1 it removes `val`, at 0 it changes nothing |
| FtSet.Set.EraseVisit | Set/Set.hpp:107-110 | one turn of the range erase takes the next position, erases `curr` and moves on |
| FtSet.Set.EraseRange | Set/Set.hpp:103-112 | `erase(first, last)` removes exactly the keys of `[first, last)` |
| FtSet.EraseStep | Set/Set.hpp:107-110 | during the walk the key at `curr` and the key `++curr` reaches are the keys the walk started with at the same offsets, and erasing `curr` cuts exactly one more key |
| FtSet.EraseDone | Set/Set.hpp:106 | when the walk reaches `last` exactly the keys of `[first, last)` are gone |
| FtSet.Set.Swap | Set/Set.hpp:114-118 | `swap(x)` exchanges the keys and the comparators of the two sets |
| FtSet.Set.Clear | Set/Set.hpp:120-121 | `clear()` removes every key |
| FtSet.Set.Find | Set/Set.hpp:129-130 | `find(val)` gives the key when it is there and `end()` otherwise |
| FtSet.Set.Count | Set/Set.hpp:132-133 | `count(val)` is 1 when `val` is a key and 0 otherwise |
| FtSet.Set.LowerBound | Set/Set.hpp:135-142 | `lower_bound(val)` is the first key not before `val`, or `end()` |
| FtSet.Set.UpperBound | Set/Set.hpp:144-151 | `upper_bound(val)` is the first key after `val`, or `end()` |
| FtSet.Set.EqualRange | Set/Set.hpp:153-154 | `equal_range(val)` is the pair of both bounds and spans exactly `count(val)` keys |
| FtSet.LowerIs | Set/Set.hpp:137-141 | a position where the `lower_bound` scan's exit test first succeeds is the lower bound |
| FtSet.UpperIs | Set/Set.hpp:146-150 | a position where the `upper_bound` scan's exit test first succeeds is the upper bound |

## Left out

- The red-black tree (`RBTree.hpp`: nodes, rotations, recolouring, successor) is not part of this model. The set's tree is its abstract sorted key sequence. Utils/RBTreeNode.hpp is plain data and is not modelled.
- Node allocation and deallocation, the destructor and the allocator members are not modelled. `new` becomes `new Node`, and `delete` just drops the node from the list.
- `max_size()` on either container is not modelled, because it depends on the platform's `sizeof(node)`.
- Reverse iterators, const iterators and `value_comp()` as a separate member are not modelled. `KeyComp` stands for `key_comp()` and `value_comp()`, which return the same object.
- `ft::distance`, `ft::swap`, `ft::less`, `ft::min` and the list iterator classes are not part of this model:
  - `Distance` counts nodes along `next`;
  - comparisons are integer `<`;
  - a list iterator is a node reference plus a ghost index.
- Iterator ranges given to constructors, `assign` and `insert` are sequences of values. The `enable_if` overload selection is compile-time only.
- The list element type is `int`, and the set key type is `int` with `std::less` or `std::greater`. Other comparators and predicates are passed to `remove_if`, `unique`, `merge` and `sort` as Dafny functions.
- The list's `size` counter is an unbounded `nat`, so `size_t` wrap-around is not modelled.
- FtList.List.SpliceOne, FtList.List.SpliceRange, FtList.List.SpliceAll: `splice` with `x` being this list is not modelled. The model requires two distinct lists.
- FtList.List.UniqueBy, FtList.List.Unique: the model requires a non-empty list. On an empty list the source's loop steps past `_tail`, which is undefined behaviour.
- FtList.List.MergeSort: `headRef` is written through a pointer in the source, but the model returns the new first node.
- FtList.List.MergeSort, FtList.List.SortedMerge, FtList.List.FrontBackSplit: these describe the node order, not how the recursion writes each `next` link.
- FtList.List.Front, FtList.List.Back: the source returns a writable reference to the element (List/List.hpp:232-233, 242-243), and iterators dereference to one too. `FtList.Node.data` is a `const`, so writing an element through such a reference or through an iterator is not modelled; the model only reads elements.
- The set's `operator=` (Set/Set.hpp:56-62) is not modelled. It copies `_cmp` but not the tree's comparator, and the tree's assignment is not part of this model. It also runs `tree::clear()` before reading `x.begin()`/`x.end()`, so `s = s` empties the set, the same pattern as the list's `operator=` under "## Findings".
- FtTree.Tree.Swap: the model takes the tree's `swap` to exchange the comparators too, because `RBTree.hpp` is not part of this model.
- FtSet.Set.Swap: the model requires two sets with distinct trees, or the same set.
- FtSet.Set.EraseRange, FtSet.Set.EraseAt: the model requires iterators into this set. A past-the-end `position` for `erase` is not modelled.
- FtSet.Set.EraseRange, FtSet.Set.EraseVisit: an iterator is its key, so the model assumes that iterators to other keys stay valid across the tree's `erase`. A tree erase that moved the successor's key into the erased node would invalidate `next`, and `RBTree.hpp` is not part of this model.
- FtList.List.SpliceAll, FtList.List.MergeBy, FtList.List.MergeFinish, FtList.List.Merge: these are built on the corrected range splice `SpliceRange` of the second "## Findings" row, which measures the range before relinking. The source's `splice(p, x)` and merge's final move (List/List.hpp:386-387, 498-499) run the range splice as written: with `x` empty it crosses the two lists, and for a non-empty range its counters come from `ft::distance` after the relink.
- FtTree.PosAt, FtTree.Tree.Size: these are definitions of the abstract tree that stands in for `RBTree.hpp` (the iterator at a position, and the number of keys), not models of code in Set/Set.hpp.

## Findings

| source | as written | input that shows it | evidently intended | confidence | as-written member | corrected member |
|---|---|---|---|---|---|---|
| List/List.hpp:166-177 | `operator=` clears the list, makes new sentinels, then copies `x.begin()`..`x.end()` | `l = l` on a list holding `[1, 2]` leaves it empty | self-assignment leaves the list unchanged (a `this != &x` guard) | not executed | FtList.List.CopyAssign | FtList.List.CopyAssignChecked |
| List/List.hpp:368-384 | the range `splice` rewires the six links first, then takes `ft::distance(first, last)` for both counters | `splice(p, x)` with `x` empty makes the node before `p` point into `x`; with `first != last` no `next` path from `first` reaches `last` any more | the counters change by the length of the range measured before relinking, and an empty range changes nothing | not executed; depends on `ft::distance` walking with `++`, which is not part of this model | FtList.List.SpliceRangeRelink | FtList.List.SpliceRange |
