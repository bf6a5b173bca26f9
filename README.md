# EPI variants: a verified model of eight exercises

This project models the algorithmic core of eight exercises from
*Elements of Programming Interviews* as solved in C++ in the
EPI-Variants-Solutions repository. Each exercise is a module. The
imperative code stays imperative: loops become `while`/`for` loops with
invariants, and objects whose fields change become classes. Each method is
proved against a functional specification, and the properties the
exercise promises are proved about that specification.

| module | file | models |
|---|---|---|
| `BinaryTrees` | `binary_tree.dfy` | the `BinaryTree` class shared by the traversal and BST-sequence exercises: `insert`, `FindNthNodePath`, `size`, `is_empty` |
| `Traversals` | `traversals.dfy` | the stack-driven preorder, inorder and postorder traversals, and the recursive postorder traversal |
| `BstSequences` | `bst_sequences.dfy` | `GenerateInterleavedSequences(Recursive)` and `BstSequences(Recursive)` |
| `MaxTrees` | `max_tree.dfy` | `ConstructMaxTree`, the one-pass max-tree (Cartesian tree) construction |
| `LinkedLists` | `linked_list.dfy` | `SinglyLinkedList` with `Append`, `FindLastOccurrenceOf` and `RemoveElementsMoreThanM` |
| `RecursionTranslation` | `recursion_translation.dfy` | `foo_recursive` and its explicit-stack translation `foo_iterative` |
| `AlternatingSubsequences` | `alternating.dfy` | `ComputeLongestAlternatingSubsequence` |
| `NondecreasingSubsequences` | `nondecreasing.dfy` | `ComputeLongestNondecreasingSubsequence`, the patience-style O(n log n) algorithm |
| `PolishNotation` | `polish_notation.dfy` | `IsNumeric` and `EvaluatePolishNotation` |
| `Subsequences`, `Results` | `subsequences.dfy`, `results.dfy` | shared vocabulary: subsequences as increasing position lists; `Option` and `Result` |

Representation choices:

- **Binary tree.** A node is named by its level-order (heap) position: the
  root is 1, and the children of `p` are `2p` and `2p + 1`. The linked tree
  is the map from the positions present to their values. `Subtree` reads
  that map back as an algebraic `Tree` for specifications.
- **Max tree.** Node `k` holds `input[k]`. The `left_child`, `right_child`
  and `parent` pointers are sequences of node ids, with -1 for null.
- **Linked list.** The list is an arena of `data`/`next` sequences. Node 0
  is the sentinel `_head`, and -1 is a null `next`. A ghost `order` lists
  the reachable nodes.
- **Longest non-decreasing subsequence.** The `std::map`, the
  `unordered_map` of lengths and the back-pointer map become Dafny `map`s.
- **Errors.** The places where the C++ throws or reads an empty container
  are `Err`/`None` values.

## Model

| member | source | states |
|---|---|---|
| BinaryTrees.BinaryTree.constructor | Ch_09_Binary_Trees/iterative_binary_tree_traversals.cpp:28 | a new tree has no nodes and size 0, and is complete |
| BinaryTrees.BinaryTree.Size | Ch_09_Binary_Trees/iterative_binary_tree_traversals.cpp:58-60 | `size()` equals the number of nodes of the tree under the root |
| BinaryTrees.BinaryTree.IsEmpty | Ch_14_Binary_Search_Trees/binary_search_tree_sequences.cpp:107-109 | `is_empty()` holds iff the root is null, iff the size is 0 |
| BinaryTrees.BinaryTree.RootIsAncestorOfAll | Ch_14_Binary_Search_Trees/binary_search_tree_sequences.cpp:201-206 | in a linked tree, any node at all means the root is present |
| BinaryTrees.BinaryTree.Descend | Ch_14_Binary_Search_Trees/binary_search_tree_sequences.cpp:209-223 | one step down: the child `2p` (left) or `2p + 1` (right) is created if missing and becomes current; the tree stays linked and nothing else changes |
| BinaryTrees.BinaryTree.FindNthNodePath | Ch_14_Binary_Search_Trees/binary_search_tree_sequences.cpp:194-228 | returns the root-first path to position n and creates exactly the nodes of that path that were missing |
| BinaryTrees.BinaryTree.Insert | Ch_14_Binary_Search_Trees/binary_search_tree_sequences.cpp:84-87 | on a complete tree of size k the value lands at level-order position k + 1; size grows by exactly 1; the level-order values gain the value at the end |
| BinaryTrees.PathLength | Ch_14_Binary_Search_Trees/binary_search_tree_sequences.cpp:195-198 | the path to n has floor(log2 n) + 1 entries, i.e. 2^(len-1) <= n < 2^len |
| BinaryTrees.PathSteps | Ch_14_Binary_Search_Trees/binary_search_tree_sequences.cpp:208-226 | each step of the path goes left on a 0 bit and right on a 1 bit of n, reading below the leading bit |
| BinaryTrees.PathRange | Ch_14_Binary_Search_Trees/binary_search_tree_sequences.cpp:200-226 | the path starts at the root, ends at n, and passes only through positions below n |
| BinaryTrees.StepDown | Ch_14_Binary_Search_Trees/binary_search_tree_sequences.cpp:208-209 | halving `modulus` extends the path by the child chosen by the test `n % modulus < modulus / 2` |
| BinaryTrees.ExtendComplete | Ch_14_Binary_Search_Trees/binary_search_tree_sequences.cpp:194-228 | on a complete tree of size n, walking the path to n + 1 creates exactly the one node n + 1 |
| BinaryTrees.CompleteInsert | Ch_09_Binary_Trees/iterative_binary_tree_traversals.cpp:31-34 | filling position n + 1 of a complete tree keeps it complete and linked, with n + 1 nodes, and appends the value to the level order |
| BinaryTrees.ArenaCount | Ch_09_Binary_Trees/iterative_binary_tree_traversals.cpp:181-218 | in a linked tree, the number of nodes under the root equals the number of positions, which is what `_size` counts |
| BinaryTrees.TraversalsArePermutations | Ch_09_Binary_Trees/iterative_binary_tree_traversals.cpp:58-60 | preorder, inorder and postorder each have one entry per node and are permutations of the node values |
| BinaryTrees.PreorderCounts | Ch_09_Binary_Trees/iterative_binary_tree_traversals.cpp:62-80 | the root-left-right order has one entry per node and holds exactly the node values |
| BinaryTrees.InorderCounts | Ch_09_Binary_Trees/iterative_binary_tree_traversals.cpp:123-152 | the left-root-right order has one entry per node and holds exactly the node values |
| BinaryTrees.PostorderCounts | Ch_09_Binary_Trees/iterative_binary_tree_traversals.cpp:82-90 | the left-right-root order has one entry per node and holds exactly the node values |
| Traversals.PreorderTraversal | Ch_09_Binary_Trees/iterative_binary_tree_traversals.cpp:62-80 | the stack-driven traversal equals the recursive root-left-right order, is empty for an empty tree, and has `size()` entries that are a permutation of the values |
| Traversals.PreorderLoop | Ch_09_Binary_Trees/iterative_binary_tree_traversals.cpp:66-79 | the `frontier` loop from the root emits exactly the recursive preorder |
| Traversals.PreorderTurn | Ch_09_Binary_Trees/iterative_binary_tree_traversals.cpp:69-77 | one turn (pop, emit, push right then left child) keeps the invariant "emitted + pending = preorder" and shrinks what is pending |
| Traversals.PostorderTraversal | Ch_09_Binary_Trees/iterative_binary_tree_traversals.cpp:92-121 | the stack-driven traversal equals the recursive postorder (`PostorderTraversalR` on the root), is empty for an empty tree, and is a permutation of the values |
| Traversals.PostorderLoop | Ch_09_Binary_Trees/iterative_binary_tree_traversals.cpp:98-120 | the `node_action_stack` loop from the root emits exactly the recursive postorder |
| Traversals.PostorderTurn | Ch_09_Binary_Trees/iterative_binary_tree_traversals.cpp:106-118 | expanding a `kTraverse` entry (push kVisit, right, left) keeps the invariant and strictly decreases the remaining work |
| Traversals.PostorderExpandPending | Ch_09_Binary_Trees/iterative_binary_tree_traversals.cpp:107-117 | the entries pushed for a `kTraverse` node will emit exactly that node's subtree in postorder |
| Traversals.InorderTraversal | Ch_09_Binary_Trees/iterative_binary_tree_traversals.cpp:123-152 | the stack-driven traversal equals the recursive left-root-right order, is empty for an empty tree, and is a permutation of the values |
| Traversals.InorderLoop | Ch_09_Binary_Trees/iterative_binary_tree_traversals.cpp:129-151 | the `node_action_stack` loop from the root emits exactly the recursive inorder |
| Traversals.InorderTurn | Ch_09_Binary_Trees/iterative_binary_tree_traversals.cpp:137-149 | expanding a `kEnter` entry (push right, kVisit, left) keeps the invariant and strictly decreases the remaining work |
| Traversals.InorderExpandPending | Ch_09_Binary_Trees/iterative_binary_tree_traversals.cpp:138-148 | the entries pushed for a `kEnter` node will emit exactly that node's subtree in inorder |
| Traversals.VisitTurn | Ch_09_Binary_Trees/iterative_binary_tree_traversals.cpp:104-105 | popping a `kVisit` entry emits its value, keeps the invariant and decreases the remaining work |
| Traversals.ExpandWork | Ch_09_Binary_Trees/iterative_binary_tree_traversals.cpp:99-119 | expanding a node strictly decreases the work measure (two units per node still to expand, one per pending visit), so the loops terminate |
| Traversals.PostorderTraversalR | Ch_09_Binary_Trees/iterative_binary_tree_traversals.cpp:82-90 | the recursive traversal appends exactly the postorder of the subtree to `traversal` |
| BstSequences.GenerateInterleavedSequencesRecursive | Ch_14_Binary_Search_Trees/binary_search_tree_sequences.cpp:32-57 | `current_sequence` is unchanged on return (each push matched by a pop); `generated` gains `current` + each merge of `a[i..]` and `b[j..]`, in the recursion's order |
| BstSequences.GenerateInterleavedSequences | Ch_14_Binary_Search_Trees/binary_search_tree_sequences.cpp:20-30 | returns exactly `Interleavings(a, b)`, the list of all order-preserving merges |
| BstSequences.InterleavingIsMerge | Ch_14_Binary_Search_Trees/binary_search_tree_sequences.cpp:40-56 | a sequence is produced iff it is the weave of `a` and `b` under some valid choice of sides (both directions) |
| BstSequences.InterleavingsAreMerges | Ch_14_Binary_Search_Trees/binary_search_tree_sequences.cpp:40-56 | the k-th produced sequence is the merge for the k-th choice: `a` and `b` can be read back from it as the positions taken from each side |
| BstSequences.WeaveSelect | Ch_14_Binary_Search_Trees/binary_search_tree_sequences.cpp:40-53 | reading a merge at the positions of one side gives back that input sequence in order |
| BstSequences.WeaveKeepsElements | Ch_14_Binary_Search_Trees/binary_search_tree_sequences.cpp:40-53 | every merge is as long as `a` and `b` together and holds exactly the elements of both |
| BstSequences.InterleavingElements | Ch_14_Binary_Search_Trees/binary_search_tree_sequences.cpp:40-56 | every produced sequence is as long as `a` and `b` together and is a permutation of `a + b` |
| BstSequences.ChoicesComplete | Ch_14_Binary_Search_Trees/binary_search_tree_sequences.cpp:40-53 | every choice of sides that takes all of `a` from one and all of `b` from the other is explored |
| BstSequences.ChoicesDistinct | Ch_14_Binary_Search_Trees/binary_search_tree_sequences.cpp:40-53 | no choice of sides is explored twice |
| BstSequences.WeaveInjective | Ch_14_Binary_Search_Trees/binary_search_tree_sequences.cpp:40-53 | when `a` and `b` share no value, a merge determines the choice of sides that produced it |
| BstSequences.InterleavingsDistinct | Ch_14_Binary_Search_Trees/binary_search_tree_sequences.cpp:40-56 | when `a` and `b` share no value (as the two subtrees of a binary search tree do), no merge is produced twice |
| BstSequences.ChoicesValid | Ch_14_Binary_Search_Trees/binary_search_tree_sequences.cpp:40-56 | every explored choice takes exactly all of `a` from one side and all of `b` from the other |
| BstSequences.ChoicesCount | Ch_14_Binary_Search_Trees/binary_search_tree_sequences.cpp:40-56 | the number of explored choices is C(m + n, m) |
| BstSequences.InterleavingsCount | Ch_14_Binary_Search_Trees/binary_search_tree_sequences.cpp:40-56 | the number of produced merges is the binomial coefficient C(m + n, m), for lengths m of `a` and n of `b` |
| BstSequences.InterleavingsFollowChoices | Ch_14_Binary_Search_Trees/binary_search_tree_sequences.cpp:40-56 | the recursion's output lines up, position by position, with the list of choices |
| BstSequences.PrependValue | Ch_14_Binary_Search_Trees/binary_search_tree_sequences.cpp:161-163 | the loop that inserts the root value at the front of each sequence puts it in front of every one |
| BstSequences.InterleaveSubtrees | Ch_14_Binary_Search_Trees/binary_search_tree_sequences.cpp:150-160 | the nested loops collect, for each left sequence in turn and each right sequence in turn, all their merges |
| BstSequences.BstSequencesRecursive | Ch_14_Binary_Search_Trees/binary_search_tree_sequences.cpp:125-166 | returns `BstSeqs` of the subtree, covering the four cases leaf / left only / right only / both |
| BstSequences.BstSequences | Ch_14_Binary_Search_Trees/binary_search_tree_sequences.cpp:119-121 | on a non-empty tree, returns `BstSeqs` of the whole tree |
| BstSequences.BstSeqsArePermutations | Ch_14_Binary_Search_Trees/binary_search_tree_sequences.cpp:125-165 | every BST sequence starts with the subtree's root value, has one entry per node and is a permutation of the node values |
| BstSequences.BstSeqsRebuild | Ch_14_Binary_Search_Trees/binary_search_tree_sequences.cpp:115-117 | for a binary search tree, inserting any produced sequence into an empty BST rebuilds the tree |
| BstSequences.BstSeqsComplete | Ch_14_Binary_Search_Trees/binary_search_tree_sequences.cpp:115-117 | for a binary search tree, every order of insertion that rebuilds the tree from an empty BST is one of the produced sequences |
| BstSequences.BstSequencesRebuild | Ch_14_Binary_Search_Trees/binary_search_tree_sequences.cpp:1-3 | for a binary search tree, every produced sequence starts at the root and is a permutation of the values, and the produced sequences are exactly the insertion orders that rebuild the tree (both directions) |
| BstSequences.InsertWeave | Ch_14_Binary_Search_Trees/binary_search_tree_sequences.cpp:146-163 | inserting any merge of a smaller-valued and a larger-valued sequence below a root builds the two subtrees independently |
| MaxTrees.ConstructMaxTree | Ch_09_Binary_Trees/max_tree.cpp:45-84 | empty input gives a null tree; otherwise one node per element, parent pointers consistent with child pointers (the root's null), heap order with the maximum at the root, and an in-order walk that reproduces the input order |
| MaxTrees.ClimbRightSpine | Ch_09_Binary_Trees/max_tree.cpp:54-57 | the walk up `parent` stays on the right spine and stops at the first spine node whose value is not smaller than the new value, or at null, past only smaller values |
| MaxTrees.NewRoot | Ch_09_Binary_Trees/max_tree.cpp:62-67 | when the walk reaches null, the new node becomes the root with the old tree as its left subtree; the invariant holds and the new spine is just the new root |
| MaxTrees.AppendRight | Ch_09_Binary_Trees/max_tree.cpp:68-81 | making the new node the right child of the stop node, with the old right child as its left child, keeps the invariant; the spine becomes the walked prefix plus the new node |
| MaxTrees.StopChild | Ch_09_Binary_Trees/max_tree.cpp:70-77 | the stop node's old right child is the next spine node (or null at the spine's end), and everything below it is smaller than the new value |
| MaxTrees.SpineIncreasing | Ch_09_Binary_Trees/max_tree.cpp:67 | the right spine goes down by increasing ids, each inside the subtree id range of every spine node above it |
| MaxTrees.ShapeIsMaxTree | Ch_09_Binary_Trees/max_tree.cpp:45-84 | the loop invariant at the end gives all the max-tree properties, in-order included |
| MaxTrees.WalkCoversRange | Ch_09_Binary_Trees/max_tree.cpp:58-61 | the in-order walk from any node visits exactly the contiguous ids of its subtree range, in increasing order |
| LinkedLists.SinglyLinkedList.constructor | Ch_07_Linked_Lists/remove_duplicates_linked_list_variant.cpp:76-77 | a new list is the sentinel head alone, with the tail at the head |
| LinkedLists.SinglyLinkedList.Append | Ch_07_Linked_Lists/remove_duplicates_linked_list_variant.cpp:20-23 | the value is added at the end and earlier elements are unchanged; the list stays well formed with the tail on the new node |
| LinkedLists.SinglyLinkedList.FindLastOccurrenceOf | Ch_07_Linked_Lists/remove_duplicates_linked_list_variant.cpp:29-38 | `el_count` >= 1 is the length of the maximal equal-value run after `before_start`, and the returned node is that run's last node |
| LinkedLists.SinglyLinkedList.UnlinkBlock | Ch_07_Linked_Lists/remove_duplicates_linked_list_variant.cpp:49-54 | unlinking a block removes exactly those elements, keeps the list well formed, and moves `_tail` back to `before_start` when the block was last |
| LinkedLists.SinglyLinkedList.RemoveElementsMoreThanM | Ch_07_Linked_Lists/remove_duplicates_linked_list_variant.cpp:42-61 | afterwards the list is the input with exactly the blocks longer than m deleted; kept blocks stay intact and in order; `_tail` is the last node (or the head) |
| LinkedLists.RemoveLongRunsCounts | Ch_07_Linked_Lists/remove_duplicates_linked_list_variant.cpp:40-41 | on grouped input, each value occurring more than m times disappears completely, and every other value keeps all its occurrences |
| LinkedLists.NoLongRunsLeft | Ch_07_Linked_Lists/remove_duplicates_linked_list_variant.cpp:40-61 | on grouped input, no run of equal values longer than m remains |
| LinkedLists.RemoveLongRunsShrinks | Ch_07_Linked_Lists/remove_duplicates_linked_list_variant.cpp:49-57 | removal only deletes: the result's elements are a sub-multiset of the input's |
| LinkedLists.UngroupedInputMerges | Ch_07_Linked_Lists/remove_duplicates_linked_list_variant.cpp:41 | without grouping, removal can join two short runs into a long one: [1, 2, 2, 2, 1] with m = 1 leaves [1, 1] |
| LinkedLists.SampleRemoval | Ch_07_Linked_Lists/remove_duplicates_linked_list_variant.cpp:84 | the first sample list [1, 2, 2, 3, 3, 3] with m = 2 becomes [1, 2, 2] |
| LinkedLists.RunLength | Ch_07_Linked_Lists/remove_duplicates_linked_list_variant.cpp:30-36 | the run at the front has length at least 1, holds only the front value, and is maximal |
| LinkedLists.Unlink | Ch_07_Linked_Lists/remove_duplicates_linked_list_variant.cpp:51-54 | redirecting `before_start->next` past a block, and moving `_tail` if the block ended the list, gives a well-formed list without that block |
| LinkedLists.AppendNode | Ch_07_Linked_Lists/remove_duplicates_linked_list_variant.cpp:21-22 | linking a new node after the tail gives a well-formed list whose values gain the new value at the end |
| LinkedLists.HasNext | Ch_07_Linked_Lists/remove_duplicates_linked_list_variant.cpp:45 | a node's `next` is non-null iff it is not the last node, so the loop test reads the list's end correctly |
| RecursionTranslation.FooIterative | Ch_09_Binary_Trees/recursive_iterative_translation.cpp:17-69 | `foo_iterative` returns `foo_recursive(v)` for every v and prints the same Start/A/B/C labels in the same order |
| RecursionTranslation.StepStart | Ch_09_Binary_Trees/recursive_iterative_translation.cpp:28-38 | a Start frame returns v at once when v < 10 (one value pushed), and otherwise resumes at A; the invariant is kept |
| RecursionTranslation.StepA | Ch_09_Binary_Trees/recursive_iterative_translation.cpp:39-46 | an A frame pushes its continuation B and then the call on v / 2; the invariant is kept |
| RecursionTranslation.StepB | Ch_09_Binary_Trees/recursive_iterative_translation.cpp:47-51 | a B frame pushes its continuation C and then the call on v - 3; the invariant is kept |
| RecursionTranslation.StepC | Ch_09_Binary_Trees/recursive_iterative_translation.cpp:52-61 | a C frame finds at least two return values, pops b then a, and pushes a + b; the invariant is kept |
| RecursionTranslation.LineC | Ch_09_Binary_Trees/recursive_iterative_translation.cpp:53-61 | resuming at C needs two return values and replaces them by their sum |
| RecursionTranslation.StartReturns | Ch_09_Binary_Trees/recursive_iterative_translation.cpp:6-8 | for v < 10 the call returns v and prints only Start |
| AlternatingSubsequences.ComputeLongestAlternatingSubsequence | Ch_16_Dynamic_Programming/longest_alternating_subsequence.cpp:32-57 | empty input gives an empty result; otherwise the result has between 1 and len(input) elements, ends with the last input value, alternates strictly starting with an increase, is a subsequence of the input, and no such subsequence is longer |
| AlternatingSubsequences.GreedyStep | Ch_16_Dynamic_Programming/longest_alternating_subsequence.cpp:39-55 | one step (append and flip, or replace the last value) keeps the loop invariant: the result alternates, is picked at increasing positions ending at i, and beats every alternating subsequence so far |
| AlternatingSubsequences.DominatesStep | Ch_16_Dynamic_Programming/longest_alternating_subsequence.cpp:46-54 | after the step, no alternating subsequence of the longer prefix is longer than the result, and one as long ends with a value no better placed to be continued |
| AlternatingSubsequences.StepAlternates | Ch_16_Dynamic_Programming/longest_alternating_subsequence.cpp:41-54 | both the append and the replace-last step keep the result alternating |
| AlternatingSubsequences.GreedyDone | Ch_16_Dynamic_Programming/longest_alternating_subsequence.cpp:15-18 | at the end, the result is an alternating subsequence and none is longer |
| AlternatingSubsequences.EmptyInput | Ch_16_Dynamic_Programming/longest_alternating_subsequence.cpp:34-36 | for empty input the empty result is optimal |
| NondecreasingSubsequences.ComputeLongestNondecreasingSubsequence | Ch_16_Dynamic_Programming/longest_nondecreasing_subsequence_optimal.cpp:24-108 | for non-empty input the result is a non-decreasing subsequence of the input and no non-decreasing subsequence is longer |
| NondecreasingSubsequences.AddElement | Ch_16_Dynamic_Programming/longest_nondecreasing_subsequence_optimal.cpp:37-80 | one step of the main loop keeps all of the state invariants (below) |
| NondecreasingSubsequences.StepKeepsActive | Ch_16_Dynamic_Programming/longest_nondecreasing_subsequence_optimal.cpp:42-79 | the erase-then-insert update keeps the maps ordered by end value with lengths strictly increasing, one entry per length in bijection with the length index, `max_length` the longest length, back-pointers to earlier no-larger values, and every non-decreasing subsequence seen so far covered |
| NondecreasingSubsequences.FloorEntry | Ch_16_Dynamic_Programming/longest_nondecreasing_subsequence_optimal.cpp:42-46 | `std::prev(upper_bound(x))` finds the largest key <= x, and finds one iff such a key exists |
| NondecreasingSubsequences.NewLengthPlace | Ch_16_Dynamic_Programming/longest_nondecreasing_subsequence_optimal.cpp:48-49 | the new length exceeds every active length ending at or below x and is at most every length ending above it; an old entry of the same length ends above x |
| NondecreasingSubsequences.EraseShape | Ch_16_Dynamic_Programming/longest_nondecreasing_subsequence_optimal.cpp:57-68 | the two erasures leave entries of the old map only, keep the maps in bijection, and free both the new length and the end value x |
| NondecreasingSubsequences.StepBackPointers | Ch_16_Dynamic_Programming/longest_nondecreasing_subsequence_optimal.cpp:50-51 | the new previous index is -1 or a smaller index whose value is no larger than the current value |
| NondecreasingSubsequences.StepMax | Ch_16_Dynamic_Programming/longest_nondecreasing_subsequence_optimal.cpp:79 | `max(max_length, new_length)` stays the longest active length and keeps an entry in the length index |
| NondecreasingSubsequences.ChainIsSubsequence | Ch_16_Dynamic_Programming/longest_nondecreasing_subsequence_optimal.cpp:101-104 | the back-pointer chain visits strictly decreasing indices and picks a non-decreasing subsequence ending at the start value |
| NondecreasingSubsequences.ActiveDone | Ch_16_Dynamic_Programming/longest_nondecreasing_subsequence_optimal.cpp:81-88 | after the loop, `max_length` has an entry whose chain has length `max_length` and is a non-decreasing subsequence, and none is longer |
| NondecreasingSubsequences.Retrace | Ch_16_Dynamic_Programming/longest_nondecreasing_subsequence_optimal.cpp:101-106 | walking back-pointers and then reversing yields the values of the chain in input order |
| NondecreasingSubsequences.Reverse | Ch_16_Dynamic_Programming/longest_nondecreasing_subsequence_optimal.cpp:106 | the reversal has the same length and reads the input back to front |
| PolishNotation.IsNumeric | Ch_08_Stacks_and_Queues/polish_notation.cpp:7-12 | holds iff every character is a decimal digit; vacuously for "" |
| PolishNotation.EvaluatePolishNotation | Ch_08_Stacks_and_Queues/polish_notation.cpp:14-39 | the nested push/reduce loops compute `Evaluate`, including its error cases |
| PolishNotation.ReduceStack | Ch_08_Stacks_and_Queues/polish_notation.cpp:27-35 | the inner `while` loop computes `Reduce`: it reduces while at least 3 entries remain and the top two are numeric |
| PolishNotation.ReduceOnce | Ch_08_Stacks_and_Queues/polish_notation.cpp:28-34 | a reduction pops three entries and pushes one result, so the stack shrinks by exactly 2 and the entries below are unchanged |
| PolishNotation.ReduceResult | Ch_08_Stacks_and_Queues/polish_notation.cpp:27 | after reducing, no further reduction applies, the size dropped by an even amount, and the entries below the top are untouched |
| PolishNotation.LeftOperandIsDeeper | Ch_08_Stacks_and_Queues/polish_notation.cpp:28-34 | an example of the operand order: the stack `-`, `3`, `1` reduces to `2`, so the deeper entry is the left operand |
| PolishNotation.ReduceTriple | Ch_08_Stacks_and_Queues/polish_notation.cpp:28-34 | an operator with two digit-string entries above it (leading zeros allowed), on top of any stack, reduces as if the decimal text of `left op right` had been pushed in their place |
| PolishNotation.EvaluatePrefix | Ch_08_Stacks_and_Queues/polish_notation.cpp:14-38 | for a well-formed expression (number tokens are any non-empty digit strings, leading zeros allowed) whose intermediate values are all non-negative, the stack ends with exactly one entry, and the answer is the expression's value |
| PolishNotation.FeedPrefix | Ch_08_Stacks_and_Queues/polish_notation.cpp:24-36 | feeding the tokens of a well-formed sub-expression onto any stack acts like pushing the one entry it reduces to: the number token itself, or the decimal text of the operator's result |
| PolishNotation.EvalNonNegative | Ch_08_Stacks_and_Queues/polish_notation.cpp:28-34 | a well-formed expression has a non-negative value, and the entry it reduces to is a non-empty digit string denoting that value |
| PolishNotation.StoiOfIntToString | Ch_08_Stacks_and_Queues/polish_notation.cpp:28-34 | `std::stoi` reads back what `std::to_string` wrote |
| PolishNotation.SampleEvaluation | Ch_08_Stacks_and_Queues/polish_notation.cpp:42-47 | the sample `+ * - 3 1 5 + 44 66` evaluates to 120 |
| PolishNotation.LeadingZerosRead | Ch_08_Stacks_and_Queues/polish_notation.cpp:7-12 | number tokens with leading zeros are numeric and read by value: `- 010 07` evaluates to 3 |
| PolishNotation.NegativeIntermediateStalls | Ch_08_Stacks_and_Queues/polish_notation.cpp:27 | a negative intermediate value such as "-2" is not numeric, so reduction stalls: `+ - 1 3 5` evaluates to 5, not (1 - 3) + 5 = 3 |
| PolishNotation.FeedFailure | Ch_08_Stacks_and_Queues/polish_notation.cpp:24-36 | once an error is raised on a prefix of the tokens, the whole evaluation fails with that error |

## Left out

- Console output is not modelled. This covers the `operator<<` printers, `PrintBT`/`PrintBTRecursive`, `SinglyLinkedList::to_string`, and the `std::cout` tracing in the LNDS and evaluator files. The Start/A/B/C labels of the recursion exercise are kept as a trace sequence. The `main` drivers are not modelled; some of their inputs appear as sample lemmas.
- `top()` and `pop()` of `BinaryTree` are not modelled: `top` only reads the root, and `pop` is not implemented in the source.
- C++ memory ownership (`std::unique_ptr`, `std::move`) is not modelled. Trees and lists are arenas of positions or ids.
- Fixed-width integer arithmetic is not modelled. `int` and `size_t` are unbounded, so overflow in `foo_*`, in the evaluator and in `size_t` counters does not happen. The `size_t(-1)` sentinel of the LNDS back-pointers is -1.
- `std::map` and `unordered_map` internals are not modelled; they are Dafny maps. `FloorEntry` searches the map's keys directly, in place of `upper_bound`/`prev`.
- PolishNotation.Stoi handles only what the evaluator feeds it: an optional sign and then leading digits. Range errors, whitespace and other `std::stoi` details are not modelled. `std::isdigit` is taken in the "C" locale.
- PolishNotation.EvaluatePrefix covers only expressions whose number tokens are plain digit strings and whose intermediate values are all non-negative. Tokens with a sign are left to the error and stall cases. A negative intermediate value is written as "-2", which is not numeric, so reduction stalls (`NegativeIntermediateStalls`).
- PolishNotation.ApplyOp treats division by zero, which is undefined behaviour in C++, as the error `DivisionByZero`. Reading an empty stack is the error `EmptyStack`.
- NondecreasingSubsequences.ComputeLongestNondecreasingSubsequence requires non-empty input. On empty input the source dereferences an iterator taken from a default entry (line 87).
- BstSequences.BstSequences requires a non-empty tree. The source dereferences a null root.
- BstSequences.BstSeqsRebuild assumes binary-search-tree order with distinct values. The source only says it assumes BST order. The same holds for `BstSeqsComplete` and `BstSequencesRebuild`.
- RecursionTranslation.FooIterative reads a copy of the popped frame. The source binds `value` and `next_line` by reference to `call_stack.back()` and then pops that element, so its later reads go through a dangling reference (undefined behaviour); the model gives them the values the frame held.
- The LinkedLists results about runs assume grouped input: `NoLongRunsLeft` and `RemoveLongRunsCounts`. `RemoveElementsMoreThanM` itself is specified for any input.
- Several inner loops and loop bodies of the source are separate methods, so that each has its own contract: `ClimbRightSpine`, `Descend`, `AddElement`, `Retrace`, `FloorEntry`, `UnlinkBlock`, `PrependValue`, `InterleaveSubtrees`, `ReduceStack` and the traversal loops.
- Nodes of `BinaryTree` created by `FindNthNodePath` hold the value 0, which stands for `T{}`. Values are `int` throughout, the type every driver uses.
