# Huffman code-table builder, modelled in Dafny

This project models the Huffman code-table builder of `Huffman/huffman.c`
together with the node store of `Huffman/tree.c`. The builder does five
things:

1. It scans the input and gives every byte that occurs a leaf weighing its
   count. It also adds a sentinel leaf for letter 256, of weight 0.
2. It places the leaves into an array-backed heap, `heap[257]`.
3. It repeatedly removes two nodes and joins them under a new node. The new
   node's weight is their sum and its letter is `'$'`. This goes on until one
   tree remains.
4. It walks that tree left-first. Each left step writes a 0 and each right
   step a 1, and every leaf prints the bits on the way to it.
5. It keeps nodes in a store (`createTree`, the getters and setters,
   `destroyTree`).

Nodes live in an arena: a sequence of `Node` records addressed by index. A
NULL pointer is `None`. `Tree.Store` holds the arena and its methods append or
rewrite nodes in place. `Huffman.Builder` holds the C program's globals:

- `leaves`, `heap` and `code` are arrays;
- `heap_count` is a field;
- `balanceTree`, `reverseBalance`, `removeFirst`, `insert`, `printCode` and
  `printBits` are methods of the same name, each proved against a function
  on values;
- `main` is `Run`. Its first part, `BuildTree`, calls the methods
  `ScanFrequencies`, `FillHeap` and `MergeAll` (one `MergeRound` per pass of
  the merge loop) for its three loops, and `Run` then calls `PrintCode`;
- `isLeaf` is the predicate `Codes.IsLeaf`, since it only reads the arena.

The value-level functions and their lemmas are in these modules:

- `Heap`: `SiftUp`, `SiftDown`, `AfterRemoveFirst` and `AfterInsert` on the
  contents of `heap[]`.
- `Frequency`: `Scanned`, the state of the scan.
- `Fill`: `Filled`, the contents of `heap[]` after the fill.
- `Merge`: `Combine` and `Merged`, for the merge loop.
- `Codes`: `Emit`, the records `printCode` prints.
- `Forest`: the invariants the merge loop keeps and the final code-table
  theorem.

The heap routines are modelled as the C code is written. Their comments
(lines 127-128 and 169-170 of `Huffman/huffman.c`) say that `balanceTree`
swaps a node with a larger parent and that `reverseBalance` moves a node
towards its smallest child, as a binary min-heap would. The code does not
keep heap order, though:

- `balanceTree` stops as soon as the parent slot is 0, so it never exchanges
  anything with slot 0.
- `reverseBalance` always swaps with the smaller child and never checks the
  parent first.

`Heap.LighterInsertStaysBelowRoot` gives an input where a lighter node stays
below a heavier root. So the model does not claim that the first slot is
minimal, nor that the code lengths are optimal. What it proves is this:

- `balanceTree` and `reverseBalance` only rearrange slots, `removeFirst`
  removes exactly the old first node and `insert` adds exactly the new one;
- the out-of-range read in `reverseBalance` hits the node being sunk, and
  the sunk node settles in a live slot, possibly above a heavier or equal
  left child;
- the merge loop builds one full tree over exactly the scanned leaves;
- the root of that tree weighs the length of the input;
- the printed table has one record per symbol, carrying its count;
- the codes are prefix-free, and each code decodes along the tree to its
  letter's leaf.

## Model

| member | source | states |
|---|---|---|
| `Tree.AfterCreate` | Huffman/tree.c:39-66 | The new node is appended with the given weight and children and a NULL parent. Each non-NULL child now has the new node as parent. Letter, weight and children of every existing node are unchanged, and a node that is not an argument is entirely unchanged. |
| `Tree.Store.CreateTree` | Huffman/tree.c:39-66 | Returns the id of the fresh node (the old arena size). The arena becomes `AfterCreate` of the old arena. |
| `Tree.Store.GetData` | Huffman/tree.c:97-99 | Returns the node's stored weight. |
| `Tree.Store.GetLeft` | Huffman/tree.c:109-118 | The NULL test returns exactly the stored left link. |
| `Tree.Store.GetRight` | Huffman/tree.c:128-137 | The NULL test returns exactly the stored right link. |
| `Tree.Store.GetParent` | Huffman/tree.c:147-156 | The NULL test returns exactly the stored parent link. |
| `Tree.AfterSetLeft` | Huffman/tree.c:167-170 | `root.left` becomes `x` and `x.parent` becomes `root`. No other field changes. The previous left child keeps its stale parent link. |
| `Tree.Store.SetLeft` | Huffman/tree.c:167-170 | The arena becomes `AfterSetLeft` of the old one. |
| `Tree.AfterSetRight` | Huffman/tree.c:181-184 | `root.right` becomes `x` and `x.parent` becomes `root`. No other field changes. The previous right child keeps its stale parent link. |
| `Tree.Store.SetRight` | Huffman/tree.c:181-184 | The arena becomes `AfterSetRight` of the old one. |
| `Tree.Store.SetLetter` | Huffman/huffman.c:82 | Only the letter of the named node changes. |
| `Tree.Store.IncData` | Huffman/huffman.c:85 | Only the weight of the named node changes, and it grows by one. |
| `Tree.CreateKeepsOrdered` | Huffman/tree.c:39-66 | `createTree` links only nodes that already exist, so it keeps every child created before its parent. |
| `Tree.DestroyOrder` | Huffman/tree.c:76-87 | The order in which `destroyTree` frees nodes: nothing for NULL; otherwise the root comes last, and no node freed was created after the root. |
| `Tree.DestroyFreesSubtreeOnce` | Huffman/tree.c:76-87 | When no node is shared, the post-order free sequence (left, right, node; nothing for NULL) frees exactly the nodes of the subtree, each once, the root last. |
| `Codes.IsLeaf` | Huffman/huffman.c:252-254 | A node is a leaf exactly when neither the 0 step nor the 1 step of a decoder leads to a child. |
| `Codes.LeafHasNoStep` | Huffman/huffman.c:252-254 | `isLeaf` holds exactly when a decoder can take neither a 0 step nor a 1 step from the node. |
| `Codes.LeafOrderDistinct` | Huffman/huffman.c:220-234 | When no node is shared, the left-to-right order in which `printCode` reaches leaves lists each leaf once. |
| `Codes.FollowWithinHeight` | Huffman/huffman.c:222-231 | No path a decoder can follow is longer than the tree's height. This height bounds the deepest write to `code[]`. |
| `Codes.Emit` | Huffman/huffman.c:220-244 | `printCode` prints one record per leaf below the node. |
| `Codes.EmitAt` | Huffman/huffman.c:220-244 | The k-th printed record belongs to the k-th leaf from the left and has its letter and weight. Its bits are the incoming path followed by the steps (0 left, 1 right) that lead from the node to that leaf. Below an inner node, the bit after the path tells which side the record came from. |
| `Codes.EmitPrefixFree` | Huffman/huffman.c:220-244 | No printed code is a prefix of another. |
| `Heap.CParent` | Huffman/huffman.c:136 | `(index - 1) / 2` with C's truncating division: 0 for index 0, otherwise the slot whose children are `index`. |
| `Heap.Swap` | Huffman/huffman.c:140-142 | The three-assignment exchange swaps the two slots and permutes the contents. |
| `Heap.SiftUp` | Huffman/huffman.c:132-145 | `balanceTree(i)` on the contents of `heap[]`: return when the node is strictly heavier than its parent or the parent slot is 0, otherwise exchange and continue from the parent. The result has the same length. `SiftUpPermutes` and `SiftUpKeepsRoot` state what it does to the slots, and `Huffman.Builder.BalanceTree` is proved equal to it. |
| `Heap.SiftUpPermutes` | Huffman/huffman.c:132-145 | `balanceTree(i)` only rearranges slots `0..i` and leaves every slot above `i` alone. |
| `Heap.SiftUpKeepsRoot` | Huffman/huffman.c:136-138 | `balanceTree` never writes slot 0, and it returns at once from slots 0, 1 and 2. |
| `Heap.SiftDown` | Huffman/huffman.c:174-195 | `reverseBalance(i)` on the contents of `heap[]`: stop when slot `i` has no live left child, otherwise exchange with the left child if strictly lighter, else with the right child (ties go right, and the right slot may be one past the live region), and continue there. The result has the same length. `SiftDownPermutes`, `SiftDownKeepsSunk` and `SiftDownSettles` state what it does to the slots, and `Huffman.Builder.ReverseBalance` is proved equal to it. |
| `Heap.SiftDownPermutes` | Huffman/huffman.c:174-195 | `reverseBalance(i)` only rearranges slots `i..n`: the live region plus the one slot read past it. |
| `Heap.SiftDownKeepsSunk` | Huffman/huffman.c:155-195 | The slot one past the live region still holds the node being sunk. The out-of-range exchange therefore loses and duplicates nothing: the live region keeps its multiset and that slot its node. |
| `Heap.SiftDownSettles` | Huffman/huffman.c:178-194 | The node sunk from a live slot, whose copy sits in the slot past the live region, ends in a live slot at or below its start. Either that slot has no live left child, or its left child is the last live slot and is not strictly lighter. In the second case the tie-or-heavier test picks the dead right slot, which holds the node itself, so the node stays above that child. |
| `Heap.AfterRemoveFirst` | Huffman/huffman.c:155-164 | After `removeFirst`, the live region holds the old live nodes less the old first one. Slots past the old live region are untouched. |
| `Heap.LastToFront` | Huffman/huffman.c:158-160 | Copying the last live slot over slot 0 and dropping one slot removes exactly the old first node. |
| `Heap.AfterInsert` | Huffman/huffman.c:205-209 | After `insert(id)`, the live region holds the old live nodes plus `id`. Slot 0 is unchanged unless it was the free slot, and the other slots are untouched. |
| `Heap.LighterInsertStaysBelowRoot` | Huffman/huffman.c:136 | Inserting a weight-1 node after a weight-5 node leaves the heavier one in slot 0, so the structure is not a min-heap. |
| `Frequency.Scanned` | Huffman/huffman.c:72-87 | The arena and `leaves[]` after the scan of `input`: the sentinel first, then a new leaf of weight 1 for a byte whose slot is NULL and one more on its leaf's weight otherwise. It has at least the sentinel, 257 slots, and every non-NULL slot names a node. `ScannedTable` states the resulting table, and `Huffman.Builder.ScanFrequencies` is proved equal to it. |
| `Frequency.SentinelTable` | Huffman/huffman.c:72-73 | Right after the sentinel is created, the leaf table holds it alone for the empty input. |
| `Frequency.ScanNewLeaf` | Huffman/huffman.c:80-83 | A byte whose slot is NULL gets a new leaf of weight 1 with its letter, and the table then describes the longer input. |
| `Frequency.ScanSeenAgain` | Huffman/huffman.c:84-86 | A byte seen again adds one to its leaf's weight, and the table then describes the longer input. |
| `Frequency.ScannedSnoc` | Huffman/huffman.c:76-87 | One more byte read keeps the scan invariant: all nodes are leaves, `leaves[c]` is non-NULL exactly for the bytes that occur, each weight is its byte's count, and the weights add up to the bytes read. |
| `Frequency.ScannedTable` | Huffman/huffman.c:72-87 | After the whole scan, that invariant holds for the whole input. |
| `Frequency.TableSymbols` | Huffman/huffman.c:76-86 | The non-NULL slots are exactly the bytes that occur, plus the sentinel. |
| `Frequency.LeafIdsArePermutation` | Huffman/huffman.c:89-100 | The ids in the non-NULL slots are a permutation of the ids of the scanned leaves, so the fill stores each leaf exactly once. |
| `Forest.InitialForest` | Huffman/huffman.c:89-100 | After the fill, the arena is a forest of single leaves. Each leaf is a live root that owns itself, and their number equals the number of nodes. |
| `Forest.MergeStep` | Huffman/huffman.c:108-112 | Joining two distinct live roots under a node weighing their sum keeps the arena well formed: children first, zero or two children, sums hold, nothing shared, leaves first. The live roots become the old ones less the two, plus the new node. |
| `Forest.WeightIsLeafSum` | Huffman/huffman.c:110 | Every node weighs what the leaves below it weigh together. |
| `Forest.LeafOrderIsRange` | Huffman/huffman.c:220-234 | The leaves `printCode` reaches from the final root are exactly the scanned leaves, each once. |
| `Forest.RootWeight` | Huffman/huffman.c:107-116 | The final root weighs the length of the input, and one record is printed per scanned leaf. |
| `Forest.SymbolListed` | Huffman/huffman.c:220-244 | Every byte that occurs, and the sentinel, gets a printed record. |
| `Forest.LettersDistinct` | Huffman/huffman.c:220-244 | No letter is printed twice. |
| `Forest.EmptyInputTable` | Huffman/huffman.c:233-243 | For an empty input, the only record is the sentinel's, with weight 0 and the empty code. |
| `Forest.NonEmptyInputCodes` | Huffman/huffman.c:220-231 | For a non-empty input, the root has children, so every printed code has at least one bit. |
| `Forest.CodeTableCorrect` | Huffman/huffman.c:220-244 | The printed table of the final tree has one record per symbol, each carrying the symbol's count. Letters are distinct and codes prefix-free. Each code leads from the root to its letter's leaf. |
| `Merge.Joined` | Huffman/huffman.c:110-111 | The joined node is appended with the two nodes as children, their summed weight and letter `'$'`. Existing nodes keep their letters, weights and children. |
| `Merge.Combine` | Huffman/huffman.c:108-112 | One round adds one node and leaves one live slot fewer, all holding arena ids. |
| `Merge.Merged` | Huffman/huffman.c:107-113 | The merge loop as rounds of `Combine` until one live slot is left. It appends one node per round, and the live slot holds a node of the arena. `MergedTree` states the tree it ends with, and `Huffman.Builder.MergeAll` is proved equal to it. |
| `Merge.CombineSlots` | Huffman/huffman.c:108-112 | A round joins two distinct live nodes: the first, then the first once that one is removed. The live slots then hold the others plus the new node. |
| `Merge.CombineKeeps` | Huffman/huffman.c:107-113 | A round keeps the merge invariant: a well-formed forest whose live roots are the live slots, with one more node per round. |
| `Merge.MergedKeeps` | Huffman/huffman.c:107-113 | The invariant holds when the loop ends with one live slot. |
| `Merge.MergedInduction` | Huffman/huffman.c:107 | A property that every round keeps holds when the loop ends. |
| `Merge.MergedGrows` | Huffman/huffman.c:107-113 | The loop only appends nodes and never changes an existing node's letter, weight or children. |
| `Merge.OneRootLeft` | Huffman/huffman.c:107 | With one live root left, that root's subtree holds every node of the arena. |
| `Merge.MergedTree` | Huffman/huffman.c:107-113 | The loop ends with one full tree over exactly the scanned leaves, and the leaf weights still add up to the input length. |
| `Merge.MergeStart` | Huffman/huffman.c:89-100 | Leaves placed in the first slots, in any order, start the merge invariant. |
| `Fill.Filled` | Huffman/huffman.c:89-100 | `heap[]` after the fill: the slots of `leaves[]` in order, each non-NULL one inserted as by `insert`. The first slots, as many as there are non-NULL leaves, hold arena ids. |
| `Fill.FilledPermutes` | Huffman/huffman.c:89-100 | The fill stores exactly the nodes of the non-NULL slots in the first slots of `heap[]` and leaves the slots above them as they were. |
| `Merge.Built` | Huffman/huffman.c:72-113 | The arena and `heap[]` once `main` has scanned the input, filled `heap[]` and merged: 257 slots, the first holding the root of the arena's tree. |
| `Merge.PipelineCorrect` | Huffman/huffman.c:72-116 | Scanning, filling and merging give a tree whose root weighs the input length. Its printed table is a code table for the input that decodes along the tree. |
| `Merge.BuiltIsMerged` | Huffman/huffman.c:89-107 | The fill stores one id per node of the scanned arena, so `heap_count` starts the merge loop at the number of nodes, every one of them a live leaf. |
| `Merge.BuiltCorrect` | Huffman/huffman.c:72-116 | After the scan, the fill and the merge loop, the root in slot 0 weighs the input length, and its printed table is a code table for the input that decodes along the tree. |
| `Huffman.Builder.constructor` | Huffman/huffman.c:32-36 | The globals as the program starts: every `leaves` slot NULL, `heap_count` 0, no node allocated. |
| `Huffman.Builder.BalanceTree` | Huffman/huffman.c:132-145 | The array afterwards is `SiftUp` of the array before. |
| `Huffman.Builder.ReverseBalance` | Huffman/huffman.c:174-195 | The array afterwards is `SiftDown` of the array before. |
| `Huffman.Builder.RemoveFirst` | Huffman/huffman.c:155-164 | Returns the old slot 0, lowers `heap_count` by one, and leaves the array as `AfterRemoveFirst`. |
| `Huffman.Builder.Insert` | Huffman/huffman.c:205-209 | Raises `heap_count` by one and leaves the array as `AfterInsert`. |
| `Huffman.Builder.ScanFrequencies` | Huffman/huffman.c:72-87 | The arena and `leaves` end as `Scanned(input)`. |
| `Huffman.Builder.ScanByte` | Huffman/huffman.c:76-86 | One pass of the scan loop takes the state of one prefix to that of the next. |
| `Huffman.Builder.FillHeap` | Huffman/huffman.c:89-100 | `heap_count` ends as the number of non-NULL leaves, and `heap[]` ends as `Filled` of the array before, so its arrangement is fixed. The live slots hold exactly those leaves' ids. |
| `Huffman.Builder.MergeRound` | Huffman/huffman.c:108-112 | The arena and the array end as `Combine` of the old ones, and `heap_count` drops by one. |
| `Huffman.Builder.MergeAll` | Huffman/huffman.c:107-113 | The loop ends with `heap_count == 1`, and the arena and array are `Merged` of the old ones. |
| `Huffman.Builder.PrintBits` | Huffman/huffman.c:263-271 | Returns the first `top` entries of the code buffer. |
| `Huffman.Builder.PrintCode` | Huffman/huffman.c:220-244 | Prints the records `Emit` gives for the path held in `code[0..top)`, and leaves that part of the buffer as it was. |
| `Huffman.Builder.BuildTree` | Huffman/huffman.c:72-113 | The arena and `heap[]` end as `Built` from the input and the array before, with `heap_count` 1, and `leaves[]` ends as the table of `Scanned(input)`. |
| `Huffman.Builder.Run` | Huffman/huffman.c:54-122 | The arena and `heap[]` end as `Built` from the input and the array before, so the printed table is determined. `leaves[]` ends as the table of `Scanned(input)`, the one `main` hands to `pack`. The root weighs the input length. The result is absent exactly when the tree is deeper than `MAX_TREE_HT`. Otherwise it is the printed table, a prefix-free code table for the input that decodes along the tree. |

## Left out

- File and command-line handling (`fopen`, `fscanf`, `fclose`, `argv`) is not modelled. The input is a sequence of bytes passed to `Run`.
- `pack(...)` is not part of this model: its code is not available, so no compressed output or decoding round trip is modelled.
- Printing is modelled as returned records. The `isprint` versus `%03o` formatting and the newline are left out.
- `malloc` and `assert` failure paths are left out: allocation is an append to the arena.
- `free` is left out: `destroyTree` is modelled by the order in which it frees nodes, not by releasing them.
- Characters are modelled as unsigned bytes 0..255. With a signed `char`, a byte of 128 or more would index `leaves[]` with a negative number in the C code.
- Node weights and `heap_count` are unbounded integers. The model does not capture `int` overflow.
- `Huffman.Builder.Run` returns no table when the tree is deeper than `MAX_TREE_HT` (100). There the C code would write past the end of `code[]`.
- `Tree.AfterCreate` does not specify the new node's letter, because `createTree` leaves it uninitialised. Every caller sets it right away.
- Parent links are stored and updated as in the source, but nothing in the model follows them.
- The contents of `code[]` past the path being printed are not specified after `Huffman.Builder.PrintCode` or `Huffman.Builder.Run`. The program never reads that part of the buffer again.
- Tree.DestroyFreesSubtreeOnce covers only arenas where every child was created before its parent, and none where a node is shared. `createTree` alone builds only such ordered arenas (`Tree.CreateKeepsOrdered`), and the builder makes no others. An acyclic tree that `setLeft` or `setRight` links the other way round is not covered, although `destroyTree` frees it correctly.
- Tree.DestroyOrder is defined only on arenas where every child was created before its parent; that order is what bounds its recursion. `createTree` alone builds only such arenas (`Tree.CreateKeepsOrdered`), and the builder makes no others. An acyclic tree that `setLeft` or `setRight` links the other way round is not covered, although `destroyTree` frees it.
- `Huffman.Builder.ReverseBalance` folds the two C branches into one choice of child followed by the same exchange and recursive call. The behaviour is the same.
- Optimality of the code lengths and min-extraction from the heap are not claimed, because the heap routines as written do not keep heap order.
