/** The driver and the heap routines of Huffman/huffman.c.  The program's
 *  globals (`leaves[257]`, `heap[257]`, `heap_count`, the `code` buffer) are
 *  the fields of a `Builder`; the nodes live in its `Store`.  Each method does
 *  what the C function of the same name does, step by step, and is proved
 *  against the functions of the `Heap`, `Codes` and `Forest` modules. */
module Huffman {
  import opened Tree
  import opened Codes
  import opened Frequency
  import opened Heap
  import opened Forest
  import opened Fill
  import opened Merge

  /** `MAX_TREE_HT`, the number of entries of the `code` buffer. */
  const MAX_TREE_HT := 100

  class Builder {
    const store: Store
    const leaves: array<Option<nat>>
    const heap: array<nat>
    var heapCount: nat
    const code: array<Bit>

    ghost predicate Valid()
      reads this
    {
      leaves.Length == 257 && heap.Length == 257 && code.Length == MAX_TREE_HT && heapCount <= 257
    }

    /** The globals as the C program starts: every slot of `leaves` NULL,
     *  `heap_count` 0, no node allocated. */
    constructor ()
      ensures Valid() && heapCount == 0 && store.nodes == []
      ensures forall c :: 0 <= c < 257 ==> leaves[c].None?
      ensures fresh(store) && fresh(leaves) && fresh(heap) && fresh(code)
    {
      store := new Store();
      leaves := new Option<nat>[257](_ => None);
      heap := new nat[257](_ => 0);
      code := new Bit[MAX_TREE_HT](_ => 0);
      heapCount := 0;
    }

    /** `balanceTree(index)`. */
    method BalanceTree(index: nat)
      requires Valid() && index < heap.Length && Links(heap[..], store.nodes, index + 1)
      modifies heap
      ensures heap[..] == SiftUp(old(heap[..]), store.nodes, index)
      decreases index
    {
      var parent := CParent(index);
      if store.nodes[heap[index]].data > store.nodes[heap[parent]].data || parent == 0 {
        return;
      }
      var temp := heap[parent];
      heap[parent] := heap[index];
      heap[index] := temp;
      assert heap[..] == Swap(old(heap[..]), parent, index);
      BalanceTree(parent);
    }

    /** `reverseBalance(index)`; the right child is read even when its slot is
     *  `heap_count`, so the live region plus that one slot is required to hold
     *  node ids. */
    method ReverseBalance(index: nat)
      requires Valid() && heapCount < heap.Length && index <= heapCount
      requires Links(heap[..], store.nodes, heapCount + 1)
      modifies heap
      ensures heap[..] == SiftDown(old(heap[..]), store.nodes, heapCount, index)
      decreases heapCount - index
    {
      if 2 * index + 1 >= heapCount {
        return;
      }
      ghost var h0 := heap[..];
      var child := if store.nodes[heap[2 * index + 1]].data < store.nodes[heap[2 * index + 2]].data
        then 2 * index + 1 else 2 * index + 2;
      SiftDownStep(h0, store.nodes, heapCount, index, child);
      var temp := heap[child];
      heap[child] := heap[index];
      heap[index] := temp;
      assert heap[..] == Swap(h0, index, child);
      ReverseBalance(child);
    }

    /** `removeFirst()`: returns the node in slot 0; the live region loses
     *  exactly that node. */
    method RemoveFirst() returns (first: nat)
      requires Valid() && 1 <= heapCount && Links(heap[..], store.nodes, heapCount)
      modifies this, heap
      ensures Valid() && heapCount == old(heapCount) - 1
      ensures first == old(heap[0])
      ensures heap[..] == AfterRemoveFirst(old(heap[..]), store.nodes, old(heapCount))
      ensures Links(heap[..], store.nodes, heapCount)
    {
      ghost var h0 := heap[..];
      first := heap[0];
      heap[0] := heap[heapCount - 1];
      heapCount := heapCount - 1;
      ReverseBalance(0);
      RemoveFirstLinks(h0, store.nodes, heapCount + 1);
    }

    /** `insert(new_tree)`: store `id` in the first free slot and move it
     *  up. */
    method Insert(id: nat)
      requires Valid() && heapCount < heap.Length && Links(heap[..], store.nodes, heapCount)
      requires id < |store.nodes|
      modifies this, heap
      ensures Valid() && heapCount == old(heapCount) + 1
      ensures heap[..] == AfterInsert(old(heap[..]), store.nodes, old(heapCount), id)
      ensures Links(heap[..], store.nodes, heapCount)
    {
      ghost var h0 := heap[..];
      heap[heapCount] := id;
      assert heap[..] == h0[heapCount := id];
      BalanceTree(heapCount);
      heapCount := heapCount + 1;
      InsertLinks(h0, store.nodes, heapCount - 1, id);
    }

    /** The scan of lines 72-87 of huffman.c: the sentinel leaf, then one
     *  leaf per distinct byte, counted. */
    method ScanFrequencies(input: seq<Byte>)
      requires Valid() && store.nodes == [] && forall c :: 0 <= c < 257 ==> leaves[c].None?
      modifies store, leaves
      ensures store.nodes == Scanned(input).nodes && leaves[..] == Scanned(input).leaves
    {
      var sentinel := store.CreateTree(0, None, None);
      store.SetLetter(sentinel, SENTINEL);
      leaves[SENTINEL] := Some(sentinel);
      assert leaves[..] == Scanned([]).leaves;
      var i := 0;
      while i < |input|
        invariant 0 <= i <= |input|
        invariant store.nodes == Scanned(input[..i]).nodes && leaves[..] == Scanned(input[..i]).leaves
      {
        ScanByte(input, i);
        i := i + 1;
      }
      assert input[..|input|] == input;
    }

    /** One pass of the scan loop (lines 76-86): a new leaf of weight 1 for a
     *  byte whose slot is NULL, one more on the weight of its leaf otherwise. */
    method ScanByte(input: seq<Byte>, i: nat)
      requires Valid() && i < |input|
      requires store.nodes == Scanned(input[..i]).nodes && leaves[..] == Scanned(input[..i]).leaves
      modifies store, leaves
      ensures store.nodes == Scanned(input[..i + 1]).nodes && leaves[..] == Scanned(input[..i + 1]).leaves
    {
      var ch := input[i];
      ghost var nodes0 := store.nodes;
      ScannedNext(input, i);
      if leaves[ch] == None {
        var t := store.CreateTree(1, None, None);
        assert store.nodes == nodes0 + [Node(0, 1, None, None, None)];
        store.SetLetter(t, ch);
        assert store.nodes == nodes0 + [Node(ch, 1, None, None, None)];
        leaves[ch] := Some(t);
      } else {
        store.IncData(leaves[ch].value);
      }
    }

    /** The fill of lines 89-100: every non-NULL leaf, in slot order, goes
     *  through the body of `insert`. */
    method FillHeap()
      requires Valid()
      requires forall c :: 0 <= c < 257 && leaves[c].Some? ==> leaves[c].value < |store.nodes|
      modifies this, heap
      ensures Valid() && heapCount == |LeafIds(leaves[..])|
      ensures heap[..] == Filled(old(heap[..]), store.nodes, leaves[..])
      ensures multiset(heap[..heapCount]) == multiset(LeafIds(leaves[..]))
      ensures Links(heap[..], store.nodes, heapCount)
    {
      ghost var ls := leaves[..];
      ghost var h0 := heap[..];
      heapCount := 0;
      for i := 0 to 257
        invariant Valid() && heapCount <= i
        invariant heapCount == |LeafIds(ls[..i])|
        invariant heap[..] == Filled(h0, store.nodes, ls[..i])
      {
        LeafIdsPrefix(ls, i);
        assert ls[..i + 1][..i] == ls[..i];
        if leaves[i] != None {
          Insert(leaves[i].value);
        }
      }
      assert ls[..257] == ls;
      FilledPermutes(h0, store.nodes, ls);
    }

    /** One pass of the merge loop's body (lines 108-112 of huffman.c): take
     *  the first two nodes out, join them under a new node weighing their
     *  sum, mark it `'$'`, put it back. */
    method MergeRound()
      requires Valid() && 2 <= heapCount && Links(heap[..], store.nodes, heapCount)
      modifies this, heap, store
      ensures Valid() && heapCount == old(heapCount) - 1
      ensures store.nodes == Combine(old(store.nodes), old(heap[..]), old(heapCount)).nodes
      ensures heap[..] == Combine(old(store.nodes), old(heap[..]), old(heapCount)).heap
    {
      ghost var nodes0, h0, n0 := store.nodes, heap[..], heapCount;
      var tempLeft := RemoveFirst();
      ghost var h1 := heap[..];
      var tempRight := RemoveFirst();
      ghost var h2 := heap[..];
      var newTree := store.CreateTree(JoinedWeight(store.nodes, tempLeft, tempRight), Some(tempLeft), Some(tempRight));
      store.SetLetter(newTree, MERGED_LETTER);
      assert store.nodes == Joined(nodes0, h0[0], h1[0]);
      Insert(newTree);
      assert heap[..] == AfterInsert(h2, Joined(nodes0, h0[0], h1[0]), n0 - 2, |nodes0|);
    }

    /** The merge loop of lines 107-113: rounds until one node is left. */
    method MergeAll()
      requires Valid() && 1 <= heapCount && Links(heap[..], store.nodes, heapCount)
      modifies this, heap, store
      ensures Valid() && heapCount == 1
      ensures store.nodes == Merged(old(store.nodes), old(heap[..]), old(heapCount)).nodes
      ensures heap[..] == Merged(old(store.nodes), old(heap[..]), old(heapCount)).heap
    {
      ghost var fin := Merged(store.nodes, heap[..], heapCount);
      while heapCount > 1
        invariant Valid() && 1 <= heapCount && Links(heap[..], store.nodes, heapCount)
        invariant Merged(store.nodes, heap[..], heapCount) == fin
        decreases heapCount
      {
        MergeRound();
      }
    }

    /** `printBits(top)`: the first `top` entries of the code buffer. */
    method PrintBits(top: nat) returns (bits: seq<Bit>)
      requires Valid() && top <= code.Length
      ensures bits == code[..top]
    {
      bits := [];
      for i := 0 to top
        invariant bits == code[..i]
      {
        bits := bits + [code[i]];
      }
    }

    /** `printCode(root, code, top)`: the lines printed are those of `Emit`
     *  with the path held in `code[0..top)`, which is left as it was.  The
     *  deepest write is `code[top + Height - 1]`, so the buffer must be that
     *  long. */
    method PrintCode(root: nat, top: nat) returns (out: seq<Record>)
      requires Valid() && Ordered(store.nodes) && root < |store.nodes|
      requires top + Height(store.nodes, root) <= code.Length
      modifies code
      ensures out == Emit(store.nodes, root, old(code[..top]))
      ensures code[..top] == old(code[..top])
      decreases root
    {
      ghost var path := code[..top];
      var node := store.nodes[root];
      var left: seq<Record> := [];
      if node.left.Some? {
        code[top] := 0;
        assert code[..top + 1] == path + [0];
        left := PrintCode(node.left.value, top + 1);
        assert code[..top] == code[..top + 1][..top];
      }
      assert left == if node.left.Some? then Emit(store.nodes, node.left.value, path + [0]) else [];
      assert code[..top] == path;
      var right: seq<Record> := [];
      if node.right.Some? {
        code[top] := 1;
        assert code[..top + 1] == path + [1];
        right := PrintCode(node.right.value, top + 1);
        assert code[..top] == code[..top + 1][..top];
      }
      assert right == if node.right.Some? then Emit(store.nodes, node.right.value, path + [1]) else [];
      var own: seq<Record> := [];
      if IsLeaf(store.nodes, root) {
        var bits := PrintBits(top);
        own := [Record(node.letter, node.data, bits)];
      }
      out := left + right + own;
    }

    /** Lines 72-113 of `main`: scan the input, fill `heap[]` and run the
     *  merge loop until one tree is left. */
    method BuildTree(input: seq<Byte>)
      requires Valid() && heapCount == 0 && store.nodes == []
      requires forall c :: 0 <= c < 257 ==> leaves[c].None?
      modifies this, store, leaves, heap
      ensures Valid() && heapCount == 1
      ensures store.nodes == Built(input, old(heap[..])).nodes && heap[..] == Built(input, old(heap[..])).heap
      ensures leaves[..] == Scanned(input).leaves
    {
      ghost var h0 := heap[..];
      BuiltIsMerged(input, h0);
      ScanFrequencies(input);
      label AfterScan:
      FillHeap();
      assert heapCount == |store.nodes|;
      MergeAll();
      assert unchanged@AfterScan(leaves);
      assert store.nodes == Built(input, h0).nodes;
    }

    /** `main` without the file handling: scan, fill, merge, print.  The
     *  result is None exactly when the tree is deeper than the code buffer,
     *  where the C code would write past it. */
    method Run(input: seq<Byte>) returns (table: Option<seq<Record>>)
      requires Valid() && heapCount == 0 && store.nodes == []
      requires forall c :: 0 <= c < 257 ==> leaves[c].None?
      modifies this, store, leaves, heap, code
      ensures Valid() && heapCount == 1 && heap[0] < |store.nodes| && Ordered(store.nodes)
      ensures store.nodes == Built(input, old(heap[..])).nodes && heap[..] == Built(input, old(heap[..])).heap
      ensures leaves[..] == Scanned(input).leaves
      ensures store.nodes[heap[0]].data == |input|
      ensures table.None? <==> Height(store.nodes, heap[0]) > MAX_TREE_HT
      ensures table.Some? ==> table.value == Emit(store.nodes, heap[0], [])
      ensures table.Some? ==> CodeTable(table.value, input) && Decodes(store.nodes, heap[0], table.value)
    {
      ghost var h0 := heap[..];
      BuildTree(input);
      BuiltCorrect(input, h0);
      var root := heap[0];
      if Height(store.nodes, root) <= MAX_TREE_HT {
        var lines := PrintCode(root, 0);
        assert old(code[..0]) == [];
        table := Some(lines);
      } else {
        table := None;
      }
    }
  }
}
