/** The merge loop of Huffman/huffman.c (lines 107-113) on values: the arena
 *  and the contents of `heap[]` before and after each round, and the proof
 *  that the rounds end in a single tree over all the leaves. */
module Merge {
  import opened Tree
  import opened Codes
  import opened Frequency
  import opened Heap
  import opened Forest
  import opened Fill

  /** `(int)'$'`, the letter stored in every merged node. */
  const MERGED_LETTER := 36

  /** The arena and the contents of `heap[]` during the merge loop. */
  datatype MergeState = MergeState(nodes: seq<Node>, heap: seq<nat>)

  /** `l->data + r->data`, the weight of the node that joins `l` and `r`. */
  function JoinedWeight(nodes: seq<Node>, l: nat, r: nat): int
    requires l < |nodes| && r < |nodes|
  {
    nodes[l].data + nodes[r].data
  }

  /** The arena after `createTree(l->data + r->data, l, r)` and the letter
   *  assignment: a new last node over `l` and `r` weighing their sum. */
  function Joined(nodes: seq<Node>, l: nat, r: nat): (nodes': seq<Node>)
    requires l < |nodes| && r < |nodes|
    ensures Grows(nodes, nodes') && |nodes'| == |nodes| + 1
    ensures nodes'[|nodes|].left == Some(l) && nodes'[|nodes|].right == Some(r)
    ensures nodes'[|nodes|].data == nodes[l].data + nodes[r].data
    ensures nodes'[|nodes|].letter == MERGED_LETTER
  {
    var created := AfterCreate(nodes, JoinedWeight(nodes, l, r), Some(l), Some(r));
    created[|nodes| := created[|nodes|].(letter := MERGED_LETTER)]
  }

  /** One round with `n` live slots: remove the first node, then the new
   *  first node, join them, insert the join.  The live slots drop to
   *  `n - 1`. */
  function Combine(nodes: seq<Node>, h: seq<nat>, n: nat): (st: MergeState)
    requires 2 <= n <= |h| && Links(h, nodes, n)
    ensures |st.nodes| == |nodes| + 1 && |st.heap| == |h|
    ensures Links(st.heap, st.nodes, n - 1)
  {
    RemoveFirstLinks(h, nodes, n);
    var h1 := AfterRemoveFirst(h, nodes, n);
    RemoveFirstLinks(h1, nodes, n - 1);
    var h2 := AfterRemoveFirst(h1, nodes, n - 1);
    var nodes' := Joined(nodes, h[0], h1[0]);
    InsertLinks(h2, nodes', n - 2, |nodes|);
    MergeState(nodes', AfterInsert(h2, nodes', n - 2, |nodes|))
  }

  /** The loop `while (heap_count > 1)`: rounds until one live slot is left.
   *  Each round adds one node, so `n` live slots end with `n - 1` new
   *  nodes. */
  function Merged(nodes: seq<Node>, h: seq<nat>, n: nat): (st: MergeState)
    requires 1 <= n <= |h| && Links(h, nodes, n)
    ensures |st.nodes| == |nodes| + n - 1 && |st.heap| == |h| && st.heap[0] < |st.nodes|
    decreases n
  {
    if n == 1 then MergeState(nodes, h)
    else
      var st := Combine(nodes, h, n);
      Merged(st.nodes, st.heap, n - 1)
  }

  /** The shape the merge loop keeps when the scan produced `k` leaves: the
   *  arena is a well-formed forest whose live roots are the `n` live slots,
   *  and every round so far added one node. */
  ghost predicate MergeInvariant(st: MergeState, n: nat, k: nat, owner: seq<nat>)
    requires n <= |st.heap|
  {
    Arena(st.nodes) && LeavesFirst(st.nodes, k) &&
    Forest.Forest(st.nodes, multiset(st.heap[..n]), owner) && |st.nodes| + n == 2 * k
  }

  /** The nodes a round joins: the first live node, then the first live
   *  node once that one is removed; two distinct entries of the live slots.
   *  The live slots then hold the others and the join. */
  lemma CombineSlots(nodes: seq<Node>, h: seq<nat>, n: nat)
    requires 2 <= n <= |h| && Links(h, nodes, n)
    ensures var l := h[0];
      var r := (RemoveFirstLinks(h, nodes, n); AfterRemoveFirst(h, nodes, n)[0]);
      l in multiset(h[..n]) && r in multiset(h[..n]) - multiset{l} &&
      multiset(Combine(nodes, h, n).heap[..n - 1])
        == multiset(h[..n]) - multiset{l} - multiset{r} + multiset{|nodes|}
  {
    RemoveFirstLinks(h, nodes, n);
    var h1 := AfterRemoveFirst(h, nodes, n);
    assert h[..n][0] == h[0];
    assert h1[..n - 1][0] == h1[0];
  }

  /** A round keeps the shape: the two removed roots are distinct live
   *  roots, and the join replaces them by one. */
  lemma CombineKeeps(st: MergeState, n: nat, k: nat, owner: seq<nat>) returns (owner': seq<nat>)
    requires 2 <= n <= |st.heap| && Links(st.heap, st.nodes, n)
    requires MergeInvariant(st, n, k, owner)
    ensures MergeInvariant(Combine(st.nodes, st.heap, n), n - 1, k, owner')
  {
    var nodes, h := st.nodes, st.heap;
    CombineSlots(nodes, h, n);
    RemoveFirstLinks(h, nodes, n);
    var l, r := h[0], AfterRemoveFirst(h, nodes, n)[0];
    MergeStep(nodes, Joined(nodes, l, r), multiset(h[..n]), owner, k, l, r);
    owner' := Reown(owner, l, r);
  }

  /** Induction over the rounds of the loop: a property of the state that
   *  holds at the start and that every round keeps holds at the end. */
  lemma {:induction false} MergedInduction(st: MergeState, n: nat, P: (MergeState, nat) -> bool)
    requires 1 <= n <= |st.heap| && Links(st.heap, st.nodes, n)
    requires P(st, n)
    requires forall s: MergeState, m: nat :: 2 <= m <= |s.heap| && Links(s.heap, s.nodes, m) && P(s, m) ==>
      P(Combine(s.nodes, s.heap, m), m - 1)
    ensures P(Merged(st.nodes, st.heap, n), 1)
    decreases n
  {
    if n > 1 {
      var c := Combine(st.nodes, st.heap, n);
      MergedInduction(c, n - 1, P);
    }
  }

  /** Some ownership makes the state a forest of the expected shape. */
  ghost predicate Shaped(k: nat, st: MergeState, n: nat)
  {
    n <= |st.heap| && exists owner :: MergeInvariant(st, n, k, owner)
  }

  /** A round keeps the shape, for some new ownership. */
  lemma RoundKeepsShape(k: nat, st: MergeState, n: nat)
    requires 2 <= n <= |st.heap| && Links(st.heap, st.nodes, n) && Shaped(k, st, n)
    ensures Shaped(k, Combine(st.nodes, st.heap, n), n - 1)
  {
    var owner :| MergeInvariant(st, n, k, owner);
    var owner' := CombineKeeps(st, n, k, owner);
  }

  /** Every round keeps the shape. */
  lemma RoundsKeepShape(k: nat)
    ensures forall st: MergeState, n: nat :: 2 <= n <= |st.heap| && Links(st.heap, st.nodes, n) && Shaped(k, st, n) ==>
      Shaped(k, Combine(st.nodes, st.heap, n), n - 1)
  {
    forall st: MergeState, n: nat | 2 <= n <= |st.heap| && Links(st.heap, st.nodes, n) && Shaped(k, st, n)
      ensures Shaped(k, Combine(st.nodes, st.heap, n), n - 1)
    {
      RoundKeepsShape(k, st, n);
    }
  }

  /** The loop keeps the shape to its end, where one live slot is left. */
  lemma MergedKeeps(st: MergeState, n: nat, k: nat, owner: seq<nat>) returns (owner': seq<nat>)
    requires 1 <= n <= |st.heap| && Links(st.heap, st.nodes, n)
    requires MergeInvariant(st, n, k, owner)
    ensures MergeInvariant(Merged(st.nodes, st.heap, n), 1, k, owner')
  {
    RoundsKeepShape(k);
    MergedInduction(st, n, (s: MergeState, m: nat) => Shaped(k, s, m));
    owner' :| MergeInvariant(Merged(st.nodes, st.heap, n), 1, k, owner');
  }

  lemma GrowsTrans(a: seq<Node>, b: seq<Node>, c: seq<Node>)
    requires Grows(a, b) && Grows(b, c)
    ensures Grows(a, c)
  {
  }

  /** The loop only appends nodes: it never changes the letter, the weight
   *  or the links of a node that exists. */
  lemma {:induction false} MergedGrows(nodes: seq<Node>, h: seq<nat>, n: nat)
    requires 1 <= n <= |h| && Links(h, nodes, n)
    ensures Grows(nodes, Merged(nodes, h, n).nodes)
    decreases n
  {
    if n > 1 {
      var c := Combine(nodes, h, n);
      MergedGrows(c.nodes, c.heap, n - 1);
      GrowsTrans(nodes, c.nodes, Merged(nodes, h, n).nodes);
    }
  }

  /** With one live root left, that root's subtree is the whole arena. */
  lemma OneRootLeft(st: MergeState, k: nat, owner: seq<nat>)
    requires 1 <= |st.heap| && MergeInvariant(st, 1, k, owner)
    ensures forall x :: 0 <= x < |st.nodes| ==> x in Subtree(st.nodes, st.heap[0])
  {
    assert st.heap[..1] == [st.heap[0]];
    forall x | 0 <= x < |st.nodes|
      ensures x in Subtree(st.nodes, st.heap[0])
    {
      assert owner[x] in multiset(st.heap[..1]);
    }
  }

  /** The loop ends with one tree holding every node of the arena, over the
   *  `k` leaves of the scan, with the weights still summing to the input's
   *  length. */
  lemma MergedTree(st: MergeState, n: nat, k: nat, leaves: seq<Option<nat>>, input: seq<Byte>, owner: seq<nat>)
    requires 1 <= n <= |st.heap| && Links(st.heap, st.nodes, n)
    requires MergeInvariant(st, n, k, owner)
    requires LeafTable(st.nodes, k, leaves, input) && SumData(st.nodes, Range(k)) == |input|
    ensures FinalTree(Merged(st.nodes, st.heap, n).nodes, k, leaves, input, Merged(st.nodes, st.heap, n).heap[0])
    ensures SumData(Merged(st.nodes, st.heap, n).nodes, Range(k)) == |input|
  {
    var fin := Merged(st.nodes, st.heap, n);
    var owner' := MergedKeeps(st, n, k, owner);
    OneRootLeft(fin, k, owner');
    MergedGrows(st.nodes, st.heap, n);
    LeafTableGrows(st.nodes, fin.nodes, k, leaves, input);
    SumDataGrows(st.nodes, fin.nodes, k);
  }

  /** The leaves, placed in the first slots of `heap[]` in any order, make
   *  the starting state of the merge loop, with one live slot per node. */
  lemma MergeStart(input: seq<Byte>, h: seq<nat>)
    requires |LeafIds(Scanned(input).leaves)| <= |h|
    requires multiset(h[..|LeafIds(Scanned(input).leaves)|]) == multiset(LeafIds(Scanned(input).leaves))
    ensures |LeafIds(Scanned(input).leaves)| == |Scanned(input).nodes|
    ensures Links(h, Scanned(input).nodes, |Scanned(input).nodes|)
    ensures var st := Scanned(input); var k := |st.nodes|;
      MergeInvariant(MergeState(st.nodes, h), k, k, Range(k)) && LeafTable(st.nodes, k, st.leaves, input) &&
      SumData(st.nodes, Range(k)) == |input|
  {
    var st := Scanned(input);
    var k := |st.nodes|;
    ScannedTable(input);
    InitialForest(st.nodes, st.leaves, input);
    forall j | 0 <= j < k
      ensures h[j] < |st.nodes|
    {
      assert h[..k][j] == h[j];
      assert h[j] in multiset(h[..k]);
    }
  }

  /** The arena and `heap[]` once `main` has scanned `input`, filled `heap[]`
   *  (whose 257 slots held `h`) and run the merge loop: one live slot, the
   *  root of the tree `printCode` is called on. */
  function Built(input: seq<Byte>, h: seq<nat>): (st: MergeState)
    requires |h| == 257
    ensures |st.heap| == 257 && st.heap[0] < |st.nodes|
  {
    var st := Scanned(input);
    var h1 := Filled(h, st.nodes, st.leaves);
    FilledPermutes(h, st.nodes, st.leaves);
    MergeStart(input, h1);
    Merged(st.nodes, h1, |st.nodes|)
  }

  /** Scanning `input`, placing the leaves in `heap[]` and merging builds a
   *  tree whose weight is the input's length and whose printed table is a
   *  code table for `input` that decodes along the tree. */
  lemma PipelineCorrect(input: seq<Byte>, h: seq<nat>)
    requires |LeafIds(Scanned(input).leaves)| <= |h|
    requires multiset(h[..|LeafIds(Scanned(input).leaves)|]) == multiset(LeafIds(Scanned(input).leaves))
    ensures |LeafIds(Scanned(input).leaves)| == |Scanned(input).nodes|
    ensures Links(h, Scanned(input).nodes, |Scanned(input).nodes|)
    ensures var st := Scanned(input); var fin := Merged(st.nodes, h, |st.nodes|);
      Ordered(fin.nodes) && fin.nodes[fin.heap[0]].data == |input| &&
      CodeTable(Emit(fin.nodes, fin.heap[0], []), input) && Decodes(fin.nodes, fin.heap[0], Emit(fin.nodes, fin.heap[0], []))
  {
    var st := Scanned(input);
    var k := |st.nodes|;
    MergeStart(input, h);
    MergedTree(MergeState(st.nodes, h), k, k, st.leaves, input, Range(k));
    var fin := Merged(st.nodes, h, k);
    CodeTableCorrect(fin.nodes, k, st.leaves, input, fin.heap[0]);
  }

  /** The fill stores one id per node of the scanned arena, so `Built` is the
   *  merge loop started with every node live. */
  lemma BuiltIsMerged(input: seq<Byte>, h: seq<nat>)
    requires |h| == 257
    ensures |LeafIds(Scanned(input).leaves)| == |Scanned(input).nodes|
    ensures var st := Scanned(input); var h1 := Filled(h, st.nodes, st.leaves);
      Links(h1, st.nodes, |st.nodes|) && Built(input, h) == Merged(st.nodes, h1, |st.nodes|)
  {
    var st := Scanned(input);
    ScannedTable(input);
    LeafIdsArePermutation(st.nodes, |st.nodes|, st.leaves, input);
  }

  /** What `main` prints from: after the scan, the fill of `heap[]` (whose 257
   *  slots held `h`) and the merge loop, the root in slot 0 weighs the
   *  input's length and its printed table is a code table for `input` that
   *  decodes along the tree. */
  lemma BuiltCorrect(input: seq<Byte>, h: seq<nat>)
    requires |h| == 257
    ensures var fin := Built(input, h);
      Ordered(fin.nodes) && fin.nodes[fin.heap[0]].data == |input| &&
      CodeTable(Emit(fin.nodes, fin.heap[0], []), input) && Decodes(fin.nodes, fin.heap[0], Emit(fin.nodes, fin.heap[0], []))
  {
    var st := Scanned(input);
    FilledPermutes(h, st.nodes, st.leaves);
    PipelineCorrect(input, Filled(h, st.nodes, st.leaves));
  }
}
