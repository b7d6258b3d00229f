/** What the merge loop of Huffman/huffman.c keeps true, and what the final
 *  tree then guarantees about the printed code table.
 *
 *  During the merge loop the live slots of `heap[]` hold the roots of a
 *  forest whose leaves are the nodes created by the frequency scan.  The
 *  ghost sequence `owner` names, for every node of the arena, the live root
 *  whose subtree holds it. */
module Forest {
  import opened Tree
  import opened Codes
  import opened Frequency

  /** Every node has either no child or two. */
  ghost predicate Full(nodes: seq<Node>)
  {
    forall i :: 0 <= i < |nodes| ==> (nodes[i].left.Some? <==> nodes[i].right.Some?)
  }

  /** Every inner node weighs what its two children weigh together. */
  ghost predicate SumsHold(nodes: seq<Node>)
    requires Ordered(nodes)
  {
    forall i :: 0 <= i < |nodes| && nodes[i].left.Some? && nodes[i].right.Some? ==>
      nodes[i].data == nodes[nodes[i].left.value].data + nodes[nodes[i].right.value].data
  }

  /** The shape of every arena the builder produces. */
  ghost predicate Arena(nodes: seq<Node>)
  {
    Ordered(nodes) && Full(nodes) && SumsHold(nodes) && NoSharing(nodes)
  }

  /** The leaves are exactly the first `k` nodes (those of the scan). */
  ghost predicate LeavesFirst(nodes: seq<Node>, k: nat)
  {
    k <= |nodes| && forall i :: 0 <= i < |nodes| ==> (IsLeaf(nodes, i) <==> i < k)
  }

  /** `b` is `a` after appending nodes and rewriting `parent` links only. */
  ghost predicate Grows(a: seq<Node>, b: seq<Node>)
  {
    |a| <= |b| &&
    forall i :: 0 <= i < |a| ==>
      b[i].letter == a[i].letter && b[i].data == a[i].data &&
      b[i].left == a[i].left && b[i].right == a[i].right
  }

  /** The live roots `m` are distinct nodes whose subtrees partition the
   *  arena, and `owner[x]` is the live root whose subtree holds `x`. */
  ghost predicate Forest(nodes: seq<Node>, m: multiset<nat>, owner: seq<nat>)
    requires Ordered(nodes)
  {
    |owner| == |nodes| &&
    (forall r :: r in m ==> r < |nodes| && m[r] == 1) &&
    (forall x :: 0 <= x < |nodes| ==> owner[x] in m && owner[x] < |nodes| && x in Subtree(nodes, owner[x])) &&
    (forall x, r :: 0 <= x < |nodes| && r in m && r < |nodes| && x in Subtree(nodes, r) ==> owner[x] == r)
  }

  /** Subtrees of existing nodes do not change as the arena grows. */
  lemma {:induction false} SubtreeFrame(a: seq<Node>, b: seq<Node>, id: nat)
    requires Ordered(a) && Ordered(b) && Grows(a, b) && id < |a|
    ensures Subtree(b, id) == Subtree(a, id)
    decreases id
  {
    var n := a[id];
    if n.left.Some? {
      SubtreeFrame(a, b, n.left.value);
    }
    if n.right.Some? {
      SubtreeFrame(a, b, n.right.value);
    }
  }

  /** An arena of leaves only has the builder's shape, and each of its
   *  subtrees is a single node. */
  lemma AllLeaves(nodes: seq<Node>)
    requires forall i :: 0 <= i < |nodes| ==> nodes[i].left.None? && nodes[i].right.None?
    ensures Arena(nodes) && LeavesFirst(nodes, |nodes|)
    ensures forall r :: 0 <= r < |nodes| ==> Subtree(nodes, r) == {r}
  {
    assert Ordered(nodes);
    forall r | 0 <= r < |nodes|
      ensures Subtree(nodes, r) == {r}
    {
    }
  }

  /** The arena right after the fill holds the scan's leaves and nothing else:
   *  every leaf is a live root that owns itself. */
  lemma InitialForest(nodes: seq<Node>, leaves: seq<Option<nat>>, input: seq<Byte>)
    requires LeafTable(nodes, |nodes|, leaves, input)
    ensures Arena(nodes) && LeavesFirst(nodes, |nodes|)
    ensures Forest(nodes, multiset(LeafIds(leaves)), Range(|nodes|))
    ensures |LeafIds(leaves)| == |nodes|
  {
    var k := |nodes|;
    LeafIdsArePermutation(nodes, k, leaves, input);
    AllLeaves(nodes);
    var m := multiset(LeafIds(leaves));
    forall r: nat
      ensures m[r] == if r < k then 1 else 0
    {
      RangeCount(k, r);
    }
    LeafForest(nodes, m);
  }

  /** Leaves that are all live roots, each owning itself, form a forest. */
  lemma LeafForest(nodes: seq<Node>, m: multiset<nat>)
    requires Ordered(nodes)
    requires forall r :: 0 <= r < |nodes| ==> Subtree(nodes, r) == {r}
    requires forall r: nat :: m[r] == if r < |nodes| then 1 else 0
    ensures Forest(nodes, m, Range(|nodes|))
  {
    var owner := Range(|nodes|);
    forall x | 0 <= x < |nodes|
      ensures owner[x] in m && owner[x] < |nodes| && x in Subtree(nodes, owner[x])
    {
      assert owner[x] == x;
      assert m[x] == 1;
    }
    forall x, r | 0 <= x < |nodes| && r in m && r < |nodes| && x in Subtree(nodes, r)
      ensures owner[x] == r
    {
      assert Subtree(nodes, r) == {r};
    }
  }

  /** The ownership after merging live roots `l` and `r` under the new node `n`:
   *  what they owned, and `n` itself, now belongs to `n`. */
  ghost function Reown(owner: seq<nat>, l: nat, r: nat): (o: seq<nat>)
    ensures |o| == |owner| + 1 && o[|owner|] == |owner|
    ensures forall x :: 0 <= x < |owner| ==>
      o[x] == if owner[x] == l || owner[x] == r then |owner| else owner[x]
  {
    seq(|owner| + 1, x requires 0 <= x <= |owner| =>
      if x < |owner| && owner[x] != l && owner[x] != r then owner[x] else |owner|)
  }

  /** The subtrees of two distinct live roots share no node. */
  lemma LiveDisjoint(nodes: seq<Node>, m: multiset<nat>, owner: seq<nat>, l: nat, r: nat)
    requires Ordered(nodes) && Forest(nodes, m, owner)
    requires l in m && r in m && l != r
    ensures l < |nodes| && r < |nodes|
    ensures Subtree(nodes, l) !! Subtree(nodes, r)
  {
    SubtreeBelow(nodes, l);
    forall x | x in Subtree(nodes, l)
      ensures x !in Subtree(nodes, r)
    {
      assert x <= l;
      assert owner[x] == l;
    }
  }

  /** Appending a node with two existing children keeps the arena's shape,
   *  given the children's subtrees are disjoint and the node weighs their sum. */
  lemma ArenaGrow(nodes: seq<Node>, nodes': seq<Node>, l: nat, r: nat)
    requires Arena(nodes) && Grows(nodes, nodes') && |nodes'| == |nodes| + 1
    requires l < |nodes| && r < |nodes|
    requires nodes'[|nodes|].left == Some(l) && nodes'[|nodes|].right == Some(r)
    requires nodes'[|nodes|].data == nodes[l].data + nodes[r].data
    requires Subtree(nodes, l) !! Subtree(nodes, r)
    ensures Arena(nodes')
  {
    OrderedGrow(nodes, nodes', l, r);
    FullGrow(nodes, nodes', l, r);
    SumsGrow(nodes, nodes', l, r);
    NoSharingGrow(nodes, nodes', l, r);
  }

  lemma OrderedGrow(nodes: seq<Node>, nodes': seq<Node>, l: nat, r: nat)
    requires Ordered(nodes) && Grows(nodes, nodes') && |nodes'| == |nodes| + 1
    requires l < |nodes| && r < |nodes|
    requires nodes'[|nodes|].left == Some(l) && nodes'[|nodes|].right == Some(r)
    ensures Ordered(nodes')
  {
    forall i | 0 <= i < |nodes'|
      ensures Below(nodes'[i].left, i) && Below(nodes'[i].right, i)
    {
      if i < |nodes| {
        assert Below(nodes[i].left, i) && Below(nodes[i].right, i);
      }
    }
  }

  lemma FullGrow(nodes: seq<Node>, nodes': seq<Node>, l: nat, r: nat)
    requires Full(nodes) && Grows(nodes, nodes') && |nodes'| == |nodes| + 1
    requires nodes'[|nodes|].left == Some(l) && nodes'[|nodes|].right == Some(r)
    ensures Full(nodes')
  {
    forall i | 0 <= i < |nodes'|
      ensures nodes'[i].left.Some? <==> nodes'[i].right.Some?
    {
      if i < |nodes| {
        assert nodes[i].left.Some? <==> nodes[i].right.Some?;
      }
    }
  }

  lemma SumsGrow(nodes: seq<Node>, nodes': seq<Node>, l: nat, r: nat)
    requires Ordered(nodes) && Ordered(nodes') && SumsHold(nodes)
    requires Grows(nodes, nodes') && |nodes'| == |nodes| + 1
    requires l < |nodes| && r < |nodes|
    requires nodes'[|nodes|].left == Some(l) && nodes'[|nodes|].right == Some(r)
    requires nodes'[|nodes|].data == nodes[l].data + nodes[r].data
    ensures SumsHold(nodes')
  {
    forall i | 0 <= i < |nodes'| && nodes'[i].left.Some? && nodes'[i].right.Some?
      ensures nodes'[i].data == nodes'[nodes'[i].left.value].data + nodes'[nodes'[i].right.value].data
    {
      if i < |nodes| {
        assert nodes[i].data == nodes[nodes[i].left.value].data + nodes[nodes[i].right.value].data;
      }
    }
  }

  lemma NoSharingGrow(nodes: seq<Node>, nodes': seq<Node>, l: nat, r: nat)
    requires Ordered(nodes) && Ordered(nodes') && NoSharing(nodes)
    requires Grows(nodes, nodes') && |nodes'| == |nodes| + 1
    requires l < |nodes| && r < |nodes|
    requires nodes'[|nodes|].left == Some(l) && nodes'[|nodes|].right == Some(r)
    requires Subtree(nodes, l) !! Subtree(nodes, r)
    ensures NoSharing(nodes')
  {
    var n := |nodes|;
    forall i | 0 <= i < n
      ensures Subtree(nodes', i) == Subtree(nodes, i)
    {
      SubtreeFrame(nodes, nodes', i);
    }
    forall i | 0 <= i < |nodes'| && nodes'[i].left.Some? && nodes'[i].right.Some?
      ensures Subtree(nodes', nodes'[i].left.value) !! Subtree(nodes', nodes'[i].right.value)
    {
      if i < n {
        assert Subtree(nodes, nodes[i].left.value) !! Subtree(nodes, nodes[i].right.value);
      }
    }
  }

  /** Merging live roots `l` and `r` under the new node keeps the forest:
   *  the live roots lose `l` and `r` and gain the new node. */
  lemma ForestGrow(nodes: seq<Node>, nodes': seq<Node>, m: multiset<nat>, owner: seq<nat>, l: nat, r: nat)
    requires Ordered(nodes) && Ordered(nodes') && Grows(nodes, nodes') && |nodes'| == |nodes| + 1
    requires nodes'[|nodes|].left == Some(l) && nodes'[|nodes|].right == Some(r)
    requires Forest(nodes, m, owner) && l in m && r in m && l != r
    ensures Forest(nodes', m - multiset{l} - multiset{r} + multiset{|nodes|}, Reown(owner, l, r))
  {
    var n := |nodes|;
    var m' := m - multiset{l} - multiset{r} + multiset{n};
    var o := Reown(owner, l, r);
    forall i | 0 <= i < n
      ensures Subtree(nodes', i) == Subtree(nodes, i)
    {
      SubtreeFrame(nodes, nodes', i);
    }
    assert Subtree(nodes', n) == {n} + Subtree(nodes, l) + Subtree(nodes, r);
    assert m[n] == 0;
    forall y | y in m'
      ensures y < |nodes'| && m'[y] == 1
    {
      if y != n {
        assert y in m && y != l && y != r;
      }
    }
    forall x | 0 <= x < |nodes'|
      ensures o[x] in m' && o[x] < |nodes'| && x in Subtree(nodes', o[x])
    {
      if x < n && owner[x] != l && owner[x] != r {
        assert o[x] == owner[x];
      }
    }
    forall x, y | 0 <= x < |nodes'| && y in m' && y < |nodes'| && x in Subtree(nodes', y)
      ensures o[x] == y
    {
      if y == n {
        if x < n {
          assert x in Subtree(nodes, l) || x in Subtree(nodes, r);
        }
      } else {
        assert y in m && y != l && y != r;
        SubtreeBelow(nodes', y);
        assert x <= y;
      }
    }
  }

  /** One turn of the merge loop: the new node (weight the sum of the two
   *  removed roots, left child the first removed, right child the second)
   *  keeps the arena's shape, the leaves and the forest. */
  lemma MergeStep(nodes: seq<Node>, nodes': seq<Node>, m: multiset<nat>, owner: seq<nat>, k: nat, l: nat, r: nat)
    requires Arena(nodes) && LeavesFirst(nodes, k) && Forest(nodes, m, owner)
    requires l in m && r in m - multiset{l}
    requires Grows(nodes, nodes') && |nodes'| == |nodes| + 1
    requires nodes'[|nodes|].left == Some(l) && nodes'[|nodes|].right == Some(r)
    requires nodes'[|nodes|].data == nodes[l].data + nodes[r].data
    ensures Arena(nodes') && LeavesFirst(nodes', k)
    ensures Forest(nodes', m - multiset{l} - multiset{r} + multiset{|nodes|}, Reown(owner, l, r))
  {
    assert r in m && r != l;
    LiveDisjoint(nodes, m, owner, l, r);
    ArenaGrow(nodes, nodes', l, r);
    ForestGrow(nodes, nodes', m, owner, l, r);
    LeavesFirstGrow(nodes, nodes', k);
  }

  /** Appending an inner node keeps the leaves first. */
  lemma LeavesFirstGrow(nodes: seq<Node>, nodes': seq<Node>, k: nat)
    requires LeavesFirst(nodes, k) && Grows(nodes, nodes') && |nodes'| == |nodes| + 1
    requires nodes'[|nodes|].left.Some?
    ensures LeavesFirst(nodes', k)
  {
    forall i | 0 <= i < |nodes'|
      ensures IsLeaf(nodes', i) <==> i < k
    {
      if i < |nodes| {
        assert IsLeaf(nodes, i) <==> i < k;
      }
    }
  }

  /** The leaf table survives the merge loop, which only appends nodes and
   *  rewrites `parent` links. */
  lemma LeafTableGrows(nodes: seq<Node>, nodes': seq<Node>, k: nat, leaves: seq<Option<nat>>, input: seq<Byte>)
    requires LeafTable(nodes, k, leaves, input) && Grows(nodes, nodes')
    ensures LeafTable(nodes', k, leaves, input)
  {
    assert forall i :: 0 <= i < k ==> nodes'[i].letter == nodes[i].letter;
  }

  /** Appending nodes leaves the weights of the first `k` unchanged. */
  lemma SumDataGrows(nodes: seq<Node>, nodes': seq<Node>, k: nat)
    requires Grows(nodes, nodes') && k <= |nodes|
    ensures SumData(nodes', Range(k)) == SumData(nodes, Range(k))
  {
    SumDataFrame(nodes, nodes', Range(k));
  }

  /** A leaf inside a subtree is listed among that subtree's leaves. */
  lemma {:induction false} LeafListed(nodes: seq<Node>, id: nat, x: nat)
    requires Ordered(nodes) && id < |nodes| && x < |nodes| && x in Subtree(nodes, id) && IsLeaf(nodes, x)
    ensures x in LeafOrder(nodes, id)
    decreases id
  {
    var n := nodes[id];
    var l := if n.left.Some? then LeafOrder(nodes, n.left.value) else [];
    var r := if n.right.Some? then LeafOrder(nodes, n.right.value) else [];
    var self := if IsLeaf(nodes, id) then [id] else [];
    assert LeafOrder(nodes, id) == l + r + self;
    if x != id {
      if n.left.Some? && x in Subtree(nodes, n.left.value) {
        LeafListed(nodes, n.left.value, x);
      } else {
        LeafListed(nodes, n.right.value, x);
      }
    }
  }

  /** A node weighs what the leaves below it weigh together. */
  lemma {:induction false} WeightIsLeafSum(nodes: seq<Node>, id: nat)
    requires Arena(nodes) && id < |nodes|
    ensures nodes[id].data == SumData(nodes, LeafOrder(nodes, id))
    decreases id
  {
    var n := nodes[id];
    if IsLeaf(nodes, id) {
      assert LeafOrder(nodes, id) == [id];
      assert [id][..0] == [];
    } else {
      var l := n.left.value;
      var r := n.right.value;
      WeightIsLeafSum(nodes, l);
      WeightIsLeafSum(nodes, r);
      assert LeafOrder(nodes, id) == LeafOrder(nodes, l) + LeafOrder(nodes, r);
      SumDataConcat(nodes, LeafOrder(nodes, l), LeafOrder(nodes, r));
    }
  }

  /** The hypotheses the end of the merge loop provides: one live root whose
   *  subtree holds the whole arena, built from the `k` leaves of the scan by
   *  `k - 1` merges. */
  ghost predicate FinalTree(nodes: seq<Node>, k: nat, leaves: seq<Option<nat>>, input: seq<Byte>, root: nat)
  {
    Arena(nodes) && LeafTable(nodes, k, leaves, input) && LeavesFirst(nodes, k) &&
    root < |nodes| && |nodes| + 1 == 2 * k &&
    (forall x :: 0 <= x < |nodes| ==> x in Subtree(nodes, root))
  }

  /** What the printed table promises about the input: one line per symbol
   *  (each byte that occurs, and the sentinel 256), carrying that symbol's
   *  count; no code is a prefix of another; an empty input prints the
   *  sentinel alone with the empty code, and otherwise no code is empty. */
  ghost predicate CodeTable(table: seq<Record>, input: seq<Byte>)
  {
    (forall j :: 0 <= j < |table| ==>
      table[j].letter in Symbols(input) && table[j].weight == Freq(input, table[j].letter)) &&
    (forall c :: c in Symbols(input) ==> exists j :: 0 <= j < |table| && table[j].letter == c) &&
    (forall j, i :: 0 <= j < i < |table| ==> table[j].letter != table[i].letter) &&
    PrefixFree(table) &&
    (|input| == 0 ==> table == [Record(SENTINEL, 0, [])]) &&
    (|input| > 0 ==> forall j :: 0 <= j < |table| ==> table[j].bits != [])
  }

  /** Reading each line's code from the root leads to the leaf of its letter. */
  ghost predicate Decodes(nodes: seq<Node>, root: nat, table: seq<Record>)
    requires Ordered(nodes) && root < |nodes|
  {
    forall j :: 0 <= j < |table| ==>
      Follow(nodes, root, table[j].bits).Some? &&
      IsLeaf(nodes, Follow(nodes, root, table[j].bits).value) &&
      nodes[Follow(nodes, root, table[j].bits).value].letter == table[j].letter
  }

  /** Line `j` of the table printed from the root. */
  lemma RecordAt(nodes: seq<Node>, k: nat, leaves: seq<Option<nat>>, input: seq<Byte>, root: nat, j: nat)
    requires FinalTree(nodes, k, leaves, input, root) && j < |Emit(nodes, root, [])|
    ensures var t := Emit(nodes, root, [])[j];
      var leaf := LeafOrder(nodes, root)[j];
      leaf < k && t.letter == nodes[leaf].letter &&
      t.letter in Symbols(input) && t.weight == Freq(input, t.letter) &&
      Follow(nodes, root, t.bits) == Some(leaf) && IsLeaf(nodes, leaf)
  {
    var t := Emit(nodes, root, [])[j];
    EmitAt(nodes, root, [], j);
    assert t.bits[0..] == t.bits;
    var leaf := LeafOrder(nodes, root)[j];
    assert leaves[nodes[leaf].letter] == Some(leaf);
  }

  /** Every symbol gets a line. */
  lemma SymbolListed(nodes: seq<Node>, k: nat, leaves: seq<Option<nat>>, input: seq<Byte>, root: nat, c: int)
    requires FinalTree(nodes, k, leaves, input, root) && c in Symbols(input)
    ensures exists j :: 0 <= j < |Emit(nodes, root, [])| && Emit(nodes, root, [])[j].letter == c
  {
    TableSymbols(nodes, k, leaves, input);
    var x := leaves[c].value;
    assert IsLeaf(nodes, x);
    LeafListed(nodes, root, x);
    var j :| 0 <= j < |LeafOrder(nodes, root)| && LeafOrder(nodes, root)[j] == x;
    EmitAt(nodes, root, [], j);
  }

  /** No letter gets two lines. */
  lemma LettersDistinct(nodes: seq<Node>, k: nat, leaves: seq<Option<nat>>, input: seq<Byte>, root: nat)
    requires FinalTree(nodes, k, leaves, input, root)
    ensures var out := Emit(nodes, root, []);
      forall j, i :: 0 <= j < i < |out| ==> out[j].letter != out[i].letter
  {
    var out := Emit(nodes, root, []);
    LeafOrderDistinct(nodes, root);
    forall j, i | 0 <= j < i < |out|
      ensures out[j].letter != out[i].letter
    {
      RecordAt(nodes, k, leaves, input, root, j);
      RecordAt(nodes, k, leaves, input, root, i);
      var a := LeafOrder(nodes, root)[j];
      var b := LeafOrder(nodes, root)[i];
      assert leaves[nodes[a].letter] == Some(a);
      assert leaves[nodes[b].letter] == Some(b);
    }
  }

  /** An empty input leaves the sentinel alone: one leaf, no merge, and the
   *  sentinel's line with the empty code. */
  lemma EmptyInputTable(nodes: seq<Node>, k: nat, leaves: seq<Option<nat>>, input: seq<Byte>, root: nat)
    requires FinalTree(nodes, k, leaves, input, root) && |input| == 0
    ensures Emit(nodes, root, []) == [Record(SENTINEL, 0, [])]
  {
    var s := leaves[SENTINEL].value;
    // every leaf of the scan is the leaf of its own letter, and only the
    // sentinel's slot is non-NULL, so the first and the last leaf are both it
    assert leaves[nodes[0].letter] == Some(0);
    assert leaves[nodes[k - 1].letter] == Some(k - 1);
    assert k == 1 && |nodes| == 1 && root == 0;
    assert IsLeaf(nodes, 0);
  }

  /** A non-empty input gives at least two leaves, so the root is not a leaf
   *  and every code has at least one bit. */
  lemma NonEmptyInputCodes(nodes: seq<Node>, k: nat, leaves: seq<Option<nat>>, input: seq<Byte>, root: nat)
    requires FinalTree(nodes, k, leaves, input, root) && |input| > 0
    ensures var out := Emit(nodes, root, []);
      forall j :: 0 <= j < |out| ==> out[j].bits != []
  {
    var c := input[0];
    FreqOfMember(input, 0);
    var a := leaves[c].value;
    var b := leaves[SENTINEL].value;
    assert a != b;
    assert a in Subtree(nodes, root) && b in Subtree(nodes, root);
    assert !IsLeaf(nodes, root);
    var out := Emit(nodes, root, []);
    forall j | 0 <= j < |out|
      ensures out[j].bits != []
    {
      EmitAt(nodes, root, [], j);
    }
  }

  /** A sequence of distinct ids that lists exactly the ids below `k` is a
   *  permutation of `0, ..., k - 1`. */
  lemma DistinctRange(s: seq<nat>, k: nat)
    requires Distinct(s) && forall x: nat :: x in s <==> x < k
    ensures multiset(s) == multiset(Range(k))
  {
    forall x: nat
      ensures multiset(s)[x] == multiset(Range(k))[x]
    {
      RangeCount(k, x);
      DistinctCount(s, x);
    }
  }

  lemma {:induction false} DistinctCount(s: seq<nat>, x: nat)
    requires Distinct(s)
    ensures multiset(s)[x] == if x in s then 1 else 0
    decreases |s|
  {
    if s != [] {
      var s' := s[..|s| - 1];
      var y := s[|s| - 1];
      assert s == s' + [y];
      assert Distinct(s');
      assert y !in s';
      DistinctCount(s', x);
      assert multiset(s) == multiset(s') + multiset{y};
    }
  }

  /** The leaves below the final root are the `k` leaves of the scan, each
   *  listed once. */
  lemma LeafOrderIsRange(nodes: seq<Node>, k: nat, leaves: seq<Option<nat>>, input: seq<Byte>, root: nat)
    requires FinalTree(nodes, k, leaves, input, root)
    ensures multiset(LeafOrder(nodes, root)) == multiset(Range(k))
    ensures |LeafOrder(nodes, root)| == k
  {
    var order := LeafOrder(nodes, root);
    LeafOrderDistinct(nodes, root);
    forall x: nat
      ensures x in order <==> x < k
    {
      if x < k {
        assert IsLeaf(nodes, x);
        LeafListed(nodes, root, x);
      }
    }
    DistinctRange(order, k);
    assert |order| == |multiset(order)|;
  }

  /** The root of the finished tree weighs the length of the input, and the
   *  table has one line per leaf. */
  lemma RootWeight(nodes: seq<Node>, k: nat, leaves: seq<Option<nat>>, input: seq<Byte>, root: nat)
    requires FinalTree(nodes, k, leaves, input, root)
    requires SumData(nodes, Range(k)) == |input|
    ensures nodes[root].data == |input|
    ensures |Emit(nodes, root, [])| == k
  {
    LeafOrderIsRange(nodes, k, leaves, input, root);
    WeightIsLeafSum(nodes, root);
    SumDataPermutation(nodes, LeafOrder(nodes, root), Range(k));
  }

  /** The printed table is a prefix-free code table for the input that
   *  decodes back to the right letters, and the root weighs the input. */
  lemma CodeTableCorrect(nodes: seq<Node>, k: nat, leaves: seq<Option<nat>>, input: seq<Byte>, root: nat)
    requires FinalTree(nodes, k, leaves, input, root)
    requires SumData(nodes, Range(k)) == |input|
    ensures CodeTable(Emit(nodes, root, []), input)
    ensures Decodes(nodes, root, Emit(nodes, root, []))
    ensures |Emit(nodes, root, [])| == k && nodes[root].data == |input|
  {
    var out := Emit(nodes, root, []);
    forall j | 0 <= j < |out|
      ensures out[j].letter in Symbols(input) && out[j].weight == Freq(input, out[j].letter)
      ensures Follow(nodes, root, out[j].bits).Some? &&
        IsLeaf(nodes, Follow(nodes, root, out[j].bits).value) &&
        nodes[Follow(nodes, root, out[j].bits).value].letter == out[j].letter
    {
      RecordAt(nodes, k, leaves, input, root, j);
    }
    forall c | c in Symbols(input)
      ensures exists j :: 0 <= j < |out| && out[j].letter == c
    {
      SymbolListed(nodes, k, leaves, input, root, c);
    }
    LettersDistinct(nodes, k, leaves, input, root);
    EmitPrefixFree(nodes, root, []);
    if |input| == 0 {
      EmptyInputTable(nodes, k, leaves, input, root);
    } else {
      NonEmptyInputCodes(nodes, k, leaves, input, root);
    }
    RootWeight(nodes, k, leaves, input, root);
  }
}
