/** The node store of Huffman/tree.c.
 *
 *  A C `struct Tree` is a heap cell reached through pointers; here every node
 *  lives in an arena (a sequence) and is addressed by its index.  A NULL
 *  pointer is `None`.  The `parent` link is kept, as in the source, as a plain
 *  back-reference: nothing in the model follows it.
 */
module Tree {

  datatype Option<T> = None | Some(value: T)

  /** One `struct Tree`: its letter, its weight (`data`) and its three links. */
  datatype Node = Node(letter: int, data: int, parent: Option<nat>, left: Option<nat>, right: Option<nat>)

  /** A link that is NULL or names a node of the arena. */
  predicate Linked(nodes: seq<Node>, link: Option<nat>)
  {
    link.None? || link.value < |nodes|
  }

  /** A link that is NULL or names a node created before node `i`. */
  predicate Below(link: Option<nat>, i: nat)
  {
    link.None? || link.value < i
  }

  /** The arena after `createTree(data, left, right)`: a new node at the end whose
   *  parent is NULL, and each non-NULL child now pointing back at it.  The new
   *  node's letter is left unspecified, as the C code leaves it uninitialised. */
  function AfterCreate(nodes: seq<Node>, data: int, left: Option<nat>, right: Option<nat>): (r: seq<Node>)
    requires Linked(nodes, left) && Linked(nodes, right)
    ensures |r| == |nodes| + 1
    ensures r[|nodes|].data == data && r[|nodes|].parent == None
    ensures r[|nodes|].left == left && r[|nodes|].right == right
    ensures left.Some? ==> r[left.value].parent == Some(|nodes|)
    ensures right.Some? ==> r[right.value].parent == Some(|nodes|)
    ensures forall i :: 0 <= i < |nodes| ==>
      r[i].letter == nodes[i].letter && r[i].data == nodes[i].data &&
      r[i].left == nodes[i].left && r[i].right == nodes[i].right
    ensures forall i :: 0 <= i < |nodes| && left != Some(i) && right != Some(i) ==> r[i] == nodes[i]
  {
    var id := |nodes|;
    var withLeft := if left.Some? then nodes[left.value := nodes[left.value].(parent := Some(id))] else nodes;
    var withRight := if right.Some? then withLeft[right.value := withLeft[right.value].(parent := Some(id))] else withLeft;
    withRight + [Node(0, data, None, left, right)]
  }

  /** The arena after `setLeft(root, x)`. */
  function AfterSetLeft(nodes: seq<Node>, root: nat, x: nat): (r: seq<Node>)
    requires root < |nodes| && x < |nodes|
    ensures |r| == |nodes|
    ensures r[root].left == Some(x) && r[x].parent == Some(root)
    ensures forall i :: 0 <= i < |nodes| ==>
      r[i].letter == nodes[i].letter && r[i].data == nodes[i].data && r[i].right == nodes[i].right
    ensures forall i :: 0 <= i < |nodes| && i != root ==> r[i].left == nodes[i].left
    ensures forall i :: 0 <= i < |nodes| && i != x ==> r[i].parent == nodes[i].parent
    // the child being replaced keeps its stale back-reference
    ensures nodes[root].left.Some? && nodes[root].left.value < |nodes| && nodes[root].left.value != x ==>
      r[nodes[root].left.value].parent == nodes[nodes[root].left.value].parent
  {
    var linked := nodes[root := nodes[root].(left := Some(x))];
    linked[x := linked[x].(parent := Some(root))]
  }

  /** The arena after `setRight(root, x)`. */
  function AfterSetRight(nodes: seq<Node>, root: nat, x: nat): (r: seq<Node>)
    requires root < |nodes| && x < |nodes|
    ensures |r| == |nodes|
    ensures r[root].right == Some(x) && r[x].parent == Some(root)
    ensures forall i :: 0 <= i < |nodes| ==>
      r[i].letter == nodes[i].letter && r[i].data == nodes[i].data && r[i].left == nodes[i].left
    ensures forall i :: 0 <= i < |nodes| && i != root ==> r[i].right == nodes[i].right
    ensures forall i :: 0 <= i < |nodes| && i != x ==> r[i].parent == nodes[i].parent
    // the child being replaced keeps its stale back-reference
    ensures nodes[root].right.Some? && nodes[root].right.value < |nodes| && nodes[root].right.value != x ==>
      r[nodes[root].right.value].parent == nodes[nodes[root].right.value].parent
  {
    var linked := nodes[root := nodes[root].(right := Some(x))];
    linked[x := linked[x].(parent := Some(root))]
  }

  /** All nodes ever allocated, in allocation order.  Allocation is appending;
   *  `free` is not modelled (see `DestroyOrder`). */
  class Store {
    var nodes: seq<Node>

    constructor ()
      ensures nodes == []
    {
      nodes := [];
    }

    method CreateTree(data: int, left: Option<nat>, right: Option<nat>) returns (id: nat)
      requires Linked(nodes, left) && Linked(nodes, right)
      modifies this
      ensures id == old(|nodes|)
      ensures nodes == AfterCreate(old(nodes), data, left, right)
    {
      id := |nodes|;
      if left.Some? {
        nodes := nodes[left.value := nodes[left.value].(parent := Some(id))];
      }
      if right.Some? {
        nodes := nodes[right.value := nodes[right.value].(parent := Some(id))];
      }
      nodes := nodes + [Node(0, data, None, left, right)];
    }

    function GetData(id: nat): (d: int)
      reads this
      requires id < |nodes|
      ensures d == nodes[id].data
    {
      nodes[id].data
    }

    /** The NULL test in the source returns NULL exactly when the field is NULL. */
    function GetLeft(id: nat): (l: Option<nat>)
      reads this
      requires id < |nodes|
      ensures l == nodes[id].left
    {
      if nodes[id].left.Some? then nodes[id].left else None
    }

    function GetRight(id: nat): (r: Option<nat>)
      reads this
      requires id < |nodes|
      ensures r == nodes[id].right
    {
      if nodes[id].right.Some? then nodes[id].right else None
    }

    function GetParent(id: nat): (p: Option<nat>)
      reads this
      requires id < |nodes|
      ensures p == nodes[id].parent
    {
      if nodes[id].parent.Some? then nodes[id].parent else None
    }

    method SetLeft(root: nat, x: nat)
      requires root < |nodes| && x < |nodes|
      modifies this
      ensures nodes == AfterSetLeft(old(nodes), root, x)
    {
      nodes := nodes[root := nodes[root].(left := Some(x))];
      nodes := nodes[x := nodes[x].(parent := Some(root))];
    }

    method SetRight(root: nat, x: nat)
      requires root < |nodes| && x < |nodes|
      modifies this
      ensures nodes == AfterSetRight(old(nodes), root, x)
    {
      nodes := nodes[root := nodes[root].(right := Some(x))];
      nodes := nodes[x := nodes[x].(parent := Some(root))];
    }

    /** The field write `node->letter = letter` done by the callers of createTree. */
    method SetLetter(id: nat, letter: int)
      requires id < |nodes|
      modifies this
      ensures nodes == old(nodes)[id := old(nodes)[id].(letter := letter)]
    {
      nodes := nodes[id := nodes[id].(letter := letter)];
    }

    /** The field write `node->data++` of the frequency scan. */
    method IncData(id: nat)
      requires id < |nodes|
      modifies this
      ensures nodes == old(nodes)[id := old(nodes)[id].(data := old(nodes)[id].data + 1)]
    {
      nodes := nodes[id := nodes[id].(data := nodes[id].data + 1)];
    }
  }

  /** Every child was allocated before its parent.  `createTree` only links
   *  nodes that already exist, so every tree the builder makes is ordered;
   *  this is what makes the recursive walks over the arena terminate. */
  ghost predicate Ordered(nodes: seq<Node>)
  {
    forall i :: 0 <= i < |nodes| ==> Below(nodes[i].left, i) && Below(nodes[i].right, i)
  }

  /** `createTree` links only nodes that already exist, so every arena built
   *  by it alone is ordered. */
  lemma CreateKeepsOrdered(nodes: seq<Node>, data: int, left: Option<nat>, right: Option<nat>)
    requires Ordered(nodes) && Linked(nodes, left) && Linked(nodes, right)
    ensures Ordered(AfterCreate(nodes, data, left, right))
  {
    var r := AfterCreate(nodes, data, left, right);
    forall i | 0 <= i < |r|
      ensures Below(r[i].left, i) && Below(r[i].right, i)
    {
      if i < |nodes| {
        assert r[i].left == nodes[i].left && r[i].right == nodes[i].right;
      }
    }
  }

  /** The nodes of the subtree rooted at `id`. */
  ghost function Subtree(nodes: seq<Node>, id: nat): (s: set<nat>)
    requires Ordered(nodes) && id < |nodes|
    ensures id in s
    decreases id
  {
    var n := nodes[id];
    {id}
    + (if n.left.Some? then Subtree(nodes, n.left.value) else {})
    + (if n.right.Some? then Subtree(nodes, n.right.value) else {})
  }

  /** A subtree holds no node created after its root. */
  lemma {:induction false} SubtreeBelow(nodes: seq<Node>, id: nat)
    requires Ordered(nodes) && id < |nodes|
    ensures forall j :: j in Subtree(nodes, id) ==> j <= id
    decreases id
  {
    var n := nodes[id];
    if n.left.Some? {
      SubtreeBelow(nodes, n.left.value);
    }
    if n.right.Some? {
      SubtreeBelow(nodes, n.right.value);
    }
  }

  /** No node is shared: the two subtrees below any node are disjoint. */
  ghost predicate NoSharing(nodes: seq<Node>)
    requires Ordered(nodes)
  {
    forall i :: 0 <= i < |nodes| && nodes[i].left.Some? && nodes[i].right.Some? ==>
      Subtree(nodes, nodes[i].left.value) !! Subtree(nodes, nodes[i].right.value)
  }

  predicate Distinct(s: seq<nat>)
  {
    forall j, k :: 0 <= j < k < |s| ==> s[j] != s[k]
  }

  lemma DistinctConcat(a: seq<nat>, b: seq<nat>)
    requires Distinct(a) && Distinct(b)
    requires forall x :: x in a ==> x !in b
    ensures Distinct(a + b)
  {
    forall j, k | 0 <= j < k < |a + b|
      ensures (a + b)[j] != (a + b)[k]
    {
      if k < |a| {
      } else if j >= |a| {
        assert (a + b)[j] == b[j - |a|] && (a + b)[k] == b[k - |a|];
      } else {
        assert (a + b)[j] == a[j] && (a + b)[k] == b[k - |a|];
        assert a[j] in a;
      }
    }
  }

  /** The order in which `destroyTree(root)` frees nodes: the left subtree, then
   *  the right subtree, then the node itself; nothing for NULL. */
  function DestroyOrder(nodes: seq<Node>, root: Option<nat>): (order: seq<nat>)
    requires Ordered(nodes) && Linked(nodes, root)
    ensures root.None? ==> order == []
    ensures root.Some? ==> |order| > 0 && order[|order| - 1] == root.value
    ensures root.Some? ==> forall k :: 0 <= k < |order| ==> order[k] <= root.value
    decreases if root.Some? then root.value + 1 else 0
  {
    match root
    case None => []
    case Some(id) =>
      DestroyOrder(nodes, nodes[id].left) + DestroyOrder(nodes, nodes[id].right) + [id]
  }

  /** `destroyTree` frees exactly the nodes of the subtree, the root last, and,
   *  when no node is shared, each of them exactly once. */
  lemma {:induction false} DestroyFreesSubtreeOnce(nodes: seq<Node>, id: nat)
    requires Ordered(nodes) && NoSharing(nodes) && id < |nodes|
    ensures var order := DestroyOrder(nodes, Some(id));
      (forall x :: x in order <==> x in Subtree(nodes, id)) &&
      Distinct(order) && order[|order| - 1] == id
  {
    var n := nodes[id];
    var l := DestroyOrder(nodes, n.left);
    var r := DestroyOrder(nodes, n.right);
    assert DestroyOrder(nodes, Some(id)) == l + r + [id];
    var ls: set<nat> := if n.left.Some? then Subtree(nodes, n.left.value) else {};
    var rs: set<nat> := if n.right.Some? then Subtree(nodes, n.right.value) else {};
    if n.left.Some? {
      DestroyFreesSubtreeOnce(nodes, n.left.value);
      SubtreeBelow(nodes, n.left.value);
    }
    if n.right.Some? {
      DestroyFreesSubtreeOnce(nodes, n.right.value);
      SubtreeBelow(nodes, n.right.value);
    }
    assert forall x :: x in l <==> x in ls;
    assert forall x :: x in r <==> x in rs;
    assert ls !! rs;
    DistinctConcat(l, r);
    forall x | x in l + r
      ensures x !in [id]
    {
      if x in l {
        assert x in ls;
      } else {
        assert x in rs;
      }
    }
    DistinctConcat(l + r, [id]);
  }
}
