/** Code generation of Huffman/huffman.c (`printCode`, `isLeaf`, `printBits`)
 *  as functions over a finished arena.  Each line `printCode` prints becomes a
 *  `Record`; the order of the records is the order of the printed lines. */
module Codes {
  import opened Tree

  type Bit = b: int | 0 <= b < 2

  /** One printed line: a leaf's letter, its weight and its code bits. */
  datatype Record = Record(letter: int, weight: int, bits: seq<Bit>)

  /** The link a step takes: the left child on 0, the right child on 1. */
  function Child(nodes: seq<Node>, id: nat, b: Bit): Option<nat>
    requires id < |nodes|
  {
    if b == 0 then nodes[id].left else nodes[id].right
  }

  /** The node reached from `id` by following `bits`; None when a step has no
   *  child to take.  This is how a decoder reads a code back. */
  function Follow(nodes: seq<Node>, id: nat, bits: seq<Bit>): (r: Option<nat>)
    requires Ordered(nodes) && id < |nodes|
    ensures r.Some? ==> r.value <= id
    decreases |bits|
  {
    if bits == [] then Some(id)
    else
      match Child(nodes, id, bits[0])
      case None => None
      case Some(c) => Follow(nodes, c, bits[1..])
  }

  /** `isLeaf`: both links NULL. */
  predicate IsLeaf(nodes: seq<Node>, id: nat)
    requires id < |nodes|
    ensures IsLeaf(nodes, id) <==> Child(nodes, id, 0).None? && Child(nodes, id, 1).None?
  {
    nodes[id].left.None? && nodes[id].right.None?
  }

  /** A node is a leaf exactly when a decoder can take no step from it. */
  lemma LeafHasNoStep(nodes: seq<Node>, id: nat)
    requires Ordered(nodes) && id < |nodes|
    ensures IsLeaf(nodes, id) <==> Follow(nodes, id, [0]).None? && Follow(nodes, id, [1]).None?
  {
    assert [0][1..] == [] && [1][1..] == [];
  }

  /** The leaves below `id`, left to right. */
  ghost function LeafOrder(nodes: seq<Node>, id: nat): (s: seq<nat>)
    requires Ordered(nodes) && id < |nodes|
    ensures forall k :: 0 <= k < |s| ==> s[k] <= id && IsLeaf(nodes, s[k])
    decreases id
  {
    var n := nodes[id];
    (if n.left.Some? then LeafOrder(nodes, n.left.value) else [])
    + (if n.right.Some? then LeafOrder(nodes, n.right.value) else [])
    + (if IsLeaf(nodes, id) then [id] else [])
  }

  /** Every leaf listed below `id` lies in the subtree of `id`. */
  lemma {:induction false} LeafOrderInSubtree(nodes: seq<Node>, id: nat)
    requires Ordered(nodes) && id < |nodes|
    ensures forall x :: x in LeafOrder(nodes, id) ==> x in Subtree(nodes, id)
    decreases id
  {
    var n := nodes[id];
    var l := if n.left.Some? then LeafOrder(nodes, n.left.value) else [];
    var r := if n.right.Some? then LeafOrder(nodes, n.right.value) else [];
    var self := if IsLeaf(nodes, id) then [id] else [];
    assert LeafOrder(nodes, id) == l + r + self;
    if n.left.Some? {
      LeafOrderInSubtree(nodes, n.left.value);
    }
    if n.right.Some? {
      LeafOrderInSubtree(nodes, n.right.value);
    }
  }

  /** When no node is shared, every leaf below `id` appears once in `LeafOrder`. */
  lemma {:induction false} LeafOrderDistinct(nodes: seq<Node>, id: nat)
    requires Ordered(nodes) && NoSharing(nodes) && id < |nodes|
    ensures Distinct(LeafOrder(nodes, id))
    decreases id
  {
    var n := nodes[id];
    var l := if n.left.Some? then LeafOrder(nodes, n.left.value) else [];
    var r := if n.right.Some? then LeafOrder(nodes, n.right.value) else [];
    var self := if IsLeaf(nodes, id) then [id] else [];
    assert LeafOrder(nodes, id) == l + r + self;
    if n.left.Some? {
      LeafOrderDistinct(nodes, n.left.value);
      LeafOrderInSubtree(nodes, n.left.value);
      assert forall x :: x in l ==> x < id;
    }
    if n.right.Some? {
      LeafOrderDistinct(nodes, n.right.value);
      LeafOrderInSubtree(nodes, n.right.value);
      assert forall x :: x in r ==> x < id;
    }
    if n.left.Some? && n.right.Some? {
      assert Subtree(nodes, n.left.value) !! Subtree(nodes, n.right.value);
    }
    DistinctConcat(l, r);
    DistinctConcat(l + r, self);
  }

  /** The number of steps on the longest downward path from `id`. */
  function Height(nodes: seq<Node>, id: nat): (h: nat)
    requires Ordered(nodes) && id < |nodes|
    ensures nodes[id].left.Some? ==> Height(nodes, nodes[id].left.value) < h
    ensures nodes[id].right.Some? ==> Height(nodes, nodes[id].right.value) < h
    decreases id
  {
    var n := nodes[id];
    var l := if n.left.Some? then 1 + Height(nodes, n.left.value) else 0;
    var r := if n.right.Some? then 1 + Height(nodes, n.right.value) else 0;
    if l < r then r else l
  }

  /** No path a decoder can follow from `id` is longer than its height: the
   *  height bounds the length of every code below `id`. */
  lemma {:induction false} FollowWithinHeight(nodes: seq<Node>, id: nat, bits: seq<Bit>)
    requires Ordered(nodes) && id < |nodes| && Follow(nodes, id, bits).Some?
    ensures |bits| <= Height(nodes, id)
    decreases |bits|
  {
    if bits != [] {
      var c := Child(nodes, id, bits[0]).value;
      FollowWithinHeight(nodes, c, bits[1..]);
    }
  }

  /** What `printCode(id, code, top)` prints, with `path` the bits in
   *  `code[0..top)`: the left subtree's lines (0 appended), then the right
   *  subtree's (1 appended), then this node's own line if it is a leaf. */
  function Emit(nodes: seq<Node>, id: nat, path: seq<Bit>): (out: seq<Record>)
    requires Ordered(nodes) && id < |nodes|
    ensures |out| == |LeafOrder(nodes, id)|
    decreases id
  {
    var n := nodes[id];
    (if n.left.Some? then Emit(nodes, n.left.value, path + [0]) else [])
    + (if n.right.Some? then Emit(nodes, n.right.value, path + [1]) else [])
    + (if IsLeaf(nodes, id) then [Record(n.letter, n.data, path)] else [])
  }

  /** The lines printed while visiting child `b` of `id`. */
  function Side(nodes: seq<Node>, id: nat, path: seq<Bit>, b: Bit): seq<Record>
    requires Ordered(nodes) && id < |nodes|
  {
    match Child(nodes, id, b)
    case None => []
    case Some(c) => Emit(nodes, c, path + [b])
  }

  /** `Emit` and `LeafOrder` below `id` are the left side, then the right
   *  side, then (for a leaf) the node itself. */
  lemma EmitShape(nodes: seq<Node>, id: nat, path: seq<Bit>)
    requires Ordered(nodes) && id < |nodes|
    ensures var n := nodes[id];
      Emit(nodes, id, path) == Side(nodes, id, path, 0) + Side(nodes, id, path, 1)
        + (if IsLeaf(nodes, id) then [Record(n.letter, n.data, path)] else []) &&
      LeafOrder(nodes, id) ==
        (if n.left.Some? then LeafOrder(nodes, n.left.value) else [])
        + (if n.right.Some? then LeafOrder(nodes, n.right.value) else [])
        + (if IsLeaf(nodes, id) then [id] else []) &&
      |Side(nodes, id, path, 0)| == |if n.left.Some? then LeafOrder(nodes, n.left.value) else []| &&
      |Side(nodes, id, path, 1)| == |if n.right.Some? then LeafOrder(nodes, n.right.value) else []|
  {
  }

  /** The k-th line of `Emit(nodes, id, path)` and the k-th leaf of
   *  `LeafOrder(nodes, id)`, when they come from the left side. */
  lemma EmitLeftAt(nodes: seq<Node>, id: nat, path: seq<Bit>, k: nat)
    requires Ordered(nodes) && id < |nodes| && k < |Side(nodes, id, path, 0)|
    ensures Child(nodes, id, 0).Some? && k < |Emit(nodes, id, path)|
    ensures Emit(nodes, id, path)[k] == Side(nodes, id, path, 0)[k]
    ensures LeafOrder(nodes, id)[k] == LeafOrder(nodes, Child(nodes, id, 0).value)[k]
  {
    EmitShape(nodes, id, path);
  }

  /** The same, when they come from the right side. */
  lemma EmitRightAt(nodes: seq<Node>, id: nat, path: seq<Bit>, k: nat)
    requires Ordered(nodes) && id < |nodes|
    requires |Side(nodes, id, path, 0)| <= k < |Side(nodes, id, path, 0)| + |Side(nodes, id, path, 1)|
    ensures Child(nodes, id, 1).Some? && k < |Emit(nodes, id, path)|
    ensures Emit(nodes, id, path)[k] == Side(nodes, id, path, 1)[k - |Side(nodes, id, path, 0)|]
    ensures LeafOrder(nodes, id)[k] == LeafOrder(nodes, Child(nodes, id, 1).value)[k - |Side(nodes, id, path, 0)|]
  {
    EmitShape(nodes, id, path);
  }

  /** The same, when they come from the node itself. */
  lemma EmitSelfAt(nodes: seq<Node>, id: nat, path: seq<Bit>, k: nat)
    requires Ordered(nodes) && id < |nodes| && k < |Emit(nodes, id, path)|
    requires |Side(nodes, id, path, 0)| + |Side(nodes, id, path, 1)| <= k
    ensures IsLeaf(nodes, id) && k == 0
    ensures Emit(nodes, id, path)[k] == Record(nodes[id].letter, nodes[id].data, path)
    ensures LeafOrder(nodes, id)[k] == id
  {
    EmitShape(nodes, id, path);
  }

  /** A line from one of the two sides: the side's bit `b`, the child `c`
   *  on that side, and the line's position `i` among the child's lines. */
  lemma EmitSideAt(nodes: seq<Node>, id: nat, path: seq<Bit>, k: nat) returns (b: Bit, c: nat, i: nat)
    requires Ordered(nodes) && id < |nodes|
    requires k < |Side(nodes, id, path, 0)| + |Side(nodes, id, path, 1)|
    ensures b == if k < |Side(nodes, id, path, 0)| then 0 else 1
    ensures Child(nodes, id, b) == Some(c) && c < |nodes|
    ensures k < |Emit(nodes, id, path)| && i < |Emit(nodes, c, path + [b])|
    ensures Emit(nodes, id, path)[k] == Emit(nodes, c, path + [b])[i]
    ensures LeafOrder(nodes, id)[k] == LeafOrder(nodes, c)[i]
  {
    if k < |Side(nodes, id, path, 0)| {
      b, i := 0, k;
      EmitLeftAt(nodes, id, path, k);
    } else {
      b, i := 1, k - |Side(nodes, id, path, 0)|;
      EmitRightAt(nodes, id, path, k);
    }
    c := Child(nodes, id, b).value;
  }

  /** Which part of `Emit(nodes, id, path)` its k-th line falls in. */
  lemma Locate(nodes: seq<Node>, id: nat, path: seq<Bit>, k: nat)
    requires Ordered(nodes) && id < |nodes| && k < |Emit(nodes, id, path)|
    ensures var lo := Side(nodes, id, path, 0);
      var ro := Side(nodes, id, path, 1);
      (k < |lo| ==> (Child(nodes, id, 0).Some? && Emit(nodes, id, path)[k] == lo[k])) &&
      (|lo| <= k < |lo| + |ro| ==> (Child(nodes, id, 1).Some? && Emit(nodes, id, path)[k] == ro[k - |lo|])) &&
      (|lo| + |ro| <= k ==> (IsLeaf(nodes, id) && k == 0))
  {
    var lo := Side(nodes, id, path, 0);
    var ro := Side(nodes, id, path, 1);
    if k < |lo| {
      EmitLeftAt(nodes, id, path, k);
    } else if k < |lo| + |ro| {
      EmitRightAt(nodes, id, path, k);
    } else {
      EmitSelfAt(nodes, id, path, k);
    }
  }

  predicate IsPrefix(a: seq<Bit>, b: seq<Bit>)
  {
    |a| <= |b| && b[..|a|] == a
  }

  /** No record's code is a prefix of another record's code. */
  ghost predicate PrefixFree(out: seq<Record>)
  {
    forall j, k :: 0 <= j < |out| && 0 <= k < |out| && j != k ==> !IsPrefix(out[j].bits, out[k].bits)
  }

  /** A code that starts with `path + [b]` and leads from child `b` of `id` to
   *  `target` leads from `id` itself to `target` once `path` is dropped. */
  lemma ChildCode(nodes: seq<Node>, id: nat, path: seq<Bit>, b: Bit, bits: seq<Bit>, target: nat)
    requires Ordered(nodes) && id < |nodes| && Child(nodes, id, b).Some?
    requires |path| + 1 <= |bits| && bits[..|path| + 1] == path + [b]
    requires Follow(nodes, Child(nodes, id, b).value, bits[|path| + 1..]) == Some(target)
    ensures bits[..|path|] == path && bits[|path|] == b
    ensures Follow(nodes, id, bits[|path|..]) == Some(target)
  {
    assert bits[..|path|] == (path + [b])[..|path|];
    assert bits[|path|] == bits[..|path| + 1][|path|];
    var rest := bits[|path|..];
    assert rest[0] == b && rest[1..] == bits[|path| + 1..];
  }

  /** The k-th printed line belongs to the k-th leaf from the left: same letter,
   *  same weight, and its bits are `path` followed by the steps that lead from
   *  `id` to that leaf (0 for left, 1 for right, one bit per step).  Below a
   *  node with children, the bit after `path` says which side the line is from. */
  lemma {:induction false} EmitAt(nodes: seq<Node>, id: nat, path: seq<Bit>, k: nat)
    requires Ordered(nodes) && id < |nodes| && k < |Emit(nodes, id, path)|
    ensures var r := Emit(nodes, id, path)[k];
      var leaf := LeafOrder(nodes, id)[k];
      r.letter == nodes[leaf].letter && r.weight == nodes[leaf].data &&
      |path| <= |r.bits| && r.bits[..|path|] == path &&
      Follow(nodes, id, r.bits[|path|..]) == Some(leaf)
    ensures !IsLeaf(nodes, id) ==> (|path| < |Emit(nodes, id, path)[k].bits| &&
      Emit(nodes, id, path)[k].bits[|path|] == (if k < |Side(nodes, id, path, 0)| then 0 else 1))
    decreases id
  {
    var lo := Side(nodes, id, path, 0);
    var ro := Side(nodes, id, path, 1);
    var r := Emit(nodes, id, path)[k];
    if k < |lo| + |ro| {
      var b, c, i := EmitSideAt(nodes, id, path, k);
      EmitAt(nodes, c, path + [b], i);
      ChildCode(nodes, id, path, b, r.bits, LeafOrder(nodes, id)[k]);
    } else {
      EmitSelfAt(nodes, id, path, k);
      assert r.bits[|path|..] == [];
    }
  }

  /** No code printed for the tree below `id` is a prefix of another. */
  lemma {:induction false} EmitPrefixFree(nodes: seq<Node>, id: nat, path: seq<Bit>)
    requires Ordered(nodes) && id < |nodes|
    ensures PrefixFree(Emit(nodes, id, path))
    decreases id
  {
    var out := Emit(nodes, id, path);
    var lo := Side(nodes, id, path, 0);
    if Child(nodes, id, 0).Some? {
      EmitPrefixFree(nodes, Child(nodes, id, 0).value, path + [0]);
    }
    if Child(nodes, id, 1).Some? {
      EmitPrefixFree(nodes, Child(nodes, id, 1).value, path + [1]);
    }
    forall j, k | 0 <= j < |out| && 0 <= k < |out| && j != k
      ensures !IsPrefix(out[j].bits, out[k].bits)
    {
      Locate(nodes, id, path, j);
      Locate(nodes, id, path, k);
      if (j < |lo|) != (k < |lo|) {
        // the code from the left side has 0 at position |path|, the one from the right 1
        EmitAt(nodes, id, path, j);
        EmitAt(nodes, id, path, k);
        var a := out[j].bits;
        var b := out[k].bits;
        assert |a| <= |b| ==> b[..|a|][|path|] == b[|path|];
      }
    }
  }
}
