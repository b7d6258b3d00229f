/** The fill of `heap[]` from `leaves[]` in `main` of Huffman/huffman.c, as a
 *  function on the contents of `heap[]`. */
module Fill {
  import opened Tree
  import opened Heap
  import opened Frequency

  /** `heap[]` after the fill of lines 89-100 of huffman.c has gone through
   *  the slots `ls` of `leaves[]` in order, starting from `heap_count == 0`:
   *  the node of every non-NULL slot is inserted as by `insert`. */
  function Filled(h: seq<nat>, nodes: seq<Node>, ls: seq<Option<nat>>): (r: seq<nat>)
    requires |ls| <= |h|
    requires forall c :: 0 <= c < |ls| && ls[c].Some? ==> ls[c].value < |nodes|
    ensures |r| == |h| && Links(r, nodes, |LeafIds(ls)|)
    decreases |ls|
  {
    if ls == [] then h
    else
      var pre := ls[..|ls| - 1];
      var prev := Filled(h, nodes, pre);
      match ls[|ls| - 1]
      case None => prev
      case Some(id) =>
        InsertLinks(prev, nodes, |LeafIds(pre)|, id);
        AfterInsert(prev, nodes, |LeafIds(pre)|, id)
  }

  /** The fill stores exactly the nodes of the non-NULL slots in the first
   *  slots of `heap[]` and leaves the slots above them as they were. */
  lemma {:induction false} FilledPermutes(h: seq<nat>, nodes: seq<Node>, ls: seq<Option<nat>>)
    requires |ls| <= |h|
    requires forall c :: 0 <= c < |ls| && ls[c].Some? ==> ls[c].value < |nodes|
    ensures multiset(Filled(h, nodes, ls)[..|LeafIds(ls)|]) == multiset(LeafIds(ls))
    ensures Filled(h, nodes, ls)[|LeafIds(ls)|..] == h[|LeafIds(ls)|..]
    decreases |ls|
  {
    if ls != [] {
      var pre := ls[..|ls| - 1];
      FilledPermutes(h, nodes, pre);
      var prev := Filled(h, nodes, pre);
      var m := |LeafIds(pre)|;
      if ls[|ls| - 1].Some? {
        var id := ls[|ls| - 1].value;
        var r := AfterInsert(prev, nodes, m, id);
        assert Filled(h, nodes, ls) == r;
        assert LeafIds(ls) == LeafIds(pre) + [id];
        assert prev[m + 1..] == prev[m..][1..];
        assert h[m + 1..] == h[m..][1..];
      } else {
        assert LeafIds(ls) == LeafIds(pre);
      }
    }
  }
}
