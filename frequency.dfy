/** The frequency table built by the scan loop of Huffman/huffman.c
 *  (`leaves[257]`), and sums of node weights. */
module Frequency {
  import opened Tree

  /** A character read by `fscanf("%c")`, taken as an unsigned byte. */
  type Byte = b: int | 0 <= b < 256

  /** Index and letter of the sentinel leaf `leaves[256]`. */
  const SENTINEL := 256

  /** Occurrences of `c` in `s`. */
  function Freq(s: seq<Byte>, c: int): (n: nat)
    ensures n <= |s|
    ensures !(0 <= c < 256) ==> n == 0
  {
    if s == [] then 0 else Freq(s[..|s| - 1], c) + (if s[|s| - 1] == c then 1 else 0)
  }

  lemma FreqSnoc(s: seq<Byte>, b: Byte, c: int)
    ensures Freq(s + [b], c) == Freq(s, c) + (if b == c then 1 else 0)
  {
    assert (s + [b])[..|s|] == s;
  }

  /** A byte that occurs has a positive count. */
  lemma {:induction false} FreqOfMember(s: seq<Byte>, i: nat)
    requires i < |s|
    ensures Freq(s, s[i]) > 0
    decreases |s|
  {
    if i < |s| - 1 {
      assert s[..|s| - 1][i] == s[i];
      FreqOfMember(s[..|s| - 1], i);
    }
  }

  /** The letters that get a leaf: every byte that occurs, and the sentinel. */
  ghost function Symbols(input: seq<Byte>): set<int>
  {
    set c | 0 <= c < 257 && (c == SENTINEL || Freq(input, c) > 0)
  }

  /** The state of `leaves[]` and of the first `k` nodes of the arena once
   *  `input` has been scanned: slot `c` is NULL exactly when byte `c` does not
   *  occur; otherwise it names a leaf, created among the first `k` nodes, with
   *  letter `c` and weight the number of occurrences of `c`.  Slot 256 always
   *  names the sentinel, of weight 0, and every one of the first `k` nodes is
   *  the leaf of its own letter. */
  ghost predicate LeafTable(nodes: seq<Node>, k: nat, leaves: seq<Option<nat>>, input: seq<Byte>)
  {
    k <= |nodes| && |leaves| == 257 && leaves[SENTINEL].Some? &&
    (forall c :: 0 <= c < 256 ==> (leaves[c].Some? <==> Freq(input, c) > 0)) &&
    (forall c :: 0 <= c < 257 && leaves[c].Some? ==>
      leaves[c].value < k && nodes[leaves[c].value].letter == c &&
      nodes[leaves[c].value].data == Freq(input, c)) &&
    (forall i :: 0 <= i < k ==>
      0 <= nodes[i].letter < 257 && leaves[nodes[i].letter] == Some(i) &&
      nodes[i].left.None? && nodes[i].right.None?)
  }

  /** The state right after `leaves[256] = createTree(0, NULL, NULL)` and
   *  `leaves[256]->letter = 256`, with every other slot NULL. */
  lemma SentinelTable(nodes: seq<Node>, leaves: seq<Option<nat>>)
    requires nodes == [Node(SENTINEL, 0, None, None, None)]
    requires |leaves| == 257 && leaves[SENTINEL] == Some(0)
    requires forall c :: 0 <= c < 256 ==> leaves[c].None?
    ensures LeafTable(nodes, 1, leaves, [])
  {
  }

  /** A byte seen for the first time gets a new leaf of weight 1. */
  lemma {:induction false} ScanNewLeaf(nodes: seq<Node>, leaves: seq<Option<nat>>, input: seq<Byte>, ch: Byte,
                                       nodes': seq<Node>)
    requires LeafTable(nodes, |nodes|, leaves, input) && leaves[ch].None?
    requires nodes' == nodes + [Node(ch, 1, None, None, None)]
    ensures LeafTable(nodes', |nodes'|, leaves[ch := Some(|nodes|)], input + [ch])
  {
    var leaves' := leaves[ch := Some(|nodes|)];
    forall c | 0 <= c < 257
      ensures Freq(input + [ch], c) == Freq(input, c) + (if ch == c then 1 else 0)
    {
      FreqSnoc(input, ch, c);
    }
    forall i | 0 <= i < |nodes'|
      ensures 0 <= nodes'[i].letter < 257 && leaves'[nodes'[i].letter] == Some(i)
    {
      if i < |nodes| {
        assert nodes'[i] == nodes[i];
        assert nodes[i].letter != ch by {
          assert leaves[nodes[i].letter] == Some(i);
        }
      }
    }
  }

  /** A byte seen again adds 1 to the weight of its leaf. */
  lemma {:induction false} ScanSeenAgain(nodes: seq<Node>, leaves: seq<Option<nat>>, input: seq<Byte>, ch: Byte)
    requires LeafTable(nodes, |nodes|, leaves, input) && leaves[ch].Some?
    ensures var id := leaves[ch].value;
      LeafTable(nodes[id := nodes[id].(data := nodes[id].data + 1)], |nodes|, leaves, input + [ch])
  {
    forall c | 0 <= c < 257
      ensures Freq(input + [ch], c) == Freq(input, c) + (if ch == c then 1 else 0)
    {
      FreqSnoc(input, ch, c);
    }
  }

  /** The leaf table lists exactly the symbols of the input. */
  lemma TableSymbols(nodes: seq<Node>, k: nat, leaves: seq<Option<nat>>, input: seq<Byte>)
    requires LeafTable(nodes, k, leaves, input)
    ensures forall c :: c in Symbols(input) <==> 0 <= c < 257 && leaves[c].Some?
  {
  }

  /** The ids of the non-NULL slots, in slot order: what the fill loop stores
   *  into `heap[]`. */
  function LeafIds(ls: seq<Option<nat>>): (ids: seq<nat>)
    ensures |ids| <= |ls|
  {
    if ls == [] then []
    else LeafIds(ls[..|ls| - 1]) + (if ls[|ls| - 1].Some? then [ls[|ls| - 1].value] else [])
  }

  /** Extending the scanned slots by one adds that slot's node, if any. */
  lemma LeafIdsPrefix(ls: seq<Option<nat>>, i: nat)
    requires i < |ls|
    ensures LeafIds(ls[..i + 1]) == LeafIds(ls[..i]) + (if ls[i].Some? then [ls[i].value] else [])
  {
    assert ls[..i + 1][..i] == ls[..i];
  }

  /** `0, 1, ..., k - 1`: the ids of the first `k` nodes. */
  function Range(k: nat): (r: seq<nat>)
    ensures |r| == k && forall i :: 0 <= i < k ==> r[i] == i
  {
    if k == 0 then [] else Range(k - 1) + [k - 1]
  }

  /** The fill loop stores every leaf exactly once: the ids of the non-NULL
   *  slots are a permutation of the ids of the first `k` nodes. */
  lemma {:induction false} LeafIdsArePermutation(nodes: seq<Node>, k: nat, leaves: seq<Option<nat>>, input: seq<Byte>)
    requires LeafTable(nodes, k, leaves, input)
    ensures multiset(LeafIds(leaves)) == multiset(Range(k))
    ensures |LeafIds(leaves)| == k
  {
    LeafIdsCount(nodes, k, leaves, input, 257);
    assert leaves[..257] == leaves;
    forall x: nat
      ensures multiset(LeafIds(leaves))[x] == multiset(Range(k))[x]
    {
      RangeCount(k, x);
    }
    assert multiset(LeafIds(leaves)) == multiset(Range(k));
    assert |multiset(LeafIds(leaves))| == |multiset(Range(k))|;
  }

  lemma {:induction false} RangeCount(k: nat, x: nat)
    ensures multiset(Range(k))[x] == if x < k then 1 else 0
  {
    if k > 0 {
      RangeCount(k - 1, x);
      var last: nat := k - 1;
      var prev := Range(k - 1);
      assert Range(k) == prev + [last];
      var one: multiset<nat> := multiset{last};
      var before: multiset<nat> := multiset(prev);
      var after: multiset<nat> := multiset(Range(k));
      assert after == before + one;
      assert after[x] == before[x] + one[x];
      if x == last {
        assert one[x] == 1 && before[x] == 0;
      } else {
        assert one[x] == 0;
        assert before[x] == if x < k then 1 else 0;
      }
    } else {
      assert Range(k) == [];
      assert multiset(Range(k)) == multiset{};
    }
  }

  lemma {:induction false} LeafIdsCount(nodes: seq<Node>, k: nat, leaves: seq<Option<nat>>, input: seq<Byte>, j: nat)
    requires LeafTable(nodes, k, leaves, input) && j <= 257
    ensures forall x: nat :: multiset(LeafIds(leaves[..j]))[x] == if x < k && nodes[x].letter < j then 1 else 0
  {
    if j > 0 {
      LeafIdsCount(nodes, k, leaves, input, j - 1);
      assert leaves[..j][..j - 1] == leaves[..j - 1];
      var prev := LeafIds(leaves[..j - 1]);
      forall x: nat
        ensures multiset(LeafIds(leaves[..j]))[x] == if x < k && nodes[x].letter < j then 1 else 0
      {
        if x < k && nodes[x].letter == j - 1 {
          assert leaves[j - 1] == Some(x);
        }
        if leaves[j - 1].Some? {
          assert LeafIds(leaves[..j]) == prev + [leaves[j - 1].value];
        } else {
          assert LeafIds(leaves[..j]) == prev;
        }
      }
    }
  }

  /** Sum of the weights of the nodes `ids`. */
  function SumData(nodes: seq<Node>, ids: seq<nat>): int
    requires forall i :: 0 <= i < |ids| ==> ids[i] < |nodes|
  {
    if ids == [] then 0 else SumData(nodes, ids[..|ids| - 1]) + nodes[ids[|ids| - 1]].data
  }

  lemma {:induction false} SumDataConcat(nodes: seq<Node>, a: seq<nat>, b: seq<nat>)
    requires forall i :: 0 <= i < |a| ==> a[i] < |nodes|
    requires forall i :: 0 <= i < |b| ==> b[i] < |nodes|
    ensures SumData(nodes, a + b) == SumData(nodes, a) + SumData(nodes, b)
    decreases |b|
  {
    if b == [] {
      assert a + b == a;
    } else {
      var b' := b[..|b| - 1];
      assert (a + b)[..|a + b| - 1] == a + b';
      SumDataConcat(nodes, a, b');
    }
  }

  /** The sum depends only on the weights of the nodes summed. */
  lemma {:induction false} SumDataFrame(nodes: seq<Node>, nodes': seq<Node>, ids: seq<nat>)
    requires forall i :: 0 <= i < |ids| ==> ids[i] < |nodes| && ids[i] < |nodes'|
    requires forall i :: 0 <= i < |ids| ==> nodes'[ids[i]].data == nodes[ids[i]].data
    ensures SumData(nodes', ids) == SumData(nodes, ids)
    decreases |ids|
  {
    if ids != [] {
      SumDataFrame(nodes, nodes', ids[..|ids| - 1]);
    }
  }

  /** The sum does not depend on the order of the ids. */
  lemma {:induction false} SumDataPermutation(nodes: seq<Node>, a: seq<nat>, b: seq<nat>)
    requires forall i :: 0 <= i < |a| ==> a[i] < |nodes|
    requires multiset(a) == multiset(b)
    ensures forall i :: 0 <= i < |b| ==> b[i] < |nodes|
    ensures SumData(nodes, a) == SumData(nodes, b)
    decreases |a|
  {
    forall i | 0 <= i < |b|
      ensures b[i] < |nodes|
    {
      assert b[i] in multiset(b);
      assert b[i] in a;
    }
    if a != [] {
      var a' := a[..|a| - 1];
      var x := a[|a| - 1];
      assert x in multiset(b) by {
        assert a == a' + [x];
      }
      var j :| 0 <= j < |b| && b[j] == x;
      var b' := b[..j] + b[j + 1..];
      DropOne(a, b, j);
      SumDataPermutation(nodes, a', b');
      SumDataDropAt(nodes, b, j);
    }
  }

  /** Taking the last id off `a` and the same id off `b` at `j` keeps two
   *  permutations of each other. */
  lemma DropOne(a: seq<nat>, b: seq<nat>, j: nat)
    requires a != [] && j < |b| && b[j] == a[|a| - 1] && multiset(a) == multiset(b)
    ensures multiset(a[..|a| - 1]) == multiset(b[..j] + b[j + 1..])
  {
    var x := b[j];
    assert a == a[..|a| - 1] + [x];
    assert b == b[..j] + [x] + b[j + 1..];
    assert multiset(b) == multiset(b[..j] + b[j + 1..]) + multiset{x};
    assert multiset(a) == multiset(a[..|a| - 1]) + multiset{x};
    assert multiset(a[..|a| - 1]) == multiset(a) - multiset{x};
  }

  /** Removing the id at `j` removes its weight from the sum. */
  lemma SumDataDropAt(nodes: seq<Node>, b: seq<nat>, j: nat)
    requires forall i :: 0 <= i < |b| ==> b[i] < |nodes|
    requires j < |b|
    ensures SumData(nodes, b) == SumData(nodes, b[..j] + b[j + 1..]) + nodes[b[j]].data
  {
    var x := b[j];
    assert b == b[..j] + [x] + b[j + 1..];
    SumDataConcat(nodes, b[..j], [x]);
    SumDataConcat(nodes, b[..j] + [x], b[j + 1..]);
    SumDataConcat(nodes, b[..j], b[j + 1..]);
    assert SumData(nodes, [x]) == nodes[x].data by {
      assert [x][..0] == [];
    }
  }

  /** The weights of the first `k` nodes: adding a node adds its weight. */
  lemma SumDataRangeSnoc(nodes: seq<Node>, n: Node)
    ensures SumData(nodes + [n], Range(|nodes| + 1)) == SumData(nodes, Range(|nodes|)) + n.data
  {
    SumDataFrame(nodes, nodes + [n], Range(|nodes|));
    assert Range(|nodes| + 1)[..|nodes|] == Range(|nodes|);
  }

  /** Adding 1 to the weight of one of the first `k` nodes adds 1 to the sum. */
  lemma {:induction false} SumDataRangeBump(nodes: seq<Node>, id: nat, k: nat)
    requires id < |nodes| && k <= |nodes|
    ensures SumData(nodes[id := nodes[id].(data := nodes[id].data + 1)], Range(k))
         == SumData(nodes, Range(k)) + (if id < k then 1 else 0)
  {
    if k > 0 {
      SumDataRangeBump(nodes, id, k - 1);
      assert Range(k)[..k - 1] == Range(k - 1);
    }
  }

  /** The arena and the contents of `leaves[]` during the scan. */
  datatype ScanState = ScanState(nodes: seq<Node>, leaves: seq<Option<nat>>)

  /** The state once the scan of lines 72-87 of huffman.c has read `input`:
   *  the sentinel leaf first; then, byte by byte, a new leaf of weight 1 when
   *  the byte's slot is NULL, and one more on its leaf's weight otherwise. */
  function Scanned(input: seq<Byte>): (st: ScanState)
    ensures |st.nodes| >= 1 && |st.leaves| == 257
    ensures forall c :: 0 <= c < 257 && st.leaves[c].Some? ==> st.leaves[c].value < |st.nodes|
    decreases |input|
  {
    if input == [] then
      ScanState([Node(SENTINEL, 0, None, None, None)], seq(257, c => if c == SENTINEL then Some(0) else None))
    else
      var st := Scanned(input[..|input| - 1]);
      var ch := input[|input| - 1];
      match st.leaves[ch]
      case None =>
        ScanState(st.nodes + [Node(ch, 1, None, None, None)], st.leaves[ch := Some(|st.nodes|)])
      case Some(id) =>
        ScanState(st.nodes[id := st.nodes[id].(data := st.nodes[id].data + 1)], st.leaves)
  }

  /** One more byte read: `Scanned` of the next prefix, from that of the
   *  current one. */
  lemma ScannedNext(input: seq<Byte>, i: nat)
    requires i < |input|
    ensures var st := Scanned(input[..i]); var ch := input[i];
      Scanned(input[..i + 1]) ==
        if st.leaves[ch].None? then
          ScanState(st.nodes + [Node(ch, 1, None, None, None)], st.leaves[ch := Some(|st.nodes|)])
        else
          ScanState(st.nodes[st.leaves[ch].value := st.nodes[st.leaves[ch].value].(data := st.nodes[st.leaves[ch].value].data + 1)], st.leaves)
  {
    assert input[..i + 1][..i] == input[..i];
  }

  /** The invariant of the scan: every node is a leaf, `leaves[]` lists each
   *  symbol read so far with its count, and the weights add up to the number
   *  of bytes read. */
  ghost predicate ScanInvariant(st: ScanState, input: seq<Byte>)
  {
    LeafTable(st.nodes, |st.nodes|, st.leaves, input) && SumData(st.nodes, Range(|st.nodes|)) == |input|
  }

  /** Reading one more byte keeps the scan's invariant. */
  lemma ScannedSnoc(pre: seq<Byte>, ch: Byte)
    requires ScanInvariant(Scanned(pre), pre)
    ensures ScanInvariant(Scanned(pre + [ch]), pre + [ch])
  {
    var st0 := Scanned(pre);
    assert (pre + [ch])[..|pre|] == pre;
    var st := Scanned(pre + [ch]);
    if st0.leaves[ch].None? {
      assert st.nodes == st0.nodes + [Node(ch, 1, None, None, None)];
      ScanNewLeaf(st0.nodes, st0.leaves, pre, ch, st.nodes);
      SumDataRangeSnoc(st0.nodes, Node(ch, 1, None, None, None));
    } else {
      ScanSeenAgain(st0.nodes, st0.leaves, pre, ch);
      SumDataRangeBump(st0.nodes, st0.leaves[ch].value, |st0.nodes|);
    }
  }

  /** After the scan every node is a leaf, `leaves[]` lists each symbol of the
   *  input with its count, and the weights add up to the input's length. */
  lemma {:induction false} ScannedTable(input: seq<Byte>)
    ensures ScanInvariant(Scanned(input), input)
    decreases |input|
  {
    var st := Scanned(input);
    if input == [] {
      SentinelTable(st.nodes, st.leaves);
      assert SumData(st.nodes, Range(1)) == 0 by {
        assert Range(1) == [0] && [0][..0] == [];
      }
    } else {
      var pre := input[..|input| - 1];
      assert input == pre + [input[|input| - 1]];
      ScannedTable(pre);
      ScannedSnoc(pre, input[|input| - 1]);
    }
  }
}
