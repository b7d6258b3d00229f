/** The array-backed "heap" of Huffman/huffman.c (`balanceTree`,
 *  `reverseBalance`, `removeFirst`, `insert`) as functions on the contents of
 *  `heap[]`, a sequence of arena ids.  The functions follow the C code as
 *  written, including the two ways it departs from a textbook binary heap:
 *  `balanceTree` stops as soon as the parent slot is 0, and `reverseBalance`
 *  swaps with the smaller child without comparing it to the parent. */
module Heap {
  import opened Tree

  /** `(index - 1) / 2` as C computes it.  C division truncates toward zero,
   *  so index 0 yields 0 (Dafny's Euclidean `/` would yield -1). */
  function CParent(i: nat): (p: nat)
    ensures i == 0 ==> p == 0
    ensures i > 0 ==> 2 * p + 1 <= i <= 2 * p + 2
  {
    if i == 0 then 0 else (i - 1) / 2
  }

  /** The three-assignment exchange through `temp`. */
  function Swap(h: seq<nat>, a: nat, b: nat): (r: seq<nat>)
    requires a < |h| && b < |h|
    ensures |r| == |h| && r[a] == h[b] && r[b] == h[a]
    ensures multiset(r) == multiset(h)
  {
    h[a := h[b]][b := h[a]]
  }

  /** Exchanging two slots below `n` leaves the multiset of `h[..n]` alone. */
  lemma SwapPrefix(h: seq<nat>, a: nat, b: nat, n: nat)
    requires a < n <= |h| && b < n
    ensures Swap(h, a, b)[n..] == h[n..]
    ensures multiset(Swap(h, a, b)[..n]) == multiset(h[..n])
  {
    var r := Swap(h, a, b);
    assert h == h[..n] + h[n..];
    assert r == r[..n] + r[n..];
    assert r[n..] == h[n..];
    calc {
      multiset(r[..n]) + multiset(r[n..]);
      multiset(r);
      multiset(h);
      multiset(h[..n]) + multiset(h[n..]);
    }
  }

  /** The exchange leaves every other slot alone. */
  lemma SwapOthers(h: seq<nat>, a: nat, b: nat)
    requires a < |h| && b < |h|
    ensures forall k :: 0 <= k < |h| && k != a && k != b ==> Swap(h, a, b)[k] == h[k]
  {
  }

  /** A rearrangement of a sequence that leaves the slots from `n` on alone
   *  rearranges the first `n` slots. */
  lemma SameAbove(h: seq<nat>, r: seq<nat>, n: nat)
    requires n <= |h| == |r| && multiset(r) == multiset(h)
    requires forall k :: n <= k < |h| ==> r[k] == h[k]
    ensures multiset(r[..n]) == multiset(h[..n]) && r[n..] == h[n..]
  {
    assert r[n..] == h[n..];
    assert h == h[..n] + h[n..];
    assert r == r[..n] + r[n..];
    assert multiset(r[..n]) == multiset(r) - multiset(r[n..]);
    assert multiset(h[..n]) == multiset(h) - multiset(h[n..]);
  }

  /** The slots `h[..n]` all hold ids of nodes in the arena. */
  predicate Links(h: seq<nat>, nodes: seq<Node>, n: nat)
    requires n <= |h|
  {
    forall k :: 0 <= k < n ==> h[k] < |nodes|
  }

  /** An exchange of two slots below `n` keeps the ids in `h[..m]`, for any
   *  `m <= n`, inside the arena. */
  lemma SwapLinks(h: seq<nat>, nodes: seq<Node>, a: nat, b: nat, n: nat, m: nat)
    requires a < n && b < n && m <= n <= |h| && Links(h, nodes, n)
    ensures Links(Swap(h, a, b), nodes, m)
  {
    var r := Swap(h, a, b);
    forall k | 0 <= k < m
      ensures r[k] < |nodes|
    {
      assert r[k] == h[k] || r[k] == h[a] || r[k] == h[b];
    }
  }

  /** `balanceTree(i)` on the contents of `heap[]`: return when the node at
   *  `i` is strictly heavier than its parent or the parent slot is 0,
   *  otherwise exchange the two and continue from the parent slot. */
  function SiftUp(h: seq<nat>, nodes: seq<Node>, i: nat): (r: seq<nat>)
    requires i < |h| && Links(h, nodes, i + 1)
    ensures |r| == |h|
    decreases i
  {
    var p := CParent(i);
    if nodes[h[i]].data > nodes[h[p]].data || p == 0 then h
    else SiftUp(Swap(h, p, i), nodes, p)
  }

  /** `balanceTree(i)` only rearranges slots `0..i`. */
  lemma {:induction false} SiftUpPermutes(h: seq<nat>, nodes: seq<Node>, i: nat)
    requires i < |h| && Links(h, nodes, i + 1)
    ensures multiset(SiftUp(h, nodes, i)[..i + 1]) == multiset(h[..i + 1])
    ensures SiftUp(h, nodes, i)[i + 1..] == h[i + 1..]
  {
    SiftUpSame(h, nodes, i);
    SameAbove(h, SiftUp(h, nodes, i), i + 1);
  }

  lemma {:induction false} SiftUpSame(h: seq<nat>, nodes: seq<Node>, i: nat)
    requires i < |h| && Links(h, nodes, i + 1)
    ensures multiset(SiftUp(h, nodes, i)) == multiset(h)
    ensures forall k :: i < k < |h| ==> SiftUp(h, nodes, i)[k] == h[k]
    decreases i
  {
    var p := CParent(i);
    if !(nodes[h[i]].data > nodes[h[p]].data || p == 0) {
      var s := Swap(h, p, i);
      SwapLinks(h, nodes, p, i, i + 1, p + 1);
      SiftUpSame(s, nodes, p);
      SwapOthers(h, p, i);
    }
  }

  /** `balanceTree` never writes slot 0, and from slots 0, 1 and 2 it
   *  returns at once: the parent test `parent == 0` fires before any
   *  exchange with the root. */
  lemma {:induction false} SiftUpKeepsRoot(h: seq<nat>, nodes: seq<Node>, i: nat)
    requires i < |h| && Links(h, nodes, i + 1)
    ensures SiftUp(h, nodes, i)[0] == h[0]
    ensures i <= 2 ==> SiftUp(h, nodes, i) == h
    decreases i
  {
    var p := CParent(i);
    if !(nodes[h[i]].data > nodes[h[p]].data || p == 0) {
      SiftUpKeepsRoot(Swap(h, p, i), nodes, p);
    }
  }

  /** `reverseBalance(i)` on the contents of `heap[]` with `n` live slots:
   *  return once slot `i` has no live left child, otherwise exchange slot `i`
   *  with its left child when that is strictly lighter than the right child,
   *  and with the right child otherwise, and continue from there.  The right
   *  child is read even when its slot is `n`, one past the live region. */
  function SiftDown(h: seq<nat>, nodes: seq<Node>, n: nat, i: nat): (r: seq<nat>)
    requires n < |h| && i <= n && Links(h, nodes, n + 1)
    ensures |r| == |h|
    decreases n - i
  {
    if 2 * i + 1 >= n then h
    else
      var c := if nodes[h[2 * i + 1]].data < nodes[h[2 * i + 2]].data then 2 * i + 1 else 2 * i + 2;
      SiftDown(Swap(h, i, c), nodes, n, c)
  }

  /** One exchange of `reverseBalance(i)`: with a live left child, the
   *  result is that of continuing from the chosen child after the exchange. */
  lemma SiftDownStep(h: seq<nat>, nodes: seq<Node>, n: nat, i: nat, c: nat)
    requires n < |h| && i <= n && Links(h, nodes, n + 1) && 2 * i + 1 < n
    requires c == if nodes[h[2 * i + 1]].data < nodes[h[2 * i + 2]].data then 2 * i + 1 else 2 * i + 2
    ensures Links(Swap(h, i, c), nodes, n + 1)
    ensures SiftDown(h, nodes, n, i) == SiftDown(Swap(h, i, c), nodes, n, c)
  {
    SwapLinks(h, nodes, i, c, n + 1, n + 1);
  }

  /** `reverseBalance(i)` only rearranges slots `i..n`, the live region and
   *  the one slot past it. */
  lemma {:induction false} SiftDownPermutes(h: seq<nat>, nodes: seq<Node>, n: nat, i: nat)
    requires n < |h| && i <= n && Links(h, nodes, n + 1)
    ensures multiset(SiftDown(h, nodes, n, i)[..n + 1]) == multiset(h[..n + 1])
    ensures SiftDown(h, nodes, n, i)[n + 1..] == h[n + 1..]
    ensures SiftDown(h, nodes, n, i)[..i] == h[..i]
    decreases n - i
  {
    var r := SiftDown(h, nodes, n, i);
    if 2 * i + 1 >= n {
      assert r == h;
    } else {
      var c := if nodes[h[2 * i + 1]].data < nodes[h[2 * i + 2]].data then 2 * i + 1 else 2 * i + 2;
      var s := Swap(h, i, c);
      SwapLinks(h, nodes, i, c, n + 1, n + 1);
      assert r == SiftDown(s, nodes, n, c);
      SwapPrefix(h, i, c, n + 1);
      SiftDownPermutes(s, nodes, n, c);
      assert r[..i] == r[..c][..i];
      assert s[..i] == h[..i];
    }
  }

  /** Slot `n`, one past the live region, still holds the node being sunk, so
   *  the out-of-range read of the right child finds that same node and the
   *  exchange with it changes nothing: no live node is lost or duplicated. */
  lemma {:induction false} SiftDownKeepsSunk(h: seq<nat>, nodes: seq<Node>, n: nat, i: nat)
    requires n < |h| && i <= n && Links(h, nodes, n + 1)
    requires h[i] == h[n]
    ensures SiftDown(h, nodes, n, i)[n] == h[n]
    ensures multiset(SiftDown(h, nodes, n, i)[..n]) == multiset(h[..n])
    decreases n - i
  {
    if 2 * i + 1 < n {
      var c := if nodes[h[2 * i + 1]].data < nodes[h[2 * i + 2]].data then 2 * i + 1 else 2 * i + 2;
      var s := Swap(h, i, c);
      SiftDownStep(h, nodes, n, i, c);
      if c == n {
        assert s == h;
        assert SiftDown(h, nodes, n, i) == SiftDown(h, nodes, n, n) == h;
      } else {
        SwapPrefix(h, i, c, n);
        assert s[c] == h[n] == s[n];
        SiftDownKeepsSunk(s, nodes, n, c);
        var r := SiftDown(s, nodes, n, c);
        assert r[n] == h[n];
        assert multiset(r[..n]) == multiset(s[..n]) == multiset(h[..n]);
      }
    }
  }

  /** Where `reverseBalance` leaves the node `x` it sinks: in live slot `j`,
   *  where either `j` has no live left child, or its left child is the last
   *  live slot and is not strictly lighter than `x`.  In the second case the
   *  test at line 183 picks the right child, slot `n`, which holds `x`
   *  itself, so `x` stays above a live child that may be heavier or equal. */
  predicate SettledAt(r: seq<nat>, nodes: seq<Node>, n: nat, j: nat, x: nat)
  {
    j < n <= |r| && r[j] == x &&
    (2 * j + 1 >= n ||
     (2 * j + 2 == n && r[2 * j + 1] < |nodes| && x < |nodes| && nodes[r[2 * j + 1]].data >= nodes[x].data))
  }

  /** The node sunk from live slot `i` (a copy of which sits in slot `n`, as
   *  `removeFirst` leaves it) settles in a live slot at or below `i`. */
  lemma {:induction false} SiftDownSettles(h: seq<nat>, nodes: seq<Node>, n: nat, i: nat)
    requires n < |h| && i < n && Links(h, nodes, n + 1)
    requires h[i] == h[n]
    ensures exists j :: i <= j && SettledAt(SiftDown(h, nodes, n, i), nodes, n, j, h[i])
    decreases n - i
  {
    if 2 * i + 1 < n {
      var c := if nodes[h[2 * i + 1]].data < nodes[h[2 * i + 2]].data then 2 * i + 1 else 2 * i + 2;
      var s := Swap(h, i, c);
      if c == n {
        assert s == h;
        assert SiftDown(h, nodes, n, i) == SiftDown(h, nodes, n, n) == h;
        assert SettledAt(h, nodes, n, i, h[i]);
      } else {
        assert s[c] == h[n] == s[n];
        SiftDownSettles(s, nodes, n, c);
        var j :| c <= j && SettledAt(SiftDown(s, nodes, n, c), nodes, n, j, s[c]);
        assert SettledAt(SiftDown(h, nodes, n, i), nodes, n, j, h[i]);
      }
    } else {
      assert SettledAt(SiftDown(h, nodes, n, i), nodes, n, i, h[i]);
    }
  }

  /** `heap[]` after `removeFirst` with `n` live slots: the last live node is
   *  copied into slot 0 and sunk among the remaining `n - 1`.  The live region
   *  then holds the old live nodes less the old first one. */
  function AfterRemoveFirst(h: seq<nat>, nodes: seq<Node>, n: nat): (r: seq<nat>)
    requires 1 <= n <= |h| && Links(h, nodes, n)
    ensures |r| == |h|
    ensures multiset(r[..n - 1]) == multiset(h[..n]) - multiset{h[0]}
    ensures r[n..] == h[n..]
  {
    var h1 := h[0 := h[n - 1]];
    SiftDownKeepsSunk(h1, nodes, n - 1, 0);
    SiftDownPermutes(h1, nodes, n - 1, 0);
    var r := SiftDown(h1, nodes, n - 1, 0);
    LastToFront(h, n);
    assert h1[n..] == h[n..];
    r
  }

  /** After `removeFirst` the live region still holds only arena ids. */
  lemma RemoveFirstLinks(h: seq<nat>, nodes: seq<Node>, n: nat)
    requires 1 <= n <= |h| && Links(h, nodes, n)
    ensures Links(AfterRemoveFirst(h, nodes, n), nodes, n - 1)
  {
    var r := AfterRemoveFirst(h, nodes, n);
    forall k | 0 <= k < n - 1
      ensures r[k] < |nodes|
    {
      assert r[..n - 1][k] == r[k];
      assert r[k] in multiset(r[..n - 1]);
      assert multiset(r[..n - 1])[r[k]] <= multiset(h[..n])[r[k]];
      assert r[k] in multiset(h[..n]);
      assert r[k] in h[..n];
    }
  }

  /** Copying the last of `n` live slots over slot 0 leaves `n - 1` live
   *  slots holding the old ones less the old first. */
  lemma LastToFront(h: seq<nat>, n: nat)
    requires 1 <= n <= |h|
    ensures multiset(h[0 := h[n - 1]][..n - 1]) == multiset(h[..n]) - multiset{h[0]}
  {
    var h1 := h[0 := h[n - 1]];
    if n == 1 {
      assert h[..n] == [h[0]];
    } else {
      assert h1[..n - 1] == [h[n - 1]] + h[1..n - 1];
      assert h[..n] == [h[0]] + h[1..n - 1] + [h[n - 1]];
    }
  }

  /** `heap[]` after `insert(id)` with `n` live slots: `id` is stored in slot
   *  `n` and sifted up.  The live region then holds the old live nodes and
   *  `id`, and slot 0 is untouched unless it was the free slot. */
  function AfterInsert(h: seq<nat>, nodes: seq<Node>, n: nat, id: nat): (r: seq<nat>)
    requires n < |h| && Links(h, nodes, n) && id < |nodes|
    ensures |r| == |h|
    ensures multiset(r[..n + 1]) == multiset(h[..n]) + multiset{id}
    ensures r[n + 1..] == h[n + 1..]
    ensures n > 0 ==> r[0] == h[0]
  {
    var h1 := h[n := id];
    assert h1[..n + 1] == h[..n] + [id];
    SiftUpPermutes(h1, nodes, n);
    SiftUpKeepsRoot(h1, nodes, n);
    SiftUp(h1, nodes, n)
  }

  /** After `insert(id)` the live region still holds only arena ids. */
  lemma InsertLinks(h: seq<nat>, nodes: seq<Node>, n: nat, id: nat)
    requires n < |h| && Links(h, nodes, n) && id < |nodes|
    ensures Links(AfterInsert(h, nodes, n, id), nodes, n + 1)
  {
    var r := AfterInsert(h, nodes, n, id);
    forall k | 0 <= k < n + 1
      ensures r[k] < |nodes|
    {
      assert r[..n + 1][k] == r[k];
      assert r[k] in multiset(r[..n + 1]);
      if r[k] != id {
        assert r[k] in multiset(h[..n]);
        assert r[k] in h[..n];
      }
    }
  }

  /** An input on which the structure is not a min-heap: inserting a lighter
   *  node after a heavier one leaves the heavier one in slot 0. */
  lemma LighterInsertStaysBelowRoot()
    ensures var nodes := [Node(0, 5, None, None, None), Node(1, 1, None, None, None)];
      var r := AfterInsert([0, 0], nodes, 1, 1);
      r[0] == 0 && r[1] == 1 && nodes[r[0]].data > nodes[r[1]].data
  {
  }
}
