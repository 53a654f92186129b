/*
 * The intrusive circular doubly-linked list of cdll.h and cdll.c. A list is
 * a ring of `struct cdll` links; one of them, the list head, is a sentinel
 * that belongs to no element, and the elements are the other links of its
 * ring, in `next` order.
 *
 * The ring a link sits on is described by a ghost sequence `r` of distinct
 * links, each followed by the next one (the last by the first) along `next`
 * and preceded by the previous one along `prev`. A ring is only defined up
 * to rotation; the operations below keep the rotation that puts a given
 * sentinel first.
 */
module Cdll {

  /** `struct cdll`: a link with its two pointers, NULL until initialised (calloc). */
  class Node {
    var next: Node?
    var prev: Node?

    constructor ()
      ensures next == null && prev == null
    {
      next := null;
      prev := null;
    }
  }

  /** The position after `i` on a ring of `n` positions. */
  function Succ(i: nat, n: nat): (j: nat)
    requires i < n
    ensures j < n && (j == 0 <==> i == n - 1)
  {
    if i + 1 == n then 0 else i + 1
  }

  /** The position before `i` on a ring of `n` positions. */
  function Pred(i: nat, n: nat): (j: nat)
    requires i < n
    ensures j < n && Succ(j, n) == i
  {
    if i == 0 then n - 1 else i - 1
  }

  ghost predicate Distinct(r: seq<Node>) {
    forall i, j :: 0 <= i < j < |r| ==> r[i] != r[j]
  }

  /** `r` is, in order, the ring of links the `next` and `prev` pointers of its members form. */
  ghost predicate IsRing(r: seq<Node>)
    reads r
  {
    && |r| > 0
    && Distinct(r)
    && (forall i :: 0 <= i < |r| ==> r[i].next == r[Succ(i, |r|)])
    && (forall i :: 0 <= i < |r| ==> r[i].prev == r[Pred(i, |r|)])
  }

  /** The elements of the list whose sentinel is `r[0]`: the ring without its sentinel. */
  function Elements(r: seq<Node>): (es: seq<Node>)
    requires |r| > 0
    ensures |es| == |r| - 1 && forall i :: 0 <= i < |es| ==> es[i] == r[i + 1]
  {
    r[1..]
  }

  /** The ring after `x` is put right after position `j`. */
  function InsertAfter(r: seq<Node>, j: nat, x: Node): (s: seq<Node>)
    requires j < |r|
    ensures |s| == |r| + 1 && s[j + 1] == x
    ensures forall i :: 0 <= i <= j ==> s[i] == r[i]
    ensures forall i :: j < i < |r| ==> s[i + 1] == r[i]
    ensures multiset(s) == multiset(r) + multiset{x}
  {
    assert r == r[..j + 1] + r[j + 1..];
    r[..j + 1] + [x] + r[j + 1..]
  }

  /**
   * The ring after `x` is put right before position `k`; before the first
   * position that is the end of the sequence.
   */
  function InsertBefore(r: seq<Node>, k: nat, x: Node): (s: seq<Node>)
    requires k < |r|
    ensures |s| == |r| + 1 && s[if k == 0 then |r| else k] == x
    ensures k == 0 ==> s == r + [x]
    ensures multiset(s) == multiset(r) + multiset{x}
  {
    InsertAfter(r, Pred(k, |r|), x)
  }

  /** The ring after the link at position `k` is taken out. */
  function Remove(r: seq<Node>, k: nat): (s: seq<Node>)
    requires k < |r|
    ensures |s| == |r| - 1
    ensures forall i :: 0 <= i < k ==> s[i] == r[i]
    ensures forall i :: k < i < |r| ==> s[i - 1] == r[i]
    ensures multiset(s) == multiset(r) - multiset{r[k]}
  {
    assert r == r[..k] + [r[k]] + r[k + 1..];
    r[..k] + r[k + 1..]
  }

  /**
   * Every link of a ring is doubly linked: its successor's `prev` and its
   * predecessor's `next` both point back at it, and both are on the ring.
   */
  lemma RingLinked(r: seq<Node>, i: nat)
    requires IsRing(r) && i < |r|
    ensures r[i].next != null && r[i].next in r && r[i].next.prev == r[i]
    ensures r[i].prev != null && r[i].prev in r && r[i].prev.next == r[i]
  {
    var n := |r|;
    assert r[Succ(i, n)].prev == r[Pred(Succ(i, n), n)];
    assert r[Pred(i, n)].next == r[Succ(Pred(i, n), n)];
  }

  /** cdll_init: make the link a ring of one, which is an empty list when the link is a sentinel. */
  method Init(n: Node)
    modifies n
    ensures n.next == n && n.prev == n
    ensures IsRing([n]) && Elements([n]) == []
  {
    n.next := n;
    n.prev := n;
  }

  /**
   * cdll_add_node: link `node` in between `prev`, at position `j` of the
   * ring, and `next`, the position after it. Only these three links are
   * written.
   */
  method AddNode(node: Node, prev: Node, next: Node, ghost r: seq<Node>, ghost j: nat)
    requires IsRing(r) && j < |r| && prev == r[j] && next == r[Succ(j, |r|)]
    requires node !in r
    modifies node, prev, next
    ensures IsRing(InsertAfter(r, j, node))
  {
    next.prev := node;
    node.next := next;
    node.prev := prev;
    prev.next := node;
    forall k | 0 <= k < |r|
      ensures r[k].next == (if k == j then node else r[Succ(k, |r|)])
      ensures r[k].prev == (if k == Succ(j, |r|) then node else r[Pred(k, |r|)])
    {
    }
    Relinked(r, j, node);
  }

  /**
   * The pointers of the ring's links after cdll_add_node has written them,
   * read as a ring: `node` now sits between positions `j` and `j + 1`.
   */
  lemma Relinked(r: seq<Node>, j: nat, node: Node)
    requires |r| > 0 && Distinct(r) && j < |r| && node !in r
    requires node.next == r[Succ(j, |r|)] && node.prev == r[j]
    requires forall k :: 0 <= k < |r| ==> r[k].next == (if k == j then node else r[Succ(k, |r|)])
    requires forall k :: 0 <= k < |r| ==> r[k].prev == (if k == Succ(j, |r|) then node else r[Pred(k, |r|)])
    ensures IsRing(InsertAfter(r, j, node))
  {
    InsertDistinct(r, j, node);
    RelinkedLinks(r, j, node);
  }

  lemma InsertDistinct(r: seq<Node>, j: nat, x: Node)
    requires Distinct(r) && j < |r| && x !in r
    ensures Distinct(InsertAfter(r, j, x))
  {
    var s := InsertAfter(r, j, x);
    forall a, b | 0 <= a < b < |s|
      ensures s[a] != s[b]
    {
      if a == j + 1 {
        assert s[b] == r[b - 1];
      } else if b == j + 1 {
        assert s[a] == r[a];
      } else {
        var a' := if a <= j then a else a - 1;
        var b' := if b <= j then b else b - 1;
        assert s[a] == r[a'] && s[b] == r[b'];
      }
    }
  }

  lemma RelinkedLinks(r: seq<Node>, j: nat, node: Node)
    requires |r| > 0 && j < |r| && node !in r
    requires node.next == r[Succ(j, |r|)] && node.prev == r[j]
    requires forall k :: 0 <= k < |r| ==> r[k].next == (if k == j then node else r[Succ(k, |r|)])
    requires forall k :: 0 <= k < |r| ==> r[k].prev == (if k == Succ(j, |r|) then node else r[Pred(k, |r|)])
    ensures var s := InsertAfter(r, j, node);
            forall i :: 0 <= i < |s| ==> s[i].next == s[Succ(i, |s|)] && s[i].prev == s[Pred(i, |s|)]
  {
    var s := InsertAfter(r, j, node);
    var n := |r|;
    forall i | 0 <= i < |s|
      ensures s[i].next == s[Succ(i, |s|)] && s[i].prev == s[Pred(i, |s|)]
    {
      if i == j + 1 {
        if j + 1 == n {
          assert s[0] == r[0];
        } else {
          assert s[j + 2] == r[j + 1];
        }
      } else {
        var k := if i <= j then i else i - 1;
        RingNeighbours(r, s, j, node, i, k);
      }
    }
  }

  /**
   * The links of `r` other than the inserted one: their new neighbours in
   * `s` are their old ones, except that `node` now sits between positions
   * `j` and `j + 1`.
   */
  lemma RingNeighbours(r: seq<Node>, s: seq<Node>, j: nat, node: Node, i: nat, k: nat)
    requires |r| > 0 && j < |r| && s == InsertAfter(r, j, node) && node !in r
    requires i < |s| && i != j + 1 && k == (if i <= j then i else i - 1)
    ensures k < |r| && s[i] == r[k]
    ensures k == j <==> s[Succ(i, |s|)] == node
    ensures k != j ==> s[Succ(i, |s|)] == r[Succ(k, |r|)]
    ensures k == Succ(j, |r|) <==> s[Pred(i, |s|)] == node
    ensures k != Succ(j, |r|) ==> s[Pred(i, |s|)] == r[Pred(k, |r|)]
  {
    var n := |r|;
    if i + 1 == |s| {
      assert s[0] == r[0];
    }
    if i == 0 {
      assert s[|s| - 1] == r[n - 1] || j == n - 1;
    }
  }

  /** cdll_insert_node_head: put `newnode` right after `head`, at the front of head's list (a stack push). */
  method InsertHead(newnode: Node, head: Node, ghost r: seq<Node>, ghost k: nat)
    requires IsRing(r) && k < |r| && head == r[k] && newnode !in r
    modifies newnode, head, r[Succ(k, |r|)]
    ensures IsRing(InsertAfter(r, k, newnode))
    ensures head.next == newnode && newnode.prev == head
  {
    AddNode(newnode, head, head.next, r, k);
  }

  /** cdll_insert_node_tail: put `newnode` right before `head`, at the back of head's list (a queue append). */
  method InsertTail(newnode: Node, head: Node, ghost r: seq<Node>, ghost k: nat)
    requires IsRing(r) && k < |r| && head == r[k] && newnode !in r
    modifies newnode, head, r[Pred(k, |r|)]
    ensures IsRing(InsertBefore(r, k, newnode))
    ensures head.prev == newnode && newnode.next == head
  {
    AddNode(newnode, head.prev, head, r, Pred(k, |r|));
  }

  /**
   * cdll_delete_node: unlink `node` from its ring, joining its two
   * neighbours, then make it a ring of one. Only the node and its two
   * neighbours are written; the other links keep their order.
   */
  method Delete(node: Node, ghost r: seq<Node>, ghost k: nat)
    requires IsRing(r) && k < |r| && node == r[k]
    modifies r[Pred(k, |r|)], node, r[Succ(k, |r|)]
    ensures node.next == node && node.prev == node
    ensures |r| > 1 ==> IsRing(Remove(r, k))
  {
    node.prev.next := node.next;
    node.next.prev := node.prev;
    Init(node);
    if |r| > 1 {
      forall m | 0 <= m < |r| && m != k
        ensures r[m].next == (if m == Pred(k, |r|) then r[Succ(k, |r|)] else r[Succ(m, |r|)])
        ensures r[m].prev == (if m == Succ(k, |r|) then r[Pred(k, |r|)] else r[Pred(m, |r|)])
      {
        SamePosition(r, m, k);
        SamePosition(r, m, Pred(k, |r|));
        SamePosition(r, m, Succ(k, |r|));
        assert old(r[m].next) == r[Succ(m, |r|)] && old(r[m].prev) == r[Pred(m, |r|)];
      }
      Unlinked(r, k);
    }
  }

  /** The pointers of the ring's other links after cdll_delete_node, read as a ring without position `k`. */
  lemma Unlinked(r: seq<Node>, k: nat)
    requires |r| > 1 && Distinct(r) && k < |r|
    requires forall m :: 0 <= m < |r| && m != k ==>
               r[m].next == (if m == Pred(k, |r|) then r[Succ(k, |r|)] else r[Succ(m, |r|)])
    requires forall m :: 0 <= m < |r| && m != k ==>
               r[m].prev == (if m == Succ(k, |r|) then r[Pred(k, |r|)] else r[Pred(m, |r|)])
    ensures IsRing(Remove(r, k))
  {
    RemoveDistinct(r, k);
    UnlinkedLinks(r, k);
  }

  lemma UnlinkedLinks(r: seq<Node>, k: nat)
    requires |r| > 1 && k < |r|
    requires forall m :: 0 <= m < |r| && m != k ==>
               r[m].next == (if m == Pred(k, |r|) then r[Succ(k, |r|)] else r[Succ(m, |r|)])
    requires forall m :: 0 <= m < |r| && m != k ==>
               r[m].prev == (if m == Succ(k, |r|) then r[Pred(k, |r|)] else r[Pred(m, |r|)])
    ensures var s := Remove(r, k);
            forall i :: 0 <= i < |s| ==> s[i].next == s[Succ(i, |s|)] && s[i].prev == s[Pred(i, |s|)]
  {
    var s := Remove(r, k);
    forall i | 0 <= i < |s|
      ensures s[i].next == s[Succ(i, |s|)] && s[i].prev == s[Pred(i, |s|)]
    {
      RemoveNeighbours(r, k, i, if i < k then i else i + 1);
    }
  }

  lemma RemoveDistinct(r: seq<Node>, k: nat)
    requires Distinct(r) && k < |r|
    ensures Distinct(Remove(r, k))
  {
    var s := Remove(r, k);
    forall a, b | 0 <= a < b < |s|
      ensures s[a] != s[b]
    {
      var a' := if a < k then a else a + 1;
      var b' := if b < k then b else b + 1;
      assert s[a] == r[a'] && s[b] == r[b'];
    }
  }

  /**
   * The links of `r` other than the removed one: their neighbours in the
   * shorter ring are their old ones, except that the removed link's two
   * neighbours now face each other.
   */
  lemma RemoveNeighbours(r: seq<Node>, k: nat, i: nat, m: nat)
    requires |r| > 1 && k < |r| && i < |r| - 1 && m == (if i < k then i else i + 1)
    ensures m < |r| && m != k && Remove(r, k)[i] == r[m]
    ensures Remove(r, k)[Succ(i, |r| - 1)] == (if m == Pred(k, |r|) then r[Succ(k, |r|)] else r[Succ(m, |r|)])
    ensures Remove(r, k)[Pred(i, |r| - 1)] == (if m == Succ(k, |r|) then r[Pred(k, |r|)] else r[Pred(m, |r|)])
  {
    var s := Remove(r, k);
    var n := |r|;
    var si := Succ(i, n - 1);
    RemovedAt(r, k, si);
    SuccAfterRemove(n, k, i, m);
    var pi := Pred(i, n - 1);
    RemovedAt(r, k, pi);
    PredAfterRemove(n, k, i, m);
  }

  /** Position `i` of the shorter ring holds the link at position `i` or `i + 1` of the original. */
  lemma RemovedAt(r: seq<Node>, k: nat, i: nat)
    requires k < |r| && i < |r| - 1
    ensures Remove(r, k)[i] == r[if i < k then i else i + 1]
  {
  }

  lemma SuccAfterRemove(n: nat, k: nat, i: nat, m: nat)
    requires 1 < n && k < n && i < n - 1 && m == (if i < k then i else i + 1)
    ensures var si := Succ(i, n - 1);
            (if si < k then si else si + 1) == (if m == Pred(k, n) then Succ(k, n) else Succ(m, n))
  {
  }

  lemma PredAfterRemove(n: nat, k: nat, i: nat, m: nat)
    requires 1 < n && k < n && i < n - 1 && m == (if i < k then i else i + 1)
    ensures var pi := Pred(i, n - 1);
            (if pi < k then pi else pi + 1) == (if m == Succ(k, n) then Pred(k, n) else Pred(m, n))
  {
  }



  /** The ring after the link at position `b` is moved to sit right before the one at position `a`. */
  function MoveBefore(r: seq<Node>, a: nat, b: nat): (s: seq<Node>)
    requires a < |r| && b < |r| && a != b
    ensures |s| == |r| && multiset(s) == multiset(r)
  {
    var t := Remove(r, b);
    InsertBefore(t, if a < b then a else a - 1, r[b])
  }

  /** Inserting before an inner position, the sequence reads without wrapping around. */
  lemma InsertBeforeInner(r: seq<Node>, k: nat, x: Node)
    requires 0 < k < |r|
    ensures InsertBefore(r, k, x) == r[..k] + [x] + r[k..]
  {
  }

  /**
   * Away from the sentinel's position 0 the move reads directly: the moved
   * link is lifted out and dropped in front of position `a`; the links in
   * between shift by one, and the one at `a` is not sent to `b`, so this is
   * not a symmetric exchange.
   */
  lemma MoveBeforeLayout(r: seq<Node>, a: nat, b: nat)
    requires 0 < a < |r| && 0 < b < |r| && a != b
    ensures a < b ==> MoveBefore(r, a, b) == r[..a] + [r[b]] + r[a..b] + r[b + 1..]
    ensures b < a ==> MoveBefore(r, a, b) == r[..b] + r[b + 1..a] + [r[b]] + r[a..]
  {
    var t := Remove(r, b);
    if a < b {
      MoveForward(r, t, a, b);
    } else {
      MoveBackward(r, t, a, b);
    }
  }

  lemma MoveForward(r: seq<Node>, t: seq<Node>, a: nat, b: nat)
    requires 0 < a < b < |r| && t == Remove(r, b)
    ensures InsertBefore(t, a, r[b]) == r[..a] + [r[b]] + r[a..b] + r[b + 1..]
  {
    InsertBeforeInner(t, a, r[b]);
    assert t[..a] == r[..a];
    assert t[a..] == r[a..b] + r[b + 1..];
  }

  lemma MoveBackward(r: seq<Node>, t: seq<Node>, a: nat, b: nat)
    requires 0 < b < a < |r| && t == Remove(r, b)
    ensures InsertBefore(t, a - 1, r[b]) == r[..b] + r[b + 1..a] + [r[b]] + r[a..]
  {
    InsertBeforeInner(t, a - 1, r[b]);
    assert t[..a - 1] == r[..b] + r[b + 1..a];
    assert t[a - 1..] == r[a..];
  }

  /**
   * Once the link at `b` is removed: where the link at `a` sits, which link
   * now precedes it, and that the removed link is off the ring.
   */
  lemma RemovedPosition(r: seq<Node>, a: nat, b: nat)
    requires Distinct(r) && a < |r| && b < |r| && a != b
    ensures var t := Remove(r, b);
            var a' := if a < b then a else a - 1;
            a' < |t| && t[a'] == r[a] && r[b] !in t
            && t[Pred(a', |t|)] == (if Pred(a, |r|) == b then r[Pred(b, |r|)] else r[Pred(a, |r|)])
  {
    var t := Remove(r, b);
    var n := |r|;
    var a' := if a < b then a else a - 1;
    forall i | 0 <= i < |t|
      ensures t[i] != r[b]
    {
      assert t[i] == r[if i < b then i else i + 1];
    }
    if a' == 0 {
      assert t[|t| - 1] == r[if b == n - 1 then n - 2 else n - 1];
    } else {
      assert t[a' - 1] == r[if a' - 1 < b then a' - 1 else a'];
    }
  }

  /**
   * cdll_swap_nodes: nothing happens when the two links are the same;
   * otherwise `newfirst` is deleted and inserted at the tail of `oldfirst`,
   * which leaves it right before `oldfirst`.
   */
  method Swap(oldfirst: Node, newfirst: Node, ghost r: seq<Node>, ghost a: nat, ghost b: nat)
    requires IsRing(r) && a < |r| && b < |r| && oldfirst == r[a] && newfirst == r[b]
    modifies r[Pred(b, |r|)], newfirst, r[Succ(b, |r|)], oldfirst, r[Pred(a, |r|)]
    ensures a == b ==> forall n :: n in r ==> n.next == old(n.next) && n.prev == old(n.prev)
    ensures a != b ==> IsRing(MoveBefore(r, a, b)) && newfirst.next == oldfirst && oldfirst.prev == newfirst
  {
    SamePosition(r, a, b);
    if oldfirst != newfirst {
      Delete(newfirst, r, b);
      ghost var t := Remove(r, b);
      ghost var a' := if a < b then a else a - 1;
      RemovedPosition(r, a, b);
      assert IsRing(t) && t[a'] == oldfirst;
      assert t[Pred(a', |t|)] in {r[Pred(b, |r|)], r[Pred(a, |r|)]};
      InsertTail(newfirst, oldfirst, t, a');
    }
  }

  /** On a ring, two positions hold the same link only if they are the same position. */
  lemma SamePosition(r: seq<Node>, a: nat, b: nat)
    requires Distinct(r) && a < |r| && b < |r|
    ensures r[a] == r[b] <==> a == b
  {
  }

  /** The sequence in reverse order. */
  function Reversed(s: seq<Node>): (t: seq<Node>)
    ensures |t| == |s|
    ensures forall i :: 0 <= i < |s| ==> t[i] == s[|s| - 1 - i]
  {
    if s == [] then [] else Reversed(s[1..]) + [s[0]]
  }

  /**
   * cdll_for_each: starting at head's successor, visit links along `next`
   * until the cursor is back at `head`: the list's elements, in order, each
   * once, and nothing is written.
   */
  method ForEach(head: Node, ghost r: seq<Node>) returns (visited: seq<Node>)
    requires IsRing(r) && head == r[0]
    ensures visited == Elements(r)
  {
    visited := [];
    var pos := head.next;
    ghost var i := 1;
    while pos != head
      invariant 1 <= i <= |r| && pos == r[if i < |r| then i else 0]
      invariant visited == r[1..i]
      decreases |r| - i
    {
      assert i < |r|;
      visited := visited + [pos];
      pos := pos.next;
      i := i + 1;
    }
  }

  /**
   * cdll_for_each_rev: the same walk along `prev`, starting at head's
   * predecessor: the list's elements in exactly the reverse order.
   */
  method ForEachRev(head: Node, ghost r: seq<Node>) returns (visited: seq<Node>)
    requires IsRing(r) && head == r[0]
    ensures visited == Reversed(Elements(r))
  {
    visited := [];
    var pos := head.prev;
    ghost var i := |r| - 1;
    while pos != head
      invariant 0 <= i < |r| && pos == r[i]
      invariant visited == Reversed(r[i + 1..])
      decreases i
    {
      assert i > 0;
      assert r[i..][1..] == r[i + 1..];
      visited := visited + [pos];
      pos := pos.prev;
      i := i - 1;
    }
  }

  lemma ReversedSnoc(s: seq<Node>, x: Node)
    ensures Reversed(s + [x]) == [x] + Reversed(s)
  {
    var u, v := Reversed(s + [x]), [x] + Reversed(s);
    assert |u| == |v|;
    forall i | 0 <= i < |u|
      ensures u[i] == v[i]
    {
      if i > 0 {
        assert (s + [x])[|s| - i] == s[|s| - 1 - (i - 1)];
      }
    }
  }

  /**
   * Links put one after another at the tail of a list come back from
   * ForEach in the order they were put in: the list is a queue (FIFO).
   */
  method FillQueue(head: Node, nodes: seq<Node>, ghost r: seq<Node>)
    requires IsRing(r) && head == r[0] && Distinct(r + nodes)
    modifies r, nodes
    ensures IsRing(r + nodes) && Elements(r + nodes) == Elements(r) + nodes
  {
    ghost var ring := r;
    assert r + nodes[..0] == r;
    for i := 0 to |nodes|
      invariant ring == r + nodes[..i]
      invariant IsRing(ring)
    {
      QueueFresh(r, nodes, i);
      QueueStep(r, nodes, i);
      InsertTail(nodes[i], head, ring, 0);
      ring := InsertBefore(ring, 0, nodes[i]);
    }
    assert nodes[..|nodes|] == nodes;
    assert (r + nodes)[1..] == r[1..] + nodes;
  }

  /** One append of FillQueue, on the ghost ring. */
  lemma QueueStep(r: seq<Node>, nodes: seq<Node>, i: nat)
    requires |r| > 0 && i < |nodes|
    ensures InsertBefore(r + nodes[..i], 0, nodes[i]) == r + nodes[..i + 1]
  {
    assert nodes[..i + 1] == nodes[..i] + [nodes[i]];
  }

  /** Before `nodes[i]` is appended, it is not on the ring yet, and the link before the head is one of the links. */
  lemma QueueFresh(r: seq<Node>, nodes: seq<Node>, i: nat)
    requires |r| > 0 && Distinct(r + nodes) && i < |nodes|
    ensures var ring := r + nodes[..i];
            nodes[i] !in ring && ring[Pred(0, |ring|)] in r + nodes
  {
    var ring := r + nodes[..i];
    var all := r + nodes;
    assert all[|r| + i] == nodes[i];
    forall m | 0 <= m < |ring|
      ensures ring[m] != nodes[i]
    {
      assert ring[m] == all[m];
    }
    assert ring[|ring| - 1] == all[|ring| - 1];
  }

  /**
   * Links put one after another at the head of a list come back from
   * ForEach last-in first: the list is a stack (FILO).
   */
  method FillStack(head: Node, nodes: seq<Node>, ghost r: seq<Node>)
    requires IsRing(r) && head == r[0] && Distinct(r + nodes)
    modifies r, nodes
    ensures IsRing([head] + Reversed(nodes) + Elements(r))
    ensures Elements([head] + Reversed(nodes) + Elements(r)) == Reversed(nodes) + Elements(r)
  {
    ghost var ring := r;
    assert r == [head] + Reversed(nodes[..0]) + r[1..];
    for i := 0 to |nodes|
      invariant ring == [head] + Reversed(nodes[..i]) + r[1..]
      invariant IsRing(ring)
    {
      StackFresh(r, nodes, i);
      StackStep(r, nodes, i);
      InsertHead(nodes[i], head, ring, 0);
      ring := InsertAfter(ring, 0, nodes[i]);
    }
    assert nodes[..|nodes|] == nodes;
    assert ring[1..] == Reversed(nodes) + r[1..];
  }

  /** One push of FillStack, on the ghost ring: the new link lands first among the elements. */
  lemma StackStep(r: seq<Node>, nodes: seq<Node>, i: nat)
    requires |r| > 0 && i < |nodes|
    ensures InsertAfter([r[0]] + Reversed(nodes[..i]) + r[1..], 0, nodes[i])
            == [r[0]] + Reversed(nodes[..i + 1]) + r[1..]
  {
    ReversedSnoc(nodes[..i], nodes[i]);
    assert nodes[..i + 1] == nodes[..i] + [nodes[i]];
  }

  /** Before the push of `nodes[i]`, it is not on the ring yet, and its new successor is one of the links. */
  lemma StackFresh(r: seq<Node>, nodes: seq<Node>, i: nat)
    requires |r| > 0 && Distinct(r + nodes) && i < |nodes|
    ensures var ring := [r[0]] + Reversed(nodes[..i]) + r[1..];
            nodes[i] !in ring && ring[Succ(0, |ring|)] in r + nodes
  {
    var ring := [r[0]] + Reversed(nodes[..i]) + r[1..];
    var all := r + nodes;
    assert all[|r| + i] == nodes[i];
    forall m | 0 <= m < |ring|
      ensures ring[m] != nodes[i]
    {
      var m' := if m == 0 then 0 else if m <= i then |r| + i - m else m - i;
      assert ring[m] == all[m'];
    }
    var m' := if |ring| == 1 then 0 else if i > 0 then |r| + i - 1 else 1;
    assert ring[Succ(0, |ring|)] == all[m'];
  }
}
