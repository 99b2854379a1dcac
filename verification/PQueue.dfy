// A priority queue as a binary heap in an array (scamp/src/pqueue.c).

module PQueues {
  import opened Basics

  /** An element with its priority index; the lowest index comes first. */
  datatype PNode<T> = PNode(element: T, p: int)

  // ---- Heaps as sequences ----

  function Father(i: int): int {
    (i - 1) / 2
  }

  /** Every node but possibly `hole` is at least its father. */
  ghost predicate HeapAbove<T>(s: seq<PNode<T>>, hole: int) {
    forall i :: 0 < i < |s| && i != hole ==> s[Father(i)].p <= s[i].p
  }

  /** Every node whose father is not `hole` is at least its father. */
  ghost predicate HeapBelow<T>(s: seq<PNode<T>>, hole: int) {
    forall i :: 0 < i < |s| && Father(i) != hole ==> s[Father(i)].p <= s[i].p
  }

  /** The sons of `hole` are at least its father. */
  ghost predicate Bridged<T>(s: seq<PNode<T>>, hole: int) {
    forall i :: 0 < i < |s| && Father(i) == hole && hole > 0 ==> s[Father(hole)].p <= s[i].p
  }

  ghost predicate IsHeap<T>(s: seq<PNode<T>>) {
    HeapAbove(s, -1)
  }

  function Swapped<T>(s: seq<PNode<T>>, i: int, j: int): seq<PNode<T>>
    requires 0 <= i < |s| && 0 <= j < |s|
  {
    s[i := s[j]][j := s[i]]
  }

  lemma SwappedMultiset<T>(s: seq<PNode<T>>, i: int, j: int)
    requires 0 <= i < |s| && 0 <= j < |s|
    ensures multiset(Swapped(s, i, j)) == multiset(s)
  {
  }

  /** Moving a too light node up: the hole moves to the father. */
  lemma SwapUp<T>(s: seq<PNode<T>>, pos: int)
    requires 0 < pos < |s| && HeapAbove(s, pos) && Bridged(s, pos) && s[pos].p < s[Father(pos)].p
    ensures var s' := Swapped(s, pos, Father(pos)); HeapAbove(s', Father(pos)) && Bridged(s', Father(pos))
  {
    var f, s' := Father(pos), Swapped(s, pos, Father(pos));
    forall i | 0 < i < |s| && i != f ensures s'[Father(i)].p <= s'[i].p {
      if Father(i) == pos {
      } else if Father(i) == f {
      }
    }
  }

  /** Moving a too heavy node down: the hole moves to the lighter son. */
  lemma SwapDown<T>(s: seq<PNode<T>>, pos: int, son: int)
    requires 0 <= pos < son < |s| && Father(son) == pos && HeapBelow(s, pos) && Bridged(s, pos)
    requires s[son].p <= s[pos].p
    requires forall i :: 0 < i < |s| && Father(i) == pos ==> s[son].p <= s[i].p
    ensures var s' := Swapped(s, pos, son); HeapBelow(s', son) && Bridged(s', son)
  {
  }

  lemma SettledDown<T>(s: seq<PNode<T>>, pos: int)
    requires 0 <= pos && HeapBelow(s, pos)
    requires forall i :: 0 < i < |s| && Father(i) == pos ==> s[pos].p <= s[i].p
    ensures IsHeap(s)
  {
  }

  /** The root of a heap has the lowest priority index. */
  lemma {:induction false} RootIsLowest<T>(s: seq<PNode<T>>, i: int)
    requires IsHeap(s) && 0 <= i < |s|
    ensures s[0].p <= s[i].p
    decreases i
  {
    if i > 0 {
      RootIsLowest(s, Father(i));
    }
  }

  // ---- The queue ----

  class PQueue<T> {
    var node: array<PNode<T>>
    var nnode: nat

    ghost predicate Valid()
      reads this, node
    {
      nnode <= node.Length && IsHeap(node[..nnode])
    }

    ghost function Contents(): multiset<PNode<T>>
      reads this, node
      requires nnode <= node.Length
    {
      multiset(node[..nnode])
    }

    /** pqueue_new. */
    constructor ()
      ensures Valid() && fresh(node) && Contents() == multiset{}
    {
      node := new PNode<T>[0];
      nnode := 0;
    }

    /** The reallocation at the start of pqueue_insertelement. */
    method Grow(filler: PNode<T>)
      requires nnode <= node.Length
      modifies this
      ensures nnode == old(nnode) < node.Length && node[..nnode] == old(node[..nnode])
      ensures node == old(node) || fresh(node)
    {
      if nnode >= node.Length {
        var full := node;
        node := new PNode<T>[full.Length + 64](i requires 0 <= i reads full => if i < full.Length then full[i]
          else filler);
      }
    }

    /** Exchange of two nodes. */
    method Swap(i: nat, j: nat)
      requires i < nnode && j < nnode <= node.Length
      modifies node
      ensures node[..nnode] == Swapped(old(node[..nnode]), i, j)
    {
      var tnode := node[j];
      node[j] := node[i];
      node[i] := tnode;
    }

    /** The loop of pqueue_insertelement. */
    method SiftUp(start: nat)
      requires start < nnode <= node.Length && HeapAbove(node[..nnode], start) && Bridged(node[..nnode], start)
      modifies node
      ensures Valid() && Contents() == old(Contents())
    {
      hide HeapAbove, Bridged, Swapped;
      var pos := start;
      while pos > 0 && node[pos].p < node[(pos - 1) / 2].p
        invariant 0 <= pos < nnode
        invariant HeapAbove(node[..nnode], pos) && Bridged(node[..nnode], pos)
        invariant multiset(node[..nnode]) == old(Contents())
      {
        SwapUp(node[..nnode], pos);
        SwappedMultiset(node[..nnode], pos, Father(pos));
        Swap(pos, (pos - 1) / 2);
        pos := (pos - 1) / 2;
      }
      SettledUp(node[..nnode], pos);
    }

    /** pqueue_insertelement. */
    method InsertElement(element: T, priority: int)
      requires Valid()
      modifies this, node
      ensures Valid() && (node == old(node) || fresh(node))
      ensures Contents() == old(Contents()) + multiset{PNode(element, priority)}
    {
      Grow(PNode(element, priority));
      ghost var s := node[..nnode];
      var pos := nnode;
      nnode := nnode + 1;
      node[pos] := PNode(element, priority);
      assert node[..nnode] == s + [PNode(element, priority)];
      AppendedHeap(s, PNode(element, priority));
      SiftUp(pos);
    }

    /** The loop of pqueue_pullelement. */
    method SiftDown()
      requires nnode <= node.Length && HeapBelow(node[..nnode], 0)
      modifies node
      ensures Valid() && Contents() == old(Contents())
    {
      hide HeapBelow, Bridged, Swapped, Father, IsHeap;
      var pos := 0;
      RootBridged(node[..nnode]);
      while pos * 2 + 1 < nnode
        invariant 0 <= pos && (pos < nnode || nnode == 0)
        invariant HeapBelow(node[..nnode], pos) && Bridged(node[..nnode], pos)
        invariant multiset(node[..nnode]) == old(Contents())
        decreases nnode - pos
      {
        var son := pos * 2 + 1;
        if son + 1 < nnode && node[son + 1].p < node[son].p {
          son := son + 1;
        }
        LighterSon(node[..nnode], pos, son);
        if node[pos].p < node[son].p {
          SettledDown(node[..nnode], pos);
          return;
        }
        SwapDown(node[..nnode], pos, son);
        SwappedMultiset(node[..nnode], pos, son);
        Swap(pos, son);
        pos := son;
      }
      NoSons(node[..nnode], pos);
      SettledDown(node[..nnode], pos);
    }

    /** pqueue_pullelement: an element of lowest priority index `p`, if there is any. */
    method PullElement() returns (r: Option<T>, ghost p: int)
      requires Valid()
      modifies this, node
      ensures Valid() && node == old(node)
      ensures r.None? <==> old(Contents()) == multiset{}
      ensures r.None? ==> Contents() == multiset{}
      ensures r.Some? ==>
        PNode(r.value, p) in old(Contents()) && Contents() == old(Contents()) - multiset{PNode(r.value, p)}
      ensures r.Some? ==> forall e :: e in old(Contents()) ==> p <= e.p
    {
      if nnode == 0 {
        return None, 0;
      }
      ghost var s := node[..nnode];
      assert s[0] in multiset(s);
      LowestInHeap(s);
      r, p := Some(node[0].element), node[0].p;
      nnode := nnode - 1;
      node[0] := node[nnode];
      TopReplaced(s, node[..nnode]);
      SiftDown();
    }
  }

  lemma SettledUp<T>(s: seq<PNode<T>>, pos: int)
    requires 0 <= pos < |s| && HeapAbove(s, pos) && (pos > 0 ==> s[Father(pos)].p <= s[pos].p)
    ensures IsHeap(s)
  {
  }

  lemma AppendedHeap<T>(s: seq<PNode<T>>, e: PNode<T>)
    requires IsHeap(s)
    ensures HeapAbove(s + [e], |s|) && Bridged(s + [e], |s|)
  {
  }

  lemma RootBridged<T>(s: seq<PNode<T>>)
    ensures Bridged(s, 0)
  {
  }

  lemma LighterSon<T>(s: seq<PNode<T>>, pos: int, son: int)
    requires 0 <= pos < |s| && 2 * pos + 1 < |s|
    requires son == if 2 * pos + 2 < |s| && s[2 * pos + 2].p < s[2 * pos + 1].p then 2 * pos + 2 else 2 * pos + 1
    ensures Father(son) == pos && forall i :: 0 < i < |s| && Father(i) == pos ==> s[son].p <= s[i].p
  {
  }

  lemma NoSons<T>(s: seq<PNode<T>>, pos: int)
    requires 0 <= pos && 2 * pos + 1 >= |s|
    ensures forall i :: 0 < i < |s| ==> Father(i) != pos
  {
  }

  lemma LowestInHeap<T>(s: seq<PNode<T>>)
    requires IsHeap(s) && |s| > 0
    ensures forall e :: e in multiset(s) ==> s[0].p <= e.p
  {
    forall e | e in multiset(s) ensures s[0].p <= e.p {
      var i :| 0 <= i < |s| && s[i] == e;
      RootIsLowest(s, i);
    }
  }

  /** The last node replaces the root: the root leaves the heap, and only the new root may be out of order. */
  lemma TopReplaced<T>(s: seq<PNode<T>>, s': seq<PNode<T>>)
    requires IsHeap(s) && |s| == |s'| + 1
    requires |s'| > 0 ==> s' == s[..|s'|][0 := s[|s'|]]
    ensures HeapBelow(s', 0) && multiset(s') == multiset(s) - multiset{s[0]}
  {
    var n := |s'|;
    assert s == s[..n] + [s[n]];
    if n > 0 {
      assert s[..n] == [s[0]] + s[1..n];
      assert s' == [s[n]] + s[1..n];
    }
  }
}
