// Which trees tree_knn searches correctly, and one that it does not (scamp/src/quadtree.c).

module QuadEdge {
  import opened Basics
  import opened Bits
  import opened QuadTrees
  import opened QuadDistance
  import opened QuadNodes
  import opened QuadSearch

  // ---- Trees that are searched correctly ----

  /** Trees built from indices below the upper edge have all leaves in their cells, and so are graded. */
  lemma {:induction false} BuiltGraded<T>(entries: seq<Entry<T>>, q: Index)
    requires forall n :: 0 <= n < |entries| ==>
      Accepted(entries[n].0, TREE_MAXDEPTH) && InRange(entries[n].0, TREE_MAXDEPTH)
    ensures Cells(Built(entries, TREE_MAXDEPTH), TREE_MAXDEPTH, Index(0, 0))
    ensures Graded(Built(entries, TREE_MAXDEPTH), TREE_MAXDEPTH, q)
  {
    hide Graded, Inserted, Pow2;
    if entries != [] {
      var n := |entries| - 1;
      BuiltGraded(entries[..n], q);
      OriginCell(entries[n].0);
      InsertedCells(Built(entries[..n], TREE_MAXDEPTH), TREE_MAXDEPTH, Index(0, 0), entries[n].0, entries[n].1);
    }
    CellsGraded(Built(entries, TREE_MAXDEPTH), TREE_MAXDEPTH, Index(0, 0), q);
  }

  /** So a search in them finds the nearest leaves in the plane, up to truncation. */
  lemma BuiltNearest<T>(entries: seq<Entry<T>>, q: Index, found: seq<Entry<T>>)
    requires forall n :: 0 <= n < |entries| ==>
      Accepted(entries[n].0, TREE_MAXDEPTH) && InRange(entries[n].0, TREE_MAXDEPTH)
    requires Foremost(Leaves(Built(entries, TREE_MAXDEPTH)), found, q, Built(entries, TREE_MAXDEPTH))
    ensures NearestInPlane(Leaves(Built(entries, TREE_MAXDEPTH)), found, q)
  {
    hide *;
    BuiltGraded(entries, q);
    BuiltRoutedHere(entries);
    CellsNearest(Built(entries, TREE_MAXDEPTH), found, q);
  }

  lemma BuiltRoutedHere<T>(entries: seq<Entry<T>>)
    requires forall n :: 0 <= n < |entries| ==> Accepted(entries[n].0, TREE_MAXDEPTH)
    ensures Routed(Built(entries, TREE_MAXDEPTH), TREE_MAXDEPTH)
  {
    hide Routed, Built, Pow2;
    BuiltRouted(entries, TREE_MAXDEPTH);
  }

  lemma OriginCell(i: Index)
    requires InRange(i, TREE_MAXDEPTH)
    ensures Aligned(Index(0, 0), TREE_MAXDEPTH) && InCell(i, Index(0, 0), TREE_MAXDEPTH) && Accepted(i, TREE_MAXDEPTH)
  {
  }

  // ---- When the nearest leaves are found ----

  /** A farther leaf comes sooner than a nearer one. */
  ghost predicate Overtakes<T>(t: Quad<T>, q: Index, m: Entry<T>, l: Entry<T>)
    requires Formed(t)
  {
    l in Leaves(t) && m in Leaves(t) && LeafDistance(l, q) < LeafDistance(m, q) && Sooner(t, m, l, q)
  }

  /** No two leaves at different distances have ways of the same length. */
  ghost predicate Decided<T>(t: Quad<T>, q: Index)
    requires Formed(t)
  {
    forall l, m :: l in Leaves(t) && m in Leaves(t) && LeafDistance(l, q) < LeafDistance(m, q) ==>
      Stretch(t, l, m, q) != Stretch(t, m, l, q)
  }

  /** A farther leaf is found, but not this one. */
  ghost predicate PassedOver<T>(found: seq<Entry<T>>, l: Entry<T>, q: Index) {
    l !in found && exists m :: m in found && LeafDistance(l, q) < LeafDistance(m, q)
  }

  /** The first leaves found are what a search for so many leaves finds. */
  lemma FirstForemost<T>(whole: set<Entry<T>>, found: seq<Entry<T>>, q: Index, root: Quad<T>, k: nat)
    requires Foremost(whole, found, q, root) && k <= |found|
    ensures Foremost(whole, found[..k], q, root)
  {
    hide Sooner;
    assert Elements(found[..k]) <= Elements(found);
    forall j, l | 0 <= j < k && l in whole && Sooner(root, l, found[..k][j], q) ensures l in found[..k][..j] {
      assert found[..k][..j] == found[..j];
    }
  }

  /** Two leaves in the wrong order: no search that finds one of them finds the nearest leaves. */
  lemma OvertakenNotNearest<T>(t: Quad<T>, q: Index, m: Entry<T>, l: Entry<T>, found: seq<Entry<T>>)
    requires Formed(t) && Overtakes(t, q, m, l) && Foremost(Leaves(t), found, q, t) && (l in found || m in found)
    ensures m in found && !Nearest(Leaves(t), found, q)
  {
    hide LeafDistance, Sooner, Leaves;
    if l in found {
      var j :| 0 <= j < |found| && found[j] == l;
      assert m in found[..j];
      var i :| 0 <= i < j && found[..j][i] == m;
      assert found[i] == m;
    }
  }

  /** The search that ends with the farther leaf leaves the nearer one out. */
  lemma OvertakenLeftOut<T>(t: Quad<T>, q: Index, m: Entry<T>, l: Entry<T>, found: seq<Entry<T>>) returns (k: nat)
    requires Formed(t) && Overtakes(t, q, m, l) && Foremost(Leaves(t), found, q, t) && m in found
    ensures 0 < k <= |found| && Foremost(Leaves(t), found[..k], q, t) && PassedOver(found[..k], l, q)
  {
    hide LeafDistance, Leaves, Sooner;
    var i :| 0 <= i < |found| && found[i] == m;
    k := i + 1;
    FirstForemost(Leaves(t), found, q, t, k);
    FoundInTurn(Leaves(t), found, q, t);
    assert found[..k][i] == m;
  }

  lemma AllFound<T>(whole: set<Entry<T>>, found: seq<Entry<T>>)
    requires Retrieved(whole, found) && |found| == |whole|
    ensures forall l :: l in whole ==> l in found
  {
    DistinctCount(found);
    forall l | l in whole ensures l in found {
      if l !in Elements(found) {
        SubsetCount(Elements(found), whole - {l});
      }
    }
  }

  /** A search for all leaves, whose first k are found by a search for k of them. If nearer leaves come sooner, it finds
      the nearest k for every k; if a farther leaf comes sooner than a nearer one, it leaves the nearer one out for some
      k, and so exactly in that case unless ways of the same length leave it to the queue. */
  lemma NearestExactly<T>(t: Quad<T>, q: Index, found: seq<Entry<T>>)
    requires Formed(t) && Foremost(Leaves(t), found, q, t) && |found| == |Leaves(t)|
    ensures Agrees(t, q) ==> forall k :: 0 <= k <= |found| ==> Nearest(Leaves(t), found[..k], q)
    ensures forall m, l :: Overtakes(t, q, m, l) ==>
      exists k :: 0 < k <= |found| && Foremost(Leaves(t), found[..k], q, t) && PassedOver(found[..k], l, q)
    ensures Decided(t, q) ==>
      (Agrees(t, q) <==> forall k :: 0 <= k <= |found| ==> Nearest(Leaves(t), found[..k], q))
  {
    hide *;
    if Agrees(t, q) {
      forall k | 0 <= k <= |found| ensures Nearest(Leaves(t), found[..k], q) {
        FirstForemost(Leaves(t), found, q, t, k);
        AgreeingNearest(t, found[..k], q);
      }
    } else if Decided(t, q) {
      var m, l := SomeOvertaken(t, q);
      OvertakenFound(t, q, m, l, found);
      OvertakenNotNearest(t, q, m, l, found);
      assert found[..|found|] == found;
    }
    forall m, l | Overtakes(t, q, m, l)
      ensures exists k :: 0 < k <= |found| && Foremost(Leaves(t), found[..k], q, t) && PassedOver(found[..k], l, q)
    {
      OvertakenFound(t, q, m, l, found);
      var k := OvertakenLeftOut(t, q, m, l, found);
    }
  }

  lemma OvertakenFound<T>(t: Quad<T>, q: Index, m: Entry<T>, l: Entry<T>, found: seq<Entry<T>>)
    requires Formed(t) && Overtakes(t, q, m, l) && Foremost(Leaves(t), found, q, t) && |found| == |Leaves(t)|
    ensures m in found
  {
    hide LeafDistance, Leaves, Sooner, InTurn;
    AllFound(Leaves(t), found);
  }

  lemma SomeOvertaken<T>(t: Quad<T>, q: Index) returns (m: Entry<T>, l: Entry<T>)
    requires Formed(t) && Decided(t, q) && !Agrees(t, q)
    ensures Overtakes(t, q, m, l)
  {
    hide LeafDistance, Leaves, Stretch;
    l, m :| l in Leaves(t) && m in Leaves(t) && LeafDistance(l, q) < LeafDistance(m, q) && !Sooner(t, l, m, q);
  }

  // ---- A leaf on the upper edge ----

  /** Indices on the upper edge, at a quarter of the range, and `h` beyond the middle. */
  ghost function EdgeEntries<T>(depth: nat, h: nat, a: T, b: T, c: T): (entries: seq<Entry<T>>)
    requires depth >= 3 && h < Pow2(depth - 1)
    ensures forall n :: 0 <= n < |entries| ==> Accepted(entries[n].0, depth)
  {
    [(Index(Pow2(depth), 0), a), (Index(Pow2(depth - 2), 0), b), (Index(Pow2(depth - 1) + h, 0), c)]
  }

  /** The tree built from them. */
  ghost function EdgeTree<T>(depth: nat, h: nat, a: T, b: T, c: T): (t: Quad<T>)
    requires depth >= 3 && h < Pow2(depth - 1)
    ensures Formed(t)
  {
    Built(EdgeEntries(depth, h, a, b, c), depth)
  }

  lemma BuiltLast<T>(entries: seq<Entry<T>>, e: Entry<T>, depth: nat)
    requires forall n :: 0 <= n < |entries| ==> Accepted(entries[n].0, depth)
    requires Accepted(e.0, depth)
    ensures Built(entries + [e], depth) == Inserted(Built(entries, depth), depth, e.0, e.1)
    ensures Built<T>([], depth) == Absent
  {
    hide Pow2, Inserted;
    assert (entries + [e])[..|entries|] == entries;
  }

  lemma EdgeTreeSteps<T>(depth: nat, h: nat, a: T, b: T, c: T)
    requires depth >= 3 && h < Pow2(depth - 1)
    ensures EdgeTree(depth, h, a, b, c) ==
      Inserted(Inserted(Leaf(Index(Pow2(depth), 0), a), depth, Index(Pow2(depth - 2), 0), b), depth,
               Index(Pow2(depth - 1) + h, 0), c)
  {
    var s := EdgeEntries(depth, h, a, b, c);
    InsertedFirst(depth, s[0].0, a);
    hide Pow2, Inserted, Built;
    assert s == [s[0], s[1]] + [s[2]] && [s[0], s[1]] == [s[0]] + [s[1]] && [s[0]] == [] + [s[0]];
    BuiltLast([], s[0], depth);
    BuiltLast([s[0]], s[1], depth);
    BuiltLast([s[0], s[1]], s[2], depth);
  }

  lemma InsertedFirst<T>(depth: nat, i: Index, item: T)
    requires depth > 0 && NonNegative(i)
    ensures Inserted(Absent, depth, i, item) == Leaf(i, item)
  {
  }

  lemma PowerBit(v: nat, d: nat, p: nat)
    requires p == Pow2(d) && v < 2 * p
    ensures Bit(v, d) == if v < p then 0 else 1
    ensures v < p ==> (v / p) * p == 0
  {
    hide Pow2;
    DivModUnique(v, p, if v < p then 0 else 1, if v < p then v else v - p);
  }

  lemma EdgeBits(depth: nat, h: nat)
    requires depth >= 3 && h < Pow2(depth - 1)
    ensures var e, i, j := Index(Pow2(depth), 0), Index(Pow2(depth - 2), 0), Index(Pow2(depth - 1) + h, 0);
      && ChildOf(e, depth - 1) == 0 && ChildOf(e, depth - 2) == 0
      && ChildOf(i, depth - 1) == 0 && ChildOf(i, depth - 2) == 1
      && ChildOf(j, depth - 1) == 1 && Truncated(i, depth - 1) == Index(0, 0)
  {
    hide Bit;
    var p := Pow2(depth - 2);
    EdgeBit(depth, depth - 1);
    EdgeBit(depth, depth - 2);
    PowerBit(p, depth - 1, 2 * p);
    PowerBit(0, depth - 1, 2 * p);
    PowerBit(p, depth - 2, p);
    PowerBit(2 * p + h, depth - 1, 2 * p);
  }

  /** Two indices that part on the second level. */
  lemma PartedSecond<T>(corner: Index, depth: nat, i: Index, b: T, former: Entry<T>)
    requires depth >= 3 && NonNegative(i) && NonNegative(former.0)
    requires ChildOf(i, depth - 1) == 0 == ChildOf(former.0, depth - 1)
    requires ChildOf(i, depth - 2) == 1 && ChildOf(former.0, depth - 2) == 0
    ensures var son := Inner(Truncated(i, depth - 1), [Leaf(former.0, former.1), Leaf(i, b), Absent, Absent]);
      Parted(corner, depth, i, b, former) == Inner(corner, [son, Absent, Absent, Absent])
  {
    hide ChildOf, Truncated;
    var son := Parted(Truncated(i, depth - 1), depth - 1, i, b, former);
    assert son.kids == [Leaf(former.0, former.1), Leaf(i, b), Absent, Absent];
    assert EmptySlots<T>()[0 := son] == [son, Absent, Absent, Absent];
  }

  lemma InsertedOnPath<T>(t: Quad<T>, depth: nat, i: Index, item: T)
    requires depth >= 2 && Formed(t) && NonNegative(i)
    ensures t.Leaf? && t.index != i ==>
      Inserted(t, depth, i, item) == Parted(Truncated(t.index, depth), depth, i, item, (t.index, t.item))
    ensures t.Inner? && t.kids[ChildOf(i, depth - 1)].Absent? ==>
      Inserted(t, depth, i, item) == Inner(t.corner, t.kids[ChildOf(i, depth - 1) := Leaf(i, item)])
  {
    hide ChildOf, Truncated, Parted;
  }

  lemma SecondSlot<T>(son: Quad<T>, t: Quad<T>)
    ensures [son, Absent, Absent, Absent][1 := t] == [son, t, Absent, Absent]
  {
  }

  /** What the insertions build. */
  lemma EdgeTreeIs<T>(depth: nat, h: nat, a: T, b: T, c: T)
    requires depth >= 3 && h < Pow2(depth - 1)
    ensures var t := EdgeTree(depth, h, a, b, c);
      && t.Inner? && t.corner == Truncated(Index(Pow2(depth), 0), depth) && |t.kids| == 4
      && t.kids[0] == Inner(Index(0, 0),
        [Leaf(Index(Pow2(depth), 0), a), Leaf(Index(Pow2(depth - 2), 0), b), Absent, Absent])
      && t.kids[1] == Leaf(Index(Pow2(depth - 1) + h, 0), c) && t.kids[2] == t.kids[3] == Absent
  {
    EdgeBits(depth, h);
    EdgeTreeSteps(depth, h, a, b, c);
    HalfSide(depth - 1);
    hide ChildOf, Truncated, Pow2, Parted, Inserted, EdgeTree;
    var e, i, j := Index(Pow2(depth), 0), Index(Pow2(depth - 2), 0), Index(Pow2(depth - 1) + h, 0);
    PartedSecond(Truncated(e, depth), depth, i, b, (e, a));
    InsertedOnPath(Leaf(e, a), depth, i, b);
    var t := Inserted(Leaf(e, a), depth, i, b);
    SecondSlot(t.kids[0], Leaf(j, c));
    InsertedOnPath(t, depth, j, c);
  }

  /** The distance along one axis. */
  lemma AxisRoot(v: nat, w: int)
    requires w == 0
    ensures FloorSqrt(Square(v) + Square(w)) == v
  {
    hide FloorSqrt;
    var f := FloorSqrt(Square(v) + Square(w));
    SquaresOrdered(v, f);
    SquaresOrdered(f, v);
  }

  lemma NodeOnAxis<T>(node: Quad<T>, depth: nat, q: Index, side: nat)
    requires node.Inner? && node.corner == Index(0, 0) && side == Pow2(depth) && q == Index(2 * side, 0) && side > 0
    ensures Distance(node, depth, q) == side
  {
    hide FloorSqrt, Square, Pow2;
    AxisRoot(side, Gap(q.y, 0, side));
  }

  lemma LeafOnAxis<T>(i: Index, item: T, q: Index)
    requires i.y == q.y && i.x <= q.x
    ensures LeafDistance((i, item), q) == q.x - i.x
  {
    hide FloorSqrt, Square;
    AxisRoot(q.x - i.x, q.y - i.y);
  }

  lemma PartedWays<T>(t: Quad<T>, depth: nat, i: Index, j: Index, q: Index)
    requires t.Inner? && depth > 0 && |t.kids| == 4 && NonNegative(i) && NonNegative(j)
    ensures var b, c := ChildOf(i, depth - 1), ChildOf(j, depth - 1);
      Bottleneck(t, depth, i, j, q) ==
        if b == c then Bottleneck(t.kids[b], depth - 1, i, j, q) else Reach(t.kids[b], depth - 1, i, q)
  {
    hide Distance, ChildOf, Reach;
  }

  lemma LeafReached<T>(t: Quad<T>, depth: nat, i: Index, q: Index)
    ensures t.Leaf? ==> Reach(t, depth, i, q) == LeafDistance((t.index, t.item), q)
    ensures t.Inner? && depth > 0 && |t.kids| == 4 && NonNegative(i) && t.kids[ChildOf(i, depth - 1)].Leaf? ==>
      var l := t.kids[ChildOf(i, depth - 1)];
      Reach(t, depth, i, q) == Larger(Distance(t, depth, q), LeafDistance((l.index, l.item), q))
  {
    hide ChildOf, FloorSqrt, Square, Gap;
  }

  /** How far the search has to go for the three leaves: for one of the two below the same son, to that node as well. */
  lemma EdgeWays<T>(depth: nat, h: nat, a: T, b: T, c: T, q: Index)
    requires depth >= 3 && h < Pow2(depth - 1)
    ensures var t, e, i, j := EdgeTree(depth, h, a, b, c), Index(Pow2(depth), 0), Index(Pow2(depth - 2), 0),
        Index(Pow2(depth - 1) + h, 0);
      && t.Inner? && |t.kids| == 4 && t.kids[0].Inner? && t.kids[0].corner == Index(0, 0)
      && Bottleneck(t, depth, j, e, q) == LeafDistance((j, c), q) == Bottleneck(t, depth, j, i, q)
      && Bottleneck(t, depth, e, j, q) == Larger(Distance(t.kids[0], depth - 1, q), LeafDistance((e, a), q))
      && Bottleneck(t, depth, i, j, q) == Larger(Distance(t.kids[0], depth - 1, q), LeafDistance((i, b), q))
      && Bottleneck(t, depth, e, i, q) == LeafDistance((e, a), q)
      && Bottleneck(t, depth, i, e, q) == LeafDistance((i, b), q)
  {
    EdgeTreeIs(depth, h, a, b, c);
    EdgeBits(depth, h);
    hide Pow2, EdgeTree, Distance, LeafDistance, ChildOf, Truncated, Reach, Bottleneck;
    var t, e, i, j := EdgeTree(depth, h, a, b, c), Index(Pow2(depth), 0), Index(Pow2(depth - 2), 0),
        Index(Pow2(depth - 1) + h, 0);
    PartedWays(t, depth, j, e, q);
    PartedWays(t, depth, j, i, q);
    LeafReached(t.kids[1], depth - 1, j, q);
    PartedWays(t, depth, e, j, q);
    PartedWays(t, depth, i, j, q);
    LeafReached(t.kids[0], depth - 1, e, q);
    LeafReached(t.kids[0], depth - 1, i, q);
    PartedWays(t, depth, e, i, q);
    PartedWays(t, depth, i, e, q);
    PartedWays(t.kids[0], depth - 1, e, i, q);
    PartedWays(t.kids[0], depth - 1, i, e, q);
    LeafReached(t.kids[0].kids[0], depth - 2, e, q);
    LeafReached(t.kids[0].kids[1], depth - 2, i, q);
  }

  /** The leaves of the tree. */
  lemma EdgeLeaves<T>(depth: nat, h: nat, a: T, b: T, c: T)
    requires depth >= 3 && h < Pow2(depth - 1)
    ensures Leaves(EdgeTree(depth, h, a, b, c)) ==
      {(Index(Pow2(depth), 0), a), (Index(Pow2(depth - 2), 0), b), (Index(Pow2(depth - 1) + h, 0), c)}
  {
    EdgeTreeIs(depth, h, a, b, c);
    hide EdgeTree, Pow2;
    var t := EdgeTree(depth, h, a, b, c);
    assert Leaves(t.kids[0]) == {(Index(Pow2(depth), 0), a), (Index(Pow2(depth - 2), 0), b)};
    assert Leaves(t.kids[1]) == {(Index(Pow2(depth - 1) + h, 0), c)};
  }

  /** Seen from the upper edge: the son with two leaves is farther away than the third leaf. */
  lemma SeenFromEdge<T>(depth: nat, h: nat, a: T, b: T, c: T)
    requires depth >= 3 && h < Pow2(depth - 1)
    ensures var t, q := EdgeTree(depth, h, a, b, c), Index(Pow2(depth), 0);
      && t.Inner? && |t.kids| == 4 && t.kids[0].Inner? && Distance(t.kids[0], depth - 1, q) == Pow2(depth - 1)
      && LeafDistance((q, a), q) == 0 && LeafDistance((Index(Pow2(depth - 1) + h, 0), c), q) == Pow2(depth - 1) - h
      && LeafDistance((Index(Pow2(depth - 2), 0), b), q) == 3 * Pow2(depth - 2)
  {
    hide *;
    EdgeWays(depth, h, a, b, c, Index(Pow2(depth), 0));
    HalfSide(depth);
    HalfSide(depth - 1);
    var t, q := EdgeTree(depth, h, a, b, c), Index(Pow2(depth), 0);
    NodeOnAxis(t.kids[0], depth - 1, q, Pow2(depth - 1));
    LeafOnAxis(Index(Pow2(depth - 1) + h, 0), c, q);
    LeafOnAxis(Index(Pow2(depth - 2), 0), b, q);
    LeafOnAxis(q, a, q);
  }

  /** Seen from the origin: the son with two leaves contains the query. */
  lemma SeenFromOrigin<T>(depth: nat, h: nat, a: T, b: T, c: T)
    requires depth >= 3 && h < Pow2(depth - 1)
    ensures var t, q := EdgeTree(depth, h, a, b, c), Index(0, 0);
      && t.Inner? && |t.kids| == 4 && t.kids[0].Inner? && Distance(t.kids[0], depth - 1, q) == 0
      && LeafDistance((Index(Pow2(depth), 0), a), q) == Pow2(depth)
      && LeafDistance((Index(Pow2(depth - 1) + h, 0), c), q) == Pow2(depth - 1) + h
      && LeafDistance((Index(Pow2(depth - 2), 0), b), q) == Pow2(depth - 2)
  {
    EdgeWays(depth, h, a, b, c, Index(0, 0));
    hide Distance, EdgeTree, Bottleneck, Pow2;
    var t := EdgeTree(depth, h, a, b, c);
    NodeAtOrigin(t.kids[0], depth - 1);
    FromOrigin(Pow2(depth), a);
    FromOrigin(Pow2(depth - 1) + h, c);
    FromOrigin(Pow2(depth - 2), b);
  }

  lemma NodeAtOrigin<T>(node: Quad<T>, depth: nat)
    requires node.Inner? && node.corner == Index(0, 0)
    ensures Distance(node, depth, Index(0, 0)) == 0
  {
    hide FloorSqrt, Square;
    assert Pow2(depth) >= 1;
    hide Pow2;
    AxisRoot(0, 0);
  }

  lemma FromOrigin<T>(v: nat, item: T)
    ensures LeafDistance((Index(v, 0), item), Index(0, 0)) == v
  {
    hide FloorSqrt;
    assert Square(0 - v) == Square(v);
    hide Square;
    AxisRoot(v, 0);
  }

  /** tree_knn misses the nearest leaf of this tree, which tree_insertleaf builds from three indices it accepts: the
      query is the index of the leaf on the upper edge, which hangs below a node that is farther away than another leaf;
      so when one leaf is asked for, this one is not found. */
  lemma EdgeLeafMissed<T>(depth: nat, h: nat, a: T, b: T, c: T, found: seq<Entry<T>>)
    requires depth == TREE_MAXDEPTH && 0 < h < Pow2(depth - 1)
    ensures var t, q := EdgeTree(depth, h, a, b, c), Index(Pow2(depth), 0);
      && Routed(t, depth) && (q, a) in Leaves(t) && LeafDistance((q, a), q) == 0
      && (forall l :: l in Leaves(t) && l != (q, a) ==> LeafDistance(l, q) > 0)
      && Overtakes(t, q, (Index(Pow2(depth - 1) + h, 0), c), (q, a))
      && (Foremost(Leaves(t), found, q, t) && |found| == 1 ==> (q, a) !in found)
  {
    hide *;
    DeepEnough(depth);
    EdgeOvertaken(depth, h, a, b, c);
    EdgeWayLonger(depth, h, a, b, c);
    var t, q, m := EdgeTree(depth, h, a, b, c), Index(Pow2(depth), 0), (Index(Pow2(depth - 1) + h, 0), c);
    SoonerAt(t, m, (q, a), q, depth);
    OvertakenBy(t, q, m, (q, a));
    if Foremost(Leaves(t), found, q, t) && |found| == 1 {
      OvertakenOnly(t, q, m, (q, a), found);
    }
  }

  lemma DeepEnough(depth: nat)
    requires depth == TREE_MAXDEPTH
    ensures depth >= 3
  {
  }

  lemma EdgeOvertaken<T>(depth: nat, h: nat, a: T, b: T, c: T)
    requires depth >= 3 && 0 < h < Pow2(depth - 1)
    ensures var t, q := EdgeTree(depth, h, a, b, c), Index(Pow2(depth), 0);
      && Routed(t, depth) && (q, a) in Leaves(t) && (Index(Pow2(depth - 1) + h, 0), c) in Leaves(t)
      && LeafDistance((q, a), q) == 0
      && forall l :: l in Leaves(t) && l != (q, a) ==> LeafDistance(l, q) > 0
  {
    EdgeLeaves(depth, h, a, b, c);
    SeenFromEdge(depth, h, a, b, c);
    BuiltRouted(EdgeEntries(depth, h, a, b, c), depth);
    hide Pow2, Leaves, LeafDistance, Routed, EdgeEntries, Built, Distance;
  }

  lemma EdgeWayLonger<T>(depth: nat, h: nat, a: T, b: T, c: T)
    requires depth >= 3 && 0 < h < Pow2(depth - 1)
    ensures var t, e, j := EdgeTree(depth, h, a, b, c), Index(Pow2(depth), 0), Index(Pow2(depth - 1) + h, 0);
      Bottleneck(t, depth, j, e, e) < Bottleneck(t, depth, e, j, e)
  {
    SeenFromEdge(depth, h, a, b, c);
    EdgeWays(depth, h, a, b, c, Index(Pow2(depth), 0));
    hide Pow2, EdgeTree, LeafDistance, Distance, Bottleneck;
  }

  lemma SoonerAt<T>(t: Quad<T>, l: Entry<T>, m: Entry<T>, q: Index, depth: nat)
    requires depth == TREE_MAXDEPTH
    ensures Sooner(t, l, m, q) <==> Bottleneck(t, depth, l.0, m.0, q) < Bottleneck(t, depth, m.0, l.0, q)
  {
    hide Bottleneck;
  }

  lemma OvertakenBy<T>(t: Quad<T>, q: Index, m: Entry<T>, l: Entry<T>)
    requires Formed(t) && l in Leaves(t) && m in Leaves(t) && LeafDistance(l, q) < LeafDistance(m, q)
    requires Sooner(t, m, l, q)
    ensures Overtakes(t, q, m, l)
  {
  }

  lemma OvertakenOnly<T>(t: Quad<T>, q: Index, m: Entry<T>, l: Entry<T>, found: seq<Entry<T>>)
    requires Formed(t) && Overtakes(t, q, m, l) && Foremost(Leaves(t), found, q, t) && |found| == 1
    ensures l !in found
  {
    hide LeafDistance, Leaves, Stretch;
  }

  /** From the origin the same tree is searched correctly, though it is not graded: the search comes to the leaf on the
      upper edge last. */
  lemma EdgeTreeSearched<T>(depth: nat, h: nat, a: T, b: T, c: T)
    requires depth == TREE_MAXDEPTH && h < Pow2(depth - 1)
    ensures Agrees(EdgeTree(depth, h, a, b, c), Index(0, 0))
  {
    hide *;
    DeepEnough(depth);
    EdgeLeaves(depth, h, a, b, c);
    OriginWays(depth, h, a, b, c);
    var t, q := EdgeTree(depth, h, a, b, c), Index(0, 0);
    var e, i, j := (Index(Pow2(depth), 0), a), (Index(Pow2(depth - 2), 0), b), (Index(Pow2(depth - 1) + h, 0), c);
    SoonerAt(t, i, e, q, depth);
    SoonerAt(t, j, e, q, depth);
    SoonerAt(t, i, j, q, depth);
    ThreeAgree(t, q, i, j, e);
  }

  /** Three leaves that come in the order of their distances. */
  lemma ThreeAgree<T>(t: Quad<T>, q: Index, i: Entry<T>, j: Entry<T>, e: Entry<T>)
    requires Formed(t) && Leaves(t) == {e, i, j}
    requires LeafDistance(i, q) <= LeafDistance(j, q) <= LeafDistance(e, q)
    requires Sooner(t, i, j, q) && Sooner(t, j, e, q) && Sooner(t, i, e, q)
    ensures Agrees(t, q)
  {
    hide LeafDistance, Leaves, Stretch;
  }

  lemma OriginWays<T>(depth: nat, h: nat, a: T, b: T, c: T)
    requires depth >= 3 && h < Pow2(depth - 1)
    ensures var t, q, e, i, j := EdgeTree(depth, h, a, b, c), Index(0, 0), Index(Pow2(depth), 0),
        Index(Pow2(depth - 2), 0), Index(Pow2(depth - 1) + h, 0);
      && LeafDistance((i, b), q) <= LeafDistance((j, c), q) <= LeafDistance((e, a), q)
      && Bottleneck(t, depth, i, j, q) < Bottleneck(t, depth, j, i, q)
      && Bottleneck(t, depth, j, e, q) < Bottleneck(t, depth, e, j, q)
      && Bottleneck(t, depth, i, e, q) < Bottleneck(t, depth, e, i, q)
  {
    SeenFromOrigin(depth, h, a, b, c);
    EdgeWays(depth, h, a, b, c, Index(0, 0));
    HalfSide(depth);
    HalfSide(depth - 1);
    hide Pow2, EdgeTree, LeafDistance, Distance, Bottleneck;
  }
}
