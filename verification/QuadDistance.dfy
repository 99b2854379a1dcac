// How far the cells of the quad-tree are from a query (tree_distance, scamp/src/quadtree.c).

module QuadDistance {
  import opened Bits
  import opened QuadTrees

  /** The cell of side 2^depth with lower corner `c`. */
  predicate InCell(i: Index, c: Index, depth: nat) {
    c.x <= i.x < c.x + Pow2(depth) && c.y <= i.y < c.y + Pow2(depth)
  }

  /** The corner of son `k` of a cell. */
  function SonCorner(c: Index, depth: nat, k: nat): Index {
    Index(c.x + (k % 2) * Pow2(depth), c.y + (k / 2) * Pow2(depth))
  }

  /** Every leaf lies in its cell, and inner nodes know the corners of theirs. */
  ghost predicate Cells<T>(t: Quad<T>, depth: nat, c: Index) {
    match t
    case Absent => true
    case Leaf(i, _) => InCell(i, c, depth)
    case Inner(corner, kids) =>
      corner == c && depth > 0 && |kids| == 4 && forall k :: 0 <= k < 4 ==>
        Cells(kids[k], depth - 1, SonCorner(c, depth - 1, k))
  }

  ghost predicate Aligned(c: Index, depth: nat) {
    0 <= c.x && 0 <= c.y && c.x % Pow2(depth) == 0 && c.y % Pow2(depth) == 0
  }

  lemma HalvedAxis(v: nat, m: nat, p: nat, b: nat)
    requires p >= 1 && b < 2 && 2 * (p * m) + (if b == 0 then 0 else p) <= v < 2 * (p * m) + (if b == 0 then 0 else p)
      + p
    ensures v / p == 2 * m + b
    ensures p * (2 * m + b) == 2 * (p * m) + if b == 0 then 0 else p
  {
    assert p * (2 * m + b) == 2 * (p * m) + if b == 0 then 0 else p;
    DivModUnique(v, p, 2 * m + b, v - p * (2 * m + b));
  }

  lemma HalvedAt(v: nat, c: nat, p: nat, m: nat, pm: nat)
    requires p >= 1 && pm == p * m && c == 2 * pm && c <= v < c + 2 * p
    ensures var s := c + if (v / p) % 2 == 0 then 0 else p;
      s <= v < s + p && s % p == 0 && (v / p) * p == s
  {
    var b := if v < c + p then 0 else 1;
    HalvedAxis(v, m, p, b);
    HalvedQuotient(v, c, p, 2 * m + b, c + if b == 0 then 0 else p);
  }

  lemma HalvedQuotient(v: nat, c: nat, p: nat, q: nat, s: nat)
    requires p >= 1 && v / p == q && p * q == s
    ensures s % p == 0 && (v / p) * p == s
  {
    DivModUnique(s, p, q, 0);
    assert q * p == p * q;
  }

  /** A multiple of 2p is twice a multiple of p. */
  lemma EvenMultiple(c: nat, p: nat, p2: nat) returns (m: nat, pm: nat)
    requires p >= 1 && p2 == 2 * p && c % p2 == 0
    ensures pm == p * m && c == 2 * pm
  {
    m := c / p2;
    pm := p * m;
    assert c == p2 * m;
    PowDouble(p, m);
  }

  /** Halving a cell on one axis. */
  lemma Axis(v: nat, c: nat, depth: nat)
    requires c % Pow2(depth + 1) == 0 && c <= v < c + Pow2(depth + 1)
    ensures var s := c + if Bit(v, depth) == 0 then 0 else Pow2(depth);
      s <= v < s + Pow2(depth) && s % Pow2(depth) == 0 && (v / Pow2(depth)) * Pow2(depth) == s
  {
    HalfSide(depth + 1);
    hide Pow2;
    var m, pm := EvenMultiple(c, Pow2(depth), Pow2(depth + 1));
    HalvedAt(v, c, Pow2(depth), m, pm);
  }

  lemma SonCornerIs(c: Index, depth: nat, a: nat, b: nat)
    requires a < 2 && b < 2
    ensures SonCorner(c, depth, a + 2 * b) ==
      Index(c.x + (if a == 0 then 0 else Pow2(depth)), c.y + if b == 0 then 0 else Pow2(depth))
  {
    assert (a + 2 * b) % 2 == a && (a + 2 * b) / 2 == b;
  }

  /** The bits of an index at the next place select the son whose cell it lies in. */
  lemma SonCell(i: Index, c: Index, depth: nat)
    requires NonNegative(i) && Aligned(c, depth + 1) && InCell(i, c, depth + 1)
    ensures var s := SonCorner(c, depth, ChildOf(i, depth));
      InCell(i, s, depth) && Aligned(s, depth) && Truncated(i, depth) == s
  {
    hide Bit, Pow2, SonCorner;
    Axis(i.x, c.x, depth);
    Axis(i.y, c.y, depth);
    SonCornerIs(c, depth, Bit(i.x, depth), Bit(i.y, depth));
  }

  lemma {:induction false} PartedCells<T>(c: Index, depth: nat, i: Index, item: T, former: Entry<T>)
    requires depth > 0 && NonNegative(i) && NonNegative(former.0)
    requires Aligned(c, depth) && InCell(i, c, depth) && InCell(former.0, c, depth)
    ensures Cells(Parted(c, depth, i, item, former), depth, c)
    decreases depth
  {
    hide ChildOf, Aligned, InCell, SonCorner, Truncated;
    SonCell(i, c, depth - 1);
    SonCell(former.0, c, depth - 1);
    if ChildOf(i, depth - 1) == ChildOf(former.0, depth - 1) && depth > 1 {
      PartedCells(Truncated(i, depth - 1), depth - 1, i, item, former);
    }
  }

  /** Insertion of an index inside the cell keeps all cells. */
  lemma {:induction false} InsertedCells<T>(t: Quad<T>, depth: nat, c: Index, i: Index, item: T)
    requires Formed(t) && NonNegative(i) && Cells(t, depth, c) && Aligned(c, depth) && InCell(i, c, depth)
    ensures Cells(Inserted(t, depth, i, item), depth, c)
    decreases depth
  {
    if depth > 0 {
      hide ChildOf, InCell, SonCorner, Parted;
      match t
      case Absent =>
      case Leaf(j, o) =>
        if i != j {
          TruncatedIsCorner(j, c, depth);
          PartedCells(c, depth, i, item, (j, o));
        }
      case Inner(_, kids) =>
        hide Aligned;
        var k := ChildOf(i, depth - 1);
        SonCell(i, c, depth - 1);
        InsertedCells(kids[k], depth - 1, SonCorner(c, depth - 1, k), i, item);
    }
  }

  lemma TruncatedIsCorner(i: Index, c: Index, depth: nat)
    requires NonNegative(i) && Aligned(c, depth) && InCell(i, c, depth)
    ensures Truncated(i, depth) == c
  {
    hide Pow2;
    TruncatedAxis(i.x, c.x, Pow2(depth));
    TruncatedAxis(i.y, c.y, Pow2(depth));
  }

  lemma TruncatedAxis(v: nat, c: nat, p: nat)
    requires p >= 1 && c % p == 0 && c <= v < c + p
    ensures (v / p) * p == c
  {
    var m := c / p;
    assert c == p * m;
    DivModUnique(v, p, m, v - c);
  }

  // ---- Distances ----

  /** Offset of a coordinate from the nearest border of [c, c + side), as tree_distance computes it. */
  function Gap(v: int, c: int, side: int): int {
    var d := v - c;
    if d >= 0 then (if d < side then 0 else d - side) else d
  }

  function Square(v: int): nat {
    SquareNonNegative(v);
    v * v
  }

  lemma SquareNonNegative(v: int)
    ensures v * v >= 0
  {
  }

  /** tree_distance: truncated Euclidean distance of a query from a leaf or from the cell of an inner node. */
  function Distance<T>(t: Quad<T>, depth: nat, q: Index): nat
    requires !t.Absent?
  {
    if t.Leaf? then FloorSqrt(Square(q.x - t.index.x) + Square(q.y - t.index.y))
    else FloorSqrt(Square(Gap(q.x, t.corner.x, Pow2(depth))) + Square(Gap(q.y, t.corner.y, Pow2(depth))))
  }

  /** The squared distance of two points, written out. */
  function Apart2(i: Index, q: Index): int {
    (q.x - i.x) * (q.x - i.x) + (q.y - i.y) * (q.y - i.y)
  }

  /** The distance of a leaf is the Euclidean distance, truncated. */
  lemma LeafDistanceIs<T>(l: Entry<T>, depth: nat, q: Index)
    ensures var i, d := l.0, Distance(Leaf(l.0, l.1), depth, q);
      d * d <= (q.x - i.x) * (q.x - i.x) + (q.y - i.y) * (q.y - i.y) < (d + 1) * (d + 1)
  {
    hide FloorSqrt;
  }

  /** The cell of side 2^depth with its upper borders. */
  predicate InClosedCell(i: Index, c: Index, depth: nat) {
    c.x <= i.x <= c.x + Pow2(depth) && c.y <= i.y <= c.y + Pow2(depth)
  }

  /** The nearest coordinate of an interval. */
  function Nearest1(v: int, c: int, side: int): int {
    if v < c then c else if v > c + side then c + side else v
  }

  lemma NearestOffset(v: int, c: int, side: nat, i: int)
    requires c <= i <= c + side
    ensures Square(Gap(v, c, side)) == Square(v - Nearest1(v, c, side)) <= Square(v - i)
    ensures Gap(v, c, side) == 0 <==> c <= v <= c + side
  {
    SquareMonotone(v - Nearest1(v, c, side), v - i);
  }

  /** The distance of an inner node is that of the nearest point of its cell, truncated; it is zero exactly if the cell
      holds the query. */
  lemma NodeDistanceIs<T>(t: Quad<T>, depth: nat, q: Index) returns (p: Index)
    requires t.Inner?
    ensures InClosedCell(p, t.corner, depth)
    ensures forall i :: InClosedCell(i, t.corner, depth) ==> Apart2(p, q) <= Apart2(i, q)
    ensures var d := Distance(t, depth, q); d * d <= Apart2(p, q) < (d + 1) * (d + 1)
    ensures Distance(t, depth, q) == 0 <==> InClosedCell(q, t.corner, depth)
  {
    var c, side := t.corner, Pow2(depth);
    p := Index(Nearest1(q.x, c.x, side), Nearest1(q.y, c.y, side));
    hide FloorSqrt, Gap, Pow2;
    NearestOffset(q.x, c.x, side, c.x);
    NearestOffset(q.y, c.y, side, c.y);
    forall i | InClosedCell(i, c, depth) ensures Apart2(p, q) <= Apart2(i, q) {
      NearestOffset(q.x, c.x, side, i.x);
      NearestOffset(q.y, c.y, side, i.y);
    }
    BothZero(Gap(q.x, c.x, side), Gap(q.y, c.y, side));
  }

  lemma BothZero(a: int, b: int)
    ensures Square(a) + Square(b) < 1 <==> a == 0 && b == 0
  {
  }

  /** A larger interval is at most as far away, and no farther than any point in it. */
  lemma SmallerGap(v: int, c: int, side: int, c': int, side': int)
    requires c <= c' && c' + side' <= c + side && 0 <= side'
    ensures Square(Gap(v, c, side)) <= Square(Gap(v, c', side'))
  {
    SquareMonotone(Gap(v, c, side), Gap(v, c', side'));
  }

  lemma PointGap(v: int, c: int, side: int, i: int)
    requires c <= i < c + side
    ensures Square(Gap(v, c, side)) <= Square(v - i)
  {
    SquareMonotone(Gap(v, c, side), v - i);
  }

  lemma SquareMonotone(a: int, b: int)
    requires (0 <= a <= b) || (b <= a <= 0) || a == 0
    ensures Square(a) <= Square(b)
  {
    SquareNonNegative(b);
    if 0 <= a <= b {
      assert a * a <= a * b <= b * b;
    } else if b <= a <= 0 {
      assert a * a <= a * b <= b * b;
    }
  }

  /** No son is nearer than its parent. */
  lemma SonNotNearer<T>(t: Quad<T>, depth: nat, c: Index, k: nat, q: Index)
    requires t.Inner? && Cells(t, depth, c) && k < 4 && !t.kids[k].Absent?
    ensures Distance(t, depth, q) <= Distance(t.kids[k], depth - 1, q)
  {
    hide Square, Gap, FloorSqrt, Pow2;
    var s, son, side := SonCorner(c, depth - 1, k), t.kids[k], Pow2(depth - 1);
    HalfSide(depth);
    SonInside(c, depth, k);
    assert Cells(son, depth - 1, s);
    if son.Leaf? {
      PointGap(q.x, c.x, Pow2(depth), son.index.x);
      PointGap(q.y, c.y, Pow2(depth), son.index.y);
      FloorSqrtMonotone(Square(Gap(q.x, c.x, Pow2(depth))) + Square(Gap(q.y, c.y, Pow2(depth))),
                        Square(q.x - son.index.x) + Square(q.y - son.index.y));
    } else {
      SmallerGap(q.x, c.x, Pow2(depth), s.x, side);
      SmallerGap(q.y, c.y, Pow2(depth), s.y, side);
      FloorSqrtMonotone(Square(Gap(q.x, c.x, Pow2(depth))) + Square(Gap(q.y, c.y, Pow2(depth))),
                        Square(Gap(q.x, s.x, side)) + Square(Gap(q.y, s.y, side)));
    }
  }

  lemma HalfSide(depth: nat)
    requires depth > 0
    ensures Pow2(depth) == 2 * Pow2(depth - 1)
  {
  }

  lemma SonInside(c: Index, depth: nat, k: nat)
    requires depth > 0 && k < 4
    ensures var s, side := SonCorner(c, depth - 1, k), Pow2(depth - 1);
      c.x <= s.x && s.x + side <= c.x + Pow2(depth) && c.y <= s.y && s.y + side <= c.y + Pow2(depth)
  {
    var p := Pow2(depth - 1);
    if k == 0 {
    } else if k == 1 {
    } else if k == 2 {
    } else {
    }
  }

  function Larger(a: nat, b: nat): nat {
    if a < b then b else a
  }

  /** The largest distance of the nodes on the way from `t` down to the leaf at `i`: how far the search has to go from
      `t` before it comes to that leaf. */
  ghost function Reach<T>(t: Quad<T>, depth: nat, i: Index, q: Index): nat
    decreases t
  {
    if t.Absent? then 0
    else if t.Inner? && depth > 0 && |t.kids| == 4 && NonNegative(i) then
      Larger(Distance(t, depth, q), Reach(t.kids[ChildOf(i, depth - 1)], depth - 1, i, q))
    else Distance(t, depth, q)
  }

  lemma ReachIsFar<T>(t: Quad<T>, depth: nat, i: Index, q: Index)
    requires !t.Absent?
    ensures Distance(t, depth, q) <= Reach(t, depth, i, q)
  {
    hide Distance, ChildOf;
  }

  /** Of the leaves below a node, the way to one leads to the son it lies in. */
  lemma ReachOfSon<T>(t: Quad<T>, depth: nat, k: nat, l: Entry<T>, q: Index)
    requires Routed(t, depth) && t.Inner? && k < 4 && l in Leaves(t.kids[k])
    ensures Reach(t, depth, l.0, q) == Larger(Distance(t, depth, q), Reach(t.kids[k], depth - 1, l.0, q))
  {
    hide ChildOf, Distance;
  }

  /** How far the search has to go for the leaf at `i` once the ways to it and to the leaf at `j` have parted. */
  ghost function Bottleneck<T>(t: Quad<T>, depth: nat, i: Index, j: Index, q: Index): nat
    decreases t
  {
    if t.Inner? && depth > 0 && |t.kids| == 4 && NonNegative(i) && NonNegative(j) then
      var b, c := ChildOf(i, depth - 1), ChildOf(j, depth - 1);
      if b == c then Bottleneck(t.kids[b], depth - 1, i, j, q) else Reach(t.kids[b], depth - 1, i, q)
    else 0
  }

  lemma BottleneckOfSons<T>(t: Quad<T>, depth: nat, b: nat, c: nat, l: Entry<T>, m: Entry<T>, q: Index)
    requires Routed(t, depth) && t.Inner? && b < 4 && c < 4 && l in Leaves(t.kids[b]) && m in Leaves(t.kids[c])
    ensures Bottleneck(t, depth, l.0, m.0, q) ==
      if b == c then Bottleneck(t.kids[b], depth - 1, l.0, m.0, q) else Reach(t.kids[b], depth - 1, l.0, q)
  {
    hide ChildOf, Distance, Reach;
  }

  /** On the way down the nodes do not get nearer to the query. */
  ghost predicate Graded<T>(t: Quad<T>, depth: nat, q: Index) {
    t.Inner? ==>
      && depth > 0
      && forall k :: 0 <= k < |t.kids| && !t.kids[k].Absent? ==>
           Distance(t, depth, q) <= Distance(t.kids[k], depth - 1, q) && Graded(t.kids[k], depth - 1, q)
  }

  /** Trees with all leaves in their cells are graded, whatever the query. */
  lemma {:induction false} CellsGraded<T>(t: Quad<T>, depth: nat, c: Index, q: Index)
    requires Cells(t, depth, c)
    ensures Graded(t, depth, q)
    decreases t
  {
    if t.Inner? {
      hide Distance, SonCorner;
      forall k | 0 <= k < 4 && !t.kids[k].Absent?
        ensures Distance(t, depth, q) <= Distance(t.kids[k], depth - 1, q) && Graded(t.kids[k], depth - 1, q)
      {
        SonNotNearer(t, depth, c, k, q);
        CellsGraded(t.kids[k], depth - 1, SonCorner(c, depth - 1, k), q);
      }
    }
  }

  /** The son that a leaf lies in. */
  lemma SonOf<T>(t: Quad<T>, depth: nat, l: Entry<T>) returns (k: nat)
    requires Routed(t, depth) && t.Inner? && l in Leaves(t)
    ensures k < 4 == |t.kids| && Routed(t.kids[k], depth - 1) && l in Leaves(t.kids[k]) && !t.kids[k].Absent?
  {
    hide ChildOf;
    k :| 0 <= k < 4 && l in Leaves(t.kids[k]);
  }

  lemma GradedSon<T>(t: Quad<T>, depth: nat, k: nat, q: Index)
    requires Graded(t, depth, q) && t.Inner? && k < |t.kids| && !t.kids[k].Absent?
    ensures depth > 0
    ensures Distance(t, depth, q) <= Distance(t.kids[k], depth - 1, q) && Graded(t.kids[k], depth - 1, q)
  {
    hide Distance;
  }

  lemma ReachAtLeaf<T>(t: Quad<T>, depth: nat, l: Entry<T>, q: Index)
    requires Formed(t) && !t.Inner? && l in Leaves(t)
    ensures Reach(t, depth, l.0, q) == Distance(Leaf(l.0, l.1), 0, q)
  {
    hide FloorSqrt;
  }

  /** In a graded tree the search goes no farther than the leaf itself is away. */
  lemma {:induction false} GradedReach<T>(t: Quad<T>, depth: nat, l: Entry<T>, q: Index)
    requires Routed(t, depth) && Graded(t, depth, q) && l in Leaves(t)
    ensures Reach(t, depth, l.0, q) == Distance(Leaf(l.0, l.1), 0, q)
    decreases t
  {
    hide Distance, Reach, Leaves, Graded, Routed;
    RoutedIsFormed(t, depth);
    if t.Inner? {
      var k := SonOf(t, depth, l);
      GradedSon(t, depth, k, q);
      GradedReach(t.kids[k], depth - 1, l, q);
      ReachOfSon(t, depth, k, l, q);
      ReachIsFar(t.kids[k], depth - 1, l.0, q);
    } else {
      ReachAtLeaf(t, depth, l, q);
    }
  }

  /** Nor does it after the ways to two leaves have parted. */
  lemma {:induction false} GradedBottleneck<T>(t: Quad<T>, depth: nat, l: Entry<T>, m: Entry<T>, q: Index)
    requires Routed(t, depth) && Graded(t, depth, q) && l in Leaves(t) && m in Leaves(t) && l != m
    ensures Bottleneck(t, depth, l.0, m.0, q) == Distance(Leaf(l.0, l.1), 0, q)
    decreases t
  {
    hide Distance, Reach, Bottleneck, Leaves, Graded, Routed;
    RoutedIsFormed(t, depth);
    if t.Inner? {
      var b := SonOf(t, depth, l);
      var c := SonOf(t, depth, m);
      GradedSon(t, depth, b, q);
      BottleneckOfSons(t, depth, b, c, l, m, q);
      if b == c {
        GradedBottleneck(t.kids[b], depth - 1, l, m, q);
      } else {
        GradedReach(t.kids[b], depth - 1, l, q);
      }
    } else {
      OneLeaf(t, l, m);
    }
  }

  lemma OneLeaf<T>(t: Quad<T>, l: Entry<T>, m: Entry<T>)
    requires Formed(t) && !t.Inner? && l in Leaves(t) && m in Leaves(t)
    ensures l == m
  {
  }

  /** In a graded tree no leaf is nearer than any node above it. */
  lemma {:induction false} LeafNotNearer<T>(t: Quad<T>, depth: nat, l: Entry<T>, q: Index)
    requires Formed(t) && Graded(t, depth, q) && l in Leaves(t)
    ensures Distance(t, depth, q) <= Distance(Leaf(l.0, l.1), 0, q)
    decreases t
  {
    if t.Inner? {
      hide Distance;
      var k :| 0 <= k < 4 && l in Leaves(t.kids[k]);
      LeafNotNearer(t.kids[k], depth - 1, l, q);
    } else {
      hide FloorSqrt;
    }
  }
}
