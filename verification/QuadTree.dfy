// What the quad-tree of scamp/src/quadtree.c stores, as a value: where an insertion puts a leaf,
// which leaves it keeps, and how far a cell is from a query.

module QuadTrees {
  import opened Basics
  import opened Bits

  datatype Index = Index(x: int, y: int)

  /** An index together with what is stored there. */
  type Entry<T> = (Index, T)

  /** A slot of the tree: empty, a leaf, or an inner node with its lower corner and four slots. */
  datatype Quad<T> = Absent | Leaf(index: Index, item: T) | Inner(corner: Index, kids: seq<Quad<T>>)

  /** `(v >> depth) & 1`. */
  function Bit(v: nat, depth: nat): (b: nat)
    ensures b < 2
  {
    (v / Pow2(depth)) % 2
  }

  /** The bits of both coordinates at place `depth`, which select one of four sons. */
  function ChildOf(i: Index, depth: nat): (c: nat)
    requires 0 <= i.x && 0 <= i.y
    ensures c < 4
  {
    Bit(i.x, depth) + 2 * Bit(i.y, depth)
  }

  predicate NonNegative(i: Index) {
    0 <= i.x && 0 <= i.y
  }

  /** `(index >> depth) << depth` on both axes. */
  function Truncated(i: Index, depth: nat): Index
    requires NonNegative(i)
  {
    Index((i.x / Pow2(depth)) * Pow2(depth), (i.y / Pow2(depth)) * Pow2(depth))
  }

  function EmptySlots<T>(): seq<Quad<T>> {
    [Absent, Absent, Absent, Absent]
  }

  /** The tree is made of nodes with four slots, at non-negative indices. */
  ghost predicate Formed<T>(t: Quad<T>) {
    match t
    case Absent => true
    case Leaf(i, _) => NonNegative(i)
    case Inner(_, kids) => |kids| == 4 && forall k :: 0 <= k < 4 ==> Formed(kids[k])
  }

  ghost function Leaves<T>(t: Quad<T>): set<Entry<T>>
    requires Formed(t)
  {
    match t
    case Absent => {}
    case Leaf(i, o) => {(i, o)}
    case Inner(_, kids) => Leaves(kids[0]) + Leaves(kids[1]) + Leaves(kids[2]) + Leaves(kids[3])
  }

  /** The tree after the loop of tree_insertleaf has gone on from slot `t` at `depth`. */
  ghost function Inserted<T>(t: Quad<T>, depth: nat, i: Index, item: T): (t': Quad<T>)
    requires Formed(t) && NonNegative(i)
    ensures Formed(t')
    decreases depth
  {
    if depth == 0 then t
    else
      match t
      case Absent => Leaf(i, item)
      case Leaf(j, o) => if i == j then t else Parted(Truncated(j, depth), depth, i, item, (j, o))
      case Inner(corner, kids) =>
        var c := ChildOf(i, depth - 1);
        Inner(corner, kids[c := Inserted(kids[c], depth - 1, i, item)])
  }

  /** The chain of inner nodes from `depth` down to where the paths of a former leaf and the new one part. */
  ghost function Parted<T>(corner: Index, depth: nat, i: Index, item: T, former: Entry<T>): (t': Quad<T>)
    requires depth > 0 && NonNegative(i) && NonNegative(former.0)
    ensures Formed(t')
    decreases depth
  {
    var c, c' := ChildOf(i, depth - 1), ChildOf(former.0, depth - 1);
    Inner(corner,
          if c != c' then EmptySlots()[c' := Leaf(former.0, former.1)][c := if depth == 1 then Absent
            else Leaf(i, item)]
          else if depth == 1 then EmptySlots()
          else EmptySlots()[c := Parted(Truncated(i, depth - 1), depth - 1, i, item, former)])
  }

  // ---- Which leaves an insertion keeps and adds ----

  /** The indices select the same sons from place `lo` up to, not including, place `hi`. */
  ghost predicate Agree(i: Index, j: Index, lo: nat, hi: nat)
    requires NonNegative(i) && NonNegative(j)
  {
    forall d :: lo <= d < hi ==> ChildOf(i, d) == ChildOf(j, d)
  }

  /** Every leaf lies in the son its bits select. */
  ghost predicate Routed<T>(t: Quad<T>, depth: nat) {
    Formed(t) &&
    match t
    case Absent => true
    case Leaf(_, _) => true
    case Inner(_, kids) =>
      && depth > 0
      && (forall k :: 0 <= k < 4 ==> Routed(kids[k], depth - 1))
      && (forall k, l :: 0 <= k < 4 && l in Leaves(kids[k]) ==> NonNegative(l.0) && ChildOf(l.0, depth - 1) == k)
  }

  lemma {:induction false} LeavesNonNegative<T>(t: Quad<T>, l: Entry<T>)
    requires Formed(t) && l in Leaves(t)
    ensures NonNegative(l.0)
  {
    if t.Inner? {
      var k :| 0 <= k < 4 && l in Leaves(t.kids[k]);
      LeavesNonNegative(t.kids[k], l);
    }
  }

  /** The leaf at which the descent towards `i` stops above the last level. */
  ghost function MetLeaf<T>(t: Quad<T>, depth: nat, i: Index): Option<Entry<T>>
    requires Formed(t) && NonNegative(i)
    decreases depth
  {
    if depth == 0 || t.Absent? then None
    else if t.Leaf? then Some((t.index, t.item))
    else MetLeaf(t.kids[ChildOf(i, depth - 1)], depth - 1, i)
  }

  lemma SlotLeaves<T>(corner: Index, kids: seq<Quad<T>>, c: nat, t: Quad<T>)
    requires Formed(Inner(corner, kids)) && c < 4 && Formed(t)
    ensures Leaves(Inner(corner, kids[c := t])) == Leaves(Inner(corner, kids[c := Absent])) + Leaves(t)
    ensures Leaves(Inner(corner, kids)) == Leaves(Inner(corner, kids[c := Absent])) + Leaves(kids[c])
  {
    assert kids == kids[c := kids[c]];
  }

  lemma AgreeSplit(i: Index, j: Index, depth: nat)
    requires depth > 0 && NonNegative(i) && NonNegative(j)
    ensures ChildOf(i, depth - 1) != ChildOf(j, depth - 1) ==>
      !Agree(i, j, 0, depth) && (depth > 1 ==> !Agree(i, j, 1, depth))
    ensures ChildOf(i, depth - 1) == ChildOf(j, depth - 1) ==> (Agree(i, j, 0, depth) <==> Agree(i, j, 0, depth - 1))
    ensures ChildOf(i, depth - 1) == ChildOf(j, depth - 1) && depth > 1 ==>
      (Agree(i, j, 1, depth) <==> Agree(i, j, 1, depth - 1))
    ensures Agree(i, j, 1, 1) && (Agree(i, j, 0, 1) <==> ChildOf(i, 0) == ChildOf(j, 0))
  {
    hide ChildOf;
  }

  lemma OnlySonLeaves<T>(corner: Index, c: nat, son: Quad<T>)
    requires c < 4 && Formed(son)
    ensures Formed(Inner(corner, EmptySlots()[c := son]))
      && Leaves(Inner(corner, EmptySlots()[c := son])) == Leaves(son)
  {
  }

  lemma TwoSonsLeaves<T>(corner: Index, c: nat, c': nat, son: Quad<T>, son': Quad<T>)
    requires c < 4 && c' < 4 && c != c' && Formed(son) && Formed(son')
    ensures Formed(Inner(corner, EmptySlots()[c' := son'][c := son]))
    ensures Leaves(Inner(corner, EmptySlots()[c' := son'][c := son])) == Leaves(son) + Leaves(son')
  {
  }

  /** Which leaves the chain ends up with: both, only the former one, or none. */
  lemma {:induction false} PartedLeaves<T>(corner: Index, depth: nat, i: Index, item: T, former: Entry<T>)
    requires depth > 0 && NonNegative(i) && NonNegative(former.0)
    ensures var t := Parted(corner, depth, i, item, former);
      Leaves(t) == if !Agree(i, former.0, 1, depth) then {former, (i, item)} else if !Agree(i, former.0, 0, 1) then
        {former} else {}
    decreases depth
  {
    hide ChildOf, Agree, Truncated;
    var c, c' := ChildOf(i, depth - 1), ChildOf(former.0, depth - 1);
    AgreeSplit(i, former.0, depth);
    if c != c' {
      TwoSonsLeaves(corner, c, c', if depth == 1 then Absent else Leaf(i, item), Leaf(former.0, former.1));
    } else if depth > 1 {
      PartedLeaves(Truncated(i, depth - 1), depth - 1, i, item, former);
      OnlySonLeaves(corner, c, Parted(Truncated(i, depth - 1), depth - 1, i, item, former));
    }
  }

  lemma PartedHere<T>(corner: Index, depth: nat, i: Index, item: T, former: Entry<T>)
    requires depth > 0 && NonNegative(i) && NonNegative(former.0)
      && ChildOf(i, depth - 1) != ChildOf(former.0, depth - 1)
    ensures Routed(Parted(corner, depth, i, item, former), depth)
  {
    hide ChildOf;
    var c, c' := ChildOf(i, depth - 1), ChildOf(former.0, depth - 1);
    var kids := Parted(corner, depth, i, item, former).kids;
    assert former in Leaves(kids[c']);
    forall k | 0 <= k < 4 ensures Routed(kids[k], depth - 1) && forall l :: l in Leaves(kids[k]) ==>
      NonNegative(l.0) && ChildOf(l.0, depth - 1) == k {
    }
  }

  lemma PartedBelow<T>(corner: Index, depth: nat, i: Index, item: T, former: Entry<T>)
    requires depth > 1 && NonNegative(i) && NonNegative(former.0)
      && ChildOf(i, depth - 1) == ChildOf(former.0, depth - 1)
    requires Routed(Parted(Truncated(i, depth - 1), depth - 1, i, item, former), depth - 1)
    requires Leaves(Parted(Truncated(i, depth - 1), depth - 1, i, item, former)) <= {former, (i, item)}
    ensures Routed(Parted(corner, depth, i, item, former), depth)
  {
    hide ChildOf, Truncated, Routed, Leaves;
    var c := ChildOf(i, depth - 1);
    OnlySon(corner, depth, c, Parted(Truncated(i, depth - 1), depth - 1, i, item, former));
  }

  lemma OnlySon<T>(corner: Index, depth: nat, c: nat, son: Quad<T>)
    requires depth > 0 && c < 4 && Routed(son, depth - 1)
    requires forall l :: l in Leaves(son) ==> NonNegative(l.0) && ChildOf(l.0, depth - 1) == c
    ensures Routed(Inner(corner, EmptySlots()[c := son]), depth)
  {
    hide ChildOf;
    var kids := EmptySlots()[c := son];
    forall k | 0 <= k < 4
      ensures Routed(kids[k], depth - 1)
      ensures forall l :: l in Leaves(kids[k]) ==> NonNegative(l.0) && ChildOf(l.0, depth - 1) == k
    {
    }
  }

  lemma {:induction false} PartedRouted<T>(corner: Index, depth: nat, i: Index, item: T, former: Entry<T>)
    requires depth > 0 && NonNegative(i) && NonNegative(former.0)
    ensures Routed(Parted(corner, depth, i, item, former), depth)
    decreases depth
  {
    hide ChildOf, Truncated, Routed, Leaves;
    if ChildOf(i, depth - 1) != ChildOf(former.0, depth - 1) {
      PartedHere(corner, depth, i, item, former);
    } else if depth > 1 {
      PartedRouted(Truncated(i, depth - 1), depth - 1, i, item, former);
      PartedLeaves(Truncated(i, depth - 1), depth - 1, i, item, former);
      PartedBelow(corner, depth, i, item, former);
    } else {
      HollowRouted<T>(corner);
    }
  }

  lemma HollowRouted<T>(corner: Index)
    ensures Routed(Inner(corner, EmptySlots<T>()), 1)
  {
  }

  lemma {:induction false} MetLeafIsStored<T>(t: Quad<T>, depth: nat, i: Index)
    requires Formed(t) && NonNegative(i) && MetLeaf(t, depth, i).Some?
    ensures MetLeaf(t, depth, i).value in Leaves(t) && NonNegative(MetLeaf(t, depth, i).value.0)
    decreases depth
  {
    if t.Inner? {
      MetLeafIsStored(t.kids[ChildOf(i, depth - 1)], depth - 1, i);
    }
  }

  /** The descent meets a leaf of another index that selects the same sons on every level. */
  ghost predicate Swallowed<T>(t: Quad<T>, depth: nat, i: Index)
    requires Formed(t) && NonNegative(i)
  {
    var m := MetLeaf(t, depth, i);
    m.Some? && m.value.0 != i && NonNegative(m.value.0) && Agree(i, m.value.0, 0, depth)
  }

  /** The descent goes through an inner node on the last level. */
  ghost predicate AtBottom<T>(t: Quad<T>, depth: nat, i: Index)
    requires Formed(t) && NonNegative(i)
    decreases depth
  {
    depth == 0 || (t.Inner? && AtBottom(t.kids[ChildOf(i, depth - 1)], depth - 1, i))
  }

  /** There is no place for the index: the descent goes past the last inner node, or meets a leaf that selects
      the same sons on every level above the last. */
  ghost predicate Refused<T>(t: Quad<T>, depth: nat, i: Index)
    requires Formed(t) && NonNegative(i)
  {
    var m := MetLeaf(t, depth, i);
    AtBottom(t, depth, i) || (m.Some? && NonNegative(m.value.0) && Agree(i, m.value.0, 1, depth))
  }

  /** The leaves after an insertion, in terms of the leaves before it. */
  ghost predicate LeavesAfter<T>(t: Quad<T>, t': Quad<T>, depth: nat, i: Index, item: T)
    requires Formed(t) && Formed(t') && NonNegative(i)
  {
    if Swallowed(t, depth, i) then Leaves(t') == Leaves(t) - {MetLeaf(t, depth, i).value}
    else if Refused(t, depth, i) then Leaves(t') == Leaves(t)
    else Leaves(t') == Leaves(t) + {(i, item)}
  }

  lemma InsertedAtLeaf<T>(j: Index, o: T, depth: nat, i: Index, item: T)
    requires depth > 0 && NonNegative(i) && NonNegative(j)
    ensures var t := Leaf(j, o); var t' := Inserted(t, depth, i, item);
      LeavesAfter(t, t', depth, i, item) && Routed(t', depth)
  {
    hide ChildOf, Parted;
    if i != j {
      PartedLeaves(Truncated(j, depth), depth, i, item, (j, o));
      PartedRouted(Truncated(j, depth), depth, i, item, (j, o));
    }
  }

  /** Below an inner node, what counts is the son on the path. */
  lemma SonDecides<T>(t: Quad<T>, depth: nat, i: Index)
    requires Routed(t, depth) && t.Inner? && NonNegative(i)
    ensures var son := t.kids[ChildOf(i, depth - 1)];
      && MetLeaf(t, depth, i) == MetLeaf(son, depth - 1, i)
      && (Swallowed(t, depth, i) <==> Swallowed(son, depth - 1, i))
      && (Refused(t, depth, i) <==> Refused(son, depth - 1, i))
  {
    hide ChildOf, Agree;
    var son := t.kids[ChildOf(i, depth - 1)];
    if MetLeaf(son, depth - 1, i).Some? {
      MetLeafIsStored(son, depth - 1, i);
      SonAgrees(t, depth, i, MetLeaf(son, depth - 1, i).value);
    }
  }

  /** Leaves of the son on the path agree on its level. */
  lemma SonAgrees<T>(t: Quad<T>, depth: nat, i: Index, m: Entry<T>)
    requires Routed(t, depth) && t.Inner? && NonNegative(i) && NonNegative(m.0)
    requires m in Leaves(t.kids[ChildOf(i, depth - 1)])
    ensures Agree(i, m.0, 0, depth) <==> Agree(i, m.0, 0, depth - 1)
    ensures depth > 1 ==> (Agree(i, m.0, 1, depth) <==> Agree(i, m.0, 1, depth - 1))
  {
    hide ChildOf, Leaves;
  }

  lemma NotElsewhere<T>(t: Quad<T>, depth: nat, c: nat, l: Entry<T>)
    requires Routed(t, depth) && t.Inner? && c < 4 && l in Leaves(t.kids[c])
    ensures l !in Leaves(Inner(t.corner, t.kids[c := Absent]))
  {
    hide ChildOf;
    assert forall k :: 0 <= k < 4 && k != c ==> l !in Leaves(t.kids[k]);
  }

  /** What tree_insertleaf does to the leaves of any tree, and that they stay where their bits lead. */
  lemma {:induction false} InsertedLeaves<T>(t: Quad<T>, depth: nat, i: Index, item: T)
    requires Routed(t, depth) && NonNegative(i)
    ensures var t' := Inserted(t, depth, i, item);
      LeavesAfter(t, t', depth, i, item) && Routed(t', depth)
    decreases depth
  {
    if depth > 0 {
      match t
      case Absent =>
      case Leaf(j, o) => InsertedAtLeaf(j, o, depth, i, item);
      case Inner(corner, kids) =>
        hide ChildOf, MetLeaf;
        var c := ChildOf(i, depth - 1);
        InsertedLeaves(kids[c], depth - 1, i, item);
        InsertedBelow(t, depth, i, item, Inserted(kids[c], depth - 1, i, item));
    }
  }

  lemma InsertedBelow<T>(t: Quad<T>, depth: nat, i: Index, item: T, son': Quad<T>)
    requires Routed(t, depth) && t.Inner? && NonNegative(i) && Routed(son', depth - 1)
    requires LeavesAfter(t.kids[ChildOf(i, depth - 1)], son', depth - 1, i, item)
    ensures var t' := Inner(t.corner, t.kids[ChildOf(i, depth - 1) := son']);
      LeavesAfter(t, t', depth, i, item) && Routed(t', depth)
  {
    hide ChildOf, Swallowed, Refused, Routed;
    RoutedSons(t, depth);
    RoutedIsFormed(son', depth - 1);
    var c := ChildOf(i, depth - 1);
    SonDecides(t, depth, i);
    SlotLeaves(t.corner, t.kids, c, son');
    LeavesBelow(t, depth, i, item, son');
    if Swallowed(t, depth, i) {
      SwallowedMet(t.kids[c], depth - 1, i);
      NotElsewhere(t, depth, c, MetLeaf(t, depth, i).value);
    }
  }

  lemma RoutedSons<T>(t: Quad<T>, depth: nat)
    requires Routed(t, depth) && t.Inner?
    ensures Formed(t) && depth > 0 && forall k :: 0 <= k < 4 ==> Routed(t.kids[k], depth - 1)
  {
  }

  lemma RoutedIsFormed<T>(t: Quad<T>, depth: nat)
    requires Routed(t, depth)
    ensures Formed(t)
  {
  }

  lemma LeavesBelow<T>(t: Quad<T>, depth: nat, i: Index, item: T, son': Quad<T>)
    requires Routed(t, depth) && t.Inner? && NonNegative(i) && Routed(son', depth - 1)
    requires Leaves(son') <= Leaves(t.kids[ChildOf(i, depth - 1)]) + {(i, item)}
    ensures Routed(Inner(t.corner, t.kids[ChildOf(i, depth - 1) := son']), depth)
  {
    hide ChildOf, Leaves;
    var c := ChildOf(i, depth - 1);
    var kids' := t.kids[c := son'];
    SlotLeaves(t.corner, t.kids, c, son');
    forall k, l | 0 <= k < 4 && l in Leaves(kids'[k]) ensures NonNegative(l.0) && ChildOf(l.0, depth - 1) == k {
      if k == c && l != (i, item) {
        assert l in Leaves(t.kids[c]);
      }
    }
  }

  lemma SwallowedMet<T>(t: Quad<T>, depth: nat, i: Index)
    requires Formed(t) && NonNegative(i) && Swallowed(t, depth, i)
    ensures MetLeaf(t, depth, i).Some? && MetLeaf(t, depth, i).value in Leaves(t)
  {
    MetLeafIsStored(t, depth, i);
  }

  // ---- Indices below 2^depth ----

  predicate InRange(i: Index, depth: nat) {
    0 <= i.x < Pow2(depth) && 0 <= i.y < Pow2(depth)
  }

  lemma HalfShift(v: nat, d: nat)
    ensures (v / 2) / Pow2(d) == v / Pow2(d + 1)
  {
    var p := Pow2(d);
    var q, r := (v / 2) / p, (v / 2) % p;
    assert v / 2 == p * q + r;
    PowDouble(p, q);
    DivModUnique(v, 2 * p, q, 2 * r + v % 2);
  }

  ghost predicate SameBits(v: nat, w: nat, lo: nat, hi: nat) {
    forall d :: lo <= d < hi ==> Bit(v, d) == Bit(w, d)
  }

  lemma SameBitsShift(v: nat, w: nat, depth: nat)
    requires depth > 0
    ensures SameBits(v / 2, w / 2, 0, depth - 1) <==> SameBits(v, w, 1, depth)
  {
    hide Bit;
    if SameBits(v / 2, w / 2, 0, depth - 1) {
      forall d | 1 <= d < depth ensures Bit(v, d) == Bit(w, d) {
        HalfBit(v, d - 1);
        HalfBit(w, d - 1);
      }
    }
    if SameBits(v, w, 1, depth) {
      forall d | 0 <= d < depth - 1 ensures Bit(v / 2, d) == Bit(w / 2, d) {
        HalfBit(v, d);
        HalfBit(w, d);
      }
    }
  }

  lemma HalfBit(v: nat, d: nat)
    ensures Bit(v / 2, d) == Bit(v, d + 1)
  {
    HalfShift(v, d);
  }

  lemma BitZero(v: nat)
    ensures Bit(v, 0) == v % 2
  {
    assert v / Pow2(0) == v;
  }

  /** A number is determined by its bits, and its half by those above the lowest. */
  lemma {:induction false} BitsDetermine(v: nat, w: nat, depth: nat)
    requires v < Pow2(depth) && w < Pow2(depth)
    ensures SameBits(v, w, 0, depth) <==> v == w
    ensures depth > 0 ==> (SameBits(v, w, 1, depth) <==> v / 2 == w / 2)
    decreases depth
  {
    if depth > 0 {
      hide Bit;
      BitsDetermine(v / 2, w / 2, depth - 1);
      SameBitsShift(v, w, depth);
      BitZero(v);
      BitZero(w);
      assert SameBits(v, w, 0, depth) <==> SameBits(v, w, 1, depth) && Bit(v, 0) == Bit(w, 0);
    }
  }

  lemma AgreeIsSameBits(i: Index, j: Index, lo: nat, hi: nat)
    requires NonNegative(i) && NonNegative(j)
    ensures Agree(i, j, lo, hi) <==> SameBits(i.x, j.x, lo, hi) && SameBits(i.y, j.y, lo, hi)
  {
    hide Bit;
    if Agree(i, j, lo, hi) {
      forall d | lo <= d < hi ensures Bit(i.x, d) == Bit(j.x, d) && Bit(i.y, d) == Bit(j.y, d) {
        assert ChildOf(i, d) == ChildOf(j, d);
      }
    }
  }

  /** The same index but for the lowest bits. */
  predicate SameHalf(i: Index, j: Index) {
    i.x / 2 == j.x / 2 && i.y / 2 == j.y / 2
  }

  lemma AgreeDetermines(i: Index, j: Index, depth: nat)
    requires depth > 0 && InRange(i, depth) && InRange(j, depth)
    ensures Agree(i, j, 0, depth) <==> i == j
    ensures Agree(i, j, 1, depth) <==> SameHalf(i, j)
  {
    hide Agree, SameBits;
    BitsDetermine(i.x, j.x, depth);
    BitsDetermine(i.y, j.y, depth);
    AgreeIsSameBits(i, j, 0, depth);
    AgreeIsSameBits(i, j, 1, depth);
  }

  ghost predicate AllInRange<T>(t: Quad<T>, depth: nat)
    requires Formed(t)
  {
    forall l :: l in Leaves(t) ==> InRange(l.0, depth)
  }

  // ---- Trees without hollow nodes ----

  /** Every inner node has a leaf below it. */
  ghost predicate Full<T>(t: Quad<T>)
    requires Formed(t)
  {
    t.Inner? ==> Leaves(t) != {} && forall k :: 0 <= k < 4 ==> Full(t.kids[k])
  }

  /** Some stored leaf selects the same sons on every level above the last. */
  ghost predicate Taken<T>(t: Quad<T>, depth: nat, i: Index)
    requires Formed(t) && NonNegative(i)
  {
    exists l :: l in Leaves(t) && NonNegative(l.0) && Agree(i, l.0, 1, depth)
  }

  lemma SonTakes<T>(t: Quad<T>, depth: nat, i: Index)
    requires Routed(t, depth) && t.Inner? && Leaves(t) != {} && NonNegative(i)
    ensures depth > 1 ==> (Taken(t, depth, i) <==> Taken(t.kids[ChildOf(i, depth - 1)], depth - 1, i))
    ensures depth == 1 ==> Taken(t, depth, i)
  {
    hide ChildOf;
    var c := ChildOf(i, depth - 1);
    var son := t.kids[c];
    if Taken(t, depth, i) && depth > 1 {
      var l :| l in Leaves(t) && NonNegative(l.0) && Agree(i, l.0, 1, depth);
      var k :| 0 <= k < 4 && l in Leaves(t.kids[k]);
      assert k == c;
    }
    if Taken(son, depth - 1, i) {
      var l :| l in Leaves(son) && NonNegative(l.0) && Agree(i, l.0, 1, depth - 1);
      assert l in Leaves(t);
    }
    if depth == 1 {
      var l :| l in Leaves(t);
      LeavesNonNegative(t, l);
    }
  }

  /** In a tree without hollow nodes only stored leaves keep the index out. */
  lemma {:induction false} RefusedIfTaken<T>(t: Quad<T>, depth: nat, i: Index)
    requires Routed(t, depth) && Full(t) && NonNegative(i) && depth > 0
    ensures Refused(t, depth, i) <==> Taken(t, depth, i)
    decreases depth
  {
    hide ChildOf, Agree;
    match t
    case Absent =>
    case Leaf(j, o) => assert (j, o) in Leaves(t);
    case Inner(_, kids) =>
      hide Refused, Taken;
      SonTakes(t, depth, i);
      SonDecides(t, depth, i);
      if depth > 1 {
        RefusedIfTaken(kids[ChildOf(i, depth - 1)], depth - 1, i);
      } else {
        BottomRefuses(kids[ChildOf(i, 0)], i);
      }
  }

  lemma BottomRefuses<T>(t: Quad<T>, i: Index)
    requires Formed(t) && NonNegative(i)
    ensures Refused(t, 0, i)
  {
  }

  lemma {:induction false} PartedFull<T>(corner: Index, depth: nat, i: Index, item: T, former: Entry<T>)
    requires depth > 0 && NonNegative(i) && NonNegative(former.0) && !Agree(i, former.0, 0, depth)
    ensures Full(Parted(corner, depth, i, item, former))
    decreases depth
  {
    hide ChildOf, Truncated;
    PartedLeaves(corner, depth, i, item, former);
    assert former in Leaves(Parted(corner, depth, i, item, former)) by {
      hide Parted, Leaves;
    }
    if ChildOf(i, depth - 1) == ChildOf(former.0, depth - 1) {
      PartedFull(Truncated(i, depth - 1), depth - 1, i, item, former);
    }
  }

  lemma FullAgain<T>(t: Quad<T>, depth: nat, i: Index, item: T)
    requires Routed(t, depth) && Full(t) && t.Inner? && NonNegative(i) && !Swallowed(t, depth, i)
    requires depth > 0 && Full(Inserted(t.kids[ChildOf(i, depth - 1)], depth - 1, i, item))
    ensures Full(Inserted(t, depth, i, item))
  {
    hide ChildOf, Leaves, Swallowed, Routed;
    RoutedIsFormed(t, depth);
    InsertedLeaves(t, depth, i, item);
  }

  lemma FullAtLeaf<T>(t: Quad<T>, depth: nat, i: Index, item: T)
    requires Formed(t) && !t.Inner? && NonNegative(i) && !Swallowed(t, depth, i)
    ensures Full(Inserted(t, depth, i, item))
  {
    hide ChildOf, Truncated, Parted;
    if depth > 0 && t.Leaf? && t.index != i {
      PartedFull(Truncated(t.index, depth), depth, i, item, (t.index, t.item));
    }
  }

  /** An insertion that loses no leaf leaves no hollow node. */
  lemma {:induction false} InsertedFull<T>(t: Quad<T>, depth: nat, i: Index, item: T)
    requires Routed(t, depth) && Full(t) && NonNegative(i) && !Swallowed(t, depth, i)
    ensures Full(Inserted(t, depth, i, item))
    decreases depth
  {
    hide ChildOf, Leaves, Swallowed, Routed, Inserted;
    RoutedIsFormed(t, depth);
    if t.Inner? {
      SonDecides(t, depth, i);
      RoutedSons(t, depth);
      InsertedFull(t.kids[ChildOf(i, depth - 1)], depth - 1, i, item);
      FullAgain(t, depth, i, item);
    } else {
      FullAtLeaf(t, depth, i, item);
    }
  }

  /** tree_insertleaf on indices below 2^depth: no leaf is lost, and the new one is stored exactly
      if no stored leaf has the same index but for the lowest bit of each coordinate. */
  lemma InsertedExactly<T>(t: Quad<T>, depth: nat, i: Index, item: T)
    requires depth > 0 && Routed(t, depth) && Full(t) && AllInRange(t, depth) && InRange(i, depth)
    ensures var t' := Inserted(t, depth, i, item);
      && Routed(t', depth) && Full(t') && AllInRange(t', depth)
      && Leaves(t') == if exists l :: l in Leaves(t) && SameHalf(i, l.0) then Leaves(t) else Leaves(t) + {(i, item)}
  {
    hide Agree, Routed, Full;
    RoutedIsFormed(t, depth);
    InsertedLeaves(t, depth, i, item);
    if MetLeaf(t, depth, i).Some? {
      MetLeafIsStored(t, depth, i);
      AgreeDetermines(i, MetLeaf(t, depth, i).value.0, depth);
    }
    InsertedFull(t, depth, i, item);
    RefusedIfTaken(t, depth, i);
    forall l | l in Leaves(t) ensures NonNegative(l.0) && (Agree(i, l.0, 1, depth) <==> SameHalf(i, l.0)) {
      AgreeDetermines(i, l.0, depth);
    }
  }

  // ---- The upper edge ----

  /** The coordinate 2^depth, which the range test of tree_insertleaf lets through, selects the sons of coordinate 0. */
  function Wrapped(i: Index, depth: nat): Index {
    Index(if i.x == Pow2(depth) then 0 else i.x, if i.y == Pow2(depth) then 0 else i.y)
  }

  predicate Accepted(i: Index, depth: nat) {
    0 <= i.x <= Pow2(depth) && 0 <= i.y <= Pow2(depth)
  }

  lemma {:induction false} EdgeBit(depth: nat, d: nat)
    requires d < depth
    ensures Bit(Pow2(depth), d) == 0 && Bit(0, d) == 0
    decreases depth
  {
    hide Bit;
    var p := Pow2(depth);
    HalvedPower(depth, p);
    hide Pow2;
    if d == 0 {
      BitZero(p);
      BitZero(0);
    } else {
      EdgeBit(depth - 1, d - 1);
      HalfBit(p, d - 1);
      HalfBit(0, d - 1);
    }
  }

  lemma HalvedPower(depth: nat, p: nat)
    requires depth > 0 && p == Pow2(depth)
    ensures p % 2 == 0 && p / 2 == Pow2(depth - 1)
  {
    DivModUnique(p, 2, Pow2(depth - 1), 0);
  }

  lemma WrappedSons(i: Index, depth: nat, d: nat)
    requires Accepted(i, depth) && d < depth
    ensures ChildOf(Wrapped(i, depth), d) == ChildOf(i, d)
  {
    hide Bit, Pow2;
    EdgeBit(depth, d);
  }

  lemma {:induction false} WrappedMeets<T>(t: Quad<T>, depth: nat, e: nat, i: Index)
    requires Formed(t) && Accepted(i, e) && depth <= e
    ensures MetLeaf(t, depth, Wrapped(i, e)) == MetLeaf(t, depth, i)
    decreases depth
  {
    if depth > 0 && t.Inner? {
      WrappedSons(i, e, depth - 1);
      WrappedMeets(t.kids[ChildOf(i, depth - 1)], depth - 1, e, i);
    }
  }

  ghost predicate AllAccepted<T>(t: Quad<T>, depth: nat)
    requires Formed(t)
  {
    forall l :: l in Leaves(t) ==> Accepted(l.0, depth)
  }

  /** The descent ends above the last level at a leaf of another index that wraps around to the same one. */
  ghost predicate Loses<T>(t: Quad<T>, depth: nat, i: Index)
    requires Formed(t) && NonNegative(i)
  {
    var m := MetLeaf(t, depth, i);
    m.Some? && m.value.0 != i && Wrapped(m.value.0, depth) == Wrapped(i, depth)
  }

  /** The descent goes past the last inner node, or ends at a leaf that wraps around to the same half index. */
  ghost predicate Ignores<T>(t: Quad<T>, depth: nat, i: Index)
    requires Formed(t) && NonNegative(i)
  {
    var m := MetLeaf(t, depth, i);
    AtBottom(t, depth, i) || (m.Some? && SameHalf(Wrapped(m.value.0, depth), Wrapped(i, depth)))
  }

  /** tree_insertleaf on all indices that it accepts, in all trees it can build: exactly which leaves are stored after
      it. */
  lemma AcceptedExactly<T>(t: Quad<T>, depth: nat, i: Index, item: T)
    requires depth > 0 && Routed(t, depth) && AllAccepted(t, depth) && Accepted(i, depth)
    ensures var t' := Inserted(t, depth, i, item);
      && Routed(t', depth) && AllAccepted(t', depth)
      && Leaves(t') ==
           if Loses(t, depth, i) then Leaves(t) - {MetLeaf(t, depth, i).value}
           else if Ignores(t, depth, i) then Leaves(t)
           else Leaves(t) + {(i, item)}
  {
    hide Agree, Routed, MetLeaf, Pow2, AtBottom;
    RoutedIsFormed(t, depth);
    InsertedLeaves(t, depth, i, item);
    if MetLeaf(t, depth, i).Some? {
      MetLeafIsStored(t, depth, i);
      WrappedDetermines(i, MetLeaf(t, depth, i).value.0, depth);
    }
  }

  lemma WrappedDetermines(i: Index, j: Index, depth: nat)
    requires depth > 0 && Accepted(i, depth) && Accepted(j, depth)
    ensures Agree(i, j, 0, depth) <==> Wrapped(j, depth) == Wrapped(i, depth)
    ensures Agree(i, j, 1, depth) <==> SameHalf(Wrapped(j, depth), Wrapped(i, depth))
  {
    hide Agree, Wrapped, Pow2;
    WrappedInRange(i, depth);
    WrappedInRange(j, depth);
    WrappedAgrees(i, j, 0, depth);
    WrappedAgrees(i, j, 1, depth);
    AgreeDetermines(Wrapped(i, depth), Wrapped(j, depth), depth);
  }

  /** Exactly when tree_insertleaf loses a stored leaf, in all trees it can build. */
  lemma LosesExactly<T>(t: Quad<T>, depth: nat, i: Index, item: T)
    requires depth > 0 && Routed(t, depth) && AllAccepted(t, depth) && Accepted(i, depth)
    ensures Leaves(t) <= Leaves(Inserted(t, depth, i, item)) <==> !Loses(t, depth, i)
  {
    hide Routed, AllAccepted, Ignores, MetLeaf, Inserted, Leaves, Wrapped, Pow2;
    RoutedIsFormed(t, depth);
    AcceptedExactly(t, depth, i, item);
    if Loses(t, depth, i) {
      MetLeafIsStored(t, depth, i);
    }
  }

  /** The tree after insertions in turn, from the empty one. */
  ghost function Built<T>(entries: seq<Entry<T>>, depth: nat): (t: Quad<T>)
    requires forall n :: 0 <= n < |entries| ==> Accepted(entries[n].0, depth)
    ensures Formed(t)
  {
    if entries == [] then Absent
    else
      var n := |entries| - 1;
      assert Accepted(entries[n].0, depth);
      Inserted(Built(entries[..n], depth), depth, entries[n].0, entries[n].1)
  }

  /** All trees built from accepted indices meet the hypotheses of `AcceptedExactly`; if no index is on the upper edge,
      no leaf is ever lost. */
  lemma {:induction false} BuiltRouted<T>(entries: seq<Entry<T>>, depth: nat)
    requires depth > 0 && forall n :: 0 <= n < |entries| ==> Accepted(entries[n].0, depth)
    ensures Routed(Built(entries, depth), depth) && AllAccepted(Built(entries, depth), depth)
    ensures (forall n :: 0 <= n < |entries| ==> InRange(entries[n].0, depth)) ==>
      Full(Built(entries, depth)) && AllInRange(Built(entries, depth), depth)
  {
    hide Routed, Pow2, Inserted;
    if entries == [] {
      EmptyRouted<T>(depth);
    } else {
      var n := |entries| - 1;
      BuiltRouted(entries[..n], depth);
      var t := Built(entries[..n], depth);
      AcceptedExactly(t, depth, entries[n].0, entries[n].1);
      if forall n :: 0 <= n < |entries| ==> InRange(entries[n].0, depth) {
        InsertedExactly(t, depth, entries[n].0, entries[n].1);
      }
    }
  }

  lemma EmptyRouted<T>(depth: nat)
    ensures Routed<T>(Absent, depth)
  {
  }

  lemma WrappedInRange(i: Index, depth: nat)
    requires Accepted(i, depth)
    ensures InRange(Wrapped(i, depth), depth)
    ensures InRange(i, depth) <==> Wrapped(i, depth) == i
  {
  }

  lemma WrappedAgrees(i: Index, j: Index, lo: nat, depth: nat)
    requires Accepted(i, depth) && Accepted(j, depth)
    ensures Agree(Wrapped(i, depth), Wrapped(j, depth), lo, depth) <==> Agree(i, j, lo, depth)
  {
    hide ChildOf, Wrapped;
    WrappedInRange(i, depth);
    WrappedInRange(j, depth);
    forall d | lo <= d < depth
      ensures ChildOf(Wrapped(i, depth), d) == ChildOf(i, d) && ChildOf(Wrapped(j, depth), d) == ChildOf(j, d)
    {
      WrappedSons(i, depth, d);
      WrappedSons(j, depth, d);
    }
  }

  /** A leaf at the origin is lost to one on the upper edge, and neither is stored. */
  lemma LostAtUpperEdge<T>(depth: nat, item: T, item': T)
    requires depth > 0
    ensures Leaves(Inserted(Leaf(Index(0, 0), item), depth, Index(Pow2(depth), 0), item')) == {}
  {
    LostTo(depth, Index(0, 0), item, Index(Pow2(depth), 0), item');
  }

  /** A leaf on the upper edge is lost to one at the origin just as well. */
  lemma LostFromUpperEdge<T>(depth: nat, item: T, item': T)
    requires depth > 0
    ensures Leaves(Inserted(Leaf(Index(Pow2(depth), 0), item), depth, Index(0, 0), item')) == {}
  {
    LostTo(depth, Index(Pow2(depth), 0), item, Index(0, 0), item');
  }

  lemma LostTo<T>(depth: nat, j: Index, item: T, i: Index, item': T)
    requires depth > 0 && Accepted(j, depth) && Accepted(i, depth) && i != j && Wrapped(i, depth) == Wrapped(j, depth)
    ensures Leaves(Inserted(Leaf(j, item), depth, i, item')) == {}
  {
    hide Inserted, Pow2;
    AcceptedExactly(Leaf(j, item), depth, i, item');
  }
}
