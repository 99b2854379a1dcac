// The quad-tree of scamp/src/quadtree.c in the heap: nodes with parent pointers and four child slots,
// and the descending loop of tree_insertleaf.

module QuadNodes {
  import opened Basics
  import opened Bits
  import opened QuadTrees

  const TREE_MAXDEPTH: nat := 30

  class TreeNode<T> {
    var parent: TreeNode?<T>
    var child: seq<TreeNode?<T>>
    var leaf: Option<T>
    var index: Index
    var depth: int

    /** tree_newnode. */
    constructor (parentnode: TreeNode?<T>)
      ensures parent == parentnode && child == [null, null, null, null] && leaf == None && index == Index(0, 0)
      ensures depth == if parentnode != null then parentnode.depth - 1 else TREE_MAXDEPTH
    {
      parent, child, leaf, index := parentnode, [null, null, null, null], None, Index(0, 0);
      depth := if parentnode != null then parentnode.depth - 1 else TREE_MAXDEPTH;
    }
  }

  // ---- The nodes below a slot ----

  /** What hangs in a slot: nothing, a node that holds a leaf, or an inner node with what hangs in its slots. */
  datatype Shape<T> = Nil | Tip(node: TreeNode<T>, index: Index, item: T) | Fork(node: TreeNode<T>, corner: Index,
    sons: seq<Shape<T>>)

  function NoSons<T>(): seq<Shape<T>> {
    [Nil, Nil, Nil, Nil]
  }

  ghost function Nodes<T>(s: Shape<T>): set<TreeNode<T>> {
    match s
    case Nil => {}
    case Tip(n, _, _) => {n}
    case Fork(n, _, sons) => {n} + NodesOf(sons)
  }

  ghost function NodesOf<T>(sons: seq<Shape<T>>): set<TreeNode<T>> {
    set k, n | 0 <= k < |sons| && n in Nodes(sons[k]) :: n
  }

  /** The stored tree, without its nodes. */
  ghost function Erased<T>(s: Shape<T>): Quad<T> {
    match s
    case Nil => Absent
    case Tip(_, i, o) => Leaf(i, o)
    case Fork(_, c, sons) => Inner(c, ErasedSons(sons))
  }

  ghost function ErasedSons<T>(sons: seq<Shape<T>>): (q: seq<Quad<T>>)
    ensures |q| == |sons| && forall k :: 0 <= k < |sons| ==> q[k] == Erased(sons[k])
  {
    seq(|sons|, k requires 0 <= k < |sons| => Erased(sons[k]))
  }

  /** The node in a slot of `up`, at `depth`, and all the nodes below it, are `s`. */
  ghost predicate Represents<T>(p: TreeNode?<T>, up: TreeNode?<T>, depth: int, s: Shape<T>)
    reads Nodes(s)
    decreases s
  {
    match s
    case Nil => p == null
    case Tip(n, i, o) =>
      && p == n && n.parent == up && n.depth == depth && n.leaf == Some(o) && n.index == i && NonNegative(i)
      && n.child == [null, null, null, null]
    case Fork(n, c, sons) =>
      && p == n && n.parent == up && n.depth == depth && n.leaf == None && n.index == c
      && SonsOf(n, depth, sons)
  }

  /** What hangs in the slots of a node. */
  ghost predicate SonsOf<T>(n: TreeNode<T>, depth: int, sons: seq<Shape<T>>)
    reads n, NodesOf(sons)
    decreases sons
  {
    && |sons| == 4 && |n.child| == 4 && Apart(n, sons)
    && forall k :: 0 <= k < 4 ==> Represents(n.child[k], n, depth - 1, sons[k])
  }

  /** The node and what hangs in its slots share no node. */
  ghost predicate Apart<T>(n: TreeNode<T>, sons: seq<Shape<T>>) {
    && (forall k :: 0 <= k < |sons| ==> n !in Nodes(sons[k]))
    && (forall j, k :: 0 <= j < k < |sons| ==> Nodes(sons[j]) !! Nodes(sons[k]))
  }

  lemma {:induction false} RepresentsFormed<T>(p: TreeNode?<T>, up: TreeNode?<T>, depth: int, s: Shape<T>)
    requires Represents(p, up, depth, s)
    ensures Formed(Erased(s))
    decreases s
  {
    if s.Fork? {
      forall k | 0 <= k < 4 ensures Formed(Erased(s.sons[k])) {
        RepresentsFormed(s.node.child[k], s.node, depth - 1, s.sons[k]);
      }
    }
  }

  // ---- The rest of the tree around a slot ----

  /** The way from the top of the tree down to slot `k` of `node`, with what hangs in the other slots on the way. */
  datatype Way<T> = Top | Down(node: TreeNode<T>, corner: Index, k: nat, sons: seq<Shape<T>>, up: Way<T>)

  ghost function WayNodes<T>(w: Way<T>): set<TreeNode<T>> {
    match w
    case Top => {}
    case Down(n, _, _, sons, up) => {n} + NodesOf(sons) + WayNodes(up)
  }

  ghost function Owner<T>(w: Way<T>): TreeNode?<T> {
    if w.Top? then null else w.node
  }

  /** The whole tree, if `s` hangs in the slot. */
  ghost function Filled<T>(w: Way<T>, s: Shape<T>): Shape<T> {
    match w
    case Top => s
    case Down(n, c, k, sons, up) => Filled(up, Fork(n, c, if k < |sons| then sons[k := s] else sons))
  }

  ghost function FilledQuad<T>(w: Way<T>, q: Quad<T>): Quad<T> {
    match w
    case Top => q
    case Down(_, c, k, sons, up) => FilledQuad(up,
      Inner(c, if k < |sons| then ErasedSons(sons)[k := q] else ErasedSons(sons)))
  }

  lemma {:induction false} ErasedFilled<T>(w: Way<T>, s: Shape<T>)
    ensures Erased(Filled(w, s)) == FilledQuad(w, Erased(s))
    decreases w
  {
    match w
    case Top =>
    case Down(n, c, k, sons, up) =>
      if k < |sons| {
        assert ErasedSons(sons[k := s]) == ErasedSons(sons)[k := Erased(s)];
        ErasedFilled(up, Fork(n, c, sons[k := s]));
      } else {
        ErasedFilled(up, Fork(n, c, sons));
      }
  }

  /** The nodes on the way are as `w` says; nothing is said of the node in its slot, nor of the slot. */
  ghost predicate Around<T>(w: Way<T>, depth: int, top: TreeNode?<T>)
    reads WayNodes(w)
  {
    match w
    case Top => depth == TREE_MAXDEPTH
    case Down(n, c, k, sons, up) =>
      && n.parent == Owner(up) && n.depth == depth + 1 && n.leaf == None && n.index == c
      && k < 4 && |sons| == 4 && |n.child| == 4 && sons[k] == Nil && Apart(n, sons)
      && (forall j :: 0 <= j < 4 && j != k ==> Represents(n.child[j], n, depth, sons[j]))
      && ({n} + NodesOf(sons)) !! WayNodes(up)
      && Around(up, depth + 1, top) && InSlot(up, top) == n
  }

  /** The contents of the slot. */
  ghost function InSlot<T>(w: Way<T>, top: TreeNode?<T>): TreeNode?<T>
    reads WayNodes(w)
  {
    match w
    case Top => top
    case Down(n, _, k, _, _) => if k < |n.child| then n.child[k] else null
  }

  lemma FilledSons<T>(n: TreeNode<T>, depth: int, k: nat, sons: seq<Shape<T>>, s: Shape<T>)
    requires k < 4 && |sons| == 4 && |n.child| == 4 && sons[k] == Nil && Apart(n, sons)
    requires forall j :: 0 <= j < 4 && j != k ==> Represents(n.child[j], n, depth - 1, sons[j])
    requires Represents(n.child[k], n, depth - 1, s)
    requires n !in Nodes(s) && NodesOf(sons) !! Nodes(s)
    ensures SonsOf(n, depth, sons[k := s])
    ensures NodesOf(sons[k := s]) == NodesOf(sons) + Nodes(s)
  {
    hide Represents, Nodes;
    var sons' := sons[k := s];
    assert forall j :: 0 <= j < 4 && j != k ==> Nodes(sons[j]) <= NodesOf(sons);
    assert forall n | n in Nodes(s) :: n in Nodes(sons'[k]);
    assert forall j :: 0 <= j < 4 && j != k ==> sons'[j] == sons[j];
    NilNodes<T>();
  }

  lemma NilNodes<T>()
    ensures Nodes<T>(Nil) == {} && NodesOf<T>(NoSons()) == {}
  {
  }

  /** A way and what hangs in its slot make up a whole tree. */
  lemma {:induction false} FilledRepresents<T>(w: Way<T>, depth: int, top: TreeNode?<T>, s: Shape<T>)
    requires Around(w, depth, top) && Represents(InSlot(w, top), Owner(w), depth, s) && WayNodes(w) !! Nodes(s)
    ensures Represents(top, null, TREE_MAXDEPTH, Filled(w, s))
    ensures Nodes(Filled(w, s)) == WayNodes(w) + Nodes(s)
    decreases w
  {
    match w
    case Top =>
    case Down(n, c, k, sons, up) =>
      FilledSons(n, depth + 1, k, sons, s);
      FilledRepresents(up, depth + 1, top, Fork(n, c, sons[k := s]));
  }

  // ---- Going down ----

  lemma GoneDown<T>(w: Way<T>, depth: int, top: TreeNode?<T>, n: TreeNode<T>, c: Index, sons: seq<Shape<T>>, k: nat)
    requires Around(w, depth, top) && InSlot(w, top) == n && k < 4
    requires Represents(n, Owner(w), depth, Fork(n, c, sons)) && WayNodes(w) !! Nodes(Fork(n, c, sons))
    ensures |sons| == 4
    ensures var w' := Down(n, c, k, sons[k := Nil], w);
      && Around(w', depth - 1, top) && Represents(InSlot(w', top), n, depth - 1, sons[k])
      && WayNodes(w') !! Nodes(sons[k]) && WayNodes(w') + Nodes(sons[k]) == WayNodes(w) + Nodes(Fork(n, c, sons))
  {
    var others := sons[k := Nil];
    assert NodesOf(others) <= NodesOf(sons) && NodesOf(sons) == NodesOf(others) + Nodes(sons[k]) by {
      assert forall j :: 0 <= j < 4 && j != k ==> others[j] == sons[j];
    }
    assert Apart(n, others);
  }

  /** What the rest of the loop of tree_insertleaf leaves in a slot, in which `s` hangs now;
      `former` is the leaf uprooted on the way, if it has no place yet. */
  ghost function Rest<T>(s: Shape<T>, depth: nat, i: Index, item: T, former: Option<Entry<T>>): Quad<T>
    requires Formed(Erased(s)) && NonNegative(i) && (former.Some? ==> NonNegative(former.value.0))
  {
    if former.None? then Inserted(Erased(s), depth, i, item)
    else if depth == 0 then Absent
    else Parted(Truncated(i, depth), depth, i, item, former.value)
  }

  /** The same for an inner node, in which the leaf without a place is to find one. */
  ghost function AtFork<T>(s: Shape<T>, depth: nat, i: Index, item: T, former: Option<Entry<T>>): Quad<T>
    requires s.Fork? && Formed(Erased(s)) && depth > 0 && NonNegative(i)
      && (former.Some? ==> NonNegative(former.value.0))
  {
    if former.None? then Inserted(Erased(s), depth, i, item) else Parted(s.corner, depth, i, item, former.value)
  }

  lemma RestBelowFork<T>(n: TreeNode<T>, c: Index, sons: seq<Shape<T>>, depth: nat, i: Index, item: T)
    requires depth > 0 && NonNegative(i) && Formed(Erased(Fork(n, c, sons)))
    ensures var k := ChildOf(i, depth - 1);
      Inserted(Erased(Fork(n, c, sons)), depth, i, item)
      == Inner(c, ErasedSons(sons[k := Nil])[k := Rest(sons[k], depth - 1, i, item, None)])
  {
    hide ChildOf;
    var k := ChildOf(i, depth - 1);
    var q := Inserted(Erased(sons[k]), depth - 1, i, item);
    assert ErasedSons(sons)[k := q] == ErasedSons(sons[k := Nil])[k := q];
  }

  lemma RestParted<T>(c: Index, depth: nat, i: Index, item: T, former: Entry<T>, nodeo: TreeNode<T>)
    requires depth > 0 && NonNegative(i) && NonNegative(former.0)
    ensures var k, ko := ChildOf(i, depth - 1), ChildOf(former.0, depth - 1);
      Parted(c, depth, i, item, former) ==
        if k == ko then Inner(c, ErasedSons(NoSons())[k := Rest(Nil, depth - 1, i, item, Some(former))])
        else Inner(c, ErasedSons(NoSons()[ko := Tip(nodeo, former.0, former.1)])[k := Rest(Nil, depth - 1, i, item,
          None)])
  {
    hide ChildOf, Truncated;
    var k, ko := ChildOf(i, depth - 1), ChildOf(former.0, depth - 1);
    assert ErasedSons<T>(NoSons()) == EmptySlots();
    assert ErasedSons(NoSons()[ko := Tip(nodeo, former.0, former.1)]) == EmptySlots()[ko := Leaf(former.0, former.1)];
    if k == ko && depth == 1 {
      assert EmptySlots<T>()[k := Absent] == EmptySlots();
    }
  }

  // ---- Insertion ----

  datatype Status = RETURN_OK | RETURN_ERROR

  /** The descent ends at a leaf of the same index. */
  ghost predicate Duplicate<T>(t: Quad<T>, depth: nat, i: Index)
    requires Formed(t) && NonNegative(i)
  {
    var m := MetLeaf(t, depth, i);
    m.Some? && m.value.0 == i
  }

  lemma DividedBy(x: real, s: real) returns (u: real)
    requires s != 0.0
    ensures u * s == x
  {
    u := x / s;
  }

  class QuadTree<T> {
    const indexscale: (real, real)
    const indexoffset: (real, real)
    var node: TreeNode?<T>
    ghost var shape: Shape<T>

    ghost predicate Valid()
      reads this, Nodes(shape)
    {
      Represents(node, null, TREE_MAXDEPTH, shape)
    }

    ghost function Stored(): Quad<T>
      reads this
    {
      Erased(shape)
    }

    /** tree_newtree, given the scale and the offset that it derives from the ranges of the coordinates. */
    constructor (indexscale: (real, real), indexoffset: (real, real))
      ensures Valid() && Stored() == Absent && this.indexscale == indexscale && this.indexoffset == indexoffset
    {
      this.indexscale, this.indexoffset, node, shape := indexscale, indexoffset, null, Nil;
    }

    /** A pair of coordinates in units of bins. */
    function Scaled(coords: (real, real)): (real, real) {
      (coords.0 * indexscale.0 + indexoffset.0, coords.1 * indexscale.1 + indexoffset.1)
    }

    /** The bin of a pair of coordinates, if it passes the range test. */
    function IndexOf(coords: (real, real)): (i: Option<Index>)
      ensures i.Some? ==> Accepted(i.value, TREE_MAXDEPTH)
      ensures i.Some? ==> i.value.x as real <= Scaled(coords).0 < (i.value.x + 1) as real
      ensures i.Some? ==> i.value.y as real <= Scaled(coords).1 < (i.value.y + 1) as real
      ensures var bins := Pow2(TREE_MAXDEPTH) as real;
        i.Some? <==> 0.0 <= Scaled(coords).0 <= bins && 0.0 <= Scaled(coords).1 <= bins
    {
      var (x, y) := Scaled(coords);
      var bins := Pow2(TREE_MAXDEPTH) as real;
      if x < 0.0 || x > bins || y < 0.0 || y > bins then None else Some(Index(x.Floor, y.Floor))
    }

    /** Any accepted index is the bin of some coordinates, the upper edge included. */
    lemma EveryBin(i: Index) returns (coords: (real, real))
      requires indexscale.0 != 0.0 && indexscale.1 != 0.0 && Accepted(i, TREE_MAXDEPTH)
      ensures IndexOf(coords) == Some(i)
    {
      var x, y := i.x as real - indexoffset.0, i.y as real - indexoffset.1;
      var u := DividedBy(x, indexscale.0);
      var v := DividedBy(y, indexscale.1);
      coords := (u, v);
      assert u * indexscale.0 + indexoffset.0 == i.x as real;
      assert v * indexscale.1 + indexoffset.1 == i.y as real;
      assert Scaled(coords).0 == i.x as real && Scaled(coords).1 == i.y as real;
      hide Pow2;
      var bins := Pow2(TREE_MAXDEPTH);
      assert i.x as real <= bins as real && i.y as real <= bins as real;
    }

    /** `*pnode = n`, where `pnode` is slot `k` of `owner`, or the slot of the tree. */
    method Hang(owner: TreeNode?<T>, k: nat, n: TreeNode<T>, ghost w: Way<T>, ghost depth: int)
      requires Around(w, depth, node) && owner == Owner(w) && (owner != null ==> k == w.k) && n !in WayNodes(w)
      modifies if owner == null then {this as object} else {owner}
      ensures Around(w, depth, node) && InSlot(w, node) == n && shape == old(shape)
      ensures owner != null ==> node == old(node)
    {
      if owner == null {
        node := n;
      } else {
        assert allocated(NodesOf(w.sons)) && allocated(WayNodes(w.up));
        assert owner !in NodesOf(w.sons) && owner !in WayNodes(w.up);
        assert forall j :: 0 <= j < 4 ==> Nodes(w.sons[j]) <= NodesOf(w.sons);
        owner.child := owner.child[k := n];
      }
    }

    /** The branch of tree_insertleaf for an empty slot: a new node, for the leaf itself, or on the common way
        of the leaf and the one uprooted. */
    method Occupy(owner: TreeNode?<T>, k: nat, i: Index, item: T, former: bool, ghost w: Way<T>, depth: nat)
        returns (n: TreeNode<T>)
      requires Around(w, depth, node) && owner == Owner(w) && (owner != null ==> k == w.k) && NonNegative(i)
      modifies if owner == null then {this as object} else {owner}
      ensures fresh(n) && Around(w, depth, node) && InSlot(w, node) == n && n !in WayNodes(w) && shape == old(shape)
      ensures owner != null ==> node == old(node)
      ensures Represents(n, owner, depth, if former then Fork(n, Truncated(i, depth), NoSons()) else Tip(n, i, item))
    {
      hide Around, WayNodes, InSlot, Truncated;
      OwnerDepth(w, depth, node);
      assert allocated(WayNodes(w));
      n := new TreeNode<T>(owner);
      Hang(owner, k, n, w, depth);
      if former {
        n.index := Truncated(i, depth);
      } else {
        n.leaf := Some(item);
        n.index := i;
      }
      assert n.parent == owner && n.depth == depth;
      assert n.child == [null, null, null, null];
      FreshNode(n, owner, depth, n.index);
    }

    /** The loop stands at slot `k` of `owner`, in which `s` hangs. */
    ghost predicate At(owner: TreeNode?<T>, k: nat, depth: nat, w: Way<T>, s: Shape<T>)
      reads this, WayNodes(w), Nodes(s)
    {
      && Around(w, depth, node) && owner == Owner(w) && (owner != null ==> k == w.k)
      && Represents(InSlot(w, node), owner, depth, s) && WayNodes(w) !! Nodes(s)
    }

    /** One turn of the loop up to the next level: whatever hangs in the slot, an inner node takes its place;
        `former` is the leaf without a place. */
    method Open(owner: TreeNode?<T>, k: nat, depth: nat, i: Index, item: T, former: Option<Entry<T>>, ghost w: Way<T>,
        ghost s: Shape<T>)
      returns (n: TreeNode<T>, former': Option<Entry<T>>, ghost s': Shape<T>)
      requires At(owner, k, depth, w, s) && NonNegative(i)
      requires s == Nil <==> former.Some?
      requires s.Tip? ==> s.index != i
      modifies this, WayNodes(w), Nodes(s)
      ensures At(owner, k, depth, w, s') && InSlot(w, node) == n && s'.Fork? && s'.node == n && shape == old(shape)
      ensures s == Nil ==> fresh(n) && former' == former && s' == Fork(n, Truncated(i, depth), NoSons())
      ensures s.Tip? ==>
        n == s.node && former' == Some((s.index, s.item)) && s' == Fork(n, Truncated(s.index, depth), NoSons())
      ensures s.Fork? ==> s' == s && former' == former
      ensures n in Nodes(s') && forall m :: m in Nodes(s') ==> m in Nodes(s) || fresh(m)
    {
      hide Around, WayNodes, Truncated;
      NilNodes<T>();
      OwnerDepth(w, depth, node);
      former', s' := former, s;
      var slot := if owner == null then node else owner.child[k];
      if slot == null {
        n := Occupy(owner, k, i, item, true, w, depth);
        s' := Fork(n, Truncated(i, depth), NoSons());
      } else {
        n := slot;
      }
      if n.leaf.Some? {
        former' := Some((n.index, n.leaf.value));
        assert allocated(WayNodes(w));
        Uproot(n, depth, s);
        s' := Fork(n, Truncated(s.index, depth), NoSons());
      }
    }

    /** One turn of the loop from there: the slot on the next level towards `i`, and a node for the leaf
        without a place if its way parts here. */
    method Descend(n: TreeNode<T>, owner: TreeNode?<T>, k: nat, depth: nat, i: Index, item: T, former: Option<Entry<T>>,
                   ghost w: Way<T>, ghost s: Shape<T>)
      returns (k': nat, former': Option<Entry<T>>, ghost w': Way<T>, ghost s': Shape<T>)
      requires At(owner, k, depth, w, s) && InSlot(w, node) == n && s.Fork? && s.node == n && Formed(Erased(s))
      requires depth > 0 && NonNegative(i) && (former.Some? ==> s.sons == NoSons() && NonNegative(former.value.0))
      modifies n
      ensures k' == ChildOf(i, depth - 1) && At(n, k', depth - 1, w', s') && Formed(Erased(s'))
      ensures former' == if former.Some? && ChildOf(former.value.0, depth - 1) == k' then former else None
      ensures s' == if former.Some? then Nil else s.sons[k']
      ensures FilledQuad(w', Rest(s', depth - 1, i, item, former')) == FilledQuad(w, AtFork(s, depth, i, item, former))
      ensures forall m :: m in WayNodes(w') + Nodes(s') ==> m in WayNodes(w) + Nodes(s) || fresh(m)
    {
      hide Around, WayNodes, Represents, InSlot, Parted, Inserted, Nodes, ChildOf;
      k', former' := ChildOf(i, depth - 1), former;
      assert allocated(WayNodes(w)) && n in Nodes(s) by {
        ForkNode(s);
      }
      ghost var c, sons := s.corner, s.sons;
      if former.Some? {
        var ko := ChildOf(former.value.0, depth - 1);
        if k' != ko {
          var nodeo := Resettle(n, ko, former.value, owner, c, depth);
          ResettledNodes(n, c, ko, nodeo, former.value);
          sons := NoSons()[ko := Tip(nodeo, former.value.0, former.value.1)];
          former' := None;
          RestParted(c, depth, i, item, former.value, nodeo);
        } else {
          RestParted(c, depth, i, item, former.value, n);
        }
      } else {
        RestBelowFork(n, c, sons, depth, i, item);
      }
      GoneDown(w, depth, node, n, c, sons, k');
      w', s' := Down(n, c, k', sons[k' := Nil], w), sons[k'];
      assert AtFork(s, depth, i, item, former) ==
        Inner(c, ErasedSons(sons[k' := Nil])[k' := Rest(s', depth - 1, i, item, former')]);
    }

    /** tree_insertleaf. */
    method InsertLeaf(coords: (real, real), leaf: T) returns (r: Status)
      requires Valid()
      modifies this, Nodes(shape)
      ensures Valid() && forall n :: n in Nodes(shape) && n !in old(Nodes(shape)) ==> fresh(n)
      ensures IndexOf(coords).None? ==> r == RETURN_ERROR && Stored() == old(Stored())
      ensures IndexOf(coords).Some? ==>
        Formed(old(Stored())) && Stored() == Inserted(old(Stored()), TREE_MAXDEPTH, IndexOf(coords).value, leaf)
      ensures IndexOf(coords).Some? ==>
        (r == RETURN_ERROR <==> Duplicate(old(Stored()), TREE_MAXDEPTH, IndexOf(coords).value))
      ensures r == RETURN_ERROR ==> Stored() == old(Stored())
    {
      hide Around, WayNodes, Represents, InSlot, Inserted, Nodes, ChildOf, Truncated, Duplicate, Parted, Filled,
        FilledQuad, Rest, Erased, IndexOf;
      var bin := IndexOf(coords);
      if bin.None? {
        return RETURN_ERROR;
      }
      var i := bin.value;
      RepresentsFormed(node, null, TREE_MAXDEPTH, shape);
      ghost var w, s, goal := Top, shape, Inserted(Stored(), TREE_MAXDEPTH, i, leaf);
      var owner: TreeNode?<T>, k: nat, depth: nat, former: Option<Entry<T>> := null, 0, TREE_MAXDEPTH, None;
      AtTop(node, shape, i, leaf);
      while depth > 0
        invariant At(owner, k, depth, w, s) && Formed(Erased(s)) && shape == old(shape)
        invariant former.Some? ==> s == Nil && NonNegative(former.value.0)
        invariant FilledQuad(w, Rest(s, depth, i, leaf, former)) == goal
        invariant Duplicate(old(Stored()), TREE_MAXDEPTH, i) <==> former.None? && Duplicate(Erased(s), depth, i)
        invariant forall m :: m in WayNodes(w) + Nodes(s) ==> m in old(Nodes(shape)) || fresh(m)
      {
        OwnerDepth(w, depth, node);
        RestAt(s, depth, i, leaf);
        NilNotDuplicate<T>(depth, i);
        NilNotDuplicate<T>(depth - 1, i);
        var slot := if owner == null then node else owner.child[k];
        RepresentsSlot(slot, owner, depth, s);
        if slot == null && former.None? {
          var n := Occupy(owner, k, i, leaf, false, w, depth);
          s := Tip(n, i, leaf);
          TipNodes(n, i, leaf);
          break;
        }
        if slot != null && slot.leaf.Some? && slot.index == i {
          DuplicateStays(old(Stored()), TREE_MAXDEPTH, i, leaf);
          Close(w, depth, s, owner, k);
          return RETURN_ERROR;
        }
        ghost var s0, former0 := s, former;
        var n;
        n, former, s := Open(owner, k, depth, i, leaf, former, w, s);
        ghost var w', s';
        RestOpened(s0, former0, s, former, depth, i, leaf);
        k, former, w', s' := Descend(n, owner, k, depth, i, leaf, former, w, s);
        w, s, owner, depth := w', s', n, depth - 1;
      }
      if depth == 0 {
        RestAtBottom(s, i, leaf, former);
      }
      Close(w, depth, s, owner, k);
      r := RETURN_OK;
    }

    /** At the end of the loop the whole tree is known. */
    ghost method Close(w: Way<T>, depth: nat, s: Shape<T>, owner: TreeNode?<T>, k: nat)
      requires At(owner, k, depth, w, s)
      modifies this`shape
      ensures Valid() && shape == Filled(w, s) && Stored() == FilledQuad(w, Erased(s))
        && Nodes(shape) == WayNodes(w) + Nodes(s)
    {
      FilledRepresents(w, depth, node, s);
      ErasedFilled(w, s);
      shape := Filled(w, s);
    }
  }

  lemma AtTop<T>(top: TreeNode?<T>, s: Shape<T>, i: Index, item: T)
    requires Formed(Erased(s)) && NonNegative(i)
    ensures Around(Top, TREE_MAXDEPTH, top) && InSlot(Top, top) == top && WayNodes<T>(Top) == {}
    ensures FilledQuad(Top, Rest(s, TREE_MAXDEPTH, i, item, None)) == Inserted(Erased(s), TREE_MAXDEPTH, i, item)
  {
  }

  lemma RepresentsSlot<T>(p: TreeNode?<T>, up: TreeNode?<T>, depth: int, s: Shape<T>)
    requires Represents(p, up, depth, s)
    ensures p == null <==> s == Nil
    ensures p != null ==> p in Nodes(s)
    ensures p != null ==> (p.leaf.Some? <==> s.Tip?)
    ensures s.Tip? ==> p == s.node && s.index == p.index && NonNegative(s.index)
  {
  }

  lemma TipNodes<T>(n: TreeNode<T>, i: Index, item: T)
    ensures Nodes(Tip(n, i, item)) == {n} && Erased(Tip(n, i, item)) == Leaf(i, item)
    ensures NonNegative(i) ==> Formed(Erased(Tip(n, i, item)))
  {
  }

  /** Where the rest of the loop finds an empty slot, a leaf or an inner node. */
  lemma RestAt<T>(s: Shape<T>, depth: nat, i: Index, item: T)
    requires Formed(Erased(s)) && NonNegative(i) && depth > 0
    ensures s == Nil ==> Rest(s, depth, i, item, None) == Leaf(i, item)
    ensures s.Tip? ==> (Duplicate(Erased(s), depth, i) <==> s.index == i)
    ensures s.Tip? && s.index == i ==> Erased(s) == Rest(s, depth, i, item, None)
    ensures s.Fork? ==> |s.sons| == 4 && Formed(Erased(s.sons[ChildOf(i, depth - 1)]))
    ensures s.Fork? ==> (Duplicate(Erased(s), depth, i) <==>
      Duplicate(Erased(s.sons[ChildOf(i, depth - 1)]), depth - 1, i))
  {
  }

  lemma NilNotDuplicate<T>(depth: nat, i: Index)
    requires NonNegative(i)
    ensures Formed(Erased<T>(Nil)) && !Duplicate(Erased<T>(Nil), depth, i)
  {
  }

  /** Opening a slot does not change what the rest of the loop makes of it. */
  lemma RestOpened<T>(s: Shape<T>, former: Option<Entry<T>>, s': Shape<T>, former': Option<Entry<T>>, depth: nat,
      i: Index, item: T)
    requires Formed(Erased(s)) && NonNegative(i) && depth > 0 && (former.Some? ==> NonNegative(former.value.0))
    requires (s == Nil <==> former.Some?) && s'.Fork? && (s.Tip? ==> s.index != i)
    requires s == Nil ==> former' == former && s' == Fork(s'.node, Truncated(i, depth), NoSons())
    requires s.Tip? ==> former' == Some((s.index, s.item)) && s' == Fork(s'.node, Truncated(s.index, depth), NoSons())
    requires s.Fork? ==> s' == s && former' == former
    ensures Formed(Erased(s')) && (former'.Some? ==> s'.sons == NoSons() && NonNegative(former'.value.0))
    ensures AtFork(s', depth, i, item, former') == Rest(s, depth, i, item, former)
  {
    hide Truncated;
  }

  lemma RestAtBottom<T>(s: Shape<T>, i: Index, item: T, former: Option<Entry<T>>)
    requires Formed(Erased(s)) && NonNegative(i) && (former.Some? ==> s == Nil && NonNegative(former.value.0))
    ensures Rest(s, 0, i, item, former) == Erased(s) && !Duplicate(Erased(s), 0, i)
  {
  }

  lemma {:induction false} DuplicateStays<T>(t: Quad<T>, depth: nat, i: Index, item: T)
    requires Formed(t) && NonNegative(i) && Duplicate(t, depth, i)
    ensures Inserted(t, depth, i, item) == t
    decreases depth
  {
    if t.Inner? {
      DuplicateStays(t.kids[ChildOf(i, depth - 1)], depth - 1, i, item);
    }
  }

  lemma ForkNode<T>(s: Shape<T>)
    requires s.Fork?
    ensures s.node in Nodes(s)
  {
  }

  lemma ResettledNodes<T>(n: TreeNode<T>, c: Index, ko: nat, nodeo: TreeNode<T>, former: Entry<T>)
    requires ko < 4
    ensures Nodes(Fork(n, c, NoSons()[ko := Tip(nodeo, former.0, former.1)])) == {n, nodeo}
  {
    var sons := NoSons()[ko := Tip(nodeo, former.0, former.1)];
    assert NodesOf(sons) == {nodeo} by {
      assert Nodes(sons[ko]) == {nodeo};
      forall m | m in NodesOf(sons) ensures m == nodeo {
        var k :| 0 <= k < |sons| && m in Nodes(sons[k]);
        assert sons[k] == Nil || k == ko;
      }
    }
  }

  lemma FreshNode<T>(n: TreeNode<T>, owner: TreeNode?<T>, depth: int, i: Index)
    requires n.parent == owner && n.depth == depth && n.index == i && n.child == [null, null, null, null]
    ensures n.leaf == None ==> Represents(n, owner, depth, Fork(n, i, NoSons()))
    ensures n.leaf.Some? && NonNegative(i) ==> Represents(n, owner, depth, Tip(n, i, n.leaf.value))
  {
  }

  lemma OwnerDepth<T>(w: Way<T>, depth: int, top: TreeNode?<T>)
    requires Around(w, depth, top)
    ensures if Owner(w) == null then depth == TREE_MAXDEPTH else Owner(w) in WayNodes(w) && Owner(w).depth == depth + 1
    ensures InSlot(w, top) == if Owner(w) == null then top else if w.k < |Owner(w).child| then Owner(w).child[w.k]
      else null
    ensures Owner(w) != null ==> w.k < 4 == |Owner(w).child|
  {
  }

  /** The branch of tree_insertleaf for a node that holds a leaf of another index: it becomes an inner node. */
  method Uproot<T>(n: TreeNode<T>, depth: nat, ghost s: Shape<T>)
    requires Represents(n, n.parent, depth, s) && s.Tip?
    modifies n
    ensures Represents(n, old(n.parent), depth, Fork(n, Truncated(s.index, depth), NoSons()))
  {
    n.index := Truncated(n.index, depth);
    n.leaf := None;
  }

  /** The branch of tree_insertleaf that gives the uprooted leaf a node of its own. */
  method Resettle<T>(n: TreeNode<T>, ko: nat, former: Entry<T>, ghost up: TreeNode?<T>, ghost c: Index, depth: nat)
      returns (nodeo: TreeNode<T>)
    requires Represents(n, up, depth, Fork(n, c, NoSons())) && ko < 4 && NonNegative(former.0)
    modifies n
    ensures fresh(nodeo)
    ensures Represents(n, up, depth, Fork(n, c, NoSons()[ko := Tip(nodeo, former.0, former.1)]))
  {
    nodeo := new TreeNode<T>(n);
    n.child := n.child[ko := nodeo];
    nodeo.leaf := Some(former.1);
    nodeo.index := former.0;
  }

  // ---- The range of a new tree ----

  /** 1 / 1e30. */
  const TINY := 1.0 / 1000000000000000000000000000000.0

  /** Where the ends of a range go, and what is between them. */
  lemma ScaledRange(v: real, lo: real, hi: real, widest: real, bins: real, scale: real)
    requires widest > 0.0 && scale * widest == bins && bins > 0.0 && lo <= v <= hi && hi - lo <= widest
    ensures 0.0 <= v * scale + -lo * scale <= bins
    ensures lo * scale + -lo * scale == 0.0
    ensures hi - lo == widest ==> hi * scale + -lo * scale == bins
  {
    RealDistributes(v, lo, scale);
    RealDistributes(hi, lo, scale);
    RealDistributes(lo, lo, scale);
    PositiveFactor(scale, widest);
    RealMonotone(0.0, v - lo, scale);
    RealMonotone(v - lo, widest, scale);
  }

  lemma RealDistributes(a: real, b: real, c: real)
    ensures a * c + -b * c == (a - b) * c
  {
  }

  lemma PositiveFactor(a: real, b: real)
    requires a * b > 0.0 && b > 0.0
    ensures a > 0.0
  {
  }

  lemma RealMonotone(a: real, b: real, c: real)
    requires a <= b && c > 0.0
    ensures a * c <= b * c
  {
    assert (b - a) * c >= 0.0;
  }

  lemma BinIs(x: int, v: real, b: int)
    requires x as real <= v < (x + 1) as real && v == b as real
    ensures x == b
  {
  }

  /** A coordinate under the scale of a new tree. */
  lemma BinsOf(v: real, lo: real, hi: real, widest: real, bins: nat, scale: real, scaled: real)
    requires widest > 0.0 && scale * widest == bins as real && bins > 0 && lo <= v <= hi && hi - lo <= widest
    requires scaled == v * scale + -lo * scale
    ensures 0.0 <= scaled <= bins as real && (v == lo ==> scaled == 0.0)
    ensures v == hi && hi - lo == widest ==> scaled == bins as real
  {
    ScaledRange(v, lo, hi, widest, bins as real, scale);
  }

  lemma ScaledIs<T>(tree: QuadTree<T>, c: (real, real))
    ensures tree.Scaled(c).0 == c.0 * tree.indexscale.0 + tree.indexoffset.0
    ensures tree.Scaled(c).1 == c.1 * tree.indexscale.1 + tree.indexoffset.1
  {
  }

  /** Where the coordinates of the range go under the scale of a new tree. */
  lemma NewRange<T>(tree: QuadTree<T>, min: (real, real), max: (real, real), widest: real, scale: real, bins: nat,
                    c: (real, real))
    requires max.0 - min.0 <= widest && max.1 - min.1 <= widest && widest > 0.0
    requires bins == Pow2(TREE_MAXDEPTH) && bins > 0 && scale * widest == bins as real
    requires tree.indexscale.0 == scale == tree.indexscale.1
    requires tree.indexoffset.0 == -min.0 * scale && tree.indexoffset.1 == -min.1 * scale
    requires min.0 <= c.0 <= max.0 && min.1 <= c.1 <= max.1
    ensures tree.IndexOf(c).Some? && (c == min ==> tree.Scaled(c) == (0.0, 0.0))
    ensures c == max && max.0 - min.0 == widest ==> tree.IndexOf(c).value.x == bins
    ensures c == max && max.1 - min.1 == widest ==> tree.IndexOf(c).value.y == bins
  {
    hide *;
    ScaledIs(tree, c);
    var u, v := tree.Scaled(c).0, tree.Scaled(c).1;
    BinsOf(c.0, min.0, max.0, widest, bins, scale, u);
    BinsOf(c.1, min.1, max.1, widest, bins, scale, v);
    var i := tree.IndexOf(c);
    if c == max && max.0 - min.0 == widest {
      BinIs(i.value.x, u, bins);
    }
    if c == max && max.1 - min.1 == widest {
      BinIs(i.value.y, v, bins);
    }
  }

  /** tree_newtree. The smallest coordinates go to the origin, all coordinates of the range are accepted, and the
      largest coordinate on the widest axis goes to the upper edge, one past the last bin. */
  method NewTree<T>(min: (real, real), max: (real, real)) returns (tree: QuadTree?<T>)
    ensures tree == null <==> max.0 - min.0 <= TINY || max.1 - min.1 <= TINY
    ensures tree != null ==> fresh(tree) && tree.Valid() && tree.Stored() == Absent
    ensures tree != null ==> tree.indexscale.0 == tree.indexscale.1 > 0.0 && tree.Scaled(min) == (0.0, 0.0)
    ensures tree != null ==> forall c: (real, real) :: min.0 <= c.0 <= max.0 && min.1 <= c.1 <= max.1 ==>
      tree.IndexOf(c).Some?
    ensures tree != null ==> var bins := Pow2(TREE_MAXDEPTH);
      && (max.0 - min.0 >= max.1 - min.1 ==> tree.IndexOf(max).value.x == bins)
      && (max.1 - min.1 >= max.0 - min.0 ==> tree.IndexOf(max).value.y == bins)
  {
    hide Pow2, Represents, Erased;
    var bins := Pow2(TREE_MAXDEPTH);
    var cdiffmax := 0.0;
    var cdiff := max.0 - min.0;
    if cdiff <= TINY {
      return null;
    }
    if cdiff > cdiffmax {
      cdiffmax := cdiff;
    }
    cdiff := max.1 - min.1;
    if cdiff <= TINY {
      return null;
    }
    if cdiff > cdiffmax {
      cdiffmax := cdiff;
    }
    var scale := bins as real / cdiffmax;
    assert scale * cdiffmax == bins as real;
    PositiveFactor(scale, cdiffmax);
    tree := new QuadTree<T>((scale, scale), (-min.0 * scale, -min.1 * scale));
    forall c: (real, real) | min.0 <= c.0 <= max.0 && min.1 <= c.1 <= max.1
      ensures tree.IndexOf(c).Some? && (c == min ==> tree.Scaled(c) == (0.0, 0.0))
      ensures c == max && max.0 - min.0 == cdiffmax ==> tree.IndexOf(c).value.x == bins
      ensures c == max && max.1 - min.1 == cdiffmax ==> tree.IndexOf(c).value.y == bins
    {
      NewRange(tree, min, max, cdiffmax, scale, bins, c);
    }
  }
}
