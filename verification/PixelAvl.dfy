// The AVL tree of pixels: nodes with parent pointers, stored heights and in-place rotations
// (scamp/src/chealpixstore.c, second half).

module PixelAvl {
  import opened Samples

  /** One HEALPix pixel: its number, its eight neighbours and its samples. */
  class HealPixel {
    const id: int
    const neighbors: seq<int>
    var samples: seq<Sample>

    constructor (id: int, neighbors: seq<int>)
      ensures this.id == id && this.neighbors == neighbors && samples == []
    {
      this.id, this.neighbors, samples := id, neighbors, [];
    }
  }

  class AvlNode {
    const pixel: HealPixel
    var pBefore: AvlNode?
    var pAfter: AvlNode?
    var pUp: AvlNode?
    var height: int
    var imbalance: int

    constructor (pixel: HealPixel)
      ensures this.pixel == pixel && pBefore == null && pAfter == null && pUp == null
    {
      this.pixel := pixel;
      pBefore, pAfter, pUp, height, imbalance := null, null, null, 0, 0;
    }
  }

  // ---- Trees as values ----

  datatype Tree = Leaf | Node(before: Tree, node: AvlNode, after: Tree)

  function Nodes(t: Tree): set<AvlNode> {
    match t
    case Leaf => {}
    case Node(l, n, r) => Nodes(l) + {n} + Nodes(r)
  }

  function Keys(t: Tree): set<int> {
    match t
    case Leaf => {}
    case Node(l, n, r) => Keys(l) + {n.pixel.id} + Keys(r)
  }

  function Height(t: Tree): nat {
    match t
    case Leaf => 0
    case Node(l, _, r) => 1 + if Height(l) > Height(r) then Height(l) else Height(r)
  }

  function Imbalance(t: Tree): int {
    match t
    case Leaf => 0
    case Node(l, _, r) => Height(l) - Height(r)
  }

  ghost predicate Ordered(t: Tree) {
    match t
    case Leaf => true
    case Node(l, n, r) =>
      && Ordered(l) && Ordered(r)
      && (forall k :: k in Keys(l) ==> k < n.pixel.id)
      && (forall k :: k in Keys(r) ==> n.pixel.id < k)
  }

  ghost predicate Balanced(t: Tree) {
    match t
    case Leaf => true
    case Node(l, _, r) => Balanced(l) && Balanced(r) && -1 <= Height(l) - Height(r) <= 1
  }

  ghost predicate Avl(t: Tree) {
    Ordered(t) && Balanced(t)
  }

  function RotatedBefore(t: Tree): Tree
    requires t.Node? && t.before.Node?
  {
    Node(t.before.before, t.before.node, Node(t.before.after, t.node, t.after))
  }

  function RotatedAfter(t: Tree): Tree
    requires t.Node? && t.after.Node?
  {
    Node(Node(t.before, t.node, t.after.before), t.after.node, t.after.after)
  }

  /** What one turn of the rebalancing loop makes of the subtree it stands on. */
  function Rebalanced(t: Tree): Tree {
    if Imbalance(t) >= 2 then
      RotatedBefore(if Imbalance(t.before) < 0 then t.(before := RotatedAfter(t.before)) else t)
    else if Imbalance(t) <= -2 then
      RotatedAfter(if Imbalance(t.after) > 0 then t.(after := RotatedBefore(t.after)) else t)
    else t
  }

  /** Textbook insertion, rebalancing every subtree on the way back up. */
  function Inserted(t: Tree, x: AvlNode): Tree {
    match t
    case Leaf => Node(Leaf, x, Leaf)
    case Node(l, n, r) =>
      if x.pixel.id < n.pixel.id then Rebalanced(Node(Inserted(l, x), n, r))
      else if x.pixel.id > n.pixel.id then Rebalanced(Node(l, n, Inserted(r, x)))
      else t
  }

  // ---- Insertion keeps the AVL property ----

  lemma RotationsKeepOrder(l: Tree, n: AvlNode, m: Tree, n': AvlNode, r: Tree)
    ensures var t, t' := Node(Node(l, n, m), n', r), Node(l, n, Node(m, n', r));
            && (Ordered(t) <==> Ordered(t'))
            && Keys(t) == Keys(t') && Nodes(t) == Nodes(t')
  {
    var t, t' := Node(Node(l, n, m), n', r), Node(l, n, Node(m, n', r));
    assert Keys(Node(l, n, m)) == Keys(l) + {n.pixel.id} + Keys(m);
    assert Keys(Node(m, n', r)) == Keys(m) + {n'.pixel.id} + Keys(r);
    if Ordered(t) || Ordered(t') {
      assert n.pixel.id < n'.pixel.id;
    }
  }

  lemma RotatedBeforeKeepsOrder(t: Tree)
    requires t.Node? && t.before.Node?
    ensures Ordered(RotatedBefore(t)) <==> Ordered(t)
    ensures Keys(RotatedBefore(t)) == Keys(t) && Nodes(RotatedBefore(t)) == Nodes(t)
  {
    RotationsKeepOrder(t.before.before, t.before.node, t.before.after, t.node, t.after);
  }

  lemma RotatedAfterKeepsOrder(t: Tree)
    requires t.Node? && t.after.Node?
    ensures Ordered(RotatedAfter(t)) <==> Ordered(t)
    ensures Keys(RotatedAfter(t)) == Keys(t) && Nodes(RotatedAfter(t)) == Nodes(t)
  {
    RotationsKeepOrder(t.before, t.node, t.after.before, t.after.node, t.after.after);
  }

  lemma RebalancedKeepsOrder(t: Tree)
    requires Ordered(t)
    ensures Ordered(Rebalanced(t)) && Keys(Rebalanced(t)) == Keys(t) && Nodes(Rebalanced(t)) == Nodes(t)
  {
    hide RotatedBefore, RotatedAfter;
    if Imbalance(t) >= 2 {
      if Imbalance(t.before) < 0 {
        RotatedAfterKeepsOrder(t.before);
        RotatedBeforeKeepsOrder(t.(before := RotatedAfter(t.before)));
      } else {
        RotatedBeforeKeepsOrder(t);
      }
    } else if Imbalance(t) <= -2 {
      if Imbalance(t.after) > 0 {
        RotatedBeforeKeepsOrder(t.after);
        RotatedAfterKeepsOrder(t.(after := RotatedBefore(t.after)));
      } else {
        RotatedAfterKeepsOrder(t);
      }
    }
  }

  lemma BeforeHeavy(l: Tree, n: AvlNode, m: Tree, n': AvlNode, r: Tree)
    requires Balanced(Node(l, n, m)) && Balanced(r) && Height(Node(l, n, m)) == Height(r) + 2
    ensures var t := Node(Node(l, n, m), n', r);
            Balanced(Rebalanced(t)) && Height(r) + 2 <= Height(Rebalanced(t)) <= Height(r) + 3
  {
    if Height(l) < Height(m) {
      var Node(u, c, v) := m;
      assert Rebalanced(Node(Node(l, n, m), n', r)) == Node(Node(l, n, u), c, Node(v, n', r));
      assert Height(l) == Height(r) && Height(Node(l, n, u)) == Height(r) + 1
        && Height(Node(v, n', r)) == Height(r) + 1;
    } else {
      assert Rebalanced(Node(Node(l, n, m), n', r)) == Node(l, n, Node(m, n', r));
    }
  }

  lemma AfterHeavy(l: Tree, n: AvlNode, m: Tree, n': AvlNode, r: Tree)
    requires Balanced(Node(m, n', r)) && Balanced(l) && Height(Node(m, n', r)) == Height(l) + 2
    ensures var t := Node(l, n, Node(m, n', r));
            Balanced(Rebalanced(t)) && Height(l) + 2 <= Height(Rebalanced(t)) <= Height(l) + 3
  {
    if Height(r) < Height(m) {
      var Node(u, c, v) := m;
      assert Rebalanced(Node(l, n, Node(m, n', r))) == Node(Node(l, n, u), c, Node(v, n', r));
      assert Height(r) == Height(l) && Height(Node(l, n, u)) == Height(l) + 1
        && Height(Node(v, n', r)) == Height(l) + 1;
    } else {
      assert Rebalanced(Node(l, n, Node(m, n', r))) == Node(Node(l, n, m), n', r);
    }
  }

  lemma RebalancedBalances(t: Tree)
    requires t.Node? && Balanced(t.before) && Balanced(t.after) && -2 <= Imbalance(t) <= 2
    ensures Balanced(Rebalanced(t)) && Height(t) - 1 <= Height(Rebalanced(t)) <= Height(t)
    ensures -2 < Imbalance(t) < 2 ==> Rebalanced(t) == t
  {
    var Node(l, n, r) := t;
    if Imbalance(t) == 2 {
      hide Rebalanced, Balanced;
      BeforeHeavy(l.before, l.node, l.after, n, r);
    } else if Imbalance(t) == -2 {
      hide Rebalanced, Balanced;
      AfterHeavy(l, n, r.before, r.node, r.after);
    }
  }

  lemma RebalancedIsAvl(l: Tree, n: AvlNode, r: Tree)
    requires Avl(l) && Avl(r) && -2 <= Height(l) - Height(r) <= 2
    requires (forall k :: k in Keys(l) ==> k < n.pixel.id) && (forall k :: k in Keys(r) ==> n.pixel.id < k)
    ensures var t := Node(l, n, r);
      && Avl(Rebalanced(t)) && Keys(Rebalanced(t)) == Keys(t) && Nodes(Rebalanced(t)) == Nodes(t)
      && Height(t) - 1 <= Height(Rebalanced(t)) <= Height(t)
      && (-2 < Height(l) - Height(r) < 2 ==> Rebalanced(t) == t)
  {
    hide Rebalanced, Keys, Nodes, Height;
    RebalancedKeepsOrder(Node(l, n, r));
    RebalancedBalances(Node(l, n, r));
  }

  lemma AvlParts(t: Tree)
    requires Avl(t) && t.Node?
    ensures Avl(t.before) && Avl(t.after) && -1 <= Height(t.before) - Height(t.after) <= 1
    ensures (forall k :: k in Keys(t.before) ==> k < t.node.pixel.id)
      && (forall k :: k in Keys(t.after) ==> t.node.pixel.id < k)
  {
  }

  lemma GrownBefore(l: Tree, l': Tree, n: AvlNode, r: Tree, x: AvlNode)
    requires Avl(Node(l, n, r)) && Avl(l') && x.pixel.id < n.pixel.id
    requires Keys(l') == Keys(l) + {x.pixel.id} && Nodes(l') == Nodes(l) + {x}
      && Height(l) <= Height(l') <= Height(l) + 1
    ensures var t, t' := Node(l, n, r), Rebalanced(Node(l', n, r));
      Avl(t') && Keys(t') == Keys(t) + {x.pixel.id} && Nodes(t') == Nodes(t) + {x}
        && Height(t) <= Height(t') <= Height(t) + 1
  {
    hide Rebalanced, Avl;
    AvlParts(Node(l, n, r));
    RebalancedIsAvl(l', n, r);
  }

  lemma GrownAfter(l: Tree, n: AvlNode, r: Tree, r': Tree, x: AvlNode)
    requires Avl(Node(l, n, r)) && Avl(r') && x.pixel.id > n.pixel.id
    requires Keys(r') == Keys(r) + {x.pixel.id} && Nodes(r') == Nodes(r) + {x}
      && Height(r) <= Height(r') <= Height(r) + 1
    ensures var t, t' := Node(l, n, r), Rebalanced(Node(l, n, r'));
      Avl(t') && Keys(t') == Keys(t) + {x.pixel.id} && Nodes(t') == Nodes(t) + {x}
        && Height(t) <= Height(t') <= Height(t) + 1
  {
    hide Rebalanced, Avl;
    AvlParts(Node(l, n, r));
    RebalancedIsAvl(l, n, r');
  }

  lemma {:induction false} InsertedKeepsAvl(t: Tree, x: AvlNode)
    requires Avl(t) && x.pixel.id !in Keys(t)
    ensures Avl(Inserted(t, x))
    ensures Keys(Inserted(t, x)) == Keys(t) + {x.pixel.id}
    ensures Nodes(Inserted(t, x)) == Nodes(t) + {x}
    ensures Height(t) <= Height(Inserted(t, x)) <= Height(t) + 1
  {
    hide Rebalanced;
    match t
    case Leaf =>
    case Node(l, n, r) =>
      AvlParts(t);
      hide Avl, Height;
      if x.pixel.id < n.pixel.id {
        InsertedKeepsAvl(l, x);
        GrownBefore(l, Inserted(l, x), n, r, x);
      } else {
        InsertedKeepsAvl(r, x);
        GrownAfter(l, n, r, Inserted(r, x), x);
      }
  }

  // ---- The heap represents a tree ----

  /** The nodes reachable from `p`, whose parent is `up`, are exactly `t`, with its heights stored. */
  ghost predicate Represents(p: AvlNode?, up: AvlNode?, t: Tree)
    reads Nodes(t)
  {
    match t
    case Leaf => p == null
    case Node(l, n, r) =>
      && p == n && n.pUp == up
      && n.height == Height(t) && n.imbalance == Imbalance(t)
      && n !in Nodes(l) && n !in Nodes(r) && Nodes(l) !! Nodes(r)
      && Represents(n.pBefore, n, l) && Represents(n.pAfter, n, r)
  }

  /** As `Represents`, except that the height stored in the root may be out of date. */
  ghost predicate RepresentsBelow(p: AvlNode, up: AvlNode?, t: Tree)
    reads Nodes(t)
  {
    && t.Node? && p == t.node && p.pUp == up
    && p !in Nodes(t.before) && p !in Nodes(t.after) && Nodes(t.before) !! Nodes(t.after)
    && Represents(p.pBefore, p, t.before) && Represents(p.pAfter, p, t.after)
  }

  /** amatchAvlRecomputeHeight. */
  method RecomputeHeight(p: AvlNode, ghost t: Tree)
    requires RepresentsBelow(p, p.pUp, t)
    modifies p
    ensures Represents(p, p.pUp, t) && p.pUp == old(p.pUp)
  {
    var hBefore := if p.pBefore != null then p.pBefore.height else 0;
    var hAfter := if p.pAfter != null then p.pAfter.height else 0;
    p.imbalance := hBefore - hAfter;
    p.height := (if hBefore > hAfter then hBefore else hAfter) + 1;
  }

  /** Hands a subtree to another parent by changing the one link of its root. */
  method Adopt(p: AvlNode?, up: AvlNode, ghost up': AvlNode?, ghost t: Tree)
    requires Represents(p, up', t)
    modifies if p == null then {} else {p}
    ensures Represents(p, up, t)
  {
    if p != null {
      p.pUp := up;
    }
  }

  /** amatchAvlRotateBefore. */
  method RotateBefore(pP: AvlNode, ghost t: Tree) returns (pB: AvlNode)
    requires RepresentsBelow(pP, pP.pUp, t) && t.before.Node?
    modifies Nodes(t)
    ensures Represents(pB, old(pP.pUp), RotatedBefore(t))
  {
    hide Height, Imbalance;
    ghost var Node(Node(x, b, y), n, z) := t;
    assert Nodes(t) == Nodes(x) + {b} + Nodes(y) + {n} + Nodes(z);
    pB := pP.pBefore;
    var pY := pB.pAfter;
    pB.pUp := pP.pUp;
    pB.pAfter := pP;
    pP.pUp := pB;
    pP.pBefore := pY;
    assert Represents(pB.pBefore, pB, x) && Represents(pY, pB, y) && Represents(pP.pAfter, pP, z);
    assert allocated(Nodes(x)) && allocated(Nodes(y)) && allocated(Nodes(z));
    assert pY != null ==> pY in Nodes(y) && pY !in Nodes(x) + Nodes(z) + {b, n};
    Adopt(pY, pP, pB, y);
    assert Represents(pB.pBefore, pB, x) && Represents(pP.pAfter, pP, z);
    RecomputeHeight(pP, Node(y, n, z));
    assert Represents(pB.pBefore, pB, x);
    RecomputeHeight(pB, RotatedBefore(t));
  }

  /** amatchAvlRotateAfter. */
  method RotateAfter(pP: AvlNode, ghost t: Tree) returns (pA: AvlNode)
    requires RepresentsBelow(pP, pP.pUp, t) && t.after.Node?
    modifies Nodes(t)
    ensures Represents(pA, old(pP.pUp), RotatedAfter(t))
  {
    hide Height, Imbalance;
    ghost var Node(x, n, Node(y, a, z)) := t;
    assert Nodes(t) == Nodes(x) + {n} + Nodes(y) + {a} + Nodes(z);
    pA := pP.pAfter;
    var pY := pA.pBefore;
    pA.pUp := pP.pUp;
    pA.pBefore := pP;
    pP.pUp := pA;
    pP.pAfter := pY;
    assert Represents(pP.pBefore, pP, x) && Represents(pY, pA, y) && Represents(pA.pAfter, pA, z);
    assert allocated(Nodes(x)) && allocated(Nodes(y)) && allocated(Nodes(z));
    assert pY != null ==> pY in Nodes(y) && pY !in Nodes(x) + Nodes(z) + {n, a};
    Adopt(pY, pP, pA, y);
    assert Represents(pP.pBefore, pP, x) && Represents(pA.pAfter, pA, z);
    RecomputeHeight(pP, Node(x, n, y));
    assert Represents(pA.pAfter, pA, z);
    RecomputeHeight(pA, RotatedAfter(t));
  }

  // ---- The rest of the tree around a subtree ----

  /** The path from a subtree up to the root, with the subtrees hanging off it. */
  datatype Path = Top | WentBefore(node: AvlNode, after: Tree, up: Path) | WentAfter(before: Tree, node: AvlNode,
    up: Path)

  function PathNodes(c: Path): set<AvlNode> {
    match c
    case Top => {}
    case WentBefore(n, r, up) => {n} + Nodes(r) + PathNodes(up)
    case WentAfter(l, n, up) => Nodes(l) + {n} + PathNodes(up)
  }

  function Whole(c: Path, t: Tree): Tree {
    match c
    case Top => t
    case WentBefore(n, r, up) => Whole(up, Node(t, n, r))
    case WentAfter(l, n, up) => Whole(up, Node(l, n, t))
  }

  /** The whole tree after rebalancing every node on the way up from `t`. */
  function RebalancedUp(c: Path, t: Tree): Tree {
    match c
    case Top => t
    case WentBefore(n, r, up) => RebalancedUp(up, Rebalanced(Node(t, n, r)))
    case WentAfter(l, n, up) => RebalancedUp(up, Rebalanced(Node(l, n, t)))
  }

  /** Descending towards `key` leads along `c`. */
  ghost predicate LeadsTo(c: Path, key: int) {
    match c
    case Top => true
    case WentBefore(n, _, up) => key < n.pixel.id && LeadsTo(up, key)
    case WentAfter(_, n, up) => n.pixel.id < key && LeadsTo(up, key)
  }

  /** The heap around the slot that holds `p`, whose parent is `up`, is `c`; heights on the path may be out of date. */
  ghost predicate Surrounds(c: Path, p: AvlNode?, up: AvlNode?)
    reads PathNodes(c)
  {
    match c
    case Top => up == null
    case WentBefore(n, r, c') =>
      && up == n && n.pBefore == p && Represents(n.pAfter, n, r)
      && n !in Nodes(r) && n !in PathNodes(c') && Nodes(r) !! PathNodes(c')
      && Surrounds(c', n, n.pUp)
    case WentAfter(l, n, c') =>
      && up == n && n.pAfter == p && Represents(n.pBefore, n, l)
      && n !in Nodes(l) && n !in PathNodes(c') && Nodes(l) !! PathNodes(c')
      && Surrounds(c', n, n.pUp)
  }

  lemma {:induction false} InsertedAlongPath(c: Path, t: Tree, x: AvlNode)
    requires LeadsTo(c, x.pixel.id)
    ensures Inserted(Whole(c, t), x) == RebalancedUp(c, Inserted(t, x))
  {
    match c
    case Top =>
    case WentBefore(n, r, up) => InsertedAlongPath(up, Node(t, n, r), x);
    case WentAfter(l, n, up) => InsertedAlongPath(up, Node(l, n, t), x);
  }

  lemma LeaningSides(t: Tree)
    ensures Imbalance(t) > 0 ==> t.Node? && t.before.Node?
    ensures Imbalance(t) < 0 ==> t.Node? && t.after.Node?
  {
  }

  /** pixelAvlBalance, the rotations at a node whose before-side is too high. */
  method RotateHeavyBefore(p: AvlNode, ghost t: Tree) returns (p': AvlNode)
    requires Represents(p, p.pUp, t) && Imbalance(t) >= 2
    modifies Nodes(t)
    ensures Represents(p', old(p.pUp), Rebalanced(t)) && Nodes(Rebalanced(t)) == Nodes(t)
  {
    hide Height, RotatedBefore, RotatedAfter;
    LeaningSides(t);
    ghost var t' := t;
    var pB := p.pBefore;
    assert allocated(Nodes(t.before)) && allocated(Nodes(t.after));
    LeaningSides(t.before);
    if pB.imbalance < 0 {
      RotatedAfterKeepsOrder(t.before);
      t' := t.(before := RotatedAfter(t.before));
      p.pBefore := RotateAfter(pB, t.before);
      assert Represents(p.pAfter, p, t.after);
    }
    RotatedBeforeKeepsOrder(t');
    p' := RotateBefore(p, t');
  }

  /** pixelAvlBalance, the rotations at a node whose after-side is too high. */
  method RotateHeavyAfter(p: AvlNode, ghost t: Tree) returns (p': AvlNode)
    requires Represents(p, p.pUp, t) && Imbalance(t) <= -2
    modifies Nodes(t)
    ensures Represents(p', old(p.pUp), Rebalanced(t)) && Nodes(Rebalanced(t)) == Nodes(t)
  {
    hide Height, RotatedBefore, RotatedAfter;
    LeaningSides(t);
    ghost var t' := t;
    var pA := p.pAfter;
    assert allocated(Nodes(t.before)) && allocated(Nodes(t.after));
    LeaningSides(t.after);
    if pA.imbalance > 0 {
      RotatedBeforeKeepsOrder(t.after);
      t' := t.(after := RotatedBefore(t.after));
      p.pAfter := RotateBefore(pA, t.after);
      assert Represents(p.pBefore, p, t.before);
    }
    RotatedAfterKeepsOrder(t');
    p' := RotateAfter(p, t');
  }

  /** The slot of `p` in its parent, as pixelAvrFromPtr finds it: the pAfter link or the pBefore link. */
  predicate HangsAfter(p: AvlNode, pUp: AvlNode)
    reads pUp
  {
    pUp.pAfter == p
  }

  lemma SlotOnPath(p: AvlNode, pUp: AvlNode, c: Path)
    requires Surrounds(c, p, pUp) && p !in PathNodes(c)
    ensures !c.Top? && (HangsAfter(p, pUp) <==> c.WentAfter?)
  {
  }

  /** `*pp = q`: hang a rotated subtree where its former root hung. */
  method Rehang(q: AvlNode, pUp: AvlNode?, after: bool, ghost c: Path, ghost p: AvlNode)
    requires Surrounds(c, p, pUp) && (pUp != null ==> after == c.WentAfter?)
    modifies PathNodes(c)
    ensures Surrounds(c, q, pUp)
  {
    if pUp != null {
      assert allocated(if c.WentAfter? then Nodes(c.before) else Nodes(c.after)) && allocated(PathNodes(c.up));
      if after {
        pUp.pAfter := q;
      } else {
        pUp.pBefore := q;
      }
    }
  }

  /** One turn of the loop of pixelAvlBalance: recompute the height of `p`, rotate if it leans by two,
      and hang the result where `p` hung. */
  method BalanceNode(p: AvlNode, ghost c: Path, ghost t: Tree) returns (p': AvlNode)
    requires RepresentsBelow(p, p.pUp, t) && Surrounds(c, p, p.pUp) && Nodes(t) !! PathNodes(c)
    modifies Nodes(t) + PathNodes(c)
    ensures Represents(p', old(p.pUp), Rebalanced(t)) && Nodes(Rebalanced(t)) == Nodes(t)
    ensures Surrounds(c, p', old(p.pUp)) && p'.pUp == old(p.pUp)
  {
    hide Height, Imbalance, Rebalanced, HangsAfter, PathNodes, Surrounds;
    assert allocated(Nodes(t)) && allocated(PathNodes(c));
    var pUp := p.pUp;
    if pUp != null {
      SlotOnPath(p, pUp, c);
    }
    var after := pUp != null && HangsAfter(p, pUp);
    RecomputeHeight(p, t);
    RebalancedIf(t);
    p' := p;
    if p.imbalance >= 2 {
      p' := RotateHeavyBefore(p, t);
      Rehang(p', pUp, after, c, p);
    } else if p.imbalance <= -2 {
      p' := RotateHeavyAfter(p, t);
      Rehang(p', pUp, after, c, p);
    }
  }

  lemma RebalancedIf(t: Tree)
    ensures -2 < Imbalance(t) < 2 ==> Rebalanced(t) == t
  {
  }

  function Depth(c: Path): nat {
    if c.Top? then 0 else 1 + Depth(c.up)
  }

  /** The subtree at the parent, once the subtree below it is `t`. */
  function Grown(c: Path, t: Tree): Tree
    requires !c.Top?
  {
    match c
    case WentBefore(n, r, _) => Node(t, n, r)
    case WentAfter(l, n, _) => Node(l, n, t)
  }

  /** Going up one level. */
  lemma StepUp(p: AvlNode, pUp: AvlNode?, c: Path, t: Tree)
    requires Represents(p, pUp, t) && Surrounds(c, p, pUp) && Nodes(t) !! PathNodes(c)
    ensures pUp == null <==> c.Top?
    ensures pUp != null ==>
      && RepresentsBelow(pUp, pUp.pUp, Grown(c, t)) && Surrounds(c.up, pUp, pUp.pUp)
      && Nodes(Grown(c, t)) !! PathNodes(c.up)
      && Nodes(Grown(c, t)) + PathNodes(c.up) == Nodes(t) + PathNodes(c)
      && RebalancedUp(c, t) == RebalancedUp(c.up, Rebalanced(Grown(c, t)))
  {
  }

  /** pixelAvlBalance. */
  method PixelAvlBalance(p: AvlNode, ghost c: Path, ghost t: Tree) returns (pTop: AvlNode)
    requires RepresentsBelow(p, p.pUp, t) && Surrounds(c, p, p.pUp) && Nodes(t) !! PathNodes(c)
    modifies Nodes(t) + PathNodes(c)
    ensures Represents(pTop, null, RebalancedUp(c, Rebalanced(t)))
  {
    hide Represents, RepresentsBelow, Surrounds, Rebalanced, Nodes, PathNodes, Grown;
    pTop := p;
    var q: AvlNode? := p;
    ghost var c', t' := c, t;
    while q != null
      invariant q != null ==> RepresentsBelow(q, q.pUp, t') && Surrounds(c', q, q.pUp) && Nodes(t') !! PathNodes(c')
      invariant q != null ==> RebalancedUp(c', Rebalanced(t')) == RebalancedUp(c, Rebalanced(t))
      invariant q == null ==> Represents(pTop, null, RebalancedUp(c, Rebalanced(t)))
      invariant Nodes(t') + PathNodes(c') == Nodes(t) + PathNodes(c)
      decreases if q == null then 0 else 1 + Depth(c')
    {
      pTop := BalanceNode(q, c', t');
      q := pTop.pUp;
      StepUp(pTop, q, c', Rebalanced(t'));
      if q != null {
        c', t' := c'.up, Grown(c', Rebalanced(t'));
      }
    }
  }

  /** The node of the tree that holds `key`, if there is one. */
  function Found(t: Tree, key: int): AvlNode? {
    match t
    case Leaf => null
    case Node(l, n, r) => if key < n.pixel.id then Found(l, key) else if key > n.pixel.id then Found(r, key) else n
  }

  lemma {:induction false} FoundByKey(t: Tree, key: int)
    requires Ordered(t)
    ensures Found(t, key) != null <==> key in Keys(t)
    ensures Found(t, key) != null ==> Found(t, key) in Nodes(t) && Found(t, key).pixel.id == key
  {
    match t
    case Leaf =>
    case Node(l, n, r) =>
      FoundByKey(l, key);
      FoundByKey(r, key);
  }

  /** Keys identify nodes. */
  lemma {:induction false} FoundNode(t: Tree, n: AvlNode)
    requires Ordered(t) && n in Nodes(t)
    ensures n.pixel.id in Keys(t) && Found(t, n.pixel.id) == n
  {
    var Node(l, m, r) := t;
    if n in Nodes(l) {
      FoundNode(l, n);
    } else if n in Nodes(r) {
      FoundNode(r, n);
    }
  }

  /** pixelAvlSearch. */
  method PixelAvlSearch(head: AvlNode?, zId: int, ghost up: AvlNode?, ghost t: Tree) returns (p: AvlNode?)
    requires Represents(head, up, t)
    ensures p == Found(t, zId)
  {
    p := head;
    ghost var t', up' := t, up;
    while p != null && p.pixel.id != zId
      invariant Represents(p, up', t') && Found(t', zId) == Found(t, zId)
      decreases t'
    {
      up' := p;
      if zId < p.pixel.id {
        p, t' := p.pBefore, t'.before;
      } else {
        p, t' := p.pAfter, t'.after;
      }
    }
  }

  /** Descending one level during insertion. */
  lemma StepDown(p: AvlNode, c: Path, t: Tree)
    requires Represents(p, p.pUp, t) && Surrounds(c, p, p.pUp) && Nodes(t) !! PathNodes(c)
    ensures t.Node? && t.node == p
    ensures var q, c' := p.pBefore, WentBefore(p, t.after, c);
      && Represents(q, p, t.before) && Surrounds(c', q, p) && Nodes(t.before) !! PathNodes(c')
      && Whole(c', t.before) == Whole(c, t) && Nodes(t.before) + PathNodes(c') == Nodes(t) + PathNodes(c)
    ensures var q, c' := p.pAfter, WentAfter(t.before, p, c);
      && Represents(q, p, t.after) && Surrounds(c', q, p) && Nodes(t.after) !! PathNodes(c')
      && Whole(c', t.after) == Whole(c, t) && Nodes(t.after) + PathNodes(c') == Nodes(t) + PathNodes(c)
    ensures if p.pBefore == null then t.before.Leaf? else p.pBefore.pUp == p
    ensures if p.pAfter == null then t.after.Leaf? else p.pAfter.pUp == p
  {
  }

  /** The fields that pixelAvlInsert sets in the new node make it a leaf. */
  method MakeLeaf(x: AvlNode)
    modifies x
    ensures Represents(x, old(x.pUp), Node(Leaf, x, Leaf))
  {
    x.pBefore := null;
    x.pAfter := null;
    x.height := 1;
    x.imbalance := 0;
  }

  /** pixelAvlInsert below the node `p` at which the descent ended: attach on the free side, then balance upwards. */
  method AttachAndBalance(p: AvlNode, pNew: AvlNode, ghost c: Path, ghost t: Tree) returns (head: AvlNode)
    requires Represents(p, p.pUp, t) && Surrounds(c, p, p.pUp) && Nodes(t) !! PathNodes(c)
    requires pNew !in Nodes(t) && pNew !in PathNodes(c)
    requires if pNew.pixel.id < p.pixel.id then t.before.Leaf? else pNew.pixel.id > p.pixel.id && t.after.Leaf?
    requires LeadsTo(c, pNew.pixel.id)
    modifies Nodes(t) + PathNodes(c) + {pNew}
    ensures Represents(head, null, Inserted(Whole(c, t), pNew))
  {
    hide Height, Imbalance, Rebalanced, Surrounds, Whole, LeadsTo;
    assert allocated(Nodes(t.before)) && allocated(Nodes(t.after)) && allocated(PathNodes(c));
    InsertedAlongPath(c, t, pNew);
    ghost var leaf := Node(Leaf, pNew, Leaf);
    assert Nodes(leaf) == {pNew};
    ghost var t' := if pNew.pixel.id < p.pixel.id then t.(before := leaf) else t.(after := leaf);
    assert Inserted(t, pNew) == Rebalanced(t');
    if pNew.pixel.id < p.pixel.id {
      p.pBefore := pNew;
    } else {
      p.pAfter := pNew;
    }
    pNew.pUp := p;
    MakeLeaf(pNew);
    head := PixelAvlBalance(p, c, t');
  }

  /** pixelAvlInsert into an empty tree. */
  method InsertFirst(pNew: AvlNode) returns (head: AvlNode)
    modifies pNew
    ensures Represents(head, null, Inserted(Leaf, pNew))
  {
    pNew.pUp := null;
    MakeLeaf(pNew);
    head := PixelAvlBalance(pNew, Top, Node(Leaf, pNew, Leaf));
  }

  lemma AtRoot(head: AvlNode?, t: Tree)
    requires Represents(head, null, t)
    ensures head == null <==> t == Leaf
    ensures head != null ==> head.pUp == null && Surrounds(Top, head, null)
    ensures PathNodes(Top) == {} && Whole(Top, t) == t && (t == Leaf ==> Nodes(t) == {})
  {
  }

  /** pixelAvlInsert: the new root, and the node already holding the key if the tree is left as it was. */
  method PixelAvlInsert(head: AvlNode?, pNew: AvlNode, ghost t: Tree) returns (head': AvlNode?, existing: AvlNode?)
    requires Represents(head, null, t) && pNew !in Nodes(t)
    modifies Nodes(t) + {pNew}
    ensures existing == Found(t, pNew.pixel.id)
    ensures existing == null ==> Represents(head', null, Inserted(t, pNew))
    ensures existing != null ==> head' == head && Represents(head, null, t)
  {
    hide Represents, Surrounds, Inserted, Nodes, PathNodes, Whole;
    AtRoot(head, t);
    if head == null {
      head' := InsertFirst(pNew);
      return head', null;
    }
    var p: AvlNode := head;
    ghost var c, t' := Top, t;
    while true
      invariant Represents(p, p.pUp, t') && Surrounds(c, p, p.pUp) && Nodes(t') !! PathNodes(c)
      invariant Whole(c, t') == t && Nodes(t') + PathNodes(c) == Nodes(t)
      invariant LeadsTo(c, pNew.pixel.id) && Found(t', pNew.pixel.id) == Found(t, pNew.pixel.id)
      invariant Represents(head, null, t)
      decreases t'
    {
      StepDown(p, c, t');
      if pNew.pixel.id < p.pixel.id {
        if p.pBefore != null {
          p, c, t' := p.pBefore, WentBefore(p, t'.after, c), t'.before;
        } else {
          break;
        }
      } else if pNew.pixel.id > p.pixel.id {
        if p.pAfter != null {
          p, c, t' := p.pAfter, WentAfter(t'.before, p, c), t'.after;
        } else {
          break;
        }
      } else {
        return head, p;
      }
    }
    head' := AttachAndBalance(p, pNew, c, t');
    existing := null;
  }
}
