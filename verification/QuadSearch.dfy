// Best-first search in the quad-tree (tree_knn, scamp/src/quadtree.c).

module QuadSearch {
  import opened Basics
  import opened Bits
  import opened QuadTrees
  import opened QuadDistance
  import opened QuadNodes
  import opened PQueues

  // ---- The state of the search ----

  /** A subtree that waits in the queue, with its depth. */
  type Pending<T> = (Quad<T>, nat)

  ghost predicate Sound<T>(e: Pending<T>) {
    !e.0.Absent? && Formed(e.0) && Routed(e.0, e.1)
  }

  function Far<T>(e: Pending<T>, q: Index): nat
    requires !e.0.Absent?
  {
    Distance(e.0, e.1, q)
  }

  /** How far the search has to go for `l` in the tree `root`, once the ways to it and to `m` have parted. */
  ghost function Stretch<T>(root: Quad<T>, l: Entry<T>, m: Entry<T>, q: Index): nat {
    Bottleneck(root, TREE_MAXDEPTH, l.0, m.0, q)
  }

  /** The search comes to `l` before it comes to `m`. */
  ghost predicate Sooner<T>(root: Quad<T>, l: Entry<T>, m: Entry<T>, q: Index) {
    Stretch(root, l, m, q) < Stretch(root, m, l, q)
  }

  /** The ways from the root to the leaves below lead through this subtree. */
  ghost predicate OnWay<T>(e: Pending<T>, q: Index, root: Quad<T>)
    requires Formed(e.0)
  {
    forall l, m :: l in Leaves(e.0) && m in Leaves(e.0) ==>
      Stretch(root, l, m, q) == Bottleneck(e.0, e.1, l.0, m.0, q)
  }

  /** Of the leaves below two elements of the queue: if that below `e` comes sooner, the search has still to go farther
      for that below `e'`. */
  ghost predicate Behind<T>(e: Pending<T>, e': Pending<T>, q: Index, root: Quad<T>)
    requires Formed(e.0) && Formed(e'.0)
  {
    forall l, m :: l in Leaves(e.0) && m in Leaves(e'.0) ==> LeafBehind(e, e', l, m, q, root)
  }

  ghost predicate LeafBehind<T>(e: Pending<T>, e': Pending<T>, l: Entry<T>, m: Entry<T>, q: Index, root: Quad<T>) {
    && Reach(e.0, e.1, l.0, q) <= Stretch(root, l, m, q)
    && (Sooner(root, l, m, q) ==> Stretch(root, l, m, q) < Reach(e'.0, e'.1, m.0, q))
  }

  /** The distance of a leaf. */
  function LeafDistance<T>(l: Entry<T>, q: Index): nat {
    Distance(Leaf(l.0, l.1), 0, q)
  }

  ghost predicate AllSound<K, T>(f: map<K, Pending<T>>) {
    forall n :: n in f ==> Sound(f[n])
  }

  ghost function Below<K, T>(f: map<K, Pending<T>>): set<Entry<T>>
    requires AllSound(f)
  {
    set n, l | n in f && l in Leaves(f[n].0) :: l
  }

  /** The leaves found, those below the queue and those below `rest` make up `whole`, each once. */
  ghost predicate Split<K, T>(whole: set<Entry<T>>, found: seq<Entry<T>>, f: map<K, Pending<T>>, rest: Quad<T>) {
    && AllSound(f) && Formed(rest) && Distinct(found)
    && whole == Elements(found) + Leaves(rest) + Below(f)
    && Elements(found) !! Leaves(rest) && Elements(found) !! Below(f) && Leaves(rest) !! Below(f)
    && forall m, n :: m in f && n in f && m != n ==> Leaves(f[m].0) !! Leaves(f[n].0)
  }

  /** The leaves found came in turn, and so will those below the queue. */
  ghost predicate Ascending<K, T>(whole: set<Entry<T>>, found: seq<Entry<T>>, f: map<K, Pending<T>>, q: Index,
      root: Quad<T>)
  {
    && AllSound(f) && InTurn(whole, found, q, root)
    && (forall n :: n in f ==> OnWay(f[n], q, root))
    && (forall m, n :: m in f && n in f && m != n ==> Behind(f[m], f[n], q, root))
  }

  /** Every leaf that comes sooner than one found has been found before it. */
  ghost predicate InTurn<T>(whole: set<Entry<T>>, found: seq<Entry<T>>, q: Index, root: Quad<T>) {
    forall j, l :: 0 <= j < |found| && l in whole && Sooner(root, l, found[j], q) ==> l in found[..j]
  }

  /** The leaves found are distinct leaves of the tree. */
  ghost predicate Retrieved<T>(whole: set<Entry<T>>, found: seq<Entry<T>>) {
    Distinct(found) && Elements(found) <= whole
  }

  /** What a best-first search finds. */
  ghost predicate Foremost<T>(whole: set<Entry<T>>, found: seq<Entry<T>>, q: Index, root: Quad<T>) {
    Retrieved(whole, found) && InTurn(whole, found, q, root)
  }

  /** They are in the order of their distances, and no other leaf is nearer than any of them. */
  ghost predicate Nearest<T>(whole: set<Entry<T>>, found: seq<Entry<T>>, q: Index) {
    && Retrieved(whole, found)
    && (forall i, j :: 0 <= i < j < |found| ==> LeafDistance(found[i], q) <= LeafDistance(found[j], q))
    && forall l, m :: l in found && m in whole && m !in found ==> LeafDistance(l, q) <= LeafDistance(m, q)
  }

  /** The index lies in the circle about `q` of this radius, without its border. */
  predicate InCircle(i: Index, q: Index, r: nat) {
    (q.x - i.x) * (q.x - i.x) + (q.y - i.y) * (q.y - i.y) < r * r
  }

  /** Every circle of integer radius about `q` that holds `j` holds `i`. */
  ghost predicate NoFarther(i: Index, j: Index, q: Index) {
    forall r: nat :: InCircle(j, q, r) ==> InCircle(i, q, r)
  }

  /** In the plane: circles about `q` take in the leaves found one after the other, and the others after them. */
  ghost predicate NearestInPlane<T>(whole: set<Entry<T>>, found: seq<Entry<T>>, q: Index) {
    && Retrieved(whole, found)
    && (forall i, j :: 0 <= i < j < |found| ==> NoFarther(found[i].0, found[j].0, q))
    && forall l, m :: l in found && m in whole && m !in found ==> NoFarther(l.0, m.0, q)
  }

  lemma CircleIs<T>(l: Entry<T>, q: Index, r: nat)
    ensures InCircle(l.0, q, r) <==> LeafDistance(l, q) < r
  {
    LeafDistanceIs(l, 0, q);
    var d, v := LeafDistance(l, q), (q.x - l.0.x) * (q.x - l.0.x) + (q.y - l.0.y) * (q.y - l.0.y);
    hide Distance, LeafDistance;
    CircleSquares(d, v, r);
  }

  lemma CircleSquares(d: nat, v: int, r: nat)
    requires d * d <= v < (d + 1) * (d + 1)
    ensures v < r * r <==> d < r
  {
    if d < r {
      SquareMonotone(d + 1, r);
    } else {
      SquareMonotone(r, d);
    }
  }

  lemma NoFartherIs<T>(l: Entry<T>, m: Entry<T>, q: Index)
    ensures NoFarther(l.0, m.0, q) <==> LeafDistance(l, q) <= LeafDistance(m, q)
  {
    hide LeafDistance, InCircle;
    CircleIs(m, q, LeafDistance(m, q) + 1);
    CircleIs(l, q, LeafDistance(m, q) + 1);
    if LeafDistance(l, q) <= LeafDistance(m, q) {
      forall r: nat | InCircle(m.0, q, r) ensures InCircle(l.0, q, r) {
        CircleIs(l, q, r);
        CircleIs(m, q, r);
      }
    }
  }

  /** The nearest leaves are the nearest ones in the plane, up to truncation. */
  lemma NearestIs<T>(whole: set<Entry<T>>, found: seq<Entry<T>>, q: Index)
    ensures Nearest(whole, found, q) <==> NearestInPlane(whole, found, q)
  {
    hide LeafDistance, NoFarther, Retrieved;
    forall l: Entry<T>, m: Entry<T>
      ensures NoFarther(l.0, m.0, q) <==> LeafDistance(l, q) <= LeafDistance(m, q)
    {
      NoFartherIs(l, m, q);
    }
  }

  /** What holds of the leaves found at any moment, and at the end of the search. */
  lemma Searched<K, T>(whole: set<Entry<T>>, found: seq<Entry<T>>, f: map<K, Pending<T>>, q: Index, root: Quad<T>)
    requires Split(whole, found, f, Absent) && Ascending(whole, found, f, q, root)
    ensures Foremost(whole, found, q, root)
    ensures |found| <= |whole| && (f.Keys == {} ==> |found| == |whole|)
  {
    hide Distance, Routed, Sooner, Leaves, InTurn, Behind, OnWay;
    EmptyLeaves<T>();
    DistinctCount(found);
    SubsetCount(Elements(found), whole);
    if f.Keys == {} {
      assert Below(f) == {};
    }
  }

  lemma {:induction false} SubsetCount<T>(a: set<T>, b: set<T>)
    requires a <= b
    ensures |a| <= |b|
  {
    if a != {} {
      var x :| x in a;
      SubsetCount(a - {x}, b - {x});
    }
  }

  // ---- Steps of the search ----

  /** The nearest element of the queue is a leaf: it is found. */
  lemma TakenLeaf<K, T>(whole: set<Entry<T>>, found: seq<Entry<T>>, f: map<K, Pending<T>>, q: Index, n: K, l: Entry<T>,
                        root: Quad<T>)
    requires Split(whole, found, f, Absent) && Ascending(whole, found, f, q, root) && n in f
    requires f[n].0 == Leaf(l.0, l.1) && forall m :: m in f ==> Far(f[n], q) <= Far(f[m], q)
    ensures Split(whole, found + [l], f - {n}, Absent) && Ascending(whole, found + [l], f - {n}, q, root)
  {
    LeafInTurn(whole, found, f, q, n, l, root);
    assert l in Leaves(f[n].0);
    hide Distance, Routed, Far, Below, OnWay, Behind, InTurn;
    BelowRemoved(f, n);
    assert Elements(found + [l]) == Elements(found) + {l};
  }

  /** It is its turn: no leaf that comes sooner still waits. */
  lemma LeafInTurn<K, T>(whole: set<Entry<T>>, found: seq<Entry<T>>, f: map<K, Pending<T>>, q: Index, n: K, l: Entry<T>,
                         root: Quad<T>)
    requires Split(whole, found, f, Absent) && Ascending(whole, found, f, q, root) && n in f
    requires f[n].0 == Leaf(l.0, l.1) && forall m :: m in f ==> Far(f[n], q) <= Far(f[m], q)
    ensures InTurn(whole, found + [l], q, root)
  {
    hide Distance, Routed, Stretch, Leaves;
    var found' := found + [l];
    forall j, x | 0 <= j < |found'| && x in whole && Sooner(root, x, found'[j], q) ensures x in found'[..j] {
      if j < |found| {
        assert found'[..j] == found[..j];
      } else {
        assert found'[..j] == found;
        if x !in found {
          NoneWaits(whole, found, f, q, n, l, x, root);
        }
      }
    }
  }

  lemma NoneWaits<K, T>(whole: set<Entry<T>>, found: seq<Entry<T>>, f: map<K, Pending<T>>, q: Index, n: K, l: Entry<T>,
                        x: Entry<T>, root: Quad<T>)
    requires Split(whole, found, f, Absent) && Ascending(whole, found, f, q, root) && n in f
    requires f[n].0 == Leaf(l.0, l.1) && forall m :: m in f ==> Far(f[n], q) <= Far(f[m], q)
    requires x in whole && x !in found
    ensures !Sooner(root, x, l, q)
  {
    EmptyLeaves<T>();
    LeafReach(f[n], l, q);
    hide Distance, Routed, Leaves, Stretch, Reach, OnWay;
    var m :| m in f && x in Leaves(f[m].0);
    ReachIsFar(f[m].0, f[m].1, x.0, q);
    if m == n {
      SingleLeaf(f[n].0, l, x);
    } else {
      assert Behind(f[m], f[n], q, root);
      assert LeafBehind(f[m], f[n], x, l, q, root);
    }
  }

  lemma LeafReach<T>(e: Pending<T>, l: Entry<T>, q: Index)
    requires e.0 == Leaf(l.0, l.1) && Formed(e.0)
    ensures l in Leaves(e.0) && Reach(e.0, e.1, l.0, q) == Far(e, q)
  {
    hide Distance;
  }

  lemma SingleLeaf<T>(t: Quad<T>, l: Entry<T>, x: Entry<T>)
    requires t == Leaf(l.0, l.1) && Formed(t) && x in Leaves(t)
    ensures x == l
  {
  }

  lemma BelowRemoved<K, T>(f: map<K, Pending<T>>, n: K)
    requires AllSound(f) && n in f
    ensures AllSound(f - {n}) && Below(f) == Below(f - {n}) + Leaves(f[n].0)
    ensures forall m :: m in f ==> Leaves(f[m].0) <= Below(f)
    ensures (forall m :: m in f && m != n ==> Leaves(f[m].0) !! Leaves(f[n].0)) ==> Below(f - {n}) !! Leaves(f[n].0)
  {
    hide Routed, Graded, Leaves;
    var f' := f - {n};
    assert AllSound(f');
    forall l | l in Below(f) ensures l in Below(f') || l in Leaves(f[n].0) {
      var m :| m in f && l in Leaves(f[m].0);
      assert m == n || m in f';
    }
  }

  lemma BelowAdded<K, T>(f: map<K, Pending<T>>, n: K, e: Pending<T>)
    requires AllSound(f) && n !in f && Sound(e)
    ensures AllSound(f[n := e]) && Below(f[n := e]) == Below(f) + Leaves(e.0)
    ensures forall m :: m in f ==> Leaves(f[m].0) <= Below(f)
  {
    hide Routed, Graded, Leaves;
    BelowRemoved(f[n := e], n);
    assert f[n := e] - {n} == f;
  }

  /** The nearest element of the queue is an inner node: its sons are to be queued. */
  lemma TakenInner<K, T>(whole: set<Entry<T>>, found: seq<Entry<T>>, f: map<K, Pending<T>>, q: Index, n: K,
                         root: Quad<T>)
    requires Split(whole, found, f, Absent) && Ascending(whole, found, f, q, root) && n in f && f[n].0.Inner?
    requires forall m :: m in f ==> Far(f[n], q) <= Far(f[m], q)
    ensures Split(whole, found, f - {n}, f[n].0) && Ascending(whole, found, f - {n}, q, root)
    ensures f[n].1 > 0 && SonsReady(f[n].0.kids, f[n].1 - 1, f - {n}, q, root)
  {
    hide Distance, Routed, Below, Leaves, OnWay, Far, Behind, InTurn, SonsSound;
    BelowRemoved(f, n);
    RoutedIsFormed(f[n].0, f[n].1);
    EmptyLeaves<T>();
    SonsOfSound(f[n], q, root);
    var kids, depth := f[n].0.kids, f[n].1 - 1;
    SonsPresent(kids, depth, q, root);
    forall c, m | 0 <= c < 4 && !kids[c].Absent? && m in f && m != n
      ensures Behind((kids[c], depth), f[m], q, root) && Behind(f[m], (kids[c], depth), q, root)
    {
      SonBehind(f[n], f[m], c, q, root);
    }
  }

  /** What held between a node and another element of the queue holds for its sons, if it was the nearer of the two. */
  lemma SonBehind<T>(e: Pending<T>, e': Pending<T>, c: nat, q: Index, root: Quad<T>)
    requires Sound(e) && Sound(e') && e.0.Inner? && e.1 > 0 && c < 4 && Formed(e.0.kids[c])
    requires Behind(e, e', q, root) && Behind(e', e, q, root) && Far(e, q) <= Far(e', q)
    ensures Behind((e.0.kids[c], e.1 - 1), e', q, root) && Behind(e', (e.0.kids[c], e.1 - 1), q, root)
  {
    var son: Pending<T> := (e.0.kids[c], e.1 - 1);
    assert Formed(son.0) && Formed(e'.0);
    hide Sound, Far, LeafBehind, Leaves, Formed;
    forall l, m | l in Leaves(son.0) && m in Leaves(e'.0)
      ensures LeafBehind(son, e', l, m, q, root) && LeafBehind(e', son, m, l, q, root)
    {
      SonLeafBehind(e, e', c, l, m, q, root);
    }
  }

  lemma SonLeafBehind<T>(e: Pending<T>, e': Pending<T>, c: nat, l: Entry<T>, m: Entry<T>, q: Index, root: Quad<T>)
    requires Sound(e) && Sound(e') && e.0.Inner? && e.1 > 0 && c < 4 && Formed(e.0.kids[c])
    requires Behind(e, e', q, root) && Behind(e', e, q, root) && Far(e, q) <= Far(e', q)
    requires l in Leaves(e.0.kids[c]) && m in Leaves(e'.0)
    ensures LeafBehind((e.0.kids[c], e.1 - 1), e', l, m, q, root)
    ensures LeafBehind(e', (e.0.kids[c], e.1 - 1), m, l, q, root)
  {
    hide *;
    SoundPresent(e');
    SoundPresent(e);
    SoundRouted(e);
    SonLeaf(e, c, l);
    BehindAt(e, e', l, m, q, root);
    BehindAt(e', e, m, l, q, root);
    ReachOfSon(e.0, e.1, c, l, q);
    ReachIsFar(e'.0, e'.1, m.0, q);
    FarIs(e, q);
    FarIs(e', q);
    LeafBehindSon(e, e', (e.0.kids[c], e.1 - 1), l, m, q, root);
  }

  lemma FarIs<T>(e: Pending<T>, q: Index)
    requires !e.0.Absent?
    ensures Far(e, q) == Distance(e.0, e.1, q)
  {
    hide Distance;
  }

  lemma LeafBehindSon<T>(e: Pending<T>, e': Pending<T>, son: Pending<T>, l: Entry<T>, m: Entry<T>, q: Index,
                         root: Quad<T>)
    requires LeafBehind(e, e', l, m, q, root) && LeafBehind(e', e, m, l, q, root) && !e.0.Absent?
    requires Reach(e.0, e.1, l.0, q) == Larger(Distance(e.0, e.1, q), Reach(son.0, son.1, l.0, q))
    requires Distance(e.0, e.1, q) <= Reach(e'.0, e'.1, m.0, q)
    ensures LeafBehind(son, e', l, m, q, root) && LeafBehind(e', son, m, l, q, root)
  {
    hide Reach, Distance, Stretch;
  }

  lemma BehindAt<T>(e: Pending<T>, e': Pending<T>, l: Entry<T>, m: Entry<T>, q: Index, root: Quad<T>)
    requires Formed(e.0) && Formed(e'.0) && Behind(e, e', q, root) && l in Leaves(e.0) && m in Leaves(e'.0)
    ensures LeafBehind(e, e', l, m, q, root)
  {
    hide LeafBehind, Leaves;
  }

  lemma SoundRouted<T>(e: Pending<T>)
    requires Sound(e)
    ensures Routed(e.0, e.1)
  {
  }

  lemma EmptyLeaves<T>()
    ensures Leaves<T>(Absent) == {}
  {
  }

  /** The sons of the node in hand may be queued. */
  ghost predicate SonsReady<K, T>(kids: seq<Quad<T>>, depth: nat, f: map<K, Pending<T>>, q: Index, root: Quad<T>) {
    && SonsSound(kids, depth, q, root) && AllSound(f)
    && forall c, n :: 0 <= c < 4 && !kids[c].Absent? && n in f ==>
         Behind((kids[c], depth), f[n], q, root) && Behind(f[n], (kids[c], depth), q, root)
  }

  ghost predicate SonsSound<T>(kids: seq<Quad<T>>, depth: nat, q: Index, root: Quad<T>) {
    && |kids| == 4 && SonsDisjoint(kids)
    && (forall c :: 0 <= c < 4 && !kids[c].Absent? ==> Sound((kids[c], depth)) && OnWay((kids[c], depth), q, root))
    && (forall b, c :: 0 <= b < 4 && 0 <= c < 4 && b != c ==> Behind((kids[b], depth), (kids[c], depth), q, root))
  }

  lemma SonsPresent<T>(kids: seq<Quad<T>>, depth: nat, q: Index, root: Quad<T>)
    requires SonsSound(kids, depth, q, root)
    ensures |kids| == 4 && forall c :: 0 <= c < 4 ==> Formed(kids[c])
  {
  }

  ghost predicate SonsDisjoint<T>(kids: seq<Quad<T>>) {
    && (forall c :: 0 <= c < |kids| ==> Formed(kids[c]))
    && (forall b, c :: 0 <= b < |kids| && 0 <= c < |kids| && b != c ==> Leaves(kids[b]) !! Leaves(kids[c]))
  }

  lemma SonsOfSound<T>(e: Pending<T>, q: Index, root: Quad<T>)
    requires Sound(e) && OnWay(e, q, root) && e.0.Inner?
    ensures e.1 > 0 && SonsSound(e.0.kids, e.1 - 1, q, root)
  {
    hide Distance, ChildOf, Reach, Bottleneck, Stretch, Leaves, OnWay, LeafBehind;
    RoutedSonsDisjoint(e.0, e.1);
    RoutedSons(e.0, e.1);
    var kids, depth := e.0.kids, e.1 - 1;
    forall c | 0 <= c < 4 ensures OnWay((kids[c], depth), q, root) {
      SonOnWay(e, c, q, root);
    }
    forall b, c, l, m | 0 <= b < 4 && 0 <= c < 4 && b != c && l in Leaves(kids[b]) && m in Leaves(kids[c])
      ensures LeafBehind((kids[b], depth), (kids[c], depth), l, m, q, root)
    {
      BrothersBehind(e, b, c, l, m, q, root);
    }
  }

  /** How far the search has to go for leaves below two sons. */
  lemma WayOfSons<T>(e: Pending<T>, b: nat, c: nat, l: Entry<T>, m: Entry<T>, q: Index, root: Quad<T>)
    requires Sound(e) && OnWay(e, q, root) && e.0.Inner? && b < 4 && c < 4
    requires l in Leaves(e.0.kids[b]) && m in Leaves(e.0.kids[c])
    ensures e.1 > 0 && Stretch(root, l, m, q) == if b == c then Bottleneck(e.0.kids[b], e.1 - 1, l.0, m.0, q)
                                           else Reach(e.0.kids[b], e.1 - 1, l.0, q)
  {
    SonLeaf(e, b, l);
    SonLeaf(e, c, m);
    hide Reach, Bottleneck, Stretch, Leaves, Routed, Formed;
    BottleneckOfSons(e.0, e.1, b, c, l, m, q);
  }

  lemma SonLeaf<T>(e: Pending<T>, c: nat, l: Entry<T>)
    requires Sound(e) && e.0.Inner? && c < 4 && l in Leaves(e.0.kids[c])
    ensures e.1 > 0 && |e.0.kids| == 4 && l in Leaves(e.0)
  {
    hide ChildOf;
  }

  lemma SonOnWay<T>(e: Pending<T>, c: nat, q: Index, root: Quad<T>)
    requires Sound(e) && OnWay(e, q, root) && e.0.Inner? && c < 4
    ensures e.1 > 0 && Formed(e.0.kids[c]) && OnWay((e.0.kids[c], e.1 - 1), q, root)
  {
    RoutedSons(e.0, e.1);
    var son: Pending<T> := (e.0.kids[c], e.1 - 1);
    assert Formed(son.0);
    hide Routed, Reach, Bottleneck, Stretch, Leaves, Sound;
    forall l, m | l in Leaves(son.0) && m in Leaves(son.0)
      ensures Stretch(root, l, m, q) == Bottleneck(son.0, son.1, l.0, m.0, q)
    {
      WayOfSons(e, c, c, l, m, q, root);
    }
  }

  lemma BrothersBehind<T>(e: Pending<T>, b: nat, c: nat, l: Entry<T>, m: Entry<T>, q: Index, root: Quad<T>)
    requires Sound(e) && OnWay(e, q, root) && e.0.Inner? && b < 4 && c < 4 && b != c
    requires l in Leaves(e.0.kids[b]) && m in Leaves(e.0.kids[c])
    ensures e.1 > 0 && LeafBehind((e.0.kids[b], e.1 - 1), (e.0.kids[c], e.1 - 1), l, m, q, root)
  {
    WayOfSons(e, b, c, l, m, q, root);
    WayOfSons(e, c, b, m, l, q, root);
    hide Reach, Bottleneck, Stretch, Leaves, OnWay;
  }

  lemma RoutedSonsDisjoint<T>(t: Quad<T>, depth: nat)
    requires Routed(t, depth) && t.Inner?
    ensures SonsDisjoint(t.kids)
  {
    hide ChildOf;
    forall b, c, l | 0 <= b < 4 && 0 <= c < 4 && b != c && l in Leaves(t.kids[b]) ensures l !in Leaves(t.kids[c]) {
      assert NonNegative(l.0) && ChildOf(l.0, depth - 1) == b;
    }
  }

  /** A son is queued. */
  lemma SonQueued<K, T>(whole: set<Entry<T>>, found: seq<Entry<T>>, f: map<K, Pending<T>>, q: Index, corner: Index,
                        kids: seq<Quad<T>>, depth: nat, c: nat, n: K, root: Quad<T>)
    requires Split(whole, found, f, Inner(corner, kids)) && Ascending(whole, found, f, q, root)
    requires SonsReady(kids, depth, f, q, root) && c < 4 && !kids[c].Absent? && n !in f
    ensures var f' := f[n := (kids[c], depth)];
      && Split(whole, found, f', Inner(corner, kids[c := Absent])) && Ascending(whole, found, f', q, root)
      && SonsReady(kids[c := Absent], depth, f', q, root)
  {
    var e: Pending<T> := (kids[c], depth);
    ReadyMember(kids, depth, f, q, c, root);
    hide SonsReady, Sound, OnWay, Split, Behind, InTurn, SonsSound, SonsDisjoint, AllSound;
    SonSplit(whole, found, f, corner, kids, e, c, n);
    SonAscending(whole, found, f, q, e, n, root);
    SonsStillReady(kids, depth, f, q, c, n, root);
  }

  lemma ReadyMember<K, T>(kids: seq<Quad<T>>, depth: nat, f: map<K, Pending<T>>, q: Index, c: nat, root: Quad<T>)
    requires SonsReady(kids, depth, f, q, root) && c < 4 && !kids[c].Absent?
    ensures |kids| == 4 && SonsDisjoint(kids) && Sound((kids[c], depth)) && OnWay((kids[c], depth), q, root)
    ensures AllSound(f)
      && forall n :: n in f ==> Behind((kids[c], depth), f[n], q, root) && Behind(f[n], (kids[c], depth), q, root)
  {
    hide Sound, OnWay, Behind, SonsDisjoint;
  }

  lemma SonAscending<K, T>(whole: set<Entry<T>>, found: seq<Entry<T>>, f: map<K, Pending<T>>, q: Index, e: Pending<T>,
                           n: K, root: Quad<T>)
    requires Ascending(whole, found, f, q, root) && Sound(e) && OnWay(e, q, root) && n !in f
    requires forall m :: m in f ==> Behind(e, f[m], q, root) && Behind(f[m], e, q, root)
    ensures Ascending(whole, found, f[n := e], q, root)
  {
    hide OnWay, Behind, InTurn, Formed, Routed;
    assert AllSound(f[n := e]);
  }

  lemma SonsStillReady<K, T>(kids: seq<Quad<T>>, depth: nat, f: map<K, Pending<T>>, q: Index, c: nat, n: K,
                             root: Quad<T>)
    requires SonsReady(kids, depth, f, q, root) && c < 4 && !kids[c].Absent? && n !in f
    ensures SonsReady(kids[c := Absent], depth, f[n := (kids[c], depth)], q, root)
  {
    ReadyMember(kids, depth, f, q, c, root);
    SonsPresent(kids, depth, q, root);
    FewerSons(kids, depth, c, q, root);
    BrothersReady(kids, depth, q, c, root);
    hide OnWay, Behind, SonsSound, Formed, Routed;
    assert AllSound(f[n := (kids[c], depth)]);
  }

  lemma BrothersReady<T>(kids: seq<Quad<T>>, depth: nat, q: Index, c: nat, root: Quad<T>)
    requires SonsSound(kids, depth, q, root) && c < 4
    ensures forall b :: 0 <= b < 4 && b != c ==>
      Behind((kids[b], depth), (kids[c], depth), q, root) && Behind((kids[c], depth), (kids[b], depth), q, root)
  {
    hide OnWay, Behind, Sound;
  }

  lemma FewerSons<T>(kids: seq<Quad<T>>, depth: nat, c: nat, q: Index, root: Quad<T>)
    requires SonsSound(kids, depth, q, root) && c < 4
    ensures SonsSound(kids[c := Absent], depth, q, root)
  {
    EmptyLeaves<T>();
    hide Sound, OnWay, Leaves;
  }

  lemma SonSplit<K, T>(whole: set<Entry<T>>, found: seq<Entry<T>>, f: map<K, Pending<T>>, corner: Index,
                       kids: seq<Quad<T>>, e: Pending<T>, c: nat, n: K)
    requires Split(whole, found, f, Inner(corner, kids)) && |kids| == 4 && SonsDisjoint(kids)
    requires c < 4 && e.0 == kids[c] && Sound(e) && n !in f
    ensures Split(whole, found, f[n := e], Inner(corner, kids[c := Absent]))
  {
    hide Distance, Routed, Below, Leaves, Sound;
    EmptyLeaves<T>();
    SoundPresent(e);
    BelowAdded(f, n, e);
    SlotLeaves(corner, kids, c, Absent);
    AbsentFormed(corner, kids, c);
    OtherSons(corner, kids, c);
  }

  lemma SoundPresent<T>(e: Pending<T>)
    requires Sound(e)
    ensures !e.0.Absent? && Formed(e.0)
  {
  }

  lemma AbsentFormed<T>(corner: Index, kids: seq<Quad<T>>, c: nat)
    requires Formed(Inner(corner, kids)) && c < 4
    ensures Formed(Inner(corner, kids[c := Absent]))
  {
  }

  lemma OtherSons<T>(corner: Index, kids: seq<Quad<T>>, c: nat)
    requires Formed(Inner(corner, kids)) && c < 4 && SonsDisjoint(kids)
    ensures Formed(Inner(corner, kids[c := Absent])) && Leaves(kids[c]) !! Leaves(Inner(corner, kids[c := Absent]))
  {
    AbsentFormed(corner, kids, c);
  }

  /** All sons are queued. */
  lemma AllQueued<K, T>(whole: set<Entry<T>>, found: seq<Entry<T>>, f: map<K, Pending<T>>, corner: Index,
      kids: seq<Quad<T>>)
    requires |kids| == 4 && (forall c :: 0 <= c < 4 ==> kids[c] == Absent)
      && Split(whole, found, f, Inner(corner, kids))
    ensures Split(whole, found, f, Absent)
  {
    hide Routed, Graded, Below;
  }

  // ---- The search in the heap ----

  /** What hangs at a node that waits in the queue, and its depth. */
  type Hanging<T> = (Shape<T>, nat)

  ghost predicate HangsAt<T>(n: TreeNode<T>, e: Hanging<T>)
    reads Nodes(e.0)
  {
    e.0 != Nil && e.0.node == n && Represents(n, n.parent, e.1, e.0)
  }

  ghost function AllNodes<T>(sub: map<TreeNode<T>, Hanging<T>>): set<TreeNode<T>> {
    set n, m | n in sub && m in Nodes(sub[n].0) :: m
  }

  /** What hangs at the nodes in the queue shares no nodes. */
  ghost predicate AllHang<T>(sub: map<TreeNode<T>, Hanging<T>>)
    reads AllNodes(sub)
  {
    && (forall n :: n in sub ==> Nodes(sub[n].0) <= AllNodes(sub) && HangsAt(n, sub[n]))
    && (forall m, n :: m in sub && n in sub && m != n ==> Nodes(sub[m].0) !! Nodes(sub[n].0))
  }

  ghost function Waiting<T>(sub: map<TreeNode<T>, Hanging<T>>): map<TreeNode<T>, Pending<T>> {
    map n | n in sub :: (Erased(sub[n].0), sub[n].1)
  }

  /** The contents of the queue. */
  ghost function Queued<K, T>(f: map<K, Pending<T>>, q: Index): set<PNode<K>>
    requires AllSound(f)
  {
    set n | n in f :: PNode(n, Far(f[n], q))
  }

  lemma QueuedAdded<K, T>(f: map<K, Pending<T>>, q: Index, n: K, e: Pending<T>)
    requires AllSound(f) && n !in f && Sound(e)
    ensures AllSound(f[n := e])
    ensures multiset(Queued(f[n := e], q)) == multiset(Queued(f, q)) + multiset{PNode(n, Far(e, q))}
  {
    hide Routed, Graded, Far;
    var f', x := f[n := e], PNode(n, Far(e, q));
    forall y | y in Queued(f, q) + {x} ensures y in Queued(f', q) {
      assert y.element in f' && y == PNode(y.element, Far(f'[y.element], q));
    }
    assert Queued(f', q) == Queued(f, q) + {x} && x !in Queued(f, q);
  }

  lemma QueuedRemoved<K, T>(f: map<K, Pending<T>>, q: Index, n: K)
    requires AllSound(f) && n in f
    ensures AllSound(f - {n})
    ensures multiset(Queued(f - {n}, q)) == multiset(Queued(f, q)) - multiset{PNode(n, Far(f[n], q))}
  {
    hide Routed, Graded, Far;
    assert (f - {n})[n := f[n]] == f;
    QueuedAdded(f - {n}, q, n, f[n]);
  }

  lemma QueuedLowest<K, T>(f: map<K, Pending<T>>, q: Index, x: PNode<K>)
    requires AllSound(f) && x in Queued(f, q) && forall y :: y in multiset(Queued(f, q)) ==> x.p <= y.p
    ensures x.element in f && x.p == Far(f[x.element], q) && forall m :: m in f ==> x.p <= Far(f[m], q)
  {
    hide Routed, Graded, Far;
    forall m | m in f ensures x.p <= Far(f[m], q) {
      assert PNode(m, Far(f[m], q)) in multiset(Queued(f, q));
    }
  }

  /** tree_distance. */
  method TreeDistance<T>(node: TreeNode<T>, index: Index, ghost e: Hanging<T>) returns (d: int)
    requires HangsAt(node, e)
    ensures d == Far((Erased(e.0), e.1), index) >= 0
    ensures node.leaf.Some? ==> d * d <= Apart2(node.index, index) < (d + 1) * (d + 1)
    ensures node.leaf.None? ==> (d == 0 <==> InClosedCell(index, node.index, node.depth))
  {
    DistanceAt(node, e, index);
    hide FloorSqrt, SonsOf;
    var dist := 0;
    if node.leaf.Some? {
      var dval := index.x - node.index.x;
      dist := dist + Square(dval);
      dval := index.y - node.index.y;
      dist := dist + Square(dval);
    } else {
      var dinc := Pow2(node.depth);
      var dval := index.x - node.index.x;
      if dval >= 0 {
        if dval < dinc {
          dval := 0;
        } else if dval >= dinc {
          dval := dval - dinc;
        }
      }
      dist := dist + Square(dval);
      dval := index.y - node.index.y;
      if dval >= 0 {
        if dval < dinc {
          dval := 0;
        } else if dval >= dinc {
          dval := dval - dinc;
        }
      }
      dist := dist + Square(dval);
    }
    d := FloorSqrt(dist);
  }

  lemma DistanceAt<T>(node: TreeNode<T>, e: Hanging<T>, q: Index)
    requires HangsAt(node, e)
    ensures var d := Far((Erased(e.0), e.1), q);
      && (node.leaf.Some? ==> d * d <= Apart2(node.index, q) < (d + 1) * (d + 1))
      && (node.leaf.None? ==> (d == 0 <==> InClosedCell(q, node.index, node.depth)))
  {
    if node.leaf.Some? {
      LeafDistanceIs((node.index, node.leaf.value), e.1, q);
    } else {
      var p := NodeDistanceIs(Erased(e.0), e.1, q);
    }
    hide FloorSqrt, Distance, SonsOf;
  }

  lemma HungAdded<T>(sub: map<TreeNode<T>, Hanging<T>>, n: TreeNode<T>, e: Hanging<T>)
    requires AllHang(sub) && HangsAt(n, e) && Nodes(e.0) !! AllNodes(sub)
    ensures n !in sub && AllHang(sub[n := e]) && AllNodes(sub[n := e]) == AllNodes(sub) + Nodes(e.0)
    ensures Waiting(sub[n := e]) == Waiting(sub)[n := (Erased(e.0), e.1)]
  {
    hide Represents, Erased;
    var sub' := sub[n := e];
    OwnNode(n, e);
    if n in sub {
      OwnNode(n, sub[n]);
      assert false;
    }
    forall m | m in AllNodes(sub) ensures m in AllNodes(sub') {
      var k: TreeNode<T> :| k in sub && m in Nodes(sub[k].0);
      assert k in sub' && m in Nodes(sub'[k].0);
    }
    forall m | m in AllNodes(sub') ensures m in AllNodes(sub) + Nodes(e.0) {
      var k: TreeNode<T> :| k in sub' && m in Nodes(sub'[k].0);
      assert k == n || (k in sub && sub[k] == sub'[k]);
    }
    assert n in sub' && Nodes(sub'[n].0) == Nodes(e.0);
  }

  lemma OwnNode<T>(n: TreeNode<T>, e: Hanging<T>)
    requires e.0 != Nil && e.0.node == n
    ensures n in Nodes(e.0)
  {
  }

  lemma HungRemoved<T>(sub: map<TreeNode<T>, Hanging<T>>, n: TreeNode<T>)
    requires AllHang(sub) && n in sub
    ensures AllHang(sub - {n}) && AllNodes(sub - {n}) == AllNodes(sub) - Nodes(sub[n].0)
    ensures Waiting(sub - {n}) == Waiting(sub) - {n}
  {
    hide Represents, Erased;
    var sub' := sub - {n};
    forall m | m in AllNodes(sub) && m !in Nodes(sub[n].0) ensures m in AllNodes(sub') {
      var k: TreeNode<T> :| k in sub && m in Nodes(sub[k].0);
      assert k in sub' && m in Nodes(sub'[k].0);
    }
  }

  /** A slot of an inner node. */
  lemma SonHangs<T>(node: TreeNode<T>, e: Hanging<T>, c: nat)
    requires HangsAt(node, e) && e.0.Fork? && c < 4 && e.1 > 0
    ensures |node.child| == 4 && |e.0.sons| == 4
    ensures node.child[c] == null <==> e.0.sons[c] == Nil
    ensures node.child[c] != null ==> HangsAt(node.child[c], (e.0.sons[c], e.1 - 1))
    ensures node in Nodes(e.0) && Nodes(e.0.sons[c]) <= Nodes(e.0) - {node}
    ensures forall b :: 0 <= b < 4 && b != c ==> Nodes(e.0.sons[b]) !! Nodes(e.0.sons[c])
  {
    assert SonsOf(node, e.1, e.0.sons);
    SlotHangs(node.child[c], node, e.1 - 1, e.0.sons[c]);
  }

  lemma ForkErased<T>(s: Shape<T>)
    requires s.Fork?
    ensures Erased(s) == Inner(s.corner, ErasedSons(s.sons))
    ensures forall k :: 0 <= k < |s.sons| ==> ErasedSons(s.sons)[k] == Erased(s.sons[k])
    ensures Erased<T>(Nil) == Absent
  {
  }

  lemma SlotHangs<T>(p: TreeNode?<T>, up: TreeNode?<T>, depth: nat, s: Shape<T>)
    requires Represents(p, up, depth, s)
    ensures p == null <==> s == Nil
    ensures p != null ==> HangsAt(p, (s, depth))
  {
  }

  /** What the search keeps true of the heap, the queue and the leaves found. */
  ghost predicate Searching<T>(queue: PQueue<TreeNode<T>>, sub: map<TreeNode<T>, Hanging<T>>, whole: set<Entry<T>>,
                               found: seq<Entry<T>>, rest: Quad<T>, q: Index, root: Quad<T>)
    reads queue, queue.node, AllNodes(sub)
  {
    && queue.Valid() && AllHang(sub)
    && Split(whole, found, Waiting(sub), rest) && Ascending(whole, found, Waiting(sub), q, root)
    && queue.Contents() == multiset(Queued(Waiting(sub), q))
  }

  method QueueSon<T>(queue: PQueue<TreeNode<T>>, child: TreeNode<T>, index: Index, ghost son: Hanging<T>,
                     ghost sub: map<TreeNode<T>, Hanging<T>>, ghost whole: set<Entry<T>>, ghost found: seq<Entry<T>>,
                     ghost corner: Index, ghost kids: seq<Quad<T>>, ghost c: nat, ghost root: Quad<T>)
    requires Searching(queue, sub, whole, found, Inner(corner, kids), index, root)
      && SonsReady(kids, son.1, Waiting(sub), index, root)
    requires HangsAt(child, son) && Nodes(son.0) !! AllNodes(sub) && c < 4 && kids[c] == Erased(son.0)
    modifies queue, queue.node
    ensures queue.node == old(queue.node) || fresh(queue.node)
    ensures Searching(queue, sub[child := son], whole, found, Inner(corner, kids[c := Absent]), index, root)
    ensures SonsReady(kids[c := Absent], son.1, Waiting(sub[child := son]), index, root)
    ensures AllNodes(sub[child := son]) == AllNodes(sub) + Nodes(son.0)
  {
    hide Split, Ascending, Represents, Nodes, Queued, Sound, Far, SonsReady, AllHang, AllNodes, AllSound;
    ErasedPresent(son.0);
    AscendingSound(whole, found, Waiting(sub), index, root);
    HungAdded(sub, child, son);
    SonQueued(whole, found, Waiting(sub), index, corner, kids, son.1, c, child, root);
    ReadySon(kids, son.1, Waiting(sub), index, c, root);
    QueuedAdded(Waiting(sub), index, child, (Erased(son.0), son.1));
    ghost var sub' := sub[child := son];
    assert allocated(AllNodes(sub'));
    var d := TreeDistance(child, index, son);
    queue.InsertElement(child, d);
    assert AllHang(sub');
  }

  lemma AscendingSound<K, T>(whole: set<Entry<T>>, found: seq<Entry<T>>, f: map<K, Pending<T>>, q: Index, root: Quad<T>)
    requires Ascending(whole, found, f, q, root)
    ensures AllSound(f)
  {
  }

  lemma ErasedPresent<T>(s: Shape<T>)
    ensures s == Nil <==> Erased(s).Absent?
  {
  }

  lemma ReadySon<K, T>(kids: seq<Quad<T>>, depth: nat, f: map<K, Pending<T>>, q: Index, c: nat, root: Quad<T>)
    requires SonsReady(kids, depth, f, q, root) && c < 4 && !kids[c].Absent?
    ensures Sound((kids[c], depth))
  {
  }

  /** The sons of a node pulled from the queue may be queued. */
  ghost predicate ForkReady<T>(e: Hanging<T>, rest: map<TreeNode<T>, Hanging<T>>, q: Index, root: Quad<T>)
    requires e.0.Fork? && e.1 > 0
  {
    SonsReady(ErasedSons(e.0.sons), e.1 - 1, Waiting(rest), q, root)
  }

  /** The branch of tree_knn for an inner node: its sons enter the queue. */
  method QueueSons<T>(queue: PQueue<TreeNode<T>>, node: TreeNode<T>, index: Index, ghost e: Hanging<T>,
                      ghost sub: map<TreeNode<T>, Hanging<T>>, ghost whole: set<Entry<T>>, ghost found: seq<Entry<T>>,
                      ghost root: Quad<T>)
    returns (ghost sub': map<TreeNode<T>, Hanging<T>>)
    requires HangsAt(node, e) && e.0.Fork? && e.1 > 0 && Nodes(e.0) !! AllNodes(sub)
    requires Searching(queue, sub, whole, found, Erased(e.0), index, root)
    requires ForkReady(e, sub, index, root)
    modifies queue, queue.node
    ensures Searching(queue, sub', whole, found, Absent, index, root)
      && (queue.node == old(queue.node) || fresh(queue.node))
    ensures AllNodes(sub') <= AllNodes(sub) + Nodes(e.0) - {node}
  {
    hide Split, Ascending, Represents, Erased, Nodes, AllSound, Queued, Sound, Far, SonsReady, AllHang, Waiting,
      AllNodes, HangsAt, ErasedSons,
      Graded, Leaves, Routed, Formed;
    ErasedPresent(e.0);
    sub' := sub;
    ghost var kids := ErasedSons(e.0.sons);
    ForkErased(e.0);
    SonHangs(node, e, 0);
    forall b | 0 <= b < 4 ensures Nodes(e.0.sons[b]) <= Nodes(e.0) - {node} {
      SonHangs(node, e, b);
    }
    for c := 0 to 4
      invariant Searching(queue, sub', whole, found, Inner(e.0.corner, kids), index, root)
        && (queue.node == old(queue.node) || fresh(queue.node))
      invariant SonsReady(kids, e.1 - 1, Waiting(sub'), index, root)
      invariant HangsAt(node, e)
      invariant |kids| == 4 && forall b :: 0 <= b < 4 ==> kids[b] == if b < c then Absent else Erased(e.0.sons[b])
      invariant AllNodes(sub') <= AllNodes(sub) + Nodes(e.0) - {node}
      invariant forall b :: c <= b < 4 ==> Nodes(e.0.sons[b]) !! AllNodes(sub')
    {
      SonHangs(node, e, c);
      var child := node.child[c];
      assert allocated(Nodes(e.0));
      if child != null {
        ghost var son: Hanging<T> := (e.0.sons[c], e.1 - 1);
        QueueSon(queue, child, index, son, sub', whole, found, e.0.corner, kids, c, root);
        sub' := sub'[child := son];
      } else {
        assert kids[c := Absent] == kids;
      }
      kids := kids[c := Absent];
    }
    AllQueued(whole, found, Waiting(sub'), e.0.corner, kids);
  }

  /** What the node pulled from the queue brings to the search. */
  ghost predicate Pulled<T>(queue: PQueue<TreeNode<T>>, node: TreeNode<T>, e: Hanging<T>,
                            rest: map<TreeNode<T>, Hanging<T>>, whole: set<Entry<T>>, found: seq<Entry<T>>, q: Index,
                            root: Quad<T>)
    reads queue, queue.node, AllNodes(rest), Nodes(e.0)
  {
    && HangsAt(node, e) && Nodes(e.0) !! AllNodes(rest)
    && (e.0.Tip? ==> Searching(queue, rest, whole, found + [(e.0.index, e.0.item)], Absent, q, root))
    && (e.0.Fork? ==>
          && Searching(queue, rest, whole, found, Erased(e.0), q, root) && e.1 > 0
          && ForkReady(e, rest, q, root))
  }

  lemma PulledState<T>(sub: map<TreeNode<T>, Hanging<T>>, node: TreeNode<T>, whole: set<Entry<T>>, found: seq<Entry<T>>,
      q: Index, root: Quad<T>)
    requires AllHang(sub) && Split(whole, found, Waiting(sub), Absent) && Ascending(whole, found, Waiting(sub), q, root)
      && node in sub
    requires forall m :: m in Waiting(sub) && AllSound(Waiting(sub)) ==>
      Far(Waiting(sub)[node], q) <= Far(Waiting(sub)[m], q)
    ensures var e, f := sub[node], Waiting(sub) - {node};
      && HangsAt(node, e) && Nodes(e.0) !! AllNodes(sub - {node})
      && (e.0.Tip? ==>
          && Split(whole, found + [(e.0.index, e.0.item)], f, Absent)
          && Ascending(whole, found + [(e.0.index, e.0.item)], f, q, root))
      && (e.0.Fork? ==>
          && Split(whole, found, f, Erased(e.0)) && Ascending(whole, found, f, q, root) && e.1 > 0
          && ForkReady(e, sub - {node}, q, root))
  {
    hide Split, Ascending, Represents, Nodes, Queued, Far, SonsReady, AllNodes, Routed, Graded, Leaves;
    var e, f := sub[node], Waiting(sub);
    HungRemoved(sub, node);
    AscendingSound(whole, found, f, q, root);
    if e.0.Tip? {
      TakenLeaf(whole, found, f, q, node, (e.0.index, e.0.item), root);
    } else {
      ForkErased(e.0);
      TakenInner(whole, found, f, q, node, root);
    }
  }

  /** pqueue_pullelement in tree_knn. */
  method PullNearest<T>(queue: PQueue<TreeNode<T>>, index: Index, ghost sub: map<TreeNode<T>, Hanging<T>>,
                        ghost whole: set<Entry<T>>, ghost found: seq<Entry<T>>, ghost root: Quad<T>)
    returns (node: Option<TreeNode<T>>)
    requires Searching(queue, sub, whole, found, Absent, index, root)
    modifies queue, queue.node
    ensures queue.node == old(queue.node)
    ensures node.None? ==> sub.Keys == {} && Searching(queue, sub, whole, found, Absent, index, root)
    ensures node.Some? ==>
      node.value in sub && Pulled(queue, node.value, sub[node.value], sub - {node.value}, whole, found, index, root)
    ensures node.Some? ==>
      AllNodes(sub - {node.value}) == AllNodes(sub) - Nodes(sub[node.value].0)
      && Nodes(sub[node.value].0) <= AllNodes(sub)
  {
    hide Split, Ascending, Represents, Nodes, Far, SonsReady, AllNodes, AllSound, Sound, Queued, HangsAt, AllHang,
      Waiting;
    ghost var f := Waiting(sub);
    AscendingSound(whole, found, f, index, root);
    assert allocated(AllNodes(sub));
    ghost var p;
    ghost var before := queue.Contents();
    node, p := queue.PullElement();
    if node.None? {
      QueuedNone(sub, index);
      return;
    }
    ghost var n := node.value;
    QueuedLowest(f, index, PNode(n, p));
    WaitingFor(sub, n);
    PulledState(sub, n, whole, found, index, root);
    HungRemoved(sub, n);
    HungPart(sub, n);
    QueuedRemoved(f, index, n);
  }

  lemma WaitingFor<T>(sub: map<TreeNode<T>, Hanging<T>>, n: TreeNode<T>)
    ensures n in Waiting(sub) <==> n in sub
    ensures n in sub ==> Waiting(sub)[n] == (Erased(sub[n].0), sub[n].1)
  {
  }

  lemma HungPart<T>(sub: map<TreeNode<T>, Hanging<T>>, n: TreeNode<T>)
    requires AllHang(sub) && n in sub
    ensures Nodes(sub[n].0) <= AllNodes(sub)
  {
  }

  lemma QueuedNone<T>(sub: map<TreeNode<T>, Hanging<T>>, q: Index)
    requires AllSound(Waiting(sub))
    ensures multiset(Queued(Waiting(sub), q)) == multiset{} ==> sub.Keys == {}
  {
    hide Routed, Graded, Far;
    if n: TreeNode<T> :| n in sub {
      assert PNode(n, Far(Waiting(sub)[n], q)) in multiset(Queued(Waiting(sub), q));
    }
  }

  // ---- tree_knn ----

  const RETURN_ERROR_CODE := -1

  lemma TopWaits<T>(top: TreeNode<T>, s: Shape<T>, q: Index, root: Quad<T>) returns (sub: map<TreeNode<T>, Hanging<T>>)
    requires Represents(top, null, TREE_MAXDEPTH, s) && Routed(Erased(s), TREE_MAXDEPTH)
    requires root == Erased(s)
    ensures sub == map[top := (s, TREE_MAXDEPTH)] && HangsAt(top, sub[top]) && AllHang(sub)
      && AllNodes(sub) == Nodes(s)
    ensures Formed(Erased(s)) && Split(Leaves(Erased(s)), [], Waiting(sub), Absent)
      && Ascending(Leaves(Erased(s)), [], Waiting(sub), q, root)
    ensures multiset(Queued(Waiting(sub), q)) == multiset{PNode(top, Far((Erased(s), TREE_MAXDEPTH), q))}
  {
    hide Represents, Routed, Graded, Far, Erased;
    hide OnWay, Behind, InTurn, Leaves;
    var none: map<TreeNode<T>, Hanging<T>> := map[];
    sub := none[top := (s, TREE_MAXDEPTH)];
    SlotHangs(top, null, TREE_MAXDEPTH, s);
    ErasedPresent(s);
    RoutedIsFormed(Erased(s), TREE_MAXDEPTH);
    RootOnWay(Erased(s), q);
    NoneInTurn(Leaves(Erased(s)), q, root);
    assert AllNodes(none) == {} && Waiting(none) == map[];
    HungAdded(none, top, (s, TREE_MAXDEPTH));
    BelowAdded(Waiting(none), top, (Erased(s), TREE_MAXDEPTH));
    QueuedAdded(Waiting(none), q, top, (Erased(s), TREE_MAXDEPTH));
    assert Queued(Waiting(none), q) == {} && Below(Waiting(none)) == {};
    EmptyLeaves<T>();
  }

  lemma RootOnWay<T>(root: Quad<T>, q: Index)
    requires Formed(root)
    ensures OnWay((root, TREE_MAXDEPTH), q, root)
  {
    hide Bottleneck, Leaves;
  }

  lemma NoneInTurn<T>(whole: set<Entry<T>>, q: Index, root: Quad<T>)
    ensures InTurn(whole, [], q, root)
  {
    hide Sooner;
  }

  /** The items of leaves, in order. */
  function Items<T>(found: seq<Entry<T>>): (s: seq<T>)
    ensures |s| == |found|
  {
    seq(|found|, j requires 0 <= j < |found| => found[j].1)
  }

  /** The loop of tree_knn has written the items of the leaves found. */
  ghost predicate Written<T>(kleaf: array<T>, kk: nat, found: seq<Entry<T>>, was: seq<T>)
    reads kleaf
  {
    |found| == kk <= |was| && kleaf[..] == Items(found) + was[kk..]
  }

  method WriteLeaf<T>(kleaf: array<T>, kk: nat, item: T, ghost i: Index, ghost found: seq<Entry<T>>, ghost was: seq<T>)
    requires Written(kleaf, kk, found, was) && kk < |was|
    modifies kleaf
    ensures Written(kleaf, kk + 1, found + [(i, item)], was)
  {
    ghost var items := Items(found);
    kleaf[kk] := item;
    assert Items(found + [(i, item)]) == items + [item];
    assert was[kk..] == [was[kk]] + was[kk + 1..];
  }

  /** The loop of tree_knn. */
  method Collect<T>(queue: PQueue<TreeNode<T>>, index: Index, k: int, kleaf: array<T>,
                    ghost top: map<TreeNode<T>, Hanging<T>>, ghost whole: set<Entry<T>>, ghost root: Quad<T>)
    returns (kk: nat, ghost found: seq<Entry<T>>)
    requires Searching(queue, top, whole, [], Absent, index, root) && (if k <= 0 then |whole| else k) <= kleaf.Length
    requires queue.node as object != kleaf as object
    modifies kleaf, queue, queue.node
    ensures Written(kleaf, kk, found, old(kleaf[..]))
    ensures Foremost(whole, found, index, root)
    ensures kk == |found| == if k <= 0 then |whole| else Min(k, |whole|)
  {
    hide Represents, Routed, Graded, Far, Erased, Split, Ascending, Nearest, Retrieved, Nodes, HangsAt, AllHang,
      AllNodes;
    hide ForkReady, Waiting, Queued, Sound, AllSound, SonsReady, Items, Leaves, Formed, ErasedSons;
    kk, found := 0, [];
    ghost var was := kleaf[..];
    ghost var sub: map<TreeNode<T>, Hanging<T>> := top;
    NothingWritten(was);
    while true
      invariant queue.node == old(queue.node) || fresh(queue.node)
      invariant Searching(queue, sub, whole, found, Absent, index, root)
      invariant (k <= 0 || kk < k) && Written(kleaf, kk, found, was)
      decreases AllNodes(sub)
    {
      var pulled := PullNearest(queue, index, sub, whole, found, root);
      if pulled.None? {
        break;
      }
      var node: TreeNode<T> := pulled.value;
      ghost var e: Hanging<T> := sub[node];
      HangingNode(node, e);
      sub := sub - {node};
      if node.leaf.Some? {
        assert allocated(AllNodes(sub));
        ghost var l := (node.index, node.leaf.value);
        RoomLeft(queue, sub, whole, found, l, index, root);
        WriteLeaf(kleaf, kk, node.leaf.value, node.index, found, was);
        found := found + [l];
        kk := kk + 1;
        if kk == k {
          break;
        }
      } else {
        sub := QueueSons(queue, node, index, e, sub, whole, found, root);
      }
    }
    Searched(whole, found, Waiting(sub), index, root);
    NobodyWaits(sub);
  }

  lemma RoomLeft<T>(queue: PQueue<TreeNode<T>>, sub: map<TreeNode<T>, Hanging<T>>, whole: set<Entry<T>>,
                    found: seq<Entry<T>>, l: Entry<T>, q: Index, root: Quad<T>)
    requires Searching(queue, sub, whole, found + [l], Absent, q, root)
    ensures |found| < |whole|
  {
    hide Split, Ascending;
    Searched(whole, found + [l], Waiting(sub), q, root);
  }

  lemma NobodyWaits<T>(sub: map<TreeNode<T>, Hanging<T>>)
    ensures sub.Keys == {} ==> Waiting(sub).Keys == {}
  {
  }

  /** The queue with the top node of the tree. */
  method StartSearch<T>(top: TreeNode<T>, index: Index, ghost s: Shape<T>, ghost root: Quad<T>)
      returns (queue: PQueue<TreeNode<T>>, ghost sub: map<TreeNode<T>, Hanging<T>>)
    requires Represents(top, null, TREE_MAXDEPTH, s) && Routed(Erased(s), TREE_MAXDEPTH)
    requires root == Erased(s)
    ensures fresh(queue) && fresh(queue.node) && Formed(Erased(s))
      && Searching(queue, sub, Leaves(Erased(s)), [], Absent, index, root)
  {
    hide Represents, Routed, Graded, Far, Erased, Split, Ascending, HangsAt, AllHang, AllNodes, Waiting, Queued;
    sub := TopWaits(top, s, index, root);
    SlotHangs(top, null, TREE_MAXDEPTH, s);
    ErasedPresent(s);
    assert allocated(AllNodes(sub));
    var d := TreeDistance(top, index, sub[top]);
    queue := new PQueue<TreeNode<T>>();
    assert AllHang(sub);
    queue.InsertElement(top, d);
    assert AllHang(sub);
    assert queue.Contents() == multiset{PNode(top, Far((Erased(s), TREE_MAXDEPTH), index))};
  }

  /** In a graded tree the leaves that a best-first search finds are the nearest ones. */
  lemma GradedNearest<T>(t: Quad<T>, found: seq<Entry<T>>, q: Index)
    requires Formed(t) && Routed(t, TREE_MAXDEPTH) && Graded(t, TREE_MAXDEPTH, q) && Foremost(Leaves(t), found, q, t)
    ensures Nearest(Leaves(t), found, q)
  {
    hide Distance, Routed, Graded, Leaves, Bottleneck, LeafDistance;
    forall l, m | l in Leaves(t) && m in Leaves(t) && LeafDistance(l, q) < LeafDistance(m, q)
      ensures Sooner(t, l, m, q)
    {
      GradedSooner(t, l, m, q);
    }
    AgreeingNearest(t, found, q);
  }

  lemma GradedSooner<T>(t: Quad<T>, l: Entry<T>, m: Entry<T>, q: Index)
    requires Formed(t) && Routed(t, TREE_MAXDEPTH) && Graded(t, TREE_MAXDEPTH, q) && l in Leaves(t) && m in Leaves(t)
    ensures LeafDistance(l, q) < LeafDistance(m, q) ==> Sooner(t, l, m, q)
  {
    hide Distance, Routed, Graded, Leaves, Bottleneck;
    if LeafDistance(l, q) < LeafDistance(m, q) {
      GradedBottleneck(t, TREE_MAXDEPTH, l, m, q);
      GradedBottleneck(t, TREE_MAXDEPTH, m, l, q);
    }
  }

  /** Nearer leaves come sooner. */
  ghost predicate Agrees<T>(t: Quad<T>, q: Index)
    requires Formed(t)
  {
    forall l, m :: l in Leaves(t) && m in Leaves(t) && LeafDistance(l, q) < LeafDistance(m, q) ==> Sooner(t, l, m, q)
  }

  /** No leaf found comes sooner than one found before it, and none left out than one found. */
  lemma FoundInTurn<T>(whole: set<Entry<T>>, found: seq<Entry<T>>, q: Index, root: Quad<T>)
    requires Foremost(whole, found, q, root)
    ensures forall i, j :: 0 <= i < j < |found| ==> !Sooner(root, found[j], found[i], q)
    ensures forall l, m :: l in found && m in whole && m !in found ==> !Sooner(root, m, l, q)
    ensures Retrieved(whole, found) && forall l :: l in found ==> l in whole
  {
    hide Sooner;
    forall i | 0 <= i < |found| ensures found[i] in whole {
      assert found[i] in Elements(found);
    }
  }

  /** Then the leaves found are the nearest ones, however many. */
  lemma AgreeingNearest<T>(t: Quad<T>, found: seq<Entry<T>>, q: Index)
    requires Formed(t) && Agrees(t, q) && Foremost(Leaves(t), found, q, t)
    ensures Nearest(Leaves(t), found, q)
  {
    hide Foremost, Retrieved, LeafDistance, Sooner, Leaves;
    FoundInTurn(Leaves(t), found, q, t);
    forall i, j | 0 <= i < j < |found| ensures LeafDistance(found[i], q) <= LeafDistance(found[j], q) {
      assert found[i] in found && found[j] in found;
    }
  }

  lemma CellsNearest<T>(t: Quad<T>, found: seq<Entry<T>>, q: Index)
    requires Formed(t) && Routed(t, TREE_MAXDEPTH) && Foremost(Leaves(t), found, q, t)
    ensures Agrees(t, q) || Graded(t, TREE_MAXDEPTH, q) ==> Nearest(Leaves(t), found, q)
    ensures Agrees(t, q) || Cells(t, TREE_MAXDEPTH, Index(0, 0)) ==> NearestInPlane(Leaves(t), found, q)
  {
    hide *;
    NearestIs(Leaves(t), found, q);
    if Cells(t, TREE_MAXDEPTH, Index(0, 0)) {
      CellsGraded(t, TREE_MAXDEPTH, Index(0, 0), q);
    }
    if Agrees(t, q) {
      AgreeingNearest(t, found, q);
    } else if Graded(t, TREE_MAXDEPTH, q) {
      GradedNearest(t, found, q);
    }
  }

  /** tree_knn, on all trees that tree_insertleaf can build: the first k leaves in the order in which a best-first
      search comes to them, or all if there are no more, and also if k is not positive; in a tree where nearer leaves
      come sooner, such as a graded one, these are the nearest ones. */
  method Knn<T>(tree: QuadTree<T>, coords: (real, real), k: int, kleaf: array<T>)
      returns (kk: int, ghost found: seq<Entry<T>>)
    requires tree.Valid() && Formed(tree.Stored()) && Routed(tree.Stored(), TREE_MAXDEPTH)
    requires (if k <= 0 then |Leaves(tree.Stored())| else k) <= kleaf.Length
    modifies kleaf
    ensures |found| <= kleaf.Length && kleaf[..] == Items(found) + old(kleaf[..])[|found|..]
    ensures tree.Stored().Absent? ==> kk == 0 && found == []
    ensures !tree.Stored().Absent? && tree.IndexOf(coords).None? ==> kk == RETURN_ERROR_CODE && found == []
    ensures !tree.Stored().Absent? && tree.IndexOf(coords).Some? ==>
      var whole, q := Leaves(tree.Stored()), tree.IndexOf(coords).value;
      && Foremost(whole, found, q, tree.Stored())
      && (Agrees(tree.Stored(), q) || Graded(tree.Stored(), TREE_MAXDEPTH, q) ==> Nearest(whole, found, q))
      && (Agrees(tree.Stored(), q) || Cells(tree.Stored(), TREE_MAXDEPTH, Index(0, 0)) ==>
            NearestInPlane(whole, found, q))
      && kk == |found| == (if k <= 0 then |whole| else Min(k, |whole|))
      && (kk == Min(if k < 0 then 0 else k, |whole|) <==> k >= 1 || whole == {})
  {
    hide Represents, Routed, Graded, Far, Erased, Nearest, Foremost, Searching, Nodes, Items, Leaves, Agrees, Cells,
      NearestInPlane;
    found := [];
    NothingWritten(kleaf[..]);
    ErasedPresent(tree.shape);
    RepresentsSlot(tree.node, null, TREE_MAXDEPTH, tree.shape);
    if tree.node == null {
      return 0, [];
    }
    var bin := tree.IndexOf(coords);
    if bin.None? {
      return RETURN_ERROR_CODE, [];
    }
    ghost var root := tree.Stored();
    var queue;
    ghost var sub;
    queue, sub := StartSearch(tree.node, bin.value, tree.shape, root);
    kk, found := Collect(queue, bin.value, k, kleaf, sub, Leaves(root), root);
    CellsNearest(root, found, bin.value);
  }

  lemma HangingNode<T>(node: TreeNode<T>, e: Hanging<T>)
    requires HangsAt(node, e)
    ensures node in Nodes(e.0) && (if node.leaf.Some? then e.0 == Tip(node, node.index, node.leaf.value) else e.0.Fork?)
  {
  }

  lemma NothingWritten<T>(was: seq<T>)
    ensures was == Items<T>([]) + was[0..]
  {
  }
}
