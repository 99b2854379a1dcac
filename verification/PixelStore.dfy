// The store of samples by HEALPix pixel (scamp/src/chealpixstore.c, first half).

module PixelStores {
  import opened Basics
  import opened Samples
  import opened PixelAvl
  import opened HealpixNest
  import opened HealpixNeighbours

  // ---- Sorted pixels and the two searches in them ----

  ghost predicate Sorted(s: seq<Sample>) {
    forall i, j :: 0 <= i < j < |s| ==> CmpSamples(s[i], s[j]) <= 0
  }

  /** The scan that PixelStore_getHigherFields replaces: the first sample newer than `pivot`, from index `i` on. */
  function ScanHigher(s: seq<Sample>, pivot: Sample, i: nat): nat
    requires i <= |s|
    decreases |s| - i
  {
    if i < |s| && !(CmpSamples(pivot, s[i]) < 0) then ScanHigher(s, pivot, i + 1) else i
  }

  /** The scan that PixelStore_getLowerFields replaces: the first sample not older than `pivot`, from index `i` on. */
  function ScanNotLower(s: seq<Sample>, pivot: Sample, i: nat): nat
    requires i <= |s|
    decreases |s| - i
  {
    if i < |s| && !(CmpSamples(pivot, s[i]) <= 0) then ScanNotLower(s, pivot, i + 1) else i
  }

  lemma {:induction false} ScanHigherStops(s: seq<Sample>, pivot: Sample, i: nat, r: nat)
    requires i <= r <= |s|
    requires forall j :: i <= j < r ==> CmpSamples(pivot, s[j]) >= 0
    requires r < |s| ==> CmpSamples(pivot, s[r]) < 0
    ensures ScanHigher(s, pivot, i) == r
    decreases r - i
  {
    if i < r {
      ScanHigherStops(s, pivot, i + 1, r);
    }
  }

  lemma {:induction false} ScanNotLowerStops(s: seq<Sample>, pivot: Sample, i: nat, r: nat)
    requires i <= r <= |s|
    requires forall j :: i <= j < r ==> CmpSamples(pivot, s[j]) > 0
    requires r < |s| ==> CmpSamples(pivot, s[r]) <= 0
    ensures ScanNotLower(s, pivot, i) == r
    decreases r - i
  {
    if i < r {
      ScanNotLowerStops(s, pivot, i + 1, r);
    }
  }

  /** PixelStore_getHigherFields: all samples from the result on are newer than `pivot`, none before it is. */
  method GetHigherFields(pix: HealPixel, pivot: Sample) returns (r: nat)
    requires Sorted(pix.samples)
    ensures r <= |pix.samples|
    ensures forall j :: 0 <= j < r ==> !Older(pivot, pix.samples[j])
    ensures forall j :: r <= j < |pix.samples| ==> Older(pivot, pix.samples[j])
    ensures r == ScanHigher(pix.samples, pivot, 0)
  {
    var max, min := |pix.samples|, 0;
    while min < max
      invariant 0 <= min <= max <= |pix.samples|
      invariant forall j :: 0 <= j < min ==> CmpSamples(pivot, pix.samples[j]) >= 0
      invariant forall j :: max <= j < |pix.samples| ==> CmpSamples(pivot, pix.samples[j]) < 0
    {
      var i := (min + max) / 2;
      if CmpSamples(pivot, pix.samples[i]) < 0 {
        forall j | i <= j < |pix.samples| ensures CmpSamples(pivot, pix.samples[j]) < 0 {
          if i < j { CmpTransitive(pivot, pix.samples[i], pix.samples[j]); }
        }
        max := i;
      } else {
        forall j | 0 <= j <= i ensures CmpSamples(pivot, pix.samples[j]) >= 0 {
          if j < i && CmpSamples(pivot, pix.samples[j]) < 0 { CmpTransitive(pivot, pix.samples[j], pix.samples[i]); }
        }
        min := i + 1;
      }
    }
    ScanHigherStops(pix.samples, pivot, 0, max);
    return max;
  }

  /** PixelStore_getLowerFields: all samples up to the result are older than `pivot`, none after it is. */
  method GetLowerFields(pix: HealPixel, pivot: Sample) returns (r: int)
    requires Sorted(pix.samples)
    ensures -1 <= r < |pix.samples|
    ensures forall j :: 0 <= j <= r ==> Older(pix.samples[j], pivot)
    ensures forall j :: r < j < |pix.samples| ==> !Older(pix.samples[j], pivot)
    ensures r == ScanNotLower(pix.samples, pivot, 0) - 1
  {
    var max, min := |pix.samples|, 0;
    while min < max
      invariant 0 <= min <= max <= |pix.samples|
      invariant forall j :: 0 <= j < min ==> CmpSamples(pivot, pix.samples[j]) > 0
      invariant forall j :: max <= j < |pix.samples| ==> CmpSamples(pivot, pix.samples[j]) <= 0
    {
      var i := (min + max) / 2;
      if CmpSamples(pivot, pix.samples[i]) <= 0 {
        forall j | i <= j < |pix.samples| ensures CmpSamples(pivot, pix.samples[j]) <= 0 {
          if i < j { CmpTransitive(pivot, pix.samples[i], pix.samples[j]); }
        }
        max := i;
      } else {
        forall j | 0 <= j <= i ensures CmpSamples(pivot, pix.samples[j]) > 0 {
          if j < i && CmpSamples(pivot, pix.samples[j]) <= 0 { CmpTransitive(pivot, pix.samples[j], pix.samples[i]); }
        }
        min := i + 1;
      }
    }
    ScanNotLowerStops(pix.samples, pivot, 0, max);
    forall j | 0 <= j < |pix.samples| ensures CmpSamples(pivot, pix.samples[j]) == -CmpSamples(pix.samples[j], pivot) {
      CmpAntisymmetric(pivot, pix.samples[j]);
    }
    return min - 1;
  }

  // ---- Sorting ----

  /** Stands for the C library's qsort with cmp_samples: some sorted arrangement of the same samples.
      Nothing beyond that is promised, in particular no order among contemporary samples. */
  method Qsort(s: seq<Sample>) returns (r: seq<Sample>)
    ensures Sorted(r) && multiset(r) == multiset(s)
  {
    r := [];
    for i := 0 to |s|
      invariant Sorted(r) && multiset(r) == multiset(s[..i])
    {
      assert s[..i + 1] == s[..i] + [s[i]];
      r := InsertSorted(r, s[i]);
    }
    assert s[..|s|] == s;
  }

  method InsertSorted(s: seq<Sample>, x: Sample) returns (r: seq<Sample>)
    requires Sorted(s)
    ensures Sorted(r) && multiset(r) == multiset(s) + multiset{x}
  {
    hide CmpSamples, Sorted;
    var i := |s|;
    while i > 0 && CmpSamples(s[i - 1], x) > 0
      invariant 0 <= i <= |s|
      invariant forall j :: i <= j < |s| ==> CmpSamples(s[j], x) > 0
    {
      i := i - 1;
    }
    r := s[..i] + [x] + s[i..];
    assert s == s[..i] + s[i..];
    InsertedAt(s, i, x);
  }

  lemma InsertedAt(s: seq<Sample>, i: nat, x: Sample)
    requires Sorted(s) && i <= |s|
    requires i > 0 ==> CmpSamples(s[i - 1], x) <= 0
    requires forall j :: i <= j < |s| ==> CmpSamples(s[j], x) > 0
    ensures Sorted(s[..i] + [x] + s[i..])
  {
    hide CmpSamples;
    forall j | 0 <= j < i ensures CmpSamples(s[j], x) <= 0 {
      if j < i - 1 { CmpTransitive(s[j], s[i - 1], x); }
    }
    forall j | i <= j < |s| ensures CmpSamples(x, s[j]) <= 0 {
      CmpAntisymmetric(x, s[j]);
    }
  }

  ghost function PixelsOf(t: Tree): set<HealPixel> {
    set n | n in Nodes(t) :: n.pixel
  }

  lemma PixelsApart(t: Tree)
    requires t.Node? && Ordered(t)
    ensures PixelsOf(t) == PixelsOf(t.before) + {t.node.pixel} + PixelsOf(t.after)
    ensures t.node.pixel !in PixelsOf(t.before) && t.node.pixel !in PixelsOf(t.after)
    ensures PixelsOf(t.before) !! PixelsOf(t.after)
  {
    forall n | n in Nodes(t.before) ensures n.pixel.id in Keys(t.before) {
      FoundNode(t.before, n);
    }
    forall n | n in Nodes(t.after) ensures n.pixel.id in Keys(t.after) {
      FoundNode(t.after, n);
    }
  }

  /** pixelAvlSort. */
  method PixelAvlSort(p: AvlNode?, ghost up: AvlNode?, ghost t: Tree)
    requires Represents(p, up, t) && Ordered(t)
    modifies PixelsOf(t)
    ensures forall q :: q in PixelsOf(t) ==> Sorted(q.samples)
    ensures forall q :: q in PixelsOf(t) && old(allocated(q)) ==> multiset(q.samples) == multiset(old(q.samples))
    decreases t
  {
    if p == null {
      return;
    }
    PixelsApart(t);
    assert allocated(Nodes(t.before)) && allocated(Nodes(t.after)) && allocated(PixelsOf(t.before))
      && allocated(PixelsOf(t.after));
    PixelAvlSort(p.pAfter, p, t.after);
    PixelAvlSort(p.pBefore, p, t.before);
    p.pixel.samples := Qsort(p.pixel.samples);
  }

  // ---- The store ----

  /** A pixel carries the number of its samples and the neighbours of its number. */
  ghost predicate PixelValid(nsides: nat, p: HealPixel)
    requires NestNside(nsides)
    reads p
  {
    && IsPixel(nsides, p.id) && p.neighbors == Neighbours(nsides, p.id)
    && forall s :: s in p.samples ==> s.pixnum == p.id
  }

  /** A tree with one more node finds that node, and every other one as before. */
  lemma SameNodes(t: Tree, t': Tree, x: AvlNode)
    requires Ordered(t) && Ordered(t') && Nodes(t') == Nodes(t) + {x} && x.pixel.id !in Keys(t)
    requires Keys(t') == Keys(t) + {x.pixel.id}
    ensures Found(t', x.pixel.id) == x
    ensures forall k :: k in Keys(t) ==> Found(t, k) != null && Found(t', k) == Found(t, k) && Found(t, k) in Nodes(t)
  {
    hide Ordered, Nodes, Keys, Found;
    FoundNode(t', x);
    forall k | k in Keys(t) ensures Found(t, k) != null && Found(t', k) == Found(t, k) && Found(t, k) in Nodes(t) {
      FoundByKey(t, k);
      FoundNode(t', Found(t, k));
    }
  }

  class PixelStore {
    const nsides: nat
    var pixels: AvlNode?
    var pixelids: seq<int>
    ghost var tree: Tree

    /** The pixel tree is an AVL tree of valid pixels, and `pixelids` lists its keys once each. */
    ghost predicate Valid()
      reads this, Nodes(tree), PixelsOf(tree)
    {
      && NestNside(nsides)
      && Represents(pixels, null, tree) && Avl(tree)
      && (forall n :: n in Nodes(tree) ==> PixelValid(nsides, n.pixel))
      && Distinct(pixelids) && (forall k :: k in pixelids <==> k in Keys(tree))
    }

    /** The samples stored under pixel `key`. */
    ghost function At(key: int): seq<Sample>
      reads this, if Found(tree, key) == null then {} else {Found(tree, key).pixel}
    {
      if Found(tree, key) == null then [] else Found(tree, key).pixel.samples
    }

    /** The store as a map from pixel numbers to sample lists. */
    ghost function Contents(): map<int, seq<Sample>>
      requires Valid()
      reads this, Nodes(tree), PixelsOf(tree)
    {
      map k | k in Keys(tree) :: (FoundByKey(tree, k); At(k))
    }

    /** PixelStore_new. */
    constructor (nsides: nat)
      requires NestNside(nsides)
      ensures Valid() && this.nsides == nsides && Contents() == map[] && pixelids == []
    {
      this.nsides := nsides;
      pixels, pixelids, tree := null, [], Leaf;
    }

    /** PixelStore_get. */
    method Get(key: int) returns (p: HealPixel?)
      requires Valid()
      ensures Valid() && Contents() == old(Contents())
      ensures p == null <==> key !in Contents()
      ensures p != null ==> p in PixelsOf(tree) && p.id == key && p.samples == Contents()[key]
    {
      assert allocated(Nodes(tree)) && allocated(PixelsOf(tree));
      FoundByKey(tree, key);
      var match_avl := PixelAvlSearch(pixels, key, null, tree);
      p := if match_avl == null then null else match_avl.pixel;
    }

    /** The pixel node that PixelStore_add creates: neighbours filled in, no samples yet. */
    method NewPixelNode(pixnum: int) returns (avlpix: AvlNode)
      requires NestNside(nsides) && IsPixel(nsides, pixnum)
      ensures fresh(avlpix) && fresh(avlpix.pixel)
      ensures PixelValid(nsides, avlpix.pixel) && avlpix.pixel.id == pixnum && avlpix.pixel.samples == []
    {
      var neighbors := new int[8];
      NeighboursNest64(nsides, pixnum, neighbors);
      var pix := new HealPixel(pixnum, neighbors[..]);
      avlpix := new AvlNode(pix);
    }

    /** The call of pixelAvlInsert in PixelStore_add. */
    method Plant(avlpix: AvlNode)
      requires Represents(pixels, null, tree) && Avl(tree) && avlpix !in Nodes(tree) && avlpix.pixel.id !in Keys(tree)
      modifies this, Nodes(tree), avlpix
      ensures tree == Inserted(old(tree), avlpix) && Represents(pixels, null, tree) && Avl(tree)
        && pixelids == old(pixelids)
      ensures Nodes(tree) == old(Nodes(tree)) + {avlpix} && Keys(tree) == old(Keys(tree)) + {avlpix.pixel.id}
    {
      hide Inserted, Represents, Keys, Nodes, Ordered, Balanced;
      InsertedKeepsAvl(tree, avlpix);
      FoundByKey(tree, avlpix.pixel.id);
      var existing;
      pixels, existing := PixelAvlInsert(pixels, avlpix, tree);
      tree := Inserted(tree, avlpix);
    }

    /** PixelStore_add, when the pixel of the sample is not there yet. */
    method AddPixel(pixnum: int) returns (avlpix: AvlNode)
      requires Valid() && IsPixel(nsides, pixnum) && pixnum !in Keys(tree)
      modifies this, Nodes(tree)
      ensures Valid()
      ensures fresh(avlpix) && fresh(avlpix.pixel) && avlpix.pixel.id == pixnum && avlpix.pixel.samples == []
      ensures Nodes(tree) == old(Nodes(tree)) + {avlpix} && Keys(tree) == old(Keys(tree)) + {pixnum}
      ensures pixelids == old(pixelids) + [pixnum]
      ensures Contents() == old(Contents())[pixnum := []]
    {
      hide Inserted, Represents, Keys, Nodes, Ordered, Balanced, PixelValid;
      assert allocated(Nodes(tree)) && allocated(PixelsOf(tree));
      ghost var before := tree;
      avlpix := NewPixelNode(pixnum);
      Plant(avlpix);
      SameNodes(before, tree, avlpix);
      pixelids := pixelids + [pixnum];
    }

    /** Appending a sample to the pixel of its number changes that list and no other. */
    method Append(avlpix: AvlNode, spl: Sample)
      requires Valid() && avlpix in Nodes(tree) && spl.pixnum == avlpix.pixel.id
      modifies avlpix.pixel
      ensures Valid()
      ensures Keys(tree) == old(Keys(tree)) && spl.pixnum in Keys(tree)
      ensures Contents() == old(Contents())[spl.pixnum := old(avlpix.pixel.samples) + [spl]]
    {
      hide Represents, Ordered, Balanced, NestNside, IsPixel, Nodes, Found;
      assert allocated(Nodes(tree)) && allocated(PixelsOf(tree));
      forall n | n in Nodes(tree) ensures n.pixel.id in Keys(tree) && Found(tree, n.pixel.id) == n {
        FoundNode(tree, n);
      }
      forall k | k in Keys(tree) ensures Found(tree, k) != null && Found(tree, k).pixel.id == k {
        FoundByKey(tree, k);
      }
      avlpix.pixel.samples := avlpix.pixel.samples + [spl];
    }

    /** PixelStore_add, up to the point where the pixel of the sample is known. */
    method FindOrAddPixel(pixnum: int) returns (avlpix: AvlNode)
      requires Valid() && IsPixel(nsides, pixnum)
      modifies this, Nodes(tree)
      ensures Valid()
      ensures avlpix in Nodes(tree) && avlpix.pixel.id == pixnum
      ensures Nodes(tree) <= old(Nodes(tree)) + {avlpix}
        && (avlpix in old(Nodes(tree)) || (fresh(avlpix) && fresh(avlpix.pixel)))
      ensures avlpix.pixel.samples == if pixnum in old(Contents()) then old(Contents()[pixnum]) else []
      ensures Contents() == old(Contents())[pixnum := avlpix.pixel.samples]
      ensures pixelids == if pixnum in old(Contents()) then old(pixelids) else old(pixelids) + [pixnum]
    {
      hide Represents, Ordered, Balanced, PixelValid, Nodes, Keys, Found;
      assert allocated(Nodes(tree)) && allocated(PixelsOf(tree));
      FoundByKey(tree, pixnum);
      var found := PixelAvlSearch(pixels, pixnum, null, tree);
      if found == null {
        avlpix := AddPixel(pixnum);
      } else {
        avlpix := found;
      }
    }

    /** PixelStore_add. */
    method Add(spl: Sample)
      requires Valid() && IsPixel(nsides, spl.pixnum)
      modifies this, Nodes(tree), PixelsOf(tree), spl
      ensures Valid()
      ensures spl.nextsamp == null && spl.prevsamp == null
      ensures forall n :: n in Nodes(tree) && n !in old(Nodes(tree)) ==> fresh(n)
      ensures forall p :: p in PixelsOf(tree) && p !in old(PixelsOf(tree)) ==> fresh(p)
      ensures var k := spl.pixnum;
        Contents() == old(Contents())[k := (if k in old(Contents()) then old(Contents()[k]) else []) + [spl]]
      ensures pixelids == if spl.pixnum in old(Contents()) then old(pixelids) else old(pixelids) + [spl.pixnum]
    {
      hide Represents, Ordered, Balanced, PixelValid, Nodes, Keys, Found, Distinct;
      spl.nextsamp, spl.prevsamp := null, null;
      assert Valid() && Contents() == old(Contents());
      var avlpix := FindOrAddPixel(spl.pixnum);
      Append(avlpix, spl);
    }

    /** PixelStore_sort. */
    method Sort()
      requires Valid()
      modifies PixelsOf(tree)
      ensures Valid() && Contents().Keys == old(Contents()).Keys
      ensures forall k :: k in Contents() ==>
        Sorted(Contents()[k]) && multiset(Contents()[k]) == multiset(old(Contents())[k])
    {
      assert allocated(Nodes(tree)) && allocated(PixelsOf(tree));
      ghost var before := Contents();
      forall k | k in Keys(tree) ensures Found(tree, k) != null && Found(tree, k) in Nodes(tree) {
        FoundByKey(tree, k);
      }
      PixelAvlSort(pixels, null, tree);
      forall n | n in Nodes(tree) ensures PixelValid(nsides, n.pixel) {
        forall s | s in n.pixel.samples ensures s.pixnum == n.pixel.id {
          assert s in multiset(n.pixel.samples);
        }
      }
    }
  }
}
