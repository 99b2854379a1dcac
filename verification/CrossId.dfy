// Cross-identification of samples: every sample is linked to its best match in the fields
// before and after it (scamp/src/crossid.c).

module CrossId {
  import opened Basics
  import opened Samples
  import opened Linking
  import opened Potential
  import opened RefChains
  import opened HealpixNest
  import opened HealpixNeighbours
  import opened PixelAvl
  import opened PixelStores

  // ---- Candidate links ----

  /** Two pixel numbers are the same, or the second is listed as a neighbour of the first. */
  ghost predicate Near(nside: nat, p: int, q: int)
    requires NestNside(nside)
  {
    IsPixel(nside, p) && IsPixel(nside, q) && (p == q || q in Neighbours(nside, p))
  }

  lemma NearSymmetric(nside: nat, p: int, q: int)
    requires NestNside(nside) && Near(nside, p, q)
    ensures Near(nside, q, p)
  {
    if p != q {
      NeighboursSymmetric(nside, p, q);
    }
  }

  /** `b` is newer than `a`, within the matching radius, in the same or an adjacent pixel. */
  ghost predicate Candidate(nside: nat, maxdist: real, a: Sample, b: Sample)
    requires NestNside(nside)
  {
    Older(a, b) && Dist(a, b) <= maxdist && Near(nside, a.pixnum, b.pixnum)
  }

  ghost function Candidates(nside: nat, maxdist: real, S: set<Sample>): set<Pair>
    requires NestNside(nside)
  {
    set a, b | a in S && b in S && Candidate(nside, maxdist, a, b) :: (a, b)
  }

  // ---- Links on the heap ----

  /** Candidate links among the samples of `S`. */
  ghost predicate Within(E: set<Pair>, S: set<Sample>) {
    forall p :: p in E ==> p.0 in S && p.1 in S
  }

  /** The two links of every sample are each other's mirror image, and all are candidates. */
  ghost predicate Linked(E: set<Pair>, S: set<Sample>)
    reads S
  {
    forall s :: s in S ==>
      && (s.nextsamp != null ==> s.nextsamp in S && s.nextsamp.prevsamp == s && (s, s.nextsamp) in E)
      && (s.prevsamp != null ==> s.prevsamp in S && s.prevsamp.nextsamp == s)
  }

  ghost predicate WantsNext(a: Sample, b: Sample)
    reads a
  {
    a.nextsamp == null || PrefersNext(a, b, a.nextsamp)
  }

  ghost predicate WantsPrev(b: Sample, a: Sample)
    reads b
  {
    b.prevsamp == null || PrefersPrev(b, a, b.prevsamp)
  }

  /** The candidate links that both ends would drop their current links for. */
  ghost function Open(E: set<Pair>, S: set<Sample>): set<Pair>
    requires Within(E, S)
    reads S
  {
    set p | p in E && WantsNext(p.0, p.1) && WantsPrev(p.1, p.0)
  }

  /** The forward links, as a map. */
  ghost function NextMap(S: set<Sample>): map<Sample, Sample>
    reads S
  {
    map s | s in S && s.nextsamp != null :: s.nextsamp
  }

  lemma NextMapInjective(E: set<Pair>, S: set<Sample>)
    requires Linked(E, S)
    ensures Injective(NextMap(S))
    ensures forall c :: c in NextMap(S) ==> (c, NextMap(S)[c]) in E
  {
  }

  /** With no open candidate left, the links form a stable linking. */
  lemma NoneOpenIsStable(E: set<Pair>, S: set<Sample>)
    requires Within(E, S) && Linked(E, S) && Open(E, S) == {}
    ensures Stable(E, NextMap(S))
  {
    hide PrefersNext, PrefersPrev;
    var m := NextMap(S);
    NextMapInjective(E, S);
    forall p | p in E ensures !Blocking(m, p) {
      assert p !in Open(E, S);
      if WantsNext(p.0, p.1) {
        assert p.1.prevsamp in m && m[p.1.prevsamp] == p.1;
      }
    }
  }

  lemma OpenIsBlocking(E: set<Pair>, S: set<Sample>, a: Sample, b: Sample)
    requires Within(E, S) && Linked(E, S) && (a, b) in E && WantsNext(a, b) && WantsPrev(b, a)
    ensures Blocking(NextMap(S), (a, b))
  {
  }

  lemma PreferenceTransitive(a: Sample, x: Sample, y: Sample, z: Sample)
    ensures PrefersNext(a, x, y) && PrefersNext(a, y, z) ==> PrefersNext(a, x, z)
    ensures PrefersPrev(a, x, y) && PrefersPrev(a, y, z) ==> PrefersPrev(a, x, z)
    ensures !PrefersNext(a, x, x) && !PrefersPrev(a, x, x)
  {
  }

  /** The middle part of crossmatch: link `a` to `b` and unlink their old partners. */
  method SetLinks(a: Sample, b: Sample, ghost E: set<Pair>, ghost S: set<Sample>)
    requires Linked(E, S) && a in S && b in S && a != b && a.nextsamp != b
    modifies S
    ensures forall s :: s in S ==>
      s.nextsamp == if s == a then b else if s == old(b.prevsamp) then null else old(s.nextsamp)
    ensures forall s :: s in S ==>
      s.prevsamp == if s == b then a else if s == old(a.nextsamp) then null else old(s.prevsamp)
  {
    var relinkUp := b.prevsamp;
    var relinkDown := a.nextsamp;
    if relinkDown != null {
      relinkDown.prevsamp := null;
    }
    if relinkUp != null {
      relinkUp.nextsamp := null;
    }
    a.nextsamp := b;
    b.prevsamp := a;
  }

  /** That relinking keeps the links mirrored, and only opens candidates of the two samples that lost a link. */
  method Relink(a: Sample, b: Sample, ghost E: set<Pair>, ghost S: set<Sample>)
    requires Within(E, S) && Linked(E, S) && (a, b) in E && WantsNext(a, b) && WantsPrev(b, a) && a != b
    modifies S
    ensures Linked(E, S)
    ensures NextMap(S) == Relinked(old(NextMap(S)), a, b)
    ensures forall p :: p in Open(E, S) ==>
      p != (a, b) && (p in old(Open(E, S)) || p.0 == old(b.prevsamp) || p.1 == old(a.nextsamp))
  {
    hide PrefersNext, PrefersPrev;
    PreferenceTransitive(a, b, b, b);
    PreferenceTransitive(b, a, a, a);
    ghost var links, up, down := NextMap(S), b.prevsamp, a.nextsamp;
    SetLinks(a, b, E, S);
    forall p | p in Open(E, S)
      ensures p != (a, b) && (p in old(Open(E, S)) || p.0 == up || p.1 == down)
    {
      if down != null { PreferenceTransitive(a, p.1, b, down); }
      if up != null { PreferenceTransitive(b, p.0, a, up); }
    }
  }

  // ---- The measure of the recursion ----

  /** How much the total weight of the links can still rise. */
  ghost function Room(E: set<Pair>, S: set<Sample>): nat
    reads S
  {
    var bound, total := |S| * Pow3(|E|), Total(E, NextMap(S));
    if total <= bound then bound - total else 0
  }

  lemma TotalFits(E: set<Pair>, S: set<Sample>)
    ensures Total(E, NextMap(S)) <= |S| * Pow3(|E|)
  {
    hide Total, Pow3;
    var m := NextMap(S);
    TotalBound(E, m);
    assert m.Keys <= S && |m| == |m.Keys|;
    if m.Keys < S {
      SubsetSize(m.Keys, S);
    } else {
      assert m.Keys == S;
    }
    TimesMonotone(|m|, |S|, Pow3(|E|));
  }

  lemma LessRoom(E: set<Pair>, S: set<Sample>, m: map<Sample, Sample>, room: nat)
    requires room == (if Total(E, m) <= |S| * Pow3(|E|) then |S| * Pow3(|E|) - Total(E, m) else 0)
    requires Total(E, NextMap(S)) > Total(E, m)
    ensures Room(E, S) < room
  {
    TotalFits(E, S);
  }

  // ---- The store, seen from the samples ----

  /** `S` are the samples in the lists, each listed under its pixel number. */
  ghost predicate Holds(c: map<int, seq<Sample>>, S: set<Sample>) {
    && (forall k, s :: k in c && s in c[k] ==> s in S)
    && (forall s :: s in S ==> s.pixnum in c && s in c[s.pixnum])
  }

  /** The store is valid and sorted, and `S` are exactly its samples. */
  ghost predicate Ready(store: PixelStore, S: set<Sample>)
    reads store, Nodes(store.tree), PixelsOf(store.tree)
  {
    && store.Valid() && Holds(store.Contents(), S)
    && (forall k :: k in store.Contents() ==> Sorted(store.Contents()[k]))
  }

  /** `pix` holds, in order, exactly the samples of `S` with its number. */
  ghost predicate PixelOf(nside: nat, pix: HealPixel, S: set<Sample>)
    requires NestNside(nside)
    reads pix
  {
    && PixelValid(nside, pix) && Sorted(pix.samples)
    && (forall s :: s in pix.samples ==> s in S)
    && (forall s :: s in S && s.pixnum == pix.id ==> s in pix.samples)
  }

  lemma ReadyPixel(store: PixelStore, S: set<Sample>, pix: HealPixel)
    requires Ready(store, S) && pix in PixelsOf(store.tree)
    ensures PixelOf(store.nsides, pix, S)
  {
    hide Represents, Ordered, Balanced, Sorted, Found, Keys;
    var n :| n in Nodes(store.tree) && n.pixel == pix;
    FoundNode(store.tree, n);
    assert store.Contents()[pix.id] == pix.samples;
  }

  /** PixelStore_getPixelFromSample: the pixel number of a sample is the one it was stored under. */
  method GetPixelFromSample(store: PixelStore, sample: Sample, ghost S: set<Sample>) returns (pix: HealPixel)
    requires Ready(store, S) && sample in S
    ensures Ready(store, S) && pix in PixelsOf(store.tree) && pix.id == sample.pixnum
  {
    hide Represents, Ordered, Balanced, Sorted, Found, Keys;
    assert allocated(Nodes(store.tree)) && allocated(PixelsOf(store.tree));
    var p := store.Get(sample.pixnum);
    pix := p;
  }

  // ---- The search and the match, in mutual recursion ----

  /** None of the pairs offers `current` a partner in pixel `key`. */
  ghost predicate Cleared(open: set<Pair>, d: CrossDirection, current: Sample, key: int) {
    forall p :: p in open && Searcher(d, p) == current ==> Target(d, p).pixnum != key
  }

  lemma ClearedStays(open: set<Pair>, open': set<Pair>, d: CrossDirection, current: Sample)
    requires open' <= open
    ensures forall key :: Cleared(open, d, current, key) ==> Cleared(open', d, current, key)
  {
  }

  datatype CrossDirection = CrossUp | CrossDown

  const A_HAVE_CLOSEST := 1
  const B_HAVE_CLOSEST := 2

  /** The end of `p` that searches in direction `d`, and the end it may find. */
  function Searcher(d: CrossDirection, p: Pair): Sample {
    if d.CrossUp? then p.0 else p.1
  }

  function Target(d: CrossDirection, p: Pair): Sample {
    if d.CrossUp? then p.1 else p.0
  }

  /** The first part of crossmatch: are the two near enough, and does each prefer the other to its current link? */
  method WouldLink(a: Sample, b: Sample, maxdist: real) returns (link: bool, r: int)
    ensures link <==> Dist(a, b) <= maxdist && WantsNext(a, b) && WantsPrev(b, a)
    ensures r == A_HAVE_CLOSEST ==> a.nextsamp != null && Older(a.nextsamp, b)
    ensures r == B_HAVE_CLOSEST ==> b.prevsamp != null && Older(a, b.prevsamp)
  {
    hide Dist;
    var distance := Dist(a, b);
    if distance > maxdist {
      return false, 0;
    }
    if a.nextsamp != null {
      DistSymmetric(a.nextsamp, a);
      CmpAntisymmetric(a.nextsamp, b);
      var c := CmpSamples(a.nextsamp, b);
      if c == -1 {
        return false, A_HAVE_CLOSEST;
      } else if c == 0 {
        if Dist(a.nextsamp, a) <= distance {
          return false, 0;
        }
      }
    }
    if b.prevsamp != null {
      DistSymmetric(b, b.prevsamp);
      var c := CmpSamples(a, b.prevsamp);
      if c == -1 {
        return false, B_HAVE_CLOSEST;
      } else if c == 0 {
        if Dist(b, b.prevsamp) <= distance {
          return false, 0;
        }
      }
    }
    return true, 0;
  }

  lemma ReadyNside(store: PixelStore, S: set<Sample>)
    requires Ready(store, S)
    ensures NestNside(store.nsides)
  {
  }

  lemma CandidatesWithin(nside: nat, maxdist: real, S: set<Sample>)
    requires NestNside(nside)
    ensures Within(Candidates(nside, maxdist, S), S)
  {
  }

  lemma IsCandidate(nside: nat, maxdist: real, S: set<Sample>, a: Sample, b: Sample)
    requires NestNside(nside) && a in S && b in S
    ensures (a, b) in Candidates(nside, maxdist, S) <==> Candidate(nside, maxdist, a, b)
  {
  }

  /** Linking two samples that prefer each other uses up some of the room. */
  method LinkPair(a: Sample, b: Sample, ghost E: set<Pair>, store: PixelStore, ghost S: set<Sample>)
    requires Ready(store, S) && Within(E, S) && Linked(E, S) && (a, b) in E && a != b && WantsNext(a, b)
      && WantsPrev(b, a)
    modifies S
    ensures Ready(store, S) && Linked(E, S) && Room(E, S) < old(Room(E, S))
    ensures forall p :: p in Open(E, S) ==>
      p != (a, b) && (p in old(Open(E, S)) || p.0 == old(b.prevsamp) || p.1 == old(a.nextsamp))
  {
    hide Ready, Linked, Open, WantsNext, WantsPrev, Blocking, Injective, Relinked, Total, NextMap, Pow3;
    assert allocated(Nodes(store.tree)) && allocated(PixelsOf(store.tree));
    ghost var links := NextMap(S);
    OpenIsBlocking(E, S, a, b);
    NextMapInjective(E, S);
    Relink(a, b, E, S);
    RelinkedWeighsMore(E, links, a, b);
    LessRoom(E, S, links, old(Room(E, S)));
  }

  /** crossmatch. */
  method Crossmatch(a: Sample, b: Sample, maxdist: real, store: PixelStore, ghost S: set<Sample>) returns (r: int)
    requires Ready(store, S) && a in S && b in S && Older(a, b) && Near(store.nsides, a.pixnum, b.pixnum)
    requires Linked(Candidates(store.nsides, maxdist, S), S)
    modifies S
    ensures var E := Candidates(store.nsides, maxdist, S);
      && Ready(store, S) && Linked(E, S)
      && Open(E, S) <= old(Open(E, S)) && (a, b) !in Open(E, S)
      && Room(E, S) <= old(Room(E, S))
    ensures r == A_HAVE_CLOSEST ==> a.nextsamp != null && Older(a.nextsamp, b)
    ensures r == B_HAVE_CLOSEST ==> b.prevsamp != null && Older(a, b.prevsamp)
    decreases Room(Candidates(store.nsides, maxdist, S), S), 0
  {
    hide Ready, Linked, Near, NestNside, Dist, WantsNext, WantsPrev, Room, Candidates, CmpSamples, Within;
    ReadyNside(store, S);
    CandidatesWithin(store.nsides, maxdist, S);
    IsCandidate(store.nsides, maxdist, S, a, b);
    CmpAntisymmetric(a, b);
    ghost var E := Candidates(store.nsides, maxdist, S);
    assert allocated(Nodes(store.tree)) && allocated(PixelsOf(store.tree));
    var link;
    link, r := WouldLink(a, b, maxdist);
    if !link {
      return;
    }
    LinkedInside(E, S);
    var relinkUp, relinkDown := b.prevsamp, a.nextsamp;
    LinkPair(a, b, E, store, S);
    hide Open;
    if relinkUp != null {
      var pix := GetPixelFromSample(store, relinkUp, S);
      CrossSample(relinkUp, pix, store, maxdist, CrossUp, S);
    }
    if relinkDown != null {
      var pix := GetPixelFromSample(store, relinkDown, S);
      CrossSample(relinkDown, pix, store, maxdist, CrossDown, S);
    }
    return 0;
  }

  lemma LinkedInside(E: set<Pair>, S: set<Sample>)
    requires Linked(E, S)
    ensures forall s :: s in S ==> (s.nextsamp == null || s.nextsamp in S) && (s.prevsamp == null || s.prevsamp in S)
  {
  }

  /** Once a sample has a closer link than `s[i]`, it wants none of the later samples. */
  lemma NoneWantedUp(current: Sample, s: seq<Sample>, i: nat)
    requires Sorted(s) && i < |s|
    requires current.nextsamp != null && Older(current.nextsamp, s[i])
    ensures forall j :: i <= j < |s| ==> !WantsNext(current, s[j])
  {
    forall j | i <= j < |s| ensures !WantsNext(current, s[j]) {
      if i < j { CmpTransitive(current.nextsamp, s[i], s[j]); }
      CmpAntisymmetric(current.nextsamp, s[j]);
    }
  }

  lemma NoneWantedDown(current: Sample, s: seq<Sample>, i: nat)
    requires Sorted(s) && i < |s|
    requires current.prevsamp != null && Older(s[i], current.prevsamp)
    ensures forall j :: 0 <= j <= i ==> !WantsPrev(current, s[j])
  {
    forall j | 0 <= j <= i ensures !WantsPrev(current, s[j]) {
      if j < i { CmpTransitive(s[j], s[i], current.prevsamp); }
    }
  }

  /** None of the samples of a pixel is open for `current`, once none of those on the right side in time is. */
  lemma PixelCleared(d: CrossDirection, nside: nat, maxdist: real, current: Sample, pix: HealPixel, pivot: int,
      S: set<Sample>)
    requires NestNside(nside) && PixelOf(nside, pix, S) && current in S
    requires Within(Candidates(nside, maxdist, S), S)
    requires d.CrossUp? ==> 0 <= pivot <= |pix.samples| && forall j :: 0 <= j < pivot ==>
      !Older(current, pix.samples[j])
    requires d.CrossDown? ==> -1 <= pivot < |pix.samples| && forall j :: pivot < j < |pix.samples| ==>
      !Older(pix.samples[j], current)
    requires d.CrossUp? ==> forall j :: pivot <= j < |pix.samples| ==>
      (current, pix.samples[j]) !in Open(Candidates(nside, maxdist, S), S)
    requires d.CrossDown? ==> forall j :: 0 <= j <= pivot ==>
      (pix.samples[j], current) !in Open(Candidates(nside, maxdist, S), S)
    ensures Cleared(Open(Candidates(nside, maxdist, S), S), d, current, pix.id)
  {
    hide NestNside, Near, Dist, CmpSamples, PixelValid, Sorted, WantsNext, WantsPrev;
    forall p | p in Open(Candidates(nside, maxdist, S), S) && Searcher(d, p) == current
      ensures Target(d, p).pixnum != pix.id
    {
      assert Candidate(nside, maxdist, p.0, p.1);
      assert forall j :: 0 <= j < |pix.samples| ==> pix.samples[j] != Target(d, p);
    }
  }

  /** try_match, searching in newer fields. */
  method TryMatchUp(current: Sample, pix: HealPixel, store: PixelStore, maxdist: real, ghost S: set<Sample>)
    requires Ready(store, S) && current in S && pix in PixelsOf(store.tree)
      && Near(store.nsides, current.pixnum, pix.id)
    requires Linked(Candidates(store.nsides, maxdist, S), S)
    modifies S
    ensures var E := Candidates(store.nsides, maxdist, S);
      && Ready(store, S) && Linked(E, S)
      && Open(E, S) <= old(Open(E, S))
      && Cleared(Open(E, S), CrossUp, current, pix.id)
      && Room(E, S) <= old(Room(E, S))
    decreases Room(Candidates(store.nsides, maxdist, S), S), 1
  {
    hide Ready, Linked, Near, NestNside, Open, Room, Candidates, CmpSamples, Within, WantsNext, Sorted;
    ReadyNside(store, S);
    ReadyPixel(store, S, pix);
    CandidatesWithin(store.nsides, maxdist, S);
    ghost var E := Candidates(store.nsides, maxdist, S);
    assert allocated(Nodes(store.tree)) && allocated(PixelsOf(store.tree));
    var pivot := GetHigherFields(pix, current);
    var i := pivot;
    while i < |pix.samples|
      invariant pivot <= i <= |pix.samples| && pix.samples == old(pix.samples)
      invariant Ready(store, S) && Linked(E, S) && Open(E, S) <= old(Open(E, S)) && Room(E, S) <= old(Room(E, S))
      invariant forall j :: pivot <= j < i ==> (current, pix.samples[j]) !in Open(E, S)
    {
      var test := pix.samples[i];
      var r := Crossmatch(current, test, maxdist, store, S);
      if r == A_HAVE_CLOSEST {
        NoneWantedUp(current, pix.samples, i);
        OpenMeansWanted(E, S);
        break;
      }
      i := i + 1;
    }
    PixelCleared(CrossUp, store.nsides, maxdist, current, pix, pivot, S);
  }

  /** try_match, searching in older fields. */
  method TryMatchDown(current: Sample, pix: HealPixel, store: PixelStore, maxdist: real, ghost S: set<Sample>)
    requires Ready(store, S) && current in S && pix in PixelsOf(store.tree)
      && Near(store.nsides, current.pixnum, pix.id)
    requires Linked(Candidates(store.nsides, maxdist, S), S)
    modifies S
    ensures var E := Candidates(store.nsides, maxdist, S);
      && Ready(store, S) && Linked(E, S)
      && Open(E, S) <= old(Open(E, S))
      && Cleared(Open(E, S), CrossDown, current, pix.id)
      && Room(E, S) <= old(Room(E, S))
    decreases Room(Candidates(store.nsides, maxdist, S), S), 1
  {
    hide Ready, Linked, Near, NestNside, Open, Room, Candidates, CmpSamples, Within, WantsPrev, Sorted;
    ReadyNside(store, S);
    ReadyPixel(store, S, pix);
    CandidatesWithin(store.nsides, maxdist, S);
    NearSymmetric(store.nsides, current.pixnum, pix.id);
    ghost var E := Candidates(store.nsides, maxdist, S);
    assert allocated(Nodes(store.tree)) && allocated(PixelsOf(store.tree));
    var pivot := GetLowerFields(pix, current);
    var i := pivot;
    while i > -1
      invariant -1 <= i <= pivot && pix.samples == old(pix.samples)
      invariant Ready(store, S) && Linked(E, S) && Open(E, S) <= old(Open(E, S)) && Room(E, S) <= old(Room(E, S))
      invariant forall j :: i < j <= pivot ==> (pix.samples[j], current) !in Open(E, S)
    {
      var test := pix.samples[i];
      var r := Crossmatch(test, current, maxdist, store, S);
      if r == B_HAVE_CLOSEST {
        NoneWantedDown(current, pix.samples, i);
        OpenMeansWanted(E, S);
        break;
      }
      i := i - 1;
    }
    PixelCleared(CrossDown, store.nsides, maxdist, current, pix, pivot, S);
  }

  lemma OpenMeansWanted(E: set<Pair>, S: set<Sample>)
    requires Within(E, S)
    ensures forall p :: p in Open(E, S) ==> p.0 in S && p.1 in S && WantsNext(p.0, p.1) && WantsPrev(p.1, p.0)
  {
  }

  /** try_match. */
  method TryMatch(direction: CrossDirection, current: Sample, pix: HealPixel, store: PixelStore, maxdist: real,
      ghost S: set<Sample>)
    requires Ready(store, S) && current in S && pix in PixelsOf(store.tree)
      && Near(store.nsides, current.pixnum, pix.id)
    requires Linked(Candidates(store.nsides, maxdist, S), S)
    modifies S
    ensures var E := Candidates(store.nsides, maxdist, S);
      && Ready(store, S) && Linked(E, S)
      && Open(E, S) <= old(Open(E, S))
      && Cleared(Open(E, S), direction, current, pix.id)
      && Room(E, S) <= old(Room(E, S))
    decreases Room(Candidates(store.nsides, maxdist, S), S), 2
  {
    hide Ready, Linked, Near, NestNside, Open, Room, Candidates, Within;
    ReadyNside(store, S);
    CandidatesWithin(store.nsides, maxdist, S);
    if direction.CrossUp? {
      TryMatchUp(current, pix, store, maxdist, S);
    } else {
      TryMatchDown(current, pix, store, maxdist, S);
    }
  }

  /** The other end of an open candidate lies in the pixel of the searching sample or in one of its eight neighbours. */
  lemma OpenIsNear(nside: nat, maxdist: real, S: set<Sample>, d: CrossDirection, p: Pair)
    requires NestNside(nside) && Within(Candidates(nside, maxdist, S), S)
    requires p in Open(Candidates(nside, maxdist, S), S)
    ensures Target(d, p) in S && IsPixel(nside, Searcher(d, p).pixnum)
    ensures var k, k' := Searcher(d, p).pixnum, Target(d, p).pixnum;
      k' == k || k' in Neighbours(nside, k)
  {
    hide NestNside, Older, Dist;
    NearSymmetric(nside, p.0.pixnum, p.1.pixnum);
  }

  lemma ReadyGet(store: PixelStore, S: set<Sample>, key: int)
    requires Ready(store, S)
    ensures store.Valid()
    ensures key !in store.Contents() ==> key !in store.pixelids && forall s :: s in S ==> s.pixnum != key
  {
  }

  /** PixelStore_get, on a store that holds `S`. */
  method GetPixel(store: PixelStore, key: int, ghost S: set<Sample>) returns (pix: HealPixel?)
    requires Ready(store, S)
    ensures Ready(store, S)
    ensures pix == null ==> key !in store.pixelids && forall s :: s in S ==> s.pixnum != key
    ensures pix != null ==> pix in PixelsOf(store.tree) && pix.id == key
  {
    hide Ready, Represents, Avl, NestNside, IsPixel, Found, Keys;
    ReadyGet(store, S, key);
    assert allocated(Nodes(store.tree)) && allocated(PixelsOf(store.tree));
    pix := store.Get(key);
  }

  /** cross_sample: after it, no candidate in the given direction is open for the sample. */
  method CrossSample(current: Sample, pix: HealPixel, store: PixelStore, maxdist: real, direction: CrossDirection,
      ghost S: set<Sample>)
    requires Ready(store, S) && current in S && pix in PixelsOf(store.tree) && pix.id == current.pixnum
    requires Linked(Candidates(store.nsides, maxdist, S), S)
    modifies S
    ensures var E := Candidates(store.nsides, maxdist, S);
      && Ready(store, S) && Linked(E, S)
      && Open(E, S) <= old(Open(E, S))
      && (forall p :: p in Open(E, S) ==> Searcher(direction, p) != current)
      && Room(E, S) <= old(Room(E, S))
    decreases Room(Candidates(store.nsides, maxdist, S), S), 4
  {
    hide Ready, Linked, Near, NestNside, Open, Room, Candidates, Within, Neighbours, IsPixel, PixelOf, PixelValid,
      Cleared;
    ReadyNside(store, S);
    ReadyPixel(store, S, pix);
    NearPixels(store.nsides, pix, S);
    CandidatesWithin(store.nsides, maxdist, S);
    ghost var E := Candidates(store.nsides, maxdist, S);
    assert allocated(Nodes(store.tree)) && allocated(PixelsOf(store.tree));
    TryMatch(direction, current, pix, store, maxdist, S);
    for i := 0 to 8
      invariant Ready(store, S) && Linked(E, S) && Open(E, S) <= old(Open(E, S)) && Room(E, S) <= old(Room(E, S))
      invariant Cleared(Open(E, S), direction, current, pix.id)
      invariant forall j :: 0 <= j < i ==> Cleared(Open(E, S), direction, current, pix.neighbors[j])
    {
      ghost var open := Open(E, S);
      TryMatchIn(direction, current, pix.neighbors[i], store, maxdist, S);
      ClearedStays(open, Open(E, S), direction, current);
    }
    AllCleared(store.nsides, maxdist, S, direction, current, pix);
  }

  /** One of the eight steps of cross_sample: the neighbour may be absent from the store. */
  method TryMatchIn(direction: CrossDirection, current: Sample, key: int, store: PixelStore, maxdist: real,
      ghost S: set<Sample>)
    requires Ready(store, S) && current in S && (IsPixel(store.nsides, key) ==> Near(store.nsides, current.pixnum, key))
    requires Linked(Candidates(store.nsides, maxdist, S), S)
    modifies S
    ensures var E := Candidates(store.nsides, maxdist, S);
      && Ready(store, S) && Linked(E, S)
      && Open(E, S) <= old(Open(E, S))
      && Cleared(Open(E, S), direction, current, key)
      && Room(E, S) <= old(Room(E, S))
    decreases Room(Candidates(store.nsides, maxdist, S), S), 3
  {
    hide Ready, Linked, Near, NestNside, Open, Room, Candidates, Neighbours, IsPixel, Sorted;
    ReadyNside(store, S);
    CandidatesWithin(store.nsides, maxdist, S);
    ghost var E := Candidates(store.nsides, maxdist, S);
    assert allocated(Nodes(store.tree)) && allocated(PixelsOf(store.tree));
    var testPix := GetPixel(store, key, S);
    if testPix != null {
      ReadyPixel(store, S, testPix);
      TryMatch(direction, current, testPix, store, maxdist, S);
    } else {
      OpenMeansWanted(E, S);
    }
  }

  lemma AllCleared(nside: nat, maxdist: real, S: set<Sample>, d: CrossDirection, current: Sample, pix: HealPixel)
    requires NestNside(nside) && Within(Candidates(nside, maxdist, S), S) && PixelValid(nside, pix)
      && pix.id == current.pixnum
    requires Cleared(Open(Candidates(nside, maxdist, S), S), d, current, pix.id)
    requires forall j :: 0 <= j < 8 ==> Cleared(Open(Candidates(nside, maxdist, S), S), d, current, pix.neighbors[j])
    ensures forall p :: p in Open(Candidates(nside, maxdist, S), S) ==> Searcher(d, p) != current
  {
    hide Open, Candidates, NestNside;
    forall p | p in Open(Candidates(nside, maxdist, S), S) ensures Searcher(d, p) != current {
      OpenIsNear(nside, maxdist, S, d, p);
    }
  }

  lemma NearPixels(nside: nat, pix: HealPixel, S: set<Sample>)
    requires NestNside(nside) && PixelOf(nside, pix, S)
    ensures PixelValid(nside, pix) && Near(nside, pix.id, pix.id)
    ensures |pix.neighbors| == 8
    ensures forall i {:trigger pix.neighbors[i]} :: 0 <= i < 8 && IsPixel(nside, pix.neighbors[i]) ==>
      Near(nside, pix.id, pix.neighbors[i])
  {
  }

  // ---- The whole run ----

  lemma HoldsOneMore(c: map<int, seq<Sample>>, S: set<Sample>, spl: Sample)
    requires Holds(c, S)
    ensures Holds(c[spl.pixnum := (if spl.pixnum in c then c[spl.pixnum] else []) + [spl]], S + {spl})
  {
  }

  lemma ElementsOneMore(samples: seq<Sample>, i: nat)
    requires i < |samples|
    ensures Elements(samples[..i + 1]) == Elements(samples[..i]) + {samples[i]}
  {
    assert samples[..i + 1] == samples[..i] + [samples[i]];
  }

  /** The loops of CrossId_run that fill the store: add the samples in turn, unlinked. */
  method AddAll(store: PixelStore, samples: seq<Sample>, ghost S: set<Sample>)
    requires store.Valid() && Holds(store.Contents(), S)
    requires forall s :: s in samples ==> IsPixel(store.nsides, s.pixnum)
    requires forall s :: s in S ==> s.nextsamp == null && s.prevsamp == null
    modifies store, Nodes(store.tree), PixelsOf(store.tree), Elements(samples)
    ensures store.Valid() && Holds(store.Contents(), S + Elements(samples))
    ensures forall n :: n in Nodes(store.tree) && n !in old(Nodes(store.tree)) ==> fresh(n)
    ensures forall p :: p in PixelsOf(store.tree) && p !in old(PixelsOf(store.tree)) ==> fresh(p)
    ensures forall s :: s in S + Elements(samples) ==> s.nextsamp == null && s.prevsamp == null
  {
    hide Holds, Represents, Avl, NestNside, IsPixel, PixelValid, Nodes, PixelsOf, Keys, Found, Distinct,
      PixelStore.Contents;
    assert S + Elements(samples[..0]) == S;
    for i := 0 to |samples|
      invariant store.Valid() && Holds(store.Contents(), S + Elements(samples[..i]))
      invariant forall n :: n in Nodes(store.tree) && n !in old(Nodes(store.tree)) ==> fresh(n)
      invariant forall p :: p in PixelsOf(store.tree) && p !in old(PixelsOf(store.tree)) ==> fresh(p)
      invariant forall s :: s in S + Elements(samples[..i]) ==> s.nextsamp == null && s.prevsamp == null
    {
      HoldsOneMore(store.Contents(), S + Elements(samples[..i]), samples[i]);
      ElementsOneMore(samples, i);
      store.Add(samples[i]);
      assert S + Elements(samples[..i]) + {samples[i]} == S + Elements(samples[..i + 1]);
    }
    assert samples[..|samples|] == samples;
  }

  lemma SortedHolds(c: map<int, seq<Sample>>, c': map<int, seq<Sample>>, S: set<Sample>)
    requires Holds(c, S) && c'.Keys == c.Keys
    requires forall k :: k in c' ==> multiset(c'[k]) == multiset(c[k])
    ensures Holds(c', S)
  {
    forall k, s | k in c' && s in c'[k] ensures s in S {
      assert s in multiset(c'[k]);
    }
    forall s | s in S ensures s.pixnum in c' && s in c'[s.pixnum] {
      assert s in multiset(c[s.pixnum]);
    }
  }

  /** PixelStore_sort, as CrossId_run uses it. */
  method SortStore(store: PixelStore, ghost S: set<Sample>)
    requires store.Valid() && Holds(store.Contents(), S)
    modifies PixelsOf(store.tree)
    ensures Ready(store, S)
  {
    hide Holds, Represents, Avl, NestNside, IsPixel, PixelValid, Nodes, Keys, Found, Distinct, Sorted, PixelsOf;
    ghost var before := store.Contents();
    store.Sort();
    SortedHolds(before, store.Contents(), S);
  }

  /** No pair has its newer end in pixel `key`. */
  ghost predicate Settled(open: set<Pair>, key: int) {
    forall p :: p in open ==> p.1.pixnum != key
  }

  /** The inner loop of CrossId_run: every sample of a pixel looks for its best match among the older samples. */
  method LinkPixel(pix: HealPixel, store: PixelStore, maxdist: real, ghost S: set<Sample>)
    requires Ready(store, S) && pix in PixelsOf(store.tree)
    requires Linked(Candidates(store.nsides, maxdist, S), S)
    modifies S
    ensures var E := Candidates(store.nsides, maxdist, S);
      && Ready(store, S) && Linked(E, S) && Open(E, S) <= old(Open(E, S)) && Settled(Open(E, S), pix.id)
  {
    hide Ready, Linked, NestNside, Open, Candidates, PixelValid, Sorted;
    ReadyNside(store, S);
    ReadyPixel(store, S, pix);
    PixelNumbers(store.nsides, pix);
    CandidatesWithin(store.nsides, maxdist, S);
    ghost var E := Candidates(store.nsides, maxdist, S);
    assert allocated(Nodes(store.tree)) && allocated(PixelsOf(store.tree));
    for j := 0 to |pix.samples|
      invariant pix.samples == old(pix.samples)
      invariant Ready(store, S) && Linked(E, S) && Open(E, S) <= old(Open(E, S))
      invariant forall p, i :: p in Open(E, S) && 0 <= i < j ==> p.1 != pix.samples[i]
    {
      CrossSample(pix.samples[j], pix, store, maxdist, CrossDown, S);
    }
    OpenMeansWanted(E, S);
  }

  lemma PixelNumbers(nside: nat, pix: HealPixel)
    requires NestNside(nside) && PixelValid(nside, pix)
    ensures forall s :: s in pix.samples ==> s.pixnum == pix.id
  {
  }

  lemma ReadyKeys(store: PixelStore, S: set<Sample>)
    requires Ready(store, S)
    ensures forall k :: k in store.pixelids ==> k in store.Contents()
    ensures forall s :: s in S ==> s.pixnum in store.pixelids
  {
  }

  /** The main loop of CrossId_run: in the end no candidate is open, so the links are stable. */
  method LinkAll(store: PixelStore, maxdist: real, ghost S: set<Sample>)
    requires Ready(store, S) && Linked(Candidates(store.nsides, maxdist, S), S)
    modifies S
    ensures var E := Candidates(store.nsides, maxdist, S);
      && Ready(store, S) && Linked(E, S)
      && Stable(E, NextMap(S))
      && (TieFree(E) ==> NextMap(S) == Greedy(E))
  {
    hide Ready, Linked, NestNside, Open, Candidates, Stable, TieFree, Greedy, NextMap;
    ReadyNside(store, S);
    ReadyKeys(store, S);
    CandidatesWithin(store.nsides, maxdist, S);
    ghost var E := Candidates(store.nsides, maxdist, S);
    assert allocated(Nodes(store.tree)) && allocated(PixelsOf(store.tree));
    for i := 0 to |store.pixelids|
      invariant store.pixelids == old(store.pixelids)
      invariant Ready(store, S) && Linked(E, S)
      invariant forall k :: 0 <= k < i ==> Settled(Open(E, S), store.pixelids[k])
    {
      var pix := GetPixel(store, store.pixelids[i], S);
      LinkPixel(pix, store, maxdist, S);
    }
    OpenMeansWanted(E, S);
    assert Open(E, S) == {};
    NoneOpenIsStable(E, S);
    if TieFree(E) {
      StableIsGreedy(E, NextMap(S));
    }
  }

  // ---- Reference samples ----

  /** The backward links, as a map. */
  ghost function PrevMap(S: set<Sample>): map<Sample, Sample>
    reads S
  {
    map s | s in S && s.prevsamp != null :: s.prevsamp
  }

  /** The two links of every sample are each other's mirror image. */
  ghost predicate Mirrored(S: set<Sample>)
    reads S
  {
    forall s :: s in S ==>
      && (s.nextsamp != null ==> s.nextsamp in S && s.nextsamp.prevsamp == s)
      && (s.prevsamp != null ==> s.prevsamp in S && s.prevsamp.nextsamp == s)
  }

  lemma LinkedIsMirrored(nside: nat, maxdist: real, S: set<Sample>)
    requires NestNside(nside) && Linked(Candidates(nside, maxdist, S), S)
    ensures Mirrored(S) && WellLinked(PrevMap(S))
  {
    hide NestNside, Near, Dist, CmpSamples;
    var m := PrevMap(S);
    forall s | s in m ensures Older(m[s], s) {
      assert (m[s], s) in Candidates(nside, maxdist, S);
    }
  }

  /** move_refsamples, unlinking a sample that has a predecessor. */
  method Unlink(spl: Sample, ghost S: set<Sample>)
    requires Mirrored(S) && spl in S && spl.prevsamp != null && spl.prevsamp != spl
    modifies S
    ensures spl.prevsamp == null && spl.nextsamp == null
    ensures forall s :: s in S && s != spl ==>
      && s.nextsamp == (if s == old(spl.prevsamp) then old(spl.nextsamp) else old(s.nextsamp))
      && s.prevsamp == (if s == old(spl.nextsamp) then old(spl.prevsamp) else old(s.prevsamp))
  {
    var prev := spl.prevsamp;
    if spl.nextsamp != null {
      var next := spl.nextsamp;
      prev.nextsamp := next;
      next.prevsamp := prev;
    } else {
      prev.nextsamp := null;
    }
    spl.prevsamp, spl.nextsamp := null, null;
  }

  /** That unlinking splices the sample out of the backward links. */
  method TakeOut(spl: Sample, ghost S: set<Sample>)
    requires Mirrored(S) && spl in S && spl.prevsamp != null && WellLinked(PrevMap(S))
    modifies S
    ensures Mirrored(S) && spl.prevsamp == null && spl.nextsamp == null
    ensures PrevMap(S) == Spliced(old(PrevMap(S)), spl)
  {
    NotOwnPredecessor(PrevMap(S), spl);
    hide WellLinked;
    Unlink(spl, S);
  }

  /** move_refsamples, one reference sample. */
  method MoveRefsample(spl: Sample, ghost S: set<Sample>)
    requires Mirrored(S) && spl in S && spl.field.isrefcat && WellLinked(PrevMap(S))
    modifies S
    ensures Mirrored(S) && PrevMap(S) == RefMoved(old(PrevMap(S)), spl)
  {
    hide Spliced, Injective, Grounded, CmpSamples, Mirrored;
    if spl.prevsamp == null {
      return;
    }
    ghost var m := PrevMap(S);
    PrevInside(spl, S);
    MovedIs(m, spl);
    NotOwnPredecessor(m, spl);
    var prev := spl.prevsamp;
    TakeOut(spl, S);
    var first := Rewind(prev, spl, S);
    ghost var m' := PrevMap(S);
    if first.field.isrefcat {
      return;
    }
    PutFirst(spl, first, S);
  }

  /** move_refsamples, linking a sample on top of a chain. */
  method PutFirst(spl: Sample, first: Sample, ghost S: set<Sample>)
    requires Mirrored(S) && spl in S && first in S && spl != first && spl.nextsamp == null && first.prevsamp == null
    modifies S
    ensures Mirrored(S) && PrevMap(S) == old(PrevMap(S))[first := spl]
  {
    spl.nextsamp := first;
    first.prevsamp := spl;
  }

  /** move_refsamples, back to the first sample of the chain. */
  method Rewind(prev: Sample, ghost spl: Sample, ghost S: set<Sample>) returns (first: Sample)
    requires Mirrored(S) && prev in S && WellLinked(PrevMap(S)) && prev != spl && spl.nextsamp == null && spl in S
    ensures first in S && first != spl && first.prevsamp == null && first == Head(PrevMap(S), prev)
    ensures Mirrored(S) && PrevMap(S) == old(PrevMap(S)) && spl.nextsamp == old(spl.nextsamp)
      && spl.prevsamp == old(spl.prevsamp)
  {
    hide Grounded, Injective;
    ghost var m := PrevMap(S);
    first := prev;
    while first.prevsamp != null
      invariant first in S && first != spl && Head(m, first) == Head(m, prev)
      decreases Reach(m, first)
    {
      ReachShrinks(m, first);
      first := first.prevsamp;
    }
  }

  lemma PrevInside(spl: Sample, S: set<Sample>)
    requires Mirrored(S) && spl in S && spl.prevsamp != null
    ensures spl.prevsamp in S
  {
  }

  /** The inner loop of move_refsamples. `P` are the samples visited so far. */
  method MoveRefsInPixel(pix: HealPixel, store: PixelStore, ghost S: set<Sample>, ghost m0: Links, ghost P: set<Sample>)
    returns (ghost P': set<Sample>)
    requires Ready(store, S) && pix in PixelsOf(store.tree) && Mirrored(S) && MovedSoFar(S, m0, PrevMap(S), P) && P <= S
    modifies S
    ensures Ready(store, S) && Mirrored(S) && MovedSoFar(S, m0, PrevMap(S), P') && P <= P' <= S
    ensures forall s :: s in S && s.pixnum == pix.id ==> s in P'
  {
    hide Ready, Mirrored, MovedSoFar, PixelValid, Sorted, NestNside, RefMoved, WellLinked, PrevMap;
    ReadyNside(store, S);
    ReadyPixel(store, S, pix);
    P' := P;
    assert allocated(Nodes(store.tree)) && allocated(PixelsOf(store.tree));
    for j := 0 to |pix.samples|
      invariant pix.samples == old(pix.samples)
      invariant Ready(store, S) && Mirrored(S) && MovedSoFar(S, m0, PrevMap(S), P') && P <= P' <= S
      invariant forall i :: 0 <= i < j ==> pix.samples[i] in P'
    {
      var spl := pix.samples[j];
      StillWellLinked(S, m0, PrevMap(S), P');
      MovedVisit(S, m0, PrevMap(S), P', spl);
      if spl.field.isrefcat {
        MoveRefsample(spl, S);
      }
      P' := P' + {spl};
    }
  }

  lemma StillWellLinked(S: set<Sample>, m0: Links, m: Links, P: set<Sample>)
    requires MovedSoFar(S, m0, m, P)
    ensures WellLinked(m)
  {
  }

  /** move_refsamples: the chains keep their samples and the order of those that are no reference; a chain with
      a reference sample begins with one, and further ones are left alone. */
  method MoveRefsamples(store: PixelStore, ghost S: set<Sample>)
    requires Ready(store, S) && Mirrored(S) && WellLinked(PrevMap(S))
    modifies S
    ensures Ready(store, S) && Mirrored(S) && MovedSoFar(S, old(PrevMap(S)), PrevMap(S), S)
  {
    hide Ready, Mirrored, MovedSoFar, WellLinked, PrevMap;
    PrevMapInside(S);
    MovedStart(S, PrevMap(S));
    ghost var m0, P := PrevMap(S), {};
    assert allocated(Nodes(store.tree)) && allocated(PixelsOf(store.tree));
    for i := 0 to |store.pixelids|
      invariant store.pixelids == old(store.pixelids)
      invariant Ready(store, S) && Mirrored(S) && MovedSoFar(S, m0, PrevMap(S), P) && P <= S
      invariant forall k, s :: 0 <= k < i && s in S && s.pixnum == store.pixelids[k] ==> s in P
    {
      var pix := GetPixel(store, store.pixelids[i], S);
      P := MoveRefsInPixel(pix, store, S, m0, P);
    }
    ReadyKeys(store, S);
    assert P == S;
  }

  lemma PrevMapInside(S: set<Sample>)
    requires Mirrored(S)
    ensures forall s :: s in S && s in PrevMap(S) ==> PrevMap(S)[s] in S
  {
  }

  /** `back` is the linking `m` read backwards. */
  ghost predicate Inverse(m: map<Sample, Sample>, back: map<Sample, Sample>) {
    && (forall a :: a in m ==> m[a] in back && back[m[a]] == a)
    && (forall b :: b in back ==> back[b] in m && m[back[b]] == b)
  }

  lemma MirroredInverse(S: set<Sample>)
    requires Mirrored(S)
    ensures Inverse(NextMap(S), PrevMap(S))
  {
  }

  lemma NothingLinked(E: set<Pair>, S: set<Sample>)
    requires forall s :: s in S ==> s.nextsamp == null && s.prevsamp == null
    ensures Linked(E, S)
  {
  }

  /** The first part of CrossId_run: fill the store and sort it. */
  method FillStore(store: PixelStore, samples: seq<Sample>, refsamples: seq<Sample>, haveRefcat: bool)
      returns (ghost S: set<Sample>)
    requires store.Valid() && store.Contents() == map[] && PixelsOf(store.tree) == {} && Nodes(store.tree) == {}
    requires forall s :: s in samples || s in refsamples ==> IsPixel(store.nsides, s.pixnum)
    modifies store, Elements(samples) + Elements(refsamples)
    ensures S == if haveRefcat then Elements(samples) + Elements(refsamples) else Elements(samples)
    ensures Ready(store, S) && forall s :: s in S ==> s.nextsamp == null && s.prevsamp == null
    ensures forall n :: n in Nodes(store.tree) ==> fresh(n)
    ensures forall p :: p in PixelsOf(store.tree) ==> fresh(p)
  {
    hide Ready, Holds, NestNside, IsPixel, PixelValid, Sorted;
    NothingHeld();
    S := {};
    AddAll(store, samples, S);
    S := S + Elements(samples);
    if haveRefcat {
      AddAll(store, refsamples, S);
      S := S + Elements(refsamples);
    }
    SortStore(store, S);
  }

  /** CrossId_run on the samples of all fields and, if there is a reference catalogue, of the reference field.
      `links` is the stable linking reached before reference samples are moved, `back` the same read backwards. */
  method CrossIdRun(samples: seq<Sample>, refsamples: seq<Sample>, haveRefcat: bool, nsides: nat, maxdist: real)
    returns (ghost S: set<Sample>, ghost links: map<Sample, Sample>, ghost back: Links)
    requires NestNside(nsides)
    requires forall s :: s in samples || s in refsamples ==> IsPixel(nsides, s.pixnum)
    modifies Elements(samples) + Elements(refsamples)
    ensures S == if haveRefcat then Elements(samples) + Elements(refsamples) else Elements(samples)
    ensures Stable(Candidates(nsides, maxdist, S), links)
    ensures TieFree(Candidates(nsides, maxdist, S)) ==> links == Greedy(Candidates(nsides, maxdist, S))
    ensures forall a :: a in links ==> Older(a, links[a]) && WithinAxes(a, links[a], maxdist)
    ensures forall a, b ::
      a in S && b in S && Older(a, b) && Dist(a, b) <= maxdist && Near(nsides, a.pixnum, b.pixnum) ==>
      (a in links && KeepsNext(a, links[a], b)) || (b in back && KeepsPrev(b, back[b], a))
    ensures Inverse(links, back) && Mirrored(S) && MovedSoFar(S, back, PrevMap(S), S)
  {
    hide Ready, Mirrored, MovedSoFar, WellLinked, PrevMap, NextMap, Holds, Stable, TieFree, Greedy, Linked, Candidates,
      NestNside, IsPixel;
    var store := new PixelStore(nsides);
    S := FillStore(store, samples, refsamples, haveRefcat);
    NothingLinked(Candidates(nsides, maxdist, S), S);
    LinkAll(store, maxdist, S);
    LinkedIsMirrored(nsides, maxdist, S);
    MirroredInverse(S);
    links, back := NextMap(S), PrevMap(S);
    LinksAreCandidates(nsides, maxdist, S, links);
    LinksKeep(nsides, maxdist, S, links, back);
    MoveRefsamples(store, S);
  }

  /** Within a squared distance, and so within it on every axis. */
  predicate WithinAxes(a: Sample, b: Sample, maxdist: real) {
    var u, v := a.vector, b.vector;
    && Dist(a, b) <= maxdist
    && (u.x - v.x) * (u.x - v.x) <= maxdist
    && (u.y - v.y) * (u.y - v.y) <= maxdist
    && (u.z - v.z) * (u.z - v.z) <= maxdist
  }

  lemma LinksAreCandidates(nside: nat, maxdist: real, S: set<Sample>, links: map<Sample, Sample>)
    requires NestNside(nside) && Stable(Candidates(nside, maxdist, S), links)
    ensures forall a :: a in links ==> Older(a, links[a]) && WithinAxes(a, links[a], maxdist)
  {
    hide Older, Dist, Near;
    forall a | a in links ensures Older(a, links[a]) && WithinAxes(a, links[a], maxdist) {
      assert (a, links[a]) in Candidates(nside, maxdist, S);
      DistBoundsAxes(a, links[a], maxdist);
    }
  }

  /** Two samples that could be linked, but are not, are kept apart by a link of one of them that comes first. */
  lemma LinksKeep(nside: nat, maxdist: real, S: set<Sample>, links: map<Sample, Sample>, back: map<Sample, Sample>)
    requires NestNside(nside) && Stable(Candidates(nside, maxdist, S), links) && Inverse(links, back)
    ensures forall a, b ::
      a in S && b in S && Older(a, b) && Dist(a, b) <= maxdist && Near(nside, a.pixnum, b.pixnum) ==>
      (a in links && KeepsNext(a, links[a], b)) || (b in back && KeepsPrev(b, back[b], a))
  {
    StableKeeps(Candidates(nside, maxdist, S), links);
    hide Older, Dist, Near, Stable, KeepsNext, KeepsPrev;
    forall a, b | a in S && b in S && Older(a, b) && Dist(a, b) <= maxdist && Near(nside, a.pixnum, b.pixnum)
      ensures (a in links && KeepsNext(a, links[a], b)) || (b in back && KeepsPrev(b, back[b], a))
    {
      assert (a, b) in Candidates(nside, maxdist, S);
      var p := (a, b);
      assert p in Candidates(nside, maxdist, S);
    }
  }

  /** A part of a chain: each sample is linked to the next. */
  ghost predicate Follows(links: map<Sample, Sample>, chain: seq<Sample>) {
    forall i, j :: 0 <= i && j == i + 1 < |chain| ==> chain[i] in links && links[chain[i]] == chain[j]
  }

  /** Before reference samples are moved, samples get strictly newer along every chain. */
  lemma {:induction false} ChainAscends(links: map<Sample, Sample>, chain: seq<Sample>, i: nat, j: nat)
    requires (forall a :: a in links ==> Older(a, links[a])) && Follows(links, chain) && i < j < |chain|
    ensures Older(chain[i], chain[j])
    decreases j
  {
    assert Older(chain[j - 1], chain[j]);
    if i < j - 1 {
      ChainAscends(links, chain, i, j - 1);
      CmpTransitive(chain[i], chain[j - 1], chain[j]);
    }
  }

  lemma NothingHeld()
    ensures Holds(map[], {})
  {
  }
}
