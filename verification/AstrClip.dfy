// Removing outliers from the chains of linked samples (astrclip_fgroup, scamp/src/astrstats.c).

module AstrClip {
  import opened Basics
  import opened Samples

  /** The decisions of the clipping: which samples are masked, which samples are too far from the mean of a list of
      samples, and which reference samples are; `RuleOf` has their arithmetic. */
  datatype Rule = Rule(masked: Sample -> bool, far: (seq<Sample>, Sample) -> bool,
    farRef: (seq<Sample>, Sample) -> bool)

  // ---- Chains ----

  ghost function NextIn(c: seq<Sample>, i: nat): Sample? {
    if 0 < i <= |c| then c[i - 1] else null
  }

  ghost function PrevIn(c: seq<Sample>, i: nat): Sample? {
    if i + 1 < |c| then c[i + 1] else null
  }

  ghost predicate LinkAt(c: seq<Sample>, i: nat)
    requires i < |c|
    reads c
  {
    c[i].nextsamp == NextIn(c, i) && c[i].prevsamp == PrevIn(c, i)
  }

  /** The samples are linked one after the other, from the last in time to the first, and to nothing else. */
  ghost predicate Linked(c: seq<Sample>)
    reads c
  {
    Distinct(c) && forall i :: 0 <= i < |c| ==> LinkAt(c, i)
  }

  ghost predicate Alone(s: Sample)
    reads s
  {
    s.nextsamp == null && s.prevsamp == null
  }

  /** How many samples come before the first reference sample. */
  function Leading(c: seq<Sample>): (k: nat)
    ensures k <= |c| && (k < |c| ==> c[k].field.isrefcat) && forall i :: 0 <= i < k ==> !c[i].field.isrefcat
  {
    if c == [] || c[0].field.isrefcat then 0
    else
      var k := Leading(c[1..]);
      assert forall i :: 1 <= i < k + 1 ==> c[i] == c[1..][i - 1];
      1 + k
  }

  function Unmasked(rule: Rule, p: seq<Sample>): seq<Sample> {
    if p == [] then [] else Unmasked(rule, p[..|p| - 1]) + if rule.masked(p[|p| - 1]) then [] else [p[|p| - 1]]
  }

  function Near(rule: Rule, list: seq<Sample>, p: seq<Sample>): seq<Sample> {
    if p == [] then [] else Near(rule, list, p[..|p| - 1]) + if rule.far(list, p[|p| - 1]) then [] else [p[|p| - 1]]
  }

  /** The samples before the first reference sample that stay. */
  function Staying(rule: Rule, p: seq<Sample>): seq<Sample> {
    var list := Unmasked(rule, p);
    if |list| > 1 then Near(rule, list, p) else p
  }

  /** Whether the reference sample behind them is cut off; the mean is that of those that stay, or of the only
      unmasked one. */
  predicate CutsRef(rule: Rule, c: seq<Sample>) {
    var k := Leading(c);
    var list := Unmasked(rule, c[..k]);
    var staying := Staying(rule, c[..k]);
    k < |c| && list != [] && staying != [] && rule.farRef(if |list| > 1 then staying else list, c[k])
  }

  lemma {:induction false} NearMembers(rule: Rule, list: seq<Sample>, p: seq<Sample>)
    ensures forall i :: 0 <= i < |Near(rule, list, p)| ==>
      Near(rule, list, p)[i] in p && !rule.far(list, Near(rule, list, p)[i])
    ensures forall i :: 0 <= i < |p| && !rule.far(list, p[i]) ==> p[i] in Near(rule, list, p)
    ensures |Near(rule, list, p)| <= |p|
  {
    if p != [] {
      var q := p[..|p| - 1];
      NearMembers(rule, list, q);
      forall i | 0 <= i < |Near(rule, list, q)| ensures Near(rule, list, q)[i] in p {
        assert Near(rule, list, q)[i] in q;
      }
      forall i | 0 <= i < |p| && !rule.far(list, p[i]) ensures p[i] in Near(rule, list, p) {
        if i < |q| {
          assert q[i] == p[i];
        }
      }
    }
  }

  lemma NearNext(rule: Rule, list: seq<Sample>, c: seq<Sample>, j: nat)
    requires j < |c|
    ensures Near(rule, list, c[..j + 1]) == Near(rule, list, c[..j]) + if rule.far(list, c[j]) then [] else [c[j]]
  {
    assert c[..j + 1][..j] == c[..j];
  }

  lemma UnmaskedNext(rule: Rule, c: seq<Sample>, j: nat)
    requires j < |c|
    ensures Unmasked(rule, c[..j + 1]) == Unmasked(rule, c[..j]) + if rule.masked(c[j]) then [] else [c[j]]
  {
    assert c[..j + 1][..j] == c[..j];
  }

  // ---- Unlinking ----

  function Without(c: seq<Sample>, j: nat): seq<Sample>
    requires j < |c|
  {
    c[..j] + c[j + 1..]
  }

  /** The links around a gap at `j`. */
  lemma LinkedWithout(c: seq<Sample>, j: nat)
    requires Distinct(c) && j < |c|
    requires forall i :: 0 <= i < |c| && i != j ==> LinkAround(c, i, j)
    ensures Linked(Without(c, j))
  {
    var d := Without(c, j);
    assert |d| == |c| - 1 && forall i :: 0 <= i < |d| ==> d[i] == c[if i < j then i else i + 1];
    forall i | 0 <= i < |d| ensures LinkAt(d, i) {
      assert LinkAround(c, if i < j then i else i + 1, j);
    }
  }

  ghost predicate LinkAround(c: seq<Sample>, i: nat, j: nat)
    requires i < |c|
    reads c
  {
    && c[i].nextsamp == NextIn(c, if i == j + 1 then j else i)
    && c[i].prevsamp == PrevIn(c, if i + 1 == j then j else i)
  }

  /** "Remove (unlink) outlier". */
  method Unlink(samp2: Sample, ghost c: seq<Sample>, ghost j: nat)
    requires Linked(c) && j < |c| && c[j] == samp2
    modifies c
    ensures Linked(Without(c, j)) && Alone(samp2)
  {
    assert LinkAt(c, j);
    if samp2.nextsamp != null {
      samp2.nextsamp.prevsamp := samp2.prevsamp;
    }
    if samp2.prevsamp != null {
      samp2.prevsamp.nextsamp := samp2.nextsamp;
    }
    samp2.prevsamp := null;
    samp2.nextsamp := null;
    forall i | 0 <= i < |c| && i != j ensures LinkAround(c, i, j) {
      assert old(LinkAt(c, i));
    }
    LinkedWithout(c, j);
  }

  /** The same for a reference sample, which stays with what is before it. */
  method CutRef(sampr: Sample, ghost c: seq<Sample>, ghost j: nat)
    requires Linked(c) && 0 < j < |c| && c[j] == sampr
    modifies c
    ensures Linked(c[..j]) && Linked(c[j..])
  {
    assert LinkAt(c, j);
    sampr.nextsamp.prevsamp := null;
    sampr.nextsamp := null;
    forall i | 0 <= i < j ensures LinkAt(c[..j], i) {
      assert old(LinkAt(c, i));
    }
    forall i | 0 <= i < |c| - j ensures LinkAt(c[j..], i) {
      assert old(LinkAt(c, i + j));
    }
  }

  // ---- One chain ----

  lemma ChainStep(c: seq<Sample>, j: nat)
    requires Linked(c) && j < |c|
    ensures c[j].prevsamp == PrevIn(c, j) && c[j].nextsamp == NextIn(c, j)
  {
    assert LinkAt(c, j);
  }

  lemma LeadingIs(c: seq<Sample>, j: nat)
    requires j <= |c| && (forall i :: 0 <= i < j ==> !c[i].field.isrefcat) && (j < |c| ==> c[j].field.isrefcat)
    ensures Leading(c) == j
  {
    var k := Leading(c);
  }

  /** The samples to be averaged, and the first reference sample behind them. */
  method Collect(samp: Sample, rule: Rule, ghost c: seq<Sample>) returns (list: seq<Sample>, sampr: Sample?)
    requires Linked(c) && c != [] && c[0] == samp
    ensures list == Unmasked(rule, c[..Leading(c)]) && sampr == if Leading(c) < |c| then c[Leading(c)] else null
  {
    hide Linked;
    list := [];
    var samp2: Sample? := samp;
    ghost var j := 0;
    while samp2 != null && !samp2.field.isrefcat
      invariant j <= |c| && samp2 == (if j < |c| then c[j] else null)
      invariant (forall i :: 0 <= i < j ==> !c[i].field.isrefcat) && list == Unmasked(rule, c[..j])
      decreases |c| - j
    {
      UnmaskedNext(rule, c, j);
      ChainStep(c, j);
      if !rule.masked(samp2) {
        list := list + [samp2];
      }
      samp2 := samp2.prevsamp;
      j := j + 1;
    }
    LeadingIs(c, j);
    sampr := samp2;
  }

  /** The chain while it is being clipped: what has stayed of the first `j` samples, and the rest. */
  ghost function Clipping(rule: Rule, list: seq<Sample>, c: seq<Sample>, j: nat): seq<Sample>
    requires j <= |c|
  {
    Near(rule, list, c[..j]) + c[j..]
  }

  lemma ClippingNext(rule: Rule, list: seq<Sample>, c: seq<Sample>, j: nat)
    requires j < |c|
    ensures var m := |Near(rule, list, c[..j])|; var d := Clipping(rule, list, c, j);
      && m < |d| && d[m] == c[j] && PrevIn(d, m) == PrevIn(c, j)
      && Clipping(rule, list, c, j + 1) == if rule.far(list, c[j]) then Without(d, m) else d
  {
    NearNext(rule, list, c, j);
  }

  lemma ClippingMembers(rule: Rule, list: seq<Sample>, c: seq<Sample>, j: nat)
    requires j <= |c|
    ensures forall i :: 0 <= i < |Clipping(rule, list, c, j)| ==> Clipping(rule, list, c, j)[i] in c
    ensures Clipping(rule, list, c, 0) == c
  {
    var near := Near(rule, list, c[..j]);
    NearMembers(rule, list, c[..j]);
    forall i | 0 <= i < |near| ensures near[i] in c {
      assert near[i] in c[..j];
    }
  }

  /** The samples that were clipped are linked to nothing. */
  ghost predicate ClippedAlone(rule: Rule, list: seq<Sample>, c: seq<Sample>, j: nat)
    requires j <= |c|
    reads c
  {
    forall i :: 0 <= i < j && rule.far(list, c[i]) ==> Alone(c[i])
  }

  /** One sample of the loop that unlinks outliers. */
  method ClipOne(samp2: Sample, rule: Rule, list: seq<Sample>, ghost c: seq<Sample>, ghost j: nat)
      returns (clipped: bool)
    requires Distinct(c) && j < |c| && c[j] == samp2 && Linked(Clipping(rule, list, c, j))
      && ClippedAlone(rule, list, c, j)
    modifies c
    ensures clipped == rule.far(list, samp2)
    ensures Linked(Clipping(rule, list, c, j + 1)) && ClippedAlone(rule, list, c, j + 1)
  {
    hide Linked, Without, Clipping;
    ghost var d := Clipping(rule, list, c, j);
    ghost var m := |Near(rule, list, c[..j])|;
    ClippingNext(rule, list, c, j);
    ClippingMembers(rule, list, c, j);
    clipped := rule.far(list, samp2);
    if clipped {
      NotClipped(rule, list, c, j);
      Unlink(samp2, d, m);
    }
  }

  /** The loop that unlinks outliers. */
  method ClipLoop(samp: Sample, rule: Rule, list: seq<Sample>, ghost c: seq<Sample>)
      returns (nclipi: nat, staying: seq<Sample>)
    requires Linked(c) && c != [] && c[0] == samp
    modifies c
    ensures staying == Near(rule, list, c[..Leading(c)]) && nclipi + |staying| == Leading(c)
    ensures Linked(staying + c[Leading(c)..]) && ClippedAlone(rule, list, c, Leading(c))
  {
    hide Linked, Distinct, ClippedAlone, Clipping, Leading, Alone;
    nclipi, staying := 0, [];
    var samp2: Sample? := samp;
    ghost var j := 0;
    OnceLinked(c);
    ClippingMembers(rule, list, c, 0);
    NoneClipped(rule, list, c);
    while samp2 != null && !samp2.field.isrefcat
      invariant j <= |c| && samp2 == (if j < |c| then c[j] else null)
        && (forall i :: 0 <= i < j ==> !c[i].field.isrefcat)
      invariant staying == Near(rule, list, c[..j]) && nclipi + |staying| == j
      invariant Linked(Clipping(rule, list, c, j)) && ClippedAlone(rule, list, c, j)
      decreases |c| - j
    {
      ClippingNext(rule, list, c, j);
      NearNext(rule, list, c, j);
      ChainStep(Clipping(rule, list, c, j), |staying|);
      var prevsamp2 := samp2.prevsamp;
      var clipped := ClipOne(samp2, rule, list, c, j);
      if clipped {
        nclipi := nclipi + 1;
      } else {
        staying := staying + [samp2];
      }
      samp2 := prevsamp2;
      j := j + 1;
    }
    LeadingIs(c, j);
    ClippingIs(rule, list, c, j);
  }

  lemma NoneClipped(rule: Rule, list: seq<Sample>, c: seq<Sample>)
    ensures ClippedAlone(rule, list, c, 0)
  {
  }

  lemma ClippingIs(rule: Rule, list: seq<Sample>, c: seq<Sample>, j: nat)
    requires j <= |c|
    ensures Clipping(rule, list, c, j) == Near(rule, list, c[..j]) + c[j..]
  {
  }

  lemma OnceLinked(c: seq<Sample>)
    requires Linked(c)
    ensures Distinct(c)
  {
  }

  /** A clipped sample is no longer in the chain. */
  lemma NotClipped(rule: Rule, list: seq<Sample>, c: seq<Sample>, j: nat)
    requires Distinct(c) && j <= |c|
    ensures forall i :: 0 <= i < j && rule.far(list, c[i]) ==> c[i] !in Clipping(rule, list, c, j)
  {
    NearMembers(rule, list, c[..j]);
  }

  /** The body of the loop of astrclip_fgroup for the end of a chain: what stays of it, in one chain or in two. */
  method ClipChain(samp: Sample, rule: Rule, ghost c: seq<Sample>) returns (nclipi: nat, nclipr: nat)
    requires Linked(c) && c != [] && c[0] == samp
    modifies c
    ensures nclipi == Leading(c) - |Staying(rule, c[..Leading(c)])| && nclipr == if CutsRef(rule, c) then 1 else 0
    ensures CutsRef(rule, c) ==> Linked(Staying(rule, c[..Leading(c)])) && Linked(c[Leading(c)..])
    ensures !CutsRef(rule, c) ==> Linked(Staying(rule, c[..Leading(c)]) + c[Leading(c)..])
    ensures forall i :: 0 <= i < Leading(c) && c[i] !in Staying(rule, c[..Leading(c)]) ==> Alone(c[i])
  {
    OnceLinked(c);
    hide Linked, ClippedAlone, Leading;
    var list, sampr := Collect(samp, rule, c);
    ghost var k := Leading(c);
    nclipi, nclipr := 0, 0;
    assert c == c[..k] + c[k..];
    if |list| == 0 {
      return;
    }
    ghost var staying := c[..k];
    var mean := list;
    if |list| > 1 {
      nclipi, mean := ClipLoop(samp, rule, list, c);
      staying := mean;
      AloneUnlessStaying(rule, list, c, k);
    }
    assert staying == Staying(rule, c[..k]);
    if sampr != null {
      StayingInChain(rule, c, k);
      assert forall i :: 0 <= i < k && c[i] !in staying ==> c[i] !in staying + c[k..];
      nclipr := CutIfFar(sampr, mean, rule, c, staying, k);
    }
  }

  /** The test of the reference sample behind the chain. */
  method CutIfFar(sampr: Sample, mean: seq<Sample>, rule: Rule, ghost c: seq<Sample>, ghost staying: seq<Sample>,
      ghost k: nat) returns (nclipr: nat)
    requires k < |c| && c[k] == sampr && Linked(staying + c[k..]) && forall i :: 0 <= i < |staying| ==>
      staying[i] in c[..k]
    modifies staying + c[k..]
    ensures nclipr == if staying != [] && rule.farRef(mean, sampr) then 1 else 0
    ensures if nclipr == 1 then Linked(staying) && Linked(c[k..]) else Linked(staying + c[k..])
  {
    hide Linked;
    nclipr := 0;
    ghost var d := staying + c[k..];
    assert d[|staying|] == sampr;
    ChainStep(d, |staying|);
    if sampr.nextsamp != null && rule.farRef(mean, sampr) {
      CutRef(sampr, d, |staying|);
      assert d[..|staying|] == staying && d[|staying|..] == c[k..];
      nclipr := 1;
    }
  }

  lemma StayingInChain(rule: Rule, c: seq<Sample>, k: nat)
    requires k <= |c|
    ensures var staying := Staying(rule, c[..k]);
      && (forall i :: 0 <= i < |staying| ==> staying[i] in c[..k])
      && (forall i :: 0 <= i < |staying + c[k..]| ==> (staying + c[k..])[i] in c)
  {
    var list := Unmasked(rule, c[..k]);
    NearMembers(rule, list, c[..k]);
    var staying := Staying(rule, c[..k]);
    forall i | 0 <= i < |staying| ensures staying[i] in c[..k] && staying[i] in c {
      assert staying[i] in c[..k];
    }
  }

  lemma AloneUnlessStaying(rule: Rule, list: seq<Sample>, c: seq<Sample>, k: nat)
    requires k <= |c| && ClippedAlone(rule, list, c, k)
    ensures forall i :: 0 <= i < k && c[i] !in Near(rule, list, c[..k]) ==> Alone(c[i])
  {
    NearMembers(rule, list, c[..k]);
    forall i | 0 <= i < k && c[i] !in Near(rule, list, c[..k]) ensures Alone(c[i]) {
      assert c[i] in c[..k];
    }
  }

  // ---- All chains ----

  /** Where a sample was at first: which chain, and how many samples of it are before it. */
  type Places = map<Sample, (int, nat)>

  /** `b` comes before `a` in the same former chain. */
  ghost predicate Comes(rank: Places, b: Sample, a: Sample) {
    b in rank && a in rank && rank[b].0 == rank[a].0 && rank[b].1 < rank[a].1
  }

  /** The links of a sample are mutual, and keep to the former chain and its order. */
  ghost predicate LinksOk(s: Sample, rank: Places)
    requires s in rank
    reads rank.Keys
  {
    && (s.prevsamp != null ==> Comes(rank, s.prevsamp, s) && s.prevsamp.nextsamp == s)
    && (s.nextsamp != null ==> Comes(rank, s, s.nextsamp) && s.nextsamp.prevsamp == s)
  }

  /** So are those of all samples; as places only fall along `prevsamp`, no chain is a ring. */
  ghost predicate AllOk(rank: Places)
    reads rank.Keys
  {
    forall s :: s in rank ==> LinksOk(s, rank)
  }

  ghost function ChainFrom(s: Sample, rank: Places): (c: seq<Sample>)
    requires AllOk(rank) && s in rank
    reads rank.Keys
    ensures c != [] && c[0] == s && forall i :: 0 <= i < |c| ==> c[i] in rank
    decreases rank[s].1
  {
    if s.prevsamp == null then [s]
    else
      assert LinksOk(s, rank);
      [s] + ChainFrom(s.prevsamp, rank)
  }

  /** The places of the samples fall along a list. */
  ghost predicate Falling(c: seq<Sample>, rank: Places) {
    && (forall i :: 0 <= i < |c| ==> c[i] in rank)
    && forall i, j :: 0 <= i < j < |c| ==> Comes(rank, c[j], c[i])
  }

  lemma LongerFalls(s: Sample, d: seq<Sample>, rank: Places)
    requires Falling(d, rank) && d != [] && Comes(rank, d[0], s)
    ensures Falling([s] + d, rank)
  {
    var c := [s] + d;
    assert forall i :: 1 <= i < |c| ==> c[i] == d[i - 1];
  }

  lemma {:induction false} ChainFalls(s: Sample, rank: Places)
    requires AllOk(rank) && s in rank
    ensures var c := ChainFrom(s, rank);
      && Falling(c, rank) && (forall i :: 0 <= i < |c| ==> c[i].prevsamp == PrevIn(c, i))
      && forall i :: 0 < i < |c| ==> c[i].nextsamp == NextIn(c, i)
    decreases rank[s].1
  {
    if s.prevsamp != null {
      assert LinksOk(s, rank);
      hide AllOk, Falling;
      ChainFalls(s.prevsamp, rank);
      var d, c := ChainFrom(s.prevsamp, rank), ChainFrom(s, rank);
      LongerFalls(s, d, rank);
      assert forall i :: 1 <= i < |c| ==> c[i] == d[i - 1];
      forall i | 0 <= i < |c| ensures c[i].prevsamp == PrevIn(c, i) && (i > 0 ==> c[i].nextsamp == NextIn(c, i)) {
        if i > 0 {
          assert d[i - 1].prevsamp == PrevIn(d, i - 1) && (i > 1 ==> d[i - 1].nextsamp == NextIn(d, i - 1));
        }
      }
    } else {
      assert ChainFrom(s, rank) == [s];
    }
  }

  lemma EndOfChain(s: Sample, rank: Places)
    requires AllOk(rank) && s in rank && s.nextsamp == null
    ensures Linked(ChainFrom(s, rank)) && Falling(ChainFrom(s, rank), rank)
  {
    ChainFalls(s, rank);
    var c := ChainFrom(s, rank);
    forall i | 0 <= i < |c| ensures LinkAt(c, i) {
    }
  }

  /** Nothing outside a whole chain is linked to anything in it. */
  lemma ChainClosed(c: seq<Sample>, rank: Places, s: Sample)
    requires AllOk(rank) && Linked(c) && s in rank && s !in c
    ensures s.nextsamp == null || s.nextsamp !in c
    ensures s.prevsamp == null || s.prevsamp !in c
  {
    assert LinksOk(s, rank);
    forall i | 0 <= i < |c| ensures s.nextsamp != c[i] && s.prevsamp != c[i] {
      assert LinkAt(c, i);
    }
  }

  /** In a linked part of a falling list the links are as they should be. */
  lemma PartOk(d: seq<Sample>, rank: Places, s: Sample)
    requires Linked(d) && Falling(d, rank) && s in d
    ensures s in rank && LinksOk(s, rank)
  {
    var i :| 0 <= i < |d| && d[i] == s;
    assert LinkAt(d, i);
    if i > 0 {
      assert LinkAt(d, i - 1);
    }
    if i + 1 < |d| {
      assert LinkAt(d, i + 1);
    }
  }

  lemma {:induction false} NearFalls(rule: Rule, list: seq<Sample>, p: seq<Sample>, rank: Places)
    requires Falling(p, rank)
    ensures Falling(Near(rule, list, p), rank)
  {
    if p != [] {
      var q := p[..|p| - 1];
      NearFalls(rule, list, q, rank);
      NearMembers(rule, list, q);
    }
  }

  lemma StayingFalls(rule: Rule, c: seq<Sample>, k: nat, rank: Places)
    requires Falling(c, rank) && k <= |c|
    ensures Falling(Staying(rule, c[..k]) + c[k..], rank)
  {
    var list := Unmasked(rule, c[..k]);
    NearFalls(rule, list, c[..k], rank);
    StayingInChain(rule, c, k);
    var staying := Staying(rule, c[..k]);
    forall i, j | 0 <= i < |staying| && k <= j < |c| ensures Comes(rank, c[j], staying[i]) {
      assert staying[i] in c[..k];
      var m :| 0 <= m < k && c[..k][m] == staying[i];
      assert c[m] == staying[i];
    }
  }

  /** What clipping one chain does to the links of its samples. */
  lemma ClippedOk(rule: Rule, c: seq<Sample>, rank: Places, s: Sample)
    requires Falling(c, rank) && s in c
    requires CutsRef(rule, c) ==> Linked(Staying(rule, c[..Leading(c)])) && Linked(c[Leading(c)..])
    requires !CutsRef(rule, c) ==> Linked(Staying(rule, c[..Leading(c)]) + c[Leading(c)..])
    requires forall i :: 0 <= i < Leading(c) && c[i] !in Staying(rule, c[..Leading(c)]) ==> Alone(c[i])
    ensures s in rank && LinksOk(s, rank)
  {
    hide Linked, CutsRef, Leading, Staying;
    var k := Leading(c);
    var x, y := Staying(rule, c[..k]), c[k..];
    StayingFalls(rule, c, k, rank);
    assert Falling(x, rank) by {
      assert forall i :: 0 <= i < |x| ==> (x + y)[i] == x[i];
    }
    var i :| 0 <= i < |c| && c[i] == s;
    if i < k && s !in x {
    } else if !CutsRef(rule, c) {
      assert i >= k ==> y[i - k] == s;
      PartOk(x + y, rank, s);
    } else if s in x {
      PartOk(x, rank, s);
    } else {
      assert y[i - k] == s;
      PartOk(y, rank, s);
    }
  }

  // ---- What was removed ----

  /** The outliers among the first samples of a chain. */
  ghost function Outliers(rule: Rule, p: seq<Sample>): set<Sample> {
    Elements(p) - Elements(Staying(rule, p))
  }

  /** The reference sample that is cut off, if there is one. */
  ghost function CutOff(rule: Rule, c: seq<Sample>): set<Sample> {
    if CutsRef(rule, c) then {c[Leading(c)]} else {}
  }

  lemma {:induction false} NearPrefix(rule: Rule, list: seq<Sample>, p: seq<Sample>, j: nat)
    requires j <= |p|
    ensures Near(rule, list, p[..j]) <= Near(rule, list, p)
    decreases |p|
  {
    if j < |p| {
      assert p[..|p| - 1][..j] == p[..j];
      NearPrefix(rule, list, p[..|p| - 1], j);
    } else {
      assert p[..j] == p;
    }
  }

  /** Where a sample that stays comes to stand. */
  lemma NearPlace(rule: Rule, list: seq<Sample>, p: seq<Sample>, i: nat)
    requires i < |p| && !rule.far(list, p[i])
    ensures var m := |Near(rule, list, p[..i])|; m < |Near(rule, list, p)| && Near(rule, list, p)[m] == p[i]
  {
    NearNext(rule, list, p, i);
    NearPrefix(rule, list, p, i + 1);
  }

  /** Neighbours that both stay remain neighbours. */
  lemma NearNeighbours(rule: Rule, list: seq<Sample>, p: seq<Sample>, i: nat)
    requires i + 1 < |p| && !rule.far(list, p[i]) && !rule.far(list, p[i + 1])
    ensures var m, near := |Near(rule, list, p[..i])|, Near(rule, list, p);
      m + 1 < |near| && near[m] == p[i] && near[m + 1] == p[i + 1]
  {
    NearPlace(rule, list, p, i);
    NearPlace(rule, list, p, i + 1);
    NearNext(rule, list, p, i);
  }

  lemma {:induction false} NearDistinct(rule: Rule, list: seq<Sample>, p: seq<Sample>)
    requires Distinct(p)
    ensures Distinct(Near(rule, list, p))
  {
    if p != [] {
      var q := p[..|p| - 1];
      NearDistinct(rule, list, q);
      NearMembers(rule, list, q);
    }
  }

  /** As many outliers as the chain gets shorter, and they are those that do not stay. */
  lemma OutliersCounted(rule: Rule, p: seq<Sample>)
    requires Distinct(p)
    ensures |Outliers(rule, p)| == |p| - |Staying(rule, p)|
    ensures forall s :: s in Outliers(rule, p) <==> s in p && s !in Staying(rule, p)
  {
    var list := Unmasked(rule, p);
    NearDistinct(rule, list, p);
    NearMembers(rule, list, p);
    DistinctCount(p);
    DistinctCount(Staying(rule, p));
    var all, stay := Elements(p), Elements(Staying(rule, p));
    assert stay <= all;
    assert all == (all - stay) + stay;
  }

  /** Where neighbours of the first samples come to stand, if both stay, and the first of all. */
  lemma StayingNeighbours(rule: Rule, p: seq<Sample>, i: nat) returns (m: nat)
    requires Distinct(p) && i < |p| && p[i] in Staying(rule, p)
    ensures m < |Staying(rule, p)| && Staying(rule, p)[m] == p[i] && (i == 0 ==> m == 0)
    ensures i + 1 < |p| && p[i + 1] in Staying(rule, p) ==>
      m + 1 < |Staying(rule, p)| && Staying(rule, p)[m + 1] == p[i + 1]
    ensures i + 1 == |p| ==> m + 1 == |Staying(rule, p)|
  {
    var list := Unmasked(rule, p);
    m := i;
    if |list| > 1 {
      NearMembers(rule, list, p);
      m := |Near(rule, list, p[..i])|;
      NearPlace(rule, list, p, i);
      NearNext(rule, list, p, i);
      assert p[..|p|] == p;
      if i + 1 < |p| && p[i + 1] in Staying(rule, p) {
        NearNeighbours(rule, list, p, i);
      }
    }
  }

  lemma EmptyStays(rule: Rule, p: seq<Sample>)
    requires p == []
    ensures Staying(rule, p) == [] && Unmasked(rule, p) == []
  {
  }

  /** The successor and the predecessor of every sample. */
  type Links = map<Sample, (Sample?, Sample?)>

  ghost function LinksOf(rank: Places): Links
    reads rank.Keys
  {
    map s | s in rank :: (s.nextsamp, s.prevsamp)
  }

  /** Outliers were linked and end up linked to nothing; reference samples were followed by something and end up last;
      every other sample keeps its predecessor, unless that is one of these, and none gets linked anew. */
  ghost predicate Removed(before: Links, after: Links, clipped: set<Sample>, cut: set<Sample>) {
    && before.Keys == after.Keys && clipped <= before.Keys && cut <= before.Keys
    && forall s :: s in before ==> RemovedAt(before[s], after[s], clipped, cut, s)
  }

  ghost predicate RemovedAt(before: (Sample?, Sample?), after: (Sample?, Sample?), clipped: set<Sample>,
      cut: set<Sample>, s: Sample) {
    && (s in clipped ==> !s.field.isrefcat && before != (null, null) && after == (null, null))
    && (s in cut ==> s.field.isrefcat && before.0 != null && after.0 == null)
    && (s !in clipped && before.1 != null && before.1 !in clipped && before.1 !in cut ==> after.1 == before.1)
    && (before == (null, null) ==> after == (null, null))
    && (before.0 == null ==> after.0 == null)
  }

  /** Nothing is removed twice. */
  lemma RemovedThen(a: Links, b: Links, c: Links, clipped: set<Sample>, cut: set<Sample>, clipped': set<Sample>,
      cut': set<Sample>)
    requires Removed(a, b, clipped, cut) && Removed(b, c, clipped', cut')
    ensures Removed(a, c, clipped + clipped', cut + cut')
    ensures |clipped + clipped'| == |clipped| + |clipped'| && |cut + cut'| == |cut| + |cut'|
  {
    assert clipped !! clipped' && cut !! cut';
  }

  lemma NothingRemoved(a: Links)
    ensures Removed(a, a, {}, {})
  {
  }

  /** What it does to the chain that ends at `samp`, and that it leaves all others alone. */
  method ClipAt(samp: Sample, rule: Rule, ghost rank: Places)
      returns (n: nat, ghost clipped: set<Sample>, ghost cut: set<Sample>)
    requires AllOk(rank) && samp in rank && samp.nextsamp == null && samp.prevsamp != null
    modifies rank.Keys
    ensures AllOk(rank)
    ensures var c := old(ChainFrom(samp, rank)); var k := Leading(c); var staying := Staying(rule, c[..k]);
      && clipped == Outliers(rule, c[..k]) && cut == CutOff(rule, c)
      && (if CutsRef(rule, c) then Linked(staying) && Linked(c[k..]) else Linked(staying + c[k..]))
    ensures Clipped(rule, old(ChainFrom(samp, rank)))
    ensures var c := old(ChainFrom(samp, rank));
      forall s :: s in rank && s !in c ==> s.nextsamp == old(s.nextsamp) && s.prevsamp == old(s.prevsamp)
    ensures Removed(old(LinksOf(rank)), LinksOf(rank), clipped, cut) && n == |clipped| + |cut|
  {
    hide Linked, CutsRef, Leading, Staying, Outliers, Removed;
    EndOfChain(samp, rank);
    ghost var c := ChainFrom(samp, rank);
    forall s | s in rank && s !in c
      ensures (s.nextsamp == null || s.nextsamp !in c) && (s.prevsamp == null || s.prevsamp !in c)
    {
      ChainClosed(c, rank, s);
    }
    ghost var before := LinksOf(rank);
    ChainLinks(c, rank, samp);
    var nclipi, nclipr := ClipChain(samp, rule, c);
    n := nclipi + nclipr;
    forall s | s in rank ensures LinksOk(s, rank) {
      if s in c {
        ClippedOk(rule, c, rank, s);
      } else {
        assert old(LinksOk(s, rank));
      }
    }
    ghost var k := Leading(c);
    clipped, cut := Outliers(rule, c[..k]), CutOff(rule, c);
    assert |cut| == nclipr;
    OutliersCounted(rule, c[..k]);
    StayingInChain(rule, c, k);
    ChainRemoved(rule, c, rank, before);
  }

  /** The links of a chain. */
  ghost predicate LinkedIn(c: seq<Sample>, links: Links) {
    forall i :: 0 <= i < |c| ==> c[i] in links && links[c[i]] == (NextIn(c, i), PrevIn(c, i))
  }

  lemma ChainLinks(c: seq<Sample>, rank: Places, samp: Sample)
    requires Linked(c) && (forall i :: 0 <= i < |c| ==> c[i] in rank) && c != [] && c[0] == samp
      && samp.prevsamp != null
    ensures LinkedIn(c, LinksOf(rank)) && Distinct(c) && |c| >= 2
  {
    assert LinkAt(c, 0);
    forall i | 0 <= i < |c| ensures LinksOf(rank)[c[i]] == (NextIn(c, i), PrevIn(c, i)) {
      assert LinkAt(c, i);
    }
  }

  /** A chain has been clipped. */
  ghost predicate Clipped(rule: Rule, c: seq<Sample>)
    reads c, Staying(rule, c[..Leading(c)])
  {
    var k := Leading(c);
    var staying := Staying(rule, c[..k]);
    && Distinct(c)
    && (CutsRef(rule, c) ==> Linked(staying) && Linked(c[k..]))
    && (!CutsRef(rule, c) ==> Linked(staying + c[k..]))
    && (forall i :: 0 <= i < k && c[i] !in staying ==> Alone(c[i]))
  }

  /** After the clipping of a chain: a sample keeps its predecessor unless one of the two is an outlier or the link is
      cut. */
  lemma KeepsPrevious(rule: Rule, c: seq<Sample>, i: nat)
    requires Clipped(rule, c) && i < |c| && c[i] !in Outliers(rule, c[..Leading(c)])
    ensures i == 0 ==> c[i].nextsamp == null
    ensures i + 1 < |c| && c[i + 1] !in Outliers(rule, c[..Leading(c)]) ==>
      (CutsRef(rule, c) && i + 1 == Leading(c)) || c[i].prevsamp == c[i + 1]
  {
    var k := Leading(c);
    OutliersCounted(rule, c[..k]);
    hide Linked, CutsRef, Leading, Staying, Outliers, Alone;
    if i < k {
      assert c[..k][i] == c[i];
      var m := StayingNeighbours(rule, c[..k], i);
      assert i + 1 < k ==> c[..k][i + 1] == c[i + 1];
      if CutsRef(rule, c) {
        LinkedPlace(Staying(rule, c[..k]), m);
      } else {
        JoinedPlace(Staying(rule, c[..k]), c[k..], m);
      }
    } else if CutsRef(rule, c) {
      LinkedPlace(c[k..], i - k);
    } else {
      JoinedPlace(Staying(rule, c[..k]), c[k..], |Staying(rule, c[..k])| + i - k);
      if i == 0 {
        EmptyStays(rule, c[..k]);
      }
    }
  }

  lemma LinkedPlace(d: seq<Sample>, m: nat)
    requires Linked(d) && m < |d|
    ensures d[m].nextsamp == NextIn(d, m) && d[m].prevsamp == PrevIn(d, m)
  {
    assert LinkAt(d, m);
  }

  lemma JoinedPlace(x: seq<Sample>, y: seq<Sample>, m: nat)
    requires Linked(x + y) && m < |x + y|
    ensures var s := if m < |x| then x[m] else y[m - |x|];
      && (m == 0 ==> s.nextsamp == null)
      && s.prevsamp == if m + 1 < |x| then x[m + 1] else if m + 1 < |x + y| then y[m + 1 - |x|] else null
  {
    LinkedPlace(x + y, m);
  }

  lemma OutlierAlone(rule: Rule, c: seq<Sample>, s: Sample)
    requires Clipped(rule, c) && s in Outliers(rule, c[..Leading(c)])
    ensures s in c && !s.field.isrefcat && Alone(s)
  {
    var k := Leading(c);
    OutliersCounted(rule, c[..k]);
    var i :| 0 <= i < k && c[..k][i] == s;
    assert c[i] == s;
  }

  lemma CutOffLast(rule: Rule, c: seq<Sample>, s: Sample)
    requires Clipped(rule, c) && s in CutOff(rule, c)
    ensures s.field.isrefcat && s.nextsamp == null && 0 < Leading(c) < |c| && s == c[Leading(c)]
  {
    var k := Leading(c);
    assert LinkAt(c[k..], 0);
  }

  /** What the clipping of one chain has removed. */
  lemma ChainRemoved(rule: Rule, c: seq<Sample>, rank: Places, before: Links)
    requires LinkedIn(c, before) && Clipped(rule, c) && |c| >= 2 && before.Keys == rank.Keys
    requires forall s :: s in rank && s !in c ==> (s.nextsamp, s.prevsamp) == before[s]
    ensures Removed(before, LinksOf(rank), Outliers(rule, c[..Leading(c)]), CutOff(rule, c))
  {
    var clipped, cut := Outliers(rule, c[..Leading(c)]), CutOff(rule, c);
    ChainBefore(c, before);
    hide Clipped, Outliers, CutOff, LinkedIn, Leading, RemovedAt;
    forall s | s in clipped ensures s in c {
      OutlierAlone(rule, c, s);
    }
    forall s | s in cut ensures s in c {
      CutOffLast(rule, c, s);
    }
    forall s | s in before ensures RemovedAt(before[s], (s.nextsamp, s.prevsamp), clipped, cut, s) {
      if s in c {
        var i :| 0 <= i < |c| && c[i] == s;
        PlaceRemoved(rule, c, before, i);
      } else {
        Untouched(before[s], clipped, cut, s);
      }
    }
  }

  lemma Untouched(links: (Sample?, Sample?), clipped: set<Sample>, cut: set<Sample>, s: Sample)
    requires s !in clipped && s !in cut
    ensures RemovedAt(links, links, clipped, cut, s)
  {
  }

  lemma ChainBefore(c: seq<Sample>, before: Links)
    requires LinkedIn(c, before)
    ensures forall i :: 0 <= i < |c| ==> c[i] in before && (i > 0 ==> before[c[i]].0 != null)
  {
  }

  lemma PlaceRemoved(rule: Rule, c: seq<Sample>, before: Links, i: nat)
    requires LinkedIn(c, before) && Clipped(rule, c) && |c| >= 2 && i < |c|
    ensures RemovedAt(before[c[i]], (c[i].nextsamp, c[i].prevsamp), Outliers(rule, c[..Leading(c)]), CutOff(rule, c),
      c[i])
  {
    if c[i] in Outliers(rule, c[..Leading(c)]) {
      OutlierAlone(rule, c, c[i]);
    } else {
      KeepsPrevious(rule, c, i);
    }
    if c[i] in CutOff(rule, c) {
      CutOffLast(rule, c, c[i]);
    }
    hide Clipped, Outliers, Leading, CutsRef;
  }

  // ---- Which samples go ----

  lemma {:induction false} UnmaskedMembers(rule: Rule, p: seq<Sample>)
    requires Distinct(p)
    ensures Distinct(Unmasked(rule, p)) && forall x :: x in Unmasked(rule, p) <==> x in p && !rule.masked(x)
  {
    if p != [] {
      var q, last := p[..|p| - 1], p[|p| - 1];
      UnmaskedMembers(rule, q);
      assert p == q + [last] && last !in q;
    }
  }

  /** At least two samples are not masked. */
  ghost predicate TwoUnmasked(rule: Rule, p: seq<Sample>) {
    exists x, y :: x in p && y in p && x != y && !rule.masked(x) && !rule.masked(y)
  }

  lemma TwoOrMore(list: seq<Sample>)
    requires Distinct(list)
    ensures |list| > 1 <==> exists x, y :: x in list && y in list && x != y
  {
    if |list| > 1 {
      assert list[0] in list && list[1] in list && list[0] != list[1];
    }
  }

  lemma OneOrMore(list: seq<Sample>)
    ensures list != [] <==> exists x :: x in list
  {
    if list != [] {
      assert list[0] in list;
    }
  }

  lemma TwoCounted(rule: Rule, p: seq<Sample>)
    requires Distinct(p)
    ensures TwoUnmasked(rule, p) <==> |Unmasked(rule, p)| > 1
  {
    UnmaskedMembers(rule, p);
    TwoOrMore(Unmasked(rule, p));
    hide Unmasked;
    if x, y :| x in Unmasked(rule, p) && y in Unmasked(rule, p) && x != y {
      assert TwoUnmasked(rule, p) by {
        assert x in p && y in p && !rule.masked(x) && !rule.masked(y);
      }
    }
  }

  /** Which samples are outliers: if at least two are not masked, all that are too far from these, masked or not. */
  lemma OutlierExactly(rule: Rule, p: seq<Sample>, x: Sample)
    requires Distinct(p)
    ensures x in Outliers(rule, p) <==> x in p && TwoUnmasked(rule, p) && rule.far(Unmasked(rule, p), x)
  {
    TwoCounted(rule, p);
    NearMembers(rule, Unmasked(rule, p), p);
    hide Unmasked, Near, TwoUnmasked;
  }

  /** The samples whose mean the reference sample is compared with. */
  ghost function Averaged(rule: Rule, p: seq<Sample>): seq<Sample> {
    if |Unmasked(rule, p)| > 1 then Staying(rule, p) else Unmasked(rule, p)
  }

  /** Those that stay, masked or not, or the only one that is not masked. */
  lemma AveragedExactly(rule: Rule, p: seq<Sample>, x: Sample)
    requires Distinct(p)
    ensures x in Averaged(rule, p) <==>
      x in p && if TwoUnmasked(rule, p) then x !in Outliers(rule, p) else !rule.masked(x)
  {
    TwoCounted(rule, p);
    UnmaskedMembers(rule, p);
    OutliersCounted(rule, p);
    NearMembers(rule, Unmasked(rule, p), p);
    hide Unmasked, Near, TwoUnmasked, Outliers;
  }

  /** Sample `k` is the first reference sample of the chain, and too far from the mean of those before it, not all of
      which are masked and not all of which are removed. */
  ghost predicate CutAt(rule: Rule, c: seq<Sample>, k: nat) {
    && k < |c| && c[k].field.isrefcat && (forall i :: 0 <= i < k ==> !c[i].field.isrefcat)
    && SomeStay(rule, c[..k]) && rule.farRef(Averaged(rule, c[..k]), c[k])
  }

  /** Which reference sample is cut off. */
  lemma CutOffExactly(rule: Rule, c: seq<Sample>, s: Sample)
    requires Distinct(c)
    ensures s in CutOff(rule, c) <==> exists k: nat :: CutAt(rule, c, k) && c[k] == s
  {
    var k := Leading(c);
    StayCounted(rule, c[..k]);
    hide Staying, Unmasked, SomeStay;
    assert CutsRef(rule, c) ==> CutAt(rule, c, k);
    if k': nat :| CutAt(rule, c, k') && c[k'] == s {
      LeadingIs(c, k');
    }
  }

  ghost predicate SomeStay(rule: Rule, p: seq<Sample>) {
    (exists x :: x in p && !rule.masked(x)) && exists x :: x in p && x !in Outliers(rule, p)
  }

  lemma StayCounted(rule: Rule, p: seq<Sample>)
    requires Distinct(p)
    ensures SomeStay(rule, p) <==> Unmasked(rule, p) != [] && Staying(rule, p) != []
  {
    UnmaskedMembers(rule, p);
    StayingMembers(rule, p);
    OneOrMore(Unmasked(rule, p));
    OneOrMore(Staying(rule, p));
    hide Unmasked, Staying, Outliers;
    if x :| x in Unmasked(rule, p) {
      assert x in p && !rule.masked(x);
    }
    if x :| x in Staying(rule, p) {
      assert x in p && x !in Outliers(rule, p);
    }
    if SomeStay(rule, p) {
      var x :| x in p && !rule.masked(x);
      var y :| y in p && y !in Outliers(rule, p);
      assert x in Unmasked(rule, p) && y in Staying(rule, p);
    }
  }

  lemma StayingMembers(rule: Rule, p: seq<Sample>)
    requires Distinct(p)
    ensures forall x :: x in Staying(rule, p) <==> x in p && x !in Outliers(rule, p)
  {
    OutliersCounted(rule, p);
    NearMembers(rule, Unmasked(rule, p), p);
    hide Near, Unmasked, Outliers;
  }

  /** A chain that is clipped when `s` is visited. */
  predicate Ends(c: seq<Sample>, s: Sample) {
    |c| >= 2 && c[0] == s
  }

  /** What clipping leaves of a chain, besides outliers, which are alone. */
  ghost function Parts(rule: Rule, c: seq<Sample>): set<seq<Sample>> {
    var k := Leading(c);
    var staying := Staying(rule, c[..k]);
    (if CutsRef(rule, c) then {staying, c[k..]} else {staying + c[k..]}) - {[]}
  }

  /** The chains after a visit. */
  ghost function Visited(rule: Rule, chains: set<seq<Sample>>, s: Sample): set<seq<Sample>> {
    (set c | c in chains && !Ends(c, s)) + (set c, p | c in chains && Ends(c, s) && p in Parts(rule, c) :: p)
  }

  /** The chains after visits to some samples, in this order. */
  ghost function After(rule: Rule, chains: set<seq<Sample>>, visits: seq<Sample>): set<seq<Sample>> {
    if visits == [] then chains
    else Visited(rule, After(rule, chains, visits[..|visits| - 1]), visits[|visits| - 1])
  }

  /** The outliers that a visit removes, and the reference samples that it cuts off. */
  ghost function OutliersAt(rule: Rule, chains: set<seq<Sample>>, s: Sample): set<Sample> {
    set c, x | c in chains && Ends(c, s) && x in Outliers(rule, c[..Leading(c)]) :: x
  }

  ghost function CutOffAt(rule: Rule, chains: set<seq<Sample>>, s: Sample): set<Sample> {
    set c, x | c in chains && Ends(c, s) && x in CutOff(rule, c) :: x
  }

  /** All that visits to some samples remove. */
  ghost function AllOutliers(rule: Rule, chains: set<seq<Sample>>, visits: seq<Sample>): set<Sample> {
    set i, x | 0 <= i < |visits| && x in OutliersAt(rule, After(rule, chains, visits[..i]), visits[i]) :: x
  }

  ghost function AllCutOff(rule: Rule, chains: set<seq<Sample>>, visits: seq<Sample>): set<Sample> {
    set i, x | 0 <= i < |visits| && x in CutOffAt(rule, After(rule, chains, visits[..i]), visits[i]) :: x
  }

  lemma OneMoreVisit(rule: Rule, chains: set<seq<Sample>>, visits: seq<Sample>, n: nat)
    requires n < |visits|
    ensures var now := After(rule, chains, visits[..n]);
      && After(rule, chains, visits[..n + 1]) == Visited(rule, now, visits[n])
      && AllOutliers(rule, chains, visits[..n + 1]) ==
        AllOutliers(rule, chains, visits[..n]) + OutliersAt(rule, now, visits[n])
      && AllCutOff(rule, chains, visits[..n + 1]) ==
        AllCutOff(rule, chains, visits[..n]) + CutOffAt(rule, now, visits[n])
  {
    hide Visited, OutliersAt, CutOffAt;
    var v := visits[..n + 1];
    assert v[..n] == visits[..n];
    forall i | 0 <= i < n ensures v[..i] == visits[..n][..i] == visits[..i] {
    }
  }

  /** A chain is clipped at the first visit to its end, as it was at the beginning. */
  lemma {:induction false} FirstVisit(rule: Rule, chains: set<seq<Sample>>, visits: seq<Sample>, c: seq<Sample>, n: nat)
    requires c in chains && |c| >= 2 && n <= |visits| && forall i :: 0 <= i < n ==> visits[i] != c[0]
    ensures c in After(rule, chains, visits[..n])
  {
    if n > 0 {
      FirstVisit(rule, chains, visits, c, n - 1);
      assert visits[..n][..n - 1] == visits[..n - 1];
      hide After, Parts;
      assert !Ends(c, visits[n - 1]);
    }
  }

  lemma {:induction false} FirstOf(visits: seq<Sample>, s: Sample) returns (n: nat)
    requires s in visits
    ensures n < |visits| && visits[n] == s && forall i :: 0 <= i < n ==> visits[i] != s
  {
    n := 0;
    if visits[0] != s {
      assert s in visits[1..];
      n := FirstOf(visits[1..], s);
      n := n + 1;
      assert forall i :: 1 <= i < n ==> visits[i] == visits[1..][i - 1];
    }
  }

  /** So its outliers go, and its reference sample if that is too far. */
  lemma EndVisited(rule: Rule, chains: set<seq<Sample>>, visits: seq<Sample>, c: seq<Sample>)
    requires c in chains && |c| >= 2 && c[0] in visits
    ensures Outliers(rule, c[..Leading(c)]) <= AllOutliers(rule, chains, visits)
    ensures CutOff(rule, c) <= AllCutOff(rule, chains, visits)
  {
    hide After, Outliers, CutOff, Leading;
    var n := FirstOf(visits, c[0]);
    FirstVisit(rule, chains, visits, c, n);
    var now := After(rule, chains, visits[..n]);
    assert Ends(c, visits[n]);
    assert Outliers(rule, c[..Leading(c)]) <= OutliersAt(rule, now, visits[n]);
    assert CutOff(rule, c) <= CutOffAt(rule, now, visits[n]);
    hide OutliersAt, CutOffAt;
  }

  /** A chain whose end is never visited stays. */
  lemma NeverVisited(rule: Rule, chains: set<seq<Sample>>, visits: seq<Sample>, c: seq<Sample>)
    requires c in chains && (|c| < 2 || c[0] !in visits)
    ensures c in After(rule, chains, visits)
  {
    assert visits[..|visits|] == visits;
    if |c| >= 2 {
      FirstVisit(rule, chains, visits, c, |visits|);
    } else {
      ShortStays(rule, chains, visits, c);
    }
  }

  lemma {:induction false} ShortStays(rule: Rule, chains: set<seq<Sample>>, visits: seq<Sample>, c: seq<Sample>)
    requires c in chains && |c| < 2
    ensures c in After(rule, chains, visits)
  {
    if visits != [] {
      ShortStays(rule, chains, visits[..|visits| - 1], c);
    }
  }

  /** Every sample that goes was in one of the chains, and so is every sample that is still in one. */
  lemma {:induction false} AfterWithin(rule: Rule, chains: set<seq<Sample>>, visits: seq<Sample>, d: seq<Sample>)
    requires d in After(rule, chains, visits)
    ensures exists c :: c in chains && forall x :: x in d ==> x in c
  {
    if visits != [] {
      var n := |visits| - 1;
      var now := After(rule, chains, visits[..n]);
      if d in now {
        AfterWithin(rule, chains, visits[..n], d);
      } else {
        var e :| e in now && Ends(e, visits[n]) && d in Parts(rule, e);
        AfterWithin(rule, chains, visits[..n], e);
        StayingInChain(rule, e, Leading(e));
        assert forall x :: x in d ==> x in e;
      }
    }
  }

  // ---- The chains on the heap ----

  /** The samples are linked as in these chains, which share none, and those in no chain are linked to nothing. */
  ghost predicate Chained(chains: set<seq<Sample>>, rank: Places)
    reads rank.Keys
  {
    && (forall c :: c in chains ==> Strung(c, rank))
    && (forall c, d :: c in chains && d in chains && c != d ==> Apart(c, d))
    && forall s :: s in rank ==> Alone(s) || InSome(chains, s)
  }

  ghost predicate Strung(c: seq<Sample>, rank: Places)
    reads rank.Keys
  {
    c != [] && (forall i :: 0 <= i < |c| ==> c[i] in rank) && Linked(c)
  }

  ghost predicate Apart(c: seq<Sample>, d: seq<Sample>) {
    forall i :: 0 <= i < |c| ==> c[i] !in d
  }

  ghost predicate InSome(chains: set<seq<Sample>>, s: Sample) {
    exists c :: c in chains && s in c
  }

  /** All chains, from their ends. */
  ghost function ChainsOf(rank: Places): set<seq<Sample>>
    requires AllOk(rank)
    reads rank.Keys
  {
    set s | s in rank && s.nextsamp == null :: ChainFrom(s, rank)
  }

  ghost function Later(rank: Places, s: Sample): set<Sample> {
    set t | t in rank && Comes(rank, s, t)
  }

  /** Every sample is in a chain. */
  lemma {:induction false} EndOf(s: Sample, rank: Places) returns (e: Sample)
    requires AllOk(rank) && s in rank
    ensures e in rank && e.nextsamp == null && s in ChainFrom(e, rank)
    decreases Later(rank, s)
  {
    e := s;
    if s.nextsamp != null {
      assert LinksOk(s, rank);
      assert Later(rank, s.nextsamp) < Later(rank, s) by {
        assert s.nextsamp in Later(rank, s) && s.nextsamp !in Later(rank, s.nextsamp);
      }
      e := EndOf(s.nextsamp, rank);
      var c := ChainFrom(e, rank);
      ChainFalls(e, rank);
      var i :| 0 <= i < |c| && c[i] == s.nextsamp;
      assert c[i].prevsamp == s;
      assert c[i + 1] == s;
    }
  }

  /** Two linked chains with a common sample have the same end. */
  lemma {:induction false} SameEnd(c: seq<Sample>, d: seq<Sample>, i: nat, j: nat)
    requires Linked(c) && Linked(d) && i < |c| && j < |d| && c[i] == d[j]
    ensures c[0] == d[0]
    decreases i
  {
    assert LinkAt(c, i) && LinkAt(d, j);
    if i > 0 {
      SameEnd(c, d, i - 1, j - 1);
    }
  }

  lemma ChainsChained(rank: Places)
    requires AllOk(rank)
    ensures Chained(ChainsOf(rank), rank)
  {
    hide AllOk, Linked, ChainFrom;
    var chains := ChainsOf(rank);
    forall c | c in chains ensures Strung(c, rank) {
      EndOfChain(c[0], rank);
    }
    forall c, d | c in chains && d in chains && c != d ensures Apart(c, d) {
      forall i | 0 <= i < |c| ensures c[i] !in d {
        if c[i] in d {
          var j :| 0 <= j < |d| && d[j] == c[i];
          SameEnd(c, d, i, j);
        }
      }
    }
    forall s | s in rank ensures InSome(chains, s) {
      var e := EndOf(s, rank);
      assert ChainFrom(e, rank) in chains;
    }
  }

  /** A linked chain is what its end leads to. */
  lemma {:induction false} ChainFromIs(c: seq<Sample>, i: nat, rank: Places)
    requires AllOk(rank) && Strung(c, rank) && i < |c|
    ensures ChainFrom(c[i], rank) == c[i..]
    decreases |c| - i
  {
    assert LinkAt(c, i);
    if i + 1 < |c| {
      ChainFromIs(c, i + 1, rank);
    }
  }

  /** The one chain that a visit to an end clips. */
  lemma VisitedChain(chains: set<seq<Sample>>, rank: Places, s: Sample)
    requires AllOk(rank) && Chained(chains, rank) && s in rank && s.nextsamp == null && s.prevsamp != null
    ensures ChainFrom(s, rank) in chains && Ends(ChainFrom(s, rank), s)
    ensures forall d :: d in chains && Ends(d, s) ==> d == ChainFrom(s, rank)
  {
    hide AllOk, ChainFrom, Apart;
    assert InSome(chains, s);
    var c :| c in chains && s in c;
    assert Strung(c, rank);
    var i :| 0 <= i < |c| && c[i] == s;
    assert LinkAt(c, i) && LinkAt(c, 0);
    ChainFromIs(c, 0, rank);
    forall d | d in chains && Ends(d, s) ensures d == ChainFrom(s, rank) {
      assert Strung(d, rank);
      ChainFromIs(d, 0, rank);
    }
  }

  /** And a visit to any other sample clips none. */
  lemma NoneVisited(rule: Rule, chains: set<seq<Sample>>, rank: Places, s: Sample)
    requires Chained(chains, rank) && (s.nextsamp != null || s.prevsamp == null)
    ensures Visited(rule, chains, s) == chains && OutliersAt(rule, chains, s) == {} == CutOffAt(rule, chains, s)
  {
    forall c | c in chains ensures !Ends(c, s) {
      assert Strung(c, rank) && LinkAt(c, 0);
    }
    hide Outliers, CutOff, Parts;
  }

  lemma VisitedOne(rule: Rule, chains: set<seq<Sample>>, s: Sample, c: seq<Sample>)
    requires c in chains && Ends(c, s) && forall d :: d in chains && Ends(d, s) ==> d == c
    ensures Visited(rule, chains, s) == chains - {c} + Parts(rule, c)
    ensures OutliersAt(rule, chains, s) == Outliers(rule, c[..Leading(c)])
    ensures CutOffAt(rule, chains, s) == CutOff(rule, c)
  {
    hide Outliers, CutOff, Parts, Ends, Leading;
  }

  /** What is left of a chain, linked. */
  lemma PartsStrung(rule: Rule, c: seq<Sample>, rank: Places)
    requires Clipped(rule, c) && forall i :: 0 <= i < |c| ==> c[i] in rank
    ensures forall p :: p in Parts(rule, c) ==> Strung(p, rank) && forall i :: 0 <= i < |p| ==> p[i] in c
    ensures forall p, q :: p in Parts(rule, c) && q in Parts(rule, c) && p != q ==> Apart(p, q)
    ensures forall s :: s in c ==> Alone(s) || InSome(Parts(rule, c), s)
  {
    var k := Leading(c);
    StayingInChain(rule, c, k);
    var x, y := Staying(rule, c[..k]), c[k..];
    assert forall i :: 0 <= i < |y| ==> y[i] in c;
    forall i, j | 0 <= i < |x| && 0 <= j < |y| ensures x[i] != y[j] {
      assert x[i] in c[..k];
    }
    forall s | s in c ensures Alone(s) || InSome(Parts(rule, c), s) {
      var i :| 0 <= i < |c| && c[i] == s;
      if i >= k {
        assert y[i - k] == s;
        assert s in y && s in x + y;
      } else if s in x {
        assert s in x + y;
      }
      assert if CutsRef(rule, c) then (x != [] ==> x in Parts(rule, c)) && (y != [] ==> y in Parts(rule, c))
             else x + y != [] ==> x + y in Parts(rule, c);
    }
    hide Linked, CutsRef, Leading, Staying, Alone;
  }

  lemma StillStrung(d: seq<Sample>, rank: Places)
    requires d != [] && (forall i :: 0 <= i < |d| ==> d[i] in rank) && Distinct(d)
      && forall i :: 0 <= i < |d| ==> LinkAt(d, i)
    ensures Strung(d, rank)
  {
  }

  /** The chains after one of them has been clipped and all others have stayed. */
  lemma ClippedChained(rule: Rule, chains: set<seq<Sample>>, rank: Places, c: seq<Sample>)
    requires c in chains && Clipped(rule, c) && forall i :: 0 <= i < |c| ==> c[i] in rank
    requires forall d :: d in chains && d != c ==> Strung(d, rank) && Apart(c, d)
    requires forall d, e :: d in chains && e in chains && d != e ==> Apart(d, e)
    requires forall s :: s in rank && s !in c ==> Alone(s) || InSome(chains - {c}, s)
    ensures Chained(chains - {c} + Parts(rule, c), rank)
  {
    PartsStrung(rule, c, rank);
    var after := chains - {c} + Parts(rule, c);
    hide Parts, Clipped, Strung, Alone;
    forall d, e | d in after && e in after && d != e ensures Apart(d, e) {
      if d in Parts(rule, c) && e !in Parts(rule, c) {
        assert Apart(c, e);
        PartApart(d, c, e);
      } else if d !in Parts(rule, c) && e in Parts(rule, c) {
        assert Apart(d, c);
        ApartPart(d, c, e);
      }
    }
    forall s | s in rank ensures Alone(s) || InSome(after, s) {
      if s in c {
        MoreChains(Parts(rule, c), after, s);
      } else {
        MoreChains(chains - {c}, after, s);
      }
    }
  }

  lemma PartApart(p: seq<Sample>, c: seq<Sample>, e: seq<Sample>)
    requires Apart(c, e) && forall i :: 0 <= i < |p| ==> p[i] in c
    ensures Apart(p, e)
  {
  }

  lemma ApartPart(e: seq<Sample>, c: seq<Sample>, p: seq<Sample>)
    requires Apart(e, c) && forall i :: 0 <= i < |p| ==> p[i] in c
    ensures Apart(e, p)
  {
  }

  lemma MoreChains(a: set<seq<Sample>>, b: set<seq<Sample>>, s: Sample)
    requires a <= b
    ensures InSome(a, s) ==> InSome(b, s)
  {
  }

  lemma OtherChains(chains: set<seq<Sample>>, rank: Places, c: seq<Sample>)
    requires Chained(chains, rank)
    ensures forall s :: s in rank && s !in c ==> Alone(s) || InSome(chains - {c}, s)
  {
    hide Strung, Apart, Alone;
    forall s | s in rank && s !in c && InSome(chains, s) ensures InSome(chains - {c}, s) {
      var d :| d in chains && s in d;
      assert d in chains - {c};
    }
  }

  lemma AllStrung(chains: set<seq<Sample>>, rank: Places)
    requires Chained(chains, rank)
    ensures forall d :: d in chains ==>
      d != [] && Distinct(d) && forall i :: 0 <= i < |d| ==> d[i] in rank && LinkAt(d, i)
    ensures forall c, d :: c in chains && d in chains && c != d ==> Apart(c, d)
  {
    hide Apart, LinkAt;
    forall d | d in chains ensures d != [] && Distinct(d) && forall i :: 0 <= i < |d| ==> d[i] in rank && LinkAt(d, i) {
      assert Strung(d, rank);
    }
  }

  /** A visit to the end of a chain. */
  method VisitEnd(samp: Sample, rule: Rule, ghost rank: Places, ghost chains: set<seq<Sample>>)
      returns (n: nat, ghost clipped: set<Sample>, ghost cut: set<Sample>)
    requires AllOk(rank) && Chained(chains, rank) && samp in rank && samp.nextsamp == null && samp.prevsamp != null
    modifies rank.Keys
    ensures AllOk(rank) && Chained(Visited(rule, chains, samp), rank)
    ensures clipped == OutliersAt(rule, chains, samp) && cut == CutOffAt(rule, chains, samp)
    ensures Removed(old(LinksOf(rank)), LinksOf(rank), clipped, cut) && n == |clipped| + |cut|
  {
    hide AllOk, LinksOk, Leading, Removed, LinksOf, Linked, Staying, CutsRef, Outliers, CutOff, Visited, OutliersAt,
      CutOffAt, Parts, Clipped, InSome;
    ghost var c := ChainFrom(samp, rank);
    VisitedChain(chains, rank, samp);
    VisitedOne(rule, chains, samp, c);
    OtherChains(chains, rank, c);
    AllStrung(chains, rank);
    n, clipped, cut := ClipAt(samp, rule, rank);
    forall d | d in chains && d != c ensures Strung(d, rank) && Apart(c, d) {
      assert Apart(d, c);
      forall i | 0 <= i < |d| ensures LinkAt(d, i) {
        assert d[i] in rank && d[i] !in c && old(LinkAt(d, i));
      }
      StillStrung(d, rank);
    }
    forall s | s in rank && s !in c ensures Alone(s) || InSome(chains - {c}, s) {
      assert old(Alone(s) || InSome(chains - {c}, s));
    }
    ghost var after := chains - {c} + Parts(rule, c);
    ClippedChained(rule, chains, rank, c);
  }
  /** astrclip_fgroup: clipping keeps the chains mutual, free of rings, and in order, and never joins two chains. What
      it returns is the number of outliers and of reference samples that it has removed. */
  method AstrClipAll(samples: seq<Sample>, rule: Rule, ghost rank: Places)
    returns (nclip: nat, ghost clipped: set<Sample>, ghost cut: set<Sample>)
    requires AllOk(rank) && forall s :: s in samples ==> s in rank
    modifies rank.Keys
    ensures AllOk(rank)
    ensures Removed(old(LinksOf(rank)), LinksOf(rank), clipped, cut) && nclip == |clipped| + |cut|
    ensures var chains := old(ChainsOf(rank));
      && Chained(After(rule, chains, samples), rank)
      && clipped == AllOutliers(rule, chains, samples) && cut == AllCutOff(rule, chains, samples)
    ensures forall s :: s in samples && old(s.nextsamp == null && s.prevsamp != null) ==>
      var c := old(ChainFrom(s, rank)); Outliers(rule, c[..Leading(c)]) <= clipped && CutOff(rule, c) <= cut
  {
    hide AllOk, LinksOk, Leading, Removed, LinksOf, Chained, ChainsOf, After, AllOutliers, AllCutOff, OutliersAt,
      CutOffAt, Outliers, CutOff, Visited;
    nclip, clipped, cut := 0, {}, {};
    ghost var chains := ChainsOf(rank);
    NothingRemoved(LinksOf(rank));
    ChainsChained(rank);
    EndsListed(rank);
    NoVisits(rule, chains, samples);
    for n := 0 to |samples|
      invariant AllOk(rank) && Chained(After(rule, chains, samples[..n]), rank)
      invariant Removed(old(LinksOf(rank)), LinksOf(rank), clipped, cut) && nclip == |clipped| + |cut|
      invariant clipped == AllOutliers(rule, chains, samples[..n]) && cut == AllCutOff(rule, chains, samples[..n])
    {
      var samp := samples[n];
      ghost var now := After(rule, chains, samples[..n]);
      OneMoreVisit(rule, chains, samples, n);
      if samp.nextsamp == null && samp.prevsamp != null {
        ghost var clipped', cut', links := {}, {}, LinksOf(rank);
        var more;
        more, clipped', cut' := VisitEnd(samp, rule, rank, now);
        RemovedThen(old(LinksOf(rank)), links, LinksOf(rank), clipped, cut, clipped', cut');
        nclip, clipped, cut := nclip + more, clipped + clipped', cut + cut';
      } else {
        NoneVisited(rule, now, rank, samp);
      }
    }
    assert samples[..|samples|] == samples;
    forall s | s in samples && old(s.nextsamp == null && s.prevsamp != null)
      ensures var c := old(ChainFrom(s, rank)); Outliers(rule, c[..Leading(c)]) <= clipped && CutOff(rule, c) <= cut
    {
      EndVisited(rule, chains, samples, old(ChainFrom(s, rank)));
    }
  }

  lemma EndsListed(rank: Places)
    requires AllOk(rank)
    ensures forall s :: s in rank && s.nextsamp == null && s.prevsamp != null ==>
      var c := ChainFrom(s, rank); c in ChainsOf(rank) && |c| >= 2 && c[0] == s
  {
  }

  lemma NoVisits(rule: Rule, chains: set<seq<Sample>>, visits: seq<Sample>)
    ensures After(rule, chains, visits[..0]) == chains
    ensures AllOutliers(rule, chains, visits[..0]) == {} == AllCutOff(rule, chains, visits[..0])
  {
  }

  // ---- The arithmetic of the decisions ----

  /** Projected positions on several axes, the squared limits per axis for detections and for reference samples, and the
      flags that mask a sample. */
  datatype Setting = Setting(
    naxis: nat, pos: (Sample, nat) -> real, clipi: nat -> real, clipr: nat -> real, masked: Sample -> bool)

  function Total(pos: (Sample, nat) -> real, list: seq<Sample>, i: nat): real {
    if list == [] then 0.0 else Total(pos, list[..|list| - 1], i) + pos(list[|list| - 1], i)
  }

  function Mean(pos: (Sample, nat) -> real, list: seq<Sample>, i: nat): real {
    if list == [] then 0.0 else Total(pos, list, i) / |list| as real
  }

  /** The squared distance of a sample from the mean of a list, on the first axes. */
  function Spread(pos: (Sample, nat) -> real, list: seq<Sample>, s: Sample, axes: nat): real {
    if axes == 0 then 0.0
    else
      var dx := pos(s, axes - 1) - Mean(pos, list, axes - 1);
      Spread(pos, list, s, axes - 1) + dx * dx
  }

  /** On the way over the axes the squared distance exceeds the limit of the axis just added. */
  predicate Beyond(naxis: nat, pos: (Sample, nat) -> real, limit: nat -> real, list: seq<Sample>, s: Sample) {
    exists i :: 0 <= i < naxis && Spread(pos, list, s, i + 1) > limit(i)
  }

  function RuleOf(k: Setting): Rule {
    Rule(k.masked, (list: seq<Sample>, s: Sample) => Beyond(k.naxis, k.pos, k.clipi, list, s),
         (list: seq<Sample>, s: Sample) => Beyond(k.naxis, k.pos, k.clipr, list, s))
  }

  lemma TotalNext(pos: (Sample, nat) -> real, list: seq<Sample>, n: nat, i: nat)
    requires n < |list|
    ensures Total(pos, list[..n + 1], i) == Total(pos, list[..n], i) + pos(list[n], i)
  {
    assert list[..n + 1][..n] == list[..n];
  }

  /** The means over a list, summed sample by sample on all axes. */
  method Means(naxis: nat, pos: (Sample, nat) -> real, list: seq<Sample>) returns (mean: array<real>)
    requires list != []
    ensures fresh(mean) && mean.Length == naxis && forall i :: 0 <= i < naxis ==> mean[i] == Mean(pos, list, i)
  {
    mean := new real[naxis](_ => 0.0);
    for n := 0 to |list|
      invariant forall i :: 0 <= i < naxis ==> mean[i] == Total(pos, list[..n], i)
    {
      for i := 0 to naxis
        invariant forall j :: 0 <= j < i ==> mean[j] == Total(pos, list[..n + 1], j)
        invariant forall j :: i <= j < naxis ==> mean[j] == Total(pos, list[..n], j)
      {
        TotalNext(pos, list, n, i);
        mean[i] := mean[i] + pos(list[n], i);
      }
    }
    assert list[..|list|] == list;
    for i := 0 to naxis
      invariant forall j :: 0 <= j < i ==> mean[j] == Mean(pos, list, j)
      invariant forall j :: i <= j < naxis ==> mean[j] == Total(pos, list, j)
    {
      mean[i] := mean[i] / |list| as real;
    }
  }

  /** The loop over the axes, which stops at the first limit that is exceeded. */
  method TooFar(naxis: nat, pos: (Sample, nat) -> real, limit: nat -> real, mean: array<real>, s: Sample,
                ghost list: seq<Sample>)
      returns (flag: bool)
    requires mean.Length == naxis && forall i :: 0 <= i < naxis ==> mean[i] == Mean(pos, list, i)
    ensures flag == Beyond(naxis, pos, limit, list, s)
  {
    flag := false;
    var dr2 := 0.0;
    for i := 0 to naxis
      invariant !flag && dr2 == Spread(pos, list, s, i)
      invariant forall j :: 0 <= j < i ==> Spread(pos, list, s, j + 1) <= limit(j)
    {
      var dx := pos(s, i) - mean[i];
      dr2 := dr2 + dx * dx;
      if dr2 > limit(i) {
        flag := true;
        assert Spread(pos, list, s, i + 1) > limit(i);
        break;
      }
    }
  }

  function Shifted(pos: (Sample, nat) -> real, m: real): (Sample, nat) -> real {
    (s: Sample, i: nat) => pos(s, i) - m
  }

  /** The deviations from the mean cancel. */
  lemma {:induction false} DeviationsCancel(pos: (Sample, nat) -> real, list: seq<Sample>, m: real, i: nat)
    ensures Total(Shifted(pos, m), list, i) == Total(pos, list, i) - |list| as real * m
    ensures list != [] && m == Mean(pos, list, i) ==> Total(Shifted(pos, m), list, i) == 0.0
  {
    if list != [] {
      var n := |list| - 1;
      DeviationsCancel(pos, list[..n], m, i);
      assert |list| as real * m == n as real * m + m;
    }
  }

  /** The squared distance never falls from axis to axis. */
  lemma {:induction false} SpreadGrows(pos: (Sample, nat) -> real, list: seq<Sample>, s: Sample, a: nat, b: nat)
    requires a <= b
    ensures 0.0 <= Spread(pos, list, s, a) <= Spread(pos, list, s, b)
    decreases b
  {
    if b > 0 {
      var dx := pos(s, b - 1) - Mean(pos, list, b - 1);
      assert dx * dx >= 0.0;
      if a < b {
        SpreadGrows(pos, list, s, a, b - 1);
      } else {
        SpreadGrows(pos, list, s, a - 1, a - 1);
      }
    }
  }
}
